# pymute core, modelled in Dafny

pymute is a mutation tester for Python projects, written in Rust. It finds
places in the project's source where a small textual rule applies. Examples
are `" + "` becoming `" - "`, `"=="` becoming `"!="`, or a digit becoming
the next number. It writes each such mutant into the code, runs the
project's tests (pytest or tox), and reports whether the tests caught the
mutant or let it survive.

This project models the sequential core of that tool and proves its laws.
All operations are pure functions over immutable data.

- `wrappers.dfy`: `Option`.
- `text.dfy`: the string operations the source uses, on `seq<char>`:
  - `str::contains`, `str::replace`, `str::find`, `split('#')`;
  - `BufRead::lines`, which splits on `"\n"` and drops one `"\r"` before
    each `"\n"`;
  - the write-back form, in which every line is followed by `"\n"`;
  - lexicographic string order and decimal formatting.
- `files.dfy`: a file tree, modelled as a map from paths (component lists)
  to file texts, with the directory copy, the tree removal and the view of
  a tree from a directory.
- `mutants.rs` is modelled across four files:
  - `mutants.dfy`: the mutation categories, the rule table, quote
    stripping, and the choice of the first rule found on a line.
  - `scanner.dfy`: the per-file line scanner with its docstring toggle, and
    the walk over glob matches that skips pytest test files.
  - `scanner_laws.dfy`: what the scanner emits, stated against a per-line
    reference.
  - `patch.dfy`: `insert`, `remove` and `insert_in_new_root` on the file
    tree.
- `lib.rs` `run` is modelled across two files:
  - `order.dfy`: mutant identity `(file_path, line_number, before, after)`,
    the order on it, and the stable sort.
  - `orchestrator.dfy`: subsampling, the merge with the cached list, and
    list mode.
- `runner.dfy`: the `runner.rs` logic. This covers:
  - the pytest and tox command lines and the output suppression;
  - the verdict from the exit status and the reporting rule;
  - the in-place and copy-to-a-temporary-directory workflows;
  - the batch loops.

  The test process is a parameter: an oracle from the tree it runs on and
  the command to its exit status and the tree it leaves behind, or none
  when the process cannot be started.
- `fixtures.dfy`: the repository's own unit-test scenarios, restated as
  lemmas about the model.

Mutant identity and order are fixed to the tuple
`(file_path, line_number, before, after)`. The `Mutant` record at
src/mutants.rs:146-158 has no `status` field and derives no equality or
ordering. Yet src/lib.rs:63-67 compares and sorts mutants, and
src/cache.rs:21 deserializes them. The files come from different revisions,
and the merge is modelled with the tuple as both the identity and the sort
key.

## Model

| member | source | states |
|---|---|---|
| Mutants.BuildReplacementsSpec | src/mutants.rs:358-408 | the rule table is the concatenation of each listed category's rules, in the order the categories are passed; the digit rules appear only at the first `Numbers`, because `append` drains them |
| Mutants.BuildReplacementsMembership | src/mutants.rs:358-408 | a rule is in the table exactly when some listed category contains it |
| Mutants.DropRepeatedNumbersMembership | src/mutants.rs:361-404 | a repeated `Numbers` contributes nothing more, while every other repeated category contributes again |
| Mutants.ExpandFromSpec | src/mutants.rs:366-405 | the `for_each` over categories, with the drained digit list threaded through, equals concatenating the categories once repeats of `Numbers` are dropped |
| Mutants.NumberRules | src/mutants.rs:361-364 | ten digit rules, `n` to `n+1` for n = 0..9 |
| Mutants.BuildReplacementsOneLine | src/mutants.rs:369-404 | no rule text holds a line break, so a substitution keeps a line one line |
| Mutants.RemoveQuotes | src/mutants.rs:336-339 | the result is no longer and uses only the input's characters; after a quote character that survives, the same quote never appears again |
| Mutants.QuotedSpanRemoved | src/mutants.rs:336-339 | a leftmost `'…'` or `"…"` span, quotes included, disappears and the text before it stays |
| Mutants.RemoveQuotesOfQuoteFree | src/mutants.rs:336-339 | text without quotes is unchanged |
| Mutants.RemoveQuotesOfUnpaired | src/mutants.rs:336-339 | text whose quote characters are never followed by the same quote (unpaired) is unchanged |
| Mutants.RemoveQuotesIdempotent | src/mutants.rs:336-339 | stripping quotes twice is stripping once |
| Mutants.FirstMatchIndex | src/mutants.rs:350-352 | the index found is the first rule whose trigger occurs, or the list length when none does |
| Mutants.ReplacementFromLine | src/mutants.rs:344-354 | none exactly when no trigger occurs in the quote-stripped line; otherwise the rule at the least index whose trigger occurs |
| Mutants.ReplacementSeesUnquoted | src/mutants.rs:348 | the choice depends only on the quote-stripped line |
| Scanner.ScanFrom | src/mutants.rs:289-331 | every emitted mutant carries the file's path and a line number within the file, past the scan position |
| Scanner.MutantsOfEntry | src/mutants.rs:119-139 | a glob error or an unreadable file contributes no mutant; the others carry the entry's path |
| ScannerLaws.ScanFromIsSomes | src/mutants.rs:289-331 | the stateful scan equals the per-line reference: each line judged with the docstring flag computed from the lines before it, and its verdict kept when present |
| ScannerLaws.ScanFromStep | src/mutants.rs:289-331 | one step of the loop: the line's mutant, if any, then the rest of the scan from the next flag |
| ScannerLaws.DocstringTestsAreMatchCounts | src/mutants.rs:287-305 | the character-level docstring tests agree with `matches(marker).count() == 2` and `contains(marker)` for `"""` and `'''` |
| ScannerLaws.TripleCountIsMatchCount | src/mutants.rs:295 | counting runs of three quote characters is the non-overlapping match count of the marker |
| ScannerLaws.MutantOnLineSpec | src/mutants.rs:306-327 | a mutant from line i has line number i+1 and the full line as saved line; the line is scanned, and its text before the first `#` chooses the mutant's rule |
| ScannerLaws.AddMutantsFromFileSpec | src/mutants.rs:278-333 | the mutants of a file are exactly the per-line verdicts: each comes from its own line, every line with a verdict is represented, and line numbers strictly increase |
| ScannerLaws.EmittedMutant | src/mutants.rs:289-327 | any emitted mutant has the file's path, a line inside the file, that line as saved line, a rule from the table, a scanned line, and the rule chosen for the line's text before `#` |
| ScannerLaws.DocstringLineSkipped | src/mutants.rs:300-312 | a line inside a docstring block, after the toggle, yields no mutant |
| ScannerLaws.CommentLineSkipped | src/mutants.rs:306-308 | a line starting with `#` yields no mutant |
| ScannerLaws.ScanFromOrdered | src/mutants.rs:289-321 | mutants come out in strictly increasing line order |
| ScannerLaws.FindMutantsInFiltered | src/mutants.rs:119-139 | every discovered mutant comes from a readable glob match whose file name neither starts with `test_` nor ends with `_test.py`, and carries a rule from the table |
| ScannerLaws.FindMutantsInAppend | src/mutants.rs:119-142 | discovery over two lists of matches is discovery over each, concatenated in glob order |
| ScannerLaws.FindMutantsInAround | src/mutants.rs:119-140 | discovery splits around any one match: the mutants before it, its own, then those after it |
| ScannerLaws.FindMutantsInScansNonTest | src/mutants.rs:121-136 | a readable match whose file name is not a test file's name contributes every mutant of its text, in its place in glob order |
| ScannerLaws.TestFileSkipped | src/mutants.rs:130-135 | a match whose file name starts with `test_` or ends with `_test.py` contributes nothing, readable or not |
| Patch.Rewrite | src/mutants.rs:210-249 | a missing file is the open error; a line number outside 1..line count is the index panic; otherwise only the mutant's file changes |
| Patch.RewriteReadBack | src/mutants.rs:216-245 | read back, the written file has as many lines, with the edited line in place and every other line as before, less a trailing `"\r"` |
| Patch.InsertReadBack | src/mutants.rs:210-226 | after an insert, the mutant's line carries the replace-all of `before` by `after`, and every other plain line is unchanged |
| Patch.RemoveAfterInsert | src/mutants.rs:210-249 | remove after insert gives back the file's lines in the written form, with `"\n"` after each line |
| Patch.RemoveAfterInsertRestores | src/mutants.rs:210-249 | on a file already in the written form, remove after insert is the identity |
| Patch.RemoveAfterInsertDropsCarriageReturn | src/mutants.rs:216-245 | the revert is not exact on Windows line endings: `"a + b\r\n"` comes back as `"a + b\n"` |
| Patch.RemoveIdempotent | src/mutants.rs:233-249 | removing twice is removing once, for a file whose lines and whose saved line carry no trailing `"\r"` |
| Patch.InsertInNewRoot | src/mutants.rs:174-204 | an unresolvable file or root panics; a file outside the root is the strip-prefix error; a write touches only the re-rooted path |
| Patch.InsertInSameRoot | src/mutants.rs:174-204 | inserting with the same root as the new root is an in-place insert |
| Patch.InsertInNewRootKeepsOriginal | src/mutants.rs:187-200 | inserting under another root never changes the original file |
| Patch.InsertInCopyMatchesInsert | src/mutants.rs:187-200 | after a copy of the tree, the copy's file receives exactly what an in-place insert would write, and the original is untouched |
| Files.StripPrefix | src/mutants.rs:187 | succeeds exactly when the root is a component prefix, and the rest joined back gives the path |
| Files.CopyTree | src/runner.rs:193-195 | every file under the root appears under the destination with the same text, and nothing outside the destination changes |
| Files.CopyView | src/runner.rs:193-195 | seen from a fresh destination, the copy is the project as seen from the root |
| MutantOrder.SortSorted | src/lib.rs:67 | the sort's result is ordered by identity |
| MutantOrder.Sort | src/lib.rs:67 | the sort is a permutation |
| MutantOrder.SortOfSorted | src/lib.rs:67 | sorting a sorted list changes nothing |
| MutantOrder.SortStable | src/lib.rs:67 | the sort is stable: mutants sharing one identity keep their relative order |
| MutantOrder.IdLessTotal | src/lib.rs:67 | the identity order is total |
| MutantOrder.IdLessTransitive | src/lib.rs:67 | the identity order is transitive |
| Orchestrator.AppendNew | src/lib.rs:62-66 | the merge loop keeps the cached list as a prefix and adds only discovered mutants |
| Orchestrator.AppendNewCovers | src/lib.rs:62-66 | every discovered mutant's identity is present afterwards |
| Orchestrator.AppendNewDistinct | src/lib.rs:62-66 | the loop adds no duplicate, even of a mutant repeated in the discovered list, because the check runs against the growing list |
| Orchestrator.MergeCacheSpec | src/lib.rs:60-68 | the merged list is sorted, keeps every cached entry, holds every discovered identity, holds nothing else, and has no duplicates when the cache had none |
| Orchestrator.MergeCacheAllCached | src/lib.rs:60-68 | when everything discovered is cached already, the merge just sorts the cache |
| Orchestrator.MergeCacheIdempotent | src/lib.rs:60-68 | merging the same discoveries a second time changes nothing |
| Orchestrator.Choose | src/lib.rs:45 | the sample takes, slot by slot, the picked discovered mutants |
| Orchestrator.ChooseSubMultiset | src/lib.rs:45 | distinct picks never take a mutant more often than it was discovered |
| Orchestrator.SubsampleSpec | src/lib.rs:33-48 | the sample has min(max, n) entries drawn from the discovered ones, and is the whole list in order when n <= max |
| Orchestrator.RunPassesThrough | src/lib.rs:49-71 | without a maximum and without a cache file, the discovered list passes unchanged: no sort, no dedup |
| Orchestrator.RunBounded | src/lib.rs:33-56 | with a maximum and no cache, at most `max` mutants, each from the discovered list |
| Orchestrator.RunKeepsCache | src/lib.rs:60-68 | with a cache file, every cached entry survives and the list is sorted |
| Orchestrator.RunCacheErrors | src/cache.rs:15-25 | a cache that cannot be opened is a returned error; a malformed record is a panic |
| Orchestrator.ListMatchesExecute | src/lib.rs:73-78 | list mode returns before the runner with the same list, and its message counts that list |
| Orchestrator.ListedMessageCount | src/lib.rs:77 | the message is "Found and listed N mutants", with N reading back as the count |
| Runner.TestCommand | src/runner.rs:138-168 | pytest runs `python -B -m pytest <tests> -x`, tox runs `tox`; the working directory is the given one; output is discarded unless the level is `Process` |
| Runner.TestCommandOptions | src/runner.rs:144-160 | pytest adds the one argument `-n N` exactly when a thread count is given, tox adds `-e ENV` exactly when an environment is given |
| Runner.Classify | src/runner.rs:174-178 | Missed exactly when the exit status is success; any other status is Caught |
| Runner.ReportLevels | src/runner.rs:98-107 | a survivor is always reported, a killed mutant exactly when the level is not `Missed`, and a more verbose level never reports less |
| Runner.RunMutantInPlace | src/runner.rs:126-179 | a failed insert aborts with the tree as it was; a failed spawn leaves the mutant inserted; a finished run puts the saved line back into the tree the tests left, with the verdict of their exit status |
| Runner.RunInPlaceRestores | src/runner.rs:126-179 | on a file in the written form, a run whose tests leave the mutated file alone gives that file back as it was, keeps every other file as the tests left it, and returns the tests' verdict on the mutated project |
| Runner.RunInPlaceUnchanged | src/runner.rs:126-179 | when the tests also write nothing else, the project comes back unchanged |
| Runner.ScannedMutantRunRestores | src/runner.rs:126-179 | the file comes back as it was for any mutant the scanner found in it, when the tests leave that file alone |
| Runner.SpawnFailureLeavesMutant | src/runner.rs:170-172 | when the tests cannot start, the `?` returns before the remove and the tree keeps the mutant |
| Runner.RunMutant | src/runner.rs:182-240 | the isolated run leaves nothing under the temporary directory |
| Runner.RunMutantKeepsProject | src/runner.rs:182-240 | for tests that write only below their working directory, the isolated run leaves the project exactly as it was |
| Runner.CopyViewMatchesInPlace | src/runner.rs:193-199 | the tests in the copy see the same project as in-place tests would see from the root |
| Runner.InPlaceMatchesIsolated | src/runner.rs:126-240 | for a hermetic test process confined to its working directory that leaves the mutated file alone, the two workflows end the same way with the same verdict, the isolated one leaves the project unchanged, and the in-place one does too when its tests write nothing |
| Runner.ReportsOfRunsSpec | src/runner.rs:82-109 | a mutant is reported as survived exactly when a run of it passed, and as killed exactly when one failed and the level is not `Missed` |
| Runner.BatchOfRunsSpec | src/runner.rs:87-96 | a batch completes exactly when every run has a verdict; otherwise it stops at the first run without one |
| Runner.RunBatchInPlace | src/runner.rs:82-109 | a stopped batch names one of its mutants |
| Runner.BatchInPlaceIsRunsAlone | src/runner.rs:82-109 | when each run gives the project back, the shared-tree batch equals the runs taken alone against the original project |
| Runner.BatchInPlaceRestores | src/runner.rs:66-110 | when every test process writes nothing, the in-place batch completes, restores the project and reports every verdict |
| Runner.RunBatch | src/runner.rs:28-64 | a stopped batch names a mutant of the list; at most one report per mutant, each about a mutant of the list |
| Runner.BatchIsRunsAlone | src/runner.rs:28-64 | for tests confined to the copy, the copy-based batch in list order equals the runs taken alone, and leaves the project unchanged |
| Runner.IsolatedBatchSpec | src/runner.rs:44-63 | for tests confined to the copy, the batch completes exactly when every mutant's run alone has a verdict, and then reports those verdicts in list order |
| Runner.BatchOrderIrrelevant | src/runner.rs:44-63 | any reordering of the list, as the parallel loop may take it, completes exactly when the list does and then prints the same reports, counted with multiplicity |
| Fixtures.AllRulesStandard | src/mutants.rs:358-408 | with all six categories, the table is the fifteen word rules followed by the ten digit rules |
| Fixtures.MathOperatorLines | src/mutants.rs:666-693 | `5 + 5`, `5 - 5`, `5 * 5` and `5 / 5` choose their operator's rule |
| Fixtures.ConjunctionLines | src/mutants.rs:696-714 | `True and False` chooses `and`→`or`, and `True or False` chooses `or`→`and` |
| Fixtures.ComparisonLines | src/mutants.rs:717-744 | `5 == 5`, `5 != 5`, `5 > 5` and `5 < 5` choose their comparison's rule |
| Fixtures.QuotedLines | src/mutants.rs:532-663 | `print('a + b')`, `print("a + b")` and `print('Hello World')` choose no rule |
| Fixtures.PrintCallOfLiteral | src/mutants.rs:532-565 | a call whose only argument is a string literal chooses no rule, whatever the literal holds |
| Fixtures.UnterminatedScriptMutant | src/mutants.rs:568-597 | the two-line file without a final newline yields exactly the mutant on line 2, `" + "`→`" - "` |
| Fixtures.ScriptMutants | src/mutants.rs:600-645 | the nine-line script yields exactly three mutants, on lines 2, 6 and 8, skipping the comment line and the operator in the trailing comment |
| Fixtures.InsertRemoveUnterminated | src/mutants.rs:747-790 | the insert writes the mutated file with a final newline, the remove writes the original line back with a final newline, and inserting into the same directory as the copy writes the mutated file again |

## Left out

- Glob matching is not modelled. The glob walk is a parameter: a list of entries, each a glob error or a path with its text, or with none when the file cannot be read. A bad glob pattern panics (src/mutants.rs:119), and that panic is not modelled.
- `canonicalize` is treated as the identity on paths. Resolving symbolic links and `..` is not modelled. The model keeps the panic when a path does not exist.
- Reading invalid UTF-8 and partial reads are not modelled. File texts are character sequences. A line that fails to decode would make `add_mutants_from_file` return an error, which `find_mutants` discards with `let _ =` (src/mutants.rs:136). The mutants already pushed from that file's earlier lines would be kept. Insert and remove would return the error to their caller.
- Patch.Rewrite: a failed `fs::write` panics through `expect` (src/mutants.rs:200, 222, 245), and `File::open` can fail on a file that exists but cannot be read (src/mutants.rs:190, 212, 235). Neither is modelled: every file in the tree is taken as readable and writable, so the open error arises only for a missing file.
- The cache file format (src/cache.rs) is not modelled. This covers the CSV quoting, the serde mapping and `write_csv_cache`. The cache is a parameter: missing, unopenable, holding a malformed record, or a list of mutants.
- The `run_mutants` call at src/lib.rs:83 does not match the signature at src/runner.rs:28, and the cache write after it depends on that call. The model of `run` stops where the list is handed to the runner. The runner is modelled on its own.
- Orchestrator.Subsample: the ChaCha8 sampling distribution and its seed are not modelled. The sampler's choice is a parameter of valid picks: distinct positions, one per slot, each at or after its slot.
- Runner.RunBatch: rayon runs the isolated batch in parallel, and the model takes the runs in list order. For a batch that completes, Runner.BatchOrderIrrelevant shows that any order prints the same reports, counted with multiplicity. A batch that stops is not modelled in full. rayon finishes both halves of a split before it re-raises the panic, so mutants in other chunks, including some after the failed one, may still be run and reported, while the rest of the failed run's own chunk is skipped. The model reports only the mutants ahead of the failed one in the list.
- Runner.BatchIsRunsAlone: stated for the list order. For a stopped batch, the parallel loop may also report mutants after the failed one, which the list-order batch drops.
- Progress bars, colours and the `Display` impl of `Mutant` (src/mutants.rs:252-273) are left out. Reports are modelled as a list of `Survived`/`Killed` entries rather than printed text.
- Creating and closing the temporary directory, and a failed copy of the tree, are left out. The model takes a fresh temporary path, and a copy that succeeds.
- Spawning the test process is left out. The oracle decides the exit status and the tree the process leaves, or none when the process cannot start. Three assumptions about the test process are stated as predicates and taken as hypotheses only where a lemma names them. `Runner.Hermetic` says the process starts and exits alike on equal projects. `Runner.Confined` says it writes only below its working directory. `Runner.LeavesFile` and `Runner.LeavesTree` say it leaves the mutated file, or the whole tree, as it found it.
- Runner.RunInPlaceUnchanged: assumes the test process writes nothing. pytest writes `.pytest_cache/` into the project and tox writes `.tox/`; such files stay after the run. Runner.RunInPlaceRestores states what the run promises without that assumption: the mutated file comes back, and everything else is as the tests left it.
- Runner.BatchInPlaceRestores: assumes every test process writes nothing. Files the tests write stay in the project, later runs in the batch see them, and the model does not follow them through the batch.
- Runner.RunMutantKeepsProject: assumes the tests write only below the temporary directory they run in (`Runner.Confined`). A test that writes outside the copy would change the project.
- Runner.InPlaceMatchesIsolated: assumes a hermetic and confined test process that leaves the mutated file alone in place. Its in-place half keeps the project unchanged only when the tests write nothing.
- src/pytest.rs, src/main.rs, src/cli.rs and tests/cli.rs are not part of this model. They hold argument parsing, thread-pool setup and an older copy of the runner.
- The `test_find_mutants` scenario (src/mutants.rs:421-529, seven mutants from a directory of scripts) is not restated as a lemma. What it checks is stated in general in both directions: ScannerLaws.FindMutantsInFiltered says every mutant found comes from a readable non-test file; ScannerLaws.FindMutantsInScansNonTest says every such file contributes all its mutants in glob order; ScannerLaws.TestFileSkipped says a test file contributes none. The per-file fixtures give the mutants of single files.
- Patch.RemoveIdempotent: stated for files whose lines and saved line carry no trailing `"\r"`. A last unterminated line `"x\r"` is written back as `"x\r\n"`, read again as `"x"`, and a second remove rewrites it.
- Patch.RemoveAfterInsert: stated for files whose lines carry no trailing `"\r"`. Patch.RemoveAfterInsertDropsCarriageReturn shows that the revert loses the `"\r"` otherwise.
