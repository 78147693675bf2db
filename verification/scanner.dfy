/**
 Mutant discovery: the per-file line scanner with its docstring toggle, and
 the walk over the matched files that skips pytest test files.
 */
module Scanner {
  import opened Text
  import opened Wrappers
  import opened Files
  import opened Mutants

  const DoubleTriple: Str := "\"\"\""
  const SingleTriple: Str := "'''"

  /**
   The number of leftmost, non-overlapping runs of three `q` characters in
   `s`: `s.matches(pat).count()` for the pattern `q` `q` `q`, stated on
   characters (ScannerLaws.TripleCountIsMatchCount relates the two).
   */
  function TripleCount(s: Str, q: char): nat
    decreases |s|
  {
    if |s| < 3 then 0
    else if s[0] == q && s[1] == q && s[2] == q then 1 + TripleCount(s[3..], q)
    else TripleCount(s[1..], q)
  }

  /** One kind of triple quote occurs exactly twice: a docstring opened and closed on this line. */
  predicate OneLineDocstring(line: Str) {
    TripleCount(line, '"') == 2 || TripleCount(line, '\'') == 2
  }

  /** The line holds a triple quote of either kind. */
  predicate HasDocstringMarker(line: Str) {
    TripleCount(line, '"') > 0 || TripleCount(line, '\'') > 0
  }

  /**
   The docstring toggle after a line: a one-line docstring leaves it alone,
   any other line holding a triple quote flips it.
   */
  function NextInDocstring(inDocstring: bool, line: Str): bool {
    if OneLineDocstring(line) then inDocstring
    else if HasDocstringMarker(line) then !inDocstring
    else inDocstring
  }

  /**
   Whether a line is matched against the rules: not a one-line docstring, not
   a comment line, and not inside a docstring once this line's toggle is
   applied (so the line closing a block is matched, the opening one is not).
   */
  predicate ScannedLine(inDocstring: bool, line: Str) {
    && !OneLineDocstring(line)
    && !StartsWith(line, "#")
    && !NextInDocstring(inDocstring, line)
  }

  /** The toggle before line `i` (counted from 0), from the start of the file. */
  function InDocstringBefore(lines: seq<Str>, i: nat): bool
    requires i <= |lines|
  {
    if i == 0 then false else NextInDocstring(InDocstringBefore(lines, i - 1), lines[i - 1])
  }

  /**
   The mutant line `i` (counted from 0) yields, judged on that line alone and
   the toggle state before it: the first rule matching the text in front of
   the first "#", with quoted spans removed; the whole line is kept for revert.
   */
  function MutantOnLine(path: Path, lines: seq<Str>, rules: seq<Rule>, i: nat): Option<Mutant>
    requires i < |lines|
  {
    if !ScannedLine(InDocstringBefore(lines, i), lines[i]) then None
    else
      match ReplacementFromLine(SplitFirst(lines[i], '#'), rules)
      case None => None
      case Some(rule) => Some(Mutant(path, i + 1, rule.before, rule.after, lines[i]))
  }

  /** The scanning loop from line `i` on, carrying the docstring toggle. */
  function ScanFrom(path: Path, lines: seq<Str>, rules: seq<Rule>, i: nat, inDocstring: bool): (ms: seq<Mutant>)
    requires i <= |lines|
    ensures forall j :: 0 <= j < |ms| ==> ms[j].filePath == path && i < ms[j].lineNumber <= |lines|
    decreases |lines| - i
  {
    if i == |lines| then []
    else
      var line := lines[i];
      if OneLineDocstring(line) then ScanFrom(path, lines, rules, i + 1, inDocstring)
      else
        var inDocstring' := if HasDocstringMarker(line) then !inDocstring else inDocstring;
        if StartsWith(line, "#") || inDocstring' then ScanFrom(path, lines, rules, i + 1, inDocstring')
        else
          match ReplacementFromLine(SplitFirst(line, '#'), rules)
          case None => ScanFrom(path, lines, rules, i + 1, inDocstring')
          case Some(rule) =>
            [Mutant(path, i + 1, rule.before, rule.after, line)]
              + ScanFrom(path, lines, rules, i + 1, inDocstring')
  }

  /** The mutants of one file's text, in line order. */
  function AddMutantsFromFile(path: Path, text: Str, rules: seq<Rule>): seq<Mutant> {
    ScanFrom(path, Lines(text), rules, 0, false)
  }

  /** One entry of the glob walk: an unreadable match, or a path with its text (none if it cannot be read). */
  datatype GlobEntry = GlobError | Match(path: Path, content: Option<Str>)

  /** The pytest test-file convention the scanner stays away from. */
  predicate IsTestFileName(name: Str) {
    StartsWith(name, "test_") || EndsWith(name, "_test.py")
  }

  /** The mutants one glob entry contributes. */
  function MutantsOfEntry(e: GlobEntry, rules: seq<Rule>): (ms: seq<Mutant>)
    ensures forall m :: m in ms ==> e.Match? && e.content.Some? && m.filePath == e.path
  {
    match e
    case GlobError => []
    case Match(path, content) =>
      match FileName(path)
      case None => []
      case Some(name) =>
        if IsTestFileName(name) then []
        else
          match content
          case None => []
          case Some(text) =>
            var ms := AddMutantsFromFile(path, text, rules);
            assert forall j :: 0 <= j < |ms| ==> ms[j].filePath == path;
            ms
  }

  /** The walk over the glob matches, in the order the glob yields them. */
  function FindMutantsIn(entries: seq<GlobEntry>, rules: seq<Rule>): (ms: seq<Mutant>)
    decreases |entries|
  {
    if |entries| == 0 then [] else MutantsOfEntry(entries[0], rules) + FindMutantsIn(entries[1..], rules)
  }

  /** `find_mutants`: the rules are built once from the categories, then every match is scanned. */
  function FindMutants(entries: seq<GlobEntry>, types: seq<MutationType>): seq<Mutant> {
    FindMutantsIn(entries, BuildReplacements(types))
  }

}
