/**
 Applying and reverting a mutant on disk: the file is read as lines, one
 line is edited, and every line is written back followed by "\n". Three
 entry points share that step: inserting in place, inserting into a copy of
 the project under another root, and reverting in place.
 */
module Patch {
  import opened Text
  import opened Wrappers
  import opened Files
  import opened Mutants

  /** An error the operation returns to its caller. */
  datatype PatchError =
    | CannotOpen(path: Path)
    | NotUnderRoot(path: Path, root: Path)

  /** A failure that aborts the program instead of returning. */
  datatype PanicReason =
    | LineOutOfRange(lineNumber: nat, lineCount: nat)
    | CannotResolve(path: Path)

  /** The result of a patch operation: the new tree, a returned error, or a panic. */
  datatype Outcome =
    | Written(fs: FileSystem)
    | Failed(error: PatchError)
    | Panicked(reason: PanicReason)

  /** What happens to the chosen line: a rule substituted into it, or a saved line put back. */
  datatype LineEdit = Substitute(before: Str, after: Str) | Restore(line: Str)

  function ApplyEdit(e: LineEdit, line: Str): Str {
    match e
    case Substitute(before, after) => ReplaceAll(line, before, after)
    case Restore(saved) => saved
  }

  /** Something is found at `p`, a file or a directory above one: what `canonicalize` needs. */
  predicate Exists(fs: FileSystem, p: Path) {
    exists q :: q in fs && p <= q
  }

  /**
   The shared step: open the file, read its lines, edit line `n` (counted from
   1), write every line back followed by "\n". A missing file is a returned
   error; a line number outside the file is an out-of-bounds index, a panic.
   */
  function Rewrite(fs: FileSystem, path: Path, n: nat, e: LineEdit): (r: Outcome)
    ensures r.Failed? <==> path !in fs
    ensures r.Written? <==> path in fs && 1 <= n <= |Lines(fs[path])|
    ensures r.Failed? ==> r.error == CannotOpen(path)
    ensures r.Written? ==> r.fs.Keys == fs.Keys
    ensures r.Written? ==> forall p :: p in fs && p != path ==> r.fs[p] == fs[p]
  {
    if path !in fs then Failed(CannotOpen(path))
    else
      var lines := Lines(fs[path]);
      if n < 1 || n > |lines| then Panicked(LineOutOfRange(n, |lines|))
      else Written(fs[path := JoinLines(lines[n - 1 := ApplyEdit(e, lines[n - 1])])])
  }

  /** `Mutant::insert`: the mutant's rule substituted into its line, in place. */
  function Insert(fs: FileSystem, m: Mutant): Outcome {
    Rewrite(fs, m.filePath, m.lineNumber, Substitute(m.before, m.after))
  }

  /** `Mutant::remove`: the saved line put back, in place. */
  function Remove(fs: FileSystem, m: Mutant): Outcome {
    Rewrite(fs, m.filePath, m.lineNumber, Restore(m.oldLine))
  }

  /**
   A rewrite reads only the file it rewrites: on two trees holding the same
   text at `path` it succeeds on both or on neither, and writes the same
   text there.
   */
  lemma RewriteReadsOnlyItsFile(fs: FileSystem, fs': FileSystem, path: Path, n: nat, e: LineEdit)
    requires path in fs && path in fs' && fs[path] == fs'[path]
    ensures Rewrite(fs', path, n, e).Written? <==> Rewrite(fs, path, n, e).Written?
    ensures Rewrite(fs, path, n, e).Written? ==> Rewrite(fs', path, n, e) == Written(fs'[path := Rewrite(fs, path, n, e).fs[path]])
  {
  }

  /**
   `Mutant::insert_in_new_root`: the mutant's file and `root` must resolve
   (else a panic), the file must lie under `root` (else an error), and the
   rule is substituted into the file at the same place under `newRoot`.
   */
  function InsertInNewRoot(fs: FileSystem, m: Mutant, root: Path, newRoot: Path): (r: Outcome)
    ensures r.Written? ==> Exists(fs, m.filePath) && root <= m.filePath
    ensures !Exists(fs, m.filePath) || !Exists(fs, root) ==> r.Panicked?
    ensures Exists(fs, m.filePath) && Exists(fs, root) && !(root <= m.filePath) ==> r == Failed(NotUnderRoot(m.filePath, root))
    ensures r.Written? ==> r.fs.Keys == fs.Keys
    ensures r.Written? ==> forall p :: p in fs && p != newRoot + m.filePath[|root|..] ==> p in r.fs && r.fs[p] == fs[p]
  {
    if !Exists(fs, m.filePath) then Panicked(CannotResolve(m.filePath))
    else if !Exists(fs, root) then Panicked(CannotResolve(root))
    else
      match StripPrefix(m.filePath, root)
      case None => Failed(NotUnderRoot(m.filePath, root))
      case Some(rel) =>
        assert rel == m.filePath[|root|..];
        Rewrite(fs, newRoot + rel, m.lineNumber, Substitute(m.before, m.after))
  }

  /**
   Reading a rewritten file back gives the same number of lines: the edited
   line and every other line as they were, each less one trailing "\r".
   */
  lemma RewriteReadBack(fs: FileSystem, path: Path, n: nat, e: LineEdit)
    requires Rewrite(fs, path, n, e).Written?
    requires '\n' !in ApplyEdit(e, Lines(fs[path])[n - 1])
    ensures var lines := Lines(fs[path]);
            var back := Lines(Rewrite(fs, path, n, e).fs[path]);
      && |back| == |lines|
      && back[n - 1] == StripCR(ApplyEdit(e, lines[n - 1]))
      && forall k :: 0 <= k < |lines| && k != n - 1 ==> back[k] == StripCR(lines[k])
  {
    var lines := Lines(fs[path]);
    var edited := lines[n - 1 := ApplyEdit(e, lines[n - 1])];
    LinesOfJoin(edited);
  }

  /** The substituted line has no line break when the replacement has none. */
  lemma SubstitutedLineIsOneLine(fs: FileSystem, m: Mutant)
    requires m.filePath in fs && 1 <= m.lineNumber <= |Lines(fs[m.filePath])|
    requires '\n' !in m.after
    ensures '\n' !in ApplyEdit(Substitute(m.before, m.after), Lines(fs[m.filePath])[m.lineNumber - 1])
  {
    ReplaceKeepsAbsent(Lines(fs[m.filePath])[m.lineNumber - 1], m.before, m.after, '\n');
  }

  /**
   Read back after an insert, the mutant's line carries the substitution and
   no other line of the file changes (for lines without a trailing "\r").
   */
  lemma InsertReadBack(fs: FileSystem, m: Mutant)
    requires Insert(fs, m).Written? && '\n' !in m.after
    ensures var lines := Lines(fs[m.filePath]);
            var back := Lines(Insert(fs, m).fs[m.filePath]);
      && |back| == |lines|
      && back[m.lineNumber - 1] == StripCR(ReplaceAll(lines[m.lineNumber - 1], m.before, m.after))
      && forall k :: 0 <= k < |lines| && k != m.lineNumber - 1 && PlainLine(lines[k]) ==> back[k] == lines[k]
  {
    SubstitutedLineIsOneLine(fs, m);
    RewriteReadBack(fs, m.filePath, m.lineNumber, Substitute(m.before, m.after));
  }

  /**
   The revert law: removing an inserted mutant gives back the file's lines,
   provided no line ends in "\r", the replacement is one line, and the saved
   line is the line the mutant was found on. What is written is the lines
   joined with "\n" after each one.
   */
  lemma RemoveAfterInsert(fs: FileSystem, m: Mutant)
    requires Insert(fs, m).Written?
    requires forall k :: 0 <= k < |Lines(fs[m.filePath])| ==> PlainLine(Lines(fs[m.filePath])[k])
    requires '\n' !in m.after
    requires m.oldLine == Lines(fs[m.filePath])[m.lineNumber - 1]
    ensures Remove(Insert(fs, m).fs, m) == Written(fs[m.filePath := JoinLines(Lines(fs[m.filePath]))])
  {
    var p := m.filePath;
    var lines := Lines(fs[p]);
    var fs1 := Insert(fs, m).fs;
    InsertReadBack(fs, m);
    var back := Lines(fs1[p]);
    RestoredLines(lines, back, m.lineNumber - 1, m.oldLine);
    SameUpdate(fs, fs1, p, JoinLines(lines));
  }

  lemma RestoredLines(lines: seq<Str>, back: seq<Str>, i: nat, saved: Str)
    requires |back| == |lines| && i < |lines| && saved == lines[i]
    requires forall k :: 0 <= k < |lines| && k != i && PlainLine(lines[k]) ==> back[k] == lines[k]
    requires forall k :: 0 <= k < |lines| ==> PlainLine(lines[k])
    ensures back[i := saved] == lines
  {
  }

  lemma SameUpdate(fs: FileSystem, fs1: FileSystem, p: Path, t: Str)
    requires fs1.Keys == fs.Keys
    requires forall q :: q in fs && q != p ==> fs1[q] == fs[q]
    ensures fs1[p := t] == fs[p := t]
  {
  }

  /** On a file already in the written form (no "\r\n", final "\n"), insert then remove is the identity. */
  lemma RemoveAfterInsertRestores(fs: FileSystem, m: Mutant)
    requires Insert(fs, m).Written?
    requires Normalized(fs[m.filePath])
    requires '\n' !in m.after
    requires m.oldLine == Lines(fs[m.filePath])[m.lineNumber - 1]
    ensures Remove(Insert(fs, m).fs, m) == Written(fs)
  {
    var p := m.filePath;
    var t := fs[p];
    NormalizedLinesPlain(t);
    RemoveAfterInsert(fs, m);
    JoinOfLines(t);
    UpdateWithSame(fs, p, JoinLines(Lines(t)));
  }

  lemma UpdateWithSame(fs: FileSystem, p: Path, t: Str)
    requires p in fs && t == fs[p]
    ensures fs[p := t] == fs
  {
  }

  lemma LinesOfCrLfLine()
    ensures Lines("a + b\r\n") == ["a + b"]
  {
    var t := "a + b\r\n";
    FirstIndexOfJoin("a + b\r", '\n', "");
    assert "a + b\r" + ['\n'] + "" == t;
    assert t[..6] == "a + b\r";
    assert "a + b\r"[..5] == "a + b";
    assert t[7..] == "";
  }

  lemma LinesOfLfLine(line: Str)
    requires '\n' !in line && PlainLine(line)
    ensures Lines(line + "\n") == [line]
  {
    LinesOfJoinPlain([line]);
    JoinOneLine(line);
  }

  lemma SubstituteExample()
    ensures ReplaceAll("a + b", " + ", " - ") == "a - b"
  {
    assert StartsWith(" + b", " + ");
    assert " + b"[3..] == "b";
    assert "a + b"[1..] == " + b";
    assert "a + b"[..3][0] != " + "[0];
    assert ReplaceAll("b", " + ", " - ") == "b";
  }

  /**
   An insert cannot be undone exactly on a file with Windows line endings:
   "a + b\r\n" becomes "a - b\n" and removing the mutant writes "a + b\n".
   */
  lemma RemoveAfterInsertDropsCarriageReturn()
    ensures var p: Path := ["m.py"];
            var fs := map[p := "a + b\r\n"];
            var m := Mutant(p, 1, " + ", " - ", "a + b");
      && Insert(fs, m) == Written(map[p := "a - b\n"])
      && Remove(Insert(fs, m).fs, m) == Written(map[p := "a + b\n"])
      && Remove(Insert(fs, m).fs, m) != Written(fs)
  {
    var p: Path := ["m.py"];
    var fs := map[p := "a + b\r\n"];
    var m := Mutant(p, 1, " + ", " - ", "a + b");
    InsertExample(p);
    RemoveExample(p, m);
    assert "a + b\n" != "a + b\r\n" by {
      assert |"a + b\n"| != |"a + b\r\n"|;
    }
    assert map[p := "a + b\n"][p] != fs[p];
  }

  lemma InsertExample(p: Path)
    ensures Insert(map[p := "a + b\r\n"], Mutant(p, 1, " + ", " - ", "a + b")) == Written(map[p := "a - b\n"])
  {
    var fs := map[p := "a + b\r\n"];
    LinesOfCrLfLine();
    SubstituteExample();
    var lines := Lines(fs[p]);
    assert lines == ["a + b"];
    assert lines[0 := ReplaceAll(lines[0], " + ", " - ")] == ["a - b"];
    JoinOneLine("a - b");
    assert "a - b" + "\n" == "a - b\n";
    assert fs[p := "a - b\n"] == map[p := "a - b\n"];
  }

  lemma RemoveExample(p: Path, m: Mutant)
    requires m == Mutant(p, 1, " + ", " - ", "a + b")
    ensures Remove(map[p := "a - b\n"], m) == Written(map[p := "a + b\n"])
  {
    var fs := map[p := "a - b\n"];
    LinesOfLfLine("a - b");
    assert fs[p] == "a - b" + "\n";
    var lines := Lines(fs[p]);
    assert lines == ["a - b"];
    assert lines[0 := "a + b"] == ["a + b"];
    JoinOneLine("a + b");
    assert "a + b" + "\n" == "a + b\n";
    assert fs[p := "a + b\n"] == map[p := "a + b\n"];
  }

  /** Removing twice is removing once, for a file whose lines and saved line have no trailing "\r". */
  lemma RemoveIdempotent(fs: FileSystem, m: Mutant)
    requires Remove(fs, m).Written?
    requires forall k :: 0 <= k < |Lines(fs[m.filePath])| ==> PlainLine(Lines(fs[m.filePath])[k])
    requires PlainLine(m.oldLine)
    ensures Remove(Remove(fs, m).fs, m) == Remove(fs, m)
  {
    var p := m.filePath;
    var edited := RemoveWrites(fs, m);
    EditedLinesPlain(Lines(fs[p]), m.lineNumber - 1, m.oldLine, edited);
    LinesOfJoinPlain(edited);
    var fs1 := Remove(fs, m).fs;
    var again := RemoveWrites(fs1, m);
    assert again == edited;
    UpdateWithSame(fs1, p, JoinLines(edited));
  }

  /** What a successful remove writes: the file's lines with the saved line in place, joined. */
  lemma RemoveWrites(fs: FileSystem, m: Mutant) returns (edited: seq<Str>)
    requires Remove(fs, m).Written?
    ensures 1 <= m.lineNumber <= |Lines(fs[m.filePath])|
    ensures edited == Lines(fs[m.filePath])[m.lineNumber - 1 := m.oldLine]
    ensures Remove(fs, m).fs == fs[m.filePath := JoinLines(edited)]
  {
    edited := Lines(fs[m.filePath])[m.lineNumber - 1 := m.oldLine];
  }

  /** Putting a plain line in place of another keeps every line plain. */
  lemma EditedLinesPlain(lines: seq<Str>, i: nat, line: Str, edited: seq<Str>)
    requires i < |lines| && PlainLine(line) && edited == lines[i := line]
    requires forall k :: 0 <= k < |lines| ==> PlainLine(lines[k])
    ensures forall k :: 0 <= k < |edited| ==> PlainLine(edited[k])
  {
  }

  /** With the copy's root equal to the original root, inserting into the copy is inserting in place. */
  lemma InsertInSameRoot(fs: FileSystem, m: Mutant, root: Path)
    requires Exists(fs, m.filePath) && Exists(fs, root) && root <= m.filePath
    ensures InsertInNewRoot(fs, m, root, root) == Insert(fs, m)
  {
    assert root + m.filePath[|root|..] == m.filePath;
  }

  /** Inserting into a copy under another root leaves the original file untouched. */
  lemma InsertInNewRootKeepsOriginal(fs: FileSystem, m: Mutant, root: Path, newRoot: Path)
    requires InsertInNewRoot(fs, m, root, newRoot).Written?
    requires newRoot != root && m.filePath in fs
    ensures var fs' := InsertInNewRoot(fs, m, root, newRoot).fs;
      m.filePath in fs' && fs'[m.filePath] == fs[m.filePath]
  {
    var rel := m.filePath[|root|..];
    assert root + rel == m.filePath;
    if newRoot + rel == m.filePath {
      JoinInjective(newRoot, root, rel);
    }
  }

  /**
   The copy workflow: after the tree under `root` is copied to `dst`,
   inserting the mutant into the copy writes there exactly what an in-place
   insert would write into the original file, and the original is untouched.
   */
  lemma InsertInCopyMatchesInsert(fs: FileSystem, m: Mutant, root: Path, dst: Path)
    requires m.filePath in fs && root <= m.filePath && !(dst <= m.filePath)
    requires Insert(fs, m).Written?
    ensures var copy := CopyTree(fs, root, dst);
            var rel := m.filePath[|root|..];
            var r := InsertInNewRoot(copy, m, root, dst);
      && r.Written?
      && r.fs[dst + rel] == Insert(fs, m).fs[m.filePath]
      && r.fs[m.filePath] == fs[m.filePath]
  {
    var copy := CopyTree(fs, root, dst);
    var rel := m.filePath[|root|..];
    assert root + rel == m.filePath;
    assert m.filePath in copy && copy[m.filePath] == fs[m.filePath];
    assert dst + rel in copy && copy[dst + rel] == fs[m.filePath];
    assert Exists(copy, m.filePath);
    assert Exists(copy, root);
    assert dst + rel != m.filePath by {
      assert dst <= dst + rel;
    }
  }
}
