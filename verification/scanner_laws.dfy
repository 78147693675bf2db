/**
 What the scanner's output is: each emitted mutant is the one its line
 yields, in line order, every yielding line is represented, and the walk
 over the glob matches keeps only readable non-test files.
 */
module ScannerLaws {
  import opened Text
  import opened Wrappers
  import opened Files
  import opened Mutants
  import opened Scanner

  /** The character-level triple counter is `str::matches(..).count()` for the three-character pattern. */
  lemma {:induction false} TripleCountIsMatchCount(s: Str, q: char)
    ensures TripleCount(s, q) == CountMatches(s, [q, q, q])
    decreases |s|
  {
    var pat := [q, q, q];
    if |s| >= 3 {
      assert StartsWith(s, pat) <==> s[0] == q && s[1] == q && s[2] == q by {
        if s[0] == q && s[1] == q && s[2] == q {
          assert s[..3] == pat;
        }
      }
      if s[0] == q && s[1] == q && s[2] == q {
        TripleCountIsMatchCount(s[3..], q);
      } else {
        TripleCountIsMatchCount(s[1..], q);
      }
    }
  }

  /**
   The two docstring tests are the source's: a one-line docstring holds
   exactly two of one kind of triple quote, and a marker line contains one.
   */
  lemma DocstringTestsAreMatchCounts(line: Str)
    ensures OneLineDocstring(line) <==> CountMatches(line, DoubleTriple) == 2 || CountMatches(line, SingleTriple) == 2
    ensures HasDocstringMarker(line) <==> Contains(line, DoubleTriple) || Contains(line, SingleTriple)
  {
    TripleCountIsMatchCount(line, '"');
    TripleCountIsMatchCount(line, '\'');
  }

  /** One step of the loop emits exactly what the per-line judgement says. */
  lemma ScanFromStep(path: Path, lines: seq<Str>, rules: seq<Rule>, i: nat)
    requires i < |lines|
    ensures ScanFrom(path, lines, rules, i, InDocstringBefore(lines, i))
         == (match MutantOnLine(path, lines, rules, i) case None => [] case Some(m) => [m])
            + ScanFrom(path, lines, rules, i + 1, InDocstringBefore(lines, i + 1))
  {
  }

  /** What a line's mutant records: the line's position, the first matching rule, the whole line. */
  lemma MutantOnLineSpec(path: Path, lines: seq<Str>, rules: seq<Rule>, i: nat)
    requires i < |lines| && MutantOnLine(path, lines, rules, i).Some?
    ensures var m := MutantOnLine(path, lines, rules, i).value;
      && m.filePath == path && m.lineNumber == i + 1 && m.oldLine == lines[i]
      && ScannedLine(InDocstringBefore(lines, i), lines[i])
      && ReplacementFromLine(SplitFirst(lines[i], '#'), rules) == Some(Rule(m.before, m.after))
      && Rule(m.before, m.after) in rules
  {
    var r := ReplacementFromLine(SplitFirst(lines[i], '#'), rules);
    assert r.Some?;
    var k :| 0 <= k < |rules| && rules[k] == r.value;
  }

  /** `m` is exactly the mutant its own line yields. */
  predicate FromItsLine(path: Path, lines: seq<Str>, rules: seq<Rule>, m: Mutant) {
    1 <= m.lineNumber <= |lines| && MutantOnLine(path, lines, rules, m.lineNumber - 1) == Some(m)
  }

  /** The mutant line `n` yields, if any, is among `ms`. */
  predicate Represented(path: Path, lines: seq<Str>, rules: seq<Rule>, n: nat, ms: seq<Mutant>)
    requires n < |lines|
  {
    MutantOnLine(path, lines, rules, n).Some? ==> MutantOnLine(path, lines, rules, n).value in ms
  }

  /** The present values of a list of options, in order. */
  function Somes<T>(os: seq<Option<T>>): (r: seq<T>)
    ensures |r| <= |os|
    decreases |os|
  {
    if |os| == 0 then [] else (match os[0] case None => [] case Some(x) => [x]) + Somes(os[1..])
  }

  /** Each present value comes from a position holding it. */
  lemma {:induction false} SomesSound<T>(os: seq<Option<T>>, x: T)
    requires x in Somes(os)
    ensures exists k :: 0 <= k < |os| && os[k] == Some(x)
    decreases |os|
  {
    var head: seq<T> := match os[0] case None => [] case Some(y) => [y];
    assert Somes(os) == head + Somes(os[1..]);
    if x in head {
      assert os[0] == Some(x);
    } else {
      SomesSound(os[1..], x);
      var k :| 0 <= k < |os[1..]| && os[1..][k] == Some(x);
      assert os[k + 1] == Some(x);
    }
  }

  /** Every present value is kept. */
  lemma {:induction false} SomesComplete<T>(os: seq<Option<T>>, k: nat)
    requires k < |os| && os[k].Some?
    ensures os[k].value in Somes(os)
    decreases k
  {
    var head: seq<T> := match os[0] case None => [] case Some(y) => [y];
    assert Somes(os) == head + Somes(os[1..]);
    if k > 0 {
      SomesComplete(os[1..], k - 1);
      assert os[1..][k - 1] == os[k];
    }
  }

  /** The per-line judgements from line `i` to the end of the file. */
  function Verdicts(path: Path, lines: seq<Str>, rules: seq<Rule>, i: nat): (vs: seq<Option<Mutant>>)
    requires i <= |lines|
  {
    seq(|lines| - i, k requires 0 <= k < |lines| - i => MutantOnLine(path, lines, rules, i + k))
  }

  /** Keeping the present values distributes over a list's first element. */
  lemma SomesCons<T>(o: Option<T>, os: seq<Option<T>>)
    ensures Somes([o] + os) == (match o case None => [] case Some(x) => [x]) + Somes(os)
  {
    assert ([o] + os)[1..] == os;
  }

  /** The judgements from line `i` on are line `i`'s followed by those from line `i + 1` on. */
  lemma VerdictsStep(path: Path, lines: seq<Str>, rules: seq<Rule>, i: nat)
    requires i < |lines|
    ensures Verdicts(path, lines, rules, i) == [MutantOnLine(path, lines, rules, i)] + Verdicts(path, lines, rules, i + 1)
  {
    var vs := Verdicts(path, lines, rules, i);
    var rest := Verdicts(path, lines, rules, i + 1);
    assert forall k :: 0 <= k < |rest| ==> vs[k + 1] == rest[k];
  }

  /**
   The loop from line `i` on, started with the toggle the lines before `i`
   leave, emits exactly the present per-line judgements, in line order.
   */
  lemma {:induction false} ScanFromIsSomes(path: Path, lines: seq<Str>, rules: seq<Rule>, i: nat)
    requires i <= |lines|
    ensures ScanFrom(path, lines, rules, i, InDocstringBefore(lines, i)) == Somes(Verdicts(path, lines, rules, i))
    decreases |lines| - i
  {
    if i < |lines| {
      var mo := MutantOnLine(path, lines, rules, i);
      var head := match mo case None => [] case Some(m) => [m];
      var rest := Verdicts(path, lines, rules, i + 1);
      calc {
        ScanFrom(path, lines, rules, i, InDocstringBefore(lines, i));
        { ScanFromStep(path, lines, rules, i); }
        head + ScanFrom(path, lines, rules, i + 1, InDocstringBefore(lines, i + 1));
        { ScanFromIsSomes(path, lines, rules, i + 1); }
        head + Somes(rest);
        { SomesCons(mo, rest); }
        Somes([mo] + rest);
        { VerdictsStep(path, lines, rules, i); }
        Somes(Verdicts(path, lines, rules, i));
      }
    }
  }

  /** Every emitted mutant is the one its own line yields. */
  predicate AllFromTheirLines(path: Path, lines: seq<Str>, rules: seq<Rule>, ms: seq<Mutant>) {
    forall m :: m in ms ==> FromItsLine(path, lines, rules, m)
  }

  /** Every line's mutant, if it yields one, is emitted. */
  predicate AllRepresented(path: Path, lines: seq<Str>, rules: seq<Rule>, ms: seq<Mutant>) {
    forall n :: 0 <= n < |lines| ==> Represented(path, lines, rules, n, ms)
  }

  /** Line numbers strictly increase along the list. */
  predicate InLineOrder(ms: seq<Mutant>) {
    forall j, k :: 0 <= j < k < |ms| ==> ms[j].lineNumber < ms[k].lineNumber
  }

  /** Every present judgement is the mutant of the line it was made on. */
  lemma VerdictsSound(path: Path, lines: seq<Str>, rules: seq<Rule>)
    ensures AllFromTheirLines(path, lines, rules, Somes(Verdicts(path, lines, rules, 0)))
  {
    var vs := Verdicts(path, lines, rules, 0);
    forall m | m in Somes(vs)
      ensures FromItsLine(path, lines, rules, m)
    {
      SomesSound(vs, m);
      var k :| 0 <= k < |vs| && vs[k] == Some(m);
      MutantOnLineSpec(path, lines, rules, k);
    }
  }

  /** Every line that yields a mutant has it among the present judgements. */
  lemma VerdictsComplete(path: Path, lines: seq<Str>, rules: seq<Rule>)
    ensures AllRepresented(path, lines, rules, Somes(Verdicts(path, lines, rules, 0)))
  {
    var vs := Verdicts(path, lines, rules, 0);
    forall n | 0 <= n < |lines|
      ensures Represented(path, lines, rules, n, Somes(vs))
    {
      if vs[n].Some? {
        SomesComplete(vs, n);
      }
    }
  }

  /** The loop emits mutants in strictly increasing line order, so at most one per line. */
  lemma {:induction false} ScanFromOrdered(path: Path, lines: seq<Str>, rules: seq<Rule>, i: nat)
    requires i <= |lines|
    ensures InLineOrder(ScanFrom(path, lines, rules, i, InDocstringBefore(lines, i)))
    ensures forall m :: m in ScanFrom(path, lines, rules, i, InDocstringBefore(lines, i)) ==> i < m.lineNumber
    decreases |lines| - i
  {
    if i < |lines| {
      ScanFromStep(path, lines, rules, i);
      ScanFromOrdered(path, lines, rules, i + 1);
      var mo := MutantOnLine(path, lines, rules, i);
      if mo.Some? {
        MutantOnLineSpec(path, lines, rules, i);
      }
    }
  }

  /**
   The scanner's output is exactly the per-line mutants, one per qualifying
   line, in increasing line order: every emitted mutant is what its line
   yields, and every line that yields a mutant is represented.
   */
  lemma AddMutantsFromFileSpec(path: Path, text: Str, rules: seq<Rule>)
    ensures AllFromTheirLines(path, Lines(text), rules, AddMutantsFromFile(path, text, rules))
    ensures AllRepresented(path, Lines(text), rules, AddMutantsFromFile(path, text, rules))
    ensures InLineOrder(AddMutantsFromFile(path, text, rules))
  {
    ScanFromIsSomes(path, Lines(text), rules, 0);
    VerdictsSound(path, Lines(text), rules);
    VerdictsComplete(path, Lines(text), rules);
    ScanFromOrdered(path, Lines(text), rules, 0);
  }

  /**
   What an emitted mutant records: its file, the rule that matched first, and
   the unmodified line it was found on.
   */
  lemma EmittedMutant(path: Path, text: Str, rules: seq<Rule>, m: Mutant)
    requires m in AddMutantsFromFile(path, text, rules)
    ensures m.filePath == path
    ensures 1 <= m.lineNumber <= |Lines(text)|
    ensures m.oldLine == Lines(text)[m.lineNumber - 1]
    ensures Rule(m.before, m.after) in rules
    ensures ScannedLine(InDocstringBefore(Lines(text), m.lineNumber - 1), m.oldLine)
    ensures ReplacementFromLine(SplitFirst(m.oldLine, '#'), rules) == Some(Rule(m.before, m.after))
  {
    AddMutantsFromFileSpec(path, text, rules);
    assert FromItsLine(path, Lines(text), rules, m);
    MutantOnLineSpec(path, Lines(text), rules, m.lineNumber - 1);
  }

  /** A line inside a docstring block, once its own toggle is applied, yields no mutant. */
  lemma DocstringLineSkipped(path: Path, text: Str, rules: seq<Rule>, n: nat)
    requires n < |Lines(text)|
    requires NextInDocstring(InDocstringBefore(Lines(text), n), Lines(text)[n])
    ensures forall m :: m in AddMutantsFromFile(path, text, rules) ==> m.lineNumber != n + 1
  {
    forall m | m in AddMutantsFromFile(path, text, rules)
      ensures m.lineNumber != n + 1
    {
      EmittedMutant(path, text, rules, m);
    }
  }

  /** A comment line yields no mutant. */
  lemma CommentLineSkipped(path: Path, text: Str, rules: seq<Rule>, n: nat)
    requires n < |Lines(text)| && StartsWith(Lines(text)[n], "#")
    ensures forall m :: m in AddMutantsFromFile(path, text, rules) ==> m.lineNumber != n + 1
  {
    forall m | m in AddMutantsFromFile(path, text, rules)
      ensures m.lineNumber != n + 1
    {
      EmittedMutant(path, text, rules, m);
    }
  }

  /**
   Every discovered mutant lies in a readable matched file whose name is not
   a test file's name, and its rule is one of the enabled categories' rules.
   */
  lemma {:induction false} FindMutantsInFiltered(entries: seq<GlobEntry>, rules: seq<Rule>)
    ensures forall m :: m in FindMutantsIn(entries, rules) ==>
      && FileName(m.filePath).Some?
      && !IsTestFileName(FileName(m.filePath).value)
      && Rule(m.before, m.after) in rules
      && exists k :: 0 <= k < |entries| && entries[k].Match? && entries[k].path == m.filePath && entries[k].content.Some?
    decreases |entries|
  {
    if |entries| > 0 {
      FindMutantsInFiltered(entries[1..], rules);
      forall m | m in FindMutantsIn(entries, rules)
        ensures && FileName(m.filePath).Some?
                && !IsTestFileName(FileName(m.filePath).value)
                && Rule(m.before, m.after) in rules
                && exists k :: 0 <= k < |entries| && entries[k].Match? && entries[k].path == m.filePath && entries[k].content.Some?
      {
        if m in MutantsOfEntry(entries[0], rules) {
          var e := entries[0];
          EmittedMutant(e.path, e.content.value, rules, m);
        } else {
          assert m in FindMutantsIn(entries[1..], rules);
          var k :| 0 <= k < |entries[1..]| && entries[1..][k].Match? && entries[1..][k].path == m.filePath && entries[1..][k].content.Some?;
          assert entries[k + 1] == entries[1..][k];
        }
      }
    }
  }

  /** The walk is compositional: scanning two lists of matches is scanning each in turn. */
  lemma {:induction false} FindMutantsInAppend(a: seq<GlobEntry>, b: seq<GlobEntry>, rules: seq<Rule>)
    ensures FindMutantsIn(a + b, rules) == FindMutantsIn(a, rules) + FindMutantsIn(b, rules)
    decreases |a|
  {
    if |a| == 0 {
      assert a + b == b;
    } else {
      assert (a + b)[0] == a[0];
      assert (a + b)[1..] == a[1..] + b;
      FindMutantsInAppend(a[1..], b, rules);
    }
  }

  /** A scanned entry splits the walk around it into the parts before and after. */
  lemma FindMutantsInAround(front: seq<GlobEntry>, e: GlobEntry, back: seq<GlobEntry>, rules: seq<Rule>)
    ensures FindMutantsIn(front + [e] + back, rules)
         == FindMutantsIn(front, rules) + MutantsOfEntry(e, rules) + FindMutantsIn(back, rules)
  {
    var rest := [e] + back;
    assert front + [e] + back == front + rest;
    FindMutantsInAppend(front, rest, rules);
    FindMutantsInCons(e, back, rules);
  }

  /** The walk over one entry followed by more entries. */
  lemma FindMutantsInCons(e: GlobEntry, back: seq<GlobEntry>, rules: seq<Rule>)
    ensures FindMutantsIn([e] + back, rules) == MutantsOfEntry(e, rules) + FindMutantsIn(back, rules)
  {
    var s := [e] + back;
    assert s[0] == e && s[1..] == back;
  }

  /**
   The converse of the filter: a readable match whose file name is not a test
   file's name contributes every mutant of its text, in place in glob order.
   */
  lemma FindMutantsInScansNonTest(front: seq<GlobEntry>, path: Path, text: Str, back: seq<GlobEntry>, rules: seq<Rule>)
    requires FileName(path).Some? && !IsTestFileName(FileName(path).value)
    ensures FindMutantsIn(front + [Match(path, Some(text))] + back, rules)
         == FindMutantsIn(front, rules) + AddMutantsFromFile(path, text, rules) + FindMutantsIn(back, rules)
  {
    FindMutantsInAround(front, Match(path, Some(text)), back, rules);
  }

  /** A match whose file name is a test file's name contributes nothing, whatever its text. */
  lemma TestFileSkipped(front: seq<GlobEntry>, path: Path, text: Option<Str>, back: seq<GlobEntry>, rules: seq<Rule>)
    requires FileName(path).Some? && IsTestFileName(FileName(path).value)
    ensures FindMutantsIn(front + [Match(path, text)] + back, rules)
         == FindMutantsIn(front, rules) + FindMutantsIn(back, rules)
  {
    FindMutantsInAround(front, Match(path, text), back, rules);
  }
}
