/**
 Text operations with the semantics of the Rust standard-library calls the tool
 relies on: `starts_with`, `ends_with`, `contains`, `matches(..).count()`,
 `replace`, `split(c)` (first piece), `BufRead::lines`, rejoining lines,
 `Ord` on strings and `to_string` on unsigned integers.
 */
module Text {

  type Str = seq<char>

  predicate StartsWith(s: Str, prefix: Str) {
    |prefix| <= |s| && s[..|prefix|] == prefix
  }

  predicate EndsWith(s: Str, suffix: Str) {
    |suffix| <= |s| && s[|s| - |suffix|..] == suffix
  }

  /** `pat` occurs in `s` starting at offset `i`. */
  predicate OccursAt(s: Str, pat: Str, i: nat) {
    i + |pat| <= |s| && s[i..i + |pat|] == pat
  }

  /** `str::contains`: the empty pattern occurs in every string. */
  predicate Contains(s: Str, pat: Str)
    decreases |s|
  {
    StartsWith(s, pat) || (|s| > 0 && Contains(s[1..], pat))
  }

  /** The scanning definition of `Contains` agrees with "there is an offset where it occurs". */
  lemma {:induction false} ContainsIffOccurs(s: Str, pat: Str)
    ensures Contains(s, pat) <==> exists i: nat :: OccursAt(s, pat, i)
    decreases |s|
  {
    if StartsWith(s, pat) {
      assert OccursAt(s, pat, 0);
    } else if |s| == 0 {
      assert forall i: nat :: OccursAt(s, pat, i) ==> StartsWith(s, pat);
    } else {
      ContainsIffOccurs(s[1..], pat);
      if Contains(s[1..], pat) {
        var i: nat :| OccursAt(s[1..], pat, i);
        assert s[i + 1..i + 1 + |pat|] == s[1..][i..i + |pat|];
        assert OccursAt(s, pat, i + 1);
      }
      if exists i: nat :: OccursAt(s, pat, i) {
        var i: nat :| OccursAt(s, pat, i);
        assert i != 0;
        assert s[1..][i - 1..i - 1 + |pat|] == s[i..i + |pat|];
        assert OccursAt(s[1..], pat, i - 1);
      }
    }
  }

  lemma {:induction false} ContainsNeedsRoom(s: Str, pat: Str)
    ensures Contains(s, pat) ==> |pat| <= |s|
    decreases |s|
  {
    if |s| > 0 && !StartsWith(s, pat) {
      ContainsNeedsRoom(s[1..], pat);
    }
  }

  /** `s.matches(pat).count()` for a non-empty pattern: leftmost, non-overlapping occurrences. */
  function CountMatches(s: Str, pat: Str): (n: nat)
    requires |pat| > 0
    ensures n == 0 <==> !Contains(s, pat)
    decreases |s|
  {
    if |s| < |pat| then
      ContainsNeedsRoom(s, pat);
      0
    else if StartsWith(s, pat) then 1 + CountMatches(s[|pat|..], pat)
    else CountMatches(s[1..], pat)
  }

  /**
   `str::replace`: every leftmost, non-overlapping occurrence of `from` is
   replaced by `to`. An empty `from` matches before every character and at the
   end, so `to` is inserted there.
   */
  function ReplaceAll(s: Str, from: Str, to: Str): (r: Str)
    ensures |from| > 0 ==> |r| == |s| + CountMatches(s, from) * (|to| - |from|)
    ensures |from| == 0 ==> |r| == |s| + (|s| + 1) * |to|
    decreases |s|
  {
    if |from| == 0 then
      (if |s| == 0 then to
       else
         var rest := ReplaceAll(s[1..], from, to);
         MulSucc(|s| - 1 + 1, |to|);
         to + [s[0]] + rest)
    else if |s| < |from| then s
    else if StartsWith(s, from) then
      var rest := ReplaceAll(s[|from|..], from, to);
      MulSucc(CountMatches(s[|from|..], from), |to| - |from|);
      to + rest
    else [s[0]] + ReplaceAll(s[1..], from, to)
  }

  lemma MulSucc(n: int, d: int)
    ensures (1 + n) * d == d + n * d
  {
  }

  /** A text without the pattern is left alone. */
  lemma {:induction false} ReplaceAbsent(s: Str, from: Str, to: Str)
    requires |from| > 0 && !Contains(s, from)
    ensures ReplaceAll(s, from, to) == s
    decreases |s|
  {
    if |s| >= |from| {
      assert !StartsWith(s, from);
      ReplaceAbsent(s[1..], from, to);
      assert [s[0]] + s[1..] == s;
    }
  }

  /** A character in neither the text nor the replacement is not in the result. */
  lemma {:induction false} ReplaceKeepsAbsent(s: Str, from: Str, to: Str, c: char)
    requires c !in s && c !in to
    ensures c !in ReplaceAll(s, from, to)
    decreases |s|
  {
    if |from| == 0 {
      if |s| > 0 {
        ReplaceKeepsAbsent(s[1..], from, to, c);
        assert c !in [s[0]];
      }
    } else if |s| >= |from| {
      if StartsWith(s, from) {
        ReplaceKeepsAbsent(s[|from|..], from, to, c);
      } else {
        ReplaceKeepsAbsent(s[1..], from, to, c);
        assert c !in [s[0]];
      }
    }
  }

  /** Replacing a pattern by itself changes nothing. */
  lemma {:induction false} ReplaceBySelf(s: Str, pat: Str)
    ensures ReplaceAll(s, pat, pat) == s
    decreases |s|
  {
    if |pat| == 0 {
      if |s| > 0 {
        ReplaceBySelf(s[1..], pat);
        assert pat + [s[0]] + s[1..] == s;
      }
    } else if |s| >= |pat| {
      if StartsWith(s, pat) {
        ReplaceBySelf(s[|pat|..], pat);
        assert pat + s[|pat|..] == s;
      } else {
        ReplaceBySelf(s[1..], pat);
        assert [s[0]] + s[1..] == s;
      }
    }
  }

  /** Index of the first `c` in `s`, or `|s|` when `s` has none. */
  function FirstIndex(s: Str, c: char): (i: nat)
    ensures i <= |s|
    ensures c !in s[..i]
    ensures i < |s| ==> s[i] == c
    decreases |s|
  {
    if |s| == 0 then 0
    else if s[0] == c then 0
    else
      var j := FirstIndex(s[1..], c);
      assert s[..1 + j] == [s[0]] + s[1..][..j];
      1 + j
  }

  lemma FirstIndexOfJoin(a: Str, c: char, b: Str)
    requires c !in a
    ensures FirstIndex(a + [c] + b, c) == |a|
  {
    var t := a + [c] + b;
    var i := FirstIndex(t, c);
    assert t[..|a|] == a;
    assert forall k :: 0 <= k < |a| ==> t[k] != c by {
      forall k | 0 <= k < |a|
        ensures t[k] != c
      {
        assert t[k] == t[..|a|][k];
      }
    }
    assert forall k :: 0 <= k < i ==> t[k] != c by {
      forall k | 0 <= k < i
        ensures t[k] != c
      {
        assert t[..i][k] == t[k];
      }
    }
    assert t[|a|] == c;
  }

  /** `s.split(c).next()`: the text before the first `c`, or all of `s`. */
  function SplitFirst(s: Str, c: char): (r: Str)
    ensures StartsWith(s, r)
    ensures c !in r
    ensures |r| < |s| ==> s[|r|] == c
  {
    s[..FirstIndex(s, c)]
  }

  /** One trailing carriage return removed, as `BufRead::lines` does for a "\r\n" ending. */
  function StripCR(line: Str): (r: Str)
    ensures StartsWith(line, r) && |line| - 1 <= |r|
  {
    if |line| > 0 && line[|line| - 1] == '\r' then line[..|line| - 1] else line
  }

  /** A line that survives being written and read back unchanged. */
  predicate PlainLine(line: Str) {
    '\n' !in line && (|line| == 0 || line[|line| - 1] != '\r')
  }

  /**
   `BufRead::lines`: the text is cut at every "\n"; a line that was ended by
   "\n" loses one trailing "\r"; a last line without "\n" is kept as is; a
   final "\n" does not open an empty last line.
   */
  function Lines(t: Str): (ls: seq<Str>)
    ensures forall k :: 0 <= k < |ls| ==> '\n' !in ls[k]
    ensures |ls| == 0 <==> |t| == 0
    decreases |t|
  {
    if |t| == 0 then []
    else
      var i := FirstIndex(t, '\n');
      if i == |t| then [t]
      else
        var first := StripCR(t[..i]);
        assert forall x :: x in first ==> x in t[..i];
        [first] + Lines(t[i + 1..])
  }

  /**
   How the patch operations write a file back: every line, the last one
   included, is followed by "\n".
   */
  function JoinLines(ls: seq<Str>): (t: Str)
    ensures |ls| > 0 ==> |t| > 0 && t[|t| - 1] == '\n'
    decreases |ls|
  {
    if |ls| == 0 then [] else ls[0] + "\n" + JoinLines(ls[1..])
  }

  /** One line is written as itself followed by "\n". */
  lemma JoinOneLine(line: Str)
    ensures JoinLines([line]) == line + "\n"
  {
    assert [line][1..] == [];
    assert JoinLines([line][1..]) == [];
  }

  /** Reading back written lines gives the same lines, each less one trailing "\r". */
  lemma {:induction false} LinesOfJoin(ls: seq<Str>)
    requires forall k :: 0 <= k < |ls| ==> '\n' !in ls[k]
    ensures |Lines(JoinLines(ls))| == |ls|
    ensures forall k :: 0 <= k < |ls| ==> Lines(JoinLines(ls))[k] == StripCR(ls[k])
    decreases |ls|
  {
    if |ls| > 0 {
      var rest := JoinLines(ls[1..]);
      var t := JoinLines(ls);
      assert t == ls[0] + ['\n'] + rest;
      FirstIndexOfJoin(ls[0], '\n', rest);
      assert t[..|ls[0]|] == ls[0];
      assert t[|ls[0]| + 1..] == rest;
      LinesOfJoin(ls[1..]);
      assert Lines(t) == [StripCR(ls[0])] + Lines(rest);
    }
  }

  /** Plain lines survive a write and a read unchanged. */
  lemma LinesOfJoinPlain(ls: seq<Str>)
    requires forall k :: 0 <= k < |ls| ==> PlainLine(ls[k])
    ensures Lines(JoinLines(ls)) == ls
  {
    LinesOfJoin(ls);
  }

  /** Text in the form the patch operations write: empty or ending in "\n", and no "\r\n". */
  predicate Normalized(t: Str) {
    && (|t| == 0 || t[|t| - 1] == '\n')
    && forall i :: 0 < i < |t| && t[i] == '\n' ==> t[i - 1] != '\r'
  }

  lemma NormalizedSuffix(t: Str, k: nat)
    requires Normalized(t) && k <= |t|
    ensures Normalized(t[k..])
  {
    var rest := t[k..];
    forall j | 0 < j < |rest|
      ensures rest[j] == '\n' ==> rest[j - 1] != '\r'
    {
      assert rest[j] == t[k + j] && rest[j - 1] == t[k + j - 1];
    }
  }

  /** Non-empty normalized text is a plain first line, "\n", and normalized text after it. */
  lemma NormalizedHead(t: Str) returns (i: nat)
    requires Normalized(t) && |t| > 0
    ensures i < |t| && '\n' !in t[..i] && PlainLine(t[..i])
    ensures Lines(t) == [t[..i]] + Lines(t[i + 1..])
    ensures t == t[..i] + "\n" + t[i + 1..]
    ensures Normalized(t[i + 1..])
  {
    i := FirstIndex(t, '\n');
    assert '\n' in t[..|t|] by {
      assert t[..|t|][|t| - 1] == '\n';
    }
    var line := t[..i];
    assert StripCR(line) == line by {
      if i > 0 {
        assert line[i - 1] == t[i - 1];
      }
    }
    NormalizedSuffix(t, i + 1);
  }

  /** Normalized text is exactly the join of its lines. */
  lemma {:induction false} JoinOfLines(t: Str)
    requires Normalized(t)
    ensures JoinLines(Lines(t)) == t
    decreases |t|
  {
    if |t| > 0 {
      var i := NormalizedHead(t);
      var rest := t[i + 1..];
      JoinOfLines(rest);
      assert ([t[..i]] + Lines(rest))[1..] == Lines(rest);
    }
  }

  /** Every line of normalized text is plain. */
  lemma {:induction false} NormalizedLinesPlain(t: Str)
    requires Normalized(t)
    ensures forall k :: 0 <= k < |Lines(t)| ==> PlainLine(Lines(t)[k])
    decreases |t|
  {
    if |t| > 0 {
      var i := NormalizedHead(t);
      var rest := t[i + 1..];
      NormalizedLinesPlain(rest);
      AllPlainCons(t[..i], Lines(rest));
    }
  }

  lemma AllPlainCons(line: Str, ls: seq<Str>)
    requires PlainLine(line)
    requires forall k :: 0 <= k < |ls| ==> PlainLine(ls[k])
    ensures forall k :: 0 <= k < |[line] + ls| ==> PlainLine(([line] + ls)[k])
  {
    forall k | 0 < k < |[line] + ls|
      ensures PlainLine(([line] + ls)[k])
    {
      assert ([line] + ls)[k] == ls[k - 1];
    }
  }

  /** Joined plain lines are normalized text. */
  lemma {:induction false} JoinIsNormalized(ls: seq<Str>)
    requires forall k :: 0 <= k < |ls| ==> PlainLine(ls[k])
    ensures Normalized(JoinLines(ls))
    decreases |ls|
  {
    if |ls| > 0 {
      JoinIsNormalized(ls[1..]);
      var rest := JoinLines(ls[1..]);
      var t := JoinLines(ls);
      assert t == ls[0] + "\n" + rest;
      forall i | 0 < i < |t|
        ensures t[i] == '\n' ==> t[i - 1] != '\r'
      {
        if i < |ls[0]| {
          assert t[i] == ls[0][i];
        } else if i == |ls[0]| {
          assert t[i - 1] == ls[0][|ls[0]| - 1];
        } else if i > |ls[0]| + 1 {
          assert t[i] == rest[i - |ls[0]| - 1];
          assert t[i - 1] == rest[i - |ls[0]| - 2];
        }
      }
    }
  }

  /** `Ord` on `String`: lexicographic by character (for UTF-8 this is byte order). */
  predicate StrLess(a: Str, b: Str)
    decreases |a|
  {
    if |a| == 0 then |b| > 0
    else if |b| == 0 then false
    else if a[0] != b[0] then a[0] < b[0]
    else StrLess(a[1..], b[1..])
  }

  lemma {:induction false} StrLessIrreflexive(a: Str)
    ensures !StrLess(a, a)
    decreases |a|
  {
    if |a| > 0 {
      StrLessIrreflexive(a[1..]);
    }
  }

  lemma {:induction false} StrLessTransitive(a: Str, b: Str, c: Str)
    requires StrLess(a, b) && StrLess(b, c)
    ensures StrLess(a, c)
    decreases |a|
  {
    if |a| > 0 && a[0] == b[0] && b[0] == c[0] {
      StrLessTransitive(a[1..], b[1..], c[1..]);
    }
  }

  lemma {:induction false} StrLessTotal(a: Str, b: Str)
    ensures a == b || StrLess(a, b) || StrLess(b, a)
    decreases |a|
  {
    if |a| > 0 && |b| > 0 && a[0] == b[0] {
      StrLessTotal(a[1..], b[1..]);
      assert a == [a[0]] + a[1..];
      assert b == [b[0]] + b[1..];
    }
  }

  function DigitChar(d: nat): (c: char)
    requires d < 10
    ensures '0' <= c <= '9'
  {
    "0123456789"[d]
  }

  function DigitValue(c: char): nat {
    if '0' <= c <= '9' then (c - '0') as nat else 0
  }

  /** `to_string` on an unsigned integer: decimal, no leading zeros. */
  function NatToString(n: nat): (s: Str)
    ensures |s| > 0
    ensures forall k :: 0 <= k < |s| ==> '0' <= s[k] <= '9'
    ensures |s| > 1 ==> s[0] != '0'
    decreases n
  {
    if n < 10 then [DigitChar(n)]
    else NatToString(n / 10) + [DigitChar(n % 10)]
  }

  /** Decimal digits read back as a number. */
  function ParseNat(s: Str): nat
    decreases |s|
  {
    if |s| == 0 then 0 else ParseNat(s[..|s| - 1]) * 10 + DigitValue(s[|s| - 1])
  }

  lemma {:induction false} ParseNatToString(n: nat)
    ensures ParseNat(NatToString(n)) == n
    decreases n
  {
    if n >= 10 {
      ParseNatToString(n / 10);
      var s := NatToString(n);
      assert s[..|s| - 1] == NatToString(n / 10);
    }
  }
}
