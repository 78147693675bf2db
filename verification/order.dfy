/**
 The identity and order of mutants used when the cache is merged: a mutant
 is identified by its file, line and rule, mutants are ordered by that
 identity (paths component by component, then line, then the two rule
 texts), and the list is sorted stably by insertion.
 */
module MutantOrder {
  import opened Text
  import opened Files
  import opened Mutants

  /** What makes two mutants the same mutant. */
  datatype MutantId = MutantId(filePath: Path, lineNumber: nat, before: Str, after: Str)

  function Id(m: Mutant): MutantId {
    MutantId(m.filePath, m.lineNumber, m.before, m.after)
  }

  /** `Ord` on paths: component by component, a proper prefix first. */
  predicate PathLess(a: Path, b: Path)
    decreases |a|
  {
    if |a| == 0 then |b| > 0
    else if |b| == 0 then false
    else if a[0] != b[0] then StrLess(a[0], b[0])
    else PathLess(a[1..], b[1..])
  }

  lemma {:induction false} PathLessIrreflexive(a: Path)
    ensures !PathLess(a, a)
    decreases |a|
  {
    if |a| > 0 {
      PathLessIrreflexive(a[1..]);
    }
  }

  lemma {:induction false} PathLessTransitive(a: Path, b: Path, c: Path)
    requires PathLess(a, b) && PathLess(b, c)
    ensures PathLess(a, c)
    decreases |a|
  {
    if |a| > 0 && |b| > 0 && |c| > 0 {
      if a[0] == b[0] && b[0] == c[0] {
        PathLessTransitive(a[1..], b[1..], c[1..]);
      } else if a[0] != b[0] && b[0] != c[0] {
        StrLessIrreflexive(a[0]);
        StrLessTransitive(a[0], b[0], c[0]);
      }
    }
  }

  lemma {:induction false} PathLessTotal(a: Path, b: Path)
    ensures a == b || PathLess(a, b) || PathLess(b, a)
    decreases |a|
  {
    if |a| > 0 && |b| > 0 {
      if a[0] == b[0] {
        PathLessTotal(a[1..], b[1..]);
        assert a == [a[0]] + a[1..];
        assert b == [b[0]] + b[1..];
      } else {
        StrLessTotal(a[0], b[0]);
      }
    }
  }

  /** The order on identities: path, then line, then `before`, then `after`. */
  predicate IdLess(x: MutantId, y: MutantId) {
    || PathLess(x.filePath, y.filePath)
    || (x.filePath == y.filePath && x.lineNumber < y.lineNumber)
    || (x.filePath == y.filePath && x.lineNumber == y.lineNumber && StrLess(x.before, y.before))
    || (x.filePath == y.filePath && x.lineNumber == y.lineNumber && x.before == y.before && StrLess(x.after, y.after))
  }

  lemma IdLessIrreflexive(x: MutantId)
    ensures !IdLess(x, x)
  {
    PathLessIrreflexive(x.filePath);
    StrLessIrreflexive(x.before);
    StrLessIrreflexive(x.after);
  }

  lemma IdLessTransitive(x: MutantId, y: MutantId, z: MutantId)
    requires IdLess(x, y) && IdLess(y, z)
    ensures IdLess(x, z)
  {
    if PathLess(x.filePath, y.filePath) && PathLess(y.filePath, z.filePath) {
      PathLessTransitive(x.filePath, y.filePath, z.filePath);
    }
    if x.filePath == y.filePath == z.filePath && x.lineNumber == y.lineNumber == z.lineNumber {
      if StrLess(x.before, y.before) && StrLess(y.before, z.before) {
        StrLessTransitive(x.before, y.before, z.before);
      }
      if x.before == y.before == z.before && StrLess(x.after, y.after) && StrLess(y.after, z.after) {
        StrLessTransitive(x.after, y.after, z.after);
      }
    }
  }

  lemma IdLessTotal(x: MutantId, y: MutantId)
    ensures x == y || IdLess(x, y) || IdLess(y, x)
  {
    PathLessTotal(x.filePath, y.filePath);
    StrLessTotal(x.before, y.before);
    StrLessTotal(x.after, y.after);
  }

  /** Asymmetry, from irreflexivity and transitivity. */
  lemma IdLessAsymmetric(x: MutantId, y: MutantId)
    requires IdLess(x, y)
    ensures !IdLess(y, x)
  {
    if IdLess(y, x) {
      IdLessTransitive(x, y, x);
      IdLessIrreflexive(x);
    }
  }

  /** "Not less" is transitive too, since the order is total on identities. */
  lemma NotLessTransitive(x: MutantId, y: MutantId, z: MutantId)
    requires !IdLess(y, x) && !IdLess(z, y)
    ensures !IdLess(z, x)
  {
    IdLessTotal(x, y);
    if IdLess(z, x) {
      if IdLess(x, y) {
        IdLessTransitive(z, x, y);
      }
    }
  }

  predicate MutantLess(a: Mutant, b: Mutant) {
    IdLess(Id(a), Id(b))
  }

  /** Non-decreasing by identity. */
  predicate Sorted(s: seq<Mutant>) {
    forall j, k :: 0 <= j < k < |s| ==> !MutantLess(s[k], s[j])
  }

  /** `x` placed before the first element of `t` that is not less than it. */
  function InsertSorted(x: Mutant, t: seq<Mutant>): (r: seq<Mutant>)
    ensures multiset(r) == multiset(t) + multiset{x}
    ensures |r| == |t| + 1
    decreases |t|
  {
    if |t| == 0 || !MutantLess(t[0], x) then [x] + t
    else
      assert t == [t[0]] + t[1..];
      [t[0]] + InsertSorted(x, t[1..])
  }

  /** `slice::sort` by identity: a stable sort (modelled as insertion sort). */
  function Sort(s: seq<Mutant>): (r: seq<Mutant>)
    ensures multiset(r) == multiset(s)
    decreases |s|
  {
    if |s| == 0 then []
    else
      assert s == [s[0]] + s[1..];
      InsertSorted(s[0], Sort(s[1..]))
  }

  /** Every element of an insertion result is `x` or an element of `t`. */
  lemma InsertSortedFrom(x: Mutant, t: seq<Mutant>, y: Mutant)
    requires y in InsertSorted(x, t)
    ensures y == x || exists k :: 0 <= k < |t| && t[k] == y
  {
    assert y in multiset(InsertSorted(x, t));
    if y != x {
      assert y in multiset(t);
    }
  }

  /** The head stays first when `x` goes behind it. */
  lemma InsertBehindHead(x: Mutant, t: seq<Mutant>)
    requires |t| > 0 && Sorted(t) && MutantLess(t[0], x)
    requires Sorted(InsertSorted(x, t[1..]))
    ensures Sorted([t[0]] + InsertSorted(x, t[1..]))
  {
    var rest := InsertSorted(x, t[1..]);
    IdLessAsymmetric(Id(t[0]), Id(x));
    forall y | y in rest
      ensures !MutantLess(y, t[0])
    {
      InsertSortedFrom(x, t[1..], y);
      if y != x {
        var k :| 0 <= k < |t[1..]| && t[1..][k] == y;
        assert t[k + 1] == y;
      }
    }
    var r := [t[0]] + rest;
    forall j, k | 0 <= j < k < |r|
      ensures !MutantLess(r[k], r[j])
    {
      assert r[k] == rest[k - 1];
      if j > 0 {
        assert r[j] == rest[j - 1];
      }
    }
  }

  /** `x` goes first when the head is not less than it. */
  lemma InsertAtFront(x: Mutant, t: seq<Mutant>)
    requires |t| > 0 && Sorted(t) && !MutantLess(t[0], x)
    ensures Sorted([x] + t)
  {
    var r := [x] + t;
    forall j, k | 0 <= j < k < |r|
      ensures !MutantLess(r[k], r[j])
    {
      if j == 0 {
        assert r[k] == t[k - 1];
        if k - 1 == 0 {
          IdLessIrreflexive(Id(t[0]));
        }
        NotLessTransitive(Id(x), Id(t[0]), Id(t[k - 1]));
      } else {
        assert r[k] == t[k - 1] && r[j] == t[j - 1];
      }
    }
  }

  lemma {:induction false} InsertSortedSorted(x: Mutant, t: seq<Mutant>)
    requires Sorted(t)
    ensures Sorted(InsertSorted(x, t))
    decreases |t|
  {
    if |t| > 0 && MutantLess(t[0], x) {
      assert Sorted(t[1..]) by {
        forall j, k | 0 <= j < k < |t[1..]|
          ensures !MutantLess(t[1..][k], t[1..][j])
        {
          assert t[1..][k] == t[k + 1] && t[1..][j] == t[j + 1];
        }
      }
      InsertSortedSorted(x, t[1..]);
      InsertBehindHead(x, t);
    } else if |t| > 0 {
      InsertAtFront(x, t);
    }
  }

  /** The sort's result is ordered. */
  lemma {:induction false} SortSorted(s: seq<Mutant>)
    ensures Sorted(Sort(s))
    decreases |s|
  {
    if |s| > 0 {
      SortSorted(s[1..]);
      InsertSortedSorted(s[0], Sort(s[1..]));
    }
  }

  /** Sorting a sorted list changes nothing. */
  lemma {:induction false} SortOfSorted(s: seq<Mutant>)
    requires Sorted(s)
    ensures Sort(s) == s
    decreases |s|
  {
    if |s| > 0 {
      assert Sorted(s[1..]) by {
        forall j, k | 0 <= j < k < |s[1..]|
          ensures !MutantLess(s[1..][k], s[1..][j])
        {
          assert s[1..][k] == s[k + 1] && s[1..][j] == s[j + 1];
        }
      }
      SortOfSorted(s[1..]);
      if |s| > 1 {
        assert s[1..][0] == s[1];
      }
      assert [s[0]] + s[1..] == s;
    }
  }

  /** The mutants of `s` whose identity is `id`, in the order of `s`. */
  function WithId(s: seq<Mutant>, id: MutantId): seq<Mutant>
    decreases |s|
  {
    if |s| == 0 then [] else (if Id(s[0]) == id then [s[0]] else []) + WithId(s[1..], id)
  }

  /** Inserting `x` keeps it ahead of every element with its identity, as if it were put first. */
  lemma {:induction false} WithIdInsert(x: Mutant, t: seq<Mutant>, id: MutantId)
    ensures WithId(InsertSorted(x, t), id) == WithId([x] + t, id)
    decreases |t|
  {
    assert ([x] + t)[0] == x && ([x] + t)[1..] == t;
    if |t| > 0 && MutantLess(t[0], x) {
      WithIdInsert(x, t[1..], id);
      IdLessIrreflexive(Id(x));
      var r := [t[0]] + InsertSorted(x, t[1..]);
      assert r[0] == t[0] && r[1..] == InsertSorted(x, t[1..]);
      assert ([x] + t[1..])[0] == x && ([x] + t[1..])[1..] == t[1..];
    }
  }

  /**
   The sort is stable: the mutants that share one identity come out in the
   order they went in.
   */
  lemma {:induction false} SortStable(s: seq<Mutant>, id: MutantId)
    ensures WithId(Sort(s), id) == WithId(s, id)
    decreases |s|
  {
    if |s| > 0 {
      SortStable(s[1..], id);
      WithIdInsert(s[0], Sort(s[1..]), id);
      var t := Sort(s[1..]);
      assert ([s[0]] + t)[0] == s[0] && ([s[0]] + t)[1..] == t;
    }
  }
}
