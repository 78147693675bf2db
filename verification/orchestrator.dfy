/**
 The top-level flow of a mutation run before any test is executed: the
 discovered mutants are optionally subsampled, merged into the cached list
 when a cache file exists, and either listed or handed on to the runner.
 */
module Orchestrator {
  import opened Text
  import opened Wrappers
  import opened Files
  import opened Mutants
  import opened MutantOrder

  /** Some element of `s` carries identity `id`: what `Vec::contains` asks. */
  predicate HasId(s: seq<Mutant>, id: MutantId) {
    exists x :: x in s && Id(x) == id
  }

  /** No identity occurs twice. */
  predicate DistinctIds(s: seq<Mutant>) {
    forall j, k :: 0 <= j < k < |s| ==> Id(s[j]) != Id(s[k])
  }

  lemma HasIdOfMember(s: seq<Mutant>, k: nat)
    requires k < |s|
    ensures HasId(s, Id(s[k]))
  {
    assert s[k] in s;
  }

  /** Identity membership depends only on the elements, not on their order. */
  lemma HasIdOfPermutation(s: seq<Mutant>, t: seq<Mutant>, id: MutantId)
    requires multiset(s) == multiset(t)
    ensures HasId(s, id) <==> HasId(t, id)
  {
    if HasId(s, id) {
      var x :| x in s && Id(x) == id;
      assert x in multiset(s);
      assert x in t;
    }
    if HasId(t, id) {
      var x :| x in t && Id(x) == id;
      assert x in multiset(t);
      assert x in s;
    }
  }

  /**
   The merge loop: every discovered mutant whose identity is not yet in the
   list (as it grows) is pushed at the end.
   */
  function AppendNew(acc: seq<Mutant>, ds: seq<Mutant>): (r: seq<Mutant>)
    ensures acc <= r
    ensures forall x :: x in r ==> x in acc || x in ds
    decreases |ds|
  {
    if |ds| == 0 then acc
    else
      var acc' := if HasId(acc, Id(ds[0])) then acc else acc + [ds[0]];
      var r := AppendNew(acc', ds[1..]);
      assert forall x :: x in ds[1..] ==> x in ds;
      r
  }

  /** A growing list keeps every identity it had. */
  lemma HasIdOfPrefix(a: seq<Mutant>, b: seq<Mutant>, id: MutantId)
    requires a <= b && HasId(a, id)
    ensures HasId(b, id)
  {
    var x :| x in a && Id(x) == id;
    var i :| 0 <= i < |a| && a[i] == x;
    assert b[i] == x;
  }

  /** After the merge loop every discovered mutant is present by identity. */
  lemma {:induction false} AppendNewCovers(acc: seq<Mutant>, ds: seq<Mutant>)
    ensures forall k :: 0 <= k < |ds| ==> HasId(AppendNew(acc, ds), Id(ds[k]))
    decreases |ds|
  {
    if |ds| > 0 {
      var d := ds[0];
      var acc' := if HasId(acc, Id(d)) then acc else acc + [d];
      var r := AppendNew(acc', ds[1..]);
      assert r == AppendNew(acc, ds);
      AppendNewCovers(acc', ds[1..]);
      assert HasId(acc', Id(d)) by {
        if !HasId(acc, Id(d)) {
          assert d in acc';
        }
      }
      HasIdOfPrefix(acc', r, Id(d));
      forall k | 0 < k < |ds|
        ensures HasId(r, Id(ds[k]))
      {
        assert ds[k] == ds[1..][k - 1];
      }
    }
  }

  /** The merge loop never pushes an identity that is already in the list. */
  lemma {:induction false} AppendNewDistinct(acc: seq<Mutant>, ds: seq<Mutant>)
    requires DistinctIds(acc)
    ensures DistinctIds(AppendNew(acc, ds))
    decreases |ds|
  {
    if |ds| > 0 {
      var d := ds[0];
      var acc' := if HasId(acc, Id(d)) then acc else acc + [d];
      if !HasId(acc, Id(d)) {
        forall j, k | 0 <= j < k < |acc'|
          ensures Id(acc'[j]) != Id(acc'[k])
        {
          if k == |acc| {
            assert acc'[j] in acc;
          }
        }
      }
      AppendNewDistinct(acc', ds[1..]);
    }
  }

  /** When every discovered mutant is already listed, the merge loop adds nothing. */
  lemma {:induction false} AppendNewAllPresent(acc: seq<Mutant>, ds: seq<Mutant>)
    requires forall k :: 0 <= k < |ds| ==> HasId(acc, Id(ds[k]))
    ensures AppendNew(acc, ds) == acc
    decreases |ds|
  {
    if |ds| > 0 {
      forall k | 0 <= k < |ds[1..]|
        ensures HasId(acc, Id(ds[1..][k]))
      {
        assert ds[1..][k] == ds[k + 1];
      }
      AppendNewAllPresent(acc, ds[1..]);
    }
  }

  /** The cache merge: discovered mutants not yet cached are appended, then the whole list is sorted. */
  function MergeCache(cached: seq<Mutant>, found: seq<Mutant>): seq<Mutant> {
    Sort(AppendNew(cached, found))
  }

  /** Inserting an element whose identity is new keeps identities distinct. */
  lemma {:induction false} InsertSortedDistinct(x: Mutant, t: seq<Mutant>)
    requires DistinctIds(t) && !HasId(t, Id(x))
    ensures DistinctIds(InsertSorted(x, t))
    decreases |t|
  {
    if |t| > 0 && MutantLess(t[0], x) {
      var rest := InsertSorted(x, t[1..]);
      assert DistinctIds(t[1..]) by {
        forall j, k | 0 <= j < k < |t[1..]|
          ensures Id(t[1..][j]) != Id(t[1..][k])
        {
          assert t[1..][j] == t[j + 1] && t[1..][k] == t[k + 1];
        }
      }
      assert !HasId(t[1..], Id(x)) by {
        forall y | y in t[1..]
          ensures Id(y) != Id(x)
        {
          assert y in t;
        }
      }
      InsertSortedDistinct(x, t[1..]);
      forall y | y in rest
        ensures Id(y) != Id(t[0])
      {
        assert y in multiset(rest);
        if y == x {
          assert t[0] in t;
        } else {
          assert y in multiset(t[1..]);
          var i :| 0 <= i < |t[1..]| && t[1..][i] == y;
          assert t[i + 1] == y;
        }
      }
      var r := [t[0]] + rest;
      forall j, k | 0 <= j < k < |r|
        ensures Id(r[j]) != Id(r[k])
      {
        assert r[k] == rest[k - 1];
        if j > 0 {
          assert r[j] == rest[j - 1];
        }
      }
    } else {
      var r := [x] + t;
      forall j, k | 0 <= j < k < |r|
        ensures Id(r[j]) != Id(r[k])
      {
        if j == 0 {
          assert r[k] in t;
        } else {
          assert r[j] == t[j - 1] && r[k] == t[k - 1];
        }
      }
    }
  }

  /** Sorting keeps identities distinct. */
  lemma {:induction false} SortDistinct(s: seq<Mutant>)
    requires DistinctIds(s)
    ensures DistinctIds(Sort(s))
    decreases |s|
  {
    if |s| > 0 {
      assert DistinctIds(s[1..]) by {
        forall j, k | 0 <= j < k < |s[1..]|
          ensures Id(s[1..][j]) != Id(s[1..][k])
        {
          assert s[1..][j] == s[j + 1] && s[1..][k] == s[k + 1];
        }
      }
      SortDistinct(s[1..]);
      assert !HasId(Sort(s[1..]), Id(s[0])) by {
        HasIdOfPermutation(s[1..], Sort(s[1..]), Id(s[0]));
        forall y | y in s[1..]
          ensures Id(y) != Id(s[0])
        {
          var i :| 0 <= i < |s[1..]| && s[1..][i] == y;
          assert s[i + 1] == y;
        }
      }
      InsertSortedDistinct(s[0], Sort(s[1..]));
    }
  }

  /**
   The merged list: sorted, every cached entry kept, every discovered mutant
   present by identity, nothing from elsewhere, and no identity twice when
   the cache had none twice.
   */
  lemma MergeCacheSpec(cached: seq<Mutant>, found: seq<Mutant>)
    ensures var r := MergeCache(cached, found);
      && Sorted(r)
      && multiset(cached) <= multiset(r)
      && (forall k :: 0 <= k < |found| ==> HasId(r, Id(found[k])))
      && (forall x :: x in r ==> x in cached || x in found)
      && (DistinctIds(cached) ==> DistinctIds(r))
  {
    var a := AppendNew(cached, found);
    var r := Sort(a);
    SortSorted(a);
    assert a == cached + a[|cached|..];
    assert multiset(cached) <= multiset(a);
    AppendNewCovers(cached, found);
    forall k | 0 <= k < |found|
      ensures HasId(r, Id(found[k]))
    {
      HasIdOfPermutation(a, r, Id(found[k]));
    }
    forall x | x in r
      ensures x in cached || x in found
    {
      assert x in multiset(r);
      assert x in a;
    }
    if DistinctIds(cached) {
      AppendNewDistinct(cached, found);
      SortDistinct(a);
    }
  }

  /** Nothing new discovered: the merge is the sorted cache. */
  lemma MergeCacheAllCached(cached: seq<Mutant>, found: seq<Mutant>)
    requires forall k :: 0 <= k < |found| ==> HasId(cached, Id(found[k]))
    ensures MergeCache(cached, found) == Sort(cached)
  {
    AppendNewAllPresent(cached, found);
  }

  /** Merging the same discoveries into an already merged list changes nothing. */
  lemma MergeCacheIdempotent(cached: seq<Mutant>, found: seq<Mutant>)
    ensures MergeCache(MergeCache(cached, found), found) == MergeCache(cached, found)
  {
    var m := MergeCache(cached, found);
    MergeCacheSpec(cached, found);
    AppendNewAllPresent(m, found);
    SortOfSorted(m);
  }

  // Subsampling.

  predicate DistinctPicks(picks: seq<nat>) {
    forall i, j :: 0 <= i < j < |picks| ==> picks[i] != picks[j]
  }

  /**
   What the reservoir sampler can return for `amount` draws from `n` items:
   min(amount, n) distinct positions, slot `k` holding item `k` or a later
   one (the first `amount` items fill the slots in order; a later item may
   only overwrite a slot).
   */
  predicate ValidPicks(picks: seq<nat>, n: nat, amount: nat) {
    && |picks| == (if amount < n then amount else n)
    && (forall k :: 0 <= k < |picks| ==> k <= picks[k] < n)
    && DistinctPicks(picks)
  }

  /** The items at the picked positions, slot by slot. */
  function Choose(ds: seq<Mutant>, picks: seq<nat>): (r: seq<Mutant>)
    requires forall k :: 0 <= k < |picks| ==> picks[k] < |ds|
    ensures |r| == |picks|
    ensures forall k :: 0 <= k < |r| ==> r[k] == ds[picks[k]]
    decreases |picks|
  {
    if |picks| == 0 then [] else [ds[picks[0]]] + Choose(ds, picks[1..])
  }

  /** The positions after `p` move down by one once item `p` is taken out. */
  function Shift(ps: seq<nat>, p: nat): (r: seq<nat>)
    ensures |r| == |ps|
  {
    seq(|ps|, k requires 0 <= k < |ps| => if ps[k] <= p then ps[k] else ps[k] - 1)
  }

  /**
   Taking out the first picked item leaves the other picks, shifted down
   past it, distinct and pointing at the same items.
   */
  lemma ShiftedPicks(ds: seq<Mutant>, picks: seq<nat>)
    requires |picks| > 0 && forall k :: 0 <= k < |picks| ==> picks[k] < |ds|
    requires DistinctPicks(picks)
    ensures var p := picks[0];
            var ds' := ds[..p] + ds[p + 1..];
            var rest' := Shift(picks[1..], p);
      && multiset(ds) == multiset(ds') + multiset{ds[p]}
      && (forall k :: 0 <= k < |rest'| ==> rest'[k] < |ds'|)
      && DistinctPicks(rest')
      && Choose(ds', rest') == Choose(ds, picks[1..])
  {
    var p := picks[0];
    var rest := picks[1..];
    var ds' := ds[..p] + ds[p + 1..];
    var rest' := Shift(rest, p);
    assert ds == ds[..p] + [ds[p]] + ds[p + 1..];
    forall k | 0 <= k < |rest|
      ensures rest[k] != p && rest'[k] < |ds'| && ds'[rest'[k]] == ds[rest[k]]
    {
      assert rest[k] == picks[k + 1];
    }
    forall i, j | 0 <= i < j < |rest'|
      ensures rest'[i] != rest'[j]
    {
      assert rest[i] == picks[i + 1] && rest[j] == picks[j + 1];
    }
    assert Choose(ds', rest') == Choose(ds, rest);
  }

  /** Distinct picks never take an item more often than it occurs. */
  lemma {:induction false} ChooseSubMultiset(ds: seq<Mutant>, picks: seq<nat>)
    requires forall k :: 0 <= k < |picks| ==> picks[k] < |ds|
    requires DistinctPicks(picks)
    ensures multiset(Choose(ds, picks)) <= multiset(ds)
    decreases |picks|
  {
    if |picks| > 0 {
      var p := picks[0];
      ShiftedPicks(ds, picks);
      ChooseSubMultiset(ds[..p] + ds[p + 1..], Shift(picks[1..], p));
      assert Choose(ds, picks) == [ds[p]] + Choose(ds, picks[1..]);
    }
  }

  /** Slots at or above `m` hold their own position. */
  lemma {:induction false} PicksFixedFrom(picks: seq<nat>, n: nat, m: nat)
    requires ValidPicks(picks, n, n) && m <= n
    ensures forall k :: m <= k < n ==> picks[k] == k
    decreases n - m
  {
    if m < n {
      PicksFixedFrom(picks, n, m + 1);
      var later := picks[m + 1..];
      forall v | m < v < n
        ensures v in later
      {
        assert later[v - m - 1] == v;
      }
      forall i | 0 <= i < |later|
        ensures later[i] != picks[m]
      {
        assert later[i] == picks[m + 1 + i];
      }
      assert picks[m] !in later;
    }
  }

  /** `choose_multiple`: a sample of at most `amount` discovered mutants. */
  function Subsample(ds: seq<Mutant>, amount: nat, picks: seq<nat>): (r: seq<Mutant>)
    requires ValidPicks(picks, |ds|, amount)
  {
    Choose(ds, picks)
  }

  /**
   The sample has min(amount, n) entries, never takes a mutant more often
   than it was discovered, and is everything, in order, when there are no
   more mutants than requested.
   */
  lemma SubsampleSpec(ds: seq<Mutant>, amount: nat, picks: seq<nat>)
    requires ValidPicks(picks, |ds|, amount)
    ensures var r := Subsample(ds, amount, picks);
      && |r| == (if amount < |ds| then amount else |ds|)
      && multiset(r) <= multiset(ds)
      && (|ds| <= amount ==> r == ds)
  {
    ChooseSubMultiset(ds, picks);
    if |ds| <= amount {
      assert ValidPicks(picks, |ds|, |ds|);
      PicksFixedFrom(picks, |ds|, 0);
    }
  }

  // The run.

  /** The cache file at the root: missing, failing to open, holding a malformed record, or read. */
  datatype CacheFile = NoCache | CannotOpen | Malformed | Cached(entries: seq<Mutant>)

  /** Where the run stops before the runner: the list printed, the runner called, an error returned, or a panic. */
  datatype Plan =
    | Listed(message: Str, mutants: seq<Mutant>)
    | Execute(mutants: seq<Mutant>)
    | CacheUnreadable
    | CacheRecordPanic

  const ListedPrefix: Str := "Found and listed "
  const ListedSuffix: Str := " mutants"

  /** The message list mode returns. */
  function ListedMessage(n: nat): Str {
    ListedPrefix + NatToString(n) + ListedSuffix
  }

  /**
   The list the run works on and what it does with it. `found` is what
   discovery yields; `picks` is the sampler's choice when a maximum is set.
   */
  function Run(found: seq<Mutant>, maxMutants: Option<nat>, picks: seq<nat>, cache: CacheFile, list: bool): (p: Plan)
    requires maxMutants.Some? ==> ValidPicks(picks, |found|, maxMutants.value)
  {
    var sampled := if maxMutants.Some? then Subsample(found, maxMutants.value, picks) else found;
    match cache
    case CannotOpen => CacheUnreadable
    case Malformed => CacheRecordPanic
    case NoCache => Finish(sampled, list)
    case Cached(entries) => Finish(MergeCache(entries, sampled), list)
  }

  /** The last step: print and report the count, or hand the list to the runner. */
  function Finish(ms: seq<Mutant>, list: bool): Plan {
    if list then Listed(ListedMessage(|ms|), ms) else Execute(ms)
  }

  /** The count in the list message reads back as the number of mutants listed. */
  lemma ListedMessageCount(n: nat)
    ensures var msg := ListedMessage(n);
      && StartsWith(msg, ListedPrefix)
      && EndsWith(msg, ListedSuffix)
      && ParseNat(msg[|ListedPrefix|..|msg| - |ListedSuffix|]) == n
  {
    var msg := ListedMessage(n);
    assert msg[..|ListedPrefix|] == ListedPrefix;
    assert msg[|msg| - |ListedSuffix|..] == ListedSuffix;
    assert msg[|ListedPrefix|..|msg| - |ListedSuffix|] == NatToString(n);
    ParseNatToString(n);
  }

  /** List mode lists exactly the mutants the runner would otherwise be given, and says how many. */
  lemma ListMatchesExecute(found: seq<Mutant>, maxMutants: Option<nat>, picks: seq<nat>, cache: CacheFile)
    requires maxMutants.Some? ==> ValidPicks(picks, |found|, maxMutants.value)
    ensures var listed := Run(found, maxMutants, picks, cache, true);
            var run := Run(found, maxMutants, picks, cache, false);
      && (listed.Listed? <==> run.Execute?)
      && (listed.Listed? ==> listed.mutants == run.mutants && listed.message == ListedMessage(|run.mutants|))
      && (!listed.Listed? ==> listed == run)
  {
  }

  /** Without a cache file or a maximum, the runner gets every discovered mutant in discovery order. */
  lemma RunPassesThrough(found: seq<Mutant>, picks: seq<nat>)
    ensures Run(found, None, picks, NoCache, false) == Execute(found)
  {
  }

  /** Without a cache file, a maximum bounds the number of mutants and each is a discovered one. */
  lemma RunBounded(found: seq<Mutant>, max: nat, picks: seq<nat>, list: bool)
    requires ValidPicks(picks, |found|, max)
    ensures var p := Run(found, Some(max), picks, NoCache, list);
      && (p.Listed? || p.Execute?)
      && |p.mutants| == (if max < |found| then max else |found|)
      && multiset(p.mutants) <= multiset(found)
  {
    SubsampleSpec(found, max, picks);
  }

  /** With a readable cache, nothing cached is lost and the list is sorted. */
  lemma RunKeepsCache(found: seq<Mutant>, maxMutants: Option<nat>, picks: seq<nat>, cached: seq<Mutant>, list: bool)
    requires maxMutants.Some? ==> ValidPicks(picks, |found|, maxMutants.value)
    ensures var p := Run(found, maxMutants, picks, Cached(cached), list);
      && (p.Listed? || p.Execute?)
      && multiset(cached) <= multiset(p.mutants)
      && Sorted(p.mutants)
  {
    var sampled := if maxMutants.Some? then Subsample(found, maxMutants.value, picks) else found;
    MergeCacheSpec(cached, sampled);
  }

  /** A cache that fails to open stops the run with an error; a malformed record panics. */
  lemma RunCacheErrors(found: seq<Mutant>, maxMutants: Option<nat>, picks: seq<nat>, list: bool)
    requires maxMutants.Some? ==> ValidPicks(picks, |found|, maxMutants.value)
    ensures Run(found, maxMutants, picks, CannotOpen, list) == CacheUnreadable
    ensures Run(found, maxMutants, picks, Malformed, list) == CacheRecordPanic
  {
  }
}
