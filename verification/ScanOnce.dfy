/** How often a scan emits an entry: once at most in a call, and just once in a whole scan of tables that stay as they are. */
module ScanOnce {
  import opened Words
  import opened DictModel
  import opened DictInvariant
  import opened ScanModel
  import opened ScanTheory
  import DictRuns
  import DictAmount
  import ScanShrink

  lemma DistinctConcat(a: seq<Pair>, b: seq<Pair>)
    requires Distinct(a) && Distinct(b) && forall k :: !(Emitted(a, k) && Emitted(b, k))
    ensures Distinct(a + b)
  {
    var c := a + b;
    forall i, j | 0 <= i < j < |c|
      ensures c[i].key != c[j].key
    {
      if i < |a| <= j {
        assert a[i] == c[i] && b[j - |a|] == c[j];
        assert Emitted(a, a[i].key) && !Emitted(b, a[i].key);
      }
    }
  }

  predicate AllDiffer(slots: seq<nat>) {
    forall i, j :: 0 <= i < j < |slots| ==> slots[i] != slots[j]
  }

  /** Buckets that are all different hold no key twice. */
  lemma {:induction false} GatherDistinct(h: HashFunction, t: Table, slots: seq<nat>)
    requires TableOk(h, t) && t.Size() > 0
    requires AllDiffer(slots)
    ensures Distinct(Gather(t, slots))
  {
    if slots != [] {
      var first, rest := if slots[0] < t.Size() then t.buckets[slots[0]] else [], Gather(t, slots[1..]);
      GatherDistinct(h, t, slots[1..]);
      assert Distinct(first);
      forall k
        ensures !(Emitted(first, k) && Emitted(rest, k))
      {
        if slots[0] < t.Size() {
          BucketHolds(h, t, slots[0], k);
        }
        GatherHolds(h, t, slots[1..], k);
      }
      DistinctConcat(first, rest);
    }
  }

  lemma ExpansionsDiffer(size: nat, v: Word, k0: nat)
    requires PowerSize(size) && k0 <= Rank(size) <= WIDTH
    ensures AllDiffer(Expansions(size, v, k0).0)
  {
    hide *;
    ExpansionsExactly(size, v, k0);
    NumbersDiffer(Expansions(size, v, k0).0, Index(v, k0), k0, Middle(v, k0, Rank(size)));
  }

  lemma NumbersDiffer(slots: seq<nat>, low: nat, k0: nat, mid: nat)
    requires forall j :: 0 <= j < |slots| ==> slots[j] == SlotNumber(low, k0, mid + j)
    ensures AllDiffer(slots)
  {
    hide SlotNumber;
    forall i, j | 0 <= i < j < |slots|
      ensures slots[i] != slots[j]
    {
      if slots[i] == slots[j] {
        SlotNumberInjective(low, k0, mid + i, mid + j);
      }
    }
  }

  lemma LargerDistinct(h: HashFunction, t: Table, v: Word, k0: nat)
    requires TableOk(h, t) && PowerSize(t.Size()) && k0 <= Rank(t.Size()) <= WIDTH
    ensures Distinct(Gather(t, Expansions(t.Size(), v, k0).0))
  {
    ExpansionsDiffer(t.Size(), v, k0);
    hide Expansions, TableOk, Distinct, Rank, AllDiffer;
    GatherDistinct(h, t, Expansions(t.Size(), v, k0).0);
  }

  lemma OneTable(h: HashFunction, s: State, k: Key)
    requires Inv(h, s) && s.Rehashing()
    ensures Lookup(h, Smaller(s), k).None? || Lookup(h, Larger(s), k).None?
  {
  }

  /** No call hands an entry to the callback twice, whatever the tables and the cursor. */
  lemma ScanDistinct(h: HashFunction, s: State, v: Word)
    requires Inv(h, s)
    ensures Distinct(Scan(h, s, v).1)
  {
    if s.Used() == 0 {
      return;
    }
    NonEmptyTables(h, s);
    var t0, t1 := Smaller(s), Larger(s);
    PowerRank(t0.Size());
    var first := t0.buckets[Slot(v, t0.Size())];
    assert Distinct(first);
    if s.Rehashing() {
      PowerRank(t1.Size());
      RankMonotone(t0.Size(), t1.Size());
      var slots := Expansions(t1.Size(), v, Rank(t0.Size())).0;
      LargerDistinct(h, t1, v, Rank(t0.Size()));
      hide Expansions, Slot, Rank;
      forall k
        ensures !(Emitted(first, k) && Emitted(Gather(t1, slots), k))
      {
        BucketHolds(h, t0, Slot(v, t0.Size()), k);
        GatherHolds(h, t1, slots, k);
        OneTable(h, s, k);
      }
      DistinctConcat(first, Gather(t1, slots));
    }
  }

  // ------------------------------------------------------------------------- tables that stay as they are

  /** The one call that emits a key. */
  ghost function CallFor(h: HashFunction, s: State, k: Key): nat
    requires MinSize(s) > 0
  {
    CallOf(Slot(h(k), MinSize(s)), Rank(MinSize(s)))
  }

  lemma StationaryEmits(h: HashFunction, s: State, n: nat, k: Key)
    requires Inv(h, s) && s.Used() > 0 && n < MinSize(s)
    ensures CallFor(h, s, k) < MinSize(s)
    ensures Emitted(Scan(h, s, CursorAfter(h, s, n)).1, k) <==> LookupBoth(h, s, k).Some? && n == CallFor(h, s, k)
  {
    var v, m := CursorAfter(h, s, n), MinSize(s);
    StationaryCursor(h, s, n);
    PowerRank(m);
    SlotBound(h(k), m);
    StationaryScanIsPermutation(h, s, n, Slot(h(k), m));
    if LookupBoth(h, s, k).None? {
      NotPresentNotEmitted(h, s, v, k);
    } else {
      EmittedExactlyWhen(h, s, v, k);
      ReachBelowMask(h, s, v, k);
      SameSlot(h(k), v, m);
    }
  }

  lemma NotPresentNotEmitted(h: HashFunction, s: State, v: Word, k: Key)
    requires Inv(h, s) && LookupBoth(h, s, k).None?
    ensures !Emitted(Scan(h, s, v).1, k)
  {
    var out := Scan(h, s, v).1;
    if Emitted(out, k) {
      var i :| 0 <= i < |out| && out[i].key == k;
      CallEmitsOnlyEntries(h, s, v, out[i]);
    }
  }

  /** With no bit above the smaller mask every key of the bucket is in reach. */
  lemma ReachBelowMask(h: HashFunction, s: State, v: Word, k: Key)
    requires Inv(h, s) && s.Used() > 0 && BelowMask(s, v)
    ensures InReach(h, s, v, k) <==> Rank(MinSize(s)) <= WIDTH && h(k)[..Rank(MinSize(s))] == v[..Rank(MinSize(s))]
  {
    NonEmptyTables(h, s);
    var k0, k1 := Rank(Smaller(s).Size()), Rank(Larger(s).Size());
    PowerRank(Smaller(s).Size());
    PowerRank(Larger(s).Size());
    RankMonotone(Smaller(s).Size(), Larger(s).Size());
    assert Smaller(s).Size() == MinSize(s);
    forall i | 0 <= i < k1 - k0
      ensures !v[k0..k1][i]
    {
      assert v[k0..k1][i] == v[k0 + i];
    }
    ToNatZero(v[k0..k1]);
  }

  /** From call n on: the scan ends, and emits just once each present key whose call has not been yet, and nothing else. */
  lemma {:induction false} StationaryFrom(h: HashFunction, s: State, n: nat)
    requires Inv(h, s) && s.Used() > 0 && n < MinSize(s)
    ensures var (out, done) := ScanRun(h, s, CursorAfter(h, s, n), ScanShrink.Nothing(MinSize(s) - 1 - n));
      && done && Distinct(out)
      && forall k :: Emitted(out, k) <==> LookupBoth(h, s, k).Some? && n <= CallFor(h, s, k)
    decreases MinSize(s) - n
  {
    hide Inv, Scan, CursorAfter, LookupBoth, CallFor, Emitted, Distinct;
    var v, m := CursorAfter(h, s, n), MinSize(s);
    var (next, out) := Scan(h, s, v);
    ScanDistinct(h, s, v);
    NextCall(h, s, n);
    forall k
      ensures Emitted(out, k) <==> LookupBoth(h, s, k).Some? && n == CallFor(h, s, k)
      ensures CallFor(h, s, k) < m
    {
      StationaryEmits(h, s, n, k);
    }
    if n + 1 < m {
      StationaryFrom(h, s, n + 1);
      var rest := ScanRun(h, s, next, ScanShrink.Nothing(m - 2 - n)).0;
      NothingRun(h, s, v, m - 1 - n);
      DistinctConcat(out, rest);
      forall k
        ensures Emitted(out + rest, k) <==> Emitted(out, k) || Emitted(rest, k)
      {
        EmittedConcatIs(out, rest, k);
      }
    } else {
      RunEnds(h, s, v);
    }
  }

  lemma NextCall(h: HashFunction, s: State, n: nat)
    requires Inv(h, s) && s.Used() > 0 && n < MinSize(s)
    ensures Scan(h, s, CursorAfter(h, s, n)).0 == CursorAfter(h, s, n + 1)
    ensures CursorAfter(h, s, n + 1) == ZERO <==> n + 1 == MinSize(s)
  {
    hide Inv, Scan, CallOf, Slot, MinSize, Rank;
    StationaryScanIsPermutation(h, s, n, 0);
    if n + 1 < MinSize(s) {
      StationaryScanIsPermutation(h, s, n + 1, 0);
    }
  }

  lemma NothingRun(h: HashFunction, s: State, v: Word, n: nat)
    requires Inv(h, s) && n > 0 && Scan(h, s, v).0 != ZERO
    ensures var (next, out) := Scan(h, s, v); var (rest, done) := ScanRun(h, s, next, ScanShrink.Nothing(n - 1));
      ScanRun(h, s, v, ScanShrink.Nothing(n)) == (out + rest, done)
  {
    assert ScanShrink.Nothing(n)[0] == [] && ScanShrink.Nothing(n)[1..] == ScanShrink.Nothing(n - 1);
    assert DictRuns.Run(h, s, []).0 == s;
    hide Inv, Scan;
  }

  lemma RunEnds(h: HashFunction, s: State, v: Word)
    requires Inv(h, s) && Scan(h, s, v).0 == ZERO
    ensures forall script :: ScanRun(h, s, v, script) == (Scan(h, s, v).1, true)
  {
    hide Inv, Scan;
  }

  // ------------------------------------------------------------------------- counting

  /** All entries of the dictionary. */
  ghost function Everything(s: State): seq<Pair> {
    DictAmount.Entries(s.ht0.buckets, 0, s.ht0.Size()) + DictAmount.Entries(s.ht1.buckets, 0, s.ht1.Size())
  }

  lemma {:induction false} EntriesCount(b: seq<Chain>, i: nat)
    requires i <= |b|
    ensures |DictAmount.Entries(b, i, |b|)| == Count(b[i..])
    decreases |b| - i
  {
    if i < |b| {
      EntriesCount(b, i + 1);
      assert b[i..][1..] == b[i + 1..];
    }
  }

  lemma {:induction false} EntriesHold(h: HashFunction, t: Table, i: nat)
    requires TableOk(h, t) && i <= t.Size()
    ensures Distinct(DictAmount.Entries(t.buckets, i, t.Size()))
    ensures forall k :: Emitted(DictAmount.Entries(t.buckets, i, t.Size()), k) <==>
      t.Size() > 0 && Lookup(h, t, k).Some? && Slot(h(k), t.Size()) >= i
    decreases t.Size() - i
  {
    if i < t.Size() {
      var rest := DictAmount.Entries(t.buckets, i + 1, t.Size());
      EntriesHold(h, t, i + 1);
      forall k
        ensures Emitted(t.buckets[i], k) <==> Lookup(h, t, k).Some? && Slot(h(k), t.Size()) == i
        ensures Emitted(t.buckets[i] + rest, k) <==> Emitted(t.buckets[i], k) || Emitted(rest, k)
      {
        BucketHolds(h, t, i, k);
        EmittedConcatIs(t.buckets[i], rest, k);
      }
      assert Distinct(t.buckets[i]);
      hide TableOk, Lookup, Slot, Emitted, Distinct;
      DistinctConcat(t.buckets[i], rest);
    } else {
      forall k | t.Size() > 0
        ensures Slot(h(k), t.Size()) < i
      {
        SlotInside(h, t, k);
      }
    }
  }

  lemma SlotInside(h: HashFunction, t: Table, k: Key)
    requires TableOk(h, t) && t.Size() > 0
    ensures Slot(h(k), t.Size()) < t.Size()
  {
    PowerRank(t.Size());
    SlotBound(h(k), t.Size());
  }

  lemma EverythingHolds(h: HashFunction, s: State)
    requires Inv(h, s)
    ensures |Everything(s)| == s.Used() && Distinct(Everything(s))
    ensures forall k :: Emitted(Everything(s), k) <==> LookupBoth(h, s, k).Some?
  {
    var a, b := DictAmount.Entries(s.ht0.buckets, 0, s.ht0.Size()), DictAmount.Entries(s.ht1.buckets, 0, s.ht1.Size());
    EntriesCount(s.ht0.buckets, 0);
    EntriesCount(s.ht1.buckets, 0);
    assert s.ht0.buckets[0..] == s.ht0.buckets && s.ht1.buckets[0..] == s.ht1.buckets;
    EntriesHold(h, s.ht0, 0);
    EntriesHold(h, s.ht1, 0);
    forall k
      ensures Emitted(a + b, k) <==> Emitted(a, k) || Emitted(b, k)
    {
      EmittedConcatIs(a, b, k);
    }
    DistinctConcat(a, b);
  }

  function KeysOf(c: seq<Pair>): set<Key> {
    set i | 0 <= i < |c| :: c[i].key
  }

  lemma {:induction false} DistinctLength(c: seq<Pair>)
    requires Distinct(c)
    ensures |KeysOf(c)| == |c|
    decreases |c|
  {
    if c == [] {
      assert KeysOf(c) == {};
    } else {
      var front, last := c[..|c| - 1], c[|c| - 1];
      DistinctLength(front);
      assert KeysOf(c) == KeysOf(front) + {last.key} by {
        assert forall i :: 0 <= i < |front| ==> front[i] == c[i];
      }
      assert last.key !in KeysOf(front);
    }
  }

  /** Two lists without repetitions that hold the same keys have the same length. */
  lemma SameLength(a: seq<Pair>, b: seq<Pair>)
    requires Distinct(a) && Distinct(b) && forall k :: Emitted(a, k) <==> Emitted(b, k)
    ensures |a| == |b|
  {
    DistinctLength(a);
    DistinctLength(b);
    forall k
      ensures k in KeysOf(a) <==> k in KeysOf(b)
    {
      assert k in KeysOf(a) <==> Emitted(a, k);
      assert k in KeysOf(b) <==> Emitted(b, k);
    }
    assert KeysOf(a) == KeysOf(b);
  }

  /** A scan of tables that stay as they are, migrating or not, ends, and emits each entry of the dictionary exactly once and
      nothing else: as many pairs as there are entries, no key twice, every key that is there. */
  lemma StationaryExactlyOnce(h: HashFunction, s: State)
    requires Inv(h, s)
    ensures var (out, done) := ScanRun(h, s, ZERO, ScanShrink.Nothing(if MinSize(s) > 0 then MinSize(s) - 1 else 0));
      && done && Distinct(out) && |out| == s.Used()
      && forall k :: Emitted(out, k) <==> LookupBoth(h, s, k).Some?
  {
    hide Inv, Scan, LookupBoth, CallFor, Emitted, Distinct, Everything;
    EverythingHolds(h, s);
    if s.Used() == 0 {
      ScanNothing(h, s);
    } else {
      SomeBuckets(h, s);
      StationaryFrom(h, s, 0);
      SameLength(ScanRun(h, s, ZERO, ScanShrink.Nothing(MinSize(s) - 1)).0, Everything(s));
    }
  }

  lemma SomeBuckets(h: HashFunction, s: State)
    requires Inv(h, s) && s.Used() > 0
    ensures MinSize(s) > 0 && CursorAfter(h, s, 0) == ZERO
  {
    StationaryCursor(h, s, 0);
    PowerRank(MinSize(s));
  }

  lemma ScanNothing(h: HashFunction, s: State)
    requires Inv(h, s) && s.Used() == 0
    ensures Distinct([]) && (forall k :: !Emitted([], k) && LookupBoth(h, s, k).None?)
    ensures forall script :: ScanRun(h, s, ZERO, script) == ([], true)
  {
    forall k
      ensures LookupBoth(h, s, k).None?
    {
      DictRuns.NothingWhenUnused(h, s, k);
    }
    assert Scan(h, s, ZERO) == (ZERO, []);
    hide Inv, Scan;
  }
}
