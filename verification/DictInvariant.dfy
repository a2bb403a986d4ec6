/** The invariant of the two tables, and what each operation keeps of it and does to lookups. */
module DictInvariant {
  import opened Words
  import opened DictModel

  ghost predicate PowerSize(n: nat) {
    exists b: nat :: 2 <= b <= 31 && n == Pow2(b)
  }

  ghost predicate InBucket(h: HashFunction, c: Chain, i: nat, size: nat) {
    forall j :: 0 <= j < |c| ==> Slot(h(c[j].key), size) == i
  }

  ghost predicate Distinct(c: Chain) {
    forall i, j :: 0 <= i < j < |c| ==> c[i].key != c[j].key
  }

  ghost function Count(buckets: seq<Chain>): nat {
    if buckets == [] then 0 else |buckets[0]| + Count(buckets[1..])
  }

  /** Power-of-two size, every entry in the bucket of its hash, no key twice, and an exact count. */
  ghost predicate TableOk(h: HashFunction, t: Table) {
    && (t.Size() == 0 || PowerSize(t.Size()))
    && (forall i {:trigger t.buckets[i]} :: 0 <= i < t.Size() ==> InBucket(h, t.buckets[i], i, t.Size()) && Distinct(t.buckets[i]))
    && t.used == Count(t.buckets)
  }

  ghost predicate EmptyBelow(t: Table, n: int) {
    forall i :: 0 <= i < n && i < t.Size() ==> t.buckets[i] == []
  }

  ghost predicate Disjoint(h: HashFunction, s: State) {
    forall k :: Lookup(h, s.ht0, k).None? || Lookup(h, s.ht1, k).None?
  }

  /** What holds at every step of a rehash. */
  ghost predicate Core(h: HashFunction, s: State) {
    && TableOk(h, s.ht0) && TableOk(h, s.ht1) && Shaped(s)
    && s.rehashidx <= s.ht0.Size()
    && EmptyBelow(s.ht0, s.rehashidx)
    && Disjoint(h, s)
  }

  /** The invariant between operations. */
  ghost predicate Inv(h: HashFunction, s: State) {
    Core(h, s) && (s.Rehashing() ==> s.rehashidx < s.ht0.Size())
  }

  // ------------------------------------------------------------------------------ counting

  lemma {:induction false} CountUpdate(b: seq<Chain>, i: nat, c: Chain)
    requires i < |b|
    ensures Count(b[i := c]) == Count(b) - |b[i]| + |c|
  {
    if i == 0 {
      assert b[0 := c][1..] == b[1..];
    } else {
      CountUpdate(b[1..], i - 1, c);
      assert b[i := c][1..] == b[1..][i - 1 := c];
    }
  }

  lemma {:induction false} CountEmpty(b: seq<Chain>)
    ensures Count(b) == 0 <==> forall i :: 0 <= i < |b| ==> b[i] == []
  {
    if b != [] {
      CountEmpty(b[1..]);
      if Count(b) == 0 {
        forall i | 0 <= i < |b| ensures b[i] == [] {
          assert i > 0 ==> b[i] == b[1..][i - 1];
        }
      } else if b[0] == [] {
        var i :| 0 <= i < |b[1..]| && b[1..][i] != [];
        assert b[i + 1] != [];
      }
    }
  }

  /** The assertion at line 203: while the old table has entries, rehashidx is inside it. */
  lemma RehashIndexInRange(h: HashFunction, s: State)
    requires Core(h, s) && s.Rehashing() && s.ht0.used != 0
    ensures s.rehashidx < s.ht0.Size()
    ensures exists i :: s.rehashidx <= i < s.ht0.Size() && s.ht0.buckets[i] != []
  {
    CountEmpty(s.ht0.buckets);
  }

  // ------------------------------------------------------------------------------ chains

  lemma {:induction false} FindIn(c: Chain, k: Key)
    ensures Find(c, k).Some? <==> exists j :: 0 <= j < |c| && c[j].key == k
  {
    if c != [] && c[0].key != k {
      FindIn(c[1..], k);
      if Find(c[1..], k).Some? {
        var j :| 0 <= j < |c[1..]| && c[1..][j].key == k;
        assert c[j + 1].key == k;
      }
      forall j | 0 <= j < |c| && c[j].key == k ensures Find(c, k).Some? {
        assert c[1..][j - 1].key == k;
      }
    }
  }

  lemma {:induction false} UnlinkChain(c: Chain, k: Key)
    requires Distinct(c) && Find(c, k).Some?
    ensures |Unlink(c, k)| == |c| - 1
    ensures Find(Unlink(c, k), k).None?
    ensures forall k' :: k' != k ==> Find(Unlink(c, k), k') == Find(c, k')
    ensures forall j :: 0 <= j < |Unlink(c, k)| ==> Unlink(c, k)[j] in c
    ensures Distinct(Unlink(c, k))
  {
    if c[0].key == k {
      FindIn(c[1..], k);
    } else {
      UnlinkChain(c[1..], k);
      var u := Unlink(c[1..], k);
      assert Unlink(c, k) == [c[0]] + u;
      assert Unlink(c, k)[1..] == u;
      forall k' | k' != k ensures Find(Unlink(c, k), k') == Find(c, k') {
        assert Find(u, k') == Find(c[1..], k');
      }
    }
  }

  lemma {:induction false} SetValChain(c: Chain, k: Key, v: Value)
    requires Find(c, k).Some?
    ensures |SetVal(c, k, v)| == |c|
    ensures forall j :: 0 <= j < |c| ==> SetVal(c, k, v)[j].key == c[j].key
    ensures Find(SetVal(c, k, v), k) == Some(v)
    ensures forall k' :: k' != k ==> Find(SetVal(c, k, v), k') == Find(c, k')
  {
    var r := SetVal(c, k, v);
    if c[0].key == k {
      assert r[1..] == c[1..];
    } else {
      SetValChain(c[1..], k, v);
      assert r[1..] == SetVal(c[1..], k, v);
      forall k' | k' != k ensures Find(r, k') == Find(c, k') {
        assert Find(r[1..], k') == Find(c[1..], k');
      }
    }
  }

  // ------------------------------------------------------------------------------ tables

  /** Putting another well-formed chain in the bucket of k. */
  lemma WithBucketOk(h: HashFunction, t: Table, k: Key, c: Chain, used: nat)
    requires TableOk(h, t) && t.Size() > 0
    requires InBucket(h, c, Slot(h(k), t.Size()), t.Size()) && Distinct(c)
    requires used == t.used - |Bucket(h, t, k)| + |c|
    ensures TableOk(h, WithBucket(h, t, k, c).(used := used))
  {
    CountUpdate(t.buckets, Slot(h(k), t.Size()), c);
  }

  lemma WithBucketLookup(h: HashFunction, t: Table, k: Key, c: Chain, used: nat, k': Key)
    requires t.Size() > 0
    ensures var r := WithBucket(h, t, k, c).(used := used);
      Lookup(h, r, k') == if Slot(h(k'), t.Size()) == Slot(h(k), t.Size()) then Find(c, k') else Lookup(h, t, k')
  {
  }

  lemma PushOk(h: HashFunction, t: Table, p: Pair)
    requires TableOk(h, t) && t.Size() > 0 && Lookup(h, t, p.key).None?
    ensures TableOk(h, Push(h, t, p))
    ensures forall k :: Lookup(h, Push(h, t, p), k) == if k == p.key then Some(p.val) else Lookup(h, t, k)
  {
    var b := Bucket(h, t, p.key);
    var c := [p] + b;
    FindIn(b, p.key);
    WithBucketOk(h, t, p.key, c, t.used + 1);
    forall k ensures Lookup(h, Push(h, t, p), k) == if k == p.key then Some(p.val) else Lookup(h, t, k) {
      WithBucketLookup(h, t, p.key, c, t.used + 1, k);
      assert c[1..] == b;
    }
  }

  lemma RemoveOk(h: HashFunction, t: Table, k: Key)
    requires TableOk(h, t) && t.Size() > 0 && Lookup(h, t, k).Some?
    ensures TableOk(h, RemoveFrom(h, t, k)) && RemoveFrom(h, t, k).used == t.used - 1
    ensures forall k' :: Lookup(h, RemoveFrom(h, t, k), k') == if k' == k then None else Lookup(h, t, k')
  {
    var b := Bucket(h, t, k);
    UnlinkChain(b, k);
    CountUpdate(t.buckets, Slot(h(k), t.Size()), []);
    WithBucketOk(h, t, k, Unlink(b, k), t.used - 1);
    forall k' ensures Lookup(h, RemoveFrom(h, t, k), k') == if k' == k then None else Lookup(h, t, k') {
      WithBucketLookup(h, t, k, Unlink(b, k), t.used - 1, k');
    }
  }

  lemma SetValOk(h: HashFunction, t: Table, k: Key, v: Value)
    requires TableOk(h, t) && t.Size() > 0 && Lookup(h, t, k).Some?
    ensures var r := WithBucket(h, t, k, SetVal(Bucket(h, t, k), k, v));
      TableOk(h, r) && forall k' :: Lookup(h, r, k') == if k' == k then Some(v) else Lookup(h, t, k')
  {
    var b := Bucket(h, t, k);
    SetValChain(b, k, v);
    WithBucketOk(h, t, k, SetVal(b, k, v), t.used);
    var r := WithBucket(h, t, k, SetVal(b, k, v));
    assert r == r.(used := t.used);
    forall k' ensures Lookup(h, r, k') == if k' == k then Some(v) else Lookup(h, t, k') {
      WithBucketLookup(h, t, k, SetVal(b, k, v), t.used, k');
    }
  }

  lemma EmptyTableOk(h: HashFunction, size: nat)
    requires PowerSize(size)
    ensures TableOk(h, EmptyTable(size)) && forall k :: Lookup(h, EmptyTable(size), k) == None
  {
    CountEmpty(EmptyTable(size).buckets);
  }

  // ------------------------------------------------------------------------------ rehashing

  lemma {:induction false} MoveChainOk(h: HashFunction, c: Chain, t: Table)
    requires TableOk(h, t) && t.Size() > 0 && Distinct(c)
    requires forall j :: 0 <= j < |c| ==> Lookup(h, t, c[j].key).None?
    ensures TableOk(h, MoveChain(h, c, t))
    ensures forall k :: Lookup(h, MoveChain(h, c, t), k) == if Find(c, k).Some? then Find(c, k) else Lookup(h, t, k)
    decreases c
  {
    if c != [] {
      PushOk(h, t, c[0]);
      var t' := Push(h, t, c[0]);
      forall j | 0 <= j < |c[1..]| ensures Lookup(h, t', c[1..][j].key).None? {
        assert c[1..][j] == c[j + 1];
        assert Lookup(h, t', c[j + 1].key) == Lookup(h, t, c[j + 1].key);
      }
      MoveChainOk(h, c[1..], t');
      FindIn(c[1..], c[0].key);
    }
  }

  /** The old table once the bucket at i has been emptied. */
  lemma ClearBucketOk(h: HashFunction, t: Table, i: nat)
    requires TableOk(h, t) && i < t.Size() && EmptyBelow(t, i)
    ensures |t.buckets[i]| <= t.used
    ensures var t' := Table(t.buckets[i := []], t.used - |t.buckets[i]|);
      && TableOk(h, t') && EmptyBelow(t', i + 1)
      && forall k :: Lookup(h, t', k) == if Find(t.buckets[i], k).Some? then None else Lookup(h, t, k)
  {
    var c := t.buckets[i];
    CountUpdate(t.buckets, i, []);
    var t' := Table(t.buckets[i := []], t.used - |c|);
    forall k ensures Lookup(h, t', k) == if Find(c, k).Some? then None else Lookup(h, t, k) {
      FindIn(c, k);
      if Slot(h(k), t.Size()) == i {
        assert Bucket(h, t, k) == c && Bucket(h, t', k) == [];
      } else {
        assert Bucket(h, t', k) == Bucket(h, t, k);
      }
    }
  }

  lemma ChainKeysFound(h: HashFunction, t: Table, i: nat, j: nat)
    requires TableOk(h, t) && i < t.Size() && j < |t.buckets[i]|
    ensures Lookup(h, t, t.buckets[i][j].key).Some?
  {
    FindIn(t.buckets[i], t.buckets[i][j].key);
  }

  lemma ResidentLookup(h: HashFunction, t: Table, i: nat, k: Key)
    requires TableOk(h, t) && i < t.Size() && Find(t.buckets[i], k).Some?
    ensures Lookup(h, t, k) == Find(t.buckets[i], k)
  {
    FindIn(t.buckets[i], k);
  }

  /** s' differs from s by moved entries and one advance of rehashidx. */
  predicate SameShape(s: State, s': State) {
    && s'.ht0.Size() == s.ht0.Size() && s'.ht1.Size() == s.ht1.Size() && s'.rehashidx == s.rehashidx + 1
    && s'.iterators == s.iterators && s'.canResize == s.canResize
  }

  lemma MoveBucketOk(h: HashFunction, s: State)
    requires Core(h, s) && s.Rehashing() && s.rehashidx < s.ht0.Size()
    ensures Core(h, MoveBucket(h, s))
    ensures forall k :: LookupBoth(h, MoveBucket(h, s), k) == LookupBoth(h, s, k)
    ensures MoveBucket(h, s).Used() == s.Used() && SameShape(s, MoveBucket(h, s))
  {
    var c := s.ht0.buckets[s.rehashidx];
    assert Distinct(c);
    forall j | 0 <= j < |c| ensures Lookup(h, s.ht1, c[j].key).None? {
      ChainKeysFound(h, s.ht0, s.rehashidx, j);
    }
    hide TableOk, Find, Lookup, Bucket, Count, MoveChain, PowerSize, EmptyBelow;
    MoveChainOk(h, c, s.ht1);
    ClearBucketOk(h, s.ht0, s.rehashidx);
    forall k | Find(c, k).Some? ensures Find(c, k) == Lookup(h, s.ht0, k) {
      ResidentLookup(h, s.ht0, s.rehashidx, k);
    }
  }

  /** What a rehash of any amount keeps, and how far it gets. */
  ghost predicate RehashKeeps(h: HashFunction, s: State, s': State) {
    && Inv(h, s')
    && (forall k :: LookupBoth(h, s', k) == LookupBoth(h, s, k))
    && s'.Used() == s.Used() && s'.iterators == s.iterators && s'.canResize == s.canResize
    && (s'.Rehashing() ==> s'.ht0.Size() == s.ht0.Size() && s'.ht1.Size() == s.ht1.Size() && s'.rehashidx >= s.rehashidx)
    && (!s'.Rehashing() ==> s'.ht0.Size() == (if s.Rehashing() then s.ht1.Size() else s.ht0.Size()))
  }

  lemma FinishRehashOk(h: HashFunction, s: State)
    requires Core(h, s) && s.Rehashing()
    ensures var (s', more) := FinishRehash(s); RehashKeeps(h, s, s') && more == s'.Rehashing()
  {
    var (s', more) := FinishRehash(s);
    if s.ht0.used == 0 {
      CountEmpty(s.ht0.buckets);
      CountEmpty([]);
      forall k ensures Lookup(h, s.ht0, k) == None {
        assert Bucket(h, s.ht0, k) == [];
      }
      assert TableOk(h, EMPTY);
    } else {
      RehashIndexInRange(h, s);
    }
  }

  /** dictRehash(n) for any n: the invariant and every lookup survive, the flag says whether work is left,
      and a nonzero n finishes or strictly advances rehashidx. */
  lemma {:induction false} RehashLoopOk(h: HashFunction, s: State, n: int, emptyVisits: int)
    requires Core(h, s) && s.Rehashing()
    ensures var (s', more) := RehashLoop(h, s, n, emptyVisits);
      && RehashKeeps(h, s, s') && more == s'.Rehashing()
      && (n != 0 && more ==> s'.rehashidx > s.rehashidx)
    decreases s.ht0.Size() - s.rehashidx
  {
    hide TableOk, EmptyBelow, Disjoint, LookupBoth, MoveBucket;
    if n == 0 || s.ht0.used == 0 {
      FinishRehashOk(h, s);
    } else {
      RehashIndexInRange(h, s);
      if s.ht0.buckets[s.rehashidx] == [] {
        SkipBucketOk(h, s);
        if emptyVisits - 1 != 0 {
          var s1 := s.(rehashidx := s.rehashidx + 1);
          RehashLoopOk(h, s1, n, emptyVisits - 1);
          RehashKeepsThrough(h, s, s1, RehashLoop(h, s1, n, emptyVisits - 1).0);
        }
      } else {
        MoveBucketOk(h, s);
        var s1 := MoveBucket(h, s);
        RehashLoopOk(h, s1, n - 1, emptyVisits);
        RehashKeepsThrough(h, s, s1, RehashLoop(h, s1, n - 1, emptyVisits).0);
      }
    }
  }

  lemma SkipBucketOk(h: HashFunction, s: State)
    requires Core(h, s) && s.Rehashing() && s.ht0.used != 0
    requires s.rehashidx < s.ht0.Size() && s.ht0.buckets[s.rehashidx] == []
    ensures RehashKeeps(h, s, s.(rehashidx := s.rehashidx + 1))
  {
    RehashIndexInRange(h, s.(rehashidx := s.rehashidx + 1));
  }

  lemma RehashKeepsThrough(h: HashFunction, s: State, s1: State, s': State)
    requires s.Rehashing() && s1.Rehashing() && RehashKeeps(h, s1, s')
    requires forall k :: LookupBoth(h, s1, k) == LookupBoth(h, s, k)
    requires s1.Used() == s.Used() && s1.iterators == s.iterators && s1.canResize == s.canResize
    requires s1.ht0.Size() == s.ht0.Size() && s1.ht1.Size() == s.ht1.Size() && s1.rehashidx >= s.rehashidx
    ensures RehashKeeps(h, s, s')
  {
  }

  lemma RehashOk(h: HashFunction, s: State, n: int)
    requires Inv(h, s)
    ensures var (s', more) := Rehash(h, s, n);
      && RehashKeeps(h, s, s') && more == s'.Rehashing()
      && (s.Rehashing() && n != 0 && more ==> s'.rehashidx > s.rehashidx)
  {
    if s.Rehashing() {
      RehashLoopOk(h, s, n, n * 10);
    }
  }

  lemma RehashStepOk(h: HashFunction, s: State)
    requires Inv(h, s)
    ensures RehashKeeps(h, s, RehashStep(h, s))
    ensures s.iterators == 0 && RehashStep(h, s).Rehashing() ==> RehashStep(h, s).rehashidx > s.rehashidx
    ensures s.iterators > 0 ==> RehashStep(h, s) == s
  {
    RehashOk(h, s, 1);
  }
}
