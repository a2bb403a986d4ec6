/** Safe iterators on values: dictNext and dictReleaseIterator, and what a caller that adds, finds and
    deletes the entry it was just given can rely on. */
module SafeIteration {
  import opened Words
  import opened DictModel
  import opened DictInvariant
  import DictRuns

  /** `dictIterator`; the two entry pointers are named by the keys of the entries. */
  datatype Iter = Iter(table: nat, index: int, safe: bool, entry: Option<Key>, nextEntry: Option<Key>) {
    predicate Started() { !(index == -1 && table == 0) }
  }

  function GetIterator(safe: bool): Iter {
    Iter(0, -1, safe, None, None)
  }

  function TableOf(s: State, table: nat): Table {
    if table == 0 then s.ht0 else s.ht1
  }

  /** The place of k in a chain, or its length. */
  function Place(c: Chain, k: Key): (i: nat)
    ensures i <= |c| && (i < |c| ==> c[i].key == k)
  {
    if c == [] || c[0].key == k then 0 else 1 + Place(c[1..], k)
  }

  function KeyAt(c: Chain, i: nat): Option<Key> {
    if i < |c| then Some(c[i].key) else None
  }

  function CurrentBucket(s: State, it: Iter): Chain {
    var t := TableOf(s, it.table);
    if 0 <= it.index < t.Size() then t.buckets[it.index] else []
  }

  /** `iter->nextEntry = iter->entry->next` */
  function Enter(s: State, it: Iter): Iter {
    if it.entry.None? then it
    else var c := CurrentBucket(s, it); it.(nextEntry := KeyAt(c, Place(c, it.entry.value) + 1))
  }

  /** One turn of the loop of dictNext, up to the test of `iter->entry`; true means the loop was left. */
  function Turn(s: State, it: Iter): (State, Iter, bool)
    requires it.table <= 1 && it.index >= -1
  {
    if it.entry.Some? then (s, Enter(s, it.(entry := it.nextEntry)), false)
    else
      var s1 := if !it.Started() && it.safe then s.(iterators := s.iterators + 1) else s;
      var index := it.index + 1;
      if index < TableOf(s, it.table).Size() then
        var it1 := it.(index := index);
        (s1, Enter(s1, it1.(entry := KeyAt(CurrentBucket(s1, it1), 0))), false)
      else if s.Rehashing() && it.table == 0 then
        var it1 := it.(table := 1, index := 0);
        (s1, Enter(s1, it1.(entry := KeyAt(CurrentBucket(s1, it1), 0))), false)
      else
        (s1, it.(index := index), true)
  }

  /** dictNext: the new states and the key of the entry returned. */
  function Next(s: State, it: Iter): (State, Iter, Option<Key>)
    requires it.table <= 1 && it.index >= -1
    decreases 1 - it.table, TableOf(s, it.table).Size() - it.index, if it.entry.Some? then 1 else 0
  {
    var (s1, it1, end) := Turn(s, it);
    if end then (s1, it1, None)
    else if it1.entry.Some? then (s1, it1, it1.entry)
    else Next(s1, it1)
  }

  /** A turn that neither ends the loop nor finds an entry gets closer to the end. */
  lemma TurnDescends(s: State, it: Iter)
    requires it.table <= 1 && it.index >= -1
    ensures var (s1, it1, end) := Turn(s, it);
      !end && it1.entry.None? ==>
        && TableOf(s1, it1.table).Size() == TableOf(s, it1.table).Size()
        && (it1.table > it.table ||
            (it1.table == it.table &&
             ((it1.index == it.index && it.entry.Some?) || it.index < it1.index < TableOf(s, it.table).Size())))
  {
  }

  /** dictReleaseIterator */
  function Release(s: State, it: Iter): State {
    if it.Started() && it.safe && s.iterators > 0 then s.(iterators := s.iterators - 1) else s
  }

  // ------------------------------------------------------------------------- where the iterator stands

  /** The iterator's pointers are into the bucket it stands in, and nextEntry is not before entry. */
  ghost predicate IterOk(s: State, it: Iter) {
    && it.table <= 1 && it.index >= -1
    && (it.index == -1 ==> it.table == 0 && it.entry.None?)
    && (it.table == 1 ==> s.Rehashing())
    && (it.entry.Some? ==>
        var c := CurrentBucket(s, it);
        && it.index < TableOf(s, it.table).Size()
        && (it.nextEntry.Some? ==>
            var e, n := Place(c, it.entry.value), Place(c, it.nextEntry.value);
            n < |c| && (e < n || e == |c|)))
  }

  /** The place of k in table t is after the iterator's. */
  ghost predicate AheadIn(h: HashFunction, s: State, it: Iter, t: Table, k: Key) {
    t.Size() > 0 &&
    (Slot(h(k), t.Size()) > it.index ||
     (Slot(h(k), t.Size()) == it.index && it.entry.Some? && it.nextEntry.Some? &&
      Place(Bucket(h, t, k), k) >= Place(Bucket(h, t, k), it.nextEntry.value)))
  }

  /** The iterator has yet to come to k. */
  ghost predicate Ahead(h: HashFunction, s: State, it: Iter, k: Key) {
    if Lookup(h, s.ht0, k).Some? then it.table == 0 && AheadIn(h, s, it, s.ht0, k)
    else it.table == 0 || AheadIn(h, s, it, s.ht1, k)
  }

  lemma {:induction false} PlaceFound(c: Chain, k: Key)
    ensures Place(c, k) < |c| <==> Find(c, k).Some?
  {
    if c != [] && c[0].key != k {
      PlaceFound(c[1..], k);
    }
  }

  lemma {:induction false} PlaceDistinct(c: Chain, i: nat)
    requires Distinct(c) && i < |c|
    ensures Place(c, c[i].key) == i
  {
    if i > 0 {
      PlaceDistinct(c[1..], i - 1);
    }
  }

  /** The table a present key is in. */
  ghost function Home(h: HashFunction, s: State, k: Key): nat {
    if Lookup(h, s.ht0, k).Some? then 0 else 1
  }

  lemma HomeBucket(h: HashFunction, s: State, k: Key)
    requires Inv(h, s) && LookupBoth(h, s, k).Some?
    ensures var t := TableOf(s, Home(h, s, k));
      && t.Size() > 0 && Bucket(h, t, k) == t.buckets[Slot(h(k), t.Size())]
      && Distinct(Bucket(h, t, k)) && Place(Bucket(h, t, k), k) < |Bucket(h, t, k)|
      && (Home(h, s, k) == 1 ==> s.Rehashing())
  {
    var t := TableOf(s, Home(h, s, k));
    PlaceFound(Bucket(h, t, k), k);
  }

  /** A key of the bucket the iterator stands in is at home there. */
  lemma ResidentIsHome(h: HashFunction, s: State, table: nat, b: nat, i: nat)
    requires Inv(h, s) && table <= 1 && b < TableOf(s, table).Size() && i < |TableOf(s, table).buckets[b]|
    ensures var k := TableOf(s, table).buckets[b][i].key;
      LookupBoth(h, s, k).Some? && Home(h, s, k) == table && Slot(h(k), TableOf(s, table).Size()) == b
  {
    ChainKeysFound(h, TableOf(s, table), b, i);
  }

  // ------------------------------------------------------------------------- dictNext

  /** What a call of dictNext does to one key. */
  ghost predicate Passes(h: HashFunction, s: State, it: Iter, it': Iter, r: Option<Key>, k: Key) {
    && (Ahead(h, s, it, k) <==> r == Some(k) || Ahead(h, s, it', k))
    && (r == Some(k) ==> !Ahead(h, s, it', k))
    && (r == None ==> !Ahead(h, s, it', k))
  }

  /** The number of live iterators plays no part in where keys are. */
  lemma CountIrrelevant(h: HashFunction, s: State, n: nat, it: Iter, k: Key)
    requires Inv(h, s)
    ensures var s' := s.(iterators := n);
      && Inv(h, s') && LookupBoth(h, s', k) == LookupBoth(h, s, k) && (IterOk(s', it) <==> IterOk(s, it))
      && (Ahead(h, s', it, k) <==> Ahead(h, s, it, k))
  {
  }

  /** Standing on place i of a bucket, the entry and the next one are where the chain has them. */
  lemma EnterOk(h: HashFunction, s: State, it: Iter, i: nat)
    requires Inv(h, s) && it.table <= 1 && 0 <= it.index < TableOf(s, it.table).Size() && (it.table == 1 ==> s.Rehashing())
    ensures var c := CurrentBucket(s, it); var it' := Enter(s, it.(entry := KeyAt(c, i)));
      && IterOk(s, it') && it'.table == it.table && it'.index == it.index
      && (i < |c| ==> it'.entry == Some(c[i].key) && it'.nextEntry == KeyAt(c, i + 1))
      && (i + 1 < |c| ==> Place(c, c[i + 1].key) == i + 1)
  {
    var c := CurrentBucket(s, it);
    assert Distinct(c);
    hide Inv, Place, Slot, Distinct;
    if i < |c| {
      PlaceDistinct(c, i);
      if i + 1 < |c| {
        PlaceDistinct(c, i + 1);
      }
    }
  }

  /** Stepping onto an entry of the current bucket, at place i. */
  lemma EnterPlace(h: HashFunction, s: State, it: Iter, i: nat, k: Key)
    requires Inv(h, s) && it.table <= 1 && 0 <= it.index < TableOf(s, it.table).Size() && (it.table == 1 ==> s.Rehashing())
    requires LookupBoth(h, s, k).Some?
    ensures var c := CurrentBucket(s, it); var it' := Enter(s, it.(entry := KeyAt(c, i)));
      && IterOk(s, it')
      && (i < |c| ==>
          && it'.entry == Some(c[i].key)
          && (Ahead(h, s, it', k) <==>
              (if Home(h, s, k) != it.table then it.table == 0
               else Slot(h(k), TableOf(s, it.table).Size()) > it.index ||
                    (Slot(h(k), TableOf(s, it.table).Size()) == it.index && Place(c, k) > i))))
  {
    var c := CurrentBucket(s, it);
    hide Inv, Place, Slot, Distinct, Enter, LookupBoth, IterOk;
    EnterOk(h, s, it, i);
    HomeBucket(h, s, k);
    hide Lookup;
  }

  /** dictNext counts itself in on its first call only, keeps the iterator sound, and treats k right. */
  ghost predicate NextOk(h: HashFunction, s: State, it: Iter, s': State, it': Iter, r: Option<Key>, k: Key) {
    && s' == s.(iterators := if !it.Started() && it.safe then s.iterators + 1 else s.iterators)
    && IterOk(s', it') && it'.Started() && it'.safe == it.safe && (r.Some? ==> r == it'.entry)
    && Passes(h, s, it, it', r, k)
  }

  /** One turn, seen from a present key. */
  ghost predicate TurnGood(h: HashFunction, s: State, it: Iter, s1: State, it1: Iter, end: bool, k: Key) {
    && IterOk(s1, it1) && it1.Started() && it1.safe == it.safe
    && (Ahead(h, s, it, k) <==> it1.entry == Some(k) || Ahead(h, s1, it1, k))
    && (it1.entry == Some(k) ==> !Ahead(h, s1, it1, k))
    && (end ==> it1.entry.None? && !Ahead(h, s1, it1, k))
  }

  lemma TurnGoodCounted(h: HashFunction, s: State, it: Iter, n: nat, it1: Iter, end: bool, k: Key)
    requires Inv(h, s) && TurnGood(h, s, it, s, it1, end, k)
    ensures TurnGood(h, s, it, s.(iterators := n), it1, end, k)
  {
    CountIrrelevant(h, s, n, it1, k);
  }

  lemma EnterCounted(s: State, n: nat, it: Iter)
    ensures var s1 := s.(iterators := n); Enter(s1, it) == Enter(s, it) && CurrentBucket(s1, it) == CurrentBucket(s, it)
  {
  }

  lemma TurnOk(h: HashFunction, s: State, it: Iter, k: Key)
    requires Inv(h, s) && IterOk(s, it) && LookupBoth(h, s, k).Some?
    ensures var (s1, it1, end) := Turn(s, it);
      && s1 == s.(iterators := if !it.Started() && it.safe then s.iterators + 1 else s.iterators)
      && TurnGood(h, s, it, s1, it1, end, k)
  {
    var n := if !it.Started() && it.safe then s.iterators + 1 else s.iterators;
    if it.entry.Some? {
      NextInChain(h, s, it, k);
    } else if it.index + 1 < TableOf(s, it.table).Size() || (s.Rehashing() && it.table == 0) {
      var it1 := if it.index + 1 < TableOf(s, it.table).Size() then it.(index := it.index + 1) else it.(table := 1, index := 0);
      NextBucket(h, s, it, it1, k);
      var it2 := it1.(entry := KeyAt(CurrentBucket(s, it1), 0));
      EnterCounted(s, n, it1);
      EnterCounted(s, n, it2);
      TurnGoodCounted(h, s, it, n, Enter(s, it2), false, k);
    } else {
      NextAtEnd(h, s, it, k);
      TurnGoodCounted(h, s, it, n, it.(index := it.index + 1), true, k);
    }
  }

  lemma TurnInv(h: HashFunction, s: State, it: Iter)
    requires Inv(h, s) && it.table <= 1 && it.index >= -1
    ensures Inv(h, Turn(s, it).0)
    ensures forall k :: LookupBoth(h, Turn(s, it).0, k) == LookupBoth(h, s, k)
  {
    var s1 := Turn(s, it).0;
    assert s1.ht0 == s.ht0 && s1.ht1 == s.ht1 && s1.rehashidx == s.rehashidx;
  }

  /** dictNext returns k exactly when it passes k, and reports the end only with nothing ahead. */
  lemma {:induction false} NextPasses(h: HashFunction, s: State, it: Iter, k: Key)
    requires Inv(h, s) && IterOk(s, it) && LookupBoth(h, s, k).Some?
    ensures var (s', it', r) := Next(s, it); NextOk(h, s, it, s', it', r, k)
    decreases 1 - it.table, TableOf(s, it.table).Size() - it.index, if it.entry.Some? then 1 else 0
  {
    hide Inv, Ahead, LookupBoth;
    TurnOk(h, s, it, k);
    TurnInv(h, s, it);
    var (s1, it1, end) := Turn(s, it);
    if !end && it1.entry.None? {
      NextPasses(h, s1, it1, k);
      CountIrrelevant(h, s, s1.iterators, Next(s1, it1).1, k);
    }
    CountIrrelevant(h, s, s1.iterators, it1, k);
  }

  lemma NextAtEnd(h: HashFunction, s: State, it: Iter, k: Key)
    requires Inv(h, s) && IterOk(s, it) && LookupBoth(h, s, k).Some? && it.entry.None?
    requires it.index + 1 >= TableOf(s, it.table).Size() && !(s.Rehashing() && it.table == 0)
    ensures !Ahead(h, s, it, k) && !Ahead(h, s, it.(index := it.index + 1), k)
    ensures IterOk(s, it.(index := it.index + 1))
  {
    HomeBucket(h, s, k);
  }

  lemma NextInChain(h: HashFunction, s: State, it: Iter, k: Key)
    requires Inv(h, s) && IterOk(s, it) && it.entry.Some? && LookupBoth(h, s, k).Some?
    ensures var it1 := Enter(s, it.(entry := it.nextEntry));
      && IterOk(s, it1)
      && (Ahead(h, s, it, k) <==> it1.entry == Some(k) || Ahead(h, s, it1, k))
      && (it1.entry == Some(k) ==> !Ahead(h, s, it1, k))
  {
    hide Inv, LookupBoth, Distinct, Place, Enter, Slot;
    HomeBucket(h, s, k);
    hide Lookup;
    var c := CurrentBucket(s, it);
    if it.nextEntry.None? {
      EnterNothing(s, it.(entry := it.nextEntry));
    } else {
      var i := Place(c, it.nextEntry.value);
      EnterPlace(h, s, it, i, k);
      ResidentIsHome(h, s, it.table, it.index, i);
    }
  }

  lemma NextBucket(h: HashFunction, s: State, it: Iter, it1: Iter, k: Key)
    requires Inv(h, s) && IterOk(s, it) && it.entry.None? && LookupBoth(h, s, k).Some?
    requires if it.index + 1 < TableOf(s, it.table).Size() then it1 == it.(index := it.index + 1)
      else s.Rehashing() && it.table == 0 && it1 == it.(table := 1, index := 0)
    ensures var it2 := Enter(s, it1.(entry := KeyAt(CurrentBucket(s, it1), 0)));
      && IterOk(s, it2)
      && (Ahead(h, s, it, k) <==> it2.entry == Some(k) || Ahead(h, s, it2, k))
      && (it2.entry == Some(k) ==> !Ahead(h, s, it2, k))
  {
    HomeBucket(h, s, k);
    var c := CurrentBucket(s, it1);
    EnterPlace(h, s, it1, 0, k);
    if c != [] {
      ResidentIsHome(h, s, it1.table, it1.index, 0);
    }
  }

  // ------------------------------------------------------------------------- changes by the caller

  lemma {:induction false} PlaceUnlink(c: Chain, e: Key, x: Key)
    requires Distinct(c) && x != e
    ensures Place(Unlink(c, e), x) == if Place(c, e) < Place(c, x) then Place(c, x) - 1 else Place(c, x)
  {
    if c != [] && c[0].key != e {
      PlaceUnlink(c[1..], e, x);
      assert Unlink(c, e)[1..] == Unlink(c[1..], e);
    }
  }

  lemma {:induction false} PlaceSameKeys(c: Chain, c': Chain, x: Key)
    requires |c| == |c'| && forall j :: 0 <= j < |c| ==> c[j].key == c'[j].key
    ensures Place(c, x) == Place(c', x)
  {
    if c != [] {
      PlaceSameKeys(c[1..], c'[1..], x);
    }
  }

  /** The iterator's pointers e and n stay in order when a chain changes, and k stays on its side of n. */
  ghost predicate Kept(c: Chain, c': Chain, e: Key, n: Key, k: Key) {
    Place(c, n) < |c| && (Place(c, e) < Place(c, n) || Place(c, e) == |c|) ==>
      && Place(c', n) < |c'| && (Place(c', e) < Place(c', n) || Place(c', e) == |c'|)
      && (Place(c, k) >= Place(c, n) <==> Place(c', k) >= Place(c', n))
  }

  /** One bucket of one table changes, the iterator's pointers keep their order in it: the iterator stays
      sound, and k stays ahead or passed. */
  lemma BucketChanged(h: HashFunction, s: State, s': State, it: Iter, t: nat, q: Key, c': Chain, k: Key)
    requires Inv(h, s) && Inv(h, s') && IterOk(s, it) && t <= 1 && TableOf(s, t).Size() > 0
    requires s'.rehashidx == s.rehashidx && TableOf(s', 1 - t).buckets == TableOf(s, 1 - t).buckets
    requires TableOf(s', t).buckets == TableOf(s, t).buckets[Slot(h(q), TableOf(s, t).Size()) := c']
    requires LookupBoth(h, s, k).Some? && Home(h, s', k) == Home(h, s, k)
    requires it.entry.Some? && it.nextEntry.Some? ==>
      Kept(Bucket(h, TableOf(s, t), q), c', it.entry.value, it.nextEntry.value, k)
    ensures IterOk(s', it) && (Ahead(h, s', it, k) <==> Ahead(h, s, it, k))
  {
    hide Inv, Place, LookupBoth, Slot, Distinct;
    HomeBucket(h, s, k);
    var b := Slot(h(q), TableOf(s, t).Size());
    if it.table == t && it.index == b {
      assert CurrentBucket(s, it) == Bucket(h, TableOf(s, t), q) && CurrentBucket(s', it) == c';
    } else {
      assert CurrentBucket(s', it) == CurrentBucket(s, it);
    }
    var home := Home(h, s, k);
    if home == t && Slot(h(k), TableOf(s, t).Size()) == b {
      assert Bucket(h, TableOf(s', t), k) == c' && Bucket(h, TableOf(s, t), k) == Bucket(h, TableOf(s, t), q);
    } else {
      assert Bucket(h, TableOf(s', home), k) == Bucket(h, TableOf(s, home), k);
    }
  }

  /** Starting a migration moves nothing. */
  lemma ExpansionKeeps(h: HashFunction, s: State, it: Iter, k: Key)
    requires Inv(h, s) && IterOk(s, it) && LookupBoth(h, s, k).Some? && s.Used() <= DictRuns.MAX_KEYS
    ensures var s' := ExpandIfNeeded(s).0;
      IterOk(s', it) && (Ahead(h, s', it, k) <==> Ahead(h, s, it, k)) && Home(h, s', k) == Home(h, s, k)
  {
    DictRuns.ExpandIfNeededOk(h, s);
    HomeBucket(h, s, k);
  }

  lemma KeptByPush(c: Chain, p: Pair, e: Key, n: Key, k: Key)
    requires Find(c, p.key).None? && k != p.key
    ensures Kept(c, [p] + c, e, n, k)
  {
    PlaceFound(c, p.key);
    assert ([p] + c)[1..] == c;
  }

  lemma KeptByUnlink(c: Chain, e: Key, n: Key, k: Key)
    requires Distinct(c) && Find(c, e).Some? && k != e
    ensures Kept(c, Unlink(c, e), e, n, k)
  {
    hide Place, Unlink, Find, Distinct;
    PlaceFound(c, e);
    if n != e {
      PlaceUnlink(c, e, n);
      PlaceUnlink(c, e, k);
      UnlinkChain(c, e);
      PlaceFound(Unlink(c, e), e);
    }
  }

  lemma InsertKeeps(h: HashFunction, s: State, it: Iter, p: Pair, k: Key)
    requires Inv(h, s) && IterOk(s, it) && LookupBoth(h, s, k).Some? && LookupBoth(h, s, p.key).None?
    requires if s.Rehashing() then s.ht1.Size() > 0 else s.ht0.Size() > 0
    ensures var s' := Insert(h, s, p); IterOk(s', it) && (Ahead(h, s', it, k) <==> Ahead(h, s, it, k))
  {
    DictRuns.InsertOk(h, s, p);
    var t := if s.Rehashing() then 1 else 0;
    var c := Bucket(h, TableOf(s, t), p.key);
    assert Find(c, p.key).None?;
    PushOk(h, TableOf(s, t), p);
    if it.entry.Some? && it.nextEntry.Some? {
      KeptByPush(c, p, it.entry.value, it.nextEntry.value, k);
    }
    BucketChanged(h, s, Insert(h, s, p), it, t, p.key, [p] + c, k);
  }

  lemma AddRawKeeps(h: HashFunction, s: State, it: Iter, p: Pair, k: Key)
    requires Inv(h, s) && IterOk(s, it) && s.iterators > 0 && LookupBoth(h, s, k).Some? && s.Used() < DictRuns.MAX_KEYS
    ensures var s' := AddRaw(h, s, p).0; IterOk(s', it) && (Ahead(h, s', it, k) <==> Ahead(h, s, it, k))
  {
    RehashStepOk(h, s);
    ExpansionKeeps(h, s, it, k);
    DictRuns.FindIndexOk(h, s, p.key);
    var (s1, idx) := FindIndex(h, s, p.key);
    if idx == Free {
      InsertKeeps(h, s1, it, p, k);
    }
  }

  lemma SetExistingKeeps(h: HashFunction, s: State, it: Iter, p: Pair, k: Key)
    requires Inv(h, s) && IterOk(s, it) && LookupBoth(h, s, k).Some? && LookupBoth(h, s, p.key).Some?
    ensures var s' := SetExisting(h, s, p); IterOk(s', it) && (Ahead(h, s', it, k) <==> Ahead(h, s, it, k))
  {
    hide Inv, Ahead, IterOk, Place, Kept, DictModel.SetVal, TableOk;
    DictRuns.SetExistingOk(h, s, p);
    var t := Home(h, s, p.key);
    var c := Bucket(h, TableOf(s, t), p.key);
    SetValChain(c, p.key, p.val);
    var c' := SetVal(c, p.key, p.val);
    if it.entry.Some? && it.nextEntry.Some? {
      KeptBySame(c, c', it.entry.value, it.nextEntry.value, k);
    }
    TablesOk(h, s);
    SetValOk(h, TableOf(s, t), p.key, p.val);
    BucketChanged(h, s, SetExisting(h, s, p), it, t, p.key, c', k);
  }

  lemma TablesOk(h: HashFunction, s: State)
    requires Inv(h, s)
    ensures TableOk(h, s.ht0) && TableOk(h, s.ht1)
  {
  }

  lemma KeptBySame(c: Chain, c': Chain, e: Key, n: Key, k: Key)
    requires |c| == |c'| && forall j :: 0 <= j < |c| ==> c[j].key == c'[j].key
    ensures Kept(c, c', e, n, k)
  {
    PlaceSameKeys(c, c', e);
    PlaceSameKeys(c, c', n);
    PlaceSameKeys(c, c', k);
  }

  lemma ReplaceKeeps(h: HashFunction, s: State, it: Iter, p: Pair, k: Key)
    requires Inv(h, s) && IterOk(s, it) && s.iterators > 0 && LookupBoth(h, s, k).Some? && s.Used() < DictRuns.MAX_KEYS
    ensures var s' := Replace(h, s, p).0; IterOk(s', it) && (Ahead(h, s', it, k) <==> Ahead(h, s, it, k))
  {
    AddRawKeeps(h, s, it, p, k);
    DictRuns.AddRawOk(h, s, p);
    var (s1, idx) := AddRaw(h, s, p);
    if idx != Free {
      SetExistingKeeps(h, s1, it, p, k);
    }
  }

  lemma UnlinkKeeps(h: HashFunction, s: State, s': State, it: Iter, k: Key)
    requires Inv(h, s) && Inv(h, s') && IterOk(s, it) && LookupBoth(h, s, k).Some?
    requires it.entry.Some? && it.entry.value != k && LookupBoth(h, s, it.entry.value).Some?
    requires var e := it.entry.value; var t := Home(h, s, e);
      && TableOf(s, t).Size() > 0 && s' == (if t == 0 then s.(ht0 := RemoveFrom(h, s.ht0, e)) else s.(ht1 := RemoveFrom(h, s.ht1, e)))
    ensures IterOk(s', it) && (Ahead(h, s', it, k) <==> Ahead(h, s, it, k))
  {
    var e := it.entry.value;
    var t := Home(h, s, e);
    var c := Bucket(h, TableOf(s, t), e);
    HomeBucket(h, s, e);
    if it.nextEntry.Some? {
      KeptByUnlink(c, e, it.nextEntry.value, k);
    }
    RemoveOk(h, TableOf(s, t), e);
    BucketChanged(h, s, s', it, t, e, Unlink(c, e), k);
  }

  /** Deleting the entry last returned. */
  lemma DeleteLastKeeps(h: HashFunction, s: State, it: Iter, k: Key)
    requires Inv(h, s) && IterOk(s, it) && s.iterators > 0 && LookupBoth(h, s, k).Some?
    requires it.entry.Some? && it.entry.value != k
    ensures var s' := Delete(h, s, it.entry.value).0; IterOk(s', it) && (Ahead(h, s', it, k) <==> Ahead(h, s, it, k))
  {
    var e := it.entry.value;
    DictRuns.DeleteOk(h, s, e);
    if LookupBoth(h, s, e).Some? && s.Used() > 0 {
      HomeBucket(h, s, e);
      UnlinkKeeps(h, s, Delete(h, s, e).0, it, k);
    }
  }

  // ------------------------------------------------------------------------- whole iterations

  datatype CallerOp = Advance | AddEntry(p: Pair) | PutEntry(p: Pair) | FindEntry(k: Key) | DeleteLast

  /** One call of the iterating caller: the new states, and what dictNext returned if it was called. */
  function CallerStep(h: HashFunction, s: State, it: Iter, op: CallerOp): (State, Iter)
    requires Shaped(s) && it.table <= 1 && it.index >= -1
  {
    match op
    case Advance => var (s', it', _) := Next(s, it); (s', it')
    case AddEntry(p) => (AddRaw(h, s, p).0, it)
    case PutEntry(p) => (Replace(h, s, p).0, it)
    case FindEntry(k) => (FindOp(h, s, k).0, it)
    case DeleteLast => (if it.entry.Some? then Delete(h, s, it.entry.value).0 else s, it)
  }

  /** The keys dictNext returns in a run of calls, and whether it reported the end. */
  function Iterate(h: HashFunction, s: State, it: Iter, ops: seq<CallerOp>): (seq<Key>, bool)
    decreases |ops|
  {
    if ops == [] || !Shaped(s) || it.table > 1 || it.index < -1 then ([], false)
    else
      var r := Next(s, it).2;
      if ops[0] == Advance && r.None? then ([], true)
      else
        var (s', it') := CallerStep(h, s, it, ops[0]);
        var (rest, ended) := Iterate(h, s', it', ops[1..]);
        ((if ops[0] == Advance then [r.value] else []) + rest, ended)
  }

  /** The key is in the dictionary after every call. */
  ghost predicate StaysPresent(h: HashFunction, s: State, it: Iter, ops: seq<CallerOp>, k: Key)
    decreases |ops|
  {
    && LookupBoth(h, s, k).Some?
    && (ops != [] && Shaped(s) && it.table <= 1 && it.index >= -1 ==>
        var (s', it') := CallerStep(h, s, it, ops[0]);
        StaysPresent(h, s', it', ops[1..], k))
  }

  /** A call that may insert is made with room below the size bound. */
  predicate CallBounded(s: State, op: CallerOp) {
    op.AddEntry? || op.PutEntry? ==> s.Used() < DictRuns.MAX_KEYS
  }

  /** All of them are; nothing bounds the number of calls. */
  predicate CallsBounded(h: HashFunction, s: State, it: Iter, ops: seq<CallerOp>)
    decreases |ops|
  {
    ops != [] && Shaped(s) && it.table <= 1 && it.index >= -1 ==>
      var (s', it') := CallerStep(h, s, it, ops[0]);
      CallBounded(s, ops[0]) && CallsBounded(h, s', it', ops[1..])
  }

  function Occurrences(ks: seq<Key>, k: Key): nat {
    if ks == [] then 0 else (if ks[0] == k then 1 else 0) + Occurrences(ks[1..], k)
  }

  /** An iterator that has not started has everything ahead. */
  lemma FreshAhead(h: HashFunction, s: State, it: Iter, k: Key)
    requires Inv(h, s) && LookupBoth(h, s, k).Some? && IterOk(s, it) && !it.Started()
    ensures Ahead(h, s, it, k)
  {
    HomeBucket(h, s, k);
  }

  lemma CallerStepKeeps(h: HashFunction, s: State, it: Iter, op: CallerOp, k: Key)
    requires Inv(h, s) && IterOk(s, it) && it.safe && (it.Started() ==> s.iterators > 0)
    requires op != Advance && CallBounded(s, op)
    requires LookupBoth(h, s, k).Some? && LookupBoth(h, CallerStep(h, s, it, op).0, k).Some?
    ensures var (s', it') := CallerStep(h, s, it, op);
      && Inv(h, s') && IterOk(s', it) && it' == it && s'.iterators == s.iterators
      && (Ahead(h, s', it, k) <==> Ahead(h, s, it, k))
  {
    match op {
      case AddEntry(p) =>
        DictRuns.AddRawOk(h, s, p);
        if it.Started() { AddRawKeeps(h, s, it, p, k); }
      case PutEntry(p) =>
        DictRuns.ReplaceOk(h, s, p);
        if it.Started() { ReplaceKeeps(h, s, it, p, k); }
      case FindEntry(k') =>
        DictRuns.FindOpOk(h, s, k');
        RehashStepOk(h, s);
      case DeleteLast =>
        if it.entry.Some? {
          DictRuns.DeleteOk(h, s, it.entry.value);
          DeleteLastKeeps(h, s, it, k);
        }
    }
    if !it.Started() {
      FreshAhead(h, s, it, k);
      FreshAhead(h, CallerStep(h, s, it, op).0, it, k);
    }
  }

  // ------------------------------------------------------------------------- soundness alone

  /** The iterator is sound and, once started, counted in. */
  ghost predicate Standing(h: HashFunction, s: State, it: Iter) {
    Inv(h, s) && IterOk(s, it) && it.safe && (it.Started() ==> s.iterators > 0)
  }

  /** The live iterators but this one. */
  function Others(s: State, it: Iter): int {
    s.iterators - (if it.Started() then 1 else 0)
  }

  lemma ChainSound(h: HashFunction, s: State, it: Iter)
    requires Inv(h, s) && IterOk(s, it) && it.entry.Some?
    ensures var it1 := Enter(s, it.(entry := it.nextEntry));
      IterOk(s, it1) && it1.Started() && it1.table == it.table && it1.index == it.index && it1.safe == it.safe
  {
    hide Inv, Place, Enter;
    EnterNothing(s, it.(entry := it.nextEntry));
    if it.nextEntry.Some? {
      EnterOk(h, s, it, Place(CurrentBucket(s, it), it.nextEntry.value));
    }
  }

  lemma EnterNothing(s: State, it: Iter)
    ensures it.entry.None? ==> Enter(s, it) == it
    ensures Enter(s, it).table == it.table && Enter(s, it).index == it.index && Enter(s, it).safe == it.safe
  {
    hide Place;
  }

  lemma BucketSound(h: HashFunction, s: State, it: Iter)
    requires Inv(h, s) && it.table <= 1 && 0 <= it.index < TableOf(s, it.table).Size() && (it.table == 1 ==> s.Rehashing())
    ensures var it2 := Enter(s, it.(entry := KeyAt(CurrentBucket(s, it), 0)));
      IterOk(s, it2) && it2.Started() && it2.safe == it.safe
  {
    EnterOk(h, s, it, 0);
    EnterNothing(s, it.(entry := KeyAt(CurrentBucket(s, it), 0)));
    hide Inv, IterOk, Enter;
  }

  lemma IterOkCounted(s: State, n: nat, it: Iter)
    ensures IterOk(s.(iterators := n), it) <==> IterOk(s, it)
  {
    hide Place;
  }

  lemma NewTableNonEmpty(h: HashFunction, s: State)
    requires Inv(h, s)
    ensures s.Rehashing() ==> s.ht1.Size() > 0
  {
  }

  lemma TurnSound(h: HashFunction, s: State, it: Iter)
    requires Inv(h, s) && IterOk(s, it)
    ensures var (s1, it1, end) := Turn(s, it);
      && s1 == s.(iterators := if !it.Started() && it.safe then s.iterators + 1 else s.iterators)
      && Inv(h, s1) && IterOk(s1, it1) && it1.Started() && it1.safe == it.safe
  {
    TurnInv(h, s, it);
    NewTableNonEmpty(h, s);
    var (s1, it1, end) := Turn(s, it);
    IterOkCounted(s, s1.iterators, it1);
    hide Inv, Enter, Place, CurrentBucket;
    if it.entry.Some? {
      ChainSound(h, s, it);
    } else if it.index + 1 < TableOf(s, it.table).Size() || (s.Rehashing() && it.table == 0) {
      var to := if it.index + 1 < TableOf(s, it.table).Size() then it.(index := it.index + 1) else it.(table := 1, index := 0);
      BucketSound(h, s, to);
      EnterCounted(s, s1.iterators, to);
      EnterCounted(s, s1.iterators, to.(entry := KeyAt(CurrentBucket(s, to), 0)));
    }
  }

  lemma {:induction false} NextSound(h: HashFunction, s: State, it: Iter)
    requires Standing(h, s, it)
    ensures var (s', it', r) := Next(s, it); Standing(h, s', it') && it'.Started() && Others(s', it') == Others(s, it)
    decreases 1 - it.table, TableOf(s, it.table).Size() - it.index, if it.entry.Some? then 1 else 0
  {
    TurnSound(h, s, it);
    TurnDescends(s, it);
    var (s1, it1, end) := Turn(s, it);
    hide Inv, IterOk, Turn;
    if !end && it1.entry.None? {
      NextSound(h, s1, it1);
    }
  }

  lemma TurnPresent(h: HashFunction, s: State, it: Iter)
    requires Inv(h, s) && IterOk(s, it)
    ensures var (s1, it1, end) := Turn(s, it); !end && it1.entry.Some? ==> LookupBoth(h, s, it1.entry.value).Some?
  {
    NewTableNonEmpty(h, s);
    hide Inv;
    if it.entry.Some? {
      if it.nextEntry.Some? {
        ResidentIsHome(h, s, it.table, it.index, Place(CurrentBucket(s, it), it.nextEntry.value));
      }
    } else if it.index + 1 < TableOf(s, it.table).Size() || (s.Rehashing() && it.table == 0) {
      var to := if it.index + 1 < TableOf(s, it.table).Size() then it.(index := it.index + 1) else it.(table := 1, index := 0);
      if CurrentBucket(s, to) != [] {
        ResidentIsHome(h, s, to.table, to.index, 0);
      }
    }
  }

  /** dictNext returns nothing but keys that are there. */
  lemma {:induction false} NextPresent(h: HashFunction, s: State, it: Iter)
    requires Inv(h, s) && IterOk(s, it)
    ensures var r := Next(s, it).2; r.Some? ==> LookupBoth(h, s, r.value).Some?
    decreases 1 - it.table, TableOf(s, it.table).Size() - it.index, if it.entry.Some? then 1 else 0
  {
    TurnSound(h, s, it);
    TurnPresent(h, s, it);
    TurnInv(h, s, it);
    TurnDescends(s, it);
    var (s1, it1, end) := Turn(s, it);
    hide Inv, IterOk, Turn, LookupBoth;
    if !end && it1.entry.None? {
      NextPresent(h, s1, it1);
    }
  }

  /** Whatever else is in the dictionary: what the caller does leaves the iterator sound. */
  lemma CallerStepSound(h: HashFunction, s: State, it: Iter, op: CallerOp)
    requires Standing(h, s, it) && op != Advance && CallBounded(s, op)
    ensures var (s', it') := CallerStep(h, s, it, op); Standing(h, s', it') && it' == it && s'.iterators == s.iterators
  {
    CallerStepInv(h, s, it, op);
    var s' := CallerStep(h, s, it, op).0;
    if it.entry.Some? && it.nextEntry.Some? {
      var c := CurrentBucket(s, it);
      var i := Place(c, it.nextEntry.value);
      ResidentIsHome(h, s, it.table, it.index, i);
      NextStays(h, s, it, op);
      CallerStepKeeps(h, s, it, op, it.nextEntry.value);
    } else if it.Started() {
      CallerStepSizes(h, s, it, op);
    }
  }

  lemma StepSound(h: HashFunction, s: State, it: Iter, op: CallerOp)
    requires Standing(h, s, it) && CallBounded(s, op)
    ensures var (s', it') := CallerStep(h, s, it, op); Standing(h, s', it') && Others(s', it') == Others(s, it)
  {
    if op == Advance {
      NextSound(h, s, it);
    } else {
      CallerStepSound(h, s, it, op);
    }
  }

  lemma CallerStepInv(h: HashFunction, s: State, it: Iter, op: CallerOp)
    requires Standing(h, s, it) && op != Advance && CallBounded(s, op)
    ensures var (s', it') := CallerStep(h, s, it, op); Inv(h, s') && it' == it && s'.iterators == s.iterators
  {
    match op {
      case AddEntry(p) => DictRuns.AddRawOk(h, s, p);
      case PutEntry(p) => DictRuns.ReplaceOk(h, s, p);
      case FindEntry(k) => DictRuns.FindOpOk(h, s, k);
      case DeleteLast =>
        if it.entry.Some? {
          DictRuns.DeleteOk(h, s, it.entry.value);
        }
    }
  }

  /** The key nextEntry names is not the one that is deleted. */
  lemma NextStays(h: HashFunction, s: State, it: Iter, op: CallerOp)
    requires Standing(h, s, it) && op != Advance && CallBounded(s, op) && it.entry.Some? && it.nextEntry.Some?
    requires LookupBoth(h, s, it.nextEntry.value).Some?
    ensures LookupBoth(h, CallerStep(h, s, it, op).0, it.nextEntry.value).Some?
  {
    match op {
      case AddEntry(p) => DictRuns.AddRawOk(h, s, p);
      case PutEntry(p) => DictRuns.ReplaceOk(h, s, p);
      case FindEntry(k) => DictRuns.FindOpOk(h, s, k);
      case DeleteLast => DictRuns.DeleteOk(h, s, it.entry.value);
    }
  }

  /** The tables of s in use keep their sizes. */
  predicate SameSizes(s: State, s': State) {
    && (s.ht0.Size() > 0 ==> s'.ht0.Size() == s.ht0.Size())
    && (s.Rehashing() ==> s'.Rehashing() && s'.ht1.Size() == s.ht1.Size())
  }

  lemma AddRawSizes(h: HashFunction, s: State, p: Pair)
    requires Shaped(s) && s.iterators > 0
    ensures SameSizes(s, AddRaw(h, s, p).0)
  {
    hide NextPower, LookupBoth;
  }

  lemma SetExistingSizes(h: HashFunction, s: State, p: Pair)
    ensures SameSizes(s, SetExisting(h, s, p)) && SetExisting(h, s, p).rehashidx == s.rehashidx
  {
  }

  lemma SearchSizes(h: HashFunction, s: State, k: Key)
    requires Shaped(s) && s.iterators > 0
    ensures SameSizes(s, FindOp(h, s, k).0) && SameSizes(s, Delete(h, s, k).0)
  {
    hide LookupBoth, Lookup;
  }

  lemma CallerStepSizes(h: HashFunction, s: State, it: Iter, op: CallerOp)
    requires Standing(h, s, it) && it.Started() && op != Advance && CallBounded(s, op)
    ensures SameSizes(s, CallerStep(h, s, it, op).0)
  {
    assert Shaped(s);
    hide Inv, IterOk, AddRaw, SetExisting, FindOp, Delete;
    match op {
      case AddEntry(p) => AddRawSizes(h, s, p);
      case PutEntry(p) =>
        AddRawSizes(h, s, p);
        SetExistingSizes(h, AddRaw(h, s, p).0, p);
      case FindEntry(k) => SearchSizes(h, s, k);
      case DeleteLast =>
        if it.entry.Some? {
          SearchSizes(h, s, it.entry.value);
        }
    }
  }

  /** k is returned once more if it is ahead, else not at all. */
  ghost predicate ReturnedAsAhead(h: HashFunction, s: State, it: Iter, ops: seq<CallerOp>, k: Key) {
    var (keys, ended) := Iterate(h, s, it, ops);
    && Occurrences(keys, k) <= (if Ahead(h, s, it, k) then 1 else 0)
    && (ended ==> Occurrences(keys, k) == if Ahead(h, s, it, k) then 1 else 0)
  }

  lemma IterateAdvance(h: HashFunction, s: State, it: Iter, ops: seq<CallerOp>, k: Key)
    requires Inv(h, s) && IterOk(s, it) && LookupBoth(h, s, k).Some? && ops != [] && ops[0] == Advance
    requires var (s', it', r) := Next(s, it); r.Some? ==> ReturnedAsAhead(h, s', it', ops[1..], k)
    ensures ReturnedAsAhead(h, s, it, ops, k)
  {
    NextPasses(h, s, it, k);
    var (s', it', r) := Next(s, it);
    CountIrrelevant(h, s, s'.iterators, it', k);
    if r.Some? {
      var rest := Iterate(h, s', it', ops[1..]).0;
      assert Iterate(h, s, it, ops) == ([r.value] + rest, Iterate(h, s', it', ops[1..]).1);
      assert ([r.value] + rest)[1..] == rest;
    }
  }

  lemma IterateOther(h: HashFunction, s: State, it: Iter, ops: seq<CallerOp>, k: Key)
    requires Inv(h, s) && IterOk(s, it) && ops != [] && ops[0] != Advance
    requires var (s', it') := CallerStep(h, s, it, ops[0]);
      ReturnedAsAhead(h, s', it', ops[1..], k) && (Ahead(h, s', it', k) <==> Ahead(h, s, it, k))
    ensures ReturnedAsAhead(h, s, it, ops, k)
  {
    var (s', it') := CallerStep(h, s, it, ops[0]);
    var rest := Iterate(h, s', it', ops[1..]).0;
    assert [] + rest == rest;
  }

  /** From any point of an iteration: a key that stays is returned once more if it is ahead, else not at all. */
  lemma {:induction false} IterateReturnsAhead(h: HashFunction, s: State, it: Iter, ops: seq<CallerOp>, k: Key)
    requires Inv(h, s) && IterOk(s, it) && it.safe && (it.Started() ==> s.iterators > 0)
    requires CallsBounded(h, s, it, ops) && StaysPresent(h, s, it, ops, k)
    ensures ReturnedAsAhead(h, s, it, ops, k)
    decreases |ops|
  {
    if ops != [] {
      var (s', it') := CallerStep(h, s, it, ops[0]);
      if ops[0] == Advance {
        NextPasses(h, s, it, k);
        CountIrrelevant(h, s, s'.iterators, it', k);
        IterateReturnsAhead(h, s', it', ops[1..], k);
        IterateAdvance(h, s, it, ops, k);
      } else {
        assert LookupBoth(h, s', k).Some?;
        CallerStepKeeps(h, s, it, ops[0], k);
        IterateReturnsAhead(h, s', it', ops[1..], k);
        IterateOther(h, s, it, ops, k);
      }
    }
  }

  /** A safe iteration run to its end returns every entry that stays in the dictionary exactly once, though the
      caller adds, overwrites and looks up entries, and deletes the one it was just given. */
  lemma SafeIterationExactlyOnce(h: HashFunction, s: State, ops: seq<CallerOp>, k: Key)
    requires Inv(h, s) && CallsBounded(h, s, GetIterator(true), ops)
    requires StaysPresent(h, s, GetIterator(true), ops, k) && Iterate(h, s, GetIterator(true), ops).1
    ensures Occurrences(Iterate(h, s, GetIterator(true), ops).0, k) == 1
  {
    FreshAhead(h, s, GetIterator(true), k);
    IterateReturnsAhead(h, s, GetIterator(true), ops, k);
  }

  lemma FreshStanding(h: HashFunction, s: State)
    requires Inv(h, s)
    ensures Standing(h, s, GetIterator(true)) && Others(s, GetIterator(true)) == s.iterators
  {
  }

  /** The keys so far and those of the rest of the run. */
  function Resumed(keys: seq<Key>, rest: (seq<Key>, bool)): (seq<Key>, bool) {
    (keys + rest.0, rest.1)
  }

  lemma IterateFrom(all: (seq<Key>, bool))
    ensures Resumed([], all) == all
  {
    assert [] + all.0 == all.0;
  }

  lemma IterateNone(h: HashFunction, s: State, it: Iter, ops: seq<CallerOp>, keys: seq<Key>)
    requires ops == []
    ensures Resumed(keys, Iterate(h, s, it, ops)) == (keys, false)
  {
    assert keys + [] == keys;
  }

  lemma IterateUnfold(h: HashFunction, s: State, it: Iter, ops: seq<CallerOp>)
    requires Shaped(s) && it.table <= 1 && it.index >= -1 && ops != []
    ensures var (s', it') := CallerStep(h, s, it, ops[0]); var r := Next(s, it).2; var rest := Iterate(h, s', it', ops[1..]);
      Iterate(h, s, it, ops) ==
        if ops[0] != Advance then rest
        else if r.None? then ([], true)
        else ([r.value] + rest.0, rest.1)
  {
    hide Shaped, Next, CallerStep;
    var (s', it') := CallerStep(h, s, it, ops[0]);
    assert [] + Iterate(h, s', it', ops[1..]).0 == Iterate(h, s', it', ops[1..]).0;
  }

  lemma BoundedTail(h: HashFunction, s: State, it: Iter, ops: seq<CallerOp>)
    requires Shaped(s) && it.table <= 1 && it.index >= -1 && ops != [] && CallsBounded(h, s, it, ops)
    ensures var (s', it') := CallerStep(h, s, it, ops[0]);
      CallBounded(s, ops[0]) && CallsBounded(h, s', it', ops[1..])
  {
    hide Shaped, CallerStep;
  }

  lemma ResumedMore(keys: seq<Key>, k: Key, rest: (seq<Key>, bool))
    ensures Resumed(keys, ([k] + rest.0, rest.1)) == Resumed(keys + [k], rest)
  {
    assert keys + ([k] + rest.0) == keys + [k] + rest.0;
  }

  lemma ResumedEnd(keys: seq<Key>)
    ensures Resumed(keys, ([], true)) == (keys, true)
  {
    assert keys + [] == keys;
  }

  /** A run seen one call at a time. */
  lemma IterateStep(h: HashFunction, s: State, it: Iter, ops: seq<CallerOp>, keys: seq<Key>)
    requires Standing(h, s, it) && ops != [] && CallsBounded(h, s, it, ops)
    ensures CallBounded(s, ops[0])
    ensures var (s', it') := CallerStep(h, s, it, ops[0]); var r := Next(s, it).2;
      && CallsBounded(h, s', it', ops[1..])
      && Resumed(keys, Iterate(h, s, it, ops)) ==
           if ops[0] != Advance then Resumed(keys, Iterate(h, s', it', ops[1..]))
           else if r.None? then (keys, true)
           else Resumed(keys + [r.value], Iterate(h, s', it', ops[1..]))
  {
    hide *;
    StandingShape(h, s, it);
    IterateUnfold(h, s, it, ops);
    BoundedTail(h, s, it, ops);
    var (s', it') := CallerStep(h, s, it, ops[0]);
    var r := Next(s, it).2;
    if r.Some? {
      ResumedMore(keys, r.value, Iterate(h, s', it', ops[1..]));
    } else {
      ResumedEnd(keys);
    }
  }

  lemma StandingShape(h: HashFunction, s: State, it: Iter)
    requires Standing(h, s, it)
    ensures Shaped(s) && it.table <= 1 && it.index >= -1
  {
  }

  // ------------------------------------------------------------------------- the count of live iterators

  datatype IterCall = Open(safe: bool) | Step(i: nat) | Close(i: nat) | Work(op: DictRuns.Op)

  function CountsIn(it: Option<Iter>): nat {
    if it.Some? && it.value.safe && it.value.Started() then 1 else 0
  }

  /** The safe iterators that have been stepped and not released. */
  function StartedSafe(its: seq<Option<Iter>>): nat {
    if its == [] then 0 else CountsIn(its[0]) + StartedSafe(its[1..])
  }

  /** Opening, stepping and releasing any number of iterators, with dictionary operations between. */
  function IterCalls(h: HashFunction, s: State, its: seq<Option<Iter>>, calls: seq<IterCall>): (State, seq<Option<Iter>>)
    decreases |calls|
  {
    if calls == [] then (s, its)
    else
      match calls[0]
      case Open(safe) => IterCalls(h, s, its + [Some(GetIterator(safe))], calls[1..])
      case Step(i) =>
        if i < |its| && its[i].Some? && its[i].value.table <= 1 && its[i].value.index >= -1 then
          var (s', it', _) := Next(s, its[i].value);
          IterCalls(h, s', its[i := Some(it')], calls[1..])
        else IterCalls(h, s, its, calls[1..])
      case Close(i) =>
        if i < |its| && its[i].Some? then IterCalls(h, Release(s, its[i].value), its[i := None], calls[1..])
        else IterCalls(h, s, its, calls[1..])
      case Work(op) => IterCalls(h, if Shaped(s) then DictRuns.Step(h, s, op).0 else s, its, calls[1..])
  }

  lemma {:induction false} NextCounts(s: State, it: Iter)
    requires it.table <= 1 && it.index >= -1 && (it.entry.Some? ==> it.Started())
    ensures var (s', it', _) := Next(s, it);
      && s'.iterators == s.iterators + (if it.safe && !it.Started() then 1 else 0)
      && it'.Started() && it'.safe == it.safe && it'.table <= 1 && it'.index >= -1
    decreases 1 - it.table, TableOf(s, it.table).Size() - it.index, if it.entry.Some? then 1 else 0
  {
    var (s1, it1, end) := Turn(s, it);
    if !end && it1.entry.None? {
      NextCounts(s1, it1);
    }
  }

  lemma {:induction false} StartedSafeUpdate(its: seq<Option<Iter>>, i: nat, it: Option<Iter>)
    requires i < |its|
    ensures StartedSafe(its[i := it]) == StartedSafe(its) - CountsIn(its[i]) + CountsIn(it)
    ensures CountsIn(its[i]) <= StartedSafe(its)
  {
    if i == 0 {
      assert its[i := it][1..] == its[1..];
    } else {
      StartedSafeUpdate(its[1..], i - 1, it);
      assert its[i := it][1..] == its[1..][i - 1 := it];
    }
  }

  lemma {:induction false} StartedSafeAppend(its: seq<Option<Iter>>, it: Option<Iter>)
    ensures StartedSafe(its + [it]) == StartedSafe(its) + CountsIn(it)
  {
    if its == [] {
      assert its + [it] == [it] && [it][1..] == [];
    } else {
      StartedSafeAppend(its[1..], it);
      assert (its + [it])[1..] == its[1..] + [it];
    }
  }

  lemma RehashKeepsCount(h: HashFunction, s: State, n: int)
    requires s.Rehashing() ==> s.rehashidx >= 0 && s.ht1.Size() > 0
    ensures DictModel.Rehash(h, s, n).0.iterators == s.iterators
  {
    if s.Rehashing() {
      RehashLoopKeepsCount(h, s, n, n * 10);
    }
  }

  lemma {:induction false} RehashLoopKeepsCount(h: HashFunction, s: State, n: int, emptyVisits: int)
    requires s.rehashidx >= 0 && s.ht1.Size() > 0
    ensures RehashLoop(h, s, n, emptyVisits).0.iterators == s.iterators
    decreases s.ht0.Size() - s.rehashidx
  {
    if n != 0 && s.ht0.used != 0 && s.rehashidx < s.ht0.Size() {
      if s.ht0.buckets[s.rehashidx] != [] {
        RehashLoopKeepsCount(h, MoveBucket(h, s), n - 1, emptyVisits);
      } else if emptyVisits - 1 != 0 {
        RehashLoopKeepsCount(h, s.(rehashidx := s.rehashidx + 1), n, emptyVisits - 1);
      }
    }
  }

  lemma AddRawKeepsCount(h: HashFunction, s: State, p: Pair)
    requires Shaped(s)
    ensures AddRaw(h, s, p).0.iterators == s.iterators
  {
    RehashKeepsCount(h, s, 1);
    assert RehashStep(h, s).iterators == s.iterators;
    assert ExpandIfNeeded(RehashStep(h, s)).0.iterators == s.iterators;
  }

  lemma SearchKeepsCount(h: HashFunction, s: State, k: Key)
    requires Shaped(s)
    ensures Delete(h, s, k).0.iterators == s.iterators && FindOp(h, s, k).0.iterators == s.iterators
  {
    RehashKeepsCount(h, s, 1);
    assert RehashStep(h, s).iterators == s.iterators;
  }

  lemma StepKeepsCount(h: HashFunction, s: State, op: DictRuns.Op)
    requires Shaped(s)
    ensures DictRuns.Step(h, s, op).0.iterators == s.iterators
  {
    match op
    case Add(k, v) => AddRawKeepsCount(h, s, Pair(k, v));
    case Replace(k, v) =>
      AddRawKeepsCount(h, s, Pair(k, v));
      DictRuns.SetExistingKeepsSizes(h, AddRaw(h, s, Pair(k, v)).0, Pair(k, v));
    case Delete(k) => SearchKeepsCount(h, s, k);
    case Unlink(k) => SearchKeepsCount(h, s, k);
    case Find(k) => SearchKeepsCount(h, s, k);
    case Rehash(n) => RehashKeepsCount(h, s, n);
    case _ =>
  }

  /** `iterators` is always the number of safe iterators that were started and not yet released. */
  lemma {:induction false} IteratorsCounted(h: HashFunction, s: State, its: seq<Option<Iter>>, calls: seq<IterCall>)
    requires s.iterators == StartedSafe(its)
    requires forall i :: 0 <= i < |its| && its[i].Some? && its[i].value.entry.Some? ==> its[i].value.Started()
    ensures var (s', its') := IterCalls(h, s, its, calls); s'.iterators == StartedSafe(its')
    decreases |calls|
  {
    if calls != [] {
      match calls[0]
      case Open(safe) =>
        StartedSafeAppend(its, Some(GetIterator(safe)));
        IteratorsCounted(h, s, its + [Some(GetIterator(safe))], calls[1..]);
      case Step(i) =>
        if i < |its| && its[i].Some? && its[i].value.table <= 1 && its[i].value.index >= -1 {
          NextCounts(s, its[i].value);
          var (s', it', _) := Next(s, its[i].value);
          StartedSafeUpdate(its, i, Some(it'));
          IteratorsCounted(h, s', its[i := Some(it')], calls[1..]);
        } else {
          IteratorsCounted(h, s, its, calls[1..]);
        }
      case Close(i) =>
        if i < |its| && its[i].Some? {
          StartedSafeUpdate(its, i, None);
          IteratorsCounted(h, Release(s, its[i].value), its[i := None], calls[1..]);
        } else {
          IteratorsCounted(h, s, its, calls[1..]);
        }
      case Work(op) =>
        if Shaped(s) {
          StepKeepsCount(h, s, op);
        }
        IteratorsCounted(h, if Shaped(s) then DictRuns.Step(h, s, op).0 else s, its, calls[1..]);
    }
  }
}
