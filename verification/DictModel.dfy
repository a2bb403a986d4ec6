/** dict.c on values: two chained tables, the incremental rehash index, and what every operation
    does to them. The class in Dict.dfy is proved to compute exactly these functions; the lemmas in
    DictInvariant.dfy, DictRuns.dfy, ScanTheory.dfy and SafeIteration.dfy are about them. */
module DictModel {
  import opened Words

  type Key(==, !new)
  type Value(==, 0, !new)

  /** `type->hashFunction`: any fixed function of the key. */
  type HashFunction = Key -> Word

  datatype Option<+T> = None | Some(value: T)

  datatype Pair = Pair(key: Key, val: Value)

  type Chain = seq<Pair>

  /** `dictht`: no buckets stands for `table == NULL`. */
  datatype Table = Table(buckets: seq<Chain>, used: nat) {
    function Size(): nat { |buckets| }
  }

  const EMPTY: Table := Table([], 0)

  /** `dict` together with the global `dict_can_resize`. */
  datatype State = State(ht0: Table, ht1: Table, rehashidx: int, iterators: nat, canResize: bool) {
    predicate Rehashing() { rehashidx != -1 }
    function Used(): nat { ht0.used + ht1.used }
  }

  const INITIAL_SIZE: nat := 4
  const FORCE_RESIZE_RATIO: nat := 5
  const LONG_MAX: nat := 0x7fff_ffff_ffff_ffff

  /** The size bound under which `unsigned int` hashes and `int` indices lose nothing. */
  const MAX_SIZE: nat := 0x8000_0000

  const INITIAL: State := State(EMPTY, EMPTY, -1, 0, true)

  // ----------------------------------------------------------------------------- chains

  function Find(c: Chain, k: Key): Option<Value> {
    if c == [] then None else if c[0].key == k then Some(c[0].val) else Find(c[1..], k)
  }

  /** Unlinks the first entry with key k. */
  function Unlink(c: Chain, k: Key): Chain {
    if c == [] then [] else if c[0].key == k then c[1..] else [c[0]] + Unlink(c[1..], k)
  }

  /** Overwrites the value of the first entry with key k. */
  function SetVal(c: Chain, k: Key, v: Value): Chain {
    if c == [] then [] else if c[0].key == k then [Pair(k, v)] + c[1..] else [c[0]] + SetVal(c[1..], k, v)
  }

  // ----------------------------------------------------------------------------- tables

  function Bucket(h: HashFunction, t: Table, k: Key): Chain {
    if t.Size() == 0 then [] else t.buckets[Slot(h(k), t.Size())]
  }

  function Lookup(h: HashFunction, t: Table, k: Key): Option<Value> {
    Find(Bucket(h, t, k), k)
  }

  /** Replaces the bucket of k. */
  function WithBucket(h: HashFunction, t: Table, k: Key, c: Chain): Table
    requires t.Size() > 0
  {
    t.(buckets := t.buckets[Slot(h(k), t.Size()) := c])
  }

  /** Links a new entry at the head of its bucket. */
  function Push(h: HashFunction, t: Table, p: Pair): Table
    requires t.Size() > 0
  {
    WithBucket(h, t, p.key, [p] + Bucket(h, t, p.key)).(used := t.used + 1)
  }

  function EmptyTable(size: nat): Table {
    Table(seq(size, i => []), 0)
  }

  // ----------------------------------------------------------------------------- rehashing

  /** The inner loop of dictRehash: pushes every entry of a chain, first to last, into the new table. */
  function MoveChain(h: HashFunction, c: Chain, t: Table): (r: Table)
    requires t.Size() > 0
    ensures r.Size() == t.Size() && r.used == t.used + |c|
    decreases c
  {
    if c == [] then t else MoveChain(h, c[1..], Push(h, t, c[0]))
  }

  /** Moves the bucket at rehashidx and advances. */
  function MoveBucket(h: HashFunction, s: State): State
    requires 0 <= s.rehashidx < s.ht0.Size() && s.ht1.Size() > 0
  {
    var c := s.ht0.buckets[s.rehashidx];
    s.(ht0 := Table(s.ht0.buckets[s.rehashidx := []], if s.ht0.used >= |c| then s.ht0.used - |c| else 0),
       ht1 := MoveChain(h, c, s.ht1),
       rehashidx := s.rehashidx + 1)
  }

  /** The end of dictRehash: the new table becomes the only one once the old one is empty. */
  function FinishRehash(s: State): (State, bool) {
    if s.ht0.used == 0 then (s.(ht0 := s.ht1, ht1 := EMPTY, rehashidx := -1), false) else (s, true)
  }

  /** The loop of dictRehash: n buckets still to move, `emptyVisits` empty ones still to skip
      (neither need be positive). True means that there is more to move. */
  function RehashLoop(h: HashFunction, s: State, n: int, emptyVisits: int): (State, bool)
    requires s.rehashidx >= 0 && s.ht1.Size() > 0
    decreases s.ht0.Size() - s.rehashidx
  {
    if n == 0 || s.ht0.used == 0 || s.rehashidx >= s.ht0.Size() then
      FinishRehash(s)
    else if s.ht0.buckets[s.rehashidx] == [] then
      var s' := s.(rehashidx := s.rehashidx + 1);
      if emptyVisits - 1 == 0 then (s', true) else RehashLoop(h, s', n, emptyVisits - 1)
    else
      RehashLoop(h, MoveBucket(h, s), n - 1, emptyVisits)
  }

  /** dictRehash */
  function Rehash(h: HashFunction, s: State, n: int): (State, bool)
    requires s.Rehashing() ==> s.rehashidx >= 0 && s.ht1.Size() > 0
  {
    if !s.Rehashing() then (s, false) else RehashLoop(h, s, n, n * 10)
  }

  /** `if (dictIsRehashing(d)) _dictRehashStep(d)` */
  function RehashStep(h: HashFunction, s: State): State
    requires s.Rehashing() ==> s.rehashidx >= 0 && s.ht1.Size() > 0
  {
    if s.Rehashing() && s.iterators == 0 then Rehash(h, s, 1).0 else s
  }

  // ----------------------------------------------------------------------------- resizing

  function NextPowerFrom(i: nat, size: nat): nat
    requires i > 0
    decreases size - i
  {
    if i >= size then i else NextPowerFrom(2 * i, size)
  }

  /** _dictNextPower */
  function NextPower(size: nat): nat {
    if size >= LONG_MAX then LONG_MAX else NextPowerFrom(INITIAL_SIZE, size)
  }

  /** dictExpand; the flag is DICT_OK. */
  function Expand(s: State, size: nat): (State, bool) {
    var realsize := NextPower(size);
    if s.Rehashing() || s.ht0.used > size then (s, false)
    else if realsize == s.ht0.Size() then (s, false)
    else if s.ht0.Size() == 0 then (s.(ht0 := EmptyTable(realsize)), true)
    else (s.(ht1 := EmptyTable(realsize), rehashidx := 0), true)
  }

  /** dictResize */
  function Resize(s: State): (State, bool) {
    if !s.canResize || s.Rehashing() then (s, false)
    else Expand(s, if s.ht0.used < INITIAL_SIZE then INITIAL_SIZE else s.ht0.used)
  }

  /** _dictExpandIfNeeded */
  function ExpandIfNeeded(s: State): (State, bool) {
    if s.Rehashing() then (s, true)
    else if s.ht0.Size() == 0 then Expand(s, INITIAL_SIZE)
    else if s.ht0.used >= s.ht0.Size() && (s.canResize || s.ht0.used / s.ht0.Size() > FORCE_RESIZE_RATIO) then
      Expand(s, s.ht0.used * 2)
    else (s, true)
  }

  // ----------------------------------------------------------------------------- operations

  /** What the two-table search of dictFind and _dictKeyIndex comes to. */
  function LookupBoth(h: HashFunction, s: State, k: Key): Option<Value> {
    var r := Lookup(h, s.ht0, k);
    if r.Some? || !s.Rehashing() then r else Lookup(h, s.ht1, k)
  }

  datatype KeyIndex = Free | Existing | ExpandFailed

  /** _dictKeyIndex, after the expansion: -1 with or without an existing entry, or a free slot. */
  function FindIndex(h: HashFunction, s: State, k: Key): (State, KeyIndex) {
    var (s', ok) := ExpandIfNeeded(s);
    (s', if !ok then ExpandFailed else if LookupBoth(h, s', k).Some? then Existing else Free)
  }

  /** Links a new entry into the table that takes insertions. */
  function Insert(h: HashFunction, s: State, p: Pair): State
    requires if s.Rehashing() then s.ht1.Size() > 0 else s.ht0.Size() > 0
  {
    if s.Rehashing() then s.(ht1 := Push(h, s.ht1, p)) else s.(ht0 := Push(h, s.ht0, p))
  }

  /** The tables are allocated as the rehash index says. */
  predicate Shaped(s: State) {
    && -1 <= s.rehashidx
    && (s.Rehashing() ==> s.ht0.Size() > 0 && s.ht1.Size() > 0)
    && (!s.Rehashing() ==> s.ht1 == EMPTY)
  }

  /** dictAddRaw followed by dictSetVal on the new entry. */
  function AddRaw(h: HashFunction, s: State, p: Pair): (State, KeyIndex)
    requires Shaped(s)
  {
    var (s1, idx) := FindIndex(h, RehashStep(h, s), p.key);
    if idx == Free && (if s1.Rehashing() then s1.ht1.Size() > 0 else s1.ht0.Size() > 0)
    then (Insert(h, s1, p), Free)
    else (s1, idx)
  }

  /** Overwrites the value of the entry of k, wherever it is. */
  function SetExisting(h: HashFunction, s: State, p: Pair): State {
    if Lookup(h, s.ht0, p.key).Some? then
      assert s.ht0.Size() > 0;
      s.(ht0 := WithBucket(h, s.ht0, p.key, SetVal(Bucket(h, s.ht0, p.key), p.key, p.val)))
    else if Lookup(h, s.ht1, p.key).Some? then
      assert s.ht1.Size() > 0;
      s.(ht1 := WithBucket(h, s.ht1, p.key, SetVal(Bucket(h, s.ht1, p.key), p.key, p.val)))
    else s
  }

  /** dictReplace; true means that the key is new. */
  function Replace(h: HashFunction, s: State, p: Pair): (State, bool)
    requires Shaped(s)
  {
    var (s1, idx) := AddRaw(h, s, p);
    if idx == Free then (s1, true) else (SetExisting(h, s1, p), false)
  }

  function RemoveFrom(h: HashFunction, t: Table, k: Key): Table
    requires t.Size() > 0
  {
    WithBucket(h, t, k, Unlink(Bucket(h, t, k), k)).(used := if t.used > 0 then t.used - 1 else 0)
  }

  /** dictGenericDelete; the value of the unlinked entry, if any. */
  function Delete(h: HashFunction, s: State, k: Key): (State, Option<Value>)
    requires Shaped(s)
  {
    if s.ht0.used == 0 && s.ht1.used == 0 then (s, None)
    else
      var s1 := RehashStep(h, s);
      var r := Lookup(h, s1.ht0, k);
      if r.Some? then (s1.(ht0 := RemoveFrom(h, s1.ht0, k)), r)
      else if !s1.Rehashing() then (s1, None)
      else
        var r1 := Lookup(h, s1.ht1, k);
        if r1.Some? then (s1.(ht1 := RemoveFrom(h, s1.ht1, k)), r1) else (s1, None)
  }

  /** dictFind; the value of the entry, if any. */
  function FindOp(h: HashFunction, s: State, k: Key): (State, Option<Value>)
    requires Shaped(s)
  {
    if s.Used() == 0 then (s, None)
    else
      var s1 := RehashStep(h, s);
      (s1, LookupBoth(h, s1, k))
  }
}
