/** Whole runs of dictionary operations: they answer exactly as a plain map does, and the load factor
    of the table that takes insertions never exceeds one. */
module DictRuns {
  import opened Words
  import opened DictModel
  import opened DictInvariant

  /** With at most this many keys, doubling never leaves the size bound. */
  const MAX_KEYS: nat := 0x4000_0000

  datatype Op =
    | Add(k: Key, v: Value)
    | Replace(k: Key, v: Value)
    | Delete(k: Key)
    | Unlink(k: Key)
    | Find(k: Key)
    | Size
    | Resize
    | Expand(size: nat)
    | Rehash(n: int)
    | EnableResize
    | DisableResize

  /** Maintenance operations report on the tables, not on the contents; their return code is not part
      of the comparison with a map. */
  datatype Reply = Status(ok: bool) | Got(val: Option<Value>) | Counted(n: nat) | Done

  function Step(h: HashFunction, s: State, op: Op): (State, Reply)
    requires Shaped(s)
  {
    match op
    case Add(k, v) => var (s', idx) := AddRaw(h, s, Pair(k, v)); (s', Status(idx == Free))
    case Replace(k, v) => var (s', isNew) := DictModel.Replace(h, s, Pair(k, v)); (s', Status(isNew))
    case Delete(k) => var (s', r) := DictModel.Delete(h, s, k); (s', Status(r.Some?))
    case Unlink(k) => var (s', r) := DictModel.Delete(h, s, k); (s', Got(r))
    case Find(k) => var (s', r) := FindOp(h, s, k); (s', Got(r))
    case Size => (s, Counted(s.Used()))
    case Resize => (DictModel.Resize(s).0, Done)
    case Expand(size) => (DictModel.Expand(s, size).0, Done)
    case Rehash(n) => (DictModel.Rehash(h, s, n).0, Done)
    case EnableResize => (s.(canResize := true), Done)
    case DisableResize => (s.(canResize := false), Done)
  }

  function Get(m: map<Key, Value>, k: Key): Option<Value> {
    if k in m then Some(m[k]) else None
  }

  /** The same operation on a plain map. */
  function MapStep(m: map<Key, Value>, op: Op): (map<Key, Value>, Reply) {
    match op
    case Add(k, v) => (if k in m then m else m[k := v], Status(k !in m))
    case Replace(k, v) => (m[k := v], Status(k !in m))
    case Delete(k) => (m - {k}, Status(k in m))
    case Unlink(k) => (m - {k}, Got(Get(m, k)))
    case Find(k) => (m, Got(Get(m, k)))
    case Size => (m, Counted(|m|))
    case _ => (m, Done)
  }

  /** The dictionary holds exactly the entries of m. */
  ghost predicate Holds(h: HashFunction, s: State, m: map<Key, Value>) {
    && (forall k :: LookupBoth(h, s, k) == Get(m, k))
    && s.Used() == |m|
  }

  // -------------------------------------------------------------------------- resizing

  lemma Pow2Of31()
    ensures Pow2(31) == MAX_SIZE
  {
    assert Pow2(4) == 16;
    Pow2Add(4, 4);
    Pow2Add(8, 8);
    Pow2Add(16, 15);
    Pow2Add(8, 7);
    Pow2Add(4, 3);
  }

  /** Between a power and its half there is no other. */
  lemma OnlyPower(b: nat, size: nat)
    requires 2 <= b && size <= Pow2(b) && (b == 2 || Pow2(b - 1) < size) && PowerSize(size)
    ensures size == Pow2(b)
  {
    hide Pow2;
    var b' :| 2 <= b' <= 31 && size == Pow2(b');
    if b' < b {
      Pow2Monotone(b', b - 1);
    } else {
      Pow2Monotone(b, b');
    }
  }

  lemma {:induction false} NextPowerFromOk(b: nat, size: nat)
    requires 2 <= b <= 31 && size <= MAX_SIZE && (b == 2 || Pow2(b - 1) < size)
    ensures var r := NextPowerFrom(Pow2(b), size);
      r >= size && PowerSize(r) && (PowerSize(size) ==> r == size)
    decreases 32 - b
  {
    Pow2Of31();
    assert Pow2(b + 1) == 2 * Pow2(b);
    hide Pow2;
    if Pow2(b) >= size {
      if PowerSize(size) {
        OnlyPower(b, size);
      }
    } else {
      if b == 31 { assert false; }
      NextPowerFromOk(b + 1, size);
    }
  }

  /** _dictNextPower gives the least table size that is large enough. */
  lemma NextPowerOk(size: nat)
    requires size <= MAX_SIZE
    ensures NextPower(size) >= size && PowerSize(NextPower(size))
    ensures PowerSize(size) ==> NextPower(size) == size
  {
    assert Pow2(2) == INITIAL_SIZE;
    NextPowerFromOk(2, size);
  }

  lemma PowerSizeDouble(n: nat)
    requires PowerSize(n) && n <= MAX_KEYS
    ensures PowerSize(2 * n)
  {
    var b :| 2 <= b <= 31 && n == Pow2(b);
    Pow2Of31();
    assert Pow2(b + 1) == 2 * n;
  }

  ghost predicate SameContents(h: HashFunction, s: State, s': State) {
    && (forall k :: LookupBoth(h, s', k) == LookupBoth(h, s, k))
    && s'.Used() == s.Used() && s'.iterators == s.iterators && s'.canResize == s.canResize
  }

  lemma ExpandOk(h: HashFunction, s: State, size: nat)
    requires Inv(h, s) && size <= MAX_SIZE
    ensures var (s', ok) := DictModel.Expand(s, size);
      && Inv(h, s') && SameContents(h, s, s')
      && (!ok ==> s' == s)
      && (ok ==> (if s.ht0.Size() == 0 then !s'.Rehashing() && s'.ht0.Size() == NextPower(size)
                  else s'.rehashidx == 0 && s'.ht0 == s.ht0 && s'.ht1.Size() == NextPower(size)))
  {
    NextPowerOk(size);
    EmptyTableOk(h, NextPower(size));
    CountEmpty([]);
  }

  /** _dictExpandIfNeeded never reports an error, and leaves a table to insert into. */
  lemma ExpandIfNeededOk(h: HashFunction, s: State)
    requires Inv(h, s) && s.Used() <= MAX_KEYS
    ensures var (s', ok) := ExpandIfNeeded(s);
      && ok && Inv(h, s') && SameContents(h, s, s')
      && (if s'.Rehashing() then s'.ht1.Size() > 0 else s'.ht0.Size() > 0)
  {
    if !s.Rehashing() {
      if s.ht0.Size() == 0 {
        NextPowerOk(INITIAL_SIZE);
        ExpandOk(h, s, INITIAL_SIZE);
        CountEmpty([]);
      } else if s.ht0.used >= s.ht0.Size() {
        NextPowerOk(s.ht0.used * 2);
        ExpandOk(h, s, s.ht0.used * 2);
      }
    }
  }

  // -------------------------------------------------------------------------- single operations

  lemma FindIndexOk(h: HashFunction, s: State, k: Key)
    requires Inv(h, s) && s.Used() <= MAX_KEYS
    ensures var (s', idx) := FindIndex(h, RehashStep(h, s), k);
      && idx != ExpandFailed && Inv(h, s') && SameContents(h, s, s')
      && (idx == Existing <==> LookupBoth(h, s, k).Some?)
      && (if s'.Rehashing() then s'.ht1.Size() > 0 else s'.ht0.Size() > 0)
  {
    RehashStepOk(h, s);
    ExpandIfNeededOk(h, RehashStep(h, s));
  }

  lemma InsertOk(h: HashFunction, s: State, p: Pair)
    requires Inv(h, s) && LookupBoth(h, s, p.key).None?
    requires if s.Rehashing() then s.ht1.Size() > 0 else s.ht0.Size() > 0
    ensures var s' := Insert(h, s, p);
      && Inv(h, s') && s'.Used() == s.Used() + 1 && s'.iterators == s.iterators && s'.canResize == s.canResize
      && forall k :: LookupBoth(h, s', k) == if k == p.key then Some(p.val) else LookupBoth(h, s, k)
  {
    if s.Rehashing() {
      PushOk(h, s.ht1, p);
    } else {
      PushOk(h, s.ht0, p);
      assert Lookup(h, EMPTY, p.key).None?;
    }
  }

  /** dictAddRaw: inserts exactly when the key is absent, and never runs into a failed expansion. */
  lemma AddRawOk(h: HashFunction, s: State, p: Pair)
    requires Inv(h, s) && s.Used() < MAX_KEYS
    ensures var (s', idx) := AddRaw(h, s, p);
      && Inv(h, s') && s'.iterators == s.iterators && s'.canResize == s.canResize
      && idx == (if LookupBoth(h, s, p.key).Some? then Existing else Free)
      && s'.Used() == s.Used() + (if idx == Free then 1 else 0)
      && forall k :: LookupBoth(h, s', k) == if idx == Free && k == p.key then Some(p.val) else LookupBoth(h, s, k)
  {
    FindIndexOk(h, s, p.key);
    var (s1, idx) := FindIndex(h, RehashStep(h, s), p.key);
    if idx == Free {
      InsertOk(h, s1, p);
    }
  }

  lemma SetExistingOk(h: HashFunction, s: State, p: Pair)
    requires Inv(h, s) && LookupBoth(h, s, p.key).Some?
    ensures var s' := SetExisting(h, s, p);
      && Inv(h, s') && s'.Used() == s.Used() && s'.iterators == s.iterators && s'.canResize == s.canResize
      && forall k :: LookupBoth(h, s', k) == if k == p.key then Some(p.val) else LookupBoth(h, s, k)
  {
    if Lookup(h, s.ht0, p.key).Some? {
      SetValOk(h, s.ht0, p.key, p.val);
      SetValKeepsEmpty(h, s, p);
    } else {
      SetValOk(h, s.ht1, p.key, p.val);
    }
  }

  lemma SetValKeepsEmpty(h: HashFunction, s: State, p: Pair)
    requires Inv(h, s) && Lookup(h, s.ht0, p.key).Some?
    ensures EmptyBelow(SetExisting(h, s, p).ht0, s.rehashidx)
  {
    assert Bucket(h, s.ht0, p.key) != [];
  }

  /** dictReplace: the value is k's afterwards, and the flag says whether k is new; an update always
      finds its entry. */
  lemma ReplaceOk(h: HashFunction, s: State, p: Pair)
    requires Inv(h, s) && s.Used() < MAX_KEYS
    ensures var (s', isNew) := DictModel.Replace(h, s, p);
      && Inv(h, s') && s'.iterators == s.iterators && s'.canResize == s.canResize
      && isNew == LookupBoth(h, s, p.key).None?
      && s'.Used() == s.Used() + (if isNew then 1 else 0)
      && forall k :: LookupBoth(h, s', k) == if k == p.key then Some(p.val) else LookupBoth(h, s, k)
  {
    AddRawOk(h, s, p);
    var (s1, idx) := AddRaw(h, s, p);
    if idx != Free {
      SetExistingOk(h, s1, p);
    }
  }

  lemma RemoveFromOldOk(h: HashFunction, s: State, k: Key)
    requires Inv(h, s) && Lookup(h, s.ht0, k).Some?
    ensures var s' := s.(ht0 := RemoveFrom(h, s.ht0, k));
      && Inv(h, s') && s'.Used() == s.Used() - 1
      && forall k' :: LookupBoth(h, s', k') == if k' == k then None else LookupBoth(h, s, k')
  {
    RemoveOk(h, s.ht0, k);
    assert Bucket(h, s.ht0, k) != [];
    var s' := s.(ht0 := RemoveFrom(h, s.ht0, k));
    forall k' ensures Lookup(h, s'.ht0, k').None? || Lookup(h, s'.ht1, k').None? {
      assert Lookup(h, s.ht0, k').None? || Lookup(h, s.ht1, k').None?;
    }
  }

  lemma RemoveFromNewOk(h: HashFunction, s: State, k: Key)
    requires Inv(h, s) && s.Rehashing() && Lookup(h, s.ht0, k).None? && Lookup(h, s.ht1, k).Some?
    ensures var s' := s.(ht1 := RemoveFrom(h, s.ht1, k));
      && Inv(h, s') && s'.Used() == s.Used() - 1
      && forall k' :: LookupBoth(h, s', k') == if k' == k then None else LookupBoth(h, s, k')
  {
    RemoveOk(h, s.ht1, k);
    var s' := s.(ht1 := RemoveFrom(h, s.ht1, k));
    forall k' ensures Lookup(h, s'.ht0, k').None? || Lookup(h, s'.ht1, k').None? {
      assert Lookup(h, s.ht0, k').None? || Lookup(h, s.ht1, k').None?;
    }
  }

  lemma NothingWhenUnused(h: HashFunction, s: State, k: Key)
    requires Inv(h, s) && s.Used() == 0
    ensures LookupBoth(h, s, k) == None
  {
    CountEmpty(s.ht0.buckets);
    CountEmpty(s.ht1.buckets);
  }

  /** dictGenericDelete: removes exactly k and returns its value. */
  lemma DeleteOk(h: HashFunction, s: State, k: Key)
    requires Inv(h, s)
    ensures var (s', r) := DictModel.Delete(h, s, k);
      && Inv(h, s') && s'.iterators == s.iterators && s'.canResize == s.canResize
      && r == LookupBoth(h, s, k)
      && s'.Used() == s.Used() - (if r.Some? then 1 else 0)
      && forall k' :: LookupBoth(h, s', k') == if k' == k then None else LookupBoth(h, s, k')
  {
    if s.Used() == 0 {
      NothingWhenUnused(h, s, k);
    } else {
      RehashStepOk(h, s);
      var s1 := RehashStep(h, s);
      if Lookup(h, s1.ht0, k).Some? {
        RemoveFromOldOk(h, s1, k);
      } else if s1.Rehashing() && Lookup(h, s1.ht1, k).Some? {
        RemoveFromNewOk(h, s1, k);
      }
    }
  }

  lemma FindOpOk(h: HashFunction, s: State, k: Key)
    requires Inv(h, s)
    ensures var (s', r) := FindOp(h, s, k);
      Inv(h, s') && SameContents(h, s, s') && r == LookupBoth(h, s, k)
  {
    if s.Used() == 0 {
      NothingWhenUnused(h, s, k);
    } else {
      RehashStepOk(h, s);
    }
  }

  // -------------------------------------------------------------------------- runs

  /** The size bound under which an operation is called, with that many keys. */
  predicate Bounded(keys: nat, op: Op) {
    && (op.Add? || op.Replace? ==> keys < MAX_KEYS)
    && (op.Expand? ==> op.size <= MAX_SIZE)
    && (op.Resize? ==> keys <= MAX_SIZE)
  }

  predicate WithinBounds(s: State, op: Op) {
    Bounded(s.Used(), op)
  }

  /** After an operation the invariant holds and the reply and the contents are the map's. */
  ghost predicate Refined(h: HashFunction, s: State, s': State, m': map<Key, Value>) {
    Inv(h, s') && Holds(h, s', m') && s'.iterators == s.iterators
  }

  /** A dictionary that differs in one key holds the map that does so. */
  lemma HoldsWith(h: HashFunction, s: State, s': State, m: map<Key, Value>, k: Key, v: Value)
    requires Holds(h, s, m) && s'.Used() == s.Used() + (if k in m then 0 else 1)
    requires forall q :: LookupBoth(h, s', q) == if q == k then Some(v) else LookupBoth(h, s, q)
    ensures Holds(h, s', m[k := v])
  {
    hide LookupBoth;
    forall q
      ensures LookupBoth(h, s', q) == Get(m[k := v], q)
    {
      assert LookupBoth(h, s, q) == Get(m, q);
    }
  }

  lemma AddRefinesMap(h: HashFunction, s: State, m: map<Key, Value>, op: Op)
    requires Inv(h, s) && Holds(h, s, m) && WithinBounds(s, op) && op.Add?
    ensures Refined(h, s, Step(h, s, op).0, MapStep(m, op).0) && Step(h, s, op).1 == MapStep(m, op).1
  {
    ShapedInv(h, s);
    hide Inv, LookupBoth, AddRaw, Shaped;
    var p := Pair(op.k, op.v);
    AddRawOk(h, s, p);
    assert LookupBoth(h, s, op.k) == Get(m, op.k);
    if op.k !in m {
      HoldsWith(h, s, AddRaw(h, s, p).0, m, op.k, op.v);
    }
  }

  lemma ReplaceRefinesMap(h: HashFunction, s: State, m: map<Key, Value>, op: Op)
    requires Inv(h, s) && Holds(h, s, m) && WithinBounds(s, op) && op.Replace?
    ensures Refined(h, s, Step(h, s, op).0, MapStep(m, op).0) && Step(h, s, op).1 == MapStep(m, op).1
  {
    ShapedInv(h, s);
    hide Inv, LookupBoth, DictModel.Replace, Shaped;
    var p := Pair(op.k, op.v);
    ReplaceOk(h, s, p);
    assert LookupBoth(h, s, op.k) == Get(m, op.k);
    HoldsWith(h, s, DictModel.Replace(h, s, p).0, m, op.k, op.v);
  }

  lemma RemovalRefinesMap(h: HashFunction, s: State, m: map<Key, Value>, op: Op)
    requires Inv(h, s) && Holds(h, s, m) && (op.Delete? || op.Unlink?)
    ensures Refined(h, s, Step(h, s, op).0, MapStep(m, op).0) && Step(h, s, op).1 == MapStep(m, op).1
  {
    assert LookupBoth(h, s, op.k) == Get(m, op.k);
    DeleteOk(h, s, op.k);
    MapDrop(m, op.k);
  }

  lemma ShapedInv(h: HashFunction, s: State)
    requires Inv(h, s)
    ensures Shaped(s)
  {
  }

  lemma SwitchKeeps(h: HashFunction, s: State, canResize: bool)
    requires Inv(h, s)
    ensures Inv(h, s.(canResize := canResize))
    ensures forall k :: LookupBoth(h, s.(canResize := canResize), k) == LookupBoth(h, s, k)
  {
  }

  lemma MaintenanceRefinesMap(h: HashFunction, s: State, m: map<Key, Value>, op: Op)
    requires Inv(h, s) && Holds(h, s, m) && WithinBounds(s, op)
    requires op.Resize? || op.Expand? || op.Rehash? || op.EnableResize? || op.DisableResize?
    ensures Refined(h, s, Step(h, s, op).0, m)
  {
    hide Inv, LookupBoth, DictModel.Rehash, NextPower, DictModel.Expand;
    assert Shaped(s) by { ShapedInv(h, s); }
    if op.Resize? {
      ExpandOk(h, s, if s.ht0.used < INITIAL_SIZE then INITIAL_SIZE else s.ht0.used);
    } else if op.Expand? {
      ExpandOk(h, s, op.size);
    } else if op.Rehash? {
      RehashOk(h, s, op.n);
    } else {
      SwitchKeeps(h, s, op.EnableResize?);
    }
  }

  /** One operation: the invariant survives and the reply and new contents are the map's. */
  lemma StepRefinesMap(h: HashFunction, s: State, m: map<Key, Value>, op: Op)
    requires Inv(h, s) && Holds(h, s, m) && WithinBounds(s, op)
    ensures Refined(h, s, Step(h, s, op).0, MapStep(m, op).0)
    ensures Step(h, s, op).1 == MapStep(m, op).1
  {
    match op
    case Add(_, _) => AddRefinesMap(h, s, m, op);
    case Replace(_, _) => ReplaceRefinesMap(h, s, m, op);
    case Delete(_) => RemovalRefinesMap(h, s, m, op);
    case Unlink(_) => RemovalRefinesMap(h, s, m, op);
    case Find(k) => FindOpOk(h, s, k);
    case Size =>
    case _ => MaintenanceRefinesMap(h, s, m, op);
  }

  lemma MapDrop(m: map<Key, Value>, k: Key)
    ensures |m - {k}| == |m| - (if k in m then 1 else 0)
    ensures forall k' :: Get(m - {k}, k') == if k' == k then None else Get(m, k')
  {
    if k in m {
      assert m == (m - {k})[k := m[k]];
    } else {
      assert m - {k} == m;
    }
  }

  function MapRun(m: map<Key, Value>, ops: seq<Op>): (map<Key, Value>, seq<Reply>)
    decreases |ops|
  {
    if ops == [] then (m, [])
    else
      var (m1, r) := MapStep(m, ops[0]);
      var (m2, rs) := MapRun(m1, ops[1..]);
      (m2, [r] + rs)
  }

  /** A run of the dictionary; it stops, with no further replies, should a state lose its shape. */
  function Run(h: HashFunction, s: State, ops: seq<Op>): (State, seq<Reply>)
    decreases |ops|
  {
    if ops == [] || !Shaped(s) then (s, [])
    else
      var (s1, r) := Step(h, s, ops[0]);
      var (s2, rs) := Run(h, s1, ops[1..]);
      (s2, [r] + rs)
  }

  /** Every operation of a run is called within the size bound; nothing bounds the length of the run. */
  predicate StaysBounded(m: map<Key, Value>, ops: seq<Op>)
    decreases |ops|
  {
    ops == [] || (Bounded(|m|, ops[0]) && StaysBounded(MapStep(m, ops[0]).0, ops[1..]))
  }

  /** Every interleaving of operations, resizes and rehashes answers as a plain map does. */
  lemma {:induction false} RunRefinesMap(h: HashFunction, s: State, m: map<Key, Value>, ops: seq<Op>)
    requires Inv(h, s) && Holds(h, s, m) && StaysBounded(m, ops)
    ensures Run(h, s, ops).1 == MapRun(m, ops).1
    ensures Inv(h, Run(h, s, ops).0) && Holds(h, Run(h, s, ops).0, MapRun(m, ops).0)
    decreases |ops|
  {
    if ops != [] {
      StepRefinesMap(h, s, m, ops[0]);
      RunRefinesMap(h, Step(h, s, ops[0]).0, MapStep(m, ops[0]).0, ops[1..]);
    }
  }

  lemma InitialOk(h: HashFunction)
    ensures Inv(h, INITIAL) && Holds(h, INITIAL, map[])
  {
    CountEmpty([]);
  }

  /** A new dictionary, any operations: the replies are those of a map that starts empty. */
  lemma FreshRunRefinesMap(h: HashFunction, ops: seq<Op>)
    requires StaysBounded(map[], ops)
    ensures Run(h, INITIAL, ops).1 == MapRun(map[], ops).1
  {
    InitialOk(h);
    RunRefinesMap(h, INITIAL, map[], ops);
  }

  // -------------------------------------------------------------------------- load bound

  /** At most one entry per bucket of the table that takes insertions. */
  predicate LoadAtMostOne(s: State) {
    if s.Rehashing() then s.Used() <= s.ht1.Size() else s.ht0.used <= s.ht0.Size()
  }

  /** While a table of n buckets is doubled, every insertion beyond the first has advanced rehashidx. */
  predicate LoadInvariant(s: State) {
    && s.canResize && s.iterators == 0
    && if s.Rehashing() then s.ht1.Size() == 2 * s.ht0.Size() && s.Used() <= s.ht0.Size() + s.rehashidx + 1
       else s.ht0.used <= s.ht0.Size()
  }

  predicate NoOutsideResize(op: Op) {
    !op.Resize? && !op.Expand? && !op.DisableResize?
  }

  lemma LoadInvariantBounds(h: HashFunction, s: State)
    requires Inv(h, s) && LoadInvariant(s)
    ensures LoadAtMostOne(s)
  {
  }

  lemma RehashKeepsLoad(h: HashFunction, s: State, n: int)
    requires Inv(h, s) && LoadInvariant(s)
    ensures LoadInvariant(DictModel.Rehash(h, s, n).0)
  {
    RehashOk(h, s, n);
  }

  /** Room for one more entry, in the table that takes insertions, once expansion has been considered. */
  predicate RoomForOne(s: State) {
    if s.Rehashing() then s.ht1.Size() == 2 * s.ht0.Size() && s.Used() <= s.ht0.Size() + s.rehashidx
    else s.ht0.used < s.ht0.Size()
  }

  lemma ExpansionMakesRoom(h: HashFunction, s: State)
    requires Inv(h, s) && s.canResize && s.Used() <= MAX_KEYS
    requires if s.Rehashing() then RoomForOne(s) else s.ht0.used <= s.ht0.Size()
    ensures RoomForOne(ExpandIfNeeded(s).0)
  {
    if !s.Rehashing() {
      if s.ht0.Size() == 0 {
        NextPowerOk(INITIAL_SIZE);
      } else if s.ht0.used >= s.ht0.Size() {
        PowerSizeDouble(s.ht0.Size());
        NextPowerOk(s.ht0.used * 2);
      }
    }
  }

  lemma InsertionKeepsLoad(h: HashFunction, s: State, p: Pair)
    requires Inv(h, s) && LoadInvariant(s) && s.Used() < MAX_KEYS
    ensures LoadInvariant(AddRaw(h, s, p).0)
  {
    var s1 := RehashStep(h, s);
    RehashStepMakesRoom(h, s);
    RehashStepOk(h, s);
    ExpandIfNeededOk(h, s1);
    ExpansionMakesRoom(h, s1);
    hide Inv, Lookup, LookupBoth, RehashStep, ExpandIfNeeded, SameContents;
    var s2 := ExpandIfNeeded(s1).0;
    if !LookupBoth(h, s2, p.key).Some? {
      InsertTakesRoom(h, s2, p);
    } else {
      assert AddRaw(h, s, p).0 == s2;
    }
  }

  lemma RehashStepMakesRoom(h: HashFunction, s: State)
    requires Inv(h, s) && LoadInvariant(s)
    ensures var s1 := RehashStep(h, s);
      && s1.canResize && s1.iterators == 0 && s1.Used() == s.Used()
      && (if s1.Rehashing() then RoomForOne(s1) else s1.ht0.used <= s1.ht0.Size())
  {
    RehashStepOk(h, s);
    RehashKeepsLoad(h, s, 1);
    hide Inv, RehashLoop;
  }

  lemma InsertTakesRoom(h: HashFunction, s: State, p: Pair)
    requires s.canResize && s.iterators == 0 && RoomForOne(s)
    requires if s.Rehashing() then s.ht1.Size() > 0 else s.ht0.Size() > 0
    ensures LoadInvariant(Insert(h, s, p))
  {
    hide Bucket;
  }

  lemma SetExistingKeepsSizes(h: HashFunction, s: State, p: Pair)
    ensures var s' := SetExisting(h, s, p);
      s'.ht0.Size() == s.ht0.Size() && s'.ht1.Size() == s.ht1.Size() && s'.rehashidx == s.rehashidx
      && s'.ht0.used == s.ht0.used && s'.ht1.used == s.ht1.used && s'.canResize == s.canResize && s'.iterators == s.iterators
  {
  }

  lemma SearchKeepsLoad(h: HashFunction, s: State, k: Key)
    requires Inv(h, s) && LoadInvariant(s)
    ensures LoadInvariant(DictModel.Delete(h, s, k).0) && LoadInvariant(FindOp(h, s, k).0)
  {
    StepLoad(h, s);
    ShapedInv(h, s);
    hide Inv, Lookup, LookupBoth, RehashStep, DictModel.Unlink, Bucket, WithBucket;
  }

  lemma StepLoad(h: HashFunction, s: State)
    requires Inv(h, s) && LoadInvariant(s)
    ensures LoadInvariant(RehashStep(h, s))
  {
    RehashKeepsLoad(h, s, 1);
    hide Inv, LoadInvariant, DictModel.Rehash;
  }

  lemma StepKeepsLoad(h: HashFunction, s: State, op: Op)
    requires Inv(h, s) && LoadInvariant(s) && NoOutsideResize(op) && WithinBounds(s, op)
    ensures LoadInvariant(Step(h, s, op).0)
  {
    assert Shaped(s);
    hide Inv, AddRaw, DictModel.Delete, FindOp, DictModel.Rehash, LookupBoth, SetExisting;
    match op
    case Add(k, v) => InsertionKeepsLoad(h, s, Pair(k, v));
    case Replace(k, v) =>
      InsertionKeepsLoad(h, s, Pair(k, v));
      SetExistingKeepsSizes(h, AddRaw(h, s, Pair(k, v)).0, Pair(k, v));
    case Rehash(n) => RehashKeepsLoad(h, s, n);
    case Delete(k) => SearchKeepsLoad(h, s, k);
    case Unlink(k) => SearchKeepsLoad(h, s, k);
    case Find(k) => SearchKeepsLoad(h, s, k);
    case _ =>
  }

  /** Any run of additions, replacements, deletions, lookups and explicit rehashes, with resizing enabled,
      no safe iterator and no outside resize, keeps the load factor at most one: migration finishes in time. */
  lemma {:induction false} RunKeepsLoad(h: HashFunction, s: State, m: map<Key, Value>, ops: seq<Op>)
    requires Inv(h, s) && Holds(h, s, m) && LoadInvariant(s) && StaysBounded(m, ops)
    requires forall i :: 0 <= i < |ops| ==> NoOutsideResize(ops[i])
    ensures Inv(h, Run(h, s, ops).0) && LoadInvariant(Run(h, s, ops).0) && LoadAtMostOne(Run(h, s, ops).0)
    decreases |ops|
  {
    if ops == [] {
      LoadInvariantBounds(h, s);
    } else {
      StepRefinesMap(h, s, m, ops[0]);
      StepKeepsLoad(h, s, ops[0]);
      RunKeepsLoad(h, Step(h, s, ops[0]).0, MapStep(m, ops[0]).0, ops[1..]);
    }
  }

  lemma FreshRunKeepsLoad(h: HashFunction, ops: seq<Op>)
    requires StaysBounded(map[], ops)
    requires forall i :: 0 <= i < |ops| ==> NoOutsideResize(ops[i])
    ensures LoadAtMostOne(Run(h, INITIAL, ops).0)
  {
    InitialOk(h);
    RunKeepsLoad(h, INITIAL, map[], ops);
  }
}
