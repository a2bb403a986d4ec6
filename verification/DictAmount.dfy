/** How much of a migration one call of dictRehash does, and what exactly resizing and insertion do. */
module DictAmount {
  import opened Words
  import opened DictModel
  import opened DictInvariant
  import DictRuns

  /** The number of buckets from i to j that hold an entry. */
  ghost function Full(b: seq<Chain>, i: nat, j: nat): (n: nat)
    requires j <= |b|
    ensures i <= j ==> n <= j - i
    decreases j - i
  {
    if i >= j then 0 else (if b[i] == [] then 0 else 1) + Full(b, i + 1, j)
  }

  /** The number of those that do not. */
  ghost function Vacant(b: seq<Chain>, i: nat, j: nat): nat
    requires i <= j <= |b|
  {
    j - i - Full(b, i, j)
  }

  /** The entries of the buckets from i to j, in order. */
  ghost function Entries(b: seq<Chain>, i: nat, j: nat): Chain
    requires j <= |b|
    decreases j - i
  {
    if i >= j then [] else b[i] + Entries(b, i + 1, j)
  }

  /** The place after the last bucket from i on that holds an entry, i when none does. */
  ghost function End(b: seq<Chain>, i: nat): (e: nat)
    requires i <= |b|
    ensures i <= e <= |b| && (e > i ==> b[e - 1] != []) && forall k :: e <= k < |b| ==> b[k] == []
    decreases |b| - i
  {
    if i == |b| then i
    else
      var e := End(b, i + 1);
      if e > i + 1 || b[i] != [] then e else i
  }

  /** Only buckets from i on matter. */
  lemma {:induction false} SameFrom(b: seq<Chain>, c: seq<Chain>, i: nat, j: nat)
    requires |b| == |c| && j <= |b| && forall k :: i <= k < |b| ==> b[k] == c[k]
    ensures Full(b, i, j) == Full(c, i, j) && Entries(b, i, j) == Entries(c, i, j)
    decreases j - i
  {
    if i < j {
      SameFrom(b, c, i + 1, j);
    }
  }

  lemma {:induction false} SameEnd(b: seq<Chain>, c: seq<Chain>, i: nat)
    requires |b| == |c| && i <= |b| && forall k :: i <= k < |b| ==> b[k] == c[k]
    ensures End(b, i) == End(c, i)
    decreases |b| - i
  {
    if i < |b| {
      SameEnd(b, c, i + 1);
    }
  }

  lemma {:induction false} NoneFull(b: seq<Chain>, i: nat, j: nat)
    requires j <= |b|
    ensures Full(b, i, j) == 0 <==> forall k :: i <= k < j ==> b[k] == []
    ensures Full(b, i, j) == 0 ==> Entries(b, i, j) == []
    decreases j - i
  {
    if i < j {
      NoneFull(b, i + 1, j);
    }
  }

  lemma EndStep(b: seq<Chain>, i: nat)
    requires i < |b|
    ensures End(b, i) == if Full(b, i + 1, |b|) > 0 then End(b, i + 1) else if b[i] != [] then i + 1 else i
    ensures Full(b, i, |b|) > 0 <==> End(b, i) > i
  {
    NoneFull(b, i + 1, |b|);
    NoneFull(b, i, |b|);
  }

  /** The old table is empty exactly when no bucket from rehashidx on holds an entry. */
  lemma UsedUp(h: HashFunction, s: State)
    requires Core(h, s) && s.Rehashing()
    ensures s.ht0.used == 0 <==> Full(s.ht0.buckets, s.rehashidx, s.ht0.Size()) == 0
  {
    CountEmpty(s.ht0.buckets);
    NoneFull(s.ht0.buckets, s.rehashidx, s.ht0.Size());
  }

  lemma {:induction false} MoveChainTwice(h: HashFunction, a: Chain, b: Chain, t: Table)
    requires t.Size() > 0
    ensures MoveChain(h, a + b, t) == MoveChain(h, b, MoveChain(h, a, t))
    decreases |a|
  {
    if a == [] {
      assert a + b == b;
    } else {
      assert (a + b)[0] == a[0] && (a + b)[1..] == a[1..] + b;
      MoveChainTwice(h, a[1..], b, Push(h, t, a[0]));
    }
  }

  // ----------------------------------------------------------------------------- the loop

  /** r is s with the buckets up to j moved. */
  ghost predicate MovedTo(h: HashFunction, s: State, r: State, j: nat)
    requires s.Rehashing() && s.ht1.Size() > 0
  {
    && 0 <= s.rehashidx <= j <= s.ht0.Size() == r.ht0.Size() && r.rehashidx == j
    && (forall k :: 0 <= k < s.ht0.Size() ==> r.ht0.buckets[k] == if s.rehashidx <= k < j then [] else s.ht0.buckets[k])
    && r.ht1 == MoveChain(h, Entries(s.ht0.buckets, s.rehashidx, j), s.ht1)
  }

  /** Where a call stops that leaves work: after n buckets with entries, or at the emptyVisits-th without. */
  ghost predicate StopsAt(b: seq<Chain>, i: nat, n: nat, emptyVisits: int, j: nat) {
    && i <= j <= |b|
    && ((Full(b, i, j) == n && (if n == 0 then j == i else j > i && b[j - 1] != [] && Vacant(b, i, j) < emptyVisits)) ||
        (Full(b, i, j) < n && Vacant(b, i, j) == emptyVisits && j > i && b[j - 1] == []))
  }

  /** Whether the call ends the migration: its budget reaches past the last entry. */
  ghost predicate Suffices(b: seq<Chain>, i: nat, n: nat, emptyVisits: int)
    requires i <= |b|
  {
    Full(b, i, |b|) == 0 || (Full(b, i, |b|) <= n && Vacant(b, i, End(b, i)) < emptyVisits)
  }

  /** The state and flag of a call with this budget. */
  ghost predicate Amount(h: HashFunction, s: State, n: nat, emptyVisits: int, r: State, more: bool)
    requires s.Rehashing() && 0 <= s.rehashidx <= s.ht0.Size() && s.ht1.Size() > 0
  {
    && (more <==> !Suffices(s.ht0.buckets, s.rehashidx, n, emptyVisits))
    && (more ==> r.rehashidx >= 0 && MovedTo(h, s, r, r.rehashidx) && StopsAt(s.ht0.buckets, s.rehashidx, n, emptyVisits, r.rehashidx))
    && (!more ==>
          && r.rehashidx == -1 && r.ht1 == EMPTY
          && r.ht0 == MoveChain(h, Entries(s.ht0.buckets, s.rehashidx, s.ht0.Size()), s.ht1))
  }

  lemma StopsLater(b: seq<Chain>, c: seq<Chain>, i: nat, n: nat, emptyVisits: int, j: nat)
    requires |b| == |c| && i < |b| && (forall k :: i < k < |b| ==> b[k] == c[k]) && StopsAt(c, i + 1, n, emptyVisits, j)
    requires n == 0 || emptyVisits > 0
    ensures b[i] != [] && emptyVisits > 0 ==> StopsAt(b, i, n + 1, emptyVisits, j)
    ensures b[i] == [] && n > 0 ==> StopsAt(b, i, n, emptyVisits + 1, j)
  {
    SameFrom(b, c, i + 1, j);
  }

  lemma SufficesLater(b: seq<Chain>, c: seq<Chain>, i: nat, n: nat, emptyVisits: int)
    requires |b| == |c| && i < |b| && (forall k :: i < k < |b| ==> b[k] == c[k]) && emptyVisits > 0
    ensures b[i] != [] ==> (Suffices(b, i, n + 1, emptyVisits) <==> Suffices(c, i + 1, n, emptyVisits))
    ensures b[i] == [] ==> (Suffices(b, i, n, emptyVisits + 1) <==> Suffices(c, i + 1, n, emptyVisits))
  {
    SameFrom(b, c, i + 1, |b|);
    SameEnd(b, c, i + 1);
    EndStep(b, i);
    SameFrom(b, c, i + 1, End(b, i));
    NoneFull(b, i + 1, |b|);
  }

  lemma EntriesStep(b: seq<Chain>, c: seq<Chain>, i: nat, j: nat)
    requires |b| == |c| && i < j <= |b| && forall k :: i < k < |b| ==> b[k] == c[k]
    ensures Entries(b, i, j) == b[i] + Entries(c, i + 1, j)
  {
    SameFrom(b, c, i + 1, j);
  }

  lemma MovedTwice(h: HashFunction, s: State, s1: State, r: State, j: nat)
    requires s.Rehashing() && 0 <= s.rehashidx < s.ht0.Size() && s.ht1.Size() > 0 && s1.ht1.Size() > 0
    requires MovedTo(h, s, s1, s.rehashidx + 1) && MovedTo(h, s1, r, j)
    ensures MovedTo(h, s, r, j)
  {
    var b, c, i := s.ht0.buckets, s1.ht0.buckets, s.rehashidx;
    FirstEntries(b, i);
    EntriesStep(b, c, i, j);
    hide Entries, MoveChain;
    MoveChainTwice(h, b[i], Entries(c, i + 1, j), s.ht1);
  }

  lemma FirstEntries(b: seq<Chain>, i: nat)
    requires i < |b|
    ensures Entries(b, i, i + 1) == b[i]
  {
    assert Entries(b, i, i + 1) == b[i] + Entries(b, i + 1, i + 1);
  }

  lemma EndsTwice(h: HashFunction, s: State, s1: State)
    requires s.Rehashing() && 0 <= s.rehashidx < s.ht0.Size() && s.ht1.Size() > 0 && s1.ht1.Size() > 0
    requires MovedTo(h, s, s1, s.rehashidx + 1)
    ensures s1.ht0.Size() == s.ht0.Size() && s1.rehashidx == s.rehashidx + 1
    ensures MoveChain(h, Entries(s1.ht0.buckets, s1.rehashidx, s1.ht0.Size()), s1.ht1)
         == MoveChain(h, Entries(s.ht0.buckets, s.rehashidx, s.ht0.Size()), s.ht1)
  {
    var b, c, i := s.ht0.buckets, s1.ht0.buckets, s.rehashidx;
    FirstEntries(b, i);
    EntriesStep(b, c, i, |b|);
    hide Entries, MoveChain;
    MoveChainTwice(h, b[i], Entries(c, i + 1, |b|), s.ht1);
  }

  lemma SameLater(h: HashFunction, s: State, s1: State)
    requires s.Rehashing() && 0 <= s.rehashidx < s.ht0.Size() && s.ht1.Size() > 0
    requires MovedTo(h, s, s1, s.rehashidx + 1)
    ensures |s1.ht0.buckets| == |s.ht0.buckets| && s1.rehashidx == s.rehashidx + 1
    ensures forall k :: s.rehashidx < k < |s.ht0.buckets| ==> s.ht0.buckets[k] == s1.ht0.buckets[k]
  {
  }

  /** One more bucket in front, s1 being s with its bucket moved or skipped. */
  lemma AmountStep(h: HashFunction, s: State, s1: State, n: nat, n1: nat, e: int, e1: int, r: State, more: bool)
    requires s.Rehashing() && 0 <= s.rehashidx < s.ht0.Size() && s.ht1.Size() > 0
    requires s1.Rehashing() && 0 <= s1.rehashidx <= s1.ht0.Size() && s1.ht1.Size() > 0
    requires MovedTo(h, s, s1, s.rehashidx + 1) && Amount(h, s1, n1, e1, r, more) && n > 0 && e1 > 0
    requires if s.ht0.buckets[s.rehashidx] == [] then n1 == n && e1 == e - 1 else n1 == n - 1 && e1 == e
    ensures Amount(h, s, n, e, r, more)
  {
    hide MovedTo, StopsAt, Suffices, Entries, MoveChain;
    SameLater(h, s, s1);
    SufficesLater(s.ht0.buckets, s1.ht0.buckets, s.rehashidx, n1, e1);
    EndsTwice(h, s, s1);
    if more {
      StopsLater(s.ht0.buckets, s1.ht0.buckets, s.rehashidx, n1, e1, r.rehashidx);
      MovedTwice(h, s, s1, r, r.rehashidx);
    }
  }

  /** The loop ends at once. */
  lemma AmountNone(h: HashFunction, s: State, n: nat, emptyVisits: int)
    requires Core(h, s) && s.Rehashing() && (n == 0 || s.ht0.used == 0)
    ensures var (r, more) := FinishRehash(s); Amount(h, s, n, emptyVisits, r, more)
  {
    UsedUp(h, s);
    NoneFull(s.ht0.buckets, s.rehashidx, s.ht0.Size());
    assert Entries(s.ht0.buckets, s.rehashidx, s.rehashidx) == [];
  }

  /** A budget of one empty bucket, spent on the one at i. */
  lemma OneVacant(b: seq<Chain>, i: nat, n: nat)
    requires i < |b| && b[i] == [] && n > 0 && Full(b, i, |b|) > 0
    ensures !Suffices(b, i, n, 1) && StopsAt(b, i, n, 1, i + 1)
  {
    EndStep(b, i);
    assert Full(b, i, i + 1) == Full(b, i + 1, i + 1) == 0;
    assert Full(b, i, End(b, i)) == Full(b, i + 1, End(b, i));
  }

  /** The last empty bucket the budget allows. */
  lemma AmountSpent(h: HashFunction, s: State, n: nat)
    requires Core(h, s) && s.Rehashing() && n > 0 && s.ht0.used != 0
    requires 0 <= s.rehashidx < s.ht0.Size() && s.ht1.Size() > 0 && s.ht0.buckets[s.rehashidx] == []
    ensures Amount(h, s, n, 1, s.(rehashidx := s.rehashidx + 1), true)
  {
    hide Core, MovedTo, StopsAt, Suffices, Full;
    UsedUp(h, s);
    OneVacant(s.ht0.buckets, s.rehashidx, n);
    Moved(h, s, s.(rehashidx := s.rehashidx + 1));
  }

  lemma AmountSkip(h: HashFunction, s: State)
    requires Core(h, s) && s.Rehashing() && s.ht0.used != 0
    requires s.rehashidx < s.ht0.Size() && s.ht0.buckets[s.rehashidx] == []
    ensures var s1 := s.(rehashidx := s.rehashidx + 1); Core(h, s1) && MovedTo(h, s, s1, s.rehashidx + 1)
  {
    SkipBucketOk(h, s);
    Moved(h, s, s.(rehashidx := s.rehashidx + 1));
    hide TableOk, EmptyBelow, Disjoint, MovedTo;
  }

  lemma AmountMove(h: HashFunction, s: State)
    requires Core(h, s) && s.Rehashing() && s.rehashidx < s.ht0.Size() && s.ht0.buckets[s.rehashidx] != []
    ensures var s1 := MoveBucket(h, s); Core(h, s1) && MovedTo(h, s, s1, s.rehashidx + 1) && s1.rehashidx == s.rehashidx + 1
    ensures MoveBucket(h, s).ht0.Size() == s.ht0.Size()
  {
    MoveBucketOk(h, s);
    Moved(h, s, MoveBucket(h, s));
    hide Core, MovedTo, MoveBucket;
  }

  lemma CoreShape(h: HashFunction, s: State)
    requires Core(h, s) && s.Rehashing()
    ensures 0 <= s.rehashidx <= s.ht0.Size() && s.ht1.Size() > 0
    ensures s.ht0.used != 0 ==> s.rehashidx < s.ht0.Size()
  {
    if s.ht0.used != 0 {
      RehashIndexInRange(h, s);
    }
  }

  lemma {:induction false} LoopAmount(h: HashFunction, s: State, n: nat, emptyVisits: int)
    requires Core(h, s) && s.Rehashing() && (n == 0 || emptyVisits > 0)
    ensures s.rehashidx >= 0 && s.ht1.Size() > 0
    ensures var (r, more) := RehashLoop(h, s, n, emptyVisits); Amount(h, s, n, emptyVisits, r, more)
    decreases s.ht0.Size() - s.rehashidx
  {
    hide Core, Amount, MovedTo, MoveBucket, FinishRehash;
    CoreShape(h, s);
    if n == 0 || s.ht0.used == 0 {
      AmountNone(h, s, n, emptyVisits);
    } else if s.ht0.buckets[s.rehashidx] != [] {
      var s1 := MoveBucket(h, s);
      AmountMove(h, s);
      LoopAmount(h, s1, n - 1, emptyVisits);
      var (r, more) := RehashLoop(h, s1, n - 1, emptyVisits);
      CoreShape(h, s1);
      AmountStep(h, s, s1, n, n - 1, emptyVisits, emptyVisits, r, more);
    } else if emptyVisits == 1 {
      AmountSpent(h, s, n);
    } else {
      var s1 := s.(rehashidx := s.rehashidx + 1);
      AmountSkip(h, s);
      LoopAmount(h, s1, n, emptyVisits - 1);
      var (r, more) := RehashLoop(h, s1, n, emptyVisits - 1);
      CoreShape(h, s1);
      AmountStep(h, s, s1, n, n, emptyVisits, emptyVisits - 1, r, more);
    }
  }

  lemma Moved(h: HashFunction, s: State, s1: State)
    requires s.Rehashing() && 0 <= s.rehashidx < s.ht0.Size() && s.ht1.Size() > 0
    requires s1 == if s.ht0.buckets[s.rehashidx] == [] then s.(rehashidx := s.rehashidx + 1) else MoveBucket(h, s)
    ensures MovedTo(h, s, s1, s.rehashidx + 1) && s1.ht1.Size() == s.ht1.Size()
  {
    var b, i := s.ht0.buckets, s.rehashidx;
    assert Entries(b, i, i + 1) == b[i] + Entries(b, i + 1, i + 1) == b[i];
  }

  /** With a negative n nothing stops the loop but the end. */
  lemma {:induction false} LoopAll(h: HashFunction, s: State, n: int, emptyVisits: int)
    requires Core(h, s) && s.Rehashing() && n < 0 && emptyVisits <= 0
    ensures !RehashLoop(h, s, n, emptyVisits).1
    decreases s.ht0.Size() - s.rehashidx
  {
    if s.ht0.used != 0 {
      RehashIndexInRange(h, s);
      if s.ht0.buckets[s.rehashidx] == [] {
        SkipBucketOk(h, s);
        LoopAll(h, s.(rehashidx := s.rehashidx + 1), n, emptyVisits - 1);
      } else {
        MoveBucketOk(h, s);
        LoopAll(h, MoveBucket(h, s), n - 1, emptyVisits);
      }
    }
  }

  /** dictRehash(n) moves the entries of the buckets from rehashidx on, in order. It leaves work and returns 1 exactly if more
      than n buckets hold entries or 10n empty ones come before the last of them; then it has moved just n such buckets, or
      passed just 10n empty ones. Otherwise it returns 0 and the new table is the only one. A negative n moves everything. */
  lemma RehashAmount(h: HashFunction, s: State, n: int)
    requires Inv(h, s) && s.Rehashing()
    ensures var (r, more) := Rehash(h, s, n);
      if n < 0 then !more else Amount(h, s, n, n * 10, r, more)
  {
    if n < 0 {
      LoopAll(h, s, n, n * 10);
    } else {
      LoopAmount(h, s, n, n * 10);
    }
  }

  // ----------------------------------------------------------------------------- order inside buckets

  /** The pairs of a chain that go to a bucket, the last of the chain first. */
  ghost function Arrivals(h: HashFunction, c: Chain, size: nat, x: nat): Chain
    requires size > 0
  {
    if c == [] then [] else Arrivals(h, c[1..], size, x) + (if Slot(h(c[0].key), size) == x then [c[0]] else [])
  }

  /** A moved chain comes in reversed order in front of what its new buckets held. */
  lemma {:induction false} MovedInFront(h: HashFunction, c: Chain, t: Table, x: nat)
    requires x < t.Size()
    ensures MoveChain(h, c, t).buckets[x] == Arrivals(h, c, t.Size(), x) + t.buckets[x]
    decreases |c|
  {
    if c == [] {
      assert [] + t.buckets[x] == t.buckets[x];
    } else {
      MovedInFront(h, c[1..], Push(h, t, c[0]), x);
      var rest := Arrivals(h, c[1..], t.Size(), x);
      assert rest + ([c[0]] + t.buckets[x]) == rest + [c[0]] + t.buckets[x];
      assert rest + [] == rest;
    }
  }

  /** A new entry comes at the head of its bucket in the table that takes insertions; no other bucket changes. */
  lemma InsertInFront(h: HashFunction, s: State, p: Pair)
    requires Inv(h, s) && s.Used() < DictRuns.MAX_KEYS && LookupBoth(h, s, p.key).None?
    ensures InFront(h, ExpandIfNeeded(RehashStep(h, s)).0, AddRaw(h, s, p).0, p)
  {
    AddRawInserts(h, s, p);
    hide Inv, RehashStep, ExpandIfNeeded, AddRaw;
    InsertHead(h, ExpandIfNeeded(RehashStep(h, s)).0, p);
  }

  ghost predicate InFront(h: HashFunction, s: State, r: State, p: Pair) {
    var t, u := Target(s), Target(r);
    && u.Size() == t.Size() > 0 && r.rehashidx == s.rehashidx && (s.Rehashing() ==> r.ht0 == s.ht0)
    && forall x :: 0 <= x < t.Size() ==>
         u.buckets[x] == (if x == Slot(h(p.key), t.Size()) then [p] else []) + t.buckets[x]
  }

  lemma InsertHead(h: HashFunction, s: State, p: Pair)
    requires Target(s).Size() > 0
    ensures InFront(h, s, Insert(h, s, p), p)
  {
    var t, u := Target(s), Target(Insert(h, s, p));
    hide Slot;
    forall x | 0 <= x < t.Size()
      ensures u.buckets[x] == (if x == Slot(h(p.key), t.Size()) then [p] else []) + t.buckets[x]
    {
      assert [] + t.buckets[x] == t.buckets[x];
    }
  }

  lemma AddRawInserts(h: HashFunction, s: State, p: Pair)
    requires Inv(h, s) && s.Used() < DictRuns.MAX_KEYS && LookupBoth(h, s, p.key).None?
    ensures Shaped(s) && Target(ExpandIfNeeded(RehashStep(h, s)).0).Size() > 0
    ensures AddRaw(h, s, p) == (Insert(h, ExpandIfNeeded(RehashStep(h, s)).0, p), Free)
  {
    DictRuns.ShapedInv(h, s);
    hide Inv, RehashStep, ExpandIfNeeded, Insert, LookupBoth;
    DictRuns.FindIndexOk(h, s, p.key);
  }

  // ----------------------------------------------------------------------------- sizes

  /** The table that takes insertions. */
  function Target(s: State): Table {
    if s.Rehashing() then s.ht1 else s.ht0
  }

  /** n is the least size of a table with room for so many entries. */
  ghost predicate LeastFor(n: nat, entries: nat) {
    PowerSize(n) && n >= entries && forall m: nat :: PowerSize(m) && m >= entries ==> n <= m
  }

  lemma {:induction false} NextPowerLeast(size: nat)
    requires size <= MAX_SIZE
    ensures LeastFor(NextPower(size), size)
  {
    DictRuns.NextPowerOk(size);
    assert Pow2(2) == INITIAL_SIZE;
    forall m: nat | PowerSize(m) && m >= size
      ensures NextPower(size) <= m
    {
      var b :| 2 <= b <= 31 && m == Pow2(b);
      NextPowerUpTo(2, b, size);
    }
  }

  /** The doubling stops at the first power that is enough. */
  lemma {:induction false} NextPowerUpTo(a: nat, b: nat, size: nat)
    requires a <= b && size <= Pow2(b)
    ensures NextPowerFrom(Pow2(a), size) <= Pow2(b)
    decreases b - a
  {
    if Pow2(a) >= size {
      Pow2Monotone(a, b);
    } else {
      if a == b {
        assert false;
      }
      assert Pow2(a + 1) == 2 * Pow2(a);
      NextPowerUpTo(a + 1, b, size);
    }
  }

  /** dictExpand refuses during a migration, below the number of entries, and when nothing would change; otherwise insertions go
      to a table of the least size that is enough. */
  lemma ExpandExactly(h: HashFunction, s: State, size: nat)
    requires Inv(h, s) && size <= MAX_SIZE
    ensures var (r, ok) := Expand(s, size);
      && (!ok <==> s.Rehashing() || s.Used() > size || LeastFor(s.ht0.Size(), size))
      && (ok ==> LeastFor(Target(r).Size(), size) && Target(r).used == 0)
  {
    NextPowerLeast(size);
    DictRuns.ExpandOk(h, s, size);
    NotRehashing(h, s);
    if LeastFor(s.ht0.Size(), size) {
      assert NextPower(size) == s.ht0.Size();
    }
  }

  lemma NotRehashing(h: HashFunction, s: State)
    requires Inv(h, s)
    ensures !s.Rehashing() ==> s.ht1 == EMPTY && s.Used() == s.ht0.used
  {
  }

  /** After dictResize, when it is allowed and no migration is under way, insertions go to a table of the least size that holds
      the entries. */
  lemma ResizeExactly(h: HashFunction, s: State)
    requires Inv(h, s) && s.Used() <= MAX_SIZE
    ensures !s.canResize || s.Rehashing() ==> Resize(s) == (s, false)
    ensures s.canResize && !s.Rehashing() ==> LeastFor(Target(Resize(s).0).Size(), s.Used())
  {
    NotRehashing(h, s);
    if s.canResize && !s.Rehashing() {
      var minimal := if s.ht0.used < INITIAL_SIZE then INITIAL_SIZE else s.ht0.used;
      ExpandExactly(h, s, minimal);
      hide Expand, Inv;
      LeastFromFour(Target(Resize(s).0).Size(), s.ht0.used);
    }
  }

  lemma LeastFromFour(n: nat, entries: nat)
    requires LeastFor(n, if entries < INITIAL_SIZE then INITIAL_SIZE else entries)
    ensures LeastFor(n, entries)
  {
    forall m: nat | PowerSize(m) && m >= entries
      ensures n <= m
    {
      var b :| 2 <= b <= 31 && m == Pow2(b);
      Pow2Monotone(2, b);
      assert Pow2(2) == INITIAL_SIZE;
    }
  }

  /** Before an insertion the first table is made, or a migration to at least twice as many buckets as there are entries begins:
      the latter just when the table is full and resizing is allowed, or when there are more than five entries to a bucket.
      In all other cases nothing happens. */
  lemma GrowsExactly(h: HashFunction, s: State)
    requires Inv(h, s) && s.Used() <= DictRuns.MAX_KEYS
    ensures var r := ExpandIfNeeded(s).0;
      if s.Rehashing() then r == s
      else if s.ht0.Size() == 0 then r.ht0 == EmptyTable(INITIAL_SIZE) && !r.Rehashing()
      else if s.Used() >= s.ht0.Size() && (s.canResize || s.Used() / s.ht0.Size() > 5) then
        r.rehashidx == 0 && r.ht0 == s.ht0 && LeastFor(r.ht1.Size(), 2 * s.Used()) && r.ht1.used == 0
      else r == s
  {
    NotRehashing(h, s);
    if !s.Rehashing() && s.ht0.Size() > 0 {
      var size := s.ht0.used * 2;
      ExpandExactly(h, s, size);
      DictRuns.ExpandOk(h, s, size);
      NextPowerLeast(size);
    } else if !s.Rehashing() {
      assert PowerSize(INITIAL_SIZE) by {
        assert INITIAL_SIZE == Pow2(2);
      }
      DictRuns.NextPowerOk(INITIAL_SIZE);
    }
  }

  // ----------------------------------------------------------------------------- how a migration goes on

  /** The operations that take a step of a migration. */
  predicate Works(op: DictRuns.Op) {
    op.Add? || op.Replace? || op.Delete? || op.Unlink? || op.Find?
  }

  /** The next step ends the migration that is under way. */
  predicate StepEnds(h: HashFunction, s: State)
    requires Shaped(s)
  {
    !RehashStep(h, s).Rehashing()
  }

  /** r is on in the migration where s is. */
  predicate SamePlace(s: State, r: State) {
    r.rehashidx == s.rehashidx && r.ht0.Size() == s.ht0.Size() && r.iterators == s.iterators
  }

  lemma StepGoesOn(h: HashFunction, s: State)
    requires Inv(h, s) && s.Rehashing() && s.iterators == 0
    ensures Shaped(s)
    ensures !StepEnds(h, s) ==>
      var r := RehashStep(h, s);
      && Inv(h, r) && r.Used() == s.Used() > 0 && r.iterators == 0
      && r.Rehashing() && r.rehashidx > s.rehashidx && r.ht0.Size() == s.ht0.Size()
  {
    DictRuns.ShapedInv(h, s);
    RehashStepOk(h, s);
    RehashAmount(h, s, 1);
    hide RehashLoop;
    if !StepEnds(h, s) {
      SomeLeft(s.ht0.buckets, s.rehashidx);
      UsedUp(h, s);
    }
  }

  lemma SomeLeft(b: seq<Chain>, i: nat)
    requires i <= |b| && !Suffices(b, i, 1, 10)
    ensures Full(b, i, |b|) > 0
  {
  }

  lemma AddPlace(h: HashFunction, s: State, p: Pair)
    requires Shaped(s) && RehashStep(h, s).Rehashing()
    ensures SamePlace(RehashStep(h, s), AddRaw(h, s, p).0)
  {
    hide RehashStep, LookupBoth, Slot;
  }

  lemma ReplacePlace(h: HashFunction, s: State, p: Pair)
    requires Shaped(s) && RehashStep(h, s).Rehashing()
    ensures SamePlace(RehashStep(h, s), DictModel.Replace(h, s, p).0)
  {
    AddPlace(h, s, p);
    DictRuns.SetExistingKeepsSizes(h, AddRaw(h, s, p).0, p);
    hide RehashStep, AddRaw, SetExisting;
  }

  lemma DeletePlace(h: HashFunction, s: State, k: Key)
    requires Shaped(s) && s.Used() > 0
    ensures SamePlace(RehashStep(h, s), DictModel.Delete(h, s, k).0)
  {
    hide RehashStep;
  }

  lemma FindPlace(h: HashFunction, s: State, k: Key)
    requires Shaped(s) && s.Used() > 0
    ensures SamePlace(RehashStep(h, s), FindOp(h, s, k).0)
  {
    hide RehashStep, LookupBoth;
  }

  /** Each addition, replacement, deletion and lookup moves the migration on, unless its step is the last. */
  lemma StepAdvances(h: HashFunction, s: State, op: DictRuns.Op)
    requires Inv(h, s) && s.Rehashing() && s.iterators == 0 && Works(op)
    ensures Shaped(s)
    ensures !StepEnds(h, s) ==>
      var r := DictRuns.Step(h, s, op).0;
      r.Rehashing() && r.rehashidx > s.rehashidx && r.ht0.Size() == s.ht0.Size() && r.iterators == 0
  {
    StepGoesOn(h, s);
    hide Inv, RehashStep, AddRaw, DictModel.Replace, DictModel.Delete, FindOp;
    if !StepEnds(h, s) {
      match op
      case Add(k, v) => AddPlace(h, s, Pair(k, v));
      case Replace(k, v) => ReplacePlace(h, s, Pair(k, v));
      case Delete(k) => DeletePlace(h, s, k);
      case Unlink(k) => DeletePlace(h, s, k);
      case Find(k) => FindPlace(h, s, k);
    }
  }

  /** After so many of these operations the next step ends the migration. */
  ghost predicate EndsAfter(h: HashFunction, s: State, ops: seq<DictRuns.Op>, i: nat) {
    i < |ops| && var r := DictRuns.Run(h, s, ops[..i]).0; Shaped(r) && StepEnds(h, r)
  }

  lemma EndsLater(h: HashFunction, s: State, ops: seq<DictRuns.Op>, i: nat)
    requires ops != [] && Shaped(s) && EndsAfter(h, DictRuns.Step(h, s, ops[0]).0, ops[1..], i)
    ensures EndsAfter(h, s, ops, i + 1)
  {
    assert ops[1..][..i] == ops[..i + 1][1..] && ops[..i + 1][0] == ops[0];
    hide StepEnds, DictRuns.Step;
  }

  /** In the course of a migration, with operations to come that are within the size bound and go on with it. */
  ghost predicate Underway(h: HashFunction, s: State, m: map<Key, Value>, ops: seq<DictRuns.Op>) {
    && Inv(h, s) && DictRuns.Holds(h, s, m) && DictRuns.StaysBounded(m, ops) && s.Rehashing() && s.iterators == 0
    && 0 <= s.rehashidx <= s.ht0.Size() && forall i :: 0 <= i < |ops| ==> Works(ops[i])
  }

  lemma UnderwayStep(h: HashFunction, s: State, m: map<Key, Value>, ops: seq<DictRuns.Op>)
    requires Underway(h, s, m, ops) && ops != []
    ensures Shaped(s) && EndsAfter(h, s, ops, 0) == StepEnds(h, s)
    ensures !StepEnds(h, s) ==>
      var s1 := DictRuns.Step(h, s, ops[0]).0;
      s1.rehashidx > s.rehashidx && s1.ht0.Size() == s.ht0.Size() && Underway(h, s1, DictRuns.MapStep(m, ops[0]).0, ops[1..])
  {
    assert ops[..0] == [];
    StepAdvances(h, s, ops[0]);
    hide StepEnds, DictRuns.Step, DictRuns.MapStep, DictRuns.Holds, Inv, Works, Shaped;
    if !StepEnds(h, s) {
      DictRuns.StepRefinesMap(h, s, m, ops[0]);
      PlaceInTable(h, DictRuns.Step(h, s, ops[0]).0);
    }
  }

  /** While no safe iterator is live, after at most as many operations as a migration has buckets left, whatever these do, the next
      step ends it. */
  lemma {:induction false} MigrationEnds(h: HashFunction, s: State, m: map<Key, Value>, ops: seq<DictRuns.Op>)
    requires Underway(h, s, m, ops) && |ops| > s.ht0.Size() - s.rehashidx
    ensures exists i: nat :: i <= s.ht0.Size() - s.rehashidx && EndsAfter(h, s, ops, i)
    decreases s.ht0.Size() - s.rehashidx
  {
    hide *;
    InPlace(h, s, m, ops);
    UnderwayStep(h, s, m, ops);
    if !StepEnds(h, s) {
      var s1, m1 := DictRuns.Step(h, s, ops[0]).0, DictRuns.MapStep(m, ops[0]).0;
      InPlace(h, s1, m1, ops[1..]);
      MigrationEnds(h, s1, m1, ops[1..]);
      var i: nat :| i <= s1.ht0.Size() - s1.rehashidx && EndsAfter(h, s1, ops[1..], i);
      EndsLater(h, s, ops, i);
    }
  }

  lemma InPlace(h: HashFunction, s: State, m: map<Key, Value>, ops: seq<DictRuns.Op>)
    requires Underway(h, s, m, ops)
    ensures 0 <= s.rehashidx <= s.ht0.Size()
  {
  }

  lemma PlaceInTable(h: HashFunction, s: State)
    requires Inv(h, s) && s.Rehashing()
    ensures 0 <= s.rehashidx <= s.ht0.Size()
  {
  }
}
