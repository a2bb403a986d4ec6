/** What a scan covers. A call at cursor v visits every key whose bit-reversed hash lies between the
    reversed cursor and the next reversed cursor, so a whole scan tiles the space of hashes. */
module ScanTheory {
  import opened Words
  import opened DictModel
  import opened DictInvariant
  import opened ScanModel
  import DictRuns

  // ------------------------------------------------------------------------- reversed order

  function Rev(w: seq<bool>): (r: seq<bool>)
    ensures |r| == |w|
  {
    seq(|w|, i requires 0 <= i < |w| => w[|w| - 1 - i])
  }

  /** The place of a word in the order of the scan. */
  function Position(w: Word): nat {
    ToNat(Reverse(w))
  }

  /** The place of the low k bits among the 2^k buckets, in the order of the scan. */
  function BlockOf(w: Word, k: nat): nat
    requires k <= WIDTH
  {
    ToNat(Rev(w[..k]))
  }

  function Block(k: nat): nat
    requires k <= WIDTH
  {
    Pow2(WIDTH - k)
  }

  lemma PositionSplit(w: Word, k: nat)
    requires k <= WIDTH
    ensures Position(w) == ToNat(Rev(w[k..])) + Block(k) * BlockOf(w, k)
    ensures ToNat(Rev(w[k..])) < Block(k)
    ensures BlockOf(w, k) < Pow2(k)
    ensures Block(k) * Pow2(k) == Pow2(WIDTH)
  {
    assert Reverse(w) == Rev(w[k..]) + Rev(w[..k]);
    ToNatConcat(Rev(w[k..]), Rev(w[..k]));
    ToNatBound(Rev(w[k..]));
    ToNatBound(Rev(w[..k]));
    Pow2Add(WIDTH - k, k);
  }

  lemma RevInjective(a: seq<bool>, b: seq<bool>)
    requires |a| == |b| && Rev(a) == Rev(b)
    ensures a == b
  {
    forall i | 0 <= i < |a| ensures a[i] == b[i] {
      assert Rev(a)[|a| - 1 - i] == Rev(b)[|a| - 1 - i];
    }
  }

  lemma BlockOfInjective(a: Word, b: Word, k: nat)
    requires k <= WIDTH
    ensures BlockOf(a, k) == BlockOf(b, k) <==> a[..k] == b[..k]
  {
    if BlockOf(a, k) == BlockOf(b, k) {
      ToNatInjective(Rev(a[..k]), Rev(b[..k]));
      RevInjective(a[..k], b[..k]);
    }
  }

  lemma DivideBlock(n: nat, x: nat, y: nat, r: nat)
    requires r < n
    ensures x == y <==> n * y <= r + n * x < n * (y + 1)
  {
    if x < y {
      MulMonotone(n, x + 1, y);
      assert n * (x + 1) == n * x + n;
    } else if y < x {
      MulMonotone(n, y + 1, x);
    } else {
      assert n * (x + 1) == n * x + n;
    }
  }

  /** Two words with equal low bits are in the same block of positions, and conversely. */
  lemma SameBlock(a: Word, b: Word, k: nat)
    requires k <= WIDTH
    ensures a[..k] == b[..k] <==> Block(k) * BlockOf(b, k) <= Position(a) < Block(k) * (BlockOf(b, k) + 1)
  {
    PositionSplit(a, k);
    BlockOfInjective(a, b, k);
    DivideBlock(Block(k), BlockOf(a, k), BlockOf(b, k), ToNat(Rev(a[k..])));
  }

  lemma MulMonotone(n: nat, a: nat, b: nat)
    requires a <= b
    ensures n * a <= n * b
  {
    assert n * b - n * a == n * (b - a);
  }

  /** The next cursor is at the start of the next block, or back at zero after the last one. */
  lemma NextCursorPosition(v: Word, k: nat)
    requires k <= WIDTH
    ensures var next := Block(k) * (BlockOf(v, k) + 1);
      && next <= Pow2(WIDTH)
      && Position(NextCursor(v, LowMask(k))) == if next == Pow2(WIDTH) then 0 else next
  {
    var w := Or(v, Not(LowMask(k)));
    assert w[..k] == v[..k];
    PositionSplit(w, k);
    ToNatOnes(Rev(w[k..]));
    assert Block(k) * (BlockOf(v, k) + 1) == Block(k) * BlockOf(v, k) + Block(k);
    MulMonotone(Block(k), BlockOf(v, k) + 1, Pow2(k));
    hide ToNat, Pow2;
    IncrementToNat(Reverse(w));
    var c := NextCursor(v, LowMask(k));
    ReverseInvolution(Increment(Reverse(w)));
    assert Reverse(c) == Increment(Reverse(w));
  }

  lemma PositionZero(v: Word)
    ensures Position(v) == 0 <==> v == ZERO
  {
    ZeroBits();
    assert Reverse(ZERO) == ZERO;
    ToNatFromNat(0, WIDTH);
    if Position(v) == 0 {
      ToNatInjective(Reverse(v), ZERO);
      ReverseInvolution(v);
    }
  }

  /** A cursor left by a call has no bit at or above the mask that call used. */
  lemma NextCursorAligned(v: Word, k: nat)
    requires k <= WIDTH
    ensures forall i :: k <= i < WIDTH ==> !NextCursor(v, LowMask(k))[i]
  {
    var w := Or(v, Not(LowMask(k)));
    var r := Reverse(w);
    assert r == r[..WIDTH - k] + r[WIDTH - k..];
    IncrementOverOnes(r[..WIDTH - k], r[WIDTH - k..]);
  }

  // ------------------------------------------------------------------------- one call

  /** The end of the interval of positions that a call at v is responsible for. */
  function IntervalEnd(next: Word): nat {
    if next == ZERO then Pow2(WIDTH) else Position(next)
  }

  /** low + 2^k0 * m */
  function SlotNumber(low: nat, k0: nat, m: nat): nat {
    if m == 0 then low else SlotNumber(low, k0, m - 1) + Pow2(k0)
  }

  lemma {:induction false} SlotNumberIs(low: nat, k0: nat, m: nat)
    ensures SlotNumber(low, k0, m) == low + Pow2(k0) * m
  {
    if m > 0 {
      SlotNumberIs(low, k0, m - 1);
      assert Pow2(k0) * m == Pow2(k0) * (m - 1) + Pow2(k0);
    }
  }

  lemma SlotNumberInjective(low: nat, k0: nat, a: nat, b: nat)
    requires SlotNumber(low, k0, a) == SlotNumber(low, k0, b)
    ensures a == b
  {
    SlotNumberIs(low, k0, a);
    SlotNumberIs(low, k0, b);
    CancelFactor(Pow2(k0), a, b);
  }

  lemma SlotSplit(size: nat, v: Word, k0: nat)
    requires PowerSize(size) && k0 <= Rank(size) <= WIDTH
    ensures Slot(v, size) == SlotNumber(Index(v, k0), k0, Middle(v, k0, Rank(size)))
  {
    hide ToNat, Pow2, SlotNumber, Slot;
    PowerRank(size);
    SlotIsLowBits(v, Rank(size));
    assert v[..Rank(size)] == v[..k0] + v[k0..Rank(size)];
    ToNatConcat(v[..k0], v[k0..Rank(size)]);
    SlotNumberIs(Index(v, k0), k0, Middle(v, k0, Rank(size)));
  }

  /** The buckets visited in the larger table: those with the cursor's low bits and, above them, every
      number from the cursor's own middle bits upwards, in ascending order. */
  lemma {:induction false} ExpansionsExactly(size: nat, v: Word, k0: nat)
    requires PowerSize(size) && k0 <= Rank(size) <= WIDTH
    ensures var (slots, v') := Expansions(size, v, k0); var mid := Middle(v, k0, Rank(size));
      && v'[..k0] == v[..k0] && mid + |slots| == Pow2(Rank(size) - k0)
      && forall j :: 0 <= j < |slots| ==> slots[j] == SlotNumber(Index(v, k0), k0, mid + j)
    decreases Pow2(Rank(size) - k0) - Middle(v, k0, Rank(size))
  {
    hide ToNat, Pow2, Rank, NextExpansion, PowerSize, Slot, LowMask, MaskOf, And, Xor, SlotNumber;
    PowerRank(size);
    var k1 := Rank(size);
    var v1 := NextExpansion(v, LowMask(k0));
    NextExpansionMiddle(v, k0, k1);
    NoMiddleBits(v1, k0, k1);
    SlotSplit(size, v, k0);
    if And(v1, Xor(LowMask(k0), MaskOf(size))) != ZERO {
      ExpansionsExactly(size, v1, k0);
      var slots, rest := Expansions(size, v, k0).0, Expansions(size, v1, k0).0;
      assert slots == [Slot(v, size)] + rest;
      forall j | 0 <= j < |slots| ensures slots[j] == SlotNumber(Index(v, k0), k0, Middle(v, k0, k1) + j) {
        if j > 0 {
          assert slots[j] == rest[j - 1];
        }
      }
    }
  }

  /** A bucket with the cursor's low bits is visited exactly when its middle bits are, as a number, at
      least the cursor's. */
  lemma ExpansionVisited(size: nat, v: Word, k0: nat, x: Word)
    requires PowerSize(size) && k0 <= Rank(size) <= WIDTH && x[..k0] == v[..k0]
    ensures Slot(x, size) in Expansions(size, v, k0).0 <==> Middle(x, k0, Rank(size)) >= Middle(v, k0, Rank(size))
  {
    hide ToNat, Pow2, Rank, PowerSize, Slot, SlotNumber, Expansions;
    ExpansionsExactly(size, v, k0);
    SlotSplit(size, x, k0);
    ToNatBound(x[k0..Rank(size)]);
    var slots, mid := Expansions(size, v, k0).0, Middle(v, k0, Rank(size));
    var n := Middle(x, k0, Rank(size));
    if n >= mid {
      assert slots[n - mid] == Slot(x, size);
    }
    if Slot(x, size) in slots {
      var j :| 0 <= j < |slots| && slots[j] == Slot(x, size);
      SlotNumberInjective(Index(v, k0), k0, n, mid + j);
    }
  }

  lemma CancelFactor(f: nat, a: nat, b: nat)
    requires f > 0 && f * a == f * b
    ensures a == b
  {
  }

  lemma {:induction false} GatherEmits(t: Table, slots: seq<nat>, i: nat, p: Pair)
    requires i in slots && i < t.Size() && p in t.buckets[i]
    ensures p in Gather(t, slots)
  {
    if slots[0] != i {
      GatherEmits(t, slots[1..], i, p);
    }
  }

  lemma {:induction false} GatherSound(t: Table, slots: seq<nat>, p: Pair)
    requires p in Gather(t, slots)
    ensures exists i :: 0 <= i < t.Size() && p in t.buckets[i]
  {
    if p in Gather(t, slots[1..]) {
      GatherSound(t, slots[1..], p);
    }
  }

  // ------------------------------------------------- which cursors are safe with two tables

  /** Ones followed by zeros, from the low end. */
  ghost predicate OnesThenZeros(m: seq<bool>) {
    forall i, j :: 0 <= i < j < |m| && m[j] ==> m[i]
  }

  /** The bits of the cursor between the masks of two tables being migrated are ones, then zeros:
      in particular, none is set. */
  ghost predicate Fits(s: State, v: Word) {
    s.Rehashing() && Rank(Smaller(s).Size()) <= Rank(Larger(s).Size()) <= WIDTH ==>
      OnesThenZeros(v[Rank(Smaller(s).Size())..Rank(Larger(s).Size())])
  }

  lemma {:induction false} ToNatAppend(a: seq<bool>, x: bool)
    ensures ToNat(a + [x]) == ToNat(a) + (if x then Pow2(|a|) else 0)
  {
    if a == [] {
      assert a + [x] == [x] && [x][1..] == [];
    } else {
      ToNatAppend(a[1..], x);
      assert (a + [x])[1..] == a[1..] + [x];
    }
  }

  lemma RevCons(a: seq<bool>)
    requires a != []
    ensures Rev(a) == Rev(a[1..]) + [a[0]]
  {
  }

  lemma RevFirst(a: seq<bool>)
    requires a != []
    ensures ToNat(Rev(a)) == ToNat(Rev(a[1..])) + (if a[0] then Pow2(|a| - 1) else 0)
  {
    RevCons(a);
    var r := Rev(a[1..]);
    ToNatAppend(r, a[0]);
    assert |r| == |a| - 1;
  }

  lemma {:induction false} ReversedOrderWithin(a: seq<bool>, b: seq<bool>)
    requires |a| == |b| && OnesThenZeros(a) && ToNat(Rev(b)) >= ToNat(Rev(a))
    ensures ToNat(b) >= ToNat(a)
  {
    if |a| > 0 && a[0] {
      RevFirst(a);
      RevFirst(b);
      ToNatBound(Rev(b[1..]));
      assert b[0];
      ReversedOrderWithin(a[1..], b[1..]);
    } else {
      assert forall i :: 0 <= i < |a| ==> !a[i];
      ToNatZero(a);
    }
  }

  /** Otherwise some bucket later in reversed order is smaller as a number, so the loop never reaches it. */
  lemma {:induction false} ReversedOrderWitness(a: seq<bool>) returns (b: seq<bool>)
    requires !OnesThenZeros(a)
    ensures |b| == |a| && ToNat(Rev(b)) > ToNat(Rev(a)) && ToNat(b) < ToNat(a)
  {
    var i, j :| 0 <= i < j < |a| && a[j] && !a[i];
    RevFirst(a);
    if a[0] {
      assert a[1..][j - 1] && !a[1..][i - 1];
      var b' := ReversedOrderWitness(a[1..]);
      b := [true] + b';
      assert b[1..] == b';
      RevFirst(b);
    } else {
      var z := seq(|a| - 1, i => false);
      b := [true] + z;
      assert b[1..] == z;
      ToNatZero(z);
      RevFirst(b);
      ToNatBound(Rev(a[1..]));
      assert a[1..][j - 1];
      SomeBitPositive(a[1..]);
    }
  }

  lemma {:induction false} SomeBitPositive(a: seq<bool>)
    requires exists i :: 0 <= i < |a| && a[i]
    ensures ToNat(a) > 0
  {
    if !a[0] {
      var i :| 0 <= i < |a| && a[i];
      assert a[1..][i - 1];
      SomeBitPositive(a[1..]);
    }
  }

  /** Two words with equal low bits are ordered, in the scan, by their reversed middle bits first. */
  lemma PositionByMiddle(x: Word, v: Word, k0: nat, k1: nat)
    requires k0 <= k1 <= WIDTH && x[..k0] == v[..k0]
    ensures ToNat(Rev(x[k0..k1])) > ToNat(Rev(v[k0..k1])) ==> Position(x) > Position(v)
    ensures Position(x) >= Position(v) ==> ToNat(Rev(x[k0..k1])) >= ToNat(Rev(v[k0..k1]))
  {
    BlockAtRank(x, k0, k1);
    BlockAtRank(v, k0, k1);
    BlockOrder(x, v, k1);
    BlockOrder(v, x, k1);
  }

  lemma BlockAtRank(x: Word, k0: nat, k1: nat)
    requires k0 <= k1 <= WIDTH
    ensures BlockOf(x, k1) == ToNat(Rev(x[k0..k1])) + Pow2(k1 - k0) * BlockOf(x, k0)
  {
    assert Rev(x[..k1]) == Rev(x[k0..k1]) + Rev(x[..k0]);
    ToNatConcat(Rev(x[k0..k1]), Rev(x[..k0]));
  }

  lemma BlockOrder(a: Word, b: Word, k: nat)
    requires k <= WIDTH
    ensures BlockOf(a, k) < BlockOf(b, k) ==> Position(a) < Position(b)
  {
    if BlockOf(a, k) < BlockOf(b, k) {
      SameBlock(a, a, k);
      BlockStart(b, k);
      MulMonotone(Block(k), BlockOf(a, k) + 1, BlockOf(b, k));
    }
  }

  /** The loop over the larger table visits every bucket the call is responsible for if and only if the
      cursor's bits between the masks are ones, then zeros. Older cursors of a scan that was overtaken by
      a shrink can fail this; the buckets between are then skipped. */
  lemma ExpansionsCoverExactlyWhen(size: nat, v: Word, k0: nat)
    requires PowerSize(size) && k0 <= Rank(size) <= WIDTH
    ensures (forall x: Word :: x[..k0] == v[..k0] && Position(x) >= Position(v) ==> Slot(x, size) in Expansions(size, v, k0).0)
      <==> OnesThenZeros(v[k0..Rank(size)])
  {
    var k1 := Rank(size);
    var a := v[k0..k1];
    if OnesThenZeros(a) {
      forall x: Word | x[..k0] == v[..k0] && Position(x) >= Position(v)
        ensures Slot(x, size) in Expansions(size, v, k0).0
      {
        PositionByMiddle(x, v, k0, k1);
        ReversedOrderWithin(a, x[k0..k1]);
        ExpansionVisited(size, v, k0, x);
      }
    } else {
      var b := ReversedOrderWitness(a);
      var x: Word := v[..k0] + b + v[k1..];
      assert x[..k0] == v[..k0] && x[k0..k1] == b;
      PositionByMiddle(x, v, k0, k1);
      ExpansionVisited(size, v, k0, x);
    }
  }

  // ------------------------------------------------------------------------- what a call emits

  predicate Emitted(out: seq<Pair>, k: Key) {
    exists i :: 0 <= i < |out| && out[i].key == k
  }

  lemma EmittedFromBucket(h: HashFunction, t: Table, out: seq<Pair>, k: Key)
    requires Lookup(h, t, k).Some? && forall p :: p in Bucket(h, t, k) ==> p in out
    ensures Emitted(out, k)
  {
    FindIn(Bucket(h, t, k), k);
    var j :| 0 <= j < |Bucket(h, t, k)| && Bucket(h, t, k)[j].key == k;
    assert Bucket(h, t, k)[j] in out;
    var i :| 0 <= i < |out| && out[i] == Bucket(h, t, k)[j];
  }

  /** A call emits every key whose reversed hash is at or after the cursor and before the next cursor. */
  lemma CallCoversInterval(h: HashFunction, s: State, v: Word, k: Key)
    requires Inv(h, s) && Fits(s, v) && LookupBoth(h, s, k).Some?
    requires Position(v) <= Position(h(k)) < IntervalEnd(Scan(h, s, v).0)
    ensures Emitted(Scan(h, s, v).1, k)
  {
    if s.Used() == 0 {
      DictRuns.NothingWhenUnused(h, s, k);
      assert false;
    }
    NonEmptyTables(h, s);
    var t0, x := Smaller(s), h(k);
    PowerRank(t0.Size());
    var k0 := Rank(t0.Size());
    SlotIsLowBits(x, k0);
    SlotIsLowBits(v, k0);
    if !s.Rehashing() {
      InBlock(v, v, x, k0);
      EmittedFromBucket(h, t0, Scan(h, s, v).1, k);
    } else {
      var t1 := Larger(s);
      PowerRank(t1.Size());
      RankMonotone(t0.Size(), t1.Size());
      var (slots, v') := Expansions(t1.Size(), v, k0);
      ExpansionsExactly(t1.Size(), v, k0);
      InBlock(v, v', x, k0);
      if Lookup(h, t0, k).Some? {
        EmittedFromBucket(h, t0, Scan(h, s, v).1, k);
      } else {
        ExpansionsCoverExactlyWhen(t1.Size(), v, k0);
        forall p | p in Bucket(h, t1, k) ensures p in Gather(t1, slots) {
          GatherEmits(t1, slots, Slot(x, t1.Size()), p);
        }
        EmittedFromBucket(h, t1, Scan(h, s, v).1, k);
      }
    }
  }

  lemma IntervalEndIsBlockEnd(v: Word, k: nat)
    requires k <= WIDTH
    ensures IntervalEnd(NextCursor(v, LowMask(k))) == Block(k) * (BlockOf(v, k) + 1)
  {
    NextCursorPosition(v, k);
    PositionZero(NextCursor(v, LowMask(k)));
    PositivePart(Block(k), BlockOf(v, k));
  }

  lemma PositivePart(n: nat, a: nat)
    requires n > 0
    ensures n * (a + 1) > 0
  {
    MulMonotone(n, 1, a + 1);
  }

  lemma BlockStart(v: Word, k: nat)
    requires k <= WIDTH
    ensures Block(k) * BlockOf(v, k) <= Position(v)
  {
    PositionSplit(v, k);
  }

  lemma InBlock(v: Word, v': Word, x: Word, k0: nat)
    requires k0 <= WIDTH && v'[..k0] == v[..k0]
    requires Position(v) <= Position(x) < IntervalEnd(NextCursor(v', LowMask(k0)))
    ensures x[..k0] == v[..k0]
  {
    IntervalEndIsBlockEnd(v', k0);
    BlockStart(v, k0);
    SameBlock(x, v, k0);
  }

  // ------------------------------------------------------------------------- exactly what a call emits

  /** Two words choose the same bucket of a table just when their low bits agree. */
  lemma SameSlot(x: Word, y: Word, size: nat)
    requires PowerSize(size)
    ensures Rank(size) <= WIDTH && (Slot(x, size) == Slot(y, size) <==> x[..Rank(size)] == y[..Rank(size)])
  {
    PowerRank(size);
    SlotIsLowBits(x, Rank(size));
    SlotIsLowBits(y, Rank(size));
    if Slot(x, size) == Slot(y, size) {
      ToNatInjective(x[..Rank(size)], y[..Rank(size)]);
    }
  }

  /** The loop visits no bucket with other low bits than the cursor's. */
  lemma {:induction false} ExpansionsLow(size: nat, v: Word, k0: nat, x: Word)
    requires PowerSize(size) && k0 <= Rank(size) <= WIDTH && Slot(x, size) in Expansions(size, v, k0).0
    ensures x[..k0] == v[..k0]
    decreases Pow2(Rank(size) - k0) - Middle(v, k0, Rank(size))
  {
    hide ToNat, Pow2, Rank, NextExpansion, PowerSize, Slot, LowMask, MaskOf, And, Xor;
    PowerRank(size);
    var k1 := Rank(size);
    var v1 := NextExpansion(v, LowMask(k0));
    NextExpansionMiddle(v, k0, k1);
    NoMiddleBits(v1, k0, k1);
    if Slot(x, size) == Slot(v, size) {
      SameSlot(x, v, size);
      assert x[..k0] == x[..k1][..k0] && v[..k0] == v[..k1][..k0];
    } else {
      assert And(v1, Xor(LowMask(k0), MaskOf(size))) != ZERO;
      ExpansionsLow(size, v1, k0, x);
    }
  }

  /** A bucket holds a key just when the table does and the bucket is the key's. */
  lemma BucketHolds(h: HashFunction, t: Table, b: nat, k: Key)
    requires TableOk(h, t) && b < t.Size()
    ensures Emitted(t.buckets[b], k) <==> Lookup(h, t, k).Some? && Slot(h(k), t.Size()) == b
  {
    FindIn(t.buckets[b], k);
    if Emitted(t.buckets[b], k) {
      var i :| 0 <= i < |t.buckets[b]| && t.buckets[b][i].key == k;
      InTable(h, t, b, t.buckets[b][i]);
      assert InBucket(h, t.buckets[b], b, t.Size());
    }
  }

  lemma EmittedConcatIs(a: seq<Pair>, b: seq<Pair>, k: Key)
    ensures Emitted(a + b, k) <==> Emitted(a, k) || Emitted(b, k)
  {
    EmittedConcat(a, b, k);
    if Emitted(a + b, k) {
      var i :| 0 <= i < |a + b| && (a + b)[i].key == k;
      if i < |a| { assert a[i].key == k; } else { assert b[i - |a|].key == k; }
    }
  }

  lemma {:induction false} GatherHolds(h: HashFunction, t: Table, slots: seq<nat>, k: Key)
    requires TableOk(h, t) && t.Size() > 0
    ensures Emitted(Gather(t, slots), k) <==> Lookup(h, t, k).Some? && Slot(h(k), t.Size()) in slots
  {
    if slots != [] {
      var first, rest := if slots[0] < t.Size() then t.buckets[slots[0]] else [], Gather(t, slots[1..]);
      EmittedConcatIs(first, rest, k);
      if slots[0] < t.Size() {
        BucketHolds(h, t, slots[0], k);
      }
      GatherHolds(h, t, slots[1..], k);
      hide Lookup, Slot, TableOk;
      assert slots == [slots[0]] + slots[1..];
    }
  }

  /** The key has the cursor's low bits, and is in the smaller table or not before the cursor in the larger one. */
  ghost predicate InReach(h: HashFunction, s: State, v: Word, k: Key) {
    var k0, k1 := Rank(Smaller(s).Size()), Rank(Larger(s).Size());
    && k0 <= k1 <= WIDTH && h(k)[..k0] == v[..k0]
    && (Lookup(h, Smaller(s), k).Some? || Middle(h(k), k0, k1) >= Middle(v, k0, k1))
  }

  /** Of the present keys a call emits exactly those in reach, whatever the tables and the cursor. */
  lemma EmittedExactlyWhen(h: HashFunction, s: State, v: Word, k: Key)
    requires Inv(h, s) && LookupBoth(h, s, k).Some?
    ensures Emitted(Scan(h, s, v).1, k) <==> InReach(h, s, v, k)
  {
    if s.Used() == 0 {
      DictRuns.NothingWhenUnused(h, s, k);
      assert false;
    }
    NonEmptyTables(h, s);
    var t0, t1 := Smaller(s), Larger(s);
    PowerRank(t0.Size());
    PowerRank(t1.Size());
    RankMonotone(t0.Size(), t1.Size());
    BucketHolds(h, t0, Slot(v, t0.Size()), k);
    SameSlot(h(k), v, t0.Size());
    if s.Rehashing() {
      LargerEmits(h, s, v, k);
    }
  }

  lemma LargerEmits(h: HashFunction, s: State, v: Word, k: Key)
    requires Inv(h, s) && s.Rehashing() && s.Used() > 0 && LookupBoth(h, s, k).Some?
    requires PowerSize(Smaller(s).Size()) && PowerSize(Larger(s).Size())
    requires Rank(Smaller(s).Size()) <= Rank(Larger(s).Size()) <= WIDTH
    ensures Emitted(Scan(h, s, v).1, k) <==>
      || Emitted(Smaller(s).buckets[Slot(v, Smaller(s).Size())], k)
      || (Lookup(h, Larger(s), k).Some? && h(k)[..Rank(Smaller(s).Size())] == v[..Rank(Smaller(s).Size())]
          && Middle(h(k), Rank(Smaller(s).Size()), Rank(Larger(s).Size())) >= Middle(v, Rank(Smaller(s).Size()), Rank(Larger(s).Size())))
  {
    var t0, t1 := Smaller(s), Larger(s);
    var k0 := Rank(t0.Size());
    var slots := Expansions(t1.Size(), v, k0).0;
    EmittedConcatIs(t0.buckets[Slot(v, t0.Size())], Gather(t1, slots), k);
    GatherHolds(h, t1, slots, k);
    if h(k)[..k0] == v[..k0] {
      ExpansionVisited(t1.Size(), v, k0, h(k));
    } else if Slot(h(k), t1.Size()) in slots {
      ExpansionsLow(t1.Size(), v, k0, h(k));
    }
  }

  /** Only present entries, with their present values, are emitted. */
  lemma CallEmitsOnlyEntries(h: HashFunction, s: State, v: Word, p: Pair)
    requires Inv(h, s) && p in Scan(h, s, v).1
    ensures LookupBoth(h, s, p.key) == Some(p.val)
  {
    NonEmptyTables(h, s);
    var t0 := Smaller(s);
    PowerRank(t0.Size());
    if p in t0.buckets[Slot(v, t0.Size())] {
      InTable(h, t0, Slot(v, t0.Size()), p);
    } else {
      PowerRank(Larger(s).Size());
      RankMonotone(t0.Size(), Larger(s).Size());
      GatherSound(Larger(s), Expansions(Larger(s).Size(), v, Rank(t0.Size())).0, p);
      var i :| 0 <= i < Larger(s).Size() && p in Larger(s).buckets[i];
      InTable(h, Larger(s), i, p);
    }
    assert Lookup(h, s.ht0, p.key).None? || Lookup(h, s.ht1, p.key).None?;
  }

  lemma InTable(h: HashFunction, t: Table, i: nat, p: Pair)
    requires TableOk(h, t) && i < t.Size() && p in t.buckets[i]
    ensures Lookup(h, t, p.key) == Some(p.val)
  {
    var j :| 0 <= j < |t.buckets[i]| && t.buckets[i][j] == p;
    FindAt(t.buckets[i], j);
  }

  lemma {:induction false} FindAt(c: Chain, j: nat)
    requires Distinct(c) && j < |c|
    ensures Find(c, c[j].key) == Some(c[j].val)
  {
    if j > 0 {
      FindAt(c[1..], j - 1);
    }
  }

  /** The size of the smaller table in force. */
  function MinSize(s: State): nat {
    if s.Rehashing() && s.ht1.Size() < s.ht0.Size() then s.ht1.Size() else s.ht0.Size()
  }

  /** No bit of the cursor at or above the smaller mask in force. */
  ghost predicate BelowMask(s: State, v: Word) {
    forall i :: Rank(MinSize(s)) <= i < WIDTH ==> !v[i]
  }

  lemma NoBitsFit(v: Word, k0: nat, k1: nat)
    requires k0 <= k1 <= WIDTH && forall i :: k0 <= i < WIDTH ==> !v[i]
    ensures OnesThenZeros(v[k0..k1])
  {
    var m := v[k0..k1];
    forall j | 0 <= j < |m| ensures !m[j] {
      assert m[j] == v[k0 + j];
    }
  }

  lemma BelowMaskFits(h: HashFunction, s: State, v: Word)
    requires Inv(h, s) && BelowMask(s, v)
    ensures Fits(s, v)
  {
    if s.Rehashing() {
      NonEmptyTables(h, s);
      PowerRank(Smaller(s).Size());
      PowerRank(Larger(s).Size());
      RankMonotone(Smaller(s).Size(), Larger(s).Size());
      NoBitsFit(v, Rank(Smaller(s).Size()), Rank(Larger(s).Size()));
    }
  }

  /** The smaller mask never decreasing is enough for the next call to find no bit above it. */
  lemma CallLeavesBelowMask(h: HashFunction, s: State, v: Word, s': State)
    requires Inv(h, s) && Inv(h, s') && MinSize(s) <= MinSize(s')
    ensures BelowMask(s', Scan(h, s, v).0)
  {
    if s.Used() == 0 {
      ZeroBits();
    } else {
      NonEmptyTables(h, s);
      var t0 := Smaller(s);
      PowerRank(t0.Size());
      RankMonotone(MinSize(s), MinSize(s'));
      if s.Rehashing() {
        PowerRank(Larger(s).Size());
        RankMonotone(t0.Size(), Larger(s).Size());
        NextCursorAligned(Expansions(Larger(s).Size(), v, Rank(t0.Size())).1, Rank(t0.Size()));
      } else {
        NextCursorAligned(v, Rank(t0.Size()));
      }
    }
  }

  // ------------------------------------------------------------------------- whole scans

  /** A scan from cursor v with operations between the calls: what is emitted, and whether it came
      back to cursor zero before the script ran out. */
  ghost function ScanRun(h: HashFunction, s: State, v: Word, script: seq<seq<DictRuns.Op>>): (seq<Pair>, bool)
    requires Inv(h, s)
    decreases |script|
  {
    var (next, out) := Scan(h, s, v);
    if next == ZERO then (out, true)
    else if script == [] then (out, false)
    else
      var s' := DictRuns.Run(h, s, script[0]).0;
      if !Inv(h, s') then (out, false)
      else
        var (rest, done) := ScanRun(h, s', next, script[1..]);
        (out + rest, done)
  }

  /** The key is in the dictionary at every call of the scan. */
  ghost predicate PresentThroughout(h: HashFunction, s: State, v: Word, script: seq<seq<DictRuns.Op>>, k: Key)
    requires Inv(h, s)
    decreases |script|
  {
    && LookupBoth(h, s, k).Some?
    && (Scan(h, s, v).0 != ZERO && script != [] ==>
        var s' := DictRuns.Run(h, s, script[0]).0;
        Inv(h, s') ==> PresentThroughout(h, s', Scan(h, s, v).0, script[1..], k))
  }

  /** Between calls the smaller table mask in force never decreases. */
  ghost predicate MaskNeverShrinks(h: HashFunction, s: State, script: seq<seq<DictRuns.Op>>)
    decreases |script|
  {
    script == [] ||
    var s' := DictRuns.Run(h, s, script[0]).0;
    MinSize(s) <= MinSize(s') && MaskNeverShrinks(h, s', script[1..])
  }

  /** Every call of the scan finds a cursor that fits the tables. */
  ghost predicate EveryCallFits(h: HashFunction, s: State, v: Word, script: seq<seq<DictRuns.Op>>)
    requires Inv(h, s)
    decreases |script|
  {
    && Fits(s, v)
    && (Scan(h, s, v).0 != ZERO && script != [] ==>
        var s' := DictRuns.Run(h, s, script[0]).0;
        Inv(h, s') ==> EveryCallFits(h, s', Scan(h, s, v).0, script[1..]))
  }

  lemma {:induction false} GrowthFits(h: HashFunction, s: State, v: Word, script: seq<seq<DictRuns.Op>>)
    requires Inv(h, s) && BelowMask(s, v) && MaskNeverShrinks(h, s, script)
    ensures EveryCallFits(h, s, v, script)
    decreases |script|
  {
    BelowMaskFits(h, s, v);
    if Scan(h, s, v).0 != ZERO && script != [] {
      var s' := DictRuns.Run(h, s, script[0]).0;
      if Inv(h, s') {
        CallLeavesBelowMask(h, s, v, s');
        GrowthFits(h, s', Scan(h, s, v).0, script[1..]);
      }
    }
  }

  lemma EmittedConcat(a: seq<Pair>, b: seq<Pair>, k: Key)
    ensures Emitted(a, k) || Emitted(b, k) ==> Emitted(a + b, k)
  {
    if Emitted(a, k) {
      var i :| 0 <= i < |a| && a[i].key == k;
      assert (a + b)[i].key == k;
    } else if Emitted(b, k) {
      var i :| 0 <= i < |b| && b[i].key == k;
      assert (a + b)[|a| + i].key == k;
    }
  }

  /** From cursor v on: every present key at or after the cursor in scan order is emitted. */
  lemma {:induction false} ScanRunCovers(h: HashFunction, s: State, v: Word, script: seq<seq<DictRuns.Op>>, k: Key)
    requires Inv(h, s) && EveryCallFits(h, s, v, script)
    requires PresentThroughout(h, s, v, script, k) && ScanRun(h, s, v, script).1
    requires Position(v) <= Position(h(k))
    ensures Emitted(ScanRun(h, s, v, script).0, k)
    decreases |script|
  {
    var (next, out) := Scan(h, s, v);
    ToNatBound(Reverse(h(k)));
    if Position(h(k)) < IntervalEnd(next) {
      CallCoversInterval(h, s, v, k);
    }
    if next != ZERO {
      var s' := DictRuns.Run(h, s, script[0]).0;
      var rest := ScanRun(h, s', next, script[1..]).0;
      if Position(h(k)) >= IntervalEnd(next) {
        ScanRunCovers(h, s', next, script[1..], k);
      }
      EmittedConcat(out, rest, k);
    }
  }

  /** A completed scan from cursor zero emits every key present from its first to its last call,
      whatever operations run in between, as long as every cursor fits the tables it is used on. */
  lemma ScanComplete(h: HashFunction, s: State, script: seq<seq<DictRuns.Op>>, k: Key)
    requires Inv(h, s) && EveryCallFits(h, s, ZERO, script)
    requires PresentThroughout(h, s, ZERO, script, k) && ScanRun(h, s, ZERO, script).1
    ensures Emitted(ScanRun(h, s, ZERO, script).0, k)
  {
    PositionZero(ZERO);
    ScanRunCovers(h, s, ZERO, script, k);
  }

  /** The same when the smaller mask never decreases from one call to the next. */
  lemma ScanCompleteUnderGrowth(h: HashFunction, s: State, script: seq<seq<DictRuns.Op>>, k: Key)
    requires Inv(h, s) && MaskNeverShrinks(h, s, script)
    requires PresentThroughout(h, s, ZERO, script, k) && ScanRun(h, s, ZERO, script).1
    ensures Emitted(ScanRun(h, s, ZERO, script).0, k)
  {
    ZeroBits();
    GrowthFits(h, s, ZERO, script);
    ScanComplete(h, s, script, k);
  }

  // ------------------------------------------------------------------------- scans by what is called

  /** Neither resizes nor removes k. */
  predicate HarmlessTo(k: Key, op: DictRuns.Op) {
    && !op.Resize? && !op.Expand?
    && !(op.Delete? && op.k == k) && !(op.Unlink? && op.k == k)
  }

  predicate AllHarmless(k: Key, ops: seq<DictRuns.Op>) {
    forall i :: 0 <= i < |ops| ==> HarmlessTo(k, ops[i])
  }

  lemma ExpandIfNeededMinSize(h: HashFunction, s: State)
    requires Inv(h, s) && s.Used() <= DictRuns.MAX_KEYS
    ensures MinSize(s) <= MinSize(ExpandIfNeeded(s).0)
  {
    if !s.Rehashing() && s.ht0.used >= s.ht0.Size() {
      DictRuns.NextPowerOk(s.ht0.used * 2);
    }
  }

  lemma RehashMinSize(h: HashFunction, s: State, n: int)
    requires Inv(h, s)
    ensures MinSize(s) <= MinSize(DictModel.Rehash(h, s, n).0)
  {
    RehashOk(h, s, n);
  }

  lemma AddRawMinSize(h: HashFunction, s: State, p: Pair)
    requires Inv(h, s) && s.Used() < DictRuns.MAX_KEYS
    ensures MinSize(s) <= MinSize(AddRaw(h, s, p).0)
  {
    RehashStepOk(h, s);
    RehashMinSize(h, s, 1);
    ExpandIfNeededMinSize(h, RehashStep(h, s));
  }

  lemma RehashStepMinSize(h: HashFunction, s: State)
    requires Inv(h, s)
    ensures MinSize(s) <= MinSize(RehashStep(h, s))
  {
    RehashMinSize(h, s, 1);
    hide RehashLoop;
  }

  lemma LookupMinSize(h: HashFunction, s: State, k: Key)
    requires Inv(h, s)
    ensures MinSize(s) <= MinSize(DictModel.Delete(h, s, k).0)
    ensures MinSize(s) <= MinSize(FindOp(h, s, k).0)
  {
    assert Shaped(s);
    hide Inv, Lookup, LookupBoth, RehashStep, DictModel.Unlink, Bucket;
    RehashStepMinSize(h, s);
  }

  lemma StepMinSize(h: HashFunction, s: State, op: DictRuns.Op)
    requires Inv(h, s) && DictRuns.WithinBounds(s, op) && !op.Resize? && !op.Expand?
    ensures MinSize(s) <= MinSize(DictRuns.Step(h, s, op).0)
  {
    match op
    case Add(k, v) => AddRawMinSize(h, s, Pair(k, v));
    case Replace(k, v) =>
      AddRawMinSize(h, s, Pair(k, v));
      DictRuns.SetExistingKeepsSizes(h, AddRaw(h, s, Pair(k, v)).0, Pair(k, v));
    case Delete(k) => LookupMinSize(h, s, k);
    case Unlink(k) => LookupMinSize(h, s, k);
    case Find(k) => LookupMinSize(h, s, k);
    case Rehash(n) => RehashMinSize(h, s, n);
    case _ =>
  }

  lemma {:induction false} RunMinSize(h: HashFunction, s: State, m: map<Key, Value>, ops: seq<DictRuns.Op>, k: Key)
    requires Inv(h, s) && DictRuns.Holds(h, s, m) && AllHarmless(k, ops) && DictRuns.StaysBounded(m, ops) && k in m
    ensures MinSize(s) <= MinSize(DictRuns.Run(h, s, ops).0) && k in DictRuns.MapRun(m, ops).0
    decreases |ops|
  {
    if ops != [] {
      assert HarmlessTo(k, ops[0]);
      DictRuns.StepRefinesMap(h, s, m, ops[0]);
      StepMinSize(h, s, ops[0]);
      RunMinSize(h, DictRuns.Step(h, s, ops[0]).0, DictRuns.MapStep(m, ops[0]).0, ops[1..], k);
    }
  }

  /** Every operation between the calls is called within the size bound. */
  predicate ScriptBounded(m: map<Key, Value>, script: seq<seq<DictRuns.Op>>)
    decreases |script|
  {
    script == [] || (DictRuns.StaysBounded(m, script[0]) && ScriptBounded(DictRuns.MapRun(m, script[0]).0, script[1..]))
  }

  lemma {:induction false} HarmlessScript(h: HashFunction, s: State, m: map<Key, Value>, v: Word, script: seq<seq<DictRuns.Op>>, k: Key)
    requires Inv(h, s) && DictRuns.Holds(h, s, m) && k in m && ScriptBounded(m, script)
    requires forall i :: 0 <= i < |script| ==> AllHarmless(k, script[i])
    ensures MaskNeverShrinks(h, s, script) && PresentThroughout(h, s, v, script, k)
    decreases |script|
  {
    assert LookupBoth(h, s, k) == DictRuns.Get(m, k);
    if script != [] {
      assert AllHarmless(k, script[0]);
      DictRuns.RunRefinesMap(h, s, m, script[0]);
      RunMinSize(h, s, m, script[0], k);
      var s', m' := DictRuns.Run(h, s, script[0]).0, DictRuns.MapRun(m, script[0]).0;
      HarmlessScript(h, s', m', Scan(h, s, v).0, script[1..], k);
    }
  }

  /** A scan interleaved with any additions, replacements, lookups, rehash steps and deletions of other keys
      emits k, when k is in the dictionary at the start and the scan runs until cursor zero comes back. */
  lemma ScanNeverMisses(h: HashFunction, s: State, m: map<Key, Value>, script: seq<seq<DictRuns.Op>>, k: Key)
    requires Inv(h, s) && DictRuns.Holds(h, s, m) && k in m && ScriptBounded(m, script)
    requires forall i :: 0 <= i < |script| ==> AllHarmless(k, script[i])
    requires ScanRun(h, s, ZERO, script).1
    ensures Emitted(ScanRun(h, s, ZERO, script).0, k)
  {
    HarmlessScript(h, s, m, ZERO, script, k);
    ScanCompleteUnderGrowth(h, s, script, k);
  }

  // ------------------------------------------------------------------------- stationary tables

  /** The cursor after n calls on tables that do not change. */
  ghost function CursorAfter(h: HashFunction, s: State, n: nat): Word
    requires Inv(h, s)
  {
    if n == 0 then ZERO else Scan(h, s, CursorAfter(h, s, n - 1)).0
  }

  lemma {:induction false} StationaryCursor(h: HashFunction, s: State, n: nat)
    requires Inv(h, s) && s.Used() > 0
    ensures PowerSize(MinSize(s))
    ensures var k := Rank(MinSize(s));
      && 2 <= k <= 31
      && (n < Pow2(k) ==> Position(CursorAfter(h, s, n)) == Block(k) * n && BelowMask(s, CursorAfter(h, s, n)))
      && (n == Pow2(k) ==> CursorAfter(h, s, n) == ZERO)
  {
    NonEmptyTables(h, s);
    hide ToNat, Pow2, Inv, FromNat, PowerSize, Rank, NextCursor, Expansions, LowMask, MaskOf, BlockOf, Block;
    PowerRank(MinSize(s));
    var k := Rank(MinSize(s));
    if n == 0 {
      PositionZero(ZERO);
      ZeroBits();
    } else if n <= Pow2(k) {
      StationaryCursor(h, s, n - 1);
      var v := CursorAfter(h, s, n - 1);
      CallLeavesBelowMask(h, s, v, s);
      StationaryBlock(v, k, n - 1);
      PositionZero(CursorAfter(h, s, n));
      if s.Rehashing() {
        PowerRank(Larger(s).Size());
        RankMonotone(Smaller(s).Size(), Larger(s).Size());
        var v' := Expansions(Larger(s).Size(), v, k).1;
        ExpansionsExactly(Larger(s).Size(), v, k);
        assert BlockOf(v', k) == BlockOf(v, k);
        StationaryNext(v', k, n - 1);
      } else {
        StationaryNext(v, k, n - 1);
      }
    }
  }

  lemma StationaryBlock(v: Word, k: nat, n: nat)
    requires k <= WIDTH && n < Pow2(k) && Position(v) == Block(k) * n
    ensures BlockOf(v, k) == n
  {
    PositionSplit(v, k);
    DivideBlock(Block(k), n, BlockOf(v, k), 0);
    SameBlock(v, v, k);
  }

  lemma StationaryNext(v: Word, k: nat, n: nat)
    requires k <= WIDTH && n < Pow2(k) && BlockOf(v, k) == n
    ensures n + 1 < Pow2(k) ==> Position(NextCursor(v, LowMask(k))) == Block(k) * (n + 1)
    ensures n + 1 == Pow2(k) ==> Position(NextCursor(v, LowMask(k))) == 0
  {
    NextCursorPosition(v, k);
    PositionSplit(v, k);
    if n + 1 < Pow2(k) && Block(k) * (n + 1) == Pow2(WIDTH) {
      CancelFactor(Block(k), n + 1, Pow2(k));
    }
  }

  /** The reversal of a bucket number, among 2^k buckets: the call that visits it. */
  function CallOf(b: nat, k: nat): nat {
    ToNat(Rev(FromNat(b, k)))
  }

  /** With unchanging tables the scan is over after exactly as many calls as the smaller table has buckets,
      and call CallOf(b), and no other, visits bucket b of it. */
  lemma StationaryScanIsPermutation(h: HashFunction, s: State, n: nat, b: nat)
    requires Inv(h, s) && s.Used() > 0 && n < MinSize(s) && b < MinSize(s)
    ensures CursorAfter(h, s, MinSize(s)) == ZERO
    ensures n > 0 ==> CursorAfter(h, s, n) != ZERO
    ensures CallOf(b, Rank(MinSize(s))) < MinSize(s)
    ensures Slot(CursorAfter(h, s, n), MinSize(s)) == b <==> n == CallOf(b, Rank(MinSize(s)))
  {
    hide ToNat, Pow2, Inv, FromNat, BelowMask, PowerSize, CursorAfter, Slot, Rank;
    StationaryCursor(h, s, n);
    PowerRank(MinSize(s));
    var k := Rank(MinSize(s));
    StationaryCursor(h, s, Pow2(k));
    var v := CursorAfter(h, s, n);
    if n > 0 {
      PositionZero(v);
      PositivePart(Block(k), n - 1);
    }
    StationaryBlock(v, k, n);
    SlotIsLowBits(v, k);
    var w := FromNat(b, k);
    ToNatFromNat(b, k);
    ToNatBound(Rev(w));
    if n == CallOf(b, k) {
      ToNatInjective(Rev(v[..k]), Rev(w));
      RevInjective(v[..k], w);
    }
    if ToNat(v[..k]) == b {
      ToNatInjective(v[..k], w);
    }
  }

  lemma AlignedExpansions(size: nat, v: Word, k0: nat, j: nat)
    requires PowerSize(size) && k0 <= Rank(size) <= WIDTH && forall i :: k0 <= i < WIDTH ==> !v[i]
    ensures var slots := Expansions(size, v, k0).0;
      && |slots| == Pow2(Rank(size) - k0)
      && (j < |slots| ==> slots[j] == Index(v, k0) + Pow2(k0) * j)
  {
    ToNatZero(v[k0..Rank(size)]);
    ExpansionsExactly(size, v, k0);
    SlotNumberIs(Index(v, k0), k0, j);
  }

  /** With a migration that stands still, call CallOf(b mod m) visits bucket b of the larger table, at place
      b / m of that call, and no other call or place does: m is the size of the smaller table. */
  lemma StationaryExpansionsArePermutation(h: HashFunction, s: State, n: nat, j: nat, b: nat)
    requires Inv(h, s) && s.Used() > 0 && s.Rehashing() && n < MinSize(s) && b < Larger(s).Size()
    ensures Rank(MinSize(s)) <= Rank(Larger(s).Size()) <= WIDTH && PowerSize(Larger(s).Size())
    ensures var slots := Expansions(Larger(s).Size(), CursorAfter(h, s, n), Rank(MinSize(s))).0;
      && |slots| * MinSize(s) == Larger(s).Size()
      && (j < |slots| && slots[j] == b <==> n == CallOf(b % MinSize(s), Rank(MinSize(s))) && j == b / MinSize(s))
  {
    NonEmptyTables(h, s);
    var m, size := MinSize(s), Larger(s).Size();
    PowerRank(m);
    PowerRank(size);
    RankMonotone(m, size);
    StationaryCursor(h, s, n);
    var v := CursorAfter(h, s, n);
    StationaryScanIsPermutation(h, s, n, b % m);
    SlotIsLowBits(v, Rank(m));
    VisitedExactly(size, v, Rank(m), m, j, b);
  }

  lemma VisitedExactly(size: nat, v: Word, k0: nat, m: nat, j: nat, b: nat)
    requires PowerSize(size) && k0 <= Rank(size) <= WIDTH && m == Pow2(k0) && b < size
    requires forall i :: k0 <= i < WIDTH ==> !v[i]
    ensures var slots := Expansions(size, v, k0).0;
      && |slots| * m == size
      && (j < |slots| && slots[j] == b <==> Index(v, k0) == b % m && j == b / m)
  {
    PowerRank(size);
    AlignedExpansions(size, v, k0, j);
    Pow2Add(Rank(size) - k0, k0);
    ToNatBound(v[..k0]);
    DivMod(b, m, Index(v, k0), j, Pow2(Rank(size) - k0));
  }

  lemma Division(b: nat, m: nat)
    requires m > 0
    ensures b == m * (b / m) + b % m
  {
  }

  lemma DivMod(b: nat, m: nat, i: nat, j: nat, n: nat)
    requires m > 0 && i < m && b < n * m
    ensures b / m < n
    ensures b == i + m * j <==> i == b % m && j == b / m
  {
    var q, r := b / m, b % m;
    Division(b, m);
    hide *;
    if q >= n {
      MulMonotone(m, n, q);
    }
    DivideBlock(m, q, j, r);
    assert m * (j + 1) == m * j + m;
  }
}
