/** dictScan on values: one call from a cursor, the entries it hands to the callback, the next cursor. */
module ScanModel {
  import opened Words
  import opened DictModel
  import opened DictInvariant

  /** The b with size == 2^b. */
  function Rank(size: nat): nat {
    if size <= 1 then 0 else 1 + Rank(size / 2)
  }

  lemma {:induction false} RankOfPower(b: nat)
    ensures Rank(Pow2(b)) == b
  {
    if b > 0 {
      RankOfPower(b - 1);
      assert Pow2(b) / 2 == Pow2(b - 1);
    }
  }

  lemma PowerRank(size: nat)
    requires PowerSize(size)
    ensures 2 <= Rank(size) <= 31 && size == Pow2(Rank(size))
    ensures MaskOf(size) == LowMask(Rank(size))
  {
    hide Rank, FromNat, LowMask, Pow2;
    var b :| 2 <= b <= 31 && size == Pow2(b);
    RankOfPower(b);
    MaskIsLowMask(b);
  }

  /** `(((v | m0) + 1) & ~m0) | (v & m0)` */
  function NextExpansion(v: Word, m0: Word): Word {
    Or(And(Increment(Or(v, m0)), Not(m0)), And(v, m0))
  }

  /** `v |= ~m0; v = rev(v); v++; v = rev(v);` */
  function NextCursor(v: Word, m0: Word): Word {
    Reverse(Increment(Reverse(Or(v, Not(m0)))))
  }

  /** The increment above the mask leaves the masked bits alone. */
  lemma NextExpansionSplit(v: Word, k: nat)
    requires k <= WIDTH
    ensures NextExpansion(v, LowMask(k)) == v[..k] + Increment(v[k..])
  {
    var o := Or(v, LowMask(k));
    assert o == o[..k] + o[k..];
    assert o[k..] == v[k..];
    IncrementOverOnes(o[..k], v[k..]);
    var inc := Increment(o);
    var z := inc[..k];
    forall i | k <= i < WIDTH ensures NextExpansion(v, LowMask(k))[i] == Increment(v[k..])[i - k] {
      assert inc[i] == Increment(v[k..])[i - k];
    }
    assert forall i :: 0 <= i < k ==> NextExpansion(v, LowMask(k))[i] == v[i];
  }

  lemma {:induction false} IncrementOverOnes(ones: seq<bool>, rest: seq<bool>)
    requires forall i :: 0 <= i < |ones| ==> ones[i]
    ensures Increment(ones + rest)[|ones|..] == Increment(rest)
    ensures forall i :: 0 <= i < |ones| ==> !Increment(ones + rest)[i]
  {
    if ones == [] {
      assert ones + rest == rest;
    } else {
      IncrementOverOnes(ones[1..], rest);
      assert (ones + rest)[1..] == ones[1..] + rest;
      var r := Increment(ones[1..] + rest);
      assert Increment(ones + rest) == [false] + r;
      assert ([false] + r)[|ones|..] == r[|ones| - 1..];
    }
  }

  /** The low bits of an increment depend only on the low bits. */
  lemma {:induction false} IncrementPrefix(w: seq<bool>, n: nat)
    requires n <= |w|
    ensures Increment(w)[..n] == Increment(w[..n])
  {
    if n > 0 {
      IncrementPrefix(w[1..], n - 1);
      assert w[..n][1..] == w[1..][..n - 1];
      if w[0] {
        assert Increment(w)[..n] == [false] + Increment(w[1..])[..n - 1];
      } else {
        assert Increment(w)[..n] == [true] + w[1..][..n - 1];
      }
    }
  }

  /** The index of a cursor's bucket in a table of 2^k buckets. */
  function Index(v: Word, k: nat): nat
    requires k <= WIDTH
  {
    ToNat(v[..k])
  }

  /** The bits of the cursor between the two masks, read as a number. */
  function Middle(v: Word, k0: nat, k1: nat): nat
    requires k0 <= k1 <= WIDTH
  {
    ToNat(v[k0..k1])
  }

  lemma NextExpansionMiddle(v: Word, k0: nat, k1: nat)
    requires k0 <= k1 <= WIDTH
    ensures var v' := NextExpansion(v, LowMask(k0));
      && v'[..k0] == v[..k0]
      && Middle(v', k0, k1) == if Middle(v, k0, k1) + 1 == Pow2(k1 - k0) then 0 else Middle(v, k0, k1) + 1
    ensures Middle(v, k0, k1) < Pow2(k1 - k0)
  {
    NextExpansionSplit(v, k0);
    IncrementPrefix(v[k0..], k1 - k0);
    var v' := NextExpansion(v, LowMask(k0));
    assert v[k0..][..k1 - k0] == v[k0..k1];
    assert v'[k0..k1] == Increment(v[k0..])[..k1 - k0];
    IncrementToNat(v[k0..k1]);
    ToNatBound(v[k0..k1]);
  }

  lemma NoMiddleBits(v: Word, k0: nat, k1: nat)
    requires k0 <= k1 <= WIDTH
    ensures And(v, Xor(LowMask(k0), LowMask(k1))) == ZERO <==> Middle(v, k0, k1) == 0
  {
    var d := And(v, Xor(LowMask(k0), LowMask(k1)));
    ToNatFromNat(0, WIDTH);
    assert Pow2(WIDTH) > 0;
    assert ToNat(ZERO) == 0;
    var z := seq(k1 - k0, i => false);
    ToNatZero(z);
    if d == ZERO {
      ZeroBits();
      forall i | 0 <= i < k1 - k0 ensures !v[k0..k1][i] {
        assert !d[k0 + i];
      }
      ToNatZero(v[k0..k1]);
    }
    if Middle(v, k0, k1) == 0 {
      ToNatInjective(v[k0..k1], z);
      forall i | 0 <= i < WIDTH ensures !d[i] {
        if k0 <= i < k1 {
          assert v[k0..k1][i - k0] == z[i - k0];
        }
      }
      ToNatZero(d);
      ToNatInjective(d, ZERO);
    }
  }

  lemma ZeroBits()
    ensures forall i :: 0 <= i < WIDTH ==> !ZERO[i]
  {
    var z: Word := LowMask(0);
    ToNatZero(z);
    ToNatFromNat(0, WIDTH);
    ToNatInjective(z, ZERO);
  }

  /** The do-while loop over the larger table, of the given size: the buckets visited, in order, and
      the cursor it leaves. */
  function Expansions(size: nat, v: Word, k0: nat): (seq<nat>, Word)
    requires PowerSize(size) && k0 <= Rank(size) <= WIDTH
    decreases Pow2(Rank(size) - k0) - Middle(v, k0, Rank(size))
  {
    PowerRank(size);
    var k1 := Rank(size);
    var v' := NextExpansion(v, LowMask(k0));
    NextExpansionMiddle(v, k0, k1);
    NoMiddleBits(v', k0, k1);
    if And(v', Xor(LowMask(k0), MaskOf(size))) == ZERO then ([Slot(v, size)], v')
    else
      var (rest, last) := Expansions(size, v', k0);
      ([Slot(v, size)] + rest, last)
  }

  /** The entries of the listed buckets, in order. */
  function Gather(t: Table, slots: seq<nat>): seq<Pair> {
    if slots == [] then []
    else (if slots[0] < t.Size() then t.buckets[slots[0]] else []) + Gather(t, slots[1..])
  }

  function Smaller(s: State): Table {
    if s.Rehashing() && s.ht0.Size() > s.ht1.Size() then s.ht1 else s.ht0
  }

  function Larger(s: State): Table {
    if s.Rehashing() && s.ht0.Size() <= s.ht1.Size() then s.ht1 else s.ht0
  }

  /** dictScan: the next cursor and the entries handed to the callback. */
  ghost function Scan(h: HashFunction, s: State, v: Word): (Word, seq<Pair>)
    requires Inv(h, s)
  {
    if s.Used() == 0 then (ZERO, [])
    else
      NonEmptyTables(h, s);
      var t0 := Smaller(s);
      PowerRank(t0.Size());
      var m0 := MaskOf(t0.Size());
      var first := t0.buckets[Slot(v, t0.Size())];
      if !s.Rehashing() then (NextCursor(v, m0), first)
      else
        PowerRank(Larger(s).Size());
        RankMonotone(t0.Size(), Larger(s).Size());
        var (slots, v') := Expansions(Larger(s).Size(), v, Rank(t0.Size()));
        (NextCursor(v', m0), first + Gather(Larger(s), slots))
  }

  lemma NonEmptyTables(h: HashFunction, s: State)
    requires Inv(h, s) && (s.Used() > 0 || s.Rehashing())
    ensures PowerSize(s.ht0.Size()) && (s.Rehashing() ==> PowerSize(s.ht1.Size()))
  {
    CountEmpty(s.ht0.buckets);
  }

  lemma RankMonotone(a: nat, b: nat)
    requires a <= b
    ensures Rank(a) <= Rank(b)
  {
    if a > 1 {
      RankMonotone(a / 2, b / 2);
    }
  }
}
