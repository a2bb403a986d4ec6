/** The 64-bit `unsigned long` of dict.c, as a sequence of bits (least significant first),
    with the operators that dictScan, rev and the bucket computation apply to it. */
module Words {

  const WIDTH: nat := 64

  type Word = w: seq<bool> | |w| == WIDTH witness FromNat(0, WIDTH)

  function Pow2(n: nat): (p: nat)
    ensures p > 0
  {
    if n == 0 then 1 else 2 * Pow2(n - 1)
  }

  /** The number a bit sequence stands for. */
  function ToNat(w: seq<bool>): nat {
    if w == [] then 0 else (if w[0] then 1 else 0) + 2 * ToNat(w[1..])
  }

  /** The n low bits of x. */
  function FromNat(x: nat, n: nat): (w: seq<bool>)
    ensures |w| == n
  {
    if n == 0 then [] else [x % 2 == 1] + FromNat(x / 2, n - 1)
  }

  const ZERO: Word := FromNat(0, WIDTH)

  function And(a: Word, b: Word): Word {
    seq(WIDTH, i requires 0 <= i < WIDTH => a[i] && b[i])
  }

  function Or(a: Word, b: Word): Word {
    seq(WIDTH, i requires 0 <= i < WIDTH => a[i] || b[i])
  }

  function Xor(a: Word, b: Word): Word {
    seq(WIDTH, i requires 0 <= i < WIDTH => a[i] != b[i])
  }

  function Not(a: Word): Word {
    seq(WIDTH, i requires 0 <= i < WIDTH => !a[i])
  }

  function ShiftLeft(a: Word, s: nat): Word {
    seq(WIDTH, i requires 0 <= i < WIDTH => i >= s && a[i - s])
  }

  function ShiftRight(a: Word, s: nat): Word {
    seq(WIDTH, i requires 0 <= i < WIDTH => i + s < WIDTH && a[i + s])
  }

  /** `v + 1` by carry propagation; the carry out of the top bit is lost. */
  function Increment(w: seq<bool>): (r: seq<bool>)
    ensures |r| == |w|
  {
    if w == [] then [] else if w[0] then [false] + Increment(w[1..]) else [true] + w[1..]
  }

  /** Bit i of the result is bit 63 - i of the argument. */
  function Reverse(w: Word): Word {
    seq(WIDTH, i requires 0 <= i < WIDTH => w[WIDTH - 1 - i])
  }

  /** The mask 2^k - 1. */
  function LowMask(k: nat): Word {
    seq(WIDTH, i requires 0 <= i < WIDTH => i < k)
  }

  lemma {:induction false} ToNatBound(w: seq<bool>)
    ensures ToNat(w) < Pow2(|w|)
  {
    if w != [] {
      ToNatBound(w[1..]);
    }
  }

  lemma {:induction false} ToNatConcat(a: seq<bool>, b: seq<bool>)
    ensures ToNat(a + b) == ToNat(a) + Pow2(|a|) * ToNat(b)
  {
    if a == [] {
      assert a + b == b;
    } else {
      ToNatConcat(a[1..], b);
      assert (a + b)[1..] == a[1..] + b;
      DoubleProduct(Pow2(|a| - 1), ToNat(b));
    }
  }

  lemma DoubleProduct(x: nat, y: nat)
    ensures (2 * x) * y == 2 * (x * y)
  {
  }

  lemma {:induction false} ToNatZero(w: seq<bool>)
    requires forall i :: 0 <= i < |w| ==> !w[i]
    ensures ToNat(w) == 0
  {
    if w != [] {
      ToNatZero(w[1..]);
    }
  }

  lemma {:induction false} ToNatOnes(w: seq<bool>)
    requires forall i :: 0 <= i < |w| ==> w[i]
    ensures ToNat(w) == Pow2(|w|) - 1
  {
    if w != [] {
      ToNatOnes(w[1..]);
    }
  }

  /** Bitwise smaller means numerically no larger. */
  lemma {:induction false} ToNatMonotone(a: seq<bool>, b: seq<bool>)
    requires |a| == |b|
    requires forall i :: 0 <= i < |a| && a[i] ==> b[i]
    ensures ToNat(a) <= ToNat(b)
  {
    if a != [] {
      forall i | 0 <= i < |a[1..]| && a[1..][i]
        ensures b[1..][i]
      {
        assert a[i + 1];
      }
      ToNatMonotone(a[1..], b[1..]);
      assert a[0] ==> b[0];
    }
  }

  lemma {:induction false} ToNatInjective(a: seq<bool>, b: seq<bool>)
    requires |a| == |b| && ToNat(a) == ToNat(b)
    ensures a == b
  {
    if a != [] {
      ToNatInjective(a[1..], b[1..]);
      assert a == [a[0]] + a[1..] && b == [b[0]] + b[1..];
    }
  }

  lemma {:induction false} FromNatToNat(w: seq<bool>)
    ensures FromNat(ToNat(w), |w|) == w
  {
    if w != [] {
      FromNatToNat(w[1..]);
      assert w == [w[0]] + w[1..];
    }
  }

  lemma {:induction false} ToNatFromNat(x: nat, n: nat)
    ensures ToNat(FromNat(x, n)) <= x
    ensures x < Pow2(n) ==> ToNat(FromNat(x, n)) == x
  {
    if n != 0 {
      ToNatFromNat(x / 2, n - 1);
      assert FromNat(x, n)[1..] == FromNat(x / 2, n - 1);
    }
  }

  lemma {:induction false} IncrementToNat(w: seq<bool>)
    ensures ToNat(Increment(w)) == if ToNat(w) + 1 == Pow2(|w|) then 0 else ToNat(w) + 1
  {
    if w != [] {
      ToNatBound(w[1..]);
      if w[0] {
        IncrementToNat(w[1..]);
        assert Increment(w)[1..] == Increment(w[1..]);
      } else {
        assert Increment(w)[1..] == w[1..];
      }
    }
  }

  lemma {:induction false} Pow2Add(a: nat, b: nat)
    ensures Pow2(a + b) == Pow2(a) * Pow2(b)
  {
    if a != 0 {
      Pow2Add(a - 1, b);
      assert Pow2(a + b) == 2 * Pow2(a - 1 + b);
      DoubleProduct(Pow2(a - 1), Pow2(b));
    }
  }

  lemma {:induction false} Pow2Monotone(a: nat, b: nat)
    requires a <= b
    ensures Pow2(a) <= Pow2(b)
    ensures a < b ==> 2 * Pow2(a) <= Pow2(b)
  {
    if a < b {
      Pow2Monotone(a, b - 1);
    }
  }

  lemma ReverseInvolution(w: Word)
    ensures Reverse(Reverse(w)) == w
  {
  }

  /** The sizemask `size - 1` of a table of size 2^k is the low-bits mask. */
  lemma MaskIsLowMask(k: nat)
    requires k <= WIDTH
    ensures FromNat(Pow2(k) - 1, WIDTH) == LowMask(k)
  {
    var lo := LowMask(k)[..k];
    var hi := LowMask(k)[k..];
    assert LowMask(k) == lo + hi;
    ToNatOnes(lo);
    ToNatZero(hi);
    ToNatConcat(lo, hi);
    FromNatToNat(LowMask(k));
  }

  // --------------------------------------------------------------- bucket computation

  /** `size - 1`, the sizemask field of a table that has buckets. */
  function MaskOf(size: nat): Word {
    if size == 0 then ZERO else FromNat(size - 1, WIDTH)
  }

  /** `hash & sizemask`, read as an index. */
  function Slot(hash: Word, size: nat): (i: nat)
    ensures size > 0 ==> i < size
  {
    SlotBound(hash, size);
    ToNat(And(hash, MaskOf(size)))
  }

  lemma SlotBound(hash: Word, size: nat)
    ensures size > 0 ==> ToNat(And(hash, MaskOf(size))) < size
  {
    if size > 0 {
      ToNatMonotone(And(hash, MaskOf(size)), MaskOf(size));
      ToNatFromNat(size - 1, WIDTH);
    }
  }

  /** In a table of 2^k buckets a hash selects its k low bits. */
  lemma SlotIsLowBits(hash: Word, k: nat)
    requires k <= WIDTH
    ensures Slot(hash, Pow2(k)) == ToNat(hash[..k])
  {
    hide ToNat, FromNat, Pow2;
    MaskIsLowMask(k);
    var w := And(hash, LowMask(k));
    assert w == w[..k] + w[k..];
    assert w[..k] == hash[..k];
    ToNatConcat(w[..k], w[k..]);
    ToNatZero(w[k..]);
  }

  /** `unsigned int h = hash`: the 32 low bits. */
  function Narrow(hash: Word): Word {
    seq(WIDTH, i requires 0 <= i < WIDTH => i < 32 && hash[i])
  }

  /** Narrowing the hash does not change the bucket while tables have at most 2^32 buckets. */
  lemma NarrowKeepsSlot(hash: Word, k: nat)
    requires k <= 32
    ensures Slot(Narrow(hash), Pow2(k)) == Slot(hash, Pow2(k))
  {
    SlotIsLowBits(hash, k);
    SlotIsLowBits(Narrow(hash), k);
    assert Narrow(hash)[..k] == hash[..k];
  }

  // --------------------------------------------------------------- rev

  /** The multiple of b at or below i. */
  function BlockStart(b: nat, i: nat): nat
    requires b > 0
    decreases i
  {
    if i < b then 0 else b + BlockStart(b, i - b)
  }

  /** Where bit i comes from once the blocks of b bits have been reversed among themselves. */
  function BlockSource(b: nat, i: nat): int
    requires b > 0
  {
    WIDTH - b + i - 2 * BlockStart(b, i)
  }

  /** Bit i is in the lower one of a pair of blocks of s bits. */
  predicate InLower(s: nat, i: nat)
    requires s > 0
  {
    BlockStart(s, i) == BlockStart(2 * s, i)
  }

  /** The bit that an exchange of neighbouring blocks of s bits brings to place i. */
  function Partner(s: nat, i: nat): int
    requires s > 0
  {
    if InLower(s, i) then i + s else i - s
  }

  predicate Multiple(b: nat, n: nat)
    requires b > 0
    decreases n
  {
    n == 0 || (n >= b && Multiple(b, n - b))
  }

  lemma {:induction false} BlockBounds(b: nat, i: nat)
    requires b > 0
    ensures BlockStart(b, i) <= i < BlockStart(b, i) + b
    decreases i
  {
    if i >= b {
      BlockBounds(b, i - b);
    }
  }

  lemma {:induction false} SameBlockStart(b: nat, i: nat, j: nat)
    requires b > 0 && BlockStart(b, i) <= j < BlockStart(b, i) + b
    ensures BlockStart(b, j) == BlockStart(b, i)
    decreases i
  {
    if i >= b {
      SameBlockStart(b, i - b, j - b);
    }
  }

  lemma {:induction false} BlockInPair(s: nat, i: nat)
    requires s > 0
    ensures BlockStart(s, i) == BlockStart(2 * s, i) || BlockStart(s, i) == BlockStart(2 * s, i) + s
    decreases i
  {
    if i >= 2 * s {
      assert BlockStart(s, i) == s + BlockStart(s, i - s) == s + s + BlockStart(s, i - s - s);
      BlockInPair(s, i - 2 * s);
    }
  }

  lemma {:induction false} BlockFits(b: nat, i: nat, n: nat)
    requires b > 0 && Multiple(b, n) && i < n
    ensures BlockStart(b, i) + b <= n
    decreases i
  {
    if i >= b {
      BlockFits(b, i - b, n - b);
    }
  }

  lemma {:induction false} MultipleHalf(s: nat, n: nat)
    requires s > 0 && Multiple(2 * s, n)
    ensures Multiple(s, n)
    decreases n
  {
    if n > 0 {
      MultipleHalf(s, n - 2 * s);
      assert Multiple(s, n - s);
    }
  }

  /** One round: from blocks of 2s reversed among themselves to blocks of s. */
  lemma RoundSource(s: nat, i: nat)
    requires s > 0 && i < WIDTH && Multiple(2 * s, WIDTH)
    ensures 0 <= Partner(s, i) < WIDTH && BlockSource(2 * s, Partner(s, i)) == BlockSource(s, i)
    ensures 0 <= BlockSource(s, i) < WIDTH
  {
    BlockInPair(s, i);
    BlockBounds(s, i);
    BlockBounds(2 * s, i);
    BlockFits(2 * s, i, WIDTH);
    SameBlockStart(2 * s, i, Partner(s, i));
  }

  /** The mask of the lower blocks of s from that of the lower blocks of 2s. */
  lemma RoundMask(s: nat, i: nat)
    requires s > 0
    ensures InLower(s, i) <==> (InLower(2 * s, i) != (i >= s && InLower(2 * s, i - s)))
  {
    BlockInPair(s, i);
    BlockInPair(2 * s, i);
    BlockBounds(s, i);
    BlockBounds(2 * s, i);
    BlockBounds(4 * s, i);
    assert 2 * (2 * s) == 4 * s;
    if i >= s {
      if InLower(s, i) {
        SameBlockStart(2 * s, i - 2 * s, i - s);
        if InLower(2 * s, i) {
          SameBlockStart(4 * s, i - 4 * s, i - s);
        } else {
          SameBlockStart(4 * s, i, i - s);
        }
      } else {
        SameBlockStart(2 * s, i, i - s);
        SameBlockStart(4 * s, i, i - s);
      }
    }
  }

  ghost predicate BlocksReversed(b: nat, v0: Word, v: Word)
    requires b > 0
  {
    forall i {:trigger v[i]} :: 0 <= i < WIDTH ==> 0 <= BlockSource(b, i) < WIDTH && v[i] == v0[BlockSource(b, i)]
  }

  ghost predicate MaskOfLower(b: nat, mask: Word)
    requires b > 0
  {
    forall i {:trigger mask[i]} :: 0 <= i < WIDTH ==> mask[i] == InLower(b, i)
  }

  lemma RoundKeeps(s: nat, v0: Word, v: Word, mask: Word, v': Word, mask': Word)
    requires s > 0 && Multiple(2 * s, WIDTH) && BlocksReversed(2 * s, v0, v) && MaskOfLower(2 * s, mask)
    requires mask' == Xor(mask, ShiftLeft(mask, s))
    requires v' == Or(And(ShiftRight(v, s), mask'), And(ShiftLeft(v, s), Not(mask')))
    ensures BlocksReversed(s, v0, v') && MaskOfLower(s, mask') && Multiple(s, WIDTH)
  {
    hide BlockSource, InLower, BlockStart, Multiple;
    MultipleHalf(s, WIDTH);
    forall i | 0 <= i < WIDTH
      ensures mask'[i] == InLower(s, i)
    {
      RoundMask(s, i);
      if i >= s {
        assert mask[i - s] == InLower(2 * s, i - s);
      }
    }
    forall i | 0 <= i < WIDTH
      ensures 0 <= BlockSource(s, i) < WIDTH && v'[i] == v0[BlockSource(s, i)]
    {
      RoundSource(s, i);
      assert v[Partner(s, i)] == v0[BlockSource(2 * s, Partner(s, i))];
    }
  }

  /** The parallel algorithm of rev: six rounds of masked exchanges reverse the 64 bits. */
  method Rev(v0: Word) returns (v: Word)
    ensures v == Reverse(v0)
  {
    v := v0;
    var s: nat := WIDTH / 2;
    var mask := LowMask(WIDTH);
    BeforeRounds(v0, mask);
    hide BlocksReversed, MaskOfLower, Multiple;
    while s > 0
      invariant s == 32 || s == 16 || s == 8 || s == 4 || s == 2 || s == 1 || s == 0
      invariant s > 0 ==> BlocksReversed(2 * s, v0, v) && MaskOfLower(2 * s, mask) && Multiple(2 * s, WIDTH)
      invariant s == 0 ==> BlocksReversed(1, v0, v)
    {
      var mask' := Xor(mask, ShiftLeft(mask, s));
      var v' := Or(And(ShiftRight(v, s), mask'), And(ShiftLeft(v, s), Not(mask')));
      RoundKeeps(s, v0, v, mask, v', mask');
      mask, v := mask', v';
      s := s / 2;
    }
    AllRounds(v0, v);
  }

  lemma BeforeRounds(v: Word, mask: Word)
    requires mask == LowMask(WIDTH)
    ensures BlocksReversed(64, v, v) && MaskOfLower(64, mask) && Multiple(64, WIDTH)
  {
    assert Multiple(64, 0);
    forall i | 0 <= i < WIDTH ensures BlockSource(64, i) == i && InLower(64, i) {
      assert BlockStart(64, i) == 0 && BlockStart(128, i) == 0;
    }
  }

  lemma AllRounds(v0: Word, v: Word)
    requires BlocksReversed(1, v0, v)
    ensures v == Reverse(v0)
  {
    forall i | 0 <= i < WIDTH ensures v[i] == Reverse(v0)[i] {
      BlockBounds(1, i);
    }
  }
}
