/** printbuffer: the shared buffer that the printers grow, with its ensure and update protocol. */
module JsonBuffer {
  import opened JsonText
  import Words

  /** Texts beyond this would overflow the int arithmetic of ensure and pow2gt. */
  const MAX: nat := 0x4000_0000

  // ------------------------------------------------------------------------- pow2gt

  /** A non-negative int as a word. */
  function Bits(x: nat): Words.Word {
    Words.FromNat(x, Words.WIDTH)
  }

  /** `x |= x >> n` */
  function Smear(x: Words.Word, n: nat): Words.Word {
    Words.Or(x, Words.ShiftRight(x, n))
  }

  /** Bit i of b is set when one of the n bits of a from i on is. */
  ghost predicate Smeared(a: Words.Word, b: Words.Word, n: nat) {
    forall i :: 0 <= i < Words.WIDTH ==> (b[i] <==> exists j :: i <= j < i + n && j < Words.WIDTH && a[j])
  }

  lemma SmearTwice(a: Words.Word, b: Words.Word, n: nat, m: nat)
    requires Smeared(a, b, n) && m == n + n
    ensures Smeared(a, Smear(b, n), m)
  {
    var c := Smear(b, n);
    forall i | 0 <= i < Words.WIDTH
      ensures c[i] <==> exists j :: i <= j < i + m && j < Words.WIDTH && a[j]
    {
      assert c[i] <==> b[i] || (i + n < Words.WIDTH && b[i + n]);
      if j :| i <= j < i + m && j < Words.WIDTH && a[j] {
        assert j < i + n || (i + n <= j < i + n + n);
      }
    }
  }

  /** A word whose bits are set below k and nowhere else. */
  lemma OnesBelow(b: Words.Word, k: nat)
    requires k < Words.WIDTH && forall i :: 0 <= i < Words.WIDTH ==> (b[i] <==> i < k)
    ensures Words.ToNat(b) + 1 == Words.Pow2(k)
  {
    var low, high := b[..k], b[k..];
    assert b == low + high;
    hide Words.ToNat, Words.Pow2;
    Words.ToNatOnes(low);
    Words.ToNatZero(high);
    Words.ToNatConcat(low, high);
    assert Words.Pow2(k) * 0 == 0;
  }

  /** A number lies between the power of its highest bit and the next. */
  lemma HighestBit(a: Words.Word, k: nat)
    requires k < Words.WIDTH && a[k] && forall i :: k < i < Words.WIDTH ==> !a[i]
    ensures Words.Pow2(k) <= Words.ToNat(a) < Words.Pow2(k + 1)
  {
    var low, high := a[..k], a[k..];
    assert a == low + high;
    assert high == [true] + high[1..];
    Words.ToNatConcat(low, high);
    Words.ToNatZero(high[1..]);
    Words.ToNatBound(low);
    assert Words.ToNat(high) == 1;
    assert Words.Pow2(k) * 1 == Words.Pow2(k);
  }

  lemma SmallHasNoHighBits(x: nat, i: nat)
    requires x < Words.Pow2(31) && 31 <= i < Words.WIDTH
    ensures !Bits(x)[i]
  {
    Words.FromNatToNat(Words.FromNat(x, 31) + seq(33, j => false));
    var a := Words.FromNat(x, 31) + seq(33, j => false);
    Words.ToNatConcat(Words.FromNat(x, 31), seq(33, j => false));
    Words.ToNatZero(seq(33, j => false));
    Words.ToNatFromNat(x, 31);
    assert Words.Pow2(31) * 0 == 0;
    assert Words.ToNat(a) == x;
  }

  /** The highest set bit below n, or -1. */
  lemma {:induction false} TopBit(a: Words.Word, n: nat) returns (k: int)
    requires n <= Words.WIDTH
    ensures -1 <= k < n && (k >= 0 ==> a[k]) && forall i :: k < i < n ==> !a[i]
  {
    if n == 0 {
      k := -1;
    } else if a[n - 1] {
      k := n - 1;
    } else {
      k := TopBit(a, n - 1);
    }
  }

  lemma TopBitOf(x: nat) returns (k: int)
    requires x < MAX
    ensures var a := Bits(x);
      -1 <= k < 31 && (k >= 0 ==> a[k]) && (forall i :: k < i < Words.WIDTH ==> !a[i]) && Words.ToNat(a) == x
  {
    Pow2Of31();
    Words.Pow2Monotone(31, Words.WIDTH);
    Words.ToNatFromNat(x, Words.WIDTH);
    hide Words.ToNat, Words.FromNat, Words.Pow2, Bits;
    k := TopBit(Bits(x), Words.WIDTH);
    if k >= 31 {
      SmallHasNoHighBits(x, k);
    }
  }

  /** The five shifts of pow2gt. */
  function SmearAll(a: Words.Word): Words.Word {
    Smear(Smear(Smear(Smear(Smear(a, 1), 2), 4), 8), 16)
  }

  lemma SmearAllSmears(a: Words.Word)
    ensures Smeared(a, SmearAll(a), 32)
  {
    SmearNone(a);
    hide Smear, Smeared;
    SmearTwice(a, a, 1, 2);
    SmearTwice(a, Smear(a, 1), 2, 4);
    SmearTwice(a, Smear(Smear(a, 1), 2), 4, 8);
    SmearTwice(a, Smear(Smear(Smear(a, 1), 2), 4), 8, 16);
    SmearTwice(a, Smear(Smear(Smear(Smear(a, 1), 2), 4), 8), 16, 32);
  }

  lemma SmearedAll(x: nat)
    requires 1 <= x <= MAX
    ensures var r := Words.ToNat(SmearAll(Bits(x - 1))) + 1;
      IsPow2(r) && x <= r < 2 * x
  {
    hide SmearAll, Bits, Words.ToNat, Words.Pow2, Smeared;
    var a := Bits(x - 1);
    SmearAllSmears(a);
    var k := TopBitOf(x - 1);
    SmearedBelow(a, SmearAll(a), k);
    OnesBelow(SmearAll(a), k + 1);
    if k >= 0 {
      HighestBit(a, k);
      PowStep(k);
    } else {
      Words.ToNatZero(a);
      PowStep(0);
    }
  }

  lemma PowStep(k: nat)
    ensures Words.Pow2(k + 1) == 2 * Words.Pow2(k) && Words.Pow2(0) == 1
  {
  }

  lemma SmearedBelow(a: Words.Word, b: Words.Word, k: int)
    requires -1 <= k < 31 && (k >= 0 ==> a[k]) && (forall i :: k < i < Words.WIDTH ==> !a[i]) && Smeared(a, b, 32)
    ensures forall i :: 0 <= i < Words.WIDTH ==> (b[i] <==> i < k + 1)
  {
    forall i | 0 <= i < Words.WIDTH
      ensures b[i] <==> i < k + 1
    {
      if i <= k {
        assert i <= k < i + 32 && a[k];
      }
    }
  }

  lemma Pow2Of31()
    ensures Words.Pow2(31) == 0x8000_0000
  {
    assert Words.Pow2(8) == 0x100;
    assert Words.Pow2(16) == Words.Pow2(8) * 0x100 by { Words.Pow2Add(8, 8); }
    assert Words.Pow2(24) == Words.Pow2(16) * 0x100 by { Words.Pow2Add(16, 8); }
    assert Words.Pow2(7) == 0x80;
    assert Words.Pow2(31) == Words.Pow2(24) * 0x80 by { Words.Pow2Add(24, 7); }
  }

  ghost predicate IsPow2(x: nat) {
    exists k: nat :: x == Words.Pow2(k)
  }

  lemma SmearNone(a: Words.Word)
    ensures Smeared(a, a, 1)
  {
    forall i | 0 <= i < Words.WIDTH
      ensures a[i] <==> exists j :: i <= j < i + 1 && j < Words.WIDTH && a[j]
    {
      if a[i] {
        assert i <= i < i + 1;
      }
    }
  }

  /** pow2gt: the least power of two that is at least x. */
  method Pow2Gt(x: nat) returns (r: nat)
    requires 1 <= x <= MAX
    ensures IsPow2(r) && x <= r < 2 * x
  {
    var b := Bits(x - 1);
    b := Smear(b, 1);
    b := Smear(b, 2);
    b := Smear(b, 4);
    b := Smear(b, 8);
    b := Smear(b, 16);
    SmearedAll(x);
    r := Words.ToNat(b) + 1;
  }

  // ------------------------------------------------------------------------- writing

  /** The first bytes of an array are w. */
  ghost predicate Filled(out: array<Byte>, w: Bytes)
    reads out
  {
    |w| <= out.Length && out[..|w|] == w
  }

  /** `*ptr++ = c` */
  method WriteByte(out: array<Byte>, at: nat, c: Byte, ghost w: Bytes) returns (end: nat)
    requires Filled(out, w) && at == |w| < out.Length
    modifies out
    ensures end == at + 1 && Filled(out, w + [c])
  {
    out[at] := c;
    end := at + 1;
    assert out[..end] == w + [c];
  }

  /** memcpy of the bytes s. */
  method WriteBytes(out: array<Byte>, at: nat, s: Bytes, ghost w: Bytes) returns (end: nat)
    requires Filled(out, w) && at == |w| && at + |s| <= out.Length
    modifies out
    ensures end == at + |s| && Filled(out, w + s)
  {
    end := at;
    while end < at + |s|
      invariant at <= end <= at + |s| && Filled(out, w + s[..end - at])
    {
      ghost var u := w + s[..end - at];
      end := WriteByte(out, end, s[end - at], u);
      assert w + s[..end - at] == u + [s[end - 1 - at]];
    }
    assert s[..|s|] == s;
  }

  lemma {:induction false} TabsAppend(n: nat)
    ensures Tabs(n) + [TAB] == Tabs(n + 1)
  {
    if n > 0 {
      TabsAppend(n - 1);
      assert Tabs(n) + [TAB] == [TAB] + (Tabs(n - 1) + [TAB]);
    } else {
      assert Tabs(1) == [TAB] + Tabs(0);
    }
  }

  /** The tabs of a line. */
  method WriteTabs(out: array<Byte>, at: nat, n: int, ghost w: Bytes) returns (end: nat)
    requires Filled(out, w) && at == |w| && at + |Tabs(n)| <= out.Length
    modifies out
    ensures end == at + |Tabs(n)| && Filled(out, w + Tabs(n))
  {
    end := at;
    var j := 0;
    assert w + [] == w;
    while j < n
      invariant 0 <= j && (j <= n || j == 0) && end == at + j && Filled(out, w + Tabs(j))
    {
      TabsAppend(j);
      ghost var u := w + Tabs(j);
      end := WriteByte(out, end, TAB, u);
      assert u + [TAB] == w + Tabs(j + 1);
      j := j + 1;
    }
    assert Tabs(n) == Tabs(j);
  }

  // ------------------------------------------------------------------------- printbuffer

  class PrintBuffer {
    var buffer: array<Byte>
    var length: nat
    var offset: nat

    ghost predicate Valid()
      reads this
    {
      length == buffer.Length && offset <= length
    }

    /** The buffer holds w, and the next byte goes after it. */
    ghost predicate Has(w: Bytes)
      reads this, buffer
    {
      Valid() && offset == |w| && buffer[..offset] == w
    }

    /** The buffer holds w and after it the string s, whose NUL it also holds; the offset is not beyond that NUL. */
    ghost predicate HasText(w: Bytes, s: Bytes)
      reads this, buffer
    {
      Valid() && |w| <= offset <= |w| + |s| < length && buffer[..|w| + |s|] == w + s && buffer[|w| + |s|] == 0
    }

    /** cJSON_PrintBuffered: malloc(prebuffer) */
    constructor (prebuffer: nat)
      ensures Has([]) && fresh(buffer) && length == prebuffer
    {
      buffer := new Byte[prebuffer];
      length := prebuffer;
      offset := 0;
    }

    /** ensure: room for `needed` more bytes, what was there is still there. A buffer that is replaced grows to the
        least power of two that is enough. */
    method Ensure(needed: nat)
      requires Valid() && 1 <= offset + needed <= MAX
      modifies this
      ensures Valid() && offset == old(offset) && offset + needed <= length
      ensures buffer == old(buffer) || fresh(buffer)
      ensures old(length) <= length && buffer[..old(length)] == old(buffer[..length])
      ensures length != old(length) ==> IsPow2(length) && old(length) < length && length < 2 * (offset + needed)
    {
      var total := needed + offset;
      if total <= length { return; }
      var newsize := Pow2Gt(total);
      var newbuffer := new Byte[newsize];
      forall k | 0 <= k < length {
        newbuffer[k] := buffer[k];
      }
      length := newsize;
      buffer := newbuffer;
    }

    /** update: where the string at the offset ends. */
    method Update(ghost w: Bytes, ghost s: Bytes) returns (end: nat)
      requires HasText(w, s) && NulFree(s)
      ensures end == |w| + |s|
    {
      end := offset;
      while buffer[end] != 0
        invariant offset <= end <= |w| + |s|
        decreases |w| + |s| - end
      {
        end := end + 1;
      }
    }

    /** ensure(needed), s written at the offset, with a NUL if that many bytes were asked for, offset += |s|. */
    method Put(s: Bytes, needed: nat, ghost w: Bytes)
      requires Has(w) && |s| <= needed && 1 <= |w| + needed <= MAX
      modifies this, buffer
      ensures Has(w + s) && (buffer == old(buffer) || fresh(buffer))
    {
      Ensure(needed);
      assert buffer[..offset] == w;
      var end := WriteBytes(buffer, offset, s, w);
      if |s| < needed {
        buffer[end] := 0;
      }
      offset := end;
    }

    /** The tabs before a member. */
    method PutTabs(n: nat, ghost w: Bytes)
      requires Has(w) && 1 <= |w| + n <= MAX
      modifies this, buffer
      ensures Has(w + Tabs(n)) && (buffer == old(buffer) || fresh(buffer))
    {
      Ensure(n);
      assert buffer[..offset] == w;
      var end := WriteTabs(buffer, offset, n, w);
      offset := end;
    }

    /** ensure(needed), then strcpy(s) to the offset, which stays. */
    method PutText(s: Bytes, needed: nat, ghost w: Bytes)
      requires Has(w) && |s| < needed && |w| + needed <= MAX
      modifies this, buffer
      ensures HasText(w, s) && (buffer == old(buffer) || fresh(buffer))
    {
      Ensure(needed);
      assert buffer[..offset] == w;
      var end := WriteBytes(buffer, offset, s, w);
      buffer[end] := 0;
      assert buffer[..end] == w + s;
    }

    /** `p->offset = update(p)` */
    method Advance(ghost w: Bytes, ghost s: Bytes)
      requires HasText(w, s) && NulFree(s)
      modifies this
      ensures Has(w + s) && buffer == old(buffer)
    {
      offset := Update(w, s);
    }
  }
}
