/** A scan that a shrink overtakes: a dictionary, a script and a key that is there throughout and never emitted. */
module ScanShrink {
  import opened Words
  import opened DictModel
  import opened DictInvariant
  import opened ScanModel
  import opened ScanTheory
  import DictRuns

  /** The next cursor's low bits: the cursor's, counted up in reversed order. */
  lemma NextCursorLow(v: Word, k: nat)
    requires k <= WIDTH
    ensures NextCursor(v, LowMask(k))[..k] == ScanTheory.Rev(Increment(ScanTheory.Rev(v[..k])))
  {
    var w := Or(v, Not(LowMask(k)));
    var r := Reverse(w);
    var ones := r[..WIDTH - k];
    assert r[WIDTH - k..] == ScanTheory.Rev(v[..k]);
    assert r == ones + ScanTheory.Rev(v[..k]);
    IncrementOverOnes(ones, ScanTheory.Rev(v[..k]));
    var inc := Increment(r);
    assert Reverse(inc)[..k] == ScanTheory.Rev(inc[WIDTH - k..]);
  }

  /** Two bits: 0, 2, 1, 3 and back to 0. */
  lemma NextOfTwo(v: Word)
    ensures var c := NextCursor(v, LowMask(2));
      && (v[..2] == [false, false] ==> c[..2] == [false, true] && c != ZERO)
      && (v[..2] == [false, true] ==> c[..2] == [true, false] && c != ZERO)
      && (v[..2] == [true, false] ==> c[..2] == [true, true] && c != ZERO)
      && (v[..2] == [true, true] ==> c == ZERO)
  {
    var c := NextCursor(v, LowMask(2));
    NextCursorLow(v, 2);
    NextCursorAligned(v, 2);
    hide NextCursor, LowMask;
    assert ScanTheory.Rev([false, false]) == [false, false] && ScanTheory.Rev([true, false]) == [false, true] && ScanTheory.Rev([false, true]) == [true, false];
    assert ScanTheory.Rev([true, true]) == [true, true];
    assert Increment([false, false]) == [true, false] && Increment([true, false]) == [false, true];
    assert Increment([false, true]) == [true, true] && Increment([true, true]) == [false, false];
    ZeroBits();
    if v[..2] == [true, true] {
      assert c[0] == c[..2][0] && c[1] == c[..2][1];
      assert c == ZERO;
    } else {
      assert v[..2] == [v[0], v[1]] && ZERO[..2] == [false, false];
      assert c[..2] != ZERO[..2];
    }
  }

  /** The second cursor of a scan of 16 buckets. */
  lemma FirstOfSixteen()
    ensures var c := NextCursor(ZERO, LowMask(4)); c[..4] == [false, false, false, true] && c != ZERO
  {
    var z := [false, false, false, false];
    ZeroBits();
    assert ZERO[..4] == z;
    NextCursorLow(ZERO, 4);
    assert ScanTheory.Rev(z) == z && Increment(z) == [true, false, false, false];
    assert ScanTheory.Rev([true, false, false, false]) == [false, false, false, true];
    hide NextCursor, LowMask;
    assert NextCursor(ZERO, LowMask(4))[..4] != ZERO[..4];
  }

  /** What dictExpand to 16 buckets and one addition make of a new dictionary. */
  function Began(h: HashFunction, k: Key, val: Value): State {
    State(Push(h, EmptyTable(16), Pair(k, val)), EMPTY, -1, 0, true)
  }

  /** After dictResize: a migration to 4 buckets that has not moved anything. */
  function Shrinking(h: HashFunction, k: Key, val: Value): State {
    Began(h, k, val).(ht1 := EmptyTable(4), rehashidx := 0)
  }

  lemma SixteenEmpty(h: HashFunction, k: Key)
    ensures DictModel.Expand(INITIAL, 16) == (INITIAL.(ht0 := EmptyTable(16)), true)
    ensures LookupBoth(h, INITIAL.(ht0 := EmptyTable(16)), k) == None
  {
    assert NextPower(16) == NextPowerFrom(4, 16) == NextPowerFrom(8, 16) == NextPowerFrom(16, 16) == 16;
    assert Bucket(h, EmptyTable(16), k) == [];
  }

  lemma OneAdded(h: HashFunction, k: Key, val: Value)
    ensures Shaped(INITIAL.(ht0 := EmptyTable(16)))
    ensures AddRaw(h, INITIAL.(ht0 := EmptyTable(16)), Pair(k, val)).0 == Began(h, k, val)
  {
    SixteenEmpty(h, k);
    hide LookupBoth, Push;
  }

  lemma Reached(h: HashFunction, k: Key, val: Value)
    ensures DictRuns.Run(h, INITIAL, [DictRuns.Expand(16), DictRuns.Add(k, val)]).0 == Began(h, k, val)
    ensures Inv(h, Began(h, k, val)) && LookupBoth(h, Began(h, k, val), k) == Some(val)
  {
    var ops: seq<DictRuns.Op> := [DictRuns.Expand(16), DictRuns.Add(k, val)];
    var s1 := INITIAL.(ht0 := EmptyTable(16));
    SixteenEmpty(h, k);
    OneAdded(h, k, val);
    RunOfTwo(h, INITIAL, ops[0], ops[1]);
    DictRuns.InitialOk(h);
    hide Inv, LookupBoth, AddRaw, Began, DictModel.Expand, DictRuns.Run, EmptyTable;
    DictRuns.ExpandOk(h, INITIAL, 16);
    DictRuns.AddRawOk(h, s1, Pair(k, val));
  }

  lemma RunOfTwo(h: HashFunction, s: State, a: DictRuns.Op, b: DictRuns.Op)
    requires Shaped(s) && Shaped(DictRuns.Step(h, s, a).0)
    ensures DictRuns.Run(h, s, [a, b]).0 == DictRuns.Step(h, DictRuns.Step(h, s, a).0, b).0
  {
    hide DictRuns.Step, Shaped;
    var s1 := DictRuns.Step(h, s, a).0;
    assert [a, b][1..] == [b] && [b][1..] == [];
    assert DictRuns.Run(h, s1, [b]).0 == DictRuns.Run(h, DictRuns.Step(h, s1, b).0, []).0;
  }

  lemma Resized(h: HashFunction, k: Key, val: Value)
    ensures DictRuns.Run(h, Began(h, k, val), [DictRuns.Resize]).0 == Shrinking(h, k, val)
    ensures Inv(h, Shrinking(h, k, val)) && LookupBoth(h, Shrinking(h, k, val), k) == Some(val)
    ensures Lookup(h, Shrinking(h, k, val).ht1, k) == None
  {
    var s, ops := Began(h, k, val), [DictRuns.Resize];
    Reached(h, k, val);
    assert NextPower(4) == NextPowerFrom(4, 4) == 4;
    assert DictRuns.Step(h, s, ops[0]).0 == Shrinking(h, k, val) && ops[1..] == [];
    DictRuns.ExpandOk(h, s, INITIAL_SIZE);
    assert Bucket(h, EmptyTable(4), k) == [];
  }

  lemma RankOf(b: nat)
    requires 2 <= b <= 4
    ensures b == 2 ==> Pow2(b) == 4
    ensures b == 4 ==> Pow2(b) == 16
    ensures Rank(Pow2(b)) == b && PowerSize(Pow2(b)) && MaskOf(Pow2(b)) == LowMask(b)
  {
    RankOfPower(b);
    PowerRank(Pow2(b));
    assert Pow2(2) == 4;
    assert Pow2(4) == 4 * Pow2(2);
  }

  /** The hash chooses bucket 4 of 16. */
  predicate InFour(h: HashFunction, k: Key) {
    h(k)[..4] == [false, false, true, false]
  }

  /** The first call, at 0: bucket 0 of 16, on to cursor 8. */
  lemma FirstCall(h: HashFunction, k: Key, val: Value)
    requires InFour(h, k)
    ensures var s := Began(h, k, val); Inv(h, s)
    ensures var (c, out) := Scan(h, Began(h, k, val), ZERO);
      c[..4] == [false, false, false, true] && c != ZERO && !Emitted(out, k)
  {
    hide Scan, Inv, LookupBoth, NextCursor, LowMask, Emitted, Rank, Began, InReach;
    Reached(h, k, val);
    RankOf(4);
    FirstOfSixteen();
    BeganCursor(h, k, val);
    BeganOutOfReach(h, k, val);
    EmittedExactlyWhen(h, Began(h, k, val), ZERO, k);
  }

  lemma BeganCursor(h: HashFunction, k: Key, val: Value)
    requires Inv(h, Began(h, k, val)) && PowerSize(16) && MaskOf(16) == LowMask(4)
    ensures Scan(h, Began(h, k, val), ZERO).0 == NextCursor(ZERO, LowMask(4))
  {
    hide Inv, NextCursor, PowerSize, LowMask, MaskOf, Rank, Slot;
  }

  lemma BeganOutOfReach(h: HashFunction, k: Key, val: Value)
    requires InFour(h, k) && Rank(16) == 4
    ensures !InReach(h, Began(h, k, val), ZERO, k)
  {
    hide Rank, Lookup;
    var s := Began(h, k, val);
    assert Smaller(s) == s.ht0 && s.ht0.Size() == 16;
    ZeroBits();
    assert h(k)[..4][2] && !ZERO[..4][2];
  }

  /** A call while the migration to 4 buckets stands: the key is passed over when the cursor's bits between the masks are a
      greater number, or its low bits are others. */
  lemma LaterCall(h: HashFunction, k: Key, val: Value, v: Word)
    requires InFour(h, k) && (v[..4] == [false, false, false, true] || v[..2] != [false, false])
    ensures Inv(h, Shrinking(h, k, val))
    ensures var (c, out) := Scan(h, Shrinking(h, k, val), v);
      && !Emitted(out, k)
      && (v[..2] == [false, false] ==> c[..2] == [false, true] && c != ZERO)
      && (v[..2] == [false, true] ==> c[..2] == [true, false] && c != ZERO)
      && (v[..2] == [true, false] ==> c[..2] == [true, true] && c != ZERO)
      && (v[..2] == [true, true] ==> c == ZERO)
  {
    var s := Shrinking(h, k, val);
    Resized(h, k, val);
    RankOf(2);
    RankOf(4);
    OutOfReach(h, k, val, v);
    ExpansionsExactly(16, v, 2);
    NextOfTwo(Expansions(16, v, 2).1);
    ShrinkingCursor(h, k, val, v);
    hide Scan, Inv, InReach, Shrinking, LookupBoth, NextCursor, Expansions, LowMask, Emitted;
    EmittedExactlyWhen(h, s, v, k);
  }

  lemma ShrinkingCursor(h: HashFunction, k: Key, val: Value, v: Word)
    requires Inv(h, Shrinking(h, k, val)) && PowerSize(16) && Rank(16) == 4 && Rank(4) == 2 && MaskOf(4) == LowMask(2)
    ensures Scan(h, Shrinking(h, k, val), v).0 == NextCursor(Expansions(16, v, 2).1, LowMask(2))
  {
    hide Inv, Expansions, NextCursor, Gather, PowerSize, LowMask, MaskOf, Rank, Slot;
  }

  lemma OutOfReach(h: HashFunction, k: Key, val: Value, v: Word)
    requires InFour(h, k) && (v[..4] == [false, false, false, true] || v[..2] != [false, false])
    requires Lookup(h, Shrinking(h, k, val).ht1, k) == None && Rank(16) == 4 && Rank(4) == 2
    ensures !InReach(h, Shrinking(h, k, val), v, k)
  {
    hide Rank, Lookup;
    var s := Shrinking(h, k, val);
    assert Smaller(s) == s.ht1 && Larger(s) == s.ht0 && s.ht1.Size() == 4 && s.ht0.Size() == 16;
    assert h(k)[..2] == h(k)[..4][..2] == [false, false];
    if v[..2] == [false, false] {
      assert h(k)[2..4] == h(k)[..4][2..] == [true, false] && v[2..4] == v[..4][2..] == [false, true];
      TwoBits();
    }
  }

  lemma TwoBits()
    ensures ToNat([true, false]) == 1 && ToNat([false, true]) == 2
  {
    assert [true, false][1..] == [false] && [false, true][1..] == [true] && [false][1..] == [] && [true][1..] == [];
  }

  lemma ScanStep(h: HashFunction, s: State, v: Word, script: seq<seq<DictRuns.Op>>, k: Key)
    requires Inv(h, s) && LookupBoth(h, s, k).Some? && Scan(h, s, v).0 != ZERO && script != []
    requires var s' := DictRuns.Run(h, s, script[0]).0; var c := Scan(h, s, v).0;
      && Inv(h, s') && PresentThroughout(h, s', c, script[1..], k) && ScanRun(h, s', c, script[1..]).1
      && !Emitted(Scan(h, s, v).1, k) && !Emitted(ScanRun(h, s', c, script[1..]).0, k)
    ensures PresentThroughout(h, s, v, script, k) && ScanRun(h, s, v, script).1 && !Emitted(ScanRun(h, s, v, script).0, k)
  {
    var s', c := DictRuns.Run(h, s, script[0]).0, Scan(h, s, v).0;
    EmittedConcatIs(Scan(h, s, v).1, ScanRun(h, s', c, script[1..]).0, k);
    hide Scan, Inv;
  }

  /** The calls after the resize, with nothing between them, until the cursor is back at 0. */
  lemma {:induction false} LaterCalls(h: HashFunction, k: Key, val: Value, v: Word, n: nat)
    requires InFour(h, k) && n <= 3
    requires n == 3 ==> v[..4] == [false, false, false, true]
    requires n == 2 ==> v[..2] == [false, true]
    requires n == 1 ==> v[..2] == [true, false]
    requires n == 0 ==> v[..2] == [true, true]
    ensures Inv(h, Shrinking(h, k, val))
    ensures var s, script := Shrinking(h, k, val), Nothing(n);
      PresentThroughout(h, s, v, script, k) && ScanRun(h, s, v, script).1 && !Emitted(ScanRun(h, s, v, script).0, k)
    decreases n
  {
    hide Scan, Inv, Shrinking, LookupBoth, Emitted, InFour;
    var s := Shrinking(h, k, val);
    if n == 3 {
      assert v[..2] == v[..4][..2];
    }
    Resized(h, k, val);
    LaterCall(h, k, val, v);
    if n == 0 {
      ScanEnds(h, s, v, k);
      return;
    }
    assert DictRuns.Run(h, s, []).0 == s && Nothing(n)[0] == [] && Nothing(n)[1..] == Nothing(n - 1);
    hide Nothing, ScanRun, PresentThroughout, DictRuns.Run;
    LaterCalls(h, k, val, Scan(h, s, v).0, n - 1);
    ScanStep(h, s, v, Nothing(n), k);
  }

  lemma ScanEnds(h: HashFunction, s: State, v: Word, k: Key)
    requires Inv(h, s) && LookupBoth(h, s, k).Some? && Scan(h, s, v).0 == ZERO && !Emitted(Scan(h, s, v).1, k)
    ensures PresentThroughout(h, s, v, Nothing(0), k) && ScanRun(h, s, v, Nothing(0)).1
    ensures !Emitted(ScanRun(h, s, v, Nothing(0)).0, k)
  {
    hide Scan, Inv, Emitted;
  }

  /** No operation between the next n calls. */
  function Nothing(n: nat): seq<seq<DictRuns.Op>> {
    if n == 0 then [] else [[]] + Nothing(n - 1)
  }

  /** dictScan's promise fails when a shrink begins between two calls: after dictExpand to 16 buckets and one addition, to
      bucket 4, dictResize after the first call makes the scan go on to its end without the key, which is never deleted. */
  lemma ShrinkMisses(h: HashFunction, k: Key, val: Value)
    requires InFour(h, k)
    ensures var s := DictRuns.Run(h, INITIAL, [DictRuns.Expand(16), DictRuns.Add(k, val)]).0;
      var script := [[DictRuns.Resize]] + Nothing(3);
      && Inv(h, s) && PresentThroughout(h, s, ZERO, script, k) && ScanRun(h, s, ZERO, script).1
      && !Emitted(ScanRun(h, s, ZERO, script).0, k)
  {
    var s, script := Began(h, k, val), [[DictRuns.Resize]] + Nothing(3);
    Reached(h, k, val);
    Resized(h, k, val);
    FirstCall(h, k, val);
    hide Scan, Inv, Shrinking, Began, LookupBoth, Emitted, Nothing, DictRuns.Run;
    assert script[0] == [DictRuns.Resize] && script[1..] == Nothing(3);
    LaterCalls(h, k, val, Scan(h, s, ZERO).0, 3);
    ScanStep(h, s, ZERO, script, k);
  }

  /** There are such hash functions. */
  lemma InFourHappens(k: Key)
    ensures InFour(x => FourWord(), k)
  {
    assert FourWord()[..4] == [false, false, true, false];
  }

  /** The word 4. */
  function FourWord(): Word {
    seq(WIDTH, i => i == 2)
  }
}
