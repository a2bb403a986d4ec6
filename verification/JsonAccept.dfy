/** Every text of the grammar is parsed, to what it means. */
module JsonAccept {
  import opened JsonText
  import opened JsonParse
  import opened JsonRoundTrip
  import opened JsonString
  import opened JsonSyntax

  // ------------------------------------------------------------------------- numerals

  lemma PowZero()
    ensures Pow10(0) == 1.0
  {
  }

  lemma PowNext(a: int)
    ensures Pow10(a + 1) == 10.0 * Pow10(a)
  {
  }

  lemma TenTimes(x: real, y: real)
    ensures 10.0 * (x * y) == x * (10.0 * y)
  {
  }

  lemma {:induction false} PowSum(a: int, b: int)
    ensures Pow10(a + b) == Pow10(a) * Pow10(b)
    decreases if b < 0 then -b else b
  {
    hide Pow10;
    PowZero();
    if b > 0 {
      PowSum(a, b - 1);
      PowNext(a + b - 1);
      PowNext(b - 1);
      TenTimes(Pow10(a), Pow10(b - 1));
    } else if b < 0 {
      PowSum(a, b + 1);
      PowNext(a + b);
      PowNext(b);
      TenTimes(Pow10(a), Pow10(b));
    }
  }

  /** n with the digits of d appended. */
  function Extended(n: real, d: Bytes): real {
    n * Pow10(|d|) + DigitsValue(d) as real
  }

  lemma {:induction false} AccumulateValue(n: real, d: Bytes)
    ensures Accumulate(n, d) == Extended(n, d)
    decreases |d|
  {
    hide *;
    if d == [] {
      AccumulateNothing(n);
    } else {
      var front, last := d[..|d| - 1], d[|d| - 1];
      LastDigit(d);
      FrontLast(d);
      AccumulateAppend(n, front, last);
      AccumulateValue(n, front);
      PowNext(|front|);
      TimesTen(n, Pow10(|front|), DigitsValue(front), last as int - 48);
      ExtendedParts(n, front);
      ExtendedParts(n, d);
    }
  }

  lemma AccumulateNothing(n: real)
    ensures Accumulate(n, []) == n == Extended(n, [])
  {
  }

  lemma LastDigit(d: Bytes)
    requires d != []
    ensures DigitsValue(d) == DigitsValue(d[..|d| - 1]) * 10 + (d[|d| - 1] as int - 48)
  {
  }

  lemma FrontLast(d: Bytes)
    requires d != []
    ensures d == d[..|d| - 1] + [d[|d| - 1]]
  {
  }

  lemma ExtendedParts(n: real, d: Bytes)
    ensures Extended(n, d) == n * Pow10(|d|) + DigitsValue(d) as real
  {
    hide Pow10, DigitsValue;
  }

  lemma AccumulateZero(d: Bytes)
    ensures Accumulate(0.0, d) == DigitsValue(d) as real
  {
    AccumulateValue(0.0, d);
    hide Pow10, DigitsValue, Accumulate;
  }

  lemma TimesTen(n: real, p: real, v: int, d: int)
    ensures (n * p + v as real) * 10.0 + d as real == n * (10.0 * p) + (v * 10 + d) as real
  {
  }

  lemma {:induction false} AccumulateIntAppend(n: int, a: Bytes, d: Byte)
    ensures AccumulateInt(n, a + [d]) == AccumulateInt(n, a) * 10 + (d as int - 48)
    decreases |a|
  {
    if a == [] {
      assert ([] + [d])[1..] == [];
    } else {
      AccumulateIntAppend(n * 10 + (a[0] as int - 48), a[1..], d);
      assert (a + [d])[1..] == a[1..] + [d];
    }
  }

  lemma {:induction false} AccumulateIntValue(d: Bytes)
    ensures AccumulateInt(0, d) == DigitsValue(d)
    decreases |d|
  {
    if d != [] {
      assert d == d[..|d| - 1] + [d[|d| - 1]];
      AccumulateIntAppend(0, d[..|d| - 1], d[|d| - 1]);
      AccumulateIntValue(d[..|d| - 1]);
    }
  }

  /** A leading zero counts nothing. */
  lemma {:induction false} LeadingZero(d: Bytes)
    ensures DigitsValue([ZERO] + d) == DigitsValue(d)
    decreases |d|
  {
    var all := [ZERO] + d;
    if d != [] {
      assert all[..|all| - 1] == [ZERO] + d[..|d| - 1];
      LeadingZero(d[..|d| - 1]);
    }
  }

  lemma FirstAt(t: Bytes, i: nat, j: nat, s: Bytes)
    requires Spans(t, i, j, s) && s != []
    ensures i < j <= |t| && t[i] == s[0]
  {
    StartsWithHead(t, i, s);
  }

  lemma DigitsSpan(t: Bytes, i: nat, j: nat, d: Bytes)
    requires AllDigits(d) && Spans(t, i, j, d) && !IsDigit(At(t, j))
    ensures i <= j <= |t| && DigitsEnd(t, i) == j && t[i..j] == d
  {
    DigitsEndAt(t, i, d);
  }

  lemma WholePart(t: Bytes, i: nat, j: nat, d: Bytes)
    requires AllDigits(d) && Spans(t, i, j, d) && !IsDigit(At(t, j)) && i <= |t|
    requires |d| > 1 && d[0] == ZERO ==> d[1] != ZERO
    ensures IntegerPart(t, i) == (DigitsValue(d) as real, j)
  {
    hide Accumulate, DigitsValue, Spans, StartsWith, DigitsEnd;
    NoValue();
    if d != [] {
      FirstAt(t, i, j, d);
      if d[0] == ZERO {
        WholeFromZero(t, i, j, d);
      } else {
        DigitsSpan(t, i, j, d);
        AccumulateZero(d);
      }
    } else {
      NothingSpans(t, i, j);
    }
  }

  lemma NoValue()
    ensures DigitsValue([]) == 0
  {
  }

  lemma NothingSpans(t: Bytes, i: nat, j: nat)
    requires Spans(t, i, j, [])
    ensures i == j
  {
  }

  lemma WholeFromZero(t: Bytes, i: nat, j: nat, d: Bytes)
    requires AllDigits(d) && d != [] && d[0] == ZERO && Spans(t, i, j, d) && !IsDigit(At(t, j)) && i < |t| && t[i] == ZERO
    requires |d| > 1 ==> d[1] != ZERO
    ensures IntegerPart(t, i) == (DigitsValue(d) as real, j)
  {
    hide Accumulate, DigitsValue, Spans, StartsWith, DigitsEnd;
    assert d == [ZERO] + d[1..];
    var k := Split2(t, i, j, [ZERO], d[1..]);
    ByteAt(t, i, k, ZERO);
    DigitsSpan(t, k, j, d[1..]);
    LeadingZero(d[1..]);
    AccumulateZero(d[1..]);
    if |d| > 1 {
      FirstAt(t, k, j, d[1..]);
    } else {
      NoValue();
      NothingSpans(t, k, j);
    }
  }

  lemma FractionParts(t: Bytes, i: nat, j: nat, f: Bytes, n: real)
    requires AllDigits(f) && Spans(t, i, j, FractionText(f)) && !IsDigit(At(t, j)) && At(t, j) != DOT && i <= |t|
    ensures FractionPart(t, i, n) == (Extended(n, f), |f|, j)
  {
    AccumulateValue(n, f);
    hide Extended;
    if f != [] {
      var k := Split2(t, i, j, [DOT], f);
      ByteAt(t, i, k, DOT);
      StartsWithHead(t, k, f);
      DigitsSpan(t, k, j, f);
    }
  }

  lemma ExponentParts(t: Bytes, i: nat, j: nat, e: Exponent)
    requires ExponentAllowed(e) && Spans(t, i, j, ExponentText(e)) && Follows(At(t, j)) && i <= |t|
    requires e.Exponent? && e.sign == [] && e.digits == [] ==> At(t, j) != PLUS && At(t, j) != MINUS
    ensures ExponentPart(t, i) == (ExponentValue(e), j)
  {
    if e.NoExponent? {
      NoExponentPart(t, i, j);
    } else {
      hide *;
      ExponentFields(e);
      var k, l := Split3(t, i, j, [e.letter], e.sign, e.digits);
      ByteAt(t, i, k, e.letter);
      SignAt(e, t, k, l, j);
      FollowsDigits(At(t, j));
      DigitsSpan(t, l, j, e.digits);
      AccumulateIntValue(e.digits);
      ExponentFrom(e, t, i, l, j);
    }
  }

  lemma NoExponentPart(t: Bytes, i: nat, j: nat)
    requires Spans(t, i, j, []) && Follows(At(t, j)) && i <= |t|
    ensures ExponentPart(t, i) == (0, j)
  {
  }

  lemma FollowsDigits(c: Byte)
    requires Follows(c)
    ensures !IsDigit(c)
  {
  }

  lemma ExponentFields(e: Exponent)
    requires ExponentAllowed(e) && e.Exponent?
    ensures (e.letter == LOWER_E || e.letter == UPPER_E) && e.sign in [[], [PLUS], [MINUS]] && AllDigits(e.digits)
    ensures ExponentText(e) == [e.letter] + e.sign + e.digits
  {
  }

  /** The byte after the letter is a sign just when there is one. */
  lemma SignAt(e: Exponent, t: Bytes, k: nat, l: nat, j: nat)
    requires ExponentAllowed(e) && e.Exponent? && Spans(t, k, l, e.sign) && Spans(t, l, j, e.digits)
    requires e.sign == [] && e.digits == [] ==> At(t, j) != PLUS && At(t, j) != MINUS
    ensures l == k + |e.sign| && (At(t, k) == PLUS <==> e.sign == [PLUS]) && (At(t, k) == MINUS <==> e.sign == [MINUS])
  {
    if e.sign != [] {
      ByteAt(t, k, l, e.sign[0]);
    } else if e.digits != [] {
      StartsWithHead(t, l, e.digits);
    }
  }

  lemma ExponentFrom(e: Exponent, t: Bytes, i: nat, l: nat, j: nat)
    requires e.Exponent? && (e.letter == LOWER_E || e.letter == UPPER_E) && At(t, i) == e.letter && i <= |t|
    requires e.sign in [[], [PLUS], [MINUS]] && l == i + 1 + |e.sign|
    requires (At(t, i + 1) == PLUS <==> e.sign == [PLUS]) && (At(t, i + 1) == MINUS <==> e.sign == [MINUS])
    requires l <= j <= |t| && DigitsEnd(t, l) == j && t[l..j] == e.digits && AccumulateInt(0, e.digits) == DigitsValue(e.digits)
    ensures ExponentPart(t, i) == (ExponentValue(e), j)
  {
    hide AccumulateInt, DigitsEnd, DigitsValue;
  }

  /** Scaling by the exponent and the length of the fraction at once is what the numeral says. */
  lemma ScaledValue(n: Numeral)
    ensures Scaled(n.negative, Extended(DigitsValue(n.whole) as real, n.fraction), ExponentValue(n.exponent) - |n.fraction|)
         == NumeralValue(n)
  {
    hide Pow10, DigitsValue, ExponentValue;
    var w, f, k, e := DigitsValue(n.whole) as real, DigitsValue(n.fraction) as real, |n.fraction|, ExponentValue(n.exponent);
    PowZero();
    PowSum(e, -k);
    PowSum(k, -k);
    Distribute(if n.negative then -1.0 else 1.0, w, f, Pow10(k), Pow10(-k), Pow10(e), Pow10(e - k));
  }

  lemma Distribute(sign: real, w: real, f: real, p: real, q: real, e: real, r: real)
    requires p * q == 1.0 && r == e * q
    ensures sign * (w * p + f) * r == sign * (w + f * q) * e
  {
    Cancel(w, f, p, q);
    Reorder(sign, w * p + f, e, q);
  }

  lemma Cancel(w: real, f: real, p: real, q: real)
    requires p * q == 1.0
    ensures (w * p + f) * q == w + f * q
  {
    assert (w * p + f) * q == w * (p * q) + f * q;
  }

  lemma Reorder(sign: real, x: real, e: real, q: real)
    ensures sign * x * (e * q) == sign * (x * q) * e
  {
  }

  lemma NumeralBegins(n: Numeral)
    requires NumeralAllowed(n)
    ensures NumeralText(n) != [] && NumeralText(n)[0] == if n.negative then MINUS else n.whole[0]
  {
  }

  /** What may not come right after a numeral: anything that would continue it. */
  predicate Ends(n: Numeral, c: Byte) {
    Follows(c) && (n.exponent.Exponent? && n.exponent.sign == [] && n.exponent.digits == [] ==> c != PLUS && c != MINUS)
  }

  lemma AfterParts(n: Numeral, t: Bytes, l: nat, m: nat, j: nat)
    requires NumeralAllowed(n) && Ends(n, At(t, j))
    requires Spans(t, l, m, FractionText(n.fraction)) && Spans(t, m, j, ExponentText(n.exponent))
    ensures !IsDigit(At(t, l)) && !IsDigit(At(t, m)) && At(t, m) != DOT
  {
    if n.exponent.Exponent? {
      StartsWithHead(t, m, ExponentText(n.exponent));
    }
    if n.fraction != [] {
      StartsWithHead(t, l, FractionText(n.fraction));
    }
  }

  lemma NumberAccepted(n: Numeral, t: Bytes, i: nat, j: nat)
    requires NumeralAllowed(n) && Spans(t, i, j, NumeralText(n)) && Ends(n, At(t, j))
    ensures i < |t| && (t[i] == MINUS || IsDigit(t[i]))
    ensures ParseNumber(t, i) == Parsed(Number(NumeralValue(n)), j)
  {
    hide *;
    NumeralBegins(n);
    FirstAt(t, i, j, NumeralText(n));
    NumeralParts(n);
    var k, l, m := Split4(t, i, j, If(n.negative, [MINUS]), n.whole, FractionText(n.fraction), ExponentText(n.exponent));
    AfterParts(n, t, l, m, j);
    SignPart(n, t, i, k);
    WholePart(t, k, l, n.whole);
    FractionParts(t, l, m, n.fraction, DigitsValue(n.whole) as real);
    ExponentPartsOf(n, t, m, j);
    NumberFrom(t, i, k, l, m, j, DigitsValue(n.whole) as real, Extended(DigitsValue(n.whole) as real, n.fraction), |n.fraction|,
      ExponentValue(n.exponent));
    ScaledValue(n);
  }

  lemma NumeralParts(n: Numeral)
    requires NumeralAllowed(n)
    ensures NumeralText(n) == If(n.negative, [MINUS]) + n.whole + FractionText(n.fraction) + ExponentText(n.exponent)
    ensures AllDigits(n.whole) && AllDigits(n.fraction) && (|n.whole| > 1 && n.whole[0] == ZERO ==> n.whole[1] != ZERO)
    ensures !n.negative ==> n.whole != [] && IsDigit(n.whole[0]) && n.whole[0] != MINUS
  {
  }

  lemma NumberFrom(t: Bytes, i: nat, start: nat, l: nat, m: nat, j: nat, n0: real, n1: real, scale: nat, e: int)
    requires i < |t| && (t[i] == MINUS || IsDigit(t[i])) && start == (if t[i] == MINUS then i + 1 else i)
    requires start <= |t| && l <= |t| && m <= |t|
    requires IntegerPart(t, start) == (n0, l) && FractionPart(t, l, n0) == (n1, scale, m) && ExponentPart(t, m) == (e, j)
    ensures ParseNumber(t, i) == Parsed(Number(Scaled(t[i] == MINUS, n1, e - scale)), j)
  {
    hide IntegerPart, FractionPart, ExponentPart, Scaled;
  }

  lemma SignPart(n: Numeral, t: Bytes, i: nat, k: nat)
    requires Spans(t, i, k, If(n.negative, [MINUS]))
    ensures k == (if n.negative then i + 1 else i) && (n.negative ==> At(t, i) == MINUS)
  {
    if n.negative {
      ByteAt(t, i, k, MINUS);
    }
  }

  lemma ExponentPartsOf(n: Numeral, t: Bytes, m: nat, j: nat)
    requires NumeralAllowed(n) && Spans(t, m, j, ExponentText(n.exponent)) && Ends(n, At(t, j)) && m <= |t|
    ensures ExponentPart(t, m) == (ExponentValue(n.exponent), j)
  {
    ExponentParts(t, m, j, n.exponent);
  }

  // ------------------------------------------------------------------------- spaces

  lemma {:induction false} SpacesBlank(g: Gap)
    requires Spaces(g)
    ensures Blank(GapText(g)) && NulFree(GapText(g))
  {
    if g != [] {
      SpacesBlank(g[1..]);
      assert GapText(g) == [g[0].byte] + GapText(g[1..]);
    }
  }

  lemma SkipSpaces(t: Bytes, i: nat, j: nat, g: Gap)
    requires NulFree(t) && Spaces(g) && Spans(t, i, j, GapText(g))
    ensures i <= j <= |t| && Skip(t, i) == Skip(t, j)
    ensures i < j ==> 1 <= At(t, i) <= 32
  {
    SpacesBlank(g);
    SkipBlank(t, i, j, GapText(g));
    if GapText(g) != [] {
      FirstAt(t, i, j, GapText(g));
    }
  }

  /** A byte that stands between tokens or after the last. */
  predicate Stops(c: Byte) {
    c <= 32 || c == COMMA || c == COLON || c == CLOSE_BRACKET || c == CLOSE_BRACE
  }

  predicate Delimits(c: Byte) {
    Stops(c) && c > 32
  }

  lemma StopBytes()
    ensures Delimits(COMMA) && Delimits(COLON) && Delimits(CLOSE_BRACKET) && Delimits(CLOSE_BRACE)
    ensures QUOTE != CLOSE_BRACE && Stops(0)
  {
  }

  /** What may come after a value. */
  predicate EndsValue(s: Syntax, c: Byte) {
    s.Numeric? ==> Ends(s.numeral, c)
  }

  lemma StopsEnd(s: Syntax, c: Byte)
    requires Stops(c)
    ensures EndsValue(s, c)
  {
  }

  /** Spaces and then a token: nothing else is skipped. */
  lemma SkipTo(t: Bytes, i: nat, j: nat, g: Gap)
    requires NulFree(t) && Spaces(g) && Spans(t, i, j, GapText(g)) && At(t, j) > 32
    ensures i <= j <= |t| && Skip(t, i) == j
  {
    SkipSpaces(t, i, j, g);
    SkipNothing(t, j);
  }

  lemma SkipPast(t: Bytes, i: nat, j: nat, g: Gap)
    requires NulFree(t) && Spaces(g) && Spans(t, i, j, GapText(g)) && Stops(At(t, j))
    ensures i <= j <= |t| && Stops(At(t, i))
  {
    SkipSpaces(t, i, j, g);
  }

  // ------------------------------------------------------------------------- values

  lemma ValueBegins(s: Syntax)
    requires Accepted(s)
    ensures Text(s) != [] && StartsValue(Text(s)[0])
  {
    if s.Numeric? {
      NumeralBegins(s.numeral);
      NumeralParts(s.numeral);
      hide NumeralText;
    }
  }

  lemma ValueAt(s: Syntax, t: Bytes, i: nat, j: nat)
    requires Accepted(s) && Spans(t, i, j, Text(s))
    ensures i < j <= |t| && StartsValue(At(t, i)) && At(t, i) > 32
  {
    ValueBegins(s);
    FirstAt(t, i, j, Text(s));
  }

  lemma WordAccepted(v: Json, t: Bytes, i: nat, j: nat)
    requires NulFree(t) && (v.Null? || v.False? || v.True?) && Spans(t, i, j, WordText(v))
    ensures ParseValue(t, i) == Parsed(v, j)
  {
    KeywordRoundTrip(v, 0, false, t, i);
  }

  lemma LiteralAccepted(us: seq<Unit>, t: Bytes, i: nat, j: nat)
    requires AllAllowed(us) && Spans(t, i, j, LiteralText(us))
    ensures i < |t| && t[i] == QUOTE && ParseString(t, i) == Parsed(MeaningAll(us), j)
  {
    hide AllAllowed, WrittenAll, Decode, Spans;
    var k, l := Split3(t, i, j, [QUOTE], WrittenAll(us), [QUOTE]);
    ByteAt(t, i, k, QUOTE);
    ByteAt(t, l, j, QUOTE);
    LiteralMeaning(us, t, k, l);
  }

  lemma NumericAccepted(n: Numeral, t: Bytes, i: nat, j: nat)
    requires NulFree(t) && NumeralAllowed(n) && Spans(t, i, j, NumeralText(n)) && Ends(n, At(t, j))
    ensures i <= |t| && ParseValue(t, i) == Parsed(Number(NumeralValue(n)), j)
  {
    NumberAccepted(n, t, i, j);
    NotKeyword(t, i);
    hide ParseNumber, StartsWith, NumeralValue, Spans;
  }

  lemma StringAccepted(us: seq<Unit>, t: Bytes, i: nat, j: nat)
    requires NulFree(t) && AllAllowed(us) && Spans(t, i, j, LiteralText(us))
    ensures i <= |t| && ParseValue(t, i) == Parsed(String(MeaningAll(us)), j)
  {
    LiteralAccepted(us, t, i, j);
    NotKeyword(t, i);
    hide ParseString, StartsWith, AllAllowed, Spans;
  }

  /** A text of the grammar at any place of a text is parsed to its value, if what follows does not continue it. */
  lemma {:induction false} ValueAccepted(s: Syntax, t: Bytes, i: nat, j: nat)
    requires Accepted(s) && NulFree(t) && Spans(t, i, j, Text(s)) && EndsValue(s, At(t, j))
    ensures i <= |t| && ParseValue(t, i) == Parsed(Value(s), j)
    decreases s, 1
  {
    match s
    case Word(v) => WordAccepted(v, t, i, j);
    case Numeric(n) => NumericAccepted(n, t, i, j);
    case Literal(us) => StringAccepted(us, t, i, j);
    case List(open, items) => ListAccepted(s, t, i, j);
    case Record(open, fields) => RecordAccepted(s, t, i, j);
  }

  lemma ListParts(s: Syntax)
    requires s.List? && Accepted(s)
    ensures Spaces(s.open) && AcceptedItems(s.items) && Value(s) == Array(Values(s.items))
    ensures Text(s) == [OPEN_BRACKET] + GapText(s.open) + ItemsText(s.items) + [CLOSE_BRACKET]
  {
  }

  lemma EmptyList(t: Bytes, i: nat, z: nat)
    requires NulFree(t) && i < |t| && t[i] == OPEN_BRACKET && Skip(t, i + 1) == z && At(t, z) == CLOSE_BRACKET
    ensures ParseValue(t, i) == Parsed(Array([]), z + 1)
  {
    NotKeyword(t, i);
    hide StartsWith, ParseItems, Skip;
  }

  lemma {:induction false} ListAccepted(s: Syntax, t: Bytes, i: nat, j: nat)
    requires s.List? && Accepted(s) && NulFree(t) && Spans(t, i, j, Text(s))
    ensures i <= |t| && ParseValue(t, i) == Parsed(Value(s), j)
    decreases s, 0
  {
    hide *;
    ListParts(s);
    StopBytes();
    var k, l, z := Split4(t, i, j, [OPEN_BRACKET], GapText(s.open), ItemsText(s.items), [CLOSE_BRACKET]);
    FirstAt(t, i, k, [OPEN_BRACKET]);
    ByteAt(t, i, k, OPEN_BRACKET);
    ByteAt(t, z, j, CLOSE_BRACKET);
    DelimitsStops(CLOSE_BRACKET);
    if s.items == [] {
      NoItems();
      NothingSpans(t, l, z);
      SkipTo(t, k, l, s.open);
      EmptyList(t, i, z);
    } else {
      SkipSpaces(t, k, l, s.open);
      SkipTwice(t, k);
      ItemsAccepted(s.items, t, Skip(t, k), l, z);
      ArrayOf(t, i, Values(s.items), j);
    }
  }

  lemma NoItems()
    ensures ItemsText([]) == [] && FieldsText([]) == [] && Values([]) == [] && Members([]) == []
  {
  }

  lemma ItemsParts(items: seq<Item>)
    requires items != [] && AcceptedItems(items)
    ensures AcceptedItem(items[0]) && Accepted(items[0].value) && AcceptedItems(items[1..])
    ensures Values(items) == [Value(items[0].value)] + Values(items[1..])
    ensures |items| == 1 ==> Values(items) == [Value(items[0].value)]
    ensures ItemsText(items) == if |items| == 1 then ItemText(items[0]) else ItemText(items[0]) + [COMMA] + ItemsText(items[1..])
  {
    hide Accepted, Spaces, Value, Text, GapText;
  }

  /** A value with what stands around it, and where the next token is. */
  lemma {:induction false} SpacedAccepted(before: Gap, s: Syntax, after: Gap, t: Bytes, i: nat, p: nat, c: nat) returns (e: nat)
    requires Spaces(before) && Accepted(s) && Spaces(after)
    requires NulFree(t) && i <= |t| && p <= |t| && Skip(t, i) == Skip(t, p)
    requires Spans(t, p, c, GapText(before) + Text(s) + GapText(after)) && Delimits(At(t, c))
    ensures Skip(t, i) < |t| && At(t, Skip(t, i)) != CLOSE_BRACKET
    ensures ParseValue(t, Skip(t, i)) == Parsed(Value(s), e) && e <= c <= |t| && Skip(t, e) == c
    decreases s, 2
  {
    hide *;
    DelimitsStops(At(t, c));
    var a;
    a, e := Split3(t, p, c, GapText(before), Text(s), GapText(after));
    ValueAt(s, t, a, e);
    NotClosing(At(t, a));
    SkipTo(t, p, a, before);
    SkipTo(t, e, c, after);
    SkipPast(t, e, c, after);
    StopsEnd(s, At(t, e));
    ValueAccepted(s, t, a, e);
  }

  lemma DelimitsStops(c: Byte)
    requires Delimits(c)
    ensures Stops(c) && c > 32
  {
  }

  lemma ItemParts(x: Item)
    requires AcceptedItem(x)
    ensures Spaces(x.before) && Accepted(x.value) && Spaces(x.after)
    ensures ItemText(x) == GapText(x.before) + Text(x.value) + GapText(x.after)
  {
  }

  lemma NotClosing(c: Byte)
    requires StartsValue(c)
    ensures c != CLOSE_BRACKET && c != CLOSE_BRACE
  {
  }

  lemma ItemsLastAt(t: Bytes, i: nat, v: Json, e: nat, z: nat)
    requires NulFree(t) && i <= |t| && ParseValue(t, Skip(t, i)) == Parsed(v, e) && e <= |t|
    requires Skip(t, e) == z && At(t, z) == CLOSE_BRACKET
    ensures ParseItems(t, i) == Parsed([v], z + 1)
  {
    hide ParseValue, Skip, NulFree;
  }

  lemma ItemsMoreAt(t: Bytes, i: nat, v: Json, e: nat, c: nat, vs: seq<Json>, last: nat)
    requires NulFree(t) && i <= |t| && ParseValue(t, Skip(t, i)) == Parsed(v, e) && e <= |t|
    requires Skip(t, e) == c < |t| && At(t, c) == COMMA && ParseItems(t, c + 1) == Parsed(vs, last)
    ensures ParseItems(t, i) == Parsed([v] + vs, last)
  {
    hide ParseValue, Skip, NulFree;
  }

  /** The entries of an array, from a position with nothing but spaces up to them. */
  lemma {:induction false} ItemsAccepted(items: seq<Item>, t: Bytes, i: nat, p: nat, z: nat)
    requires items != [] && AcceptedItems(items) && NulFree(t) && i <= |t| && p <= |t| && Skip(t, i) == Skip(t, p)
    requires Spans(t, p, z, ItemsText(items)) && At(t, z) == CLOSE_BRACKET
    ensures At(t, Skip(t, i)) != CLOSE_BRACKET && ParseItems(t, i) == Parsed(Values(items), z + 1)
    decreases items, 0
  {
    hide *;
    ItemsParts(items);
    ItemParts(items[0]);
    StopBytes();
    if |items| == 1 {
      var e := SpacedAccepted(items[0].before, items[0].value, items[0].after, t, i, p, z);
      ItemsLastAt(t, i, Value(items[0].value), e, z);
    } else {
      var c, d := Split3(t, p, z, ItemText(items[0]), [COMMA], ItemsText(items[1..]));
      ByteAt(t, c, d, COMMA);
      var e := SpacedAccepted(items[0].before, items[0].value, items[0].after, t, i, p, c);
      ItemsAccepted(items[1..], t, d, d, z);
      ItemsMoreAt(t, i, Value(items[0].value), e, c, Values(items[1..]), z + 1);
    }
  }

  // ------------------------------------------------------------------------- objects

  lemma RecordParts(s: Syntax)
    requires s.Record? && Accepted(s)
    ensures Spaces(s.open) && AcceptedFields(s.fields) && Value(s) == Object(Members(s.fields))
    ensures Text(s) == [OPEN_BRACE] + GapText(s.open) + FieldsText(s.fields) + [CLOSE_BRACE]
  {
  }

  lemma EmptyRecord(t: Bytes, i: nat, z: nat)
    requires NulFree(t) && i < |t| && t[i] == OPEN_BRACE && Skip(t, i + 1) == z && At(t, z) == CLOSE_BRACE
    ensures ParseValue(t, i) == Parsed(Object([]), z + 1)
  {
    NotKeyword(t, i);
    hide StartsWith, ParseMembers, Skip;
  }

  lemma {:induction false} RecordAccepted(s: Syntax, t: Bytes, i: nat, j: nat)
    requires s.Record? && Accepted(s) && NulFree(t) && Spans(t, i, j, Text(s))
    ensures i <= |t| && ParseValue(t, i) == Parsed(Value(s), j)
    decreases s, 0
  {
    hide *;
    RecordParts(s);
    StopBytes();
    var k, l, z := Split4(t, i, j, [OPEN_BRACE], GapText(s.open), FieldsText(s.fields), [CLOSE_BRACE]);
    FirstAt(t, i, k, [OPEN_BRACE]);
    ByteAt(t, i, k, OPEN_BRACE);
    ByteAt(t, z, j, CLOSE_BRACE);
    DelimitsStops(CLOSE_BRACE);
    if s.fields == [] {
      NoItems();
      NothingSpans(t, l, z);
      SkipTo(t, k, l, s.open);
      EmptyRecord(t, i, z);
    } else {
      SkipSpaces(t, k, l, s.open);
      SkipTwice(t, k);
      FieldsAccepted(s.fields, t, Skip(t, k), l, z);
      ObjectOf(t, i, Members(s.fields), j);
    }
  }

  lemma FieldsParts(fields: seq<Field>)
    requires fields != [] && AcceptedFields(fields)
    ensures AcceptedField(fields[0]) && Accepted(fields[0].value) && AllAllowed(fields[0].name) && AcceptedFields(fields[1..])
    ensures Members(fields) == [FieldMember(fields[0])] + Members(fields[1..])
    ensures |fields| == 1 ==> Members(fields) == [FieldMember(fields[0])]
    ensures FieldsText(fields) ==
      if |fields| == 1 then FieldText(fields[0]) else FieldText(fields[0]) + [COMMA] + FieldsText(fields[1..])
  {
    hide Accepted, Spaces, Value, Text, GapText, AllAllowed, MeaningAll;
  }

  function FieldMember(x: Field): Member
    requires AcceptedField(x)
  {
    Member(MeaningAll(x.name), Value(x.value))
  }

  lemma FieldParts(x: Field)
    requires AcceptedField(x)
    ensures Spaces(x.before) && AllAllowed(x.name) && Spaces(x.afterName) && Spaces(x.beforeValue) && Accepted(x.value) && Spaces(x.after)
    ensures FieldMember(x) == Member(MeaningAll(x.name), Value(x.value))
    ensures NameText(x) == GapText(x.before) + LiteralText(x.name) + GapText(x.afterName)
    ensures ValueText(x) == GapText(x.beforeValue) + Text(x.value) + GapText(x.after)
  {
  }

  /** A name, and where its colon is. */
  lemma NameAccepted(x: Field, t: Bytes, i: nat, p: nat, c: nat) returns (e: nat)
    requires AcceptedField(x) && NulFree(t) && i <= |t| && p <= |t| && Skip(t, i) == Skip(t, p)
    requires Spans(t, p, c, NameText(x)) && At(t, c) == COLON
    ensures AllAllowed(x.name) && At(t, Skip(t, i)) == QUOTE
    ensures ParseString(t, Skip(t, i)) == Parsed(MeaningAll(x.name), e) && e <= c <= |t| && Skip(t, e) == c
  {
    FieldParts(x);
    hide *;
    var a;
    a, e := Split3(t, p, c, GapText(x.before), LiteralText(x.name), GapText(x.afterName));
    LiteralAccepted(x.name, t, a, e);
    TokensAbove(At(t, a), At(t, c));
    SkipTo(t, p, a, x.before);
    SkipTo(t, e, c, x.afterName);
  }

  lemma TokensAbove(a: Byte, c: Byte)
    requires a == QUOTE && c == COLON
    ensures a > 32 && c > 32
  {
  }

  lemma MemberAt(t: Bytes, i: nat, name: Bytes, e: nat, c: nat, v: Json, end: nat)
    requires NulFree(t) && i <= |t| && ParseString(t, Skip(t, i)) == Parsed(name, e) && e <= |t|
    requires Skip(t, e) == c < |t| && At(t, c) == COLON && ParseValue(t, Skip(t, c + 1)) == Parsed(v, end)
    ensures ParseMember(t, i) == Parsed(Member(name, v), end)
  {
    hide ParseValue, ParseString, Skip;
  }

  /** One member: its name and value, and where the next token is. */
  lemma {:induction false} FieldAccepted(x: Field, t: Bytes, i: nat, p: nat, c: nat) returns (e: nat)
    requires AcceptedField(x) && NulFree(t) && i <= |t| && p <= |t| && Skip(t, i) == Skip(t, p)
    requires Spans(t, p, c, FieldText(x)) && Delimits(At(t, c))
    ensures At(t, Skip(t, i)) == QUOTE
    ensures ParseMember(t, i) == Parsed(FieldMember(x), e) && e <= c <= |t| && Skip(t, e) == c
    decreases x, 2
  {
    hide *;
    FieldText3(x);
    var a, b := Split3(t, p, c, NameText(x), [COLON], ValueText(x));
    ByteAt(t, a, b, COLON);
    var n := NameAccepted(x, t, i, p, a);
    FieldParts(x);
    e := SpacedAccepted(x.beforeValue, x.value, x.after, t, b, b, c);
    MemberAt(t, i, MeaningAll(x.name), n, a, Value(x.value), e);
  }

  lemma FieldText3(x: Field)
    ensures FieldText(x) == NameText(x) + [COLON] + ValueText(x)
  {
  }

  lemma MembersMoreAt(t: Bytes, i: nat, m: Member, e: nat, c: nat, ms: seq<Member>, last: nat)
    requires NulFree(t) && i <= |t| && ParseMember(t, i) == Parsed(m, e) && e <= |t|
    requires Skip(t, e) == c < |t| && At(t, c) == COMMA && ParseMembers(t, c + 1) == Parsed(ms, last)
    ensures ParseMembers(t, i) == Parsed([m] + ms, last)
  {
    hide ParseMember, Skip, NulFree;
  }

  /** The members of an object, from a position with nothing but spaces up to them. */
  lemma {:induction false} FieldsAccepted(fields: seq<Field>, t: Bytes, i: nat, p: nat, z: nat)
    requires fields != [] && AcceptedFields(fields) && NulFree(t) && i <= |t| && p <= |t| && Skip(t, i) == Skip(t, p)
    requires Spans(t, p, z, FieldsText(fields)) && At(t, z) == CLOSE_BRACE
    ensures At(t, Skip(t, i)) == QUOTE && ParseMembers(t, i) == Parsed(Members(fields), z + 1)
    decreases fields, 0
  {
    hide *;
    FieldsParts(fields);
    StopBytes();
    if |fields| == 1 {
      var e := FieldAccepted(fields[0], t, i, p, z);
      MembersLast(t, i, FieldMember(fields[0]), e);
    } else {
      var c, d := Split3(t, p, z, FieldText(fields[0]), [COMMA], FieldsText(fields[1..]));
      ByteAt(t, c, d, COMMA);
      var e := FieldAccepted(fields[0], t, i, p, c);
      FieldsAccepted(fields[1..], t, d, d, z);
      MembersMoreAt(t, i, FieldMember(fields[0]), e, c, Members(fields[1..]), z + 1);
    }
  }

  // ------------------------------------------------------------------------- whole texts

  lemma NulFreeParts(a: Bytes, b: Bytes)
    ensures NulFree(a + b) <==> NulFree(a) && NulFree(b)
  {
    assert NulFree(a + b) ==> forall k :: 0 <= k < |a| ==> a[k] == (a + b)[k];
    assert NulFree(a + b) ==> forall k :: 0 <= k < |b| ==> b[k] == (a + b)[|a| + k];
  }

  lemma WrittenNulFree(u: Unit)
    requires Allowed(u)
    ensures NulFree(Written(u))
  {
  }

  lemma {:induction false} UnitsNulFree(us: seq<Unit>)
    requires AllAllowed(us)
    ensures NulFree(WrittenAll(us))
  {
    if us != [] {
      AllowedTail(us);
      hide AllAllowed, Allowed, Written;
      WrittenNulFree(us[0]);
      UnitsNulFree(us[1..]);
    }
  }

  lemma NumeralNulFree(n: Numeral)
    requires NumeralAllowed(n)
    ensures NulFree(NumeralText(n))
  {
    NumeralParts(n);
    hide NumeralText;
    assert NulFree(FractionText(n.fraction)) && NulFree(ExponentText(n.exponent)) && NulFree(If(n.negative, [MINUS]));
    assert NulFree(n.whole);
    hide FractionText, ExponentText, If;
  }

  lemma {:induction false} TextNulFree(s: Syntax)
    requires Accepted(s)
    ensures NulFree(Text(s))
    decreases s, 1
  {
    match s
    case Word(v) =>
    case Numeric(n) => NumeralNulFree(n);
    case Literal(us) => UnitsNulFree(us);
    case List(open, items) =>
      ItemsNulFree(items);
      SpacesBlank(open);
      hide ItemsText, Accepted;
    case Record(open, fields) =>
      FieldsNulFree(fields);
      SpacesBlank(open);
      hide FieldsText, Accepted;
  }

  lemma {:induction false} SpacedNulFree(before: Gap, s: Syntax, after: Gap)
    requires Spaces(before) && Accepted(s) && Spaces(after)
    ensures NulFree(GapText(before) + Text(s) + GapText(after))
    decreases s, 2
  {
    hide *;
    SpacesBlank(before);
    TextNulFree(s);
    SpacesBlank(after);
    NulFreeParts(GapText(before), Text(s));
    NulFreeParts(GapText(before) + Text(s), GapText(after));
  }

  lemma {:induction false} ItemsNulFree(items: seq<Item>)
    requires AcceptedItems(items)
    ensures NulFree(ItemsText(items))
    decreases items, 0
  {
    if items != [] {
      ItemsParts(items);
      ItemParts(items[0]);
      hide ItemText, AcceptedItems;
      SpacedNulFree(items[0].before, items[0].value, items[0].after);
      ItemsNulFree(items[1..]);
      hide ItemsText;
    }
  }

  lemma {:induction false} FieldNulFree(x: Field)
    requires AcceptedField(x)
    ensures NulFree(FieldText(x))
    decreases x
  {
    hide *;
    FieldParts(x);
    FieldText3(x);
    SpacesBlank(x.before);
    LiteralNulFree(x.name);
    SpacesBlank(x.afterName);
    NulFreeParts(GapText(x.before), LiteralText(x.name));
    NulFreeParts(GapText(x.before) + LiteralText(x.name), GapText(x.afterName));
    SpacedNulFree(x.beforeValue, x.value, x.after);
    ColonNulFree();
    NulFreeParts(NameText(x), [COLON]);
    NulFreeParts(NameText(x) + [COLON], ValueText(x));
  }

  lemma ColonNulFree()
    ensures NulFree([COLON])
  {
  }

  lemma LiteralNulFree(us: seq<Unit>)
    requires AllAllowed(us)
    ensures NulFree(LiteralText(us))
  {
    UnitsNulFree(us);
    hide WrittenAll;
  }

  lemma {:induction false} FieldsNulFree(fields: seq<Field>)
    requires AcceptedFields(fields)
    ensures NulFree(FieldsText(fields))
    decreases fields, 0
  {
    if fields != [] {
      FieldsParts(fields);
      hide FieldText, AcceptedFields;
      FieldNulFree(fields[0]);
      FieldsNulFree(fields[1..]);
      hide FieldsText;
    }
  }

  lemma DocumentNulFree(d: Document)
    requires AcceptedDocument(d)
    ensures NulFree(DocumentText(d))
  {
    match d
    case Whole(before, value, after) => SpacedNulFree(before, value, after);
    case Unclosed(before, us) =>
      SpacesBlank(before);
      UnitsNulFree(us);
      hide GapText, WrittenAll;
  }

  /** Where the parser stops when it need not come to the end of the text. */
  function ValueEnd(d: Document): nat {
    match d
    case Whole(before, value, _) => |GapText(before)| + |Text(value)|
    case Unclosed(_, _) => |DocumentText(d)|
  }

  lemma UnclosedAccepted(us: seq<Unit>, t: Bytes, i: nat)
    requires NulFree(t) && AllAllowed(us) && Spans(t, i, |t|, [QUOTE] + WrittenAll(us))
    ensures i < |t| && At(t, i) > 32 && ParseValue(t, i) == Parsed(String(MeaningAll(us)), |t|)
  {
    hide AllAllowed, WrittenAll, Decode;
    var k := Split2(t, i, |t|, [QUOTE], WrittenAll(us));
    ByteAt(t, i, k, QUOTE);
    LiteralMeaning(us, t, k, |t|);
    NotKeyword(t, i);
    hide StartsWith, Spans;
  }

  lemma SpansAll(t: Bytes)
    ensures Spans(t, 0, |t|, t)
  {
    assert t[0..|t|] == t;
  }

  lemma SkipAtEnd(t: Bytes)
    requires NulFree(t)
    ensures Skip(t, |t|) == |t| && At(t, |t|) == 0
  {
  }

  lemma WithOptsOf(t: Bytes, b: bool, i: nat, v: Json, e: nat)
    requires NulFree(t) && i <= |t| && Skip(t, 0) == i && ParseValue(t, i) == Parsed(v, e) && e <= |t| && Skip(t, e) == |t|
    ensures ParseWithOpts(t, b) == Parsed(v, if b then |t| else e)
  {
    hide ParseValue, Skip;
  }

  lemma SpansLength(t: Bytes, i: nat, j: nat, s: Bytes)
    requires Spans(t, i, j, s)
    ensures j == i + |s|
  {
  }

  lemma WholeAccepted(before: Gap, value: Syntax, after: Gap, t: Bytes, b: bool)
    requires Spaces(before) && Accepted(value) && Spaces(after)
    requires t == GapText(before) + Text(value) + GapText(after) && NulFree(t)
    ensures ParseWithOpts(t, b) == Parsed(Value(value), if b then |t| else |GapText(before)| + |Text(value)|)
  {
    hide *;
    SpansAll(t);
    var a, e := Split3(t, 0, |t|, GapText(before), Text(value), GapText(after));
    SpansLength(t, 0, a, GapText(before));
    SpansLength(t, a, e, Text(value));
    ValueAt(value, t, a, e);
    SkipTo(t, 0, a, before);
    SkipAtEnd(t);
    StopBytes();
    SkipPast(t, e, |t|, after);
    SkipSpaces(t, e, |t|, after);
    StopsEnd(value, At(t, e));
    ValueAccepted(value, t, a, e);
    WithOptsOf(t, b, a, Value(value), e);
  }

  lemma UnclosedWhole(before: Gap, us: seq<Unit>, t: Bytes, b: bool)
    requires Spaces(before) && AllAllowed(us) && t == GapText(before) + [QUOTE] + WrittenAll(us) && NulFree(t)
    ensures ParseWithOpts(t, b) == Parsed(String(MeaningAll(us)), |t|)
  {
    hide *;
    Regroup(GapText(before), [QUOTE], WrittenAll(us));
    SpansAll(t);
    var a := Split2(t, 0, |t|, GapText(before), [QUOTE] + WrittenAll(us));
    UnclosedAccepted(us, t, a);
    SkipTo(t, 0, a, before);
    SkipAtEnd(t);
    WithOptsOf(t, b, a, String(MeaningAll(us)), |t|);
  }

  lemma DocumentParts(d: Document)
    requires AcceptedDocument(d)
    ensures d.Whole? ==>
      && Spaces(d.before) && Accepted(d.value) && Spaces(d.after) && DocumentValue(d) == Value(d.value)
      && DocumentText(d) == GapText(d.before) + Text(d.value) + GapText(d.after)
      && ValueEnd(d) == |GapText(d.before)| + |Text(d.value)|
    ensures d.Unclosed? ==>
      && Spaces(d.before) && AllAllowed(d.units) && DocumentValue(d) == String(MeaningAll(d.units))
      && DocumentText(d) == GapText(d.before) + [QUOTE] + WrittenAll(d.units) && ValueEnd(d) == |DocumentText(d)|
  {
    hide Accepted, Value, Text, GapText, Spaces, AllAllowed, WrittenAll, MeaningAll;
  }

  /** Every text of the grammar, with any bytes 1 to 32 before and after each of its tokens, is parsed to what it means. */
  lemma DocumentAccepted(d: Document, requireNullTerminated: bool)
    requires AcceptedDocument(d)
    ensures var t := DocumentText(d);
      && NulFree(t)
      && ParseWithOpts(t, requireNullTerminated) == Parsed(DocumentValue(d), if requireNullTerminated then |t| else ValueEnd(d))
  {
    hide *;
    var t := DocumentText(d);
    DocumentNulFree(d);
    DocumentParts(d);
    match d
    case Whole(before, value, after) => WholeAccepted(before, value, after, t, requireNullTerminated);
    case Unclosed(before, us) => UnclosedWhole(before, us, t, requireNullTerminated);
  }

  lemma NextByte(t: Bytes, e: nat, rest: Bytes)
    requires Spans(t, e, |t|, rest)
    ensures At(t, e) == if rest == [] then 0 else rest[0]
  {
    if rest != [] {
      StartsWithHead(t, e, rest);
    }
  }

  lemma WithoutOpts(t: Bytes, i: nat, v: Json, e: nat)
    requires NulFree(t) && i <= |t| && Skip(t, 0) == i && ParseValue(t, i) == Parsed(v, e)
    ensures ParseWithOpts(t, false) == Parsed(v, e)
  {
    hide ParseValue, Skip;
  }

  /** When it need not come to the end, the parser takes a value whatever stands after it. */
  lemma TrailingAccepted(before: Gap, s: Syntax, rest: Bytes)
    requires Spaces(before) && Accepted(s) && NulFree(rest) && EndsValue(s, if rest == [] then 0 else rest[0])
    ensures var t := GapText(before) + Text(s) + rest;
      NulFree(t) && ParseWithOpts(t, false) == Parsed(Value(s), |GapText(before)| + |Text(s)|)
  {
    hide *;
    var t := GapText(before) + Text(s) + rest;
    SpacesBlank(before);
    TextNulFree(s);
    NulFreeParts(GapText(before), Text(s));
    NulFreeParts(GapText(before) + Text(s), rest);
    SpansAll(t);
    var a, e := Split3(t, 0, |t|, GapText(before), Text(s), rest);
    SpansLength(t, 0, a, GapText(before));
    SpansLength(t, a, e, Text(s));
    NextByte(t, e, rest);
    ValueAt(s, t, a, e);
    SkipTo(t, 0, a, before);
    ValueAccepted(s, t, a, e);
    WithoutOpts(t, a, Value(s), e);
  }

  lemma {:induction false} StandardAccepted(s: Syntax)
    requires Standard(s)
    ensures Accepted(s)
    decreases s, 1
  {
    match s
    case Word(v) =>
    case Numeric(n) =>
    case Literal(us) => WellFormedAllowed(us);
    case List(_, items) => StandardItemsAccepted(items);
    case Record(_, fields) => StandardFieldsAccepted(fields);
  }

  lemma {:induction false} StandardItemsAccepted(items: seq<Item>)
    requires StandardItems(items)
    ensures AcceptedItems(items)
    decreases items, 0
  {
    if items != [] {
      StandardAccepted(items[0].value);
      StandardItemsAccepted(items[1..]);
      hide Standard, Accepted;
    }
  }

  lemma {:induction false} StandardFieldsAccepted(fields: seq<Field>)
    requires StandardFields(fields)
    ensures AcceptedFields(fields)
    decreases fields, 0
  {
    if fields != [] {
      WellFormedAllowed(fields[0].name);
      StandardAccepted(fields[0].value);
      StandardFieldsAccepted(fields[1..]);
      hide Standard, Accepted, AllAllowed, AllWellFormed;
    }
  }

  /** Every text of RFC 8259, unpaired surrogates and escapes of NUL apart, is parsed to what it means. */
  lemma StandardParses(before: Gap, s: Syntax, after: Gap, requireNullTerminated: bool)
    requires StandardSpaces(before) && Standard(s) && StandardSpaces(after)
    ensures var t := GapText(before) + Text(s) + GapText(after);
      && NulFree(t) && Accepted(s)
      && var r := ParseWithOpts(t, requireNullTerminated);
      && r.Parsed? && r.value == Value(s)
  {
    StandardAccepted(s);
    DocumentAccepted(Whole(before, s, after), requireNullTerminated);
    hide Standard, Accepted, ParseWithOpts, Text, Value, GapText;
  }
}
