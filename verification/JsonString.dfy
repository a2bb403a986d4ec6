/** parse_string: the two passes over a literal, and the UTF-8 it writes. */
module JsonString {
  import opened JsonText
  import opened JsonParse
  import opened JsonRoundTrip

  // ------------------------------------------------------------------------- UTF-8

  /** A continuation byte of section 3 of RFC 3629. */
  predicate Continues(b: Byte) {
    0x80 <= b < 0xC0
  }

  /** The length that a leading byte announces, 0 for a byte that cannot lead. */
  function Announces(b: Byte): nat {
    if b < 0x80 then 1 else if b < 0xC0 then 0 else if b < 0xE0 then 2 else if b < 0xF0 then 3 else if b < 0xF8 then 4 else 0
  }

  /** The bits that the bytes after the first add to what the first holds. */
  function Payload(n: nat, bytes: Bytes): nat
    decreases |bytes|
  {
    if bytes == [] then n else Payload(n * 0x40 + bytes[0] % 0x40, bytes[1..])
  }

  /** The reader of section 3 of RFC 3629: the code point of one sequence. */
  function CodePoint(s: Bytes): nat
    requires s != [] && Announces(s[0]) == |s|
  {
    Payload(if |s| == 1 then s[0] else if |s| == 2 then s[0] - 0xC0 else if |s| == 3 then s[0] - 0xE0 else s[0] - 0xF0, s[1..])
  }

  /** The least code point that needs so many bytes. */
  function Least(length: nat): nat {
    if length <= 1 then 0 else if length == 2 then 0x80 else if length == 3 then 0x800 else 0x10000
  }

  lemma Payload1(n: nat, b: Byte)
    ensures Payload(n, [b]) == n * 0x40 + b % 0x40
  {
    assert [b][1..] == [];
  }

  lemma Payload2(n: nat, b: Byte, c: Byte)
    ensures Payload(n, [b, c]) == (n * 0x40 + b % 0x40) * 0x40 + c % 0x40
  {
    assert [b, c][1..] == [c];
    Payload1(n * 0x40 + b % 0x40, c);
  }

  lemma Payload3(n: nat, b: Byte, c: Byte, d: Byte)
    ensures Payload(n, [b, c, d]) == ((n * 0x40 + b % 0x40) * 0x40 + c % 0x40) * 0x40 + d % 0x40
  {
    assert [b, c, d][1..] == [c, d];
    Payload2(n * 0x40 + b % 0x40, c, d);
  }

  /** Utf8 gives the shortest sequence whose leading byte announces it, whose other bytes continue it, and which
      reads back as the code point. */
  lemma Utf8IsEncoding(c: nat)
    requires c < 0x110000
    ensures var s := Utf8(c);
      && Announces(s[0]) == |s| && (forall k :: 1 <= k < |s| ==> Continues(s[k]))
      && CodePoint(s) == c && Least(|s|) <= c
  {
    var x, y, z := Sixes(c);
    if c < 0x80 {
      Read1(c);
    } else if c < 0x800 {
      Read2(x, c % 0x40);
    } else if c < 0x10000 {
      Read3(y, x % 0x40, c % 0x40);
    } else {
      Read4(z, y % 0x40, x % 0x40, c % 0x40);
    }
  }

  lemma Read1(a: nat)
    requires a < 0x80
    ensures Announces(a) == 1 && CodePoint([a]) == a
  {
    assert [a][1..] == [];
  }

  lemma Read2(a: nat, d: nat)
    requires a < 0x20 && d < 0x40
    ensures Announces(0xC0 + a) == 2 && Continues(0x80 + d) && CodePoint([0xC0 + a, 0x80 + d]) == a * 0x40 + d
  {
    assert [0xC0 + a, 0x80 + d][1..] == [0x80 + d];
    Payload1(a, 0x80 + d);
  }

  lemma Read3(a: nat, c: nat, d: nat)
    requires a < 0x10 && c < 0x40 && d < 0x40
    ensures Announces(0xE0 + a) == 3 && Continues(0x80 + c) && Continues(0x80 + d)
    ensures CodePoint([0xE0 + a, 0x80 + c, 0x80 + d]) == (a * 0x40 + c) * 0x40 + d
  {
    assert [0xE0 + a, 0x80 + c, 0x80 + d][1..] == [0x80 + c, 0x80 + d];
    Payload2(a, 0x80 + c, 0x80 + d);
  }

  lemma Read4(a: nat, b: nat, c: nat, d: nat)
    requires a < 0x08 && b < 0x40 && c < 0x40 && d < 0x40
    ensures Announces(0xF0 + a) == 4 && Continues(0x80 + b) && Continues(0x80 + c) && Continues(0x80 + d)
    ensures CodePoint([0xF0 + a, 0x80 + b, 0x80 + c, 0x80 + d]) == ((a * 0x40 + b) * 0x40 + c) * 0x40 + d
  {
    assert [0xF0 + a, 0x80 + b, 0x80 + c, 0x80 + d][1..] == [0x80 + b, 0x80 + c, 0x80 + d];
    Payload3(a, 0x80 + b, 0x80 + c, 0x80 + d);
  }

  /** A number in groups of six bits. */
  lemma Sixes(c: nat) returns (x: nat, y: nat, z: nat)
    ensures x == c / 0x40 && y == c / 0x1000 == x / 0x40 && z == c / 0x40000 == y / 0x40
    ensures c == x * 0x40 + c % 0x40 && x == y * 0x40 + x % 0x40 && y == z * 0x40 + y % 0x40
  {
    x, y, z := c / 0x40, c / 0x1000, c / 0x40000;
  }

  /** A high and a low surrogate for every code point beyond the first 0x10000, and no two for the same. */
  lemma SurrogatesCover(c: nat)
    requires 0x10000 <= c < 0x110000
    ensures var high, low := 0xD800 + (c - 0x10000) / 0x400, 0xDC00 + (c - 0x10000) % 0x400;
      && IsHigh(high) && IsLow(low) && SurrogatePair(high, low) == c
      && forall h: nat, l: nat :: IsHigh(h) && IsLow(l) && SurrogatePair(h, l) == c ==> h == high && l == low
  {
    forall h: nat, l: nat | IsHigh(h) && IsLow(l) && SurrogatePair(h, l) == c
      ensures h == 0xD800 + (c - 0x10000) / 0x400 && l == 0xDC00 + (c - 0x10000) % 0x400
    {
    }
  }

  // ------------------------------------------------------------------------- literals

  /** What may stand between the quotes: a byte as it is, a two-character escape, or one or two \u escapes by their
      hexadecimal digits. The last two kinds are escapes that parse_string drops. */
  datatype Unit =
    | Raw(byte: Byte)
    | Short(letter: Byte)
    | Basic(digits: Bytes)
    | Pair(high: Bytes, low: Bytes)
    | Dropped(digits: Bytes)
    | DroppedPair(high: Bytes, low: Bytes)

  /** The byte that a two-character escape stands for. */
  function ShortMeaning(c: Byte): Byte {
    if c == LOWER_B then BACKSPACE else if c == LOWER_F then FORM_FEED else if c == LOWER_N then NEWLINE
    else if c == LOWER_R then RETURN else if c == LOWER_T then TAB else c
  }

  predicate FourDigits(s: Bytes) {
    |s| == 4 && IsHex4(s, 0)
  }

  /** What parse_string takes: any byte but the quote and the backslash, any character after a backslash, any \u escape with
      its four digits, of which those of 0 and of unpaired surrogates are dropped. */
  predicate Allowed(u: Unit) {
    match u
    case Raw(c) => c != 0 && c != QUOTE && c != BACKSLASH
    case Short(c) => c != 0 && c != LOWER_U
    case Basic(d) => FourDigits(d) && Hex4(d, 0) != 0 && !IsHigh(Hex4(d, 0)) && !IsLow(Hex4(d, 0))
    case Pair(d, e) => FourDigits(d) && FourDigits(e) && IsHigh(Hex4(d, 0)) && IsLow(Hex4(e, 0))
    case Dropped(d) => FourDigits(d) && (Hex4(d, 0) == 0 || IsHigh(Hex4(d, 0)) || IsLow(Hex4(d, 0)))
    case DroppedPair(d, e) => FourDigits(d) && FourDigits(e) && IsHigh(Hex4(d, 0)) && !IsLow(Hex4(e, 0))
  }

  /** What section 7 of RFC 8259 allows of it, \u0000 and unpaired surrogates apart. */
  predicate WellFormed(u: Unit) {
    match u
    case Raw(c) => Plain(c)
    case Short(c) => c in [QUOTE, BACKSLASH, SLASH, LOWER_B, LOWER_F, LOWER_N, LOWER_R, LOWER_T]
    case Basic(d) => Allowed(u)
    case Pair(d, e) => Allowed(u)
    case _ => false
  }

  function Written(u: Unit): Bytes {
    match u
    case Raw(c) => [c]
    case Short(c) => [BACKSLASH, c]
    case Basic(d) => [BACKSLASH, LOWER_U] + d
    case Pair(d, e) => [BACKSLASH, LOWER_U] + d + [BACKSLASH, LOWER_U] + e
    case Dropped(d) => [BACKSLASH, LOWER_U] + d
    case DroppedPair(d, e) => [BACKSLASH, LOWER_U] + d + [BACKSLASH, LOWER_U] + e
  }

  function Meaning(u: Unit): Bytes
    requires Allowed(u)
  {
    match u
    case Raw(c) => [c]
    case Short(c) => [ShortMeaning(c)]
    case Basic(d) => Utf8(Hex4(d, 0))
    case Pair(d, e) => Utf8(SurrogatePair(Hex4(d, 0), Hex4(e, 0)))
    case _ => []
  }

  /** The unit that print_string_ptr writes for a byte. */
  function PrintedUnit(c: Byte): Unit
    requires c != 0
  {
    var e := EscapeByte(c);
    if |e| == 1 then Raw(c) else if |e| == 2 then Short(e[1]) else Basic(e[2..])
  }

  /** Every byte is printed in the shortest way that RFC 8259 has for it. */
  lemma EscapeShortest(c: Byte)
    requires c != 0
    ensures var u := PrintedUnit(c); WellFormed(u) && Written(u) == EscapeByte(c) && Allowed(u) && Meaning(u) == [c]
    ensures forall u: Unit :: WellFormed(u) && Allowed(u) && Meaning(u) == [c] ==> |EscapeByte(c)| <= |Written(u)|
  {
    var e := EscapeByte(c);
    if |e| > 2 {
      ControlUnit(c);
    }
    forall u: Unit | WellFormed(u) && Allowed(u) && Meaning(u) == [c]
      ensures |e| <= |Written(u)|
    {
    }
  }

  lemma ControlUnit(c: Byte)
    requires c != 0 && |EscapeByte(c)| > 2
    ensures var d := EscapeByte(c)[2..]; FourDigits(d) && Hex4(d, 0) == c < 32 && EscapeByte(c) == [BACKSLASH, LOWER_U] + d
  {
    var e := EscapeByte(c);
    var d := e[2..];
    assert d[0] == ZERO && d[1] == ZERO && d[2] == HexDigit(c / 16) && d[3] == HexDigit(c % 16);
    assert HexValue(d[2]) == c / 16 && HexValue(d[3]) == c % 16;
    assert e == [BACKSLASH, LOWER_U] + d;
  }

  predicate IsUnicode(u: Unit) {
    u.Basic? || u.Pair? || u.Dropped? || u.DroppedPair?
  }

  /** An unpaired high surrogate, which no other \u escape may follow: with that it would be a pair. */
  predicate Lone(u: Unit) {
    u.Dropped? && FourDigits(u.digits) && IsHigh(Hex4(u.digits, 0))
  }

  predicate AllAllowed(us: seq<Unit>) {
    && (forall k :: 0 <= k < |us| ==> Allowed(us[k]))
    && forall k :: 0 < k < |us| && IsUnicode(us[k]) ==> !Lone(us[k - 1])
  }

  predicate AllWellFormed(us: seq<Unit>) {
    forall k :: 0 <= k < |us| ==> WellFormed(us[k])
  }

  lemma WellFormedAllowed(us: seq<Unit>)
    requires AllWellFormed(us)
    ensures AllAllowed(us)
  {
  }

  function WrittenAll(us: seq<Unit>): Bytes {
    if us == [] then [] else Written(us[0]) + WrittenAll(us[1..])
  }

  function MeaningAll(us: seq<Unit>): Bytes
    requires AllAllowed(us)
  {
    if us == [] then [] else Meaning(us[0]) + MeaningAll(us[1..])
  }

  lemma Hex4At(t: Bytes, i: nat, j: nat, d: Bytes)
    requires FourDigits(d) && Spans(t, i, j, d)
    ensures IsHex4(t, i) && Hex4(t, i) == Hex4(d, 0)
  {
    assert forall k :: 0 <= k < 4 ==> t[i + k] == t[i..j][k] == d[k];
  }

  lemma TwoBytesAt(t: Bytes, i: nat, j: nat, a: Byte, b: Byte)
    requires Spans(t, i, j, [a, b])
    ensures j == i + 2 <= |t| && t[i] == a && t[i + 1] == b
  {
    assert t[i..j][0] == a && t[i..j][1] == b;
  }

  lemma EscapeMeaning(u: Unit, t: Bytes, p: nat, q: nat)
    requires Allowed(u) && !u.Raw? && Spans(t, p, q, Written(u))
    requires Lone(u) ==> At(t, q) != BACKSLASH || At(t, q + 1) != LOWER_U
    ensures p < |t| && t[p] == BACKSLASH && ParseEscape(t, p) == Parsed(Meaning(u), q)
  {
    if u.Short? {
      TwoBytesAt(t, p, q, BACKSLASH, u.letter);
    } else if u.Basic? || u.Dropped? {
      BasicMeaning(u, t, p, q);
    } else {
      PairMeaning(u, t, p, q);
    }
  }

  lemma BasicMeaning(u: Unit, t: Bytes, p: nat, q: nat)
    requires Allowed(u) && (u.Basic? || u.Dropped?) && Spans(t, p, q, Written(u))
    requires Lone(u) ==> At(t, q) != BACKSLASH || At(t, q + 1) != LOWER_U
    ensures p < |t| && t[p] == BACKSLASH && ParseEscape(t, p) == Parsed(Meaning(u), q)
  {
    hide Spans, Hex4, Utf8;
    var i := Split2(t, p, q, [BACKSLASH, LOWER_U], u.digits);
    TwoBytesAt(t, p, i, BACKSLASH, LOWER_U);
    Hex4At(t, i, q, u.digits);
    hide IsHex4;
    assert q == p + 6 by { assert Spans(t, i, q, u.digits); FourLong(t, i, q, u.digits); }
    assert ParseEscape(t, p) == ParseUnicode(t, p);
  }

  lemma FourLong(t: Bytes, i: nat, j: nat, d: Bytes)
    requires Spans(t, i, j, d) && |d| == 4
    ensures j == i + 4 <= |t|
  {
  }

  lemma PairMeaning(u: Unit, t: Bytes, p: nat, q: nat)
    requires Allowed(u) && (u.Pair? || u.DroppedPair?) && Spans(t, p, q, Written(u))
    ensures p < |t| && t[p] == BACKSLASH && ParseEscape(t, p) == Parsed(Meaning(u), q)
  {
    hide Spans, Hex4, Utf8, SurrogatePair;
    var i, j, k := Split4(t, p, q, [BACKSLASH, LOWER_U], u.high, [BACKSLASH, LOWER_U], u.low);
    TwoBytesAt(t, p, i, BACKSLASH, LOWER_U);
    FourLong(t, i, j, u.high);
    Hex4At(t, i, j, u.high);
    TwoBytesAt(t, j, k, BACKSLASH, LOWER_U);
    FourLong(t, k, q, u.low);
    Hex4At(t, k, q, u.low);
    hide IsHex4;
    assert ParseEscape(t, p) == ParseUnicode(t, p);
  }

  /** What stands at the beginning of the units: no \u unless the first is such an escape. */
  lemma UnitsBegin(us: seq<Unit>, t: Bytes, p: nat, q: nat)
    requires AllAllowed(us) && Spans(t, p, q, WrittenAll(us)) && (q == |t| || At(t, q) == QUOTE)
    ensures us == [] || !IsUnicode(us[0]) ==> At(t, p) != BACKSLASH || At(t, p + 1) != LOWER_U
  {
    if us != [] && !IsUnicode(us[0]) {
      var k := Split2(t, p, q, Written(us[0]), WrittenAll(us[1..]));
      if us[0].Raw? {
        ByteAt(t, p, k, us[0].byte);
      } else {
        TwoBytesAt(t, p, k, BACKSLASH, us[0].letter);
      }
    }
  }

  lemma AllowedTail(us: seq<Unit>)
    requires us != [] && AllAllowed(us)
    ensures Allowed(us[0]) && AllAllowed(us[1..]) && (Lone(us[0]) && |us| > 1 ==> !IsUnicode(us[1..][0]))
  {
    hide Lone, IsUnicode, Allowed;
    forall k | 0 < k < |us[1..]| && IsUnicode(us[1..][k])
      ensures !Lone(us[1..][k - 1])
    {
      assert us[1..][k] == us[k + 1] && us[1..][k - 1] == us[k];
    }
  }

  /** Every literal parses to the bytes it means: those written as they are, and for each \u escape or surrogate pair the
      UTF-8 encoding of its code point. The end of the text closes it like a quote. */
  lemma {:induction false} LiteralMeaning(us: seq<Unit>, t: Bytes, p: nat, q: nat)
    requires AllAllowed(us) && Spans(t, p, q, WrittenAll(us)) && (q == |t| || At(t, q) == QUOTE)
    ensures p <= |t| && Decode(t, p) == Parsed(MeaningAll(us), if q == |t| then q else q + 1)
  {
    if us != [] {
      var k := Split2(t, p, q, Written(us[0]), WrittenAll(us[1..]));
      AllowedTail(us);
      hide AllAllowed, Spans;
      LiteralMeaning(us[1..], t, k, q);
      UnitsBegin(us[1..], t, k, q);
      UnitMeaning(us[0], t, p, k);
      assert MeaningAll(us) == Meaning(us[0]) + MeaningAll(us[1..]);
      hide Decode, MeaningAll;
    }
  }

  lemma UnitMeaning(u: Unit, t: Bytes, p: nat, k: nat)
    requires Allowed(u) && Spans(t, p, k, Written(u))
    requires Lone(u) ==> At(t, k) != BACKSLASH || At(t, k + 1) != LOWER_U
    ensures k <= |t| && Decode(t, p) == Onto(Meaning(u), Decode(t, k))
  {
    if u.Raw? {
      ByteAt(t, p, k, u.byte);
      DecodeByte(t, p);
    } else {
      EscapeMeaning(u, t, p, k);
      DecodeEscape(t, p);
      hide ParseEscape, Meaning, Decode;
    }
  }

  // ------------------------------------------------------------------------- what is accepted

  /** What stands next to each other. */
  lemma Joined(t: Bytes, i: nat, k: nat, j: nat, a: Bytes, b: Bytes)
    requires Spans(t, i, k, a) && Spans(t, k, j, b)
    ensures Spans(t, i, j, a + b)
  {
    assert t[i..j] == t[i..k] + t[k..j];
  }

  lemma TwoBytes(t: Bytes, i: nat)
    requires i + 2 <= |t|
    ensures Spans(t, i, i + 2, [t[i], t[i + 1]])
  {
    assert t[i..i + 2] == [t[i], t[i + 1]];
  }

  lemma OneByte(t: Bytes, i: nat)
    requires i < |t|
    ensures Spans(t, i, i + 1, [t[i]])
  {
    assert t[i..i + 1] == [t[i]];
  }

  /** The unit that ParseEscape reads. */
  function EscapeUnit(t: Bytes, p: nat): Unit
    requires p < |t| && t[p] == BACKSLASH && ParseEscape(t, p).Parsed?
  {
    if t[p + 1] != LOWER_U then Short(t[p + 1])
    else
      var uc := Hex4(t, p + 2);
      if IsHigh(uc) && At(t, p + 6) == BACKSLASH && At(t, p + 7) == LOWER_U then
        if IsLow(Hex4(t, p + 8)) then Pair(t[p + 2..p + 6], t[p + 8..p + 12]) else DroppedPair(t[p + 2..p + 6], t[p + 8..p + 12])
      else if uc == 0 || IsHigh(uc) || IsLow(uc) then Dropped(t[p + 2..p + 6])
      else Basic(t[p + 2..p + 6])
  }

  lemma DigitsAt(t: Bytes, i: nat)
    requires IsHex4(t, i)
    ensures var d := t[i..i + 4]; FourDigits(d) && Hex4(d, 0) == Hex4(t, i) && Spans(t, i, i + 4, d)
  {
    var d := t[i..i + 4];
    assert forall k :: 0 <= k < 4 ==> d[k] == t[i + k];
  }

  lemma ShortUnitIs(t: Bytes, p: nat)
    requires NulFree(t) && p < |t| && t[p] == BACKSLASH && ParseEscape(t, p).Parsed? && t[p + 1] != LOWER_U
    ensures EscapeUnit(t, p) == Short(t[p + 1]) && t[p + 1] != 0 && Spans(t, p, p + 2, Written(Short(t[p + 1])))
    ensures ParseEscape(t, p) == Parsed([ShortMeaning(t[p + 1])], p + 2)
  {
    TwoBytes(t, p);
  }

  lemma EscapeMore(t: Bytes, p: nat)
    requires p < |t| && t[p] == BACKSLASH && ParseEscape(t, p).Parsed?
    ensures p + 1 < |t|
  {
  }

  lemma EscapeIsUnicode(t: Bytes, p: nat)
    requires p + 1 < |t| && t[p] == BACKSLASH && t[p + 1] == LOWER_U
    ensures ParseEscape(t, p) == ParseUnicode(t, p)
  {
    hide ParseUnicode;
  }

  lemma EscapeUnitIs(t: Bytes, p: nat)
    requires NulFree(t) && p < |t| && t[p] == BACKSLASH && ParseEscape(t, p).Parsed?
    ensures var u, q := EscapeUnit(t, p), ParseEscape(t, p).end;
      && Allowed(u) && Spans(t, p, q, Written(u)) && ParseEscape(t, p).value == Meaning(u)
      && (Lone(u) ==> At(t, q) != BACKSLASH || At(t, q + 1) != LOWER_U)
  {
    hide ParseEscape, ParseUnicode, Spans, Written, EscapeUnit, Hex4, FourDigits, Utf8;
    EscapeMore(t, p);
    if t[p + 1] == LOWER_U {
      EscapeIsUnicode(t, p);
      UnicodeUnitIs(t, p);
    } else {
      ShortUnitIs(t, p);
    }
  }

  lemma UnicodeUnitIs(t: Bytes, p: nat)
    requires p + 1 < |t| && t[p] == BACKSLASH && t[p + 1] == LOWER_U && ParseUnicode(t, p).Parsed?
    ensures ParseEscape(t, p) == ParseUnicode(t, p)
    ensures var u, q := EscapeUnit(t, p), ParseUnicode(t, p).end;
      && Allowed(u) && Spans(t, p, q, Written(u)) && ParseUnicode(t, p).value == Meaning(u)
      && (Lone(u) ==> At(t, q) != BACKSLASH || At(t, q + 1) != LOWER_U)
  {
    hide Hex4, IsHex4, Utf8, Spans;
    TwoBytes(t, p);
    DigitsAt(t, p + 2);
    var d := t[p + 2..p + 6];
    Joined(t, p, p + 2, p + 6, [BACKSLASH, LOWER_U], d);
    if IsHigh(Hex4(t, p + 2)) && At(t, p + 6) == BACKSLASH && At(t, p + 7) == LOWER_U {
      TwoBytes(t, p + 6);
      DigitsAt(t, p + 8);
      Joined(t, p, p + 6, p + 8, [BACKSLASH, LOWER_U] + d, [BACKSLASH, LOWER_U]);
      Joined(t, p, p + 8, p + 12, [BACKSLASH, LOWER_U] + d + [BACKSLASH, LOWER_U], t[p + 8..p + 12]);
    }
  }

  /** What a literal that is parsed consists of: us are its units, q is where it is closed. */
  ghost predicate Reads(t: Bytes, p: nat, us: seq<Unit>, q: nat, r: Parsed<Bytes>) {
    && AllAllowed(us) && Spans(t, p, q, WrittenAll(us)) && (q == |t| || At(t, q) == QUOTE)
    && r == Parsed(MeaningAll(us), if q == |t| then q else q + 1)
  }

  lemma ReadsMore(t: Bytes, p: nat, k: nat, u: Unit, us: seq<Unit>, q: nat, r: Parsed<Bytes>)
    requires Allowed(u) && Spans(t, p, k, Written(u)) && Reads(t, k, us, q, r) && k <= |t|
    requires Lone(u) ==> At(t, k) != BACKSLASH || At(t, k + 1) != LOWER_U
    ensures AllAllowed([u] + us) && Reads(t, p, [u] + us, q, Onto(Meaning(u), r))
  {
    var all := [u] + us;
    if us != [] && Lone(u) && IsUnicode(us[0]) {
      var l := Split2(t, k, q, Written(us[0]), WrittenAll(us[1..]));
      UnicodeBegins(us[0], t, k, l);
    }
    AllowedMore(u, us);
    AllOf(u, us);
    hide Allowed, AllAllowed, Written, WrittenAll, Meaning, MeaningAll, Lone, IsUnicode, Spans;
    Joined(t, p, k, q, Written(u), WrittenAll(us));
  }

  lemma AllOf(u: Unit, us: seq<Unit>)
    requires Allowed(u) && AllAllowed(us) && AllAllowed([u] + us)
    ensures WrittenAll([u] + us) == Written(u) + WrittenAll(us) && MeaningAll([u] + us) == Meaning(u) + MeaningAll(us)
  {
    assert ([u] + us)[0] == u && ([u] + us)[1..] == us;
    hide Written, Meaning, Allowed;
  }

  lemma AllowedMore(u: Unit, us: seq<Unit>)
    requires Allowed(u) && AllAllowed(us) && (us != [] && Lone(u) ==> !IsUnicode(us[0]))
    ensures AllAllowed([u] + us)
  {
    hide Allowed, IsUnicode, Lone;
    var all := [u] + us;
    forall x | 0 < x < |all| && IsUnicode(all[x])
      ensures !Lone(all[x - 1])
    {
      assert x > 1 ==> all[x] == us[x - 1] && all[x - 1] == us[x - 2];
    }
  }

  lemma UnicodeBegins(u: Unit, t: Bytes, p: nat, q: nat)
    requires IsUnicode(u) && Spans(t, p, q, Written(u))
    ensures At(t, p) == BACKSLASH && At(t, p + 1) == LOWER_U
  {
    assert t[p..q][0] == Written(u)[0] == BACKSLASH && t[p..q][1] == Written(u)[1] == LOWER_U;
  }

  lemma ReadsNothing(t: Bytes, p: nat)
    requires p == |t| || (p < |t| && t[p] == QUOTE)
    ensures Reads(t, p, [], p, Decode(t, p))
  {
    assert t[p..p] == [];
  }

  /** Nothing else is accepted between the quotes. */
  lemma {:induction false} LiteralSound(t: Bytes, p: nat) returns (us: seq<Unit>, q: nat)
    requires NulFree(t) && p <= |t| && Decode(t, p).Parsed?
    ensures p <= q <= |t| && Reads(t, p, us, q, Decode(t, p))
    decreases |t| - p
  {
    if p == |t| || t[p] == QUOTE {
      us, q := [], p;
      ReadsNothing(t, p);
    } else {
      var u, k;
      if t[p] != BACKSLASH {
        u, k := Raw(t[p]), p + 1;
        OneByte(t, p);
        DecodeByte(t, p);
      } else {
        u, k := EscapeUnit(t, p), ParseEscape(t, p).end;
        EscapeUnitIs(t, p);
        DecodeEscape(t, p);
      }
      hide Reads, Written, Meaning, ParseEscape, Decode, EscapeUnit;
      us, q := LiteralSound(t, k);
      ReadsMore(t, p, k, u, us, q, Decode(t, k));
      us := [u] + us;
    }
  }

  // ------------------------------------------------------------------------- the two passes

  /** The first pass: how many bytes it counts from inside the literal on. */
  function FirstPass(t: Bytes, p: nat): nat
    requires p <= |t|
    decreases |t| - p
  {
    if p == |t| || t[p] == QUOTE then 0
    else if t[p] != BACKSLASH then 1 + FirstPass(t, p + 1)
    else if p + 2 <= |t| then 1 + FirstPass(t, p + 2)
    else 1
  }

  /** What the first pass counts for a unit: one byte each, but no escape's backslash. */
  function Counted(us: seq<Unit>): nat {
    if us == [] then 0
    else
      var backslashes := if us[0].Raw? then 0 else if us[0].Pair? || us[0].DroppedPair? then 2 else 1;
      |Written(us[0])| - backslashes + Counted(us[1..])
  }

  lemma UnitCounted(u: Unit, t: Bytes, p: nat, k: nat)
    requires Allowed(u) && Spans(t, p, k, Written(u))
    ensures k <= |t| && FirstPass(t, p) == Counted([u]) + FirstPass(t, k)
  {
    if u.Raw? {
      ByteAt(t, p, k, u.byte);
    } else if u.Short? {
      TwoBytesAt(t, p, k, BACKSLASH, u.letter);
    } else if u.Basic? || u.Dropped? {
      HexCounted(t, p, k, u.digits);
    } else {
      var l := Split2(t, p, k, [BACKSLASH, LOWER_U] + u.high, [BACKSLASH, LOWER_U] + u.low) by {
        assert Written(u) == [BACKSLASH, LOWER_U] + u.high + ([BACKSLASH, LOWER_U] + u.low);
      }
      HexCounted(t, p, l, u.high);
      HexCounted(t, l, k, u.low);
    }
  }

  lemma HexCounted(t: Bytes, p: nat, k: nat, d: Bytes)
    requires FourDigits(d) && Spans(t, p, k, [BACKSLASH, LOWER_U] + d)
    ensures k <= |t| && FirstPass(t, p) == 5 + FirstPass(t, k)
  {
    var l := Split2(t, p, k, [BACKSLASH, LOWER_U], d);
    TwoBytesAt(t, p, l, BACKSLASH, LOWER_U);
    FourLong(t, l, k, d);
    Hex4At(t, l, k, d);
    hide Spans;
    FirstPassOverHex(t, l);
  }

  lemma CountedParts(us: seq<Unit>)
    requires us != []
    ensures Counted(us) == Counted([us[0]]) + Counted(us[1..])
  {
    assert [us[0]][1..] == [];
  }

  /** The size that the first pass finds is exact in this. */
  lemma {:induction false} FirstPassCounts(us: seq<Unit>, t: Bytes, p: nat, q: nat)
    requires AllAllowed(us) && Spans(t, p, q, WrittenAll(us)) && (q == |t| || At(t, q) == QUOTE)
    ensures p <= |t| && FirstPass(t, p) == Counted(us)
    decreases |us|
  {
    if us != [] {
      var k := Split2(t, p, q, Written(us[0]), WrittenAll(us[1..]));
      AllowedTail(us);
      hide AllAllowed, Allowed, Written, Spans, FirstPass;
      UnitCounted(us[0], t, p, k);
      FirstPassCounts(us[1..], t, k, q);
      CountedParts(us);
    }
  }

  lemma FirstPassOverHex(t: Bytes, p: nat)
    requires IsHex4(t, p)
    ensures FirstPass(t, p) == 4 + FirstPass(t, p + 4)
  {
    assert forall k :: p <= k < p + 4 ==> t[k] != QUOTE && t[k] != BACKSLASH;
    assert FirstPass(t, p) == 1 + FirstPass(t, p + 1);
    assert FirstPass(t, p + 1) == 1 + FirstPass(t, p + 2);
    assert FirstPass(t, p + 2) == 1 + FirstPass(t, p + 3);
  }

  /** An escape is counted for at least the bytes it stands for. */
  lemma EscapeFits(t: Bytes, p: nat)
    requires p < |t| && t[p] == BACKSLASH && ParseEscape(t, p).Parsed?
    ensures var r := ParseEscape(t, p); |r.value| + FirstPass(t, r.end) <= FirstPass(t, p)
  {
    if t[p + 1] == LOWER_U {
      FirstPassOverHex(t, p + 2);
      var uc := Hex4(t, p + 2);
      if IsHigh(uc) && At(t, p + 6) == BACKSLASH && At(t, p + 7) == LOWER_U {
        assert FirstPass(t, p + 6) == 1 + FirstPass(t, p + 8);
        FirstPassOverHex(t, p + 8);
      }
    }
  }

  /** The buffer is long enough: the second pass writes no more bytes than the first counted. */
  lemma {:induction false} DecodeFits(t: Bytes, p: nat)
    requires p <= |t| && Decode(t, p).Parsed?
    ensures |Decode(t, p).value| <= FirstPass(t, p)
    decreases |t| - p
  {
    if p < |t| && t[p] != QUOTE {
      if t[p] != BACKSLASH {
        DecodeFits(t, p + 1);
      } else {
        EscapeFits(t, p);
        DecodeFits(t, ParseEscape(t, p).end);
      }
    }
  }

  // ------------------------------------------------------------------------- as loops

  /** Where the second pass stands: w is out, and what the literal means is w and what p leads to. */
  ghost predicate Decoding(t: Bytes, start: nat, p: nat, w: Bytes) {
    start <= p <= |t| && Decode(t, start) == Onto(w, Decode(t, p))
  }

  lemma DecodingStarts(t: Bytes, start: nat)
    requires start <= |t|
    ensures Decoding(t, start, start, [])
  {
    if Decode(t, start).Parsed? {
      assert [] + Decode(t, start).value == Decode(t, start).value;
    }
  }

  lemma DecodingByte(t: Bytes, start: nat, p: nat, w: Bytes)
    requires Decoding(t, start, p, w) && p < |t| && t[p] != QUOTE && t[p] != BACKSLASH
    ensures Decoding(t, start, p + 1, w + [t[p]]) && FirstPass(t, p) == 1 + FirstPass(t, p + 1)
  {
    if Decode(t, p + 1).Parsed? {
      assert w + ([t[p]] + Decode(t, p + 1).value) == w + [t[p]] + Decode(t, p + 1).value;
    }
  }

  lemma DecodingEscape(t: Bytes, start: nat, p: nat, w: Bytes)
    requires Decoding(t, start, p, w) && p < |t| && t[p] == BACKSLASH
    ensures ParseEscape(t, p).Parsed? ==>
      var e := ParseEscape(t, p);
      Decoding(t, start, e.end, w + e.value) && |e.value| + FirstPass(t, e.end) <= FirstPass(t, p)
    ensures !ParseEscape(t, p).Parsed? ==> Decode(t, start).Malformed?
  {
    DecodeEscape(t, p);
    hide Decode, ParseEscape, FirstPass;
    if ParseEscape(t, p).Parsed? {
      var e := ParseEscape(t, p);
      EscapeFits(t, p);
      OntoOnto(w, e.value, Decode(t, e.end));
    }
  }

  lemma DecodingEnds(t: Bytes, start: nat, p: nat, w: Bytes)
    requires Decoding(t, start, p, w) && (p == |t| || t[p] == QUOTE)
    ensures Decode(t, start) == Parsed(w, if p == |t| then p else p + 1)
  {
    assert w + [] == w;
  }

  /** parse_hex4 on four hexadecimal digits. */
  method ReadHex4(t: Bytes, i: nat) returns (h: nat)
    requires IsHex4(t, i)
    ensures h == Hex4(t, i)
  {
    h := HexValue(t[i]);
    h := h * 16 + HexValue(t[i + 1]);
    h := h * 16 + HexValue(t[i + 2]);
    h := h * 16 + HexValue(t[i + 3]);
  }

  /** The leading-byte marks, by length. */
  const FIRST_BYTE_MARK: seq<Byte> := [0x00, 0x00, 0xC0, 0xE0, 0xF0, 0xF8, 0xFC]

  /** The encoding of code point c at out[ptr2..], last byte first. */
  method WriteUtf8(out: array<Byte>, ptr2: nat, c: nat) returns (end: nat)
    requires c < 0x110000 && ptr2 + |Utf8(c)| <= out.Length
    modifies out
    ensures end == ptr2 + |Utf8(c)| && out[ptr2..end] == Utf8(c) && out[..ptr2] == old(out[..ptr2])
  {
    ghost var x, y, z := Sixes(c);
    hide Utf8;
    Utf8Bytes(c, x, y, z);
    var uc: nat := c;
    var len := 4;
    if uc < 0x80 { len := 1; } else if uc < 0x800 { len := 2; } else if uc < 0x10000 { len := 3; }
    var at := ptr2 + len;
    if len >= 4 { at, uc := WriteSix(out, at, uc); }
    if len >= 3 { at, uc := WriteSix(out, at, uc); }
    if len >= 2 { at, uc := WriteSix(out, at, uc); }
    at := at - 1;
    out[at] := uc + FIRST_BYTE_MARK[len];
    end := at + len;
    assert forall k :: 0 <= k < ptr2 ==> out[..ptr2][k] == old(out[..ptr2])[k];
    assert forall k :: 0 <= k < |Utf8(c)| ==> out[ptr2 + k] == Utf8(c)[k];
  }

  /** `*--ptr2 = ((uc | 0x80) & 0xBF); uc >>= 6;` */
  method WriteSix(out: array<Byte>, at: nat, uc: nat) returns (at': nat, uc': nat)
    requires 0 < at <= out.Length
    modifies out
    ensures at' == at - 1 && uc' == uc / 0x40 && out[at'] == 0x80 + uc % 0x40
    ensures forall k :: 0 <= k < out.Length && k != at' ==> out[k] == old(out[k])
  {
    at', uc' := at - 1, uc / 0x40;
    out[at'] := 0x80 + uc % 0x40;
  }

  /** The encoding by its length, from the groups of six bits. */
  lemma Utf8Bytes(c: nat, x: nat, y: nat, z: nat)
    requires c < 0x110000 && x == c / 0x40 && y == x / 0x40 == c / 0x1000 && z == y / 0x40 == c / 0x40000
    ensures c < 0x80 ==> Utf8(c) == [c]
    ensures 0x80 <= c < 0x800 ==> x < 0x20 && Utf8(c) == [0xC0 + x, 0x80 + c % 0x40]
    ensures 0x800 <= c < 0x10000 ==> y < 0x10 && Utf8(c) == [0xE0 + y, 0x80 + x % 0x40, 0x80 + c % 0x40]
    ensures 0x10000 <= c ==> z < 0x08 && Utf8(c) == [0xF0 + z, 0x80 + y % 0x40, 0x80 + x % 0x40, 0x80 + c % 0x40]
  {
  }

  /** The first loop. */
  method CountBytes(t: Bytes, start: nat) returns (len: nat)
    requires start <= |t|
    ensures len == FirstPass(t, start)
  {
    var ptr := start;
    len := 0;
    while ptr < |t| && t[ptr] != QUOTE
      invariant ptr <= |t| && len + FirstPass(t, ptr) == FirstPass(t, start)
      decreases |t| - ptr
    {
      len := len + 1;
      if t[ptr] == BACKSLASH {
        if ptr + 1 == |t| { return; }
        ptr := ptr + 1;
      }
      ptr := ptr + 1;
    }
  }

  /** One escape of the second loop, ptr at its backslash: where both pointers go. */
  method WriteEscape(t: Bytes, ptr: nat, out: array<Byte>, ptr2: nat) returns (ok: bool, p: nat, p2: nat)
    requires ptr < |t| && t[ptr] == BACKSLASH
    requires ParseEscape(t, ptr).Parsed? ==> ptr2 + |ParseEscape(t, ptr).value| <= out.Length
    modifies out
    ensures ok <==> ParseEscape(t, ptr).Parsed?
    ensures ok ==> p == ParseEscape(t, ptr).end && p2 == ptr2 + |ParseEscape(t, ptr).value| <= out.Length
    ensures ok ==> out[..p2] == old(out[..ptr2]) + ParseEscape(t, ptr).value
  {
    p, p2 := ptr + 1, ptr2;
    if p == |t| { return false, p, p2; }
    ok := true;
    if t[p] == LOWER_B { out[p2] := BACKSPACE; p2 := p2 + 1; }
    else if t[p] == LOWER_F { out[p2] := FORM_FEED; p2 := p2 + 1; }
    else if t[p] == LOWER_N { out[p2] := NEWLINE; p2 := p2 + 1; }
    else if t[p] == LOWER_R { out[p2] := RETURN; p2 := p2 + 1; }
    else if t[p] == LOWER_T { out[p2] := TAB; p2 := p2 + 1; }
    else if t[p] == LOWER_U {
      ok, p, p2 := WriteUnicode(t, p, out, p2);
      if !ok { return; }
    }
    else { out[p2] := t[p]; p2 := p2 + 1; }
    p := p + 1;
  }

  /** The case of `u`: p at the u, then at the last hexadecimal digit read. */
  method WriteUnicode(t: Bytes, u: nat, out: array<Byte>, ptr2: nat) returns (ok: bool, p: nat, p2: nat)
    requires 1 <= u < |t| && t[u - 1] == BACKSLASH && t[u] == LOWER_U
    requires ParseUnicode(t, u - 1).Parsed? ==> ptr2 + |ParseUnicode(t, u - 1).value| <= out.Length
    modifies out
    ensures ok <==> ParseUnicode(t, u - 1).Parsed?
    ensures ok ==> p + 1 == ParseUnicode(t, u - 1).end && p2 == ptr2 + |ParseUnicode(t, u - 1).value| <= out.Length
    ensures ok ==> out[ptr2..p2] == ParseUnicode(t, u - 1).value && out[..ptr2] == old(out[..ptr2])
  {
    p, p2 := u, ptr2;
    hide Utf8, FirstPass, Decode, IsHex4, Hex4;
    if !IsHex4(t, p + 1) { return false, p, p2; }
    ok := true;
    var uc := ReadHex4(t, p + 1);
    p := p + 4;
    if (uc >= 0xDC00 && uc <= 0xDFFF) || uc == 0 { return; }
    if uc >= 0xD800 && uc <= 0xDBFF {
      if At(t, p + 1) != BACKSLASH || At(t, p + 2) != LOWER_U { return; }
      if !IsHex4(t, p + 3) { return false, p, p2; }
      var uc2 := ReadHex4(t, p + 3);
      p := p + 6;
      if uc2 < 0xDC00 || uc2 > 0xDFFF { return; }
      uc := 0x10000 + (uc % 0x400) * 0x400 + uc2 % 0x400;
    }
    p2 := WriteUtf8(out, p2, uc);
  }

  /** parse_string: ok with a buffer of exactly the counted size plus one, holding the literal's meaning and a NUL. */
  method ReadString(t: Bytes, str: nat) returns (r: Parsed<Bytes>, out: array<Byte>)
    requires NulFree(t) && str <= |t|
    ensures r == ParseString(t, str)
    ensures r.Parsed? ==>
      && out.Length == FirstPass(t, str + 1) + 1 && |r.value| < out.Length
      && out[..|r.value|] == r.value && out[|r.value|] == 0
    ensures fresh(out)
  {
    if At(t, str) != QUOTE {
      out := new Byte[0];
      return Failed, out;
    }
    var len := CountBytes(t, str + 1);
    out := new Byte[len + 1];
    var ptr: nat, ptr2: nat := str + 1, 0;
    DecodingStarts(t, str + 1);
    assert out[..0] == [];
    hide Decoding;
    while ptr < |t| && t[ptr] != QUOTE
      invariant str < ptr <= |t| && ptr2 + FirstPass(t, ptr) <= len == out.Length - 1
      invariant Decoding(t, str + 1, ptr, out[..ptr2])
      decreases |t| - ptr
    {
      ghost var w := out[..ptr2];
      if t[ptr] != BACKSLASH {
        DecodingByte(t, str + 1, ptr, w);
        out[ptr2] := t[ptr];
        ptr, ptr2 := ptr + 1, ptr2 + 1;
        assert out[..ptr2] == w + [t[ptr - 1]];
      } else {
        DecodingEscape(t, str + 1, ptr, w);
        var ok;
        ok, ptr, ptr2 := WriteEscape(t, ptr, out, ptr2);
        if !ok { return Malformed, out; }
      }
    }
    DecodingEnds(t, str + 1, ptr, out[..ptr2]);
    out[ptr2] := 0;
    if ptr < |t| { ptr := ptr + 1; }
    r := Parsed(out[..ptr2], ptr);
  }
}
