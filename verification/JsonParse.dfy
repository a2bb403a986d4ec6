/** The recursive-descent parser as functions of a text and a position. Position |t| is the terminating NUL. */
module JsonParse {
  import opened JsonText

  /** Parsed: the value and the position after it. Failed: the parser returns a null pointer. Malformed: a
      literal whose backslash is at the very end, or with a \u that four hexadecimal digits do not follow; what
      the parser does from there on is not modelled. */
  datatype Parsed<+T> = Parsed(value: T, end: nat) | Failed | Malformed

  /** The byte at a position, NUL at the end. */
  function At(t: Bytes, i: nat): Byte {
    if i < |t| then t[i] else 0
  }

  /** skip: over bytes 1 to 32. */
  function Skip(t: Bytes, i: nat): (j: nat)
    requires NulFree(t) && i <= |t|
    ensures i <= j <= |t|
    decreases |t| - i
  {
    if i < |t| && t[i] <= 32 then Skip(t, i + 1) else i
  }

  /** strncmp */
  predicate StartsWith(t: Bytes, i: nat, p: Bytes) {
    i + |p| <= |t| && t[i..i + |p|] == p
  }

  // ------------------------------------------------------------------------- numbers

  predicate IsDigit(c: Byte) {
    ZERO <= c <= NINE
  }

  function DigitsEnd(t: Bytes, i: nat): (j: nat)
    requires i <= |t|
    ensures i <= j <= |t| && !IsDigit(At(t, j))
    ensures forall k :: i <= k < j ==> IsDigit(t[k])
    decreases |t| - i
  {
    if IsDigit(At(t, i)) then DigitsEnd(t, i + 1) else i
  }

  /** `n = n * 10.0 + digit` over a run of digits. */
  function Accumulate(n: real, digits: Bytes): real
    decreases |digits|
  {
    if digits == [] then n
    else Accumulate(n * 10.0 + (digits[0] as int - 48) as real, digits[1..])
  }

  function AccumulateInt(n: int, digits: Bytes): int
    decreases |digits|
  {
    if digits == [] then n
    else AccumulateInt(n * 10 + (digits[0] as int - 48), digits[1..])
  }

  /** pow(10.0, e) */
  function Pow10(e: int): real
    decreases if e < 0 then -e else e
  {
    if e == 0 then 1.0 else if e > 0 then 10.0 * Pow10(e - 1) else Pow10(e + 1) / 10.0
  }

  function Scaled(negative: bool, n: real, e: int): real {
    (if negative then -1.0 else 1.0) * n * Pow10(e)
  }

  /** The integer part: an optional zero, then digits if the next is 1 to 9. */
  function IntegerPart(t: Bytes, i: nat): (real, nat)
    requires i <= |t|
    ensures i <= IntegerPart(t, i).1 <= |t|
    ensures IsDigit(At(t, i)) ==> i < IntegerPart(t, i).1
  {
    var j := if At(t, i) == ZERO then i + 1 else i;
    if IsDigit(At(t, j)) && At(t, j) != ZERO then (Accumulate(0.0, t[j..DigitsEnd(t, j)]), DigitsEnd(t, j))
    else (0.0, j)
  }

  /** The fraction: n with its digits appended, and their number. */
  function FractionPart(t: Bytes, i: nat, n: real): (real, nat, nat)
    requires i <= |t|
    ensures i <= FractionPart(t, i, n).2 <= |t|
  {
    if At(t, i) == DOT && IsDigit(At(t, i + 1)) then
      var j := DigitsEnd(t, i + 1);
      (Accumulate(n, t[i + 1..j]), j - (i + 1), j)
    else (n, 0, i)
  }

  /** The exponent with its sign, 0 when there is none. */
  function ExponentPart(t: Bytes, i: nat): (int, nat)
    requires i <= |t|
    ensures i <= ExponentPart(t, i).1 <= |t|
  {
    if At(t, i) == LOWER_E || At(t, i) == UPPER_E then
      var j := if At(t, i + 1) == PLUS || At(t, i + 1) == MINUS then i + 2 else i + 1;
      var e := AccumulateInt(0, t[j..DigitsEnd(t, j)]);
      (if At(t, i + 1) == MINUS then -e else e, DigitsEnd(t, j))
    else (0, i)
  }

  /** parse_number, in exact arithmetic. */
  function ParseNumber(t: Bytes, i: nat): (r: Parsed<Json>)
    requires i < |t| && (t[i] == MINUS || IsDigit(t[i]))
    ensures r.Parsed? && i < r.end <= |t|
  {
    var start := if t[i] == MINUS then i + 1 else i;
    var (n0, j0) := IntegerPart(t, start);
    var (n1, scale, j1) := FractionPart(t, j0, n0);
    var (e, j2) := ExponentPart(t, j1);
    Parsed(Number(Scaled(t[i] == MINUS, n1, e - scale)), j2)
  }

  // ------------------------------------------------------------------------- strings

  /** One hexadecimal digit, as parse_hex4 reads it. */
  function HexValue(c: Byte): (r: int)
    ensures r == -1 || 0 <= r < 16
  {
    if ZERO <= c <= NINE then c - 48
    else if 65 <= c <= 70 then c - 55
    else if 97 <= c <= 102 then c - 87
    else -1
  }

  predicate IsHex4(t: Bytes, i: nat) {
    i + 4 <= |t| && forall k :: i <= k < i + 4 ==> HexValue(t[k]) >= 0
  }

  /** parse_hex4 on four hexadecimal digits. */
  function Hex4(t: Bytes, i: nat): (r: nat)
    requires IsHex4(t, i)
    ensures r < 0x10000
  {
    ((HexValue(t[i]) * 16 + HexValue(t[i + 1])) * 16 + HexValue(t[i + 2])) * 16 + HexValue(t[i + 3])
  }

  /** The encoding of a code point in section 3 of RFC 3629. */
  function Utf8(c: nat): (r: Bytes)
    requires c < 0x110000
    ensures 1 <= |r| <= 4
  {
    if c < 0x80 then [c]
    else if c < 0x800 then [0xC0 + c / 0x40, 0x80 + c % 0x40]
    else if c < 0x10000 then [0xE0 + c / 0x1000, 0x80 + c / 0x40 % 0x40, 0x80 + c % 0x40]
    else [0xF0 + c / 0x40000, 0x80 + c / 0x1000 % 0x40, 0x80 + c / 0x40 % 0x40, 0x80 + c % 0x40]
  }

  function IsHigh(c: nat): bool { 0xD800 <= c <= 0xDBFF }

  function IsLow(c: nat): bool { 0xDC00 <= c <= 0xDFFF }

  function SurrogatePair(high: nat, low: nat): (c: nat)
    requires IsHigh(high) && IsLow(low)
    ensures 0x10000 <= c < 0x110000
  {
    0x10000 + (high % 0x400) * 0x400 + low % 0x400
  }

  /** An escape at backslash position p: the bytes it stands for and the position after it. */
  function ParseEscape(t: Bytes, p: nat): (r: Parsed<Bytes>)
    requires p < |t| && t[p] == BACKSLASH
    ensures r.Parsed? ==> p + 2 <= r.end <= |t|
  {
    if p + 1 == |t| then Malformed
    else
      var c := t[p + 1];
      if c == LOWER_B then Parsed([BACKSPACE], p + 2)
      else if c == LOWER_F then Parsed([FORM_FEED], p + 2)
      else if c == LOWER_N then Parsed([NEWLINE], p + 2)
      else if c == LOWER_R then Parsed([RETURN], p + 2)
      else if c == LOWER_T then Parsed([TAB], p + 2)
      else if c == LOWER_U then ParseUnicode(t, p)
      else Parsed([c], p + 2)
  }

  /** A \u escape; unpaired surrogates and \u0000 stand for nothing. */
  function ParseUnicode(t: Bytes, p: nat): (r: Parsed<Bytes>)
    requires p + 1 < |t| && t[p] == BACKSLASH && t[p + 1] == LOWER_U
    ensures r.Parsed? ==> p + 6 <= r.end <= |t| && (|r.value| == 4 ==> r.end == p + 12) && |r.value| <= 4
  {
    if !IsHex4(t, p + 2) then Malformed
    else
      var uc := Hex4(t, p + 2);
      if IsLow(uc) || uc == 0 then Parsed([], p + 6)
      else if !IsHigh(uc) then Parsed(Utf8(uc), p + 6)
      else if At(t, p + 6) != BACKSLASH || At(t, p + 7) != LOWER_U then Parsed([], p + 6)
      else if !IsHex4(t, p + 8) then Malformed
      else
        var uc2 := Hex4(t, p + 8);
        if IsLow(uc2) then Parsed(Utf8(SurrogatePair(uc, uc2)), p + 12) else Parsed([], p + 12)
  }

  /** The second pass of parse_string, from inside the literal; the end of the text closes it too. */
  function Decode(t: Bytes, p: nat): (r: Parsed<Bytes>)
    requires p <= |t|
    ensures r.Parsed? ==> p <= r.end <= |t|
    ensures !r.Failed?
    decreases |t| - p
  {
    if p == |t| then Parsed([], p)
    else if t[p] == QUOTE then Parsed([], p + 1)
    else if t[p] != BACKSLASH then
      match Decode(t, p + 1)
      case Parsed(s, end) => Parsed([t[p]] + s, end)
      case _ => Malformed
    else
      match ParseEscape(t, p)
      case Parsed(e, q) =>
        (match Decode(t, q)
         case Parsed(s, end) => Parsed(e + s, end)
         case _ => Malformed)
      case _ => Malformed
  }

  /** parse_string */
  function ParseString(t: Bytes, i: nat): (r: Parsed<Bytes>)
    requires i <= |t|
    ensures r.Parsed? ==> i < r.end <= |t|
  {
    if At(t, i) != QUOTE then Failed else Decode(t, i + 1)
  }

  // ------------------------------------------------------------------------- values

  /** A parse that stops hands on how it stopped. */
  function Refusal<T, U>(r: Parsed<T>): Parsed<U> {
    if r.Failed? then Failed else Malformed
  }

  function Rewrap<T, U>(r: Parsed<T>, f: T -> U): Parsed<U> {
    if r.Parsed? then Parsed(f(r.value), r.end) else Refusal(r)
  }

  function Prepend<T>(x: T, rest: Parsed<seq<T>>): Parsed<seq<T>> {
    Rewrap(rest, xs => [x] + xs)
  }

  /** parse_value */
  function ParseValue(t: Bytes, i: nat): (r: Parsed<Json>)
    requires NulFree(t) && i <= |t|
    ensures r.Parsed? ==> i < r.end <= |t|
    decreases |t| - i, 1
  {
    if StartsWith(t, i, NULL_TEXT) then Parsed(Null, i + 4)
    else if StartsWith(t, i, FALSE_TEXT) then Parsed(False, i + 5)
    else if StartsWith(t, i, TRUE_TEXT) then Parsed(True, i + 4)
    else if At(t, i) == QUOTE then Rewrap(ParseString(t, i), s => String(s))
    else if At(t, i) == MINUS || IsDigit(At(t, i)) then ParseNumber(t, i)
    else if At(t, i) == OPEN_BRACKET then Rewrap(ParseArray(t, i), items => Array(items))
    else if At(t, i) == OPEN_BRACE then Rewrap(ParseObject(t, i), members => Object(members))
    else Failed
  }

  /** parse_array: the children. */
  function ParseArray(t: Bytes, i: nat): (r: Parsed<seq<Json>>)
    requires NulFree(t) && i < |t|
    ensures r.Parsed? ==> i < r.end <= |t|
    decreases |t| - i, 0
  {
    var j := Skip(t, i + 1);
    if At(t, j) == CLOSE_BRACKET then Parsed([], j + 1) else ParseItems(t, j)
  }

  /** parse_object: the children. */
  function ParseObject(t: Bytes, i: nat): (r: Parsed<seq<Member>>)
    requires NulFree(t) && i < |t|
    ensures r.Parsed? ==> i < r.end <= |t|
    decreases |t| - i, 0
  {
    var j := Skip(t, i + 1);
    if At(t, j) == CLOSE_BRACE then Parsed([], j + 1) else ParseMembers(t, j)
  }

  /** The values of an array, up to and including the closing bracket. */
  function ParseItems(t: Bytes, i: nat): (r: Parsed<seq<Json>>)
    requires NulFree(t) && i <= |t|
    ensures r.Parsed? ==> i < r.end <= |t|
    decreases |t| - i, 2
  {
    var v := ParseValue(t, Skip(t, i));
    if !v.Parsed? then Refusal(v)
    else
      var j := Skip(t, v.end);
      if At(t, j) == CLOSE_BRACKET then Parsed([v.value], j + 1)
      else if At(t, j) != COMMA then Failed
      else Prepend(v.value, ParseItems(t, j + 1))
  }

  /** One `name : value`. */
  function ParseMember(t: Bytes, i: nat): (r: Parsed<Member>)
    requires NulFree(t) && i <= |t|
    ensures r.Parsed? ==> i < r.end <= |t|
    decreases |t| - i, 2
  {
    var name := ParseString(t, Skip(t, i));
    if !name.Parsed? then Refusal(name)
    else
      var j := Skip(t, name.end);
      if At(t, j) != COLON then Failed
      else Rewrap(ParseValue(t, Skip(t, j + 1)), v => Member(name.value, v))
  }

  /** The members of an object, up to and including the closing brace. */
  function ParseMembers(t: Bytes, i: nat): (r: Parsed<seq<Member>>)
    requires NulFree(t) && i <= |t|
    ensures r.Parsed? ==> i < r.end <= |t|
    decreases |t| - i, 3
  {
    var m := ParseMember(t, i);
    if !m.Parsed? then Refusal(m)
    else
      var j := Skip(t, m.end);
      if At(t, j) == CLOSE_BRACE then Parsed([m.value], j + 1)
      else if At(t, j) != COMMA then Failed
      else Prepend(m.value, ParseMembers(t, j + 1))
  }

  /** cJSON_ParseWithOpts */
  function ParseWithOpts(t: Bytes, requireNullTerminated: bool): (r: Parsed<Json>)
    requires NulFree(t)
  {
    var v := ParseValue(t, Skip(t, 0));
    if !v.Parsed? || !requireNullTerminated then v
    else if Skip(t, v.end) < |t| then Failed
    else Parsed(v.value, Skip(t, v.end))
  }
}
