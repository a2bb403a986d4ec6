/** Parsing what the printers write gives the tree back. */
module JsonRoundTrip {
  import opened JsonText
  import opened JsonParse

  lemma StartsWithConcat(t: Bytes, i: nat, a: Bytes, b: Bytes)
    requires StartsWith(t, i, a + b)
    ensures StartsWith(t, i, a) && StartsWith(t, i + |a|, b)
  {
    assert t[i..i + |a|] == t[i..i + |a + b|][..|a|];
    assert t[i + |a|..i + |a| + |b|] == t[i..i + |a + b|][|a|..];
  }

  lemma StartsWithHead(t: Bytes, i: nat, p: Bytes)
    requires StartsWith(t, i, p) && p != []
    ensures i < |t| && t[i] == p[0]
  {
    assert t[i..i + |p|][0] == p[0];
  }

  // ------------------------------------------------------------------------- white space

  lemma {:induction false} SkipOver(t: Bytes, i: nat, ws: Bytes)
    requires NulFree(t) && Blank(ws) && StartsWith(t, i, ws)
    ensures Skip(t, i) == Skip(t, i + |ws|)
    decreases |ws|
  {
    if ws != [] {
      StartsWithHead(t, i, ws);
      assert ws == [ws[0]] + ws[1..];
      StartsWithConcat(t, i, [ws[0]], ws[1..]);
      SkipOver(t, i + 1, ws[1..]);
    }
  }

  lemma {:induction false} SkipTwice(t: Bytes, i: nat)
    requires NulFree(t) && i <= |t|
    ensures Skip(t, Skip(t, i)) == Skip(t, i)
    decreases |t| - i
  {
    if i < |t| && t[i] <= 32 {
      SkipTwice(t, i + 1);
    }
  }

  // ------------------------------------------------------------------------- numbers

  /** Bytes that cannot continue a number. */
  predicate Follows(c: Byte) {
    !IsDigit(c) && c != DOT && c != LOWER_E && c != UPPER_E
  }

  lemma {:induction false} AccumulateAppend(n: real, a: Bytes, d: Byte)
    ensures Accumulate(n, a + [d]) == Accumulate(n, a) * 10.0 + (d as int - 48) as real
    decreases |a|
  {
    if a == [] {
      assert ([] + [d])[1..] == [];
    } else {
      AccumulateAppend(n * 10.0 + (a[0] as int - 48) as real, a[1..], d);
      assert (a + [d])[1..] == a[1..] + [d];
    }
  }

  lemma {:induction false} AccumulateDigits(n: nat)
    ensures Accumulate(0.0, Digits(n)) == n as real
    ensures n > 0 ==> Digits(n)[0] != ZERO
  {
    if n < 10 {
      assert Accumulate(0.0, [48 + n]) == Accumulate(n as real, []);
    } else {
      AccumulateDigits(n / 10);
      AccumulateAppend(0.0, Digits(n / 10), 48 + n % 10);
      RealTens(n);
    }
  }

  lemma RealTens(n: nat)
    ensures (n / 10) as real * 10.0 + (n % 10) as real == n as real
  {
    assert n == n / 10 * 10 + n % 10;
  }

  lemma {:induction false} DigitsEndAt(t: Bytes, i: nat, d: Bytes)
    requires StartsWith(t, i, d) && !IsDigit(At(t, i + |d|)) && forall k :: 0 <= k < |d| ==> IsDigit(d[k])
    ensures DigitsEnd(t, i) == i + |d|
    decreases |d|
  {
    if d != [] {
      StartsWithHead(t, i, d);
      assert d == [d[0]] + d[1..];
      StartsWithConcat(t, i, [d[0]], d[1..]);
      DigitsEndAt(t, i + 1, d[1..]);
    }
  }

  lemma IntegerPartOfDigits(t: Bytes, i: nat, n: nat)
    requires StartsWith(t, i, Digits(n)) && !IsDigit(At(t, i + |Digits(n)|))
    ensures IntegerPart(t, i) == (n as real, i + |Digits(n)|)
  {
    var d := Digits(n);
    AccumulateDigits(n);
    StartsWithHead(t, i, d);
    DigitsEndAt(t, i, d);
  }

  lemma NoFraction(t: Bytes, i: nat, n: int, start: nat, end: nat)
    requires i < |t| && start == (if t[i] == MINUS then i + 1 else i) && (t[i] == MINUS || IsDigit(t[i]))
    requires n >= 0 && start <= |t| && IntegerPart(t, start) == (n as real, end) && Follows(At(t, end))
    ensures ParseNumber(t, i) == Parsed(Number((if t[i] == MINUS then -n else n) as real), end)
  {
    assert Pow10(0) == 1.0;
    assert (-1.0) * n as real == (-n) as real && 1.0 * n as real == n as real;
    hide IntegerPart, Pow10;
  }

  lemma NumberRoundTrip(d: real, t: Bytes, i: nat)
    requires IsInt(d) && StartsWith(t, i, PrintInt(d.Floor)) && Follows(At(t, i + |PrintInt(d.Floor)|))
    ensures i < |t| && (t[i] == MINUS || IsDigit(t[i]))
    ensures ParseNumber(t, i) == Parsed(Number(d), i + |PrintInt(d.Floor)|)
  {
    var n := d.Floor;
    StartsWithHead(t, i, PrintInt(n));
    if n < 0 {
      StartsWithConcat(t, i, [MINUS], Digits(-n));
    }
    hide Digits, StartsWith, IntegerPart, ParseNumber;
    if n < 0 {
      IntegerPartOfDigits(t, i + 1, -n);
      NoFraction(t, i, -n, i + 1, i + |PrintInt(n)|);
    } else {
      IntegerPartOfDigits(t, i, n);
      NoFraction(t, i, n, i, i + |PrintInt(n)|);
    }
  }

  // ------------------------------------------------------------------------- strings

  lemma EscapeByteRoundTrip(c: Byte, t: Bytes, p: nat)
    requires c != 0 && !Plain(c) && StartsWith(t, p, EscapeByte(c))
    ensures p < |t| && t[p] == BACKSLASH && ParseEscape(t, p) == Parsed([c], p + |EscapeByte(c)|)
  {
    var e := EscapeByte(c);
    assert forall k :: 0 <= k < |e| ==> t[p + k] == t[p..p + |e|][k] == e[k];
    assert p + 1 < |t| && t[p] == e[0] && t[p + 1] == e[1];
    if |e| > 2 {
      assert t[p + 2] == e[2] && t[p + 3] == e[3] && t[p + 4] == e[4] && t[p + 5] == e[5];
      assert HexValue(t[p + 2]) == 0 && HexValue(t[p + 3]) == 0;
      assert HexValue(t[p + 4]) == c / 16 && HexValue(t[p + 5]) == c % 16;
      assert IsHex4(t, p + 2) && Hex4(t, p + 2) == c;
    }
  }

  lemma PlainByte(c: Byte)
    requires Plain(c)
    ensures EscapeByte(c) == [c]
  {
  }

  /** Decoding from p on, after the bytes w are out. */
  function Onto(w: Bytes, r: Parsed<Bytes>): Parsed<Bytes> {
    if r.Parsed? then Parsed(w + r.value, r.end) else r
  }

  lemma OntoOnto(a: Bytes, b: Bytes, r: Parsed<Bytes>)
    ensures Onto(a, Onto(b, r)) == Onto(a + b, r)
  {
    if r.Parsed? {
      assert a + (b + r.value) == a + b + r.value;
    }
  }

  lemma DecodeEscape(t: Bytes, p: nat)
    requires p < |t| && t[p] == BACKSLASH
    ensures ParseEscape(t, p).Parsed? ==> Decode(t, p) == Onto(ParseEscape(t, p).value, Decode(t, ParseEscape(t, p).end))
    ensures !ParseEscape(t, p).Parsed? ==> Decode(t, p) == Malformed
  {
    hide ParseEscape;
  }

  lemma DecodeByte(t: Bytes, p: nat)
    requires p < |t| && t[p] != QUOTE && t[p] != BACKSLASH
    ensures Decode(t, p) == Onto([t[p]], Decode(t, p + 1))
  {
  }

  /** Decoding one printed byte, whatever follows it. */
  lemma DecodeOne(c: Byte, rest: Bytes, t: Bytes, p: nat)
    requires c != 0 && StartsWith(t, p, EscapeByte(c) + rest)
    ensures StartsWith(t, p + |EscapeByte(c)|, rest)
    ensures p < |t| && Decode(t, p) == Onto([c], Decode(t, p + |EscapeByte(c)|))
  {
    hide EscapeByte, StartsWith, ParseEscape, Decode;
    StartsWithConcat(t, p, EscapeByte(c), rest);
    StartsWithHead(t, p, EscapeByte(c));
    StartsInside(t, p + |EscapeByte(c)|, rest);
    if Plain(c) {
      PlainByte(c);
      DecodeByte(t, p);
    } else {
      EscapeByteRoundTrip(c, t, p);
      DecodeEscape(t, p);
    }
  }

  lemma StartsInside(t: Bytes, i: nat, p: Bytes)
    requires StartsWith(t, i, p)
    ensures i + |p| <= |t|
  {
  }

  lemma Regroup(a: Bytes, b: Bytes, c: Bytes)
    ensures a + b + c == a + (b + c)
  {
  }

  lemma EscapeParts(s: Bytes)
    requires NulFree(s) && s != []
    ensures s[0] != 0 && NulFree(s[1..]) && Escape(s) == EscapeByte(s[0]) + Escape(s[1..])
    ensures |Escape(s)| == |EscapeByte(s[0])| + |Escape(s[1..])|
  {
    hide EscapeByte;
  }

  lemma HeadTail(s: Bytes)
    requires s != []
    ensures s == [s[0]] + s[1..]
  {
  }

  /** Past the last byte of the string stands the closing quote. */
  lemma DecodeClosing(s: Bytes, t: Bytes, p: nat)
    requires s == [] && StartsWith(t, p, Escape(s) + [QUOTE])
    ensures p <= |t| && Decode(t, p) == Parsed(s, p + |Escape(s)| + 1)
  {
    assert Escape(s) + [QUOTE] == [QUOTE];
    StartsWithHead(t, p, [QUOTE]);
  }

  lemma {:induction false} DecodeEscaped(s: Bytes, t: Bytes, p: nat)
    requires NulFree(s) && StartsWith(t, p, Escape(s) + [QUOTE])
    ensures p <= |t| && Decode(t, p) == Parsed(s, p + |Escape(s)| + 1)
  {
    hide *;
    if s == [] {
      DecodeClosing(s, t, p);
    } else {
      EscapeParts(s);
      HeadTail(s);
      Regroup(EscapeByte(s[0]), Escape(s[1..]), [QUOTE]);
      DecodeOne(s[0], Escape(s[1..]) + [QUOTE], t, p);
      DecodeEscaped(s[1..], t, p + |EscapeByte(s[0])|);
      OntoParsed([s[0]], s[1..], p + |Escape(s)| + 1);
    }
  }

  lemma OntoParsed(w: Bytes, s: Bytes, end: nat)
    ensures Onto(w, Parsed(s, end)) == Parsed(w + s, end)
  {
  }

  /** Parsing a printed string literal gives back its bytes. */
  lemma StringRoundTrip(s: Bytes, t: Bytes, i: nat)
    requires NulFree(s) && StartsWith(t, i, PrintString(s))
    ensures ParseString(t, i) == Parsed(s, i + |PrintString(s)|)
  {
    assert PrintString(s) == [QUOTE] + (Escape(s) + [QUOTE]);
    StartsWithConcat(t, i, [QUOTE], Escape(s) + [QUOTE]);
    StartsWithHead(t, i, [QUOTE]);
    DecodeEscaped(s, t, i + 1);
  }

  // ------------------------------------------------------------------------- layout

  predicate Blank(ws: Bytes) {
    forall k :: 0 <= k < |ws| ==> ws[k] <= 32
  }

  lemma BlankIf(c: bool, ws: Bytes)
    requires Blank(ws)
    ensures Blank(If(c, ws))
  {
  }

  lemma {:induction false} BlankTabs(n: int)
    ensures Blank(Tabs(n))
  {
    if n > 0 {
      BlankTabs(n - 1);
    }
  }

  lemma SkipNothing(t: Bytes, i: nat)
    requires NulFree(t) && i <= |t| && At(t, i) > 32
    ensures Skip(t, i) == i
  {
  }

  /** The text s stands between positions i and j. */
  ghost predicate Spans(t: Bytes, i: nat, j: nat, s: Bytes) {
    j == i + |s| && StartsWith(t, i, s)
  }

  lemma Split2(t: Bytes, i: nat, j: nat, a: Bytes, b: Bytes) returns (k: nat)
    requires Spans(t, i, j, a + b)
    ensures i <= k <= j <= |t| && Spans(t, i, k, a) && Spans(t, k, j, b)
  {
    StartsWithConcat(t, i, a, b);
    k := i + |a|;
  }

  lemma Split3(t: Bytes, i: nat, j: nat, a: Bytes, b: Bytes, c: Bytes) returns (k: nat, l: nat)
    requires Spans(t, i, j, a + b + c)
    ensures i <= k <= l <= j <= |t| && Spans(t, i, k, a) && Spans(t, k, l, b) && Spans(t, l, j, c)
  {
    hide Spans;
    l := Split2(t, i, j, a + b, c);
    k := Split2(t, i, l, a, b);
  }

  lemma Split4(t: Bytes, i: nat, j: nat, a: Bytes, b: Bytes, c: Bytes, d: Bytes) returns (k: nat, l: nat, m: nat)
    requires Spans(t, i, j, a + b + c + d)
    ensures i <= k <= l <= m <= j <= |t|
    ensures Spans(t, i, k, a) && Spans(t, k, l, b) && Spans(t, l, m, c) && Spans(t, m, j, d)
  {
    hide Spans;
    m := Split2(t, i, j, a + b + c, d);
    k, l := Split3(t, i, m, a, b, c);
  }

  lemma Split5(t: Bytes, i: nat, j: nat, a: Bytes, b: Bytes, c: Bytes, d: Bytes, e: Bytes) returns (k: nat, l: nat, m: nat, n: nat)
    requires Spans(t, i, j, a + b + c + d + e)
    ensures i <= k <= l <= m <= n <= j <= |t|
    ensures Spans(t, i, k, a) && Spans(t, k, l, b) && Spans(t, l, m, c) && Spans(t, m, n, d) && Spans(t, n, j, e)
  {
    hide Spans;
    n := Split2(t, i, j, a + b + c + d, e);
    k, l, m := Split4(t, i, n, a, b, c, d);
  }

  lemma ByteAt(t: Bytes, i: nat, j: nat, c: Byte)
    requires Spans(t, i, j, [c])
    ensures j == i + 1 <= |t| && At(t, i) == c
  {
    StartsWithHead(t, i, [c]);
  }

  lemma SkipBlank(t: Bytes, i: nat, j: nat, ws: Bytes)
    requires NulFree(t) && Blank(ws) && Spans(t, i, j, ws)
    ensures i <= j <= |t| && Skip(t, i) == Skip(t, j)
  {
    SkipOver(t, i, ws);
  }

  // ------------------------------------------------------------------------- trees

  predicate StartsValue(c: Byte) {
    c == LOWER_N || c == LOWER_F || c == LOWER_T || c == QUOTE || c == MINUS || IsDigit(c) || c == OPEN_BRACKET || c == OPEN_BRACE
  }

  lemma FirstByte(v: Json, depth: nat, fmt: bool)
    requires Printable(v)
    ensures PrintValue(v, depth, fmt) != [] && StartsValue(PrintValue(v, depth, fmt)[0])
  {
  }

  lemma FirstByteAt(v: Json, depth: nat, fmt: bool, t: Bytes, i: nat, j: nat)
    requires Printable(v) && NulFree(t) && Spans(t, i, j, PrintValue(v, depth, fmt))
    ensures i < |t| && StartsValue(At(t, i)) && Skip(t, i) == i
  {
    FirstByte(v, depth, fmt);
    StartsWithHead(t, i, PrintValue(v, depth, fmt));
    SkipNothing(t, i);
  }

  lemma KeywordRoundTrip(v: Json, depth: nat, fmt: bool, t: Bytes, i: nat)
    requires NulFree(t) && (v.Null? || v.False? || v.True?) && StartsWith(t, i, PrintValue(v, depth, fmt))
    ensures ParseValue(t, i) == Parsed(v, i + |PrintValue(v, depth, fmt)|)
  {
    StartsWithHead(t, i, PrintValue(v, depth, fmt));
    if StartsWith(t, i, NULL_TEXT) { StartsWithHead(t, i, NULL_TEXT); }
    if StartsWith(t, i, FALSE_TEXT) { StartsWithHead(t, i, FALSE_TEXT); }
  }

  /** A text that does not begin like a keyword is not read as one. */
  lemma NotKeyword(t: Bytes, i: nat)
    requires i < |t| && t[i] != LOWER_N && t[i] != LOWER_F && t[i] != LOWER_T
    ensures !StartsWith(t, i, NULL_TEXT) && !StartsWith(t, i, FALSE_TEXT) && !StartsWith(t, i, TRUE_TEXT)
  {
    if StartsWith(t, i, NULL_TEXT) { StartsWithHead(t, i, NULL_TEXT); }
    if StartsWith(t, i, FALSE_TEXT) { StartsWithHead(t, i, FALSE_TEXT); }
    if StartsWith(t, i, TRUE_TEXT) { StartsWithHead(t, i, TRUE_TEXT); }
  }

  lemma ScalarRoundTrip(v: Json, depth: nat, fmt: bool, t: Bytes, i: nat)
    requires Printable(v) && NulFree(t) && (v.Number? || v.String?) && StartsWith(t, i, PrintValue(v, depth, fmt))
    requires Follows(At(t, i + |PrintValue(v, depth, fmt)|))
    ensures ParseValue(t, i) == Parsed(v, i + |PrintValue(v, depth, fmt)|)
  {
    FirstByte(v, depth, fmt);
    StartsWithHead(t, i, PrintValue(v, depth, fmt));
    NotKeyword(t, i);
    if v.Number? {
      NumberRoundTrip(v.value, t, i);
    } else {
      StringRoundTrip(v.text, t, i);
    }
  }

  /** Parsing a printed value, wherever it stands, gives the value back. */
  lemma {:induction false} ValueRoundTrip(v: Json, depth: nat, fmt: bool, t: Bytes, i: nat, j: nat)
    requires Printable(v) && NulFree(t) && Spans(t, i, j, PrintValue(v, depth, fmt)) && Follows(At(t, j))
    ensures ParseValue(t, i) == Parsed(v, j)
    decreases v, 1
  {
    if v.Array? {
      ArrayRoundTrip(v, depth, fmt, t, i, j);
    } else if v.Object? {
      ObjectRoundTrip(v, depth, fmt, t, i, j);
    } else if v.Number? || v.String? {
      ScalarRoundTrip(v, depth, fmt, t, i);
    } else {
      KeywordRoundTrip(v, depth, fmt, t, i);
    }
  }

  // One step of each parsing function from the results of its parts.

  lemma ItemsLast(t: Bytes, i: nat, v: Json, end: nat)
    requires NulFree(t) && i <= |t| && ParseValue(t, Skip(t, i)) == Parsed(v, end) && At(t, end) == CLOSE_BRACKET
    ensures ParseItems(t, i) == Parsed([v], end + 1)
  {
    hide ParseValue, Skip, NulFree;
    SkipNothing(t, end);
  }

  lemma ItemsMore(t: Bytes, i: nat, v: Json, end: nat, vs: seq<Json>, last: nat)
    requires NulFree(t) && i <= |t| && ParseValue(t, Skip(t, i)) == Parsed(v, end) && At(t, end) == COMMA
    requires end < |t| && ParseItems(t, end + 1) == Parsed(vs, last)
    ensures ParseItems(t, i) == Parsed([v] + vs, last)
  {
    hide ParseValue, Skip, NulFree;
    SkipNothing(t, end);
  }

  lemma MemberParts(t: Bytes, i: nat, name: Bytes, colon: nat, v: Json, end: nat)
    requires NulFree(t) && i <= |t| && ParseString(t, Skip(t, i)) == Parsed(name, colon) && At(t, colon) == COLON
    requires colon < |t| && ParseValue(t, Skip(t, colon + 1)) == Parsed(v, end)
    ensures ParseMember(t, i) == Parsed(Member(name, v), end)
  {
    SkipNothing(t, colon);
    hide ParseValue, ParseString, Skip;
  }

  lemma MembersLast(t: Bytes, i: nat, m: Member, end: nat)
    requires NulFree(t) && i <= |t| && ParseMember(t, i) == Parsed(m, end) && end <= |t| && At(t, Skip(t, end)) == CLOSE_BRACE
    ensures ParseMembers(t, i) == Parsed([m], Skip(t, end) + 1)
  {
    hide ParseMember, Skip;
  }

  lemma MembersMore(t: Bytes, i: nat, m: Member, end: nat, ms: seq<Member>, last: nat)
    requires NulFree(t) && i <= |t| && ParseMember(t, i) == Parsed(m, end) && At(t, end) == COMMA
    requires end < |t| && ParseMembers(t, end + 1) == Parsed(ms, last)
    ensures ParseMembers(t, i) == Parsed([m] + ms, last)
  {
    hide ParseMember, Skip, NulFree;
    SkipNothing(t, end);
  }

  lemma ArrayOf(t: Bytes, i: nat, vs: seq<Json>, end: nat)
    requires NulFree(t) && i < |t| && t[i] == OPEN_BRACKET && At(t, Skip(t, i + 1)) != CLOSE_BRACKET
    requires ParseItems(t, Skip(t, i + 1)) == Parsed(vs, end)
    ensures ParseValue(t, i) == Parsed(Array(vs), end)
  {
    NotKeyword(t, i);
    hide ParseItems, StartsWith;
  }

  lemma ObjectOf(t: Bytes, i: nat, ms: seq<Member>, end: nat)
    requires NulFree(t) && i < |t| && t[i] == OPEN_BRACE && At(t, Skip(t, i + 1)) != CLOSE_BRACE
    requires ParseMembers(t, Skip(t, i + 1)) == Parsed(ms, end)
    ensures ParseValue(t, i) == Parsed(Object(ms), end)
  {
    NotKeyword(t, i);
    hide ParseMembers, StartsWith;
  }

  lemma EmptyArray(t: Bytes, i: nat, j: nat)
    requires NulFree(t) && Spans(t, i, j, [OPEN_BRACKET] + [] + [CLOSE_BRACKET])
    ensures ParseValue(t, i) == Parsed(Array([]), j)
  {
    var k, l := Split3(t, i, j, [OPEN_BRACKET], [], [CLOSE_BRACKET]);
    ByteAt(t, i, k, OPEN_BRACKET);
    ByteAt(t, l, j, CLOSE_BRACKET);
    NotKeyword(t, i);
    SkipNothing(t, i + 1);
    hide StartsWith, ParseItems;
  }

  lemma {:induction false} ArrayRoundTrip(v: Json, depth: nat, fmt: bool, t: Bytes, i: nat, j: nat)
    requires v.Array? && Printable(v) && NulFree(t) && Spans(t, i, j, PrintValue(v, depth, fmt))
    ensures ParseValue(t, i) == Parsed(v, j)
    decreases v, 0
  {
    if v.items == [] {
      EmptyArray(t, i, j);
    } else {
      var inner := PrintItems(v.items, depth, fmt);
      hide PrintItems, Spans, ParseValue, Skip, Printable;
      var k, l := Split3(t, i, j, [OPEN_BRACKET], inner, [CLOSE_BRACKET]);
      ByteAt(t, i, k, OPEN_BRACKET);
      ByteAt(t, l, j, CLOSE_BRACKET);
      ItemsRoundTrip(v.items, depth, fmt, t, k, k, l);
      ArrayOf(t, i, v.items, j);
    }
  }

  lemma ItemsLayout(items: seq<Json>, depth: nat, fmt: bool, t: Bytes, p: nat, j: nat) returns (e: nat, q: nat)
    requires |items| > 1 && PrintableItems(items) && NulFree(t) && Spans(t, p, j, PrintItems(items, depth, fmt))
    ensures Printable(items[0]) && PrintableItems(items[1..])
    ensures p <= e < q <= j <= |t| && Spans(t, p, e, PrintValue(items[0], depth + 1, fmt)) && At(t, e) == COMMA
    ensures Skip(t, e + 1) == Skip(t, q) && Spans(t, q, j, PrintItems(items[1..], depth, fmt))
  {
    var w, sep, rest := PrintValue(items[0], depth + 1, fmt), If(fmt, [SPACE]), PrintItems(items[1..], depth, fmt);
    assert PrintItems(items, depth, fmt) == w + [COMMA] + sep + rest;
    BlankIf(fmt, [SPACE]);
    hide PrintItems, PrintValue, Printable, Spans, Skip, If, Blank;
    var f;
    e, f, q := Split4(t, p, j, w, [COMMA], sep, rest);
    ByteAt(t, e, f, COMMA);
    SkipBlank(t, f, q, sep);
  }

  lemma OneItem(items: seq<Json>, depth: nat, fmt: bool)
    requires |items| == 1 && PrintableItems(items)
    ensures Printable(items[0]) && PrintItems(items, depth, fmt) == PrintValue(items[0], depth + 1, fmt)
  {
  }

  /** The entries of an array, from a position i whose next significant byte is theirs. */
  lemma {:induction false} ItemsRoundTrip(items: seq<Json>, depth: nat, fmt: bool, t: Bytes, i: nat, p: nat, j: nat)
    requires items != [] && PrintableItems(items) && NulFree(t) && i <= |t| && p <= |t| && Skip(t, i) == Skip(t, p)
    requires Spans(t, p, j, PrintItems(items, depth, fmt)) && At(t, j) == CLOSE_BRACKET
    ensures ParseItems(t, i) == Parsed(items, j + 1)
    ensures Skip(t, i) == p && StartsValue(At(t, p))
    decreases items, 0
  {
    hide PrintItems, PrintValue, Printable, PrintableItems, Spans, ParseValue, ParseItems, Skip, NulFree;
    if |items| == 1 {
      OneItem(items, depth, fmt);
      FirstByteAt(items[0], depth + 1, fmt, t, p, j);
      ValueRoundTrip(items[0], depth + 1, fmt, t, p, j);
      ItemsLast(t, i, items[0], j);
      assert items == [items[0]];
    } else {
      var e, q := ItemsLayout(items, depth, fmt, t, p, j);
      FirstByteAt(items[0], depth + 1, fmt, t, p, e);
      ValueRoundTrip(items[0], depth + 1, fmt, t, p, e);
      ItemsRoundTrip(items[1..], depth, fmt, t, e + 1, q, j);
      ItemsMore(t, i, items[0], e, items[1..], j + 1);
      assert items == [items[0]] + items[1..];
    }
  }

  lemma MemberText(m: Member, depth: nat, fmt: bool)
    requires NulFree(m.name) && Printable(m.value)
    ensures PrintMember(m, depth, fmt)
      == If(fmt, Tabs(depth)) + PrintString(m.name) + [COLON] + If(fmt, [TAB]) + PrintValue(m.value, depth, fmt)
  {
    hide Tabs, PrintString, PrintValue, Printable, NulFree;
  }

  lemma BlankParts(depth: nat, fmt: bool)
    ensures Blank(If(fmt, Tabs(depth))) && Blank(If(fmt, [TAB]))
  {
    BlankTabs(depth);
  }

  lemma MemberLayout(m: Member, depth: nat, fmt: bool, t: Bytes, p: nat, j: nat) returns (n: nat, q: nat, r: nat)
    requires NulFree(m.name) && Printable(m.value) && NulFree(t) && Spans(t, p, j, PrintMember(m, depth, fmt))
    ensures p <= n <= q < r <= j <= |t| && Skip(t, p) == Skip(t, n) && Spans(t, n, q, PrintString(m.name))
    ensures At(t, q) == COLON && Skip(t, q + 1) == Skip(t, r) && Spans(t, r, j, PrintValue(m.value, depth, fmt))
  {
    var tabs, name, ws, val := If(fmt, Tabs(depth)), PrintString(m.name), If(fmt, [TAB]), PrintValue(m.value, depth, fmt);
    MemberText(m, depth, fmt);
    hide *;
    BlankParts(depth, fmt);
    var f;
    n, q, f, r := Split5(t, p, j, tabs, name, [COLON], ws, val);
    ByteAt(t, q, f, COLON);
    SkipBlank(t, p, n, tabs);
    SkipBlank(t, f, r, ws);
  }

  lemma NameRoundTrip(s: Bytes, t: Bytes, i: nat, j: nat)
    requires NulFree(s) && NulFree(t) && Spans(t, i, j, PrintString(s))
    ensures i <= |t| && Skip(t, i) == i && At(t, i) == QUOTE && ParseString(t, i) == Parsed(s, j)
  {
    StartsWithHead(t, i, PrintString(s));
    SkipNothing(t, i);
    StringRoundTrip(s, t, i);
  }

  lemma {:induction false} MemberRoundTrip(m: Member, depth: nat, fmt: bool, t: Bytes, i: nat, p: nat, j: nat)
    requires NulFree(m.name) && Printable(m.value) && NulFree(t) && i <= |t| && p <= |t| && Skip(t, i) == Skip(t, p)
    requires Spans(t, p, j, PrintMember(m, depth, fmt)) && Follows(At(t, j))
    ensures ParseMember(t, i) == Parsed(m, j)
    ensures At(t, Skip(t, i)) == QUOTE
    decreases m, 2
  {
    hide PrintMember, PrintValue, PrintString, Spans, ParseValue, ParseString, ParseMember, Skip, Printable;
    var n, q, r := MemberLayout(m, depth, fmt, t, p, j);
    NameRoundTrip(m.name, t, n, q);
    FirstByteAt(m.value, depth, fmt, t, r, j);
    ValueRoundTrip(m.value, depth, fmt, t, r, j);
    MemberParts(t, i, m.name, q, m.value, j);
  }

  /** What may stand after an object's members: blanks, then the closing brace. */
  ghost predicate Closes(t: Bytes, e: nat, z: nat)
    requires NulFree(t)
  {
    e <= |t| && (At(t, e) <= 32 || At(t, e) == CLOSE_BRACE) && Skip(t, e) == z && At(t, z) == CLOSE_BRACE
  }

  lemma ClosesAfter(t: Bytes, i: nat, j: nat, ws: Bytes, z: nat)
    requires NulFree(t) && Blank(ws) && Spans(t, i, j, ws) && Closes(t, j, z)
    ensures Closes(t, i, z)
  {
    SkipBlank(t, i, j, ws);
    if ws != [] {
      StartsWithHead(t, i, ws);
    }
  }

  lemma LastMemberLayout(members: seq<Member>, depth: nat, fmt: bool, t: Bytes, p: nat, j: nat, z: nat) returns (e: nat)
    requires |members| == 1 && PrintableMembers(members) && NulFree(t)
    requires Spans(t, p, j, PrintMembers(members, depth, fmt)) && Closes(t, j, z)
    ensures NulFree(members[0].name) && Printable(members[0].value)
    ensures p <= e <= |t| && Spans(t, p, e, PrintMember(members[0], depth, fmt))
    ensures Follows(At(t, e)) && Skip(t, e) == z && At(t, z) == CLOSE_BRACE
  {
    var m := members[0];
    assert PrintMembers(members, depth, fmt) == PrintMember(m, depth, fmt) + If(fmt, [NEWLINE]);
    BlankIf(fmt, [NEWLINE]);
    hide PrintMember, PrintMembers, Spans, Closes, Printable, Blank, If;
    e := Split2(t, p, j, PrintMember(m, depth, fmt), If(fmt, [NEWLINE]));
    ClosesAfter(t, e, j, If(fmt, [NEWLINE]), z);
    ClosesFollows(t, e, z);
  }

  lemma MembersLayout(members: seq<Member>, depth: nat, fmt: bool, t: Bytes, p: nat, j: nat) returns (e: nat, q: nat)
    requires |members| > 1 && PrintableMembers(members) && NulFree(t) && Spans(t, p, j, PrintMembers(members, depth, fmt))
    ensures NulFree(members[0].name) && Printable(members[0].value) && PrintableMembers(members[1..])
    ensures p <= e < q <= j <= |t| && Spans(t, p, e, PrintMember(members[0], depth, fmt)) && At(t, e) == COMMA
    ensures Skip(t, e + 1) == Skip(t, q) && Spans(t, q, j, PrintMembers(members[1..], depth, fmt))
  {
    var w, nl, rest := PrintMember(members[0], depth, fmt), If(fmt, [NEWLINE]), PrintMembers(members[1..], depth, fmt);
    assert PrintMembers(members, depth, fmt) == w + [COMMA] + nl + rest;
    BlankIf(fmt, [NEWLINE]);
    hide PrintMembers, PrintMember, Printable, Spans, Skip, If, Blank;
    var f;
    e, f, q := Split4(t, p, j, w, [COMMA], nl, rest);
    ByteAt(t, e, f, COMMA);
    SkipBlank(t, f, q, nl);
  }

  lemma ClosesFollows(t: Bytes, e: nat, z: nat)
    requires NulFree(t) && Closes(t, e, z)
    ensures Follows(At(t, e)) && e <= |t| && Skip(t, e) == z && At(t, z) == CLOSE_BRACE
  {
  }

  /** The members of an object, from a position i with nothing but white space up to theirs. */
  lemma {:induction false} MembersRoundTrip(members: seq<Member>, depth: nat, fmt: bool, t: Bytes, i: nat, p: nat, j: nat, z: nat)
    requires members != [] && PrintableMembers(members) && NulFree(t) && i <= |t| && p <= |t| && Skip(t, i) == Skip(t, p)
    requires Spans(t, p, j, PrintMembers(members, depth, fmt)) && Closes(t, j, z)
    ensures ParseMembers(t, i) == Parsed(members, z + 1)
    ensures At(t, Skip(t, i)) == QUOTE
    decreases members, 0
  {
    hide PrintMember, PrintMembers, Spans, ParseMember, ParseMembers, Skip, Printable, PrintableMembers, Closes, NulFree;
    if |members| == 1 {
      var e := LastMemberLayout(members, depth, fmt, t, p, j, z);
      MemberRoundTrip(members[0], depth, fmt, t, i, p, e);
      MembersLast(t, i, members[0], e);
      assert members == [members[0]];
    } else {
      var e, q := MembersLayout(members, depth, fmt, t, p, j);
      MemberRoundTrip(members[0], depth, fmt, t, i, p, e);
      MembersRoundTrip(members[1..], depth, fmt, t, e + 1, q, j, z);
      MembersMore(t, i, members[0], e, members[1..], z + 1);
      assert members == [members[0]] + members[1..];
    }
  }

  lemma EmptyObject(t: Bytes, i: nat, j: nat, ws: Bytes)
    requires NulFree(t) && Blank(ws) && Spans(t, i, j, [OPEN_BRACE] + ws + [CLOSE_BRACE])
    ensures ParseValue(t, i) == Parsed(Object([]), j)
  {
    var k, l := Split3(t, i, j, [OPEN_BRACE], ws, [CLOSE_BRACE]);
    ByteAt(t, i, k, OPEN_BRACE);
    ByteAt(t, l, j, CLOSE_BRACE);
    SkipBlank(t, k, l, ws);
    SkipNothing(t, l);
    NotKeyword(t, i);
    hide StartsWith, ParseMembers;
  }

  lemma EmptyObjectBlank(depth: nat, fmt: bool)
    ensures Blank(If(fmt, [NEWLINE] + Tabs(depth - 1)))
  {
    BlankTabs(depth - 1);
  }

  lemma ObjectLayout(v: Json, depth: nat, fmt: bool, t: Bytes, i: nat, j: nat) returns (p: nat, e: nat, z: nat)
    requires v.Object? && v.members != [] && Printable(v) && NulFree(t) && Spans(t, i, j, PrintValue(v, depth, fmt))
    ensures PrintableMembers(v.members) && j == z + 1
    ensures i < p <= e <= z < j <= |t| && At(t, i) == OPEN_BRACE && Skip(t, i + 1) == Skip(t, p)
    ensures Spans(t, p, e, PrintMembers(v.members, depth + 1, fmt)) && Closes(t, e, z)
  {
    var nl, tabs, inner := If(fmt, [NEWLINE]), If(fmt, Tabs(depth)), PrintMembers(v.members, depth + 1, fmt);
    assert PrintValue(v, depth, fmt) == [OPEN_BRACE] + nl + inner + tabs + [CLOSE_BRACE];
    BlankTabs(depth);
    BlankIf(fmt, [NEWLINE]);
    BlankIf(fmt, Tabs(depth));
    assert PrintableMembers(v.members);
    hide PrintValue, PrintMembers, Tabs, Skip, Blank, If, Printable, PrintableMembers, Spans;
    var f;
    f, p, e, z := Split5(t, i, j, [OPEN_BRACE], nl, inner, tabs, [CLOSE_BRACE]);
    ByteAt(t, i, f, OPEN_BRACE);
    ByteAt(t, z, j, CLOSE_BRACE);
    SkipBlank(t, f, p, nl);
    SkipNothing(t, z);
    ClosesAfter(t, e, z, tabs, z);
  }

  lemma {:induction false} ObjectRoundTrip(v: Json, depth: nat, fmt: bool, t: Bytes, i: nat, j: nat)
    requires v.Object? && Printable(v) && NulFree(t) && Spans(t, i, j, PrintValue(v, depth, fmt))
    ensures ParseValue(t, i) == Parsed(v, j)
    decreases v, 0
  {
    if v.members == [] {
      EmptyObjectBlank(depth, fmt);
      EmptyObject(t, i, j, If(fmt, [NEWLINE] + Tabs(depth - 1)));
    } else {
      hide PrintValue, PrintMembers, ParseMembers, Skip, ParseValue, Printable, PrintableMembers, Spans, Closes;
      var p, e, z := ObjectLayout(v, depth, fmt, t, i, j);
      SkipTwice(t, i + 1);
      MembersRoundTrip(v.members, depth + 1, fmt, t, Skip(t, i + 1), p, e, z);
      ObjectOf(t, i, v.members, j);
    }
  }

  // ------------------------------------------------------------------------- whole texts

  lemma {:induction false} TabsNulFree(n: int)
    ensures NulFree(Tabs(n))
  {
    if n > 0 {
      TabsNulFree(n - 1);
    }
  }

  lemma {:induction false} EscapeNulFree(s: Bytes)
    requires NulFree(s)
    ensures NulFree(Escape(s))
  {
    if s != [] {
      EscapeNulFree(s[1..]);
    }
  }

  /** Printed text has no NUL in it: strlen of it is its length. */
  lemma {:induction false} PrintNulFree(v: Json, depth: nat, fmt: bool)
    requires Printable(v)
    ensures NulFree(PrintValue(v, depth, fmt))
    decreases v, 1
  {
    match v
    case String(s) => EscapeNulFree(s);
    case Array(items) => ItemsNulFree(items, depth, fmt);
    case Object(members) => ObjectNulFree(v, depth, fmt);
    case Number(d) => assert forall k :: 0 <= k < |PrintInt(d.Floor)| ==> PrintInt(d.Floor)[k] > 0;
    case _ =>
  }

  lemma {:induction false} ObjectNulFree(v: Json, depth: nat, fmt: bool)
    requires v.Object? && Printable(v)
    ensures NulFree(PrintValue(v, depth, fmt))
    decreases v, 0
  {
    TabsNulFree(depth);
    TabsNulFree(depth - 1);
    if v.members != [] {
      var inner, nl, tabs := PrintMembers(v.members, depth + 1, fmt), If(fmt, [NEWLINE]), If(fmt, Tabs(depth));
      assert PrintValue(v, depth, fmt) == [OPEN_BRACE] + nl + inner + tabs + [CLOSE_BRACE];
      MembersNulFree(v.members, depth + 1, fmt);
      hide PrintMembers, PrintValue, Tabs, Printable;
    }
  }

  lemma {:induction false} ItemsNulFree(items: seq<Json>, depth: nat, fmt: bool)
    requires PrintableItems(items)
    ensures NulFree(PrintItems(items, depth, fmt))
    decreases items, 0
  {
    if items != [] {
      PrintNulFree(items[0], depth + 1, fmt);
      ItemsNulFree(items[1..], depth, fmt);
    }
  }

  lemma {:induction false} MembersNulFree(members: seq<Member>, depth: nat, fmt: bool)
    requires PrintableMembers(members)
    ensures NulFree(PrintMembers(members, depth, fmt))
    decreases members, 0
  {
    if members != [] {
      var m, rest := PrintMember(members[0], depth, fmt), PrintMembers(members[1..], depth, fmt);
      assert PrintMembers(members, depth, fmt) ==
        if |members| == 1 then m + If(fmt, [NEWLINE]) else m + [COMMA] + If(fmt, [NEWLINE]) + rest;
      hide PrintMember, PrintMembers, Printable;
      MemberNulFree(members[0], depth, fmt);
      MembersNulFree(members[1..], depth, fmt);
    }
  }

  lemma {:induction false} MemberNulFree(m: Member, depth: nat, fmt: bool)
    requires NulFree(m.name) && Printable(m.value)
    ensures NulFree(PrintMember(m, depth, fmt))
    decreases m, 2
  {
    EscapeNulFree(m.name);
    PrintNulFree(m.value, depth, fmt);
    TabsNulFree(depth);
    hide Tabs, PrintValue, Escape, Printable;
  }

  /** cJSON_ParseWithOpts, with null termination required or not, applied to what cJSON_Print or
      cJSON_PrintUnformatted returns gives back the tree, children in order, and the end of the text. */
  lemma ParsePrintRoundTrip(v: Json, fmt: bool, requireNullTerminated: bool)
    requires Printable(v)
    ensures var t := if fmt then Print(v) else PrintUnformatted(v);
      NulFree(t) && ParseWithOpts(t, requireNullTerminated) == Parsed(v, |t|)
  {
    var t := PrintValue(v, 0, fmt);
    PrintNulFree(v, 0, fmt);
    FirstByte(v, 0, fmt);
    assert t[0..|t|] == t;
    ValueRoundTrip(v, 0, fmt, t, 0, |t|);
  }
}
