/** The two printers: one allocates every piece and composes them, one writes into a shared buffer. Both give the
    text of JsonText, and neither writes outside what it secured. */
module JsonWriter {
  import opened JsonText
  import opened JsonRoundTrip
  import opened JsonBuffer

  // ------------------------------------------------------------------------- strings

  lemma {:induction false} EscapeNothing(s: Bytes)
    requires NulFree(s) && forall k :: 0 <= k < |s| ==> Plain(s[k])
    ensures Escape(s) == s
  {
    if s != [] {
      EscapeNothing(s[1..]);
      assert [s[0]] + s[1..] == s;
    }
  }

  lemma EscapeFrom(s: Bytes, i: nat)
    requires NulFree(s) && i < |s|
    ensures NulFree(s[i..]) && Escape(s[i..]) == EscapeByte(s[i]) + Escape(s[i + 1..])
  {
    assert s[i..][1..] == s[i + 1..];
  }

  /** The first loop of print_string_ptr: is there a byte to escape? */
  method NeedsEscape(s: Bytes) returns (flag: bool)
    requires NulFree(s)
    ensures !flag ==> Escape(s) == s
  {
    flag := false;
    for i := 0 to |s|
      invariant !flag ==> forall k :: 0 <= k < i ==> Plain(s[k])
    {
      flag := flag || s[i] < 32 || s[i] == QUOTE || s[i] == BACKSLASH;
    }
    if !flag {
      EscapeNothing(s);
    }
  }

  /** The second loop: the length of the escaped string. */
  method EscapedLength(s: Bytes) returns (len: nat)
    requires NulFree(s)
    ensures len == |Escape(s)|
  {
    var i := 0;
    len := 0;
    assert s[0..] == s;
    while i < |s|
      invariant i <= |s| && NulFree(s[i..]) && len + |Escape(s[i..])| == |Escape(s)|
    {
      EscapeFrom(s, i);
      var token := s[i];
      len := len + 1;
      if token in [QUOTE, BACKSLASH, BACKSPACE, FORM_FEED, NEWLINE, RETURN, TAB] { len := len + 1; }
      else if token < 32 { len := len + 5; }
      i := i + 1;
    }
  }

  /** One byte escaped, as the third loop writes it. */
  method WriteEscape(out: array<Byte>, at: nat, c: Byte, ghost w: Bytes) returns (end: nat)
    requires c != 0 && !(c > 31 && c != QUOTE && c != BACKSLASH) && Filled(out, w) && at == |w| && at + |EscapeByte(c)| <= out.Length
    modifies out
    ensures end == at + |EscapeByte(c)| && Filled(out, w + EscapeByte(c))
  {
    end := WriteByte(out, at, BACKSLASH, w);
    ghost var v := w + [BACKSLASH];
    if c == BACKSLASH { end := WriteByte(out, end, BACKSLASH, v); }
    else if c == QUOTE { end := WriteByte(out, end, QUOTE, v); }
    else if c == BACKSPACE { end := WriteByte(out, end, LOWER_B, v); }
    else if c == FORM_FEED { end := WriteByte(out, end, LOWER_F, v); }
    else if c == NEWLINE { end := WriteByte(out, end, LOWER_N, v); }
    else if c == RETURN { end := WriteByte(out, end, LOWER_R, v); }
    else if c == TAB { end := WriteByte(out, end, LOWER_T, v); }
    else { end := WriteBytes(out, end, [LOWER_U, ZERO, ZERO, HexDigit(c / 16), HexDigit(c % 16)], v); }
    assert v + EscapeByte(c)[1..] == w + EscapeByte(c);
  }

  /** The third loop. */
  method WriteEscaped(out: array<Byte>, at: nat, s: Bytes, ghost w: Bytes) returns (end: nat)
    requires NulFree(s) && Filled(out, w) && at == |w| && at + |Escape(s)| <= out.Length
    modifies out
    ensures end == at + |Escape(s)| && Filled(out, w + Escape(s))
  {
    end := at;
    var i := 0;
    ghost var u := w;
    assert s[0..] == s;
    hide Escape, EscapeByte, Filled;
    while i < |s|
      invariant i <= |s| && NulFree(s[i..]) && Filled(out, u) && end == |u| && u + Escape(s[i..]) == w + Escape(s)
    {
      EscapeFrom(s, i);
      Append2(u, EscapeByte(s[i]), Escape(s[i + 1..]));
      if s[i] > 31 && s[i] != QUOTE && s[i] != BACKSLASH {
        PlainByte(s[i]);
        end := WriteByte(out, end, s[i], u);
      } else {
        end := WriteEscape(out, end, s[i], u);
      }
      u := u + EscapeByte(s[i]);
      i := i + 1;
    }
    EscapeEmpty(s[i..]);
    assert u == w + Escape(s);
  }

  lemma EscapeEmpty(s: Bytes)
    requires s == []
    ensures NulFree(s) && Escape(s) == []
  {
  }

  /** Quote, the string escaped if flag says it needs to be, quote. */
  method WriteString(out: array<Byte>, at: nat, s: Bytes, flag: bool, ghost w: Bytes) returns (end: nat)
    requires NulFree(s) && (!flag ==> Escape(s) == s)
    requires Filled(out, w) && at == |w| && at + |PrintString(s)| <= out.Length
    modifies out
    ensures end == at + |PrintString(s)| && Filled(out, w + PrintString(s))
  {
    hide Filled, Escape;
    end := WriteByte(out, at, QUOTE, w);
    if !flag {
      end := WriteBytes(out, end, s, w + [QUOTE]);
    } else {
      end := WriteEscaped(out, end, s, w + [QUOTE]);
    }
    end := WriteByte(out, end, QUOTE, w + [QUOTE] + Escape(s));
    Append3(w, [QUOTE], Escape(s), [QUOTE]);
  }

  /** The length print_string_ptr allocates for, without the quotes and the NUL. */
  method StringLength(s: Bytes) returns (len: nat, flag: bool)
    requires NulFree(s)
    ensures len == |Escape(s)| && (!flag ==> Escape(s) == s)
  {
    flag := NeedsEscape(s);
    if flag { len := EscapedLength(s); } else { len := |s|; }
  }

  /** print_string_ptr into memory of its own: exactly filled. */
  method NewString(s: Bytes) returns (out: array<Byte>)
    requires NulFree(s)
    ensures fresh(out) && out.Length == |PrintString(s)| + 1 && Holds(out, PrintString(s))
  {
    var len, flag := StringLength(s);
    out := new Byte[len + 3];
    var end := WriteString(out, 0, s, flag, []);
    out[end] := 0;
    assert [] + PrintString(s) == PrintString(s);
  }

  /** print_string_ptr into the buffer. */
  method PutString(p: PrintBuffer, s: Bytes, ghost w: Bytes)
    requires NulFree(s) && p.Has(w) && |w| + |PrintString(s)| < MAX
    modifies p, p.buffer
    ensures p.HasText(w, PrintString(s)) && (p.buffer == old(p.buffer) || fresh(p.buffer))
  {
    var len, flag := StringLength(s);
    p.Ensure(len + 3);
    assert Filled(p.buffer, w);
    hide PrintString, Escape, NulFree;
    var end := WriteString(p.buffer, p.offset, s, flag, w);
    p.buffer[end] := 0;
    assert p.buffer[..end] == w + PrintString(s);
  }

  /** The string in memory is s. */
  ghost predicate Holds(out: array<Byte>, s: Bytes)
    reads out
  {
    |s| < out.Length && out[..|s|] == s && out[|s|] == 0
  }

  // ------------------------------------------------------------------------- lengths

  lemma {:induction false} DigitsBound(n: nat, digits: nat, limit: nat)
    requires n < limit && digits >= 1 && limit == Tens(digits)
    ensures |Digits(n)| <= digits
  {
    if n >= 10 {
      assert digits > 1;
      DigitsBound(n / 10, digits - 1, Tens(digits - 1));
    }
  }

  function Tens(n: nat): nat {
    if n == 0 then 1 else 10 * Tens(n - 1)
  }

  /** `%d` of an int fits the 21 bytes secured for it. */
  lemma IntBound(n: int)
    requires INT_MIN <= n <= INT_MAX
    ensures |PrintInt(n)| <= 11
  {
    assert Tens(10) == 10000000000;
    DigitsBound(if n < 0 then -n else n, 10, Tens(10));
  }

  lemma {:induction false} PrintableFrom(items: seq<Json>, i: nat)
    requires PrintableItems(items) && i <= |items|
    ensures PrintableItems(items[i..]) && (i < |items| ==> Printable(items[i]))
    decreases i
  {
    assert items[0..] == items;
    if i > 0 {
      PrintableFrom(items[1..], i - 1);
      assert items[1..][i - 1..] == items[i..];
      assert i < |items| ==> items[1..][i - 1] == items[i];
    }
  }

  lemma {:induction false} PrintableMembersFrom(members: seq<Member>, i: nat)
    requires PrintableMembers(members) && i <= |members|
    ensures PrintableMembers(members[i..])
    ensures i < |members| ==> NulFree(members[i].name) && Printable(members[i].value)
    decreases i
  {
    assert members[0..] == members;
    if i > 0 {
      PrintableMembersFrom(members[1..], i - 1);
      assert members[1..][i - 1..] == members[i..];
      assert i < |members| ==> members[1..][i - 1] == members[i];
    }
  }

  /** What stands between an entry and the next. */
  function Separator(last: bool, fmt: bool): Bytes {
    if last then [] else if fmt then [COMMA, SPACE] else [COMMA]
  }

  lemma ItemsHead(items: seq<Json>, depth: nat, fmt: bool)
    requires PrintableItems(items) && items != []
    ensures PrintItems(items, depth, fmt) ==
      PrintValue(items[0], depth + 1, fmt) + Separator(|items| == 1, fmt) + PrintItems(items[1..], depth, fmt)
  {
    hide PrintValue, Printable;
  }

  lemma ItemsFrom(items: seq<Json>, i: nat, depth: nat, fmt: bool)
    requires PrintableItems(items) && i < |items|
    ensures PrintableItems(items[i..]) && PrintableItems(items[i + 1..]) && Printable(items[i])
    ensures PrintItems(items[i..], depth, fmt) ==
      PrintValue(items[i], depth + 1, fmt) + Separator(i + 1 == |items|, fmt) + PrintItems(items[i + 1..], depth, fmt)
  {
    PrintableFrom(items, i);
    PrintableFrom(items, i + 1);
    assert items[i..][1..] == items[i + 1..];
    hide PrintValue, Printable, PrintItems, PrintableItems, Separator;
    ItemsHead(items[i..], depth, fmt);
  }

  lemma MembersHead(members: seq<Member>, depth: nat, fmt: bool)
    requires PrintableMembers(members) && members != []
    ensures PrintMembers(members, depth, fmt) ==
      PrintMember(members[0], depth, fmt) + LineEnd(|members| == 1, fmt) + PrintMembers(members[1..], depth, fmt)
  {
    hide PrintMember, Printable, NulFree;
  }

  lemma MembersFrom(members: seq<Member>, i: nat, depth: nat, fmt: bool)
    requires PrintableMembers(members) && i < |members|
    ensures PrintableMembers(members[i..]) && PrintableMembers(members[i + 1..])
    ensures NulFree(members[i].name) && Printable(members[i].value)
    ensures PrintMembers(members[i..], depth, fmt) ==
      PrintMember(members[i], depth, fmt) + LineEnd(i + 1 == |members|, fmt) + PrintMembers(members[i + 1..], depth, fmt)
  {
    PrintableMembersFrom(members, i);
    PrintableMembersFrom(members, i + 1);
    assert members[i..][1..] == members[i + 1..];
    hide PrintMember, Printable, NulFree, PrintMembers, PrintableMembers, LineEnd;
    MembersHead(members[i..], depth, fmt);
  }

  /** What stands after a member. */
  function LineEnd(last: bool, fmt: bool): Bytes {
    (if last then [] else [COMMA]) + (if fmt then [NEWLINE] else [])
  }

  lemma NoItems(items: seq<Json>, depth: nat, fmt: bool)
    requires items == []
    ensures PrintableItems(items) && PrintItems(items, depth, fmt) == []
  {
  }

  lemma NoMembers(members: seq<Member>, depth: nat, fmt: bool)
    requires members == []
    ensures PrintableMembers(members) && PrintMembers(members, depth, fmt) == []
  {
  }

  lemma ArrayText(v: Json, depth: nat, fmt: bool)
    requires v.Array? && Printable(v)
    ensures PrintableItems(v.items[0..])
    ensures PrintValue(v, depth, fmt) == [OPEN_BRACKET] + PrintItems(v.items[0..], depth, fmt) + [CLOSE_BRACKET]
  {
    assert v.items[0..] == v.items;
  }

  function Colon(fmt: bool): Bytes {
    if fmt then [COLON, TAB] else [COLON]
  }

  function OpenObject(fmt: bool): Bytes {
    if fmt then [OPEN_BRACE, NEWLINE] else [OPEN_BRACE]
  }

  lemma ObjectText(v: Json, depth: nat, fmt: bool)
    requires v.Object? && Printable(v) && v.members != []
    ensures PrintableMembers(v.members[0..])
    ensures PrintValue(v, depth, fmt) ==
      OpenObject(fmt) + PrintMembers(v.members[0..], depth + 1, fmt) + If(fmt, Tabs(depth)) + [CLOSE_BRACE]
  {
    assert v.members[0..] == v.members;
    var inner, tabs := PrintMembers(v.members, depth + 1, fmt), If(fmt, Tabs(depth));
    assert PrintValue(v, depth, fmt) == [OPEN_BRACE] + If(fmt, [NEWLINE]) + inner + tabs + [CLOSE_BRACE];
    hide PrintMembers, Tabs, Printable, PrintableMembers, PrintValue;
    assert [OPEN_BRACE] + If(fmt, [NEWLINE]) == OpenObject(fmt);
  }

  lemma EmptyObjectText(v: Json, depth: nat, fmt: bool)
    requires v.Object? && Printable(v) && v.members == []
    ensures PrintValue(v, depth, fmt) == OpenObject(fmt) + If(fmt, Tabs(depth - 1)) + [CLOSE_BRACE]
  {
    hide Tabs;
  }

  lemma MemberText(m: Member, depth: nat, fmt: bool)
    requires NulFree(m.name) && Printable(m.value)
    ensures PrintMember(m, depth, fmt) ==
      If(fmt, Tabs(depth)) + PrintString(m.name) + Colon(fmt) + PrintValue(m.value, depth, fmt)
  {
    hide Tabs, PrintString, PrintValue;
  }

  lemma StringNulFree(s: Bytes)
    requires NulFree(s)
    ensures NulFree(PrintString(s))
  {
    EscapeNulFree(s);
  }

  lemma Append2(u: Bytes, a: Bytes, b: Bytes)
    ensures u + (a + b) == u + a + b
  {
  }

  lemma Append3(u: Bytes, a: Bytes, b: Bytes, c: Bytes)
    ensures u + (a + b + c) == u + a + b + c
  {
    Append2(u, a + b, c);
    Append2(u, a, b);
  }

  lemma Append4(u: Bytes, a: Bytes, b: Bytes, c: Bytes, d: Bytes)
    ensures u + (a + b + c + d) == u + a + b + c + d
  {
    Append2(u, a + b + c, d);
    Append3(u, a, b, c);
  }

  // ------------------------------------------------------------------------- the shared buffer

  /** print_value with a buffer. Afterwards the text stands after w; the offset is moved over it by update. The
      position returned is the text's, but for objects: there print_object's loop over the closing tabs has
      overwritten it when fmt is set. */
  method PutValue(p: PrintBuffer, v: Json, depth: nat, fmt: bool, ghost w: Bytes) returns (at: nat)
    requires Printable(v) && p.Has(w) && |w| + |PrintValue(v, depth, fmt)| + 32 <= MAX
    modifies p, p.buffer
    ensures p.HasText(w, PrintValue(v, depth, fmt)) && (p.buffer == old(p.buffer) || fresh(p.buffer))
    ensures at == if v.Object? && v.members != [] && fmt then depth else |w|
    decreases v, 1, 0
  {
    at := p.offset;
    if v.Array? {
      PutArray(p, v, depth, fmt, w);
    } else if v.Object? {
      at := PutObject(p, v, depth, fmt, w);
    } else {
      PutScalar(p, v, depth, fmt, w);
    }
  }

  method PutScalar(p: PrintBuffer, v: Json, depth: nat, fmt: bool, ghost w: Bytes)
    requires Printable(v) && p.Has(w) && |w| + |PrintValue(v, depth, fmt)| + 32 <= MAX
    requires !v.Array? && !v.Object?
    modifies p, p.buffer
    ensures p.HasText(w, PrintValue(v, depth, fmt)) && (p.buffer == old(p.buffer) || fresh(p.buffer))
  {
    match v
    case Null => p.PutText(NULL_TEXT, 5, w);
    case False => p.PutText(FALSE_TEXT, 6, w);
    case True => p.PutText(TRUE_TEXT, 5, w);
    case Number(d) =>
      IntBound(d.Floor);
      if d == 0.0 { p.PutText([ZERO], 2, w); } else { p.PutText(PrintInt(d.Floor), 21, w); }
    case String(s) => PutString(p, s, w);
  }

  /** print_array with a buffer */
  method PutArray(p: PrintBuffer, v: Json, depth: nat, fmt: bool, ghost w: Bytes)
    requires v.Array? && Printable(v) && p.Has(w) && |w| + |PrintValue(v, depth, fmt)| + 32 <= MAX
    modifies p, p.buffer
    ensures p.HasText(w, PrintValue(v, depth, fmt)) && (p.buffer == old(p.buffer) || fresh(p.buffer))
    decreases v, 0, 1
  {
    var items := v.items;
    if |items| == 0 {
      p.PutText([OPEN_BRACKET, CLOSE_BRACKET], 3, w);
      return;
    }
    hide *;
    ArrayText(v, depth, fmt);
    ghost var u, inner := w + [OPEN_BRACKET], PrintItems(items[0..], depth, fmt);
    Append3(w, [OPEN_BRACKET], inner, [CLOSE_BRACKET]);
    p.Put([OPEN_BRACKET], 1, w);
    PutItems(p, v, depth, fmt, u);
    p.PutText([CLOSE_BRACKET], 2, u + inner);
    Closed(p, u + inner, w, PrintValue(v, depth, fmt), [CLOSE_BRACKET]);
  }

  /** The loop of print_array. */
  method PutItems(p: PrintBuffer, v: Json, depth: nat, fmt: bool, ghost w: Bytes)
    requires v.Array? && Printable(v) && p.Has(w) && PrintableItems(v.items[0..])
    requires |w| + |PrintItems(v.items[0..], depth, fmt)| + 32 <= MAX
    modifies p, p.buffer
    ensures p.Has(w + PrintItems(v.items[0..], depth, fmt)) && (p.buffer == old(p.buffer) || fresh(p.buffer))
    decreases v, 0, 0, 1
  {
    hide *;
    var items := v.items;
    ghost var u, all := w, w + PrintItems(items[0..], depth, fmt);
    var i := 0;
    while i < |items|
      invariant i <= |items| && p.Has(u) && (p.buffer == old(p.buffer) || fresh(p.buffer))
      invariant PrintableItems(items[i..]) && u + PrintItems(items[i..], depth, fmt) == all
    {
      u := PutItem(p, v, i, depth, fmt, u);
      i := i + 1;
    }
    NoItems(items[i..], depth, fmt);
    assert u == all;
  }

  /** The same bytes, seen as what was before the value and its text. */
  lemma Closed(p: PrintBuffer, u: Bytes, w: Bytes, text: Bytes, end: Bytes)
    requires p.HasText(u, end) && u + end == w + text && |w| <= |u|
    ensures p.HasText(w, text)
  {
  }

  /** Entry i of an array and what separates it from the next. */
  method PutItem(p: PrintBuffer, v: Json, i: nat, depth: nat, fmt: bool, ghost u: Bytes) returns (ghost x: Bytes)
    requires v.Array? && i < |v.items| && Printable(v) && p.Has(u)
    requires PrintableItems(v.items[i..]) && |u| + |PrintItems(v.items[i..], depth, fmt)| + 32 <= MAX
    modifies p, p.buffer
    ensures p.Has(x) && (p.buffer == old(p.buffer) || fresh(p.buffer)) && |u| <= |x|
    ensures PrintableItems(v.items[i + 1..])
    ensures x + PrintItems(v.items[i + 1..], depth, fmt) == u + PrintItems(v.items[i..], depth, fmt)
    decreases v, 0, 0, 0
  {
    var items := v.items;
    ItemsFrom(items, i, depth, fmt);
    ghost var text, rest := PrintValue(items[i], depth + 1, fmt), PrintItems(items[i + 1..], depth, fmt);
    PrintNulFree(items[i], depth + 1, fmt);
    hide PrintValue, PrintItems, Printable, PrintableItems, Tabs, PrintBuffer.Has, PrintBuffer.HasText, NulFree;
    ghost var separator := Separator(i + 1 == |items|, fmt);
    Append3(u, text, separator, rest);
    var _ := PutValue(p, items[i], depth + 1, fmt, u);
    p.Advance(u, text);
    x := u + text + separator;
    if i + 1 < |items| {
      var len := if fmt then 2 else 1;
      p.Put(if fmt then [COMMA, SPACE] else [COMMA], len + 1, u + text);
    }
  }

  /** print_object with a buffer */
  method PutObject(p: PrintBuffer, v: Json, depth: nat, fmt: bool, ghost w: Bytes) returns (at: nat)
    requires v.Object? && Printable(v) && p.Has(w) && |w| + |PrintValue(v, depth, fmt)| + 32 <= MAX
    modifies p, p.buffer
    ensures p.HasText(w, PrintValue(v, depth, fmt)) && (p.buffer == old(p.buffer) || fresh(p.buffer))
    ensures at == if v.members != [] && fmt then depth else |w|
    decreases v, 0, 1
  {
    var members := v.members;
    at := p.offset;
    if |members| == 0 {
      PutEmptyObject(p, v, depth, fmt, w);
      return;
    }
    hide *;
    ObjectText(v, depth, fmt);
    ghost var inner, tabs := PrintMembers(members[0..], depth + 1, fmt), If(fmt, Tabs(depth));
    Append4(w, OpenObject(fmt), inner, tabs, [CLOSE_BRACE]);
    ghost var u := w + OpenObject(fmt);
    Append2(u + inner, tabs, [CLOSE_BRACE]);
    PutOpening(p, fmt, w);
    PutMembers(p, v, depth + 1, fmt, u);
    at := PutClosing(p, depth, fmt, at, u + inner);
    Closed(p, u + inner, w, PrintValue(v, depth, fmt), tabs + [CLOSE_BRACE]);
  }

  /** The brace an object begins with, and its line end. */
  method PutOpening(p: PrintBuffer, fmt: bool, ghost w: Bytes)
    requires p.Has(w) && |w| + 3 <= MAX
    modifies p, p.buffer
    ensures p.Has(w + OpenObject(fmt)) && (p.buffer == old(p.buffer) || fresh(p.buffer))
  {
    var len := if fmt then 2 else 1;
    p.Put(if fmt then [OPEN_BRACE, NEWLINE] else [OPEN_BRACE], len + 1, w);
  }

  /** The loop of print_object; depth is the members'. */
  method PutMembers(p: PrintBuffer, v: Json, depth: nat, fmt: bool, ghost w: Bytes)
    requires v.Object? && Printable(v) && p.Has(w) && PrintableMembers(v.members[0..]) && depth > 0
    requires |w| + |PrintMembers(v.members[0..], depth, fmt)| + 32 <= MAX
    modifies p, p.buffer
    ensures p.Has(w + PrintMembers(v.members[0..], depth, fmt)) && (p.buffer == old(p.buffer) || fresh(p.buffer))
    decreases v, 0, 0, 1
  {
    hide *;
    var members := v.members;
    ghost var u, all := w, w + PrintMembers(members[0..], depth, fmt);
    var i := 0;
    while i < |members|
      invariant i <= |members| && p.Has(u) && (p.buffer == old(p.buffer) || fresh(p.buffer))
      invariant PrintableMembers(members[i..]) && u + PrintMembers(members[i..], depth, fmt) == all
    {
      u := PutMember(p, v, i, depth, fmt, u);
      i := i + 1;
    }
    NoMembers(members[i..], depth, fmt);
    assert u == all;
  }

  /** The closing line of an object; `i`, that held the offset before it, counts its tabs. */
  method PutClosing(p: PrintBuffer, depth: nat, fmt: bool, start: nat, ghost u: Bytes) returns (i: nat)
    requires p.Has(u) && |u| + |If(fmt, Tabs(depth)) + [CLOSE_BRACE]| < MAX
    modifies p, p.buffer
    ensures p.HasText(u, If(fmt, Tabs(depth)) + [CLOSE_BRACE]) && (p.buffer == old(p.buffer) || fresh(p.buffer))
    ensures i == if fmt then depth else start
  {
    hide Tabs;
    i := start;
    p.Ensure(if fmt then depth + 2 else 2);
    assert p.buffer[..p.offset] == u;
    var end := p.offset;
    ghost var x := u;
    if fmt {
      end := WriteTabs(p.buffer, end, depth, u);
      x := u + Tabs(depth);
      i := depth;
    }
    end := WriteByte(p.buffer, end, CLOSE_BRACE, x);
    p.buffer[end] := 0;
    assert x + [CLOSE_BRACE] == u + (If(fmt, Tabs(depth)) + [CLOSE_BRACE]);
    assert p.buffer[..end] == x + [CLOSE_BRACE];
  }

  method PutEmptyObject(p: PrintBuffer, v: Json, depth: nat, fmt: bool, ghost w: Bytes)
    requires v.Object? && v.members == [] && Printable(v) && p.Has(w) && |w| + |PrintValue(v, depth, fmt)| + 32 <= MAX
    modifies p, p.buffer
    ensures p.HasText(w, PrintValue(v, depth, fmt)) && (p.buffer == old(p.buffer) || fresh(p.buffer))
  {
    EmptyObjectText(v, depth, fmt);
    ghost var tabs := If(fmt, Tabs(depth - 1));
    assert |tabs| <= depth && (fmt && depth > 0 ==> |tabs| == depth - 1);
    p.Ensure(if fmt then depth + 4 else 3);
    assert Filled(p.buffer, w);
    hide Tabs, PrintValue, Filled, Printable, NulFree;
    Append3(w, OpenObject(fmt), tabs, [CLOSE_BRACE]);
    ghost var x := w + OpenObject(fmt) + tabs;
    var end := WriteOpening(p.buffer, p.offset, depth, fmt, w);
    end := WriteByte(p.buffer, end, CLOSE_BRACE, x);
    SealText(p, end, w, PrintValue(v, depth, fmt));
    p.buffer[end] := 0;
    assert p.buffer[..end] == w + PrintValue(v, depth, fmt);
  }

  /** The opening brace of an object without members, the newline and the tabs. */
  method WriteOpening(out: array<Byte>, at: nat, depth: nat, fmt: bool, ghost w: Bytes) returns (end: nat)
    requires Filled(out, w) && at == |w| && at + |OpenObject(fmt)| + |If(fmt, Tabs(depth - 1))| <= out.Length
    modifies out
    ensures end == at + |OpenObject(fmt)| + |If(fmt, Tabs(depth - 1))|
    ensures Filled(out, w + OpenObject(fmt) + If(fmt, Tabs(depth - 1)))
  {
    hide Filled, Tabs;
    end := WriteByte(out, at, OPEN_BRACE, w);
    if fmt {
      end := WriteByte(out, end, NEWLINE, w + [OPEN_BRACE]);
      assert w + [OPEN_BRACE] + [NEWLINE] == w + OpenObject(fmt);
      end := WriteTabs(out, end, depth - 1, w + OpenObject(fmt));
    } else {
      assert w + [OPEN_BRACE] + [] == w + [OPEN_BRACE];
    }
  }

  lemma SealText(p: PrintBuffer, end: nat, w: Bytes, text: Bytes)
    requires Filled(p.buffer, w + text) && end == |w + text|
    ensures end <= p.buffer.Length && p.buffer[..end] == w + text
  {
  }

  /** Member i of an object, its line end included. */
  method PutMember(p: PrintBuffer, v: Json, i: nat, depth: nat, fmt: bool, ghost u: Bytes) returns (ghost x: Bytes)
    requires v.Object? && i < |v.members| && Printable(v) && p.Has(u) && depth > 0
    requires PrintableMembers(v.members[i..]) && |u| + |PrintMembers(v.members[i..], depth, fmt)| + 32 <= MAX
    modifies p, p.buffer
    ensures p.Has(x) && (p.buffer == old(p.buffer) || fresh(p.buffer)) && |u| <= |x|
    ensures PrintableMembers(v.members[i + 1..])
    ensures x + PrintMembers(v.members[i + 1..], depth, fmt) == u + PrintMembers(v.members[i..], depth, fmt)
    decreases v, 0, 0, 0
  {
    var m := v.members[i];
    MembersFrom(v.members, i, depth, fmt);
    hide PrintMembers, Printable, PrintableMembers, PrintMember, PrintBuffer.Has, PrintBuffer.HasText, NulFree;
    ghost var rest, end := PrintMembers(v.members[i + 1..], depth, fmt), LineEnd(i + 1 == |v.members|, fmt);
    ghost var text := PrintMember(m, depth, fmt);
    Append3(u, text, end, rest);
    PutPair(p, m, depth, fmt, u);
    var len := (if fmt then 1 else 0) + (if i + 1 < |v.members| then 1 else 0);
    p.Put((if i + 1 < |v.members| then [COMMA] else []) + (if fmt then [NEWLINE] else []), len + 1, u + text);
    x := u + text + end;
  }

  /** The tabs, name, colon and value of a member. */
  method PutPair(p: PrintBuffer, m: Member, depth: nat, fmt: bool, ghost u: Bytes)
    requires NulFree(m.name) && Printable(m.value) && p.Has(u) && depth > 0
    requires |u| + |PrintMember(m, depth, fmt)| + 32 <= MAX
    modifies p, p.buffer
    ensures p.Has(u + PrintMember(m, depth, fmt)) && (p.buffer == old(p.buffer) || fresh(p.buffer))
    decreases m, 0, 0
  {
    MemberText(m, depth, fmt);
    PrintNulFree(m.value, depth, fmt);
    StringNulFree(m.name);
    hide PrintMember, Printable, PrintValue, PrintString, Tabs, PrintBuffer.Has, PrintBuffer.HasText, NulFree;
    ghost var tabs, name, text := If(fmt, Tabs(depth)), PrintString(m.name), PrintValue(m.value, depth, fmt);
    ghost var x := u + tabs;
    Append4(u, tabs, name, Colon(fmt), text);
    if fmt {
      p.PutTabs(depth, u);
    } else {
      assert u + [] == u;
    }
    PutString(p, m.name, x);
    p.Advance(x, name);
    var len := if fmt then 2 else 1;
    p.Put(if fmt then [COLON, TAB] else [COLON], len, x + name);
    var _ := PutValue(p, m.value, depth, fmt, x + name + Colon(fmt));
    p.Advance(x + name + Colon(fmt), text);
  }

  // ------------------------------------------------------------------------- memory of its own for every piece

  /** cJSON_strdup */
  method Duplicate(s: Bytes) returns (out: array<Byte>)
    ensures fresh(out) && Holds(out, s)
  {
    out := new Byte[|s| + 1];
    var end := WriteBytes(out, 0, s, []);
    out[end] := 0;
    assert [] + s == s;
  }

  /** strlen */
  method Length(str: array<Byte>, ghost s: Bytes) returns (n: nat)
    requires Holds(str, s) && NulFree(s)
    ensures n == |s|
  {
    n := 0;
    while str[n] != 0
      invariant n <= |s|
      decreases |s| - n
    {
      n := n + 1;
    }
  }

  /** strlen and memcpy of a piece. */
  method Copy(out: array<Byte>, at: nat, piece: array<Byte>, ghost s: Bytes, ghost w: Bytes) returns (end: nat)
    requires out != piece && Holds(piece, s) && NulFree(s) && Filled(out, w) && at == |w| && at + |s| <= out.Length
    modifies out
    ensures end == at + |s| && Filled(out, w + s)
  {
    var n := Length(piece, s);
    end := WriteBytes(out, at, piece[..n], w);
  }

  /** What print_array adds to len for the entries from i on: each entry's length, two bytes, one more with fmt. */
  function ItemsLength(items: seq<Json>, depth: nat, fmt: bool): nat
    requires PrintableItems(items)
  {
    if items == [] then 0
    else |PrintValue(items[0], depth + 1, fmt)| + 2 + (if fmt then 1 else 0) + ItemsLength(items[1..], depth, fmt)
  }

  lemma {:induction false} ItemsLengthSuffices(items: seq<Json>, depth: nat, fmt: bool)
    requires PrintableItems(items)
    ensures |PrintItems(items, depth, fmt)| <= ItemsLength(items, depth, fmt)
    decreases |items|
  {
    if items != [] {
      ItemsHead(items, depth, fmt);
      ItemsLengthSuffices(items[1..], depth, fmt);
      hide PrintItems, PrintValue;
    }
  }

  /** The pieces printed so far are the texts of the first entries. */
  ghost predicate ItemPieces(pieces: seq<array<Byte>>, items: seq<Json>, depth: nat, fmt: bool)
    requires PrintableItems(items) && |pieces| <= |items|
    reads pieces
  {
    forall k :: 0 <= k < |pieces| ==> Printable(items[k]) && Holds(pieces[k], PrintValue(items[k], depth + 1, fmt))
  }

  /** print_value without a buffer */
  method NewValue(v: Json, depth: nat, fmt: bool) returns (out: array<Byte>)
    requires Printable(v)
    ensures fresh(out) && Holds(out, PrintValue(v, depth, fmt))
    decreases v, 1, 0
  {
    match v
    case Null => out := Duplicate(NULL_TEXT);
    case False => out := Duplicate(FALSE_TEXT);
    case True => out := Duplicate(TRUE_TEXT);
    case Number(d) => out := NewNumber(d);
    case String(s) => out := NewString(s);
    case Array(_) => out := NewArray(v, depth, fmt);
    case Object(_) => out := NewObject(v, depth, fmt);
  }

  /** print_number without a buffer: 2 bytes for zero, 21 for any other int. */
  method NewNumber(d: real) returns (out: array<Byte>)
    requires IsInt(d)
    ensures fresh(out) && Holds(out, PrintInt(d.Floor))
  {
    IntBound(d.Floor);
    out := new Byte[if d == 0.0 then 2 else 21];
    var end := WriteBytes(out, 0, if d == 0.0 then [ZERO] else PrintInt(d.Floor), []);
    out[end] := 0;
    assert [] + PrintInt(d.Floor) == PrintInt(d.Floor);
  }

  /** print_array without a buffer: the entries first, then memory for all of them, then the text. */
  method NewArray(v: Json, depth: nat, fmt: bool) returns (out: array<Byte>)
    requires v.Array? && Printable(v)
    ensures fresh(out) && Holds(out, PrintValue(v, depth, fmt))
    decreases v, 0, 1
  {
    if |v.items| == 0 {
      out := Duplicate([OPEN_BRACKET, CLOSE_BRACKET]);
      return;
    }
    var entries, len := ArrayEntries(v, depth, fmt);
    ArrayText(v, depth, fmt);
    assert v.items[0..] == v.items;
    ItemsLengthSuffices(v.items, depth, fmt);
    hide PrintValue, PrintItems, Printable, PrintableItems, Tabs;
    out := new Byte[len];
    ghost var inner := PrintItems(v.items, depth, fmt);
    var ptr := WriteByte(out, 0, OPEN_BRACKET, []);
    assert [] + [OPEN_BRACKET] == [OPEN_BRACKET];
    ptr := ComposeItems(out, ptr, v, entries, depth, fmt);
    ptr := WriteByte(out, ptr, CLOSE_BRACKET, [OPEN_BRACKET] + inner);
    out[ptr] := 0;
  }

  lemma NoItemPieces(items: seq<Json>, depth: nat, fmt: bool)
    requires PrintableItems(items)
    ensures ItemPieces([], items, depth, fmt)
  {
  }

  lemma ItemPiecesMore(entries: seq<array<Byte>>, ret: array<Byte>, items: seq<Json>, depth: nat, fmt: bool)
    requires PrintableItems(items) && |entries| < |items| && ItemPieces(entries, items, depth, fmt)
    requires Printable(items[|entries|]) && Holds(ret, PrintValue(items[|entries|], depth + 1, fmt))
    ensures ItemPieces(entries + [ret], items, depth, fmt)
  {
    hide PrintableItems, Printable, Holds, PrintValue;
  }

  /** An entry's text and its length. */
  method NewEntry(v: Json, depth: nat, fmt: bool) returns (ret: array<Byte>, len: nat)
    requires Printable(v)
    ensures fresh(ret) && Holds(ret, PrintValue(v, depth, fmt)) && len == |PrintValue(v, depth, fmt)|
    decreases v, 1, 1
  {
    PrintNulFree(v, depth, fmt);
    hide *;
    ret := NewValue(v, depth, fmt);
    len := Length(ret, PrintValue(v, depth, fmt));
  }

  /** The entries' texts and the length that is enough for the array. */
  method ArrayEntries(v: Json, depth: nat, fmt: bool) returns (entries: seq<array<Byte>>, len: nat)
    requires v.Array? && Printable(v)
    ensures |entries| == |v.items| && ItemPieces(entries, v.items, depth, fmt) && fresh(entries)
    ensures len == 5 + ItemsLength(v.items, depth, fmt)
    decreases v, 0, 0
  {
    var items := v.items;
    entries, len := [], 5;
    assert items[0..] == items;
    NoItemPieces(items, depth, fmt);
    var i := 0;
    hide PrintValue, Printable, PrintableItems, ItemsLength, Tabs, NulFree, Holds, ItemPieces;
    while i < |items|
      invariant i == |entries| <= |items| && fresh(entries) && ItemPieces(entries, items, depth, fmt)
      invariant PrintableItems(items[i..]) && len + ItemsLength(items[i..], depth, fmt) == 5 + ItemsLength(items, depth, fmt)
    {
      ItemsLengthFrom(items, i, depth, fmt);
      var ret, n := NewEntry(items[i], depth + 1, fmt);
      len := len + n + 2 + (if fmt then 1 else 0);
      ItemPiecesMore(entries, ret, items, depth, fmt);
      entries := entries + [ret];
      i := i + 1;
    }
    NoLength([], items[i..], depth, fmt);
  }

  lemma PieceAt(entries: seq<array<Byte>>, items: seq<Json>, i: nat, depth: nat, fmt: bool)
    requires PrintableItems(items) && i < |entries| <= |items| && ItemPieces(entries, items, depth, fmt)
    ensures Printable(items[i]) && Holds(entries[i], PrintValue(items[i], depth + 1, fmt))
  {
  }

  /** The text of an entry copied, and what separates it from the next. */
  method ComposeItem(out: array<Byte>, start: nat, entry: array<Byte>, ghost item: Json, last: bool, ghost depth: nat, fmt: bool,
                     ghost u: Bytes) returns (ptr: nat)
    requires Printable(item) && out != entry && Holds(entry, PrintValue(item, depth, fmt)) && Filled(out, u) && start == |u|
    requires start + |PrintValue(item, depth, fmt)| + |Separator(last, fmt)| <= out.Length
    modifies out
    ensures Filled(out, u + PrintValue(item, depth, fmt) + Separator(last, fmt))
    ensures ptr == start + |PrintValue(item, depth, fmt)| + |Separator(last, fmt)|
  {
    PrintNulFree(item, depth, fmt);
    hide PrintValue, Printable, NulFree, Filled, Holds;
    ghost var text := PrintValue(item, depth, fmt);
    ptr := Copy(out, start, entry, text, u);
    if last {
      assert u + text + [] == u + text;
    } else {
      ptr := WriteBytes(out, ptr, if fmt then [COMMA, SPACE] else [COMMA], u + text);
    }
  }

  /** The entries copied one after the other with what separates them. */
  method ComposeItems(out: array<Byte>, start: nat, v: Json, entries: seq<array<Byte>>, depth: nat, fmt: bool) returns (ptr: nat)
    requires v.Array? && Printable(v) && |entries| == |v.items| && ItemPieces(entries, v.items, depth, fmt) && out !in entries
    requires Filled(out, [OPEN_BRACKET]) && start == 1
    requires 1 + |PrintItems(v.items, depth, fmt)| <= out.Length
    modifies out
    ensures Filled(out, [OPEN_BRACKET] + PrintItems(v.items, depth, fmt))
    ensures ptr == 1 + |PrintItems(v.items, depth, fmt)|
  {
    var items := v.items;
    assert items[0..] == items;
    assert PrintableItems(items);
    hide *;
    ptr := start;
    ghost var u: Bytes := [OPEN_BRACKET];
    var i := 0;
    while i < |entries|
      invariant i <= |items| && Filled(out, u) && ptr == |u| && ItemPieces(entries, items, depth, fmt)
      invariant PrintableItems(items[i..])
      invariant u + PrintItems(items[i..], depth, fmt) == [OPEN_BRACKET] + PrintItems(items, depth, fmt)
    {
      ItemsFrom(items, i, depth, fmt);
      ghost var text, separator := PrintValue(items[i], depth + 1, fmt), Separator(i + 1 == |items|, fmt);
      Append3(u, text, separator, PrintItems(items[i + 1..], depth, fmt));
      PieceAt(entries, items, i, depth, fmt);
      ptr := ComposeItem(out, ptr, entries[i], items[i], i == |entries| - 1, depth + 1, fmt, u);
      u := u + text + separator;
      i := i + 1;
    }
    NoItems(items[i..], depth, fmt);
    assert u + [] == u;
  }

  /** What print_object adds to len for the members: name and value, two bytes, with fmt two more and the tabs. */
  function MembersLength(members: seq<Member>, depth: nat, fmt: bool): nat
    requires PrintableMembers(members)
  {
    if members == [] then 0
    else
      |PrintValue(members[0].value, depth, fmt)| + |PrintString(members[0].name)| + 2 + (if fmt then 2 + depth else 0) +
      MembersLength(members[1..], depth, fmt)
  }

  lemma {:induction false} MembersLengthSuffices(members: seq<Member>, depth: nat, fmt: bool)
    requires PrintableMembers(members)
    ensures |PrintMembers(members, depth, fmt)| <= MembersLength(members, depth, fmt)
    decreases |members|
  {
    if members != [] {
      MembersHead(members, depth, fmt);
      MemberText(members[0], depth, fmt);
      MembersLengthSuffices(members[1..], depth, fmt);
      hide PrintMembers, PrintMember, PrintValue, PrintString, Tabs;
    }
  }

  lemma MembersLengthFrom(members: seq<Member>, i: nat, depth: nat, fmt: bool)
    requires PrintableMembers(members) && i < |members|
    ensures PrintableMembers(members[i..]) && PrintableMembers(members[i + 1..])
    ensures NulFree(members[i].name) && Printable(members[i].value)
    ensures MembersLength(members[i..], depth, fmt) ==
      |PrintValue(members[i].value, depth, fmt)| + |PrintString(members[i].name)| + 2 + (if fmt then 2 + depth else 0) +
      MembersLength(members[i + 1..], depth, fmt)
  {
    PrintableMembersFrom(members, i);
    PrintableMembersFrom(members, i + 1);
    assert members[i..][1..] == members[i + 1..];
    hide PrintValue, PrintString, Printable, NulFree;
  }

  lemma ItemsLengthFrom(items: seq<Json>, i: nat, depth: nat, fmt: bool)
    requires PrintableItems(items) && i < |items|
    ensures PrintableItems(items[i..]) && PrintableItems(items[i + 1..]) && Printable(items[i])
    ensures ItemsLength(items[i..], depth, fmt) ==
      |PrintValue(items[i], depth + 1, fmt)| + 2 + (if fmt then 1 else 0) + ItemsLength(items[i + 1..], depth, fmt)
  {
    PrintableFrom(items, i);
    PrintableFrom(items, i + 1);
    assert items[i..][1..] == items[i + 1..];
    hide PrintValue, Printable;
  }

  lemma NoLength(members: seq<Member>, items: seq<Json>, depth: nat, fmt: bool)
    requires members == [] && items == []
    ensures PrintableMembers(members) && MembersLength(members, depth, fmt) == 0
    ensures PrintableItems(items) && ItemsLength(items, depth, fmt) == 0
  {
  }

  ghost predicate NamePieces(pieces: seq<array<Byte>>, members: seq<Member>)
    requires |pieces| <= |members|
    reads pieces
  {
    forall k :: 0 <= k < |pieces| ==> NulFree(members[k].name) && Holds(pieces[k], PrintString(members[k].name))
  }

  ghost predicate ValuePieces(pieces: seq<array<Byte>>, members: seq<Member>, depth: nat, fmt: bool)
    requires |pieces| <= |members|
    reads pieces
  {
    forall k :: 0 <= k < |pieces| ==>
      Printable(members[k].value) && Holds(pieces[k], PrintValue(members[k].value, depth, fmt))
  }

  /** print_object without a buffer */
  method NewObject(v: Json, depth: nat, fmt: bool) returns (out: array<Byte>)
    requires v.Object? && Printable(v)
    ensures fresh(out) && Holds(out, PrintValue(v, depth, fmt))
    decreases v, 0, 1
  {
    if |v.members| == 0 {
      out := NewEmptyObject(v, depth, fmt);
      return;
    }
    var names, entries, len := ObjectEntries(v, depth + 1, fmt);
    ObjectLength(v, depth, fmt);
    out := new Byte[len];
    var _ := ComposeObject(out, v, names, entries, depth, fmt);
  }

  lemma ObjectLength(v: Json, depth: nat, fmt: bool)
    requires v.Object? && v.members != [] && Printable(v)
    ensures PrintableMembers(v.members)
    ensures |PrintValue(v, depth, fmt)| < 7 + (if fmt then depth + 1 else 0) + MembersLength(v.members, depth + 1, fmt)
  {
    MembersLengthSuffices(v.members, depth + 1, fmt);
    hide PrintMembers, MembersLength, Tabs;
  }

  /** The braces, the members and the tabs composed. */
  method ComposeObject(out: array<Byte>, v: Json, names: seq<array<Byte>>, entries: seq<array<Byte>>, depth: nat, fmt: bool)
      returns (ptr: nat)
    requires v.Object? && v.members != [] && Printable(v) && |names| == |entries| == |v.members|
    requires out !in names && out !in entries && |PrintValue(v, depth, fmt)| < out.Length
    requires NamePieces(names, v.members) && ValuePieces(entries, v.members, depth + 1, fmt)
    modifies out
    ensures Holds(out, PrintValue(v, depth, fmt))
  {
    hide *;
    ObjectText(v, depth, fmt);
    assert v.members[0..] == v.members;
    ghost var inner, text := PrintMembers(v.members, depth + 1, fmt), PrintValue(v, depth, fmt);
    ptr := WriteOpen(out, fmt);
    ptr := ComposeMembers(out, ptr, v, names, entries, depth + 1, fmt);
    ptr := WriteClosing(out, ptr, depth, fmt, OpenObject(fmt) + inner);
    Terminate(out, ptr, text);
  }

  method WriteOpen(out: array<Byte>, fmt: bool) returns (ptr: nat)
    requires |OpenObject(fmt)| <= out.Length
    modifies out
    ensures ptr == |OpenObject(fmt)| && Filled(out, OpenObject(fmt))
  {
    ptr := WriteBytes(out, 0, if fmt then [OPEN_BRACE, NEWLINE] else [OPEN_BRACE], []);
    assert [] + OpenObject(fmt) == OpenObject(fmt);
  }

  /** `*ptr = 0` */
  method Terminate(out: array<Byte>, ptr: nat, ghost text: Bytes)
    requires Filled(out, text) && ptr == |text| < out.Length
    modifies out
    ensures Holds(out, text)
  {
    out[ptr] := 0;
    assert out[..ptr] == text;
  }

  /** The tabs and the brace that close an object. */
  method WriteClosing(out: array<Byte>, start: nat, depth: nat, fmt: bool, ghost w: Bytes) returns (ptr: nat)
    requires Filled(out, w) && start == |w| && start + |If(fmt, Tabs(depth))| + 1 <= out.Length
    modifies out
    ensures ptr == start + |If(fmt, Tabs(depth))| + 1 && Filled(out, w + If(fmt, Tabs(depth)) + [CLOSE_BRACE])
  {
    hide Filled, Tabs;
    ptr := start;
    if fmt {
      ptr := WriteTabs(out, ptr, depth, w);
    } else {
      assert w + [] == w;
    }
    ptr := WriteByte(out, ptr, CLOSE_BRACE, w + If(fmt, Tabs(depth)));
  }

  /** An object without members. */
  method NewEmptyObject(v: Json, depth: nat, fmt: bool) returns (out: array<Byte>)
    requires v.Object? && v.members == [] && Printable(v)
    ensures fresh(out) && Holds(out, PrintValue(v, depth, fmt))
  {
    EmptyObjectText(v, depth, fmt);
    ghost var tabs := If(fmt, Tabs(depth - 1));
    assert |tabs| <= depth && (fmt && depth > 0 ==> |tabs| == depth - 1);
    hide PrintValue, Tabs;
    out := new Byte[if fmt then depth + 4 else 3];
    var end := WriteOpening(out, 0, depth, fmt, []);
    assert [] + OpenObject(fmt) == OpenObject(fmt);
    end := WriteByte(out, end, CLOSE_BRACE, OpenObject(fmt) + tabs);
    out[end] := 0;
  }

  lemma PiecesMore(names: seq<array<Byte>>, entries: seq<array<Byte>>, str: array<Byte>, ret: array<Byte>,
                   members: seq<Member>, depth: nat, fmt: bool)
    requires |names| == |entries| < |members| && NamePieces(names, members) && ValuePieces(entries, members, depth, fmt)
    requires NulFree(members[|names|].name) && Holds(str, PrintString(members[|names|].name))
    requires Printable(members[|names|].value) && Holds(ret, PrintValue(members[|names|].value, depth, fmt))
    ensures NamePieces(names + [str], members) && ValuePieces(entries + [ret], members, depth, fmt)
  {
  }

  lemma NoPieces(members: seq<Member>, depth: nat, fmt: bool)
    ensures NamePieces([], members) && ValuePieces([], members, depth, fmt)
  {
  }

  /** A member's name and value, and their lengths plus two. */
  method NewPair(m: Member, depth: nat, fmt: bool) returns (str: array<Byte>, ret: array<Byte>, len: nat)
    requires NulFree(m.name) && Printable(m.value)
    ensures fresh(str) && fresh(ret) && Holds(str, PrintString(m.name)) && Holds(ret, PrintValue(m.value, depth, fmt))
    ensures len == |PrintValue(m.value, depth, fmt)| + |PrintString(m.name)| + 2
    decreases m, 0, 0
  {
    StringNulFree(m.name);
    PrintNulFree(m.value, depth, fmt);
    hide PrintValue, PrintString, Printable, NulFree, Holds;
    str := NewString(m.name);
    ret := NewValue(m.value, depth, fmt);
    var n := Length(ret, PrintValue(m.value, depth, fmt));
    var k := Length(str, PrintString(m.name));
    len := n + k + 2;
  }

  /** The members' names and values and the length that is enough for the object; depth is the members'. */
  method ObjectEntries(v: Json, depth: nat, fmt: bool) returns (names: seq<array<Byte>>, entries: seq<array<Byte>>, len: nat)
    requires v.Object? && Printable(v)
    ensures |names| == |entries| == |v.members| && fresh(names) && fresh(entries)
    ensures NamePieces(names, v.members) && ValuePieces(entries, v.members, depth, fmt)
    ensures len == 7 + (if fmt then depth else 0) + MembersLength(v.members, depth, fmt)
    decreases v, 0, 0
  {
    var members := v.members;
    names, entries, len := [], [], 7;
    assert members[0..] == members;
    assert PrintableMembers(members);
    hide *;
    NoPieces(members, depth, fmt);
    if fmt {
      len := len + depth;
    }
    ghost var total := len + MembersLength(members, depth, fmt);
    var i := 0;
    while i < |members|
      invariant i == |names| == |entries| <= |members| && fresh(names) && fresh(entries)
      invariant NamePieces(names, members) && ValuePieces(entries, members, depth, fmt)
      invariant PrintableMembers(members[i..]) && len + MembersLength(members[i..], depth, fmt) == total
    {
      MembersLengthFrom(members, i, depth, fmt);
      var str, ret, n := NewPair(members[i], depth, fmt);
      len := len + n + (if fmt then 2 + depth else 0);
      PiecesMore(names, entries, str, ret, members, depth, fmt);
      names, entries := names + [str], entries + [ret];
      i := i + 1;
    }
    NoLength(members[i..], [], depth, fmt);
  }

  lemma PairAt(names: seq<array<Byte>>, entries: seq<array<Byte>>, members: seq<Member>, i: nat, depth: nat, fmt: bool)
    requires i < |names| == |entries| == |members| && NamePieces(names, members) && ValuePieces(entries, members, depth, fmt)
    ensures NulFree(members[i].name) && Holds(names[i], PrintString(members[i].name))
    ensures Printable(members[i].value) && Holds(entries[i], PrintValue(members[i].value, depth, fmt))
  {
  }

  /** What stands after a member. */
  method WriteLineEnd(out: array<Byte>, start: nat, last: bool, fmt: bool, ghost w: Bytes) returns (ptr: nat)
    requires Filled(out, w) && start == |w| && start + |LineEnd(last, fmt)| <= out.Length
    modifies out
    ensures ptr == start + |LineEnd(last, fmt)| && Filled(out, w + LineEnd(last, fmt))
  {
    hide Filled;
    ptr := WriteBytes(out, start, (if last then [] else [COMMA]) + (if fmt then [NEWLINE] else []), w);
  }

  /** The members composed one after the other; depth is theirs. */
  method ComposeMembers(out: array<Byte>, start: nat, v: Json, names: seq<array<Byte>>, entries: seq<array<Byte>>,
                        depth: nat, fmt: bool) returns (ptr: nat)
    requires v.Object? && Printable(v) && |names| == |entries| == |v.members| && out !in names && out !in entries
    requires NamePieces(names, v.members) && ValuePieces(entries, v.members, depth, fmt)
    requires Filled(out, OpenObject(fmt)) && start == |OpenObject(fmt)|
    requires start + |PrintMembers(v.members, depth, fmt)| <= out.Length
    modifies out
    ensures Filled(out, OpenObject(fmt) + PrintMembers(v.members, depth, fmt))
    ensures ptr == start + |PrintMembers(v.members, depth, fmt)|
  {
    var members := v.members;
    assert members[0..] == members;
    assert PrintableMembers(members);
    hide *;
    ptr := start;
    ghost var u := OpenObject(fmt);
    var i := 0;
    while i < |entries|
      invariant i <= |members| && Filled(out, u) && ptr == |u|
      invariant NamePieces(names, members) && ValuePieces(entries, members, depth, fmt)
      invariant PrintableMembers(members[i..])
      invariant u + PrintMembers(members[i..], depth, fmt) == OpenObject(fmt) + PrintMembers(members, depth, fmt)
    {
      MembersFrom(members, i, depth, fmt);
      ghost var text, end := PrintMember(members[i], depth, fmt), LineEnd(i + 1 == |members|, fmt);
      Append3(u, text, end, PrintMembers(members[i + 1..], depth, fmt));
      PairAt(names, entries, members, i, depth, fmt);
      ptr := ComposeMember(out, ptr, members[i], names[i], entries[i], depth, fmt, u);
      ptr := WriteLineEnd(out, ptr, i == |entries| - 1, fmt, u + text);
      u := u + text + end;
      i := i + 1;
    }
    NoMembers(members[i..], depth, fmt);
    assert u + [] == u;
  }

  method ComposeMember(out: array<Byte>, start: nat, m: Member, name: array<Byte>, entry: array<Byte>, depth: nat, fmt: bool,
                       ghost u: Bytes) returns (ptr: nat)
    requires NulFree(m.name) && Printable(m.value) && out != name && out != entry
    requires Holds(name, PrintString(m.name)) && Holds(entry, PrintValue(m.value, depth, fmt))
    requires Filled(out, u) && start == |u| && start + |PrintMember(m, depth, fmt)| <= out.Length
    modifies out
    ensures ptr == start + |PrintMember(m, depth, fmt)| && Filled(out, u + PrintMember(m, depth, fmt))
  {
    ptr := start;
    MemberText(m, depth, fmt);
    StringNulFree(m.name);
    PrintNulFree(m.value, depth, fmt);
    hide PrintMember, PrintString, PrintValue, Printable, Tabs, Filled, NulFree;
    ghost var tabs, str, text := If(fmt, Tabs(depth)), PrintString(m.name), PrintValue(m.value, depth, fmt);
    Append4(u, tabs, str, Colon(fmt), text);
    if fmt {
      ptr := WriteTabs(out, ptr, depth, u);
    } else {
      assert u + [] == u;
    }
    ptr := Copy(out, ptr, name, str, u + tabs);
    ptr := WriteBytes(out, ptr, if fmt then [COLON, TAB] else [COLON], u + tabs + str);
    ptr := Copy(out, ptr, entry, text, u + tabs + str + Colon(fmt));
  }

  // ------------------------------------------------------------------------- entry points

  /** cJSON_Print */
  method PrintTree(v: Json) returns (out: array<Byte>)
    requires Printable(v)
    ensures fresh(out) && Holds(out, Print(v))
  {
    out := NewValue(v, 0, true);
  }

  /** cJSON_PrintUnformatted */
  method PrintTreeUnformatted(v: Json) returns (out: array<Byte>)
    requires Printable(v)
    ensures fresh(out) && Holds(out, PrintUnformatted(v))
  {
    out := NewValue(v, 0, false);
  }

  /** cJSON_PrintBuffered, for any prebuffer: the buffer holds the text the other printers give, from its first
      byte on, and the position returned is that of the text. */
  method PrintBuffered(v: Json, prebuffer: nat, fmt: bool) returns (p: PrintBuffer, at: nat)
    requires Printable(v) && |PrintValue(v, 0, fmt)| + 32 <= MAX
    ensures at == 0 && fresh(p) && fresh(p.buffer)
    ensures Holds(p.buffer, if fmt then Print(v) else PrintUnformatted(v))
  {
    p := new PrintBuffer(prebuffer);
    at := PutValue(p, v, 0, fmt, []);
    assert [] + PrintValue(v, 0, fmt) == PrintValue(v, 0, fmt);
  }
}
