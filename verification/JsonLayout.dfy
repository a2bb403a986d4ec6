/** The layout of formatted text, as a reader that goes through it byte by byte and knows nothing of trees. */
module JsonLayout {
  import opened JsonText
  import opened JsonParse
  import opened JsonRoundTrip

  /** Where the reader is: at the beginning of a line, behind some tabs; within a line, behind a byte; inside a literal. A new
      line remembers the byte that ended the one before. */
  datatype Place = Start(before: Byte, tabs: nat) | Within(before: Byte) | Inside | Escaped

  /** The brackets and braces that are open, and whether everything was laid out right so far. */
  datatype Reader = Reader(open: seq<Byte>, place: Place, right: bool)

  predicate InObject(s: Reader) {
    s.open != [] && s.open[|s.open| - 1] == OPEN_BRACE
  }

  /** A line that begins with byte c: a member has a tab for each open bracket or brace; the brace that closes an object has one
      less, and two less when the object is empty. */
  predicate Indented(depth: nat, before: Byte, c: Byte, tabs: nat) {
    if c == CLOSE_BRACE then
      before != COMMA && tabs == (if before != OPEN_BRACE then depth - 1 else if depth >= 2 then depth - 2 else 0)
    else (before == OPEN_BRACE || before == COMMA) && tabs == depth
  }

  /** A byte of a token. */
  function Token(s: Reader, c: Byte): Reader {
    if c == QUOTE then s.(place := Inside)
    else if c == OPEN_BRACKET || c == OPEN_BRACE then s.(open := s.open + [c], place := Within(c))
    else if (c == CLOSE_BRACKET || c == CLOSE_BRACE) && s.open != [] then s.(open := s.open[..|s.open| - 1], place := Within(c))
    else s.(place := Within(c))
  }

  /** Nothing of the layout is due behind this byte. */
  predicate Ready(before: Byte) {
    before != OPEN_BRACE && before != COMMA && before != COLON
  }

  /** A line ends behind the brace that opens an object, behind each comma in it and behind its last member, nowhere else. A
      space follows each comma in an array, a tab each colon, and there is no other white space. */
  function Read(s: Reader, c: Byte): Reader {
    match s.place
    case Escaped => s.(place := Inside)
    case Inside => s.(place := if c == BACKSLASH then Escaped else if c == QUOTE then Within(c) else Inside)
    case Start(before, tabs) =>
      if c == TAB then s.(place := Start(before, tabs + 1))
      else Token(s.(right := s.right && Indented(|s.open|, before, c, tabs)), c)
    case Within(before) =>
      if c == NEWLINE then s.(place := Start(before, 0), right := s.right && InObject(s) && before != COLON)
      else if c == SPACE then s.(place := Within(c), right := s.right && before == COMMA && !InObject(s))
      else if c == TAB then s.(place := Within(c), right := s.right && before == COLON)
      else Token(s.(right := s.right && Ready(before) && c != CLOSE_BRACE), c)
  }

  function ReadAll(s: Reader, w: Bytes): Reader
    decreases |w|
  {
    if w == [] then s else ReadAll(Read(s, w[0]), w[1..])
  }

  /** Formatted as cJSON_Print does. */
  predicate LaidOut(t: Bytes) {
    ReadAll(Reader([], Within(0), true), t).right
  }

  lemma {:induction false} ReadBoth(s: Reader, a: Bytes, b: Bytes)
    ensures ReadAll(s, a + b) == ReadAll(ReadAll(s, a), b)
    decreases |a|
  {
    if a == [] {
      assert a + b == b;
    } else {
      assert (a + b)[0] == a[0] && (a + b)[1..] == a[1..] + b;
      ReadBoth(Read(s, a[0]), a[1..], b);
    }
  }

  lemma ReadOne(s: Reader, c: Byte)
    ensures ReadAll(s, [c]) == Read(s, c)
  {
    assert [c][1..] == [];
  }

  lemma ReadTwo(s: Reader, a: Byte, b: Byte)
    ensures ReadAll(s, [a, b]) == Read(Read(s, a), b)
  {
    assert [a, b][1..] == [b];
    ReadOne(Read(s, a), b);
  }

  // ------------------------------------------------------------------------- scalars

  /** Bytes that only stand in tokens other than literals. */
  predicate Solid(c: Byte) {
    c > 32 && Ready(c) && c != QUOTE && c != OPEN_BRACKET && c != CLOSE_BRACKET && c != CLOSE_BRACE
  }

  /** Nothing was begun or closed, and nothing is due. */
  predicate After(s: Reader, r: Reader) {
    r.open == s.open && r.right == s.right && r.place.Within? && Ready(r.place.before)
  }

  lemma {:induction false} ReadSolid(s: Reader, w: Bytes)
    requires s.place.Within? && Ready(s.place.before) && forall k :: 0 <= k < |w| ==> Solid(w[k])
    ensures After(s, ReadAll(s, w))
    decreases |w|
  {
    if w != [] {
      assert Solid(w[0]);
      ReadSolid(Read(s, w[0]), w[1..]);
    }
  }

  lemma ReadEscape(s: Reader, c: Byte)
    requires s.place == Inside && c != 0
    ensures ReadAll(s, EscapeByte(c)) == s
  {
    var e := EscapeByte(c);
    if |e| == 1 {
      ReadOne(s, c);
    } else if |e| == 2 {
      ReadTwo(s, e[0], e[1]);
    } else {
      ReadTwo(s, e[0], e[1]);
      ReadTwo(s, e[2], e[3]);
      ReadTwo(s, e[4], e[5]);
      assert e == [e[0], e[1]] + [e[2], e[3]] + [e[4], e[5]];
      ReadBoth(s, [e[0], e[1]], [e[2], e[3]]);
      ReadBoth(s, [e[0], e[1]] + [e[2], e[3]], [e[4], e[5]]);
    }
  }

  lemma {:induction false} ReadEscaped(s: Reader, w: Bytes)
    requires s.place == Inside && NulFree(w)
    ensures ReadAll(s, Escape(w)) == s
  {
    if w != [] {
      EscapeParts(w);
      hide EscapeByte, Escape;
      ReadBoth(s, EscapeByte(w[0]), Escape(w[1..]));
      ReadEscape(s, w[0]);
      ReadEscaped(s, w[1..]);
    }
  }

  /** From any place where a token may begin. */
  lemma ReadString(s: Reader, w: Bytes)
    requires NulFree(w) && Read(s, QUOTE).place == Inside
    ensures ReadAll(s, PrintString(w)) == Read(s, QUOTE).(place := Within(QUOTE))
  {
    hide Escape;
    ReadBoth(s, [QUOTE] + Escape(w), [QUOTE]);
    ReadBoth(s, [QUOTE], Escape(w));
    ReadOne(s, QUOTE);
    ReadEscaped(Read(s, QUOTE), w);
    ReadOne(Read(s, QUOTE), QUOTE);
  }

  lemma {:induction false} ReadTabs(s: Reader, n: nat)
    requires s.place.Start?
    ensures ReadAll(s, Tabs(n)) == s.(place := Start(s.place.before, s.place.tabs + n))
    decreases n
  {
    if n > 0 {
      assert Tabs(n)[0] == TAB && Tabs(n)[1..] == Tabs(n - 1);
      ReadTabs(Read(s, TAB), n - 1);
    }
  }

  // ------------------------------------------------------------------------- trees

  lemma ScalarRead(v: Json, depth: nat, s: Reader)
    requires Printable(v) && !v.Array? && !v.Object? && s.place.Within? && Ready(s.place.before)
    ensures After(s, ReadAll(s, PrintValue(v, depth, true)))
  {
    if v.String? {
      ReadString(s, v.text);
    } else {
      ReadSolid(s, PrintValue(v, depth, true));
    }
  }

  /** A value read where one may begin: what it opens it closes, and all of it is laid out right. */
  lemma {:induction false} ValueRead(v: Json, depth: nat, s: Reader)
    requires Printable(v) && |s.open| == depth && s.place.Within? && Ready(s.place.before)
    ensures After(s, ReadAll(s, PrintValue(v, depth, true)))
    decreases v, 1
  {
    if v.Array? {
      var items := PrintItems(v.items, depth, true);
      assert PrintValue(v, depth, true) == [OPEN_BRACKET] + items + [CLOSE_BRACKET];
      assert PrintableItems(v.items);
      hide PrintItems, PrintValue, Printable, PrintableItems;
      ReadBoth(s, [OPEN_BRACKET] + items, [CLOSE_BRACKET]);
      ReadBoth(s, [OPEN_BRACKET], items);
      ReadOne(s, OPEN_BRACKET);
      var begun := Read(s, OPEN_BRACKET);
      ItemsRead(v.items, depth, begun);
      ReadOne(ReadAll(begun, items), CLOSE_BRACKET);
    } else if v.Object? {
      ObjectRead(v, depth, s);
    } else {
      ScalarRead(v, depth, s);
    }
  }

  lemma {:induction false} ItemsRead(items: seq<Json>, depth: nat, s: Reader)
    requires PrintableItems(items) && |s.open| == depth + 1 && !InObject(s) && s.place.Within? && Ready(s.place.before)
    ensures After(s, ReadAll(s, PrintItems(items, depth, true)))
    decreases items, 0
  {
    if items == [] {
    } else if |items| == 1 {
      ValueRead(items[0], depth + 1, s);
    } else {
      var x, rest := PrintValue(items[0], depth + 1, true), PrintItems(items[1..], depth, true);
      assert PrintItems(items, depth, true) == x + [COMMA] + [SPACE] + rest;
      assert Printable(items[0]) && PrintableItems(items[1..]);
      hide PrintItems, PrintValue, Printable, PrintableItems, ReadAll;
      ReadBoth(s, x + [COMMA] + [SPACE], rest);
      ReadBoth(s, x + [COMMA], [SPACE]);
      ReadBoth(s, x, [COMMA]);
      ValueRead(items[0], depth + 1, s);
      var r := ReadAll(s, x);
      ReadOne(r, COMMA);
      ReadOne(Read(r, COMMA), SPACE);
      ItemsRead(items[1..], depth, Read(Read(r, COMMA), SPACE));
    }
  }

  lemma TabsBelow(depth: nat)
    ensures Tabs(depth - 1) == Tabs(if depth >= 1 then depth - 1 else 0)
  {
  }

  lemma EmptyRead(depth: nat, s: Reader)
    requires |s.open| == depth && s.place.Within? && Ready(s.place.before)
    ensures After(s, ReadAll(s, [OPEN_BRACE] + [NEWLINE] + Tabs(depth - 1) + [CLOSE_BRACE]))
  {
    hide ReadAll, Tabs;
    TabsBelow(depth);
    ReadBoth(s, [OPEN_BRACE] + [NEWLINE] + Tabs(depth - 1), [CLOSE_BRACE]);
    ReadBoth(s, [OPEN_BRACE] + [NEWLINE], Tabs(depth - 1));
    ReadBoth(s, [OPEN_BRACE], [NEWLINE]);
    ReadOne(s, OPEN_BRACE);
    var begun := Read(s, OPEN_BRACE);
    ReadOne(begun, NEWLINE);
    var line := Read(begun, NEWLINE);
    var n: nat := if depth >= 1 then depth - 1 else 0;
    ReadTabs(line, n);
    ReadOne(line.(place := Start(OPEN_BRACE, n)), CLOSE_BRACE);
  }

  lemma {:induction false} ObjectRead(v: Json, depth: nat, s: Reader)
    requires v.Object? && Printable(v) && |s.open| == depth && s.place.Within? && Ready(s.place.before)
    ensures After(s, ReadAll(s, PrintValue(v, depth, true)))
    decreases v, 0
  {
    if v.members == [] {
      assert PrintValue(v, depth, true) == [OPEN_BRACE] + [NEWLINE] + Tabs(depth - 1) + [CLOSE_BRACE];
      hide PrintValue, Tabs;
      EmptyRead(depth, s);
    } else {
      var inner := PrintMembers(v.members, depth + 1, true);
      assert PrintValue(v, depth, true) == [OPEN_BRACE] + [NEWLINE] + inner + Tabs(depth) + [CLOSE_BRACE];
      assert PrintableMembers(v.members);
      hide PrintValue, PrintMembers, Printable, PrintableMembers, Tabs, ReadAll;
      ReadBoth(s, [OPEN_BRACE] + [NEWLINE] + inner + Tabs(depth), [CLOSE_BRACE]);
      ReadBoth(s, [OPEN_BRACE] + [NEWLINE] + inner, Tabs(depth));
      ReadBoth(s, [OPEN_BRACE] + [NEWLINE], inner);
      ReadBoth(s, [OPEN_BRACE], [NEWLINE]);
      ReadOne(s, OPEN_BRACE);
      var begun := Read(s, OPEN_BRACE);
      ReadOne(begun, NEWLINE);
      var line := Read(begun, NEWLINE);
      MembersRead(v.members, depth + 1, line);
      var last := ReadAll(line, inner);
      ReadTabs(last, depth);
      ReadOne(last.(place := Start(last.place.before, depth)), CLOSE_BRACE);
    }
  }

  /** At the beginning of a line that a member is due on. */
  predicate Due(s: Reader) {
    InObject(s) && s.place.Start? && s.place.tabs == 0 && (s.place.before == OPEN_BRACE || s.place.before == COMMA)
  }

  lemma {:induction false} MembersRead(members: seq<Member>, depth: nat, s: Reader)
    requires members != [] && PrintableMembers(members) && |s.open| == depth && Due(s)
    ensures var r := ReadAll(s, PrintMembers(members, depth, true));
      r.open == s.open && r.right == s.right && r.place.Start? && r.place.tabs == 0 && Ready(r.place.before)
    decreases members, 0
  {
    var x := PrintMember(members[0], depth, true);
    if |members| == 1 {
      hide PrintMember, Printable;
      assert PrintMembers(members, depth, true) == x + [NEWLINE];
      ReadBoth(s, x, [NEWLINE]);
      MemberRead(members[0], depth, s);
      ReadOne(ReadAll(s, x), NEWLINE);
    } else {
      var rest := PrintMembers(members[1..], depth, true);
      assert PrintMembers(members, depth, true) == x + [COMMA] + [NEWLINE] + rest;
      assert PrintableMembers(members[1..]);
      hide PrintMember, PrintMembers, Printable;
      ReadBoth(s, x + [COMMA] + [NEWLINE], rest);
      ReadBoth(s, x + [COMMA], [NEWLINE]);
      ReadBoth(s, x, [COMMA]);
      MemberRead(members[0], depth, s);
      var r := ReadAll(s, x);
      ReadOne(r, COMMA);
      ReadOne(Read(r, COMMA), NEWLINE);
      MembersRead(members[1..], depth, Read(Read(r, COMMA), NEWLINE));
    }
  }

  lemma {:induction false} MemberRead(m: Member, depth: nat, s: Reader)
    requires NulFree(m.name) && Printable(m.value) && |s.open| == depth && Due(s)
    ensures After(s, ReadAll(s, PrintMember(m, depth, true)))
    decreases m, 2
  {
    var tabs, name, val := Tabs(depth), PrintString(m.name), PrintValue(m.value, depth, true);
    assert PrintMember(m, depth, true) == tabs + name + [COLON] + [TAB] + val;
    hide PrintMember, PrintValue, PrintString, Printable, Tabs, ReadAll;
    ReadBoth(s, tabs + name + [COLON] + [TAB], val);
    ReadBoth(s, tabs + name + [COLON], [TAB]);
    ReadBoth(s, tabs + name, [COLON]);
    ReadBoth(s, tabs, name);
    ReadTabs(s, depth);
    var begun := s.(place := Start(s.place.before, depth));
    ReadString(begun, m.name);
    var named := Read(begun, QUOTE).(place := Within(QUOTE));
    ReadOne(named, COLON);
    ReadOne(Read(named, COLON), TAB);
    ValueRead(m.value, depth, Read(Read(named, COLON), TAB));
  }

  /** What cJSON_Print gives is laid out right: every member of every object on a line of its own, indented by all that is open
      around it. */
  lemma PrintLaidOut(v: Json)
    requires Printable(v)
    ensures LaidOut(Print(v))
  {
    ValueRead(v, 0, Reader([], Within(0), true));
  }
}
