/** What the printers write is JSON of RFC 8259 that means the tree printed. */
module JsonConforms {
  import opened JsonText
  import opened JsonParse
  import opened JsonRoundTrip
  import opened JsonString
  import opened JsonSyntax
  import opened JsonAccept
  import opened JsonSound

  // ------------------------------------------------------------------------- white space

  function Whites(ws: Bytes): Gap {
    if ws == [] then [] else [White(ws[0])] + Whites(ws[1..])
  }

  predicate OnlySpaces(ws: Bytes) {
    forall k :: 0 <= k < |ws| ==> ws[k] in [SPACE, TAB, NEWLINE, RETURN]
  }

  lemma {:induction false} WhitesText(ws: Bytes)
    requires OnlySpaces(ws)
    ensures GapText(Whites(ws)) == ws && StandardSpaces(Whites(ws))
  {
    if ws != [] {
      WhitesText(ws[1..]);
      GapMore(ws[0], Whites(ws[1..]));
    }
  }

  lemma {:induction false} TabsOnly(n: int)
    ensures OnlySpaces(Tabs(n))
  {
    if n > 0 {
      TabsOnly(n - 1);
    }
  }

  lemma OnlyIf(c: bool, ws: Bytes)
    requires OnlySpaces(ws)
    ensures OnlySpaces(If(c, ws))
  {
  }

  // ------------------------------------------------------------------------- scalars

  lemma {:induction false} DigitsOf(n: nat)
    ensures DigitsValue(Digits(n)) == n && AllDigits(Digits(n)) && (n > 0 ==> Digits(n)[0] != ZERO) && (n == 0 ==> Digits(n) == [ZERO])
  {
    if n < 10 {
      LastDigit(Digits(n));
      assert Digits(n)[..0] == [];
    } else {
      DigitsOf(n / 10);
      LastDigit(Digits(n));
      assert Digits(n)[..|Digits(n)| - 1] == Digits(n / 10);
    }
  }

  lemma IntValue(negative: bool, w: Bytes)
    ensures NumeralValue(Numeral(negative, w, [], NoExponent)) == (if negative then -DigitsValue(w) else DigitsValue(w)) as real
  {
    PowZero();
    NoValue();
    hide Pow10, DigitsValue;
  }

  lemma IntText(negative: bool, w: Bytes)
    requires AllDigits(w) && w != [] && (w[0] == ZERO ==> |w| == 1)
    ensures var n := Numeral(negative, w, [], NoExponent);
      NumeralStrict(n) && NumeralText(n) == (if negative then [MINUS] + w else w)
  {
    hide AllDigits;
    assert AllDigits([]) by { NoDigits(); }
    assert (if negative then [MINUS] else []) + w + [] + [] == if negative then [MINUS] + w else w;
  }

  lemma NoDigits()
    ensures AllDigits([])
  {
  }

  lemma NumberConforms(d: real) returns (n: Numeral)
    requires IsInt(d)
    ensures NumeralStrict(n) && NumeralText(n) == PrintInt(d.Floor) && NumeralValue(n) == d
  {
    var a := d.Floor;
    var m: nat := if a < 0 then -a else a;
    hide Digits, DigitsValue, NumeralStrict, NumeralText, NumeralValue, AllDigits;
    DigitsOf(m);
    IntValue(a < 0, Digits(m));
    IntText(a < 0, Digits(m));
    n := Numeral(a < 0, Digits(m), [], NoExponent);
  }

  function PrintedUnits(s: Bytes): seq<Unit>
    requires NulFree(s)
  {
    if s == [] then [] else [PrintedUnit(s[0])] + PrintedUnits(s[1..])
  }

  lemma {:induction false} StringConforms(s: Bytes)
    requires NulFree(s)
    ensures var us := PrintedUnits(s);
      AllWellFormed(us) && AllAllowed(us) && WrittenAll(us) == Escape(s) && MeaningAll(us) == s
  {
    if s != [] {
      EscapeParts(s);
      StringConforms(s[1..]);
      EscapeShortest(s[0]);
      var u, us := PrintedUnit(s[0]), PrintedUnits(s[1..]);
      hide PrintedUnit, EscapeByte, Escape, WrittenAll, MeaningAll, Written, Meaning, Allowed, WellFormed, AllAllowed;
      assert AllWellFormed([u] + us);
      WellFormedAllowed([u] + us);
      AllOf(u, us);
      HeadTail(s);
    }
  }

  // ------------------------------------------------------------------------- trees

  /** s is JSON that means v. */
  ghost predicate Conforms(s: Syntax, v: Json, text: Bytes) {
    Standard(s) && Accepted(s) && Value(s) == v && Text(s) == text
  }

  lemma ScalarConforms(v: Json, depth: nat, fmt: bool) returns (s: Syntax)
    requires Printable(v) && !v.Array? && !v.Object?
    ensures Conforms(s, v, PrintValue(v, depth, fmt))
  {
    if v.Number? {
      var n := NumberConforms(v.value);
      s := Numeric(n);
      hide NumeralStrict, NumeralText, NumeralValue, PrintInt;
      StrictAllowed(n);
    } else if v.String? {
      StringConforms(v.text);
      s := Literal(PrintedUnits(v.text));
      hide PrintedUnits, WrittenAll, MeaningAll, Escape, AllWellFormed, AllAllowed;
    } else {
      s := Word(v);
    }
  }

  lemma StrictAllowed(n: Numeral)
    requires NumeralStrict(n)
    ensures NumeralAllowed(n)
  {
  }

  lemma EmptyPrinted(depth: nat, fmt: bool)
    ensures PrintValue(Array([]), depth, fmt) == [OPEN_BRACKET] + [] + [CLOSE_BRACKET]
    ensures PrintValue(Object([]), depth, fmt) == [OPEN_BRACE] + If(fmt, [NEWLINE] + Tabs(depth - 1)) + [] + [CLOSE_BRACE]
  {
  }

  lemma EmptyConforms(v: Json, depth: nat, fmt: bool) returns (s: Syntax)
    requires Printable(v) && (v == Array([]) || v == Object([]))
    ensures Conforms(s, v, PrintValue(v, depth, fmt))
  {
    hide *;
    EmptyPrinted(depth, fmt);
    NothingStandard();
    NothingAccepted();
    NoItems();
    if v.Array? {
      s := List([], []);
      ListConforms([], [], []);
    } else {
      var ws := [NEWLINE] + Tabs(depth - 1);
      TabsOnly(depth - 1);
      LineOnly(Tabs(depth - 1));
      OnlyIf(fmt, ws);
      WhitesText(If(fmt, ws));
      s := Record(Whites(If(fmt, ws)), []);
      RecordConforms(Whites(If(fmt, ws)), [], [], []);
    }
  }

  lemma LineOnly(ws: Bytes)
    requires OnlySpaces(ws)
    ensures OnlySpaces([NEWLINE] + ws)
  {
  }

  lemma StandardSpacesAccepted(g: Gap)
    requires StandardSpaces(g)
    ensures Spaces(g)
  {
  }

  /** Both printers write, for every tree, JSON that means it. */
  lemma {:induction false} ValueConforms(v: Json, depth: nat, fmt: bool) returns (s: Syntax)
    requires Printable(v)
    ensures Conforms(s, v, PrintValue(v, depth, fmt))
    decreases v, 1
  {
    hide *;
    if v == Array([]) || v == Object([]) {
      s := EmptyConforms(v, depth, fmt);
    } else if v.Array? {
      s := ArrayConforms(v, depth, fmt);
    } else if v.Object? {
      s := ObjectConforms(v, depth, fmt);
    } else {
      s := ScalarConforms(v, depth, fmt);
    }
  }

  lemma ArrayParts(v: Json, depth: nat, fmt: bool)
    requires v.Array? && Printable(v)
    ensures PrintableItems(v.items) && PrintValue(v, depth, fmt) == [OPEN_BRACKET] + PrintItems(v.items, depth, fmt) + [CLOSE_BRACKET]
  {
  }

  lemma ListConforms(items: seq<Item>, vs: seq<Json>, w: Bytes)
    requires StandardItems(items) && AcceptedItems(items) && Values(items) == vs && ItemsText(items) == w
    ensures Conforms(List([], items), Array(vs), [OPEN_BRACKET] + w + [CLOSE_BRACKET])
  {
    hide StandardItems, AcceptedItems, Values, ItemsText;
    assert [OPEN_BRACKET] + [] + w + [CLOSE_BRACKET] == [OPEN_BRACKET] + w + [CLOSE_BRACKET];
  }

  lemma {:induction false} ArrayConforms(v: Json, depth: nat, fmt: bool) returns (s: Syntax)
    requires v.Array? && v.items != [] && Printable(v)
    ensures Conforms(s, v, PrintValue(v, depth, fmt))
    decreases v, 0
  {
    hide *;
    ArrayParts(v, depth, fmt);
    NoGapAtAll();
    var items := ItemsConform(v.items, depth, fmt, []);
    NothingBefore(PrintItems(v.items, depth, fmt));
    ListConforms(items, v.items, PrintItems(v.items, depth, fmt));
    s := List([], items);
  }

  lemma NothingBefore(w: Bytes)
    ensures [] + w == w && w + [] == w
  {
  }

  lemma NoGapAtAll()
    ensures GapText([]) == [] && StandardSpaces([]) && Spaces([])
  {
  }

  lemma ItemsPrinted(items: seq<Json>, depth: nat, fmt: bool)
    requires items != [] && PrintableItems(items)
    ensures Printable(items[0]) && PrintableItems(items[1..])
    ensures PrintItems(items, depth, fmt) ==
      if |items| == 1 then PrintValue(items[0], depth + 1, fmt)
      else PrintValue(items[0], depth + 1, fmt) + [COMMA] + If(fmt, [SPACE]) + PrintItems(items[1..], depth, fmt)
  {
    hide PrintValue, Printable;
  }

  lemma ItemConforms(before: Gap, s: Syntax, v: Json, w: Bytes)
    requires StandardSpaces(before) && Conforms(s, v, w)
    ensures var x := Item(before, s, []);
      StandardItem(x) && AcceptedItem(x) && Value(s) == v && GapText(before) + Text(s) + GapText([]) == GapText(before) + w
  {
    StandardSpacesAccepted(before);
    NoGapAtAll();
    hide Standard, Accepted, Value, Text, StandardSpaces, Spaces, GapText;
    assert GapText(before) + w + [] == GapText(before) + w;
  }

  lemma StandardMore(x: Item, items: seq<Item>)
    requires StandardItem(x) && StandardItems(items)
    ensures StandardItems([x] + items) && StandardItems([x])
  {
    assert ([x] + items)[1..] == items;
    assert [x][1..] == [];
    hide StandardItem;
  }

  lemma SpaceGap(fmt: bool)
    ensures var g := Whites(If(fmt, [SPACE])); StandardSpaces(g) && GapText(g) == If(fmt, [SPACE])
    ensures var g := Whites(If(fmt, [TAB])); StandardSpaces(g) && GapText(g) == If(fmt, [TAB])
    ensures var g := Whites(If(fmt, [NEWLINE])); StandardSpaces(g) && GapText(g) == If(fmt, [NEWLINE])
  {
    WhitesText(If(fmt, [SPACE]));
    WhitesText(If(fmt, [TAB]));
    WhitesText(If(fmt, [NEWLINE]));
  }

  /** The comma goes with the entry before it, the space with the one after. */
  lemma CommaAfter(b: Bytes, x: Bytes, ws: Bytes, rest: Bytes)
    ensures b + x + [COMMA] + (ws + rest) == b + (x + [COMMA] + ws + rest)
  {
  }

  lemma {:induction false} ItemsConform(items: seq<Json>, depth: nat, fmt: bool, before: Gap) returns (xs: seq<Item>)
    requires items != [] && PrintableItems(items) && StandardSpaces(before)
    ensures StandardItems(xs) && AcceptedItems(xs) && Values(xs) == items && xs != []
    ensures ItemsText(xs) == GapText(before) + PrintItems(items, depth, fmt)
    decreases items, 0
  {
    hide *;
    ItemsPrinted(items, depth, fmt);
    var w := PrintValue(items[0], depth + 1, fmt);
    var s := ValueConforms(items[0], depth + 1, fmt);
    ItemConforms(before, s, items[0], w);
    var x := Item(before, s, []);
    if |items| == 1 {
      OneItemSound(x);
      NothingStandard();
      StandardMore(x, []);
      xs := [x];
    } else {
      SpaceGap(fmt);
      var rest := ItemsConform(items[1..], depth, fmt, Whites(If(fmt, [SPACE])));
      MoreItemsSound(x, rest);
      StandardMore(x, rest);
      CommaAfter(GapText(before), w, If(fmt, [SPACE]), PrintItems(items[1..], depth, fmt));
      xs := [x] + rest;
    }
  }

  lemma NothingStandard()
    ensures StandardItems([]) && StandardFields([])
  {
  }

  // ------------------------------------------------------------------------- objects

  lemma ObjectParts(v: Json, depth: nat, fmt: bool)
    requires v.Object? && v.members != [] && Printable(v)
    ensures PrintableMembers(v.members)
    ensures PrintValue(v, depth, fmt)
      == [OPEN_BRACE] + If(fmt, [NEWLINE]) + PrintMembers(v.members, depth + 1, fmt) + If(fmt, Tabs(depth)) + [CLOSE_BRACE]
  {
    hide If, Tabs;
  }

  lemma RecordConforms(open: Gap, fields: seq<Field>, ms: seq<Member>, w: Bytes)
    requires StandardSpaces(open) && StandardFields(fields) && AcceptedFields(fields) && Members(fields) == ms && FieldsText(fields) == w
    ensures Conforms(Record(open, fields), Object(ms), [OPEN_BRACE] + GapText(open) + w + [CLOSE_BRACE])
  {
    StandardSpacesAccepted(open);
    hide StandardFields, AcceptedFields, Members, FieldsText, GapText, Spaces, StandardSpaces;
  }

  lemma {:induction false} ObjectConforms(v: Json, depth: nat, fmt: bool) returns (s: Syntax)
    requires v.Object? && v.members != [] && Printable(v)
    ensures Conforms(s, v, PrintValue(v, depth, fmt))
    decreases v, 0
  {
    hide *;
    ObjectParts(v, depth, fmt);
    NoGapAtAll();
    SpaceGap(fmt);
    TabsGap(depth, fmt);
    var open, last := Whites(If(fmt, [NEWLINE])), Whites(If(fmt, Tabs(depth)));
    var inner := PrintMembers(v.members, depth + 1, fmt);
    var fields := MembersConform(v.members, depth + 1, fmt, [], last);
    NothingBefore(inner);
    RecordConforms(open, fields, v.members, inner + If(fmt, Tabs(depth)));
    s := Record(open, fields);
    Regroup([OPEN_BRACE] + If(fmt, [NEWLINE]), inner, If(fmt, Tabs(depth)));
  }

  lemma TabsGap(depth: nat, fmt: bool)
    ensures var g := Whites(If(fmt, Tabs(depth))); StandardSpaces(g) && GapText(g) == If(fmt, Tabs(depth))
  {
    TabsOnly(depth);
    OnlyIf(fmt, Tabs(depth));
    WhitesText(If(fmt, Tabs(depth)));
  }

  lemma {:induction false} GapBoth(a: Gap, b: Gap)
    ensures GapText(a + b) == GapText(a) + GapText(b)
    ensures StandardSpaces(a) && StandardSpaces(b) ==> StandardSpaces(a + b)
  {
    if a == [] {
      assert a + b == b;
    } else {
      assert (a + b)[0] == a[0] && (a + b)[1..] == a[1..] + b;
      GapBoth(a[1..], b);
    }
  }

  lemma MembersPrinted(members: seq<Member>, depth: nat, fmt: bool)
    requires members != [] && PrintableMembers(members)
    ensures NulFree(members[0].name) && Printable(members[0].value) && PrintableMembers(members[1..])
    ensures PrintMembers(members, depth, fmt) ==
      if |members| == 1 then PrintMember(members[0], depth, fmt) + If(fmt, [NEWLINE])
      else PrintMember(members[0], depth, fmt) + [COMMA] + If(fmt, [NEWLINE]) + PrintMembers(members[1..], depth, fmt)
  {
    hide PrintMember, Printable, If;
  }

  lemma FieldConforms(x: Field)
    requires StandardSpaces(x.before) && AllWellFormed(x.name) && StandardSpaces(x.afterName)
    requires StandardSpaces(x.beforeValue) && Standard(x.value) && StandardSpaces(x.after)
    ensures StandardField(x) && Spaces(x.before) && Spaces(x.afterName) && Spaces(x.beforeValue) && Spaces(x.after)
  {
  }

  lemma StandardFieldsMore(x: Field, fields: seq<Field>)
    requires StandardField(x) && StandardFields(fields)
    ensures StandardFields([x] + fields) && StandardFields([x])
  {
    assert ([x] + fields)[1..] == fields;
    assert [x][1..] == [];
    hide StandardField;
  }

  lemma QuotedUnits(s: Bytes)
    requires NulFree(s)
    ensures LiteralText(PrintedUnits(s)) == PrintString(s)
  {
    StringConforms(s);
    hide WrittenAll, Escape, PrintedUnits;
  }

  lemma MemberPieces(b: Bytes, tabs: Bytes, name: Bytes, ws: Bytes, w: Bytes, e: Bytes)
    ensures (b + tabs) + name + [] + [COLON] + (ws + w + e) == b + (tabs + name + [COLON] + ws + w) + e
  {
  }

  /** One member, what stands before its line included, and what follows its value. */
  lemma {:induction false} MemberConforms(m: Member, depth: nat, fmt: bool, before: Gap, after: Gap) returns (x: Field)
    requires NulFree(m.name) && Printable(m.value) && StandardSpaces(before) && StandardSpaces(after)
    ensures StandardField(x) && AcceptedField(x) && FieldMember(x) == m
    ensures FieldText(x) == GapText(before) + PrintMember(m, depth, fmt) + GapText(after)
    decreases m, 2
  {
    hide *;
    MemberText(m, depth, fmt);
    TabsGap(depth, fmt);
    SpaceGap(fmt);
    NoGapAtAll();
    StringConforms(m.name);
    QuotedUnits(m.name);
    var tabs, tab := Whites(If(fmt, Tabs(depth))), Whites(If(fmt, [TAB]));
    GapBoth(before, tabs);
    var s := ValueConforms(m.value, depth, fmt);
    ConformsParts(s, m.value, PrintValue(m.value, depth, fmt));
    x := Field(before + tabs, PrintedUnits(m.name), [], tab, s, after);
    FieldConforms(x);
    FieldIs(x);
    MemberPieces(GapText(before), GapText(tabs), PrintString(m.name), GapText(tab), Text(s), GapText(after));
  }

  lemma ConformsParts(s: Syntax, v: Json, w: Bytes)
    requires Conforms(s, v, w)
    ensures Standard(s) && Accepted(s) && Value(s) == v && Text(s) == w
  {
  }

  lemma LastPieces(b: Bytes, m: Bytes, nl: Bytes, e: Bytes)
    ensures b + m + (nl + e) == b + (m + nl) + e
  {
  }

  lemma MorePieces(b: Bytes, m: Bytes, nl: Bytes, rest: Bytes, e: Bytes)
    ensures (b + m + []) + [COMMA] + (nl + rest + e) == b + (m + [COMMA] + nl + rest) + e
  {
  }

  lemma {:induction false} MembersConform(members: seq<Member>, depth: nat, fmt: bool, before: Gap, last: Gap)
      returns (fields: seq<Field>)
    requires members != [] && PrintableMembers(members) && StandardSpaces(before) && StandardSpaces(last)
    ensures StandardFields(fields) && AcceptedFields(fields) && Members(fields) == members && fields != []
    ensures FieldsText(fields) == GapText(before) + PrintMembers(members, depth, fmt) + GapText(last)
    decreases members, 0
  {
    hide *;
    MembersPrinted(members, depth, fmt);
    NoGapAtAll();
    SpaceGap(fmt);
    var nl := Whites(If(fmt, [NEWLINE]));
    if |members| == 1 {
      GapBoth(nl, last);
      var x := MemberConforms(members[0], depth, fmt, before, nl + last);
      OneFieldSound(x);
      NothingStandard();
      StandardFieldsMore(x, []);
      LastPieces(GapText(before), PrintMember(members[0], depth, fmt), GapText(nl), GapText(last));
      fields := [x];
    } else {
      var x := MemberConforms(members[0], depth, fmt, before, []);
      var rest := MembersConform(members[1..], depth, fmt, nl, last);
      MoreFieldsSound(x, rest);
      StandardFieldsMore(x, rest);
      MorePieces(GapText(before), PrintMember(members[0], depth, fmt), GapText(nl), PrintMembers(members[1..], depth, fmt), GapText(last));
      fields := [x] + rest;
    }
  }
}
