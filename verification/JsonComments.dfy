/** cJSON_Minify on every text of the grammar, with comments between its tokens: what is left of it means the same. */
module JsonComments {
  import opened JsonText
  import opened JsonParse
  import opened JsonRoundTrip
  import opened JsonString
  import opened JsonSyntax
  import opened JsonAccept
  import opened JsonMinify

  // ------------------------------------------------------------------------- between tokens

  predicate Closes(s: Bytes, k: nat) {
    k + 1 < |s| && s[k] == STAR && s[k + 1] == SLASH
  }

  /** A comment with its end where it is read to be: the star that opens a block comment may also be the one that closes it. */
  predicate Ended(x: Piece) {
    match x
    case White(c) => 1 <= c <= 32
    case Line(body) => NEWLINE !in body
    case Block(body) => forall k :: 0 <= k < |body| ==> !Closes([STAR] + body, k)
  }

  predicate Commented(g: Gap) {
    forall k :: 0 <= k < |g| ==> Ended(g[k])
  }

  /** What is left of a piece: only control bytes that are no white space to cJSON_Minify. */
  function Kept(x: Piece): Gap {
    if x.White? && !IsSpace(x.byte) then [x] else []
  }

  function Bare(g: Gap): Gap {
    if g == [] then [] else Kept(g[0]) + Bare(g[1..])
  }

  lemma {:induction false} BareSpaces(g: Gap)
    requires Commented(g)
    ensures Spaces(Bare(g))
  {
    if g != [] {
      BareSpaces(g[1..]);
      assert Ended(g[0]);
    }
  }

  lemma KeptText(x: Piece, g: Gap)
    ensures GapText(Kept(x) + g) == GapText(Kept(x)) + GapText(g)
  {
    if x.White? && !IsSpace(x.byte) {
      assert ([x] + g)[0] == x && ([x] + g)[1..] == g;
      assert GapText([x]) == PieceText(x) + GapText([]);
    } else {
      assert [] + g == g;
    }
  }

  lemma LineLeaves(t: Bytes, i: nat, j: nat, body: Bytes)
    requires NEWLINE !in body && Spans(t, i, j, [SLASH, SLASH] + body + [NEWLINE])
    ensures Leaves(t, i, j, [])
  {
    var k, l := Split3(t, i, j, [SLASH, SLASH], body, [NEWLINE]);
    TwoBytesAt(t, i, k, SLASH, SLASH);
    ByteAt(t, l, j, NEWLINE);
    BodyAt(t, k, l, body);
    LineEndAt(t, k, l);
    CatNothing(MinifyFrom(t, j));
  }

  lemma BodyAt(t: Bytes, i: nat, j: nat, s: Bytes)
    requires Spans(t, i, j, s)
    ensures i <= j <= |t| && |s| == j - i && forall k :: i <= k < j ==> t[k] == s[k - i]
  {
    assert forall k :: i <= k < j ==> t[k] == t[i..j][k - i];
  }

  lemma BlockLeaves(t: Bytes, i: nat, j: nat, body: Bytes)
    requires Ended(Block(body)) && Spans(t, i, j, [SLASH, STAR] + body + [STAR, SLASH])
    ensures Leaves(t, i, j, [])
  {
    var k, l := Split3(t, i, j, [SLASH, STAR], body, [STAR, SLASH]);
    TwoBytesAt(t, i, k, SLASH, STAR);
    TwoBytesAt(t, l, j, STAR, SLASH);
    BodyAt(t, k, l, body);
    forall x | i + 1 <= x < l
      ensures !Closing(t, x)
    {
      NotClosed(t, k, l, body, x);
    }
    CommentEndAt(t, i + 1, l);
    CatNothing(MinifyFrom(t, j));
  }

  lemma NotClosed(t: Bytes, k: nat, l: nat, body: Bytes, x: nat)
    requires Ended(Block(body)) && 2 <= k <= l < |t| && |body| == l - k && (forall y :: k <= y < l ==> t[y] == body[y - k])
    requires t[k - 1] == STAR && t[l] == STAR && k - 1 <= x < l
    ensures !Closing(t, x)
  {
    var s := [STAR] + body;
    assert s[x - (k - 1)] == t[x];
    if x + 1 < l {
      assert s[x + 1 - (k - 1)] == t[x + 1];
      assert !Closes(s, x - (k - 1));
    }
  }

  lemma PieceLeaves(t: Bytes, i: nat, j: nat, x: Piece)
    requires Ended(x) && Spans(t, i, j, PieceText(x))
    ensures Leaves(t, i, j, GapText(Kept(x)))
  {
    match x
    case White(c) =>
      if IsSpace(c) {
        LeavesNothing(t, i, j, [c]);
      } else {
        assert GapText([x]) == [c] + [];
        LeavesByte(t, i, j, c);
      }
    case Line(body) => LineLeaves(t, i, j, body);
    case Block(body) => BlockLeaves(t, i, j, body);
  }

  lemma {:induction false} GapLeaves(t: Bytes, i: nat, j: nat, g: Gap)
    requires Commented(g) && Spans(t, i, j, GapText(g))
    ensures Leaves(t, i, j, GapText(Bare(g)))
    decreases |g|
  {
    if g == [] {
      CatNothing(MinifyFrom(t, j));
    } else {
      var k := Split2(t, i, j, PieceText(g[0]), GapText(g[1..]));
      KeptText(g[0], Bare(g[1..]));
      hide Leaves, Spans, PieceText, Kept, GapText, Ended;
      PieceLeaves(t, i, k, g[0]);
      GapLeaves(t, k, j, g[1..]);
      LeavesBoth(t, i, k, j, GapText(Kept(g[0])), GapText(Bare(g[1..])));
    }
  }

  // ------------------------------------------------------------------------- literals

  lemma BasicCopied(d: Bytes, t: Bytes, i: nat, j: nat)
    requires FourDigits(d) && Spans(t, i, j, [BACKSLASH, LOWER_U] + d)
    ensures j <= |t| && LiteralFrom(t, i) == Cat([BACKSLASH, LOWER_U] + d, LiteralFrom(t, j))
  {
    var e := [BACKSLASH, LOWER_U] + d;
    assert forall k :: 2 <= k < 6 ==> e[k] == d[k - 2] && HexValue(d[k - 2]) >= 0;
    LiteralUnicode(t, i, j, e);
  }

  lemma UnitCopied(u: Unit, t: Bytes, i: nat, j: nat)
    requires Allowed(u) && Spans(t, i, j, JsonString.Written(u))
    ensures j <= |t| && LiteralFrom(t, i) == Cat(JsonString.Written(u), LiteralFrom(t, j))
  {
    match u
    case Raw(c) => ByteAt(t, i, j, c);
    case Short(c) =>
      TwoBytesAt(t, i, j, BACKSLASH, c);
      assert t[i..i + 2] == [BACKSLASH, c];
    case Basic(d) => BasicCopied(d, t, i, j);
    case Dropped(d) => BasicCopied(d, t, i, j);
    case Pair(d, e) => PairCopied(d, e, t, i, j);
    case DroppedPair(d, e) => PairCopied(d, e, t, i, j);
  }

  lemma PairCopied(d: Bytes, e: Bytes, t: Bytes, i: nat, j: nat)
    requires FourDigits(d) && FourDigits(e) && Spans(t, i, j, [BACKSLASH, LOWER_U] + d + [BACKSLASH, LOWER_U] + e)
    ensures j <= |t|
    ensures LiteralFrom(t, i) == Cat([BACKSLASH, LOWER_U] + d + [BACKSLASH, LOWER_U] + e, LiteralFrom(t, j))
  {
    var a, b := [BACKSLASH, LOWER_U] + d, [BACKSLASH, LOWER_U] + e;
    hide Spans, LiteralFrom, FourDigits, Cat;
    assert [BACKSLASH, LOWER_U] + d + [BACKSLASH, LOWER_U] + e == a + b;
    var k := Split2(t, i, j, a, b);
    BasicCopied(d, t, i, k);
    BasicCopied(e, t, k, j);
    CatCat(a, b, LiteralFrom(t, j));
  }

  lemma {:induction false} UnitsCopied(us: seq<Unit>, t: Bytes, i: nat, j: nat)
    requires AllAllowed(us) && Spans(t, i, j, WrittenAll(us))
    ensures j <= |t| && LiteralFrom(t, i) == Cat(WrittenAll(us), LiteralFrom(t, j))
    decreases |us|
  {
    if us == [] {
      CatNothing(LiteralFrom(t, j));
      BodyAt(t, i, j, []);
    } else {
      var k := Split2(t, i, j, JsonString.Written(us[0]), WrittenAll(us[1..]));
      AllowedTail(us);
      hide AllAllowed, Allowed, JsonString.Written, Spans, LiteralFrom, Cat;
      UnitCopied(us[0], t, i, k);
      UnitsCopied(us[1..], t, k, j);
      CatCat(JsonString.Written(us[0]), WrittenAll(us[1..]), LiteralFrom(t, j));
    }
  }

  lemma LiteralLeaves(us: seq<Unit>, t: Bytes, i: nat, j: nat)
    requires AllAllowed(us) && Spans(t, i, j, LiteralText(us))
    ensures Leaves(t, i, j, LiteralText(us))
  {
    hide *;
    LiteralParts(us);
    var k, l := Split3(t, i, j, [QUOTE], WrittenAll(us), [QUOTE]);
    ByteAt(t, i, k, QUOTE);
    ByteAt(t, l, j, QUOTE);
    UnitsCopied(us, t, k, l);
    QuotedLeaves(t, i, l, WrittenAll(us));
  }

  lemma LiteralParts(us: seq<Unit>)
    ensures LiteralText(us) == [QUOTE] + WrittenAll(us) + [QUOTE]
  {
  }

  lemma QuotedLeaves(t: Bytes, i: nat, l: nat, w: Bytes)
    requires i < l < |t| && At(t, i) == QUOTE && At(t, l) == QUOTE && LiteralFrom(t, i + 1) == Cat(w, LiteralFrom(t, l))
    ensures Leaves(t, i, l + 1, [QUOTE] + w + [QUOTE])
  {
    assert MinifyFrom(t, i) == Cat([QUOTE], LiteralFrom(t, i + 1));
    assert LiteralFrom(t, l) == Cat([QUOTE], MinifyFrom(t, l + 1));
    hide MinifyFrom, LiteralFrom, Cat;
    CatCat(w, [QUOTE], MinifyFrom(t, l + 1));
    CatCat([QUOTE], w + [QUOTE], MinifyFrom(t, l + 1));
    assert [QUOTE] + w + [QUOTE] == [QUOTE] + (w + [QUOTE]);
  }

  lemma NumeralLeaves(n: Numeral, t: Bytes, i: nat, j: nat)
    requires NumeralAllowed(n) && Spans(t, i, j, NumeralText(n))
    ensures Leaves(t, i, j, NumeralText(n))
  {
    NumeralCopied(n);
    LeavesCopied(t, i, j, NumeralText(n));
  }

  lemma NumeralCopied(n: Numeral)
    requires NumeralAllowed(n)
    ensures forall k :: 0 <= k < |NumeralText(n)| ==> Copied(NumeralText(n)[k])
  {
    NumeralParts(n);
    hide NumeralText;
    assert forall k :: 0 <= k < |ExponentText(n.exponent)| ==> Copied(ExponentText(n.exponent)[k]);
    assert forall k :: 0 <= k < |FractionText(n.fraction)| ==> Copied(FractionText(n.fraction)[k]);
    assert forall k :: 0 <= k < |n.whole| ==> Copied(n.whole[k]);
    assert forall k :: 0 <= k < |If(n.negative, [MINUS])| ==> Copied(If(n.negative, [MINUS])[k]);
    hide ExponentText, FractionText, If, Copied;
  }

  lemma WordLeaves(v: Json, t: Bytes, i: nat, j: nat)
    requires Spans(t, i, j, WordText(v))
    ensures Leaves(t, i, j, WordText(v))
  {
    LeavesCopied(t, i, j, WordText(v));
  }

  // ------------------------------------------------------------------------- values

  /** The tokens are such as the parser takes; between them stand spaces and comments. */
  predicate Readable(s: Syntax)
    decreases s, 1
  {
    match s
    case List(open, items) => Commented(open) && ReadableItems(items)
    case Record(open, fields) => Commented(open) && ReadableFields(fields)
    case _ => Accepted(s)
  }

  predicate ReadableItems(items: seq<Item>)
    decreases items, 0
  {
    items == [] || (ReadableItem(items[0]) && ReadableItems(items[1..]))
  }

  predicate ReadableItem(x: Item)
    decreases x, 2
  {
    Commented(x.before) && Readable(x.value) && Commented(x.after)
  }

  predicate ReadableFields(fields: seq<Field>)
    decreases fields, 0
  {
    fields == [] || (ReadableField(fields[0]) && ReadableFields(fields[1..]))
  }

  predicate ReadableField(x: Field)
    decreases x, 2
  {
    && Commented(x.before) && AllAllowed(x.name) && Commented(x.afterName)
    && Commented(x.beforeValue) && Readable(x.value) && Commented(x.after)
  }

  /** The same tokens with less between them. */
  function Bared(s: Syntax): Syntax
    decreases s, 1
  {
    match s
    case List(open, items) => List(Bare(open), BaredItems(items))
    case Record(open, fields) => Record(Bare(open), BaredFields(fields))
    case _ => s
  }

  function BaredItems(items: seq<Item>): (r: seq<Item>)
    ensures |r| == |items|
    decreases items, 0
  {
    if items == [] then [] else [BaredItem(items[0])] + BaredItems(items[1..])
  }

  function BaredItem(x: Item): Item
    decreases x, 2
  {
    Item(Bare(x.before), Bared(x.value), Bare(x.after))
  }

  function BaredFields(fields: seq<Field>): (r: seq<Field>)
    ensures |r| == |fields|
    decreases fields, 0
  {
    if fields == [] then [] else [BaredField(fields[0])] + BaredFields(fields[1..])
  }

  function BaredField(x: Field): Field
    decreases x, 2
  {
    Field(Bare(x.before), x.name, Bare(x.afterName), Bare(x.beforeValue), Bared(x.value), Bare(x.after))
  }

  /** The rest after the first is what the rest becomes. */
  lemma BaredItemsParts(items: seq<Item>)
    requires items != [] && ReadableItems(items)
    ensures ReadableItem(items[0]) && ReadableItems(items[1..])
    ensures BaredItems(items)[0] == BaredItem(items[0]) && BaredItems(items)[1..] == BaredItems(items[1..])
  {
    hide BaredItem, ReadableItem;
  }

  lemma BaredFieldsParts(fields: seq<Field>)
    requires fields != [] && ReadableFields(fields)
    ensures ReadableField(fields[0]) && ReadableFields(fields[1..])
    ensures BaredFields(fields)[0] == BaredField(fields[0]) && BaredFields(fields)[1..] == BaredFields(fields[1..])
  {
    hide BaredField, ReadableField;
  }

  lemma {:induction false} BaredAccepted(s: Syntax)
    requires Readable(s)
    ensures Accepted(Bared(s))
    decreases s, 1
  {
    match s
    case List(open, items) =>
      BareSpaces(open);
      BaredItemsAccepted(items);
    case Record(open, fields) =>
      BareSpaces(open);
      BaredFieldsAccepted(fields);
    case _ =>
  }

  lemma {:induction false} BaredItemsAccepted(items: seq<Item>)
    requires ReadableItems(items)
    ensures AcceptedItems(BaredItems(items))
    decreases items, 0
  {
    if items != [] {
      BaredItemsParts(items);
      hide BaredItems, ReadableItems;
      var x := items[0];
      BareSpaces(x.before);
      BaredAccepted(x.value);
      BareSpaces(x.after);
      BaredItemsAccepted(items[1..]);
    }
  }

  lemma {:induction false} BaredFieldsAccepted(fields: seq<Field>)
    requires ReadableFields(fields)
    ensures AcceptedFields(BaredFields(fields))
    decreases fields, 0
  {
    if fields != [] {
      BaredFieldsParts(fields);
      hide BaredFields, ReadableFields;
      var x := fields[0];
      BareSpaces(x.before);
      BareSpaces(x.afterName);
      BareSpaces(x.beforeValue);
      BaredAccepted(x.value);
      BareSpaces(x.after);
      BaredFieldsAccepted(fields[1..]);
    }
  }

  lemma Leaves3(t: Bytes, i: nat, k: nat, l: nat, j: nat, a: Bytes, b: Bytes, c: Bytes)
    requires Leaves(t, i, k, a) && Leaves(t, k, l, b) && Leaves(t, l, j, c)
    ensures Leaves(t, i, j, a + b + c)
  {
    hide *;
    LeavesBoth(t, i, k, l, a, b);
    LeavesBoth(t, i, l, j, a + b, c);
  }

  lemma Leaves4(t: Bytes, i: nat, k: nat, l: nat, m: nat, j: nat, a: Bytes, b: Bytes, c: Bytes, d: Bytes)
    requires Leaves(t, i, k, a) && Leaves(t, k, l, b) && Leaves(t, l, m, c) && Leaves(t, m, j, d)
    ensures Leaves(t, i, j, a + b + c + d)
  {
    hide *;
    Leaves3(t, i, k, l, m, a, b, c);
    LeavesBoth(t, i, m, j, a + b + c, d);
  }

  /** The bytes that stand alone. */
  lemma Marks()
    ensures Copied(COMMA) && Copied(COLON) && Copied(OPEN_BRACKET) && Copied(CLOSE_BRACKET) && Copied(OPEN_BRACE) && Copied(CLOSE_BRACE)
  {
  }

  lemma {:induction false} SyntaxLeaves(s: Syntax, t: Bytes, i: nat, j: nat)
    requires Readable(s) && Spans(t, i, j, Text(s))
    ensures Leaves(t, i, j, Text(Bared(s)))
    decreases s, 1
  {
    match s
    case Word(v) => WordLeaves(v, t, i, j);
    case Numeric(n) => NumeralLeaves(n, t, i, j);
    case Literal(us) => LiteralLeaves(us, t, i, j);
    case List(open, items) => ListLeaves(s, t, i, j);
    case Record(open, fields) => RecordLeaves(s, t, i, j);
  }

  lemma ListTexts(s: Syntax)
    requires s.List? && Readable(s)
    ensures Commented(s.open) && ReadableItems(s.items)
    ensures Text(s) == [OPEN_BRACKET] + GapText(s.open) + ItemsText(s.items) + [CLOSE_BRACKET]
    ensures Text(Bared(s)) == [OPEN_BRACKET] + GapText(Bare(s.open)) + ItemsText(BaredItems(s.items)) + [CLOSE_BRACKET]
  {
    hide BaredItems, ReadableItems, ItemsText, GapText;
  }

  lemma {:induction false} ListLeaves(s: Syntax, t: Bytes, i: nat, j: nat)
    requires s.List? && Readable(s) && Spans(t, i, j, Text(s))
    ensures Leaves(t, i, j, Text(Bared(s)))
    decreases s, 0
  {
    hide *;
    ListTexts(s);
    Marks();
    var k, l, m := Split4(t, i, j, [OPEN_BRACKET], GapText(s.open), ItemsText(s.items), [CLOSE_BRACKET]);
    LeavesByte(t, i, k, OPEN_BRACKET);
    GapLeaves(t, k, l, s.open);
    ItemListLeaves(s.items, t, l, m);
    LeavesByte(t, m, j, CLOSE_BRACKET);
    Leaves4(t, i, k, l, m, j, [OPEN_BRACKET], GapText(Bare(s.open)), ItemsText(BaredItems(s.items)), [CLOSE_BRACKET]);
  }

  lemma {:induction false} SpacedLeaves(before: Gap, s: Syntax, after: Gap, t: Bytes, i: nat, j: nat)
    requires Commented(before) && Readable(s) && Commented(after)
    requires Spans(t, i, j, GapText(before) + Text(s) + GapText(after))
    ensures Leaves(t, i, j, GapText(Bare(before)) + Text(Bared(s)) + GapText(Bare(after)))
    decreases s, 2
  {
    hide *;
    var k, l := Split3(t, i, j, GapText(before), Text(s), GapText(after));
    GapLeaves(t, i, k, before);
    SyntaxLeaves(s, t, k, l);
    GapLeaves(t, l, j, after);
    Leaves3(t, i, k, l, j, GapText(Bare(before)), Text(Bared(s)), GapText(Bare(after)));
  }

  lemma ItemTexts(x: Item)
    requires ReadableItem(x)
    ensures Commented(x.before) && Readable(x.value) && Commented(x.after)
    ensures ItemText(x) == GapText(x.before) + Text(x.value) + GapText(x.after)
    ensures ItemText(BaredItem(x)) == GapText(Bare(x.before)) + Text(Bared(x.value)) + GapText(Bare(x.after))
  {
  }

  lemma SomeItems(items: seq<Item>)
    requires items != []
    ensures ItemsText(items) == if |items| == 1 then ItemText(items[0]) else ItemText(items[0]) + [COMMA] + ItemsText(items[1..])
  {
    hide ItemText;
  }

  lemma LeavesHere(t: Bytes, i: nat, j: nat)
    requires Spans(t, i, j, [])
    ensures Leaves(t, i, j, [])
  {
    BodyAt(t, i, j, []);
    CatNothing(MinifyFrom(t, j));
  }

  lemma {:induction false} ItemListLeaves(items: seq<Item>, t: Bytes, i: nat, j: nat)
    requires ReadableItems(items) && Spans(t, i, j, ItemsText(items))
    ensures Leaves(t, i, j, ItemsText(BaredItems(items)))
    decreases items, 0
  {
    hide *;
    if items == [] {
      NoItems();
      LeavesHere(t, i, j);
    } else {
      BaredItemsParts(items);
      ItemTexts(items[0]);
      SomeItems(items);
      SomeItems(BaredItems(items));
      Marks();
      var x := items[0];
      if |items| == 1 {
        SpacedLeaves(x.before, x.value, x.after, t, i, j);
      } else {
        var k, l := Split3(t, i, j, ItemText(x), [COMMA], ItemsText(items[1..]));
        SpacedLeaves(x.before, x.value, x.after, t, i, k);
        LeavesByte(t, k, l, COMMA);
        ItemListLeaves(items[1..], t, l, j);
        Leaves3(t, i, k, l, j, ItemText(BaredItem(x)), [COMMA], ItemsText(BaredItems(items[1..])));
      }
    }
  }

  // ------------------------------------------------------------------------- objects

  lemma RecordTexts(s: Syntax)
    requires s.Record? && Readable(s)
    ensures Commented(s.open) && ReadableFields(s.fields)
    ensures Text(s) == [OPEN_BRACE] + GapText(s.open) + FieldsText(s.fields) + [CLOSE_BRACE]
    ensures Text(Bared(s)) == [OPEN_BRACE] + GapText(Bare(s.open)) + FieldsText(BaredFields(s.fields)) + [CLOSE_BRACE]
  {
    hide BaredFields, ReadableFields, FieldsText, GapText;
  }

  lemma {:induction false} RecordLeaves(s: Syntax, t: Bytes, i: nat, j: nat)
    requires s.Record? && Readable(s) && Spans(t, i, j, Text(s))
    ensures Leaves(t, i, j, Text(Bared(s)))
    decreases s, 0
  {
    hide *;
    RecordTexts(s);
    Marks();
    var k, l, m := Split4(t, i, j, [OPEN_BRACE], GapText(s.open), FieldsText(s.fields), [CLOSE_BRACE]);
    LeavesByte(t, i, k, OPEN_BRACE);
    GapLeaves(t, k, l, s.open);
    FieldListLeaves(s.fields, t, l, m);
    LeavesByte(t, m, j, CLOSE_BRACE);
    Leaves4(t, i, k, l, m, j, [OPEN_BRACE], GapText(Bare(s.open)), FieldsText(BaredFields(s.fields)), [CLOSE_BRACE]);
  }

  lemma FieldTexts(x: Field)
    requires ReadableField(x)
    ensures Commented(x.before) && AllAllowed(x.name) && Commented(x.afterName)
    ensures Commented(x.beforeValue) && Readable(x.value) && Commented(x.after)
    ensures NameText(x) == GapText(x.before) + LiteralText(x.name) + GapText(x.afterName)
    ensures NameText(BaredField(x)) == GapText(Bare(x.before)) + LiteralText(x.name) + GapText(Bare(x.afterName))
    ensures ValueText(x) == GapText(x.beforeValue) + Text(x.value) + GapText(x.after)
    ensures ValueText(BaredField(x)) == GapText(Bare(x.beforeValue)) + Text(Bared(x.value)) + GapText(Bare(x.after))
  {
  }

  lemma {:induction false} FieldLeaves(x: Field, t: Bytes, i: nat, j: nat)
    requires ReadableField(x) && Spans(t, i, j, FieldText(x))
    ensures Leaves(t, i, j, FieldText(BaredField(x)))
    decreases x, 2
  {
    hide *;
    FieldText3(x);
    FieldText3(BaredField(x));
    FieldTexts(x);
    Marks();
    var k, l := Split3(t, i, j, NameText(x), [COLON], ValueText(x));
    NameLeaves(x, t, i, k);
    LeavesByte(t, k, l, COLON);
    SpacedLeaves(x.beforeValue, x.value, x.after, t, l, j);
    Leaves3(t, i, k, l, j, NameText(BaredField(x)), [COLON], ValueText(BaredField(x)));
  }

  lemma NameLeaves(x: Field, t: Bytes, i: nat, j: nat)
    requires ReadableField(x) && Spans(t, i, j, NameText(x))
    ensures Leaves(t, i, j, NameText(BaredField(x)))
  {
    hide *;
    FieldTexts(x);
    var k, l := Split3(t, i, j, GapText(x.before), LiteralText(x.name), GapText(x.afterName));
    GapLeaves(t, i, k, x.before);
    LiteralLeaves(x.name, t, k, l);
    GapLeaves(t, l, j, x.afterName);
    Leaves3(t, i, k, l, j, GapText(Bare(x.before)), LiteralText(x.name), GapText(Bare(x.afterName)));
  }

  lemma SomeFields(fields: seq<Field>)
    requires fields != []
    ensures FieldsText(fields) ==
      if |fields| == 1 then FieldText(fields[0]) else FieldText(fields[0]) + [COMMA] + FieldsText(fields[1..])
  {
    hide FieldText;
  }

  lemma {:induction false} FieldListLeaves(fields: seq<Field>, t: Bytes, i: nat, j: nat)
    requires ReadableFields(fields) && Spans(t, i, j, FieldsText(fields))
    ensures Leaves(t, i, j, FieldsText(BaredFields(fields)))
    decreases fields, 0
  {
    hide *;
    if fields == [] {
      NoItems();
      LeavesHere(t, i, j);
    } else {
      BaredFieldsParts(fields);
      SomeFields(fields);
      SomeFields(BaredFields(fields));
      Marks();
      var x := fields[0];
      if |fields| == 1 {
        FieldLeaves(x, t, i, j);
      } else {
        var k, l := Split3(t, i, j, FieldText(x), [COMMA], FieldsText(fields[1..]));
        FieldLeaves(x, t, i, k);
        LeavesByte(t, k, l, COMMA);
        FieldListLeaves(fields[1..], t, l, j);
        Leaves3(t, i, k, l, j, FieldText(BaredField(x)), [COMMA], FieldsText(BaredFields(fields[1..])));
      }
    }
  }

  // ------------------------------------------------------------------------- whole texts

  predicate ReadableDocument(d: Document) {
    d.Whole? && Commented(d.before) && Readable(d.value) && Commented(d.after)
  }

  function BaredDocument(d: Document): Document
    requires d.Whole?
  {
    Whole(Bare(d.before), Bared(d.value), Bare(d.after))
  }

  /** A last line that is a comment; nothing ends it but the text. */
  predicate LastLine(s: Bytes) {
    s == [] || (|s| >= 2 && s[0] == SLASH && s[1] == SLASH && NEWLINE !in s)
  }

  lemma LastLineLeaves(t: Bytes, i: nat, s: Bytes)
    requires LastLine(s) && Spans(t, i, |t|, s)
    ensures i <= |t| && MinifyFrom(t, i) == Minified([])
  {
    BodyAt(t, i, |t|, s);
    if s != [] {
      LineEndAt(t, i + 2, |t|);
    }
  }

  /** Minifying drops the comments, and the white space that it knows, and nothing else. */
  lemma MinifyExactly(d: Document, last: Bytes)
    requires ReadableDocument(d) && LastLine(last)
    ensures AcceptedDocument(BaredDocument(d))
    ensures MinifyFrom(DocumentText(d) + last, 0) == Minified(DocumentText(BaredDocument(d)))
  {
    var t, w := DocumentText(d) + last, DocumentText(BaredDocument(d));
    BareSpaces(d.before);
    BareSpaces(d.after);
    BaredAccepted(d.value);
    SpansAll(t);
    var k := Split2(t, 0, |t|, DocumentText(d), last);
    SpacedLeaves(d.before, d.value, d.after, t, 0, k);
    LastLineLeaves(t, k, last);
    hide MinifyFrom;
    assert w + [] == w;
  }

  /** What cJSON_Minify leaves of a text with comments is parsed, to what the tokens mean. */
  lemma MinifiedParses(d: Document, last: Bytes, requireNullTerminated: bool)
    requires ReadableDocument(d) && LastLine(last)
    ensures var m := MinifyFrom(DocumentText(d) + last, 0);
      && AcceptedDocument(BaredDocument(d)) && m.Minified? && NulFree(m.text)
      && var r := ParseWithOpts(m.text, requireNullTerminated);
      && r.Parsed? && r.value == DocumentValue(BaredDocument(d))
  {
    MinifyExactly(d, last);
    hide *;
    DocumentAccepted(BaredDocument(d), requireNullTerminated);
  }

  // What is parsed as it is means the same when it is minified.

  lemma {:induction false} BaredMeans(s: Syntax)
    requires Accepted(s)
    ensures Readable(s) && Accepted(Bared(s)) && Value(Bared(s)) == Value(s)
    decreases s, 1
  {
    match s
    case List(open, items) =>
      BareSpaces(open);
      BaredItemsMean(items);
      hide BaredItems, ReadableItems, AcceptedItems, Spaces;
    case Record(open, fields) =>
      BareSpaces(open);
      BaredFieldsMean(fields);
      hide BaredFields, ReadableFields, AcceptedFields, Spaces;
    case _ =>
  }

  lemma {:induction false} BaredItemsMean(items: seq<Item>)
    requires AcceptedItems(items)
    ensures ReadableItems(items) && AcceptedItems(BaredItems(items)) && Values(BaredItems(items)) == Values(items)
    decreases items, 0
  {
    if items != [] {
      ItemsParts(items);
      ItemParts(items[0]);
      BaredMeans(items[0].value);
      BaredItemsMean(items[1..]);
      assert ReadableItems(items);
      BaredItemsParts(items);
      BaredItemsAccepted(items);
      hide BaredItems, ReadableItems, AcceptedItems, Accepted, Value, Bared;
    }
  }

  lemma {:induction false} BaredFieldsMean(fields: seq<Field>)
    requires AcceptedFields(fields)
    ensures ReadableFields(fields) && AcceptedFields(BaredFields(fields)) && Members(BaredFields(fields)) == Members(fields)
    decreases fields, 0
  {
    if fields != [] {
      FieldsParts(fields);
      FieldParts(fields[0]);
      BaredMeans(fields[0].value);
      BaredFieldsMean(fields[1..]);
      assert ReadableFields(fields);
      BaredFieldsParts(fields);
      BaredFieldsAccepted(fields);
      hide BaredFields, ReadableFields, AcceptedFields, Accepted, Value, Bared;
    }
  }

  /** Minifying a text that is parsed as it is changes nothing of what it means. */
  lemma MinifyKeepsMeaning(d: Document)
    requires AcceptedDocument(d) && d.Whole?
    ensures var t, m := DocumentText(d), MinifyFrom(DocumentText(d), 0);
      && NulFree(t) && m.Minified? && NulFree(m.text)
      && ParseWithOpts(t, true).Parsed? && ParseWithOpts(m.text, true).Parsed?
      && ParseWithOpts(m.text, true).value == ParseWithOpts(t, true).value
  {
    BaredMeans(d.value);
    assert DocumentText(d) + [] == DocumentText(d);
    MinifiedParses(d, [], true);
    DocumentAccepted(d, true);
    hide ParseWithOpts, Bared;
  }

  /** A slash right after the opening of a block comment ends it there. */
  lemma SlashEndsBlock()
    ensures !Ended(Block([SLASH]))
    ensures MinifyFrom(PieceText(Block([SLASH])), 0) == Minified([STAR, SLASH])
  {
    var t := PieceText(Block([SLASH]));
    assert t == [SLASH, STAR, SLASH, STAR, SLASH];
    assert Closes([STAR] + [SLASH], 0);
    assert CommentEnd(t, 1) == 1;
    assert MinifyFrom(t, 0) == MinifyFrom(t, 3);
    assert MinifyFrom(t, 5) == Minified([]);
    assert MinifyFrom(t, 4) == Cat([SLASH], MinifyFrom(t, 5));
    assert MinifyFrom(t, 3) == Cat([STAR], MinifyFrom(t, 4));
  }
}
