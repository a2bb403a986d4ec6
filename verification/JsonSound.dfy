/** Nothing but the texts of the grammar is parsed: with JsonAccept, the parser takes exactly these and gives what they mean. */
module JsonSound {
  import opened JsonText
  import opened JsonParse
  import opened JsonRoundTrip
  import opened JsonString
  import opened JsonSyntax
  import opened JsonAccept

  // ------------------------------------------------------------------------- spaces

  lemma SpansNothing(t: Bytes, i: nat)
    requires i <= |t|
    ensures Spans(t, i, i, [])
  {
    assert t[i..i] == [];
  }

  lemma GapMore(c: Byte, g: Gap)
    ensures GapText([White(c)] + g) == [c] + GapText(g)
  {
    assert ([White(c)] + g)[1..] == g;
  }

  /** What is skipped. */
  lemma {:induction false} SkippedGap(t: Bytes, i: nat) returns (g: Gap)
    requires NulFree(t) && i <= |t|
    ensures Spaces(g) && i <= Skip(t, i) <= |t| && Spans(t, i, Skip(t, i), GapText(g))
    decreases |t| - i
  {
    g := [];
    if i < |t| && t[i] <= 32 {
      hide Spans;
      g := SkippedGap(t, i + 1);
      OneByte(t, i);
      Joined(t, i, i + 1, Skip(t, i), [t[i]], GapText(g));
      GapMore(t[i], g);
      g := [White(t[i])] + g;
    } else {
      SpansNothing(t, i);
    }
  }

  // ------------------------------------------------------------------------- numerals

  lemma DigitsSlice(t: Bytes, i: nat)
    requires i <= |t|
    ensures i <= DigitsEnd(t, i) <= |t| && Spans(t, i, DigitsEnd(t, i), t[i..DigitsEnd(t, i)])
    ensures AllDigits(t[i..DigitsEnd(t, i)]) && (IsDigit(At(t, i)) ==> i < DigitsEnd(t, i))
  {
  }

  lemma WholeSound(t: Bytes, i: nat) returns (d: Bytes)
    requires i <= |t|
    ensures AllDigits(d) && Spans(t, i, IntegerPart(t, i).1, d) && IntegerPart(t, i).0 == DigitsValue(d) as real
    ensures (|d| > 1 && d[0] == ZERO ==> d[1] != ZERO) && (IsDigit(At(t, i)) ==> d != [])
  {
    hide DigitsValue, Accumulate, DigitsEnd, Spans, StartsWith;
    NoValue();
    var j := if At(t, i) == ZERO then i + 1 else i;
    if IsDigit(At(t, j)) && At(t, j) != ZERO {
      DigitsSlice(t, j);
      d := t[j..DigitsEnd(t, j)];
      AccumulateZero(d);
    } else {
      d := [];
      SpansNothing(t, j);
    }
    if At(t, i) == ZERO {
      OneByte(t, i);
      Joined(t, i, j, IntegerPart(t, i).1, [ZERO], d);
      LeadingZero(d);
      d := [ZERO] + d;
    }
  }

  lemma FractionSound(t: Bytes, i: nat, n: real) returns (f: Bytes)
    requires i <= |t|
    ensures AllDigits(f) && Spans(t, i, FractionPart(t, i, n).2, FractionText(f))
    ensures FractionPart(t, i, n).0 == Extended(n, f) && FractionPart(t, i, n).1 == |f|
  {
    hide Extended, Accumulate, DigitsEnd, Spans, StartsWith;
    f := [];
    if At(t, i) == DOT && IsDigit(At(t, i + 1)) {
      DigitsSlice(t, i + 1);
      f := t[i + 1..DigitsEnd(t, i + 1)];
      OneByte(t, i);
      Joined(t, i, i + 1, DigitsEnd(t, i + 1), [DOT], f);
    } else {
      SpansNothing(t, i);
    }
    AccumulateValue(n, f);
    AccumulateNothing(n);
  }

  lemma ExponentSound(t: Bytes, i: nat) returns (e: Exponent)
    requires i <= |t|
    ensures ExponentAllowed(e) && Spans(t, i, ExponentPart(t, i).1, ExponentText(e)) && ExponentPart(t, i).0 == ExponentValue(e)
  {
    hide DigitsEnd, Spans, StartsWith, DigitsValue, AccumulateInt;
    if At(t, i) == LOWER_E || At(t, i) == UPPER_E {
      var sign := if At(t, i + 1) == PLUS || At(t, i + 1) == MINUS then [At(t, i + 1)] else [];
      var j := i + 1 + |sign|;
      DigitsSlice(t, j);
      var d := t[j..DigitsEnd(t, j)];
      e := Exponent(t[i], sign, d);
      OneByte(t, i);
      if sign == [] { SpansNothing(t, j); } else { OneByte(t, i + 1); }
      Joined(t, i, i + 1, j, [t[i]], sign);
      Joined(t, i, j, DigitsEnd(t, j), [t[i]] + sign, d);
      AccumulateIntValue(d);
    } else {
      e := NoExponent;
      SpansNothing(t, i);
    }
  }

  lemma SignSound(t: Bytes, i: nat)
    requires i < |t|
    ensures Spans(t, i, if t[i] == MINUS then i + 1 else i, If(t[i] == MINUS, [MINUS]))
  {
    if t[i] == MINUS { OneByte(t, i); } else { SpansNothing(t, i); }
  }

  lemma Joined4(t: Bytes, i: nat, k: nat, l: nat, m: nat, j: nat, a: Bytes, b: Bytes, c: Bytes, d: Bytes)
    requires Spans(t, i, k, a) && Spans(t, k, l, b) && Spans(t, l, m, c) && Spans(t, m, j, d)
    ensures Spans(t, i, j, a + b + c + d)
  {
    hide Spans;
    Joined(t, i, k, l, a, b);
    Joined(t, i, l, m, a + b, c);
    Joined(t, i, m, j, a + b + c, d);
  }

  lemma Joined3(t: Bytes, i: nat, k: nat, l: nat, j: nat, a: Bytes, b: Bytes, c: Bytes)
    requires Spans(t, i, k, a) && Spans(t, k, l, b) && Spans(t, l, j, c)
    ensures Spans(t, i, j, a + b + c)
  {
    hide Spans;
    Joined(t, i, k, l, a, b);
    Joined(t, i, l, j, a + b, c);
  }

  lemma NumberSound(t: Bytes, i: nat) returns (n: Numeral)
    requires i < |t| && (t[i] == MINUS || IsDigit(t[i]))
    ensures NumeralAllowed(n) && Spans(t, i, ParseNumber(t, i).end, NumeralText(n))
    ensures ParseNumber(t, i).value == Number(NumeralValue(n))
  {
    hide ParseNumber, IntegerPart, FractionPart, ExponentPart, NumeralText, NumeralValue, Spans, Extended, DigitsValue, ExponentValue;
    hide ExponentAllowed, Scaled;
    var start := if t[i] == MINUS then i + 1 else i;
    SignSound(t, i);
    var w := WholeSound(t, start);
    var l := IntegerPart(t, start).1;
    var f := FractionSound(t, l, DigitsValue(w) as real);
    var m := FractionPart(t, l, DigitsValue(w) as real).2;
    var e := ExponentSound(t, m);
    n := Numeral(t[i] == MINUS, w, f, e);
    NumberFrom(t, i, start, l, m, ExponentPart(t, m).1, DigitsValue(w) as real, Extended(DigitsValue(w) as real, f), |f|,
      ExponentValue(e));
    Joined4(t, i, start, l, m, ExponentPart(t, m).1, If(n.negative, [MINUS]), w, FractionText(f), ExponentText(e));
    NumeralParts(n);
    ScaledValue(n);
  }

  // ------------------------------------------------------------------------- values

  /** What a value that is parsed consists of; a string may also be closed by the end of the text. */
  ghost predicate Consists(t: Bytes, i: nat, s: Syntax, closed: bool, r: Parsed<Json>) {
    && Accepted(s) && r.Parsed? && r.value == Value(s)
    && if closed then Spans(t, i, r.end, Text(s))
       else s.Literal? && r.end == |t| && Spans(t, i, |t|, [QUOTE] + WrittenAll(s.units))
  }

  lemma WordSound(t: Bytes, i: nat, v: Json)
    requires NulFree(t) && i <= |t| && (v.Null? || v.False? || v.True?) && StartsWith(t, i, WordText(v))
    ensures Consists(t, i, Word(v), true, ParseValue(t, i))
  {
    WordAccepted(v, t, i, i + |WordText(v)|);
  }

  lemma StringSound(t: Bytes, i: nat) returns (s: Syntax, closed: bool)
    requires NulFree(t) && i < |t| && t[i] == QUOTE && ParseValue(t, i).Parsed?
    ensures Consists(t, i, s, closed, ParseValue(t, i))
  {
    NotKeyword(t, i);
    hide StartsWith, Decode, Spans;
    var us, q := LiteralSound(t, i + 1);
    s, closed := Literal(us), q < |t|;
    OneByte(t, i);
    Joined(t, i, i + 1, q, [QUOTE], WrittenAll(us));
    if closed {
      OneByte(t, q);
      Joined(t, i, q, q + 1, [QUOTE] + WrittenAll(us), [QUOTE]);
    }
  }

  lemma NumericSound(t: Bytes, i: nat) returns (s: Syntax)
    requires NulFree(t) && i < |t| && (t[i] == MINUS || IsDigit(t[i]))
    ensures Consists(t, i, s, true, ParseValue(t, i))
  {
    NotKeyword(t, i);
    hide StartsWith, ParseNumber, Spans, NumeralText, NumeralValue, NumeralAllowed;
    var n := NumberSound(t, i);
    s := Numeric(n);
  }

  /** The kinds of value that ParseValue tells apart. */
  lemma Kinds(t: Bytes, i: nat)
    requires NulFree(t) && i <= |t| && ParseValue(t, i).Parsed?
    ensures (exists v: Json :: (v.Null? || v.False? || v.True?) && StartsWith(t, i, WordText(v)))
      || (i < |t| && (t[i] == QUOTE || t[i] == MINUS || IsDigit(t[i]) || t[i] == OPEN_BRACKET || t[i] == OPEN_BRACE))
  {
    if StartsWith(t, i, NULL_TEXT) {
      assert StartsWith(t, i, WordText(Null));
    } else if StartsWith(t, i, FALSE_TEXT) {
      assert StartsWith(t, i, WordText(False));
    } else if StartsWith(t, i, TRUE_TEXT) {
      assert StartsWith(t, i, WordText(True));
    }
  }

  lemma ArrayInside(t: Bytes, i: nat)
    requires NulFree(t) && i < |t| && t[i] == OPEN_BRACKET && ParseValue(t, i).Parsed?
    ensures var j := Skip(t, i + 1);
      if At(t, j) == CLOSE_BRACKET then ParseValue(t, i) == Parsed(Array([]), j + 1)
      else ParseItems(t, j).Parsed? && ParseValue(t, i) == Parsed(Array(ParseItems(t, j).value), ParseItems(t, j).end)
  {
    NotKeyword(t, i);
    hide StartsWith, ParseItems, Skip;
  }

  lemma ObjectInside(t: Bytes, i: nat)
    requires NulFree(t) && i < |t| && t[i] == OPEN_BRACE && ParseValue(t, i).Parsed?
    ensures var j := Skip(t, i + 1);
      if At(t, j) == CLOSE_BRACE then ParseValue(t, i) == Parsed(Object([]), j + 1)
      else ParseMembers(t, j).Parsed? && ParseValue(t, i) == Parsed(Object(ParseMembers(t, j).value), ParseMembers(t, j).end)
  {
    NotKeyword(t, i);
    hide StartsWith, ParseMembers, Skip;
  }

  /** What is parsed is a text of the grammar, and its value what the text means. */
  lemma {:induction false} ValueSound(t: Bytes, i: nat) returns (s: Syntax, closed: bool)
    requires NulFree(t) && i <= |t| && ParseValue(t, i).Parsed?
    ensures Consists(t, i, s, closed, ParseValue(t, i))
    decreases |t| - i, 1
  {
    hide *;
    Kinds(t, i);
    closed := true;
    if v: Json :| (v.Null? || v.False? || v.True?) && StartsWith(t, i, WordText(v)) {
      WordSound(t, i, v);
      s := Word(v);
    } else if t[i] == QUOTE {
      s, closed := StringSound(t, i);
    } else if t[i] == OPEN_BRACKET {
      s := ListSound(t, i);
    } else if t[i] == OPEN_BRACE {
      s := RecordSound(t, i);
    } else {
      s := NumericSound(t, i);
    }
  }

  lemma ListConsists(t: Bytes, i: nat, z: nat, open: Gap, items: seq<Item>)
    requires i < |t| && t[i] == OPEN_BRACKET && Spaces(open) && AcceptedItems(items)
    requires Spans(t, i + 1, z, GapText(open) + ItemsText(items)) && z < |t| && t[z] == CLOSE_BRACKET
    ensures Consists(t, i, List(open, items), true, Parsed(Array(Values(items)), z + 1))
  {
    hide Spans, GapText, ItemsText, Spaces, AcceptedItems, Values;
    OneByte(t, i);
    OneByte(t, z);
    Joined3(t, i, i + 1, z, z + 1, [OPEN_BRACKET], GapText(open) + ItemsText(items), [CLOSE_BRACKET]);
    assert [OPEN_BRACKET] + (GapText(open) + ItemsText(items)) + [CLOSE_BRACKET]
      == [OPEN_BRACKET] + GapText(open) + ItemsText(items) + [CLOSE_BRACKET];
  }

  lemma {:induction false} ListSound(t: Bytes, i: nat) returns (s: Syntax)
    requires NulFree(t) && i < |t| && t[i] == OPEN_BRACKET && ParseValue(t, i).Parsed?
    ensures Consists(t, i, s, true, ParseValue(t, i))
    decreases |t| - i, 0
  {
    hide *;
    ArrayInside(t, i);
    var open := SkippedGap(t, i + 1);
    var j := Skip(t, i + 1);
    var items, z := [], j;
    if At(t, j) == CLOSE_BRACKET {
      NoItems();
      NothingAccepted();
      SpansNothing(t, j);
    } else {
      items := ItemsSound(t, j);
      z := ParseItems(t, j).end - 1;
    }
    AtInside(t, z);
    Joined(t, i + 1, j, z, GapText(open), ItemsText(items));
    ListConsists(t, i, z, open, items);
    s := List(open, items);
  }

  lemma NothingAccepted()
    ensures AcceptedItems([]) && AcceptedFields([])
  {
  }

  lemma AtInside(t: Bytes, i: nat)
    ensures At(t, i) != 0 ==> i < |t| && t[i] == At(t, i)
    ensures CLOSE_BRACKET != 0 && CLOSE_BRACE != 0 && COMMA != 0 && COLON != 0 && QUOTE != 0
  {
  }

  lemma ItemsInside(t: Bytes, i: nat)
    requires NulFree(t) && i <= |t| && ParseItems(t, i).Parsed?
    ensures var v := ParseValue(t, Skip(t, i));
      && v.Parsed? && v.end <= Skip(t, v.end) < |t|
      && var j := Skip(t, v.end);
      && (t[j] == CLOSE_BRACKET ==> ParseItems(t, i) == Parsed([v.value], j + 1))
      && (t[j] != CLOSE_BRACKET ==>
          && t[j] == COMMA && ParseItems(t, j + 1).Parsed?
          && ParseItems(t, i) == Parsed([v.value] + ParseItems(t, j + 1).value, ParseItems(t, j + 1).end))
  {
    hide ParseValue, Skip;
  }

  /** A value that something follows is closed. */
  lemma SpacedConsists(t: Bytes, i: nat, before: Gap, s: Syntax, closed: bool, r: Parsed<Json>, after: Gap, c: nat)
    requires NulFree(t) && i <= |t| && Spans(t, i, Skip(t, i), GapText(before)) && Consists(t, Skip(t, i), s, closed, r)
    requires r.end <= c < |t| && Spans(t, r.end, c, GapText(after))
    ensures Accepted(s) && r.value == Value(s) && Spans(t, i, c, GapText(before) + Text(s) + GapText(after))
  {
    hide Spans, Accepted, Value, Text, GapText, Skip;
    assert closed;
    Joined3(t, i, Skip(t, i), r.end, c, GapText(before), Text(s), GapText(after));
  }

  lemma OneItemSound(x: Item)
    requires AcceptedItem(x)
    ensures Accepted(x.value) && AcceptedItems([x]) && Values([x]) == [Value(x.value)]
    ensures ItemsText([x]) == GapText(x.before) + Text(x.value) + GapText(x.after)
  {
    hide Accepted, Spaces, Value, Text, GapText;
  }

  lemma MoreItemsSound(x: Item, items: seq<Item>)
    requires AcceptedItem(x) && AcceptedItems(items) && items != []
    ensures Accepted(x.value) && AcceptedItems([x] + items) && Values([x] + items) == [Value(x.value)] + Values(items)
    ensures ItemsText([x] + items) == GapText(x.before) + Text(x.value) + GapText(x.after) + [COMMA] + ItemsText(items)
  {
    assert ([x] + items)[1..] == items;
    hide Accepted, Spaces, Value, Text, GapText;
  }

  lemma ItemIs(x: Item)
    requires Spaces(x.before) && Accepted(x.value) && Spaces(x.after)
    ensures AcceptedItem(x)
  {
  }

  lemma {:induction false} ItemsSound(t: Bytes, i: nat) returns (items: seq<Item>)
    requires NulFree(t) && i <= |t| && ParseItems(t, i).Parsed?
    ensures items != [] && AcceptedItems(items) && ParseItems(t, i).value == Values(items)
    ensures 0 < ParseItems(t, i).end <= |t| && At(t, ParseItems(t, i).end - 1) == CLOSE_BRACKET
    ensures Spans(t, i, ParseItems(t, i).end - 1, ItemsText(items))
    decreases |t| - i, 2
  {
    hide *;
    ItemsInside(t, i);
    var k := Skip(t, i);
    var before := SkippedGap(t, i);
    var s, closed := ValueSound(t, k);
    var v := ParseValue(t, k);
    var after := SkippedGap(t, v.end);
    var c := Skip(t, v.end);
    SpacedConsists(t, i, before, s, closed, v, after, c);
    var x := Item(before, s, after);
    ItemIs(x);
    AtIs(t, c);
    if t[c] == CLOSE_BRACKET {
      OneItemSound(x);
      items := [x];
    } else {
      var rest := ItemsSound(t, c + 1);
      MoreItemsSound(x, rest);
      OneByte(t, c);
      Joined3(t, i, c, c + 1, ParseItems(t, c + 1).end - 1, GapText(before) + Text(s) + GapText(after), [COMMA], ItemsText(rest));
      items := [x] + rest;
    }
  }

  lemma AtIs(t: Bytes, i: nat)
    requires i < |t|
    ensures At(t, i) == t[i]
  {
  }

  // ------------------------------------------------------------------------- objects

  lemma RecordConsists(t: Bytes, i: nat, z: nat, open: Gap, fields: seq<Field>)
    requires i < |t| && t[i] == OPEN_BRACE && Spaces(open) && AcceptedFields(fields)
    requires Spans(t, i + 1, z, GapText(open) + FieldsText(fields)) && z < |t| && t[z] == CLOSE_BRACE
    ensures Consists(t, i, Record(open, fields), true, Parsed(Object(Members(fields)), z + 1))
  {
    hide Spans, GapText, FieldsText, Spaces, AcceptedFields, Members;
    OneByte(t, i);
    OneByte(t, z);
    Joined3(t, i, i + 1, z, z + 1, [OPEN_BRACE], GapText(open) + FieldsText(fields), [CLOSE_BRACE]);
    assert [OPEN_BRACE] + (GapText(open) + FieldsText(fields)) + [CLOSE_BRACE]
      == [OPEN_BRACE] + GapText(open) + FieldsText(fields) + [CLOSE_BRACE];
  }

  lemma {:induction false} RecordSound(t: Bytes, i: nat) returns (s: Syntax)
    requires NulFree(t) && i < |t| && t[i] == OPEN_BRACE && ParseValue(t, i).Parsed?
    ensures Consists(t, i, s, true, ParseValue(t, i))
    decreases |t| - i, 0
  {
    hide *;
    ObjectInside(t, i);
    var open := SkippedGap(t, i + 1);
    var j := Skip(t, i + 1);
    var fields, z := [], j;
    if At(t, j) == CLOSE_BRACE {
      NoItems();
      NothingAccepted();
      SpansNothing(t, j);
    } else {
      fields := FieldsSound(t, j);
      z := ParseMembers(t, j).end - 1;
    }
    AtInside(t, z);
    Joined(t, i + 1, j, z, GapText(open), FieldsText(fields));
    RecordConsists(t, i, z, open, fields);
    s := Record(open, fields);
  }

  lemma MembersInside(t: Bytes, i: nat)
    requires NulFree(t) && i <= |t| && ParseMembers(t, i).Parsed?
    ensures var m := ParseMember(t, i);
      && m.Parsed? && m.end <= Skip(t, m.end) < |t|
      && var j := Skip(t, m.end);
      && (t[j] == CLOSE_BRACE ==> ParseMembers(t, i) == Parsed([m.value], j + 1))
      && (t[j] != CLOSE_BRACE ==>
          && t[j] == COMMA && ParseMembers(t, j + 1).Parsed?
          && ParseMembers(t, i) == Parsed([m.value] + ParseMembers(t, j + 1).value, ParseMembers(t, j + 1).end))
  {
    hide ParseMember, Skip;
  }

  /** The parts of a member and where its colon is. */
  lemma MemberInside(t: Bytes, i: nat)
    requires NulFree(t) && i <= |t| && ParseMember(t, i).Parsed?
    ensures var k := Skip(t, i);
      && k < |t| && t[k] == QUOTE && ParseString(t, k).Parsed?
      && var c := Skip(t, ParseString(t, k).end);
      && ParseString(t, k).end <= c < |t| && t[c] == COLON
      && var v := ParseValue(t, Skip(t, c + 1));
      && v.Parsed? && ParseMember(t, i) == Parsed(Member(ParseString(t, k).value, v.value), v.end)
  {
    hide ParseValue, Skip, Decode;
  }

  lemma NameSound(t: Bytes, i: nat) returns (before: Gap, us: seq<Unit>, afterName: Gap)
    requires NulFree(t) && i <= |t| && Skip(t, i) < |t| && t[Skip(t, i)] == QUOTE && ParseString(t, Skip(t, i)).Parsed?
    requires Skip(t, ParseString(t, Skip(t, i)).end) < |t|
    ensures Spaces(before) && AllAllowed(us) && Spaces(afterName) && ParseString(t, Skip(t, i)).value == MeaningAll(us)
    ensures Spans(t, i, Skip(t, ParseString(t, Skip(t, i)).end), GapText(before) + LiteralText(us) + GapText(afterName))
  {
    hide *;
    before := SkippedGap(t, i);
    var k := Skip(t, i);
    us := ClosedString(t, k);
    afterName := SkippedGap(t, ParseString(t, k).end);
    Joined3(t, i, k, ParseString(t, k).end, Skip(t, ParseString(t, k).end), GapText(before), LiteralText(us), GapText(afterName));
  }

  lemma ClosedString(t: Bytes, k: nat) returns (us: seq<Unit>)
    requires NulFree(t) && k < |t| && t[k] == QUOTE && ParseString(t, k).Parsed? && Skip(t, ParseString(t, k).end) < |t|
    ensures AllAllowed(us) && ParseString(t, k).value == MeaningAll(us) && Spans(t, k, ParseString(t, k).end, LiteralText(us))
  {
    hide Decode, Spans, WrittenAll, MeaningAll, AllAllowed;
    var q;
    us, q := LiteralSound(t, k + 1);
    assert q < |t|;
    OneByte(t, k);
    OneByte(t, q);
    Joined3(t, k, k + 1, q, q + 1, [QUOTE], WrittenAll(us), [QUOTE]);
  }

  lemma FieldIs(x: Field)
    requires Spaces(x.before) && AllAllowed(x.name) && Spaces(x.afterName)
    requires Spaces(x.beforeValue) && Accepted(x.value) && Spaces(x.after)
    ensures AcceptedField(x) && FieldMember(x) == Member(MeaningAll(x.name), Value(x.value))
    ensures NameText(x) == GapText(x.before) + LiteralText(x.name) + GapText(x.afterName)
    ensures ValueText(x) == GapText(x.beforeValue) + Text(x.value) + GapText(x.after)
    ensures FieldText(x) == NameText(x) + [COLON] + ValueText(x)
  {
  }

  /** One member and the spaces after it, up to c. */
  lemma {:induction false} FieldSound(t: Bytes, i: nat, c: nat) returns (x: Field)
    requires NulFree(t) && i <= |t| && ParseMember(t, i).Parsed?
    requires ParseMember(t, i).end <= |t| && c == Skip(t, ParseMember(t, i).end) < |t|
    ensures AcceptedField(x) && ParseMember(t, i).value == FieldMember(x) && Spans(t, i, c, FieldText(x))
    decreases |t| - i, 2
  {
    hide *;
    MemberInside(t, i);
    var k := Skip(t, i);
    var before, us, afterName := NameSound(t, i);
    var d := Skip(t, ParseString(t, k).end);
    var beforeValue := SkippedGap(t, d + 1);
    var r := Skip(t, d + 1);
    var s, closed := ValueSound(t, r);
    var v := ParseValue(t, r);
    var after := SkippedGap(t, v.end);
    SpacedConsists(t, d + 1, beforeValue, s, closed, v, after, c);
    x := Field(before, us, afterName, beforeValue, s, after);
    FieldIs(x);
    OneByte(t, d);
    Joined3(t, i, d, d + 1, c, NameText(x), [COLON], ValueText(x));
  }

  lemma OneFieldSound(x: Field)
    requires AcceptedField(x)
    ensures AcceptedFields([x]) && Members([x]) == [FieldMember(x)] && FieldsText([x]) == FieldText(x)
  {
    hide Accepted, Spaces, Value, Text, GapText, AllAllowed, MeaningAll;
  }

  lemma MoreFieldsSound(x: Field, fields: seq<Field>)
    requires AcceptedField(x) && AcceptedFields(fields) && fields != []
    ensures AcceptedFields([x] + fields) && Members([x] + fields) == [FieldMember(x)] + Members(fields)
    ensures FieldsText([x] + fields) == FieldText(x) + [COMMA] + FieldsText(fields)
  {
    assert ([x] + fields)[1..] == fields;
    hide Accepted, Spaces, Value, Text, GapText, AllAllowed, MeaningAll;
  }

  lemma {:induction false} FieldsSound(t: Bytes, i: nat) returns (fields: seq<Field>)
    requires NulFree(t) && i <= |t| && ParseMembers(t, i).Parsed?
    ensures fields != [] && AcceptedFields(fields) && ParseMembers(t, i).value == Members(fields)
    ensures 0 < ParseMembers(t, i).end <= |t| && At(t, ParseMembers(t, i).end - 1) == CLOSE_BRACE
    ensures Spans(t, i, ParseMembers(t, i).end - 1, FieldsText(fields))
    decreases |t| - i, 3
  {
    hide *;
    MembersInside(t, i);
    var m := ParseMember(t, i);
    var c := Skip(t, m.end);
    var x := FieldSound(t, i, c);
    AtIs(t, c);
    if t[c] == CLOSE_BRACE {
      OneFieldSound(x);
      fields := [x];
    } else {
      var rest := FieldsSound(t, c + 1);
      MoreFieldsSound(x, rest);
      OneByte(t, c);
      Joined3(t, i, c, c + 1, ParseMembers(t, c + 1).end - 1, FieldText(x), [COMMA], FieldsText(rest));
      fields := [x] + rest;
    }
  }

  // ------------------------------------------------------------------------- whole texts

  lemma WithOptsInside(t: Bytes, b: bool)
    requires NulFree(t) && ParseWithOpts(t, b).Parsed?
    ensures var v := ParseValue(t, Skip(t, 0));
      && v.Parsed? && v.end <= |t| && ParseWithOpts(t, b).value == v.value
      && if b then Skip(t, v.end) == |t| && ParseWithOpts(t, b).end == |t| else ParseWithOpts(t, b).end == v.end
  {
    hide ParseValue, Skip;
  }

  lemma SpansWhole(t: Bytes, j: nat, s: Bytes)
    requires Spans(t, 0, j, s)
    ensures j <= |t| && t[..j] == s
  {
  }

  /** The text up to where the parser stops is a text of the grammar, and its value what it means. */
  lemma DocumentSound(t: Bytes, requireNullTerminated: bool) returns (d: Document)
    requires NulFree(t) && ParseWithOpts(t, requireNullTerminated).Parsed?
    ensures var r := ParseWithOpts(t, requireNullTerminated);
      && AcceptedDocument(d) && r.value == DocumentValue(d) && r.end <= |t| && t[..r.end] == DocumentText(d)
      && (requireNullTerminated ==> r.end == |t|)
  {
    hide *;
    WithOptsInside(t, requireNullTerminated);
    var i := Skip(t, 0);
    var before := SkippedGap(t, 0);
    var v := ParseValue(t, i);
    var s, closed := ValueSound(t, i);
    var after: Gap := [];
    if requireNullTerminated { after := SkippedGap(t, v.end); } else { NoGap(); SpansNothing(t, v.end); }
    d := DocumentOf(t, i, before, s, closed, v, after, ParseWithOpts(t, requireNullTerminated).end);
    SpansWhole(t, ParseWithOpts(t, requireNullTerminated).end, DocumentText(d));
  }

  lemma NoGap()
    ensures GapText([]) == [] && Spaces([])
  {
  }

  lemma DocumentOf(t: Bytes, i: nat, before: Gap, s: Syntax, closed: bool, v: Parsed<Json>, after: Gap, end: nat)
    returns (d: Document)
    requires Spaces(before) && Spans(t, 0, i, GapText(before)) && Consists(t, i, s, closed, v)
    requires Spaces(after) && Spans(t, v.end, end, GapText(after)) && v.end <= end <= |t|
    ensures AcceptedDocument(d) && v.value == DocumentValue(d) && Spans(t, 0, end, DocumentText(d))
  {
    hide Spans, Accepted, Value, Text, GapText, Spaces, AllAllowed, MeaningAll;
    if closed {
      d := Whole(before, s, after);
      Joined3(t, 0, i, v.end, end, GapText(before), Text(s), GapText(after));
    } else {
      d := Unclosed(before, s.units);
      LiteralIs(s);
      Joined(t, 0, i, |t|, GapText(before), [QUOTE] + WrittenAll(s.units));
      assert GapText(before) + ([QUOTE] + WrittenAll(s.units)) == GapText(before) + [QUOTE] + WrittenAll(s.units);
    }
  }

  lemma LiteralIs(s: Syntax)
    requires Accepted(s) && s.Literal?
    ensures AllAllowed(s.units) && Value(s) == String(MeaningAll(s.units))
  {
  }

  /** The grammar gives text t the value v. */
  ghost predicate Means(t: Bytes, v: Json) {
    exists d: Document :: AcceptedDocument(d) && DocumentText(d) == t && DocumentValue(d) == v
  }

  /** When it must come to the end of the text, the parser takes exactly the texts of the grammar and gives what they mean. */
  lemma ParsesExactly(t: Bytes, v: Json)
    requires NulFree(t)
    ensures ParseWithOpts(t, true) == Parsed(v, |t|) <==> Means(t, v)
    ensures ParseWithOpts(t, true).Parsed? ==> ParseWithOpts(t, true).end == |t|
  {
    hide ParseWithOpts, AcceptedDocument, DocumentText, DocumentValue;
    if ParseWithOpts(t, true).Parsed? {
      var d := DocumentSound(t, true);
      assert t[..|t|] == t;
    }
    if Means(t, v) {
      var d :| AcceptedDocument(d) && DocumentText(d) == t && DocumentValue(d) == v;
      DocumentAccepted(d, true);
    }
  }

  /** The grammar is unambiguous in what it says of a text. */
  lemma Unambiguous(a: Document, b: Document)
    requires AcceptedDocument(a) && AcceptedDocument(b) && DocumentText(a) == DocumentText(b)
    ensures DocumentValue(a) == DocumentValue(b)
  {
    hide ParseWithOpts, AcceptedDocument, DocumentText, DocumentValue;
    DocumentAccepted(a, true);
    DocumentAccepted(b, true);
  }
}
