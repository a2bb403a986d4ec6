/** The parser's loops, proved to compute the functions of JsonParse. Nodes are values: a list of children is a
    sequence, linking a new node at its end appends to it. */
module JsonReader {
  import opened JsonText
  import opened JsonParse
  import opened JsonString

  /** skip */
  method SkipSpace(t: Bytes, start: nat) returns (i: nat)
    requires NulFree(t) && start <= |t|
    ensures i == Skip(t, start)
  {
    i := start;
    while i < |t| && t[i] <= 32
      invariant i <= |t| && Skip(t, i) == Skip(t, start)
      decreases |t| - i
    {
      i := i + 1;
    }
  }

  // ------------------------------------------------------------------------- numbers

  lemma AccumulateSplit(n: real, t: Bytes, i: nat, j: nat)
    requires i < j <= |t|
    ensures Accumulate(n, t[i..j]) == Accumulate(n * 10.0 + (t[i] as int - 48) as real, t[i + 1..j])
  {
    assert t[i..j][1..] == t[i + 1..j];
  }

  lemma AccumulateIntSplit(n: int, t: Bytes, i: nat, j: nat)
    requires i < j <= |t|
    ensures AccumulateInt(n, t[i..j]) == AccumulateInt(n * 10 + (t[i] as int - 48), t[i + 1..j])
  {
    assert t[i..j][1..] == t[i + 1..j];
  }

  /** A run of digits appended to n. */
  method ReadDigits(t: Bytes, start: nat, n0: real) returns (n: real, i: nat)
    requires start <= |t|
    ensures i == DigitsEnd(t, start) && n == Accumulate(n0, t[start..i])
  {
    n, i := n0, start;
    ghost var end := DigitsEnd(t, start);
    while IsDigit(At(t, i))
      invariant start <= i <= end && DigitsEnd(t, i) == end
      invariant Accumulate(n, t[i..end]) == Accumulate(n0, t[start..end])
      decreases |t| - i
    {
      AccumulateSplit(n, t, i, end);
      n := n * 10.0 + (t[i] as int - 48) as real;
      i := i + 1;
    }
    assert t[i..end] == [];
  }

  /** The digits of an exponent. */
  method ReadExponent(t: Bytes, start: nat) returns (n: int, i: nat)
    requires start <= |t|
    ensures i == DigitsEnd(t, start) && n == AccumulateInt(0, t[start..i])
  {
    n, i := 0, start;
    ghost var end := DigitsEnd(t, start);
    while IsDigit(At(t, i))
      invariant start <= i <= end && DigitsEnd(t, i) == end
      invariant AccumulateInt(n, t[i..end]) == AccumulateInt(0, t[start..end])
      decreases |t| - i
    {
      AccumulateIntSplit(n, t, i, end);
      n := n * 10 + (t[i] as int - 48);
      i := i + 1;
    }
    assert t[i..end] == [];
  }

  lemma FromParts(t: Bytes, i: nat, n0: real, j0: nat, n1: real, scale: nat, j1: nat, e: int, j2: nat)
    requires i < |t| && (t[i] == MINUS || IsDigit(t[i])) && j0 <= |t| && j1 <= |t|
    requires IntegerPart(t, if t[i] == MINUS then i + 1 else i) == (n0, j0)
    requires FractionPart(t, j0, n0) == (n1, scale, j1) && ExponentPart(t, j1) == (e, j2)
    ensures ParseNumber(t, i) == Parsed(Number(Scaled(t[i] == MINUS, n1, e - scale)), j2)
  {
    hide IntegerPart, FractionPart, ExponentPart, Scaled;
  }

  method ReadInteger(t: Bytes, start: nat) returns (n: real, i: nat)
    requires start <= |t|
    ensures (n, i) == IntegerPart(t, start)
  {
    n, i := 0.0, start;
    if At(t, i) == ZERO { i := i + 1; }
    if IsDigit(At(t, i)) && At(t, i) != ZERO { n, i := ReadDigits(t, i, n); }
  }

  /** scale counts down, from zero, once a digit. */
  method ReadFraction(t: Bytes, start: nat, n0: real) returns (n: real, scale: int, i: nat)
    requires start <= |t|
    ensures scale <= 0 && (n, -scale, i) == FractionPart(t, start, n0)
  {
    n, scale, i := n0, 0, start;
    if At(t, i) == DOT && IsDigit(At(t, i + 1)) {
      n, i := ReadDigits(t, start + 1, n);
      scale := scale - (i - (start + 1));
    }
  }

  method ReadExponentPart(t: Bytes, start: nat) returns (subscale: int, signsubscale: int, i: nat)
    requires start <= |t|
    ensures (subscale * signsubscale, i) == ExponentPart(t, start)
  {
    subscale, signsubscale, i := 0, 1, start;
    if At(t, i) == LOWER_E || At(t, i) == UPPER_E {
      i := i + 1;
      if At(t, i) == PLUS { i := i + 1; } else if At(t, i) == MINUS { signsubscale, i := -1, i + 1; }
      subscale, i := ReadExponent(t, i);
      assert subscale * signsubscale == (if signsubscale == 1 then subscale else -subscale);
    }
  }

  /** parse_number */
  method ReadNumber(t: Bytes, start: nat) returns (r: Parsed<Json>)
    requires start < |t| && (t[start] == MINUS || IsDigit(t[start]))
    ensures r == ParseNumber(t, start)
  {
    hide IntegerPart, FractionPart, ExponentPart, Pow10;
    var sign, i := 1.0, start;
    if t[i] == MINUS { sign, i := -1.0, i + 1; }
    var n0, i0 := ReadInteger(t, i);
    var n, scale, i1 := ReadFraction(t, i0, n0);
    var subscale, signsubscale, i2 := ReadExponentPart(t, i1);
    FromParts(t, start, n0, i0, n, -scale, i1, subscale * signsubscale, i2);
    hide ParseNumber;
    var power := Pow10(scale + subscale * signsubscale);
    assert power == Pow10(subscale * signsubscale - (-scale));
    assert Scaled(t[start] == MINUS, n, subscale * signsubscale - (-scale)) == sign * n * power;
    r := Parsed(Number(sign * n * power), i2);
  }

  // ------------------------------------------------------------------------- values

  /** parse_value */
  method ReadValue(t: Bytes, i: nat) returns (r: Parsed<Json>)
    requires NulFree(t) && i <= |t|
    ensures r == ParseValue(t, i)
    decreases |t| - i, 1
  {
    if StartsWith(t, i, NULL_TEXT) { return Parsed(Null, i + 4); }
    if StartsWith(t, i, FALSE_TEXT) { return Parsed(False, i + 5); }
    if StartsWith(t, i, TRUE_TEXT) { return Parsed(True, i + 4); }
    hide StartsWith, ParseArray, ParseObject, ParseNumber, ParseString;
    if At(t, i) == QUOTE {
      var s, _ := ReadString(t, i);
      r := Rewrap(s, x => String(x));
    } else if At(t, i) == MINUS || IsDigit(At(t, i)) {
      r := ReadNumber(t, i);
    } else if At(t, i) == OPEN_BRACKET {
      var items := ReadArray(t, i);
      r := Rewrap(items, x => Array(x));
    } else if At(t, i) == OPEN_BRACE {
      var members := ReadObject(t, i);
      r := Rewrap(members, x => Object(x));
    } else {
      r := Failed;
    }
  }

  /** The outcome once the values xs are read, from the position after them. */
  function After<T>(xs: seq<T>, rest: Parsed<seq<T>>): Parsed<seq<T>> {
    Rewrap(rest, ys => xs + ys)
  }

  lemma AfterPrepend<T>(xs: seq<T>, x: T, rest: Parsed<seq<T>>)
    ensures After(xs, Prepend(x, rest)) == After(xs + [x], rest)
  {
    if rest.Parsed? {
      assert xs + ([x] + rest.value) == xs + [x] + rest.value;
    }
  }

  /** From position j, just after an entry and white space, what ParseItems makes of the rest. */
  function MoreItems(t: Bytes, j: nat): Parsed<seq<Json>>
    requires NulFree(t) && j <= |t|
  {
    if At(t, j) == CLOSE_BRACKET then Parsed([], j + 1) else if At(t, j) != COMMA then Failed else ParseItems(t, j + 1)
  }

  function MoreMembers(t: Bytes, j: nat): Parsed<seq<Member>>
    requires NulFree(t) && j <= |t|
  {
    if At(t, j) == CLOSE_BRACE then Parsed([], j + 1) else if At(t, j) != COMMA then Failed else ParseMembers(t, j + 1)
  }

  lemma ItemsStep(t: Bytes, i: nat, xs: seq<Json>)
    requires NulFree(t) && i <= |t|
    ensures var v := ParseValue(t, Skip(t, i));
      && (v.Parsed? ==> After(xs, ParseItems(t, i)) == After(xs + [v.value], MoreItems(t, Skip(t, v.end))))
      && (!v.Parsed? ==> After(xs, ParseItems(t, i)) == Refusal(v))
  {
    hide ParseValue, Skip;
    var v := ParseValue(t, Skip(t, i));
    if v.Parsed? {
      assert [v.value] + [] == [v.value];
      AfterPrepend(xs, v.value, MoreItems(t, Skip(t, v.end)));
    }
  }

  lemma MembersStep(t: Bytes, i: nat, xs: seq<Member>)
    requires NulFree(t) && i <= |t|
    ensures var m := ParseMember(t, i);
      && (m.Parsed? ==> After(xs, ParseMembers(t, i)) == After(xs + [m.value], MoreMembers(t, Skip(t, m.end))))
      && (!m.Parsed? ==> After(xs, ParseMembers(t, i)) == Refusal(m))
  {
    hide ParseMember, Skip;
    var m := ParseMember(t, i);
    if m.Parsed? {
      assert [m.value] + [] == [m.value];
      AfterPrepend(xs, m.value, MoreMembers(t, Skip(t, m.end)));
    }
  }

  lemma AfterNothing<T>(r: Parsed<seq<T>>)
    ensures After([], r) == r
  {
    if r.Parsed? {
      assert [] + r.value == r.value;
    }
  }

  /** skip, then parse_value */
  method ReadItem(t: Bytes, start: nat) returns (r: Parsed<Json>)
    requires NulFree(t) && start <= |t|
    ensures r == ParseValue(t, Skip(t, start))
    decreases |t| - start, 2
  {
    var i := SkipSpace(t, start);
    r := ReadValue(t, i);
  }

  /** parse_array */
  method ReadArray(t: Bytes, start: nat) returns (r: Parsed<seq<Json>>)
    requires NulFree(t) && start < |t| && t[start] == OPEN_BRACKET
    ensures r == ParseArray(t, start)
    decreases |t| - start, 0
  {
    var i := SkipSpace(t, start + 1);
    if At(t, i) == CLOSE_BRACKET { return Parsed([], i + 1); }
    r := ReadItems(t, i);
  }

  /** The entries of an array from position start on. */
  method ReadItems(t: Bytes, start: nat) returns (r: Parsed<seq<Json>>)
    requires NulFree(t) && start <= |t|
    ensures r == ParseItems(t, start)
    decreases |t| - start, 3
  {
    hide Skip, ParseValue, ParseItems, MoreItems, After, Refusal;
    AfterNothing(ParseItems(t, start));
    ItemsStep(t, start, []);
    var v := ReadItem(t, start);
    if !v.Parsed? { return Refusal(v); }
    var i := SkipSpace(t, v.end);
    assert [] + [v.value] == [v.value];
    r := ReadMoreItems(t, i, [v.value]);
  }

  /** The loop of parse_array, after its first entry. */
  method ReadMoreItems(t: Bytes, start: nat, items0: seq<Json>) returns (r: Parsed<seq<Json>>)
    requires NulFree(t) && start <= |t|
    ensures r == After(items0, MoreItems(t, start))
    decreases |t| - start, 3
  {
    hide Skip, ParseValue, ParseItems, MoreItems, After, Refusal;
    var i, items := start, items0;
    while At(t, i) == COMMA
      invariant start <= i <= |t| && After(items0, MoreItems(t, start)) == After(items, MoreItems(t, i))
      decreases |t| - i
    {
      MoreItemsComma(t, i);
      ItemsStep(t, i + 1, items);
      var v := ReadItem(t, i + 1);
      if !v.Parsed? { return Refusal(v); }
      i := SkipSpace(t, v.end);
      items := items + [v.value];
    }
    MoreItemsEnd(t, i, items);
    if At(t, i) == CLOSE_BRACKET { return Parsed(items, i + 1); }
    r := Failed;
  }

  lemma MoreItemsComma(t: Bytes, j: nat)
    requires NulFree(t) && j <= |t| && At(t, j) == COMMA
    ensures j < |t| && MoreItems(t, j) == ParseItems(t, j + 1)
  {
  }

  lemma MoreItemsEnd(t: Bytes, j: nat, xs: seq<Json>)
    requires NulFree(t) && j <= |t| && At(t, j) != COMMA
    ensures After(xs, MoreItems(t, j)) == if At(t, j) == CLOSE_BRACKET then Parsed(xs, j + 1) else Failed
  {
    assert xs + [] == xs;
  }

  lemma MoreMembersComma(t: Bytes, j: nat)
    requires NulFree(t) && j <= |t| && At(t, j) == COMMA
    ensures j < |t| && MoreMembers(t, j) == ParseMembers(t, j + 1)
  {
  }

  lemma MoreMembersEnd(t: Bytes, j: nat, xs: seq<Member>)
    requires NulFree(t) && j <= |t| && At(t, j) != COMMA
    ensures After(xs, MoreMembers(t, j)) == if At(t, j) == CLOSE_BRACE then Parsed(xs, j + 1) else Failed
  {
    assert xs + [] == xs;
  }

  /** One member of an object: its name, the colon and its value. */
  method ReadMember(t: Bytes, start: nat) returns (r: Parsed<Member>)
    requires NulFree(t) && start <= |t|
    ensures r == ParseMember(t, start)
    decreases |t| - start, 2
  {
    hide Skip, ParseValue, ParseString;
    var i := SkipSpace(t, start);
    var name, _ := ReadString(t, i);
    if !name.Parsed? { return Refusal(name); }
    i := SkipSpace(t, name.end);
    if At(t, i) != COLON { return Failed; }
    i := SkipSpace(t, i + 1);
    var v := ReadValue(t, i);
    r := Rewrap(v, x => Member(name.value, x));
  }

  /** parse_object */
  method ReadObject(t: Bytes, start: nat) returns (r: Parsed<seq<Member>>)
    requires NulFree(t) && start < |t| && t[start] == OPEN_BRACE
    ensures r == ParseObject(t, start)
    decreases |t| - start, 0
  {
    var i := SkipSpace(t, start + 1);
    if At(t, i) == CLOSE_BRACE { return Parsed([], i + 1); }
    r := ReadMembers(t, i);
  }

  /** The members of an object from position start on. */
  method ReadMembers(t: Bytes, start: nat) returns (r: Parsed<seq<Member>>)
    requires NulFree(t) && start <= |t|
    ensures r == ParseMembers(t, start)
    decreases |t| - start, 3
  {
    hide Skip, ParseMember, ParseMembers, MoreMembers, After, Refusal;
    AfterNothing(ParseMembers(t, start));
    MembersStep(t, start, []);
    var m := ReadMember(t, start);
    if !m.Parsed? { return Refusal(m); }
    var i := SkipSpace(t, m.end);
    assert [] + [m.value] == [m.value];
    r := ReadMoreMembers(t, i, [m.value]);
  }

  /** The loop of parse_object, after its first member. */
  method ReadMoreMembers(t: Bytes, start: nat, members0: seq<Member>) returns (r: Parsed<seq<Member>>)
    requires NulFree(t) && start <= |t|
    ensures r == After(members0, MoreMembers(t, start))
    decreases |t| - start, 3
  {
    hide Skip, ParseMember, ParseMembers, MoreMembers, After, Refusal;
    var i, members := start, members0;
    while At(t, i) == COMMA
      invariant start <= i <= |t| && After(members0, MoreMembers(t, start)) == After(members, MoreMembers(t, i))
      decreases |t| - i
    {
      MoreMembersComma(t, i);
      MembersStep(t, i + 1, members);
      var m := ReadMember(t, i + 1);
      if !m.Parsed? { return Refusal(m); }
      i := SkipSpace(t, m.end);
      members := members + [m.value];
    }
    MoreMembersEnd(t, i, members);
    if At(t, i) == CLOSE_BRACE { return Parsed(members, i + 1); }
    r := Failed;
  }

  /** cJSON_ParseWithOpts */
  method ReadWithOpts(t: Bytes, requireNullTerminated: bool) returns (r: Parsed<Json>)
    requires NulFree(t)
    ensures r == ParseWithOpts(t, requireNullTerminated)
  {
    var i := SkipSpace(t, 0);
    r := ReadValue(t, i);
    if r.Parsed? && requireNullTerminated {
      var end := SkipSpace(t, r.end);
      if At(t, end) != 0 { return Failed; }
      r := Parsed(r.value, end);
    }
  }
}
