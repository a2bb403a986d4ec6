/** The texts that the parser takes, as trees of their tokens with all that may stand between them, and what they mean. */
module JsonSyntax {
  import opened JsonText
  import opened JsonParse
  import opened JsonRoundTrip
  import opened JsonString

  // ------------------------------------------------------------------------- between tokens

  /** A byte of white space, or a comment of one line or of any length. The parser takes no comments; cJSON_Minify drops them. */
  datatype Piece = White(byte: Byte) | Line(body: Bytes) | Block(body: Bytes)

  type Gap = seq<Piece>

  function PieceText(x: Piece): Bytes {
    match x
    case White(c) => [c]
    case Line(body) => [SLASH, SLASH] + body + [NEWLINE]
    case Block(body) => [SLASH, STAR] + body + [STAR, SLASH]
  }

  function GapText(g: Gap): Bytes {
    if g == [] then [] else PieceText(g[0]) + GapText(g[1..])
  }

  /** Only white space: bytes 1 to 32. */
  predicate Spaces(g: Gap) {
    forall k :: 0 <= k < |g| ==> g[k].White? && 1 <= g[k].byte <= 32
  }

  // ------------------------------------------------------------------------- numerals

  datatype Exponent = NoExponent | Exponent(letter: Byte, sign: Bytes, digits: Bytes)

  /** A numeral; without a fraction its digits are the empty string. */
  datatype Numeral = Numeral(negative: bool, whole: Bytes, fraction: Bytes, exponent: Exponent)

  predicate AllDigits(s: Bytes) {
    forall k :: 0 <= k < |s| ==> IsDigit(s[k])
  }

  predicate ExponentAllowed(e: Exponent) {
    e.Exponent? ==> (e.letter == LOWER_E || e.letter == UPPER_E) && e.sign in [[], [PLUS], [MINUS]] && AllDigits(e.digits)
  }

  /** What parse_number takes: at most one leading zero before other digits, and none at all after a minus sign. */
  predicate NumeralAllowed(n: Numeral) {
    && AllDigits(n.whole) && AllDigits(n.fraction) && ExponentAllowed(n.exponent)
    && (n.negative || n.whole != [])
    && (|n.whole| > 1 && n.whole[0] == ZERO ==> n.whole[1] != ZERO)
  }

  /** What section 6 of RFC 8259 allows of it: at least one digit before the point and after the e, and no zero in front. */
  predicate NumeralStrict(n: Numeral) {
    && NumeralAllowed(n) && n.whole != [] && (n.whole[0] == ZERO ==> |n.whole| == 1)
    && (n.exponent.Exponent? ==> n.exponent.digits != [])
  }

  function ExponentText(e: Exponent): Bytes {
    if e.NoExponent? then [] else [e.letter] + e.sign + e.digits
  }

  function FractionText(f: Bytes): Bytes {
    if f == [] then [] else [DOT] + f
  }

  function NumeralText(n: Numeral): Bytes {
    If(n.negative, [MINUS]) + n.whole + FractionText(n.fraction) + ExponentText(n.exponent)
  }

  /** The value of a decimal, its last digit counting one. */
  function DigitsValue(s: Bytes): int
    decreases |s|
  {
    if s == [] then 0 else DigitsValue(s[..|s| - 1]) * 10 + (s[|s| - 1] as int - 48)
  }

  function ExponentValue(e: Exponent): int {
    if e.NoExponent? then 0 else if e.sign == [MINUS] then -DigitsValue(e.digits) else DigitsValue(e.digits)
  }

  /** What a numeral says: the whole part, and the fraction scaled down by its length, times the power of ten. */
  function NumeralValue(n: Numeral): real {
    (if n.negative then -1.0 else 1.0)
    * (DigitsValue(n.whole) as real + DigitsValue(n.fraction) as real * Pow10(-|n.fraction|))
    * Pow10(ExponentValue(n.exponent))
  }

  // ------------------------------------------------------------------------- values

  datatype Syntax =
    | Word(word: Json)
    | Numeric(numeral: Numeral)
    | Literal(units: seq<Unit>)
    | List(open: Gap, items: seq<Item>)
    | Record(open: Gap, fields: seq<Field>)

  /** An entry of an array, and a member of an object, with what stands around their tokens. */
  datatype Item = Item(before: Gap, value: Syntax, after: Gap)

  datatype Field = Field(before: Gap, name: seq<Unit>, afterName: Gap, beforeValue: Gap, value: Syntax, after: Gap)

  function LiteralText(us: seq<Unit>): Bytes {
    [QUOTE] + WrittenAll(us) + [QUOTE]
  }

  function WordText(v: Json): Bytes {
    if v.Null? then NULL_TEXT else if v.False? then FALSE_TEXT else TRUE_TEXT
  }

  function Text(s: Syntax): Bytes
    decreases s, 1
  {
    match s
    case Word(v) => WordText(v)
    case Numeric(n) => NumeralText(n)
    case Literal(us) => LiteralText(us)
    case List(open, items) => [OPEN_BRACKET] + GapText(open) + ItemsText(items) + [CLOSE_BRACKET]
    case Record(open, fields) => [OPEN_BRACE] + GapText(open) + FieldsText(fields) + [CLOSE_BRACE]
  }

  function ItemsText(items: seq<Item>): Bytes
    decreases items, 0
  {
    if items == [] then []
    else if |items| == 1 then ItemText(items[0])
    else ItemText(items[0]) + [COMMA] + ItemsText(items[1..])
  }

  function ItemText(x: Item): Bytes
    decreases x, 2
  {
    GapText(x.before) + Text(x.value) + GapText(x.after)
  }

  function FieldsText(fields: seq<Field>): Bytes
    decreases fields, 0
  {
    if fields == [] then []
    else if |fields| == 1 then FieldText(fields[0])
    else FieldText(fields[0]) + [COMMA] + FieldsText(fields[1..])
  }

  function FieldText(x: Field): Bytes
    decreases x, 2
  {
    NameText(x) + [COLON] + ValueText(x)
  }

  function NameText(x: Field): Bytes {
    GapText(x.before) + LiteralText(x.name) + GapText(x.afterName)
  }

  function ValueText(x: Field): Bytes
    decreases x, 1
  {
    GapText(x.beforeValue) + Text(x.value) + GapText(x.after)
  }

  /** The tokens are such as the parser takes, and there are only spaces between them. */
  predicate Accepted(s: Syntax)
    decreases s, 1
  {
    match s
    case Word(v) => v.Null? || v.False? || v.True?
    case Numeric(n) => NumeralAllowed(n)
    case Literal(us) => AllAllowed(us)
    case List(open, items) => Spaces(open) && AcceptedItems(items)
    case Record(open, fields) => Spaces(open) && AcceptedFields(fields)
  }

  predicate AcceptedItems(items: seq<Item>)
    decreases items, 0
  {
    items == [] || (AcceptedItem(items[0]) && AcceptedItems(items[1..]))
  }

  predicate AcceptedItem(x: Item)
    decreases x, 2
  {
    Spaces(x.before) && Accepted(x.value) && Spaces(x.after)
  }

  predicate AcceptedFields(fields: seq<Field>)
    decreases fields, 0
  {
    fields == [] || (AcceptedField(fields[0]) && AcceptedFields(fields[1..]))
  }

  predicate AcceptedField(x: Field)
    decreases x, 2
  {
    && Spaces(x.before) && AllAllowed(x.name) && Spaces(x.afterName)
    && Spaces(x.beforeValue) && Accepted(x.value) && Spaces(x.after)
  }

  /** A text of RFC 8259, \u0000 and unpaired surrogates apart: spaces, numerals and characters as that has them, and names
      and values in the same places. */
  predicate Standard(s: Syntax)
    decreases s, 1
  {
    match s
    case Word(v) => v.Null? || v.False? || v.True?
    case Numeric(n) => NumeralStrict(n)
    case Literal(us) => AllWellFormed(us)
    case List(open, items) => StandardSpaces(open) && StandardItems(items)
    case Record(open, fields) => StandardSpaces(open) && StandardFields(fields)
  }

  predicate StandardSpaces(g: Gap) {
    forall k :: 0 <= k < |g| ==> g[k].White? && g[k].byte in [SPACE, TAB, NEWLINE, RETURN]
  }

  predicate StandardItems(items: seq<Item>)
    decreases items, 0
  {
    items == [] || (StandardItem(items[0]) && StandardItems(items[1..]))
  }

  predicate StandardItem(x: Item)
    decreases x, 2
  {
    StandardSpaces(x.before) && Standard(x.value) && StandardSpaces(x.after)
  }

  predicate StandardFields(fields: seq<Field>)
    decreases fields, 0
  {
    fields == [] || (StandardField(fields[0]) && StandardFields(fields[1..]))
  }

  predicate StandardField(x: Field)
    decreases x, 2
  {
    && StandardSpaces(x.before) && AllWellFormed(x.name) && StandardSpaces(x.afterName)
    && StandardSpaces(x.beforeValue) && Standard(x.value) && StandardSpaces(x.after)
  }

  /** What a text means. */
  function Value(s: Syntax): Json
    requires Accepted(s)
    decreases s, 1
  {
    match s
    case Word(v) => v
    case Numeric(n) => Number(NumeralValue(n))
    case Literal(us) => String(MeaningAll(us))
    case List(_, items) => Array(Values(items))
    case Record(_, fields) => Object(Members(fields))
  }

  function Values(items: seq<Item>): seq<Json>
    requires AcceptedItems(items)
    decreases items, 0
  {
    if items == [] then []
    else
      assert AcceptedItem(items[0]);
      [Value(items[0].value)] + Values(items[1..])
  }

  function Members(fields: seq<Field>): seq<Member>
    requires AcceptedFields(fields)
    decreases fields, 0
  {
    if fields == [] then []
    else
      assert AcceptedField(fields[0]);
      [Member(MeaningAll(fields[0].name), Value(fields[0].value))] + Members(fields[1..])
  }

  /** A whole text; the second kind is a string that the end of the text closes. */
  datatype Document = Whole(before: Gap, value: Syntax, after: Gap) | Unclosed(before: Gap, units: seq<Unit>)

  function DocumentText(d: Document): Bytes {
    match d
    case Whole(before, value, after) => GapText(before) + Text(value) + GapText(after)
    case Unclosed(before, us) => GapText(before) + [QUOTE] + WrittenAll(us)
  }

  predicate AcceptedDocument(d: Document) {
    match d
    case Whole(before, value, after) => Spaces(before) && Accepted(value) && Spaces(after)
    case Unclosed(before, us) => Spaces(before) && AllAllowed(us)
  }

  function DocumentValue(d: Document): Json
    requires AcceptedDocument(d)
  {
    match d
    case Whole(_, value, _) => Value(value)
    case Unclosed(_, us) => String(MeaningAll(us))
  }
}
