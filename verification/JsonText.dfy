/** cJSON trees and the text the printers give for them. */
module JsonText {

  type Byte = b: int | 0 <= b < 256
  type Bytes = seq<Byte>

  const BACKSPACE: Byte := 8
  const TAB: Byte := 9
  const NEWLINE: Byte := 10
  const FORM_FEED: Byte := 12
  const RETURN: Byte := 13
  const SPACE: Byte := 32
  const QUOTE: Byte := 34
  const STAR: Byte := 42
  const PLUS: Byte := 43
  const COMMA: Byte := 44
  const MINUS: Byte := 45
  const DOT: Byte := 46
  const SLASH: Byte := 47
  const ZERO: Byte := 48
  const NINE: Byte := 57
  const COLON: Byte := 58
  const UPPER_E: Byte := 69
  const OPEN_BRACKET: Byte := 91
  const BACKSLASH: Byte := 92
  const CLOSE_BRACKET: Byte := 93
  const LOWER_B: Byte := 98
  const LOWER_E: Byte := 101
  const LOWER_F: Byte := 102
  const LOWER_N: Byte := 110
  const LOWER_R: Byte := 114
  const LOWER_T: Byte := 116
  const LOWER_U: Byte := 117
  const OPEN_BRACE: Byte := 123
  const CLOSE_BRACE: Byte := 125

  /** null, false and true */
  const NULL_TEXT: Bytes := [110, 117, 108, 108]
  const FALSE_TEXT: Bytes := [102, 97, 108, 115, 101]
  const TRUE_TEXT: Bytes := [116, 114, 117, 101]

  const INT_MIN: int := -0x8000_0000
  const INT_MAX: int := 0x7fff_ffff

  /** `cJSON`: the children of an array or object are a sequence, `valuedouble` is an exact real. */
  datatype Json =
    | Null
    | False
    | True
    | Number(value: real)
    | String(text: Bytes)
    | Array(items: seq<Json>)
    | Object(members: seq<Member>)

  datatype Member = Member(name: Bytes, value: Json)

  /** A C string: no NUL before its end. */
  predicate NulFree(s: Bytes) {
    forall i :: 0 <= i < |s| ==> s[i] != 0
  }

  predicate IsInt(d: real) {
    d == d.Floor as real && INT_MIN <= d.Floor <= INT_MAX
  }

  /** Trees the printers are modelled on: integers in int range, strings without NUL. */
  predicate Printable(v: Json)
    decreases v, 1
  {
    match v
    case Number(d) => IsInt(d)
    case String(s) => NulFree(s)
    case Array(items) => PrintableItems(items)
    case Object(members) => PrintableMembers(members)
    case _ => true
  }

  predicate PrintableItems(items: seq<Json>)
    decreases items, 0
  {
    items == [] || (Printable(items[0]) && PrintableItems(items[1..]))
  }

  predicate PrintableMembers(members: seq<Member>)
    decreases members, 0
  {
    members == [] || (NulFree(members[0].name) && Printable(members[0].value) && PrintableMembers(members[1..]))
  }

  // ------------------------------------------------------------------------- numbers

  /** The decimal digits of n, most significant first. */
  function Digits(n: nat): (r: Bytes)
    ensures |r| >= 1 && forall i :: 0 <= i < |r| ==> ZERO <= r[i] <= NINE
  {
    if n < 10 then [48 + n] else Digits(n / 10) + [48 + n % 10]
  }

  /** print_number for an integer: `%d`, with 0 as a special case. */
  function PrintInt(n: int): Bytes {
    if n < 0 then [MINUS] + Digits(-n) else Digits(n)
  }

  // ------------------------------------------------------------------------- strings

  predicate Plain(c: Byte) {
    c > 31 && c != QUOTE && c != BACKSLASH
  }

  /** `%x` of one hexadecimal digit. */
  function HexDigit(d: nat): Byte
    requires d < 16
  {
    if d < 10 then 48 + d else 87 + d
  }

  /** One byte as print_string_ptr writes it. */
  function EscapeByte(c: Byte): (r: Bytes)
    requires c != 0
    ensures r != [] && forall i :: 0 <= i < |r| ==> r[i] > 31
  {
    if Plain(c) then [c]
    else if c == BACKSLASH then [BACKSLASH, BACKSLASH]
    else if c == QUOTE then [BACKSLASH, QUOTE]
    else if c == BACKSPACE then [BACKSLASH, LOWER_B]
    else if c == FORM_FEED then [BACKSLASH, LOWER_F]
    else if c == NEWLINE then [BACKSLASH, LOWER_N]
    else if c == RETURN then [BACKSLASH, LOWER_R]
    else if c == TAB then [BACKSLASH, LOWER_T]
    else [BACKSLASH, LOWER_U, ZERO, ZERO, HexDigit(c / 16), HexDigit(c % 16)]
  }

  function Escape(s: Bytes): (r: Bytes)
    requires NulFree(s)
  {
    if s == [] then [] else EscapeByte(s[0]) + Escape(s[1..])
  }

  /** print_string_ptr */
  function PrintString(s: Bytes): Bytes
    requires NulFree(s)
  {
    [QUOTE] + Escape(s) + [QUOTE]
  }

  // ------------------------------------------------------------------------- trees

  function Tabs(n: int): (r: Bytes)
    ensures |r| == if n > 0 then n else 0
  {
    if n <= 0 then [] else [TAB] + Tabs(n - 1)
  }

  function If(c: bool, s: Bytes): Bytes {
    if c then s else []
  }

  /** print_value */
  function PrintValue(v: Json, depth: nat, fmt: bool): Bytes
    requires Printable(v)
    decreases v, 1
  {
    match v
    case Null => NULL_TEXT
    case False => FALSE_TEXT
    case True => TRUE_TEXT
    case Number(d) => PrintInt(d.Floor)
    case String(s) => PrintString(s)
    case Array(items) => [OPEN_BRACKET] + PrintItems(items, depth, fmt) + [CLOSE_BRACKET]
    case Object(members) =>
      if members == [] then [OPEN_BRACE] + If(fmt, [NEWLINE] + Tabs(depth - 1)) + [CLOSE_BRACE]
      else [OPEN_BRACE] + If(fmt, [NEWLINE]) + PrintMembers(members, depth + 1, fmt) + If(fmt, Tabs(depth)) + [CLOSE_BRACE]
  }

  /** The entries of an array: a comma, and with fmt a space, after each but the last. */
  function PrintItems(items: seq<Json>, depth: nat, fmt: bool): Bytes
    requires PrintableItems(items)
    decreases items, 0
  {
    if items == [] then []
    else if |items| == 1 then PrintValue(items[0], depth + 1, fmt)
    else PrintValue(items[0], depth + 1, fmt) + [COMMA] + If(fmt, [SPACE]) + PrintItems(items[1..], depth, fmt)
  }

  /** The members of an object, each on a line of its own with fmt. */
  function PrintMembers(members: seq<Member>, depth: nat, fmt: bool): Bytes
    requires PrintableMembers(members)
    decreases members, 0
  {
    if members == [] then []
    else if |members| == 1 then PrintMember(members[0], depth, fmt) + If(fmt, [NEWLINE])
    else PrintMember(members[0], depth, fmt) + [COMMA] + If(fmt, [NEWLINE]) + PrintMembers(members[1..], depth, fmt)
  }

  function PrintMember(m: Member, depth: nat, fmt: bool): Bytes
    requires NulFree(m.name) && Printable(m.value)
    decreases m, 2
  {
    If(fmt, Tabs(depth)) + PrintString(m.name) + [COLON] + If(fmt, [TAB]) + PrintValue(m.value, depth, fmt)
  }

  /** cJSON_Print */
  function Print(v: Json): Bytes
    requires Printable(v)
  {
    PrintValue(v, 0, true)
  }

  /** cJSON_PrintUnformatted */
  function PrintUnformatted(v: Json): Bytes
    requires Printable(v)
  {
    PrintValue(v, 0, false)
  }
}
