/** The trees of cJSON.c and the texts its printers are meant to produce. */
module JsonText {
  import opened Bytes

  const INT_MAX: int := 2147483647
  const INT_MIN: int := -INT_MAX - 1

  const QUOTE: byte := 0x22
  const BACKSLASH: byte := 0x5C
  const COMMA: byte := 0x2C
  const COLON: byte := 0x3A
  const SPACE: byte := 0x20
  const TAB: byte := 0x09
  const NEWLINE: byte := 0x0A
  const CARRIAGE: byte := 0x0D
  const SLASH: byte := 0x2F
  const STAR: byte := 0x2A
  const MINUS: byte := 0x2D
  const DOT: byte := 0x2E
  const OPEN_BRACKET: byte := 0x5B
  const CLOSE_BRACKET: byte := 0x5D
  const OPEN_BRACE: byte := 0x7B
  const CLOSE_BRACE: byte := 0x7D
  const NULL_TEXT: seq<byte> := [0x6E, 0x75, 0x6C, 0x6C]
  const FALSE_TEXT: seq<byte> := [0x66, 0x61, 0x6C, 0x73, 0x65]
  const TRUE_TEXT: seq<byte> := [0x74, 0x72, 0x75, 0x65]

  /** A cJSON node; `child` and `next` are the links of the same names. */
  datatype Value =
    | Null
    | False
    | True
    | Number(valuedouble: real)
    | Str(valuestring: seq<byte>)
    | Array(items: Items)
    | Object(members: Members)
  {
    ghost function Size(): nat {
      match this
      case Array(c) => 1 + c.Size()
      case Object(c) => 1 + c.Size()
      case _ => 0
    }

    /** The trees whose text is modelled: integral 32-bit numbers, and C strings. */
    ghost predicate Printable() {
      match this
      case Number(d) => IsInt32(d)
      case Str(s) => NoNul(s)
      case Array(c) => c.Printable()
      case Object(c) => c.Printable()
      case _ => true
    }
  }

  datatype Items = NoItem | Item(value: Value, next: Items)
  {
    ghost function Size(): nat {
      match this
      case NoItem => 0
      case Item(v, n) => 1 + v.Size() + n.Size()
    }

    ghost predicate Printable() {
      Item? ==> value.Printable() && next.Printable()
    }
  }

  datatype Members = NoMember | Member(key: seq<byte>, value: Value, next: Members)
  {
    ghost function Size(): nat {
      match this
      case NoMember => 0
      case Member(_, v, n) => 1 + v.Size() + n.Size()
    }

    ghost predicate Printable() {
      Member? ==> NoNul(key) && value.Printable() && next.Printable()
    }
  }

  predicate IsInt32(d: real) {
    INT_MIN as real <= d <= INT_MAX as real && d.Floor as real == d
  }

  /** `%d` for a non-negative argument. */
  function Digits(n: nat): (t: seq<byte>)
    ensures |t| >= 1
    decreases n
  {
    if n < 10 then [0x30 + n] else Digits(n / 10) + [0x30 + n % 10]
  }

  /** `%d` */
  function Decimal(n: int): seq<byte> {
    if n < 0 then [MINUS] + Digits(-n) else Digits(n)
  }

  /** One digit of `%04x`. */
  function HexDigit(n: nat): byte
    requires n < 16
  {
    if n < 10 then 0x30 + n else 0x61 + n - 10
  }

  /** What one byte of a C string becomes inside a printed literal. */
  function EscapeByte(b: byte): (t: seq<byte>)
    ensures |t| == 1 || |t| == 2 || |t| == 6
  {
    if b > 31 && b != QUOTE && b != BACKSLASH then [b]
    else if b == BACKSLASH then [BACKSLASH, BACKSLASH]
    else if b == QUOTE then [BACKSLASH, QUOTE]
    else if b == 0x08 then [BACKSLASH, 0x62]
    else if b == 0x0C then [BACKSLASH, 0x66]
    else if b == 0x0A then [BACKSLASH, 0x6E]
    else if b == 0x0D then [BACKSLASH, 0x72]
    else if b == 0x09 then [BACKSLASH, 0x74]
    else [BACKSLASH, 0x75, 0x30, 0x30, HexDigit(b / 16), HexDigit(b % 16)]
  }

  function Escape(s: seq<byte>): seq<byte> {
    if s == [] then [] else EscapeByte(s[0]) + Escape(s[1..])
  }

  function Quoted(s: seq<byte>): seq<byte> {
    [QUOTE] + Escape(s) + [QUOTE]
  }

  function Tabs(n: nat): (t: seq<byte>)
    ensures |t| == n && forall k :: 0 <= k < n ==> t[k] == TAB
  {
    seq(n, _ => TAB)
  }

  function ItemGap(fmt: bool): seq<byte> {
    if fmt then [COMMA, SPACE] else [COMMA]
  }

  function Opening(fmt: bool): seq<byte> {
    if fmt then [OPEN_BRACE, NEWLINE] else [OPEN_BRACE]
  }

  function Indent(depth: nat, fmt: bool): seq<byte> {
    if fmt then Tabs(depth) else []
  }

  function KeyGap(fmt: bool): seq<byte> {
    if fmt then [COLON, TAB] else [COLON]
  }

  function MemberEnd(last: bool, fmt: bool): seq<byte> {
    (if last then [] else [COMMA]) + (if fmt then [NEWLINE] else [])
  }

  /** The text of a tree printed at a nesting depth, formatted or not. */
  ghost function Text(v: Value, depth: nat, fmt: bool): (t: seq<byte>)
    requires v.Printable()
    ensures |t| >= 1
    decreases v.Size(), 1
  {
    match v
    case Null => NULL_TEXT
    case False => FALSE_TEXT
    case True => TRUE_TEXT
    case Number(d) => Decimal(d.Floor)
    case Str(s) => Quoted(s)
    case Array(c) => [OPEN_BRACKET] + ItemsText(c, depth + 1, fmt) + [CLOSE_BRACKET]
    case Object(c) => Opening(fmt) + MembersText(c, depth + 1, fmt) + Indent(depth, fmt) + [CLOSE_BRACE]
  }

  ghost function ItemsText(c: Items, depth: nat, fmt: bool): seq<byte>
    requires c.Printable()
    decreases c.Size(), 0
  {
    match c
    case NoItem => []
    case Item(v, next) =>
      Text(v, depth, fmt) + (if next.NoItem? then [] else ItemGap(fmt)) + ItemsText(next, depth, fmt)
  }

  ghost function MembersText(c: Members, depth: nat, fmt: bool): seq<byte>
    requires c.Printable()
    decreases c.Size(), 0
  {
    match c
    case NoMember => []
    case Member(key, v, next) =>
      Indent(depth, fmt) + Quoted(key) + KeyGap(fmt) + Text(v, depth, fmt)
      + MemberEnd(next.NoMember?, fmt) + MembersText(next, depth, fmt)
  }

  /** The formatted layout in the bytes themselves: a space behind the comma between two items; every
      member on a line of its own, behind as many tabs as it is deep, with a tab behind its colon; the
      closing brace on a line of its own too. */
  lemma ItemBytes(v: Value, next: Items, depth: nat)
    requires v.Printable() && next.Item? && next.Printable()
    ensures ItemsText(Item(v, next), depth, true) == Text(v, depth, true) + [0x2C, 0x20] + ItemsText(next, depth, true)
  {
    hide Text;
  }

  lemma MemberBytes(key: seq<byte>, v: Value, next: Members, depth: nat)
    requires NoNul(key) && v.Printable() && next.Printable()
    ensures MembersText(Member(key, v, next), depth, true)
         == seq(depth, _ => 0x09) + Quoted(key) + [0x3A, 0x09] + Text(v, depth, true)
            + (if next.NoMember? then [0x0A] else [0x2C, 0x0A]) + MembersText(next, depth, true)
  {
    hide Text, Quoted;
    assert Tabs(depth) == seq(depth, _ => 0x09);
  }

  lemma ObjectBytes(c: Members, depth: nat)
    requires c.Printable()
    ensures Text(Object(c), depth, true)
         == [0x7B, 0x0A] + MembersText(c, depth + 1, true) + seq(depth, _ => 0x09) + [0x7D]
  {
    hide MembersText;
    assert Tabs(depth) == seq(depth, _ => 0x09);
  }
}
