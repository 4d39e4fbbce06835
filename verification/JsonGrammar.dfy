/** What cJSON's parser accepts and builds, as functions of the text. `Ok(v, n)` is a value and the
    position after it; `Err(at)` a null return with `*ep` left at that position. */
module JsonGrammar {
  import opened Bytes
  import opened JsonText
  import Utf8

  datatype Parsed<+T> = Ok(value: T, next: nat) | Err(at: nat)

  /** `skip` */
  function Skip(s: seq<byte>, i: nat): (j: nat)
    ensures i <= j && (i <= |s| ==> j <= |s|)
    decreases |s| - i
  {
    if i < |s| && 0 < s[i] <= 32 then Skip(s, i + 1) else i
  }

  predicate StartsWith(s: seq<byte>, i: nat, t: seq<byte>) {
    i + |t| <= |s| && s[i..i + |t|] == t
  }

  predicate IsDigit(b: byte) {
    0x30 <= b <= 0x39
  }

  // Numbers

  /** The digit loop: value so far, and the first position that is not a digit. */
  function ReadDigits(s: seq<byte>, i: nat, n: real): (r: (real, nat))
    ensures i <= r.1 && (i <= |s| ==> r.1 <= |s|)
    decreases |s| - i
  {
    if i < |s| && IsDigit(s[i]) then ReadDigits(s, i + 1, n * 10.0 + (s[i] - 0x30) as real) else (n, i)
  }

  function DivideByTen(n: real, scale: nat): real
    decreases scale
  {
    if scale == 0 then n else DivideByTen(n / 10.0, scale - 1)
  }

  function AfterSign(s: seq<byte>, i: nat): nat {
    if At(s, i) == MINUS then i + 1 else i
  }

  function AfterZero(s: seq<byte>, i: nat): nat {
    if At(s, i) == 0x30 then i + 1 else i
  }

  function ReadWhole(s: seq<byte>, i: nat): (r: (real, nat))
    ensures i <= r.1 && (i <= |s| ==> r.1 <= |s|)
  {
    if 0x31 <= At(s, i) <= 0x39 then ReadDigits(s, i, 0.0) else (0.0, i)
  }

  function ReadFraction(s: seq<byte>, i: nat, n: real): (r: (real, nat))
    ensures i <= r.1 && (i <= |s| ==> r.1 <= |s|)
  {
    if At(s, i) == DOT && IsDigit(At(s, i + 1)) then
      var (m, j) := ReadDigits(s, i + 1, n);
      (DivideByTen(m, j - (i + 1)), j)
    else (n, i)
  }

  function ParseNumber(s: seq<byte>, i: nat): (r: (real, nat))
    requires At(s, i) == MINUS || IsDigit(At(s, i))
    ensures i < r.1 <= |s|
  {
    var p := AfterZero(s, AfterSign(s, i));
    var (n, q) := ReadWhole(s, p);
    var (d, r) := ReadFraction(s, q, n);
    (if At(s, i) == MINUS then -d else d, r)
  }

  // Strings

  /** The first pass over a literal: where its closing quote (or the terminator) stands. */
  function ScanEnd(s: seq<byte>, i: nat): (e: nat)
    ensures i <= e && (i <= |s| + 1 ==> e <= |s| + 1)
    decreases |s| - i
  {
    if At(s, i) == QUOTE || At(s, i) == 0 then i
    else if At(s, i) == BACKSLASH then ScanEnd(s, i + 2)
    else ScanEnd(s, i + 1)
  }

  /** The count the first pass makes: an escape pair counts once. */
  function ScanCount(s: seq<byte>, i: nat): nat
    decreases |s| - i
  {
    if At(s, i) == QUOTE || At(s, i) == 0 then 0
    else if At(s, i) == BACKSLASH then 1 + ScanCount(s, i + 2)
    else 1 + ScanCount(s, i + 1)
  }

  function HexValue(b: byte): int {
    if 0x30 <= b <= 0x39 then b - 0x30
    else if 0x41 <= b <= 0x46 then b - 0x41 + 10
    else if 0x61 <= b <= 0x66 then b - 0x61 + 10
    else -1
  }

  /** `parse_hex4`: zero as soon as a character is no hex digit. */
  function Hex4(s: seq<byte>, i: nat): (h: nat)
    ensures h < 0x1_0000
  {
    var a, b, c, d := HexValue(At(s, i)), HexValue(At(s, i + 1)), HexValue(At(s, i + 2)), HexValue(At(s, i + 3));
    if a < 0 || b < 0 || c < 0 || d < 0 then 0 else ((a * 16 + b) * 16 + c) * 16 + d
  }

  datatype Decoded = Bad | Good(bytes: seq<byte>, next: nat)

  /** A \u escape whose `u` stands at p: the code point and the position of its last hex digit. */
  function DecodeUnicode(s: seq<byte>, p: nat, end: nat): (r: Decoded)
    ensures r.Good? ==> r.next > p + 4
  {
    var uc, q := Hex4(s, p + 1), p + 4;
    if q >= end then Bad
    else if 0xDC00 <= uc <= 0xDFFF || uc == 0 then Bad
    else if 0xD800 <= uc <= 0xDBFF then
      if q + 6 > end then Bad
      else if At(s, q + 1) != BACKSLASH || At(s, q + 2) != 0x75 then Bad
      else
        var uc2 := Hex4(s, q + 3);
        if uc2 < 0xDC00 || uc2 > 0xDFFF then Bad
        else Good(Utf8.Encode(Utf8.FromPair(uc, uc2)), q + 7)
    else Good(Utf8.Encode(uc), q + 1)
  }

  /** What a single-character escape stands for; any other character stands for itself. */
  function Unescaped(b: byte): byte {
    if b == 0x62 then 0x08
    else if b == 0x66 then 0x0C
    else if b == 0x6E then 0x0A
    else if b == 0x72 then 0x0D
    else if b == 0x74 then 0x09
    else b
  }

  /** One character or escape of a literal. */
  function DecodeUnit(s: seq<byte>, p: nat, end: nat): (r: Decoded)
    ensures r.Good? ==> r.next > p
  {
    if At(s, p) != BACKSLASH then Good([At(s, p)], p + 1)
    else if At(s, p + 1) == 0x75 then DecodeUnicode(s, p + 1, end)
    else Good([Unescaped(At(s, p + 1))], p + 2)
  }

  /** The second pass over a literal. */
  function DecodeUntil(s: seq<byte>, p: nat, end: nat): (r: Decoded)
    ensures r.Good? ==> r.next >= p
    decreases end - p
  {
    if p >= end then Good([], p) else
    match DecodeUnit(s, p, end)
    case Bad => Bad
    case Good(b, p') =>
      match DecodeUntil(s, p', end)
      case Bad => Bad
      case Good(rest, q) => Good(b + rest, q)
  }

  function ParseString(s: seq<byte>, i: nat): (r: Parsed<seq<byte>>)
    ensures r.Ok? ==> i < |s| && i < r.next
  {
    if At(s, i) != QUOTE then Err(i) else
    match DecodeUntil(s, i + 1, ScanEnd(s, i + 1))
    case Bad => Err(i)
    case Good(b, p) => Ok(b, if At(s, p) == QUOTE then p + 1 else p)
  }

  // Values

  function ParseValue(s: seq<byte>, i: nat): (r: Parsed<Value>)
    ensures r.Ok? ==> i < |s| && i < r.next
    decreases |s| - i, 0
  {
    if StartsWith(s, i, NULL_TEXT) then Ok(Null, i + 4)
    else if StartsWith(s, i, FALSE_TEXT) then Ok(False, i + 5)
    else if StartsWith(s, i, TRUE_TEXT) then Ok(True, i + 4)
    else if At(s, i) == QUOTE then
      match ParseString(s, i)
      case Ok(b, n) => Ok(Str(b), n)
      case Err(e) => Err(e)
    else if At(s, i) == MINUS || IsDigit(At(s, i)) then
      var (d, n) := ParseNumber(s, i);
      Ok(Number(d), n)
    else if At(s, i) == OPEN_BRACKET then
      var j := Skip(s, i + 1);
      if At(s, j) == CLOSE_BRACKET then Ok(Array(NoItem), j + 1) else
      match ParseItems(s, j)
      case Ok(c, n) => Ok(Array(c), n)
      case Err(e) => Err(e)
    else if At(s, i) == OPEN_BRACE then
      var j := Skip(s, i + 1);
      if At(s, j) == CLOSE_BRACE then Ok(Object(NoMember), j + 1) else
      match ParseMembers(s, j)
      case Ok(c, n) => Ok(Object(c), n)
      case Err(e) => Err(e)
    else Err(i)
  }

  /** The rest of an array, from where an item is due to past the closing bracket. */
  function ParseItems(s: seq<byte>, i: nat): (r: Parsed<Items>)
    ensures r.Ok? ==> r.value.Item? && i < r.next
    decreases |s| - i, 1
  {
    match ParseValue(s, Skip(s, i))
    case Err(e) => Err(e)
    case Ok(v, n) =>
      match AfterItem(s, Skip(s, n))
      case Err(e) => Err(e)
      case Ok(rest, m) => Ok(Item(v, rest), m)
  }

  function AfterItem(s: seq<byte>, j: nat): (r: Parsed<Items>)
    ensures r.Ok? ==> j < r.next
    decreases |s| - j, 0
  {
    if At(s, j) == COMMA then ParseItems(s, j + 1)
    else if At(s, j) == CLOSE_BRACKET then Ok(NoItem, j + 1)
    else Err(j)
  }

  /** The rest of an object, from where a key is due to past the closing brace. */
  function ParseMembers(s: seq<byte>, i: nat): (r: Parsed<Members>)
    ensures r.Ok? ==> r.value.Member? && i < r.next
    decreases |s| - i, 1
  {
    match ParseString(s, Skip(s, i))
    case Err(e) => Err(e)
    case Ok(key, k) =>
      match ParseMemberValue(s, Skip(s, k))
      case Err(e) => Err(e)
      case Ok(v, n) =>
        match AfterMember(s, Skip(s, n))
        case Err(e) => Err(e)
        case Ok(rest, m) => Ok(Member(key, v, rest), m)
  }

  function ParseMemberValue(s: seq<byte>, c: nat): (r: Parsed<Value>)
    ensures r.Ok? ==> c < r.next
    decreases |s| - c, 0
  {
    if At(s, c) == COLON then ParseValue(s, Skip(s, c + 1)) else Err(c)
  }

  function AfterMember(s: seq<byte>, j: nat): (r: Parsed<Members>)
    ensures r.Ok? ==> j < r.next
    decreases |s| - j, 0
  {
    if At(s, j) == COMMA then ParseMembers(s, j + 1)
    else if At(s, j) == CLOSE_BRACE then Ok(NoMember, j + 1)
    else Err(j)
  }

  /** `cJSON_ParseWithOpts` */
  function Parse(s: seq<byte>, requireNullTerminated: bool): Parsed<Value> {
    match ParseValue(s, Skip(s, 0))
    case Err(e) => Err(e)
    case Ok(v, n) =>
      if !requireNullTerminated then Ok(v, n)
      else if At(s, Skip(s, n)) != 0 then Err(Skip(s, n))
      else Ok(v, Skip(s, n))
  }
}
