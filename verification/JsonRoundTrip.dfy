/** Parsing a printed text gives the printed tree back, whatever text follows it. */
module JsonRoundTrip {
  import opened Bytes
  import opened JsonText
  import opened JsonGrammar
  import Utf8

  // White space and literals

  ghost predicate Blank(w: seq<byte>) {
    forall k :: 0 <= k < |w| ==> 0 < w[k] <= 32
  }

  lemma {:induction false} SkipBlank(s: seq<byte>, i: nat, w: seq<byte>)
    requires Occurs(s, i, w) && Blank(w)
    ensures Skip(s, i) == Skip(s, i + |w|)
    decreases |w|
  {
    if w != [] {
      OccursAt(s, i, w, 0);
      assert w == [w[0]] + w[1..];
      OccursConcat(s, i, [w[0]], w[1..]);
      SkipBlank(s, i + 1, w[1..]);
    }
  }

  lemma SkipNothing(s: seq<byte>, i: nat)
    requires At(s, i) > 32
    ensures Skip(s, i) == i
  {
  }

  lemma SkipTwice(s: seq<byte>, i: nat)
    ensures Skip(s, Skip(s, i)) == Skip(s, i)
    decreases |s| - i
  {
    if i < |s| && 0 < s[i] <= 32 { SkipTwice(s, i + 1); }
  }

  lemma StartsWithFirst(s: seq<byte>, i: nat, t: seq<byte>)
    requires t != []
    ensures StartsWith(s, i, t) ==> At(s, i) == t[0]
  {
    if StartsWith(s, i, t) {
      assert s[i..i + |t|][0] == s[i];
    }
  }

  lemma NotLiteral(s: seq<byte>, i: nat)
    requires At(s, i) != NULL_TEXT[0] && At(s, i) != FALSE_TEXT[0] && At(s, i) != TRUE_TEXT[0]
    ensures !StartsWith(s, i, NULL_TEXT) && !StartsWith(s, i, FALSE_TEXT) && !StartsWith(s, i, TRUE_TEXT)
  {
    StartsWithFirst(s, i, NULL_TEXT);
    StartsWithFirst(s, i, FALSE_TEXT);
    StartsWithFirst(s, i, TRUE_TEXT);
  }

  // Numbers

  lemma {:induction false} DigitsAreDigits(n: nat)
    ensures forall k :: 0 <= k < |Digits(n)| ==> IsDigit(Digits(n)[k])
    ensures n > 0 ==> Digits(n)[0] != 0x30
    decreases n
  {
    if n >= 10 { DigitsAreDigits(n / 10); }
  }

  /** Reading the digits of n, with no digit before them, accumulates exactly n. */
  lemma {:induction false} ReadDigitsOf(s: seq<byte>, i: nat, n: nat)
    requires Occurs(s, i, Digits(n))
    ensures ReadDigits(s, i, 0.0) == ReadDigits(s, i + |Digits(n)|, n as real)
    decreases n
  {
    hide Occurs;
    var t := Digits(n);
    OccursAt(s, i, t, |t| - 1);
    DigitsAreDigits(n);
    if n < 10 {
      assert ReadDigits(s, i, 0.0) == ReadDigits(s, i + 1, 0.0 * 10.0 + n as real);
    } else {
      OccursConcat(s, i, Digits(n / 10), [0x30 + n % 10]);
      ReadDigitsOf(s, i, n / 10);
      var j := i + |Digits(n / 10)|;
      assert (n / 10) as real * 10.0 + (n % 10) as real == n as real;
      assert ReadDigits(s, j, (n / 10) as real)
          == ReadDigits(s, j + 1, (n / 10) as real * 10.0 + (s[j] - 0x30) as real);
    }
  }

  /** What may follow a number without being read into it. */
  ghost predicate EndsNumber(s: seq<byte>, i: nat) {
    !IsDigit(At(s, i)) && At(s, i) != DOT
  }

  lemma ParseUnsigned(s: seq<byte>, i: nat, n: nat)
    requires Occurs(s, i, Digits(n)) && EndsNumber(s, i + |Digits(n)|)
    ensures ReadWhole(s, AfterZero(s, i)) == (n as real, i + |Digits(n)|)
    ensures IsDigit(At(s, i))
  {
    DigitsAreDigits(n);
    OccursAt(s, i, Digits(n), 0);
    if n > 0 { ReadDigitsOf(s, i, n); }
  }

  lemma ParseDecimal(s: seq<byte>, i: nat, n: int)
    requires Occurs(s, i, Decimal(n)) && EndsNumber(s, i + |Decimal(n)|)
    ensures At(s, i) == MINUS || IsDigit(At(s, i))
    ensures ParseNumber(s, i) == (n as real, i + |Decimal(n)|)
  {
    OccursAt(s, i, Decimal(n), 0);
    if n < 0 {
      OccursConcat(s, i, [MINUS], Digits(-n));
      ParseUnsigned(s, i + 1, -n);
    } else {
      ParseUnsigned(s, i, n);
    }
  }

  // Strings

  lemma HexDigitValue(n: nat)
    requires n < 16
    ensures HexValue(HexDigit(n)) == n
  {
  }

  /** The scan passes over one printed character as a unit, and decoding gives the character back. */
  lemma UnescapeByte(s: seq<byte>, i: nat, b: byte, end: nat)
    requires b != 0 && Occurs(s, i, EscapeByte(b)) && i + |EscapeByte(b)| <= end
    ensures ScanEnd(s, i) == ScanEnd(s, i + |EscapeByte(b)|)
    ensures DecodeUnit(s, i, end) == Good([b], i + |EscapeByte(b)|)
  {
    var t := EscapeByte(b);
    forall k: nat | k < |t| ensures At(s, i + k) == t[k] { OccursAt(s, i, t, k); }
    assert At(s, i + 0) == t[0];
    if |t| == 2 {
      assert At(s, i + 1) == t[1];
    } else if |t| == 6 {
      HexDigitValue(b / 16);
      HexDigitValue(b % 16);
      assert At(s, i + 1) == t[1];
      assert At(s, i + 2) == t[2] && At(s, i + 3) == t[3] && At(s, i + 4) == t[4] && At(s, i + 5) == t[5];
      assert Hex4(s, i + 2) == b;
      assert Utf8.Encode(b) == [b];
      assert ScanEnd(s, i) == ScanEnd(s, i + 2);
      assert ScanEnd(s, i + 2) == ScanEnd(s, i + 3);
      assert ScanEnd(s, i + 3) == ScanEnd(s, i + 4);
      assert ScanEnd(s, i + 4) == ScanEnd(s, i + 5);
      assert ScanEnd(s, i + 5) == ScanEnd(s, i + 6);
    }
  }

  lemma {:induction false} UnescapeText(s: seq<byte>, i: nat, str: seq<byte>)
    requires NoNul(str) && Occurs(s, i, Escape(str)) && At(s, i + |Escape(str)|) == QUOTE
    ensures ScanEnd(s, i) == i + |Escape(str)|
    ensures DecodeUntil(s, i, i + |Escape(str)|) == Good(str, i + |Escape(str)|)
    decreases |str|
  {
    hide Occurs, DecodeUnit, EscapeByte;
    if str != [] {
      var e := EscapeByte(str[0]);
      OccursConcat(s, i, e, Escape(str[1..]));
      UnescapeByte(s, i, str[0], i + |Escape(str)|);
      UnescapeText(s, i + |e|, str[1..]);
      assert [str[0]] + str[1..] == str;
    }
  }

  lemma ParseQuoted(s: seq<byte>, i: nat, str: seq<byte>)
    requires NoNul(str) && Occurs(s, i, Quoted(str))
    ensures At(s, i) == QUOTE
    ensures ParseString(s, i) == Ok(str, i + |Quoted(str)|)
  {
    hide Occurs, ScanEnd, DecodeUntil, Escape;
    OccursConcat(s, i, [QUOTE] + Escape(str), [QUOTE]);
    OccursConcat(s, i, [QUOTE], Escape(str));
    OccursAt(s, i, [QUOTE], 0);
    OccursAt(s, i + 1 + |Escape(str)|, [QUOTE], 0);
    UnescapeText(s, i + 1, str);
  }

  // The parser, one production at a time

  lemma EmptyArray(s: seq<byte>, i: nat)
    requires At(s, i) == OPEN_BRACKET && At(s, Skip(s, i + 1)) == CLOSE_BRACKET
    ensures ParseValue(s, i) == Ok(Array(NoItem), Skip(s, i + 1) + 1)
  {
    hide ParseItems, ParseMembers, ParseString, ParseNumber, Skip;
    NotLiteral(s, i);
  }

  lemma FullArray(s: seq<byte>, i: nat, c: Items, m: nat)
    requires At(s, i) == OPEN_BRACKET && At(s, Skip(s, i + 1)) != CLOSE_BRACKET
    requires ParseItems(s, Skip(s, i + 1)) == Ok(c, m)
    ensures ParseValue(s, i) == Ok(Array(c), m)
  {
    hide ParseItems, ParseMembers, ParseString, ParseNumber, Skip;
    NotLiteral(s, i);
  }

  lemma EmptyObject(s: seq<byte>, i: nat)
    requires At(s, i) == OPEN_BRACE && At(s, Skip(s, i + 1)) == CLOSE_BRACE
    ensures ParseValue(s, i) == Ok(Object(NoMember), Skip(s, i + 1) + 1)
  {
    hide ParseItems, ParseMembers, ParseString, ParseNumber, Skip;
    NotLiteral(s, i);
  }

  lemma FullObject(s: seq<byte>, i: nat, c: Members, m: nat)
    requires At(s, i) == OPEN_BRACE && At(s, Skip(s, i + 1)) != CLOSE_BRACE
    requires ParseMembers(s, Skip(s, i + 1)) == Ok(c, m)
    ensures ParseValue(s, i) == Ok(Object(c), m)
  {
    hide ParseItems, ParseMembers, ParseString, ParseNumber, Skip;
    NotLiteral(s, i);
  }

  lemma MoreItems(s: seq<byte>, i: nat, v: Value, e: nat, rest: Items, m: nat)
    requires ParseValue(s, Skip(s, i)) == Ok(v, e) && At(s, e) == COMMA && ParseItems(s, e + 1) == Ok(rest, m)
    ensures ParseItems(s, i) == Ok(Item(v, rest), m)
  {
    hide ParseValue;
    SkipNothing(s, e);
    assert AfterItem(s, e) == Ok(rest, m);
  }

  lemma LastItem(s: seq<byte>, i: nat, v: Value, e: nat)
    requires ParseValue(s, Skip(s, i)) == Ok(v, e) && At(s, e) == CLOSE_BRACKET
    ensures ParseItems(s, i) == Ok(Item(v, NoItem), e + 1)
  {
    hide ParseValue;
    SkipNothing(s, e);
    assert AfterItem(s, e) == Ok(NoItem, e + 1);
  }

  lemma MoreMembers(s: seq<byte>, i: nat, key: seq<byte>, g: nat, v: Value, e: nat, rest: Members, m: nat)
    requires ParseString(s, Skip(s, i)) == Ok(key, g) && At(s, g) == COLON
    requires ParseValue(s, Skip(s, g + 1)) == Ok(v, e) && At(s, e) == COMMA && ParseMembers(s, e + 1) == Ok(rest, m)
    ensures ParseMembers(s, i) == Ok(Member(key, v, rest), m)
  {
    hide ParseValue, ParseString;
    SkipNothing(s, g);
    SkipNothing(s, e);
    assert ParseMemberValue(s, g) == Ok(v, e) && AfterMember(s, e) == Ok(rest, m);
  }

  lemma LastMember(s: seq<byte>, i: nat, key: seq<byte>, g: nat, v: Value, e: nat)
    requires ParseString(s, Skip(s, i)) == Ok(key, g) && At(s, g) == COLON
    requires ParseValue(s, Skip(s, g + 1)) == Ok(v, e) && At(s, Skip(s, e)) == CLOSE_BRACE
    ensures ParseMembers(s, i) == Ok(Member(key, v, NoMember), Skip(s, e) + 1)
  {
    hide ParseValue, ParseString;
    SkipNothing(s, g);
    assert ParseMemberValue(s, g) == Ok(v, e) && AfterMember(s, Skip(s, e)) == Ok(NoMember, Skip(s, e) + 1);
  }

  // The printed texts, one production at a time

  lemma TextStart(v: Value, depth: nat, fmt: bool)
    requires v.Printable()
    ensures Text(v, depth, fmt)[0] > 32
    ensures Text(v, depth, fmt)[0] != CLOSE_BRACKET && Text(v, depth, fmt)[0] != CLOSE_BRACE
  {
    if v.Number? {
      DigitsAreDigits(if v.valuedouble.Floor < 0 then -v.valuedouble.Floor else v.valuedouble.Floor);
    }
  }

  lemma ArrayShape(c: Items, depth: nat, fmt: bool)
    requires c.Printable()
    ensures Text(Array(c), depth, fmt) == [OPEN_BRACKET] + ItemsText(c, depth + 1, fmt) + [CLOSE_BRACKET]
    ensures c.NoItem? ==> ItemsText(c, depth + 1, fmt) == []
  {
  }

  lemma ArrayLayout(s: seq<byte>, i: nat, c: Items, depth: nat, fmt: bool) returns (close: nat)
    requires c.Printable() && Occurs(s, i, Text(Array(c), depth, fmt))
    ensures At(s, i) == OPEN_BRACKET && Occurs(s, i + 1, ItemsText(c, depth + 1, fmt))
    ensures c.NoItem? ==> close == i + 1
    ensures close == i + 1 + |ItemsText(c, depth + 1, fmt)| == i + |Text(Array(c), depth, fmt)| - 1
    ensures At(s, close) == CLOSE_BRACKET
  {
    hide Occurs, At, Text, ItemsText;
    var body := ItemsText(c, depth + 1, fmt);
    ArrayShape(c, depth, fmt);
    OccursConcat(s, i, [OPEN_BRACKET] + body, [CLOSE_BRACKET]);
    OccursConcat(s, i, [OPEN_BRACKET], body);
    OccursAt(s, i, [OPEN_BRACKET], 0);
    close := i + 1 + |body|;
    OccursAt(s, close, [CLOSE_BRACKET], 0);
  }

  /** e is where the first value ends, n where the next one starts. */
  lemma ItemsLayout(s: seq<byte>, k: nat, c: Items, depth: nat, fmt: bool) returns (e: nat, n: nat)
    requires c.Item? && c.Printable() && Occurs(s, k, ItemsText(c, depth, fmt))
    ensures Occurs(s, k, Text(c.value, depth, fmt)) && e == k + |Text(c.value, depth, fmt)|
    ensures Skip(s, k) == k && At(s, k) != CLOSE_BRACKET
    ensures Occurs(s, n, ItemsText(c.next, depth, fmt))
    ensures n + |ItemsText(c.next, depth, fmt)| == k + |ItemsText(c, depth, fmt)|
    ensures c.next.Item? ==> At(s, e) == COMMA && Skip(s, e + 1) == Skip(s, n)
    ensures c.next.NoItem? ==> e == n == k + |ItemsText(c, depth, fmt)|
  {
    hide Occurs, Skip, Text, MembersText, At, Decimal, Quoted;
    var first, gap := Text(c.value, depth, fmt), if c.next.NoItem? then [] else ItemGap(fmt);
    e := k + |first|;
    n := e + |gap|;
    OccursConcat(s, k, first + gap, ItemsText(c.next, depth, fmt));
    OccursConcat(s, k, first, gap);
    TextStart(c.value, depth, fmt);
    OccursAt(s, k, first, 0);
    SkipNothing(s, k);
    if c.next.Item? {
      OccursAt(s, e, gap, 0);
      var space: seq<byte> := if fmt then [SPACE] else [];
      assert gap == [COMMA] + space;
      OccursConcat(s, e, [COMMA], space);
      SkipBlank(s, e + 1, space);
    }
  }

  lemma ObjectLayout(s: seq<byte>, i: nat, c: Members, depth: nat, fmt: bool) returns (k: nat, close: nat)
    requires c.Printable() && Occurs(s, i, Text(Object(c), depth, fmt))
    ensures At(s, i) == OPEN_BRACE && Skip(s, i + 1) == Skip(s, k)
    ensures Occurs(s, k, MembersText(c, depth + 1, fmt))
    ensures Skip(s, k + |MembersText(c, depth + 1, fmt)|) == close == i + |Text(Object(c), depth, fmt)| - 1
    ensures At(s, close) == CLOSE_BRACE
  {
    hide Occurs, Skip, ItemsText, MembersText, At, Quoted, Decimal;
    var opening, body, indent := Opening(fmt), MembersText(c, depth + 1, fmt), Indent(depth, fmt);
    OccursConcat(s, i, opening + body + indent, [CLOSE_BRACE]);
    OccursConcat(s, i, opening + body, indent);
    OccursConcat(s, i, opening, body);
    OccursAt(s, i, opening, 0);
    k := i + |opening|;
    close := k + |body| + |indent|;
    OccursAt(s, close, [CLOSE_BRACE], 0);
    SkipBlank(s, k + |body|, indent);
    SkipNothing(s, close);
    var newline: seq<byte> := if fmt then [NEWLINE] else [];
    assert opening == [OPEN_BRACE] + newline;
    OccursConcat(s, i, [OPEN_BRACE], newline);
    SkipBlank(s, i + 1, newline);
  }

  lemma NoMembersText(depth: nat, fmt: bool)
    ensures MembersText(NoMember, depth, fmt) == []
  {
  }

  /** The key starts at q, its gap at g, the value at w, what ends the member at e, the next one at n. */
  lemma MembersLayout(s: seq<byte>, k: nat, c: Members, depth: nat, fmt: bool)
    returns (q: nat, g: nat, w: nat, e: nat, n: nat)
    requires c.Member? && c.Printable() && Occurs(s, k, MembersText(c, depth, fmt))
    ensures Skip(s, k) == q && At(s, q) == QUOTE && Occurs(s, q, Quoted(c.key)) && g == q + |Quoted(c.key)|
    ensures At(s, g) == COLON && Skip(s, g + 1) == w
    ensures Occurs(s, w, Text(c.value, depth, fmt)) && e == w + |Text(c.value, depth, fmt)|
    ensures Occurs(s, e, MemberEnd(c.next.NoMember?, fmt)) && n == e + |MemberEnd(c.next.NoMember?, fmt)|
    ensures Occurs(s, n, MembersText(c.next, depth, fmt))
    ensures n + |MembersText(c.next, depth, fmt)| == k + |MembersText(c, depth, fmt)|
    ensures c.next.NoMember? ==> n == k + |MembersText(c, depth, fmt)|
  {
    hide Occurs, Skip, Text, ItemsText, At, Decimal, Escape;
    var indent, key, gap := Indent(depth, fmt), Quoted(c.key), KeyGap(fmt);
    var v, end := Text(c.value, depth, fmt), MemberEnd(c.next.NoMember?, fmt);
    OccursConcat(s, k, indent + key + gap + v + end, MembersText(c.next, depth, fmt));
    OccursConcat(s, k, indent + key + gap + v, end);
    OccursConcat(s, k, indent + key + gap, v);
    OccursConcat(s, k, indent + key, gap);
    OccursConcat(s, k, indent, key);
    q := k + |indent|;
    g := q + |key|;
    w := g + |gap|;
    e := w + |v|;
    n := e + |end|;
    assert key == [QUOTE] + Escape(c.key) + [QUOTE];
    OccursAt(s, q, key, 0);
    SkipBlank(s, k, indent);
    SkipNothing(s, q);
    OccursAt(s, g, gap, 0);
    var tab: seq<byte> := if fmt then [TAB] else [];
    assert gap == [COLON] + tab;
    OccursConcat(s, g, [COLON], tab);
    SkipBlank(s, g + 1, tab);
    TextStart(c.value, depth, fmt);
    OccursAt(s, w, v, 0);
    SkipNothing(s, w);
  }

  lemma MemberEndLayout(s: seq<byte>, e: nat, last: bool, fmt: bool, close: nat)
    requires Occurs(s, e, MemberEnd(last, fmt))
    requires last ==> At(s, close) == CLOSE_BRACE && Skip(s, e + |MemberEnd(last, fmt)|) == close
    ensures EndsNumber(s, e)
    ensures !last ==> At(s, e) == COMMA && Skip(s, e + 1) == Skip(s, e + |MemberEnd(last, fmt)|)
    ensures last ==> Skip(s, e) == close
  {
    var newline: seq<byte> := if fmt then [NEWLINE] else [];
    if last {
      SkipBlank(s, e, newline);
    } else {
      OccursConcat(s, e, [COMMA], newline);
      SkipBlank(s, e + 1, newline);
    }
    if !last || fmt { OccursAt(s, e, MemberEnd(last, fmt), 0); }
  }

  // Trees

  /** Trees without children. */
  lemma ParseLeaf(s: seq<byte>, i: nat, v: Value, depth: nat, fmt: bool)
    requires !v.Array? && !v.Object? && v.Printable() && Occurs(s, i, Text(v, depth, fmt))
    requires EndsNumber(s, i + |Text(v, depth, fmt)|)
    ensures ParseValue(s, i) == Ok(v, i + |Text(v, depth, fmt)|)
  {
    hide ParseItems, ParseMembers, ParseNumber, ParseString;
    OccursAt(s, i, Text(v, depth, fmt), 0);
    match v
    case Null =>
    case False =>
      StartsWithFirst(s, i, NULL_TEXT);
    case True =>
      StartsWithFirst(s, i, NULL_TEXT);
      StartsWithFirst(s, i, FALSE_TEXT);
    case Number(d) =>
      ParseDecimal(s, i, d.Floor);
      NotLiteral(s, i);
    case Str(str) =>
      ParseQuoted(s, i, str);
      NotLiteral(s, i);
  }

  /** The last requirement matters for numbers only: it keeps what follows out of them. */
  lemma {:induction false} ParseText(s: seq<byte>, i: nat, v: Value, depth: nat, fmt: bool)
    requires v.Printable() && Occurs(s, i, Text(v, depth, fmt))
    requires EndsNumber(s, i + |Text(v, depth, fmt)|)
    ensures ParseValue(s, i) == Ok(v, i + |Text(v, depth, fmt)|)
    decreases v.Size(), 1
  {
    hide ParseValue, Text, Occurs;
    match v
    case Array(c) => ParseArrayText(s, i, c, depth, fmt);
    case Object(c) => ParseObjectText(s, i, c, depth, fmt);
    case _ => ParseLeaf(s, i, v, depth, fmt);
  }

  lemma {:induction false} ParseArrayText(s: seq<byte>, i: nat, c: Items, depth: nat, fmt: bool)
    requires c.Printable() && Occurs(s, i, Text(Array(c), depth, fmt))
    ensures ParseValue(s, i) == Ok(Array(c), i + |Text(Array(c), depth, fmt)|)
    decreases c.Size(), 3
  {
    hide ParseValue, ParseItems, Occurs, Text, ItemsText, At;
    var close := ArrayLayout(s, i, c, depth, fmt);
    if c.NoItem? {
      SkipNothing(s, i + 1);
      EmptyArray(s, i);
    } else {
      var e, n := ItemsLayout(s, i + 1, c, depth + 1, fmt);
      ParseItemsText(s, i + 1, i + 1, c, depth + 1, fmt);
      FullArray(s, i, c, close + 1);
    }
  }

  lemma {:induction false} ParseObjectText(s: seq<byte>, i: nat, c: Members, depth: nat, fmt: bool)
    requires c.Printable() && Occurs(s, i, Text(Object(c), depth, fmt))
    ensures ParseValue(s, i) == Ok(Object(c), i + |Text(Object(c), depth, fmt)|)
    decreases c.Size(), 3
  {
    hide ParseValue, ParseMembers, Occurs, Text, MembersText, At, Skip;
    var k, close := ObjectLayout(s, i, c, depth, fmt);
    if c.NoMember? {
      NoMembersText(depth + 1, fmt);
      EmptyObject(s, i);
    } else {
      SkipTwice(s, i + 1);
      var q, g, w, e, n := MembersLayout(s, k, c, depth + 1, fmt);
      ParseMembersText(s, Skip(s, i + 1), k, c, depth + 1, fmt, close);
      FullObject(s, i, c, close + 1);
    }
  }

  lemma {:induction false} ParseItemsText(s: seq<byte>, i: nat, k: nat, c: Items, depth: nat, fmt: bool)
    requires c.Item? && c.Printable() && Skip(s, i) == Skip(s, k)
    requires Occurs(s, k, ItemsText(c, depth, fmt))
    requires At(s, k + |ItemsText(c, depth, fmt)|) == CLOSE_BRACKET
    ensures ParseItems(s, i) == Ok(c, k + |ItemsText(c, depth, fmt)| + 1)
    decreases c.Size(), 2
  {
    hide ParseValue, ParseItems, Occurs, Text, ItemsText, Skip;
    var e, n := ItemsLayout(s, k, c, depth, fmt);
    ParseText(s, k, c.value, depth, fmt);
    if c.next.Item? {
      ParseItemsText(s, e + 1, n, c.next, depth, fmt);
      MoreItems(s, i, c.value, e, c.next, n + |ItemsText(c.next, depth, fmt)| + 1);
    } else {
      LastItem(s, i, c.value, e);
    }
  }

  /** `close` is where the closing brace stands, possibly after white space. */
  lemma {:induction false} ParseMembersText(s: seq<byte>, i: nat, k: nat, c: Members, depth: nat, fmt: bool, close: nat)
    requires c.Member? && c.Printable() && Skip(s, i) == Skip(s, k)
    requires Occurs(s, k, MembersText(c, depth, fmt))
    requires At(s, close) == CLOSE_BRACE && Skip(s, k + |MembersText(c, depth, fmt)|) == close
    ensures ParseMembers(s, i) == Ok(c, close + 1)
    decreases c.Size(), 2
  {
    hide ParseMembers, ParseValue, ParseItems, Text, MembersText, Occurs, ParseString, Quoted, Skip;
    var q, g, w, e, n := MembersLayout(s, k, c, depth, fmt);
    ParseQuoted(s, q, c.key);
    MemberEndLayout(s, e, c.next.NoMember?, fmt, close);
    ParseText(s, w, c.value, depth, fmt);
    if c.next.Member? {
      ParseMembersText(s, e + 1, n, c.next, depth, fmt, close);
      MoreMembers(s, i, c.key, g, c.value, e, c.next, close + 1);
    } else {
      LastMember(s, i, c.key, g, c.value, e);
    }
  }

  /** The round trip of cJSON: a tree printed in either form parses back to itself, and all of the
      text is consumed. */
  lemma RoundTrip(v: Value, fmt: bool)
    requires v.Printable()
    ensures Parse(Text(v, 0, fmt), true) == Ok(v, |Text(v, 0, fmt)|)
    ensures Parse(Text(v, 0, fmt), false) == Ok(v, |Text(v, 0, fmt)|)
  {
    var t := Text(v, 0, fmt);
    OccursWhole(t);
    TextStart(v, 0, fmt);
    SkipNothing(t, 0);
    ParseText(t, 0, v, 0, fmt);
  }

  /** So two trees with the same text are the same tree: neither form loses anything. */
  lemma TextInjective(v: Value, w: Value, fmt: bool)
    requires v.Printable() && w.Printable() && Text(v, 0, fmt) == Text(w, 0, fmt)
    ensures v == w
  {
    RoundTrip(v, fmt);
    RoundTrip(w, fmt);
  }
}
