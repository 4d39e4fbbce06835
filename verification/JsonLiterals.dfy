/** What a string literal means, unit by unit in the bytes themselves (section 7 of RFC 8259), and that
    the parser reads exactly these literals, each to its meaning. */
module JsonLiterals {
  import opened Bytes
  import opened JsonText
  import opened JsonGrammar
  import JsonUnescape
  import Utf8

  /** The character `d` is a hex digit, of either case, worth `v`. */
  predicate Spells(d: byte, v: nat) {
    || (v < 10 && d == 0x30 + v)
    || (10 <= v < 16 && (d == 0x41 + (v - 10) || d == 0x61 + (v - 10)))
  }

  /** Four such characters spell n. */
  predicate SpellsWord(t: seq<byte>, n: nat) {
    && |t| == 4 && n < 0x1_0000
    && Spells(t[0], n / 4096) && Spells(t[1], n / 256 % 16) && Spells(t[2], n / 16 % 16) && Spells(t[3], n % 16)
  }

  /** A character or escape of a literal, and the bytes it stands for. */
  datatype Unit = Unit(spelling: seq<byte>, bytes: seq<byte>)

  /** What the character behind a backslash stands for, other than `u`. */
  predicate StandsFor(c: byte, b: byte) {
    || (c == 0x62 && b == 0x08) || (c == 0x66 && b == 0x0C) || (c == 0x6E && b == 0x0A)
    || (c == 0x72 && b == 0x0D) || (c == 0x74 && b == 0x09)
    || (c !in {0x62, 0x66, 0x6E, 0x72, 0x74} && b == c)
  }

  predicate Plain(u: Unit) {
    |u.spelling| == 1 && u.spelling[0] !in {0, 0x22, 0x5C} && u.bytes == u.spelling
  }

  predicate Short(u: Unit) {
    && |u.spelling| == 2 && u.spelling[0] == 0x5C && u.spelling[1] !in {0, 0x75}
    && |u.bytes| == 1 && StandsFor(u.spelling[1], u.bytes[0])
  }

  /** An escape of one code point below 0x10000 that is not zero and no surrogate. */
  predicate Wide(u: Unit) {
    var cp := Utf8.Decode(u.bytes);
    && |u.spelling| == 6 && u.spelling[..2] == [0x5C, 0x75]
    && 0 < cp < 0x1_0000 && SpellsWord(u.spelling[2..], cp)
  }

  /** An escape of a code point from 0x10000 on, as a pair of surrogates. */
  predicate Pair(u: Unit) {
    var cp := Utf8.Decode(u.bytes);
    && |u.spelling| == 12 && u.spelling[..2] == u.spelling[6..8] == [0x5C, 0x75]
    && cp >= 0x1_0000
    && SpellsWord(u.spelling[2..6], 0xD800 + (cp - 0x1_0000) / 1024)
    && SpellsWord(u.spelling[8..], 0xDC00 + (cp - 0x1_0000) % 1024)
  }

  predicate ValidUnit(u: Unit) {
    Plain(u) || Short(u) || Wide(u) || Pair(u)
  }

  ghost predicate AllValid(us: seq<Unit>) {
    forall k :: 0 <= k < |us| ==> ValidUnit(us[k])
  }

  function Spelling(us: seq<Unit>): seq<byte> {
    if us == [] then [] else us[0].spelling + Spelling(us[1..])
  }

  function Meaning(us: seq<Unit>): seq<byte> {
    if us == [] then [] else us[0].bytes + Meaning(us[1..])
  }

  // Hex digits

  lemma DigitIff(d: byte, v: nat)
    ensures HexValue(d) == v <==> Spells(d, v)
    ensures HexValue(d) < 16
  {
  }

  function Four(s: seq<byte>, i: nat): (t: seq<byte>)
    ensures |t| == 4
  {
    [At(s, i), At(s, i + 1), At(s, i + 2), At(s, i + 3)]
  }

  lemma SpelledIsRead(s: seq<byte>, i: nat, n: nat)
    requires SpellsWord(Four(s, i), n)
    ensures Hex4(s, i) == n && JsonUnescape.HexAt(s, i)
  {
    DigitIff(At(s, i), n / 4096);
    DigitIff(At(s, i + 1), n / 256 % 16);
    DigitIff(At(s, i + 2), n / 16 % 16);
    DigitIff(At(s, i + 3), n % 16);
    hide HexValue, Spells;
    WordOf(n);
  }

  lemma WordOf(n: nat)
    requires n < 0x1_0000
    ensures ((n / 4096 * 16 + n / 256 % 16) * 16 + n / 16 % 16) * 16 + n % 16 == n
  {
    assert n / 256 == n / 4096 * 16 + n / 256 % 16;
    assert n / 16 == n / 256 * 16 + n / 16 % 16;
  }

  lemma ReadIsSpelled(s: seq<byte>, i: nat)
    requires Hex4(s, i) > 0
    ensures SpellsWord(Four(s, i), Hex4(s, i))
  {
    var a, b, c, d := HexValue(At(s, i)), HexValue(At(s, i + 1)), HexValue(At(s, i + 2)), HexValue(At(s, i + 3));
    DigitIff(At(s, i), a);
    DigitIff(At(s, i + 1), b);
    DigitIff(At(s, i + 2), c);
    DigitIff(At(s, i + 3), d);
    hide HexValue, Spells;
    DigitsOf(a, b, c, d, Hex4(s, i));
  }

  /** Four characters are read as n > 0 if and only if they spell it. */
  lemma Hex4Iff(s: seq<byte>, i: nat, n: nat)
    requires n > 0
    ensures Hex4(s, i) == n <==> SpellsWord(Four(s, i), n)
    ensures SpellsWord(Four(s, i), n) ==> JsonUnescape.HexAt(s, i)
  {
    hide Hex4, SpellsWord, Four, JsonUnescape.HexAt;
    if SpellsWord(Four(s, i), n) { SpelledIsRead(s, i, n); }
    if Hex4(s, i) == n { ReadIsSpelled(s, i); }
  }

  lemma DigitsOf(a: nat, b: nat, c: nat, d: nat, n: nat)
    requires a < 16 && b < 16 && c < 16 && d < 16 && n == ((a * 16 + b) * 16 + c) * 16 + d
    ensures n < 0x1_0000 && a == n / 4096 && b == n / 256 % 16 && c == n / 16 % 16 && d == n % 16
  {
    assert n / 16 == (a * 16 + b) * 16 + c;
    assert n / 256 == a * 16 + b;
  }

  ghost predicate NoDigit(d: byte) {
    forall v: nat :: !Spells(d, v)
  }

  /** They are read as zero if one of them is no hex digit, whatever it is. */
  lemma NoDigitRefused(s: seq<byte>, i: nat, k: nat)
    requires k < 4 && NoDigit(At(s, i + k))
    ensures Hex4(s, i) == 0
  {
    var d := At(s, i + k);
    if HexValue(d) >= 0 {
      var h: nat := HexValue(d);
      DigitIff(d, h);
    }
  }

  lemma FourOccurs(s: seq<byte>, i: nat, t: seq<byte>, k: nat)
    requires Occurs(s, i, t) && k + 4 <= |t|
    ensures Four(s, i + k) == t[k..k + 4]
  {
    OccursAt(s, i, t, k);
    OccursAt(s, i, t, k + 1);
    OccursAt(s, i, t, k + 2);
    OccursAt(s, i, t, k + 3);
  }

  // Reading one unit

  lemma ReadsPlain(s: seq<byte>, i: nat, u: Unit, end: nat)
    requires Plain(u) && Occurs(s, i, u.spelling)
    ensures DecodeUnit(s, i, end) == Good(u.bytes, i + 1) && ScanEnd(s, i) == ScanEnd(s, i + 1)
  {
    OccursAt(s, i, u.spelling, 0);
  }

  lemma ReadsShort(s: seq<byte>, i: nat, u: Unit, end: nat)
    requires Short(u) && Occurs(s, i, u.spelling)
    ensures DecodeUnit(s, i, end) == Good(u.bytes, i + 2) && ScanEnd(s, i) == ScanEnd(s, i + 2)
  {
    OccursAt(s, i, u.spelling, 0);
    OccursAt(s, i, u.spelling, 1);
  }

  lemma ReadsWide(s: seq<byte>, i: nat, u: Unit, end: nat)
    requires Wide(u) && Occurs(s, i, u.spelling) && i + 6 <= end
    ensures DecodeUnit(s, i, end) == Good(u.bytes, i + 6) && ScanEnd(s, i) == ScanEnd(s, i + 6)
  {
    hide Hex4, SpellsWord, Utf8.Decode, Utf8.Encode, ScanEnd, JsonUnescape.HexAt, Four;
    var cp := Utf8.Decode(u.bytes);
    OccursAt(s, i, u.spelling, 0);
    OccursAt(s, i, u.spelling, 1);
    FourOccurs(s, i, u.spelling, 2);
    assert u.spelling[2..6] == u.spelling[2..];
    Hex4Iff(s, i + 2, cp);
    JsonUnescape.ScanUnicode(s, i);
    Utf8.EncodeDecode(u.bytes);
    assert Utf8.IsScalar(cp);
  }

  lemma ReadsPair(s: seq<byte>, i: nat, u: Unit, end: nat)
    requires Pair(u) && Occurs(s, i, u.spelling) && i + 12 <= end
    ensures DecodeUnit(s, i, end) == Good(u.bytes, i + 12) && ScanEnd(s, i) == ScanEnd(s, i + 12)
  {
    hide Hex4, SpellsWord, Utf8.Decode, Utf8.Encode, ScanEnd, JsonUnescape.HexAt, Four;
    var cp := Utf8.Decode(u.bytes);
    Utf8.EncodeDecode(u.bytes);
    OccursAt(s, i, u.spelling, 0);
    OccursAt(s, i, u.spelling, 1);
    OccursAt(s, i, u.spelling, 6);
    OccursAt(s, i, u.spelling, 7);
    FourOccurs(s, i, u.spelling, 2);
    FourOccurs(s, i, u.spelling, 8);
    assert u.spelling[8..12] == u.spelling[8..];
    Hex4Iff(s, i + 2, 0xD800 + (cp - 0x1_0000) / 1024);
    Hex4Iff(s, i + 8, 0xDC00 + (cp - 0x1_0000) % 1024);
    JsonUnescape.ScanUnicode(s, i);
    JsonUnescape.ScanUnicode(s, i + 6);
    assert Utf8.FromPair(Hex4(s, i + 2), Hex4(s, i + 8)) == cp;
  }

  lemma ReadsUnit(s: seq<byte>, i: nat, u: Unit, end: nat)
    requires ValidUnit(u) && Occurs(s, i, u.spelling) && i + |u.spelling| <= end
    ensures u.spelling != []
    ensures DecodeUnit(s, i, end) == Good(u.bytes, i + |u.spelling|)
    ensures ScanEnd(s, i) == ScanEnd(s, i + |u.spelling|)
  {
    hide DecodeUnit, ScanEnd, Occurs;
    if Plain(u) {
      ReadsPlain(s, i, u, end);
    } else if Short(u) {
      ReadsShort(s, i, u, end);
    } else if Wide(u) {
      ReadsWide(s, i, u, end);
    } else {
      ReadsPair(s, i, u, end);
    }
  }

  function Then(t: seq<byte>, d: Decoded): Decoded {
    match d
    case Bad => Bad
    case Good(b, q) => Good(t + b, q)
  }

  /** A stretch of units is read to their meaning, and reading goes on behind it. */
  lemma {:induction false} ReadsUnits(s: seq<byte>, i: nat, us: seq<Unit>, end: nat)
    requires AllValid(us) && Occurs(s, i, Spelling(us)) && i + |Spelling(us)| <= end
    ensures ScanEnd(s, i) == ScanEnd(s, i + |Spelling(us)|)
    ensures DecodeUntil(s, i, end) == Then(Meaning(us), DecodeUntil(s, i + |Spelling(us)|, end))
    decreases |us|
  {
    hide DecodeUnit, Occurs, ValidUnit, ScanEnd;
    if us == [] {
      var d := DecodeUntil(s, i, end);
      if d.Good? { assert [] + d.bytes == d.bytes; }
    } else {
      var u, rest := us[0], Spelling(us[1..]);
      var e := i + |u.spelling| + |rest|;
      OccursConcat(s, i, u.spelling, rest);
      ReadsUnit(s, i, u, end);
      ReadsUnits(s, i + |u.spelling|, us[1..], end);
      var d := DecodeUntil(s, e, end);
      if d.Good? { assert u.bytes + (Meaning(us[1..]) + d.bytes) == u.bytes + Meaning(us[1..]) + d.bytes; }
    }
  }

  /** A closed literal with this meaning stands from i to n. */
  ghost predicate Closed(s: seq<byte>, i: nat, b: seq<byte>, n: nat) {
    exists us :: AllValid(us) && ClosedBy(s, i, b, n, us)
  }

  predicate ClosedBy(s: seq<byte>, i: nat, b: seq<byte>, n: nat, us: seq<Unit>) {
    Meaning(us) == b && i < n <= |s| && s[i..n] == [0x22] + Spelling(us) + [0x22]
  }

  /** A literal that the end of the text ends. */
  ghost predicate Unclosed(s: seq<byte>, i: nat, b: seq<byte>, n: nat) {
    exists us :: AllValid(us) && UnclosedBy(s, i, b, n, us)
  }

  predicate UnclosedBy(s: seq<byte>, i: nat, b: seq<byte>, n: nat, us: seq<Unit>) {
    Meaning(us) == b && i < n == |s| && s[i..n] == [0x22] + Spelling(us)
  }

  /** A literal whose last backslash takes the terminator for the character it escapes. */
  ghost predicate Dangling(s: seq<byte>, i: nat, b: seq<byte>, n: nat) {
    exists us :: AllValid(us) && DanglingBy(s, i, b, n, us)
  }

  predicate DanglingBy(s: seq<byte>, i: nat, b: seq<byte>, n: nat, us: seq<Unit>) {
    Meaning(us) + [0] == b && i < |s| && n == |s| + 1 && s[i..] == [0x22] + Spelling(us) + [0x5C]
  }

  lemma AtQuote(s: seq<byte>, i: nat, t: seq<byte>, e: nat)
    requires i < |s| && e == i + 1 + |t| <= |s| && s[i..e] == [0x22] + t
    ensures At(s, i) == QUOTE && Occurs(s, i + 1, t)
  {
    assert s[i] == s[i..e][0];
    assert s[i + 1..e] == s[i..e][1..];
  }

  lemma ReadsClosed(s: seq<byte>, i: nat, b: seq<byte>, n: nat, us: seq<Unit>)
    requires AllValid(us) && ClosedBy(s, i, b, n, us)
    ensures ParseString(s, i) == Ok(b, n)
  {
    hide ValidUnit, Spelling, Meaning, Occurs, DecodeUntil, ScanEnd;
    var e := n - 1;
    assert |s[i..n]| == n - i;
    assert s[i..e] == s[i..n][..n - 1 - i] == [0x22] + Spelling(us);
    assert s[e] == s[i..n][e - i] == 0x22;
    AtQuote(s, i, Spelling(us), e);
    StopsThere(s, e);
    ReadsUnits(s, i + 1, us, e);
    assert b + [] == b;
  }

  lemma ReadsUnclosed(s: seq<byte>, i: nat, b: seq<byte>, n: nat, us: seq<Unit>)
    requires AllValid(us) && UnclosedBy(s, i, b, n, us)
    ensures ParseString(s, i) == Ok(b, n)
  {
    hide ValidUnit, Spelling, Meaning, Occurs, DecodeUntil, ScanEnd;
    assert |s[i..n]| == n - i;
    AtQuote(s, i, Spelling(us), n);
    StopsThere(s, n);
    ReadsUnits(s, i + 1, us, n);
    assert b + [] == b;
  }

  lemma ReadsDangling(s: seq<byte>, i: nat, b: seq<byte>, n: nat, us: seq<Unit>)
    requires AllValid(us) && DanglingBy(s, i, b, n, us)
    ensures ParseString(s, i) == Ok(b, n)
  {
    hide ValidUnit, Spelling, Meaning, Occurs, DecodeUntil, ScanEnd;
    var e := |s| - 1;
    assert |s[i..]| == |s| - i;
    assert s[i..e] == s[i..][..e - i] == [0x22] + Spelling(us);
    assert s[e] == s[i..][e - i] == 0x5C;
    AtQuote(s, i, Spelling(us), e);
    StepsOver(s, e);
    ReadsUnits(s, i + 1, us, n);
  }

  lemma StopsThere(s: seq<byte>, e: nat)
    requires At(s, e) == QUOTE || At(s, e) == 0
    ensures ScanEnd(s, e) == e && DecodeUntil(s, e, e) == Good([], e)
  {
  }

  lemma StepsOver(s: seq<byte>, e: nat)
    requires e + 1 == |s| && At(s, e) == BACKSLASH
    ensures ScanEnd(s, e) == e + 2 && DecodeUntil(s, e, e + 2) == Good([0], e + 2)
  {
    assert At(s, e + 1) == 0;
    assert DecodeUnit(s, e, e + 2) == Good([0], e + 2);
    assert [0] + [] == [0];
  }

  /** Four characters one of which is no hex digit are refused, wherever the escape begins the literal. */
  lemma RefusesNoDigit(s: seq<byte>, i: nat, k: nat)
    requires Occurs(s, i, [0x22, 0x5C, 0x75]) && k < 4 && NoDigit(At(s, i + 3 + k))
    ensures ParseString(s, i) == Err(i)
  {
    OccursAt(s, i, [0x22, 0x5C, 0x75], 0);
    OccursAt(s, i, [0x22, 0x5C, 0x75], 1);
    OccursAt(s, i, [0x22, 0x5C, 0x75], 2);
    NoDigitRefused(s, i + 3, k);
    ScanAheadTwo(s, i + 1);
    hide Hex4, ScanEnd;
  }

  lemma ScanAheadTwo(s: seq<byte>, p: nat)
    requires At(s, p) == BACKSLASH
    ensures ScanEnd(s, p) > p
  {
  }

  // No other literal is read

  lemma SliceIs(s: seq<byte>, p: nat, n: nat)
    requires p + n <= |s|
    ensures Occurs(s, p, s[p..p + n])
  {
  }

  /** A byte the scan passes over is inside the text; so is what an escape takes. */
  lemma ScanInside(s: seq<byte>, p: nat)
    requires p < ScanEnd(s, p) <= |s|
    ensures p < |s| && At(s, p) != 0 && At(s, p) != QUOTE
    ensures At(s, p) == BACKSLASH ==> p + 1 < |s| && ScanEnd(s, p) >= p + 2
  {
  }

  lemma HexInside(s: seq<byte>, p: nat)
    requires JsonUnescape.HexAt(s, p)
    ensures p + 4 <= |s| && Four(s, p) == s[p..p + 4]
  {
    assert HexValue(0) < 0;
  }

  /** What was accepted as a \u escape spells what it was read as. */
  lemma EscapeFound(s: seq<byte>, p: nat, end: nat) returns (u: Unit)
    requires At(s, p) == BACKSLASH && At(s, p + 1) == 0x75 && DecodeUnicode(s, p + 1, end).Good?
    ensures ValidUnit(u) && Occurs(s, p, u.spelling)
    ensures DecodeUnicode(s, p + 1, end) == Good(u.bytes, p + |u.spelling|)
  {
    hide Utf8.Decode, Utf8.Encode, Hex4, Occurs, SpellsWord, Four, JsonUnescape.HexAt;
    var r := DecodeUnicode(s, p + 1, end);
    var uc := Hex4(s, p + 2);
    JsonUnescape.UnicodeEscape(s, p + 1, end);
    Hex4Iff(s, p + 2, uc);
    HexInside(s, p + 2);
    var n := r.next - p;
    if Utf8.IsScalar(uc) {
      u := Unit(s[p..p + 6], r.bytes);
      SliceIs(s, p, 6);
      assert u.spelling[2..] == s[p + 2..p + 6] && u.spelling[..2] == [0x5C, 0x75];
      assert Wide(u);
    } else {
      var low := Hex4(s, p + 8);
      Hex4Iff(s, p + 8, low);
      HexInside(s, p + 8);
      u := Unit(s[p..p + 12], r.bytes);
      SliceIs(s, p, 12);
      assert u.spelling[..2] == u.spelling[6..8] == [0x5C, 0x75];
      assert u.spelling[2..6] == s[p + 2..p + 6] && u.spelling[8..] == s[p + 8..p + 12];
      HalvesOf(uc, low);
      assert Pair(u);
    }
  }

  lemma HalvesOf(high: nat, low: nat)
    requires 0xD800 <= high < 0xDC00 && 0xDC00 <= low < 0xE000
    ensures var cp := Utf8.FromPair(high, low);
            high == 0xD800 + (cp - 0x1_0000) / 1024 && low == 0xDC00 + (cp - 0x1_0000) % 1024
  {
  }

  lemma UnitFound(s: seq<byte>, p: nat, end: nat) returns (u: Unit)
    requires p < ScanEnd(s, p) == end <= |s| && DecodeUnit(s, p, end).Good? && NoNul(s)
    ensures ValidUnit(u) && Occurs(s, p, u.spelling)
    ensures DecodeUnit(s, p, end) == Good(u.bytes, p + |u.spelling|)
  {
    ScanInside(s, p);
    hide ScanEnd, DecodeUnicode;
    if At(s, p) != BACKSLASH {
      u := Unit([s[p]], [s[p]]);
      assert Plain(u);
    } else if At(s, p + 1) == 0x75 {
      u := EscapeFound(s, p, end);
    } else {
      u := Unit(s[p..p + 2], [Unescaped(s[p + 1])]);
      assert Short(u);
    }
  }

  /** The units of an accepted literal, from p to its end. */
  lemma {:induction false} UnitsFound(s: seq<byte>, p: nat, end: nat) returns (us: seq<Unit>)
    requires p <= ScanEnd(s, p) == end <= |s| && DecodeUntil(s, p, end).Good? && NoNul(s)
    ensures AllValid(us) && s[p..end] == Spelling(us)
    ensures DecodeUntil(s, p, end) == Good(Meaning(us), end)
    decreases end - p
  {
    hide DecodeUnit, ScanEnd, Occurs, ValidUnit;
    if p == end {
      us := [];
    } else {
      var u := UnitFound(s, p, end);
      JsonUnescape.UnitFitsScan(s, p);
      var q := p + |u.spelling|;
      JsonUnescape.ScanAhead(s, q);
      var rest := UnitsFound(s, q, end);
      us := [u] + rest;
      OneMore(u, rest);
      OccursSlice(s, p, q, end, u.spelling);
    }
  }

  /** The same for a literal whose scan stepped over the terminator. */
  lemma {:induction false} DanglingFound(s: seq<byte>, p: nat) returns (us: seq<Unit>)
    requires p <= |s| && ScanEnd(s, p) == |s| + 1 && DecodeUntil(s, p, |s| + 1).Good? && NoNul(s)
    ensures AllValid(us) && s[p..] == Spelling(us) + [0x5C]
    ensures DecodeUntil(s, p, |s| + 1) == Good(Meaning(us) + [0], |s| + 1)
    decreases |s| - p
  {
    hide DecodeUnit, Occurs, ValidUnit;
    if p + 1 == |s| {
      us := [];
      LastBackslash(s, p);
      assert Meaning(us) + [0] == [0];
    } else {
      hide ScanEnd;
      var u := DanglingUnit(s, p);
      JsonUnescape.UnitFitsScan(s, p);
      var q := p + |u.spelling|;
      OccursEnds(s, p, u.spelling);
      var rest := DanglingFound(s, q);
      us := [u] + rest;
      OneMore(u, rest);
      hide Spelling, Meaning;
      OccursSlice(s, p, q, |s|, u.spelling);
      assert u.bytes + (Meaning(rest) + [0]) == u.bytes + Meaning(rest) + [0];
      assert s[p..] == s[p..|s|] && s[q..] == s[q..|s|];
      assert s[p..] == u.spelling + (Spelling(rest) + [0x5C]) == u.spelling + Spelling(rest) + [0x5C];
    }
  }

  lemma OneMore(u: Unit, us: seq<Unit>)
    requires ValidUnit(u) && AllValid(us)
    ensures AllValid([u] + us)
    ensures Spelling([u] + us) == u.spelling + Spelling(us) && Meaning([u] + us) == u.bytes + Meaning(us)
  {
    hide ValidUnit;
    assert ([u] + us)[1..] == us;
  }

  lemma LastBackslash(s: seq<byte>, p: nat)
    requires p + 1 == |s| && ScanEnd(s, p) == |s| + 1
    ensures s[p] == 0x5C && s[p..] == [0x5C] && DecodeUntil(s, p, |s| + 1) == Good([0], |s| + 1)
  {
    StepsOver(s, p);
  }

  lemma DanglingUnit(s: seq<byte>, p: nat) returns (u: Unit)
    requires p + 1 < |s| && ScanEnd(s, p) == |s| + 1 && DecodeUnit(s, p, |s| + 1).Good? && NoNul(s)
    ensures ValidUnit(u) && Occurs(s, p, u.spelling)
    ensures DecodeUnit(s, p, |s| + 1) == Good(u.bytes, p + |u.spelling|)
  {
    ScanStarted(s, p);
    hide ScanEnd, DecodeUnicode;
    if At(s, p) != BACKSLASH {
      u := Unit([s[p]], [s[p]]);
      assert Plain(u);
    } else if At(s, p + 1) == 0x75 {
      u := EscapeFound(s, p, |s| + 1);
    } else {
      u := Unit(s[p..p + 2], [Unescaped(s[p + 1])]);
      assert Short(u);
    }
  }

  lemma ScanStarted(s: seq<byte>, p: nat)
    requires p < ScanEnd(s, p)
    ensures At(s, p) != 0 && At(s, p) != QUOTE
  {
  }

  lemma OccursEnds(s: seq<byte>, p: nat, t: seq<byte>)
    requires Occurs(s, p, t)
    ensures p + |t| <= |s|
  {
  }

  lemma OccursSlice(s: seq<byte>, p: nat, q: nat, end: nat, t: seq<byte>)
    requires Occurs(s, p, t) && q == p + |t| <= end <= |s|
    ensures s[p..end] == t + s[q..end]
  {
  }

  lemma {:induction false} ScanStops(s: seq<byte>, i: nat)
    ensures At(s, ScanEnd(s, i)) == QUOTE || At(s, ScanEnd(s, i)) == 0
    ensures i <= ScanEnd(s, i)
    decreases |s| - i
  {
    if At(s, i) != QUOTE && At(s, i) != 0 {
      ScanStops(s, if At(s, i) == BACKSLASH then i + 2 else i + 1);
    }
  }

  lemma OnlyLiterals(s: seq<byte>, i: nat, b: seq<byte>, n: nat)
    requires NoNul(s) && ParseString(s, i) == Ok(b, n)
    ensures Closed(s, i, b, n) || Unclosed(s, i, b, n) || Dangling(s, i, b, n)
  {
    hide DecodeUntil, ValidUnit, Spelling, Meaning;
    var end := ScanEnd(s, i + 1);
    ScanStops(s, i + 1);
    hide ScanEnd;
    if end > |s| {
      var us := DanglingFound(s, i + 1);
      assert s[i..] == [0x22] + s[i + 1..];
      assert [0x22] + (Spelling(us) + [0x5C]) == [0x22] + Spelling(us) + [0x5C];
      assert DanglingBy(s, i, b, n, us);
    } else {
      var us := UnitsFound(s, i + 1, end);
      assert s[i..end] == [0x22] + s[i + 1..end];
      if At(s, end) == QUOTE {
        assert s[i..n] == s[i..end] + [0x22];
        assert ClosedBy(s, i, b, n, us);
      } else {
        assert UnclosedBy(s, i, b, n, us);
      }
    }
  }

  /** Which strings are read, and as what, exactly: the literals made of units, each as their meaning;
      the same when the end of the text ends them; and those a last backslash leaves dangling. */
  lemma StringsExactly(s: seq<byte>, i: nat, b: seq<byte>, n: nat)
    requires NoNul(s)
    ensures ParseString(s, i) == Ok(b, n) <==> Closed(s, i, b, n) || Unclosed(s, i, b, n) || Dangling(s, i, b, n)
  {
    hide ParseString, ValidUnit, ClosedBy, UnclosedBy, DanglingBy;
    if ParseString(s, i) == Ok(b, n) { OnlyLiterals(s, i, b, n); }
    forall us | AllValid(us) && ClosedBy(s, i, b, n, us) ensures ParseString(s, i) == Ok(b, n) {
      ReadsClosed(s, i, b, n, us);
    }
    forall us | AllValid(us) && UnclosedBy(s, i, b, n, us) ensures ParseString(s, i) == Ok(b, n) {
      ReadsUnclosed(s, i, b, n, us);
    }
    forall us | AllValid(us) && DanglingBy(s, i, b, n, us) ensures ParseString(s, i) == Ok(b, n) {
      ReadsDangling(s, i, b, n, us);
    }
  }

  // Single escapes

  /** An escape of four digits, in any mix of cases, is read as the UTF-8 of the code point they spell. */
  lemma OneEscape(s: seq<byte>, i: nat, t: seq<byte>, cp: nat)
    requires 0 < cp < 0x1_0000 && Utf8.IsScalar(cp) && SpellsWord(t, cp)
    requires Occurs(s, i, [0x22, 0x5C, 0x75] + t + [0x22])
    ensures ParseString(s, i).Ok? && ParseString(s, i).next == i + 8
    ensures Utf8.Decode(ParseString(s, i).value) == cp
  {
    hide Utf8.Decode, Utf8.Encode, ParseString;
    assert |t| == 4;
    hide SpellsWord;
    Utf8.DecodeEncode(cp);
    var u := Unit([0x5C, 0x75] + t, Utf8.Encode(cp));
    assert u.spelling[2..] == t && Wide(u);
    OneUnit(u);
    assert [0x22] + u.spelling + [0x22] == [0x22, 0x5C, 0x75] + t + [0x22];
    ReadsClosed(s, i, u.bytes, i + 8, [u]);
  }

  /** A pair of escapes that spells the surrogates of a code point is read as its UTF-8. */
  lemma OnePair(s: seq<byte>, i: nat, t: seq<byte>, low: seq<byte>, cp: nat)
    requires 0x1_0000 <= cp < 0x11_0000
    requires SpellsWord(t, 0xD800 + (cp - 0x1_0000) / 1024) && SpellsWord(low, 0xDC00 + (cp - 0x1_0000) % 1024)
    requires Occurs(s, i, [0x22, 0x5C, 0x75] + t + [0x5C, 0x75] + low + [0x22])
    ensures ParseString(s, i).Ok? && ParseString(s, i).next == i + 14
    ensures Utf8.Decode(ParseString(s, i).value) == cp
  {
    hide Utf8.Decode, Utf8.Encode, ParseString;
    assert |t| == |low| == 4;
    hide SpellsWord;
    Utf8.DecodeEncode(cp);
    var u := Unit([0x5C, 0x75] + t + [0x5C, 0x75] + low, Utf8.Encode(cp));
    assert u.spelling[2..6] == t && u.spelling[8..] == low;
    assert u.spelling[..2] == u.spelling[6..8] == [0x5C, 0x75];
    assert Pair(u);
    OneUnit(u);
    assert [0x22] + u.spelling + [0x22] == [0x22, 0x5C, 0x75] + t + [0x5C, 0x75] + low + [0x22];
    ReadsClosed(s, i, u.bytes, i + 14, [u]);
  }

  lemma OneUnit(u: Unit)
    requires ValidUnit(u)
    ensures AllValid([u]) && Spelling([u]) == u.spelling && Meaning([u]) == u.bytes
  {
    hide ValidUnit;
    assert [u][1..] == [] && Spelling([]) == [] && Meaning([]) == [];
  }
}
