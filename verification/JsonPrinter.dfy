/** The plain printer of cJSON.c, which allocates a string per node and assembles them. */
module JsonPrinter {
  import opened Bytes
  import opened CStrings
  import opened JsonPieces
  import opened JsonText

  // No printed text contains a NUL, so string lengths are text lengths

  lemma {:induction false} EscapeNoNul(s: seq<byte>)
    requires NoNul(s)
    ensures NoNul(Escape(s))
    decreases |s|
  {
    if s != [] { EscapeNoNul(s[1..]); }
  }

  lemma {:induction false} DigitsNoNul(n: nat)
    ensures NoNul(Digits(n))
    decreases n
  {
    if n >= 10 { DigitsNoNul(n / 10); }
  }

  lemma LeafNoNul(v: Value, depth: nat, fmt: bool)
    requires !v.Array? && !v.Object? && v.Printable()
    ensures NoNul(Text(v, depth, fmt))
  {
    match v
    case Number(d) => DigitsNoNul(if d.Floor < 0 then -d.Floor else d.Floor);
    case Str(s) => EscapeNoNul(s);
    case _ =>
  }

  lemma {:induction false} TextNoNul(v: Value, depth: nat, fmt: bool)
    requires v.Printable()
    ensures NoNul(Text(v, depth, fmt))
    decreases v.Size(), 1
  {
    match v
    case Array(c) =>
      ItemsTextNoNul(c, depth + 1, fmt);
      ArrayNoNul(c, depth, fmt);
    case Object(c) =>
      MembersTextNoNul(c, depth + 1, fmt);
      ObjectNoNul(c, depth, fmt);
    case _ => LeafNoNul(v, depth, fmt);
  }

  lemma ArrayNoNul(c: Items, depth: nat, fmt: bool)
    requires c.Printable() && NoNul(ItemsText(c, depth + 1, fmt))
    ensures NoNul(Text(Array(c), depth, fmt))
  {
    hide ItemsText;
  }

  lemma ObjectNoNul(c: Members, depth: nat, fmt: bool)
    requires c.Printable() && NoNul(MembersText(c, depth + 1, fmt))
    ensures NoNul(Text(Object(c), depth, fmt))
  {
    var body := MembersText(c, depth + 1, fmt);
    assert NoNul(Opening(fmt)) && NoNul(Indent(depth, fmt)) && NoNul([CLOSE_BRACE]);
    hide MembersText, NoNul, Opening, Indent;
    NoNulConcat(Opening(fmt), body);
    NoNulConcat(Opening(fmt) + body, Indent(depth, fmt));
    NoNulConcat(Opening(fmt) + body + Indent(depth, fmt), [CLOSE_BRACE]);
  }

  lemma {:induction false} ItemsTextNoNul(c: Items, depth: nat, fmt: bool)
    requires c.Printable()
    ensures NoNul(ItemsText(c, depth, fmt))
    decreases c.Size(), 0
  {
    hide NoNul, Text;
    if c.NoItem? {
      NoBytes();
    } else {
      var gap := if c.next.NoItem? then [] else ItemGap(fmt);
      GapNoNul(gap);
      TextNoNul(c.value, depth, fmt);
      ItemsTextNoNul(c.next, depth, fmt);
      NoNulConcat(Text(c.value, depth, fmt), gap);
      NoNulConcat(Text(c.value, depth, fmt) + gap, ItemsText(c.next, depth, fmt));
    }
  }

  lemma NoBytes()
    ensures NoNul([])
  {
  }

  lemma GapNoNul(gap: seq<byte>)
    requires forall k :: 0 <= k < |gap| ==> gap[k] != 0
    ensures NoNul(gap)
  {
  }

  lemma {:induction false} MembersTextNoNul(c: Members, depth: nat, fmt: bool)
    requires c.Printable()
    ensures NoNul(MembersText(c, depth, fmt))
    decreases c.Size(), 0
  {
    hide NoNul, Text, Quoted;
    if c.NoMember? {
      NoBytes();
    } else {
      var indent, key, gap := Indent(depth, fmt), Quoted(c.key), KeyGap(fmt);
      var v, end := Text(c.value, depth, fmt), MemberEnd(c.next.NoMember?, fmt);
      GapNoNul(indent);
      GapNoNul(gap);
      GapNoNul(end);
      QuotedNoNul(c.key);
      TextNoNul(c.value, depth, fmt);
      MembersTextNoNul(c.next, depth, fmt);
      NoNulConcat(indent, key);
      NoNulConcat(indent + key, gap);
      NoNulConcat(indent + key + gap, v);
      NoNulConcat(indent + key + gap + v, end);
      NoNulConcat(indent + key + gap + v + end, MembersText(c.next, depth, fmt));
    }
  }

  lemma QuotedNoNul(s: seq<byte>)
    requires NoNul(s)
    ensures NoNul(Quoted(s))
  {
    EscapeNoNul(s);
    hide Escape;
  }

  // Strings

  /** The first pass of `print_string_ptr`: does anything need escaping? */
  method NeedsEscape(str: seq<byte>) returns (flag: bool)
    ensures flag || Escape(str) == str
  {
    flag := false;
    var ptr := 0;
    ghost var done := 0;
    while ptr < |str|
      invariant 0 <= ptr <= |str|
      invariant flag || forall k :: 0 <= k < ptr ==> EscapeByte(str[k]) == [str[k]]
    {
      flag := flag || str[ptr] < 32 || str[ptr] == QUOTE || str[ptr] == BACKSLASH;
      ptr := ptr + 1;
    }
    if !flag { EscapeNothing(str); }
  }

  lemma {:induction false} EscapeNothing(s: seq<byte>)
    requires forall k :: 0 <= k < |s| ==> EscapeByte(s[k]) == [s[k]]
    ensures Escape(s) == s
    decreases |s|
  {
    if s != [] {
      EscapeNothing(s[1..]);
      assert s == [s[0]] + s[1..];
    }
  }

  /** The counting pass. */
  method EscapedLength(str: seq<byte>) returns (len: nat)
    requires NoNul(str)
    ensures len == |Escape(str)|
  {
    len := 0;
    var ptr := 0;
    assert str[0..] == str;
    while ptr < |str|
      invariant 0 <= ptr <= |str| && len + |Escape(str[ptr..])| == |Escape(str)|
    {
      var token := str[ptr];
      assert str[ptr..][1..] == str[ptr + 1..];
      len := len + 1;
      if token == QUOTE || token == BACKSLASH || token == 0x08 || token == 0x0C || token == 0x0A || token == 0x0D
        || token == 0x09 {
        len := len + 1;
      } else if token < 32 {
        len := len + 5;
      }
      ptr := ptr + 1;
    }
  }

  /** The branch for strings that need no escaping. */
  method FillPlain(out: array<byte>, at: nat, str: seq<byte>)
    requires at + |str| + 3 <= out.Length && Escape(str) == str
    modifies out
    ensures out[..at + |Quoted(str)|] == old(out[..at]) + Quoted(str) && out[at + |Quoted(str)|] == 0
  {
    hide Escape;
    ghost var before := out[..at];
    out[at] := QUOTE;
    assert out[..at + 1] == before + [QUOTE];
    StrCpy(out, at + 1, str);
    assert out[..at + 1 + |str|] == before + [QUOTE] + str;
    out[at + 1 + |str|] := QUOTE;
    out[at + 1 + |str| + 1] := 0;
    assert out[..at + 2 + |str|] == before + [QUOTE] + str + [QUOTE];
    assert before + [QUOTE] + str + [QUOTE] == before + Quoted(str);
  }

  /** One turn of the escaping loop. */
  method FillByte(out: array<byte>, at: nat, token: byte) returns (ptr2: nat)
    requires token != 0 && at + |EscapeByte(token)| < out.Length
    modifies out
    ensures ptr2 == at + |EscapeByte(token)| && out[..ptr2] == old(out[..at]) + EscapeByte(token)
  {
    ptr2 := at;
    if token > 31 && token != QUOTE && token != BACKSLASH {
      out[ptr2] := token;
      ptr2 := ptr2 + 1;
    } else {
      out[ptr2] := BACKSLASH;
      ptr2 := ptr2 + 1;
      if token == BACKSLASH {
        out[ptr2] := BACKSLASH;
        ptr2 := ptr2 + 1;
      } else if token == QUOTE {
        out[ptr2] := QUOTE;
        ptr2 := ptr2 + 1;
      } else if token == 0x08 {
        out[ptr2] := 0x62;
        ptr2 := ptr2 + 1;
      } else if token == 0x0C {
        out[ptr2] := 0x66;
        ptr2 := ptr2 + 1;
      } else if token == 0x0A {
        out[ptr2] := 0x6E;
        ptr2 := ptr2 + 1;
      } else if token == 0x0D {
        out[ptr2] := 0x72;
        ptr2 := ptr2 + 1;
      } else if token == 0x09 {
        out[ptr2] := 0x74;
        ptr2 := ptr2 + 1;
      } else {
        StrCpy(out, ptr2, [0x75, 0x30, 0x30, HexDigit(token / 16), HexDigit(token % 16)]);
        ptr2 := ptr2 + 5;
      }
    }
  }

  /** The escaping loop. */
  method FillEscapes(out: array<byte>, at: nat, str: seq<byte>) returns (ptr2: nat)
    requires NoNul(str) && at + |Escape(str)| < out.Length
    modifies out
    ensures ptr2 == at + |Escape(str)| && out[..ptr2] == old(out[..at]) + Escape(str)
  {
    hide EscapeByte, Escape;
    ghost var before := out[..at];
    ptr2 := at;
    var ptr := 0;
    assert str[0..] == str;
    while ptr < |str|
      invariant 0 <= ptr <= |str| && ptr2 + |Escape(str[ptr..])| == at + |Escape(str)|
      invariant out[..ptr2] + Escape(str[ptr..]) == before + Escape(str)
    {
      EscapeStep(str, ptr, out[..ptr2]);
      ptr2 := FillByte(out, ptr2, str[ptr]);
      ptr := ptr + 1;
    }
    EscapeEnd(str, ptr, out[..ptr2]);
  }

  lemma EscapeStep(str: seq<byte>, ptr: nat, done: seq<byte>)
    requires ptr < |str|
    ensures done + Escape(str[ptr..]) == done + EscapeByte(str[ptr]) + Escape(str[ptr + 1..])
    ensures |Escape(str[ptr..])| == |EscapeByte(str[ptr])| + |Escape(str[ptr + 1..])|
  {
    hide EscapeByte;
    assert str[ptr..][1..] == str[ptr + 1..];
  }

  lemma EscapeEnd(str: seq<byte>, ptr: nat, done: seq<byte>)
    requires ptr == |str|
    ensures done + Escape(str[ptr..]) == done && |Escape(str[ptr..])| == 0
  {
  }

  /** The branch for strings that need escaping. */
  method FillEscaped(out: array<byte>, at: nat, str: seq<byte>)
    requires NoNul(str) && at + |Escape(str)| + 3 <= out.Length
    modifies out
    ensures out[..at + |Quoted(str)|] == old(out[..at]) + Quoted(str) && out[at + |Quoted(str)|] == 0
  {
    hide Escape;
    ghost var before := out[..at];
    out[at] := QUOTE;
    assert out[..at + 1] == before + [QUOTE];
    var ptr2 := FillEscapes(out, at + 1, str);
    out[ptr2] := QUOTE;
    out[ptr2 + 1] := 0;
    assert out[..ptr2 + 1] == before + [QUOTE] + Escape(str) + [QUOTE];
    assert before + [QUOTE] + Escape(str) + [QUOTE] == before + Quoted(str);
  }

  /** `print_string_ptr(str, 0)` for a non-null string. */
  method PrintString(str: seq<byte>) returns (out: array<byte>)
    requires NoNul(str)
    ensures fresh(out) && Holds(out, Quoted(str))
  {
    hide Escape;
    var flag := NeedsEscape(str);
    if !flag {
      out := new byte[|str| + 3];
      FillPlain(out, 0, str);
    } else {
      var len := EscapedLength(str);
      out := new byte[len + 3];
      FillEscaped(out, 0, str);
    }
  }

  // Numbers

  lemma {:induction false} DigitsBound(n: nat, k: nat, power: nat)
    requires n < power * 10 && k >= 1 && PowerOfTen(k - 1) == power
    ensures |Digits(n)| <= k
    decreases k
  {
    if n >= 10 {
      DigitsBound(n / 10, k - 1, PowerOfTen(k - 2));
    }
  }

  function PowerOfTen(k: nat): nat {
    if k == 0 then 1 else 10 * PowerOfTen(k - 1)
  }

  /** The 21 characters set aside for a number are enough for any 32-bit one and its NUL. */
  lemma DecimalFits(d: real)
    requires IsInt32(d)
    ensures 1 <= |Decimal(d.Floor)| <= 11
    ensures d == 0.0 ==> Decimal(d.Floor) == [0x30]
  {
    assert PowerOfTen(9) == 1000000000;
    DigitsBound(if d.Floor < 0 then -d.Floor else d.Floor, 10, PowerOfTen(9));
  }

  method PrintNumber(d: real) returns (out: array<byte>)
    requires IsInt32(d)
    ensures fresh(out) && Holds(out, Decimal(d.Floor))
  {
    DecimalFits(d);
    if d == 0.0 {
      out := new byte[2];
      StrCpy(out, 0, [0x30]);
    } else {
      out := new byte[21];
      StrCpy(out, 0, Decimal(d.Floor));
    }
  }

  // Lists of strings

  ghost predicate AllHold(entries: seq<array<byte>>, ts: seq<seq<byte>>)
    reads entries
  {
    |entries| == |ts| && forall k :: 0 <= k < |ts| ==> Holds(entries[k], ts[k])
  }

  /** What the first loop of `print_array` adds up: per entry, its length and `each`. */
  ghost function Room(ts: seq<seq<byte>>, each: nat): nat {
    if ts == [] then 0 else Room(ts[..|ts| - 1], each) + |ts[|ts| - 1]| + each
  }

  lemma RoomNext(ts: seq<seq<byte>>, i: nat, each: nat)
    requires i < |ts|
    ensures Room(ts[..i + 1], each) == Room(ts[..i], each) + |ts[i]| + each
  {
    assert ts[..i + 1][..i] == ts[..i];
  }

  lemma {:induction false} RoomMonotonic(ts: seq<seq<byte>>, i: nat, each: nat)
    requires i <= |ts|
    ensures Room(ts[..i], each) <= Room(ts, each)
    decreases |ts| - i
  {
    if i < |ts| {
      RoomNext(ts, i, each);
      RoomMonotonic(ts, i + 1, each);
    } else {
      assert ts[..i] == ts;
    }
  }

  method PrintValue(v: Value, depth: nat, fmt: bool) returns (out: array<byte>)
    requires v.Printable()
    ensures fresh(out) && Holds(out, Text(v, depth, fmt))
    decreases v.Size(), 1
  {
    hide ItemsText, MembersText, Quoted;
    match v
    case Null =>
      out := new byte[5];
      StrCpy(out, 0, NULL_TEXT);
    case False =>
      out := new byte[6];
      StrCpy(out, 0, FALSE_TEXT);
    case True =>
      out := new byte[5];
      StrCpy(out, 0, TRUE_TEXT);
    case Number(d) => out := PrintNumber(d);
    case Str(s) => out := PrintString(s);
    case Array(c) => out := PrintArray(c, depth, fmt);
    case Object(c) => out := PrintObject(c, depth, fmt);
  }

  lemma RoomAppend(ts: seq<seq<byte>>, t: seq<byte>, each: nat)
    ensures Room(ts + [t], each) == Room(ts, each) + |t| + each
  {
    assert (ts + [t])[..|ts|] == ts;
  }

  lemma AppendHolds(entries: seq<array<byte>>, ts: seq<seq<byte>>, a: array<byte>, t: seq<byte>)
    requires AllHold(entries, ts) && Holds(a, t)
    ensures AllHold(entries + [a], ts + [t])
  {
  }

  lemma ItemTextsStep(c: Items, depth: nat, fmt: bool, ts: seq<seq<byte>>)
    requires c.Item? && c.Printable()
    ensures ts + ItemTexts(c, depth, fmt)
         == ts + [Text(c.value, depth, fmt)] + ItemTexts(c.next, depth, fmt)
  {
    hide Text;
  }

  /** The entries of an array, and the length the code reserves for them. */
  method PrintItems(c: Items, depth: nat, fmt: bool) returns (entries: seq<array<byte>>, len: nat)
    requires c.Printable()
    ensures AllHold(entries, ItemTexts(c, depth, fmt))
    ensures len == 5 + Room(ItemTexts(c, depth, fmt), if fmt then 3 else 2)
    decreases c.Size(), 1
  {
    hide Text, ItemTexts, NoNul;
    entries, len := [], 5;
    var child := c;
    ghost var ts: seq<seq<byte>> := [];
    assert Room(ts, if fmt then 3 else 2) == 0 && [] + ItemTexts(c, depth, fmt) == ItemTexts(c, depth, fmt);
    hide Room;
    while child.Item?
      invariant child.Printable() && child.Size() <= c.Size()
      invariant ItemTexts(c, depth, fmt) == ts + ItemTexts(child, depth, fmt)
      invariant AllHold(entries, ts) && len == 5 + Room(ts, if fmt then 3 else 2)
      decreases child.Size()
    {
      var ret := PrintValue(child.value, depth, fmt);
      ghost var t := Text(child.value, depth, fmt);
      TextNoNul(child.value, depth, fmt);
      var n := TextLength(ret, t);
      len := len + n + 2 + if fmt then 1 else 0;
      AppendHolds(entries, ts, ret, t);
      RoomAppend(ts, t, if fmt then 3 else 2);
      ItemTextsStep(child, depth, fmt, ts);
      entries, ts := entries + [ret], ts + [t];
      child := child.next;
    }
    ItemTextsEnd(depth, fmt, ts);
  }

  lemma ItemTextsEnd(depth: nat, fmt: bool, ts: seq<seq<byte>>)
    ensures ts + ItemTexts(NoItem, depth, fmt) == ts
  {
  }

  /** `os_strlen` of a printed string. */
  method TextLength(a: array<byte>, ghost t: seq<byte>) returns (n: nat)
    requires Holds(a, t) && NoNul(t)
    ensures n == |t|
  {
    forall k | 0 <= k < |t| ensures a[k] != 0 { assert a[..|t|][k] == t[k]; }
    n := StrLen(a, 0, |t|);
  }

  ghost predicate AllNoNul(ts: seq<seq<byte>>) {
    forall k :: 0 <= k < |ts| ==> NoNul(ts[k])
  }

  lemma {:induction false} ItemTextsNoNul(c: Items, depth: nat, fmt: bool)
    requires c.Printable()
    ensures AllNoNul(ItemTexts(c, depth, fmt))
    decreases c.Size()
  {
    if c.Item? {
      hide Text;
      TextNoNul(c.value, depth, fmt);
      ItemTextsNoNul(c.next, depth, fmt);
    }
  }

  /** One turn of the assembly loop of `print_array`. */
  method AddItem(out: array<byte>, at: nat, entry: array<byte>, last: bool, fmt: bool, ghost t: seq<byte>)
    returns (ptr: nat)
    requires out != entry && Holds(entry, t) && NoNul(t)
    requires at + |t| + 3 <= out.Length
    modifies out
    ensures ptr == at + |t| + |if last then [] else ItemGap(fmt)|
    ensures out[..ptr] == old(out[..at]) + (t + if last then [] else ItemGap(fmt))
  {
    ghost var before := out[..at];
    var tmplen := TextLength(entry, t);
    ptr := Copy(out, at, entry[..tmplen]);
    if !last {
      out[ptr] := COMMA;
      ptr := ptr + 1;
      assert out[..ptr] == before + t + [COMMA];
      if fmt {
        out[ptr] := SPACE;
        ptr := ptr + 1;
        assert out[..ptr] == before + t + [COMMA] + [SPACE];
      }
      out[ptr] := 0;
    }
    assert before + (t + if last then [] else ItemGap(fmt)) == before + t + if last then [] else ItemGap(fmt);
  }

  /** The assembly of an array from its entries; `len` is what the first loop reserved. */
  method AssembleItems(entries: seq<array<byte>>, len: nat, fmt: bool, ghost ts: seq<seq<byte>>)
    returns (out: array<byte>)
    requires AllHold(entries, ts) && AllNoNul(ts)
    requires len == 5 + Room(ts, if fmt then 3 else 2)
    ensures fresh(out) && Holds(out, [OPEN_BRACKET] + Concat(ItemPieces(ts, fmt)) + [CLOSE_BRACKET])
  {
    hide Room, Concat, ItemPieces;
    ghost var each, pieces := if fmt then 3 else 2, ItemPieces(ts, fmt);
    RoomNone(ts, each);
    PiecesSize(ts, fmt);
    out := new byte[len];
    out[0] := OPEN_BRACKET;
    var ptr := 1;
    out[ptr] := 0;
    var i := 0;
    while i < |entries|
      invariant 0 <= i <= |entries| && 0 <= ptr <= 1 + Room(ts[..i], each) <= 1 + Room(ts, each)
      invariant out[..ptr] == [OPEN_BRACKET] + Concat(pieces[..i])
      invariant AllHold(entries, ts)
    {
      RoomNext(ts, i, each);
      RoomMonotonic(ts, i + 1, each);
      ConcatNext(pieces, i);
      PieceOf(ts, i, fmt);
      ghost var done := out[..ptr];
      ptr := AddItem(out, ptr, entries[i], i == |entries| - 1, fmt, ts[i]);
      assert done + pieces[i] == [OPEN_BRACKET] + (Concat(pieces[..i]) + pieces[i]);
      i := i + 1;
    }
    assert pieces[..i] == pieces;
    out[ptr] := CLOSE_BRACKET;
    out[ptr + 1] := 0;
    assert out[..ptr + 1] == [OPEN_BRACKET] + Concat(pieces) + [CLOSE_BRACKET];
  }

  lemma RoomNone(ts: seq<seq<byte>>, each: nat)
    ensures Room(ts[..0], each) == 0 <= Room(ts, each) && Concat(ts[..0]) == []
  {
    RoomMonotonic(ts, 0, each);
  }

  lemma PiecesSize(ts: seq<seq<byte>>, fmt: bool)
    ensures |ItemPieces(ts, fmt)| == |ts| && Concat(ItemPieces(ts, fmt)[..0]) == []
  {
  }

  lemma PieceOf(ts: seq<seq<byte>>, i: nat, fmt: bool)
    requires i < |ts|
    ensures |ItemPieces(ts, fmt)| == |ts|
    ensures ItemPieces(ts, fmt)[i] == ts[i] + if i == |ts| - 1 then [] else ItemGap(fmt)
  {
  }

  method PrintArray(c: Items, depth: nat, fmt: bool) returns (out: array<byte>)
    requires c.Printable()
    ensures fresh(out) && Holds(out, Text(Array(c), depth, fmt))
    decreases c.Size(), 2
  {
    hide ItemsText, ItemTexts;
    assert Text(Array(c), depth, fmt) == [OPEN_BRACKET] + ItemsText(c, depth + 1, fmt) + [CLOSE_BRACKET];
    ItemsTextPieces(c, depth + 1, fmt);
    if c.NoItem? {
      NoItemsText(depth + 1, fmt);
      out := new byte[3];
      StrCpy(out, 0, [OPEN_BRACKET, CLOSE_BRACKET]);
    } else {
      ItemTextsNoNul(c, depth + 1, fmt);
      var entries, len := PrintItems(c, depth + 1, fmt);
      out := AssembleItems(entries, len, fmt, ItemTexts(c, depth + 1, fmt));
    }
  }

  lemma NoItemsText(depth: nat, fmt: bool)
    ensures ItemsText(NoItem, depth, fmt) == []
  {
  }

  // Objects

  /** Writes n tabs. */
  method AddTabs(out: array<byte>, at: nat, n: nat) returns (ptr: nat)
    requires at + n <= out.Length
    modifies out
    ensures ptr == at + n && out[..ptr] == old(out[..at]) + Tabs(n)
  {
    ghost var before := out[..at];
    ptr := at;
    var j := 0;
    while j < n
      invariant 0 <= j <= n && ptr == at + j && out[..ptr] == before + Tabs(j)
    {
      out[ptr] := TAB;
      ptr, j := ptr + 1, j + 1;
    }
  }

  lemma {:induction false} EntriesNoNul(c: Members, depth: nat, fmt: bool)
    requires c.Printable()
    ensures AllNoNul(Entries(c, depth, fmt)) && AllNoNul(Names(c))
    decreases c.Size()
  {
    if c.Member? {
      hide Text, Quoted;
      TextNoNul(c.value, depth, fmt);
      QuotedNoNul(c.key);
      EntriesNoNul(c.next, depth, fmt);
    }
  }

  lemma MemberTextsStep(c: Members, depth: nat, fmt: bool, ns: seq<seq<byte>>, ts: seq<seq<byte>>)
    requires c.Member? && c.Printable()
    ensures ns + Names(c) == ns + [Quoted(c.key)] + Names(c.next)
    ensures ts + Entries(c, depth, fmt) == ts + [Text(c.value, depth, fmt)] + Entries(c.next, depth, fmt)
  {
    hide Text, Quoted;
  }

  lemma MemberTextsEnd(depth: nat, fmt: bool, ns: seq<seq<byte>>, ts: seq<seq<byte>>)
    ensures ns + Names(NoMember) == ns && ts + Entries(NoMember, depth, fmt) == ts
  {
  }

  /** The names and entries of an object, and the length the code reserves for them; `depth` is
      the one the members are printed at. */
  method PrintMembers(c: Members, depth: nat, fmt: bool)
    returns (names: seq<array<byte>>, entries: seq<array<byte>>, len: nat)
    requires c.Printable()
    ensures AllHold(names, Names(c)) && AllHold(entries, Entries(c, depth, fmt))
    ensures len == 7 + (if fmt then depth else 0)
                     + Room(Names(c), 0) + Room(Entries(c, depth, fmt), if fmt then 4 + depth else 2)
    decreases c.Size(), 1
  {
    hide Text, Quoted, Names, Entries, NoNul;
    ghost var each := if fmt then 4 + depth else 2;
    names, entries, len := [], [], 7;
    var child := c;
    if fmt { len := len + depth; }
    ghost var ns: seq<seq<byte>>, ts: seq<seq<byte>> := [], [];
    assert Room(ns, 0) == 0 == Room(ts, each);
    assert [] + Names(c) == Names(c) && [] + Entries(c, depth, fmt) == Entries(c, depth, fmt);
    hide Room;
    while child.Member?
      invariant child.Printable() && child.Size() <= c.Size()
      invariant Names(c) == ns + Names(child) && Entries(c, depth, fmt) == ts + Entries(child, depth, fmt)
      invariant AllHold(names, ns) && AllHold(entries, ts)
      invariant len == 7 + (if fmt then depth else 0) + Room(ns, 0) + Room(ts, each)
      decreases child.Size()
    {
      ghost var n, t := Quoted(child.key), Text(child.value, depth, fmt);
      QuotedNoNul(child.key);
      TextNoNul(child.value, depth, fmt);
      var str := PrintString(child.key);
      var ret := PrintValue(child.value, depth, fmt);
      var retLen := TextLength(ret, t);
      var strLen := TextLength(str, n);
      len := len + retLen + strLen + 2 + if fmt then 2 + depth else 0;
      AppendHolds(names, ns, str, n);
      AppendHolds(entries, ts, ret, t);
      RoomAppend(ns, n, 0);
      RoomAppend(ts, t, each);
      MemberTextsStep(child, depth, fmt, ns, ts);
      names, entries, ns, ts := names + [str], entries + [ret], ns + [n], ts + [t];
      child := child.next;
    }
    MemberTextsEnd(depth, fmt, ns, ts);
  }

  /** The first half of a turn of the assembly loop of `print_object`: indentation, name and colon. */
  method AddName(out: array<byte>, at: nat, name: array<byte>, depth: nat, fmt: bool, ghost n: seq<byte>)
    returns (ptr: nat)
    requires out != name && Holds(name, n) && NoNul(n)
    requires at + |n| + (if fmt then 2 + depth else 1) <= out.Length
    modifies out
    ensures ptr == at + |n| + if fmt then 2 + depth else 1
    ensures out[..ptr] == old(out[..at]) + Indent(depth, fmt) + n + KeyGap(fmt)
  {
    ghost var before := out[..at];
    ptr := at;
    if fmt { ptr := AddTabs(out, ptr, depth); }
    assert out[..ptr] == before + Indent(depth, fmt);
    ghost var indented := out[..ptr];
    hide Indent;
    var tmplen := TextLength(name, n);
    ptr := Copy(out, ptr, name[..tmplen]);
    ghost var named := indented + n;
    out[ptr] := COLON;
    ptr := ptr + 1;
    assert out[..ptr] == named + [COLON];
    if fmt {
      out[ptr] := TAB;
      ptr := ptr + 1;
      assert out[..ptr] == named + [COLON, TAB];
    }
  }

  /** The second half: the entry, a comma unless it is the last, and the line end. */
  method AddEntry(out: array<byte>, at: nat, entry: array<byte>, last: bool, fmt: bool, ghost t: seq<byte>)
    returns (ptr: nat)
    requires out != entry && Holds(entry, t) && NoNul(t)
    requires at + |t| + 2 < out.Length
    modifies out
    ensures at + |t| <= ptr <= at + |t| + if fmt then 2 else 1
    ensures out[..ptr] == old(out[..at]) + t + MemberEnd(last, fmt)
  {
    ghost var before := out[..at];
    var tmplen := TextLength(entry, t);
    StrCpy(out, at, entry[..tmplen]);
    ptr := at + tmplen;
    ghost var written := out[..ptr];
    if !last {
      out[ptr] := COMMA;
      ptr := ptr + 1;
    }
    assert out[..ptr] == written + if last then [] else [COMMA];
    if fmt {
      out[ptr] := NEWLINE;
      ptr := ptr + 1;
    }
    out[ptr] := 0;
    assert out[..ptr] == written + MemberEnd(last, fmt);
  }

  method AddMember(out: array<byte>, at: nat, name: array<byte>, entry: array<byte>, last: bool, depth: nat, fmt: bool,
                   ghost n: seq<byte>, ghost t: seq<byte>) returns (ptr: nat)
    requires out != entry && out != name && Holds(entry, t) && NoNul(t) && Holds(name, n) && NoNul(n)
    requires at + |n| + |t| + (if fmt then 4 + depth else 3) < out.Length
    modifies out
    ensures at <= ptr <= at + |n| + |t| + if fmt then 4 + depth else 2
    ensures out[..ptr]
         == old(out[..at]) + (Indent(depth, fmt) + n + KeyGap(fmt) + t + MemberEnd(last, fmt))
  {
    hide Indent, KeyGap, MemberEnd, NoNul;
    ghost var before := out[..at];
    ptr := AddName(out, at, name, depth, fmt, n);
    ptr := AddEntry(out, ptr, entry, last, fmt, t);
    Regroup(before, Indent(depth, fmt), n, KeyGap(fmt), t, MemberEnd(last, fmt));
  }

  lemma Regroup(a: seq<byte>, b: seq<byte>, c: seq<byte>, d: seq<byte>, e: seq<byte>, f: seq<byte>)
    ensures a + b + c + d + e + f == a + (b + c + d + e + f)
  {
  }

  lemma MemberPieceOf(ns: seq<seq<byte>>, ts: seq<seq<byte>>, i: nat, depth: nat, fmt: bool)
    requires i < |ts| == |ns|
    ensures |MemberPieces(ns, ts, depth, fmt)| == |ts|
    ensures MemberPieces(ns, ts, depth, fmt)[i] == MemberPiece(ns, ts, i, depth, fmt)
  {
  }

  lemma MemberPiecesSize(ns: seq<seq<byte>>, ts: seq<seq<byte>>, depth: nat, fmt: bool)
    requires |ts| == |ns|
    ensures |MemberPieces(ns, ts, depth, fmt)| == |ts| && Concat(MemberPieces(ns, ts, depth, fmt)[..0]) == []
  {
  }

  /** The assembly loop of `print_object`. */
  method AddMembers(
    out: array<byte>, at: nat, names: seq<array<byte>>, entries: seq<array<byte>>, depth: nat, fmt: bool,
    ghost ns: seq<seq<byte>>, ghost ts: seq<seq<byte>>)
    returns (ptr: nat)
    requires AllHold(names, ns) && AllHold(entries, ts) && AllNoNul(ns) && AllNoNul(ts) && |ns| == |ts|
    requires out !in names && out !in entries
    requires at + Room(ns, 0) + Room(ts, if fmt then 4 + depth else 2) + 2 <= out.Length
    modifies out
    ensures ptr <= at + Room(ns, 0) + Room(ts, if fmt then 4 + depth else 2)
    ensures out[..ptr] == old(out[..at]) + Concat(MemberPieces(ns, ts, depth, fmt))
  {
    ghost var each, pieces := if fmt then 4 + depth else 2, MemberPieces(ns, ts, depth, fmt);
    ghost var before := out[..at];
    assert |names| == |ns| == |entries| == |ts| == |pieces|;
    hide Room, Concat, MemberPieces, MemberPiece, Indent, NoNul, AllHold, AllNoNul, KeyGap, MemberEnd;
    RoomNone(ts, each);
    RoomNone(ns, 0);
    MemberPiecesSize(ns, ts, depth, fmt);
    ptr := at;
    var i := 0;
    while i < |entries|
      invariant 0 <= i <= |entries|
      invariant ptr <= at + Room(ns[..i], 0) + Room(ts[..i], each) && ptr <= out.Length
      invariant out[..ptr] == before + Concat(pieces[..i])
      invariant AllHold(names, ns) && AllHold(entries, ts)
    {
      ptr := AddMemberAt(out, at, ptr, names, entries, i, depth, fmt, ns, ts, before);
      i := i + 1;
    }
    assert pieces[..i] == pieces && ns[..i] == ns && ts[..i] == ts;
  }

  method AddMemberAt(out: array<byte>, at: nat, from: nat, names: seq<array<byte>>, entries: seq<array<byte>>, i: nat,
                     depth: nat, fmt: bool, ghost ns: seq<seq<byte>>, ghost ts: seq<seq<byte>>, ghost before: seq<byte>)
    returns (ptr: nat)
    requires AllHold(names, ns) && AllHold(entries, ts) && AllNoNul(ns) && AllNoNul(ts) && |ns| == |ts| && i < |ts|
    requires out !in names && out !in entries
    requires at + Room(ns, 0) + Room(ts, if fmt then 4 + depth else 2) + 2 <= out.Length
    requires from <= at + Room(ns[..i], 0) + Room(ts[..i], if fmt then 4 + depth else 2)
    requires from <= out.Length && out[..from] == before + Concat(MemberPieces(ns, ts, depth, fmt)[..i])
    modifies out
    ensures AllHold(names, ns) && AllHold(entries, ts)
    ensures ptr <= at + Room(ns[..i + 1], 0) + Room(ts[..i + 1], if fmt then 4 + depth else 2)
    ensures ptr <= out.Length && out[..ptr] == before + Concat(MemberPieces(ns, ts, depth, fmt)[..i + 1])
  {
    ghost var each, pieces := if fmt then 4 + depth else 2, MemberPieces(ns, ts, depth, fmt);
    HeldAt(names, ns, i);
    HeldAt(entries, ts, i);
    assert names[i] != out && entries[i] != out;
    hide Room, Concat, MemberPieces, MemberPiece, Indent, NoNul, AllNoNul, KeyGap, MemberEnd;
    RoomNext(ns, i, 0);
    RoomNext(ts, i, each);
    RoomMonotonic(ns, i + 1, 0);
    RoomMonotonic(ts, i + 1, each);
    ConcatNext(pieces, i);
    MemberPieceOf(ns, ts, i, depth, fmt);
    PieceUnfolds(ns, ts, i, depth, fmt);
    ptr := AddMember(out, from, names[i], entries[i], i == |entries| - 1, depth, fmt, ns[i], ts[i]);
    Associate(before, Concat(pieces[..i]), pieces[i]);
  }

  lemma Associate(a: seq<byte>, b: seq<byte>, c: seq<byte>)
    ensures a + b + c == a + (b + c)
  {
  }

  /** The assembly of an object; `depth` is the one its members are printed at. */
  method AssembleMembers(names: seq<array<byte>>, entries: seq<array<byte>>, len: nat, depth: nat, fmt: bool,
                         ghost ns: seq<seq<byte>>, ghost ts: seq<seq<byte>>) returns (out: array<byte>)
    requires AllHold(names, ns) && AllHold(entries, ts) && AllNoNul(ns) && AllNoNul(ts)
    requires depth >= 1 && |ns| == |ts|
    requires len == 7 + (if fmt then depth else 0) + Room(ns, 0) + Room(ts, if fmt then 4 + depth else 2)
    ensures fresh(out)
    ensures Holds(out, Opening(fmt) + Concat(MemberPieces(ns, ts, depth, fmt)) + Indent(depth - 1, fmt) + [CLOSE_BRACE])
  {
    hide Room, Concat, MemberPieces, Indent, AllNoNul;
    out := new byte[len];
    var ptr := OpenObject(out, fmt);
    ptr := AddMembers(out, ptr, names, entries, depth, fmt, ns, ts);
    CloseObject(out, ptr, depth - 1, fmt);
  }

  lemma HeldAt(entries: seq<array<byte>>, ts: seq<seq<byte>>, i: nat)
    requires AllHold(entries, ts) && AllNoNul(ts) && i < |ts|
    ensures |entries| == |ts| && Holds(entries[i], ts[i]) && NoNul(ts[i])
  {
  }

  lemma PieceUnfolds(ns: seq<seq<byte>>, ts: seq<seq<byte>>, i: nat, depth: nat, fmt: bool)
    requires i < |ts| == |ns|
    ensures MemberPiece(ns, ts, i, depth, fmt)
         == Indent(depth, fmt) + ns[i] + KeyGap(fmt) + ts[i] + MemberEnd(i == |ts| - 1, fmt)
  {
  }

  method OpenObject(out: array<byte>, fmt: bool) returns (ptr: nat)
    requires out.Length > 2
    modifies out
    ensures ptr == |Opening(fmt)| && out[..ptr] == Opening(fmt)
  {
    out[0] := OPEN_BRACE;
    ptr := 1;
    if fmt {
      out[ptr] := NEWLINE;
      ptr := ptr + 1;
    }
    out[ptr] := 0;
  }

  method CloseObject(out: array<byte>, at: nat, depth: nat, fmt: bool)
    requires at + (if fmt then depth else 0) + 1 < out.Length
    modifies out
    ensures Holds(out, old(out[..at]) + Indent(depth, fmt) + [CLOSE_BRACE])
  {
    ghost var before := out[..at];
    var ptr := at;
    if fmt { ptr := AddTabs(out, ptr, depth); }
    assert out[..ptr] == before + Indent(depth, fmt);
    out[ptr] := CLOSE_BRACE;
    out[ptr + 1] := 0;
    assert out[..ptr + 1] == before + Indent(depth, fmt) + [CLOSE_BRACE];
  }

  lemma ObjectTextIs(c: Members, depth: nat, fmt: bool)
    requires c.Printable()
    ensures Text(Object(c), depth, fmt)
         == Opening(fmt) + MembersText(c, depth + 1, fmt) + Indent(depth, fmt) + [CLOSE_BRACE]
  {
    hide MembersText;
  }

  method PrintEmptyObject(depth: nat, fmt: bool) returns (out: array<byte>)
    ensures fresh(out) && Holds(out, Opening(fmt) + Indent(depth, fmt) + [CLOSE_BRACE])
  {
    hide Indent;
    out := new byte[if fmt then depth + 4 else 3];
    var ptr := OpenObject(out, fmt);
    CloseObject(out, ptr, depth, fmt);
  }

  method PrintObject(c: Members, depth: nat, fmt: bool) returns (out: array<byte>)
    requires c.Printable()
    ensures fresh(out) && Holds(out, Text(Object(c), depth, fmt))
    decreases c.Size(), 2
  {
    hide MembersText, Names, Entries, Indent, Text, Holds, AllHold, AllNoNul, Opening;
    ObjectTextIs(c, depth, fmt);
    if c.NoMember? {
      NoMembersText(depth + 1, fmt);
      assert Opening(fmt) + [] == Opening(fmt);
      out := PrintEmptyObject(depth, fmt);
    } else {
      MembersTextPieces(c, depth + 1, fmt);
      EntriesNoNul(c, depth + 1, fmt);
      var names, entries, len := PrintMembers(c, depth + 1, fmt);
      out := AssembleMembers(names, entries, len, depth + 1, fmt, Names(c), Entries(c, depth + 1, fmt));
    }
  }

  lemma NoMembersText(depth: nat, fmt: bool)
    ensures MembersText(NoMember, depth, fmt) == []
  {
  }
}
