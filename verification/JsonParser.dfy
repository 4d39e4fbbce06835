/** The parser of cJSON.c with its pointers and loops, proved to compute what JsonGrammar says. */
module JsonParser {
  import opened Bytes
  import opened JsonText
  import opened JsonGrammar
  import JsonUnescape
  import Utf8

  method SkipSpace(s: seq<byte>, i: nat) returns (j: nat)
    ensures j == Skip(s, i)
  {
    j := i;
    while At(s, j) != 0 && At(s, j) <= 32
      invariant Skip(s, j) == Skip(s, i)
      decreases |s| - j
    {
      j := j + 1;
    }
  }

  // Numbers

  /** The digit loops of `parse_number`. */
  method ReadDigitRun(s: seq<byte>, i: nat, n0: real) returns (n: real, num: nat)
    ensures (n, num) == ReadDigits(s, i, n0)
  {
    n, num := n0, i;
    while IsDigit(At(s, num))
      invariant ReadDigits(s, num, n) == ReadDigits(s, i, n0)
      decreases |s| - num
    {
      n, num := n * 10.0 + (At(s, num) - 0x30) as real, num + 1;
    }
  }

  method ReadNumber(s: seq<byte>, i: nat) returns (d: real, num: nat)
    requires At(s, i) == MINUS || IsDigit(At(s, i))
    ensures (d, num) == ParseNumber(s, i)
  {
    hide ReadDigits;
    var n, sign := 0.0, 1.0;
    num := i;
    if At(s, num) == MINUS { sign, num := -1.0, num + 1; }
    if At(s, num) == 0x30 { num := num + 1; }
    if 0x31 <= At(s, num) <= 0x39 {
      n, num := ReadDigitRun(s, num, n);
    }
    assert (n, num) == ReadWhole(s, AfterZero(s, AfterSign(s, i)));
    if At(s, num) == DOT && IsDigit(At(s, num + 1)) {
      ghost var q, m := num, n;
      num := num + 1;
      var start := num;
      n, num := ReadDigitRun(s, num, n);
      var scale := num - start;
      ghost var whole := DivideByTen(n, scale);
      while scale > 0
        invariant scale >= 0 && DivideByTen(n, scale) == whole
      {
        n, scale := n / 10.0, scale - 1;
      }
      assert (n, num) == ReadFraction(s, q, m);
    }
    d := sign * n;
  }

  // Strings

  /** The transcoding tail of the \u branch: fills the bytes from the last one backwards. */
  method WriteUtf8(out: array<byte>, ptr2: nat, codePoint: nat) returns (end: nat)
    requires codePoint < 0x11_0000 && ptr2 + Utf8.EncodedLength(codePoint) <= out.Length
    modifies out
    ensures end == ptr2 + Utf8.EncodedLength(codePoint)
    ensures out[..end] == old(out[..ptr2]) + Utf8.Encode(codePoint)
  {
    hide Utf8.Encode;
    var uc, len := codePoint, 4;
    if uc < 0x80 { len := 1; } else if uc < 0x800 { len := 2; } else if uc < 0x1_0000 { len := 3; }
    ghost var before := out[..ptr2];
    end := ptr2 + len;
    var p := end;
    if len >= 4 {
      p := p - 1;
      out[p] := 0x80 + uc % 64;
      uc := uc / 64;
    }
    if len >= 3 {
      p := p - 1;
      out[p] := 0x80 + uc % 64;
      uc := uc / 64;
    }
    if len >= 2 {
      p := p - 1;
      out[p] := 0x80 + uc % 64;
      uc := uc / 64;
    }
    p := p - 1;
    EncodedBytes(codePoint);
    out[p] := (if len == 1 then 0 else if len == 2 then 0xC0 else if len == 3 then 0xE0 else 0xF0) + uc;
    assert out[..end] == before + Utf8.Encode(codePoint);
  }

  /** The bytes of an encoding, from the last one backwards. */
  lemma EncodedBytes(uc: nat)
    requires uc < 0x11_0000
    ensures var t, len := Utf8.Encode(uc), Utf8.EncodedLength(uc);
      && |t| == len
      && (len > 1 ==> t[len - 1] == 0x80 + uc % 64)
      && (len > 2 ==> t[len - 2] == 0x80 + uc / 64 % 64)
      && (len > 3 ==> t[len - 3] == 0x80 + uc / 64 / 64 % 64)
      && (len == 1 ==> t[0] == uc)
      && (len == 2 ==> t[0] == 0xC0 + uc / 64)
      && (len == 3 ==> t[0] == 0xE0 + uc / 64 / 64)
      && (len == 4 ==> t[0] == 0xF0 + uc / 64 / 64 / 64)
  {
    assert uc / 64 / 64 == uc / 4096 && uc / 64 / 64 / 64 == uc / 262144;
  }

  function Joined(done: seq<byte>, rest: Decoded): Decoded {
    match rest
    case Bad => Bad
    case Good(b, q) => Good(done + b, q)
  }

  lemma JoinUnit(s: seq<byte>, ptr: nat, end: nat, done: seq<byte>)
    requires ptr < end && DecodeUnit(s, ptr, end).Good?
    ensures var u := DecodeUnit(s, ptr, end);
            Joined(done, DecodeUntil(s, ptr, end)) == Joined(done + u.bytes, DecodeUntil(s, u.next, end))
  {
    hide DecodeUnit;
    var u := DecodeUnit(s, ptr, end);
    if DecodeUntil(s, u.next, end).Good? {
      var b := DecodeUntil(s, u.next, end).bytes;
      assert done + (u.bytes + b) == (done + u.bytes) + b;
    }
  }

  /** `parse_hex4`: four digits in turn, given up at the first character that is none. */
  method ReadHex4(s: seq<byte>, str: nat) returns (h: nat)
    ensures h == Hex4(s, str)
  {
    h := 0;
    var d := ReadHexDigit(At(s, str));
    if d < 0 { return 0; }
    h := h + d;
    h := h * 16;
    d := ReadHexDigit(At(s, str + 1));
    if d < 0 { return 0; }
    h := h + d;
    h := h * 16;
    d := ReadHexDigit(At(s, str + 2));
    if d < 0 { return 0; }
    h := h + d;
    h := h * 16;
    d := ReadHexDigit(At(s, str + 3));
    if d < 0 { return 0; }
    h := h + d;
  }

  /** The test the four steps share: a digit, an upper-case or a lower-case letter. */
  method ReadHexDigit(c: byte) returns (d: int)
    ensures d == HexValue(c)
  {
    if 0x30 <= c <= 0x39 { d := c - 0x30; }
    else if 0x41 <= c <= 0x46 { d := 10 + (c - 0x41); }
    else if 0x61 <= c <= 0x66 { d := 10 + (c - 0x61); }
    else { d := -1; }
  }

  /** The \u branch: `ptr` comes in on the `u`, goes out after the last hex digit used. */
  method ReadUnicode(s: seq<byte>, p: nat, endPtr: nat, out: array<byte>, ptr2: nat)
    returns (ok: bool, ptr: nat, k: nat)
    requires DecodeUnicode(s, p, endPtr).Good? ==> ptr2 + |DecodeUnicode(s, p, endPtr).bytes| <= out.Length
    modifies out
    ensures ok == DecodeUnicode(s, p, endPtr).Good?
    ensures ok ==> ptr == DecodeUnicode(s, p, endPtr).next
    ensures ok ==> k == ptr2 + |DecodeUnicode(s, p, endPtr).bytes|
    ensures ok ==> out[..k] == old(out[..ptr2]) + DecodeUnicode(s, p, endPtr).bytes
  {
    hide Hex4, Utf8.Encode;
    ok, ptr, k := false, p, ptr2;
    var uc := ReadHex4(s, ptr + 1);
    ptr := ptr + 4;
    if ptr >= endPtr { return; }
    if 0xDC00 <= uc <= 0xDFFF || uc == 0 { return; }
    if 0xD800 <= uc <= 0xDBFF {
      if ptr + 6 > endPtr { return; }
      if At(s, ptr + 1) != BACKSLASH || At(s, ptr + 2) != 0x75 { return; }
      var uc2 := ReadHex4(s, ptr + 3);
      ptr := ptr + 6;
      if uc2 < 0xDC00 || uc2 > 0xDFFF { return; }
      uc := 0x1_0000 + (uc % 0x400) * 0x400 + uc2 % 0x400;
    }
    k := WriteUtf8(out, ptr2, uc);
    ok, ptr := true, ptr + 1;
  }

  /** One turn of the decode loop. */
  method ReadUnit(s: seq<byte>, p: nat, endPtr: nat, out: array<byte>, ptr2: nat) returns (ok: bool, ptr: nat, k: nat)
    requires DecodeUnit(s, p, endPtr).Good? ==> ptr2 + |DecodeUnit(s, p, endPtr).bytes| <= out.Length
    modifies out
    ensures ok == DecodeUnit(s, p, endPtr).Good?
    ensures ok ==> ptr == DecodeUnit(s, p, endPtr).next
    ensures ok ==> k == ptr2 + |DecodeUnit(s, p, endPtr).bytes|
    ensures ok ==> out[..k] == old(out[..ptr2]) + DecodeUnit(s, p, endPtr).bytes
  {
    hide DecodeUnicode;
    ok, ptr, k := true, p, ptr2;
    if At(s, ptr) != BACKSLASH {
      out[k] := At(s, ptr);
      k, ptr := k + 1, ptr + 1;
    } else {
      ptr := ptr + 1;
      if At(s, ptr) == 0x75 {
        ok, ptr, k := ReadUnicode(s, ptr, endPtr, out, k);
      } else {
        out[k] := Unescaped(At(s, ptr));
        k, ptr := k + 1, ptr + 1;
      }
    }
  }

  /** `parse_string`. The array `out` has the length the first pass counted, plus one. */
  method ReadString(s: seq<byte>, str: nat) returns (r: Parsed<seq<byte>>)
    ensures r == ParseString(s, str)
  {
    hide DecodeUnit, DecodeUntil;
    if At(s, str) != QUOTE { return Err(str); }
    var ptr, endPtr, len := str + 1, str + 1, 0;
    while At(s, endPtr) != QUOTE && At(s, endPtr) != 0
      invariant ScanEnd(s, endPtr) == ScanEnd(s, str + 1)
      invariant len + ScanCount(s, endPtr) == ScanCount(s, str + 1)
      decreases |s| - endPtr
    {
      len := len + 1;
      endPtr := endPtr + if At(s, endPtr) == BACKSLASH then 2 else 1;
    }
    ghost var end := ScanEnd(s, str + 1);
    var out := new byte[len + 1];
    hide ScanEnd;
    var ptr2: nat := 0;
    assert Joined([], DecodeUntil(s, ptr, end)) == DecodeUntil(s, ptr, end);
    while ptr < endPtr
      invariant ScanEnd(s, ptr) == end && ptr2 + ScanCount(s, ptr) <= len < out.Length
      invariant Joined(out[..ptr2], DecodeUntil(s, ptr, end)) == DecodeUntil(s, str + 1, end)
      decreases endPtr - ptr
    {
      ghost var from, done := ptr, out[..ptr2];
      if DecodeUnit(s, ptr, end).Good? {
        JsonUnescape.UnitFitsScan(s, ptr);
        JoinUnit(s, ptr, end, out[..ptr2]);
      } else {
        BadUnit(s, ptr, end);
      }
      var ok;
      ok, ptr, ptr2 := ReadUnit(s, ptr, endPtr, out, ptr2);
      if !ok { return Err(str); }
    }
    DecodeStops(s, ptr, end);
    assert out[..ptr2] + [] == out[..ptr2];
    out[ptr2] := 0;
    if At(s, ptr) == QUOTE { ptr := ptr + 1; }
    r := Ok(out[..ptr2], ptr);
  }

  lemma BadUnit(s: seq<byte>, ptr: nat, end: nat)
    requires ptr < end && DecodeUnit(s, ptr, end).Bad?
    ensures DecodeUntil(s, ptr, end).Bad?
  {
  }

  lemma DecodeStops(s: seq<byte>, ptr: nat, end: nat)
    requires ptr >= end
    ensures DecodeUntil(s, ptr, end) == Good([], ptr)
  {
  }

  // Values

  /** The children linked so far, followed by `rest`. */
  ghost function Chain(values: seq<Value>, rest: Items): Items
    decreases |values|
  {
    if values == [] then rest else Chain(values[..|values| - 1], Item(values[|values| - 1], rest))
  }

  ghost function Chained(values: seq<Value>, rest: Parsed<Items>): Parsed<Items> {
    match rest
    case Err(e) => Err(e)
    case Ok(c, n) => Ok(Chain(values, c), n)
  }

  ghost function MemberChain(keys: seq<seq<byte>>, values: seq<Value>, rest: Members): Members
    requires |keys| == |values|
    decreases |values|
  {
    var n := |values| - 1;
    if values == [] then rest else MemberChain(keys[..n], values[..n], Member(keys[n], values[n], rest))
  }

  ghost function MemberChained(keys: seq<seq<byte>>, values: seq<Value>, rest: Parsed<Members>): Parsed<Members>
    requires |keys| == |values|
  {
    match rest
    case Err(e) => Err(e)
    case Ok(c, n) => Ok(MemberChain(keys, values, c), n)
  }

  /** The list the source builds by linking each new child after the last one. */
  method LinkItems(values: seq<Value>) returns (c: Items)
    ensures c == Chain(values, NoItem)
  {
    c := NoItem;
    var k := |values|;
    assert values[..k] == values;
    while k > 0
      invariant 0 <= k <= |values| && Chain(values[..k], c) == Chain(values, NoItem)
    {
      k := k - 1;
      assert values[..k + 1][..k] == values[..k];
      c := Item(values[k], c);
    }
    assert values[..0] == [];
  }

  method LinkMembers(keys: seq<seq<byte>>, values: seq<Value>) returns (c: Members)
    requires |keys| == |values|
    ensures c == MemberChain(keys, values, NoMember)
  {
    c := NoMember;
    var k := |values|;
    assert values[..k] == values && keys[..k] == keys;
    while k > 0
      invariant 0 <= k <= |values| && MemberChain(keys[..k], values[..k], c) == MemberChain(keys, values, NoMember)
    {
      k := k - 1;
      assert values[..k + 1][..k] == values[..k] && keys[..k + 1][..k] == keys[..k];
      c := Member(keys[k], values[k], c);
    }
  }

  method ReadValue(s: seq<byte>, i: nat) returns (r: Parsed<Value>)
    ensures r == ParseValue(s, i)
    decreases |s| - i, 2
  {
    hide ParseString, ParseNumber, ParseItems, ParseMembers;
    if StartsWith(s, i, NULL_TEXT) { return Ok(Null, i + 4); }
    if StartsWith(s, i, FALSE_TEXT) { return Ok(False, i + 5); }
    if StartsWith(s, i, TRUE_TEXT) { return Ok(True, i + 4); }
    if At(s, i) == QUOTE {
      var p := ReadString(s, i);
      return match p case Ok(b, n) => Ok(Str(b), n) case Err(e) => Err(e);
    }
    if At(s, i) == MINUS || IsDigit(At(s, i)) {
      var d, n := ReadNumber(s, i);
      return Ok(Number(d), n);
    }
    if At(s, i) == OPEN_BRACKET {
      var p := ReadArray(s, i);
      return match p case Ok(c, n) => Ok(Array(c), n) case Err(e) => Err(e);
    }
    if At(s, i) == OPEN_BRACE {
      var p := ReadObject(s, i);
      return match p case Ok(c, n) => Ok(Object(c), n) case Err(e) => Err(e);
    }
    return Err(i);
  }

  /** The value of `parse_array` at an opening bracket. */
  ghost function ArrayAt(s: seq<byte>, i: nat): Parsed<Items> {
    var j := Skip(s, i + 1);
    if At(s, j) == CLOSE_BRACKET then Ok(NoItem, j + 1) else ParseItems(s, j)
  }

  ghost function ObjectAt(s: seq<byte>, i: nat): Parsed<Members> {
    var j := Skip(s, i + 1);
    if At(s, j) == CLOSE_BRACE then Ok(NoMember, j + 1) else ParseMembers(s, j)
  }

  method ReadArray(s: seq<byte>, i: nat) returns (r: Parsed<Items>)
    requires i < |s| && s[i] == OPEN_BRACKET
    ensures r == ArrayAt(s, i)
    decreases |s| - i, 1
  {
    hide ParseItems, ParseValue;
    var value := SkipSpace(s, i + 1);
    if At(s, value) == CLOSE_BRACKET { return Ok(NoItem, value + 1); }
    ghost var start := value;
    value := SkipSpace(s, value);
    var p := ReadValue(s, value);
    if p.Err? {
      FirstItem(s, start);
      return Err(p.at);
    }
    value := SkipSpace(s, p.next);
    var values := [p.value];
    FirstItem(s, start);
    while At(s, value) == COMMA
      invariant i < value && Chained(values, AfterItem(s, value)) == ParseItems(s, start)
      decreases |s| - value
    {
      ghost var comma := value;
      value := SkipSpace(s, value + 1);
      p := ReadValue(s, value);
      NextItem(s, comma, values);
      if p.Err? { return Err(p.at); }
      value := SkipSpace(s, p.next);
      values := values + [p.value];
    }
    if At(s, value) == CLOSE_BRACKET {
      var c := LinkItems(values);
      return Ok(c, value + 1);
    }
    return Err(value);
  }

  lemma FirstItem(s: seq<byte>, start: nat)
    ensures var p := ParseValue(s, Skip(s, start));
      ParseItems(s, start) == if p.Err? then Err(p.at) else Chained([p.value], AfterItem(s, Skip(s, p.next)))
  {
    var p := ParseValue(s, Skip(s, start));
    hide ParseValue, AfterItem;
    if p.Ok? && AfterItem(s, Skip(s, p.next)).Ok? {
      var rest := AfterItem(s, Skip(s, p.next)).value;
      assert [p.value][..0] == [];
      assert Chain([p.value], rest) == Item(p.value, rest);
    }
  }

  lemma NextItem(s: seq<byte>, comma: nat, values: seq<Value>)
    requires At(s, comma) == COMMA
    ensures var p := ParseValue(s, Skip(s, comma + 1));
      Chained(values, AfterItem(s, comma))
        == if p.Err? then Err(p.at) else Chained(values + [p.value], AfterItem(s, Skip(s, p.next)))
  {
    var p := ParseValue(s, Skip(s, comma + 1));
    assert AfterItem(s, comma) == ParseItems(s, comma + 1);
    FirstItem(s, comma + 1);
    hide ParseValue, AfterItem, ParseItems;
    if p.Ok? && AfterItem(s, Skip(s, p.next)).Ok? {
      var rest := AfterItem(s, Skip(s, p.next)).value;
      assert [p.value][..0] == [];
      assert Chain([p.value], rest) == Item(p.value, rest);
      assert (values + [p.value])[..|values|] == values;
    }
  }

  /** One key, its colon and its value: the block `parse_object` holds twice. */
  method ReadMember(s: seq<byte>, from: nat) returns (key: Parsed<seq<byte>>, v: Parsed<Value>)
    ensures key == ParseString(s, Skip(s, from))
    ensures key.Ok? ==> v == ParseMemberValue(s, Skip(s, key.next))
    decreases |s| - from, 0
  {
    hide ParseString, ParseValue;
    v := Err(0);
    var value := SkipSpace(s, from);
    key := ReadString(s, value);
    if key.Err? { return; }
    value := SkipSpace(s, key.next);
    if At(s, value) != COLON {
      v := Err(value);
      return;
    }
    value := SkipSpace(s, value + 1);
    v := ReadValue(s, value);
  }

  method ReadObject(s: seq<byte>, i: nat) returns (r: Parsed<Members>)
    requires i < |s| && s[i] == OPEN_BRACE
    ensures r == ObjectAt(s, i)
    decreases |s| - i, 1
  {
    hide ParseMembers, ParseMemberValue, ParseString, ParseValue;
    var value := SkipSpace(s, i + 1);
    if At(s, value) == CLOSE_BRACE { return Ok(NoMember, value + 1); }
    ghost var start := value;
    FirstMember(s, start);
    var key, v := ReadMember(s, value);
    if key.Err? { return Err(key.at); }
    if v.Err? { return Err(v.at); }
    value := SkipSpace(s, v.next);
    var keys, values := [key.value], [v.value];
    while At(s, value) == COMMA
      invariant i < value && |keys| == |values|
      invariant MemberChained(keys, values, AfterMember(s, value)) == ParseMembers(s, start)
      decreases |s| - value
    {
      NextMember(s, value, keys, values);
      key, v := ReadMember(s, value + 1);
      if key.Err? { return Err(key.at); }
      if v.Err? { return Err(v.at); }
      value := SkipSpace(s, v.next);
      keys, values := keys + [key.value], values + [v.value];
    }
    if At(s, value) == CLOSE_BRACE {
      var c := LinkMembers(keys, values);
      return Ok(c, value + 1);
    }
    return Err(value);
  }

  /** What follows one member, given the members before it. */
  ghost function AfterKey(s: seq<byte>, from: nat, keys: seq<seq<byte>>, values: seq<Value>): Parsed<Members>
    requires |keys| == |values|
  {
    match ParseString(s, Skip(s, from))
    case Err(e) => Err(e)
    case Ok(key, k) =>
      match ParseMemberValue(s, Skip(s, k))
      case Err(e) => Err(e)
      case Ok(v, n) => MemberChained(keys + [key], values + [v], AfterMember(s, Skip(s, n)))
  }

  lemma ChainOne(keys: seq<seq<byte>>, values: seq<Value>, key: seq<byte>, v: Value, rest: Members)
    requires |keys| == |values|
    ensures MemberChain(keys + [key], values + [v], rest) == MemberChain(keys, values, Member(key, v, rest))
  {
    assert (keys + [key])[..|keys|] == keys && (values + [v])[..|values|] == values;
  }

  lemma FirstMember(s: seq<byte>, start: nat)
    ensures ParseMembers(s, start) == AfterKey(s, start, [], [])
  {
    hide ParseString, ParseMemberValue, AfterMember;
    var key := ParseString(s, Skip(s, start));
    if key.Ok? {
      var v := ParseMemberValue(s, Skip(s, key.next));
      if v.Ok? && AfterMember(s, Skip(s, v.next)).Ok? {
        ChainOne([], [], key.value, v.value, AfterMember(s, Skip(s, v.next)).value);
      }
    }
  }

  lemma NextMember(s: seq<byte>, comma: nat, keys: seq<seq<byte>>, values: seq<Value>)
    requires |keys| == |values| && At(s, comma) == COMMA
    ensures MemberChained(keys, values, AfterMember(s, comma)) == AfterKey(s, comma + 1, keys, values)
  {
    assert AfterMember(s, comma) == ParseMembers(s, comma + 1);
    hide ParseString, ParseMemberValue, AfterMember;
    var key := ParseString(s, Skip(s, comma + 1));
    if key.Ok? {
      var v := ParseMemberValue(s, Skip(s, key.next));
      if v.Ok? && AfterMember(s, Skip(s, v.next)).Ok? {
        ChainOne(keys, values, key.value, v.value, AfterMember(s, Skip(s, v.next)).value);
      }
    }
  }

  /** `cJSON_ParseWithOpts`. */
  method ParseWithOpts(s: seq<byte>, requireNullTerminated: bool) returns (r: Parsed<Value>)
    ensures r == Parse(s, requireNullTerminated)
  {
    hide ParseValue;
    var start := SkipSpace(s, 0);
    r := ReadValue(s, start);
    if r.Err? { return; }
    if requireNullTerminated {
      var end := SkipSpace(s, r.next);
      if At(s, end) != 0 { return Err(end); }
      return Ok(r.value, end);
    }
  }
}
