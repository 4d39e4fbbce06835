/** The buffered printer of cJSON.c: one growing buffer, written at an offset. */
module JsonPrintBuffer {
  import opened Bytes
  import opened CStrings
  import opened JsonText
  import opened JsonPrinter
  import opened PowerOfTwo

  /** The largest size `pow2gt` can round up to within a C int. */
  const MAX_SIZE: nat := 0x4000_0000

  /** What a value can ask of `ensure` beyond its own text: a number always asks for 21. */
  const SLACK: nat := 21

  class PrintBuffer {
    var buffer: array<byte>
    var length: nat
    var offset: nat

    ghost predicate Valid()
      reads this
    {
      length == buffer.Length && offset <= length
    }

    constructor (prebuffer: nat)
      requires prebuffer > 0
      ensures Valid() && fresh(buffer) && offset == 0 && length == prebuffer
    {
      buffer := new byte[prebuffer];
      length := prebuffer;
      offset := 0;
    }

    /** `ensure`: room for `needed` bytes at the offset, by a larger buffer if there is none. */
    method Ensure(needed0: nat) returns (ptr: nat)
      requires Valid() && 0 < needed0 && offset + needed0 <= MAX_SIZE
      modifies this`buffer, this`length
      ensures Valid() && (buffer == old(buffer) || fresh(buffer))
      ensures offset + needed0 <= length && ptr == offset
      ensures buffer[..offset] == old(buffer[..offset])
    {
      var needed := needed0 + offset;
      if needed <= length { return offset; }
      Pow2gtIsLeast(needed);
      var newsize := Pow2gt(needed);
      var newbuffer := new byte[newsize];
      var copied := Copy(newbuffer, 0, buffer[..length]);
      assert newbuffer[..offset] == newbuffer[..length][..offset];
      length := newsize;
      buffer := newbuffer;
      return offset;
    }

    /** The text t has been written from position `at` on, and terminated; the offset has not
        necessarily caught up with it. */
    ghost predicate Wrote(before: seq<byte>, t: seq<byte>)
      reads this, buffer
    {
      var end := |before| + |t|;
      && Valid() && |before| <= offset <= end < length
      && buffer[..end] == before + t && buffer[end] == 0
    }

    lemma WroteMore(before: seq<byte>, t: seq<byte>, u: seq<byte>)
      requires Wrote(before + t, u)
      ensures Wrote(before, t + u)
    {
      Rejoin(before, t, u);
    }

    /** `update`, stored into the offset as its callers do: skips to the end of what was written. */
    method CatchUp(ghost before: seq<byte>, ghost t: seq<byte>)
      requires Wrote(before, t) && NoNul(t)
      modifies this`offset
      ensures Valid() && offset == |before| + |t| && buffer[..offset] == before + t
    {
      ghost var end := |before| + |t|;
      forall k | offset <= k < end ensures buffer[k] != 0 {
        assert buffer[..end][k] == t[k - |before|];
      }
      var n := StrLen(buffer, offset, end);
      offset := offset + n;
    }

    /** A literal text: `ensure` and `os_strcpy`. */
    method PutText(t: seq<byte>, room: nat) returns (out: nat)
      requires Valid() && |t| < room && offset + room <= MAX_SIZE
      modifies this, buffer
      ensures buffer == old(buffer) || fresh(buffer)
      ensures out == old(offset) == offset && Wrote(old(buffer[..offset]), t)
    {
      out := Ensure(room);
      StrCpy(buffer, out, t);
    }

    /** `print_string_ptr(str, p)` for a non-null string. */
    method PutString(str: seq<byte>) returns (out: nat)
      requires Valid() && NoNul(str) && offset + |Quoted(str)| + 1 <= MAX_SIZE
      modifies this, buffer
      ensures buffer == old(buffer) || fresh(buffer)
      ensures out == old(offset) == offset && Wrote(old(buffer[..offset]), Quoted(str))
    {
      hide Escape;
      var flag := NeedsEscape(str);
      if !flag {
        out := Ensure(|str| + 3);
        FillPlain(buffer, out, str);
      } else {
        var len := EscapedLength(str);
        out := Ensure(len + 3);
        FillEscaped(buffer, out, str);
      }
    }

    /** `print_number(item, p)` */
    method PutNumber(d: real) returns (out: nat)
      requires Valid() && IsInt32(d) && offset + |Decimal(d.Floor)| + SLACK <= MAX_SIZE
      modifies this, buffer
      ensures buffer == old(buffer) || fresh(buffer)
      ensures out == old(offset) == offset && Wrote(old(buffer[..offset]), Decimal(d.Floor))
    {
      DecimalFits(d);
      hide Decimal;
      if d == 0.0 {
        out := PutText([0x30], 2);
      } else {
        out := PutText(Decimal(d.Floor), 21);
      }
    }

    /** Writes t at the offset and steps over it; `room` is what the code asks `ensure` for. Some of
        these writes also put a NUL after t. */
    method Put(t: seq<byte>, room: nat, terminate: bool)
      requires Valid() && |t| + (if terminate then 1 else 0) <= room && 0 < room && offset + room <= MAX_SIZE
      modifies this, buffer
      ensures Valid() && (buffer == old(buffer) || fresh(buffer))
      ensures offset == old(offset) + |t| && buffer[..offset] == old(buffer[..offset]) + t
    {
      var ptr := Ensure(room);
      ptr := Copy(buffer, ptr, t);
      if terminate { buffer[ptr] := 0; }
      offset := offset + |t|;
    }

    /** `print_value(item, depth, fmt, p)`: the text appears at the old offset, which is returned, after
        everything written before it. */
    method PutValue(v: Value, depth: nat, fmt: bool) returns (out: nat)
      requires Valid() && v.Printable() && offset + |Text(v, depth, fmt)| + SLACK <= MAX_SIZE
      modifies this, buffer
      ensures buffer == old(buffer) || fresh(buffer)
      ensures out == old(offset) && Wrote(old(buffer[..offset]), Text(v, depth, fmt))
      decreases v.Size(), 1
    {
      hide ItemsText, MembersText, Quoted, Decimal;
      match v
      case Null => out := PutText(NULL_TEXT, 5);
      case False => out := PutText(FALSE_TEXT, 6);
      case True => out := PutText(TRUE_TEXT, 5);
      case Number(d) => out := PutNumber(d);
      case Str(s) => out := PutString(s);
      case Array(c) => out := PutArray(c, depth, fmt);
      case Object(c) => out := PutObject(c, depth, fmt);
    }

    method PutArray(c: Items, depth: nat, fmt: bool) returns (out: nat)
      requires Valid() && c.Printable() && offset + |Text(Array(c), depth, fmt)| + SLACK <= MAX_SIZE
      modifies this, buffer
      ensures buffer == old(buffer) || fresh(buffer)
      ensures out == old(offset) && Wrote(old(buffer[..offset]), Text(Array(c), depth, fmt))
      decreases c.Size(), 3
    {
      ghost var before, items := buffer[..offset], ItemsText(c, depth + 1, fmt);
      hide ItemsText, Text, Wrote;
      ArrayTextIs(c, depth, fmt);
      if c.NoItem? {
        NoItemsText(depth + 1, fmt);
        out := PutText([OPEN_BRACKET, CLOSE_BRACKET], 3);
      } else {
        out := offset;
        Put([OPEN_BRACKET], 1, false);
        PutItems(c, depth + 1, fmt);
        Rejoin(before, [OPEN_BRACKET], items);
        var last := PutText([CLOSE_BRACKET], 2);
        WroteMore(before, [OPEN_BRACKET] + items, [CLOSE_BRACKET]);
      }
    }

    /** The loop of `print_array`. */
    method PutItems(c: Items, depth: nat, fmt: bool)
      requires Valid() && c.Printable() && offset + |ItemsText(c, depth, fmt)| + SLACK <= MAX_SIZE
      modifies this, buffer
      ensures Valid() && (buffer == old(buffer) || fresh(buffer))
      ensures offset == old(offset) + |ItemsText(c, depth, fmt)|
      ensures buffer[..offset] == old(buffer[..offset]) + ItemsText(c, depth, fmt)
      decreases c.Size(), 2
    {
      hide ItemsText, Text, Wrote, ItemGap;
      ghost var before, all, done := buffer[..offset], ItemsText(c, depth, fmt), [];
      var child := c;
      assert before + [] == before;
      while child.Item?
        invariant Valid() && (buffer == old(buffer) || fresh(buffer))
        invariant child.Printable() && child.Size() <= c.Size()
        invariant done + ItemsText(child, depth, fmt) == all
        invariant offset == |before| + |done| && buffer[..offset] == before + done
        decreases child.Size()
      {
        ItemsTextStep(child, depth, fmt, done);
        ghost var at, t := buffer[..offset], Text(child.value, depth, fmt);
        var out := PutValue(child.value, depth, fmt);
        TextNoNul(child.value, depth, fmt);
        CatchUp(at, t);
        if child.next.Item? {
          var len := if fmt then 2 else 1;
          GapLength(fmt);
          Put(ItemGap(fmt), len + 1, true);
          Rejoin(before, done, t);
          Rejoin(before, done + t, ItemGap(fmt));
          done := done + t + ItemGap(fmt);
        } else {
          Rejoin(before, done, t);
          done := done + t;
        }
        child := child.next;
      }
      ItemsTextEnd(depth, fmt, done);
    }

    method PutObject(c: Members, depth: nat, fmt: bool) returns (out: nat)
      requires Valid() && c.Printable() && offset + |Text(Object(c), depth, fmt)| + SLACK <= MAX_SIZE
      modifies this, buffer
      ensures buffer == old(buffer) || fresh(buffer)
      ensures out == old(offset) && Wrote(old(buffer[..offset]), Text(Object(c), depth, fmt))
      decreases c.Size(), 3
    {
      ghost var before, members := buffer[..offset], MembersText(c, depth + 1, fmt);
      hide MembersText, Text, Wrote, Opening, Indent;
      ObjectTextIs(c, depth, fmt);
      if c.NoMember? {
        NoMembersText(depth + 1, fmt);
        assert Opening(fmt) + [] == Opening(fmt);
        FrameLengths(depth, fmt);
        out := PutText(Opening(fmt) + Indent(depth, fmt) + [CLOSE_BRACE], if fmt then depth + 4 else 3);
      } else {
        out := offset;
        FrameLengths(depth, fmt);
        var len := if fmt then 2 else 1;
        Put(Opening(fmt), len + 1, true);
        PutMembers(c, depth + 1, fmt);
        Rejoin(before, Opening(fmt), members);
        var last := PutText(Indent(depth, fmt) + [CLOSE_BRACE], if fmt then depth + 2 else 2);
        WroteMore(before, Opening(fmt) + members, Indent(depth, fmt) + [CLOSE_BRACE]);
        Rejoin(Opening(fmt) + members, Indent(depth, fmt), [CLOSE_BRACE]);
      }
    }

    /** The loop of `print_object`; `depth` is the one the members are printed at. */
    method PutMembers(c: Members, depth: nat, fmt: bool)
      requires Valid() && c.Printable() && depth >= 1
      requires offset + |MembersText(c, depth, fmt)| + SLACK <= MAX_SIZE
      modifies this, buffer
      ensures Valid() && (buffer == old(buffer) || fresh(buffer))
      ensures offset == old(offset) + |MembersText(c, depth, fmt)|
      ensures buffer[..offset] == old(buffer[..offset]) + MembersText(c, depth, fmt)
      decreases c.Size(), 2
    {
      hide MembersText, MemberText, Wrote;
      ghost var before, all, done := buffer[..offset], MembersText(c, depth, fmt), [];
      var child := c;
      assert before + [] == before;
      while child.Member?
        invariant Valid() && (buffer == old(buffer) || fresh(buffer))
        invariant child.Printable() && child.Size() <= c.Size()
        invariant done + MembersText(child, depth, fmt) == all
        invariant offset == |before| + |done| && buffer[..offset] == before + done
        decreases child.Size()
      {
        MembersTextStep(child, depth, fmt, done);
        PutMember(child, depth, fmt);
        Rejoin(before, done, MemberText(child, depth, fmt));
        done := done + MemberText(child, depth, fmt);
        child := child.next;
      }
      MembersTextEnd(depth, fmt, done);
    }

    /** One turn of that loop. */
    method PutMember(child: Members, depth: nat, fmt: bool)
      requires Valid() && child.Member? && child.Printable() && depth >= 1
      requires offset + |MemberText(child, depth, fmt)| + SLACK <= MAX_SIZE
      modifies this, buffer
      ensures Valid() && (buffer == old(buffer) || fresh(buffer))
      ensures offset == old(offset) + |MemberText(child, depth, fmt)|
      ensures buffer[..offset] == old(buffer[..offset]) + MemberText(child, depth, fmt)
      decreases child.Size(), 1
    {
      ghost var before, key, v := buffer[..offset], Quoted(child.key), Text(child.value, depth, fmt);
      ghost var indent, end := Indent(depth, fmt), MemberEnd(child.next.NoMember?, fmt);
      assert before + [] == before;
      MemberLengths(child.next.NoMember?, depth, fmt);
      hide Text, Quoted, Wrote, Indent, KeyGap, MemberEnd;
      if fmt {
        TabsIndent(depth);
        Put(Tabs(depth), depth, false);
      }
      QuotedNoNul(child.key);
      TextNoNul(child.value, depth, fmt);
      ghost var at := buffer[..offset];
      var out := PutString(child.key);
      CatchUp(at, key);
      var len := if fmt then 2 else 1;
      Put(KeyGap(fmt), len, false);
      at := buffer[..offset];
      out := PutValue(child.value, depth, fmt);
      CatchUp(at, v);
      len := (if fmt then 1 else 0) + if child.next.Member? then 1 else 0;
      Put(MemberEnd(child.next.NoMember?, fmt), len + 1, true);
      Regroup(before, indent, key, KeyGap(fmt), v, end);
    }
  }

  /** The text of one member, its line end included. */
  ghost function MemberText(c: Members, depth: nat, fmt: bool): seq<byte>
    requires c.Member? && c.Printable()
  {
    Indent(depth, fmt) + Quoted(c.key) + KeyGap(fmt) + Text(c.value, depth, fmt) + MemberEnd(c.next.NoMember?, fmt)
  }

  lemma MembersTextStep(c: Members, depth: nat, fmt: bool, done: seq<byte>)
    requires c.Member? && c.Printable()
    ensures done + MembersText(c, depth, fmt) == done + MemberText(c, depth, fmt) + MembersText(c.next, depth, fmt)
  {
    assert MembersText(c, depth, fmt) == MemberText(c, depth, fmt) + MembersText(c.next, depth, fmt);
    hide MembersText, MemberText;
  }

  lemma MembersTextEnd(depth: nat, fmt: bool, done: seq<byte>)
    ensures done + MembersText(NoMember, depth, fmt) == done
  {
  }

  lemma FrameLengths(depth: nat, fmt: bool)
    ensures |Opening(fmt)| == if fmt then 2 else 1
    ensures |Indent(depth, fmt)| == if fmt then depth else 0
  {
  }

  lemma MemberLengths(last: bool, depth: nat, fmt: bool)
    ensures |KeyGap(fmt)| == if fmt then 2 else 1
    ensures |MemberEnd(last, fmt)| == (if fmt then 1 else 0) + if last then 0 else 1
    ensures |Indent(depth, fmt)| == (if fmt then depth else 0) && (!fmt ==> Indent(depth, fmt) == [])
  {
  }

  lemma TabsIndent(depth: nat)
    ensures Indent(depth, true) == Tabs(depth)
  {
  }

  lemma ArrayTextIs(c: Items, depth: nat, fmt: bool)
    requires c.Printable()
    ensures Text(Array(c), depth, fmt) == [OPEN_BRACKET] + ItemsText(c, depth + 1, fmt) + [CLOSE_BRACKET]
    ensures c.NoItem? ==> Text(Array(c), depth, fmt) == [OPEN_BRACKET, CLOSE_BRACKET]
  {
  }

  lemma Rejoin(a: seq<byte>, b: seq<byte>, c: seq<byte>)
    ensures a + b + c == a + (b + c)
  {
  }

  lemma GapLength(fmt: bool)
    ensures |ItemGap(fmt)| == if fmt then 2 else 1
  {
  }

  lemma ItemsTextStep(c: Items, depth: nat, fmt: bool, done: seq<byte>)
    requires c.Item? && c.Printable()
    ensures done + ItemsText(c, depth, fmt)
         == done + Text(c.value, depth, fmt)
             + (if c.next.NoItem? then [] else ItemGap(fmt)) + ItemsText(c.next, depth, fmt)
  {
    hide Text, ItemGap;
  }

  lemma ItemsTextEnd(depth: nat, fmt: bool, done: seq<byte>)
    ensures done + ItemsText(NoItem, depth, fmt) == done
  {
  }

  /** `cJSON_PrintBuffered`, for any positive first size and either format: the string returned is the
      one the plain printer returns. Every array write above is inside the buffer, and `Put` and
      `PutText` keep what they write within the room `ensure` was asked for. */
  method PrintBuffered(v: Value, prebuffer: nat, fmt: bool) returns (p: PrintBuffer, out: nat)
    requires v.Printable() && prebuffer > 0 && |Text(v, 0, fmt)| + SLACK <= MAX_SIZE
    ensures p.Valid() && out == 0 && Holds(p.buffer, Text(v, 0, fmt))
  {
    hide Text;
    p := new PrintBuffer(prebuffer);
    ghost var before := p.buffer[..p.offset];
    assert before == [];
    out := p.PutValue(v, 0, fmt);
    assert [] + Text(v, 0, fmt) == Text(v, 0, fmt);
  }

  /** The two printers side by side. */
  method BothPrinters(v: Value, prebuffer: nat, fmt: bool) returns (same: bool)
    requires v.Printable() && prebuffer > 0 && |Text(v, 0, fmt)| + SLACK <= MAX_SIZE
    ensures same
  {
    hide Text;
    var plain := PrintValue(v, 0, fmt);
    var p, out := PrintBuffered(v, prebuffer, fmt);
    TextNoNul(v, 0, fmt);
    ghost var t := Text(v, 0, fmt);
    var n := TextLength(plain, t);
    var m := TextLength(p.buffer, t);
    same := n == m && plain[..n] == p.buffer[out..out + m];
    assert p.buffer[0..m] == p.buffer[..m];
  }
}
