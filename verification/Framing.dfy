/** The byte-stuffed framing of proto.c as functions of byte sequences. */
module Framing {
  import opened Bytes

  const ESCAPE: byte := 0x7D
  const BEGIN: byte := 0x7E
  const END: byte := 0x7F

  /** `b ^ 0x20` */
  function Flip(b: byte): byte {
    if b / 32 % 2 == 1 then b - 32 else b + 32
  }

  lemma FlipIsXor(v: bv8)
    ensures (v ^ 0x20) as int == Flip(v as int)
  {
  }

  // Encoding

  function StuffByte(b: byte): seq<byte> {
    if b == ESCAPE || b == BEGIN || b == END then [ESCAPE, Flip(b)] else [b]
  }

  function Stuff(p: seq<byte>): (t: seq<byte>)
    ensures |t| >= |p|
  {
    if p == [] then [] else StuffByte(p[0]) + Stuff(p[1..])
  }

  function Frame(p: seq<byte>): (t: seq<byte>)
    ensures |t| >= |p| + 2
  {
    [BEGIN] + Stuff(p) + [END]
  }

  /** The bytes themselves: 0x7E and 0x7F around the message, and its own 0x7D, 0x7E and 0x7F as 0x7D
      and the byte 0x20 below. */
  lemma FrameBytes(p: seq<byte>, b: byte)
    ensures Frame([]) == [0x7E, 0x7F]
    ensures Frame(p + [b]) == Frame(p)[..|Frame(p)| - 1]
              + (if 0x7D <= b <= 0x7F then [0x7D, (b - 0x20) as byte, 0x7F] else [b, 0x7F])
  {
    StuffEnd(p, b);
    var body := [BEGIN] + Stuff(p);
    assert Frame(p)[..|Frame(p)| - 1] == body;
    assert Frame(p + [b]) == body + StuffByte(b) + [END];
    hide Stuff;
  }

  lemma {:induction false} StuffEnd(p: seq<byte>, b: byte)
    ensures Stuff(p + [b]) == Stuff(p) + StuffByte(b)
  {
    if p == [] {
      assert [b][1..] == [] && p + [b] == [b];
    } else {
      assert (p + [b])[1..] == p[1..] + [b];
      StuffEnd(p[1..], b);
    }
  }

  // Decoding

  /** PROTO_PARSER: its flags and the bytes collected. */
  datatype Parser = Parser(isBegin: bool, isEsc: bool, data: seq<byte>)

  /** A parser after PROTO_Init, which leaves isBegin as it finds it. */
  function Fresh(isBegin: bool): Parser {
    Parser(isBegin, false, [])
  }

  /** `PROTO_ParseByte` for a byte other than END. */
  function Feed(st: Parser, cap: nat, b: byte): Parser {
    if b == ESCAPE then st.(isEsc := true)
    else if b == BEGIN then Parser(true, false, [])
    else if !st.isBegin then st
    else
      var v := if st.isEsc then Flip(b) else b;
      Parser(true, false, if |st.data| < cap then st.data + [v] else st.data)
  }

  datatype Got = Drained | Message(m: seq<byte>, rest: seq<byte>)

  /** `PROTO_ParseRb` on a ring holding c: what it returns and what it leaves. */
  function Parse(c: seq<byte>, st: Parser, cap: nat): (g: Got)
    ensures g.Message? ==> |g.rest| < |c| && |g.m| <= |st.data| + |c|
  {
    if c == [] then Drained
    else if c[0] == END then Message(st.data, c[1..])
    else Parse(c[1..], Feed(st, cap, c[0]), cap)
  }

  /** Everything successive calls would return. */
  function Messages(c: seq<byte>, cap: nat): seq<seq<byte>>
    decreases |c|
  {
    match Parse(c, Fresh(false), cap)
    case Drained => []
    case Message(m, rest) => [m] + Messages(rest, cap)
  }

  /** What the queue's traffic keeps true of the ring: it starts on a frame start, and so does
      whatever follows a frame end. Truncated frames may stand anywhere in between. */
  ghost predicate Aligned(c: seq<byte>) {
    && (c != [] ==> c[0] == BEGIN)
    && forall k :: 0 <= k < |c| - 1 && c[k] == END ==> c[k + 1] == BEGIN
  }

  // A frame start wipes out whatever came before it

  lemma BeginResets(d: seq<byte>, st: Parser, st': Parser, cap: nat)
    requires d == [] || d[0] == BEGIN
    ensures Parse(d, st, cap) == Parse(d, st', cap)
  {
  }

  lemma {:induction false} ParseAppend(c: seq<byte>, d: seq<byte>, st: Parser, cap: nat)
    requires d == [] || d[0] == BEGIN
    ensures Parse(c + d, st, cap)
         == match Parse(c, st, cap)
            case Drained => Parse(d, Fresh(false), cap)
            case Message(m, rest) => Message(m, rest + d)
    decreases |c|
  {
    if c == [] {
      assert c + d == d;
      BeginResets(d, st, Fresh(false), cap);
    } else {
      assert (c + d)[1..] == c[1..] + d;
      if c[0] != END { ParseAppend(c[1..], d, Feed(st, cap, c[0]), cap); }
    }
  }

  lemma {:induction false} MessagesAppend(c: seq<byte>, d: seq<byte>, cap: nat)
    requires d == [] || d[0] == BEGIN
    ensures Messages(c + d, cap) == Messages(c, cap) + Messages(d, cap)
    decreases |c|
  {
    hide Parse;
    ParseAppend(c, d, Fresh(false), cap);
    match Parse(c, Fresh(false), cap)
    case Drained =>
      assert Messages(c, cap) == [];
    case Message(m, rest) =>
      MessagesAppend(rest, d, cap);
      assert [m] + (Messages(rest, cap) + Messages(d, cap)) == [m] + Messages(rest, cap) + Messages(d, cap);
  }

  // One frame

  lemma FlipTwice(b: byte)
    ensures Flip(Flip(b)) == b
  {
  }

  lemma ParseStuffedByte(b: byte, u: seq<byte>, st: Parser, cap: nat)
    requires st.isBegin && !st.isEsc && |st.data| < cap
    ensures Parse(StuffByte(b) + u, st, cap) == Parse(u, st.(data := st.data + [b]), cap)
  {
    var t := StuffByte(b);
    assert (t + u)[1..] == t[1..] + u;
    if |t| == 2 {
      assert (t[1..] + u)[1..] == u;
      FlipTwice(b);
    } else {
      assert t[1..] + u == u;
    }
  }

  lemma {:induction false} ParseStuffed(p: seq<byte>, tail: seq<byte>, st: Parser, cap: nat)
    requires st.isBegin && !st.isEsc && |st.data| + |p| <= cap
    ensures Parse(Stuff(p) + tail, st, cap) == Parse(tail, st.(data := st.data + p), cap)
    decreases |p|
  {
    hide Parse, StuffByte;
    if p == [] {
      assert Stuff(p) + tail == tail && st.data + p == st.data;
    } else {
      var u := Stuff(p[1..]) + tail;
      assert Stuff(p) + tail == StuffByte(p[0]) + u;
      ParseStuffedByte(p[0], u, st, cap);
      ParseStuffed(p[1..], tail, st.(data := st.data + [p[0]]), cap);
      assert st.data + [p[0]] + p[1..] == st.data + p;
    }
  }

  /** The decoder undoes the encoder, in any state it may be in and whatever follows. */
  lemma ParseFrame(p: seq<byte>, tail: seq<byte>, st: Parser, cap: nat)
    requires |p| <= cap
    ensures Parse(Frame(p) + tail, st, cap) == Message(p, tail)
  {
    var body := Stuff(p) + ([END] + tail);
    assert Frame(p) + tail == [BEGIN] + body;
    assert ([BEGIN] + body)[1..] == body;
    var st' := Parser(true, false, []);
    ParseStuffed(p, [END] + tail, st', cap);
    assert [] + p == p && ([END] + tail)[1..] == tail;
  }

  lemma {:induction false} StuffedHasNoMarks(p: seq<byte>)
    ensures BEGIN !in Stuff(p) && END !in Stuff(p)
    decreases |p|
  {
    if p != [] { StuffedHasNoMarks(p[1..]); }
  }

  lemma {:induction false} ParseWithoutEnd(c: seq<byte>, st: Parser, cap: nat)
    requires END !in c
    ensures Parse(c, st, cap) == Drained
    decreases |c|
  {
    if c != [] { ParseWithoutEnd(c[1..], Feed(st, cap, c[0]), cap); }
  }

  lemma FrameEndsOnce(p: seq<byte>, k: nat)
    requires k <= |Frame(p)|
    ensures k < |Frame(p)| ==> END !in Frame(p)[..k]
    ensures k > 0 ==> Frame(p)[..k][0] == BEGIN
  {
    StuffedHasNoMarks(p);
    if k < |Frame(p)| {
      forall j | 0 <= j < k ensures Frame(p)[..k][j] != END {
        if j > 0 { assert Frame(p)[j] == Stuff(p)[j - 1]; }
      }
    }
  }

  lemma MessagesOfFrame(p: seq<byte>, cap: nat)
    requires |p| <= cap
    ensures Messages(Frame(p), cap) == [p]
  {
    ParseFrame(p, [], Fresh(false), cap);
    assert Frame(p) + [] == Frame(p);
    hide Frame;
    assert Messages([], cap) == [];
  }

  lemma MessagesWithoutEnd(c: seq<byte>, cap: nat)
    requires END !in c
    ensures Messages(c, cap) == []
  {
    ParseWithoutEnd(c, Fresh(false), cap);
  }

  // Alignment

  lemma AlignedAppend(c: seq<byte>, p: seq<byte>, k: nat)
    requires Aligned(c) && k <= |Frame(p)|
    ensures Aligned(c + Frame(p)[..k])
  {
    var d := Frame(p)[..k];
    forall j | 0 <= j < |c + d| - 1 && (c + d)[j] == END ensures (c + d)[j + 1] == BEGIN {
      FrameEndsOnce(p, k);
      if j >= |c| {
        assert d[j - |c|] == END;
        if k == |Frame(p)| { FrameEndsOnce(p, k - 1); }
      }
    }
    if k > 0 { FrameEndsOnce(p, k); }
  }

  /** Where a successful parse stops: after the first END. */
  lemma {:induction false} ParseStops(c: seq<byte>, st: Parser, cap: nat)
    requires Parse(c, st, cap).Message?
    ensures var n := |c| - |Parse(c, st, cap).rest|;
      && 0 < n <= |c| && Parse(c, st, cap).rest == c[n..] && c[n - 1] == END && END !in c[..n - 1]
    decreases |c|
  {
    if c[0] != END {
      ParseStops(c[1..], Feed(st, cap, c[0]), cap);
      var n := |c| - |Parse(c, st, cap).rest|;
      assert c[1..][n - 1..] == c[n..];
      assert c[..n - 1] == [c[0]] + c[1..][..n - 2];
    }
  }

  lemma AlignedRest(c: seq<byte>, st: Parser, cap: nat)
    requires Aligned(c) && Parse(c, st, cap).Message?
    ensures Aligned(Parse(c, st, cap).rest)
  {
    ParseStops(c, st, cap);
    hide Parse;
    var rest := Parse(c, st, cap).rest;
    var n := |c| - |rest|;
    if rest != [] {
      assert rest[0] == c[n];
    }
    forall j | 0 <= j < |rest| - 1 && rest[j] == END ensures rest[j + 1] == BEGIN {
      assert c[n + j] == END;
    }
  }

  lemma {:induction false} StuffSplit(p: seq<byte>, i: nat)
    requires i <= |p|
    ensures Stuff(p) == Stuff(p[..i]) + Stuff(p[i..])
    decreases i
  {
    hide StuffByte;
    if i == 0 {
      assert p[0..] == p && p[..0] == [] && Stuff([]) == [];
    } else {
      StuffSplit(p[1..], i - 1);
      assert p[..i][1..] == p[1..][..i - 1] && p[1..][i - 1..] == p[i..];
      var t, u, w := StuffByte(p[0]), Stuff(p[1..][..i - 1]), Stuff(p[i..]);
      assert Stuff(p[..i]) == t + u && Stuff(p) == t + Stuff(p[1..]);
      assert t + (u + w) == t + u + w;
    }
  }

  lemma StuffNext(p: seq<byte>, i: nat)
    requires i < |p|
    ensures Stuff(p[..i + 1]) == Stuff(p[..i]) + StuffByte(p[i])
  {
    StuffSplit(p[..i + 1], i);
    assert p[..i + 1][..i] == p[..i] && p[..i + 1][i..] == [p[i]];
    assert Stuff([p[i]]) == StuffByte(p[i]) + Stuff([]);
    hide Stuff, StuffByte;
    assert StuffByte(p[i]) + [] == StuffByte(p[i]);
  }
}
