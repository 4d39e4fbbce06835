/** The outbound queue: frames in a ring that may be full, and the loop that evicts old messages. */
module MqttQueue {
  import opened Bytes
  import opened Framing

  // The queue's operations on the bytes in the ring

  function Accepts(c: seq<byte>, p: seq<byte>, size: nat): bool {
    |c| + |Frame(p)| <= size
  }

  /** `QUEUE_Puts`: a frame that does not fit is cut off where the ring is full. */
  function AfterPut(c: seq<byte>, p: seq<byte>, size: nat): (c': seq<byte>)
    requires |c| <= size
    ensures |c'| <= size
  {
    if Accepts(c, p, size) then c + Frame(p) else c + Frame(p)[..size - |c|]
  }

  datatype Op = Puts(msg: seq<byte>) | Gets(isBegin: bool)

  /** The ring with two ledgers: what puts accepted, and what gets (for sending or eviction) returned. */
  datatype History = History(ring: seq<byte>, accepted: seq<seq<byte>>, removed: seq<seq<byte>>)

  function Step(h: History, op: Op, size: nat, cap: nat): History
    requires |h.ring| <= size
  {
    match op
    case Puts(p) =>
      History(AfterPut(h.ring, p, size), if Accepts(h.ring, p, size) then h.accepted + [p] else h.accepted, h.removed)
    case Gets(isBegin) =>
      match Parse(h.ring, Fresh(isBegin), cap)
      case Drained => h.(ring := [])
      case Message(m, rest) => h.(ring := rest, removed := h.removed + [m])
  }

  ghost predicate Consistent(h: History, size: nat, cap: nat) {
    |h.ring| <= size && Aligned(h.ring) && h.accepted == h.removed + Messages(h.ring, cap)
  }

  // One put, one get

  lemma PutKeeps(c: seq<byte>, p: seq<byte>, size: nat, cap: nat)
    requires |c| <= size && Aligned(c) && |p| <= cap
    ensures Aligned(AfterPut(c, p, size))
    ensures Messages(AfterPut(c, p, size), cap)
         == if Accepts(c, p, size) then Messages(c, cap) + [p] else Messages(c, cap)
  {
    var k := if Accepts(c, p, size) then |Frame(p)| else size - |c|;
    assert Frame(p)[..|Frame(p)|] == Frame(p);
    AlignedAppend(c, p, k);
    FrameEndsOnce(p, k);
    hide Frame, Messages, Aligned;
    MessagesAppend(c, Frame(p)[..k], cap);
    if Accepts(c, p, size) {
      MessagesOfFrame(p, cap);
    } else {
      MessagesWithoutEnd(Frame(p)[..k], cap);
      assert Messages(c, cap) + [] == Messages(c, cap);
    }
  }

  /** A get returns the oldest message whole and takes it out, or finds none and empties the ring; what
      `isBegin` held before does not matter. */
  lemma GetKeeps(c: seq<byte>, isBegin: bool, cap: nat)
    requires Aligned(c)
    ensures var g := Parse(c, Fresh(isBegin), cap);
      && (g.Drained? ==> Messages(c, cap) == [])
      && (g.Message? ==> Aligned(g.rest) && Messages(c, cap) == [g.m] + Messages(g.rest, cap))
  {
    BeginResets(c, Fresh(isBegin), Fresh(false), cap);
    hide Parse;
    if Parse(c, Fresh(isBegin), cap).Message? { AlignedRest(c, Fresh(isBegin), cap); }
  }

  lemma StepKeeps(h: History, op: Op, size: nat, cap: nat)
    requires Consistent(h, size, cap) && (op.Puts? ==> |op.msg| <= cap)
    ensures Consistent(Step(h, op, size, cap), size, cap)
  {
    hide Messages, Parse, Aligned, Frame;
    match op
    case Puts(p) =>
      PutKeeps(h.ring, p, size, cap);
      assert h.removed + (Messages(h.ring, cap) + [p]) == h.removed + Messages(h.ring, cap) + [p];
    case Gets(isBegin) =>
      GetKeeps(h.ring, isBegin, cap);
      EmptyRing(cap);
      match Parse(h.ring, Fresh(isBegin), cap)
      case Drained =>
      case Message(m, rest) =>
        assert h.removed + ([m] + Messages(rest, cap)) == h.removed + [m] + Messages(rest, cap);
  }

  lemma EmptyRing(cap: nat)
    ensures Messages([], cap) == [] && Aligned([])
  {
  }

  // Whole runs

  ghost function Run(ops: seq<Op>, size: nat, cap: nat): (h: History)
    ensures |h.ring| <= size
    decreases |ops|
  {
    if ops == [] then History([], [], []) else
    Step(Run(ops[..|ops| - 1], size, cap), ops[|ops| - 1], size, cap)
  }

  /** Conservation over every run of puts and gets: the accepted messages are the removed ones, in
      order, followed by those still in the ring, whatever truncated frames the ring also holds. */
  lemma {:induction false} Conservation(ops: seq<Op>, size: nat, cap: nat)
    requires forall k :: 0 <= k < |ops| && ops[k].Puts? ==> |ops[k].msg| <= cap
    ensures Consistent(Run(ops, size, cap), size, cap)
    decreases |ops|
  {
    if ops == [] {
      EmptyRing(cap);
    } else {
      Conservation(ops[..|ops| - 1], size, cap);
      StepKeeps(Run(ops[..|ops| - 1], size, cap), ops[|ops| - 1], size, cap);
    }
  }

  // The eviction loop

  datatype Outcome = Outcome(ok: bool, ring: seq<byte>, evicted: seq<seq<byte>>)

  lemma RefusedPutDecodesSame(c: seq<byte>, p: seq<byte>, size: nat, cap: nat)
    requires |c| <= size && !Accepts(c, p, size)
    ensures Messages(AfterPut(c, p, size), cap) == Messages(c, cap)
  {
    var k := size - |c|;
    FrameEndsOnce(p, k);
    hide Frame, Messages;
    MessagesAppend(c, Frame(p)[..k], cap);
    MessagesWithoutEnd(Frame(p)[..k], cap);
    assert Messages(c, cap) + [] == Messages(c, cap);
  }

  /** The loop in MQTT_Publish, MQTT_Subscribe, MQTT_UnSubscribe and MQTT_Ping: put; while that fails, get
      and throw away. It ends because each turn removes one complete frame. */
  function Evict(c: seq<byte>, p: seq<byte>, size: nat, cap: nat): (r: Outcome)
    requires |c| <= size
    ensures |r.ring| <= size
    decreases |Messages(c, cap)|
  {
    if Accepts(c, p, size) then Outcome(true, c + Frame(p), []) else
    match Parse(AfterPut(c, p, size), Fresh(false), cap)
    case Drained => Outcome(false, [], [])
    case Message(m, rest) =>
      RefusedPutDecodesSame(c, p, size, cap);
      var r := Evict(rest, p, size, cap);
      r.(evicted := [m] + r.evicted)
  }

  /** On success the queue is what the evictions left of the old one, and then the new message; on
      failure every old message has been evicted and the ring is empty. */
  lemma {:induction false} EvictKeeps(c: seq<byte>, p: seq<byte>, size: nat, cap: nat)
    requires |c| <= size && |p| <= cap && Aligned(c)
    ensures var r := Evict(c, p, size, cap);
      && Aligned(r.ring)
      && Messages(c, cap) + (if r.ok then [p] else []) == r.evicted + Messages(r.ring, cap)
      && (r.ok ==> |r.evicted| <= |Messages(c, cap)|)
      && (!r.ok ==> r.ring == [] && r.evicted == Messages(c, cap))
    decreases |Messages(c, cap)|
  {
    hide Messages, Parse, Aligned, Frame;
    PutKeeps(c, p, size, cap);
    if Accepts(c, p, size) {
      assert Evict(c, p, size, cap) == Outcome(true, AfterPut(c, p, size), []);
      assert [] + Messages(AfterPut(c, p, size), cap) == Messages(AfterPut(c, p, size), cap);
    } else {
      GetKeeps(AfterPut(c, p, size), false, cap);
      EmptyRing(cap);
      match Parse(AfterPut(c, p, size), Fresh(false), cap)
      case Drained =>
      case Message(m, rest) =>
        EvictKeeps(rest, p, size, cap);
        var r := Evict(rest, p, size, cap);
        var tail: seq<seq<byte>> := if r.ok then [p] else [];
        assert [m] + Messages(rest, cap) + tail == [m] + (Messages(rest, cap) + tail);
        assert [m] + r.evicted + Messages(r.ring, cap) == [m] + (r.evicted + Messages(r.ring, cap));
        assert Messages(c, cap) + [] == Messages(c, cap);
    }
  }

  /** What that says about the decodable queue: a suffix of the old one, and then the new message. */
  lemma EvictSuffix(c: seq<byte>, p: seq<byte>, size: nat, cap: nat) returns (k: nat)
    requires |c| <= size && |p| <= cap && Aligned(c)
    ensures var r := Evict(c, p, size, cap);
      && k <= |Messages(c, cap)|
      && r.evicted == Messages(c, cap)[..k]
      && Messages(r.ring, cap) == if r.ok then Messages(c, cap)[k..] + [p] else []
  {
    hide Messages, Evict;
    EvictKeeps(c, p, size, cap);
    EmptyRing(cap);
    var r, was := Evict(c, p, size, cap), Messages(c, cap);
    k := |r.evicted|;
    if r.ok {
      assert (was + [p])[..k] == was[..k] && (was + [p])[k..] == was[k..] + [p];
      assert (r.evicted + Messages(r.ring, cap))[..k] == r.evicted;
      assert (r.evicted + Messages(r.ring, cap))[k..] == Messages(r.ring, cap);
    }
  }

  // Exactly when a message gets in

  /** The index of the first END in c, or |c|. */
  function FirstEnd(c: seq<byte>): (e: nat)
    ensures e <= |c|
  {
    if c == [] || c[0] == END then 0 else 1 + FirstEnd(c[1..])
  }

  lemma {:induction false} FirstEndIs(c: seq<byte>, e: nat)
    requires e <= |c| && (e < |c| ==> c[e] == END) && forall k :: 0 <= k < e ==> c[k] != END
    ensures FirstEnd(c) == e
    decreases |c|
  {
    if e > 0 { FirstEndIs(c[1..], e - 1); }
  }

  lemma {:induction false} FirstEndFound(c: seq<byte>)
    ensures FirstEnd(c) < |c| ==> c[FirstEnd(c)] == END
    ensures forall k :: 0 <= k < FirstEnd(c) ==> c[k] != END
    decreases |c|
  {
    if c != [] && c[0] != END {
      FirstEndFound(c[1..]);
      forall k | 0 <= k < FirstEnd(c) ensures c[k] != END {
        if k > 0 { assert c[k] == c[1..][k - 1]; }
      }
    }
  }

  /** Some run of bytes from just after one frame end through the next (or from the start of the ring
      through the first) is at least n long. */
  function SpanFits(c: seq<byte>, n: nat): bool
    decreases |c|
  {
    var e := FirstEnd(c);
    e < |c| && (e + 1 >= n || SpanFits(c[e + 1..], n))
  }

  lemma FirstEndAppend(c: seq<byte>, g: seq<byte>)
    requires END !in g
    ensures FirstEnd(c) < |c| ==> FirstEnd(c + g) == FirstEnd(c)
    ensures FirstEnd(c) == |c| ==> FirstEnd(c + g) == |c + g|
  {
    FirstEndFound(c);
    FirstEndIs(c + g, if FirstEnd(c) < |c| then FirstEnd(c) else |c + g|);
  }

  lemma {:induction false} SpanFitsAppend(c: seq<byte>, g: seq<byte>, n: nat)
    requires END !in g
    ensures SpanFits(c + g, n) == SpanFits(c, n)
    decreases |c|
  {
    FirstEndAppend(c, g);
    var e := FirstEnd(c);
    if e < |c| {
      SpanFitsAppend(c[e + 1..], g, n);
      assert (c + g)[e + 1..] == c[e + 1..] + g;
    }
  }

  lemma ParseAtFirstEnd(c: seq<byte>, st: Parser, cap: nat)
    ensures var g := Parse(c, st, cap);
      && (g.Drained? <==> FirstEnd(c) == |c|)
      && (g.Message? ==> FirstEnd(c) < |c| && g.rest == c[FirstEnd(c) + 1..])
  {
    match Parse(c, st, cap)
    case Drained =>
      FirstEndFound(c);
      if FirstEnd(c) < |c| { ParseFindsEnd(c, FirstEnd(c), st, cap); }
    case Message(m, rest) =>
      ParseStops(c, st, cap);
      var n := |c| - |rest|;
      forall k | 0 <= k < n - 1 ensures c[k] != END { assert c[k] == c[..n - 1][k]; }
      FirstEndIs(c, n - 1);
  }

  lemma {:induction false} ParseFindsEnd(c: seq<byte>, e: nat, st: Parser, cap: nat)
    requires e < |c| && c[e] == END
    ensures Parse(c, st, cap).Message?
    decreases |c|
  {
    if c[0] != END { ParseFindsEnd(c[1..], e - 1, Feed(st, cap, c[0]), cap); }
  }

  /** A message gets in if and only if it fits the free space now, or one of the runs the evictions free
      is by itself long enough for its whole frame: failed puts fill all other space with garbage. */
  lemma {:induction false} EvictSucceedsIff(c: seq<byte>, p: seq<byte>, size: nat, cap: nat)
    requires |c| <= size
    ensures Evict(c, p, size, cap).ok <==> Accepts(c, p, size) || SpanFits(c, |Frame(p)|)
    decreases |Messages(c, cap)|
  {
    hide Parse, FirstEnd, Frame;
    if !Accepts(c, p, size) {
      var g, full := Frame(p)[..size - |c|], AfterPut(c, p, size);
      FrameEndsOnce(p, size - |c|);
      FirstEndAppend(c, g);
      ParseAtFirstEnd(full, Fresh(false), cap);
      match Parse(full, Fresh(false), cap)
      case Drained =>
      case Message(m, rest) =>
        RefusedPutDecodesSame(c, p, size, cap);
        EvictSucceedsIff(rest, p, size, cap);
        var e := FirstEnd(c);
        assert rest == c[e + 1..] + g;
        SpanFitsAppend(c[e + 1..], g, |Frame(p)|);
    }
  }

  /** So fitting an empty ring is not enough: here a frame of five bytes is refused by a ring of ten. */
  lemma FitsEmptyRingYetRefused()
    ensures var c: seq<byte>, p: seq<byte> := [BEGIN, 1, END, BEGIN, 2, END], [7, 8, 9];
      |Frame(p)| == 5 && Aligned(c) && !Evict(c, p, 10, 1024).ok
  {
    var c: seq<byte>, p: seq<byte> := [BEGIN, 1, END, BEGIN, 2, END], [7, 8, 9];
    assert |Frame(p)| == 5 by {
      assert Stuff([9]) == [9] && Stuff([8, 9]) == [8, 9] && Stuff(p) == [7, 8, 9];
    }
    hide Frame, Evict;
    assert !SpanFits(c, 5) by {
      var d := c[3..];
      assert d == [BEGIN, 2, END];
      FirstEndIs(c, 2);
      FirstEndIs(d, 2);
      assert d[3..] == [] && !SpanFits([], 5) && !SpanFits(d, 5);
    }
    EvictSucceedsIff(c, p, 10, 1024);
  }
}
