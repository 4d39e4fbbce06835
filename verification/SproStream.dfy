/**
 * How the WebSocket side of Spro cuts a byte stream into frames (section 5.2 of RFC 6455), and
 * what it promises about any way TCP may chop that stream up.
 */
module SproStream {
  import opened Bytes

  /** A call of the package callback: the bytes handed over and the "one package" flag. */
  datatype Event = Event(bytes: seq<byte>, whole: bool)

  datatype Verdict = Frame(len: nat) | More | Bad

  /** The first bytes the code takes for a frame: final text, binary, ping and pong. */
  predicate Head(b: byte) {
    b == 0x81 || b == 0x82 || b == 0x8a || b == 0x89
  }

  /** The total length an extended header announces. */
  function Extended(b: seq<byte>): nat
    requires |b| >= 4
  {
    b[2] as int * 256 + b[3] as int + 4
  }

  /** What the bytes at the front of a non-empty buffer are. */
  function Classify(b: seq<byte>): (v: Verdict)
    requires b != []
    ensures v.Frame? ==> 2 <= v.len <= |b|
  {
    if b[0] == 0x81 || b[0] == 0x82 then
      if |b| < 2 then More
      else if b[1] <= 125 then
        var n: nat := b[1] as int + 2;
        if |b| < n then More else Frame(n)
      else if b[1] == 126 then if |b| < 4 || Extended(b) > |b| then More else Frame(Extended(b))
      else Bad
    else if b[0] == 0x8a || b[0] == 0x89 then
      if |b| < 2 then More else if b[1] == 0 then Frame(2) else Bad
    else Bad
  }

  /** What one pass over a buffer does: the callbacks, what stays, and the timer. */
  datatype Parsed = Parsed(events: seq<Event>, rest: seq<byte>, timer: bool)

  function Drain(b: seq<byte>, timer: bool): (p: Parsed)
    requires b != []
    decreases |b|
  {
    match Classify(b)
    case More => Parsed([], b, true)
    case Bad => Parsed([Event(b, false)], [], timer)
    case Frame(n) =>
      var first, left := Event(b[..n], true), b[n..];
      if left == [] then Parsed([first], [], false)
      else if !Head(left[0]) then Parsed([first, Event(left, false)], [], false)
      else
        var p := Drain(left, true);
        Parsed([first] + p.events, p.rest, p.timer)
  }

  /** A TCP chunk arrives on top of `rest`; an empty buffer is reported as an error. */
  function Received(rest: seq<byte>, chunk: seq<byte>, timer: bool): Parsed {
    if rest + chunk == [] then Parsed([Event([], false)], [], timer) else Drain(rest + chunk, timer)
  }

  function Flat(es: seq<Event>): seq<byte> {
    if es == [] then [] else es[0].bytes + Flat(es[1..])
  }

  lemma {:induction false} FlatConcat(a: seq<Event>, b: seq<Event>)
    ensures Flat(a + b) == Flat(a) + Flat(b)
  {
    if a == [] {
      assert a + b == b;
    } else {
      assert (a + b)[1..] == a[1..] + b;
      FlatConcat(a[1..], b);
    }
  }

  /** The same, without the timer. */
  datatype Pieces = Pieces(events: seq<Event>, rest: seq<byte>)

  function Cut(b: seq<byte>): Pieces
    decreases |b|
  {
    if b == [] then Pieces([], [])
    else
      match Classify(b)
      case More => Pieces([], b)
      case Bad => Pieces([Event(b, false)], [])
      case Frame(n) => Pieces([Event(b[..n], true)] + Cut(b[n..]).events, Cut(b[n..]).rest)
  }

  lemma {:induction false} DrainIsCut(b: seq<byte>, timer: bool)
    requires b != []
    ensures Drain(b, timer).events == Cut(b).events && Drain(b, timer).rest == Cut(b).rest
    decreases |b|
  {
    var v := Classify(b);
    if v.Frame? && b[v.len..] != [] {
      DrainIsCut(b[v.len..], true);
    }
  }

  /** Nothing is lost or made up, and bytes that stay behind have the timer running. */
  lemma FlatNone()
    ensures Flat([]) == []
  {
  }

  lemma FlatOne(e: Event)
    ensures Flat([e]) == e.bytes
  {
    assert [e][1..] == [];
  }

  lemma {:induction false} CutConserves(b: seq<byte>)
    ensures Flat(Cut(b).events) + Cut(b).rest == b
    decreases |b|
  {
    hide Classify, Flat;
    if b == [] || !Classify(b).Frame? {
      FlatNone();
      FlatOne(Event(b, false));
    } else {
      var n := Classify(b).len;
      var first, left := Event(b[..n], true), b[n..];
      CutConserves(left);
      FlatConcat([first], Cut(left).events);
      FlatOne(first);
      assert b == b[..n] + left == b[..n] + (Flat(Cut(left).events) + Cut(left).rest);
    }
  }

  lemma {:induction false} TimerCoversRest(b: seq<byte>, timer: bool)
    requires b != []
    ensures Drain(b, timer).rest != [] ==> Drain(b, timer).timer
    decreases |b|
  {
    var v := Classify(b);
    if v.Frame? && b[v.len..] != [] {
      TimerCoversRest(b[v.len..], true);
    }
  }

  /** The stream never shows anything but frames. */
  predicate Clean(b: seq<byte>)
    decreases |b|
  {
    b == [] || match Classify(b)
               case More => true
               case Bad => false
               case Frame(n) => Clean(b[n..])
  }

  /** More bytes never change a verdict that was reached. */
  lemma ClassifyStable(a: seq<byte>, b: seq<byte>)
    requires a != []
    ensures !Classify(a).More? ==> Classify(a + b) == Classify(a)
  {
  }

  lemma Regroup(a: seq<Event>, b: seq<Event>, c: seq<Event>)
    ensures a + b + c == a + (b + c)
  {
  }

  /** Cutting in two steps is cutting at once. */
  lemma {:induction false} CutAppend(a: seq<byte>, b: seq<byte>)
    requires Clean(a + b)
    ensures Clean(a) && Cut(a).events + Cut(Cut(a).rest + b).events == Cut(a + b).events
    ensures Clean(Cut(a).rest + b) && Cut(Cut(a).rest + b).rest == Cut(a + b).rest
    decreases |a|
  {
    hide Classify;
    if a == [] {
      assert a + b == b;
    } else {
      ClassifyStable(a, b);
      var v := Classify(a);
      if v.Frame? {
        var left := a[v.len..];
        assert (a + b)[v.len..] == left + b && (a + b)[..v.len] == a[..v.len];
        CutAppend(left, b);
        var first := [Event(a[..v.len], true)];
        Regroup(first, Cut(left).events, Cut(Cut(left).rest + b).events);
      }
    }
  }

  /** The stream from the first byte on that is taken for an error; empty if there is none. */
  function BadTail(b: seq<byte>): (t: seq<byte>)
    ensures |t| <= |b|
    decreases |b|
  {
    if b == [] then []
    else
      match Classify(b)
      case More => []
      case Bad => b
      case Frame(n) => BadTail(b[n..])
  }

  /** How many bytes it takes to see the error: one that begins no frame, or a header of two. */
  function Needed(t: seq<byte>): nat
    requires t != []
  {
    if Head(t[0]) then 2 else 1
  }

  /** There is no error, or nothing follows the bytes that show it. */
  predicate Benign(b: seq<byte>) {
    var t := BadTail(b);
    t == [] || |t| == Needed(t)
  }

  lemma {:induction false} CleanIsBenign(b: seq<byte>)
    ensures Clean(b) <==> BadTail(b) == []
    decreases |b|
  {
    if b != [] && Classify(b).Frame? {
      CleanIsBenign(b[Classify(b).len..]);
    }
  }

  /** An error shows in the bytes needed and never in fewer. */
  lemma BadNeeds(t: seq<byte>)
    requires t != []
    ensures Classify(t).Bad? ==> |t| >= Needed(t) && Classify(t[..Needed(t)]).Bad?
  {
  }

  /** Cutting a benign stream in two steps is cutting it at once. */
  lemma {:induction false} BenignAppend(a: seq<byte>, b: seq<byte>)
    requires Benign(a + b)
    ensures Cut(a).events + Cut(Cut(a).rest + b).events == Cut(a + b).events
    ensures Benign(Cut(a).rest + b) && Cut(Cut(a).rest + b).rest == Cut(a + b).rest
    decreases |a|
  {
    hide Classify;
    if a == [] {
      assert a + b == b;
    } else {
      ClassifyStable(a, b);
      BadNeeds(a);
      var v := Classify(a);
      if v.Bad? {
        assert a + b == a && b == [];
      } else if v.Frame? {
        var left := a[v.len..];
        assert (a + b)[v.len..] == left + b && (a + b)[..v.len] == a[..v.len];
        BenignAppend(left, b);
        Regroup([Event(a[..v.len], true)], Cut(left).events, Cut(Cut(left).rest + b).events);
      }
    }
  }

  // Runs

  datatype Input = Chunk(data: seq<byte>) | Expire

  /** What the object holds between calls, and every callback so far. */
  datatype Conn = Conn(rest: seq<byte>, timer: bool, log: seq<Event>)

  /** The part of a chunk that the buffer has room for; the source drops the remainder. */
  function Taken(size: nat, rest: seq<byte>, data: seq<byte>): seq<byte> {
    if |rest| + |data| <= size then data
    else if |rest| <= size then data[..size - |rest|]
    else []
  }

  /** That is the longest beginning of the chunk that fits. */
  lemma TakenFits(size: nat, rest: seq<byte>, data: seq<byte>)
    requires |rest| <= size
    ensures Taken(size, rest, data) <= data && |rest + Taken(size, rest, data)| <= size
    ensures Taken(size, rest, data) == data || |rest + Taken(size, rest, data)| == size
  {
  }

  function Step(size: nat, s: Conn, input: Input): Conn {
    match input
    case Chunk(data) =>
      var p := Received(s.rest, Taken(size, s.rest, data), s.timer);
      Conn(p.rest, p.timer, s.log + p.events)
    case Expire => if s.timer then Conn([], false, s.log + [Event(s.rest, false)]) else s
  }

  function Run(size: nat, s: Conn, inputs: seq<Input>): Conn
    decreases |inputs|
  {
    if inputs == [] then s else Run(size, Step(size, s, inputs[0]), inputs[1..])
  }

  /** All the bytes a run stores in the buffer. */
  function Stored(size: nat, s: Conn, inputs: seq<Input>): seq<byte>
    decreases |inputs|
  {
    if inputs == [] then []
    else
      var first := if inputs[0].Chunk? then Taken(size, s.rest, inputs[0].data) else [];
      first + Stored(size, Step(size, s, inputs[0]), inputs[1..])
  }

  lemma ReceivedConserves(rest: seq<byte>, chunk: seq<byte>, timer: bool)
    ensures var p := Received(rest, chunk, timer);
            Flat(p.events) + p.rest == rest + chunk && (p.rest != [] ==> p.timer)
  {
    if rest + chunk != [] {
      DrainIsCut(rest + chunk, timer);
      CutConserves(rest + chunk);
      TimerCoversRest(rest + chunk, timer);
    } else {
      assert [Event([], false)][1..] == [];
    }
  }

  lemma StepConserves(size: nat, s: Conn, input: Input)
    requires s.rest != [] ==> s.timer
    ensures var r := Step(size, s, input);
            && Flat(r.log) + r.rest
            == Flat(s.log) + s.rest + (if input.Chunk? then Taken(size, s.rest, input.data) else [])
            && (r.rest != [] ==> r.timer)
  {
    hide Taken, Received;
    match input {
      case Chunk(data) =>
        var d := Taken(size, s.rest, data);
        ReceivedConserves(s.rest, d, s.timer);
        var p := Received(s.rest, d, s.timer);
        FlatConcat(s.log, p.events);
        assert Flat(s.log) + Flat(p.events) + p.rest == Flat(s.log) + (Flat(p.events) + p.rest);
      case Expire =>
        var e := [Event(s.rest, false)];
        FlatConcat(s.log, e);
        assert e[1..] == [] && Flat(e) == s.rest;
    }
  }

  /** Byte conservation over every run of chunks and timer expiries, whatever the bytes: what
      the callbacks got, then what is still buffered, is what was stored. */
  lemma {:induction false} RunConserves(size: nat, s: Conn, inputs: seq<Input>)
    requires s.rest != [] ==> s.timer
    ensures var r := Run(size, s, inputs);
            && Flat(r.log) + r.rest == Flat(s.log) + s.rest + Stored(size, s, inputs)
            && (r.rest != [] ==> r.timer)
    decreases |inputs|
  {
    hide Step, Flat;
    if inputs != [] {
      StepConserves(size, s, inputs[0]);
      RunConserves(size, Step(size, s, inputs[0]), inputs[1..]);
    }
  }

  function Concat(cs: seq<seq<byte>>): seq<byte> {
    if cs == [] then [] else cs[0] + Concat(cs[1..])
  }

  function Chunks(cs: seq<seq<byte>>): (inputs: seq<Input>)
    ensures |inputs| == |cs|
  {
    if cs == [] then [] else [Chunk(cs[0])] + Chunks(cs[1..])
  }

  /** Chunks that are not empty and always find room. */
  ghost predicate FitBuffer(size: nat, rest: seq<byte>, cs: seq<seq<byte>>)
    decreases |cs|
  {
    cs == [] || (cs[0] != [] && |rest + cs[0]| <= size && FitBuffer(size, Cut(rest + cs[0]).rest, cs[1..]))
  }

  /** However a benign stream is cut into chunks that find room, the callbacks are those for the
      whole stream. */
  lemma {:induction false} BenignIndependence(size: nat, s: Conn, cs: seq<seq<byte>>)
    requires Benign(s.rest + Concat(cs)) && FitBuffer(size, s.rest, cs) && (s.rest == [] || cs != [])
    ensures var r := Run(size, s, Chunks(cs));
            && r.log == s.log + Cut(s.rest + Concat(cs)).events
            && r.rest == Cut(s.rest + Concat(cs)).rest
    decreases |cs|
  {
    hide Benign, Drain;
    if cs == [] {
      assert s.rest + Concat(cs) == [];
    } else {
      var a, b := s.rest + cs[0], Concat(cs[1..]);
      assert s.rest + Concat(cs) == a + b;
      BenignAppend(a, b);
      DrainIsCut(a, s.timer);
      var t := Step(size, s, Chunk(cs[0]));
      assert t.rest == Cut(a).rest && t.log == s.log + Cut(a).events;
      assert Chunks(cs)[1..] == Chunks(cs[1..]);
      if cs[1..] == [] {
        assert a + b == a;
      } else {
        BenignIndependence(size, t, cs[1..]);
        Regroup(s.log, Cut(a).events, Cut(Cut(a).rest + b).events);
      }
    }
  }
  /** So it is for a clean one. */
  lemma ChunkingIndependence(size: nat, s: Conn, cs: seq<seq<byte>>)
    requires Clean(s.rest + Concat(cs)) && FitBuffer(size, s.rest, cs) && (s.rest == [] || cs != [])
    ensures var r := Run(size, s, Chunks(cs));
            && r.log == s.log + Cut(s.rest + Concat(cs)).events
            && r.rest == Cut(s.rest + Concat(cs)).rest
  {
    CleanIsBenign(s.rest + Concat(cs));
    BenignIndependence(size, s, cs);
  }

  // When chunks matter

  /** The number of bytes before the error. */
  function Before(b: seq<byte>): nat {
    |b| - |BadTail(b)|
  }

  /** A frame is recognised from its own bytes. */
  lemma FrameAlone(b: seq<byte>, u: seq<byte>)
    requires b != [] && Classify(b).Frame?
    ensures Classify(b[..Classify(b).len] + u) == Classify(b)
  {
    var n := Classify(b).len;
    assert Classify(b[..n]) == Frame(n);
    ClassifyStable(b[..n], u);
  }

  /** The frames before the error. */
  function FramesBefore(b: seq<byte>): seq<Event>
    decreases |b|
  {
    if b == [] || !Classify(b).Frame? then []
    else [Event(b[..Classify(b).len], true)] + FramesBefore(b[Classify(b).len..])
  }

  /** The error is the end of the stream, and is reported behind the frames. */
  lemma {:induction false} ErrorReported(b: seq<byte>)
    requires BadTail(b) != []
    ensures b[Before(b)..] == BadTail(b) && Classify(BadTail(b)).Bad?
    ensures Cut(b).events == FramesBefore(b) + [Event(BadTail(b), false)]
    decreases |b|
  {
    hide Classify;
    if Classify(b).Frame? {
      var n := Classify(b).len;
      ErrorReported(b[n..]);
      Regroup([Event(b[..n], true)], FramesBefore(b[n..]), [Event(BadTail(b), false)]);
    }
  }

  lemma SpliceAt(b: seq<byte>, n: nat, j: nat, u: seq<byte>)
    requires n + j <= |b|
    ensures var w := b[n..][..j] + u;
            && b[..n + j] + u == b[..n] + w
            && (b[..n] + w)[..n] == b[..n] && (b[..n] + w)[n..] == w
  {
  }

  /** With another error in its place, the frames are reported as before, and then that error. */
  lemma {:induction false} ErrorReplaced(b: seq<byte>, u: seq<byte>)
    requires BadTail(b) != [] && u != [] && Classify(u).Bad?
    ensures Cut(b[..Before(b)] + u) == Pieces(FramesBefore(b) + [Event(u, false)], [])
    decreases |b|
  {
    hide Classify;
    if Classify(b).Bad? {
      assert b[..0] + u == u;
    } else {
      var n := Classify(b).len;
      var left := b[n..];
      ErrorReplaced(left, u);
      var w := left[..Before(left)] + u;
      FrameAlone(b, w);
      SpliceAt(b, n, Before(left), u);
      Regroup([Event(b[..n], true)], FramesBefore(left), [Event(u, false)]);
    }
  }

  const Start: Conn := Conn([], false, [])

  /** Every way to cut `b` into chunks is reported as the whole. */
  ghost predicate ChunksInvisible(size: nat, b: seq<byte>) {
    forall cs :: Concat(cs) == b && FitBuffer(size, [], cs) ==> Run(size, Start, Chunks(cs)).log == Cut(b).events
  }

  /** A stream with bytes behind its error, cut right behind the bytes that show the error: the error
      is reported with those bytes only. */
  lemma SplitShows(size: nat, b: seq<byte>) returns (cs: seq<seq<byte>>)
    requires !Benign(b) && |b| <= size
    ensures Concat(cs) == b && FitBuffer(size, [], cs)
    ensures Run(size, Start, Chunks(cs)).log != Cut(b).events
  {
    hide Classify, Run, Step, Cut, Drain;
    var t := BadTail(b);
    ErrorSplits(b);
    var k := Before(b) + Needed(t);
    var a, c := b[..k], b[k..];
    cs := [a, c];
    var last := [c];
    assert cs[1..] == last && last[1..] == [] && Concat(last) == c + [] == c;
    assert a + c == b && Concat(cs) == b;
    assert Chunks(last) == [Chunk(c)] && Chunks(cs) == [Chunk(a), Chunk(c)];
    assert [] + a == a && [] + c == c;
    assert FitBuffer(size, [], last) by { assert FitBuffer(size, Cut([] + c).rest, last[1..]); }
    var es := Cut(b).events;
    RunTwo(size, a, c);
    var log := Run(size, Start, Chunks(cs)).log;
    assert log[|es| - 1] == Cut(a).events[|es| - 1];
  }

  lemma ErrorSplits(b: seq<byte>)
    requires !Benign(b)
    ensures var k := Before(b) + Needed(BadTail(b)); var es := Cut(b).events;
            && 0 < k < |b| && Cut(b[..k]).rest == [] && es != []
            && |Cut(b[..k]).events| == |es| && Cut(b[..k]).events[|es| - 1] != es[|es| - 1]
  {
    hide Classify;
    var t := BadTail(b);
    ErrorReported(b);
    BadNeeds(t);
    var u := t[..Needed(t)];
    ErrorReplaced(b, u);
    assert b[..Before(b) + Needed(t)] == b[..Before(b)] + u;
  }

  /** Two chunks, the first of which leaves nothing behind. */
  lemma RunTwo(size: nat, a: seq<byte>, c: seq<byte>)
    requires a != [] && c != [] && |a| <= size && |c| <= size && Cut(a).rest == []
    ensures Run(size, Start, [Chunk(a), Chunk(c)]).log == Cut(a).events + Cut(c).events
  {
    hide Drain, Cut;
    assert [] + a == a && [] + c == c;
    DrainIsCut(a, false);
    var s := Step(size, Start, Chunk(a));
    assert s.log == Cut(a).events && s.rest == [] by { assert [] + Cut(a).events == Cut(a).events; }
    DrainIsCut(c, s.timer);
    var inputs := [Chunk(a), Chunk(c)];
    assert inputs[1..] == [Chunk(c)] && [Chunk(c)][1..] == [];
    assert Run(size, s, [Chunk(c)]) == Step(size, s, Chunk(c));
    assert Run(size, Start, inputs) == Run(size, s, inputs[1..]);
  }

  /** How a stream is cut into chunks does not show if and only if the stream has no error, or ends
      with the bytes that show it. (The buffer takes the whole stream.) */
  lemma ChunksInvisibleIff(size: nat, b: seq<byte>)
    requires |b| <= size
    ensures ChunksInvisible(size, b) <==> Benign(b)
  {
    hide Benign, Run, Cut;
    if Benign(b) {
      forall cs | Concat(cs) == b && FitBuffer(size, [], cs)
        ensures Run(size, Start, Chunks(cs)).log == Cut(b).events
      {
        assert [] + b == b && [] + Cut(b).events == Cut(b).events;
        BenignIndependence(size, Start, cs);
      }
    } else {
      var cs := SplitShows(size, b);
    }
  }

  // Frames as section 5.2 of RFC 6455 lays them out, unmasked

  datatype WsFrame = Text(payload: seq<byte>) | Binary(payload: seq<byte>) | Ping | Pong

  predicate Short(f: WsFrame) {
    (f.Text? || f.Binary?) ==> |f.payload| < 65536
  }

  function Length(n: nat): seq<byte>
    requires n < 65536
  {
    if n <= 125 then [n as byte] else [126, (n / 256) as byte, (n % 256) as byte]
  }

  function Wire(f: WsFrame): (w: seq<byte>)
    requires Short(f)
    ensures |w| >= 2
  {
    match f
    case Text(p) => [0x81] + Length(|p|) + p
    case Binary(p) => [0x82] + Length(|p|) + p
    case Ping => [0x89, 0]
    case Pong => [0x8a, 0]
  }

  ghost predicate AllShort(fs: seq<WsFrame>) {
    forall i :: 0 <= i < |fs| ==> Short(fs[i])
  }

  function Stream(fs: seq<WsFrame>): seq<byte>
    requires AllShort(fs)
  {
    if fs == [] then [] else Wire(fs[0]) + Stream(fs[1..])
  }

  function Deliveries(fs: seq<WsFrame>): seq<Event>
    requires AllShort(fs)
  {
    if fs == [] then [] else [Event(Wire(fs[0]), true)] + Deliveries(fs[1..])
  }

  lemma ClassifyWire(f: WsFrame, more: seq<byte>)
    requires Short(f)
    ensures Classify(Wire(f) + more) == Frame(|Wire(f)|)
  {
    var w := Wire(f) + more;
    if f.Text? || f.Binary? {
      var n := |f.payload|;
      assert w[1] == Length(n)[0];
      if n > 125 {
        assert w[2] == Length(n)[1] && w[3] == Length(n)[2];
        assert Extended(w) == n + 4;
      }
    }
  }

  lemma {:induction false} CutFrames(fs: seq<WsFrame>)
    requires AllShort(fs)
    ensures Clean(Stream(fs)) && Cut(Stream(fs)) == Pieces(Deliveries(fs), [])
  {
    hide Classify, Wire;
    if fs != [] {
      var w, rest := Wire(fs[0]), Stream(fs[1..]);
      ClassifyWire(fs[0], rest);
      CutFrames(fs[1..]);
      assert (w + rest)[|w|..] == rest && (w + rest)[..|w|] == w;
    }
  }

  /** Every split of a sequence of frames into non-empty chunks that find room yields exactly
      those frames, in order and flagged whole, and leaves nothing behind. */
  lemma FramesDelivered(size: nat, fs: seq<WsFrame>, cs: seq<seq<byte>>)
    requires AllShort(fs) && Concat(cs) == Stream(fs) && FitBuffer(size, [], cs)
    ensures Run(size, Conn([], false, []), Chunks(cs)).log == Deliveries(fs)
    ensures Run(size, Conn([], false, []), Chunks(cs)).rest == []
  {
    CutFrames(fs);
    assert [] + Concat(cs) == Concat(cs);
    ChunkingIndependence(size, Conn([], false, []), cs);
  }

  /** No frame takes more than `most` bytes. */
  ghost predicate NoLonger(fs: seq<WsFrame>, most: nat)
    requires AllShort(fs)
  {
    forall i :: 0 <= i < |fs| ==> |Wire(fs[i])| <= most
  }

  /** What stays behind of a stretch of such a stream is the beginning of one frame, and what
      follows completes it: from frame `k` on. */
  lemma {:induction false} RestIsBeginning(fs: seq<WsFrame>, a: seq<byte>, b: seq<byte>, most: nat) returns (k: nat)
    requires AllShort(fs) && NoLonger(fs, most) && most > 0 && a + b == Stream(fs)
    ensures k <= |fs| && |Cut(a).rest| < most && Cut(a).rest + b == Stream(fs[k..])
  {
    hide Classify, Wire;
    if fs == [] || a == [] {
      assert a == [] && fs[0..] == fs;
      return 0;
    }
    var w, rest := Wire(fs[0]), Stream(fs[1..]);
    ClassifyWire(fs[0], rest);
    ClassifyStable(a, b);
    if |a| < |w| {
      assert fs[0..] == fs;
      return 0;
    }
    assert a[..|w|] == (a + b)[..|w|] == w;
    ClassifyWire(fs[0], a[|w|..]);
    assert a == w + a[|w|..];
    assert a[|w|..] + b == (a + b)[|w|..] == rest;
    k := RestIsBeginning(fs[1..], a[|w|..], b, most);
    assert fs[1..][k..] == fs[k + 1..];
    k := k + 1;
  }

  /** Chunks always find room when a frame short of a byte and a chunk fit together. */
  lemma {:induction false} SmallChunksFit(size: nat, fs: seq<WsFrame>, rest: seq<byte>, cs: seq<seq<byte>>,
                                          most: nat, chunk: nat)
    requires AllShort(fs) && NoLonger(fs, most) && rest + Concat(cs) == Stream(fs) && |rest| < most
    requires forall i :: 0 <= i < |cs| ==> 0 < |cs[i]| <= chunk
    requires most - 1 + chunk <= size
    ensures FitBuffer(size, rest, cs)
    decreases |cs|
  {
    hide Cut, Stream, Wire;
    if cs != [] {
      var a, b := rest + cs[0], Concat(cs[1..]);
      assert rest + Concat(cs) == a + b;
      var k := RestIsBeginning(fs, a, b, most);
      SmallChunksFit(size, fs[k..], Cut(a).rest, cs[1..], most, chunk);
    }
  }

  /** So frames of at most `most` bytes in chunks of at most `chunk` bytes are all delivered by a
      buffer of `most - 1 + chunk` bytes. */
  lemma SmallChunksDeliver(size: nat, fs: seq<WsFrame>, cs: seq<seq<byte>>, most: nat, chunk: nat)
    requires AllShort(fs) && NoLonger(fs, most) && Concat(cs) == Stream(fs)
    requires forall i :: 0 <= i < |cs| ==> 0 < |cs[i]| <= chunk
    requires 0 < most && most - 1 + chunk <= size
    ensures Run(size, Conn([], false, []), Chunks(cs)).log == Deliveries(fs)
    ensures Run(size, Conn([], false, []), Chunks(cs)).rest == []
  {
    assert [] + Concat(cs) == Concat(cs);
    SmallChunksFit(size, fs, [], cs, most, chunk);
    FramesDelivered(size, fs, cs);
  }

  lemma StepFresh(size: nat, log: seq<Event>, data: seq<byte>)
    requires data != [] && |data| <= size
    ensures var p := Drain(data, false);
            Step(size, Conn([], false, log), Chunk(data)) == Conn(p.rest, p.timer, log + p.events)
  {
    assert [] + data == data;
  }

  lemma DrainWire(f: WsFrame)
    requires Short(f)
    ensures Drain(Wire(f), false) == Parsed([Event(Wire(f), true)], [], false)
  {
    ClassifyWire(f, []);
    assert Wire(f) + [] == Wire(f) && Wire(f)[..|Wire(f)|] == Wire(f);
  }

  /** An input that shows the chunks: in one chunk a stray byte takes the frame behind it along, in
      two the frame is delivered. */
  lemma StrayByte(size: nat, stray: byte, f: WsFrame)
    requires !Head(stray) && Short(f) && 1 + |Wire(f)| <= size
    ensures var s, b := Conn([], false, []), [stray] + Wire(f);
            && Run(size, s, [Chunk(b)]).log == [Event(b, false)]
            && Run(size, s, [Chunk([stray]), Chunk(Wire(f))]).log
            == [Event([stray], false), Event(Wire(f), true)]
  {
    hide Step, Wire;
    var s, b := Conn([], false, []), [stray] + Wire(f);
    StepFresh(size, [], b);
    StepFresh(size, [], [stray]);
    StepFresh(size, [Event([stray], false)], Wire(f));
    DrainWire(f);
    var split := [Chunk([stray]), Chunk(Wire(f))];
    assert split[1..] == [split[1]] && [split[1]][1..] == [] && [Chunk(b)][1..] == [];
    assert Classify(b).Bad? && Classify([stray]).Bad?;
    var t := Step(size, s, Chunk([stray]));
    assert t == Conn([], false, [Event([stray], false)]) by {
      assert [] + [Event([stray], false)] == [Event([stray], false)];
    }
    assert Run(size, t, [split[1]]) == Step(size, t, split[1]);
    assert Run(size, s, split) == Run(size, t, split[1..]);
  }
}
