/** What the package callback is told, in the bytes themselves: a package is flagged whole if and only
    if it is one short unmasked frame (section 5.2 of RFC 6455), and nothing else passes for one. */
module SproFrames {
  import opened Bytes
  import opened SproStream
  import Spro

  /** Exactly one frame: final text or binary with a length of one byte or of two more, or a ping or a
      pong without payload. */
  predicate WholeFrame(b: seq<byte>) {
    || (|b| >= 2 && (b[0] == 0x81 || b[0] == 0x82) && b[1] <= 125 && |b| == 2 + b[1] as int)
    || (|b| >= 4 && (b[0] == 0x81 || b[0] == 0x82) && b[1] == 126 && |b| == 4 + b[2] as int * 256 + b[3] as int)
    || b == [0x89, 0] || b == [0x8A, 0]
  }

  /** A front no frame begins with: another first byte, a data header with a mask or an eight-byte
      length, or a ping or pong with a mask or a payload. */
  predicate NoFrame(b: seq<byte>) {
    b != [] &&
    if b[0] == 0x81 || b[0] == 0x82 then |b| >= 2 && b[1] > 126
    else if b[0] == 0x89 || b[0] == 0x8A then |b| >= 2 && b[1] != 0
    else true
  }

  ghost predicate FrameInFront(b: seq<byte>) {
    exists n :: 0 <= n <= |b| && WholeFrame(b[..n])
  }

  /** The verdict for a frame: one stands in front, and it is that long. */
  lemma FrameIff(b: seq<byte>, n: nat)
    requires b != []
    ensures Classify(b) == Frame(n) <==> n <= |b| && WholeFrame(b[..n])
  {
    if 2 <= n <= |b| {
      var f := b[..n];
      assert f[0] == b[0] && f[1] == b[1];
      if n >= 4 { assert f[2] == b[2] && f[3] == b[3]; }
      assert f == [0x89, 0] || f == [0x8A, 0] <==> n == 2 && (b[0] == 0x89 || b[0] == 0x8A) && b[1] == 0;
    }
  }

  /** Bytes to be rejected are those no frame can come of, whatever follows. */
  lemma BadIff(b: seq<byte>)
    requires b != []
    ensures Classify(b).Bad? <==> NoFrame(b)
    ensures NoFrame(b) <==> forall x :: !FrameInFront(b + x)
  {
    if NoFrame(b) {
      forall x ensures !FrameInFront(b + x) {
        forall n | 0 <= n <= |b + x| ensures !WholeFrame((b + x)[..n]) {
          FrameIff(b + x, n);
        }
      }
    } else {
      var x := Completion(b);
      assert !NoFrame(b) && FrameInFront(b + x);
    }
  }

  /** What completes a front that is not rejected. */
  lemma Completion(b: seq<byte>) returns (x: seq<byte>)
    requires b != [] && !NoFrame(b)
    ensures FrameInFront(b + x)
  {
    var v := Classify(b);
    if v.Frame? {
      x := [];
      assert b + x == b;
      FrameIff(b, v.len);
      assert WholeFrame((b + x)[..v.len]);
    } else {
      x := if |b| == 1 then [0] else if b[1] <= 125 then seq(2 + b[1] as int - |b|, _ => 0)
           else if |b| < 4 then seq(4 + (if |b| == 3 then b[2] as int * 256 else 0) - |b|, _ => 0)
           else seq(Extended(b) - |b|, _ => 0);
      assert WholeFrame((b + x)[..|b + x|]);
    }
  }

  /** A buffer is reported at once, in full and not as a whole package, if and only if no frame begins
      with it. */
  lemma RejectedIff(b: seq<byte>, timer: bool)
    requires b != []
    ensures NoFrame(b) <==> Drain(b, timer) == Parsed([Event(b, false)], [], timer)
    ensures NoFrame(b) <==> Drain(b, timer).events != [] && !Drain(b, timer).events[0].whole
  {
    BadIff(b);
    hide NoFrame;
  }

  // Over every run

  /** A call of the callback says the truth: flagged, the bytes are one frame; not flagged, no frame
      stands in front of them. */
  ghost predicate Truthful(e: Event) {
    (e.whole ==> WholeFrame(e.bytes)) && (!e.whole ==> !FrameInFront(e.bytes))
  }

  ghost predicate AllTruthful(es: seq<Event>) {
    forall i :: 0 <= i < |es| ==> Truthful(es[i])
  }

  lemma NotFramed(b: seq<byte>)
    requires b == [] || !Classify(b).Frame?
    ensures !FrameInFront(b)
  {
    forall n | 0 <= n <= |b| ensures !WholeFrame(b[..n]) {
      if b != [] { FrameIff(b, n); }
    }
  }

  lemma {:induction false} DrainTruthful(b: seq<byte>, timer: bool)
    requires b != []
    ensures AllTruthful(Drain(b, timer).events)
    ensures !FrameInFront(Drain(b, timer).rest)
    decreases |b|
  {
    hide Classify, WholeFrame, FrameInFront;
    match Classify(b)
    case More => NotFramed(b);
    case Bad =>
      NotFramed(b);
      NotFramed([]);
    case Frame(n) =>
      FrameIff(b, n);
      var left := b[n..];
      NotFramed([]);
      if left != [] {
        if Head(left[0]) {
          DrainTruthful(left, true);
        } else {
          HeadNeeded(left);
          NotFramed(left);
        }
      }
  }

  lemma HeadNeeded(b: seq<byte>)
    requires b != [] && !Head(b[0])
    ensures Classify(b).Bad?
  {
  }

  lemma StepTruthful(size: nat, s: Conn, input: Input)
    requires AllTruthful(s.log) && !FrameInFront(s.rest)
    ensures var t := Step(size, s, input); AllTruthful(t.log) && !FrameInFront(t.rest)
  {
    hide Drain, FrameInFront, WholeFrame, Taken;
    NotFramed([]);
    match input
    case Chunk(data) =>
      var b := s.rest + Taken(size, s.rest, data);
      if b != [] { DrainTruthful(b, s.timer); }
    case Expire =>
  }

  /** Over every run of chunks and expiries the callback is told the truth. */
  lemma {:induction false} RunTruthful(size: nat, s: Conn, inputs: seq<Input>)
    requires AllTruthful(s.log) && !FrameInFront(s.rest)
    ensures AllTruthful(Run(size, s, inputs).log)
    decreases |inputs|
  {
    hide Step, FrameInFront, Truthful;
    if inputs != [] {
      StepTruthful(size, s, inputs[0]);
      RunTruthful(size, Step(size, s, inputs[0]), inputs[1..]);
    }
  }

  /** From a new connection on, that is. */
  lemma FromTheStart(size: nat, inputs: seq<Input>)
    ensures AllTruthful(Run(size, Start, inputs).log)
  {
    NotFramed([]);
    RunTruthful(size, Start, inputs);
  }

  /** So it is with the receive object itself, whatever the network and the timer do. */
  method ServeTruthful(p: Spro.Spro, inputs: seq<Input>)
    requires p.Valid() && p.Held() == [] && AllTruthful(p.log)
    modifies p, p.buffer
    ensures p.Valid() && AllTruthful(p.log)
  {
    hide Truthful, FrameInFront, Run;
    NotFramed([]);
    ghost var s := p.State();
    RunTruthful(p.bufferSize, s, inputs);
    p.Serve(inputs);
  }
}
