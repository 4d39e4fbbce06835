/** What a TCP segment makes the client do: the packet loop of mqtt_tcpclient_recv in state MQTT_DATA,
    as a function of the segment and of what the in-buffer held before. */
module MqttReceive {
  import opened Bytes
  import opened MqttPacket
  import MqttMsg
  import MqttQueue

  const MQTT_BUF_SIZE: nat := 1024

  /** One call of the data callback. */
  datatype Delivery = Delivery(topic: seq<byte>, data: seq<byte>)

  /** What the loop changes: the in-buffer, the id counter, the ring, the puts accepted, the callbacks. */
  datatype Receiving = Receiving(inBuffer: seq<byte>, messageId: nat, ring: seq<byte>, accepted: seq<seq<byte>>,
                                 delivered: seq<Delivery>)

  ghost predicate Sane(st: Receiving, size: nat) {
    |st.inBuffer| == MQTT_BUF_SIZE && st.messageId < 65536 && |st.ring| <= size
  }

  /** The in-buffer after `os_memcpy` of the segment. */
  function Loaded(inBuffer: seq<byte>, s: seq<byte>): seq<byte>
    requires |s| <= |inBuffer|
  {
    s + inBuffer[|s|..]
  }

  datatype Reply = NoReply | Reply(typ: nat, qos: nat, withId: bool)

  /** The answer a packet calls for, by type and QoS. */
  function ReplyFor(typ: nat, qos: nat): Reply {
    if typ == PUBLISH && qos == 1 then Reply(PUBACK, 0, true)
    else if typ == PUBLISH && qos == 2 then Reply(PUBREC, 0, true)
    else if typ == PUBREC then Reply(PUBREL, 1, true)
    else if typ == PUBREL then Reply(PUBCOMP, 0, true)
    else if typ == PINGREQ then Reply(PINGRESP, 0, false)
    else NoReply
  }

  /** Building and queueing that answer. */
  function Answered(st: Receiving, reply: Reply, id: nat, size: nat): (st': Receiving)
    requires Sane(st, size) && id < 65536
    ensures Sane(st', size) && st'.inBuffer == st.inBuffer && st'.delivered == st.delivered
  {
    match reply
    case NoReply => st
    case Reply(typ, qos, withId) =>
      var messageId := if withId && id == 0 then MqttMsg.NextId(st.messageId) else st.messageId;
      var packet := Packet(typ, 0, qos, 0, if withId then TwoBytes(if id == 0 then messageId else id) else []);
      st.(messageId := messageId,
          ring := MqttQueue.AfterPut(st.ring, packet, size),
          accepted := if MqttQueue.Accepts(st.ring, packet, size) then st.accepted + [packet] else st.accepted)
  }

  lemma IdIsWord(b: seq<byte>, length: nat)
    requires length <= |b|
    ensures IdOf(b, length) < 65536
  {
  }

  /** The loop body for a segment that starts with s. */
  function HandleOne(st: Receiving, s: seq<byte>, size: nat): (st': Receiving)
    requires Sane(st, size) && 0 < |s| < MQTT_BUF_SIZE
    ensures Sane(st', size)
  {
    var b := Loaded(st.inBuffer, s);
    IdIsWord(b, MQTT_BUF_SIZE);
    var st1 := Answered(st.(inBuffer := b), ReplyFor(TypeOf(b), QosOf(b)), IdOf(b, MQTT_BUF_SIZE), size);
    if TypeOf(b) != PUBLISH then st1 else
    st1.(delivered := st1.delivered + [Delivery(Taken(b, TopicOf(b, |s|)), Taken(b, DataOf(b, |s|)))])
  }

  /** `message_length`, a 16-bit field. */
  function PacketLength(inBuffer: seq<byte>, s: seq<byte>): nat
    requires |inBuffer| == MQTT_BUF_SIZE && 0 < |s| < MQTT_BUF_SIZE
  {
    TotalLength(Loaded(inBuffer, s), |s|) % 65536
  }

  /** The jump back is taken. */
  function Another(inBuffer: seq<byte>, s: seq<byte>): bool
    requires |inBuffer| == MQTT_BUF_SIZE && 0 < |s| < MQTT_BUF_SIZE
  {
    TypeOf(Loaded(inBuffer, s)) == PUBLISH && PacketLength(inBuffer, s) < |s|
  }

  /** The loop ends: no packet it jumps over has the 16-bit length 0, which would leave it where it is. */
  predicate Progresses(inBuffer: seq<byte>, s: seq<byte>)
    requires |inBuffer| == MQTT_BUF_SIZE
    decreases |s|
  {
    0 < |s| < MQTT_BUF_SIZE && Another(inBuffer, s) ==>
      PacketLength(inBuffer, s) > 0 && Progresses(Loaded(inBuffer, s), s[PacketLength(inBuffer, s)..])
  }

  /** The whole loop. A segment that is empty or too long is dropped. */
  function HandleAll(st: Receiving, s: seq<byte>, size: nat): (st': Receiving)
    requires Sane(st, size) && Progresses(st.inBuffer, s)
    ensures Sane(st', size)
    decreases |s|
  {
    if |s| == 0 || |s| >= MQTT_BUF_SIZE then st else
    var st1 := HandleOne(st, s, size);
    if Another(st.inBuffer, s) then HandleAll(st1, s[PacketLength(st.inBuffer, s)..], size) else st1
  }

  // Segments made of PUBLISH packets

  function Segment(ps: seq<Publish>): seq<byte>
    requires forall k :: 0 <= k < |ps| ==> WellFormed(ps[k])
  {
    if ps == [] then [] else
    assert WellFormed(ps[0]);
    EncodePublish(ps[0]) + Segment(ps[1..])
  }

  function Deliveries(ps: seq<Publish>): seq<Delivery> {
    if ps == [] then [] else [Delivery(ps[0].topic, ps[0].payload)] + Deliveries(ps[1..])
  }

  /** The acknowledgement a packet is owed (section 4.3 of MQTT 3.1.1). */
  function Owed(p: Publish): seq<seq<byte>>
    requires WellFormed(p)
  {
    if p.qos == 1 then [Packet(PUBACK, 0, 0, 0, TwoBytes(p.id))]
    else if p.qos == 2 then [Packet(PUBREC, 0, 0, 0, TwoBytes(p.id))]
    else []
  }

  function Acks(ps: seq<Publish>): seq<seq<byte>>
    requires forall k :: 0 <= k < |ps| ==> WellFormed(ps[k])
  {
    if ps == [] then [] else
    assert WellFormed(ps[0]);
    Owed(ps[0]) + Acks(ps[1..])
  }

  /** Queueing messages one after another, each if there is room. */
  function Queued(ring: seq<byte>, accepted: seq<seq<byte>>, ms: seq<seq<byte>>, size: nat)
    : (r: (seq<byte>, seq<seq<byte>>))
    requires |ring| <= size
    decreases |ms|
  {
    if ms == [] then (ring, accepted) else
    Queued(MqttQueue.AfterPut(ring, ms[0], size),
           if MqttQueue.Accepts(ring, ms[0], size) then accepted + [ms[0]] else accepted, ms[1..], size)
  }

  lemma {:induction false} QueuedAppend(ring: seq<byte>, accepted: seq<seq<byte>>, ms: seq<seq<byte>>,
                                        rest: seq<seq<byte>>, size: nat)
    requires |ring| <= size
    ensures |Queued(ring, accepted, ms, size).0| <= size
    ensures Queued(ring, accepted, ms + rest, size)
         == Queued(Queued(ring, accepted, ms, size).0, Queued(ring, accepted, ms, size).1, rest, size)
    decreases |ms|
  {
    hide MqttQueue.Accepts, MqttQueue.AfterPut;
    if ms == [] {
      assert ms + rest == rest;
    } else {
      assert (ms + rest)[0] == ms[0] && (ms + rest)[1..] == ms[1..] + rest;
      QueuedAppend(MqttQueue.AfterPut(ring, ms[0], size),
                   if MqttQueue.Accepts(ring, ms[0], size) then accepted + [ms[0]] else accepted, ms[1..], rest, size);
    }
  }

  /** What the loop reads when a well-formed packet is at the front of the segment, stale bytes behind
      the segment notwithstanding. */
  lemma PublishLoaded(inBuffer: seq<byte>, p: Publish, rest: seq<byte>)
    requires |inBuffer| == MQTT_BUF_SIZE && WellFormed(p) && |EncodePublish(p) + rest| < MQTT_BUF_SIZE
    ensures var s := EncodePublish(p) + rest; var b := Loaded(inBuffer, s);
      && TypeOf(b) == PUBLISH && QosOf(b) == p.qos && IdOf(b, MQTT_BUF_SIZE) == p.id
      && TotalLength(b, |s|) == |EncodePublish(p)| > 0
      && Taken(b, TopicOf(b, |s|)) == p.topic && Taken(b, DataOf(b, |s|)) == p.payload
  {
    var t := EncodePublish(p);
    var s := t + rest;
    var b := Loaded(inBuffer, s);
    assert Occurs(b, 0, t) by { assert b[0..|t|] == t; }
    hide Occurs, TopicOf, DataOf, TotalLength, IdOf, Taken;
    PublishRecovered(b, p, |s|);
    IdRecovered(b, p, MQTT_BUF_SIZE);
    hide EncodePublish, WellFormed;
  }

  lemma AnsweredPublish(st: Receiving, p: Publish, size: nat)
    requires Sane(st, size) && WellFormed(p)
    ensures var st1 := Answered(st, ReplyFor(PUBLISH, p.qos), p.id, size);
      && (st1.ring, st1.accepted) == Queued(st.ring, st.accepted, Owed(p), size)
      && st1.messageId == st.messageId
  {
    hide MqttQueue.Accepts, MqttQueue.AfterPut, Packet, PublishBody;
    if p.qos > 0 {
      var m := Owed(p)[0];
      assert Owed(p) == [m] && Owed(p)[1..] == [];
      assert Queued(MqttQueue.AfterPut(st.ring, m, size), st.accepted, [], size)
          == (MqttQueue.AfterPut(st.ring, m, size), st.accepted);
      assert Queued(MqttQueue.AfterPut(st.ring, m, size), st.accepted + [m], [], size)
          == (MqttQueue.AfterPut(st.ring, m, size), st.accepted + [m]);
    }
  }

  /** One well-formed packet at the front of the segment: one delivery of its topic and payload, its
      acknowledgement queued if there is room, and the next packet found. */
  lemma HandlePublish(st: Receiving, p: Publish, rest: seq<byte>, size: nat)
    requires Sane(st, size) && WellFormed(p) && |EncodePublish(p) + rest| < MQTT_BUF_SIZE
    ensures |EncodePublish(p)| > 0
    ensures var s := EncodePublish(p) + rest; var st1 := HandleOne(st, s, size);
      && PacketLength(st.inBuffer, s) == |EncodePublish(p)| && (Another(st.inBuffer, s) <==> rest != [])
      && s[|EncodePublish(p)|..] == rest
      && st1.delivered == st.delivered + [Delivery(p.topic, p.payload)]
      && st1.inBuffer == Loaded(st.inBuffer, s) && st1.messageId == st.messageId
      && (st1.ring, st1.accepted) == Queued(st.ring, st.accepted, Owed(p), size)
  {
    hide EncodePublish, TopicOf, DataOf, TotalLength, IdOf, Taken, Answered, Queued, TypeOf, QosOf, Owed, PublishBody;
    var t := EncodePublish(p);
    var s := t + rest;
    PublishLoaded(st.inBuffer, p, rest);
    AnsweredPublish(st.(inBuffer := Loaded(st.inBuffer, s)), p, size);
    hide Loaded, ReplyFor;
    assert s[|t|..] == rest && (|t| < |s| <==> rest != []);
    assert PacketLength(st.inBuffer, s) == |t|;
  }

  /** A segment of well-formed PUBLISH packets: exactly one delivery per packet, in order, each with the
      right topic and payload; an acknowledgement with the packet's id queued for each QoS 1 or 2 packet
      while there is room; and the loop ends. */
  lemma {:induction false} HandleSegment(st: Receiving, ps: seq<Publish>, size: nat)
    requires Sane(st, size) && forall k :: 0 <= k < |ps| ==> WellFormed(ps[k])
    requires |Segment(ps)| < MQTT_BUF_SIZE
    ensures Progresses(st.inBuffer, Segment(ps))
    ensures var st' := HandleAll(st, Segment(ps), size);
      && st'.delivered == st.delivered + Deliveries(ps)
      && (st'.ring, st'.accepted) == Queued(st.ring, st.accepted, Acks(ps), size)
      && st'.messageId == st.messageId
    decreases |ps|
  {
    hide EncodePublish, PublishBody, HandleOne, Owed, PacketLength, Another, Loaded;
    if ps == [] {
      NothingMore(st, size);
    } else {
      assert WellFormed(ps[0]);
      var p, rest := ps[0], Segment(ps[1..]);
      var s := EncodePublish(p) + rest;
      EncodedNonEmpty(p);
      var st1 := HandleOne(st, s, size);
      HandlePublish(st, p, rest, size);
      HandleSegment(st1, ps[1..], size);
      QueuedAppend(st.ring, st.accepted, Owed(p), Acks(ps[1..]), size);
      assert st.delivered + ([Delivery(p.topic, p.payload)] + Deliveries(ps[1..]))
          == st.delivered + [Delivery(p.topic, p.payload)] + Deliveries(ps[1..]);
      if rest == [] {
        NothingMore(st1, size);
      }
      assert HandleAll(st, s, size) == HandleAll(st1, rest, size);
    }
  }

  lemma EncodedNonEmpty(p: Publish)
    requires WellFormed(p)
    ensures |EncodePublish(p)| > 0
  {
  }

  lemma NothingMore(st: Receiving, size: nat)
    requires Sane(st, size)
    ensures Progresses(st.inBuffer, []) && HandleAll(st, [], size) == st
    ensures st.delivered + [] == st.delivered && Queued(st.ring, st.accepted, [], size) == (st.ring, st.accepted)
  {
  }

  // Segments on which the loop does not end

  /** The loop has left the segment after at most n jumps back. */
  predicate EndsWithin(inBuffer: seq<byte>, s: seq<byte>, n: nat)
    requires |inBuffer| == MQTT_BUF_SIZE
    decreases n
  {
    0 < |s| < MQTT_BUF_SIZE && Another(inBuffer, s) ==>
      n > 0 && EndsWithin(Loaded(inBuffer, s), s[PacketLength(inBuffer, s)..], n - 1)
  }

  /** A loop that makes progress ends within as many jumps as the segment has bytes. */
  lemma {:induction false} ProgressEnds(inBuffer: seq<byte>, s: seq<byte>, n: nat)
    requires |inBuffer| == MQTT_BUF_SIZE && Progresses(inBuffer, s) && n >= |s|
    ensures EndsWithin(inBuffer, s, n)
    decreases n
  {
    hide Another, PacketLength, Loaded;
    if 0 < |s| < MQTT_BUF_SIZE && Another(inBuffer, s) {
      LoadedSize(inBuffer, s);
      JumpInside(inBuffer, s);
      ProgressEnds(Loaded(inBuffer, s), s[PacketLength(inBuffer, s)..], n - 1);
    }
  }

  lemma LoadedSize(inBuffer: seq<byte>, s: seq<byte>)
    requires |s| <= |inBuffer|
    ensures |Loaded(inBuffer, s)| == |inBuffer| && Loaded(Loaded(inBuffer, s), s) == Loaded(inBuffer, s)
  {
  }

  lemma JumpInside(inBuffer: seq<byte>, s: seq<byte>)
    requires |inBuffer| == MQTT_BUF_SIZE && 0 < |s| < MQTT_BUF_SIZE && Another(inBuffer, s)
    ensures PacketLength(inBuffer, s) < |s|
  {
  }

  /** A jump of length zero comes back to the same bytes in the same buffer. */
  lemma {:induction false} ZeroLengthRepeats(inBuffer: seq<byte>, s: seq<byte>, n: nat)
    requires |inBuffer| == MQTT_BUF_SIZE && 0 < |s| < MQTT_BUF_SIZE
    requires Another(inBuffer, s) && PacketLength(inBuffer, s) == 0
    ensures !EndsWithin(inBuffer, s, n)
    decreases n
  {
    LoadedSize(inBuffer, s);
    assert s[0..] == s;
    if n > 0 {
      ZeroLengthRepeats(Loaded(inBuffer, s), s, n - 1);
    }
  }

  lemma {:induction false} NoProgressRuns(inBuffer: seq<byte>, s: seq<byte>, n: nat)
    requires |inBuffer| == MQTT_BUF_SIZE && !Progresses(inBuffer, s)
    ensures !EndsWithin(inBuffer, s, n)
    decreases n
  {
    hide Another, PacketLength, Loaded;
    LoadedSize(inBuffer, s);
    if PacketLength(inBuffer, s) == 0 {
      ZeroLengthRepeats(inBuffer, s, n);
    } else if n > 0 {
      JumpInside(inBuffer, s);
      NoProgressRuns(Loaded(inBuffer, s), s[PacketLength(inBuffer, s)..], n - 1);
    }
  }

  /** The loop ends on a segment if and only if no packet it comes to has the 16-bit length zero. */
  lemma LoopEndsIff(inBuffer: seq<byte>, s: seq<byte>)
    requires |inBuffer| == MQTT_BUF_SIZE
    ensures (exists n: nat :: EndsWithin(inBuffer, s, n)) <==> Progresses(inBuffer, s)
  {
    hide Progresses, EndsWithin;
    if Progresses(inBuffer, s) {
      ProgressEnds(inBuffer, s, |s|);
    } else {
      forall n: nat ensures !EndsWithin(inBuffer, s, n) {
        NoProgressRuns(inBuffer, s, n);
      }
    }
  }

  /** Whether the loop makes progress depends on the segment alone, not on the buffer's old bytes. */
  lemma {:induction false} ProgressIsLocal(b: seq<byte>, c: seq<byte>, s: seq<byte>)
    requires |b| == |c| == MQTT_BUF_SIZE
    ensures Progresses(b, s) <==> Progresses(c, s)
    decreases |s|
  {
    if 0 < |s| < MQTT_BUF_SIZE {
      SameHeader(b, c, s);
      LoadedSize(b, s);
      LoadedSize(c, s);
      hide PacketLength, Loaded, TypeOf;
      var k := PacketLength(b, s);
      if 0 < k < |s| {
        ProgressIsLocal(Loaded(b, s), Loaded(c, s), s[k..]);
      }
    }
  }

  lemma SameHeader(b: seq<byte>, c: seq<byte>, s: seq<byte>)
    requires |b| == |c| == MQTT_BUF_SIZE && 0 < |s| < MQTT_BUF_SIZE
    ensures PacketLength(b, s) == PacketLength(c, s) && Another(b, s) == Another(c, s)
  {
    LengthIsLocal(Loaded(b, s), Loaded(c, s), |s|, 1);
  }

  lemma {:induction false} LengthIsLocal(b: seq<byte>, c: seq<byte>, length: nat, i: nat)
    requires length <= |b| && length <= |c| && i >= 1
    requires forall k :: 0 <= k < length ==> b[k] == c[k]
    ensures LengthEnd(b, length, i) == LengthEnd(c, length, i)
    ensures LengthValue(b, length, i) == LengthValue(c, length, i)
    decreases length - i
  {
    if i < length && b[i] >= 0x80 {
      LengthIsLocal(b, c, length, i + 1);
    }
  }

  /** What stalls it: the beginning of a PUBLISH whose whole length is a multiple of 65536. However
      long one waits, the loop is still running. */
  lemma SixtyFourKilobytesStall(inBuffer: seq<byte>, first: byte, remaining: nat, rest: seq<byte>, n: nat)
    requires |inBuffer| == MQTT_BUF_SIZE && first / 16 == PUBLISH
    requires (1 + |VariableLength(remaining)| + remaining) % 65536 == 0
    requires |[first] + VariableLength(remaining) + rest| < MQTT_BUF_SIZE
    ensures !EndsWithin(inBuffer, [first] + VariableLength(remaining) + rest, n)
  {
    hide VariableLength, LengthEnd, LengthValue, EndsWithin;
    var t := VariableLength(remaining);
    var s := [first] + t + rest;
    var b := Loaded(inBuffer, s);
    assert b[0] == first;
    assert b[1..1 + |t|] == t;
    VariableLengthRead(b, remaining, |s|, 1);
    assert Power128(0) == 1;
    ZeroLengthRepeats(inBuffer, s, n);
  }

  /** The shortest such beginning announces 65532 bytes. */
  lemma ShortestStall()
    ensures VariableLength(65532) == [0xFC, 0xFF, 0x03]
    ensures (1 + |VariableLength(65532)| + 65532) % 65536 == 0
    ensures forall n: nat :: n < 65532 ==> (1 + |VariableLength(n)| + n) % 65536 != 0
  {
    assert VariableLength(3) == [3];
    assert VariableLength(511) == [0xFF, 3];
    forall n: nat | n < 65532 ensures (1 + |VariableLength(n)| + n) % 65536 != 0 {
      ThreeBytesSuffice(n);
    }
  }

  lemma ThreeBytesSuffice(n: nat)
    requires n < 65532
    ensures |VariableLength(n)| <= 3
  {
    if n >= 16384 {
      assert |VariableLength(n / 128 / 128)| == 1;
    }
  }
}
