/** The client of mqtt.c: its outbound queue, its packet builder and its callbacks as state. */
module MqttClient {
  import opened Bytes
  import opened RingBuf
  import opened MqttPacket
  import opened MqttReceive
  import MqttMsg
  import MqttQueue
  import Framing
  import Proto

  const MQTT_SEND_TIMEOUT: nat := 5

  /** The states the modelled code tells apart; OtherState stands for all those without a session. */
  datatype ConnState = ConnectSending | Data | KeepaliveSend | OtherState

  /** The loop in MQTT_Publish, MQTT_Subscribe, MQTT_UnSubscribe and MQTT_Ping. Each get uses a parser on
      the stack, whose `isBegin` holds anything. */
  method EnqueueEvicting(rb: Ring, message: seq<byte>) returns (ok: bool, ghost evicted: seq<seq<byte>>)
    requires rb.Valid() && rb.size <= 32767 && |message| <= MQTT_BUF_SIZE && Framing.Aligned(rb.Contents())
    modifies rb, rb.data
    ensures rb.Valid() && rb.data == old(rb.data) && rb.size == old(rb.size)
    ensures var r := MqttQueue.Evict(old(rb.Contents()), message, rb.size, MQTT_BUF_SIZE);
      ok == r.ok && rb.Contents() == r.ring && evicted == r.evicted
  {
    hide Framing.Messages, Framing.Parse, Framing.Frame, Framing.Aligned, MqttQueue.Evict, MqttQueue.AfterPut;
    hide Remains, MqttQueue.Accepts;
    var dataBuffer := new byte[MQTT_BUF_SIZE];
    evicted := [];
    ghost var goal := MqttQueue.Evict(rb.Contents(), message, rb.size, MQTT_BUF_SIZE);
    NothingEvicted(rb.Contents(), message, rb.size);
    while true
      invariant rb.Valid() && rb.data == old(rb.data) && rb.size == old(rb.size) && fresh(dataBuffer)
      invariant Framing.Aligned(rb.Contents()) && Remains(goal, evicted, rb.Contents(), message, rb.size)
      decreases |Framing.Messages(rb.Contents(), MQTT_BUF_SIZE)|
    {
      ghost var c := rb.Contents();
      var put := Proto.AddRb(rb, message);
      EvictRound(goal, evicted, c, message, rb.size);
      if put != -1 {
        return true, evicted;
      }
      ghost var full := rb.Contents();
      MqttQueue.PutKeeps(c, message, rb.size, MQTT_BUF_SIZE);
      var leftover: bool := *;
      ResetsAnyway(full, leftover);
      MqttQueue.GetKeeps(full, leftover, MQTT_BUF_SIZE);
      var got, dataLen := Proto.ParseRb(rb, dataBuffer, MQTT_BUF_SIZE, leftover);
      if got == -1 {
        return false, evicted;
      }
      evicted := evicted + [dataBuffer[..dataLen]];
    }
  }

  /** From the ring `c` on, with `evicted` gone already, the loop still ends in `goal`. */
  ghost predicate Remains(goal: MqttQueue.Outcome, evicted: seq<seq<byte>>, c: seq<byte>, p: seq<byte>, size: nat)
    requires |c| <= size
  {
    var r := MqttQueue.Evict(c, p, size, MQTT_BUF_SIZE);
    goal == r.(evicted := evicted + r.evicted)
  }

  lemma NothingEvicted(c: seq<byte>, p: seq<byte>, size: nat)
    requires |c| <= size
    ensures Remains(MqttQueue.Evict(c, p, size, MQTT_BUF_SIZE), [], c, p, size)
  {
    hide MqttQueue.Evict;
    var r := MqttQueue.Evict(c, p, size, MQTT_BUF_SIZE);
    assert [] + r.evicted == r.evicted;
  }

  lemma EvictRound(goal: MqttQueue.Outcome, evicted: seq<seq<byte>>, c: seq<byte>, p: seq<byte>, size: nat)
    requires |c| <= size && Remains(goal, evicted, c, p, size)
    ensures MqttQueue.Accepts(c, p, size) ==> goal == MqttQueue.Outcome(true, MqttQueue.AfterPut(c, p, size), evicted)
    ensures !MqttQueue.Accepts(c, p, size) ==>
      var g := Framing.Parse(MqttQueue.AfterPut(c, p, size), Framing.Fresh(false), MQTT_BUF_SIZE);
      && (g.Drained? ==> goal == MqttQueue.Outcome(false, [], evicted))
      && (g.Message? ==> Remains(goal, evicted + [g.m], g.rest, p, size))
  {
    hide Framing.Parse, Framing.Frame;
    assert evicted + [] == evicted;
    if !MqttQueue.Accepts(c, p, size) {
      var g := Framing.Parse(MqttQueue.AfterPut(c, p, size), Framing.Fresh(false), MQTT_BUF_SIZE);
      if g.Message? {
        var r := MqttQueue.Evict(g.rest, p, size, MQTT_BUF_SIZE);
        assert evicted + ([g.m] + r.evicted) == evicted + [g.m] + r.evicted;
      }
    }
  }

  lemma ResetsAnyway(c: seq<byte>, leftover: bool)
    requires Framing.Aligned(c)
    ensures Framing.Parse(c, Framing.Fresh(leftover), MQTT_BUF_SIZE)
         == Framing.Parse(c, Framing.Fresh(false), MQTT_BUF_SIZE)
  {
    Framing.BeginResets(c, Framing.Fresh(leftover), Framing.Fresh(false), MQTT_BUF_SIZE);
  }

  /** A message handed to the socket: taken from the queue, or built and sent at once. */
  datatype Sending = FromQueue(message: seq<byte>) | Direct(message: seq<byte>)

  /** Why a message left the queue. */
  datatype Removal = Sent(message: seq<byte>) | Evicted(message: seq<byte>)

  function Packets(rs: seq<Removal>): (ms: seq<seq<byte>>)
    ensures |ms| == |rs|
  {
    seq(|rs|, i requires 0 <= i < |rs| => rs[i].message)
  }

  function Evictions(ms: seq<seq<byte>>): (rs: seq<Removal>)
    ensures |rs| == |ms|
  {
    seq(|ms|, i requires 0 <= i < |ms| => Evicted(ms[i]))
  }

  /** The messages that left the queue to be sent. */
  function Sends(rs: seq<Removal>): seq<seq<byte>> {
    if rs == [] then []
    else
      var last := rs[|rs| - 1];
      Sends(rs[..|rs| - 1]) + if last.Sent? then [last.message] else []
  }

  /** The sent messages that came from the queue. */
  function QueueSends(ss: seq<Sending>): seq<seq<byte>> {
    if ss == [] then []
    else
      var last := ss[|ss| - 1];
      QueueSends(ss[..|ss| - 1]) + if last.FromQueue? then [last.message] else []
  }

  /** `a` is what is left of `b` when some of its elements are struck out. */
  predicate Subsequence(a: seq<seq<byte>>, b: seq<seq<byte>>)
    decreases |b|
  {
    a == []
    || (b != [] && a[|a| - 1] == b[|b| - 1] && Subsequence(a[..|a| - 1], b[..|b| - 1]))
    || (b != [] && Subsequence(a, b[..|b| - 1]))
  }

  lemma {:induction false} SendsAreSubsequence(rs: seq<Removal>, rest: seq<seq<byte>>)
    ensures Subsequence(Sends(rs), Packets(rs) + rest)
    decreases |rs| + |rest|
  {
    var b := Packets(rs) + rest;
    if rest != [] {
      SendsAreSubsequence(rs, rest[..|rest| - 1]);
      assert b[..|b| - 1] == Packets(rs) + rest[..|rest| - 1];
    } else if rs != [] {
      var init := rs[..|rs| - 1];
      SendsAreSubsequence(init, []);
      assert b[..|b| - 1] == Packets(init) + [] && b[|b| - 1] == rs[|rs| - 1].message;
      if rs[|rs| - 1].Sent? {
        assert Sends(rs)[..|Sends(rs)| - 1] == Sends(init);
      } else {
        assert Sends(rs) == Sends(init);
      }
    }
  }

  lemma {:induction false} SendsEvictions(rs: seq<Removal>, ms: seq<seq<byte>>)
    ensures Sends(rs + Evictions(ms)) == Sends(rs)
    decreases |ms|
  {
    var all := rs + Evictions(ms);
    if ms == [] {
      assert all == rs;
    } else {
      SendsEvictions(rs, ms[..|ms| - 1]);
      assert all[..|all| - 1] == rs + Evictions(ms[..|ms| - 1]);
    }
  }

  lemma SendsOne(rs: seq<Removal>, ss: seq<Sending>, m: seq<byte>)
    ensures Sends(rs + [Sent(m)]) == Sends(rs) + [m]
    ensures QueueSends(ss + [FromQueue(m)]) == QueueSends(ss) + [m]
    ensures QueueSends(ss + [Direct(m)]) == QueueSends(ss)
  {
    assert (rs + [Sent(m)])[..|rs|] == rs;
    assert (ss + [FromQueue(m)])[..|ss|] == ss && (ss + [Direct(m)])[..|ss|] == ss;
  }

  /** The ledgers after an eviction run. */
  lemma Ledger(removed: seq<Removal>, was: seq<seq<byte>>, new': seq<seq<byte>>, evicted: seq<seq<byte>>,
               now: seq<seq<byte>>)
    requires was + new' == evicted + now
    ensures Packets(removed) + was + new' == Packets(removed + Evictions(evicted)) + now
    ensures Sends(removed + Evictions(evicted)) == Sends(removed)
  {
    SendsEvictions(removed, evicted);
    assert Packets(removed) + was + new' == Packets(removed) + (was + new');
    assert Packets(removed + Evictions(evicted)) == Packets(removed) + evicted;
  }

  /** A sent message moves from the decodable ones to the removed ones. */
  lemma SentMoves(removed: seq<Removal>, m: seq<byte>, rest: seq<seq<byte>>)
    ensures Packets(removed) + ([m] + rest) == Packets(removed + [Sent(m)]) + rest
  {
  }

  /** MQTT_Client */
  class Client {
    var connState: ConnState
    var sendTimeout: nat
    var keepAliveTick: nat
    var pendingType: nat
    var pendingId: nat
    var inBuffer: array<byte>
    const connection: MqttMsg.Connection
    const queue: Ring

    /** What the callbacks and the socket were handed. */
    var delivered: seq<Delivery>
    var sent: seq<Sending>

    /** The ledgers: messages the queue accepted, and messages taken out of it to be sent or evicted. */
    ghost var accepted: seq<seq<byte>>
    ghost var removed: seq<Removal>

    ghost predicate Separate()
      reads this, connection, queue
    {
      && queue.data != inBuffer && queue.data != connection.buffer && inBuffer != connection.buffer
    }

    /** No call replaces a buffer. */
    twostate predicate SameBuffers()
      reads this, connection, queue
    {
      && queue.data == old(queue.data) && queue.size == old(queue.size)
      && connection.buffer == old(connection.buffer) && inBuffer == old(inBuffer)
    }

    /** What holds between any two calls: the accepted messages are the removed ones and then those
        that can still be decoded from the ring. */
    ghost predicate Valid()
      reads this, connection, queue, queue.data
    {
      && connection.Valid() && connection.bufferLength == MQTT_BUF_SIZE && inBuffer.Length == MQTT_BUF_SIZE
      && queue.Valid() && queue.size <= 32767 && Separate()
      && Framing.Aligned(queue.Contents())
      && accepted == Packets(removed) + Framing.Messages(queue.Contents(), MQTT_BUF_SIZE)
      && QueueSends(sent) == Sends(removed)
    }

    /** What the socket got from the queue are accepted messages, in the order of their acceptance. */
    lemma SentInOrder()
      requires Valid()
      ensures Subsequence(QueueSends(sent), accepted)
    {
      SendsAreSubsequence(removed, Framing.Messages(queue.Contents(), MQTT_BUF_SIZE));
    }

    /** A session is up: the states in which packets are received. */
    ghost predicate InSession()
      reads this`connState
    {
      connState == Data || connState == KeepaliveSend
    }

    /** `MQTT_InitClient`, once the buffers are allocated. */
    constructor (queueSize: nat)
      requires 2 <= queueSize <= 32767
      ensures Valid() && fresh(connection) && fresh(queue) && fresh(queue.data)
      ensures fresh(inBuffer) && fresh(connection.buffer)
      ensures queue.Contents() == [] && accepted == [] && removed == [] && delivered == [] && sent == []
      ensures connState == OtherState
    {
      var outBuffer := new byte[MQTT_BUF_SIZE];
      connection := new MqttMsg.Connection(outBuffer, MQTT_BUF_SIZE);
      inBuffer := new byte[MQTT_BUF_SIZE];
      var buf := new byte[queueSize];
      var rb := new Ring(0);
      var r := rb.Init(buf, queueSize);
      MqttQueue.EmptyRing(MQTT_BUF_SIZE);
      queue := rb;
      connState, sendTimeout, keepAliveTick, pendingType, pendingId := OtherState, 0, 0, 0, 0;
      delivered, sent, accepted, removed := [], [], [], [];
    }

    /** The loop all four requests end with: queue the message, evicting old ones as long as it does not
        fit. The decodable queue then is a suffix of the old one and the new message, or nothing. */
    method Enqueue(message: seq<byte>) returns (ok: bool, ghost k: nat)
      requires Valid() && |message| <= MQTT_BUF_SIZE
      modifies this`accepted, this`removed, queue, queue.data
      ensures Valid() && SameBuffers() && Queues(old(queue.Contents()), message, ok, k)
      ensures accepted == old(accepted) + if ok then [message] else []
    {
      hide Framing.Messages, Framing.Aligned, MqttQueue.Evict, Packets, Evictions, Sends, QueueSends;
      ghost var c := queue.Contents();
      k := MqttQueue.EvictSuffix(c, message, queue.size, MQTT_BUF_SIZE);
      MqttQueue.EvictKeeps(c, message, queue.size, MQTT_BUF_SIZE);
      ghost var evicted;
      ok, evicted := EnqueueEvicting(queue, message);
      if ok { accepted := accepted + [message]; }
      removed := removed + Evictions(evicted);
      Ledger(old(removed), Framing.Messages(c, MQTT_BUF_SIZE), if ok then [message] else [], evicted,
             Framing.Messages(queue.Contents(), MQTT_BUF_SIZE));
    }

    /** What became of the ring `c` when `message` was queued: `k` messages had to go. */
    ghost predicate Queues(c: seq<byte>, message: seq<byte>, ok: bool, k: nat)
      reads queue, queue.data
    {
      var was := Framing.Messages(c, MQTT_BUF_SIZE);
      && queue.Valid() && |c| <= queue.size && k <= |was|
      && ok == MqttQueue.Evict(c, message, queue.size, MQTT_BUF_SIZE).ok
      && Framing.Messages(queue.Contents(), MQTT_BUF_SIZE) == (if ok then was[k..] + [message] else [])
      && (!ok ==> queue.Contents() == [])
    }

    /** `MQTT_Publish`. */
    method Publish(topic: seq<byte>, data: seq<byte>, qos: nat, retain: nat) returns (ok: bool, ghost k: nat)
      requires Valid()
      modifies this, connection, connection.buffer, queue, queue.data
      ensures Valid() && SameBuffers() && delivered == old(delivered) && sent == old(sent)
      ensures var built := topic != [] && 5 + |topic| + (if qos > 0 then 2 else 0) + |data| <= MQTT_BUF_SIZE;
        && (!built ==> !ok && queue.Contents() == old(queue.Contents()))
        && (built ==>
              && |topic| < 65536
              && pendingId == (if qos > 0 then MqttMsg.NextId(old(connection.messageId)) else 0) < 65536
              && var packet := EncodePublish(MqttPacket.Publish(0, qos, retain, topic, pendingId, data));
                 Queues(old(queue.Contents()), packet, ok, k))
    {
      hide EncodePublish, Queues, Framing.Messages, Framing.Aligned;
      k := 0;
      var id := connection.Publish(topic, data, qos, retain);
      if topic != [] && 5 + |topic| <= MQTT_BUF_SIZE { pendingId := id; }
      if connection.length == 0 { return false, k; }
      ok, k := Enqueue(connection.buffer[connection.start..connection.start + connection.length]);
    }

    /** `MQTT_Subscribe`. It does not look whether the packet could be built: when it could not, an
        empty message is queued in its place. */
    method Subscribe(topic: seq<byte>, qos: nat) returns (ok: bool, ghost k: nat)
      requires Valid()
      modifies this, connection, connection.buffer, queue, queue.data
      ensures Valid() && SameBuffers() && delivered == old(delivered) && sent == old(sent)
      ensures topic == [] || 8 + |topic| > MQTT_BUF_SIZE ==> Queues(old(queue.Contents()), [], ok, k)
      ensures topic != [] && 8 + |topic| <= MQTT_BUF_SIZE ==>
        && |topic| < 65536 && pendingId == MqttMsg.NextId(old(connection.messageId)) < 65536
        && var body := TwoBytes(pendingId) + TwoBytes(|topic|) + topic + [(qos % 256) as byte];
           Queues(old(queue.Contents()), Packet(SUBSCRIBE, 0, 1, 0, body), ok, k)
    {
      hide Packet, Queues, Framing.Messages, Framing.Aligned;
      var id := connection.Subscribe(topic, qos);
      if topic != [] { pendingId := id; }
      ok, k := Enqueue(connection.buffer[connection.start..connection.start + connection.length]);
    }

    /** `MQTT_UnSubscribe`, with the same gap. */
    method Unsubscribe(topic: seq<byte>) returns (ok: bool, ghost k: nat)
      requires Valid()
      modifies this, connection, connection.buffer, queue, queue.data
      ensures Valid() && SameBuffers() && delivered == old(delivered) && sent == old(sent)
      ensures topic == [] || 7 + |topic| > MQTT_BUF_SIZE ==> Queues(old(queue.Contents()), [], ok, k)
      ensures topic != [] && 7 + |topic| <= MQTT_BUF_SIZE ==>
        && |topic| < 65536 && pendingId == MqttMsg.NextId(old(connection.messageId)) < 65536
        && Queues(old(queue.Contents()),
                  Packet(UNSUBSCRIBE, 0, 1, 0, TwoBytes(pendingId) + TwoBytes(|topic|) + topic), ok, k)
    {
      hide Packet, Queues, Framing.Messages, Framing.Aligned;
      var id := connection.Unsubscribe(topic);
      if topic != [] { pendingId := id; }
      ok, k := Enqueue(connection.buffer[connection.start..connection.start + connection.length]);
    }

    /** `MQTT_Ping`. */
    method Ping() returns (ok: bool, ghost k: nat)
      requires Valid()
      modifies this, connection, connection.buffer, queue, queue.data
      ensures Valid() && SameBuffers() && delivered == old(delivered) && sent == old(sent)
      ensures Queues(old(queue.Contents()), Packet(PINGREQ, 0, 0, 0, []), ok, k)
    {
      hide Packet, Queues, Framing.Messages, Framing.Aligned;
      connection.Ping(PINGREQ);
      ok, k := Enqueue(connection.buffer[connection.start..connection.start + connection.length]);
    }

    /** Hands a message built just now to the socket. */
    method SendDirect(message: seq<byte>)
      requires Valid() && |message| > 0
      modifies this`pendingType, this`pendingId, this`sendTimeout, this`sent
      ensures Valid() && pendingType == TypeOf(message)
      ensures sent == old(sent) + [Direct(message)] && sendTimeout == MQTT_SEND_TIMEOUT
    {
      hide Framing.Messages, Framing.Aligned, Sends, QueueSends, Packets, IdOf, TypeOf;
      pendingType := TypeOf(message);
      pendingId := MqttMsg.GetId(message, |message|);
      SendsOne([], sent, message);
      sendTimeout := MQTT_SEND_TIMEOUT;
      sent := sent + [Direct(message)];
    }

    /** The callback of a TCP connection: `connect` is the CONNECT packet. */
    method Connected(connect: seq<byte>)
      requires Valid() && |connect| > 0
      modifies this`pendingType, this`pendingId, this`sendTimeout, this`sent, this`connState, connection`messageId
      ensures Valid() && SameBuffers() && connState == ConnectSending && pendingType == TypeOf(connect)
      ensures sent == old(sent) + [Direct(connect)] && sendTimeout == MQTT_SEND_TIMEOUT && connection.messageId == 0
    {
      hide Framing.Messages, Framing.Aligned, Sends, QueueSends, Packets, TypeOf;
      connection.messageId := 0;
      SendDirect(connect);
      connState := ConnectSending;
    }

    /** `mqtt_send_keepalive`; `ok` is what the socket answers. */
    method SendKeepalive(ok: bool)
      requires Valid()
      modifies this`pendingType, this`pendingId, this`sendTimeout, this`sent, this`connState, this`keepAliveTick
      modifies connection`start, connection`length, connection.buffer
      ensures Valid() && SameBuffers() && queue.Contents() == old(queue.Contents())
      ensures sent == old(sent) + [Direct(Packet(PINGREQ, 0, 0, 0, []))] && sendTimeout == MQTT_SEND_TIMEOUT
      ensures connState == (if ok then Data else OtherState) && (ok ==> keepAliveTick == 0)
    {
      hide Framing.Messages, Framing.Aligned, Sends, QueueSends, Packets, Packet, TypeOf;
      connection.Ping(PINGREQ);
      SendDirect(connection.buffer[connection.start..connection.start + connection.length]);
      if ok {
        keepAliveTick := 0;
        connState := Data;
      } else {
        connState := OtherState;
      }
    }

    /** `MQTT_Task`. With a session it sends the oldest message of the queue unless one is under way, or
        the keep-alive that is due; in the other states it looks after the connection only. */
    method Task(ok: bool) returns (sentNow: bool)
      requires Valid()
      modifies this, connection`start, connection`length, connection.buffer, queue, queue.data
      ensures Valid() && SameBuffers() && delivered == old(delivered) && accepted == old(accepted)
      ensures var was := Framing.Messages(old(queue.Contents()), MQTT_BUF_SIZE);
        && sentNow == (old(connState) == Data && old(sendTimeout) == 0 && was != [])
        && Framing.Messages(queue.Contents(), MQTT_BUF_SIZE) == (if sentNow then was[1..] else was)
        && (sentNow ==> sendTimeout == MQTT_SEND_TIMEOUT && sent == old(sent) + [FromQueue(was[0])])
      ensures old(connState) == KeepaliveSend ==> sent == old(sent) + [Direct(Packet(PINGREQ, 0, 0, 0, []))]
      ensures old(connState) != KeepaliveSend ==> connState == old(connState) && (!sentNow ==> sent == old(sent))
    {
      hide Framing.Messages, Framing.Aligned, Packet, Sends, QueueSends, Packets, TypeOf;
      sentNow := false;
      match connState {
        case KeepaliveSend => SendKeepalive(ok);
        case Data =>
          if queue.fillCnt > 0 {
            if sendTimeout == 0 {
              sentNow := SendNext();
            }
          } else {
            EmptyQueue();
          }
        case ConnectSending =>
        case OtherState =>
      }
    }

    lemma EmptyQueue()
      requires queue.Valid() && queue.fillCnt == 0
      ensures Framing.Messages(queue.Contents(), MQTT_BUF_SIZE) == []
    {
      MqttQueue.EmptyRing(MQTT_BUF_SIZE);
    }

    /** The part of `MQTT_Task` that takes a message from the queue. */
    method SendNext() returns (sentNow: bool)
      requires Valid()
      modifies this`pendingType, this`pendingId, this`sendTimeout, this`sent, this`removed, queue, queue.data
      ensures Valid() && SameBuffers()
      ensures var was := Framing.Messages(old(queue.Contents()), MQTT_BUF_SIZE);
        && sentNow == (was != [])
        && Framing.Messages(queue.Contents(), MQTT_BUF_SIZE) == (if sentNow then was[1..] else was)
        && sent == old(sent) + (if sentNow then [FromQueue(was[0])] else [])
        && (sentNow ==> sendTimeout == MQTT_SEND_TIMEOUT)
    {
      hide Framing.Messages, Framing.Aligned, Framing.Parse, IdOf, TypeOf, Sends, QueueSends, Packets;
      ghost var c := queue.Contents();
      MqttQueue.EmptyRing(MQTT_BUF_SIZE);
      var dataBuffer := new byte[MQTT_BUF_SIZE];
      var leftover: bool := *;
      MqttQueue.GetKeeps(c, leftover, MQTT_BUF_SIZE);
      var got, dataLen := Proto.ParseRb(queue, dataBuffer, MQTT_BUF_SIZE, leftover);
      if got != 0 { return false; }
      var message := dataBuffer[..dataLen];
      pendingType := TypeOf(dataBuffer[..]);
      pendingId := MqttMsg.GetId(message, dataLen);
      sendTimeout := MQTT_SEND_TIMEOUT;
      SendsOne(removed, sent, message);
      SentMoves(removed, message, Framing.Messages(queue.Contents(), MQTT_BUF_SIZE));
      sent := sent + [FromQueue(message)];
      removed := removed + [Sent(message)];
      return true;
    }

    /** The loop's variables, as MqttReceive has them. */
    ghost function View(): Receiving
      requires queue.Valid()
      reads this, connection, queue, queue.data, inBuffer
    {
      Receiving(inBuffer[..], connection.messageId, queue.Contents(), accepted, delivered)
    }

    /** `QUEUE_Puts` of an answer: it is dropped if there is no room. */
    method PutAnswer(message: seq<byte>)
      requires Valid() && |message| <= MQTT_BUF_SIZE
      modifies this`accepted, queue, queue.data
      ensures Valid() && SameBuffers() && |old(queue.Contents())| <= queue.size
      ensures queue.Contents() == MqttQueue.AfterPut(old(queue.Contents()), message, queue.size)
      ensures accepted == old(accepted)
                          + if MqttQueue.Accepts(old(queue.Contents()), message, queue.size) then [message] else []
    {
      hide Framing.Messages, Framing.Aligned, MqttQueue.AfterPut, MqttQueue.Accepts, Packets, Sends, QueueSends;
      ghost var c := queue.Contents();
      MqttQueue.PutKeeps(c, message, queue.size, MQTT_BUF_SIZE);
      var put := Proto.AddRb(queue, message);
      if put != -1 {
        ghost var ms := Framing.Messages(c, MQTT_BUF_SIZE);
        assert Packets(removed) + (ms + [message]) == Packets(removed) + ms + [message];
        accepted := accepted + [message];
      }
    }

    /** Building an answer and queueing it, if there is room. */
    method Answer(reply: Reply, id: nat)
      requires Valid() && id < 65536 && reply.Reply?
      requires !reply.withId ==> reply.qos == 0
      modifies this`accepted, connection, connection.buffer, queue, queue.data
      ensures Valid() && SameBuffers() && Sane(old(View()), queue.size)
      ensures View() == Answered(old(View()), reply, id, queue.size)
    {
      hide Framing.Messages, Framing.Aligned, Packet, MqttQueue.AfterPut, MqttQueue.Accepts;
      hide Packets, Sends, QueueSends;
      if reply.withId {
        connection.Acknowledge(reply.typ, reply.qos, id);
      } else {
        connection.Ping(reply.typ);
      }
      PutAnswer(connection.buffer[connection.start..connection.start + connection.length]);
    }

    /** `deliver_publish` */
    method Deliver(length: nat)
      requires inBuffer.Length == MQTT_BUF_SIZE && length <= MQTT_BUF_SIZE
      modifies this`delivered
      ensures var b := inBuffer[..];
        delivered == old(delivered) + [Delivery(Taken(b, TopicOf(b, length)), Taken(b, DataOf(b, length)))]
    {
      hide TopicOf, DataOf;
      var message := inBuffer[..];
      var topic := MqttMsg.GetPublishTopic(message, length);
      var data := MqttMsg.GetPublishData(message, length);
      delivered := delivered + [Delivery(Taken(message, topic), Taken(message, data))];
    }

    /** `os_memcpy` of the segment to the front of the in-buffer. */
    method Load(s: seq<byte>)
      requires inBuffer.Length == MQTT_BUF_SIZE && |s| <= MQTT_BUF_SIZE
      modifies inBuffer
      ensures inBuffer[..] == Loaded(old(inBuffer[..]), s)
    {
      var i := 0;
      while i < |s|
        invariant 0 <= i <= |s| && inBuffer[..i] == s[..i] && inBuffer[i..] == old(inBuffer[i..])
      {
        inBuffer[i] := s[i];
        i := i + 1;
      }
      assert inBuffer[..] == inBuffer[..|s|] + inBuffer[|s|..];
      assert old(inBuffer[..])[|s|..] == old(inBuffer[|s|..]);
    }

    /** One turn of the loop in `mqtt_tcpclient_recv`, in state MQTT_DATA or MQTT_KEEPALIVE_SEND. */
    method ReceiveOne(s: seq<byte>) returns (again: bool, messageLength: nat)
      requires Valid() && InSession() && 0 < |s| < MQTT_BUF_SIZE
      modifies this`accepted, this`delivered, inBuffer, connection, connection.buffer, queue, queue.data
      ensures Valid() && SameBuffers() && Sane(old(View()), queue.size)
      ensures View() == HandleOne(old(View()), s, queue.size)
      ensures again ==> messageLength < |s|
      ensures again == Another(old(inBuffer[..]), s) && messageLength == PacketLength(old(inBuffer[..]), s)
    {
      hide Framing.Messages, Framing.Aligned, TotalLength, IdOf, TypeOf, QosOf, TopicOf, DataOf, Taken, ReplyFor;
      Load(s);
      var b := inBuffer[..];
      var msgType, msgQos := TypeOf(b), QosOf(b);
      var msgId := MqttMsg.GetId(b, MQTT_BUF_SIZE);
      IdIsWord(b, MQTT_BUF_SIZE);
      var total := MqttMsg.GetTotalLength(b, |s|);
      messageLength := total % 65536;
      var reply := ReplyFor(msgType, msgQos);
      PingReplies(msgType, msgQos);
      ghost var loaded := View();
      if reply.Reply? { Answer(reply, msgId); }
      again := false;
      if msgType == PUBLISH {
        assert inBuffer[..] == b;
        Deliver(|s|);
        again := messageLength < |s|;
      }
    }

    /** The loop of `mqtt_tcpclient_recv` in those states. The precondition is what makes it end. */
    method ReceiveLoop(pdata: seq<byte>)
      requires Valid() && InSession() && Progresses(inBuffer[..], pdata)
      modifies this`accepted, this`delivered, inBuffer, connection, connection.buffer, queue, queue.data
      ensures Valid() && SameBuffers() && Sane(old(View()), queue.size)
      ensures View() == HandleAll(old(View()), pdata, queue.size)
    {
      hide Framing.Messages, Framing.Aligned, HandleOne, Another, PacketLength, Loaded;
      var s := pdata;
      ghost var goal := HandleAll(View(), pdata, queue.size);
      while true
        invariant Valid() && SameBuffers()
        invariant Sane(View(), queue.size) && Progresses(inBuffer[..], s)
        invariant HandleAll(View(), s, queue.size) == goal
        decreases |s|
      {
        if |s| >= MQTT_BUF_SIZE || |s| == 0 { break; }
        ghost var st := View();
        HandledBuffer(st, s, queue.size);
        var again, messageLength := ReceiveOne(s);
        if !again { break; }
        s := s[messageLength..];
      }
    }

    /** `mqtt_tcpclient_recv`. With a session the packets are handled; while the CONNECT packet is under
        way a CONNACK opens one; in every other state the segment is read and dropped. */
    method Receive(pdata: seq<byte>)
      requires Valid() && (InSession() ==> Progresses(inBuffer[..], pdata))
      modifies this`accepted, this`delivered, this`keepAliveTick, this`connState
      modifies inBuffer, connection, connection.buffer, queue, queue.data
      ensures Valid() && SameBuffers() && Sane(old(View()), queue.size)
      ensures old(InSession()) ==> View() == HandleAll(old(View()), pdata, queue.size) && connState == old(connState)
      ensures !old(InSession()) ==> View() == old(View()).(inBuffer := Received(old(inBuffer[..]), pdata))
      ensures !old(InSession()) ==> connState == if old(Acknowledged(pdata)) then Data else old(connState)
    {
      hide Framing.Messages, Framing.Aligned, HandleAll, Progresses, Loaded, TypeOf;
      keepAliveTick := 0;
      if connState == Data || connState == KeepaliveSend {
        ReceiveLoop(pdata);
      } else if 0 < |pdata| < MQTT_BUF_SIZE {
        Load(pdata);
        var msgType := TypeOf(inBuffer[..]);
        FirstLoaded(old(inBuffer[..]), pdata);
        if connState == ConnectSending && msgType == CONNACK && pendingType == CONNECT {
          connState := Data;
        }
      }
    }

    /** The segment begins with the answer to the CONNECT packet just sent. */
    ghost predicate Acknowledged(pdata: seq<byte>)
      reads this`connState, this`pendingType
    {
      && connState == ConnectSending && pendingType == CONNECT
      && 0 < |pdata| < MQTT_BUF_SIZE && TypeOf(pdata) == CONNACK
    }

    /** `mqtt_tcpclient_sent_cb`. */
    method SentCallback()
      requires Valid()
      modifies this`sendTimeout, this`keepAliveTick
      ensures Valid() && sendTimeout == 0 && keepAliveTick == 0
    {
      sendTimeout, keepAliveTick := 0, 0;
    }

    /** `mqtt_timer`, once a second: after `keepalive` idle seconds a keep-alive is due. */
    method Timer(keepalive: nat)
      requires Valid()
      modifies this`sendTimeout, this`keepAliveTick, this`connState
      ensures Valid() && sendTimeout == if old(sendTimeout) > 0 then old(sendTimeout) - 1 else 0
      ensures var due := old(connState) == Data && old(keepAliveTick) + 1 > keepalive;
              connState == if due then KeepaliveSend else old(connState)
    {
      hide Framing.Messages, Framing.Aligned, Sends, QueueSends, Packets;
      if connState == Data {
        keepAliveTick := keepAliveTick + 1;
        if keepAliveTick > keepalive {
          connState := KeepaliveSend;
        }
      }
      if sendTimeout > 0 {
        sendTimeout := sendTimeout - 1;
      }
    }
  }

  /** The in-buffer after a segment was read, if it has a length the code accepts. */
  function Received(inBuffer: seq<byte>, s: seq<byte>): seq<byte>
    requires |inBuffer| == MQTT_BUF_SIZE
  {
    if 0 < |s| < MQTT_BUF_SIZE then Loaded(inBuffer, s) else inBuffer
  }

  lemma FirstLoaded(inBuffer: seq<byte>, s: seq<byte>)
    requires 0 < |s| <= |inBuffer|
    ensures |Loaded(inBuffer, s)| > 0 && TypeOf(Loaded(inBuffer, s)) == TypeOf(s)
  {
  }

  lemma PingReplies(typ: nat, qos: nat)
    ensures ReplyFor(typ, qos).Reply? && !ReplyFor(typ, qos).withId ==> ReplyFor(typ, qos).qos == 0
  {
  }

  lemma HandledBuffer(st: Receiving, s: seq<byte>, size: nat)
    requires Sane(st, size) && 0 < |s| < MQTT_BUF_SIZE
    ensures HandleOne(st, s, size).inBuffer == Loaded(st.inBuffer, s)
  {
  }

  /** A segment of well-formed PUBLISH packets, received by a client: every packet is delivered once, in
      order, and the acknowledgements owed are queued while there is room. */
  method ReceivePublishes(c: Client, segment: seq<byte>, ghost ps: seq<MqttPacket.Publish>)
    requires c.Valid() && c.InSession() && forall k :: 0 <= k < |ps| ==> WellFormed(ps[k])
    requires segment == Segment(ps) && |segment| < MQTT_BUF_SIZE
    modifies c, c.connection, c.connection.buffer, c.queue, c.queue.data, c.inBuffer
    ensures c.Valid() && c.delivered == old(c.delivered) + Deliveries(ps)
    ensures |old(c.queue.Contents())| <= c.queue.size
    ensures (c.queue.Contents(), c.accepted)
         == Queued(old(c.queue.Contents()), old(c.accepted), Acks(ps), c.queue.size)
  {
    hide HandleAll, Progresses, Segment, Deliveries, Acks, Queued, Framing.Messages, Framing.Aligned;
    HandleSegment(c.View(), ps, c.queue.size);
    c.Receive(segment);
  }

  // Runs

  /** A call of the application, or an event that the network, the scheduler or a timer brings. */
  datatype Call =
    | PublishCall(topic: seq<byte>, data: seq<byte>, qos: nat, retain: nat)
    | SubscribeCall(topic: seq<byte>, qos: nat)
    | UnsubscribeCall(topic: seq<byte>)
    | PingCall
    | ConnectedEvent(connect: seq<byte>)
    | TaskEvent(ok: bool)
    | ReceiveEvent(segment: seq<byte>)
    | SentEvent
    | TimerEvent(keepalive: nat)

  /** A CONNECT packet is not empty, and the receive loop ends on every segment. */
  ghost predicate Serviceable(call: Call) {
    match call
    case ConnectedEvent(connect) => connect != []
    case ReceiveEvent(segment) => Progresses(seq(MQTT_BUF_SIZE, _ => 0), segment)
    case _ => true
  }

  /** Over every run of a client: the messages the socket got from the queue are accepted messages, in
      the order they were accepted in. */
  method Serve(c: Client, calls: seq<Call>)
    requires c.Valid() && forall i :: 0 <= i < |calls| ==> Serviceable(calls[i])
    modifies c, c.connection, c.connection.buffer, c.queue, c.queue.data, c.inBuffer
    ensures c.Valid() && Subsequence(QueueSends(c.sent), c.accepted)
  {
    hide Packets, Sends, QueueSends, Subsequence, Framing.Messages, Framing.Aligned;
    for i := 0 to |calls|
      invariant c.Valid() && c.SameBuffers()
    {
      ServeOne(c, calls[i]);
    }
    c.SentInOrder();
  }

  method ServeOne(c: Client, call: Call)
    requires c.Valid() && Serviceable(call)
    modifies c, c.connection, c.connection.buffer, c.queue, c.queue.data, c.inBuffer
    ensures c.Valid() && c.SameBuffers()
  {
    hide Packets, Sends, QueueSends, Packet, EncodePublish, Progresses, HandleAll, Framing.Messages, Framing.Aligned;
    match call {
      case PublishCall(topic, data, qos, retain) => var ok, k := c.Publish(topic, data, qos, retain);
      case SubscribeCall(topic, qos) => var ok, k := c.Subscribe(topic, qos);
      case UnsubscribeCall(topic) => var ok, k := c.Unsubscribe(topic);
      case PingCall => var ok, k := c.Ping();
      case ConnectedEvent(connect) => c.Connected(connect);
      case TaskEvent(ok) => var sentNow := c.Task(ok);
      case ReceiveEvent(segment) =>
        ProgressIsLocal(seq(MQTT_BUF_SIZE, _ => 0), c.inBuffer[..], segment);
        c.Receive(segment);
      case SentEvent => c.SentCallback();
      case TimerEvent(keepalive) => c.Timer(keepalive);
    }
  }
}
