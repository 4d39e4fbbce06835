/** The bytes of the handshake: what a client answers to each packet, bit for bit (chapter 3 of MQTT
    3.1.1). */
module MqttAnswers {
  import opened Bytes
  import opened MqttPacket
  import opened MqttReceive
  import MqttClient
  import MqttQueue

  /** From `st` to `r` the message `m` was queued if there was room. */
  ghost predicate Puts(st: Receiving, r: Receiving, m: seq<byte>, size: nat)
    requires Sane(st, size)
  {
    && r.ring == MqttQueue.AfterPut(st.ring, m, size)
    && r.accepted == st.accepted + if MqttQueue.Accepts(st.ring, m, size) then [m] else []
  }

  /** The id read at bytes 2 and 3, if one byte holds the remaining length. */
  function IdAt(b: seq<byte>): nat
    requires |b| >= 4
  {
    if b[1] < 128 then b[2] as int * 256 + b[3] as int else 0
  }

  /** The id used in an answer: a new one is drawn for 0. */
  function IdUsed(id: nat, counter: nat): nat {
    if id > 0 then id else if counter == 65535 then 1 else counter + 1
  }

  /** Every segment that does not begin with a PUBLISH: nothing is delivered; a PUBREC queues the PUBREL
      with its id, a PUBREL the PUBCOMP, a PINGREQ the PINGRESP, and any other packet nothing. */
  lemma AnswersExactly(st: Receiving, s: seq<byte>, size: nat)
    requires Sane(st, size) && 0 < |s| < MQTT_BUF_SIZE && s[0] / 16 != 3
    ensures Progresses(st.inBuffer, s)
    ensures var r := HandleAll(st, s, size);
            var b, typ := s + st.inBuffer[|s|..], s[0] / 16;
            var id := IdUsed(IdAt(b), st.messageId);
      && r.inBuffer == b && r.delivered == st.delivered && id < 65536
      && r.messageId == (if (typ == 5 || typ == 6) && IdAt(b) == 0 then id else st.messageId)
      && (typ == 5 ==> Puts(st, r, [0x62, 2, id / 256, id % 256], size))
      && (typ == 6 ==> Puts(st, r, [0x70, 2, id / 256, id % 256], size))
      && (typ == 12 ==> Puts(st, r, [0xD0, 0], size))
      && (typ != 5 && typ != 6 && typ != 12 ==> r.ring == st.ring && r.accepted == st.accepted)
  {
    hide MqttQueue.AfterPut, MqttQueue.Accepts, TotalLength, QosOf;
    var b := Loaded(st.inBuffer, s);
    var typ := s[0] / 16;
    assert b[0] == s[0];
    var id := IdUsed(IdAt(b), st.messageId);
    IdOfAcknowledgement(b);
    TakenUp(s, st, size);
    AnswerBytes(id);
    assert st.accepted + [] == st.accepted;
  }

  /** One turn and no more. */
  lemma TakenUp(s: seq<byte>, st: Receiving, size: nat)
    requires Sane(st, size) && 0 < |s| < MQTT_BUF_SIZE && s[0] / 16 != 3
    ensures Progresses(st.inBuffer, s) && HandleAll(st, s, size) == HandleOne(st, s, size)
  {
    hide HandleOne, PacketLength;
    assert Loaded(st.inBuffer, s)[0] == s[0];
  }

  lemma IdOfAcknowledgement(b: seq<byte>)
    requires |b| == MQTT_BUF_SIZE
    ensures b[0] / 16 == 5 || b[0] / 16 == 6 ==> IdOf(b, MQTT_BUF_SIZE) == IdAt(b)
    ensures IdAt(b) < 65536
  {
  }

  lemma AnswerBytes(id: nat)
    requires id < 65536
    ensures Packet(PUBREL, 0, 1, 0, TwoBytes(id)) == [0x62, 2, id / 256, id % 256]
    ensures Packet(PUBCOMP, 0, 0, 0, TwoBytes(id)) == [0x70, 2, id / 256, id % 256]
    ensures Packet(PUBACK, 0, 0, 0, TwoBytes(id)) == [0x40, 2, id / 256, id % 256]
    ensures Packet(PUBREC, 0, 0, 0, TwoBytes(id)) == [0x50, 2, id / 256, id % 256]
    ensures Packet(PINGRESP, 0, 0, 0, []) == [0xD0, 0]
    ensures Packet(PINGREQ, 0, 0, 0, []) == [0xC0, 0]
  {
  }

  /** A PUBLISH begins with 0x30, with dup, QoS and retain at their places. */
  lemma PublishBytes(p: Publish)
    requires WellFormed(p)
    ensures EncodePublish(p)[0] == 0x30 + 8 * p.dup + 2 * p.qos + p.retain
    ensures var body := [(|p.topic| / 256) as byte, (|p.topic| % 256) as byte] + p.topic
                        + (if p.qos > 0 then [(p.id / 256) as byte, (p.id % 256) as byte] else []) + p.payload;
      && |body| <= 16383
      && EncodePublish(p)[1..] == (if |body| <= 127 then [|body| as byte]
                                   else [(128 + |body| % 128) as byte, (|body| / 128) as byte]) + body
  {
  }

  /** A packet that subscribes begins with 0x82, one that unsubscribes with 0xA2. */
  lemma SubscribeBytes(body: seq<byte>)
    requires |body| <= 127
    ensures Packet(SUBSCRIBE, 0, 1, 0, body) == [0x82, |body|] + body
    ensures Packet(UNSUBSCRIBE, 0, 1, 0, body) == [0xA2, |body|] + body
  {
    assert FirstByte(SUBSCRIBE, 0, 1, 0) == 0x82 && FirstByte(UNSUBSCRIBE, 0, 1, 0) == 0xA2;
    hide FirstByte;
  }

  /** What a PUBLISH is owed: a PUBACK at QoS 1, a PUBREC at QoS 2, nothing at QoS 0. */
  lemma OwedBytes(p: Publish)
    requires WellFormed(p)
    ensures Owed(p) == if p.qos == 0 then [] else [[if p.qos == 1 then 0x40 else 0x50, 2, p.id / 256, p.id % 256]]
  {
    AnswerBytes(p.id);
  }

  /** The second half of the exchange of a QoS 2 message, whole: a client that receives the PUBREC of
      its message `id` answers with the PUBREL, one that receives the PUBREL of a message it was sent
      with the PUBCOMP, and one that receives the PUBCOMP with nothing, after any first bits, whatever
      follows, and whatever the buffer held. */
  lemma HandshakeGoesOn(st: Receiving, flags: nat, id: nat, rest: seq<byte>, size: nat)
    requires Sane(st, size) && flags < 16 && 0 < id < 65536 && |rest| < MQTT_BUF_SIZE - 4
    ensures forall typ: nat | 4 <= typ < 16 ::
      var s := [(typ * 16 + flags) as byte, 2, id / 256, id % 256] + rest;
      && Progresses(st.inBuffer, s)
      && var r := HandleAll(st, s, size);
      && r.delivered == st.delivered && r.messageId == st.messageId
      && (typ == 5 ==> Puts(st, r, [0x62, 2, id / 256, id % 256], size))
      && (typ == 6 ==> Puts(st, r, [0x70, 2, id / 256, id % 256], size))
      && (typ == 12 ==> Puts(st, r, [0xD0, 0], size))
      && (typ != 5 && typ != 6 && typ != 12 ==> r.ring == st.ring && r.accepted == st.accepted)
  {
    hide HandleAll, Progresses, Puts;
    forall typ: nat | 4 <= typ < 16
      ensures var s := [(typ * 16 + flags) as byte, 2, id / 256, id % 256] + rest;
        && Progresses(st.inBuffer, s)
        && var r := HandleAll(st, s, size);
        && r.delivered == st.delivered && r.messageId == st.messageId
        && (typ == 5 ==> Puts(st, r, [0x62, 2, id / 256, id % 256], size))
        && (typ == 6 ==> Puts(st, r, [0x70, 2, id / 256, id % 256], size))
        && (typ == 12 ==> Puts(st, r, [0xD0, 0], size))
        && (typ != 5 && typ != 6 && typ != 12 ==> r.ring == st.ring && r.accepted == st.accepted)
    {
      var s := [(typ * 16 + flags) as byte, 2, id / 256, id % 256] + rest;
      TypeAbove(typ, flags);
      AnswersExactly(st, s, size);
      var b := s + st.inBuffer[|s|..];
      assert b[1] == 2 && b[2] == id / 256 && b[3] == id % 256;
      assert id == id / 256 * 256 + id % 256;
    }
  }

  /** The same of a client: one that receives the PUBREC of a message queues its PUBREL. */
  method ReceivePubrec(c: MqttClient.Client, id: nat)
    requires c.Valid() && c.InSession() && 0 < id < 65536
    modifies c, c.connection, c.connection.buffer, c.queue, c.queue.data, c.inBuffer
    ensures c.Valid() && c.delivered == old(c.delivered) && Sane(old(c.View()), c.queue.size)
    ensures Puts(old(c.View()), c.View(), [0x62, 2, id / 256, id % 256], c.queue.size)
  {
    hide HandleAll, Progresses, Puts, MqttReceive.Loaded;
    var s := [0x50, 2, id / 256, id % 256];
    assert s + [] == s;
    ghost var v := c.View();
    assert Sane(v, c.queue.size);
    HandshakeGoesOn(v, 0, id, [], c.queue.size);
    assert [(5 * 16 + 0) as byte, 2, id / 256, id % 256] + [] == s;
    assert Progresses(v.inBuffer, s);
    c.Receive(s);
  }

  lemma TypeAbove(typ: nat, flags: nat)
    requires flags < 16
    ensures (typ * 16 + flags) / 16 == typ
  {
  }
}
