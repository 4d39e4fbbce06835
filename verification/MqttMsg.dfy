/** The packet builders and getters of mqtt_msg.c. */
module MqttMsg {
  import opened Bytes
  import opened MqttPacket

  const MAX_FIXED_HEADER_SIZE: nat := 3

  /** The counter after `++connection->message_id`, which the loop repeats while it gives 0. */
  function NextId(id: nat): nat {
    if id + 1 >= 65536 then 1 else id + 1
  }

  /** mqtt_connection_t, with the message as a start and a length in the buffer. */
  class Connection {
    var buffer: array<byte>
    var bufferLength: nat
    var messageId: nat
    var start: nat
    var length: nat

    ghost predicate Valid()
      reads this
    {
      MAX_FIXED_HEADER_SIZE <= bufferLength <= buffer.Length && bufferLength < 65536 && messageId < 65536
    }

    /** A message is being assembled after the space kept for its header. */
    ghost predicate Building()
      reads this
    {
      Valid() && MAX_FIXED_HEADER_SIZE <= length <= bufferLength
    }

    ghost function Body(): seq<byte>
      requires Building()
      reads this, buffer
    {
      buffer[MAX_FIXED_HEADER_SIZE..length]
    }

    ghost predicate Finished()
      reads this
    {
      Valid() && start + length <= bufferLength
    }

    ghost function Message(): seq<byte>
      requires Finished()
      reads this, buffer
    {
      buffer[start..start + length]
    }

    /** `mqtt_msg_init` */
    constructor (buffer: array<byte>, bufferLength: nat)
      requires MAX_FIXED_HEADER_SIZE <= bufferLength <= buffer.Length && bufferLength < 65536
      ensures Valid() && this.buffer == buffer && this.bufferLength == bufferLength && messageId == 0
    {
      this.buffer := buffer;
      this.bufferLength := bufferLength;
      messageId, start, length := 0, 0, 0;
    }

    /** `append_string` */
    method AppendString(text: seq<byte>) returns (r: int)
      requires Building()
      modifies this`length, buffer
      ensures Building() && buffer[bufferLength..] == old(buffer[bufferLength..])
      ensures old(length) + |text| + 2 > bufferLength ==> r == -1 && length == old(length) && Body() == old(Body())
      ensures old(length) + |text| + 2 <= bufferLength ==>
        r == |text| + 2 && length == old(length) + |text| + 2 && |text| < 65536
        && Body() == old(Body()) + TwoBytes(|text|) + text
    {
      var len := |text|;
      if length + len + 2 > bufferLength { return -1; }
      ghost var before := Body();
      AppendWord(len);
      ghost var word := Body();
      AppendBytes(text);
      return len + 2;
    }

    /** The two bytes of a length or an id, high byte first. */
    method AppendWord(n: nat)
      requires Building() && length + 2 <= bufferLength && n < 65536
      modifies this`length, buffer
      ensures Building() && buffer[bufferLength..] == old(buffer[bufferLength..])
      ensures length == old(length) + 2 && Body() == old(Body()) + TwoBytes(n)
    {
      buffer[length] := n / 256;
      length := length + 1;
      buffer[length] := n % 256;
      length := length + 1;
    }

    /** `memcpy` to the end of the message */
    method AppendBytes(t: seq<byte>)
      requires Building() && length + |t| <= bufferLength
      modifies this`length, buffer
      ensures Building() && buffer[bufferLength..] == old(buffer[bufferLength..])
      ensures length == old(length) + |t| && Body() == old(Body()) + t
    {
      ghost var before := Body();
      var i := 0;
      while i < |t|
        invariant 0 <= i <= |t| && length == old(length)
        invariant buffer[MAX_FIXED_HEADER_SIZE..length + i] == before + t[..i]
        invariant buffer[bufferLength..] == old(buffer[bufferLength..])
      {
        buffer[length + i] := t[i];
        i := i + 1;
        assert t[..i] == t[..i - 1] + [t[i - 1]];
      }
      length := length + |t|;
      assert t[..|t|] == t;
    }

    /** `append_message_id` */
    method AppendMessageId(id0: nat) returns (id: nat)
      requires Building() && id0 < 65536
      modifies this`length, this`messageId, buffer
      ensures Building() && buffer[bufferLength..] == old(buffer[bufferLength..])
      ensures messageId == if id0 == 0 then NextId(old(messageId)) else old(messageId)
      ensures old(length) + 2 > bufferLength ==> id == 0
      ensures old(length) + 2 <= bufferLength ==>
        id == (if id0 == 0 then messageId else id0) && 0 < id < 65536
        && length == old(length) + 2 && Body() == old(Body()) + TwoBytes(id)
    {
      id := id0;
      while id == 0
        invariant id < 65536 && messageId < 65536 && Building() && length == old(length)
        invariant buffer[..] == old(buffer[..])
        invariant id == 0 ==> id0 == 0 && (messageId == old(messageId) || (messageId == 0 && old(messageId) == 65535))
        invariant id != 0 ==> id == (if id0 == 0 then messageId else id0)
        invariant id != 0 ==> messageId == if id0 == 0 then NextId(old(messageId)) else old(messageId)
        decreases if id != 0 then 0 else if messageId == 65535 then 2 else 1
      {
        messageId := (messageId + 1) % 65536;
        id := messageId;
      }
      if length + 2 > bufferLength { return 0; }
      AppendWord(id);
    }

    /** `init_message` */
    method InitMessage()
      requires Valid()
      modifies this`length
      ensures Building() && Body() == []
    {
      length := MAX_FIXED_HEADER_SIZE;
    }

    /** `fail_message` */
    method FailMessage()
      requires Valid()
      modifies this`start, this`length
      ensures Finished() && length == 0
    {
      start, length := 0, 0;
    }

    /** `fini_message` */
    method FiniMessage(typ: nat, dup: nat, qos: nat, retain: nat)
      requires Building()
      modifies this`start, this`length, buffer
      ensures Finished() && buffer[bufferLength..] == old(buffer[bufferLength..])
      ensures length > 0 && Message() == Packet(typ, dup, qos, retain, old(Body()))
    {
      ghost var body := Body();
      var remaining := length - MAX_FIXED_HEADER_SIZE;
      if remaining > 127 {
        buffer[0] := FirstByte(typ, dup, qos, retain);
        buffer[1] := 0x80 + remaining % 128;
        buffer[2] := remaining / 128 % 256;
        length := remaining + 3;
        start := 0;
      } else {
        buffer[1] := FirstByte(typ, dup, qos, retain);
        buffer[2] := remaining;
        length := remaining + 2;
        start := 1;
      }
      assert buffer[start..3] == [FirstByte(typ, dup, qos, retain)] + RemainingLength(remaining);
      assert buffer[3..3 + remaining] == body;
      assert Message() == buffer[start..3] + buffer[3..3 + remaining];
    }

    /** `mqtt_msg_publish`. It fails exactly for an empty topic or a message longer than the buffer. */
    method Publish(topic: seq<byte>, data: seq<byte>, qos: nat, retain: nat) returns (id: nat)
      requires Valid()
      modifies this`start, this`length, this`messageId, buffer
      ensures Finished() && buffer[bufferLength..] == old(buffer[bufferLength..])
      ensures length == 0 <==> topic == [] || 5 + |topic| + (if qos > 0 then 2 else 0) + |data| > bufferLength
      ensures messageId == if topic != [] && 5 + |topic| <= bufferLength && qos > 0 then NextId(old(messageId))
                           else old(messageId)
      ensures length > 0 ==>
        && |topic| < 65536 && id == (if qos > 0 then NextId(old(messageId)) else 0) < 65536
        && Message() == EncodePublish(MqttPacket.Publish(0, qos, retain, topic, id, data))
    {
      hide Packet, TwoBytes;
      id := 0;
      InitMessage();
      if topic == [] {
        FailMessage();
        return;
      }
      var appended := AppendString(topic);
      if appended < 0 {
        FailMessage();
        return;
      }
      if qos > 0 {
        id := AppendMessageId(0);
        if id == 0 {
          FailMessage();
          return;
        }
      }
      if length + |data| > bufferLength {
        FailMessage();
        return;
      }
      AppendBytes(data);
      BodyIs(topic, data, qos, retain, id, Body());
      hide PublishBody;
      FiniMessage(PUBLISH, 0, qos, retain);
    }

    /** `mqtt_msg_puback`, `mqtt_msg_pubrec`, `mqtt_msg_pubrel` and `mqtt_msg_pubcomp`, which differ in the
        type and in the QoS bits only. */
    method Acknowledge(typ: nat, qos: nat, id: nat)
      requires Valid() && id < 65536
      modifies this`start, this`length, this`messageId, buffer
      ensures Finished() && buffer[bufferLength..] == old(buffer[bufferLength..])
      ensures messageId == if id == 0 then NextId(old(messageId)) else old(messageId)
      ensures length == 0 <==> bufferLength < 5
      ensures length > 0 ==> Message() == Packet(typ, 0, qos, 0, TwoBytes(if id == 0 then messageId else id))
    {
      InitMessage();
      var used := AppendMessageId(id);
      if used == 0 {
        FailMessage();
        return;
      }
      assert Body() == TwoBytes(used);
      FiniMessage(typ, 0, qos, 0);
    }

    /** `mqtt_msg_subscribe`. */
    method Subscribe(topic: seq<byte>, qos: nat) returns (id: nat)
      requires Valid()
      modifies this`start, this`length, this`messageId, buffer
      ensures Finished() && buffer[bufferLength..] == old(buffer[bufferLength..])
      ensures length == 0 <==> topic == [] || 8 + |topic| > bufferLength
      ensures messageId == if topic != [] then NextId(old(messageId)) else old(messageId)
      ensures length > 0 ==>
        && |topic| < 65536 && id == NextId(old(messageId)) < 65536
        && Message() == Packet(SUBSCRIBE, 0, 1, 0, TwoBytes(id) + TwoBytes(|topic|) + topic + [(qos % 256) as byte])
    {
      hide Packet, TwoBytes;
      id := 0;
      InitMessage();
      if topic == [] {
        FailMessage();
        return;
      }
      id := AppendMessageId(0);
      if id == 0 {
        FailMessage();
        return;
      }
      var appended := AppendString(topic);
      if appended < 0 || length + 1 > bufferLength {
        FailMessage();
        return;
      }
      AppendBytes([(qos % 256) as byte]);
      assert Body() == TwoBytes(id) + TwoBytes(|topic|) + topic + [(qos % 256) as byte];
      FiniMessage(SUBSCRIBE, 0, 1, 0);
    }

    /** `mqtt_msg_unsubscribe`. */
    method Unsubscribe(topic: seq<byte>) returns (id: nat)
      requires Valid()
      modifies this`start, this`length, this`messageId, buffer
      ensures Finished() && buffer[bufferLength..] == old(buffer[bufferLength..])
      ensures length == 0 <==> topic == [] || 7 + |topic| > bufferLength
      ensures messageId == if topic != [] then NextId(old(messageId)) else old(messageId)
      ensures length > 0 ==>
        && |topic| < 65536 && id == NextId(old(messageId)) < 65536
        && Message() == Packet(UNSUBSCRIBE, 0, 1, 0, TwoBytes(id) + TwoBytes(|topic|) + topic)
    {
      hide Packet, TwoBytes;
      id := 0;
      InitMessage();
      if topic == [] {
        FailMessage();
        return;
      }
      id := AppendMessageId(0);
      if id == 0 {
        FailMessage();
        return;
      }
      var appended := AppendString(topic);
      if appended < 0 {
        FailMessage();
        return;
      }
      assert Body() == TwoBytes(id) + TwoBytes(|topic|) + topic;
      FiniMessage(UNSUBSCRIBE, 0, 1, 0);
    }

    /** `mqtt_msg_pingreq` and `mqtt_msg_pingresp` */
    method Ping(typ: nat)
      requires Valid()
      modifies this`start, this`length, buffer
      ensures Finished() && buffer[bufferLength..] == old(buffer[bufferLength..])
      ensures length > 0 && Message() == Packet(typ, 0, 0, 0, [])
    {
      InitMessage();
      FiniMessage(typ, 0, 0, 0);
    }
  }

  lemma BodyIs(topic: seq<byte>, data: seq<byte>, qos: nat, retain: nat, id: nat, body: seq<byte>)
    requires |topic| < 65536 && id < 65536
    requires body == [] + TwoBytes(|topic|) + topic + (if qos > 0 then TwoBytes(id) else []) + data
    ensures body == PublishBody(MqttPacket.Publish(0, qos, retain, topic, id, data))
  {
  }

  // Getters

  /** The loop each getter starts with. */
  method ReadLength(b: seq<byte>, length: nat) returns (i: nat, totlen: nat)
    requires length <= |b|
    ensures i == LengthEnd(b, length, 1) && totlen == LengthValue(b, length, 1)
  {
    i, totlen := 1, 0;
    while i < length
      invariant i >= 1 && LengthEnd(b, length, i) == LengthEnd(b, length, 1)
      invariant totlen + LengthValue(b, length, i) == LengthValue(b, length, 1)
      decreases length - i
    {
      totlen := totlen + b[i] % 128 * Power128(i - 1);
      if b[i] < 0x80 {
        i := i + 1;
        break;
      }
      i := i + 1;
    }
  }

  method GetTotalLength(b: seq<byte>, length: nat) returns (r: nat)
    requires length <= |b|
    ensures r == TotalLength(b, length)
  {
    var i, totlen := ReadLength(b, length);
    r := totlen + i;
  }

  method GetPublishTopic(b: seq<byte>, length: nat) returns (s: Slice)
    requires length <= |b|
    ensures s == TopicOf(b, length)
  {
    var i, totlen := ReadLength(b, length);
    if i + 2 >= length { return Slice(NO_SLICE, length); }
    var topiclen := Word(b, i);
    i := i + 2;
    if i + topiclen > length { return Slice(NO_SLICE, length); }
    return Slice(i, topiclen);
  }

  method GetPublishData(b: seq<byte>, length: nat) returns (s: Slice)
    requires length <= |b| && |b| > 0
    ensures s == DataOf(b, length)
  {
    var i, totlen := ReadLength(b, length);
    totlen := totlen + i;
    if i + 2 >= length { return Slice(NO_SLICE, 0); }
    var topiclen := Word(b, i);
    i := i + 2;
    if i + topiclen >= length { return Slice(NO_SLICE, 0); }
    i := i + topiclen;
    if QosOf(b) > 0 {
      if i + 2 >= length { return Slice(NO_SLICE, 0); }
      i := i + 2;
    }
    if totlen < i { return Slice(NO_SLICE, 0); }
    if totlen <= length { return Slice(i, totlen - i); }
    return Slice(i, length - i);
  }

  method GetId(b: seq<byte>, length: nat) returns (id: nat)
    requires length <= |b|
    ensures id == IdOf(b, length)
  {
    if length < 1 { return 0; }
    var typ := TypeOf(b);
    if typ == PUBLISH {
      var i, totlen := ReadLength(b, length);
      if i + 2 >= length { return 0; }
      var topiclen := Word(b, i);
      i := i + 2;
      if i + topiclen >= length { return 0; }
      i := i + topiclen;
      if QosOf(b) > 0 {
        if i + 2 >= length { return 0; }
      } else {
        return 0;
      }
      return Word(b, i);
    }
    if typ == PUBACK || typ == PUBREC || typ == PUBREL || typ == PUBCOMP || typ == SUBACK || typ == UNSUBACK
      || typ == SUBSCRIBE {
      if length >= 4 && b[1] < 0x80 { return Word(b, 2); }
      return 0;
    }
    return 0;
  }

  /** Building a PUBLISH packet and reading it back, as far as two bytes can carry its length. */
  method PublishThenRead(c: Connection, topic: seq<byte>, data: seq<byte>, qos: nat, retain: nat)
    returns (ok: bool, topic': seq<byte>, data': seq<byte>, qos': nat, id: nat, id': nat, total: nat)
    requires c.Valid() && qos <= 2 && retain <= 1
    modifies c, c.buffer
    ensures var size := 2 + |topic| + (if qos > 0 then 2 else 0) + |data|;
      && (ok <==> topic != [] && 3 + size <= c.bufferLength)
      && (ok && size <= MAX_TWO_BYTES ==> total == c.length && topic' == topic && data' == data && qos' == qos)
      && (ok && size <= MAX_TWO_BYTES ==> (id' == id <==> qos == 0 || data != []))
  {
    topic', data', qos', id', total := [], [], 0, 0, 0;
    id := c.Publish(topic, data, qos, retain);
    ok := c.length > 0;
    if !ok { return; }
    var m := c.buffer[c.start..c.start + c.length];
    ghost var p := MqttPacket.Publish(0, qos, retain, topic, id, data);
    BodySize(p);
    OccursWhole(m);
    if |PublishBody(p)| <= MAX_TWO_BYTES {
      PublishRecovered(m, p, |m|);
      IdRecovered(m, p, |m|);
    }
    hide PublishBody, WellFormed, Occurs;
    hide EncodePublish, IdOf, DataOf, TopicOf, TotalLength;
    total := GetTotalLength(m, |m|);
    var t := GetPublishTopic(m, |m|);
    var d := GetPublishData(m, |m|);
    topic', data', qos' := Taken(m, t), Taken(m, d), QosOf(m);
    id' := GetId(m, |m|);
  }

  lemma BodySize(p: Publish)
    requires |p.topic| < 65536 && p.id < 65536
    ensures |PublishBody(p)| == 2 + |p.topic| + (if p.qos > 0 then 2 else 0) + |p.payload|
  {
  }
}
