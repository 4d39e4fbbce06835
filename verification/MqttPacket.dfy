/** MQTT packets as byte sequences, and what the getters of mqtt_msg.c read out of a buffer. */
module MqttPacket {
  import opened Bytes

  const CONNECT: nat := 1
  const CONNACK: nat := 2
  const PUBLISH: nat := 3
  const PUBACK: nat := 4
  const PUBREC: nat := 5
  const PUBREL: nat := 6
  const PUBCOMP: nat := 7
  const SUBSCRIBE: nat := 8
  const SUBACK: nat := 9
  const UNSUBSCRIBE: nat := 10
  const UNSUBACK: nat := 11
  const PINGREQ: nat := 12
  const PINGRESP: nat := 13

  // Encoding

  /** The first header byte: the type in the upper half, below it dup, two bits of QoS and retain. */
  function FirstByte(typ: nat, dup: nat, qos: nat, retain: nat): byte {
    typ % 16 * 16 + dup % 2 * 8 + qos % 4 * 2 + retain % 2
  }

  lemma FirstByteIsOr(typ: bv8, dup: bv8, qos: bv8, retain: bv8)
    ensures ((typ & 0x0F) << 4) | ((dup & 1) << 3) | ((qos & 3) << 1) | (retain & 1)
         == (typ % 16) * 16 + (dup % 2) * 8 + (qos % 4) * 2 + retain % 2
  {
  }

  /** The longest remaining length two bytes can carry (section 2.2.3 of MQTT 3.1.1). */
  const MAX_TWO_BYTES: nat := 16383

  function RemainingLength(n: nat): seq<byte> {
    if n > 127 then [0x80 + n % 128, n / 128 % 256] else [n]
  }

  function Packet(typ: nat, dup: nat, qos: nat, retain: nat, body: seq<byte>): seq<byte> {
    [FirstByte(typ, dup, qos, retain)] + RemainingLength(|body|) + body
  }

  function TwoBytes(n: nat): seq<byte>
    requires n < 65536
  {
    [n / 256, n % 256]
  }

  /** What a PUBLISH packet carries (section 3.3 of MQTT 3.1.1). */
  datatype Publish = Publish(dup: nat, qos: nat, retain: nat, topic: seq<byte>, id: nat, payload: seq<byte>)

  predicate WellFormed(p: Publish) {
    && p.dup <= 1 && p.qos <= 2 && p.retain <= 1
    && 0 < |p.topic| < 65536
    && (p.qos > 0 ==> 0 < p.id < 65536) && (p.qos == 0 ==> p.id == 0)
    && |PublishBody(p)| <= MAX_TWO_BYTES
  }

  function PublishBody(p: Publish): seq<byte>
    requires |p.topic| < 65536 && p.id < 65536
  {
    TwoBytes(|p.topic|) + p.topic + (if p.qos > 0 then TwoBytes(p.id) else []) + p.payload
  }

  function EncodePublish(p: Publish): seq<byte>
    requires |p.topic| < 65536 && p.id < 65536
  {
    Packet(PUBLISH, p.dup, p.qos, p.retain, PublishBody(p))
  }

  // Reading

  function TypeOf(b: seq<byte>): nat
    requires |b| > 0
  {
    b[0] / 16
  }

  function QosOf(b: seq<byte>): nat
    requires |b| > 0
  {
    b[0] / 2 % 4
  }

  /** Where the loop over the remaining-length bytes stops. */
  function LengthEnd(b: seq<byte>, length: nat, i: nat): (e: nat)
    requires length <= |b|
    ensures e >= i
    decreases length - i
  {
    if i >= length then i else if b[i] < 0x80 then i + 1 else LengthEnd(b, length, i + 1)
  }

  function Power128(k: nat): nat {
    if k == 0 then 1 else 128 * Power128(k - 1)
  }

  /** What that loop adds up from byte i on: seven bits per byte, least significant first. */
  function LengthValue(b: seq<byte>, length: nat, i: nat): nat
    requires length <= |b| && i >= 1
    decreases length - i
  {
    if i >= length then 0
    else b[i] % 128 * Power128(i - 1) + if b[i] < 0x80 then 0 else LengthValue(b, length, i + 1)
  }

  /** `mqtt_get_total_length` */
  function TotalLength(b: seq<byte>, length: nat): nat
    requires length <= |b|
  {
    LengthValue(b, length, 1) + LengthEnd(b, length, 1)
  }

  function Word(b: seq<byte>, i: nat): nat
    requires i + 1 < |b|
  {
    var high: nat := b[i];
    high * 256 + b[i + 1]
  }

  /** A pointer into the buffer, or null, and the length passed back beside it. */
  datatype Slice = Slice(offset: int, length: nat)

  const NO_SLICE: int := -1

  /** The bytes a callback is handed. */
  function Taken(b: seq<byte>, s: Slice): seq<byte> {
    if s.offset < 0 || s.offset + s.length > |b| then [] else b[s.offset..s.offset + s.length]
  }

  /** `mqtt_get_publish_topic` */
  function TopicOf(b: seq<byte>, length: nat): Slice
    requires length <= |b|
  {
    var i := LengthEnd(b, length, 1);
    if i + 2 >= length then Slice(NO_SLICE, length)
    else if i + 2 + Word(b, i) > length then Slice(NO_SLICE, length)
    else Slice(i + 2, Word(b, i))
  }

  /** `mqtt_get_publish_data` */
  function DataOf(b: seq<byte>, length: nat): Slice
    requires length <= |b| && |b| > 0
  {
    var i := LengthEnd(b, length, 1);
    if i + 2 >= length then Slice(NO_SLICE, 0)
    else if i + 2 + Word(b, i) >= length then Slice(NO_SLICE, 0)
    else
      var j := i + 2 + Word(b, i);
      if QosOf(b) > 0 && j + 2 >= length then Slice(NO_SLICE, 0)
      else
        var k := if QosOf(b) > 0 then j + 2 else j;
        var total := TotalLength(b, length);
        if total < k then Slice(NO_SLICE, 0)
        else if total <= length then Slice(k, total - k)
        else Slice(k, length - k)
  }

  /** `mqtt_get_id` */
  function IdOf(b: seq<byte>, length: nat): nat
    requires length <= |b|
  {
    if length < 1 then 0
    else if TypeOf(b) == PUBLISH then
      var i := LengthEnd(b, length, 1);
      if i + 2 >= length then 0
      else if i + 2 + Word(b, i) >= length then 0
      else
        var j := i + 2 + Word(b, i);
        if QosOf(b) == 0 || j + 2 >= length then 0 else Word(b, j)
    else if (PUBACK <= TypeOf(b) <= SUBACK) || TypeOf(b) == UNSUBACK then
      if length >= 4 && b[1] < 0x80 then Word(b, 2) else 0
    else 0
  }

  // Recovering a packet

  lemma FirstByteRead(b: seq<byte>, dup: nat, qos: nat, retain: nat)
    requires |b| > 0 && b[0] == FirstByte(PUBLISH, dup, qos, retain)
    ensures TypeOf(b) == PUBLISH && QosOf(b) == qos % 4
  {
    assert b[0] == 48 + dup % 2 * 8 + qos % 4 * 2 + retain % 2;
  }

  /** The remaining-length bytes read back, as the algorithm of section 2.2.3 has it, exactly when two
      bytes can carry the length: the builder never writes a third. */
  lemma LengthRead(b: seq<byte>, n: nat, length: nat)
    requires Occurs(b, 1, RemainingLength(n)) && 1 + |RemainingLength(n)| <= length <= |b|
    ensures LengthEnd(b, length, 1) == 1 + |RemainingLength(n)| && LengthValue(b, length, 1) == n
       <==> n <= MAX_TWO_BYTES
  {
    var t := RemainingLength(n);
    OccursAt(b, 1, t, 0);
    if n > 127 {
      OccursAt(b, 1, t, 1);
      assert b[1] == 128 + n % 128 && b[2] == n / 128 % 256;
      hide Occurs, RemainingLength;
      assert Power128(0) == 1 && Power128(1) == 128;
      var high: nat := b[2];
      if high < 128 {
        assert LengthValue(b, length, 2) == high * 128;
        assert LengthValue(b, length, 1) == n % 128 * 1 + high * 128;
      } else {
        assert LengthEnd(b, length, 1) == LengthEnd(b, length, 3);
        assert LengthEnd(b, length, 3) > 3 || length == 3;
      }
    }
  }

  /** The remaining length in general (section 2.2.3 of MQTT 3.1.1): seven bits a byte, the eighth
      set on every byte but the last. */
  function VariableLength(n: nat): (t: seq<byte>)
    ensures |t| >= 1
  {
    if n < 128 then [n] else [128 + n % 128] + VariableLength(n / 128)
  }

  /** The reader's loop computes it back, however many bytes it takes. */
  lemma {:induction false} VariableLengthRead(b: seq<byte>, n: nat, length: nat, i: nat)
    requires i >= 1 && Occurs(b, i, VariableLength(n)) && i + |VariableLength(n)| <= length <= |b|
    ensures LengthEnd(b, length, i) == i + |VariableLength(n)|
    ensures LengthValue(b, length, i) == n * Power128(i - 1)
    decreases n
  {
    hide Occurs;
    OccursAt(b, i, VariableLength(n), 0);
    if n >= 128 {
      OccursConcat(b, i, [128 + n % 128], VariableLength(n / 128));
      VariableLengthRead(b, n / 128, length, i + 1);
      Digits128(n, Power128(i - 1));
    } else {
      assert n % 128 == n;
    }
  }

  lemma Digits128(n: nat, p: nat)
    ensures n % 128 * p + n / 128 * (128 * p) == n * p
  {
    assert n == n % 128 + n / 128 * 128;
    assert n * p == n % 128 * p + n / 128 * 128 * p;
  }

  lemma HeaderRead(b: seq<byte>, p: Publish, length: nat)
    requires WellFormed(p) && Occurs(b, 0, EncodePublish(p)) && |EncodePublish(p)| <= length <= |b|
    ensures TypeOf(b) == PUBLISH && QosOf(b) == p.qos
    ensures LengthEnd(b, length, 1) == 1 + |RemainingLength(|PublishBody(p)|)|
    ensures TotalLength(b, length) == |EncodePublish(p)|
  {
    hide PublishBody, LengthEnd, LengthValue, Occurs, FirstByte, RemainingLength;
    var n := |PublishBody(p)|;
    var first := [FirstByte(PUBLISH, p.dup, p.qos, p.retain)];
    OccursConcat(b, 0, first + RemainingLength(n), PublishBody(p));
    OccursConcat(b, 0, first, RemainingLength(n));
    OccursAt(b, 0, first, 0);
    FirstByteRead(b, p.dup, p.qos, p.retain);
    LengthRead(b, n, length);
  }

  lemma WordOf(b: seq<byte>, i: nat, n: nat)
    requires n < 65536 && Occurs(b, i, TwoBytes(n))
    ensures i + 1 < |b| && Word(b, i) == n
  {
    OccursAt(b, i, TwoBytes(n), 0);
    OccursAt(b, i, TwoBytes(n), 1);
  }

  /** Where the parts of a PUBLISH packet stand: its topic length at h, its payload at k. */
  lemma Layout(b: seq<byte>, p: Publish) returns (h: nat, k: nat)
    requires WellFormed(p) && Occurs(b, 0, EncodePublish(p))
    ensures h == 1 + |RemainingLength(|PublishBody(p)|)|
    ensures h + 1 < |b| && Word(b, h) == |p.topic| && Occurs(b, h + 2, p.topic)
    ensures k == h + 2 + |p.topic| + if p.qos > 0 then 2 else 0
    ensures p.qos > 0 ==> k <= |b| && Word(b, h + 2 + |p.topic|) == p.id
    ensures Occurs(b, k, p.payload) && k + |p.payload| == |EncodePublish(p)|
  {
    hide Occurs, TwoBytes, RemainingLength, Word;
    var head := [FirstByte(PUBLISH, p.dup, p.qos, p.retain)] + RemainingLength(|PublishBody(p)|);
    var id: seq<byte> := if p.qos > 0 then TwoBytes(p.id) else [];
    h := |head|;
    k := h + 2 + |p.topic| + |id|;
    assert |TwoBytes(|p.topic|)| == 2 && (p.qos > 0 ==> |TwoBytes(p.id)| == 2) by {
      TwoBytesLength(|p.topic|);
      TwoBytesLength(p.id);
    }
    OccursConcat(b, 0, head, PublishBody(p));
    OccursConcat(b, h, TwoBytes(|p.topic|) + p.topic + id, p.payload);
    OccursConcat(b, h, TwoBytes(|p.topic|) + p.topic, id);
    OccursConcat(b, h, TwoBytes(|p.topic|), p.topic);
    WordOf(b, h, |p.topic|);
    if p.qos > 0 { WordOf(b, h + 2 + |p.topic|, p.id); }
  }

  lemma TwoBytesLength(n: nat)
    requires n < 65536
    ensures |TwoBytes(n)| == 2
  {
  }

  lemma SliceOf(b: seq<byte>, i: nat, t: seq<byte>)
    requires Occurs(b, i, t)
    ensures Taken(b, Slice(i, |t|)) == t && i + |t| <= |b|
  {
  }

  /** The getters recover what the packet carries, whatever follows it in the buffer. */
  lemma PublishRecovered(b: seq<byte>, p: Publish, length: nat)
    requires WellFormed(p) && Occurs(b, 0, EncodePublish(p)) && |EncodePublish(p)| <= length <= |b|
    ensures TypeOf(b) == PUBLISH && QosOf(b) == p.qos && TotalLength(b, length) == |EncodePublish(p)|
    ensures TopicOf(b, length).offset >= 0 && Taken(b, TopicOf(b, length)) == p.topic
    ensures Taken(b, DataOf(b, length)) == p.payload && DataOf(b, length).length == |p.payload|
  {
    HeaderRead(b, p, length);
    var h, k := Layout(b, p);
    SliceOf(b, h + 2, p.topic);
    SliceOf(b, k, p.payload);
    hide LengthEnd, TotalLength, EncodePublish, Word, RemainingLength;
    assert TopicOf(b, length) == Slice(h + 2, |p.topic|);
    assert DataOf(b, length) == Slice(k, |p.payload|) || (p.payload == [] && DataOf(b, length) == Slice(NO_SLICE, 0));
  }

  /** The message id is recovered exactly when something follows it within the given length: with an
      empty payload and nothing after the packet, mqtt_get_id answers 0. */
  lemma IdRecovered(b: seq<byte>, p: Publish, length: nat)
    requires WellFormed(p) && Occurs(b, 0, EncodePublish(p)) && |EncodePublish(p)| <= length <= |b|
    ensures IdOf(b, length) == if p.payload != [] || length > |EncodePublish(p)| then p.id else 0
    ensures IdOf(b, length) == p.id <==> p.qos == 0 || p.payload != [] || length > |EncodePublish(p)|
  {
    HeaderRead(b, p, length);
    var h, k := Layout(b, p);
    hide LengthEnd, TotalLength, EncodePublish, Word, RemainingLength;
  }

  /** The four-byte acknowledgements: type and id are recovered. */
  lemma AckRecovered(typ: nat, qos: nat, id: nat)
    requires PUBACK <= typ <= PUBCOMP && qos <= 1 && 0 < id < 65536
    ensures var t := Packet(typ, 0, qos, 0, TwoBytes(id));
      |t| == 4 && TypeOf(t) == typ && IdOf(t, 4) == id
  {
    var t := Packet(typ, 0, qos, 0, TwoBytes(id));
    assert t == [FirstByte(typ, 0, qos, 0), 2, id / 256, id % 256];
    assert FirstByte(typ, 0, qos, 0) == typ * 16 + qos * 2;
  }
}
