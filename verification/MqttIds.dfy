/** The ids a connection gives its messages: none is zero, and none comes again within 65535. */
module MqttIds {
  import opened Bytes
  import opened MqttPacket
  import opened MqttMsg

  /** The counter after k draws. */
  function Drawn(start: nat, k: nat): nat {
    if k == 0 then start else NextId(Drawn(start, k - 1))
  }

  /** The k-th draw goes round the numbers from 1 to 65535. */
  lemma {:induction false} DrawnIs(start: nat, k: nat)
    requires start < 65536 && k > 0
    ensures Drawn(start, k) == (start + k - 1) % 65535 + 1
  {
    if k == 1 {
      assert Drawn(start, 0) == start;
    } else {
      DrawnIs(start, k - 1);
      GoesRound(start + k - 2);
    }
  }

  lemma GoesRound(n: nat)
    ensures NextId(n % 65535 + 1) == (n + 1) % 65535 + 1
  {
  }

  /** Any two of 65535 consecutive draws differ, wherever the counter stood. */
  lemma DrawsDiffer(start: nat, i: nat, j: nat)
    requires start < 65536 && 0 < i < j < i + 65535
    ensures 0 < Drawn(start, i) < 65536 && 0 < Drawn(start, j) < 65536
    ensures Drawn(start, i) != Drawn(start, j)
  {
    DrawnIs(start, i);
    DrawnIs(start, j);
  }

  /** After 65535 draws the first id comes again. */
  lemma DrawsReturn(start: nat, i: nat)
    requires start < 65536 && i > 0
    ensures Drawn(start, i + 65535) == Drawn(start, i)
  {
    DrawnIs(start, i);
    DrawnIs(start, i + 65535);
    hide Drawn;
    assert (start + i - 1 + 65535) % 65535 == (start + i - 1) % 65535;
  }

  // Over any sequence of builds

  datatype Build =
    | BuildPublish(topic: seq<byte>, data: seq<byte>, qos: nat, retain: nat)
    | BuildSubscribe(topic: seq<byte>, qos: nat)
    | BuildUnsubscribe(topic: seq<byte>)
    | BuildAcknowledge(typ: nat, qos: nat, id: nat)
    | BuildPing(typ: nat)

  /** The message of a build that succeeded, if it drew `id`. */
  predicate Carries(b: Build, message: seq<byte>, id: nat) {
    id < 65536 &&
    match b
    case BuildPublish(topic, data, qos, retain) =>
      |topic| < 65536 && message == EncodePublish(MqttPacket.Publish(0, qos, retain, topic, id, data))
    case BuildSubscribe(topic, qos) =>
      |topic| < 65536
      && message == Packet(SUBSCRIBE, 0, 1, 0, TwoBytes(id) + TwoBytes(|topic|) + topic + [(qos % 256) as byte])
    case BuildUnsubscribe(topic) =>
      |topic| < 65536 && message == Packet(UNSUBSCRIBE, 0, 1, 0, TwoBytes(id) + TwoBytes(|topic|) + topic)
    case BuildAcknowledge(typ, qos, given) =>
      given < 65536 && message == Packet(typ, 0, qos, 0, TwoBytes(if given == 0 then id else given))
    case BuildPing(typ) => message == Packet(typ, 0, 0, 0, [])
  }

  /** How many of the first n builds drew an id. */
  function Draws(ids: seq<nat>, n: nat): (k: nat)
    requires n <= |ids|
    ensures k <= n
  {
    if n == 0 then 0 else Draws(ids, n - 1) + if ids[n - 1] != 0 then 1 else 0
  }

  lemma {:induction false} DrawsGrow(ids: seq<nat>, i: nat, j: nat)
    requires i <= j <= |ids|
    ensures Draws(ids, i) <= Draws(ids, j) <= Draws(ids, i) + (j - i)
    decreases j
  {
    if i < j { DrawsGrow(ids, i, j - 1); }
  }

  lemma {:induction false} DrawsPrefix(ids: seq<nat>, id: nat, n: nat)
    requires n <= |ids|
    ensures Draws(ids + [id], n) == Draws(ids, n)
  {
    if n > 0 { DrawsPrefix(ids, id, n - 1); }
  }

  /** Every id drawn is the next in the round; 0 stands for a build that drew none. */
  ghost predicate InTurn(start: nat, ids: seq<nat>) {
    forall i :: 0 <= i < |ids| && ids[i] != 0 ==> ids[i] == Drawn(start, Draws(ids, i) + 1)
  }

  lemma OneMore(start: nat, ids: seq<nat>, id: nat)
    requires InTurn(start, ids) && (id != 0 ==> id == Drawn(start, Draws(ids, |ids|) + 1))
    ensures InTurn(start, ids + [id])
    ensures Draws(ids + [id], |ids| + 1) == Draws(ids, |ids|) + if id != 0 then 1 else 0
  {
    hide Drawn;
    forall i | 0 <= i <= |ids| ensures Draws(ids + [id], i) == Draws(ids, i) {
      DrawsPrefix(ids, id, i);
    }
  }

  lemma Distinct(start: nat, ids: seq<nat>, i: nat, j: nat)
    requires start < 65536 && InTurn(start, ids) && i < j < |ids| && j - i < 65535 && ids[i] != 0 && ids[j] != 0
    ensures ids[i] != ids[j]
  {
    hide InTurn, Drawn, Draws;
    TurnOf(start, ids, i);
    TurnOf(start, ids, j);
    DrawsGrow(ids, i, i + 1);
    DrawsGrow(ids, i + 1, j);
    DrawsDiffer(start, Draws(ids, i) + 1, Draws(ids, j) + 1);
  }

  lemma TurnOf(start: nat, ids: seq<nat>, i: nat)
    requires InTurn(start, ids) && i < |ids| && ids[i] != 0
    ensures ids[i] == Drawn(start, Draws(ids, i) + 1) && Draws(ids, i + 1) == Draws(ids, i) + 1
  {
    hide Drawn;
  }

  lemma Counted(start: nat, ids: seq<nat>, i: nat)
    requires InTurn(start, ids) && start == 0 && i < |ids| && ids[i] != 0 && Draws(ids, i) < 65535
    ensures ids[i] == Draws(ids, i) + 1
  {
    hide InTurn, Drawn, Draws;
    TurnOf(start, ids, i);
    DrawnIs(start, Draws(ids, i) + 1);
  }

  ghost predicate NoRepeat(ids: seq<nat>) {
    forall i, j :: 0 <= i < j < |ids| && j - i < 65535 && ids[i] != 0 ==> ids[i] != ids[j]
  }

  ghost predicate AllCarry(bs: seq<Build>, messages: seq<seq<byte>>, ids: seq<nat>) {
    && |messages| == |ids| <= |bs|
    && forall i :: 0 <= i < |ids| && messages[i] != [] ==> Carries(bs[i], messages[i], ids[i])
  }

  /** Any sequence of builds on a connection, failed ones included: each message carries the id its
      build drew, no id comes twice among 65535 builds, and on a new connection the k-th id is k. */
  method BuildAll(c: Connection, bs: seq<Build>) returns (messages: seq<seq<byte>>, ids: seq<nat>)
    requires c.Valid() && forall i :: 0 <= i < |bs| && bs[i].BuildAcknowledge? ==> bs[i].id < 65536
    modifies c, c.buffer
    ensures |ids| == |bs| && AllCarry(bs, messages, ids)
    ensures NoRepeat(ids) && forall i :: 0 <= i < |ids| ==> ids[i] < 65536
    ensures old(c.messageId) == 0 ==>
      forall i :: 0 <= i < |ids| && ids[i] != 0 && Draws(ids, i) < 65535 ==> ids[i] == Draws(ids, i) + 1
  {
    hide Carries, Drawn, Draws, InTurn;
    messages, ids := [], [];
    ghost var start := c.messageId;
    NoneDrawn(start);
    for i := 0 to |bs|
      invariant c.Valid() && c.buffer == old(c.buffer)
      invariant |ids| == i && AllCarry(bs, messages, ids)
      invariant InTurn(start, ids) && c.messageId == Drawn(start, Draws(ids, i))
      invariant forall k :: 0 <= k < |ids| ==> ids[k] < 65536
    {
      ghost var k := Draws(ids, i);
      DrawnNext(start, k);
      var message, id := BuildOne(c, bs[i]);
      OneMore(start, ids, id);
      messages, ids := messages + [message], ids + [id];
    }
    forall i, j | 0 <= i < j < |ids| && j - i < 65535 && ids[i] != 0 ensures ids[i] != ids[j] {
      if ids[j] != 0 { Distinct(start, ids, i, j); }
    }
    forall i | start == 0 && 0 <= i < |ids| && ids[i] != 0 && Draws(ids, i) < 65535
      ensures ids[i] == Draws(ids, i) + 1
    {
      Counted(start, ids, i);
    }
  }

  lemma NoneDrawn(start: nat)
    ensures InTurn(start, []) && Draws([], 0) == 0 && Drawn(start, 0) == start
  {
  }

  lemma DrawnNext(start: nat, k: nat)
    ensures Drawn(start, k + 1) == NextId(Drawn(start, k))
  {
  }

  /** One build, its message (empty if it failed) and the id it drew, if any. */
  method BuildOne(c: Connection, b: Build) returns (message: seq<byte>, id: nat)
    requires c.Valid() && (b.BuildAcknowledge? ==> b.id < 65536)
    modifies c, c.buffer
    ensures c.Valid() && c.buffer == old(c.buffer) && c.messageId == if id != 0 then id else old(c.messageId)
    ensures id != 0 ==> id == NextId(old(c.messageId)) < 65536
    ensures message != [] ==> Carries(b, message, id)
  {
    hide Packet, EncodePublish, TwoBytes;
    var was := c.messageId;
    match b {
      case BuildPublish(topic, data, qos, retain) => var i := c.Publish(topic, data, qos, retain);
      case BuildSubscribe(topic, qos) => var i := c.Subscribe(topic, qos);
      case BuildUnsubscribe(topic) => var i := c.Unsubscribe(topic);
      case BuildAcknowledge(typ, qos, given) => c.Acknowledge(typ, qos, given);
      case BuildPing(typ) => c.Ping(typ);
    }
    id := if c.messageId != was then c.messageId else 0;
    message := c.buffer[c.start..c.start + c.length];
  }
}
