/**
 * The SDIO slave's outbound buffers as a protocol between the loader, which runs in the main
 * loop, and the interrupt that reports that the host has read a buffer. The loader disables
 * that interrupt only around its list updates; every stretch where it is enabled is a window
 * in which any number of read-done interrupts may come.
 */
module SdioProtocol {
  import opened Bytes

  const RX_BUFFER_SIZE: nat := 2048
  const RX_BUFFER_NUM: nat := 5

  /**
   * `toSend` and `sended` are the two lists of buffers, by their contents; `started` is true
   * while the host has been offered the front of `toSend` and has not read it yet.
   * `delivered` is what the host has read and `accepted` what callers were told was taken.
   */
  datatype Slave = Slave(toSend: seq<seq<byte>>, sended: seq<seq<byte>>,
                         hasRead: bool, started: bool,
                         delivered: seq<byte>, accepted: seq<byte>)

  function Flat(bs: seq<seq<byte>>): seq<byte> {
    if bs == [] then [] else bs[0] + Flat(bs[1..])
  }

  function Front(bs: seq<seq<byte>>): seq<byte> {
    if bs == [] then [] else bs[0]
  }

  /** Buffers waiting for the host: only the first can be less than full. */
  ghost predicate Queued(bs: seq<seq<byte>>) {
    && |Front(bs)| <= RX_BUFFER_SIZE
    && forall i :: 1 <= i < |bs| ==> |bs[i]| == RX_BUFFER_SIZE
  }

  /** Buffers to be filled: none is full, and only the first can hold anything. */
  ghost predicate Free(bs: seq<seq<byte>>) {
    && |Front(bs)| < RX_BUFFER_SIZE
    && forall i :: 1 <= i < |bs| ==> bs[i] == []
  }

  /**
   * What holds at every point where an interrupt can come; `hand` is the buffer the loader has
   * taken off `sended`, if any. No buffer is lost or doubled, only the buffer in hand or the
   * front of `sended` is partly filled, and the bytes accepted are those delivered, then those
   * queued, then those in the partly filled buffer, in that order.
   */
  ghost predicate Inv(s: Slave, hand: seq<seq<byte>>) {
    && Sound(s, hand)
    && (s.hasRead <==> s.toSend == [])
    && (s.started ==> Front(s.toSend) != [])
  }

  ghost predicate Sound(s: Slave, hand: seq<seq<byte>>) {
    && |hand| <= 1
    && |s.toSend| + |s.sended| + |hand| == RX_BUFFER_NUM
    && Queued(s.toSend)
    && Free(hand + s.sended)
    && s.accepted == s.delivered + Flat(s.toSend) + Front(hand + s.sended)
  }

  /** Between calls: nothing in hand, and an idle slave has no accepted byte waiting. */
  ghost predicate Rest(s: Slave) {
    Inv(s, []) && (s.toSend == [] ==> Front(s.sended) == [])
  }

  /** Whatever is queued has been offered to the host. */
  predicate Live(s: Slave) {
    s.toSend != [] ==> s.started
  }

  const Initial: Slave := Slave([], [[], [], [], [], []], true, false, [], [])

  /** Offers the front buffer to the host; an empty one starts no transfer. */
  function Offer(s: Slave): Slave
    requires s.toSend != []
  {
    s.(started := s.started || s.toSend[0] != [], hasRead := false)
  }

  function TryToLoad(s: Slave): Slave {
    if s.hasRead && s.toSend != [] then Offer(s) else s
  }

  function Recycle(s: Slave): Slave
    requires s.toSend != []
  {
    s.(toSend := s.toSend[1..], sended := s.sended + [[]], hasRead := true,
       started := false, delivered := s.delivered + s.toSend[0])
  }

  /** The read-done interrupt: recycle the front buffer, then offer the next one, or else the
      partly filled buffer at the front of `sended`. */
  function ReadDone(s: Slave): (r: Slave)
    requires s.toSend != []
    ensures r.started ==> r.toSend != []
  {
    var t := Recycle(s);
    if t.toSend != [] then Offer(t)
    else if t.sended[0] != [] then Offer(t.(toSend := [t.sended[0]], sended := t.sended[1..]))
    else t
  }

  lemma FreeAppend(bs: seq<seq<byte>>)
    requires Free(bs)
    ensures Free(bs + [[]]) && Front(bs + [[]]) == Front(bs)
  {
  }

  lemma FreeTail(bs: seq<seq<byte>>)
    requires Free(bs) && bs != []
    ensures Free(bs[1..]) && Front(bs[1..]) == []
  {
  }

  lemma FrontHasRoom(bs: seq<seq<byte>>)
    requires Free(bs) && bs != []
    ensures |bs[0]| < RX_BUFFER_SIZE
  {
  }

  lemma FreePut(b: seq<byte>, bs: seq<seq<byte>>)
    requires Free(bs) && Front(bs) == [] && |b| < RX_BUFFER_SIZE
    ensures Free([b] + bs)
  {
  }

  /** Nothing lies in the free list while the loader holds its front. */
  lemma FreeInHand(hand: seq<seq<byte>>, bs: seq<seq<byte>>)
    requires Free(hand + bs) && |hand| <= 1
    ensures hand == [] ==> hand + bs == bs
    ensures hand != [] ==> hand + bs == [hand[0]] + bs && Free(bs) && Front(bs) == []
  {
    if hand != [] {
      FreeTail(hand + bs);
      assert (hand + bs)[1..] == bs;
    }
  }

  lemma QueuedTail(bs: seq<seq<byte>>)
    requires Queued(bs) && bs != []
    ensures Queued(bs[1..]) && Flat(bs) == bs[0] + Flat(bs[1..])
    ensures bs[1..] != [] ==> Front(bs[1..]) != []
    ensures bs[1..] == [] ==> Flat(bs[1..]) == []
  {
  }

  lemma QueuedAppend(bs: seq<seq<byte>>, b: seq<byte>)
    requires Queued(bs) && |b| == RX_BUFFER_SIZE
    ensures Queued(bs + [b]) && (bs != [] ==> Front(bs + [b]) == Front(bs))
  {
  }

  lemma QueuedOne(b: seq<byte>)
    requires |b| <= RX_BUFFER_SIZE
    ensures Queued([b]) && Flat([b]) == b
  {
    assert [b][1..] == [];
  }

  lemma ReadDoneKeeps(s: Slave, hand: seq<seq<byte>>)
    requires Inv(s, hand) && s.started
    ensures Inv(ReadDone(s), hand) && Live(ReadDone(s))
    ensures ReadDone(s).accepted == s.accepted && s.delivered <= ReadDone(s).delivered
    ensures hand == [] ==> Rest(ReadDone(s))
    ensures s.sended != [] ==> ReadDone(s).sended != []
    ensures hand != [] ==> |ReadDone(s).sended| == |s.sended| + 1
  {
    hide Free, Queued, Flat;
    RecycleKeeps(s, hand);
    var t := Recycle(s);
    if t.toSend == [] && t.sended[0] != [] {
      PromoteKeeps(t);
    }
  }

  lemma RecycleKeeps(s: Slave, hand: seq<seq<byte>>)
    requires Inv(s, hand) && s.started
    ensures var t := Recycle(s);
            && Sound(t, hand) && (t.toSend != [] ==> Front(t.toSend) != [])
            && (hand != [] ==> t.sended[0] == [])
            && (t.sended[0] != [] ==> |t.sended| >= 2)
  {
    hide Free, Queued, Flat;
    QueuedTail(s.toSend);
    FreeInHand(hand, s.sended);
    FreeAppend(hand + s.sended);
    var recycled := s.sended + [[]];
    assert hand + recycled == (hand + s.sended) + [[]];
    FreeInHand(hand, recycled);
    var first, rest, front := s.toSend[0], s.toSend[1..], Front(hand + s.sended);
    assert s.delivered + (first + Flat(rest)) + front == s.delivered + first + Flat(rest) + front;
  }

  /** Moving the partly filled front of `sended` to an empty queue. */
  lemma PromoteKeeps(t: Slave)
    requires Sound(t, []) && t.toSend == [] && t.sended != []
    ensures Sound(t.(toSend := [t.sended[0]], sended := t.sended[1..]), []) && Front(t.sended[1..]) == []
  {
    hide Free, Queued;
    assert [] + t.sended == t.sended && [] + t.sended[1..] == t.sended[1..];
    FrontHasRoom(t.sended);
    QueuedOne(t.sended[0]);
    FreeTail(t.sended);
  }

  /** Up to `k` read-done interrupts arrive, each only while a transfer is running. */
  function Window(s: Slave, k: nat): Slave
    requires s.started ==> s.toSend != []
    decreases k
  {
    if k == 0 || !s.started then s
    else Window(ReadDone(s), k - 1)
  }

  lemma {:induction false} WindowKeeps(s: Slave, hand: seq<seq<byte>>, k: nat)
    requires Inv(s, hand)
    ensures Inv(Window(s, k), hand)
    ensures Live(s) ==> Live(Window(s, k))
    ensures Window(s, k).accepted == s.accepted && s.delivered <= Window(s, k).delivered
    ensures hand == [] && Rest(s) ==> Rest(Window(s, k))
    ensures s.sended != [] ==> Window(s, k).sended != []
    ensures !s.started ==> Window(s, k) == s
    ensures s.started ==> s.toSend != []
    decreases k
  {
    if k > 0 && s.started {
      ReadDoneKeeps(s, hand);
      WindowKeeps(ReadDone(s), hand, k - 1);
    }
  }

  /** The last step of a call: an idle slave is given the front of `sended`, empty or not. */
  function Settle(s: Slave): Slave
    requires s.toSend == [] ==> s.sended != []
  {
    if s.toSend == [] then TryToLoad(s.(toSend := [s.sended[0]], sended := s.sended[1..])) else s
  }

  /** A filled buffer joins the queue; on an empty queue it is offered at once. */
  function Enqueue(s: Slave, b: seq<byte>): Slave {
    var t := s.(toSend := s.toSend + [b]);
    if s.toSend == [] then TryToLoad(t) else t
  }

  /** The number of interrupts the environment has in store for the next window. */
  function Next(busy: seq<nat>): nat {
    if busy == [] then 0 else busy[0]
  }

  function Later(busy: seq<nat>): seq<nat> {
    if busy == [] then [] else busy[1..]
  }

  datatype Loaded = Loaded(slave: Slave, count: nat)

  /** One round of the copying loop on the buffer `held`, taken off before the window. */
  function Take(s: Slave, data: seq<byte>, k: nat): (l: Loaded)
    requires Inv(s, []) && s.sended != [] && data != []
    ensures 0 < l.count <= |data|
  {
    var held := s.sended[0];
    var apart := s.(sended := s.sended[1..]);
    var t := Window(apart, k);
    var room := RX_BUFFER_SIZE - |held|;
    if |data| < room then
      Loaded(t.(sended := [held + data] + t.sended, accepted := t.accepted + data), |data|)
    else
      Loaded(Enqueue(t.(accepted := t.accepted + data[..room]), held + data[..room]), room)
  }

  lemma SettleKeeps(s: Slave)
    requires Inv(s, [])
    ensures var r := Settle(s);
            && Rest(r) && r.toSend != [] && r.accepted == s.accepted && r.delivered == s.delivered
            && (Live(s) && (s.toSend != [] || Front(s.sended) != []) ==> Live(r))
            && (Live(s) && !Live(r) ==> r.delivered == r.accepted)
  {
    hide Free, Queued;
    FreeInHand([], s.sended);
    if s.toSend == [] {
      FrontHasRoom(s.sended);
      QueuedOne(s.sended[0]);
      FreeTail(s.sended);
      assert [] + s.sended[1..] == s.sended[1..];
    }
  }

  /** Taking the front free buffer in hand moves no byte. */
  lemma TakeApart(s: Slave)
    requires Inv(s, []) && s.sended != []
    ensures Inv(s.(sended := s.sended[1..]), [s.sended[0]]) && (s.started ==> s.toSend != [])
  {
    hide Free, Queued, Flat;
    assert [s.sended[0]] + s.sended[1..] == s.sended == [] + s.sended;
  }

  lemma {:induction false} FlatAppend(bs: seq<seq<byte>>, b: seq<byte>)
    ensures Flat(bs + [b]) == Flat(bs) + b
  {
    if bs == [] {
      assert [b][1..] == [] && Flat([b]) == b;
    } else {
      assert (bs + [b])[1..] == bs[1..] + [b];
      FlatAppend(bs[1..], b);
    }
  }

  /** Putting the buffer in hand back, with `more` copied into it and room left. */
  lemma PutBack(t: Slave, held: seq<byte>, more: seq<byte>)
    requires Inv(t, [held]) && |held + more| < RX_BUFFER_SIZE
    ensures var r := t.(sended := [held + more] + t.sended, accepted := t.accepted + more);
            Inv(r, []) && Front(r.sended) == held + more
  {
    hide Free, Queued, Flat;
    FreeInHand([held], t.sended);
    FreePut(held + more, t.sended);
    var back := [held + more] + t.sended;
    assert [] + back == back;
    assert t.delivered + Flat(t.toSend) + held + more
        == t.delivered + Flat(t.toSend) + (held + more);
  }

  /** Queueing the buffer in hand, with `more` filling it up. */
  lemma EnqueueKeeps(t: Slave, held: seq<byte>, more: seq<byte>)
    requires Inv(t, [held]) && |held + more| == RX_BUFFER_SIZE
    ensures var r := Enqueue(t.(accepted := t.accepted + more), held + more);
            && Rest(r) && r.toSend != [] && r.delivered == t.delivered
            && r.accepted == t.accepted + more && (Live(t) ==> Live(r))
  {
    hide Free, Queued, Flat;
    var b := held + more;
    FlatAppend(t.toSend, b);
    QueuedAppend(t.toSend, b);
    FreeInHand([held], t.sended);
    assert [] + t.sended == t.sended;
    assert t.delivered + Flat(t.toSend) + held + more == t.delivered + (Flat(t.toSend) + b);
  }

  lemma TakeKeeps(s: Slave, data: seq<byte>, k: nat)
    requires Rest(s) && s.sended != [] && data != []
    ensures var l := Take(s, data, k);
            && Inv(l.slave, []) && (l.count < |data| ==> Rest(l.slave))
            && l.slave.accepted == s.accepted + data[..l.count]
            && s.delivered <= l.slave.delivered
            && (l.slave.toSend != [] || Front(l.slave.sended) != [])
            && (Live(s) ==> Live(l.slave))
  {
    hide Inv, Window, Enqueue;
    var held := s.sended[0];
    HeldHasRoom(s);
    var apart := s.(sended := s.sended[1..]);
    TakeApart(s);
    WindowKeeps(apart, [held], k);
    var t := Window(apart, k);
    var room := RX_BUFFER_SIZE - |held|;
    if |data| < room {
      PutBack(t, held, data);
      assert data[..|data|] == data;
    } else {
      EnqueueKeeps(t, held, data[..room]);
    }
  }

  lemma HeldHasRoom(s: Slave)
    requires Inv(s, []) && s.sended != []
    ensures |s.sended[0]| < RX_BUFFER_SIZE
  {
    assert ([] + s.sended)[0] == s.sended[0];
  }

  /** The copying loop; it breaks off when no free buffer is left. */
  function LoadLoop(s: Slave, data: seq<byte>, busy: seq<nat>): (l: Loaded)
    requires Inv(s, []) && (data != [] ==> Rest(s))
    ensures l.count <= |data| && (s.sended != [] && data != [] ==> l.count > 0)
    decreases |data|
  {
    if data == [] then Loaded(Settle(s), 0)
    else if s.sended == [] then WindowKeeps(s, [], Next(busy)); Loaded(Settle(Window(s, Next(busy))), 0)
    else
      TakeKeeps(s, data, Next(busy));
      var l := Take(s, data, Next(busy));
      var m := LoadLoop(l.slave, data[l.count..], Later(busy));
      Loaded(m.slave, l.count + m.count)
  }

  /**
   * A call that offers `data`, under interleaving: `busy` gives the number of read-done
   * interrupts that come in each of its windows, in order (none beyond its end).
   */
  function Load(s: Slave, data: seq<byte>, busy: seq<nat>): (l: Loaded)
    requires Rest(s)
    ensures l.count <= |data| && (s.sended != [] && data != [] ==> l.count > 0)
  {
    if s.sended == [] then Loaded(s, 0)
    else
      WindowKeeps(s, [], Next(busy));
      LoadLoop(Window(s, Next(busy)), data, Later(busy))
  }

  lemma Resume(a: seq<byte>, data: seq<byte>, i: nat, j: nat)
    requires i + j <= |data|
    ensures a + data[..i] + data[i..][..j] == a + data[..i + j]
  {
    assert data[..i] + data[i..][..j] == data[..i + j];
  }

  /** What a caller gets: the bytes counted are the ones accepted, in order, and never out of
      step with what the host reads. */
  lemma {:induction false} LoopKeeps(s: Slave, data: seq<byte>, busy: seq<nat>)
    requires Inv(s, []) && (data != [] ==> Rest(s))
    ensures var l := LoadLoop(s, data, busy);
            && Rest(l.slave) && l.slave.toSend != []
            && l.slave.accepted == s.accepted + data[..l.count]
            && s.delivered <= l.slave.delivered
    decreases |data|
  {
    hide Inv, Take, Settle, Window;
    if data == [] {
      SettleKeeps(s);
    } else if s.sended == [] {
      WindowKeeps(s, [], Next(busy));
      SettleKeeps(Window(s, Next(busy)));
    } else {
      TakeKeeps(s, data, Next(busy));
      var l := Take(s, data, Next(busy));
      var rest := data[l.count..];
      LoopKeeps(l.slave, rest, Later(busy));
      var m := LoadLoop(l.slave, rest, Later(busy));
      Resume(s.accepted, data, l.count, m.count);
    }
  }

  /** After the loop, a slave that was live has a transfer running, unless the host has read
      everything; and it always has one when the loop took the last byte of `data` and there
      was one. */
  lemma {:induction false} LoopLive(s: Slave, data: seq<byte>, busy: seq<nat>)
    requires Inv(s, []) && Live(s) && (data != [] ==> Rest(s))
    ensures var l := LoadLoop(s, data, busy);
            && (!Live(l.slave) ==> l.slave.delivered == l.slave.accepted)
            && (l.count == |data| && (data != [] || s.toSend != [] || Front(s.sended) != []) ==> Live(l.slave))
    decreases |data|
  {
    hide Inv, Take, Settle, Window;
    if data == [] {
      SettleKeeps(s);
    } else if s.sended == [] {
      WindowKeeps(s, [], Next(busy));
      SettleKeeps(Window(s, Next(busy)));
    } else {
      TakeKeeps(s, data, Next(busy));
      var l := Take(s, data, Next(busy));
      LoopLive(l.slave, data[l.count..], Later(busy));
    }
  }

  ghost predicate Atomic(busy: seq<nat>) {
    forall i :: 0 <= i < |busy| ==> busy[i] == 0
  }

  lemma {:induction false} LoopAtomic(s: Slave, data: seq<byte>, busy: seq<nat>)
    requires Inv(s, []) && Live(s) && (data != [] ==> Rest(s)) && Atomic(busy)
    requires data != [] || s.toSend != [] || Front(s.sended) != []
    ensures Live(LoadLoop(s, data, busy).slave)
    decreases |data|
  {
    if data == [] {
      SettleKeeps(s);
    } else if s.sended == [] {
      assert Window(s, Next(busy)) == s;
      assert Settle(s) == s;
    } else {
      TakeKeeps(s, data, Next(busy));
      LoopAtomic(Take(s, data, Next(busy)).slave, data[Take(s, data, Next(busy)).count..], Later(busy));
    }
  }

  /** Every call, under every interleaving, keeps the protocol's invariant and counts exactly
      the prefix of `data` that it queued. */
  lemma LoadKeeps(s: Slave, data: seq<byte>, busy: seq<nat>)
    requires Rest(s)
    ensures var l := Load(s, data, busy);
            && Rest(l.slave) && l.slave.toSend != []
            && l.slave.accepted == s.accepted + data[..l.count]
            && s.delivered <= l.slave.delivered
  {
    WindowKeeps(s, [], Next(busy));
    if s.sended != [] {
      LoopKeeps(Window(s, Next(busy)), data, Later(busy));
    }
  }

  lemma RunningOwes(s: Slave)
    requires Rest(s) && s.toSend != [] && Live(s)
    ensures s.delivered != s.accepted
  {
    assert s.accepted == s.delivered + Flat(s.toSend) + Front([] + s.sended);
    assert |Flat(s.toSend)| > 0;
  }

  /** A call on a live slave leaves a transfer running exactly when the host is owed a byte. */
  lemma LiveIffOwed(s: Slave, data: seq<byte>, busy: seq<nat>)
    requires Rest(s) && Live(s)
    ensures var r := Load(s, data, busy).slave; r.started <==> r.delivered != r.accepted
    ensures Load(s, data, busy).count == |data| > 0 ==> Load(s, data, busy).slave.started
  {
    LoadKeeps(s, data, busy);
    WindowKeeps(s, [], Next(busy));
    if s.sended != [] {
      LoopLive(Window(s, Next(busy)), data, Later(busy));
    }
    if Load(s, data, busy).slave.started {
      RunningOwes(Load(s, data, busy).slave);
    }
  }

  /** With no interrupt inside the call, progress holds exactly when the call offers a byte or
      the slave is already busy; an empty call on an idle slave stalls it. */
  lemma AtomicLiveIff(s: Slave, data: seq<byte>, busy: seq<nat>)
    requires Rest(s) && Live(s) && Atomic(busy)
    ensures Live(Load(s, data, busy).slave) <==> data != [] || !s.hasRead
  {
    assert Window(s, Next(busy)) == s;
    if s.sended != [] {
      if data != [] || !s.hasRead {
        LoopAtomic(s, data, Later(busy));
      } else {
        assert ([] + s.sended)[0] == s.sended[0] == [];
      }
    }
  }

  ghost predicate Stalled(s: Slave) {
    Inv(s, []) && s.toSend != [] && !s.started
  }

  lemma {:induction false} StalledLoop(s: Slave, data: seq<byte>, busy: seq<nat>)
    requires Stalled(s)
    ensures var r := LoadLoop(s, data, busy).slave; Stalled(r) && r.delivered == s.delivered
    decreases |data|
  {
    hide Inv;
    if data != [] && s.sended != [] {
      TakeKeeps(s, data, Next(busy));
      StalledTake(s, data, Next(busy));
      StalledLoop(Take(s, data, Next(busy)).slave, data[Take(s, data, Next(busy)).count..], Later(busy));
    }
  }

  lemma StalledTake(s: Slave, data: seq<byte>, k: nat)
    requires Stalled(s) && s.sended != [] && data != []
    ensures var r := Take(s, data, k).slave; Stalled(r) && r.delivered == s.delivered
  {
    TakeKeeps(s, data, k);
    TakeApart(s);
    WindowKeeps(s.(sended := s.sended[1..]), [s.sended[0]], k);
  }

  /** A stalled slave stays stalled: no call on it ever gets another byte to the host. */
  lemma StalledForGood(s: Slave, data: seq<byte>, busy: seq<nat>)
    requires Stalled(s)
    ensures var r := Load(s, data, busy).slave; Stalled(r) && r.delivered == s.delivered
  {
    if s.sended != [] {
      StalledLoop(s, data, Later(busy));
    }
  }

  lemma {:induction false} WindowDrains(s: Slave, k: nat)
    requires Inv(s, []) && Live(s) && Front(s.sended) == [] && k >= |s.toSend|
    ensures Window(s, k).toSend == []
    decreases k
  {
    if s.toSend != [] {
      ReadDoneKeeps(s, []);
      assert [] + s.sended == s.sended;
      WindowDrains(ReadDone(s), k - 1);
    }
  }

  /** The other way to stall: every buffer is full, the loop breaks off, and the interrupts it
      let in before the last step drain the whole queue. */
  lemma DrainedBreakStalls(s: Slave, data: seq<byte>, k: nat)
    requires Rest(s) && Live(s) && s.sended == [] && data != [] && k >= RX_BUFFER_NUM
    ensures Stalled(LoadLoop(s, data, [k]).slave)
  {
    WindowDrains(s, k);
    WindowKeeps(s, [], k);
    SettleKeeps(Window(s, k));
    assert ([] + Window(s, k).sended)[0] == [];
  }

  // Whether a call can stall a slave, told before it

  /** The bytes the free buffers have room for. */
  ghost function Room(s: Slave): int {
    |s.sended| * RX_BUFFER_SIZE - |Front(s.sended)|
  }

  lemma ReadDoneMakesRoom(s: Slave, hand: seq<seq<byte>>)
    requires Inv(s, hand) && s.started
    ensures Room(ReadDone(s)) >= Room(s)
  {
    hide Queued, Flat;
    FreeInHand(hand, s.sended);
  }

  lemma {:induction false} WindowMakesRoom(s: Slave, hand: seq<seq<byte>>, k: nat)
    requires Inv(s, hand)
    ensures (s.started ==> s.toSend != []) && Room(Window(s, k)) >= Room(s)
    decreases k
  {
    hide Room, Sound;
    if k > 0 && s.started {
      ReadDoneKeeps(s, hand);
      ReadDoneMakesRoom(s, hand);
      WindowMakesRoom(ReadDone(s), hand, k - 1);
    }
  }

  /** A round takes all of the data, or leaves room for the rest of it. */
  lemma TakeLeavesRoom(s: Slave, data: seq<byte>, k: nat)
    requires Rest(s) && s.sended != [] && data != [] && |data| <= Room(s)
    ensures var l := Take(s, data, k); |data| - l.count <= Room(l.slave)
  {
    hide Window, Sound, Queued, Flat;
    HeldHasRoom(s);
    TakeApart(s);
    var held, apart := s.sended[0], s.(sended := s.sended[1..]);
    WindowMakesRoom(apart, [held], k);
    FreeApart(s);
    if |data| < RX_BUFFER_SIZE - |held| {
      TakeKeeps(s, data, k);
      RoomInside(Take(s, data, k).slave);
    }
  }

  lemma FreeApart(s: Slave)
    requires Inv(s, []) && s.sended != []
    ensures Front(s.sended[1..]) == [] && Front(s.sended) == s.sended[0]
  {
    assert [] + s.sended == s.sended;
  }

  lemma RoomInside(s: Slave)
    requires Inv(s, [])
    ensures Room(s) >= 0
  {
    if s.sended != [] { HeldHasRoom(s); }
  }

  /** Data that has room is taken, whatever interrupts come. */
  lemma {:induction false} LoopTakesAll(s: Slave, data: seq<byte>, busy: seq<nat>)
    requires Inv(s, []) && (data != [] ==> Rest(s)) && |data| <= Room(s)
    ensures LoadLoop(s, data, busy).count == |data|
    decreases |data|
  {
    hide Inv, Take, Settle, Window;
    if data != [] && s.sended != [] {
      TakeKeeps(s, data, Next(busy));
      TakeLeavesRoom(s, data, Next(busy));
      var l := Take(s, data, Next(busy));
      LoopTakesAll(l.slave, data[l.count..], Later(busy));
    }
  }

  function Quiet(n: nat): (q: seq<nat>)
    ensures |q| == n
  {
    seq(n, _ => 0)
  }

  /** Data that has no room stalls the slave under some interrupts: none while the buffers are
      filled, and then as many as it takes to drain them. */
  lemma {:induction false} OverfullStalls(s: Slave, data: seq<byte>)
    requires Rest(s) && Live(s) && |data| > Room(s)
    ensures Stalled(LoadLoop(s, data, Quiet(|s.sended|) + [RX_BUFFER_NUM]).slave)
    decreases |s.sended|
  {
    hide Inv, LoadLoop;
    var busy := Quiet(|s.sended|) + [RX_BUFFER_NUM];
    RoomInside(s);
    if s.sended == [] {
      assert busy == [RX_BUFFER_NUM];
      DrainedBreakStalls(s, data, RX_BUFFER_NUM);
    } else {
      TakeKeeps(s, data, 0);
      FreeApart(s);
      HeldHasRoom(s);
      var l := Take(s, data, 0);
      assert Later(busy) == Quiet(|s.sended| - 1) + [RX_BUFFER_NUM] && Next(busy) == 0;
      QuietTake(s, data);
      OverfullStalls(l.slave, data[l.count..]);
      LoopStep(s, data, busy);
    }
  }

  /** Without interrupts a round fills the front buffer when there is data enough. */
  lemma QuietTake(s: Slave, data: seq<byte>)
    requires Rest(s) && s.sended != [] && |data| > Room(s)
    ensures var l := Take(s, data, 0);
            && l.slave.sended == s.sended[1..] && l.count < |data| && Room(l.slave) < |data| - l.count
  {
    hide Sound, Queued, Free, Flat;
    HeldHasRoom(s);
    FreeApart(s);
  }

  lemma LoopStep(s: Slave, data: seq<byte>, busy: seq<nat>)
    requires Rest(s) && data != [] && s.sended != []
    ensures var l := Take(s, data, Next(busy));
            && Inv(l.slave, []) && (l.count < |data| ==> Rest(l.slave))
            && LoadLoop(s, data, busy).slave == LoadLoop(l.slave, data[l.count..], Later(busy)).slave
  {
    hide Inv, Take, Settle, Window;
    TakeKeeps(s, data, Next(busy));
  }

  /** Interrupts enough drain the queue and the partly filled buffer behind it. */
  lemma {:induction false} WindowDrainsAll(s: Slave, k: nat)
    requires Rest(s) && Live(s) && k > |s.toSend|
    ensures Window(s, k).toSend == []
    decreases |s.toSend|
  {
    hide Sound;
    if s.toSend != [] {
      ReadDoneKeeps(s, []);
      var r := ReadDone(s);
      if |r.toSend| < |s.toSend| {
        WindowDrainsAll(r, k - 1);
      } else {
        PromotedFrontEmpty(s);
        WindowDrains(r, k - 1);
      }
    }
  }

  lemma PromotedFrontEmpty(s: Slave)
    requires Inv(s, []) && s.started && |ReadDone(s).toSend| >= |s.toSend|
    ensures |s.toSend| == 1 && |ReadDone(s).toSend| == 1 && Front(ReadDone(s).sended) == []
  {
    RecycleKeeps(s, []);
    PromoteKeeps(Recycle(s));
  }

  /** A call that offers nothing stalls the slave if the queue drains before its last step. */
  lemma EmptyCallStalls(s: Slave)
    requires Rest(s) && Live(s) && s.sended != []
    ensures !Live(Load(s, [], [RX_BUFFER_NUM + 1]).slave)
  {
    WindowKeeps(s, [], RX_BUFFER_NUM + 1);
    WindowDrainsAll(s, RX_BUFFER_NUM + 1);
    var t := Window(s, RX_BUFFER_NUM + 1);
    assert ([] + t.sended)[0] == t.sended[0] == [];
  }

  /** A call keeps the slave live under every interleaving. */
  ghost predicate NeverStalls(s: Slave, data: seq<byte>)
    requires Rest(s)
  {
    forall busy :: Live(Load(s, data, busy).slave)
  }

  /** It does if and only if there is no free buffer to begin with, or the call offers at least one
      byte and no more than the free buffers have room for. */
  lemma NeverStallsIff(s: Slave, data: seq<byte>)
    requires Rest(s) && Live(s)
    ensures NeverStalls(s, data) <==>
              s.sended == [] || 0 < |data| <= |s.sended| * RX_BUFFER_SIZE - |Front(s.sended)|
  {
    hide Inv, LoadLoop, Window, Settle;
    if s.sended == [] {
      assert NeverStalls(s, data);
    } else if data == [] {
      EmptyCallStalls(s);
    } else if |data| <= Room(s) {
      forall busy ensures Live(Load(s, data, busy).slave) {
        WindowKeeps(s, [], Next(busy));
        WindowMakesRoom(s, [], Next(busy));
        LoopTakesAll(Window(s, Next(busy)), data, Later(busy));
        LiveIffOwed(s, data, busy);
      }
    } else {
      var busy := [0] + (Quiet(|s.sended|) + [RX_BUFFER_NUM]);
      OverfullStalls(s, data);
      WindowKeeps(s, [], 0);
      QuietWindow(s);
      assert Later(busy) == Quiet(|s.sended|) + [RX_BUFFER_NUM];
      assert !Live(Load(s, data, busy).slave);
    }
  }

  lemma QuietWindow(s: Slave)
    requires s.started ==> s.toSend != []
    ensures Window(s, 0) == s
  {
  }

  datatype Step = LoadStep(data: seq<byte>, busy: seq<nat>) | Interrupt

  /** One step of a run; without a running transfer no interrupt comes. */
  function Apply(s: Slave, step: Step): Slave
    requires Rest(s)
  {
    match step
    case LoadStep(data, busy) => Load(s, data, busy).slave
    case Interrupt => Window(s, 1)
  }

  lemma ApplyKeeps(s: Slave, step: Step)
    requires Rest(s)
    ensures Rest(Apply(s, step))
  {
    match step
    case LoadStep(data, busy) => LoadKeeps(s, data, busy);
    case Interrupt => WindowKeeps(s, [], 1);
  }

  function Run(s: Slave, steps: seq<Step>): Slave
    requires Rest(s)
    decreases |steps|
  {
    if steps == [] then s
    else ApplyKeeps(s, steps[0]); Run(Apply(s, steps[0]), steps[1..])
  }

  /** Conservation and order over every run and every interleaving. */
  lemma {:induction false} RunKeeps(s: Slave, steps: seq<Step>)
    requires Rest(s)
    ensures Rest(Run(s, steps))
    decreases |steps|
  {
    if steps != [] {
      ApplyKeeps(s, steps[0]);
      RunKeeps(Apply(s, steps[0]), steps[1..]);
    }
  }

  ghost predicate AtomicRun(steps: seq<Step>) {
    forall i :: 0 <= i < |steps| && steps[i].LoadStep? ==> steps[i].data != [] && Atomic(steps[i].busy)
  }

  /** Progress over every run of atomic calls that offer at least one byte: `has_read` is true
      exactly when nothing is queued, then no accepted byte waits, and otherwise a transfer
      runs. */
  lemma {:induction false} RunLive(s: Slave, steps: seq<Step>)
    requires Rest(s) && Live(s) && AtomicRun(steps)
    ensures var r := Run(s, steps);
            && Rest(r) && (r.hasRead <==> r.toSend == []) && (r.started <==> !r.hasRead)
            && (r.hasRead ==> r.delivered == r.accepted)
    decreases |steps|
  {
    if steps == [] {
      assert [] + s.sended == s.sended;
    } else {
      ApplyKeeps(s, steps[0]);
      match steps[0] {
        case LoadStep(data, busy) => AtomicLiveIff(s, data, busy);
        case Interrupt => WindowKeeps(s, [], 1);
      }
      RunLive(Apply(s, steps[0]), steps[1..]);
    }
  }

  lemma InitialRests()
    ensures Rest(Initial) && Live(Initial)
  {
    assert [] + Initial.sended == Initial.sended;
  }
}
