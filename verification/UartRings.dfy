/** The block-copying rings of the UART driver, receive and transmit. */
module UartRings {
  import opened Bytes
  import opened RingView

  const UART_BUFFER_SIZE: nat := 256
  const UART_FIFO_LEN: nat := 128

  /** A ring's two positions are equal when it is empty, and otherwise only when it is full. */
  lemma EqualPositions(size: nat, outPos: nat, count: nat)
    requires outPos < size && count <= size
    ensures Wrap(outPos + count, size) == outPos <==> count == 0 || count == size
  {
  }

  /** Copying a block into the free cells behind a view appends it. */
  lemma ViewAppend(d: seq<byte>, size: nat, start: nat, count: nat, data: seq<byte>)
    requires InRing(d, size, start, count) && count + |data| <= size
    requires Wrap(start + count, size) + |data| <= size
    ensures var at := Wrap(start + count, size);
            var e := d[..at] + data + d[at + |data|..];
            View(e, size, start, count + |data|) == View(d, size, start, count) + data
  {
    var at := Wrap(start + count, size);
    var e := d[..at] + data + d[at + |data|..];
    var v := View(e, size, start, count + |data|);
    forall k | 0 <= k < count ensures v[k] == View(d, size, start, count)[k] {
      var p := Wrap(start + k, size);
      assert p < at || p >= at + |data|;
      assert e[p] == d[p];
    }
    forall k | 0 <= k < |data| ensures v[count + k] == data[k] {
      assert Wrap(start + (count + k), size) == at + k;
    }
  }

  /** Moving the start `n` cells on drops the `n` oldest bytes. */
  lemma ViewDrop(d: seq<byte>, size: nat, start: nat, count: nat, n: nat)
    requires InRing(d, size, start, count) && n <= count
    ensures View(d, size, Wrap(start + n, size), count - n) == View(d, size, start, count)[n..]
  {
    var v := View(d, size, Wrap(start + n, size), count - n);
    forall k | 0 <= k < count - n ensures v[k] == View(d, size, start, count)[n + k] {
      assert Wrap(Wrap(start + n, size) + k, size) == Wrap(start + (n + k), size);
    }
  }

  lemma ViewAt(d: seq<byte>, size: nat, start: nat, count: nat, k: nat)
    requires InRing(d, size, start, count) && k < count
    ensures View(d, size, start, count)[k] == d[Wrap(start + k, size)]
  {
  }

  /** The oldest bytes of a view that does not wrap among them are a block. */
  lemma ViewBlock(d: seq<byte>, size: nat, start: nat, count: nat, n: nat)
    requires InRing(d, size, start, count) && n <= count && start + n <= size
    ensures View(d, size, start, count)[..n] == d[start..start + n]
  {
    forall k | 0 <= k < n ensures View(d, size, start, count)[k] == d[start + k] {
      assert Wrap(start + k, size) == start + k;
    }
  }

  class UartBuffer {
    const buff: array<byte>
    var inPos: nat
    var outPos: nat
    var space: nat

    /** Uart_Buf_Init. */
    constructor ()
      ensures Valid() && fresh(buff) && Contents() == []
    {
      buff := new byte[UART_BUFFER_SIZE];
      inPos, outPos, space := 0, 0, UART_BUFFER_SIZE;
    }

    ghost predicate Valid()
      reads this
    {
      && buff.Length == UART_BUFFER_SIZE && space <= UART_BUFFER_SIZE && outPos < UART_BUFFER_SIZE
      && inPos == Wrap(outPos + (UART_BUFFER_SIZE - space), UART_BUFFER_SIZE)
    }

    ghost function Contents(): (q: seq<byte>)
      reads this, buff
      requires Valid()
      ensures |q| == UART_BUFFER_SIZE - space
    {
      View(buff[..], UART_BUFFER_SIZE, outPos, UART_BUFFER_SIZE - space)
    }

    method Memcpy(at: nat, src: seq<byte>)
      requires at + |src| <= buff.Length
      modifies buff
      ensures buff[..] == old(buff[..at]) + src + old(buff[at + |src|..])
    {
      for i := 0 to |src|
        invariant buff[..] == old(buff[..at]) + src[..i] + old(buff[at + i..])
      {
        buff[at + i] := src[i];
      }
    }

    /** One block of Uart_Buf_Cpy: copy, advance, wrap, account. */
    method CopyBlock(data: seq<byte>)
      requires Valid() && |data| <= space && inPos + |data| <= UART_BUFFER_SIZE
      modifies this, buff
      ensures Valid() && outPos == old(outPos) && space == old(space) - |data|
      ensures Contents() == old(Contents()) + data
    {
      ghost var d, count := buff[..], UART_BUFFER_SIZE - space;
      Memcpy(inPos, data);
      ViewAppend(d, UART_BUFFER_SIZE, outPos, count, data);
      inPos := (inPos + |data|) % UART_BUFFER_SIZE;
      space := space - |data|;
    }

    /** Uart_Buf_Cpy. */
    method Copy(data: seq<byte>)
      requires Valid() && |data| <= space
      modifies this, buff
      ensures Valid() && outPos == old(outPos) && Contents() == old(Contents()) + data
    {
      if |data| == 0 {
        return;
      }
      var tail := UART_BUFFER_SIZE - inPos;
      if tail >= |data| {
        CopyBlock(data);
      } else {
        CopyBlock(data[..tail]);
        CopyBlock(data[tail..]);
        assert data == data[..tail] + data[tail..];
      }
    }

    /** tx_buff_enq on a buffer that exists: all of the data, or none. */
    method TxEnqueue(data: seq<byte>)
      requires Valid()
      modifies this, buff
      ensures Valid()
      ensures Contents() == if |data| <= old(space) then old(Contents()) + data else old(Contents())
    {
      if |data| <= space {
        Copy(data);
      }
    }

    /** tx_fifo_insert: the oldest bytes go to the hardware, one by one. */
    method FifoInsert(n: nat) returns (sent: seq<byte>)
      requires Valid() && n <= UART_BUFFER_SIZE - space
      modifies this
      ensures Valid() && sent == old(Contents())[..n] && Contents() == old(Contents())[n..]
      ensures space == old(space) + n
    {
      hide View;
      ghost var q, start, count := Contents(), outPos, UART_BUFFER_SIZE - space;
      ViewDrop(buff[..], UART_BUFFER_SIZE, start, count, n);
      sent := [];
      for i := 0 to n
        invariant outPos == Wrap(start + i, UART_BUFFER_SIZE) && sent == q[..i]
        invariant space == old(space) && inPos == old(inPos)
      {
        ViewAt(buff[..], UART_BUFFER_SIZE, start, count, i);
        sent := sent + [buff[outPos]];
        outPos := outPos + 1;
        if outPos == UART_BUFFER_SIZE {
          outPos := 0;
        }
      }
      outPos := outPos % UART_BUFFER_SIZE;
      space := space + n;
    }

    /** tx_start_uart_buffer, when the hardware queue already holds `waiting` bytes. */
    method TxStart(waiting: nat) returns (sent: seq<byte>)
      requires Valid() && waiting <= UART_FIFO_LEN
      modifies this
      ensures Valid() && waiting + |sent| <= UART_FIFO_LEN
      ensures old(Contents()) == sent + Contents()
      ensures Contents() == [] || waiting + |sent| == UART_FIFO_LEN
    {
      var remain := UART_FIFO_LEN - waiting;
      var len := UART_BUFFER_SIZE - space;
      if len > remain {
        len := remain;
      }
      sent := FifoInsert(len);
    }

    /** Uart_rx_buff_enq: the hardware's bytes are taken only if a cell stays free. */
    method RxEnqueue(fifo: seq<byte>)
      requires Valid() && space > 0
      modifies this, buff
      ensures Valid() && space > 0
      ensures Contents() == if |fifo| < old(space) then old(Contents()) + fifo else old(Contents())
    {
      if |fifo| < space {
        ghost var d, count := buff[..], UART_BUFFER_SIZE - space;
        for i := 0 to |fifo|
          invariant inPos == Wrap(outPos + (count + i), UART_BUFFER_SIZE)
          invariant outPos == old(outPos) && space == old(space)
          invariant View(buff[..], UART_BUFFER_SIZE, outPos, count + i) == old(Contents()) + fifo[..i]
        {
          ViewPut(buff[..], UART_BUFFER_SIZE, outPos, count + i, fifo[i]);
          buff[inPos] := fifo[i];
          inPos := inPos + 1;
          if inPos == UART_BUFFER_SIZE {
            inPos := 0;
          }
        }
        assert fifo[..|fifo|] == fifo;
        space := space - |fifo|;
      }
    }

    /** A block leaves the front of the ring. */
    method TakeBlock(n: nat) returns (data: seq<byte>)
      requires Valid() && n <= UART_BUFFER_SIZE - space && outPos + n <= UART_BUFFER_SIZE
      modifies this
      ensures Valid() && inPos == old(inPos) && space == old(space) + n
      ensures data == old(Contents())[..n] && Contents() == old(Contents())[n..]
    {
      ViewBlock(buff[..], UART_BUFFER_SIZE, outPos, UART_BUFFER_SIZE - space, n);
      ViewDrop(buff[..], UART_BUFFER_SIZE, outPos, UART_BUFFER_SIZE - space, n);
      data := buff[outPos..outPos + n];
      outPos := (outPos + n) % UART_BUFFER_SIZE;
      space := space + n;
    }

    /** The same without the wrap of the position, for a ring whose bytes lie in one piece. */
    method TakeStraight(n: nat) returns (data: seq<byte>)
      requires Valid() && space > 0 && outPos <= inPos && n <= UART_BUFFER_SIZE - space
      modifies this
      ensures Valid() && inPos == old(inPos) && space == old(space) + n
      ensures data == old(Contents())[..n] && Contents() == old(Contents())[n..]
    {
      EqualPositions(UART_BUFFER_SIZE, outPos, UART_BUFFER_SIZE - space);
      ViewBlock(buff[..], UART_BUFFER_SIZE, outPos, UART_BUFFER_SIZE - space, n);
      ViewDrop(buff[..], UART_BUFFER_SIZE, outPos, UART_BUFFER_SIZE - space, n);
      data := buff[outPos..outPos + n];
      outPos := outPos + n;
      space := space + n;
    }

    /** rx_buff_deq: its first branch does not wrap, and need not, for the ring is never full. */
    method RxDequeue(n: nat) returns (data: seq<byte>)
      requires Valid() && space > 0
      modifies this
      ensures Valid() && space > 0
      ensures |data| == (if n > |old(Contents())| then |old(Contents())| else n)
      ensures old(Contents()) == data + Contents()
    {
      hide View;
      var len := UART_BUFFER_SIZE - space;
      var tail := UART_BUFFER_SIZE - outPos;
      if n <= len {
        len := n;
      }
      if outPos <= inPos {
        data := TakeStraight(len);
      } else if len > tail {
        data := TakeBlock(tail);
        var more := TakeBlock(len - tail);
        data := data + more;
      } else {
        data := TakeBlock(len);
      }
    }
  }

  // Runs of the receive ring

  datatype RxOp = Arrive(fifo: seq<byte>) | Fetch(n: nat)

  /** What is in the ring, what the program has fetched and what the ring has taken in. */
  datatype Rx = Rx(ring: seq<byte>, fetched: seq<byte>, accepted: seq<byte>)

  function RxStep(r: Rx, op: RxOp): Rx {
    match op
    case Arrive(fifo) =>
      if |fifo| + |r.ring| < UART_BUFFER_SIZE then Rx(r.ring + fifo, r.fetched, r.accepted + fifo) else r
    case Fetch(n) =>
      var k := if n > |r.ring| then |r.ring| else n;
      Rx(r.ring[k..], r.fetched + r.ring[..k], r.accepted)
  }

  function RxRun(r: Rx, ops: seq<RxOp>): Rx
    decreases |ops|
  {
    if ops == [] then r else RxRun(RxStep(r, ops[0]), ops[1..])
  }

  /** Handing over the first bytes of the ring keeps the stream. */
  lemma Handed(out: seq<byte>, ring: seq<byte>, k: nat)
    requires k <= |ring|
    ensures out + ring[..k] + ring[k..] == out + ring
  {
    assert ring == ring[..k] + ring[k..];
  }

  lemma RxStepKeeps(r: Rx, op: RxOp)
    requires |r.ring| < UART_BUFFER_SIZE && r.fetched + r.ring == r.accepted
    ensures var s := RxStep(r, op); |s.ring| < UART_BUFFER_SIZE && s.fetched + s.ring == s.accepted
  {
    if op.Fetch? {
      Handed(r.fetched, r.ring, if op.n > |r.ring| then |r.ring| else op.n);
    }
  }

  /** Over every run the receive ring keeps a free cell, and the program gets the accepted
      bytes in order. */
  lemma {:induction false} RxRunKeeps(r: Rx, ops: seq<RxOp>)
    requires |r.ring| < UART_BUFFER_SIZE && r.fetched + r.ring == r.accepted
    ensures var e := RxRun(r, ops); |e.ring| < UART_BUFFER_SIZE && e.fetched + e.ring == e.accepted
    decreases |ops|
  {
    if ops != [] {
      RxStepKeeps(r, ops[0]);
      RxRunKeeps(RxStep(r, ops[0]), ops[1..]);
    }
  }

  /** What a step moves, in numbers: an arrival is taken up to 255 bytes in all, or not at all; a fetch
      gives what it asks for or all there is. */
  lemma RxMoves(r: Rx, fifo: seq<byte>, n: nat)
    ensures RxStep(r, Arrive(fifo)).accepted == r.accepted + if |r.ring| + |fifo| <= 255 then fifo else []
    ensures |RxStep(r, Fetch(n)).fetched| - |r.fetched| <= n
    ensures RxStep(r, Fetch(n)).ring != [] ==> |RxStep(r, Fetch(n)).fetched| - |r.fetched| == n
  {
    assert r.accepted + [] == r.accepted;
  }

  /** The receive ring of the driver runs as that model does. */
  method ServeRx(b: UartBuffer, ops: seq<RxOp>) returns (fetched: seq<byte>)
    requires b.Valid() && b.space > 0
    modifies b, b.buff
    ensures b.Valid() && b.space > 0
    ensures b.Contents() == RxRun(Rx(old(b.Contents()), [], old(b.Contents())), ops).ring
    ensures fetched == RxRun(Rx(old(b.Contents()), [], old(b.Contents())), ops).fetched
  {
    fetched := [];
    ghost var r := Rx(b.Contents(), [], b.Contents());
    ghost var goal := RxRun(r, ops);
    for i := 0 to |ops|
      invariant b.Valid() && b.space > 0 && b.Contents() == r.ring && fetched == r.fetched
      invariant RxRun(r, ops[i..]) == goal
    {
      assert ops[i..][1..] == ops[i + 1..];
      match ops[i] {
        case Arrive(fifo) => b.RxEnqueue(fifo);
        case Fetch(n) =>
          var data := b.RxDequeue(n);
          fetched := fetched + data;
          assert r.ring[..|data|] == data && r.ring[|data|..] == b.Contents();
      }
      r := RxStep(r, ops[i]);
    }
  }

  // Runs of the transmit ring

  datatype TxOp = Queue(data: seq<byte>) | Feed(waiting: nat)

  /** What is in the ring, what the hardware got and what the ring has taken in. */
  datatype Tx = Tx(ring: seq<byte>, sent: seq<byte>, accepted: seq<byte>)

  function TxStep(t: Tx, op: TxOp): Tx {
    match op
    case Queue(data) =>
      if |data| + |t.ring| <= UART_BUFFER_SIZE then Tx(t.ring + data, t.sent, t.accepted + data) else t
    case Feed(waiting) =>
      var remain := if waiting < UART_FIFO_LEN then UART_FIFO_LEN - waiting else 0;
      var k := if |t.ring| > remain then remain else |t.ring|;
      Tx(t.ring[k..], t.sent + t.ring[..k], t.accepted)
  }

  function TxRun(t: Tx, ops: seq<TxOp>): Tx
    decreases |ops|
  {
    if ops == [] then t else TxRun(TxStep(t, ops[0]), ops[1..])
  }

  lemma TxStepKeeps(t: Tx, op: TxOp)
    requires |t.ring| <= UART_BUFFER_SIZE && t.sent + t.ring == t.accepted
    ensures var s := TxStep(t, op); |s.ring| <= UART_BUFFER_SIZE && s.sent + s.ring == s.accepted
  {
    match op
    case Queue(data) =>
      assert t.sent + (t.ring + data) == t.sent + t.ring + data;
    case Feed(waiting) =>
      Handed(t.sent, t.ring, |t.ring| - |TxStep(t, op).ring|);
  }

  /** Over every run the transmit ring, which may fill up completely, sends the accepted bytes in
      order. */
  lemma {:induction false} TxRunKeeps(t: Tx, ops: seq<TxOp>)
    requires |t.ring| <= UART_BUFFER_SIZE && t.sent + t.ring == t.accepted
    ensures var e := TxRun(t, ops); |e.ring| <= UART_BUFFER_SIZE && e.sent + e.ring == e.accepted
    decreases |ops|
  {
    if ops != [] {
      TxStepKeeps(t, ops[0]);
      TxRunKeeps(TxStep(t, ops[0]), ops[1..]);
    }
  }

  /** The ring does fill up: 256 bytes put into an empty one leave no space, and it holds them. */
  lemma TxFills(data: seq<byte>)
    requires |data| == 256
    ensures TxRun(Tx([], [], []), [Queue(data)]) == Tx(data, [], data)
  {
    var ops := [Queue(data)];
    assert ops[1..] == [] && [] + data == data;
  }

  /** What a step moves, in numbers: data is queued up to 256 bytes in all, or not at all; the hardware
      is filled up to 128 bytes as long as there is anything to fill it with. */
  lemma TxMoves(t: Tx, data: seq<byte>, waiting: nat)
    requires waiting <= 128
    ensures TxStep(t, Queue(data)).accepted == t.accepted + if |t.ring| + |data| <= 256 then data else []
    ensures var k := |TxStep(t, Feed(waiting)).sent| - |t.sent|;
      && waiting + k <= 128 && (waiting + k == 128 || TxStep(t, Feed(waiting)).ring == [])
  {
    assert t.accepted + [] == t.accepted;
  }

  /** The transmit ring of the driver runs as that model does, its count of free cells included. */
  method ServeTx(b: UartBuffer, ops: seq<TxOp>) returns (sent: seq<byte>)
    requires b.Valid() && forall i :: 0 <= i < |ops| && ops[i].Feed? ==> ops[i].waiting <= UART_FIFO_LEN
    modifies b, b.buff
    ensures b.Valid()
    ensures b.Contents() == TxRun(Tx(old(b.Contents()), [], old(b.Contents())), ops).ring
    ensures sent == TxRun(Tx(old(b.Contents()), [], old(b.Contents())), ops).sent
    ensures b.space == UART_BUFFER_SIZE - |b.Contents()|
  {
    sent := [];
    ghost var t := Tx(b.Contents(), [], b.Contents());
    ghost var goal := TxRun(t, ops);
    for i := 0 to |ops|
      invariant b.Valid() && b.Contents() == t.ring && sent == t.sent
      invariant TxRun(t, ops[i..]) == goal
    {
      assert ops[i..][1..] == ops[i + 1..];
      match ops[i] {
        case Queue(data) => b.TxEnqueue(data);
        case Feed(waiting) =>
          var out := b.TxStart(waiting);
          sent := sent + out;
          assert t.ring[..|out|] == out && t.ring[|out|..] == b.Contents();
      }
      t := TxStep(t, ops[i]);
    }
  }

  /** The call that creates the transmit ring, for data that fits it. */
  method TxCreate(data: seq<byte>) returns (b: UartBuffer)
    requires |data| <= UART_BUFFER_SIZE
    ensures b.Valid() && fresh(b) && fresh(b.buff) && b.Contents() == data
  {
    b := new UartBuffer();
    b.Copy(data);
    assert [] + data == data;
  }
}
