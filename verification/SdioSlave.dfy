/**
 * The two linked lists of SDIO buffers, as the loader and the read-done interrupt change them.
 * The five nodes are numbered, a pointer to a node is its number, and NULL is -1.
 */
module SdioSlave {
  import opened Bytes
  import opened P = SdioProtocol

  const NULL := -1

  function Nth(ns: seq<int>, i: nat): int {
    if i < |ns| then ns[i] else NULL
  }

  /** Each node of the list points to the next, and the last to none. */
  ghost predicate Linked(ns: seq<int>, next: seq<int>) {
    forall i :: 0 <= i < |ns| ==> 0 <= ns[i] < |next| && next[ns[i]] == Nth(ns, i + 1)
  }

  ghost predicate NoDup(ns: seq<int>) {
    forall i, j :: 0 <= i < j < |ns| ==> ns[i] != ns[j]
  }

  ghost function Count(ns: seq<int>, n: int): nat {
    multiset(ns)[n]
  }

  /** Every node is in exactly one place: queued, in hand or free. */
  ghost predicate Placed(toSend: seq<int>, hand: seq<int>, sended: seq<int>) {
    forall n :: Count(toSend, n) + Count(hand, n) + Count(sended, n) == if 0 <= n < RX_BUFFER_NUM then 1 else 0
  }

  ghost predicate Lists(toSend: seq<int>, hand: seq<int>, sended: seq<int>, next: seq<int>) {
    && Linked(toSend, next) && Linked(sended, next) && |next| == RX_BUFFER_NUM
    && Placed(toSend, hand, sended)
  }

  lemma CountConcat(ms: seq<int>, ns: seq<int>, n: int)
    ensures Count(ms + ns, n) == Count(ms, n) + Count(ns, n)
  {
  }

  lemma CountFront(ns: seq<int>, n: int)
    requires ns != []
    ensures Count(ns, n) == Count([ns[0]], n) + Count(ns[1..], n)
  {
    assert ns == [ns[0]] + ns[1..];
  }

  lemma PlacedRecycle(toSend: seq<int>, hand: seq<int>, sended: seq<int>)
    requires Placed(toSend, hand, sended) && toSend != []
    ensures Placed(toSend[1..], hand, sended + [toSend[0]])
  {
    hide Count;
    forall n ensures Count(toSend[1..], n) + Count(hand, n) + Count(sended + [toSend[0]], n)
                  == if 0 <= n < RX_BUFFER_NUM then 1 else 0 {
      CountFront(toSend, n);
      CountConcat(sended, [toSend[0]], n);
    }
  }

  lemma PlacedTake(toSend: seq<int>, sended: seq<int>)
    requires Placed(toSend, [], sended) && sended != []
    ensures Placed(toSend, [sended[0]], sended[1..])
    ensures toSend == [] ==> Placed([sended[0]], [], sended[1..])
  {
    forall n ensures Count(toSend, n) + Count([sended[0]], n) + Count(sended[1..], n)
                  == if 0 <= n < RX_BUFFER_NUM then 1 else 0 {
      CountFront(sended, n);
    }
  }

  lemma PlacedPut(toSend: seq<int>, hand: seq<int>, sended: seq<int>)
    requires Placed(toSend, hand, sended)
    ensures Placed(toSend, [], hand + sended) && Placed(toSend + hand, [], sended)
  {
    forall n ensures Count(toSend, n) + Count([], n) + Count(hand + sended, n)
                  == if 0 <= n < RX_BUFFER_NUM then 1 else 0
             ensures Count(toSend + hand, n) + Count([], n) + Count(sended, n)
                  == if 0 <= n < RX_BUFFER_NUM then 1 else 0 {
      CountConcat(hand, sended, n);
      CountConcat(toSend, hand, n);
    }
  }

  lemma Distinct(ns: seq<int>, i: nat, j: nat)
    requires i < j < |ns| && Count(ns, ns[i]) <= 1
    ensures ns[i] != ns[j]
  {
    assert ns == ns[..i] + [ns[i]] + ns[i + 1..j] + [ns[j]] + ns[j + 1..];
  }

  lemma Unshared(toSend: seq<int>, hand: seq<int>, sended: seq<int>)
    requires Placed(toSend, hand, sended)
    ensures NoDup(toSend) && NoDup(sended)
    ensures forall n :: n in toSend ==> n !in hand && n !in sended && 0 <= n < RX_BUFFER_NUM
    ensures forall n :: n in hand ==> n !in toSend && n !in sended && 0 <= n < RX_BUFFER_NUM
    ensures forall n :: n in sended ==> n !in toSend && n !in hand && 0 <= n < RX_BUFFER_NUM
  {
    forall n ensures n in toSend ==> n !in hand && n !in sended && 0 <= n < RX_BUFFER_NUM
             ensures n in hand ==> n !in sended && 0 <= n < RX_BUFFER_NUM
             ensures n in sended ==> 0 <= n < RX_BUFFER_NUM
             ensures Count(toSend, n) <= 1 && Count(sended, n) <= 1 {
      assert Count(toSend, n) + Count(hand, n) + Count(sended, n) <= 1;
    }
    forall i, j | 0 <= i < j < |toSend| ensures toSend[i] != toSend[j] { Distinct(toSend, i, j); }
    forall i, j | 0 <= i < j < |sended| ensures sended[i] != sended[j] { Distinct(sended, i, j); }
  }

  /** A list all of whose nodes keep their links is still linked. */
  lemma LinkedSame(ns: seq<int>, was: seq<int>, now: seq<int>)
    requires Linked(ns, was) && |was| == |now|
    requires forall n :: n in ns && 0 <= n < |was| ==> now[n] == was[n]
    ensures Linked(ns, now)
  {
  }

  lemma LinkedRest(ns: seq<int>, was: seq<int>, now: seq<int>)
    requires Linked(ns, was) && ns != [] && NoDup(ns) && |was| == |now|
    requires forall n :: n in ns && 0 <= n < |was| && n != ns[0] ==> now[n] == was[n]
    ensures Linked(ns[1..], now) && 0 <= ns[0] < |was| && was[ns[0]] == Nth(ns[1..], 0)
  {
    var rest := ns[1..];
    forall i | 0 <= i < |rest| ensures 0 <= rest[i] < |now| && now[rest[i]] == Nth(rest, i + 1) {
      assert rest[i] == ns[i + 1] && ns[i + 1] in ns;
    }
  }

  /** Appending `n`, to which the old last node now points. */
  lemma LinkedAppend(ns: seq<int>, n: int, was: seq<int>, now: seq<int>)
    requires Linked(ns, was) && NoDup(ns) && |was| == |now| && 0 <= n < |now| && now[n] == NULL
    requires ns != [] ==> 0 <= ns[|ns| - 1] < |now| && now[ns[|ns| - 1]] == n
    requires forall m :: m in ns && 0 <= m < |was| && m != ns[|ns| - 1] ==> now[m] == was[m]
    ensures Linked(ns + [n], now)
  {
    var more := ns + [n];
    forall i | 0 <= i < |more| ensures 0 <= more[i] < |now| && now[more[i]] == Nth(more, i + 1) {
      if i + 1 < |ns| {
        assert more[i] == ns[i] && ns[i] in ns;
      }
    }
  }

  /** The links after `n` was made the last of the list `ns`. */
  ghost function Appended(ns: seq<int>, n: int, next: seq<int>): seq<int>
    requires 0 <= n < |next| && (ns != [] ==> 0 <= ns[|ns| - 1] < |next|)
  {
    (if ns != [] then next[ns[|ns| - 1] := n] else next)[n := NULL]
  }

  /** The interrupt's list surgery: the front of the queue becomes the last free buffer. */
  lemma RecycleLists(toSend: seq<int>, hand: seq<int>, sended: seq<int>, next: seq<int>)
    requires Lists(toSend, hand, sended, next) && toSend != []
    ensures 0 <= toSend[0] < |next| && (sended != [] ==> 0 <= sended[|sended| - 1] < |next|)
    ensures Lists(toSend[1..], hand, sended + [toSend[0]], Appended(sended, toSend[0], next))
    ensures next[toSend[0]] == Nth(toSend[1..], 0) && (sended != [] ==> sended[|sended| - 1] != toSend[0])
  {
    hide Placed, Linked, NoDup;
    var n := toSend[0];
    Unshared(toSend, hand, sended);
    PlacedRecycle(toSend, hand, sended);
    assert n in toSend;
    assert sended != [] ==> sended[|sended| - 1] in sended;
    var after := Appended(sended, n, next);
    LinkedRest(toSend, next, after);
    LinkedAppend(sended, n, next, after);
  }

  lemma TakeLists(toSend: seq<int>, sended: seq<int>, next: seq<int>)
    requires Lists(toSend, [], sended, next) && sended != []
    ensures Lists(toSend, [sended[0]], sended[1..], next)
    ensures 0 <= sended[0] < |next| && next[sended[0]] == Nth(sended[1..], 0)
  {
    hide Placed, Linked, NoDup;
    Unshared(toSend, [], sended);
    PlacedTake(toSend, sended);
    LinkedRest(sended, next, next);
  }

  lemma PutLists(toSend: seq<int>, n: int, sended: seq<int>, next: seq<int>)
    requires Lists(toSend, [n], sended, next)
    ensures 0 <= n < |next| && Lists(toSend, [], [n] + sended, next[n := Nth(sended, 0)])
  {
    hide Placed, NoDup;
    Unshared(toSend, [n], sended);
    PlacedPut(toSend, [n], sended);
    assert n in [n];
    var after := next[n := Nth(sended, 0)];
    LinkedSame(toSend, next, after);
    LinkedSame(sended, next, after);
    var more := [n] + sended;
    forall i | 0 <= i < |more| ensures 0 <= more[i] < |after| && after[more[i]] == Nth(more, i + 1) {
      assert i > 0 ==> more[i] == sended[i - 1];
    }
  }

  lemma EnqueueLists(toSend: seq<int>, n: int, sended: seq<int>, next: seq<int>)
    requires Lists(toSend, [n], sended, next)
    ensures 0 <= n < |next| && (toSend != [] ==> 0 <= toSend[|toSend| - 1] < |next|)
    ensures Lists(toSend + [n], [], sended, Appended(toSend, n, next))
  {
    hide Placed, Linked, NoDup;
    Unshared(toSend, [n], sended);
    PlacedPut(toSend, [n], sended);
    assert n in [n];
    assert toSend != [] ==> toSend[|toSend| - 1] in toSend;
    var after := Appended(toSend, n, next);
    LinkedSame(sended, next, after);
    LinkedAppend(toSend, n, next, after);
  }

  /** Moving the front free buffer to an empty queue. */
  lemma PromoteLists(sended: seq<int>, next: seq<int>)
    requires Lists([], [], sended, next) && sended != []
    ensures 0 <= sended[0] < |next| && next[sended[0]] == Nth(sended[1..], 0)
    ensures Lists([sended[0]], [], sended[1..], next[sended[0] := NULL])
  {
    hide Placed, NoDup;
    Unshared([], [], sended);
    PlacedTake([], sended);
    assert sended[0] in sended;
    LinkedRest(sended, next, next[sended[0] := NULL]);
  }

  /** What the nodes hold, and the contents of a list of them. */
  ghost function Held(buffer: seq<seq<byte>>, tail: seq<nat>, n: int): seq<byte> {
    if 0 <= n < |buffer| && n < |tail| && tail[n] <= |buffer[n]| then buffer[n][..tail[n]] else []
  }

  ghost function Contents(ns: seq<int>, buffer: seq<seq<byte>>, tail: seq<nat>): (c: seq<seq<byte>>)
    ensures |c| == |ns| && forall i :: 0 <= i < |ns| ==> c[i] == Held(buffer, tail, ns[i])
  {
    seq(|ns|, i requires 0 <= i < |ns| => Held(buffer, tail, ns[i]))
  }

  /** Changing one node leaves the contents of the lists without it alone. */
  lemma ContentsSame(ns: seq<int>, n: int, buffer: seq<seq<byte>>, tail: seq<nat>,
                     buffer': seq<seq<byte>>, tail': seq<nat>)
    requires n !in ns && |buffer| == |buffer'| && |tail| == |tail'|
    requires forall m :: 0 <= m < |buffer| && m != n ==> buffer'[m] == buffer[m]
    requires forall m :: 0 <= m < |tail| && m != n ==> tail'[m] == tail[m]
    ensures Contents(ns, buffer', tail') == Contents(ns, buffer, tail)
  {
    forall i | 0 <= i < |ns| ensures Held(buffer', tail', ns[i]) == Held(buffer, tail, ns[i]) {
      assert ns[i] in ns;
    }
  }

  lemma SizeOf(toSend: seq<int>, hand: seq<int>, sended: seq<int>, next: seq<int>)
    requires Lists(toSend, hand, sended, next)
    ensures |next| == RX_BUFFER_NUM && (sended != [] ==> sended[0] != NULL)
    ensures toSend != [] ==> toSend[0] != NULL
  {
  }

  lemma RecycleContents(toSend: seq<int>, hand: seq<int>, sended: seq<int>, next: seq<int>,
                        buffer: seq<seq<byte>>, tail: seq<nat>)
    requires Lists(toSend, hand, sended, next) && toSend != [] && |buffer| == |tail| == RX_BUFFER_NUM
    ensures 0 <= toSend[0] < |tail|
    ensures var tail' := tail[toSend[0] := 0];
            && Contents(hand, buffer, tail') == Contents(hand, buffer, tail)
            && Contents(toSend[1..], buffer, tail') == Contents(toSend, buffer, tail)[1..]
            && Contents(sended + [toSend[0]], buffer, tail') == Contents(sended, buffer, tail) + [[]]
  {
    hide Placed, Linked;
    Unshared(toSend, hand, sended);
    var n := toSend[0];
    assert n in toSend;
    var tail' := tail[n := 0];
    ContentsSame(hand, n, buffer, tail, buffer, tail');
    ContentsSame(sended, n, buffer, tail, buffer, tail');
    assert n !in toSend[1..];
    ContentsSame(toSend[1..], n, buffer, tail, buffer, tail');
  }

  lemma ContentsMoves(ms: seq<int>, ns: seq<int>, buffer: seq<seq<byte>>, tail: seq<nat>)
    ensures Contents(ms + ns, buffer, tail) == Contents(ms, buffer, tail) + Contents(ns, buffer, tail)
    ensures ms != [] ==> Contents(ms[1..], buffer, tail) == Contents(ms, buffer, tail)[1..]
    ensures ms != [] ==> Contents([ms[0]], buffer, tail) == [Contents(ms, buffer, tail)[0]]
  {
  }

  /** The buffer `b` with `data` copied to position `at`. */
  function Copied(b: seq<byte>, at: nat, data: seq<byte>): (c: seq<byte>)
    requires at + |data| <= |b|
    ensures |c| == |b| && c[..at + |data|] == b[..at] + data
  {
    b[..at] + data + b[at + |data|..]
  }

  /** Copying into the node in hand changes what it holds and nothing on the lists. */
  lemma CopyContents(toSend: seq<int>, n: int, sended: seq<int>, next: seq<int>,
                     buffer: seq<seq<byte>>, tail: seq<nat>, data: seq<byte>)
    requires Lists(toSend, [n], sended, next) && |buffer| == |tail| == RX_BUFFER_NUM
    ensures 0 <= n < RX_BUFFER_NUM && n !in toSend
    ensures tail[n] + |data| <= |buffer[n]| ==>
              var buffer', tail' := buffer[n := Copied(buffer[n], tail[n], data)], tail[n := tail[n] + |data|];
              && Contents(toSend, buffer', tail') == Contents(toSend, buffer, tail)
              && Contents(sended, buffer', tail') == Contents(sended, buffer, tail)
              && Contents([n], buffer', tail') == [Held(buffer, tail, n) + data]
  {
    hide Placed, Linked;
    Unshared(toSend, [n], sended);
    assert n in [n];
    if tail[n] + |data| <= |buffer[n]| {
      var buffer', tail' := buffer[n := Copied(buffer[n], tail[n], data)], tail[n := tail[n] + |data|];
      ContentsSame(toSend, n, buffer, tail, buffer', tail');
      ContentsSame(sended, n, buffer, tail, buffer', tail');
    }
  }

  lemma StartPlaced()
    ensures Placed([], [], [0, 1, 2, 3, 4])
  {
    forall n ensures Count([], n) + Count([], n) + Count([0, 1, 2, 3, 4], n)
                  == if 0 <= n < RX_BUFFER_NUM then 1 else 0 {
    }
  }

  lemma StartLists()
    ensures Lists([], [], [0, 1, 2, 3, 4], [1, 2, 3, 4, NULL])
  {
    StartPlaced();
  }

  lemma StartContents(buffer: seq<seq<byte>>)
    ensures Contents([], buffer, [0, 0, 0, 0, 0]) == []
    ensures |buffer| == RX_BUFFER_NUM ==>
              Contents([0, 1, 2, 3, 4], buffer, [0, 0, 0, 0, 0]) == [[], [], [], [], []]
  {
  }

  class SdioSlave {
    // The five nodes: their link, how far they are filled, and their bytes.
    var next: seq<int>
    var tail: seq<nat>
    var buffer: seq<seq<byte>>
    var pHeadToSend: int
    var pTailToSend: int
    var pHeadSended: int
    var pTailSended: int
    var hasRead: bool
    // The descriptor the hardware reads from, and whether it has been started.
    var rxBuf: int
    var rxLen: nat
    var started: bool
    // What the host has read so far.
    var delivered: seq<byte>
    ghost var toSend: seq<int>
    ghost var hand: seq<int>
    ghost var sended: seq<int>
    ghost var view: Slave

    /** sdio_slave_init: five empty nodes, chained on the free list; `memory` is what malloc
        happened to return. */
    constructor (memory: seq<seq<byte>>)
      requires |memory| == RX_BUFFER_NUM
      requires forall n :: 0 <= n < |memory| ==> |memory[n]| == RX_BUFFER_SIZE
      ensures Valid() && hand == [] && view == Initial
    {
      hide Valid;
      buffer := memory;
      hasRead := true;
      pHeadToSend := NULL;
      pTailToSend := NULL;
      pHeadSended := NULL;
      next := [NULL, NULL, NULL, NULL, NULL];
      tail := [0, 0, 0, 0, 0];
      started := false;
      rxLen := 0;
      delivered := [];
      toSend, hand, sended, view := [], [], [0, 1, 2, 3, 4], Initial;
      rxBuf := NULL;
      new;
      Chain();
      rxBuf := pHeadSended;
      StartValid();
    }

    lemma StartValid()
      requires next == [1, 2, 3, 4, NULL] && tail == [0, 0, 0, 0, 0] && |buffer| == RX_BUFFER_NUM
      requires forall n :: 0 <= n < |buffer| ==> |buffer[n]| == RX_BUFFER_SIZE
      requires toSend == [] && hand == [] && sended == [0, 1, 2, 3, 4] && view == Initial
      requires pHeadToSend == NULL && pHeadSended == 0 && pTailSended == 4
      requires hasRead && !started && delivered == []
      ensures Valid()
    {
      hide Lists, Contents, Inv;
      StartLists();
      StartContents(buffer);
      InitialRests();
      assert Contents(hand, buffer, tail) == [];
    }

    /** The loop that links the new nodes. */
    method Chain()
      requires |next| == RX_BUFFER_NUM && tail == [0, 0, 0, 0, 0] && pHeadSended == NULL
      modifies this`next, this`pHeadSended, this`pTailSended, this`tail
      ensures next == [1, 2, 3, 4, NULL] && tail == [0, 0, 0, 0, 0] && pHeadSended == 0 && pTailSended == 4
    {
      var p := NULL;
      for i := 0 to RX_BUFFER_NUM
        invariant p == i - 1 && |next| == RX_BUFFER_NUM && tail == [0, 0, 0, 0, 0]
        invariant pHeadSended == if i == 0 then NULL else 0
        invariant forall j :: 0 <= j < i ==> next[j] == if j + 1 < i then j + 1 else NULL
      {
        if pHeadSended == NULL {
          pHeadSended := i;
        } else {
          next := next[p := i];
        }
        p := i;
        tail := tail[p := 0];
        next := next[p := NULL];
      }
      pTailSended := p;
    }

    ghost predicate Memory()
      reads this`tail, this`buffer
    {
      && |tail| == |buffer| == RX_BUFFER_NUM
      && forall n :: 0 <= n < RX_BUFFER_NUM ==> |buffer[n]| == RX_BUFFER_SIZE && tail[n] <= RX_BUFFER_SIZE
    }

    ghost predicate Pointers()
      reads this`pHeadToSend, this`pTailToSend, this`pHeadSended, this`pTailSended
      reads this`toSend, this`hand, this`sended
    {
      && pHeadToSend == Nth(toSend, 0) && pHeadSended == Nth(sended, 0)
      && (toSend != [] ==> pTailToSend == toSend[|toSend| - 1])
      && (sended != [] ==> pTailSended == sended[|sended| - 1])
      && (sended == [] && hand != [] ==> pTailSended == hand[0])
    }

    ghost predicate Stored(queued: seq<seq<byte>>, free: seq<seq<byte>>)
      reads this`toSend, this`sended, this`buffer, this`tail
    {
      queued == Contents(toSend, buffer, tail) && free == Contents(sended, buffer, tail)
    }

    /** The protocol's flags, and the descriptor aimed at the front of the queue. */
    ghost predicate Flags()
      reads this
    {
      && hasRead == view.hasRead && started == view.started && delivered == view.delivered
      && (started ==> toSend != [] && rxBuf == toSend[0] && 0 <= rxBuf < |tail| && rxLen == tail[rxBuf])
    }

    ghost predicate Shape()
      reads this
    {
      && Lists(toSend, hand, sended, next) && |hand| <= 1
      && Memory() && Pointers() && Stored(view.toSend, view.sended) && Flags()
    }

    lemma NodeFacts(n: int)
      requires Shape() && (n in toSend || n in sended || n in hand)
      ensures 0 <= n < RX_BUFFER_NUM == |next| == |tail| == |buffer|
      ensures |buffer[n]| == RX_BUFFER_SIZE && tail[n] <= RX_BUFFER_SIZE
      ensures Held(buffer, tail, n) == buffer[n][..tail[n]]
    {
      Unshared(toSend, hand, sended);
    }

    lemma FrontFacts()
      requires Shape() && toSend != []
      ensures pHeadToSend == toSend[0] && 0 <= toSend[0] < RX_BUFFER_NUM == |tail| == |buffer| == |next|
      ensures tail[toSend[0]] <= RX_BUFFER_SIZE == |buffer[toSend[0]]|
      ensures view.toSend != [] && view.toSend[0] == buffer[toSend[0]][..tail[toSend[0]]]
    {
      NodeFacts(toSend[0]);
    }

    /** What the pointers say about the protocol's state. */
    lemma PointerFacts()
      requires Shape()
      ensures |view.toSend| == |toSend| && |view.sended| == |sended|
      ensures pHeadToSend != NULL <==> toSend != []
      ensures pHeadSended != NULL <==> sended != []
      ensures |tail| == |next| == |buffer| == RX_BUFFER_NUM
      ensures sended != [] ==> 0 <= pHeadSended < RX_BUFFER_NUM
      ensures sended != [] ==> |view.sended[0]| == tail[pHeadSended]
    {
      SizeOf(toSend, hand, sended, next);
      if sended != [] {
        NodeFacts(sended[0]);
      }
    }

    /** rx_buff_load_done: start the hardware on `len` bytes, none when there are none. */
    method LoadDone(len: nat)
      modifies this`rxLen, this`started
      ensures started == (old(started) || len != 0)
      ensures rxLen == if len == 0 then old(rxLen) else if len > RX_BUFFER_SIZE then RX_BUFFER_SIZE else len
    {
      if len == 0 {
        return;
      }
      rxLen := if len > RX_BUFFER_SIZE then RX_BUFFER_SIZE else len;
      started := true;
    }

    /** What sdio_try_to_load does after its test: hand the front buffer to the hardware. */
    method Offer()
      requires Shape() && toSend != []
      modifies this`rxBuf, this`rxLen, this`started, this`hasRead, this`view
      ensures Shape() && old(view.toSend) != [] && view == P.Offer(old(view))
    {
      hide Lists, Memory, Pointers, Stored;
      FrontFacts();
      rxBuf := pHeadToSend;
      LoadDone(tail[pHeadToSend]);
      hasRead, view := false, P.Offer(view);
    }

    /** The list surgery of sdio_read_done_process on the node just read. */
    method Requeue()
      requires Lists(toSend, hand, sended, next) && Memory() && Pointers() && toSend != []
      modifies this`next, this`tail, this`pHeadToSend, this`pHeadSended, this`pTailSended
      modifies this`toSend, this`sended
      ensures Lists(toSend, hand, sended, next) && Memory() && Pointers()
      ensures toSend == old(toSend)[1..] && sended == old(sended) + [old(toSend)[0]]
      ensures 0 <= old(toSend)[0] < |old(tail)| && tail == old(tail)[old(toSend)[0] := 0]
    {
      hide Lists;
      RecycleLists(toSend, hand, sended, next);
      SizeOf(toSend, hand, sended, next);
      ghost var n := toSend[0];
      tail := tail[pHeadToSend := 0];
      if pHeadSended != NULL {
        next := next[pTailSended := pHeadToSend];
        pTailSended := next[pTailSended];
      } else {
        pTailSended := pHeadToSend;
        pHeadSended := pTailSended;
      }
      pHeadToSend := next[pHeadToSend];
      next := next[pTailSended := NULL];
      toSend, sended := toSend[1..], sended + [n];
    }

    /** The first half of sdio_read_done_process: the host has read the front buffer, which
        becomes the last free one. */
    method Recycle()
      requires Shape() && started
      modifies this
      ensures Shape() && old(view.toSend) != [] && view == P.Recycle(old(view))
      ensures hand == old(hand) && Contents(hand, buffer, tail) == old(Contents(hand, buffer, tail))
    {
      hide Lists, Memory, Pointers;
      FrontFacts();
      RecycleContents(toSend, hand, sended, next, buffer, tail);
      delivered := delivered + buffer[rxBuf][..rxLen];
      started := false;
      hasRead := true;
      view := P.Recycle(view);
      Requeue();
    }

    /** Moves the front free node to the empty queue. */
    method MoveFirst()
      requires Lists(toSend, hand, sended, next) && Memory() && Pointers()
      requires toSend == [] && hand == [] && sended != []
      modifies this`next, this`pHeadToSend, this`pTailToSend, this`pHeadSended, this`toSend, this`sended
      ensures Lists(toSend, hand, sended, next) && Pointers()
      ensures toSend == [old(sended)[0]] && sended == old(sended)[1..]
    {
      hide Lists;
      SizeOf(toSend, hand, sended, next);
      PromoteLists(sended, next);
      pTailToSend := pHeadSended;
      pHeadToSend := pTailToSend;
      pHeadSended := next[pHeadSended];
      next := next[pTailToSend := NULL];
      toSend, sended := [sended[0]], sended[1..];
    }

    method Promote()
      requires Shape() && toSend == [] && hand == [] && sended != [] && !started
      modifies this
      ensures Shape() && toSend != [] && hand == [] && old(view.sended) != []
      ensures view == old(view).(toSend := [old(view.sended)[0]], sended := old(view.sended)[1..])
    {
      hide Lists, Contents, Pointers, Memory;
      ContentsMoves(sended, [], buffer, tail);
      MoveFirst();
      view := view.(toSend := [view.sended[0]], sended := view.sended[1..]);
    }

    /** The front free node comes off its list, into the loader's hand. */
    method Unlink()
      requires Lists(toSend, hand, sended, next) && Pointers() && hand == [] && sended != []
      modifies this`pHeadSended, this`hand, this`sended
      ensures Lists(toSend, hand, sended, next) && Pointers()
      ensures hand == [old(sended)[0]] && sended == old(sended)[1..]
    {
      hide Lists;
      SizeOf(toSend, hand, sended, next);
      TakeLists(toSend, sended, next);
      pHeadSended := next[pHeadSended];
      hand, sended := [sended[0]], sended[1..];
    }

    method Take()
      requires Shape() && hand == [] && sended != []
      modifies this`pHeadSended, this`hand, this`sended, this`view
      ensures Shape() && hand == [old(pHeadSended)] && old(view.sended) != []
      ensures view == old(view).(sended := old(view.sended)[1..])
      ensures Contents(hand, buffer, tail) == [old(view.sended)[0]]
    {
      hide Lists, Contents, Memory;
      ContentsMoves(sended, [], buffer, tail);
      view := view.(sended := view.sended[1..]);
      Unlink();
    }

    ghost predicate Valid()
      reads this
    {
      Shape() && Inv(view, Contents(hand, buffer, tail))
    }

    /** sdio_read_done_process. */
    method ReadDone()
      requires Valid() && started
      modifies this
      ensures Valid() && old(view.toSend) != [] && view == P.ReadDone(old(view))
      ensures hand == old(hand) && Contents(hand, buffer, tail) == old(Contents(hand, buffer, tail))
    {
      hide Lists, Memory, Stored, Inv, Contents;
      ghost var held := Contents(hand, buffer, tail);
      ReadDoneKeeps(view, held);
      RecycleKeeps(view, held);
      Recycle();
      PointerFacts();
      if pHeadToSend != NULL {
        Offer();
      } else if pHeadSended != NULL && tail[pHeadSended] != 0 {
        Promote();
        Offer();
      }
    }

    /** Up to `k` read-done interrupts, each only while a transfer is running. */
    method Window(k: nat)
      requires Valid()
      modifies this
      ensures Valid() && (old(view.started) ==> old(view.toSend) != []) && view == P.Window(old(view), k)
      ensures hand == old(hand) && Contents(hand, buffer, tail) == old(Contents(hand, buffer, tail))
    {
      hide Shape, Inv, Contents;
      ghost var held := Contents(hand, buffer, tail);
      var left := k;
      WindowKeeps(view, held, left);
      while left > 0 && started
        invariant Valid() && hand == old(hand) && Contents(hand, buffer, tail) == held
        invariant view.started ==> view.toSend != []
        invariant P.Window(view, left) == P.Window(old(view), k)
      {
        StartedFlag();
        ReadDone();
        left := left - 1;
        WindowKeeps(view, held, left);
      }
      StartedFlag();
    }

    lemma StartedFlag()
      requires Shape()
      ensures started == view.started
    {
    }

    lemma HandFacts()
      requires Shape() && hand != []
      ensures |hand| == 1 && 0 <= hand[0] < RX_BUFFER_NUM == |tail| == |buffer| == |next|
      ensures |buffer[hand[0]]| == RX_BUFFER_SIZE && tail[hand[0]] == |Contents(hand, buffer, tail)[0]|
    {
      assert hand[0] in hand;
      NodeFacts(hand[0]);
    }

    /** The copy into the buffer in hand, and its new tail. */
    method CopyIn(temp: int, data: seq<byte>)
      requires Shape() && hand == [temp]
      requires |Contents(hand, buffer, tail)[0]| + |data| <= RX_BUFFER_SIZE
      modifies this`tail, this`buffer
      ensures Shape() && Contents(hand, buffer, tail) == [old(Contents(hand, buffer, tail)[0]) + data]
    {
      hide Lists, Contents, Pointers;
      HandFacts();
      CopyContents(toSend, temp, sended, next, buffer, tail, data);
      assert started ==> rxBuf in toSend;
      var at := tail[temp];
      buffer := buffer[temp := Copied(buffer[temp], at, data)];
      tail := tail[temp := at + |data|];
    }

    /** A node with room left goes back to the front of the free list. */
    method LinkFront(temp: int)
      requires Lists(toSend, hand, sended, next) && Pointers() && hand == [temp]
      modifies this`next, this`pHeadSended, this`hand, this`sended
      ensures Lists(toSend, hand, sended, next) && Pointers() && hand == [] && sended == [temp] + old(sended)
    {
      hide Lists;
      PutLists(toSend, temp, sended, next);
      next := next[temp := pHeadSended];
      pHeadSended := temp;
      sended, hand := [temp] + sended, [];
    }

    method PutBack(temp: int)
      requires Shape() && hand == [temp]
      modifies this`next, this`pHeadSended, this`hand, this`sended, this`view
      ensures Shape() && hand == []
      ensures view == old(view).(sended := old(Contents(hand, buffer, tail)) + old(view.sended))
    {
      hide Lists, Contents, Memory, Pointers;
      ContentsMoves(hand, sended, buffer, tail);
      view := view.(sended := Contents(hand, buffer, tail) + view.sended);
      LinkFront(temp);
    }

    /** sdio_try_to_load. */
    method TryToLoad()
      requires Shape()
      modifies this`rxBuf, this`rxLen, this`started, this`hasRead, this`view
      ensures Shape() && view == P.TryToLoad(old(view))
    {
      PointerFacts();
      if hasRead && pHeadToSend != NULL {
        Offer();
      }
    }

    /** The node in hand becomes the whole queue. */
    method LinkOnly(temp: int)
      requires Lists(toSend, hand, sended, next) && Pointers() && hand == [temp] && toSend == []
      modifies this`next, this`pHeadToSend, this`pTailToSend, this`hand, this`toSend
      ensures Lists(toSend, hand, sended, next) && Pointers() && hand == [] && toSend == [temp]
    {
      hide Lists;
      EnqueueLists(toSend, temp, sended, next);
      assert toSend + [temp] == [temp];
      pTailToSend := temp;
      pHeadToSend := pTailToSend;
      next := next[pTailToSend := NULL];
      toSend, hand := [temp], [];
    }

    /** The node in hand becomes the last of the queue. */
    method LinkTail(temp: int)
      requires Lists(toSend, hand, sended, next) && Pointers() && hand == [temp] && toSend != []
      modifies this`next, this`pTailToSend, this`hand, this`toSend
      ensures Lists(toSend, hand, sended, next) && Pointers() && hand == [] && toSend == old(toSend) + [temp]
    {
      hide Lists;
      EnqueueLists(toSend, temp, sended, next);
      next := next[pTailToSend := temp];
      pTailToSend := next[pTailToSend];
      next := next[pTailToSend := NULL];
      toSend, hand := toSend + [temp], [];
    }

    method JoinEmpty(temp: int)
      requires Shape() && hand == [temp] && toSend == []
      modifies this
      ensures Shape() && hand == []
      ensures view == old(view).(toSend := old(view.toSend) + old(Contents(hand, buffer, tail)))
    {
      hide Lists, Contents, Memory, Pointers;
      ContentsMoves(toSend, hand, buffer, tail);
      assert toSend + hand == hand;
      view := view.(toSend := view.toSend + Contents(hand, buffer, tail));
      LinkOnly(temp);
    }

    method JoinTail(temp: int)
      requires Shape() && hand == [temp] && toSend != []
      modifies this
      ensures Shape() && hand == []
      ensures view == old(view).(toSend := old(view.toSend) + old(Contents(hand, buffer, tail)))
    {
      hide Lists, Contents, Memory, Pointers;
      ContentsMoves(toSend, hand, buffer, tail);
      view := view.(toSend := view.toSend + Contents(hand, buffer, tail));
      LinkTail(temp);
    }

    /** A full node joins the queue, and is offered at once if the queue was empty. (The source
        clears its link last; no interrupt can come in between.) */
    method Join(temp: int)
      requires Shape() && hand == [temp]
      modifies this
      ensures Shape() && hand == []
      ensures view == P.Enqueue(old(view), old(Contents(hand, buffer, tail)[0]))
    {
      hide Shape, Contents, P.TryToLoad;
      PointerFacts();
      ghost var b := Contents(hand, buffer, tail)[0];
      assert Contents(hand, buffer, tail) == [b];
      if pHeadToSend == NULL {
        JoinEmpty(temp);
        TryToLoad();
      } else {
        JoinTail(temp);
      }
    }

    /** The last step of a call: an idle slave gets the front free node, whatever it holds. */
    method Settle()
      requires Valid() && hand == []
      modifies this
      ensures Valid() && hand == [] && (old(view.toSend) == [] ==> old(view.sended) != [])
      ensures view == P.Settle(old(view))
    {
      hide Lists, Memory, Pointers, Stored;
      SettleKeeps(view);
      PointerFacts();
      if pHeadToSend == NULL {
        Promote();
        TryToLoad();
      }
    }

    method Account(ghost more: seq<byte>)
      requires Shape()
      modifies this`view
      ensures Shape() && view == old(view).(accepted := old(view.accepted) + more)
    {
      hide Lists, Contents, Memory, Pointers;
      view := view.(accepted := view.accepted + more);
    }

    /** One round of the copying loop, with up to `k` interrupts while the node is in hand. */
    method Round(data: seq<byte>, k: nat) returns (n: nat)
      requires Valid() && hand == [] && Rest(view) && sended != [] && data != []
      modifies this
      ensures Valid() && hand == [] && old(view.sended) != [] && Inv(old(view), [])
      ensures Loaded(view, n) == P.Take(old(view), data, k)
    {
      hide Shape, Inv, Contents, P.Window, P.Enqueue;
      PointerFacts();
      HandEmpty();
      TakeApart(view);
      TakeKeeps(view, data, k);
      var temp := pHeadSended;
      Take();
      Window(k);
      HandFacts();
      var room := RX_BUFFER_SIZE - tail[temp];
      if |data| < room {
        CopyIn(temp, data);
        PutBack(temp);
        Account(data);
        n := |data|;
      } else {
        CopyIn(temp, data[..room]);
        Account(data[..room]);
        Join(temp);
        n := room;
      }
      HandEmpty();
    }

    lemma HandEmpty()
      requires hand == []
      ensures Contents(hand, buffer, tail) == []
    {
    }

    /**
     * sdio_load_data, refining the protocol's `Load` for every schedule of interrupts: `busy[i]`
     * of them are waiting when the i-th window opens.
     */
    method Load(data: seq<byte>, busy: seq<nat>) returns (n: nat)
      requires Valid() && hand == [] && Rest(view)
      modifies this
      ensures Valid() && hand == [] && Rest(view)
      ensures Rest(old(view)) && Loaded(view, n) == P.Load(old(view), data, busy)
    {
      hide Shape, Inv, Contents, P.Window, P.Settle, P.Take;
      HandEmpty();
      PointerFacts();
      LoadKeeps(view, data, busy);
      WindowKeeps(view, [], Next(busy));
      n := 0;
      if pHeadSended == NULL {
        return;
      }
      Window(Next(busy));
      n := Copy(data, Later(busy));
    }

    /** The copying loop and the last step. */
    method Copy(data: seq<byte>, busy: seq<nat>) returns (n: nat)
      requires Valid() && hand == [] && Rest(view)
      modifies this
      ensures Valid() && hand == [] && Inv(old(view), [])
      ensures Loaded(view, n) == LoadLoop(old(view), data, busy)
    {
      hide Shape, Inv, Contents, P.Window, P.Settle, P.Take;
      var left, later := data, busy;
      ghost var goal := LoadLoop(view, data, busy);
      n := 0;
      HandEmpty();
      while left != []
        invariant Valid() && hand == [] && Inv(view, []) && (left != [] ==> Rest(view))
        invariant LoadLoop(view, left, later).slave == goal.slave
        invariant n + LoadLoop(view, left, later).count == goal.count
        decreases |left|
      {
        PointerFacts();
        if pHeadSended == NULL {
          WindowKeeps(view, [], Next(later));
          Window(Next(later));
          break;
        }
        TakeKeeps(view, left, Next(later));
        var k := Round(left, Next(later));
        HandEmpty();
        n, left, later := n + k, left[k..], Later(later);
      }
      Settle();
    }
  }
}
