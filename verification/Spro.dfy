/** The WebSocket receive object: a byte buffer, a timer and a package callback. */
module Spro {
  import opened Bytes
  import opened SproStream

  class Spro {
    // `bufferSize` bytes are used for data; `buffer` is the memory clearing may reach.
    const buffer: array<byte>
    const bufferSize: nat
    var index: nat
    var pkgLen: nat
    var pkgOneFlag: bool
    var timerOpened: bool
    // Every callback so far.
    var log: seq<Event>

    constructor (size: nat)
      requires 1 <= size <= 0xFFFF
      ensures Valid() && fresh(buffer) && Held() == [] && !timerOpened && log == [] && bufferSize == size
    {
      buffer := new byte[2 * size](_ => 0);
      bufferSize := size;
      index, pkgLen, pkgOneFlag, timerOpened, log := 0, 0, false, false, [];
    }

    ghost predicate Valid()
      reads this, buffer
    {
      && Fits() && (timerOpened ==> !pkgOneFlag) && (index == 0 ==> buffer[0] == 0)
    }

    ghost predicate Fits()
      reads this`index
    {
      1 <= bufferSize <= 0xFFFF && 2 * bufferSize <= buffer.Length && index <= bufferSize
    }

    ghost function Held(): seq<byte>
      reads this`index, buffer
      requires index <= buffer.Length
    {
      buffer[..index]
    }

    method Flush()
      requires Fits()
      modifies this`index, buffer
      ensures Fits() && index == 0 && buffer[0] == 0 && Held() == []
    {
      index := 0;
      for i := 0 to bufferSize
        invariant index == 0 && forall k :: 0 <= k < i ==> buffer[k] == 0
      {
        buffer[i] := 0;
      }
    }

    /** serverRxRead: drop the package just delivered. */
    method Read()
      requires Fits() && pkgLen <= index && (index == 0 ==> buffer[0] == 0)
      modifies this`index, buffer
      ensures Fits() && Held() == old(Held())[pkgLen..] && (index == 0 ==> buffer[0] == 0)
    {
      if pkgLen == 0 {
        return;
      } else if pkgLen == index {
        Flush();
      } else {
        var i, j: nat := pkgLen, 0;
        ghost var was := Held();
        while i < index
          invariant j == i - pkgLen && pkgLen <= i <= index && index == old(index)
          invariant forall k :: 0 <= k < j ==> buffer[k] == was[pkgLen + k]
          invariant forall k :: i <= k < index ==> buffer[k] == was[k]
        {
          buffer[j] := buffer[i];
          i, j := i + 1, j + 1;
        }
        assert buffer[..j] == was[pkgLen..];
        index := index - pkgLen;
        Clear(index, index);
      }
    }

    /** The bytes from `from` on are cleared, `count` of them. */
    method Clear(from: nat, count: nat)
      requires from + count <= buffer.Length
      modifies buffer
      ensures buffer[..from] == old(buffer[..from])
    {
      for i := from to from + count
        invariant buffer[..from] == old(buffer[..from])
      {
        buffer[i] := 0;
      }
    }

    /** serverRxWrite: append what fits. */
    method Write(data: seq<byte>)
      requires Fits()
      modifies this`index, buffer
      ensures Fits() && Held() == old(Held()) + Taken(bufferSize, old(Held()), data)
      ensures index == 0 ==> buffer[..] == old(buffer[..])
    {
      ghost var was := Held();
      for i := 0 to |data|
        invariant Fits() && index == |was| + i && Held() == was + data[..i]
        invariant i == 0 ==> buffer[..] == old(buffer[..])
      {
        if index < bufferSize {
          buffer[index] := data[i];
          index := index + 1;
        } else {
          index := bufferSize;
          assert Held() == was + data[..i];
          return;
        }
      }
      assert data[..|data|] == data;
    }

    method Report(bytes: seq<byte>)
      modifies this`log
      ensures log == old(log) + [Event(bytes, pkgOneFlag)]
    {
      log := log + [Event(bytes, pkgOneFlag)];
    }

    /** Hands over everything as an error and empties the buffer. */
    method Reject()
      requires Fits()
      modifies this`pkgOneFlag, this`log, this`index, buffer
      ensures Fits() && !pkgOneFlag && Held() == [] && buffer[0] == 0
      ensures log == old(log) + [Event(old(Held()), false)]
    {
      pkgOneFlag := false;
      Report(buffer[..index]);
      Flush();
    }

    /** The header checks of one round; `stop` is the source's `break`. */
    method Inspect() returns (stop: bool)
      requires Fits() && index > 0
      modifies this`pkgOneFlag, this`pkgLen, this`log, this`index, buffer
      ensures Fits() && (index == 0 ==> buffer[0] == 0)
      ensures stop == Classify(old(Held())).Bad?
      ensures stop ==> !pkgOneFlag && Held() == [] && log == old(log) + [Event(old(Held()), false)]
      ensures !stop ==> Held() == old(Held()) && log == old(log) && pkgOneFlag == Classify(old(Held())).Frame?
      ensures !stop && pkgOneFlag ==> pkgLen == Classify(old(Held())).len
    {
      stop := false;
      if buffer[0] == 0x81 || buffer[0] == 0x82 {
        if index >= 2 {
          if buffer[1] <= 125 {
            var n: nat := buffer[1] as int + 2;
            if index < n {
              pkgOneFlag := false;
            } else {
              pkgOneFlag := true;
              pkgLen := n;
            }
          } else if buffer[1] == 126 {
            if index < 4 || buffer[2] as int * 256 + buffer[3] as int + 4 > index {
              pkgOneFlag := false;
            } else {
              pkgOneFlag := true;
              pkgLen := buffer[2] as int * 256 + buffer[3] as int + 4;
            }
          } else {
            Reject();
            return true;
          }
        } else {
          pkgOneFlag := false;
        }
      } else if buffer[0] == 0x8a || buffer[0] == 0x89 {
        if index < 2 {
          pkgOneFlag := false;
        }
        if index >= 2 {
          if buffer[1] == 0 {
            pkgOneFlag := true;
            pkgLen := 2;
          } else {
            Reject();
            return true;
          }
        }
      } else {
        Reject();
        return true;
      }
    }

    /** A whole frame is at the front: deliver it and look at what follows. */
    method Deliver()
      requires Fits() && pkgOneFlag && 2 <= pkgLen <= index
      modifies this`pkgOneFlag, this`log, this`index, this`timerOpened, buffer
      ensures Fits() && (index == 0 ==> buffer[0] == 0)
      ensures var first, left := Event(old(Held())[..pkgLen], true), old(Held())[pkgLen..];
              && pkgOneFlag == timerOpened == (left != [] && Head(left[0]))
              && Held() == (if pkgOneFlag then left else [])
              && log == old(log) + (if left == [] || pkgOneFlag then [first] else [first, Event(left, false)])
    {
      timerOpened := false;
      Report(buffer[..pkgLen]);
      assert buffer[..pkgLen] == Held()[..pkgLen];
      Read();
      if index > 0 {
        assert buffer[0] == Held()[0];
        if buffer[0] != 0x81 && buffer[0] != 0x82 && buffer[0] != 0x8a && buffer[0] != 0x89 {
          Reject();
        } else {
          pkgOneFlag := true;
          if !timerOpened {
            timerOpened := true;
          }
        }
      } else {
        pkgOneFlag := false;
      }
    }

    /** processWebsocketPackage: one TCP chunk. */
    method Process(data: seq<byte>)
      requires Valid()
      modifies this, buffer
      ensures Valid()
      ensures var p := Received(old(Held()), Taken(bufferSize, old(Held()), data), old(timerOpened));
              Held() == p.rest && timerOpened == p.timer && log == old(log) + p.events
    {
      hide Drain, Classify, Taken, Pending;
      ghost var goal := Received(Held(), Taken(bufferSize, Held(), data), timerOpened);
      ghost var start := log;
      Write(data);
      assert index == 0 ==> buffer[0] == buffer[..][0] == 0;
      RejectsAll(start, Held(), timerOpened, goal);
      if buffer[0] != 0x81 && buffer[0] != 0x82 && buffer[0] != 0x8a && buffer[0] != 0x89 {
        Reject();
      } else {
        pkgOneFlag := true;
      }
      Rounds(start, goal);
    }

    /** The loop that takes one frame a round, while the flag is up. */
    method Rounds(ghost start: seq<Event>, ghost goal: Parsed)
      requires Fits() && (index == 0 ==> buffer[0] == 0)
      requires pkgOneFlag ==> index > 0 && Pending(start, log, Held(), timerOpened, goal)
      requires !pkgOneFlag ==> Held() == goal.rest && timerOpened == goal.timer && log == start + goal.events
      modifies this, buffer
      ensures Fits() && (index == 0 ==> buffer[0] == 0) && !pkgOneFlag
      ensures Held() == goal.rest && timerOpened == goal.timer && log == start + goal.events
    {
      hide Classify, Pending;
      while pkgOneFlag
        invariant Fits() && (index == 0 ==> buffer[0] == 0)
        invariant pkgOneFlag ==> index > 0 && Pending(start, log, Held(), timerOpened, goal)
        invariant !pkgOneFlag ==> Held() == goal.rest && timerOpened == goal.timer && log == start + goal.events
        decreases if pkgOneFlag then index + 1 else 0
      {
        RoundOutcome(start, log, Held(), timerOpened, goal);
        var stop := Inspect();
        if stop {
          break;
        }
        if pkgOneFlag {
          Deliver();
        } else {
          if !timerOpened {
            timerOpened := true;
          }
        }
      }
    }

    /** spro10sTimerCallback: what is left is handed over as it is. */
    method TimerCallback()
      requires Valid() && timerOpened
      modifies this, buffer
      ensures Valid() && Held() == [] && !timerOpened
      ensures log == old(log) + [Event(old(Held()), false)]
    {
      Report(buffer[..index]);
      Flush();
      timerOpened := false;
    }

    ghost function State(): Conn
      reads this, buffer
      requires index <= buffer.Length
    {
      Conn(Held(), timerOpened, log)
    }

    /** Any run of chunks and timer expiries does what the stream model says. */
    method Serve(inputs: seq<Input>)
      requires Valid()
      modifies this, buffer
      ensures Valid() && State() == Run(bufferSize, old(State()), inputs)
    {
      hide Drain, Taken;
      ghost var goal := Run(bufferSize, State(), inputs);
      for i := 0 to |inputs|
        invariant Valid() && index <= buffer.Length && Run(bufferSize, State(), inputs[i..]) == goal
      {
        assert inputs[i..][1..] == inputs[i + 1..];
        match inputs[i]
        case Chunk(data) => Process(data);
        case Expire =>
          if timerOpened {
            TimerCallback();
          }
      }
    }
  }

  /** What is still to come from `b` completes what was logged to the goal. */
  ghost predicate Pending(start: seq<Event>, log: seq<Event>, b: seq<byte>, timer: bool, goal: Parsed) {
    && b != [] && log + Drain(b, timer).events == start + goal.events
    && Drain(b, timer).rest == goal.rest && Drain(b, timer).timer == goal.timer
  }

  /** How a call begins: with a valid first byte everything is still to come, and otherwise
      everything is rejected. */
  lemma RejectsAll(log: seq<Event>, b: seq<byte>, timer: bool, goal: Parsed)
    requires goal == if b == [] then Parsed([Event([], false)], [], timer) else Drain(b, timer)
    ensures b != [] && Head(b[0]) ==> Pending(log, log, b, timer, goal)
    ensures b == [] || !Head(b[0]) ==> goal == Parsed([Event(b, false)], [], timer)
  {
  }

  lemma RoundOutcome(start: seq<Event>, log: seq<Event>, b: seq<byte>, timer: bool, goal: Parsed)
    requires Pending(start, log, b, timer, goal)
    ensures Classify(b).More? ==> goal.rest == b && goal.timer && log == start + goal.events
    ensures Classify(b).Bad? ==>
              goal.rest == [] && goal.timer == timer && log + [Event(b, false)] == start + goal.events
    ensures Classify(b).Frame? ==>
              var first, left := Event(b[..Classify(b).len], true), b[Classify(b).len..];
              if left != [] && Head(left[0]) then Pending(start, log + [first], left, true, goal)
              else goal.rest == [] && !goal.timer && start + goal.events
                   == log + (if left == [] then [first] else [first, Event(left, false)])
  {
    hide Classify;
    if Classify(b).Frame? {
      var first, left := Event(b[..Classify(b).len], true), b[Classify(b).len..];
      if left != [] && Head(left[0]) {
        Regroup(log, [first], Drain(left, true).events);
      }
    }
  }
}
