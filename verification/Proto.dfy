/** proto.c and queue.c with their ring and buffers, proved to do what Framing and MqttQueue say. */
module Proto {
  import opened Bytes
  import opened RingBuf
  import Framing
  import MqttQueue

  /** PROTO_PARSER */
  class ProtoParser {
    var buf: array<byte>
    var bufSize: nat
    var dataLen: nat
    var isEsc: bool
    var isBegin: bool

    ghost predicate Valid()
      reads this
    {
      dataLen <= bufSize <= buf.Length
    }

    ghost function State(): Framing.Parser
      requires Valid()
      reads this, buf
    {
      Framing.Parser(isBegin, isEsc, buf[..dataLen])
    }

    /** `PROTO_Init`; the last argument is what the uninitialised field happens to hold. */
    constructor (buf: array<byte>, bufSize: nat, leftover: bool)
      requires bufSize <= buf.Length
      ensures Valid() && State() == Framing.Fresh(leftover) && this.buf == buf && this.bufSize == bufSize
    {
      this.buf := buf;
      this.bufSize := bufSize;
      dataLen := 0;
      isEsc := false;
      isBegin := leftover;
    }

    /** `PROTO_ParseByte`, whose callback is null here. */
    method ParseByte(value0: byte) returns (r: int)
      requires Valid()
      modifies this, buf
      ensures Valid() && buf == old(buf) && bufSize == old(bufSize)
      ensures r == if value0 == Framing.END then 0 else -1
      ensures r != 0 ==> State() == Framing.Feed(old(State()), bufSize, value0)
      ensures r == 0 ==> State().data == old(State()).data
    {
      var value := value0;
      if value == Framing.ESCAPE {
        isEsc := true;
      } else if value == Framing.BEGIN {
        dataLen := 0;
        isEsc := false;
        isBegin := true;
      } else if value == Framing.END {
        isBegin := false;
        return 0;
      } else if isBegin {
        if isEsc {
          value := Framing.Flip(value);
          isEsc := false;
        }
        if dataLen < bufSize {
          buf[dataLen] := value;
          dataLen := dataLen + 1;
        }
      }
      return -1;
    }
  }

  ghost predicate Separate(rb: Ring, buf: array<byte>)
    reads rb
  {
    rb.data != buf
  }

  /** `PROTO_ParseRb`, which is `QUEUE_Gets`. */
  method ParseRb(rb: Ring, bufOut: array<byte>, maxBufLen: nat, leftover: bool) returns (r: int, len: nat)
    requires rb.Valid() && maxBufLen <= bufOut.Length && Separate(rb, bufOut)
    modifies rb, bufOut
    ensures rb.Valid() && rb.data == old(rb.data) && rb.size == old(rb.size)
    ensures var g := Framing.Parse(old(rb.Contents()), Framing.Fresh(leftover), maxBufLen);
      && (g.Drained? ==> r == -1 && rb.Contents() == [])
      && (g.Message? ==> r == 0 && rb.Contents() == g.rest && len <= bufOut.Length && bufOut[..len] == g.m)
  {
    ghost var g := Framing.Parse(rb.Contents(), Framing.Fresh(leftover), maxBufLen);
    len := 0;
    var proto := new ProtoParser(bufOut, maxBufLen, leftover);
    while true
      invariant rb.Valid() && rb.data == old(rb.data) && rb.size == old(rb.size)
      invariant proto.Valid() && proto.buf == bufOut && proto.bufSize == maxBufLen && fresh(proto)
      invariant Framing.Parse(rb.Contents(), proto.State(), maxBufLen) == g
      decreases |rb.Contents()|
    {
      ghost var c := rb.Contents();
      var got, b := rb.Get();
      if got != 0 { return -1, 0; }
      assert c[0] == b && c[1..] == rb.Contents();
      var done := proto.ParseByte(b);
      if done == 0 { return 0, proto.dataLen; }
    }
  }

  /** One turn of the loop in `PROTO_AddRb`: the byte, escaped where it must be. */
  method AddByte(rb: Ring, b: byte) returns (ok: bool)
    requires rb.Valid()
    modifies rb, rb.data
    ensures rb.Valid() && rb.data == old(rb.data) && rb.size == old(rb.size)
    ensures var x := old(rb.Contents()) + Framing.StuffByte(b);
      ok == (|x| <= rb.size) && rb.Contents() == if ok then x else x[..rb.size]
  {
    ghost var c, t := rb.Contents(), Framing.StuffByte(b);
    if b == Framing.ESCAPE || b == Framing.BEGIN || b == Framing.END {
      var put := rb.Put(Framing.ESCAPE);
      if put == -1 {
        assert (c + t)[..rb.size] == c;
        return false;
      }
      put := rb.Put(Framing.Flip(b));
      assert c + [Framing.ESCAPE] + [Framing.Flip(b)] == c + t;
      if put == -1 {
        assert (c + t)[..rb.size] == c + [Framing.ESCAPE];
        return false;
      }
    } else {
      var put := rb.Put(b);
      if put == -1 {
        assert (c + t)[..rb.size] == c;
        return false;
      }
    }
    return true;
  }

  /** Bytes that outgrow the ring on the way to a whole frame: what stays is the frame cut off. */
  lemma CutOff(c: seq<byte>, p: seq<byte>, x: seq<byte>, y: seq<byte>, size: nat)
    requires |c| <= size < |x| && x + y == c + Framing.Frame(p)
    ensures !MqttQueue.Accepts(c, p, size) && MqttQueue.AfterPut(c, p, size) == x[..size]
  {
    hide Framing.Frame;
    assert |x + y| == |c| + |Framing.Frame(p)|;
    assert (x + y)[..size] == x[..size];
    assert (c + Framing.Frame(p))[..size] == c + Framing.Frame(p)[..size - |c|];
  }

  lemma FrameAround(c: seq<byte>, p: seq<byte>, k: nat)
    requires k <= |p|
    ensures c + [Framing.BEGIN] + Framing.Stuff(p[..k]) + (Framing.Stuff(p[k..]) + [Framing.END])
         == c + Framing.Frame(p)
  {
    Framing.StuffSplit(p, k);
    hide Framing.Stuff;
    var t, u := Framing.Stuff(p[..k]), Framing.Stuff(p[k..]);
    assert c + [Framing.BEGIN] + t + (u + [Framing.END]) == c + ([Framing.BEGIN] + (t + u) + [Framing.END]);
  }

  lemma FrameAroundByte(c: seq<byte>, p: seq<byte>, k: nat)
    requires k < |p|
    ensures c + [Framing.BEGIN] + Framing.Stuff(p[..k]) + Framing.StuffByte(p[k])
         == c + [Framing.BEGIN] + Framing.Stuff(p[..k + 1])
  {
    Framing.StuffNext(p, k);
    hide Framing.Stuff;
    var t, u := Framing.Stuff(p[..k]), Framing.StuffByte(p[k]);
    assert c + [Framing.BEGIN] + t + u == c + [Framing.BEGIN] + (t + u);
  }

  lemma FrameFirst(c: seq<byte>, p: seq<byte>)
    ensures c + [Framing.BEGIN] + Framing.Stuff(p[..0]) == c + [Framing.BEGIN] && |Framing.Stuff(p[..0])| == 0
    ensures c + [Framing.BEGIN] + (Framing.Stuff(p) + [Framing.END]) == c + Framing.Frame(p)
  {
    assert p[..0] == [];
  }

  lemma FrameLast(c: seq<byte>, p: seq<byte>)
    ensures c + [Framing.BEGIN] + Framing.Stuff(p[..|p|]) + [Framing.END] == c + Framing.Frame(p)
    ensures |Framing.Stuff(p[..|p|])| + 2 == |Framing.Frame(p)|
  {
    assert p[..|p|] == p;
  }

  /** `PROTO_AddRb`, which is `QUEUE_Puts`. The ring is at most 32767 bytes long, so that the count
      returned fits the function's I16 result. */
  method AddRb(rb: Ring, packet: seq<byte>) returns (r: int)
    requires rb.Valid() && rb.size <= 32767
    modifies rb, rb.data
    ensures rb.Valid() && rb.data == old(rb.data) && rb.size == old(rb.size)
    ensures rb.Contents() == MqttQueue.AfterPut(old(rb.Contents()), packet, rb.size)
    ensures r == if MqttQueue.Accepts(old(rb.Contents()), packet, rb.size) then |Framing.Frame(packet)| else -1
  {
    hide Framing.Frame, Framing.Stuff, Framing.StuffByte;
    ghost var c := rb.Contents();
    var i := 2;
    var put := rb.Put(Framing.BEGIN);
    FrameFirst(c, packet);
    if put == -1 {
      CutOff(c, packet, c + [Framing.BEGIN], Framing.Stuff(packet) + [Framing.END], rb.size);
      assert (c + [Framing.BEGIN])[..rb.size] == c;
      return -1;
    }
    var k := 0;
    while k < |packet|
      invariant 0 <= k <= |packet| && i == 2 + |Framing.Stuff(packet[..k])|
      invariant rb.Valid() && rb.data == old(rb.data) && rb.size == old(rb.size)
      invariant rb.Contents() == c + [Framing.BEGIN] + Framing.Stuff(packet[..k])
    {
      FrameAroundByte(c, packet, k);
      Framing.StuffNext(packet, k);
      StuffByteLength(packet[k]);
      var ok := AddByte(rb, packet[k]);
      if !ok {
        FrameAround(c, packet, k + 1);
        CutOff(c, packet, c + [Framing.BEGIN] + Framing.Stuff(packet[..k + 1]),
               Framing.Stuff(packet[k + 1..]) + [Framing.END], rb.size);
        return -1;
      }
      i := i + if packet[k] == Framing.ESCAPE || packet[k] == Framing.BEGIN || packet[k] == Framing.END then 2 else 1;
      k := k + 1;
    }
    ghost var x := rb.Contents();
    FrameLast(c, packet);
    put := rb.Put(Framing.END);
    if put == -1 {
      assert x + [Framing.END] + [] == c + Framing.Frame(packet);
      CutOff(c, packet, x + [Framing.END], [], rb.size);
      assert (x + [Framing.END])[..rb.size] == x;
      return -1;
    }
    assert |x + [Framing.END]| == |c| + |Framing.Frame(packet)|;
    return i;
  }

  lemma StuffByteLength(b: byte)
    ensures |Framing.StuffByte(b)| == if b == Framing.ESCAPE || b == Framing.BEGIN || b == Framing.END then 2 else 1
  {
  }
}
