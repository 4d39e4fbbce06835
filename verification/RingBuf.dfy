/** The byte ring of ringbuf.c. */
module RingBuf {
  import opened Bytes
  import opened RingView

  class Ring {
    var data: array<byte>
    var readPos: nat
    var writePos: nat
    var fillCnt: nat
    var size: nat

    ghost predicate Valid()
      reads this
    {
      && 2 <= size <= data.Length && readPos < size && fillCnt <= size
      && writePos == Wrap(readPos + fillCnt, size)
    }

    /** The bytes in the ring, oldest first. */
    ghost function Contents(): (s: seq<byte>)
      requires Valid()
      reads this, data
      ensures |s| == fillCnt
    {
      View(data[..], size, readPos, fillCnt)
    }

    constructor (capacity: nat)
      ensures data.Length == capacity && fresh(data)
    {
      data := new byte[capacity];
      readPos, writePos, fillCnt, size := 0, 0, 0, 0;
    }

    /** `RINGBUF_Init` */
    method Init(buf: array<byte>, size0: nat) returns (r: int)
      requires size0 <= buf.Length
      modifies this
      ensures size0 < 2 ==> r == -1 && unchanged(this)
      ensures size0 >= 2 ==> r == 0 && Valid() && Contents() == [] && data == buf && size == size0
    {
      if size0 < 2 { return -1; }
      data, readPos, writePos, fillCnt, size := buf, 0, 0, 0, size0;
      return 0;
    }

    /** `RINGBUF_Put` */
    method Put(c: byte) returns (r: int)
      requires Valid()
      modifies this`fillCnt, this`writePos, data
      ensures Valid()
      ensures r == if old(fillCnt) < size then 0 else -1
      ensures Contents() == if old(fillCnt) < size then old(Contents()) + [c] else old(Contents())
    {
      if fillCnt >= size { return -1; }
      hide View;
      ViewPut(data[..], size, readPos, fillCnt, c);
      ghost var stored := data[..][writePos := c];
      fillCnt := fillCnt + 1;
      data[writePos] := c;
      writePos := writePos + 1;
      if writePos >= size { writePos := 0; }
      assert data[..] == stored;
      return 0;
    }

    /** `RINGBUF_Get` */
    method Get() returns (r: int, c: byte)
      requires Valid()
      modifies this`fillCnt, this`readPos
      ensures Valid()
      ensures r == if old(fillCnt) > 0 then 0 else -1
      ensures old(fillCnt) > 0 ==> [c] + Contents() == old(Contents())
      ensures old(fillCnt) == 0 ==> Contents() == old(Contents()) == []
    {
      c := 0;
      if fillCnt <= 0 { return -1, c; }
      hide View;
      ViewGet(data[..], size, readPos, fillCnt);
      fillCnt := fillCnt - 1;
      c := data[readPos];
      readPos := readPos + 1;
      if readPos >= size { readPos := 0; }
      return 0, c;
    }
  }
}
