/** What a circular buffer holds: the run of `count` cells from `start` on, wrapping at `size`. */
module RingView {
  import opened Bytes

  /** A position at most one lap ahead, brought back into the buffer. */
  function Wrap(p: nat, size: nat): (w: int)
    ensures p < 2 * size ==> 0 <= w < size
  {
    if p < size then p else p - size
  }

  ghost predicate InRing(d: seq<byte>, size: nat, start: nat, count: nat) {
    0 < size <= |d| && start < size && count <= size
  }

  ghost function View(d: seq<byte>, size: nat, start: nat, count: nat): (v: seq<byte>)
    requires InRing(d, size, start, count)
    ensures |v| == count
  {
    seq(count, k requires 0 <= k < count => d[Wrap(start + k, size)])
  }

  /** Storing into the first free cell appends. */
  lemma ViewPut(d: seq<byte>, size: nat, start: nat, count: nat, c: byte)
    requires InRing(d, size, start, count) && count < size
    ensures var w := Wrap(start + count, size);
            View(d[w := c], size, start, count + 1) == View(d, size, start, count) + [c]
  {
    var w := Wrap(start + count, size);
    var v := View(d[w := c], size, start, count + 1);
    forall k | 0 <= k < count ensures v[k] == View(d, size, start, count)[k] {
      assert Wrap(start + k, size) != w;
    }
  }

  /** Moving the start past the oldest cell removes it. */
  lemma ViewGet(d: seq<byte>, size: nat, start: nat, count: nat)
    requires InRing(d, size, start, count) && count > 0
    ensures View(d, size, start, count)
         == [d[start]] + View(d, size, Wrap(start + 1, size), count - 1)
  {
    var v, rest := View(d, size, start, count), View(d, size, Wrap(start + 1, size), count - 1);
    assert Wrap(start + 0, size) == start && v[0] == d[Wrap(start + 0, size)];
    forall k | 0 < k < count ensures v[k] == rest[k - 1] {
      assert Wrap(Wrap(start + 1, size) + (k - 1), size) == Wrap(start + k, size);
    }
  }
}
