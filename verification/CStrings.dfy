/** The string routines the printers call, on NUL-terminated arrays. */
module CStrings {
  import opened Bytes

  /** The array holds the text t from its start, and a NUL after it. */
  ghost predicate Holds(a: array<byte>, t: seq<byte>)
    reads a
  {
    |t| < a.Length && a[..|t|] == t && a[|t|] == 0
  }

  /** `os_strlen(a + from)`; the terminator is at `end`. */
  method StrLen(a: array<byte>, from: nat, ghost end: nat) returns (n: nat)
    requires from <= end < a.Length && a[end] == 0 && forall k :: from <= k < end ==> a[k] != 0
    ensures n == end - from
  {
    n := 0;
    while a[from + n] != 0
      invariant n <= end - from
      decreases end - from - n
    {
      n := n + 1;
    }
  }

  /** `os_memcpy` of t to out + at. */
  method Copy(out: array<byte>, at: nat, t: seq<byte>) returns (end: nat)
    requires at + |t| <= out.Length
    modifies out
    ensures end == at + |t| && out[..end] == old(out[..at]) + t
    ensures forall k :: end <= k < out.Length ==> out[k] == old(out[k])
  {
    ghost var before := out[..at];
    var i := 0;
    while i < |t|
      invariant 0 <= i <= |t| && out[..at + i] == before + t[..i]
      invariant forall k :: at + i <= k < out.Length ==> out[k] == old(out[k])
    {
      out[at + i] := t[i];
      i := i + 1;
      assert t[..i] == t[..i - 1] + [t[i - 1]];
    }
    end := at + |t|;
    assert t[..|t|] == t;
  }

  /** `os_strcpy(out + at, t)`; also what `os_sprintf` does with the text it has formatted. */
  method StrCpy(out: array<byte>, at: nat, t: seq<byte>)
    requires at + |t| < out.Length
    modifies out
    ensures out[..at + |t|] == old(out[..at]) + t && out[at + |t|] == 0
  {
    var end := Copy(out, at, t);
    out[end] := 0;
  }
}
