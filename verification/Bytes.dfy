/** Bytes as the C code sees them, and texts addressed by position. */
module Bytes {

  type byte = x: int | 0 <= x < 256

  /** The byte a pointer `i` bytes into the C string `s` reads: the terminator lies at |s|,
      and everything after it is taken to read as NUL too. */
  function At(s: seq<byte>, i: nat): byte {
    if i < |s| then s[i] else 0
  }

  /** The text `t` stands in `s` at position `i`. */
  ghost predicate Occurs(s: seq<byte>, i: nat, t: seq<byte>) {
    i + |t| <= |s| && s[i..i + |t|] == t
  }

  /** A C string holds no NUL before its terminator. */
  ghost predicate NoNul(s: seq<byte>) {
    forall k :: 0 <= k < |s| ==> s[k] != 0
  }

  lemma OccursConcat(s: seq<byte>, i: nat, a: seq<byte>, b: seq<byte>)
    ensures Occurs(s, i, a + b) <==> Occurs(s, i, a) && Occurs(s, i + |a|, b)
  {
    if Occurs(s, i, a + b) {
      assert s[i..i + |a|] == s[i..i + |a + b|][..|a|];
      assert s[i + |a|..i + |a| + |b|] == s[i..i + |a + b|][|a|..];
    }
    if Occurs(s, i, a) && Occurs(s, i + |a|, b) {
      assert s[i..i + |a + b|] == s[i..i + |a|] + s[i + |a|..i + |a| + |b|];
    }
  }

  lemma OccursAt(s: seq<byte>, i: nat, t: seq<byte>, k: nat)
    requires Occurs(s, i, t) && k < |t|
    ensures At(s, i + k) == t[k] && i + k < |s|
  {
    assert s[i..i + |t|][k] == s[i + k];
  }

  lemma OccursWhole(s: seq<byte>)
    ensures Occurs(s, 0, s)
  {
    assert s[0..|s|] == s;
  }

  lemma NoNulConcat(a: seq<byte>, b: seq<byte>)
    ensures NoNul(a + b) <==> NoNul(a) && NoNul(b)
  {
    if NoNul(a + b) {
      forall k | 0 <= k < |a| ensures a[k] != 0 { assert (a + b)[k] == a[k]; }
      forall k | 0 <= k < |b| ensures b[k] != 0 { assert (a + b)[|a| + k] == b[k]; }
    }
  }
}
