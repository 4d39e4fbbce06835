/** What minifying takes out and what it leaves, in the bytes themselves: the cases that make up any
    text, and that comments and white space can stand between the parts of one without a trace. */
module JsonComments {
  import opened Bytes
  import opened JsonText
  import opened JsonGrammar
  import opened JsonMinify

  /** From i to j the text goes on without a line end. */
  ghost predicate OneLine(s: seq<byte>, i: nat, j: nat) {
    i <= j <= |s| && (forall k :: i <= k < j ==> s[k] != 0x0A) && (j < |s| ==> s[j] == 0x0A)
  }

  /** The first star and slash at or behind i are at j and j + 1. */
  ghost predicate FirstClose(s: seq<byte>, i: nat, j: nat) {
    && i <= j && j + 1 < |s| && s[j] == 0x2A && s[j + 1] == 0x2F
    && forall k :: i <= k < j ==> !(s[k] == 0x2A && s[k + 1] == 0x2F)
  }

  /** From i to j stands the inside of a literal: bytes that are no quote, and backslashes with any byte
      behind them. The quote follows. */
  predicate Inside(s: seq<byte>, i: nat, j: nat)
    decreases j - i
  {
    if i >= j then i == j < |s| && s[j] == 0x22
    else j < |s| && s[i] != 0x22 && Inside(s, if s[i] == 0x5C then i + 2 else i + 1, j)
  }

  lemma {:induction false} LineEnds(s: seq<byte>, i: nat, j: nat)
    requires NoNul(s) && OneLine(s, i, j)
    ensures LineEnd(s, i) == j
    decreases j - i
  {
    if i < j { LineEnds(s, i + 1, j); }
  }

  lemma {:induction false} BlockEnds(s: seq<byte>, i: nat, j: nat)
    requires NoNul(s) && FirstClose(s, i, j)
    ensures CommentEnd(s, i) == j
    decreases j - i
  {
    if i < j { BlockEnds(s, i + 1, j); }
  }

  lemma {:induction false} LiteralEnds(s: seq<byte>, i: nat, j: nat)
    requires NoNul(s) && Inside(s, i, j)
    ensures ScanEnd(s, i) == j
    decreases j - i
  {
    if i < j { LiteralEnds(s, if s[i] == 0x5C then i + 2 else i + 1, j); }
  }

  /** A line comment goes, up to the end of its line. */
  lemma LineGoes(s: seq<byte>, i: nat, j: nat)
    requires NoNul(s) && Occurs(s, i, [0x2F, 0x2F]) && OneLine(s, i + 2, j)
    ensures Minified(s, i) == Minified(s, j)
  {
    OccursAt(s, i, [0x2F, 0x2F], 0);
    OccursAt(s, i, [0x2F, 0x2F], 1);
    LineEnds(s, i + 1, j);
  }

  /** A block comment goes, up to the first close behind its opening slash. */
  lemma BlockGoes(s: seq<byte>, i: nat, j: nat)
    requires NoNul(s) && Occurs(s, i, [0x2F, 0x2A]) && FirstClose(s, i + 1, j)
    ensures Minified(s, i) == Minified(s, j + 2)
  {
    OccursAt(s, i, [0x2F, 0x2A], 0);
    OccursAt(s, i, [0x2F, 0x2A], 1);
    BlockEnds(s, i + 1, j);
  }

  /** Space, tab, carriage return and line feed go; other control characters stay. */
  lemma SpaceGoes(s: seq<byte>, i: nat)
    requires i < |s| && s[i] in {0x20, 0x09, 0x0D, 0x0A}
    ensures Minified(s, i) == Minified(s, i + 1)
  {
  }

  /** A literal stays, whatever it contains. */
  lemma LiteralStays(s: seq<byte>, i: nat, j: nat)
    requires NoNul(s) && i < |s| && s[i] == 0x22 && Inside(s, i + 1, j)
    ensures j < |s| && Minified(s, i) == Prepend(s[i..j + 1], Minified(s, j + 1))
  {
    LiteralEnds(s, i + 1, j);
    InsideEnds(s, i + 1, j);
  }

  lemma {:induction false} InsideEnds(s: seq<byte>, i: nat, j: nat)
    requires Inside(s, i, j)
    ensures i <= j < |s| && s[j] == 0x22
    decreases j - i
  {
    if i < j { InsideEnds(s, if s[i] == 0x5C then i + 2 else i + 1, j); }
  }

  /** Any other byte stays, a slash too if neither a slash nor a star follows it. */
  lemma OtherStays(s: seq<byte>, i: nat)
    requires i < |s| && s[i] !in {0, 0x20, 0x09, 0x0D, 0x0A, 0x22}
    requires s[i] == 0x2F ==> At(s, i + 1) !in {0x2F, 0x2A}
    ensures Minified(s, i) == Prepend([s[i]], Minified(s, i + 1))
  {
  }

  // A text in parts

  /** What a text is made of. */
  datatype Part =
    | Space(b: byte)
    | Line(text: seq<byte>)
    | Block(text: seq<byte>)
    | Literal(inside: seq<byte>)
    | Other(b: byte)

  function Spelled(p: Part): seq<byte> {
    match p
    case Space(b) => [b]
    case Line(x) => [0x2F, 0x2F] + x
    case Block(x) => [0x2F, 0x2A] + x + [0x2A, 0x2F]
    case Literal(x) => [0x22] + x + [0x22]
    case Other(b) => [b]
  }

  /** What is left of a part. */
  function Kept(p: Part): seq<byte> {
    if p.Literal? || p.Other? then Spelled(p) else []
  }

  function SpelledAll(ps: seq<Part>): seq<byte> {
    if ps == [] then [] else Spelled(ps[0]) + SpelledAll(ps[1..])
  }

  function KeptAll(ps: seq<Part>): seq<byte> {
    if ps == [] then [] else Kept(ps[0]) + KeptAll(ps[1..])
  }

  /** A part with the text `rest` behind it: a line comment lasts to the end of its line, a block
      comment and a literal are closed once, and a slash that is kept begins no comment. */
  ghost predicate Fits(p: Part, rest: seq<byte>) {
    match p
    case Space(b) => b in {0x20, 0x09, 0x0D, 0x0A}
    case Line(x) => 0x0A !in x && (rest != [] ==> rest[0] == 0x0A)
    case Block(x) => FirstClose([0x2A] + x + [0x2A, 0x2F], 0, |x| + 1)
    case Literal(x) => Inside(x + [0x22], 0, |x|)
    case Other(b) => b !in {0x20, 0x09, 0x0D, 0x0A, 0x22} && (b == 0x2F ==> At(rest, 0) !in {0x2F, 0x2A})
  }

  ghost predicate AllFit(ps: seq<Part>) {
    ps != [] ==> Fits(ps[0], SpelledAll(ps[1..])) && AllFit(ps[1..])
  }

  lemma {:induction false} InsideMoves(s: seq<byte>, i: nat, x: seq<byte>, j: nat)
    requires Occurs(s, i, x + [0x22]) && j <= |x| && Inside(x + [0x22], j, |x|)
    ensures Inside(s, i + j, i + |x|)
    decreases |x| - j
  {
    var y := x + [0x22];
    assert s[i + j] == s[i..i + |y|][j];
    if j < |x| {
      var k := if x[j] == 0x5C then j + 2 else j + 1;
      InsideEnds(y, k, |x|);
      InsideMoves(s, i, x, k);
    }
  }

  lemma CloseMoves(s: seq<byte>, i: nat, y: seq<byte>, j: nat)
    requires Occurs(s, i, y) && FirstClose(y, 0, j)
    ensures FirstClose(s, i, i + j)
  {
    var t := s[i..i + |y|];
    assert forall k :: i <= k < i + |y| ==> s[k] == t[k - i];
  }

  lemma LineMinified(s: seq<byte>, i: nat, x: seq<byte>)
    requires NoNul(s) && Occurs(s, i, [0x2F, 0x2F] + x) && 0x0A !in x
    requires var n := i + 2 + |x|; n < |s| ==> s[n] == 0x0A
    ensures Minified(s, i) == Minified(s, i + 2 + |x|)
  {
    hide Minified;
    OccursConcat(s, i, [0x2F, 0x2F], x);
    var n := i + 2 + |x|;
    var t := s[i + 2..n];
    forall k | i + 2 <= k < n ensures s[k] != 0x0A { assert t[k - (i + 2)] == s[k]; }
    LineGoes(s, i, n);
  }

  lemma BlockMinified(s: seq<byte>, i: nat, x: seq<byte>)
    requires NoNul(s) && Occurs(s, i, [0x2F, 0x2A] + x + [0x2A, 0x2F])
    requires FirstClose([0x2A] + x + [0x2A, 0x2F], 0, |x| + 1)
    ensures Minified(s, i) == Minified(s, i + |x| + 4)
  {
    hide Minified, FirstClose, Occurs;
    var y := [0x2A] + x + [0x2A, 0x2F];
    assert [0x2F, 0x2A] + x + [0x2A, 0x2F] == [0x2F] + y;
    assert [0x2F, 0x2A] + x + [0x2A, 0x2F] == [0x2F, 0x2A] + (x + [0x2A, 0x2F]);
    OccursConcat(s, i, [0x2F], y);
    OccursConcat(s, i, [0x2F, 0x2A], x + [0x2A, 0x2F]);
    CloseMoves(s, i + 1, y, |x| + 1);
    BlockGoes(s, i, i + 1 + |x| + 1);
  }

  lemma LiteralMinified(s: seq<byte>, i: nat, x: seq<byte>)
    requires NoNul(s) && Occurs(s, i, [0x22] + x + [0x22]) && Inside(x + [0x22], 0, |x|)
    ensures Minified(s, i) == Prepend([0x22] + x + [0x22], Minified(s, i + |x| + 2))
  {
    hide Minified, Inside;
    OccursAt(s, i, [0x22] + x + [0x22], 0);
    assert [0x22] + x + [0x22] == [0x22] + (x + [0x22]);
    OccursConcat(s, i, [0x22], x + [0x22]);
    InsideMoves(s, i + 1, x, 0);
    LiteralStays(s, i, i + 1 + |x|);
  }

  /** One part at position i of a longer text. */
  lemma PartMinified(s: seq<byte>, i: nat, p: Part)
    requires NoNul(s) && i <= |s| && Occurs(s, i, Spelled(p)) && Fits(p, s[i + |Spelled(p)|..])
    ensures Minified(s, i) == Prepend(Kept(p), Minified(s, i + |Spelled(p)|))
  {
    hide Minified, Inside, FirstClose, Occurs;
    PrependNothing(Minified(s, i + |Spelled(p)|));
    OccursEnds(s, i, Spelled(p));
    Behind(s, i + |Spelled(p)|);
    match p
    case Space(b) =>
      OccursAt(s, i, [b], 0);
      SpaceGoes(s, i);
    case Line(x) => LineMinified(s, i, x);
    case Block(x) => BlockMinified(s, i, x);
    case Literal(x) => LiteralMinified(s, i, x);
    case Other(b) =>
      OccursAt(s, i, [b], 0);
      OtherStays(s, i);
  }

  lemma OccursEnds(s: seq<byte>, i: nat, t: seq<byte>)
    requires Occurs(s, i, t)
    ensures i + |t| <= |s|
  {
  }

  lemma Behind(s: seq<byte>, n: nat)
    requires n <= |s|
    ensures At(s[n..], 0) == At(s, n) && (n < |s| <==> s[n..] != []) && (n < |s| ==> s[n..][0] == s[n])
  {
  }

  lemma PrependNothing(o: Outcome)
    ensures Prepend([], o) == o
  {
    if o.Clean? { assert [] + o.text == o.text; }
  }

  lemma {:induction false} PartsMinified(s: seq<byte>, i: nat, ps: seq<Part>)
    requires NoNul(s) && i <= |s| && s[i..] == SpelledAll(ps) && AllFit(ps)
    ensures Minified(s, i) == Clean(KeptAll(ps))
    decreases |ps|
  {
    hide Fits, Spelled, Kept;
    if ps == [] {
      assert i == |s|;
    } else {
      var p, n := ps[0], i + |Spelled(ps[0])|;
      assert s[i..n] == s[i..][..|Spelled(p)|] == Spelled(p);
      assert s[n..] == s[i..][|Spelled(p)|..] == SpelledAll(ps[1..]);
      PartMinified(s, i, p);
      PartsMinified(s, n, ps[1..]);
    }
  }

  /** Of any text in parts, minifying leaves the literals and the other bytes, in order, and nothing of
      the comments and the white space between them. */
  lemma MinifiesParts(ps: seq<Part>)
    requires AllFit(ps) && NoNul(SpelledAll(ps))
    ensures Minified(SpelledAll(ps), 0) == Clean(KeptAll(ps))
  {
    var s := SpelledAll(ps);
    assert s[0..] == s;
    PartsMinified(s, 0, ps);
  }
}
