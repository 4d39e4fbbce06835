/** Exactly when minifying changes nothing, and when a second run has nothing left to do. */
module JsonMinifyTwice {
  import opened Bytes
  import opened JsonText
  import opened JsonGrammar
  import opened JsonMinify

  /** A comment opens at position i. */
  predicate OpensComment(s: seq<byte>, i: nat) {
    At(s, i) == SLASH && (At(s, i + 1) == SLASH || At(s, i + 1) == STAR)
  }

  /** From position i on there is neither white space nor a comment outside of string literals, and
      every literal is closed. */
  predicate Bare(t: seq<byte>, i: nat)
    decreases |t| - i
  {
    var b := At(t, i);
    if b == 0 then i <= |t|
    else if IsMinifySpace(b) || OpensComment(t, i) then false
    else if b == QUOTE then
      var e := ScanEnd(t, i + 1);
      e < |t| && t[e] == QUOTE && Bare(t, e + 1)
    else Bare(t, i + 1)
  }

  lemma {:induction false} BareFrom(t: seq<byte>, i: nat)
    requires NoNul(t) && i <= |t|
    ensures Bare(t, i) ==> Minified(t, i) == Clean(t[i..])
    ensures Minified(t, i).Clean? ==> |Minified(t, i).text| <= |t| - i
    ensures Minified(t, i).Clean? && |Minified(t, i).text| == |t| - i ==> Bare(t, i)
    decreases |t| - i
  {
    hide ScanEnd, LineEnd, CommentEnd;
    var b := At(t, i);
    if b == 0 {
    } else if IsMinifySpace(b) {
      BareFrom(t, i + 1);
    } else if b == SLASH && At(t, i + 1) == SLASH {
      LineOpen(t, i);
      BareFrom(t, LineEnd(t, i + 1));
    } else if b == SLASH && At(t, i + 1) == STAR {
      var k := CommentEnd(t, i + 1) + 2;
      if k <= |t| { BareFrom(t, k); }
    } else if b == QUOTE {
      var e := ScanEnd(t, i + 1);
      if e < |t| && t[e] == QUOTE {
        BareFrom(t, e + 1);
        assert t[i..e + 1] + t[e + 1..] == t[i..];
      }
    } else {
      BareFrom(t, i + 1);
      assert [b] + t[i + 1..] == t[i..];
    }
  }

  lemma LineOpen(t: seq<byte>, i: nat)
    requires At(t, i) == SLASH && i <= |t|
    ensures i < LineEnd(t, i + 1) <= |t|
  {
  }

  /** A run changes nothing if and only if the text is bare. */
  lemma MinifyChangesNothingIff(t: seq<byte>)
    requires NoNul(t)
    ensures Minified(t, 0) == Clean(t) <==> Bare(t, 0)
  {
    hide Minified, Bare;
    BareFrom(t, 0);
    assert t[0..] == t;
  }

  // A second run

  /** The first byte at or after position i that a run keeps; its position. */
  function NextKept(s: seq<byte>, i: nat): nat
    decreases |s| - i
  {
    var b := At(s, i);
    if b == 0 then i
    else if IsMinifySpace(b) then NextKept(s, i + 1)
    else if b == SLASH && At(s, i + 1) == SLASH then NextKept(s, LineEnd(s, i + 1))
    else if b == SLASH && At(s, i + 1) == STAR then NextKept(s, CommentEnd(s, i + 1) + 2)
    else i
  }

  /** No slash that a run keeps has a slash or a star as the next byte kept. */
  predicate Apart(s: seq<byte>, i: nat)
    decreases |s| - i
  {
    var b := At(s, i);
    if b == 0 then true
    else if IsMinifySpace(b) then Apart(s, i + 1)
    else if b == SLASH && At(s, i + 1) == SLASH then Apart(s, LineEnd(s, i + 1))
    else if b == SLASH && At(s, i + 1) == STAR then Apart(s, CommentEnd(s, i + 1) + 2)
    else if b == QUOTE then Apart(s, ScanEnd(s, i + 1) + 1)
    else
      var next := At(s, NextKept(s, i + 1));
      !(b == SLASH && (next == SLASH || next == STAR)) && Apart(s, i + 1)
  }

  lemma {:induction false} FirstKept(s: seq<byte>, i: nat)
    requires Minified(s, i).Clean?
    ensures At(Minified(s, i).text, 0) == At(s, NextKept(s, i))
    decreases |s| - i
  {
    hide ScanEnd, LineEnd, CommentEnd;
    var b := At(s, i);
    if b == 0 {
    } else if IsMinifySpace(b) {
      FirstKept(s, i + 1);
    } else if b == SLASH && At(s, i + 1) == SLASH {
      FirstKept(s, LineEnd(s, i + 1));
    } else if b == SLASH && At(s, i + 1) == STAR {
      FirstKept(s, CommentEnd(s, i + 1) + 2);
    }
  }

  lemma {:induction false} ScanShift(p: seq<byte>, t: seq<byte>, j: nat)
    ensures ScanEnd(p + t, |p| + j) == |p| + ScanEnd(t, j)
    decreases |t| - j
  {
    if At(t, j) != QUOTE && At(t, j) != 0 {
      ScanShift(p, t, if At(t, j) == BACKSLASH then j + 2 else j + 1);
    }
  }

  /** Bareness looks only ahead. */
  lemma {:induction false} BareShift(p: seq<byte>, t: seq<byte>, j: nat)
    ensures Bare(p + t, |p| + j) <==> Bare(t, j)
    decreases |t| - j
  {
    hide ScanEnd;
    var b := At(t, j);
    assert At(p + t, |p| + j) == b && At(p + t, |p| + j + 1) == At(t, j + 1);
    if b == 0 || IsMinifySpace(b) || OpensComment(t, j) {
    } else if b == QUOTE {
      ScanShift(p, t, j + 1);
      BareShift(p, t, ScanEnd(t, j + 1) + 1);
    } else {
      BareShift(p, t, j + 1);
    }
  }

  /** A literal cut out of a text is scanned to the same end. */
  lemma {:induction false} ScanCut(s: seq<byte>, i: nat, j: nat, rest: seq<byte>)
    requires i <= j && ScanEnd(s, j) < |s| && s[ScanEnd(s, j)] == QUOTE
    ensures ScanEnd(s[i..ScanEnd(s, j) + 1] + rest, j - i) == ScanEnd(s, j) - i
    decreases |s| - j
  {
    var e := ScanEnd(s, j);
    assert At(s[i..e + 1] + rest, j - i) == At(s, j);
    if At(s, j) != QUOTE && At(s, j) != 0 {
      ScanCut(s, i, if At(s, j) == BACKSLASH then j + 2 else j + 1, rest);
    }
  }

  lemma {:induction false} SecondRun(s: seq<byte>, i: nat)
    requires NoNul(s) && i <= |s| && Minified(s, i).Clean?
    ensures NoNul(Minified(s, i).text)
    ensures Bare(Minified(s, i).text, 0) <==> Apart(s, i)
    decreases |s| - i
  {
    hide ScanEnd, LineEnd, CommentEnd, NoNul, Bare;
    var b := At(s, i);
    if b == 0 {
      EmptyIsBare();
    } else if IsMinifySpace(b) {
      SecondRun(s, i + 1);
    } else if b == SLASH && At(s, i + 1) == SLASH {
      LineOpen(s, i);
      SecondRun(s, LineEnd(s, i + 1));
    } else if b == SLASH && At(s, i + 1) == STAR {
      BlockStep(s, i);
      SecondRun(s, CommentEnd(s, i + 1) + 2);
    } else if b == QUOTE {
      LiteralStep(s, i);
      SecondRun(s, ScanEnd(s, i + 1) + 1);
      LiteralAhead(s, i, Minified(s, ScanEnd(s, i + 1) + 1).text);
    } else {
      SecondRun(s, i + 1);
      FirstKept(s, i + 1);
      ByteAhead(b, Minified(s, i + 1).text);
    }
  }

  lemma EmptyIsBare()
    ensures Bare([], 0) && NoNul([])
  {
  }

  lemma LiteralAhead(s: seq<byte>, i: nat, rest: seq<byte>)
    requires NoNul(s) && NoNul(rest) && At(s, i) == QUOTE
    requires ScanEnd(s, i + 1) < |s| && s[ScanEnd(s, i + 1)] == QUOTE
    ensures var t := s[i..ScanEnd(s, i + 1) + 1] + rest; NoNul(t) && (Bare(t, 0) <==> Bare(rest, 0))
  {
    hide ScanEnd;
    var e := ScanEnd(s, i + 1);
    ScanCut(s, i, i + 1, rest);
    BareShift(s[i..e + 1], rest, 0);
  }

  lemma ByteAhead(b: byte, rest: seq<byte>)
    requires NoNul(rest) && b != 0 && !IsMinifySpace(b) && b != QUOTE
    ensures NoNul([b] + rest)
    ensures Bare([b] + rest, 0)
       <==> !(b == SLASH && (At(rest, 0) == SLASH || At(rest, 0) == STAR)) && Bare(rest, 0)
  {
    BareShift([b], rest, 0);
  }

  /** After one run a second one changes nothing if and only if, in the text the first was given, no
      kept slash had a slash or a star as the next byte kept. */
  lemma MinifyTwiceIff(s: seq<byte>)
    requires NoNul(s) && Minified(s, 0).Clean?
    ensures var t := Minified(s, 0).text; Minified(t, 0) == Clean(t) <==> Apart(s, 0)
  {
    hide Minified, Bare, Apart;
    SecondRun(s, 0);
    MinifyChangesNothingIff(Minified(s, 0).text);
  }
}
