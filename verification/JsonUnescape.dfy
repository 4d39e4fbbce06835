/** What the two passes of parse_string promise each other, and what \u escapes become. */
module JsonUnescape {
  import opened Bytes
  import opened JsonText
  import opened JsonGrammar
  import Utf8

  /** Four hex digits stand at i. */
  predicate HexAt(s: seq<byte>, i: nat) {
    HexValue(At(s, i)) >= 0 && HexValue(At(s, i + 1)) >= 0 && HexValue(At(s, i + 2)) >= 0 && HexValue(At(s, i + 3)) >= 0
  }

  lemma ScanPlain(s: seq<byte>, i: nat)
    requires HexValue(At(s, i)) >= 0
    ensures ScanEnd(s, i) == ScanEnd(s, i + 1) && ScanCount(s, i) == 1 + ScanCount(s, i + 1)
  {
  }

  lemma ScanHex(s: seq<byte>, i: nat)
    requires HexAt(s, i)
    ensures ScanEnd(s, i) == ScanEnd(s, i + 4) && ScanCount(s, i) == 4 + ScanCount(s, i + 4)
  {
    ScanPlain(s, i);
    ScanPlain(s, i + 1);
    ScanPlain(s, i + 2);
    ScanPlain(s, i + 3);
  }

  /** A backslash before p and a `u` at p: the scan counts them once, and each hex digit once. */
  lemma ScanUnicode(s: seq<byte>, p: nat)
    requires At(s, p) == BACKSLASH && HexAt(s, p + 2)
    ensures ScanEnd(s, p) == ScanEnd(s, p + 6) && ScanCount(s, p) == 5 + ScanCount(s, p + 6)
  {
    ScanHex(s, p + 2);
  }

  /** One step of the decode pass stays on the boundaries of the scan pass, and writes no more bytes
      than the scan counted for it. */
  lemma UnitFitsScan(s: seq<byte>, p: nat)
    requires p < ScanEnd(s, p) && DecodeUnit(s, p, ScanEnd(s, p)).Good?
    ensures var u := DecodeUnit(s, p, ScanEnd(s, p));
            ScanEnd(s, u.next) == ScanEnd(s, p) && ScanCount(s, u.next) + |u.bytes| <= ScanCount(s, p)
  {
    if At(s, p) == BACKSLASH && At(s, p + 1) == 0x75 {
      ScanUnicode(s, p);
      if 0xD800 <= Hex4(s, p + 2) <= 0xDBFF {
        ScanUnicode(s, p + 6);
      }
    }
  }

  /** The bytes the decode pass writes never outnumber those the scan pass made room for, and the
      pass ends exactly on the closing quote. */
  lemma {:induction false} DecodeFitsScan(s: seq<byte>, p: nat)
    requires DecodeUntil(s, p, ScanEnd(s, p)).Good?
    ensures DecodeUntil(s, p, ScanEnd(s, p)).next == ScanEnd(s, p)
    ensures |DecodeUntil(s, p, ScanEnd(s, p)).bytes| <= ScanCount(s, p)
    decreases ScanEnd(s, p) - p
  {
    if p < ScanEnd(s, p) {
      UnitFitsScan(s, p);
      DecodeFitsScan(s, DecodeUnit(s, p, ScanEnd(s, p)).next);
    }
  }

  lemma ScanStarts(s: seq<byte>, p: nat)
    requires p < ScanEnd(s, p)
    ensures At(s, p) != 0
  {
  }

  lemma UnicodeHasNoNul(s: seq<byte>, p: nat, end: nat)
    requires DecodeUnicode(s, p, end).Good?
    ensures NoNul(DecodeUnicode(s, p, end).bytes) && DecodeUnicode(s, p, end).next <= |s|
  {
    hide Utf8.Encode;
    var uc := Hex4(s, p + 1);
    Utf8NoNul(uc);
    if 0xD800 <= uc <= 0xDBFF { Utf8NoNul(Utf8.FromPair(uc, Hex4(s, p + 7))); }
  }

  lemma Utf8NoNul(uc: nat)
    requires 0 < uc < 0x11_0000
    ensures NoNul(Utf8.Encode(uc))
  {
  }

  /** The only escape that produces a NUL is a backslash in front of the terminator. */
  lemma UnitHasNoNul(s: seq<byte>, p: nat)
    requires NoNul(s) && p < ScanEnd(s, p) && DecodeUnit(s, p, ScanEnd(s, p)).Good?
    ensures var u := DecodeUnit(s, p, ScanEnd(s, p)); NoNul(u.bytes) <==> u.next <= |s|
  {
    ScanStarts(s, p);
    hide ScanEnd;
    var end := ScanEnd(s, p);
    if At(s, p) == BACKSLASH && At(s, p + 1) == 0x75 {
      hide Utf8.Encode, Hex4;
      UnicodeHasNoNul(s, p + 1, end);
    } else {
      var u := DecodeUnit(s, p, end);
      assert p < |s| && |u.bytes| == 1;
      assert u.bytes[0] == 0 <==> u.next > |s|;
    }
  }

  /** Closed or not, an accepted literal is a C string again, with no NUL inside, exactly when the
      scan did not step over the terminator, as it does behind a last backslash. */
  lemma {:induction false} DecodedHasNoNul(s: seq<byte>, p: nat)
    requires NoNul(s) && p <= |s| && DecodeUntil(s, p, ScanEnd(s, p)).Good?
    ensures NoNul(DecodeUntil(s, p, ScanEnd(s, p)).bytes) <==> ScanEnd(s, p) <= |s|
    decreases ScanEnd(s, p) - p
  {
    if p < ScanEnd(s, p) {
      hide DecodeUnit, ScanEnd;
      var u := DecodeUnit(s, p, ScanEnd(s, p));
      UnitFitsScan(s, p);
      UnitHasNoNul(s, p);
      var rest := DecodeUntil(s, u.next, ScanEnd(s, p)).bytes;
      NoNulConcat(u.bytes, rest);
      if u.next <= |s| { DecodedHasNoNul(s, u.next); } else { ScanAhead(s, u.next); }
    }
  }

  lemma ScanAhead(s: seq<byte>, i: nat)
    ensures i <= ScanEnd(s, i)
  {
  }

  /** A second escape that completes the surrogate pair begun at p. */
  predicate LowSurrogateAt(s: seq<byte>, q: nat, end: nat) {
    q + 6 <= end && At(s, q + 1) == BACKSLASH && At(s, q + 2) == 0x75 && 0xDC00 <= Hex4(s, q + 3) <= 0xDFFF
  }

  /** Which \u escapes are accepted, exactly, and that an accepted one becomes the UTF-8 encoding of
      its code point (section 7 of RFC 8259). A \u0000, or one whose digits are not hex, is refused. */
  lemma UnicodeEscape(s: seq<byte>, p: nat, end: nat)
    ensures var uc := Hex4(s, p + 1); var r := DecodeUnicode(s, p, end);
      && (r.Good? <==> p + 4 < end && uc != 0
                       && (Utf8.IsScalar(uc) || (0xD800 <= uc <= 0xDBFF && LowSurrogateAt(s, p + 4, end))))
      && (r.Good? && Utf8.IsScalar(uc) ==> r.next == p + 5 && Utf8.Decode(r.bytes) == uc)
      && (r.Good? && !Utf8.IsScalar(uc) ==>
            r.next == p + 11 && Utf8.Decode(r.bytes) == Utf8.FromPair(uc, Hex4(s, p + 7)))
  {
    hide Utf8.Decode, Utf8.Encode, Hex4;
    var uc := Hex4(s, p + 1);
    if Utf8.IsScalar(uc) {
      Utf8.DecodeEncode(uc);
    } else if 0xD800 <= uc <= 0xDBFF && LowSurrogateAt(s, p + 4, end) {
      Utf8.DecodeEncode(Utf8.FromPair(uc, Hex4(s, p + 7)));
    }
  }
}
