/** The text of a list of children as the concatenation of one piece per child. */
module JsonPieces {
  import opened Bytes
  import opened JsonText

  ghost function Concat(ps: seq<seq<byte>>): seq<byte> {
    if ps == [] then [] else Concat(ps[..|ps| - 1]) + ps[|ps| - 1]
  }

  lemma {:induction false} ConcatHead(p: seq<byte>, ps: seq<seq<byte>>)
    ensures Concat([p] + ps) == p + Concat(ps)
    decreases |ps|
  {
    var n := |ps|;
    if n == 0 {
      assert [p] + ps == [p] && [p][..0] == [];
      assert Concat([p]) == Concat([]) + p;
    } else {
      assert ([p] + ps)[..n] == [p] + ps[..n - 1] && ([p] + ps)[n] == ps[n - 1];
      ConcatHead(p, ps[..n - 1]);
      assert p + Concat(ps[..n - 1]) + ps[n - 1] == p + (Concat(ps[..n - 1]) + ps[n - 1]);
    }
  }

  lemma ConcatNext(ps: seq<seq<byte>>, i: nat)
    requires i < |ps|
    ensures Concat(ps[..i + 1]) == Concat(ps[..i]) + ps[i]
  {
    assert ps[..i + 1][..i] == ps[..i];
  }

  // Arrays

  ghost function ItemTexts(c: Items, depth: nat, fmt: bool): seq<seq<byte>>
    requires c.Printable()
    decreases c.Size()
  {
    if c.NoItem? then [] else [Text(c.value, depth, fmt)] + ItemTexts(c.next, depth, fmt)
  }

  ghost function ItemPiece(ts: seq<seq<byte>>, i: nat, fmt: bool): seq<byte>
    requires i < |ts|
  {
    ts[i] + if i == |ts| - 1 then [] else ItemGap(fmt)
  }

  ghost function ItemPieces(ts: seq<seq<byte>>, fmt: bool): seq<seq<byte>> {
    seq(|ts|, i requires 0 <= i < |ts| => ItemPiece(ts, i, fmt))
  }

  lemma ItemPiecesHead(c: Items, depth: nat, fmt: bool)
    requires c.Item? && c.Printable()
    ensures |ItemTexts(c, depth, fmt)| > 0
    ensures ItemPieces(ItemTexts(c, depth, fmt), fmt)
         == [ItemPiece(ItemTexts(c, depth, fmt), 0, fmt)] + ItemPieces(ItemTexts(c.next, depth, fmt), fmt)
  {
    hide Text;
  }

  lemma ItemsTextHead(c: Items, depth: nat, fmt: bool)
    requires c.Item? && c.Printable()
    ensures |ItemTexts(c, depth, fmt)| > 0
    ensures ItemsText(c, depth, fmt) == ItemPiece(ItemTexts(c, depth, fmt), 0, fmt) + ItemsText(c.next, depth, fmt)
  {
    hide Text;
    ItemTextsEmpty(c.next, depth, fmt);
  }

  lemma {:induction false} ItemsTextPieces(c: Items, depth: nat, fmt: bool)
    requires c.Printable()
    ensures ItemsText(c, depth, fmt) == Concat(ItemPieces(ItemTexts(c, depth, fmt), fmt))
    decreases c.Size()
  {
    if c.NoItem? {
      assert ItemsText(c, depth, fmt) == [];
    } else {
      ItemsTextPieces(c.next, depth, fmt);
      ItemPiecesHead(c, depth, fmt);
      ItemsTextHead(c, depth, fmt);
      ConcatHead(ItemPiece(ItemTexts(c, depth, fmt), 0, fmt), ItemPieces(ItemTexts(c.next, depth, fmt), fmt));
    }
    hide Text, Concat, ItemPieces, ItemPiece, ItemsText, ItemTexts;
  }

  lemma ItemTextsEmpty(c: Items, depth: nat, fmt: bool)
    requires c.Printable()
    ensures ItemTexts(c, depth, fmt) == [] <==> c.NoItem?
  {
  }

  // Objects

  ghost function Names(c: Members): seq<seq<byte>>
    decreases c.Size()
  {
    if c.NoMember? then [] else [Quoted(c.key)] + Names(c.next)
  }

  ghost function Entries(c: Members, depth: nat, fmt: bool): (ts: seq<seq<byte>>)
    requires c.Printable()
    ensures |ts| == |Names(c)|
    decreases c.Size()
  {
    if c.NoMember? then [] else [Text(c.value, depth, fmt)] + Entries(c.next, depth, fmt)
  }

  ghost function MemberPiece(names: seq<seq<byte>>, ts: seq<seq<byte>>, i: nat, depth: nat, fmt: bool): seq<byte>
    requires i < |ts| == |names|
  {
    Indent(depth, fmt) + names[i] + KeyGap(fmt) + ts[i] + MemberEnd(i == |ts| - 1, fmt)
  }

  ghost function MemberPieces(names: seq<seq<byte>>, ts: seq<seq<byte>>, depth: nat, fmt: bool): seq<seq<byte>>
    requires |ts| == |names|
  {
    seq(|ts|, i requires 0 <= i < |ts| => MemberPiece(names, ts, i, depth, fmt))
  }

  lemma MemberPiecesHead(c: Members, depth: nat, fmt: bool)
    requires c.Member? && c.Printable()
    ensures |Names(c)| == |Entries(c, depth, fmt)| > 0
    ensures MemberPieces(Names(c), Entries(c, depth, fmt), depth, fmt)
         == [MemberPiece(Names(c), Entries(c, depth, fmt), 0, depth, fmt)]
            + MemberPieces(Names(c.next), Entries(c.next, depth, fmt), depth, fmt)
  {
    hide Text, Quoted, Indent, KeyGap, MemberEnd, MemberPiece;
    var names, ts := Names(c.next), Entries(c.next, depth, fmt);
    assert Names(c) == [Quoted(c.key)] + names;
    assert Entries(c, depth, fmt) == [Text(c.value, depth, fmt)] + ts;
    hide Names, Entries;
    forall i: nat | i < |ts| ensures MemberPiece(Names(c), Entries(c, depth, fmt), i + 1, depth, fmt)
                                  == MemberPiece(names, ts, i, depth, fmt) {
      MemberPieceShift(Quoted(c.key), names, Text(c.value, depth, fmt), ts, i, depth, fmt);
    }
  }

  lemma MemberPieceShift(
    n: seq<byte>, names: seq<seq<byte>>, t: seq<byte>, ts: seq<seq<byte>>, i: nat, depth: nat, fmt: bool)
    requires i < |ts| == |names|
    ensures MemberPiece([n] + names, [t] + ts, i + 1, depth, fmt) == MemberPiece(names, ts, i, depth, fmt)
  {
    hide Indent, KeyGap, MemberEnd;
  }

  lemma MembersTextHead(c: Members, depth: nat, fmt: bool)
    requires c.Member? && c.Printable()
    ensures |Names(c)| == |Entries(c, depth, fmt)| > 0
    ensures MembersText(c, depth, fmt)
         == MemberPiece(Names(c), Entries(c, depth, fmt), 0, depth, fmt) + MembersText(c.next, depth, fmt)
  {
    hide Text, Quoted, Indent, KeyGap, MemberEnd;
    assert |Entries(c, depth, fmt)| == 1 <==> c.next.NoMember?;
  }

  lemma {:induction false} MembersTextPieces(c: Members, depth: nat, fmt: bool)
    requires c.Printable()
    ensures MembersText(c, depth, fmt) == Concat(MemberPieces(Names(c), Entries(c, depth, fmt), depth, fmt))
    decreases c.Size()
  {
    if c.NoMember? {
      assert MembersText(c, depth, fmt) == [];
    } else {
      var names, ts := Names(c), Entries(c, depth, fmt);
      MembersTextPieces(c.next, depth, fmt);
      MemberPiecesHead(c, depth, fmt);
      MembersTextHead(c, depth, fmt);
      ConcatHead(MemberPiece(names, ts, 0, depth, fmt),
                 MemberPieces(Names(c.next), Entries(c.next, depth, fmt), depth, fmt));
    }
    hide Text, Quoted, Concat, MemberPieces, MemberPiece, MembersText, Names, Entries;
  }
}
