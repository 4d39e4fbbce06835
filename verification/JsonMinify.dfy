/** `cJSON_Minify`: what it leaves of a text, and the in-place rewriting that computes it. */
module JsonMinify {
  import opened Bytes
  import opened JsonText
  import opened JsonGrammar
  import opened JsonRoundTrip

  /** PastEnd: the code would run its read pointer past the terminator (an unclosed literal or
      block comment). */
  datatype Outcome = PastEnd | Clean(text: seq<byte>)

  function Prepend(t: seq<byte>, o: Outcome): Outcome {
    match o
    case PastEnd => PastEnd
    case Clean(rest) => Clean(t + rest)
  }

  predicate IsMinifySpace(b: byte) {
    b == SPACE || b == TAB || b == CARRIAGE || b == NEWLINE
  }

  function LineEnd(s: seq<byte>, i: nat): (j: nat)
    ensures i <= j && (i <= |s| ==> j <= |s|)
    decreases |s| - i
  {
    if i < |s| && s[i] != 0 && s[i] != NEWLINE then LineEnd(s, i + 1) else i
  }

  function CommentEnd(s: seq<byte>, i: nat): (j: nat)
    ensures i <= j && (i <= |s| ==> j <= |s|)
    decreases |s| - i
  {
    if i < |s| && s[i] != 0 && !(s[i] == STAR && At(s, i + 1) == SLASH) then CommentEnd(s, i + 1) else i
  }

  /** What is kept of the text from position i on. */
  function Minified(s: seq<byte>, i: nat): Outcome
    decreases |s| - i
  {
    var b := At(s, i);
    if b == 0 then (if i <= |s| then Clean([]) else PastEnd)
    else if IsMinifySpace(b) then Minified(s, i + 1)
    else if b == SLASH && At(s, i + 1) == SLASH then Minified(s, LineEnd(s, i + 1))
    else if b == SLASH && At(s, i + 1) == STAR then Minified(s, CommentEnd(s, i + 1) + 2)
    else if b == QUOTE then
      var e := ScanEnd(s, i + 1);
      if e >= |s| || s[e] != QUOTE then PastEnd else Prepend(s[i..e + 1], Minified(s, e + 1))
    else Prepend([b], Minified(s, i + 1))
  }

  /** Minifying from i to j keeps the bytes t. */
  ghost predicate Leaves(s: seq<byte>, i: nat, j: nat, t: seq<byte>) {
    Minified(s, i) == Prepend(t, Minified(s, j))
  }

  lemma LeavesNothing(s: seq<byte>, i: nat)
    ensures Leaves(s, i, i, [])
  {
  }

  lemma LeavesBoth(s: seq<byte>, i: nat, j: nat, k: nat, t: seq<byte>, u: seq<byte>)
    requires Leaves(s, i, j, t) && Leaves(s, j, k, u)
    ensures Leaves(s, i, k, t + u)
  {
    hide Minified;
    if Minified(s, k).Clean? {
      assert t + (u + Minified(s, k).text) == (t + u) + Minified(s, k).text;
    }
  }

  lemma LeavesAll(s: seq<byte>, t: seq<byte>)
    requires Leaves(s, 0, |s|, t)
    ensures Minified(s, 0) == Clean(t)
  {
    assert Minified(s, |s|) == Clean([]);
    hide Minified;
  }

  lemma LeavesAfterBlank(s: seq<byte>, i: nat, j: nat, k: nat, t: seq<byte>)
    requires Leaves(s, i, j, t) && Leaves(s, j, k, [])
    ensures Leaves(s, i, k, t)
  {
    LeavesBoth(s, i, j, k, t, []);
    assert t + [] == t;
  }

  /** The bytes a[json..] still are those of the string s and its terminator. */
  ghost predicate Unread(a: array<byte>, json: nat, s: seq<byte>)
    reads a
  {
    json <= |s| < a.Length && forall k :: json <= k <= |s| ==> a[k] == At(s, k)
  }

  /** One byte moves down from the read position to the write position. */
  method CopyByte(a: array<byte>, json: nat, into: nat, ghost s: seq<byte>)
    requires into <= json < |s| && Unread(a, json, s)
    modifies a
    ensures Unread(a, json + 1, s) && a[..into + 1] == old(a[..into]) + [s[json]]
    ensures forall k :: |s| <= k < a.Length ==> a[k] == old(a[k])
  {
    a[into] := a[json];
  }

  lemma ScanStep(s: seq<byte>, j: nat)
    requires At(s, j) != 0 && At(s, j) != QUOTE
    ensures ScanEnd(s, j) == ScanEnd(s, if At(s, j) == BACKSLASH then j + 2 else j + 1)
    ensures ScanEnd(s, j) >= if At(s, j) == BACKSLASH then j + 2 else j + 1
  {
  }

  lemma ScanStop(s: seq<byte>, j: nat)
    requires At(s, j) == 0 || At(s, j) == QUOTE
    ensures ScanEnd(s, j) == j
  {
  }

  /** One turn of the literal loop: copies a character, or a backslash and what it escapes. */
  method CopyUnit(a: array<byte>, json0: nat, into0: nat, ghost s: seq<byte>) returns (json: nat, into: nat)
    requires into0 <= json0 < ScanEnd(s, json0) < |s| && Unread(a, json0, s)
    modifies a
    ensures json0 < json <= ScanEnd(s, json0) == ScanEnd(s, json) && into == into0 + (json - json0)
    ensures Unread(a, json, s) && a[..into] == old(a[..into0]) + s[json0..json]
    ensures forall k :: |s| <= k < a.Length ==> a[k] == old(a[k])
  {
    ghost var kept := a[..into0];
    json, into := json0, into0;
    ScanStep(s, json);
    hide ScanEnd;
    if a[json] == BACKSLASH {
      CopyByte(a, json, into, s);
      json, into := json + 1, into + 1;
      assert a[..into] == kept + s[json0..json];
    } else {
      assert kept + s[json0..json] == kept;
    }
    CopyByte(a, json, into, s);
    json, into := json + 1, into + 1;
    SliceOn(kept, s, json0, json - 1, json);
  }

  /** The branch for literals: copies one, closing quote included. */
  method CopyLiteral(a: array<byte>, json0: nat, into0: nat, ghost s: seq<byte>) returns (json: nat, into: nat)
    requires into0 <= json0 < |s| && Unread(a, json0, s) && a[json0] == QUOTE && NoNul(s)
    requires ScanEnd(s, json0 + 1) < |s|
    modifies a
    ensures json == ScanEnd(s, json0 + 1) + 1 && into == into0 + (json - json0)
    ensures Unread(a, json, s) && a[..into] == old(a[..into0]) + s[json0..json]
    ensures forall k :: |s| <= k < a.Length ==> a[k] == old(a[k])
  {
    hide ScanEnd, Minified;
    ghost var kept, end := a[..into0], ScanEnd(s, json0 + 1);
    CopyByte(a, json0, into0, s);
    json, into := json0 + 1, into0 + 1;
    while a[json] != 0 && a[json] != QUOTE
      invariant json0 < json <= end && into == into0 + (json - json0)
      invariant Unread(a, json, s) && ScanEnd(s, json) == end
      invariant forall k :: |s| <= k < a.Length ==> a[k] == old(a[k])
      invariant a[..into] == kept + s[json0..json]
      decreases end - json
    {
      ScanStep(s, json);
      ghost var before := json;
      json, into := CopyUnit(a, json, into, s);
      SliceOn(kept, s, json0, before, json);
    }
    ScanStop(s, json);
    CopyByte(a, json, into, s);
    json, into := json + 1, into + 1;
    SliceOn(kept, s, json0, json - 1, json);
  }

  lemma SliceOn(kept: seq<byte>, s: seq<byte>, i: nat, j: nat, k: nat)
    requires i <= j <= k <= |s|
    ensures kept + s[i..j] + s[j..k] == kept + s[i..k]
    ensures k == j + 1 ==> s[j..k] == [s[j]]
  {
  }

  /** The branches for comments: where the read pointer stops. */
  method SkipLine(a: array<byte>, json0: nat, ghost s: seq<byte>) returns (json: nat)
    requires json0 < |s| && Unread(a, json0, s) && a[json0] == SLASH && NoNul(s)
    ensures json0 <= json == LineEnd(s, json0 + 1) <= |s|
  {
    json := json0;
    assert LineEnd(s, json) == LineEnd(s, json + 1);
    while a[json] != 0 && a[json] != NEWLINE
      invariant json0 <= json <= |s| && LineEnd(s, json) == LineEnd(s, json0 + 1)
      decreases |s| - json
    {
      json := json + 1;
    }
  }

  method SkipBlock(a: array<byte>, json0: nat, ghost s: seq<byte>) returns (json: nat)
    requires json0 < |s| && Unread(a, json0, s) && a[json0] == SLASH && NoNul(s)
    ensures json0 <= json == CommentEnd(s, json0 + 1) <= |s|
  {
    json := json0;
    assert CommentEnd(s, json) == CommentEnd(s, json + 1);
    while a[json] != 0 && !(a[json] == STAR && a[json + 1] == SLASH)
      invariant json0 <= json <= |s| && CommentEnd(s, json) == CommentEnd(s, json0 + 1)
      decreases |s| - json
    {
      json := json + 1;
    }
  }

  // What each branch of the loop keeps

  lemma BlankStep(s: seq<byte>, i: nat)
    requires IsMinifySpace(At(s, i))
    ensures Minified(s, i) == Minified(s, i + 1)
  {
  }

  lemma LineStep(s: seq<byte>, i: nat)
    requires At(s, i) == SLASH && At(s, i + 1) == SLASH
    ensures Minified(s, i) == Minified(s, LineEnd(s, i + 1))
  {
  }

  lemma BlockStep(s: seq<byte>, i: nat)
    requires At(s, i) == SLASH && At(s, i + 1) == STAR && Minified(s, i).Clean?
    ensures Minified(s, i) == Minified(s, CommentEnd(s, i + 1) + 2)
    ensures CommentEnd(s, i + 1) + 2 <= |s|
  {
  }

  lemma LiteralStep(s: seq<byte>, i: nat)
    requires At(s, i) == QUOTE && Minified(s, i).Clean?
    ensures var e := ScanEnd(s, i + 1); e < |s| && Leaves(s, i, e + 1, s[i..e + 1]) && Minified(s, e + 1).Clean?
  {
  }

  lemma OtherStep(s: seq<byte>, i: nat)
    requires At(s, i) != 0 && !IsMinifySpace(At(s, i)) && At(s, i) != QUOTE
    requires At(s, i) == SLASH ==> At(s, i + 1) != SLASH && At(s, i + 1) != STAR
    ensures Leaves(s, i, i + 1, [At(s, i)])
    ensures Minified(s, i).Clean? ==> Minified(s, i + 1).Clean?
  {
  }

  /** `cJSON_Minify` on the C string s held in the array. The second precondition says that literals
      and block comments are closed, which is what keeps the code's read pointer inside the string. */
  method Minify(a: array<byte>, ghost s: seq<byte>) returns (into: nat)
    requires Unread(a, 0, s) && NoNul(s)
    requires Minified(s, 0).Clean?
    modifies a
    ensures into <= |s| && Clean(a[..into]) == Minified(s, 0) && a[into] == 0
    ensures forall k :: |s| < k < a.Length ==> a[k] == old(a[k])
  {
    hide Minified, Leaves;
    var json := 0;
    into := 0;
    LeavesNothing(s, 0);
    while a[json] != 0
      invariant into <= json && Unread(a, json, s)
      invariant forall k :: |s| < k < a.Length ==> a[k] == old(a[k])
      invariant Minified(s, json).Clean? && Leaves(s, 0, json, a[..into])
      decreases |s| - json
    {
      ghost var start, kept := json, a[..into];
      if a[json] == SPACE || a[json] == TAB || a[json] == CARRIAGE || a[json] == NEWLINE {
        BlankStep(s, json);
        json := json + 1;
        LeavesSame(s, start, json, kept);
      } else if a[json] == SLASH && a[json + 1] == SLASH {
        LineStep(s, json);
        json := SkipLine(a, json, s);
        LeavesSame(s, start, json, kept);
      } else if a[json] == SLASH && a[json + 1] == STAR {
        BlockStep(s, json);
        json := SkipBlock(a, json, s);
        json := json + 2;
        LeavesSame(s, start, json, kept);
      } else if a[json] == QUOTE {
        LiteralStep(s, json);
        json, into := CopyLiteral(a, json, into, s);
        LeavesBoth(s, 0, start, json, kept, s[start..json]);
      } else {
        OtherStep(s, json);
        CopyByte(a, json, into, s);
        json, into := json + 1, into + 1;
        LeavesBoth(s, 0, start, json, kept, [s[start]]);
      }
    }
    StopsAtTerminator(s, json, a[..into]);
    a[into] := 0;
  }

  lemma LeavesSame(s: seq<byte>, i: nat, j: nat, t: seq<byte>)
    requires Leaves(s, 0, i, t) && Minified(s, i) == Minified(s, j)
    ensures Leaves(s, 0, j, t)
  {
  }

  lemma StopsAtTerminator(s: seq<byte>, i: nat, t: seq<byte>)
    requires i <= |s| && At(s, i) == 0 && NoNul(s) && Leaves(s, 0, i, t)
    ensures Minified(s, 0) == Clean(t)
  {
    assert i == |s|;
    LeavesAll(s, t);
  }

  // Printed texts

  lemma {:induction false} MinifyBlank(s: seq<byte>, i: nat, w: seq<byte>)
    requires Occurs(s, i, w) && forall k :: 0 <= k < |w| ==> IsMinifySpace(w[k])
    ensures Leaves(s, i, i + |w|, [])
    decreases |w|
  {
    if w != [] {
      hide Occurs;
      OccursAt(s, i, w, 0);
      assert w == [w[0]] + w[1..];
      OccursConcat(s, i, [w[0]], w[1..]);
      MinifyBlank(s, i + 1, w[1..]);
    }
  }

  /** Bytes that mean nothing to the minifier. */
  predicate IsPlain(b: byte) {
    b > 32 && b != SLASH && b != QUOTE
  }

  lemma {:induction false} MinifyPlain(s: seq<byte>, i: nat, t: seq<byte>)
    requires Occurs(s, i, t) && forall k :: 0 <= k < |t| ==> IsPlain(t[k])
    ensures Leaves(s, i, i + |t|, t)
    decreases |t|
  {
    hide Occurs;
    if t != [] {
      OccursAt(s, i, t, 0);
      assert t == [t[0]] + t[1..];
      OccursConcat(s, i, [t[0]], t[1..]);
      MinifyPlain(s, i + 1, t[1..]);
      LeavesBoth(s, i, i + 1, i + |t|, [t[0]], t[1..]);
    }
  }

  lemma MinifyQuoted(s: seq<byte>, i: nat, str: seq<byte>)
    requires NoNul(str) && Occurs(s, i, Quoted(str))
    ensures Leaves(s, i, i + |Quoted(str)|, Quoted(str))
  {
    var e := i + 1 + |Escape(str)|;
    assert At(s, i) == QUOTE && At(s, e) == QUOTE && e < |s| && ScanEnd(s, i + 1) == e by {
      hide Occurs, Minified, Escape, ScanEnd;
      OccursConcat(s, i, [QUOTE] + Escape(str), [QUOTE]);
      OccursConcat(s, i, [QUOTE], Escape(str));
      OccursAt(s, i, [QUOTE], 0);
      OccursAt(s, e, [QUOTE], 0);
      UnescapeText(s, i + 1, str);
    }
    assert s[i..e + 1] == Quoted(str);
    hide Escape, ScanEnd;
  }

  lemma {:induction false} DigitsArePlain(n: nat)
    ensures forall k :: 0 <= k < |Digits(n)| ==> IsPlain(Digits(n)[k])
  {
    DigitsAreDigits(n);
  }

  lemma MinifyLeaf(s: seq<byte>, i: nat, v: Value, depth: nat, fmt: bool, depth': nat)
    requires !v.Array? && !v.Object? && v.Printable() && Occurs(s, i, Text(v, depth, fmt))
    ensures Leaves(s, i, i + |Text(v, depth, fmt)|, Text(v, depth', false))
  {
    hide Leaves, Occurs, Quoted;
    match v
    case Null => MinifyPlain(s, i, NULL_TEXT);
    case False => MinifyPlain(s, i, FALSE_TEXT);
    case True => MinifyPlain(s, i, TRUE_TEXT);
    case Number(d) =>
      DigitsArePlain(if d.Floor < 0 then -d.Floor else d.Floor);
      MinifyPlain(s, i, Decimal(d.Floor));
    case Str(str) => MinifyQuoted(s, i, str);
  }

  /** Minifying past one printed tree keeps its unformatted text. */
  lemma {:induction false} MinifyText(s: seq<byte>, i: nat, v: Value, depth: nat, fmt: bool, depth': nat)
    requires v.Printable() && Occurs(s, i, Text(v, depth, fmt))
    ensures Leaves(s, i, i + |Text(v, depth, fmt)|, Text(v, depth', false))
    decreases v.Size(), 1
  {
    hide Leaves, Occurs, Text;
    match v
    case Array(c) => MinifyArray(s, i, c, depth, fmt, depth');
    case Object(c) => MinifyObject(s, i, c, depth, fmt, depth');
    case _ => MinifyLeaf(s, i, v, depth, fmt, depth');
  }

  lemma {:induction false} MinifyArray(s: seq<byte>, i: nat, c: Items, depth: nat, fmt: bool, depth': nat)
    requires c.Printable() && Occurs(s, i, Text(Array(c), depth, fmt))
    ensures Leaves(s, i, i + |Text(Array(c), depth, fmt)|, Text(Array(c), depth', false))
    decreases c.Size(), 1
  {
    hide Leaves, Occurs, ItemsText;
    var body, after := ItemsText(c, depth + 1, fmt), i + |Text(Array(c), depth, fmt)|;
    OccursConcat(s, i, [OPEN_BRACKET] + body, [CLOSE_BRACKET]);
    OccursConcat(s, i, [OPEN_BRACKET], body);
    MinifyPlain(s, i, [OPEN_BRACKET]);
    MinifyItems(s, i + 1, c, depth + 1, fmt, depth' + 1);
    MinifyPlain(s, after - 1, [CLOSE_BRACKET]);
    var short := ItemsText(c, depth' + 1, false);
    LeavesBoth(s, i, i + 1, after - 1, [OPEN_BRACKET], short);
    LeavesBoth(s, i, after - 1, after, [OPEN_BRACKET] + short, [CLOSE_BRACKET]);
  }

  function Comma(last: bool): seq<byte> {
    if last then [] else [COMMA]
  }

  ghost function Newline(fmt: bool): seq<byte> {
    if fmt then [NEWLINE] else []
  }

  ghost function Tab(fmt: bool): seq<byte> {
    if fmt then [TAB] else []
  }

  ghost function Space(fmt: bool, last: bool): seq<byte> {
    if fmt && !last then [SPACE] else []
  }

  lemma ItemPieces(s: seq<byte>, i: nat, c: Items, depth: nat, fmt: bool) returns (e: nat, n: nat)
    requires c.Item? && c.Printable() && Occurs(s, i, ItemsText(c, depth, fmt))
    ensures Occurs(s, i, Text(c.value, depth, fmt)) && e == i + |Text(c.value, depth, fmt)|
    ensures Occurs(s, e, Comma(c.next.NoItem?))
    ensures Occurs(s, e + |Comma(c.next.NoItem?)|, Space(fmt, c.next.NoItem?))
    ensures n == e + |Comma(c.next.NoItem?)| + |Space(fmt, c.next.NoItem?)|
    ensures Occurs(s, n, ItemsText(c.next, depth, fmt))
    ensures n + |ItemsText(c.next, depth, fmt)| == i + |ItemsText(c, depth, fmt)|
  {
    hide Occurs, Text;
    var last := c.next.NoItem?;
    var first, gap := Text(c.value, depth, fmt), if last then [] else ItemGap(fmt);
    OccursConcat(s, i, first + gap, ItemsText(c.next, depth, fmt));
    OccursConcat(s, i, first, gap);
    e := i + |first|;
    n := e + |gap|;
    assert gap == Comma(last) + Space(fmt, last);
    OccursConcat(s, e, Comma(last), Space(fmt, last));
  }

  lemma {:induction false} MinifyItems(s: seq<byte>, i: nat, c: Items, depth: nat, fmt: bool, depth': nat)
    requires c.Printable() && Occurs(s, i, ItemsText(c, depth, fmt))
    ensures Leaves(s, i, i + |ItemsText(c, depth, fmt)|, ItemsText(c, depth', false))
    decreases c.Size(), 0
  {
    hide Leaves, Occurs, Text, ItemsText, Minified, MembersText;
    if c.NoItem? {
      NoText(depth, fmt, depth');
      LeavesNothing(s, i);
    } else {
      var e, n := ItemPieces(s, i, c, depth, fmt);
      var comma, after := Comma(c.next.NoItem?), i + |ItemsText(c, depth, fmt)|;
      MinifyText(s, i, c.value, depth, fmt, depth');
      MinifyPlain(s, e, comma);
      MinifyBlank(s, e + |comma|, Space(fmt, c.next.NoItem?));
      MinifyItems(s, n, c.next, depth, fmt, depth');
      var v, rest := Text(c.value, depth', false), ItemsText(c.next, depth', false);
      LeavesAfterBlank(s, e, e + |comma|, n, comma);
      LeavesBoth(s, i, e, n, v, comma);
      LeavesBoth(s, i, n, after, v + comma, rest);
      UnformattedItems(c, depth');
    }
  }

  lemma NoText(depth: nat, fmt: bool, depth': nat)
    ensures ItemsText(NoItem, depth, fmt) == ItemsText(NoItem, depth', false) == []
    ensures MembersText(NoMember, depth, fmt) == MembersText(NoMember, depth', false) == []
  {
  }

  lemma UnformattedItems(c: Items, depth: nat)
    requires c.Item? && c.Printable()
    ensures ItemsText(c, depth, false)
         == Text(c.value, depth, false) + Comma(c.next.NoItem?) + ItemsText(c.next, depth, false)
  {
    hide Text;
  }

  lemma {:induction false} MinifyObject(s: seq<byte>, i: nat, c: Members, depth: nat, fmt: bool, depth': nat)
    requires c.Printable() && Occurs(s, i, Text(Object(c), depth, fmt))
    ensures Leaves(s, i, i + |Text(Object(c), depth, fmt)|, Text(Object(c), depth', false))
    decreases c.Size(), 1
  {
    hide Leaves, Occurs, MembersText;
    var body, after := MembersText(c, depth + 1, fmt), i + |Text(Object(c), depth, fmt)|;
    var opening, indent := Opening(fmt), Indent(depth, fmt);
    var k, e := i + |opening|, i + |opening| + |body|;
    OccursConcat(s, i, opening + body + indent, [CLOSE_BRACE]);
    OccursConcat(s, i, opening + body, indent);
    OccursConcat(s, i, opening, body);
    assert opening == [OPEN_BRACE] + Newline(fmt);
    OccursConcat(s, i, [OPEN_BRACE], Newline(fmt));
    MinifyPlain(s, i, [OPEN_BRACE]);
    MinifyBlank(s, i + 1, Newline(fmt));
    MinifyMembers(s, k, c, depth + 1, fmt, depth' + 1);
    MinifyBlank(s, e, indent);
    MinifyPlain(s, after - 1, [CLOSE_BRACE]);
    var short := MembersText(c, depth' + 1, false);
    LeavesAfterBlank(s, i, i + 1, k, [OPEN_BRACE]);
    LeavesAfterBlank(s, k, e, after - 1, short);
    LeavesBoth(s, i, k, after - 1, [OPEN_BRACE], short);
    LeavesBoth(s, i, after - 1, after, [OPEN_BRACE] + short, [CLOSE_BRACE]);
    assert Text(Object(c), depth', false) == [OPEN_BRACE] + short + [CLOSE_BRACE];
  }

  lemma MemberPieces(s: seq<byte>, i: nat, c: Members, depth: nat, fmt: bool)
    returns (k: nat, g: nat, w: nat, e: nat, n: nat)
    requires c.Member? && c.Printable() && Occurs(s, i, MembersText(c, depth, fmt))
    ensures Occurs(s, i, Indent(depth, fmt)) && k == i + |Indent(depth, fmt)|
    ensures Occurs(s, k, Quoted(c.key)) && g == k + |Quoted(c.key)|
    ensures Occurs(s, g, [COLON]) && Occurs(s, g + 1, Tab(fmt)) && w == g + 1 + |Tab(fmt)|
    ensures Occurs(s, w, Text(c.value, depth, fmt)) && e == w + |Text(c.value, depth, fmt)|
    ensures Occurs(s, e, Comma(c.next.NoMember?)) && Occurs(s, e + |Comma(c.next.NoMember?)|, Newline(fmt))
    ensures n == e + |Comma(c.next.NoMember?)| + |Newline(fmt)|
    ensures Occurs(s, n, MembersText(c.next, depth, fmt))
    ensures n + |MembersText(c.next, depth, fmt)| == i + |MembersText(c, depth, fmt)|
  {
    hide Occurs, Text, Quoted;
    var indent, key, v := Indent(depth, fmt), Quoted(c.key), Text(c.value, depth, fmt);
    var gap, end := KeyGap(fmt), MemberEnd(c.next.NoMember?, fmt);
    OccursConcat(s, i, indent + key + gap + v + end, MembersText(c.next, depth, fmt));
    OccursConcat(s, i, indent + key + gap + v, end);
    OccursConcat(s, i, indent + key + gap, v);
    OccursConcat(s, i, indent + key, gap);
    OccursConcat(s, i, indent, key);
    k := i + |indent|;
    g := k + |key|;
    w := g + |gap|;
    e := w + |v|;
    n := e + |end|;
    assert gap == [COLON] + Tab(fmt) && end == Comma(c.next.NoMember?) + Newline(fmt);
    OccursConcat(s, g, [COLON], Tab(fmt));
    OccursConcat(s, e, Comma(c.next.NoMember?), Newline(fmt));
  }

  lemma UnformattedMembers(c: Members, depth: nat)
    requires c.Member? && c.Printable()
    ensures MembersText(c, depth, false)
         == Quoted(c.key) + [COLON] + Text(c.value, depth, false) + Comma(c.next.NoMember?)
            + MembersText(c.next, depth, false)
  {
    hide Text, Quoted;
  }

  lemma {:induction false} MinifyMembers(s: seq<byte>, i: nat, c: Members, depth: nat, fmt: bool, depth': nat)
    requires c.Printable() && Occurs(s, i, MembersText(c, depth, fmt))
    ensures Leaves(s, i, i + |MembersText(c, depth, fmt)|, MembersText(c, depth', false))
    decreases c.Size(), 0
  {
    hide Occurs, Leaves, Text, Quoted, MembersText, ItemsText, Minified;
    if c.NoMember? {
      NoText(depth, fmt, depth');
      LeavesNothing(s, i);
    } else {
      var k, g, w, e, n := MemberPieces(s, i, c, depth, fmt);
      var after, comma := i + |MembersText(c, depth, fmt)|, Comma(c.next.NoMember?);
      MinifyBlank(s, i, Indent(depth, fmt));
      MinifyQuoted(s, k, c.key);
      MinifyPlain(s, g, [COLON]);
      MinifyBlank(s, g + 1, Tab(fmt));
      MinifyText(s, w, c.value, depth, fmt, depth');
      MinifyPlain(s, e, comma);
      MinifyBlank(s, e + |comma|, Newline(fmt));
      MinifyMembers(s, n, c.next, depth, fmt, depth');
      var key, v, rest := Quoted(c.key), Text(c.value, depth', false), MembersText(c.next, depth', false);
      LeavesBoth(s, i, k, g, [], key);
      assert [] + key == key;
      LeavesBoth(s, i, g, g + 1, key, [COLON]);
      LeavesAfterBlank(s, i, g + 1, w, key + [COLON]);
      LeavesBoth(s, i, w, e, key + [COLON], v);
      LeavesBoth(s, i, e, e + |comma|, key + [COLON] + v, comma);
      LeavesAfterBlank(s, i, e + |comma|, n, key + [COLON] + v + comma);
      LeavesBoth(s, i, n, after, key + [COLON] + v + comma, rest);
      UnformattedMembers(c, depth');
    }
  }

  /** Minifying a printed text, formatted or not, gives the unformatted one; so formatting is undone
      and a second run changes nothing. */
  lemma MinifyUndoesFormatting(v: Value, fmt: bool)
    requires v.Printable()
    ensures Minified(Text(v, 0, fmt), 0) == Clean(Text(v, 0, false))
  {
    hide Text, Minified, Occurs, Leaves;
    var t := Text(v, 0, fmt);
    OccursWhole(t);
    MinifyText(t, 0, v, 0, fmt, 0);
    LeavesAll(t, Text(v, 0, false));
  }

  /** On texts that are not JSON a second run may go on: two slashes kept apart by a blank come
      together and then open a comment. */
  lemma MinifyTwiceCanDiffer()
    ensures Minified([SLASH, SPACE, SLASH], 0) == Clean([SLASH, SLASH])
    ensures Minified([SLASH, SLASH], 0) == Clean([])
  {
    var s: seq<byte> := [SLASH, SPACE, SLASH];
    assert Minified(s, 3) == Clean([]);
    assert Minified(s, 2) == Clean([SLASH]);
    assert Minified(s, 1) == Clean([SLASH]);
    var t: seq<byte> := [SLASH, SLASH];
    assert LineEnd(t, 1) == 2;
    assert Minified(t, 2) == Clean([]);
  }
}
