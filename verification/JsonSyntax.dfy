/** The grammar of section 2 of RFC 8259 as this parser has it, in the bytes themselves, and that the
    parser accepts exactly that: which texts, as which trees, up to which position. */
module JsonSyntax {
  import opened Bytes
  import opened JsonText
  import opened JsonGrammar
  import opened JsonLiterals
  import JsonRoundTrip

  // Numbers

  predicate Digit(b: byte) {
    0x30 <= b <= 0x39
  }

  /** From i to j there are digits, and none at j. */
  ghost predicate DigitRun(s: seq<byte>, i: nat, j: nat) {
    i <= j <= |s| && (forall k :: i <= k < j ==> Digit(s[k])) && !Digit(At(s, j))
  }

  /** The number some digits write at base ten. */
  ghost function Value10(t: seq<byte>): int {
    if t == [] then 0 else 10 * Value10(t[..|t| - 1]) + (t[|t| - 1] as int - 0x30)
  }

  function Power10(k: nat): (p: nat)
    ensures p > 0
  {
    if k == 0 then 1 else 10 * Power10(k - 1)
  }

  /** A number stands from i to n, worth d: perhaps a minus, perhaps one zero, perhaps digits that do
      not begin with zero, perhaps a point and digits. Its parts end at p, q, r and n. */
  ghost predicate NumberParts(s: seq<byte>, i: nat, p: nat, q: nat, r: nat, n: nat, d: real) {
    && i < n <= |s| && (s[i] == 0x2D || Digit(s[i]))
    && p == (if s[i] == 0x2D then i + 1 else i)
    && q == (if At(s, p) == 0x30 then p + 1 else p)
    && (if Digit(At(s, q)) && At(s, q) != 0x30 then DigitRun(s, q, r) else r == q)
    && (if At(s, r) == 0x2E && Digit(At(s, r + 1)) then DigitRun(s, r + 1, n) else n == r)
    && q <= r <= n && Written(if s[i] == 0x2D then -d else d, DigitsOfParts(s, q, r, n), Places(r, n))
  }

  /** The digits before the point and those behind it. */
  function DigitsOfParts(s: seq<byte>, q: nat, r: nat, n: nat): seq<byte>
    requires q <= r <= n <= |s|
  {
    s[q..r] + if n > r then s[r + 1..n] else []
  }

  function Places(r: nat, n: nat): nat {
    if n > r then n - r - 1 else 0
  }

  /** d is the integer that all the digits write, over ten to the number of those behind the point. */
  ghost predicate Written(d: real, digits: seq<byte>, places: nat) {
    d * Power10(places) as real == Value10(digits) as real
  }

  ghost predicate NumberAt(s: seq<byte>, i: nat, n: nat, d: real) {
    exists p: nat, q: nat, r: nat :: NumberParts(s, i, p, q, r, n, d)
  }

  // Values

  ghost predicate BlankTo(s: seq<byte>, i: nat, j: nat) {
    i <= j <= |s| && forall k :: i <= k < j ==> 0 < s[k] <= 32
  }

  /** The value v stands in s from i to n. */
  ghost predicate Stands(s: seq<byte>, i: nat, n: nat, v: Value)
    decreases v, 0
  {
    match v
    case Null => Occurs(s, i, [0x6E, 0x75, 0x6C, 0x6C]) && n == i + 4
    case False => Occurs(s, i, [0x66, 0x61, 0x6C, 0x73, 0x65]) && n == i + 5
    case True => Occurs(s, i, [0x74, 0x72, 0x75, 0x65]) && n == i + 4
    case Number(d) => NumberAt(s, i, n, d)
    case Str(b) => Closed(s, i, b, n)
    case Array(c) => At(s, i) == 0x5B && exists j: nat :: ItemsFrom(s, i, j, n, c)
    case Object(c) => At(s, i) == 0x7B && exists j: nat :: MembersFrom(s, i, j, n, c)
  }

  /** Behind the bracket at i comes white space up to j, and then the items. */
  ghost predicate ItemsFrom(s: seq<byte>, i: nat, j: nat, n: nat, c: Items)
    decreases c, 2
  {
    BlankTo(s, i + 1, j) && if c.NoItem? then At(s, j) == 0x5D && n == j + 1 else ItemsStand(s, j, n, c)
  }

  ghost predicate ItemsStand(s: seq<byte>, i: nat, n: nat, c: Items)
    requires c.Item?
    decreases c, 1
  {
    exists a: nat, e: nat, m: nat :: ItemStands(s, i, a, e, m, n, c)
  }

  /** The first item stands from a to e, and the comma or bracket behind it at m. */
  ghost predicate ItemStands(s: seq<byte>, i: nat, a: nat, e: nat, m: nat, n: nat, c: Items)
    requires c.Item?
    decreases c, 0
  {
    && BlankTo(s, i, a) && Stands(s, a, e, c.value) && BlankTo(s, e, m)
    && if c.next.NoItem? then At(s, m) == 0x5D && n == m + 1
       else At(s, m) == 0x2C && ItemsStand(s, m + 1, n, c.next)
  }

  ghost predicate MembersFrom(s: seq<byte>, i: nat, j: nat, n: nat, c: Members)
    decreases c, 2
  {
    BlankTo(s, i + 1, j) && if c.NoMember? then At(s, j) == 0x7D && n == j + 1 else MembersStand(s, j, n, c)
  }

  ghost predicate MembersStand(s: seq<byte>, i: nat, n: nat, c: Members)
    requires c.Member?
    decreases c, 1
  {
    exists a: nat, k: nat, g: nat, w: nat, e: nat, m: nat :: MemberStands(s, i, a, k, g, w, e, m, n, c)
  }

  /** The first key stands from a to k, its colon at g, its value from w to e, and the comma or brace
      behind it at m. */
  ghost predicate MemberStands(
    s: seq<byte>, i: nat, a: nat, k: nat, g: nat, w: nat, e: nat, m: nat, n: nat, c: Members)
    requires c.Member?
    decreases c, 0
  {
    && BlankTo(s, i, a) && Closed(s, a, c.key, k) && BlankTo(s, k, g) && At(s, g) == 0x3A
    && BlankTo(s, g + 1, w) && Stands(s, w, e, c.value) && BlankTo(s, e, m)
    && if c.next.NoMember? then At(s, m) == 0x7D && n == m + 1
       else At(s, m) == 0x2C && MembersStand(s, m + 1, n, c.next)
  }

  // Reading numbers

  lemma {:induction false} ValueFront(b: byte, t: seq<byte>)
    ensures Value10([b] + t) == (b as int - 0x30) * Power10(|t|) + Value10(t)
    decreases |t|
  {
    hide Power10;
    PowerStep(|t|);
    var all := [b] + t;
    if t == [] {
      assert all == [b] && all[..0] == [];
    } else {
      var init := t[..|t| - 1];
      assert all[..|all| - 1] == [b] + init;
      ValueFront(b, init);
      Distribute(b as int - 0x30, Power10(|init|), Value10(init), t[|t| - 1] as int - 0x30);
    }
  }

  lemma {:induction false} ValueConcat(t: seq<byte>, u: seq<byte>)
    ensures Value10(t + u) == Value10(t) * Power10(|u|) + Value10(u)
    decreases |u|
  {
    hide Power10;
    PowerStep(|u|);
    if u == [] {
      assert t + u == t;
    } else {
      var init := u[..|u| - 1];
      assert (t + u)[..|t + u| - 1] == t + init;
      ValueConcat(t, init);
      LastDigit(t + u, t + init, u[|u| - 1]);
      LastDigit(u, init, u[|u| - 1]);
      hide Value10;
      Distribute(Value10(t), Power10(|init|), Value10(init), u[|u| - 1] as int - 0x30);
    }
  }

  lemma LastDigit(all: seq<byte>, init: seq<byte>, b: byte)
    requires all == init + [b]
    ensures Value10(all) == 10 * Value10(init) + (b as int - 0x30)
  {
    assert all[..|all| - 1] == init;
  }

  lemma Distribute(a: int, p: int, v: int, d: int)
    ensures 10 * (a * p + v) + d == a * (10 * p) + (10 * v + d)
  {
  }

  lemma PowerStep(k: int)
    requires k >= 0
    ensures if k == 0 then Power10(k) == 1 else Power10(k) == 10 * Power10(k - 1)
  {
  }

  /** The digit loop, begun at n, has come to m over these digits. */
  ghost predicate Accumulated(n: real, digits: seq<byte>, m: real) {
    m == n * Power10(|digits|) as real + Value10(digits) as real
  }

  lemma AccumulatesFront(n: real, b: byte, t: seq<byte>, m: real)
    requires Accumulated(n * 10.0 + (b as int - 0x30) as real, t, m)
    ensures Accumulated(n, [b] + t, m)
  {
    ValueFront(b, t);
    PowerStep(|t| + 1);
    hide Value10, Power10;
    Shifted(n, b as int - 0x30, Power10(|t|), Value10(t));
  }

  lemma Shifted(n: real, d: int, p: int, v: int)
    ensures (n * 10.0 + d as real) * p as real + v as real == n * (10 * p) as real + (d * p + v) as real
  {
    assert (10 * p) as real == 10.0 * p as real && (d * p) as real == d as real * p as real;
  }

  lemma AccumulatesNothing(n: real)
    ensures Accumulated(n, [], n)
  {
  }

  lemma {:induction false} DigitsRead(s: seq<byte>, i: nat, n: real)
    requires i <= |s|
    ensures var (m, j) := ReadDigits(s, i, n); DigitRun(s, i, j) && Accumulated(n, s[i..j], m)
    decreases |s| - i
  {
    hide Accumulated;
    if i < |s| && IsDigit(s[i]) {
      var b, n' := s[i], n * 10.0 + (s[i] - 0x30) as real;
      DigitsRead(s, i + 1, n');
      var (m, j) := ReadDigits(s, i + 1, n');
      assert ReadDigits(s, i, n) == (m, j);
      hide ReadDigits;
      AccumulatesFront(n, b, s[i + 1..j], m);
      assert s[i..j] == [b] + s[i + 1..j];
    } else {
      assert s[i..i] == [];
      AccumulatesNothing(n);
    }
  }

  lemma {:induction false} Divided(n: real, k: nat)
    ensures DivideByTen(n, k) * Power10(k) as real == n
    decreases k
  {
    hide Power10;
    PowerStep(k);
    if k > 0 {
      Divided(n / 10.0, k - 1);
      TenTimes(DivideByTen(n / 10.0, k - 1), Power10(k - 1), n);
    }
  }

  lemma TenTimes(x: real, p: int, n: real)
    requires x * p as real == n / 10.0
    ensures x * (10 * p) as real == n
  {
    assert x * (10 * p) as real == 10.0 * (x * p as real);
  }

  lemma WholeRead(s: seq<byte>, q: nat)
    requires q <= |s|
    ensures var (w, r) := ReadWhole(s, q);
      && (if Digit(At(s, q)) && At(s, q) != 0x30 then DigitRun(s, q, r) else r == q)
      && q <= r <= |s| && w == Value10(s[q..r]) as real
  {
    var r := ReadWhole(s, q).1;
    if 0x31 <= At(s, q) <= 0x39 {
      DigitsRead(s, q, 0.0);
      FromZero(s[q..r], ReadWhole(s, q).0);
    } else {
      assert s[q..r] == [];
    }
  }

  lemma FromZero(t: seq<byte>, m: real)
    requires Accumulated(0.0, t, m)
    ensures m == Value10(t) as real
  {
  }

  lemma WrittenInParts(whole: seq<byte>, fraction: seq<byte>, m: real)
    requires Accumulated(Value10(whole) as real, fraction, m)
    ensures Written(DivideByTen(m, |fraction|), whole + fraction, |fraction|)
  {
    hide Value10, Power10;
    Divided(m, |fraction|);
    ValueConcat(whole, fraction);
    assert (Value10(whole) * Power10(|fraction|)) as real == Value10(whole) as real * Power10(|fraction|) as real;
  }

  lemma WrittenWhole(whole: seq<byte>)
    ensures Written(Value10(whole) as real, whole, 0)
  {
  }

  lemma FractionRead(s: seq<byte>, q: nat, r: nat)
    requires q <= r <= |s|
    ensures var (d, n) := ReadFraction(s, r, Value10(s[q..r]) as real);
      && (if At(s, r) == 0x2E && Digit(At(s, r + 1)) then DigitRun(s, r + 1, n) && n > r else n == r)
      && r <= n <= |s| && Written(d, DigitsOfParts(s, q, r, n), Places(r, n))
  {
    hide Value10, Written, Accumulated;
    var w := Value10(s[q..r]) as real;
    if At(s, r) == 0x2E && Digit(At(s, r + 1)) {
      DigitsRead(s, r + 1, w);
      var (m, n) := ReadDigits(s, r + 1, w);
      hide ReadDigits;
      WrittenInParts(s[q..r], s[r + 1..n], m);
    } else {
      WrittenWhole(s[q..r]);
      assert s[q..r] + [] == s[q..r];
    }
  }

  /** What the parser reads as a number is one, and worth what it says. */
  lemma NumberFound(s: seq<byte>, i: nat)
    requires At(s, i) == MINUS || IsDigit(At(s, i))
    ensures NumberAt(s, i, ParseNumber(s, i).1, ParseNumber(s, i).0)
  {
    hide Written, ReadWhole, ReadFraction, DigitRun, DigitsOfParts, Places, Value10;
    var p := AfterSign(s, i);
    var q := AfterZero(s, p);
    WholeRead(s, q);
    var (w, r) := ReadWhole(s, q);
    FractionRead(s, q, r);
    var (d, n) := ReadFraction(s, r, w);
    assert -(-d) == d;
    assert NumberParts(s, i, p, q, r, n, ParseNumber(s, i).0);
  }

  lemma OneRun(s: seq<byte>, i: nat, j: nat, k: nat)
    requires DigitRun(s, i, j) && DigitRun(s, i, k)
    ensures j == k
  {
    assert !(i <= j < k) && !(i <= k < j);
  }

  /** Its parts, its end and its worth are determined. */
  lemma OneNumber(s: seq<byte>, i: nat, p: nat, q: nat, r: nat, n: nat, d: real,
                  p': nat, q': nat, r': nat, n': nat, d': real)
    requires NumberParts(s, i, p, q, r, n, d) && NumberParts(s, i, p', q', r', n', d')
    ensures n == n' && d == d'
  {
    hide Written, DigitRun, DigitsOfParts, Places;
    if r != r' { OneRun(s, q, r, r'); }
    if n != n' { OneRun(s, r + 1, n, n'); }
    OneWorth(if s[i] == 0x2D then -d else d, if s[i] == 0x2D then -d' else d', DigitsOfParts(s, q, r, n), Places(r, n));
  }

  lemma OneWorth(d: real, d': real, digits: seq<byte>, places: nat)
    requires Written(d, digits, places) && Written(d', digits, places)
    ensures d == d'
  {
    var r := Power10(places) as real;
    hide Value10, Power10;
    SameQuotient(d, d', r);
  }

  lemma SameQuotient(d: real, d': real, r: real)
    requires r > 0.0 && d * r == d' * r
    ensures d == d'
  {
    assert d == d * r / r && d' == d' * r / r;
  }

  /** The parser reads a number if and only if one stands there, and reads its worth. */
  lemma NumbersExactly(s: seq<byte>, i: nat, n: nat, d: real)
    ensures NumberAt(s, i, n, d)
       <==> (At(s, i) == MINUS || IsDigit(At(s, i))) && ParseNumber(s, i) == (d, n)
  {
    hide ParseNumber, NumberParts;
    if At(s, i) == MINUS || IsDigit(At(s, i)) {
      NumberFound(s, i);
      var (d', n') := ParseNumber(s, i);
      var p', q', r' :| NumberParts(s, i, p', q', r', n', d');
      forall p, q, r | NumberParts(s, i, p, q, r, n, d) ensures n == n' && d == d' {
        OneNumber(s, i, p, q, r, n, d, p', q', r', n', d');
      }
    } else {
      forall p, q, r ensures !NumberParts(s, i, p, q, r, n, d) {
        BeginsNumber(s, i, p, q, r, n, d);
      }
    }
  }

  lemma BeginsNumber(s: seq<byte>, i: nat, p: nat, q: nat, r: nat, n: nat, d: real)
    ensures NumberParts(s, i, p, q, r, n, d) ==> At(s, i) == MINUS || IsDigit(At(s, i))
  {
  }

  // White space

  lemma {:induction false} SkipsBlank(s: seq<byte>, i: nat)
    requires i <= |s|
    ensures BlankTo(s, i, Skip(s, i))
    decreases |s| - i
  {
    if i < |s| && 0 < s[i] <= 32 { SkipsBlank(s, i + 1); }
  }

  lemma {:induction false} SkipsTo(s: seq<byte>, i: nat, j: nat)
    requires BlankTo(s, i, j)
    ensures Skip(s, i) == Skip(s, j) && (At(s, j) > 32 ==> Skip(s, i) == j)
    decreases j - i
  {
    if i < j { SkipsTo(s, i + 1, j); }
  }

  lemma ItemsSkip(s: seq<byte>, i: nat, j: nat)
    requires Skip(s, i) == Skip(s, j)
    ensures ParseItems(s, i) == ParseItems(s, j) && ParseMembers(s, i) == ParseMembers(s, j)
  {
    hide Skip, ParseValue, ParseString, ParseMemberValue, AfterItem, AfterMember;
  }

  // What stands there is read

  lemma LeafRead(s: seq<byte>, i: nat, n: nat, v: Value)
    requires !v.Array? && !v.Object? && Stands(s, i, n, v)
    ensures ParseValue(s, i) == Ok(v, n) && At(s, i) > 32 && At(s, i) != 0x5D && At(s, i) != 0x7D
  {
    hide ParseItems, ParseMembers, ParseNumber, ParseString, NumberAt, Closed;
    match v
    case Null =>
      OccursAt(s, i, NULL_TEXT, 0);
    case False =>
      OccursAt(s, i, FALSE_TEXT, 0);
      JsonRoundTrip.StartsWithFirst(s, i, NULL_TEXT);
    case True =>
      OccursAt(s, i, TRUE_TEXT, 0);
      JsonRoundTrip.StartsWithFirst(s, i, NULL_TEXT);
      JsonRoundTrip.StartsWithFirst(s, i, FALSE_TEXT);
    case Number(d) =>
      NumbersExactly(s, i, n, d);
      JsonRoundTrip.NotLiteral(s, i);
    case Str(b) =>
      ClosedRead(s, i, b, n);
      JsonRoundTrip.NotLiteral(s, i);
  }

  lemma ClosedRead(s: seq<byte>, i: nat, b: seq<byte>, n: nat)
    requires Closed(s, i, b, n)
    ensures ParseString(s, i) == Ok(b, n) && At(s, i) == QUOTE
  {
    hide AllValid, ParseString;
    var us :| AllValid(us) && ClosedBy(s, i, b, n, us);
    ReadsClosed(s, i, b, n, us);
    assert s[i..n][0] == 0x22;
  }

  /** Every value that stands in a text is read from there, and up to its end. */
  lemma {:induction false} ValueRead(s: seq<byte>, i: nat, n: nat, v: Value)
    requires Stands(s, i, n, v)
    ensures ParseValue(s, i) == Ok(v, n) && At(s, i) > 32 && At(s, i) != 0x5D && At(s, i) != 0x7D
    decreases v, 1
  {
    hide ParseValue, ItemsFrom, MembersFrom;
    match v
    case Array(c) =>
      var j: nat :| ItemsFrom(s, i, j, n, c);
      ItemsFromRead(s, i, j, n, c);
    case Object(c) =>
      var j: nat :| MembersFrom(s, i, j, n, c);
      MembersFromRead(s, i, j, n, c);
    case _ => LeafRead(s, i, n, v);
  }

  lemma {:induction false} ItemsFromRead(s: seq<byte>, i: nat, j: nat, n: nat, c: Items)
    requires At(s, i) == 0x5B && ItemsFrom(s, i, j, n, c)
    ensures ParseValue(s, i) == Ok(Array(c), n)
    decreases c, 2
  {
    hide ParseValue, ParseItems, Skip, Stands, ItemsStand;
    SkipsTo(s, i + 1, j);
    if c.NoItem? {
      JsonRoundTrip.EmptyArray(s, i);
    } else {
      ItemsRead(s, j, n, c);
      JsonRoundTrip.SkipTwice(s, i + 1);
      ItemsSkip(s, Skip(s, i + 1), j);
      JsonRoundTrip.FullArray(s, i, c, n);
    }
  }

  lemma {:induction false} ItemsRead(s: seq<byte>, i: nat, n: nat, c: Items)
    requires c.Item? && ItemsStand(s, i, n, c)
    ensures ParseItems(s, i) == Ok(c, n) && At(s, Skip(s, i)) != 0x5D
    decreases c, 1
  {
    hide ParseValue, ParseItems, Skip, Stands;
    var a: nat, e: nat, m: nat :| ItemStands(s, i, a, e, m, n, c);
    ValueRead(s, a, e, c.value);
    SkipsTo(s, i, a);
    SkipsTo(s, e, m);
    if c.next.Item? {
      ItemsRead(s, m + 1, n, c.next);
    }
    ItemsFold(s, i, e, n, c);
  }

  lemma ItemsFold(s: seq<byte>, i: nat, e: nat, n: nat, c: Items)
    requires c.Item? && ParseValue(s, Skip(s, i)) == Ok(c.value, e)
    requires var m := Skip(s, e);
      if c.next.NoItem? then At(s, m) == 0x5D && n == m + 1
      else At(s, m) == 0x2C && ParseItems(s, m + 1) == Ok(c.next, n)
    ensures ParseItems(s, i) == Ok(c, n)
  {
    hide ParseValue, Skip;
    assert AfterItem(s, Skip(s, e)) == Ok(c.next, n);
  }

  lemma {:induction false} MembersFromRead(s: seq<byte>, i: nat, j: nat, n: nat, c: Members)
    requires At(s, i) == 0x7B && MembersFrom(s, i, j, n, c)
    ensures ParseValue(s, i) == Ok(Object(c), n)
    decreases c, 2
  {
    hide ParseValue, ParseMembers, Skip, Stands, MembersStand;
    SkipsTo(s, i + 1, j);
    if c.NoMember? {
      JsonRoundTrip.EmptyObject(s, i);
    } else {
      MembersRead(s, j, n, c);
      JsonRoundTrip.SkipTwice(s, i + 1);
      ItemsSkip(s, Skip(s, i + 1), j);
      JsonRoundTrip.FullObject(s, i, c, n);
    }
  }

  lemma {:induction false} MembersRead(s: seq<byte>, i: nat, n: nat, c: Members)
    requires c.Member? && MembersStand(s, i, n, c)
    ensures ParseMembers(s, i) == Ok(c, n) && At(s, Skip(s, i)) != 0x7D
    decreases c, 1
  {
    hide ParseValue, ParseMembers, ParseString, Skip, Stands, Closed, MemberStands;
    var a: nat, k: nat, g: nat, w: nat, e: nat, m: nat :| MemberStands(s, i, a, k, g, w, e, m, n, c);
    MemberRead(s, i, a, k, g, w, e, m, n, c);
    hide MembersStand;
    ValueRead(s, w, e, c.value);
    SkipsTo(s, g + 1, w);
    if c.next.Member? {
      MembersRead(s, m + 1, n, c.next);
    }
    MembersFold(s, i, k, e, n, c);
  }

  lemma MemberRead(s: seq<byte>, i: nat, a: nat, k: nat, g: nat, w: nat, e: nat, m: nat, n: nat, c: Members)
    requires c.Member? && MemberStands(s, i, a, k, g, w, e, m, n, c)
    ensures ParseString(s, Skip(s, i)) == Ok(c.key, k) && At(s, Skip(s, i)) != 0x7D
    ensures Skip(s, k) == g && At(s, g) == 0x3A && BlankTo(s, g + 1, w) && Stands(s, w, e, c.value)
    ensures Skip(s, e) == m
    ensures if c.next.NoMember? then At(s, m) == 0x7D && n == m + 1
            else At(s, m) == 0x2C && MembersStand(s, m + 1, n, c.next)
  {
    hide ParseString, Skip, Stands, Closed, MembersStand;
    ClosedRead(s, a, c.key, k);
    SkipsTo(s, i, a);
    SkipsTo(s, k, g);
    SkipsTo(s, e, m);
  }

  lemma MembersFold(s: seq<byte>, i: nat, k: nat, e: nat, n: nat, c: Members)
    requires c.Member? && ParseString(s, Skip(s, i)) == Ok(c.key, k) && At(s, Skip(s, k)) == 0x3A
    requires ParseValue(s, Skip(s, Skip(s, k) + 1)) == Ok(c.value, e)
    requires var m := Skip(s, e);
      if c.next.NoMember? then At(s, m) == 0x7D && n == m + 1
      else At(s, m) == 0x2C && ParseMembers(s, m + 1) == Ok(c.next, n)
    ensures ParseMembers(s, i) == Ok(c, n)
  {
    hide ParseValue, ParseString, Skip;
    assert ParseMemberValue(s, Skip(s, k)) == Ok(c.value, e);
    assert AfterMember(s, Skip(s, e)) == Ok(c.next, n);
  }

  // What is read stands there

  /** A string that no quote closes: it ends with the text. */
  ghost predicate RunsOut(s: seq<byte>, i: nat, n: nat, v: Value) {
    v.Str? && (Unclosed(s, i, v.valuestring, n) || Dangling(s, i, v.valuestring, n))
  }

  lemma RunsOutAtEnd(s: seq<byte>, i: nat, n: nat, v: Value)
    requires RunsOut(s, i, n, v)
    ensures n >= |s| && At(s, Skip(s, n)) == 0
  {
    hide AllValid, Spelling, Meaning;
  }

  lemma LeafStands(s: seq<byte>, i: nat, n: nat, v: Value)
    requires NoNul(s) && ParseValue(s, i) == Ok(v, n) && !v.Array? && !v.Object?
    ensures Stands(s, i, n, v) || RunsOut(s, i, n, v)
  {
    hide ParseItems, ParseMembers, ParseNumber, ParseString, NumberAt, Closed, Unclosed, Dangling;
    match v
    case Number(d) => NumbersExactly(s, i, n, d);
    case Str(b) => StringsExactly(s, i, b, n);
    case _ =>
  }

  lemma ArrayUnfold(s: seq<byte>, i: nat, n: nat, c: Items)
    requires ParseValue(s, i) == Ok(Array(c), n)
    ensures i < |s| && At(s, i) == 0x5B
    ensures var j := Skip(s, i + 1);
            if At(s, j) == 0x5D then c == NoItem && n == j + 1 else c.Item? && ParseItems(s, j) == Ok(c, n)
  {
    hide ParseItems, ParseMembers, ParseNumber, ParseString, Skip;
  }

  lemma ObjectUnfold(s: seq<byte>, i: nat, n: nat, c: Members)
    requires ParseValue(s, i) == Ok(Object(c), n)
    ensures i < |s| && At(s, i) == 0x7B
    ensures var j := Skip(s, i + 1);
            if At(s, j) == 0x7D then c == NoMember && n == j + 1 else c.Member? && ParseMembers(s, j) == Ok(c, n)
  {
    hide ParseItems, ParseMembers, ParseNumber, ParseString, Skip;
  }

  lemma ItemsUnfold(s: seq<byte>, i: nat, n: nat, c: Items) returns (e: nat)
    requires ParseItems(s, i) == Ok(c, n)
    ensures c.Item? && ParseValue(s, Skip(s, i)) == Ok(c.value, e)
    ensures var m := Skip(s, e);
      if c.next.NoItem? then At(s, m) == 0x5D && n == m + 1
      else At(s, m) == 0x2C && ParseItems(s, m + 1) == Ok(c.next, n)
  {
    hide ParseValue, Skip;
    e := ParseValue(s, Skip(s, i)).next;
  }

  lemma MembersUnfold(s: seq<byte>, i: nat, n: nat, c: Members) returns (k: nat, e: nat)
    requires ParseMembers(s, i) == Ok(c, n)
    ensures c.Member? && ParseString(s, Skip(s, i)) == Ok(c.key, k) && At(s, Skip(s, k)) == 0x3A
    ensures ParseValue(s, Skip(s, Skip(s, k) + 1)) == Ok(c.value, e)
    ensures var m := Skip(s, e);
      if c.next.NoMember? then At(s, m) == 0x7D && n == m + 1
      else At(s, m) == 0x2C && ParseMembers(s, m + 1) == Ok(c.next, n)
  {
    hide ParseValue, ParseString, Skip;
    k := ParseString(s, Skip(s, i)).next;
    e := ParseValue(s, Skip(s, Skip(s, k) + 1)).next;
  }

  lemma ReadInside(s: seq<byte>, i: nat)
    ensures ParseValue(s, i).Ok? ==> i < |s|
    ensures ParseString(s, i).Ok? ==> i < |s|
  {
    hide ParseItems, ParseMembers, ParseNumber;
  }

  /** Every value that is read stands there, but for a string that runs out. */
  lemma {:induction false} ValueFound(s: seq<byte>, i: nat, n: nat, v: Value)
    requires NoNul(s) && ParseValue(s, i) == Ok(v, n)
    ensures Stands(s, i, n, v) || RunsOut(s, i, n, v)
    decreases v, 1
  {
    hide ParseValue, ItemsFrom, MembersFrom, ParseItems, ParseMembers, Skip;
    match v
    case Array(c) =>
      ArrayUnfold(s, i, n, c);
      ItemsFromFound(s, i, n, c);
    case Object(c) =>
      ObjectUnfold(s, i, n, c);
      MembersFromFound(s, i, n, c);
    case _ => LeafStands(s, i, n, v);
  }

  lemma {:induction false} ItemsFromFound(s: seq<byte>, i: nat, n: nat, c: Items)
    requires NoNul(s) && i < |s|
    requires var j := Skip(s, i + 1);
             if At(s, j) == 0x5D then c == NoItem && n == j + 1 else c.Item? && ParseItems(s, j) == Ok(c, n)
    ensures ItemsFrom(s, i, Skip(s, i + 1), n, c)
    decreases c, 2
  {
    hide ParseItems, Skip, ItemsStand;
    SkipsBlank(s, i + 1);
    if c.Item? { ItemsFound(s, Skip(s, i + 1), n, c); }
  }

  lemma {:induction false} ItemsFound(s: seq<byte>, i: nat, n: nat, c: Items)
    requires NoNul(s) && i <= |s| && ParseItems(s, i) == Ok(c, n)
    ensures c.Item? && ItemsStand(s, i, n, c)
    decreases c, 1
  {
    hide ParseValue, ParseItems, Skip, Stands, RunsOut;
    var e := ItemsUnfold(s, i, n, c);
    var a, m := Skip(s, i), Skip(s, e);
    ValueFound(s, a, e, c.value);
    if RunsOut(s, a, e, c.value) { RunsOutAtEnd(s, a, e, c.value); }
    SkipsBlank(s, i);
    EndsInside(s, e);
    if c.next.Item? { ItemsFound(s, m + 1, n, c.next); }
    assert ItemStands(s, i, a, e, m, n, c);
  }

  lemma EndsInside(s: seq<byte>, e: nat)
    ensures At(s, Skip(s, e)) != 0 ==> e <= Skip(s, e) < |s| && BlankTo(s, e, Skip(s, e))
  {
    if e <= |s| { SkipsBlank(s, e); }
  }

  lemma {:induction false} MembersFromFound(s: seq<byte>, i: nat, n: nat, c: Members)
    requires NoNul(s) && i < |s|
    requires var j := Skip(s, i + 1);
             if At(s, j) == 0x7D then c == NoMember && n == j + 1 else c.Member? && ParseMembers(s, j) == Ok(c, n)
    ensures MembersFrom(s, i, Skip(s, i + 1), n, c)
    decreases c, 2
  {
    hide ParseMembers, Skip, MembersStand;
    SkipsBlank(s, i + 1);
    if c.Member? { MembersFound(s, Skip(s, i + 1), n, c); }
  }

  lemma {:induction false} MembersFound(s: seq<byte>, i: nat, n: nat, c: Members)
    requires NoNul(s) && i <= |s| && ParseMembers(s, i) == Ok(c, n)
    ensures c.Member? && MembersStand(s, i, n, c)
    decreases c, 1
  {
    hide ParseValue, ParseMembers, ParseString, Skip, Stands, RunsOut, Closed, Unclosed, Dangling;
    var k, e := MembersUnfold(s, i, n, c);
    var a, g, m := Skip(s, i), Skip(s, k), Skip(s, e);
    var w := Skip(s, g + 1);
    KeyFound(s, a, k, c.key);
    ValueFound(s, w, e, c.value);
    if RunsOut(s, w, e, c.value) { RunsOutAtEnd(s, w, e, c.value); }
    SkipsBlank(s, i);
    EndsInside(s, k);
    SkipsBlank(s, g + 1);
    EndsInside(s, e);
    if c.next.Member? { MembersFound(s, m + 1, n, c.next); }
    assert MemberStands(s, i, a, k, g, w, e, m, n, c);
  }

  lemma KeyFound(s: seq<byte>, a: nat, k: nat, key: seq<byte>)
    requires NoNul(s) && ParseString(s, a) == Ok(key, k) && At(s, Skip(s, k)) != 0
    ensures Closed(s, a, key, k)
  {
    hide ParseString, Closed, Skip, Unclosed, Dangling;
    StringsExactly(s, a, key, k);
    if Unclosed(s, a, key, k) || Dangling(s, a, key, k) {
      RunsOutAtEnd(s, a, k, Str(key));
    }
  }

  /** The parser accepts exactly the grammar: it reads v from i to n if and only if v stands there, or
      is a string that runs out of text. */
  lemma ValuesExactly(s: seq<byte>, i: nat, n: nat, v: Value)
    requires NoNul(s)
    ensures ParseValue(s, i) == Ok(v, n) <==> Stands(s, i, n, v) || RunsOut(s, i, n, v)
  {
    hide ParseValue, Stands, Unclosed, Dangling, ParseString;
    if ParseValue(s, i) == Ok(v, n) { ValueFound(s, i, n, v); }
    if Stands(s, i, n, v) { ValueRead(s, i, n, v); }
    if RunsOut(s, i, n, v) {
      StringsExactly(s, i, v.valuestring, n);
      StringValue(s, i, v.valuestring, n);
    }
  }

  lemma StringValue(s: seq<byte>, i: nat, b: seq<byte>, n: nat)
    requires ParseString(s, i) == Ok(b, n)
    ensures ParseValue(s, i) == Ok(Str(b), n)
  {
    assert At(s, i) == QUOTE;
    hide ParseString, ParseItems, ParseMembers, ParseNumber;
    JsonRoundTrip.NotLiteral(s, i);
  }

  /** A whole text: white space, a value, and, if a terminator is demanded, nothing but white space
      behind it. */
  lemma TextsExactly(s: seq<byte>, v: Value)
    requires NoNul(s)
    ensures (exists n: nat :: Parse(s, true) == Ok(v, n))
       <==> exists i: nat, n: nat :: BlankTo(s, 0, i) && Whole(s, i, n, v)
  {
    hide ParseValue, Skip, Stands, Unclosed, Dangling;
    var i := Skip(s, 0);
    SkipsBlank(s, 0);
    if n: nat :| Parse(s, true) == Ok(v, n) {
      var e := ParseValue(s, i).next;
      ValuesExactly(s, i, e, v);
      TailBlank(s, e);
      assert Whole(s, i, e, v);
    }
    forall j: nat, e: nat | BlankTo(s, 0, j) && Whole(s, j, e, v)
      ensures i == j && Parse(s, true) == Ok(v, Skip(s, e)) {
      SkipsTo(s, 0, j);
      ValuesExactly(s, j, e, v);
      ReadStart(s, j);
      TailBlank(s, e);
    }
  }

  ghost predicate Whole(s: seq<byte>, i: nat, n: nat, v: Value) {
    (Stands(s, i, n, v) || RunsOut(s, i, n, v)) && (n <= |s| ==> BlankTo(s, n, |s|))
  }

  lemma TailBlank(s: seq<byte>, e: nat)
    requires NoNul(s)
    ensures At(s, Skip(s, e)) == 0 <==> (e <= |s| ==> BlankTo(s, e, |s|))
  {
    if e <= |s| {
      SkipsBlank(s, e);
      if BlankTo(s, e, |s|) { SkipsTo(s, e, |s|); }
    }
  }

  lemma ReadStart(s: seq<byte>, i: nat)
    ensures ParseValue(s, i).Ok? ==> At(s, i) > 32
  {
    hide ParseItems, ParseMembers, ParseNumber, ParseString;
    JsonRoundTrip.StartsWithFirst(s, i, NULL_TEXT);
    JsonRoundTrip.StartsWithFirst(s, i, FALSE_TEXT);
    JsonRoundTrip.StartsWithFirst(s, i, TRUE_TEXT);
  }
}
