/** `pow2gt`: rounding up to a power of two by smearing the top bit downwards. */
module PowerOfTwo {

  /** Bitwise or. */
  function Or(a: nat, b: nat): nat {
    if a == 0 && b == 0 then 0 else 2 * Or(a / 2, b / 2) + if a % 2 == 1 || b % 2 == 1 then 1 else 0
  }

  /** `x >> k` */
  function Shift(a: nat, k: nat): nat {
    if k == 0 then a else Shift(a / 2, k - 1)
  }

  function Pow2gt(x: nat): nat
    requires x >= 1
  {
    var y := x - 1;
    var y := Or(y, Shift(y, 1));
    var y := Or(y, Shift(y, 2));
    var y := Or(y, Shift(y, 4));
    var y := Or(y, Shift(y, 8));
    var y := Or(y, Shift(y, 16));
    y + 1
  }

  function Power(k: nat): nat {
    if k == 0 then 1 else 2 * Power(k - 1)
  }

  ghost predicate IsPower(x: nat) {
    exists k: nat :: x == Power(k)
  }

  lemma {:induction false} OrZero(a: nat)
    ensures Or(a, 0) == a && Or(0, a) == a
  {
    if a != 0 { OrZero(a / 2); }
  }

  lemma {:induction false} OrAssociative(a: nat, b: nat, c: nat)
    ensures Or(Or(a, b), c) == Or(a, Or(b, c))
    decreases a + b + c
  {
    if a + b + c != 0 {
      OrAssociative(a / 2, b / 2, c / 2);
      OrHalves(a, b);
      OrHalves(b, c);
      OrHalves(Or(a, b), c);
      OrHalves(a, Or(b, c));
    }
  }

  lemma OrHalves(a: nat, b: nat)
    ensures Or(a, b) / 2 == Or(a / 2, b / 2)
    ensures Or(a, b) % 2 == if a % 2 == 1 || b % 2 == 1 then 1 else 0
    ensures Or(a, b) == 0 <==> a == 0 && b == 0
  {
    if a == 0 && b == 0 {
      OrZero(0);
    } else {
      OrPositive(a, b);
    }
  }

  lemma {:induction false} OrPositive(a: nat, b: nat)
    requires a + b != 0
    ensures Or(a, b) > 0
  {
    if a % 2 == 0 && b % 2 == 0 { OrPositive(a / 2, b / 2); }
  }

  /** The or of y, y >> 1, ..., y >> (n - 1). */
  ghost function Smear(y: nat, n: nat): nat {
    if n == 0 then 0 else Or(y, Smear(y / 2, n - 1))
  }

  lemma {:induction false} ShiftTwice(a: nat, j: nat, k: nat)
    ensures Shift(Shift(a, j), k) == Shift(a, j + k)
    decreases j
  {
    if j > 0 { ShiftTwice(a / 2, j - 1, k); }
  }

  lemma {:induction false} ShiftOr(a: nat, b: nat, k: nat)
    ensures Shift(Or(a, b), k) == Or(Shift(a, k), Shift(b, k))
    decreases k
  {
    if k > 0 {
      OrHalves(a, b);
      ShiftOr(a / 2, b / 2, k - 1);
    }
  }

  lemma {:induction false} ShiftZero(k: nat)
    ensures Shift(0, k) == 0
  {
    if k > 0 { ShiftZero(k - 1); }
  }

  lemma {:induction false} ShiftSmear(y: nat, n: nat, k: nat)
    ensures Shift(Smear(y, n), k) == Smear(Shift(y, k), n)
    decreases n
  {
    if n == 0 {
      ShiftZero(k);
    } else {
      ShiftOr(y, Smear(y / 2, n - 1), k);
      ShiftSmear(y / 2, n - 1, k);
      ShiftTwice(y, 1, k);
      ShiftTwice(y, k, 1);
      assert Shift(y, 1) == y / 2 && Shift(Shift(y, k), 1) == Shift(y, k) / 2;
    }
  }

  lemma {:induction false} SmearMore(y: nat, m: nat, n: nat)
    ensures Or(Smear(y, m), Smear(Shift(y, m), n)) == Smear(y, m + n)
    decreases m
  {
    if m == 0 {
      OrZero(Smear(y, n));
    } else {
      SmearMore(y / 2, m - 1, n);
      OrAssociative(y, Smear(y / 2, m - 1), Smear(Shift(y, m), n));
    }
  }

  /** One line of the code doubles how far the bits have been smeared. */
  lemma Doubling(y: nat, n: nat)
    ensures Or(Smear(y, n), Shift(Smear(y, n), n)) == Smear(y, n + n)
  {
    ShiftSmear(y, n, n);
    SmearMore(y, n, n);
  }

  /** Smeared over all its bits, a number becomes all ones. */
  lemma {:induction false} SmearAll(y: nat, k: nat, n: nat)
    requires y < Power(k) && k <= n && (k > 0 ==> Power(k - 1) <= y)
    ensures Smear(y, n) == Power(k) - 1
    decreases k
  {
    if k == 0 {
      SmearNothing(n);
    } else {
      if k == 1 { assert y / 2 == 0; }
      SmearAll(y / 2, k - 1, n - 1);
      OrWithOnes(y, k);
    }
  }

  lemma {:induction false} SmearNothing(n: nat)
    ensures Smear(0, n) == 0
  {
    if n > 0 {
      SmearNothing(n - 1);
      OrZero(0);
    }
  }

  lemma {:induction false} OrWithOnes(y: nat, k: nat)
    requires k > 0 && Power(k - 1) <= y < Power(k)
    ensures Or(y, Power(k - 1) - 1) == Power(k) - 1
    decreases k
  {
    if k == 1 {
      OrZero(1);
    } else {
      OrWithOnes(y / 2, k - 1);
      assert (Power(k - 1) - 1) / 2 == Power(k - 2) - 1 && (Power(k - 1) - 1) % 2 == 1;
    }
  }

  lemma {:induction false} BitLength(y: nat, bound: nat) returns (k: nat)
    requires y < Power(bound)
    ensures k <= bound && y < Power(k) && (k > 0 ==> Power(k - 1) <= y)
    decreases bound
  {
    if bound == 0 || Power(bound - 1) <= y {
      k := bound;
    } else {
      k := BitLength(y, bound - 1);
    }
  }

  lemma FiveDoublings(y: nat)
    ensures Pow2gt(y + 1) == Smear(y, 32) + 1
  {
    hide Or, Shift;
    OrZero(y);
    assert Smear(y, 1) == y;
    Doubling(y, 1);
    Doubling(y, 2);
    Doubling(y, 4);
    Doubling(y, 8);
    Doubling(y, 16);
  }

  /** `pow2gt` gives the least power of two that is no smaller than its argument, for every argument
      whose result fits in a C int. */
  lemma Pow2gtIsLeast(x: nat)
    requires 1 <= x <= 0x4000_0000
    ensures IsPower(Pow2gt(x)) && x <= Pow2gt(x) <= 0x4000_0000
    ensures forall k: nat :: x <= Power(k) ==> Pow2gt(x) <= Power(k)
  {
    PowerThirty();
    hide Pow2gt, Smear;
    var k := BitLength(x - 1, 30);
    SmearAll(x - 1, k, 32);
    FiveDoublings(x - 1);
    assert Pow2gt(x) == Power(k);
    PowerMonotonic(k, 30);
    forall j: nat | x <= Power(j) ensures Power(k) <= Power(j) {
      if j < k {
        PowerMonotonic(j, k - 1);
      } else {
        PowerMonotonic(k, j);
      }
    }
  }

  lemma PowerThirty()
    ensures Power(30) == 0x4000_0000
  {
    assert Power(10) == 0x400;
    assert Power(20) == 0x10_0000;
  }

  lemma {:induction false} PowerMonotonic(j: nat, k: nat)
    requires j <= k
    ensures Power(j) <= Power(k)
    decreases k
  {
    if j < k { PowerMonotonic(j, k - 1); }
  }
}
