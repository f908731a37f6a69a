/**
  Products, quotients and remainders of numbers none of which is a literal.  The two
  functions compute step by step, so that definitions built on them stay within linear
  arithmetic; lemmas say that they are the product and the quotient.
*/
module Division {

  function Product(x: int, y: int): int
    decreases if y < 0 then -y else y
  {
    if y == 0 then 0 else if y > 0 then Product(x, y - 1) + x else Product(x, y + 1) - x
  }

  lemma {:induction false} ProductIsTimes(x: int, y: int)
    ensures Product(x, y) == x * y
    decreases if y < 0 then -y else y
  {
    if y > 0 {
      ProductIsTimes(x, y - 1);
    } else if y < 0 {
      ProductIsTimes(x, y + 1);
    }
  }

  /** What is left of `x` when `y` is taken away as often as possible. */
  function LeftOver(x: nat, y: nat): (r: nat)
    requires y > 0
    ensures r < y && r <= x
  {
    if x < y then x else LeftOver(x - y, y)
  }

  lemma {:induction false} LeftOverIsRemainder(x: nat, y: nat)
    requires y > 0
    ensures LeftOver(x, y) == x % y
  {
    if x < y {
      Quotient(x, y, 0, x);
    } else {
      LeftOverIsRemainder(x - y, y);
      var q := (x - y) / y;
      assert x - y == q * y + (x - y) % y;
      Distribute(1, q, 1, y);
      Quotient(x, y, q + 1, (x - y) % y);
    }
  }

  /** How often `y` goes into `x`. */
  function TimesIn(x: nat, y: nat): nat
    requires y > 0
  {
    if x < y then 0 else 1 + TimesIn(x - y, y)
  }

  lemma {:induction false} TimesInLeaves(x: nat, y: nat)
    requires y > 0
    ensures 0 <= x - TimesIn(x, y) * y < y
    decreases x
  {
    if x >= y {
      TimesInLeaves(x - y, y);
      Distribute(1, 1, TimesIn(x - y, y), y);
    }
  }

  lemma ProductSigns(n: int, b: int)
    ensures (-n) * b == -(n * b) && n * (-b) == -(n * b) && (-n) * (-b) == n * b
  {
  }

  lemma MultipleGrows(e: int, d: int)
    requires e != 0 && d > 0
    ensures e * d >= d || e * d <= -d
  {
  }

  lemma SmallMultiple(e: int, d: int)
    requires -d < e * d < d
    ensures e == 0
  {
    if e != 0 {
      MultipleGrows(e, d);
    }
  }

  lemma Quotient(x: nat, d: nat, q: nat, r: nat)
    requires x == q * d + r && r < d
    ensures x / d == q && x % d == r
  {
    var e: int := x as int / d as int - q;
    assert x == x / d * d + x % d;
    assert e * d == r as int - (x % d) as int;
    SmallMultiple(e, d);
  }

  /** The last digit in base sixteen, and the digits before it. */
  lemma RemainderSplit(x: nat, m: nat)
    requires m > 0
    ensures x % (16 * m) == x % 16 + 16 * (x / 16 % m)
  {
    var y := x / 16;
    var q, r := y / m, y % m;
    assert y == q * m + r;
    Distribute(16, q, 0, m);
    Quotient(x, 16 * m, q, x % 16 + 16 * r);
  }

  lemma Distribute(d: int, q: int, s: int, p: int)
    ensures (d * q + s) * p == q * (d * p) + s * p
  {
  }
}
