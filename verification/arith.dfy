/** Natural-number powers, minimum/maximum and the division facts that the
    digit proofs rest on. */
module Arith {

  /** b raised to the e-th power. */
  function Pow(b: nat, e: nat): (r: nat)
    ensures b > 0 ==> r > 0
  {
    if e == 0 then 1 else b * Pow(b, e - 1)
  }

  function Max(a: int, b: int): int { if a >= b then a else b }

  function Min(a: int, b: int): int { if a <= b then a else b }

  lemma {:induction false} PowAdd(b: nat, m: nat, n: nat)
    ensures Pow(b, m + n) == Pow(b, m) * Pow(b, n)
    decreases n
  {
    if n > 0 {
      PowAdd(b, m, n - 1);
      calc {
        Pow(b, m + n);
        b * Pow(b, m + n - 1);
        b * (Pow(b, m) * Pow(b, n - 1));
        Pow(b, m) * (b * Pow(b, n - 1));
        Pow(b, m) * Pow(b, n);
      }
    }
  }

  /** (b^m)^n = b^(m*n): a base that is a power of two is shifted m bits per digit. */
  lemma {:induction false} PowOfPow(b: nat, m: nat, n: nat)
    ensures Pow(Pow(b, m), n) == Pow(b, m * n)
    decreases n
  {
    if n > 0 {
      PowOfPow(b, m, n - 1);
      PowAdd(b, m, m * (n - 1));
      assert m + m * (n - 1) == m * n;
    }
  }

  lemma {:induction false} PowGrows(b: nat, m: nat, n: nat)
    requires b > 1 && m < n
    ensures Pow(b, m) < Pow(b, n)
    decreases n
  {
    if m < n - 1 {
      PowGrows(b, m, n - 1);
    }
    assert Pow(b, n) == b * Pow(b, n - 1) >= 2 * Pow(b, n - 1);
  }

  /** Products keep the order of their left factors. */
  lemma MulLeft(a: int, b: int, c: int)
    requires a <= b && c >= 0
    ensures a * c <= b * c
  {
    assert (b - a) * c >= 0;
  }

  /** Euclidean division is determined by its quotient and remainder. */
  lemma DivModUnique(v: int, d: int, q: int, r: int)
    requires d > 0 && 0 <= r < d && v == q * d + r
    ensures v / d == q && v % d == r
  {
    var q' := v / d;
    var r' := v % d;
    assert v == q' * d + r';
    if q' < q {
      MulLeft(q' + 1, q, d);
      assert false;
    } else if q < q' {
      MulLeft(q + 1, q', d);
      assert false;
    }
  }

  /** The digit in position p of a number is (v / p) % r, and the low part
      below position p*r is that digit followed by the part below p. */
  lemma ModSplit(v: nat, p: nat, r: nat)
    requires p > 0 && r > 0
    ensures (v / p) % r * p + v % p == v % (p * r)
  {
    var q := v / p;
    var s := v % p;
    var a := q / r;
    var b := q % r;
    DivModParts(v, p);
    DivModParts(q, r);
    Regroup(a, b, p, r, s);
    DigitBelow(b, p, r, s);
    DivModUnique(v, p * r, a, b * p + s);
  }

  /** The defining equation of Euclidean division, alone. */
  lemma DivModParts(v: nat, d: nat)
    requires d > 0
    ensures v == (v / d) * d + v % d && 0 <= v % d < d
  {
  }

  /** (a r + b) p + s regrouped around the product p r. */
  lemma Regroup(a: int, b: int, p: int, r: int, s: int)
    ensures (a * r + b) * p + s == a * (p * r) + (b * p + s)
  {
  }

  /** A digit below r times p, plus a remainder below p, is below p r. */
  lemma DigitBelow(b: nat, p: nat, r: nat, s: nat)
    requires b < r && s < p
    ensures b * p + s < p * r
  {
    MulLeft(b, r - 1, p);
    assert (r - 1) * p == r * p - p;
  }

  /** A quotient below r whenever the dividend is below p * r. */
  lemma DivBelow(v: nat, p: nat, r: nat)
    requires p > 0 && v < p * r
    ensures v / p < r
  {
    if v / p >= r {
      MulLeft(r, v / p, p);
      assert false;
    }
  }

  /** Dividing a positive value by more than one makes it smaller. */
  lemma DivShrinks(v: nat, d: nat)
    requires v > 0 && d > 1
    ensures v / d < v
  {
    DivBelow(v, d, v);
  }

  /** Adding a multiple of the modulus leaves the remainder unchanged. */
  lemma ModAddMultiple(a: nat, n: nat, m: nat)
    requires m > 0
    ensures (a + n * m) % m == a % m
  {
    assert a == (a / m) * m + a % m;
    assert a + n * m == (a / m + n) * m + a % m;
    DivModUnique(a + n * m, m, a / m + n, a % m);
  }

  /** Reducing a factor modulo m first does not change a remainder modulo m. */
  lemma ModMulAdd(x: nat, p: nat, r: nat, m: nat)
    requires m > 0
    ensures ((x % m) * p + r) % m == (x * p + r) % m
  {
    var q := x / m;
    assert x == q * m + x % m;
    assert x * p + r == ((x % m) * p + r) + (q * p) * m;
    ModAddMultiple((x % m) * p + r, q * p, m);
  }
}
