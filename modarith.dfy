/** Arithmetic modulo m: Euclid's greatest common divisor, the extended algorithm that
    yields Bezout coefficients, and the modular inverse that Python's pow(a, -1, m)
    computes, which exists exactly when gcd(a mod m, m) == 1. */
module ModArith {
  import opened Wrappers

  /** The greatest common divisor of two naturals, by Euclid's algorithm; Gcd(a, 0) == a. */
  function Gcd(a: nat, b: nat): nat
    decreases b
  {
    if b == 0 then a else Gcd(b, a % b)
  }

  /** d divides x: x is d times some integer (for d == 0 only x == 0). */
  predicate Divides(d: nat, x: int)
  {
    if d == 0 then x == 0 else x % d == 0
  }

  /** A positive multiple of m is at least m. */
  lemma {:induction false} MulAtLeast(m: int, d: int)
    requires m >= 0 && d >= 1
    ensures m * d >= m
    decreases d
  {
    if d > 1 {
      MulAtLeast(m, d - 1);
      assert m * d == m * (d - 1) + m;
    }
  }

  /** The division of x by m >= 1 is determined by any quotient and remainder in [0, m). */
  lemma {:induction false} DivModUnique(x: int, m: int, q: int, r: int)
    requires m >= 1 && 0 <= r < m && x == m * q + r
    ensures x / m == q && x % m == r
  {
    var d := q - x / m;
    assert m * d == x % m - r by {
      assert x == m * (x / m) + x % m;
      assert m * d == m * q - m * (x / m);
    }
    if d >= 1 {
      MulAtLeast(m, d);
    } else if d <= -1 {
      MulAtLeast(m, -d);
    }
  }

  /** Adding a multiple of m keeps the remainder. */
  lemma {:induction false} ModAddMultiple(x: int, m: int, k: int)
    requires m >= 1
    ensures (x + m * k) % m == x % m
  {
    DivModUnique(x + m * k, m, x / m + k, x % m);
  }

  /** A divisor d of x as a witness: x == d * (x / d). */
  lemma {:induction false} DividesWitness(d: nat, x: int)
    requires Divides(d, x)
    ensures exists k :: x == d * k
  {
    if d == 0 {
      assert x == d * 0;
    } else {
      assert x == d * (x / d);
    }
  }

  /** A witness k with x == d * k shows d divides x. */
  lemma {:induction false} WitnessDivides(d: nat, x: int, k: int)
    requires x == d * k
    ensures Divides(d, x)
  {
    if d != 0 {
      DivModUnique(x, d, k, 0);
    }
  }

  /** The gcd divides both arguments. */
  lemma {:induction false} GcdDivides(a: nat, b: nat)
    ensures Divides(Gcd(a, b), a) && Divides(Gcd(a, b), b)
    decreases b
  {
    if b == 0 {
      WitnessDivides(a, a, 1);
      WitnessDivides(a, 0, 0);
    } else {
      var g := Gcd(b, a % b);
      GcdDivides(b, a % b);
      DividesWitness(g, b);
      DividesWitness(g, a % b);
      var s :| b == g * s;
      var t :| a % b == g * t;
      assert a == b * (a / b) + a % b;
      assert a == g * (s * (a / b) + t);
      WitnessDivides(g, a, s * (a / b) + t);
    }
  }

  /** The gcd of a and a positive b is positive. */
  lemma {:induction false} GcdPositive(a: nat, b: nat)
    requires b >= 1
    ensures Gcd(a, b) >= 1
    decreases b
  {
    if a % b != 0 {
      GcdPositive(b, a % b);
    }
  }

  /** Bezout coefficients: the gcd g of a and b, and x, y with a * x + b * y == g. */
  datatype Bezout = Bezout(g: nat, x: int, y: int)

  /** The extended Euclidean algorithm. */
  function ExtGcd(a: nat, b: nat): (e: Bezout)
    ensures e.g == Gcd(a, b) && a * e.x + b * e.y == e.g
    decreases b
  {
    if b == 0 then Bezout(a, 1, 0)
    else
      var e' := ExtGcd(b, a % b);
      BezoutStep(a, b, e'.g, e'.x, e'.y);
      Bezout(e'.g, e'.y, e'.x - (a / b) * e'.y)
  }

  /** One step back of the extended algorithm keeps the Bezout identity. */
  lemma {:induction false} BezoutStep(a: nat, b: nat, g: int, x: int, y: int)
    requires b >= 1 && b * x + (a % b) * y == g
    ensures a * y + b * (x - (a / b) * y) == g
  {
    var q := a / b;
    assert a % b == a - b * q;
    assert (a - b * q) * y == a * y - b * (q * y);
    assert b * (x - q * y) == b * x - b * (q * y);
  }

  /** The inverse of a modulo m >= 1, as pow(a, -1, m) computes it after a is reduced
      into [0, m); None when a mod m and m have a common factor. */
  function ModInverse(a: int, m: int): Option<nat>
    requires m >= 1
  {
    var e := ExtGcd(a % m, m);
    if e.g == 1 then Some(e.x % m) else None
  }

  /** Reducing both factors keeps the product's remainder up to the Bezout term:
      with r == a mod m, b == x mod m and r * x + m * y == 1, a * b is 1 plus a multiple
      of m. */
  lemma {:induction false} InverseProduct(a: int, m: int, r: int, x: int, y: int, b: int)
    requires m >= 1 && a == m * (a / m) + r && x == m * (x / m) + b && r * x + m * y == 1
    ensures a * b == 1 + m * ((a / m) * b - r * (x / m) - y)
  {
    var p, u := a / m, x / m;
    assert a * b == m * (p * b) + r * b;
    assert r * b == r * x - m * (r * u);
  }

  /** A found inverse lies in [0, m) and multiplies a to 1 modulo m. */
  lemma {:induction false} ModInverseCorrect(a: int, m: int)
    requires m >= 1 && ModInverse(a, m).Some?
    ensures 0 <= ModInverse(a, m).value < m
    ensures (a * ModInverse(a, m).value) % m == 1 % m
  {
    var r := a % m;
    var e := ExtGcd(r, m);
    var b := e.x % m;
    InverseProduct(a, m, r, e.x, e.y, b);
    ModAddMultiple(1, m, (a / m) * b - r * (e.x / m) - e.y);
  }

  /** A common factor g of m and of r, the remainder of a by m, divides a * b. */
  lemma {:induction false} FactorOfProduct(a: int, m: int, p: int, r: int, b: int, g: int, s: int, t: int)
    requires a == m * p + r && r == g * s && m == g * t
    ensures a * b == g * ((t * p + s) * b)
  {
    assert a == g * (t * p) + g * s;
    assert a == g * (t * p + s);
  }

  /** No factor g >= 2 multiplies to 1. */
  lemma {:induction false} NoUnitFactor(g: int, k: int)
    requires g >= 2
    ensures g * k != 1
  {
    if k >= 1 {
      MulAtLeast(g, k);
    } else {
      MulAtLeast(g, 1 - k);
      assert g * (1 - k) == g - g * k;
    }
  }

  /** A multiple of g that is also a multiple of m == g * t plus one forces g == 1. */
  lemma {:induction false} NotOneMore(ab: int, g: int, w: int, m: int, t: int, q: int)
    requires g >= 2 && ab == g * w && m == g * t
    ensures ab != m * q + 1
  {
    assert m * q == g * (t * q);
    assert g * w - g * (t * q) == g * (w - t * q);
    NoUnitFactor(g, w - t * q);
  }

  /** The cofactor t of a positive m == g * t with g >= 1 is positive, and m >= g. */
  lemma {:induction false} CofactorPositive(m: int, g: int, t: int)
    requires m >= 1 && g >= 1 && m == g * t
    ensures t >= 1 && m >= g
  {
    if t <= 0 {
      MulAtLeast(g, 1 - t);
    }
    MulAtLeast(g, t);
  }

  /** When gcd(a mod m, m) != 1 no b multiplies a to 1 modulo m. */
  lemma {:induction false} NoInverse(a: int, m: int, b: int)
    requires m >= 1 && Gcd(a % m, m) != 1
    ensures (a * b) % m != 1 % m
  {
    var r := a % m;
    var g := Gcd(r, m);
    GcdDivides(r, m);
    GcdPositive(r, m);
    DividesWitness(g, r);
    DividesWitness(g, m);
    var s :| r == g * s;
    var t :| m == g * t;
    CofactorPositive(m, g, t);
    DivModUnique(1, m, 0, 1);
    var p, q := a / m, (a * b) / m;
    assert a == m * p + r;
    assert a * b == m * q + (a * b) % m;
    FactorOfProduct(a, m, p, r, b, g, s, t);
    NotOneMore(a * b, g, (t * p + s) * b, m, t, q);
  }

  /** The inverse exists exactly when a mod m and m are coprime, and then it is the only
      value in [0, m) with that property. */
  lemma {:induction false} ModInverseExists(a: int, m: int)
    requires m >= 1
    ensures ModInverse(a, m).Some? <==> Gcd(a % m, m) == 1
    ensures ModInverse(a, m).None? ==> forall b :: (a * b) % m != 1 % m
  {
    if ModInverse(a, m).None? {
      forall b
        ensures (a * b) % m != 1 % m
      {
        NoInverse(a, m, b);
      }
    }
  }

  /** Multiplying x == m * u + one by b keeps the form: b * x == m * (b * u) + b * one. */
  lemma {:induction false} ScaleQuotient(m: int, b: int, x: int, u: int, one: int)
    requires x == m * u + one
    ensures b * x == m * (b * u) + b * one
  {
  }

  lemma {:induction false} SwapFactors(a: int, b: int, c: int)
    ensures b * (a * c) == c * (a * b)
  {
  }

  /** Two values in [0, m) that both invert a modulo m are equal: every algorithm for
      pow(a, -1, m) returns the same number. */
  lemma {:induction false} ModInverseUnique(a: int, m: int, b: int, c: int)
    requires m >= 1 && 0 <= b < m && 0 <= c < m
    requires (a * b) % m == 1 % m && (a * c) % m == 1 % m
    ensures b == c
  {
    if m > 1 {
      var p, q := a * b, a * c;
      var u, v := p / m, q / m;
      DivModUnique(1, m, 0, 1);
      assert p == m * u + p % m;
      assert q == m * v + q % m;
      SwapFactors(a, b, c);
      ScaleQuotient(m, b, q, v, 1);
      ScaleQuotient(m, c, p, u, 1);
      DivModUnique(b * q, m, b * v, b);
      DivModUnique(c * p, m, c * u, c);
    }
  }
}
