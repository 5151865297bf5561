/** Finite sums over an index range 0 .. n-1, and congruence modulo 26. Every matrix
    product of the cipher and the cofactor expansion of the determinant are written with
    these sums; every letter value of the cipher lives modulo 26. */
module Sums {

  /** f(0) + f(1) + ... + f(n - 1). */
  function Sum(n: nat, f: nat -> int): int
    decreases n
  {
    if n == 0 then 0 else Sum(n - 1, f) + f(n - 1)
  }

  /** The index k of a range with j removed, counted in the full range. */
  function Skip(j: nat, k: nat): (i: nat)
    ensures i != j && (i < j <==> k < j)
  {
    if k < j then k else k + 1
  }

  /** Sums whose terms agree on the range are equal. */
  lemma {:induction false} SumExt(n: nat, f: nat -> int, g: nat -> int)
    requires forall i: nat :: i < n ==> f(i) == g(i)
    ensures Sum(n, f) == Sum(n, g)
  {
    if n > 0 {
      SumExt(n - 1, f, g);
    }
  }

  /** A sum of zeros is zero. */
  lemma {:induction false} SumZero(n: nat, f: nat -> int)
    requires forall i: nat :: i < n ==> f(i) == 0
    ensures Sum(n, f) == 0
  {
    if n > 0 {
      SumZero(n - 1, f);
    }
  }

  /** Sums add termwise: h = f + g on the range gives Sum(h) = Sum(f) + Sum(g). */
  lemma {:induction false} SumAdd(n: nat, f: nat -> int, g: nat -> int, h: nat -> int)
    requires forall i: nat :: i < n ==> h(i) == f(i) + g(i)
    ensures Sum(n, h) == Sum(n, f) + Sum(n, g)
  {
    if n > 0 {
      SumAdd(n - 1, f, g, h);
    }
  }

  /** A constant factor moves out of a sum: g = c * f on the range. */
  lemma {:induction false} SumScale(n: nat, c: int, f: nat -> int, g: nat -> int)
    requires forall i: nat :: i < n ==> g(i) == c * f(i)
    ensures Sum(n, g) == c * Sum(n, f)
  {
    if n > 0 {
      SumScale(n - 1, c, f, g);
      assert c * Sum(n, f) == c * Sum(n - 1, f) + c * f(n - 1);
    }
  }

  /** A sum splits into its first term and the sum of the shifted rest g(i) = f(i + 1). */
  lemma {:induction false} SumFirst(n: nat, f: nat -> int, g: nat -> int)
    requires n >= 1
    requires forall i: nat :: i < n - 1 ==> g(i) == f(i + 1)
    ensures Sum(n, f) == f(0) + Sum(n - 1, g)
  {
    if n > 1 {
      SumFirst(n - 1, f, g);
    }
  }

  /** Summing over the range without j, g(k) = f(Skip(j, k)), gives the full sum less the
      term at j. */
  lemma {:induction false} SumSkip(n: nat, j: nat, f: nat -> int, g: nat -> int)
    requires j < n
    requires forall k: nat :: k < n - 1 ==> g(k) == f(Skip(j, k))
    ensures Sum(n - 1, g) == Sum(n, f) - f(j)
  {
    if j == n - 1 {
      SumExt(n - 1, g, f);
    } else {
      SumSkip(n - 1, j, f, g);
      assert Skip(j, n - 2) == n - 1;
    }
  }

  /** A sum in which every term but the one at j vanishes is that term. */
  lemma {:induction false} SumDelta(n: nat, j: nat, f: nat -> int)
    requires j < n
    requires forall i: nat :: i < n && i != j ==> f(i) == 0
    ensures Sum(n, f) == f(j)
  {
    var g := (k: nat) => f(Skip(j, k));
    SumSkip(n, j, f, g);
    forall k: nat | k < n - 1
      ensures g(k) == 0
    {
      assert Skip(j, k) < n;
    }
    SumZero(n - 1, g);
  }

  /** Row i of the double sum over F. */
  function RowSum(m: nat, F: (nat, nat) -> int, i: nat): int
  {
    Sum(m, (j: nat) => F(i, j))
  }

  /** Column j of the double sum over F. */
  function ColSum(n: nat, F: (nat, nat) -> int, j: nat): int
  {
    Sum(n, (i: nat) => F(i, j))
  }

  lemma {:induction false} RowSumIs(m: nat, F: (nat, nat) -> int, i: nat, g: nat -> int)
    requires forall j: nat :: j < m ==> g(j) == F(i, j)
    ensures RowSum(m, F, i) == Sum(m, g)
  {
    SumExt(m, (j: nat) => F(i, j), g);
  }

  lemma {:induction false} ColSumIs(n: nat, F: (nat, nat) -> int, j: nat, g: nat -> int)
    requires forall i: nat :: i < n ==> g(i) == F(i, j)
    ensures ColSum(n, F, j) == Sum(n, g)
  {
    SumExt(n, (i: nat) => F(i, j), g);
  }

  /** Row i of a double sum whose diagonal term F(i, i) vanishes is the sum over the other
      columns, g(k) = F(i, Skip(i, k)). */
  lemma {:induction false} RowSumSkip(n: nat, F: (nat, nat) -> int, i: nat, g: nat -> int)
    requires i < n && F(i, i) == 0
    requires forall k: nat :: k < n - 1 ==> g(k) == F(i, Skip(i, k))
    ensures RowSum(n, F, i) == Sum(n - 1, g)
  {
    var row := (j: nat) => F(i, j);
    SumSkip(n, i, row, g);
  }

  /** Column j of a double sum whose diagonal term F(j, j) vanishes is the sum over the
      other rows, g(k) = F(Skip(j, k), j). */
  lemma {:induction false} ColSumSkip(n: nat, F: (nat, nat) -> int, j: nat, g: nat -> int)
    requires j < n && F(j, j) == 0
    requires forall k: nat :: k < n - 1 ==> g(k) == F(Skip(j, k), j)
    ensures ColSum(n, F, j) == Sum(n - 1, g)
  {
    var col := (i: nat) => F(i, j);
    SumSkip(n, j, col, g);
  }

  /** The order of a double sum can be exchanged: summing the row sums R of F gives the
      same as summing its column sums C. */
  lemma {:induction false} SumSwap(n: nat, m: nat, F: (nat, nat) -> int, R: nat -> int, C: nat -> int)
    requires forall i: nat :: i < n ==> R(i) == RowSum(m, F, i)
    requires forall j: nat :: j < m ==> C(j) == ColSum(n, F, j)
    ensures Sum(n, R) == Sum(m, C)
  {
    if n == 0 {
      SumZero(m, C);
    } else {
      var C' := (j: nat) => ColSum(n - 1, F, j);
      SumSwap(n - 1, m, F, R, C');
      var last := (j: nat) => F(n - 1, j);
      RowSumIs(m, F, n - 1, last);
      SumAdd(m, C', last, C);
    }
  }

  /** Sums whose terms agree modulo 26 agree modulo 26. */
  lemma {:induction false} SumMod(n: nat, f: nat -> int, g: nat -> int)
    requires forall i: nat :: i < n ==> f(i) % 26 == g(i) % 26
    ensures Sum(n, f) % 26 == Sum(n, g) % 26
  {
    if n > 0 {
      SumMod(n - 1, f, g);
    }
  }

  /** A factor may be reduced modulo 26 before multiplying. */
  lemma {:induction false} MulModLeft(a: int, b: int)
    ensures ((a % 26) * b) % 26 == (a * b) % 26
  {
    var q, r := a / 26, a % 26;
    assert a * b == 26 * (q * b) + r * b by {
      assert a == 26 * q + r;
      SplitProduct(q, r, b);
    }
    ModShift(q * b, r * b);
  }

  lemma {:induction false} SplitProduct(q: int, r: int, b: int)
    ensures (26 * q + r) * b == 26 * (q * b) + r * b
  {
  }

  /** Adding a multiple of 26 does not change the remainder. */
  lemma {:induction false} ModShift(k: int, y: int)
    ensures (26 * k + y) % 26 == y % 26
  {
  }

  /** The same, for the right factor. */
  lemma {:induction false} MulModRight(a: int, b: int)
    ensures (a * (b % 26)) % 26 == (a * b) % 26
  {
    MulModLeft(b, a);
  }
}
