/** Laplace's theorem for the determinant: the cofactor expansion along every row and along
    the first column gives the determinant, a matrix with two equal rows has determinant 0,
    transposing keeps the determinant, and the adjugate identities
      K * adj(K) == det(K) * I   and   adj(K) * K == det(K) * I
    hold for every size N. */
module Laplace {
  import opened Sums
  import opened Matrices
  import opened Determinant

  /** Regrouping a product of signed terms. */
  lemma {:induction false} Regroup(q: int, p: int, s: int, t: int, x: int, y: int, d: int, e: int, cof: int)
    requires q == p * (x * y * d)
    requires p == s * t
    requires e == y
    requires cof == t * d
    ensures q == (x * s) * (e * cof)
  {
  }

  /** The same regrouping, with the factor from the second row leading. */
  lemma {:induction false} RegroupSwapped(q: int, p: int, s: int, t: int, x: int, y: int, d: int, e: int, cof: int)
    requires q == p * (x * y * d)
    requires p == s * t
    requires e == x
    requires cof == t * d
    ensures q == (y * s) * (e * cof)
  {
  }

  /** The signs of a pair term as seen from row 0's expansion. */
  lemma {:induction false} DetSideSign(j: nat, r: nat, k: nat)
    requires r > 0
    ensures PairSign(j, Skip(j, k)) * Sign(j + r + Skip(j, k)) == Sign(j) * Sign(r - 1 + k)
  {
  }

  /** The signs of a pair term as seen from row r's expansion. */
  lemma {:induction false} ExpSideSign(c: nat, r: nat, k: nat)
    ensures PairSign(Skip(c, k), c) * Sign(Skip(c, k) + r + c) == Sign(r + c) * Sign(k)
  {
  }

  // ---------------------------------------------------------------------------------
  // Expansion along any row gives the determinant.

  /** The index of column c once column j (j != c) has been deleted. */
  function Unskip(j: nat, c: nat): nat
  {
    if c < j then c else if c > 0 then c - 1 else 0
  }

  /** The sign that the pair of columns (j, c) picks up in the double expansion. */
  function PairSign(j: nat, c: nat): int
  {
    if c < j then -1 else 1
  }

  /** The term of the double expansion along row 0 and row r that uses column j in row 0
      and column c in row r. */
  function PairTerm(M: Matrix, r: nat, j: nat, c: nat): int
  {
    if j == c || r == 0 then 0
    else (PairSign(j, c) * Sign(j + r + c)) *
         (Entry(M, 0, j) * Entry(M, r, c) * Det(Minor(Minor(M, 0, j), r - 1, Unskip(j, c))))
  }

  /** The pair terms as one function of (j, c). */
  function PairTerms(M: Matrix, r: nat): (nat, nat) -> int
  {
    (j: nat, c: nat) => PairTerm(M, r, j, c)
  }

  /** A pair term away from the diagonal, unfolded. */
  lemma {:induction false} PairTermIs(M: Matrix, r: nat, j: nat, c: nat)
    requires j != c && r > 0
    ensures PairTerm(M, r, j, c) == (PairSign(j, c) * Sign(j + r + c)) *
      (Entry(M, 0, j) * Entry(M, r, c) * Det(Minor(Minor(M, 0, j), r - 1, Unskip(j, c))))
  {
  }

  /** The cofactor of a row inside the matrix, unfolded. */
  lemma {:induction false} CofactorIs(M: Matrix, i: nat, j: nat)
    requires i < |M|
    ensures Cofactor(M, i, j) == Sign(i + j) * Det(Minor(M, i, j))
  {
  }

  /** The entries and the minor that row 0's expansion, expanded along row r, meets. */
  lemma {:induction false} DetSideFacts(M: Matrix, r: nat, j: nat, k: nat)
    requires Square(M) && |M| >= 2 && 0 < r < |M| && j < |M| && k < |M| - 1
    ensures Entry(Minor(M, 0, j), r - 1, k) == Entry(M, r, Skip(j, k))
    ensures Unskip(j, Skip(j, k)) == k
  {
    MinorAt(M, 0, j);
  }

  /** One term of row 0's expansion, expanded once more along row r, is a pair term. */
  lemma {:induction false} DetSidePoint(M: Matrix, r: nat, j: nat, k: nat)
    requires Square(M) && |M| >= 2 && 0 < r < |M| && j < |M| && k < |M| - 1
    ensures PairTerm(M, r, j, Skip(j, k)) ==
      (Entry(M, 0, j) * Sign(j)) * (Entry(Minor(M, 0, j), r - 1, k) * Cofactor(Minor(M, 0, j), r - 1, k))
  {
    var c := Skip(j, k);
    var N := Minor(M, 0, j);
    var d := Det(Minor(N, r - 1, k));
    var p := PairSign(j, c) * Sign(j + r + c);
    assert p == Sign(j) * Sign(r - 1 + k) by { DetSideSign(j, r, k); }
    assert Entry(N, r - 1, k) == Entry(M, r, c) && Unskip(j, c) == k by { DetSideFacts(M, r, j, k); }
    assert PairTerm(M, r, j, c) == p * (Entry(M, 0, j) * Entry(M, r, c) * d) by { PairTermIs(M, r, j, c); }
    assert Cofactor(N, r - 1, k) == Sign(r - 1 + k) * d by { CofactorIs(N, r - 1, k); }
    Regroup(PairTerm(M, r, j, c), PairSign(j, c) * Sign(j + r + c), Sign(j), Sign(r - 1 + k),
      Entry(M, 0, j), Entry(M, r, c), Det(Minor(N, r - 1, k)), Entry(N, r - 1, k), Cofactor(N, r - 1, k));
  }

  /** The entries and the minor that row r's expansion, expanded along row 0, meets. */
  lemma {:induction false} ExpSideFacts(M: Matrix, r: nat, c: nat, k: nat)
    requires Square(M) && |M| >= 2 && 0 < r < |M| && c < |M| && k < |M| - 1
    ensures Entry(Minor(M, r, c), 0, k) == Entry(M, 0, Skip(c, k))
    ensures Skip(c, k) != c
    ensures Minor(Minor(M, r, c), 0, k) == Minor(Minor(M, 0, Skip(c, k)), r - 1, Unskip(Skip(c, k), c))
  {
    MinorAt(M, r, c);
    var j := Skip(c, k);
    MinorMinorSame(M, r, c, 0, k, 0, j, r - 1, Unskip(j, c));
  }

  /** One term of row r's expansion, expanded once more along row 0, is a pair term. */
  lemma {:induction false} ExpSidePoint(M: Matrix, r: nat, c: nat, k: nat)
    requires Square(M) && |M| >= 2 && 0 < r < |M| && c < |M| && k < |M| - 1
    ensures PairTerm(M, r, Skip(c, k), c) ==
      (Entry(M, r, c) * Sign(r + c)) * (Entry(Minor(M, r, c), 0, k) * Cofactor(Minor(M, r, c), 0, k))
  {
    var N := Minor(M, r, c);
    var j := Skip(c, k);
    var d := Det(Minor(N, 0, k));
    var p := PairSign(j, c) * Sign(j + r + c);
    assert p == Sign(r + c) * Sign(k) by { ExpSideSign(c, r, k); }
    assert Entry(N, 0, k) == Entry(M, 0, j) && j != c && Minor(N, 0, k) == Minor(Minor(M, 0, j), r - 1, Unskip(j, c)) by {
      ExpSideFacts(M, r, c, k);
    }
    assert PairTerm(M, r, j, c) == p * (Entry(M, 0, j) * Entry(M, r, c) * d) by { PairTermIs(M, r, j, c); }
    assert Cofactor(N, 0, k) == Sign(k) * d by { CofactorIs(N, 0, k); }
    RegroupSwapped(PairTerm(M, r, j, c), PairSign(j, c) * Sign(j + r + c), Sign(r + c), Sign(k),
      Entry(M, 0, j), Entry(M, r, c), Det(Minor(N, 0, k)), Entry(N, 0, k), Cofactor(N, 0, k));
  }

  /** The determinant of an m x m matrix N whose expansion along row q is known to be its
      determinant, for any function f that lists the terms of that expansion. */
  lemma {:induction false} ExpansionSum(N: Matrix, q: nat, m: nat, f: nat -> int)
    requires Square(N) && |N| == m && q < m && RowExpansion(N, q) == Det(N)
    requires forall k: nat :: k < m ==> f(k) == Entry(N, q, k) * Cofactor(N, q, k)
    ensures Det(N) == Sum(m, f)
  {
    RowExpansionIs(N, q, f);
  }

  /** An entry times its cofactor s * d, where d is a sum sf and the entry's pair terms add
      up to total == sg == (entry * s) * sf. */
  lemma {:induction false} ScaledTerm(e: int, cof: int, s: int, d: int, sf: int, sg: int, total: int)
    requires cof == s * d
    requires d == sf
    requires sg == (e * s) * sf
    requires total == sg
    ensures e * cof == total
  {
  }

  /** The expansion along row r, for any function that lists its terms. */
  lemma {:induction false} RowExpansionIs(M: Matrix, r: nat, f: nat -> int)
    requires forall c: nat :: c < |M| ==> f(c) == Entry(M, r, c) * Cofactor(M, r, c)
    ensures RowExpansion(M, r) == Sum(|M|, f)
  {
    SumExt(|M|, (c: nat) => Entry(M, r, c) * Cofactor(M, r, c), f);
  }

  /** The expansion along the first column, for any function that lists its terms. */
  lemma {:induction false} ColExpansionIs(M: Matrix, f: nat -> int)
    requires forall i: nat :: i < |M| ==> f(i) == Entry(M, i, 0) * Cofactor(M, i, 0)
    ensures ColExpansion(M) == Sum(|M|, f)
  {
    SumExt(|M|, (i: nat) => Entry(M, i, 0) * Cofactor(M, i, 0), f);
  }

  /** Row 0's pair terms at column j are c, that entry times its sign, times the terms of
      the expansion of its minor along row r - 1; m == |M| - 1 counts the other columns. */
  lemma {:induction false} DetSidePoints(M: Matrix, r: nat, j: nat, m: nat, c: int, f: nat -> int, g: nat -> int)
    requires Square(M) && |M| >= 2 && 0 < r < |M| && j < |M| && m == |M| - 1 && c == Entry(M, 0, j) * Sign(j)
    requires forall k: nat :: k < m ==> f(k) == Entry(Minor(M, 0, j), r - 1, k) * Cofactor(Minor(M, 0, j), r - 1, k)
    requires forall k: nat :: k < m ==> g(k) == PairTerm(M, r, j, Skip(j, k))
    ensures forall k: nat :: k < m ==> g(k) == c * f(k)
  {
    forall k: nat | k < m
      ensures g(k) == c * f(k)
    {
      DetSidePoint(M, r, j, k);
    }
  }

  /** Row j of the pair terms adds up to c times the expansion of the minor. */
  lemma {:induction false} DetSideScaled(M: Matrix, r: nat, j: nat, m: nat, c: int, f: nat -> int, g: nat -> int)
    requires Square(M) && |M| >= 2 && 0 < r < |M| && j < |M| && m == |M| - 1 && c == Entry(M, 0, j) * Sign(j)
    requires forall k: nat :: k < m ==> f(k) == Entry(Minor(M, 0, j), r - 1, k) * Cofactor(Minor(M, 0, j), r - 1, k)
    requires forall k: nat :: k < m ==> g(k) == PairTerm(M, r, j, Skip(j, k))
    ensures Sum(m, g) == c * Sum(m, f)
  {
    DetSidePoints(M, r, j, m, c, f, g);
    SumScale(m, c, f, g);
  }

  /** Row j of the double sum of pair terms skips its diagonal term, which is 0. */
  lemma {:induction false} DetSideRow(M: Matrix, r: nat, j: nat, m: nat, g: nat -> int)
    requires Square(M) && |M| >= 2 && 0 < r < |M| && j < |M| && m == |M| - 1
    requires forall k: nat :: k < m ==> g(k) == PairTerm(M, r, j, Skip(j, k))
    ensures RowSum(|M|, PairTerms(M, r), j) == Sum(m, g)
  {
    RowSumSkip(|M|, PairTerms(M, r), j, g);
  }

  /** The minor without row 0 and column j, whose expansion along row r - 1 is known to be
      its determinant, has as determinant the sum of f, the terms of that expansion. */
  lemma {:induction false} DetSideMinor(M: Matrix, r: nat, j: nat, m: nat, f: nat -> int)
    requires Square(M) && |M| >= 2 && 0 < r < |M| && j < |M| && m == |M| - 1
    requires RowExpansion(Minor(M, 0, j), r - 1) == Det(Minor(M, 0, j))
    requires forall k: nat :: k < m ==> f(k) == Entry(Minor(M, 0, j), r - 1, k) * Cofactor(Minor(M, 0, j), r - 1, k)
    ensures Det(Minor(M, 0, j)) == Sum(m, f)
  {
    MinorSquare(M, 0, j);
    ExpansionSum(Minor(M, 0, j), r - 1, m, f);
  }

  /** Row 0's term at column j is row j of the double sum of pair terms. */
  lemma {:induction false} DetSideTerm(M: Matrix, r: nat, j: nat)
    requires Square(M) && |M| >= 2 && 0 < r < |M| && j < |M|
    ensures Entry(M, 0, j) * Cofactor(M, 0, j) == RowSum(|M|, PairTerms(M, r), j)
    decreases |M|, 1
  {
    var N := Minor(M, 0, j);
    var f := (k: nat) => Entry(N, r - 1, k) * Cofactor(N, r - 1, k);
    var g := (k: nat) => PairTerm(M, r, j, Skip(j, k));
    DetSideSum(M, r, j, |M| - 1, f, g);
  }

  /** The same, for any functions f and g that list the terms of the minor's expansion
      and row j of the pair terms. */
  lemma {:induction false} DetSideSum(M: Matrix, r: nat, j: nat, m: nat, f: nat -> int, g: nat -> int)
    requires Square(M) && |M| >= 2 && 0 < r < |M| && j < |M| && m == |M| - 1
    requires forall k: nat :: k < m ==> f(k) == Entry(Minor(M, 0, j), r - 1, k) * Cofactor(Minor(M, 0, j), r - 1, k)
    requires forall k: nat :: k < m ==> g(k) == PairTerm(M, r, j, Skip(j, k))
    ensures Entry(M, 0, j) * Cofactor(M, 0, j) == RowSum(|M|, PairTerms(M, r), j)
    decreases |M|, 0
  {
    var N := Minor(M, 0, j);
    var e, s := Entry(M, 0, j), Sign(j);
    var sf, sg, row := Sum(m, f), Sum(m, g), RowSum(|M|, PairTerms(M, r), j);
    assert Cofactor(M, 0, j) == s * Det(N) by { CofactorIs(M, 0, j); }
    assert RowExpansion(N, r - 1) == Det(N) by {
      MinorSquare(M, 0, j);
      RowExpansionIsDet(N, r - 1);
    }
    assert Det(N) == sf by { DetSideMinor(M, r, j, m, f); }
    assert sg == (e * s) * sf by { DetSideScaled(M, r, j, m, e * s, f, g); }
    assert row == sg by { DetSideRow(M, r, j, m, g); }
    ScaledTerm(e, Cofactor(M, 0, j), s, Det(N), sf, sg, row);
  }

  /** Row r's pair terms in column c are e, the entry (r, c) times its sign, times the terms
      of the expansion of its minor along the first row. */
  lemma {:induction false} ExpSidePoints(M: Matrix, r: nat, c: nat, m: nat, e: int, f: nat -> int, g: nat -> int)
    requires Square(M) && |M| >= 2 && 0 < r < |M| && c < |M| && m == |M| - 1 && e == Entry(M, r, c) * Sign(r + c)
    requires forall k: nat :: k < m ==> f(k) == Entry(Minor(M, r, c), 0, k) * Cofactor(Minor(M, r, c), 0, k)
    requires forall k: nat :: k < m ==> g(k) == PairTerm(M, r, Skip(c, k), c)
    ensures forall k: nat :: k < m ==> g(k) == e * f(k)
  {
    forall k: nat | k < m
      ensures g(k) == e * f(k)
    {
      ExpSidePoint(M, r, c, k);
    }
  }

  /** Column c of the pair terms adds up to e times the expansion of the minor. */
  lemma {:induction false} ExpSideScaled(M: Matrix, r: nat, c: nat, m: nat, e: int, f: nat -> int, g: nat -> int)
    requires Square(M) && |M| >= 2 && 0 < r < |M| && c < |M| && m == |M| - 1 && e == Entry(M, r, c) * Sign(r + c)
    requires forall k: nat :: k < m ==> f(k) == Entry(Minor(M, r, c), 0, k) * Cofactor(Minor(M, r, c), 0, k)
    requires forall k: nat :: k < m ==> g(k) == PairTerm(M, r, Skip(c, k), c)
    ensures Sum(m, g) == e * Sum(m, f)
  {
    ExpSidePoints(M, r, c, m, e, f, g);
    SumScale(m, e, f, g);
  }

  /** Column c of the double sum of pair terms skips its diagonal term, which is 0. */
  lemma {:induction false} ExpSideCol(M: Matrix, r: nat, c: nat, m: nat, g: nat -> int)
    requires Square(M) && |M| >= 2 && 0 < r < |M| && c < |M| && m == |M| - 1
    requires forall k: nat :: k < m ==> g(k) == PairTerm(M, r, Skip(c, k), c)
    ensures ColSum(|M|, PairTerms(M, r), c) == Sum(m, g)
  {
    ColSumSkip(|M|, PairTerms(M, r), c, g);
  }

  /** The minor without row r and column c has as determinant the sum of f, the terms of
      its expansion along the first row. */
  lemma {:induction false} ExpSideMinor(M: Matrix, r: nat, c: nat, m: nat, f: nat -> int)
    requires Square(M) && |M| >= 2 && 0 < r < |M| && c < |M| && m == |M| - 1
    requires forall k: nat :: k < m ==> f(k) == Entry(Minor(M, r, c), 0, k) * Cofactor(Minor(M, r, c), 0, k)
    ensures Det(Minor(M, r, c)) == Sum(m, f)
  {
    MinorSquare(M, r, c);
    DetRow0(Minor(M, r, c));
    ExpansionSum(Minor(M, r, c), 0, m, f);
  }

  /** Row r's term at column c is column c of the double sum of pair terms. */
  lemma {:induction false} ExpSideTerm(M: Matrix, r: nat, c: nat)
    requires Square(M) && |M| >= 2 && 0 < r < |M| && c < |M|
    ensures Entry(M, r, c) * Cofactor(M, r, c) == ColSum(|M|, PairTerms(M, r), c)
  {
    var N := Minor(M, r, c);
    var f := (k: nat) => Entry(N, 0, k) * Cofactor(N, 0, k);
    var g := (k: nat) => PairTerm(M, r, Skip(c, k), c);
    ExpSideSum(M, r, c, |M| - 1, f, g);
  }

  /** The same, for any functions f and g that list the terms of the minor's expansion
      and column c of the pair terms. */
  lemma {:induction false} ExpSideSum(M: Matrix, r: nat, c: nat, m: nat, f: nat -> int, g: nat -> int)
    requires Square(M) && |M| >= 2 && 0 < r < |M| && c < |M| && m == |M| - 1
    requires forall k: nat :: k < m ==> f(k) == Entry(Minor(M, r, c), 0, k) * Cofactor(Minor(M, r, c), 0, k)
    requires forall k: nat :: k < m ==> g(k) == PairTerm(M, r, Skip(c, k), c)
    ensures Entry(M, r, c) * Cofactor(M, r, c) == ColSum(|M|, PairTerms(M, r), c)
  {
    var N := Minor(M, r, c);
    var e, s := Entry(M, r, c), Sign(r + c);
    var sf, sg, col := Sum(m, f), Sum(m, g), ColSum(|M|, PairTerms(M, r), c);
    assert Cofactor(M, r, c) == s * Det(N) by { CofactorIs(M, r, c); }
    assert Det(N) == sf by { ExpSideMinor(M, r, c, m, f); }
    assert sg == (e * s) * sf by { ExpSideScaled(M, r, c, m, e * s, f, g); }
    assert col == sg by { ExpSideCol(M, r, c, m, g); }
    ScaledTerm(e, Cofactor(M, r, c), s, Det(N), sf, sg, col);
  }

  /** Laplace's theorem: the cofactor expansion along any row is the determinant. */
  lemma {:induction false} RowExpansionIsDet(M: Matrix, r: nat)
    requires Square(M) && r < |M|
    ensures RowExpansion(M, r) == Det(M)
    decreases |M|, 2
  {
    DetRow0(M);
    if r > 0 {
      var n := |M|;
      var F := PairTerms(M, r);
      forall j: nat | j < n
        ensures Entry(M, 0, j) * Cofactor(M, 0, j) == RowSum(n, F, j)
      {
        DetSideTerm(M, r, j);
      }
      forall c: nat | c < n
        ensures Entry(M, r, c) * Cofactor(M, r, c) == ColSum(n, F, c)
      {
        ExpSideTerm(M, r, c);
      }
      SumSwap(n, n, F, (j: nat) => Entry(M, 0, j) * Cofactor(M, 0, j), (c: nat) => Entry(M, r, c) * Cofactor(M, r, c));
    }
  }

  // ---------------------------------------------------------------------------------
  // A matrix with two equal rows has determinant 0.

  /** Deleting a row and a column keeps two equal rows (other than the deleted one) equal. */
  lemma {:induction false} MinorKeepsEqualRows(M: Matrix, a: nat, b: nat, r: nat, c: nat)
    requires Square(M) && a < b < |M| && M[a] == M[b] && r < |M| && r != a && r != b && c < |M|
    ensures var a' := if a < r then a else a - 1;
            var b' := if b < r then b else b - 1;
            a' < b' < |Minor(M, r, c)| && Minor(M, r, c)[a'] == Minor(M, r, c)[b']
  {
    var a' := if a < r then a else a - 1;
    var b' := if b < r then b else b - 1;
    assert Skip(r, a') == a && Skip(r, b') == b;
  }

  /** A square matrix with two equal rows has determinant 0. */
  lemma {:induction false} EqualRowsDet(M: Matrix, a: nat, b: nat)
    requires Square(M) && a < b < |M| && M[a] == M[b]
    ensures Det(M) == 0
    decreases |M|
  {
    var n := |M|;
    if n == 2 {
      Det2(M);
    } else {
      var r := if a > 0 then 0 else if b > 1 then 1 else 2;
      forall c: nat | c < n
        ensures Entry(M, r, c) * Cofactor(M, r, c) == 0
      {
        MinorKeepsEqualRows(M, a, b, r, c);
        MinorAt(M, r, c);
        var a' := if a < r then a else a - 1;
        var b' := if b < r then b else b - 1;
        EqualRowsDet(Minor(M, r, c), a', b');
      }
      SumZero(n, (c: nat) => Entry(M, r, c) * Cofactor(M, r, c));
      RowExpansionIsDet(M, r);
    }
  }

  // ---------------------------------------------------------------------------------
  // Expansion along the first column, and the determinant of the transpose.

  /** The term of the double expansion along row 0 and column 0 that uses entry (0, j + 1)
      and entry (i + 1, 0). */
  function CornerTerm(M: Matrix, j: nat, i: nat): int
  {
    Sign(i + j + 1) * (Entry(M, 0, j + 1) * Entry(M, i + 1, 0) * Det(Minor(Minor(M, 0, j + 1), i, 0)))
  }

  /** The corner terms as one function of (j, i). */
  function CornerTerms(M: Matrix): (nat, nat) -> int
  {
    (j: nat, i: nat) => CornerTerm(M, j, i)
  }

  /** The signs of a corner term. */
  lemma {:induction false} CornerSign(i: nat, j: nat)
    ensures Sign(i + j + 1) == Sign(j + 1) * Sign(i)
  {
  }

  /** The entries and the minor that row 0's expansion, expanded along column 0, meets. */
  lemma {:induction false} RowCornerFacts(M: Matrix, j: nat, i: nat)
    requires Square(M) && |M| >= 2 && j < |M| - 1 && i < |M| - 1
    ensures Entry(Minor(M, 0, j + 1), i, 0) == Entry(M, i + 1, 0)
  {
    MinorAt(M, 0, j + 1);
  }

  /** The entries and the minor that column 0's expansion, expanded along row 0, meets. */
  lemma {:induction false} ColCornerFacts(M: Matrix, i: nat, k: nat)
    requires Square(M) && |M| >= 2 && i < |M| - 1 && k < |M| - 1
    ensures Entry(Minor(M, i + 1, 0), 0, k) == Entry(M, 0, k + 1)
    ensures Minor(Minor(M, i + 1, 0), 0, k) == Minor(Minor(M, 0, k + 1), i, 0)
  {
    MinorAt(M, i + 1, 0);
    MinorMinorSame(M, i + 1, 0, 0, k, 0, k + 1, i, 0);
  }

  /** One term of row 0's expansion, expanded once more along column 0, is a corner term. */
  lemma {:induction false} RowCornerPoint(M: Matrix, j: nat, i: nat)
    requires Square(M) && |M| >= 2 && j < |M| - 1 && i < |M| - 1
    ensures CornerTerm(M, j, i) ==
      (Entry(M, 0, j + 1) * Sign(j + 1)) * (Entry(Minor(M, 0, j + 1), i, 0) * Cofactor(Minor(M, 0, j + 1), i, 0))
  {
    var N := Minor(M, 0, j + 1);
    CornerSign(i, j);
    RowCornerFacts(M, j, i);
    CofactorIs(N, i, 0);
    Regroup(CornerTerm(M, j, i), Sign(i + j + 1), Sign(j + 1), Sign(i),
      Entry(M, 0, j + 1), Entry(M, i + 1, 0), Det(Minor(N, i, 0)), Entry(N, i, 0), Cofactor(N, i, 0));
  }

  /** One term of column 0's expansion, expanded once more along row 0, is a corner term. */
  lemma {:induction false} ColCornerPoint(M: Matrix, i: nat, k: nat)
    requires Square(M) && |M| >= 2 && i < |M| - 1 && k < |M| - 1
    ensures CornerTerm(M, k, i) ==
      (Entry(M, i + 1, 0) * Sign(i + 1)) * (Entry(Minor(M, i + 1, 0), 0, k) * Cofactor(Minor(M, i + 1, 0), 0, k))
  {
    var N := Minor(M, i + 1, 0);
    CornerSign(k, i);
    ColCornerFacts(M, i, k);
    CofactorIs(N, 0, k);
    RegroupSwapped(CornerTerm(M, k, i), Sign(i + k + 1), Sign(i + 1), Sign(k),
      Entry(M, 0, k + 1), Entry(M, i + 1, 0), Det(Minor(Minor(M, 0, k + 1), i, 0)), Entry(N, 0, k), Cofactor(N, 0, k));
  }

  /** Row 0's corner terms from column j + 1 are that entry times the signed terms of the
      expansion of its minor along the first column. */
  lemma {:induction false} RowCornerPoints(M: Matrix, j: nat, f: nat -> int, g: nat -> int)
    requires Square(M) && |M| >= 2 && j < |M| - 1
    requires forall i: nat :: i < |M| - 1 ==> f(i) == Entry(Minor(M, 0, j + 1), i, 0) * Cofactor(Minor(M, 0, j + 1), i, 0)
    requires forall i: nat :: i < |M| - 1 ==> g(i) == CornerTerm(M, j, i)
    ensures forall i: nat :: i < |M| - 1 ==> g(i) == (Entry(M, 0, j + 1) * Sign(j + 1)) * f(i)
  {
    forall i: nat | i < |M| - 1
      ensures g(i) == (Entry(M, 0, j + 1) * Sign(j + 1)) * f(i)
    {
      RowCornerPoint(M, j, i);
    }
  }

  /** Column 0's corner terms from row i + 1 are that entry times the signed terms of the
      expansion of its minor along the first row. */
  lemma {:induction false} ColCornerPoints(M: Matrix, i: nat, f: nat -> int, g: nat -> int)
    requires Square(M) && |M| >= 2 && i < |M| - 1
    requires forall k: nat :: k < |M| - 1 ==> f(k) == Entry(Minor(M, i + 1, 0), 0, k) * Cofactor(Minor(M, i + 1, 0), 0, k)
    requires forall k: nat :: k < |M| - 1 ==> g(k) == CornerTerm(M, k, i)
    ensures forall k: nat :: k < |M| - 1 ==> g(k) == (Entry(M, i + 1, 0) * Sign(i + 1)) * f(k)
  {
    forall k: nat | k < |M| - 1
      ensures g(k) == (Entry(M, i + 1, 0) * Sign(i + 1)) * f(k)
    {
      ColCornerPoint(M, i, k);
    }
  }

  /** Row 0's term at column j + 1 is row j of the double sum of corner terms. */
  lemma {:induction false} RowCornerTerm(M: Matrix, j: nat)
    requires Square(M) && |M| >= 2 && j < |M| - 1
    ensures Entry(M, 0, j + 1) * Cofactor(M, 0, j + 1) == RowSum(|M| - 1, CornerTerms(M), j)
    decreases |M|, 0
  {
    var n := |M|;
    var N := Minor(M, 0, j + 1);
    MinorSquare(M, 0, j + 1);
    var f := (i: nat) => Entry(N, i, 0) * Cofactor(N, i, 0);
    ColExpansionIsDet(N);
    ColExpansionIs(N, f);
    var g := (i: nat) => CornerTerm(M, j, i);
    RowCornerPoints(M, j, f, g);
    SumScale(n - 1, Entry(M, 0, j + 1) * Sign(j + 1), f, g);
    RowSumIs(n - 1, CornerTerms(M), j, g);
    CofactorIs(M, 0, j + 1);
    ScaledTerm(Entry(M, 0, j + 1), Cofactor(M, 0, j + 1), Sign(j + 1), Det(N), Sum(n - 1, f), Sum(n - 1, g),
      RowSum(n - 1, CornerTerms(M), j));
  }

  /** Column 0's term at row i + 1 is column i of the double sum of corner terms. */
  lemma {:induction false} ColCornerTerm(M: Matrix, i: nat)
    requires Square(M) && |M| >= 2 && i < |M| - 1
    ensures Entry(M, i + 1, 0) * Cofactor(M, i + 1, 0) == ColSum(|M| - 1, CornerTerms(M), i)
  {
    var n := |M|;
    var N := Minor(M, i + 1, 0);
    MinorSquare(M, i + 1, 0);
    var f := (k: nat) => Entry(N, 0, k) * Cofactor(N, 0, k);
    RowExpansionIs(N, 0, f);
    DetRow0(N);
    var g := (k: nat) => CornerTerm(M, k, i);
    ColCornerPoints(M, i, f, g);
    SumScale(n - 1, Entry(M, i + 1, 0) * Sign(i + 1), f, g);
    ColSumIs(n - 1, CornerTerms(M), i, g);
    CofactorIs(M, i + 1, 0);
    ScaledTerm(Entry(M, i + 1, 0), Cofactor(M, i + 1, 0), Sign(i + 1), Det(N), Sum(n - 1, f), Sum(n - 1, g),
      ColSum(n - 1, CornerTerms(M), i));
  }

  /** Row 0's expansion terms, and column 0's. */
  function RowTerms(M: Matrix): nat -> int
  {
    (j: nat) => Entry(M, 0, j) * Cofactor(M, 0, j)
  }

  function ColTerms(M: Matrix): nat -> int
  {
    (i: nat) => Entry(M, i, 0) * Cofactor(M, i, 0)
  }

  /** Row 0's expansion terms past the corner, and column 0's. */
  function RowRest(M: Matrix): nat -> int
  {
    (j: nat) => Entry(M, 0, j + 1) * Cofactor(M, 0, j + 1)
  }

  function ColRest(M: Matrix): nat -> int
  {
    (i: nat) => Entry(M, i + 1, 0) * Cofactor(M, i + 1, 0)
  }

  /** The terms past the corner are the expansion terms shifted by one. */
  lemma {:induction false} RestShift(M: Matrix)
    ensures forall i: nat :: RowRest(M)(i) == RowTerms(M)(i + 1)
    ensures forall i: nat :: ColRest(M)(i) == ColTerms(M)(i + 1)
  {
  }

  /** Past the corner, row 0's terms are the row sums of the corner terms. */
  lemma {:induction false} RowCornerSums(M: Matrix)
    requires Square(M) && |M| >= 2
    ensures forall j: nat :: j < |M| - 1 ==> RowRest(M)(j) == RowSum(|M| - 1, CornerTerms(M), j)
    decreases |M|, 1
  {
    forall j: nat | j < |M| - 1
      ensures RowRest(M)(j) == RowSum(|M| - 1, CornerTerms(M), j)
    {
      RowCornerTerm(M, j);
    }
  }

  /** Past the corner, column 0's terms are the column sums of the corner terms. */
  lemma {:induction false} ColCornerSums(M: Matrix)
    requires Square(M) && |M| >= 2
    ensures forall i: nat :: i < |M| - 1 ==> ColRest(M)(i) == ColSum(|M| - 1, CornerTerms(M), i)
    decreases |M|, 1
  {
    forall i: nat | i < |M| - 1
      ensures ColRest(M)(i) == ColSum(|M| - 1, CornerTerms(M), i)
    {
      ColCornerTerm(M, i);
    }
  }

  /** Past the corner, row 0's terms and column 0's terms have the same sum: both are the
      double sum of the corner terms. */
  lemma {:induction false} CornerSwap(M: Matrix)
    requires Square(M) && |M| >= 2
    ensures Sum(|M| - 1, RowRest(M)) == Sum(|M| - 1, ColRest(M))
    decreases |M|, 2
  {
    var m, F := |M| - 1, CornerTerms(M);
    var R := (j: nat) => RowSum(m, F, j);
    var C := (i: nat) => ColSum(m, F, i);
    assert Sum(m, RowRest(M)) == Sum(m, R) by {
      RowCornerSums(M);
      SumExt(m, RowRest(M), R);
    }
    assert Sum(m, ColRest(M)) == Sum(m, C) by {
      ColCornerSums(M);
      SumExt(m, ColRest(M), C);
    }
    SumSwap(m, m, F, R, C);
  }

  /** The determinant is the sum of row 0's expansion terms. */
  lemma {:induction false} RowTermsSum(M: Matrix)
    requires |M| >= 1
    ensures Det(M) == Sum(|M|, RowTerms(M))
  {
    DetRow0(M);
    RowExpansionIs(M, 0, RowTerms(M));
  }

  /** The expansion along column 0 is the sum of column 0's terms. */
  lemma {:induction false} ColTermsSum(M: Matrix)
    ensures ColExpansion(M) == Sum(|M|, ColTerms(M))
  {
    ColExpansionIs(M, ColTerms(M));
  }

  /** Row 0's terms add up to the corner term plus the terms past it. */
  lemma {:induction false} RowTermsFirst(M: Matrix)
    requires |M| >= 1
    ensures Sum(|M|, RowTerms(M)) == Entry(M, 0, 0) * Cofactor(M, 0, 0) + Sum(|M| - 1, RowRest(M))
  {
    RestShift(M);
    SumFirst(|M|, RowTerms(M), RowRest(M));
  }

  /** Column 0's terms add up to the corner term plus the terms past it. */
  lemma {:induction false} ColTermsFirst(M: Matrix)
    requires |M| >= 1
    ensures Sum(|M|, ColTerms(M)) == Entry(M, 0, 0) * Cofactor(M, 0, 0) + Sum(|M| - 1, ColRest(M))
  {
    RestShift(M);
    SumFirst(|M|, ColTerms(M), ColRest(M));
  }

  /** The determinant is the corner term plus the rest of row 0's expansion. */
  lemma {:induction false} RowSplit(M: Matrix)
    requires |M| >= 1
    ensures Det(M) == Entry(M, 0, 0) * Cofactor(M, 0, 0) + Sum(|M| - 1, RowRest(M))
  {
    RowTermsSum(M);
    RowTermsFirst(M);
  }

  /** The expansion along column 0 is the corner term plus the rest of column 0's terms. */
  lemma {:induction false} ColSplit(M: Matrix)
    requires |M| >= 1
    ensures ColExpansion(M) == Entry(M, 0, 0) * Cofactor(M, 0, 0) + Sum(|M| - 1, ColRest(M))
  {
    ColTermsSum(M);
    ColTermsFirst(M);
  }

  /** The cofactor expansion along the first column is the determinant: past the corner,
      row 0's terms and column 0's terms both add up to the double sum of the corner terms. */
  lemma {:induction false} ColExpansionIsDet(M: Matrix)
    requires Square(M) && |M| >= 1
    ensures ColExpansion(M) == Det(M)
    decreases |M|, 3
  {
    var corner := Entry(M, 0, 0) * Cofactor(M, 0, 0);
    var rowRest, colRest := Sum(|M| - 1, RowRest(M)), Sum(|M| - 1, ColRest(M));
    assert Det(M) == corner + rowRest by { RowSplit(M); }
    assert ColExpansion(M) == corner + colRest by { ColSplit(M); }
    if |M| >= 2 {
      CornerSwap(M);
    }
  }

  /** Deleting row r and column c of the transpose is transposing the matrix without row c
      and column r. */
  lemma {:induction false} MinorTranspose(M: Matrix, r: nat, c: nat)
    requires Square(M) && r < |M| && c < |M|
    ensures Minor(Transpose(M), r, c) == Transpose(Minor(M, c, r))
  {
    MinorAt(Transpose(M), r, c);
    MinorAt(M, c, r);
    MatrixExt(Minor(Transpose(M), r, c), Transpose(Minor(M, c, r)));
  }

  /** A matrix and its transpose have the same determinant. */
  lemma {:induction false} DetTranspose(M: Matrix)
    requires Square(M)
    ensures Det(Transpose(M)) == Det(M)
    decreases |M|
  {
    var n := |M|;
    if n > 0 {
      var T := Transpose(M);
      DetRow0(T);
      forall j: nat | j < n
        ensures Entry(T, 0, j) * Cofactor(T, 0, j) == Entry(M, j, 0) * Cofactor(M, j, 0)
      {
        MinorTranspose(M, 0, j);
        MinorAt(M, j, 0);
        DetTranspose(Minor(M, j, 0));
      }
      SumExt(n, (j: nat) => Entry(T, 0, j) * Cofactor(T, 0, j), (i: nat) => Entry(M, i, 0) * Cofactor(M, i, 0));
      ColExpansionIsDet(M);
    }
  }

  /** The cofactors of the transpose are the transposed cofactors. */
  lemma {:induction false} CofactorTranspose(M: Matrix, i: nat, j: nat)
    requires Square(M) && i < |M| && j < |M|
    ensures Cofactor(Transpose(M), i, j) == Cofactor(M, j, i)
  {
    MinorTranspose(M, i, j);
    MinorAt(M, j, i);
    DetTranspose(Minor(M, j, i));
  }

  // ---------------------------------------------------------------------------------
  // The adjugate identities.

  /** Matrices that differ only in row k have the same minors without row k. */
  lemma {:induction false} MinorSameRowsAway(A: Matrix, B: Matrix, k: nat, j: nat)
    requires Square(A) && Square(B) && |A| == |B| && k < |A|
    requires forall i :: 0 <= i < |A| && i != k ==> A[i] == B[i]
    ensures Minor(A, k, j) == Minor(B, k, j)
  {
    var n := |A| - 1;
    forall i, l | 0 <= i < n && 0 <= l < n
      ensures Minor(A, k, j)[i][l] == Minor(B, k, j)[i][l]
    {
      assert A[Skip(k, i)] == B[Skip(k, i)];
    }
    MatrixExt(Minor(A, k, j), Minor(B, k, j));
  }

  /** Row i of M against the cofactors of row k: the determinant when i == k, else 0. */
  lemma {:induction false} CofactorRowSum(M: Matrix, i: nat, k: nat)
    requires Square(M) && i < |M| && k < |M|
    ensures Sum(|M|, (j: nat) => Entry(M, i, j) * Cofactor(M, k, j)) == if i == k then Det(M) else 0
  {
    var n := |M|;
    var M' := M[k := M[i]];
    forall j: nat | j < n
      ensures Entry(M', k, j) * Cofactor(M', k, j) == Entry(M, i, j) * Cofactor(M, k, j)
    {
      MinorSameRowsAway(M', M, k, j);
    }
    SumExt(n, (c: nat) => Entry(M', k, c) * Cofactor(M', k, c), (j: nat) => Entry(M, i, j) * Cofactor(M, k, j));
    RowExpansionIsDet(M', k);
    if i == k {
      assert M' == M;
    } else if i < k {
      EqualRowsDet(M', i, k);
    } else {
      EqualRowsDet(M', k, i);
    }
  }

  /** K * adj(K) == det(K) * I. */
  lemma {:induction false} MulAdjugateRight(M: Matrix)
    requires Square(M)
    ensures Mul(M, Adjugate(M)) == Scale(Det(M), Identity(|M|))
  {
    var n := |M|;
    var A := Adjugate(M);
    forall i, k | 0 <= i < n && 0 <= k < n
      ensures Mul(M, A)[i][k] == Scale(Det(M), Identity(n))[i][k]
    {
      SumExt(n, (j: nat) => Entry(M, i, j) * Entry(A, j, k), (j: nat) => Entry(M, i, j) * Cofactor(M, k, j));
      CofactorRowSum(M, i, k);
    }
    MatrixExt(Mul(M, A), Scale(Det(M), Identity(n)));
  }

  /** adj(K) * K == det(K) * I. */
  lemma {:induction false} MulAdjugateLeft(M: Matrix)
    requires Square(M)
    ensures Mul(Adjugate(M), M) == Scale(Det(M), Identity(|M|))
  {
    var n := |M|;
    forall i, k | 0 <= i < n && 0 <= k < n
      ensures Mul(Adjugate(M), M)[i][k] == Scale(Det(M), Identity(n))[i][k]
    {
      MulAdjugateLeftPoint(M, i, k);
    }
    MatrixExt(Mul(Adjugate(M), M), Scale(Det(M), Identity(n)));
  }

  lemma {:induction false} MulAdjugateLeftPoint(M: Matrix, i: nat, k: nat)
    requires Square(M) && i < |M| && k < |M|
    ensures Mul(Adjugate(M), M)[i][k] == Scale(Det(M), Identity(|M|))[i][k]
  {
    var n := |M|;
    var A := Adjugate(M);
    var T := Transpose(M);
    var f := (j: nat) => Entry(A, i, j) * Entry(M, j, k);
    var g := (j: nat) => Entry(T, k, j) * Cofactor(T, i, j);
    assert Mul(A, M)[i][k] == Sum(n, f);
    forall j: nat | j < n
      ensures f(j) == g(j)
    {
      var c, e := Cofactor(M, j, i), Entry(M, j, k);
      assert Entry(A, i, j) == c;
      assert Entry(T, k, j) == e;
      CofactorTranspose(M, i, j);
      assert c * e == e * c;
    }
    SumExt(n, f, g);
    assert Sum(n, g) == if i == k then Det(M) else 0 by {
      CofactorRowSum(T, k, i);
      DetTranspose(M);
    }
    assert Scale(Det(M), Identity(n))[i][k] == Det(M) * (if i == k then 1 else 0);
  }
}
