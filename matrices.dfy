/** Integer matrices and vectors as the cipher uses them: square key matrices, the
    products v * K (a row vector times the key) and K * v (the key times a column vector),
    and entrywise reduction modulo 26. */
module Matrices {
  import opened Sums

  /** A matrix as its list of rows. */
  type Matrix = seq<seq<int>>

  type Vector = seq<int>

  /** Every row has as many entries as there are rows. */
  predicate Square(M: Matrix)
  {
    forall i :: 0 <= i < |M| ==> |M[i]| == |M|
  }

  /** The entry in row i, column j, and 0 outside the matrix. */
  function Entry(M: Matrix, i: int, j: int): int
  {
    if 0 <= i < |M| && 0 <= j < |M[i]| then M[i][j] else 0
  }

  /** The element k of v, and 0 outside the vector. */
  function At(v: Vector, k: int): int
  {
    if 0 <= k < |v| then v[k] else 0
  }

  /** M without row r and column c: entry (i, j) of the minor is the entry of M whose row
      and column are i and j counted past the deleted ones. */
  function Minor(M: Matrix, r: nat, c: nat): (m: Matrix)
    ensures |m| == if r < |M| then |M| - 1 else |M|
  {
    var n := if r < |M| then |M| - 1 else |M|;
    seq(n, i requires 0 <= i => seq(n, j requires 0 <= j => Entry(M, Skip(r, i), Skip(c, j))))
  }

  /** The minor of a square matrix is square and holds the entries that remain, in order. */
  lemma {:induction false} MinorAt(M: Matrix, r: nat, c: nat)
    requires Square(M) && r < |M| && c < |M|
    ensures Square(Minor(M, r, c))
    ensures forall i, j :: 0 <= i < |M| - 1 && 0 <= j < |M| - 1 ==>
      Minor(M, r, c)[i][j] == M[Skip(r, i)][Skip(c, j)]
  {
  }

  /** The minor of a square matrix is square. */
  lemma {:induction false} MinorSquare(M: Matrix, r: nat, c: nat)
    requires r < |M|
    ensures Square(Minor(M, r, c))
  {
  }

  /** Two square matrices with the same entries are equal. */
  lemma {:induction false} MatrixExt(A: Matrix, B: Matrix)
    requires Square(A) && Square(B) && |A| == |B|
    requires forall i, j :: 0 <= i < |A| && 0 <= j < |A| ==> A[i][j] == B[i][j]
    ensures A == B
  {
    forall i | 0 <= i < |A|
      ensures A[i] == B[i]
    {
    }
  }

  /** The entries of a minor of a minor. */
  lemma {:induction false} MinorMinorAt(M: Matrix, r1: nat, c1: nat, r2: nat, c2: nat)
    requires Square(M) && |M| >= 2 && r1 < |M| && c1 < |M| && r2 < |M| - 1 && c2 < |M| - 1
    ensures Square(Minor(Minor(M, r1, c1), r2, c2))
    ensures |Minor(Minor(M, r1, c1), r2, c2)| == |M| - 2
    ensures forall i, j :: 0 <= i < |M| - 2 && 0 <= j < |M| - 2 ==>
      Minor(Minor(M, r1, c1), r2, c2)[i][j] == M[Skip(r1, Skip(r2, i))][Skip(c1, Skip(c2, j))]
  {
    MinorAt(M, r1, c1);
    MinorAt(Minor(M, r1, c1), r2, c2);
  }

  /** Deleting index a1 and then a2 of what remains deletes the same two indices as
      deleting b1 and then b2, when both orders name the same pair. */
  lemma {:induction false} SkipPair(a1: nat, a2: nat, b1: nat, b2: nat, i: nat)
    requires (a1 == b1 && a2 == b2) || (a1 == Skip(b1, b2) && Skip(a1, a2) == b1)
    ensures Skip(a1, Skip(a2, i)) == Skip(b1, Skip(b2, i))
  {
  }

  /** Deleting rows r1 then r2 and columns c1 then c2 gives the same matrix as deleting
      rows s1 then s2 and columns d1 then d2, when the two orders remove the same indices. */
  lemma {:induction false} MinorMinorSame(M: Matrix, r1: nat, c1: nat, r2: nat, c2: nat, s1: nat, d1: nat, s2: nat, d2: nat)
    requires Square(M) && |M| >= 2
    requires r1 < |M| && c1 < |M| && r2 < |M| - 1 && c2 < |M| - 1
    requires s1 < |M| && d1 < |M| && s2 < |M| - 1 && d2 < |M| - 1
    requires (r1 == s1 && r2 == s2) || (r1 == Skip(s1, s2) && Skip(r1, r2) == s1)
    requires (c1 == d1 && c2 == d2) || (c1 == Skip(d1, d2) && Skip(c1, c2) == d1)
    ensures Minor(Minor(M, r1, c1), r2, c2) == Minor(Minor(M, s1, d1), s2, d2)
  {
    var A := Minor(Minor(M, r1, c1), r2, c2);
    var B := Minor(Minor(M, s1, d1), s2, d2);
    MinorMinorAt(M, r1, c1, r2, c2);
    MinorMinorAt(M, s1, d1, s2, d2);
    forall i, j | 0 <= i < |M| - 2 && 0 <= j < |M| - 2
      ensures A[i][j] == B[i][j]
    {
      SkipPair(r1, r2, s1, s2, i);
      SkipPair(c1, c2, d1, d2, j);
    }
    MatrixExt(A, B);
  }

  /** Rows become columns. */
  function Transpose(M: Matrix): (t: Matrix)
    ensures |t| == |M| && Square(t)
  {
    seq(|M|, i => seq(|M|, j => Entry(M, j, i)))
  }

  /** The n x n identity matrix. */
  function Identity(n: nat): (e: Matrix)
    ensures |e| == n && Square(e)
  {
    seq(n, i => seq(n, j => if i == j then 1 else 0))
  }

  /** The product A * B of two square matrices of the same size. */
  function Mul(A: Matrix, B: Matrix): (p: Matrix)
    ensures |p| == |A| && Square(p)
  {
    seq(|A|, i => seq(|A|, j => Sum(|A|, (k: nat) => Entry(A, i, k) * Entry(B, k, j))))
  }

  /** c times every entry. */
  function Scale(c: int, M: Matrix): (s: Matrix)
    ensures |s| == |M| && (Square(M) ==> Square(s))
  {
    seq(|M|, i requires 0 <= i < |M| => seq(|M[i]|, j requires 0 <= j < |M[i]| => c * M[i][j]))
  }

  /** Every entry reduced into [0, 26). */
  function ModMat(M: Matrix): (r: Matrix)
    ensures |r| == |M| && (Square(M) ==> Square(r))
  {
    seq(|M|, i requires 0 <= i < |M| => seq(|M[i]|, j requires 0 <= j < |M[i]| => M[i][j] % 26))
  }

  /** Every element reduced into [0, 26). */
  function ModVec(v: Vector): (r: Vector)
    ensures |r| == |v|
  {
    seq(|v|, i requires 0 <= i < |v| => v[i] % 26)
  }

  /** The row vector v times M: element j is the sum over k of v[k] * M[k][j]. */
  function RowTimes(v: Vector, M: Matrix): (r: Vector)
    ensures |r| == |M|
  {
    seq(|M|, j => Sum(|v|, (k: nat) => At(v, k) * Entry(M, k, j)))
  }

  /** M times the column vector v: element i is the sum over k of M[i][k] * v[k]. */
  function ColTimes(M: Matrix, v: Vector): (r: Vector)
    ensures |r| == |M|
  {
    seq(|M|, i => Sum(|v|, (k: nat) => Entry(M, i, k) * At(v, k)))
  }

  /** All elements lie in [0, 26). */
  predicate Reduced(v: Vector)
  {
    forall i :: 0 <= i < |v| ==> 0 <= v[i] < 26
  }

  /** (v * A) * B == v * (A * B). */
  lemma {:induction false} RowTimesAssoc(v: Vector, A: Matrix, B: Matrix)
    requires Square(A) && Square(B) && |A| == |B| == |v|
    ensures RowTimes(RowTimes(v, A), B) == RowTimes(v, Mul(A, B))
  {
    forall j | 0 <= j < |v|
      ensures RowTimes(RowTimes(v, A), B)[j] == RowTimes(v, Mul(A, B))[j]
    {
      RowTimesAssocAt(v, A, B, j);
    }
  }

  /** Element j of both sides: the double sum of v[l] * A[l][k] * B[k][j], by rows and by
      columns. */
  lemma {:induction false} RowTimesAssocAt(v: Vector, A: Matrix, B: Matrix, j: nat)
    requires Square(A) && Square(B) && |A| == |B| == |v| && j < |v|
    ensures RowTimes(RowTimes(v, A), B)[j] == RowTimes(v, Mul(A, B))[j]
  {
    var n := |v|;
    var w := RowTimes(v, A);
    var P := Mul(A, B);
    var F := RowAssocTerms(v, A, B, j);
    var R := (l: nat) => At(v, l) * Entry(P, l, j);
    var C := (k: nat) => At(w, k) * Entry(B, k, j);
    forall l: nat | l < n
      ensures R(l) == RowSum(n, F, l)
    {
      SumScale(n, At(v, l), (k: nat) => Entry(A, l, k) * Entry(B, k, j), (k: nat) => F(l, k));
      RowSumIs(n, F, l, (k: nat) => F(l, k));
    }
    forall k: nat | k < n
      ensures C(k) == ColSum(n, F, k)
    {
      SumScale(n, Entry(B, k, j), (l: nat) => At(v, l) * Entry(A, l, k), (l: nat) => F(l, k));
      ColSumIs(n, F, k, (l: nat) => F(l, k));
    }
    SumSwap(n, n, F, R, C);
  }

  /** The terms v[l] * A[l][k] * B[k][j] of element j of v * A * B. */
  function RowAssocTerms(v: Vector, A: Matrix, B: Matrix, j: nat): (nat, nat) -> int
  {
    (l: nat, k: nat) => At(v, l) * Entry(A, l, k) * Entry(B, k, j)
  }

  /** A * (B * v) == (A * B) * v. */
  lemma {:induction false} ColTimesAssoc(A: Matrix, B: Matrix, v: Vector)
    requires Square(A) && Square(B) && |A| == |B| == |v|
    ensures ColTimes(A, ColTimes(B, v)) == ColTimes(Mul(A, B), v)
  {
    forall i | 0 <= i < |v|
      ensures ColTimes(A, ColTimes(B, v))[i] == ColTimes(Mul(A, B), v)[i]
    {
      ColTimesAssocAt(A, B, v, i);
    }
  }

  /** Element i of both sides: the double sum of A[i][k] * B[k][l] * v[l], by rows and by
      columns. */
  lemma {:induction false} ColTimesAssocAt(A: Matrix, B: Matrix, v: Vector, i: nat)
    requires Square(A) && Square(B) && |A| == |B| == |v| && i < |v|
    ensures ColTimes(A, ColTimes(B, v))[i] == ColTimes(Mul(A, B), v)[i]
  {
    var n := |v|;
    var w := ColTimes(B, v);
    var P := Mul(A, B);
    var F := ColAssocTerms(A, B, v, i);
    var R := (k: nat) => Entry(A, i, k) * At(w, k);
    var C := (l: nat) => Entry(P, i, l) * At(v, l);
    forall k: nat | k < n
      ensures R(k) == RowSum(n, F, k)
    {
      SumScale(n, Entry(A, i, k), (l: nat) => Entry(B, k, l) * At(v, l), (l: nat) => F(k, l));
      RowSumIs(n, F, k, (l: nat) => F(k, l));
    }
    forall l: nat | l < n
      ensures C(l) == ColSum(n, F, l)
    {
      SumScale(n, At(v, l), (k: nat) => Entry(A, i, k) * Entry(B, k, l), (k: nat) => F(k, l));
      ColSumIs(n, F, l, (k: nat) => F(k, l));
    }
    SumSwap(n, n, F, R, C);
  }

  /** The terms A[i][k] * B[k][l] * v[l] of element i of A * B * v. */
  function ColAssocTerms(A: Matrix, B: Matrix, v: Vector, i: nat): (nat, nat) -> int
  {
    (k: nat, l: nat) => Entry(A, i, k) * Entry(B, k, l) * At(v, l)
  }

  /** v * I == v. */
  lemma {:induction false} RowTimesIdentity(v: Vector)
    ensures RowTimes(v, Identity(|v|)) == v
  {
    var n := |v|;
    forall j | 0 <= j < n
      ensures RowTimes(v, Identity(n))[j] == v[j]
    {
      SumDelta(n, j, (k: nat) => At(v, k) * Entry(Identity(n), k, j));
    }
  }

  /** I * v == v. */
  lemma {:induction false} ColTimesIdentity(v: Vector)
    ensures ColTimes(Identity(|v|), v) == v
  {
    var n := |v|;
    forall i | 0 <= i < n
      ensures ColTimes(Identity(n), v)[i] == v[i]
    {
      SumDelta(n, i, (k: nat) => Entry(Identity(n), i, k) * At(v, k));
    }
  }

  /** Reducing the vector before multiplying does not change the product modulo 26. */
  lemma {:induction false} RowTimesModVec(v: Vector, M: Matrix)
    ensures ModVec(RowTimes(ModVec(v), M)) == ModVec(RowTimes(v, M))
  {
    forall j | 0 <= j < |M|
      ensures RowTimes(ModVec(v), M)[j] % 26 == RowTimes(v, M)[j] % 26
    {
      forall k: nat | k < |v|
        ensures (At(ModVec(v), k) * Entry(M, k, j)) % 26 == (At(v, k) * Entry(M, k, j)) % 26
      {
        MulModLeft(At(v, k), Entry(M, k, j));
      }
      SumMod(|v|, (k: nat) => At(ModVec(v), k) * Entry(M, k, j), (k: nat) => At(v, k) * Entry(M, k, j));
    }
  }

  /** Reducing the matrix before multiplying does not change the product modulo 26. */
  lemma {:induction false} RowTimesModMat(v: Vector, M: Matrix)
    requires Square(M)
    ensures ModVec(RowTimes(v, ModMat(M))) == ModVec(RowTimes(v, M))
  {
    forall j | 0 <= j < |M|
      ensures RowTimes(v, ModMat(M))[j] % 26 == RowTimes(v, M)[j] % 26
    {
      forall k: nat | k < |v|
        ensures (At(v, k) * Entry(ModMat(M), k, j)) % 26 == (At(v, k) * Entry(M, k, j)) % 26
      {
        MulModRight(At(v, k), Entry(M, k, j));
      }
      SumMod(|v|, (k: nat) => At(v, k) * Entry(ModMat(M), k, j), (k: nat) => At(v, k) * Entry(M, k, j));
    }
  }

  /** Reducing the vector before multiplying does not change the product modulo 26. */
  lemma {:induction false} ColTimesModVec(M: Matrix, v: Vector)
    ensures ModVec(ColTimes(M, ModVec(v))) == ModVec(ColTimes(M, v))
  {
    forall i | 0 <= i < |M|
      ensures ColTimes(M, ModVec(v))[i] % 26 == ColTimes(M, v)[i] % 26
    {
      forall k: nat | k < |v|
        ensures (Entry(M, i, k) * At(ModVec(v), k)) % 26 == (Entry(M, i, k) * At(v, k)) % 26
      {
        MulModRight(Entry(M, i, k), At(v, k));
      }
      SumMod(|v|, (k: nat) => Entry(M, i, k) * At(ModVec(v), k), (k: nat) => Entry(M, i, k) * At(v, k));
    }
  }

  /** Reducing the matrix before multiplying does not change the product modulo 26. */
  lemma {:induction false} ColTimesModMat(M: Matrix, v: Vector)
    requires Square(M)
    ensures ModVec(ColTimes(ModMat(M), v)) == ModVec(ColTimes(M, v))
  {
    forall i | 0 <= i < |M|
      ensures ColTimes(ModMat(M), v)[i] % 26 == ColTimes(M, v)[i] % 26
    {
      forall k: nat | k < |v|
        ensures (Entry(ModMat(M), i, k) * At(v, k)) % 26 == (Entry(M, i, k) * At(v, k)) % 26
      {
        MulModLeft(Entry(M, i, k), At(v, k));
      }
      SumMod(|v|, (k: nat) => Entry(ModMat(M), i, k) * At(v, k), (k: nat) => Entry(M, i, k) * At(v, k));
    }
  }

  /** Reducing a block modulo 26 gives numbers in [0, 26), each congruent to the one it
      replaces. */
  lemma {:induction false} ModVecReduces(v: Vector)
    ensures Reduced(ModVec(v))
    ensures forall i :: 0 <= i < |v| ==> (ModVec(v)[i] - v[i]) % 26 == 0
  {
    forall i | 0 <= i < |v|
      ensures (ModVec(v)[i] - v[i]) % 26 == 0
    {
      DivModSub(v[i]);
    }
  }

  /** Reducing a matrix modulo 26 gives entries in [0, 26), each congruent to the one it
      replaces. */
  lemma {:induction false} ModMatReduces(M: Matrix)
    requires Square(M)
    ensures forall i, j :: 0 <= i < |M| && 0 <= j < |M| ==>
      0 <= ModMat(M)[i][j] < 26 && (ModMat(M)[i][j] - M[i][j]) % 26 == 0
  {
    forall i, j | 0 <= i < |M| && 0 <= j < |M|
      ensures 0 <= ModMat(M)[i][j] < 26 && (ModMat(M)[i][j] - M[i][j]) % 26 == 0
    {
      DivModSub(M[i][j]);
    }
  }

  /** x mod 26 differs from x by a multiple of 26. */
  lemma {:induction false} DivModSub(x: int)
    ensures (x % 26 - x) % 26 == 0
  {
    assert x % 26 - x == 26 * -(x / 26);
  }

  /** A reduced vector is its own reduction. */
  lemma {:induction false} ModVecReduced(v: Vector)
    requires Reduced(v)
    ensures ModVec(v) == v
  {
  }

  /** Reducing the right factor of a product does not change the product modulo 26. */
  lemma {:induction false} MulModMatRight(A: Matrix, B: Matrix)
    requires Square(A) && Square(B) && |A| == |B|
    ensures ModMat(Mul(A, ModMat(B))) == ModMat(Mul(A, B))
  {
    var n := |A|;
    forall i, j | 0 <= i < n && 0 <= j < n
      ensures ModMat(Mul(A, ModMat(B)))[i][j] == ModMat(Mul(A, B))[i][j]
    {
      forall k: nat | k < n
        ensures (Entry(A, i, k) * Entry(ModMat(B), k, j)) % 26 == (Entry(A, i, k) * Entry(B, k, j)) % 26
      {
        MulModRight(Entry(A, i, k), Entry(B, k, j));
      }
      SumMod(n, (k: nat) => Entry(A, i, k) * Entry(ModMat(B), k, j), (k: nat) => Entry(A, i, k) * Entry(B, k, j));
    }
    MatrixExt(ModMat(Mul(A, ModMat(B))), ModMat(Mul(A, B)));
  }

  /** Reducing the left factor of a product does not change the product modulo 26. */
  lemma {:induction false} MulModMatLeft(A: Matrix, B: Matrix)
    requires Square(A) && Square(B) && |A| == |B|
    ensures ModMat(Mul(ModMat(A), B)) == ModMat(Mul(A, B))
  {
    var n := |A|;
    forall i, j | 0 <= i < n && 0 <= j < n
      ensures ModMat(Mul(ModMat(A), B))[i][j] == ModMat(Mul(A, B))[i][j]
    {
      forall k: nat | k < n
        ensures (Entry(ModMat(A), i, k) * Entry(B, k, j)) % 26 == (Entry(A, i, k) * Entry(B, k, j)) % 26
      {
        MulModLeft(Entry(A, i, k), Entry(B, k, j));
      }
      SumMod(n, (k: nat) => Entry(ModMat(A), i, k) * Entry(B, k, j), (k: nat) => Entry(A, i, k) * Entry(B, k, j));
    }
    MatrixExt(ModMat(Mul(ModMat(A), B)), ModMat(Mul(A, B)));
  }

  lemma {:induction false} MulLeftFactor(a: int, c: int, b: int)
    ensures a * (c * b) == c * (a * b)
  {
  }

  lemma {:induction false} MulRightFactor(a: int, c: int, b: int)
    ensures (c * a) * b == c * (a * b)
  {
  }

  /** The terms of entry (i, j) of A * (c B) are c times those of A * B. */
  lemma {:induction false} MulScaleRightPoints(A: Matrix, c: int, B: Matrix, i: nat, j: nat)
    requires Square(B) && |A| == |B| && j < |B|
    ensures forall k: nat :: k < |A| ==>
      Entry(A, i, k) * Entry(Scale(c, B), k, j) == c * (Entry(A, i, k) * Entry(B, k, j))
  {
    forall k: nat | k < |A|
      ensures Entry(A, i, k) * Entry(Scale(c, B), k, j) == c * (Entry(A, i, k) * Entry(B, k, j))
    {
      MulLeftFactor(Entry(A, i, k), c, Entry(B, k, j));
    }
  }

  /** The terms of entry (i, j) of (c A) * B are c times those of A * B. */
  lemma {:induction false} MulScaleLeftPoints(A: Matrix, c: int, B: Matrix, i: nat, j: nat)
    requires Square(A) && |A| == |B| && i < |A|
    ensures forall k: nat :: k < |A| ==>
      Entry(Scale(c, A), i, k) * Entry(B, k, j) == c * (Entry(A, i, k) * Entry(B, k, j))
  {
    forall k: nat | k < |A|
      ensures Entry(Scale(c, A), i, k) * Entry(B, k, j) == c * (Entry(A, i, k) * Entry(B, k, j))
    {
      MulRightFactor(Entry(A, i, k), c, Entry(B, k, j));
    }
  }

  /** A scalar factor of the right matrix moves out of the product. */
  lemma {:induction false} MulScaleRight(A: Matrix, c: int, B: Matrix)
    requires Square(A) && Square(B) && |A| == |B|
    ensures Mul(A, Scale(c, B)) == Scale(c, Mul(A, B))
  {
    var n := |A|;
    forall i, j | 0 <= i < n && 0 <= j < n
      ensures Mul(A, Scale(c, B))[i][j] == Scale(c, Mul(A, B))[i][j]
    {
      MulScaleRightPoints(A, c, B, i, j);
      SumScale(n, c, (k: nat) => Entry(A, i, k) * Entry(B, k, j), (k: nat) => Entry(A, i, k) * Entry(Scale(c, B), k, j));
    }
    MatrixExt(Mul(A, Scale(c, B)), Scale(c, Mul(A, B)));
  }

  /** A scalar factor of the left matrix moves out of the product. */
  lemma {:induction false} MulScaleLeft(A: Matrix, c: int, B: Matrix)
    requires Square(A) && Square(B) && |A| == |B|
    ensures Mul(Scale(c, A), B) == Scale(c, Mul(A, B))
  {
    var n := |A|;
    forall i, j | 0 <= i < n && 0 <= j < n
      ensures Mul(Scale(c, A), B)[i][j] == Scale(c, Mul(A, B))[i][j]
    {
      MulScaleLeftPoints(A, c, B, i, j);
      SumScale(n, c, (k: nat) => Entry(A, i, k) * Entry(B, k, j), (k: nat) => Entry(Scale(c, A), i, k) * Entry(B, k, j));
    }
    MatrixExt(Mul(Scale(c, A), B), Scale(c, Mul(A, B)));
  }

  /** Scaling twice scales by the product. */
  lemma {:induction false} ScaleScale(a: int, b: int, M: Matrix)
    requires Square(M)
    ensures Scale(a, Scale(b, M)) == Scale(a * b, M)
  {
    forall i, j | 0 <= i < |M| && 0 <= j < |M|
      ensures Scale(a, Scale(b, M))[i][j] == Scale(a * b, M)[i][j]
    {
      MulRightFactor(b, a, M[i][j]);
    }
    MatrixExt(Scale(a, Scale(b, M)), Scale(a * b, M));
  }

  /** A multiple c of the identity with c == 1 modulo 26 reduces to the identity. */
  lemma {:induction false} ModScaleIdentity(c: int, n: nat)
    requires c % 26 == 1
    ensures ModMat(Scale(c, Identity(n))) == Identity(n)
  {
    forall i, j | 0 <= i < n && 0 <= j < n
      ensures ModMat(Scale(c, Identity(n)))[i][j] == Identity(n)[i][j]
    {
    }
    MatrixExt(ModMat(Scale(c, Identity(n))), Identity(n));
  }
}
