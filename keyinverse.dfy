/** Inverting the key modulo 26: the determinant of the key must have an inverse modulo 26,
    and the inverse key is that inverse times the adjugate, reduced entrywise. It undoes
    the key from both sides modulo 26. */
module KeyInversion {
  import opened Wrappers
  import opened Matrices
  import opened Determinant
  import opened Laplace
  import opened ModArith

  /** The inverse of key K modulo 26, (det(K)^-1 * adj(K)) mod 26; None when det(K) has
      no inverse modulo 26. */
  function KeyInverse(K: Matrix): (r: Option<Matrix>)
    requires Square(K)
    ensures r.Some? ==> |r.value| == |K| && Square(r.value)
  {
    match ModInverse(Det(K), 26)
    case None => None
    case Some(d) => Some(ModMat(Scale(d, Adjugate(K))))
  }

  /** The key is refused exactly when its determinant shares a factor with 26, and then
      no number inverts the determinant modulo 26. */
  lemma {:induction false} KeyInverseRefused(K: Matrix)
    requires Square(K)
    ensures KeyInverse(K).None? <==> Gcd(Det(K) % 26, 26) != 1
    ensures KeyInverse(K).None? ==> forall b :: (Det(K) * b) % 26 != 1
  {
    ModInverseExists(Det(K), 26);
  }

  /** An accepted key's inverse holds, in entry (i, j), d times the cofactor (j, i) of K
      reduced into [0, 26), for the d in [0, 26) that inverts det(K) modulo 26. */
  lemma {:induction false} KeyInverseEntries(K: Matrix)
    requires Square(K) && KeyInverse(K).Some?
    ensures var Ki := KeyInverse(K).value;
            exists d :: 0 <= d < 26 && (Det(K) * d) % 26 == 1 &&
              forall i, j :: 0 <= i < |K| && 0 <= j < |K| ==>
                0 <= Ki[i][j] < 26 && Ki[i][j] == (d * Cofactor(K, j, i)) % 26
  {
    var d := ModInverse(Det(K), 26).value;
    ModInverseCorrect(Det(K), 26);
    var Ki := KeyInverse(K).value;
    assert forall i, j :: 0 <= i < |K| && 0 <= j < |K| ==>
      0 <= Ki[i][j] < 26 && Ki[i][j] == (d * Cofactor(K, j, i)) % 26;
  }

  /** The determinant times its inverse modulo 26, as found for an accepted key. */
  lemma {:induction false} DetInverse(K: Matrix)
    requires Square(K) && ModInverse(Det(K), 26).Some?
    ensures (ModInverse(Det(K), 26).value * Det(K)) % 26 == 1
  {
    ModInverseCorrect(Det(K), 26);
    assert ModInverse(Det(K), 26).value * Det(K) == Det(K) * ModInverse(Det(K), 26).value;
  }

  /** K * K^-1 == I modulo 26: decrypting with the row convention undoes encrypting. */
  lemma {:induction false} KeyInverseRight(K: Matrix)
    requires Square(K) && KeyInverse(K).Some?
    ensures ModMat(Mul(K, KeyInverse(K).value)) == Identity(|K|)
  {
    var d := ModInverse(Det(K), 26).value;
    var A := Adjugate(K);
    var n := |K|;
    MulModMatRight(K, Scale(d, A));
    MulScaleRight(K, d, A);
    MulAdjugateRight(K);
    ScaleScale(d, Det(K), Identity(n));
    DetInverse(K);
    ModScaleIdentity(d * Det(K), n);
  }

  /** K^-1 * K == I modulo 26: decrypting with the column convention undoes encrypting. */
  lemma {:induction false} KeyInverseLeft(K: Matrix)
    requires Square(K) && KeyInverse(K).Some?
    ensures ModMat(Mul(KeyInverse(K).value, K)) == Identity(|K|)
  {
    var d := ModInverse(Det(K), 26).value;
    var A := Adjugate(K);
    var n := |K|;
    MulModMatLeft(Scale(d, A), K);
    MulScaleLeft(A, d, K);
    MulAdjugateLeft(K);
    ScaleScale(d, Det(K), Identity(n));
    DetInverse(K);
    ModScaleIdentity(d * Det(K), n);
  }

  /** The default key [[11, 8], [3, 7]] has determinant 53 and inverse [[7, 18], [23, 11]]
      modulo 26. */
  lemma {:induction false} DefaultKeyInverse()
    ensures Det([[11, 8], [3, 7]]) == 53
    ensures KeyInverse([[11, 8], [3, 7]]) == Some([[7, 18], [23, 11]])
  {
    DefaultKeyDet();
    InverseOf53();
    DefaultKeyAdjugate();
    KeyInverseVia([[11, 8], [3, 7]], 1, [[7, -8], [-3, 11]]);
    ReduceDefaultAdjugate();
  }

  lemma {:induction false} DefaultKeyDet()
    ensures Det([[11, 8], [3, 7]]) == 53
  {
    Det2([[11, 8], [3, 7]]);
  }

  lemma {:induction false} DefaultKeyAdjugate()
    ensures Adjugate([[11, 8], [3, 7]]) == [[7, -8], [-3, 11]]
  {
    AdjugateTwo([[11, 8], [3, 7]]);
  }

  /** The inverse key from the determinant's inverse d and the adjugate A. */
  lemma {:induction false} KeyInverseVia(K: Matrix, d: int, A: Matrix)
    requires Square(K) && ModInverse(Det(K), 26) == Some(d) && Adjugate(K) == A
    ensures KeyInverse(K) == Some(ModMat(Scale(d, A)))
  {
  }

  lemma {:induction false} InverseOf53()
    ensures ModInverse(53, 26) == Some(1)
  {
    assert 53 % 26 == 1;
    assert Gcd(1, 26) == 1;
    ModInverseExists(53, 26);
    ModInverseCorrect(53, 26);
    ModInverseUnique(53, 26, ModInverse(53, 26).value, 1);
  }

  lemma {:induction false} ReduceDefaultAdjugate()
    ensures ModMat(Scale(1, [[7, -8], [-3, 11]])) == [[7, 18], [23, 11]]
  {
    var Ki := ModMat(Scale(1, [[7, -8], [-3, 11]]));
    assert Ki[0] == [7, 18];
    assert Ki[1] == [23, 11];
  }

  /** The adjugate of a 2 x 2 matrix [[a, b], [c, e]] is [[e, -b], [-c, a]]. */
  lemma {:induction false} AdjugateTwo(K: Matrix)
    requires Square(K) && |K| == 2
    ensures Adjugate(K) == [[K[1][1], -K[0][1]], [-K[1][0], K[0][0]]]
  {
    forall i, j | 0 <= i < 2 && 0 <= j < 2
      ensures Cofactor(K, j, i) == [[K[1][1], -K[0][1]], [-K[1][0], K[0][0]]][i][j]
    {
      var m := Minor(K, j, i);
      MinorAt(K, j, i);
      Det1(m);
    }
    MatrixExt(Adjugate(K), [[K[1][1], -K[0][1]], [-K[1][0], K[0][0]]]);
  }

  /** A key whose determinant is even is refused: [[2, 4], [6, 8]] has determinant -8. */
  lemma {:induction false} EvenDeterminantRefused()
    ensures Det([[2, 4], [6, 8]]) == -8
    ensures KeyInverse([[2, 4], [6, 8]]) == None
  {
    var K := [[2, 4], [6, 8]];
    assert Det(K) == -8 by { Det2(K); }
    assert Gcd(Det(K) % 26, 26) == 2 by {
      assert -8 % 26 == 18;
      assert Gcd(18, 26) == Gcd(26, 18) == Gcd(18, 8) == Gcd(8, 2) == Gcd(2, 0) == 2;
    }
    KeyInverseRefused(K);
  }
}
