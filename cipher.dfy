/** The block transform of the Hill cipher: capitals become numbers A = 0 .. Z = 25, each
    block of N numbers is multiplied with the N x N matrix and reduced modulo 26, and the
    results become capitals again. With the row convention a block v becomes v * M, with
    the column convention M * v. */
module Cipher {
  import opened ModArith
  import opened Matrices
  import opened Text

  datatype Convention = Row | Column

  /** The numbers of the capitals of a block, A = 0 .. Z = 25. */
  function ToVec(block: string): (v: Vector)
    requires Capitals(block)
    ensures |v| == |block| && Reduced(v)
  {
    seq(|block|, i requires 0 <= i < |block| => block[i] as int - 'A' as int)
  }

  /** The capitals of numbers in [0, 26). */
  function ToText(v: Vector): (s: string)
    requires Reduced(v)
    ensures |s| == |v| && Capitals(s)
  {
    seq(|v|, i requires 0 <= i < |v| => (v[i] + 'A' as int) as char)
  }

  /** 'A' is 0 and 'Z' is 25, and back. */
  lemma {:induction false} ToVecExample()
    ensures ToVec("AZ") == [0, 25] && ToText([0, 25]) == "AZ"
  {
  }

  lemma {:induction false} ToTextToVec(block: string)
    requires Capitals(block)
    ensures ToText(ToVec(block)) == block
  {
  }

  lemma {:induction false} ToVecToText(v: Vector)
    requires Reduced(v)
    ensures ToVec(ToText(v)) == v
  {
  }

  /** One block of numbers through the matrix, reduced into [0, 26). */
  function Apply(M: Matrix, v: Vector, conv: Convention): (w: Vector)
    requires Square(M) && |v| == |M|
    ensures |w| == |M| && Reduced(w)
  {
    if conv == Row then ModVec(RowTimes(v, M)) else ModVec(ColTimes(M, v))
  }

  /** B undoes A for a convention: A * B == I modulo 26 for rows (v * A * B), B * A == I
      modulo 26 for columns (B * A * v). */
  predicate Undoes(B: Matrix, A: Matrix, conv: Convention)
    requires Square(A) && Square(B) && |A| == |B|
  {
    if conv == Row then ModMat(Mul(A, B)) == Identity(|A|) else ModMat(Mul(B, A)) == Identity(|A|)
  }

  /** A matrix that undoes A brings every block of numbers in [0, 26) back. */
  lemma {:induction false} ApplyUndo(A: Matrix, B: Matrix, v: Vector, conv: Convention)
    requires Square(A) && Square(B) && |A| == |B| == |v| && Reduced(v) && Undoes(B, A, conv)
    ensures Apply(B, Apply(A, v, conv), conv) == v
  {
    var n := |v|;
    if conv == Row {
      var P := Mul(A, B);
      RowTimesModVec(RowTimes(v, A), B);
      RowTimesAssoc(v, A, B);
      RowTimesModMat(v, P);
      RowTimesIdentity(v);
    } else {
      var P := Mul(B, A);
      ColTimesModVec(B, ColTimes(A, v));
      ColTimesAssoc(B, A, v);
      ColTimesModMat(P, v);
      ColTimesIdentity(v);
    }
    ModVecReduced(v);
  }

  /** One block of capitals through the matrix. */
  function TransformBlock(M: Matrix, block: string, conv: Convention): (out: string)
    requires Square(M) && |block| == |M| && Capitals(block)
    ensures |out| == |block| && Capitals(out)
  {
    ToText(Apply(M, ToVec(block), conv))
  }

  /** A matrix that undoes A brings every block of capitals back. */
  lemma {:induction false} TransformBlockUndo(A: Matrix, B: Matrix, block: string, conv: Convention)
    requires Square(A) && Square(B) && |A| == |B| == |block| && Capitals(block) && Undoes(B, A, conv)
    ensures TransformBlock(B, TransformBlock(A, block, conv), conv) == block
  {
    var v := ToVec(block);
    ToVecToText(Apply(A, v, conv));
    ApplyUndo(A, B, v, conv);
    ToTextToVec(block);
  }

  /** A whole number of blocks: a positive multiple of m less m is a multiple of m. */
  lemma {:induction false} AlignedStep(n: nat, m: nat)
    requires m >= 1 && n > 0 && n % m == 0
    ensures n >= m && (n - m) % m == 0
  {
    var q := n / m;
    assert n == m * q;
    MulAtLeast(m, q);
    assert n - m == m * (q - 1);
    DivModUnique(n - m, m, q - 1, 0);
  }

  /** Two whole numbers of blocks make a whole number of blocks. */
  lemma {:induction false} AlignedSum(a: nat, b: nat, m: nat)
    requires m >= 1 && a % m == 0 && b % m == 0
    ensures (a + b) % m == 0
  {
    var p, q := a / m, b / m;
    assert a == m * p && b == m * q;
    assert a + b == m * (p + q);
    DivModUnique(a + b, m, p + q, 0);
  }

  /** The text, a whole number of blocks of m == |M| capitals, transformed block after
      block from the front. */
  function Transform(M: Matrix, text: string, conv: Convention): (out: string)
    requires Square(M) && |M| >= 1 && |text| % |M| == 0 && Capitals(text)
    ensures |out| == |text| && Capitals(out)
    decreases |text|
  {
    if |text| == 0 then ""
    else
      AlignedStep(|text|, |M|);
      TransformBlock(M, text[..|M|], conv) + Transform(M, text[|M|..], conv)
  }

  lemma {:induction false} CapitalsAppend(a: string, b: string)
    requires Capitals(a) && Capitals(b)
    ensures Capitals(a + b)
  {
    forall i | 0 <= i < |a + b|
      ensures IsCapital((a + b)[i])
    {
      if i < |a| {
        assert (a + b)[i] == a[i];
      } else {
        assert (a + b)[i] == b[i - |a|];
      }
    }
  }

  lemma {:induction false} ConcatAssoc(x: string, y: string, z: string)
    ensures x + (y + z) == (x + y) + z
  {
  }

  /** Transforming a concatenation of whole blocks transforms each part. */
  lemma {:induction false} TransformAppend(M: Matrix, a: string, b: string, conv: Convention)
    requires Square(M) && |M| >= 1 && |a| % |M| == 0 && |b| % |M| == 0 && Capitals(a) && Capitals(b)
    ensures (|a| + |b|) % |M| == 0 && Capitals(a + b)
    ensures Transform(M, a + b, conv) == Transform(M, a, conv) + Transform(M, b, conv)
    decreases |a|
  {
    var m := |M|;
    AlignedSum(|a|, |b|, m);
    CapitalsAppend(a, b);
    if |a| == 0 {
      assert a + b == b;
    } else {
      AlignedStep(|a|, m);
      var a' := a[m..];
      var x := TransformBlock(M, a[..m], conv);
      assert (a + b)[..m] == a[..m];
      assert (a + b)[m..] == a' + b;
      TransformAppend(M, a', b, conv);
      assert Transform(M, a + b, conv) == x + Transform(M, a' + b, conv);
      assert Transform(M, a, conv) == x + Transform(M, a', conv);
      ConcatAssoc(x, Transform(M, a', conv), Transform(M, b, conv));
    }
  }

  /** A single block transforms as a block. */
  lemma {:induction false} TransformOne(M: Matrix, block: string, conv: Convention)
    requires Square(M) && |M| >= 1 && |block| == |M| && Capitals(block)
    ensures |block| % |M| == 0
    ensures Transform(M, block, conv) == TransformBlock(M, block, conv)
  {
    DivModUnique(|block|, |M|, 1, 0);
    DivModUnique(0, |M|, 0, 0);
    assert block[..|M|] == block;
    assert block[|M|..] == "";
  }

  /** Block locality: a block in the middle of the text turns into the transform of that
      block alone, whatever stands before and after it. */
  lemma {:induction false} TransformLocal(M: Matrix, a: string, b: string, c: string, conv: Convention)
    requires Square(M) && |M| >= 1 && |a| % |M| == 0 && |b| == |M| && |c| % |M| == 0
    requires Capitals(a) && Capitals(b) && Capitals(c)
    ensures |a + b + c| % |M| == 0 && Capitals(a + b + c)
    ensures Transform(M, a + b + c, conv) == Transform(M, a, conv) + TransformBlock(M, b, conv) + Transform(M, c, conv)
  {
    DivModUnique(|b|, |M|, 1, 0);
    AlignedSum(|b|, |c|, |M|);
    AlignedSum(|a|, |b| + |c|, |M|);
    assert a + b + c == a + (b + c);
    CapitalsAppend(b, c);
    TransformAppend(M, a, b + c, conv);
    TransformAppend(M, b, c, conv);
    TransformOne(M, b, conv);
  }

  /** A matrix that undoes A brings every text of whole blocks back. */
  lemma {:induction false} TransformUndo(A: Matrix, B: Matrix, text: string, conv: Convention)
    requires Square(A) && Square(B) && |A| == |B| >= 1 && |text| % |A| == 0 && Capitals(text)
    requires Undoes(B, A, conv)
    ensures Transform(B, Transform(A, text, conv), conv) == text
    decreases |text|
  {
    var m := |A|;
    if |text| > 0 {
      AlignedStep(|text|, m);
      var block, rest := text[..m], text[m..];
      assert Capitals(block) && Capitals(rest) by {
        CapitalsSlice(text, 0, m);
        CapitalsSlice(text, m, |text|);
      }
      assert block + rest == text;
      TransformCons(A, block, rest, conv);
      var outBlock, outRest := TransformBlock(A, block, conv), Transform(A, rest, conv);
      TransformCons(B, outBlock, outRest, conv);
      TransformBlockUndo(A, B, block, conv);
      TransformUndo(A, B, rest, conv);
    }
  }

  /** A block followed by whole blocks transforms as that block followed by the rest. */
  lemma {:induction false} TransformCons(M: Matrix, block: string, rest: string, conv: Convention)
    requires Square(M) && |M| >= 1 && |block| == |M| && |rest| % |M| == 0
    requires Capitals(block) && Capitals(rest)
    ensures |block + rest| % |M| == 0 && Capitals(block + rest)
    ensures Transform(M, block + rest, conv) == TransformBlock(M, block, conv) + Transform(M, rest, conv)
  {
    var m := |M|;
    DivModUnique(|block|, m, 1, 0);
    AlignedSum(|block|, |rest|, m);
    CapitalsAppend(block, rest);
    assert (block + rest)[..m] == block && (block + rest)[m..] == rest;
  }

  /** A block of two numbers through a 2 x 2 matrix, written out. */
  lemma {:induction false} ApplyTwo(M: Matrix, v: Vector)
    requires Square(M) && |M| == 2 && |v| == 2
    ensures Apply(M, v, Row) == ModVec([v[0] * M[0][0] + v[1] * M[1][0], v[0] * M[0][1] + v[1] * M[1][1]])
    ensures Apply(M, v, Column) == ModVec([M[0][0] * v[0] + M[0][1] * v[1], M[1][0] * v[0] + M[1][1] * v[1]])
  {
    var r := RowTimes(v, M);
    var c := ColTimes(M, v);
    assert r[0] == v[0] * M[0][0] + v[1] * M[1][0];
    assert r[1] == v[0] * M[0][1] + v[1] * M[1][1];
    assert c[0] == M[0][0] * v[0] + M[0][1] * v[1];
    assert c[1] == M[1][0] * v[0] + M[1][1] * v[1];
    assert r == [v[0] * M[0][0] + v[1] * M[1][0], v[0] * M[0][1] + v[1] * M[1][1]];
    assert c == [M[0][0] * v[0] + M[0][1] * v[1], M[1][0] * v[0] + M[1][1] * v[1]];
  }

  /** The blocks of "ACTA" under the key [[11, 8], [3, 7]]: AC becomes GO with the row
      convention and QO with the column convention. */
  lemma {:induction false} DefaultKeyFirstBlock()
    ensures TransformBlock([[11, 8], [3, 7]], "AC", Row) == "GO"
    ensures TransformBlock([[11, 8], [3, 7]], "AC", Column) == "QO"
  {
    assert ToVec("AC") == [0, 2];
    DefaultKeyApply(0, 2);
    assert ToText([6, 14]) == "GO";
    assert ToText([16, 14]) == "QO";
    TransformBlockVia([[11, 8], [3, 7]], "AC", Row, [0, 2], [6, 14], "GO");
    TransformBlockVia([[11, 8], [3, 7]], "AC", Column, [0, 2], [16, 14], "QO");
  }

  /** TA becomes BW with the row convention and BF with the column convention. */
  lemma {:induction false} DefaultKeySecondBlock()
    ensures TransformBlock([[11, 8], [3, 7]], "TA", Row) == "BW"
    ensures TransformBlock([[11, 8], [3, 7]], "TA", Column) == "BF"
  {
    assert ToVec("TA") == [19, 0];
    DefaultKeyApply(19, 0);
    assert ToText([1, 22]) == "BW";
    assert ToText([1, 5]) == "BF";
    TransformBlockVia([[11, 8], [3, 7]], "TA", Row, [19, 0], [1, 22], "BW");
    TransformBlockVia([[11, 8], [3, 7]], "TA", Column, [19, 0], [1, 5], "BF");
  }

  /** The default key applied to a block (x, y), both conventions. */
  lemma {:induction false} DefaultKeyApply(x: int, y: int)
    ensures Apply([[11, 8], [3, 7]], [x, y], Row) == ModVec([11 * x + 3 * y, 8 * x + 7 * y])
    ensures Apply([[11, 8], [3, 7]], [x, y], Column) == ModVec([11 * x + 8 * y, 3 * x + 7 * y])
  {
    ApplyTwo([[11, 8], [3, 7]], [x, y]);
  }

  lemma {:induction false} TransformBlockVia(M: Matrix, block: string, conv: Convention, v: Vector, w: Vector, out: string)
    requires Square(M) && |block| == |M| && Capitals(block)
    requires ToVec(block) == v && Apply(M, v, conv) == w && ToText(w) == out
    ensures TransformBlock(M, block, conv) == out
  {
  }
}
