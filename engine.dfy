/** One encryption or decryption as the program performs it: the key string is read into a
    matrix, decryption replaces it with its inverse modulo 26, the text is reduced to its
    capitals and padded with 'A' to whole blocks, and the blocks are transformed in order. */
module Engine {
  import opened Wrappers
  import opened ModArith
  import opened Matrices
  import opened Determinant
  import opened KeyParser
  import opened KeyInversion
  import opened Text
  import opened Cipher

  datatype Mode = Encrypt | Decrypt

  /** What one run ends with: the key is refused, the key has no inverse for decryption
      (with its determinant), the key is empty, or the transformed text. */
  datatype Outcome = KeyRejected(error: KeyError) | NotInvertible(det: int) | EmptyKey | Done(result: string)

  /** The outcome of a run, as a function of the mode, the convention, the key string and
      the text. */
  function Process(mode: Mode, conv: Convention, key: string, text: string): Outcome
  {
    match KeyMatrix(key)
    case Err(e) => KeyRejected(e)
    case Ok(K) => ProcessKey(mode, conv, K, text)
  }

  /** The outcome of a run once the key string has given the key matrix K. */
  function ProcessKey(mode: Mode, conv: Convention, K: Matrix, text: string): Outcome
    requires Square(K)
  {
    var M := if mode == Encrypt then Some(K) else KeyInverse(K);
    if M.None? then NotInvertible(Det(K))
    else if |K| == 0 then EmptyKey
    else Done(Run(M.value, text, conv))
  }

  /** The text's capitals, padded to whole blocks of |M|, transformed with M. */
  function Run(M: Matrix, text: string, conv: Convention): (r: string)
    requires Square(M) && |M| >= 1
    ensures |r| == |Padded(Normalize(text), |M|)| && Capitals(r)
  {
    PaddedCapitals(Normalize(text), |M|);
    Transform(M, Padded(Normalize(text), |M|), conv)
  }

  /** Running with a matrix that undoes A after running with A gives the text's capitals
      padded to whole blocks. */
  lemma {:induction false} RunUndo(A: Matrix, B: Matrix, text: string, conv: Convention)
    requires Square(A) && Square(B) && |A| == |B| >= 1 && Undoes(B, A, conv)
    ensures Run(B, Run(A, text, conv), conv) == Padded(Normalize(text), |A|)
  {
    var n := |A|;
    var P := Padded(Normalize(text), n);
    PaddedCapitals(Normalize(text), n);
    var c := Run(A, text, conv);
    NormalizeCapitals(c);
    assert Padded(Normalize(c), n) == c;
    TransformUndo(A, B, P, conv);
  }

  /** The block loop: the text, a whole number of blocks, transformed block by block, each
      result appended to what came before. */
  method ProcessBlocks(M: Matrix, text: string, conv: Convention) returns (result: string)
    requires Square(M) && |M| >= 1 && |text| % |M| == 0 && Capitals(text)
    ensures result == Transform(M, text, conv)
  {
    var m := |M|;
    result := "";
    var i := 0;
    DivModUnique(0, m, 0, 0);
    assert text[..0] == "";
    while i < |text|
      invariant 0 <= i <= |text| && i % m == 0 && (|text| - i) % m == 0
      invariant result == Transform(M, text[..i], conv)
      decreases |text| - i
    {
      BlockStep(M, text, i, conv);
      var chunk := text[i..i + m];
      var out := TransformBlock(M, chunk, conv);
      result := result + out;
      i := i + m;
    }
    assert text[..i] == text;
  }

  /** One turn of the block loop: the prefix of whole blocks grows by the next block, and
      its transform by that block's transform. */
  lemma {:induction false} BlockStep(M: Matrix, text: string, i: nat, conv: Convention)
    requires Square(M) && |M| >= 1 && Capitals(text)
    requires i < |text| && i % |M| == 0 && (|text| - i) % |M| == 0
    ensures i + |M| <= |text| && (i + |M|) % |M| == 0 && (|text| - (i + |M|)) % |M| == 0
    ensures Transform(M, text[..i + |M|], conv) == Transform(M, text[..i], conv) + TransformBlock(M, text[i..i + |M|], conv)
  {
    var m := |M|;
    AlignedStep(|text| - i, m);
    assert (i + m) % m == 0 by {
      DivModUnique(m, m, 1, 0);
      AlignedSum(i, m, m);
    }
    var prefix, chunk := text[..i], text[i..i + m];
    assert prefix + chunk == text[..i + m];
    CapitalsSlice(text, 0, i);
    CapitalsSlice(text, i, i + m);
    assert Transform(M, chunk, conv) == TransformBlock(M, chunk, conv) by { TransformOne(M, chunk, conv); }
    TransformAppend(M, prefix, chunk, conv);
  }

  /** One run of the program on the key string and the text. */
  method ProcessAction(mode: Mode, conv: Convention, key: string, text: string) returns (outcome: Outcome)
    ensures outcome == Process(mode, conv, key, text)
  {
    var parsed := KeyMatrix(key);
    if parsed.Err? {
      return KeyRejected(parsed.error);
    }
    outcome := ProcessWithKey(mode, conv, parsed.value, text);
  }

  /** The rest of a run once the key string has given the key matrix K: the matrix for
      the mode, then the text through it. */
  method ProcessWithKey(mode: Mode, conv: Convention, K: Matrix, text: string) returns (outcome: Outcome)
    requires Square(K)
    ensures outcome == ProcessKey(mode, conv, K, text)
  {
    var M := K;
    if mode == Decrypt {
      var inverse := KeyInverse(K);
      if inverse.None? {
        return NotInvertible(Det(K));
      }
      M := inverse.value;
    }
    if |M| == 0 {
      return EmptyKey;
    }
    var result := ProcessText(M, text, conv);
    ProcessKeyDone(mode, conv, K, text, M);
    return Done(result);
  }

  /** Normalising, padding and the block loop for a key matrix M already chosen. */
  method ProcessText(M: Matrix, text: string, conv: Convention) returns (result: string)
    requires Square(M) && |M| >= 1
    ensures result == Run(M, text, conv)
  {
    var processed := Normalize(text);
    var m := |M|;
    if |processed| % m != 0 {
      var padding := m - |processed| % m;
      processed := processed + Repeat('A', padding);
    }
    assert processed == Padded(Normalize(text), m);
    PaddedCapitals(Normalize(text), m);
    result := ProcessBlocks(M, processed, conv);
  }

  /** A finished run yields capitals, as many as the letters of the text padded to whole
      blocks of the key size n: fewer than n more than the letters. */
  lemma {:induction false} ProcessDone(mode: Mode, conv: Convention, key: string, text: string)
    requires Process(mode, conv, key, text).Done?
    ensures var r := Process(mode, conv, key, text).result;
            var n := |KeyMatrix(key).value|;
            KeyMatrix(key).Ok? && n >= 1 && Capitals(r) && |r| % n == 0 &&
            LetterCount(text) <= |r| < LetterCount(text) + n
  {
    var K := KeyMatrix(key).value;
    var M := if mode == Encrypt then K else KeyInverse(K).value;
    ProcessDoneIs(mode, conv, key, text, K, M);
    var s := Normalize(text);
    var P := Padded(s, |K|);
    assert |Run(M, text, conv)| == |P|;
    assert |s| <= |P| < |s| + |K|;
    NormalizeLength(text);
  }

  /** The key string alone decides whether it is refused; decryption alone can fail for
      want of an inverse, exactly when det(K) shares a factor with 26; only the empty key
      gives the empty-key outcome. */
  lemma {:induction false} ProcessFailures(mode: Mode, conv: Convention, key: string, text: string)
    ensures Process(mode, conv, key, text).KeyRejected? <==> KeyMatrix(key).Err?
    ensures Process(mode, conv, key, text).NotInvertible? <==>
              mode == Decrypt && KeyMatrix(key).Ok? && Gcd(Det(KeyMatrix(key).value) % 26, 26) != 1
    ensures Process(mode, conv, key, text).EmptyKey? ==> KeyMatrix(key) == Ok([])
  {
    var p := Process(mode, conv, key, text);
    match KeyMatrix(key)
    case Err(e) =>
      assert p == KeyRejected(e);
    case Ok(K) =>
      KeyInverseRefused(K);
      if mode == Encrypt {
        assert p.EmptyKey? || p.Done?;
      } else if KeyInverse(K).None? {
        assert p == NotInvertible(Det(K));
      } else {
        assert p.EmptyKey? || p.Done?;
      }
  }

  /** Undoing the key: decrypting the encryption of a text with the same key and convention
      gives the text's capitals padded to whole blocks, and encrypting the decryption of a
      text gives the same. */
  lemma {:induction false} ProcessRoundTrip(conv: Convention, key: string, text: string)
    requires KeyMatrix(key).Ok? && |KeyMatrix(key).value| >= 1 && KeyInverse(KeyMatrix(key).value).Some?
    ensures var K := KeyMatrix(key).value;
            var c := Process(Encrypt, conv, key, text);
            c.Done? && Process(Decrypt, conv, key, c.result) == Done(Padded(Normalize(text), |K|))
    ensures var K := KeyMatrix(key).value;
            var p := Process(Decrypt, conv, key, text);
            p.Done? && Process(Encrypt, conv, key, p.result) == Done(Padded(Normalize(text), |K|))
  {
    var K := KeyMatrix(key).value;
    var Ki := KeyInverse(K).value;
    ProcessDoneIs(Encrypt, conv, key, text, K, K);
    ProcessDoneIs(Decrypt, conv, key, Run(K, text, conv), K, Ki);
    ProcessDoneIs(Decrypt, conv, key, text, K, Ki);
    ProcessDoneIs(Encrypt, conv, key, Run(Ki, text, conv), K, K);
    KeyInverseRight(K);
    KeyInverseLeft(K);
    RunUndo(K, Ki, text, conv);
    RunUndo(Ki, K, text, conv);
  }

  /** The default text "ACT" under the default key: its capitals padded to "ACTA", then the
      blocks AC and TA. */
  lemma {:induction false} DefaultRun(conv: Convention)
    ensures Run([[11, 8], [3, 7]], "ACT", conv) ==
              TransformBlock([[11, 8], [3, 7]], "AC", conv) + TransformBlock([[11, 8], [3, 7]], "TA", conv)
  {
    var K := [[11, 8], [3, 7]];
    NormalizeExample();
    PaddedShortest("ACT", 2, 1);
    assert Repeat('A', 1) == "A";
    assert Padded(Normalize("ACT"), 2) == "AC" + "TA";
    TransformOne(K, "AC", conv);
    TransformOne(K, "TA", conv);
    TransformAppend(K, "AC", "TA", conv);
  }

  /** A finished encryption is the run with the key matrix; a finished decryption the run
      with its inverse. */
  lemma {:induction false} ProcessDoneIs(mode: Mode, conv: Convention, key: string, text: string, K: Matrix, M: Matrix)
    requires KeyMatrix(key) == Ok(K) && |K| >= 1
    requires if mode == Encrypt then M == K else KeyInverse(K) == Some(M)
    ensures Square(M) && |M| >= 1
    ensures Process(mode, conv, key, text) == Done(Run(M, text, conv))
  {
    assert Process(mode, conv, key, text) == ProcessKey(mode, conv, K, text);
    ProcessKeyDone(mode, conv, K, text, M);
  }

  lemma {:induction false} ProcessKeyDone(mode: Mode, conv: Convention, K: Matrix, text: string, M: Matrix)
    requires Square(K) && |K| >= 1
    requires if mode == Encrypt then M == K else KeyInverse(K) == Some(M)
    ensures Square(M) && |M| >= 1
    ensures ProcessKey(mode, conv, K, text) == Done(Run(M, text, conv))
  {
    if mode == Decrypt {
      assert KeyInverse(K).Some? && |M| == |K| && Square(M);
    }
  }

  /** The default text under the default key, as blocks: "GOBW" for rows, "QOBF" for
      columns. */
  lemma {:induction false} DefaultRunResults()
    ensures Run([[11, 8], [3, 7]], "ACT", Row) == "GOBW"
    ensures Run([[11, 8], [3, 7]], "ACT", Column) == "QOBF"
  {
    DefaultRun(Row);
    DefaultRun(Column);
    DefaultKeyFirstBlock();
    DefaultKeySecondBlock();
    assert "GO" + "BW" == "GOBW";
    assert "QO" + "BF" == "QOBF";
  }

  /** With the default key string, encryption runs [[11, 8], [3, 7]]. */
  lemma {:induction false} DefaultKeyEncrypts(conv: Convention, text: string)
    ensures Process(Encrypt, conv, "11 8 3 7", text) == Done(Run([[11, 8], [3, 7]], text, conv))
  {
    var K := [[11, 8], [3, 7]];
    assert KeyMatrix("11 8 3 7") == Ok(K) && |K| >= 1 by { DefaultKeyMatrix(); }
    ProcessDoneIs(Encrypt, conv, "11 8 3 7", text, K, K);
  }

  /** With the default key string, decryption runs its inverse [[7, 18], [23, 11]]. */
  lemma {:induction false} DefaultKeyDecrypts(conv: Convention, text: string)
    ensures Process(Decrypt, conv, "11 8 3 7", text) == Done(Run([[7, 18], [23, 11]], text, conv))
  {
    var K, Ki := [[11, 8], [3, 7]], [[7, 18], [23, 11]];
    assert KeyMatrix("11 8 3 7") == Ok(K) && |K| >= 1 by { DefaultKeyMatrix(); }
    assert KeyInverse(K) == Some(Ki) by { DefaultKeyInverse(); }
    ProcessDoneIs(Decrypt, conv, "11 8 3 7", text, K, Ki);
  }

  /** Encrypting the default text "ACT" with the default key "11 8 3 7" gives "GOBW" with the
      row convention and "QOBF" with the column convention. */
  lemma {:induction false} DefaultEncryption()
    ensures Process(Encrypt, Row, "11 8 3 7", "ACT") == Done("GOBW")
    ensures Process(Encrypt, Column, "11 8 3 7", "ACT") == Done("QOBF")
  {
    DefaultKeyEncrypts(Row, "ACT");
    DefaultKeyEncrypts(Column, "ACT");
    DefaultRunResults();
  }

  /** The inverse key undoes a run with the key, in either convention. */
  lemma {:induction false} InverseRun(K: Matrix, Ki: Matrix, text: string, conv: Convention)
    requires Square(K) && |K| >= 1 && KeyInverse(K) == Some(Ki)
    ensures Square(Ki) && |Ki| == |K|
    ensures Run(Ki, Run(K, text, conv), conv) == Padded(Normalize(text), |K|)
  {
    KeyInverseRight(K);
    KeyInverseLeft(K);
    RunUndo(K, Ki, text, conv);
  }

  /** InverseRun for a ciphertext c and padded text p already worked out. */
  lemma {:induction false} InverseRunAt(K: Matrix, Ki: Matrix, text: string, conv: Convention, c: string, p: string)
    requires Square(K) && |K| >= 1 && KeyInverse(K) == Some(Ki)
    requires Run(K, text, conv) == c && Padded(Normalize(text), |K|) == p
    ensures Square(Ki) && |Ki| >= 1 && Run(Ki, c, conv) == p
  {
    InverseRun(K, Ki, text, conv);
  }

  /** The inverse of the default key takes "GOBW" back to "ACTA" with the row convention. */
  lemma {:induction false} DefaultInverseRow()
    ensures Run([[7, 18], [23, 11]], "GOBW", Row) == "ACTA"
  {
    var K, Ki := [[11, 8], [3, 7]], [[7, 18], [23, 11]];
    assert KeyInverse(K) == Some(Ki) by { DefaultKeyInverse(); }
    assert Run(K, "ACT", Row) == "GOBW" by { DefaultRunResults(); }
    assert Padded(Normalize("ACT"), 2) == "ACTA" by { DefaultPadding(); }
    InverseRunAt(K, Ki, "ACT", Row, "GOBW", "ACTA");
  }

  /** The inverse of the default key takes "QOBF" back to "ACTA" with the column convention. */
  lemma {:induction false} DefaultInverseColumn()
    ensures Run([[7, 18], [23, 11]], "QOBF", Column) == "ACTA"
  {
    var K, Ki := [[11, 8], [3, 7]], [[7, 18], [23, 11]];
    assert KeyInverse(K) == Some(Ki) by { DefaultKeyInverse(); }
    assert Run(K, "ACT", Column) == "QOBF" by { DefaultRunResults(); }
    assert Padded(Normalize("ACT"), 2) == "ACTA" by { DefaultPadding(); }
    InverseRunAt(K, Ki, "ACT", Column, "QOBF", "ACTA");
  }

  /** The default text padded to blocks of two: "ACTA". */
  lemma {:induction false} DefaultPadding()
    ensures Padded(Normalize("ACT"), 2) == "ACTA"
  {
    NormalizeExample();
    PaddedShortest("ACT", 2, 1);
    assert Repeat('A', 1) == "A";
    assert "ACT" + "A" == "ACTA";
  }

  /** Decrypting those ciphertexts with the same key and convention gives "ACTA": the text
      with its padding letter. */
  lemma {:induction false} DefaultDecryption()
    ensures Process(Decrypt, Row, "11 8 3 7", "GOBW") == Done("ACTA")
    ensures Process(Decrypt, Column, "11 8 3 7", "QOBF") == Done("ACTA")
  {
    DefaultKeyDecrypts(Row, "GOBW");
    DefaultKeyDecrypts(Column, "QOBF");
    DefaultInverseRow();
    DefaultInverseColumn();
  }
}
