# Hill cipher engine, modelled and verified in Dafny

The repository ships one Hill cipher desktop tool in two languages,
`hill_cipher_pro.py` (Chinese interface) and `hill_cipher_pro_en.py` (English
interface). Both do the same computation, and that computation is modelled
here:

- **Reading the key.** The key string (default `"11 8 3 7"`) is split at
  whitespace and every token is read as an integer. The token count must be a
  perfect square N * N, and the numbers fill an N x N key matrix row by row.
  A token that is not an integer, or a count that is not a square, refuses the
  key.
- **Inverting the key for decryption.**
  - The determinant det(K) is taken.
  - Its inverse modulo 26 is found, which exists exactly when
    gcd(det(K) mod 26, 26) == 1. Otherwise the key cannot decrypt.
  - The inverse key is (det(K)^-1 * adj(K)) mod 26.
- **Processing a text.**
  - The letters of the text are kept, upper-cased and in order.
  - The result is padded with `'A'` to a whole number of blocks of N.
  - Each block becomes numbers A = 0 .. Z = 25 and is multiplied with the
    matrix (the key to encrypt, the inverse key to decrypt), then reduced
    modulo 26.
  - With the row convention a block v becomes v * M; with the column
    convention it becomes M * v.
  - The resulting numbers become capitals again and are appended block by
    block.

The model works with exact integers throughout:

- the determinant is the Laplace (cofactor) expansion;
- the adjugate is the transposed matrix of cofactors.

The main results are the following.

- **Adjugate identities for every size N.**
  - K * adj(K) == det(K) * I and adj(K) * K == det(K) * I.
  - These rest on Laplace's theorem for every row and for the first column,
    on det(K^T) == det(K), and on a matrix with two equal rows having
    determinant 0.
- **The inverse key undoes the key.** K * K^-1 == I and K^-1 * K == I modulo
  26. This holds from both sides, so decryption undoes encryption in either
  convention.
- **Round trip through the whole program.** Decrypting the encryption of a
  text with the same key and convention gives back the text's capitals,
  padded to whole blocks. Encrypting a decryption does the same.
- **The key parser.**
  - Splitting keeps every non-whitespace character in order and gives back
    tokens joined by spaces.
  - Reading an integer inverts writing it.
  - The first token that is not an integer is the one reported.
  - An accepted key's entry (i, j) is token i * N + j.
- **The program's defaults.** The key `"11 8 3 7"` gives [[11, 8], [3, 7]],
  whose inverse modulo 26 is [[7, 18], [23, 11]].
  - `"ACT"` encrypts to `"GOBW"` with rows and to `"QOBF"` with columns.
  - Both decrypt to `"ACTA"`.

Modules, in dependency order:

| module | file | what it holds |
|---|---|---|
| `Wrappers` | wrappers.dfy | `Option`, `Result` |
| `Sums` | sums.dfy | finite sums over `nat -> int`, double sums, sums modulo 26 |
| `Matrices` | matrices.dfy | matrices as row lists, minors, products, reduction modulo 26 |
| `Determinant` | determinant.dfy | determinant, cofactors, adjugate |
| `Laplace` | laplace.dfy | Laplace's theorem, det of the transpose, equal rows, the adjugate identities |
| `ModArith` | modarith.dfy | gcd, extended Euclid, the inverse modulo m |
| `KeyParser` | keyparser.dfy | `str.split()`, `int()`, integer square root, reshaping, the key matrix |
| `KeyInversion` | keyinverse.dfy | the inverse key modulo 26 |
| `Text` | text.dfy | letter filtering, upper-casing, padding |
| `Cipher` | cipher.dfy | the block transform and the whole-text transform |
| `Engine` | engine.dfy | the run of the program, as a function and as the source's loop |

The two source files differ only in their interface: its texts and the font
setup (`hill_cipher_pro.py` probes for a CJK font in `_setup_fonts`, lines
33-63, while `hill_cipher_pro_en.py` sets fixed fonts in `__init__`). The
computation is the same code. The table below
cites `hill_cipher_pro.py`; the same code sits in `hill_cipher_pro_en.py` at
these lines:

| part | hill_cipher_pro.py | hill_cipher_pro_en.py |
|---|---|---|
| default key `"11 8 3 7"` | 84 | 52 |
| default text `"ACT"` | 104 | 72 |
| the coprimality rule | 72 | 40 |
| `_str_to_key_matrix` | 147-157 | 112-122 |
| `_mod_inverse_num` | 159-164 | 124-129 |
| `_get_key_inverse` | 166-178 | 131-143 |
| `process_action`: key and mode choice | 180-198 | 145-166 |
| letters and upper case | 199 | 168 |
| block size and padding | 200-204 | 169-174 |
| block loop | 205-213 | 176-186 |

## Model

| member | source | states |
|---|---|---|
| `Engine.Process` | hill_cipher_pro.py:180-213 | The outcome of a run, as a function of the mode, the convention, the key string and the text. A refused key string ends the run with its error; otherwise `ProcessKey` decides. Its properties are stated by `ProcessFailures`, `ProcessDone`, `ProcessDoneIs` and `ProcessRoundTrip`. |
| `Engine.ProcessKey` | hill_cipher_pro.py:190-213 | The outcome once the key matrix K is known: decryption without an inverse ends with det(K), the empty key gives `EmptyKey`, otherwise the text is run through K or its inverse. |
| `Engine.ProcessAction` | hill_cipher_pro.py:180-213 | The outcome of one run follows the program's order. A refused key ends the run with the parser's error. Decryption with a key whose determinant has no inverse modulo 26 ends with that determinant. Otherwise the text is run through the key (encryption) or its inverse (decryption). |
| `Engine.ProcessWithKey` | hill_cipher_pro.py:190-213 | Once the key string has given the key matrix, the rest of the run agrees with the specified outcome for that matrix. That covers the refusal for want of an inverse, the empty key, and the block loop through the key or its inverse. |
| `Engine.ProcessText` | hill_cipher_pro.py:199-213 | Filtering, padding and the block loop give the text's capitals, padded to whole blocks and transformed. |
| `Engine.ProcessBlocks` | hill_cipher_pro.py:205-213 | The block loop, with its invariant that the output so far is the transform of the blocks read so far, computes the block-by-block transform of the whole text. |
| `Engine.BlockStep` | hill_cipher_pro.py:206-213 | One turn of the loop extends the prefix by one whole block and its output by that block's transform; the rest stays a whole number of blocks. |
| `Engine.Run` | hill_cipher_pro.py:199-213 | The output has the length of the padded letters and consists of capitals only. |
| `Engine.RunUndo` | hill_cipher_pro.py:199-213 | Running with a matrix that undoes A after running with A gives the text's capitals, padded to whole blocks. |
| `Engine.InverseRun` | hill_cipher_pro.py:190-198 | The inverse key, run on the key's output, gives back the padded capitals, in either convention. |
| `Engine.ProcessDoneIs` | hill_cipher_pro.py:190-198 | A finished encryption runs the key matrix; a finished decryption runs its inverse. |
| `Engine.ProcessDone` | hill_cipher_pro.py:199-204 | A finished run yields only capitals. Their number is a multiple of N, at least the number of letters and less than N more. |
| `Engine.ProcessFailures` | hill_cipher_pro.py:184-198 | The run is refused at the key exactly when the key string is refused. It fails for want of an inverse exactly when decrypting with gcd(det mod 26, 26) != 1. Only the empty key gives the empty-key outcome. |
| `Engine.ProcessRoundTrip` | hill_cipher_pro.py:190-213 | For an invertible non-empty key, decrypting an encryption gives the padded capitals of the text, and so does encrypting a decryption, for both conventions. |
| `Engine.DefaultPadding` | hill_cipher_pro.py:201-204 | The default text `"ACT"` is padded to `"ACTA"` for blocks of two. |
| `Engine.DefaultRunResults` | hill_cipher_pro.py:205-213 | `"ACT"` under [[11, 8], [3, 7]] becomes `"GOBW"` (rows) and `"QOBF"` (columns). |
| `Engine.DefaultEncryption` | hill_cipher_pro.py:104 | Encrypting the default text with the default key string gives `"GOBW"` for rows and `"QOBF"` for columns. |
| `Engine.DefaultDecryption` | hill_cipher_pro.py:190-198 | Decrypting `"GOBW"` (rows) and `"QOBF"` (columns) with the default key string gives `"ACTA"`. |
| `Engine.DefaultInverseRow` | hill_cipher_pro.py:176 | The default inverse key takes `"GOBW"` back to `"ACTA"` with rows. |
| `Engine.DefaultInverseColumn` | hill_cipher_pro.py:176 | The default inverse key takes `"QOBF"` back to `"ACTA"` with columns. |
| `Cipher.ToVec` | hill_cipher_pro.py:208 | A block of capitals becomes as many numbers, all in [0, 26). |
| `Cipher.ToText` | hill_cipher_pro.py:213 | Numbers in [0, 26) become as many capitals. |
| `Cipher.ToVecExample` | hill_cipher_pro.py:208-213 | `'A'` is 0 and `'Z'` is 25, and back. |
| `Cipher.ToTextToVec` | hill_cipher_pro.py:208 | Turning capitals into numbers and back gives the capitals. |
| `Cipher.ToVecToText` | hill_cipher_pro.py:213 | Turning numbers in [0, 26) into capitals and back gives the numbers. |
| `Cipher.Apply` | hill_cipher_pro.py:209-212 | A block through the matrix, either convention, gives a block of the same size reduced into [0, 26). |
| `Cipher.ApplyUndo` | hill_cipher_pro.py:209-212 | A matrix B with A * B == I (rows) or B * A == I (columns) modulo 26 brings every reduced block back. |
| `Cipher.ApplyTwo` | hill_cipher_pro.py:209-212 | For a 2 x 2 matrix, (x, y) * M and M * (x, y) written out entry by entry. |
| `Cipher.TransformBlock` | hill_cipher_pro.py:207-213 | A block of capitals becomes a block of capitals of the same length. |
| `Cipher.TransformBlockUndo` | hill_cipher_pro.py:207-213 | A matrix that undoes A brings every block of capitals back. |
| `Cipher.Transform` | hill_cipher_pro.py:205-213 | A text of whole blocks becomes a text of capitals of the same length. |
| `Cipher.TransformAppend` | hill_cipher_pro.py:205-213 | Transforming two texts of whole blocks laid end to end transforms each part. |
| `Cipher.TransformOne` | hill_cipher_pro.py:205-213 | A single block transforms as a block. |
| `Cipher.TransformLocal` | hill_cipher_pro.py:205-213 | A block in the middle becomes its own transform, whatever surrounds it. |
| `Cipher.TransformUndo` | hill_cipher_pro.py:205-213 | A matrix that undoes A brings every text of whole blocks back. |
| `Cipher.DefaultKeyFirstBlock` | hill_cipher_pro.py:209-213 | Under the default key, `"AC"` becomes `"GO"` (rows) and `"QO"` (columns). |
| `Cipher.DefaultKeySecondBlock` | hill_cipher_pro.py:209-213 | Under the default key, `"TA"` becomes `"BW"` (rows) and `"BF"` (columns). |
| `Text.IsLetter` | hill_cipher_pro.py:199 | `str.isalpha`, restricted to the ASCII letters 'A' .. 'Z' and 'a' .. 'z' (see "## Left out"). |
| `Text.UpperExample` | hill_cipher_pro.py:199 | `'q'`, `'a'` and `'z'` become `'Q'`, `'A'` and `'Z'`; `'Q'` and `'3'` stay as they are. |
| `Text.Upper` | hill_cipher_pro.py:199 | A letter becomes a capital; a capital stays as it is. |
| `Text.Normalize` | hill_cipher_pro.py:199 | The result is capitals only and no longer than the text. |
| `Text.NormalizeChar` | hill_cipher_pro.py:199 | A single character is kept, upper-cased, exactly when it is a letter, and dropped otherwise. |
| `Text.NormalizeAppend` | hill_cipher_pro.py:199 | Filtering a concatenation filters each part, in order. |
| `Text.NormalizeCapitals` | hill_cipher_pro.py:199 | A text of capitals is kept as it is. |
| `Text.NormalizeIdempotent` | hill_cipher_pro.py:199 | Filtering twice is filtering once. |
| `Text.NormalizeLength` | hill_cipher_pro.py:199 | The result has as many characters as the text has letters. |
| `Text.NormalizeMixedExample` | hill_cipher_pro.py:199 | `"a c!"` becomes `"AC"`. |
| `Text.Repeat` | hill_cipher_pro.py:203 | `'A' * k` has length k and holds only that letter. |
| `Text.Padded` | hill_cipher_pro.py:201-204 | The padded text is the text followed by fewer than m `'A'`s, reaching a multiple of m. A text whose length is already a multiple is left as it is. |
| `Text.PaddedShortest` | hill_cipher_pro.py:201-204 | The padding is the only count below m that reaches a multiple of m. |
| `Text.PaddedCapitals` | hill_cipher_pro.py:201-204 | Padding keeps a text of capitals a text of capitals. |
| `KeyParser.IsSpace` | hill_cipher_pro.py:149 | The separators of `str.split()`: exactly the characters of Python's `str.isspace`, namely U+0009-U+000D, U+001C-U+001F, U+0020, U+0085, U+00A0, U+1680, U+2000-U+200A, U+2028, U+2029, U+202F, U+205F and U+3000. |
| `KeyParser.DropSpaces` | hill_cipher_pro.py:149 | The suffix that starts at the first non-whitespace character: every dropped character is whitespace, and what is left is empty or starts with a non-space. |
| `KeyParser.Word` | hill_cipher_pro.py:149 | The longest whitespace-free prefix, followed by whitespace or by the end. |
| `KeyParser.Split` | hill_cipher_pro.py:149 | `str.split()` yields non-empty tokens free of whitespace. |
| `KeyParser.SplitKeepsText` | hill_cipher_pro.py:149 | The tokens laid end to end are the string with its whitespace removed: nothing else is lost or reordered. |
| `KeyParser.SplitJoin` | hill_cipher_pro.py:149 | Splitting tokens joined by single spaces gives back the tokens. |
| `KeyParser.SplitCons` | hill_cipher_pro.py:149 | A token followed by whitespace or by nothing is split off as it is. |
| `KeyParser.SplitSpace` | hill_cipher_pro.py:149 | Leading whitespace does not change the tokens. |
| `KeyParser.ParseInt` | hill_cipher_pro.py:149 | A token `int()` accepts is made only of digits and underscores, with at most a leading sign. |
| `KeyParser.ParsePlus` | hill_cipher_pro.py:149 | An explicit plus sign reads as no sign: `int("+" + str(n)) == n`. |
| `KeyParser.ParseLeadingZero` | hill_cipher_pro.py:149 | A leading zero does not change the value: `int("0" + str(n)) == n`, as in `"007"`. |
| `KeyParser.ParseUnderscore` | hill_cipher_pro.py:149 | One underscore between two digits is skipped: `"1_000"` reads as 1000. |
| `KeyParser.ParseIntRefuses` | hill_cipher_pro.py:149-157 | The empty token, a lone sign, and an underscore that is leading, trailing, right after the sign or doubled are all refused. |
| `KeyParser.ParseShowInt` | hill_cipher_pro.py:149 | Reading what `str(n)` writes gives n, for every integer. |
| `KeyParser.ParseAll` | hill_cipher_pro.py:149 | It succeeds exactly when every token is an integer, and then gives each token's value in order. Otherwise it names a token that is not an integer, with all tokens before it integers. |
| `KeyParser.ParseAllFirstError` | hill_cipher_pro.py:149 | The token reported is the first one that is not an integer. |
| `KeyParser.Isqrt` | hill_cipher_pro.py:150 | r * r <= n < (r + 1) * (r + 1). |
| `KeyParser.IsqrtUnique` | hill_cipher_pro.py:150 | The integer square root is the only number with that property. |
| `KeyParser.RowOf` | hill_cipher_pro.py:154 | Row i of the reshaped matrix holds entries Offset(n, i) .. Offset(n, i) + n - 1. |
| `KeyParser.Reshape` | hill_cipher_pro.py:154 | `reshape(n, n)` is n x n with entry (i, j) the number at Offset(n, i) + j. |
| `KeyParser.OffsetIs` | hill_cipher_pro.py:154 | Row i starts at index i * n. |
| `KeyParser.KeyMatrix` | hill_cipher_pro.py:147-157 | An accepted key is a square matrix. |
| `KeyParser.KeyMatrixAccepts` | hill_cipher_pro.py:149-154 | A key string is accepted exactly when every token is an integer and the token count is a perfect square. |
| `KeyParser.KeyMatrixEntries` | hill_cipher_pro.py:149-154 | An accepted key is N x N for N * N tokens. Entry (i, j) is token i * N + j read as an integer. |
| `KeyParser.KeyMatrixNotSquare` | hill_cipher_pro.py:149-153 | A key is refused as not a perfect square, with its token count, exactly when every token is an integer and the count is not a square. |
| `KeyParser.KeyMatrixNotAnInteger` | hill_cipher_pro.py:155-157 | Any token that is not an integer refuses the key as not an integer, whatever the count. |
| `KeyParser.DefaultKeyMatrix` | hill_cipher_pro.py:84 | The default key string gives [[11, 8], [3, 7]]. |
| `KeyParser.ThreeTokenKey` | hill_cipher_pro.py:151-153 | `"1 2 3"` is refused: three is not a square. |
| `KeyParser.NonNumericKey` | hill_cipher_pro.py:155-157 | `"1 2 x 4"` is refused at `"x"`. |
| `KeyParser.DecimalKey` | hill_cipher_pro.py:155-157 | `"1.5"` is refused as not an integer. |
| `ModArith.ExtGcd` | hill_cipher_pro.py:162 | The extended Euclidean algorithm gives the gcd and Bezout coefficients x, y with a * x + b * y == gcd. |
| `ModArith.GcdDivides` | hill_cipher_pro.py:162 | The gcd divides both numbers. |
| `ModArith.ModInverse` | hill_cipher_pro.py:159-164 | The inverse of a modulo m, reduced first, from the extended Euclidean algorithm, or None. Its properties are stated by `ModInverseCorrect`, `ModInverseExists` and `ModInverseUnique`. |
| `ModArith.ModInverseCorrect` | hill_cipher_pro.py:159-164 | A found inverse lies in [0, m) and multiplies a to 1 modulo m. |
| `ModArith.ModInverseExists` | hill_cipher_pro.py:159-164 | An inverse is found exactly when gcd(a mod m, m) == 1. When none is found, no number inverts a modulo m. |
| `ModArith.NoInverse` | hill_cipher_pro.py:163-164 | With a common factor no number multiplies a to 1 modulo m. |
| `ModArith.ModInverseUnique` | hill_cipher_pro.py:162 | Two inverses in [0, m) are equal, so the one found is the single inverse `pow(a, -1, m)` returns. |
| `Determinant.Det` | hill_cipher_pro.py:167 | The exact determinant, as the cofactor expansion along the first row, with det of the 0 x 0 matrix 1. Its properties are stated by `DetRow0`, `Det1`, `Det2`, `Laplace.RowExpansionIsDet` and `Laplace.DetTranspose`. |
| `Determinant.Adjugate` | hill_cipher_pro.py:175 | The adjugate of an N x N matrix is N x N. |
| `Determinant.DetRow0` | hill_cipher_pro.py:167 | The determinant is the cofactor expansion along the first row. |
| `Determinant.Det1` | hill_cipher_pro.py:167 | A 1 x 1 matrix has its entry as determinant. |
| `Determinant.Det2` | hill_cipher_pro.py:167 | det [[a, b], [c, d]] == a * d - b * c. |
| `Laplace.RowExpansionIsDet` | hill_cipher_pro.py:167 | Laplace's theorem: the cofactor expansion along any row is the determinant. |
| `Laplace.ColExpansionIsDet` | hill_cipher_pro.py:167 | The cofactor expansion along the first column is the determinant. |
| `Laplace.DetTranspose` | hill_cipher_pro.py:167 | A matrix and its transpose have the same determinant. |
| `Laplace.EqualRowsDet` | hill_cipher_pro.py:175 | A matrix with two equal rows has determinant 0. |
| `Laplace.CofactorTranspose` | hill_cipher_pro.py:175 | The cofactor (i, j) of the transpose is the cofactor (j, i). |
| `Laplace.CofactorRowSum` | hill_cipher_pro.py:175 | Row i against the cofactors of row k sums to det when i == k and to 0 otherwise. |
| `Laplace.MulAdjugateRight` | hill_cipher_pro.py:175 | K * adj(K) == det(K) * I for every size. |
| `Laplace.MulAdjugateLeft` | hill_cipher_pro.py:175 | adj(K) * K == det(K) * I for every size. |
| `Matrices.ModVec` | hill_cipher_pro.py:210-212 | The `% 26` of a block's product keeps its length. |
| `Matrices.ModVecReduces` | hill_cipher_pro.py:210-212 | The `% 26` of a block gives numbers in [0, 26), each congruent modulo 26 to the one it replaces. |
| `Matrices.ModMat` | hill_cipher_pro.py:176 | The `% 26` of the scaled adjugate keeps the matrix's shape. |
| `Matrices.ModMatReduces` | hill_cipher_pro.py:176 | The `% 26` of a square matrix gives entries in [0, 26), each congruent modulo 26 to the one it replaces. |
| `Matrices.Scale` | hill_cipher_pro.py:176 | `det_inv * adjugate_matrix` keeps the matrix's shape. `MulScaleRight`, `MulScaleLeft` and `ScaleScale` state how it meets products. |
| `Matrices.RowTimes` | hill_cipher_pro.py:210 | `vec @ M`: a block times the matrix has one entry per column of M, entry j the sum over k of v[k] * M[k][j]. |
| `Matrices.ColTimes` | hill_cipher_pro.py:212 | `M @ vec.T`: the matrix times a block has one entry per row of M, entry i the sum over k of M[i][k] * v[k]. |
| `Matrices.RowTimesAssoc` | hill_cipher_pro.py:210 | (v * A) * B == v * (A * B). |
| `Matrices.ColTimesAssoc` | hill_cipher_pro.py:212 | A * (B * v) == (A * B) * v. |
| `Matrices.RowTimesIdentity` | hill_cipher_pro.py:210 | v * I == v. |
| `Matrices.ColTimesIdentity` | hill_cipher_pro.py:212 | I * v == v. |
| `Matrices.RowTimesModVec` | hill_cipher_pro.py:210 | Reducing the block modulo 26 before multiplying leaves the product's reduction the same. |
| `Matrices.RowTimesModMat` | hill_cipher_pro.py:210 | Reducing the matrix modulo 26 before multiplying leaves the product's reduction the same. |
| `Matrices.ColTimesModVec` | hill_cipher_pro.py:212 | The same for the column convention and the block. |
| `Matrices.ColTimesModMat` | hill_cipher_pro.py:212 | The same for the column convention and the matrix. |
| `Matrices.MulModMatRight` | hill_cipher_pro.py:176 | Reducing the right factor modulo 26 leaves a product's reduction the same. |
| `Matrices.MulModMatLeft` | hill_cipher_pro.py:176 | Reducing the left factor modulo 26 leaves a product's reduction the same. |
| `Matrices.MulScaleRight` | hill_cipher_pro.py:176 | A * (c * B) == c * (A * B). |
| `Matrices.MulScaleLeft` | hill_cipher_pro.py:176 | (c * A) * B == c * (A * B). |
| `Matrices.ModScaleIdentity` | hill_cipher_pro.py:176 | c * I reduces to I when c == 1 modulo 26. |
| `Matrices.MinorAt` | hill_cipher_pro.py:175 | A minor of a square matrix is square and holds the remaining entries in order. |
| `Sums.SumSwap` | hill_cipher_pro.py:175 | A helper fact: a double sum may be summed by rows or by columns. It serves the adjugate identities behind line 175 and the matrix products at lines 210 and 212. |
| `Sums.SumMod` | hill_cipher_pro.py:210 | Sums whose terms agree modulo 26 agree modulo 26. |
| `KeyInversion.KeyInverse` | hill_cipher_pro.py:166-178 | The inverse key, when there is one, has the key's size. |
| `KeyInversion.KeyInverseRefused` | hill_cipher_pro.py:169-174 | The key is refused exactly when gcd(det mod 26, 26) != 1, and then no number inverts det modulo 26. |
| `KeyInversion.KeyInverseEntries` | hill_cipher_pro.py:175-176 | Entry (i, j) of the inverse key is d times cofactor (j, i), reduced into [0, 26), where d inverts det modulo 26. |
| `KeyInversion.KeyInverseRight` | hill_cipher_pro.py:176 | K * K^-1 == I modulo 26. |
| `KeyInversion.KeyInverseLeft` | hill_cipher_pro.py:176 | K^-1 * K == I modulo 26. |
| `KeyInversion.DefaultKeyInverse` | hill_cipher_pro.py:166-178 | The default key has determinant 53 and inverse [[7, 18], [23, 11]] modulo 26. |
| `KeyInversion.InverseOf53` | hill_cipher_pro.py:169 | The inverse of 53 modulo 26 is 1. |
| `KeyInversion.AdjugateTwo` | hill_cipher_pro.py:175 | The adjugate of [[a, b], [c, d]] is [[d, -b], [-c, a]]. |
| `KeyInversion.EvenDeterminantRefused` | hill_cipher_pro.py:169-174 | [[2, 4], [6, 8]] has determinant -8 and is refused for decryption. |

## Left out

- **Interface.** The tkinter interface is a parameter of the model, not part
  of it. This covers:
  - the text areas, where the key string and the text are inputs and the
    result is the output;
  - the log area, status line and message boxes, where a refusal is an
    `Outcome` value carrying its reason;
  - font selection and clearing.
- **Numeric precision.** The determinant is exact. The source rounds
  numpy's floating-point `det`; the model does not capture float rounding
  for matrices where that rounding is off.
- **The adjugate.** It is computed exactly as the transposed cofactor matrix.
  The source computes `round(inv(K) * det)` in floating point. The two agree
  whenever that float version is accurate, but agreement in float is not
  modelled.
- **Integer width.** Integers are unbounded. The source's numpy `int64`
  products wrap around for huge key entries; that wrap-around is not
  modelled.
- **Square root.** `math.sqrt` on floats is modelled as the exact integer
  square root. They agree for any token count short of 2^52.
- **Characters.**
  - Letters and upper-casing are ASCII only, so the model discards every
    non-ASCII letter. The program keeps every character `str.isalpha`
    accepts, accented letters and CJK ideographs included. `str.upper` can
    also lengthen a letter (`'ß'` becomes `"SS"`) or turn a non-ASCII letter
    into an ASCII capital (`'ı'` becomes `'I'`). Whenever the text holds such
    a letter, the model's filtered text differs in length and content from
    the program's, and every later block shifts. For N = 2, `"ıa"` gives
    `"IA"` in the program but `"AA"` (the capital `"A"`, padded) in the model.
  - `int()` accepts only ASCII digits here, not other Unicode decimal digits.
- **Long integer tokens.** Python 3.11 and later refuse, with ValueError,
  `int()` of a token of more than 4300 digits. Lines 155-157 turn that error
  into the "not an integer" refusal. `KeyParser.ParseInt` has no length limit,
  so the model accepts such keys.
- **Empty key.** The empty key string gives the 0 x 0 matrix, as in the
  source. There the run then fails with a division by zero at the padding
  step (line 201; line 171 of the English file), which both encryption and
  decryption reach. The model reports that case
  as the `EmptyKey` outcome instead.
- `ModArith.ModInverse`: requires m >= 1. It is only used with m == 26. For
  m == 0 the source's `a % m` at line 160 raises ZeroDivisionError, before `pow`
  is reached.
