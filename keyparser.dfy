/** Reading the key: the key string is split on whitespace as Python's str.split() does,
    every token is read as a Python integer literal, the token count must be a perfect
    square n * n, and the numbers fill an n x n matrix row by row. */
module KeyParser {
  import opened Wrappers
  import opened Matrices

  // ---------------------------------------------------------------------------------
  // Splitting on whitespace.

  /** The characters for which Python's str.isspace() holds; str.split() with no argument
      separates tokens at runs of them. */
  predicate IsSpace(c: char)
  {
    ('\t' <= c <= '\r') || ('\U{1C}' <= c <= '\U{1F}') || c == ' ' || c == '\U{85}' ||
    c == '\U{A0}' || c == '\U{1680}' || ('\U{2000}' <= c <= '\U{200A}') || c == '\U{2028}' ||
    c == '\U{2029}' || c == '\U{202F}' || c == '\U{205F}' || c == '\U{3000}'
  }

  predicate NoSpace(t: string)
  {
    forall i :: 0 <= i < |t| ==> !IsSpace(t[i])
  }

  /** s without its leading whitespace. */
  function DropSpaces(s: string): (r: string)
    ensures |r| <= |s| && r == s[|s| - |r|..]
    ensures |r| > 0 ==> !IsSpace(r[0])
    ensures forall i :: 0 <= i < |s| - |r| ==> IsSpace(s[i])
  {
    if |s| > 0 && IsSpace(s[0]) then DropSpaces(s[1..]) else s
  }

  /** The longest prefix of s without whitespace. */
  function Word(s: string): (w: string)
    ensures |w| <= |s| && w == s[..|w|] && NoSpace(w)
    ensures |w| < |s| ==> IsSpace(s[|w|])
  {
    if |s| > 0 && !IsSpace(s[0]) then [s[0]] + Word(s[1..]) else ""
  }

  /** Tokens as str.split() yields them: non-empty and free of whitespace. */
  predicate Tokens(ts: seq<string>)
  {
    forall i :: 0 <= i < |ts| ==> |ts[i]| > 0 && NoSpace(ts[i])
  }

  lemma {:induction false} TokensCons(t: string, ts: seq<string>)
    requires |t| > 0 && NoSpace(t) && Tokens(ts)
    ensures Tokens([t] + ts)
  {
    forall i | 0 <= i < |[t] + ts|
      ensures |([t] + ts)[i]| > 0 && NoSpace(([t] + ts)[i])
    {
      if i > 0 {
        assert ([t] + ts)[i] == ts[i - 1];
      }
    }
  }

  lemma {:induction false} TokensTail(ts: seq<string>)
    requires |ts| > 0 && Tokens(ts)
    ensures |ts[0]| > 0 && NoSpace(ts[0]) && Tokens(ts[1..])
  {
    forall i | 0 <= i < |ts| - 1
      ensures |ts[1..][i]| > 0 && NoSpace(ts[1..][i])
    {
      assert ts[1..][i] == ts[i + 1];
    }
  }

  /** The tokens of s, as str.split() returns them: maximal runs of non-whitespace. */
  function Split(s: string): (ts: seq<string>)
    ensures Tokens(ts)
    decreases |s|
  {
    var s' := DropSpaces(s);
    if |s'| == 0 then []
    else
      var w := Word(s');
      var rest := Split(s'[|w|..]);
      TokensCons(w, rest);
      [w] + rest
  }

  /** The tokens with one space between each two. */
  function Join(ts: seq<string>): string
  {
    if |ts| == 0 then "" else if |ts| == 1 then ts[0] else ts[0] + " " + Join(ts[1..])
  }

  /** s with its whitespace removed. */
  function Squeeze(s: string): string
  {
    if |s| == 0 then "" else (if IsSpace(s[0]) then "" else [s[0]]) + Squeeze(s[1..])
  }

  /** The tokens laid end to end. */
  function Concat(ts: seq<string>): string
  {
    if |ts| == 0 then "" else ts[0] + Concat(ts[1..])
  }

  lemma {:induction false} WordOfToken(t: string, rest: string)
    requires NoSpace(t) && (|rest| == 0 || IsSpace(rest[0]))
    ensures Word(t + rest) == t
  {
    if |t| > 0 {
      assert (t + rest)[0] == t[0];
      assert (t + rest)[1..] == t[1..] + rest;
      WordOfToken(t[1..], rest);
    }
  }

  /** A token in front of whitespace or of nothing is split off as it is. */
  lemma {:induction false} SplitCons(t: string, rest: string)
    requires |t| > 0 && NoSpace(t) && (|rest| == 0 || IsSpace(rest[0]))
    ensures Split(t + rest) == [t] + Split(rest)
  {
    assert (t + rest)[0] == t[0];
    assert DropSpaces(t + rest) == t + rest;
    WordOfToken(t, rest);
    assert (t + rest)[|t|..] == rest;
  }

  /** Leading whitespace does not change the tokens. */
  lemma {:induction false} SplitSpace(s: string)
    requires |s| > 0 && IsSpace(s[0])
    ensures Split(s) == Split(s[1..])
  {
    assert DropSpaces(s) == DropSpaces(s[1..]);
  }

  /** Splitting tokens joined by spaces gives back the tokens. */
  lemma {:induction false} SplitJoin(ts: seq<string>)
    requires Tokens(ts)
    ensures Split(Join(ts)) == ts
  {
    if |ts| > 0 {
      var t, rest := ts[0], ts[1..];
      TokensTail(ts);
      HeadTail(ts);
      if |ts| == 1 {
        assert rest == [];
        SplitOne(t);
      } else {
        assert Split(Join(rest)) == rest by { SplitJoin(rest); }
        assert Join(ts) == t + " " + Join(rest) by { JoinCons(ts); }
        SplitJoinStep(t, rest, Join(rest));
      }
    }
  }

  lemma {:induction false} HeadTail(ts: seq<string>)
    requires |ts| > 0
    ensures ts == [ts[0]] + ts[1..]
  {
  }

  lemma {:induction false} JoinCons(ts: seq<string>)
    requires |ts| > 1
    ensures Join(ts) == ts[0] + " " + Join(ts[1..])
  {
  }

  lemma {:induction false} SplitJoinStep(t: string, rest: seq<string>, j: string)
    requires |t| > 0 && NoSpace(t) && Split(j) == rest
    ensures Split(t + " " + j) == [t] + rest
  {
    SplitSeparated(t, j);
  }

  lemma {:induction false} SplitOne(t: string)
    requires |t| > 0 && NoSpace(t)
    ensures Split(t) == [t]
  {
    SplitCons(t, "");
    assert t + "" == t;
    assert Split("") == [];
  }

  /** A token, one space, and more text: the token comes first, then the tokens of the text. */
  lemma {:induction false} SplitSeparated(t: string, s: string)
    requires |t| > 0 && NoSpace(t)
    ensures Split(t + " " + s) == [t] + Split(s)
  {
    var rest := " " + s;
    assert t + " " + s == t + rest;
    SplitCons(t, rest);
    SplitSpace(rest);
    assert rest[1..] == s;
  }

  lemma {:induction false} SqueezeAppend(a: string, b: string)
    ensures Squeeze(a + b) == Squeeze(a) + Squeeze(b)
  {
    if |a| == 0 {
      assert a + b == b;
    } else {
      var x := if IsSpace(a[0]) then "" else [a[0]];
      assert (a + b)[0] == a[0];
      assert (a + b)[1..] == a[1..] + b;
      SqueezeAppend(a[1..], b);
      assert Squeeze(a + b) == x + (Squeeze(a[1..]) + Squeeze(b));
      assert x + (Squeeze(a[1..]) + Squeeze(b)) == (x + Squeeze(a[1..])) + Squeeze(b);
    }
  }

  lemma {:induction false} SqueezeDropSpaces(s: string)
    ensures Squeeze(DropSpaces(s)) == Squeeze(s)
  {
    if |s| > 0 && IsSpace(s[0]) {
      SqueezeDropSpaces(s[1..]);
    }
  }

  lemma {:induction false} SqueezeNoSpace(t: string)
    requires NoSpace(t)
    ensures Squeeze(t) == t
  {
    if |t| > 0 {
      SqueezeNoSpace(t[1..]);
    }
  }

  /** No character other than whitespace is lost or reordered: the tokens laid end to end
      are s without its whitespace. */
  lemma {:induction false} SplitKeepsText(s: string)
    ensures Concat(Split(s)) == Squeeze(s)
    decreases |s|
  {
    var s' := DropSpaces(s);
    SqueezeDropSpaces(s);
    if |s'| > 0 {
      var w := Word(s');
      var tail := s'[|w|..];
      var rest := Split(tail);
      assert Split(s) == [w] + rest;
      assert Concat([w] + rest) == w + Concat(rest) by { ConcatCons(w, rest); }
      SplitKeepsText(tail);
      assert Squeeze(s') == w + Squeeze(tail) by {
        PrefixSuffix(s', |w|);
        SqueezeAppend(w, tail);
        SqueezeNoSpace(w);
      }
    }
  }

  lemma {:induction false} PrefixSuffix(x: string, k: nat)
    requires k <= |x|
    ensures x == x[..k] + x[k..]
  {
  }

  lemma {:induction false} ConcatCons(t: string, ts: seq<string>)
    ensures Concat([t] + ts) == t + Concat(ts)
  {
    assert ([t] + ts)[0] == t && ([t] + ts)[1..] == ts;
  }

  // ---------------------------------------------------------------------------------
  // Reading an integer token.

  predicate IsDigit(c: char)
  {
    '0' <= c <= '9'
  }

  function DigitValue(c: char): nat
    requires IsDigit(c)
  {
    c as int - '0' as int
  }

  function DigitChar(d: nat): (c: char)
    requires d < 10
    ensures IsDigit(c) && DigitValue(c) == d
  {
    ('0' as int + d) as char
  }

  /** Decimal digits in groups separated by single underscores, as int() accepts them:
      "1_000" but not "_1", "1_" or "1__0". */
  predicate DigitGroups(s: string)
  {
    |s| > 0 && IsDigit(s[0]) && IsDigit(s[|s| - 1]) &&
    (forall i :: 0 <= i < |s| ==> IsDigit(s[i]) || s[i] == '_') &&
    (forall i :: 0 <= i < |s| - 1 ==> s[i] == '_' ==> s[i + 1] != '_')
  }

  /** The value of the digits of s, underscores skipped. */
  function DigitsValue(s: string): nat
    requires forall i :: 0 <= i < |s| ==> IsDigit(s[i]) || s[i] == '_'
  {
    if |s| == 0 then 0
    else if s[|s| - 1] == '_' then DigitsValue(s[..|s| - 1])
    else 10 * DigitsValue(s[..|s| - 1]) + DigitValue(s[|s| - 1])
  }

  /** int(t) for a token t without whitespace: an optional sign and digit groups; None
      where int() raises ValueError. */
  function ParseInt(t: string): (r: Option<int>)
    ensures r.Some? ==> forall i :: 0 <= i < |t| ==> IsDigit(t[i]) || t[i] == '_' || (i == 0 && t[i] in "+-")
  {
    if |t| > 0 && (t[0] == '-' || t[0] == '+') then
      var body := t[1..];
      if DigitGroups(body) then
        var v: int := DigitsValue(body);
        Some(if t[0] == '-' then -v else v)
      else None
    else if DigitGroups(t) then Some(DigitsValue(t))
    else None
  }

  /** The decimal digits of n. */
  function ShowNat(n: nat): (s: string)
    ensures |s| > 0 && forall i :: 0 <= i < |s| ==> IsDigit(s[i])
  {
    if n < 10 then [DigitChar(n)] else ShowNat(n / 10) + [DigitChar(n % 10)]
  }

  /** n in decimal, with a leading '-' when negative, as str(n) writes it. */
  function ShowInt(n: int): string
  {
    if n < 0 then "-" + ShowNat(-n) else ShowNat(n)
  }

  lemma {:induction false} ShowNatValue(n: nat)
    ensures DigitsValue(ShowNat(n)) == n
  {
    if n >= 10 {
      var s := ShowNat(n);
      assert s[..|s| - 1] == ShowNat(n / 10);
      ShowNatValue(n / 10);
    }
  }

  /** Reading back what str(n) writes gives n. */
  lemma {:induction false} ParseShowInt(n: int)
    ensures ParseInt(ShowInt(n)) == Some(n)
  {
    if n < 0 {
      ParseShowNegative(-n);
      assert ShowInt(n) == "-" + ShowNat(-n);
    } else {
      ParseShowNat(n);
    }
  }

  lemma {:induction false} ParseShowNat(n: nat)
    ensures ParseInt(ShowNat(n)) == Some(n)
  {
    var d := ShowNat(n);
    ShowNatGroups(n);
    assert IsDigit(d[0]);
    ShowNatValue(n);
  }

  lemma {:induction false} ParseShowNegative(m: nat)
    ensures ParseInt("-" + ShowNat(m)) == Some(-(m as int))
  {
    var d := ShowNat(m);
    var t := "-" + d;
    ShowNatGroups(m);
    ShowNatValue(m);
    assert t[0] == '-' && t[1..] == d;
  }

  lemma {:induction false} ShowNatGroups(n: nat)
    ensures DigitGroups(ShowNat(n))
  {
  }

  /** An underscore between digit groups does not change their value. */
  lemma {:induction false} DigitsValueUnderscore(a: string, b: string)
    requires forall i :: 0 <= i < |a| ==> IsDigit(a[i]) || a[i] == '_'
    requires forall i :: 0 <= i < |b| ==> IsDigit(b[i]) || b[i] == '_'
    ensures forall i :: 0 <= i < |a + "_" + b| ==> IsDigit((a + "_" + b)[i]) || (a + "_" + b)[i] == '_'
    ensures DigitsValue(a + "_" + b) == DigitsValue(a + b)
    decreases |b|
  {
    var t := a + "_" + b;
    if |b| == 0 {
      assert t[..|t| - 1] == a && a + b == a;
    } else {
      var b' := b[..|b| - 1];
      assert t[..|t| - 1] == a + "_" + b';
      assert (a + b)[..|a + b| - 1] == a + b';
      DigitsValueUnderscore(a, b');
    }
  }

  /** A leading zero does not change the value of digit groups. */
  lemma {:induction false} DigitsValueZero(s: string)
    requires forall i :: 0 <= i < |s| ==> IsDigit(s[i]) || s[i] == '_'
    ensures forall i :: 0 <= i < |"0" + s| ==> IsDigit(("0" + s)[i]) || ("0" + s)[i] == '_'
    ensures DigitsValue("0" + s) == DigitsValue(s)
    decreases |s|
  {
    var t := "0" + s;
    if |s| == 0 {
      assert t[..|t| - 1] == "";
    } else {
      assert t[..|t| - 1] == "0" + s[..|s| - 1];
      DigitsValueZero(s[..|s| - 1]);
    }
  }

  /** int() reads an explicit plus sign as no sign: int("+" + str(n)) == n. */
  lemma {:induction false} ParsePlus(n: nat)
    ensures ParseInt("+" + ShowNat(n)) == Some(n)
  {
    var t := "+" + ShowNat(n);
    ShowNatGroups(n);
    ShowNatValue(n);
    assert t[0] == '+' && t[1..] == ShowNat(n);
  }

  /** int() ignores a leading zero: int("0" + str(n)) == n. */
  lemma {:induction false} ParseLeadingZero(n: nat)
    ensures ParseInt("0" + ShowNat(n)) == Some(n)
  {
    var d := ShowNat(n);
    var t := "0" + d;
    ShowNatGroups(n);
    ShowNatValue(n);
    DigitsValueZero(d);
    assert t[0] == '0';
    assert forall i :: 0 <= i < |t| - 1 ==> t[i] == '_' ==> t[i + 1] != '_' by {
      assert forall i :: 0 < i < |t| ==> t[i] == d[i - 1];
    }
  }

  /** int() skips an underscore put between two digits: "1_000" reads as 1000. */
  lemma {:induction false} ParseUnderscore(n: nat, k: nat)
    requires 0 < k < |ShowNat(n)|
    ensures var d := ShowNat(n); ParseInt(d[..k] + "_" + d[k..]) == Some(n)
  {
    var d := ShowNat(n);
    ShowNatValue(n);
    assert d[..k] + d[k..] == d;
    DigitsValueUnderscore(d[..k], d[k..]);
    UnderscoreGroups(d, k);
  }

  /** Digits with one underscore put between two of them form digit groups. */
  lemma {:induction false} UnderscoreGroups(d: string, k: nat)
    requires 0 < k < |d| && forall i :: 0 <= i < |d| ==> IsDigit(d[i])
    ensures DigitGroups(d[..k] + "_" + d[k..])
  {
    var t := d[..k] + "_" + d[k..];
    assert forall i :: 0 <= i < |t| && i != k ==> IsDigit(t[i]) by {
      assert forall i :: 0 <= i < k ==> t[i] == d[i];
      assert forall i :: k < i < |t| ==> t[i] == d[i - 1];
    }
  }

  /** int() refuses an empty token, a lone sign, and an underscore that is leading,
      trailing, right after the sign or doubled. */
  lemma {:induction false} ParseIntRefuses(a: string, b: string)
    ensures ParseInt("") == None && ParseInt("+") == None && ParseInt("-") == None
    ensures ParseInt("_" + a) == None && ParseInt("+_" + a) == None && ParseInt("-_" + a) == None
    ensures ParseInt(a + "_") == None
    ensures ParseInt(a + "__" + b) == None
  {
    assert ("+_" + a)[1..] == "_" + a;
    assert ("-_" + a)[1..] == "_" + a;
    var t := a + "_";
    if |a| > 0 {
      assert t[1..][|t| - 2] == '_';
    }
    var u := a + "__" + b;
    assert u[|a|] == '_' && u[|a| + 1] == '_';
    if |a| > 0 {
      assert u[1..][|a| - 1] == '_' && u[1..][|a|] == '_';
    }
  }

  // ---------------------------------------------------------------------------------
  // From tokens to the key matrix.

  /** Why a key is refused: a token that is not an integer (the first one), or a token
      count that is not a perfect square. */
  datatype KeyError = NotAnInteger(token: string) | NotPerfectSquare(count: nat)

  /** Every token read as an integer, in order; the first token that is not one stops it. */
  function ParseAll(ts: seq<string>): (r: Result<seq<int>, KeyError>)
    ensures r.Ok? <==> forall i :: 0 <= i < |ts| ==> ParseInt(ts[i]).Some?
    ensures r.Ok? ==> |r.value| == |ts| && forall i :: 0 <= i < |ts| ==> ParseInt(ts[i]) == Some(r.value[i])
    ensures r.Err? ==> exists k :: 0 <= k < |ts| && r.error == NotAnInteger(ts[k]) && ParseInt(ts[k]).None? &&
                        forall i :: 0 <= i < k ==> ParseInt(ts[i]).Some?
  {
    if |ts| == 0 then Ok([])
    else match ParseInt(ts[0])
      case None => Err(NotAnInteger(ts[0]))
      case Some(v) =>
        var rest := ParseAll(ts[1..]);
        if rest.Err? then
          ghost var k :| 0 <= k < |ts| - 1 && rest.error == NotAnInteger(ts[1..][k]) && ParseInt(ts[1..][k]).None? &&
                         forall i :: 0 <= i < k ==> ParseInt(ts[1..][i]).Some?;
          assert ts[k + 1] == ts[1..][k];
          rest
        else
          Ok([v] + rest.value)
  }

  lemma {:induction false} ParseAllCons(t: string, rest: seq<string>, v: int, vs: seq<int>)
    requires ParseInt(t) == Some(v) && ParseAll(rest) == Ok(vs)
    ensures ParseAll([t] + rest) == Ok([v] + vs)
  {
    assert ([t] + rest)[0] == t && ([t] + rest)[1..] == rest;
  }

  /** The integer square root: the largest r with r * r <= n. */
  function Isqrt(n: nat): (r: nat)
    ensures r * r <= n < (r + 1) * (r + 1)
  {
    if n == 0 then 0
    else
      var r := Isqrt(n - 1);
      if (r + 1) * (r + 1) <= n then r + 1 else r
  }

  /** The integer square root is the only r with r * r <= n < (r + 1) * (r + 1). */
  lemma {:induction false} IsqrtUnique(n: nat, k: nat)
    requires k * k <= n < (k + 1) * (k + 1)
    ensures Isqrt(n) == k
  {
    var r := Isqrt(n);
    if r < k {
      MulMono(r + 1, k);
    } else if r > k {
      MulMono(k + 1, r);
    }
  }

  /** n is a perfect square exactly when its integer square root squares to it. */
  lemma {:induction false} IsqrtExact(n: nat, k: nat)
    requires k * k == n
    ensures Isqrt(n) == k
  {
    assert (k + 1) * (k + 1) == k * k + 2 * k + 1;
    IsqrtUnique(n, k);
  }

  lemma {:induction false} MulMono(a: nat, b: nat)
    requires a <= b
    ensures a * a <= b * b
  {
    assert a * a <= a * b <= b * b;
  }

  /** Where row i of an n x n matrix starts when its entries are stored row by row:
      i * n, written as repeated addition so that the bounds below stay linear. */
  function Offset(n: nat, i: nat): (k: nat)
  {
    if i == 0 then 0 else Offset(n, i - 1) + n
  }

  lemma {:induction false} OffsetIs(n: nat, i: nat)
    ensures Offset(n, i) == i * n
  {
    if i > 0 {
      OffsetIs(n, i - 1);
      assert i * n == (i - 1) * n + n;
    }
  }

  /** Row i < k ends no later than where row k starts. */
  lemma {:induction false} OffsetBound(n: nat, i: nat, k: nat)
    requires i < k
    ensures Offset(n, i) + n <= Offset(n, k)
    decreases k
  {
    if i < k - 1 {
      OffsetBound(n, i, k - 1);
    }
  }

  lemma {:induction false} OffsetBounds(n: nat)
    ensures forall i :: 0 <= i < n ==> Offset(n, i) + n <= Offset(n, n)
  {
    forall i | 0 <= i < n
      ensures Offset(n, i) + n <= Offset(n, n)
    {
      OffsetBound(n, i, n);
    }
  }

  /** Row i of the n x n matrix filled row by row from nums. */
  function RowOf(nums: seq<int>, n: nat, i: nat): (row: seq<int>)
    requires |nums| == Offset(n, n) && i < n
    ensures |row| == n && Offset(n, i) + n <= |nums|
    ensures forall j :: 0 <= j < n ==> row[j] == nums[Offset(n, i) + j]
  {
    OffsetBound(n, i, n);
    nums[Offset(n, i) .. Offset(n, i) + n]
  }

  /** nums as an n x n matrix filled row by row (numpy's reshape(n, n)). */
  function Reshape(nums: seq<int>, n: nat): (M: Matrix)
    requires |nums| == Offset(n, n)
    ensures |M| == n && Square(M)
    ensures forall i :: 0 <= i < n ==> Offset(n, i) + n <= |nums|
    ensures forall i, j :: 0 <= i < n && 0 <= j < n ==> M[i][j] == nums[Offset(n, i) + j]
  {
    OffsetBounds(n);
    seq(n, i requires 0 <= i < n => RowOf(nums, n, i))
  }

  /** The key for a key string: the tokens read as integers, their count checked to be a
      perfect square n * n, and the n x n matrix they fill row by row. */
  function KeyMatrix(key: string): (r: Result<Matrix, KeyError>)
    ensures r.Ok? ==> Square(r.value)
  {
    match ParseAll(Split(key))
    case Err(e) => Err(e)
    case Ok(nums) =>
      var n := Isqrt(|nums|);
      if n * n != |nums| then Err(NotPerfectSquare(|nums|))
      else
        OffsetIs(n, n);
        Ok(Reshape(nums, n))
  }

  /** A key string is accepted exactly when every token is an integer and the token count
      is a perfect square. */
  lemma {:induction false} KeyMatrixAccepts(key: string)
    ensures var ts := Split(key);
            KeyMatrix(key).Ok? <==>
              (forall i :: 0 <= i < |ts| ==> ParseInt(ts[i]).Some?) && exists k: nat :: k * k == |ts|
  {
    var ts := Split(key);
    if ParseAll(ts).Ok? && exists k: nat :: k * k == |ts| {
      var k: nat :| k * k == |ts|;
      IsqrtExact(|ts|, k);
    }
  }

  /** An accepted key is an n x n matrix for n * n tokens, whose entry (i, j) is token
      Offset(n, i) + j == i * n + j (OffsetIs) read as an integer. */
  lemma {:induction false} KeyMatrixEntries(key: string)
    requires KeyMatrix(key).Ok?
    ensures var ts, M := Split(key), KeyMatrix(key).value;
            Square(M) && |M| * |M| == |ts| && Offset(|M|, |M|) == |ts|
    ensures var ts, M := Split(key), KeyMatrix(key).value;
            forall i, j :: 0 <= i < |M| && 0 <= j < |M| ==>
              Offset(|M|, i) + j < |ts| && ParseInt(ts[Offset(|M|, i) + j]) == Some(M[i][j])
  {
    KeyMatrixIs(key);
    var ts := Split(key);
    var nums := ParseAll(ts).value;
    ReshapeEntries(ts, nums, Isqrt(|nums|));
  }

  /** An accepted key string is its numbers, n * n of them for n their integer square
      root, reshaped. */
  lemma {:induction false} KeyMatrixIs(key: string)
    requires KeyMatrix(key).Ok?
    ensures ParseAll(Split(key)).Ok?
    ensures var nums := ParseAll(Split(key)).value; var n := Isqrt(|nums|);
            n * n == |nums| == Offset(n, n) && KeyMatrix(key).value == Reshape(nums, n)
  {
    var nums := ParseAll(Split(key)).value;
    OffsetIs(Isqrt(|nums|), Isqrt(|nums|));
  }

  lemma {:induction false} ReshapeEntries(ts: seq<string>, nums: seq<int>, n: nat)
    requires ParseAll(ts) == Ok(nums) && |nums| == Offset(n, n)
    ensures var M := Reshape(nums, n);
            forall i, j :: 0 <= i < n && 0 <= j < n ==>
              Offset(n, i) + j < |ts| && ParseInt(ts[Offset(n, i) + j]) == Some(M[i][j])
  {
    var M := Reshape(nums, n);
    assert |nums| == |ts| && forall k :: 0 <= k < |ts| ==> ParseInt(ts[k]) == Some(nums[k]);
    assert forall i, j :: 0 <= i < n && 0 <= j < n ==> Offset(n, i) + j < |nums| && M[i][j] == nums[Offset(n, i) + j];
    forall i, j | 0 <= i < n && 0 <= j < n
      ensures Offset(n, i) + j < |ts| && ParseInt(ts[Offset(n, i) + j]) == Some(M[i][j])
    {
      var k := Offset(n, i) + j;
      assert k < |nums| && M[i][j] == nums[k];
    }
  }

  /** A token that is not an integer refuses the key, whatever the token count. */
  lemma {:induction false} KeyMatrixNotAnInteger(key: string, i: nat)
    requires i < |Split(key)| && ParseInt(Split(key)[i]).None?
    ensures KeyMatrix(key).Err? && KeyMatrix(key).error.NotAnInteger?
  {
  }

  /** A key is refused as not a perfect square, with its token count, exactly when every
      token is an integer and the count is not a square. */
  lemma {:induction false} KeyMatrixNotSquare(key: string)
    ensures var ts := Split(key);
            KeyMatrix(key) == Err(NotPerfectSquare(|ts|)) <==>
              ParseAll(ts).Ok? && !exists k: nat :: k * k == |ts|
  {
    var ts := Split(key);
    if exists k: nat :: k * k == |ts| {
      var k: nat :| k * k == |ts|;
      IsqrtExact(|ts|, k);
    }
  }

  /** Tokens that stand for 11, 8, 3 and 7 read as those numbers. */
  lemma {:induction false} DefaultKeyNumbers()
    ensures ParseAll(["11", "8", "3", "7"]) == Ok([11, 8, 3, 7])
  {
    assert ShowNat(11) == ShowNat(1) + [DigitChar(1)];
    assert ShowInt(11) == "11";
    assert ShowInt(8) == "8";
    assert ShowInt(3) == "3";
    assert ShowInt(7) == "7";
    ParseShowInt(11);
    ParseShowInt(8);
    ParseShowInt(3);
    ParseShowInt(7);
    var e: seq<string>, ve: seq<int> := [], [];
    var r3, v3 := ["7"] + e, [7] + ve;
    var r2, v2 := ["3"] + r3, [3] + v3;
    var r1, v1 := ["8"] + r2, [8] + v2;
    ParseAllCons("7", e, 7, ve);
    ParseAllCons("3", r3, 3, v3);
    ParseAllCons("8", r2, 8, v2);
    ParseAllCons("11", r1, 11, v1);
    assert ["11", "8", "3", "7"] == ["11"] + r1;
    assert [11, 8, 3, 7] == [11] + v1;
  }

  /** The default key of the program fills the 2 x 2 matrix [[11, 8], [3, 7]]. */
  lemma {:induction false} DefaultKeyMatrix()
    ensures KeyMatrix("11 8 3 7") == Ok([[11, 8], [3, 7]])
  {
    DefaultKeyTokens();
    DefaultKeyNumbers();
    IsqrtExact(4, 2);
    DefaultKeyReshape();
  }

  lemma {:induction false} DefaultKeyTokens()
    ensures Split("11 8 3 7") == ["11", "8", "3", "7"]
  {
    var ts := ["11", "8", "3", "7"];
    assert "11 8 3 7" == Join(ts);
    SplitJoin(ts);
  }

  lemma {:induction false} DefaultKeyReshape()
    ensures Offset(2, 2) == 4 && Reshape([11, 8, 3, 7], 2) == [[11, 8], [3, 7]]
  {
    var nums := [11, 8, 3, 7];
    var M := Reshape(nums, 2);
    assert M[0] == RowOf(nums, 2, 0);
    assert nums[0..2] == [11, 8];
    assert M[1] == RowOf(nums, 2, 1);
    assert nums[2..4] == [3, 7];
  }

  /** Tokens that stand for 1, 2 and 3 read as those numbers. */
  lemma {:induction false} SmallNumbers()
    ensures ParseAll(["1", "2", "3"]) == Ok([1, 2, 3])
  {
    assert ShowInt(1) == "1";
    assert ShowInt(2) == "2";
    assert ShowInt(3) == "3";
    ParseShowInt(1);
    ParseShowInt(2);
    ParseShowInt(3);
    var e: seq<string>, ve: seq<int> := [], [];
    var r2, v2 := ["3"] + e, [3] + ve;
    var r1, v1 := ["2"] + r2, [2] + v2;
    ParseAllCons("3", e, 3, ve);
    ParseAllCons("2", r2, 2, v2);
    ParseAllCons("1", r1, 1, v1);
    assert ["1", "2", "3"] == ["1"] + r1;
    assert [1, 2, 3] == [1] + v1;
  }

  /** Three tokens are not a square number of entries. */
  lemma {:induction false} ThreeTokenKey()
    ensures KeyMatrix("1 2 3") == Err(NotPerfectSquare(3))
  {
    ThreeTokens();
    SmallNumbers();
    NotSquareThree();
    KeyMatrixNotSquare("1 2 3");
  }

  lemma {:induction false} ThreeTokens()
    ensures Split("1 2 3") == ["1", "2", "3"]
  {
    var ts := ["1", "2", "3"];
    assert "1 2 3" == Join(ts);
    SplitJoin(ts);
  }

  lemma {:induction false} NotSquareThree()
    ensures !exists k: nat :: k * k == 3
  {
    forall k: nat
      ensures k * k != 3
    {
      if k >= 2 {
        MulMono(2, k);
      }
    }
  }

  /** A token that is not a number refuses the key. */
  lemma {:induction false} NonNumericKey()
    ensures KeyMatrix("1 2 x 4") == Err(NotAnInteger("x"))
  {
    NonNumericTokens();
    NonNumericNumbers();
  }

  lemma {:induction false} NonNumericTokens()
    ensures Split("1 2 x 4") == ["1", "2", "x", "4"]
  {
    var ts := ["1", "2", "x", "4"];
    assert "1 2 x 4" == Join(ts);
    SplitJoin(ts);
  }

  /** Reading stops at "x", the first token that is not an integer. */
  lemma {:induction false} NonNumericNumbers()
    ensures ParseAll(["1", "2", "x", "4"]) == Err(NotAnInteger("x"))
  {
    var ts := ["1", "2", "x", "4"];
    ParseOneTwo();
    assert ParseInt(ts[2]) == None;
    ParseAllFirstError(ts, 2);
  }

  lemma {:induction false} ParseOneTwo()
    ensures ParseInt("1") == Some(1) && ParseInt("2") == Some(2)
  {
    assert ParseInt("1") == Some(1) by {
      assert ShowInt(1) == "1";
      ParseShowInt(1);
    }
    assert ParseInt("2") == Some(2) by {
      assert ShowInt(2) == "2";
      ParseShowInt(2);
    }
  }

  /** The error names the first token that is not an integer. */
  lemma {:induction false} ParseAllFirstError(ts: seq<string>, k: nat)
    requires k < |ts| && ParseInt(ts[k]).None? && forall i :: 0 <= i < k ==> ParseInt(ts[i]).Some?
    ensures ParseAll(ts) == Err(NotAnInteger(ts[k]))
  {
    var r := ParseAll(ts);
    var k' :| 0 <= k' < |ts| && r.error == NotAnInteger(ts[k']) && ParseInt(ts[k']).None? &&
              forall i :: 0 <= i < k' ==> ParseInt(ts[i]).Some?;
    assert k' == k;
  }

  /** A decimal point is not part of an integer token. */
  lemma {:induction false} DecimalKey()
    ensures KeyMatrix("1.5") == Err(NotAnInteger("1.5"))
  {
    DecimalTokens();
    DecimalToken();
    ParseAllFirstError(["1.5"], 0);
  }

  lemma {:induction false} DecimalTokens()
    ensures Split("1.5") == ["1.5"]
  {
    assert "1.5" == Join(["1.5"]);
    SplitJoin(["1.5"]);
  }

  lemma {:induction false} DecimalToken()
    ensures ParseInt("1.5") == None
  {
    assert "1.5"[1] == '.';
    NotAnIntegerAt("1.5", 1);
  }

  /** A character other than a digit or an underscore past the sign position makes a token
      no integer. */
  lemma {:induction false} NotAnIntegerAt(t: string, i: nat)
    requires 0 < i < |t| && !IsDigit(t[i]) && t[i] != '_'
    ensures ParseInt(t) == None
  {
  }
}
