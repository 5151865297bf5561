/** Preparing text for the cipher: only the letters are kept, in upper case and in their
    order, and the result is padded with 'A' at the end up to a whole number of blocks. */
module Text {
  import opened ModArith

  /** An ASCII letter. */
  predicate IsLetter(c: char)
  {
    'A' <= c <= 'Z' || 'a' <= c <= 'z'
  }

  predicate IsCapital(c: char)
  {
    'A' <= c <= 'Z'
  }

  /** Every character is one of 'A' .. 'Z'. */
  predicate Capitals(s: string)
  {
    forall i :: 0 <= i < |s| ==> IsCapital(s[i])
  }

  /** The upper-case form of an ASCII letter; other characters are kept. */
  function Upper(c: char): (u: char)
    ensures IsLetter(c) ==> IsCapital(u)
    ensures IsCapital(c) ==> u == c
  {
    if 'a' <= c <= 'z' then (c as int - 'a' as int + 'A' as int) as char else c
  }

  /** The letters of s, upper-cased, in their order: the text the cipher works on. */
  function Normalize(s: string): (r: string)
    ensures |r| <= |s| && Capitals(r)
  {
    if |s| == 0 then ""
    else (if IsLetter(s[0]) then [Upper(s[0])] else "") + Normalize(s[1..])
  }

  /** Normalising a concatenation normalises each part: letters keep their order and
      nothing from one part moves into the other. */
  lemma {:induction false} NormalizeAppend(a: string, b: string)
    ensures Normalize(a + b) == Normalize(a) + Normalize(b)
  {
    if |a| == 0 {
      assert a + b == b;
    } else {
      var x := if IsLetter(a[0]) then [Upper(a[0])] else "";
      assert (a + b)[0] == a[0];
      assert (a + b)[1..] == a[1..] + b;
      NormalizeAppend(a[1..], b);
      assert Normalize(a + b) == x + (Normalize(a[1..]) + Normalize(b));
      assert x + (Normalize(a[1..]) + Normalize(b)) == (x + Normalize(a[1..])) + Normalize(b);
    }
  }

  /** A small letter becomes its capital; a capital and a non-letter stay as they are. */
  lemma {:induction false} UpperExample()
    ensures Upper('q') == 'Q' && Upper('a') == 'A' && Upper('z') == 'Z'
    ensures Upper('Q') == 'Q' && Upper('3') == '3'
  {
  }

  /** One character: a letter becomes its capital, anything else is dropped. */
  lemma {:induction false} NormalizeChar(c: char)
    ensures Normalize([c]) == if IsLetter(c) then [Upper(c)] else ""
  {
    assert [c][1..] == "";
  }

  /** Text of capitals is already normalised. */
  lemma {:induction false} NormalizeCapitals(s: string)
    requires Capitals(s)
    ensures Normalize(s) == s
  {
    if |s| > 0 {
      NormalizeCapitals(s[1..]);
      assert [s[0]] + s[1..] == s;
    }
  }

  /** Normalising twice is normalising once. */
  lemma {:induction false} NormalizeIdempotent(s: string)
    ensures Normalize(Normalize(s)) == Normalize(s)
  {
    NormalizeCapitals(Normalize(s));
  }

  lemma {:induction false} CapitalsSlice(s: string, a: nat, b: nat)
    requires Capitals(s) && a <= b <= |s|
    ensures Capitals(s[a..b])
  {
    forall i | 0 <= i < b - a
      ensures IsCapital(s[a..b][i])
    {
      assert s[a..b][i] == s[a + i];
    }
  }

  /** A text and its letter count: normalising keeps exactly the letters. */
  function LetterCount(s: string): nat
  {
    if |s| == 0 then 0 else (if IsLetter(s[0]) then 1 else 0) + LetterCount(s[1..])
  }

  lemma {:induction false} NormalizeLength(s: string)
    ensures |Normalize(s)| == LetterCount(s)
  {
    if |s| > 0 {
      NormalizeLength(s[1..]);
    }
  }

  /** k copies of c. */
  function Repeat(c: char, k: nat): (r: string)
    ensures |r| == k && forall i :: 0 <= i < k ==> r[i] == c
  {
    if k == 0 then "" else Repeat(c, k - 1) + [c]
  }

  /** s padded with 'A' to a multiple of m: fewer than m 'A's at the end, none when |s| is
      already a multiple of m. */
  function Padded(s: string, m: nat): (r: string)
    requires m >= 1
    ensures |r| % m == 0 && |s| <= |r| < |s| + m
    ensures r[..|s|] == s && forall i :: |s| <= i < |r| ==> r[i] == 'A'
    ensures |s| % m == 0 ==> r == s
  {
    if |s| % m == 0 then s
    else
      PadLength(|s|, m);
      s + Repeat('A', m - |s| % m)
  }

  /** Adding m - n % m to n reaches the next multiple of m. */
  lemma {:induction false} PadLength(n: nat, m: nat)
    requires m >= 1
    ensures (n + (m - n % m)) % m == 0
  {
    var q := n / m;
    assert n == m * q + n % m;
    assert n + (m - n % m) == m * (q + 1);
    DivModUnique(m * (q + 1), m, q + 1, 0);
  }

  /** Padding keeps a text of capitals a text of capitals. */
  lemma {:induction false} PaddedCapitals(s: string, m: nat)
    requires m >= 1 && Capitals(s)
    ensures Capitals(Padded(s, m))
  {
    var r := Padded(s, m);
    forall i | 0 <= i < |r|
      ensures IsCapital(r[i])
    {
      if i < |s| {
        assert r[i] == r[..|s|][i];
      }
    }
  }

  /** The number of padding letters is the only one below m that reaches a multiple of m. */
  lemma {:induction false} PaddedShortest(s: string, m: nat, k: nat)
    requires m >= 1 && k < m && (|s| + k) % m == 0
    ensures Padded(s, m) == s + Repeat('A', k)
  {
    var r := Padded(s, m);
    var d := |r| - |s|;
    MultipleGap(|s|, m, d, k);
    assert r == r[..|s|] + r[|s|..];
    assert r[|s|..] == Repeat('A', k);
  }

  /** Two steps below m from n that both reach a multiple of m are equal. */
  lemma {:induction false} MultipleGap(n: nat, m: nat, d: nat, k: nat)
    requires m >= 1 && d < m && k < m && (n + d) % m == 0 && (n + k) % m == 0
    ensures d == k
  {
    var p, q := (n + d) / m, (n + k) / m;
    assert n + d == m * p;
    assert n + k == m * q;
    if p < q {
      assert m * q - m * p == m * (q - p);
      MulAtLeast(m, q - p);
    } else if q < p {
      assert m * p - m * q == m * (p - q);
      MulAtLeast(m, p - q);
    }
  }

  /** Capitals stay as they are. */
  lemma {:induction false} NormalizeExample()
    ensures Normalize("ACT") == "ACT"
  {
    NormalizeCapitals("ACT");
  }

  /** Lower-case letters are raised, spaces and marks dropped. */
  lemma {:induction false} NormalizeMixedExample()
    ensures Normalize("a c!") == "AC"
  {
    MixedTail();
    NormalizeAppend("a", " c!");
    NormalizeChar('a');
    assert "a c!" == "a" + " c!";
  }

  lemma {:induction false} MixedTail()
    ensures Normalize(" c!") == "C"
  {
    MixedLast();
    NormalizeAppend(" ", "c!");
    NormalizeChar(' ');
    assert " c!" == " " + "c!";
  }

  lemma {:induction false} MixedLast()
    ensures Normalize("c!") == "C"
  {
    NormalizeAppend("c", "!");
    NormalizeChar('c');
    NormalizeChar('!');
    assert "c!" == "c" + "!";
  }
}
