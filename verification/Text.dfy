/**
 Strings as the agent compares, prints and trims them: lexicographic order, decimal numbers of natural and of
 fixed width.
 */
module Text {

  // Lexicographic order: what comparing Rust strings and file names in one directory means.

  predicate LexLess(a: string, b: string) {
    b != "" && (a == "" || a[0] < b[0] || (a[0] == b[0] && LexLess(a[1..], b[1..])))
  }

  predicate LexAtMost(a: string, b: string) {
    a == b || LexLess(a, b)
  }

  lemma {:induction false} LexTotal(a: string, b: string)
    ensures LexLess(a, b) || a == b || LexLess(b, a)
    ensures !(LexLess(a, b) && LexLess(b, a)) && !LexLess(a, a)
  {
    if a != "" && b != "" {
      LexTotal(a[1..], b[1..]);
      LexTotal(a[1..], a[1..]);
      assert a == [a[0]] + a[1..] && b == [b[0]] + b[1..];
    } else if a != "" {
      LexTotal(a[1..], a[1..]);
    }
  }

  lemma {:induction false} LexTransitive(a: string, b: string, c: string)
    requires LexLess(a, b) && LexLess(b, c)
    ensures LexLess(a, c)
  {
    if a != "" && a[0] == b[0] == c[0] {
      LexTransitive(a[1..], b[1..], c[1..]);
    }
  }

  /** Fields of equal width are compared one after the other. */
  lemma {:induction false} LexConcat(a: string, x: string, b: string, y: string)
    requires |a| == |b|
    ensures LexLess(a + x, b + y) <==> LexLess(a, b) || (a == b && LexLess(x, y))
  {
    if a == "" {
      assert a + x == x && b + y == y;
    } else {
      LexConcat(a[1..], x, b[1..], y);
      assert (a + x)[1..] == a[1..] + x && (b + y)[1..] == b[1..] + y;
      assert a == [a[0]] + a[1..] && b == [b[0]] + b[1..];
    }
  }

  // Prefixes and suffixes.

  predicate StartsWith(s: string, p: string) {
    |p| <= |s| && s[..|p|] == p
  }

  predicate EndsWith(s: string, p: string) {
    |p| <= |s| && s[|s| - |p|..] == p
  }

  // Decimal numbers.

  function Pow10(k: nat): (p: nat)
    ensures p > 0
  {
    if k == 0 then 1 else 10 * Pow10(k - 1)
  }

  function Digit(d: nat): char
    requires d < 10
  {
    (48 + d) as char
  }

  /** The last `w` decimal digits of `n`. */
  function Fixed(n: nat, w: nat): (s: string)
    ensures |s| == w
  {
    if w == 0 then "" else Fixed(n / 10, w - 1) + [Digit(n % 10)]
  }

  function Decimal(n: nat): (s: string)
    ensures |s| >= 1
  {
    if n < 10 then [Digit(n)] else Decimal(n / 10) + [Digit(n % 10)]
  }

  /** `n` printed with at least `w` digits, zeros in front. */
  function Padded(n: nat, w: nat): string {
    var s := Decimal(n);
    if |s| >= w then s else seq(w - |s|, _ => '0') + s
  }

  /** The order of two numbers of one width is the order of their texts, and the text tells them apart. */
  lemma {:induction false} FixedOrder(m: nat, n: nat, w: nat)
    requires m < Pow10(w) && n < Pow10(w)
    ensures LexLess(Fixed(m, w), Fixed(n, w)) <==> m < n
    ensures Fixed(m, w) == Fixed(n, w) <==> m == n
  {
    if w > 0 {
      FixedOrder(m / 10, n / 10, w - 1);
      var (a, b) := (Fixed(m / 10, w - 1), Fixed(n / 10, w - 1));
      var (x, y) := ([Digit(m % 10)], [Digit(n % 10)]);
      LexConcat(a, x, b, y);
      assert x[1..] == "" && y[1..] == "";
      assert (a + x)[..w - 1] == a && (b + y)[..w - 1] == b;
      assert (a + x)[w - 1] == x[0] && (b + y)[w - 1] == y[0];
    }
  }

  lemma {:induction false} DecimalIsFixed(n: nat)
    ensures n < Pow10(|Decimal(n)|) && Decimal(n) == Fixed(n, |Decimal(n)|)
  {
    if n < 10 {
      assert Pow10(1) == 10;
      assert Fixed(n, 1) == "" + [Digit(n)];
    } else {
      DecimalIsFixed(n / 10);
      var w := |Decimal(n / 10)|;
      assert n / 10 < Pow10(w) && Pow10(w + 1) == 10 * Pow10(w);
    }
  }

  // Reading numbers back.

  predicate IsDigits(s: string) {
    forall i | 0 <= i < |s| :: '0' <= s[i] <= '9'
  }

  ghost function DecimalValue(s: string): nat
    requires IsDigits(s)
  {
    if s == "" then 0 else 10 * DecimalValue(s[..|s| - 1]) + (s[|s| - 1] - '0') as nat
  }

  lemma {:induction false} FixedReadsBack(n: nat, w: nat)
    requires n < Pow10(w)
    ensures IsDigits(Fixed(n, w)) && DecimalValue(Fixed(n, w)) == n
  {
    if w > 0 {
      FixedReadsBack(n / 10, w - 1);
      assert Fixed(n, w)[..w - 1] == Fixed(n / 10, w - 1);
    }
  }

  /** A printed number reads back, and has no zero in front unless it is one. */
  lemma {:induction false} DecimalReadsBack(n: nat)
    ensures IsDigits(Decimal(n)) && DecimalValue(Decimal(n)) == n
    ensures n > 0 ==> Decimal(n)[0] != '0'
  {
    DecimalIsFixed(n);
    FixedReadsBack(n, |Decimal(n)|);
    if n >= 10 {
      DecimalReadsBack(n / 10);
    }
  }

  /** Extra digits in front are zeros. */
  lemma {:induction false} FixedWithZeros(n: nat, w: nat, z: nat)
    requires n < Pow10(w)
    ensures Fixed(n, w + z) == seq(z, _ => '0') + Fixed(n, w)
  {
    if w > 0 {
      FixedWithZeros(n / 10, w - 1, z);
      assert Fixed(n, w + z) == Fixed(n / 10, w - 1 + z) + [Digit(n % 10)];
    } else if z > 0 {
      FixedWithZeros(n, 0, z - 1);
      assert Fixed(0, z) == Fixed(0, z - 1) + ['0'];
      assert seq(z, _ => '0') == seq(z - 1, _ => '0') + ['0'];
    }
  }

  lemma Pow10Monotone(k: nat, l: nat)
    requires k <= l
    ensures Pow10(k) <= Pow10(l)
    decreases l
  {
    if k < l {
      Pow10Monotone(k, l - 1);
    }
  }

  lemma {:induction false} DecimalWidth(n: nat)
    ensures n >= 10 ==> Pow10(|Decimal(n)| - 1) <= n
  {
    if n >= 10 {
      DecimalWidth(n / 10);
      if n / 10 < 10 {
        assert |Decimal(n)| == 2 && Pow10(1) == 10 * Pow10(0);
      }
    }
  }

  /** Printing with a minimum width gives exactly that width when the number fits. */
  lemma {:induction false} PaddedIsFixed(n: nat, w: nat)
    requires n < Pow10(w) && w >= 1
    ensures Padded(n, w) == Fixed(n, w)
  {
    var k := |Decimal(n)|;
    DecimalIsFixed(n);
    DecimalWidth(n);
    if k <= w {
      FixedWithZeros(n, k, w - k);
    } else if n >= 10 {
      Pow10Monotone(w, k - 1);
    }
  }

  function AsciiLower(c: char): char {
    if 'A' <= c <= 'Z' then (c as int + 32) as char else c
  }

  // Trimming.

  /** Unicode White_Space. */
  predicate IsWhitespace(c: char) {
    var u := c as int;
    9 <= u <= 13 || u == 32 || u == 0x85 || u == 0xA0 || u == 0x1680 || 0x2000 <= u <= 0x200A
    || u == 0x2028 || u == 0x2029 || u == 0x202F || u == 0x205F || u == 0x3000
  }

  /** The 25 characters with that property. */
  lemma WhitespaceIsListed(c: char)
    ensures IsWhitespace(c) <==> c as int in [
      9, 10, 11, 12, 13, 32, 0x85, 0xA0, 0x1680, 0x2000, 0x2001, 0x2002, 0x2003, 0x2004, 0x2005, 0x2006, 0x2007,
      0x2008, 0x2009, 0x200A, 0x2028, 0x2029, 0x202F, 0x205F, 0x3000]
  {
  }

  predicate IsBlank(s: string) {
    forall i | 0 <= i < |s| :: IsWhitespace(s[i])
  }

  predicate IsTrimmed(s: string) {
    s != "" ==> !IsWhitespace(s[0]) && !IsWhitespace(s[|s| - 1])
  }

  function TrimStart(s: string): (r: string)
    ensures r != "" ==> !IsWhitespace(r[0])
    ensures |r| <= |s| && r == s[|s| - |r|..] && IsBlank(s[..|s| - |r|])
  {
    if s != "" && IsWhitespace(s[0]) then
      var r := TrimStart(s[1..]);
      assert s[1..][|s| - 1 - |r|..] == s[|s| - |r|..];
      assert forall i | 0 < i < |s| - |r| :: s[i] == s[1..][..|s| - 1 - |r|][i - 1];
      r
    else s
  }

  function TrimEnd(s: string): (r: string)
    ensures r != "" ==> !IsWhitespace(r[|r| - 1])
    ensures r <= s && IsBlank(s[|r|..])
  {
    if s != "" && IsWhitespace(s[|s| - 1]) then
      var r := TrimEnd(s[..|s| - 1]);
      assert forall i | |r| <= i < |s| - 1 :: s[i] == s[..|s| - 1][|r|..][i - |r|];
      r
    else s
  }

  function Trim(s: string): (r: string)
    ensures IsTrimmed(r)
  {
    var t := TrimStart(s);
    var r := TrimEnd(t);
    assert r != "" ==> r[0] == t[0];
    r
  }

  lemma {:induction false} TrimStartTakes(before: string, s: string)
    requires IsBlank(before) && s != "" && !IsWhitespace(s[0])
    ensures TrimStart(before + s) == s
  {
    if before == "" {
      assert before + s == s;
    } else {
      assert (before + s)[1..] == before[1..] + s;
      TrimStartTakes(before[1..], s);
    }
  }

  lemma {:induction false} TrimEndTakes(s: string, after: string)
    requires IsBlank(after) && s != "" && !IsWhitespace(s[|s| - 1])
    ensures TrimEnd(s + after) == s
  {
    if after == "" {
      assert s + after == s;
    } else {
      var n := |after| - 1;
      assert (s + after)[..|s + after| - 1] == s + after[..n];
      assert (s + after)[|s + after| - 1] == after[n];
      TrimEndTakes(s, after[..n]);
    }
  }

  /** White space around a trimmed text is what trimming takes away. */
  lemma TrimTakesPadding(before: string, s: string, after: string)
    requires IsBlank(before) && IsTrimmed(s) && IsBlank(after) && s != ""
    ensures Trim(before + s + after) == s
  {
    assert before + s + after == before + (s + after);
    TrimStartTakes(before, s + after);
    TrimEndTakes(s, after);
  }

  lemma TrimOfNothing()
    ensures Trim("") == ""
  {
  }
}
