/**
 * The pieces of java.lang behaviour the model relies on: decimal rendering
 * of an int (String.valueOf), ASCII lower-casing (String.toLowerCase) and the
 * truncating remainder operator `%`, and List.indexOf.
 */
module JavaText {

  predicate IsDigit(c: char) { '0' <= c <= '9' }

  function DigitChar(d: nat): (c: char)
    requires d < 10
    ensures IsDigit(c)
  {
    "0123456789"[d]
  }

  function DigitValue(c: char): (d: nat)
    requires IsDigit(c)
    ensures d < 10
  {
    (c as int - '0' as int) as nat
  }

  /** Decimal digits of a non-negative number, most significant first, no leading zeros. */
  function NatToString(n: nat): (s: string)
    ensures |s| >= 1
    ensures forall i :: 0 <= i < |s| ==> IsDigit(s[i])
    decreases n
  {
    if n < 10 then [DigitChar(n)] else NatToString(n / 10) + [DigitChar(n % 10)]
  }

  /** String.valueOf(int): a leading '-' for negative numbers. */
  function IntToString(i: int): (s: string)
    ensures |s| >= 1
    ensures i >= 0 ==> s == NatToString(i)
  {
    if i >= 0 then NatToString(i) else "-" + NatToString(-i)
  }

  /** The number a string of digits denotes. */
  function ParseDigits(s: string): nat
    requires forall i :: 0 <= i < |s| ==> IsDigit(s[i])
  {
    if s == [] then 0 else 10 * ParseDigits(s[..|s| - 1]) + DigitValue(s[|s| - 1])
  }

  lemma {:induction false} ParseNatToString(n: nat)
    ensures ParseDigits(NatToString(n)) == n
    decreases n
  {
    if n >= 10 {
      var s := NatToString(n);
      assert s[..|s| - 1] == NatToString(n / 10);
      ParseNatToString(n / 10);
    }
  }

  /** Rendering is injective: different numbers never print the same. */
  lemma NatToStringInjective(m: nat, n: nat)
    requires NatToString(m) == NatToString(n)
    ensures m == n
  {
    ParseNatToString(m);
    ParseNatToString(n);
  }

  function LowerChar(c: char): (l: char)
    ensures !('A' <= l <= 'Z')
  {
    if 'A' <= c <= 'Z' then (c as int - 'A' as int + 'a' as int) as char else c
  }

  /** String.toLowerCase restricted to ASCII letters. */
  function ToLower(s: string): (l: string)
    ensures |l| == |s|
    ensures forall i :: 0 <= i < |s| ==> l[i] == LowerChar(s[i])
  {
    seq(|s|, i requires 0 <= i < |s| => LowerChar(s[i]))
  }

  /** Java's `a % b` for b > 0: the remainder takes the sign of the dividend. */
  function JavaRem(a: int, b: int): (r: int)
    requires b > 0
    ensures a >= 0 ==> 0 <= r < b && r == a % b
    ensures a < 0 ==> -b < r <= 0
    ensures (a - r) % b == 0
  {
    RemCongruent(if a >= 0 then a else -a, b);
    if a >= 0 then a % b else -((-a) % b)
  }

  /** x and x % b differ by a multiple of b, whichever sign x is taken with. */
  lemma RemCongruent(x: int, b: int)
    requires x >= 0 && b > 0
    ensures (x - x % b) % b == 0
    ensures (-x + x % b) % b == 0
  {
    var q, m := x / b, x % b;
    assert x == q * b + m;
    assert x - m == q * b + 0;
    ModUnique(x - m, b, q, 0);
    assert -x + m == (-q) * b + 0;
    ModUnique(-x + m, b, -q, 0);
  }

  /** Java's remainder is odd in the dividend: it truncates toward zero. */
  lemma JavaRemNegates(a: int, b: int)
    requires b > 0
    ensures JavaRem(-a, b) == -JavaRem(a, b)
  {
  }

  /** -7 % 3 is -1 in Java, where a floored remainder would give 2. */
  lemma JavaRemExample()
    ensures JavaRem(-7, 3) == -1
    ensures JavaRem(7, 3) == 1
    ensures JavaRem(-6, 3) == 0
  {
  }

  lemma {:induction false} MulBounds(d: int, n: int)
    requires n > 0
    ensures d >= 1 ==> d * n >= n
    ensures d <= -1 ==> d * n <= -n
    decreases if d >= 0 then d else -d
  {
    if d > 1 {
      MulBounds(d - 1, n);
      assert d * n == (d - 1) * n + n;
    } else if d < -1 {
      MulBounds(d + 1, n);
      assert d * n == (d + 1) * n - n;
    }
  }

  /** The remainder is determined by any quotient-remainder split of x. */
  lemma ModUnique(x: int, n: int, k: int, r: int)
    requires n > 0 && 0 <= r < n && x == k * n + r
    ensures x % n == r
  {
    var q := x / n;
    assert x == q * n + x % n;
    assert (k - q) * n == x % n - r;
    MulBounds(k - q, n);
  }

  lemma ModShift(a: int, n: int)
    requires n > 0
    ensures (a + n) % n == a % n
  {
    ModUnique(a + n, n, a / n + 1, a % n);
  }

  lemma ModSmall(a: int, n: int)
    requires 0 <= a < n
    ensures a % n == a
  {
    ModUnique(a, n, 0, a);
  }

  /** List.indexOf: the first position holding `x`, or -1. */
  function IndexOf<T(==)>(s: seq<T>, x: T): (i: int)
    ensures i == -1 <==> x !in s
    ensures i != -1 ==> 0 <= i < |s| && s[i] == x && x !in s[..i]
  {
    if |s| == 0 then -1
    else if s[0] == x then 0
    else
      var j := IndexOf(s[1..], x);
      assert j != -1 ==> s[1..][..j] == s[1..j + 1];
      if j == -1 then -1 else j + 1
  }

  /** x occurs among the first m elements exactly when its first index is below m. */
  lemma IndexOfWithin<T>(s: seq<T>, x: T, m: nat)
    requires m <= |s|
    ensures x in s[..m] <==> x in s && IndexOf(s, x) < m
  {
    if x in s[..m] {
      var k :| 0 <= k < m && s[k] == x;
      assert s[..m][k] == x;
      var i := IndexOf(s, x);
      assert forall j :: 0 <= j < i ==> s[j] == s[..i][j];
    }
    if x in s && IndexOf(s, x) < m {
      assert s[..m][IndexOf(s, x)] == x;
    }
  }
}
