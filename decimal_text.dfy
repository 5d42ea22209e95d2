/**
 * Decimal text as JavaScript's BigInt produces it, and the integer arithmetic
 * behind it.
 *
 * - `IntToString` is `BigInt.prototype.toString()` in base 10: an optional
 *   '-' and the digits, most significant first, with no leading zero.
 * - `TruncDiv`/`TruncMod` are BigInt `/` and `%`: the quotient is rounded
 *   toward zero and the remainder has the sign of the dividend. Dafny's own
 *   `/` and `%` are Euclidean; the two agree on non-negative operands.
 * - `ParseFixed` reads "<digits>.<digits>" back into a scaled integer. It is
 *   the reference reader that the fixed-point round trip is stated against.
 */
module DecimalText {

  datatype Option<T> = None | Some(value: T)

  /** 10^n */
  function Pow10(n: nat): (p: nat)
    ensures p >= 1
  {
    if n == 0 then 1 else 10 * Pow10(n - 1)
  }

  lemma {:induction false} Pow10Add(a: nat, b: nat)
    ensures Pow10(a + b) == Pow10(a) * Pow10(b)
  {
    if a > 0 {
      Pow10Add(a - 1, b);
      calc {
        Pow10(a + b);
        10 * Pow10(a - 1 + b);
        10 * (Pow10(a - 1) * Pow10(b));
        (10 * Pow10(a - 1)) * Pow10(b);
      }
    }
  }

  // ---------------------------------------------------------------- digits

  predicate IsDigit(c: char) {
    '0' <= c <= '9'
  }

  predicate AllDigits(s: string) {
    forall k :: 0 <= k < |s| ==> IsDigit(s[k])
  }

  function DigitValue(c: char): (d: nat)
    requires IsDigit(c)
    ensures d < 10
  {
    (c as int) - ('0' as int)
  }

  function DigitChar(d: nat): (c: char)
    requires d < 10
    ensures IsDigit(c) && DigitValue(c) == d
  {
    (('0' as int) + d) as char
  }

  /** The number a string of digits denotes, read most significant first. */
  function DigitsValue(s: string): (v: nat)
    requires AllDigits(s)
    ensures v < Pow10(|s|)
  {
    if s == [] then 0
    else
      var init := s[..|s| - 1];
      assert AllDigits(init);
      var d := DigitValue(s[|s| - 1]);
      assert DigitsValue(init) <= Pow10(|init|) - 1;
      10 * DigitsValue(init) + d
  }

  lemma DigitsValueAppend(s: string, c: char)
    requires AllDigits(s) && IsDigit(c)
    ensures AllDigits(s + [c])
    ensures DigitsValue(s + [c]) == 10 * DigitsValue(s) + DigitValue(c)
  {
    assert (s + [c])[..|s|] == s;
  }

  // ------------------------------------------------- BigInt.toString(), base 10

  /** The base-10 text of a non-negative BigInt. */
  function NatToString(n: nat): (s: string)
    ensures |s| >= 1 && AllDigits(s)
    ensures (s[0] == '0') == (n == 0)
    ensures n == 0 ==> s == "0"
    decreases n
  {
    if n < 10 then [DigitChar(n)] else NatToString(n / 10) + [DigitChar(n % 10)]
  }

  lemma {:induction false} NatToStringValue(n: nat)
    ensures DigitsValue(NatToString(n)) == n
    decreases n
  {
    if n >= 10 {
      NatToStringValue(n / 10);
      DigitsValueAppend(NatToString(n / 10), DigitChar(n % 10));
    }
  }

  /** The base-10 text of any BigInt: a '-' in front of a negative value. */
  function IntToString(i: int): (s: string)
    ensures |s| >= 1
    ensures ('-' in s) == (i < 0)
    ensures i >= 0 ==> AllDigits(s) && DigitsValue(s) == i
  {
    if i < 0 then
      var s := "-" + NatToString(-i);
      assert s[0] == '-';
      s
    else
      NatToStringValue(i);
      var s := NatToString(i);
      assert forall k :: 0 <= k < |s| ==> s[k] != '-';
      s
  }

  // ------------------------------------------ BigInt `/` and `%` (truncating)

  /** BigInt `a / b` for b > 0: the exact quotient rounded toward zero. */
  function TruncDiv(a: int, b: int): (q: int)
    requires b > 0
    ensures a >= 0 ==> 0 <= q && 0 <= b * q <= a < b * q + b
    ensures a < 0 ==> q <= 0 && b * q - b < a <= b * q <= 0
  {
    if a >= 0 then
      EuclidBounds(a, b);
      a / b
    else
      EuclidBounds(-a, b);
      assert b * -((-a) / b) == -(b * ((-a) / b));
      -((-a) / b)
  }

  /** BigInt `a % b` for b > 0: what is left after TruncDiv, with the sign of a. */
  function TruncMod(a: int, b: int): (r: int)
    requires b > 0
    ensures a == b * TruncDiv(a, b) + r
    ensures a >= 0 ==> 0 <= r < b
    ensures a < 0 ==> -b < r <= 0
  {
    a - b * TruncDiv(a, b)
  }

  lemma TruncOfMultiple(x: int)
    ensures TruncDiv(10 * x, 10) == x && TruncMod(10 * x, 10) == 0
  {
    if x < 0 {
      assert -(10 * x) == 10 * (-x);
    }
  }

  // ------------------------------------------------- Euclidean div/mod facts

  lemma EuclidBounds(a: nat, b: int)
    requires b > 0
    ensures 0 <= a / b && 0 <= b * (a / b) <= a < b * (a / b) + b
  {
    assert a == b * (a / b) + a % b;
    assert 0 <= a / b;
    MulSign(b, a / b);
  }

  lemma MulSign(d: int, x: int)
    requires d > 0
    ensures x >= 0 ==> d * x >= 0
    ensures x >= 1 ==> d * x >= d
    ensures x <= -1 ==> d * x <= -d
  {
  }

  lemma DivModUnique(a: int, d: int, q: int, r: int)
    requires d > 0 && a == d * q + r && 0 <= r < d
    ensures a / d == q && a % d == r
  {
    var q', r' := a / d, a % d;
    assert a == d * q' + r' && 0 <= r' < d;
    assert d * (q - q') == d * q - d * q';
    MulSign(d, q - q');
  }

  /** Dividing by b then by c is dividing by b * c; the remainders combine. */
  lemma DivDivMod(a: int, b: int, c: int)
    requires b > 0 && c > 0
    ensures a / b / c == a / (b * c)
    ensures a % (b * c) == b * ((a / b) % c) + a % b
  {
    var q, r := a / b, a % b;
    var q2, r2 := q / c, q % c;
    assert a == b * q + r && 0 <= r < b;
    assert q == c * q2 + r2 && 0 <= r2 < c;
    Regroup(b, c, q2, r2);
    RemainderBound(b, c, r2);
    DivModUnique(a, b * c, q2, b * r2 + r);
  }

  lemma Regroup(b: int, c: int, q2: int, r2: int)
    ensures b * (c * q2 + r2) == (b * c) * q2 + b * r2
  {
  }

  /** b * r2 + r stays below b * c when r2 < c and r < b. */
  lemma RemainderBound(b: int, c: int, r2: int)
    requires b > 0 && 0 <= r2 < c
    ensures 0 <= b * r2 <= b * c - b
  {
    MulSign(b, r2);
    MulSign(b, c - 1 - r2);
    assert b * (c - 1 - r2) == b * c - b - b * r2;
  }

  // ---------------------------------------------- reading "<int>.<frac>" back

  /** A scaled integer and the number of fractional digits it was written with. */
  datatype Fixed = Fixed(scaled: int, decimals: nat)

  /** The first position of c in s, or |s| when c does not occur. */
  function IndexOf(s: string, c: char): (k: nat)
    ensures k <= |s|
    ensures c !in s[..k]
    ensures k < |s| ==> s[k] == c
  {
    if s == [] then 0
    else if s[0] == c then 0
    else
      var k := 1 + IndexOf(s[1..], c);
      assert s[..k] == [s[0]] + s[1..][..k - 1];
      k
  }

  /**
   * Reads "<whole>.<frac>", both parts plain digits and the whole part not
   * empty, as the integer whole * 10^|frac| + frac together with |frac|.
   * Anything else, a sign included, does not read.
   */
  function ParseFixed(s: string): Option<Fixed>
  {
    var k := IndexOf(s, '.');
    if k == |s| then None
    else
      var whole, frac := s[..k], s[k + 1..];
      if |whole| > 0 && AllDigits(whole) && AllDigits(frac) then
        Some(Fixed(Join(DigitsValue(whole), DigitsValue(frac), |frac|), |frac|))
      else None
  }

  /** The integer that a whole part and an n-digit fractional part denote together. */
  function Join(whole: int, frac: int, n: nat): int {
    whole * Pow10(n) + frac
  }

  lemma IndexOfDigitsThenDot(whole: string, rest: string)
    requires AllDigits(whole)
    ensures IndexOf(whole + ['.'] + rest, '.') == |whole|
    decreases |whole|
  {
    var s := whole + ['.'] + rest;
    if whole != [] {
      assert s[1..] == whole[1..] + ['.'] + rest;
      IndexOfDigitsThenDot(whole[1..], rest);
    }
  }

  /** Writing digits, a point and digits and reading them back is the identity. */
  lemma ParseFixedOf(whole: string, frac: string)
    requires |whole| > 0 && AllDigits(whole) && AllDigits(frac)
    ensures ParseFixed(whole + "." + frac)
         == Some(Fixed(Join(DigitsValue(whole), DigitsValue(frac), |frac|), |frac|))
  {
    var s := whole + "." + frac;
    IndexOfDigitsThenDot(whole, frac);
    var k := IndexOf(s, '.');
    assert k == |whole|;
    assert s[..k] == whole;
    assert s[k + 1..] == frac;
  }

  /** Text that reads back carries no sign. */
  lemma ParsedHasNoSign(s: string)
    ensures ParseFixed(s).Some? ==> '-' !in s
  {
    if ParseFixed(s).Some? {
      var k := IndexOf(s, '.');
      var whole, frac := s[..k], s[k + 1..];
      assert s == whole + ['.'] + frac;
      forall j | 0 <= j < |s| ensures s[j] != '-' {
        if j < k {
          assert s[j] == whole[j];
        } else if j > k {
          assert s[j] == frac[j - k - 1];
        }
      }
    }
  }
}
