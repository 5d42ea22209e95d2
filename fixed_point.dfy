/**
 * The fixed-point converters of test/utils.js.
 *
 * `toDecimal(bi, decimals)` writes a BigInt scaled by 10^decimals as
 * "<whole>.<fraction>", peeling one base-10 digit per loop pass.
 * `toBigInt(val, decimals)` turns a human value into such a BigInt. Its
 * front end (parseFloat, `val * 1000000` in doubles, BigInt of the printed
 * product) is not modelled: the model starts from the integer m it produces,
 * a count of millionths, and models the loop that appends decimal zeros.
 *
 * A falsy `decimals` (missing, null, 0) becomes 18 in both; the model passes
 * 0 for every falsy value.
 */
module FixedPoint {
  import opened DecimalText

  /** Fractional digits used when `decimals` is falsy. */
  const DefaultDecimals: int := 18

  /** toBigInt keeps six fractional digits of its input (`val * 1000000`). */
  const MicroDigits: nat := 6

  /** `decimals = decimals || 18` */
  function EffectiveDecimals(decimals: int): (d: int)
    ensures d != 0
    ensures decimals != 0 ==> d == decimals
    ensures decimals == 0 ==> d == DefaultDecimals
  {
    if decimals == 0 then DefaultDecimals else decimals
  }

  /** How often `while (d > 0) { ...; --d; }` runs. */
  function Passes(d: int): nat {
    if d > 0 then d else 0
  }

  /** How many fractional digits toDecimal writes for a given `decimals`. */
  function FractionDigits(decimals: int): nat {
    Passes(EffectiveDecimals(decimals))
  }

  // ------------------------------------------------------------- toDecimal

  /** The BigInt left after k loop passes of `bi /= BASE`. */
  function Peel(bi: int, k: nat): int
    decreases k
  {
    if k == 0 then bi else Peel(TruncDiv(bi, 10), k - 1)
  }

  /**
   * The string r after k loop passes: each pass puts
   * `(bi % BASE).toString()` in front of r and divides bi by ten.
   */
  function Chunks(bi: int, k: nat): string
    decreases k
  {
    if k == 0 then "" else Chunks(TruncDiv(bi, 10), k - 1) + IntToString(TruncMod(bi, 10))
  }

  /** `bi.toString() + '.' + r` after k passes. */
  function Render(bi: int, k: nat): string {
    IntToString(Peel(bi, k)) + "." + Chunks(bi, k)
  }

  /** What toDecimal(bi, decimals) returns. */
  function DecimalString(bi: int, decimals: int): string {
    Render(bi, FractionDigits(decimals))
  }

  /**
   * toDecimal. On a non-negative bi the text reads back as bi with
   * FractionDigits(decimals) fractional digits. On a negative bi the text
   * contains '-', so the unsigned reader ParseFixed rejects it; whether it
   * is a correct signed decimal is NegativeDecimalString.
   */
  method ToDecimal(bi: int, decimals: int) returns (s: string)
    ensures s == DecimalString(bi, decimals)
    ensures bi >= 0 ==> ParseFixed(s) == Some(Fixed(bi, FractionDigits(decimals)))
    ensures bi < 0 ==> ParseFixed(s) == None
  {
    var d := EffectiveDecimals(decimals);
    var b := bi;
    var r := "";
    ghost var n := FractionDigits(decimals);
    ghost var k := n;
    while d > 0
      invariant k == Passes(d)
      invariant Peel(b, k) == Peel(bi, n)
      invariant Chunks(b, k) + r == Chunks(bi, n)
    {
      PassStep(b, k, r);
      var c := IntToString(TruncMod(b, 10));
      r := c + r;
      b := TruncDiv(b, 10);
      d := d - 1;
      k := k - 1;
    }
    assert Chunks(b, k) + r == r;
    s := IntToString(b) + "." + r;
    DecimalStringReadsBack(bi, decimals);
  }

  /** One pass of the loop: the digit it takes off is the last chunk. */
  lemma PassStep(b: int, k: nat, r: string)
    requires k > 0
    ensures Peel(b, k) == Peel(TruncDiv(b, 10), k - 1)
    ensures Chunks(b, k) + r == Chunks(TruncDiv(b, 10), k - 1) + (IntToString(TruncMod(b, 10)) + r)
  {
  }

  /**
   * The text of a non-negative bi reads back as bi. That of a negative one
   * contains '-' and so falls outside the unsigned reader.
   */
  lemma DecimalStringReadsBack(bi: int, decimals: int)
    ensures bi >= 0 ==> ParseFixed(DecimalString(bi, decimals)) == Some(Fixed(bi, FractionDigits(decimals)))
    ensures bi < 0 ==> ParseFixed(DecimalString(bi, decimals)) == None
  {
    if bi >= 0 {
      RenderReadsBack(bi, FractionDigits(decimals));
    } else {
      NegativeShowsSign(bi, FractionDigits(decimals));
      ParsedHasNoSign(DecimalString(bi, decimals));
    }
  }

  /** On a non-negative value, k passes of `bi /= BASE` divide by 10^k. */
  lemma {:induction false} PeelIsQuotient(bi: nat, k: nat)
    ensures Peel(bi, k) >= 0
    ensures Peel(bi, k) == bi / Pow10(k)
  {
    if k > 0 {
      PeelIsQuotient(bi / 10, k - 1);
      DivDivMod(bi, 10, Pow10(k - 1));
    }
  }

  /**
   * On a non-negative value the k chunks are k digits, most significant
   * first, that spell bi % 10^k zero-padded: no rounding, no trimming.
   */
  lemma {:induction false} ChunksAreDigits(bi: nat, k: nat)
    ensures |Chunks(bi, k)| == k && AllDigits(Chunks(bi, k))
    ensures DigitsValue(Chunks(bi, k)) == bi % Pow10(k)
  {
    if k > 0 {
      ChunksAreDigits(bi / 10, k - 1);
      DigitsStep(bi, k);
    }
  }

  /** The pass that appends the digit bi % 10 to the digits of bi / 10. */
  lemma DigitsStep(bi: nat, k: nat)
    requires k > 0
    requires |Chunks(bi / 10, k - 1)| == k - 1 && AllDigits(Chunks(bi / 10, k - 1))
    requires DigitsValue(Chunks(bi / 10, k - 1)) == (bi / 10) % Pow10(k - 1)
    ensures |Chunks(bi, k)| == k && AllDigits(Chunks(bi, k))
    ensures DigitsValue(Chunks(bi, k)) == bi % Pow10(k)
  {
    var q, c, p := bi / 10, bi % 10, Pow10(k - 1);
    assert TruncDiv(bi, 10) == q && TruncMod(bi, 10) == c;
    var init, d := Chunks(q, k - 1), DigitChar(c);
    assert IntToString(c) == [d];
    assert Chunks(bi, k) == init + [d];
    DigitsValueAppend(init, d);
    assert DigitsValue(Chunks(bi, k)) == 10 * (q % p) + c;
    DivDivMod(bi, 10, p);
    assert Pow10(k) == 10 * p;
  }

  /** Reading the text back (whole * 10^k + fraction) gives bi exactly. */
  lemma RenderReadsBack(bi: nat, k: nat)
    ensures ParseFixed(Render(bi, k)) == Some(Fixed(bi, k))
  {
    var q := Peel(bi, k);
    var w, f := IntToString(q), Chunks(bi, k);
    PeelIsQuotient(bi, k);
    ChunksAreDigits(bi, k);
    assert q >= 0;
    assert AllDigits(w) && DigitsValue(w) == q;
    ParseFixedOf(w, f);
    JoinDivMod(bi, k);
  }

  lemma JoinDivMod(a: nat, k: nat)
    ensures Join(a / Pow10(k), a % Pow10(k), k) == a
  {
    var p := Pow10(k);
    assert a == p * (a / p) + a % p;
  }

  /** A negative bi always leaves a '-' somewhere in the text. */
  lemma {:induction false} NegativeShowsSign(bi: int, k: nat)
    requires bi < 0
    ensures '-' in Render(bi, k)
    decreases k
  {
    if k == 0 {
      SignInWholePart(bi);
    } else if TruncMod(bi, 10) == 0 {
      NegativeQuotient(bi);
      NegativeShowsSign(TruncDiv(bi, 10), k - 1);
      SignKept(bi, k);
    } else {
      SignInLastChunk(bi, k);
    }
  }

  /** With no passes the text is bi itself, sign included. */
  lemma SignInWholePart(bi: int)
    requires bi < 0
    ensures '-' in Render(bi, 0)
  {
    assert Peel(bi, 0) == bi;
    SignIn(Render(bi, 0), IntToString(bi), "." + Chunks(bi, 0));
  }

  /** A sign already in the text of the quotient survives the pass. */
  lemma SignKept(bi: int, k: nat)
    requires k > 0 && '-' in Render(TruncDiv(bi, 10), k - 1)
    ensures '-' in Render(bi, k)
  {
    RenderStep(bi, k);
    SignIn(Render(bi, k), Render(TruncDiv(bi, 10), k - 1), IntToString(TruncMod(bi, 10)));
  }

  /** A non-zero last digit of a negative bi is printed as a negative chunk. */
  lemma SignInLastChunk(bi: int, k: nat)
    requires k > 0 && bi < 0 && TruncMod(bi, 10) != 0
    ensures '-' in Render(bi, k)
  {
    RenderStep(bi, k);
    assert '-' in IntToString(TruncMod(bi, 10));
    SignIn(Render(bi, k), Render(TruncDiv(bi, 10), k - 1), IntToString(TruncMod(bi, 10)));
  }
  /** A negative bi that is a multiple of ten keeps a negative quotient. */
  lemma NegativeQuotient(bi: int)
    requires bi < 0 && TruncMod(bi, 10) == 0
    ensures TruncDiv(bi, 10) < 0
  {
  }

  /** A sign in either part of a concatenation is a sign in the whole. */
  lemma SignIn(r: string, a: string, b: string)
    requires r == a + b && ('-' in a || '-' in b)
    ensures '-' in r
  {
    if '-' !in a {
      var i :| 0 <= i < |b| && b[i] == '-';
      assert r[|a| + i] == '-';
    }
  }

  /** The text after k passes is the text after k - 1 passes from bi / 10, then the last chunk. */
  lemma RenderStep(bi: int, k: nat)
    requires k > 0
    ensures Render(bi, k) == Render(TruncDiv(bi, 10), k - 1) + IntToString(TruncMod(bi, 10))
  {
    var q, c := TruncDiv(bi, 10), IntToString(TruncMod(bi, 10));
    assert Peel(bi, k) == Peel(q, k - 1);
    assert Chunks(bi, k) == Chunks(q, k - 1) + c;
    var w := IntToString(Peel(q, k - 1)) + ".";
    assert w + (Chunks(q, k - 1) + c) == (w + Chunks(q, k - 1)) + c;
  }

  /**
   * toDecimal on a non-negative bi: the whole part is bi / 10^n in plain
   * digits, then '.', then exactly n digits spelling bi % 10^n, where n is
   * `decimals`, or 18 when `decimals` is 0.
   */
  lemma DecimalStringShape(bi: nat, decimals: int)
    ensures decimals > 0 ==> FractionDigits(decimals) == decimals
    ensures decimals == 0 ==> FractionDigits(decimals) == 18
    ensures var n := FractionDigits(decimals);
      && DecimalString(bi, decimals) == IntToString(bi / Pow10(n)) + "." + Chunks(bi, n)
      && |Chunks(bi, n)| == n && AllDigits(Chunks(bi, n))
      && DigitsValue(Chunks(bi, n)) == bi % Pow10(n)
  {
    var n := FractionDigits(decimals);
    PeelIsQuotient(bi, n);
    ChunksAreDigits(bi, n);
  }

  /** With one fractional digit the text is the quotient, '.', and the remainder. */
  lemma RenderOnePass(bi: int)
    ensures Render(bi, 1) == IntToString(TruncDiv(bi, 10)) + "." + IntToString(TruncMod(bi, 10))
  {
  }

  /**
   * Which negative inputs print as a signed decimal: exactly the multiples
   * of 10^n, where every chunk is "0" and the text is '-' before the text
   * of -bi; any other negative bi leaves a negative chunk after the point.
   */
  lemma NegativeDecimalString(bi: int, decimals: int)
    requires bi < 0
    ensures (-bi) % Pow10(FractionDigits(decimals)) == 0 ==>
              DecimalString(bi, decimals) == "-" + DecimalString(-bi, decimals)
    ensures (-bi) % Pow10(FractionDigits(decimals)) != 0 ==>
              '-' in Chunks(bi, FractionDigits(decimals))
  {
    var n := FractionDigits(decimals);
    if (-bi) % Pow10(n) == 0 {
      NegativeMultipleText(bi, -bi, n);
    } else {
      NegativeFractionSign(bi, n);
    }
  }

  lemma {:induction false} NegativeMultipleText(bi: int, a: int, k: nat)
    requires bi < 0 && a == -bi && a % Pow10(k) == 0
    ensures Render(bi, k) == "-" + Render(a, k)
    decreases k
  {
    if k == 0 {
      NegativeWholeText(bi, a, k);
    } else {
      var q, p := TruncDiv(bi, 10), TruncDiv(a, 10);
      NegativeMultipleFacts(bi, a, q, p, k);
      NegativeMultipleText(q, p, k - 1);
      NegativeMultipleStep(bi, a, q, p, k);
    }
  }

  /** A pass over a negative multiple of 10^k: chunk 0, and a quotient that is a multiple of 10^(k-1). */
  lemma NegativeMultipleFacts(bi: int, a: int, q: int, p: int, k: nat)
    requires k > 0 && bi < 0 && a == -bi && a % Pow10(k) == 0
    requires q == TruncDiv(bi, 10) && p == TruncDiv(a, 10)
    ensures q < 0 && p == -q && p % Pow10(k - 1) == 0
    ensures TruncMod(bi, 10) == 0 && TruncMod(a, 10) == 0
  {
    MultipleStep(a, k);
    NegativeTrunc(bi);
  }

  /** The pass over a multiple of ten on both sides keeps the text signed. */
  lemma NegativeMultipleStep(bi: int, a: int, q: int, p: int, k: nat)
    requires k > 0 && TruncMod(bi, 10) == 0 && TruncDiv(bi, 10) == q
    requires TruncMod(a, 10) == 0 && TruncDiv(a, 10) == p
    requires Render(q, k - 1) == "-" + Render(p, k - 1)
    ensures Render(bi, k) == "-" + Render(a, k)
  {
    MultipleAppendsZero(bi, q, k);
    MultipleAppendsZero(a, p, k);
    SignedStep(Render(bi, k), Render(q, k - 1), Render(p, k - 1), Render(a, k));
  }

  /** With no passes the text of bi < 0 is '-' before the text of -bi. */
  lemma NegativeWholeText(bi: int, a: int, k: nat)
    requires bi < 0 && a == -bi && k == 0
    ensures Render(bi, k) == "-" + Render(a, k)
  {
    assert Peel(bi, 0) == bi && Peel(a, 0) == a;
    var w := NatToString(a);
    assert IntToString(bi) == "-" + w && IntToString(a) == w;
    assert ("-" + w) + "." + "" == "-" + (w + "." + "");
  }

  /** A pass over a multiple of ten appends the chunk "0". */
  lemma MultipleAppendsZero(x: int, y: int, k: nat)
    requires k > 0 && TruncMod(x, 10) == 0 && TruncDiv(x, 10) == y
    ensures Render(x, k) == Render(y, k - 1) + "0"
  {
    RenderStep(x, k);
    assert IntToString(0) == "0";
  }

  /** r = a + "0", a = "-" + b and s = b + "0" give r = "-" + s. */
  lemma SignedStep(r: string, a: string, b: string, s: string)
    requires r == a + "0" && a == "-" + b && s == b + "0"
    ensures r == "-" + s
  {
    assert ("-" + b) + "0" == "-" + (b + "0");
  }

  lemma {:induction false} NegativeFractionSign(bi: int, k: nat)
    requires bi < 0 && (-bi) % Pow10(k) != 0
    ensures '-' in Chunks(bi, k)
    decreases k
  {
    if k > 0 {
      var q, c := TruncDiv(bi, 10), TruncMod(bi, 10);
      MultipleStep(-bi, k);
      NegativeTrunc(bi);
      if c == 0 {
        NegativeFractionSign(q, k - 1);
      }
      SignIn(Chunks(bi, k), Chunks(q, k - 1), IntToString(c));
    }
  }

  /** For a > 0: 10^k divides a exactly when 10 divides a and 10^(k-1) divides a / 10. */
  lemma MultipleStep(a: int, k: nat)
    requires a > 0 && k > 0
    ensures a % Pow10(k) == 0 <==> a % 10 == 0 && (a / 10) % Pow10(k - 1) == 0
    ensures a % 10 == 0 ==> a / 10 > 0
  {
    DivDivMod(a, 10, Pow10(k - 1));
  }

  /** Truncating `/` and `%` on bi < 0 mirror Euclidean ones on -bi. */
  lemma NegativeTrunc(bi: int)
    requires bi < 0
    ensures TruncDiv(bi, 10) == -((-bi) / 10)
    ensures TruncMod(bi, 10) == -((-bi) % 10)
    ensures TruncDiv(-bi, 10) == (-bi) / 10 && TruncMod(-bi, 10) == (-bi) % 10
  {
  }

  /** toDecimal(-10n, 1) is the signed decimal "-1.0". */
  lemma NegativeMultipleExample()
    ensures DecimalString(-10, 1) == "-1.0"
  {
    assert FractionDigits(1) == 1;
    RenderOnePass(-10);
    assert TruncDiv(-10, 10) == -1 && TruncMod(-10, 10) == 0;
    assert IntToString(-1) == "-1" by {
      assert NatToString(1) == "1";
    }
    assert IntToString(0) == "0";
  }

  /** With negative input the BigInt remainders are written with their sign. */
  lemma NegativeInputText()
    ensures DecimalString(-15, 1) == "-1.-5"
    ensures DecimalString(-5, 1) == "0.-5"
  {
    assert FractionDigits(1) == 1;
    RenderOnePass(-15);
    RenderOnePass(-5);
    assert TruncDiv(-15, 10) == -1 && TruncMod(-15, 10) == -5;
    assert TruncDiv(-5, 10) == 0 && TruncMod(-5, 10) == -5;
    assert IntToString(-5) == "-5" by {
      assert NatToString(5) == "5";
    }
    assert IntToString(-1) == "-1" by {
      assert NatToString(1) == "1";
    }
    assert IntToString(0) == "0";
  }

  // -------------------------------------------- toBigInt, the integer stage

  /**
   * What toBigInt returns once `val * 1000000` has become the BigInt m:
   * `decimals` falls back to 18, loses 6, and m gains one decimal zero per
   * remaining unit. Nothing divides when fewer than 6 digits are asked for.
   */
  function ScaleMicros(m: int, decimals: int): int {
    m * Pow10(Passes(EffectiveDecimals(decimals) - MicroDigits))
  }

  /** toBigInt's `while (decimals > 0) { bi *= BASE; --decimals; }`. */
  method ToBigIntScale(m: int, decimals: int) returns (bi: int)
    ensures bi == ScaleMicros(m, decimals)
    ensures EffectiveDecimals(decimals) > MicroDigits ==> bi == m * Pow10(EffectiveDecimals(decimals) - MicroDigits)
    ensures EffectiveDecimals(decimals) <= MicroDigits ==> bi == m
  {
    var d := EffectiveDecimals(decimals) - MicroDigits;
    bi := m;
    while d > 0
      invariant bi * Pow10(Passes(d)) == ScaleMicros(m, decimals)
    {
      assert bi * Pow10(d) == (bi * 10) * Pow10(d - 1);
      bi := bi * 10;
      d := d - 1;
    }
  }

  /** The decimal text of n zeros. */
  function Zeros(n: nat): (z: string)
    ensures |z| == n
  {
    if n == 0 then "" else Zeros(n - 1) + "0"
  }

  /** Scaling by 10^j and taking j more passes leaves the same whole part. */
  lemma {:induction false} ShiftedPeel(m: int, x: int, k: nat, j: nat, n: nat)
    requires x == Shift(m, j) && n == k + j
    ensures Peel(x, n) == Peel(m, k)
    decreases j
  {
    if j > 0 {
      var y := Shift(m, j - 1);
      PeelOnce(x, y, n);
      ShiftedPeel(m, y, k, j - 1, n - 1);
    } else {
      assert x == m && n == k;
    }
  }

  /** ... and the fraction gains exactly j trailing zeros. */
  lemma {:induction false} ShiftedChunks(m: int, x: int, k: nat, j: nat, n: nat)
    requires x == Shift(m, j) && n == k + j
    ensures Chunks(x, n) == Chunks(m, k) + Zeros(j)
    decreases j
  {
    if j > 0 {
      var y := Shift(m, j - 1);
      ShiftedChunks(m, y, k, j - 1, n - 1);
      ChunksStep(x, y, Chunks(m, k), j, n);
    } else {
      assert x == m && n == k;
    }
  }

  /** m with j decimal zeros appended, one `bi *= BASE` at a time. */
  function Shift(m: int, j: nat): int {
    if j == 0 then m else 10 * Shift(m, j - 1)
  }

  lemma {:induction false} ShiftIsProduct(m: int, j: nat)
    ensures Shift(m, j) == m * Pow10(j)
  {
    if j > 0 {
      ShiftIsProduct(m, j - 1);
      assert m * Pow10(j) == 10 * (m * Pow10(j - 1));
    }
  }

  /** One more pass over x = 10 y leaves the quotient of y ... */
  lemma PeelOnce(x: int, y: int, n: nat)
    requires x == 10 * y && n > 0
    ensures Peel(x, n) == Peel(y, n - 1)
  {
    TruncOfMultiple(y);
  }

  /** ... and puts a "0" chunk at the end of the fraction. */
  lemma ChunksOnce(x: int, y: int, n: nat)
    requires x == 10 * y && n > 0
    ensures Chunks(x, n) == Chunks(y, n - 1) + "0"
  {
    TruncOfMultiple(y);
    assert IntToString(0) == "0";
  }

  /** One pass more adds one zero more. */
  lemma ChunksStep(x: int, y: int, c: string, j: nat, n: nat)
    requires x == 10 * y && n > 0 && j > 0
    requires Chunks(y, n - 1) == c + Zeros(j - 1)
    ensures Chunks(x, n) == c + Zeros(j)
  {
    ChunksOnce(x, y, n);
    ZerosSucc(j);
    AppendStep(Chunks(x, n), Chunks(y, n - 1), c, Zeros(j - 1), Zeros(j));
  }

  /** a = b + "0", b = c + z', z = z' + "0": then a = c + z. */
  lemma AppendStep(a: string, b: string, c: string, z': string, z: string)
    requires a == b + "0" && b == c + z' && z == z' + "0"
    ensures a == c + z
  {
    assert (c + z') + "0" == c + (z' + "0");
  }

  lemma ZerosSucc(j: nat)
    requires j > 0
    ensures Zeros(j) == Zeros(j - 1) + "0"
  {
  }

  /**
   * toDecimal(toBigInt(v, d), d) for d >= 6 (or d falsy) and m = v * 1000000:
   * exactly the text of m with six fractional digits, followed by d - 6
   * zeros. toBigInt never carries more than six fractional digits.
   */
  lemma ComposeWithToDecimal(m: int, decimals: int)
    requires EffectiveDecimals(decimals) >= MicroDigits
    ensures DecimalString(ScaleMicros(m, decimals), decimals)
         == DecimalString(m, MicroDigits) + Zeros(FractionDigits(decimals) - MicroDigits)
  {
    ScaleMicrosFromSix(m, decimals);
    ScaledDecimalString(m, ScaleMicros(m, decimals), decimals, MicroDigits, MicroDigits, FractionDigits(decimals) - MicroDigits);
  }

  lemma ScaleMicrosFromSix(m: int, decimals: int)
    requires EffectiveDecimals(decimals) >= MicroDigits
    ensures FractionDigits(MicroDigits) == MicroDigits
    ensures ScaleMicros(m, decimals) == m * Pow10(FractionDigits(decimals) - MicroDigits)
  {
  }

  /**
   * toDecimal of x = m * 10^j at FractionDigits(decimals) = k + j digits,
   * k = FractionDigits(from): the text of m at `from`, then j zeros.
   */
  lemma ScaledDecimalString(m: int, x: int, decimals: int, from: int, k: nat, j: nat)
    requires FractionDigits(from) == k && FractionDigits(decimals) == k + j
    requires x == m * Pow10(j)
    ensures DecimalString(x, decimals) == DecimalString(m, from) + Zeros(j)
  {
    ShiftIsProduct(m, j);
    RenderShifted(m, x, k, j, FractionDigits(decimals));
  }

  lemma RenderShifted(m: int, x: int, k: nat, j: nat, n: nat)
    requires x == Shift(m, j) && n == k + j
    ensures Render(x, n) == Render(m, k) + Zeros(j)
  {
    ShiftedPeel(m, x, k, j, n);
    ShiftedChunks(m, x, k, j, n);
    JoinThenAppend(IntToString(Peel(m, k)), Chunks(m, k), Zeros(j));
  }

  lemma JoinThenAppend(w: string, c: string, z: string)
    ensures w + "." + (c + z) == (w + "." + c) + z
  {
  }

  /**
   * For 1 <= decimals < 6 (or negative) toBigInt does not scale down, so
   * toDecimal prints m / 10^n whole units where m / 10^6 were meant.
   */
  lemma AsWrittenWholeUnits(m: nat, decimals: int)
    requires EffectiveDecimals(decimals) < MicroDigits
    ensures ScaleMicros(m, decimals) == m
    ensures Peel(ScaleMicros(m, decimals), FractionDigits(decimals)) == m / Pow10(FractionDigits(decimals))
  {
    PeelIsQuotient(m, FractionDigits(decimals));
  }

  /** The counterexample: toBigInt(1, 1) is 1000000n, printed "100000.0", not "1.0". */
  lemma ScaleDownMissing()
    ensures ScaleMicros(1000000, 1) == 1000000
    ensures DecimalString(ScaleMicros(1000000, 1), 1) == "100000.0"
    ensures DecimalString(ScaleMicrosIntended(1000000, 1), 1) == "1.0"
  {
    assert ScaleMicros(1000000, 1) == 1000000 by {
      assert Passes(EffectiveDecimals(1) - MicroDigits) == 0;
    }
    assert ScaleMicrosIntended(1000000, 1) == 10 by {
      assert FractionDigits(1) == 1;
      assert Pow10(5) == 100000;
      assert TruncDiv(1000000, 100000) == 10;
    }
    MillionAtOneDigit();
    TenAtOneDigit();
  }

  lemma MillionAtOneDigit()
    ensures DecimalString(1000000, 1) == "100000.0"
  {
    assert FractionDigits(1) == 1;
    RenderOnePass(1000000);
    assert TruncDiv(1000000, 10) == 100000 && TruncMod(1000000, 10) == 0;
    assert IntToString(100000) == "100000" by {
      assert NatToString(10) == "10";
      assert NatToString(100) == "100";
      assert NatToString(1000) == "1000";
      assert NatToString(10000) == "10000";
      assert NatToString(100000) == "100000";
    }
    assert IntToString(0) == "0";
  }

  lemma TenAtOneDigit()
    ensures DecimalString(10, 1) == "1.0"
  {
    assert FractionDigits(1) == 1;
    RenderOnePass(10);
    assert TruncDiv(10, 10) == 1 && TruncMod(10, 10) == 0;
    assert IntToString(1) == "1" && IntToString(0) == "0";
  }

  /**
   * toBigInt as evidently intended for every `decimals`: m millionths
   * rescaled to FractionDigits(decimals) fractional digits, the digits that
   * do not fit dropped (toward zero, as BigInt `/` does).
   */
  function ScaleMicrosIntended(m: int, decimals: int): int {
    var n := FractionDigits(decimals);
    if n >= MicroDigits then m * Pow10(n - MicroDigits) else TruncDiv(m, Pow10(MicroDigits - n))
  }

  /** The intended scaling agrees with the source wherever the source scales up. */
  lemma IntendedAgreesFromSix(m: int, decimals: int)
    requires EffectiveDecimals(decimals) >= MicroDigits
    ensures ScaleMicrosIntended(m, decimals) == ScaleMicros(m, decimals)
  {
  }

  /**
   * With the intended scaling, toDecimal prints m / 10^6 whole units for
   * every `decimals`, and the scaled value is never negative.
   */
  lemma IntendedWholeUnits(m: nat, decimals: int)
    ensures ScaleMicrosIntended(m, decimals) >= 0
    ensures Peel(ScaleMicrosIntended(m, decimals), FractionDigits(decimals)) == m / 1000000
  {
    var n := FractionDigits(decimals);
    if n >= MicroDigits {
      WholeUnitsScaledUp(m, n - MicroDigits);
    } else {
      WholeUnitsScaledDown(m, n);
    }
  }

  lemma WholeUnitsScaledUp(m: nat, j: nat)
    ensures m * Pow10(j) >= 0
    ensures Peel(m * Pow10(j), MicroDigits + j) == m / 1000000
  {
    var x := m * Pow10(j);
    MulSign(Pow10(j), m);
    ShiftIsProduct(m, j);
    ShiftedPeel(m, x, MicroDigits, j, MicroDigits + j);
    PeelMillion(m);
  }

  lemma WholeUnitsScaledDown(m: nat, n: nat)
    requires n < MicroDigits
    ensures TruncDiv(m, Pow10(MicroDigits - n)) >= 0
    ensures Peel(TruncDiv(m, Pow10(MicroDigits - n)), n) == m / 1000000
  {
    var v := TruncDiv(m, Pow10(MicroDigits - n));
    assert v == m / Pow10(MicroDigits - n);
    PeelIsQuotient(v, n);
    RescaleQuotient(m, MicroDigits - n, n);
  }

  /** Six passes of `bi /= BASE` on a non-negative bi divide by a million. */
  lemma PeelMillion(m: nat)
    ensures Peel(m, MicroDigits) == m / 1000000
  {
    PeelIsQuotient(m, MicroDigits);
    assert Pow10(MicroDigits) == 1000000;
  }

  lemma RescaleQuotient(m: nat, a: nat, b: nat)
    requires a + b == MicroDigits
    ensures m / Pow10(a) / Pow10(b) == m / 1000000
  {
    DivDivMod(m, Pow10(a), Pow10(b));
    Pow10Add(a, b);
    assert Pow10(MicroDigits) == 1000000;
  }
}
