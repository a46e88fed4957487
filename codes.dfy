/**
 * `genCode6`: a six-digit credit code, the decimal form of a random integer in 100000..999999.
 * The random draw is an input, a real number in [0, 1).
 */
module CodeGenerator {
  import opened StartCommand

  const CodeMin: int := 100000
  const CodeMax: int := 999999

  /** A credit code as the design promises it: `^[1-9][0-9]{5}$`. */
  predicate IsCode6(s: string) {
    && |s| == 6
    && (forall i :: 0 <= i < |s| ==> IsAsciiDigit(s[i]))
    && s[0] != '0'
  }

  /** `Math.floor(100000 + r * 900000)` for a draw `r` of `Math.random()`. */
  function Candidate(r: real): (n: int)
    requires 0.0 <= r < 1.0
    ensures CodeMin <= n <= CodeMax
  {
    (100000.0 + r * 900000.0).Floor
  }

  function DigitChar(d: int): (c: char)
    requires 0 <= d <= 9
    ensures IsAsciiDigit(c) && c as int - '0' as int == d
  {
    (d + '0' as int) as char
  }

  function DigitValue(c: char): int
    requires IsAsciiDigit(c)
  {
    c as int - '0' as int
  }

  /** `Number.prototype.toString()` of a non-negative integer: its decimal digits, most significant first. */
  function Decimal(n: nat): (s: string)
    ensures |s| >= 1 && forall i :: 0 <= i < |s| ==> IsAsciiDigit(s[i])
    decreases n
  {
    if n < 10 then [DigitChar(n)] else Decimal(n / 10) + [DigitChar(n % 10)]
  }

  /** The number a string of decimal digits denotes, the partner of `Decimal`. */
  function DecimalValue(s: string): nat
    requires forall i :: 0 <= i < |s| ==> IsAsciiDigit(s[i])
    decreases |s|
  {
    if s == [] then 0 else DecimalValue(s[..|s| - 1]) * 10 + DigitValue(s[|s| - 1])
  }

  function Pow10(k: nat): (p: nat)
    ensures p >= 1
  {
    if k == 0 then 1 else 10 * Pow10(k - 1)
  }

  /** Reading back the decimal form gives the number. */
  lemma {:induction false} DecimalRoundTrip(n: nat)
    ensures DecimalValue(Decimal(n)) == n
    decreases n
  {
    var s := Decimal(n);
    if n >= 10 {
      DecimalRoundTrip(n / 10);
      assert s[..|s| - 1] == Decimal(n / 10);
    }
  }

  lemma SixDigitPowers()
    ensures Pow10(5) == CodeMin && Pow10(6) == CodeMax + 1
  {
    assert Pow10(1) == 10;
    assert Pow10(2) == 100;
    assert Pow10(3) == 1000;
    assert Pow10(4) == 10000;
  }

  /** A number with k digits is written with exactly k characters. */
  lemma {:induction false} DecimalLength(n: nat, k: nat)
    requires k >= 1 && Pow10(k - 1) <= n < Pow10(k)
    ensures |Decimal(n)| == k
    decreases k
  {
    if n >= 10 {
      assert k >= 2;
      assert Pow10(k - 2) <= n / 10 < Pow10(k - 1);
      DecimalLength(n / 10, k - 1);
    }
  }

  /** A positive number is written without a leading zero. */
  lemma {:induction false} DecimalNoLeadingZero(n: nat)
    requires n >= 1
    ensures Decimal(n)[0] != '0'
    decreases n
  {
    if n >= 10 {
      DecimalNoLeadingZero(n / 10);
    }
  }

  /** `genCode6` with the random draw `r`: always six digits with a non-zero first digit. */
  function GenCode6(r: real): (code: string)
    requires 0.0 <= r < 1.0
    ensures IsCode6(code)
    ensures DecimalValue(code) == Candidate(r)
  {
    var n := Candidate(r);
    SixDigitPowers();
    DecimalLength(n, 6);
    DecimalNoLeadingZero(n);
    DecimalRoundTrip(n);
    Decimal(n)
  }

  /** Every six-digit code is produced by some draw, and two draws give the same code exactly when they give the same candidate. */
  lemma GenCode6Covers(code: string)
    requires IsCode6(code)
    ensures var r := (DecimalValue(code) - CodeMin) as real / 900000.0;
      0.0 <= r < 1.0 && GenCode6(r) == code
  {
    var n := DecimalValue(code);
    Code6Range(code);
    var r := (n - CodeMin) as real / 900000.0;
    assert 100000.0 + r * 900000.0 == n as real;
    assert Candidate(r) == n;
    DigitsDetermineString(code, GenCode6(r));
  }

  lemma GenCode6SameExactly(r1: real, r2: real)
    requires 0.0 <= r1 < 1.0 && 0.0 <= r2 < 1.0
    ensures GenCode6(r1) == GenCode6(r2) <==> Candidate(r1) == Candidate(r2)
  {
    if Candidate(r1) == Candidate(r2) {
      assert GenCode6(r1) == Decimal(Candidate(r1));
    }
  }

  /** A six-digit code denotes a number in 100000..999999. */
  lemma Code6Range(code: string)
    requires IsCode6(code)
    ensures CodeMin <= DecimalValue(code) <= CodeMax
  {
    SixDigitPowers();
    Code6Bounds(code, 6);
  }

  lemma {:induction false} Code6Bounds(s: string, k: nat)
    requires |s| == k >= 1 && (forall i :: 0 <= i < |s| ==> IsAsciiDigit(s[i])) && s[0] != '0'
    ensures Pow10(k - 1) <= DecimalValue(s) < Pow10(k)
    decreases k
  {
    if k > 1 {
      var t := s[..|s| - 1];
      assert t[0] == s[0];
      Code6Bounds(t, k - 1);
    }
  }

  /** Two digit strings of equal length that denote the same number are equal. */
  lemma {:induction false} DigitsDetermineString(s: string, t: string)
    requires |s| == |t|
    requires forall i :: 0 <= i < |s| ==> IsAsciiDigit(s[i])
    requires forall i :: 0 <= i < |t| ==> IsAsciiDigit(t[i])
    requires DecimalValue(s) == DecimalValue(t)
    ensures s == t
    decreases |s|
  {
    if s != [] {
      var s', t' := s[..|s| - 1], t[..|t| - 1];
      assert DecimalValue(s') * 10 + DigitValue(s[|s| - 1]) == DecimalValue(t') * 10 + DigitValue(t[|t| - 1]);
      assert DigitValue(s[|s| - 1]) == DigitValue(t[|t| - 1]);
      DigitsDetermineString(s', t');
      assert s == s' + [s[|s| - 1]];
      assert t == t' + [t[|t| - 1]];
    }
  }
}
