/**
 * The two number-syntax parsers the flag overrides use: strconv.ParseBool and
 * strconv.Atoi on a platform whose int is 64 bits wide.
 */
module Strconv {
  import opened Wrappers

  datatype ErrKind = ErrSyntax | ErrRange

  /** strconv.NumError: the function that failed, its input, and why. */
  datatype NumError = NumError(fn: string, num: string, err: ErrKind)

  // ---------------------------------------------------------------- booleans

  predicate TrueSpelling(s: string)
  {
    s == "1" || s == "t" || s == "T" || s == "TRUE" || s == "true" || s == "True"
  }

  predicate FalseSpelling(s: string)
  {
    s == "0" || s == "f" || s == "F" || s == "FALSE" || s == "false" || s == "False"
  }

  /** ParseBool: six spellings of true, six of false, anything else is a syntax error. */
  function ParseBool(s: string): (r: Result<bool, NumError>)
    ensures r == Success(true) <==> TrueSpelling(s)
    ensures r == Success(false) <==> FalseSpelling(s)
    ensures r.Failure? <==> !TrueSpelling(s) && !FalseSpelling(s)
    ensures r.Failure? ==> r.error == NumError("ParseBool", s, ErrSyntax)
  {
    if TrueSpelling(s) then Success(true)
    else if FalseSpelling(s) then Success(false)
    else Failure(NumError("ParseBool", s, ErrSyntax))
  }

  // ---------------------------------------------------------------- integers

  const MaxUint64: int := 0xffff_ffff_ffff_ffff
  const MaxInt64: int := 0x7fff_ffff_ffff_ffff
  const MinInt64: int := -0x8000_0000_0000_0000
  /** The first accumulator that overflows when multiplied by ten. */
  const Cutoff: int := MaxUint64 / 10 + 1

  predicate IsDigit(c: char)
  {
    '0' <= c <= '9'
  }

  function DigitOf(c: char): nat
    requires IsDigit(c)
  {
    c as int - '0' as int
  }

  predicate AllDigits(s: string)
  {
    forall i | 0 <= i < |s| :: IsDigit(s[i])
  }

  function Pow10(n: nat): (r: nat)
    ensures r >= 1
  {
    if n == 0 then 1 else 10 * Pow10(n - 1)
  }

  /** The number a string of decimal digits denotes, the last digit being the least significant. */
  function DecimalValue(s: string): nat
    requires AllDigits(s)
  {
    if s == [] then 0 else DecimalValue(s[..|s| - 1]) * 10 + DigitOf(s[|s| - 1])
  }

  /**
   * The digit loop of ParseUint in base 10, from left to right with accumulator `n`: a
   * non-digit is a syntax error and an accumulator past the 64-bit range a range error,
   * whichever comes first.
   */
  function ScanUint(s: string, n: nat): Result<nat, ErrKind>
  {
    if s == [] then Success(n)
    else if !IsDigit(s[0]) then Failure(ErrSyntax)
    else if n >= Cutoff then Failure(ErrRange)
    else
      var n1 := n * 10 + DigitOf(s[0]);
      if n1 > MaxUint64 then Failure(ErrRange) else ScanUint(s[1..], n1)
  }

  /** Atoi: an optional sign, at least one digit, and a value in the int64 range. */
  function Atoi(s: string): (r: Result<int, NumError>)
    ensures r.Success? ==> MinInt64 <= r.value <= MaxInt64
    ensures r.Failure? ==> r.error.fn == "Atoi" && r.error.num == s
  {
    if s == [] then Failure(NumError("Atoi", s, ErrSyntax))
    else
      var neg := s[0] == '-';
      var digits := if s[0] == '-' || s[0] == '+' then s[1..] else s;
      if digits == [] then Failure(NumError("Atoi", s, ErrSyntax))
      else match ScanUint(digits, 0)
        case Failure(ErrSyntax) => Failure(NumError("Atoi", s, ErrSyntax))
        case Failure(ErrRange) => Failure(NumError("Atoi", s, ErrRange))
        case Success(un) =>
          if !neg && un > MaxInt64 then Failure(NumError("Atoi", s, ErrRange))
          else if neg && un > -MinInt64 then Failure(NumError("Atoi", s, ErrRange))
          else Success(if neg then 0 - un else un)
  }

  /** The text of an integer: a sign, then one or more digits. */
  predicate IntSyntax(s: string)
  {
    |s| > 0 &&
    var digits := if s[0] == '-' || s[0] == '+' then s[1..] else s;
    digits != [] && AllDigits(digits)
  }

  /** The value IntSyntax text denotes. */
  function SignedValue(s: string): int
    requires IntSyntax(s)
  {
    if s[0] == '-' then 0 - DecimalValue(s[1..])
    else if s[0] == '+' then DecimalValue(s[1..])
    else DecimalValue(s)
  }

  lemma {:induction false} DecimalValueCons(c: char, s: string)
    requires IsDigit(c) && AllDigits(s)
    ensures AllDigits([c] + s)
    ensures DecimalValue([c] + s) == DigitOf(c) * Pow10(|s|) + DecimalValue(s)
  {
    assert AllDigits([c] + s);
    if s != [] {
      var t := [c] + s;
      var init := s[..|s| - 1];
      assert t[..|t| - 1] == [c] + init;
      assert t[|t| - 1] == s[|s| - 1];
      DecimalValueCons(c, init);
      var p := Pow10(|init|);
      assert Pow10(|s|) == 10 * p;
      Shift(DigitOf(c), p, DecimalValue(init), DigitOf(s[|s| - 1]));
    } else {
      assert ([c] + s)[..0] == [];
    }
  }

  /**
   * Over a string of digits, the scan fails only when the number it would build leaves the
   * 64-bit range, and otherwise yields that number.
   */
  lemma {:induction false} ScanDigits(s: string, n: nat)
    requires AllDigits(s) && n <= MaxUint64
    ensures var total := n * Pow10(|s|) + DecimalValue(s);
      ScanUint(s, n) == if total <= MaxUint64 then Success(total) else Failure(ErrRange)
  {
    if s != [] {
      var d := DigitOf(s[0]);
      var rest := s[1..];
      assert s == [s[0]] + rest;
      DecimalValueCons(s[0], rest);
      var n1 := n * 10 + d;
      var p := Pow10(|rest|);
      assert Pow10(|s|) == 10 * p;
      Regroup(n, d, p);
      AtLeast(n1, p);
      var total := n * Pow10(|s|) + DecimalValue(s);
      assert total == n1 * p + DecimalValue(rest);
      assert total >= n1;
      if n >= Cutoff {
        assert ScanUint(s, n) == Failure(ErrRange);
        assert Cutoff * 10 > MaxUint64;
      } else if n1 > MaxUint64 {
        assert ScanUint(s, n) == Failure(ErrRange);
      } else {
        assert ScanUint(s, n) == ScanUint(rest, n1);
        ScanDigits(rest, n1);
      }
    }
  }

  lemma Shift(a: nat, p: nat, v: nat, d: nat)
    ensures (a * p + v) * 10 + d == a * (10 * p) + (v * 10 + d)
  {
  }

  lemma Regroup(n: nat, d: nat, p: nat)
    ensures n * (10 * p) + d * p == (n * 10 + d) * p
  {
  }

  lemma AtLeast(a: nat, p: nat)
    requires p >= 1
    ensures a * p >= a
  {
  }

  /** Atoi accepts exactly the integer texts whose value fits in an int64, and yields that value. */
  lemma AtoiCharacterized(s: string)
    ensures Atoi(s).Success? <==> IntSyntax(s) && MinInt64 <= SignedValue(s) <= MaxInt64
    ensures Atoi(s).Success? ==> Atoi(s).value == SignedValue(s)
    ensures IntSyntax(s) && !(MinInt64 <= SignedValue(s) <= MaxInt64) ==> Atoi(s).error.err == ErrRange
  {
    if |s| > 0 {
      var digits := if s[0] == '-' || s[0] == '+' then s[1..] else s;
      if AllDigits(digits) {
        ScanDigits(digits, 0);
      } else {
        var i :| 0 <= i < |digits| && !IsDigit(digits[i]);
        ScanFindsNonDigit(digits, 0, i);
      }
    }
  }

  /** A string that is not all digits never scans to a number. */
  lemma {:induction false} ScanFindsNonDigit(s: string, n: nat, i: nat)
    requires i < |s| && !IsDigit(s[i])
    ensures ScanUint(s, n).Failure?
  {
    if i > 0 && IsDigit(s[0]) && n < Cutoff && n * 10 + DigitOf(s[0]) <= MaxUint64 {
      ScanFindsNonDigit(s[1..], n * 10 + DigitOf(s[0]), i - 1);
    }
  }

  /** The decimal digits of a natural number, without leading zeros. */
  function Decimal(m: nat): (r: string)
    ensures |r| > 0 && AllDigits(r)
    ensures DecimalValue(r) == m
  {
    var c := ('0' as int + m % 10) as char;
    if m < 10 then [c]
    else
      var r := Decimal(m / 10) + [c];
      assert r[..|r| - 1] == Decimal(m / 10);
      r
  }

  /** strconv.Itoa. */
  function Itoa(n: int): string
  {
    if n < 0 then "-" + Decimal(-n) else Decimal(n)
  }

  /** Reading back what Itoa writes gives the number, for every int64. */
  lemma AtoiItoa(n: int)
    requires MinInt64 <= n <= MaxInt64
    ensures Atoi(Itoa(n)) == Success(n)
  {
    var s := Itoa(n);
    if n < 0 {
      assert s[1..] == Decimal(-n);
    }
    assert IntSyntax(s) && SignedValue(s) == n;
    AtoiCharacterized(s);
  }
}
