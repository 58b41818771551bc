/**
 * `strconv.Atoi` on a 64-bit platform, the conversion the header parser
 * applies to the size text, together with a decimal formatter that is its
 * partner (the size a writer puts in a header).
 *
 * Atoi accepts an optional `+` or `-` sign followed by one or more decimal
 * digits whose value fits in a signed 64-bit integer. Its errors are those
 * of `strconv.ParseInt`: the digits are read left to right, a non-digit
 * stops with ErrSyntax, and an accumulated value above 2^64-1 stops with
 * ErrRange; an unsigned value that does not fit the signed range is ErrRange.
 */
module Strconv {
  import opened Wrappers

  const MaxUint64: int := 0xFFFF_FFFF_FFFF_FFFF
  const MaxInt64: int := 0x7FFF_FFFF_FFFF_FFFF
  const MinInt64: int := -0x8000_0000_0000_0000

  /** The `Err` field of a `*strconv.NumError`. */
  datatype NumErr = ErrSyntax | ErrRange

  predicate IsDigit(c: char) { '0' <= c <= '9' }

  function DigitValue(c: char): nat
    requires IsDigit(c)
  {
    c as int - '0' as int
  }

  predicate AllDigits(s: string) { forall i | 0 <= i < |s| :: IsDigit(s[i]) }

  function Pow10(k: nat): (p: nat)
    ensures p >= 1
  {
    if k == 0 then 1 else 10 * Pow10(k - 1)
  }

  /** The value of a string of decimal digits, most significant first. */
  function DecimalValue(s: string): nat
    requires AllDigits(s)
  {
    if s == [] then 0 else DigitValue(s[0]) * Pow10(|s| - 1) + DecimalValue(s[1..])
  }

  /** The text Atoi is meant to accept: an optional sign, then at least one digit. */
  predicate IsInteger(s: string)
  {
    && |s| >= 1
    && var digits := if s[0] == '+' || s[0] == '-' then s[1..] else s;
    && |digits| >= 1 && AllDigits(digits)
  }

  /** The mathematical value of an integer text. */
  function IntegerValue(s: string): int
    requires IsInteger(s)
  {
    if s[0] == '-' then -(DecimalValue(s[1..]) as int)
    else if s[0] == '+' then DecimalValue(s[1..])
    else DecimalValue(s)
  }

  /** The digit loop of `strconv.ParseUint` (base 10, 64 bits), with `acc` the value read so far. */
  function ScanDigits(s: string, acc: nat): Result<nat, NumErr>
    decreases |s|
  {
    if s == [] then Ok(acc)
    else if !IsDigit(s[0]) then Err(ErrSyntax)
    else if acc * 10 + DigitValue(s[0]) > MaxUint64 then Err(ErrRange)
    else ScanDigits(s[1..], acc * 10 + DigitValue(s[0]))
  }

  /** `strconv.Atoi(s)`. */
  function Atoi(s: string): (r: Result<int, NumErr>)
    ensures r.Ok? ==> MinInt64 <= r.value <= MaxInt64
  {
    if s == [] then Err(ErrSyntax)
    else
      var neg := s[0] == '-';
      var digits := if s[0] == '+' || s[0] == '-' then s[1..] else s;
      if digits == [] then Err(ErrSyntax)
      else match ScanDigits(digits, 0)
        case Err(e) => Err(e)
        case Ok(u) =>
          if !neg && u > MaxInt64 then Err(ErrRange)
          else if neg && u > -MinInt64 then Err(ErrRange)
          else Ok(if neg then -(u as int) else u)
  }

  lemma PowerStep(a: nat, d: nat, p: nat)
    ensures (a * 10 + d) * p == a * (10 * p) + d * p
    ensures p >= 1 ==> (a * 10 + d) * p >= a * 10 + d
  {
  }

  /** On digits, the scan computes acc * 10^|s| + value(s), or ErrRange once that exceeds 2^64-1. */
  lemma {:induction false} ScanDigitsValue(s: string, acc: nat)
    requires AllDigits(s) && acc <= MaxUint64
    ensures var v := acc * Pow10(|s|) + DecimalValue(s);
            ScanDigits(s, acc) == if v <= MaxUint64 then Ok(v) else Err(ErrRange)
  {
    if s != [] {
      var n := acc * 10 + DigitValue(s[0]);
      var p := Pow10(|s| - 1);
      PowerStep(acc, DigitValue(s[0]), p);
      assert acc * Pow10(|s|) + DecimalValue(s) == n * p + DecimalValue(s[1..]);
      if n <= MaxUint64 {
        ScanDigitsValue(s[1..], n);
      }
    }
  }

  /** The scan fails on any string that has a non-digit. */
  lemma {:induction false} ScanDigitsNonDigit(s: string, acc: nat)
    requires !AllDigits(s)
    ensures ScanDigits(s, acc).Err?
  {
    if IsDigit(s[0]) && acc * 10 + DigitValue(s[0]) <= MaxUint64 {
      assert !AllDigits(s[1..]) by {
        var i :| 0 <= i < |s| && !IsDigit(s[i]);
        assert s[1..][i - 1] == s[i];
      }
      ScanDigitsNonDigit(s[1..], acc * 10 + DigitValue(s[0]));
    }
  }

  /** Atoi succeeds exactly on integer texts whose value is a signed 64-bit integer, and returns that value. */
  lemma AtoiSpec(s: string)
    ensures Atoi(s).Ok? <==> IsInteger(s) && MinInt64 <= IntegerValue(s) <= MaxInt64
    ensures Atoi(s).Ok? ==> Atoi(s).value == IntegerValue(s)
  {
    if s != [] {
      var digits := if s[0] == '+' || s[0] == '-' then s[1..] else s;
      if digits != [] {
        if AllDigits(digits) {
          ScanDigitsValue(digits, 0);
        } else {
          ScanDigitsNonDigit(digits, 0);
        }
      }
    }
  }

  /** While fewer than 20 digits have been read the accumulated value stays below 10^19 <= 2^64-1. */
  lemma {:induction false} ScanDigitsShort(s: string, acc: nat, k: nat)
    requires acc < Pow10(k) && k + |s| <= 19
    ensures ScanDigits(s, acc) != Err(ErrRange)
    ensures ScanDigits(s, acc).Ok? ==> ScanDigits(s, acc).value < Pow10(k + |s|)
  {
    if s != [] && IsDigit(s[0]) {
      var n := acc * 10 + DigitValue(s[0]);
      assert n < Pow10(k + 1);
      Pow10Monotone(k + 1, 19);
      assert Pow10(19) <= MaxUint64 by { Pow10Nineteen(); }
      ScanDigitsShort(s[1..], n, k + 1);
    }
  }

  lemma {:induction false} Pow10Monotone(a: nat, b: nat)
    requires a <= b
    ensures Pow10(a) <= Pow10(b)
    decreases b - a
  {
    if a < b {
      Pow10Monotone(a, b - 1);
    }
  }

  lemma {:induction false} Pow10Add(a: nat, b: nat)
    ensures Pow10(a + b) == Pow10(a) * Pow10(b)
  {
    if b > 0 {
      Pow10Add(a, b - 1);
      assert Pow10(a) * (10 * Pow10(b - 1)) == 10 * (Pow10(a) * Pow10(b - 1));
    }
  }

  lemma Pow10Nineteen()
    ensures Pow10(18) == 1_000_000_000_000_000_000
    ensures Pow10(19) == 10_000_000_000_000_000_000
  {
    assert Pow10(6) == 1_000_000;
    Pow10Add(6, 6);
    Pow10Add(12, 6);
  }

  /**
   * `strconv.Atoi` takes a separate fast path for 1 to 18 characters that can
   * only report ErrSyntax; the general path modelled here agrees with it,
   * because such short texts never produce ErrRange.
   */
  lemma ShortNeverRange(s: string)
    requires |s| < 19
    ensures Atoi(s) != Err(ErrRange)
  {
    if s != [] {
      var digits := if s[0] == '+' || s[0] == '-' then s[1..] else s;
      if digits != [] {
        ScanDigitsShort(digits, 0, 0);
        Pow10Monotone(|digits|, 18);
        Pow10Nineteen();
      }
    }
  }

  function DigitChar(d: nat): (c: char)
    requires d < 10
    ensures IsDigit(c) && DigitValue(c) == d
  {
    ('0' as int + d) as char
  }

  /** The shortest decimal text of `n` (as `strconv.Itoa` writes a non-negative size). */
  function Digits(n: nat): (s: string)
    ensures |s| >= 1 && AllDigits(s)
  {
    if n < 10 then [DigitChar(n)] else Digits(n / 10) + [DigitChar(n % 10)]
  }

  /** `strconv.Itoa(n)`. */
  function Itoa(n: int): string
  {
    if n < 0 then "-" + Digits(-n) else Digits(n)
  }

  /** Itoa writes only digits, after a leading '-' for a negative number. */
  lemma ItoaChars(n: int)
    ensures forall i | 0 <= i < |Itoa(n)| :: IsDigit(Itoa(n)[i]) || (i == 0 && n < 0 && Itoa(n)[i] == '-')
  {
    if n < 0 {
      var s := Itoa(n);
      assert forall i | 1 <= i < |s| :: s[i] == Digits(-n)[i - 1];
    }
  }

  lemma ShiftDigit(d0: int, p: int, v: int, d: int)
    ensures d0 * (10 * p) + (v * 10 + d) == (d0 * p + v) * 10 + d
  {
  }

  lemma {:induction false} DecimalValueSnoc(s: string, c: char)
    requires AllDigits(s) && IsDigit(c)
    ensures AllDigits(s + [c])
    ensures DecimalValue(s + [c]) == DecimalValue(s) * 10 + DigitValue(c)
  {
    var t := s + [c];
    assert AllDigits(t) by {
      forall i | 0 <= i < |t| ensures IsDigit(t[i]) {
        if i < |s| { assert t[i] == s[i]; }
      }
    }
    if s != [] {
      var s1 := s[1..];
      assert t[0] == s[0] && t[1..] == s1 + [c];
      DecimalValueSnoc(s1, c);
      var d0, p := DigitValue(s[0]), Pow10(|s1|);
      assert DecimalValue(t) == d0 * (10 * p) + DecimalValue(s1 + [c]);
      assert DecimalValue(s) == d0 * p + DecimalValue(s1);
      ShiftDigit(d0, p, DecimalValue(s1), DigitValue(c));
    }
  }

  lemma {:induction false} DigitsValue(n: nat)
    ensures DecimalValue(Digits(n)) == n
  {
    if n >= 10 {
      DigitsValue(n / 10);
      DecimalValueSnoc(Digits(n / 10), DigitChar(n % 10));
    }
  }

  /** Atoi reads back what Itoa writes, for every signed 64-bit integer. */
  lemma AtoiItoa(n: int)
    requires MinInt64 <= n <= MaxInt64
    ensures Atoi(Itoa(n)) == Ok(n)
  {
    var s := Itoa(n);
    if n < 0 {
      DigitsValue(-n);
      assert s[1..] == Digits(-n);
    } else {
      DigitsValue(n);
    }
    assert IsInteger(s);
    AtoiSpec(s);
  }
}
