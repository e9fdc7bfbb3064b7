/** Decimal conversions between machine integers and text, as Go's strconv
    performs them: `Itoa` writes an integer, `Atoi` reads one back. The poller
    relies on both when it turns the VPN server's session listing into
    connection records (cmd/jupiter/main.go:178-198). */
module Decimal {
  import opened Wrappers

  const MaxUint64: nat := 0xFFFF_FFFF_FFFF_FFFF
  const MaxInt64: int := 0x7FFF_FFFF_FFFF_FFFF
  const MinInt64: int := -0x8000_0000_0000_0000

  predicate IsDigit(c: char) {
    '0' <= c <= '9'
  }

  function DigitValue(c: char): nat
    requires IsDigit(c)
  {
    (c as int - '0' as int) as nat
  }

  function DigitChar(d: nat): (c: char)
    requires d < 10
    ensures IsDigit(c) && DigitValue(c) == d
  {
    (d + '0' as int) as char
  }

  predicate AllDigits(s: string) {
    forall i :: 0 <= i < |s| ==> IsDigit(s[i])
  }

  /** The decimal digits of `n`, most significant first, without leading zeros. */
  function NatToString(n: nat): (s: string)
    ensures |s| > 0 && AllDigits(s)
    decreases n
  {
    if n < 10 then [DigitChar(n)] else NatToString(n / 10) + [DigitChar(n % 10)]
  }

  /** strconv.Itoa: an optional minus sign followed by the digits of |n|. */
  function Itoa(n: int): string {
    if n < 0 then "-" + NatToString(-n) else NatToString(n)
  }

  /** The value of the digit string `s` read from the left onto accumulator `n`. */
  function Accumulate(s: string, n: nat): nat
    requires AllDigits(s)
    decreases |s|
  {
    if |s| == 0 then n else Accumulate(s[1..], n * 10 + DigitValue(s[0]))
  }

  /** The mathematical value of a well-formed decimal: an optional sign, then
      one or more digits. The reference for what a parse should return. */
  function DecimalValue(s: string): Option<int> {
    var neg := |s| > 0 && s[0] == '-';
    var body := if |s| > 0 && (s[0] == '-' || s[0] == '+') then s[1..] else s;
    if |body| > 0 && AllDigits(body) then
      var v: int := Accumulate(body, 0);
      Some(if neg then -v else v)
    else None
  }

  /** The three ways ParseUint's digit loop can end. */
  datatype Scan = Digits(n: nat) | SyntaxError | RangeError

  /** ParseUint's loop for base 10 and 64 bits: a non-digit is a syntax error,
      and the scan stops with a range error at the first digit that would take
      the accumulator past 2^64 - 1. */
  function ScanUint(s: string, n: nat): Scan
    decreases |s|
  {
    if |s| == 0 then Digits(n)
    else if !IsDigit(s[0]) then SyntaxError
    else if n >= MaxUint64 / 10 + 1 then RangeError
    else
      var n1 := n * 10 + DigitValue(s[0]);
      if n1 > MaxUint64 then RangeError else ScanUint(s[1..], n1)
  }

  /** The integer strconv.Atoi returns, whether or not it also reports an
      error: 0 on a syntax error, the nearest 64-bit bound on overflow. The
      poller discards the error, so this value is what it stores. */
  function AtoiValue(s: string): int {
    if |s| == 0 then 0
    else
      var neg := s[0] == '-';
      var body := if s[0] == '-' || s[0] == '+' then s[1..] else s;
      var scan := if |body| == 0 then SyntaxError else ScanUint(body, 0);
      match scan
      case SyntaxError => 0
      case RangeError => if neg then MinInt64 else MaxInt64
      case Digits(u) =>
        var v: int := u;
        if !neg && v > MaxInt64 then MaxInt64
        else if neg && v > -MinInt64 then MinInt64
        else if neg then -v else v
  }

  /** `v` forced into the signed 64-bit range. */
  function Clamp64(v: int): int {
    if v > MaxInt64 then MaxInt64 else if v < MinInt64 then MinInt64 else v
  }

  lemma {:induction false} AccumulateAtLeast(s: string, n: nat)
    requires AllDigits(s)
    ensures Accumulate(s, n) >= n
    decreases |s|
  {
    if |s| > 0 {
      AccumulateAtLeast(s[1..], n * 10 + DigitValue(s[0]));
    }
  }

  /** On a digit string the scan either yields the accumulated value or, when
      that value does not fit 64 unsigned bits, a range error. */
  lemma {:induction false} ScanDigits(s: string, n: nat)
    requires AllDigits(s) && n <= MaxUint64
    ensures ScanUint(s, n) == if Accumulate(s, n) <= MaxUint64 then Digits(Accumulate(s, n)) else RangeError
    decreases |s|
  {
    if |s| > 0 {
      var n1 := n * 10 + DigitValue(s[0]);
      AccumulateAtLeast(s[1..], n1);
      assert Accumulate(s, n) == Accumulate(s[1..], n1);
      if n >= MaxUint64 / 10 + 1 {
        assert ScanUint(s, n) == RangeError;
        assert n * 10 >= (MaxUint64 / 10 + 1) * 10 > MaxUint64;
      } else if n1 > MaxUint64 {
        assert ScanUint(s, n) == RangeError;
      } else {
        assert ScanUint(s, n) == ScanUint(s[1..], n1);
        ScanDigits(s[1..], n1);
      }
    }
  }

  function Pow10(k: nat): nat {
    if k == 0 then 1 else 10 * Pow10(k - 1)
  }

  lemma {:induction false} Pow10Monotone(j: nat, k: nat)
    requires j <= k
    ensures 1 <= Pow10(j) <= Pow10(k)
    decreases k
  {
    if k > 0 && j < k {
      Pow10Monotone(j, k - 1);
    } else if k > 0 {
      Pow10Monotone(j - 1, k - 1);
    }
  }

  lemma {:induction false} Pow10Add(a: nat, b: nat)
    ensures Pow10(a + b) == Pow10(a) * Pow10(b)
    decreases a
  {
    if a > 0 { Pow10Add(a - 1, b); }
  }

  /** One more digit on an accumulator that leaves room for `p` further
      digit places neither overflows nor uses up more than that room. */
  lemma DigitStepFits(n: nat, d: nat, p: nat)
    requires d <= 9 && p >= 1
    requires (n + 1) * 10 * p <= MaxUint64 + 1
    ensures n < MaxUint64 / 10 + 1
    ensures n * 10 + d <= MaxUint64
    ensures (n * 10 + d + 1) * p <= MaxUint64 + 1
  {
    var m := n * 10 + d + 1;
    assert m <= (n + 1) * 10;
    assert m * p <= (n + 1) * 10 * p;
    assert m <= m * p;
    assert (n + 1) * 10 <= (n + 1) * 10 * p;
  }

  /** A scan that meets a non-digit before any digit could overflow reports a
      syntax error: the accumulator `n` followed by |s| digits stays within 64
      bits. */
  lemma {:induction false} ScanMalformed(s: string, n: nat)
    requires !AllDigits(s)
    requires (n + 1) * Pow10(|s|) <= MaxUint64 + 1
    ensures ScanUint(s, n) == SyntaxError
    decreases |s|
  {
    if IsDigit(s[0]) {
      var p := Pow10(|s| - 1);
      Pow10Monotone(0, |s| - 1);
      assert Pow10(|s|) == 10 * p;
      assert (n + 1) * Pow10(|s|) == (n + 1) * 10 * p;
      DigitStepFits(n, DigitValue(s[0]), p);
      assert !AllDigits(s[1..]) by {
        var i :| 0 <= i < |s| && !IsDigit(s[i]);
        assert i > 0;
        assert s[1..][i - 1] == s[i];
      }
      ScanMalformed(s[1..], n * 10 + DigitValue(s[0]));
    }
  }

  lemma {:induction false} AccumulateSnoc(s: string, c: char, n: nat)
    requires AllDigits(s) && IsDigit(c)
    ensures AllDigits(s + [c])
    ensures Accumulate(s + [c], n) == Accumulate(s, n) * 10 + DigitValue(c)
    decreases |s|
  {
    if |s| == 0 {
      assert (s + [c])[1..] == [];
    } else {
      assert (s + [c])[1..] == s[1..] + [c];
      AccumulateSnoc(s[1..], c, n * 10 + DigitValue(s[0]));
    }
  }

  /** Reading back the digits of `n` gives `n`. */
  lemma {:induction false} NatToStringValue(n: nat)
    ensures Accumulate(NatToString(n), 0) == n
    decreases n
  {
    if n >= 10 {
      NatToStringValue(n / 10);
      AccumulateSnoc(NatToString(n / 10), DigitChar(n % 10), 0);
    }
  }

  /** Itoa writes a well-formed decimal whose value is the number written. */
  lemma ItoaIsDecimal(n: int)
    ensures DecimalValue(Itoa(n)) == Some(n)
  {
    var m: nat := if n < 0 then -n else n;
    NatToStringValue(m);
    var digits := NatToString(m);
    assert IsDigit(digits[0]);
    if n < 0 {
      assert Itoa(n)[1..] == digits;
    }
  }

  /** Atoi returns the value of every well-formed decimal, clamped to 64 bits. */
  lemma AtoiWellFormed(s: string)
    requires DecimalValue(s).Some?
    ensures AtoiValue(s) == Clamp64(DecimalValue(s).value)
  {
    var body := if s[0] == '-' || s[0] == '+' then s[1..] else s;
    ScanDigits(body, 0);
  }

  /** Atoi undoes Itoa on every 64-bit integer. */
  lemma AtoiItoa(n: int)
    requires MinInt64 <= n <= MaxInt64
    ensures AtoiValue(Itoa(n)) == n
  {
    ItoaIsDecimal(n);
    AtoiWellFormed(Itoa(n));
  }

  /** Atoi returns 0 for text that is not a well-formed decimal and is too
      short to overflow first (at most 19 characters). */
  lemma AtoiMalformed(s: string)
    requires DecimalValue(s).None?
    requires |s| <= 19
    ensures AtoiValue(s) == 0
  {
    if |s| > 0 {
      var body := if s[0] == '-' || s[0] == '+' then s[1..] else s;
      if |body| > 0 {
        Pow10Monotone(|body|, 19);
        assert Pow10(9) == 1_000_000_000;
        assert Pow10(10) == 10_000_000_000;
        Pow10Add(9, 10);
        ScanMalformed(body, 0);
      }
    }
  }

  /** Itoa never maps two integers to the same text. */
  lemma ItoaInjective(a: int, b: int)
    requires Itoa(a) == Itoa(b)
    ensures a == b
  {
    ItoaIsDecimal(a);
    ItoaIsDecimal(b);
  }
}
