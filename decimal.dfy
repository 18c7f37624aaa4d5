/** Decimal text for integers: Rust's `to_string`/`{}` formatting, `{:0N}` zero padding,
    and the `FromStr` parsers of the fixed-width integer types. */
module Decimal {
  import opened Wrappers
  import opened Text

  const I32_MIN: int := -0x8000_0000
  const I32_MAX: int := 0x7FFF_FFFF
  const I64_MIN: int := -0x8000_0000_0000_0000
  const I64_MAX: int := 0x7FFF_FFFF_FFFF_FFFF
  const U64_MAX: int := 0xFFFF_FFFF_FFFF_FFFF

  function DigitChar(d: nat): (c: char)
    requires d < 10
    ensures IsAsciiDigit(c)
  {
    ('0' as int + d) as char
  }

  function DigitValue(c: char): (d: nat)
    requires IsAsciiDigit(c)
    ensures d < 10 && DigitChar(d) == c
  {
    c as int - '0' as int
  }

  predicate AllDigits(s: string) {
    forall i :: 0 <= i < |s| ==> IsAsciiDigit(s[i])
  }

  /** The value of a string of decimal digits, most significant first. */
  function DigitsValue(s: string): nat
    requires AllDigits(s)
  {
    if s == [] then 0 else DigitsValue(s[..|s| - 1]) * 10 + DigitValue(s[|s| - 1])
  }

  /** The shortest decimal representation of `n` (no leading zero except for 0 itself). */
  function NatToString(n: nat): (s: string)
    ensures |s| >= 1 && AllDigits(s)
    ensures s[0] == '0' ==> n == 0 && s == "0"
  {
    if n < 10 then [DigitChar(n)] else NatToString(n / 10) + [DigitChar(n % 10)]
  }

  /** `n.to_string()` for a signed integer. */
  function IntToString(n: int): (s: string)
    ensures |s| >= 1
  {
    if n < 0 then "-" + NatToString(-n) else NatToString(n)
  }

  lemma {:induction false} NatToStringValue(n: nat)
    ensures DigitsValue(NatToString(n)) == n
  {
    if n >= 10 {
      NatToStringValue(n / 10);
      var s := NatToString(n);
      assert s[..|s| - 1] == NatToString(n / 10);
    }
  }

  /** Leading zeros do not change the value of a digit string. */
  lemma {:induction false} LeadingZeroValue(s: string)
    requires AllDigits(s)
    ensures AllDigits("0" + s) && DigitsValue("0" + s) == DigitsValue(s)
    decreases |s|
  {
    if s != [] {
      LeadingZeroValue(s[..|s| - 1]);
      assert ("0" + s)[..|"0" + s| - 1] == "0" + s[..|s| - 1];
    }
  }

  function Zeros(k: nat): (z: string)
    ensures |z| == k && AllDigits(z)
  {
    if k == 0 then [] else "0" + Zeros(k - 1)
  }

  lemma {:induction false} ZerosValue(k: nat, s: string)
    requires AllDigits(s)
    ensures AllDigits(Zeros(k) + s) && DigitsValue(Zeros(k) + s) == DigitsValue(s)
  {
    if k > 0 {
      ZerosValue(k - 1, s);
      var t := Zeros(k - 1) + s;
      LeadingZeroValue(t);
      assert Zeros(k) == "0" + Zeros(k - 1);
      assert Zeros(k) + s == "0" + t;
    } else {
      assert Zeros(k) + s == s;
    }
  }

  /** Parse of an unsigned digit string with no sign; the empty string fails. */
  function ParseDigits(s: string): (r: Option<nat>)
    ensures r.Some? <==> |s| > 0 && AllDigits(s)
  {
    if |s| > 0 && AllDigits(s) then Some(DigitsValue(s)) else None
  }

  /** `str::parse` for a Rust integer type whose values are `lo..=hi`: an optional `+`,
      or `-` when the type is signed, then at least one ASCII digit; no white space;
      a value outside the type's range fails. */
  function ParseInt(s: string, lo: int, hi: int): (r: Option<int>)
    ensures r.Some? ==> lo <= r.value <= hi
    ensures s == [] ==> r.None?
  {
    if |s| == 0 then None
    else
      var negative := s[0] == '-' && lo < 0;
      var digits := if s[0] == '+' || negative then s[1..] else s;
      match ParseDigits(digits)
      case None => None
      case Some(m) =>
        var mi: int := m;
        var v := if negative then -mi else mi;
        if lo <= v <= hi then Some(v) else None
  }

  function ParseI64(s: string): Option<int> { ParseInt(s, I64_MIN, I64_MAX) }
  function ParseI32(s: string): Option<int> { ParseInt(s, I32_MIN, I32_MAX) }
  function ParseU64(s: string): Option<int> { ParseInt(s, 0, U64_MAX) }

  lemma ParseUnsignedDigits(d: string, lo: int, hi: int)
    requires |d| > 0 && AllDigits(d) && lo <= DigitsValue(d) <= hi
    ensures ParseInt(d, lo, hi) == Some(DigitsValue(d))
  {
    assert d[0] != '-' && d[0] != '+';
  }

  lemma ParseNegativeDigits(d: string, lo: int, hi: int)
    requires |d| > 0 && AllDigits(d) && lo <= -(DigitsValue(d) as int) <= hi && lo < 0
    ensures ParseInt("-" + d, lo, hi) == Some(-(DigitsValue(d) as int))
  {
    assert ("-" + d)[1..] == d;
  }

  /** `n` with its last `j` decimal digits dropped. */
  function DropDigits(n: nat, j: nat): (m: nat)
    ensures m <= n
    ensures j > 0 && n > 0 ==> m < n
  {
    if j == 0 then n else DropDigits(n / 10, j - 1)
  }

  /** Cutting the digits of `n` short leaves the digits of `n` with the rest dropped. */
  lemma {:induction false} NatToStringPrefix(n: nat, j: nat)
    requires j < |NatToString(n)|
    ensures NatToString(n)[..|NatToString(n)| - j] == NatToString(DropDigits(n, j))
  {
    if j > 0 {
      var s := NatToString(n);
      assert n >= 10;
      assert s == NatToString(n / 10) + [DigitChar(n % 10)];
      NatToStringPrefix(n / 10, j - 1);
      assert s[..|s| - j] == NatToString(n / 10)[..|NatToString(n / 10)| - (j - 1)];
    }
  }

  /** The first `k` digits of `n`, `0 < k`, parse as `n` with the rest dropped. */
  lemma DigitsPrefixParses(n: nat, k: nat, lo: int, hi: int)
    requires 0 < k < |NatToString(n)| && lo <= 0 && n <= hi
    ensures ParseInt(NatToString(n)[..k], lo, hi) == Some(DropDigits(n, |NatToString(n)| - k))
  {
    var s := NatToString(n);
    var j := |s| - k;
    var d := DropDigits(n, j);
    NatToStringPrefix(n, j);
    assert s[..k] == NatToString(d);
    NatToStringParses(d, lo, hi);
  }

  /** The first `k` characters of the digits of an `i64` value `n`: nothing does not
      parse, a proper prefix parses as `n` with the rest dropped, all of them as `n`. */
  lemma DigitsCutParse(n: nat, k: nat)
    requires n <= I64_MAX
    ensures var s := NatToString(n);
            var t := if k < |s| then s[..k] else s;
            (k == 0 ==> ParseInt(t, I64_MIN, I64_MAX).None?) &&
            (0 < k < |s| ==> ParseInt(t, I64_MIN, I64_MAX) == Some(DropDigits(n, |s| - k))) &&
            (k >= |s| ==> ParseInt(t, I64_MIN, I64_MAX) == Some(n))
  {
    var s := NatToString(n);
    if k == 0 {
      assert s[..k] == [];
    } else if k < |s| {
      DigitsPrefixParses(n, k, I64_MIN, I64_MAX);
    } else {
      NatToStringParses(n, I64_MIN, I64_MAX);
    }
  }

  lemma NatToStringParses(d: nat, lo: int, hi: int)
    requires lo <= 0 && d <= hi
    ensures ParseInt(NatToString(d), lo, hi) == Some(d)
  {
    NatToStringValue(d);
    ParseUnsignedDigits(NatToString(d), lo, hi);
  }

  /** Formatting then parsing gives the value back, for every value of the type. */
  lemma IntToStringRoundTrip(n: int, lo: int, hi: int)
    requires lo <= n <= hi && lo <= 0
    ensures ParseInt(IntToString(n), lo, hi) == Some(n)
  {
    if n < 0 {
      NatToStringValue(-n);
      ParseNegativeDigits(NatToString(-n), lo, hi);
    } else {
      NatToStringValue(n);
      ParseUnsignedDigits(NatToString(n), lo, hi);
    }
  }

  /** `format!("{:0w}", n)`: the sign, then zeros, then the digits, at least `w` characters. */
  function ZeroPad(n: int, width: nat): (s: string)
    ensures |s| >= width
  {
    if n < 0 then
      var d := NatToString(-n);
      "-" + (Zeros(if width > |d| + 1 then width - 1 - |d| else 0) + d)
    else
      var d := NatToString(n);
      Zeros(if width > |d| then width - |d| else 0) + d
  }

  /** Zero padding keeps the number parseable to the same value. */
  lemma ZeroPadRoundTrip(n: int, width: nat, lo: int, hi: int)
    requires lo <= n <= hi && lo <= 0
    ensures ParseInt(ZeroPad(n, width), lo, hi) == Some(n)
  {
    if n < 0 {
      ZeroPadNegative(-n, width, lo, hi);
    } else {
      ZeroPadNonNegative(n, width, lo, hi);
    }
  }

  lemma ZeroPadNegative(m: nat, width: nat, lo: int, hi: int)
    requires lo <= -(m as int) <= hi && m > 0
    ensures ParseInt(ZeroPad(-(m as int), width), lo, hi) == Some(-(m as int))
  {
    var d := NatToString(m);
    var k := if width > |d| + 1 then width - 1 - |d| else 0;
    NatToStringValue(m);
    ZerosValue(k, d);
    assert ZeroPad(-(m as int), width) == "-" + (Zeros(k) + d);
    ParseNegativeDigits(Zeros(k) + d, lo, hi);
  }

  lemma ZeroPadNonNegative(n: nat, width: nat, lo: int, hi: int)
    requires lo <= n <= hi
    ensures ParseInt(ZeroPad(n, width), lo, hi) == Some(n)
  {
    var d := NatToString(n);
    var k := if width > |d| then width - |d| else 0;
    var t := Zeros(k) + d;
    assert AllDigits(t) && DigitsValue(t) == n by {
      NatToStringValue(n);
      ZerosValue(k, d);
    }
    assert ZeroPad(n, width) == t;
    ParseUnsignedDigits(t, lo, hi);
  }

  /** A value of less than `width` digits is padded to exactly `width` characters. */
  lemma ZeroPadWidth(n: nat, width: nat)
    requires |NatToString(n)| <= width
    ensures |ZeroPad(n, width)| == width
  {
  }

  /** The number of decimal digits of `n`. */
  lemma {:induction false} NatToStringLength(n: nat, k: nat)
    requires n < Pow10(k) && k >= 1
    ensures |NatToString(n)| <= k
  {
    if n >= 10 {
      NatToStringLength(n / 10, k - 1);
    }
  }

  function Pow10(k: nat): (p: nat)
    ensures p >= 1
  {
    if k == 0 then 1 else 10 * Pow10(k - 1)
  }

  // ---------------------------------------------------------------- parse errors

  /** Why `str::parse` of an integer fails, as Rust's `ParseIntError` reports it. */
  datatype IntErrorKind = Empty | InvalidDigit | PosOverflow | NegOverflow

  /** The `Display` text of a `ParseIntError`. */
  function IntErrorMessage(k: IntErrorKind): string {
    match k
    case Empty => "cannot parse integer from empty string"
    case InvalidDigit => "invalid digit found in string"
    case PosOverflow => "number too large to fit in target type"
    case NegOverflow => "number too small to fit in target type"
  }

  /** The digit loop of `from_str_radix`, from the magnitude `acc` on: the first character
      that is not a digit, or the first step whose magnitude passes `bound`, ends it with
      its error. */
  function ScanDigits(ds: string, acc: nat, bound: nat, over: IntErrorKind): (r: Option<IntErrorKind>)
    ensures r.Some? ==> r.value == InvalidDigit || r.value == over
    ensures r.Some? && AllDigits(ds) ==> r.value == over
    decreases |ds|
  {
    if ds == [] then None
    else if !IsAsciiDigit(ds[0]) then Some(InvalidDigit)
    else
      var next := acc * 10 + DigitValue(ds[0]);
      if next > bound then Some(over) else ScanDigits(ds[1..], next, bound, over)
  }

  /** The error of `str::parse` for the integer type `lo..=hi`, or None: an empty text is
      `Empty`, a lone sign an invalid digit, and otherwise the digits after an optional
      `+` (or `-` when the type is signed) are read left to right, a magnitude past the
      type's range being `PosOverflow`, or `NegOverflow` after a `-`. */
  function ParseIntError(s: string, lo: int, hi: int): Option<IntErrorKind>
    requires lo <= 0 <= hi
  {
    if s == [] then Some(Empty)
    else if |s| == 1 && (s[0] == '+' || s[0] == '-') then Some(InvalidDigit)
    else
      var negative := s[0] == '-' && lo < 0;
      var digits := if s[0] == '+' || negative then s[1..] else s;
      if negative then ScanDigits(digits, 0, -lo, NegOverflow) else ScanDigits(digits, 0, hi, PosOverflow)
  }

  /** The error of a failed `i64` parse. */
  function ParseI64Error(s: string): IntErrorKind
    requires ParseI64(s).None?
  {
    ParseIntErrorIff(s, I64_MIN, I64_MAX);
    ParseIntError(s, I64_MIN, I64_MAX).value
  }

  /** The value of the digits `ds` read after the magnitude `acc`, most significant first. */
  function Horner(acc: nat, ds: string): nat
    requires AllDigits(ds)
    decreases |ds|
  {
    if ds == [] then acc else Horner(acc * 10 + DigitValue(ds[0]), ds[1..])
  }

  lemma {:induction false} HornerAtLeast(acc: nat, ds: string)
    requires AllDigits(ds)
    ensures Horner(acc, ds) >= acc
    decreases |ds|
  {
    if ds != [] {
      HornerAtLeast(acc * 10 + DigitValue(ds[0]), ds[1..]);
    }
  }

  lemma {:induction false} HornerSnoc(acc: nat, ds: string, c: char)
    requires AllDigits(ds) && IsAsciiDigit(c)
    ensures AllDigits(ds + [c]) && Horner(acc, ds + [c]) == Horner(acc, ds) * 10 + DigitValue(c)
    decreases |ds|
  {
    if ds == [] {
      assert [] + [c] == [c];
    } else {
      assert (ds + [c])[1..] == ds[1..] + [c];
      HornerSnoc(acc * 10 + DigitValue(ds[0]), ds[1..], c);
    }
  }

  /** Reading left to right gives the digits' value. */
  lemma {:induction false} HornerValue(ds: string)
    requires AllDigits(ds)
    ensures Horner(0, ds) == DigitsValue(ds)
    decreases |ds|
  {
    if ds != [] {
      var front := ds[..|ds| - 1];
      HornerValue(front);
      HornerSnoc(0, front, ds[|ds| - 1]);
      assert front + [ds[|ds| - 1]] == ds;
    }
  }

  /** The loop succeeds exactly when every character is a digit and the magnitude stays
      within the bound. */
  lemma {:induction false} ScanDigitsNone(ds: string, acc: nat, bound: nat, over: IntErrorKind)
    requires acc <= bound
    ensures ScanDigits(ds, acc, bound, over).None? <==> AllDigits(ds) && Horner(acc, ds) <= bound
    decreases |ds|
  {
    if ds != [] && IsAsciiDigit(ds[0]) {
      var next := acc * 10 + DigitValue(ds[0]);
      assert AllDigits(ds) <==> AllDigits(ds[1..]);
      if next > bound {
        if AllDigits(ds) {
          HornerAtLeast(next, ds[1..]);
        }
      } else {
        ScanDigitsNone(ds[1..], next, bound, over);
      }
    } else if ds != [] {
      assert !AllDigits(ds);
    }
  }

  /** `ParseIntError` names an error exactly when `ParseInt` fails. */
  lemma ParseIntErrorIff(s: string, lo: int, hi: int)
    requires lo <= 0 <= hi
    ensures ParseIntError(s, lo, hi).None? <==> ParseInt(s, lo, hi).Some?
  {
    if s != [] && !(|s| == 1 && (s[0] == '+' || s[0] == '-')) {
      var negative := s[0] == '-' && lo < 0;
      var digits := if s[0] == '+' || negative then s[1..] else s;
      assert |digits| > 0;
      if negative {
        ScanDigitsNone(digits, 0, -lo, NegOverflow);
      } else {
        ScanDigitsNone(digits, 0, hi, PosOverflow);
      }
      if AllDigits(digits) {
        HornerValue(digits);
      }
    }
  }

  /** A text that is no number is an invalid digit, and a number past the `i64` range
      overflows on the side of its sign. */
  lemma ParseIntErrorOfNumbers(n: nat)
    ensures ParseIntError("x", I64_MIN, I64_MAX) == Some(InvalidDigit)
    ensures ParseIntError("-", I64_MIN, I64_MAX) == Some(InvalidDigit)
    ensures n > I64_MAX ==> ParseIntError(NatToString(n), I64_MIN, I64_MAX) == Some(PosOverflow)
    ensures n > -I64_MIN ==> ParseIntError("-" + NatToString(n), I64_MIN, I64_MAX) == Some(NegOverflow)
  {
    var d := NatToString(n);
    NatToStringValue(n);
    HornerValue(d);
    if n > I64_MAX {
      ScanDigitsNone(d, 0, I64_MAX, PosOverflow);
    }
    if n > -I64_MIN {
      assert ("-" + d)[1..] == d;
      ScanDigitsNone(d, 0, -I64_MIN, NegOverflow);
    }
  }
}
