/** Positional numerals, decimal text, and the integer parsers of C
    (`strtol`, `strtoul`, `strtoull`), JavaScript (`parseInt`) and Python
    (`int`), with the machine-width conversions the C code applies to their
    results. */
module Numerals {
  import opened Wrappers
  import opened Text

  function Pow(k: nat, e: nat): (r: nat)
    ensures k >= 1 ==> r >= 1
  {
    if e == 0 then 1 else k * Pow(k, e - 1)
  }

  lemma {:induction false} PowMonotone(k: nat, a: nat, b: nat)
    requires k >= 1 && a <= b
    ensures Pow(k, a) <= Pow(k, b)
    decreases b
  {
    if a < b {
      PowMonotone(k, a, b - 1);
      var q := Pow(k, b - 1);
      assert Pow(k, b) == k * q;
      MulMonotone(1, k, q);
    }
  }

  /** The base-`k` digits of `n`, most significant first, without leading
      zeros; zero has the single digit 0. */
  function ToDigits(n: nat, k: nat): (r: seq<nat>)
    requires k >= 2
    ensures |r| >= 1
    ensures forall i :: 0 <= i < |r| ==> r[i] < k
    ensures n > 0 ==> r[0] != 0
    ensures n == 0 ==> r == [0]
    decreases n
  {
    if n < k then [n]
    else
      QuotientFacts(n, k);
      var h := ToDigits(n / k, k);
      assert (h + [n % k])[0] == h[0];
      h + [n % k]
  }

  /** Dividing a number of at least two digits leaves a smaller, non-zero
      quotient. */
  lemma QuotientFacts(n: nat, k: nat)
    requires k >= 2 && n >= k
    ensures 1 <= n / k < n
  {
    DivMod(n, k);
  }

  /** The value of a digit sequence read most significant first. Digits may
      be any integers, as in `labelToInt`, where a character missing from
      the alphabet counts as -1. */
  function FromDigits(ds: seq<int>, k: int): int
  {
    if |ds| == 0 then 0 else FromDigits(ds[..|ds| - 1], k) * k + ds[|ds| - 1]
  }

  lemma FromDigitsSnoc(xs: seq<int>, d: int, k: int)
    ensures FromDigits(xs + [d], k) == FromDigits(xs, k) * k + d
  {
    assert (xs + [d])[..|xs|] == xs;
  }

  lemma DivMod(n: nat, k: nat)
    requires k >= 2
    ensures n == (n / k) * k + n % k
    ensures n >= 1 ==> n / k < n
  {
    var q, r := n / k, n % k;
    assert n == q * k + r;
    MulAtLeastTwice(q, k);
  }

  lemma MulAtLeastTwice(q: nat, k: nat)
    requires k >= 2
    ensures q * k >= q * 2
  {
    assert q * k == q * 2 + q * (k - 2);
  }

  lemma {:induction false} FromToDigits(n: nat, k: nat)
    requires k >= 2
    ensures FromDigits(ToDigits(n, k), k) == n
    decreases n
  {
    if n >= k {
      var q, d := n / k, n % k;
      var xs := ToDigits(q, k);
      assert ToDigits(n, k) == xs + [d];
      DivMod(n, k);
      FromToDigits(q, k);
      assert FromDigits(xs, k) == q;
      FromDigitsSnoc(xs, d, k);
      assert FromDigits(xs + [d], k) == q * k + d;
      DivMod(n, k);
    }
  }

  /** Digits below `k` with no leading zero are exactly what `ToDigits`
      produces, so the digit form of a number is unique. */
  lemma DivModOf(m: nat, d: nat, k: nat)
    requires k >= 2 && d < k
    ensures (m * k + d) / k == m && (m * k + d) % k == d
  {
    var n := m * k + d;
    DivMod(n, k);
    var q, r := n / k, n % k;
    assert (m - q) * k == r - d;
    if m - q >= 1 {
      MulMonotone(1, m - q, k);
    } else if m - q <= -1 {
      MulMonotone(m - q, -1, k);
    }
  }

  lemma MulMonotone(a: int, b: int, k: nat)
    requires a <= b
    ensures a * k <= b * k
  {
  }

  lemma {:induction false} ToFromDigits(ds: seq<nat>, k: nat)
    requires k >= 2 && |ds| >= 1
    requires forall i :: 0 <= i < |ds| ==> ds[i] < k
    requires |ds| > 1 ==> ds[0] != 0
    ensures FromDigits(ds, k) >= 0
    ensures ToDigits(FromDigits(ds, k) as nat, k) == ds
    decreases |ds|
  {
    if |ds| == 1 {
      assert ds[..0] == [];
    } else {
      var init, d := ds[..|ds| - 1], ds[|ds| - 1];
      assert ds == init + [d];
      assert ToDigits(FromDigits(init, k) as nat, k) == init && FromDigits(init, k) >= 1 by {
        ToFromDigits(init, k);
        FromDigitsPositive(init, k);
      }
      ToFromSnoc(init, d, k);
    }
  }

  /** One more digit after the digits of a positive number. */
  lemma ToFromSnoc(init: seq<nat>, d: nat, k: nat)
    requires k >= 2 && d < k && FromDigits(init, k) >= 1
    requires ToDigits(FromDigits(init, k) as nat, k) == init
    ensures FromDigits(init + [d], k) >= 0
    ensures ToDigits(FromDigits(init + [d], k) as nat, k) == init + [d]
  {
    var m: nat := FromDigits(init, k);
    var n: nat := m * k + d;
    assert FromDigits(init + [d], k) == n by {
      FromDigitsSnoc(init, d, k);
    }
    assert n >= k && n / k == m && n % k == d by {
      MulMonotone(1, m, k);
      DivModOf(m, d, k);
    }
    assert ToDigits(n, k) == ToDigits(m, k) + [d];
  }

  lemma {:induction false} FromDigitsPositive(ds: seq<nat>, k: nat)
    requires k >= 2 && |ds| >= 1
    requires forall i :: 0 <= i < |ds| ==> ds[i] < k
    requires ds[0] != 0
    ensures FromDigits(ds, k) >= Pow(k, |ds| - 1)
    decreases |ds|
  {
    if |ds| == 1 {
      assert ds[..0] == [];
    } else {
      var init := ds[..|ds| - 1];
      FromDigitsPositive(init, k);
      MulMonotone(Pow(k, |ds| - 2), FromDigits(init, k), k);
    }
  }

  /** `n` is below `k` raised to its digit count. */
  lemma {:induction false} DigitCountUpper(n: nat, k: nat)
    requires k >= 2
    ensures n < Pow(k, |ToDigits(n, k)|)
    decreases n
  {
    if n < k {
      assert Pow(k, 1) == k * Pow(k, 0);
    } else {
      var q := n / k;
      DivMod(n, k);
      DigitCountUpper(q, k);
      var L := |ToDigits(q, k)|;
      assert |ToDigits(n, k)| == L + 1;
      UpperStep(n, q, n % k, k, Pow(k, L));
      assert Pow(k, L + 1) == k * Pow(k, L);
    }
  }

  lemma UpperStep(n: int, q: int, d: int, k: nat, p: int)
    requires n == q * k + d && d < k && q + 1 <= p
    ensures n < k * p
  {
    assert (q + 1) * k == q * k + k;
    MulMonotone(q + 1, p, k);
  }

  /** A positive `n` is at least `k` raised to one less than its digit
      count, so no shorter numeral can represent it. */
  lemma {:induction false} DigitCountLower(n: nat, k: nat)
    requires k >= 2 && n > 0
    ensures Pow(k, |ToDigits(n, k)| - 1) <= n
    decreases n
  {
    if n >= k {
      var q := n / k;
      DivMod(n, k);
      MulMonotone(1, q, k);
      DigitCountLower(q, k);
      var L := |ToDigits(q, k)|;
      assert |ToDigits(n, k)| == L + 1;
      MulMonotone(Pow(k, L - 1), q, k);
      assert Pow(k, L) == k * Pow(k, L - 1);
    }
  }

  /** The digit count is the least `L >= 1` with `n < k^L`. */
  lemma DigitCountIsLeast(n: nat, k: nat, L: nat)
    requires k >= 2 && L >= 1 && n < Pow(k, L)
    ensures |ToDigits(n, k)| <= L
  {
    if n > 0 && |ToDigits(n, k)| > L {
      DigitCountLower(n, k);
      PowMonotone(k, L, |ToDigits(n, k)| - 1);
    }
  }

  function DigitChar(d: nat): char
    requires d < 10
  {
    ('0' as int + d) as char
  }

  function DigitValue(c: char): nat
    requires IsAsciiDigit(c)
  {
    c as int - '0' as int
  }

  predicate AllDigits(s: string) {
    forall i :: 0 <= i < |s| ==> IsAsciiDigit(s[i])
  }

  /** `%d`/`%u`/`%llu` of a natural number: decimal without leading zeros. */
  function NatToDecimal(n: nat): (r: string)
    ensures |r| >= 1 && AllDigits(r)
    ensures |r| == |ToDigits(n, 10)|
    ensures |r| > 1 ==> r[0] != '0'
  {
    var ds := ToDigits(n, 10);
    seq(|ds|, i requires 0 <= i < |ds| => DigitChar(ds[i]))
  }

  /** The value of a string of decimal digits. */
  function DecimalValue(s: string): (r: nat)
    requires AllDigits(s)
  {
    if |s| == 0 then 0 else DecimalValue(s[..|s| - 1]) * 10 + DigitValue(s[|s| - 1])
  }

  function DigitsOf(s: string): (r: seq<nat>)
    requires AllDigits(s)
    ensures |r| == |s|
    ensures forall i :: 0 <= i < |r| ==> r[i] < 10
  {
    seq(|s|, i requires 0 <= i < |s| => DigitValue(s[i]))
  }

  lemma {:induction false} DecimalValueIsFromDigits(s: string)
    requires AllDigits(s)
    ensures DecimalValue(s) == FromDigits(DigitsOf(s), 10)
    decreases |s|
  {
    if |s| > 0 {
      DecimalValueIsFromDigits(s[..|s| - 1]);
      assert DigitsOf(s)[..|s| - 1] == DigitsOf(s[..|s| - 1]);
    }
  }

  /** Printing a number in decimal and reading it back gives the number. */
  lemma DecimalRoundTrip(n: nat)
    ensures DecimalValue(NatToDecimal(n)) == n
  {
    var s := NatToDecimal(n);
    DecimalValueIsFromDigits(s);
    assert DigitsOf(s) == ToDigits(n, 10);
    FromToDigits(n, 10);
  }

  /** A canonical decimal string is the printed form of its value. */
  lemma DecimalCanonical(s: string)
    requires |s| >= 1 && AllDigits(s) && (|s| > 1 ==> s[0] != '0')
    ensures NatToDecimal(DecimalValue(s)) == s
  {
    DecimalValueIsFromDigits(s);
    var ds := DigitsOf(s);
    assert |ds| > 1 ==> ds[0] != 0;
    ToFromDigits(ds, 10);
    assert ToDigits(DecimalValue(s), 10) == ds;
    DecimalOfDigits(s, ds);
  }

  /** The characters of the digits of a decimal string are the string. */
  lemma DecimalOfDigits(s: string, ds: seq<nat>)
    requires AllDigits(s) && ds == DigitsOf(s)
    ensures seq(|ds|, i requires 0 <= i < |ds| => DigitChar(ds[i])) == s
  {
    var r := seq(|ds|, i requires 0 <= i < |ds| => DigitChar(ds[i]));
    forall i | 0 <= i < |s| ensures r[i] == s[i] {
      assert ds[i] == DigitValue(s[i]);
    }
  }

  /** Different numbers print differently. */
  lemma NatToDecimalInjective(a: nat, b: nat)
    requires NatToDecimal(a) == NatToDecimal(b)
    ensures a == b
  {
    DecimalRoundTrip(a);
    DecimalRoundTrip(b);
  }

  /** Decimal numerals zero-padded to a common width differ for different
      numbers. */
  lemma PaddedDecimalInjective(i: nat, j: nat, w: nat)
    requires PadLeft(NatToDecimal(i), '0', w) == PadLeft(NatToDecimal(j), '0', w)
    ensures i == j
  {
    var a, b := NatToDecimal(i), NatToDecimal(j);
    var pa, pb := PadLeft(a, '0', w), PadLeft(b, '0', w);
    if |a| == |b| {
      assert a == pa[|pa| - |a|..] && b == pb[|pb| - |b|..];
      NatToDecimalInjective(i, j);
    } else if |a| < |b| {
      PadDifferent(a, b, w);
    } else {
      PadDifferent(b, a, w);
    }
  }

  lemma PadDifferent(a: string, b: string, w: nat)
    requires |a| < |b| && b[0] != '0'
    ensures PadLeft(a, '0', w) != PadLeft(b, '0', w)
  {
    var pa, pb := PadLeft(a, '0', w), PadLeft(b, '0', w);
    if |pa| == |pb| {
      var k := |pb| - |b|;
      assert pb[k] == b[0];
      assert pa[k] == '0';
    }
  }

  /** `%d` of a signed integer. */
  function IntToDecimal(i: int): (r: string)
    ensures i >= 0 ==> r == NatToDecimal(i)
    ensures i < 0 ==> r == "-" + NatToDecimal(-i)
  {
    if i < 0 then "-" + NatToDecimal(-i) else NatToDecimal(i)
  }

  /** A digit of `%x`: '0' to '9' and 'a' to 'f'. */
  predicate IsHexDigit(c: char) {
    IsAsciiDigit(c) || 'a' <= c <= 'f'
  }

  predicate AllHex(s: string) {
    forall i :: 0 <= i < |s| ==> IsHexDigit(s[i])
  }

  function HexDigitChar(d: nat): (r: char)
    requires d < 16
    ensures IsHexDigit(r)
  {
    if d < 10 then DigitChar(d) else ('a' as int + d - 10) as char
  }

  function HexDigitValue(c: char): (r: nat)
    requires IsHexDigit(c)
    ensures r < 16
    ensures HexDigitChar(r) == c
  {
    if IsAsciiDigit(c) then DigitValue(c) else c as int - 'a' as int + 10
  }

  /** `%x` of a natural number: lower-case hexadecimal without leading
      zeros. */
  function NatToHex(n: nat): (r: string)
    ensures |r| >= 1 && AllHex(r)
  {
    var ds := ToDigits(n, 16);
    seq(|ds|, i requires 0 <= i < |ds| => HexDigitChar(ds[i]))
  }

  /** The value of a string of hexadecimal digits. */
  function HexValue(s: string): nat
    requires AllHex(s)
  {
    if |s| == 0 then 0 else HexValue(s[..|s| - 1]) * 16 + HexDigitValue(s[|s| - 1])
  }

  function HexDigitsOf(s: string): (r: seq<nat>)
    requires AllHex(s)
    ensures |r| == |s|
  {
    seq(|s|, i requires 0 <= i < |s| => HexDigitValue(s[i]))
  }

  lemma {:induction false} HexValueIsFromDigits(s: string)
    requires AllHex(s)
    ensures HexValue(s) == FromDigits(HexDigitsOf(s), 16)
    decreases |s|
  {
    if |s| > 0 {
      HexValueIsFromDigits(s[..|s| - 1]);
      assert HexDigitsOf(s)[..|s| - 1] == HexDigitsOf(s[..|s| - 1]);
    }
  }

  /** Printing a number with `%x` and reading it back gives the number. */
  lemma HexRoundTrip(n: nat)
    ensures HexValue(NatToHex(n)) == n
  {
    var s := NatToHex(n);
    var ds := ToDigits(n, 16);
    HexValueIsFromDigits(s);
    forall i | 0 <= i < |s|
      ensures HexDigitsOf(s)[i] == ds[i]
    {
      HexDigitInverse(ds[i]);
    }
    assert HexDigitsOf(s) == ds;
    FromToDigits(n, 16);
  }

  lemma HexDigitInverse(d: nat)
    requires d < 16
    ensures HexDigitValue(HexDigitChar(d)) == d
  {
  }

  /** The printed form of a number consists of digits and a leading
      minus sign. */
  lemma PrintedChars(i: int)
    ensures var d := IntToDecimal(i);
            |d| >= 1 && forall k :: 0 <= k < |d| ==> IsAsciiDigit(d[k]) || (k == 0 && d[k] == '-')
  {
    var d := IntToDecimal(i);
    var n := NatToDecimal(if i < 0 then -i else i);
    if i < 0 {
      assert forall k :: 1 <= k < |d| ==> d[k] == n[k - 1];
    }
  }

  /** The length of the longest prefix of decimal digits. */
  function DigitRun(s: string): (r: nat)
    ensures r <= |s| && AllDigits(s[..r])
    ensures r < |s| ==> !IsAsciiDigit(s[r])
  {
    if |s| > 0 && IsAsciiDigit(s[0]) then
      var r := 1 + DigitRun(s[1..]);
      assert s[..r] == [s[0]] + s[1..][..r - 1];
      r
    else 0
  }

  /** The pieces of a numeral a C or JavaScript parser reads from the front
      of a string: leading space, an optional sign, and the digit run. */
  datatype Numeral = Numeral(negative: bool, digits: string)

  function ScanNumeral(s: string, space: char -> bool): (r: Numeral)
    ensures AllDigits(r.digits)
  {
    var t := LStrip(s, space);
    var neg := |t| > 0 && t[0] == '-';
    var u := if |t| > 0 && (t[0] == '-' || t[0] == '+') then t[1..] else t;
    Numeral(neg, u[..DigitRun(u)])
  }

  const LongMin: int := -0x8000_0000_0000_0000
  const LongMax: int := 0x7FFF_FFFF_FFFF_FFFF
  const ULongMax: int := 0xFFFF_FFFF_FFFF_FFFF

  /** `strtol(s, NULL, 10)` for a 64-bit `long`: no digits gives 0, and a
      value out of range saturates at LONG_MIN or LONG_MAX. */
  function StrToLong(s: string): (r: int)
    ensures LongMin <= r <= LongMax
  {
    var m := ScanNumeral(s, IsCSpace);
    var v := if m.negative then -(DecimalValue(m.digits) as int) else DecimalValue(m.digits);
    if v < LongMin then LongMin else if v > LongMax then LongMax else v
  }

  /** `strtoul`/`strtoull`/`g_ascii_strtoull` with base 10 and a 64-bit
      result: out of range saturates at ULONG_MAX, and a minus sign negates
      modulo 2^64. */
  function StrToULong(s: string): (r: nat)
    ensures r <= ULongMax
  {
    var m := ScanNumeral(s, IsCSpace);
    var mag := DecimalValue(m.digits);
    if mag > ULongMax then ULongMax
    else if m.negative then (ULongMax + 1 - mag) % (ULongMax + 1)
    else mag
  }

  /** The conversion of a 64-bit value to a 32-bit `int` done by GCC:
      reduction modulo 2^32 into the signed range. */
  function ToInt32(v: int): (r: int)
    ensures -0x8000_0000 <= r < 0x8000_0000
    ensures (r - v) % 0x1_0000_0000 == 0
    ensures -0x8000_0000 <= v < 0x8000_0000 ==> r == v
  {
    var m := v % 0x1_0000_0000;
    if m >= 0x8000_0000 then m - 0x1_0000_0000 else m
  }

  /** `parseInt(s, 10)`: `None` stands for NaN, which results when no digit
      follows the optional space and sign. */
  function JsParseInt(s: string): (r: Option<int>)
    ensures r.None? <==> |ScanNumeral(s, IsJsSpace).digits| == 0
  {
    var m := ScanNumeral(s, IsJsSpace);
    if |m.digits| == 0 then None
    else Some(if m.negative then -(DecimalValue(m.digits) as int) else DecimalValue(m.digits))
  }

  /** A string of decimal digits parses to its own value. */
  lemma JsParseIntDigits(s: string)
    requires |s| >= 1 && AllDigits(s)
    ensures JsParseInt(s) == Some(DecimalValue(s))
  {
    assert !IsJsSpace(s[0]);
    ScanUnsigned(s, IsJsSpace);
  }

  /** Digits with no space before them scan as themselves, unsigned. */
  lemma ScanUnsigned(s: string, space: char -> bool)
    requires |s| >= 1 && AllDigits(s) && !space(s[0])
    ensures ScanNumeral(s, space) == Numeral(false, s)
  {
    LStripNone(s, space);
    UnsignedRun(s);
  }

  lemma UnsignedRun(s: string)
    requires |s| >= 1 && AllDigits(s)
    ensures s[0] != '-' && s[0] != '+' && s[..DigitRun(s)] == s
  {
    DigitRunAll(s);
  }

  /** A minus sign and digits scan as the digits, negated, when the sign
      is no space. */
  lemma ScanNegative(d: string, space: char -> bool)
    requires AllDigits(d) && !space('-')
    ensures ScanNumeral(['-'] + d, space) == Numeral(true, d)
  {
    var s := ['-'] + d;
    assert s[0] == '-' && s[1..] == d;
    LStripNone(s, space);
    DigitRunAll(d);
  }

  lemma {:induction false} DigitRunAll(s: string)
    requires AllDigits(s)
    ensures DigitRun(s) == |s|
    decreases |s|
  {
    if |s| > 0 {
      DigitRunAll(s[1..]);
    }
  }

  /** Python's `int(s)` on text: whitespace (by `space`) around an optional
      sign and at least one digit, with nothing else. */
  function PyInt(s: string, space: char -> bool): Option<int>
  {
    var t := Strip(s, space);
    var neg := |t| > 0 && t[0] == '-';
    var u := if |t| > 0 && (t[0] == '-' || t[0] == '+') then t[1..] else t;
    if |u| >= 1 && AllDigits(u) then Some(if neg then -(DecimalValue(u) as int) else DecimalValue(u)) else None
  }

  /** `int('')` raises: there is no digit. */
  lemma PyIntEmpty(space: char -> bool)
    ensures PyInt("", space).None?
  {
    LStripNone("", space);
    RStripNone("", space);
  }

  /** `int("%d" % i) == i`: Python reads back what `%d` printed, for any
      whitespace class that excludes digits and the minus sign. */
  lemma PyIntRoundTrip(i: int, space: char -> bool)
    requires forall c :: space(c) ==> !IsAsciiDigit(c) && c != '-'
    ensures PyInt(IntToDecimal(i), space) == Some(i)
  {
    var s := IntToDecimal(i);
    var n: nat := if i < 0 then -i else i;
    var d := NatToDecimal(n);
    assert !space(d[0]) && !space(d[|d| - 1]);
    DecimalRoundTrip(n);
    if i < 0 {
      assert s == "-" + d;
      assert !space(s[0]) && s[|s| - 1] == d[|d| - 1];
      LStripNone(s, space);
      RStripNone(s, space);
      assert s[1..] == d;
    } else {
      assert s == d;
      LStripNone(s, space);
      RStripNone(s, space);
    }
  }

  /** Scanning what `%d` printed finds its sign and all of its digits. */
  lemma ScanPrinted(i: int, space: char -> bool)
    requires forall c :: space(c) ==> !IsAsciiDigit(c) && c != '-'
    ensures ScanNumeral(IntToDecimal(i), space) == Numeral(i < 0, NatToDecimal(if i < 0 then -i else i))
  {
    var s := IntToDecimal(i);
    var d := NatToDecimal(if i < 0 then -i else i);
    DigitRunAll(d);
    assert d[..|d|] == d;
    assert !space(s[0]);
    LStripNone(s, space);
    if i < 0 {
      assert s[1..] == d;
    }
  }

  /** `strtol` reads back what `%d` printed, for every value a `long`
      holds. */
  lemma StrToLongRoundTrip(i: int)
    requires LongMin <= i <= LongMax
    ensures StrToLong(IntToDecimal(i)) == i
  {
    var n: nat := if i < 0 then -i else i;
    ScanPrinted(i, IsCSpace);
    DecimalRoundTrip(n);
    var m := ScanNumeral(IntToDecimal(i), IsCSpace);
    assert DecimalValue(m.digits) == n;
    assert (if m.negative then -(n as int) else n) == i;
  }

  /** `strtoull` reads back what `%llu` printed. */
  lemma StrToULongRoundTrip(u: nat)
    requires u <= ULongMax
    ensures StrToULong(NatToDecimal(u)) == u
  {
    ScanPrinted(u, IsCSpace);
    DecimalRoundTrip(u);
  }
}
