/** The hint labels of the basic link-following script: every candidate on
    screen gets a fixed-width numeral over the configured alphabet
    (`charset`), and the keys typed so far either select one candidate or
    narrow the hints to those whose label starts with them. The page is
    reduced to the number of candidates; a candidate is its index. */
module HintLabels {
  import opened Numerals
  import opened Text
  import opened HintFilter

  /** An alphabet the label arithmetic terminates on. */
  predicate ValidCharset(charset: string) {
    |charset| >= 2
  }

  /** Iterations of `while (n) { keylen++; n = floor(n / k) }`. */
  function KeyLen(m: nat, k: nat): nat
    requires k >= 2
    decreases m
  {
    if m == 0 then 0 else 1 + KeyLen(m / k, k)
  }

  /** `labelLength(n)`: one character below two candidates, otherwise the
      number of base-k digits of the highest index `n - 1`. */
  function LabelLength(n: nat, charset: string): nat
    requires ValidCharset(charset)
  {
    if n < 2 then 1 else KeyLen(n - 1, |charset|)
  }

  lemma {:induction false} KeyLenIsDigitCount(m: nat, k: nat)
    requires k >= 2 && m >= 1
    ensures KeyLen(m, k) == |ToDigits(m, k)|
    decreases m
  {
    DivMod(m, k);
    if m >= k {
      KeyLenIsDigitCount(m / k, k);
    } else {
      assert m / k == 0;
    }
  }

  /** The width is the least `L >= 1` whose `k^L` labels cover all `n`
      candidates. */
  lemma LabelLengthIsMinimal(n: nat, charset: string)
    requires ValidCharset(charset)
    ensures LabelLength(n, charset) >= 1
    ensures n <= Pow(|charset|, LabelLength(n, charset))
    ensures n >= 2 ==> Pow(|charset|, LabelLength(n, charset) - 1) < n
  {
    var k := |charset|;
    if n < 2 {
      assert Pow(k, 1) == k * Pow(k, 0);
    } else {
      KeyLenIsDigitCount(n - 1, k);
      DigitCountUpper(n - 1, k);
      DigitCountLower(n - 1, k);
    }
  }

  /** `intToLabel(n)`: the do-while loop emitting `charset[n % k]` in front
      of the label until `n` reaches 0. */
  function IntToLabel(n: nat, charset: string): (r: string)
    requires ValidCharset(charset)
    decreases n
  {
    var k := |charset|;
    DivMod(n, k);
    (if n / k == 0 then "" else IntToLabel(n / k, charset)) + [charset[n % k]]
  }

  /** `charset.indexOf(c)`: the first position of `c`, or -1. */
  function IndexOf(charset: string, c: char): (r: int)
    ensures -1 <= r < |charset|
    ensures r >= 0 ==> charset[r] == c && forall i :: 0 <= i < r ==> charset[i] != c
    ensures r == -1 ==> c !in charset
  {
    var i := IndexOfChar(charset, c);
    if i == |charset| then -1 else i
  }

  /** `labelToInt(label)`: `n = n * k + charset.indexOf(c)` over the label. */
  function LabelToInt(code: string, charset: string): int
  {
    if |code| == 0 then 0
    else LabelToInt(code[..|code| - 1], charset) * |charset| + IndexOf(charset, code[|code| - 1])
  }

  /** The alphabet assigns each digit one character. */
  predicate DistinctChars(charset: string) {
    forall i, j :: 0 <= i < j < |charset| ==> charset[i] != charset[j]
  }

  /** `IntToLabel` spells the base-k digits of `n` with the alphabet. */
  lemma {:induction false} IntToLabelSpellsDigits(n: nat, charset: string)
    requires ValidCharset(charset)
    ensures |IntToLabel(n, charset)| == |ToDigits(n, |charset|)|
    ensures forall i :: 0 <= i < |ToDigits(n, |charset|)| ==>
      IntToLabel(n, charset)[i] == charset[ToDigits(n, |charset|)[i]]
    decreases n
  {
    var k := |charset|;
    DivMod(n, k);
    if n / k != 0 {
      IntToLabelSpellsDigits(n / k, charset);
      assert ToDigits(n, k) == ToDigits(n / k, k) + [n % k];
    } else {
      assert n < k;
    }
  }

  lemma {:induction false} IndexOfDistinct(charset: string, d: nat)
    requires DistinctChars(charset) && d < |charset|
    ensures IndexOf(charset, charset[d]) == d
  {
  }

  /** Decoding an encoded index gives it back, when the alphabet has no
      repeated character. */
  lemma {:induction false} LabelRoundTrip(n: nat, charset: string)
    requires ValidCharset(charset) && DistinctChars(charset)
    ensures LabelToInt(IntToLabel(n, charset), charset) == n
    decreases n
  {
    var q := n / |charset|;
    if q != 0 {
      QuotientSmaller(n, |charset|);
      LabelRoundTrip(q, charset);
    }
    LabelStep(n, q, n % |charset|, charset);
  }

  lemma QuotientSmaller(n: nat, k: nat)
    requires k >= 2 && n / k != 0
    ensures n / k < n
  {
    DivMod(n, k);
  }

  /** The last character of the label adds the last digit to the value of
      the label before it. */
  lemma LabelStep(n: nat, q: nat, d: nat, charset: string)
    requires ValidCharset(charset) && DistinctChars(charset)
    requires q == n / |charset| && d == n % |charset|
    requires q != 0 ==> LabelToInt(IntToLabel(q, charset), charset) == q
    ensures LabelToInt(IntToLabel(n, charset), charset) == n
  {
    var k := |charset|;
    var init := if q == 0 then "" else IntToLabel(q, charset);
    assert IntToLabel(n, charset) == init + [charset[d]];
    LabelSnoc(init, charset[d], charset);
    IndexOfDistinct(charset, d);
    DivMod(n, k);
    Recombine(LabelToInt(init, charset), q, k, d, n);
  }

  /** One more character read: the value so far times `k`, plus its digit. */
  lemma LabelSnoc(init: string, c: char, charset: string)
    ensures LabelToInt(init + [c], charset) == LabelToInt(init, charset) * |charset| + IndexOf(charset, c)
  {
    assert (init + [c])[..|init|] == init;
  }

  lemma Recombine(a: int, q: nat, k: nat, d: int, n: nat)
    requires a == q && n == q * k + d
    ensures a * k + d == n
  {
  }

  /** A character outside the alphabet decodes as the digit -1, so "bz"
      over "ab" reads as 1 instead of being refused. */
  lemma OutOfAlphabetDecodes()
    ensures LabelToInt("bz", "ab") == 1
  {
    assert "bz"[..1] == "b";
    assert ("b")[..0] == "";
  }

  /** The label of candidate `j` at width `len`: `intToLabel(j)` preceded by
      `charset[0]` up to the width. */
  function PaddedLabel(j: nat, len: nat, charset: string): string
    requires ValidCharset(charset)
  {
    PadLeft(IntToLabel(j, charset), charset[0], len)
  }

  lemma {:induction false} LabelToIntLeadingZeros(z: nat, code: string, charset: string)
    requires ValidCharset(charset) && DistinctChars(charset)
    ensures LabelToInt(Repeat(charset[0], z) + code, charset) == LabelToInt(code, charset)
    decreases |code|, z
  {
    var k := |charset|;
    var s := Repeat(charset[0], z) + code;
    IndexOfDistinct(charset, 0);
    if |code| == 0 {
      assert s == Repeat(charset[0], z);
      if z > 0 {
        assert s[..|s| - 1] == Repeat(charset[0], z - 1) + "";
        LabelToIntLeadingZeros(z - 1, "", charset);
      }
    } else {
      assert s[..|s| - 1] == Repeat(charset[0], z) + code[..|code| - 1];
      LabelToIntLeadingZeros(z, code[..|code| - 1], charset);
    }
  }

  /** Every candidate below `count` gets a label of exactly the computed
      width, and that label decodes back to its index, so different
      candidates get different labels. */
  lemma PaddedLabelFacts(j: nat, count: nat, charset: string)
    requires ValidCharset(charset) && DistinctChars(charset) && j < count
    ensures |PaddedLabel(j, LabelLength(count, charset), charset)| == LabelLength(count, charset)
    ensures LabelToInt(PaddedLabel(j, LabelLength(count, charset), charset), charset) == j
  {
    var len := LabelLength(count, charset);
    var code := IntToLabel(j, charset);
    LabelFits(j, count, charset);
    assert PaddedLabel(j, len, charset) == Repeat(charset[0], len - |code|) + code;
    LabelRoundTrip(j, charset);
    LabelToIntLeadingZeros(len - |code|, code, charset);
  }

  /** The label of a candidate below `count` is no wider than the width. */
  lemma LabelFits(j: nat, count: nat, charset: string)
    requires ValidCharset(charset) && j < count
    ensures |IntToLabel(j, charset)| <= LabelLength(count, charset)
  {
    var k := |charset|;
    var len := LabelLength(count, charset);
    LabelLengthIsMinimal(count, charset);
    IntToLabelSpellsDigits(j, charset);
    assert j < Pow(k, len);
    DigitCountIsLeast(j, k, len);
  }

  lemma PaddedLabelsDistinct(i: nat, j: nat, count: nat, charset: string)
    requires ValidCharset(charset) && DistinctChars(charset) && i < count && j < count && i != j
    ensures PaddedLabel(i, LabelLength(count, charset), charset) != PaddedLabel(j, LabelLength(count, charset), charset)
  {
    PaddedLabelFacts(i, count, charset);
    PaddedLabelFacts(j, count, charset);
  }

  /** The labels of all `count` candidates at width `len`. */
  function PaddedLabels(count: nat, len: nat, charset: string): (r: seq<string>)
    requires ValidCharset(charset)
    ensures |r| == count
    ensures forall j :: 0 <= j < count ==> r[j] == PaddedLabel(j, len, charset)
  {
    seq(count, j requires 0 <= j < count => PaddedLabel(j, len, charset))
  }

  /** What `followLinks` does with the typed keys. */
  datatype FollowResult =
    | Select(index: nat)        // the typed label names a candidate
    | Redraw(hints: seq<Hint>)  // the candidates still reachable, by `reDrawHints`

  /** `followLinks(typed)` over `count` candidates. */
  function FollowLinks(typed: string, count: nat, charset: string): (r: FollowResult)
    requires ValidCharset(charset)
    ensures r.Select? <==>
      (|typed| == LabelLength(count, charset) && 0 <= LabelToInt(typed, charset) < count)
    ensures r.Select? ==> r.index == LabelToInt(typed, charset)
    ensures r.Redraw? ==> r.hints == PrefixFilter(PaddedLabels(count, LabelLength(count, charset), charset), typed, 0)
  {
    var len := LabelLength(count, charset);
    var linknr := LabelToInt(typed, charset);
    if |typed| == len && linknr < count && linknr >= 0 then Select(linknr)
    else Redraw(PrefixFilter(PaddedLabels(count, len, charset), typed, 0))
  }

  /** A typed string shorter than the width never selects, even when a
      single candidate is left. */
  lemma ShortInputNeverSelects(typed: string, count: nat, charset: string)
    requires ValidCharset(charset) && |typed| < LabelLength(count, charset)
    ensures FollowLinks(typed, count, charset).Redraw?
  {
  }

  /** Typing the full label of a candidate selects it. */
  lemma FullLabelSelects(j: nat, count: nat, charset: string)
    requires ValidCharset(charset) && DistinctChars(charset) && j < count
    ensures FollowLinks(PaddedLabel(j, LabelLength(count, charset), charset), count, charset) == Select(j)
  {
    PaddedLabelFacts(j, count, charset);
  }
}
