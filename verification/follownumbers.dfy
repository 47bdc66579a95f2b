/** The numeric hint script: candidates are the visible links followed by
    the visible form elements, each labelled with its index in decimal,
    zero-padded to the number of digits of the candidate count. Typing a
    full-width number selects directly; otherwise the hints narrow to the
    labels starting with what was typed. A candidate is its index in the
    links-then-forms order. */
module FollowNumbers {
  import opened Wrappers
  import opened Text
  import opened Numerals
  import opened HintFilter

  /** `(elems[0].length + '').length`. */
  function Width(count: nat): nat
  {
    |NatToDecimal(count)|
  }

  /** `j + ''` preceded by '0' up to the width. */
  function ZeroLabel(j: nat, len: nat): string
  {
    PadLeft(NatToDecimal(j), '0', len)
  }

  function ZeroLabels(count: nat, len: nat): (r: seq<string>)
    ensures |r| == count
    ensures forall j :: 0 <= j < count ==> r[j] == ZeroLabel(j, len)
  {
    seq(count, j requires 0 <= j < count => ZeroLabel(j, len))
  }

  /** The condition `linknr + 1 && s.length == len && linknr < count &&
      linknr >= 0` on `linknr = parseInt(typed, 10)`; NaN and -1 fail the
      first conjunct. */
  predicate Selects(typed: string, count: nat)
  {
    var linknr := JsParseInt(typed);
    linknr.Some? && linknr.value + 1 != 0 && |typed| == Width(count)
      && linknr.value < count && linknr.value >= 0
  }

  datatype FollowResult =
    | Click(index: nat)         // `clickElem(elems[0][linknr])`
    | Redraw(hints: seq<Hint>)  // `reDrawHints(leftover, s.length)`

  /** `followLinks(typed)` over `links` links and `forms` form elements. */
  function FollowLinks(typed: string, links: nat, forms: nat): (r: FollowResult)
    ensures r.Click? <==> Selects(typed, links + forms)
    ensures r.Click? ==> Some(r.index as int) == JsParseInt(typed) && r.index < links + forms
    ensures r.Redraw? ==> r.hints == PrefixFilter(ZeroLabels(links + forms, Width(links + forms)), typed, 0)
  {
    var count := links + forms;
    if Selects(typed, count) then Click(JsParseInt(typed).value)
    else Redraw(PrefixFilter(ZeroLabels(count, Width(count)), typed, 0))
  }

  lemma {:induction false} DecimalValueLeadingZeros(z: nat, d: string)
    requires AllDigits(d)
    ensures AllDigits(Repeat('0', z) + d)
    ensures DecimalValue(Repeat('0', z) + d) == DecimalValue(d)
    decreases |d|, z
  {
    var s := Repeat('0', z) + d;
    assert AllDigits(s) by {
      forall i | 0 <= i < |s| ensures IsAsciiDigit(s[i]) {
        if i < z { assert s[i] == Repeat('0', z)[i]; } else { assert s[i] == d[i - z]; }
      }
    }
    if |d| == 0 {
      if z > 0 {
        assert s[..|s| - 1] == Repeat('0', z - 1) + "";
        DecimalValueLeadingZeros(z - 1, "");
      }
    } else {
      assert s[..|s| - 1] == Repeat('0', z) + d[..|d| - 1];
      DecimalValueLeadingZeros(z, d[..|d| - 1]);
    }
  }

  /** Every index below the count has a label of exactly the width, and
      its label reads back as the index. */
  lemma ZeroLabelFacts(j: nat, count: nat)
    requires j < count
    ensures |ZeroLabel(j, Width(count))| == Width(count)
    ensures AllDigits(ZeroLabel(j, Width(count)))
    ensures DecimalValue(ZeroLabel(j, Width(count))) == j
  {
    var d := NatToDecimal(j);
    var len := Width(count);
    assert len == |ToDigits(count, 10)|;
    DigitCountUpper(count, 10);
    assert j < Pow(10, len);
    DigitCountIsLeast(j, 10, len);
    assert |d| <= len;
    DecimalRoundTrip(j);
    DecimalValueLeadingZeros(len - |d|, d);
    assert ZeroLabel(j, len) == Repeat('0', len - |d|) + d;
  }

  /** Typing a candidate's label selects it. */
  lemma FullLabelSelects(j: nat, links: nat, forms: nat)
    requires j < links + forms
    ensures FollowLinks(ZeroLabel(j, Width(links + forms)), links, forms) == Click(j)
  {
    LabelClicks(j, links, forms, links + forms);
  }

  /** `FullLabelSelects` with the candidate count named. */
  lemma LabelClicks(j: nat, links: nat, forms: nat, count: nat)
    requires count == links + forms && j < count
    ensures FollowLinks(ZeroLabel(j, Width(count)), links, forms) == Click(j)
  {
    ZeroLabelSelects(j, count);
    SelectsClicks(ZeroLabel(j, Width(count)), links, forms, count, j);
  }

  /** The label of an index below the count reads as that index and
      selects it. */
  lemma ZeroLabelSelects(j: nat, count: nat)
    requires j < count
    ensures Selects(ZeroLabel(j, Width(count)), count)
    ensures JsParseInt(ZeroLabel(j, Width(count))) == Some(j as int)
  {
    ZeroLabelFacts(j, count);
    JsParseIntDigits(ZeroLabel(j, Width(count)));
  }

  /** A typed text that selects clicks the index it reads as. */
  lemma SelectsClicks(typed: string, links: nat, forms: nat, count: nat, j: nat)
    requires count == links + forms && Selects(typed, count) && JsParseInt(typed) == Some(j as int)
    ensures FollowLinks(typed, links, forms) == Click(j)
  {
  }

  /** `parseInt` reads only a leading numeral, so with fifteen links "1a"
      has the width of a label and selects link 1. */
  lemma TrailingJunkStillSelects()
    ensures FollowLinks("1a", 15, 0) == Click(1)
  {
    WidthFifteen();
    ParseOneA();
    assert Selects("1a", 15);
  }

  lemma WidthFifteen()
    ensures Width(15) == 2
  {
    assert ToDigits(15, 10) == ToDigits(1, 10) + [5];
  }

  lemma ParseOneA()
    ensures JsParseInt("1a") == Some(1)
  {
    assert !IsJsSpace("1a"[0]);
    LStripNone("1a", IsJsSpace);
    assert "1a"[1..] == "a";
    assert DigitRun("a") == 0;
    assert DigitRun("1a") == 1;
    assert "1a"[..1] == "1";
    assert ScanNumeral("1a", IsJsSpace).digits == "1";
    assert "1"[..0] == "";
    assert DecimalValue("1") == 1;
  }
}
