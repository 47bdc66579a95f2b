/** The month navigation of examples/data/scripts/pipermail.js: from the
    address of a pipermail archive page ("…/<year>-<Month>/<view>") it
    builds links to the same view of the previous and the next month.
    The DOM work of inserting the links is not modelled. */
module Pipermail {
  import opened Wrappers
  import opened Text
  import opened Numerals

  const Months: seq<string> := ["January", "February", "March", "April", "May", "June", "July",
                                "August", "September", "October", "November", "December"]

  /** `Array.prototype.indexOf`: the first position of `x`, or -1. */
  function IndexOf(xs: seq<string>, x: string): (r: int)
    ensures -1 <= r < |xs|
  {
    if |xs| == 0 then -1
    else if xs[0] == x then 0
    else
      var k := IndexOf(xs[1..], x);
      if k == -1 then -1 else k + 1
  }

  /** The position found holds `x` and no earlier one does; -1 means `x`
      is nowhere. */
  lemma {:induction false} IndexOfSpec(xs: seq<string>, x: string)
    ensures var r := IndexOf(xs, x);
            (r >= 0 ==> xs[r] == x && forall i :: 0 <= i < r ==> xs[i] != x)
            && (r == -1 <==> x !in xs)
    decreases |xs|
  {
    if |xs| > 0 && xs[0] != x {
      IndexOfSpec(xs[1..], x);
      assert xs == [xs[0]] + xs[1..];
    }
  }

  /** `months[i]` read as a string in a concatenation: an index outside
      the array yields `undefined`, printed "undefined". */
  function MonthText(i: int): string
  {
    if 0 <= i < 12 then Months[i] else "undefined"
  }

  /** The printed form of `parseInt(y) ± 1`: NaN when the year has no
      digits. */
  function ShiftedYear(y: string, delta: int): string
  {
    match JsParseInt(y)
    case Some(v) => IntToDecimal(v + delta)
    case None => "NaN"
  }

  /** The year and month texts of both neighbours. */
  datatype Neighbours = Neighbours(prevYear: string, prevMonth: string,
                                   nextYear: string, nextMonth: string)

  /** Month names differ: by length, first letter or third letter. */
  lemma MonthsDistinct(i: nat, j: nat)
    requires i < j < 12
    ensures Months[i] != Months[j]
  {
    var a, b := Months[i], Months[j];
    assert |a| != |b| || a[0] != b[0] || a[2] != b[2];
  }

  /** Lines 20-40: January and December change the year through
      `parseInt`, every other month keeps the year text as it is and takes
      the adjacent names; a month that is not a month name (or missing,
      `undefined`) is not found, so its previous month is "undefined" and
      its next one is January. */
  function Neighbour(year: string, month: Option<string>): (r: Neighbours)
    ensures month == Some(Months[0]) ==>
              r == Neighbours(ShiftedYear(year, -1), Months[11], year, Months[1])
    ensures month == Some(Months[11]) ==>
              r == Neighbours(year, Months[10], ShiftedYear(year, 1), Months[0])
    ensures month.None? || IndexOf(Months, month.value) == -1 ==>
              r == Neighbours(year, "undefined", year, Months[0])
  {
    if month == Some(Months[0]) then Neighbours(ShiftedYear(year, -1), Months[11], year, Months[1])
    else if month == Some(Months[11]) then
      assert IndexOf(Months, Months[11]) != -1 by {
        IndexOfSpec(Months, Months[11]);
        assert Months[11] in Months;
      }
      Neighbours(year, Months[10], ShiftedYear(year, 1), Months[0])
    else
      var m := if month.None? then -1 else IndexOf(Months, month.value);
      Neighbours(year, MonthText(m - 1), year, MonthText(m + 1))
  }

  /** A month strictly inside the year has the names before and after it
      as neighbours, and keeps the year text. */
  lemma InnerMonth(year: string, m: nat)
    requires 1 <= m <= 10
    ensures Neighbour(year, Some(Months[m])) == Neighbours(year, Months[m - 1], year, Months[m + 1])
  {
    InnerMonthFacts(m);
    NeighbourAt(year, Months[m], m);
  }

  /** The neighbours of a name found at an inner position. */
  lemma NeighbourAt(year: string, name: string, m: nat)
    requires 1 <= m <= 10 && IndexOf(Months, name) == m
    requires name != Months[0] && name != Months[11]
    ensures Neighbour(year, Some(name)) == Neighbours(year, Months[m - 1], year, Months[m + 1])
  {
    assert MonthText(m - 1) == Months[m - 1] && MonthText(m + 1) == Months[m + 1];
  }

  lemma InnerMonthFacts(m: nat)
    requires 1 <= m <= 10
    ensures IndexOf(Months, Months[m]) == m
    ensures Months[m] != Months[0] && Months[m] != Months[11]
  {
    MonthsDistinct(0, m);
    MonthsDistinct(m, 11);
    forall i | 0 <= i < m ensures Months[i] != Months[m] {
      MonthsDistinct(i, m);
    }
    IndexOfAt(Months, m);
  }

  /** The position of an element that occurs nowhere before. */
  lemma IndexOfAt(xs: seq<string>, m: nat)
    requires m < |xs|
    requires forall i :: 0 <= i < m ==> xs[i] != xs[m]
    ensures IndexOf(xs, xs[m]) == m
  {
    IndexOfSpec(xs, xs[m]);
    var r := IndexOf(xs, xs[m]);
    assert xs[m] in xs;
  }

  /** A calendar month: the reference the string computation is compared
      with. */
  datatype YearMonth = YearMonth(year: int, month: nat)

  predicate ValidMonth(d: YearMonth) {
    d.month < 12
  }

  function Before(d: YearMonth): (r: YearMonth)
    requires ValidMonth(d)
    ensures ValidMonth(r)
  {
    if d.month == 0 then YearMonth(d.year - 1, 11) else YearMonth(d.year, d.month - 1)
  }

  function After(d: YearMonth): (r: YearMonth)
    requires ValidMonth(d)
    ensures ValidMonth(r)
  {
    if d.month == 11 then YearMonth(d.year + 1, 0) else YearMonth(d.year, d.month + 1)
  }

  /** Previous and next are inverse to each other. */
  lemma BeforeAfterInverse(d: YearMonth)
    requires ValidMonth(d)
    ensures Before(After(d)) == d && After(Before(d)) == d
  {
  }

  /** The texts a year and month appear as in an archive address. */
  function YearText(d: YearMonth): string
  {
    IntToDecimal(d.year)
  }

  /** `parseInt` reads a printed year back. */
  lemma ParseYear(y: int)
    ensures JsParseInt(IntToDecimal(y)) == Some(y)
  {
    var n: nat := if y < 0 then -y else y;
    ScanPrinted(y, IsJsSpace);
    DecimalRoundTrip(n);
  }

  /** On the address of a real month, the script's neighbours are exactly
      the calendar's previous and next months. */
  lemma NeighbourIsCalendar(d: YearMonth)
    requires ValidMonth(d)
    ensures var r := Neighbour(YearText(d), Some(Months[d.month]));
            r.prevYear == YearText(Before(d)) && r.prevMonth == Months[Before(d).month]
            && r.nextYear == YearText(After(d)) && r.nextMonth == Months[After(d).month]
  {
    if d.month == 0 {
      EdgeMonths(d.year);
    } else if d.month == 11 {
      EdgeMonths(d.year);
    } else {
      InnerMonth(YearText(d), d.month);
    }
  }

  /** January and December, with the year changed through `parseInt`. */
  lemma EdgeMonths(y: int)
    ensures Neighbour(IntToDecimal(y), Some(Months[0]))
              == Neighbours(IntToDecimal(y - 1), Months[11], IntToDecimal(y), Months[1])
    ensures Neighbour(IntToDecimal(y), Some(Months[11]))
              == Neighbours(IntToDecimal(y), Months[10], IntToDecimal(y + 1), Months[0])
  {
    ParseYear(y);
    MonthsDistinct(0, 11);
  }

  /** Following the "next month" link and then the "previous month" link
      of the page reached (and the other way round) comes back to the same
      year and month text. */
  lemma NeighbourRoundTrip(d: YearMonth)
    requires ValidMonth(d)
    ensures var r := Neighbour(YearText(d), Some(Months[d.month]));
            var n := Neighbour(r.nextYear, Some(r.nextMonth));
            var p := Neighbour(r.prevYear, Some(r.prevMonth));
            n.prevYear == YearText(d) && n.prevMonth == Months[d.month]
            && p.nextYear == YearText(d) && p.nextMonth == Months[d.month]
  {
    NeighbourIsCalendar(d);
    NeighbourIsCalendar(After(d));
    NeighbourIsCalendar(Before(d));
    BeforeAfterInverse(d);
  }

  /** What lines 12-14 read from the address: the view (the last path
      segment without its fragment) and the year and month texts of the
      segment before it. `None` stands for the TypeError of an address
      without any '/'. */
  datatype Page = Page(view: string, year: string, month: Option<string>)

  function ParsePage(url: string): (r: Option<Page>)
    ensures r.None? <==> '/' !in url
    ensures r.Some? ==> '/' !in r.value.view && '#' !in r.value.view
    ensures r.Some? ==> r.value.view <= SplitOn(url, "/")[|SplitOn(url, "/")| - 1]
  {
    var parts := SplitOn(url, "/");
    SplitOnSingleton(url, '/');
    if |parts| < 2 then None
    else
      var last := parts[|parts| - 1];
      var view := SplitOn(last, "#")[0];
      var date := SplitOn(parts[|parts| - 2], "-");
      SplitOnPiecesAreFree(url, "/");
      SplitOnPiecesAreFree(last, "#");
      NoCharNotOccurs(last, '/');
      NoCharNotOccurs(view, '#');
      JoinSplitOn(last, "#");
      JoinStartsWithHead(SplitOn(last, "#"), "#");
      NoCharPrefix(view, last, '/');
      Some(Page(view, date[0], if |date| >= 2 then Some(date[1]) else None))
  }

  /** A string splits into one piece exactly when it lacks the separator. */
  lemma SplitOnSingleton(s: string, c: char)
    ensures |SplitOn(s, [c])| == 1 <==> c !in s
  {
    NoCharNotOccurs(s, c);
    if |SplitOn(s, [c])| == 1 {
      JoinSplitOn(s, [c]);
      SplitOnPiecesAreFree(s, [c]);
      assert Join(SplitOn(s, [c]), [c]) == SplitOn(s, [c])[0];
    }
    if c !in s {
      SplitOnAbsent(s, [c]);
    }
  }

  /** A string without the one-character pattern as a substring does not
      contain the character, and conversely. */
  lemma NoCharNotOccurs(s: string, c: char)
    ensures !Occurs(s, [c]) <==> c !in s
  {
    if c in s {
      var i :| 0 <= i < |s| && s[i] == c;
      assert s[i..i + 1] == [c];
      assert OccursAt(s, [c], i);
    }
    if Occurs(s, [c]) {
      var i :| 0 <= i <= |s| && OccursAt(s, [c], i);
      assert s[i] == s[i..i + 1][0];
    }
  }

  lemma NoCharPrefix(a: string, b: string, c: char)
    requires a <= b && c !in b
    ensures c !in a
  {
    forall i | 0 <= i < |a| ensures a[i] != c {
      assert a[i] == b[i];
    }
  }

  /** Lines 42-43. */
  function Href(year: string, month: string, view: string): (r: string)
    ensures "../" <= r
    ensures EndsWith(r, "/" + view)
  {
    var r := "../" + year + "-" + month + "/" + view;
    assert r == ("../" + year + "-" + month) + ("/" + view);
    r
  }

  /** Both links of a page, or `None` for an address the script fails on. */
  datatype Links = Links(prev: string, next: string)

  function PageLinks(url: string): (r: Option<Links>)
    ensures r.None? <==> '/' !in url
    ensures r.Some? ==> exists v :: '/' !in v && EndsWith(r.value.prev, "/" + v) && EndsWith(r.value.next, "/" + v)
  {
    match ParsePage(url)
    case None => None
    case Some(p) =>
      var n := Neighbour(p.year, p.month);
      var l := Links(Href(n.prevYear, n.prevMonth, p.view), Href(n.nextYear, n.nextMonth, p.view));
      assert '/' !in p.view && EndsWith(l.prev, "/" + p.view) && EndsWith(l.next, "/" + p.view);
      Some(l)
  }

  /** Links of the page of a calendar month lead to the calendar's
      neighbours, in the same view. */
  lemma CalendarLinks(d: YearMonth, view: string)
    requires ValidMonth(d)
    ensures var n := Neighbour(YearText(d), Some(Months[d.month]));
            Href(n.prevYear, n.prevMonth, view)
              == "../" + YearText(Before(d)) + "-" + Months[Before(d).month] + "/" + view
            && Href(n.nextYear, n.nextMonth, view)
              == "../" + YearText(After(d)) + "-" + Months[After(d).month] + "/" + view
  {
    NeighbourIsCalendar(d);
  }
}
