/** The pure parts of examples/data/uzbl/scripts/uzbl_tabbed.py, a Python 2
    program that runs several browser instances as the tabs of one window:
    the pid counter, the escaping of tab titles for Pango markup, the tab
    index arithmetic of `goto_tab`, `next_tab` and `prev_tab`, the cut of
    long titles, the closed-tab memory and the plain-text session file.
    Python 2 strings are byte strings: one `char` per byte, whitespace as
    C's `isspace`. The notebook, the fifo and socket traffic and the file
    I/O around the session text are not modelled. */
module Tabbed {
  import opened Wrappers
  import opened Text
  import opened Numerals
  import opened PySeq
  import opened Util

  /* ---------------------------------------------------------------- counter */

  /** The state of the `counter()` generator: how many values it has
      yielded. */
  datatype Counter = Counter(yielded: nat)

  const FreshCounter := Counter(0)

  /** One call of the generator's `next`: the value and the new state. */
  function Draw(c: Counter): (nat, Counter)
  {
    (c.yielded + 1, Counter(c.yielded + 1))
  }

  /** The first `n` values drawn from `c`. */
  function Draws(c: Counter, n: nat): seq<nat>
    decreases n
  {
    if n == 0 then [] else [Draw(c).0] + Draws(Draw(c).1, n - 1)
  }

  /** A fresh counter yields 1, 2, 3, …, so the pids it hands out never
      repeat. */
  lemma {:induction false} CounterCounts(c: Counter, n: nat)
    ensures |Draws(c, n)| == n
    ensures forall k :: 0 <= k < n ==> Draws(c, n)[k] == c.yielded + k + 1
    decreases n
  {
    if n > 0 {
      CounterCounts(Draw(c).1, n - 1);
      var rest := Draws(Draw(c).1, n - 1);
      assert Draws(c, n) == [c.yielded + 1] + rest;
      forall k | 0 <= k < n ensures Draws(c, n)[k] == c.yielded + k + 1 {
        if k > 0 {
          assert Draws(c, n)[k] == rest[k - 1];
        }
      }
    }
  }

  lemma CounterFromOne(n: nat)
    ensures |Draws(FreshCounter, n)| == n
    ensures forall k :: 0 <= k < n ==> Draws(FreshCounter, n)[k] == k + 1
  {
    CounterCounts(FreshCounter, n);
  }

  /* ----------------------------------------------------------------- escape */

  /** `escape(s)` (lines 341-346): `&`, then `<`, then `>` replaced by their
      entities with `str.replace`. */
  function Escape(s: string): string
  {
    ReplaceAll(ReplaceAll(ReplaceAll(s, "&", "&amp;"), "<", "&lt;"), ">", "&gt;")
  }

  /** The entity of one character. */
  function Entity(c: char): string
  {
    if c == '&' then "&amp;" else if c == '<' then "&lt;" else if c == '>' then "&gt;" else [c]
  }

  /** Every character replaced by its entity in one pass. */
  function EscapeChars(s: string): string
  {
    if |s| == 0 then "" else Entity(s[0]) + EscapeChars(s[1..])
  }

  /** Because `&` goes first, the three passes of `escape` amount to one
      pass replacing each character by its entity: no entity written by a
      later pass is escaped again. */
  lemma EscapeIsOnePass(s: string)
    ensures Escape(s) == EscapeChars(s)
  {
    var s1 := SubstChar(s, '&', "&amp;");
    var s2 := SubstChar(s1, '<', "&lt;");
    ReplaceCharIsSubst(s, '&', "&amp;");
    ReplaceCharIsSubst(s1, '<', "&lt;");
    ReplaceCharIsSubst(s2, '>', "&gt;");
    SubstChain(s);
  }

  lemma {:induction false} SubstChain(s: string)
    ensures SubstChar(SubstChar(SubstChar(s, '&', "&amp;"), '<', "&lt;"), '>', "&gt;") == EscapeChars(s)
    decreases |s|
  {
    if |s| > 0 {
      var x, t := s[0], s[1..];
      var e1 := if x == '&' then "&amp;" else [x];
      var t1 := SubstChar(t, '&', "&amp;");
      assert SubstChar(s, '&', "&amp;") == e1 + t1;
      SubstAppend(e1, t1, '<', "&lt;");
      var e2 := SubstChar(e1, '<', "&lt;");
      var t2 := SubstChar(t1, '<', "&lt;");
      SubstAppend(e2, t2, '>', "&gt;");
      EntityByPasses(x);
      SubstChain(t);
    }
  }

  /** The three passes on the first pass's output for one character. */
  lemma EntityByPasses(x: char)
    ensures var e1 := if x == '&' then "&amp;" else [x];
            SubstChar(SubstChar(e1, '<', "&lt;"), '>', "&gt;") == Entity(x)
  {
    if x == '&' {
      assert '<' !in "&amp;" && '>' !in "&amp;";
    } else if x == '<' {
      assert SubstChar([x], '<', "&lt;") == "&lt;" + SubstChar([], '<', "&lt;");
      assert '>' !in "&lt;";
    } else if x == '>' {
      assert SubstChar([x], '>', "&gt;") == "&gt;" + SubstChar([], '>', "&gt;");
    }
  }

  /** The markup decoder of Pango for these three entities: the reference
      `escape` is inverted by. */
  function Unescape(s: string): string
    decreases |s|
  {
    if |s| == 0 then ""
    else if "&amp;" <= s then "&" + Unescape(s[5..])
    else if "&lt;" <= s then "<" + Unescape(s[4..])
    else if "&gt;" <= s then ">" + Unescape(s[4..])
    else [s[0]] + Unescape(s[1..])
  }

  /** A title escaped by `escape` is shown as exactly the original text. */
  lemma {:induction false} UnescapeEscape(s: string)
    ensures Unescape(Escape(s)) == s
  {
    EscapeIsOnePass(s);
    UnescapeChars(s);
  }

  lemma {:induction false} UnescapeChars(s: string)
    ensures Unescape(EscapeChars(s)) == s
    decreases |s|
  {
    if |s| > 0 {
      var e, rest := Entity(s[0]), EscapeChars(s[1..]);
      assert EscapeChars(s) == e + rest;
      UnescapeEntity(s[0], rest);
      UnescapeChars(s[1..]);
      assert s == [s[0]] + s[1..];
    }
  }

  lemma UnescapeEntity(c: char, rest: string)
    ensures Unescape(Entity(c) + rest) == [c] + Unescape(rest)
  {
    var e := Entity(c);
    var s := e + rest;
    assert s[..|e|] == e;
    assert s[|e|..] == rest;
    if c != '&' && c != '<' && c != '>' {
      assert s[0] == c;
      assert !("&amp;" <= s) && !("&lt;" <= s) && !("&gt;" <= s) by {
        assert "&amp;"[0] == '&' && "&lt;"[0] == '&' && "&gt;"[0] == '&';
      }
    } else if c == '<' {
      assert !("&amp;" <= s) by {
        assert s[1] == 'l';
      }
    } else if c == '>' {
      assert !("&amp;" <= s) by {
        assert s[1] == 'g';
      }
      assert !("&lt;" <= s) by {
        assert s[1] == 'g';
      }
    }
  }

  /** No markup character survives `escape` except inside an entity. */
  lemma {:induction false} EscapeHasNoAngles(s: string)
    ensures '<' !in Escape(s) && '>' !in Escape(s)
  {
    EscapeIsOnePass(s);
    CharsHaveNoAngles(s);
  }

  lemma {:induction false} CharsHaveNoAngles(s: string)
    ensures '<' !in EscapeChars(s) && '>' !in EscapeChars(s)
    decreases |s|
  {
    if |s| > 0 {
      CharsHaveNoAngles(s[1..]);
      var e := Entity(s[0]);
      assert '<' !in e && '>' !in e;
      assert EscapeChars(s) == e + EscapeChars(s[1..]);
    }
  }

  /* ------------------------------------------------------------- tab indices */

  /** The first position of `x`: `list.index`. */
  function FirstIndex<T(==)>(xs: seq<T>, x: T): (r: nat)
    requires x in xs
    ensures r < |xs| && xs[r] == x
    ensures forall i :: 0 <= i < r ==> xs[i] != x
  {
    if xs[0] == x then 0 else 1 + FirstIndex(xs[1..], x)
  }

  predicate Distinct<T(==)>(xs: seq<T>) {
    forall i, j :: 0 <= i < j < |xs| ==> xs[i] != xs[j]
  }

  /** `goto_tab(index)` (lines 1010-1028) over the notebook's pages: the page
      switched to, or `None` when the index is ignored. */
  function GotoTab<T(==)>(tabs: seq<T>, index: int): (r: Option<nat>)
    ensures r.Some? <==> -|tabs| <= index < |tabs|
    ensures 0 <= index < |tabs| ==> r == Some(index)
    ensures r.Some? ==> r.value < |tabs| && Index(tabs, index) == Some(tabs[r.value])
  {
    if 0 <= index < |tabs| then Some(index)
    else match Index(tabs, index)
      case None => None
      case Some(tab) => Some(FirstIndex(tabs, tab))
  }

  /** Notebook pages are distinct widgets, so a negative index `-k` goes to
      the `k`-th page from the end. */
  lemma GotoNegative<T>(tabs: seq<T>, index: int)
    requires Distinct(tabs) && -|tabs| <= index < 0
    ensures GotoTab(tabs, index) == Some(|tabs| + index)
  {
    var r := GotoTab(tabs, index).value;
    assert tabs[r] == tabs[|tabs| + index];
  }

  /** What a tab switch does. */
  datatype Move =
    | Rejected       // step < 1: an error message and nothing else
    | MoveTo(page: nat)
    | ZeroDivision   // `% ntabs` with no pages
    | Endless        // the `while tabn < 0` loop with no pages never ends

  /** `next_tab(step)` (lines 1031-1041) from page `cur` of `n`. Python's
      `%` with a positive divisor is Dafny's. */
  function NextTab(cur: int, step: int, n: nat): (r: Move)
    ensures step < 1 <==> r == Rejected
    ensures step >= 1 && n == 0 ==> r == ZeroDivision
    ensures step >= 1 && n > 0 ==> r.MoveTo? && r.page < n && r.page == (cur + step) % n
  {
    if step < 1 then Rejected
    else if n == 0 then ZeroDivision
    else MoveTo((cur + step) % n)
  }

  /** `prev_tab(step)` (lines 1044-1055): subtract the step, then add the
      page count until the page is not negative. */
  method PrevTab(cur: int, step: int, n: nat) returns (r: Move)
    ensures step < 1 <==> r == Rejected
    ensures step >= 1 && n == 0 ==> r == Endless
    ensures step >= 1 && n > 0 && cur - step >= 0 ==> r == MoveTo(cur - step)
    ensures step >= 1 && n > 0 && cur - step < 0 ==> r.MoveTo? && r.page < n
    ensures step >= 1 && 0 <= cur < n ==> r == MoveTo((cur - step) % n)
  {
    if step < 1 {
      return Rejected;
    }
    if n == 0 {
      return Endless;
    }
    var tabn := cur - step;
    ghost var k: nat := 0;
    while tabn < 0
      invariant tabn == cur - step + k * n
      invariant k == 0 ==> tabn == cur - step
      invariant k > 0 ==> tabn < n && cur - step < 0
      decreases -tabn
    {
      MulSucc(k, n);
      tabn := tabn + n;
      k := k + 1;
    }
    if 0 <= cur < n {
      ModUnique(cur - step, k, n);
    }
    r := MoveTo(tabn);
  }

  lemma MulSucc(k: int, n: int)
    ensures (k + 1) * n == k * n + n
  {
  }

  /** A value shifted by a multiple of `n` into `[0, n)` is its remainder. */
  lemma ModUnique(x: int, k: int, n: int)
    requires n > 0 && 0 <= x + k * n < n
    ensures x % n == x + k * n
  {
    var q, r := x / n, x % n;
    var m := q + k;
    assert (q + k) * n == q * n + k * n;
    assert x + k * n - r == m * n;
    MulBounds(m, n);
  }

  lemma MulBounds(m: int, n: int)
    requires n > 0
    ensures m >= 1 ==> m * n >= n
    ensures m <= -1 ==> m * n <= -n
  {
    if m >= 1 {
      MulMonotone(1, m, n);
    }
    if m <= -1 {
      MulMonotone(m, -1, n);
    }
  }

  /** Stepping right and then left by the same step returns to the page. */
  lemma NextThenPrev(cur: int, step: int, n: nat)
    requires 0 <= cur < n && step >= 1
    ensures (NextTab(cur, step, n).page - step) % n == cur
  {
    var p := NextTab(cur, step, n).page;
    var q := (cur + step) / n;
    assert cur + step == q * n + p;
    ModUnique(p - step, q, n);
  }

  /* ------------------------------------------------------------------ titles */

  /** The UTF-8 bytes of the ellipsis U+2026 in the byte string
      "\xe2\x80\xa6". */
  const Ellipsis: string := ['\U{E2}', '\U{80}', '\U{A6}']

  /** The label of a tab (lines 1167-1169): the title cut to
      `max_title_len` with Python slicing, and with `show_ellipsis`, a cut
      title has its last byte replaced by the ellipsis. */
  function TabTitle(title: string, maxLen: int, showEllipsis: bool): (r: string)
    ensures !showEllipsis ==> r == Take(title, maxLen)
    ensures 0 <= maxLen && |title| <= maxLen ==> r == title
    ensures showEllipsis && 0 < maxLen < |title| ==> r == title[..maxLen - 1] + Ellipsis
    ensures showEllipsis && maxLen == 0 < |title| ==> r == Ellipsis
    ensures 0 < maxLen ==> |r| <= maxLen + 2
  {
    var t := Take(title, maxLen);
    if showEllipsis && |t| != |title| then Take(t, -1) + Ellipsis else t
  }

  /* ------------------------------------------------------------- closed tabs */

  datatype Tab = Tab(uri: string, title: string)

  /** Lines 1105-1106: the closed tab is appended and only the ten most
      recent are kept. */
  function RememberClosed(closed: seq<Tab>, tab: Tab): (r: seq<Tab>)
    ensures |r| == (if |closed| < 10 then |closed| + 1 else 10)
    ensures r[|r| - 1] == tab
    ensures r == (closed + [tab])[|closed| + 1 - |r|..]
  {
    var all := closed + [tab];
    DropNegative(all, 10);
    assert all[|all| - 1] == tab;
    Drop(all, -10)
  }

  /* ---------------------------------------------------------------- sessions */

  /** The session as `save_session` receives it: the current page and the
      tabs' uris and titles. */
  datatype Session = Session(curtab: int, tabs: seq<Tab>)

  /** `str.strip` of Python 2. */
  function PyStrip(s: string): string
  {
    Strip(s, IsCSpace)
  }

  function TabLine(t: Tab): string
  {
    PyStrip(t.uri) + "\t" + PyStrip(t.title)
  }

  function TabLines(tabs: seq<Tab>): (r: seq<string>)
    ensures |r| == |tabs|
    ensures forall i :: 0 <= i < |tabs| ==> r[i] == TabLine(tabs[i])
  {
    if |tabs| == 0 then [] else [TabLine(tabs[0])] + TabLines(tabs[1..])
  }

  const CurtabPrefix := "curtab = "

  /** The plain (non-JSON) session text of `save_session` (lines 1218-1222). */
  function SaveSession(s: Session): string
  {
    Join(SessionLines(s), "\n")
  }

  /** The lines of the session text: the "curtab" line, then one line per
      tab. */
  function SessionLines(s: Session): (r: seq<string>)
    ensures |r| == |s.tabs| + 1
  {
    [CurtabPrefix + IntToDecimal(s.curtab)] + TabLines(s.tabs)
  }

  /** The last word of `s.split()`, or `None` for the IndexError of a line
      without words. */
  function LastWord(s: string): (r: Option<string>)
    ensures r.Some? ==> |r.value| > 0 && forall i :: 0 <= i < |r.value| ==> !IsCSpace(r.value[i])
  {
    var t := RStrip(s, IsCSpace);
    if |t| == 0 then None
    else
      var k := TrailRun(t);
      Some(t[|t| - k..])
  }

  /** The length of the run of non-space characters at the end. */
  function TrailRun(t: string): (r: nat)
    requires |t| > 0 && !IsCSpace(t[|t| - 1])
    ensures 1 <= r <= |t|
    ensures forall i :: |t| - r <= i < |t| ==> !IsCSpace(t[i])
    ensures r < |t| ==> IsCSpace(t[|t| - r - 1])
    decreases |t|
  {
    if |t| == 1 || IsCSpace(t[|t| - 2]) then 1 else 1 + TrailRun(t[..|t| - 1])
  }

  /** Reads one line of the session file into the session read so far
      (lines 1279-1285); `None` is an exception, which makes
      `load_session` give up. */
  function LoadLine(line: string, acc: Session): Option<Session>
  {
    if StartsWith(line, "curtab") then
      match LastWord(line)
      case None => None
      case Some(w) =>
        match PyInt(w, IsCSpace)
        case None => None
        case Some(v) => Some(acc.(curtab := v))
    else
      var parts := SplitFirst(line, '\t');
      if |parts| != 2 then None
      else Some(acc.(tabs := acc.tabs + [Tab(PyStrip(parts[0]), PyStrip(parts[1]))]))
  }

  function LoadLines(lines: seq<string>, acc: Session): Option<Session>
    decreases |lines|
  {
    if |lines| == 0 then Some(acc)
    else match LoadLine(lines[0], acc)
      case None => None
      case Some(next) => LoadLines(lines[1..], next)
  }

  /** The lines that are not blank. */
  function NonBlank(lines: seq<string>): (r: seq<string>)
    ensures |r| <= |lines|
    ensures forall i :: 0 <= i < |r| ==> PyStrip(r[i]) != ""
  {
    if |lines| == 0 then []
    else (if PyStrip(lines[0]) != "" then [lines[0]] else []) + NonBlank(lines[1..])
  }

  /** `load_session` on the text of a plain session file (lines
      1268-1291): fewer than two non-blank lines, or a line that fails to
      parse, give `None`. */
  function LoadSession(raw: string): (r: Option<Session>)
    ensures |NonBlank(SplitOn(raw, "\n"))| < 2 ==> r.None?
  {
    var lines := NonBlank(SplitOn(raw, "\n"));
    if |lines| < 2 then None else LoadLines(lines, Session(0, []))
  }

  /** A text field the session file keeps intact: stripped, on one line. */
  predicate Clean(s: string) {
    PyStrip(s) == s && '\n' !in s
  }

  /** A tab whose line reads back as itself: a non-empty uri without a tab
      character that does not look like the "curtab" line. */
  predicate Restorable(t: Tab) {
    Clean(t.uri) && Clean(t.title) && |t.uri| > 0 && '\t' !in t.uri && !StartsWith(t.uri, "curtab")
  }

  /** Saving a session with at least one tab and loading the text back gives
      the same current page and tabs. */
  lemma SessionRoundTrip(s: Session)
    requires |s.tabs| >= 1
    requires forall i :: 0 <= i < |s.tabs| ==> Restorable(s.tabs[i])
    ensures LoadSession(SaveSession(s)) == Some(s)
  {
    SavedLoadsTabs(s);
    LoadTabs(s.tabs, Session(s.curtab, []));
    AppendToEmpty(s);
  }

  /** Loading a saved session comes down to loading its tab lines onto the
      current page. */
  lemma SavedLoadsTabs(s: Session)
    requires |s.tabs| >= 1
    requires forall i :: 0 <= i < |s.tabs| ==> Restorable(s.tabs[i])
    ensures LoadSession(SaveSession(s)) == LoadLines(TabLines(s.tabs), Session(s.curtab, []))
  {
    SavedLoads(s);
    HeadLineLoads(s);
  }

  lemma AppendToEmpty(s: Session)
    ensures Session(s.curtab, []).(tabs := [] + s.tabs) == s
  {
    assert [] + s.tabs == s.tabs;
  }

  /** Loading a saved session reads its lines from the start. */
  lemma SavedLoads(s: Session)
    requires |s.tabs| >= 1
    requires forall i :: 0 <= i < |s.tabs| ==> Restorable(s.tabs[i])
    ensures LoadSession(SaveSession(s)) == LoadLines(SessionLines(s), Session(0, []))
  {
    SavedLines(s);
  }

  /** The first line sets the current page, the tab lines follow. */
  lemma HeadLineLoads(s: Session)
    ensures LoadLines(SessionLines(s), Session(0, [])) == LoadLines(TabLines(s.tabs), Session(s.curtab, []))
  {
    LinesOf(s);
    HeadLineReads(s.curtab);
    LoadLinesCons(SessionLines(s), Session(0, []), Session(s.curtab, []));
  }

  /** The non-blank lines of a saved restorable session are its lines. */
  lemma SavedLines(s: Session)
    requires forall i :: 0 <= i < |s.tabs| ==> Restorable(s.tabs[i])
    ensures NonBlank(SplitOn(SaveSession(s), "\n")) == SessionLines(s)
  {
    var lines := SessionLines(s);
    LinesAreOneLine(s);
    SplitJoin(lines, '\n');
    NonBlankKeeps(lines);
  }

  /** A line the session file keeps as one non-blank line. */
  predicate OneLine(l: string) {
    '\n' !in l && PyStrip(l) != ""
  }

  /** Every line of a restorable session is one non-blank line. */
  lemma LinesAreOneLine(s: Session)
    requires forall i :: 0 <= i < |s.tabs| ==> Restorable(s.tabs[i])
    ensures forall i :: 0 <= i < |SessionLines(s)| ==> OneLine(SessionLines(s)[i])
  {
    LinesOf(s);
    HeadLineFacts(s.curtab);
    TabLinesOneLine(s.tabs);
    HeadAndTailOneLine(SessionLines(s), TabLines(s.tabs));
  }

  /** A head line and tail lines that are each one line. */
  lemma HeadAndTailOneLine(lines: seq<string>, tail: seq<string>)
    requires |lines| == |tail| + 1 && lines[1..] == tail
    requires OneLine(lines[0])
    requires forall i :: 0 <= i < |tail| ==> OneLine(tail[i])
    ensures forall i :: 0 <= i < |lines| ==> OneLine(lines[i])
  {
    forall i | 1 <= i < |lines| ensures OneLine(lines[i]) {
      assert lines[i] == tail[i - 1];
    }
  }

  /** Every tab line of restorable tabs is one non-blank line. */
  lemma TabLinesOneLine(tabs: seq<Tab>)
    requires forall i :: 0 <= i < |tabs| ==> Restorable(tabs[i])
    ensures forall i :: 0 <= i < |TabLines(tabs)| ==> OneLine(TabLines(tabs)[i])
  {
    forall i | 0 <= i < |tabs| ensures OneLine(TabLines(tabs)[i]) {
      TabLineFacts(tabs[i]);
    }
  }

  lemma LinesOf(s: Session)
    ensures SessionLines(s)[0] == CurtabPrefix + IntToDecimal(s.curtab)
    ensures SessionLines(s)[1..] == TabLines(s.tabs)
    ensures forall i :: 1 <= i < |SessionLines(s)| ==> SessionLines(s)[i] == TabLine(s.tabs[i - 1])
  {
    var h := CurtabPrefix + IntToDecimal(s.curtab);
    assert SessionLines(s) == [h] + TabLines(s.tabs);
    forall i | 1 <= i < |SessionLines(s)| ensures SessionLines(s)[i] == TabLine(s.tabs[i - 1]) {
      ConsLine(h, TabLines(s.tabs), i);
    }
  }

  lemma ConsLine(h: string, r: seq<string>, i: int)
    requires 1 <= i < |r| + 1
    ensures ([h] + r)[i] == r[i - 1]
  {
  }

  /** Reading the first line and then the rest. */
  lemma LoadLinesCons(lines: seq<string>, acc: Session, next: Session)
    requires |lines| > 0 && LoadLine(lines[0], acc) == Some(next)
    ensures LoadLines(lines, acc) == LoadLines(lines[1..], next)
  {
  }

  /** The "curtab" line is one non-blank line. */
  lemma HeadLineFacts(c: int)
    ensures OneLine(CurtabPrefix + IntToDecimal(c))
  {
    var d := IntToDecimal(c);
    PrintedChars(c);
    assert forall i :: 0 <= i < |d| ==> d[i] != '\n';
    NotBlank(CurtabPrefix + d);
  }

  /** The "curtab" line reads back its number. */
  lemma HeadLineReads(c: int)
    ensures LoadLine(CurtabPrefix + IntToDecimal(c), Session(0, [])) == Some(Session(c, []))
  {
    var d := IntToDecimal(c);
    var line := CurtabPrefix + d;
    assert StartsWith(line, "curtab");
    PrintedIsWord(c);
    LastWordAfterSpace(CurtabPrefix, d);
    PyIntRoundTrip(c, IsCSpace);
  }

  /** The printed form of a number is one word. */
  lemma PrintedIsWord(c: int)
    ensures |IntToDecimal(c)| > 0
    ensures forall i :: 0 <= i < |IntToDecimal(c)| ==> !IsCSpace(IntToDecimal(c)[i])
  {
    var d := IntToDecimal(c);
    var n := NatToDecimal(if c < 0 then -c else c);
    assert forall i :: 0 <= i < |n| ==> IsAsciiDigit(n[i]);
    if c < 0 {
      assert forall i :: 1 <= i < |d| ==> d[i] == n[i - 1];
    }
  }

  /** The last word of a text that ends in a space and then one word. */
  lemma LastWordAfterSpace(a: string, w: string)
    requires |a| > 0 && IsCSpace(a[|a| - 1])
    requires |w| > 0 && forall i :: 0 <= i < |w| ==> !IsCSpace(w[i])
    ensures LastWord(a + w) == Some(w)
  {
    var s := a + w;
    var t := RStrip(s, IsCSpace);
    assert !IsCSpace(s[|s| - 1]);
    assert t == s;
    TrailRunOf(a, w);
    assert s[|s| - |w|..] == w;
  }

  lemma {:induction false} TrailRunOf(a: string, w: string)
    requires |a| > 0 && IsCSpace(a[|a| - 1])
    requires |w| > 0 && forall i :: 0 <= i < |w| ==> !IsCSpace(w[i])
    ensures TrailRun(a + w) == |w|
    decreases |w|
  {
    var s := a + w;
    if |w| == 1 {
      assert s[|s| - 2] == a[|a| - 1];
    } else {
      assert s[|s| - 2] == w[|w| - 2];
      assert s[..|s| - 1] == a + w[..|w| - 1];
      TrailRunOf(a, w[..|w| - 1]);
    }
  }

  /** A text starting with a non-space character is not blank. */
  lemma NotBlank(s: string)
    requires |s| > 0 && !IsCSpace(s[0])
    ensures PyStrip(s) != ""
  {
    LStripNone(s, IsCSpace);
  }

  /** A restorable tab's line is one non-blank line. */
  lemma TabLineFacts(t: Tab)
    requires Restorable(t)
    ensures OneLine(TabLine(t))
  {
    var line := t.uri + "\t" + t.title;
    assert TabLine(t) == line;
    StrippedStart(t.uri);
    assert line[0] == t.uri[0];
    NotBlank(line);
  }

  /** A stripped, non-empty text does not start with a space. */
  lemma StrippedStart(u: string)
    requires PyStrip(u) == u && |u| > 0
    ensures !IsCSpace(u[0])
  {
    var l := LStrip(u, IsCSpace);
    assert |RStrip(l, IsCSpace)| <= |l| <= |u|;
    assert l == u;
  }

  /** A restorable tab's line reads back as the tab. */
  lemma TabLineReads(t: Tab, acc: Session)
    requires Restorable(t)
    ensures LoadLine(TabLine(t), acc) == Some(acc.(tabs := acc.tabs + [t]))
  {
    var line := t.uri + "\t" + t.title;
    assert TabLine(t) == line;
    assert !StartsWith(line, "curtab") by {
      if |t.uri| >= 6 {
        assert line[..6] == t.uri[..6];
      } else {
        assert line[|t.uri|] == '\t';
      }
    }
    SplitFirstAt(t.uri, '\t', t.title);
  }

  lemma {:induction false} LoadTabs(tabs: seq<Tab>, acc: Session)
    requires forall i :: 0 <= i < |tabs| ==> Restorable(tabs[i])
    ensures LoadLines(TabLines(tabs), acc) == Some(acc.(tabs := acc.tabs + tabs))
    decreases |tabs|
  {
    if |tabs| > 0 {
      TabLineReads(tabs[0], acc);
      var next := acc.(tabs := acc.tabs + [tabs[0]]);
      LoadLinesCons(TabLines(tabs), acc, next);
      assert TabLines(tabs)[1..] == TabLines(tabs[1..]);
      LoadTabs(tabs[1..], next);
      ConsAssoc(acc.tabs, tabs);
    } else {
      assert acc.tabs + tabs == acc.tabs;
    }
  }

  lemma ConsAssoc(a: seq<Tab>, b: seq<Tab>)
    requires |b| > 0
    ensures (a + [b[0]]) + b[1..] == a + b
  {
    assert b == [b[0]] + b[1..];
  }

  /** Non-blank lines are all kept. */
  lemma {:induction false} NonBlankKeeps(lines: seq<string>)
    requires forall i :: 0 <= i < |lines| ==> OneLine(lines[i])
    ensures NonBlank(lines) == lines
    decreases |lines|
  {
    if |lines| > 0 {
      NonBlankKeeps(lines[1..]);
      assert [lines[0]] + lines[1..] == lines;
    }
  }

  /** Splitting a join of one-line pieces at the line separator gives the
      pieces back. */
  lemma {:induction false} SplitJoin(parts: seq<string>, c: char)
    requires |parts| >= 1
    requires forall i :: 0 <= i < |parts| ==> c !in parts[i]
    ensures SplitOn(Join(parts, [c]), [c]) == parts
    decreases |parts|
  {
    if |parts| == 1 {
      AbsentChar(parts[0], c);
      SplitOnAbsent(parts[0], [c]);
    } else {
      var rest := Join(parts[1..], [c]);
      assert Join(parts, [c]) == parts[0] + [c] + rest;
      SplitAfterFirst(parts[0], c, rest);
      SplitJoin(parts[1..], c);
      assert [parts[0]] + parts[1..] == parts;
    }
  }

  /** Splitting at the first separator, which ends a separator-free piece. */
  lemma {:induction false} SplitAfterFirst(a: string, c: char, b: string)
    requires c !in a
    ensures SplitOn(a + [c] + b, [c]) == [a] + SplitOn(b, [c])
    decreases |a|
  {
    var s := a + [c] + b;
    if |a| == 0 {
      assert s[..1] == [c];
      assert s[1..] == b;
    } else {
      assert s[..1] != [c] by {
        assert s[0] == a[0];
      }
      assert s[1..] == a[1..] + [c] + b;
      SplitAfterFirst(a[1..], c, b);
      assert [a[0]] + a[1..] == a;
    }
  }

  lemma AbsentChar(s: string, c: char)
    requires c !in s
    ensures !Occurs(s, [c])
  {
    forall i | 0 <= i <= |s| ensures !OccursAt(s, [c], i) {
      if i + 1 <= |s| {
        assert s[i..i + 1][0] == s[i];
      }
    }
  }
}
