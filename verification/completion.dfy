/** Tab completion of uzbl/plugins/completion.py: the words known to the
    completer (builtin commands and `@`-prefixed config keys), the keyword
    being typed before the cursor, and the three completion levels a
    repeated START_COMPLETION walks through: extend the keyword to the
    longest common continuation of its candidates, show the candidate
    list, and complete a unique candidate. The config variable
    `completion_list` is part of the state; the KEYCMD_UPDATE events the
    keycmd plugin raises after an injection are not. */
module Completion {
  import opened Wrappers
  import opened Text
  import opened PySeq
  import opened Util
  import KL = Keylet

  /** The completion levels `NONE, ONCE, LIST, COMPLETE`. */
  const LevelNone: nat := 0
  const LevelOnce: nat := 1
  const LevelList: nat := 2
  const LevelComplete: nat := 3

  /** `[\w_]` on ASCII text. */
  predicate IsWordChar(c: char)
  {
    IsAsciiAlnum(c) || c == '_'
  }

  /** A non-empty run of word characters: `[\w_]+`. */
  predicate WordRun(t: string)
  {
    |t| > 0 && forall k | 0 <= k < |t| :: IsWordChar(t[k])
  }

  /** `set[\s]+[\w_]+` after the "set": whitespace, then a word run. */
  predicate SetTail(t: string)
  {
    var n := Span(t, IsPySpace);
    n > 0 && WordRun(t[n..])
  }

  /** `t` matches one alternative of FIND_SEGMENT in full:
      `\@[\w_]+`, `set[\s]+[\w_]+` or `[\w_]+`. */
  predicate SegmentMatch(t: string)
  {
    WordRun(t)
    || (|t| > 0 && t[0] == '@' && WordRun(t[1..]))
    || (|t| > 3 && t[..3] == "set" && SetTail(t[3..]))
  }

  /** Where `$` lets a match end: before a final newline, else at the end. */
  function LineEnd(s: string): (r: nat)
    ensures r <= |s| && (r < |s| ==> r == |s| - 1 && s[r] == '\n')
  {
    if |s| > 0 && s[|s| - 1] == '\n' then |s| - 1 else |s|
  }

  /** The leftmost position from `i` on where a segment ending at `e`
      starts; `findall` of the `$`-anchored pattern finds that one match. */
  function FindSegment(s: string, e: nat, i: nat): (r: Option<nat>)
    requires i <= e <= |s|
    ensures r.Some? ==> i <= r.value < e && SegmentMatch(s[r.value..e])
    ensures r.Some? ==> forall k | i <= k < r.value :: !SegmentMatch(s[k..e])
    ensures r.None? ==> forall k | i <= k < e :: !SegmentMatch(s[k..e])
    decreases e - i
  {
    if i == e then None
    else if SegmentMatch(s[i..e]) then Some(i)
    else
      var r := FindSegment(s, e, i + 1);
      NoSegmentFrom(s, e, i, if r.Some? then r.value else e);
      r
  }

  /** No segment starts at `i`, nor from `i + 1` up to `j`. */
  lemma NoSegmentFrom(s: string, e: nat, i: nat, j: nat)
    requires i < j <= e <= |s| && !SegmentMatch(s[i..e])
    requires forall k | i + 1 <= k < j :: !SegmentMatch(s[k..e])
    ensures forall k | i <= k < j :: !SegmentMatch(s[k..e])
  {
  }

  /** `lstrip` removes exactly the leading span of whitespace. */
  lemma {:induction false} LStripIsDropSpan(s: string, sp: char -> bool)
    ensures LStrip(s, sp) == s[Span(s, sp)..]
  {
    if |s| > 0 && sp(s[0]) {
      LStripIsDropSpan(s[1..], sp);
      assert s[1..][Span(s[1..], sp)..] == s[1 + Span(s[1..], sp)..];
    }
  }

  /** The one match of `findall` with the `$`-anchored pattern: the
      segment from the leftmost position where one starts, or "". */
  function Segment(left: string): (r: string)
    ensures var e := LineEnd(left);
      && (r == "" <==> forall k | 0 <= k < e :: !SegmentMatch(left[k..e]))
      && (r != "" ==> SegmentMatch(r) && EndsWith(left[..e], r))
  {
    var e := LineEnd(left);
    match FindSegment(left, e, 0)
    case None => ""
    case Some(i) =>
      assert left[..e][i..] == left[i..e];
      left[i..e]
  }

  /** The search finds the first position where a segment starts. */
  lemma {:induction false} FindSegmentAt(s: string, e: nat, i: nat, j: nat)
    requires i <= j < e <= |s| && SegmentMatch(s[j..e])
    requires forall k | i <= k < j :: !SegmentMatch(s[k..e])
    ensures FindSegment(s, e, i) == Some(j)
    decreases j - i
  {
    if i < j {
      FindSegmentAt(s, e, i + 1, j);
    }
  }

  /** A segment that reaches the end of the text and starts where no
      earlier one does is the one found. */
  lemma SegmentAt(left: string, j: nat)
    requires j < |left| && left[|left| - 1] != '\n' && SegmentMatch(left[j..])
    requires forall k | 0 <= k < j :: !SegmentMatch(left[k..])
    ensures Segment(left) == left[j..]
  {
    assert left[j..|left|] == left[j..];
    forall k | 0 <= k < j ensures !SegmentMatch(left[k..|left|]) {
      assert left[k..|left|] == left[k..];
    }
    FindSegmentAt(left, |left|, 0, j);
  }

  /** The variable named in a "set " segment: what follows the whitespace,
      a word run that ends the segment. */
  lemma SetModeName(partial: string)
    requires SegmentMatch(partial) && StartsWith(partial, "set ")
    ensures var name := LStrip(partial[4..], IsPySpace);
      WordRun(name) && EndsWith(partial, name)
  {
    assert partial[3] == ' ' && partial[0] == 's';
    var t := partial[3..];
    assert SetTail(t);
    var n := Span(t, IsPySpace);
    assert partial[4..] == t[1..];
    assert Span(t[1..], IsPySpace) == n - 1;
    LStripIsDropSpan(t[1..], IsPySpace);
    assert t[1..][n - 1..] == t[n..];
    assert partial[3 + n..] == t[n..];
  }

  /** A suffix of a suffix is a suffix. */
  lemma EndsWithTrans(a: string, b: string, c: string)
    requires EndsWith(a, b) && EndsWith(b, c)
    ensures EndsWith(a, c)
  {
    assert a[|a| - |c|..] == a[|a| - |b|..][|b| - |c|..];
  }

  /** `get_incomplete_keyword` on the text left of the cursor: the segment
      FIND_SEGMENT finds, or "" when there is none; a segment beginning
      "set " gives the variable name after the whitespace, with an '@', and
      `True`. Every alternative starts with a non-space, so the `lstrip` of
      the segment itself changes nothing and is not repeated here. */
  function Keyword(left: string): (r: (string, bool))
    ensures var e := LineEnd(left);
      && (r.0 == "" <==> forall k | 0 <= k < e :: !SegmentMatch(left[k..e]))
      && (r.1 ==> |r.0| > 1 && r.0[0] == '@' && WordRun(r.0[1..]) && EndsWith(left[..e], r.0[1..]))
      && (!r.1 && r.0 != "" ==> SegmentMatch(r.0) && EndsWith(left[..e], r.0) && !StartsWith(r.0, "set "))
  {
    var partial := Segment(left);
    if StartsWith(partial, "set ") then
      var name := LStrip(partial[4..], IsPySpace);
      SetModeName(partial);
      EndsWithTrans(left[..LineEnd(left)], partial, name);
      assert ("@" + name)[1..] == name;
      ("@" + name, true)
    else (partial, false)
  }

  /** `get_incomplete_keyword` on a keylet. */
  function IncompleteKeyword(k: KL.Keylet): (r: (string, bool))
    ensures r == Keyword(Take(k.keycmd, k.cursor))
    ensures r.0 != "" ==> |r.0| <= |k.keycmd| + 1
  {
    Keyword(Take(k.keycmd, k.cursor))
  }

  /** A word run has no space, so it never starts with "set ". */
  lemma WordRunNotSet(name: string)
    requires WordRun(name)
    ensures !StartsWith(name, "set ")
  {
    assert |name| < 4 || !IsPySpace(name[3]);
  }

  /** A word typed after a character that is neither a word character, nor
      '@', nor whitespace (or typed alone) is the keyword. */
  lemma WordKeyword(pre: string, name: string)
    requires WordRun(name)
    requires |pre| > 0 ==> var c := pre[|pre| - 1]; !IsWordChar(c) && c != '@' && !IsPySpace(c)
    ensures Keyword(pre + name) == (name, false)
  {
    var left := pre + name;
    assert left[|pre|..] == name;
    assert left[|left| - 1] == name[|name| - 1];
    forall k | 0 <= k < |pre| ensures !SegmentMatch(left[k..]) {
      NoWordSegment(left, |pre| - 1, k);
    }
    SegmentAt(left, |pre|);
    WordRunNotSet(name);
  }

  /** A segment cannot reach across a character that is neither a word
      character, nor '@', nor whitespace. */
  lemma NoWordSegment(left: string, q: nat, k: nat)
    requires k <= q < |left|
    requires !IsWordChar(left[q]) && left[q] != '@' && !IsPySpace(left[q])
    ensures !SegmentMatch(left[k..])
  {
    var t := left[k..];
    assert t[q - k] == left[q];
    if |t| > 3 && t[..3] == "set" {
      assert q - k >= 3;
      var u := t[3..];
      assert u[q - k - 3] == left[q];
      var n := Span(u, IsPySpace);
      assert n <= q - k - 3;
      assert u[n..][q - k - 3 - n] == left[q];
    }
  }

  /** An '@' and a word: the variable reference is the keyword, whatever
      comes before it. */
  lemma AtKeyword(pre: string, name: string)
    requires WordRun(name)
    ensures Keyword(pre + "@" + name) == ("@" + name, false)
  {
    var left := pre + "@" + name;
    assert left[|pre|..] == "@" + name;
    assert ("@" + name)[1..] == name;
    assert left[|left| - 1] == name[|name| - 1];
    forall k | 0 <= k < |pre| ensures !SegmentMatch(left[k..]) {
      NoAtSegment(left, |pre|, k);
    }
    SegmentAt(left, |pre|);
    assert !StartsWith("@" + name, "set ") by {
      assert ("@" + name)[0] == '@';
    }
  }

  /** A segment starting before an '@' cannot contain it. */
  lemma NoAtSegment(left: string, q: nat, k: nat)
    requires k < q < |left| && left[q] == '@'
    ensures !SegmentMatch(left[k..])
  {
    var t := left[k..];
    assert t[q - k] == '@';
    if |t| > 3 && t[..3] == "set" {
      assert q - k >= 3;
      var u := t[3..];
      assert u[q - k - 3] == '@';
      var n := Span(u, IsPySpace);
      assert n <= q - k - 3;
      assert u[n..][q - k - 3 - n] == '@';
    }
  }

  /** "set", whitespace starting with a space, and a word: the keyword is
      the word as a variable reference, in set mode. */
  lemma SetKeyword(pre: string, sp: string, name: string, seg: string)
    requires |sp| > 0 && sp[0] == ' ' && forall i | 0 <= i < |sp| :: IsPySpace(sp[i])
    requires WordRun(name) && seg == "set" + sp + name
    ensures Keyword(pre + seg) == ("@" + name, true)
  {
    SetSegment(sp, name, seg);
    SetSegmentFound(pre, sp, name, seg);
    KeywordOfSetSegment(pre + seg, seg, name);
  }

  /** The keyword of a text whose segment is a set-mode one. */
  lemma KeywordOfSetSegment(left: string, seg: string, name: string)
    requires Segment(left) == seg && StartsWith(seg, "set ") && LStrip(seg[4..], IsPySpace) == name
    ensures Keyword(left) == ("@" + name, true)
  {
  }

  /** The segment found in `pre + "set" + sp + name` is all but `pre`. */
  lemma SetSegmentFound(pre: string, sp: string, name: string, seg: string)
    requires WordRun(name) && seg == "set" + sp + name && SegmentMatch(seg)
    requires |sp| > 0 && sp[0] == ' '
    ensures Segment(pre + seg) == seg
  {
    var left := pre + seg;
    assert left[|pre|..] == seg;
    assert left[|left| - 1] == name[|name| - 1];
    assert left[|pre| + 2] == seg[2] == 't' && left[|pre| + 3] == seg[3] == ' ';
    forall k | 0 <= k < |pre| ensures !SegmentMatch(left[k..]) {
      NoSetSegment(left, |pre|, k);
    }
    SegmentAt(left, |pre|);
  }

  /** "set", spaces and a word form a set-mode segment naming the word. */
  lemma SetSegment(sp: string, name: string, seg: string)
    requires |sp| > 0 && sp[0] == ' ' && forall i | 0 <= i < |sp| :: IsPySpace(sp[i])
    requires WordRun(name) && seg == "set" + sp + name
    ensures SegmentMatch(seg) && StartsWith(seg, "set ")
    ensures LStrip(seg[4..], IsPySpace) == name
  {
    var u := seg[3..];
    assert u == sp + name;
    SpanOfSpaces(sp, name);
    assert u[|sp|..] == name;
    assert seg[..3] == "set";
    assert SetTail(u);
    assert seg[..4] == "set ";
    assert seg[4..] == u[1..];
    assert Span(u[1..], IsPySpace) == |sp| - 1;
    LStripIsDropSpan(u[1..], IsPySpace);
    assert u[1..][|sp| - 1..] == name;
  }

  /** The whitespace span of spaces followed by a word is the spaces. */
  lemma SpanOfSpaces(sp: string, name: string)
    requires forall i | 0 <= i < |sp| :: IsPySpace(sp[i])
    requires WordRun(name)
    ensures Span(sp + name, IsPySpace) == |sp|
  {
    var u := sp + name;
    assert u[|sp|] == name[0];
    assert forall i | 0 <= i < |sp| :: u[i] == sp[i];
  }

  /** A segment starting before the "t" of a "set" followed by a space
      cannot reach the end. */
  lemma NoSetSegment(left: string, q: nat, k: nat)
    requires k < q && q + 3 < |left| && left[q + 2] == 't' && left[q + 3] == ' '
    ensures !SegmentMatch(left[k..])
  {
    var t := left[k..];
    var p := q + 3 - k;
    assert t[p] == ' ' && t[p - 1] == 't';
    if |t| > 3 && t[..3] == "set" {
      var u := t[3..];
      assert p > 3;
      assert u[p - 4] == 't' && u[p - 3] == ' ';
      var n := Span(u, IsPySpace);
      assert n <= p - 4;
      assert u[n..][p - 3 - n] == ' ';
    }
  }

  /** The completion tests' keyword of "sp": a plain word outside set mode. */
  lemma KeywordOfPlainWord(a: string)
    requires a == "sp"
    ensures Keyword(a) == ("sp", false)
  {
    WordKeyword("", a);
    assert "" + a == a;
  }

  /** The completion tests' keyword of "set @sp": outside set
      mode, because the '@' is no word character. */
  lemma KeywordOfAtWord(b: string)
    requires b == "set @sp"
    ensures Keyword(b) == ("@sp", false)
  {
    AtKeyword("set ", "sp");
    assert "set " + "@" + "sp" == b;
    assert "@" + "sp" == "@sp";
  }

  /** The completion tests' keyword of "set Some": a set-mode name. */
  lemma KeywordOfSetName(c: string)
    requires c == "set Some"
    ensures Keyword(c) == ("@Some", true)
  {
    SetKeyword("", " ", "Some", c);
    assert "" + c == c;
    AtSome();
  }

  lemma AtSome()
    ensures "@" + "Some" == "@Some"
  {
  }

  /** The completer: its words (a Python set; kept here in insertion
      order, without duplicates), the lock against re-entry, the level,
      and the `completion_list` config value it last asked for. */
  datatype State = State(words: seq<string>, locked: bool, level: nat, list: Option<string>)

  /** `CompletionPlugin.__init__`. */
  const Fresh: State := State([], false, LevelNone, None)

  /** `set.add`. */
  function AddWord(words: seq<string>, w: string): (r: seq<string>)
    ensures forall x :: x in r <==> x in words || x == w
    ensures w in words ==> r == words
  {
    if w in words then words else words + [w]
  }

  /** `add_config_key`: the key is offered as "@key". */
  function AddConfigKey(c: State, key: string): (r: State)
    ensures forall x :: x in r.words <==> x in c.words || x == "@" + key
    ensures r.level == c.level && r.list == c.list && r.locked == c.locked
  {
    c.(words := AddWord(c.words, "@" + key))
  }

  /** `add_builtins` with the command names already split. */
  function AddBuiltins(c: State, builtins: seq<string>): (r: State)
    ensures forall x :: x in r.words <==> x in c.words || x in builtins
    ensures r.level == c.level && r.list == c.list && r.locked == c.locked
    decreases |builtins|
  {
    if |builtins| == 0 then c
    else AddBuiltins(c.(words := AddWord(c.words, builtins[0])), builtins[1..])
  }

  /** `stop_completion`: level NONE and no completion list. */
  function Stop(c: State): (r: State)
    ensures r.level == LevelNone && r.list.None?
    ensures r.words == c.words && r.locked == c.locked
  {
    c.(level := LevelNone, list := None)
  }

  /** One level up, never past COMPLETE. */
  function Raise(level: nat): (r: nat)
    ensures level < LevelComplete ==> r == level + 1
    ensures level >= LevelComplete ==> r == level
  {
    if level < LevelComplete then level + 1 else level
  }

  /** The candidates: the known words starting with the keyword, in order. */
  function Hints(words: seq<string>, partial: string): (r: seq<string>)
    ensures forall h :: h in r <==> h in words && StartsWith(h, partial)
    ensures |r| <= |words|
  {
    if |words| == 0 then []
    else
      var rest := Hints(words[1..], partial);
      assert forall h :: h in words <==> h == words[0] || h in words[1..];
      if StartsWith(words[0], partial) then [words[0]] + rest else rest
  }

  /** Python's `<` on strings: code point by code point, a proper prefix
      first. */
  predicate LexLess(a: string, b: string)
    decreases |a|
  {
    if |a| == 0 then |b| > 0
    else |b| > 0 && (a[0] < b[0] || (a[0] == b[0] && LexLess(a[1..], b[1..])))
  }

  /** `<` on strings is asymmetric. */
  lemma {:induction false} LexAsymmetric(a: string, b: string)
    ensures LexLess(a, b) ==> !LexLess(b, a)
    decreases |a|
  {
    if |a| > 0 && |b| > 0 && a[0] == b[0] {
      LexAsymmetric(a[1..], b[1..]);
    }
  }

  /** The order `sorted` on `(len(h), h)` pairs: shorter first, then `<`. */
  predicate ShorterFirst(a: string, b: string)
  {
    |a| < |b| || (|a| == |b| && LexLess(a, b))
  }

  /** `sorted([(len(h), h) for h in hints])[0][1]`: a shortest hint. */
  function Shortest(hints: seq<string>): (r: string)
    requires |hints| > 0
    ensures r in hints
    ensures forall h | h in hints :: |r| <= |h|
  {
    if |hints| == 1 then hints[0]
    else
      var rest := Shortest(hints[1..]);
      assert forall h :: h in hints <==> h == hints[0] || h in hints[1..];
      if ShorterFirst(rest, hints[0]) then rest else hints[0]
  }

  /** The inner loop of `start_completion` from position `i`: the
      characters of `smallest` every hint shares, up to the first
      disagreement or the end of `smallest`. */
  function CommonFrom(hints: seq<string>, smallest: string, i: nat): (r: string)
    requires i <= |smallest|
    requires forall h | h in hints :: |smallest| <= |h|
    ensures i + |r| <= |smallest| && r == smallest[i..i + |r|]
    ensures forall h, j | h in hints && i <= j < i + |r| :: h[j] == smallest[j]
    ensures i + |r| == |smallest| || exists h | h in hints :: h[i + |r|] != smallest[i + |r|]
    decreases |smallest| - i
  {
    if i == |smallest| then ""
    else if forall h | h in hints :: h[i] == smallest[i] then
      var rest := CommonFrom(hints, smallest, i + 1);
      assert smallest[i..i + 1 + |rest|] == [smallest[i]] + smallest[i + 1..i + 1 + |rest|];
      [smallest[i]] + rest
    else ""
  }

  /** A hint that starts with the keyword and agrees with `smallest` on
      the positions of the common part starts with both. */
  lemma StartsWithCommon(h: string, partial: string, smallest: string, r: string)
    requires StartsWith(h, partial) && |partial| + |r| <= |smallest| <= |h|
    requires r == smallest[|partial|..|partial| + |r|]
    requires forall j | |partial| <= j < |partial| + |r| :: h[j] == smallest[j]
    ensures StartsWith(h, partial + r)
  {
    var n := |partial| + |r|;
    forall j | 0 <= j < n ensures h[j] == (partial + r)[j] {
      if j >= |partial| {
        assert r[j - |partial|] == smallest[j];
      }
    }
    assert h[..n] == partial + r;
  }

  /** The common continuation `start_completion` injects: every hint
      continues the keyword with it, and no hint-wide continuation is
      longer, since one hint ends there or two hints differ there. */
  function CommonExtension(hints: seq<string>, partial: string): (r: string)
    requires |hints| > 0 && forall h | h in hints :: StartsWith(h, partial)
    ensures forall h | h in hints :: StartsWith(h, partial + r)
    ensures var n := |partial| + |r|;
      (exists h | h in hints :: |h| == n)
      || (exists h1, h2 | h1 in hints && h2 in hints :: |h1| > n && |h2| > n && h1[n] != h2[n])
  {
    var smallest := Shortest(hints);
    assert StartsWith(smallest, partial);
    var r := CommonFrom(hints, smallest, |partial|);
    var n := |partial| + |r|;
    forall h | h in hints ensures StartsWith(h, partial + r) {
      StartsWithCommon(h, partial, smallest, r);
    }
    assert n == |smallest| || exists h | h in hints :: |h| > n && |smallest| > n && h[n] != smallest[n];
    r
  }

  /** Adjacent elements in `<=` order. */
  predicate Sorted(s: seq<string>)
  {
    forall i | 0 <= i < |s| - 1 :: !LexLess(s[i + 1], s[i])
  }

  /** Inserts `x` before the first element not below it. */
  function Insert(x: string, s: seq<string>): (r: seq<string>)
    requires Sorted(s)
    ensures Sorted(r) && |r| == |s| + 1
    ensures r[0] == x || (|s| > 0 && r[0] == s[0])
  {
    if |s| == 0 || !LexLess(s[0], x) then [x] + s
    else
      LexAsymmetric(s[0], x);
      var rest := Insert(x, s[1..]);
      [s[0]] + rest
  }

  /** `list.sort()` on strings. */
  function Sort(s: seq<string>): (r: seq<string>)
    ensures Sorted(r) && |r| == |s|
  {
    if |s| == 0 then [] else Insert(s[0], Sort(s[1..]))
  }

  /** Inserting adds exactly the one element. */
  lemma {:induction false} InsertCounts(x: string, s: seq<string>)
    requires Sorted(s)
    ensures multiset(Insert(x, s)) == multiset(s) + multiset{x}
    decreases |s|
  {
    if |s| > 0 && LexLess(s[0], x) {
      InsertCounts(x, s[1..]);
      assert s == [s[0]] + s[1..];
    }
  }

  /** Sorting permutes. */
  lemma {:induction false} SortPermutes(s: seq<string>)
    ensures multiset(Sort(s)) == multiset(s)
  {
    if |s| > 0 {
      SortPermutes(s[1..]);
      InsertCounts(s[0], Sort(s[1..]));
      assert s == [s[0]] + s[1..];
    }
  }

  /** Whether `c` is '@'. */
  predicate IsAt(c: char)
  {
    c == '@'
  }

  /** The formatter's `escape`: a backslash before each '@'. */
  function EscapeAt(s: string): (r: string)
    ensures r == Escaped(s, IsAt)
  {
    ReplaceCharIsSubst(s, '@', "\\@");
    EscapedIsSubst(s);
    ReplaceAll(s, "@", "\\@")
  }

  /** Escaping '@' is substituting "\@" for it. */
  lemma {:induction false} EscapedIsSubst(s: string)
    ensures Escaped(s, IsAt) == SubstChar(s, '@', "\\@")
  {
    if |s| > 0 {
      EscapedIsSubst(s[1..]);
    }
  }

  /** `ITEM_FORMAT % (escape(h[:p]), h[p:])`. */
  function Item(h: string, p: nat): (r: string)
    ensures var head := "<span @hint_style>" + EscapeAt(Take(h, p)) + "</span>";
      StartsWith(r, head) && r[|head|..] == Drop(h, p)
  {
    var head := "<span @hint_style>" + EscapeAt(Take(h, p)) + "</span>";
    var r := head + Drop(h, p);
    assert r[..|head|] == head;
    r
  }

  /** The items of a candidate list. */
  function Items(hs: seq<string>, p: nat): (r: seq<string>)
    ensures |r| == |hs| && forall i | 0 <= i < |hs| :: r[i] == Item(hs[i], p)
  {
    if |hs| == 0 then [] else [Item(hs[0], p)] + Items(hs[1..], p)
  }

  /** `CompletionListFormatter.format`: the candidates in sorted order, the
      part already typed marked up, in one span. */
  function Format(partial: string, hints: seq<string>): (r: string)
    ensures StartsWith(r, "<span> ") && EndsWith(r, " </span>")
  {
    var body := Join(Items(Sort(hints), |partial|), " ");
    var r := "<span> " + body + " </span>";
    assert r[..7] == "<span> ";
    assert r[|r| - 8..] == " </span>";
    r
  }

  /** `update_completion_list`. */
  function UpdateList(c: State, k: KL.Keylet): (r: State)
    ensures IncompleteKeyword(k).0 == "" ==> r == Stop(c)
    ensures IncompleteKeyword(k).0 != "" && c.level < LevelList ==> r == c
    ensures IncompleteKeyword(k).0 != "" && c.level >= LevelList ==>
      var hints := Hints(c.words, IncompleteKeyword(k).0);
      r == c.(list := if |hints| == 0 then None else Some(Format(IncompleteKeyword(k).0, hints)))
  {
    var partial := IncompleteKeyword(k).0;
    if partial == "" then Stop(c)
    else if c.level < LevelList then c
    else
      var hints := Hints(c.words, partial);
      if |hints| == 0 then c.(list := None)
      else c.(list := Some(Format(partial, hints)))
  }

  /** `complete_completion`: the rest of the hint and a space (" = " in
      set mode) at the cursor, and completion stops. */
  function CompleteCompletion(c: State, k: KL.Keylet, partial: string, hint: string, setMode: bool): (r: Started)
    ensures r.k == KL.InsertKeycmd(k, Drop(hint, |partial|) + (if setMode then " = " else " "))
    ensures r.c == Stop(c)
  {
    var remainder := Drop(hint, |partial|) + (if setMode then " = " else " ");
    Started(Stop(c), KL.InsertKeycmd(k, remainder))
  }

  /** `partial_completion`: the rest of the hint at the cursor. */
  function PartialCompletion(k: KL.Keylet, partial: string, hint: string): (r: KL.Keylet)
    ensures StartsWith(hint, partial) ==> r == KL.InsertKeycmd(k, hint[|partial|..])
  {
    KL.InsertKeycmd(k, Drop(hint, |partial|))
  }

  /** The completer and the keylet after a step. */
  datatype Started = Started(c: State, k: KL.Keylet)

  /** `start_completion` as written. `None` is the NameError of line 148,
      which reads the undefined name `completion` whenever the keyword is
      itself one of several candidates. */
  function StartCompletion(c: State, k: KL.Keylet): (r: Option<Started>)
    ensures c.locked ==> r == Some(Started(c, k))
    ensures !c.locked && IncompleteKeyword(k).0 == "" ==> r == Some(Started(Stop(c), k))
    ensures !c.locked && IncompleteKeyword(k).0 != "" ==>
      var (partial, setMode) := IncompleteKeyword(k);
      var hints := Hints(c.words, partial);
      && (|hints| == 0 ==> r == Some(Started(c.(level := Raise(c.level)), k)))
      && (|hints| == 1 ==>
            (r.Some? && r.value.c.level == LevelNone && r.value.c.list.None?
             && r.value.k == KL.InsertKeycmd(k, Drop(hints[0], |partial|) + (if setMode then " = " else " "))))
      && (|hints| > 1 && partial in hints ==> r.None?)
      && (|hints| > 1 && partial !in hints ==>
            (r.Some?
             && r.value.k == KL.InsertKeycmd(k, CommonExtension(hints, partial))
             && (r.value.c.level == Raise(c.level) || r.value.c.level == LevelNone)))
  {
    if c.locked then Some(Started(c, k))
    else
      var (partial, setMode) := IncompleteKeyword(k);
      if partial == "" then Some(Started(Stop(c), k))
      else
        var c1 := c.(level := Raise(c.level));
        var hints := Hints(c1.words, partial);
        if |hints| == 0 then Some(Started(c1, k))
        else if |hints| == 1 then Some(CompleteCompletion(c1, k, partial, hints[0], setMode))
        else if partial in hints then None
        else Some(Extend(c1, k, partial, hints))
  }

  /** The end of `start_completion` with several candidates: the common
      continuation is injected when there is one, then the list is
      refreshed. */
  function Extend(c: State, k: KL.Keylet, partial: string, hints: seq<string>): (r: Started)
    requires |hints| > 0 && forall h | h in hints :: StartsWith(h, partial)
    ensures r.k == KL.InsertKeycmd(k, CommonExtension(hints, partial))
    ensures r.c == UpdateList(c, r.k)
  {
    var common := CommonExtension(hints, partial);
    var k1 := if common != "" then PartialCompletion(k, partial, partial + common) else k;
    assert (partial + common)[|partial|..] == common;
    assert common == "" ==> KL.InsertKeycmd(k, common) == k by {
      if common == "" {
        TakeDrop(k.keycmd, k.cursor);
        assert KL.InjectStr(k.keycmd, k.cursor, "") == k.keycmd;
      }
    }
    Started(UpdateList(c, k1), k1)
  }

  /** `start_completion` as evidently intended at line 148: a keyword that
      is itself one of several candidates is completed as it stands once
      the level reaches COMPLETE, and otherwise handled like any other. */
  function StartCompletionIntended(c: State, k: KL.Keylet): (r: Started)
    ensures c.locked ==> r == Started(c, k)
    ensures StartCompletion(c, k).Some? ==> r == StartCompletion(c, k).value
  {
    if c.locked then Started(c, k)
    else
      var (partial, setMode) := IncompleteKeyword(k);
      if partial == "" then Started(Stop(c), k)
      else
        var c1 := c.(level := Raise(c.level));
        var hints := Hints(c1.words, partial);
        if |hints| == 0 then Started(c1, k)
        else if |hints| == 1 then CompleteCompletion(c1, k, partial, hints[0], setMode)
        else if partial in hints && c1.level == LevelComplete then CompleteCompletion(c1, k, partial, partial, setMode)
        else Extend(c1, k, partial, hints)
  }

  /** A keyword that is one of two candidates, the other extending it:
      the code as written fails on the undefined name, while the intended
      code completes the keyword as it stands once the level reaches
      COMPLETE. */
  lemma ExactHintFails(c: State, k: KL.Keylet, a: string, x: string)
    requires WordRun(a) && x != "" && c.words == [a, a + x] && !c.locked && c.level == LevelList
    requires k.keycmd == a && k.cursor == |a|
    ensures StartCompletion(c, k).None?
    ensures StartCompletionIntended(c, k).k.keycmd == a + " "
    ensures StartCompletionIntended(c, k).c.level == LevelNone
  {
    ExactHintSetting(c, k, a, x);
    var c1 := c.(level := LevelComplete);
    assert StartCompletionIntended(c, k) == CompleteCompletion(c1, k, a, a, false);
    assert Drop(a, |a|) + " " == " ";
    assert KL.InjectStr(a, |a|, " ") == a + " " by {
      assert InjectStrEnd(a, " ") == a + " ";
    }
  }

  /** The keyword and the candidates of `ExactHintFails`. */
  lemma ExactHintSetting(c: State, k: KL.Keylet, a: string, x: string)
    requires WordRun(a) && x != "" && c.words == [a, a + x]
    requires k.keycmd == a && k.cursor == |a|
    ensures IncompleteKeyword(k) == (a, false)
    ensures Hints(c.words, a) == [a, a + x]
  {
    WordKeyword("", a);
    assert "" + a == a;
    assert Take(k.keycmd, k.cursor) == a;
    TwoHints(c.words, a, x);
  }

  /** A word and an extension of it are both candidates for the word. */
  lemma TwoHints(words: seq<string>, a: string, x: string)
    requires words == [a, a + x]
    ensures Hints(words, a) == [a, a + x]
  {
    assert StartsWith(a + x, a);
    assert words[1..] == [a + x] && words[1..][1..] == [];
  }

  /** That failure with "ab" typed and "ab" and "abc" known. */
  lemma ExactHintAmongTwoFails(c: State, k: KL.Keylet)
    requires c.words == ["ab", "abc"] && !c.locked && c.level == LevelList
    requires k.keycmd == "ab" && k.cursor == 2
    ensures StartCompletion(c, k).None?
  {
    assert "ab" + "c" == "abc";
    ExactHintFails(c, k, "ab", "c");
  }

  /** Injecting at the end appends. */
  function InjectStrEnd(s: string, inj: string): (r: string)
    ensures r == s + inj
    ensures r == KL.InjectStr(s, |s|, inj)
  {
    assert Take(s, |s|) == s && Drop(s, |s|) == "";
    s + inj
  }
}
