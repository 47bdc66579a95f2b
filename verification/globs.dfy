/** The text layer of key binds: the `<Mod>` tokens that open a modifier
    bind and the `<prompt:set>` / `<prompt!command>` markers that split a
    bind into stages. */
module Globs {
  import opened Wrappers
  import opened Text
  import Arguments

  /** `[A-Za-z0-9-_]`, the characters after the first of a modifier
      name. */
  predicate IsModChar(c: char)
  {
    IsAsciiAlnum(c) || c == '-' || c == '_'
  }

  /** A whole modifier token: '<', an upper-case letter, modifier
      characters, '>'. */
  predicate IsModToken(t: string)
  {
    |t| >= 3 && t[0] == '<' && IsAsciiUpper(t[1]) && t[|t| - 1] == '>'
    && forall k :: 2 <= k < |t| - 1 ==> IsModChar(t[k])
  }

  /** The end of the run of modifier characters from `a`. */
  function ModRunEnd(s: string, a: nat): (r: nat)
    requires a <= |s|
    ensures a <= r <= |s| && (r < |s| ==> !IsModChar(s[r]))
    ensures forall k :: a <= k < r ==> IsModChar(s[k])
    decreases |s| - a
  {
    if a < |s| && IsModChar(s[a]) then ModRunEnd(s, a + 1) else a
  }

  /** `MOD_START(s)` of `^<([A-Z][A-Za-z0-9-_]*)>`: the end of the leading
      modifier token, if there is one. */
  function ModStart(s: string): (r: Option<nat>)
    ensures r.Some? ==> 3 <= r.value <= |s| && IsModToken(s[..r.value])
    ensures r.None? ==> forall k :: 0 <= k <= |s| ==> !IsModToken(s[..k])
  {
    if |s| >= 2 && s[0] == '<' && IsAsciiUpper(s[1]) then
      var e := ModRunEnd(s, 2);
      if e < |s| && s[e] == '>' then Some(e + 1)
      else
        assert forall k :: 0 <= k <= |s| ==> !IsModToken(s[..k]) by {
          forall k | 0 <= k <= |s| && IsModToken(s[..k]) ensures false {
            assert s[..k][k - 1] == s[k - 1];
            assert forall j :: 2 <= j < k - 1 ==> s[..k][j] == s[j];
          }
        }
        None
    else
      None
  }

  /** `ismodbind(glob)`. */
  predicate IsModBind(glob: string)
  {
    ModStart(glob).Some?
  }

  /** A modifier token followed by anything is recognised whole. */
  lemma ModStartOfToken(t: string, rest: string)
    requires IsModToken(t)
    ensures ModStart(t + rest) == Some(|t|)
  {
    var s := t + rest;
    assert forall k :: 2 <= k < |t| - 1 ==> s[k] == t[k];
    assert s[|t| - 1] == '>';
    assert ModRunEnd(s, 2) == |t| - 1;
    assert s[..|t|] == t;
  }

  /** `split_glob(glob)`: the leading modifier tokens as a set, and the
      rest of the glob. */
  function SplitGlob(glob: string): (r: (set<string>, string))
    ensures ModStart(r.1).None?
    ensures EndsWith(glob, r.1)
    ensures forall m :: m in r.0 ==> IsModToken(m)
    ensures r.0 == {} <==> r.1 == glob
    decreases |glob|
  {
    match ModStart(glob)
    case None => ({}, glob)
    case Some(e) =>
      var rest := SplitGlob(glob[e..]);
      assert glob[e..][|glob[e..]| - |rest.1|..] == glob[|glob| - |rest.1|..];
      ({glob[..e]} + rest.0, rest.1)
  }

  /** The concatenation of the tokens. */
  function Concat(parts: seq<string>): string
  {
    Arguments.Concat(parts)
  }

  /** The set of the tokens. */
  function Elements(parts: seq<string>): set<string>
  {
    set k | 0 <= k < |parts| :: parts[k]
  }

  /** Splitting a run of modifier tokens and a rest that does not begin
      with one gives back the tokens and the rest. */
  lemma {:induction false} SplitGlobOfTokens(tokens: seq<string>, rest: string)
    requires forall k :: 0 <= k < |tokens| ==> IsModToken(tokens[k])
    requires ModStart(rest).None?
    ensures SplitGlob(Concat(tokens) + rest) == (Elements(tokens), rest)
    decreases |tokens|
  {
    if |tokens| == 0 {
      assert Concat(tokens) + rest == rest;
      assert Elements(tokens) == {};
    } else {
      var t := tokens[0];
      var tail := Concat(tokens[1..]) + rest;
      assert Concat(tokens) + rest == t + tail;
      ModStartOfToken(t, tail);
      assert (t + tail)[|t|..] == tail;
      assert (t + tail)[..|t|] == t;
      SplitGlobOfTokens(tokens[1..], rest);
      assert Elements(tokens) == {t} + Elements(tokens[1..]) by {
        forall x | x in Elements(tokens)
          ensures x in {t} + Elements(tokens[1..])
        {
          var k :| 0 <= k < |tokens| && tokens[k] == x;
          if k > 0 { assert tokens[1..][k - 1] == x; }
        }
        forall x | x in Elements(tokens[1..])
          ensures x in Elements(tokens)
        {
          var k :| 0 <= k < |tokens[1..]| && tokens[1..][k] == x;
          assert tokens[k + 1] == x;
        }
      }
    }
  }

  /** A character group-1 text may hold: `[^:!>]`. */
  predicate NotMarker(c: char)
  {
    c != ':' && c != '!' && c != '>'
  }

  /** The first position from `a` holding `q`, or the end. */
  function FindFrom(s: string, a: nat, q: char): (r: nat)
    requires a <= |s|
    ensures a <= r <= |s| && (r < |s| ==> s[r] == q)
    decreases |s| - a
  {
    if a == |s| || s[a] == q then a else FindFrom(s, a + 1, q)
  }

  /** The end of the run of `[^:!>]` characters from `a`. */
  function MarkerRunEnd(s: string, a: nat): (r: nat)
    requires a <= |s|
    ensures a <= r <= |s| && (r < |s| ==> !NotMarker(s[r]))
    decreases |s| - a
  {
    if a < |s| && NotMarker(s[a]) then MarkerRunEnd(s, a + 1) else a
  }

  /** The end of a quoted alternative `"[^"]*"` (or with `'`) at `a`. */
  function QuoteEnd(s: string, a: nat, q: char): (r: Option<nat>)
    requires a <= |s|
    ensures r.Some? ==> a + 2 <= r.value <= |s|
  {
    if a < |s| && s[a] == q then
      var k := FindFrom(s, a + 1, q);
      if k < |s| then Some(k + 1) else None
    else None
  }

  /** Where alternative `alt` of a group that starts at `a` ends, in the
      order the regular expression tries them: 0 double-quoted, 1
      single-quoted, 2 the longest run, of `[^:!>]` for group 1 and of
      `[^>]` for group 3. */
  function GroupEnd(s: string, a: nat, alt: nat, group1: bool): (r: Option<nat>)
    requires a <= |s|
    ensures r.Some? ==> a <= r.value <= |s|
  {
    if alt == 0 then QuoteEnd(s, a, '"')
    else if alt == 1 then QuoteEnd(s, a, '\'')
    else Some(if group1 then MarkerRunEnd(s, a) else FindFrom(s, a, '>'))
  }

  /** The first alternative of group 3, from `alt` on, that is followed by
      '>': where that '>' is. */
  function CloseAt(s: string, a: nat, alt: nat): (r: Option<nat>)
    requires a <= |s|
    ensures r.Some? ==> a <= r.value < |s| && s[r.value] == '>'
    decreases 3 - alt
  {
    if alt > 2 then None
    else
      var g := GroupEnd(s, a, alt, false);
      if g.Some? && g.value < |s| && s[g.value] == '>' then g else CloseAt(s, a, alt + 1)
  }

  /** Where one match of the prompt expression puts its groups: the '<'
      at `start`, text up to the marker at `g1`, text from `g3` up to the
      '>' at `close`. */
  datatype Hit = Hit(start: nat, g1: nat, g3: nat, close: nat)

  /** The first alternative of group 1, from `alt` on, after which a
      marker, a group 3 and '>' follow, for a match at `p`. */
  function FirstHit(s: string, p: nat, alt: nat): (r: Option<Hit>)
    requires p < |s|
    ensures r.Some? ==> r.value.start == p < r.value.g1 < |s| && (s[r.value.g1] == ':' || s[r.value.g1] == '!')
                        && r.value.g3 == r.value.g1 + 1 && r.value.g3 <= r.value.close < |s| && s[r.value.close] == '>'
    decreases 3 - alt
  {
    if alt > 2 then None
    else
      var g := GroupEnd(s, p + 1, alt, true);
      if g.Some? && g.value < |s| && (s[g.value] == ':' || s[g.value] == '!') then
        var c := CloseAt(s, g.value + 1, 0);
        if c.Some? then Some(Hit(p, g.value, g.value + 1, c.value)) else FirstHit(s, p, alt + 1)
      else FirstHit(s, p, alt + 1)
  }

  /** A match of `PROMPTS` at `p`: '<' there, the marker at `g1`, '>' at
      `close`. */
  predicate Found(s: string, p: nat, h: Hit)
  {
    && h.start == p < h.g1 < h.g3 <= h.close < |s| && h.g3 == h.g1 + 1
    && s[p] == '<' && s[h.close] == '>' && (s[h.g1] == ':' || s[h.g1] == '!')
  }

  /** A match of `PROMPTS` that starts at `p`. */
  function PromptAt(s: string, p: nat): (r: Option<Hit>)
    requires p < |s|
    ensures r.Some? ==> Found(s, p, r.value)
  {
    if s[p] != '<' then None else FirstHit(s, p, 0)
  }

  /** The leftmost match at or after `i`, as `re.split` finds it. */
  function FindPrompt(s: string, i: nat): (r: Option<Hit>)
    requires i <= |s|
    ensures r.Some? ==> i <= r.value.start < |s| && PromptAt(s, r.value.start) == r
    ensures r.Some? ==> forall k :: i <= k < r.value.start ==> PromptAt(s, k).None?
    ensures r.None? ==> forall k :: i <= k < |s| ==> PromptAt(s, k).None?
    decreases |s| - i
  {
    if i == |s| then None
    else
      var h := PromptAt(s, i);
      if h.Some? then h else FindPrompt(s, i + 1)
  }

  /** One prompt of a split and the text after it: the groups of the
      match (prompt text, marker, set text) and the text up to the next
      match or the end. */
  datatype Piece = Piece(prompt: string, marker: string, setText: string, after: string)

  /** `FIND_PROMPTS(s)`, the list `re.split` returns with the three groups
      kept: the text before the first prompt, then four entries per
      prompt. It is held here as the first text and one piece per
      prompt; `split[4k + 1]`, `split[4k + 2]`, `split[4k + 3]` and
      `split[4k + 4]` are the fields of piece `k`. */
  datatype Split = Split(head: string, pieces: seq<Piece>)

  /** Matches laid end to end from `i` on, none overlapping the next. */
  predicate Ordered(s: string, i: nat, ms: seq<Hit>)
    decreases |ms|
  {
    i <= |s| && (|ms| == 0 || (i <= ms[0].start && Found(s, ms[0].start, ms[0]) && Ordered(s, ms[0].close + 1, ms[1..])))
  }

  /** Every match `re.split` finds from `i` on, left to right; each search
      resumes after the previous match's '>'. */
  function Matches(s: string, i: nat): (r: seq<Hit>)
    requires i <= |s|
    decreases |s| - i
  {
    var f := FindPrompt(s, i);
    if f.None? then [] else [f.value] + Matches(s, f.value.close + 1)
  }

  /** The matches are laid end to end. */
  lemma {:induction false} MatchesOrdered(s: string, i: nat)
    requires i <= |s|
    ensures Ordered(s, i, Matches(s, i))
    decreases |s| - i
  {
    var f := FindPrompt(s, i);
    if f.Some? {
      var h := f.value;
      MatchesOrdered(s, h.close + 1);
      var ms := Matches(s, i);
      assert ms == [h] + Matches(s, h.close + 1);
      assert ms[0] == h && ms[1..] == Matches(s, h.close + 1);
    }
  }

  /** The text from `i` cut at the matches `ms`. */
  function SplitBy(s: string, i: nat, ms: seq<Hit>): Split
    requires Ordered(s, i, ms)
    decreases |ms|
  {
    if |ms| == 0 then Split(s[i..], [])
    else Cut(s, i, ms[0], SplitBy(s, ms[0].close + 1, ms[1..]))
  }

  /** The text from `i` up to the match `h`, then the match's groups and
      the split of the text after it. */
  function Cut(s: string, i: nat, h: Hit, rest: Split): Split
    requires i <= h.start && Found(s, h.start, h)
  {
    Split(s[i..h.start], [Piece(s[h.start + 1..h.g1], s[h.g1..h.g3], s[h.g3..h.close], rest.head)] + rest.pieces)
  }

  /** `FIND_PROMPTS(s[i..])`. */
  function SplitPrompts(s: string, i: nat): (r: Split)
    requires i <= |s|
  {
    MatchesOrdered(s, i);
    SplitBy(s, i, Matches(s, i))
  }

  /** A prompt put back between '<' and '>'. */
  function Wrap(pc: Piece): string
  {
    "<" + pc.prompt + pc.marker + pc.setText + ">"
  }

  /** The text of the pieces, each prompt put back between '<' and '>'. */
  function RejoinPieces(ps: seq<Piece>): string
    decreases |ps|
  {
    if |ps| == 0 then "" else Wrap(ps[0]) + (ps[0].after + RejoinPieces(ps[1..]))
  }

  /** The glob a split came from. */
  function Rejoin(sp: Split): string
  {
    sp.head + RejoinPieces(sp.pieces)
  }

  /** Every marker is ":" or "!". */
  predicate Markers(sp: Split)
  {
    MarkersOf(sp.pieces)
  }

  predicate MarkersOf(ps: seq<Piece>)
    decreases |ps|
  {
    |ps| == 0 || ((ps[0].marker == ":" || ps[0].marker == "!") && MarkersOf(ps[1..]))
  }

  /** Every marker of the split is ":" or "!", and putting the prompts
      back between '<' and '>' gives the text split. */
  lemma SplitPromptsRejoin(s: string, i: nat)
    requires i <= |s|
    ensures Markers(SplitPrompts(s, i))
    ensures Rejoin(SplitPrompts(s, i)) == s[i..]
  {
    MatchesOrdered(s, i);
    SplitByMarkers(s, i, Matches(s, i));
    SplitByRejoin(s, i, Matches(s, i));
  }

  /** Every marker of a cut at matches laid end to end is ":" or "!". */
  lemma {:induction false} SplitByMarkers(s: string, i: nat, ms: seq<Hit>)
    requires Ordered(s, i, ms)
    ensures Markers(SplitBy(s, i, ms))
    decreases |ms|
  {
    if |ms| > 0 {
      SplitByMarkers(s, ms[0].close + 1, ms[1..]);
      SplitByMarkersStep(s, i, ms);
    }
  }

  lemma SplitByMarkersStep(s: string, i: nat, ms: seq<Hit>)
    requires Ordered(s, i, ms) && |ms| > 0
    requires Markers(SplitBy(s, ms[0].close + 1, ms[1..]))
    ensures Markers(SplitBy(s, i, ms))
  {
    CutMarkers(s, i, ms[0], SplitBy(s, ms[0].close + 1, ms[1..]));
  }

  /** Putting the prompts of a cut at matches laid end to end back
      between '<' and '>' gives the text cut. */
  lemma {:induction false} SplitByRejoin(s: string, i: nat, ms: seq<Hit>)
    requires Ordered(s, i, ms)
    ensures Rejoin(SplitBy(s, i, ms)) == s[i..]
    decreases |ms|
  {
    if |ms| > 0 {
      SplitByRejoin(s, ms[0].close + 1, ms[1..]);
      SplitByRejoinStep(s, i, ms);
    }
  }

  lemma SplitByRejoinStep(s: string, i: nat, ms: seq<Hit>)
    requires Ordered(s, i, ms) && |ms| > 0
    requires Rejoin(SplitBy(s, ms[0].close + 1, ms[1..])) == s[ms[0].close + 1..]
    ensures Rejoin(SplitBy(s, i, ms)) == s[i..]
  {
    CutRejoin(s, i, ms[0], SplitBy(s, ms[0].close + 1, ms[1..]));
  }

  /** One prompt in front of a split keeps every marker ":" or "!". */
  lemma CutMarkers(s: string, i: nat, h: Hit, rest: Split)
    requires i <= h.start && Found(s, h.start, h)
    requires Markers(rest)
    ensures Markers(Cut(s, i, h, rest))
  {
    var ps := Cut(s, i, h, rest).pieces;
    assert s[h.g1..h.g3] == [s[h.g1]];
    assert ps[1..] == rest.pieces;
  }

  /** One prompt in front of a split that rejoins to the text after the
      prompt rejoins to the text from `i`. */
  lemma CutRejoin(s: string, i: nat, h: Hit, rest: Split)
    requires i <= h.start && Found(s, h.start, h)
    requires Rejoin(rest) == s[h.close + 1..]
    ensures Rejoin(Cut(s, i, h, rest)) == s[i..]
  {
    var piece := Piece(s[h.start + 1..h.g1], s[h.g1..h.g3], s[h.g3..h.close], rest.head);
    PromptPieces(s, i, h, rest.head);
    ConsPiece(piece, rest);
  }

  /** A piece in front of the pieces of a split: its text comes before
      theirs. */
  lemma ConsPiece(piece: Piece, rest: Split)
    requires piece.after == rest.head
    ensures RejoinPieces([piece] + rest.pieces) == Wrap(piece) + Rejoin(rest)
  {
    var ps := [piece] + rest.pieces;
    assert ps[0] == piece && ps[1..] == rest.pieces;
  }

  /** The text from `i` is the text before the prompt, the prompt between
      '<' and '>', and the text after it. */
  lemma PromptPieces(s: string, i: nat, h: Hit, after: string)
    requires i <= h.start && Found(s, h.start, h)
    ensures s[i..] == s[i..h.start] + (Wrap(Piece(s[h.start + 1..h.g1], s[h.g1..h.g3], s[h.g3..h.close], after)) + s[h.close + 1..])
  {
    WrapSlice(s, h, after);
    SuffixSplit(s, i, h.start);
    SuffixSplit(s, h.start, h.close + 1);
  }

  /** The prompt put back between '<' and '>' is the text of the match. */
  lemma WrapSlice(s: string, h: Hit, after: string)
    requires Found(s, h.start, h)
    ensures Wrap(Piece(s[h.start + 1..h.g1], s[h.g1..h.g3], s[h.g3..h.close], after)) == s[h.start..h.close + 1]
  {
    var p := h.start;
    OpenSlice(s, p, h.g1);
    SliceSplit(s, p, h.g1, h.g3);
    SliceSplit(s, p, h.g3, h.close);
    CloseSlice(s, p, h.close);
  }

  /** A slice that starts with '<'. */
  lemma OpenSlice(s: string, a: nat, b: nat)
    requires a < b <= |s| && s[a] == '<'
    ensures s[a..b] == "<" + s[a + 1..b]
  {
  }

  /** A slice followed by a '>'. */
  lemma CloseSlice(s: string, a: nat, b: nat)
    requires a <= b < |s| && s[b] == '>'
    ensures s[a..b + 1] == s[a..b] + ">"
  {
  }

  /** Adjacent slices join. */
  lemma SliceSplit(s: string, a: nat, b: nat, c: nat)
    requires a <= b <= c <= |s|
    ensures s[a..c] == s[a..b] + s[b..c]
  {
  }

  /** A suffix is a slice followed by the suffix after it. */
  lemma SuffixSplit(s: string, a: nat, b: nat)
    requires a <= b <= |s|
    ensures s[a..] == s[a..b] + s[b..]
  {
  }

  /** Text without '<' is not split. */
  lemma NoPromptNoSplit(s: string)
    requires '<' !in s
    ensures SplitPrompts(s, 0) == Split(s, [])
  {
    FindPromptNone(s, 0);
    assert Matches(s, 0) == [];
    assert s[0..] == s;
  }

  /** Text without a '<' followed by one prompt `<p:>` and text without
      '<': the single prompt is found with an empty set text. */
  lemma OnePromptSplit(t: string, p: string, u: string, s: string)
    requires '<' !in t && '<' !in u
    requires forall k :: 0 <= k < |p| ==> NotMarker(p[k])
    requires |p| > 0 && p[0] != '"' && p[0] != '\''
    requires s == t + ['<'] + p + [':', '>'] + u
    ensures SplitPrompts(s, 0) == Split(t, [Piece(p, ":", "", u)])
  {
    var e := |t| + 1 + |p|;
    var h := Hit(|t|, e, e + 1, e + 1);
    OnePromptFound(t, p, u, s);
    FindPromptNone(s, e + 2);
    MatchesOne(s, h);
    OneMatch(s, h);
    OnePromptPieces(t, p, u, s);
  }

  /** A text with one match is cut into the text before it and one
      piece. */
  lemma OneMatch(s: string, h: Hit)
    requires Matches(s, 0) == [h]
    ensures SplitPrompts(s, 0) == Split(s[0..h.start], [Piece(s[h.start + 1..h.g1], s[h.g1..h.g3], s[h.g3..h.close], s[h.close + 1..])])
  {
    MatchesOrdered(s, 0);
    SplitByOne(s, 0, [h]);
  }

  /** The matches of a text with one match. */
  lemma MatchesOne(s: string, h: Hit)
    requires FindPrompt(s, 0) == Some(h) && h.close < |s|
    requires FindPrompt(s, h.close + 1).None?
    ensures Matches(s, 0) == [h]
  {
    MatchesFirst(s, 0, h);
    assert Matches(s, h.close + 1) == [];
    assert [h] + [] == [h];
  }

  /** The first match found, then the matches after it. */
  lemma MatchesFirst(s: string, i: nat, h: Hit)
    requires i <= |s| && FindPrompt(s, i) == Some(h)
    ensures h.close < |s| && Matches(s, i) == [h] + Matches(s, h.close + 1)
  {
    var f := FindPrompt(s, i);
    assert f.value == h;
    assert Matches(s, i) == [f.value] + Matches(s, f.value.close + 1);
  }

  /** Cutting at a single match. */
  lemma SplitByOne(s: string, i: nat, ms: seq<Hit>)
    requires Ordered(s, i, ms) && |ms| == 1
    ensures var h := ms[0];
            SplitBy(s, i, ms) == Split(s[i..h.start], [Piece(s[h.start + 1..h.g1], s[h.g1..h.g3], s[h.g3..h.close], s[h.close + 1..])])
  {
    assert ms[1..] == [];
    assert SplitBy(s, ms[0].close + 1, []) == Split(s[ms[0].close + 1..], []);
  }

  /** Where the pieces of such a glob sit. */
  lemma OnePromptPieces(t: string, p: string, u: string, s: string)
    requires s == t + ['<'] + p + [':', '>'] + u
    ensures var e := |t| + 1 + |p|;
            && s[0..|t|] == t && s[|t|] == '<' && s[|t| + 1..e] == p && s[e..e + 1] == ":" && s[e + 1..e + 1] == ""
            && s[e] == ':' && s[e + 1] == '>' && s[e + 2..] == u
            && (forall k :: e + 2 <= k < |s| ==> s[k] == u[k - e - 2])
            && (forall k :: 0 <= k < |t| ==> s[k] == t[k])
            && (forall k :: 0 <= k < |p| ==> s[|t| + 1 + k] == p[k])
  {
  }

  /** The search finds that prompt first. */
  lemma OnePromptFound(t: string, p: string, u: string, s: string)
    requires '<' !in t
    requires forall k :: 0 <= k < |p| ==> NotMarker(p[k])
    requires |p| > 0 && p[0] != '"' && p[0] != '\''
    requires s == t + ['<'] + p + [':', '>'] + u
    ensures var e := |t| + 1 + |p|;
            FindPrompt(s, 0) == Some(Hit(|t|, e, e + 1, e + 1))
  {
    var e := |t| + 1 + |p|;
    OnePromptPieces(t, p, u, s);
    forall k | 0 <= k < |t| ensures PromptAt(s, k).None? {
      assert s[k] == t[k];
    }
    SimplePrompt(s, |t|, e);
    FindPromptSkips(s, 0, |t|);
  }

  /** `<p:>` with a plain, unquoted prompt text `p` is a match whose set
      text is empty. */
  lemma SimplePrompt(s: string, p: nat, e: nat)
    requires p + 1 < e && e + 1 < |s|
    requires s[p] == '<' && s[e] == ':' && s[e + 1] == '>'
    requires s[p + 1] != '"' && s[p + 1] != '\''
    requires forall k :: p < k < e ==> NotMarker(s[k])
    ensures PromptAt(s, p) == Some(Hit(p, e, e + 1, e + 1))
  {
    MarkerRunTo(s, p + 1, e);
    assert GroupEnd(s, p + 1, 2, true) == Some(e);
    assert FindFrom(s, e + 1, '>') == e + 1;
    assert CloseAt(s, e + 1, 0) == Some(e + 1);
  }

  /** A run of `[^:!>]` ends at the first marker or '>'. */
  lemma {:induction false} MarkerRunTo(s: string, a: nat, e: nat)
    requires a <= e < |s| && !NotMarker(s[e])
    requires forall k :: a <= k < e ==> NotMarker(s[k])
    ensures MarkerRunEnd(s, a) == e
    decreases e - a
  {
    if a < e {
      MarkerRunTo(s, a + 1, e);
    }
  }

  /** The search passes over positions where no prompt starts. */
  lemma {:induction false} FindPromptSkips(s: string, i: nat, j: nat)
    requires i <= j < |s| && PromptAt(s, j).Some?
    requires forall k :: i <= k < j ==> PromptAt(s, k).None?
    ensures FindPrompt(s, i) == PromptAt(s, j)
    decreases j - i
  {
    if i < j {
      assert PromptAt(s, i).None?;
      FindPromptPast(s, i);
      FindPromptSkips(s, i + 1, j);
    } else {
      FindPromptHere(s, i);
    }
  }

  /** The search stops where a prompt starts. */
  lemma FindPromptHere(s: string, i: nat)
    requires i < |s| && PromptAt(s, i).Some?
    ensures FindPrompt(s, i) == PromptAt(s, i)
  {
  }

  /** The search goes past a position where no prompt starts. */
  lemma FindPromptPast(s: string, i: nat)
    requires i < |s| && PromptAt(s, i).None?
    ensures FindPrompt(s, i) == FindPrompt(s, i + 1)
  {
  }

  /** With no '<' from `i` on there is no prompt. */
  lemma FindPromptNone(s: string, i: nat)
    requires i <= |s| && forall k :: i <= k < |s| ==> s[k] != '<'
    ensures FindPrompt(s, i).None?
  {
  }
}
