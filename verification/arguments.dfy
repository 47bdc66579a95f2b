/** The `Arguments` tuple of uzbl/arguments.py: an event's argument line
    is cut by `re.split` at whitespace runs and quoted strings (the cuts are
    kept), and the pieces are glued back into arguments: whitespace ends an
    argument, every other piece is unquoted and appended to the current
    one. The raw pieces and the index of the piece each argument starts at
    are kept for `raw`. */
module Arguments {
  import opened Wrappers
  import opened Text
  import opened PySeq
  import opened Util

  /** `''.join(parts)`. */
  function Concat(parts: seq<string>): string
  {
    if |parts| == 0 then "" else parts[0] + Concat(parts[1..])
  }

  lemma {:induction false} ConcatAppend(a: seq<string>, b: seq<string>)
    ensures Concat(a + b) == Concat(a) + Concat(b)
    decreases |a|
  {
    if |a| > 0 {
      assert (a + b)[1..] == a[1..] + b;
      ConcatAppend(a[1..], b);
    } else {
      assert a + b == b;
    }
  }

  // ---------------------------------------------------------------------
  // The pattern (\s+|"(?:\\.|[^"])*?"|'(?:\\.|[^'])*?')
  // ---------------------------------------------------------------------

  /** The end of the whitespace run from `i` (`\s+` is greedy). */
  function WsEnd(s: string, i: nat): (r: nat)
    requires i <= |s|
    ensures i <= r <= |s|
    ensures forall k :: i <= k < r ==> IsPySpace(s[k])
    ensures r < |s| ==> !IsPySpace(s[r])
    decreases |s| - i
  {
    if i < |s| && IsPySpace(s[i]) then WsEnd(s, i + 1) else i
  }

  /** The lazy body `(?:\\.|[^q])*?q` from `i`, in the order the regex
      engine tries it: the closing quote first, then one more item, an
      escape pair (a backslash and any character but a newline) before a
      single non-quote character. The end of the match, or `None`. */
  function QuotedEnd(s: string, i: nat, q: char): (r: Option<nat>)
    requires i <= |s|
    ensures r.Some? ==> i < r.value <= |s| && s[r.value - 1] == q
    decreases |s| - i
  {
    if i == |s| then None
    else if s[i] == q then Some(i + 1)
    else
      var escaped := if s[i] == '\\' && i + 1 < |s| && s[i + 1] != '\n' then QuotedEnd(s, i + 2, q) else None;
      if escaped.Some? then escaped else QuotedEnd(s, i + 1, q)
  }

  /** The end of the separator pattern matched at `p`, if it matches. */
  function MatchAt(s: string, p: nat): (r: Option<nat>)
    requires p < |s|
    ensures r.Some? ==> p < r.value <= |s|
    ensures IsPySpace(s[p]) ==> r == Some(WsEnd(s, p))
    ensures !IsPySpace(s[p]) && s[p] != '"' && s[p] != '\'' ==> r.None?
  {
    if IsPySpace(s[p]) then Some(WsEnd(s, p))
    else if s[p] == '"' || s[p] == '\'' then QuotedEnd(s, p + 1, s[p])
    else None
  }

  /** A piece that starts with whitespace: what `re.match('\s+', part)`
      accepts. */
  predicate IsGap(part: string)
  {
    |part| > 0 && IsPySpace(part[0])
  }

  /** `re.split` from `p`, the current unmatched text starting at `start`:
      text and matched separators alternate, starting and ending with
      (possibly empty) text. */
  function SplitFrom(s: string, start: nat, p: nat): (r: seq<string>)
    requires start <= p <= |s|
    requires forall k :: start <= k < p ==> !IsPySpace(s[k])
    ensures |r| >= 1
    decreases |s| - p
  {
    if p == |s| then [s[start..]]
    else
      match MatchAt(s, p)
      case None => SplitFrom(s, start, p + 1)
      case Some(e) => [s[start..p], s[p..e]] + SplitFrom(s, e, e)
  }

  /** Text pieces and non-empty matched separators alternate, starting and
      ending with a (possibly empty) text piece that does not start with
      whitespace. */
  predicate Alternates(r: seq<string>)
    decreases |r|
  {
    |r| >= 1 && !IsGap(r[0]) && (|r| == 1 || (|r| >= 3 && r[1] != "" && Alternates(r[2..])))
  }

  /** The pieces alternate and together they are the input from `start`. */
  lemma {:induction false} SplitFromFacts(s: string, start: nat, p: nat)
    requires start <= p <= |s|
    requires forall k :: start <= k < p ==> !IsPySpace(s[k])
    ensures Alternates(SplitFrom(s, start, p))
    ensures Concat(SplitFrom(s, start, p)) == s[start..]
    decreases |s| - p
  {
    if p == |s| {
      assert SplitFrom(s, start, p) == [s[start..]];
      assert Concat([s[start..]]) == s[start..];
      if start < |s| {
        assert s[start..][0] == s[start];
      }
    } else {
      match MatchAt(s, p)
      case None =>
        SplitFromFacts(s, start, p + 1);
      case Some(e) =>
        var rest := SplitFrom(s, e, e);
        SplitFromFacts(s, e, e);
        PiecesCons(s, start, p, e, rest);
    }
  }

  lemma PiecesCons(s: string, start: nat, p: nat, e: nat, rest: seq<string>)
    requires start <= p < e <= |s|
    requires forall k :: start <= k < p ==> !IsPySpace(s[k])
    requires Alternates(rest) && Concat(rest) == s[e..]
    ensures Alternates([s[start..p], s[p..e]] + rest)
    ensures Concat([s[start..p], s[p..e]] + rest) == s[start..]
  {
    var r := [s[start..p], s[p..e]] + rest;
    assert r[2..] == rest;
    if start < p {
      assert s[start..p][0] == s[start];
    }
    assert r[1..] == [s[p..e]] + rest && r[1..][1..] == rest;
    assert s[start..] == s[start..p] + s[p..e] + s[e..];
  }

  /** `_splitquoted.split(s)`. */
  function Split(s: string): (r: seq<string>)
    ensures Concat(r) == s
  {
    SplitFromFacts(s, 0, 0);
    SplitFrom(s, 0, 0)
  }

  // ---------------------------------------------------------------------
  // unquote
  // ---------------------------------------------------------------------

  /** `is_quoted(s)`: the same quote character at both ends (a lone quote
      counts). */
  predicate IsQuoted(s: string)
  {
    |s| > 0 && s[0] == s[|s| - 1] && (s[0] == '\'' || s[0] == '"')
  }

  /** `Unescape.sub('\\1', s)`: every backslash followed by a character
      other than a newline is dropped, left to right. */
  function Unescape(s: string): (r: string)
    ensures |r| <= |s|
    ensures '\\' !in s ==> r == s
    decreases |s|
  {
    if |s| == 0 then ""
    else if s[0] == '\\' && |s| >= 2 && s[1] != '\n' then [s[1]] + Unescape(s[2..])
    else [s[0]] + Unescape(s[1..])
  }

  /** `unquote(s)`: one pair of outer quotes off, then unescaped. */
  function Unquote(s: string): (r: string)
    ensures !IsQuoted(s) ==> r == Unescape(s)
    ensures IsQuoted(s) && |s| >= 2 ==> r == Unescape(s[1..|s| - 1])
    ensures IsQuoted(s) && |s| == 1 ==> r == ""
  {
    Unescape(if IsQuoted(s) then Slice(s, 1, -1) else s)
  }

  /** A quoted string without backslashes unquotes to its body. */
  lemma UnquoteQuoted(body: string, q: char)
    requires q == '\'' || q == '"'
    requires '\\' !in body
    ensures Unquote([q] + body + [q]) == body
  {
    var s := [q] + body + [q];
    assert s[1..|s| - 1] == body;
  }

  /** Unescaping undoes a backslash put before every character. */
  lemma {:induction false} UnescapeBackslashed(s: string)
    requires '\n' !in s
    ensures Unescape(Backslashed(s)) == s
    decreases |s|
  {
    if |s| > 0 {
      assert Backslashed(s)[2..] == Backslashed(s[1..]);
      UnescapeBackslashed(s[1..]);
      assert s == [s[0]] + s[1..];
    }
  }

  /** Every character preceded by a backslash. */
  function Backslashed(s: string): (r: string)
    ensures |r| == 2 * |s|
  {
    if |s| == 0 then "" else ['\\', s[0]] + Backslashed(s[1..])
  }

  // ---------------------------------------------------------------------
  // parse
  // ---------------------------------------------------------------------

  /** The state of the generator `parse`: the argument being built (`c`),
      the arguments yielded so far and the `ref` list. */
  datatype State = State(c: Option<string>, args: seq<string>, ref: seq<nat>)

  /** Each yielded or pending argument has its start recorded. */
  predicate Counted(st: State)
  {
    |st.ref| == |st.args| + (if st.c.Some? then 1 else 0)
  }

  /** The argument being built, if any, yielded. */
  function Flush(st: State): seq<string>
  {
    if st.c.Some? then st.args + [st.c.value] else st.args
  }

  /** One iteration of `parse` over the piece at index `i`. */
  function Step(st: State, part: string, i: nat): (r: State)
    ensures Counted(st) ==> Counted(r)
    ensures r.ref == st.ref || r.ref == st.ref + [i]
    ensures r.ref == st.ref + [i] ==> part != "" && !IsGap(part)
  {
    if IsGap(part) then State(None, Flush(st), st.ref)
    else if st.c.None? then
      if part != "" then State(Some(Unquote(part)), st.args, st.ref + [i]) else st
    else State(Some(st.c.value + Unquote(part)), st.args, st.ref)
  }

  /** `parse` over `raw`, whose first piece has index `base`. */
  function Fold(raw: seq<string>, base: nat, st: State): (r: State)
    ensures Counted(st) ==> Counted(r)
    decreases |raw|
  {
    if |raw| == 0 then st
    else Fold(raw[1..], base + 1, Step(st, raw[0], base))
  }

  /** The `ref` list only grows, and what it gains are the indices of the
      non-empty text pieces, in increasing order. */
  lemma FoldFacts(raw: seq<string>, base: nat, st: State)
    ensures |st.ref| <= |Fold(raw, base, st).ref| && Fold(raw, base, st).ref[..|st.ref|] == st.ref
    ensures forall k :: |st.ref| <= k < |Fold(raw, base, st).ref| ==>
      base <= Fold(raw, base, st).ref[k] < base + |raw|
      && raw[Fold(raw, base, st).ref[k] - base] != "" && !IsGap(raw[Fold(raw, base, st).ref[k] - base])
    ensures forall k :: |st.ref| <= k < |Fold(raw, base, st).ref| - 1 ==>
      Fold(raw, base, st).ref[k] < Fold(raw, base, st).ref[k + 1]
  {
    FoldPrefix(raw, base, st);
    FoldRefs(raw, base, st);
    FoldIncreasing(raw, base, st);
  }

  lemma {:induction false} FoldPrefix(raw: seq<string>, base: nat, st: State)
    ensures |st.ref| <= |Fold(raw, base, st).ref| && Fold(raw, base, st).ref[..|st.ref|] == st.ref
    decreases |raw|
  {
    if |raw| > 0 {
      var next := Step(st, raw[0], base);
      var r := Fold(raw[1..], base + 1, next);
      FoldPrefix(raw[1..], base + 1, next);
      FoldCons(raw, base, st);
      assert r.ref[..|st.ref|] == r.ref[..|next.ref|][..|st.ref|];
    }
  }

  lemma {:induction false} FoldRefs(raw: seq<string>, base: nat, st: State)
    ensures forall k :: |st.ref| <= k < |Fold(raw, base, st).ref| ==>
      base <= Fold(raw, base, st).ref[k] < base + |raw|
      && raw[Fold(raw, base, st).ref[k] - base] != "" && !IsGap(raw[Fold(raw, base, st).ref[k] - base])
    decreases |raw|
  {
    if |raw| > 0 {
      var next := Step(st, raw[0], base);
      var r := Fold(raw[1..], base + 1, next);
      FoldRefs(raw[1..], base + 1, next);
      FoldPrefix(raw[1..], base + 1, next);
      FoldCons(raw, base, st);
      RefsStep(raw, raw[1..], base, st.ref, next.ref, r.ref);
    }
  }

  /** The step of `FoldRefs`: the piece at `base` adds at most its own
      index, and the rest of the fold adds indices of the later pieces. */
  lemma RefsStep(raw: seq<string>, rest: seq<string>, base: nat, before: seq<nat>, mid: seq<nat>, refs: seq<nat>)
    requires |raw| > 0 && rest == raw[1..]
    requires mid == before || (mid == before + [base] && raw[0] != "" && !IsGap(raw[0]))
    requires |mid| <= |refs| && refs[..|mid|] == mid
    requires forall k :: |mid| <= k < |refs| ==>
      base + 1 <= refs[k] < base + 1 + |rest| && rest[refs[k] - (base + 1)] != "" && !IsGap(rest[refs[k] - (base + 1)])
    ensures forall k :: |before| <= k < |refs| ==>
      base <= refs[k] < base + |raw| && raw[refs[k] - base] != "" && !IsGap(raw[refs[k] - base])
  {
    forall k | |before| <= k < |refs|
      ensures base <= refs[k] < base + |raw| && raw[refs[k] - base] != "" && !IsGap(raw[refs[k] - base])
    {
      if k < |mid| {
        assert refs[k] == refs[..|mid|][k] == mid[k] == base;
      } else {
        assert rest[refs[k] - (base + 1)] == raw[refs[k] - base];
      }
    }
  }

  lemma {:induction false} FoldIncreasing(raw: seq<string>, base: nat, st: State)
    ensures forall k :: |st.ref| <= k < |Fold(raw, base, st).ref| - 1 ==>
      Fold(raw, base, st).ref[k] < Fold(raw, base, st).ref[k + 1]
    decreases |raw|
  {
    if |raw| > 0 {
      var next := Step(st, raw[0], base);
      var r := Fold(raw[1..], base + 1, next);
      FoldIncreasing(raw[1..], base + 1, next);
      FoldRefs(raw[1..], base + 1, next);
      FoldPrefix(raw[1..], base + 1, next);
      FoldCons(raw, base, st);
      forall k | |st.ref| <= k < |r.ref| - 1 ensures r.ref[k] < r.ref[k + 1] {
        if k < |next.ref| {
          assert r.ref[k] == r.ref[..|next.ref|][k] == next.ref[k] == base;
        }
      }
    }
  }

  // ---------------------------------------------------------------------
  // Arguments
  // ---------------------------------------------------------------------

  /** What `Arguments` is given: an argument line, or a tuple taken as
      already parsed. */
  datatype Source = Line(line: string) | Preparsed(items: seq<string>)

  /** The tuple together with `_raw` and `_ref`. */
  datatype Arguments = Arguments(args: seq<string>, raw: seq<string>, ref: seq<nat>)

  /** `list(range(n))`. */
  function Range(n: nat): (r: seq<nat>)
    ensures |r| == n && forall k :: 0 <= k < n ==> r[k] == k
  {
    if n == 0 then [] else Range(n - 1) + [n - 1]
  }

  /** `Arguments.__new__(s)`. */
  function New(src: Source): (r: Arguments)
    ensures src.Preparsed? ==> r == Arguments(src.items, src.items, Range(|src.items|))
    ensures src.Line? ==> Concat(r.raw) == src.line
    ensures |r.ref| == |r.args|
    ensures forall k :: 0 <= k < |r.ref| ==> r.ref[k] < |r.raw|
    ensures forall k :: 0 <= k < |r.ref| - 1 ==> r.ref[k] < r.ref[k + 1]
    ensures src.Line? ==> forall k :: 0 <= k < |r.ref| ==> r.raw[r.ref[k]] != "" && !IsGap(r.raw[r.ref[k]])
  {
    match src
    case Preparsed(items) => Arguments(items, items, Range(|items|))
    case Line(s) =>
      var raw := Split(s);
      var st := Fold(raw, 0, State(None, [], []));
      LineFacts(raw, State(None, [], []), st);
      Arguments(Flush(st), raw, st.ref)
  }

  /** What the fold over the pieces of a line leaves: one start per
      argument, increasing, each the index of a non-empty text piece. */
  lemma LineFacts(raw: seq<string>, start: State, st: State)
    requires start.c.None? && start.args == [] && start.ref == [] && st == Fold(raw, 0, start)
    ensures |st.ref| == |Flush(st)|
    ensures forall k :: 0 <= k < |st.ref| ==> st.ref[k] < |raw| && raw[st.ref[k]] != "" && !IsGap(raw[st.ref[k]])
    ensures forall k :: 0 <= k < |st.ref| - 1 ==> st.ref[k] < st.ref[k + 1]
  {
    assert Counted(start);
    FoldFacts(raw, 0, start);
  }

  /** `raw(frm, to)`, with `to` `None` for the default; `None` for the
      IndexError of an argument index out of range. */
  function Raw(a: Arguments, frm: int, to: Option<int>): (r: Option<string>)
    ensures |a.ref| == 0 ==> r == Some("")
    ensures |a.ref| > 0 && !(-|a.ref| <= frm < |a.ref|) ==> r.None?
    ensures |a.ref| > 0 && (to.None? || to.value + 1 >= -|a.ref|) && -|a.ref| <= frm < |a.ref| ==> r.Some?
    ensures r.Some? && |a.ref| > 0 && 0 <= frm < |a.ref| && a.ref[frm] <= |a.raw| ==>
      r.value <= Concat(a.raw[a.ref[frm]..])
  {
    if |a.ref| < 1 then Some("")
    else
      var rfrm := Index(a.ref, frm);
      if rfrm.None? then None
      else
        var rto: Option<int> := if to.None? || |a.ref| <= to.value + 1 then Some(|a.raw|)
                   else (var n := Index(a.ref, to.value + 1); if n.None? then None else Some((n.value as int) - 1));
        if rto.None? then None
        else
          var pieces := Slice(a.raw, rfrm.value, rto.value);
          assert rfrm.value <= |a.raw| ==> Concat(pieces) <= Concat(a.raw[rfrm.value..]) by {
            if rfrm.value <= |a.raw| {
              var tail := a.raw[rfrm.value..];
              assert pieces == tail[..|pieces|] by {
                if Bound(rfrm.value, |a.raw|) > Bound(rto.value, |a.raw|) {
                  assert pieces == [];
                }
              }
              assert tail == pieces + tail[|pieces|..];
              ConcatAppend(pieces, tail[|pieces|..]);
            }
          }
          Some(Concat(pieces))
  }

  /** `safe_raw(frm, to)`: `raw` with every '@' escaped by a backslash. */
  function SafeRaw(a: Arguments, frm: int, to: Option<int>): (r: Option<string>)
    ensures r.None? <==> Raw(a, frm, to).None?
    ensures r.Some? ==> r.value == SubstChar(Raw(a, frm, to).value, '@', "\\@")
    ensures r.Some? ==> AtsEscapedIn(r.value)
  {
    var raw := Raw(a, frm, to);
    if raw.None? then None
    else
      ReplaceCharIsSubst(raw.value, '@', "\\@");
      AtsEscaped(raw.value);
      Some(ReplaceAll(raw.value, "@", "\\@"))
  }

  /** Every '@' in `t` follows a backslash. */
  predicate AtsEscapedIn(t: string)
  {
    forall k :: 0 <= k < |t| && t[k] == '@' ==> k > 0 && t[k - 1] == '\\'
  }

  /** After the substitution every '@' follows a backslash. */
  lemma {:induction false} AtsEscaped(s: string)
    ensures AtsEscapedIn(SubstChar(s, '@', "\\@"))
    decreases |s|
  {
    if |s| > 0 {
      AtsEscaped(s[1..]);
      var head := if s[0] == '@' then "\\@" else [s[0]];
      var rest := SubstChar(s[1..], '@', "\\@");
      var t := head + rest;
      assert |rest| > 0 ==> rest[0] != '@';
      forall k | 0 <= k < |t| && t[k] == '@' ensures k > 0 && t[k - 1] == '\\' {
        if k < |head| {
          assert t[k] == head[k];
          if s[0] == '@' {
            assert head == ['\\', '@'];
            assert k == 1;
            assert t[0] == '\\';
          }
        } else {
          var j := k - |head|;
          assert t[k] == rest[j];
          assert j > 0;
          assert t[k - 1] == rest[j - 1];
        }
      }
    }
  }

  // ---------------------------------------------------------------------
  // Plain lines split like str.split()
  // ---------------------------------------------------------------------

  /** A word in progress, yielded if non-empty. */
  function Emit(cur: string): seq<string>
  {
    if cur == "" then [] else [cur]
  }

  /** `str.split()` with the word in progress `cur`: maximal runs of
      non-whitespace characters. */
  function WordsFrom(s: string, cur: string): (r: seq<string>)
    decreases |s|
  {
    if |s| == 0 then Emit(cur)
    else if IsPySpace(s[0]) then Emit(cur) + WordsFrom(s[1..], "")
    else WordsFrom(s[1..], cur + [s[0]])
  }

  /** `s.split()`. */
  function PyWords(s: string): seq<string>
  {
    WordsFrom(s, "")
  }

  /** No quote characters and no backslashes. */
  predicate Plain(s: string)
  {
    forall k :: 0 <= k < |s| ==> s[k] != '"' && s[k] != '\'' && s[k] != '\\'
  }

  lemma {:induction false} WordsOverText(t: string, x: string, cur: string)
    requires forall k :: 0 <= k < |t| ==> !IsPySpace(t[k])
    ensures WordsFrom(t + x, cur) == WordsFrom(x, cur + t)
    decreases |t|
  {
    if |t| > 0 {
      assert (t + x)[1..] == t[1..] + x;
      WordsOverText(t[1..], x, cur + [t[0]]);
      assert cur + [t[0]] + t[1..] == cur + t;
    } else {
      assert t + x == x && cur + t == cur;
    }
  }

  lemma {:induction false} WordsOverGap(g: string, x: string, cur: string)
    requires |g| > 0 && forall k :: 0 <= k < |g| ==> IsPySpace(g[k])
    ensures WordsFrom(g + x, cur) == Emit(cur) + WordsFrom(x, "")
    decreases |g|
  {
    assert (g + x)[1..] == g[1..] + x;
    if |g| > 1 {
      WordsOverGap(g[1..], x, "");
    } else {
      assert g[1..] + x == x;
    }
  }

  /** The first whitespace, quote or backslash from `i`, or the end. */
  function TextEnd(s: string, i: nat): (r: nat)
    requires i <= |s|
    ensures i <= r <= |s|
    ensures forall k :: i <= k < r ==> !IsPySpace(s[k])
    ensures r < |s| ==> IsPySpace(s[r])
    decreases |s| - i
  {
    if i < |s| && !IsPySpace(s[i]) then TextEnd(s, i + 1) else i
  }

  /** Scanning over characters that match nothing. */
  lemma {:induction false} SplitOverText(s: string, start: nat, p: nat, q: nat)
    requires start <= p <= q <= |s|
    requires forall k :: p <= k < q ==> s[k] != '"' && s[k] != '\''
    requires forall k :: start <= k < q ==> !IsPySpace(s[k])
    ensures SplitFrom(s, start, p) == SplitFrom(s, start, q)
    decreases q - p
  {
    if p < q {
      SplitOverText(s, start, p + 1, q);
    }
  }

  /** A text piece of a plain line: no whitespace, quotes or
      backslashes, so it unquotes to itself. */
  lemma PlainText(s: string, i: nat, j: nat)
    requires Plain(s) && i <= j <= |s|
    ensures Unquote(s[i..j]) == s[i..j]
  {
    var t := s[i..j];
    assert '\\' !in t by {
      forall k | 0 <= k < |t| ensures t[k] != '\\' { assert t[k] == s[i + k]; }
    }
    assert !IsQuoted(t) by {
      if |t| > 0 { assert t[0] == s[i]; }
    }
  }

  /** Folding over a text piece and the gap after it. */
  lemma FoldTextGap(t: string, g: string, rest: seq<string>, base: nat, st: State)
    requires st.c.None? && !IsGap(t) && IsGap(g) && Unquote(t) == t
    ensures Fold([t, g] + rest, base, st) == Fold(rest, base + 2, AfterText(st, t, base))
  {
    assert ([t, g] + rest)[1..] == [g] + rest && ([g] + rest)[1..] == rest;
    var st1 := Step(st, t, base);
    assert Fold([t, g] + rest, base, st) == Fold([g] + rest, base + 1, st1);
    assert Fold([g] + rest, base + 1, st1) == Fold(rest, base + 2, Step(st1, g, base + 1));
    assert st.args + [] == st.args;
  }

  /** The state after a text piece and the gap that follows it. */
  function AfterText(st: State, t: string, base: nat): State
  {
    State(None, st.args + Emit(t), if t == "" then st.ref else st.ref + [base])
  }

  /** On a plain line the pieces from `start` on build the words of the
      rest of the line. */
  lemma {:induction false} PlainArgs(s: string, start: nat, base: nat, st: State)
    requires Plain(s) && start <= |s| && st.c.None?
    ensures Flush(Fold(SplitFrom(s, start, start), base, st)) == st.args + PyWords(s[start..])
    decreases |s| - start
  {
    var q := TextEnd(s, start);
    if q == |s| {
      SplitOverText(s, start, start, q);
      PlainLast(s, start, base, st);
    } else {
      var e := WsEnd(s, q);
      PlainArgs(s, e, base + 2, AfterText(st, s[start..q], base));
      PlainGap(s, start, base, st);
    }
  }

  /** A text piece and a gap, then the rest of the line. */
  lemma PlainGap(s: string, start: nat, base: nat, st: State)
    requires Plain(s) && start <= |s| && st.c.None?
    requires TextEnd(s, start) < |s|
    requires var q := TextEnd(s, start); var e := WsEnd(s, q);
      Flush(Fold(SplitFrom(s, e, e), base + 2, AfterText(st, s[start..q], base)))
        == st.args + Emit(s[start..q]) + PyWords(s[e..])
    ensures Flush(Fold(SplitFrom(s, start, start), base, st)) == st.args + PyWords(s[start..])
  {
    var q := TextEnd(s, start);
    var e := WsEnd(s, q);
    FoldPlainGap(s, start, base, st);
    WordsPlainGap(s, start);
    FlushChain(Fold(SplitFrom(s, start, start), base, st), Fold(SplitFrom(s, e, e), base + 2, AfterText(st, s[start..q], base)),
               st.args, Emit(s[start..q]), PyWords(s[e..]), PyWords(s[start..]));
  }

  lemma FlushChain(x: State, y: State, a: seq<string>, t: seq<string>, w: seq<string>, all: seq<string>)
    requires x == y && Flush(y) == a + t + w && all == t + w
    ensures Flush(x) == a + all
  {
    AppendAssoc(a, t, w);
  }

  /** The pieces of a text and a gap, folded. */
  lemma FoldPlainGap(s: string, start: nat, base: nat, st: State)
    requires Plain(s) && start <= |s| && st.c.None?
    requires TextEnd(s, start) < |s|
    ensures var q := TextEnd(s, start); var e := WsEnd(s, q);
      Fold(SplitFrom(s, start, start), base, st) == Fold(SplitFrom(s, e, e), base + 2, AfterText(st, s[start..q], base))
  {
    var q := TextEnd(s, start);
    var t := s[start..q];
    var e := WsEnd(s, q);
    var g := s[q..e];
    var rest := SplitFrom(s, e, e);
    SplitOverText(s, start, start, q);
    PlainText(s, start, q);
    assert SplitFrom(s, start, q) == [t, g] + rest;
    FoldTextGap(t, g, rest, base, st);
  }

  /** The words of a text and a gap. */
  lemma WordsPlainGap(s: string, start: nat)
    requires start <= |s| && TextEnd(s, start) < |s|
    ensures var q := TextEnd(s, start); var e := WsEnd(s, q);
      PyWords(s[start..]) == Emit(s[start..q]) + PyWords(s[e..])
  {
    var q := TextEnd(s, start);
    var t := s[start..q];
    var e := WsEnd(s, q);
    var g := s[q..e];
    SliceThree(s, start, q, e);
    WordsOverText(t, g + s[e..], "");
    assert "" + t == t;
    WordsOverGap(g, s[e..], t);
  }

  /** The last text piece of a plain line. */
  lemma PlainLast(s: string, start: nat, base: nat, st: State)
    requires Plain(s) && start <= |s| && st.c.None?
    requires TextEnd(s, start) == |s|
    ensures Flush(Fold(SplitFrom(s, start, |s|), base, st)) == st.args + PyWords(s[start..])
  {
    var t := s[start..];
    assert Fold(SplitFrom(s, start, |s|), base, st) == Step(st, t, base) by {
      assert SplitFrom(s, start, |s|) == [t];
      assert Fold([t], base, st) == Step(st, t, base);
    }
    assert PyWords(t) == Emit(t) by {
      WordsOverText(t, "", "");
      assert t + "" == t && "" + t == t;
    }
    assert Unquote(t) == t && !IsGap(t) by {
      PlainText(s, start, |s|);
    }
  }

  /** A line without quotes or backslashes has exactly the arguments
      `line.split()`: whitespace runs separate, leading and trailing
      whitespace is ignored, and an empty or blank line has none. */
  lemma ArgumentsArePyWords(s: string)
    requires Plain(s)
    ensures New(Line(s)).args == PyWords(s)
  {
    PlainArgs(s, 0, 0, State(None, [], []));
  }

  /** `Arguments('')` is empty and its `raw()` is ''. */
  lemma EmptyLine()
    ensures New(Line("")).args == []
    ensures Raw(New(Line("")), 0, None) == Some("")
  {
    assert Split("") == [""];
  }

  /** A tuple is taken unchanged. */
  lemma PreparsedUnchanged(items: seq<string>)
    ensures New(Preparsed(items)).args == items
  {
  }

  /** A gap at `start`: an empty text piece, then the gap. */
  lemma SplitAtGap(s: string, start: nat)
    requires start < |s| && IsPySpace(s[start])
    ensures var e := WsEnd(s, start);
      SplitFrom(s, start, start) == ["", s[start..e]] + SplitFrom(s, e, e)
  {
    assert s[start..start] == "";
  }

  /** A plain text piece ended by a gap. */
  lemma SplitAtText(s: string, start: nat)
    requires Plain(s) && start <= |s| && TextEnd(s, start) < |s|
    ensures var q := TextEnd(s, start); var e := WsEnd(s, q);
      SplitFrom(s, start, start) == [s[start..q], s[q..e]] + SplitFrom(s, e, e)
  {
    SplitOverText(s, start, start, TextEnd(s, start));
  }

  /** A plain text piece running to the end. */
  lemma SplitAtLast(s: string, start: nat)
    requires Plain(s) && start <= |s| && TextEnd(s, start) == |s|
    ensures SplitFrom(s, start, start) == [s[start..]]
  {
    SplitOverText(s, start, start, |s|);
  }

  lemma {:induction false} WsEndAt(s: string, i: nat, j: nat)
    requires i <= j <= |s| && (forall k :: i <= k < j ==> IsPySpace(s[k]))
    requires j == |s| || !IsPySpace(s[j])
    ensures WsEnd(s, i) == j
    decreases j - i
  {
    if i < j {
      WsEndAt(s, i + 1, j);
    }
  }

  lemma {:induction false} TextEndAt(s: string, i: nat, j: nat)
    requires i <= j <= |s| && (forall k :: i <= k < j ==> !IsPySpace(s[k]))
    requires j == |s| || IsPySpace(s[j])
    ensures TextEnd(s, i) == j
    decreases j - i
  {
    if i < j {
      TextEndAt(s, i + 1, j);
    }
  }

  /** The pieces from `a` of a word, a gap and a last word. */
  lemma SplitWordGapWord(s: string, a: nat, b: nat, c: nat)
    requires Plain(s) && a < b < c < |s|
    requires forall k :: a <= k < b ==> !IsPySpace(s[k])
    requires forall k :: b <= k < c ==> IsPySpace(s[k])
    requires forall k :: c <= k < |s| ==> !IsPySpace(s[k])
    ensures SplitFrom(s, a, a) == [s[a..b], s[b..c], s[c..]]
  {
    TextEndAt(s, a, b);
    WsEndAt(s, b, c);
    SplitAtText(s, a);
    TextEndAt(s, c, |s|);
    SplitAtLast(s, c);
  }

  /** The pieces of a plain line of a gap, a word, a gap and a word. */
  lemma SplitGapWordGapWord(s: string, a: nat, b: nat, c: nat)
    requires Plain(s) && 0 < a < b < c < |s|
    requires forall k :: 0 <= k < a ==> IsPySpace(s[k])
    requires forall k :: a <= k < b ==> !IsPySpace(s[k])
    requires forall k :: b <= k < c ==> IsPySpace(s[k])
    requires forall k :: c <= k < |s| ==> !IsPySpace(s[k])
    ensures Split(s) == ["", s[..a], s[a..b], s[b..c], s[c..]]
  {
    WsEndAt(s, 0, a);
    SplitAtGap(s, 0);
    SplitWordGapWord(s, a, b, c);
    assert s[0..a] == s[..a];
  }

  /** The characters of `' foo  bar'`, run by run. */
  lemma SpacedShape(s: string)
    requires s == " foo  bar"
    ensures Plain(s) && |s| == 9
    ensures forall k :: 0 <= k < 1 ==> IsPySpace(s[k])
    ensures forall k :: 1 <= k < 4 ==> !IsPySpace(s[k])
    ensures forall k :: 4 <= k < 6 ==> IsPySpace(s[k])
    ensures forall k :: 6 <= k < 9 ==> !IsPySpace(s[k])
    ensures s[..1] == " " && s[1..4] == "foo" && s[4..6] == "  " && s[6..] == "bar"
  {
  }

  /** The pieces of `' foo  bar'`. */
  lemma SpacedSplit(s: string)
    requires s == " foo  bar"
    ensures Split(s) == ["", " ", "foo", "  ", "bar"]
  {
    SpacedShape(s);
    SplitGapWordGapWord(s, 1, 4, 6);
  }

  /** `parse` over the pieces of `' foo  bar'`. */
  lemma SpacedFold()
    ensures Fold(["", " ", "foo", "  ", "bar"], 0, State(None, [], [])) == State(Some("bar"), ["foo"], [2, 4])
  {
    var st0 := State(None, [], []);
    var st1 := State(Some("foo"), [], [2]);
    var st2 := State(None, ["foo"], [2]);
    SpacedSteps();
    FoldFive(["", " ", "foo", "  ", "bar"], st0, st0, st0, st1, st2, State(Some("bar"), ["foo"], [2, 4]));
  }

  /** Five pieces folded one step at a time. */
  lemma FoldFive(raw: seq<string>, st0: State, st1: State, st2: State, st3: State, st4: State, st5: State)
    requires |raw| == 5
    requires Step(st0, raw[0], 0) == st1 && Step(st1, raw[1], 1) == st2 && Step(st2, raw[2], 2) == st3
    requires Step(st3, raw[3], 3) == st4 && Step(st4, raw[4], 4) == st5
    ensures Fold(raw, 0, st0) == st5
  {
    FoldCons(raw, 0, st0);
    FoldCons(raw[1..], 1, st1);
    FoldCons(raw[2..], 2, st2);
    FoldCons(raw[3..], 3, st3);
    FoldCons(raw[4..], 4, st4);
    assert raw[1..][1..] == raw[2..] && raw[2..][1..] == raw[3..] && raw[3..][1..] == raw[4..];
    assert raw[4..][1..] == [];
  }

  /** The five steps of `parse` over `' foo  bar'`. */
  lemma SpacedSteps()
    ensures Step(State(None, [], []), "", 0) == State(None, [], [])
    ensures Step(State(None, [], []), " ", 1) == State(None, [], [])
    ensures Step(State(None, [], []), "foo", 2) == State(Some("foo"), [], [2])
    ensures Step(State(Some("foo"), [], [2]), "  ", 3) == State(None, ["foo"], [2])
    ensures Step(State(None, ["foo"], [2]), "bar", 4) == State(Some("bar"), ["foo"], [2, 4])
  {
    SpacedWords();
  }

  lemma SpacedWords()
    ensures Unquote("foo") == "foo" && Unquote("bar") == "bar"
    ensures IsGap(" ") && IsGap("  ") && !IsGap("") && !IsGap("foo") && !IsGap("bar")
  {
  }

  /** One piece folded. */
  lemma FoldCons(raw: seq<string>, base: nat, st: State)
    requires |raw| > 0
    ensures Fold(raw, base, st) == Fold(raw[1..], base + 1, Step(st, raw[0], base))
  {
  }

  /** `Arguments(' foo  bar')` keeps the five pieces and the two words
      starting at pieces 2 and 4. */
  lemma SpacedNew(s: string)
    requires s == " foo  bar"
    ensures New(Line(s)) == Arguments(["foo", "bar"], ["", " ", "foo", "  ", "bar"], [2, 4])
  {
    SpacedSplit(s);
    SpacedFold();
  }

  /** The `raw` slices over those pieces. */
  lemma SpacedRaw(a: Arguments)
    requires a == Arguments(["foo", "bar"], ["", " ", "foo", "  ", "bar"], [2, 4])
    ensures Raw(a, 0, None) == Some("foo  bar")
    ensures Raw(a, 0, Some(0)) == Some("foo")
    ensures Raw(a, 1, Some(1)) == Some("bar")
  {
    assert Slice(a.raw, 2, 5) == ["foo", "  ", "bar"];
    assert Slice(a.raw, 2, 3) == ["foo"];
    assert Slice(a.raw, 4, 5) == ["bar"];
    assert Index(a.ref, 0) == Some(2) && Index(a.ref, 1) == Some(4);
    assert Concat(["foo"]) == "foo" && Concat(["bar"]) == "bar";
    assert Concat(["foo", "  ", "bar"]) == "foo  bar";
  }

  /** `Arguments(' foo  bar')`: two arguments; `raw()` drops the leading
      space, `raw(0, 0)` and `raw(1, 1)` are the two words. */
  lemma SpacedWordsAndRaw(s: string)
    requires s == " foo  bar"
    ensures New(Line(s)).args == ["foo", "bar"]
    ensures Raw(New(Line(s)), 0, None) == Some("foo  bar")
    ensures Raw(New(Line(s)), 0, Some(0)) == Some("foo")
    ensures Raw(New(Line(s)), 1, Some(1)) == Some("bar")
  {
    SpacedNew(s);
    SpacedRaw(New(Line(s)));
  }
}
