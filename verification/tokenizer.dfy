/** `split_quoted`, the quote- and backslash-aware tokenizer of the command
    language, in its three revisions. It walks the string once, tracking
    whether it is inside double or single quotes; an unquoted separator ends
    the current word. With `unquote` one layer of quotes and backslashes is
    removed; without it every character except the separators is kept. */
module Tokenizer {
  import opened Wrappers
  import opened Text
  import opened Revisions

  /** What separates words: `isspace` in src/commands.c, a space or a tab
      in src/uzbl-core.c, a space in uzbl-core.c. (Both later revisions
      treat a backslash as an escape only when a character follows it.) */
  predicate Separator(rev: Revision, c: char)
  {
    match rev
    case Current => IsCSpace(c)
    case Core => c == ' ' || c == '\t'
    case Legacy => c == ' '
  }

  /** The words of a split and, between each two, the separator character
      that ended the first of them. */
  datatype Split = Split(words: seq<string>, gaps: string)

  /** Words and gaps put back together. */
  function Interleave(words: seq<string>, gaps: string): string
    requires |words| == |gaps| + 1
  {
    if |gaps| == 0 then words[0]
    else words[0] + [gaps[0]] + Interleave(words[1..], gaps[1..])
  }

  /** The tokenizer loop from position `i`, inside double quotes when `dq`,
      inside single quotes when `sq`, with the word so far in `cur`. When
      `guarded` a backslash escapes only if a character follows it;
      otherwise a final backslash makes the loop step over the terminating
      NUL and read past the string, which `None` stands for. */
  function Scan(s: string, i: nat, unquote: bool, rev: Revision, guarded: bool,
                dq: bool, sq: bool, cur: string): (r: Option<Split>)
    requires i <= |s|
    ensures guarded ==> r.Some?
    ensures r.Some? ==> |r.value.words| == |r.value.gaps| + 1
    ensures r.Some? && !unquote ==> Interleave(r.value.words, r.value.gaps) == cur + s[i..]
    decreases |s| - i, 1
  {
    if i == |s| then Some(Split([cur], ""))
    else ScanChar(s, i, unquote, rev, guarded, dq, sq, cur)
  }

  /** One step of the loop, on the character at `i`. */
  function ScanChar(s: string, i: nat, unquote: bool, rev: Revision, guarded: bool,
                    dq: bool, sq: bool, cur: string): (r: Option<Split>)
    requires i < |s|
    ensures guarded ==> r.Some?
    ensures r.Some? ==> |r.value.words| == |r.value.gaps| + 1
    ensures r.Some? && !unquote ==> Interleave(r.value.words, r.value.gaps) == cur + s[i..]
    decreases |s| - i, 0
  {
    var c := s[i];
    if c == '\\' && (i + 1 < |s| || !guarded) then
      if i + 1 == |s| then None
      else
        SliceStep(s, i, i + 2, cur);
        assert [c, s[i + 1]] == s[i..i + 2];
        Scan(s, i + 2, unquote, rev, guarded, dq, sq, cur + (if unquote then [s[i + 1]] else [c, s[i + 1]]))
    else
      SliceStep(s, i, i + 1, cur);
      assert [c] == s[i..i + 1];
      if c == '"' && !sq then
        Scan(s, i + 1, unquote, rev, guarded, !dq, sq, if unquote then cur else cur + [c])
      else if c == '\'' && !dq then
        Scan(s, i + 1, unquote, rev, guarded, dq, !sq, if unquote then cur else cur + [c])
      else if Separator(rev, c) && !dq && !sq then
        var rest := Scan(s, i + 1, unquote, rev, guarded, dq, sq, "");
        if rest.None? then None
        else
          var r := Split([cur] + rest.value.words, [c] + rest.value.gaps);
          InterleaveCons(cur, c, rest.value.words, rest.value.gaps);
          assert "" + s[i + 1..] == s[i + 1..];
          Some(r)
      else
        Scan(s, i + 1, unquote, rev, guarded, dq, sq, cur + [c])
  }

  /** The text up to `j` added to the word leaves the rest from `j`. */
  lemma SliceStep(s: string, i: nat, j: nat, cur: string)
    requires i <= j <= |s|
    ensures (cur + s[i..j]) + s[j..] == cur + s[i..]
  {
    assert s[i..] == s[i..j] + s[j..];
  }

  /** Interleaving after a first word and separator. */
  lemma InterleaveCons(w: string, c: char, words: seq<string>, gaps: string)
    requires |words| == |gaps| + 1
    ensures |[w] + words| == |[c] + gaps| + 1
    ensures Interleave([w] + words, [c] + gaps) == w + [c] + Interleave(words, gaps)
  {
    assert ([w] + words)[1..] == words && ([c] + gaps)[1..] == gaps;
  }

  /** Every gap of a split is a separator character. */
  lemma {:induction false} ScanSeparates(s: string, i: nat, unquote: bool, rev: Revision, guarded: bool,
                                         dq: bool, sq: bool, cur: string)
    requires i <= |s|
    requires Scan(s, i, unquote, rev, guarded, dq, sq, cur).Some?
    ensures var t := Scan(s, i, unquote, rev, guarded, dq, sq, cur).value;
      forall k :: 0 <= k < |t.gaps| ==> Separator(rev, t.gaps[k])
    decreases |s| - i
  {
    if i < |s| {
      var c := s[i];
      if c == '\\' && (i + 1 < |s| || !guarded) {
        ScanSeparates(s, i + 2, unquote, rev, guarded, dq, sq, cur + (if unquote then [s[i + 1]] else [c, s[i + 1]]));
      } else if c == '"' && !sq {
        ScanSeparates(s, i + 1, unquote, rev, guarded, !dq, sq, if unquote then cur else cur + [c]);
      } else if c == '\'' && !dq {
        ScanSeparates(s, i + 1, unquote, rev, guarded, dq, !sq, if unquote then cur else cur + [c]);
      } else if Separator(rev, c) && !dq && !sq {
        ScanSeparates(s, i + 1, unquote, rev, guarded, dq, sq, "");
      } else {
        ScanSeparates(s, i + 1, unquote, rev, guarded, dq, sq, cur + [c]);
      }
    }
  }

  /** The split of a whole string by the given revision, as written. */
  function Tokenize(s: string, unquote: bool, rev: Revision): (r: Option<Split>)
    ensures rev != Legacy ==> r.Some?
  {
    Scan(s, 0, unquote, rev, rev != Legacy, false, false, "")
  }

  /** What `split_quoted` returns. */
  datatype Tokens =
    | Null                       // NULL for a NULL input
    | Words(words: seq<string>)  // the NULL-terminated word array
    | Overrun                    // the loop ran past the terminating NUL

  /** `split_quoted(src, unquote)` as each revision has it. */
  function SplitQuoted(src: Option<string>, unquote: bool, rev: Revision): (r: Tokens)
    ensures r.Null? <==> src.None?
    ensures r.Overrun? ==> rev == Legacy
    ensures r.Words? ==> |r.words| >= 1
  {
    if src.None? then Null
    else
      var t := Tokenize(src.value, unquote, rev);
      if t.None? then Overrun else Words(t.value.words)
  }

  /** The legacy tokenizer with the guard the later revisions added: a
      final backslash is an ordinary character. */
  function LegacySplitGuarded(src: Option<string>, unquote: bool): (r: Tokens)
    ensures r.Null? <==> src.None?
    ensures !r.Overrun?
  {
    if src.None? then Null
    else Words(Scan(src.value, 0, unquote, Legacy, true, false, false, "").value.words)
  }

  /** Without unquoting nothing but the separators is dropped: the words
      and the separators between them give back the input. */
  lemma RawSplitIsLossless(s: string, rev: Revision)
    requires Tokenize(s, false, rev).Some?
    ensures var t := Tokenize(s, false, rev).value;
      Interleave(t.words, t.gaps) == s && forall k :: 0 <= k < |t.gaps| ==> Separator(rev, t.gaps[k])
  {
    ScanSeparates(s, 0, false, rev, rev != Legacy, false, false, "");
  }

  /** A split into n words consumed n - 1 separator characters, so two
      adjacent separators give an empty word between them. */
  lemma AdjacentSeparatorsGiveEmptyWord(rev: Revision, c: char, d: char)
    requires rev != Legacy && Separator(rev, c) && Separator(rev, d)
    ensures Tokenize([c, d], true, rev).value.words == ["", "", ""]
  {
    var s := [c, d];
    assert Scan(s, 2, true, rev, true, false, false, "").value.words == [""];
    assert ScanChar(s, 1, true, rev, true, false, false, "").value.words == ["", ""];
    assert ScanChar(s, 0, true, rev, true, false, false, "").value.words == ["", "", ""];
  }

  /** A string with no quote, backslash or separator is a single word. */
  lemma PlainIsOneWord(s: string, unquote: bool, rev: Revision)
    requires forall k :: 0 <= k < |s| ==> s[k] != '"' && s[k] != '\'' && s[k] != '\\' && !Separator(rev, s[k])
    ensures Tokenize(s, unquote, rev) == Some(Split([s], ""))
  {
    PlainScan(s, 0, unquote, rev, rev != Legacy, "");
    assert "" + s[0..] == s;
  }

  lemma {:induction false} PlainScan(s: string, i: nat, unquote: bool, rev: Revision, guarded: bool, cur: string)
    requires i <= |s|
    requires forall k :: 0 <= k < |s| ==> s[k] != '"' && s[k] != '\'' && s[k] != '\\' && !Separator(rev, s[k])
    ensures Scan(s, i, unquote, rev, guarded, false, false, cur) == Some(Split([cur + s[i..]], ""))
    decreases |s| - i
  {
    if i < |s| {
      PlainScan(s, i + 1, unquote, rev, guarded, cur + [s[i]]);
      assert cur + [s[i]] + s[i + 1..] == cur + s[i..];
    } else {
      assert cur + s[i..] == cur;
    }
  }

  /** Inside single quotes only a backslash is special: separators and
      double quotes are kept as they are. */
  lemma {:induction false} SingleQuotedScan(s: string, i: nat, j: nat, unquote: bool, rev: Revision, guarded: bool, cur: string)
    requires i <= j <= |s|
    requires forall k :: i <= k < j ==> s[k] != '\'' && s[k] != '\\'
    ensures Scan(s, i, unquote, rev, guarded, false, true, cur)
         == Scan(s, j, unquote, rev, guarded, false, true, cur + s[i..j])
    decreases j - i
  {
    if i < j {
      SingleQuotedScan(s, i + 1, j, unquote, rev, guarded, cur + [s[i]]);
      assert cur + [s[i]] + s[i + 1..j] == cur + s[i..j];
    } else {
      assert cur + s[i..j] == cur;
    }
  }

  /** A single-quoted text with no quote or backslash in it is one word:
      the quotes are removed when unquoting and kept otherwise. */
  lemma SingleQuotedIsOneWord(t: string, unquote: bool, rev: Revision)
    requires forall k :: 0 <= k < |t| ==> t[k] != '\'' && t[k] != '\\'
    ensures var s := "'" + t + "'";
      Tokenize(s, unquote, rev) == Some(Split([if unquote then t else s], ""))
  {
    var s := "'" + t + "'";
    var g := rev != Legacy;
    var open := if unquote then "" else "'";
    QuotedInterior(t);
    SingleQuoteStep(s, 0, unquote, rev, g, false, false, "");
    assert (if unquote then "" else "" + ['\'']) == open;
    SingleQuotedScan(s, 1, |s| - 1, unquote, rev, g, open);
    SingleQuoteStep(s, |s| - 1, unquote, rev, g, false, true, open + t);
    var word := open + t + open;
    assert (if unquote then open + t else open + t + ['\'']) == word;
    assert word == if unquote then t else s;
  }

  lemma QuotedInterior(t: string)
    requires forall k :: 0 <= k < |t| ==> t[k] != '\'' && t[k] != '\\'
    ensures var s := "'" + t + "'";
      s[0] == '\'' && s[|s| - 1] == '\'' && s[1..|s| - 1] == t &&
      forall k :: 1 <= k < |s| - 1 ==> s[k] != '\'' && s[k] != '\\'
  {
    var s := "'" + t + "'";
    forall k | 1 <= k < |s| - 1 ensures s[k] == t[k - 1] {}
  }

  /** A single quote outside double quotes opens or closes a quoted
      stretch, and is kept only when not unquoting. */
  lemma SingleQuoteStep(s: string, i: nat, unquote: bool, rev: Revision, guarded: bool,
                        dq: bool, sq: bool, cur: string)
    requires i < |s| && s[i] == '\'' && !dq
    ensures Scan(s, i, unquote, rev, guarded, dq, sq, cur)
         == Scan(s, i + 1, unquote, rev, guarded, dq, !sq, if unquote then cur else cur + ['\''])
  {
    assert Scan(s, i, unquote, rev, guarded, dq, sq, cur) == ScanChar(s, i, unquote, rev, guarded, dq, sq, cur);
  }

  /** With unquoting a backslash is dropped and the next character kept,
      even a quote or a separator. */
  lemma EscapeKeepsNextCharacter(c: char, rev: Revision)
    ensures Tokenize(['\\', c], true, rev) == Some(Split([[c]], ""))
  {
    var s := ['\\', c];
    assert Scan(s, 0, true, rev, rev != Legacy, false, false, "") == Scan(s, 2, true, rev, rev != Legacy, false, false, "" + [c]);
    assert "" + [c] == [c];
  }

  /** A backslash at the very end is kept by the guarded revisions. */
  lemma TrailingBackslashKept(rev: Revision)
    requires rev != Legacy
    ensures Tokenize("a\\", true, rev) == Some(Split(["a\\"], ""))
  {
    GuardedTrailingBackslash(rev);
  }

  lemma GuardedTrailingBackslash(rev: Revision)
    ensures Scan("a\\", 0, true, rev, true, false, false, "") == Some(Split(["a\\"], ""))
  {
    var s := "a\\";
    assert !Separator(rev, 'a') && !Separator(rev, '\\');
    assert "" + [s[0]] == "a" && "a" + [s[1]] == "a\\";
    assert Scan(s, 0, true, rev, true, false, false, "") == Scan(s, 1, true, rev, true, false, false, "a");
    assert Scan(s, 1, true, rev, true, false, false, "a") == Scan(s, 2, true, rev, true, false, false, "a\\");
  }

  /** The legacy tokenizer steps past the end of "a\": the input that
      shows the missing guard. */
  lemma LegacyTrailingBackslashOverruns(unquote: bool)
    ensures SplitQuoted(Some("a\\"), unquote, Legacy) == Overrun
  {
  }

  /** With the guard added, the legacy tokenizer handles every input, keeps
      a final backslash, and splits losslessly without unquoting. */
  lemma LegacyGuardedIsTotal(s: string)
    ensures LegacySplitGuarded(Some(s), false).Words?
    ensures var t := Scan(s, 0, false, Legacy, true, false, false, "").value;
      Interleave(t.words, t.gaps) == s
    ensures LegacySplitGuarded(Some("a\\"), true) == Words(["a\\"])
  {
    GuardedTrailingBackslash(Legacy);
  }

  /** A quote character of the other kind. */
  function OtherQuote(q: char): char
  {
    if q == '"' then '\'' else '"'
  }

  /** When unquoting a string with no backslash and no quote of the other
      kind, no word holds quote character `q`: every `q` only opens or
      closes a quoted stretch. (Inside quotes of the other kind `q` would be
      kept as it is.) */
  lemma UnquoteDropsQuotes(s: string, q: char, rev: Revision)
    requires q == '"' || q == '\''
    requires '\\' !in s && OtherQuote(q) !in s
    ensures var t := Tokenize(s, true, rev);
      t.Some? && forall w :: w in t.value.words ==> q !in w
  {
    UnquoteScan(s, 0, q, rev, rev != Legacy, false, false, "");
  }

  lemma {:induction false} UnquoteScan(s: string, i: nat, q: char, rev: Revision, guarded: bool, dq: bool, sq: bool, cur: string)
    requires q == '"' || q == '\''
    requires i <= |s| && '\\' !in s && OtherQuote(q) !in s && q !in cur
    requires if q == '"' then !sq else !dq
    ensures var t := Scan(s, i, true, rev, guarded, dq, sq, cur);
      t.Some? && forall w :: w in t.value.words ==> q !in w
    decreases |s| - i
  {
    if i < |s| {
      var c := s[i];
      assert c != '\\' && c != OtherQuote(q);
      if c == '"' && !sq {
        UnquoteScan(s, i + 1, q, rev, guarded, !dq, sq, cur);
      } else if c == '\'' && !dq {
        UnquoteScan(s, i + 1, q, rev, guarded, dq, !sq, cur);
      } else if Separator(rev, c) && !dq && !sq {
        UnquoteScan(s, i + 1, q, rev, guarded, dq, sq, "");
      } else {
        UnquoteScan(s, i + 1, q, rev, guarded, dq, sq, cur + [c]);
      }
    }
  }
}
