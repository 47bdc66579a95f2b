/** The `cmd_expand` plugin of the event manager: `%s`, `%r` and `%N` in a
    bound command are replaced by the arguments of the event that fired
    it, and `escape` prepares text for a single-quoted uzbl argument. */
module CmdExpand {
  import opened Text
  import opened Numerals
  import opened PySeq
  import opened Util
  import opened Arguments

  /** The characters `escape` prefixes with a backslash. */
  predicate Special(c: char)
  {
    c == '\\' || c == '\'' || c == '"' || c == '@'
  }

  /** `escape(str)` as written: four `str.replace` calls, the backslash
      first so that the backslashes inserted afterwards are not doubled. */
  function Escape(s: string): (r: string)
    ensures r == Escaped(s, Special)
  {
    var a := ReplaceAll(s, "\\", "\\\\");
    var b := ReplaceAll(a, "'", "\\'");
    var c := ReplaceAll(b, "\"", "\\\"");
    ReplaceCharIsSubst(s, '\\', "\\\\");
    ReplaceCharIsSubst(a, '\'', "\\'");
    ReplaceCharIsSubst(b, '"', "\\\"");
    ReplaceCharIsSubst(c, '@', "\\@");
    FourSubstitutions(s);
    ReplaceAll(c, "@", "\\@")
  }

  /** The four substitutions one after the other. */
  function Substituted(s: string): string
  {
    SubstChar(SubstChar(SubstChar(SubstChar(s, '\\', "\\\\"), '\'', "\\'"), '"', "\\\""), '@', "\\@")
  }

  /** The substitutions act on each character separately. */
  lemma SubstitutedAppend(a: string, b: string)
    ensures Substituted(a + b) == Substituted(a) + Substituted(b)
  {
    var a1, b1 := SubstChar(a, '\\', "\\\\"), SubstChar(b, '\\', "\\\\");
    SubstAppend(a, b, '\\', "\\\\");
    var a2, b2 := SubstChar(a1, '\'', "\\'"), SubstChar(b1, '\'', "\\'");
    SubstAppend(a1, b1, '\'', "\\'");
    var a3, b3 := SubstChar(a2, '"', "\\\""), SubstChar(b2, '"', "\\\"");
    SubstAppend(a2, b2, '"', "\\\"");
    SubstAppend(a3, b3, '@', "\\@");
  }

  /** On one character the substitutions give its escape. */
  lemma SubstitutedChar(c: char)
    ensures Substituted([c]) == Escaped([c], Special)
  {
    assert [c][1..] == "";
    var bs := ['\\'];
    assert SubstChar(bs, '\'', "\\'") == bs && SubstChar(bs, '"', "\\\"") == bs && SubstChar(bs, '@', "\\@") == bs;
    if c == '\\' {
      assert SubstChar([c], '\\', "\\\\") == bs + bs;
      SubstAppend(bs, bs, '\'', "\\'");
      SubstAppend(bs, bs, '"', "\\\"");
      SubstAppend(bs, bs, '@', "\\@");
    } else if c == '\'' {
      assert SubstChar(bs, '\'', "\\'") == bs;
      assert SubstChar("\\'", '"', "\\\"") == "\\'" && SubstChar("\\'", '@', "\\@") == "\\'";
    } else if c == '"' {
      assert SubstChar("\\\"", '@', "\\@") == "\\\"";
    }
  }

  /** The four replacements are the single pass. */
  lemma {:induction false} FourSubstitutions(s: string)
    ensures Substituted(s) == Escaped(s, Special)
    decreases |s|
  {
    if |s| > 0 {
      SubstitutedCons(s);
      FourSubstitutions(s[1..]);
      EscapedCons(s);
    }
  }

  lemma SubstitutedCons(s: string)
    requires |s| > 0
    ensures Substituted(s) == Escaped([s[0]], Special) + Substituted(s[1..])
  {
    assert s == [s[0]] + s[1..];
    SubstitutedAppend([s[0]], s[1..]);
    SubstitutedChar(s[0]);
  }

  lemma EscapedCons(s: string)
    requires |s| > 0
    ensures Escaped(s, Special) == Escaped([s[0]], Special) + Escaped(s[1..], Special)
  {
    var piece := if Special(s[0]) then ['\\', s[0]] else [s[0]];
    assert Escaped([s[0]], Special) == piece + Escaped("", Special) by {
      assert [s[0]][1..] == "";
    }
  }

  /** Unescaping undoes escaping. */
  lemma {:induction false} UnescapeEscaped(s: string)
    ensures Unescape(Escaped(s, Special)) == s
    decreases |s|
  {
    if |s| > 0 {
      UnescapeEscaped(s[1..]);
      var t := Escaped(s[1..], Special);
      if Special(s[0]) {
        assert Escaped(s, Special) == ['\\', s[0]] + t;
        assert (['\\', s[0]] + t)[2..] == t;
      } else {
        assert Escaped(s, Special) == [s[0]] + t;
        assert ([s[0]] + t)[1..] == t;
      }
      assert s == [s[0]] + s[1..];
    }
  }

  /** The `%r` replacement: the escaped text in single quotes. */
  function Quoted(s: string): (r: string)
    ensures IsQuoted(r)
  {
    "'" + Escape(s) + "'"
  }

  /** The event manager's own `unquote` reads a `%r` replacement back as
      the text it was made from. */
  lemma UnquoteQuoted(s: string)
    ensures Unquote(Quoted(s)) == s
  {
    var q := Quoted(s);
    assert Slice(q, 1, -1) == Escape(s);
    UnescapeEscaped(s);
  }

  /** `'%%%d' % index`. */
  function Placeholder(n: nat): (r: string)
    ensures |r| >= 2 && r[0] == '%' && forall k :: 1 <= k < |r| ==> IsAsciiDigit(r[k])
  {
    "%" + NatToDecimal(n)
  }

  /** The `%N` loop from `k` down to 1 over the command `cmd`. */
  function ExpandIndices(cmd: string, args: seq<string>, k: nat): string
    requires k <= |args|
    decreases k
  {
    if k == 0 then cmd
    else
      var p := Placeholder(k);
      var c := if Occurs(cmd, p) then ReplaceAll(cmd, p, args[k - 1]) else cmd;
      ExpandIndices(c, args, k - 1)
  }

  /** `cmd_expand(cmd, args)`: `%s` first, then `%r`, then `%N` from the
      highest index down. */
  function Expand(cmd: string, args: seq<string>): string
  {
    var line := Join(args, " ");
    var c1 := if Occurs(cmd, "%s") then ReplaceAll(cmd, "%s", line) else cmd;
    var c2 := if Occurs(c1, "%r") then ReplaceAll(c1, "%r", Quoted(line)) else c1;
    ExpandIndices(c2, args, |args|)
  }

  /** No placeholder the expansion looks for. */
  predicate NoPlaceholders(cmd: string, n: nat)
  {
    !Occurs(cmd, "%s") && !Occurs(cmd, "%r") && forall k :: 1 <= k <= n ==> !Occurs(cmd, Placeholder(k))
  }

  lemma {:induction false} ExpandIndicesNone(cmd: string, args: seq<string>, k: nat)
    requires k <= |args| && NoPlaceholders(cmd, k)
    ensures ExpandIndices(cmd, args, k) == cmd
    decreases k
  {
    if k > 0 {
      ExpandIndicesNone(cmd, args, k - 1);
    }
  }

  /** A command without placeholders is returned unchanged. */
  lemma NoPlaceholdersUnchanged(cmd: string, args: seq<string>)
    requires NoPlaceholders(cmd, |args|)
    ensures Expand(cmd, args) == cmd
  {
    ExpandIndicesNone(cmd, args, |args|);
  }

  /** Nothing with a leading '%' occurs in text without '%'. */
  lemma PercentFree(s: string, p: string)
    requires |p| > 0 && p[0] == '%' && '%' !in s
    ensures !Occurs(s, p)
  {
    forall i | 0 <= i <= |s| ensures !OccursAt(s, p, i) {
      if i + |p| <= |s| {
        assert s[i..i + |p|][0] == s[i];
      }
    }
  }

  /** Text without '%' has no placeholders. */
  lemma PercentFreeNoPlaceholders(s: string, n: nat)
    requires '%' !in s
    ensures NoPlaceholders(s, n)
  {
    PercentFree(s, "%s");
    PercentFree(s, "%r");
    forall k | 1 <= k <= n ensures !Occurs(s, Placeholder(k)) {
      PercentFree(s, Placeholder(k));
    }
  }

  /** Arguments without '%'. */
  predicate PercentFreeArgs(args: seq<string>)
  {
    forall j :: 0 <= j < |args| ==> '%' !in args[j]
  }

  lemma {:induction false} JoinPercentFree(args: seq<string>)
    requires PercentFreeArgs(args)
    ensures '%' !in Join(args, " ")
    decreases |args|
  {
    if |args| > 1 {
      JoinPercentFree(args[1..]);
    }
  }

  /** A placeholder replaced in itself is the replacement. */
  lemma ReplaceWhole(p: string, rep: string)
    requires |p| > 0
    ensures ReplaceAll(p, p, rep) == rep
  {
    assert p[..|p|] == p && p[|p|..] == "";
    assert SplitOn("", p) == [""];
    assert SplitOn(p, p) == ["", ""];
    assert Join(["", ""], rep) == "" + rep + Join([""], rep);
  }

  /** `%s` alone becomes the arguments joined by single spaces. */
  lemma JoinedArguments(args: seq<string>)
    requires PercentFreeArgs(args)
    ensures Expand("%s", args) == Join(args, " ")
  {
    var line := Join(args, " ");
    assert OccursAt("%s", "%s", 0);
    ReplaceWhole("%s", line);
    JoinPercentFree(args);
    PercentFreeNoPlaceholders(line, |args|);
    ExpandIndicesNone(line, args, |args|);
  }

  /** `%r` alone becomes the joined arguments escaped and single-quoted. */
  lemma QuotedArguments(args: seq<string>)
    requires PercentFreeArgs(args)
    ensures Expand("%r", args) == Quoted(Join(args, " "))
  {
    var line := Join(args, " ");
    var q := Quoted(line);
    assert !Occurs("%r", "%s") by {
      forall i | 0 <= i <= 2 ensures !OccursAt("%r", "%s", i) {
        if i == 0 {
          assert "%r"[i..i + 2][1] == 'r';
        }
      }
    }
    assert OccursAt("%r", "%r", 0);
    ReplaceWhole("%r", q);
    JoinPercentFree(args);
    EscapedAdds(line, Special, '%');
    assert '%' !in q by {
      assert q == "'" + Escaped(line, Special) + "'";
    }
    PercentFreeNoPlaceholders(q, |args|);
    ExpandIndicesNone(q, args, |args|);
  }

  /** A decimal numeral that starts another is of a number no greater. */
  lemma DecimalPrefix(k: nat, n: nat)
    requires NatToDecimal(k) <= NatToDecimal(n)
    ensures k <= n
  {
    var a, b := NatToDecimal(k), NatToDecimal(n);
    if |a| == |b| {
      assert a == b;
      NatToDecimalInjective(k, n);
    } else {
      DigitCountUpper(k, 10);
      assert n > 0 by {
        assert |b| > 1;
      }
      DigitCountLower(n, 10);
      PowMonotone(10, |a|, |b| - 1);
    }
  }

  /** One placeholder inside another sits at its start. */
  lemma PlaceholderInPlaceholder(k: nat, n: nat)
    requires Occurs(Placeholder(n), Placeholder(k))
    ensures k <= n
  {
    var s, p := Placeholder(n), Placeholder(k);
    var i :| 0 <= i <= |s| && OccursAt(s, p, i);
    assert s[i..i + |p|][0] == s[i];
    assert i == 0;
    assert NatToDecimal(k) == s[1..|p|];
    DecimalPrefix(k, n);
  }

  lemma {:induction false} ExpandIndicesAbove(n: nat, args: seq<string>, k: nat)
    requires 1 <= n <= k <= |args| && PercentFreeArgs(args)
    ensures ExpandIndices(Placeholder(n), args, k) == args[n - 1]
    decreases k
  {
    var p := Placeholder(n);
    if k == n {
      assert OccursAt(p, p, 0);
      ReplaceWhole(p, args[n - 1]);
      PercentFreeNoPlaceholders(args[n - 1], n - 1);
      ExpandIndicesNone(args[n - 1], args, n - 1);
    } else {
      if Occurs(p, Placeholder(k)) {
        PlaceholderInPlaceholder(k, n);
      }
      ExpandIndicesAbove(n, args, k - 1);
    }
  }

  /** `%N` alone becomes the N-th argument; in particular `%10` is not
      taken for `%1` followed by a '0'. */
  lemma IndexedArgument(n: nat, args: seq<string>)
    requires 1 <= n <= |args| && PercentFreeArgs(args)
    ensures Expand(Placeholder(n), args) == args[n - 1]
  {
    var p := Placeholder(n);
    assert !Occurs(p, "%s") && !Occurs(p, "%r") by {
      forall i | 0 <= i <= |p| ensures !OccursAt(p, "%s", i) && !OccursAt(p, "%r", i) {
        if i + 2 <= |p| {
          assert p[i..i + 2][0] == p[i];
          assert p[i..i + 2][1] == p[i + 1];
        }
      }
    }
    ExpandIndicesAbove(n, args, |args|);
  }

  /** `cmd_expand('%r', ["c'thulu"])`. */
  lemma RawEscapesApostrophe(s: string)
    requires s == "c'thulu"
    ensures Expand("%r", [s]) == "'c\\'thulu'"
  {
    EscapedThulu(s);
    OneArgument(s, "c\\'thulu", "'c\\'thulu'");
  }

  /** `%r` with a single argument without '%'. */
  lemma OneArgument(s: string, e: string, q: string)
    requires '%' !in s && Escaped(s, Special) == e && q == "'" + e + "'"
    ensures Expand("%r", [s]) == q
  {
    assert PercentFreeArgs([s]);
    QuotedArguments([s]);
    assert Join([s], " ") == s;
  }

  /** A single quote between plain pieces gets its backslash. */
  lemma EscapedQuoteBetween(a: string, b: string)
    requires forall k :: 0 <= k < |a| ==> !Special(a[k])
    requires forall k :: 0 <= k < |b| ==> !Special(b[k])
    ensures Escaped(a + "'" + b, Special) == a + "\\'" + b
  {
    EscapedPlain(a, Special);
    EscapedPlain(b, Special);
    EscapedAppend(a, "'", Special);
    EscapedAppend(a + "'", b, Special);
    assert Escaped("'", Special) == "\\'" by {
      assert "'"[1..] == "";
    }
  }

  lemma EscapedThulu(s: string)
    requires s == "c'thulu"
    ensures '%' !in s
    ensures Escaped(s, Special) == "c\\'thulu"
  {
    var a, b := "c", "thulu";
    ThuluParts(s, a, b);
    EscapedQuoteBetween(a, b);
    assert a + "\\'" + b == "c\\'thulu";
  }

  lemma ThuluParts(s: string, a: string, b: string)
    requires s == "c'thulu" && a == "c" && b == "thulu"
    ensures s == a + "'" + b && '%' !in s
    ensures forall k :: 0 <= k < |a| ==> !Special(a[k])
    ensures forall k :: 0 <= k < |b| ==> !Special(b[k])
  {
  }
}
