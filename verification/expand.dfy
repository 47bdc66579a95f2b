/** Variable expansion of a command line in its three revisions: `@name`
    and `@{name}` insert a variable's value, `@[…]@` inserts the
    markup-escaped expansion of its contents, and a backslash protects the
    next character. The expansions that run something (`@(…)@` the shell,
    `@/…/@` a command, `@<…>@`, `@*…*@` and `@-…-@` JavaScript) are an
    opaque `run` of their raw contents, which stands for expanding them and
    then running the result; the current revision's synchronous expansion
    runs no JavaScript. Variables are an opaque `lookup` of the name, with
    store-backed lookups given below. */
module Expand {
  import opened Wrappers
  import opened Text
  import opened Numerals
  import opened Revisions
  import Variables

  /** What follows an '@'. */
  datatype Kind =
    | SimpleVar | BracedVar
    | Shell | Uzbl | UzblJs | CleanJs | Js
    | Escape

  /** The characters that open a delimited or braced expansion after '@'.
      Only the current revision knows `@/`, `@*` and `@-`. */
  predicate Opens(rev: Revision, c: char)
  {
    c == '(' || c == '{' || c == '<' || c == '['
    || (rev == Current && (c == '/' || c == '*' || c == '-'))
  }

  /** `expand_type` / `get_exp_type`: the kind is decided by the character
      after the '@' alone (`None` for the terminating NUL). */
  function KindOf(rev: Revision, next: Option<char>): (r: Kind)
    ensures r == SimpleVar <==> next.None? || !Opens(rev, next.value)
    ensures r == BracedVar <==> next == Some('{')
    ensures r == Escape <==> next == Some('[')
    ensures r == Shell <==> next == Some('(')
    ensures r == Js <==> next == Some('<')
  {
    if next.None? then SimpleVar
    else
      var c := next.value;
      if c == '(' then Shell
      else if c == '{' then BracedVar
      else if c == '<' then Js
      else if c == '[' then Escape
      else if rev == Current && c == '/' then Uzbl
      else if rev == Current && c == '*' then UzblJs
      else if rev == Current && c == '-' then CleanJs
      else SimpleVar
  }

  /** The character that, followed by '@', ends a delimited expansion. */
  function Closer(k: Kind): char
    requires !k.SimpleVar? && !k.BracedVar?
  {
    match k
    case Shell => ')'
    case Uzbl => '/'
    case UzblJs => '*'
    case CleanJs => '-'
    case Js => '>'
    case Escape => ']'
  }

  /** The characters that may continue a simple `@name`: `valid_chars` in
      src/variables.c, everything but `end_simple_var` in the others. */
  predicate InName(rev: Revision, c: char)
  {
    match rev
    case Current => Variables.NameChar(c)
    case Core => !Variables.CoreForbidden(c)
    case Legacy => !Variables.LegacyForbidden(c)
  }

  /** The length of the simple name at the start of `t`: `strspn` over the
      valid characters, or `strpbrk` for the first terminator. */
  function NameLength(rev: Revision, t: string): (r: nat)
    ensures r <= |t|
    ensures forall i :: 0 <= i < r ==> InName(rev, t[i])
    ensures r < |t| ==> !InName(rev, t[r])
  {
    match rev
    case Current => Span(t, Variables.NameChar)
    case Core => (match FindAny(t, Variables.CoreForbidden) case None => |t| case Some(i) => i)
    case Legacy => (match FindAny(t, Variables.LegacyForbidden) case None => |t| case Some(i) => i)
  }

  /** The five characters `g_markup_escape_text` writes as entities. */
  predicate MarkupSpecial(c: char)
  {
    c == '&' || c == '<' || c == '>' || c == '"' || c == '\''
  }

  /** The one-byte control characters `g_markup_escape_text` writes as
      character references: the C0 controls but tab, line feed and carriage
      return, and DEL. */
  predicate ControlRef(c: char)
  {
    var v := c as int;
    (1 <= v <= 8) || v == 0x0B || v == 0x0C || (0x0E <= v <= 0x1F) || v == 0x7F
  }

  /** The UTF-8 lead byte 0xC2 and the continuation byte of a C1 control
      (U+0080 to U+009F, but U+0085) that `g_markup_escape_text` reads as
      one character and writes as a reference. The continuation byte is
      the code point. */
  predicate C1Ref(lead: char, c: char)
  {
    lead as int == 0xC2 && ((0x80 <= c as int <= 0x84) || (0x86 <= c as int <= 0x9F))
  }

  /** `&#x%x;`: the character reference of code point `v`. */
  function CharRef(v: nat): (r: string)
    ensures |r| >= 5 && r[0] == '&' && r[|r| - 1] == ';'
    ensures forall i :: 0 <= i < |r| ==> !MarkupSpecial(r[i]) || i == 0
    ensures forall i :: 0 <= i < |r| ==> !ControlRef(r[i])
  {
    var h := NatToHex(v);
    var r := "&#x" + h + ";";
    assert forall i :: 3 <= i < |r| - 1 ==> r[i] == h[i - 3];
    r
  }

  /** `g_markup_escape_text` on one byte that does not start a C1 control. */
  function MarkupChar(c: char): (r: string)
    ensures '<' !in r && '>' !in r && '"' !in r && '\'' !in r
    ensures forall i :: 0 <= i < |r| ==> !ControlRef(r[i])
    ensures !MarkupSpecial(c) && !ControlRef(c) ==> r == [c]
    ensures MarkupSpecial(c) || ControlRef(c) ==> |r| > 1 && r[0] == '&' && r[|r| - 1] == ';'
    ensures ControlRef(c) ==> r == CharRef(c as int)
  {
    if c == '&' then "&amp;"
    else if c == '<' then "&lt;"
    else if c == '>' then "&gt;"
    else if c == '\'' then "&#39;"
    else if c == '"' then "&quot;"
    else if ControlRef(c) then CharRef(c as int)
    else [c]
  }

  /** Text `g_markup_escape_text` copies unchanged: no markup character,
      no escaped control, no escaped C1 control. */
  predicate Unescaped(s: string)
  {
    && (forall i :: 0 <= i < |s| ==> !MarkupSpecial(s[i]) && !ControlRef(s[i]))
    && (forall i :: 0 < i < |s| ==> !C1Ref(s[i - 1], s[i]))
  }

  /** A character escaped text never holds: a markup character other
      than '&', which starts every entity, or an escaped control. */
  predicate MarkupBanned(c: char)
  {
    c == '<' || c == '>' || c == '"' || c == '\'' || ControlRef(c)
  }

  /** `g_markup_escape_text`: the five markup characters become entities,
      the escaped controls character references. */
  function Markup(s: string): (r: string)
    ensures forall i :: 0 <= i < |r| ==> !MarkupBanned(r[i])
    ensures |r| >= |s|
    ensures Unescaped(s) ==> r == s
    decreases |s|
  {
    if |s| == 0 then ""
    else if |s| > 1 && C1Ref(s[0], s[1]) then CharRef(s[1] as int) + Markup(s[2..])
    else
      assert Unescaped(s) ==> Unescaped(s[1..]) by {
        if Unescaped(s) {
          assert forall i :: 0 < i < |s| - 1 ==> s[1..][i - 1] == s[i] && s[1..][i] == s[i + 1];
        }
      }
      MarkupChar(s[0]) + Markup(s[1..])
  }

  /** The bytes of code point `v`, for the code points a reference of
      `Markup` holds: one byte below 0x80, else the lead byte 0xC2 and the
      code point. */
  function PointBytes(v: nat): Option<string>
  {
    if v < 0x80 then Some([v as char])
    else if v < 0xC0 then Some([0xC2 as char, v as char])
    else None
  }

  /** Whether `r` starts with `p`. */
  predicate StartsWith(r: string, p: string)
  {
    |p| <= |r| && r[..|p|] == p
  }

  /** The text the entity or hexadecimal reference at the front of `r`
      stands for, and its length. */
  function Reference(r: string): (e: Option<(string, nat)>)
    ensures e.Some? ==> 0 < e.value.1 <= |r|
  {
    if |r| < 2 || r[0] != '&' then None
    else if r[1] == 'a' then (if StartsWith(r, "&amp;") then Some(("&", 5)) else None)
    else if r[1] == 'l' then (if StartsWith(r, "&lt;") then Some(("<", 4)) else None)
    else if r[1] == 'g' then (if StartsWith(r, "&gt;") then Some((">", 4)) else None)
    else if r[1] == 'q' then (if StartsWith(r, "&quot;") then Some(("\"", 6)) else None)
    else if r[1] == '#' then
      if StartsWith(r, "&#39;") then Some(("'", 5))
      else if |r| > 2 && r[2] == 'x' then
        match HexReference(r[3..])
        case None => None
        case Some(e) => Some((e.0, e.1 + 3))
      else None
    else None
  }

  /** The text of a reference `h;` after its "&#x", and the length of `h;`. */
  function HexReference(u: string): (e: Option<(string, nat)>)
    ensures e.Some? ==> 0 < e.value.1 <= |u|
  {
    var j := IndexOfChar(u, ';');
    if j == 0 || j == |u| || !AllHex(u[..j]) then None
    else match PointBytes(HexValue(u[..j]))
      case None => None
      case Some(t) => Some((t, j + 1))
  }

  /** Reads markup text back: entities and references become what they
      stand for, every other character stays. */
  function Unmarkup(r: string): string
    decreases |r|
  {
    if |r| == 0 then ""
    else match Reference(r)
      case Some(e) => e.0 + Unmarkup(r[e.1..])
      case None => [r[0]] + Unmarkup(r[1..])
  }

  /** The escape loses nothing: reading the entities and references back
      gives the original text. */
  lemma {:induction false} MarkupRoundTrip(s: string)
    ensures Unmarkup(Markup(s)) == s
    decreases |s|
  {
    if |s| > 0 {
      if |s| > 1 && C1Ref(s[0], s[1]) {
        MarkupRoundTrip(s[2..]);
        UnmarkupRef(s[1] as int, Markup(s[2..]));
        assert s[0] == 0xC2 as char && (s[1] as int) as char == s[1];
        assert PointBytes(s[1] as int) == Some([s[0], s[1]]) && s[..2] == [s[0], s[1]];
        assert s[..2] + s[2..] == s;
      } else {
        MarkupRoundTrip(s[1..]);
        UnmarkupChar(s[0], Markup(s[1..]));
        assert [s[0]] + s[1..] == s;
      }
    }
  }

  /** Reading back one escaped byte. */
  lemma UnmarkupChar(c: char, t: string)
    ensures Unmarkup(MarkupChar(c) + t) == [c] + Unmarkup(t)
  {
    var m := MarkupChar(c);
    if ControlRef(c) {
      UnmarkupRef(c as int, t);
      assert PointBytes(c as int) == Some([c]);
    } else if MarkupSpecial(c) {
      UnmarkupEntity(m, [c], t);
    } else {
      assert (m + t)[0] == c && (m + t)[1..] == t;
    }
  }

  /** Reading back an entity at the front. */
  lemma UnmarkupEntity(m: string, c: string, t: string)
    requires (m, c) in {("&amp;", "&"), ("&lt;", "<"), ("&gt;", ">"), ("&#39;", "'"), ("&quot;", "\"")}
    ensures Unmarkup(m + t) == c + Unmarkup(t)
  {
    var r := m + t;
    assert r[..|m|] == m && r[|m|..] == t && r[0] == m[0] && r[1] == m[1];
    if m == "&#39;" {
      assert StartsWith(r, "&#39;");
    }
    assert Reference(r) == Some((c, |m|));
  }

  /** Reading back a character reference at the front. */
  lemma UnmarkupRef(v: nat, t: string)
    requires v < 0xC0
    ensures Unmarkup(CharRef(v) + t) == PointBytes(v).value + Unmarkup(t)
  {
    var h := NatToHex(v);
    var m := CharRef(v);
    var r := m + t;
    assert m == "&#x" + h + ";";
    assert r[0] == '&' && r[1] == '#' && r[2] == 'x' && r[3..] == h + ";" + t;
    assert !StartsWith(r, "&#39;") by {
      assert r[2] != "&#39;"[2];
    }
    HexRoundTrip(v);
    HexReferenceOf(h, t);
    assert Reference(r) == Some((PointBytes(v).value, |m|));
    assert r[|m|..] == t;
  }

  /** The hexadecimal digits `h` and ';' at the front of `u`. */
  lemma HexReferenceOf(h: string, t: string)
    requires |h| > 0 && AllHex(h) && PointBytes(HexValue(h)).Some?
    ensures HexReference(h + ";" + t) == Some((PointBytes(HexValue(h)).value, |h| + 1))
  {
    var u := h + ";" + t;
    var j := IndexOfChar(u, ';');
    assert j == |h| by {
      assert u[|h|] == ';';
      forall i | 0 <= i < |h|
        ensures u[i] != ';'
      {
        assert u[i] == h[i];
      }
    }
    assert u[..j] == h;
  }

  /** `piece` in front of the expansion of the rest, which may have failed. */
  function Then(piece: string, rest: Option<string>): (r: Option<string>)
    ensures r.Some? <==> rest.Some?
    ensures r.Some? ==> r.value == piece + rest.value
  {
    if rest.None? then None else Some(piece + rest.value)
  }

  /** The expansion of `s`. `None` is a read past the terminating NUL: an
      unterminated `@{`, `@(`, `@[`, …, whose end pointer is advanced past
      the end of the string, or, when `guarded` is false, a lone backslash
      at the end in the two older revisions, whose `*++s` reads the NUL and
      whose `s++` then steps past it. */
  function ExpandWith(s: string, rev: Revision, guarded: bool, lookup: string -> string,
                      run: (Kind, string) -> string): (r: Option<string>)
    decreases |s|, 1
  {
    if |s| == 0 then Some("")
    else if s[0] == '\\' then
      if |s| == 1 then
        if rev == Current then Some("\\") else if guarded then Some("") else None
      else if rev == Current then Then(s[..2], ExpandWith(s[2..], rev, guarded, lookup, run))
      else Then([s[1]], ExpandWith(s[2..], rev, guarded, lookup, run))
    else if s[0] == '@' then ExpandAt(s, rev, guarded, lookup, run)
    else Then([s[0]], ExpandWith(s[1..], rev, guarded, lookup, run))
  }

  /** The expansion of `s` from an '@' at its front, by the kind the next
      character selects. */
  function ExpandAt(s: string, rev: Revision, guarded: bool, lookup: string -> string,
                    run: (Kind, string) -> string): (r: Option<string>)
    requires |s| > 0 && s[0] == '@'
    decreases |s|, 0
  {
    var k := KindOf(rev, if |s| > 1 then Some(s[1]) else None);
    if k == SimpleVar then ExpandName(s[1..], rev, guarded, lookup, run)
    else if k == BracedVar then ExpandBraced(s[2..], rev, guarded, lookup, run)
    else ExpandDelimited(k, s[2..], rev, guarded, lookup, run)
  }

  /** `@name`: the longest run of name characters of `t` is looked up. */
  function ExpandName(t: string, rev: Revision, guarded: bool, lookup: string -> string,
                      run: (Kind, string) -> string): (r: Option<string>)
    decreases |t|, 2
  {
    var n := NameLength(rev, t);
    Then(lookup(t[..n]), ExpandWith(t[n..], rev, guarded, lookup, run))
  }

  /** `@{name}`: everything of `u` up to the first '}' is looked up. */
  function ExpandBraced(u: string, rev: Revision, guarded: bool, lookup: string -> string,
                        run: (Kind, string) -> string): (r: Option<string>)
    decreases |u|, 2
  {
    var e := IndexOfChar(u, '}');
    if e == |u| then None
    else Then(lookup(u[..e]), ExpandWith(u[e + 1..], rev, guarded, lookup, run))
  }

  /** The JavaScript expansions of the current revision, which only the
      asynchronous expansion runs: the synchronous one warns and goes on
      right after the opener, so the '@' and the opener are dropped and
      the contents and closer are expanded as ordinary text. */
  predicate SyncSkipped(k: Kind, rev: Revision)
  {
    rev == Current && (k == Js || k == UzblJs || k == CleanJs)
  }

  /** A delimited expansion: `u` up to the first closer followed by '@'
      is run, or for `@[…]@` expanded and markup-escaped; a skipped
      JavaScript expansion goes on with `u` itself. */
  function ExpandDelimited(k: Kind, u: string, rev: Revision, guarded: bool, lookup: string -> string,
                           run: (Kind, string) -> string): (r: Option<string>)
    requires !k.SimpleVar? && !k.BracedVar?
    decreases |u|, 2
  {
    if SyncSkipped(k, rev) then ExpandWith(u, rev, guarded, lookup, run)
    else match FindPair(u, Closer(k), '@')
    case None => None
    case Some(e) =>
      var rest := ExpandWith(u[e + 2..], rev, guarded, lookup, run);
      if k == Escape then
        match ExpandWith(u[..e], rev, guarded, lookup, run)
        case None => None
        case Some(inner) => Then(Markup(inner), rest)
      else Then(run(k, u[..e]), rest)
  }

  /** The expansion as written: only the current revision checks for the
      end of the string after a backslash. */
  function Expand(s: string, rev: Revision, lookup: string -> string, run: (Kind, string) -> string): Option<string>
  {
    ExpandWith(s, rev, rev == Current, lookup, run)
  }

  /** The older revisions with the end-of-string check the current one
      added: a lone trailing backslash is dropped. */
  function ExpandGuarded(s: string, rev: Revision, lookup: string -> string, run: (Kind, string) -> string): Option<string>
  {
    ExpandWith(s, rev, true, lookup, run)
  }

  /** `expand_impl` and `expand` on a NULL string give the empty string. */
  function ExpandNullable(s: Option<string>, rev: Revision, lookup: string -> string,
                          run: (Kind, string) -> string): (r: Option<string>)
    ensures s.None? ==> r == Some("")
    ensures s.Some? ==> r == Expand(s.value, rev, lookup, run)
  {
    if s.None? then Some("") else Expand(s.value, rev, lookup, run)
  }

  /** Text with neither '@' nor a backslash comes back unchanged. */
  lemma {:induction false} PlainUnchanged(s: string, rev: Revision, guarded: bool,
                                          lookup: string -> string, run: (Kind, string) -> string)
    requires '@' !in s && '\\' !in s
    ensures ExpandWith(s, rev, guarded, lookup, run) == Some(s)
    decreases |s|
  {
    if |s| > 0 {
      PlainUnchanged(s[1..], rev, guarded, lookup, run);
      assert [s[0]] + s[1..] == s;
    }
  }

  /** Each '@' and backslash preceded by a backslash: text that expands to
      itself in the older revisions. */
  function Protect(s: string): (r: string)
    ensures |r| >= |s|
  {
    if |s| == 0 then ""
    else if s[0] == '@' || s[0] == '\\' then ['\\', s[0]] + Protect(s[1..])
    else [s[0]] + Protect(s[1..])
  }

  /** In the older revisions a backslash drops itself and emits the next
      character uninterpreted, so protected text expands to the original;
      the current revision keeps the backslashes for the command parser
      to remove. */
  lemma {:induction false} ProtectRoundTrip(s: string, rev: Revision, guarded: bool,
                                            lookup: string -> string, run: (Kind, string) -> string)
    ensures rev != Current ==> ExpandWith(Protect(s), rev, guarded, lookup, run) == Some(s)
    ensures rev == Current ==> ExpandWith(Protect(s), rev, guarded, lookup, run) == Some(Protect(s))
    decreases |s|
  {
    if |s| > 0 {
      ProtectRoundTrip(s[1..], rev, guarded, lookup, run);
      var p := Protect(s);
      var tail := Protect(s[1..]);
      if s[0] == '@' || s[0] == '\\' {
        assert p[0] == '\\' && |p| > 1 && p[1] == s[0] && p[2..] == tail;
        assert p[..2] + tail == p;
      } else {
        assert p[0] == s[0] && p[1..] == tail;
      }
      assert [s[0]] + s[1..] == s;
    }
  }

  /** `\@uri` expands to `@uri` in the older revisions. */
  lemma EscapedAtIsLiteral(rev: Revision, lookup: string -> string, run: (Kind, string) -> string)
    requires rev != Current
    ensures Expand("\\@uri", rev, lookup, run) == Some("@uri")
  {
    ProtectRoundTrip("@uri", rev, false, lookup, run);
    ProtectAt("uri");
    PlainProtect("uri");
  }

  /** `\\\@uri` expands to `\@uri` in the older revisions. */
  lemma EscapedBackslashIsLiteral(rev: Revision, lookup: string -> string, run: (Kind, string) -> string)
    requires rev != Current
    ensures Expand("\\\\\\@uri", rev, lookup, run) == Some("\\@uri")
  {
    ProtectRoundTrip("\\@uri", rev, false, lookup, run);
    PlainProtect("uri");
    ProtectAt("uri");
    assert Protect("\\@uri") == "\\\\" + Protect("@uri");
  }

  /** `\@(echo hi)\@` expands to `@(echo hi)@` in the older revisions. */
  lemma EscapedCommandIsLiteral(rev: Revision, lookup: string -> string, run: (Kind, string) -> string)
    requires rev != Current
    ensures Expand("\\@(echo hi)\\@", rev, lookup, run) == Some("@(echo hi)@")
  {
    var a := "(echo hi)";
    EscapedWrapped(a, rev, lookup, run);
    assert "@" + a + "@" == "@(echo hi)@";
    assert "\\@" + a + "\\@" == "\\@(echo hi)\\@";
  }

  /** Escaping both '@' around such text gives the text between two '@'
      in the older revisions. */
  lemma EscapedWrapped(a: string, rev: Revision, lookup: string -> string, run: (Kind, string) -> string)
    requires rev != Current && '@' !in a && '\\' !in a
    ensures Expand("\\@" + a + "\\@", rev, lookup, run) == Some("@" + a + "@")
  {
    ProtectWrapped(a);
    ProtectRoundTrip("@" + a + "@", rev, false, lookup, run);
  }

  /** Text without '@' or a backslash between two '@': only the two are escaped. */
  lemma ProtectWrapped(a: string)
    requires '@' !in a && '\\' !in a
    ensures Protect("@" + a + "@") == "\\@" + a + "\\@"
  {
    PlainProtect(a);
    ProtectAt(a);
    ProtectAppend("@" + a, "@");
    ProtectAtSign();
  }

  lemma ProtectAtSign()
    ensures Protect("@") == "\\@"
  {
    assert "@"[1..] == "";
  }

  lemma ProtectAt(s: string)
    ensures Protect("@" + s) == "\\@" + Protect(s)
  {
    assert ("@" + s)[0] == '@' && ("@" + s)[1..] == s;
  }

  lemma {:induction false} PlainProtect(s: string)
    requires '@' !in s && '\\' !in s
    ensures Protect(s) == s
    decreases |s|
  {
    if |s| > 0 {
      PlainProtect(s[1..]);
      assert [s[0]] + s[1..] == s;
    }
  }

  lemma {:induction false} ProtectAppend(s: string, t: string)
    ensures Protect(s + t) == Protect(s) + Protect(t)
    decreases |s|
  {
    if |s| == 0 {
      assert s + t == t;
    } else {
      assert (s + t)[0] == s[0] && (s + t)[1..] == s[1..] + t;
      ProtectAppend(s[1..], t);
    }
  }

  /** `@name` takes the longest run of name characters and inserts the
      name's value; the expansion goes on after the name. */
  lemma SimpleVariable(name: string, rest: string, rev: Revision, guarded: bool,
                       lookup: string -> string, run: (Kind, string) -> string)
    requires |name| > 0 && forall i :: 0 <= i < |name| ==> InName(rev, name[i])
    requires |rest| > 0 ==> !InName(rev, rest[0])
    ensures ExpandWith("@" + name + rest, rev, guarded, lookup, run)
         == Then(lookup(name), ExpandWith(rest, rev, guarded, lookup, run))
  {
    var s := "@" + name + rest;
    var t := s[1..];
    assert t == name + rest;
    assert !Opens(rev, s[1]) by {
      assert s[1] == name[0] && InName(rev, name[0]);
    }
    var n := NameLength(rev, t);
    assert n == |name| by {
      assert forall i :: 0 <= i < |name| ==> t[i] == name[i];
      if |rest| > 0 {
        assert t[|name|] == rest[0];
      }
    }
    assert t[..n] == name && t[n..] == rest;
    assert ExpandWith(s, rev, guarded, lookup, run) == ExpandAt(s, rev, guarded, lookup, run);
    assert ExpandAt(s, rev, guarded, lookup, run) == ExpandName(t, rev, guarded, lookup, run);
  }

  /** `@{name}` inserts the value of everything up to the first '}'. */
  lemma BracedVariable(name: string, rest: string, rev: Revision, guarded: bool,
                       lookup: string -> string, run: (Kind, string) -> string)
    requires '}' !in name
    ensures ExpandWith("@{" + name + "}" + rest, rev, guarded, lookup, run)
         == Then(lookup(name), ExpandWith(rest, rev, guarded, lookup, run))
  {
    var s := "@{" + name + "}" + rest;
    var u := s[2..];
    assert u == name + "}" + rest;
    var e := IndexOfChar(u, '}');
    assert e == |name| by {
      assert u[|name|] == '}';
      assert forall i :: 0 <= i < |name| ==> u[i] == name[i];
    }
    assert u[..e] == name && u[e + 1..] == rest;
    assert ExpandWith(s, rev, guarded, lookup, run) == ExpandAt(s, rev, guarded, lookup, run);
    assert KindOf(rev, Some(s[1])) == BracedVar;
    assert ExpandAt(s, rev, guarded, lookup, run) == ExpandBraced(u, rev, guarded, lookup, run);
  }

  /** A delimited expansion ends at the first closer `c` followed by
      '@'. */
  lemma DelimitedEnd(c: char, inner: string, rest: string)
    requires FindPair(inner, c, '@').None?
    requires |inner| > 0 ==> inner[|inner| - 1] != c
    ensures FindPair(inner + [c, '@'] + rest, c, '@') == Some(|inner|)
  {
    var u := inner + [c, '@'] + rest;
    assert u[|inner|] == c && u[|inner| + 1] == '@';
    assert forall i :: 0 <= i < |inner| ==> !(u[i] == c && u[i + 1] == '@') by {
      forall i | 0 <= i < |inner|
        ensures !(u[i] == c && u[i + 1] == '@')
      {
        if i + 1 < |inner| {
          assert u[i] == inner[i] && u[i + 1] == inner[i + 1];
        } else {
          assert u[i] == inner[i];
        }
      }
    }
  }

  /** The parts of `@` `o` `inner` `c` `@` `rest`, as the expansion finds
      them. */
  lemma DelimitedSplit(o: char, c: char, inner: string, rest: string)
    requires FindPair(inner, c, '@').None?
    requires |inner| > 0 ==> inner[|inner| - 1] != c
    ensures var s := ['@', o] + inner + [c, '@'] + rest;
            && |s| > 1 && s[0] == '@' && s[1] == o
            && FindPair(s[2..], c, '@') == Some(|inner|)
            && s[2..][..|inner|] == inner && s[2..][|inner| + 2..] == rest
  {
    var s := ['@', o] + inner + [c, '@'] + rest;
    var u := s[2..];
    assert u == inner + [c, '@'] + rest;
    DelimitedEnd(c, inner, rest);
    assert u[..|inner|] == inner && u[|inner| + 2..] == rest;
  }

  /** `@[inner]@` inserts the markup-escaped expansion of `inner`. */
  lemma EscapedMarkup(inner: string, rest: string, rev: Revision, guarded: bool,
                      lookup: string -> string, run: (Kind, string) -> string)
    requires FindPair(inner, ']', '@').None? && (|inner| > 0 ==> inner[|inner| - 1] != ']')
    ensures var x := ExpandWith(inner, rev, guarded, lookup, run);
      ExpandWith("@[" + inner + "]@" + rest, rev, guarded, lookup, run)
      == (if x.None? then None else Then(Markup(x.value), ExpandWith(rest, rev, guarded, lookup, run)))
  {
    DelimitedSplit('[', ']', inner, rest);
    EscapeStep("@[" + inner + "]@" + rest, rev, guarded, lookup, run, |inner|);
  }

  /** `@(command)@` inserts what running the command gives. */
  lemma ShellCommand(inner: string, rest: string, rev: Revision, guarded: bool,
                     lookup: string -> string, run: (Kind, string) -> string)
    requires FindPair(inner, ')', '@').None? && (|inner| > 0 ==> inner[|inner| - 1] != ')')
    ensures ExpandWith("@(" + inner + ")@" + rest, rev, guarded, lookup, run)
         == Then(run(Shell, inner), ExpandWith(rest, rev, guarded, lookup, run))
  {
    DelimitedSplit('(', ')', inner, rest);
    DelimitedStep("@(" + inner + ")@" + rest, rev, guarded, lookup, run, |inner|);
  }

  /** One step of the expansion over a delimited expansion at the front
      that runs something and ends at `e`. */
  lemma DelimitedStep(s: string, rev: Revision, guarded: bool, lookup: string -> string,
                      run: (Kind, string) -> string, e: nat)
    requires |s| > 1 && s[0] == '@'
    requires var k := KindOf(rev, Some(s[1])); !k.SimpleVar? && !k.BracedVar? && !k.Escape? && !SyncSkipped(k, rev)
    requires FindPair(s[2..], Closer(KindOf(rev, Some(s[1]))), '@') == Some(e)
    ensures ExpandWith(s, rev, guarded, lookup, run)
         == Then(run(KindOf(rev, Some(s[1])), s[2..][..e]), ExpandWith(s[2..][e + 2..], rev, guarded, lookup, run))
  {
    var k := KindOf(rev, Some(s[1]));
    assert ExpandWith(s, rev, guarded, lookup, run) == ExpandAt(s, rev, guarded, lookup, run);
    assert ExpandAt(s, rev, guarded, lookup, run) == ExpandDelimited(k, s[2..], rev, guarded, lookup, run);
  }

  /** One step of the expansion over `@[…]@` at the front that ends at
      `e`. */
  lemma EscapeStep(s: string, rev: Revision, guarded: bool, lookup: string -> string,
                   run: (Kind, string) -> string, e: nat)
    requires |s| > 1 && s[0] == '@' && s[1] == '['
    requires FindPair(s[2..], ']', '@') == Some(e)
    ensures var x := ExpandWith(s[2..][..e], rev, guarded, lookup, run);
            ExpandWith(s, rev, guarded, lookup, run)
            == if x.None? then None else Then(Markup(x.value), ExpandWith(s[2..][e + 2..], rev, guarded, lookup, run))
  {
    assert KindOf(rev, Some(s[1])) == Escape;
    OpenerStep(s, rev, guarded, lookup, run);
    EscapeDelimited(s[2..], rev, guarded, lookup, run, e);
  }

  /** An '@' whose next character opens a delimited expansion hands the
      text after the opener to `ExpandDelimited`. */
  lemma OpenerStep(s: string, rev: Revision, guarded: bool, lookup: string -> string,
                   run: (Kind, string) -> string)
    requires |s| > 1 && s[0] == '@'
    requires var k := KindOf(rev, Some(s[1])); !k.SimpleVar? && !k.BracedVar?
    ensures ExpandWith(s, rev, guarded, lookup, run)
         == ExpandDelimited(KindOf(rev, Some(s[1])), s[2..], rev, guarded, lookup, run)
  {
    assert ExpandWith(s, rev, guarded, lookup, run) == ExpandAt(s, rev, guarded, lookup, run);
  }

  /** An escape that ends at `e` is the escaped expansion of its contents
      followed by the expansion of the rest. */
  lemma EscapeDelimited(u: string, rev: Revision, guarded: bool, lookup: string -> string,
                        run: (Kind, string) -> string, e: nat)
    requires FindPair(u, ']', '@') == Some(e)
    ensures var x := ExpandWith(u[..e], rev, guarded, lookup, run);
            ExpandDelimited(Escape, u, rev, guarded, lookup, run)
            == if x.None? then None else Then(Markup(x.value), ExpandWith(u[e + 2..], rev, guarded, lookup, run))
  {
    assert !SyncSkipped(Escape, rev) && Closer(Escape) == ']';
  }

  /** In the current revision `@<`, `@*` and `@-` only drop themselves:
      what follows is expanded as if they were not there, whether or not
      a closer follows. */
  lemma SyncJsDropsOpener(o: char, u: string, guarded: bool, lookup: string -> string,
                          run: (Kind, string) -> string)
    requires o == '<' || o == '*' || o == '-'
    ensures ExpandWith(['@', o] + u, Current, guarded, lookup, run) == ExpandWith(u, Current, guarded, lookup, run)
  {
    var s := ['@', o] + u;
    assert s[0] == '@' && s[1] == o && s[2..] == u;
    var k := KindOf(Current, Some(o));
    assert SyncSkipped(k, Current);
    assert ExpandWith(s, Current, guarded, lookup, run) == ExpandAt(s, Current, guarded, lookup, run);
    assert ExpandAt(s, Current, guarded, lookup, run) == ExpandDelimited(k, u, Current, guarded, lookup, run);
  }

  /** With `b` holding "X", "@<a>@b" expands to "a>X" in the current
      revision: the JavaScript is not run and `@b` after the closer is an
      ordinary variable. */
  lemma SyncJsExample(lookup: string -> string, run: (Kind, string) -> string)
    requires lookup("b") == "X"
    ensures Expand("@<a>@b", Current, lookup, run) == Some("a>X")
  {
    SyncJsDropsOpener('<', "a>@b", true, lookup, run);
    assert ['@', '<'] + "a>@b" == "@<a>@b";
    PlainPrefix("a>", "@b", Current, true, lookup, run);
    assert "a>" + "@b" == "a>@b";
    SimpleVariable("b", "", Current, true, lookup, run);
    assert "@" + "b" + "" == "@b";
    assert ExpandWith("", Current, true, lookup, run) == Some("");
    assert "a>" + ("X" + "") == "a>X";
  }

  /** Text with neither '@' nor a backslash in front of `rest` is copied
      and the expansion goes on with `rest`. */
  lemma {:induction false} PlainPrefix(a: string, rest: string, rev: Revision, guarded: bool,
                                       lookup: string -> string, run: (Kind, string) -> string)
    requires '@' !in a && '\\' !in a
    ensures ExpandWith(a + rest, rev, guarded, lookup, run) == Then(a, ExpandWith(rest, rev, guarded, lookup, run))
    decreases |a|
  {
    var x := ExpandWith(rest, rev, guarded, lookup, run);
    if |a| == 0 {
      assert a + rest == rest;
      if x.Some? {
        assert a + x.value == x.value;
      }
    } else {
      PlainPrefix(a[1..], rest, rev, guarded, lookup, run);
      assert (a + rest)[0] == a[0] && (a + rest)[1..] == a[1..] + rest;
      PlainStep(a + rest, rev, guarded, lookup, run);
      if x.Some? {
        assert [a[0]] + (a[1..] + x.value) == a + x.value;
      }
    }
  }

  /** An unterminated "@<a" is "a" in the current revision. */
  lemma SyncJsUnterminated(lookup: string -> string, run: (Kind, string) -> string)
    ensures Expand("@<a", Current, lookup, run) == Some("a")
  {
    SyncJsDropsOpener('<', "a", true, lookup, run);
    assert ['@', '<'] + "a" == "@<a";
    PlainUnchanged("a", Current, true, lookup, run);
  }

  /** The variable lookup of src/variables.c: `%s`, `%d` or `%llu` of the
      value, nothing for an unknown name. */
  function StoreLookup(store: Variables.Store): string -> string
  {
    (name: string) => if name in store then Variables.Print(store[name].value) else ""
  }

  /** The variable lookup of uzbl-core.c: a string as it is, an int in
      decimal, nothing for an unknown name. */
  function LegacyLookup(store: map<string, Variables.LegacyVariable>): string -> string
  {
    (name: string) =>
      if name !in store then ""
      else if store[name].value.LegacyStr? then store[name].value.s
      else IntToDecimal(store[name].value.i)
  }

  /** In the current revision, `@name` followed by a non-name character
      inserts the printed value of a known variable and nothing for an
      unknown one. */
  lemma VariableFromStore(store: Variables.Store, name: string, rest: string, run: (Kind, string) -> string)
    requires Variables.IsValid(name)
    requires |rest| > 0 ==> !Variables.NameChar(rest[0])
    ensures Expand("@" + name + rest, Current, StoreLookup(store), run)
         == Then(if name in store then Variables.Print(store[name].value) else "",
                 Expand(rest, Current, StoreLookup(store), run))
  {
    Variables.IsValidMeans(name);
    SimpleVariable(name, rest, Current, true, StoreLookup(store), run);
  }

  /** `@[@uri]@` with `uri` holding `<&>` gives `&lt;&amp;&gt;`. */
  lemma MarkupEscapesVariable(store: map<string, Variables.LegacyVariable>, run: (Kind, string) -> string)
    requires "uri" in store && store["uri"].value == Variables.LegacyStr("<&>")
    ensures Expand("@[@uri]@", Legacy, LegacyLookup(store), run) == Some("&lt;&amp;&gt;")
  {
    var lookup := LegacyLookup(store);
    UriIsName();
    EscapedVariable("uri", Legacy, false, lookup, run);
    LookupUri(store);
    MarkupOfLtAmpGt(lookup("uri"));
    EscapedUriText();
  }

  lemma EscapedUriText()
    ensures "@[@" + "uri" + "]@" == "@[@uri]@"
  {
  }

  lemma UriIsName()
    ensures forall i :: 0 <= i < |"uri"| ==> InName(Legacy, "uri"[i]) && "uri"[i] != ']'
  {
  }

  lemma LookupUri(store: map<string, Variables.LegacyVariable>)
    requires "uri" in store && store["uri"].value == Variables.LegacyStr("<&>")
    ensures var v := LegacyLookup(store)("uri"); |v| == 3 && v[0] == '<' && v[1] == '&' && v[2] == '>'
  {
  }

  /** `@[@name]@` inserts the markup-escaped value of `name`. */
  lemma EscapedVariable(name: string, rev: Revision, guarded: bool,
                        lookup: string -> string, run: (Kind, string) -> string)
    requires |name| > 0 && forall i :: 0 <= i < |name| ==> InName(rev, name[i]) && name[i] != ']'
    ensures ExpandWith("@[@" + name + "]@", rev, guarded, lookup, run) == Some(Markup(lookup(name)))
  {
    var inner := "@" + name;
    SimpleVariable(name, "", rev, guarded, lookup, run);
    assert "@" + name + "" == inner;
    assert ExpandWith("", rev, guarded, lookup, run) == Some("");
    assert lookup(name) + "" == lookup(name);
    assert forall i :: 0 <= i < |inner| ==> inner[i] != ']' by {
      forall i | 0 <= i < |inner| ensures inner[i] != ']' {
        if i > 0 { assert inner[i] == name[i - 1]; }
      }
    }
    EscapedMarkupOf(inner, rev, guarded, lookup, run);
    assert "@[" + inner + "]@" == "@[@" + name + "]@";
  }

  lemma EscapedMarkupOf(inner: string, rev: Revision, guarded: bool,
                        lookup: string -> string, run: (Kind, string) -> string)
    requires FindPair(inner, ']', '@').None? && (|inner| > 0 ==> inner[|inner| - 1] != ']')
    requires ExpandWith(inner, rev, guarded, lookup, run).Some?
    ensures ExpandWith("@[" + inner + "]@", rev, guarded, lookup, run)
         == Some(Markup(ExpandWith(inner, rev, guarded, lookup, run).value))
  {
    var x := ExpandWith(inner, rev, guarded, lookup, run).value;
    var s := "@[" + inner + "]@";
    EscapedMarkup(inner, "", rev, guarded, lookup, run);
    assert s + "" == s;
    assert ExpandWith("", rev, guarded, lookup, run) == Some("");
    assert ExpandWith(s, rev, guarded, lookup, run) == Then(Markup(x), Some(""));
    assert Markup(x) + "" == Markup(x);
  }

  lemma MarkupOfLtAmpGt(x: string)
    requires |x| == 3 && x[0] == '<' && x[1] == '&' && x[2] == '>'
    ensures Markup(x) == "&lt;&amp;&gt;"
  {
    MarkupCons(x[0], x[1..]);
    MarkupCons(x[1], x[2..]);
    MarkupCons(x[2], x[3..]);
    assert x == [x[0]] + x[1..] && x[1..] == [x[1]] + x[2..] && x[2..] == [x[2]] + x[3..] && x[3..] == "";
    assert MarkupChar(x[0]) == "&lt;" && MarkupChar(x[1]) == "&amp;" && MarkupChar(x[2]) == "&gt;";
    assert Markup(x[3..]) == "";
    EntitiesText();
  }

  lemma EntitiesText()
    ensures "&lt;" + ("&amp;" + ("&gt;" + "")) == "&lt;&amp;&gt;"
  {
  }

  /** A byte that does not start an escaped C1 control is escaped on its
      own. */
  lemma MarkupCons(c: char, rest: string)
    requires c as int != 0xC2
    ensures Markup([c] + rest) == MarkupChar(c) + Markup(rest)
  {
    assert ([c] + rest)[0] == c && ([c] + rest)[1..] == rest;
  }

  /** The older revisions read past the end of a string ending in a lone
      backslash. */
  lemma TrailingBackslashOverruns(s: string, rev: Revision, lookup: string -> string,
                                  run: (Kind, string) -> string)
    requires rev != Current && '@' !in s && '\\' !in s
    ensures Expand(s + "\\", rev, lookup, run).None?
  {
    TrailingBackslash(s, rev, false, lookup, run);
  }

  lemma {:induction false} TrailingBackslash(s: string, rev: Revision, guarded: bool,
                                             lookup: string -> string, run: (Kind, string) -> string)
    requires '@' !in s && '\\' !in s
    ensures ExpandWith(s + "\\", rev, guarded, lookup, run)
         == (if rev == Current then Some(s + "\\") else if guarded then Some(s) else None)
    decreases |s|
  {
    if |s| > 0 {
      assert (s + "\\")[0] == s[0] && (s + "\\")[1..] == s[1..] + "\\";
      assert s[0] != '@' && s[0] != '\\';
      TrailingBackslash(s[1..], rev, guarded, lookup, run);
      assert [s[0]] + s[1..] == s;
      assert [s[0]] + (s[1..] + "\\") == s + "\\";
    } else {
      assert s + "\\" == "\\";
    }
  }

  /** With the end-of-string check, protected text followed by a lone
      backslash expands to the original text in the older revisions. */
  lemma GuardedProtectRoundTrip(s: string, rev: Revision, lookup: string -> string,
                                run: (Kind, string) -> string)
    requires rev != Current
    ensures ExpandGuarded(Protect(s) + "\\", rev, lookup, run) == Some(s)
  {
    GuardedProtectStep(s, rev, lookup, run);
  }

  lemma {:induction false} GuardedProtectStep(s: string, rev: Revision, lookup: string -> string,
                                              run: (Kind, string) -> string)
    requires rev != Current
    ensures ExpandWith(Protect(s) + "\\", rev, true, lookup, run) == Some(s)
    decreases |s|
  {
    if |s| == 0 {
      assert Protect(s) + "\\" == "\\";
    } else {
      GuardedProtectStep(s[1..], rev, lookup, run);
      GuardedProtectCons(s, rev, lookup, run);
    }
  }

  /** The step of `GuardedProtectStep` over the first character. */
  lemma GuardedProtectCons(s: string, rev: Revision, lookup: string -> string, run: (Kind, string) -> string)
    requires rev != Current && |s| > 0
    requires ExpandWith(Protect(s[1..]) + "\\", rev, true, lookup, run) == Some(s[1..])
    ensures ExpandWith(Protect(s) + "\\", rev, true, lookup, run) == Some(s)
  {
    var special := s[0] == '@' || s[0] == '\\';
    var head := if special then ['\\', s[0]] else [s[0]];
    var tail := Protect(s[1..]) + "\\";
    var p := Protect(s) + "\\";
    assert Protect(s) == head + Protect(s[1..]);
    AppendAssoc(head, Protect(s[1..]), "\\");
    DropFront(head, tail);
    if special {
      BackslashStep(p, rev, true, lookup, run);
    } else {
      PlainStep(p, rev, true, lookup, run);
    }
    assert [s[0]] + s[1..] == s;
  }

  /** One step of the older revisions over a backslash and the character
      after it. */
  lemma BackslashStep(p: string, rev: Revision, guarded: bool, lookup: string -> string,
                      run: (Kind, string) -> string)
    requires rev != Current && |p| > 1 && p[0] == '\\'
    ensures ExpandWith(p, rev, guarded, lookup, run) == Then([p[1]], ExpandWith(p[2..], rev, guarded, lookup, run))
  {
  }

  /** One step over a character that is neither '@' nor a backslash. */
  lemma PlainStep(p: string, rev: Revision, guarded: bool, lookup: string -> string,
                  run: (Kind, string) -> string)
    requires |p| > 0 && p[0] != '@' && p[0] != '\\'
    ensures ExpandWith(p, rev, guarded, lookup, run) == Then([p[0]], ExpandWith(p[1..], rev, guarded, lookup, run))
  {
  }
}
