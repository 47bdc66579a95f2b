/** The event-message serializer of src/comm.c: a message is a header
    naming the directive, the instance and the function, then one
    space-prefixed field per argument, then a newline. Strings are quoted
    and escaped so that a reader can find where each ends. */
module Comm {
  import opened Wrappers
  import opened Text
  import opened Numerals
  import Variables

  /** The characters `append_escaped` rewrites. */
  predicate NeedsEscape(c: char)
  {
    c == '\\' || c == '\'' || c == '\n'
  }

  /** The replacement `append_escaped` writes for one character. */
  function EscapeChar(c: char): (r: string)
    ensures NeedsEscape(c) ==> |r| == 2 && r[0] == '\\'
    ensures !NeedsEscape(c) ==> r == [c]
    ensures '\n' !in r
  {
    if c == '\\' then "\\\\"
    else if c == '\'' then "\\'"
    else if c == '\n' then "\\n"
    else [c]
  }

  /** How many characters of `s` are rewritten. */
  function EscapeCount(s: string): nat
  {
    if |s| == 0 then 0 else (if NeedsEscape(s[0]) then 1 else 0) + EscapeCount(s[1..])
  }

  /** The text `append_escaped` appends for `s`. It holds no newline, so an
      escaped field never ends a message early, and each rewritten
      character costs one extra byte. */
  function Escape(s: string): (r: string)
    ensures '\n' !in r
    ensures |r| == |s| + EscapeCount(s)
    ensures (forall i :: 0 <= i < |s| ==> !NeedsEscape(s[i])) ==> r == s
  {
    if |s| == 0 then "" else EscapeChar(s[0]) + Escape(s[1..])
  }

  lemma {:induction false} EscapeAppend(s: string, t: string)
    ensures Escape(s + t) == Escape(s) + Escape(t)
    decreases |s|
  {
    if |s| == 0 {
      assert s + t == t;
    } else {
      assert (s + t)[1..] == s[1..] + t;
      EscapeAppend(s[1..], t);
    }
  }

  /** `append_escaped(dest, src)`: the escaped `src` goes after what `dest`
      already holds, one character at a time. */
  method AppendEscaped(dest: string, src: string) returns (r: string)
    ensures r == dest + Escape(src)
  {
    r := dest;
    var i := 0;
    while i < |src|
      invariant 0 <= i <= |src|
      invariant r == dest + Escape(src[..i])
    {
      var c := src[i];
      var piece;
      if c == '\\' {
        piece := "\\\\";
      } else if c == '\'' {
        piece := "\\'";
      } else if c == '\n' {
        piece := "\\n";
      } else {
        piece := [c];
      }
      EscapePrefixStep(dest, src, i, r, piece);
      r := r + piece;
      i := i + 1;
    }
    assert src[..i] == src;
  }

  lemma EscapeSnoc(s: string, c: char)
    ensures Escape(s + [c]) == Escape(s) + EscapeChar(c)
  {
    EscapeAppend(s, [c]);
    assert [c][1..] == [];
  }

  /** One more source character escaped after what is already there. */
  lemma EscapePrefixStep(dest: string, src: string, i: nat, r: string, piece: string)
    requires i < |src| && r == dest + Escape(src[..i]) && piece == EscapeChar(src[i])
    ensures r + piece == dest + Escape(src[..i + 1])
  {
    EscapeSnoc(src[..i], src[i]);
    assert src[..i + 1] == src[..i] + [src[i]];
  }

  /** A reader of a quoted field, positioned after the opening quote: it
      undoes the escapes and stops at the first unescaped quote, giving the
      text and what follows the closing quote. An unknown escape, a raw
      newline or a missing closing quote is malformed. */
  function ReadEscaped(t: string): (r: Option<(string, string)>)
    ensures r.Some? ==> |r.value.1| < |t|
    decreases |t|
  {
    if |t| == 0 || t[0] == '\n' then None
    else if t[0] == '\'' then Some(("", t[1..]))
    else if t[0] == '\\' then
      if |t| < 2 || !(t[1] == '\\' || t[1] == '\'' || t[1] == 'n') then None
      else
        var c := if t[1] == 'n' then '\n' else t[1];
        match ReadEscaped(t[2..])
        case None => None
        case Some(p) => Some(([c] + p.0, p.1))
    else
      match ReadEscaped(t[1..])
      case None => None
      case Some(p) => Some(([t[0]] + p.0, p.1))
  }

  /** An escaped string followed by a quote reads back as the string, with
      the rest of the text untouched: the closing quote is never mistaken
      for one inside the field. */
  lemma {:induction false} ReadEscapedInverse(s: string, rest: string)
    ensures ReadEscaped(Escape(s) + "'" + rest) == Some((s, rest))
    decreases |s|
  {
    if |s| == 0 {
      var t := Escape(s) + "'" + rest;
      assert t == "'" + rest;
      assert t[1..] == rest;
    } else {
      var c := s[0];
      ReadEscapedInverse(s[1..], rest);
      var tail := Escape(s[1..]) + "'" + rest;
      EscapeConsRest(s, rest);
      ReadEscapedChar(c, tail, s[1..], rest);
      assert [c] + s[1..] == s;
    }
  }

  lemma EscapeConsRest(s: string, rest: string)
    requires |s| > 0
    ensures Escape(s) + "'" + rest == EscapeChar(s[0]) + (Escape(s[1..]) + "'" + rest)
  {
    AppendAssoc(EscapeChar(s[0]), Escape(s[1..]), "'");
    AppendAssoc(EscapeChar(s[0]), Escape(s[1..]) + "'", rest);
  }

  /** One escaped character in front of a readable field is read back. */
  lemma ReadEscapedChar(c: char, tail: string, v: string, rest: string)
    requires ReadEscaped(tail) == Some((v, rest))
    ensures ReadEscaped(EscapeChar(c) + tail) == Some(([c] + v, rest))
  {
    var t := EscapeChar(c) + tail;
    if NeedsEscape(c) {
      assert t[0] == '\\' && t[2..] == tail;
      assert (if t[1] == 'n' then '\n' else t[1]) == c;
    } else {
      assert t[0] == c && t[1..] == tail;
    }
  }

  /** The kinds of argument `uzbl_comm_vformat` takes, apart from doubles.
      `Int` and `ULL` carry the C `int` and `unsigned long long` passed
      through `va_arg`, so they are reduced to those widths when printed. */
  datatype Arg =
    | Int(i: int)
    | ULL(u: nat)
    | Str(s: string)             // escaped and single-quoted
    | FormattedStr(s: string)    // already escaped, copied verbatim
    | StrArray(items: seq<string>)
    | Name(name: string)         // must be a valid variable name

  /** One quoted, escaped string. */
  function Quoted(s: string): string
  {
    "'" + Escape(s) + "'"
  }

  /** The field an argument contributes, without its leading space. */
  function Field(a: Arg): string
  {
    match a
    case Int(i) => IntToDecimal(ToInt32(i))
    case ULL(u) => NatToDecimal(u % 0x1_0000_0000_0000_0000)
    case Str(s) => Quoted(s)
    case FormattedStr(s) => s
    case StrArray(items) => Join(QuotedAll(items), " ")
    case Name(name) => name
  }

  function QuotedAll(items: seq<string>): (r: seq<string>)
    ensures |r| == |items|
  {
    if |items| == 0 then [] else [Quoted(items[0])] + QuotedAll(items[1..])
  }

  /** Each item of the array quoted in its place. */
  lemma {:induction false} QuotedAllAt(items: seq<string>, k: nat)
    requires k < |items|
    ensures QuotedAll(items)[k] == Quoted(items[k])
    decreases k
  {
    if k > 0 {
      QuotedAllAt(items[1..], k - 1);
    }
  }

  /** Every argument as a space and its field. */
  function Fields(args: seq<Arg>): (r: string)
    ensures |args| == 0 ==> r == ""
    ensures |args| > 0 ==> |r| > 0 && r[0] == ' '
  {
    if |args| == 0 then "" else " " + Field(args[0]) + Fields(args[1..])
  }

  /** `"<directive> [<instance>] <function>"`. */
  function Header(directive: string, instance: string, function_: string): string
  {
    directive + " [" + instance + "] " + function_
  }

  /** A name argument that fails `uzbl_variables_is_valid` trips the
      assertion in `uzbl_comm_vformat`. */
  predicate BadName(a: Arg)
  {
    a.Name? && !Variables.IsValid(a.name)
  }

  /** `uzbl_comm_vformat(directive, function, args)` with the instance
      name as a parameter; `None` stands for the failed assertion. */
  function Format(directive: string, instance: string, function_: string, args: seq<Arg>): (r: Option<string>)
    ensures r.None? <==> exists k :: 0 <= k < |args| && BadName(args[k])
    ensures r.Some? ==> r.value == Header(directive, instance, function_) + Fields(args) + "\n"
  {
    if exists k :: 0 <= k < |args| && BadName(args[k]) then None
    else Some(Header(directive, instance, function_) + Fields(args) + "\n")
  }

  /** The fields of a message that holds only string arguments read back,
      one quoted field after each space, up to the final newline. */
  function ReadStrFields(t: string): (r: Option<seq<string>>)
    decreases |t|
  {
    if t == "\n" then Some([])
    else if |t| < 2 || t[0] != ' ' || t[1] != '\'' then None
    else
      match ReadEscaped(t[2..])
      case None => None
      case Some(p) =>
        match ReadStrFields(p.1)
        case None => None
        case Some(more) => Some([p.0] + more)
  }

  function StrArgs(ss: seq<string>): (r: seq<Arg>)
    ensures |r| == |ss| && forall k :: 0 <= k < |ss| ==> r[k] == Str(ss[k])
  {
    seq(|ss|, k requires 0 <= k < |ss| => Str(ss[k]))
  }

  lemma {:induction false} ReadStrFieldsInverse(ss: seq<string>)
    ensures ReadStrFields(Fields(StrArgs(ss)) + "\n") == Some(ss)
    decreases |ss|
  {
    if |ss| > 0 {
      assert [ss[0]] + ss[1..] == ss;
      var t := Fields(StrArgs(ss)) + "\n";
      var tail := Fields(StrArgs(ss[1..])) + "\n";
      StrFieldsCons(ss);
      ReadEscapedInverse(ss[0], tail);
      ReadStrFieldsInverse(ss[1..]);
      ReadStrFieldsStep(t, ss[0], tail);
    }
  }

  /** The first quoted field of a message of string arguments. */
  lemma StrFieldsCons(ss: seq<string>)
    requires |ss| > 0
    ensures var t := Fields(StrArgs(ss)) + "\n";
      |t| >= 2 && t[0] == ' ' && t[1] == '\'' && t[2..] == Escape(ss[0]) + "'" + (Fields(StrArgs(ss[1..])) + "\n")
  {
    FieldsStrCons(ss);
    OpenQuoteSplit(Escape(ss[0]), Fields(StrArgs(ss[1..])), "\n");
  }

  /** String arguments contribute their quoted text one after another. */
  lemma FieldsStrCons(ss: seq<string>)
    requires |ss| > 0
    ensures Fields(StrArgs(ss)) == " " + Quoted(ss[0]) + Fields(StrArgs(ss[1..]))
  {
    var a := StrArgs(ss);
    assert a[0] == Str(ss[0]);
    assert a[1..] == StrArgs(ss[1..]);
  }

  lemma OpenQuoteSplit(e: string, f: string, nl: string)
    ensures var t := " " + ("'" + e + "'") + f + nl;
      |t| >= 2 && t[0] == ' ' && t[1] == '\'' && t[2..] == e + "'" + (f + nl)
  {
    var t := " " + ("'" + e + "'") + f + nl;
    assert t == " '" + (e + "'" + (f + nl));
  }

  /** Reading one quoted field and then the rest. */
  lemma ReadStrFieldsStep(t: string, s: string, tail: string)
    requires |t| >= 2 && t[0] == ' ' && t[1] == '\''
    requires ReadEscaped(t[2..]) == Some((s, tail))
    ensures ReadStrFields(t) == match ReadStrFields(tail) case None => None case Some(more) => Some([s] + more)
  {
    assert t != "\n";
  }

  /** A message made of string arguments starts with the header, ends with
      its only newline when the header has none, and gives back every
      string. */
  lemma FormatStringsRoundTrip(directive: string, instance: string, function_: string, ss: seq<string>)
    ensures var r := Format(directive, instance, function_, StrArgs(ss));
      var h := Header(directive, instance, function_);
      r.Some? && h <= r.value && ReadStrFields(r.value[|h|..]) == Some(ss)
      && r.value[|r.value| - 1] == '\n'
  {
    var h := Header(directive, instance, function_);
    var r := Format(directive, instance, function_, StrArgs(ss));
    assert !exists k :: 0 <= k < |StrArgs(ss)| && BadName(StrArgs(ss)[k]);
    assert r.value[|h|..] == Fields(StrArgs(ss)) + "\n";
    ReadStrFieldsInverse(ss);
  }

  /** The newlines of a message: one at the end, plus any inside the header
      parts and the verbatim fields. With none there, the message is one
      line. */
  lemma {:induction false} FieldsHaveNoNewline(args: seq<Arg>)
    requires forall k :: 0 <= k < |args| ==> (args[k].FormattedStr? ==> '\n' !in args[k].s)
    requires forall k :: 0 <= k < |args| ==> (args[k].Name? ==> Variables.IsValid(args[k].name))
    ensures '\n' !in Fields(args)
    decreases |args|
  {
    if |args| > 0 {
      FieldHasNoNewline(args[0]);
      FieldsHaveNoNewline(args[1..]);
    }
  }

  lemma FieldHasNoNewline(a: Arg)
    requires a.FormattedStr? ==> '\n' !in a.s
    requires a.Name? ==> Variables.IsValid(a.name)
    ensures '\n' !in Field(a)
  {
    match a
    case Int(i) =>
      DigitsHaveNoNewline(NatToDecimal(if ToInt32(i) < 0 then -ToInt32(i) else ToInt32(i)));
    case ULL(u) =>
      DigitsHaveNoNewline(NatToDecimal(u % 0x1_0000_0000_0000_0000));
    case Str(s) =>
    case FormattedStr(s) =>
    case StrArray(items) =>
      forall k | 0 <= k < |QuotedAll(items)| ensures '\n' !in QuotedAll(items)[k] {
        QuotedAllAt(items, k);
      }
      JoinAvoids(QuotedAll(items), " ", '\n');
    case Name(name) =>
      Variables.IsValidMeans(name);
  }

  lemma DigitsHaveNoNewline(s: string)
    requires AllDigits(s)
    ensures '\n' !in s
  {
  }

  /** Joining pieces that avoid a character with a separator that avoids
      it gives a string that avoids it. */
  lemma {:induction false} JoinAvoids(parts: seq<string>, sep: string, c: char)
    requires c !in sep && forall k :: 0 <= k < |parts| ==> c !in parts[k]
    ensures c !in Join(parts, sep)
    decreases |parts|
  {
    if |parts| > 1 {
      JoinAvoids(parts[1..], sep, c);
    }
  }

  /** With no newline in the header parts or the verbatim fields, a
      formatted message has exactly one newline, its last character. */
  lemma FormatIsOneLine(directive: string, instance: string, function_: string, args: seq<Arg>)
    requires '\n' !in directive && '\n' !in instance && '\n' !in function_
    requires forall k :: 0 <= k < |args| ==> (args[k].FormattedStr? ==> '\n' !in args[k].s)
    requires forall k :: 0 <= k < |args| ==> !BadName(args[k])
    ensures Format(directive, instance, function_, args).Some?
    ensures var m := Format(directive, instance, function_, args).value;
      |m| > 0 && m[|m| - 1] == '\n' && '\n' !in m[..|m| - 1]
  {
    FieldsHaveNoNewline(args);
    var body := Header(directive, instance, function_) + Fields(args);
    var m := body + "\n";
    assert m[..|m| - 1] == body;
  }

  /** A non-empty array is written exactly like its items passed as
      separate strings; an empty one leaves a lone space. */
  lemma StrArrayIsStrings(items: seq<string>)
    ensures |items| > 0 ==> Fields([StrArray(items)]) == Fields(StrArgs(items))
    ensures |items| == 0 ==> Fields([StrArray(items)]) == " "
  {
    assert [StrArray(items)][1..] == [];
    if |items| > 0 {
      QuotedJoin(items);
    }
  }

  lemma {:induction false} QuotedJoin(items: seq<string>)
    requires |items| > 0
    ensures " " + Join(QuotedAll(items), " ") == Fields(StrArgs(items))
    decreases |items|
  {
    var q := QuotedAll(items);
    var f := Fields(StrArgs(items[1..]));
    FieldsStrCons(items);
    QuotedAllTail(items);
    if |items| == 1 {
      assert Join(q, " ") == q[0];
      assert StrArgs(items[1..]) == [];
    } else {
      QuotedJoin(items[1..]);
      var j := Join(q[1..], " ");
      assert Join(q, " ") == q[0] + " " + j;
      SpacedCons(q[0], j, f);
    }
  }

  lemma SpacedCons(a: string, j: string, f: string)
    requires " " + j == f
    ensures " " + (a + " " + j) == " " + a + f
  {
  }

  lemma QuotedAllTail(items: seq<string>)
    requires |items| > 0
    ensures QuotedAll(items)[0] == Quoted(items[0])
    ensures QuotedAll(items)[1..] == QuotedAll(items[1..])
  {
    assert QuotedAll(items) == [Quoted(items[0])] + QuotedAll(items[1..]);
  }

  /** The header is fixed by the directive, instance and function; each
      integer argument is its 32-bit value in decimal. */
  lemma FormatInt(directive: string, instance: string, function_: string, i: int)
    requires -0x8000_0000 <= i < 0x8000_0000
    ensures Format(directive, instance, function_, [Int(i)])
         == Some(Header(directive, instance, function_) + " " + IntToDecimal(i) + "\n")
  {
    assert ToInt32(i) == i;
    FormatOne(directive, instance, function_, Int(i), IntToDecimal(i));
  }

  /** A message of one valid argument is the header, a space, the
      argument's field and the newline. */
  lemma FormatOne(directive: string, instance: string, function_: string, a: Arg, f: string)
    requires !BadName(a) && Field(a) == f
    ensures Format(directive, instance, function_, [a]) == Some(Header(directive, instance, function_) + " " + f + "\n")
  {
    assert forall k :: 0 <= k < |[a]| ==> !BadName([a][k]);
    assert [a][1..] == [];
    assert Fields([a]) == " " + f + Fields([]);
    var h := Header(directive, instance, function_);
    assert h + Fields([a]) + "\n" == h + " " + f + "\n";
  }
}
