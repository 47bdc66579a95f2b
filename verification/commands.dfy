/** Turning a command line into a command and its arguments, as
    src/commands.c and its predecessor src/uzbl-core.c do it. The line has
    already been through variable expansion; the command table is reduced to
    whether each command wants its arguments split. */
module Commands {
  import opened Wrappers
  import opened Text
  import opened Revisions
  import opened Tokenizer

  /** `parse_command_arguments`: a command that does not split gets the
      whole remainder as its one argument; one that splits gets the
      unquoted words; no remainder gives no arguments. (src/uzbl-core.c
      passes `no_split`, the negation of `split`.) */
  function CommandArguments(args: Option<string>, split: bool, rev: Revision): (r: seq<string>)
    requires rev != Legacy
    ensures args.None? ==> r == []
    ensures args.Some? && !split ==> r == [args.value]
    ensures args.Some? && split ==> |r| >= 1
  {
    if !split && args.Some? then [args.value]
    else
      match SplitQuoted(args, true, rev)
      case Words(ws) => ws
      case _ => []
  }

  /** What parsing a command line gives. */
  datatype Parsed =
    | Empty                                      // the expanded line is empty
    | Unknown(line: string)                      // COMMAND_ERROR is sent with the line
    | Command(name: string, args: seq<string>)   // the table entry and its arguments

  /** `uzbl_commands_parse` / `parse_command_parts` on the expanded line:
      the command name is the text before the first space, looked up in
      `table` (name to "splits its arguments"); the text after that space,
      when there is one, is the argument string. */
  function Parse(line: string, table: map<string, bool>, rev: Revision): (r: Parsed)
    requires rev != Legacy
    ensures r.Empty? <==> line == ""
    ensures r.Unknown? ==> r.line == line && SplitFirst(line, ' ')[0] !in table
    ensures r.Command? ==> r.name in table && ' ' !in r.name && r.name <= line
    ensures r.Command? ==> |line| == |r.name| || line[|r.name|] == ' '
    ensures r.Command? && |line| == |r.name| ==> r.args == []
    ensures r.Command? && |line| > |r.name| && !table[r.name] ==> r.args == [line[|r.name| + 1..]]
  {
    if line == "" then Empty
    else
      var tokens := SplitFirst(line, ' ');
      var name := tokens[0];
      if name !in table then Unknown(line)
      else
        assert |tokens| == 2 ==> line == name + " " + tokens[1];
        Command(name, CommandArguments(if |tokens| == 2 then Some(tokens[1]) else None, table[name], rev))
  }

  /** A word the tokenizer passes through untouched. */
  predicate PlainWord(w: string, rev: Revision)
  {
    forall k :: 0 <= k < |w| ==> w[k] != '"' && w[k] != '\'' && w[k] != '\\' && !Separator(rev, w[k])
  }

  lemma JoinUnfold(ws: seq<string>)
    requires |ws| > 1
    ensures Join(ws, " ") == ws[0] + " " + Join(ws[1..], " ")
  {
  }

  /** A plain word is copied into the current word unchanged. */
  lemma {:induction false} PlainRun(s: string, i: nat, w: string, cur: string,
                                    unquote: bool, rev: Revision, guarded: bool)
    requires i + |w| <= |s| && s[i..i + |w|] == w && PlainWord(w, rev)
    ensures Scan(s, i, unquote, rev, guarded, false, false, cur)
         == Scan(s, i + |w|, unquote, rev, guarded, false, false, cur + w)
    decreases |w|
  {
    if |w| > 0 {
      assert s[i] == w[0] && !Separator(rev, w[0]);
      assert s[i + 1..i + 1 + |w[1..]|] == w[1..];
      assert PlainWord(w[1..], rev) by {
        forall k | 0 <= k < |w[1..]| ensures w[1..][k] == w[k + 1] {}
      }
      PlainRun(s, i + 1, w[1..], cur + [w[0]], unquote, rev, guarded);
      assert cur + [w[0]] + w[1..] == cur + w;
    } else {
      assert cur + w == cur;
    }
  }

  /** A space outside quotes ends the current word. */
  lemma SpaceStep(s: string, i: nat, cur: string, unquote: bool, rev: Revision, guarded: bool)
    requires i < |s| && s[i] == ' '
    ensures var rest := Scan(s, i + 1, unquote, rev, guarded, false, false, "");
      Scan(s, i, unquote, rev, guarded, false, false, cur)
        == if rest.None? then None else Some(Split([cur] + rest.value.words, [' '] + rest.value.gaps))
  {
    assert Separator(rev, ' ');
  }

  /** A suffix made of a word, a space and a tail, cut into those parts. */
  lemma SuffixSplit(s: string, i: nat, w: string, tail: string)
    requires i <= |s| && s[i..] == w + " " + tail
    ensures i + |w| < |s| && s[i..i + |w|] == w && s[i + |w|] == ' ' && s[i + |w| + 1..] == tail
  {
    assert s[i..][..|w|] == w;
    assert s[i..][|w|] == ' ';
    assert s[i..][|w| + 1..] == tail;
  }

  lemma {:induction false} ScanPlainWords(s: string, i: nat, ws: seq<string>, cur: string,
                                          unquote: bool, rev: Revision, guarded: bool)
    requires i <= |s| && |ws| >= 1 && s[i..] == Join(ws, " ")
    requires forall j :: 0 <= j < |ws| ==> PlainWord(ws[j], rev)
    ensures Scan(s, i, unquote, rev, guarded, false, false, cur).Some?
    ensures Scan(s, i, unquote, rev, guarded, false, false, cur).value.words == [cur + ws[0]] + ws[1..]
    decreases |ws|
  {
    var w := ws[0];
    var j := i + |w|;
    assert PlainWord(w, rev);
    if |ws| == 1 {
      assert s[i..] == w;
      assert s[i..j] == w;
      PlainRun(s, i, w, cur, unquote, rev, guarded);
      assert j == |s|;
    } else {
      var tail := Join(ws[1..], " ");
      JoinUnfold(ws);
      SuffixSplit(s, i, w, tail);
      PlainRun(s, i, w, cur, unquote, rev, guarded);
      SpaceStep(s, j, cur + w, unquote, rev, guarded);
      ScanPlainWords(s, j + 1, ws[1..], "", unquote, rev, guarded);
      assert [cur + w] + ([""+ ws[1]] + ws[2..]) == [cur + w] + ws[1..] by {
        assert "" + ws[1] == ws[1];
        assert [ws[1]] + ws[2..] == ws[1..];
      }
    }
  }

  /** Plain words joined by single spaces split back into the same words,
      quoted or not. */
  lemma SplitJoinedPlainWords(ws: seq<string>, unquote: bool, rev: Revision)
    requires |ws| >= 1 && forall j :: 0 <= j < |ws| ==> PlainWord(ws[j], rev)
    ensures Tokenize(Join(ws, " "), unquote, rev).Some?
    ensures Tokenize(Join(ws, " "), unquote, rev).value.words == ws
  {
    var s := Join(ws, " ");
    assert s[0..] == s;
    ScanPlainWords(s, 0, ws, "", unquote, rev, rev != Legacy);
    assert [ "" + ws[0]] + ws[1..] == ws;
  }

  /** A splitting command followed by plain words separated by single
      spaces gets exactly those words as its arguments. */
  lemma ParseSplitsPlainWords(name: string, ws: seq<string>, table: map<string, bool>, rev: Revision)
    requires rev != Legacy && name in table && table[name] && ' ' !in name
    requires |ws| >= 1 && forall j :: 0 <= j < |ws| ==> PlainWord(ws[j], rev)
    ensures Parse(name + " " + Join(ws, " "), table, rev) == Command(name, ws)
  {
    var line := name + " " + Join(ws, " ");
    SplitFirstAt(name, ' ', Join(ws, " "));
    SplitJoinedPlainWords(ws, true, rev);
  }

  /** `toggle foo bar baz` gives the arguments foo, bar and baz. */
  lemma ParseSimple(table: map<string, bool>)
    requires "toggle" in table && table["toggle"]
    ensures Parse("toggle foo bar baz", table, Current) == Command("toggle", ["foo", "bar", "baz"])
  {
    var ws := ["foo", "bar", "baz"];
    var line := "toggle" + " " + Join(ws, " ");
    assert line == "toggle foo bar baz" by {
      JoinUnfold(ws);
      JoinUnfold(ws[1..]);
      assert ws[1..][1..] == ["baz"];
    }
    assert forall j :: 0 <= j < |ws| ==> PlainWord(ws[j], Current);
    ParseSplitsPlainWords("toggle", ws, table, Current);
  }

  /** Doubled spaces give empty arguments: `toggle  foo  bar  baz` has six
      arguments, three of them empty. */
  lemma ParseDoubledSpaces(table: map<string, bool>)
    requires "toggle" in table && table["toggle"]
    ensures Parse("toggle  foo  bar  baz", table, Current)
         == Command("toggle", ["", "foo", "", "bar", "", "baz"])
  {
    var ws := ["", "foo", "", "bar", "", "baz"];
    var line := "toggle" + " " + Join(ws, " ");
    assert line == "toggle  foo  bar  baz" by {
      JoinUnfold(ws);
      JoinUnfold(ws[1..]);
      JoinUnfold(ws[2..]);
      JoinUnfold(ws[3..]);
      JoinUnfold(ws[4..]);
      assert ws[5..] == ["baz"];
    }
    assert forall j :: 0 <= j < |ws| ==> PlainWord(ws[j], Current);
    ParseSplitsPlainWords("toggle", ws, table, Current);
  }

  /** The non-empty words, in their order. */
  function NonEmptyWords(ws: seq<string>): (r: seq<string>)
    ensures |r| <= |ws|
    ensures forall j :: 0 <= j < |r| ==> r[j] != ""
    ensures forall w :: w in r <==> w in ws && w != ""
  {
    if |ws| == 0 then [] else (if ws[0] == "" then [] else [ws[0]]) + NonEmptyWords(ws[1..])
  }

  /** Words that are all non-empty are kept as they are. */
  lemma {:induction false} NonEmptyWordsKeeps(ws: seq<string>)
    requires forall j :: 0 <= j < |ws| ==> ws[j] != ""
    ensures NonEmptyWords(ws) == ws
  {
    if |ws| > 0 {
      NonEmptyWordsKeeps(ws[1..]);
      assert [ws[0]] + ws[1..] == ws;
    }
  }

  /** Parsing as the command tests expect it: a run of separators between
      two words of a splitting command ends the first word only once, so
      such a command never receives an empty argument. Everything else is
      as `Parse` has it. */
  function ParseCollapsed(line: string, table: map<string, bool>, rev: Revision): (r: Parsed)
    requires rev != Legacy
    ensures r.Command? <==> Parse(line, table, rev).Command?
    ensures !r.Command? ==> r == Parse(line, table, rev)
    ensures r.Command? ==> r.name == Parse(line, table, rev).name
    ensures r.Command? && table[r.name] ==> forall j :: 0 <= j < |r.args| ==> r.args[j] != ""
    ensures r.Command? && table[r.name] ==>
      forall w :: w in r.args <==> w in Parse(line, table, rev).args && w != ""
  {
    match Parse(line, table, rev)
    case Command(name, args) =>
      if table[name] then Command(name, NonEmptyWords(args)) else Command(name, args)
    case other => other
  }

  /** Doubled spaces no longer give empty arguments: `toggle  foo  bar  baz`
      has the three arguments the test expects. */
  lemma ParseCollapsedDoubledSpaces(table: map<string, bool>)
    requires "toggle" in table && table["toggle"]
    ensures ParseCollapsed("toggle  foo  bar  baz", table, Current) == Command("toggle", ["foo", "bar", "baz"])
  {
    ParseDoubledSpaces(table);
    DropEmptyBetween("foo", "bar", "baz");
  }

  /** The words of a doubled-space split, with their empty words dropped. */
  lemma DropEmptyBetween(a: string, b: string, c: string)
    requires a != "" && b != "" && c != ""
    ensures NonEmptyWords(["", a, "", b, "", c]) == [a, b, c]
  {
    assert NonEmptyWords([c]) == [c] + NonEmptyWords([]);
    assert NonEmptyWords(["", c]) == NonEmptyWords([c]) by { assert ["", c][1..] == [c]; }
    assert NonEmptyWords([b, "", c]) == [b] + NonEmptyWords(["", c]) by { assert [b, "", c][1..] == ["", c]; }
    assert NonEmptyWords(["", b, "", c]) == NonEmptyWords([b, "", c]) by { assert ["", b, "", c][1..] == [b, "", c]; }
    assert NonEmptyWords([a, "", b, "", c]) == [a] + NonEmptyWords(["", b, "", c]) by { assert [a, "", b, "", c][1..] == ["", b, "", c]; }
    assert NonEmptyWords(["", a, "", b, "", c]) == NonEmptyWords([a, "", b, "", c]) by { assert ["", a, "", b, "", c][1..] == [a, "", b, "", c]; }
  }

  /** On single-spaced non-empty plain words both parsers agree. */
  lemma CollapsedAgreesOnPlainWords(name: string, ws: seq<string>, table: map<string, bool>, rev: Revision)
    requires rev != Legacy && name in table && table[name] && ' ' !in name
    requires |ws| >= 1 && forall j :: 0 <= j < |ws| ==> PlainWord(ws[j], rev) && ws[j] != ""
    ensures ParseCollapsed(name + " " + Join(ws, " "), table, rev) == Parse(name + " " + Join(ws, " "), table, rev)
  {
    ParseSplitsPlainWords(name, ws, table, rev);
    NonEmptyWordsKeeps(ws);
  }

  /** `parse_command_from_file`: nothing for an empty line; otherwise the
      line with surrounding whitespace removed is run unless it is a
      comment. (A line of only whitespace runs the empty command, which
      parses to nothing.) */
  function CommandFromFile(cmd: string): (r: Option<string>)
    ensures cmd == "" ==> r.None?
    ensures r.Some? ==> |r.value| <= |cmd|
    ensures r.Some? && |r.value| > 0 ==> !IsCSpace(r.value[0]) && !IsCSpace(r.value[|r.value| - 1]) && r.value[0] != '#'
    ensures cmd != "" && r.None? ==> exists i :: 0 <= i < |cmd| && cmd[i] == '#'
  {
    if cmd == "" then None
    else
      var work := Strip(cmd, IsCSpace);
      if |work| > 0 && work[0] == '#' then
        assert work == LStrip(cmd, IsCSpace)[..|work|];
        None
      else Some(work)
  }

  /** `parse_cmd_line`: the stripped line is parsed unless it is empty or a
      comment. */
  function CommandLine(line: string): (r: Option<string>)
    ensures r.Some? ==> |r.value| > 0 && r.value[0] != '#'
    ensures r.Some? ==> !IsCSpace(r.value[0]) && !IsCSpace(r.value[|r.value| - 1])
    ensures r.None? ==> forall i :: 0 <= i < |line| && !IsCSpace(line[i]) ==> exists j :: 0 <= j <= i && line[j] == '#'
  {
    var work := Strip(line, IsCSpace);
    if work == "" || work[0] == '#' then
      assert work == LStrip(line, IsCSpace)[..|work|];
      None
    else Some(work)
  }

  /** Running a stripped line through either entry point changes nothing
      more. */
  lemma CommandLineIdempotent(line: string)
    requires CommandLine(line).Some?
    ensures CommandLine(CommandLine(line).value) == CommandLine(line)
    ensures CommandFromFile(line) == CommandLine(line)
  {
    StripIdempotent(line, IsCSpace);
  }
}
