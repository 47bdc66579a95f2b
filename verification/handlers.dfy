/** `inject_handler_args` of uzbl-core.c: an event handler is an action and
    its arguments, and the handler's own arguments are slotted in after the
    first word of the user's arguments (the script body of `sh`, the program
    of `spawn`) when the action runs an external command. */
module Handlers {
  import opened Wrappers
  import opened Text
  import opened Revisions
  import opened Tokenizer
  import opened Commands

  /** The actions that run an external command. */
  predicate External(action: string)
  {
    action == "spawn" || action == "sh" || action == "sync_spawn"
    || action == "sync_sh" || action == "talk_to_socket"
  }

  /** The two strings returned: the action and its arguments. */
  datatype Injected = Injected(action: string, args: Option<string>)

  /** Each word preceded by one space. */
  function Spaced(ws: seq<string>): (r: string)
    ensures |ws| == 0 <==> r == ""
    ensures |ws| > 0 ==> r[0] == ' '
  {
    if |ws| == 0 then "" else " " + ws[0] + Spaced(ws[1..])
  }

  /** The handler arguments, space-prefixed, or nothing when NULL. */
  function HandlerPart(newargs: Option<string>): (r: string)
    ensures newargs.None? <==> r == ""
    ensures newargs.Some? ==> r == " " + newargs.value
  {
    if newargs.None? then "" else " " + newargs.value
  }

  /** `inject_handler_args(action, origargs, newargs)`. An external action
      whose arguments are NULL dereferences the NULL result of
      `split_quoted`, and one whose arguments end in a lone backslash has
      the legacy tokenizer read past the string; both are `None`. */
  function InjectHandlerArgs(action: string, origargs: Option<string>, newargs: Option<string>): (r: Option<Injected>)
    ensures !External(action) ==> r == Some(Injected(action, origargs))
    ensures External(action) && origargs.None? ==> r.None?
    ensures External(action) && origargs.Some? ==>
      (r.None? <==> Tokenize(origargs.value, false, Legacy).None?)
    ensures r.Some? ==> r.value.action == action
    ensures External(action) && r.Some? ==> r.value.args.Some?
  {
    if !External(action) then Some(Injected(action, origargs))
    else
      match SplitQuoted(origargs, false, Legacy)
      case Null => None
      case Overrun => None
      case Words(ws) => Some(Injected(action, Some(ws[0] + HandlerPart(newargs) + Spaced(ws[1..]))))
  }

  /** Words rejoined at single spaces. */
  lemma {:induction false} InterleaveSpaces(words: seq<string>, gaps: string)
    requires |words| == |gaps| + 1
    requires forall k :: 0 <= k < |gaps| ==> gaps[k] == ' '
    ensures Interleave(words, gaps) == words[0] + Spaced(words[1..])
    decreases |gaps|
  {
    if |gaps| > 0 {
      InterleaveSpaces(words[1..], gaps[1..]);
      assert words[1..][1..] == words[2..];
    }
  }

  /** For an external action the handler arguments land right after the
      first word of the user's arguments, and the rest of those arguments
      follows character for character. */
  lemma InjectAfterFirstWord(action: string, origargs: string, newargs: Option<string>)
    requires External(action)
    requires Tokenize(origargs, false, Legacy).Some?
    ensures var w0 := Tokenize(origargs, false, Legacy).value.words[0];
      w0 <= origargs &&
      InjectHandlerArgs(action, Some(origargs), newargs)
        == Some(Injected(action, Some(w0 + HandlerPart(newargs) + origargs[|w0|..])))
  {
    var t := Tokenize(origargs, false, Legacy).value;
    RawSplitIsLossless(origargs, Legacy);
    InterleaveSpaces(t.words, t.gaps);
    assert origargs == t.words[0] + Spaced(t.words[1..]);
    assert origargs[|t.words[0]|..] == Spaced(t.words[1..]);
  }

  /** Without handler arguments the user's arguments pass through. */
  lemma NoHandlerArgs(action: string, origargs: string)
    requires External(action)
    requires Tokenize(origargs, false, Legacy).Some?
    ensures InjectHandlerArgs(action, Some(origargs), None) == Some(Injected(action, Some(origargs)))
  {
    InjectAfterFirstWord(action, origargs, None);
    var w0 := Tokenize(origargs, false, Legacy).value.words[0];
    assert HandlerPart(None) == "";
    assert w0 + "" + origargs[|w0|..] == origargs;
  }

  /** Plain words joined at single spaces: the handler arguments follow
      the first of them. */
  lemma InjectPlainWords(action: string, ws: seq<string>, newargs: Option<string>)
    requires External(action)
    requires |ws| >= 1 && forall j :: 0 <= j < |ws| ==> PlainWord(ws[j], Legacy)
    ensures InjectHandlerArgs(action, Some(Join(ws, " ")), newargs)
      == Some(Injected(action, Some(ws[0] + HandlerPart(newargs) + Spaced(ws[1..]))))
  {
    SplitJoinedPlainWords(ws, false, Legacy);
  }

  /** The handler `sync_spawn echo uvw xyz` run with `abc def` runs
      `echo abc def uvw xyz`. */
  lemma InjectPutsArgsAfterCommand()
    ensures InjectHandlerArgs("sync_spawn", Some("echo uvw xyz"), Some("abc def"))
      == Some(Injected("sync_spawn", Some("echo abc def uvw xyz")))
  {
    var ws := ["echo", "uvw", "xyz"];
    assert forall j :: 0 <= j < |ws| ==> PlainWord(ws[j], Legacy);
    InjectPlainWords("sync_spawn", ws, Some("abc def"));
    InjectedWordsPlain(ws);
    assert HandlerPart(Some("abc def")) == " abc def";
    InjectedText();
  }

  lemma InjectedWordsPlain(ws: seq<string>)
    requires ws == ["echo", "uvw", "xyz"]
    ensures Join(ws, " ") == "echo uvw xyz"
    ensures ws[0] == "echo" && Spaced(ws[1..]) == " uvw xyz"
  {
    JoinUnfold(ws);
    JoinUnfold(ws[1..]);
    assert ws[1..][1..] == ["xyz"];
    assert ["xyz"][1..] == [];
  }

  lemma InjectedText()
    ensures "echo" + " abc def" + " uvw xyz" == "echo abc def uvw xyz"
  {
  }
}
