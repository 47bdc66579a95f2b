/** The bind plugin of the event manager: a bind glob is parsed into
    stages separated by prompts, each stage is matched against the command
    being typed, and binds are kept per mode in insertion-ordered tables
    where a mode's binds override the global ones. */
module Binds {
  import opened Wrappers
  import opened Text
  import opened Globs
  import Arguments
  import KL = Keylet
  import CmdExpand

  // ---------------------------------------------------------------------
  // Binds
  // ---------------------------------------------------------------------

  /** What a bind runs: a Python function, identified by a number, or a
      uzbl command. */
  datatype Handler = Function(fn: nat) | Command(text: string)

  /** A prompt of a stacked bind: the prompt text, whether the set text is
      a command (`!`) or keycmd text (`:`), and the set text. */
  datatype Prompt = Prompt(prompt: string, isCmd: bool, setText: string)

  /** One stage of a bind: fires on exec events, takes an argument, the
      modifier tokens it needs, the text to match, and how many stages
      follow it. */
  datatype Stage = Stage(onExec: bool, hasArgs: bool, mods: set<string>, glob: string, more: nat)

  /** A parsed bind. `args` are the extra arguments: passed to a function,
      or further commands after the first. `bid` is the unique id the
      class counter hands out. */
  datatype Bind = Bind(glob: string, handler: Handler, args: seq<string>, bid: nat,
                       prompts: seq<Prompt>, stages: seq<Stage>, isGlobal: bool)

  /** Why a glob is refused: it is empty, a '*' stands before a prompt, a
      segment after a prompt is empty, or the glob starts with a prompt so
      that indexing the empty first segment fails. */
  datatype BindError = BlankGlob | StarBeforePrompt | NullSegment | EmptyFirstSegment

  /** The text segments of a prompt split: the text before the first
      prompt, then the text after each prompt. */
  function Texts(sp: Split): (r: seq<string>)
    ensures |r| == |sp.pieces| + 1 && r[0] == sp.head
    ensures forall k :: 0 <= k < |sp.pieces| ==> r[k + 1] == sp.pieces[k].after
  {
    [sp.head] + seq(|sp.pieces|, k requires 0 <= k < |sp.pieces| => sp.pieces[k].after)
  }

  /** A prompt that is not empty is made to end with ':'. */
  function NormalizePrompt(p: string): (r: string)
    ensures r == "" <==> p == ""
    ensures r != "" ==> r[|r| - 1] == ':'
    ensures StartsWith(r, p) && |r| <= |p| + 1
    ensures p != "" && p[|p| - 1] == ':' ==> r == p
  {
    if p != "" && p[|p| - 1] != ':' then p + ":" else p
  }

  /** Normalizing twice is normalizing once. */
  lemma NormalizeIdempotent(p: string)
    ensures NormalizePrompt(NormalizePrompt(p)) == NormalizePrompt(p)
  {
  }

  /** The `k`-th prompt of a split: its unquoted, normalized text, whether
      its marker is '!', and its unquoted set text. */
  function PromptOf(sp: Split, k: nat): Prompt
    requires k < |sp.pieces|
  {
    var pc := sp.pieces[k];
    Prompt(NormalizePrompt(Arguments.Unquote(pc.prompt)), pc.marker == "!", Arguments.Unquote(pc.setText))
  }

  /** The prompts of a split, in order. */
  function Prompts(sp: Split): (r: seq<Prompt>)
    ensures |r| == |sp.pieces|
    ensures forall k :: 0 <= k < |r| ==> r[k] == PromptOf(sp, k)
  {
    seq(|sp.pieces|, k requires 0 <= k < |sp.pieces| => PromptOf(sp, k))
  }

  /** A stage from its text: a last '!' or '_' makes it fire on exec, a
      last '*' or '_' makes it take an argument, that marker is dropped,
      and the leading modifier tokens are split off. */
  function MakeStage(text: string, more: nat): (r: Stage)
    requires text != ""
    ensures var last := text[|text| - 1];
            && (r.onExec <==> last == '!' || last == '_')
            && (r.hasArgs <==> last == '*' || last == '_')
    ensures var core := if r.onExec || r.hasArgs then text[..|text| - 1] else text;
            && EndsWith(core, r.glob) && ModStart(r.glob).None?
            && (r.mods == {} <==> r.glob == core)
            && (forall m :: m in r.mods ==> IsModToken(m))
    ensures r.more == more
  {
    var last := text[|text| - 1];
    var onExec := last == '!' || last == '_';
    var hasArgs := last == '*' || last == '_';
    var core := if hasArgs || onExec then text[..|text| - 1] else text;
    var (mods, glob) := SplitGlob(core);
    Stage(onExec, hasArgs, mods, glob, more)
  }

  /** The shape every constructed bind has: at least one stage, each
      stage counting the stages after it, and global exactly when it is a
      single stage with modifiers. */
  predicate WellFormed(b: Bind)
  {
    && |b.stages| >= 1
    && (forall k :: 0 <= k < |b.stages| ==> b.stages[k].more == |b.stages| - 1 - k)
    && (b.isGlobal <==> |b.stages| == 1 && b.stages[0].mods != {})
  }

  /** The stages of the text segments, each counting those after it. */
  function Stages(texts: seq<string>): (r: seq<Stage>)
    requires forall k :: 0 <= k < |texts| ==> texts[k] != ""
    ensures |r| == |texts|
    ensures forall k :: 0 <= k < |r| ==> r[k] == MakeStage(texts[k], |texts| - 1 - k)
  {
    seq(|texts|, k requires 0 <= k < |texts| => MakeStage(texts[k], |texts| - 1 - k))
  }

  /** The text segments of a glob. */
  function Segments(glob: string): (r: seq<string>)
    ensures |r| >= 1
  {
    Texts(SplitPrompts(glob, 0))
  }

  /** Some segment before the last ends in '*'. */
  predicate StarBefore(texts: seq<string>)
  {
    exists k :: 0 <= k < |texts| - 1 && EndsWith(texts[k], "*")
  }

  /** Some segment after the first is empty. */
  predicate NullAfter(texts: seq<string>)
  {
    exists k :: 1 <= k < |texts| && texts[k] == ""
  }

  /** The constructor's checks on the segments, in its order. */
  function CheckSegments(texts: seq<string>): (r: Option<BindError>)
    requires |texts| >= 1
    ensures r == Some(StarBeforePrompt) <==> StarBefore(texts)
    ensures r == Some(NullSegment) <==> !StarBefore(texts) && NullAfter(texts)
    ensures r == Some(EmptyFirstSegment) <==> !StarBefore(texts) && !NullAfter(texts) && texts[0] == ""
    ensures r.None? <==> forall k :: 0 <= k < |texts| ==> texts[k] != "" && (k < |texts| - 1 ==> !EndsWith(texts[k], "*"))
  {
    if StarBefore(texts) then Some(StarBeforePrompt)
    else if NullAfter(texts) then Some(NullSegment)
    else if texts[0] == "" then Some(EmptyFirstSegment)
    else None
  }

  /** `b` is the bind built from `glob`: one stage per segment, each
      counting the stages after it, and one prompt per prompt of the
      split. */
  predicate BuiltFrom(b: Bind, split: Split)
  {
    var texts := Texts(split);
    && |b.stages| == |texts|
    && (forall k :: 0 <= k < |texts| ==> texts[k] != "" && b.stages[k] == MakeStage(texts[k], |texts| - 1 - k))
    && |b.prompts| == |texts| - 1
    && (forall k :: 0 <= k < |texts| - 1 ==> b.prompts[k] == PromptOf(split, k))
  }

  /** `Bind(glob, handler, *args)`: the checks in the order the
      constructor makes them, then the prompts and the stages. */
  function New(glob: string, handler: Handler, args: seq<string>, bid: nat): (r: Result<Bind, BindError>)
    ensures r == Failure(BlankGlob) <==> glob == ""
    ensures glob != "" ==> (r.Failure? <==> CheckSegments(Segments(glob)).Some?)
    ensures glob != "" && r.Failure? ==> r.error == CheckSegments(Segments(glob)).value
    ensures r.Success? ==> BuiltFrom(r.value, SplitPrompts(glob, 0)) && WellFormed(r.value)
    ensures r.Success? ==> r.value.glob == glob && r.value.handler == handler && r.value.args == args && r.value.bid == bid
  {
    if glob == "" then Failure(BlankGlob)
    else
      var split := SplitPrompts(glob, 0);
      var texts := Texts(split);
      match CheckSegments(texts)
      case Some(e) => Failure(e)
      case None => Success(Build(glob, handler, args, bid, split))
  }

  /** The bind of a split that passed the checks. */
  function Build(glob: string, handler: Handler, args: seq<string>, bid: nat, split: Split): (r: Bind)
    requires CheckSegments(Texts(split)).None?
    ensures BuiltFrom(r, split) && WellFormed(r)
    ensures r.glob == glob && r.handler == handler && r.args == args && r.bid == bid
  {
    var texts := Texts(split);
    SegmentsNotEmpty(texts);
    var stages := Stages(texts);
    var b := Bind(glob, handler, args, bid, Prompts(split), stages, |stages| == 1 && stages[0].mods != {});
    BuiltStages(split, texts, b);
    StagesWellFormed(texts, b);
    b
  }

  /** Segments that pass the checks are not empty. */
  lemma SegmentsNotEmpty(texts: seq<string>)
    requires |texts| >= 1 && CheckSegments(texts).None?
    ensures forall k :: 0 <= k < |texts| ==> texts[k] != ""
  {
  }

  /** A bind made of the prompts and the stages of a split is built from
      that split. */
  lemma BuiltStages(split: Split, texts: seq<string>, b: Bind)
    requires texts == Texts(split) && forall k :: 0 <= k < |texts| ==> texts[k] != ""
    requires b.prompts == Prompts(split) && b.stages == Stages(texts)
    ensures BuiltFrom(b, split)
  {
  }

  /** The stages of non-empty segments make a well-formed bind when it is
      global exactly for one stage with modifiers. */
  lemma StagesWellFormed(texts: seq<string>, b: Bind)
    requires |texts| >= 1 && forall k :: 0 <= k < |texts| ==> texts[k] != ""
    requires b.stages == Stages(texts)
    requires b.isGlobal == (|b.stages| == 1 && b.stages[0].mods != {})
    ensures WellFormed(b)
  {
  }

  /** A glob without '<' is one stage made from the whole glob. */
  lemma NoPromptOneStage(glob: string, handler: Handler, args: seq<string>, bid: nat)
    requires glob != "" && '<' !in glob
    ensures New(glob, handler, args, bid).Success?
    ensures New(glob, handler, args, bid).value.stages == [MakeStage(glob, 0)]
    ensures New(glob, handler, args, bid).value.prompts == []
  {
    NoPromptNoSplit(glob);
    assert Texts(Split(glob, [])) == [glob];
  }

  /** `bind[depth]`: a global bind always answers with its one stage;
      otherwise the stage at `depth`, and None where Python's indexing
      raises. */
  function At(b: Bind, depth: nat): (r: Option<Stage>)
    ensures WellFormed(b) && b.isGlobal ==> r == Some(b.stages[0])
    ensures WellFormed(b) && !b.isGlobal ==> (r.Some? <==> depth < |b.stages|)
    ensures r.Some? && !b.isGlobal ==> depth < |b.stages| && r.value == b.stages[depth]
  {
    if b.isGlobal && |b.stages| > 0 then Some(b.stages[0])
    else if depth < |b.stages| then Some(b.stages[depth])
    else None
  }

  // ---------------------------------------------------------------------
  // Matching and executing
  // ---------------------------------------------------------------------

  /** The command a stage is matched against: the modifier command for a
      stage with modifiers, the key command otherwise. */
  function CommandFor(st: Stage, k: KL.Keylet): string
  {
    if st.mods != {} then k.modcmd else k.keycmd
  }

  /** Matching one stage: the held modifiers must be the stage's, if it
      has any; a stage taking an argument matches a command starting with
      its glob and yields the rest; any other stage needs the command to
      be its glob. */
  function StageMatch(st: Stage, modstate: set<string>, k: KL.Keylet): (r: Option<seq<string>>)
    ensures var cmd := CommandFor(st, k);
            r.Some? <==> (st.mods == {} || modstate == st.mods) && (if st.hasArgs then StartsWith(cmd, st.glob) else cmd == st.glob)
    ensures r.Some? && st.hasArgs ==> |r.value| == 1 && st.glob + r.value[0] == CommandFor(st, k)
    ensures r.Some? && !st.hasArgs ==> r.value == []
  {
    var cmd := CommandFor(st, k);
    if st.mods != {} && modstate != st.mods then None
    else if st.hasArgs then
      if StartsWith(cmd, st.glob) then
        assert st.glob + cmd[|st.glob|..] == cmd;
        Some([cmd[|st.glob|..]])
      else None
    else if cmd == st.glob then Some([])
    else None
  }

  /** What `match_and_exec` does with a bind.
      - NoMatch: returns False and does nothing.
      - Exec: runs the bind with `args`, clears the current command when
        `clearCurrent`, returns True.
      - Stacked: pushes the bind with `args` onto the stack and returns
        False; when `execEmpty` the next stage takes an empty argument and
        the bind runs with `args` and ''.
      - ExecStacked: runs the bind with the stacked arguments and its own,
        leaves the stack mode when `leave`, returns True.
      - Crash: the call raises. */
  datatype Decision =
    | NoMatch
    | Exec(args: seq<string>, clearCurrent: bool)
    | Stacked(args: seq<string>, execEmpty: bool)
    | ExecStacked(args: seq<string>, leave: bool)
    | Crash

  /** `match_and_exec(bind, depth, modstate, keylet, bindlet)` with the
      call at bind.py:452 passing only the bind and its arguments;
      `stacked` are the arguments the bindlet has collected. */
  function Decide(b: Bind, depth: nat, modstate: set<string>, k: KL.Keylet, stacked: seq<string>): (r: Decision)
    ensures r == Crash <==>
              At(b, depth).None?
              || (StageMatch(At(b, depth).value, modstate, k).Some? && !b.isGlobal
                  && At(b, depth).value.more != 0 && At(b, depth + 1).None?)
    ensures r == NoMatch <==> At(b, depth).Some? && StageMatch(At(b, depth).value, modstate, k).None?
    ensures r.Exec? ==>
              var st := At(b, depth).value;
              && (b.isGlobal || (st.more == 0 && depth == 0))
              && Some(r.args) == StageMatch(st, modstate, k) && (r.clearCurrent <==> !st.hasArgs)
    ensures r.Stacked? ==>
              var st := At(b, depth).value;
              && !b.isGlobal && st.more != 0 && Some(r.args) == StageMatch(st, modstate, k)
              && At(b, depth + 1).Some?
              && var next := At(b, depth + 1).value;
                 (r.execEmpty <==> !next.onExec && next.hasArgs && next.glob == "" && next.more == 0)
    ensures r.ExecStacked? ==>
              var st := At(b, depth).value;
              && !b.isGlobal && st.more == 0 && depth != 0
              && r.args == stacked + StageMatch(st, modstate, k).value
              && (r.leave <==> !st.hasArgs || st.onExec)
  {
    match At(b, depth)
    case None => Crash
    case Some(st) =>
      match StageMatch(st, modstate, k)
      case None => NoMatch
      case Some(args) =>
        if b.isGlobal || (st.more == 0 && depth == 0) then Exec(args, !st.hasArgs)
        else if st.more != 0 then
          match At(b, depth + 1)
          case None => Crash
          case Some(next) => Stacked(args, !next.onExec && next.hasArgs && next.glob == "" && next.more == 0)
        else ExecStacked(stacked + args, !st.hasArgs || st.onExec)
  }

  /** The code as written: the call at bind.py:452 names `uzbl`, which is
      not defined there, so the stacked branch that would run the bind
      raises instead. */
  function DecideAsWritten(b: Bind, depth: nat, modstate: set<string>, k: KL.Keylet, stacked: seq<string>): (r: Decision)
    ensures r == Crash <==> Decide(b, depth, modstate, k, stacked) == Crash
                            || (Decide(b, depth, modstate, k, stacked).Stacked? && Decide(b, depth, modstate, k, stacked).execEmpty)
    ensures r != Crash ==> r == Decide(b, depth, modstate, k, stacked)
  {
    var d := Decide(b, depth, modstate, k, stacked);
    if d.Stacked? && d.execEmpty then Crash else d
  }

  /** A constructed bind asked about one of its stages never fails for
      want of a stage. */
  lemma WellFormedNeverCrashes(b: Bind, depth: nat, modstate: set<string>, k: KL.Keylet, stacked: seq<string>)
    requires WellFormed(b) && depth < |b.stages|
    ensures Decide(b, depth, modstate, k, stacked) != Crash
  {
  }

  /** A global bind answers the same way at every depth. */
  lemma GlobalAtAnyDepth(b: Bind, d1: nat, d2: nat, modstate: set<string>, k: KL.Keylet, stacked: seq<string>)
    requires WellFormed(b) && b.isGlobal
    ensures Decide(b, d1, modstate, k, stacked) == Decide(b, d2, modstate, k, stacked)
  {
  }

  /** A single-stage bind without modifiers taking an argument: typing
      its glob and more runs it with the rest of the command. */
  lemma PrefixBindRuns(b: Bind, k: KL.Keylet, rest: string, modstate: set<string>)
    requires WellFormed(b) && |b.stages| == 1
    requires b.stages[0].mods == {} && b.stages[0].hasArgs
    requires k.keycmd == b.stages[0].glob + rest
    ensures Decide(b, 0, modstate, k, []) == Exec([rest], false)
  {
    assert k.keycmd[|b.stages[0].glob|..] == rest;
  }

  /** The segments of such a glob pass the checks and make those two
      stages. */
  lemma PromptThenStarSplit(t: string, p: string, split: Split)
    requires t != "" && '<' !in t
    requires t[|t| - 1] != '*' && t[|t| - 1] != '!' && t[|t| - 1] != '_'
    requires split == Split(t, [Piece(p, ":", "", ['*'])])
    ensures CheckSegments(Texts(split)).None?
    ensures Stages(Texts(split)) == [Stage(false, false, {}, t, 1), Stage(false, true, {}, "", 0)]
  {
    var texts := Texts(split);
    assert texts == [t, ['*']];
    assert t[|t| - 1..][0] == t[|t| - 1];
    assert !EndsWith(t, "*");
    assert !StarBefore(texts);
    assert !NullAfter(texts);
    PlainTextStage(t);
    StarStage();
    var st := Stages(texts);
    assert st[0] == MakeStage(t, 1) && st[1] == MakeStage(['*'], 0);
  }

  /** A text without '<' and without a marker at its end is a stage of
      its own that takes no argument. */
  lemma PlainTextStage(t: string)
    requires t != "" && '<' !in t
    requires t[|t| - 1] != '*' && t[|t| - 1] != '!' && t[|t| - 1] != '_'
    ensures MakeStage(t, 1) == Stage(false, false, {}, t, 1)
  {
    assert ModStart(t).None?;
    assert SplitGlob(t) == ({}, t);
  }

  /** A lone '*' is an empty stage taking an argument. */
  lemma StarStage()
    ensures MakeStage(['*'], 0) == Stage(false, true, {}, "", 0)
  {
    assert ['*'][..0] == "";
    assert SplitGlob("") == ({}, "");
  }

  /** A glob of a text, one prompt and a final '*', such as `o<name:>*`,
      is two stages: the text, then an empty glob taking an argument. */
  lemma PromptThenStarStages(t: string, p: string, s: string, handler: Handler, bid: nat)
    requires t != "" && '<' !in t
    requires t[|t| - 1] != '*' && t[|t| - 1] != '!' && t[|t| - 1] != '_'
    requires forall k :: 0 <= k < |p| ==> NotMarker(p[k])
    requires |p| > 0 && p[0] != '"' && p[0] != '\''
    requires s == t + ['<'] + p + [':', '>'] + ['*']
    ensures New(s, handler, [], bid).Success?
    ensures New(s, handler, [], bid).value.stages == [Stage(false, false, {}, t, 1), Stage(false, true, {}, "", 0)]
    ensures !New(s, handler, [], bid).value.isGlobal
  {
    OnePromptSplit(t, p, ['*'], s);
    PromptThenStarSplit(t, p, SplitPrompts(s, 0));
  }

  /** With that bind, typing its text at depth 0 stacks it and finds the
      next stage taking an empty argument right away: the corrected call
      runs the bind, the call as written raises. */
  lemma PromptThenStarCrashes(t: string, p: string, s: string, handler: Handler, bid: nat,
                              k: KL.Keylet, modstate: set<string>)
    requires t != "" && '<' !in t
    requires t[|t| - 1] != '*' && t[|t| - 1] != '!' && t[|t| - 1] != '_'
    requires forall i :: 0 <= i < |p| ==> NotMarker(p[i])
    requires |p| > 0 && p[0] != '"' && p[0] != '\''
    requires s == t + ['<'] + p + [':', '>'] + ['*']
    requires k.keycmd == t
    ensures New(s, handler, [], bid).Success?
    ensures Decide(New(s, handler, [], bid).value, 0, modstate, k, []) == Stacked([], true)
    ensures DecideAsWritten(New(s, handler, [], bid).value, 0, modstate, k, []) == Crash
  {
    PromptThenStarStages(t, p, s, handler, bid);
  }

  // ---------------------------------------------------------------------
  // Running a bind
  // ---------------------------------------------------------------------

  /** What `exec_bind` does: call the function with the match arguments
      followed by the bind's own, or send each command after expansion. */
  datatype Effect = Call(fn: nat, args: seq<string>) | Send(commands: seq<string>)

  /** The commands of a command bind: the handler text, then the extra
      arguments. */
  function Commands(b: Bind): seq<string>
    requires b.handler.Command?
  {
    [b.handler.text] + b.args
  }

  /** `exec_bind(bind, *args)`. */
  function ExecBind(b: Bind, args: seq<string>): (r: Effect)
    ensures b.handler.Function? ==> r == Call(b.handler.fn, args + b.args)
    ensures b.handler.Command? ==>
              && r.Send? && |r.commands| == |b.args| + 1
              && forall i :: 0 <= i < |r.commands| ==> r.commands[i] == CmdExpand.Expand(Commands(b)[i], args)
  {
    match b.handler
    case Function(fn) => Call(fn, args + b.args)
    case Command(_) =>
      var cmds := Commands(b);
      Send(seq(|cmds|, i requires 0 <= i < |cmds| => CmdExpand.Expand(cmds[i], args)))
  }

  /** Commands without placeholders are sent as they are. */
  lemma PlainCommandsSentVerbatim(b: Bind, args: seq<string>)
    requires b.handler.Command?
    requires forall i :: 0 <= i < |Commands(b)| ==> CmdExpand.NoPlaceholders(Commands(b)[i], |args|)
    ensures ExecBind(b, args) == Send(Commands(b))
  {
    forall i | 0 <= i < |Commands(b)|
      ensures ExecBind(b, args).commands[i] == Commands(b)[i]
    {
      CmdExpand.NoPlaceholdersUnchanged(Commands(b)[i], args);
    }
  }

  // ---------------------------------------------------------------------
  // Bind tables per mode
  // ---------------------------------------------------------------------

  /** One entry of a mode's table: a glob and its bind, None when the glob
      is unbound in that mode. */
  datatype Entry = Entry(glob: string, bind: Option<Bind>)

  /** A mode's table, a Python dict in insertion order. */
  type Table = seq<Entry>

  /** Each glob appears at most once. */
  predicate Distinct(t: Table)
  {
    forall i, j :: 0 <= i < j < |t| ==> t[i].glob != t[j].glob
  }

  /** `t.get(glob)`, with the missing key told apart from a None value. */
  function Lookup(t: Table, glob: string): (r: Option<Option<Bind>>)
    ensures r.Some? <==> exists k :: 0 <= k < |t| && t[k].glob == glob
    decreases |t|
  {
    if |t| == 0 then None
    else if t[0].glob == glob then Some(t[0].bind)
    else Lookup(t[1..], glob)
  }

  /** The entry at `k` of a table without repeated globs is what looking
      up its glob finds. */
  lemma {:induction false} LookupAt(t: Table, k: nat)
    requires Distinct(t) && k < |t|
    ensures Lookup(t, t[k].glob) == Some(t[k].bind)
    decreases k
  {
    if k > 0 {
      assert t[0].glob != t[k].glob;
      assert t[1..][k - 1] == t[k];
      LookupAt(t[1..], k - 1);
    }
  }

  /** `t[glob] = b`: an existing glob keeps its place, a new one goes at
      the end. */
  function Put(t: Table, glob: string, b: Option<Bind>): (r: Table)
    ensures Lookup(r, glob) == Some(b)
    ensures forall g :: g != glob ==> Lookup(r, g) == Lookup(t, g)
    ensures Lookup(t, glob).None? ==> r == t + [Entry(glob, b)]
    ensures Lookup(t, glob).Some? ==> |r| == |t|
    decreases |t|
  {
    if |t| == 0 then [Entry(glob, b)]
    else if t[0].glob == glob then [Entry(glob, b)] + t[1..]
    else [t[0]] + Put(t[1..], glob, b)
  }

  /** Putting keeps the globs of a table distinct. */
  lemma {:induction false} PutDistinct(t: Table, glob: string, b: Option<Bind>)
    requires Distinct(t)
    ensures Distinct(Put(t, glob, b))
    decreases |t|
  {
    if |t| > 0 && t[0].glob != glob {
      var rest := Put(t[1..], glob, b);
      PutDistinct(t[1..], glob, b);
      assert Lookup(t[1..], t[0].glob).None? by {
        forall k | 0 <= k < |t[1..]| ensures t[1..][k].glob != t[0].glob {
          assert t[1..][k] == t[k + 1];
        }
      }
      assert forall k :: 0 <= k < |rest| ==> rest[k].glob != t[0].glob;
    }
  }

  /** `dict(list(a.items()) + list(b.items()))`: the entries of `b` put
      over those of `a`, one at a time. */
  function Merge(a: Table, b: Table): (r: Table)
    decreases |b|
  {
    if |b| == 0 then a else Merge(Put(a, b[0].glob, b[0].bind), b[1..])
  }

  /** Merging keeps the globs distinct. */
  lemma {:induction false} MergeDistinct(a: Table, b: Table)
    requires Distinct(a)
    ensures Distinct(Merge(a, b))
    decreases |b|
  {
    if |b| > 0 {
      PutDistinct(a, b[0].glob, b[0].bind);
      MergeDistinct(Put(a, b[0].glob, b[0].bind), b[1..]);
    }
  }

  /** In a merge, a glob of `b` takes `b`'s bind and any other keeps
      `a`'s. */
  lemma {:induction false} MergeLookup(a: Table, b: Table, g: string)
    requires Distinct(b)
    ensures Lookup(Merge(a, b), g) == if Lookup(b, g).Some? then Lookup(b, g) else Lookup(a, g)
    decreases |b|
  {
    if |b| > 0 {
      MergeLookup(Put(a, b[0].glob, b[0].bind), b[1..], g);
      if g == b[0].glob {
        assert Lookup(b[1..], g).None? by {
          forall k | 0 <= k < |b[1..]| ensures b[1..][k].glob != g {
            assert b[1..][k] == b[k + 1];
          }
        }
      }
    }
  }

  /** The binds of a table that are not None, in order. */
  function NonNone(t: Table): (r: seq<Bind>)
    ensures forall x :: x in r <==> exists k :: 0 <= k < |t| && t[k].bind == Some(x)
    ensures |r| <= |t|
    decreases |t|
  {
    if |t| == 0 then []
    else
      var rest := NonNone(t[1..]);
      assert forall x :: (exists k :: 0 <= k < |t[1..]| && t[1..][k].bind == Some(x))
                         <==> (exists k :: 1 <= k < |t| && t[k].bind == Some(x)) by {
        forall x | exists k :: 1 <= k < |t| && t[k].bind == Some(x)
          ensures exists k :: 0 <= k < |t[1..]| && t[1..][k].bind == Some(x)
        {
          var k :| 1 <= k < |t| && t[k].bind == Some(x);
          assert t[1..][k - 1] == t[k];
        }
      }
      match t[0].bind
      case Some(x) => [x] + rest
      case None => rest
  }

  /** The global binds of a table: those not None that are global. */
  function GlobalsOf(t: Table): (r: seq<Bind>)
    ensures forall x :: x in r <==> (x.isGlobal && exists k :: 0 <= k < |t| && t[k].bind == Some(x))
    decreases |t|
  {
    if |t| == 0 then []
    else
      var rest := GlobalsOf(t[1..]);
      assert forall x :: (exists k :: 0 <= k < |t[1..]| && t[1..][k].bind == Some(x))
                         <==> (exists k :: 1 <= k < |t| && t[k].bind == Some(x)) by {
        forall x | exists k :: 1 <= k < |t| && t[k].bind == Some(x)
          ensures exists k :: 0 <= k < |t[1..]| && t[1..][k].bind == Some(x)
        {
          var k :| 1 <= k < |t| && t[k].bind == Some(x);
          assert t[1..][k - 1] == t[k];
        }
      }
      if t[0].bind.Some? && t[0].bind.value.isGlobal then [t[0].bind.value] + rest else rest
  }

  /** The name of the mode every bindlet has. */
  const Global: string := "global"

  /** The per-instance bind state: the tables per mode, the stack depth,
      the binds of the next stack level, and the global binds of the
      global table kept for use while stacked. */
  datatype Bindlet = Bindlet(binds: map<string, Table>, depth: nat, stackBinds: seq<Bind>, globals: seq<Bind>)

  /** What the bindlet keeps true: the global table exists, no table
      repeats a glob, and `globals` are the global table's global binds. */
  predicate Valid(bl: Bindlet)
  {
    && Global in bl.binds
    && (forall m :: m in bl.binds ==> Distinct(bl.binds[m]))
    && bl.globals == GlobalsOf(bl.binds[Global])
  }

  /** A new bindlet: an empty global table and no stack. */
  function Initial(): (r: Bindlet)
    ensures Valid(r) && r.depth == 0
  {
    Bindlet(map[Global := []], 0, [], [])
  }

  /** `add_bind(mode, glob, bind)`: a new mode gets a table of this one
      entry; otherwise the entry is put in the mode's table, and for the
      global mode the global binds are gathered again. */
  function AddBind(bl: Bindlet, mode: string, glob: string, b: Option<Bind>): (r: Bindlet)
    ensures Valid(bl) ==> Valid(r)
    ensures mode in r.binds && Lookup(r.binds[mode], glob) == Some(b)
    ensures forall g :: g != glob ==> Lookup(r.binds[mode], g) == (if mode in bl.binds then Lookup(bl.binds[mode], g) else None)
    ensures forall m :: m != mode ==> (m in r.binds <==> m in bl.binds)
    ensures forall m :: m != mode && m in bl.binds ==> r.binds[m] == bl.binds[m]
    ensures r.depth == bl.depth && r.stackBinds == bl.stackBinds
    ensures mode != Global ==> r.globals == bl.globals
  {
    if mode !in bl.binds then bl.(binds := bl.binds[mode := [Entry(glob, b)]])
    else
      var t := Put(bl.binds[mode], glob, b);
      assert Distinct(bl.binds[mode]) ==> Distinct(t) by {
        if Distinct(bl.binds[mode]) { PutDistinct(bl.binds[mode], glob, b); }
      }
      var next := bl.(binds := bl.binds[mode := t]);
      if mode == Global then next.(globals := GlobalsOf(t)) else next
  }

  /** The mode `get_binds` looks at: the one asked for, else the
      configured one, and the global mode when that is missing or
      empty. */
  function CurrentMode(mode: Option<string>, configMode: Option<string>): (r: string)
    ensures r != ""
    ensures mode.Some? && mode.value != "" ==> r == mode.value
    ensures mode.None? && configMode.Some? && configMode.value != "" ==> r == configMode.value
  {
    var m := if mode.Some? then mode.value else configMode.GetOr("");
    if m == "" then Global else m
  }

  /** The bind a glob has in a mode: the mode's entry if it has one, the
      global entry otherwise. */
  function Effective(bl: Bindlet, mode: string, g: string): Option<Bind>
    requires Global in bl.binds
  {
    var own := if mode in bl.binds && mode != Global then Lookup(bl.binds[mode], g) else None;
    if own.Some? then own.value else Lookup(bl.binds[Global], g).GetOr(None)
  }

  /** `get_binds(mode)`: while stacked, the stack binds and the global
      binds; otherwise the global table merged under the mode's, without
      the None entries. */
  function GetBinds(bl: Bindlet, mode: Option<string>, configMode: Option<string>): (r: seq<Bind>)
    requires Global in bl.binds
    ensures bl.depth > 0 ==> r == bl.stackBinds + bl.globals
  {
    var m := CurrentMode(mode, configMode);
    if bl.depth > 0 then bl.stackBinds + bl.globals
    else if m !in bl.binds || m == Global then NonNone(bl.binds[Global])
    else NonNone(Merge(bl.binds[Global], bl.binds[m]))
  }

  /** A bind is in a table without repeated globs, not None, exactly when
      some glob looks it up. */
  lemma NonNoneLookup(t: Table, x: Bind)
    requires Distinct(t)
    ensures x in NonNone(t) <==> exists g :: Lookup(t, g) == Some(Some(x))
  {
    if x in NonNone(t) {
      var k :| 0 <= k < |t| && t[k].bind == Some(x);
      LookupAt(t, k);
    }
    if exists g :: Lookup(t, g) == Some(Some(x)) {
      var g :| Lookup(t, g) == Some(Some(x));
      var k :| 0 <= k < |t| && t[k].glob == g;
      LookupAt(t, k);
    }
  }

  /** With the global table alone, the binds are those some glob has
      there. */
  lemma GlobalTableBinds(bl: Bindlet, m: string, x: Bind)
    requires Valid(bl) && (m !in bl.binds || m == Global)
    ensures x in NonNone(bl.binds[Global]) <==> exists g :: Effective(bl, m, g) == Some(x)
  {
    var gt := bl.binds[Global];
    assert Distinct(gt);
    assert forall g :: Effective(bl, m, g) == Lookup(gt, g).GetOr(None);
    NonNoneLookup(gt, x);
    if exists g :: Effective(bl, m, g) == Some(x) {
      var g :| Effective(bl, m, g) == Some(x);
      assert Lookup(gt, g) == Some(Some(x));
    }
  }

  /** With a mode table merged over the global one, the binds are those
      some glob has in the mode. */
  lemma MergedTableBinds(bl: Bindlet, m: string, x: Bind)
    requires Valid(bl) && m in bl.binds && m != Global
    ensures x in NonNone(Merge(bl.binds[Global], bl.binds[m])) <==> exists g :: Effective(bl, m, g) == Some(x)
  {
    var gt := bl.binds[Global];
    var merged := Merge(gt, bl.binds[m]);
    MergeDistinct(gt, bl.binds[m]);
    NonNoneLookup(merged, x);
    if exists g :: Lookup(merged, g) == Some(Some(x)) {
      var g :| Lookup(merged, g) == Some(Some(x));
      MergeLookup(gt, bl.binds[m], g);
      assert Effective(bl, m, g) == Some(x);
    }
    if exists g :: Effective(bl, m, g) == Some(x) {
      var g :| Effective(bl, m, g) == Some(x);
      MergeLookup(gt, bl.binds[m], g);
      assert Lookup(merged, g) == Some(Some(x));
    }
  }

  /** Outside the stack, the binds returned are exactly those some glob
      has in the mode: the mode's own entry overriding the global one,
      and an entry of None hiding the global bind. */
  lemma GetBindsOverride(bl: Bindlet, mode: Option<string>, configMode: Option<string>, x: Bind)
    requires Valid(bl) && bl.depth == 0
    ensures x in GetBinds(bl, mode, configMode) <==> exists g :: Effective(bl, CurrentMode(mode, configMode), g) == Some(x)
  {
    var m := CurrentMode(mode, configMode);
    if m !in bl.binds || m == Global {
      GlobalTableBinds(bl, m, x);
    } else {
      MergedTableBinds(bl, m, x);
    }
  }

  // ---------------------------------------------------------------------
  // Adding binds to modes
  // ---------------------------------------------------------------------

  /** Why a mode bind is refused. */
  datatype Error =
    | BadBind(bindError: BindError)  // the bind could not be made
    | InvalidMode                    // a mode name fails the pattern
    | NoModes                        // no mode is named: the log line reads an unbound variable
    | MissingSection                 // a MODE_BIND event with fewer than two arguments
    | MissingDelimiter               // a MODE_BIND event without '='

  /** The event announcing each bind added. */
  datatype Added = Added(mode: string, glob: string, bind: Option<Bind>)

  /** `[A-Za-z0-9_]`. */
  predicate IsModeChar(c: char)
  {
    IsAsciiAlnum(c) || c == '_'
  }

  /** `[A-Za-z0-9][A-Za-z0-9_]*` over the whole text. */
  predicate ModeBody(s: string)
  {
    |s| > 0 && IsAsciiAlnum(s[0]) && forall k :: 1 <= k < |s| ==> IsModeChar(s[k])
  }

  /** `VALID_MODE(m)` of `^(-|)[A-Za-z0-9][A-Za-z0-9_]*$`: an optional
      '-' and a mode body, where `$` also matches before a final
      newline. */
  predicate ValidMode(m: string)
  {
    var body := if |m| > 0 && m[0] == '-' then m[1..] else m;
    ModeBody(body) || (|body| > 0 && body[|body| - 1] == '\n' && ModeBody(body[..|body| - 1]))
  }

  /** The modes named: each stripped of whitespace, the empty ones
      dropped. */
  function Names(modes: seq<string>): (r: seq<string>)
    ensures |r| <= |modes|
    ensures forall k :: 0 <= k < |r| ==> r[k] != "" && Strip(r[k], IsPySpace) == r[k]
    decreases |modes|
  {
    if |modes| == 0 then []
    else
      var m := Strip(modes[0], IsPySpace);
      StripIdempotent(modes[0], IsPySpace);
      if m == "" then Names(modes[1..]) else [m] + Names(modes[1..])
  }

  /** A name starting with '-' unbinds the glob in the mode. */
  predicate Unbinds(name: string)
  {
    |name| > 0 && name[0] == '-'
  }

  /** The mode a name refers to. */
  function Target(name: string): (r: string)
    ensures Unbinds(name) ==> "-" + r == name
    ensures !Unbinds(name) ==> r == name
  {
    if Unbinds(name) then name[1..] else name
  }

  /** What a name binds its mode's glob to: nothing for an unbinding
      name, the bind otherwise. */
  function Intended(name: string, bind: Option<Bind>): Option<Bind>
  {
    if Unbinds(name) then None else bind
  }

  /** The mode targets of the names are distinct. */
  predicate DistinctTargets(names: seq<string>)
  {
    forall i, j :: 0 <= i < j < |names| ==> Target(names[i]) != Target(names[j])
  }

  /** The loop adding the bind to each named mode, each name deciding for
      its own mode whether it binds or unbinds. */
  function AddAll(bl: Bindlet, names: seq<string>, glob: string, bind: Option<Bind>): (r: (Bindlet, seq<Added>))
    ensures Valid(bl) ==> Valid(r.0)
    ensures r.0.depth == bl.depth
    ensures |r.1| == |names|
    ensures forall k :: 0 <= k < |names| ==> r.1[k] == Added(Target(names[k]), glob, Intended(names[k], bind))
    decreases |names|
  {
    if |names| == 0 then (bl, [])
    else
      var b := Intended(names[0], bind);
      var rest := AddAll(AddBind(bl, Target(names[0]), glob, b), names[1..], glob, bind);
      (rest.0, [Added(Target(names[0]), glob, b)] + rest.1)
  }

  /** The loop as written: once a name has unbound, the bind variable
      stays None for every later name. */
  function AddAllAsWritten(bl: Bindlet, names: seq<string>, glob: string, bind: Option<Bind>): (r: (Bindlet, seq<Added>))
    ensures Valid(bl) ==> Valid(r.0)
    ensures |r.1| == |names|
    decreases |names|
  {
    if |names| == 0 then (bl, [])
    else
      var b := Intended(names[0], bind);
      var rest := AddAllAsWritten(AddBind(bl, Target(names[0]), glob, b), names[1..], glob, b);
      (rest.0, [Added(Target(names[0]), glob, b)] + rest.1)
  }

  /** With distinct targets, every named mode ends up with the glob bound
      as its own name says, and no other mode changes. */
  lemma AddAllEffect(bl: Bindlet, names: seq<string>, glob: string, bind: Option<Bind>)
    requires DistinctTargets(names)
    ensures var r := AddAll(bl, names, glob, bind).0;
            forall k :: 0 <= k < |names| ==>
              Target(names[k]) in r.binds && Lookup(r.binds[Target(names[k])], glob) == Some(Intended(names[k], bind))
    ensures var r := AddAll(bl, names, glob, bind).0;
            forall m :: (forall k :: 0 <= k < |names| ==> Target(names[k]) != m) ==>
              (m in r.binds <==> m in bl.binds) && (m in bl.binds ==> r.binds[m] == bl.binds[m])
  {
    AddAllBinds(bl, names, glob, bind);
    AddAllKeeps(bl, names, glob, bind);
  }

  /** The tail of names with distinct targets has distinct targets, none
      of them the first name's. */
  lemma DistinctTail(names: seq<string>)
    requires |names| > 0 && DistinctTargets(names)
    ensures DistinctTargets(names[1..])
    ensures forall k :: 0 <= k < |names| - 1 ==> Target(names[1..][k]) != Target(names[0])
  {
    var tail := names[1..];
    forall i, j | 0 <= i < j < |tail| ensures Target(tail[i]) != Target(tail[j]) {
      assert tail[i] == names[i + 1] && tail[j] == names[j + 1];
    }
    forall k | 0 <= k < |tail| ensures Target(tail[k]) != Target(names[0]) {
      assert tail[k] == names[k + 1];
    }
  }

  /** Every named mode ends up with the glob bound as its own name says. */
  lemma {:induction false} AddAllBinds(bl: Bindlet, names: seq<string>, glob: string, bind: Option<Bind>)
    requires DistinctTargets(names)
    ensures var r := AddAll(bl, names, glob, bind).0;
            forall k :: 0 <= k < |names| ==>
              Target(names[k]) in r.binds && Lookup(r.binds[Target(names[k])], glob) == Some(Intended(names[k], bind))
    decreases |names|
  {
    if |names| > 0 {
      var first := AddBind(bl, Target(names[0]), glob, Intended(names[0], bind));
      var tail := names[1..];
      DistinctTail(names);
      AddAllBinds(first, tail, glob, bind);
      AddAllKeeps(first, tail, glob, bind);
      var r := AddAll(bl, names, glob, bind).0;
      assert r == AddAll(first, tail, glob, bind).0;
      forall k | 0 <= k < |names|
        ensures Target(names[k]) in r.binds && Lookup(r.binds[Target(names[k])], glob) == Some(Intended(names[k], bind))
      {
        if k > 0 { assert names[k] == tail[k - 1]; }
      }
    }
  }

  /** A mode none of the names targets keeps its binds. */
  lemma {:induction false} AddAllKeeps(bl: Bindlet, names: seq<string>, glob: string, bind: Option<Bind>)
    ensures var r := AddAll(bl, names, glob, bind).0;
            forall m :: (forall k :: 0 <= k < |names| ==> Target(names[k]) != m) ==>
              (m in r.binds <==> m in bl.binds) && (m in bl.binds ==> r.binds[m] == bl.binds[m])
    decreases |names|
  {
    if |names| > 0 {
      var first := AddBind(bl, Target(names[0]), glob, Intended(names[0], bind));
      var tail := names[1..];
      AddAllKeeps(first, tail, glob, bind);
      var r := AddAll(bl, names, glob, bind).0;
      assert r == AddAll(first, tail, glob, bind).0;
      forall m | forall k :: 0 <= k < |names| ==> Target(names[k]) != m
        ensures (m in r.binds <==> m in bl.binds) && (m in bl.binds ==> r.binds[m] == bl.binds[m])
      {
        assert Target(names[0]) != m;
        forall k | 0 <= k < |tail| ensures Target(tail[k]) != m {
          assert tail[k] == names[k + 1];
        }
      }
    }
  }

  /** An unbinding name before a binding one: the loop as written leaves
      the second mode unbound, the intended loop binds it. */
  lemma CarriedUnbind(bl: Bindlet, u: string, m: string, glob: string, b: Bind)
    requires Unbinds(u) && m != "" && !Unbinds(m) && Target(u) != m
    ensures var r := AddAllAsWritten(bl, [u, m], glob, Some(b)).0;
            m in r.binds && Lookup(r.binds[m], glob) == Some(None)
    ensures var r := AddAll(bl, [u, m], glob, Some(b)).0;
            m in r.binds && Lookup(r.binds[m], glob) == Some(Some(b))
  {
    var names := [u, m];
    assert names[1..] == [m] && [m][1..] == [];
    assert Intended(u, Some(b)) == None && Intended(m, None) == None && Intended(m, Some(b)) == Some(b);
    assert Target(m) == m;
    var w1 := AddBind(bl, Target(u), glob, None);
    assert AddAllAsWritten(bl, names, glob, Some(b)).0 == AddAllAsWritten(w1, [m], glob, None).0;
    assert AddAllAsWritten(w1, [m], glob, None).0 == AddBind(w1, m, glob, None);
    assert AddAll(bl, names, glob, Some(b)).0 == AddAll(w1, [m], glob, Some(b)).0;
    assert AddAll(w1, [m], glob, Some(b)).0 == AddBind(w1, m, glob, Some(b));
  }

  /** Every name passes the mode pattern. */
  predicate AllValid(names: seq<string>)
  {
    forall k :: 0 <= k < |names| ==> ValidMode(names[k])
  }

  /** The bind a mode bind adds: made from the handler when there is a
      function or a command that is not blank, None otherwise. */
  function BindFor(glob: string, handler: Option<Handler>, args: seq<string>, bid: nat): (r: Result<Option<Bind>, BindError>)
    ensures handler.None? || (handler.value.Command? && Strip(handler.value.text, IsPySpace) == "") ==> r == Success(None)
    ensures handler.Some? && (handler.value.Function? || Strip(handler.value.text, IsPySpace) != "") ==>
              (r.Success? <==> New(glob, handler.value, args, bid).Success?)
              && (r.Success? ==> r.value == Some(New(glob, handler.value, args, bid).value))
              && (r.Failure? ==> r.error == New(glob, handler.value, args, bid).error)
  {
    if handler.Some? && (handler.value.Function? || Strip(handler.value.text, IsPySpace) != "") then
      match New(glob, handler.value, args, bid)
      case Success(b) => Success(Some(b))
      case Failure(e) => Failure(e)
    else Success(None)
  }

  /** `mode_bind(modes, glob, handler, *args)` on the modes already split
      at ',': the bind is made first, then every name is checked, then
      the bind is added to each mode with one event per mode. The loop is
      the corrected `AddAll`; `ModeBindAsWritten` is the code as written,
      and the parsers below use this corrected one. */
  function ModeBind(bl: Bindlet, modes: seq<string>, glob: string, handler: Option<Handler>, args: seq<string>, bid: nat)
    : (r: Result<(Bindlet, seq<Added>), Error>)
    ensures BindFor(glob, handler, args, bid).Failure? ==> r == Failure(BadBind(BindFor(glob, handler, args, bid).error))
    ensures r == Failure(InvalidMode) <==> BindFor(glob, handler, args, bid).Success? && !AllValid(Names(modes))
    ensures r == Failure(NoModes) <==> BindFor(glob, handler, args, bid).Success? && Names(modes) == []
    ensures r.Success? ==>
              && BindFor(glob, handler, args, bid).Success? && |Names(modes)| > 0
              && AllValid(Names(modes))
              && r.value == AddAll(bl, Names(modes), glob, BindFor(glob, handler, args, bid).value)
  {
    match BindFor(glob, handler, args, bid)
    case Failure(e) => Failure(BadBind(e))
    case Success(bind) =>
      var names := Names(modes);
      if !AllValid(names) then Failure(InvalidMode)
      else if names == [] then Failure(NoModes)
      else Success(AddAll(bl, names, glob, bind))
  }

  /** `mode_bind` with the loop as written: the same checks, then the
      bind variable an unbinding name clears stays cleared for every later
      name. */
  function ModeBindAsWritten(bl: Bindlet, modes: seq<string>, glob: string, handler: Option<Handler>, args: seq<string>,
                             bid: nat): (r: Result<(Bindlet, seq<Added>), Error>)
    ensures r.Failure? <==> ModeBind(bl, modes, glob, handler, args, bid).Failure?
    ensures r.Failure? ==> r == ModeBind(bl, modes, glob, handler, args, bid)
    ensures r.Success? ==>
              r.value == AddAllAsWritten(bl, Names(modes), glob, BindFor(glob, handler, args, bid).value)
  {
    match BindFor(glob, handler, args, bid)
    case Failure(e) => Failure(BadBind(e))
    case Success(bind) =>
      var names := Names(modes);
      if !AllValid(names) then Failure(InvalidMode)
      else if names == [] then Failure(NoModes)
      else Success(AddAllAsWritten(bl, names, glob, bind))
  }

  /** No name but the last unbinds, so the loop as written has no
      cleared bind to carry to a later name. */
  predicate NoCarriedUnbind(names: seq<string>)
  {
    forall k :: 0 <= k < |names| - 1 ==> !Unbinds(names[k])
  }

  /** When no name but the last unbinds, the loop as written is the
      intended one. */
  lemma {:induction false} AddAllAgrees(bl: Bindlet, names: seq<string>, glob: string, bind: Option<Bind>)
    requires NoCarriedUnbind(names)
    ensures AddAllAsWritten(bl, names, glob, bind) == AddAll(bl, names, glob, bind)
    decreases |names|
  {
    if |names| > 0 {
      var b := Intended(names[0], bind);
      var next := AddBind(bl, Target(names[0]), glob, b);
      if |names| > 1 {
        assert b == bind;
        forall k | 0 <= k < |names[1..]| - 1 ensures !Unbinds(names[1..][k]) {
          assert names[1..][k] == names[k + 1];
        }
        AddAllAgrees(next, names[1..], glob, bind);
      } else {
        assert names[1..] == [];
      }
      assert AddAllAsWritten(bl, names, glob, bind).1 == [Added(Target(names[0]), glob, b)] + AddAllAsWritten(next, names[1..], glob, b).1;
    }
  }

  /** The two mode binds agree unless an unbinding name comes before
      another name. */
  lemma ModeBindAgrees(bl: Bindlet, modes: seq<string>, glob: string, handler: Option<Handler>, args: seq<string>, bid: nat)
    requires NoCarriedUnbind(Names(modes))
    ensures ModeBindAsWritten(bl, modes, glob, handler, args, bid) == ModeBind(bl, modes, glob, handler, args, bid)
  {
    var w := ModeBindAsWritten(bl, modes, glob, handler, args, bid);
    var i := ModeBind(bl, modes, glob, handler, args, bid);
    if w.Success? {
      var bind := BindFor(glob, handler, args, bid).value;
      AddAllAgrees(bl, Names(modes), glob, bind);
      assert i.Success? && i.value == AddAll(bl, Names(modes), glob, bind);
      assert w.value == i.value;
    }
  }

  /** The modes "-u,m": the mode bind as written leaves `m` unbound, the
      intended one binds it. */
  lemma ModeBindCarriesUnbind(bl: Bindlet, u: string, m: string, glob: string, handler: Option<Handler>, args: seq<string>,
                              bid: nat, b: Bind)
    requires Names([u, m]) == [u, m] && AllValid([u, m])
    requires Unbinds(u) && m != "" && !Unbinds(m) && Target(u) != m
    requires BindFor(glob, handler, args, bid) == Success(Some(b))
    ensures ModeBindAsWritten(bl, [u, m], glob, handler, args, bid).Success?
    ensures var r := ModeBindAsWritten(bl, [u, m], glob, handler, args, bid).value.0;
            m in r.binds && Lookup(r.binds[m], glob) == Some(None)
    ensures ModeBind(bl, [u, m], glob, handler, args, bid).Success?
    ensures var r := ModeBind(bl, [u, m], glob, handler, args, bid).value.0;
            m in r.binds && Lookup(r.binds[m], glob) == Some(Some(b))
  {
    CarriedUnbind(bl, u, m, glob, b);
  }

  /** The first "=" at or after `i`. */
  function FirstEquals(args: seq<string>, i: nat): (r: Option<nat>)
    requires i <= |args|
    ensures r.Some? ==> i <= r.value < |args| && args[r.value] == "=" && forall k :: i <= k < r.value ==> args[k] != "="
    ensures r.None? ==> forall k :: i <= k < |args| ==> args[k] != "="
    decreases |args| - i
  {
    if i == |args| then None
    else if args[i] == "=" then Some(i)
    else FirstEquals(args, i + 1)
  }

  /** `parse_mode_bind` on the split arguments: the modes, the words up
      to the first "=" as the glob, the words after it as the command. */
  function ParseModeBindArgs(bl: Bindlet, args: seq<string>, bid: nat): (r: Result<(Bindlet, seq<Added>), Error>)
    ensures |args| < 2 ==> r == Failure(MissingSection)
    ensures |args| >= 2 && (forall k :: 1 <= k < |args| ==> args[k] != "=") ==> r == Failure(MissingDelimiter)
  {
    if |args| < 2 then Failure(MissingSection)
    else
      match FirstEquals(args, 1)
      case None => Failure(MissingDelimiter)
      case Some(j) =>
        ModeBind(bl, SplitOn(args[0], ","), Join(args[1..j], " "), Some(Command(Join(args[j + 1..], " "))), [], bid)
  }

  /** An event of modes, glob words, "=" and command words is the mode
      bind of the glob words joined and the command words joined. */
  lemma ParseModeBindShape(bl: Bindlet, modes: string, glob: seq<string>, command: seq<string>, bid: nat)
    requires forall k :: 0 <= k < |glob| ==> glob[k] != "="
    ensures ParseModeBindArgs(bl, [modes] + glob + ["="] + command, bid)
            == ModeBind(bl, SplitOn(modes, ","), Join(glob, " "), Some(Command(Join(command, " "))), [], bid)
  {
    var args := [modes] + glob + ["="] + command;
    var j := |glob| + 1;
    assert args[j] == "=";
    assert forall k :: 1 <= k < j ==> args[k] == glob[k - 1];
    assert FirstEquals(args, 1) == Some(j);
    assert args[1..j] == glob;
    assert args[j + 1..] == command;
  }

  /** `parse_mode_bind(line)`. */
  function ParseModeBind(bl: Bindlet, line: string, bid: nat): Result<(Bindlet, seq<Added>), Error>
  {
    ParseModeBindArgs(bl, Arguments.New(Arguments.Line(line)).args, bid)
  }

  /** `parse_bind(line)`: the mode bind of "global " and the line. */
  function ParseBind(bl: Bindlet, line: string, bid: nat): Result<(Bindlet, seq<Added>), Error>
  {
    ParseModeBind(bl, Global + " " + line, bid)
  }

  /** The characters of the global mode's name. */
  lemma GlobalName()
    ensures |Global| > 0 && forall k :: 0 <= k < |Global| ==> IsAsciiAlnum(Global[k])
  {
  }

  /** A BIND event without quotes or backslashes is the MODE_BIND event
      whose first argument is the global mode. */
  lemma ParseBindPlain(bl: Bindlet, line: string, bid: nat)
    requires Arguments.Plain(line)
    ensures ParseBind(bl, line, bid) == ParseModeBindArgs(bl, [Global] + Arguments.PyWords(line), bid)
  {
    GlobalName();
    var s := Global + " " + line;
    assert Arguments.Plain(s) by {
      forall k | 0 <= k < |s| ensures s[k] != '"' && s[k] != '\'' && s[k] != '\\' {
        if k > |Global| { assert s[k] == line[k - |Global| - 1]; }
      }
    }
    Arguments.ArgumentsArePyWords(s);
    assert s == Global + (" " + line);
    Arguments.WordsOverText(Global, " " + line, "");
    Arguments.WordsOverGap(" ", line, Global);
    assert "" + Global == Global;
  }

  /** An alphanumeric word. */
  predicate Word(n: string)
  {
    |n| > 0 && forall k :: 0 <= k < |n| ==> IsAsciiAlnum(n[k])
  }

  /** A word has no ',' to split at. */
  lemma WordSplit(n: string)
    requires Word(n)
    ensures SplitOn(n, ",") == [n]
  {
    forall i | 0 <= i <= |n| ensures !OccursAt(n, ",", i) {
      if i + 1 <= |n| { assert n[i..i + 1][0] == n[i]; }
    }
    SplitOnAbsent(n, ",");
  }

  /** A word has no whitespace to strip. */
  lemma WordStripped(n: string)
    requires Word(n)
    ensures Strip(n, IsPySpace) == n
  {
    assert !IsPySpace(n[0]) && !IsPySpace(n[|n| - 1]);
    LStripNone(n, IsPySpace);
    RStripNone(n, IsPySpace);
  }

  /** A word is its own stripped name. */
  lemma WordNames(n: string)
    requires Word(n)
    ensures Names([n]) == [n]
  {
    WordStripped(n);
    assert [n][1..] == [];
    assert Names([n]) == [Strip(n, IsPySpace)] + Names([]);
  }

  /** A word is a valid mode. */
  lemma WordValid(n: string)
    requires Word(n)
    ensures AllValid([n])
  {
    assert n[0] != '-';
    assert ModeBody(n);
    assert ValidMode([n][0]);
  }

  /** The global mode's name is one mode name, unchanged by splitting,
      stripping and the pattern. */
  lemma GlobalModeNames()
    ensures SplitOn(Global, ",") == [Global]
    ensures Names([Global]) == [Global]
    ensures AllValid([Global])
  {
    GlobalName();
    WordSplit(Global);
    WordNames(Global);
    WordValid(Global);
  }

  /** A mode bind over one plain mode name is the one `add_bind`. */
  lemma SingleModeBind(bl: Bindlet, n: string, glob: string, handler: Option<Handler>, args: seq<string>, bid: nat)
    requires Names([n]) == [n] && AllValid([n]) && !Unbinds(n)
    requires BindFor(glob, handler, args, bid).Success?
    ensures ModeBind(bl, [n], glob, handler, args, bid).Success?
    ensures ModeBind(bl, [n], glob, handler, args, bid).value.0 == AddBind(bl, n, glob, BindFor(glob, handler, args, bid).value)
  {
    var bind := BindFor(glob, handler, args, bid).value;
    assert ModeBind(bl, [n], glob, handler, args, bid).value == AddAll(bl, [n], glob, bind);
    assert Intended(n, bind) == bind && Target(n) == n;
    assert [n][1..] == [];
    assert AddAll(bl, [n], glob, bind).0 == AddAll(AddBind(bl, n, glob, bind), [], glob, bind).0;
  }

  /** One bind added to the global mode of a new bindlet is all that
      `get_binds()` returns. */
  lemma OneGlobalBind(glob: string, b: Bind)
    ensures GetBinds(AddBind(Initial(), Global, glob, Some(b)), None, None) == [b]
  {
    var bl := AddBind(Initial(), Global, glob, Some(b));
    assert bl.binds[Global] == Put([], glob, Some(b));
    assert bl.binds[Global] == [Entry(glob, Some(b))];
    assert [Entry(glob, Some(b))][1..] == [];
    assert NonNone([Entry(glob, Some(b))]) == [b] + NonNone([]);
  }

  /** Binding a function to a glob without prompts in 'global' on a new
      bindlet: `get_binds()` then returns that one bind. */
  lemma AddBindIsOnlyBind(glob: string, f: nat, bid: nat)
    requires glob != "" && '<' !in glob
    ensures var r := ModeBind(Initial(), SplitOn(Global, ","), glob, Some(Function(f)), [], bid);
            && r.Success?
            && |GetBinds(r.value.0, None, None)| == 1
            && GetBinds(r.value.0, None, None)[0].handler == Function(f)
  {
    GlobalModeNames();
    NoPromptOneStage(glob, Function(f), [], bid);
    var b := New(glob, Function(f), [], bid).value;
    assert BindFor(glob, Some(Function(f)), [], bid) == Success(Some(b));
    SingleModeBind(Initial(), Global, glob, Some(Function(f)), [], bid);
    OneGlobalBind(glob, b);
  }
}
