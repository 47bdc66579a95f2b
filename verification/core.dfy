/** One browser instance as the event manager sees it (uzbl/core.py): the
    text of the lines it pushes to the instance, the parsing of the lines
    the instance sends, the dispatch of events to their handlers and of
    requests to their prioritised request handlers.

    Handlers are foreign code: a handler is named by a `HandlerId`, and
    what it does is a parameter — `fails` says which event handlers raise,
    `answer` what a request handler returns (`None` when it raises), and
    `plugins` which handlers the per-instance plugin constructors connect.
    The socket, the logger and the plugin objects are not modelled. */
module Instance {
  import opened Wrappers
  import opened Text
  import opened Numerals

  /* --------------------------------------------------------------- casing */

  /** Upper-cases the ASCII letters and leaves every other character. */
  function UpperChar(c: char): (r: char)
    ensures IsAsciiLower(c) ==> IsAsciiUpper(r) && LowerChar(r) == c
    ensures !IsAsciiLower(c) ==> r == c
  {
    if IsAsciiLower(c) then (c as int - 32) as char else c
  }

  /** `str.upper` on ASCII text. */
  function Upper(s: string): (r: string)
    ensures |r| == |s|
    ensures forall i :: 0 <= i < |s| ==> r[i] == UpperChar(s[i])
  {
    seq(|s|, i requires 0 <= i < |s| => UpperChar(s[i]))
  }

  /** Upper-casing leaves no lower-case letter, and doing it twice changes
      nothing more. */
  lemma UpperIsUpper(s: string)
    ensures forall i :: 0 <= i < |s| ==> !IsAsciiLower(Upper(s)[i])
    ensures Upper(Upper(s)) == Upper(s)
  {
  }

  /* -------------------------------------------------------- outgoing lines */

  /** `send(msg)` (lines 51-60): the message stripped, with one newline. */
  function Send(msg: string): (r: string)
    ensures |r| >= 1 && r[|r| - 1] == '\n'
    ensures r[..|r| - 1] == Strip(msg, IsPySpace)
  {
    var t := Strip(msg, IsPySpace);
    assert (t + "\n")[..|t|] == t;
    t + "\n"
  }

  /** Sending a line that was already sent pushes the same line again: the
      newline is stripped with the rest of the white space. */
  lemma SendIdempotent(msg: string)
    ensures Send(Send(msg)[..|Send(msg)| - 1]) == Send(msg)
  {
    var t := Strip(msg, IsPySpace);
    StripIdempotent(msg, IsPySpace);
  }

  /** A message without a newline is pushed as exactly one line. */
  lemma SendOneLine(msg: string)
    requires '\n' !in msg
    ensures forall i :: 0 <= i < |Send(msg)| - 1 ==> Send(msg)[i] != '\n'
  {
    var l := LStrip(msg, IsPySpace);
    var t := RStrip(l, IsPySpace);
    forall i | 0 <= i < |t| ensures t[i] != '\n' {
      assert t[i] == l[i] == msg[|msg| - |l| + i];
    }
  }

  const ReplyPrefix := "REPLY-"

  /** `reply(cookie, response)` (lines 62-66). */
  function Reply(cookie: string, response: string): string
  {
    ReplyPrefix + cookie + " " + response + "\n"
  }

  /** The instance finds the cookie and the response again: the cookie is
      the text between the prefix and the first space, the response the
      rest of the line. */
  lemma ReplyFields(cookie: string, response: string)
    requires ' ' !in cookie
    ensures var r := Reply(cookie, response);
            StartsWith(r, ReplyPrefix) && r[|r| - 1] == '\n'
            && SplitFirst(r[|ReplyPrefix|..|r| - 1], ' ') == [cookie, response]
  {
    var r := Reply(cookie, response);
    assert r == ReplyPrefix + (cookie + [' '] + response) + "\n";
    assert r[|ReplyPrefix|..|r| - 1] == cookie + [' '] + response;
    SplitFirstAt(cookie, ' ', response);
  }

  /* ---------------------------------------------------------- line parsing */

  /** `s.split(c, n)` of Python: at most `n` splits, the rest of the line
      is the last piece. */
  function SplitMax(s: string, c: char, n: nat): (r: seq<string>)
    ensures 1 <= |r| <= n + 1
    decreases n
  {
    var i := FindFrom(s, c, 0);
    if n == 0 || i == |s| then [s] else [s[..i]] + SplitMax(s[i + 1..], c, n - 1)
  }

  lemma JoinCons(h: string, rest: seq<string>, sep: string)
    requires |rest| >= 1
    ensures Join([h] + rest, sep) == h + sep + Join(rest, sep)
  {
    assert ([h] + rest)[1..] == rest;
  }

  /** The pieces joined with `c` give the line back. */
  lemma {:induction false} SplitMaxJoin(s: string, c: char, n: nat)
    ensures Join(SplitMax(s, c, n), [c]) == s
    decreases n
  {
    var i := FindFrom(s, c, 0);
    if n > 0 && i < |s| {
      FindFromFacts(s, c, 0);
      var rest := SplitMax(s[i + 1..], c, n - 1);
      SplitMaxJoin(s[i + 1..], c, n - 1);
      JoinCons(s[..i], rest, [c]);
      assert s == s[..i] + [c] + s[i + 1..];
    }
  }

  /** Every piece but the last is free of `c`, and so is the last when
      fewer than `n` splits were made. */
  lemma {:induction false} SplitMaxFree(s: string, c: char, n: nat)
    ensures var r := SplitMax(s, c, n);
            (forall k :: 0 <= k < |r| - 1 ==> c !in r[k])
            && (|r| <= n ==> c !in r[|r| - 1])
    decreases n
  {
    var i := FindFrom(s, c, 0);
    FindFromFacts(s, c, 0);
    if n > 0 && i < |s| {
      var rest := SplitMax(s[i + 1..], c, n - 1);
      var r := [s[..i]] + rest;
      SplitMaxFree(s[i + 1..], c, n - 1);
      assert c !in r[0];
      assert r[|r| - 1] == rest[|rest| - 1];
      assert forall k :: 1 <= k < |r| ==> r[k] == rest[k - 1];
    }
  }

  /** A line that starts with a `c`-free word and `c` splits there. */
  lemma SplitMaxCons(a: string, c: char, rest: string, n: nat)
    requires c !in a && n > 0
    ensures SplitMax(a + [c] + rest, c, n) == [a] + SplitMax(rest, c, n - 1)
  {
    var s := a + [c] + rest;
    FindFromFacts(s, c, 0);
    var i := FindFrom(s, c, 0);
    assert s[|a|] == c;
    assert i == |a| by {
      assert forall k :: 0 <= k < |a| ==> s[k] == a[k];
    }
    assert s[..i] == a && s[i + 1..] == rest;
  }

  /** `(line.split(' ', 3) + [''] * 3)[:4]` (line 73): exactly four
      fields, missing ones empty. */
  function Fields(line: string): (r: seq<string>)
    ensures |r| == 4
  {
    var p := SplitMax(line, ' ', 3);
    (p + ["", "", ""])[..4]
  }

  const EventWord := "EVENT"
  const RequestPrefix := "REQUEST-"

  /** What `parse_msg` makes of a line. */
  datatype Message =
    | Ignored                          // neither an event nor a request
    | MissingElements                  // `assert name and event` fails
    | NameMismatch                     // `assert self.name == name` fails
    | EventMsg(name: string, event: string, args: string)
    | RequestMsg(name: string, cookie: string, request: string, args: string)

  /** `parse_msg(line)` (lines 68-103) for an instance whose name is
      `known` so far. */
  function ParseMsg(known: Option<string>, line: string): (r: Message)
    ensures r.EventMsg? || r.RequestMsg? ==>
              r.name != "" && (known.None? || known == Some(r.name))
    ensures r.EventMsg? ==> r.event != ""
    ensures r.RequestMsg? ==> r.request != ""
    ensures r == NameMismatch ==> known.Some?
  {
    var f := Fields(line);
    var isRequest := StartsWith(f[0], RequestPrefix);
    if !isRequest && f[0] != EventWord then Ignored
    else if f[1] == "" || f[2] == "" then MissingElements
    else if known.Some? && known.value != f[1] then NameMismatch
    else if isRequest then RequestMsg(f[1], f[0][|RequestPrefix|..], f[2], f[3])
    else EventMsg(f[1], f[2], f[3])
  }

  /** The instance name after a message: the first routed message fixes
      it (lines 95-98). */
  function NameAfter(known: Option<string>, m: Message): (r: Option<string>)
    ensures known.Some? ==> r == known
    ensures known.None? && (m.EventMsg? || m.RequestMsg?) ==> r == Some(m.name)
    ensures !(m.EventMsg? || m.RequestMsg?) ==> r == known
  {
    if known.None? && (m.EventMsg? || m.RequestMsg?) then Some(m.name) else known
  }

  /** The first word of a line, the text before its first space. */
  function FirstWord(line: string): string
  {
    line[..IndexOfChar(line, ' ')]
  }

  /** A line is ignored exactly when its first word is neither "EVENT" nor
      starts with "REQUEST-". */
  lemma IgnoredIff(known: Option<string>, line: string)
    ensures ParseMsg(known, line) == Ignored
            <==> FirstWord(line) != EventWord && !StartsWith(FirstWord(line), RequestPrefix)
  {
    FirstField(line);
  }

  lemma FirstField(line: string)
    ensures Fields(line)[0] == FirstWord(line)
  {
    FindFromFacts(line, ' ', 0);
  }

  /** A line of a space-free word, a space and the rest splits once. */
  lemma SplitTwo(c: string, d: string)
    requires ' ' !in c
    ensures var r := SplitMax(c + [' '] + d, ' ', 1);
            |r| == 2 && r[0] == c && r[1] == d
  {
    SplitMaxCons(c, ' ', d, 1);
  }

  lemma SplitThree(b: string, c: string, d: string)
    requires ' ' !in b && ' ' !in c
    ensures var r := SplitMax(b + [' '] + (c + [' '] + d), ' ', 2);
            |r| == 3 && r[0] == b && r[1] == c && r[2] == d
  {
    SplitTwo(c, d);
    SplitMaxCons(b, ' ', c + [' '] + d, 2);
  }

  lemma SplitFour(a: string, b: string, c: string, d: string)
    requires ' ' !in a && ' ' !in b && ' ' !in c
    ensures var r := SplitMax(a + [' '] + (b + [' '] + (c + [' '] + d)), ' ', 3);
            |r| == 4 && r[0] == a && r[1] == b && r[2] == c && r[3] == d
  {
    SplitThree(b, c, d);
    SplitMaxCons(a, ' ', b + [' '] + (c + [' '] + d), 3);
  }

  /** Three space-free words split into three pieces however many splits
      are allowed beyond two. */
  lemma SplitOfThree(a: string, b: string, c: string)
    requires ' ' !in a && ' ' !in b && ' ' !in c
    ensures var r := SplitMax(a + [' '] + (b + [' '] + c), ' ', 3);
            |r| == 3 && r[0] == a && r[1] == b && r[2] == c
  {
    assert SplitMax(c, ' ', 1) == [c] by {
      FindFromFacts(c, ' ', 0);
      assert FindFrom(c, ' ', 0) == |c|;
    }
    SplitMaxCons(b, ' ', c, 2);
    SplitMaxCons(a, ' ', b + [' '] + c, 3);
  }

  lemma SpacedFour(a: string, b: string, c: string, d: string)
    ensures a + " " + b + " " + c + " " + d == a + [' '] + (b + [' '] + (c + [' '] + d))
  {
  }

  lemma SpacedThree(a: string, b: string, c: string)
    ensures a + " " + b + " " + c == a + [' '] + (b + [' '] + c)
  {
  }

  /** The fields of a line are its pieces, padded with empty ones. */
  lemma FieldsOfPieces(line: string)
    ensures var r := SplitMax(line, ' ', 3);
            forall i :: 0 <= i < 4 ==> Fields(line)[i] == if i < |r| then r[i] else ""
  {
  }

  /** The four fields of a line made of three space-free words and the
      rest. */
  lemma FieldsOf(a: string, b: string, c: string, d: string)
    requires ' ' !in a && ' ' !in b && ' ' !in c
    ensures Fields(a + " " + b + " " + c + " " + d) == [a, b, c, d]
  {
    SpacedFour(a, b, c, d);
    SplitFour(a, b, c, d);
    FieldsOfPieces(a + " " + b + " " + c + " " + d);
  }

  /** The four fields of a line of three space-free words. */
  lemma FieldsOfThree(a: string, b: string, c: string)
    requires ' ' !in a && ' ' !in b && ' ' !in c
    ensures Fields(a + " " + b + " " + c) == [a, b, c, ""]
  {
    SpacedThree(a, b, c);
    SplitOfThree(a, b, c);
    FieldsOfPieces(a + " " + b + " " + c);
  }

  /** The line an instance sends for an event is routed to `event` with its
      name, event name and whole argument text, spaces in the arguments
      included; a second instance name is refused. */
  lemma ParseEvent(known: Option<string>, name: string, event: string, args: string)
    requires name != "" && event != "" && ' ' !in name && ' ' !in event
    ensures var r := ParseMsg(known, EventWord + " " + name + " " + event + " " + args);
            (known.None? || known == Some(name) ==> r == EventMsg(name, event, args))
            && (known.Some? && known != Some(name) ==> r == NameMismatch)
  {
    FieldsOf(EventWord, name, event, args);
    assert !StartsWith(EventWord, RequestPrefix) by {
      assert EventWord[0] != RequestPrefix[0];
    }
  }

  /** A request line is routed to `request` with the cookie after the
      prefix. */
  lemma ParseRequest(known: Option<string>, cookie: string, name: string, request: string, args: string)
    requires ' ' !in cookie && name != "" && request != "" && ' ' !in name && ' ' !in request
    requires known.None? || known == Some(name)
    ensures ParseMsg(known, RequestPrefix + cookie + " " + name + " " + request + " " + args)
            == RequestMsg(name, cookie, request, args)
  {
    var w := RequestPrefix + cookie;
    assert ' ' !in w by {
      assert forall i :: 0 <= i < |RequestPrefix| ==> RequestPrefix[i] != ' ';
    }
    assert RequestPrefix + cookie + " " + name + " " + request + " " + args
           == w + " " + name + " " + request + " " + args;
    FieldsOf(w, name, request, args);
    assert w[|RequestPrefix|..] == cookie;
  }

  /** "EVENT name event" without arguments is an event with empty
      arguments. */
  lemma ParseEventWithoutArgs(name: string, event: string)
    requires name != "" && event != "" && ' ' !in name && ' ' !in event
    ensures ParseMsg(None, EventWord + " " + name + " " + event) == EventMsg(name, event, "")
  {
    FieldsOfThree(EventWord, name, event);
    assert !StartsWith(EventWord, RequestPrefix) by {
      assert EventWord[0] != RequestPrefix[0];
    }
  }

  /** Once the name is fixed, every routed message carries it. */
  lemma NameIsFixed(known: Option<string>, first: string, later: string)
    ensures var m1 := ParseMsg(known, first);
            var n := NameAfter(known, m1);
            var m2 := ParseMsg(n, later);
            (m1.EventMsg? || m1.RequestMsg?) && (m2.EventMsg? || m2.RequestMsg?) ==> m2.name == m1.name
  {
  }

  /* ---------------------------------------------------------------- state */

  /** A handler registered by a plugin. */
  type HandlerId = nat

  /** A request handler with its priority. */
  datatype Entry = Entry(prio: int, handler: HandlerId)

  datatype Uzbl = Uzbl(name: Option<string>, pid: Option<int>, closed: bool,
                       handlers: map<string, seq<HandlerId>>,
                       requestHandlers: map<string, seq<Entry>>)

  /** The state `__init__` sets up (lines 8-33). */
  const Fresh := Uzbl(None, None, false, map[], map[])

  /** `self.handlers[name]` of the `defaultdict`. */
  function Handlers(u: Uzbl, name: string): seq<HandlerId>
  {
    if name in u.handlers then u.handlers[name] else []
  }

  function RequestHandlers(u: Uzbl, name: string): seq<Entry>
  {
    if name in u.requestHandlers then u.requestHandlers[name] else []
  }

  /** `connect(name, handler)` (lines 201-207): appended, under the name as
      given. */
  function Connect(u: Uzbl, name: string, h: HandlerId): (r: Uzbl)
    ensures Handlers(r, name) == Handlers(u, name) + [h]
    ensures forall n :: n != name ==> Handlers(r, n) == Handlers(u, n)
    ensures r.requestHandlers == u.requestHandlers && r.name == u.name && r.pid == u.pid && r.closed == u.closed
  {
    u.(handlers := u.handlers[name := Handlers(u, name) + [h]])
  }

  /** The handlers of `cs` connected under `name`, in order. */
  function ConnectedUnder(cs: seq<(string, HandlerId)>, name: string): (r: seq<HandlerId>)
    ensures |r| <= |cs|
  {
    if |cs| == 0 then []
    else (if cs[0].0 == name then [cs[0].1] else []) + ConnectedUnder(cs[1..], name)
  }

  /** `connect` of each pair of `cs` in turn: the calls `init_plugins`
      makes through the per-instance plugin constructors (lines 43-49),
      which are foreign code and so a parameter. */
  function ConnectAll(u: Uzbl, cs: seq<(string, HandlerId)>): (r: Uzbl)
    ensures forall n :: Handlers(r, n) == Handlers(u, n) + ConnectedUnder(cs, n)
    ensures r.requestHandlers == u.requestHandlers && r.name == u.name && r.pid == u.pid && r.closed == u.closed
    decreases |cs|
  {
    if |cs| == 0 then u
    else
      var c := Connect(u, cs[0].0, cs[0].1);
      assert forall n :: Handlers(c, n) + ConnectedUnder(cs[1..], n) == Handlers(u, n) + ConnectedUnder(cs, n) by {
        forall n ensures Handlers(c, n) + ConnectedUnder(cs[1..], n) == Handlers(u, n) + ConnectedUnder(cs, n) {
          var mine := if cs[0].0 == n then [cs[0].1] else [];
          assert Handlers(c, n) == Handlers(u, n) + mine;
          assert ConnectedUnder(cs, n) == mine + ConnectedUnder(cs[1..], n);
        }
      }
      ConnectAll(c, cs[1..])
  }

  /** Connecting two lists in turn is connecting their concatenation. */
  lemma {:induction false} ConnectAllAppend(u: Uzbl, a: seq<(string, HandlerId)>, b: seq<(string, HandlerId)>)
    ensures ConnectAll(ConnectAll(u, a), b) == ConnectAll(u, a + b)
    decreases |a|
  {
    if |a| > 0 {
      var c := Connect(u, a[0].0, a[0].1);
      assert (a + b)[0] == a[0] && (a + b)[1..] == a[1..] + b;
      assert ConnectAll(u, a) == ConnectAll(c, a[1..]);
      assert ConnectAll(u, a + b) == ConnectAll(c, a[1..] + b);
      ConnectAllAppend(c, a[1..], b);
    } else {
      assert a + b == b;
    }
  }

  /* ---------------------------------------------------------------- events */

  /** One handler call and whether it raised. */
  datatype Call = Call(handler: HandlerId, raised: bool)

  /** The `for handler in self.handlers[event]` loop (lines 170-178): an
      exception is logged and the loop goes on. */
  function RunHandlers(hs: seq<HandlerId>, fails: HandlerId -> bool): (r: seq<Call>)
    ensures |r| == |hs|
    ensures forall i :: 0 <= i < |hs| ==> r[i] == Call(hs[i], fails(hs[i]))
  {
    if |hs| == 0 then [] else [Call(hs[0], fails(hs[0]))] + RunHandlers(hs[1..], fails)
  }

  /** What `event` leaves behind. */
  datatype EventOutcome =
    | Handled(state: Uzbl, calls: seq<Call>)
    | BadPid          // `int(args[0])` raised ValueError; no handler ran

  const InstanceStart := "INSTANCE_START"
  const InstanceExit := "INSTANCE_EXIT"

  /** Whether `event` with `args` is the INSTANCE_START that records a pid
      and initialises the plugins. */
  predicate Starts(event: string, args: seq<string>)
  {
    Upper(event) == InstanceStart && |args| > 0
  }

  /** `event(event, *args)` (lines 142-178) with the arguments `args`;
      `plugins` are the connections `init_plugins` makes. The cleanup of
      `close` is foreign code; `close` is recorded as `closed`. */
  function Event(u: Uzbl, event: string, args: seq<string>, fails: HandlerId -> bool,
                 plugins: seq<(string, HandlerId)>): (r: EventOutcome)
    ensures r.Handled? ==> r.state.requestHandlers == u.requestHandlers && r.state.name == u.name
    ensures r.Handled? && !Starts(event, args) ==> r.state.handlers == u.handlers
    ensures r.Handled? && Starts(event, args) ==>
              forall n :: Handlers(r.state, n) == Handlers(u, n) + ConnectedUnder(plugins, n)
    ensures r.Handled? ==> |r.calls| == |Handlers(r.state, Upper(event))|
                           && forall i :: 0 <= i < |r.calls| ==> r.calls[i].handler == Handlers(r.state, Upper(event))[i]
    ensures r == BadPid <==> Starts(event, args) && PyInt(args[0], IsPySpace).None?
  {
    var e := Upper(event);
    if e == InstanceStart && |args| > 0 then
      match PyInt(args[0], IsPySpace)
      case None => BadPid
      case Some(p) =>
        var s := ConnectAll(u.(pid := Some(p)), plugins);
        Handled(s, RunHandlers(Handlers(s, e), fails))
    else
      var s := if e == InstanceExit then u.(closed := true) else u;
      Handled(s, RunHandlers(Handlers(s, e), fails))
  }

  /** The INSTANCE_START that records a pid runs the handlers connected
      before it, then those the plugins connect under INSTANCE_START. */
  lemma StartRunsPluginHandlers(u: Uzbl, event: string, args: seq<string>, fails: HandlerId -> bool,
                                plugins: seq<(string, HandlerId)>)
    requires Starts(event, args) && PyInt(args[0], IsPySpace).Some?
    ensures var r := Event(u, event, args, fails, plugins);
            r.Handled? && r.state.pid == PyInt(args[0], IsPySpace)
            && r.calls == RunHandlers(Handlers(u, InstanceStart) + ConnectedUnder(plugins, InstanceStart), fails)
  {
  }

  /** A raising handler does not keep the later ones from running: which
      handlers run does not depend on which of them raise. */
  lemma RaisingDoesNotStop(u: Uzbl, event: string, args: seq<string>, f1: HandlerId -> bool, f2: HandlerId -> bool,
                           plugins: seq<(string, HandlerId)>)
    ensures var r1 := Event(u, event, args, f1, plugins);
            var r2 := Event(u, event, args, f2, plugins);
            r1.Handled? && r2.Handled? ==>
              (r1.state == r2.state && |r1.calls| == |r2.calls|
               && forall i :: 0 <= i < |r1.calls| ==> r1.calls[i].handler == r2.calls[i].handler)
  {
  }

  /** A handler connected under the upper-cased event name runs after
      every handler connected before it, and last unless the plugins that
      INSTANCE_START initialises connect more. */
  lemma ConnectThenEvent(u: Uzbl, event: string, h: HandlerId, args: seq<string>, fails: HandlerId -> bool,
                         plugins: seq<(string, HandlerId)>)
    ensures var r := Event(Connect(u, Upper(event), h), event, args, fails, plugins);
            var k := |Handlers(u, Upper(event))|;
            r.Handled? ==> (|r.calls| > k && r.calls[k] == Call(h, fails(h))
                            && (forall i :: 0 <= i < k ==> r.calls[i].handler == Handlers(u, Upper(event))[i])
                            && (!Starts(event, args) ==> |r.calls| == k + 1))
  {
    var r := Event(Connect(u, Upper(event), h), event, args, fails, plugins);
    if r.Handled? {
      var more := if Starts(event, args) then ConnectedUnder(plugins, Upper(event)) else [];
      assert Handlers(r.state, Upper(event)) == Handlers(u, Upper(event)) + [h] + more;
    }
  }

  /** `connect` does not upper-case: a handler connected under a name with
      a lower-case letter is never called. */
  lemma LowerCaseNameNeverFires(name: string, event: string)
    requires exists i :: 0 <= i < |name| && IsAsciiLower(name[i])
    ensures Upper(event) != name
  {
    var i :| 0 <= i < |name| && IsAsciiLower(name[i]);
    UpperIsUpper(event);
    if |Upper(event)| == |name| {
      assert !IsAsciiLower(Upper(event)[i]);
    }
  }

  /** INSTANCE_EXIT, in any casing, closes the instance; INSTANCE_START
      with a number records the pid. */
  lemma LifecycleEvents(u: Uzbl, pid: int, fails: HandlerId -> bool, plugins: seq<(string, HandlerId)>)
    ensures var r := Event(u, InstanceExit, [], fails, plugins);
            r.Handled? && r.state.closed
    ensures var r := Event(u, InstanceStart, [IntToDecimal(pid)], fails, plugins);
            r.Handled? && r.state.pid == Some(pid)
  {
    UpperFixes(InstanceExit);
    UpperFixes(InstanceStart);
    PyIntRoundTrip(pid, IsPySpace);
  }

  /** Text without lower-case letters is its own upper case. */
  lemma UpperFixes(s: string)
    requires forall i :: 0 <= i < |s| ==> !IsAsciiLower(s[i])
    ensures Upper(s) == s
  {
  }

  /** "EVENT name INSTANCE_START" without a pid reaches `int('')`. */
  lemma StartWithoutPid(u: Uzbl, fails: HandlerId -> bool, plugins: seq<(string, HandlerId)>)
    ensures Event(u, InstanceStart, [""], fails, plugins) == BadPid
  {
    StartIsUpper();
    PyIntEmpty(IsPySpace);
    var args := [""];
    assert args[0] == "";
  }

  /** The event name INSTANCE_START is already upper case. */
  lemma StartIsUpper()
    ensures Upper(InstanceStart) == InstanceStart
  {
    UpperFixes(InstanceStart);
  }

  /* -------------------------------------------------------------- requests */

  /** Entries in ascending priority. */
  predicate Sorted(es: seq<Entry>) {
    forall i, j :: 0 <= i < j < |es| ==> es[i].prio <= es[j].prio
  }

  /** The entries of one priority, in their order. */
  function Class(es: seq<Entry>, q: int): (r: seq<Entry>)
    ensures |r| <= |es|
  {
    if |es| == 0 then []
    else Class(es[..|es| - 1], q) + (if es[|es| - 1].prio == q then [es[|es| - 1]] else [])
  }

  /** Where a stable insertion puts an entry of priority `p`: after the
      last entry, scanning from the end, whose priority is not above `p`. */
  function InsertPoint(es: seq<Entry>, p: int): (k: nat)
    ensures k <= |es|
    ensures forall i :: k <= i < |es| ==> es[i].prio > p
    ensures k > 0 ==> es[k - 1].prio <= p
  {
    if |es| == 0 then 0
    else if es[|es| - 1].prio <= p then |es|
    else InsertPoint(es[..|es| - 1], p)
  }

  function Insert(es: seq<Entry>, e: Entry): seq<Entry>
  {
    var k := InsertPoint(es, e.prio);
    es[..k] + [e] + es[k..]
  }

  /** `list.sort(key=fst)`, a stable sort, as insertion sort. */
  function SortByPrio(es: seq<Entry>): seq<Entry>
  {
    if |es| == 0 then [] else Insert(SortByPrio(es[..|es| - 1]), es[|es| - 1])
  }

  lemma ClassAppend(a: seq<Entry>, b: seq<Entry>, q: int)
    ensures Class(a + b, q) == Class(a, q) + Class(b, q)
    decreases |b|
  {
    if |b| > 0 {
      assert (a + b)[..|a + b| - 1] == a + b[..|b| - 1];
      ClassAppend(a, b[..|b| - 1], q);
    } else {
      assert a + b == a;
    }
  }

  lemma ClassOfAbove(es: seq<Entry>, q: int)
    requires forall i :: 0 <= i < |es| ==> es[i].prio > q
    ensures Class(es, q) == []
    decreases |es|
  {
    if |es| > 0 {
      ClassOfAbove(es[..|es| - 1], q);
    }
  }

  /** Inserting keeps every priority class in order and puts the new entry
      last in its class. */
  lemma InsertClasses(es: seq<Entry>, e: Entry, q: int)
    ensures Class(Insert(es, e), q) == Class(es, q) + (if e.prio == q then [e] else [])
  {
    var k := InsertPoint(es, e.prio);
    var a, b := es[..k], es[k..];
    var ca, cb := Class(a, q), Class(b, q);
    var ce: seq<Entry> := if e.prio == q then [e] else [];
    assert Class(Insert(es, e), q) == ca + ce + cb by {
      assert Insert(es, e) == (a + [e]) + b;
      ClassAppend(a + [e], b, q);
      ClassLast(a, e, q);
    }
    assert Class(es, q) == ca + cb by {
      assert es == a + b;
      ClassAppend(a, b, q);
    }
    if e.prio == q {
      ClassAfterInsertPoint(es, q);
    }
    SwapEmpty(ca, ce, cb);
  }

  /** No entry of priority `q` follows the insertion point for `q`. */
  lemma ClassAfterInsertPoint(es: seq<Entry>, q: int)
    ensures Class(es[InsertPoint(es, q)..], q) == []
  {
    var b := es[InsertPoint(es, q)..];
    assert forall i :: 0 <= i < |b| ==> b[i].prio > q;
    ClassOfAbove(b, q);
  }

  lemma SwapEmpty(x: seq<Entry>, e: seq<Entry>, b: seq<Entry>)
    requires e == [] || b == []
    ensures x + e + b == x + b + e
  {
  }

  lemma ClassLast(a: seq<Entry>, e: Entry, q: int)
    ensures Class(a + [e], q) == Class(a, q) + (if e.prio == q then [e] else [])
  {
    assert (a + [e])[..|a|] == a;
  }

  lemma InsertSorted(es: seq<Entry>, e: Entry)
    requires Sorted(es)
    ensures Sorted(Insert(es, e))
  {
    InsertElements(es, e);
    SortedSpliced(es, e, InsertPoint(es, e.prio), Insert(es, e));
  }

  /** An entry spliced into a sorted list after the entries not above it
      and before those above it leaves the list sorted. */
  lemma SortedSpliced(es: seq<Entry>, e: Entry, k: nat, r: seq<Entry>)
    requires Sorted(es) && k <= |es| && |r| == |es| + 1
    requires k > 0 ==> es[k - 1].prio <= e.prio
    requires forall i :: k <= i < |es| ==> es[i].prio > e.prio
    requires forall i :: 0 <= i < k ==> r[i] == es[i]
    requires r[k] == e
    requires forall i :: k < i < |r| ==> r[i] == es[i - 1]
    ensures Sorted(r)
  {
    forall i, j | 0 <= i < j < |r| ensures r[i].prio <= r[j].prio {
      if j < k {
        assert r[i] == es[i] && r[j] == es[j];
      } else if j == k {
        assert r[j] == e;
        if i < k - 1 {
          assert r[i] == es[i] && es[i].prio <= es[k - 1].prio;
        }
      } else if i < k {
        assert r[i] == es[i] && r[j] == es[j - 1];
      } else if i == k {
        assert r[i] == e && r[j] == es[j - 1];
      } else {
        assert r[i] == es[i - 1] && r[j] == es[j - 1];
      }
    }
  }

  /** The entries after insertion: those before the insertion point, the
      new one, the rest. */
  lemma InsertElements(es: seq<Entry>, e: Entry)
    ensures var k, r := InsertPoint(es, e.prio), Insert(es, e);
            |r| == |es| + 1 && r[k] == e
            && (forall i :: 0 <= i < k ==> r[i] == es[i])
            && (forall i :: k < i < |r| ==> r[i] == es[i - 1])
  {
  }

  /** The stable sort orders by priority and keeps each class in
      registration order. */
  lemma {:induction false} SortByPrioSpec(es: seq<Entry>)
    ensures Sorted(SortByPrio(es))
    ensures forall q :: Class(SortByPrio(es), q) == Class(es, q)
    decreases |es|
  {
    if |es| > 0 {
      var init, last := es[..|es| - 1], es[|es| - 1];
      SortByPrioSpec(init);
      InsertSorted(SortByPrio(init), last);
      forall q ensures Class(SortByPrio(es), q) == Class(es, q) {
        InsertClasses(SortByPrio(init), last, q);
      }
    }
  }

  /** Sorting a sorted list changes nothing. */
  lemma {:induction false} SortSortedIsIdentity(es: seq<Entry>)
    requires Sorted(es)
    ensures SortByPrio(es) == es
    decreases |es|
  {
    if |es| > 0 {
      var init := es[..|es| - 1];
      SortSortedIsIdentity(init);
      assert es == init + [es[|es| - 1]];
    }
  }

  /** `answer_request(name, prio, handler)` (lines 209-220): appended, then
      the list sorted by priority. */
  function AnswerRequest(u: Uzbl, name: string, prio: int, h: HandlerId): (r: Uzbl)
    ensures Sorted(RequestHandlers(r, name))
    ensures forall q :: Class(RequestHandlers(r, name), q)
                        == Class(RequestHandlers(u, name), q) + (if q == prio then [Entry(prio, h)] else [])
    ensures forall n :: n != name ==> RequestHandlers(r, n) == RequestHandlers(u, n)
    ensures r.handlers == u.handlers && r.name == u.name && r.pid == u.pid && r.closed == u.closed
  {
    var es := RequestHandlers(u, name) + [Entry(prio, h)];
    SortByPrioSpec(es);
    assert es[..|es| - 1] == RequestHandlers(u, name);
    u.(requestHandlers := u.requestHandlers[name := SortByPrio(es)])
  }

  /** On a list that is already sorted, which every list built by
      `answer_request` is, appending and sorting is one stable insertion. */
  lemma AnswerRequestInserts(u: Uzbl, name: string, prio: int, h: HandlerId)
    requires Sorted(RequestHandlers(u, name))
    ensures RequestHandlers(AnswerRequest(u, name, prio, h), name)
            == Insert(RequestHandlers(u, name), Entry(prio, h))
  {
    var es := RequestHandlers(u, name);
    SortSortedIsIdentity(es);
    assert (es + [Entry(prio, h)])[..|es|] == es;
  }

  /** What a request handler returns: a response (or `None`) and the
      arguments for the next handler. */
  datatype Answer = Answer(response: Option<string>, args: seq<string>)

  type Answerer = (HandlerId, Option<string>, seq<string>) -> Option<Answer>

  /** `final_response` after the handler loop (lines 124-135): a handler
      that raises leaves the response and the arguments as they were. */
  function FinalResponse(es: seq<Entry>, final: Option<string>, args: seq<string>, answer: Answerer): Option<string>
    decreases |es|
  {
    if |es| == 0 then final
    else match answer(es[0].handler, final, args)
      case None => FinalResponse(es[1..], final, args, answer)
      case Some(a) =>
        FinalResponse(es[1..], if a.response.Some? then a.response else final, a.args, answer)
  }

  /** The responses the handlers give, in the order they run (`None` for
      `None` and for an exception). */
  function Responses(es: seq<Entry>, final: Option<string>, args: seq<string>, answer: Answerer): (r: seq<Option<string>>)
    ensures |r| == |es|
    decreases |es|
  {
    if |es| == 0 then []
    else match answer(es[0].handler, final, args)
      case None => [None] + Responses(es[1..], final, args, answer)
      case Some(a) =>
        [a.response] + Responses(es[1..], if a.response.Some? then a.response else final, a.args, answer)
  }

  /** The last response that is not `None`, or `d`. */
  function LastSome(rs: seq<Option<string>>, d: Option<string>): Option<string>
  {
    if |rs| == 0 then d
    else if rs[|rs| - 1].Some? then rs[|rs| - 1]
    else LastSome(rs[..|rs| - 1], d)
  }

  lemma {:induction false} LastSomeCons(r0: Option<string>, rs: seq<Option<string>>, d: Option<string>)
    ensures LastSome([r0] + rs, d) == LastSome(rs, if r0.Some? then r0 else d)
    decreases |rs|
  {
    var xs := [r0] + rs;
    if |rs| == 0 {
      assert xs[..0] == [];
    } else {
      assert xs[|xs| - 1] == rs[|rs| - 1];
      assert xs[..|xs| - 1] == [r0] + rs[..|rs| - 1];
      LastSomeCons(r0, rs[..|rs| - 1], d);
    }
  }

  /** The handler loop's response is the last non-`None` response. */
  lemma {:induction false} FinalIsLastResponse(es: seq<Entry>, final: Option<string>, args: seq<string>, answer: Answerer)
    ensures FinalResponse(es, final, args, answer) == LastSome(Responses(es, final, args, answer), final)
    decreases |es|
  {
    if |es| > 0 {
      match answer(es[0].handler, final, args)
      case None =>
        FinalIsLastResponse(es[1..], final, args, answer);
        LastSomeCons(None, Responses(es[1..], final, args, answer), final);
      case Some(a) =>
        var next := if a.response.Some? then a.response else final;
        FinalIsLastResponse(es[1..], next, a.args, answer);
        LastSomeCons(a.response, Responses(es[1..], next, a.args, answer), final);
    }
  }

  /** `request(request, *args, cookie=…)` (lines 105-140): the line pushed
      back, or `None` for a request without a cookie. */
  function Request(u: Uzbl, request: string, args: seq<string>, cookie: Option<string>, answer: Answerer): (r: Option<string>)
    ensures cookie.None? <==> r.None?
    ensures cookie.Some? ==>
              r == Some(Reply(cookie.value,
                              LastSome(Responses(RequestHandlers(u, Upper(request)), None, args, answer), None).GetOr("")))
  {
    match cookie
    case None => None
    case Some(c) =>
      var es := RequestHandlers(u, Upper(request));
      FinalIsLastResponse(es, None, args, answer);
      Some(Reply(c, FinalResponse(es, None, args, answer).GetOr("")))
  }

  /** A request nobody answers is replied to with an empty response. */
  lemma UnansweredRequest(u: Uzbl, request: string, args: seq<string>, cookie: string, answer: Answerer)
    requires RequestHandlers(u, Upper(request)) == []
    ensures Request(u, request, args, Some(cookie), answer) == Some(Reply(cookie, ""))
  {
  }

  /** The handler that answers last wins, whatever the earlier ones said. */
  lemma LastAnswerWins(es: seq<Entry>, args: seq<string>, answer: Answerer)
    requires |es| > 0
    requires Responses(es, None, args, answer)[|es| - 1].Some?
    ensures FinalResponse(es, None, args, answer) == Responses(es, None, args, answer)[|es| - 1]
  {
    FinalIsLastResponse(es, None, args, answer);
  }

  /* ---------------------------------------------------------------- lines */

  /** What handling one line does. */
  datatype Outcome =
    | Quiet(state: Uzbl)                               // ignored line
    | Raised(state: Uzbl)                              // an assertion or ValueError escaped
    | Dispatched(state: Uzbl, calls: seq<Call>)        // an event
    | Replied(state: Uzbl, line: string)               // a request

  /** Whether `m` is an event message that starts the instance. */
  predicate StartMsg(m: Message)
  {
    m.EventMsg? && Upper(m.event) == InstanceStart
  }

  /** `parse_msg(line)` followed by the handler it selects; `plugins` are
      the connections `init_plugins` makes at INSTANCE_START. */
  function Receive(u: Uzbl, line: string, fails: HandlerId -> bool, answer: Answerer,
                   plugins: seq<(string, HandlerId)>): (r: Outcome)
    ensures ParseMsg(u.name, line) == Ignored ==> r == Quiet(u)
    ensures r.state.name == NameAfter(u.name, ParseMsg(u.name, line))
    ensures r.state.requestHandlers == u.requestHandlers
    ensures !(r.Dispatched? && StartMsg(ParseMsg(u.name, line))) ==> r.state.handlers == u.handlers
    ensures r.Dispatched? && StartMsg(ParseMsg(u.name, line)) ==>
              forall n :: Handlers(r.state, n) == Handlers(u, n) + ConnectedUnder(plugins, n)
  {
    var m := ParseMsg(u.name, line);
    var v := u.(name := NameAfter(u.name, m));
    match m
    case Ignored => Quiet(u)
    case MissingElements => Raised(u)
    case NameMismatch => Raised(u)
    case EventMsg(_, event, args) =>
      (match Event(v, event, [args], fails, plugins)
       case BadPid => Raised(v)
       case Handled(s, calls) => Dispatched(s, calls))
    case RequestMsg(_, cookie, request, args) =>
      Replied(v, Request(v, request, [args], Some(cookie), answer).value)
  }

  /** The event line of an instance calls the handlers of the upper-cased
      event name with the argument text. */
  lemma ReceiveEvent(u: Uzbl, name: string, event: string, args: string, fails: HandlerId -> bool, answer: Answerer,
                     plugins: seq<(string, HandlerId)>)
    requires name != "" && event != "" && ' ' !in name && ' ' !in event
    requires u.name.None? || u.name == Some(name)
    requires Upper(event) != InstanceStart
    ensures var r := Receive(u, EventWord + " " + name + " " + event + " " + args, fails, answer, plugins);
            r.Dispatched? && r.state.name == Some(name)
            && r.calls == RunHandlers(Handlers(u, Upper(event)), fails)
  {
    ParseEvent(u.name, name, event, args);
  }

  /** A line from a second instance name raises and changes nothing. */
  lemma ReceiveOtherName(u: Uzbl, name: string, event: string, args: string, fails: HandlerId -> bool, answer: Answerer,
                         plugins: seq<(string, HandlerId)>)
    requires name != "" && event != "" && ' ' !in name && ' ' !in event
    requires u.name.Some? && u.name != Some(name)
    ensures Receive(u, EventWord + " " + name + " " + event + " " + args, fails, answer, plugins) == Raised(u)
  {
    ParseEvent(u.name, name, event, args);
  }
}
