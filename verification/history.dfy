/** The command history of uzbl/plugins/history.py: one shared store of
    lines per prompt (`SharedHistory`) and, per instance, a cursor that
    walks it backwards and forwards (`History`), optionally only over the
    lines that contain a search key. Python's `random.choice` of a
    farewell message is a parameter: `pick` selects the message. */
module History {
  import opened Wrappers
  import opened Text
  import opened PySeq

  /** `SharedHistory.history`: the lines entered under each prompt, oldest
      first. */
  type Shared = map<string, seq<string>>

  /** The lines of a prompt; a prompt never used has none. */
  function Lines(s: Shared, prompt: string): seq<string>
  {
    if prompt in s then s[prompt] else []
  }

  /** `get_line_number(prompt)`: how many lines the prompt has. */
  function GetLineNumber(s: Shared, prompt: string): (r: nat)
    ensures prompt !in s ==> r == 0
    ensures r == |Lines(s, prompt)|
  {
    if prompt in s then |s[prompt]| else 0
  }

  /** `addline(prompt, entry)`: the entry becomes the prompt's newest line;
      no other prompt changes. */
  function AddLine(s: Shared, prompt: string, entry: string): (r: Shared)
    ensures Lines(r, prompt) == Lines(s, prompt) + [entry]
    ensures forall p :: p != prompt ==> Lines(r, p) == Lines(s, p)
    ensures r.Keys == s.Keys + {prompt}
  {
    if prompt in s then s[prompt := s[prompt] + [entry]] else s[prompt := [entry]]
  }

  /** `getline(prompt, index)` with Python indexing; `None` is the
      IndexError raised for an index out of range and for a prompt never
      used. */
  function GetLine(s: Shared, prompt: string, index: int): (r: Option<string>)
    ensures prompt !in s ==> r.None?
    ensures r.Some? <==> -(GetLineNumber(s, prompt) as int) <= index < GetLineNumber(s, prompt)
    ensures r == Index(Lines(s, prompt), index)
  {
    if prompt in s then Index(s[prompt], index) else None
  }

  /** A line added is the newest line of its prompt. */
  lemma AddThenGet(s: Shared, prompt: string, entry: string)
    ensures GetLineNumber(AddLine(s, prompt, entry), prompt) == GetLineNumber(s, prompt) + 1
    ensures GetLine(AddLine(s, prompt, entry), prompt, -1) == Some(entry)
    ensures GetLine(AddLine(s, prompt, entry), prompt, GetLineNumber(s, prompt)) == Some(entry)
  {
  }

  /** The messages `prev` returns once the history is exhausted. */
  const EndMessages: seq<string> := [
    "Look behind you, A three-headed monkey!",
    "error #4: static from nylon underwear.",
    "error #5: static from plastic slide rules.",
    "error #6: global warming.",
    "error #9: doppler effect.",
    "error #16: somebody was calculating pi on the server.",
    "error #19: floating point processor overflow.",
    "error #21: POSIX compliance problem.",
    "error #25: Decreasing electron flux.",
    "error #26: first Saturday after first full moon in Winter.",
    "error #64: CPU needs recalibration.",
    "error #116: the real ttys became pseudo ttys and vice-versa.",
    "error #229: wrong polarity of neutron flow.",
    "error #330: quantum decoherence.",
    "error #388: Bad user karma.",
    "error #407: Route flapping at the NAP.",
    "error #435: Internet shut down due to maintenance."
  ]

  /** The per-instance `History`: the text typed before walking the
      history (`_tail`), the current prompt, the cursor into the prompt's
      lines and the search key; `None` stands for Python's None. */
  datatype State = State(tail: Option<string>, prompt: string, cursor: Option<int>, searchKey: Option<string>)

  /** `History.__init__`. */
  const Initial: State := State(Some(""), "", None, None)

  /** Python truth of an optional string: present and non-empty. */
  predicate Truthy(o: Option<string>)
  {
    o.Some? && o.value != ""
  }

  /** The state after a step and the line it returns. */
  datatype Step = Step(h: State, line: string)

  /** The search loop of `prev`: from `c` downwards, the first line
      containing `key`, or -1 when there is none. */
  function SearchBack(lines: seq<string>, key: string, c: int): (r: int)
    requires c < |lines|
    ensures -1 <= r && (c >= 0 ==> r <= c) && (c < 0 ==> r == -1)
    ensures r >= 0 ==> Occurs(lines[r], key)
    ensures forall j | r < j <= c :: !Occurs(lines[j], key)
    decreases c + 1
  {
    if c < 0 then -1
    else if Occurs(lines[c], key) then c
    else SearchBack(lines, key, c - 1)
  }

  /** The search loop of `__next__`: from `c` upwards, the first position
      whose line contains `key`, or the first position at or past the end.
      `None` is the IndexError of a negative position below `-len`. */
  function SearchForward(lines: seq<string>, key: string, c: int): (r: Option<int>)
    ensures c >= 0 ==> r.Some?
    ensures r.Some? ==> r.value >= c
    ensures r.Some? && c <= |lines| ==> r.value <= |lines|
    ensures r.Some? && 0 <= r.value < |lines| ==> Occurs(lines[r.value], key)
    ensures r.Some? && c >= 0 ==> forall j | c <= j < r.value && j < |lines| :: !Occurs(lines[j], key)
    decreases |lines| - c
  {
    if c >= |lines| then Some(c)
    else
      match Index(lines, c)
      case None => None
      case Some(line) => if Occurs(line, key) then Some(c) else SearchForward(lines, key, c + 1)
  }

  /** `prev()`: one line further back, skipping lines without the search
      key; past the oldest line the cursor rests at -1 and a farewell
      message is returned. `None` is the IndexError of a cursor left past
      the end of the prompt's lines (possible after a prompt change). */
  function Prev(s: Shared, h: State, pick: nat): (r: Option<Step>)
    requires pick < |EndMessages|
    ensures r.None? <==> h.cursor.Some? && h.cursor.value > GetLineNumber(s, h.prompt)
    ensures r.Some? ==> r.value.h.cursor.Some? && -1 <= r.value.h.cursor.value < GetLineNumber(s, h.prompt)
    ensures r.Some? ==> r.value.h == h.(cursor := r.value.h.cursor)
    ensures r.Some? && r.value.h.cursor.value >= 0 ==>
      r.value.line == Lines(s, h.prompt)[r.value.h.cursor.value]
    ensures r.Some? && r.value.h.cursor.value == -1 ==> r.value.line == EndMessages[pick]
  {
    var lines := Lines(s, h.prompt);
    var c := if h.cursor.None? then |lines| - 1 else h.cursor.value - 1;
    if c >= |lines| then None
    else
      var j := if Truthy(h.searchKey) then SearchBack(lines, h.searchKey.value, c) else c;
      if j >= 0 then Some(Step(h.(cursor := Some(j)), lines[j]))
      else Some(Step(h.(cursor := Some(-1)), EndMessages[pick]))
  }

  /** `__next__()`: one line further forward, skipping lines without the
      search key; past the newest line the walk ends, the cursor and the
      search key are cleared, and the saved tail is returned once. */
  function Next(s: Shared, h: State): (r: Option<Step>)
    ensures h.cursor.None? ==> r == Some(Step(h, ""))
    ensures h.cursor.Some? && h.cursor.value >= -1 ==> r.Some?
    ensures r.Some? && r.value.h.cursor.Some? ==>
      r.value.h == h.(cursor := r.value.h.cursor)
      && h.cursor.Some? && h.cursor.value < r.value.h.cursor.value < GetLineNumber(s, h.prompt)
      && Index(Lines(s, h.prompt), r.value.h.cursor.value) == Some(r.value.line)
    ensures r.Some? && h.cursor.Some? && r.value.h.cursor.None? ==>
      r.value.h.searchKey.None? && r.value.h.prompt == h.prompt
      && (Truthy(h.tail) ==> r.value.line == h.tail.value && r.value.h.tail.None?)
      && (!Truthy(h.tail) ==> r.value.line == "" && r.value.h.tail == h.tail)
  {
    if h.cursor.None? then Some(Step(h, ""))
    else
      var lines := Lines(s, h.prompt);
      var c := h.cursor.value + 1;
      var found := if Truthy(h.searchKey) then SearchForward(lines, h.searchKey.value, c) else Some(c);
      match found
      case None => None
      case Some(j) =>
        if j >= |lines| then
          var ended := h.(cursor := None, searchKey := None);
          if Truthy(h.tail) then Some(Step(ended.(tail := None), h.tail.value))
          else Some(Step(ended, ""))
        else
          match Index(lines, j)
          case None => None
          case Some(line) => Some(Step(h.(cursor := Some(j)), line))
  }

  /** `change_prompt(prompt)`: the saved tail is dropped, the cursor kept. */
  function ChangePrompt(h: State, prompt: string): (r: State)
    ensures r.prompt == prompt && r.tail.None?
    ensures r.cursor == h.cursor && r.searchKey == h.searchKey
  {
    h.(prompt := prompt, tail := None)
  }

  /** `search(key)`: the walk restarts from the newest line, over the
      lines containing `key`. */
  function Search(h: State, key: string): (r: State)
    ensures r.cursor.None? && r.searchKey == Some(key)
    ensures r.prompt == h.prompt && r.tail == h.tail
  {
    h.(searchKey := Some(key), cursor := None)
  }

  /** `keycmd_exec`: a non-empty command becomes the newest line of the
      current prompt, and the walk is reset. */
  function KeycmdExec(s: Shared, h: State, cmd: string): (r: (Shared, State))
    ensures cmd != "" ==> r.0 == AddLine(s, h.prompt, cmd)
    ensures cmd == "" ==> r.0 == s
    ensures r.1.cursor.None? && r.1.searchKey.None? && r.1.tail.None? && r.1.prompt == h.prompt
  {
    var s' := if cmd != "" then AddLine(s, h.prompt, cmd) else s;
    (s', h.(tail := None, cursor := None, searchKey := None))
  }

  /** `history_prev`: the typed text is saved as the tail when a walk
      starts, and the key command becomes the line `prev` returns. */
  function HistoryPrev(s: Shared, h: State, keycmd: string, pick: nat): (r: Option<Step>)
    requires pick < |EndMessages|
    ensures h.cursor.None? && keycmd != "" && r.Some? ==> r.value.h.tail == Some(keycmd)
    ensures h.cursor.Some? || keycmd == "" ==> r == Prev(s, h, pick)
  {
    var h' := if h.cursor.None? && keycmd != "" then h.(tail := Some(keycmd)) else h;
    Prev(s, h', pick)
  }

  /** Walking back from the newest line visits the lines newest first. */
  lemma PrevFromFresh(s: Shared, h: State, pick: nat)
    requires pick < |EndMessages| && h.cursor.None? && !Truthy(h.searchKey)
    ensures var n := GetLineNumber(s, h.prompt);
      n > 0 ==> Prev(s, h, pick) == Some(Step(h.(cursor := Some(n - 1)), Lines(s, h.prompt)[n - 1]))
    ensures GetLineNumber(s, h.prompt) == 0 ==>
      Prev(s, h, pick) == Some(Step(h.(cursor := Some(-1)), EndMessages[pick]))
  {
  }

  /** Each further step back returns the next older line, until the
      history is exhausted; from then on the cursor stays at -1. */
  lemma PrevSteps(s: Shared, h: State, c: int, pick: nat)
    requires pick < |EndMessages| && h.cursor == Some(c) && !Truthy(h.searchKey)
    requires c <= GetLineNumber(s, h.prompt)
    ensures c > 0 ==> Prev(s, h, pick) == Some(Step(h.(cursor := Some(c - 1)), Lines(s, h.prompt)[c - 1]))
    ensures c <= 0 ==> Prev(s, h, pick) == Some(Step(h.(cursor := Some(-1)), EndMessages[pick]))
  {
  }

  /** With a search key, `prev` returns the nearest older line containing
      the key, or ends the walk when no older line does. */
  lemma PrevSearchFinds(s: Shared, h: State, c: int, pick: nat)
    requires pick < |EndMessages| && Truthy(h.searchKey)
    requires h.cursor == Some(c) && c <= GetLineNumber(s, h.prompt)
    ensures var lines := Lines(s, h.prompt);
      var r := Prev(s, h, pick).value;
      var j := r.h.cursor.value;
      (j < c || j == -1)
      && (j >= 0 ==> Occurs(r.line, h.searchKey.value))
      && forall i | j < i < c :: !Occurs(lines[i], h.searchKey.value)
  {
    var lines := Lines(s, h.prompt);
    var j := SearchBack(lines, h.searchKey.value, c - 1);
    assert Prev(s, h, pick).value.h.cursor == Some(j);
  }

  /** With a search key, `__next__` returns the nearest newer line
      containing the key, or ends the walk when no newer line does. */
  lemma NextSearchFinds(s: Shared, h: State, c: int)
    requires Truthy(h.searchKey) && h.cursor == Some(c) && c >= -1
    ensures var lines := Lines(s, h.prompt);
      var r := Next(s, h).value;
      (r.h.cursor.Some? ==>
        (Occurs(r.line, h.searchKey.value)
         && forall i | c < i < r.h.cursor.value :: !Occurs(lines[i], h.searchKey.value)))
      && (r.h.cursor.None? ==> forall i | c < i < |lines| :: !Occurs(lines[i], h.searchKey.value))
  {
    var lines := Lines(s, h.prompt);
    var found := SearchForward(lines, h.searchKey.value, c + 1);
    if c + 1 <= |lines| {
      assert found.Some? && found.value <= |lines|;
    }
  }

  /** Without a search key, a step forward undoes a step back. */
  lemma NextUndoesPrev(s: Shared, h: State, c: int, pick: nat)
    requires pick < |EndMessages| && h.cursor == Some(c) && !Truthy(h.searchKey)
    requires 0 < c < GetLineNumber(s, h.prompt)
    ensures Prev(s, h, pick).Some?
    ensures Next(s, Prev(s, h, pick).value.h) == Some(Step(h, Lines(s, h.prompt)[c]))
  {
    PrevSteps(s, h, c, pick);
  }

  /** Without a search key, a step back undoes a step forward. */
  lemma PrevUndoesNext(s: Shared, h: State, c: int, pick: nat)
    requires pick < |EndMessages| && h.cursor == Some(c) && !Truthy(h.searchKey)
    requires 0 <= c < GetLineNumber(s, h.prompt) - 1
    ensures Next(s, h).Some?
    ensures Prev(s, Next(s, h).value.h, pick) == Some(Step(h, Lines(s, h.prompt)[c]))
  {
  }

  /** A command just executed is the first line a new walk returns. */
  lemma ExecThenPrev(s: Shared, h: State, cmd: string, pick: nat)
    requires pick < |EndMessages| && cmd != ""
    ensures var (s', h') := KeycmdExec(s, h, cmd);
      Prev(s', h', pick).Some? && Prev(s', h', pick).value.line == cmd
  {
    var (s', h') := KeycmdExec(s, h, cmd);
    var n := GetLineNumber(s', h.prompt);
    assert Lines(s', h.prompt)[n - 1] == cmd;
  }

  /** Four lines under the empty prompt, walked as in the history's own
      stepping test: forward does nothing before a walk, backward visits
      the lines newest first, and after the oldest line a forward step
      returns the oldest line again. */
  lemma SteppingVisitsNewestFirst(a: string, b: string, c: string, d: string, p1: nat, p2: nat)
    requires p1 < |EndMessages| && p2 < |EndMessages|
    ensures var s: Shared := map["" := [a, b, c, d]];
      var n0 := Next(s, Initial).value;
      var r1 := Prev(s, n0.h, p1).value;
      var r2 := Prev(s, r1.h, p1).value;
      var r3 := Next(s, r2.h).value;
      var r4 := Prev(s, r3.h, p1).value;
      var r5 := Prev(s, r4.h, p1).value;
      var r6 := Prev(s, r5.h, p1).value;
      var r7 := Prev(s, r6.h, p1).value;
      var r8 := Prev(s, r7.h, p2).value;
      var r9 := Next(s, r8.h).value;
      n0.line == "" && r1.line == d && r2.line == c && r3.line == d && r4.line == c
      && r5.line == b && r6.line == a && r7.line == EndMessages[p1]
      && r8.line == EndMessages[p2] && r9.line == a
  {
  }

  /** The text typed before a walk comes back once when the walk steps
      past the newest line, and a further step returns "". */
  lemma TypedTextComesBackOnce(line: string, typed: string, pick: nat)
    requires pick < |EndMessages| && typed != ""
    ensures var s: Shared := map["foo" := [line]];
      var h := ChangePrompt(Initial, "foo");
      var r1 := HistoryPrev(s, h, typed, pick).value;
      var r2 := Prev(s, r1.h, pick).value;
      var r3 := Next(s, r2.h).value;
      var r4 := Next(s, r3.h).value;
      var r5 := Next(s, r4.h).value;
      r1.line == line && r2.line == EndMessages[pick] && r3.line == line
      && r4.line == typed && r5.line == ""
  {
  }
}
