/** The `Keylet` of the keycmd plugin: the command being typed, a cursor
    into it, and the modifier command. The cursor is a position the
    methods keep non-negative; Python's slicing clamps it when it lies past
    the end, which `strip_word` can leave it. */
module Keylet {
  import opened Wrappers
  import opened Text
  import opened Numerals
  import opened PySeq
  import opened Util

  datatype Keylet = Keylet(modcmd: string, isModcmd: bool, keycmd: string, cursor: nat)

  /** `Keylet()`. */
  const Fresh: Keylet := Keylet("", false, "", 0)

  /** The cursor lies within the command. */
  predicate Valid(k: Keylet)
  {
    k.cursor <= |k.keycmd|
  }

  /** `inject_str(str, index, inj)`: `inj` spliced in at `index`. */
  function InjectStr(s: string, index: int, inj: string): (r: string)
    ensures |r| == |s| + |inj|
    ensures 0 <= index <= |s| ==> r[..index] == s[..index] && r[index..index + |inj|] == inj && r[index + |inj|..] == s[index..]
  {
    TakeDrop(s, index);
    var r := Take(s, index) + inj + Drop(s, index);
    assert 0 <= index <= |s| ==> r[..index] == s[..index] && r[index..index + |inj|] == inj && r[index + |inj|..] == s[index..] by {
      if 0 <= index <= |s| {
        assert Take(s, index) == s[..index] && Drop(s, index) == s[index..];
      }
    }
    r
  }

  /** `clear_keycmd`. */
  function ClearKeycmd(k: Keylet): (r: Keylet)
    ensures r.keycmd == "" && r.cursor == 0 && Valid(r)
    ensures r.modcmd == k.modcmd && r.isModcmd == k.isModcmd
  {
    k.(keycmd := "", cursor := 0)
  }

  /** `get_modcmd`: empty unless a modifier command is active. */
  function GetModcmd(k: Keylet): (r: string)
    ensures !k.isModcmd ==> r == ""
    ensures k.isModcmd ==> r == k.modcmd
  {
    if !k.isModcmd then "" else k.modcmd
  }

  /** `clear_modcmd`. */
  function ClearModcmd(k: Keylet): (r: Keylet)
    ensures GetModcmd(r) == "" && r.keycmd == k.keycmd && r.cursor == k.cursor
  {
    k.(modcmd := "", isModcmd := false)
  }

  /** `set_keycmd(keycmd)`: the cursor goes to the end. */
  function SetKeycmd(k: Keylet, keycmd: string): (r: Keylet)
    ensures r.keycmd == keycmd && r.cursor == |keycmd| && Valid(r)
    ensures r.modcmd == k.modcmd && r.isModcmd == k.isModcmd
  {
    k.(keycmd := keycmd, cursor := |keycmd|)
  }

  /** `insert_keycmd(s)`: `s` spliced in at the cursor, which moves past
      it. */
  function InsertKeycmd(k: Keylet, s: string): (r: Keylet)
    ensures r.keycmd == InjectStr(k.keycmd, k.cursor, s)
    ensures r.cursor == k.cursor + |s|
    ensures Valid(k) ==> (Valid(r) && r.keycmd[..k.cursor] == k.keycmd[..k.cursor]
      && r.keycmd[k.cursor..r.cursor] == s && r.keycmd[r.cursor..] == k.keycmd[k.cursor..])
    ensures r.modcmd == k.modcmd && r.isModcmd == k.isModcmd
  {
    k.(keycmd := InjectStr(k.keycmd, k.cursor, s), cursor := k.cursor + |s|)
  }

  /** `append_keycmd(s)`: `s` at the end, the cursor after it. */
  function AppendKeycmd(k: Keylet, s: string): (r: Keylet)
    ensures r.keycmd == k.keycmd + s && r.cursor == |r.keycmd| && Valid(r)
    ensures r.modcmd == k.modcmd && r.isModcmd == k.isModcmd
  {
    k.(keycmd := k.keycmd + s, cursor := |k.keycmd + s|)
  }

  /** The outcome of an edit: whether it changed anything, and the keylet. */
  datatype Edited = Edited(changed: bool, k: Keylet)

  /** `backspace()`: nothing on an empty command or at position 0;
      otherwise the character before the cursor goes and the cursor moves
      back. */
  function Backspace(k: Keylet): (r: Edited)
    ensures !r.changed <==> k.keycmd == "" || k.cursor == 0
    ensures !r.changed ==> r.k == k
    ensures r.changed ==> r.k.cursor == k.cursor - 1
    ensures r.changed && Valid(k) ==> (Valid(r.k)
      && r.k.keycmd == k.keycmd[..k.cursor - 1] + k.keycmd[k.cursor..])
  {
    if k.keycmd == "" || k.cursor == 0 then Edited(false, k)
    else
      var c: int := k.cursor;
      var cmd := Take(k.keycmd, c - 1) + Drop(k.keycmd, c);
      Edited(true, k.(keycmd := cmd, cursor := k.cursor - 1))
  }

  /** `delete()`: the character at the cursor goes, the cursor stays;
      only an empty command refuses. */
  function Delete(k: Keylet): (r: Edited)
    ensures !r.changed <==> k.keycmd == ""
    ensures !r.changed ==> r.k == k
    ensures r.k.cursor == k.cursor
    ensures r.changed && k.cursor < |k.keycmd| ==> r.k.keycmd == k.keycmd[..k.cursor] + k.keycmd[k.cursor + 1..]
    ensures r.changed && k.cursor >= |k.keycmd| ==> r.k.keycmd == k.keycmd
  {
    if k.keycmd == "" then Edited(false, k)
    else
      var c: int := k.cursor;
      var cmd := Take(k.keycmd, c) + Drop(k.keycmd, c + 1);
      TakeDropSkip(k.keycmd, c);
      Edited(true, k.(keycmd := cmd))
  }

  /** Typing a character and erasing it restores the keylet. */
  lemma InsertThenBackspace(k: Keylet, c: char)
    requires Valid(k)
    ensures Backspace(InsertKeycmd(k, [c])) == Edited(true, k)
  {
    var i := InsertKeycmd(k, [c]);
    assert i.keycmd[..k.cursor] + i.keycmd[k.cursor + 1..] == k.keycmd[..k.cursor] + k.keycmd[k.cursor..];
    assert k.keycmd[..k.cursor] + k.keycmd[k.cursor..] == k.keycmd;
  }

  /** Inserting a character and deleting it from the old position
      restores the command. */
  lemma InsertThenDelete(k: Keylet, c: char)
    requires Valid(k)
    ensures Delete(InsertKeycmd(k, [c]).(cursor := k.cursor)).k == k
  {
    var i := InsertKeycmd(k, [c]);
    assert i.keycmd[..k.cursor] + i.keycmd[k.cursor + 1..] == k.keycmd[..k.cursor] + k.keycmd[k.cursor..];
    assert k.keycmd[..k.cursor] + k.keycmd[k.cursor..] == k.keycmd;
  }

  // ---------------------------------------------------------------------
  // set_cursor_pos
  // ---------------------------------------------------------------------

  /** `set_cursor_pos(index)`: '-' and '+' step by one, any other text is
      read by `int`, a negative number counting from the end (-1 is the
      end); the result is clamped to the command. `None` is the ValueError
      of text `int` does not accept. */
  function SetCursorPos(k: Keylet, index: string): (r: Option<Keylet>)
    ensures index != "-" && index != "+" ==> (r.None? <==> PyInt(index, IsPySpace).None?)
    ensures r.Some? ==> (Valid(r.value) && r.value.keycmd == k.keycmd && r.value.modcmd == k.modcmd
      && r.value.isModcmd == k.isModcmd)
    ensures r.Some? ==> r.value.cursor == Clamp(Target(k, index), |k.keycmd|)
  {
    var target := if index == "-" then Some(k.cursor - 1)
      else if index == "+" then Some(k.cursor + 1)
      else
        var n := PyInt(index, IsPySpace);
        if n.None? then None else if n.value < 0 then Some(|k.keycmd| + n.value + 1) else n;
    if target.None? then None
    else
      var cursor := if target.value < 0 then 0 else if target.value > |k.keycmd| then |k.keycmd| else target.value;
      Some(k.(cursor := cursor))
  }

  /** The unclamped position `set_cursor_pos` computes, for text `int`
      accepts (0 otherwise). */
  function Target(k: Keylet, index: string): int
  {
    if index == "-" then k.cursor - 1
    else if index == "+" then k.cursor + 1
    else
      var n := PyInt(index, IsPySpace).GetOr(0);
      if n < 0 then |k.keycmd| + n + 1 else n
  }

  /** `x` forced into `[0, n]`. */
  function Clamp(x: int, n: nat): (r: nat)
    ensures r <= n
    ensures 0 <= x <= n ==> r == x
    ensures x < 0 ==> r == 0
    ensures x > n ==> r == n
  {
    if x < 0 then 0 else if x > n then n else x
  }

  /** The cursor set to a printed position inside the command lands
      there; a printed negative `-j` lands `j - 1` before the end. */
  lemma SetCursorToNumber(k: Keylet, i: int)
    requires -(|k.keycmd| as int) - 1 <= i <= |k.keycmd|
    ensures SetCursorPos(k, IntToDecimal(i)).Some?
    ensures SetCursorPos(k, IntToDecimal(i)).value.cursor == if i >= 0 then i else |k.keycmd| + i + 1
  {
    var s := IntToDecimal(i);
    assert s != "-" && s != "+" by {
      assert s[|s| - 1] != '-' && s[|s| - 1] != '+';
    }
    PyIntRoundTrip(i, IsPySpace);
    assert PyInt(s, IsPySpace) == Some(i);
    var target := if i >= 0 then i else |k.keycmd| + i + 1;
    assert Target(k, s) == target;
    assert 0 <= target <= |k.keycmd|;
    assert Clamp(Target(k, s), |k.keycmd|) == target;
  }

  /** Stepping forward then back inside the command returns to the same
      position. */
  lemma StepForwardBack(k: Keylet)
    requires k.cursor < |k.keycmd|
    ensures SetCursorPos(SetCursorPos(k, "+").value, "-") == Some(k)
  {
  }

  // ---------------------------------------------------------------------
  // strip_word
  // ---------------------------------------------------------------------

  /** `head.rfind(c)`: the last position of `c`, or -1. */
  function RFind(head: string, c: char): (r: int)
    ensures -1 <= r < |head|
    ensures r >= 0 ==> head[r] == c
    ensures forall j :: r < j < |head| ==> head[j] != c
    decreases |head|
  {
    if |head| == 0 then -1
    else if head[|head| - 1] == c then |head| - 1
    else RFind(head[..|head| - 1], c)
  }

  /** The loop over `seps`, `acc` the value of `rfind` so far. */
  function WordStartLoop(head: string, seps: string, acc: int): (r: int)
    requires -1 <= acc <= |head|
    ensures -1 <= r <= |head|
    ensures acc <= r
    decreases |seps|
  {
    if |seps| == 0 then acc
    else
      var p := RFind(head, seps[0]);
      WordStartLoop(head, seps[1..], if p >= 0 && acc < p + 1 then p + 1 else acc)
  }

  /** Just after the last separator of `head`, or -1 when it has none. */
  predicate IsWordStart(head: string, seps: string, w: int)
  {
    if w == -1 then (forall j :: 0 <= j < |head| ==> head[j] !in seps)
    else (1 <= w <= |head| && head[w - 1] in seps
      && forall j :: w <= j < |head| ==> head[j] !in seps)
  }

  /** The loop finds the position after the last separator of any kind. */
  lemma {:induction false} WordStartLoopIsLast(head: string, seps: string, done: string, acc: int)
    requires acc == -1 ==> forall j :: 0 <= j < |head| ==> head[j] !in done
    requires acc != -1 ==> (1 <= acc <= |head| && head[acc - 1] in done
      && forall j :: acc <= j < |head| ==> head[j] !in done)
    ensures IsWordStart(head, done + seps, WordStartLoop(head, seps, acc))
    decreases |seps|
  {
    if |seps| == 0 {
      assert done + seps == done;
    } else {
      var p := RFind(head, seps[0]);
      var acc' := if p >= 0 && acc < p + 1 then p + 1 else acc;
      var done' := done + [seps[0]];
      assert done + seps == done' + seps[1..];
      forall j | 0 <= j < |head| && head[j] in done' && !(head[j] in done)
        ensures head[j] == seps[0]
      {
      }
      WordStartLoopIsLast(head, seps[1..], done', acc');
    }
  }

  /** What `strip_word` returns besides the keylet: the removed word. */
  datatype Stripped = Stripped(k: Keylet, word: string)

  /** `s.rstrip(seps)`: the characters of `seps` off the end. */
  function RStripSeps(s: string, seps: string): (r: string)
    ensures r <= s
    ensures forall j :: |r| <= j < |s| ==> s[j] in seps
    ensures |r| > 0 ==> r[|r| - 1] !in seps
  {
    if |s| > 0 && s[|s| - 1] in seps then RStripSeps(s[..|s| - 1], seps) else s
  }

  /** The text before the cursor without its trailing separators. */
  function Head(k: Keylet, seps: string): (r: string)
    ensures r <= Take(k.keycmd, k.cursor)
  {
    var c: int := k.cursor;
    RStripSeps(Take(k.keycmd, c), seps)
  }

  /** `strip_word(seps)` as written: `None` on an empty command. The
      conditional binds looser than `+`, so when a separator is found the
      text after the cursor is dropped, and when none is found `head[-1:]`
      returns only the last character; the cursor becomes `len(head)`. The
      adjustment for a head ending in a separator can never apply after
      `rstrip`. */
  function StripWord(k: Keylet, seps: string): (r: Option<Stripped>)
    ensures r.None? <==> k.keycmd == ""
    ensures r.Some? ==> r.value.k.cursor == |Head(k, seps)|
  {
    if k.keycmd == "" then None
    else
      var c: int := k.cursor;
      var head := Head(k, seps);
      var tail := Drop(k.keycmd, c);
      var rf := WordStartLoop(head, seps, -1);
      var rfind := if rf == |head| && |head| > 0 && head[|head| - 1] in seps then rf - 1 else rf;
      var keycmd := if rfind + 1 != 0 then Slice(head, 0, rfind) else "" + tail;
      Some(Stripped(k.(keycmd := keycmd, cursor := |head|), Drop(head, rfind)))
  }

  /** What `strip_word` as written does, by case. */
  lemma StripWordCases(k: Keylet, seps: string)
    requires k.keycmd != ""
    ensures var head := Head(k, seps);
      var w := WordStartLoop(head, seps, -1);
      var r := StripWord(k, seps).value;
      IsWordStart(head, seps, w)
      && (w == -1 ==> r.k.keycmd == Drop(k.keycmd, k.cursor) && r.word == Drop(head, -1))
      && (w != -1 ==> r.k.keycmd == head[..w] && r.word == head[w..])
  {
    var head := Head(k, seps);
    WordStartLoopIsLast(head, seps, "", -1);
    assert "" + seps == seps;
    StripWordShape(k, seps, head, WordStartLoop(head, seps, -1));
  }

  /** The step of `StripWordCases` once the word start is known. */
  lemma StripWordShape(k: Keylet, seps: string, head: string, w: int)
    requires k.keycmd != "" && head == Head(k, seps) && w == WordStartLoop(head, seps, -1)
    requires IsWordStart(head, seps, w)
    ensures var r := StripWord(k, seps).value;
      && (w == -1 ==> r.k.keycmd == Drop(k.keycmd, k.cursor) && r.word == Drop(head, -1))
      && (w != -1 ==> r.k.keycmd == head[..w] && r.word == head[w..])
  {
  }

  /** `strip_word` as intended, a readline ^W: the word before the cursor
      and the separators after it go, the text after the cursor stays,
      and the cursor moves to where the word began. */
  function StripWordIntended(k: Keylet, seps: string): (r: Option<Stripped>)
    ensures r.None? <==> k.keycmd == ""
  {
    if k.keycmd == "" then None
    else
      var c: int := k.cursor;
      var head := Head(k, seps);
      var tail := Drop(k.keycmd, c);
      var rf := WordStartLoop(head, seps, -1);
      var w := if rf < 0 then 0 else rf;
      Some(Stripped(k.(keycmd := head[..w] + tail, cursor := w), head[w..]))
  }

  /** The intended ^W removes exactly the last word before the cursor
      and the separators between it and the cursor. */
  lemma StripWordIntendedRemovesWord(k: Keylet, seps: string)
    requires Valid(k) && k.keycmd != ""
    ensures var r := StripWordIntended(k, seps).value;
      var w := r.k.cursor;
      var head := Head(k, seps);
      Valid(r.k)
      && r.k.keycmd == k.keycmd[..w] + k.keycmd[k.cursor..]
      && k.keycmd[w..k.cursor] == r.word + k.keycmd[|head|..k.cursor]
      && (forall j :: 0 <= j < |r.word| ==> r.word[j] !in seps)
      && (forall j :: |head| <= j < k.cursor ==> k.keycmd[j] in seps)
      && (w == 0 || k.keycmd[w - 1] in seps)
  {
    var head := Head(k, seps);
    var w0 := WordStartLoop(head, seps, -1);
    var w := if w0 < 0 then 0 else w0;
    WordStartFacts(head, seps, w);
    HeadFacts(k, seps);
    CutAround(k.keycmd, k.cursor, head, w);
    IntendedValue(k, seps, head, w);
    RemovesWordAt(k, seps, head, w, StripWordIntended(k, seps).value);
  }

  /** Where the intended ^W starts the word: after the last separator of
      the head, or at 0. */
  lemma WordStartFacts(head: string, seps: string, w: int)
    requires w == (if WordStartLoop(head, seps, -1) < 0 then 0 else WordStartLoop(head, seps, -1))
    ensures 0 <= w <= |head|
    ensures forall j :: w <= j < |head| ==> head[j] !in seps
    ensures w == 0 || head[w - 1] in seps
  {
    WordStartLoopIsLast(head, seps, "", -1);
    assert "" + seps == seps;
  }

  /** The intended result, with the head and the word start named. */
  lemma IntendedValue(k: Keylet, seps: string, head: string, w: int)
    requires k.keycmd != "" && head == Head(k, seps)
    requires w == (if WordStartLoop(head, seps, -1) < 0 then 0 else WordStartLoop(head, seps, -1))
    ensures StripWordIntended(k, seps).value
            == Stripped(k.(keycmd := head[..w] + Drop(k.keycmd, k.cursor), cursor := w), head[w..])
  {
  }

  /** The removal facts, from the result's shape and the head's. */
  lemma RemovesWordAt(k: Keylet, seps: string, head: string, w: nat, r: Stripped)
    requires Valid(k) && w <= |head| <= k.cursor
    requires r == Stripped(k.(keycmd := head[..w] + Drop(k.keycmd, k.cursor), cursor := w), head[w..])
    requires Drop(k.keycmd, k.cursor) == k.keycmd[k.cursor..]
    requires head[..w] == k.keycmd[..w]
    requires k.keycmd[w..k.cursor] == head[w..] + k.keycmd[|head|..k.cursor]
    requires forall j :: w <= j < |head| ==> head[j] !in seps
    requires w == 0 || head[w - 1] in seps
    ensures Valid(r.k)
    ensures r.k.keycmd == k.keycmd[..w] + k.keycmd[k.cursor..]
    ensures k.keycmd[w..k.cursor] == r.word + k.keycmd[|head|..k.cursor]
    ensures forall j :: 0 <= j < |r.word| ==> r.word[j] !in seps
    ensures w == 0 || k.keycmd[w - 1] in seps
  {
    if w > 0 {
      assert head[w - 1] == head[..w][w - 1];
    }
  }

  /** The head is a prefix of the text before the cursor, and only
      separators lie between its end and the cursor. */
  lemma HeadFacts(k: Keylet, seps: string)
    requires Valid(k)
    ensures var head := Head(k, seps);
      && head <= k.keycmd[..k.cursor] && |head| <= k.cursor
      && (forall j :: |head| <= j < k.cursor ==> k.keycmd[j] in seps)
      && Drop(k.keycmd, k.cursor) == k.keycmd[k.cursor..]
  {
    var before := k.keycmd[..k.cursor];
    assert Take(k.keycmd, k.cursor) == before;
    var head := Head(k, seps);
    forall j | |head| <= j < k.cursor ensures k.keycmd[j] in seps {
      assert before[j] == k.keycmd[j];
    }
  }

  /** Cutting `s[w..c]` out of `s` when `head` is a prefix of `s[..c]`
      and `w` lies inside it. */
  lemma CutAround(s: string, c: nat, head: string, w: nat)
    requires c <= |s| && head <= s[..c] && w <= |head|
    ensures head[..w] == s[..w]
    ensures s[w..c] == head[w..] + s[|head|..c]
  {
    assert head == s[..c][..|head|];
  }

  /** The last `c` of `a + [c] + b`, for `b` without `c`, is the one
      between them. */
  lemma {:induction false} RFindLast(a: string, c: char, b: string)
    requires c !in b
    ensures RFind(a + [c] + b, c) == |a|
    decreases |b|
  {
    var s := a + [c] + b;
    if |b| > 0 {
      assert s[..|s| - 1] == a + [c] + b[..|b| - 1];
      RFindLast(a, c, b[..|b| - 1]);
    } else {
      assert s == a + [c];
    }
  }

  /** `strip_word` as written with the cursor after "a b " and text `t`
      behind it: the command becomes "a " and `t` is lost, while ^W gives
      "a t". */
  lemma StripWordDropsTailWith(a: string, b: string, t: string)
    requires |b| > 0 && ' ' !in b
    ensures var k := Keylet("", false, a + " " + b + " " + t, |a| + |b| + 2);
      StripWord(k, " ") == Some(Stripped(k.(keycmd := a + " ", cursor := |a| + 1 + |b|), b))
      && StripWordIntended(k, " ") == Some(Stripped(k.(keycmd := a + " " + t, cursor := |a| + 1), b))
  {
    var k := Keylet("", false, a + " " + b + " " + t, |a| + |b| + 2);
    var head := a + " " + b;
    SpacedHead(a, b, t, k, head);
    assert k.keycmd != "" by { assert |k.keycmd| > 0; }
    StripWordAt(k, " ", head, t, |a| + 1);
    SplitConcat(a + " ", b);
  }

  /** Both readings of `strip_word` once the head, the tail and a word
      start inside the head are known. */
  lemma StripWordAt(k: Keylet, seps: string, head: string, tail: string, w: int)
    requires k.keycmd != "" && Head(k, seps) == head && Drop(k.keycmd, k.cursor) == tail
    requires WordStartLoop(head, seps, -1) == w && 0 <= w < |head|
    ensures StripWord(k, seps) == Some(Stripped(k.(keycmd := Slice(head, 0, w), cursor := |head|), Drop(head, w)))
    ensures StripWordIntended(k, seps) == Some(Stripped(k.(keycmd := head[..w] + tail, cursor := w), head[w..]))
  {
  }

  /** The head, the tail and the word start of that keylet. */
  lemma SpacedHead(a: string, b: string, t: string, k: Keylet, head: string)
    requires |b| > 0 && ' ' !in b
    requires k == Keylet("", false, a + " " + b + " " + t, |a| + |b| + 2) && head == a + " " + b
    ensures Head(k, " ") == head && Drop(k.keycmd, k.cursor) == t
    ensures WordStartLoop(head, " ", -1) == |a| + 1
  {
    var c: int := k.cursor;
    assert Take(k.keycmd, c) == head + " ";
    assert Drop(k.keycmd, c) == t;
    assert (head + " ")[..|head|] == head;
    assert head[|head| - 1] == b[|b| - 1];
    assert RStripSeps(head + " ", " ") == head;
    RFindLast(a, ' ', b);
    assert " "[1..] == "";
  }

  /** `strip_word` as written loses the text after the cursor and leaves
      the cursor past the end: "spam and egg" with the cursor before
      "egg" becomes "spam " with the cursor at 8, where ^W would leave
      "spam egg" with the cursor at 5. */
  lemma StripWordDropsTail()
    ensures var k := Keylet("", false, "spam and egg", 9);
      StripWord(k, " ") == Some(Stripped(Keylet("", false, "spam ", 8), "and"))
      && StripWordIntended(k, " ") == Some(Stripped(Keylet("", false, "spam egg", 5), "and"))
  {
    StripWordDropsTailWith("spam", "and", "egg");
    assert "spam" + " " + "and" + " " + "egg" == "spam and egg";
    assert "spam" + " " == "spam " && "spam" + " " + "egg" == "spam egg";
  }

  /** With the cursor at the end of the command and a separator before
      the last word, the two agree on the command and the word. */
  lemma StripWordAtEnd(k: Keylet, seps: string)
    requires k.keycmd != "" && k.cursor == |k.keycmd|
    requires WordStartLoop(Head(k, seps), seps, -1) != -1
    ensures StripWord(k, seps).value.k.keycmd == StripWordIntended(k, seps).value.k.keycmd
    ensures StripWord(k, seps).value.word == StripWordIntended(k, seps).value.word
  {
    StripWordCases(k, seps);
    assert Drop(k.keycmd, k.cursor) == "";
    var head := Head(k, seps);
    var w := WordStartLoop(head, seps, -1);
    assert head[..w] + "" == head[..w];
  }

  // ---------------------------------------------------------------------
  // markup
  // ---------------------------------------------------------------------

  /** The characters the `escape` of keycmd.py prefixes. */
  predicate MarkupSpecial(c: char)
  {
    c == '\\' || c == '@'
  }

  /** `escape` of keycmd.py: backslashes, then '@', get a backslash. */
  function MarkupEscape(s: string): (r: string)
    ensures r == Escaped(s, MarkupSpecial)
  {
    var a := ReplaceAll(s, "\\", "\\\\");
    ReplaceCharIsSubst(s, '\\', "\\\\");
    ReplaceCharIsSubst(a, '@', "\\@");
    TwoSubstitutions(s);
    ReplaceAll(a, "@", "\\@")
  }

  /** The two replacements are the single pass. */
  lemma {:induction false} TwoSubstitutions(s: string)
    ensures SubstChar(SubstChar(s, '\\', "\\\\"), '@', "\\@") == Escaped(s, MarkupSpecial)
    decreases |s|
  {
    if |s| > 0 {
      TwoSubstitutions(s[1..]);
      var head := if s[0] == '\\' then "\\\\" else [s[0]];
      SubstAppend(head, SubstChar(s[1..], '\\', "\\\\"), '@', "\\@");
      assert SubstChar(s, '\\', "\\\\") == head + SubstChar(s[1..], '\\', "\\\\");
      if s[0] == '\\' {
        assert SubstChar(head, '@', "\\@") == "\\\\" by {
          assert head[1..] == "\\";
          assert head[1..][1..] == "";
        }
      } else if s[0] == '@' {
        assert SubstChar(head, '@', "\\@") == "\\@" by {
          assert head[1..] == "";
        }
      } else {
        assert SubstChar(head, '@', "\\@") == head by {
          assert head[1..] == "";
        }
      }
    }
  }

  /** `uzbl_escape(str)`: the escaped text inside `@[`…`]@`, or nothing
      for an empty string. */
  function UzblEscape(s: string): (r: string)
    ensures s == "" <==> r == ""
    ensures s != "" ==> r == "@[" + Escaped(s, MarkupSpecial) + "]@"
  {
    if s == "" then "" else "@[" + MarkupEscape(s) + "]@"
  }

  /** `markup()`: the text before the cursor, the character under it (a
      space at the end) inside the cursor span, and the text after it. */
  function Markup(k: Keylet): (r: string)
    ensures Valid(k) ==> (r == UzblEscape(k.keycmd[..k.cursor]) + "<span @cursor_style>"
      + UzblEscape(if k.cursor < |k.keycmd| then [k.keycmd[k.cursor]] else " ") + "</span>"
      + UzblEscape(if k.cursor < |k.keycmd| then k.keycmd[k.cursor + 1..] else ""))
  {
    var c: int := k.cursor;
    assert Valid(k) ==> Take(k.keycmd, c) == k.keycmd[..k.cursor];
    assert Valid(k) ==> Drop(k.keycmd, c + 1) == if k.cursor < |k.keycmd| then k.keycmd[k.cursor + 1..] else "";
    var cur := if k.cursor < |k.keycmd| then [k.keycmd[k.cursor]] else " ";
    UzblEscape(Take(k.keycmd, c)) + "<span @cursor_style>" + UzblEscape(cur) + "</span>"
      + UzblEscape(Drop(k.keycmd, c + 1))
  }

}
