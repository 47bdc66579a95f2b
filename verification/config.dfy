/** The config plugin of the event manager: `set` turns an assignment into
    a `set <key> = <value>` command for the browser, and the browser's
    `VARIABLE_SET <key> <type> <value>` events are what update the
    plugin's dictionary. Python's `float()` is the parameter `toFloat`. */
module Config {
  import opened Wrappers
  import opened Text
  import opened Numerals
  import Arguments

  /** `[A-Za-z0-9_.]`. */
  predicate IsKeyChar(c: char)
  {
    IsAsciiAlnum(c) || c == '_' || c == '.'
  }

  predicate AllKeyChars(s: string)
  {
    forall k :: 0 <= k < |s| ==> IsKeyChar(s[k])
  }

  /** `valid_key` as written: `re.match('^[A-Za-z0-9_\.]+$')`, where `$`
      also matches before a final newline. */
  predicate ValidKeyAsWritten(key: string)
  {
    (|key| > 0 && AllKeyChars(key))
    || (|key| > 1 && key[|key| - 1] == '\n' && AllKeyChars(key[..|key| - 1]))
  }

  /** The key check as intended: one or more key characters and nothing
      else. */
  predicate ValidKey(key: string)
  {
    |key| > 0 && AllKeyChars(key)
  }

  /** A value of the dictionary, by the `types` table: `int`, `float` and
      `unicode`. */
  datatype Value = IntV(i: int) | FloatV(x: real) | StrV(s: string)

  /** Python's `==` on those values: numbers compare by value across `int`
      and `float`; a string equals only the same string. */
  predicate PyEq(a: Value, b: Value)
  {
    match (a, b)
    case (StrV(s), StrV(t)) => s == t
    case (StrV(_), _) => false
    case (_, StrV(_)) => false
    case _ => Num(a) == Num(b)
  }

  function Num(v: Value): real
    requires !v.StrV?
  {
    if v.IntV? then v.i as real else v.x
  }

  /** What `set` is given: a `bool`, or any other value as the text
      `unicode(value)` makes of it. */
  datatype Input = BoolIn(b: bool) | TextIn(t: string)

  /** The value `set` compares with the stored one: `int(value)` for a
      bool, else the text. */
  function Converted(v: Input): Value
  {
    match v
    case BoolIn(b) => IntV(if b then 1 else 0)
    case TextIn(t) => StrV(t)
  }

  /** The text `%s` prints for the converted value. */
  function Shown(v: Input): string
  {
    match v
    case BoolIn(b) => if b then "1" else "0"
    case TextIn(t) => t
  }

  /** What `set` does: an assertion fails, nothing is sent because the
      value is already there, or a command is sent. */
  datatype SetResult = Rejected | Unchanged | Send(command: string)

  /** The body of `set` once the key check has been made. */
  function SetChecked(data: map<string, Value>, key: string, value: Input, force: bool, keyOk: bool): (r: SetResult)
    ensures r.Rejected? <==> !keyOk || (value.TextIn? && '\n' in value.t)
    ensures r.Unchanged? <==> !r.Rejected? && !force && key in data && PyEq(data[key], Converted(value))
    ensures r.Send? ==> r.command == "set " + key + " = " + Shown(value)
  {
    if !keyOk then Rejected
    else if value.TextIn? && '\n' in value.t then Rejected
    else if !force && key in data && PyEq(data[key], Converted(value)) then Unchanged
    else Send("set " + key + " = " + Shown(value))
  }

  /** `Config.set(key, value, force)` as written. */
  function SetAsWritten(data: map<string, Value>, key: string, value: Input, force: bool): (r: SetResult)
    ensures r.Rejected? <==> !ValidKeyAsWritten(key) || (value.TextIn? && '\n' in value.t)
    ensures r.Unchanged? <==> !r.Rejected? && !force && key in data && PyEq(data[key], Converted(value))
    ensures r.Send? ==> r.command == "set " + key + " = " + Shown(value)
  {
    SetChecked(data, key, value, force, ValidKeyAsWritten(key))
  }

  /** `Config.set(key, value, force)` with the intended key check. The
      dictionary is not changed: that waits for the browser's event. */
  function Set(data: map<string, Value>, key: string, value: Input, force: bool): (r: SetResult)
    ensures r.Rejected? <==> !ValidKey(key) || (value.TextIn? && '\n' in value.t)
    ensures r.Unchanged? <==> !r.Rejected? && !force && key in data && PyEq(data[key], Converted(value))
    ensures r.Send? ==> r.command == "set " + key + " = " + Shown(value)
    ensures r.Send? ==> '\n' !in r.command
  {
    var r := SetChecked(data, key, value, force, ValidKey(key));
    assert r.Send? ==> '\n' !in r.command by {
      if r.Send? {
        OneLine(key, Shown(value));
      }
    }
    r
  }

  /** A key made of key characters and a value without a newline give a
      one-line command. */
  lemma OneLine(key: string, shown: string)
    requires AllKeyChars(key) && '\n' !in shown
    ensures '\n' !in "set " + key + " = " + shown
  {
    var cmd := "set " + key + " = " + shown;
    forall k | 0 <= k < |cmd|
      ensures cmd[k] != '\n'
    {
      if 4 <= k < 4 + |key| {
        assert cmd[k] == key[k - 4];
      } else if k >= 7 + |key| {
        assert cmd[k] == shown[k - 7 - |key|];
      }
    }
  }

  /** As written, a key with a trailing newline passes the check and the
      command sent is two lines. */
  lemma SetAsWrittenSendsNewline(key: string, v: string)
    requires key == "foo\n" && v == "x"
    ensures SetAsWritten(map[], key, TextIn(v), false) == Send("set " + key + " = " + v)
    ensures '\n' in SetAsWritten(map[], key, TextIn(v), false).command
  {
    assert key[..|key| - 1] == "foo";
    assert AllKeyChars("foo") by {
      assert IsKeyChar('f') && IsKeyChar('o');
    }
    var cmd := "set " + key + " = " + v;
    assert cmd[7] == '\n';
  }

  /** The `set` tests: booleans go out as 1 and 0, text and numbers as
      their text. */
  lemma SetSendsShownValue(key: string)
    requires key == "foo"
    ensures Set(map[], key, BoolIn(true), false) == Send("set foo = 1")
    ensures Set(map[], key, BoolIn(false), false) == Send("set foo = 0")
    ensures Set(map[], key, TextIn("test"), false) == Send("set foo = test")
    ensures Set(map[], key, TextIn("5"), false) == Send("set foo = 5")
  {
    assert IsKeyChar('f') && IsKeyChar('o');
  }

  /** The invalid `set` tests: the keys "foo\nbar" and "bad'key", given
      with the default empty value, fail the key assertion, with the
      regex as written and as intended. "foo\nbar" is refused as written
      because its newline is not the final character. */
  lemma SetRefusesInvalidKeys(k1: string, k2: string)
    requires |k1| == 7 && k1[..3] == "foo" && k1[3] == '\n' && k1[4..] == "bar"
    requires |k2| == 7 && k2[..3] == "bad" && k2[3] == '\'' && k2[4..] == "key"
    ensures Set(map[], k1, TextIn(""), false) == Rejected
    ensures SetAsWritten(map[], k1, TextIn(""), false) == Rejected
    ensures Set(map[], k2, TextIn(""), false) == Rejected
    ensures SetAsWritten(map[], k2, TextIn(""), false) == Rejected
  {
    assert !IsKeyChar(k1[3]) && !IsKeyChar(k2[3]);
    assert k1[|k1| - 1] != '\n';
    assert k2[..|k2| - 1][3] == k2[3];
  }

  /** A value whose text holds a newline fails the value assertion, with
      either key check: "foo\nbar" as the value of the key foo. */
  lemma SetRefusesNewlineValue(key: string, v: string)
    requires key == "foo" && |v| == 7 && v[3] == '\n'
    ensures Set(map[], key, TextIn(v), false) == Rejected
    ensures SetAsWritten(map[], key, TextIn(v), false) == Rejected
  {
    assert v[3] in v;
  }

  /** Why an event was refused: the argument count (`Exception`), the key
      or the type (`AssertionError`), or the value (`ValueError`). */
  datatype Error = ArgCount | BadKey | BadType | BadValue

  /** The dictionary after an event, the `CONFIG_CHANGED` (key, value) it
      raised, and the error it raised instead. */
  datatype Outcome = Outcome(data: map<string, Value>, changed: Option<(string, Value)>, error: Option<Error>)

  predicate IsType(t: string)
  {
    t == "int" || t == "float" || t == "str"
  }

  /** `types[type](raw_value)`; `None` for the ValueError. */
  function Convert(t: string, raw: string, toFloat: string -> Option<real>): Option<Value>
    requires IsType(t)
  {
    if t == "str" then Some(StrV(raw))
    else if t == "int" then
      var n := PyInt(raw, IsPySpace);
      if n.None? then None else Some(IntV(n.value))
    else
      var x := toFloat(raw);
      if x.None? then None else Some(FloatV(x.value))
  }

  /** The body of `parse_set_event` on the split arguments, with the key
      check `valid`. */
  function ParseSetChecked(data: map<string, Value>, args: seq<string>, toFloat: string -> Option<real>,
                           valid: string -> bool): (r: Outcome)
    ensures r.error.Some? ==> r.data == data && r.changed.None?
    ensures r.error == Some(ArgCount) <==> |args| != 2 && |args| != 3
    ensures |args| == 2 || |args| == 3 ==>
      (r.error == Some(BadKey) <==> !valid(args[0]))
      && (r.error == Some(BadType) <==> valid(args[0]) && !IsType(args[1]))
    ensures r.error.None? ==>
      var key := args[0];
      var raw := if |args| == 3 then args[2] else "";
      && (|args| == 2 || |args| == 3) && valid(key) && IsType(args[1])
      && Convert(args[1], raw, toFloat).Some?
      && var v := Convert(args[1], raw, toFloat).value;
         && (r.changed.Some? <==> !(key in data && PyEq(data[key], v)))
         && (r.changed.Some? ==> r.changed.value == (key, v))
         && (key in r.data <==> !(args[1] == "str" && raw == ""))
         && (key in r.data ==> r.data[key] == v)
         && (forall k :: k != key ==> (k in r.data <==> k in data) && (k in data ==> r.data[k] == data[k]))
  {
    if |args| != 2 && |args| != 3 then Outcome(data, None, Some(ArgCount))
    else
      var key := args[0];
      var t := args[1];
      var raw := if |args| == 3 then args[2] else "";
      if !valid(key) then Outcome(data, None, Some(BadKey))
      else if !IsType(t) then Outcome(data, None, Some(BadType))
      else
        var nv := Convert(t, raw, toFloat);
        if nv.None? then Outcome(data, None, Some(BadValue))
        else
          var v := nv.value;
          var changed := if key in data && PyEq(data[key], v) then None else Some((key, v));
          var updated := data[key := v];
          if t == "str" && v.s == "" then Outcome(updated - {key}, changed, None)
          else Outcome(updated, changed, None)
  }

  /** `parse_set_event` on the split arguments as written, with the key
      check that lets a final newline through. */
  function ParseSetArgsAsWritten(data: map<string, Value>, args: seq<string>, toFloat: string -> Option<real>): (r: Outcome)
    ensures r.error == Some(ArgCount) <==> |args| != 2 && |args| != 3
    ensures |args| == 2 || |args| == 3 ==> (r.error == Some(BadKey) <==> !ValidKeyAsWritten(args[0]))
    ensures r.error.None? ==> ValidKeyAsWritten(args[0]) && IsType(args[1])
  {
    ParseSetChecked(data, args, toFloat, ValidKeyAsWritten)
  }

  /** `parse_set_event` on the split arguments with the intended key
      check. */
  function ParseSetArgs(data: map<string, Value>, args: seq<string>, toFloat: string -> Option<real>): (r: Outcome)
    ensures r.error.Some? ==> r.data == data && r.changed.None?
    ensures r.error == Some(ArgCount) <==> |args| != 2 && |args| != 3
    ensures |args| == 2 || |args| == 3 ==>
      (r.error == Some(BadKey) <==> !ValidKey(args[0]))
      && (r.error == Some(BadType) <==> ValidKey(args[0]) && !IsType(args[1]))
    ensures r.error.None? ==>
      var key := args[0];
      var raw := if |args| == 3 then args[2] else "";
      && (|args| == 2 || |args| == 3) && ValidKey(key) && IsType(args[1])
      && Convert(args[1], raw, toFloat).Some?
      && var v := Convert(args[1], raw, toFloat).value;
         && (r.changed.Some? <==> !(key in data && PyEq(data[key], v)))
         && (r.changed.Some? ==> r.changed.value == (key, v))
         && (key in r.data <==> !(args[1] == "str" && raw == ""))
         && (key in r.data ==> r.data[key] == v)
         && (forall k :: k != key ==> (k in r.data <==> k in data) && (k in data ==> r.data[k] == data[k]))
  {
    ParseSetChecked(data, args, toFloat, ValidKey)
  }

  /** As written, an event for a key with a final newline is accepted: the
      key is stored with its newline and `CONFIG_CHANGED` is raised; the
      intended check refuses it. */
  lemma ParseAsWrittenStoresNewlineKey(key: string, v: string, toFloat: string -> Option<real>)
    requires key == "foo\n" && v == "x"
    ensures var r := ParseSetArgsAsWritten(map[], [key, "str", v], toFloat);
            r.error.None? && r.data == map[key := StrV(v)] && r.changed == Some((key, StrV(v)))
    ensures ParseSetArgs(map[], [key, "str", v], toFloat).error == Some(BadKey)
  {
    assert key[..|key| - 1] == "foo";
    assert AllKeyChars("foo") by {
      assert IsKeyChar('f') && IsKeyChar('o');
    }
    assert key[3] == '\n' && !IsKeyChar(key[3]);
  }

  /** The two key checks differ only on a final newline, so for every
      other event the parses agree. */
  lemma ParseAgreesWithoutNewline(data: map<string, Value>, args: seq<string>, toFloat: string -> Option<real>)
    requires |args| == 2 || |args| == 3 ==> |args[0]| == 0 || args[0][|args[0]| - 1] != '\n'
    ensures ParseSetArgsAsWritten(data, args, toFloat) == ParseSetArgs(data, args, toFloat)
  {
  }

  /** `parse_set_event(args)`: the event line is split as event arguments
      are. */
  function ParseSetEvent(data: map<string, Value>, line: string, toFloat: string -> Option<real>): Outcome
  {
    ParseSetArgs(data, Arguments.New(Arguments.Line(line)).args, toFloat)
  }

  /** `parse_set_event(args)` as written. */
  function ParseSetEventAsWritten(data: map<string, Value>, line: string, toFloat: string -> Option<real>): Outcome
  {
    ParseSetArgsAsWritten(data, Arguments.New(Arguments.Line(line)).args, toFloat)
  }

  /** `PyEq` is reflexive. */
  lemma PyEqReflexive(v: Value)
    ensures PyEq(v, v)
  {
  }

  /** The same event applied twice leaves the dictionary as the first
      did, and the second raises no `CONFIG_CHANGED` unless the first
      removed an empty string. */
  lemma ParseIdempotent(data: map<string, Value>, args: seq<string>, toFloat: string -> Option<real>)
    ensures var once := ParseSetArgs(data, args, toFloat);
            var twice := ParseSetArgs(once.data, args, toFloat);
            && twice.data == once.data
            && (once.error.None? && !(args[1] == "str" && (|args| == 2 || args[2] == "")) ==> twice.changed.None?)
  {
    var once := ParseSetArgs(data, args, toFloat);
    if once.error.None? {
      var v := Convert(args[1], if |args| == 3 then args[2] else "", toFloat).value;
      PyEqReflexive(v);
    }
  }

  /** Once the browser has reported a non-empty string value, setting
      the same text again sends nothing. */
  lemma EventThenSetIsQuiet(data: map<string, Value>, key: string, v: string, toFloat: string -> Option<real>)
    requires ValidKey(key) && v != "" && '\n' !in v
    ensures var after := ParseSetArgs(data, [key, "str", v], toFloat);
            after.error.None? && Set(after.data, key, TextIn(v), false) == Unchanged
  {
  }

  /** A boolean is compared with the stored number, so setting a flag to
      the value the browser reported sends nothing; a number given as text
      is compared with the stored `int` and is sent again. */
  lemma NumbersAreSentAgain(data: map<string, Value>, key: string, n: int, d: string, toFloat: string -> Option<real>)
    requires ValidKey(key) && d == IntToDecimal(n)
    ensures var after := ParseSetArgs(data, [key, "int", d], toFloat);
            && after.error.None? && after.data[key] == IntV(n)
            && (n == 0 || n == 1 ==> Set(after.data, key, BoolIn(n == 1), false) == Unchanged)
            && Set(after.data, key, TextIn(d), false).Send?
  {
    IntText(n, d);
    assert Convert("int", d, toFloat) == Some(IntV(n));
    ParsedInt(data, key, d, n, toFloat);
    SetAfterInt(ParseSetArgs(data, [key, "int", d], toFloat).data, key, n, d);
  }

  /** With the number `n` stored, a boolean of that value is not sent and
      the text of it is. */
  lemma SetAfterInt(m: map<string, Value>, key: string, n: int, d: string)
    requires ValidKey(key) && key in m && m[key] == IntV(n) && '\n' !in d
    ensures n == 0 || n == 1 ==> Set(m, key, BoolIn(n == 1), false) == Unchanged
    ensures Set(m, key, TextIn(d), false).Send?
  {
  }

  /** The text `%d` prints is one line and reads back as the number. */
  lemma IntText(n: int, d: string)
    requires d == IntToDecimal(n)
    ensures '\n' !in d && PyInt(d, IsPySpace) == Some(n)
  {
    PyIntRoundTrip(n, IsPySpace);
    PrintedOneLine(n);
  }

  lemma PrintedOneLine(n: int)
    ensures '\n' !in IntToDecimal(n)
  {
    PrintedChars(n);
  }

  /** An `int` event whose value converts stores that number. */
  lemma ParsedInt(data: map<string, Value>, key: string, d: string, n: int, toFloat: string -> Option<real>)
    requires ValidKey(key) && Convert("int", d, toFloat) == Some(IntV(n))
    ensures var after := ParseSetArgs(data, [key, "int", d], toFloat);
            after.error.None? && key in after.data && after.data[key] == IntV(n)
  {
  }

  /** The parse tests: a string value is stored and reported. */
  lemma ParseStoresString(key: string, v: string, toFloat: string -> Option<real>)
    requires key == "foo" && v == "value"
    ensures var r := ParseSetArgs(map[], [key, "str", v], toFloat);
            r.error.None? && r.data == map[key := StrV(v)] && r.changed == Some((key, StrV(v)))
  {
    assert IsKeyChar('f') && IsKeyChar('o');
  }

  /** The null tests: an empty string value is removed, and the change is
      still reported. */
  lemma ParseRemovesEmptyString(key: string, toFloat: string -> Option<real>)
    requires key == "foo"
    ensures var r := ParseSetArgs(map[], [key, "str"], toFloat);
            r.error.None? && key !in r.data && r.changed == Some((key, StrV("")))
    ensures var r := ParseSetArgs(map[], [key, "str", ""], toFloat);
            r.error.None? && key !in r.data && r.changed == Some((key, StrV("")))
  {
    assert IsKeyChar('f') && IsKeyChar('o');
  }

  /** The invalid-event tests: each raises and leaves the dictionary
      empty. */
  lemma ParseRefusesInvalid(key: string, toFloat: string -> Option<real>)
    requires key == "foo"
    ensures ParseSetArgs(map[], [key, "bar"], toFloat) == Outcome(map[], None, Some(BadType))
    ensures ParseSetArgs(map[], [key, "bad^key"], toFloat) == Outcome(map[], None, Some(BadType))
    ensures ParseSetEvent(map[], "", toFloat) == Outcome(map[], None, Some(ArgCount))
    ensures ParseSetArgs(map[], [key, "int", "z"], toFloat) == Outcome(map[], None, Some(BadValue))
  {
    assert IsKeyChar('f') && IsKeyChar('o');
    Arguments.EmptyLine();
    assert !IsAsciiDigit('z');
  }
}
