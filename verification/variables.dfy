/** The variable store behind `set` and `toggle`: which names are
    acceptable, how a textual value is stored according to the variable's
    type, and how `toggle` steps through a list of values. Built-in
    variables are plain storage here; their GObject getters and setters are
    not modelled. Three revisions of the name check are given:
    src/variables.c, src/uzbl-core.c and uzbl-core.c. */
module Variables {
  import opened Wrappers
  import opened Text
  import opened Numerals

  /** The characters `uzbl_variables_is_valid` accepts. */
  predicate NameChar(c: char)
  {
    IsAsciiAlnum(c) || c == '_' || c == '.'
  }

  /** `uzbl_variables_is_valid`: non-empty, not starting with a digit, and
      `strspn` over the accepted characters reaches the end. */
  predicate IsValid(name: string)
  {
    |name| > 0 && !IsAsciiDigit(name[0]) && Span(name, NameChar) == |name|
  }

  /** The same check stated without `strspn`. */
  lemma IsValidMeans(name: string)
    ensures IsValid(name) <==>
      (|name| > 0 && !IsAsciiDigit(name[0]) && forall i :: 0 <= i < |name| ==> NameChar(name[i]))
  {
  }

  /** The bytes of the UTF-8 encodings of °, §, ¹, ², ³, ¼ and ½, which
      `strpbrk` treats one by one. */
  predicate HighByte(c: char)
  {
    c == '\U{C2}' || c == '\U{B0}' || c == '\U{A7}' || c == '\U{B9}'
    || c == '\U{B2}' || c == '\U{B3}' || c == '\U{BC}' || c == '\U{BD}'
  }

  /** The characters common to both forbidden lists. */
  predicate ForbiddenCommon(c: char)
  {
    c == '^' || c == '!' || c == '"' || c == '$' || c == '%' || c == '&' || c == '/'
    || c == '(' || c == ')' || c == '=' || c == '?' || c == '\'' || c == '`' || c == '+'
    || c == '~' || c == '*' || c == '#' || c == '-' || c == ':' || c == ',' || c == ';'
    || c == '@' || c == '<' || c == '>' || c == '|' || c == ' ' || c == '\\' || c == '{'
    || c == '}' || c == '[' || c == ']' || HighByte(c)
  }

  /** The `invalid_chars` of `valid_name` in src/uzbl-core.c: the common
      list and a tab. */
  predicate CoreForbidden(c: char)
  {
    ForbiddenCommon(c) || c == '\t'
  }

  /** The `invalid_chars` of `set_var_value` in uzbl-core.c: the common
      list and a dot. */
  predicate LegacyForbidden(c: char)
  {
    ForbiddenCommon(c) || c == '.'
  }

  /** `valid_name`: `strpbrk` finds no forbidden character. The empty name
      passes. */
  predicate ValidName(name: string)
  {
    FindAny(name, CoreForbidden).None?
  }

  /** A name `uzbl_variables_is_valid` accepts is accepted by the older
      checks too, by the oldest only when it has no dot. */
  lemma ValidNamesAgree(name: string)
    requires IsValid(name)
    ensures ValidName(name)
    ensures FindAny(name, LegacyForbidden).None? <==> '.' !in name
  {
    IsValidMeans(name);
    forall i | 0 <= i < |name|
      ensures !CoreForbidden(name[i]) && (LegacyForbidden(name[i]) <==> name[i] == '.')
    {
      NameCharAllowed(name[i]);
    }
  }

  /** A name character is forbidden by neither older list, except that the
      oldest forbids the dot. */
  lemma NameCharAllowed(c: char)
    requires NameChar(c)
    ensures !CoreForbidden(c) && (LegacyForbidden(c) <==> c == '.')
  {
  }

  /** The typed value of a variable. Floating-point variables are not
      modelled. */
  datatype Value = Str(s: string) | Int(i: int) | ULL(u: nat)

  datatype Variable = Variable(value: Value, writeable: bool)

  type Store = map<string, Variable>

  /** The returned flag and the store afterwards. */
  datatype Update = Update(ok: bool, store: Store)

  /** The value `val` converts to for a variable that holds `prev`: strings
      are stored as they are, ints through `(int)strtol(val, NULL, 10)`,
      unsigned long longs through `g_ascii_strtoull(val, NULL, 10)`. */
  function Convert(prev: Value, val: string): (r: Value)
    ensures r.Str? == prev.Str? && r.Int? == prev.Int? && r.ULL? == prev.ULL?
    ensures r.Int? ==> -0x8000_0000 <= r.i < 0x8000_0000
    ensures r.ULL? ==> r.u <= ULongMax
  {
    match prev
    case Str(_) => Str(val)
    case Int(_) => Int(ToInt32(StrToLong(val)))
    case ULL(_) => ULL(StrToULong(val))
  }

  /** `uzbl_variables_set(name, val)`: refused for a NULL value, a
      read-only variable or an unknown invalid name; an unknown valid name
      becomes a new writeable string variable. */
  function Set(store: Store, name: string, val: Option<string>): (r: Update)
    ensures r.ok <==> val.Some? && (if name in store then store[name].writeable else IsValid(name))
    ensures !r.ok ==> r.store == store
    ensures r.ok ==> r.store.Keys == store.Keys + {name}
    ensures r.ok ==> forall n :: n in store && n != name ==> r.store[n] == store[n]
    ensures r.ok && name !in store ==> r.store[name] == Variable(Str(val.value), true)
    ensures r.ok && name in store ==> r.store[name].writeable
  {
    if val.None? then Update(false, store)
    else if name in store then
      var v := store[name];
      if !v.writeable then Update(false, store)
      else Update(true, store[name := Variable(Convert(v.value, val.value), true)])
    else if !IsValid(name) then Update(false, store)
    else Update(true, store[name := Variable(Str(val.value), true)])
  }

  /** Setting a variable to the printed form of a value it can hold stores
      that value: the conversions read back what `%d`, `%llu` and `%s`
      print. */
  lemma SetReadsBackPrinted(store: Store, name: string, v: Value)
    requires name in store && store[name].writeable
    requires store[name].value.Str? == v.Str? && store[name].value.Int? == v.Int? && store[name].value.ULL? == v.ULL?
    requires v.Int? ==> -0x8000_0000 <= v.i < 0x8000_0000
    requires v.ULL? ==> v.u <= ULongMax
    ensures Set(store, name, Some(Print(v))).store[name].value == v
  {
    var prev := store[name].value;
    if v.Int? {
      StrToLongRoundTrip(v.i);
      assert Convert(prev, Print(v)) == Int(ToInt32(v.i));
    } else if v.ULL? {
      StrToULongRoundTrip(v.u);
      assert Convert(prev, Print(v)) == ULL(v.u);
    } else {
      assert Convert(prev, Print(v)) == v;
    }
  }

  /** A value as `%s`, `%d` or `%llu` prints it. */
  function Print(v: Value): string
  {
    match v
    case Str(s) => s
    case Int(i) => IntToDecimal(i)
    case ULL(u) => NatToDecimal(u)
  }

  /** The value after `current` in the list: the loop of the string case of
      `uzbl_variables_toggle` started at entry `k`. It stops at the first
      entry equal to `current` and takes the one after it; when it reaches
      the last entry it wraps to the first. */
  function NextFrom(values: seq<string>, k: nat, current: string): (r: string)
    requires k < |values|
    ensures r in values
    decreases |values| - k
  {
    if k + 1 >= |values| then values[0]
    else if current == values[k] then values[k + 1]
    else NextFrom(values, k + 1, current)
  }

  /** The loop from `i` stops at the first `j` holding `current` and takes
      the entry after it. */
  lemma {:induction false} NextFromFirst(values: seq<string>, i: nat, j: nat, current: string)
    requires i <= j < |values| - 1 && values[j] == current
    requires forall m :: i <= m < j ==> values[m] != current
    ensures NextFrom(values, i, current) == values[j + 1]
    decreases j - i
  {
    if i < j {
      NextFromFirst(values, i + 1, j, current);
    }
  }

  /** A loop from `i` that finds `current` nowhere before the last entry
      wraps to the first. */
  lemma {:induction false} NextFromAbsent(values: seq<string>, i: nat, current: string)
    requires i < |values|
    requires forall m :: i <= m < |values| - 1 ==> values[m] != current
    ensures NextFrom(values, i, current) == values[0]
    decreases |values| - i
  {
    if i + 1 < |values| {
      NextFromAbsent(values, i + 1, current);
    }
  }

  function NextInCycle(values: seq<string>, current: string): (r: string)
    requires |values| > 0
    ensures r in values
  {
    NextFrom(values, 0, current)
  }

  /** With distinct values the toggle list is a cycle: each entry is
      followed by the next, and the last by the first. */
  lemma ToggleCycles(values: seq<string>, k: nat)
    requires k < |values|
    requires forall a, b :: 0 <= a < b < |values| ==> values[a] != values[b]
    ensures NextInCycle(values, values[k]) == if k + 1 < |values| then values[k + 1] else values[0]
  {
    FirstOccurrence(values, k);
    NextAfterFirst(values, k);
  }

  /** The entry after the first occurrence of entry `k`. */
  lemma NextAfterFirst(values: seq<string>, k: nat)
    requires k < |values|
    requires forall m :: 0 <= m < k ==> values[m] != values[k]
    ensures NextInCycle(values, values[k]) == if k + 1 < |values| then values[k + 1] else values[0]
  {
    if k < |values| - 1 {
      NextFromFirst(values, 0, k, values[k]);
    } else {
      NextFromAbsent(values, 0, values[k]);
    }
  }

  /** With distinct values no entry before `k` equals entry `k`. */
  lemma FirstOccurrence(values: seq<string>, k: nat)
    requires k < |values|
    requires forall a, b :: 0 <= a < b < |values| ==> values[a] != values[b]
    ensures forall m :: 0 <= m < k ==> values[m] != values[k]
  {
  }

  /** A current value not in the list moves to the first entry. */
  lemma ToggleFromOutside(values: seq<string>, current: string)
    requires |values| > 0 && current !in values
    ensures NextInCycle(values, current) == values[0]
  {
    NextFromAbsent(values, 0, current);
  }

  /** The string toggle without a list: "0" and "1" swap and anything else
      becomes empty. */
  function Flip(current: string): (r: string)
    ensures r == "0" || r == "1" || r == ""
    ensures current == "0" <==> r == "1"
  {
    if current == "0" then "1" else if current == "1" then "0" else ""
  }

  /** Flipping twice gives back "0" and "1" and empties anything else. */
  lemma FlipTwice(current: string)
    ensures Flip(Flip(current)) == (if current == "0" || current == "1" then current else "")
  {
  }

  /** `uzbl_variables_toggle(name, values)`. An unknown variable is `set`
      to the first listed value, or "1". A string steps through the list,
      or flips without one; an int or unsigned long long without a list
      becomes its logical negation. The type's stored value is replaced
      whether or not the variable is writeable. The int and unsigned long
      long cases with a list are not modelled and give `None`. */
  function Toggle(store: Store, name: string, values: seq<string>): (r: Option<Update>)
    ensures name !in store ==> r == Some(Set(store, name, Some(if |values| > 0 then values[0] else "1")))
    ensures r.None? <==> name in store && !store[name].value.Str? && |values| > 0
    ensures r.Some? && name in store ==> r.value.ok && name in r.value.store && r.value.store == store[name := r.value.store[name]]
    ensures r.Some? && name in store ==> r.value.store[name].writeable == store[name].writeable
    ensures r.Some? && name in store && store[name].value.Str? && |values| > 0 ==>
      r.value.store[name].value == Str(NextInCycle(values, store[name].value.s))
    ensures r.Some? && name in store && store[name].value.Str? && |values| == 0 ==>
      r.value.store[name].value == Str(Flip(store[name].value.s))
    ensures r.Some? && name in store && store[name].value.Int? ==>
      r.value.store[name].value == Int(if store[name].value.i == 0 then 1 else 0)
    ensures r.Some? && name in store && store[name].value.ULL? ==>
      r.value.store[name].value == ULL(if store[name].value.u == 0 then 1 else 0)
  {
    if name !in store then Some(Set(store, name, Some(if |values| > 0 then values[0] else "1")))
    else
      var v := store[name];
      match v.value
      case Str(cur) =>
        var next := if |values| > 0 then NextInCycle(values, cur) else Flip(cur);
        Some(Update(true, store[name := Variable(Str(next), v.writeable)]))
      case Int(cur) =>
        if |values| > 0 then None
        else Some(Update(true, store[name := Variable(Int(if cur == 0 then 1 else 0), v.writeable)]))
      case ULL(cur) =>
        if |values| > 0 then None
        else Some(Update(true, store[name := Variable(ULL(if cur == 0 then 1 else 0), v.writeable)]))
  }

  /** Toggling an int twice normalises it to 0 or 1: zero stays zero and
      anything else becomes one. */
  lemma ToggleIntTwice(store: Store, name: string)
    requires name in store && store[name].value.Int?
    ensures var once := Toggle(store, name, []).value.store;
      Toggle(once, name, []).value.store[name].value == Int(if store[name].value.i == 0 then 0 else 1)
  {
  }

  /** The values of uzbl-core.c's store: floats are not modelled. */
  datatype LegacyValue = LegacyStr(s: string) | LegacyInt(i: int)

  datatype LegacyVariable = LegacyVariable(value: LegacyValue, writeable: bool)

  datatype LegacyUpdate = LegacyUpdate(ok: bool, store: map<string, LegacyVariable>)

  /** `set_var_value(name, val)` in uzbl-core.c: a read-only variable is
      refused; an int is stored as `(int)strtoul(val, &endp, 10)`; an
      unknown name is created as a string unless `strpbrk` finds a
      forbidden character in it. */
  function LegacySet(store: map<string, LegacyVariable>, name: string, val: string): (r: LegacyUpdate)
    ensures r.ok <==> (if name in store then store[name].writeable else FindAny(name, LegacyForbidden).None?)
    ensures !r.ok ==> r.store == store
    ensures r.ok ==> r.store.Keys == store.Keys + {name}
    ensures r.ok ==> forall n :: n in store && n != name ==> r.store[n] == store[n]
    ensures r.ok && (name !in store || store[name].value.LegacyStr?) ==> r.store[name] == LegacyVariable(LegacyStr(val), true)
    ensures r.ok && name in store && store[name].value.LegacyInt? ==>
      r.store[name].value.LegacyInt? && -0x8000_0000 <= r.store[name].value.i < 0x8000_0000
  {
    if name in store then
      var v := store[name];
      if !v.writeable then LegacyUpdate(false, store)
      else
        var nv := if v.value.LegacyStr? then LegacyStr(val) else LegacyInt(ToInt32(StrToULong(val)));
        LegacyUpdate(true, store[name := LegacyVariable(nv, true)])
    else if FindAny(name, LegacyForbidden).Some? then LegacyUpdate(false, store)
    else LegacyUpdate(true, store[name := LegacyVariable(LegacyStr(val), true)])
  }

  /** The unsigned conversion of the old store wraps a negative number:
      "-1" stores -1 only because `strtoul` gives 2^64 - 1 and the cast to
      `int` keeps the low 32 bits. */
  lemma LegacyNegativeWraps()
    ensures ToInt32(StrToULong("-1")) == -1
  {
    MinusOneScans();
    OneIsOne();
    assert StrToULong("-1") == ULongMax;
  }

  lemma MinusOneScans()
    ensures ScanNumeral("-1", IsCSpace) == Numeral(true, "1")
  {
    assert AllDigits("1") && !IsCSpace('-');
    ScanNegative("1", IsCSpace);
    assert ['-'] + "1" == "-1";
  }

  lemma OneIsOne()
    ensures DecimalValue("1") == 1
  {
    assert "1"[..0] == "";
  }
}
