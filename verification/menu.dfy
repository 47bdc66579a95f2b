/** The context-menu item list of src/menu.c: `menu_add*` append a named
    command item, `menu_separator*` append a separator, `menu_remove*`
    delete the items of one context with a given name. A list not yet
    created behaves as the empty list in all three. */
module Menu {
  import opened Text

  /** The hit-test context an item is shown for. */
  datatype Context = Document | Link | Image | Editable

  /** `UzblMenuItem`; a separator has no command (`cmd` is NULL). */
  datatype Item = Item(name: string, cmd: string, context: Context, issep: bool)

  /** `add_to_menu(argv, context)`: nothing without an argument; otherwise
      the argument split at its first '=' gives the name and the command,
      the command being "" without '='. `g_strsplit` of the empty string
      is the empty vector, so an empty argument adds nothing. */
  function AddToMenu(items: seq<Item>, argv: seq<string>, context: Context): (r: seq<Item>)
    ensures |argv| == 0 || argv[0] == "" ==> r == items
    ensures |argv| > 0 && argv[0] != "" ==>
      |r| == |items| + 1 && r[..|items|] == items
      && var m := r[|items|];
        m.context == context && !m.issep && '=' !in m.name
        && (if '=' in argv[0] then m.name + "=" + m.cmd == argv[0]
            else m.name == argv[0] && m.cmd == "")
  {
    if |argv| == 0 || argv[0] == "" then items
    else
      var split := SplitFirst(argv[0], '=');
      var cmd := if |split| == 2 then split[1] else "";
      var r := items + [Item(split[0], cmd, context, false)];
      assert r[..|items|] == items;
      r
  }

  /** `add_separator_to_menu(argv, context)`: nothing without an argument;
      otherwise a separator named by the argument. */
  function AddSeparator(items: seq<Item>, argv: seq<string>, context: Context): (r: seq<Item>)
    ensures |argv| == 0 ==> r == items
    ensures |argv| > 0 ==>
      |r| == |items| + 1 && r[..|items|] == items
      && r[|items|].name == argv[0] && r[|items|].issep
      && r[|items|].context == context
  {
    if |argv| == 0 then items
    else
      var r := items + [Item(argv[0], "", context, true)];
      assert r[..|items|] == items;
      r
  }

  /** Whether `remove_from_menu` deletes the item. */
  predicate Matches(m: Item, context: Context, name: string)
  {
    m.context == context && m.name == name
  }

  /** The loop of `remove_from_menu` as written, with `done` the items
      before the loop index and `todo` the items from it on. After a
      removal the index still advances, so the item that moved into the
      freed position joins `done` without being looked at. */
  function RemoveLoop(done: seq<Item>, todo: seq<Item>, context: Context, name: string): (r: seq<Item>)
    ensures |done| <= |r| <= |done| + |todo|
    ensures r[..|done|] == done
    decreases |todo|
  {
    if |todo| == 0 then done
    else if Matches(todo[0], context, name) then
      if |todo| == 1 then done
      else
        var r := RemoveLoop(done + [todo[1]], todo[2..], context, name);
        assert r[..|done|] == (done + [todo[1]])[..|done|];
        r
    else
      var r := RemoveLoop(done + [todo[0]], todo[1..], context, name);
      assert r[..|done|] == (done + [todo[0]])[..|done|];
      r
  }

  /** `remove_from_menu(argv, context)` as written. */
  function RemoveAsWritten(items: seq<Item>, argv: seq<string>, context: Context): (r: seq<Item>)
    ensures |argv| == 0 ==> r == items
    ensures |r| <= |items|
  {
    if |argv| == 0 then items else RemoveLoop([], items, context, argv[0])
  }

  /** The items that do not match, in order. */
  function Keep(items: seq<Item>, context: Context, name: string): (r: seq<Item>)
    ensures forall k :: 0 <= k < |r| ==> !Matches(r[k], context, name)
    ensures (forall k :: 0 <= k < |items| ==> !Matches(items[k], context, name)) ==> r == items
  {
    if |items| == 0 then []
    else
      var rest := Keep(items[1..], context, name);
      assert items == [items[0]] + items[1..];
      if Matches(items[0], context, name) then rest else [items[0]] + rest
  }

  /** `remove_from_menu` as intended: every item of the context with that
      name is deleted and every other item is kept, in order. */
  function RemoveFromMenu(items: seq<Item>, argv: seq<string>, context: Context): (r: seq<Item>)
    ensures |argv| == 0 ==> r == items
    ensures |argv| > 0 ==> forall k :: 0 <= k < |r| ==> !Matches(r[k], context, argv[0])
    ensures |argv| > 0 ==> forall m :: !Matches(m, context, argv[0]) ==> multiset(r)[m] == multiset(items)[m]
  {
    if |argv| == 0 then items
    else
      KeepCounts(items, context, argv[0]);
      Keep(items, context, argv[0])
  }

  /** Keeping deletes every copy of a matching item and no copy of any
      other item. */
  lemma {:induction false} KeepCounts(items: seq<Item>, context: Context, name: string)
    ensures forall m :: !Matches(m, context, name) ==>
      multiset(Keep(items, context, name))[m] == multiset(items)[m]
    ensures forall m :: Matches(m, context, name) ==> multiset(Keep(items, context, name))[m] == 0
    decreases |items|
  {
    if |items| > 0 {
      KeepCounts(items[1..], context, name);
      assert items == [items[0]] + items[1..];
    }
  }

  /** No two matching items next to each other. */
  predicate NoAdjacentMatches(items: seq<Item>, context: Context, name: string)
  {
    forall k :: 0 <= k && k + 1 < |items| ==>
      !(Matches(items[k], context, name) && Matches(items[k + 1], context, name))
  }

  /** A suffix of a list without adjacent matches has none either. */
  lemma NoAdjacentSuffix(items: seq<Item>, n: nat, context: Context, name: string)
    requires n <= |items| && NoAdjacentMatches(items, context, name)
    ensures NoAdjacentMatches(items[n..], context, name)
  {
    var rest := items[n..];
    forall k | 0 <= k && k + 1 < |rest|
      ensures !(Matches(rest[k], context, name) && Matches(rest[k + 1], context, name))
    {
      assert rest[k] == items[k + n] && rest[k + 1] == items[k + n + 1];
    }
  }

  /** Without adjacent matches the loop as written removes exactly the
      matching items. */
  lemma {:induction false} RemoveLoopKeeps(done: seq<Item>, todo: seq<Item>, context: Context, name: string)
    requires NoAdjacentMatches(todo, context, name)
    ensures RemoveLoop(done, todo, context, name) == done + Keep(todo, context, name)
    decreases |todo|
  {
    if |todo| == 0 {
      assert done + [] == done;
    } else if !Matches(todo[0], context, name) {
      NoAdjacentSuffix(todo, 1, context, name);
      RemoveLoopKeeps(done + [todo[0]], todo[1..], context, name);
    } else if |todo| > 1 {
      NoAdjacentSuffix(todo, 2, context, name);
      RemoveLoopKeeps(done + [todo[1]], todo[2..], context, name);
      SkipStep(done, todo, context, name);
    }
  }

  /** The step of `RemoveLoopKeeps` over a matching item followed by one
      that does not match. */
  lemma SkipStep(done: seq<Item>, todo: seq<Item>, context: Context, name: string)
    requires |todo| > 1 && Matches(todo[0], context, name) && !Matches(todo[1], context, name)
    requires RemoveLoop(done + [todo[1]], todo[2..], context, name)
      == done + [todo[1]] + Keep(todo[2..], context, name)
    ensures RemoveLoop(done, todo, context, name) == done + Keep(todo, context, name)
  {
    RemoveLoopSkip(done, todo, context, name);
    KeepSkip(todo, context, name);
    AppendAssoc(done, [todo[1]], Keep(todo[2..], context, name));
  }

  /** The loop over a matching item skips the item after it. */
  lemma RemoveLoopSkip(done: seq<Item>, todo: seq<Item>, context: Context, name: string)
    requires |todo| > 1 && Matches(todo[0], context, name)
    ensures RemoveLoop(done, todo, context, name) == RemoveLoop(done + [todo[1]], todo[2..], context, name)
  {
  }


  /** Keeping over a matching item followed by one that does not match. */
  lemma KeepSkip(todo: seq<Item>, context: Context, name: string)
    requires |todo| > 1 && Matches(todo[0], context, name) && !Matches(todo[1], context, name)
    ensures Keep(todo, context, name) == [todo[1]] + Keep(todo[2..], context, name)
  {
    assert todo[1..][1..] == todo[2..];
    assert Keep(todo[1..], context, name) == [todo[1]] + Keep(todo[2..], context, name);
    assert Keep(todo, context, name) == Keep(todo[1..], context, name);
  }

  /** Without adjacent matches the two removals agree. */
  lemma RemoveAgreesWithoutAdjacentMatches(items: seq<Item>, argv: seq<string>, context: Context)
    requires |argv| > 0 && NoAdjacentMatches(items, context, argv[0])
    ensures RemoveAsWritten(items, argv, context) == RemoveFromMenu(items, argv, context)
  {
    RemoveLoopKeeps([], items, context, argv[0]);
  }

  /** Two matching items in a row: the loop as written deletes the first
      and skips the second. */
  lemma RemoveSkipsAdjacentMatch(m: Item)
    ensures RemoveAsWritten([m, m], [m.name], m.context) == [m]
    ensures RemoveFromMenu([m, m], [m.name], m.context) == []
  {
    assert [m, m][2..] == [];
    assert Matches(m, m.context, m.name);
    assert [m, m][1..] == [m] && [m][1..] == [];
    assert Keep([m], m.context, m.name) == [];
    assert Keep([m, m], m.context, m.name) == [];
  }

  /** Removing by a name and context deletes an item just added with
      them, when no other item of that context carries the name. */
  lemma AddThenRemove(items: seq<Item>, arg: string, context: Context)
    requires arg != "" && '=' !in arg
    requires forall k :: 0 <= k < |items| ==> !Matches(items[k], context, arg)
    ensures RemoveFromMenu(AddToMenu(items, [arg], context), [arg], context) == items
  {
    var added := AddToMenu(items, [arg], context);
    assert added == items + [added[|items|]];
    assert Keep(added, context, arg) == items by {
      KeepAppend(items, added[|items|], context, arg);
    }
  }

  /** Keeping distributes over appending one matching item. */
  lemma {:induction false} KeepAppend(items: seq<Item>, m: Item, context: Context, name: string)
    requires Matches(m, context, name)
    ensures Keep(items + [m], context, name) == Keep(items, context, name)
    decreases |items|
  {
    if |items| == 0 {
      assert Keep([m], context, name) == Keep([m][1..], context, name);
    } else {
      assert (items + [m])[1..] == items[1..] + [m];
      KeepAppend(items[1..], m, context, name);
    }
  }
}
