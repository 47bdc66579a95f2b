/** The numbers-and-strings hint script: like the numeric script, a
    full-width number selects a candidate directly, but any other input is
    matched against each candidate's text key (a link's text, a form
    element's value or name, all lower-cased). A single surviving candidate
    is clicked; otherwise the survivors are drawn again, under their own
    numbers or renumbered. A candidate is its index in the links-then-forms
    order. */
module FollowNumbersStrings {
  import opened Wrappers
  import opened Text
  import opened Numerals
  import opened HintFilter
  import FollowNumbers

  /** A visible candidate and the attributes its key comes from. */
  datatype Candidate =
    | Link(text: string)
    | FormElement(value: Option<string>, name: Option<string>)

  /** `addLinks`/`addFormElems`: the lower-cased link text; for a form
      element its value when that is a non-empty string, otherwise its name.
      `toLowerCase` is the parameter `lower`: JavaScript maps the case of
      every Unicode letter, not only of ASCII. An element with neither makes `getAttribute('name').toLowerCase()`
      throw, which `None` stands for. */
  function Key(c: Candidate, lower: string -> string): (r: Option<string>)
    ensures c.Link? ==> r == Some(lower(c.text))
    ensures r.None? <==> (c.FormElement? && (c.value.None? || c.value.value == "") && c.name.None?)
  {
    match c
    case Link(text) => Some(lower(text))
    case FormElement(value, name) =>
      if value.Some? && value.value != "" then Some(lower(value.value))
      else if name.Some? then Some(lower(name.value))
      else None
  }

  /** The keys of all candidates, or `None` when collecting one throws. */
  function Keys(cs: seq<Candidate>, lower: string -> string): (r: Option<seq<string>>)
    ensures r.None? <==> exists i :: 0 <= i < |cs| && Key(cs[i], lower).None?
    ensures r.Some? ==> |r.value| == |cs| && forall i :: 0 <= i < |cs| ==> Some(r.value[i]) == Key(cs[i], lower)
  {
    if |cs| == 0 then Some([])
    else
      var k := Key(cs[0], lower);
      var rest := Keys(cs[1..], lower);
      if k.None? then None
      else if rest.None? then
        assert exists i :: 0 <= i < |cs[1..]| && Key(cs[1..][i], lower).None?;
        None
      else
        var r := [k.value] + rest.value;
        assert forall i :: 1 <= i < |cs| ==> Some(r[i]) == Key(cs[1..][i - 1], lower);
        Some(r)
  }

  /** A hint drawn on candidate `element` showing `code`. */
  datatype Tag = Tag(element: nat, code: string)

  datatype Outcome =
    | Aborted                 // collecting a key threw
    | Click(index: nat)       // `clickElem` on that candidate
    | Redraw(tags: seq<Tag>)  // `reDrawHints` with these hints
    | Unchanged               // a hint layer is already shown

  /** `(linknr + 1 || s.length == 0)`: the input is a number other than -1,
      or nothing was typed. Then the survivors keep their own numbers. */
  predicate KeepsNumbers(typed: string)
  {
    var linknr := JsParseInt(typed);
    (linknr.Some? && linknr.value + 1 != 0) || |typed| == 0
  }

  /** The hints over the survivors `f`: under their own indices, or under
      their positions among the survivors. */
  function Tags(f: seq<Hint>, keep: bool, len: nat): (r: seq<Tag>)
    ensures |r| == |f|
    ensures forall i :: 0 <= i < |f| ==> r[i].element == f[i].index
    ensures forall i :: 0 <= i < |f| ==> r[i].code == FollowNumbers.ZeroLabel(if keep then f[i].index else i, len)
  {
    seq(|f|, i requires 0 <= i < |f| => Tag(f[i].index, FollowNumbers.ZeroLabel(if keep then f[i].index else i, len)))
  }

  /** `followLinks(typed)` over the candidates; `shown` says whether the
      hint layer is already on the page. */
  function FollowLinks(typed: string, cs: seq<Candidate>, shown: bool, lower: string -> string): (r: Outcome)
    ensures r == Aborted <==> Keys(cs, lower).None?
    ensures Keys(cs, lower).Some? && FollowNumbers.Selects(typed, |cs|) ==>
      r.Click? && Some(r.index as int) == JsParseInt(typed)
    ensures Keys(cs, lower).Some? && !FollowNumbers.Selects(typed, |cs|) ==>
      var f := PrefixFilter(Keys(cs, lower).value, typed, 0);
      (|f| == 1 <==> r.Click?) && (r.Click? ==> r.index == f[0].index)
      && (r == Unchanged <==> |f| != 1 && shown)
      && (r.Redraw? ==> r.tags == Tags(f, KeepsNumbers(typed), FollowNumbers.Width(|cs|)))
  {
    var keys := Keys(cs, lower);
    if keys.None? then Aborted
    else if FollowNumbers.Selects(typed, |cs|) then Click(JsParseInt(typed).value)
    else
      var f := PrefixFilter(keys.value, typed, 0);
      if |f| == 1 then Click(f[0].index)
      else if shown then Unchanged
      else Redraw(Tags(f, KeepsNumbers(typed), FollowNumbers.Width(|cs|)))
  }

  /** A redraw shows exactly the candidates whose key starts with the
      input, in order. */
  lemma RedrawShowsSurvivors(typed: string, cs: seq<Candidate>, shown: bool, j: nat, lower: string -> string)
    requires FollowLinks(typed, cs, shown, lower).Redraw? && j < |cs|
    ensures var tags := FollowLinks(typed, cs, shown, lower).tags;
      (exists i :: 0 <= i < |tags| && tags[i].element == j) <==> (typed <= Keys(cs, lower).value[j])
  {
    var tags := FollowLinks(typed, cs, shown, lower).tags;
    var f := PrefixFilter(Keys(cs, lower).value, typed, 0);
    assert forall i :: 0 <= i < |tags| ==> tags[i].element == f[i].index;
    if typed <= Keys(cs, lower).value[j] {
      assert j in Indices(f);
      var i :| 0 <= i < |f| && f[i].index == j;
      assert tags[i].element == j;
    }
  }

  /** The hints drawn all show different codes. */
  lemma RedrawCodesDistinct(typed: string, cs: seq<Candidate>, shown: bool, a: nat, b: nat, lower: string -> string)
    requires FollowLinks(typed, cs, shown, lower).Redraw?
    requires a < b < |FollowLinks(typed, cs, shown, lower).tags|
    ensures FollowLinks(typed, cs, shown, lower).tags[a].code != FollowLinks(typed, cs, shown, lower).tags[b].code
  {
    var tags := FollowLinks(typed, cs, shown, lower).tags;
    var f := PrefixFilter(Keys(cs, lower).value, typed, 0);
    var len := FollowNumbers.Width(|cs|);
    var keep := KeepsNumbers(typed);
    var ia := if keep then f[a].index else a;
    var ib := if keep then f[b].index else b;
    FilterIncreasing(Keys(cs, lower).value, typed, 0);
    assert f[a].index < f[b].index;
    if tags[a].code == tags[b].code {
      PaddedDecimalInjective(ia, ib, len);
    }
  }

  /** Input that selects nothing and starts no key, with no hint layer
      shown, draws an empty layer. */
  lemma NoMatchRedrawsNothing(typed: string, cs: seq<Candidate>, lower: string -> string)
    requires Keys(cs, lower).Some? && !FollowNumbers.Selects(typed, |cs|)
    requires forall j :: 0 <= j < |cs| ==> !(typed <= Keys(cs, lower).value[j])
    ensures FollowLinks(typed, cs, false, lower) == Redraw([])
  {
    FilterNone(Keys(cs, lower).value, typed, 0);
  }

  /** Input that does not select by number and starts exactly one key
      clicks that candidate, whether or not a hint layer is shown. */
  lemma UniqueKeyClicks(typed: string, cs: seq<Candidate>, shown: bool, j: nat, lower: string -> string)
    requires Keys(cs, lower).Some? && !FollowNumbers.Selects(typed, |cs|)
    requires j < |cs| && typed <= Keys(cs, lower).value[j]
    requires forall m :: 0 <= m < |cs| && m != j ==> !(typed <= Keys(cs, lower).value[m])
    ensures FollowLinks(typed, cs, shown, lower) == Click(j)
  {
    FilterSingle(Keys(cs, lower).value, typed, 0, j);
  }
}
