/** The prefix filter shared by every hint script: after each key press
    the candidates whose label starts with the typed keys survive, in their
    original order, and the part of the label still to be typed is what
    the redrawn hint shows. */
module HintFilter {

  /** A surviving candidate, by position, and the rest of its label. */
  datatype Hint = Hint(index: nat, rest: string)

  /** The candidates from position `from` on whose label starts with
      `typed`. */
  function PrefixFilter(labels: seq<string>, typed: string, from: nat): (r: seq<Hint>)
    requires from <= |labels|
    ensures forall h :: h in r ==>
      (from <= h.index < |labels| && typed <= labels[h.index] && h.rest == labels[h.index][|typed|..])
    ensures forall j {:trigger j in Indices(r)} :: from <= j < |labels| ==> (j in Indices(r) <==> typed <= labels[j])
    decreases |labels| - from
  {
    if from == |labels| then []
    else
      var rest := PrefixFilter(labels, typed, from + 1);
      assert from !in Indices(rest) by {
        forall i | 0 <= i < |rest| ensures Indices(rest)[i] != from {
          assert rest[i] in rest;
        }
      }
      if typed <= labels[from] then
        var r := [Hint(from, labels[from][|typed|..])] + rest;
        assert Indices(r) == [from] + Indices(rest);
        r
      else rest
  }

  /** The survivors keep their original order. */
  lemma {:induction false} FilterIncreasing(labels: seq<string>, typed: string, from: nat)
    requires from <= |labels|
    ensures forall a, b :: 0 <= a < b < |PrefixFilter(labels, typed, from)| ==>
      PrefixFilter(labels, typed, from)[a].index < PrefixFilter(labels, typed, from)[b].index
    decreases |labels| - from
  {
    if from < |labels| {
      FilterIncreasing(labels, typed, from + 1);
      var rest := PrefixFilter(labels, typed, from + 1);
      if typed <= labels[from] {
        var r := PrefixFilter(labels, typed, from);
        assert r == [Hint(from, labels[from][|typed|..])] + rest;
        forall a, b | 0 <= a < b < |r| ensures r[a].index < r[b].index {
          assert r[b] == rest[b - 1] && rest[b - 1] in rest;
          if a > 0 {
            assert r[a] == rest[a - 1];
          } else {
            assert r[a].index == from;
          }
        }
      } else {
        assert PrefixFilter(labels, typed, from) == rest;
      }
    }
  }

  /** The positions of the survivors. */
  function Indices(hints: seq<Hint>): (r: seq<nat>)
    ensures |r| == |hints|
    ensures forall i :: 0 <= i < |r| ==> r[i] == hints[i].index
  {
    seq(|hints|, i requires 0 <= i < |hints| => hints[i].index)
  }

  lemma {:induction false} FilterNone(labels: seq<string>, typed: string, from: nat)
    requires from <= |labels|
    requires forall m :: from <= m < |labels| ==> !(typed <= labels[m])
    ensures PrefixFilter(labels, typed, from) == []
    decreases |labels| - from
  {
    if from < |labels| {
      FilterNone(labels, typed, from + 1);
    }
  }

  /** When exactly one label has the prefix, it is the only survivor. */
  lemma {:induction false} FilterSingle(labels: seq<string>, typed: string, from: nat, j: nat)
    requires from <= j < |labels| && typed <= labels[j]
    requires forall m :: from <= m < |labels| && m != j ==> !(typed <= labels[m])
    ensures PrefixFilter(labels, typed, from) == [Hint(j, labels[j][|typed|..])]
    decreases |labels| - from
  {
    if from == j {
      FilterNone(labels, typed, from + 1);
    } else {
      FilterSingle(labels, typed, from + 1, j);
    }
  }

  /** Typing nothing keeps every candidate with its whole label. */
  lemma {:induction false} FilterEmptyKeepsAll(labels: seq<string>, from: nat)
    requires from <= |labels|
    ensures |PrefixFilter(labels, "", from)| == |labels| - from
    ensures forall i :: 0 <= i < |labels| - from ==>
      PrefixFilter(labels, "", from)[i] == Hint(from + i, labels[from + i])
    decreases |labels| - from
  {
    if from < |labels| {
      FilterEmptyKeepsAll(labels, from + 1);
      var rest := PrefixFilter(labels, "", from + 1);
      assert "" <= labels[from] && labels[from][0..] == labels[from];
      var r := PrefixFilter(labels, "", from);
      assert r == [Hint(from, labels[from])] + rest;
      forall i | 0 <= i < |labels| - from ensures r[i] == Hint(from + i, labels[from + i]) {
        if i > 0 {
          assert r[i] == rest[i - 1];
        }
      }
    }
  }
}
