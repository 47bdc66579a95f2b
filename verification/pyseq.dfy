/** Python's indexing and slicing of sequences: negative positions count
    from the end, and slice bounds are clamped instead of failing. */
module PySeq {
  import opened Wrappers

  /** A slice bound `i` of a sequence of length `n`, as Python resolves it. */
  function Bound(i: int, n: nat): (r: nat)
    ensures r <= n
    ensures 0 <= i <= n ==> r == i
    ensures i > n ==> r == n
    ensures -(n as int) <= i < 0 ==> r == n + i
    ensures i < -(n as int) ==> r == 0
  {
    if i < 0 then (if i + n < 0 then 0 else i + n) else if i > n then n else i
  }

  /** `s[i:j]`. */
  function Slice<T>(s: seq<T>, i: int, j: int): (r: seq<T>)
    ensures |r| <= |s|
    ensures Bound(i, |s|) <= Bound(j, |s|) ==> r == s[Bound(i, |s|)..Bound(j, |s|)]
    ensures Bound(i, |s|) > Bound(j, |s|) ==> r == []
  {
    var a, b := Bound(i, |s|), Bound(j, |s|);
    if a <= b then s[a..b] else []
  }

  /** `s[:j]`. */
  function Take<T>(s: seq<T>, j: int): seq<T>
  {
    Slice(s, 0, j)
  }

  /** `s[i:]`. */
  function Drop<T>(s: seq<T>, i: int): seq<T>
  {
    Slice(s, i, |s|)
  }

  /** `s[:i] + s[i:] == s` for every integer `i`, negative or out of range. */
  lemma TakeDrop<T>(s: seq<T>, i: int)
    ensures Take(s, i) + Drop(s, i) == s
  {
    var b := Bound(i, |s|);
    assert Take(s, i) == s[..b];
    assert Drop(s, i) == s[b..];
  }

  /** `s[-m:]` keeps the last `m` elements, or all of a shorter `s`. */
  lemma DropNegative<T>(s: seq<T>, m: nat)
    requires m > 0
    ensures Drop(s, -(m as int)) == (if |s| <= m then s else s[|s| - m..])
  {
    assert Bound(-(m as int), |s|) == (if |s| <= m then 0 else |s| - m);
    assert Bound(|s|, |s|) == |s|;
    assert s[0..|s|] == s;
  }

  /** Slicing `x + y` at `len(x)` gives back `x` and `y`. */
  lemma SplitConcat<T>(x: seq<T>, y: seq<T>)
    ensures (x + y)[..|x|] == x && (x + y)[|x|..] == y
    ensures Slice(x + y, 0, |x|) == x && Drop(x + y, |x|) == y
  {
    assert (x + y)[..|x|] == x;
    assert (x + y)[|x|..] == y;
  }

  /** `s[:c] + s[c+1:]` drops the element at `c`, and nothing when `c` is
      past the end. */
  lemma TakeDropSkip<T>(s: seq<T>, c: nat)
    ensures c < |s| ==> Take(s, c) + Drop(s, c + 1) == s[..c] + s[c + 1..]
    ensures c >= |s| ==> Take(s, c) + Drop(s, c + 1) == s
  {
    if c < |s| {
      assert Take(s, c) == s[..c];
      assert Drop(s, c + 1) == s[c + 1..];
    } else {
      assert Take(s, c) == s;
      assert Drop(s, c + 1) == [];
    }
  }

  /** `s[i]`, with `None` for the IndexError of an index outside
      `[-len(s), len(s))`. */
  function Index<T>(s: seq<T>, i: int): (r: Option<T>)
    ensures r.Some? <==> -|s| <= i < |s|
    ensures 0 <= i < |s| ==> r == Some(s[i])
    ensures -|s| <= i < 0 ==> r == Some(s[|s| + i])
  {
    if 0 <= i < |s| then Some(s[i]) else if -|s| <= i < 0 then Some(s[|s| + i]) else None
  }
}
