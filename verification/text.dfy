/** Character classes, stripping, searching, splitting and replacing on
    strings. C strings are sequences of bytes, one `char` per byte; Python 3
    and JavaScript strings are sequences of code points or code units, again
    one `char` each. */
module Text {
  import opened Wrappers

  /** `isspace` of the C library in the "C" locale. Python 2 byte strings
      use the same six characters for `strip` and `split`. */
  predicate IsCSpace(c: char) {
    c == ' ' || c == '\t' || c == '\n' || c == '\U{0B}' || c == '\U{0C}' || c == '\r'
  }

  /** `str.isspace` of Python 3, which is also the class `\s` of its `re`
      module on `str` patterns and what `str.strip()` removes. */
  predicate IsPySpace(c: char) {
    IsCSpace(c) || ('\U{1C}' <= c <= '\U{1F}') || c == '\U{85}' || c == '\U{A0}'
    || c == '\U{1680}' || ('\U{2000}' <= c <= '\U{200A}') || c == '\U{2028}'
    || c == '\U{2029}' || c == '\U{202F}' || c == '\U{205F}' || c == '\U{3000}'
  }

  /** WhiteSpace and LineTerminator of ECMAScript, which `parseInt` skips. */
  predicate IsJsSpace(c: char) {
    c == '\t' || c == '\U{0B}' || c == '\U{0C}' || c == ' ' || c == '\U{A0}'
    || c == '\U{FEFF}' || c == '\n' || c == '\r' || c == '\U{2028}' || c == '\U{2029}'
    || c == '\U{1680}' || ('\U{2000}' <= c <= '\U{200A}') || c == '\U{202F}'
    || c == '\U{205F}' || c == '\U{3000}'
  }

  predicate IsAsciiDigit(c: char) {
    '0' <= c <= '9'
  }

  predicate IsAsciiUpper(c: char) {
    'A' <= c <= 'Z'
  }

  predicate IsAsciiLower(c: char) {
    'a' <= c <= 'z'
  }

  predicate IsAsciiAlnum(c: char) {
    IsAsciiDigit(c) || IsAsciiUpper(c) || IsAsciiLower(c)
  }

  /** Lower-cases the ASCII letters and leaves every other character. */
  function LowerChar(c: char): (r: char)
    ensures IsAsciiUpper(c) ==> IsAsciiLower(r)
    ensures !IsAsciiUpper(c) ==> r == c
  {
    if IsAsciiUpper(c) then (c as int + 32) as char else c
  }

  function Lower(s: string): (r: string)
    ensures |r| == |s|
    ensures forall i :: 0 <= i < |s| ==> r[i] == LowerChar(s[i])
  {
    seq(|s|, i requires 0 <= i < |s| => LowerChar(s[i]))
  }

  /** The number of occurrences of `c` in `s`. */
  function CountChar(s: string, c: char): nat
  {
    if |s| == 0 then 0 else (if s[0] == c then 1 else 0) + CountChar(s[1..], c)
  }

  /** The first position from `i` on whose character does not satisfy
      `sp`, or `|s|`. */
  function SkipFrom(s: string, sp: char -> bool, i: nat): (r: nat)
    requires i <= |s|
    ensures i <= r <= |s|
    decreases |s| - i
  {
    if i < |s| && sp(s[i]) then SkipFrom(s, sp, i + 1) else i
  }

  lemma {:induction false} SkipFromFacts(s: string, sp: char -> bool, i: nat)
    requires i <= |s|
    ensures var r := SkipFrom(s, sp, i);
            (forall k :: i <= k < r ==> sp(s[k])) && (r < |s| ==> !sp(s[r]))
    decreases |s| - i
  {
    if i < |s| && sp(s[i]) {
      SkipFromFacts(s, sp, i + 1);
    }
  }

  /** The end of `s[..j]` once the characters satisfying `sp` are removed
      from its end. */
  function SkipBack(s: string, sp: char -> bool, j: nat): (r: nat)
    requires j <= |s|
    ensures r <= j
    decreases j
  {
    if j > 0 && sp(s[j - 1]) then SkipBack(s, sp, j - 1) else j
  }

  lemma {:induction false} SkipBackFacts(s: string, sp: char -> bool, j: nat)
    requires j <= |s|
    ensures var r := SkipBack(s, sp, j);
            (forall k :: r <= k < j ==> sp(s[k])) && (r > 0 ==> !sp(s[r - 1]))
    decreases j
  {
    if j > 0 && sp(s[j - 1]) {
      SkipBackFacts(s, sp, j - 1);
    }
  }

  /** Removes the longest prefix of characters satisfying `sp`. */
  function LStrip(s: string, sp: char -> bool): (r: string)
    ensures |r| <= |s| && r == s[|s| - |r|..]
    ensures forall i :: 0 <= i < |s| - |r| ==> sp(s[i])
    ensures |r| > 0 ==> !sp(r[0])
  {
    SkipFromFacts(s, sp, 0);
    s[SkipFrom(s, sp, 0)..]
  }

  /** Nothing is stripped from a string that does not start with a
      character satisfying `sp`. */
  lemma LStripNone(s: string, sp: char -> bool)
    requires |s| == 0 || !sp(s[0])
    ensures LStrip(s, sp) == s
  {
    assert SkipFrom(s, sp, 0) == 0;
  }

  /** Removes the longest suffix of characters satisfying `sp`. */
  function RStrip(s: string, sp: char -> bool): (r: string)
    ensures |r| <= |s| && r == s[..|r|]
    ensures forall i :: |r| <= i < |s| ==> sp(s[i])
    ensures |r| > 0 ==> !sp(r[|r| - 1])
  {
    SkipBackFacts(s, sp, |s|);
    s[..SkipBack(s, sp, |s|)]
  }

  /** Nothing is stripped from a string that does not end with a
      character satisfying `sp`. */
  lemma RStripNone(s: string, sp: char -> bool)
    requires |s| == 0 || !sp(s[|s| - 1])
    ensures RStrip(s, sp) == s
  {
    assert SkipBack(s, sp, |s|) == |s|;
  }

  function Strip(s: string, sp: char -> bool): string
  {
    RStrip(LStrip(s, sp), sp)
  }

  /** Stripping twice strips nothing more. */
  lemma StripIdempotent(s: string, sp: char -> bool)
    ensures Strip(Strip(s, sp), sp) == Strip(s, sp)
  {
    var l := LStrip(s, sp);
    var t := RStrip(l, sp);
    PrefixKeepsHead(l, t, sp);
    LStripNone(t, sp);
    RStripNone(t, sp);
  }

  /** A prefix of a string that does not start with a character
      satisfying `sp` does not either. */
  lemma PrefixKeepsHead(l: string, t: string, sp: char -> bool)
    requires |l| == 0 || !sp(l[0])
    requires |t| <= |l| && t == l[..|t|]
    ensures |t| == 0 || !sp(t[0])
  {
    if |t| > 0 {
      assert t[0] == l[0];
    }
  }

  /** `p` occurs in `s` at position `i`. */
  predicate OccursAt(s: string, p: string, i: int) {
    0 <= i && i + |p| <= |s| && s[i..i + |p|] == p
  }

  predicate Occurs(s: string, p: string) {
    exists i | 0 <= i <= |s| :: OccursAt(s, p, i)
  }

  /** Pieces of `s` between the non-overlapping occurrences of `p` found
      scanning from the left; this is `g_strsplit(s, p, -1)` and Python's
      `s.split(p)`. */
  function SplitOn(s: string, p: string): (r: seq<string>)
    requires |p| > 0
    ensures |r| >= 1
    decreases |s|
  {
    if |s| < |p| then [s]
    else if s[..|p|] == p then [""] + SplitOn(s[|p|..], p)
    else
      var rest := SplitOn(s[1..], p);
      [[s[0]] + rest[0]] + rest[1..]
  }

  /** `g_strjoinv(sep, parts)` and Python's `sep.join(parts)`. */
  function Join(parts: seq<string>, sep: string): string
    decreases |parts|
  {
    if |parts| == 0 then ""
    else if |parts| == 1 then parts[0]
    else parts[0] + sep + Join(parts[1..], sep)
  }

  /** Every non-overlapping occurrence of `p` replaced by `rep`, leftmost
      first: `str_replace` and Python's `str.replace` for a non-empty `p`. */
  function ReplaceAll(s: string, p: string, rep: string): string
    requires |p| > 0
  {
    Join(SplitOn(s, p), rep)
  }

  lemma {:induction false} JoinConsHead(c: char, x: string, rest: seq<string>, sep: string)
    ensures Join([[c] + x] + rest, sep) == [c] + Join([x] + rest, sep)
  {
    if |rest| == 0 {
      assert [[c] + x] + rest == [[c] + x];
      assert [x] + rest == [x];
    } else {
      assert ([[c] + x] + rest)[1..] == rest;
      assert ([x] + rest)[1..] == rest;
    }
  }

  /** Splitting and joining with the same separator gives back the input,
      so the pieces and the separators between them cover it exactly. */
  lemma {:induction false} JoinSplitOn(s: string, p: string)
    requires |p| > 0
    ensures Join(SplitOn(s, p), p) == s
    decreases |s|
  {
    if |s| < |p| {
    } else if s[..|p|] == p {
      var rest := SplitOn(s[|p|..], p);
      SplitOnMatch(s, p);
      JoinSplitOn(s[|p|..], p);
      JoinEmptyHead(rest, p);
      assert s == s[..|p|] + s[|p|..];
    } else {
      var rest := SplitOn(s[1..], p);
      SplitOnSkip(s, p);
      JoinSplitOn(s[1..], p);
      JoinConsHead(s[0], rest[0], rest[1..], p);
      assert [rest[0]] + rest[1..] == rest;
      assert s == [s[0]] + s[1..];
    }
  }

  /** `SplitOn` over an occurrence at the front. */
  lemma SplitOnMatch(s: string, p: string)
    requires |p| > 0 && |s| >= |p| && s[..|p|] == p
    ensures SplitOn(s, p) == [""] + SplitOn(s[|p|..], p)
  {
  }

  /** `SplitOn` over a first character that starts no occurrence. */
  lemma SplitOnSkip(s: string, p: string)
    requires |p| > 0 && |s| >= |p| && s[..|p|] != p
    ensures var rest := SplitOn(s[1..], p);
            SplitOn(s, p) == [[s[0]] + rest[0]] + rest[1..]
  {
  }

  /** Joining after an empty first piece starts with the separator. */
  lemma JoinEmptyHead(rest: seq<string>, sep: string)
    requires |rest| >= 1
    ensures Join([""] + rest, sep) == sep + Join(rest, sep)
  {
    assert ([""] + rest)[1..] == rest;
    assert "" + sep == sep;
  }

  lemma {:induction false} JoinStartsWithHead(parts: seq<string>, sep: string)
    requires |parts| >= 1
    ensures parts[0] <= Join(parts, sep)
  {
  }

  /** No piece produced by `SplitOn` contains the separator, so after
      `ReplaceAll` every original occurrence has been replaced. */
  lemma {:induction false} SplitOnPiecesAreFree(s: string, p: string)
    requires |p| > 0
    ensures forall k :: 0 <= k < |SplitOn(s, p)| ==> !Occurs(SplitOn(s, p)[k], p)
    decreases |s|
  {
    var r := SplitOn(s, p);
    if |s| < |p| {
      assert r == [s];
      forall i | OccursAt(s, p, i) ensures false { }
    } else if s[..|p|] == p {
      var rest := SplitOn(s[|p|..], p);
      SplitOnPiecesAreFree(s[|p|..], p);
      assert r == [""] + rest;
      forall k | 0 <= k < |r| ensures !Occurs(r[k], p) {
        if k == 0 {
          forall i | OccursAt(r[0], p, i) ensures false { }
        } else {
          assert r[k] == rest[k - 1];
        }
      }
    } else {
      var rest := SplitOn(s[1..], p);
      SplitOnPiecesAreFree(s[1..], p);
      var head := [s[0]] + rest[0];
      assert r == [head] + rest[1..];
      assert head <= s by {
        JoinSplitOn(s[1..], p);
        JoinStartsWithHead(rest, p);
        assert s == [s[0]] + s[1..];
      }
      forall k | 0 <= k < |r| ensures !Occurs(r[k], p) {
        if k == 0 {
          forall i | 0 <= i <= |head| ensures !OccursAt(head, p, i) {
            if 0 < i && i + |p| <= |head| {
              assert head[i..i + |p|] == rest[0][i - 1..i - 1 + |p|];
              assert !OccursAt(rest[0], p, i - 1);
            } else if i == 0 && |p| <= |head| {
              assert head[..|p|] == s[..|p|];
            }
          }
        } else {
          assert r[k] == rest[k];
        }
      }
    }
  }

  /** A string without the pattern is a single piece. */
  lemma {:induction false} SplitOnAbsent(s: string, p: string)
    requires |p| > 0
    requires !Occurs(s, p)
    ensures SplitOn(s, p) == [s]
    decreases |s|
  {
    if |s| < |p| {
    } else if s[..|p|] == p {
      assert OccursAt(s, p, 0);
    } else {
      assert !Occurs(s[1..], p) by {
        forall i | OccursAt(s[1..], p, i) ensures false {
          assert s[1..][i..i + |p|] == s[i + 1..i + 1 + |p|];
          assert OccursAt(s, p, i + 1);
        }
      }
      SplitOnAbsent(s[1..], p);
      assert [s[0]] + s[1..] == s;
    }
  }

  lemma ReplaceAllAbsent(s: string, p: string, rep: string)
    requires |p| > 0
    requires !Occurs(s, p)
    ensures ReplaceAll(s, p, rep) == s
  {
    SplitOnAbsent(s, p);
  }

  /** Python's `str.startswith`, JavaScript's `RegExp("^" + t)` on a
      literal `t`. */
  predicate StartsWith(s: string, prefix: string) {
    prefix <= s
  }

  predicate EndsWith(s: string, suffix: string) {
    |suffix| <= |s| && s[|s| - |suffix|..] == suffix
  }

  /** The position of the first `c` in `s`, or `|s|` when there is none:
      the length `strchr` and `strlen` stop at. */
  function IndexOfChar(s: string, c: char): (r: nat)
    ensures r <= |s|
    ensures r < |s| ==> s[r] == c
    ensures forall i :: 0 <= i < r ==> s[i] != c
  {
    FindFromFacts(s, c, 0);
    FindFrom(s, c, 0)
  }

  /** The position of the first `c` at or after `i`, or `|s|`. */
  function FindFrom(s: string, c: char, i: nat): (r: nat)
    requires i <= |s|
    ensures i <= r <= |s|
    decreases |s| - i
  {
    if i == |s| then |s| else if s[i] == c then i else FindFrom(s, c, i + 1)
  }

  /** The position found holds `c`, and none before it from `i` on. */
  lemma {:induction false} FindFromFacts(s: string, c: char, i: nat)
    requires i <= |s|
    ensures var r := FindFrom(s, c, i);
            (r < |s| ==> s[r] == c) && forall j :: i <= j < r ==> s[j] != c
    decreases |s| - i
  {
    if i < |s| && s[i] != c {
      FindFromFacts(s, c, i + 1);
    }
  }

  /** Splits at the first `c`: Python's `s.split(c, 1)`, GLib's
      `g_strsplit(s, c, 2)`. */
  function SplitFirst(s: string, c: char): (r: seq<string>)
    ensures 1 <= |r| <= 2
    ensures |r| == 1 <==> c !in s
    ensures |r| == 1 ==> r[0] == s
    ensures |r| == 2 ==> r[0] + [c] + r[1] == s && c !in r[0]
  {
    var i := IndexOfChar(s, c);
    if i == |s| then [s] else (assert s == s[..i] + [c] + s[i + 1..]; [s[..i], s[i + 1..]])
  }

  /** Splitting at the first `c` finds the `c` that ends a `c`-free
      prefix. */
  lemma SplitFirstAt(a: string, c: char, b: string)
    requires c !in a
    ensures SplitFirst(a + [c] + b, c) == [a, b]
  {
    var s := a + [c] + b;
    var i := IndexOfChar(s, c);
    assert s[|a|] == c;
    assert i == |a| by {
      assert i <= |a|;
      assert forall k :: 0 <= k < |a| ==> s[k] == a[k];
    }
    assert s[..i] == a && s[i + 1..] == b;
  }

  /** `strspn(s, accept)`: the length of the longest prefix of characters
      in the accepted class. */
  function Span(s: string, accept: char -> bool): (r: nat)
    ensures r <= |s|
    ensures forall i :: 0 <= i < r ==> accept(s[i])
    ensures r < |s| ==> !accept(s[r])
  {
    if |s| > 0 && accept(s[0]) then 1 + Span(s[1..], accept) else 0
  }

  /** `strpbrk(s, reject)`: the position of the first character in the
      class, or `None` (NULL) when there is none. */
  function FindAny(s: string, reject: char -> bool): (r: Option<nat>)
    ensures r.None? <==> forall i :: 0 <= i < |s| ==> !reject(s[i])
    ensures r.Some? ==> r.value < |s| && reject(s[r.value]) && forall i :: 0 <= i < r.value ==> !reject(s[i])
  {
    if |s| == 0 then None
    else if reject(s[0]) then Some(0)
    else
      var rest := FindAny(s[1..], reject);
      if rest.None? then None else Some(rest.value + 1)
  }

  /** `strstr(s, [a, b])`: the position of the first `a` directly followed
      by `b`, or `None` (NULL) when there is none. */
  function FindPair(s: string, a: char, b: char): (r: Option<nat>)
    ensures r.None? <==> forall i :: 0 <= i < |s| - 1 ==> !(s[i] == a && s[i + 1] == b)
    ensures r.Some? ==> r.value + 1 < |s| && s[r.value] == a && s[r.value + 1] == b
    ensures r.Some? ==> forall i :: 0 <= i < r.value ==> !(s[i] == a && s[i + 1] == b)
  {
    if |s| < 2 then None
    else if s[0] == a && s[1] == b then Some(0)
    else
      var rest := FindPair(s[1..], a, b);
      if rest.None? then None else Some(rest.value + 1)
  }

  /** `n` copies of `c`. */
  function Repeat(c: char, n: nat): (r: string)
    ensures |r| == n
    ensures forall i :: 0 <= i < n ==> r[i] == c
  {
    if n == 0 then "" else [c] + Repeat(c, n - 1)
  }

  /** `s` preceded by as many `c` as it takes to reach width `w`: the
      `for (n = label.length; n < len; n++) label = c + label` loops of the
      hint scripts. A string already that wide is unchanged. */
  function PadLeft(s: string, c: char, w: nat): (r: string)
    ensures |s| >= w ==> r == s
    ensures |s| < w ==> |r| == w
    ensures r == Repeat(c, |r| - |s|) + s
  {
    if |s| >= w then (assert Repeat(c, 0) + s == s; s) else Repeat(c, w - |s|) + s
  }

  /** Concatenation regrouped. */
  lemma AppendAssoc<T>(a: seq<T>, b: seq<T>, c: seq<T>)
    ensures a + b + c == a + (b + c)
  {
  }

  /** What follows a prefix. */
  lemma DropFront<T>(a: seq<T>, b: seq<T>)
    ensures (a + b)[|a|..] == b
  {
  }

  /** A suffix cut at two points. */
  lemma SliceThree<T>(s: seq<T>, a: nat, b: nat, c: nat)
    requires a <= b <= c <= |s|
    ensures s[a..] == s[a..b] + (s[b..c] + s[c..])
  {
  }
}
