/** The hint labels of the `Follower` script: each candidate's index is
    written in decimal, every digit is replaced through a ten-entry
    translation table of home-row keys, and the result is left-padded with
    the table's first entry. The page is reduced to the number of
    candidates; a candidate is its index. */
module Follower {
  import opened Numerals
  import opened Text
  import opened HintFilter

  /** The translation table; entry `d` displays digit `d`. */
  const Translation: seq<string> := ["a", "r", "s", "t", "d", "h", "n", "e", "i", "o"]

  /** `String.prototype.lpad(padding, length)`: prepends `padding` while the
      string is shorter than `length`. With an empty padding and a short
      string that loop never ends, so that case is excluded. */
  function LPad(s: string, padding: string, length: nat): (r: string)
    requires |padding| > 0 || |s| >= length
    ensures |s| >= length ==> r == s
    ensures |r| >= length && s <= r[|r| - |s|..] && r[|r| - |s|..] == s
    ensures |s| < length ==> |r| < length + |padding|
    decreases length - |s|
  {
    if |s| >= length then s else LPad(padding + s, padding, length)
  }

  /** With a one-character padding `lpad` is the zero-padding of the other
      hint scripts. */
  lemma {:induction false} LPadOneChar(s: string, c: char, length: nat)
    ensures LPad(s, [c], length) == PadLeft(s, c, length)
    decreases length - |s|
  {
    if |s| < length {
      LPadOneChar([c] + s, c, length);
      var n := length - |s|;
      assert Repeat(c, n) == [c] + Repeat(c, n - 1);
      assert PadLeft([c] + s, c, length) == Repeat(c, n - 1) + ([c] + s);
      assert Repeat(c, n - 1) + ([c] + s) == (Repeat(c, n - 1) + [c]) + s;
      RepeatSnoc(c, n - 1);
    }
  }

  lemma {:induction false} RepeatSnoc(c: char, n: nat)
    ensures Repeat(c, n) + [c] == Repeat(c, n + 1)
  {
    assert Repeat(c, n) + [c] == Repeat(c, n + 1);
  }

  /** `translate(digitLabel, translation)`: each character indexes the
      table. A character that is not a digit indexes nothing, and
      JavaScript appends the text "undefined" for it. */
  function Translate(digits: string): (r: string)
    ensures AllDigits(digits) ==> |r| == |digits|
    ensures AllDigits(digits) ==> forall i :: 0 <= i < |digits| ==> r[i] == Translation[DigitValue(digits[i])][0]
  {
    if |digits| == 0 then ""
    else
      var c := digits[0];
      (if IsAsciiDigit(c) then Translation[DigitValue(c)] else "undefined") + Translate(digits[1..])
  }

  /** The width `generateHintables` pads to: `hintables.length`, the length
      of the pair `[items, labels]`, whatever the number of candidates. */
  const HintLength: nat := 2

  /** The label `generateHintables` gives candidate `i`. */
  function HintLabel(i: nat): string
  {
    LPad(Translate(NatToDecimal(i)), Translation[0], HintLength)
  }

  /** The translation table is one character per digit, all different. */
  lemma TranslationInjective(a: nat, b: nat)
    requires a < 10 && b < 10 && Translation[a] == Translation[b]
    ensures a == b
  {
  }

  /** A label is the translated decimal numeral zero-padded to two digits,
      so labels of different candidates differ. */
  lemma HintLabelIsTranslatedPadding(i: nat)
    ensures HintLabel(i) == Translate(PadLeft(NatToDecimal(i), '0', HintLength))
  {
    var d := NatToDecimal(i);
    LPadOneChar(Translate(d), 'a', HintLength);
    if |d| < HintLength {
      var z := HintLength - |d|;
      TranslateRepeatZero(z);
      TranslateAppend(Repeat('0', z), d);
      assert PadLeft(d, '0', HintLength) == Repeat('0', z) + d;
      assert PadLeft(Translate(d), 'a', HintLength) == Repeat('a', z) + Translate(d);
    } else {
      assert PadLeft(d, '0', HintLength) == d;
    }
  }

  lemma {:induction false} TranslateRepeatZero(n: nat)
    ensures Translate(Repeat('0', n)) == Repeat('a', n)
  {
    if n > 0 {
      TranslateRepeatZero(n - 1);
      assert Repeat('0', n)[1..] == Repeat('0', n - 1);
    }
  }

  lemma {:induction false} TranslateAppend(x: string, y: string)
    ensures Translate(x + y) == Translate(x) + Translate(y)
  {
    if |x| > 0 {
      TranslateAppend(x[1..], y);
      assert (x + y)[1..] == x[1..] + y;
    } else {
      assert x + y == y;
    }
  }

  lemma HintLabelsDistinct(i: nat, j: nat)
    requires i != j
    ensures HintLabel(i) != HintLabel(j)
  {
    HintLabelIsTranslatedPadding(i);
    HintLabelIsTranslatedPadding(j);
    var a := PadLeft(NatToDecimal(i), '0', HintLength);
    var b := PadLeft(NatToDecimal(j), '0', HintLength);
    PadLeftDigits(NatToDecimal(i), HintLength);
    PadLeftDigits(NatToDecimal(j), HintLength);
    if Translate(a) == Translate(b) {
      assert |a| == |Translate(a)| == |b|;
      TranslateInjective(a, b);
      PaddedDecimalInjective(i, j, HintLength);
    }
  }

  lemma PadLeftDigits(d: string, w: nat)
    requires AllDigits(d)
    ensures AllDigits(PadLeft(d, '0', w))
  {
    var p := PadLeft(d, '0', w);
    forall k | 0 <= k < |p| ensures IsAsciiDigit(p[k]) {
      if k < |p| - |d| {
        assert p[k] == Repeat('0', |p| - |d|)[k];
      } else {
        assert p[k] == d[k - (|p| - |d|)];
      }
    }
  }

  lemma TranslateInjective(a: string, b: string)
    requires AllDigits(a) && AllDigits(b) && |a| == |b| && Translate(a) == Translate(b)
    ensures a == b
  {
    forall i | 0 <= i < |a| ensures a[i] == b[i] {
      SameDigitAt(a, b, i);
    }
  }

  lemma SameDigitAt(a: string, b: string, i: nat)
    requires AllDigits(a) && AllDigits(b) && |a| == |b| && Translate(a) == Translate(b) && i < |a|
    ensures a[i] == b[i]
  {
    var x, y := DigitValue(a[i]), DigitValue(b[i]);
    assert Translate(a)[i] == Translate(b)[i];
    SameLetter(x, y);
    TranslationInjective(x, y);
  }

  /** Each entry of the table is one character. */
  lemma SameLetter(x: nat, y: nat)
    requires x < 10 && y < 10 && Translation[x][0] == Translation[y][0]
    ensures Translation[x] == Translation[y]
  {
  }

  /** The characters that have a meaning of their own in a JavaScript
      regular expression, the dot apart. */
  predicate IsRegexSyntax(c: char)
  {
    c == '\\' || c == '^' || c == '$' || c == '|' || c == '?' || c == '*' || c == '+'
    || c == '(' || c == ')' || c == '[' || c == ']' || c == '{' || c == '}'
  }

  /** A target that `new RegExp("^" + target)` reads as literal characters
      and dots. */
  predicate PlainPattern(target: string)
  {
    forall k :: 0 <= k < |target| ==> !IsRegexSyntax(target[k])
  }

  /** The characters a regular-expression dot does not match. */
  predicate IsLineTerminator(c: char)
  {
    c == '\n' || c == '\r' || c == '\U{2028}' || c == '\U{2029}'
  }

  /** One pattern character against one label character. */
  predicate CharMatches(p: char, c: char)
  {
    p == c || (p == '.' && !IsLineTerminator(c))
  }

  /** `label.match(new RegExp("^" + target))` for a plain target: the
      label starts with as many characters as the target has, each matched
      by the target's character at that place. */
  predicate MatchesAtStart(text: string, target: string)
  {
    |target| <= |text| && forall k :: 0 <= k < |target| ==> CharMatches(target[k], text[k])
  }

  /** The candidates from position `from` on whose label the target's
      pattern matches, each label cut by `target.length`. */
  function PatternFilter(labels: seq<string>, target: string, from: nat): (r: seq<Hint>)
    requires from <= |labels|
    ensures forall h :: h in r ==>
      (from <= h.index < |labels| && MatchesAtStart(labels[h.index], target)
       && h.rest == labels[h.index][|target|..])
    ensures forall j {:trigger j in Indices(r)} :: from <= j < |labels| ==>
      (j in Indices(r) <==> MatchesAtStart(labels[j], target))
    decreases |labels| - from
  {
    if from == |labels| then []
    else
      var rest := PatternFilter(labels, target, from + 1);
      assert from !in Indices(rest) by {
        forall i | 0 <= i < |rest| ensures Indices(rest)[i] != from {
          assert rest[i] in rest;
        }
      }
      if MatchesAtStart(labels[from], target) then
        var r := [Hint(from, labels[from][|target|..])] + rest;
        assert Indices(r) == [from] + Indices(rest);
        r
      else rest
  }

  /** `filterHintables(hintables, target)`. A target with regular-expression
      syntax other than the dot is outside the model. */
  function FilterHintables(labels: seq<string>, target: string): (r: seq<Hint>)
    requires PlainPattern(target)
    ensures forall j {:trigger j in Indices(r)} :: 0 <= j < |labels| ==>
      (j in Indices(r) <==> MatchesAtStart(labels[j], target))
    ensures forall h :: h in r ==>
      h.index < |labels| && MatchesAtStart(labels[h.index], target) && h.rest == labels[h.index][|target|..]
  {
    PatternFilter(labels, target, 0)
  }

  /** Without a dot the pattern is the plain prefix test. */
  lemma NoDotMatchIsPrefix(text: string, target: string)
    requires '.' !in target
    ensures MatchesAtStart(text, target) <==> target <= text
  {
    if MatchesAtStart(text, target) {
      forall k | 0 <= k < |target| ensures target[k] == text[k] {
        assert CharMatches(target[k], text[k]);
        assert target[k] != '.' by { assert target[k] in target; }
      }
    }
  }

  /** Without a dot the filter is the prefix filter of the other hint
      scripts. */
  lemma {:induction false} NoDotFilterIsPrefixFilter(labels: seq<string>, target: string, from: nat)
    requires from <= |labels| && '.' !in target
    ensures PatternFilter(labels, target, from) == PrefixFilter(labels, target, from)
    decreases |labels| - from
  {
    if from < |labels| {
      NoDotMatchIsPrefix(labels[from], target);
      NoDotFilterIsPrefixFilter(labels, target, from + 1);
    }
  }

  /** The labels of `count` candidates. */
  function Hintables(count: nat): (r: seq<string>)
    ensures |r| == count
    ensures forall i :: 0 <= i < count ==> r[i] == HintLabel(i)
  {
    seq(count, i requires 0 <= i < count => HintLabel(i))
  }

  /** What `follow` does once the hintables are filtered. */
  datatype FollowResult =
    | Nothing                   // no label matches
    | Handle(index: nat)        // the one remaining candidate goes to the handler
    | Draw(hints: seq<Hint>)    // two or more remain and are drawn

  /** `follow(target, ...)` over `count` candidates. */
  function Follow(target: string, count: nat): (r: FollowResult)
    requires PlainPattern(target)
    ensures var f := FilterHintables(Hintables(count), target);
      (r == Nothing <==> |f| == 0) && (r.Handle? <==> |f| == 1)
      && (r.Handle? ==> r.index == f[0].index) && (r.Draw? ==> r.hints == f && |f| >= 2)
  {
    var f := FilterHintables(Hintables(count), target);
    if |f| == 0 then Nothing else if |f| == 1 then Handle(f[0].index) else Draw(f)
  }

  /** The characters of the translation table. */
  predicate IsTableLetter(c: char)
  {
    c == 'a' || c == 'r' || c == 's' || c == 't' || c == 'd'
    || c == 'h' || c == 'n' || c == 'e' || c == 'i' || c == 'o'
  }

  lemma TableLetter(d: nat)
    requires d < 10
    ensures |Translation[d]| == 1 && IsTableLetter(Translation[d][0])
  {
  }

  /** A table letter is no dot, no line terminator and no
      regular-expression syntax. */
  lemma LetterIsPlain(c: char)
    requires IsTableLetter(c)
    ensures c != '.' && !IsLineTerminator(c) && !IsRegexSyntax(c)
  {
  }

  lemma TranslatedLetters(p: string)
    requires AllDigits(p)
    ensures forall k :: 0 <= k < |Translate(p)| ==> IsTableLetter(Translate(p)[k])
  {
    forall k | 0 <= k < |Translate(p)| ensures IsTableLetter(Translate(p)[k]) {
      TableLetter(DigitValue(p[k]));
    }
  }

  /** Every character of a label is a table letter. */
  lemma HintLabelLetters(i: nat)
    ensures forall k :: 0 <= k < |HintLabel(i)| ==> IsTableLetter(HintLabel(i)[k])
  {
    HintLabelIsTranslatedPadding(i);
    PadLeftDigits(NatToDecimal(i), HintLength);
    TranslatedLetters(PadLeft(NatToDecimal(i), '0', HintLength));
  }

  /** A label is a plain pattern without a dot. */
  lemma HintLabelPlain(i: nat)
    ensures PlainPattern(HintLabel(i)) && '.' !in HintLabel(i)
  {
    var t := HintLabel(i);
    HintLabelLetters(i);
    forall k | 0 <= k < |t| ensures t[k] != '.' && !IsRegexSyntax(t[k]) {
      LetterIsPlain(t[k]);
    }
  }

  /** Typing a candidate's whole label hands exactly that candidate over:
      labels are distinct and all two characters long below 100 candidates,
      so no other label has it as a prefix. */
  lemma FullLabelHandles(i: nat, count: nat)
    requires i < count <= 100
    ensures PlainPattern(HintLabel(i)) && Follow(HintLabel(i), count) == Handle(i)
  {
    var labels := Hintables(count);
    var t := HintLabel(i);
    HintLabelPlain(i);
    NoDotFilterIsPrefixFilter(labels, t, 0);
    forall m | 0 <= m < |labels| && m != i ensures !(t <= labels[m]) {
      HintLabelWidth(i);
      HintLabelWidth(m);
      HintLabelsDistinct(i, m);
    }
    FilterSingle(labels, t, 0, i);
  }

  /** A typed dot is a regular-expression wildcard: every label of up to
      100 candidates matches it, so with two or more candidates all of them
      are drawn. */
  lemma DotDrawsEveryCandidate(count: nat)
    requires 2 <= count <= 100
    ensures PlainPattern(".")
    ensures var r := Follow(".", count);
      r.Draw? && forall i :: 0 <= i < count ==> i in Indices(r.hints)
  {
    DotKeepsAll(count, Hintables(count));
  }

  lemma DotKeepsAll(count: nat, labels: seq<string>)
    requires count <= 100 && labels == Hintables(count)
    ensures PlainPattern(".")
    ensures var f := FilterHintables(labels, ".");
      (count >= 2 ==> |f| >= 2) && forall i :: 0 <= i < count ==> i in Indices(f)
  {
    DotPlain();
    var f := FilterHintables(labels, ".");
    forall i | 0 <= i < count ensures i in Indices(f) {
      DotMatchesLabel(i, labels[i]);
      DotSurvivor(labels, i);
    }
    if count >= 2 {
      TwoIndices(f);
    }
  }

  lemma DotPlain()
    ensures PlainPattern(".")
  {
    assert !IsRegexSyntax("."[0]);
  }

  lemma DotSurvivor(labels: seq<string>, i: nat)
    requires i < |labels| && MatchesAtStart(labels[i], ".")
    ensures PlainPattern(".") && i in Indices(FilterHintables(labels, "."))
  {
    DotPlain();
  }

  lemma DotMatchesLabel(i: nat, t: string)
    requires i < 100 && t == HintLabel(i)
    ensures MatchesAtStart(t, ".")
  {
    HintLabelWidth(i);
    HintLabelLetters(i);
    LetterIsPlain(t[0]);
    assert CharMatches("."[0], t[0]);
  }

  /** Two different positions need two survivors. */
  lemma TwoIndices(hs: seq<Hint>)
    requires 0 in Indices(hs) && 1 in Indices(hs)
    ensures |hs| >= 2
  {
    var a :| 0 <= a < |hs| && Indices(hs)[a] == 0;
    var b :| 0 <= b < |hs| && Indices(hs)[b] == 1;
    assert a != b;
  }

  /** Below 100 candidates every label is exactly two characters. */
  lemma HintLabelWidth(i: nat)
    requires i < 100
    ensures |HintLabel(i)| == 2
  {
    var d := NatToDecimal(i);
    DigitCountUpper(i, 10);
    assert Pow(10, 2) == 100;
    DigitCountIsLeast(i, 10, 2);
    HintLabelIsTranslatedPadding(i);
  }
}
