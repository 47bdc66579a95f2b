/** `utf8_encode` and `utf8_decode` of examples/data/uzbl/scripts/extedit.js,
    which carry a form field's text to an external editor and back as
    UTF-8 bytes held one per JavaScript code unit.

    The bit operations of the script are written here as arithmetic: for
    the non-negative operands involved, `c >> k` is `c / 2^k`, `c & (2^k-1)`
    is `c % 2^k`, and each `|` joins fields whose bits do not overlap, so it
    is a sum. Code units are 16-bit, as `charCodeAt` returns them; a
    surrogate pair is two code units and is encoded as two 3-byte groups. */
module Utf8 {

  /** A UTF-16 code unit, the value `charCodeAt` returns. */
  type Unit = x: int | 0 <= x < 0x1_0000

  /** What `utf8_encode` emits for one code unit (lines 62-68). */
  function EncodeUnit(c: Unit): (r: seq<Unit>)
    ensures |r| == 1 <==> c < 128
    ensures |r| == 2 <==> 128 <= c < 2048
    ensures |r| == 3 <==> c >= 2048
    ensures |r| == 1 ==> r[0] == c
    ensures |r| == 2 ==> 192 <= r[0] <= 223
    ensures |r| == 3 ==> 224 <= r[0] <= 239
    ensures forall i :: 1 <= i < |r| ==> 128 <= r[i] <= 191
  {
    if c < 128 then [c]
    else if c < 2048 then [c / 64 + 192, c % 64 + 128]
    else [c / 4096 + 224, (c / 64) % 64 + 128, c % 64 + 128]
  }

  /** The UTF-8 form of a whole string. */
  function Encode(s: seq<Unit>): seq<Unit>
  {
    if |s| == 0 then [] else EncodeUnit(s[0]) + Encode(s[1..])
  }

  lemma {:induction false} EncodeAppend(s: seq<Unit>, c: Unit)
    ensures Encode(s + [c]) == Encode(s) + EncodeUnit(c)
    decreases |s|
  {
    if |s| == 0 {
      assert s + [c] == [c];
    } else {
      assert (s + [c])[1..] == s[1..] + [c];
      EncodeAppend(s[1..], c);
    }
  }

  /** `utf8_encode` as the script runs it: runs of ASCII code units are
      copied as substrings when the run ends, every other code unit is
      replaced by its byte group. */
  method Utf8Encode(s: seq<Unit>) returns (utftext: seq<Unit>)
    ensures utftext == Encode(s)
  {
    var start, end := 0, 0;
    utftext := [];
    var n := 0;
    while n < |s|
      invariant 0 <= start <= end == n <= |s|
      invariant (utftext + s[start..n]) + EncodeFrom(s, n) == EncodeFrom(s, 0)
    {
      var c1 := s[n];
      if c1 < 128 {
        AsciiStep(s, start, n, utftext, EncodeFrom(s, 0));
        end := end + 1;
      } else {
        var enc := EncodeUnit(c1);
        ghost var u0, run := utftext, s[start..n];
        if end > start {
          utftext := utftext + s[start..end];
        }
        ghost var mid := utftext;
        utftext := utftext + enc;
        start, end := n + 1, n + 1;
        FlushStep(s, n, u0, run, mid, utftext, EncodeFrom(s, 0));
      }
      n := n + 1;
    }
    ghost var u0 := utftext;
    if end > start {
      utftext := utftext + s[start..];
    }
    FinalFlush(s, start, u0, utftext);
  }

  /** The encoder's output from index `i` on, one code unit at a time. */
  function EncodeFrom(s: seq<Unit>, i: nat): seq<Unit>
    decreases |s| - i
  {
    if i >= |s| then [] else EncodeUnit(s[i]) + EncodeFrom(s, i + 1)
  }

  /** Encoding from index `i` is encoding the input from `i` on. */
  lemma {:induction false} EncodeFromSuffix(s: seq<Unit>, i: nat)
    requires i <= |s|
    ensures EncodeFrom(s, i) == Encode(s[i..])
    decreases |s| - i
  {
    if i < |s| {
      EncodeFromSuffix(s, i + 1);
      assert s[i..][1..] == s[i + 1..];
    }
  }

  /** An ASCII code unit joins the pending run. */
  lemma AsciiStep(s: seq<Unit>, start: nat, n: nat, u: seq<Unit>, whole: seq<Unit>)
    requires start <= n < |s| && s[n] < 128
    requires (u + s[start..n]) + EncodeFrom(s, n) == whole
    ensures (u + s[start..n + 1]) + EncodeFrom(s, n + 1) == whole
  {
    EncodeFromStep(s, n);
    RunGrows(s, start, n);
    Shift(u, s[start..n], EncodeUnit(s[n]), EncodeFrom(s, n), EncodeFrom(s, n + 1), s[start..n + 1], whole);
  }

  /** Any other code unit flushes the pending run and emits its group. */
  lemma FlushStep(s: seq<Unit>, n: nat, u0: seq<Unit>, run: seq<Unit>, mid: seq<Unit>, u1: seq<Unit>, whole: seq<Unit>)
    requires n < |s| && s[n] >= 128
    requires (u0 + run) + EncodeFrom(s, n) == whole
    requires mid == u0 + run || (run == [] && mid == u0)
    requires u1 == mid + EncodeUnit(s[n])
    ensures (u1 + s[n + 1..n + 1]) + EncodeFrom(s, n + 1) == whole
  {
    EncodeFromStep(s, n);
    EmptyAt(s, n + 1);
    Flush(u0, run, mid, EncodeUnit(s[n]), EncodeFrom(s, n), EncodeFrom(s, n + 1), u1, s[n + 1..n + 1], whole);
  }

  lemma EncodeFromStep(s: seq<Unit>, n: nat)
    requires n < |s|
    ensures EncodeFrom(s, n) == EncodeUnit(s[n]) + EncodeFrom(s, n + 1)
  {
  }

  lemma RunGrows(s: seq<Unit>, start: nat, n: nat)
    requires start <= n < |s|
    ensures s[start..n + 1] == s[start..n] + [s[n]]
  {
  }

  lemma EmptyAt(s: seq<Unit>, n: nat)
    requires n <= |s|
    ensures s[n..n] == []
  {
  }

  /** One unit moved from the encoding still to come to the pending run. */
  lemma Shift(u: seq<Unit>, run: seq<Unit>, e: seq<Unit>, rest: seq<Unit>, rest': seq<Unit>, run': seq<Unit>,
              whole: seq<Unit>)
    requires (u + run) + rest == whole && rest == e + rest' && |e| == 1 && run' == run + e
    ensures (u + run') + rest' == whole
  {
    assert (u + run) + (e + rest') == (u + (run + e)) + rest';
  }

  /** The pending run and a group moved from the encoding still to come to
      the output. */
  lemma Flush(u0: seq<Unit>, run: seq<Unit>, mid: seq<Unit>, e: seq<Unit>, rest: seq<Unit>, rest': seq<Unit>,
              u1: seq<Unit>, empty: seq<Unit>, whole: seq<Unit>)
    requires (u0 + run) + rest == whole && rest == e + rest'
    requires mid == u0 + run || (run == [] && mid == u0)
    requires u1 == mid + e && empty == []
    ensures (u1 + empty) + rest' == whole
  {
    assert mid == u0 + run;
    assert (mid + e) + rest' == mid + (e + rest');
    assert u1 + empty == u1;
  }

  /** After the loop the pending run is copied and the output is the
      whole encoding. */
  lemma FinalFlush(s: seq<Unit>, start: nat, u0: seq<Unit>, u1: seq<Unit>)
    requires start <= |s|
    requires (u0 + s[start..|s|]) + EncodeFrom(s, |s|) == EncodeFrom(s, 0)
    requires (start < |s| && u1 == u0 + s[start..]) || (start == |s| && u1 == u0)
    ensures u1 == Encode(s)
  {
    EncodeFromSuffix(s, 0);
    assert s[0..] == s;
    assert s[start..] == s[start..|s|];
    assert EncodeFrom(s, |s|) == [];
  }

  /** The code unit at `i`, or 0 past the end: `charCodeAt` returns NaN
      there, and `NaN & 63` is 0. */
  function At(s: seq<Unit>, i: nat): Unit
  {
    if i < |s| then s[i] else 0
  }

  /** How many code units `utf8_decode` consumes for a lead unit (lines
      30-42): one below 128, two for 192-223, three for everything else,
      continuation bytes 128-191 included. */
  function Width(c1: Unit): (r: nat)
  {
    if c1 < 128 then 1 else if 191 < c1 < 224 then 2 else 3
  }

  /** The code unit assembled from a lead unit and the two after it
      (lines 30-41); only as many of them are used as `Width` says. */
  function Assemble(c1: Unit, c2: Unit, c3: Unit): Unit
  {
    if c1 < 128 then c1
    else if 191 < c1 < 224 then (c1 % 32) * 64 + c2 % 64
    else (c1 % 16) * 4096 + (c2 % 64) * 64 + c3 % 64
  }

  /** The code unit `utf8_decode` assembles from the group at the front. */
  function DecodeUnit(s: seq<Unit>): Unit
    requires |s| > 0
  {
    Assemble(s[0], At(s, 1), At(s, 2))
  }

  function Min(a: nat, b: nat): nat
  {
    if a < b then a else b
  }

  /** The decoded string; a group cut off by the end of the input is
      completed with zero bits. */
  function Decode(s: seq<Unit>): seq<Unit>
    decreases |s|
  {
    if |s| == 0 then [] else [DecodeUnit(s)] + Decode(s[Min(Width(s[0]), |s|)..])
  }

  /** `utf8_decode` as the script runs it, with the index that can step
      past the end of the input. */
  method Utf8Decode(s: seq<Unit>) returns (r: seq<Unit>)
    ensures r == Decode(s)
  {
    var tmp: seq<Unit> := [];
    var i: nat := 0;
    while i < |s|
      invariant tmp + DecodeFrom(s, i) == DecodeFrom(s, 0)
      decreases |s| - i
    {
      var w := Width(s[i]);
      var u := Assemble(s[i], At(s, i + 1), At(s, i + 2));
      Regroup(tmp, u, DecodeFrom(s, i), DecodeFrom(s, i + w), DecodeFrom(s, 0));
      tmp := tmp + [u];
      i := i + w;
    }
    DecodeFromSuffix(s, 0);
    assert s[Min(0, |s|)..] == s;
    r := tmp;
  }

  /** The decoder's output from index `i` on, step by step as the loop
      goes. */
  function DecodeFrom(s: seq<Unit>, i: nat): seq<Unit>
    decreases |s| - i
  {
    if i >= |s| then [] else [Assemble(s[i], At(s, i + 1), At(s, i + 2))] + DecodeFrom(s, i + Width(s[i]))
  }

  lemma Regroup(tmp: seq<Unit>, u: Unit, d: seq<Unit>, d': seq<Unit>, whole: seq<Unit>)
    requires tmp + d == whole && d == [u] + d'
    ensures (tmp + [u]) + d' == whole
  {
    assert tmp + ([u] + d') == (tmp + [u]) + d';
  }

  /** Decoding from index `i` is decoding the input from `i` on. */
  lemma {:induction false} DecodeFromSuffix(s: seq<Unit>, i: nat)
    ensures DecodeFrom(s, i) == Decode(s[Min(i, |s|)..])
    decreases |s| - i
  {
    if i < |s| {
      var j := i + Width(s[i]);
      DecodeFromSuffix(s, j);
      DecodeFromStep(s, i, j);
      DecodeAtMin(s, i, j);
      SameFront(DecodeFrom(s, i), Decode(s[Min(i, |s|)..]), Assemble(s[i], At(s, i + 1), At(s, i + 2)),
                DecodeFrom(s, j), Decode(s[Min(j, |s|)..]));
    } else {
      assert s[Min(i, |s|)..] == [];
    }
  }

  lemma DecodeAtMin(s: seq<Unit>, i: nat, j: nat)
    requires i < |s| && j == i + Width(s[i])
    ensures Decode(s[Min(i, |s|)..]) == [Assemble(s[i], At(s, i + 1), At(s, i + 2))] + Decode(s[Min(j, |s|)..])
  {
    DecodeAt(s, i);
    assert Min(i, |s|) == i;
  }

  lemma DecodeFromStep(s: seq<Unit>, i: nat, j: nat)
    requires i < |s| && j == i + Width(s[i])
    ensures DecodeFrom(s, i) == [Assemble(s[i], At(s, i + 1), At(s, i + 2))] + DecodeFrom(s, j)
  {
  }

  lemma SameFront(a: seq<Unit>, c: seq<Unit>, x: Unit, b: seq<Unit>, d: seq<Unit>)
    requires a == [x] + b && c == [x] + d && b == d
    ensures a == c
  {
  }

  /** One step of the decoder at position `i`, reading past the end as 0. */
  lemma DecodeAt(s: seq<Unit>, i: nat)
    requires i < |s|
    ensures Decode(s[i..]) == [Assemble(s[i], At(s, i + 1), At(s, i + 2))]
                              + Decode(s[Min(i + Width(s[i]), |s|)..])
  {
    var t := s[i..];
    assert t[0] == s[i];
    assert At(t, 1) == At(s, i + 1);
    assert At(t, 2) == At(s, i + 2);
    assert t[Min(Width(t[0]), |t|)..] == s[Min(i + Width(s[i]), |s|)..];
  }

  /** Every code unit survives a trip through the encoder and the
      decoder: the lead unit the encoder writes selects a width equal to
      the group's length, and the fields put together again give the
      code unit. */
  lemma UnitRoundTrip(c: Unit, t: seq<Unit>)
    ensures var e := EncodeUnit(c);
            Width(e[0]) == |e| && DecodeUnit(e + t) == c
  {
    if 128 <= c < 2048 {
      TwoUnitRoundTrip(c, t);
    } else if c >= 2048 {
      ThreeUnitRoundTrip(c, t);
    }
  }

  lemma TwoUnitRoundTrip(c: Unit, t: seq<Unit>)
    requires 128 <= c < 2048
    ensures Width(EncodeUnit(c)[0]) == 2 && DecodeUnit(EncodeUnit(c) + t) == c
  {
    var e := EncodeUnit(c);
    var q := c / 64;
    assert e == [q + 192, c % 64 + 128];
    assert c == q * 64 + c % 64;
    assert (q + 192) % 32 == q;
    assert (c % 64 + 128) % 64 == c % 64;
    assert (e + t)[0] == e[0] && (e + t)[1] == e[1];
  }

  lemma ThreeUnitRoundTrip(c: Unit, t: seq<Unit>)
    requires c >= 2048
    ensures Width(EncodeUnit(c)[0]) == 3 && DecodeUnit(EncodeUnit(c) + t) == c
  {
    var e := EncodeUnit(c);
    var h, m := c / 4096, (c / 64) % 64;
    assert e == [h + 224, m + 128, c % 64 + 128];
    assert c == h * 4096 + m * 64 + c % 64 by {
      assert c / 64 == h * 64 + m;
    }
    assert (h + 224) % 16 == h;
    assert (m + 128) % 64 == m;
    assert (c % 64 + 128) % 64 == c % 64;
    assert (e + t)[0] == e[0] && (e + t)[1] == e[1] && (e + t)[2] == e[2];
  }

  /** `utf8_decode(utf8_encode(s)) == s` for every string of code units. */
  lemma {:induction false} RoundTrip(s: seq<Unit>)
    ensures Decode(Encode(s)) == s
    decreases |s|
  {
    if |s| > 0 {
      var e := EncodeUnit(s[0]);
      var rest := Encode(s[1..]);
      UnitRoundTrip(s[0], rest);
      assert Encode(s) == e + rest;
      assert (e + rest)[0] == e[0];
      assert (e + rest)[Min(|e|, |e + rest|)..] == rest;
      RoundTrip(s[1..]);
      assert s == [s[0]] + s[1..];
    }
  }

  predicate Ascii(s: seq<Unit>) {
    forall i :: 0 <= i < |s| ==> s[i] < 128
  }

  /** A string of ASCII code units is its own UTF-8 form. */
  lemma {:induction false} AsciiEncode(s: seq<Unit>)
    requires Ascii(s)
    ensures Encode(s) == s
    decreases |s|
  {
    if |s| > 0 {
      AsciiEncode(s[1..]);
      assert s == [s[0]] + s[1..];
    }
  }

  /** ASCII bytes decode to themselves. */
  lemma {:induction false} AsciiDecode(s: seq<Unit>)
    requires Ascii(s)
    ensures Decode(s) == s
    decreases |s|
  {
    if |s| > 0 {
      AsciiDecode(s[1..]);
      assert s == [s[0]] + s[1..];
    }
  }

  /** The encoder's output consists of bytes, and its length is the input
      length plus one for every code unit from 128 and two for every one
      from 2048. */
  lemma {:induction false} EncodeBytes(s: seq<Unit>)
    ensures forall i :: 0 <= i < |Encode(s)| ==> Encode(s)[i] < 256
    ensures |Encode(s)| == |s| + Wide(s)
    decreases |s|
  {
    if |s| > 0 {
      EncodeBytes(s[1..]);
      var e, rest := EncodeUnit(s[0]), Encode(s[1..]);
      assert Encode(s) == e + rest;
      forall i | 0 <= i < |e + rest| ensures (e + rest)[i] < 256 {
        if i >= |e| {
          assert (e + rest)[i] == rest[i - |e|];
        }
      }
    }
  }

  /** The number of extra bytes the encoder writes. */
  function Wide(s: seq<Unit>): nat
  {
    if |s| == 0 then 0 else (if s[0] >= 2048 then 2 else if s[0] >= 128 then 1 else 0) + Wide(s[1..])
  }
}
