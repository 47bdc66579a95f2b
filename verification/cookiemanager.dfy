/** The request handling of examples/uzbl-cookie-manager.c, the daemon that
    keeps the browser's cookies: the whitelist file that decides which
    hosts may set cookies, and the NUL-separated request packets
    ("GET", scheme, host, path; "PUT", scheme, host, path, name=value).

    C strings are sequences of `char`, one per byte, with NUL ('\0')
    ending a string. The cookie jar is a parameter: `jar` is what
    `soup_cookie_jar_get_cookies` returns for an address (`None` for
    NULL), and a PUT reports the cookie it adds instead of changing a jar.
    The socket loop, the file reading and the reload on a newer mtime are
    not modelled. */
module CookieManager {
  import opened Wrappers
  import opened Text

  const Nul: char := '\0'

  /* ------------------------------------------------------------ whitelist */

  /** `whitelist_line_cb(line)` (lines 67-85): the entry a whitelist line
      adds, or `None` for a comment or a blank line. */
  function WhitelistLine(line: string): (r: Option<string>)
    ensures r.None? <==> Skipped(line)
    ensures r.Some? ==> |r.value| >= 1 && r.value[0] == '.' && !IsCSpace(r.value[|r.value| - 1])
  {
    var p := LStrip(line, IsCSpace);
    if |p| == 0 || p[0] == '#' then None else Some(Normalise(p))
  }

  /** A blank line, or a comment: '#' after leading white space. */
  predicate Skipped(line: string) {
    var p := LStrip(line, IsCSpace);
    |p| == 0 || p[0] == '#'
  }

  /** A '.' in front unless there is one, and the end chomped. */
  function Normalise(p: string): (r: string)
    requires |p| > 0 && !IsCSpace(p[0])
    ensures |r| >= 1 && r[0] == '.' && !IsCSpace(r[|r| - 1])
  {
    var norm := if p[0] == '.' then p else "." + p;
    RStripKeepsHead(norm, IsCSpace);
    RStrip(norm, IsCSpace)
  }

  /** A text whose first character is not removed keeps it. */
  lemma RStripKeepsHead(s: string, sp: char -> bool)
    requires |s| > 0 && !sp(s[0])
    ensures |RStrip(s, sp)| > 0 && RStrip(s, sp)[0] == s[0]
  {
    var r := RStrip(s, sp);
    assert !sp(s[0]);
  }

  /** Stripping the end of a text does not touch a non-empty kept front. */
  lemma {:induction false} RStripAfter(x: string, p: string, sp: char -> bool)
    requires |p| > 0 && !sp(p[0])
    ensures RStrip(x + p, sp) == x + RStrip(p, sp)
    decreases |p|
  {
    var s := x + p;
    assert s[|s| - 1] == p[|p| - 1];
    if sp(p[|p| - 1]) {
      assert |p| > 1;
      assert s[..|s| - 1] == x + p[..|p| - 1];
      RStripAfter(x, p[..|p| - 1], sp);
    }
  }

  /** An entry is the trimmed line, with a '.' put in front unless it
      already has one. */
  lemma WhitelistEntryIsTrimmed(line: string)
    requires WhitelistLine(line).Some?
    ensures var t := Strip(line, IsCSpace);
            |t| > 0 && WhitelistLine(line) == Some(if t[0] == '.' then t else "." + t)
  {
    var p := LStrip(line, IsCSpace);
    RStripKeepsHead(p, IsCSpace);
    assert WhitelistLine(line) == Some(Normalise(p));
    if p[0] != '.' {
      RStripAfter(".", p, IsCSpace);
    }
  }

  /** The entries `load_whitelist` collects from the lines of the file, in
      order. */
  function LoadWhitelist(lines: seq<string>): (r: seq<string>)
    ensures |r| <= |lines|
    ensures forall k :: 0 <= k < |r| ==> |r[k]| >= 1 && r[k][0] == '.'
  {
    if |lines| == 0 then []
    else
      var rest := LoadWhitelist(lines[1..]);
      match WhitelistLine(lines[0])
      case None => rest
      case Some(e) => [e] + rest
  }

  /** Every entry comes from a line of the file, and every line that is
      neither blank nor a comment gives one. */
  lemma {:induction false} WhitelistEntries(lines: seq<string>, e: string)
    ensures e in LoadWhitelist(lines) <==> exists i :: 0 <= i < |lines| && WhitelistLine(lines[i]) == Some(e)
    decreases |lines|
  {
    if |lines| > 0 {
      var tail := lines[1..];
      WhitelistEntries(tail, e);
      LoadWhitelistCons(lines, e);
      LinesCons(lines, e);
    }
  }

  /** The entry of the first line, then those of the rest. */
  lemma LoadWhitelistCons(lines: seq<string>, e: string)
    requires |lines| > 0
    ensures e in LoadWhitelist(lines) <==> WhitelistLine(lines[0]) == Some(e) || e in LoadWhitelist(lines[1..])
  {
  }

  /** A line giving `e` is the first line or one of the rest. */
  lemma LinesCons(lines: seq<string>, e: string)
    requires |lines| > 0
    ensures (exists i :: 0 <= i < |lines| && WhitelistLine(lines[i]) == Some(e))
            <==> WhitelistLine(lines[0]) == Some(e) || exists j :: 0 <= j < |lines[1..]| && WhitelistLine(lines[1..][j]) == Some(e)
  {
    SomeCons(lines, WhitelistLine, e);
  }

  /** An element giving `e` under `f` is the first or one of the rest. */
  lemma SomeCons(xs: seq<string>, f: string -> Option<string>, e: string)
    requires |xs| > 0
    ensures (exists i :: 0 <= i < |xs| && f(xs[i]) == Some(e))
            <==> f(xs[0]) == Some(e) || exists j :: 0 <= j < |xs[1..]| && f(xs[1..][j]) == Some(e)
  {
    var tail := xs[1..];
    if exists i :: 0 <= i < |xs| && f(xs[i]) == Some(e) {
      var i :| 0 <= i < |xs| && f(xs[i]) == Some(e);
      if i > 0 {
        assert tail[i - 1] == xs[i];
      }
    }
    if exists j :: 0 <= j < |tail| && f(tail[j]) == Some(e) {
      var j :| 0 <= j < |tail| && f(tail[j]) == Some(e);
      assert xs[j + 1] == tail[j];
    }
  }

  /** The host as it is compared: with a '.' in front (line 118). */
  function NormHost(host: string): (r: string)
    ensures |r| >= 1 && r[0] == '.'
  {
    if |host| > 0 && host[0] == '.' then host else "." + host
  }

  /** `should_save_cookie(host)` (lines 113-137) with the whitelist read
      from the file, or `None` when there is no readable file. */
  function ShouldSave(whitelist: Option<seq<string>>, host: string): (r: bool)
    ensures whitelist.None? ==> r
    ensures whitelist.Some? ==>
              (r <==> exists i :: 0 <= i < |whitelist.value| && EndsWith(NormHost(host), whitelist.value[i]))
  {
    match whitelist
    case None => true
    case Some(entries) => AnyEntry(entries, NormHost(host))
  }

  function AnyEntry(entries: seq<string>, h: string): (r: bool)
    ensures r <==> exists i :: 0 <= i < |entries| && EndsWith(h, entries[i])
  {
    if |entries| == 0 then false
    else if EndsWith(h, entries[0]) then true
    else
      var rest := AnyEntry(entries[1..], h);
      assert forall i :: 1 <= i < |entries| ==> entries[i] == entries[1..][i - 1];
      rest
  }

  /** The loop of `should_save_cookie` as it is written, stopping at the
      first entry the host ends with. */
  method ShouldSaveCookie(whitelist: Option<seq<string>>, host: string) returns (result: bool)
    ensures result == ShouldSave(whitelist, host)
  {
    if whitelist.None? {
      return true;
    }
    var entries := whitelist.value;
    var testHost := NormHost(host);
    var hl := |testHost|;
    result := false;
    var i := 0;
    while i < |entries|
      invariant 0 <= i <= |entries|
      invariant !result
      invariant forall j :: 0 <= j < i ==> !EndsWith(testHost, entries[j])
    {
      var el := |entries[i]|;
      result := el <= hl && testHost[hl - el..] == entries[i];
      if result {
        break;
      }
      i := i + 1;
    }
  }

  /** Entries match on label boundaries only: a host is saved by the entry
      of `d` exactly when it is `d` or ends with "." + `d`, so the entry of
      "example.com" does not save "badexample.com". */
  lemma LabelBoundary(host: string, d: string)
    requires |host| > 0 && host[0] != '.'
    requires |d| > 0 && d[0] != '.'
    ensures ShouldSave(Some(["." + d]), host) <==> host == d || EndsWith(host, "." + d)
  {
    assert NormHost(host) == "." + host;
    assert ["." + d][0] == "." + d;
    DotSuffix(host, d);
  }

  lemma DotSuffix(host: string, d: string)
    ensures EndsWith("." + host, "." + d) <==> host == d || EndsWith(host, "." + d)
  {
    var h, e := "." + host, "." + d;
    if |d| < |host| {
      assert h[|h| - |e|..] == host[|host| - |e|..];
    } else if |d| == |host| {
      assert h[|h| - |e|..] == h;
      assert h == e <==> host == d by {
        assert h[1..] == host && e[1..] == d;
      }
    }
  }

  /** A whitelisted host is saved, and so is any host in its domain. */
  lemma SubdomainSaved(sub: string, host: string, whitelist: seq<string>)
    requires |host| > 0 && host[0] != '.' && |sub| > 0 && sub[0] != '.'
    requires "." + host in whitelist
    ensures ShouldSave(Some(whitelist), host)
    ensures ShouldSave(Some(whitelist), sub + "." + host)
  {
    var i :| 0 <= i < |whitelist| && whitelist[i] == "." + host;
    var h1 := NormHost(host);
    var h2 := NormHost(sub + "." + host);
    assert (sub + "." + host)[0] == sub[0];
    assert h1 == "." + host;
    assert EndsWith(h1, whitelist[i]);
    assert h2 == "." + sub + "." + host;
    assert h2[|h2| - |whitelist[i]|..] == "." + host;
  }

  /* -------------------------------------------------------------- requests */

  /** `strlen` of the C string starting at `i` of a buffer that holds a
      NUL at `len`. */
  function CStrLen(b: string, i: nat, len: nat): (r: nat)
    requires i <= len < |b| && b[len] == Nul
    ensures i + r <= len
    decreases len - i
  {
    if b[i] == Nul then 0 else 1 + CStrLen(b, i + 1, len)
  }

  /** `strlen` stops at the first NUL. */
  lemma {:induction false} CStrLenFacts(b: string, i: nat, len: nat)
    requires i <= len < |b| && b[len] == Nul
    ensures b[i + CStrLen(b, i, len)] == Nul
    ensures forall j :: i <= j < i + CStrLen(b, i, len) ==> b[j] != Nul
    decreases len - i
  {
    if b[i] != Nul {
      CStrLenFacts(b, i + 1, len);
    }
  }

  /** The C string starting at `i`. */
  function CStrAt(b: string, i: nat, len: nat): (r: string)
    requires i <= len < |b| && b[len] == Nul
    ensures i + |r| <= len
  {
    b[i..i + CStrLen(b, i, len)]
  }

  /** The C string is the text up to the first NUL from `i`. */
  lemma CStrAtFacts(b: string, i: nat, len: nat)
    requires i <= len < |b| && b[len] == Nul
    ensures var r := CStrAt(b, i, len);
            b[i + |r|] == Nul && r == b[i..i + |r|]
            && forall j :: i <= j < i + |r| ==> b[j] != Nul
  {
    CStrLenFacts(b, i, len);
  }

  /** The four fields every request starts with, and where a fifth would
      start. */
  datatype Request = Request(command: string, scheme: string, host: string, path: string, next: nat)

  /** Lines 140-158: each field starts one past the NUL of the one before,
      and a field that would start beyond the received length makes the
      request malformed. The command starts at 0, and the path is read
      wherever it starts, even at the NUL after the received bytes. */
  function ParseRequest(b: string, len: nat): (r: Option<Request>)
    requires len < |b| && b[len] == Nul
    ensures r.Some? ==> var q := r.value;
              q.next == |q.command| + |q.scheme| + |q.host| + |q.path| + 4 && q.next <= len + 1
  {
    var command := CStrAt(b, 0, len);
    var s := |command| + 1;
    if s > len then None
    else
      var scheme := CStrAt(b, s, len);
      var h := s + |scheme| + 1;
      if h > len then None
      else
        var host := CStrAt(b, h, len);
        var p := h + |host| + 1;
        if p > len then None
        else
          var path := CStrAt(b, p, len);
          Some(Request(command, scheme, host, path, p + |path| + 1))
  }

  /** A cookie as `soup_cookie_new` gets it. */
  datatype Cookie = Cookie(name: string, value: string, host: string, path: string)

  /** What handling one packet does. */
  datatype Handled =
    | Malformed                                    // "got malformed or partial request"
    | Done(written: Option<string>, added: Option<Cookie>)
    | NullDeref                                    // PUT without '=' for a saved host

  const Get := "GET"
  const Put := "PUT"

  /** The address the fields are glued into (line 161). */
  function Address(scheme: string, host: string, path: string): string
  {
    scheme + "://" + host + path
  }

  /** The part of a string `strlen` counts. */
  function CString(s: string): string
  {
    s[..IndexOfChar(s, Nul)]
  }

  /** `handle_request(j, buff, len, fd)` (lines 139-206) on the `len`
      received bytes `data`, with the NUL the loop writes after them. The
      jar's answer for an address is a parameter; `None` is the NULL
      result. */
  function HandleRequest(data: string, jar: string -> Option<string>, whitelist: Option<seq<string>>): (r: Handled)
  {
    var b := data + [Nul];
    var len := |data|;
    match ParseRequest(b, len)
    case None => Malformed
    case Some(q) =>
      if q.command == Get then
        Done(Some(CString(jar(Address(q.scheme, q.host, q.path)).GetOr("")) + [Nul]), None)
      else if q.command == Put then
        if q.next > len then Malformed
        else
          var nameVal := CStrAt(b, q.next, len);
          if !ShouldSave(whitelist, q.host) then Done(Some([Nul]), None)
          else
            var k := IndexOfChar(nameVal, '=');
            if k == |nameVal| then NullDeref
            else Done(Some([Nul]), Some(Cookie(nameVal[..k], nameVal[k + 1..], q.host, q.path)))
      else Done(None, None)
  }

  /** The packet `talk_to_socket` sends: each field followed by a NUL
      (uzbl-core.c:1457-1460). */
  function EncodeRequest(fields: seq<string>): (r: string)
    ensures |r| >= |fields|
  {
    if |fields| == 0 then "" else fields[0] + [Nul] + EncodeRequest(fields[1..])
  }

  predicate NoNul(fields: seq<string>) {
    forall i :: 0 <= i < |fields| ==> Nul !in fields[i]
  }

  /** The first field of an encoded packet held in a buffer is read back,
      and the rest of the packet follows its NUL. */
  lemma EncodedHead(b: string, i: nat, fields: seq<string>, len: nat)
    requires |fields| > 0 && len < |b| && b[len] == Nul && Nul !in fields[0]
    requires i + |EncodeRequest(fields)| <= len + 1
    requires b[i..i + |EncodeRequest(fields)|] == EncodeRequest(fields)
    ensures i <= len && CStrAt(b, i, len) == fields[0]
    ensures var j, e := i + |fields[0]| + 1, EncodeRequest(fields[1..]);
            j + |e| <= len + 1 && b[j..j + |e|] == e
  {
    var f, e := fields[0], EncodeRequest(fields[1..]);
    assert EncodeRequest(fields) == f + [Nul] + e;
    HeadField(b, i, f, e, len);
  }

  /** The first field of `f`, a NUL and `e`, and where `e` is. */
  lemma HeadField(b: string, i: nat, f: string, e: string, len: nat)
    requires len < |b| && b[len] == Nul && Nul !in f
    requires i + |f| + 1 + |e| <= len + 1
    requires b[i..i + |f| + 1 + |e|] == f + [Nul] + e
    ensures i <= len && CStrAt(b, i, len) == f
    ensures b[i + |f| + 1..i + |f| + 1 + |e|] == e
  {
    var w := b[i..i + |f| + 1 + |e|];
    assert b[i..i + |f|] == w[..|f|] == f;
    assert b[i + |f|] == w[|f|] == Nul;
    CStrOfField(b, i, f, len);
    assert b[i + |f| + 1..i + |f| + 1 + |e|] == w[|f| + 1..];
  }

  /** The C string at the start of a field is the field. */
  lemma CStrOfField(b: string, i: nat, f: string, len: nat)
    requires i <= len < |b| && b[len] == Nul && Nul !in f
    requires i + |f| < |b| && b[i..i + |f|] == f && b[i + |f|] == Nul
    ensures CStrAt(b, i, len) == f
  {
    var r := CStrAt(b, i, len);
    CStrAtFacts(b, i, len);
    assert forall j :: 0 <= j < |f| ==> b[i + j] == f[j];
    assert forall j :: i <= j < i + |f| ==> b[j] != Nul by {
      forall j | i <= j < i + |f| ensures b[j] != Nul {
        assert b[j] == f[j - i];
      }
    }
    assert |r| == |f|;
  }

  /** The four C strings at the starts the parse computes are `c`, `sc`,
      `h` and `p`, each start within the received bytes. */
  predicate FourFields(b: string, len: nat, c: string, sc: string, h: string, p: string)
  {
    len < |b| && b[len] == Nul && CStrAt(b, 0, len) == c
    && |c| + 1 <= len && CStrAt(b, |c| + 1, len) == sc
    && |c| + 1 + |sc| + 1 <= len && CStrAt(b, |c| + 1 + |sc| + 1, len) == h
    && |c| + 1 + |sc| + 1 + |h| + 1 <= len && CStrAt(b, |c| + 1 + |sc| + 1 + |h| + 1, len) == p
  }

  /** A buffer that starts with four NUL-terminated fields holds them at
      the starts the parse computes. */
  lemma ReadFourFields(b: string, len: nat, c: string, sc: string, h: string, p: string, rest: string)
    requires len < |b| && b[len] == Nul
    requires Nul !in c && Nul !in sc && Nul !in h && Nul !in p
    requires var w := c + [Nul] + (sc + [Nul] + (h + [Nul] + (p + [Nul] + rest)));
             |w| <= len + 1 && b[0..|w|] == w
    ensures FourFields(b, len, c, sc, h, p)
  {
    var t2 := h + [Nul] + (p + [Nul] + rest);
    var i2 := |c| + 1 + |sc| + 1;
    assert CStrAt(b, 0, len) == c && |c| + 1 <= len && CStrAt(b, |c| + 1, len) == sc
           && b[i2..i2 + |t2|] == t2 by {
      TwoFields(b, len, 0, c, sc, t2);
    }
    assert i2 <= len && CStrAt(b, i2, len) == h
           && i2 + |h| + 1 <= len && CStrAt(b, i2 + |h| + 1, len) == p by {
      TwoFields(b, len, i2, h, p, rest);
    }
  }

  /** Two NUL-terminated fields `f` and `g` at `i`, and `e` after them. */
  lemma TwoFields(b: string, len: nat, i: nat, f: string, g: string, e: string)
    requires len < |b| && b[len] == Nul && Nul !in f && Nul !in g
    requires var t := f + [Nul] + (g + [Nul] + e);
             i + |t| <= len + 1 && b[i..i + |t|] == t
    ensures i <= len && CStrAt(b, i, len) == f
    ensures i + |f| + 1 <= len && CStrAt(b, i + |f| + 1, len) == g
    ensures var j := i + |f| + 1 + |g| + 1; b[j..j + |e|] == e
  {
    HeadField(b, i, f, g + [Nul] + e, len);
    HeadField(b, i + |f| + 1, g, e, len);
  }

  /** The parse, once the four C strings are known. */
  lemma ParseFromFields(b: string, len: nat, c: string, sc: string, h: string, p: string)
    requires FourFields(b, len, c, sc, h, p)
    ensures ParseRequest(b, len) == Some(Request(c, sc, h, p, |c| + |sc| + |h| + |p| + 4))
  {
  }

  /** The packet of four fields and any more after them. */
  lemma EncodeFour(c: string, sc: string, h: string, p: string, more: seq<string>)
    ensures EncodeRequest([c, sc, h, p] + more)
            == c + [Nul] + (sc + [Nul] + (h + [Nul] + (p + [Nul] + EncodeRequest(more))))
  {
    var head := [c, sc, h, p];
    EncodeAppend(head, more);
    assert head[1..] == [sc, h, p] && [sc, h, p][1..] == [h, p] && [h, p][1..] == [p] && [p][1..] == [];
    assert EncodeRequest([p]) == p + [Nul];
    assert EncodeRequest([h, p]) == h + [Nul] + (p + [Nul]);
    assert EncodeRequest([sc, h, p]) == sc + [Nul] + (h + [Nul] + (p + [Nul]));
    assert EncodeRequest(head) == c + [Nul] + (sc + [Nul] + (h + [Nul] + (p + [Nul])));
  }

  /** A packet of four fields and any more after them is parsed into its
      four fields, and the fifth starts right after the fourth's NUL. */
  lemma ParseEncoded(command: string, scheme: string, host: string, path: string, more: seq<string>)
    requires NoNul([command, scheme, host, path])
    ensures var data := EncodeRequest([command, scheme, host, path] + more);
            ParseRequest(data + [Nul], |data|)
              == Some(Request(command, scheme, host, path, |EncodeRequest([command, scheme, host, path])|))
  {
    FourOf(command, scheme, host, path, more);
    ParseLaidOut(EncodeRequest([command, scheme, host, path] + more), command, scheme, host, path, EncodeRequest(more));
  }

  /** The facts about a packet of four fields and more that its parse
      needs: the fields hold no NUL, the packet lays them out with their
      NULs, and the four alone take their lengths plus four bytes. */
  lemma FourOf(command: string, scheme: string, host: string, path: string, more: seq<string>)
    requires NoNul([command, scheme, host, path])
    ensures Nul !in command && Nul !in scheme && Nul !in host && Nul !in path
    ensures EncodeRequest([command, scheme, host, path] + more)
            == command + [Nul] + (scheme + [Nul] + (host + [Nul] + (path + [Nul] + EncodeRequest(more))))
    ensures |EncodeRequest([command, scheme, host, path])| == |command| + |scheme| + |host| + |path| + 4
  {
    var head := [command, scheme, host, path];
    assert head[0] == command && head[1] == scheme && head[2] == host && head[3] == path;
    EncodeFour(command, scheme, host, path, more);
    EncodeFour(command, scheme, host, path, []);
    assert head + [] == head;
  }

  /** Four NUL-free fields laid out with their NULs, then anything, parse
      back as those fields. */
  lemma ParseLaidOut(data: string, c: string, sc: string, h: string, p: string, rest: string)
    requires Nul !in c && Nul !in sc && Nul !in h && Nul !in p
    requires data == c + [Nul] + (sc + [Nul] + (h + [Nul] + (p + [Nul] + rest)))
    ensures ParseRequest(data + [Nul], |data|) == Some(Request(c, sc, h, p, |c| + |sc| + |h| + |p| + 4))
  {
    var b := data + [Nul];
    assert b[0..|data|] == data;
    ReadFourFields(b, |data|, c, sc, h, p, rest);
    ParseFromFields(b, |data|, c, sc, h, p);
  }

  lemma {:induction false} EncodeAppend(a: seq<string>, c: seq<string>)
    ensures EncodeRequest(a + c) == EncodeRequest(a) + EncodeRequest(c)
    decreases |a|
  {
    if |a| == 0 {
      assert a + c == c;
    } else {
      assert (a + c)[1..] == a[1..] + c;
      EncodeAppend(a[1..], c);
    }
  }

  /** A GET packet is answered with the jar's cookies for its address,
      NUL-terminated. */
  lemma GetRoundTrip(scheme: string, host: string, path: string, jar: string -> Option<string>, whitelist: Option<seq<string>>)
    requires NoNul([Get, scheme, host, path])
    ensures HandleRequest(EncodeRequest([Get, scheme, host, path]), jar, whitelist)
            == Done(Some(CString(jar(Address(scheme, host, path)).GetOr("")) + [Nul]), None)
  {
    ParseEncoded(Get, scheme, host, path, []);
    assert [Get, scheme, host, path] + [] == [Get, scheme, host, path];
  }

  /** The fifth field of a PUT packet, read from where the fourth ends. */
  lemma FifthField(scheme: string, host: string, path: string, nameVal: string)
    requires NoNul([Put, scheme, host, path, nameVal])
    ensures var data := EncodeRequest([Put, scheme, host, path, nameVal]);
            var b := data + [Nul];
            var q := ParseRequest(b, |data|);
            q == Some(Request(Put, scheme, host, path, |EncodeRequest([Put, scheme, host, path])|))
            && q.value.next <= |data| && CStrAt(b, q.value.next, |data|) == nameVal
  {
    var head := [Put, scheme, host, path];
    var data := EncodeRequest(head + [nameVal]);
    var b := data + [Nul];
    var e4 := EncodeRequest(head);
    assert head + [nameVal] == [Put, scheme, host, path, nameVal];
    assert ParseRequest(b, |data|) == Some(Request(Put, scheme, host, path, |e4|)) by {
      assert NoNul(head) by {
        assert forall k :: 0 <= k < 4 ==> head[k] == [Put, scheme, host, path, nameVal][k];
      }
      ParseEncoded(Put, scheme, host, path, [nameVal]);
    }
    assert Nul !in nameVal by {
      assert [Put, scheme, host, path, nameVal][4] == nameVal;
    }
    assert data == e4 + (nameVal + [Nul] + "") by {
      EncodeAppend(head, [nameVal]);
      assert [nameVal][1..] == [];
    }
    assert b[|e4|..|e4| + |nameVal| + 1 + 0] == nameVal + [Nul] + "";
    HeadField(b, |e4|, nameVal, "", |data|);
  }

  /** A PUT packet for a saved host adds the cookie named by the text
      before the first '=' with the rest as its value; for a host the
      whitelist refuses it adds nothing; both are acknowledged with one
      NUL. */
  lemma PutRoundTrip(scheme: string, host: string, path: string, name: string, value: string,
                     jar: string -> Option<string>, whitelist: Option<seq<string>>)
    requires NoNul([Put, scheme, host, path, name + "=" + value]) && '=' !in name
    ensures var r := HandleRequest(EncodeRequest([Put, scheme, host, path, name + "=" + value]), jar, whitelist);
            (ShouldSave(whitelist, host) ==> r == Done(Some([Nul]), Some(Cookie(name, value, host, path))))
            && (!ShouldSave(whitelist, host) ==> r == Done(Some([Nul]), None))
  {
    FifthField(scheme, host, path, name + "=" + value);
    SplitFirstAt(name, '=', value);
  }

  /** A PUT without '=' for a host the whitelist lets through reaches
      `eql[0] = 0` with `eql == NULL`. */
  lemma PutWithoutEquals(scheme: string, host: string, path: string, nameVal: string,
                         jar: string -> Option<string>)
    requires NoNul([Put, scheme, host, path, nameVal]) && '=' !in nameVal
    ensures HandleRequest(EncodeRequest([Put, scheme, host, path, nameVal]), jar, None) == NullDeref
  {
    FifthField(scheme, host, path, nameVal);
  }

  /** A packet of only the command and the scheme is partial: the host
      would start past the received bytes. */
  lemma TwoFieldsAreMalformed(command: string, scheme: string, jar: string -> Option<string>, whitelist: Option<seq<string>>)
    requires NoNul([command, scheme])
    ensures HandleRequest(EncodeRequest([command, scheme]), jar, whitelist) == Malformed
  {
    var fields := [command, scheme];
    var data := EncodeRequest(fields);
    var b := data + [Nul];
    assert b[0..|data|] == data;
    assert fields[1..] == [scheme] && fields[1..][1..] == [];
    EncodedHead(b, 0, fields, |data|);
    EncodedHead(b, |command| + 1, fields[1..], |data|);
  }

  /** A packet of command, scheme and host passes the checks: the path
      starts at the NUL after the received bytes and is empty. */
  lemma ThreeFieldsHaveEmptyPath(scheme: string, host: string, jar: string -> Option<string>, whitelist: Option<seq<string>>)
    requires NoNul([Get, scheme, host])
    ensures HandleRequest(EncodeRequest([Get, scheme, host]), jar, whitelist)
            == Done(Some(CString(jar(Address(scheme, host, "")).GetOr("")) + [Nul]), None)
  {
    ThreeOf(Get, scheme, host);
    ParseTerminated(EncodeRequest([Get, scheme, host]), Get, scheme, host, "", "");
  }

  /** The facts about a packet of three fields that its parse needs: the
      fields hold no NUL, and the packet with the NUL after it lays them
      out as four fields, the last one empty. */
  lemma ThreeOf(c: string, sc: string, h: string)
    requires NoNul([c, sc, h])
    ensures Nul !in c && Nul !in sc && Nul !in h
    ensures EncodeRequest([c, sc, h]) + [Nul] == c + [Nul] + (sc + [Nul] + (h + [Nul] + ("" + [Nul] + "")))
  {
    var f := [c, sc, h];
    assert f[0] == c && f[1] == sc && f[2] == h;
    assert f[1..] == [sc, h] && [sc, h][1..] == [h] && [h][1..] == [];
    assert EncodeRequest([h]) == h + [Nul];
    assert EncodeRequest([sc, h]) == sc + [Nul] + (h + [Nul]);
    var e := c + [Nul] + (sc + [Nul] + (h + [Nul]));
    assert EncodeRequest(f) == e;
    assert e + [Nul] == c + [Nul] + (sc + [Nul] + (h + [Nul] + [Nul]));
    assert "" + [Nul] + "" == [Nul];
  }

  /** Received bytes that, with the NUL after them, lay out four
      NUL-free fields parse back as those fields. */
  lemma ParseTerminated(data: string, c: string, sc: string, h: string, p: string, rest: string)
    requires Nul !in c && Nul !in sc && Nul !in h && Nul !in p
    requires data + [Nul] == c + [Nul] + (sc + [Nul] + (h + [Nul] + (p + [Nul] + rest)))
    ensures ParseRequest(data + [Nul], |data|) == Some(Request(c, sc, h, p, |c| + |sc| + |h| + |p| + 4))
  {
    var b := data + [Nul];
    assert b[0..|b|] == b;
    ReadFourFields(b, |data|, c, sc, h, p, rest);
    ParseFromFields(b, |data|, c, sc, h, p);
  }

  /* ---------------------------------------------------------------- packets */

  /** The size of `cookie_buffer` (line 31). */
  const MaxCookieLength := 4096

  /** Line 244 and 254 as written: `read` fills up to the whole buffer,
      and the terminating NUL goes to index `r`, the number of bytes
      read. */
  function TerminatorIndexAsWritten(packet: string): (r: nat)
    ensures r <= MaxCookieLength
  {
    if |packet| < MaxCookieLength then |packet| else MaxCookieLength
  }

  /** A packet of 4096 bytes or more fills the buffer, and the NUL is
      written one past its last element. */
  lemma FullPacketOverflows(packet: string)
    requires |packet| >= MaxCookieLength
    ensures TerminatorIndexAsWritten(packet) == MaxCookieLength
    ensures !(TerminatorIndexAsWritten(packet) < MaxCookieLength)
  {
  }

  /** The read leaving room for the NUL: at most `MAX_COOKIE_LENGTH - 1`
      bytes of a packet are kept (a longer datagram is cut). */
  function ReceivedBytes(packet: string): (r: string)
    ensures |r| < MaxCookieLength
    ensures r <= packet
    ensures |packet| < MaxCookieLength ==> r == packet
  {
    if |packet| < MaxCookieLength then packet else packet[..MaxCookieLength - 1]
  }

  /** One packet handled by the corrected loop: the NUL lands inside the
      buffer, and every packet of fewer than 4096 bytes is handled in
      full. */
  function HandlePacket(packet: string, jar: string -> Option<string>, whitelist: Option<seq<string>>): (r: Handled)
    ensures |packet| < MaxCookieLength ==> r == HandleRequest(packet, jar, whitelist)
  {
    HandleRequest(ReceivedBytes(packet), jar, whitelist)
  }
}
