/** The cookie plugin of the event manager: partial cookie keys, the
    whitelist and blacklist of (component, regular expression) matchers,
    the rows of a cookies.txt file and the in-memory store. A cookie is the
    tuple domain, path, name, value, scheme, expires; regular-expression
    search is the parameter `found(pattern, text)`. */
module Cookies {
  import opened Wrappers
  import opened Text
  import opened PySeq
  import opened Numerals
  import Arguments

  type Cookie = seq<string>

  /** `match(key, cookie)`: the components the two have in common agree, so
      a shorter key stands for every cookie that begins with it. */
  function Match(key: seq<string>, cookie: Cookie): (r: bool)
    ensures r <==> forall i :: 0 <= i < |key| && i < |cookie| ==> key[i] == cookie[i]
  {
    if |key| == 0 || |cookie| == 0 then true
    else
      var rest := Match(key[1..], cookie[1..]);
      assert rest <==> forall i :: 1 <= i < |key| && i < |cookie| ==> key[i] == cookie[i] by {
        assert forall i :: 1 <= i < |key| && i < |cookie| ==> key[i] == key[1..][i - 1] && cookie[i] == cookie[1..][i - 1];
      }
      key[0] == cookie[0] && rest
  }

  /** A key no longer than the cookie matches exactly when it is a prefix
      of it. */
  lemma MatchIsPrefix(key: seq<string>, cookie: Cookie)
    requires |key| <= |cookie|
    ensures Match(key, cookie) <==> key <= cookie
  {
    if Match(key, cookie) {
      assert key == cookie[..|key|];
    }
  }

  /** One (component, regexp) pair of a matcher; the component may be
      negative, counting from the end as a Python index does. */
  datatype Check = Check(component: int, pattern: string)

  type Matcher = seq<Check>

  /** The component exists and the pattern is found in it. */
  predicate Passes(ch: Check, cookie: Cookie, found: (string, string) -> bool)
  {
    var f := Index(cookie, ch.component);
    f.Some? && found(ch.pattern, f.value)
  }

  /** Every component a matcher reads exists in the cookie. */
  predicate InRange(m: Matcher, cookie: Cookie)
  {
    forall j :: 0 <= j < |m| ==> -|cookie| <= m[j].component < |cookie|
  }

  predicate AllInRange(list: seq<Matcher>, cookie: Cookie)
  {
    forall i :: 0 <= i < |list| ==> InRange(list[i], cookie)
  }

  /** The inner loop of `match_list`: the checks in order, stopping at the
      first that fails; `None` is the IndexError of a missing component. */
  function Holds(m: Matcher, cookie: Cookie, found: (string, string) -> bool): (r: Option<bool>)
    ensures r.None? ==> exists j :: 0 <= j < |m| && Index(cookie, m[j].component).None?
    ensures r == Some(true) ==> forall j :: 0 <= j < |m| ==> Passes(m[j], cookie, found)
    ensures r == Some(false) ==> exists j :: 0 <= j < |m| && !Passes(m[j], cookie, found)
  {
    if |m| == 0 then Some(true)
    else
      var f := Index(cookie, m[0].component);
      if f.None? then None
      else if !found(m[0].pattern, f.value) then Some(false)
      else
        var rest := Holds(m[1..], cookie, found);
        assert forall j :: 1 <= j < |m| ==> m[j] == m[1..][j - 1];
        rest
  }

  /** `match_list(_list, cookie)`: the first matcher whose checks all pass
      makes it true. */
  function MatchList(list: seq<Matcher>, cookie: Cookie, found: (string, string) -> bool): (r: Option<bool>)
    ensures r.None? ==> exists i :: 0 <= i < |list| && Holds(list[i], cookie, found).None?
  {
    if |list| == 0 then Some(false)
    else
      match Holds(list[0], cookie, found)
      case None => None
      case Some(true) => Some(true)
      case Some(false) =>
        var rest := MatchList(list[1..], cookie, found);
        assert forall i :: 1 <= i < |list| ==> list[i] == list[1..][i - 1];
        rest
  }

  /** All checks of a matcher pass. */
  predicate AllPass(m: Matcher, cookie: Cookie, found: (string, string) -> bool)
  {
    forall j :: 0 <= j < |m| ==> Passes(m[j], cookie, found)
  }

  /** Some matcher has all of its checks pass. */
  predicate AnyMatches(list: seq<Matcher>, cookie: Cookie, found: (string, string) -> bool)
  {
    exists i :: 0 <= i < |list| && AllPass(list[i], cookie, found)
  }

  /** When every component exists, a matcher holds exactly when all its
      checks pass. */
  lemma {:induction false} HoldsMeans(m: Matcher, cookie: Cookie, found: (string, string) -> bool)
    requires InRange(m, cookie)
    ensures Holds(m, cookie, found) == Some(AllPass(m, cookie, found))
    decreases |m|
  {
    if |m| > 0 {
      assert InRange(m[1..], cookie) by {
        assert forall j :: 0 <= j < |m| - 1 ==> m[1..][j] == m[j + 1];
      }
      HoldsMeans(m[1..], cookie, found);
      assert forall j :: 1 <= j < |m| ==> m[j] == m[1..][j - 1];
    }
  }

  /** When every component exists, the list matches exactly when some
      matcher has all of its checks pass. */
  lemma {:induction false} MatchListMeans(list: seq<Matcher>, cookie: Cookie, found: (string, string) -> bool)
    requires AllInRange(list, cookie)
    ensures MatchList(list, cookie, found) == Some(AnyMatches(list, cookie, found))
    decreases |list|
  {
    if |list| > 0 {
      HoldsMeans(list[0], cookie, found);
      assert AllInRange(list[1..], cookie) by {
        assert forall i :: 0 <= i < |list| - 1 ==> list[1..][i] == list[i + 1];
      }
      MatchListMeans(list[1..], cookie, found);
      AnyMatchesCons(list, cookie, found);
    }
  }

  /** Some matcher matches iff the first does or one of the rest does. */
  lemma AnyMatchesCons(list: seq<Matcher>, cookie: Cookie, found: (string, string) -> bool)
    requires |list| > 0
    ensures AnyMatches(list, cookie, found) <==>
      AllPass(list[0], cookie, found) || AnyMatches(list[1..], cookie, found)
  {
    if AnyMatches(list[1..], cookie, found) {
      var i :| 0 <= i < |list[1..]| && AllPass(list[1..][i], cookie, found);
      assert list[1..][i] == list[i + 1];
    }
    if AnyMatches(list, cookie, found) {
      var i :| 0 <= i < |list| && AllPass(list[i], cookie, found);
      if i > 0 {
        assert list[1..][i - 1] == list[i];
      }
    }
  }

  /** `accept_cookie`; `None` when a matcher reads a missing component. */
  function Accept(whitelist: seq<Matcher>, blacklist: seq<Matcher>, cookie: Cookie,
                  found: (string, string) -> bool): (r: Option<bool>)
    ensures r.Some? && r.value ==> MatchList(blacklist, cookie, found) == Some(false)
    ensures |whitelist| == 0 ==> r == Not(MatchList(blacklist, cookie, found))
  {
    if |whitelist| > 0 then
      match MatchList(whitelist, cookie, found)
      case None => None
      case Some(true) => Not(MatchList(blacklist, cookie, found))
      case Some(false) => Some(false)
    else Not(MatchList(blacklist, cookie, found))
  }

  function Not(b: Option<bool>): Option<bool>
  {
    if b.None? then None else Some(!b.value)
  }

  /** The acceptance rule: with a non-empty whitelist a cookie is accepted
      iff some whitelist matcher and no blacklist matcher holds; with none,
      iff no blacklist matcher holds. */
  lemma AcceptRule(whitelist: seq<Matcher>, blacklist: seq<Matcher>, cookie: Cookie,
                   found: (string, string) -> bool)
    requires AllInRange(whitelist, cookie) && AllInRange(blacklist, cookie)
    ensures Accept(whitelist, blacklist, cookie, found) ==
      Some((|whitelist| == 0 || AnyMatches(whitelist, cookie, found)) && !AnyMatches(blacklist, cookie, found))
  {
    MatchListMeans(whitelist, cookie, found);
    MatchListMeans(blacklist, cookie, found);
  }

  /** The whitelist tests: a domain whitelist lets the matching cookie
      through and blocks the other. */
  lemma WhitelistLetsMatchThrough(p: string, a: Cookie, b: Cookie, found: (string, string) -> bool)
    requires |a| == 6 && |b| == 6
    requires found(p, a[0]) && !found(p, b[0])
    ensures Accept([[Check(0, p)]], [], a, found) == Some(true)
    ensures Accept([[Check(0, p)]], [], b, found) == Some(false)
  {
    AcceptRule([[Check(0, p)]], [], a, found);
    AcceptRule([[Check(0, p)]], [], b, found);
    assert [[Check(0, p)]][0][0] == Check(0, p);
  }

  /** The blacklist tests: a domain blacklist blocks the matching cookie
      and lets the other through. */
  lemma BlacklistBlocksMatch(p: string, a: Cookie, b: Cookie, found: (string, string) -> bool)
    requires |a| == 6 && |b| == 6
    requires found(p, a[0]) && !found(p, b[0])
    ensures Accept([], [[Check(0, p)]], a, found) == Some(false)
    ensures Accept([], [[Check(0, p)]], b, found) == Some(true)
  {
    AcceptRule([], [[Check(0, p)]], a, found);
    AcceptRule([], [[Check(0, p)]], b, found);
    assert [[Check(0, p)]][0][0] == Check(0, p);
  }

  /** The component names of the `symbolic` table. */
  function Symbolic(name: string): (r: Option<nat>)
    ensures r.Some? ==> r.value <= 5
    ensures r.Some? ==> forall k :: 0 <= k < |name| ==> !IsAsciiDigit(name[k])
  {
    if name == "domain" then Some(0)
    else if name == "path" then Some(1)
    else if name == "name" then Some(2)
    else if name == "value" then Some(3)
    else if name == "scheme" then Some(4)
    else if name == "expires" then Some(5)
    else None
  }

  /** The component an argument names: a symbolic name, else `int(name)`;
      `None` for the ValueError of neither. */
  function Component(name: string): (r: Option<int>)
    ensures Symbolic(name).Some? ==> r == Some(Symbolic(name).value as int)
  {
    if Symbolic(name).Some? then Some(Symbolic(name).value as int) else PyInt(name, IsPySpace)
  }

  /** A decimal numeral names the component at that index. */
  lemma ComponentNumeric(i: int)
    ensures Component(IntToDecimal(i)) == Some(i)
  {
    var s := IntToDecimal(i);
    assert Symbolic(s).None? by {
      var n: nat := if i < 0 then -i else i;
      assert NatToDecimal(n)[0] == s[|s| - |NatToDecimal(n)|];
    }
    PyIntRoundTrip(i, IsPySpace);
  }

  /** `zip(args[0::2], args[1::2])`: consecutive words in pairs, a
      trailing odd word dropped. */
  function Pairs(args: seq<string>): (r: seq<(string, string)>)
    ensures |r| == |args| / 2
  {
    seq(|args| / 2, j requires 0 <= j < |args| / 2 => (args[2 * j], args[2 * j + 1]))
  }

  /** A component that is neither a name nor an integer, or is above 5
      (the assertion). */
  predicate BadComponent(name: string)
  {
    Component(name).None? || Component(name).value > 5
  }

  /** The checks of `add_cookie_matcher` for the (component, regexp)
      pairs; `None` when some component is bad. */
  function ParseChecks(pairs: seq<(string, string)>): (r: Option<Matcher>)
    ensures r.Some? ==> |r.value| == |pairs|
    ensures r.Some? ==> forall j :: 0 <= j < |pairs| ==>
      Component(pairs[j].0) == Some(r.value[j].component) && r.value[j].component <= 5
      && r.value[j].pattern == pairs[j].1
    ensures r.None? <==> exists j :: 0 <= j < |pairs| && BadComponent(pairs[j].0)
  {
    if |pairs| == 0 then Some([])
    else
      var c := Component(pairs[0].0);
      var rest := ParseChecks(pairs[1..]);
      assert forall j :: 1 <= j < |pairs| ==> pairs[j] == pairs[1..][j - 1];
      if c.None? || c.value > 5 then None
      else if rest.None? then None
      else
        var r := [Check(c.value, pairs[0].1)] + rest.value;
        assert forall j :: 1 <= j < |r| ==> r[j] == rest.value[j - 1];
        Some(r)
  }

  /** The matcher of an argument line. */
  function ParseMatcher(args: seq<string>): Option<Matcher>
  {
    ParseChecks(Pairs(args))
  }

  /** `add_cookie_matcher(_list, arg)`: the argument line is split as event
      arguments are and the matcher is appended. */
  function AddCookieMatcher(list: seq<Matcher>, arg: string): (r: Option<seq<Matcher>>)
    ensures r.Some? ==> |r.value| == |list| + 1 && r.value[..|list|] == list
    ensures r.Some? ==> ParseMatcher(Arguments.New(Arguments.Line(arg)).args) == Some(r.value[|list|])
    ensures r.None? <==> ParseMatcher(Arguments.New(Arguments.Line(arg)).args).None?
  {
    var m := ParseMatcher(Arguments.New(Arguments.Line(arg)).args);
    if m.None? then None else Some(list + [m.value])
  }

  /** `expires_with_session`: an empty expiry field marks a session
      cookie; `None` for the IndexError of a cookie without one. */
  function ExpiresWithSession(cookie: Cookie): (r: Option<bool>)
    ensures r.Some? <==> |cookie| >= 6
    ensures r.Some? ==> (r.value <==> cookie[5] == "")
  {
    if |cookie| >= 6 then Some(cookie[5] == "") else None
  }

  const HttpOnly: string := "#HttpOnly_"

  /** The schemes a cookie event carries. */
  predicate IsScheme(s: string)
  {
    s == "https" || s == "http" || s == "httpsOnly" || s == "httpOnly"
  }

  /** `secure[scheme]` of `as_file`. */
  function SecureFlag(scheme: string): string
    requires IsScheme(scheme)
  {
    if scheme == "https" || scheme == "httpsOnly" then "TRUE" else "FALSE"
  }

  /** `http_only[scheme]` of `as_file`. */
  function DomainPrefix(scheme: string): string
    requires IsScheme(scheme)
  {
    if scheme == "httpsOnly" || scheme == "httpOnly" then HttpOnly else ""
  }

  /** `scheme[flag]` of `as_event`. */
  function SchemeOf(flag: string): Option<string>
  {
    if flag == "TRUE" then Some("https") else if flag == "FALSE" then Some("http") else None
  }

  /** `TextStore.as_event(row)`: a cookies.txt row (tab-separated fields:
      domain, include-subdomains, path, secure, expires, name, value) as a
      cookie event. `None` for a comment row other than `#HttpOnly_`, for a
      row with fewer than seven fields and for an unknown secure flag. */
  function AsEvent(row: seq<string>): (r: Option<Cookie>)
    requires |row| > 0
    ensures r.Some? <==> (StartsWith(row[0], HttpOnly) || !StartsWith(row[0], "#"))
                         && |row| >= 7 && (row[3] == "TRUE" || row[3] == "FALSE")
    ensures r.Some? ==> |r.value| == 6
    ensures r.Some? ==> r.value[1] == row[2] && r.value[2] == row[5] && r.value[3] == row[6] && r.value[5] == row[4]
    ensures r.Some? ==> r.value[4] == (if row[3] == "TRUE" then "https" else "http")
                                      + (if StartsWith(row[0], HttpOnly) then "Only" else "")
    ensures r.Some? ==> row[0] == (if StartsWith(row[0], HttpOnly) then HttpOnly else "") + r.value[0]
  {
    var only := StartsWith(row[0], HttpOnly);
    if !only && StartsWith(row[0], "#") then None
    else if |row| < 7 || SchemeOf(row[3]).None? then None
    else
      var domain := if only then row[0][|HttpOnly|..] else row[0];
      var extra := if only then "Only" else "";
      assert row[0] == (if only then HttpOnly else "") + domain by {
        if only { assert row[0] == row[0][..|HttpOnly|] + row[0][|HttpOnly|..]; }
      }
      Some([domain, row[2], row[5], row[6], SchemeOf(row[3]).value + extra, row[4]])
  }

  /** `TextStore.as_file(cookie)`: the cookies.txt row of a cookie event.
      `None` for the KeyError of an unknown scheme and the IndexError of a
      cookie with fewer than six components. */
  function AsFile(cookie: Cookie): (r: Option<seq<string>>)
    ensures r.Some? <==> |cookie| >= 6 && IsScheme(cookie[4])
    ensures r.Some? ==> |r.value| == 7
    ensures r.Some? ==> r.value[2] == cookie[1] && r.value[4] == cookie[5] && r.value[5] == cookie[2] && r.value[6] == cookie[3]
    ensures r.Some? ==> (r.value[1] == "TRUE" <==> StartsWith(cookie[0], "."))
    ensures r.Some? ==> r.value[3] == SecureFlag(cookie[4])
    ensures r.Some? ==> r.value[0] == DomainPrefix(cookie[4]) + cookie[0]
  {
    if |cookie| < 6 || !IsScheme(cookie[4]) then None
    else
      var d := DomainPrefix(cookie[4]) + cookie[0];
      Some([d, if StartsWith(cookie[0], ".") then "TRUE" else "FALSE", cookie[1],
            SecureFlag(cookie[4]), cookie[5], cookie[2], cookie[3]])
  }

  /** A cookie whose scheme is known and whose domain is not a comment
      comes back unchanged from its row. */
  lemma EventRoundTrip(c: Cookie)
    requires |c| == 6 && IsScheme(c[4]) && !StartsWith(c[0], "#")
    ensures AsFile(c).Some? && AsEvent(AsFile(c).value) == Some(c)
  {
    var row := AsFile(c).value;
    var p := DomainPrefix(c[4]);
    assert row[0] == p + c[0];
    if p == "" {
      assert row[0] == c[0];
      assert HttpOnly[0] == '#';
    } else {
      assert row[0][..|HttpOnly|] == HttpOnly;
      assert row[0][|HttpOnly|..] == c[0];
    }
    var e := AsEvent(row).value;
    assert e[0] == c[0];
    assert e[4] == c[4] by { SchemeTable(c[4]); }
    assert e == c;
  }

  /** The scheme is rebuilt from the secure flag and the `#HttpOnly_`
      prefix `as_file` writes for it. */
  lemma SchemeTable(scheme: string)
    requires IsScheme(scheme)
    ensures scheme == (if SecureFlag(scheme) == "TRUE" then "https" else "http")
                      + (if DomainPrefix(scheme) == HttpOnly then "Only" else "")
  {
    assert "https" + "Only" == "httpsOnly";
    assert "http" + "Only" == "httpOnly";
    assert "https" + "" == "https";
    assert "http" + "" == "http";
  }

  /** The secure flag and prefix are read back from the rebuilt scheme. */
  lemma FlagTable(flag: string, only: bool)
    requires flag == "TRUE" || flag == "FALSE"
    ensures var scheme := (if flag == "TRUE" then "https" else "http") + (if only then "Only" else "");
            IsScheme(scheme) && SecureFlag(scheme) == flag && DomainPrefix(scheme) == (if only then HttpOnly else "")
  {
    assert "https" + "Only" == "httpsOnly";
    assert "http" + "Only" == "httpOnly";
    assert "https" + "" == "https";
    assert "http" + "" == "http";
  }

  /** A well-formed row (seven fields, a known secure flag, a subdomain
      flag that agrees with the domain's leading dot, and no comment) comes
      back unchanged from its event. */
  lemma RowRoundTrip(row: seq<string>)
    requires |row| == 7 && (row[3] == "TRUE" || row[3] == "FALSE")
    requires StartsWith(row[0], HttpOnly) || !StartsWith(row[0], "#")
    requires var d := if StartsWith(row[0], HttpOnly) then row[0][|HttpOnly|..] else row[0];
             row[1] == (if StartsWith(d, ".") then "TRUE" else "FALSE")
    ensures AsEvent(row).Some? && AsFile(AsEvent(row).value) == Some(row)
  {
    var e := AsEvent(row).value;
    FlagTable(row[3], StartsWith(row[0], HttpOnly));
    if StartsWith(row[0], HttpOnly) {
      assert e[0] == row[0][|HttpOnly|..];
      assert row[0] == HttpOnly + e[0];
    } else {
      assert e[0] == row[0];
    }
    assert AsFile(e).value == row;
  }

  /** A row whose expiry field is empty is a session cookie. */
  lemma SessionRow(row: seq<string>)
    requires |row| > 0 && AsEvent(row).Some?
    ensures ExpiresWithSession(AsEvent(row).value) == Some(row[4] == "")
  {
  }

  /** The header line `as_file`'s store writes first is skipped as a
      comment. */
  lemma HeaderIsComment(header: string)
    requires header == "# HTTP Cookie File\n"
    ensures AsEvent([header]).None?
  {
    assert header[0] == '#' && header[1] != HttpOnly[1];
  }

  /** The cookie a stored raw line stands for. */
  function Parsed(raw: string): Cookie
  {
    Arguments.New(Arguments.Line(raw)).args
  }

  /** `ListStore.delete_cookie(rkey, key)`: the stored raw cookies that do
      not match the key, in their order. */
  function DeleteCookie(store: seq<string>, key: seq<string>): (r: seq<string>)
    ensures |r| <= |store|
    ensures forall x :: x in r <==> x in store && !Match(key, Parsed(x))
  {
    if |store| == 0 then []
    else
      var rest := DeleteCookie(store[1..], key);
      assert forall x :: x in store <==> x == store[0] || x in store[1..];
      if Match(key, Parsed(store[0])) then rest else [store[0]] + rest
  }

  /** Deleting works entry by entry, so the survivors keep their order. */
  lemma {:induction false} DeleteAppend(a: seq<string>, b: seq<string>, key: seq<string>)
    ensures DeleteCookie(a + b, key) == DeleteCookie(a, key) + DeleteCookie(b, key)
    decreases |a|
  {
    if |a| > 0 {
      assert (a + b)[0] == a[0] && (a + b)[1..] == a[1..] + b;
      DeleteAppend(a[1..], b, key);
      var ra, rb := DeleteCookie(a[1..], key), DeleteCookie(b, key);
      assert [a[0]] + (ra + rb) == ([a[0]] + ra) + rb;
    } else {
      assert a + b == b;
    }
  }

  /** Deleting twice with the same key is deleting once. */
  lemma {:induction false} DeleteIdempotent(store: seq<string>, key: seq<string>)
    ensures DeleteCookie(DeleteCookie(store, key), key) == DeleteCookie(store, key)
    decreases |store|
  {
    if |store| > 0 {
      DeleteIdempotent(store[1..], key);
      var rest := DeleteCookie(store[1..], key);
      if !Match(key, Parsed(store[0])) {
        assert ([store[0]] + rest)[1..] == rest;
      }
    }
  }

  /** `ListStore.add_cookie` appends the raw cookie; deleting with a key
      it matches removes it again and leaves the earlier entries as they
      were. */
  lemma AddThenDelete(store: seq<string>, raw: string, key: seq<string>)
    requires Match(key, Parsed(raw))
    ensures DeleteCookie(store + [raw], key) == DeleteCookie(store, key)
  {
    DeleteAppend(store, [raw], key);
    assert [raw][1..] == [];
  }
}
