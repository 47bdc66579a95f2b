/** String replacement and the XDG base-directory defaults of src/util.c.
    The environment is a parameter: a map from variable names to values,
    with an absent name standing for `getenv` returning NULL. */
module Util {
  import opened Wrappers
  import opened Text

  /** `str_replace(search, replace, string)`: NULL for a NULL string,
      otherwise `g_strsplit` at every `search` and `g_strjoinv` with
      `replace`. GLib requires a non-empty delimiter for `g_strsplit`. */
  function StrReplace(search: string, replace: string, s: Option<string>): (r: Option<string>)
    requires |search| > 0
    ensures r.None? <==> s.None?
    ensures r.Some? && !Occurs(s.value, search) ==> r.value == s.value
    ensures r.Some? ==> r.value == ReplaceAll(s.value, search, replace)
  {
    if s.None? then None
    else
      var v := ReplaceAll(s.value, search, replace);
      assert !Occurs(s.value, search) ==> v == s.value by {
        if !Occurs(s.value, search) {
          ReplaceAllAbsent(s.value, search, replace);
        }
      }
      Some(v)
  }

  /** Replacing a string by itself changes nothing. */
  lemma StrReplaceSelf(search: string, s: string)
    requires |search| > 0
    ensures StrReplace(search, search, Some(s)) == Some(s)
  {
    JoinSplitOn(s, search);
  }

  /** Every `c` replaced by `rep`, character by character. */
  function SubstChar(s: string, c: char, rep: string): (r: string)
    ensures c !in s ==> r == s
  {
    if |s| == 0 then "" else (if s[0] == c then rep else [s[0]]) + SubstChar(s[1..], c, rep)
  }

  /** Replacing a one-character string is substituting that character
      everywhere. */
  lemma {:induction false} ReplaceCharIsSubst(s: string, c: char, rep: string)
    ensures ReplaceAll(s, [c], rep) == SubstChar(s, c, rep)
    decreases |s|
  {
    if |s| > 0 {
      ReplaceCharIsSubst(s[1..], c, rep);
      var p := SplitOn(s[1..], [c]);
      assert s[..1] == [s[0]];
      if s[0] == c {
        assert SplitOn(s, [c]) == [""] + p;
        assert ([""] + p)[1..] == p;
      } else {
        assert SplitOn(s, [c]) == [[s[0]] + p[0]] + p[1..];
        JoinConsHead(s[0], p[0], p[1..], rep);
        assert [p[0]] + p[1..] == p;
      }
    } else {
      assert SplitOn(s, [c]) == [s];
    }
  }

  lemma {:induction false} SubstAppend(a: string, b: string, c: char, rep: string)
    ensures SubstChar(a + b, c, rep) == SubstChar(a, c, rep) + SubstChar(b, c, rep)
    decreases |a|
  {
    if |a| > 0 {
      assert (a + b)[1..] == a[1..] + b;
      SubstAppend(a[1..], b, c, rep);
    } else {
      assert a + b == b;
    }
  }

  /** Every character of `special` preceded by a backslash, the others
      kept: the single pass the escape helpers of the plugins amount to. */
  function Escaped(s: string, special: char -> bool): (r: string)
    ensures |r| >= |s|
  {
    if |s| == 0 then ""
    else (if special(s[0]) then ['\\', s[0]] else [s[0]]) + Escaped(s[1..], special)
  }

  lemma {:induction false} EscapedAppend(a: string, b: string, special: char -> bool)
    ensures Escaped(a + b, special) == Escaped(a, special) + Escaped(b, special)
    decreases |a|
  {
    if |a| > 0 {
      assert (a + b)[1..] == a[1..] + b;
      EscapedAppend(a[1..], b, special);
    } else {
      assert a + b == b;
    }
  }

  /** Text without special characters is its own escape. */
  lemma {:induction false} EscapedPlain(s: string, special: char -> bool)
    requires forall k :: 0 <= k < |s| ==> !special(s[k])
    ensures Escaped(s, special) == s
    decreases |s|
  {
    if |s| > 0 {
      EscapedPlain(s[1..], special);
    }
  }

  /** Escaping adds no character that was not there. */
  lemma {:induction false} EscapedAdds(s: string, special: char -> bool, c: char)
    requires c != '\\' && c !in s
    ensures c !in Escaped(s, special)
    decreases |s|
  {
    if |s| > 0 {
      EscapedAdds(s[1..], special, c);
    }
  }

  /** An XDG variable and its default (`XDG_CONFIG_DIRS` and
      `XDG_DATA_DIRS` are the search paths). */
  datatype XdgVar = XdgVar(environmental: string, default: Option<string>)

  /** The table `XDG`. */
  const Xdg: seq<XdgVar> := [
    XdgVar("XDG_CONFIG_HOME", Some("~/.config")),
    XdgVar("XDG_DATA_HOME", Some("~/.local/share")),
    XdgVar("XDG_CACHE_HOME", Some("~/.cache")),
    XdgVar("XDG_CONFIG_DIRS", Some("/etc/xdg")),
    XdgVar("XDG_DATA_DIRS", Some("/usr/local/share/:/usr/share/"))
  ]

  function GetEnv(env: map<string, string>, name: string): Option<string>
  {
    if name in env then Some(env[name]) else None
  }

  /** `get_xdg_var(xdg)`: the variable's value, or its default when it is
      unset or empty, with every '~' replaced by `$HOME`; NULL when it is
      unset or empty and has no default. An unset `$HOME` is a NULL
      separator for `g_strjoinv`, which joins with nothing. */
  function GetXdgVar(env: map<string, string>, xdg: XdgVar): (r: Option<string>)
    ensures var v := GetEnv(env, xdg.environmental);
      var home := GetEnv(env, "HOME").GetOr("");
      if v.None? || v.value == "" then
        (r.None? <==> xdg.default.None?) && (r.Some? ==> r.value == SubstChar(xdg.default.value, '~', home))
      else r == Some(SubstChar(v.value, '~', home))
  {
    var actual := GetEnv(env, xdg.environmental);
    var home := GetEnv(env, "HOME").GetOr("");
    var source := if actual.None? || actual.value == "" then xdg.default else actual;
    assert source.Some? ==> ReplaceAll(source.value, "~", home) == SubstChar(source.value, '~', home) by {
      if source.Some? {
        ReplaceCharIsSubst(source.value, '~', home);
      }
    }
    StrReplace("~", home, source)
  }

  /** With `$HOME` set to `h` and `XDG_CONFIG_HOME` unset, the
      configuration directory is `h/.config`. */
  lemma ConfigHomeDefault(env: map<string, string>, h: string)
    requires "HOME" in env && env["HOME"] == h && "XDG_CONFIG_HOME" !in env
    ensures GetXdgVar(env, Xdg[0]) == Some(h + "/.config")
  {
    var d := "/.config";
    assert '~' !in d;
    assert "~/.config" == "~" + d;
    assert ("~" + d)[1..] == d;
    assert SubstChar("~" + d, '~', h) == h + SubstChar(d, '~', h);
  }

  /** A set, non-empty value without '~' is used as it is, whatever the
      default. */
  lemma SetValueWins(env: map<string, string>, xdg: XdgVar)
    requires xdg.environmental in env && env[xdg.environmental] != ""
    requires '~' !in env[xdg.environmental]
    ensures GetXdgVar(env, xdg) == Some(env[xdg.environmental])
  {
  }
}
