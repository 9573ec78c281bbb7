/** Path strings: `strtok_r`, `basename` and `dirname` on them, and joining names. */
module Paths {
  import opened Database
  import opened Tree

  /** `s` without its leading `d`s. */
  function Skip(s: string, d: char): (r: string)
    ensures |r| <= |s| && (r != "" ==> r[0] != d)
  {
    if s != "" && s[0] == d then Skip(s[1..], d) else s
  }

  /** The number of characters before the first `d`. */
  function Span(s: string, d: char): (n: nat)
    ensures n <= |s| && d !in s[..n] && (n < |s| ==> s[n] == d)
  {
    if s == "" || s[0] == d then 0 else 1 + Span(s[1..], d)
  }

  /** One call of `strtok_r` with a single delimiter: the token, if any, and what is left. */
  function StrTok(s: string, d: char): (r: (Option<string>, string))
    ensures |r.1| <= |s|
    ensures r.0.Some? ==> r.0.value != "" && d !in r.0.value && |r.1| < |s|
  {
    var t := Skip(s, d);
    if t == "" then (None, "")
    else
      var n := Span(t, d);
      (Some(t[..n]), if n == |t| then "" else t[n + 1..])
  }

  /** All the names in a path. */
  function Tokens(path: string): seq<string>
    decreases |path|
  {
    var (name, rest) := StrTok(path, '/');
    if name == None then [] else [name.value] + Tokens(rest)
  }

  lemma {:induction false} TokensProper(path: string)
    ensures forall i :: 0 <= i < |Tokens(path)| ==> ValidName(Tokens(path)[i])
    ensures ProperNames(Tokens(path))
    decreases |path|
  {
    var (name, rest) := StrTok(path, '/');
    if name != None { TokensProper(rest); }
  }

  lemma {:induction false} SpanIs(s: string, d: char, n: nat)
    requires n <= |s| && d !in s[..n] && (n < |s| ==> s[n] == d)
    ensures Span(s, d) == n
  {
    if n > 0 {
      assert s[0] in s[..n];
      assert s[1..][..n - 1] == s[..n][1..];
      SpanIs(s[1..], d, n - 1);
    }
  }

  lemma TokensStep(s: string)
    ensures Tokens(s) == if StrTok(s, '/').0 == None then [] else [StrTok(s, '/').0.value] + Tokens(StrTok(s, '/').1)
  {
  }

  lemma TokensSlash(s: string)
    ensures Tokens("") == []
    ensures s != "" && s[0] == '/' ==> Tokens(s) == Tokens(s[1..])
  {
  }

  /** The first name ends at `n`. */
  lemma TokensFirst(s: string, n: nat)
    requires 0 < n <= |s| && '/' !in s[..n] && (n < |s| ==> s[n] == '/')
    ensures Tokens(s) == [s[..n]] + Tokens(if n == |s| then "" else s[n + 1..])
  {
    assert s[0] in s[..n];
    SpanIs(s, '/', n);
  }

  lemma SpanPositive(s: string, d: char)
    requires s != "" && s[0] != d
    ensures Span(s, d) > 0
  {
  }

  /** A separator separates: it joins the names of both sides. */
  lemma {:induction false} TokensJoin(a: string, b: string)
    ensures Tokens(a + "/" + b) == Tokens(a) + Tokens(b)
    decreases |a|
  {
    hide Tokens, Span, StrTok;
    var s := a + "/" + b;
    TokensSlash(a);
    TokensSlash(s);
    if a == "" {
      assert s[1..] == b;
    } else if a[0] == '/' {
      assert s[1..] == a[1..] + "/" + b;
      TokensJoin(a[1..], b);
    } else {
      var n := Span(a, '/');
      SpanPositive(a, '/');
      assert s[..n] == a[..n];
      TokensFirst(a, n);
      TokensFirst(s, n);
      if n == |a| {
        assert s[n + 1..] == b;
      } else {
        assert s[n + 1..] == a[n + 1..] + "/" + b;
        TokensJoin(a[n + 1..], b);
      }
    }
  }

  lemma TokensOfName(name: string)
    requires ValidName(name)
    ensures Tokens(name) == [name]
  {
    assert name[..|name|] == name;
    TokensFirst(name, |name|);
    TokensSlash(name);
  }

  /** Repeated separators make no difference, wherever they stand. */
  lemma ExtraSeparators(a: string, b: string)
    ensures Tokens(a + "//" + b) == Tokens(a + "/" + b)
    ensures Tokens("/" + b) == Tokens(b) && Tokens(a + "/") == Tokens(a)
  {
    hide Tokens, Span, StrTok;
    TokensSlash("");
    TokensJoin(a, b);
    TokensJoin(a, "/" + b);
    TokensJoin("", b);
    TokensJoin(a, "");
    assert a + "//" + b == a + "/" + ("/" + b);
    assert "" + "/" + b == "/" + b && a + "/" + "" == a + "/";
  }

  /** The names joined by separators, as an absolute path. */
  function Join(names: seq<string>): string {
    if names == [] then "/"
    else if |names| == 1 then "/" + names[0]
    else Join(names[..|names| - 1]) + "/" + names[|names| - 1]
  }

  lemma {:induction false} TokensOfJoin(names: seq<string>)
    requires forall i :: 0 <= i < |names| ==> ValidName(names[i])
    ensures Tokens(Join(names)) == names
    decreases |names|
  {
    ExtraSeparators("", "");
    assert Tokens("") == [];
    if |names| == 1 {
      ExtraSeparators("", names[0]);
      TokensOfName(names[0]);
    } else if |names| > 1 {
      var init, name := names[..|names| - 1], names[|names| - 1];
      TokensOfJoin(init);
      TokensJoin(Join(init), name);
      TokensOfName(name);
    }
  }

  // ------------------------------------------------------------ basename and dirname

  /** What FUSE passes in: absolute, and not ending in a separator. */
  predicate FusePath(path: string) {
    |path| > 1 && path[0] == '/' && path[|path| - 1] != '/'
  }

  function LastSlash(path: string): (i: nat)
    requires '/' in path
    ensures i < |path| && path[i] == '/' && '/' !in path[i + 1..]
  {
    if path[|path| - 1] == '/' then |path| - 1
    else
      assert path == path[..|path| - 1] + [path[|path| - 1]];
      var i := LastSlash(path[..|path| - 1]);
      assert path[i + 1..] == path[..|path| - 1][i + 1..] + [path[|path| - 1]];
      i
  }

  /** Copying into a buffer of `n` characters and the terminator. */
  function Clip(s: string, n: nat): string {
    if |s| <= n then s else s[..n]
  }

  /** The length of a path buffer. */
  const PATH_MAX := 1024

  function BaseName(path: string): string
    requires '/' in path
  {
    Clip(path[LastSlash(path) + 1..], NAME_MAX)
  }

  function DirName(path: string): string
    requires '/' in path
  {
    Clip(if LastSlash(path) == 0 then "/" else path[..LastSlash(path)], PATH_MAX)
  }

  /** The directory and the base name together name the path, although either may be cut off. */
  predicate SplitsWhole(path: string)
    requires '/' in path
  {
    Tokens(path) == Tokens(DirName(path)) + [BaseName(path)]
  }

  /** The last name is what follows the last separator. */
  lemma LastToken(path: string)
    requires FusePath(path)
    ensures '/' in path
    ensures var names := Tokens(path); names != [] && names[|names| - 1] == path[LastSlash(path) + 1..]
  {
    hide Tokens, LastSlash;
    assert path[0] in path;
    var i := LastSlash(path);
    var name := path[i + 1..];
    assert ValidName(name);
    TokensJoin(path[..i], name);
    TokensOfName(name);
    assert path == path[..i] + "/" + name;
  }

  lemma NameParts(path: string)
    requires FusePath(path)
    ensures '/' in path && ValidName(BaseName(path))
    ensures |path| <= 1024 && |path[LastSlash(path) + 1..]| <= 64 ==> SplitsWhole(path)
  {
    hide Tokens, LastSlash;
    assert path[0] in path;
    var i := LastSlash(path);
    var name := path[i + 1..];
    assert ValidName(name);
    TokensJoin(path[..i], name);
    TokensOfName(name);
    assert path == path[..i] + "/" + name;
    assert "/"[1..] == "" && path[..0] == "";
    TokensSlash("/");
  }
}
