/** NUL-terminated strings in a character buffer: `config_trim` and `strtok_r` in place. */
module Chars {
  import opened Database
  import opened Paths

  predicate IsSpace(c: char) {
    c == ' ' || '\t' <= c <= '\r'
  }

  predicate AllSpace(s: string) {
    forall i :: 0 <= i < |s| ==> IsSpace(s[i])
  }

  function LTrim(s: string): string {
    if s != "" && IsSpace(s[0]) then LTrim(s[1..]) else s
  }

  function RTrim(s: string): string {
    if s != "" && IsSpace(s[|s| - 1]) then RTrim(s[..|s| - 1]) else s
  }

  function Trim(s: string): string {
    RTrim(LTrim(s))
  }

  /** Non-empty and without outer whitespace. */
  predicate Trimmed(s: string) {
    s != "" && !IsSpace(s[0]) && !IsSpace(s[|s| - 1])
  }

  lemma {:induction false} LTrimIs(s: string, i: nat)
    requires i <= |s| && AllSpace(s[..i]) && (i < |s| ==> !IsSpace(s[i]))
    ensures LTrim(s) == s[i..]
    decreases i
  {
    if i > 0 {
      assert s[..i][0] == s[0] && s[1..][..i - 1] == s[..i][1..];
      LTrimIs(s[1..], i - 1);
      assert s[1..][i - 1..] == s[i..];
    }
  }

  lemma {:induction false} RTrimIs(s: string, j: nat)
    requires j <= |s| && AllSpace(s[j..]) && (j > 0 ==> !IsSpace(s[j - 1]))
    ensures RTrim(s) == s[..j]
    decreases |s|
  {
    if j < |s| {
      assert s[j..][|s| - 1 - j] == s[|s| - 1];
      var init := s[..|s| - 1];
      assert init[j..] == s[j..][..|s| - 1 - j];
      RTrimIs(init, j);
      assert init[..j] == s[..j];
    }
  }

  /** The trimmed part of a string, between any whitespace on both sides. */
  lemma TrimAround(u: string, v: string, w: string)
    requires AllSpace(u) && AllSpace(w) && (v == "" || Trimmed(v))
    ensures Trim(u + v + w) == v
  {
    var s := u + v + w;
    if v == "" {
      assert AllSpace(s[..|s|]) by { assert s[..|s|] == u + w; }
      LTrimIs(s, |s|);
      assert s[|s|..] == "";
    } else {
      assert s[..|u|] == u && s[|u|..] == v + w;
      LTrimIs(s, |u|);
      assert (v + w)[|v|..] == w && (v + w)[..|v|] == v;
      RTrimIs(v + w, |v|);
    }
  }

  lemma {:induction false} FirstNonSpace(s: string) returns (i: nat)
    ensures i <= |s| && AllSpace(s[..i]) && (i < |s| ==> !IsSpace(s[i]))
  {
    i := 0;
    while i < |s| && IsSpace(s[i])
      invariant i <= |s| && AllSpace(s[..i])
    {
      i := i + 1;
    }
  }

  lemma {:induction false} LastNonSpace(s: string) returns (j: nat)
    ensures j <= |s| && AllSpace(s[j..]) && (j > 0 ==> !IsSpace(s[j - 1]))
  {
    j := |s|;
    while j > 0 && IsSpace(s[j - 1])
      invariant j <= |s| && AllSpace(s[j..])
    {
      j := j - 1;
    }
  }

  /** Trimming removes exactly the outer whitespace. */
  lemma TrimMeaning(s: string)
    ensures exists u, w :: s == u + Trim(s) + w && AllSpace(u) && AllSpace(w)
    ensures Trim(s) == "" || Trimmed(Trim(s))
  {
    var i := FirstNonSpace(s);
    LTrimIs(s, i);
    var t := s[i..];
    var j := LastNonSpace(t);
    RTrimIs(t, j);
    assert s == s[..i] + t[..j] + t[j..];
  }

  /** All six kinds of whitespace are trimmed, and only outside. */
  lemma TrimExample()
    ensures Trim(" \t\r\n k = v\U{000B}\U{000C} ") == "k = v"
  {
    var u, v, w := " \t\r\n ", "k = v", "\U{000B}\U{000C} ";
    assert AllSpace(u) && AllSpace(w) && Trimmed(v);
    TrimAround(u, v, w);
    assert u + v + w == " \t\r\n k = v\U{000B}\U{000C} ";
  }

  /** Trimming is idempotent, and leaves alone exactly the trimmed strings and the empty one. */
  lemma TrimIdempotent(s: string)
    ensures Trim(Trim(s)) == Trim(s)
    ensures Trim(s) == s <==> s == "" || Trimmed(s)
  {
    TrimMeaning(s);
    TrimAround("", Trim(s), "");
    assert "" + Trim(s) + "" == Trim(s);
    if s == "" || Trimmed(s) {
      TrimAround("", s, "");
      assert "" + s + "" == s;
    }
  }

  // ------------------------------------------------------------ C strings in a buffer

  /** The string that starts the buffer, up to its NUL. */
  function CStr(a: seq<char>): string {
    a[..Span(a, '\0')]
  }

  lemma CStrIs(a: seq<char>, n: nat)
    requires n < |a| && a[n] == '\0' && '\0' !in a[..n]
    ensures CStr(a) == a[..n] && Span(a, '\0') == n
  {
    SpanIs(a, '\0', n);
  }

  lemma HasNul(a: seq<char>)
    requires '\0' in a
    ensures Span(a, '\0') < |a| && a[Span(a, '\0')] == '\0'
  {
    assert a[..|a|] == a;
  }

  lemma PushNot(a: seq<char>, n: nat)
    requires n < |a| && a[n] != '\0' && '\0' !in a[..n]
    ensures '\0' !in a[..n + 1]
  {
    assert a[..n + 1] == a[..n] + [a[n]];
  }

  method StrLen(a: array<char>, base: nat) returns (n: nat)
    requires base <= a.Length && '\0' in a[base..]
    ensures base + n < a.Length && a[base + n] == '\0' && n == Span(a[base..], '\0') && CStr(a[base..]) == a[base..base + n]
  {
    HasNul(a[base..]);
    ghost var k := Span(a[base..], '\0');
    assert a[base..][k] == a[base + k];
    n := 0;
    while a[base + n] != '\0'
      invariant n <= k && '\0' !in a[base..][..n]
      decreases k - n
    {
      PushNot(a[base..], n);
      n := n + 1;
    }
    CStrIs(a[base..], n);
    assert a[base..][..n] == a[base..base + n];
  }

  /** `memmove` towards the front. */
  method MoveDown(a: array<char>, to: nat, from: nat, n: nat)
    requires to <= from && from + n <= a.Length
    modifies a
    ensures Shifted(old(a[..]), a[..], to, from, n)
  {
    var i := 0;
    while i < n
      invariant i <= n
      invariant forall k :: to <= k < to + i ==> a[k] == old(a[k + (from - to)])
      invariant forall k :: 0 <= k < a.Length && !(to <= k < to + i) ==> a[k] == old(a[k])
    {
      a[to + i] := a[from + i];
      i := i + 1;
    }
  }

  /** `n` characters have been copied from `from` down to `to`, and no others changed. */
  ghost predicate Shifted(was: seq<char>, now: seq<char>, to: nat, from: nat, n: nat) {
    && to <= from && from + n <= |was| == |now|
    && (forall k :: to <= k < to + n ==> now[k] == was[k + (from - to)])
    && (forall k :: 0 <= k < |now| && !(to <= k < to + n) ==> now[k] == was[k])
  }

  /** The string `t` stands at `base`. */
  ghost predicate StandsAt(a: seq<char>, base: nat, t: string) {
    base + |t| < |a| && a[base..base + |t|] == t && a[base + |t|] == '\0' && '\0' !in t
  }

  lemma StandsCStr(a: seq<char>, base: nat, t: string)
    requires StandsAt(a, base, t)
    ensures '\0' in a[base..] && CStr(a[base..]) == t
  {
    var b := a[base..];
    assert b[|t|] == a[base + |t|];
    assert b[..|t|] == a[base..base + |t|];
    CStrIs(b, |t|);
  }

  ghost predicate SameOutside(a: seq<char>, b: seq<char>, lo: nat, hi: nat) {
    |a| == |b| && forall k :: 0 <= k < |a| && (k < lo || hi <= k) ==> a[k] == b[k]
  }

  /** The tail of the string moved down, with its NUL. */
  lemma MovedDown(was: seq<char>, now: seq<char>, base: nat, s: string, i: nat)
    requires StandsAt(was, base, s) && 0 < i <= |s| && Shifted(was, now, base, base + i, |s| - i + 1)
    ensures StandsAt(now, base, s[i..])
    ensures SameOutside(now, was, base, base + |s|)
  {
    var n := |s| - i;
    forall k | 0 <= k < n
      ensures now[base..base + n][k] == s[i..][k]
    {
      assert was[base..base + |s|][i + k] == was[base + k + i];
    }
    assert now[base..base + n] == s[i..];
    assert now[base + n] == was[base + n + i];
  }

  lemma CharAt(a: seq<char>, base: nat, t: string, k: nat)
    requires StandsAt(a, base, t) && k < |t|
    ensures a[base + k] == t[k]
  {
    assert a[base..base + |t|][k] == t[k];
  }

  lemma EndOf(a: seq<char>, base: nat, s: string)
    requires StandsAt(a, base, s)
    ensures base + |s| < |a| && a[base + |s|] == '\0'
  {
  }

  method SkipSpaces(a: array<char>, base: nat, ghost s: string) returns (ptr: nat)
    requires StandsAt(a[..], base, s)
    ensures base <= ptr <= base + |s| && LTrim(s) == s[ptr - base..]
  {
    hide LTrim, StandsAt;
    EndOf(a[..], base, s);
    ptr := base;
    while IsSpace(a[ptr])
      invariant base <= ptr <= base + |s|
      invariant AllSpace(s[..ptr - base])
      decreases base + |s| - ptr
    {
      CharAt(a[..], base, s, ptr - base);
      ptr := ptr + 1;
    }
    if ptr < base + |s| { CharAt(a[..], base, s, ptr - base); }
    LTrimIs(s, ptr - base);
  }

  /** `strlen`, of a known string. */
  method Length(a: array<char>, base: nat, ghost s: string) returns (n: nat)
    requires StandsAt(a[..], base, s)
    ensures n == |s|
  {
    StandsCStr(a[..], base, s);
    assert a[..][base..] == a[base..];
    n := StrLen(a, base);
    StrLenIs(a[..], base, n);
  }

  /** The left half of `config_trim`: leading whitespace is skipped and the rest moved down. */
  method TrimLeft(a: array<char>, base: nat, ghost s: string) returns (n: nat)
    requires StandsAt(a[..], base, s)
    modifies a
    ensures n == |LTrim(s)| <= |s| && StandsAt(a[..], base, LTrim(s))
    ensures SameOutside(a[..], old(a[..]), base, base + |s|)
  {
    hide LTrim, StandsAt, SameOutside, IsSpace, Span;
    ghost var was := a[..];
    var ptr := SkipSpaces(a, base, s);
    EndOf(was, base, s);
    if base == ptr {
      assert s[0..] == s;
      SameSelf(was, base, base + |s|);
      n := Length(a, base, s);
      return;
    }
    StandsSuffix(was, base, s, ptr - base);
    n := Length(a, ptr, LTrim(s));
    MoveDown(a, base, ptr, n + 1);
    MovedDown(was, a[..], base, s, ptr - base);
  }

  lemma SameSelf(a: seq<char>, lo: nat, hi: nat)
    ensures SameOutside(a, a, lo, hi)
  {
  }

  lemma SameAt(a: seq<char>, j: nat, lo: nat, hi: nat)
    requires lo <= j < hi && j < |a|
    ensures SameOutside(a[j := '\0'], a, lo, hi)
  {
  }

  lemma StrLenIs(a: seq<char>, base: nat, n: nat)
    requires base <= |a| && n == Span(a[base..], '\0')
    ensures |CStr(a[base..])| == n
  {
  }

  lemma Shortened(was: seq<char>, base: nat, u: string)
    requires StandsAt(was, base, u) && u != ""
    ensures StandsAt(was[base + |u| - 1 := '\0'], base, u[..|u| - 1])
  {
    var now := was[base + |u| - 1 := '\0'];
    assert now[base..base + |u| - 1] == was[base..base + |u|][..|u| - 1];
  }

  lemma RTrimStep(u: string)
    ensures u != "" && IsSpace(u[|u| - 1]) ==> RTrim(u) == RTrim(u[..|u| - 1])
    ensures u != "" && !IsSpace(u[|u| - 1]) ==> RTrim(u) == u
    ensures u == "" ==> RTrim(u) == u
  {
  }

  /** `config_trim`, on the string `s` at `base`. Only the string's own bytes are written. */
  method ConfigTrim(a: array<char>, base: nat, ghost s: string)
    requires StandsAt(a[..], base, s)
    modifies a
    ensures StandsAt(a[..], base, Trim(s)) && |Trim(s)| <= |s|
    ensures SameOutside(a[..], old(a[..]), base, base + |s|)
  {
    hide LTrim, RTrim, IsSpace;
    var n := TrimLeft(a, base, s);
    ghost var t, mid := LTrim(s), a[..];
    FirstOfLTrim(s);
    var ptr := base + n - 1;
    ghost var u := t;
    while ptr > base && IsSpace(a[ptr])
      invariant ptr == base + |u| - 1 && |u| <= n && (u != "" ==> t != "" && u[0] == t[0])
      invariant StandsAt(a[..], base, u) && RTrim(u) == RTrim(t)
      invariant SameOutside(a[..], mid, base, base + n)
    {
      CharAt(a[..], base, u, |u| - 1);
      RTrimStep(u);
      Shortened(a[..], base, u);
      ghost var was := a[..];
      a[ptr] := '\0';
      assert a[..] == was[base + |u| - 1 := '\0'];
      u := u[..|u| - 1];
      ptr := ptr - 1;
    }
    if u != "" { CharAt(a[..], base, u, |u| - 1); }
    RTrimStep(u);
  }

  lemma {:induction false} FirstOfLTrim(s: string)
    ensures LTrim(s) != "" ==> !IsSpace(LTrim(s)[0])
    ensures |Trim(s)| <= |LTrim(s)| <= |s|
  {
    var i := FirstNonSpace(s);
    LTrimIs(s, i);
    var j := LastNonSpace(s[i..]);
    RTrimIs(s[i..], j);
  }

  // ------------------------------------------------------------ strtok_r in a buffer

  lemma {:induction false} SkipIs(s: string, d: char, i: nat)
    requires i <= |s| && (forall k :: 0 <= k < i ==> s[k] == d) && (i < |s| ==> s[i] != d)
    ensures Skip(s, d) == s[i..]
    decreases i
  {
    if i > 0 { SkipIs(s[1..], d, i - 1); }
  }

  lemma StandsSuffix(a: seq<char>, base: nat, s: string, i: nat)
    requires StandsAt(a, base, s) && i <= |s|
    ensures StandsAt(a, base + i, s[i..])
  {
    assert a[base + i..base + |s|] == a[base..base + |s|][i..];
  }

  lemma StandsPrefix(a: seq<char>, base: nat, s: string, i: nat)
    requires StandsAt(a, base, s) && i < |s|
    ensures StandsAt(a[base + i := '\0'], base, s[..i])
    ensures StandsAt(a[base + i := '\0'], base + i + 1, s[i + 1..])
  {
    var b := a[base + i := '\0'];
    assert b[base..base + i] == a[base..base + |s|][..i];
    assert b[base + i + 1..base + |s|] == a[base..base + |s|][i + 1..];
  }

  method SkipOver(a: array<char>, start: nat, d: char, ghost s: string) returns (i: nat)
    requires StandsAt(a[..], start, s) && d != '\0'
    ensures start <= i && i + |Skip(s, d)| == start + |s| && StandsAt(a[..], i, Skip(s, d))
  {
    hide Skip, StandsAt;
    EndOf(a[..], start, s);
    i := start;
    while a[i] == d
      invariant start <= i <= start + |s|
      invariant forall k :: 0 <= k < i - start ==> s[k] == d
      decreases start + |s| - i
    {
      CharAt(a[..], start, s, i - start);
      i := i + 1;
    }
    if i < start + |s| { CharAt(a[..], start, s, i - start); }
    SkipIs(s, d, i - start);
    StandsSuffix(a[..], start, s, i - start);
  }

  lemma NoNul(a: seq<char>, base: nat, t: string, k: nat)
    requires StandsAt(a, base, t) && k < |t|
    ensures t[k] != '\0'
  {
  }

  method TokenEnd(a: array<char>, i: nat, d: char, ghost t: string) returns (j: nat)
    requires StandsAt(a[..], i, t)
    ensures j == i + Span(t, d) < a.Length && (a[j] == '\0' <==> j == i + |t|)
  {
    hide Span, StandsAt;
    EndOf(a[..], i, t);
    j := i;
    while a[j] != '\0' && a[j] != d
      invariant i <= j <= i + |t|
      invariant d !in t[..j - i]
      decreases i + |t| - j
    {
      CharAt(a[..], i, t, j - i);
      j := j + 1;
    }
    if j < i + |t| {
      CharAt(a[..], i, t, j - i);
      NoNul(a[..], i, t, j - i);
    }
    SpanIs(t, d, j - i);
  }

  lemma StrTokIs(s: string, d: char)
    ensures var t := Skip(s, d); var n := Span(t, d);
      && |t| <= |s|
      && (t == "" ==> StrTok(s, d) == (None, ""))
      && (t != "" && n == |t| ==> StrTok(s, d) == (Some(t), ""))
      && (t != "" && n < |t| ==> StrTok(s, d) == (Some(t[..n]), t[n + 1..]))
  {
    var t := Skip(s, d);
    assert t[..|t|] == t;
  }

  /** One call of `strtok_r` on the string `s` at `start`: a NUL is written behind the token, and
      `save` is where the rest stands. */
  method StrTokR(a: array<char>, start: nat, d: char, ghost s: string) returns (token: Option<nat>, save: nat)
    requires StandsAt(a[..], start, s) && d != '\0'
    modifies a
    ensures StandsAt(a[..], save, StrTok(s, d).1)
    ensures token.Some? <==> StrTok(s, d).0.Some?
    ensures token.Some? ==>
      var t := StrTok(s, d).0.value;
      start <= token.value && StandsAt(a[..], token.value, t) && token.value + |t| <= save
    ensures start <= save <= start + |s|
    ensures SameOutside(a[..], old(a[..]), start, start + |s|)
  {
    hide Skip, Span, StandsAt, StrTok, SameOutside;
    SameSelf(a[..], start, start + |s|);
    StrTokIs(s, d);
    ghost var t := Skip(s, d);
    var i := SkipOver(a, start, d, s);
    EndOf(a[..], i, t);
    if a[i] == '\0' {
      if t != "" {
        CharAt(a[..], i, t, 0);
        NoNul(a[..], i, t, 0);
      }
      return None, i;
    }
    token := Some(i);
    var j := TokenEnd(a, i, d, t);
    if a[j] == '\0' {
      assert t[|t|..] == "";
      StandsSuffix(a[..], i, t, |t|);
      save := j;
    } else {
      ghost var was := a[..];
      StandsPrefix(was, i, t, j - i);
      a[j] := '\0';
      assert a[..] == was[j := '\0'];
      SameAt(was, j, start, start + |s|);
      save := j + 1;
    }
  }
}
