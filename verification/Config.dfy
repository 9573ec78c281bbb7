/** The configuration: the list of parameters, the file parser `config_read_file`, the printer
    `create_run_create_config`, and the round trip between them. */
module Config {
  import opened Database
  import opened Paths
  import opened Chars

  /** A parameter. A handler turns a value into the one to store, or rejects it. */
  datatype Entry = Entry(name: string, fileName: Option<string>, value: Option<string>, handler: Option<string -> Option<string>>)

  // ------------------------------------------------------------ one line

  /** The characters a line buffer holds besides its NUL. */
  const LINE_MAX := 511

  /** What one `fgets` takes off the file: up to and including a newline, but no more than fits. */
  function LineLength(content: string): (n: nat)
    requires content != ""
    ensures 0 < n <= |content| && n <= LINE_MAX
  {
    var n := Span(content, '\n');
    var whole := if n < |content| then n + 1 else n;
    if whole <= LINE_MAX then whole else LINE_MAX
  }

  /** The key and the value of a trimmed line, if it has both. */
  function Split(l: string): Option<(string, string)> {
    if l == "" || l[0] == '#' then None
    else
      var (key, save) := StrTok(l, '=');
      if key == None then None
      else
        var (value, rest) := StrTok(save, '\n');
        if value == None then None else Some((Trim(key.value), Trim(value.value)))
  }

  function ParseLine(line: string): Option<(string, string)> {
    Split(Trim(line))
  }

  /** A line ends with its newline, with the file, or where the buffer is full. */
  lemma LineMeaning(content: string)
    requires content != ""
    ensures var n := LineLength(content);
      '\n' !in content[..n - 1] && (content[n - 1] == '\n' || n == |content| || n == 511)
  {
    var n := Span(content, '\n');
    SpanFirst(content, '\n');
    assert content[..LineLength(content) - 1] <= content[..n];
  }

  lemma {:induction false} SpanFirst(s: string, d: char)
    ensures d !in s[..Span(s, d)] && (Span(s, d) < |s| ==> s[Span(s, d)] == d)
    decreases |s|
  {
    if s != "" && s[0] != d {
      SpanFirst(s[1..], d);
      assert s[..Span(s, d)] == [s[0]] + s[1..][..Span(s[1..], d)];
    }
  }

  /** The key is what precedes the first separator, the value all that follows it; other separators
      belong to the value. A comment, and a line without key or value, is no setting. */
  lemma SplitMeaning(k: string, v: string)
    requires '=' !in k && '\n' !in v && k != ""
    ensures Split(k + "=" + v) == if k[0] == '#' || v == "" then None else Some((Trim(k), Trim(v)))
    ensures Split(k) == None && Split("") == None
  {
    hide Trim, StrTok;
    TokensAt(k, v);
    TokenWhole(k, '=');
    if v != "" { TokenWhole(v, '\n'); }
    NoToken();
  }

  // ------------------------------------------------------------ storing values

  function FindName(entries: seq<Entry>, name: string): (i: nat)
    ensures i <= |entries| && (i < |entries| ==> entries[i].name == name)
    ensures forall j :: 0 <= j < i ==> entries[j].name != name
  {
    if entries == [] || entries[0].name == name then 0 else 1 + FindName(entries[1..], name)
  }

  function FindFileName(entries: seq<Entry>, key: string): (i: nat)
    ensures i <= |entries| && (i < |entries| ==> entries[i].fileName == Some(key))
    ensures forall j :: 0 <= j < i ==> entries[j].fileName != Some(key)
  {
    if entries == [] || entries[0].fileName == Some(key) then 0 else 1 + FindFileName(entries[1..], key)
  }

  /** `config_set`. */
  function WithValue(entries: seq<Entry>, name: string, value: string): (r: seq<Entry>)
    ensures |r| == |entries|
  {
    var i := FindName(entries, name);
    if i < |entries| then entries[i := entries[i].(value := Some(value))] else entries
  }

  /** One parsed line: the entries and the result flag afterwards. An unknown key clears the flag,
      a plain value leaves it, and a handler overwrites it. */
  function Assign(entries: seq<Entry>, ok: bool, key: string, value: string): (r: (seq<Entry>, bool))
    ensures |r.0| == |entries|
  {
    var i := FindFileName(entries, key);
    if i == |entries| then (entries, false)
    else
      match entries[i].handler
      case None => (WithValue(entries, entries[i].name, value), ok)
      case Some(h) =>
        match h(value)
        case None => (entries, false)
        case Some(v) => (WithValue(entries, entries[i].name, v), true)
  }

  function Applied(entries: seq<Entry>, ok: bool, setting: Option<(string, string)>): (r: (seq<Entry>, bool))
    ensures |r.0| == |entries|
  {
    match setting
    case None => (entries, ok)
    case Some((key, value)) => Assign(entries, ok, key, value)
  }

  function ReadLine(entries: seq<Entry>, ok: bool, line: string): (r: (seq<Entry>, bool))
    ensures |r.0| == |entries|
  {
    Applied(entries, ok, ParseLine(CStr(line)))
  }

  /** The whole file. */
  function ReadAll(entries: seq<Entry>, ok: bool, content: string): (seq<Entry>, bool)
    decreases |content|
  {
    if content == "" then (entries, ok)
    else
      var n := LineLength(content);
      var (es, k) := ReadLine(entries, ok, content[..n]);
      ReadAll(es, k, content[n..])
  }

  /** The list of parameters. */
  class Parameters {
    var entries: seq<Entry>

    constructor ()
      ensures entries == []
    {
      entries := [];
    }

    /** `config_set_default`: new parameters go to the front of the list. */
    method SetDefault(name: string, fileName: Option<string>, value: Option<string>, handler: Option<string -> Option<string>>)
      modifies this
      ensures entries == [Entry(name, fileName, value, handler)] + old(entries)
    {
      entries := [Entry(name, fileName, value, handler)] + entries;
    }

    method Find(name: string) returns (i: nat)
      ensures i == FindName(entries, name)
    {
      i := 0;
      while i < |entries| && entries[i].name != name
        invariant i <= |entries|
        invariant FindName(entries, name) == i + FindName(entries[i..], name)
      {
        assert entries[i..][1..] == entries[i + 1..];
        i := i + 1;
      }
    }

    method Set(name: string, value: string) returns (ok: bool)
      modifies this
      ensures entries == WithValue(old(entries), name, value)
      ensures ok <==> exists j :: 0 <= j < |old(entries)| && old(entries)[j].name == name
    {
      var i := Find(name);
      ok := i < |entries|;
      if ok {
        assert entries[i].name == name;
        entries := entries[i := entries[i].(value := Some(value))];
      }
    }

    method FindKey(key: string) returns (i: nat)
      ensures i == FindFileName(entries, key)
    {
      i := 0;
      while i < |entries| && entries[i].fileName != Some(key)
        invariant i <= |entries|
        invariant FindFileName(entries, key) == i + FindFileName(entries[i..], key)
      {
        assert entries[i..][1..] == entries[i + 1..];
        i := i + 1;
      }
    }

    /** A buffer filled by `fgets`. */
    method FillLine(line: array<char>, text: string)
      requires |text| < line.Length
      modifies line
      ensures '\0' in line[..] && StandsAt(line[..], 0, CStr(text))
    {
      var i := 0;
      while i < |text|
        invariant i <= |text|
        invariant line[..i] == text[..i]
      {
        line[i] := text[i];
        i := i + 1;
      }
      line[i] := '\0';
      LineStands(line[..], text);
    }

    /** The part of the loop after the line has been trimmed: tokenise, trim, store. */
    method Process(line: array<char>, ok: bool, ghost l: string) returns (success: bool)
      requires StandsAt(line[..], 0, l)
      modifies this, line
      ensures (entries, success) == Applied(old(entries), ok, Split(l))
    {
      hide StandsAt, StrTok, Trim, LTrim, RTrim, SameOutside;
      success := ok;
      EndOf(line[..], 0, l);
      if l != "" {
        CharAt(line[..], 0, l, 0);
        NoNul(line[..], 0, l, 0);
      }
      if line[0] == '\0' || line[0] == '#' { return; }
      ghost var k, rest := StrTok(l, '=').0, StrTok(l, '=').1;
      var key, save := StrTokR(line, 0, '=', l);
      if key == None { return; }
      ghost var was := line[..];
      ConfigTrim(line, key.value, k.value);
      StandsKept(was, line[..], key.value, |k.value|, save, rest);
      ghost var v := StrTok(rest, '\n').0;
      ghost var first := line[..];
      var value, save2 := StrTokR(line, save, '\n', rest);
      if value == None { return; }
      ghost var second := line[..];
      ConfigTrim(line, value.value, v.value);
      KeyKept(first, second, line[..], key.value, Trim(k.value), save, rest, value.value, |v.value|);
      var keyText, valueText := CStr(line[key.value..]), CStr(line[value.value..]);
      TextIs(line, key.value, Trim(k.value));
      TextIs(line, value.value, Trim(v.value));
      var i := FindKey(keyText);
      if i == |entries| {
        success := false;
      } else {
        match entries[i].handler
        case None =>
          var _ := Set(entries[i].name, valueText);
        case Some(h) =>
          var stored := h(valueText);
          success := stored.Some?;
          if stored.Some? {
            var _ := Set(entries[i].name, stored.value);
          }
      }
    }

    /** `config_read_file`, on the contents of the file. */
    method ReadFile(content: string) returns (success: bool)
      modifies this
      ensures (entries, success) == ReadAll(old(entries), true, content)
    {
      hide ReadLine, ParseLine, CStr, Trim, LineLength;
      success := true;
      var line := new char[LINE_MAX + 1](_ => '\0');
      var rest := content;
      while rest != ""
        invariant ReadAll(old(entries), true, content) == ReadAll(entries, success, rest)
        invariant fresh(line) && line.Length == LINE_MAX + 1
        decreases |rest|
      {
        var n := LineLength(rest);
        FillLine(line, rest[..n]);
        ConfigTrim(line, 0, CStr(rest[..n]));
        ReadLineIs(entries, success, rest[..n]);
        success := Process(line, success, Trim(CStr(rest[..n])));
        rest := rest[n..];
      }
    }
  }

  lemma ReadLineIs(entries: seq<Entry>, ok: bool, line: string)
    ensures ReadLine(entries, ok, line) == Applied(entries, ok, Split(Trim(CStr(line))))
  {
  }

  lemma LineStands(a: seq<char>, text: string)
    requires |text| < |a| && a[..|text|] == text && a[|text|] == '\0'
    ensures '\0' in a && StandsAt(a, 0, CStr(text))
  {
    var n := Span(text, '\0');
    assert a[..n] == text[..n];
    assert a[n] == '\0' by { if n < |text| { assert a[..|text|][n] == text[n]; } }
  }

  lemma TextIs(line: array<char>, at: nat, s: string)
    requires StandsAt(line[..], at, s)
    ensures CStr(line[at..]) == s
  {
    StandsCStr(line[..], at, s);
    assert line[..][at..] == line[at..];
  }

  /** Cutting off and trimming the value leaves the key before it alone. */
  lemma KeyKept(first: seq<char>, second: seq<char>, third: seq<char>, key: nat, k: string, save: nat, rest: string, value: nat, n: nat)
    requires StandsAt(first, key, k) && StandsAt(first, save, rest) && key + |k| <= save && rest != ""
    requires SameOutside(second, first, save, save + |rest|) && SameOutside(third, second, value, value + n) && save <= value
    ensures StandsAt(third, key, k)
  {
    CharAt(first, save, rest, 0);
    NoNul(first, save, rest, 0);
    assert third[key..key + |k|] == first[key..key + |k|];
  }

  lemma StandsKept(was: seq<char>, now: seq<char>, base: nat, n: nat, at: nat, s: string)
    requires SameOutside(now, was, base, base + n) && base + n <= at && StandsAt(was, at, s)
    ensures StandsAt(now, at, s)
  {
    assert now[at..at + |s|] == was[at..at + |s|];
  }

  // ------------------------------------------------------------ the result flag

  /** The settings of a file, in order. */
  function Settings(content: string): seq<(string, string)>
    decreases |content|
  {
    if content == "" then []
    else
      var n := LineLength(content);
      (match ParseLine(CStr(content[..n])) case None => [] case Some(s) => [s]) + Settings(content[n..])
  }

  function AssignAll(entries: seq<Entry>, ok: bool, settings: seq<(string, string)>): (r: (seq<Entry>, bool))
    decreases |settings|
  {
    if settings == [] then (entries, ok)
    else
      var (es, k) := Assign(entries, ok, settings[0].0, settings[0].1);
      AssignAll(es, k, settings[1..])
  }

  lemma {:induction false} ReadIsAssign(entries: seq<Entry>, ok: bool, content: string)
    ensures ReadAll(entries, ok, content) == AssignAll(entries, ok, Settings(content))
    decreases |content|
  {
    hide Assign, LineLength, ParseLine;
    if content != "" {
      var n := LineLength(content);
      var r := ReadLine(entries, ok, content[..n]);
      ReadIsAssign(r.0, r.1, content[n..]);
      var p := ParseLine(CStr(content[..n]));
      if p.Some? {
        assert ([p.value] + Settings(content[n..]))[1..] == Settings(content[n..]);
      } else {
        assert [] + Settings(content[n..]) == Settings(content[n..]);
      }
    }
  }

  /** The setting is invalid: its key is unknown or its handler rejects the value. */
  predicate Invalid(entries: seq<Entry>, s: (string, string)) {
    var i := FindFileName(entries, s.0);
    i == |entries| || (entries[i].handler.Some? && entries[i].handler.value(s.1) == None)
  }

  /** The setting's handler accepts its value, which sets the result flag. */
  predicate Absolves(entries: seq<Entry>, s: (string, string)) {
    var i := FindFileName(entries, s.0);
    i < |entries| && entries[i].handler.Some? && entries[i].handler.value(s.1).Some?
  }

  /** Values aside, two entry lists are the same. */
  ghost predicate SameParameters(a: seq<Entry>, b: seq<Entry>) {
    |a| == |b| && forall i :: 0 <= i < |a| ==>
      a[i].name == b[i].name && a[i].fileName == b[i].fileName && a[i].handler == b[i].handler
  }

  lemma AssignSame(entries: seq<Entry>, ok: bool, key: string, value: string)
    ensures SameParameters(entries, Assign(entries, ok, key, value).0)
  {
  }

  lemma {:induction false} FindSame(a: seq<Entry>, b: seq<Entry>, key: string)
    requires SameParameters(a, b)
    ensures FindFileName(a, key) == FindFileName(b, key) && FindName(a, key) == FindName(b, key)
    decreases |a|
  {
    if a != [] { FindSame(a[1..], b[1..], key); }
  }

  lemma AssignFlag(entries: seq<Entry>, ok: bool, s: (string, string))
    ensures Assign(entries, ok, s.0, s.1).1 == (!Invalid(entries, s) && (ok || Absolves(entries, s)))
    ensures !(Invalid(entries, s) && Absolves(entries, s))
  {
  }

  lemma MeaningSame(a: seq<Entry>, b: seq<Entry>, s: (string, string))
    requires SameParameters(a, b)
    ensures Invalid(a, s) == Invalid(b, s) && Absolves(a, s) == Absolves(b, s)
  {
    FindSame(a, b, s.0);
  }

  /** A file is reported as invalid if and only if some invalid setting is followed by no setting
      whose handler accepts: an accepting handler overwrites every earlier failure. */
  lemma {:induction false} FlagMeaning(entries: seq<Entry>, ok: bool, settings: seq<(string, string)>)
    ensures !AssignAll(entries, ok, settings).1 <==>
      || (!ok && forall j :: 0 <= j < |settings| ==> !Absolves(entries, settings[j]))
      || exists i :: 0 <= i < |settings| && Invalid(entries, settings[i])
           && forall j :: i < j < |settings| ==> !Absolves(entries, settings[j])
    decreases |settings|
  {
    hide Assign, Invalid, Absolves, SameParameters;
    if settings != [] {
      var s, rest := settings[0], settings[1..];
      var r := Assign(entries, ok, s.0, s.1);
      AssignSame(entries, ok, s.0, s.1);
      AssignFlag(entries, ok, s);
      FlagMeaning(r.0, r.1, rest);
      forall j | 0 <= j < |rest|
        ensures Absolves(r.0, rest[j]) <==> Absolves(entries, settings[j + 1])
        ensures Invalid(r.0, rest[j]) <==> Invalid(entries, settings[j + 1])
      {
        MeaningSame(entries, r.0, rest[j]);
      }
    }
  }

  /** An unknown key goes unreported when a later line, here a known switch, is accepted. */
  lemma UnknownKeyUnreported(h: string -> Option<string>)
    requires h("true") == Some("true")
    ensures var entries := [Entry("log_stdout", Some("log_stdout"), Some("true"), Some(h))];
      && !AssignAll(entries, true, [("oops", "1")]).1
      && AssignAll(entries, true, [("oops", "1"), ("log_stdout", "true")]).1
  {
    var entries := [Entry("log_stdout", Some("log_stdout"), Some("true"), Some(h))];
    var s := [("oops", "1"), ("log_stdout", "true")];
    assert |"oops"| != |"log_stdout"|;
    assert FindFileName(entries, "oops") == 1 by { assert entries[1..] == []; }
    assert s[1..] == [("log_stdout", "true")] && s[1..][1..] == [];
    assert [("oops", "1")][1..] == [];
  }

  // ------------------------------------------------------------ printing

  /** What the printer puts on a line. */
  datatype Line = Comment(text: string) | Blank | Setting(key: string, value: string) | NoValue(key: string)

  function Text(line: Line): string {
    match line
    case Comment(text) => text + "\n"
    case Blank => "\n"
    case Setting(key, value) => key + " = " + value + "\n"
    case NoValue(key) => key + " =\n"
  }

  function Print(lines: seq<Line>): string {
    if lines == [] then "" else Text(lines[0]) + Print(lines[1..])
  }

  predicate Plain(s: string) {
    '\n' !in s && '\0' !in s
  }

  predicate CleanKey(key: string) {
    Plain(key) && Trimmed(key) && '=' !in key && key[0] != '#'
  }

  /** The line can be read back: it fits the line buffer and holds no line break or NUL. */
  predicate Fine(line: Line) {
    && |Text(line)| <= LINE_MAX
    && match line
       case Comment(text) => Plain(text) && text != "" && text[0] == '#'
       case Blank => true
       case Setting(key, value) => CleanKey(key) && Plain(value)
       case NoValue(key) => CleanKey(key)
  }

  function Meaning(line: Line): Option<(string, string)> {
    if line.Setting? && Trim(line.value) != "" then Some((line.key, Trim(line.value))) else None
  }

  lemma TokensAt(key: string, rest: string)
    requires key != "" && '=' !in key
    ensures StrTok(key + "=" + rest, '=') == (Some(key), rest)
  {
    var s := key + "=" + rest;
    assert s[..|key|] == key && s[|key| + 1..] == rest;
    assert key[0] in key;
    SpanIs(s, '=', |key|);
  }

  lemma TokenWhole(s: string, d: char)
    requires s != "" && d !in s
    ensures StrTok(s, d) == (Some(s), "")
  {
    assert s[0] in s;
    assert s[..|s|] == s;
    SpanIs(s, d, |s|);
  }

  lemma NoToken()
    ensures StrTok("", '\n').0 == None
  {
  }

  /** A line that trims to a key, a separator and a rest. */
  lemma ParseTrimmed(line: string, l: string, key: string, rest: string)
    requires Trim(line) == l && l == key + " =" + rest && CleanKey(key) && '\n' !in rest
    ensures ParseLine(line) == if rest == "" then None else Some((key, Trim(rest)))
  {
    hide Trim, StrTok, Trimmed;
    assert l[0] == key[0] by { KeyStarts(key); }
    TokensAt(key + " ", rest);
    assert l == key + " " + "=" + rest;
    assert Trim(key + " ") == key by {
      TrimAround("", key, " ");
      assert "" + key + " " == key + " ";
    }
    if rest == "" { NoToken(); } else { TokenWhole(rest, '\n'); }
  }

  lemma KeyStarts(key: string)
    requires CleanKey(key)
    ensures key != "" && key[0] != '#'
  {
  }

  lemma TrimmedEnds(key: string, v: string)
    requires Trimmed(key) && (v == "" || Trimmed(v))
    ensures Trimmed(key + " =") && (v != "" ==> forall u :: Trimmed(key + " = " + u + v))
  {
    if v != "" {
      forall u: string
        ensures Trimmed(key + " = " + u + v)
      {
        var s := key + " = " + u + v;
        assert s[0] == key[0] && s[|s| - 1] == v[|v| - 1];
      }
    }
  }

  lemma ParseBlankSetting(key: string, value: string)
    requires CleanKey(key) && AllSpace(value)
    ensures ParseLine(key + " = " + value + "\n") == None
  {
    hide Trim, ParseLine;
    var line, l, w := key + " = " + value + "\n", key + " =", " " + value + "\n";
    TrimmedEnds(key, "");
    assert line == "" + l + w;
    TrimAround("", l, w);
    assert l == key + " =" + "";
    ParseTrimmed(line, l, key, "");
  }

  lemma ParseFullSetting(key: string, u: string, v: string, w: string)
    requires CleanKey(key) && AllSpace(u) && AllSpace(w) && Trimmed(v) && '\n' !in u && '\n' !in v
    ensures ParseLine(key + " = " + (u + v + w) + "\n") == Some((key, v))
  {
    hide Trim, ParseLine, Trimmed, CleanKey;
    var line := key + " = " + (u + v + w) + "\n";
    var l, rest := key + " = " + u + v, " " + u + v;
    assert Trimmed(l) by { FullTrimmed(key, u, v); }
    assert line == "" + l + (w + "\n");
    assert Trim(line) == l by { TrimAround("", l, w + "\n"); }
    assert l == key + " =" + rest;
    ParseTrimmed(line, l, key, rest);
    assert Trim(rest) == v by {
      TrimAround(" " + u, v, "");
      assert rest == (" " + u) + v + "";
    }
  }

  lemma FullTrimmed(key: string, u: string, v: string)
    requires CleanKey(key) && Trimmed(v)
    ensures Trimmed(key + " = " + u + v)
  {
    TrimmedEnds(key, v);
  }

  /** A setting's line is parsed to its key and trimmed value; a blank value makes it no setting. */
  lemma ParseSetting(key: string, value: string)
    requires CleanKey(key) && Plain(value)
    ensures ParseLine(key + " = " + value + "\n") == Meaning(Setting(key, value))
  {
    hide Trim, ParseLine, Trimmed, CleanKey;
    TrimMeaning(value);
    var v := Trim(value);
    var u, w :| value == u + v + w && AllSpace(u) && AllSpace(w);
    if v == "" {
      ParseBlankSetting(key, value);
    } else {
      ParseFullSetting(key, u, v, w);
    }
  }

  lemma ParseNoValue(key: string)
    requires CleanKey(key)
    ensures ParseLine(key + " =\n") == None
  {
    hide Trim, StrTok, ParseLine, Trimmed;
    var l := key + " =";
    TrimmedEnds(key, "");
    TrimAround("", l, "\n");
    assert key + " =\n" == "" + l + "\n";
    assert l == key + " =" + "";
    ParseTrimmed(key + " =\n", l, key, "");
  }

  lemma ParseComment(text: string)
    requires text != "" && text[0] == '#'
    ensures ParseLine(text + "\n") == None
  {
    var s := text + "\n";
    assert LTrim(s) == s;
    FirstKept(s);
  }

  lemma {:induction false} FirstKept(s: string)
    requires s != "" && !IsSpace(s[0])
    ensures RTrim(s) != "" && RTrim(s)[0] == s[0]
    decreases |s|
  {
    if IsSpace(s[|s| - 1]) { FirstKept(s[..|s| - 1]); }
  }

  lemma ParseBlank()
    ensures ParseLine("\n") == None
  {
    TrimAround("", "", "\n");
    assert "" + "" + "\n" == "\n";
  }

  /** Every fine line is read back with its meaning. */
  lemma ParseText(line: Line)
    requires Fine(line)
    ensures ParseLine(CStr(Text(line))) == Meaning(line)
  {
    hide ParseLine, Trim, Span;
    var t := Text(line);
    assert '\0' !in t;
    assert t[..|t|] == t;
    SpanIs(t, '\0', |t|);
    match line
    case Comment(text) => ParseComment(text);
    case Blank => ParseBlank();
    case Setting(key, value) => ParseSetting(key, value);
    case NoValue(key) => ParseNoValue(key);
  }

  /** `fgets` gives the printed lines back one by one. */
  lemma LineSplits(line: Line, rest: string)
    requires Fine(line)
    ensures Text(line) + rest != "" && LineLength(Text(line) + rest) == |Text(line)|
  {
    var t := Text(line);
    var s := t + rest;
    assert t[|t| - 1] == '\n' && '\n' !in t[..|t| - 1];
    assert s[..|t| - 1] == t[..|t| - 1];
    SpanIs(s, '\n', |t| - 1);
  }

  function Meanings(lines: seq<Line>): seq<(string, string)> {
    if lines == [] then []
    else (match Meaning(lines[0]) case None => [] case Some(s) => [s]) + Meanings(lines[1..])
  }

  /** The print/parse round trip of whole files: the settings read are those printed, trimmed. */
  lemma {:induction false} PrintedSettings(lines: seq<Line>)
    requires forall i :: 0 <= i < |lines| ==> Fine(lines[i])
    ensures Settings(Print(lines)) == Meanings(lines)
    decreases |lines|
  {
    hide ParseLine, LineLength, Text, Meaning, Fine, CStr;
    if lines != [] {
      var t, rest := Text(lines[0]), Print(lines[1..]);
      LineSplits(lines[0], rest);
      ParseText(lines[0]);
      PrintedSettings(lines[1..]);
      assert (t + rest)[..|t|] == t && (t + rest)[|t|..] == rest;
    }
  }
}
