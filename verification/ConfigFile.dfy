/** The file that `create_run_create_config` writes, and what is in the configuration after
    `config_read_file` has read it. */
module ConfigFile {
  import opened Database
  import opened Chars
  import opened Config

  /** What the printer is given: the two numbers in decimal, and the string settings. */
  datatype Params = Params(retryCount: string, retryWait: string, database: string, host: string, port: string, user: string, mount: string)

  const KEYS: seq<string> := [
    "failed_query_retry_count", "failed_query_retry_wait", "log_stdout", "log_syslog",
    "mariadb_database", "mariadb_host", "mariadb_password", "mariadb_port", "mariadb_user",
    "mount", "reclaimer_level"]

  const PASSWORD: nat := 6

  function Values(p: Params): (v: seq<string>)
    ensures |v| == |KEYS|
  {
    [p.retryCount, p.retryWait, "true", "false", p.database, p.host, "", p.port, p.user, p.mount, "1"]
  }

  /** The `i`-th setting; the password is printed without a value. */
  function SettingLine(p: Params, i: nat): Line
    requires i < |KEYS|
  {
    if i == PASSWORD then NoValue(KEYS[i]) else Setting(KEYS[i], Values(p)[i])
  }

  /** The settings of the generated file, in order. */
  lemma SettingLines(p: Params)
    ensures |KEYS| == 11
    ensures SettingLine(p, 0) == Setting("failed_query_retry_count", p.retryCount)
    ensures SettingLine(p, 1) == Setting("failed_query_retry_wait", p.retryWait)
    ensures SettingLine(p, 2) == Setting("log_stdout", "true") && SettingLine(p, 3) == Setting("log_syslog", "false")
    ensures SettingLine(p, 4) == Setting("mariadb_database", p.database) && SettingLine(p, 5) == Setting("mariadb_host", p.host)
    ensures SettingLine(p, 6) == NoValue("mariadb_password") && SettingLine(p, 7) == Setting("mariadb_port", p.port)
    ensures SettingLine(p, 8) == Setting("mariadb_user", p.user) && SettingLine(p, 9) == Setting("mount", p.mount)
    ensures SettingLine(p, 10) == Setting("reclaimer_level", "1")
  {
  }

  function Notes(texts: seq<string>): seq<Line> {
    if texts == [] then [] else [Comment(texts[0])] + Notes(texts[1..])
  }

  /** The file from the `i`-th setting on: its comments, the setting, and a blank line if more
      settings follow. The texts of the comments do not matter. */
  function From(p: Params, notes: nat -> seq<string>, i: nat): seq<Line>
    requires i < |KEYS|
    decreases |KEYS| - i
  {
    Notes(notes(i)) + [SettingLine(p, i)] + if i + 1 < |KEYS| then [Blank] + From(p, notes, i + 1) else []
  }

  function Generated(p: Params, notes: nat -> seq<string>): seq<Line> {
    From(p, notes, 0)
  }

  lemma KeysDistinct(i: nat, j: nat)
    requires i < j < |KEYS|
    ensures KEYS[i] != KEYS[j]
  {
    assert KEYS[2][4] == 's' && KEYS[3][4] == 's' && KEYS[2][5] == 't' && KEYS[3][5] == 'y';
    assert KEYS[4][8] == 'd' && KEYS[6][8] == 'p';
    assert KEYS[5][8] == 'h' && KEYS[7][8] == 'p' && KEYS[8][8] == 'u';
  }

  // ------------------------------------------------------------ the value a key ends up with

  function ValueOf(entries: seq<Entry>, name: string): Option<string> {
    var i := FindName(entries, name);
    if i < |entries| then entries[i].value else None
  }

  /** As `main` registers them: names are distinct, and a parameter has its own name in the file. */
  ghost predicate Registered(entries: seq<Entry>) {
    && (forall i, j :: 0 <= i < j < |entries| ==> entries[i].name != entries[j].name)
    && (forall i :: 0 <= i < |entries| && entries[i].fileName.Some? ==> entries[i].fileName.value == entries[i].name)
  }

  /** The key stores its value as it is. */
  ghost predicate StoredPlainly(entries: seq<Entry>, key: string) {
    exists i :: 0 <= i < |entries| && entries[i].fileName == Some(key) && entries[i].handler == None
  }

  lemma FindRegistered(entries: seq<Entry>, key: string)
    requires Registered(entries)
    ensures var i := FindFileName(entries, key); i < |entries| ==> entries[i].name == key && FindName(entries, key) == i
    ensures StoredPlainly(entries, key) ==>
      var i := FindFileName(entries, key); i < |entries| && entries[i].handler == None
  {
    var i, k := FindFileName(entries, key), FindName(entries, key);
    if i < |entries| {
      assert k <= i && entries[k].name == entries[i].name;
    }
    if StoredPlainly(entries, key) {
      var j :| 0 <= j < |entries| && entries[j].fileName == Some(key) && entries[j].handler == None;
      assert i <= j && entries[i].name == entries[j].name;
    }
  }

  /** One setting changes the value of the parameter whose key in the file it names, and nothing else:
      a handler stores what it turns the value into, and a value it rejects is not stored. */
  lemma AssignStores(entries: seq<Entry>, ok: bool, s: (string, string), i: nat)
    requires Registered(entries) && i < |entries|
    ensures var e := entries[i]; var es := Assign(entries, ok, s.0, s.1).0;
      |es| == |entries| &&
      es[i] ==
        if e.fileName != Some(s.0) then e
        else if e.handler == None then e.(value := Some(s.1))
        else if e.handler.value(s.1).Some? then e.(value := e.handler.value(s.1))
        else e
    // The result flag is that of this setting, except that a plain one leaves it.
    ensures var e := entries[i]; e.fileName == Some(s.0) ==>
      Assign(entries, ok, s.0, s.1).1 == if e.handler == None then ok else e.handler.value(s.1).Some?
    ensures (forall j :: 0 <= j < |entries| ==> entries[j].fileName != Some(s.0)) ==> !Assign(entries, ok, s.0, s.1).1
  {
    FindRegistered(entries, s.0);
    var j := FindFileName(entries, s.0);
    if entries[i].fileName == Some(s.0) {
      assert j <= i && entries[j].name == entries[i].name;
    }
  }

  /** One setting changes the value of its own key and of no other. */
  lemma AssignValue(entries: seq<Entry>, ok: bool, s: (string, string), key: string)
    requires Registered(entries) && StoredPlainly(entries, key)
    ensures var es := Assign(entries, ok, s.0, s.1).0;
      && Registered(es) && StoredPlainly(es, key)
      && ValueOf(es, key) == if s.0 == key then Some(s.1) else ValueOf(entries, key)
  {
    var es := Assign(entries, ok, s.0, s.1).0;
    FindRegistered(entries, key);
    FindRegistered(entries, s.0);
    AssignSame(entries, ok, s.0, s.1);
    FindSame(entries, es, key);
    var i := FindFileName(entries, key);
    assert es[i].fileName == Some(key) && es[i].handler == None;
    if s.0 != key && FindFileName(entries, s.0) < |entries| {
      assert entries[FindFileName(entries, s.0)].name == s.0 != entries[i].name;
    }
  }

  function LastValue(settings: seq<(string, string)>, key: string, otherwise: Option<string>): Option<string> {
    if settings == [] then otherwise
    else LastValue(settings[1..], key, if settings[0].0 == key then Some(settings[0].1) else otherwise)
  }

  /** The latest setting of a key decides. */
  lemma {:induction false} LatestDecides(settings: seq<(string, string)>, key: string, otherwise: Option<string>, i: nat)
    requires i < |settings| && settings[i].0 == key && forall j :: i < j < |settings| ==> settings[j].0 != key
    ensures LastValue(settings, key, otherwise) == Some(settings[i].1)
    decreases |settings|
  {
    if i > 0 {
      LatestDecides(settings[1..], key, if settings[0].0 == key then Some(settings[0].1) else otherwise, i - 1);
    } else {
      OthersDecideNothing(settings[1..], key, Some(settings[0].1));
    }
  }

  lemma {:induction false} OthersDecideNothing(settings: seq<(string, string)>, key: string, otherwise: Option<string>)
    requires forall j :: 0 <= j < |settings| ==> settings[j].0 != key
    ensures LastValue(settings, key, otherwise) == otherwise
    decreases |settings|
  {
    if settings != [] { OthersDecideNothing(settings[1..], key, otherwise); }
  }

  lemma {:induction false} AssignAllValue(entries: seq<Entry>, ok: bool, settings: seq<(string, string)>, key: string)
    requires Registered(entries) && StoredPlainly(entries, key)
    ensures ValueOf(AssignAll(entries, ok, settings).0, key) == LastValue(settings, key, ValueOf(entries, key))
    decreases |settings|
  {
    hide Registered, StoredPlainly, ValueOf, Assign;
    if settings != [] {
      AssignValue(entries, ok, settings[0], key);
      var r := Assign(entries, ok, settings[0].0, settings[0].1);
      AssignAllValue(r.0, r.1, settings[1..], key);
    }
  }

  lemma {:induction false} LastValueJoin(a: seq<(string, string)>, b: seq<(string, string)>, key: string, otherwise: Option<string>)
    ensures LastValue(a + b, key, otherwise) == LastValue(b, key, LastValue(a, key, otherwise))
    decreases |a|
  {
    if a == [] {
      assert a + b == b;
    } else {
      assert (a + b)[1..] == a[1..] + b;
      LastValueJoin(a[1..], b, key, if a[0].0 == key then Some(a[0].1) else otherwise);
    }
  }

  lemma {:induction false} MeaningsJoin(a: seq<Line>, b: seq<Line>)
    ensures Meanings(a + b) == Meanings(a) + Meanings(b)
    decreases |a|
  {
    hide Meaning;
    if a == [] {
      assert a + b == b;
    } else {
      assert (a + b)[1..] == a[1..] + b;
      MeaningsJoin(a[1..], b);
    }
  }

  lemma {:induction false} NotesMeanNothing(texts: seq<string>)
    ensures Meanings(Notes(texts)) == []
    decreases |texts|
  {
    if texts != [] { NotesMeanNothing(texts[1..]); }
  }

  lemma MeaningsOne(line: Line)
    ensures Meanings([line]) == match Meaning(line) case None => [] case Some(s) => [s]
  {
    assert [line][1..] == [];
  }

  /** The value that the settings from the `i`-th on leave for the `k`-th key. */
  lemma {:induction false} GeneratedValue(p: Params, notes: nat -> seq<string>, i: nat, k: nat, otherwise: Option<string>)
    requires i < |KEYS| && k < |KEYS| && k != PASSWORD
    ensures LastValue(Meanings(From(p, notes, i)), KEYS[k], otherwise)
      == if i <= k && Trim(Values(p)[k]) != "" then Some(Trim(Values(p)[k])) else otherwise
    decreases |KEYS| - i
  {
    hide KEYS, Meanings, Trim, Values, LastValue;
    var line, key := SettingLine(p, i), KEYS[k];
    var rest := if i + 1 < |KEYS| then [Blank] + From(p, notes, i + 1) else [];
    MeaningsJoin(Notes(notes(i)) + [line], rest);
    MeaningsJoin(Notes(notes(i)), [line]);
    NotesMeanNothing(notes(i));
    if i < k { KeysDistinct(i, k); } else if k < i { KeysDistinct(k, i); }
    var here := Meanings([line]);
    assert [] + here == here;
    LastValueJoin(here, Meanings(rest), key, otherwise);
    var then' := LastValue(here, key, otherwise);
    LastOfOne(line, key, otherwise);
    if i + 1 < |KEYS| {
      MeaningsJoin([Blank], From(p, notes, i + 1));
      MeaningsOne(Blank);
      assert [] + Meanings(From(p, notes, i + 1)) == Meanings(From(p, notes, i + 1));
      GeneratedValue(p, notes, i + 1, k, then');
    } else {
      NothingMeansNothing(key, then');
    }
  }

  lemma NothingMeansNothing(key: string, otherwise: Option<string>)
    ensures LastValue(Meanings([]), key, otherwise) == otherwise
  {
  }

  lemma LastOfOne(line: Line, key: string, otherwise: Option<string>)
    ensures LastValue(Meanings([line]), key, otherwise)
      == if line.Setting? && line.key == key && Trim(line.value) != "" then Some(Trim(line.value)) else otherwise
  {
    MeaningsOne(line);
    if Meaning(line).Some? {
      assert [Meaning(line).value][1..] == [];
    }
  }

  /** The value of a setting after the generated file has been read: the printed one without its
      outer whitespace; a blank one leaves the value that was there. */
  lemma ReadBackValue(entries: seq<Entry>, p: Params, notes: nat -> seq<string>, k: nat)
    requires k < |KEYS| && k != PASSWORD && Registered(entries) && StoredPlainly(entries, KEYS[k])
    requires forall i :: 0 <= i < |Generated(p, notes)| ==> Fine(Generated(p, notes)[i])
    ensures ValueOf(ReadAll(entries, true, Print(Generated(p, notes))).0, KEYS[k])
      == if Trim(Values(p)[k]) != "" then Some(Trim(Values(p)[k])) else ValueOf(entries, KEYS[k])
  {
    hide KEYS, Trim, Values, Fine, ValueOf, Registered, StoredPlainly;
    var lines := Generated(p, notes);
    ReadIsAssign(entries, true, Print(lines));
    PrintedSettings(lines);
    AssignAllValue(entries, true, Meanings(lines), KEYS[k]);
    GeneratedValue(p, notes, 0, k, ValueOf(entries, KEYS[k]));
  }

  /** The round trip: a non-empty string setting survives printing and parsing if and only if it
      has no outer whitespace (or is blank and was the value already). */
  lemma SettingsSurvive(entries: seq<Entry>, p: Params, notes: nat -> seq<string>, k: nat)
    requires k in {4, 5, 7, 8, 9} && Registered(entries) && StoredPlainly(entries, KEYS[k])
    requires forall i :: 0 <= i < |Generated(p, notes)| ==> Fine(Generated(p, notes)[i])
    ensures Values(p)[k] == [p.database, p.host, "", p.port, p.user, p.mount][k - 4]
    ensures ValueOf(ReadAll(entries, true, Print(Generated(p, notes))).0, KEYS[k]) == Some(Values(p)[k])
       <==> Trimmed(Values(p)[k]) || (Trim(Values(p)[k]) == "" && ValueOf(entries, KEYS[k]) == Some(Values(p)[k]))
  {
    hide Trim, Fine, ValueOf, Registered, StoredPlainly, ReadAll, Print, Generated, Trimmed;
    ReadBackValue(entries, p, notes, k);
    TrimIdempotent(Values(p)[k]);
    TrimmedTrim(Values(p)[k]);
  }

  lemma TrimmedTrim(s: string)
    ensures Trimmed(s) ==> Trim(s) == s != ""
    ensures Trim(s) == s && s != "" ==> Trimmed(s)
  {
    TrimIdempotent(s);
  }

  // ------------------------------------------------------------ the registered parameters

  /** The parameters `main` registers, the latest first. */
  const NAMES: seq<string> := [
    "user", "reclaimer_level", "print_create_sql", "mount",
    "mariadb_user", "mariadb_port", "mariadb_password", "mariadb_host", "mariadb_database",
    "log_syslog", "log_stdout", "group",
    "failed_query_retry_count", "failed_query_retry_wait", "create", "config_file"]

  /** The handlers of the parameters that have one. */
  datatype Handlers = Handlers(
    create: string -> Option<string>, stdout: string -> Option<string>, syslog: string -> Option<string>,
    sql: string -> Option<string>, level: string -> Option<string>)

  /** A parameter that the file may set under its own name. */
  function InFile(name: string, value: Option<string>, handler: Option<string -> Option<string>>): Entry {
    Entry(name, Some(name), value, handler)
  }

  lemma NamesDistinct(i: nat, j: nat)
    requires i < j < |NAMES|
    ensures NAMES[i] != NAMES[j]
  {
    assert NAMES[2][8] == 'e' && NAMES[6][8] == 'p' && NAMES[8][8] == 'd';
    assert NAMES[4][8] == 'u' && NAMES[5][8] == 'p' && NAMES[7][8] == 'h';
    assert NAMES[9][5] == 'y' && NAMES[10][5] == 't';
    assert NAMES[3][0] == 'm' && NAMES[11][0] == 'g';
  }

  /** The default of a string setting that is printed. */
  function DefaultOf(k: nat): string
    requires k in {4, 5, 7, 8, 9}
  {
    ["myfs", "127.0.0.1", "", "3306", "myfs", "/mnt/myfs"][k - 4]
  }

  lemma KeyCount()
    ensures |KEYS| == 11
  {
  }

  /** What `main` registers: first the general parameters, then those of the database, then the
      rest, each list with the latest first. */
  function GeneralDefaults(group: string, h: Handlers): seq<Entry> {
    [
      InFile("log_syslog", Some("false"), Some(h.syslog)),
      InFile("log_stdout", Some("true"), Some(h.stdout)),
      InFile("group", Some(group), None),
      InFile("failed_query_retry_count", Some("-1"), None),
      InFile("failed_query_retry_wait", Some("-1"), None),
      Entry("create", None, Some("false"), Some(h.create)),
      Entry("config_file", None, Some("/etc/myfs.d/myfs.conf"), None)
    ]
  }

  function DatabaseDefaults(): seq<Entry> {
    [
      InFile("mariadb_user", Some("myfs"), None),
      InFile("mariadb_port", Some("3306"), None),
      InFile("mariadb_password", None, None),
      InFile("mariadb_host", Some("127.0.0.1"), None),
      InFile("mariadb_database", Some("myfs"), None)
    ]
  }

  function OtherDefaults(user: string, h: Handlers): seq<Entry> {
    [
      InFile("user", Some(user), None),
      InFile("reclaimer_level", Some("1"), Some(h.level)),
      Entry("print_create_sql", None, Some("false"), Some(h.sql)),
      InFile("mount", Some("/mnt/myfs"), None)
    ]
  }

  function Defaults(user: string, group: string, h: Handlers): seq<Entry> {
    OtherDefaults(user, h) + (DatabaseDefaults() + GeneralDefaults(group, h))
  }

  method RegisterGeneral(params: Parameters, group: string, h: Handlers)
    requires params.entries == []
    modifies params
    ensures params.entries == GeneralDefaults(group, h)
  {
    params.SetDefault("config_file", None, Some("/etc/myfs.d/myfs.conf"), None);
    params.SetDefault("create", None, Some("false"), Some(h.create));
    params.SetDefault("failed_query_retry_wait", Some("failed_query_retry_wait"), Some("-1"), None);
    params.SetDefault("failed_query_retry_count", Some("failed_query_retry_count"), Some("-1"), None);
    params.SetDefault("group", Some("group"), Some(group), None);
    params.SetDefault("log_stdout", Some("log_stdout"), Some("true"), Some(h.stdout));
    params.SetDefault("log_syslog", Some("log_syslog"), Some("false"), Some(h.syslog));
  }

  method RegisterDatabase(params: Parameters)
    modifies params
    ensures params.entries == DatabaseDefaults() + old(params.entries)
  {
    params.SetDefault("mariadb_database", Some("mariadb_database"), Some("myfs"), None);
    params.SetDefault("mariadb_host", Some("mariadb_host"), Some("127.0.0.1"), None);
    params.SetDefault("mariadb_password", Some("mariadb_password"), None, None);
    params.SetDefault("mariadb_port", Some("mariadb_port"), Some("3306"), None);
    params.SetDefault("mariadb_user", Some("mariadb_user"), Some("myfs"), None);
  }

  method RegisterOthers(params: Parameters, user: string, h: Handlers)
    modifies params
    ensures params.entries == OtherDefaults(user, h) + old(params.entries)
  {
    params.SetDefault("mount", Some("mount"), Some("/mnt/myfs"), None);
    params.SetDefault("print_create_sql", None, Some("false"), Some(h.sql));
    params.SetDefault("reclaimer_level", Some("reclaimer_level"), Some("1"), Some(h.level));
    params.SetDefault("user", Some("user"), Some(user), None);
  }

  /** The registrations at the start of `main`: every name is registered once, and the printed
      string settings are stored plainly and have their defaults. */
  method RegisterAll(params: Parameters, user: string, group: string, h: Handlers)
    requires params.entries == []
    modifies params
    ensures Registered(params.entries)
    ensures forall k :: k in {0, 1, 4, 5, 6, 7, 8, 9} ==> StoredPlainly(params.entries, KEYS[k])
    ensures forall k :: k in {4, 5, 7, 8, 9} ==> ValueOf(params.entries, KEYS[k]) == Some(DefaultOf(k))
  {
    hide GeneralDefaults, DatabaseDefaults, OtherDefaults, Registered, StoredPlainly, ValueOf, KEYS, DefaultOf;
    KeyCount();
    RegisterGeneral(params, group, h);
    RegisterDatabase(params);
    RegisterOthers(params, user, h);
    RegisteredFacts(params.entries, user, group, h);
  }

  lemma DefaultNames(user: string, group: string, h: Handlers, i: nat)
    requires i < |NAMES|
    ensures |Defaults(user, group, h)| == |NAMES|
    ensures var e := Defaults(user, group, h)[i]; e.name == NAMES[i] && (e.fileName.Some? ==> e.fileName.value == NAMES[i])
  {
  }

  /** Where the parameter of a plain key stands in the list. */
  lemma PlainAt(user: string, group: string, h: Handlers, k: nat) returns (i: nat)
    requires k in {0, 1, 4, 5, 6, 7, 8, 9}
    ensures i < |Defaults(user, group, h)|
    ensures var e := Defaults(user, group, h)[i]; e.name == KEYS[k] && e.fileName == Some(KEYS[k]) && e.handler == None
    ensures k in {4, 5, 7, 8, 9} ==>
      Defaults(user, group, h)[i].value == Some(DefaultOf(k))
  {
    if k == 0 {
      i := 12;
    } else if k == 1 {
      i := 13;
    } else if k == 9 {
      i := 3;
    } else if k == 8 {
      i := 4;
    } else if k == 7 {
      i := 5;
    } else if k == 6 {
      i := 6;
    } else if k == 5 {
      i := 7;
    } else {
      i := 8;
    }
  }

  lemma RegisteredFacts(entries: seq<Entry>, user: string, group: string, h: Handlers)
    requires entries == Defaults(user, group, h)
    ensures Registered(entries)
    ensures forall k :: k in {0, 1, 4, 5, 6, 7, 8, 9} ==> StoredPlainly(entries, KEYS[k])
    ensures forall k :: k in {4, 5, 7, 8, 9} ==>
      ValueOf(entries, KEYS[k]) == Some(DefaultOf(k))
  {
    hide Defaults, KEYS, DefaultOf;
    KeyCount();
    forall i: nat | i < |NAMES|
      ensures |entries| == |NAMES| && entries[i].name == NAMES[i]
      ensures entries[i].fileName.Some? ==> entries[i].fileName.value == NAMES[i]
    {
      DefaultNames(user, group, h, i);
    }
    DefaultNames(user, group, h, 0);
    forall i: nat, j: nat | i < j < |NAMES|
      ensures NAMES[i] != NAMES[j]
    {
      NamesDistinct(i, j);
    }
    assert Registered(entries);
    forall k | k in {0, 1, 4, 5, 6, 7, 8, 9}
      ensures StoredPlainly(entries, KEYS[k])
      ensures k in {4, 5, 7, 8, 9} ==>
        ValueOf(entries, KEYS[k]) == Some(DefaultOf(k))
    {
      var i := PlainAt(user, group, h, k);
      assert entries[i].fileName == Some(KEYS[k]) && entries[i].handler == None;
      ValueAt(entries, i);
    }
  }

  lemma ValueAt(entries: seq<Entry>, i: nat)
    requires Registered(entries) && i < |entries|
    ensures ValueOf(entries, entries[i].name) == entries[i].value
  {
    var k := FindName(entries, entries[i].name);
    assert k <= i && entries[k].name == entries[i].name;
  }

  /** From the start of `main` to the end of the generated file: a string setting comes back if and
      only if it has no outer whitespace and is not blank. */
  method StartUp(p: Params, notes: nat -> seq<string>, user: string, group: string, h: Handlers)
    returns (params: Parameters)
    requires forall i :: 0 <= i < |Generated(p, notes)| ==> Fine(Generated(p, notes)[i])
    ensures forall k :: k in {4, 5, 7, 8, 9} ==>
      (ValueOf(params.entries, KEYS[k]) == Some(Values(p)[k]) <==> Trimmed(Values(p)[k]))
  {
    hide Fine, Generated, Print, ReadAll, Registered, StoredPlainly, ValueOf, Trimmed, Values, KEYS, DefaultOf;
    KeyCount();
    params := new Parameters();
    RegisterAll(params, user, group, h);
    ghost var entries := params.entries;
    var _ := params.ReadFile(Print(Generated(p, notes)));
    forall k: nat | k in {4, 5, 7, 8, 9}
      ensures ValueOf(params.entries, KEYS[k]) == Some(Values(p)[k]) <==> Trimmed(Values(p)[k])
    {
      SettingsSurvive(entries, p, notes, k);
      if Some(Values(p)[k]) == Some(DefaultOf(k)) {
        DefaultsNotBlank(Values(p)[k], k);
      }
    }
  }

  lemma DefaultsNotBlank(v: string, k: nat)
    requires k in {4, 5, 7, 8, 9} && v == DefaultOf(k)
    ensures Trim(v) != ""
  {
    assert !IsSpace(v[0]) && !IsSpace(v[|v| - 1]);
    TrimAround("", v, "");
    assert "" + v + "" == v;
  }
}
