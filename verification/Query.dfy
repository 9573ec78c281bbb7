/** `myfs_db_file_query`, `myfs_db_file_query_name` and the path walk `myfs_file_get`. */
module Query {
  import opened Database
  import opened Tree
  import opened Paths

  /** `myfs_file_t`: a row of `files` with its parents, as far as they could be loaded. */
  datatype FileInfo = FileInfo(id: nat, name: string, kind: Kind, size: nat, parent: Option<FileInfo>, children: nat)

  /** A directory's `st_size` stays 0. */
  function StSize(row: FileRow): nat {
    if row.kind == Directory then 0 else row.size
  }

  /** `file` is the row of `x`, and each loaded parent is the row of the parent. */
  ghost predicate Describes(files: Files, x: nat, file: FileInfo)
    decreases file
  {
    && x in files && file.id == x
    && file.name == files[x].name && file.kind == files[x].kind && file.size == StSize(files[x])
    && (file.parent.Some? ==> x != ROOT && Describes(files, files[x].parent, file.parent.value))
  }

  /** All parents up to the root are loaded. */
  predicate Complete(file: FileInfo) {
    file.id == ROOT || (file.parent.Some? && Complete(file.parent.value))
  }

  /** The names along the loaded parents. */
  function LoadedPath(file: FileInfo): seq<string>
    requires Complete(file)
  {
    if file.id == ROOT then [] else LoadedPath(file.parent.value) + [file.name]
  }

  /** A completely loaded file carries its path. */
  lemma {:induction false} LoadedNames(files: Files, x: nat, file: FileInfo)
    requires IsTree(files) && Describes(files, x, file) && Complete(file)
    ensures LoadedPath(file) == NamePath(files, x)
    decreases file
  {
    if x == ROOT {
      RootPath(files);
    } else {
      NamePathParent(files, x);
      LoadedNames(files, files[x].parent, file.parent.value);
    }
  }

  ghost function Height(files: Files, x: nat): nat {
    if Below(files, ROOT, x) then Depth(files, x) else 0
  }

  lemma HeightParent(files: Files, x: nat)
    requires IsTree(files) && x in files && x != ROOT
    ensures files[x].parent in files && Height(files, files[x].parent) < Height(files, x)
  {
    DepthParent(files, x);
  }

  /** The recursion over parents ends because the table is a tree. A failed query for a
      directory's children crashes: its missing result is used. */
  method FileQuery(db: Connection, id: nat, withChildren: bool) returns (file: Option<FileInfo>, crashed: bool)
    requires db.Idle() && IsTree(db.tables.files)
    modifies db
    ensures db.Idle() && db.tables == old(db.tables) && old(db.clock) < db.clock
    ensures file.Some? ==> Describes(db.tables.files, id, file.value)
    ensures file.Some? && withChildren ==>
      file.value.children == if file.value.kind == Directory then |ChildrenOf(db.tables.files, id)| else 0
    ensures db.Healthy(old(db.clock)) ==> (file.Some? <==> id in db.tables.files)
    ensures db.Healthy(old(db.clock)) && file.Some? ==> Complete(file.value)
    ensures crashed ==> file == None
    ensures crashed <==>
      && withChildren && old(db.clock) !in db.faults && db.clock - 1 in db.faults
      && id in db.tables.files && db.tables.files[id].kind == Directory
    decreases if id in db.tables.files then Height(db.tables.files, id) + 1 else 0
  {
    hide Schema, IsTree, Height, ChildrenOf;
    var res := db.SelectFile(id);
    if res == None || res.value == None { return None, false; }
    var row := res.value.value;
    var parent: Option<FileInfo> := None;
    if id > ROOT {
      HeightParent(db.tables.files, id);
      var never;
      parent, never := FileQuery(db, row.parent, false);
    }
    var children := 0;
    if withChildren && row.kind == Directory {
      var count := db.CountChildren(id);
      if count == None { return None, true; }
      children := count.value;
    }
    crashed := false;
    file := Some(FileInfo(id, row.name, row.kind, StSize(row), parent, children));
  }

  method FileQueryName(db: Connection, name: string, parent: nat, withChildren: bool)
    returns (file: Option<FileInfo>, crashed: bool)
    requires db.Idle() && IsTree(db.tables.files)
    modifies db
    ensures db.Idle() && db.tables == old(db.tables) && old(db.clock) < db.clock
    ensures file.Some? ==>
      && Describes(db.tables.files, file.value.id, file.value)
      && Child(db.tables.files, parent, name) == Some(file.value.id)
    ensures file.Some? && withChildren ==>
      file.value.children == if file.value.kind == Directory then |ChildrenOf(db.tables.files, file.value.id)| else 0
    ensures db.Healthy(old(db.clock)) ==> (file.Some? <==> Child(db.tables.files, parent, name).Some?)
    ensures db.Healthy(old(db.clock)) && file.Some? ==> Complete(file.value)
    ensures crashed ==> file == None && withChildren && !db.Healthy(old(db.clock))
  {
    hide Schema, IsTree, ChildrenOf, Child, Complete;
    var res := db.SelectChild(parent, name);
    if res == None { return None, false; }
    ChildSelected(db.tables.files, parent, name, res.value);
    if res.value == None { return None, false; }
    file, crashed := FileQuery(db, res.value.value, withChildren);
  }

  /** At most one row has the key, so whichever the SELECT returns is the child. */
  lemma ChildSelected(files: Files, parent: nat, name: string, c: Option<nat>)
    requires IsTree(files)
    requires c.Some? ==> c.value in files && files[c.value].parent == parent && files[c.value].name == name
    requires c == None ==> KeyFree(files, parent, name, None)
    ensures Child(files, parent, name) == c
    ensures c.Some? ==> c.value in files
  {
    if c.Some? {
      ChildOf(files, c.value);
    } else if Child(files, parent, name).Some? {
      var x := Child(files, parent, name).value;
      assert files[x].parent == parent;
    }
  }

  /** Some proper prefix of the names leads nowhere. */
  ghost predicate Breaks(files: Files, names: seq<string>) {
    names != [] && Resolve(files, names[..|names| - 1]) == None
  }

  /** In the table that holds the root alone, "/a/b" breaks. */
  lemma BreaksExample(root: FileRow)
    requires root.parent == ROOT && root.name == ""
    ensures Breaks(map[ROOT := root], ["a", "b"])
  {
    var files: Files := map[ROOT := root];
    ResolveLast(files, [], "a");
    assert ["a", "b"][..1] == [] + ["a"];
  }

  /** The path walk. A walk that has found nothing, because a name does not exist or a query
      failed, goes on to the next name through a null pointer: it crashes, as it does when a query
      for children fails. */
  method FileGet(db: Connection, path: string, withChildren: bool) returns (file: Option<FileInfo>, crashed: bool)
    requires db.Idle() && IsTree(db.tables.files) && path != ""
    modifies db
    ensures db.Idle() && db.tables == old(db.tables) && old(db.clock) < db.clock
    ensures file.Some? ==>
      && Describes(db.tables.files, file.value.id, file.value)
      && Resolve(db.tables.files, Tokens(path[1..])) == Some(file.value.id)
    ensures file.Some? && withChildren ==>
      file.value.children == if file.value.kind == Directory then |ChildrenOf(db.tables.files, file.value.id)| else 0
    ensures db.Healthy(old(db.clock)) ==> (file.Some? <==> Resolve(db.tables.files, Tokens(path[1..])).Some?)
    ensures db.Healthy(old(db.clock)) && file.Some? ==> Complete(file.value)
    ensures crashed ==> file == None
    ensures crashed && db.Healthy(old(db.clock)) ==> Tokens(path[1..]) != []
    ensures db.Healthy(old(db.clock)) ==> (crashed <==> Breaks(db.tables.files, Tokens(path[1..])))
  {
    hide Schema, IsTree, ChildrenOf, Child, Complete, Resolve, StrTok, Describes, Tokens;
    ghost var files, names := db.tables.files, Tokens(path[1..]);
    WalkStart(files);
    file, crashed := FileQueryName(db, "", ROOT, withChildren);
    var (name, save) := StrTok(path[1..], '/');
    ghost var done: seq<string> := [];
    TokensStep(path[1..]);
    assert done == [];
    while file.Some? && name.Some?
      invariant db.Idle() && db.tables == old(db.tables) && old(db.clock) < db.clock
      invariant names == done + (if name.Some? then [name.value] + Tokens(save) else [])
      invariant file.Some? ==> Describes(files, file.value.id, file.value) && Resolve(files, done) == Some(file.value.id)
      invariant file.Some? && withChildren ==>
        file.value.children == if file.value.kind == Directory then |ChildrenOf(files, file.value.id)| else 0
      invariant db.Healthy(old(db.clock)) ==> if file == None then Broke(files, done) else !Breaks(files, done)
      invariant db.Healthy(old(db.clock)) && file.Some? ==> Complete(file.value)
      invariant crashed ==> file == None && !db.Healthy(old(db.clock))
      decreases |save|, name.Some?
    {
      WalkStep(files, done, name.value);
      StepBreaks(files, done, name.value);
      TokensStep(save);
      file, crashed := FileQueryName(db, name.value, file.value.id, withChildren);
      done := done + [name.value];
      var next := StrTok(save, '/');
      name, save := next.0, next.1;
    }
    crashed := crashed || (file == None && name.Some?);
    if name.Some? {
      WalkBreaks(files, done, name.value, Tokens(save));
    } else {
      assert names == done + [] == done;
    }
  }

  /** The walk has just failed: the last name was the first to lead nowhere. */
  ghost predicate Broke(files: Files, done: seq<string>) {
    Resolve(files, done) == None && !Breaks(files, done)
  }

  lemma StepBreaks(files: Files, done: seq<string>, name: string)
    requires Resolve(files, done).Some?
    ensures !Breaks(files, done + [name])
  {
    assert (done + [name])[..|done|] == done;
  }

  lemma WalkBreaks(files: Files, done: seq<string>, name: string, rest: seq<string>)
    ensures var names := done + ([name] + rest);
      Resolve(files, done) == None ==> Resolve(files, names) == None && Breaks(files, names)
  {
    var names := done + ([name] + rest);
    assert names[..|done|] == done && names[..|names| - 1][..|done|] == done;
    if Resolve(files, done) == None {
      WalkBroken(files, done, names);
      WalkBroken(files, done, names[..|names| - 1]);
    }
  }

  lemma WalkStart(files: Files)
    requires IsTree(files)
    ensures Child(files, ROOT, "") == Some(ROOT) && Resolve(files, []) == Some(ROOT)
  {
    ChildOf(files, ROOT);
  }

  lemma WalkStep(files: Files, done: seq<string>, name: string)
    requires Resolve(files, done).Some?
    ensures Resolve(files, done + [name]) == Child(files, Resolve(files, done).value, name)
  {
    ResolveLast(files, done, name);
  }

  lemma {:induction false} WalkBroken(files: Files, done: seq<string>, names: seq<string>)
    requires done <= names && Resolve(files, done) == None
    ensures Resolve(files, names) == None
    decreases |names|
  {
    if |done| < |names| {
      WalkBroken(files, done, names[..|names| - 1]);
    } else {
      assert done == names;
    }
  }
}
