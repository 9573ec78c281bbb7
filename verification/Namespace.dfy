/** The callbacks of `myfs.c` that change the tree, down to the statements of `myfs_db.c`. */
module Namespace {
  import opened Database
  import opened Tree
  import opened TreeChange
  import opened Paths
  import opened Query

  const EPERM := -1
  const ENOENT := -2
  const EIO := -5
  const EEXIST := -17
  const EINVAL := -22
  const ENOTEMPTY := -39

  /** Not a result code: the process has died of a null pointer. */
  const CRASH := 1

  /** The numbers of the errors, negated, and of the rename flags. */
  lemma Numbers()
    ensures [EPERM, ENOENT, EIO, EEXIST, EINVAL, ENOTEMPTY] == [-1, -2, -5, -17, -22, -39]
    ensures RENAME_NOREPLACE == 1 && RENAME_EXCHANGE == 2
  {
  }

  /** An idle connection whose `files` form a tree. */
  ghost predicate Ready(db: Connection)
    reads db
  {
    db.Idle() && IsTree(db.tables.files)
  }

  predicate Absolute(path: string) {
    path != "" && path[0] == '/'
  }

  /** The node a path string leads to. */
  ghost function Lookup(files: Files, path: string): Option<nat> {
    Resolve(files, Tokens(path))
  }

  ghost function LookupParent(files: Files, path: string): Option<nat>
    requires '/' in path
  {
    Lookup(files, DirName(path))
  }

  /** What comes of looking up `path` when no query fails. The walk crashes if a directory on the
      way is missing; the kernel looks up every directory first, so it asks for no such path. */
  ghost function GetCode(files: Files, path: string): int {
    if Lookup(files, path).Some? then 0 else if Breaks(files, Tokens(path)) then CRASH else ENOENT
  }

  lemma PathFacts(path: string)
    requires Absolute(path)
    ensures Tokens(path[1..]) == Tokens(path) && ProperNames(Tokens(path))
  {
    TokensSlash(path);
    TokensProper(path);
  }

  lemma DirFacts(path: string)
    requires FusePath(path)
    ensures '/' in path && Absolute(DirName(path)) && ValidName(BaseName(path)) && |BaseName(path)| <= NAME_MAX
  {
    NameParts(path);
  }

  lemma LookupInFiles(files: Files, path: string)
    requires IsTree(files) && Absolute(path) && Lookup(files, path).Some?
    ensures Lookup(files, path).value in files
    ensures NamePath(files, Lookup(files, path).value) == Tokens(path)
  {
    PathFacts(path);
    ResolveIff(files, Tokens(path), Lookup(files, path).value);
  }

  /** `myfs_file_get` for an absolute path, and how its caller goes on. */
  method Get(db: Connection, path: string, withChildren: bool) returns (ret: int, file: Option<FileInfo>)
    requires Ready(db) && Absolute(path)
    modifies db
    ensures Ready(db) && db.tables == old(db.tables) && old(db.clock) < db.clock
    ensures ret in {0, ENOENT, CRASH} && (ret == 0 <==> file.Some?)
    ensures file.Some? ==>
      && Describes(db.tables.files, file.value.id, file.value)
      && Lookup(db.tables.files, path) == Some(file.value.id)
    ensures file.Some? && withChildren ==>
      file.value.children == if file.value.kind == Directory then |ChildrenOf(db.tables.files, file.value.id)| else 0
    ensures db.Healthy(old(db.clock)) ==> ret == GetCode(db.tables.files, path)
    ensures db.Healthy(old(db.clock)) ==>
      && (ret == 0 <==> Lookup(db.tables.files, path).Some?)
      && (ret == CRASH <==> Breaks(db.tables.files, Tokens(path)))
    ensures db.Healthy(old(db.clock)) && file.Some? ==> Complete(file.value)
  {
    hide IsTree, Resolve, Describes, Complete, ChildrenOf, Breaks;
    PathFacts(path);
    var crashed;
    file, crashed := FileGet(db, path, withChildren);
    ret := if crashed then CRASH else if file == None then ENOENT else 0;
  }

  /** A key is free, but for `self`, exactly when the child there, if any, is `self`. */
  lemma KeyFreeIsChild(files: Files, parent: nat, name: string, self: Option<nat>)
    requires UniqueNames(files) && (self.Some? ==> self.value in files)
    ensures KeyFree(files, parent, name, self) <==>
      Child(files, parent, name) == None || Child(files, parent, name) == self
  {
    var c := Child(files, parent, name);
    if KeyFree(files, parent, name, self) && c.Some? {
      assert files[c.value].parent == parent;
    }
  }

  lemma TreeNames(files: Files)
    requires IsTree(files)
    ensures UniqueNames(files)
  {
  }

  // ------------------------------------------------------------ creating

  /** The result code of making a node at `path` when no query fails. */
  ghost function CreateCode(files: Files, path: string): int
    requires '/' in path
  {
    match LookupParent(files, path)
    case None => GetCode(files, DirName(path))
    case Some(p) => if KeyFree(files, p, BaseName(path), None) then 0 else EIO
  }

  /** One row is added, with no bytes; every other file keeps its row and its bytes. */
  ghost predicate NodeAdded(t: Tables, u: Tables, path: string, kind: Kind)
    requires '/' in path
  {
    && LookupParent(t.files, path).Some?
    && u.files == t.files[t.nextId := FileRow(LookupParent(t.files, path).value, BaseName(path), kind, 0)]
    && u.data == t.data[t.nextId := []]
  }

  /** The directory exists and has no entry of the name. */
  ghost predicate PlaceFree(files: Files, path: string)
    requires '/' in path
  {
    LookupParent(files, path).Some? && Child(files, LookupParent(files, path).value, BaseName(path)) == None
  }

  /** Making a node succeeds in every directory that has no such entry; an entry is an I/O error, a
      missing directory is not found. */
  lemma CreateCodeMeaning(files: Files, path: string)
    requires IsTree(files) && '/' in path
    ensures CreateCode(files, path) == 0 <==> PlaceFree(files, path)
    ensures CreateCode(files, path) == EIO <==> LookupParent(files, path).Some? && !PlaceFree(files, path)
    ensures CreateCode(files, path) == CRASH <==> Breaks(files, Tokens(DirName(path)))
  {
    hide Breaks, Resolve, Child, KeyFree;
    TreeNames(files);
    hide IsTree;
    if LookupParent(files, path).Some? {
      KeyFreeIsChild(files, LookupParent(files, path).value, BaseName(path), None);
      FoundUnbroken(files, Tokens(DirName(path)));
    }
  }

  lemma FoundUnbroken(files: Files, names: seq<string>)
    requires Resolve(files, names).Some?
    ensures !Breaks(files, names)
  {
    if names != [] { assert Resolve(files, names[..|names| - 1]).Some?; }
  }

  /** The tables with a new, empty node at `path`. */
  ghost function WithNode(t: Tables, path: string, kind: Kind): Tables
    requires '/' in path && LookupParent(t.files, path).Some?
  {
    var p := LookupParent(t.files, path).value;
    Tables(Created(t.files, t.nextId, p, BaseName(path), kind), t.data[t.nextId := []], t.nextId + 1)
  }

  /** `myfs_db_file_create`: 0 stands for failure, which no new id can be. */
  method FileCreate(db: Connection, name: string, kind: Kind, parent: nat) returns (id: nat)
    requires db.Idle()
    modifies db
    ensures db.Idle() && db.clock == old(db.clock) + 1
    ensures id == 0 ==> db.tables == old(db.tables)
    ensures id != 0 ==>
      && id == old(db.tables.nextId) && id !in old(db.tables.files)
      && KeyFree(old(db.tables.files), parent, name, None)
      && db.tables == Tables(Created(old(db.tables.files), id, parent, name, kind), old(db.tables.data)[id := []], id + 1)
    ensures id != 0 <==>
      && old(db.clock) !in db.faults && parent in old(db.tables.files)
      && |name| <= NAME_MAX && KeyFree(old(db.tables.files), parent, name, None)
  {
    assert db.tables.nextId > 0;
    var ok := db.Query(InsertFile(parent, name, kind));
    id := if ok then db.tables.nextId - 1 else 0;
  }

  /** What `myfs_mkdir`, `myfs_create` and `myfs_symlink` have in common: the path is split, its
      directory looked up and a node inserted there. */
  method MakeNode(db: Connection, path: string, kind: Kind) returns (ret: int, id: nat)
    requires Ready(db) && FusePath(path)
    modifies db
    ensures Ready(db) && '/' in path && old(db.clock) < db.clock
    ensures ret != 0 ==> db.tables == old(db.tables)
    ensures ret == 0 ==>
      && CreateCode(old(db.tables.files), path) == 0
      && db.tables == WithNode(old(db.tables), path, kind)
      && id == old(db.tables.nextId) && id !in old(db.tables.files)
    ensures ret == 0 ==> NodeAdded(old(db.tables), db.tables, path, kind)
    ensures db.Healthy(old(db.clock)) ==> ret == CreateCode(old(db.tables.files), path)
    ensures db.Healthy(old(db.clock)) ==> (ret == 0 <==> PlaceFree(old(db.tables.files), path))
  {
    hide IsTree, Schema, Resolve, Describes, Complete, KeyFree;
    ghost var files := db.tables.files;
    CreateCodeMeaning(files, path);
    DirFacts(path);
    id := 0;
    var parent;
    ret, parent := Get(db, DirName(path), false);
    if ret != 0 { return; }
    LookupInFiles(files, DirName(path));
    id := FileCreate(db, BaseName(path), kind, parent.value.id);
    if id == 0 { return EIO, 0; }
    CreateKeepsTree(files, id, parent.value.id, BaseName(path), kind);
    ret := 0;
  }

  /** The new node is at its path if and only if splitting the path has lost nothing; otherwise
      the path leads where it did. */
  lemma NodeFound(t: Tables, path: string, kind: Kind)
    requires Schema(t) && IsTree(t.files) && FusePath(path) && '/' in path && CreateCode(t.files, path) == 0
    ensures var u := WithNode(t, path, kind);
      && IsTree(u.files)
      && Lookup(u.files, path) == (if SplitsWhole(path) then Some(t.nextId) else Lookup(t.files, path))
      && (Lookup(u.files, path) == Some(t.nextId) <==> SplitsWhole(path))
  {
    hide IsTree, Resolve, Tokens, KeyFree, NamePath, Schema;
    var p := LookupParent(t.files, path).value;
    DirFacts(path);
    LookupInFiles(t.files, DirName(path));
    TokensProper(path);
    NextIdFree(t);
    CreateKeepsTree(t.files, t.nextId, p, BaseName(path), kind);
    CreateResolves(t.files, t.nextId, p, BaseName(path), kind, Tokens(path));
    if Lookup(t.files, path).Some? { ResolveIff(t.files, Tokens(path), Lookup(t.files, path).value); }
  }

  lemma NextIdFree(t: Tables)
    requires Schema(t)
    ensures t.nextId !in t.files
  {
  }

  method Mkdir(db: Connection, path: string) returns (ret: int)
    requires Ready(db) && FusePath(path)
    modifies db
    ensures Ready(db) && '/' in path && old(db.clock) < db.clock
    ensures ret != 0 ==> db.tables == old(db.tables)
    ensures ret == 0 ==> CreateCode(old(db.tables.files), path) == 0 && db.tables == WithNode(old(db.tables), path, Directory)
    ensures ret == 0 ==> NodeAdded(old(db.tables), db.tables, path, Directory)
    ensures db.Healthy(old(db.clock)) ==> ret == CreateCode(old(db.tables.files), path)
    ensures db.Healthy(old(db.clock)) ==> (ret == 0 <==> PlaceFree(old(db.tables.files), path))
  {
    hide *;
    var id;
    ret, id := MakeNode(db, path, Directory);
  }

  // ------------------------------------------------------------ deleting

  /** The tables without the subtree at `f`, rows and data alike. */
  function Without(t: Tables, f: nat): Tables {
    var doomed := Cascade(t.files, {f});
    t.(files := t.files - doomed, data := t.data - doomed)
  }

  /** `myfs_db_file_delete`. */
  method FileDelete(db: Connection, id: nat) returns (success: bool)
    requires Ready(db)
    modifies db
    ensures Ready(db) && db.clock == old(db.clock) + 1
    ensures success <==> old(db.clock) !in db.faults && id != ROOT
    ensures db.tables == if success then Without(old(db.tables), id) else old(db.tables)
    ensures id !in old(db.tables.files) ==> db.tables == old(db.tables)
    // What lies below the file goes, and everything else stays as it was, bytes included.
    ensures success && id in old(db.tables.files) ==>
      forall x :: x in db.tables.files <==> x in old(db.tables.files) && !Below(old(db.tables.files), id, x)
    ensures forall x :: x in db.tables.files ==>
      && x in old(db.tables.files) && db.tables.files[x] == old(db.tables.files)[x]
      && RowsOf(db.tables, x) == RowsOf(old(db.tables), x)
  {
    hide Schema, IsTree, Cascade;
    SchemaRoot(db.tables);
    if id in db.tables.files { WithoutMeaning(db.tables, id); }
    if id !in db.tables.files {
      WithoutMissing(db.tables, id);
    } else if id != ROOT {
      DeleteKeepsTree(db.tables.files, id);
    } else {
      assert ROOT in Cascade(db.tables.files, {ROOT});
    }
    success := db.Query(DeleteFile(id));
  }

  /** What is left without a file: the files not below it, with their rows and bytes. */
  lemma WithoutMeaning(t: Tables, f: nat)
    requires Schema(t) && f in t.files
    ensures var u := Without(t, f);
      && (forall x :: x in u.files <==> x in t.files && !Below(t.files, f, x))
      && (forall x :: x in u.files ==> u.files[x] == t.files[x] && RowsOf(u, x) == RowsOf(t, x))
  {
    SchemaKeys(t);
    CascadeIsSubtree(t.files, f);
    hide Schema, Cascade, Below;
    Remaining(t.files, Cascade(t.files, {f}));
    Remaining(t.data, Cascade(t.files, {f}));
  }

  lemma Remaining<V>(m: map<nat, V>, gone: set<nat>)
    ensures forall x :: x in m - gone <==> x in m && x !in gone
    ensures forall x :: x in m - gone ==> (m - gone)[x] == m[x]
  {
  }

  lemma SchemaRoot(t: Tables)
    requires Schema(t)
    ensures ROOT in t.files
  {
  }

  /** Without a row to delete, nothing changes. */
  lemma WithoutMissing(t: Tables, f: nat)
    requires Schema(t) && f !in t.files
    ensures Without(t, f) == t
  {
    SchemaKeys(t);
    hide Schema, Cascade;
    CascadeMissing(t.files, f);
    MinusMissing(t.files, f);
    MinusMissing(t.data, f);
  }

  lemma MinusMissing<V>(m: map<nat, V>, f: nat)
    requires f !in m
    ensures m - {f} == m
  {
  }

  lemma SchemaKeys(t: Tables)
    requires Schema(t)
    ensures ParentsExist(t.files) && t.data.Keys == t.files.Keys
  {
  }

  lemma CascadeMissing(files: Files, f: nat)
    requires ParentsExist(files) && f !in files
    ensures Cascade(files, {f}) == {f}
  {
    var next := set x | x in files && files[x].parent in {f};
    assert next == {};
  }

  ghost function UnlinkCode(files: Files, path: string): int {
    match Lookup(files, path)
    case None => GetCode(files, path)
    case Some(f) => if f == ROOT then EIO else 0
  }

  method Unlink(db: Connection, path: string) returns (ret: int)
    requires Ready(db) && Absolute(path)
    modifies db
    ensures Ready(db) && old(db.clock) < db.clock
    ensures ret != 0 ==> db.tables == old(db.tables)
    ensures ret == 0 ==>
      && UnlinkCode(old(db.tables.files), path) == 0
      && db.tables == Without(old(db.tables), Lookup(old(db.tables.files), path).value)
    ensures ret == 0 ==> forall x ::
      x in db.tables.files <==>
        x in old(db.tables.files) && !Below(old(db.tables.files), Lookup(old(db.tables.files), path).value, x)
    ensures forall x :: x in db.tables.files ==>
      && x in old(db.tables.files) && db.tables.files[x] == old(db.tables.files)[x]
      && RowsOf(db.tables, x) == RowsOf(old(db.tables), x)
    ensures db.Healthy(old(db.clock)) ==> ret == UnlinkCode(old(db.tables.files), path)
    ensures db.Healthy(old(db.clock)) ==>
      match Lookup(old(db.tables.files), path)
      case None => ret == if Breaks(old(db.tables.files), Tokens(path)) then CRASH else ENOENT
      case Some(f) => ret == if f == 0 then EIO else 0
  {
    hide IsTree, Schema, Resolve, Complete, Cascade;
    var file;
    ret, file := Get(db, path, false);
    if ret != 0 { return; }
    LookupInFiles(db.tables.files, path);
    var success := FileDelete(db, file.value.id);
    if !success { return EIO; }
    ret := 0;
  }

  ghost predicate FullDirectory(files: Files, f: nat) {
    f in files && files[f].kind == Directory && exists x :: x in files && x != 0 && files[x].parent == f
  }

  lemma FullMeaning(files: Files, f: nat)
    requires f in files
    ensures FullDirectory(files, f) <==> files[f].kind == Directory && ChildrenOf(files, f) != {}
  {
    if FullDirectory(files, f) {
      var x :| x in files && x != 0 && files[x].parent == f;
      assert x in ChildrenOf(files, f);
    }
    if ChildrenOf(files, f) != {} {
      var x :| x in ChildrenOf(files, f);
      assert files[x].parent == f;
    }
  }

  ghost function RmdirCode(files: Files, path: string): int {
    match Lookup(files, path)
    case None => GetCode(files, path)
    case Some(f) =>
      if f == ROOT then EPERM
      else if f in files && files[f].kind == Directory && ChildrenOf(files, f) != {} then ENOTEMPTY
      else 0
  }

  method Rmdir(db: Connection, path: string) returns (ret: int)
    requires Ready(db) && Absolute(path)
    modifies db
    ensures Ready(db) && old(db.clock) < db.clock
    ensures ret != 0 ==> db.tables == old(db.tables)
    ensures ret == 0 ==>
      && RmdirCode(old(db.tables.files), path) == 0
      && db.tables == Without(old(db.tables), Lookup(old(db.tables.files), path).value)
    ensures ret == 0 ==> forall x ::
      x in db.tables.files <==>
        x in old(db.tables.files) && !Below(old(db.tables.files), Lookup(old(db.tables.files), path).value, x)
    ensures forall x :: x in db.tables.files ==>
      && x in old(db.tables.files) && db.tables.files[x] == old(db.tables.files)[x]
      && RowsOf(db.tables, x) == RowsOf(old(db.tables), x)
    ensures db.Healthy(old(db.clock)) ==> ret == RmdirCode(old(db.tables.files), path)
    ensures db.Healthy(old(db.clock)) ==>
      match Lookup(old(db.tables.files), path)
      case None => ret == if Breaks(old(db.tables.files), Tokens(path)) then CRASH else ENOENT
      case Some(f) => ret == if f == 0 then EPERM else if FullDirectory(old(db.tables.files), f) then ENOTEMPTY else 0
  {
    hide IsTree, Schema, Resolve, Complete, Cascade, ChildrenOf, FullDirectory;
    if Lookup(db.tables.files, path).Some? {
      LookupInFiles(db.tables.files, path);
      FullMeaning(db.tables.files, Lookup(db.tables.files, path).value);
    }
    var file;
    ret, file := Get(db, path, true);
    if ret != 0 { return; }
    LookupInFiles(db.tables.files, path);
    if file.value.id == ROOT { return EPERM; }
    if file.value.children > 0 { return ENOTEMPTY; }
    var success := FileDelete(db, file.value.id);
    if !success { return EIO; }
    ret := 0;
  }

  lemma {:induction false} NothingBelowChildless(files: Files, f: nat, x: nat)
    requires IsTree(files) && f in files && x in files && f != ROOT && ChildrenOf(files, f) == {}
    requires Below(files, f, x)
    ensures x == f
    decreases Depth(files, x)
  {
    hide IsTree, Depth;
    if x != f {
      TreeFacts(files, f);
      NotBelowRoot(files, f);
      BelowParent(files, f, x);
      DepthParent(files, x);
      TreeFacts(files, x);
      assert files[x].parent == f ==> x in ChildrenOf(files, f);
      NothingBelowChildless(files, f, files[x].parent);
    }
  }

  /** Removing a directory that passed the emptiness check removes that one row only. */
  lemma RmdirRemovesOne(files: Files, f: nat)
    requires IsTree(files) && f in files && f != ROOT && ChildrenOf(files, f) == {}
    ensures Cascade(files, {f}) == {f}
  {
    hide IsTree, Cascade;
    TreeRow(files, f);
    CascadePrunesTree(files, f);
    BelowSelf(files, f);
    var fs := files - Cascade(files, {f});
    CascadeSubset(files, f);
    forall x | x in Cascade(files, {f})
      ensures x == f
    {
      assert x in files && x !in fs;
      NothingBelowChildless(files, f, x);
    }
  }

  lemma CascadeSubset(files: Files, f: nat)
    requires IsTree(files) && f in files
    ensures Cascade(files, {f}) <= files.Keys && f in Cascade(files, {f})
  {
    CascadeIsSubtree(files, f);
  }

  // ------------------------------------------------------------ renaming

  /** The existence check of a rename looks the bare new name up as if it were a path, so its
      first character is skipped and the rest sought in the root. */
  ghost predicate PreCheckFinds(files: Files, name: string)
    requires name != ""
  {
    Resolve(files, Tokens(name[1..])).Some?
  }

  /** What the check really asks: whether the root has an entry named like the new name without
      its first character. For a name of one character it always answers yes. */
  lemma PreCheckMeaning(files: Files, name: string)
    requires IsTree(files) && ValidName(name)
    ensures PreCheckFinds(files, name) <==> |name| == 1 || Child(files, ROOT, name[1..]).Some?
  {
    hide IsTree;
    if |name| > 1 {
      TokensOfName(name[1..]);
      ResolveLast(files, [], name[1..]);
      assert [] + [name[1..]] == [name[1..]];
    } else {
      TokensSlash("");
    }
  }

  lemma OneNameNeverBreaks(files: Files, name: string)
    requires ValidName(name)
    ensures !Breaks(files, Tokens(name[1..]))
  {
    hide Tokens;
    if |name| > 1 {
      TokensOfName(name[1..]);
      assert Tokens(name[1..])[..0] == [];
    } else {
      TokensSlash("");
    }
  }

  /** What the kernel checks before it asks for a rename. */
  ghost predicate MoveAllowed(files: Files, old': string, new': string)
    requires '/' in new'
  {
    Lookup(files, old').Some? && LookupParent(files, new').Some? ==>
      Lookup(files, old').value != ROOT && !Below(files, Lookup(files, old').value, LookupParent(files, new').value)
  }

  ghost function MoveCode(files: Files, old': string, new': string): int
    requires '/' in new' && BaseName(new') != ""
  {
    if PreCheckFinds(files, BaseName(new')) then EEXIST
    else match Lookup(files, old')
      case None => GetCode(files, old')
      case Some(f) =>
        match LookupParent(files, new')
        case None => GetCode(files, DirName(new'))
        case Some(p) => if KeyFree(files, p, BaseName(new'), Some(f)) then 0 else EIO
  }

  /** The root has no entry named like the new name without its first character, both the file and
      the new directory exist, and there is no other entry of the name. */
  ghost predicate CanBeMoved(files: Files, old': string, new': string)
    requires '/' in new' && BaseName(new') != ""
  {
    && |BaseName(new')| > 1 && Child(files, 0, BaseName(new')[1..]) == None
    && Lookup(files, old').Some? && LookupParent(files, new').Some?
    && Child(files, LookupParent(files, new').value, BaseName(new')) in {None, Lookup(files, old')}
  }

  /** A rename succeeds in every such case, and in no other. */
  lemma MoveCodeMeaning(files: Files, old': string, new': string)
    requires IsTree(files) && Absolute(old') && FusePath(new') && '/' in new' && BaseName(new') != ""
    ensures MoveCode(files, old', new') == 0 <==> CanBeMoved(files, old', new')
  {
    hide Breaks, Resolve, Child, KeyFree, Tokens;
    DirFacts(new');
    PreCheckMeaning(files, BaseName(new'));
    TreeNames(files);
    if Lookup(files, old').Some? && LookupParent(files, new').Some? {
      LookupInFiles(files, old');
      KeyFreeIsChild(files, LookupParent(files, new').value, BaseName(new'), Lookup(files, old'));
    }
  }

  /** The tables after a successful move; they are well-defined whenever the two lookups succeed. */
  ghost predicate MovedTo(t: Tables, u: Tables, old': string, new': string)
    requires '/' in new'
  {
    && Lookup(t.files, old').Some? && LookupParent(t.files, new').Some?
    && var f, p := Lookup(t.files, old').value, LookupParent(t.files, new').value;
       && CanMove(t.files, f, p, BaseName(new'))
       && u == t.(files := Moved(t.files, f, p, BaseName(new')))
  }

  /** `myfs_db_file_rename`. */
  method FileRename(db: Connection, id: nat, parent: nat, name: string) returns (success: bool)
    requires db.Idle()
    modifies db
    ensures db.Idle() && db.clock == old(db.clock) + 1
    ensures success <==>
      && old(db.clock) !in db.faults
      && (id in old(db.tables.files) ==>
            parent in old(db.tables.files) && |name| <= NAME_MAX && KeyFree(old(db.tables.files), parent, name, Some(id)))
    ensures db.tables ==
      if success && id in old(db.tables.files) then old(db.tables).(files := Moved(old(db.tables.files), id, parent, name))
      else old(db.tables)
    // Of its own row only parent and name change.
    ensures success && id in old(db.tables.files) ==>
      db.tables.files == old(db.tables.files)[id := old(db.tables.files)[id].(parent := parent, name := name)]
    ensures db.tables.data == old(db.tables.data)
  {
    hide Schema;
    success := db.Query(MoveFile(id, parent, name));
  }

  method RenameMove(db: Connection, old': string, new': string) returns (ret: int)
    requires Ready(db) && Absolute(old') && FusePath(new') && '/' in new' && MoveAllowed(db.tables.files, old', new')
    modifies db
    ensures Ready(db) && BaseName(new') != "" && old(db.clock) < db.clock
    ensures ret != 0 ==> db.tables == old(db.tables)
    ensures ret == 0 ==> MovedTo(old(db.tables), db.tables, old', new')
    // Every file keeps its kind, size and bytes; every other its parent and name too.
    ensures db.tables.data == old(db.tables.data)
    ensures ret == 0 ==>
      && Lookup(old(db.tables.files), old').Some? && LookupParent(old(db.tables.files), new').Some?
      && var f, p := Lookup(old(db.tables.files), old').value, LookupParent(old(db.tables.files), new').value;
         && f in old(db.tables.files)
         && db.tables.files == old(db.tables.files)[f := old(db.tables.files)[f].(parent := p, name := BaseName(new'))]
    ensures db.Healthy(old(db.clock)) ==> ret == MoveCode(old(db.tables.files), old', new')
    ensures db.Healthy(old(db.clock)) ==> (ret == 0 <==> CanBeMoved(old(db.tables.files), old', new'))
  {
    hide IsTree, Schema, Resolve, Complete, KeyFree, Below, Describes, ChildrenOf;
    ghost var files := db.tables.files;
    DirFacts(new');
    MoveCodeMeaning(files, old', new');
    var name := BaseName(new');
    OneNameNeverBreaks(files, name);
    var existing, crashed := FileGet(db, name, false);
    if crashed { return CRASH; }
    if existing.Some? { return EEXIST; }
    var file, dir;
    ret, file := Get(db, old', false);
    if ret != 0 { return; }
    ret, dir := Get(db, DirName(new'), false);
    if ret != 0 { return; }
    var f, p := file.value.id, dir.value.id;
    LookupInFiles(files, old');
    LookupInFiles(files, DirName(new'));
    var success := FileRename(db, f, p, name);
    if !success { return EIO; }
    MoveKeepsTree(files, f, p, name);
    ret := 0;
  }

  /** A successful rename in terms of path strings: the file and whatever was below it are where
      directory and base name of the new path lead, and the old path is gone unless it leads there
      too. The new path leads to the file if and only if splitting it has lost nothing. */
  lemma RenameMeaning(t: Tables, u: Tables, old': string, new': string, rest: string)
    requires Absolute(old') && FusePath(new') && '/' in new' && IsTree(t.files) && MovedTo(t, u, old', new')
    ensures Lookup(u.files, new') == Lookup(t.files, old') <==> SplitsWhole(new')
    ensures SplitsWhole(new') ==> Lookup(u.files, new' + "/" + rest) == Lookup(t.files, old' + "/" + rest)
    ensures var n := Tokens(DirName(new')) + [BaseName(new')];
      && Resolve(u.files, n) == Lookup(t.files, old')
      && Resolve(u.files, n + Tokens(rest)) == Lookup(t.files, old' + "/" + rest)
      && (Tokens(old') != n ==> Lookup(u.files, old') == None && Lookup(u.files, old' + "/" + rest) == None)
  {
    hide IsTree, Resolve, Tokens, NamePath, Below, KeyFree;
    var f, p, name := Lookup(t.files, old').value, LookupParent(t.files, new').value, BaseName(new');
    LookupInFiles(t.files, old');
    DirFacts(new');
    LookupInFiles(t.files, DirName(new'));
    var o, n := Tokens(old'), Tokens(DirName(new')) + [name];
    NamesOf(new', rest);
    NamesOf(old', rest);
    ProperJoin(DirName(new'), name, rest);
    MoveResolves(t.files, f, p, name, n);
    assert n[|n|..] == [] && o + [] == o;
    MoveResolves(t.files, f, p, name, n + Tokens(rest));
    assert (n + Tokens(rest))[|n|..] == Tokens(rest);
    ResolveIff(u.files, n, f);
    ResolveIff(u.files, Tokens(new'), f);
    MoveResolves(t.files, f, p, name, o);
    MoveResolves(t.files, f, p, name, o + Tokens(rest));
    if o != n { OldApart(t.files, f, p, name, rest); }
  }

  lemma NamesOf(path: string, rest: string)
    ensures Tokens(path + "/" + rest) == Tokens(path) + Tokens(rest)
    ensures ProperNames(Tokens(path)) && ProperNames(Tokens(path) + Tokens(rest))
  {
    TokensJoin(path, rest);
    TokensProper(path);
    TokensProper(path + "/" + rest);
  }

  lemma ProperJoin(dir: string, name: string, rest: string)
    requires ValidName(name)
    ensures ProperNames(Tokens(dir) + [name]) && ProperNames(Tokens(dir) + [name] + Tokens(rest))
  {
    TokensJoin(dir, name);
    TokensOfName(name);
    TokensJoin(dir + "/" + name, rest);
    TokensProper(dir + "/" + name);
    TokensProper(dir + "/" + name + "/" + rest);
  }

  lemma PrefixOfSum(n: seq<string>, a: seq<string>, b: seq<string>)
    requires n <= a + b
    ensures n <= a || |a| < |n|
  {
    assert |n| <= |a| ==> n == (a + b)[..|n|] == a[..|n|];
  }

  /** A new prefix that starts the old path, or a path below it, is the old path. */
  lemma OldApart(files: Files, f: nat, parent: nat, name: string, rest: string)
    requires CanMove(files, f, parent, name)
    requires NamePath(files, f) != NamePath(files, parent) + [name]
    ensures !(NamePath(files, parent) + [name] <= NamePath(files, f))
    ensures !(NamePath(files, parent) + [name] <= NamePath(files, f) + Tokens(rest))
  {
    hide IsTree, NamePath, Resolve, Tokens, KeyFree;
    var o, n := NamePath(files, f), NamePath(files, parent) + [name];
    NamePathResolves(files, f);
    if n <= o { NewPrefixIsOld(files, f, parent, name, o); }
    if n <= o + Tokens(rest) {
      PrefixOfSum(n, o, Tokens(rest));
      assert NamePath(files, parent) == n[..|n| - 1] == (o + Tokens(rest))[..|n| - 1];
      assert o == NamePath(files, parent)[..|o|];
      BelowIsPrefix(files, f, parent);
    }
  }

  // ------------------------------------------------------------ exchanging

  /** `myfs_db_file_swap`: a parent that could not be loaded counts as the root. */
  function ParentId(file: FileInfo): nat {
    if file.parent.Some? then file.parent.value.id else ROOT
  }

  /** Both updates of the swap pass the unique key. */
  ghost predicate SwapKeysFree(files: Files, f: nat, q: nat, g: nat, p: nat)
    requires f in files && g in files
  {
    && KeyFree(files, q, files[f].name, Some(f))
    && KeyFree(files[f := files[f].(parent := q)], p, files[g].name, Some(g))
  }

  method FileSwap(db: Connection, file1: FileInfo, file2: FileInfo) returns (success: bool)
    requires db.Idle() && file1.id in db.tables.files && file2.id in db.tables.files
    requires ParentId(file1) in db.tables.files && ParentId(file2) in db.tables.files
    modifies db
    ensures db.Idle() && old(db.clock) < db.clock
    ensures !success ==> db.tables == old(db.tables)
    ensures success ==> db.tables == old(db.tables).(files :=
      Reparented(old(db.tables.files), file1.id, ParentId(file2), file2.id, ParentId(file1)))
    ensures success <==>
      && db.Healthy(old(db.clock))
      && SwapKeysFree(old(db.tables.files), file1.id, ParentId(file2), file2.id, ParentId(file1))
  {
    hide Schema, KeyFree;
    var parent1, parent2 := ParentId(file1), ParentId(file2);
    success := db.Start();
    if !success { return false; }
    success := db.Query(SetParent(file1.id, parent2));
    if success {
      success := db.Query(SetParent(file2.id, parent1));
    }
    db.Stop(success);
  }

  /** The kernel exchanges neither the root nor a file with one below it. */
  ghost predicate SwapAllowed(files: Files, old': string, new': string) {
    Lookup(files, old').Some? && Lookup(files, new').Some? ==>
      var f, g := Lookup(files, old').value, Lookup(files, new').value;
      f != ROOT && g != ROOT && (f == g || (!Below(files, f, g) && !Below(files, g, f)))
  }

  ghost function SwapCode(files: Files, old': string, new': string): int {
    match Lookup(files, old')
    case None => GetCode(files, old')
    case Some(f) =>
      match Lookup(files, new')
      case None => GetCode(files, new')
      case Some(g) =>
        if f in files && g in files && SwapKeysFree(files, f, files[g].parent, g, files[f].parent) then 0 else EIO
  }

  /** Both files exist, and neither parent has another entry of the name that it is to get. */
  ghost predicate CanBeSwapped(files: Files, old': string, new': string) {
    && Lookup(files, old').Some? && Lookup(files, new').Some?
    && var f, g := Lookup(files, old').value, Lookup(files, new').value;
       && f in files && g in files
       && Child(files, files[g].parent, files[f].name) in {None, Some(f)}
       && Child(files, files[f].parent, files[g].name) in {None, Some(g)}
  }

  /** A swap succeeds in every such case and in no other; two files of one name in different
      directories are never exchanged. */
  lemma SwapCodeMeaning(files: Files, old': string, new': string)
    requires IsTree(files) && Absolute(old') && Absolute(new')
    ensures SwapCode(files, old', new') == 0 <==> CanBeSwapped(files, old', new')
    ensures CanBeSwapped(files, old', new') && Lookup(files, old') != Lookup(files, new') ==>
      files[Lookup(files, old').value].name != files[Lookup(files, new').value].name
  {
    hide Breaks, Resolve, Tokens, SwapKeysFree, Child;
    TreeNames(files);
    if Lookup(files, old').Some? && Lookup(files, new').Some? {
      LookupInFiles(files, old');
      LookupInFiles(files, new');
      SwapKeysMeaning(files, Lookup(files, old').value, Lookup(files, new').value);
    }
  }

  lemma SwapKeysMeaning(files: Files, f: nat, g: nat)
    requires UniqueNames(files) && f in files && g in files
    ensures SwapKeysFree(files, f, files[g].parent, g, files[f].parent) <==>
      && Child(files, files[g].parent, files[f].name) in {None, Some(f)}
      && Child(files, files[f].parent, files[g].name) in {None, Some(g)}
    ensures Child(files, files[g].parent, files[f].name) in {None, Some(f)} && f != g ==> files[f].name != files[g].name
  {
    var p, q, nf, ng := files[f].parent, files[g].parent, files[f].name, files[g].name;
    var fs := files[f := files[f].(parent := q)];
    ChildOf(files, f);
    ChildOf(files, g);
    KeyFreeIsChild(files, q, nf, Some(f));
    if KeyFree(files, q, nf, Some(f)) {
      AfterReparent(files, f, q, g, p);
      KeyFreeIsChild(files, p, ng, Some(g));
    }
  }

  /** Once `f` has moved, the other key is free for `g` exactly when it was before. */
  lemma AfterReparent(files: Files, f: nat, q: nat, g: nat, p: nat)
    requires UniqueNames(files) && f in files && g in files && q == files[g].parent && p == files[f].parent
    requires KeyFree(files, q, files[f].name, Some(f))
    ensures KeyFree(files[f := files[f].(parent := q)], p, files[g].name, Some(g)) <==>
      KeyFree(files, p, files[g].name, Some(g))
  {
    var fs := files[f := files[f].(parent := q)];
    assert f == g || files[f].name != files[g].name by { assert files[g].parent == q; }
    if KeyFree(fs, p, files[g].name, Some(g)) {
      forall x {:trigger files[x].parent} | x in files && files[x].parent == p && files[x].name == files[g].name
        ensures Some(x) == Some(g)
      {
        assert fs[x].name == files[x].name && (x != f ==> fs[x].parent == p);
      }
    }
    if KeyFree(files, p, files[g].name, Some(g)) {
      forall x {:trigger fs[x].parent} | x in fs && fs[x].parent == p && fs[x].name == files[g].name
        ensures Some(x) == Some(g)
      {
        assert x != f ==> files[x].parent == p;
      }
    }
  }

  /** Every file keeps its name, kind, size and bytes. */
  ghost predicate OnlyParents(t: Tables, u: Tables) {
    && u.data == t.data && u.files.Keys == t.files.Keys
    && forall x :: x in t.files ==> u.files[x] == t.files[x].(parent := u.files[x].parent)
  }

  lemma SameParents(t: Tables)
    ensures OnlyParents(t, t)
  {
  }

  /** The two files have each other's parent, and all others the one they had. */
  ghost predicate Exchanged(files: Files, fs: Files, f: nat, g: nat) {
    && f in files && g in files && files.Keys == fs.Keys
    && fs[f].parent == files[g].parent && fs[g].parent == files[f].parent
    && forall x :: x in files && x != f && x != g ==> fs[x] == files[x]
  }

  lemma ReparentedRows(t: Tables, f: nat, q: nat, g: nat, p: nat)
    requires f in t.files && g in t.files
    ensures var fs := Reparented(t.files, f, q, g, p);
      && OnlyParents(t, t.(files := fs))
      && (q == t.files[g].parent && p == t.files[f].parent ==> Exchanged(t.files, fs, f, g))
  {
  }

  /** Whatever parents could be loaded, the swap keeps the tree. */
  lemma SwapStaysTree(files: Files, f: nat, q: nat, g: nat, p: nat)
    requires IsTree(files) && f in files && g in files && f != ROOT && g != ROOT
    requires f == g || (!Below(files, f, g) && !Below(files, g, f))
    requires q == files[g].parent || q == ROOT
    requires p == files[f].parent || p == ROOT
    requires SwapKeysFree(files, f, q, g, p)
    ensures IsTree(Reparented(files, f, q, g, p))
  {
    hide IsTree, KeyFree;
    TreeRow(files, f);
    TreeRow(files, g);
    TreeFacts(files, f);
    NotBelowRoot(files, f);
    NotBelowRoot(files, g);
    OwnParent(files, f);
    OwnParent(files, g);
    if f == g {
      assert Reparented(files, f, q, g, p) == Moved(files, f, p, files[f].name);
      KeyFreeAfter(files, f, q, p);
      MoveKeepsTree(files, f, p, files[f].name);
    } else {
      BelowParent(files, f, g);
      BelowParent(files, g, f);
      ReparentKeepsTree(files, f, q, g, p);
    }
  }

  lemma KeyFreeAfter(files: Files, f: nat, q: nat, p: nat)
    requires f in files && KeyFree(files[f := files[f].(parent := q)], p, files[f].name, Some(f))
    ensures KeyFree(files, p, files[f].name, Some(f))
  {
    var fs := files[f := files[f].(parent := q)];
    forall x {:trigger files[x].parent} | x in files && files[x].parent == p && files[x].name == files[f].name
      ensures Some(x) == Some(f)
    {
      if x != f { assert fs[x].parent == p; }
    }
  }

  /** The tables after a successful swap: each file has the other's parent, or the root where a
      query failed and the parent was not loaded. */
  ghost predicate SwappedTo(t: Tables, u: Tables, old': string, new': string) {
    && Lookup(t.files, old').Some? && Lookup(t.files, new').Some?
    && var f, g := Lookup(t.files, old').value, Lookup(t.files, new').value;
       && f in t.files && g in t.files
       && exists q, p :: q in {t.files[g].parent, ROOT} && p in {t.files[f].parent, ROOT}
            && u == t.(files := Reparented(t.files, f, q, g, p))
  }

  method RenameSwap(db: Connection, old': string, new': string) returns (ret: int)
    requires Ready(db) && Absolute(old') && Absolute(new') && SwapAllowed(db.tables.files, old', new')
    modifies db
    ensures Ready(db) && old(db.clock) < db.clock
    ensures ret != 0 ==> db.tables == old(db.tables)
    ensures db.Healthy(old(db.clock)) ==> ret == SwapCode(old(db.tables.files), old', new')
    ensures ret == 0 ==> SwappedTo(old(db.tables), db.tables, old', new')
    ensures db.Healthy(old(db.clock)) && ret == 0 ==>
      var f, g := Lookup(old(db.tables.files), old').value, Lookup(old(db.tables.files), new').value;
      f in old(db.tables.files) && g in old(db.tables.files)
      && db.tables == old(db.tables).(files := Swapped(old(db.tables.files), f, g))
    ensures OnlyParents(old(db.tables), db.tables)
    ensures db.Healthy(old(db.clock)) && ret == 0 ==>
      Exchanged(old(db.tables.files), db.tables.files, Lookup(old(db.tables.files), old').value, Lookup(old(db.tables.files), new').value)
    ensures db.Healthy(old(db.clock)) ==> (ret == 0 <==> CanBeSwapped(old(db.tables.files), old', new'))
  {
    hide IsTree, Schema, Resolve, Below, KeyFree, ChildrenOf, CanBeSwapped, Reparented, Breaks, OnlyParents, Exchanged,
      SwappedTo, SwapKeysFree, Describes, Complete, ParentId;
    ghost var t, files := db.tables, db.tables.files;
    SwapCodeMeaning(files, old', new');
    SameParents(t);
    var file1, file2;
    ret, file1 := Get(db, old', false);
    if ret != 0 { return; }
    ret, file2 := Get(db, new', false);
    if ret != 0 { return; }
    LookupInFiles(files, old');
    LookupInFiles(files, new');
    var f, g := file1.value.id, file2.value.id;
    ParentKnown(files, f, file1.value);
    ParentKnown(files, g, file2.value);
    var success := FileSwap(db, file1.value, file2.value);
    if !success { return EIO; }
    SwapDone(t, old', new', f, ParentId(file2.value), g, ParentId(file1.value));
    ret := 0;
  }

  lemma ParentKnown(files: Files, x: nat, file: FileInfo)
    requires IsTree(files) && x in files && x != ROOT && Describes(files, x, file)
    ensures ParentId(file) in files && ParentId(file) in {files[x].parent, ROOT}
    ensures Complete(file) ==> ParentId(file) == files[x].parent
  {
    TreeRow(files, x);
    TreeFacts(files, x);
  }

  lemma SwapDone(t: Tables, old': string, new': string, f: nat, q: nat, g: nat, p: nat)
    requires IsTree(t.files) && Lookup(t.files, old') == Some(f) && Lookup(t.files, new') == Some(g)
    requires f in t.files && g in t.files && SwapAllowed(t.files, old', new') && SwapKeysFree(t.files, f, q, g, p)
    requires q in {t.files[g].parent, ROOT} && p in {t.files[f].parent, ROOT}
    ensures var u := t.(files := Reparented(t.files, f, q, g, p));
      && IsTree(u.files) && SwappedTo(t, u, old', new') && OnlyParents(t, u)
      && (q == t.files[g].parent && p == t.files[f].parent ==>
            Exchanged(t.files, u.files, f, g) && u.files == Swapped(t.files, f, g))
  {
    hide IsTree, Resolve, Below, KeyFree, OnlyParents, Exchanged, SwapKeysFree;
    SwapStaysTree(t.files, f, q, g, p);
    ReparentedRows(t, f, q, g, p);
  }

  const RENAME_NOREPLACE := 1
  const RENAME_EXCHANGE := 2

  method Rename(db: Connection, old': string, new': string, flags: nat) returns (ret: int)
    requires Ready(db) && Absolute(old') && FusePath(new') && '/' in new'
    requires flags == RENAME_NOREPLACE ==> MoveAllowed(db.tables.files, old', new')
    requires flags == RENAME_EXCHANGE ==> SwapAllowed(db.tables.files, old', new')
    modifies db
    ensures Ready(db) && BaseName(new') != "" && old(db.clock) <= db.clock
    ensures ret != 0 ==> db.tables == old(db.tables)
    ensures flags == RENAME_NOREPLACE && ret == 0 ==> MovedTo(old(db.tables), db.tables, old', new')
    ensures flags == RENAME_EXCHANGE && ret == 0 ==> SwappedTo(old(db.tables), db.tables, old', new')
    ensures flags != RENAME_NOREPLACE && flags != RENAME_EXCHANGE ==> ret == EINVAL
    ensures flags == RENAME_EXCHANGE && db.Healthy(old(db.clock)) ==> ret == SwapCode(old(db.tables.files), old', new')
    ensures flags == RENAME_NOREPLACE && db.Healthy(old(db.clock)) ==> ret == MoveCode(old(db.tables.files), old', new')
    ensures db.Healthy(old(db.clock)) ==>
      (ret == 0 <==>
         || (flags == RENAME_NOREPLACE && CanBeMoved(old(db.tables.files), old', new'))
         || (flags == RENAME_EXCHANGE && CanBeSwapped(old(db.tables.files), old', new')))
    ensures db.tables.data == old(db.tables.data)
  {
    hide IsTree, Schema, Resolve, KeyFree, MovedTo, SwappedTo, MoveCode, SwapCode, MoveAllowed, SwapAllowed, CanBeMoved, CanBeSwapped;
    DirFacts(new');
    ret := EINVAL;
    if flags == RENAME_EXCHANGE {
      ret := RenameSwap(db, old', new');
    } else if flags == RENAME_NOREPLACE {
      ret := RenameMove(db, old', new');
    }
  }
}
