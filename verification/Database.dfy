/** The two MariaDB tables, the statements the file system sends, and the connection that
    runs them inside transactions. */
module Database {
  import opened Blocks

  datatype Option<+T> = None | Some(value: T)

  datatype Kind = File | Directory | SoftLink

  /** One row of `files`; the row's `file_id` is its key in the table. */
  datatype FileRow = FileRow(parent: nat, name: string, kind: Kind, size: nat)

  /** `files` by `file_id`, `file_data` by `file_id` with each file's rows in `index` order,
      and the next AUTO_INCREMENT value of `files`. */
  datatype Tables = Tables(files: map<nat, FileRow>, data: map<nat, seq<Row>>, nextId: nat)

  const ROOT: nat := 0

  /** The length of the `name` column. */
  const NAME_MAX := 64

  function RowsOf(t: Tables, f: nat): seq<Row> {
    if f in t.data then t.data[f] else []
  }

  // ------------------------------------------------------------ what the schema enforces

  /** UNIQUE KEY (`parent_id`, `name`). */
  ghost predicate UniqueNames(files: map<nat, FileRow>) {
    forall x, y {:trigger files[x].parent, files[y].parent} ::
      x in files && y in files && files[x].parent == files[y].parent && files[x].name == files[y].name ==> x == y
  }

  /** FOREIGN KEY (`parent_id`) REFERENCES `files`. */
  ghost predicate ParentsExist(files: map<nat, FileRow>) {
    forall x {:trigger files[x].parent} :: x in files ==> files[x].parent in files
  }

  /** The width of the `name` column. */
  ghost predicate NamesFit(files: map<nat, FileRow>) {
    forall x {:trigger files[x].name} :: x in files ==> |files[x].name| <= NAME_MAX
  }

  ghost predicate Schema(t: Tables) {
    && t.data.Keys == t.files.Keys
    && (forall f :: f in t.data ==> Sorted(t.data[f]))
    && UniqueNames(t.files)
    && ParentsExist(t.files)
    && NamesFit(t.files)
    && (forall f :: f in t.files ==> f < t.nextId)
    && ROOT in t.files
  }

  // ------------------------------------------------------------ statements

  /** The expressions an UPDATE of the `data` column evaluates on the old value. */
  datatype Expr = Insert(pos: nat, len: nat, s: seq<Byte>) | Concat(s: seq<Byte>) | Value(s: seq<Byte>)

  function Eval(e: Expr, d: seq<Byte>): seq<Byte> {
    match e
    case Insert(pos, len, s) => SqlInsert(d, pos, len, s)
    case Concat(s) => d + s
    case Value(s) => s
  }

  /** A row of `file_data` is named by its key (`file`, `index`), which stands for `file_data_id`. */
  datatype Statement =
    | AddSize(file: nat, n: nat)
    | SetSize(file: nat, n: nat)
    | UpdateData(file: nat, index: nat, e: Expr)
    | InsertData(file: nat, index: nat, data: seq<Byte>)
    | DeleteData(file: nat, index: nat)
    | InsertFile(parent: nat, name: string, kind: Kind)
    | MoveFile(file: nat, parent: nat, name: string)
    | SetParent(file: nat, parent: nat)
    | DeleteFile(file: nat)

  predicate HasIndex(rows: seq<Row>, index: nat) {
    exists i :: 0 <= i < |rows| && rows[i].index == index
  }

  function WithData(rows: seq<Row>, index: nat, e: Expr): (r: seq<Row>)
    ensures |r| == |rows|
    ensures forall i :: 0 <= i < |r| ==> r[i] == if rows[i].index == index then Row(index, Eval(e, rows[i].data)) else rows[i]
  {
    if rows == [] then [] else
      [if rows[0].index == index then Row(index, Eval(e, rows[0].data)) else rows[0]] + WithData(rows[1..], index, e)
  }

  function WithRow(rows: seq<Row>, row: Row): seq<Row> {
    if rows == [] || rows[|rows| - 1].index < row.index then rows + [row]
    else WithRow(rows[..|rows| - 1], row) + [rows[|rows| - 1]]
  }

  function WithoutRow(rows: seq<Row>, index: nat): seq<Row> {
    if rows == [] then []
    else if rows[|rows| - 1].index == index then rows[..|rows| - 1]
    else WithoutRow(rows[..|rows| - 1], index) + [rows[|rows| - 1]]
  }

  /** The rows an ON DELETE CASCADE reaches from `doomed`: children, their children, and so on. */
  function Cascade(files: map<nat, FileRow>, doomed: set<nat>): (all: set<nat>)
    ensures doomed <= all
    decreases files.Keys - doomed
  {
    var next := set x | x in files && files[x].parent in doomed;
    if next <= doomed then doomed
    else
      assert exists x :: x in next && x !in doomed;
      Cascade(files, doomed + next)
  }

  /** No row other than `self` holds the key (`parent`, `name`). */
  predicate KeyFree(files: map<nat, FileRow>, parent: nat, name: string, self: Option<nat>) {
    forall x {:trigger files[x].parent} ::
      x in files && files[x].parent == parent && files[x].name == name ==> Some(x) == self
  }

  /** What a statement makes of the tables; `None` when a constraint rejects it. An UPDATE or
      DELETE that matches no row succeeds and changes nothing. */
  function Apply(t: Tables, s: Statement): Option<Tables> {
    match s
    case AddSize(f, n) =>
      Some(if f in t.files then t.(files := t.files[f := t.files[f].(size := t.files[f].size + n)]) else t)
    case SetSize(f, n) =>
      Some(if f in t.files then t.(files := t.files[f := t.files[f].(size := n)]) else t)
    case UpdateData(f, index, e) =>
      if f !in t.data then Some(t) else
      var rows := WithData(t.data[f], index, e);
      if exists i :: 0 <= i < |rows| && rows[i].index == index && |rows[i].data| > B then None
      else Some(t.(data := t.data[f := rows]))
    case InsertData(f, index, d) =>
      if f !in t.files || f !in t.data || HasIndex(t.data[f], index) || |d| > B then None
      else Some(t.(data := t.data[f := WithRow(t.data[f], Row(index, d))]))
    case DeleteData(f, index) =>
      Some(if f in t.data then t.(data := t.data[f := WithoutRow(t.data[f], index)]) else t)
    case InsertFile(parent, name, kind) =>
      if parent !in t.files || !KeyFree(t.files, parent, name, None) || |name| > NAME_MAX then None
      else Some(Tables(t.files[t.nextId := FileRow(parent, name, kind, 0)], t.data[t.nextId := []], t.nextId + 1))
    case MoveFile(f, parent, name) =>
      if f !in t.files then Some(t)
      else if parent !in t.files || !KeyFree(t.files, parent, name, Some(f)) || |name| > NAME_MAX then None
      else Some(t.(files := t.files[f := t.files[f].(parent := parent, name := name)]))
    case SetParent(f, parent) =>
      if f !in t.files then Some(t)
      else if parent !in t.files || !KeyFree(t.files, parent, t.files[f].name, Some(f)) then None
      else Some(t.(files := t.files[f := t.files[f].(parent := parent)]))
    case DeleteFile(f) =>
      // The root's row in `file_protection` forbids deleting it, directly or by cascade.
      if f !in t.files then Some(t) else
      var doomed := Cascade(t.files, {f});
      if ROOT in doomed then None else Some(t.(files := t.files - doomed, data := t.data - doomed))
  }

  // ------------------------------------------------------------ the schema is kept

  function LastIndex(rows: seq<Row>): nat
    requires rows != []
  {
    rows[|rows| - 1].index
  }

  lemma {:induction false} WithRowSorted(rows: seq<Row>, row: Row)
    requires Sorted(rows) && |row.data| <= B && !HasIndex(rows, row.index)
    ensures Sorted(WithRow(rows, row))
    ensures WithRow(rows, row) != []
    ensures LastIndex(WithRow(rows, row)) == if rows == [] || LastIndex(rows) < row.index then row.index else LastIndex(rows)
    decreases |rows|
  {
    if rows != [] && row.index <= LastIndex(rows) {
      var init := rows[..|rows| - 1];
      assert rows[|rows| - 1].index != row.index;
      assert forall i :: 0 <= i < |init| ==> init[i].index == rows[i].index;
      WithRowSorted(init, row);
    }
  }

  lemma {:induction false} WithoutRowSorted(rows: seq<Row>, index: nat)
    requires Sorted(rows)
    ensures Sorted(WithoutRow(rows, index))
    ensures WithoutRow(rows, index) != [] ==> rows != [] && LastIndex(WithoutRow(rows, index)) <= LastIndex(rows)
    decreases |rows|
  {
    if rows != [] {
      WithoutRowSorted(rows[..|rows| - 1], index);
    }
  }

  lemma {:induction false} CascadeClosed(files: map<nat, FileRow>, doomed: set<nat>)
    ensures forall x {:trigger files[x].parent} :: x in files && files[x].parent in Cascade(files, doomed) ==> x in Cascade(files, doomed)
    decreases files.Keys - doomed
  {
    var next := set x | x in files && files[x].parent in doomed;
    if !(next <= doomed) {
      CascadeClosed(files, doomed + next);
    }
  }

  lemma RemovalKeepsKeys(files: map<nat, FileRow>, doomed: set<nat>)
    requires UniqueNames(files) && ParentsExist(files)
    requires forall x {:trigger files[x].parent} :: x in files && files[x].parent in doomed ==> x in doomed
    ensures UniqueNames(files - doomed) && ParentsExist(files - doomed)
  {
    var fs := files - doomed;
    assert forall x {:trigger fs[x].parent} :: x in fs ==> fs[x] == files[x];
  }

  lemma DeleteKeepsSchema(t: Tables, doomed: set<nat>)
    requires Schema(t) && ROOT !in doomed
    requires forall x {:trigger t.files[x].parent} :: x in t.files && t.files[x].parent in doomed ==> x in doomed
    ensures Schema(t.(files := t.files - doomed, data := t.data - doomed))
  {
    RemovalKeepsKeys(t.files, doomed);
  }

  lemma DataKeepsSchema(t: Tables, f: nat, rows: seq<Row>)
    requires Schema(t) && f in t.data && Sorted(rows)
    ensures Schema(t.(data := t.data[f := rows]))
  {
  }

  lemma RowKeepsKeys(files: map<nat, FileRow>, f: nat, r: FileRow)
    requires UniqueNames(files) && ParentsExist(files)
    requires r.parent in files && KeyFree(files, r.parent, r.name, Some(f))
    ensures UniqueNames(files[f := r]) && ParentsExist(files[f := r])
  {
    var fs := files[f := r];
    forall x, y | x in fs && y in fs && fs[x].parent == fs[y].parent && fs[x].name == fs[y].name
      ensures x == y
    {
      assert x != f ==> fs[x] == files[x];
      assert y != f ==> fs[y] == files[y];
    }
  }

  lemma FileKeepsSchema(t: Tables, f: nat, r: FileRow)
    requires Schema(t) && f in t.files
    requires r.parent in t.files && KeyFree(t.files, r.parent, r.name, Some(f)) && |r.name| <= NAME_MAX
    ensures Schema(t.(files := t.files[f := r]))
  {
    RowKeepsKeys(t.files, f, r);
  }

  lemma NameFits(t: Tables, f: nat)
    requires Schema(t) && f in t.files
    ensures |t.files[f].name| <= NAME_MAX
  {
  }

  lemma ResizeKeepsSchema(t: Tables, f: nat, size: nat)
    requires Schema(t) && f in t.files
    ensures Schema(t.(files := t.files[f := t.files[f].(size := size)]))
  {
    FileKeepsSchema(t, f, t.files[f].(size := size));
  }

  lemma NewFileKeepsSchema(t: Tables, parent: nat, name: string, kind: Kind)
    requires Schema(t) && parent in t.files && KeyFree(t.files, parent, name, None) && |name| <= NAME_MAX
    ensures Schema(Tables(t.files[t.nextId := FileRow(parent, name, kind, 0)], t.data[t.nextId := []], t.nextId + 1))
  {
    RowKeepsKeys(t.files, t.nextId, FileRow(parent, name, kind, 0));
  }

  lemma UpdateKeepsSchema(t: Tables, f: nat, index: nat, e: Expr)
    requires Schema(t) && Apply(t, UpdateData(f, index, e)).Some?
    ensures Schema(Apply(t, UpdateData(f, index, e)).value)
  {
    if f in t.data {
      DataKeepsSchema(t, f, WithData(t.data[f], index, e));
    }
  }

  lemma InsertKeepsSchema(t: Tables, f: nat, index: nat, d: seq<Byte>)
    requires Schema(t) && Apply(t, InsertData(f, index, d)).Some?
    ensures Schema(Apply(t, InsertData(f, index, d)).value)
  {
    WithRowSorted(t.data[f], Row(index, d));
    DataKeepsSchema(t, f, WithRow(t.data[f], Row(index, d)));
  }

  lemma RemoveKeepsSchema(t: Tables, f: nat, index: nat)
    requires Schema(t) && f in t.data
    ensures Schema(t.(data := t.data[f := WithoutRow(t.data[f], index)]))
  {
    WithoutRowSorted(t.data[f], index);
    DataKeepsSchema(t, f, WithoutRow(t.data[f], index));
  }

  /** No statement breaks what the schema enforces. */
  lemma ApplyKeepsSchema(t: Tables, s: Statement)
    requires Schema(t) && Apply(t, s).Some?
    ensures Schema(Apply(t, s).value)
  {
    hide Schema, Cascade, WithoutRow, WithData, WithRow, KeyFree, HasIndex;
    match s
    case AddSize(f, n) => if f in t.files { ResizeKeepsSchema(t, f, t.files[f].size + n); }
    case SetSize(f, n) => if f in t.files { ResizeKeepsSchema(t, f, n); }
    case UpdateData(f, index, e) => UpdateKeepsSchema(t, f, index, e);
    case InsertData(f, index, d) => InsertKeepsSchema(t, f, index, d);
    case DeleteData(f, index) => if f in t.data { RemoveKeepsSchema(t, f, index); }
    case InsertFile(parent, name, kind) => NewFileKeepsSchema(t, parent, name, kind);
    case MoveFile(f, parent, name) => if f in t.files { FileKeepsSchema(t, f, t.files[f].(parent := parent, name := name)); }
    case SetParent(f, parent) =>
      if f in t.files {
        NameFits(t, f);
        FileKeepsSchema(t, f, t.files[f].(parent := parent));
      }
    case DeleteFile(f) =>
      if f in t.files {
        CascadeClosed(t.files, {f});
        DeleteKeepsSchema(t, Cascade(t.files, {f}));
      }
  }

  // ------------------------------------------------------------ the connection

  /** The first rows of a file from `from` on, in index order: SELECT ... ORDER BY `index` ASC LIMIT. */
  function RowsFrom(rows: seq<Row>, from: nat, limit: nat): (r: seq<Row>)
    ensures |r| <= limit
  {
    if rows == [] || limit == 0 then []
    else if rows[0].index < from then RowsFrom(rows[1..], from, limit)
    else rows[..Min(limit, |rows|)]
  }

  function ChildrenOf(files: map<nat, FileRow>, parent: nat): set<nat> {
    set x | x in files && files[x].parent == parent && x != ROOT
  }

  /** One MariaDB connection. `clock` counts the statements sent; those whose number is in
      `faults` fail for reasons outside the tables, after all retries. */
  class Connection {
    const faults: set<nat>
    var clock: nat
    var tables: Tables
    var saved: Option<Tables>

    ghost predicate Valid()
      reads this
    {
      Schema(tables) && (saved.Some? ==> Schema(saved.value))
    }

    /** Idle: no transaction is open, so `tables` is what other connections see. */
    ghost predicate Idle()
      reads this
    {
      Valid() && saved.None?
    }

    /** No statement from number `from` up to the current one met an outside failure. */
    ghost predicate Healthy(from: nat)
      reads this
    {
      forall k :: from <= k < clock ==> k !in faults
    }

    constructor (tables: Tables, faults: set<nat>)
      requires Schema(tables)
      ensures Idle() && this.tables == tables && this.faults == faults && clock == 0
    {
      this.faults, this.clock, this.tables, this.saved := faults, 0, tables, None;
    }

    method Start() returns (ok: bool)
      requires Idle()
      modifies this
      ensures Valid() && clock == old(clock) + 1 && tables == old(tables)
      ensures ok == (old(clock) !in faults)
      ensures saved == if ok then Some(tables) else None
    {
      ok := clock !in faults;
      clock := clock + 1;
      if ok { saved := Some(tables); }
    }

    /** COMMIT or ROLLBACK; both are taken to succeed. */
    method Stop(commit: bool)
      requires Valid() && saved.Some?
      modifies this
      ensures Idle() && clock == old(clock)
      ensures tables == if commit then old(tables) else old(saved).value
    {
      if !commit { tables := saved.value; }
      saved := None;
    }

    /** An INSERT, UPDATE or DELETE. */
    method Query(s: Statement) returns (ok: bool)
      requires Valid()
      modifies this
      ensures Valid() && clock == old(clock) + 1 && saved == old(saved)
      ensures ok <==> old(clock) !in faults && Apply(old(tables), s).Some?
      ensures tables == if ok then Apply(old(tables), s).value else old(tables)
    {
      var result := Apply(tables, s);
      ok := clock !in faults && result.Some?;
      clock := clock + 1;
      if ok {
        ApplyKeepsSchema(tables, s);
        tables := result.value;
      }
    }

    /** The fault that may hit a SELECT; its result set is read off `tables`. */
    method Ask() returns (ok: bool)
      requires Valid()
      modifies this
      ensures Valid() && clock == old(clock) + 1 && saved == old(saved) && tables == old(tables)
      ensures ok == (old(clock) !in faults)
    {
      ok := clock !in faults;
      clock := clock + 1;
    }

    method SelectRows(f: nat, from: nat, limit: nat) returns (res: Option<seq<Row>>)
      requires Valid()
      modifies this
      ensures Valid() && clock == old(clock) + 1 && saved == old(saved) && tables == old(tables)
      ensures res == if old(clock) in faults then None else Some(RowsFrom(RowsOf(tables, f), from, limit))
    {
      var ok := Ask();
      res := if ok then Some(RowsFrom(RowsOf(tables, f), from, limit)) else None;
    }

    /** SELECT ... ORDER BY `index` DESC LIMIT 1: no row or the last one. */
    method SelectLast(f: nat) returns (res: Option<seq<Row>>)
      requires Valid()
      modifies this
      ensures Valid() && clock == old(clock) + 1 && saved == old(saved) && tables == old(tables)
      ensures res == if old(clock) in faults then None
                     else Some(var rows := RowsOf(tables, f); if rows == [] then [] else rows[|rows| - 1..])
    {
      var ok := Ask();
      var rows := RowsOf(tables, f);
      res := if !ok then None else Some(if rows == [] then [] else rows[|rows| - 1..]);
    }

    method SelectSize(f: nat) returns (res: Option<Option<nat>>)
      requires Valid()
      modifies this
      ensures Valid() && clock == old(clock) + 1 && saved == old(saved) && tables == old(tables)
      ensures res == if old(clock) in faults then None
                     else Some(if f in tables.files then Some(tables.files[f].size) else None)
    {
      var ok := Ask();
      res := if !ok then None else Some(if f in tables.files then Some(tables.files[f].size) else None);
    }

    method SelectFile(id: nat) returns (res: Option<Option<FileRow>>)
      requires Valid()
      modifies this
      ensures Valid() && clock == old(clock) + 1 && saved == old(saved) && tables == old(tables)
      ensures res == if old(clock) in faults then None
                     else Some(if id in tables.files then Some(tables.files[id]) else None)
    {
      var ok := Ask();
      res := if !ok then None else Some(if id in tables.files then Some(tables.files[id]) else None);
    }

    /** SELECT `file_id` ... WHERE `parent_id` AND `name`: the unique key admits at most one. */
    method SelectChild(parent: nat, name: string) returns (res: Option<Option<nat>>)
      requires Valid()
      modifies this
      ensures Valid() && clock == old(clock) + 1 && saved == old(saved) && tables == old(tables)
      ensures res == None <==> old(clock) in faults
      ensures res.Some? && res.value.Some? ==>
        var x := res.value.value;
        x in tables.files && tables.files[x].parent == parent && tables.files[x].name == name
      ensures res == Some(None) ==> KeyFree(tables.files, parent, name, None)
    {
      var ok := Ask();
      if !ok { return None; }
      if x :| x in tables.files && tables.files[x].parent == parent && tables.files[x].name == name {
        return Some(Some(x));
      }
      return Some(None);
    }

    /** The number of rows of SELECT ... WHERE `parent_id` AND `file_id` != 0. */
    method CountChildren(parent: nat) returns (res: Option<nat>)
      requires Valid()
      modifies this
      ensures Valid() && clock == old(clock) + 1 && saved == old(saved) && tables == old(tables)
      ensures res == if old(clock) in faults then None else Some(|ChildrenOf(tables.files, parent)|)
    {
      var ok := Ask();
      res := if !ok then None else Some(|ChildrenOf(tables.files, parent)|);
    }
  }
}
