/** `myfs_db_file_append`, and the two steps that lengthen a file: filling up its last row
    and adding a row after it. */
module Append {
  import opened Blocks
  import opened Database

  /** `t` with the rows and the recorded size of file `f` replaced. */
  function Put(t: Tables, f: nat, rows: seq<Row>, size: nat): Tables
    requires f in t.files
  {
    t.(files := t.files[f := t.files[f].(size := size)], data := t.data[f := rows])
  }

  /** From `t` to `u` nothing has changed but the size and the rows of file `f`. */
  ghost predicate OnlyFile(t: Tables, u: Tables, f: nat) {
    && u.files.Keys == t.files.Keys && u.data.Keys == t.data.Keys && u.nextId == t.nextId
    && (forall x :: x in t.files && x != f ==> u.files[x] == t.files[x])
    && (forall x :: x in t.data && x != f ==> u.data[x] == t.data[x])
    && (f in t.files ==> u.files[f] == t.files[f].(size := u.files[f].size))
  }

  lemma OnlySelf(t: Tables, f: nat)
    ensures OnlyFile(t, t, f)
  {
  }

  lemma PutOnly(t: Tables, f: nat, rows: seq<Row>, size: nat)
    requires f in t.files && f in t.data
    ensures OnlyFile(t, Put(t, f, rows, size), f)
  {
  }

  /** `u` is `t` except that file `f` records `size` and has `s` after its old contents.
      This holds of any table the schema allows; a well-formed file stays well-formed. */
  ghost predicate Grown(t: Tables, u: Tables, f: nat, size: nat, s: seq<Byte>) {
    && f in t.files
    && u == Put(t, f, RowsOf(u, f), size)
    && Flat(RowsOf(u, f)) == Flat(RowsOf(t, f)) + s
    && (WellFormed(RowsOf(t, f)) ==> WellFormed(RowsOf(u, f)))
  }

  /** The index at which a new row goes. */
  function NextIndex(rows: seq<Row>): nat {
    if rows == [] then 0 else LastIndex(rows) + 1
  }

  /** A row may be added without leaving a partial block behind. */
  ghost predicate LastFull(rows: seq<Row>) {
    rows != [] ==> |rows[|rows| - 1].data| == B
  }

  function Last(rows: seq<Row>): Row
    requires rows != []
  {
    rows[|rows| - 1]
  }

  lemma SchemaRows(t: Tables, f: nat)
    requires Schema(t)
    ensures f in t.files <==> f in t.data
    ensures Sorted(RowsOf(t, f))
  {
  }

  lemma LastLength(rows: seq<Row>)
    requires Sorted(rows) && rows != []
    ensures |Last(rows).data| <= B
  {
  }

  lemma WithDataLast(rows: seq<Row>, e: Expr)
    requires Sorted(rows) && rows != []
    ensures WithData(rows, LastIndex(rows), e) == rows[..|rows| - 1] + [Row(LastIndex(rows), Eval(e, Last(rows).data))]
  {
    hide WithData;
    var n := |rows| - 1;
    assert forall i :: 0 <= i < n ==> rows[i].index < rows[n].index;
  }

  lemma FillFlat(rows: seq<Row>, c: seq<Byte>)
    requires rows != []
    ensures Flat(rows[..|rows| - 1] + [Row(LastIndex(rows), Last(rows).data + c)]) == Flat(rows) + c
  {
    FlatPush(rows[..|rows| - 1], Row(LastIndex(rows), Last(rows).data + c));
  }

  lemma FillWellFormed(rows: seq<Row>, c: seq<Byte>)
    requires rows != [] && |Last(rows).data| + |c| <= B && WellFormed(rows)
    ensures WellFormed(rows[..|rows| - 1] + [Row(LastIndex(rows), Last(rows).data + c)])
  {
  }

  lemma UpdateLast(t: Tables, f: nat, e: Expr)
    requires f in t.data && Sorted(t.data[f]) && t.data[f] != []
    requires |Eval(e, Last(t.data[f]).data)| <= B
    ensures var rows := t.data[f];
      Apply(t, UpdateData(f, LastIndex(rows), e))
      == Some(t.(data := t.data[f := rows[..|rows| - 1] + [Row(LastIndex(rows), Eval(e, Last(rows).data))]]))
  {
    WithDataLast(t.data[f], e);
  }

  lemma Regrow(t0: Tables, t: Tables, f: nat, size: nat, s: seq<Byte>, rows: seq<Row>, c: seq<Byte>)
    requires Grown(t0, t, f, size, s)
    requires Flat(rows) == Flat(RowsOf(t, f)) + c
    requires WellFormed(RowsOf(t, f)) ==> WellFormed(rows)
    ensures Grown(t0, t.(data := t.data[f := rows]), f, size, s + c)
  {
    hide Flat, WellFormed;
    assert t0.data[f := RowsOf(t, f)][f := rows] == t0.data[f := rows];
  }

  /** CONCAT on the last row. */
  lemma FillLast(t0: Tables, t: Tables, f: nat, size: nat, s: seq<Byte>, c: seq<Byte>)
    requires Grown(t0, t, f, size, s) && f in t.data && Sorted(t.data[f])
    requires t.data[f] != [] && |Last(t.data[f]).data| + |c| <= B
    ensures var u := Apply(t, UpdateData(f, LastIndex(t.data[f]), Concat(c)));
      && u.Some? && f in u.value.data && f in u.value.files && Grown(t0, u.value, f, size, s + c)
      && u.value.data[f] == t.data[f][..|t.data[f]| - 1] + [Row(LastIndex(t.data[f]), Last(t.data[f]).data + c)]
  {
    var rows := t.data[f];
    var filled := rows[..|rows| - 1] + [Row(LastIndex(rows), Last(rows).data + c)];
    UpdateLast(t, f, Concat(c));
    FillFlat(rows, c);
    if WellFormed(rows) { FillWellFormed(rows, c); }
    Regrow(t0, t, f, size, s, filled, c);
  }

  lemma InsertBehind(t: Tables, f: nat, index: nat, c: seq<Byte>)
    requires f in t.files && f in t.data && Sorted(t.data[f]) && NextIndex(t.data[f]) <= index && |c| <= B
    ensures Apply(t, InsertData(f, index, c)) == Some(t.(data := t.data[f := t.data[f] + [Row(index, c)]]))
  {
    assert !HasIndex(t.data[f], index);
  }

  lemma PushWellFormed(rows: seq<Row>, c: seq<Byte>)
    requires WellFormed(rows) && LastFull(rows) && 1 <= |c| <= B
    ensures WellFormed(rows + [Row(NextIndex(rows), c)])
  {
  }

  /** An INSERT after the last row. */
  lemma PushRow(t0: Tables, t: Tables, f: nat, size: nat, s: seq<Byte>, c: seq<Byte>)
    requires Grown(t0, t, f, size, s) && f in t.data && f in t.files && Sorted(t.data[f])
    requires 1 <= |c| <= B && LastFull(t.data[f])
    ensures var rows := t.data[f]; var u := Apply(t, InsertData(f, NextIndex(rows), c));
      && u.Some? && f in u.value.data && f in u.value.files && Grown(t0, u.value, f, size, s + c)
      && u.value.data[f] == rows + [Row(NextIndex(rows), c)]
  {
    hide Apply, WellFormed, Flat, Sorted;
    var rows := t.data[f];
    var r := Row(NextIndex(rows), c);
    InsertBehind(t, f, NextIndex(t.data[f]), c);
    FlatPush(rows, r);
    if WellFormed(rows) { PushWellFormed(rows, c); }
    Regrow(t0, t, f, size, s, rows + [r], c);
  }

  // ------------------------------------------------------------ the progress of a growing file

  /** `written` bytes of `data` have been added to `f`; the rest goes into new rows from `index` on. */
  ghost predicate Growing(t0: Tables, t: Tables, f: nat, size: nat, data: seq<Byte>, written: nat, index: nat) {
    && written <= |data|
    && f in t.files && f in t.data
    && Grown(t0, t, f, size, data[..written])
    && (written < |data| ==> index == NextIndex(t.data[f]) && LastFull(t.data[f]))
  }

  /** Nothing to fill up: new rows only. */
  lemma GrowFromHere(t0: Tables, t: Tables, f: nat, size: nat, data: seq<Byte>)
    requires Schema(t0) && f in t0.files && t == Put(t0, f, RowsOf(t0, f), size)
    requires t0.data[f] == [] || |Last(t0.data[f]).data| >= B
    ensures Growing(t0, t, f, size, data, 0, NextIndex(t0.data[f]))
  {
  }

  /** The last row is filled up first. */
  lemma GrowLast(t0: Tables, t: Tables, f: nat, size: nat, data: seq<Byte>)
    requires Schema(t0) && f in t0.files && t == Put(t0, f, RowsOf(t0, f), size)
    requires t0.data[f] != [] && |Last(t0.data[f]).data| < B
    ensures var n := Min(|data|, B - |Last(t0.data[f]).data|);
      var u := Apply(t, UpdateData(f, LastIndex(t0.data[f]), Concat(data[..n])));
      u.Some? && Growing(t0, u.value, f, size, data, n, NextIndex(t0.data[f]))
  {
    hide WellFormed, Flat, Apply;
    var n := Min(|data|, B - |Last(t0.data[f]).data|);
    FillLast(t0, t, f, size, [], data[..n]);
    assert [] + data[..n] == data[..n];
  }

  lemma GrowMore(t0: Tables, t: Tables, f: nat, size: nat, data: seq<Byte>, written: nat, index: nat, c: seq<Byte>)
    requires Growing(t0, t, f, size, data, written, index) && Sorted(RowsOf(t, f))
    requires written < |data| && c == data[written..written + Min(|data| - written, B)]
    ensures var u := Apply(t, InsertData(f, index, c));
      u.Some? && Growing(t0, u.value, f, size, data, written + |c|, index + 1)
  {
    hide WellFormed, Flat, Apply, Sorted, Grown;
    PushRow(t0, t, f, size, data[..written], c);
    assert data[..written] + c == data[..written + |c|];
  }

  // ------------------------------------------------------------ the method

  /** What an append to file `f` ends with: a missing file gets no rows. */
  ghost predicate Appended(t0: Tables, t: Tables, f: nat, data: seq<Byte>) {
    if f in t0.files then Grown(t0, t, f, t0.files[f].size + |data|, data) else t == t0 && data == []
  }

  ghost predicate Appending(t0: Tables, t: Tables, f: nat, data: seq<Byte>, written: nat, index: nat) {
    && written <= |data|
    && if f in t0.files then Growing(t0, t, f, t0.files[f].size + |data|, data, written, index) else t == t0 && written == 0
  }

  lemma SizeAdded(t: Tables, f: nat, n: nat)
    requires Schema(t)
    ensures f in t.files <==> f in t.data
    ensures Apply(t, AddSize(f, n)) == Some(if f in t.files then Put(t, f, RowsOf(t, f), t.files[f].size + n) else t)
  {
    if f in t.files {
      assert t.data[f := RowsOf(t, f)] == t.data;
    }
  }

  /** The size is updated and the last row, if it has room, is filled up. */
  lemma AppendFirst(t0: Tables, f: nat, data: seq<Byte>)
    requires Schema(t0)
    ensures var u := Apply(t0, AddSize(f, |data|)); var rows := RowsOf(t0, f);
      && u.Some?
      && if rows == [] || |Last(rows).data| >= B then Appending(t0, u.value, f, data, 0, NextIndex(rows))
         else
           var n := Min(|data|, B - |Last(rows).data|);
           var v := Apply(u.value, UpdateData(f, LastIndex(rows), Concat(data[..n])));
           v.Some? && Appending(t0, v.value, f, data, n, NextIndex(rows))
  {
    hide Growing, Sorted, WellFormed, Flat, Apply, Schema, Put;
    SizeAdded(t0, f, |data|);
    if f in t0.files {
      var size := t0.files[f].size + |data|;
      var t := Put(t0, f, RowsOf(t0, f), size);
      var rows := RowsOf(t0, f);
      if rows == [] || |Last(rows).data| >= B {
        GrowFromHere(t0, t, f, size, data);
      } else {
        GrowLast(t0, t, f, size, data);
      }
    }
  }

  lemma AppendNext(t0: Tables, t: Tables, f: nat, data: seq<Byte>, written: nat, index: nat, c: seq<Byte>)
    requires Appending(t0, t, f, data, written, index) && Sorted(RowsOf(t, f))
    requires written < |data| && c == data[written..written + Min(|data| - written, B)]
    ensures var u := Apply(t, InsertData(f, index, c));
      && (u.Some? <==> f in t0.files)
      && (u.Some? ==> Appending(t0, u.value, f, data, written + |c|, index + 1))
  {
    if f in t0.files {
      hide Growing, Apply, Sorted;
      GrowMore(t0, t, f, t0.files[f].size + |data|, data, written, index, c);
    }
  }

  lemma AppendLast(t0: Tables, t: Tables, f: nat, data: seq<Byte>, index: nat)
    requires Appending(t0, t, f, data, |data|, index)
    ensures Appended(t0, t, f, data) && (f in t0.files || data == [])
  {
    assert data[..|data|] == data;
  }

  lemma PutSize(t: Tables, f: nat, rows: seq<Row>, size: nat)
    requires f in t.files
    ensures var u := Put(t, f, rows, size); f in u.files && u.files[f].size == size
  {
  }

  lemma AppendedMeaning(t: Tables, u: Tables, f: nat, data: seq<Byte>)
    requires Schema(t) && Appended(t, u, f, data)
    ensures OnlyFile(t, u, f)
    ensures f in t.files ==>
      f in u.files && u.files[f].size == t.files[f].size + |data| && Flat(RowsOf(u, f)) == Flat(RowsOf(t, f)) + data
  {
    hide OnlyFile, WellFormed, Flat, Schema, Put;
    SchemaRows(t, f);
    if f in t.files {
      PutOnly(t, f, RowsOf(u, f), t.files[f].size + |data|);
      PutSize(t, f, RowsOf(u, f), t.files[f].size + |data|);
    } else {
      OnlySelf(t, f);
    }
  }

  method FileAppend(db: Connection, f: nat, data: seq<Byte>) returns (success: bool)
    requires db.Idle()
    modifies db
    ensures db.Idle() && old(db.clock) < db.clock
    ensures if success then Appended(old(db.tables), db.tables, f, data) else db.tables == old(db.tables)
    ensures success <==> db.Healthy(old(db.clock)) && (f in old(db.tables.files) || data == [])
    ensures OnlyFile(old(db.tables), db.tables, f)
    ensures success && f in old(db.tables.files) ==>
      && f in db.tables.files && db.tables.files[f].size == old(db.tables.files)[f].size + |data|
      && Flat(RowsOf(db.tables, f)) == Flat(RowsOf(old(db.tables), f)) + data
  {
    hide Schema, Appending, Appended, Apply, Sorted, OnlyFile, Flat;
    ghost var t0 := db.tables;
    OnlySelf(t0, f);
    AppendFirst(t0, f, data);
    var written: nat, left: nat, writeSize: nat, index: nat := 0, |data|, 0, 0;

    success := db.Start();
    if !success { return; }

    label done: {
      // The last row, if there is one.
      var res := db.SelectLast(f);
      if res == None {
        success := false;
        break done;
      }
      var last := res.value;
      if last != [] { index := last[0].index; }

      success := db.Query(AddSize(f, |data|));
      if !success { break done; }

      if last != [] {
        if |last[0].data| < B {
          writeSize := Min(left, B - |last[0].data|);
          success := db.Query(UpdateData(f, index, Concat(data[..writeSize])));
          if !success { break done; }
          written := written + writeSize;
          left := left - writeSize;
        }
        index := index + 1;
      }

      while left > 0
        invariant 0 <= left && written + left == |data| && success
        invariant db.Valid() && db.saved == Some(t0) && db.Healthy(old(db.clock)) && old(db.clock) < db.clock
        invariant Appending(t0, db.tables, f, data, written, index)
      {
        writeSize := Min(left, B);
        var chunk := data[written..written + writeSize];
        SchemaRows(db.tables, f);
        AppendNext(t0, db.tables, f, data, written, index, chunk);
        success := db.Query(InsertData(f, index, chunk));
        if !success { break done; }
        written := written + writeSize;
        left := left - writeSize;
        index := index + 1;
      }
      AppendLast(t0, db.tables, f, data, index);
      AppendedMeaning(t0, db.tables, f, data);
    }
    db.Stop(success);
  }
}
