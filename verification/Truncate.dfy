/** `myfs_db_file_truncate`: growing with spaces, shrinking from the last row backwards. */
module Truncate {
  import opened Blocks
  import opened Database
  import opened Append

  // ------------------------------------------------------------ shrinking

  /** `left` bytes taken off the end of the rows: whole rows go while they fit, the row that
      is cut keeps its remaining length but becomes spaces. `None` when the rows run out. */
  function Shrink(rows: seq<Row>, left: nat): Option<seq<Row>> {
    if left == 0 then Some(rows)
    else if rows == [] then None
    else
      var n := |Last(rows).data|;
      if Min(left, B) >= n then Shrink(rows[..|rows| - 1], left - n)
      else Some(rows[..|rows| - 1] + [Row(LastIndex(rows), Spaces(n - Min(left, B)))])
  }

  /** Rows run out exactly when they hold fewer bytes than are to go, well-formed or not,
      empty rows included; otherwise exactly `left` bytes go. */
  lemma {:induction false} ShrinkTotal(rows: seq<Row>, left: nat)
    requires Sorted(rows)
    ensures Shrink(rows, left).Some? <==> left <= |Flat(rows)|
    ensures Shrink(rows, left).Some? ==> |Flat(Shrink(rows, left).value)| == |Flat(rows)| - left
    decreases |rows|
  {
    if rows != [] && left != 0 {
      var init, n := rows[..|rows| - 1], |Last(rows).data|;
      if Min(left, B) >= n {
        ShrinkTotal(init, left - n);
      } else {
        FlatPush(init, Row(LastIndex(rows), Spaces(n - left)));
      }
    }
  }

  /** The contents after a truncation to `s` bytes. */
  function Resized(f: seq<Byte>, s: nat): (r: seq<Byte>)
    ensures |r| == s
  {
    if s == |f| then f
    else if s > |f| then f + Spaces(s - |f|)
    else f[..s / B * B] + Spaces(s % B)
  }

  /** At a block boundary a shrink keeps exactly the prefix. */
  lemma ResizedAligned(f: seq<Byte>, s: nat)
    requires s <= |f| && s % B == 0
    ensures Resized(f, s) == f[..s]
  {
    assert f[..s] + Spaces(0) == f[..s];
  }

  /** Cutting one of two bytes off blanks the other. */
  lemma BlankExample(f: seq<Byte>)
    requires |f| == 2 && f[0] != SPACE
    ensures Resized(f, 1) == [SPACE] != f[..1]
  {
    assert f[..1] == [f[0]] && f[..0] == [];
  }

  /** Byte by byte: what was added is spaces, and so is what a shrink leaves of the block it cuts. */
  lemma ResizedAt(f: seq<Byte>, s: nat, i: nat)
    requires i < s
    ensures Resized(f, s)[i] == if i < |f| && (|f| <= s || i < s / 4096 * 4096) then f[i] else 32
  {
  }

  /** A shrink keeps the prefix exactly when the cut is at a block boundary, or the bytes it
      blanks were spaces already. */
  lemma ResizedFaithful(f: seq<Byte>, s: nat)
    requires s < |f|
    ensures Resized(f, s) == f[..s] <==> forall i :: s / B * B <= i < s ==> f[i] == SPACE
  {
    var r, k := Resized(f, s), s / B * B;
    forall i | k <= i < s
      ensures r[i] == SPACE
    {
      assert r[k..][i - k] == SPACE;
    }
    if forall i :: k <= i < s ==> f[i] == SPACE {
      assert r[k..] == f[k..s];
      assert r == r[..k] + r[k..] && f[..s] == f[..k] + f[k..s];
    } else {
      var i :| k <= i < s && f[i] != SPACE;
      assert f[..s][i] != r[i];
    }
  }

  lemma ResizedDrop(f: seq<Byte>, g: seq<Byte>, s: nat)
    requires s < |g| <= |f| && f[..|g|] == g
    ensures Resized(f, s) == Resized(g, s)
  {
    assert g[..s / B * B] == f[..s / B * B];
  }

  lemma ShrinkInside(g: seq<Byte>, d: seq<Byte>, left: nat)
    requires |g| % B == 0 && 0 < left < |d| <= B
    ensures Cut(g) + [Row(|g| / B, Spaces(|d| - left))] == Cut(Resized(g + d, |g| + |d| - left))
  {
    hide Cut, Resized, Spaces;
    ResizedInside(g, d, left);
    CutPush(g, Spaces(|d| - left));
  }

  lemma ResizedInside(g: seq<Byte>, d: seq<Byte>, left: nat)
    requires |g| % B == 0 && 0 < left < |d| <= B
    ensures Resized(g + d, |g| + |d| - left) == g + Spaces(|d| - left)
  {
    var s := |g| + |d| - left;
    assert s / B * B == |g| && s % B == |d| - left;
    assert (g + d)[..|g|] == g;
  }

  /** On well-formed rows the loop's outcome is the well-formed cut of the resized contents. */
  lemma {:induction false} ShrinkCut(rows: seq<Row>, left: nat)
    requires WellFormed(rows) && 0 < left <= |Flat(rows)|
    ensures Shrink(rows, left) == Some(Cut(Resized(Flat(rows), |Flat(rows)| - left)))
    decreases |rows|
  {
    hide Resized, Cut;
    var f := Flat(rows);
    var init, last, s := rows[..|rows| - 1], Last(rows), |f| - left;
    var g := Flat(init);
    assert |g| == (|rows| - 1) * B && last.index == |rows| - 1 by { FlatLength(init); }
    assert init == Cut(g) by { WellFormedIsCut(init); }
    assert f[..|g|] == g;
    if |last.data| < left {
      ShrinkCut(init, left - |last.data|);
      ResizedDrop(f, g, s);
    } else if |last.data| == left {
      ResizedAligned(f, s);
    } else {
      ShrinkInside(g, last.data, left);
    }
  }

  // ------------------------------------------------------------ the loop's steps on the tables

  ghost predicate Shrinking(t0: Tables, t: Tables, f: nat, s: nat, left: nat) {
    && f in t0.files && s < t0.files[f].size
    && t == Put(t0, f, RowsOf(t, f), s)
    && Shrink(RowsOf(t, f), left) == Shrink(RowsOf(t0, f), t0.files[f].size - s)
  }

  lemma ShrinkFirst(t0: Tables, f: nat, s: nat)
    requires Schema(t0) && f in t0.files && s < t0.files[f].size
    ensures var u := Apply(t0, SetSize(f, s)); u.Some? && Shrinking(t0, u.value, f, s, t0.files[f].size - s)
  {
    assert t0.data[f := RowsOf(t0, f)] == t0.data;
  }

  lemma ShrinkStep(t0: Tables, t: Tables, f: nat, s: nat, left: nat, rows: seq<Row>, less: nat)
    requires Shrinking(t0, t, f, s, left) && Shrink(rows, less) == Shrink(RowsOf(t, f), left)
    ensures Shrinking(t0, t.(data := t.data[f := rows]), f, s, less)
  {
    assert t0.data[f := RowsOf(t, f)][f := rows] == t0.data[f := rows];
  }

  /** One turn of the loop that deletes the last row. */
  lemma ShrinkWhole(t0: Tables, t: Tables, f: nat, s: nat, left: nat, rows: seq<Row>)
    requires f in t.data && t.data[f] == rows && rows != []
    requires Shrinking(t0, t, f, s, left) && 0 < left && Min(left, B) >= |Last(rows).data|
    ensures var u := Apply(t, DeleteData(f, LastIndex(rows)));
      && u.Some? && Shrinking(t0, u.value, f, s, left - |Last(rows).data|)
      && RowsOf(u.value, f) == rows[..|rows| - 1]
  {
    hide Shrinking, Shrink;
    ShrinkDef(rows, left);
    ShrinkStep(t0, t, f, s, left, rows[..|rows| - 1], left - |Last(rows).data|);
  }

  /** The turn of the loop that shortens the last row to spaces. */
  lemma ShrinkPart(t0: Tables, t: Tables, f: nat, s: nat, left: nat, rows: seq<Row>, d: seq<Byte>)
    requires f in t.data && t.data[f] == rows && rows != [] && Sorted(rows)
    requires Shrinking(t0, t, f, s, left) && 0 < left && Min(left, B) < |Last(rows).data|
    requires d == Spaces(|Last(rows).data| - Min(left, B))
    ensures Min(left, B) == left
    ensures var u := Apply(t, UpdateData(f, LastIndex(rows), Value(d)));
      u.Some? && Shrinking(t0, u.value, f, s, 0) && |RowsOf(u.value, f)| == |rows|
  {
    hide Shrinking, Sorted, Shrink, Apply;
    LastLength(rows);
    UpdateLast(t, f, Value(d));
    var cut := rows[..|rows| - 1] + [Row(LastIndex(rows), d)];
    ShrinkDef(rows, left);
    ShrinkDef(cut, 0);
    ShrinkStep(t0, t, f, s, left, cut, 0);
  }

  lemma ShrinkDef(rows: seq<Row>, left: nat)
    ensures Shrink(rows, 0) == Some(rows)
    ensures rows != [] && 0 < left ==>
      var n := |Last(rows).data|;
      Shrink(rows, left) == if Min(left, B) >= n then Shrink(rows[..|rows| - 1], left - n)
        else Some(rows[..|rows| - 1] + [Row(LastIndex(rows), Spaces(n - Min(left, B)))])
  {
  }

  // ------------------------------------------------------------ growing

  lemma SpacesSlice(n: nat, i: nat, k: nat)
    requires i + k <= n
    ensures Spaces(n)[i..i + k] == Spaces(k)
  {
  }

  /** The size is set and the last row, if it has room, is padded. */
  lemma SizeSet(t: Tables, f: nat, s: nat)
    requires Schema(t) && f in t.files
    ensures Apply(t, SetSize(f, s)) == Some(Put(t, f, RowsOf(t, f), s))
    ensures f in t.data && RowsOf(Put(t, f, RowsOf(t, f), s), f) == RowsOf(t, f)
  {
    assert t.data[f := RowsOf(t, f)] == t.data;
  }

  lemma PadFirst(t0: Tables, f: nat, s: nat)
    requires Schema(t0) && f in t0.files && t0.files[f].size < s
    ensures var u := Apply(t0, SetSize(f, s)); var rows := RowsOf(t0, f); var left := s - t0.files[f].size;
      && u.Some? && RowsOf(u.value, f) == rows
      && if rows == [] || |Last(rows).data| >= B then Growing(t0, u.value, f, s, Spaces(left), 0, NextIndex(rows))
         else
           var n := Min(left, B - |Last(rows).data|);
           var v := Apply(u.value, UpdateData(f, LastIndex(rows), Concat(Spaces(n))));
           v.Some? && Growing(t0, v.value, f, s, Spaces(left), n, NextIndex(rows))
  {
    hide Growing, WellFormed, Flat, Sorted, WithData, Apply, Schema, Put;
    var rows, left := RowsOf(t0, f), s - t0.files[f].size;
    SizeSet(t0, f, s);
    var t := Put(t0, f, rows, s);
    if rows == [] || |Last(rows).data| >= B {
      GrowFromHere(t0, t, f, s, Spaces(left));
    } else {
      SpacesSlice(left, 0, Min(left, B - |Last(rows).data|));
      GrowLast(t0, t, f, s, Spaces(left));
    }
  }

  lemma PadNext(t0: Tables, t: Tables, f: nat, s: nat, n: nat, left: nat, index: nat)
    requires Sorted(RowsOf(t, f)) && 0 < left <= n && Growing(t0, t, f, s, Spaces(n), n - left, index)
    ensures var k := Min(left, B); var u := Apply(t, InsertData(f, index, Spaces(k)));
      u.Some? && Growing(t0, u.value, f, s, Spaces(n), n - left + k, index + 1)
  {
    hide Growing, Apply, Sorted;
    SpacesSlice(n, n - left, Min(left, B));
    GrowMore(t0, t, f, s, Spaces(n), n - left, index, Spaces(Min(left, B)));
  }

  lemma PadLast(t0: Tables, t: Tables, f: nat, s: nat, n: nat, index: nat)
    requires Growing(t0, t, f, s, Spaces(n), n, index)
    ensures Grown(t0, t, f, s, Spaces(n))
  {
    assert Spaces(n)[..n] == Spaces(n);
  }

  // ------------------------------------------------------------ the method

  /** What a truncation to `s` bytes does to a table, well-formed or not. */
  ghost predicate Truncated(t0: Tables, t: Tables, f: nat, s: nat) {
    && f in t0.files
    && var size := t0.files[f].size;
       if s == size then t == t0
       else if s > size then Grown(t0, t, f, s, Spaces(s - size))
       else t == Put(t0, f, RowsOf(t, f), s) && Shrink(RowsOf(t0, f), size - s) == Some(RowsOf(t, f))
  }

  /** The rows hold the bytes that a truncation to `s` has to take away. */
  ghost predicate CanTruncate(t: Tables, f: nat, s: nat) {
    f in t.files && t.files[f].size - s <= |Flat(RowsOf(t, f))|
  }

  lemma ShrinkLast(t0: Tables, t: Tables, f: nat, s: nat, left: nat)
    requires Schema(t0) && Shrinking(t0, t, f, s, left)
    ensures left == 0 ==> Truncated(t0, t, f, s) && CanTruncate(t0, f, s)
    ensures 0 < left && RowsOf(t, f) == [] ==> !CanTruncate(t0, f, s)
  {
    ShrinkTotal(RowsOf(t0, f), t0.files[f].size - s);
  }

  /** The growing branch: pad the last row, then add rows of spaces. */
  method GrowFile(db: Connection, f: nat, size: nat, diff: nat, ghost t0: Tables) returns (success: bool)
    requires db.Valid() && db.saved == Some(t0) && Schema(t0)
    requires f in t0.files && t0.files[f].size + diff == size && 0 < diff
    requires Apply(t0, SetSize(f, size)) == Some(db.tables)
    modifies db
    ensures db.Valid() && db.saved == old(db.saved) && old(db.clock) < db.clock
    ensures success ==> Grown(t0, db.tables, f, size, Spaces(diff))
    ensures success <==> db.Healthy(old(db.clock))
  {
    hide Schema, Growing, Grown, Apply, Flat, Sorted;
    PadFirst(t0, f, size);
    var left: nat, writeSize: nat, index: nat := diff, 0, 0;
    var res := db.SelectLast(f);
    if res == None { return false; }
    var last := res.value;
    success := true;
    if last != [] {
      index := last[0].index + 1;
      if |last[0].data| < B {
        writeSize := Min(left, B - |last[0].data|);
        success := db.Query(UpdateData(f, last[0].index, Concat(Spaces(writeSize))));
        if !success { return; }
        left := left - writeSize;
      }
    }
    while left > 0
      invariant 0 <= left <= diff && success
      invariant db.Valid() && db.saved == Some(t0) && db.Healthy(old(db.clock)) && old(db.clock) < db.clock
      invariant Growing(t0, db.tables, f, size, Spaces(diff), diff - left, index)
    {
      writeSize := Min(left, B);
      SchemaRows(db.tables, f);
      PadNext(t0, db.tables, f, size, diff, left, index);
      success := db.Query(InsertData(f, index, Spaces(writeSize)));
      if !success { return; }
      index := index + 1;
      left := left - writeSize;
    }
    PadLast(t0, db.tables, f, size, diff, index);
  }

  /** The shrinking branch. It ends for every table the schema allows: each turn takes bytes
      off `left` or, at an empty row, a row off the table. */
  method ShrinkFile(db: Connection, f: nat, size: nat, diff: nat, ghost t0: Tables) returns (success: bool)
    requires db.Valid() && db.saved == Some(t0) && Schema(t0)
    requires Shrinking(t0, db.tables, f, size, diff) && 0 < diff
    modifies db
    ensures db.Valid() && db.saved == old(db.saved) && old(db.clock) < db.clock
    ensures success ==> Truncated(t0, db.tables, f, size)
    ensures success <==> db.Healthy(old(db.clock)) && CanTruncate(t0, f, size)
  {
    hide Schema, Shrinking, Apply, Flat, Truncated, CanTruncate, Sorted;
    var left: nat, writeSize: nat := diff, 0;
    success := true;
    while left > 0
      invariant 0 <= left && success
      invariant db.Valid() && db.saved == Some(t0) && db.Healthy(old(db.clock)) && old(db.clock) <= db.clock
      invariant left == diff || old(db.clock) < db.clock
      invariant Shrinking(t0, db.tables, f, size, left)
      decreases left + |RowsOf(db.tables, f)|
    {
      writeSize := Min(left, B);
      ShrinkLast(t0, db.tables, f, size, left);
      SchemaRows(db.tables, f);
      var res := db.SelectLast(f);
      if res == None { return false; }
      var last := res.value;
      if last == [] { return false; }
      if writeSize >= |last[0].data| {
        ShrinkWhole(t0, db.tables, f, size, left, RowsOf(db.tables, f));
        success := db.Query(DeleteData(f, last[0].index));
        if !success { return; }
        left := left - |last[0].data|;
      } else {
        ShrinkPart(t0, db.tables, f, size, left, RowsOf(db.tables, f), Spaces(|last[0].data| - writeSize));
        success := db.Query(UpdateData(f, last[0].index, Value(Spaces(|last[0].data| - writeSize))));
        if !success { return; }
        left := left - writeSize;
      }
    }
    ShrinkLast(t0, db.tables, f, size, left);
  }

  lemma TruncatedOnly(t: Tables, u: Tables, f: nat, s: nat)
    requires Schema(t) && Truncated(t, u, f, s)
    ensures OnlyFile(t, u, f) && f in u.files && u.files[f].size == s
  {
    SchemaRows(t, f);
    hide OnlyFile, Flat, WellFormed, Shrink, Schema;
    if s == t.files[f].size { OnlySelf(t, f); } else { PutOnly(t, f, RowsOf(u, f), s); }
  }

  method FileTruncate(db: Connection, f: nat, size: nat) returns (success: bool)
    requires db.Idle()
    modifies db
    ensures db.Idle() && old(db.clock) < db.clock
    ensures if success then Truncated(old(db.tables), db.tables, f, size) else db.tables == old(db.tables)
    // The recorded size may fall by no more than the rows hold.
    ensures success <==>
      && db.Healthy(old(db.clock)) && f in old(db.tables.files)
      && old(db.tables.files)[f].size - size <= |Flat(RowsOf(old(db.tables), f))|
    ensures OnlyFile(old(db.tables), db.tables, f)
    ensures success ==> f in db.tables.files && db.tables.files[f].size == size
  {
    hide Schema, Grown, Shrinking, Flat, OnlyFile;
    ghost var t0 := db.tables;
    OnlySelf(t0, f);

    success := db.Start();
    if !success { return; }

    label done: {
      var current := db.SelectSize(f);
      if current == None || current.value == None {
        success := false;
        break done;
      }
      var diff := size - current.value.value;

      if diff != 0 {
        if diff < 0 { ShrinkFirst(t0, f, size); }
        success := db.Query(SetSize(f, size));
        if !success { break done; }
      }

      if diff > 0 {
        success := GrowFile(db, f, size, diff, t0);
      } else if diff < 0 {
        success := ShrinkFile(db, f, size, diff * -1, t0);
      }
      if success { TruncatedOnly(t0, db.tables, f, size); }
    }
    db.Stop(success);
  }
}
