/** `myfs_db_file_write`: overwriting existing rows in place, then adding new ones. */
module Write {
  import opened Blocks
  import opened Database
  import opened Append
  import opened RowWrite

  // ------------------------------------------------------------ what a write means

  /** File `f` is well-formed. */
  ghost predicate Known(t: Tables, f: nat) {
    f in t.files && WellFormed(RowsOf(t, f))
  }

  /** The first byte of the write falls into an existing row or right after a full one. */
  predicate Inside(flat: seq<Byte>, offset: nat) {
    offset < |flat| || (offset == |flat| && |flat| % B == 0)
  }

  /** The rows to overwrite are counted from the length alone. A write that wraps past one more
      block boundary then inserts a row, which the unique key rejects if the row exists. */
  predicate Collides(flat: seq<Byte>, offset: nat, len: nat) {
    0 < len && offset % B + (len - 1) % B >= B && offset / B + BlockCount(len) < BlockCount(|flat|)
  }

  /** A collision is a write that needs one more block than its length alone does, when that block
      is there already. */
  lemma CollidesMeaning(flat: seq<Byte>, offset: nat, len: nat)
    requires 0 < len
    ensures Collides(flat, offset, len) <==>
      && BlockCount(len) < BlockCount(offset % B + len)
      && (offset + len - 1) / B < BlockCount(|flat|)
  {
    SpanCount(offset, len);
    var a, b := (len - 1) / B, (len - 1) % B;
    assert offset + len - 1 == (offset / B + a) * B + (offset % B + b);
    if offset % B + b >= B {
      assert (offset + len - 1) / B == offset / B + a + 1;
      assert BlockCount(len) == a + 1;
    }
  }

  /** The contents after a successful write of `s` at `offset`. Behind the bytes of a partial last
      row the SQL INSERT has no effect, so the bytes meant for that row are lost; behind the last
      row new rows are added, and the gap before them is forgotten. */
  function Rewritten(flat: seq<Byte>, offset: nat, s: seq<Byte>): seq<Byte> {
    if Inside(flat, offset) then Overlay(flat, offset, s)
    else if offset / B < BlockCount(|flat|) then flat + s[Min(|s|, B - offset % B)..]
    else flat + s
  }

  /** The bytes of a write that go into new rows; only these are added to the recorded size. */
  function NewBytes(flat: seq<Byte>, offset: nat, len: nat): nat {
    var end := offset + len - BlockCount(|flat|) * B;
    if BlockCount(|flat|) <= offset / B then len else if end > 0 then end else 0
  }

  /** What a write means elsewhere: the bytes are overlaid, and a gap is filled with zeros. */
  function PosixWrite(flat: seq<Byte>, offset: nat, s: seq<Byte>): seq<Byte> {
    if s == [] then flat
    else if offset <= |flat| then Overlay(flat, offset, s)
    else flat + seq(offset - |flat|, _ => 0) + s
  }

  /** A successful write does the same exactly when it starts inside the file or at a full end
      (or writes nothing). */
  lemma RewrittenFaithful(flat: seq<Byte>, offset: nat, s: seq<Byte>)
    ensures Rewritten(flat, offset, s) == PosixWrite(flat, offset, s) <==> Inside(flat, offset) || s == []
  {
    if s == [] {
      assert Rewritten(flat, offset, s) == flat;
    } else if !Inside(flat, offset) {
      assert |Rewritten(flat, offset, s)| < offset + |s| == |PosixWrite(flat, offset, s)|;
    }
  }

  /** After such a write the recorded size is the content length exactly when the write stays
      inside the old contents or the old length is a multiple of the block size. */
  lemma SizeAgrees(flat: seq<Byte>, offset: nat, s: seq<Byte>)
    requires Inside(flat, offset)
    ensures |flat| + NewBytes(flat, offset, |s|) == |Overlay(flat, offset, s)|
       <==> offset + |s| <= |flat| || |flat| % B == 0
  {
  }

  /** Inputs of each kind: one block written at offset 1 of two collides; two bytes written over a
      file of one are recorded as one; and a byte written behind one byte is lost. */
  lemma WriteExamples(one: seq<Byte>, two: seq<Byte>, x: Byte)
    requires |one| == 1 && |two| == 2 * B
    ensures Collides(two, 1, B)
    ensures |one| + NewBytes(one, 0, 2) == 1 && |Overlay(one, 0, [x, x])| == 2
    ensures Rewritten(one, 1, [x]) == one
  {
  }

  /** `t` differs from `t0` in nothing but file `f`'s rows and recorded size. */
  ghost predicate Touched(t0: Tables, t: Tables, f: nat) {
    if f in t0.files then f in t.files && f in t.data && t == Put(t0, f, RowsOf(t, f), t.files[f].size) else t == t0
  }

  /** The outcome of a successful write to a well-formed file. */
  ghost predicate Written(t0: Tables, t: Tables, f: nat, data: seq<Byte>, offset: nat)
    requires Known(t0, f)
  {
    var flat := Flat(RowsOf(t0, f));
    && t == Put(t0, f, RowsOf(t, f), t0.files[f].size + NewBytes(flat, offset, |data|))
    && Flat(RowsOf(t, f)) == Rewritten(flat, offset, data)
    && (Inside(flat, offset) ==> WellFormed(RowsOf(t, f)))
  }

  // ------------------------------------------------------------ the rows a SELECT returns

  lemma {:induction false} RowsFromNumbered(rows: seq<Row>, base: nat, from: nat, limit: nat)
    requires forall k :: 0 <= k < |rows| ==> rows[k].index == base + k
    requires base <= from
    ensures var lo := Min(from - base, |rows|); RowsFrom(rows, from, limit) == rows[lo..Min(lo + limit, |rows|)]
    decreases |rows|
  {
    if rows != [] && base < from {
      RowsFromNumbered(rows[1..], base + 1, from, limit);
    }
  }

  // ------------------------------------------------------------ overwriting

  /** The contents while rows are being overwritten. */
  function Placed(flat: seq<Byte>, offset: nat, s: seq<Byte>): seq<Byte> {
    if Inside(flat, offset) then Overlay(flat, offset, s) else flat
  }

  /** The loop's counters after `j` of the selected rows. */
  predicate At(offset: nat, len: nat, written: nat, index: nat, po: nat, j: nat) {
    && written <= len && index == offset / B + j
    && (if j == 0 then written == 0 && po == offset % B else 0 < written && po == 0)
    && (j > 0 ==> offset + written <= index * B && (written < len ==> offset + written == index * B))
  }

  /** After `j` of the selected rows, `written` bytes are in place. */
  ghost predicate Overwriting(t0: Tables, t: Tables, f: nat, data: seq<Byte>, offset: nat,
                              written: nat, index: nat, po: nat, j: nat) {
    && written <= |data| && Touched(t0, t, f)
    && (Known(t0, f) ==>
          && At(offset, |data|, written, index, po, j)
          && t == Put(t0, f, Cut(Placed(Flat(RowsOf(t0, f)), offset, data[..written])), t0.files[f].size))
  }

  lemma OverwriteFirst(t0: Tables, f: nat, data: seq<Byte>, offset: nat)
    requires Schema(t0)
    ensures Overwriting(t0, t0, f, data, offset, 0, offset / B, offset % B, 0)
  {
    if Known(t0, f) {
      WellFormedIsCut(RowsOf(t0, f));
      var flat := Flat(RowsOf(t0, f));
      assert Placed(flat, offset, data[..0]) == flat;
      assert t0.data[f := RowsOf(t0, f)] == t0.data;
    }
  }

  lemma WithDataCut(g: seq<Byte>, b: nat, e: Expr)
    requires b < BlockCount(|g|)
    ensures WithData(Cut(g), b, e) == Cut(g)[b := Row(b, Eval(e, Cut(g)[b].data))]
  {
  }

  /** Behind the bytes of a partial last row an SQL INSERT changes nothing. */
  lemma PlaceBehind(flat: seq<Byte>, p: nat, len: nat, c: seq<Byte>)
    requires |flat| % B <= p && |flat| % B != 0
    ensures var b := |flat| / B;
      && b < |Cut(flat)|
      && WithData(Cut(flat), b, Insert(p + 1, len, c)) == Cut(flat)
  {
    var b := |flat| / B;
    assert |Block(flat, b)| == |flat| % B;
    WithDataCut(flat, b, Insert(p + 1, len, c));
  }

  lemma PlaceInside(flat: seq<Byte>, offset: nat, s: seq<Byte>, c: seq<Byte>)
    requires offset <= |flat| && offset + |s| < |flat|
    requires 1 <= |c| && (offset + |s|) % B + |c| <= B
    ensures var b := (offset + |s|) / B; var g := Overlay(flat, offset, s);
      && b < |Cut(g)|
      && WithData(Cut(g), b, Insert((offset + |s|) % B + 1, |c|, c)) == Cut(Overlay(flat, offset, s + c))
  {
    hide Cut, SqlInsert, WithData;
    var g, p := Overlay(flat, offset, s), offset + |s|;
    OverlayTwice(flat, offset, s, c);
    hide Overlay;
    CutOverwrite(g, p, c);
    WithDataCut(g, p / B, Insert(p % B + 1, |c|, c));
  }

  lemma BehindEnd(flat: seq<Byte>, offset: nat, n: nat)
    requires !Inside(flat, offset) && offset + n < BlockCount(|flat|) * B && (n == 0 || (offset + n) % B == 0)
    ensures n == 0 && offset / B == |flat| / B && |flat| % B != 0 && |flat| % B <= offset % B
  {
  }

  /** One SQL INSERT places the next chunk. */
  lemma PlaceNext(flat: seq<Byte>, offset: nat, s: seq<Byte>, c: seq<Byte>)
    requires offset + |s| < BlockCount(|flat|) * B
    requires s == [] || (offset + |s|) % B == 0
    requires 1 <= |c| && (offset + |s|) % B + |c| <= B
    ensures var b := (offset + |s|) / B; var rows := Cut(Placed(flat, offset, s));
      && b < |rows|
      && WithData(rows, b, Insert((offset + |s|) % B + 1, |c|, c)) == Cut(Placed(flat, offset, s + c))
  {
    hide Cut, SqlInsert, Overlay, WithData;
    if Inside(flat, offset) {
      PlaceInside(flat, offset, s, c);
    } else {
      BehindEnd(flat, offset, |s|);
      assert s == [];
      PlaceBehind(flat, offset % B, |c|, c);
    }
  }

  lemma ExtendSlice(data: seq<Byte>, i: nat, n: nat)
    requires i + n <= |data|
    ensures data[..i] + data[i..i + n] == data[..i + n]
  {
  }

  lemma CutRowsSmall(g: seq<Byte>, i: nat)
    requires i < |Cut(g)|
    ensures |Cut(g)[i].data| <= B
  {
  }

  /** An UPDATE on a file's rows that turns one cut into another. */
  lemma UpdateCut(t0: Tables, t: Tables, f: nat, size: nat, g: seq<Byte>, h: seq<Byte>, b: nat, e: Expr)
    requires f in t0.files && t == Put(t0, f, Cut(g), size)
    requires WithData(Cut(g), b, e) == Cut(h)
    ensures Apply(t, UpdateData(f, b, e)) == Some(Put(t0, f, Cut(h), size))
  {
    hide Cut;
    assert t0.data[f := Cut(g)][f := Cut(h)] == t0.data[f := Cut(h)];
    forall i | 0 <= i < |Cut(h)|
      ensures |Cut(h)[i].data| <= B
    {
      CutRowsSmall(h, i);
    }
  }

  lemma OverwriteNext(t0: Tables, t: Tables, f: nat, data: seq<Byte>, offset: nat,
                      written: nat, index: nat, po: nat, j: nat, c: seq<Byte>)
    requires Overwriting(t0, t, f, data, offset, written, index, po, j) && written < |data| && po < B
    requires Known(t0, f) && index < |RowsOf(t0, f)|
    requires c == data[written..written + WriteSize(|data| - written, written, po)]
    ensures var u := Apply(t, UpdateData(f, index, Insert(po + 1, |c|, c)));
      u.Some? && Overwriting(t0, u.value, f, data, offset, written + |c|, index + 1, 0, j + 1)
  {
    hide Cut, Flat, Placed, Apply, Known, Touched, At, RowsOf, WriteSize, WithData, Put;
    KnownCut(t0, f);
    var flat, s, size := Flat(RowsOf(t0, f)), data[..written], t0.files[f].size;
    NextPlace(offset, |data|, written, index, po, j, |flat|);
    PlaceNext(flat, offset, s, c);
    ExtendSlice(data, written, |c|);
    UpdateCut(t0, t, f, size, Placed(flat, offset, s), Placed(flat, offset, s + c), index, Insert(po + 1, |c|, c));
    PutTouched(t0, f, Cut(Placed(flat, offset, s + c)), size);
  }

  lemma PutTouched(t0: Tables, f: nat, rows: seq<Row>, size: nat)
    requires f in t0.files
    ensures Touched(t0, Put(t0, f, rows, size), f)
  {
  }

  lemma NextPlace(offset: nat, len: nat, written: nat, index: nat, po: nat, j: nat, flatLen: nat)
    requires At(offset, len, written, index, po, j) && written < len && index < BlockCount(flatLen)
    ensures (offset + written) / B == index && (offset + written) % B == po
    ensures offset + written < BlockCount(flatLen) * B
    ensures At(offset, len, written + WriteSize(len - written, written, po), index + 1, 0, j + 1)
    ensures written == 0 || po == 0
    ensures var w := WriteSize(len - written, written, po); 1 <= w <= len - written && po + w <= B
  {
  }

  lemma KnownCut(t0: Tables, f: nat)
    requires Known(t0, f)
    ensures var flat := Flat(RowsOf(t0, f));
      f in t0.files && RowsOf(t0, f) == Cut(flat) && |RowsOf(t0, f)| == BlockCount(|flat|)
  {
    WellFormedIsCut(RowsOf(t0, f));
  }

  lemma CutCount(t0: Tables, f: nat)
    requires WellFormed(RowsOf(t0, f))
    ensures RowsOf(t0, f) == Cut(Flat(RowsOf(t0, f)))
    ensures |RowsOf(t0, f)| == BlockCount(|Flat(RowsOf(t0, f))|)
  {
    WellFormedIsCut(RowsOf(t0, f));
  }

  /** What the initial SELECT returns of a well-formed file. */
  lemma SelectedRows(t0: Tables, f: nat, offset: nat, limit: nat)
    requires Known(t0, f)
    ensures var n := |RowsOf(t0, f)|; var sel := RowsFrom(RowsOf(t0, f), offset / B, limit);
      && |sel| == Min(limit, n - Min(offset / B, n))
      && forall j :: 0 <= j < |sel| ==> sel[j].index == offset / B + j < n
  {
    KnownNumbered(t0, f);
    hide Known, RowsFrom;
    RowsFromNumbered(RowsOf(t0, f), 0, offset / B, limit);
  }

  lemma KnownNumbered(t0: Tables, f: nat)
    requires Known(t0, f)
    ensures forall k :: 0 <= k < |RowsOf(t0, f)| ==> RowsOf(t0, f)[k].index == k
  {
  }

  // ------------------------------------------------------------ adding rows

  /** `written` bytes are in place; the rest goes into new rows from `index` on, or, on a
      collision, the next INSERT is rejected. */
  ghost predicate Adding(t0: Tables, t: Tables, f: nat, data: seq<Byte>, offset: nat, written: nat, index: nat) {
    && written <= |data| && Touched(t0, t, f)
    && (Known(t0, f) ==>
          var flat, rows := Flat(RowsOf(t0, f)), RowsOf(t, f);
          if Collides(flat, offset, |data|) then written < |data| && HasIndex(rows, index)
          else
            && t == Put(t0, f, rows, t0.files[f].size + NewBytes(flat, offset, |data|))
            && NextIndex(rows) <= index
            && Flat(rows) == Rewritten(flat, offset, data[..written])
            && PastRows(flat, offset, written)
            && (Inside(flat, offset) ==> WellFormed(rows) && index == NextIndex(rows) && (written < |data| ==> LastFull(rows))))
  }

  /** The old rows have taken what they can. */
  predicate PastRows(flat: seq<Byte>, offset: nat, written: nat) {
    if Inside(flat, offset) then |flat| <= offset + written
    else offset / B < BlockCount(|flat|) ==> B <= offset % B + written
  }

  lemma CutEnd(g: seq<Byte>)
    ensures NextIndex(Cut(g)) == BlockCount(|g|)
    ensures |g| % B == 0 ==> LastFull(Cut(g))
  {
  }

  lemma OverlayMore(flat: seq<Byte>, offset: nat, s: seq<Byte>, c: seq<Byte>)
    requires offset <= |flat| <= offset + |s|
    ensures Overlay(flat, offset, s) + c == Overlay(flat, offset, s + c)
  {
    assert Overlay(flat, offset, s) == flat[..offset] + s;
    assert Overlay(flat, offset, s + c) == flat[..offset] + (s + c);
  }

  lemma RewrittenMore(flat: seq<Byte>, offset: nat, s: seq<Byte>, c: seq<Byte>)
    requires PastRows(flat, offset, |s|)
    ensures Rewritten(flat, offset, s) + c == Rewritten(flat, offset, s + c)
  {
    if Inside(flat, offset) {
      OverlayMore(flat, offset, s, c);
    } else if offset / B < BlockCount(|flat|) {
      var k := B - offset % B;
      assert (s + c)[k..] == s[k..] + c;
    }
  }

  /** Where the write stands once the selected rows are used up. */
  lemma SpanEnd(flat: seq<Byte>, offset: nat, len: nat, written: nat, j: nat)
    requires written < len
    requires var n := BlockCount(|flat|); j == Min(BlockCount(len), n - Min(offset / B, n))
    requires if j == 0 then written == 0 else offset + written == (offset / B + j) * B
    ensures Collides(flat, offset, len) <==> offset / B + j < BlockCount(|flat|)
    ensures !Collides(flat, offset, len) ==>
      && BlockCount(|flat|) <= offset / B + j && len - written == NewBytes(flat, offset, len)
      && PastRows(flat, offset, written)
      && (Inside(flat, offset) ==> offset / B + j == BlockCount(|flat|) && (offset + written) % B == 0)
      && (!Inside(flat, offset) ==> if offset / B < BlockCount(|flat|) then offset % B + written == B else written == 0)
  {
  }

  /** All selected rows are used up and bytes are left: the selection ended before the file did
      exactly in the case of a collision. */
  lemma AddFirst(t0: Tables, t: Tables, f: nat, data: seq<Byte>, offset: nat,
                 written: nat, index: nat, po: nat, j: nat)
    requires Overwriting(t0, t, f, data, offset, written, index, po, j) && written < |data|
    requires Known(t0, f)
    requires j == Min(BlockCount(|data|), |RowsOf(t0, f)| - Min(offset / B, |RowsOf(t0, f)|))
    ensures var u := Apply(t, AddSize(f, |data| - written)); u.Some? && Adding(t0, u.value, f, data, offset, written, index)
  {
    hide WellFormed, Flat, Cut, Collides, Inside, NewBytes;
    var flat := Flat(RowsOf(t0, f));
    var g := Placed(flat, offset, data[..written]);
    CutCount(t0, f);
    SpanEnd(flat, offset, |data|, written, j);
    assert BlockCount(|g|) == BlockCount(|flat|);
    if Collides(flat, offset, |data|) {
      CutHasIndex(g, index);
    } else {
      PlacedAll(flat, offset, data[..written]);
      CutEnd(g);
      FlatCut(g);
      CutWellFormed(g);
    }
  }

  lemma PlacedAll(flat: seq<Byte>, offset: nat, s: seq<Byte>)
    requires !Inside(flat, offset) ==> if offset / B < BlockCount(|flat|) then offset % B + |s| == B else s == []
    ensures Placed(flat, offset, s) == Rewritten(flat, offset, s)
  {
  }

  lemma CutHasIndex(g: seq<Byte>, index: nat)
    requires index < BlockCount(|g|)
    ensures HasIndex(Cut(g), index)
  {
    assert Cut(g)[index].index == index;
  }

  lemma AddNext(t0: Tables, t: Tables, f: nat, data: seq<Byte>, offset: nat, written: nat, index: nat, c: seq<Byte>)
    requires Adding(t0, t, f, data, offset, written, index) && written < |data|
    requires Known(t0, f) && !Collides(Flat(RowsOf(t0, f)), offset, |data|)
    requires f in t.data && f in t.files && Sorted(RowsOf(t, f))
    requires c == data[written..written + Min(|data| - written, B)]
    ensures var u := Apply(t, InsertData(f, index, c));
      u.Some? && Adding(t0, u.value, f, data, offset, written + |c|, index + 1)
  {
    hide WellFormed, Flat, Collides, Inside, NewBytes, Apply, Sorted, Rewritten;
    var rows := RowsOf(t, f);
    InsertBehind(t, f, index, c);
    var u := Apply(t, InsertData(f, index, c)).value;
    var r := Row(index, c);
    assert t0.data[f := rows][f := rows + [r]] == t0.data[f := rows + [r]];
    FlatPush(rows, r);
    RewrittenMore(Flat(RowsOf(t0, f)), offset, data[..written], c);
    ExtendSlice(data, written, |c|);
    if Inside(Flat(RowsOf(t0, f)), offset) { PushWellFormed(rows, c); }
  }

  lemma AddCollides(t0: Tables, t: Tables, f: nat, data: seq<Byte>, offset: nat, written: nat, index: nat, c: seq<Byte>)
    requires Adding(t0, t, f, data, offset, written, index) && Known(t0, f)
    requires Collides(Flat(RowsOf(t0, f)), offset, |data|)
    ensures Apply(t, InsertData(f, index, c)) == None
  {
    hide WellFormed, Flat, Collides, Inside, NewBytes;
  }

  lemma AddLast(t0: Tables, t: Tables, f: nat, data: seq<Byte>, offset: nat, index: nat)
    requires Adding(t0, t, f, data, offset, |data|, index) && Known(t0, f)
    ensures Written(t0, t, f, data, offset) && !Collides(Flat(RowsOf(t0, f)), offset, |data|)
  {
    hide WellFormed, Flat, Collides, Inside, NewBytes, Rewritten;
    assert data[..|data|] == data;
  }

  lemma SpanFits(flat: seq<Byte>, offset: nat, len: nat, j: nat)
    requires var n := BlockCount(|flat|); j <= Min(BlockCount(len), n - Min(offset / B, n))
    requires if j == 0 then len == 0 else offset + len <= (offset / B + j) * B
    ensures !Collides(flat, offset, len) && NewBytes(flat, offset, len) == 0
    ensures !Inside(flat, offset) && 0 < len ==> offset % B + len <= B
  {
  }

  /** The selected rows took everything. */
  lemma OverwriteLast(t0: Tables, t: Tables, f: nat, data: seq<Byte>, offset: nat, index: nat, po: nat, j: nat)
    requires Overwriting(t0, t, f, data, offset, |data|, index, po, j) && Known(t0, f)
    requires j <= Min(BlockCount(|data|), |RowsOf(t0, f)| - Min(offset / B, |RowsOf(t0, f)|))
    ensures Written(t0, t, f, data, offset) && !Collides(Flat(RowsOf(t0, f)), offset, |data|)
  {
    hide WellFormed, Flat, Collides, NewBytes, Cut;
    var flat := Flat(RowsOf(t0, f));
    CutCount(t0, f);
    SpanFits(flat, offset, |data|, j);
    assert data[..|data|] == data;
    var g := Placed(flat, offset, data);
    FlatCut(g);
    CutWellFormed(g);
    if !Inside(flat, offset) {
      assert offset / B < BlockCount(|flat|) ==> Min(|data|, B - offset % B) == |data|;
      assert Rewritten(flat, offset, data) == flat;
    }
  }

  // ------------------------------------------------------------ statement by statement

  lemma StatementTouches(t: Tables, f: nat, s: Statement)
    requires (f in t.files <==> f in t.data) && Apply(t, s).Some?
    requires (s.AddSize? || s.UpdateData? || s.InsertData?) && s.file == f
    ensures var u := Apply(t, s).value;
      if f in t.files then f in u.files && f in u.data && u == Put(t, f, RowsOf(u, f), u.files[f].size) else u == t
  {
    hide WithData, WithRow, HasIndex;
  }

  lemma TouchedNext(t0: Tables, t: Tables, f: nat, s: Statement)
    requires Schema(t0) && Schema(t) && Touched(t0, t, f) && Apply(t, s).Some?
    requires (s.AddSize? || s.UpdateData? || s.InsertData?) && s.file == f
    ensures Touched(t0, Apply(t, s).value, f)
  {
    hide Apply, Schema;
    SchemaRows(t0, f);
    SchemaRows(t, f);
    StatementTouches(t, f, s);
    if f in t0.files {
      var u := Apply(t, s).value;
      assert u.data == t0.data[f := u.data[f]];
      assert u.files == t0.files[f := u.files[f]];
    }
  }

  lemma OverwriteStep(t0: Tables, t: Tables, f: nat, data: seq<Byte>, offset: nat,
                      written: nat, index: nat, po: nat, j: nat, c: seq<Byte>, row: nat)
    requires Schema(t0) && Schema(t)
    requires Overwriting(t0, t, f, data, offset, written, index, po, j) && written < |data| && po < B
    requires Known(t0, f) ==> row == offset / B + j < |RowsOf(t0, f)|
    requires c == data[written..written + WriteSize(|data| - written, written, po)]
    ensures var u := Apply(t, UpdateData(f, row, Insert(po + 1, |c|, c)));
      && (Known(t0, f) ==> u.Some?)
      && (u.Some? ==> Overwriting(t0, u.value, f, data, offset, written + |c|, row + 1, 0, j + 1))
  {
    hide Schema, Apply, Flat, WellFormed, Cut, Placed, Touched;
    if Known(t0, f) {
      OverwriteNext(t0, t, f, data, offset, written, index, po, j, c);
    } else if Apply(t, UpdateData(f, row, Insert(po + 1, |c|, c))).Some? {
      TouchedNext(t0, t, f, UpdateData(f, row, Insert(po + 1, |c|, c)));
    }
  }

  lemma AddStart(t0: Tables, t: Tables, f: nat, data: seq<Byte>, offset: nat,
                 written: nat, index: nat, po: nat, j: nat)
    requires Schema(t0) && Schema(t)
    requires Overwriting(t0, t, f, data, offset, written, index, po, j) && written < |data|
    requires Known(t0, f) ==>
      j == Min(BlockCount(|data|), |RowsOf(t0, f)| - Min(offset / B, |RowsOf(t0, f)|))
    ensures var u := Apply(t, AddSize(f, |data| - written)); u.Some? && Adding(t0, u.value, f, data, offset, written, index)
  {
    hide Schema, Flat, WellFormed, Cut, Placed, Touched;
    if Known(t0, f) {
      AddFirst(t0, t, f, data, offset, written, index, po, j);
    } else {
      TouchedNext(t0, t, f, AddSize(f, |data| - written));
    }
  }

  lemma AddStep(t0: Tables, t: Tables, f: nat, data: seq<Byte>, offset: nat, written: nat, index: nat, c: seq<Byte>)
    requires Schema(t0) && Schema(t)
    requires Adding(t0, t, f, data, offset, written, index) && written < |data|
    requires c == data[written..written + Min(|data| - written, B)]
    ensures var u := Apply(t, InsertData(f, index, c));
      && (Known(t0, f) ==> (u.Some? <==> !Collides(Flat(RowsOf(t0, f)), offset, |data|)))
      && (u.Some? ==> Adding(t0, u.value, f, data, offset, written + |c|, index + 1))
  {
    hide Schema, Apply, Flat, WellFormed, Collides, Rewritten, Touched, Sorted;
    SchemaRows(t0, f);
    SchemaRows(t, f);
    if Known(t0, f) {
      if Collides(Flat(RowsOf(t0, f)), offset, |data|) {
        AddCollides(t0, t, f, data, offset, written, index, c);
      } else {
        TouchedFile(t0, t, f);
        AddNext(t0, t, f, data, offset, written, index, c);
      }
    } else if Apply(t, InsertData(f, index, c)).Some? {
      TouchedNext(t0, t, f, InsertData(f, index, c));
    }
  }

  lemma TouchedFile(t0: Tables, t: Tables, f: nat)
    requires Touched(t0, t, f) && f in t0.files
    ensures f in t.files && f in t.data
  {
  }

  // ------------------------------------------------------------ any rows

  function Selected(t0: Tables, f: nat, data: seq<Byte>, offset: nat): seq<Row> {
    RowsFrom(RowsOf(t0, f), offset / B, BlockCount(|data|))
  }

  function Over(t0: Tables, f: nat, data: seq<Byte>, offset: nat): (seq<Row>, nat, nat) {
    Replaced(RowsOf(t0, f), Selected(t0, f, data, offset), data, 0, offset % B, offset / B)
  }

  /** The first `j` selected rows have been replaced. */
  ghost predicate Replacing(t0: Tables, t: Tables, f: nat, data: seq<Byte>, offset: nat,
                            written: nat, index: nat, po: nat, j: nat) {
    && written <= |data| && po < B && j <= |Selected(t0, f, data, offset)|
    && if f in t0.files then
         && f in t.files && f in t.data && t == Put(t0, f, RowsOf(t, f), t0.files[f].size)
         && Replaced(RowsOf(t, f), Selected(t0, f, data, offset)[j..], data, written, po, index) == Over(t0, f, data, offset)
       else t == t0 && written == 0
  }

  /** New rows are being added. */
  ghost predicate Filling(t0: Tables, t: Tables, f: nat, data: seq<Byte>, offset: nat, written: nat, index: nat) {
    && written <= |data|
    && if f in t0.files then
         var (over, w, next) := Over(t0, f, data, offset);
         && f in t.files && f in t.data && t == Put(t0, f, RowsOf(t, f), t0.files[f].size + |data| - w)
         && Filled(RowsOf(t, f), index, data[written..]) == Filled(over, next, data[w..])
       else t == t0 && (written == 0 || data == [])
  }

  /** What a write to any rows comes to; a missing file takes no bytes. */
  ghost predicate WriteFits(t: Tables, f: nat, data: seq<Byte>, offset: nat) {
    if f in t.files then RowsWritten(RowsOf(t, f), data, offset).Some? else data == []
  }

  ghost predicate WrittenRows(t0: Tables, t: Tables, f: nat, data: seq<Byte>, offset: nat)
    requires WriteFits(t0, f, data, offset)
  {
    if f in t0.files then
      var (rows, more) := RowsWritten(RowsOf(t0, f), data, offset).value;
      t == Put(t0, f, rows, t0.files[f].size + more)
    else t == t0
  }

  lemma ReplaceFirst(t0: Tables, f: nat, data: seq<Byte>, offset: nat)
    requires Schema(t0)
    ensures Replacing(t0, t0, f, data, offset, 0, offset / B, offset % B, 0)
  {
    SchemaRows(t0, f);
    assert Selected(t0, f, data, offset)[0..] == Selected(t0, f, data, offset);
    if f in t0.files { assert t0.data[f := RowsOf(t0, f)] == t0.data; }
  }

  /** The UPDATE of a selected row is never rejected. */
  lemma UpdateAccepted(t: Tables, f: nat, row: nat, po: nat, c: seq<Byte>)
    requires Schema(t) && f in t.files && po + |c| <= B
    ensures Apply(t, UpdateData(f, row, Insert(po + 1, |c|, c)))
         == Some(t.(data := t.data[f := WithData(RowsOf(t, f), row, Insert(po + 1, |c|, c))]))
  {
    SchemaRows(t, f);
    var rows := WithData(t.data[f], row, Insert(po + 1, |c|, c));
    forall i | 0 <= i < |rows|
      ensures |rows[i].data| <= B
    {
      InsertFits(t.data[f][i].data, po, c);
    }
  }

  lemma InsertFits(d: seq<Byte>, po: nat, c: seq<Byte>)
    requires |d| <= B && po + |c| <= B
    ensures |SqlInsert(d, po + 1, |c|, c)| <= B
  {
  }

  lemma ReplaceStep(t0: Tables, t: Tables, f: nat, data: seq<Byte>, offset: nat,
                    written: nat, index: nat, po: nat, j: nat, c: seq<Byte>, row: nat)
    requires Schema(t0) && Schema(t) && Replacing(t0, t, f, data, offset, written, index, po, j) && written < |data|
    requires j < |Selected(t0, f, data, offset)| && row == Selected(t0, f, data, offset)[j].index
    requires written == 0 || po == 0
    requires c == data[written..written + WriteSize(|data| - written, written, po)]
    ensures f in t0.files
    ensures var u := Apply(t, UpdateData(f, row, Insert(po + 1, |c|, c)));
      u.Some? && Replacing(t0, u.value, f, data, offset, written + |c|, row + 1, 0, j + 1)
  {
    hide Apply, WithData, Replaced, Put, Schema, WriteSize;
    SchemaRows(t0, f);
    NoneSelectedMissing(t0, f, data, offset);
    UpdateAccepted(t, f, row, po, c);
    ReplacedNext(RowsOf(t, f), Selected(t0, f, data, offset), j, data, written, po, index);
    PutAgain(t0, t, f, t0.files[f].size, WithData(RowsOf(t, f), row, Insert(po + 1, |c|, c)));
  }

  lemma NoneSelectedMissing(t0: Tables, f: nat, data: seq<Byte>, offset: nat)
    requires f in t0.files <==> f in t0.data
    ensures f !in t0.files ==> Selected(t0, f, data, offset) == []
  {
  }

  lemma ReplacedNext(rows: seq<Row>, sel: seq<Row>, j: nat, data: seq<Byte>, written: nat, po: nat, index: nat)
    requires j < |sel| && written < |data| && po < B
    ensures var n := WriteSize(|data| - written, written, po);
      Replaced(rows, sel[j..], data, written, po, index)
        == Replaced(WithData(rows, sel[j].index, Insert(po + 1, n, data[written..written + n])), sel[j + 1..], data, written + n, 0, sel[j].index + 1)
  {
    hide WithData, WriteSize;
    assert sel[j..][1..] == sel[j + 1..];
  }

  lemma PutAgain(t0: Tables, t: Tables, f: nat, size: nat, rows: seq<Row>)
    requires f in t0.files && t == Put(t0, f, RowsOf(t, f), size)
    ensures t.(data := t.data[f := rows]) == Put(t0, f, rows, size)
  {
    assert t0.data[f := RowsOf(t, f)][f := rows] == t0.data[f := rows];
  }

  /** The selected rows are used up, or nothing is left: the recorded size grows by the rest. */
  lemma FillStart(t0: Tables, t: Tables, f: nat, data: seq<Byte>, offset: nat,
                  written: nat, index: nat, po: nat, j: nat)
    requires Replacing(t0, t, f, data, offset, written, index, po, j)
    requires j == |Selected(t0, f, data, offset)| || written == |data|
    ensures written == |data| ==> Filling(t0, t, f, data, offset, written, index)
    ensures var u := Apply(t, AddSize(f, |data| - written));
      u.Some? && Filling(t0, u.value, f, data, offset, written, index)
  {
    var sel := Selected(t0, f, data, offset);
    if j == |sel| { assert sel[j..] == []; }
  }

  lemma FillStep(t0: Tables, t: Tables, f: nat, data: seq<Byte>, offset: nat, written: nat, index: nat, c: seq<Byte>)
    requires Filling(t0, t, f, data, offset, written, index) && written < |data|
    requires c == data[written..written + Min(|data| - written, B)]
    ensures var u := Apply(t, InsertData(f, index, c));
      if u.Some? then Filling(t0, u.value, f, data, offset, written + |c|, index + 1)
      else !WriteFits(t0, f, data, offset)
  {
    hide WithRow, HasIndex, Replaced;
    if f in t0.files {
      var rest, n := data[written..], Min(|data| - written, B);
      assert c == rest[..n] && rest[n..] == data[written + n..];
      PutAgain(t0, t, f, t0.files[f].size + |data| - Over(t0, f, data, offset).1, WithRow(RowsOf(t, f), Row(index, c)));
    }
  }

  lemma FillEnd(t0: Tables, t: Tables, f: nat, data: seq<Byte>, offset: nat, index: nat)
    requires Filling(t0, t, f, data, offset, |data|, index)
    ensures WriteFits(t0, f, data, offset) && WrittenRows(t0, t, f, data, offset)
  {
    assert data[|data|..] == [];
  }

  // ------------------------------------------------------------ the two phases

  /** The first phase: selected rows are overwritten. */
  ghost predicate Rewriting(t0: Tables, t: Tables, f: nat, data: seq<Byte>, offset: nat,
                            written: nat, index: nat, po: nat, j: nat) {
    && Overwriting(t0, t, f, data, offset, written, index, po, j)
    && Replacing(t0, t, f, data, offset, written, index, po, j)
  }

  /** The second phase: rows are added. */
  ghost predicate Extending(t0: Tables, t: Tables, f: nat, data: seq<Byte>, offset: nat, written: nat, index: nat) {
    Adding(t0, t, f, data, offset, written, index) && Filling(t0, t, f, data, offset, written, index)
  }

  /** The write fits; for well-formed rows that means it does not collide. */
  ghost predicate Fits(t0: Tables, f: nat, data: seq<Byte>, offset: nat) {
    WriteFits(t0, f, data, offset) && (Known(t0, f) ==> !Collides(Flat(RowsOf(t0, f)), offset, |data|))
  }

  ghost predicate Rejected(t0: Tables, f: nat, data: seq<Byte>, offset: nat) {
    !WriteFits(t0, f, data, offset) && (Known(t0, f) ==> Collides(Flat(RowsOf(t0, f)), offset, |data|))
  }

  ghost predicate Done(t0: Tables, t: Tables, f: nat, data: seq<Byte>, offset: nat) {
    && Fits(t0, f, data, offset) && Touched(t0, t, f)
    && WrittenRows(t0, t, f, data, offset) && (Known(t0, f) ==> Written(t0, t, f, data, offset))
  }

  lemma RewriteFirst(t0: Tables, f: nat, data: seq<Byte>, offset: nat)
    requires Schema(t0)
    ensures Rewriting(t0, t0, f, data, offset, 0, offset / B, offset % B, 0) && Touched(t0, t0, f)
  {
    hide Schema, Overwriting, Replacing, Touched;
    OverwriteFirst(t0, f, data, offset);
    ReplaceFirst(t0, f, data, offset);
    WriteUntouched(t0, f);
  }

  lemma RewriteStep(t0: Tables, t: Tables, f: nat, data: seq<Byte>, offset: nat,
                    written: nat, index: nat, po: nat, j: nat, c: seq<Byte>, row: nat)
    requires Schema(t0) && Schema(t) && Rewriting(t0, t, f, data, offset, written, index, po, j) && written < |data|
    requires j < |Selected(t0, f, data, offset)| && row == Selected(t0, f, data, offset)[j].index
    requires po < B && (written == 0 || po == 0)
    requires c == data[written..written + WriteSize(|data| - written, written, po)]
    ensures var u := Apply(t, UpdateData(f, row, Insert(po + 1, |c|, c)));
      u.Some? && Rewriting(t0, u.value, f, data, offset, written + |c|, row + 1, 0, j + 1)
  {
    SelectedAt(t0, f, data, offset, j, written, index, po, t);
    hide Schema, Apply, Overwriting, Replacing, Known, Selected, WriteSize;
    OverwriteStep(t0, t, f, data, offset, written, index, po, j, c, row);
    ReplaceStep(t0, t, f, data, offset, written, index, po, j, c, row);
  }

  lemma SelectedAt(t0: Tables, f: nat, data: seq<Byte>, offset: nat, j: nat, written: nat, index: nat, po: nat, t: Tables)
    requires Overwriting(t0, t, f, data, offset, written, index, po, j) && j <= |Selected(t0, f, data, offset)|
    ensures Known(t0, f) ==>
      && |Selected(t0, f, data, offset)| == Min(BlockCount(|data|), |RowsOf(t0, f)| - Min(offset / B, |RowsOf(t0, f)|))
      && (j < |Selected(t0, f, data, offset)| ==>
            index == offset / B + j && Selected(t0, f, data, offset)[j].index == offset / B + j < |RowsOf(t0, f)|)
  {
    hide Known, RowsFrom, Placed, Touched, Put, Cut, Flat;
    if Known(t0, f) { SelectedRows(t0, f, offset, BlockCount(|data|)); }
  }

  lemma ExtendStart(t0: Tables, t: Tables, f: nat, data: seq<Byte>, offset: nat,
                    written: nat, index: nat, po: nat, j: nat)
    requires Schema(t0) && Schema(t) && Rewriting(t0, t, f, data, offset, written, index, po, j) && written < |data|
    requires j == |Selected(t0, f, data, offset)|
    ensures var u := Apply(t, AddSize(f, |data| - written)); u.Some? && Extending(t0, u.value, f, data, offset, written, index)
  {
    SelectedAt(t0, f, data, offset, j, written, index, po, t);
    hide Schema, Apply, Overwriting, Replacing, Adding, Filling, Known, Selected;
    FillStart(t0, t, f, data, offset, written, index, po, j);
    AddStart(t0, t, f, data, offset, written, index, po, j);
  }

  lemma ExtendStep(t0: Tables, t: Tables, f: nat, data: seq<Byte>, offset: nat, written: nat, index: nat, c: seq<Byte>)
    requires Schema(t0) && Schema(t) && Extending(t0, t, f, data, offset, written, index) && written < |data|
    requires c == data[written..written + Min(|data| - written, B)]
    ensures var u := Apply(t, InsertData(f, index, c));
      if u.Some? then Extending(t0, u.value, f, data, offset, written + |c|, index + 1) else Rejected(t0, f, data, offset)
  {
    hide Schema, Apply, Adding, Filling, Known, Collides, WriteFits;
    FillStep(t0, t, f, data, offset, written, index, c);
    AddStep(t0, t, f, data, offset, written, index, c);
  }

  lemma ExtendEnd(t0: Tables, t: Tables, f: nat, data: seq<Byte>, offset: nat, index: nat)
    requires Extending(t0, t, f, data, offset, |data|, index)
    ensures Done(t0, t, f, data, offset)
  {
    hide Filling, Known, Collides, WriteFits, WrittenRows, Written, Touched;
    FillEnd(t0, t, f, data, offset, index);
    if Known(t0, f) { AddLast(t0, t, f, data, offset, index); }
  }

  lemma RewriteEnd(t0: Tables, t: Tables, f: nat, data: seq<Byte>, offset: nat, index: nat, po: nat, j: nat)
    requires Rewriting(t0, t, f, data, offset, |data|, index, po, j)
    ensures Done(t0, t, f, data, offset)
  {
    if Known(t0, f) { SelectedRows(t0, f, offset, BlockCount(|data|)); }
    hide Filling, Known, Collides, WriteFits, WrittenRows, Written, Touched;
    FillStart(t0, t, f, data, offset, |data|, index, po, j);
    FillEnd(t0, t, f, data, offset, index);
    if Known(t0, f) { OverwriteLast(t0, t, f, data, offset, index, po, j); }
  }

  // ------------------------------------------------------------ the method

  lemma TouchedOnly(t: Tables, u: Tables, f: nat)
    requires Schema(t)
    ensures Touched(t, u, f) || u == t ==> OnlyFile(t, u, f)
  {
    SchemaRows(t, f);
    OnlySelf(t, f);
    hide Schema, OnlyFile;
    if Touched(t, u, f) && f in t.files { PutOnly(t, f, RowsOf(u, f), u.files[f].size); }
  }

  method FileWrite(db: Connection, f: nat, data: seq<Byte>, offset: nat) returns (success: bool)
    requires db.Idle()
    modifies db
    ensures db.Idle() && old(db.clock) < db.clock
    ensures !success ==> db.tables == old(db.tables)
    ensures Touched(old(db.tables), db.tables, f)
    ensures OnlyFile(old(db.tables), db.tables, f)
    // Whatever the rows:
    ensures success <==> db.Healthy(old(db.clock)) && WriteFits(old(db.tables), f, data, offset)
    ensures success ==> WrittenRows(old(db.tables), db.tables, f, data, offset)
    // Well-formed rows:
    ensures Known(old(db.tables), f) ==>
      && (success <==> db.Healthy(old(db.clock)) && !Collides(Flat(RowsOf(old(db.tables), f)), offset, |data|))
      && (success ==> Written(old(db.tables), db.tables, f, data, offset))
  {
    hide Schema, Apply, Flat, Known, Written, Collides, Touched, RowsFrom, RowsOf, BlockCount,
      Rewriting, Extending, WriteFits, WrittenRows, OnlyFile;
    ghost var t0 := db.tables;
    TouchedOnly(t0, t0, f);
    RewriteFirst(t0, f, data, offset);
    var written: nat, left: nat, writeSize: nat := 0, |data|, 0;
    var index: nat, pageOffset: nat, limit := BlockIndex(offset), BlockOffset(offset), BlockCount(|data|);

    success := db.Start();
    if !success { return; }

    label done: {
      var res := db.SelectRows(f, index, limit);
      if res == None {
        success := false;
        break done;
      }
      var rows, j: nat := res.value, 0;

      while left > 0 && j < |rows|
        invariant j <= |rows| && written + left == |data| && pageOffset < B && success
        invariant db.Valid() && db.saved == Some(t0) && db.Healthy(old(db.clock)) && old(db.clock) < db.clock
        invariant Rewriting(t0, db.tables, f, data, offset, written, index, pageOffset, j)
        invariant written == 0 || pageOffset == 0
      {
        ghost var i := index;
        index := rows[j].index;
        if written == 0 {
          writeSize := Min(left, B - pageOffset);
        } else {
          writeSize := Min(left, B);
        }
        var chunk := data[written..written + writeSize];
        RewriteStep(t0, db.tables, f, data, offset, written, i, pageOffset, j, chunk, index);
        success := db.Query(UpdateData(f, index, Insert(pageOffset + 1, writeSize, chunk)));
        if !success { break done; }
        left := left - writeSize;
        written := written + writeSize;
        pageOffset := 0;
        index := index + 1;
        j := j + 1;
      }

      if left > 0 {
        ExtendStart(t0, db.tables, f, data, offset, written, index, pageOffset, j);
        success := db.Query(AddSize(f, left));
        if !success { break done; }
        while left > 0
          invariant written + left == |data| && success
          invariant db.Valid() && db.saved == Some(t0) && db.Healthy(old(db.clock)) && old(db.clock) < db.clock
          invariant Extending(t0, db.tables, f, data, offset, written, index)
        {
          writeSize := Min(left, B);
          var chunk := data[written..written + writeSize];
          ExtendStep(t0, db.tables, f, data, offset, written, index, chunk);
          success := db.Query(InsertData(f, index, chunk));
          if !success { break done; }
          left := left - writeSize;
          written := written + writeSize;
          index := index + 1;
        }
        ExtendEnd(t0, db.tables, f, data, offset, index);
      } else {
        RewriteEnd(t0, db.tables, f, data, offset, index, pageOffset, j);
      }
      TouchedOnly(t0, db.tables, f);
    }
    db.Stop(success);
  }

  lemma WriteUntouched(t: Tables, f: nat)
    requires Schema(t)
    ensures Touched(t, t, f)
  {
    if f in t.files {
      assert t.data[f := RowsOf(t, f)] == t.data;
    }
  }
}
