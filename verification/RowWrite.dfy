/** The loops of `myfs_db_file_write` as functions on a file's rows, whatever these are. */
module RowWrite {
  import opened Blocks
  import opened Database

  /** The number of bytes the next UPDATE writes. */
  function WriteSize(left: nat, written: nat, po: nat): (n: nat)
    requires po < B
    ensures n <= left && (0 < left ==> 0 < n) && n <= B
    ensures written == 0 || po == 0 ==> po + n <= B
  {
    if written == 0 then Min(left, B - po) else Min(left, B)
  }

  /** The selected rows take what they can: the rows, how much has been written, the next index. */
  function Replaced(rows: seq<Row>, sel: seq<Row>, data: seq<Byte>, written: nat, po: nat, index: nat): (r: (seq<Row>, nat, nat))
    requires written <= |data| && po < B
    ensures written <= r.1 <= |data|
    decreases |sel|
  {
    if sel == [] || written == |data| then (rows, written, index)
    else
      var n := WriteSize(|data| - written, written, po);
      Replaced(WithData(rows, sel[0].index, Insert(po + 1, n, data[written..written + n])), sel[1..], data, written + n, 0, sel[0].index + 1)
  }

  /** New rows for the rest; `None` when one of them is there already. */
  function Filled(rows: seq<Row>, index: nat, data: seq<Byte>): Option<seq<Row>>
    decreases |data|
  {
    if data == [] then Some(rows)
    else if HasIndex(rows, index) then None
    else
      var n := Min(|data|, B);
      Filled(WithRow(rows, Row(index, data[..n])), index + 1, data[n..])
  }

  /** The rows after a write and the bytes in new ones. */
  function RowsWritten(rows: seq<Row>, data: seq<Byte>, offset: nat): Option<(seq<Row>, nat)> {
    var (over, written, index) := Replaced(rows, RowsFrom(rows, offset / B, BlockCount(|data|)), data, 0, offset % B, offset / B);
    match Filled(over, index, data[written..])
    case None => None
    case Some(all) => Some((all, |data| - written))
  }

  // ------------------------------------------------------------ what new rows are

  lemma {:induction false} WithRowMembers(rows: seq<Row>, row: Row)
    ensures forall r :: r in WithRow(rows, row) <==> r in rows || r == row
    decreases |rows|
  {
    if rows != [] && row.index <= LastIndex(rows) {
      var init, last := rows[..|rows| - 1], rows[|rows| - 1];
      WithRowMembers(init, row);
      assert rows == init + [last];
    }
  }

  lemma HasIndexIff(rows: seq<Row>, index: nat)
    ensures HasIndex(rows, index) <==> exists r :: r in rows && r.index == index
  {
    if r :| r in rows && r.index == index {
      var i :| 0 <= i < |rows| && rows[i] == r;
    }
  }

  lemma WithRowIndex(rows: seq<Row>, row: Row, i: nat)
    ensures HasIndex(WithRow(rows, row), i) <==> HasIndex(rows, i) || i == row.index
  {
    hide WithRow, HasIndex;
    WithRowMembers(rows, row);
    HasIndexIff(rows, i);
    HasIndexIff(WithRow(rows, row), i);
    assert row in WithRow(rows, row);
  }

  lemma FewerBlocks(len: nat)
    requires 0 < len
    ensures BlockCount(len - Min(len, B)) == BlockCount(len) - 1
  {
  }

  /** New rows are added if and only if none of their places is taken. */
  lemma {:induction false} FilledExact(rows: seq<Row>, index: nat, data: seq<Byte>)
    ensures Filled(rows, index, data).Some? <==> forall i: nat :: index <= i < index + BlockCount(|data|) ==> !HasIndex(rows, i)
    decreases |data|
  {
    hide HasIndex, WithRow;
    if data != [] {
      var n := Min(|data|, B);
      FewerBlocks(|data|);
      var more := WithRow(rows, Row(index, data[..n]));
      FilledExact(more, index + 1, data[n..]);
      forall i: nat | index < i
        ensures HasIndex(more, i) <==> HasIndex(rows, i)
      {
        WithRowIndex(rows, Row(index, data[..n]), i);
      }
    }
  }

  /** They hold the rest, block by block, and nothing else changes. */
  lemma {:induction false} FilledRows(rows: seq<Row>, index: nat, data: seq<Byte>, r: Row)
    requires Filled(rows, index, data).Some?
    ensures r in Filled(rows, index, data).value <==>
      r in rows || (index <= r.index < index + BlockCount(|data|) && r.data == Block(data, r.index - index))
    decreases |data|
  {
    hide HasIndex, WithRow;
    if data != [] {
      var n := Min(|data|, B);
      FewerBlocks(|data|);
      var row := Row(index, data[..n]);
      WithRowMembers(rows, row);
      FilledRows(WithRow(rows, row), index + 1, data[n..], r);
      if index < r.index < index + BlockCount(|data|) { NextBlock(data, r.index - index); }
    }
  }

  lemma NextBlock(data: seq<Byte>, k: nat)
    requires 0 < k < BlockCount(|data|)
    ensures Block(data[Min(|data|, B)..], k - 1) == Block(data, k)
  {
  }

  // ------------------------------------------------------------ what becomes of the selected rows

  /** The bytes placed before the `j`-th selected row. */
  function Before(len: nat, po: nat, j: nat): (n: nat)
    requires po < B
    ensures n <= len
  {
    if j == 0 then 0 else Min(len, (B - po) + (j - 1) * B)
  }

  /** The `j`-th selected row afterwards: its share of the bytes has been inserted. */
  function Share(d: seq<Byte>, data: seq<Byte>, po: nat, j: nat): seq<Byte>
    requires po < B
  {
    var a, b := Before(|data|, po, j), Before(|data|, po, j + 1);
    if a == b then d else SqlInsert(d, (if j == 0 then po else 0) + 1, b - a, data[a..b])
  }

  ghost predicate Increasing(rows: seq<Row>) {
    forall i, j :: 0 <= i < j < |rows| ==> rows[i].index < rows[j].index
  }

  lemma ShareSize(len: nat, po: nat, j: nat)
    requires po < B && Before(len, po, j) < len
    ensures WriteSize(len - Before(len, po, j), Before(len, po, j), if j == 0 then po else 0)
      == Before(len, po, j + 1) - Before(len, po, j)
  {
  }

  /** With distinct indexes an UPDATE reaches one row. */
  lemma WithDataOne(rows: seq<Row>, i: nat, e: Expr)
    requires Increasing(rows) && i < |rows|
    ensures WithData(rows, rows[i].index, e) == rows[i := Row(rows[i].index, Eval(e, rows[i].data))]
  {
    var changed := WithData(rows, rows[i].index, e);
    forall k | 0 <= k < |rows|
      ensures changed[k] == rows[i := Row(rows[i].index, Eval(e, rows[i].data))][k]
    {
    }
  }

  /** One step gives the first selected row its share. */
  lemma ReplacedStep(rows: seq<Row>, m: nat, lo: nat, data: seq<Byte>, po: nat, j: nat, index: nat)
    requires Increasing(rows) && po < B && j < m && lo + m <= |rows| && Before(|data|, po, j) < |data|
    ensures var next := rows[lo + j := Row(rows[lo + j].index, Share(rows[lo + j].data, data, po, j))];
      && Increasing(next)
      && Replaced(rows, rows[lo + j..lo + m], data, Before(|data|, po, j), if j == 0 then po else 0, index)
         == Replaced(next, next[lo + (j + 1)..lo + m], data, Before(|data|, po, j + 1), 0, rows[lo + j].index + 1)
  {
    hide Before, WriteSize, WithData, SqlInsert;
    var i, a, b, at := lo + j, Before(|data|, po, j), Before(|data|, po, j + 1), if j == 0 then po else 0;
    ShareSize(|data|, po, j);
    WithDataOne(rows, i, Insert(at + 1, b - a, data[a..b]));
    var next := rows[i := Row(rows[i].index, Share(rows[i].data, data, po, j))];
    assert rows[i..lo + m][1..] == next[i + 1..lo + m];
  }

  lemma NothingLeft(rows: seq<Row>, sel: seq<Row>, data: seq<Byte>, po: nat, j: nat, index: nat)
    requires po < B && Before(|data|, po, j) == |data|
    ensures Replaced(rows, sel, data, |data|, if j == 0 then po else 0, index) == (rows, |data|, index)
    ensures forall k: nat {:trigger Before(|data|, po, k)} :: j <= k ==> Before(|data|, po, k) == |data|
    ensures forall d: seq<Byte>, k: nat {:trigger Share(d, data, po, k)} :: j <= k ==> Share(d, data, po, k) == d
  {
  }

  /** Rows `lo`, `lo + 1`, ... were selected; from the `j`-th on they still have to be replaced.
      Each gets its share and no other row changes. */
  lemma {:induction false} ReplacedFrom(rows: seq<Row>, m: nat, lo: nat, data: seq<Byte>, po: nat, j: nat, index: nat)
    requires Increasing(rows) && po < B && j <= m && lo + m <= |rows|
    ensures var r := Replaced(rows, rows[lo + j..lo + m], data, Before(|data|, po, j), if j == 0 then po else 0, index);
      && |r.0| == |rows| && r.1 == Before(|data|, po, m)
      && (r.1 < |data| ==> r.2 == if j == m then index else rows[lo + m - 1].index + 1)
      && forall k :: 0 <= k < |rows| ==>
           r.0[k] == if lo + j <= k < lo + m then Row(rows[k].index, Share(rows[k].data, data, po, k - lo)) else rows[k]
    decreases m - j
  {
    hide Before, Share, Replaced, Increasing;
    if Before(|data|, po, j) == |data| {
      NothingLeft(rows, rows[lo + j..lo + m], data, po, j, index);
    } else if j < m {
      ReplacedStep(rows, m, lo, data, po, j, index);
      var next := rows[lo + j := Row(rows[lo + j].index, Share(rows[lo + j].data, data, po, j))];
      ReplacedFrom(next, m, lo, data, po, j + 1, rows[lo + j].index + 1);
      var r := Replaced(next, next[lo + (j + 1)..lo + m], data, Before(|data|, po, j + 1), 0, rows[lo + j].index + 1);
      forall k | 0 <= k < |rows|
        ensures r.0[k] ==
          if lo + j <= k < lo + m then Row(rows[k].index, Share(rows[k].data, data, po, k - lo)) else rows[k]
      {
        if k == lo + j {
          assert r.0[k] == next[k];
        } else if lo + j < k < lo + m {
          assert next[k] == rows[k];
          assert r.0[k] == Row(next[k].index, Share(next[k].data, data, po, k - lo));
        } else {
          assert next[k] == rows[k] == r.0[k];
        }
      }
    } else {
      NoneSelected(rows, data, po, j, index);
      assert rows[lo + j..lo + m] == [];
    }
  }

  lemma NoneSelected(rows: seq<Row>, data: seq<Byte>, po: nat, j: nat, index: nat)
    requires po < B
    ensures Replaced(rows, [], data, Before(|data|, po, j), if j == 0 then po else 0, index) == (rows, Before(|data|, po, j), index)
  {
  }

  // ------------------------------------------------------------ the whole write

  /** A SELECT returns a stretch of the rows. */
  lemma {:induction false} SelectedStretch(rows: seq<Row>, from: nat, limit: nat) returns (lo: nat)
    requires Increasing(rows)
    ensures lo <= |rows| && RowsFrom(rows, from, limit) == rows[lo..lo + Min(limit, |rows| - lo)]
    ensures forall i :: 0 <= i < |rows| ==> (rows[i].index < from <==> i < lo)
    decreases |rows|
  {
    if rows == [] || rows[0].index >= from {
      lo := 0;
    } else {
      lo := SelectedStretch(rows[1..], from, limit);
      lo := lo + 1;
      forall i | 0 <= i < |rows|
        ensures rows[i].index < from <==> i < lo
      {
        if i > 0 { assert rows[i] == rows[1..][i - 1]; }
      }
    }
  }

  /** A row that was there: with its share, if it is one of the `m` rows selected from `lo` on. */
  ghost predicate OldRow(rows: seq<Row>, lo: nat, m: nat, data: seq<Byte>, po: nat, row: Row)
    requires po < B
  {
    exists k :: 0 <= k < |rows| && row.index == rows[k].index
      && row.data == if lo <= k < lo + m then Share(rows[k].data, data, po, k - lo) else rows[k].data
  }

  /** A new row with its block of the rest. */
  ghost predicate NewRow(next: nat, rest: seq<Byte>, row: Row) {
    next <= row.index < next + BlockCount(|rest|) && row.data == Block(rest, row.index - next)
  }

  /** What a write makes of any rows. From `lo` on `m` rows were selected, the first not below the
      block of the offset, as many as the length alone needs; each is given its share. The rest goes
      into new rows behind the last of them, and the write is rejected if and only if one of those is
      there. No other row changes. */
  lemma RowsWrittenMeaning(rows: seq<Row>, data: seq<Byte>, offset: nat) returns (lo: nat, m: nat, next: nat)
    requires Increasing(rows)
    ensures lo <= |rows| && m == Min(BlockCount(|data|), |rows| - lo)
    ensures forall i :: 0 <= i < |rows| ==> (rows[i].index < offset / B <==> i < lo)
    ensures next == if m == 0 then offset / B else rows[lo + m - 1].index + 1
    ensures var rest := data[Before(|data|, offset % B, m)..]; var r := RowsWritten(rows, data, offset);
      && (r.Some? <==> forall i: nat :: next <= i < next + BlockCount(|rest|) ==> !HasIndex(rows, i))
      && (r.Some? ==> r.value.1 == |rest| && forall row ::
            row in r.value.0 <==> OldRow(rows, lo, m, data, offset % B, row) || NewRow(next, rest, row))
  {
    hide Replaced, Filled, RowsFrom, HasIndex, Increasing, OldRow, NewRow, Before, Share;
    var po := offset % B;
    lo := SelectedStretch(rows, offset / B, BlockCount(|data|));
    m := Min(BlockCount(|data|), |rows| - lo);
    next := if m == 0 then offset / B else rows[lo + m - 1].index + 1;
    BeforeFirst(|data|, po);
    ReplacedFrom(rows, m, lo, data, po, 0, offset / B);
    var (over, w, index) := Replaced(rows, rows[lo..lo + m], data, 0, po, offset / B);
    RestMeaning(over, index, data[w..], next);
    forall i: nat
      ensures HasIndex(over, i) <==> HasIndex(rows, i)
    {
      SameIndexes(rows, over, i);
    }
    forall row: Row
      ensures row in over <==> OldRow(rows, lo, m, data, po, row)
    {
      OverMember(rows, over, lo, m, data, po, row);
    }
  }

  lemma BeforeFirst(len: nat, po: nat)
    requires po < B
    ensures Before(len, po, 0) == 0
  {
  }

  /** Where the rest starts does not matter if there is none. */
  lemma RestMeaning(over: seq<Row>, index: nat, rest: seq<Byte>, next: nat)
    requires rest != [] ==> index == next
    ensures var r := Filled(over, index, rest);
      && (r.Some? <==> forall i: nat :: next <= i < next + BlockCount(|rest|) ==> !HasIndex(over, i))
      && (r.Some? ==> forall row :: row in r.value <==> row in over || NewRow(next, rest, row))
  {
    FilledExact(over, index, rest);
    if Filled(over, index, rest).Some? {
      forall row: Row
        ensures row in Filled(over, index, rest).value <==> row in over || NewRow(next, rest, row)
      {
        FilledRows(over, index, rest, row);
      }
    }
  }

  lemma OverMember(rows: seq<Row>, over: seq<Row>, lo: nat, m: nat, data: seq<Byte>, po: nat, row: Row)
    requires |over| == |rows| && po < B
    requires forall k :: 0 <= k < |rows| ==>
      over[k] == if lo <= k < lo + m then Row(rows[k].index, Share(rows[k].data, data, po, k - lo)) else rows[k]
    ensures row in over <==> OldRow(rows, lo, m, data, po, row)
  {
    hide Share;
    if row in over {
      var k :| 0 <= k < |over| && over[k] == row;
      assert row.index == rows[k].index;
    }
    if OldRow(rows, lo, m, data, po, row) {
      var k :| 0 <= k < |rows| && row.index == rows[k].index
        && row.data == if lo <= k < lo + m then Share(rows[k].data, data, po, k - lo) else rows[k].data;
      assert over[k] == row;
    }
  }

  lemma SameIndexes(a: seq<Row>, b: seq<Row>, i: nat)
    requires |a| == |b| && forall k :: 0 <= k < |a| ==> a[k].index == b[k].index
    ensures HasIndex(a, i) <==> HasIndex(b, i)
  {
  }
}
