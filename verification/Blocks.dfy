/** A file's bytes as a sequence of numbered blocks: the block arithmetic, the meaning of
    the SQL string functions the store uses, and the correspondence between well-formed
    rows and one flat byte sequence. */
module Blocks {

  newtype Byte = x: int | 0 <= x < 256

  /** The largest number of bytes one row of `file_data` holds. */
  const B: nat := 4096

  /** One row of `file_data`, for a fixed file. */
  datatype Row = Row(index: nat, data: seq<Byte>)

  function Min(a: int, b: int): int { if a <= b then a else b }

  // ------------------------------------------------------------ block arithmetic

  function BlockIndex(offset: nat): nat { offset / B }

  function BlockOffset(offset: nat): nat { offset % B }

  function BlockCount(len: nat): nat {
    len / B + if len % B != 0 then 1 else 0
  }

  /** The block count is the least number of blocks that can hold `len` bytes. */
  lemma BlockCountIsCeiling(len: nat, n: nat)
    ensures BlockCount(len) <= n <==> len <= n * B
  {
  }

  /** A span of `len` bytes that starts inside a block touches one block more than
      `BlockCount(len)` exactly when its last byte wraps past the block boundary. */
  lemma SpanCount(offset: nat, len: nat)
    requires 0 < len
    ensures BlockCount(BlockOffset(offset) + len)
         == BlockCount(len) + if BlockOffset(offset) + (len - 1) % B >= B then 1 else 0
  {
  }

  // ------------------------------------------------------------ SQL string functions

  const SPACE: Byte := 32

  function Spaces(n: nat): (s: seq<Byte>)
    ensures |s| == n
  {
    seq(n, _ => SPACE)
  }

  /** MariaDB's INSERT(str, pos, len, s): positions start at 1; a position outside the
      string leaves it alone; a length past the end replaces the rest. */
  function SqlInsert(str: seq<Byte>, pos: nat, len: nat, s: seq<Byte>): seq<Byte> {
    if pos < 1 || pos > |str| then str
    else str[..pos - 1] + s + if pos - 1 + len <= |str| then str[pos - 1 + len..] else []
  }

  // ------------------------------------------------------------ rows and flat contents

  /** The bytes of the rows, in order. */
  function Flat(rows: seq<Row>): seq<Byte> {
    if rows == [] then [] else Flat(rows[..|rows| - 1]) + rows[|rows| - 1].data
  }

  /** Rows in key order, none over the column's length: what the schema enforces. */
  ghost predicate Sorted(rows: seq<Row>) {
    && (forall i, j :: 0 <= i < j < |rows| ==> rows[i].index < rows[j].index)
    && (forall i :: 0 <= i < |rows| ==> |rows[i].data| <= B)
  }

  /** The rows are numbered 0, 1, ..., every one but the last is full, the last is not empty. */
  ghost predicate WellFormed(rows: seq<Row>) {
    && (forall i :: 0 <= i < |rows| ==> rows[i].index == i)
    && (forall i :: 0 <= i < |rows| - 1 ==> |rows[i].data| == B)
    && (rows != [] ==> 1 <= |rows[|rows| - 1].data| <= B)
  }

  function Block(f: seq<Byte>, i: nat): seq<Byte>
    requires i * B <= |f|
  {
    f[i * B..Min((i + 1) * B, |f|)]
  }

  /** The one well-formed way to cut `f` into rows. */
  function Cut(f: seq<Byte>): seq<Row> {
    seq(BlockCount(|f|), i requires 0 <= i < BlockCount(|f|) => Row(i, Block(f, i)))
  }

  lemma FlatPush(rows: seq<Row>, r: Row)
    ensures Flat(rows + [r]) == Flat(rows) + r.data
  {
    assert (rows + [r])[..|rows|] == rows;
  }

  lemma CutWellFormed(f: seq<Byte>)
    ensures WellFormed(Cut(f)) && Sorted(Cut(f))
  {
  }

  /** Cutting full blocks plus a tail of at most one block. */
  lemma CutPush(f: seq<Byte>, c: seq<Byte>)
    requires |f| % B == 0 && 1 <= |c| <= B
    ensures Cut(f + c) == Cut(f) + [Row(|f| / B, c)]
  {
    forall i | 0 <= i < |f| / B
      ensures Block(f + c, i) == Block(f, i)
    {
    }
    assert Block(f + c, |f| / B) == c;
  }

  /** Reading the rows back gives the bytes that were cut. */
  lemma {:induction false} FlatCut(f: seq<Byte>)
    ensures Flat(Cut(f)) == f
    decreases |f|
  {
    if |f| > 0 {
      var n := (|f| - 1) / B;
      var g, c := f[..n * B], f[n * B..];
      assert g + c == f;
      CutPush(g, c);
      FlatPush(Cut(g), Row(n, c));
      FlatCut(g);
    }
  }

  lemma FlatLength(rows: seq<Row>)
    requires WellFormed(rows)
    ensures rows == [] ==> Flat(rows) == []
    ensures rows != [] ==> |Flat(rows)| == (|rows| - 1) * B + |rows[|rows| - 1].data|
  {
    if rows != [] {
      var init := rows[..|rows| - 1];
      FlatLength(init);
    }
  }

  /** Well-formed rows are determined by their bytes. */
  lemma {:induction false} WellFormedIsCut(rows: seq<Row>)
    requires WellFormed(rows)
    ensures rows == Cut(Flat(rows))
    decreases |rows|
  {
    if rows != [] {
      var n := |rows| - 1;
      var init := rows[..n];
      WellFormedIsCut(init);
      FlatLength(init);
      CutPush(Flat(init), rows[n].data);
      assert rows == init + [rows[n]];
    }
  }

  // ------------------------------------------------------------ overwriting

  /** `f` with `s` written over it from `p` on; a tail of `f` survives if `s` ends before it. */
  function Overlay(f: seq<Byte>, p: nat, s: seq<Byte>): (r: seq<Byte>)
    requires p <= |f|
    ensures |r| == if p + |s| <= |f| then |f| else p + |s|
  {
    f[..p] + s + if p + |s| <= |f| then f[p + |s|..] else []
  }

  lemma OverlayTwice(f: seq<Byte>, p: nat, s: seq<Byte>, c: seq<Byte>)
    requires p <= |f|
    ensures Overlay(Overlay(f, p, s), p + |s|, c) == Overlay(f, p, s + c)
  {
  }

  lemma OverlayOutside(f: seq<Byte>, p: nat, c: seq<Byte>, lo: nat, hi: nat)
    requires p <= |f| && lo <= hi <= |f| && (hi <= p || p + |c| <= lo)
    ensures Overlay(f, p, c)[lo..hi] == f[lo..hi]
  {
  }

  lemma OverlayInside(f: seq<Byte>, p: nat, c: seq<Byte>, lo: nat, hi: nat)
    requires lo <= p < hi <= |f| && (p + |c| <= hi || hi == |f|)
    ensures var hi' := if p + |c| <= hi then hi else p + |c|;
      Overlay(f, p, c)[lo..hi'] == SqlInsert(f[lo..hi], p - lo + 1, |c|, c)
  {
    var d := f[lo..hi];
    var o, e, hi' := Overlay(f, p, c), p + |c|, if p + |c| <= hi then hi else p + |c|;
    assert o[lo..p] == d[..p - lo] && o[p..e] == c;
    assert o[e..hi'] == if e <= hi then d[e - lo..] else [];
    assert o[lo..hi'] == o[lo..p] + o[p..e] + o[e..hi'];
  }

  /** An SQL INSERT into the block that holds position `p` overlays the flat bytes. */
  lemma CutOverwrite(f: seq<Byte>, p: nat, c: seq<Byte>)
    requires p < |f| && 1 <= |c| && p % B + |c| <= B
    ensures p / B < |Cut(f)|
    ensures Cut(Overlay(f, p, c)) == Cut(f)[p / B := Row(p / B, SqlInsert(Cut(f)[p / B].data, p % B + 1, |c|, c))]
  {
    hide Overlay, SqlInsert;
    var g, b := Overlay(f, p, c), p / B;
    assert BlockCount(|g|) == BlockCount(|f|);
    forall i | 0 <= i < |Cut(f)| && i != b
      ensures Block(g, i) == Block(f, i)
    {
      var hi := Min((i + 1) * B, |f|);
      assert hi == Min((i + 1) * B, |g|);
      OverlayOutside(f, p, c, i * B, hi);
    }
    OverlayInside(f, p, c, b * B, Min((b + 1) * B, |f|));
  }
}
