/** `myfs_db_file_read`: copying a window of a file's rows into the caller's buffer. */
module Read {
  import opened Blocks
  import opened Database
  import opened Write

  /** `size_t` counts modulo 2^64. */
  const WORD := 0x1_0000_0000_0000_0000

  /** 2^52 blocks of 2^12 bytes wrap the word. */
  const WORD_BLOCKS := 0x10_0000_0000_0000

  // ------------------------------------------------------------ what the loop copies

  /** `n` bytes from position `from` of a row; past the row's end nothing is known of them. */
  function Fetch(d: seq<Byte>, from: nat, n: nat): (r: seq<Option<Byte>>)
    ensures |r| == n
  {
    seq(n, i requires 0 <= i < n => if from + i < |d| then Some(d[from + i]) else None)
  }

  function Exactly(s: seq<Byte>): (r: seq<Option<Byte>>)
    ensures |r| == |s|
  {
    seq(|s|, i requires 0 <= i < |s| => Some(s[i]))
  }

  /** The subtraction of a `size_t`. */
  function Wrapped(size: nat, count: nat): (r: nat)
    ensures r < WORD
  {
    (size - count) % WORD
  }

  /** The bytes copied from the rows: the counter `size` loses the running total `count`, not
      the last row's share, and wraps. The offset `po` applies to the first row only and does not
      shorten it. */
  function Copied(rows: seq<Row>, po: nat, size: nat, count: nat): seq<Option<Byte>> {
    if rows == [] then []
    else
      var n := Min(|rows[0].data|, size);
      Fetch(rows[0].data, po, n) + Copied(rows[1..], 0, Wrapped(size, count + n), count + n)
  }

  /** What a read of `size` bytes at `offset` copies from a file with these contents. */
  function ReadResult(flat: seq<Byte>, offset: nat, size: nat): seq<Option<Byte>> {
    Copied(RowsFrom(Cut(flat), offset / B, BlockCount(size)), offset % B, size, 0)
  }

  /** What it should copy. */
  function Window(flat: seq<Byte>, offset: nat, size: nat): seq<Byte>
    requires offset <= |flat|
  {
    flat[offset..Min(offset + size, |flat|)]
  }

  ghost predicate ReadsExactly(flat: seq<Byte>, offset: nat, size: nat)
    requires offset <= |flat|
  {
    ReadResult(flat, offset, size) == Exactly(Window(flat, offset, size))
  }

  // ------------------------------------------------------------ reads inside one block

  lemma SelectedBlocks(flat: seq<Byte>, offset: nat, size: nat)
    ensures var lo := Min(offset / B, BlockCount(|flat|));
      RowsFrom(Cut(flat), offset / B, BlockCount(size)) == Cut(flat)[lo..Min(lo + BlockCount(size), BlockCount(|flat|))]
  {
    RowsFromNumbered(Cut(flat), 0, offset / B, BlockCount(size));
  }

  lemma FetchSlice(d: seq<Byte>, from: nat, n: nat)
    requires from + n <= |d|
    ensures Fetch(d, from, n) == Exactly(d[from..from + n])
  {
  }

  lemma NotExact(r: seq<Option<Byte>>, k: nat, w: seq<Byte>)
    requires k < |r| && r[k] == None
    ensures r != Exactly(w)
  {
  }

  /** The first row is copied first, and alone if there is no other. */
  lemma CopiedStart(rows: seq<Row>, po: nat, size: nat)
    requires rows != []
    ensures var d, r := rows[0].data, Copied(rows, po, size, 0);
      && Fetch(d, po, Min(|d|, size)) <= r
      && (|rows| == 1 ==> r == Fetch(d, po, Min(|d|, size)))
  {
    if |rows| == 1 {
      var n := Min(|rows[0].data|, size);
      assert rows[1..] == [];
      assert Copied(rows[1..], 0, Wrapped(size, n), n) == [];
    }
  }

  lemma BlockSlice(flat: seq<Byte>, offset: nat, size: nat)
    requires offset < |flat| && offset + size <= Min((offset / B + 1) * B, |flat|)
    ensures var d, po := Block(flat, offset / B), offset % B;
      po + size <= |d| && d[po..po + size] == Window(flat, offset, size)
  {
  }

  /** A read that starts inside a block is exact if and only if it stays inside that block's row. */
  lemma UnalignedRead(flat: seq<Byte>, offset: nat, size: nat)
    requires offset < |flat| && offset % B != 0 && 0 < size < WORD
    ensures ReadsExactly(flat, offset, size) <==> offset + size <= Min((offset / B + 1) * B, |flat|)
  {
    hide Cut, RowsFrom, Copied, Exactly, Window;
    var b, po := offset / B, offset % B;
    var d := Block(flat, b);
    SelectedBlocks(flat, offset, size);
    CutAt(flat, b);
    var sel := RowsFrom(Cut(flat), b, BlockCount(size));
    assert sel != [] && sel[0].data == d;
    CopiedStart(sel, po, size);
    if offset + size <= Min((b + 1) * B, |flat|) {
      assert |sel| == 1;
      BlockSlice(flat, offset, size);
      FetchSlice(d, po, size);
    } else {
      assert Fetch(d, po, Min(|d|, size))[|d| - po] == None;
      NotExact(ReadResult(flat, offset, size), |d| - po, Window(flat, offset, size));
    }
  }

  lemma CutLength(flat: seq<Byte>)
    ensures |Cut(flat)| == BlockCount(|flat|)
  {
  }

  lemma CutAt(flat: seq<Byte>, b: nat)
    requires b * B < |flat|
    ensures b < |Cut(flat)| && Cut(flat)[b] == Row(b, Block(flat, b))
    ensures |Cut(flat)| == BlockCount(|flat|)
  {
  }

  // ------------------------------------------------------------ aligned reads: which rows fit

  /** No row is cut short by the counter. */
  ghost predicate AllFit(rows: seq<Row>, size: nat, count: nat) {
    rows == [] ||
    (|rows[0].data| <= size
     && AllFit(rows[1..], Wrapped(size, count + |rows[0].data|), count + |rows[0].data|))
  }

  lemma {:induction false} FlatCons(rows: seq<Row>)
    requires rows != []
    ensures Flat(rows) == rows[0].data + Flat(rows[1..])
    decreases |rows|
  {
    if |rows| > 1 {
      var init := rows[..|rows| - 1];
      FlatCons(init);
      assert init[1..] == rows[1..][..|rows| - 2];
    } else {
      assert rows == [] + [rows[0]];
      FlatPush([], rows[0]);
    }
  }

  lemma {:induction false} CopiedLength(rows: seq<Row>, size: nat, count: nat)
    ensures |Copied(rows, 0, size, count)| <= |Flat(rows)|
    decreases |rows|
  {
    if rows != [] {
      FlatCons(rows);
      var n := Min(|rows[0].data|, size);
      CopiedLength(rows[1..], Wrapped(size, count + n), count + n);
    }
  }

  lemma FetchAll(d: seq<Byte>)
    ensures Fetch(d, 0, |d|) == Exactly(d)
  {
  }

  lemma ExactlyJoin(s: seq<Byte>, t: seq<Byte>)
    ensures Exactly(s) + Exactly(t) == Exactly(s + t)
  {
  }

  /** The rows are copied out completely exactly when none is cut short. */
  lemma {:induction false} CopiedExactly(rows: seq<Row>, size: nat, count: nat)
    ensures Copied(rows, 0, size, count) == Exactly(Flat(rows)) <==> AllFit(rows, size, count)
    decreases |rows|
  {
    if rows != [] {
      FlatCons(rows);
      var d, rest := rows[0].data, rows[1..];
      var n := Min(|d|, size);
      var size', count' := Wrapped(size, count + n), count + n;
      CopiedLength(rest, size', count');
      if |d| <= size {
        CopiedExactly(rest, size', count');
        FetchAll(d);
        ExactlyJoin(d, Flat(rest));
        var tail := Copied(rest, 0, size', count');
        assert (Exactly(d) + tail)[|d|..] == tail;
        assert (Exactly(d) + Exactly(Flat(rest)))[|d|..] == Exactly(Flat(rest));
      }
    }
  }

  // ------------------------------------------------------------ aligned reads: the wrapping counter

  /** 0 + 1 + ... + k. */
  function Tri(k: nat): nat {
    if k == 0 then 0 else k + Tri(k - 1)
  }

  lemma {:induction false} TriClosedForm(k: nat)
    ensures 2 * Tri(k) == k * (k + 1)
  {
    if k > 0 { TriClosedForm(k - 1); }
  }

  /** The counter after `k` full rows. */
  function Counter(size: nat, k: nat): nat {
    (size - B * Tri(k)) % WORD
  }

  lemma CounterNext(size: nat, k: nat)
    ensures Counter(size, k + 1) == Wrapped(Counter(size, k), k * B + B)
  {
    var x := size - B * Tri(k);
    assert x == WORD * (x / WORD) + x % WORD;
    var y := x % WORD - (k + 1) * B;
    assert x - (k + 1) * B == WORD * (x / WORD) + y;
    ModShift(y, x / WORD);
  }

  lemma ModShift(y: int, q: int)
    ensures (WORD * q + y) % WORD == y % WORD
  {
    var d := y / WORD;
    assert WORD * q + y == WORD * (q + d) + y % WORD;
  }

  lemma WordOfBlocks(x: int, r: nat)
    requires r < B
    ensures (B * x + r) % WORD == x % WORD_BLOCKS * B + r
  {
    var d, m := x / WORD_BLOCKS, x % WORD_BLOCKS;
    assert x == WORD_BLOCKS * d + m;
    assert B * x + r == WORD * d + (m * B + r);
    ModShift(m * B + r, d);
  }

  /** In blocks: the counter is below a block's length exactly when the block counts agree
      modulo 2^52, and then only the odd bytes of the request are left. */
  lemma CounterValue(size: nat, k: nat)
    ensures Counter(size, k) == (size / B - Tri(k)) % WORD_BLOCKS * B + size % B
  {
    hide Tri;
    WordOfBlocks(size / B - Tri(k), size % B);
  }

  /** At the `k`-th row the counter has run down to the odd bytes although the row holds more. */
  ghost predicate Stalls(size: nat, length: nat, k: nat) {
    && 2 <= k < size / B && k * B < length
    && size % B < Min(B, length - k * B)
    && (size / B - Tri(k)) % WORD_BLOCKS == 0
  }

  ghost predicate NeverStalls(size: nat, length: nat) {
    forall k :: 0 <= k ==> !Stalls(size, length, k)
  }

  /** Either the request is whole blocks or it reaches the end of the file. */
  predicate WholeRows(size: nat, length: nat) {
    size % B == 0 || length <= size
  }

  /** The first rows are never cut short, and later ones exactly at a stall. */
  lemma RowFits(size: nat, length: nat, k: nat)
    requires size < WORD && k * B < Min(size, length) && (WholeRows(size, length) || k < size / B)
    ensures Min(B, length - k * B) <= Counter(size, k) <==> !Stalls(size, length, k)
  {
    CounterValue(size, k);
    var q := size / B;
    assert q < WORD_BLOCKS;
    if k == 0 {
      assert Tri(0) == 0 && (q - 0) % WORD_BLOCKS == q;
    } else if k == 1 {
      assert Tri(1) == 1 && (q - 1) % WORD_BLOCKS == q - 1;
    } else if (q - Tri(k)) % WORD_BLOCKS != 0 {
      assert Counter(size, k) >= B;
    }
  }

  lemma WindowBlocks(length: nat, offset: nat, size: nat)
    requires offset <= length && offset % B == 0 && WholeRows(size, length - offset)
    ensures var i, n := offset / B, BlockCount(length);
      i <= n && Min(i + BlockCount(size), n) - i == BlockCount(Min(size, length - offset))
      && Min(Min(i + BlockCount(size), n) * B, length) == Min(offset + size, length)
  {
  }

  /** The `k`-th row from an aligned offset on. */
  lemma StretchRow(flat: seq<Byte>, offset: nat, hi: nat, k: nat)
    requires offset % B == 0 && offset / B + k < hi <= BlockCount(|flat|) && |Cut(flat)| == BlockCount(|flat|)
    ensures var row := Cut(flat)[offset / B..hi][k];
      row.data == Block(flat, offset / B + k) && |row.data| == Min(B, |flat| - offset - k * B)
  {
    hide Cut;
    assert (offset / B + k) * B == offset + k * B < |flat|;
    CutAt(flat, offset / B + k);
  }

  /** The rows selected by an aligned read of whole rows are exactly those in the window. */
  lemma WindowRows(flat: seq<Byte>, offset: nat, size: nat)
    requires offset <= |flat| && offset % B == 0 && WholeRows(size, |flat| - offset)
    ensures var sel := RowsFrom(Cut(flat), offset / B, BlockCount(size));
      && Flat(sel) == Window(flat, offset, size)
      && |sel| == BlockCount(Min(size, |flat| - offset))
      && forall k :: 0 <= k < |sel| ==> |sel[k].data| == Min(B, |flat| - offset - k * B)
  {
    hide Flat, RowsFrom, WholeRows, Cut;
    var i, n := offset / B, BlockCount(|flat|);
    var hi := Min(i + BlockCount(size), n);
    CutLength(flat);
    WindowBlocks(|flat|, offset, size);
    SelectedBlocks(flat, offset, size);
    FlatOfBlocks(flat, i, hi);
    var sel := Cut(flat)[i..hi];
    assert i * B == offset && Min(hi * B, |flat|) == Min(offset + size, |flat|);
    assert RowsFrom(Cut(flat), i, BlockCount(size)) == sel;
    assert Flat(sel) == flat[offset..Min(offset + size, |flat|)];
    forall k | 0 <= k < |sel|
      ensures |sel[k].data| == Min(B, |flat| - offset - k * B)
    {
      StretchRow(flat, offset, hi, k);
    }
  }

  lemma FlatNone()
    ensures Flat([]) == []
  {
  }

  lemma {:induction false} FlatOfBlocks(flat: seq<Byte>, i: nat, j: nat)
    requires i <= j <= BlockCount(|flat|) && |Cut(flat)| == BlockCount(|flat|)
    ensures i * B <= |flat| || i == j
    ensures i < j ==> Flat(Cut(flat)[i..j]) == flat[i * B..Min(j * B, |flat|)]
    ensures i == j ==> Flat(Cut(flat)[i..j]) == []
    decreases j - i
  {
    hide Cut, Flat;
    FlatNone();
    if i < j {
      CutAt(flat, j - 1);
      var rows := Cut(flat)[i..j];
      assert rows == Cut(flat)[i..j - 1] + [Row(j - 1, Block(flat, j - 1))];
      FlatPush(Cut(flat)[i..j - 1], Row(j - 1, Block(flat, j - 1)));
      FlatOfBlocks(flat, i, j - 1);
      var lo, mid, hi := i * B, (j - 1) * B, Min(j * B, |flat|);
      assert lo <= mid < hi && Block(flat, j - 1) == flat[mid..hi];
      assert Flat(Cut(flat)[i..j - 1]) == flat[lo..mid];
      assert flat[lo..mid] + flat[mid..hi] == flat[lo..hi];
    } else {
      assert Cut(flat)[i..j] == [];
    }
  }

  lemma {:induction false} FitsFrom(rows: seq<Row>, size: nat, length: nat, k: nat)
    requires size < WORD && WholeRows(size, length)
    requires |rows| == BlockCount(Min(size, length)) && k <= |rows|
    requires forall j :: 0 <= j < |rows| ==> |rows[j].data| == Min(B, length - j * B)
    ensures AllFit(rows[k..], Counter(size, k), k * B) <==> forall j :: k <= j ==> !Stalls(size, length, j)
    decreases |rows| - k
  {
    if k < |rows| {
      hide Counter, Tri;
      RowFits(size, length, k);
      if !Stalls(size, length, k) {
        assert rows[k..][1..] == rows[k + 1..];
        assert |rows[k].data| == B || k + 1 == |rows|;
        if k + 1 < |rows| { CounterNext(size, k); }
        FitsFrom(rows, size, length, k + 1);
      }
    }
  }

  /** A block-aligned read, of whole blocks or up to the end of the file, is exact if and only if
      the counter never stalls. */
  lemma AlignedRead(flat: seq<Byte>, offset: nat, size: nat)
    requires offset <= |flat| && offset % B == 0 && size < WORD && WholeRows(size, |flat| - offset)
    ensures ReadsExactly(flat, offset, size) <==> NeverStalls(size, |flat| - offset)
  {
    hide Cut, RowsFrom, BlockCount, Flat, AllFit, Copied, Stalls, Window, WholeRows, Exactly;
    var sel := RowsFrom(Cut(flat), offset / B, BlockCount(size));
    WindowRows(flat, offset, size);
    CopiedExactly(sel, size, 0);
    FitsFrom(sel, size, |flat| - offset, 0);
    assert sel[0..] == sel;
    CounterStart(size);
  }

  lemma CounterStart(size: nat)
    requires size < WORD
    ensures Counter(size, 0) == size
  {
  }

  lemma {:induction false} TriBounds(k: nat)
    ensures k < 0x400_0000 ==> Tri(k) <= k * 0x400_0000
    ensures 2 <= k ==> k < Tri(k)
  {
    if k > 0 { TriBounds(k - 1); }
  }

  /** Below 2^38 bytes, a block-aligned read that ends at the end of the file is exact if and only
      if its number of whole blocks is not a triangular number from 3 on. */
  lemma TriangularRead(flat: seq<Byte>, offset: nat, size: nat)
    requires offset % B == 0 && offset + size == |flat| && size < 0x40_0000_0000
    ensures ReadsExactly(flat, offset, size) <==> forall k :: 2 <= k ==> Tri(k) != size / B
  {
    hide ReadsExactly, NeverStalls, Tri;
    AlignedRead(flat, offset, size);
    NeverStallsBelow(size, size);
  }

  lemma NeverStallsBelow(size: nat, length: nat)
    requires size < 0x40_0000_0000 && size <= length
    ensures NeverStalls(size, length) <==> forall k :: 2 <= k ==> Tri(k) != size / B
  {
    if k :| 2 <= k && Tri(k) == size / B {
      TriBounds(k);
      assert Stalls(size, length, k);
    } else {
      forall k | 0 <= k
        ensures !Stalls(size, length, k)
      {
        TriBounds(k);
      }
    }
  }

  /** The smallest such read: of three blocks, the third is not copied. */
  lemma ThreeBlockRead(flat: seq<Byte>)
    requires |flat| == 3 * B
    ensures ReadResult(flat, 0, 3 * B) == Exactly(flat[..2 * B])
    ensures !ReadsExactly(flat, 0, 3 * B)
  {
    hide RowsFrom, Fetch, Cut;
    SelectedBlocks(flat, 0, 3 * B);
    var rows := Cut(flat);
    CutAt(flat, 0);
    CutAt(flat, 1);
    CutAt(flat, 2);
    assert |rows| == 3;
    assert RowsFrom(rows, 0, BlockCount(3 * B)) == rows;
    assert rows[0].data == flat[..B];
    assert rows[1].data == flat[B..2 * B];
    assert |rows[2].data| == B;
    FetchAll(flat[..B]);
    FetchAll(flat[B..2 * B]);
    assert Copied(rows[2..], 0, 0, 2 * B) == [] by {
      assert rows[2..][1..] == [];
      assert Copied([], 0, Wrapped(0, 2 * B), 2 * B) == [];
    }
    assert rows[1..][1..] == rows[2..];
    assert Copied(rows[1..], 0, 2 * B, B) == Exactly(flat[B..2 * B]) + [];
    ExactlyJoin(flat[..B], flat[B..2 * B]);
    assert flat[..B] + flat[B..2 * B] == flat[..2 * B];
    assert |Exactly(Window(flat, 0, 3 * B))| == 3 * B;
  }

  lemma OneBlockMiddle(flat: seq<Byte>, offset: nat, size: nat)
    requires offset % B == 0 && offset + size < |flat| && 0 < size < B
    ensures ReadsExactly(flat, offset, size)
  {
    hide RowsFrom, Cut;
    var i := offset / B;
    CutAt(flat, i);
    SelectedBlocks(flat, offset, size);
    var sel := RowsFrom(Cut(flat), i, BlockCount(size));
    assert sel == [Row(i, Block(flat, i))];
    assert Copied(sel[1..], 0, Wrapped(size, size), size) == [];
    assert Fetch(Block(flat, i), 0, size) == Exactly(Window(flat, offset, size));
  }

  lemma FetchPair(d: seq<Byte>, e: seq<Byte>, r: nat)
    requires |d| == B && r <= |e|
    ensures Fetch(d, 0, B) + Fetch(e, 0, r) == Exactly(d + e[..r])
  {
  }

  lemma CopiedTwo(d: seq<Byte>, e: seq<Byte>, i: nat, size: nat)
    requires |d| == B && B < size < 2 * B && size - B <= |e|
    ensures Copied([Row(i, d), Row(i + 1, e)], 0, size, 0) == Fetch(d, 0, B) + Fetch(e, 0, size - B)
  {
    hide Fetch;
    var rows := [Row(i, d), Row(i + 1, e)];
    var r := size - B;
    assert rows[1..] == [Row(i + 1, e)] && [Row(i + 1, e)][1..] == [];
    assert Wrapped(size, B) == r;
    assert Copied(rows[1..], 0, r, B) == Fetch(e, 0, r) + Copied([], 0, Wrapped(r, B + r), B + r);
    assert Copied([], 0, Wrapped(r, B + r), B + r) == [];
  }

  lemma TwoBlockMiddle(flat: seq<Byte>, offset: nat, size: nat)
    requires offset % B == 0 && offset + size < |flat| && B < size < 2 * B
    ensures ReadsExactly(flat, offset, size)
  {
    hide RowsFrom, Cut, Copied, Fetch, Exactly;
    var i, r := offset / B, size - B;
    CutAt(flat, i);
    CutAt(flat, i + 1);
    SelectedBlocks(flat, offset, size);
    var d, e := Block(flat, i), Block(flat, i + 1);
    var sel := RowsFrom(Cut(flat), i, BlockCount(size));
    assert sel == [Row(i, d), Row(i + 1, e)];
    CopiedTwo(d, e, i, size);
    FetchPair(d, e, r);
    assert d + e[..r] == Window(flat, offset, size);
  }

  /** Every block-aligned read of at most two blocks is exact, wherever it ends. */
  lemma SmallRead(flat: seq<Byte>, offset: nat, size: nat)
    requires offset <= |flat| && offset % B == 0 && size <= 2 * B
    ensures ReadsExactly(flat, offset, size)
  {
    if WholeRows(size, |flat| - offset) {
      AlignedRead(flat, offset, size);
    } else if size < B {
      OneBlockMiddle(flat, offset, size);
    } else {
      TwoBlockMiddle(flat, offset, size);
    }
  }

  // ------------------------------------------------------------ the method

  /** `buf[at..]` holds the bytes, wherever they are known. */
  ghost predicate Holds(buf: seq<Byte>, at: nat, s: seq<Option<Byte>>) {
    at + |s| <= |buf| && forall i :: 0 <= i < |s| && s[i].Some? ==> buf[at + i] == s[i].value
  }

  /** The memory of a row, which goes on with unknown bytes after its data. */
  method Memory(d: seq<Byte>, i: nat) returns (b: Byte)
    ensures i < |d| ==> b == d[i]
  {
    if i < |d| {
      b := d[i];
    } else {
      b := *;
    }
  }

  method MemCpy(buf: array<Byte>, at: nat, d: seq<Byte>, from: nat, n: nat)
    requires at + n <= buf.Length
    modifies buf
    ensures Holds(buf[..], at, Fetch(d, from, n))
    ensures buf[..at] == old(buf[..at]) && buf[at + n..] == old(buf[at + n..])
  {
    var i := 0;
    while i < n
      invariant i <= n
      invariant forall k :: at <= k < at + i && from + k - at < |d| ==> buf[k] == d[from + k - at]
      invariant buf[..at] == old(buf[..at]) && buf[at + i..] == old(buf[at + i..])
    {
      var b := Memory(d, from + i);
      assert buf[at + i..][1..] == old(buf[at + i..])[1..];
      buf[at + i] := b;
      i := i + 1;
    }
  }

  lemma HoldsJoin(buf: seq<Byte>, s: seq<Option<Byte>>, t: seq<Option<Byte>>)
    requires Holds(buf, 0, s) && Holds(buf, |s|, t)
    ensures Holds(buf, 0, s + t)
  {
    forall i | 0 <= i < |s + t| && (s + t)[i].Some?
      ensures buf[i] == (s + t)[i].value
    {
      if i >= |s| { assert buf[|s| + (i - |s|)] == t[i - |s|].value; }
    }
  }

  lemma HoldsKept(was: seq<Byte>, now: seq<Byte>, s: seq<Option<Byte>>)
    requires Holds(was, 0, s) && |was| == |now| && now[..|s|] == was[..|s|]
    ensures Holds(now, 0, s)
  {
    forall i | 0 <= i < |s| && s[i].Some?
      ensures now[i] == s[i].value
    {
      assert now[i] == now[..|s|][i] == was[i];
    }
  }

  /** The first `count` of all bytes have been copied and `rest` is to come; the buffer, which
      was `orig`, is unchanged behind them. */
  ghost predicate Copying(orig: seq<Byte>, buf: seq<Byte>, all: seq<Option<Byte>>, count: int, rest: seq<Option<Byte>>) {
    && |orig| == |buf| && 0 <= count <= |all| && count <= |buf|
    && all[count..] == rest
    && Holds(buf, 0, all[..count]) && buf[count..] == orig[count..]
  }

  lemma CopyNext(orig: seq<Byte>, was: seq<Byte>, now: seq<Byte>, all: seq<Option<Byte>>, count: nat,
                 chunk: seq<Option<Byte>>, rest: seq<Option<Byte>>)
    requires Copying(orig, was, all, count, chunk + rest) && count + |chunk| <= |was|
    requires |now| == |was| && Holds(now, count, chunk)
    requires now[..count] == was[..count] && now[count + |chunk|..] == was[count + |chunk|..]
    ensures Copying(orig, now, all, count + |chunk|, rest)
  {
    var n := count + |chunk|;
    assert all[count..][|chunk|..] == all[n..] && all[count..][..|chunk|] == all[count..n] == chunk;
    assert all[..n] == all[..count] + chunk;
    HoldsKept(was, now, all[..count]);
    HoldsJoin(now, all[..count], chunk);
    assert was[n..] == was[count..][|chunk|..] == orig[count..][|chunk|..] == orig[n..];
  }

  /** What a read copies from the rows of file `f`. */
  function Stored(t: Tables, f: nat, offset: nat, size: nat): seq<Option<Byte>> {
    Copied(RowsFrom(RowsOf(t, f), offset / B, BlockCount(size)), offset % B, size, 0)
  }

  /** A read that copies more than `buf` holds writes to the memory behind it: it has `overrun`,
      and nothing more is said of it. Any other leaves the buffer from `count` on as it was. */
  method FileRead(db: Connection, f: nat, buf: array<Byte>, size: nat, offset: nat) returns (count: int, overrun: bool)
    requires db.Idle() && size < WORD
    modifies db, buf
    ensures db.Idle() && db.tables == old(db.tables) && db.clock == old(db.clock) + 1
    ensures count == -1 <==> old(db.clock) in db.faults
    ensures count == -1 ==> buf[..] == old(buf[..])
    ensures overrun <==> count != -1 && |Stored(db.tables, f, offset, size)| > buf.Length
    ensures count != -1 && !overrun ==>
      var r := Stored(db.tables, f, offset, size);
      count == |r| && Holds(buf[..], 0, r) && buf[count..] == old(buf[count..])
  {
    hide Schema, Sorted, RowsFrom, Fetch, Holds, Copying, Wrapped;
    var index, pageOffset: nat, limit := BlockIndex(offset), BlockOffset(offset), BlockCount(size);
    var res := db.SelectRows(f, index, limit);
    if res == None { return -1, false; }
    var rows, j, left: nat := res.value, 0, size;
    ghost var orig, all := buf[..], Copied(rows, pageOffset, left, 0);
    assert rows[0..] == rows;
    CopyFirst(orig, all);

    count, overrun := 0, false;
    while j < |rows|
      invariant 0 <= j <= |rows| && 0 <= count && !overrun
      invariant Copying(orig, buf[..], all, count, Copied(rows[j..], pageOffset, left, count))
      modifies buf
    {
      var data := rows[j].data;
      var dataLen := Min(|data|, left);
      ghost var was := buf[..];
      ghost var rest := Copied(rows[j + 1..], 0, Wrapped(left, count + dataLen), count + dataLen);
      assert rows[j..][1..] == rows[j + 1..];
      CopyingBounds(orig, was, all, count, Fetch(data, pageOffset, dataLen), rest);
      if count + dataLen > buf.Length { return count, true; }
      MemCpy(buf, count, data, pageOffset, dataLen);
      CopyNext(orig, was, buf[..], all, count, Fetch(data, pageOffset, dataLen), rest);
      pageOffset := 0;
      count := count + dataLen;
      left := Wrapped(left, count);
      j := j + 1;
    }
    CopyLast(orig, buf[..], all, count);
  }

  lemma CopyFirst(orig: seq<Byte>, all: seq<Option<Byte>>)
    ensures Copying(orig, orig, all, 0, all)
  {
    assert all[0..] == all;
  }

  lemma CopyingBounds(orig: seq<Byte>, buf: seq<Byte>, all: seq<Option<Byte>>, count: int,
                      chunk: seq<Option<Byte>>, rest: seq<Option<Byte>>)
    requires Copying(orig, buf, all, count, chunk + rest)
    ensures 0 <= count && count + |chunk| <= |all|
  {
  }

  lemma CopyLast(orig: seq<Byte>, buf: seq<Byte>, all: seq<Option<Byte>>, count: int)
    requires Copying(orig, buf, all, count, [])
    ensures count == |all| <= |buf| == |orig| && Holds(buf, 0, all) && buf[count..] == orig[count..]
  {
    assert all[..|all|] == all;
  }
}
