/** How many bytes `myfs_db_file_read` copies: when it runs past the caller's buffer, and which
    reads that end in the middle of a block are exact. */
module Overrun {
  import opened Blocks
  import opened Database
  import opened Read

  // ------------------------------------------------------------ arithmetic of the counter

  ghost predicate IsPowerOfTwo(m: nat) {
    m == 1 || (m > 1 && m % 2 == 0 && IsPowerOfTwo(m / 2))
  }

  /** An odd factor does not help to reach a multiple of a power of two. */
  lemma {:induction false} OddFactor(a: int, b: int, m: nat, d: int) returns (e: int)
    requires a % 2 == 1 && IsPowerOfTwo(m) && a * b == m * d
    ensures b == m * e
    decreases m
  {
    if m == 1 {
      e := b;
    } else {
      var h := m / 2;
      HalfProduct(h, d);
      EvenFactor(a, b, h * d);
      DoubleProduct(a, b / 2);
      e := OddFactor(a, b / 2, h, d);
      HalfProduct(h, e);
    }
  }

  lemma EvenFactor(a: int, b: int, e: int)
    requires a % 2 == 1 && a * b == 2 * e
    ensures b % 2 == 0
  {
    var i, j, s := a / 2, b / 2, b % 2;
    assert a == 2 * i + 1 && b == 2 * j + s;
    assert a * b == (2 * i + 1) * (2 * j + s) == 2 * (2 * i * j + i * s + j) + s;
  }

  lemma HalfProduct(h: int, d: int)
    ensures (2 * h) * d == 2 * (h * d)
  {
  }

  lemma DoubleProduct(a: int, c: int)
    ensures a * (2 * c) == 2 * (a * c)
  {
  }

  lemma Doubles(m: nat)
    requires IsPowerOfTwo(m)
    ensures IsPowerOfTwo(2 * m)
  {
  }

  lemma Thousandfold(m: nat)
    requires IsPowerOfTwo(m)
    ensures IsPowerOfTwo(0x400 * m)
  {
    hide IsPowerOfTwo;
    Doubles(m);
    Doubles(2 * m);
    Doubles(4 * m);
    Doubles(8 * m);
    Doubles(16 * m);
    Doubles(32 * m);
    Doubles(64 * m);
    Doubles(128 * m);
    Doubles(256 * m);
    Doubles(512 * m);
  }

  lemma PowerOfBlocks()
    ensures IsPowerOfTwo(2 * WORD_BLOCKS)
  {
    Thousandfold(8);
    Thousandfold(8 * 0x400);
    Thousandfold(8 * 0x400 * 0x400);
    Thousandfold(8 * 0x400 * 0x400 * 0x400);
    Thousandfold(8 * 0x400 * 0x400 * 0x400 * 0x400);
  }

  /** Of two neighbours one is odd, and the other is too small to make up for it. */
  lemma Neighbours(q: nat, c: int)
    requires 2 <= q < WORD_BLOCKS
    ensures q * (q - 1) != 2 * WORD_BLOCKS * c
  {
    hide IsPowerOfTwo;
    PowerOfBlocks();
    if q * (q - 1) == 2 * WORD_BLOCKS * c {
      if q % 2 == 1 {
        var e := OddFactor(q, q - 1, 2 * WORD_BLOCKS, c);
      } else {
        var e := OddFactor(q - 1, q, 2 * WORD_BLOCKS, c);
      }
    }
  }

  /** At the last, odd row of a request of at least two blocks the counter is never down to the
      odd bytes. */
  lemma LastCounter(q: nat)
    requires 2 <= q < WORD_BLOCKS
    ensures (q - Tri(q)) % WORD_BLOCKS != 0
  {
    hide Tri;
    TriClosedForm(q);
    NextProduct(q);
    if (q - Tri(q)) % WORD_BLOCKS == 0 {
      var c := -((q - Tri(q)) / WORD_BLOCKS);
      assert Tri(q) - q == WORD_BLOCKS * c;
      Neighbours(q, c);
    }
  }

  lemma NextProduct(q: int)
    ensures q * (q + 1) == q * (q - 1) + 2 * q
  {
  }

  // ------------------------------------------------------------ how many bytes are copied

  /** The bytes of a file of `length` bytes from the block of `offset` on. */
  function Ahead(length: nat, offset: nat): nat {
    if offset / B * B <= length then length - offset / B * B else 0
  }

  /** The request is no whole number of blocks, reaches its last block before the file ends, and
      no row on the way is cut short: the last row is then copied whole. */
  ghost predicate Overruns(size: nat, length: nat) {
    size % B != 0 && 2 * B <= size < length && NeverStalls(size, length)
  }

  /** The offset in the first block does not change how many bytes are copied. */
  lemma SameLength(rows: seq<Row>, po: nat, size: nat)
    ensures |Copied(rows, po, size, 0)| == |Copied(rows, 0, size, 0)|
  {
  }

  /** The rows of a request that ends before the file does, inside a block. */
  ghost predicate Middle(rows: seq<Row>, size: nat, length: nat) {
    && size < WORD && size % B != 0 && size < length
    && |rows| == size / B + 1
    && forall j :: 0 <= j < |rows| ==> |rows[j].data| == Min(B, length - j * B)
  }

  lemma {:induction false} CopiedBounded(rows: seq<Row>, po: nat, size: nat, count: nat)
    requires forall i :: 0 <= i < |rows| ==> |rows[i].data| <= B
    ensures |Copied(rows, po, size, count)| <= |rows| * B
    decreases |rows|
  {
    hide Wrapped, Fetch;
    if rows != [] {
      var n := Min(|rows[0].data|, size);
      CopiedBounded(rows[1..], 0, Wrapped(size, count + n), count + n);
    }
  }

  lemma CopiedStep(rows: seq<Row>, size: nat, count: nat)
    requires rows != []
    ensures var n := Min(|rows[0].data|, size);
      Copied(rows, 0, size, count) == Fetch(rows[0].data, 0, n) + Copied(rows[1..], 0, Wrapped(size, count + n), count + n)
  {
  }

  /** At the last row the counter lets everything through, from two blocks on. */
  lemma LastRow(rows: seq<Row>, size: nat, length: nat)
    requires Middle(rows, size, length)
    ensures var q := size / B; var n := |Copied(rows[q..], 0, Counter(size, q), q * B)|;
      n == if q >= 2 then Min(B, length - q * B) else size % B
  {
    hide Counter, Tri, Wrapped, Fetch;
    var q := size / B;
    var last := rows[q..];
    CopiedStep(last, Counter(size, q), q * B);
    assert last[1..] == [];
    CounterValue(size, q);
    if q >= 2 { LastCounter(q); } else { SmallCounter(size); }
  }

  lemma SmallCounter(size: nat)
    requires size < 2 * B
    ensures Counter(size, size / B) == size % B
  {
    CounterValue(size, size / B);
    assert Tri(0) == 0 && Tri(1) == 1;
  }

  lemma StallCounter(size: nat, length: nat)
    ensures forall k: nat {:trigger Stalls(size, length, k)} :: Stalls(size, length, k) ==> k < size / B && Counter(size, k) == size % B
  {
    hide Counter, Tri;
    forall k: nat | Stalls(size, length, k)
      ensures k < size / B && Counter(size, k) == size % B
    {
      CounterValue(size, k);
    }
  }

  /** From row `k` on: everything up to the end of the last row, or no more than was asked for. */
  lemma {:induction false} LengthFrom(rows: seq<Row>, size: nat, length: nat, k: nat)
    requires Middle(rows, size, length) && k <= size / B
    ensures var n := |Copied(rows[k..], 0, Counter(size, k), k * B)|; var q := size / B;
      if q >= 2 && forall j :: k <= j ==> !Stalls(size, length, j)
        then n == Min((q + 1) * B, length) - k * B else n <= size - k * B
    decreases |rows| - k
  {
    hide Counter, Wrapped, Fetch, Copied, Stalls, WholeRows;
    var q := size / B;
    if k == q {
      StallCounter(size, length);
      LastRow(rows, size, length);
    } else {
      RowFits(size, length, k);
      CopiedStep(rows[k..], Counter(size, k), k * B);
      assert rows[k..][1..] == rows[k + 1..];
      assert |rows[k].data| == B;
      if Stalls(size, length, k) {
        StallCounter(size, length);
        CopiedBounded(rows[k + 1..], 0, Wrapped(size % B, k * B + size % B), k * B + size % B);
      } else {
        CounterNext(size, k);
        LengthFrom(rows, size, length, k + 1);
      }
    }
  }

  /** The rows selected by a request that ends in the middle of the file. */
  lemma MiddleRows(flat: seq<Byte>, offset: nat, size: nat)
    requires offset % B == 0 && size % B != 0 && offset + size < |flat| && size < WORD
    ensures var sel := RowsFrom(Cut(flat), offset / B, BlockCount(size));
      && Middle(sel, size, |flat| - offset)
      && forall k :: 0 <= k < |sel| ==> sel[k].data == Block(flat, offset / B + k)
  {
    hide RowsFrom, Cut;
    var i, n := offset / B, size / B + 1;
    CutLength(flat);
    SelectedBlocks(flat, offset, size);
    assert i + n <= BlockCount(|flat|) && BlockCount(size) == n;
    var sel := Cut(flat)[i..i + n];
    assert RowsFrom(Cut(flat), i, BlockCount(size)) == sel;
    forall k | 0 <= k < |sel|
      ensures sel[k].data == Block(flat, i + k) && |sel[k].data| == Min(B, |flat| - offset - k * B)
    {
      StretchRow(flat, offset, i + n, k);
    }
  }

  lemma ReadFrom(flat: seq<Byte>, offset: nat, size: nat)
    ensures |ReadResult(flat, offset, size)| == |ReadResult(flat, offset / B * B, size)|
  {
    assert offset / B * B / B == offset / B && offset / B * B % B == 0;
    SameLength(RowsFrom(Cut(flat), offset / B, BlockCount(size)), offset % B, size);
  }

  lemma AlignedLength(flat: seq<Byte>, offset: nat, size: nat)
    requires offset % B == 0 && size < WORD
    ensures var n := |ReadResult(flat, offset, size)|; var length := Ahead(|flat|, offset);
      if Overruns(size, length) then n == Min((size / B + 1) * B, length) else n <= size
  {
    hide RowsFrom, Cut, Copied, Flat, Stalls, Counter;
    var sel := RowsFrom(Cut(flat), offset / B, BlockCount(size));
    if |flat| < offset {
      CutLength(flat);
      SelectedBlocks(flat, offset, size);
      assert sel == [];
      NothingCopied(size);
    } else if WholeRows(size, |flat| - offset) {
      WindowRows(flat, offset, size);
      CopiedLength(sel, size, 0);
    } else {
      MiddleRows(flat, offset, size);
      LengthFrom(sel, size, |flat| - offset, 0);
      assert sel[0..] == sel;
      CounterStart(size);
    }
  }

  lemma NothingCopied(size: nat)
    ensures Copied([], 0, size, 0) == []
  {
  }

  /** A read writes past the caller's `size` bytes if and only if it overruns, and then up to the
      end of the last block it touches or of the file. */
  lemma ReadOverruns(flat: seq<Byte>, offset: nat, size: nat)
    requires size < WORD
    ensures |ReadResult(flat, offset, size)| > size <==> Overruns(size, Ahead(|flat|, offset))
    ensures Overruns(size, Ahead(|flat|, offset)) ==>
      |ReadResult(flat, offset, size)| == Min((size / B + 1) * B, Ahead(|flat|, offset))
  {
    hide ReadResult, NeverStalls;
    ReadFrom(flat, offset, size);
    AlignedLength(flat, offset / B * B, size);
    assert offset / B * B / B == offset / B;
  }

  /** Below 2^38 bytes, in the terms of the request: at least two blocks and some bytes, behind
      which the file goes on, and whose number of whole blocks is not triangular. */
  lemma TriangularOverrun(flat: seq<Byte>, offset: nat, size: nat)
    requires size < 0x40_0000_0000
    ensures |ReadResult(flat, offset, size)| > size <==>
      && size % B != 0 && 2 * B <= size && offset / B * B + size < |flat|
      && forall k :: 2 <= k ==> Tri(k) != size / B
  {
    hide ReadResult, Tri, Stalls;
    ReadOverruns(flat, offset, size);
    if size < Ahead(|flat|, offset) { NeverStallsBelow(size, Ahead(|flat|, offset)); }
  }

  /** The smallest whole number of blocks that can overrun, and some bytes more. */
  lemma OverrunExample(flat: seq<Byte>)
    requires |flat| == 5 * B
    ensures |ReadResult(flat, 0, 10000)| == 12288
  {
    hide ReadResult;
    ReadOverruns(flat, 0, 10000);
    assert NeverStalls(10000, 5 * B);
  }

  // ------------------------------------------------------------ reads that end inside a block

  /** If row `k` is the first to stall, its odd bytes are followed by the row behind it. */
  lemma {:induction false} StallByte(rows: seq<Row>, size: nat, length: nat, i: nat, k: nat)
    requires Middle(rows, size, length) && i <= k && Stalls(size, length, k)
    requires forall j :: i <= j < k ==> !Stalls(size, length, j)
    ensures rows[k + 1].data != []
    ensures var r := Copied(rows[i..], 0, Counter(size, i), i * B); var at := (k - i) * B + size % B;
      at < |r| && r[at] == Some(rows[k + 1].data[0])
    decreases k - i
  {
    hide Counter, Tri, Wrapped, Fetch, Copied;
    var c, count, row := Counter(size, i), i * B, rows[i].data;
    assert |row| == B && rows[k + 1].data != [];
    CopiedStep(rows[i..], c, count);
    assert rows[i..][1..] == rows[i + 1..];
    RowFits(size, length, i);
    if i < k {
      CounterNext(size, i);
      var rest := Copied(rows[i + 1..], 0, Counter(size, i + 1), (i + 1) * B);
      var at := (k - (i + 1)) * B + size % B;
      StallByte(rows, size, length, i + 1, k);
      assert (Fetch(row, 0, B) + rest)[B + at] == rest[at];
    } else {
      CounterValue(size, k);
      NextRow(rows[k + 1..], size % B, k);
    }
  }

  /** Behind a stall the counter has wrapped and lets the next row through. */
  lemma NextRow(rest: seq<Row>, c: nat, k: nat)
    requires rest != [] && rest[0].data != [] && c < B && 0 < k * B < WORD
    ensures var r := Copied(rest, 0, Wrapped(c, k * B + c), k * B + c); r != [] && r[0] == Some(rest[0].data[0])
  {
    assert Wrapped(c, k * B + c) == WORD - k * B;
    CopiedStep(rest, WORD - k * B, k * B + c);
  }

  lemma {:induction false} FirstStall(size: nat, length: nat, k: nat) returns (first: nat)
    requires Stalls(size, length, k)
    ensures first <= k && Stalls(size, length, first) && forall j :: 0 <= j < first ==> !Stalls(size, length, j)
    decreases k
  {
    hide Stalls;
    if j :| 0 <= j < k && Stalls(size, length, j) {
      first := FirstStall(size, length, j);
    } else {
      first := k;
    }
  }

  /** A file with a single byte that is not zero. */
  function Spike(length: nat, at: nat): (f: seq<Byte>)
    ensures |f| == length
  {
    seq(length, i => if i == at then 1 else 0)
  }

  /** A long read that ends in the middle of a block is wrong for some contents: it overruns, or
      bytes are skipped at the first stall. */
  lemma LongMiddleRead(length: nat, offset: nat, size: nat) returns (flat: seq<Byte>)
    requires offset % B == 0 && size % B != 0 && offset + size < length && 2 * B <= size < WORD
    ensures |flat| == length && !ReadsExactly(flat, offset, size)
  {
    hide RowsFrom, Cut, Copied, Stalls, Counter, Exactly;
    if NeverStalls(size, length - offset) {
      flat := Spike(length, 0);
      ReadOverruns(flat, offset, size);
    } else {
      var s: nat :| Stalls(size, length - offset, s);
      var k := FirstStall(size, length - offset, s);
      var at := k * B + size % B;
      flat := Spike(length, offset + at);
      MiddleRows(flat, offset, size);
      var sel := RowsFrom(Cut(flat), offset / B, BlockCount(size));
      assert sel[0..] == sel;
      CounterStart(size);
      StallByte(sel, size, length - offset, 0, k);
      StallPlace(flat, offset, size, k);
      assert ReadResult(flat, offset, size)[at] == Some(0);
      SpikeMissed(flat, offset, size, at);
    }
  }

  lemma StallPlace(flat: seq<Byte>, offset: nat, size: nat, k: nat)
    requires offset % B == 0 && size % B != 0 && offset + size < |flat|
    requires Stalls(size, |flat| - offset, k) && flat == Spike(|flat|, offset + k * B + size % B)
    ensures var d := Block(flat, offset / B + (k + 1)); d != [] && d[0] == 0
    ensures k * B + size % B < size && k + 1 <= size / B
  {
    assert (offset / B + (k + 1)) * B == offset + k * B + B;
  }

  lemma SpikeMissed(flat: seq<Byte>, offset: nat, size: nat, at: nat)
    requires at < size && offset + size < |flat| && flat[offset + at] == 1
    requires at < |ReadResult(flat, offset, size)| && ReadResult(flat, offset, size)[at] == Some(0)
    ensures !ReadsExactly(flat, offset, size)
  {
    hide ReadResult;
    assert Window(flat, offset, size)[at] == 1;
    assert Exactly(Window(flat, offset, size))[at] == Some(1);
  }

  /** A block-aligned read that ends in the middle of a block and of the file is exact, whatever
      the contents, if and only if it asks for less than two blocks. */
  lemma MiddleRead(length: nat, offset: nat, size: nat)
    requires offset % B == 0 && size % B != 0 && offset + size < length && size < WORD
    ensures (forall flat: seq<Byte> :: |flat| == length ==> ReadsExactly(flat, offset, size)) <==> size < 2 * B
  {
    hide ReadsExactly;
    if size < 2 * B {
      forall flat: seq<Byte> | |flat| == length
        ensures ReadsExactly(flat, offset, size)
      {
        SmallRead(flat, offset, size);
      }
    } else {
      var flat := LongMiddleRead(length, offset, size);
    }
  }

  /** Every block-aligned read: it is exact, whatever the contents, if and only if the counter
      never stalls, or the read ends in the middle of a block and asks for less than two blocks. */
  lemma AlignedReads(length: nat, offset: nat, size: nat)
    requires offset % B == 0 && offset <= length && size < WORD
    ensures (forall flat: seq<Byte> :: |flat| == length ==> ReadsExactly(flat, offset, size))
       <==> if WholeRows(size, length - offset) then NeverStalls(size, length - offset) else size < 2 * B
  {
    hide ReadsExactly, NeverStalls;
    if WholeRows(size, length - offset) {
      var zeros := Spike(length, length);
      AlignedRead(zeros, offset, size);
      forall flat: seq<Byte> | |flat| == length
        ensures ReadsExactly(flat, offset, size) <==> NeverStalls(size, length - offset)
      {
        AlignedRead(flat, offset, size);
      }
    } else {
      MiddleRead(length, offset, size);
    }
  }
}
