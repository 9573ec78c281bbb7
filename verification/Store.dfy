/** The block store as a whole: every run of appends, truncations and writes refines the same
    run of operations on one flat byte sequence, and reads return that sequence's windows. */
module Store {
  import opened Blocks
  import opened Database
  import opened Append
  import opened Truncate
  import opened Write
  import opened Read

  /** The rows of file `f` are well-formed and agree with its recorded size. */
  ghost predicate Good(t: Tables, f: nat) {
    f in t.files && WellFormed(RowsOf(t, f)) && t.files[f].size == |Flat(RowsOf(t, f))|
  }

  /** The one sequence of bytes the tables denote for file `f`. */
  function Contents(t: Tables, f: nat): seq<Byte> {
    Flat(RowsOf(t, f))
  }

  datatype Op = Appending(data: seq<Byte>) | Truncating(size: nat) | Writing(data: seq<Byte>, offset: nat)

  /** A write that starts inside the file and either ends there or follows whole blocks. */
  predicate Admissible(size: nat, op: Op) {
    match op
    case Writing(data, offset) => offset < size && (offset + |data| <= size || size % B == 0)
    case _ => true
  }

  /** The operation on the flat sequence. */
  function Effect(flat: seq<Byte>, op: Op): seq<Byte>
    requires Admissible(|flat|, op)
  {
    match op
    case Appending(data) => flat + data
    case Truncating(size) => Resized(flat, size)
    case Writing(data, offset) => Overlay(flat, offset, data)
  }

  /** When an operation succeeds if no statement meets an outside failure. */
  predicate Accepts(flat: seq<Byte>, op: Op) {
    match op
    case Writing(data, offset) => !Collides(flat, offset, |data|)
    case _ => true
  }

  /** The operations byte by byte. */
  lemma EffectAt(flat: seq<Byte>, op: Op, i: nat)
    requires Admissible(|flat|, op) && i < |Effect(flat, op)|
    ensures match op
      case Appending(data) =>
        |Effect(flat, op)| == |flat| + |data| && Effect(flat, op)[i] == if i < |flat| then flat[i] else data[i - |flat|]
      case Truncating(size) =>
        |Effect(flat, op)| == size
        && Effect(flat, op)[i] == ByteAfter(flat, size, i)
      case Writing(data, offset) =>
        |Effect(flat, op)| == (if offset + |data| <= |flat| then |flat| else offset + |data|)
        && Effect(flat, op)[i] == if offset <= i < offset + |data| then data[i - offset] else flat[i]
  {
    if op.Truncating? { ResizedByte(flat, op.size, i); }
  }

  /** An operation goes through unless it is a write that starts behind the end, runs past a partial
      last block, or collides with a block its length does not ask for. */
  lemma GoesMeaning(flat: seq<Byte>, op: Op)
    ensures Goes(flat, op) <==> (op.Writing? ==>
      && op.offset < |flat| && (op.offset + |op.data| <= |flat| || |flat| % 4096 == 0)
      && (op.data == []
          || BlockCount(op.offset % 4096 + |op.data|) == BlockCount(|op.data|)
          || (op.offset + |op.data| - 1) / 4096 >= BlockCount(|flat|)))
  {
    if op.Writing? && op.data != [] {
      CollidesMeaning(flat, op.offset, |op.data|);
      SpanCount(op.offset, |op.data|);
    }
  }

  // ------------------------------------------------------------ one operation

  lemma AppendEffect(t: Tables, u: Tables, f: nat, data: seq<Byte>)
    requires Good(t, f) && Appended(t, u, f, data)
    ensures Good(u, f) && Contents(u, f) == Contents(t, f) + data && Touched(t, u, f)
  {
  }

  /** A byte after a truncation: kept, or a space. */
  function ByteAfter(flat: seq<Byte>, size: nat, i: nat): Byte {
    if i < |flat| && (|flat| <= size || i < size / 4096 * 4096) then flat[i] else 32
  }

  lemma TruncateEffect(t: Tables, u: Tables, f: nat, size: nat)
    requires Schema(t) && Good(t, f) && Truncated(t, u, f, size)
    ensures Good(u, f) && Contents(u, f) == Resized(Contents(t, f), size) && Touched(t, u, f)
    ensures forall i :: 0 <= i < size ==> Contents(u, f)[i] == ByteAfter(Contents(t, f), size, i)
  {
    hide Good, Contents, Resized, Touched, ByteAfter;
    TruncateContents(t, u, f, size);
    forall i: nat | i < size
      ensures Resized(Contents(t, f), size)[i] == ByteAfter(Contents(t, f), size, i)
    {
      ResizedByte(Contents(t, f), size, i);
    }
  }

  lemma ResizedByte(flat: seq<Byte>, size: nat, i: nat)
    requires i < size
    ensures Resized(flat, size)[i] == ByteAfter(flat, size, i)
  {
    hide Resized;
    ResizedAt(flat, size, i);
  }

  lemma TruncateContents(t: Tables, u: Tables, f: nat, size: nat)
    requires Schema(t) && Good(t, f) && Truncated(t, u, f, size)
    ensures Good(u, f) && Contents(u, f) == Resized(Contents(t, f), size) && Touched(t, u, f)
  {
    hide Schema, Cut, Shrink, Flat, WellFormed;
    var flat, s := Contents(t, f), size;
    if s < |flat| {
      ShrinkCut(RowsOf(t, f), |flat| - s);
      FlatCut(Resized(flat, s));
      CutWellFormed(Resized(flat, s));
    } else if s == |flat| {
      WriteUntouched(t, f);
    }
  }

  lemma WriteEffect(t: Tables, u: Tables, f: nat, data: seq<Byte>, offset: nat)
    requires Good(t, f) && Admissible(|Contents(t, f)|, Writing(data, offset))
    requires Known(t, f) && Written(t, u, f, data, offset) && Touched(t, u, f)
    ensures Good(u, f) && Contents(u, f) == Overlay(Contents(t, f), offset, data)
  {
    hide Flat, WellFormed, Overlay;
    SizeAgrees(Contents(t, f), offset, data);
  }

  /** One step of a run: on success exactly the flat operation, on failure nothing at all, and
      no other file is touched either way. */
  method Perform(db: Connection, f: nat, op: Op) returns (ok: bool)
    requires db.Idle() && Good(db.tables, f)
    requires Admissible(db.tables.files[f].size, op)
    modifies db
    ensures db.Idle() && Good(db.tables, f) && old(db.clock) < db.clock
    ensures Touched(old(db.tables), db.tables, f)
    ensures ok ==> Contents(db.tables, f) == Effect(Contents(old(db.tables), f), op)
    ensures !ok ==> db.tables == old(db.tables)
    ensures ok <==> db.Healthy(old(db.clock)) && Accepts(Contents(old(db.tables), f), op)
  {
    hide Schema, Flat, WellFormed, Appended, Truncated, Written, Touched, Collides;
    ghost var t := db.tables;
    WriteUntouched(t, f);
    match op
    case Appending(data) =>
      ok := FileAppend(db, f, data);
      if ok { AppendEffect(t, db.tables, f, data); }
    case Truncating(size) =>
      ok := FileTruncate(db, f, size);
      if ok { TruncateEffect(t, db.tables, f, size); }
    case Writing(data, offset) =>
      ok := FileWrite(db, f, data, offset);
      if ok { WriteEffect(t, db.tables, f, data, offset); }
  }

  // ------------------------------------------------------------ runs

  /** The flat sequence after the operations that succeeded. */
  function Replay(flat: seq<Byte>, ops: seq<Op>, oks: seq<bool>): seq<Byte>
    requires |ops| == |oks|
  {
    if ops == [] then flat
    else
      var before, op := Replay(flat, ops[..|ops| - 1], oks[..|oks| - 1]), ops[|ops| - 1];
      if oks[|oks| - 1] && Admissible(|before|, op) then Effect(before, op) else before
  }

  /** The operation is sent and succeeds if no statement fails. */
  predicate Goes(flat: seq<Byte>, op: Op) {
    Admissible(|flat|, op) && Accepts(flat, op)
  }

  /** The flat sequence after a run in which no statement fails. */
  function Outcome(flat: seq<Byte>, ops: seq<Op>): seq<Byte> {
    if ops == [] then flat
    else
      var before, op := Outcome(flat, ops[..|ops| - 1]), ops[|ops| - 1];
      if Goes(before, op) then Effect(before, op) else before
  }

  lemma TouchedAgain(t: Tables, u: Tables, v: Tables, f: nat)
    requires Touched(t, u, f) && Touched(u, v, f)
    ensures Touched(t, v, f)
  {
    if f in t.files {
      assert v.data == t.data[f := v.data[f]];
      assert v.files == t.files[f := v.files[f]];
    }
  }

  /** The operations that succeeded, `oks`, account for the contents; each of them should have, and
      without faults no other should have. */
  ghost predicate Ran(flat: seq<Byte>, ops: seq<Op>, oks: seq<bool>, healthy: bool, now: seq<Byte>) {
    && |oks| == |ops| && now == Replay(flat, ops, oks)
    && (forall i :: 0 <= i < |ops| && oks[i] ==> Goes(Replay(flat, ops[..i], oks[..i]), ops[i]))
    && (healthy ==>
          && now == Outcome(flat, ops)
          && forall i :: 0 <= i < |ops| ==> (oks[i] <==> Goes(Outcome(flat, ops[..i]), ops[i])))
  }

  lemma RanNone(flat: seq<Byte>, healthy: bool)
    ensures Ran(flat, [], [], healthy, flat)
  {
  }

  lemma ReplayPush(flat: seq<Byte>, ops: seq<Op>, oks: seq<bool>, op: Op, ok: bool)
    requires |ops| == |oks|
    ensures var before := Replay(flat, ops, oks);
      Replay(flat, ops + [op], oks + [ok]) == if ok && Admissible(|before|, op) then Effect(before, op) else before
    ensures var before := Outcome(flat, ops);
      Outcome(flat, ops + [op]) == if Goes(before, op) then Effect(before, op) else before
  {
    assert (ops + [op])[..|ops|] == ops && (oks + [ok])[..|oks|] == oks;
  }

  lemma RanMore(flat: seq<Byte>, ops: seq<Op>, oks: seq<bool>, healthy: bool, now: seq<Byte>,
                op: Op, ok: bool, still: bool, next: seq<Byte>)
    requires Ran(flat, ops, oks, healthy, now) && (still ==> healthy)
    requires ok ==> Goes(now, op)
    requires still ==> (ok <==> Goes(now, op))
    requires next == if ok && Goes(now, op) then Effect(now, op) else now
    ensures Ran(flat, ops + [op], oks + [ok], still, next)
  {
    hide Replay, Outcome, Effect, Accepts;
    ReplayPush(flat, ops, oks, op, ok);
    var os, ks := ops + [op], oks + [ok];
    forall i | 0 <= i < |os|
      ensures ks[i] ==> Goes(Replay(flat, os[..i], ks[..i]), os[i])
      ensures still ==> (ks[i] <==> Goes(Outcome(flat, os[..i]), os[i]))
    {
      if i < |ops| {
        assert os[..i] == ops[..i] && ks[..i] == oks[..i];
      } else {
        assert os[..i] == ops && ks[..i] == oks;
      }
    }
  }

  /** Every run of admissible operations, whatever fails on the way. A caller that finds a write
      inadmissible does not send it. */
  method Run(db: Connection, f: nat, ops: seq<Op>) returns (oks: seq<bool>)
    requires db.Idle() && Good(db.tables, f)
    modifies db
    ensures db.Idle() && Good(db.tables, f)
    ensures Ran(Contents(old(db.tables), f), ops, oks, db.Healthy(old(db.clock)), Contents(db.tables, f))
    ensures Touched(old(db.tables), db.tables, f)
  {
    hide Schema, Flat, WellFormed, Touched, Effect, Accepts, Admissible, Ran;
    ghost var t, c := db.tables, Contents(db.tables, f);
    WriteUntouched(t, f);
    RanNone(c, true);
    oks := [];
    var i := 0;
    assert ops[..0] == [];
    while i < |ops|
      invariant 0 <= i <= |ops|
      invariant db.Idle() && Good(db.tables, f) && old(db.clock) <= db.clock
      invariant Ran(c, ops[..i], oks, db.Healthy(old(db.clock)), Contents(db.tables, f))
      invariant Touched(t, db.tables, f)
    {
      ghost var u, healthy, now := db.tables, db.Healthy(old(db.clock)), Contents(db.tables, f);
      var ok := false;
      if Admissible(db.tables.files[f].size, ops[i]) {
        ok := Perform(db, f, ops[i]);
        TouchedAgain(t, u, db.tables, f);
      }
      RanMore(c, ops[..i], oks, healthy, now, ops[i], ok, db.Healthy(old(db.clock)), Contents(db.tables, f));
      assert ops[..i] + [ops[i]] == ops[..i + 1];
      oks := oks + [ok];
      i := i + 1;
    }
    assert ops[..i] == ops;
  }

  // ------------------------------------------------------------ reading back

  lemma StoredRead(t: Tables, f: nat, offset: nat, size: nat)
    requires Good(t, f)
    ensures Stored(t, f, offset, size) == ReadResult(Contents(t, f), offset, size)
  {
    WellFormedIsCut(RowsOf(t, f));
  }

  lemma HoldsExactly(buf: seq<Byte>, s: seq<Byte>)
    requires Holds(buf, 0, Exactly(s))
    ensures |s| <= |buf| && buf[..|s|] == s
  {
    forall i | 0 <= i < |s|
      ensures buf[i] == s[i]
    {
      assert Exactly(s)[i] == Some(s[i]);
    }
  }

  /** A read whose window is one of the exact ones puts exactly the window into the buffer. */
  method ReadBack(db: Connection, f: nat, buf: array<Byte>, size: nat, offset: nat) returns (count: int)
    requires db.Idle() && Good(db.tables, f) && size < WORD && size <= buf.Length
    requires offset <= |Contents(db.tables, f)| && ReadsExactly(Contents(db.tables, f), offset, size)
    modifies db, buf
    ensures db.Idle() && db.tables == old(db.tables) && db.clock == old(db.clock) + 1
    ensures count == -1 <==> old(db.clock) in db.faults
    ensures count == -1 ==> buf[..] == old(buf[..])
    ensures count != -1 ==>
      && count == Min(size, |Contents(db.tables, f)| - offset)
      && buf[..count] == Window(Contents(db.tables, f), offset, size)
      && buf[count..] == old(buf[count..])
  {
    hide Schema, Flat, WellFormed, Holds, Copied, Stored;
    StoredRead(db.tables, f, offset, size);
    var overrun;
    count, overrun := FileRead(db, f, buf, size, offset);
    if count != -1 {
      HoldsExactly(buf[..], Window(Contents(db.tables, f), offset, size));
    }
  }
}
