/** The open-file table of `myfs.c`: opening, releasing, and reading and writing through the
    cached `st_size`. */
module Session {
  import opened Blocks
  import opened Database
  import opened Append
  import opened Truncate
  import opened Write
  import opened Read
  import opened Overrun
  import opened Store
  import opened Tree
  import opened Paths
  import opened Query
  import opened Namespace
  import opened Shape

  const FILES_OPEN_MAX := 128
  const EMFILE := -24

  /** Not a result code: the call has written to memory behind its caller's buffer. */
  const OVERRUN := -0x1_0000

  /** An entry of the open-file table. */
  class OpenFile {
    const id: nat
    var stSize: nat

    constructor (id: nat, stSize: nat)
      ensures this.id == id && this.stSize == stSize
    {
      this.id, this.stSize := id, stSize;
    }
  }

  lemma TruncatedIsTouched(t: Tables, u: Tables, f: nat, s: nat)
    requires Truncated(t, u, f, s) && Schema(t)
    ensures Touched(t, u, f)
  {
    hide Flat, WellFormed, Schema, Shrink;
    WriteUntouched(t, f);
  }

  /** What `myfs_read` asks the store for. */
  function ClampedSize(stSize: nat, size: nat, offset: nat): nat
    requires offset <= stSize
  {
    if offset + size > stSize then stSize - offset else size
  }

  /** A read that ends in the block it starts in, as page-sized reads do, is exact after clamping. */
  lemma PageReadExact(flat: seq<Byte>, offset: nat, size: nat)
    requires offset <= |flat| && offset % B + size <= B
    ensures ReadsExactly(flat, offset, ClampedSize(|flat|, size, offset))
  {
    var s := ClampedSize(|flat|, size, offset);
    if offset % B == 0 {
      SmallRead(flat, offset, s);
    } else if s == 0 {
      assert RowsFrom(Cut(flat), offset / B, 0) == [];
    } else {
      UnalignedRead(flat, offset, s);
    }
  }

  /** The bytes of the writes that returned their length, in order. */
  function Delivered(bufs: seq<seq<Byte>>, rets: seq<int>): seq<Byte>
    requires |bufs| == |rets|
  {
    if bufs == [] then []
    else
      Delivered(bufs[..|bufs| - 1], rets[..|rets| - 1]) + if rets[|rets| - 1] == EIO then [] else bufs[|bufs| - 1]
  }

  lemma DeliveredNone(c: seq<Byte>, bufs: seq<seq<Byte>>)
    ensures c + Delivered(bufs[..0], []) == c
  {
  }

  lemma DeliveredMore(c: seq<Byte>, bufs: seq<seq<Byte>>, rets: seq<int>, ret: int)
    requires |rets| < |bufs|
    ensures c + Delivered(bufs[..|rets| + 1], rets + [ret])
         == c + Delivered(bufs[..|rets|], rets) + if ret == EIO then [] else bufs[|rets|]
  {
    hide Delivered;
    var i := |rets|;
    DeliveredLast(bufs[..i], rets, bufs[i], ret);
    TakeMore(bufs, i);
    Associative(c, Delivered(bufs[..i], rets), if ret == EIO then [] else bufs[i]);
  }

  lemma TakeMore<T>(s: seq<T>, i: nat)
    requires i < |s|
    ensures s[..i + 1] == s[..i] + [s[i]]
  {
  }

  lemma Associative(a: seq<Byte>, b: seq<Byte>, c: seq<Byte>)
    ensures a + (b + c) == a + b + c
  {
  }

  lemma DeliveredLast(bufs: seq<seq<Byte>>, rets: seq<int>, buf: seq<Byte>, ret: int)
    requires |rets| == |bufs|
    ensures Delivered(bufs + [buf], rets + [ret]) == Delivered(bufs, rets) + if ret == EIO then [] else buf
  {
    assert (bufs + [buf])[..|bufs|] == bufs && (rets + [ret])[..|rets|] == rets;
  }

  /** The bytes of all the writes. */
  function Joined(bufs: seq<seq<Byte>>): seq<Byte> {
    if bufs == [] then [] else Joined(bufs[..|bufs| - 1]) + bufs[|bufs| - 1]
  }

  lemma {:induction false} DeliveredAll(bufs: seq<seq<Byte>>, rets: seq<int>)
    requires |bufs| == |rets|
    ensures (forall i :: 0 <= i < |rets| ==> rets[i] == |bufs[i]|) ==> Delivered(bufs, rets) == Joined(bufs)
    decreases |bufs|
  {
    if bufs != [] { DeliveredAll(bufs[..|bufs| - 1], rets[..|rets| - 1]); }
  }

  /** Every handle is taken. */
  ghost predicate AllInUse(files: seq<OpenFile?>) {
    forall i :: 0 <= i < |files| ==> files[i] != null
  }

  /** The result code of an open when no query fails. */
  ghost function OpenCode(t: Tables, full: bool, path: string, truncate: bool): int {
    if full then EMFILE
    else match Lookup(t.files, path)
      case None => GetCode(t.files, path)
      case Some(f) => if truncate && !CanTruncate(t, f, 0) then EIO else 0
  }

  /** After a write in place, the cached size is wrong unless nothing was written. */
  lemma InPlaceSize(flat: seq<Byte>, offset: nat, buffer: seq<Byte>)
    requires offset < |flat|
    ensures |flat| + |buffer| == |Overlay(flat, offset, buffer)| <==> buffer == []
  {
  }

  /** The result code of creating and opening a file: the new node stays behind, whatever comes
      of opening it. */
  ghost function NewFileCode(t: Tables, full: bool, path: string): int
    requires '/' in path
  {
    if CreateCode(t.files, path) != 0 then CreateCode(t.files, path)
    else OpenCode(WithNode(t, path, File), full, path, false)
  }

  /** A file's node is left behind with an error code if and only if its key was free and either no
      handle is, or splitting the path has lost something and the path led nowhere before. A path
      that fits the buffers loses nothing, and a name that does not fit leads nowhere. */
  lemma LeftBehind(t: Tables, full: bool, path: string)
    requires Schema(t) && IsTree(t.files) && FusePath(path) && '/' in path && CreateCode(t.files, path) == 0
    ensures NewFileCode(t, full, path) != 0 <==> full || (!SplitsWhole(path) && Lookup(t.files, path) == None)
    ensures |path| <= 1024 && |path[LastSlash(path) + 1..]| <= 64 ==> SplitsWhole(path)
    ensures |path[LastSlash(path) + 1..]| > 64 ==> !SplitsWhole(path) && Lookup(t.files, path) == None
  {
    hide IsTree, Schema, Resolve, Tokens, WithNode, Breaks, KeyFree, LastSlash;
    NodeFound(t, path, File);
    NameParts(path);
    LongNameMissing(t, path);
    LastToken(path);
    DirFacts(path);
  }

  /** A name of 65 characters at the root of an empty tree: the node is made and not found. */
  lemma LeftBehindExample(t: Tables, path: string)
    requires Schema(t) && IsTree(t.files) && t.files.Keys == {ROOT}
    requires path == "/" + LongName()
    ensures '/' in path && CreateCode(t.files, path) == 0 && NewFileCode(t, false, path) != 0
  {
    hide IsTree, Schema, Resolve, Breaks;
    LongParts(path);
    TokensSlash("/");
    assert "/"[1..] == "";
    WalkStart(t.files);
    RootRow(t.files);
    LeftBehind(t, false, path);
  }

  function LongName(): string {
    seq(NAME_MAX + 1, _ => 'a')
  }

  lemma LongParts(path: string)
    requires path == "/" + LongName()
    ensures FusePath(path) && '/' in path && LastSlash(path) == 0
    ensures DirName(path) == "/" && BaseName(path) != "" && |path[LastSlash(path) + 1..]| > NAME_MAX
  {
    assert path[0] in path;
    assert forall k :: 0 < k < |path| ==> path[k] == LongName()[k - 1];
  }

  lemma RootRow(files: Files)
    requires IsTree(files) && files.Keys == {ROOT}
    ensures forall name: string :: name != "" ==> KeyFree(files, ROOT, name, None)
  {
  }

  /** No row has a name longer than the column. */
  lemma LongNameMissing(t: Tables, path: string)
    requires Schema(t) && IsTree(t.files) && FusePath(path) && '/' in path
    ensures |path[LastSlash(path) + 1..]| > NAME_MAX ==> Lookup(t.files, path) == None
  {
    hide IsTree, Schema, Resolve, Tokens, NamePath, LastSlash;
    var names := Tokens(path);
    LastToken(path);
    if Lookup(t.files, path).Some? {
      var x := Lookup(t.files, path).value;
      LookupInFiles(t.files, path);
      RootPath(t.files);
      NamePathParent(t.files, x);
      NameFits(t, x);
      assert names[|names| - 1] == t.files[x].name;
    }
  }

  /** A new node is an empty file at its path. */
  lemma NodeFacts(t: Tables, path: string, kind: Kind)
    requires Schema(t) && IsTree(t.files) && FusePath(path) && '/' in path && CreateCode(t.files, path) == 0
    requires SplitsWhole(path)
    ensures var u := WithNode(t, path, kind);
      && IsTree(u.files) && Lookup(u.files, path) == Some(t.nextId)
      && Good(u, t.nextId) && Contents(u, t.nextId) == [] && u.files[t.nextId].kind == kind
  {
    hide IsTree, Resolve, Tokens, KeyFree, NamePath, SplitsWhole;
    NodeFound(t, path, kind);
  }

  lemma AppendKeepsPath(t: Tables, u: Tables, f: nat, data: seq<Byte>, path: string)
    requires Schema(t) && Schema(u) && IsTree(t.files) && Appended(t, u, f, data)
    ensures IsTree(u.files) && Lookup(u.files, path) == Lookup(t.files, path)
    ensures f in t.files ==> f in u.files && u.files[f].kind == t.files[f].kind
  {
    hide Schema, Appended, Resolve, Tokens;
    AppendedIsTouched(t, u, f, data);
    TouchedKeepsTree(t, u, f);
    SchemaNames(t);
    SchemaNames(u);
    SameResolve(t.files, u.files, Tokens(path));
  }

  lemma SchemaNames(t: Tables)
    requires Schema(t)
    ensures UniqueNames(t.files)
  {
  }

  /** Two rows never yield more than was asked for. */
  lemma CopiedFits(rows: seq<Row>, po: nat, size: nat)
    requires |rows| <= 2 && size < WORD
    ensures |Copied(rows, po, size, 0)| <= size
  {
    if rows != [] {
      var n := Min(|rows[0].data|, size);
      var rest := rows[1..];
      assert Wrapped(size, n) == size - n;
      if rest != [] {
        var k := Min(|rest[0].data|, size - n);
        assert rest[1..] == [];
        assert Copied(rest, 0, size - n, n) == Fetch(rest[0].data, 0, k) + [];
      }
    }
  }

  /** The buffer holds as much of the target as leaves room for the NUL, and the NUL. */
  ghost predicate CutTo(buf: seq<Byte>, target: seq<Byte>) {
    && buf != []
    && var n := Min(|target|, |buf| - 1);
       buf[..n] == target[..n] && buf[n] == 0
  }

  /** File `f` is a link of which something, and no more than fits, is read. */
  ghost predicate ReadableLink(t: Tables, f: nat, size: nat) {
    f in t.files && t.files[f].kind == SoftLink && 0 < |Stored(t, f, 0, size)| <= size
  }

  /** The rows of file `f` hold at least as many bytes as its recorded size says. */
  ghost predicate SizeCovered(t: Tables, f: nat) {
    f in t.files && t.files[f].size <= |Flat(RowsOf(t, f))|
  }

  lemma CoveredMeaning(t: Tables, f: nat)
    ensures CanTruncate(t, f, 0) <==> SizeCovered(t, f)
  {
  }

  lemma SomeFree(files: seq<OpenFile?>)
    requires |files| == FILES_OPEN_MAX
    ensures FILES_OPEN_MAX == 128 && EMFILE == -24
    ensures AllInUse(files) <==> forall i :: 0 <= i < 128 ==> files[i] != null
    ensures !AllInUse(files) <==> exists i :: 0 <= i < 128 && files[i] == null
  {
  }

  class MyFs {
    const db: Connection
    const files: array<OpenFile?>

    ghost predicate Valid()
      reads this, db, files
    {
      Ready(db) && files.Length == FILES_OPEN_MAX
    }

    constructor (db: Connection)
      requires Ready(db)
      ensures Valid() && this.db == db && fresh(files)
    {
      this.db := db;
      this.files := new OpenFile?[FILES_OPEN_MAX](_ => null);
    }

    /** The cached size of an open file is that of well-formed contents. */
    ghost predicate Agrees(file: OpenFile)
      reads this, db, file
    {
      Good(db.tables, file.id) && file.stSize == |Contents(db.tables, file.id)|
    }

    /** `myfs_open_helper`: the first free handle is used. The size is read before a truncation. */
    method Open(path: string, dir: bool, truncate: bool) returns (ret: int, fh: nat)
      requires Valid() && Absolute(path)
      modifies db, files
      ensures Valid()
      ensures ret != 0 ==> files[..] == old(files[..]) && db.tables == old(db.tables)
      ensures ret == 0 ==>
        && fh < FILES_OPEN_MAX && old(files[fh]) == null && files[fh] != null && fresh(files[fh])
        && (forall i :: 0 <= i < fh ==> old(files[i]) != null)
        && files[..] == old(files[..])[fh := files[fh]]
        && Lookup(old(db.tables.files), path) == Some(files[fh].id)
        && files[fh].id in old(db.tables.files)
        && files[fh].stSize == StSize(old(db.tables.files)[files[fh].id])
        && if !dir && truncate then Truncated(old(db.tables), db.tables, files[fh].id, 0) else db.tables == old(db.tables)
      // Whatever file was opened, the cached size is that of its contents.
      ensures ret == 0 && (dir || !truncate) && Good(old(db.tables), files[fh].id) ==>
        old(db.tables.files)[files[fh].id].kind != Directory ==> Agrees(files[fh])
      ensures ret == EMFILE <==> AllInUse(old(files[..]))
      ensures ret == EMFILE <==> forall i :: 0 <= i < 128 ==> old(files[i]) != null
      ensures db.Healthy(old(db.clock)) ==>
        ret == OpenCode(old(db.tables), AllInUse(old(files[..])), path, !dir && truncate)
      ensures db.Healthy(old(db.clock)) ==>
        (ret == 0 <==>
           && (exists i :: 0 <= i < 128 && old(files[i]) == null)
           && Lookup(old(db.tables.files), path).Some?
           && (dir || !truncate || SizeCovered(old(db.tables), Lookup(old(db.tables.files), path).value)))
      ensures old(db.clock) <= db.clock
    {
      hide IsTree, Schema, Resolve, Tokens, Complete, Truncated, CanTruncate, ChildrenOf, Breaks, Flat, WellFormed;
      SomeFree(files[..]);
      if Lookup(db.tables.files, path).Some? {
        LookupInFiles(db.tables.files, path);
        CoveredMeaning(db.tables, Lookup(db.tables.files, path).value);
      }
      fh := 0;
      while fh < FILES_OPEN_MAX && files[fh] != null
        invariant fh <= FILES_OPEN_MAX
        invariant forall i :: 0 <= i < fh ==> files[i] != null
      {
        fh := fh + 1;
      }
      assert fh < FILES_OPEN_MAX ==> files[..][fh] == null;
      if fh == FILES_OPEN_MAX { return EMFILE, fh; }
      var file;
      ret, file := Get(db, path, dir);
      if ret != 0 { return; }
      if !dir && truncate {
        ghost var t := db.tables;
        var success := FileTruncate(db, file.value.id, 0);
        if !success { return EIO, fh; }
        TruncatedIsTouched(t, db.tables, file.value.id, 0);
        TouchedKeepsTree(t, db.tables, file.value.id);
      }
      files[fh] := new OpenFile(file.value.id, file.value.size);
      ret := 0;
    }

    method Release(fh: nat)
      requires Valid() && fh < FILES_OPEN_MAX && files[fh] != null
      modifies files
      ensures Valid() && files[..] == old(files[..])[fh := null]
    {
      files[fh] := null;
    }

    /** `myfs_write`: at the cached size or in append mode the data is appended, elsewhere it is
        written in place; either way the cached size grows by the length of the buffer. */
    method Write(fh: nat, buffer: seq<Byte>, offset: nat, append: bool) returns (ret: int)
      requires Valid() && fh < FILES_OPEN_MAX && files[fh] != null
      modifies db, files[fh]
      ensures Valid()
      ensures ret == |buffer| || ret == EIO
      ensures ret == EIO ==> db.tables == old(db.tables) && files[fh].stSize == old(files[fh].stSize)
      ensures ret != EIO ==>
        && files[fh].stSize == old(files[fh].stSize) + |buffer|
        && Touched(old(db.tables), db.tables, files[fh].id)
        && (append || offset == old(files[fh].stSize) ==> Appended(old(db.tables), db.tables, files[fh].id, buffer))
        && (!append && offset != old(files[fh].stSize) && Known(old(db.tables), files[fh].id) ==>
              Written(old(db.tables), db.tables, files[fh].id, buffer, offset))
      // An append fails only with a statement, a write in place also by a collision.
      ensures append || offset == old(files[fh].stSize) ==>
        (ret == |buffer| <==> db.Healthy(old(db.clock)) && (files[fh].id in old(db.tables.files) || buffer == []))
      ensures !append && offset != old(files[fh].stSize) && Known(old(db.tables), files[fh].id) ==>
        (ret == |buffer| <==>
           db.Healthy(old(db.clock)) && !Collides(old(Contents(db.tables, files[fh].id)), offset, |buffer|))
      ensures !append && offset != old(files[fh].stSize) ==>
        && (ret == |buffer| <==> db.Healthy(old(db.clock)) && WriteFits(old(db.tables), files[fh].id, buffer, offset))
        && (ret == |buffer| ==> WrittenRows(old(db.tables), db.tables, files[fh].id, buffer, offset))
      ensures old(db.clock) < db.clock
      ensures old(Agrees(files[fh])) && (append || offset == old(files[fh].stSize)) ==>
        && Agrees(files[fh])
        && Contents(db.tables, files[fh].id) == old(Contents(db.tables, files[fh].id)) + if ret == EIO then [] else buffer
    {
      hide IsTree, Schema, Flat, WellFormed, Written, Known, Touched, Collides, WriteFits, WrittenRows;
      var file := files[fh];
      ghost var t, c := db.tables, Contents(db.tables, file.id);
      var success;
      if append || file.stSize == offset {
        success := FileAppend(db, file.id, buffer);
        if success {
          AppendedIsTouched(t, db.tables, file.id, buffer);
          if old(Agrees(file)) { AppendEffect(t, db.tables, file.id, buffer); }
        }
      } else {
        success := FileWrite(db, file.id, buffer, offset);
      }
      if !success {
        assert c + [] == c;
        return EIO;
      }
      TouchedKeepsTree(t, db.tables, file.id);
      file.stSize := file.stSize + |buffer|;
      ret := |buffer|;
    }

    /** `buf` has room for what a read through the handle copies. */
    ghost predicate HasRoom(file: OpenFile, buf: array<Byte>, size: nat, offset: nat)
      reads this, db, file
      requires offset <= file.stSize
    {
      |Stored(db.tables, file.id, offset, ClampedSize(file.stSize, size, offset))| <= buf.Length
    }

    /** The clamped request has room unless it overruns, and by more than clamping has left free. */
    lemma RoomEnough(file: OpenFile, buf: array<Byte>, offset: nat)
      requires Agrees(file) && offset <= file.stSize && buf.Length < WORD
      ensures var s, ahead := ClampedSize(file.stSize, buf.Length, offset), Ahead(file.stSize, offset);
        !HasRoom(file, buf, buf.Length, offset) <==> Overruns(s, ahead) && buf.Length < Min((s / B + 1) * B, ahead)
    {
      hide Stored, ReadResult;
      var s := ClampedSize(file.stSize, buf.Length, offset);
      StoredRead(db.tables, file.id, offset, s);
      ReadOverruns(Contents(db.tables, file.id), offset, s);
    }

    /** `myfs_read`, for a request of as many bytes as the buffer has: it is clamped to the cached
        size. */
    method Read(fh: nat, buf: array<Byte>, offset: nat) returns (ret: int)
      requires Valid() && fh < FILES_OPEN_MAX && files[fh] != null
      requires offset <= files[fh].stSize && buf.Length < WORD
      modifies db, buf
      ensures Valid() && db.tables == old(db.tables) && db.clock == old(db.clock) + 1
      ensures ret in {EIO, OVERRUN} || 0 <= ret <= buf.Length
      ensures ret == EIO <==> old(db.clock) in db.faults
      ensures ret == OVERRUN <==> ret != EIO && !HasRoom(files[fh], buf, buf.Length, offset)
      ensures Agrees(files[fh]) && ret != EIO ==>
        var flat := Contents(db.tables, files[fh].id);
        ReadsExactly(flat, offset, ClampedSize(|flat|, buf.Length, offset)) ==>
          && ret == Min(buf.Length, |flat| - offset)
          && buf[..ret] == Window(flat, offset, buf.Length) && buf[ret..] == old(buf[ret..])
    {
      hide IsTree, Schema, Flat, WellFormed, Holds, Stored, ReadResult;
      var file := files[fh];
      var s := buf.Length;
      if offset + s > file.stSize {
        s := file.stSize - offset;
      }
      if Agrees(file) { StoredRead(db.tables, file.id, offset, s); }
      var count, overrun := FileRead(db, file.id, buf, s, offset);
      if count == -1 { return EIO; }
      if overrun { return OVERRUN; }
      if Agrees(file) {
        var flat := Contents(db.tables, file.id);
        if ReadsExactly(flat, offset, s) {
          HoldsExactly(buf[..], Window(flat, offset, s));
        }
      }
      ret := count;
    }

    /** Any number of writes, each at the cached size: the contents are what was there before,
        followed by the buffers that were written, and the cached size stays right throughout. */
    method WriteAll(fh: nat, bufs: seq<seq<Byte>>, append: bool) returns (rets: seq<int>)
      requires Valid() && fh < FILES_OPEN_MAX && files[fh] != null && Agrees(files[fh])
      modifies db, files[fh]
      ensures Valid() && Agrees(files[fh]) && |rets| == |bufs|
      ensures Contents(db.tables, files[fh].id) == old(Contents(db.tables, files[fh].id)) + Delivered(bufs, rets)
      ensures forall i :: 0 <= i < |rets| ==> rets[i] == |bufs[i]| || rets[i] == EIO
      ensures db.Healthy(old(db.clock)) ==>
        && (forall i :: 0 <= i < |rets| ==> rets[i] == |bufs[i]|)
        && Contents(db.tables, files[fh].id) == old(Contents(db.tables, files[fh].id)) + Joined(bufs)
    {
      hide IsTree, Schema, Flat, WellFormed, Written, Touched, Appended, Known, Collides, Delivered, Joined;
      ghost var c := Contents(db.tables, files[fh].id);
      rets := [];
      var i := 0;
      DeliveredNone(c, bufs);
      while i < |bufs|
        invariant 0 <= i <= |bufs| && |rets| == i
        invariant Valid() && files[fh] == old(files[fh]) && Agrees(files[fh])
        invariant Contents(db.tables, files[fh].id) == c + Delivered(bufs[..i], rets)
        invariant forall k :: 0 <= k < i ==> rets[k] == |bufs[k]| || rets[k] == EIO
        invariant old(db.clock) <= db.clock
        invariant db.Healthy(old(db.clock)) ==> forall k :: 0 <= k < i ==> rets[k] == |bufs[k]|
      {
        var ret := Write(fh, bufs[i], files[fh].stSize, append);
        DeliveredMore(c, bufs, rets, ret);
        rets := rets + [ret];
        i := i + 1;
      }
      assert bufs[..i] == bufs;
      DeliveredAll(bufs, rets);
    }

    /** Data just appended is read back: a page-sized read after a successful write at the cached
        size returns its window of the old contents followed by the new data. */
    method AppendAndRead(fh: nat, buffer: seq<Byte>, buf: array<Byte>, offset: nat) returns (wrote: int, ret: int)
      requires Valid() && fh < FILES_OPEN_MAX && files[fh] != null && Agrees(files[fh])
      requires offset <= files[fh].stSize && offset % B + buf.Length <= B
      modifies db, files[fh], buf
      ensures Valid() && Agrees(files[fh])
      ensures db.Healthy(old(db.clock)) ==> wrote == |buffer| && ret != EIO
      ensures ret != OVERRUN
      ensures wrote != EIO && ret != EIO ==>
        var flat := old(Contents(db.tables, files[fh].id)) + buffer;
        ret == Min(buf.Length, |flat| - offset) && buf[..ret] == Window(flat, offset, buf.Length)
    {
      hide IsTree, Schema, Flat, WellFormed, Touched, Appended, Written, Known, Stored, ReadResult;
      wrote := Write(fh, buffer, files[fh].stSize, false);
      PageReadExact(Contents(db.tables, files[fh].id), offset, buf.Length);
      StoredRead(db.tables, files[fh].id, offset, ClampedSize(files[fh].stSize, buf.Length, offset));
      ret := Read(fh, buf, offset);
    }

    /** `myfs_create`: a new file is made and opened, empty and with an agreeing cached size. */
    method Create(path: string) returns (ret: int, fh: nat)
      requires Valid() && FusePath(path) && '/' in path
      modifies db, files
      ensures Valid()
      ensures ret != 0 ==> files[..] == old(files[..])
      ensures db.tables != old(db.tables) ==>
        CreateCode(old(db.tables.files), path) == 0 && db.tables == WithNode(old(db.tables), path, File)
      ensures ret == 0 ==> db.tables != old(db.tables)
      ensures db.Healthy(old(db.clock)) ==>
        && ret == NewFileCode(old(db.tables), AllInUse(old(files[..])), path)
        && (db.tables != old(db.tables) <==> CreateCode(old(db.tables.files), path) == 0)
        && (db.tables != old(db.tables) <==> PlaceFree(old(db.tables.files), path))
      ensures db.tables != old(db.tables) ==> NodeAdded(old(db.tables), db.tables, path, File)
      ensures old(db.clock) < db.clock
      ensures ret == 0 ==>
        && fh < FILES_OPEN_MAX && old(files[fh]) == null && files[fh] != null && fresh(files[fh])
        && (forall i :: 0 <= i < fh ==> old(files[i]) != null)
        && files[..] == old(files[..])[fh := files[fh]]
      ensures ret == 0 && SplitsWhole(path) ==>
        && CreateCode(old(db.tables.files), path) == 0
        && db.tables == WithNode(old(db.tables), path, File)
        && files[fh].id == old(db.tables.nextId)
        && Agrees(files[fh]) && Contents(db.tables, files[fh].id) == []
    {
      hide IsTree, Schema, Resolve, Tokens, KeyFree, SplitsWhole, WithNode, Flat, WellFormed, Truncated, DirName, BaseName,
        CanTruncate, Breaks, GetCode, PlaceFree, SizeCovered, LookupParent, Child, NodeAdded;
      CreateCodeMeaning(db.tables.files, path);
      ghost var t := db.tables;
      if CreateCode(t.files, path) == 0 { NodeDiffers(t, path); }
      var id;
      fh := 0;
      ret, id := MakeNode(db, path, File);
      if ret != 0 { return; }
      if SplitsWhole(path) { NodeFacts(t, path, File); }
      ret, fh := Open(path, false, false);
    }

    /** `myfs_symlink`: a node of its own kind whose contents are the target. A failed append
        leaves the empty node behind. */
    method Symlink(target: seq<Byte>, path: string) returns (ret: int)
      requires Valid() && FusePath(path) && '/' in path
      modifies db
      ensures Valid() && old(db.clock) < db.clock
      ensures ret != 0 && db.tables != old(db.tables) ==>
        CreateCode(old(db.tables.files), path) == 0 && db.tables == WithNode(old(db.tables), path, SoftLink)
      ensures ret == 0 ==>
        && CreateCode(old(db.tables.files), path) == 0
        && Appended(WithNode(old(db.tables), path, SoftLink), db.tables, old(db.tables.nextId), target)
      ensures db.Healthy(old(db.clock)) ==> ret == CreateCode(old(db.tables.files), path)
      ensures db.Healthy(old(db.clock)) ==> (ret == 0 <==> PlaceFree(old(db.tables.files), path))
      ensures ret == 0 ==> LinkAdded(old(db.tables), db.tables, path, target)
    {
      hide IsTree, Schema, Resolve, Tokens, KeyFree, LastSlash, Appended, BaseName, DirName, Flat, PlaceFree, OnlyFile,
        NodeAdded, LinkAdded, Breaks;
      var id;
      ghost var was := db.tables;
      CreateCodeMeaning(was.files, path);
      ret, id := MakeNode(db, path, SoftLink);
      if ret != 0 { return; }
      ghost var t := db.tables;
      var success := FileAppend(db, id, target);
      if !success { return EIO; }
      AppendKeepsPath(t, db.tables, id, target, path);
      LinkMade(was, t, db.tables, path, target);
      ret := 0;
    }

    /** `myfs_readlink`: the link's contents, cut to leave room for the terminating NUL, which
        stays inside the buffer unless the read overruns it. */
    method Readlink(path: string, buf: array<Byte>) returns (ret: int)
      requires Valid() && Absolute(path) && buf.Length < WORD
      modifies db, buf
      ensures Valid() && db.tables == old(db.tables)
      ensures ret == 0 ==> exists n :: 0 <= n < buf.Length && buf[n] == 0
      ensures ret == 0 ==>
        && Lookup(db.tables.files, path).Some?
        && var f := Lookup(db.tables.files, path).value;
           Good(db.tables, f) && ReadsExactly(Contents(db.tables, f), 0, buf.Length) ==>
             CutTo(buf[..], Contents(db.tables, f))
      ensures ret == OVERRUN ==> Lookup(db.tables.files, path).Some? && !LinkFits(db.tables, path, buf.Length)
      ensures db.Healthy(old(db.clock)) ==> ret == ReadlinkCode(db.tables, path, buf.Length)
      ensures db.Healthy(old(db.clock)) ==>
        (ret == 0 <==> Lookup(db.tables.files, path).Some? && ReadableLink(db.tables, Lookup(db.tables.files, path).value, buf.Length))
    {
      hide IsTree, Schema, Flat, WellFormed, Holds, Stored, Resolve, Tokens, Complete, ReadsExactly, ReadResult, Breaks;
      var file;
      ret, file := Get(db, path, false);
      if ret != 0 { return; }
      if file.value.kind != SoftLink { return EINVAL; }
      var f, size := file.value.id, buf.Length;
      ghost var exact := Good(db.tables, f) && ReadsExactly(Contents(db.tables, f), 0, size);
      if exact {
        StoredRead(db.tables, f, 0, size);
        LinkWindow(Contents(db.tables, f), size);
      }
      var count, overrun := FileRead(db, f, buf, size, 0);
      if overrun { return OVERRUN; }
      if count <= 0 { return EIO; }
      if exact {
        HoldsExactly(buf[..], Window(Contents(db.tables, f), 0, size));
      }
      ghost var now := buf[..];
      if count == size {
        count := count - 1;
      }
      buf[count] := 0;
      assert buf[..count] == now[..count];
      ret := 0;
    }

    /** The symlink round trip: what was linked is what is read back. */
    method LinkAndRead(target: seq<Byte>, path: string, buf: array<Byte>) returns (linked: int, ret: int)
      requires Valid() && FusePath(path) && '/' in path && buf.Length < WORD
      modifies db, buf
      ensures Valid()
      ensures linked == 0 && ret == 0 && SplitsWhole(path) && (buf.Length <= 2 * B || ReadsExactly(target, 0, buf.Length)) ==>
        CutTo(buf[..], target)
      ensures linked == 0 && db.Healthy(old(db.clock)) && SplitsWhole(path) ==>
        ret == if Overruns(buf.Length, |target|) then OVERRUN else if target == [] || buf.Length == 0 then EIO else 0
    {
      hide IsTree, Schema, Flat, WellFormed, Resolve, Tokens, KeyFree, SplitsWhole, Appended, DirName, BaseName, WithNode,
        Overruns, ReadsExactly, Stored, Breaks;
      ghost var t := db.tables;
      linked := Symlink(target, path);
      if linked != 0 { return linked, EIO; }
      ghost var v := WithNode(t, path, SoftLink);
      NodeSchema(t, path, SoftLink);
      if SplitsWhole(path) {
        NodeFacts(t, path, SoftLink);
        LinkStored(v, db.tables, t.nextId, target, path);
        StoredWithin(db.tables, t.nextId, buf.Length);
        StoredSome(db.tables, t.nextId, buf.Length);
        if buf.Length <= 2 * B { SmallRead(target, 0, buf.Length); }
      }
      ret := Readlink(path, buf);
    }
  }

  /** A link is added that holds the target; every other file keeps its row and its bytes. */
  ghost predicate LinkAdded(t: Tables, u: Tables, path: string, target: seq<Byte>)
    requires '/' in path
  {
    && LookupParent(t.files, path).Some?
    && u.files == t.files[t.nextId := FileRow(LookupParent(t.files, path).value, BaseName(path), SoftLink, |target|)]
    && Flat(RowsOf(u, t.nextId)) == target
    && forall x :: x in t.files ==> RowsOf(u, x) == RowsOf(t, x)
  }

  lemma LinkMade(was: Tables, t: Tables, u: Tables, path: string, target: seq<Byte>)
    requires Schema(was) && '/' in path && NodeAdded(was, t, path, SoftLink) && OnlyFile(t, u, was.nextId)
    requires var id := was.nextId;
      id in u.files && u.files[id].size == |target| && Flat(RowsOf(u, id)) == Flat(RowsOf(t, id)) + target
    ensures LinkAdded(was, u, path, target)
  {
    NextIdFree(was);
    SchemaKeys(was);
    hide Resolve, Tokens, BaseName, DirName, Schema, Lookup, LookupParent, Flat;
    SameButOne(t.files, u.files, was.nextId);
    SameButOne(t.data, u.data, was.nextId);
    FlatNone();
    assert RowsOf(t, was.nextId) == [] && [] + target == target;
  }

  lemma SameButOne<V>(m: map<nat, V>, n: map<nat, V>, k: nat)
    requires m.Keys == n.Keys && k in m && forall x :: x in m && x != k ==> n[x] == m[x]
    ensures n == m[k := n[k]]
  {
  }

  lemma NodeDiffers(t: Tables, path: string)
    requires '/' in path && CreateCode(t.files, path) == 0
    ensures LookupParent(t.files, path).Some? && WithNode(t, path, File) != t
  {
    assert WithNode(t, path, File).nextId != t.nextId;
  }

  lemma NodeSchema(t: Tables, path: string, kind: Kind)
    requires Schema(t) && IsTree(t.files) && FusePath(path) && '/' in path && CreateCode(t.files, path) == 0
    ensures Schema(WithNode(t, path, kind))
  {
    hide IsTree, Schema, Resolve, Tokens, KeyFree;
    DirFacts(path);
    LookupInFiles(t.files, DirName(path));
    NewFileKeepsSchema(t, LookupParent(t.files, path).value, BaseName(path), kind);
  }

  lemma LinkStored(v: Tables, u: Tables, f: nat, target: seq<Byte>, path: string)
    requires Schema(v) && Schema(u) && IsTree(v.files) && Appended(v, u, f, target)
    requires Good(v, f) && Contents(v, f) == [] && Lookup(v.files, path) == Some(f) && v.files[f].kind == SoftLink
    ensures Lookup(u.files, path) == Some(f) && Good(u, f) && Contents(u, f) == target && u.files[f].kind == SoftLink
  {
    hide IsTree, Schema, Resolve, Tokens;
    AppendKeepsPath(v, u, f, target, path);
    AppendEffect(v, u, f, target);
    assert [] + target == target;
  }

  /** Reading the whole link does not write past `size` bytes. */
  ghost predicate LinkFits(t: Tables, path: string, size: nat) {
    Lookup(t.files, path).Some? ==> |Stored(t, Lookup(t.files, path).value, 0, size)| <= size
  }

  /** Up to two blocks that holds of any rows, and beyond of all contents that do not overrun. */
  lemma StoredWithin(t: Tables, f: nat, size: nat)
    requires size < WORD
    ensures size <= 2 * B ==> |Stored(t, f, 0, size)| <= size
    ensures Good(t, f) ==> (|Stored(t, f, 0, size)| <= size <==> !Overruns(size, |Contents(t, f)|))
  {
    hide Good, Contents, Overruns;
    if size <= 2 * B { CopiedFits(RowsFrom(RowsOf(t, f), 0, BlockCount(size)), 0, size); }
    if Good(t, f) {
      StoredRead(t, f, 0, size);
      ReadOverruns(Contents(t, f), 0, size);
    }
  }

  ghost function ReadlinkCode(t: Tables, path: string, size: nat): int {
    match Lookup(t.files, path)
    case None => GetCode(t.files, path)
    case Some(f) =>
      if f in t.files && t.files[f].kind != SoftLink then EINVAL
      else if |Stored(t, f, 0, size)| > size then OVERRUN
      else if Stored(t, f, 0, size) == [] then EIO
      else 0
  }

  /** Something is read of every link that is not empty. */
  lemma StoredSome(t: Tables, f: nat, size: nat)
    requires Good(t, f)
    ensures Stored(t, f, 0, size) == [] <==> size == 0 || Contents(t, f) == []
  {
    hide Good, Contents;
    StoredRead(t, f, 0, size);
    var flat := Contents(t, f);
    SelectedBlocks(flat, 0, size);
    if size > 0 && flat != [] {
      CutAt(flat, 0);
      CopiedStart(RowsFrom(Cut(flat), 0, BlockCount(size)), 0, size);
    } else {
      assert RowsFrom(Cut(flat), 0, BlockCount(size)) == [];
    }
  }

  lemma LinkWindow(c: seq<Byte>, size: nat)
    ensures ReadsExactly(c, 0, size) ==> ReadResult(c, 0, size) == Exactly(Window(c, 0, size))
    ensures |Window(c, 0, size)| == Min(size, |c|) && Window(c, 0, size) == c[..Min(size, |c|)]
  {
  }
}
