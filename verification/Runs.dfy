/** Whole runs of namespace callbacks, and the path round trip that holds after each of them. */
module Runs {
  import opened Blocks
  import opened Database
  import opened Append
  import opened Truncate
  import opened Tree
  import opened Paths
  import opened Namespace
  import opened Session

  // ------------------------------------------------------------ paths

  lemma {:induction false} NamePathValid(files: Files, x: nat)
    requires IsTree(files) && x in files
    ensures forall i :: 0 <= i < |NamePath(files, x)| ==> ValidName(NamePath(files, x)[i])
    decreases Depth(files, x)
  {
    hide IsTree, NamePath, Depth;
    if x == ROOT {
      RootPath(files);
    } else {
      TreeRow(files, x);
      NamePathParent(files, x);
      DepthParent(files, x);
      NamePathValid(files, files[x].parent);
    }
  }

  /** The path round trip: joining the names on a node's way from the root and looking the
      result up leads back to the node. */
  lemma PathRoundTrip(files: Files, x: nat)
    requires IsTree(files) && x in files
    ensures Lookup(files, Join(NamePath(files, x))) == Some(x)
  {
    hide IsTree, NamePath, Tokens, Join;
    NamePathValid(files, x);
    TokensOfJoin(NamePath(files, x));
    NamePathResolves(files, x);
  }

  /** More separators anywhere in a path make no difference to where it leads. */
  lemma SeparatorsDoNotMatter(files: Files, a: string, b: string)
    ensures Lookup(files, a + "//" + b) == Lookup(files, a + "/" + b)
    ensures Lookup(files, "/" + b) == Lookup(files, b) && Lookup(files, a + "/") == Lookup(files, a)
  {
    ExtraSeparators(a, b);
  }

  // ------------------------------------------------------------ runs

  datatype Call =
    | MkdirCall(path: string)
    | CreateCall(path: string)
    | SymlinkCall(target: seq<Byte>, path: string)
    | UnlinkCall(path: string)
    | RmdirCall(path: string)
    | MoveCall(from: string, to: string)
    | SwapCall(from: string, to: string)
    | OpenCall(path: string, dir: bool, truncate: bool)
    | ReleaseCall(fh: nat)

  /** What a call returns: its result code, and the handle of a file that was opened. */
  datatype Answer = Answer(ret: int, fh: nat)

  /** The state between calls: the tables, and the handles in use. */
  datatype World = World(tables: Tables, held: set<nat>)

  /** The kernel does not rename the root, nor move a directory to a place below itself. */
  predicate MoveGuard(from: string, to: string)
    requires '/' in to
  {
    Tokens(from) != [] && !(Tokens(from) <= Tokens(DirName(to)))
  }

  /** The kernel exchanges neither the root nor a path with one below it. */
  predicate SwapGuard(from: string, to: string) {
    var a, b := Tokens(from), Tokens(to);
    a != [] && b != [] && (a == b || (!(a <= b) && !(b <= a)))
  }

  /** The kernel also releases only what is open. */
  predicate KernelSends(held: set<nat>, call: Call) {
    match call
    case MkdirCall(path) => FusePath(path)
    case CreateCall(path) => FusePath(path)
    case SymlinkCall(target, path) => FusePath(path)
    case UnlinkCall(path) => Absolute(path)
    case RmdirCall(path) => Absolute(path)
    case MoveCall(from, to) => Absolute(from) && FusePath(to) && '/' in to && MoveGuard(from, to)
    case SwapCall(from, to) => Absolute(from) && Absolute(to) && SwapGuard(from, to)
    case OpenCall(path, dir, truncate) => Absolute(path)
    case ReleaseCall(fh) => fh in held
  }

  lemma RootTokens(files: Files, path: string)
    requires IsTree(files) && Absolute(path) && Lookup(files, path) == Some(ROOT)
    ensures Tokens(path) == []
  {
    hide IsTree, Resolve, Tokens, NamePath;
    LookupInFiles(files, path);
    RootPath(files);
  }

  /** The guard on the strings is the guard on the tree. */
  lemma MoveGuardAllows(files: Files, from: string, to: string)
    requires IsTree(files) && Absolute(from) && FusePath(to) && '/' in to
    requires Lookup(files, from).Some? && LookupParent(files, to).Some?
    ensures MoveGuard(from, to) <==>
      Lookup(files, from).value != ROOT && !Below(files, Lookup(files, from).value, LookupParent(files, to).value)
  {
    hide IsTree, Resolve, Tokens, NamePath, DirName, Below;
    DirFacts(to);
    LookupInFiles(files, from);
    LookupInFiles(files, DirName(to));
    RootPath(files);
    BelowIsPrefix(files, Lookup(files, from).value, LookupParent(files, to).value);
    if Lookup(files, from).value == ROOT { RootTokens(files, from); }
    if Tokens(from) == [] { NamePathResolves(files, Lookup(files, from).value); }
  }

  lemma SwapGuardAllows(files: Files, from: string, to: string)
    requires IsTree(files) && Absolute(from) && Absolute(to)
    ensures SwapGuard(from, to) ==> SwapAllowed(files, from, to)
    ensures Lookup(files, from).Some? && Lookup(files, to).Some? ==> (SwapGuard(from, to) <==> SwapAllowed(files, from, to))
  {
    hide IsTree, Resolve, Tokens, NamePath, Below;
    if Lookup(files, from).Some? && Lookup(files, to).Some? {
      var f, g := Lookup(files, from).value, Lookup(files, to).value;
      LookupInFiles(files, from);
      LookupInFiles(files, to);
      RootPath(files);
      if f == ROOT { RootTokens(files, from); }
      if g == ROOT { RootTokens(files, to); }
      BelowIsPrefix(files, f, g);
      BelowIsPrefix(files, g, f);
      NamePathResolves(files, f);
      NamePathResolves(files, g);
    }
  }

  /** A run leaves out no call but those the kernel's checks stop: on the root, on a place below
      itself, on a handle that is not open. */
  lemma EverythingSent(held: set<nat>, path: string, other: string, target: seq<Byte>, dir: bool, truncate: bool)
    requires FusePath(path) && '/' in path && Absolute(other)
    ensures KernelSends(held, MkdirCall(path)) && KernelSends(held, CreateCall(path))
    ensures KernelSends(held, SymlinkCall(target, path)) && KernelSends(held, OpenCall(other, dir, truncate))
    ensures KernelSends(held, UnlinkCall(other)) && KernelSends(held, RmdirCall(other))
    ensures KernelSends(held, MoveCall(other, path)) <==>
      Tokens(other) != [] && !(Tokens(other) <= Tokens(DirName(path)))
    ensures KernelSends(held, SwapCall(other, path)) <==>
      && Tokens(other) != [] && Tokens(path) != []
      && (Tokens(other) == Tokens(path) || (!(Tokens(other) <= Tokens(path)) && !(Tokens(path) <= Tokens(other))))
    ensures forall fh: nat :: KernelSends(held, ReleaseCall(fh)) <==> fh in held
  {
    hide Tokens, DirName;
  }

  // ------------------------------------------------------------ handles

  ghost function InUse(files: seq<OpenFile?>): set<nat> {
    set i | 0 <= i < |files| && files[i] != null
  }

  function UpTo(n: nat): set<nat> {
    if n == 0 then {} else UpTo(n - 1) + {n - 1}
  }

  lemma {:induction false} CountUpTo(n: nat)
    ensures |UpTo(n)| == n
    ensures forall i: nat :: i in UpTo(n) <==> i < n
  {
    if n > 0 { CountUpTo(n - 1); }
  }

  lemma SubsetFull(a: set<nat>, b: set<nat>)
    requires a <= b && |a| == |b|
    ensures a == b
  {
    assert b == a + (b - a);
  }

  /** Every handle is taken exactly when as many are in use as there are. */
  lemma FullCount(files: seq<OpenFile?>)
    ensures AllInUse(files) <==> |InUse(files)| == |files|
  {
    var all := UpTo(|files|);
    CountUpTo(|files|);
    if AllInUse(files) {
      assert InUse(files) == all;
    }
    if |InUse(files)| == |files| {
      SubsetFull(InUse(files), all);
      forall i | 0 <= i < |files|
        ensures files[i] != null
      {
        assert i in all;
      }
    }
  }

  predicate Opens(call: Call) {
    call.CreateCall? || call.OpenCall?
  }

  /** The handles in use after a call: a successful open takes one, a release gives one back. */
  function NextHeld(held: set<nat>, call: Call, a: Answer): set<nat> {
    if a.ret != 0 then held
    else if Opens(call) then held + {a.fh}
    else if call.ReleaseCall? then held - {call.fh}
    else held
  }

  /** How many more handles have been opened than released. */
  function Balance(calls: seq<Call>, answers: seq<Answer>): int
    requires |calls| == |answers|
  {
    if calls == [] then 0
    else
      var n := |calls| - 1;
      Balance(calls[..n], answers[..n])
      + if answers[n].ret != 0 then 0 else if Opens(calls[n]) then 1 else if calls[n].ReleaseCall? then -1 else 0
  }

  lemma BalancePush(calls: seq<Call>, answers: seq<Answer>, call: Call, a: Answer)
    requires |calls| == |answers|
    ensures Balance(calls + [call], answers + [a]) == Balance(calls, answers)
      + if a.ret != 0 then 0 else if Opens(call) then 1 else if call.ReleaseCall? then -1 else 0
  {
    assert (calls + [call])[..|calls|] == calls && (answers + [a])[..|answers|] == answers;
  }

  // ------------------------------------------------------------ one call

  /** A new node at `path`, if its key is free. */
  ghost predicate Made(t: Tables, u: Tables, path: string, kind: Kind)
    requires '/' in path
  {
    CreateCode(t.files, path) == 0 && u == WithNode(t, path, kind)
  }

  /** What a call may make of the tables, by its result code: on success the whole effect, on
      failure nothing, except that `create` and `symlink` may leave the node behind. */
  ghost predicate Effect(t: Tables, u: Tables, call: Call, ret: int) {
    match call
    case MkdirCall(path) => '/' in path && if ret == 0 then Made(t, u, path, Directory) else u == t
    case CreateCall(path) => '/' in path && (Made(t, u, path, File) || (ret != 0 && u == t))
    case SymlinkCall(target, path) => '/' in path &&
      if ret == 0 then CreateCode(t.files, path) == 0 && Appended(WithNode(t, path, SoftLink), u, t.nextId, target)
      else u == t || Made(t, u, path, SoftLink)
    case UnlinkCall(path) =>
      if ret == 0 then UnlinkCode(t.files, path) == 0 && u == Without(t, Lookup(t.files, path).value) else u == t
    case RmdirCall(path) =>
      if ret == 0 then RmdirCode(t.files, path) == 0 && u == Without(t, Lookup(t.files, path).value) else u == t
    case MoveCall(from, to) => '/' in to && if ret == 0 then MovedTo(t, u, from, to) else u == t
    case SwapCall(from, to) => if ret == 0 then SwappedTo(t, u, from, to) else u == t
    case OpenCall(path, dir, truncate) =>
      if ret == 0 && !dir && truncate then Emptied(t, u, path) else u == t
    case ReleaseCall(_) => u == t && ret == 0
  }

  ghost predicate Emptied(t: Tables, u: Tables, path: string) {
    Lookup(t.files, path).Some? && Truncated(t, u, Lookup(t.files, path).value, 0)
  }

  /** The result code when no query fails; `full` says that every handle is taken. */
  ghost function Code(t: Tables, full: bool, held: set<nat>, call: Call): int
    requires KernelSends(held, call)
  {
    match call
    case MkdirCall(path) => FuseHasSlash(path); CreateCode(t.files, path)
    case CreateCall(path) => FuseHasSlash(path); NewFileCode(t, full, path)
    case SymlinkCall(target, path) => FuseHasSlash(path); CreateCode(t.files, path)
    case UnlinkCall(path) => UnlinkCode(t.files, path)
    case RmdirCall(path) => RmdirCode(t.files, path)
    case MoveCall(from, to) => DirFacts(to); MoveCode(t.files, from, to)
    case SwapCall(from, to) => SwapCode(t.files, from, to)
    case OpenCall(path, dir, truncate) => OpenCode(t, full, path, !dir && truncate)
    case ReleaseCall(_) => 0
  }

  /** The node of a `create` is made whenever its key is free, whatever the code. */
  ghost predicate CreatesAnyway(t: Tables, u: Tables, call: Call) {
    call.CreateCall? && '/' in call.path && CreateCode(t.files, call.path) == 0 ==> u != t
  }

  lemma FuseHasSlash(path: string)
    requires FusePath(path)
    ensures '/' in path
  {
    assert path[0] in path;
  }

  /** The handle a successful open returns: the first that is free. */
  ghost predicate FirstFree(held: set<nat>, call: Call, a: Answer) {
    Opens(call) && a.ret == 0 ==>
      a.fh < FILES_OPEN_MAX && a.fh !in held && forall i: nat :: i < a.fh ==> i in held
  }

  /** One call, whatever fails: its effect on tables and handles, and when handles run out. */
  ghost predicate Follow(w: World, v: World, call: Call, a: Answer) {
    if KernelSends(w.held, call) then
      && Effect(w.tables, v.tables, call, a.ret)
      && v.held == NextHeld(w.held, call, a) && FirstFree(w.held, call, a)
      && (call.OpenCall? ==> (a.ret == EMFILE <==> |w.held| == FILES_OPEN_MAX))
    else v == w && a.ret == EINVAL
  }

  /** One call without faults: the code follows from the state before it. */
  ghost predicate Answered(w: World, v: World, call: Call, a: Answer) {
    KernelSends(w.held, call) ==>
      && a.ret == Code(w.tables, |w.held| == FILES_OPEN_MAX, w.held, call)
      && CreatesAnyway(w.tables, v.tables, call)
  }

  ghost function WorldOf(fs: MyFs): World
    reads fs, fs.db, fs.files
  {
    World(fs.db.tables, InUse(fs.files[..]))
  }

  method Perform(fs: MyFs, call: Call) returns (a: Answer)
    requires fs.Valid() && KernelSends(WorldOf(fs).held, call)
    modifies fs.db, fs.files
    ensures fs.Valid() && old(fs.db.clock) <= fs.db.clock
    ensures Follow(old(WorldOf(fs)), WorldOf(fs), call, a)
    ensures fs.db.Healthy(old(fs.db.clock)) ==> Answered(old(WorldOf(fs)), WorldOf(fs), call, a)
  {
    hide IsTree, Schema, Resolve, Tokens, MoveGuard, SwapGuard, SwapAllowed, CreateCode, UnlinkCode, RmdirCode,
      MoveCode, SwapCode, WithNode, MovedTo, SwappedTo, Without, DirName, BaseName, LookupParent, Lookup, Below, Appended,
      NewFileCode, OpenCode, AllInUse, InUse, Truncated, NextHeld, FirstFree, PlaceFree,
      NodeAdded, LinkAdded, CanBeMoved, CanBeSwapped, OnlyParents, Exchanged, FullDirectory, SizeCovered;
    ghost var was := fs.files[..];
    FullCount(was);
    var ret, fh := 0, 0;
    match call {
      case MkdirCall(path) => DirFacts(path); ret := Mkdir(fs.db, path);
      case CreateCall(path) => DirFacts(path); ret, fh := fs.Create(path);
      case SymlinkCall(target, path) => DirFacts(path); ret := fs.Symlink(target, path);
      case UnlinkCall(path) => ret := Unlink(fs.db, path);
      case RmdirCall(path) => ret := Rmdir(fs.db, path);
      case MoveCall(from, to) =>
        if Lookup(fs.db.tables.files, from).Some? && LookupParent(fs.db.tables.files, to).Some? {
          MoveGuardAllows(fs.db.tables.files, from, to);
        }
        ret := Rename(fs.db, from, to, RENAME_NOREPLACE);
      case SwapCall(from, to) =>
        SwapGuardAllows(fs.db.tables.files, from, to);
        ret := RenameSwap(fs.db, from, to);
      case OpenCall(path, dir, truncate) => ret, fh := fs.Open(path, dir, truncate);
      case ReleaseCall(h) =>
        InUseAt(was, h);
        fs.Release(h);
    }
    a := Answer(ret, fh);
    HandlesNow(was, fs.files[..], call, a);
  }

  lemma InUseAt(files: seq<OpenFile?>, fh: nat)
    requires fh in InUse(files)
    ensures fh < |files| && files[fh] != null
  {
  }

  lemma HandlesNow(was: seq<OpenFile?>, now: seq<OpenFile?>, call: Call, a: Answer)
    requires |was| == |now| == FILES_OPEN_MAX
    requires if a.ret == 0 && Opens(call) then
        a.fh < |was| && was[a.fh] == null && now[a.fh] != null && now == was[a.fh := now[a.fh]]
        && forall i :: 0 <= i < a.fh ==> was[i] != null
      else if a.ret == 0 && call.ReleaseCall? then call.fh < |was| && now == was[call.fh := null]
      else now == was
    ensures InUse(now) == NextHeld(InUse(was), call, a) && FirstFree(InUse(was), call, a)
  {
  }

  // ------------------------------------------------------------ runs of calls

  /** Runs can start: the table that holds the root alone is a tree. */
  lemma FreshTables()
    ensures var t := Tables(map[ROOT := FileRow(ROOT, "", Directory, 0)], map[ROOT := []], 1);
      Schema(t) && IsTree(t.files)
  {
    var files: Files := map[ROOT := FileRow(ROOT, "", Directory, 0)];
    assert Anc(files, ROOT, 0) == ROOT;
  }

  /** The run took the state through `trace`, one call after the other; a call the kernel does not
      send is refused. */
  ghost predicate Follows(trace: seq<World>, calls: seq<Call>, answers: seq<Answer>) {
    && |trace| == |calls| + 1 && |answers| == |calls|
    && forall i :: 0 <= i < |calls| ==> Follow(trace[i], trace[i + 1], calls[i], answers[i])
  }

  ghost predicate AllAnswered(trace: seq<World>, calls: seq<Call>, answers: seq<Answer>)
    requires |trace| == |calls| + 1 && |answers| == |calls|
  {
    forall i :: 0 <= i < |calls| ==> Answered(trace[i], trace[i + 1], calls[i], answers[i])
  }

  /** At every moment as many handles are in use as the balance of the calls before says. */
  ghost predicate Counted(trace: seq<World>, calls: seq<Call>, answers: seq<Answer>)
    requires |trace| == |calls| + 1 && |answers| == |calls|
  {
    forall i :: 0 <= i < |trace| ==> |trace[i].held| == |trace[0].held| + Balance(calls[..i], answers[..i])
  }

  lemma FollowsMore(trace: seq<World>, calls: seq<Call>, answers: seq<Answer>, v: World, call: Call, a: Answer)
    requires Follows(trace, calls, answers) && Follow(trace[|calls|], v, call, a)
    ensures Follows(trace + [v], calls + [call], answers + [a])
    ensures AllAnswered(trace, calls, answers) && Answered(trace[|calls|], v, call, a) ==>
      AllAnswered(trace + [v], calls + [call], answers + [a])
  {
    hide Follow, Answered;
    var vs, cs, rs := trace + [v], calls + [call], answers + [a];
    forall i | 0 <= i < |cs|
      ensures Follow(vs[i], vs[i + 1], cs[i], rs[i])
      ensures AllAnswered(trace, calls, answers) && Answered(trace[|calls|], v, call, a) ==>
        Answered(vs[i], vs[i + 1], cs[i], rs[i])
    {
      if i < |calls| { assert vs[i] == trace[i] && vs[i + 1] == trace[i + 1]; }
    }
  }

  lemma HeldChange(w: World, v: World, call: Call, a: Answer)
    requires Follow(w, v, call, a)
    ensures |v.held| == |w.held|
      + if a.ret != 0 then 0 else if Opens(call) then 1 else if call.ReleaseCall? then -1 else 0
  {
    hide Effect;
    if call.ReleaseCall? && KernelSends(w.held, call) {
      assert w.held == v.held + {call.fh};
    }
  }

  lemma CountedMore(trace: seq<World>, calls: seq<Call>, answers: seq<Answer>, v: World, call: Call, a: Answer)
    requires Follows(trace, calls, answers) && Counted(trace, calls, answers) && Follow(trace[|calls|], v, call, a)
    ensures Counted(trace + [v], calls + [call], answers + [a])
  {
    hide Follow, Balance;
    HeldChange(trace[|calls|], v, call, a);
    BalancePush(calls, answers, call, a);
    var vs, cs, rs := trace + [v], calls + [call], answers + [a];
    assert calls[..|calls|] == calls && answers[..|calls|] == answers;
    assert cs[..|cs|] == cs && rs[..|cs|] == rs;
    forall i | 0 <= i < |vs|
      ensures |vs[i].held| == |vs[0].held| + Balance(cs[..i], rs[..i])
    {
      if i <= |calls| { assert cs[..i] == calls[..i] && rs[..i] == answers[..i]; }
    }
  }

  /** Every run of calls, whatever fails on the way, is a sequence of the calls' effects and leaves
      a tree in which each node is reached by its own path. Handles run out exactly when all have
      been opened and not released. A crash ends the run. */
  method Run(fs: MyFs, calls: seq<Call>) returns (answers: seq<Answer>, ghost trace: seq<World>)
    requires fs.Valid()
    modifies fs.db, fs.files
    ensures fs.Valid() && |answers| <= |calls|
    ensures |answers| < |calls| ==> answers != [] && answers[|answers| - 1].ret == CRASH
    ensures Follows(trace, calls[..|answers|], answers) && Counted(trace, calls[..|answers|], answers)
    ensures trace[0] == old(WorldOf(fs)) && trace[|answers|] == WorldOf(fs)
    ensures fs.db.Healthy(old(fs.db.clock)) ==> AllAnswered(trace, calls[..|answers|], answers)
    ensures forall i :: 0 <= i < |trace| ==> Schema(trace[i].tables) && IsTree(trace[i].tables.files)
    ensures forall x :: x in fs.db.tables.files ==> Lookup(fs.db.tables.files, Join(NamePath(fs.db.tables.files, x))) == Some(x)
  {
    hide IsTree, Schema, Lookup, Join, NamePath, KernelSends, Effect, Code, Follow, Answered, InUse, Balance;
    answers, trace := [], [WorldOf(fs)];
    var i := 0;
    NothingCounted(trace);
    while i < |calls|
      invariant 0 <= i <= |calls| && fs.Valid() && old(fs.db.clock) <= fs.db.clock
      invariant Follows(trace, calls[..i], answers) && Counted(trace, calls[..i], answers)
      invariant trace[0] == old(WorldOf(fs)) && trace[i] == WorldOf(fs)
      invariant fs.db.Healthy(old(fs.db.clock)) ==> AllAnswered(trace, calls[..i], answers)
      invariant forall k :: 0 <= k < |trace| ==> Schema(trace[k].tables) && IsTree(trace[k].tables.files)
    {
      var a := Answer(EINVAL, 0);
      ghost var w := WorldOf(fs);
      var sent := Sendable(fs, calls[i]);
      if sent {
        a := Perform(fs, calls[i]);
      } else {
        Refused(w, calls[i], a);
      }
      TakeNext(calls, i);
      FollowsMore(trace, calls[..i], answers, WorldOf(fs), calls[i], a);
      CountedMore(trace, calls[..i], answers, WorldOf(fs), calls[i], a);
      answers := answers + [a];
      trace := trace + [WorldOf(fs)];
      i := i + 1;
      if a.ret == CRASH { break; }
    }
    forall x | x in fs.db.tables.files
      ensures Lookup(fs.db.tables.files, Join(NamePath(fs.db.tables.files, x))) == Some(x)
    {
      PathRoundTrip(fs.db.tables.files, x);
    }
  }

  /** The kernel's view of the handles is the table's. */
  method Sendable(fs: MyFs, call: Call) returns (sent: bool)
    requires fs.Valid()
    ensures sent <==> KernelSends(WorldOf(fs).held, call)
  {
    hide IsTree, Schema;
    var held := {};
    if call.ReleaseCall? && call.fh < FILES_OPEN_MAX && fs.files[call.fh] != null {
      held := {call.fh};
    }
    sent := KernelSends(held, call);
  }

  lemma NothingCounted(trace: seq<World>)
    requires |trace| == 1
    ensures Counted(trace, [], []) && AllAnswered(trace, [], [])
  {
  }

  lemma Refused(w: World, call: Call, a: Answer)
    requires !KernelSends(w.held, call) && a.ret == EINVAL
    ensures Follow(w, w, call, a) && Answered(w, w, call, a)
  {
  }

  lemma TakeNext(calls: seq<Call>, i: nat)
    requires i < |calls|
    ensures calls[..i] + [calls[i]] == calls[..i + 1]
  {
  }
}
