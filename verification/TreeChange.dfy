/** What the statements on `files` do to the tree: creation, cascading deletion, moving a
    subtree and exchanging two parents. */
module TreeChange {
  import opened Database
  import opened Tree

  /** The two tables have the same rows and parents, except perhaps for `f`. */
  ghost predicate AgreeOff(files: Files, fs: Files, f: nat) {
    && files.Keys - {f} == fs.Keys - {f}
    && forall x {:trigger files[x].parent} {:trigger fs[x].parent} ::
         x != f && x in files && x in fs ==> files[x].parent == fs[x].parent
  }

  /** Chains that do not pass through `f` are the same in both tables. */
  lemma {:induction false} AncSame(files: Files, fs: Files, f: nat, x: nat, k: nat)
    requires AgreeOff(files, fs, f) && !Below(files, f, x)
    ensures Anc(fs, x, k) == Anc(files, x, k)
    decreases k
  {
    BelowSelf(files, f);
    assert x in files.Keys - {f} <==> x in fs.Keys - {f};
    if k > 0 && x in files {
      BelowParent(files, f, x);
      AncSame(files, fs, f, files[x].parent, k - 1);
    }
  }

  lemma BelowSame(files: Files, fs: Files, f: nat, a: nat, x: nat)
    requires AgreeOff(files, fs, f) && !Below(files, f, x)
    ensures Below(files, a, x) <==> Below(fs, a, x)
  {
    if k: nat :| Anc(files, x, k) == a { AncSame(files, fs, f, x, k); }
    if k: nat :| Anc(fs, x, k) == a { AncSame(files, fs, f, x, k); }
  }

  lemma NotBelowRoot(files: Files, f: nat)
    requires Names(files) && f != ROOT
    ensures !Below(files, f, ROOT)
  {
    if k: nat :| Anc(files, ROOT, k) == f { AncOfRoot(files, k); }
  }

  ghost predicate Trap(files: Files, s: set<nat>) {
    && s <= files.Keys && ROOT !in s
    && forall y {:trigger files[y].parent} :: y in s ==> files[y].parent in s
  }

  /** A set of nodes closed under parents and without the root keeps its members from the root. */
  lemma {:induction false} TrappedAnc(files: Files, s: set<nat>, x: nat, k: nat)
    requires x in s && Trap(files, s)
    ensures Anc(files, x, k) in s
    decreases k
  {
    if k > 0 { TrappedAnc(files, s, files[x].parent, k - 1); }
  }

  lemma TrappedNotRooted(files: Files, s: set<nat>, x: nat)
    requires x in s && Trap(files, s)
    ensures !Below(files, ROOT, x) && !IsTree(files)
  {
    if k: nat :| Anc(files, x, k) == ROOT { TrappedAnc(files, s, x, k); }
  }

  // ------------------------------------------------------------ moving a subtree

  function Moved(files: Files, f: nat, parent: nat, name: string): Files
    requires f in files
  {
    files[f := files[f].(parent := parent, name := name)]
  }

  lemma MovedAgrees(files: Files, f: nat, parent: nat, name: string)
    requires f in files
    ensures AgreeOff(files, Moved(files, f, parent, name), f)
  {
    assert files.Keys - {f} == Moved(files, f, parent, name).Keys - {f};
  }

  lemma {:induction false} MovedRooted(files: Files, f: nat, parent: nat, name: string, x: nat)
    requires IsTree(files) && f in files && f != ROOT && parent in files && x in files
    requires !Below(files, f, parent)
    ensures Below(Moved(files, f, parent, name), ROOT, x)
    decreases Depth(files, x)
  {
    hide IsTree, Depth;
    TreeFacts(files, x);
    TreeFacts(files, parent);
    var fs := Moved(files, f, parent, name);
    MovedAgrees(files, f, parent, name);
    if !Below(files, f, x) {
      BelowSame(files, fs, f, ROOT, x);
    } else if x == f {
      BelowSame(files, fs, f, ROOT, parent);
      BelowParent(fs, ROOT, f);
    } else {
      NotBelowRoot(files, f);
      BelowParent(files, f, x);
      DepthParent(files, x);
      MovedRooted(files, f, parent, name, files[x].parent);
      BelowParent(fs, ROOT, x);
    }
  }

  lemma TreeFacts(files: Files, x: nat)
    requires IsTree(files) && x in files
    ensures Names(files) && Below(files, ROOT, x) && files[x].parent in files
  {
  }

  /** Moving a subtree keeps the tree if and only if the new parent lies outside it. */
  lemma MoveKeepsTree(files: Files, f: nat, parent: nat, name: string)
    requires IsTree(files) && f in files && f != ROOT && parent in files
    requires ValidName(name) && KeyFree(files, parent, name, Some(f))
    ensures IsTree(Moved(files, f, parent, name)) <==> !Below(files, f, parent)
  {
    var fs := Moved(files, f, parent, name);
    if Below(files, f, parent) {
      var s := set x | x in files && Below(files, f, x);
      BelowSelf(files, f);
      NotBelowRoot(files, f);
      forall y {:trigger fs[y].parent} | y in s
        ensures fs[y].parent in s
      {
        if y != f {
          BelowParent(files, f, y);
          TreeFacts(files, y);
        }
      }
      TrappedNotRooted(fs, s, f);
    } else {
      RowKeepsKeys(files, f, files[f].(parent := parent, name := name));
      forall x | x in fs
        ensures Below(fs, ROOT, x)
      {
        MovedRooted(files, f, parent, name, x);
      }
      assert Names(fs);
    }
  }

  /** After a move, the paths outside the subtree are unchanged and those inside have the old
      prefix replaced by the new one. */
  lemma {:induction false} MovePaths(files: Files, f: nat, parent: nat, name: string, x: nat)
    requires IsTree(files) && f in files && f != ROOT && parent in files && x in files
    requires IsTree(Moved(files, f, parent, name)) && !Below(files, f, parent)
    ensures var fs := Moved(files, f, parent, name);
      if !Below(files, f, x) then NamePath(fs, x) == NamePath(files, x)
      else
        && NamePath(files, f) <= NamePath(files, x)
        && NamePath(fs, x) == NamePath(files, parent) + [name] + NamePath(files, x)[|NamePath(files, f)|..]
    decreases Depth(files, x)
  {
    hide IsTree, NamePath, Depth;
    var fs := Moved(files, f, parent, name);
    BelowIsPrefix(files, f, x);
    BelowSelf(files, f);
    if x == ROOT {
      TreeFacts(files, x);
      NotBelowRoot(files, f);
      RootPath(files);
      RootPath(fs);
    } else if x == f {
      assert fs[f].parent == parent && fs[f].name == name;
      NamePathParent(fs, f);
      MovePathsOutside(files, f, parent, name, parent);
    } else {
      NamePathParent(files, x);
      NamePathParent(fs, x);
      DepthParent(files, x);
      BelowParent(files, f, x);
      MovePaths(files, f, parent, name, files[x].parent);
    }
  }

  lemma {:induction false} MovePathsOutside(files: Files, f: nat, parent: nat, name: string, x: nat)
    requires IsTree(files) && f in files && x in files && f != ROOT
    requires IsTree(Moved(files, f, parent, name)) && !Below(files, f, x)
    ensures NamePath(Moved(files, f, parent, name), x) == NamePath(files, x)
    decreases Depth(files, x)
  {
    hide IsTree, NamePath, Depth;
    var fs := Moved(files, f, parent, name);
    if x == ROOT {
      RootPath(files);
      RootPath(fs);
    } else {
      BelowSelf(files, f);
      NamePathParent(files, x);
      NamePathParent(fs, x);
      DepthParent(files, x);
      BelowParent(files, f, x);
      MovePathsOutside(files, f, parent, name, files[x].parent);
    }
  }

  lemma {:induction false} PrefixResolves(files: Files, names: seq<string>, k: nat)
    requires k <= |names| && Resolve(files, names).Some?
    ensures Resolve(files, names[..k]).Some?
    decreases |names|
  {
    if k < |names| {
      assert names[..|names| - 1][..k] == names[..k];
      PrefixResolves(files, names[..|names| - 1], k);
    } else {
      assert names[..k] == names;
    }
  }

  /** Under a free key, a resolving path can only start with the new prefix if it starts with
      the old one. */
  lemma NewPrefixIsOld(files: Files, f: nat, parent: nat, name: string, names: seq<string>)
    requires IsTree(files) && f in files && parent in files && KeyFree(files, parent, name, Some(f))
    requires Resolve(files, names).Some? && NamePath(files, parent) + [name] <= names && ProperNames(names)
    ensures NamePath(files, f) == NamePath(files, parent) + [name]
  {
    hide IsTree, NamePath, KeyFree;
    var q := NamePath(files, parent) + [name];
    assert names[..|q|] == q;
    PrefixResolves(files, names, |q|);
    NamePathResolves(files, parent);
    ResolveLast(files, NamePath(files, parent), name);
    ChildIsF(files, parent, name, f);
    ResolveIff(files, q, f);
  }

  lemma ChildIsF(files: Files, parent: nat, name: string, f: nat)
    requires KeyFree(files, parent, name, Some(f)) && Child(files, parent, name).Some?
    ensures Child(files, parent, name) == Some(f)
  {
  }

  /** Where a path leads after the move, in terms of where paths led before. */
  ghost function AfterMove(files: Files, f: nat, parent: nat, name: string, names: seq<string>): Option<nat>
    requires IsTree(files) && f in files && parent in files
  {
    var old', new' := NamePath(files, f), NamePath(files, parent) + [name];
    if new' <= names then Resolve(files, old' + names[|new'|..])
    else if old' <= names then None
    else Resolve(files, names)
  }

  ghost predicate CanMove(files: Files, f: nat, parent: nat, name: string) {
    && IsTree(files) && f in files && f != ROOT && parent in files
    && ValidName(name) && KeyFree(files, parent, name, Some(f)) && !Below(files, f, parent)
  }

  lemma MoveReaches(files: Files, f: nat, parent: nat, name: string, names: seq<string>, x: nat)
    requires CanMove(files, f, parent, name) && ProperNames(names)
    requires IsTree(Moved(files, f, parent, name))
    requires Resolve(Moved(files, f, parent, name), names) == Some(x)
    ensures AfterMove(files, f, parent, name, names) == Some(x)
  {
    hide IsTree, NamePath, KeyFree, Resolve, Below;
    var fs := Moved(files, f, parent, name);
    var old', new' := NamePath(files, f), NamePath(files, parent) + [name];
    ResolveIff(fs, names, x);
    MovePaths(files, f, parent, name, x);
    BelowIsPrefix(files, f, x);
    NamePathResolves(files, x);
    if Below(files, f, x) {
      assert names == new' + NamePath(files, x)[|old'|..];
      assert NamePath(files, x) == old' + names[|new'|..];
    } else if new' <= names {
      NewPrefixIsOld(files, f, parent, name, names);
    }
  }

  lemma MoveReached(files: Files, f: nat, parent: nat, name: string, names: seq<string>, x: nat)
    requires CanMove(files, f, parent, name) && ProperNames(names)
    requires IsTree(Moved(files, f, parent, name))
    requires AfterMove(files, f, parent, name, names) == Some(x)
    ensures Resolve(Moved(files, f, parent, name), names) == Some(x)
  {
    hide IsTree, NamePath, KeyFree, Resolve, Below;
    var fs := Moved(files, f, parent, name);
    var old', new' := NamePath(files, f), NamePath(files, parent) + [name];
    var before := if new' <= names then old' + names[|new'|..] else names;
    NamePathResolves(files, f);
    ResolveIff(files, before, x);
    BelowIsPrefix(files, f, x);
    MovePaths(files, f, parent, name, x);
    ResolveIff(fs, names, x);
    if new' <= names {
      assert before[|old'|..] == names[|new'|..];
    }
  }

  /** The rename theorem. After a move of `f` to the key (`parent`, `name`), the paths under the
      new prefix lead where the paths under the old one led, the paths under the old prefix lead
      nowhere (unless the two prefixes are the same), and all other paths lead where they did. */
  lemma MoveResolves(files: Files, f: nat, parent: nat, name: string, names: seq<string>)
    requires CanMove(files, f, parent, name) && ProperNames(names)
    ensures IsTree(Moved(files, f, parent, name))
    ensures Resolve(Moved(files, f, parent, name), names) == AfterMove(files, f, parent, name, names)
  {
    hide IsTree, AfterMove, Moved, Resolve;
    var fs := Moved(files, f, parent, name);
    MoveKeepsTree(files, f, parent, name);
    if Resolve(fs, names).Some? { MoveReaches(files, f, parent, name, names, Resolve(fs, names).value); }
    var after := AfterMove(files, f, parent, name, names);
    if after.Some? { MoveReached(files, f, parent, name, names, after.value); }
  }

  // ------------------------------------------------------------ exchanging two parents

  /** The two updates of a swap: `f` gets the parent `q`, then `g` gets `p`. */
  function Reparented(files: Files, f: nat, q: nat, g: nat, p: nat): Files
    requires f in files && g in files
  {
    var fs := files[f := files[f].(parent := q)];
    fs[g := fs[g].(parent := p)]
  }

  function Swapped(files: Files, f: nat, g: nat): Files
    requires f in files && g in files
  {
    Reparented(files, f, files[g].parent, g, files[f].parent)
  }

  /** A swap keeps the tree if and only if neither file is a proper ancestor of the other. */
  lemma SwapKeepsTree(files: Files, f: nat, g: nat)
    requires IsTree(files) && f in files && g in files && f != ROOT && g != ROOT
    requires KeyFree(files, files[g].parent, files[f].name, Some(f))
    requires KeyFree(files[f := files[f].(parent := files[g].parent)], files[f].parent, files[g].name, Some(g))
    ensures IsTree(Swapped(files, f, g)) <==> f == g || (!Below(files, f, g) && !Below(files, g, f))
  {
    hide IsTree;
    TreeRow(files, f);
    TreeRow(files, g);
    if f == g {
      assert Swapped(files, f, g) == files;
    } else if Below(files, f, g) {
      SwapTraps(files, f, g);
    } else if Below(files, g, f) {
      SwapTraps(files, g, f);
      assert Swapped(files, g, f) == Swapped(files, f, g);
    } else {
      var p, q := files[f].parent, files[g].parent;
      BelowParent(files, f, g);
      BelowParent(files, g, f);
      OwnParent(files, f);
      OwnParent(files, g);
      ReparentKeepsTree(files, f, q, g, p);
    }
  }

  lemma OwnParent(files: Files, f: nat)
    requires IsTree(files) && f in files && f != ROOT
    ensures !Below(files, f, files[f].parent)
  {
    var p := files[f].parent;
    if Below(files, f, p) {
      assert Anc(files, f, 1) == p by { assert Anc(files, p, 0) == p; }
      BelowAntisymmetric(files, f, p);
      SelfParent(files, f);
    }
  }

  /** Giving `f` the parent `q` and then `g` the parent `p` keeps the tree if both parents lie
      outside both subtrees. */
  lemma ReparentKeepsTree(files: Files, f: nat, q: nat, g: nat, p: nat)
    requires IsTree(files) && f in files && g in files && f != ROOT && g != ROOT && f != g
    requires q in files && p in files && !Below(files, f, q) && !Below(files, g, p) && !Below(files, f, p)
    requires KeyFree(files, q, files[f].name, Some(f))
    requires KeyFree(files[f := files[f].(parent := q)], p, files[g].name, Some(g))
    ensures IsTree(Reparented(files, f, q, g, p))
  {
    hide IsTree, KeyFree;
    TreeRow(files, f);
    TreeRow(files, g);
    var fs := Moved(files, f, q, files[f].name);
    assert fs == files[f := files[f].(parent := q)];
    MoveKeepsTree(files, f, q, files[f].name);
    MovedAgrees(files, f, q, files[f].name);
    BelowSame(files, fs, f, g, p);
    MoveKeepsTree(fs, g, p, files[g].name);
    assert fs[g := fs[g].(parent := p)] == Moved(fs, g, p, files[g].name);
  }

  /** The exchange of two different files' parents never makes one file's path lead to the
      other, because the names stay. */
  lemma SwapNeverExchanges(files: Files, f: nat, g: nat)
    requires IsTree(files) && f in files && g in files && f != ROOT && g != ROOT
    requires KeyFree(files, files[g].parent, files[f].name, Some(f)) && IsTree(Swapped(files, f, g))
    ensures Resolve(Swapped(files, f, g), NamePath(files, g)) == Some(f) <==> f == g
  {
    hide IsTree, NamePath, Resolve;
    var fs := Swapped(files, f, g);
    NamePathResolves(files, g);
    ResolveIff(fs, NamePath(files, g), f);
    if f == g {
      assert fs == files;
    } else if NamePath(fs, f) == NamePath(files, g) {
      NamePathParent(fs, f);
      NamePathParent(files, g);
      SameLast(NamePath(fs, fs[f].parent), fs[f].name, NamePath(files, files[g].parent), files[g].name);
    }
  }

  lemma SameLast(a: seq<string>, x: string, b: seq<string>, y: string)
    requires a + [x] == b + [y]
    ensures x == y
  {
    assert (a + [x])[|a + [x]| - 1] == x;
    assert (b + [y])[|b + [y]| - 1] == y;
  }

  lemma SelfParent(files: Files, f: nat)
    requires IsTree(files) && f in files && files[f].parent == f
    ensures f == ROOT
  {
    if f != ROOT { DepthParent(files, f); }
  }

  /** If `f` is a proper ancestor of `g`, the swap cuts a part of `f`'s subtree off the root. */
  lemma SwapTraps(files: Files, f: nat, g: nat)
    requires IsTree(files) && f in files && g in files && f != ROOT && g != ROOT && f != g
    requires Below(files, f, g)
    ensures !IsTree(Swapped(files, f, g))
  {
    var fs := Swapped(files, f, g);
    var q := files[g].parent;
    var s := set x | x in files && Below(files, f, x) && !Below(files, g, x);
    BelowSelf(files, f);
    if Below(files, g, f) { BelowAntisymmetric(files, f, g); }
    NotBelowRoot(files, f);
    BelowParent(files, f, g);
    OwnParent(files, g);
    BelowSelf(files, g);
    forall y {:trigger fs[y].parent} | y in s
      ensures fs[y].parent in s
    {
      if y != f {
        BelowParent(files, f, y);
        BelowParent(files, g, y);
        TreeFacts(files, y);
      }
    }
    TrappedNotRooted(fs, s, f);
  }

  // ------------------------------------------------------------ creating

  function Created(files: Files, id: nat, parent: nat, name: string, kind: Kind): Files {
    files[id := FileRow(parent, name, kind, 0)]
  }

  lemma NothingBelowNew(files: Files, id: nat, x: nat)
    requires ParentsExist(files) && id !in files && x in files
    ensures !Below(files, id, x)
  {
    if k: nat :| Anc(files, x, k) == id { AncInFiles(files, x, k); }
  }

  lemma {:induction false} AncInFiles(files: Files, x: nat, k: nat)
    requires ParentsExist(files) && x in files
    ensures Anc(files, x, k) in files
    decreases k
  {
    if k > 0 { AncInFiles(files, files[x].parent, k - 1); }
  }

  lemma CreateKeepsTree(files: Files, id: nat, parent: nat, name: string, kind: Kind)
    requires IsTree(files) && id !in files && parent in files && ValidName(name) && KeyFree(files, parent, name, None)
    ensures IsTree(Created(files, id, parent, name, kind))
  {
    var fs := Created(files, id, parent, name, kind);
    RowKeepsKeys(files, id, FileRow(parent, name, kind, 0));
    assert files.Keys - {id} == fs.Keys - {id};
    forall x | x in fs
      ensures Below(fs, ROOT, x)
    {
      var y := if x == id then parent else x;
      NothingBelowNew(files, id, y);
      BelowSame(files, fs, id, ROOT, y);
      if x == id { BelowParent(fs, ROOT, id); }
    }
  }

  /** A new file appears at its path, and nowhere else does anything change. */
  lemma CreateResolves(files: Files, id: nat, parent: nat, name: string, kind: Kind, names: seq<string>)
    requires IsTree(files) && id !in files && parent in files && ValidName(name) && KeyFree(files, parent, name, None)
    requires ProperNames(names)
    ensures Resolve(Created(files, id, parent, name, kind), names)
      == if names == NamePath(files, parent) + [name] then Some(id) else Resolve(files, names)
  {
    hide IsTree, NamePath, Resolve, KeyFree;
    var fs := Created(files, id, parent, name, kind);
    CreateKeepsTree(files, id, parent, name, kind);
    CreatePaths(files, id, parent, name, kind, parent);
    NamePathParent(fs, id);
    ResolveIff(fs, names, id);
    if Resolve(fs, names).Some? && Resolve(fs, names) != Some(id) {
      var x := Resolve(fs, names).value;
      ResolveIff(fs, names, x);
      CreatePaths(files, id, parent, name, kind, x);
      ResolveIff(files, names, x);
    }
    if Resolve(files, names).Some? {
      var x := Resolve(files, names).value;
      ResolveIff(files, names, x);
      CreatePaths(files, id, parent, name, kind, x);
      ResolveIff(fs, names, x);
    }
  }

  lemma {:induction false} CreatePaths(files: Files, id: nat, parent: nat, name: string, kind: Kind, x: nat)
    requires IsTree(files) && id !in files && x in files && IsTree(Created(files, id, parent, name, kind))
    ensures id != ROOT
    ensures NamePath(Created(files, id, parent, name, kind), x) == NamePath(files, x)
    decreases Depth(files, x)
  {
    var fs := Created(files, id, parent, name, kind);
    if x == ROOT {
      RootPath(files);
      RootPath(fs);
    } else {
      NamePathParent(files, x);
      NamePathParent(fs, x);
      DepthParent(files, x);
      CreatePaths(files, id, parent, name, kind, files[x].parent);
    }
  }

  // ------------------------------------------------------------ deleting

  lemma {:induction false} CascadeIsBelow(files: Files, f: nat, doomed: set<nat>, x: nat)
    requires ParentsExist(files) && f in doomed && doomed <= files.Keys
    requires forall y :: y in doomed ==> Below(files, f, y)
    ensures x in files ==> (x in Cascade(files, doomed) <==> Below(files, f, x))
    ensures Cascade(files, doomed) <= files.Keys
    decreases files.Keys - doomed
  {
    var next := set y | y in files && files[y].parent in doomed;
    if next <= doomed {
      if x in files && Below(files, f, x) {
        var k: nat :| Anc(files, x, k) == f;
        ReachesDoomed(files, f, doomed, x, k);
      }
    } else {
      forall y | y in next
        ensures Below(files, f, y)
      {
        if y == f { BelowSelf(files, f); } else { BelowParent(files, f, y); }
      }
      CascadeIsBelow(files, f, doomed + next, x);
    }
  }

  lemma {:induction false} ReachesDoomed(files: Files, f: nat, doomed: set<nat>, x: nat, k: nat)
    requires ParentsExist(files) && x in files && Anc(files, x, k) == f && f in doomed
    requires forall y {:trigger files[y].parent} :: y in files && files[y].parent in doomed ==> y in doomed
    ensures x in doomed
    decreases k
  {
    if k > 0 { ReachesDoomed(files, f, doomed, files[x].parent, k - 1); }
  }

  /** ON DELETE CASCADE removes exactly the subtree. */
  lemma CascadeIsSubtree(files: Files, f: nat)
    requires ParentsExist(files) && f in files
    ensures Cascade(files, {f}) == set x | x in files && Below(files, f, x)
  {
    BelowSelf(files, f);
    CascadeIsBelow(files, f, {f}, f);
    forall x | x in files
      ensures x in Cascade(files, {f}) <==> Below(files, f, x)
    {
      CascadeIsBelow(files, f, {f}, x);
    }
  }

  /** `fs` is `files` without the subtree at `f`. */
  ghost predicate Pruned(files: Files, fs: Files, f: nat) {
    && (forall x {:trigger x in fs} :: x in fs ==> x in files && fs[x] == files[x])
    && forall x {:trigger x in fs} {:trigger Below(files, f, x)} :: x in files ==> (x in fs <==> !Below(files, f, x))
  }

  lemma CascadePrunes(files: Files, f: nat)
    requires ParentsExist(files) && f in files
    ensures Pruned(files, files - Cascade(files, {f}), f)
  {
    CascadeIsSubtree(files, f);
  }

  lemma {:induction false} PrunedAnc(files: Files, fs: Files, f: nat, x: nat, k: nat)
    requires Pruned(files, fs, f) && ParentsExist(files) && x in fs
    ensures Anc(fs, x, k) == Anc(files, x, k)
    decreases k
  {
    BelowSelf(files, f);
    if k > 0 {
      BelowParent(files, f, x);
      assert files[x].parent in files;
      PrunedAnc(files, fs, f, files[x].parent, k - 1);
    }
  }

  /** Deleting a subtree leaves a tree. */
  lemma DeleteKeepsTree(files: Files, f: nat)
    requires IsTree(files) && f in files && f != ROOT
    ensures ROOT !in Cascade(files, {f})
    ensures IsTree(files - Cascade(files, {f}))
  {
    hide Cascade;
    NotBelowRoot(files, f);
    var doomed := Cascade(files, {f});
    var fs := files - doomed;
    CascadeIsSubtree(files, f);
    CascadePrunes(files, f);
    CascadeClosed(files, {f});
    RemovalKeepsKeys(files, doomed);
    forall x | x in fs
      ensures Below(fs, ROOT, x)
    {
      var k: nat :| Anc(files, x, k) == ROOT;
      PrunedAnc(files, fs, f, x, k);
    }
  }

  lemma {:induction false} PrunedPaths(files: Files, fs: Files, f: nat, x: nat)
    requires IsTree(files) && IsTree(fs) && Pruned(files, fs, f) && x in fs
    ensures NamePath(fs, x) == NamePath(files, x)
    decreases Depth(files, x)
  {
    hide IsTree, NamePath, Depth;
    if x == ROOT {
      RootPath(files);
      RootPath(fs);
    } else {
      NamePathParent(files, x);
      NamePathParent(fs, x);
      DepthParent(files, x);
      PrunedPaths(files, fs, f, files[x].parent);
    }
  }

  /** The paths to and below a deleted file lead nowhere; all others lead where they did. */
  lemma DeleteResolves(files: Files, f: nat, names: seq<string>)
    requires IsTree(files) && f in files && f != ROOT && ProperNames(names)
    ensures Resolve(files - Cascade(files, {f}), names) == if NamePath(files, f) <= names then None else Resolve(files, names)
  {
    hide IsTree, NamePath, Depth, Cascade, Resolve;
    var fs := files - Cascade(files, {f});
    DeleteKeepsTree(files, f);
    TreeRow(files, f);
    CascadePrunesTree(files, f);
    if Resolve(fs, names).Some? {
      var x := Resolve(fs, names).value;
      ResolveIff(fs, names, x);
      PrunedPaths(files, fs, f, x);
      ResolveIff(files, names, x);
      BelowIsPrefix(files, f, x);
    }
    if Resolve(files, names).Some? {
      var x := Resolve(files, names).value;
      ResolveIff(files, names, x);
      BelowIsPrefix(files, f, x);
      if x in fs {
        PrunedPaths(files, fs, f, x);
        ResolveIff(fs, names, x);
      }
    }
  }

  lemma CascadePrunesTree(files: Files, f: nat)
    requires IsTree(files) && f in files
    ensures Pruned(files, files - Cascade(files, {f}), f)
  {
    CascadePrunes(files, f);
  }
}
