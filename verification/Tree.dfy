/** The `files` table as a tree: ancestors, depth, and the correspondence between nodes and
    the names on their way from the root. */
module Tree {
  import opened Database

  type Files = map<nat, FileRow>

  // ------------------------------------------------------------ ancestors

  /** The `k`-th ancestor of `x`. */
  function Anc(files: Files, x: nat, k: nat): nat
    decreases k
  {
    if k == 0 || x !in files then x else Anc(files, files[x].parent, k - 1)
  }

  /** `x` is `a` or lies below it. */
  ghost predicate Below(files: Files, a: nat, x: nat) {
    exists k: nat :: Anc(files, x, k) == a
  }

  /** Every parent chain ends at the root. */
  ghost predicate Rooted(files: Files) {
    forall x :: x in files ==> Below(files, ROOT, x)
  }

  predicate ValidName(name: string) {
    name != "" && '/' !in name
  }

  /** The root is its own parent and has the empty name; all others have proper names. */
  ghost predicate Names(files: Files) {
    && ROOT in files && files[ROOT].parent == ROOT && files[ROOT].name == ""
    && forall x {:trigger files[x].name} :: x in files && x != ROOT ==> ValidName(files[x].name)
  }

  ghost predicate IsTree(files: Files) {
    Names(files) && UniqueNames(files) && ParentsExist(files) && Rooted(files)
  }

  lemma AncNext(files: Files, x: nat, k: nat)
    requires x in files
    ensures Anc(files, x, k + 1) == Anc(files, files[x].parent, k)
  {
  }

  lemma {:induction false} AncOfRoot(files: Files, k: nat)
    requires ROOT in files && files[ROOT].parent == ROOT
    ensures Anc(files, ROOT, k) == ROOT
  {
    if k > 0 { AncOfRoot(files, k - 1); }
  }

  lemma BelowSelf(files: Files, x: nat)
    ensures Below(files, x, x)
  {
    assert Anc(files, x, 0) == x;
  }

  /** A node other than `a` is below `a` exactly when its parent is. */
  lemma BelowParent(files: Files, a: nat, x: nat)
    requires x in files && x != a
    ensures Below(files, a, x) <==> Below(files, a, files[x].parent)
  {
    if k: nat :| Anc(files, x, k) == a {
      assert k > 0;
      AncNext(files, x, k - 1);
    }
    if k: nat :| Anc(files, files[x].parent, k) == a {
      AncNext(files, x, k);
    }
  }

  // ------------------------------------------------------------ depth

  ghost function LeastDepth(files: Files, x: nat, k: nat): (d: nat)
    requires Anc(files, x, k) == ROOT
    ensures d <= k && Anc(files, x, d) == ROOT && forall j: nat :: j < d ==> Anc(files, x, j) != ROOT
  {
    if j: nat :| j < k && Anc(files, x, j) == ROOT then LeastDepth(files, x, j) else k
  }

  /** The distance to the root. */
  ghost function Depth(files: Files, x: nat): (d: nat)
    requires Below(files, ROOT, x)
    ensures Anc(files, x, d) == ROOT && forall j: nat :: j < d ==> Anc(files, x, j) != ROOT
  {
    var k: nat :| Anc(files, x, k) == ROOT;
    LeastDepth(files, x, k)
  }

  lemma DepthParent(files: Files, x: nat)
    requires IsTree(files) && x in files && x != ROOT
    ensures files[x].parent in files && Below(files, ROOT, files[x].parent)
    ensures Depth(files, files[x].parent) + 1 == Depth(files, x)
  {
    TreeRow(files, x);
    assert Below(files, ROOT, x);
    hide IsTree, UniqueNames, Anc;
    BelowParent(files, ROOT, x);
    DepthNext(files, x);
  }

  lemma DepthNext(files: Files, x: nat)
    requires x in files && x != ROOT && Below(files, ROOT, x) && Below(files, ROOT, files[x].parent)
    ensures Depth(files, files[x].parent) + 1 == Depth(files, x)
  {
    hide Below, Depth;
    var d, e := Depth(files, x), Depth(files, files[x].parent);
    AncNext(files, x, e);
    AncNext(files, x, d - 1);
  }

  /** No two different nodes of a tree lie below each other. */
  lemma BelowAntisymmetric(files: Files, x: nat, y: nat)
    requires IsTree(files) && x in files && y in files
    requires Below(files, x, y) && Below(files, y, x)
    ensures x == y
  {
    DepthBelow(files, x, y);
    DepthBelow(files, y, x);
  }

  lemma {:induction false} DepthBelow(files: Files, a: nat, x: nat)
    requires IsTree(files) && a in files && x in files && Below(files, a, x)
    ensures Depth(files, a) < Depth(files, x) || a == x
    decreases Depth(files, x)
  {
    if x != a {
      if x == ROOT {
        var k: nat :| Anc(files, ROOT, k) == a;
        AncOfRoot(files, k);
      } else {
        BelowParent(files, a, x);
        DepthParent(files, x);
        DepthBelow(files, a, files[x].parent);
      }
    }
  }

  // ------------------------------------------------------------ paths

  /** The names from the root down to `x`. */
  ghost function NamePath(files: Files, x: nat): seq<string>
    requires IsTree(files) && x in files
    decreases Depth(files, x)
  {
    if x == ROOT then [] else
      DepthParent(files, x);
      NamePath(files, files[x].parent) + [files[x].name]
  }

  /** The row with the key (`parent`, `name`). */
  ghost function Child(files: Files, parent: nat, name: string): (c: Option<nat>)
    ensures c.Some? ==> c.value in files && files[c.value].parent == parent && files[c.value].name == name
    ensures c == None ==> KeyFree(files, parent, name, None)
  {
    if x :| x in files && files[x].parent == parent && files[x].name == name then Some(x) else None
  }

  /** The node that a list of names leads to. */
  ghost function Resolve(files: Files, names: seq<string>): Option<nat> {
    if names == [] then Some(ROOT)
    else
      match Resolve(files, names[..|names| - 1])
      case None => None
      case Some(p) => Child(files, p, names[|names| - 1])
  }

  ghost predicate ProperNames(names: seq<string>) {
    forall i :: 0 <= i < |names| ==> names[i] != ""
  }

  lemma ChildOf(files: Files, x: nat)
    requires UniqueNames(files) && x in files
    ensures Child(files, files[x].parent, files[x].name) == Some(x)
  {
    var c := Child(files, files[x].parent, files[x].name);
    if c == None { assert KeyFree(files, files[x].parent, files[x].name, None); }
  }

  lemma ResolveLast(files: Files, names: seq<string>, name: string)
    ensures Resolve(files, names + [name]) ==
      if Resolve(files, names) == None then None else Child(files, Resolve(files, names).value, name)
  {
    assert (names + [name])[..|names|] == names;
  }

  lemma NamePathParent(files: Files, x: nat)
    requires IsTree(files) && x in files && x != ROOT
    ensures files[x].parent in files && NamePath(files, x) == NamePath(files, files[x].parent) + [files[x].name]
  {
  }

  lemma TreeRow(files: Files, x: nat)
    requires IsTree(files) && x in files && x != ROOT
    ensures UniqueNames(files) && files[x].parent in files && ValidName(files[x].name)
  {
  }

  lemma {:induction false} NamePathResolves(files: Files, x: nat)
    requires IsTree(files) && x in files
    ensures Resolve(files, NamePath(files, x)) == Some(x) && ProperNames(NamePath(files, x))
    decreases Depth(files, x)
  {
    hide IsTree, NamePath, Resolve, Child, UniqueNames;
    if x == ROOT {
      RootPath(files);
    } else {
      TreeRow(files, x);
      var p := files[x].parent;
      NamePathParent(files, x);
      DepthParent(files, x);
      NamePathResolves(files, p);
      ResolveLast(files, NamePath(files, p), files[x].name);
      ChildOf(files, x);
    }
  }

  lemma {:induction false} ResolvesToNamePath(files: Files, names: seq<string>)
    requires IsTree(files) && ProperNames(names) && Resolve(files, names).Some?
    ensures var x := Resolve(files, names).value; x in files && NamePath(files, x) == names
    decreases |names|
  {
    hide Rooted, ParentsExist, UniqueNames, Resolve, NamePath;
    if names == [] {
      RootPath(files);
    } else {
      var init, name := names[..|names| - 1], names[|names| - 1];
      assert names == init + [name];
      ResolveLast(files, init, name);
      ResolvesToNamePath(files, init);
      NamePathParent(files, Resolve(files, names).value);
    }
  }

  lemma RootPath(files: Files)
    requires IsTree(files)
    ensures Resolve(files, []) == Some(ROOT) && NamePath(files, ROOT) == []
  {
  }

  /** Paths and nodes correspond one to one: a list of names leads to `x` if and only if it is
      the list of names on `x`'s way from the root. */
  lemma ResolveIff(files: Files, names: seq<string>, x: nat)
    requires IsTree(files) && ProperNames(names)
    ensures Resolve(files, names) == Some(x) <==> x in files && NamePath(files, x) == names
  {
    if Resolve(files, names) == Some(x) { ResolvesToNamePath(files, names); }
    if x in files { NamePathResolves(files, x); }
  }

  /** A node lies below `a` exactly when its path starts with `a`'s. */
  lemma {:induction false} BelowIsPrefix(files: Files, a: nat, x: nat)
    requires IsTree(files) && a in files && x in files
    ensures Below(files, a, x) <==> NamePath(files, a) <= NamePath(files, x)
    decreases Depth(files, x)
  {
    hide Rooted, ParentsExist, UniqueNames, Resolve, NamePath, Names;
    if x == a {
      BelowSelf(files, x);
    } else if x == ROOT {
      RootPath(files);
      assert Anc(files, ROOT, 0) == ROOT;
      if Below(files, a, x) { DepthBelow(files, a, x); }
      if NamePath(files, a) == [] { NamePathResolves(files, a); }
    } else {
      var p := files[x].parent;
      NamePathParent(files, x);
      DepthParent(files, x);
      BelowParent(files, a, x);
      BelowIsPrefix(files, a, p);
      if NamePath(files, a) == NamePath(files, x) {
        NamePathResolves(files, a);
        NamePathResolves(files, x);
      } else if NamePath(files, a) <= NamePath(files, x) {
        assert NamePath(files, a) == NamePath(files, x)[..|NamePath(files, a)|];
      }
    }
  }
}
