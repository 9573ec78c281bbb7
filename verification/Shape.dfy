/** The tree depends on parents and names only: recording another size changes no path. */
module Shape {
  import opened Blocks
  import opened Database
  import opened Append
  import opened Write
  import opened Tree

  ghost predicate SameShape(files: Files, fs: Files) {
    && files.Keys == fs.Keys
    && forall x {:trigger files[x].parent} {:trigger fs[x].parent} {:trigger files[x].name} {:trigger fs[x].name} ::
         x in files ==> files[x].parent == fs[x].parent && files[x].name == fs[x].name
  }

  lemma {:induction false} SameAnc(files: Files, fs: Files, x: nat, k: nat)
    requires SameShape(files, fs)
    ensures Anc(files, x, k) == Anc(fs, x, k)
    decreases k
  {
    if k > 0 && x in files { SameAnc(files, fs, files[x].parent, k - 1); }
  }

  lemma SameBelow(files: Files, fs: Files, a: nat, x: nat)
    requires SameShape(files, fs) && Below(files, a, x)
    ensures Below(fs, a, x)
  {
    var k: nat :| Anc(files, x, k) == a;
    SameAnc(files, fs, x, k);
  }

  lemma SameTree(files: Files, fs: Files)
    requires SameShape(files, fs) && IsTree(files)
    ensures IsTree(fs)
  {
    forall x | x in fs
      ensures Below(fs, ROOT, x)
    {
      SameBelow(files, fs, ROOT, x);
    }
  }

  lemma SameChild(files: Files, fs: Files, parent: nat, name: string)
    requires SameShape(files, fs) && UniqueNames(files) && UniqueNames(fs)
    ensures Child(files, parent, name) == Child(fs, parent, name)
  {
    var c, d := Child(files, parent, name), Child(fs, parent, name);
    if c.Some? { ChildOf(fs, c.value); }
    if d.Some? { ChildOf(files, d.value); }
  }

  lemma {:induction false} SameResolve(files: Files, fs: Files, names: seq<string>)
    requires SameShape(files, fs) && UniqueNames(files) && UniqueNames(fs)
    ensures Resolve(files, names) == Resolve(fs, names)
    decreases |names|
  {
    if names != [] {
      var init := names[..|names| - 1];
      SameResolve(files, fs, init);
      if Resolve(files, init).Some? { SameChild(files, fs, Resolve(files, init).value, names[|names| - 1]); }
    }
  }

  /** Operations on one file's contents keep the tree, its paths and all other columns. */
  lemma TouchedKeepsTree(t: Tables, u: Tables, f: nat)
    requires Touched(t, u, f) && IsTree(t.files)
    ensures IsTree(u.files) && SameShape(t.files, u.files)
    ensures u.nextId == t.nextId
    ensures f in t.files ==> f in u.files && u.files[f].kind == t.files[f].kind
  {
    hide IsTree;
    assert SameShape(t.files, u.files);
    SameTree(t.files, u.files);
  }

  lemma AppendedIsTouched(t: Tables, u: Tables, f: nat, data: seq<Byte>)
    requires Appended(t, u, f, data) && Schema(t)
    ensures Touched(t, u, f)
  {
    hide Flat, WellFormed, Schema;
  }
}
