/** The listing "ROOT/<f>", "<f>" worked through the builder, showing that
    the as-written `get_path_parts`, which drops every ancestor NAMED "ROOT",
    loses an archive directory of that name. Everything here is stated for
    an arbitrary segment `f`, such as "x". */
module PathPartsFinding {
  import opened Common
  import opened Paths
  import opened PathTree

  /** The entry "ROOT/<f>", a file. */
  function RootPathEntry(f: string): ZipInfo
  {
    ZipInfo(RootName + [Slash] + f, false, 1, 0)
  }

  /** The entry "<f>", a file. */
  function PlainEntry(f: string): ZipInfo
  {
    ZipInfo(f, false, 1, 0)
  }

  /** The arena after walking "ROOT", `f` from a fresh tree: the root, a
      directory "ROOT" below it and a file `f` below that. */
  function RootPathArena(f: string): seq<Node>
  {
    [Node(RootName, true, None, [1], None),
     Node(RootName, true, Some(0), [2], None),
     Node(f, false, Some(1), [], None)]
  }

  /** The tree built from "ROOT/<f>" alone. */
  function RootPathTree(f: string): seq<Node>
  {
    [Node(RootName, true, None, [1], None),
     Node(RootName, true, Some(0), [2], None),
     Node(f, false, Some(1), [], Some(RootPathEntry(f)))]
  }

  /** The arena after walking `f` in RootPathTree: a second file `f`, below
      the root. */
  function PlainArena(f: string): seq<Node>
  {
    [Node(RootName, true, None, [1, 3], None),
     Node(RootName, true, Some(0), [2], None),
     Node(f, false, Some(1), [], Some(RootPathEntry(f))),
     Node(f, false, Some(0), [], None)]
  }

  /** The tree built from "ROOT/<f>" then "<f>". */
  function RootThenPlainTree(f: string): seq<Node>
  {
    [Node(RootName, true, None, [1, 3], None),
     Node(RootName, true, Some(0), [2], None),
     Node(f, false, Some(1), [], Some(RootPathEntry(f))),
     Node(f, false, Some(0), [], Some(PlainEntry(f)))]
  }

  /** The listing "ROOT/<f>", "<f>": the two file nodes of the built tree
      are different nodes at different paths, yet the as-written path parts
      plus the name agree (both are just `f`), so both are extracted to the
      same place and the second overwrites the first. */
  lemma RootNamedDirCollides(f: string)
    requires f != [] && Slash !in f && f != RootName
    ensures var ns := Built([RootPathEntry(f), PlainEntry(f)]);
            && |ns| == 4 && !ns[2].isDir && !ns[3].isDir
            && FullPath(ns, 2) == [RootName, f] && FullPath(ns, 3) == [f]
            && PathPartsAsWritten(ns, 2) + [ns[2].name] == [f]
            && PathPartsAsWritten(ns, 3) + [ns[3].name] == [f]
  {
    BuiltRootThenPlain(f);
    RootThenPlainPaths(f);
  }

  /** The paths of the two file nodes of RootThenPlainTree, corrected and
      as written. */
  lemma RootThenPlainPaths(f: string)
    requires f != RootName
    ensures WellFormed(RootThenPlainTree(f))
    ensures var ns := RootThenPlainTree(f);
            && FullPath(ns, 2) == [RootName, f] && FullPath(ns, 3) == [f]
            && PathPartsAsWritten(ns, 2) + [ns[2].name] == [f]
            && PathPartsAsWritten(ns, 3) + [ns[3].name] == [f]
  {
    RootThenPlainWellFormed(f);
    var ns := RootThenPlainTree(f);
    assert FullPath(ns, 1) == [RootName];
    assert PathPartsAsWritten(ns, 1) == [];
  }

  /** RootThenPlainTree is PlainArena with the entry attached to the second `f`. */
  lemma RootThenPlainWellFormed(f: string)
    requires f != RootName
    ensures WellFormed(RootThenPlainTree(f))
  {
    AddPlainBelowRoot(f);
    AttachWellFormed(PlainArena(f), 3, PlainEntry(f));
    assert RootThenPlainTree(f) == PlainArena(f)[3 := PlainArena(f)[3].(zipinfo := Some(PlainEntry(f)))];
  }

  /** Building "ROOT/<f>" then "<f>" gives RootThenPlainTree. */
  lemma BuiltRootThenPlain(f: string)
    requires f != [] && Slash !in f && f != RootName
    ensures Built([RootPathEntry(f), PlainEntry(f)]) == RootThenPlainTree(f)
  {
    BuiltRootThenPlainStep(f);
    PlacePlain(f);
  }

  /** Building "ROOT/<f>" then "<f>" places "<f>" at its one segment in
      RootPathTree. */
  lemma BuiltRootThenPlainStep(f: string)
    requires f != [] && Slash !in f
    ensures WellFormed(RootPathTree(f))
    ensures Built([RootPathEntry(f), PlainEntry(f)]) == Place(RootPathTree(f), [f], PlainEntry(f))
  {
    var a := RootPathEntry(f);
    var b := PlainEntry(f);
    BuiltRootPath(f);
    assert [a, b][..1] == [a];
    PlainParts(f);
  }

  /** Placing "<f>" in RootPathTree gives RootThenPlainTree. */
  lemma PlacePlain(f: string)
    requires f != RootName
    ensures WellFormed(RootPathTree(f))
    ensures Place(RootPathTree(f), [f], PlainEntry(f)) == RootThenPlainTree(f)
  {
    WalkPlain(f);
  }

  /** The walk for `f` in RootPathTree ends at a new node `f` below the
      root, since the root's only child is named "ROOT". */
  lemma WalkPlain(f: string)
    requires f != RootName
    ensures WellFormed(RootPathTree(f))
    ensures Walk(RootPathTree(f), 0, [f], false) == (PlainArena(f), 3)
  {
    AddPlainBelowRoot(f);
    assert Walk(PlainArena(f), 3, [], false) == (PlainArena(f), 3);
  }

  /** The step of that walk: `f` is not found below the root and is added. */
  lemma AddPlainBelowRoot(f: string)
    requires f != RootName
    ensures WellFormed(RootPathTree(f)) && Lookup(RootPathTree(f), 0, f) == None
    ensures WithChild(RootPathTree(f), 0, f, false) == PlainArena(f) && WellFormed(PlainArena(f))
  {
    RootPathTreeWellFormed(f);
    var t1 := RootPathTree(f);
    assert t1[0].children == [1] && t1[1].name == RootName;
    assert LookupIn(t1, [1], f) == None;
    WithChildWellFormed(t1, 0, f, false);
    WithChildPlain(f);
  }

  /** Adding `f` below the root of RootPathTree gives PlainArena. */
  lemma WithChildPlain(f: string)
    ensures WithChild(RootPathTree(f), 0, f, false) == PlainArena(f)
  {
    assert [1] + [3] == [1, 3];
  }

  /** RootPathTree is RootPathArena with the entry attached to `f`. */
  lemma RootPathTreeWellFormed(f: string)
    ensures WellFormed(RootPathTree(f))
  {
    var ns1 := AddRootDir();
    AddFileBelowRootDir(f, ns1);
    AttachWellFormed(RootPathArena(f), 2, RootPathEntry(f));
    assert RootPathTree(f) == RootPathArena(f)[2 := RootPathArena(f)[2].(zipinfo := Some(RootPathEntry(f)))];
  }

  /** Building "ROOT/<f>" gives RootPathTree. */
  lemma BuiltRootPath(f: string)
    requires f != [] && Slash !in f
    ensures Built([RootPathEntry(f)]) == RootPathTree(f)
  {
    var a := RootPathEntry(f);
    assert [a][..0] == [];
    RootPathParts(f);
    WalkRootPath(f);
    assert Built([a]) == Place([RootNode], [RootName, f], a);
  }

  /** Walking "ROOT", `f` from a fresh tree creates both nodes. */
  lemma WalkRootPath(f: string)
    ensures WellFormed(RootPathArena(f))
    ensures Walk([RootNode], 0, [RootName, f], false) == (RootPathArena(f), 2)
  {
    var ns1 := AddRootDir();
    AddFileBelowRootDir(f, ns1);
    assert Walk(RootPathArena(f), 2, [], false) == (RootPathArena(f), 2);
    assert Walk(ns1, 1, [f], false) == (RootPathArena(f), 2);
    assert [RootName, f][1..] == [f];
  }

  /** The first step of that walk: "ROOT" below the root. */
  lemma AddRootDir() returns (ns1: seq<Node>)
    ensures ns1 == WithChild([RootNode], 0, RootName, true) && WellFormed(ns1)
    ensures ns1 == [Node(RootName, true, None, [1], None), Node(RootName, true, Some(0), [], None)]
    ensures Lookup([RootNode], 0, RootName) == None
  {
    ns1 := WithChild([RootNode], 0, RootName, true);
    WithChildWellFormed([RootNode], 0, RootName, true);
    assert RootNode.children + [1] == [1];
  }

  /** The second step of that walk: `f` below "ROOT". */
  lemma AddFileBelowRootDir(f: string, ns1: seq<Node>)
    requires ns1 == [Node(RootName, true, None, [1], None), Node(RootName, true, Some(0), [], None)]
    ensures WellFormed(ns1)
    ensures WithChild(ns1, 1, f, false) == RootPathArena(f) && WellFormed(RootPathArena(f))
    ensures Lookup(ns1, 1, f) == None
  {
    assert WellFormed(ns1);
    WithChildWellFormed(ns1, 1, f, false);
    assert [] + [2] == [2];
  }

  /** A name without separators is one segment. */
  lemma PlainParts(f: string)
    requires f != [] && Slash !in f
    ensures EntryParts(PlainEntry(f)) == [f]
  {
    assert f[0] in f && f[|f| - 1] in f;
    assert StripLeft(f) == f;
    assert StripRight(f) == f;
    SplitNoSlash(f);
  }

  /** "ROOT/<f>" is the two segments "ROOT" and `f`. */
  lemma RootPathParts(f: string)
    requires f != [] && Slash !in f
    ensures EntryParts(RootPathEntry(f)) == [RootName, f]
  {
    var s := RootName + [Slash] + f;
    assert s[0] == 'R';
    assert s[|s| - 1] == f[|f| - 1] && f[|f| - 1] in f;
    assert StripLeft(s) == s;
    assert StripRight(s) == s;
    SplitCons(RootName, f);
    SplitNoSlash(f);
  }
}
