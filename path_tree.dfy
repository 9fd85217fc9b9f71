/** The in-memory index of an archive: the tree of `Node`s that
    `RemoteZipModel.__init__` builds from the flat entry listing.

    Nodes live in an arena, `seq<Node>`, and refer to each other by index:
    index 0 is the synthetic root named "ROOT", a node's `parent` is the index
    of its parent and `children` lists its children's indices in the order
    they were created. A child is always created after its parent, so every
    child index is larger than its parent's. */
module PathTree {
  import opened Common
  import opened Paths

  /** What the archive listing says about one entry (a `ZipInfo`): its name,
      whether it names a directory, its declared uncompressed size and the
      offset of its local header, which identifies it for the reader. */
  datatype ZipInfo = ZipInfo(filename: string, isDir: bool, fileSize: nat, headerOffset: nat)

  /** One `Node`: name, kind, parent, children and the attached entry. */
  datatype Node = Node(name: string, isDir: bool, parent: Option<nat>, children: seq<nat>, zipinfo: Option<ZipInfo>)

  const RootName: string := "ROOT"

  /** The node the builder starts from: `Node("ROOT", is_dir=True)`. */
  const RootNode: Node := Node(RootName, true, None, [], None)

  /** The path segments of an entry: `info.filename.strip("/").split("/")`. */
  function EntryParts(info: ZipInfo): seq<string>
  {
    Split(Strip(info.filename))
  }

  /** Every child comes after its parent in the arena: the part of
      `WellFormed` the walks over the tree need to terminate. */
  ghost predicate Ordered(ns: seq<Node>)
  {
    forall p, k :: 0 <= p < |ns| && 0 <= k < |ns[p].children| ==> p < ns[p].children[k] < |ns|
  }

  /** The shape every tree the builder produces has: the root at index 0,
      parent and child links that agree, children after their parents, and
      no two children of one node with the same name. */
  ghost predicate WellFormed(ns: seq<Node>)
  {
    && |ns| > 0
    && ns[0].name == RootName && ns[0].isDir && ns[0].parent.None?
    && (forall n {:trigger ns[n].parent} :: 0 < n < |ns| ==>
          ns[n].parent.Some? && ns[n].parent.value < n && n in ns[ns[n].parent.value].children)
    && Ordered(ns)
    && (forall p, k :: 0 <= p < |ns| && 0 <= k < |ns[p].children| ==>
          ns[ns[p].children[k]].parent == Some(p))
    && (forall p, k, l :: 0 <= p < |ns| && 0 <= k < l < |ns[p].children| ==>
          ns[ns[p].children[k]].name != ns[ns[p].children[l]].name)
  }

  /** Every file node carries an entry. */
  ghost predicate FilesHaveEntries(ns: seq<Node>)
  {
    forall n :: 0 <= n < |ns| && !ns[n].isDir ==> ns[n].zipinfo.Some?
  }

  /** The first of `cs` whose node is named `name`. */
  function LookupIn(ns: seq<Node>, cs: seq<nat>, name: string): (r: Option<nat>)
    requires forall k :: 0 <= k < |cs| ==> cs[k] < |ns|
    ensures r.Some? ==> r.value in cs && ns[r.value].name == name
    ensures r.None? ==> forall k :: 0 <= k < |cs| ==> ns[cs[k]].name != name
  {
    if cs == [] then None
    else if ns[cs[0]].name == name then Some(cs[0])
    else LookupIn(ns, cs[1..], name)
  }

  /** The child of `p` named `name`, if any: the generator expression
      `next((c for c in current.children if c.name == part), None)`. */
  function Lookup(ns: seq<Node>, p: nat, name: string): (r: Option<nat>)
    requires WellFormed(ns) && p < |ns|
    ensures r.Some? ==> r.value in ns[p].children && r.value < |ns| && ns[r.value].name == name
    ensures r.None? ==> forall k :: 0 <= k < |ns[p].children| ==> ns[ns[p].children[k]].name != name
  {
    LookupIn(ns, ns[p].children, name)
  }

  /** `Node(name, is_dir)` followed by `p.add_child(child)`: the new node goes
      at the end of the arena and at the end of `p`'s children. */
  function WithChild(ns: seq<Node>, p: nat, name: string, isDir: bool): seq<Node>
    requires p < |ns|
  {
    ns[p := ns[p].(children := ns[p].children + [|ns|])] + [Node(name, isDir, Some(p), [], None)]
  }

  /** Adding a child under a name that `p` does not have yet keeps the tree
      well formed. */
  lemma WithChildWellFormed(ns: seq<Node>, p: nat, name: string, isDir: bool)
    requires WellFormed(ns) && p < |ns|
    requires Lookup(ns, p, name).None?
    ensures WellFormed(WithChild(ns, p, name, isDir))
  {
    var ns' := WithChild(ns, p, name, isDir);
    var m := |ns|;
    var cp := ns[p].children;
    assert |ns'| == m + 1;
    assert ns'[m] == Node(name, isDir, Some(p), [], None);
    assert ns'[p] == ns[p].(children := cp + [m]);
    assert forall q :: 0 <= q < m && q != p ==> ns'[q] == ns[q];
    assert forall q :: 0 <= q < m ==> ns'[q].name == ns[q].name && ns'[q].parent == ns[q].parent;
    forall n | 0 < n < |ns'|
      ensures ns'[n].parent.Some? && ns'[n].parent.value < n && n in ns'[ns'[n].parent.value].children
    {
      if n < m {
        var q := ns[n].parent.value;
        assert n in ns[q].children;
        assert ns[q].children <= ns'[q].children;
      } else {
        assert ns'[p].children[|cp|] == m;
      }
    }
    ChildLinksAfterAdd(ns, ns', p, m);
    UniqueNamesAfterAdd(ns, ns', p, m, name);
  }

  lemma ChildLinksAfterAdd(ns: seq<Node>, ns': seq<Node>, p: nat, m: nat)
    requires WellFormed(ns) && p < |ns| && m == |ns| && |ns'| == m + 1
    requires ns'[m].parent == Some(p)
    requires ns'[p].children == ns[p].children + [m]
    requires forall q :: 0 <= q < m && q != p ==> ns'[q].children == ns[q].children
    requires forall q :: 0 <= q < m ==> ns'[q].parent == ns[q].parent
    requires ns'[m].children == []
    ensures forall q, k :: 0 <= q < |ns'| && 0 <= k < |ns'[q].children| ==>
              q < ns'[q].children[k] < |ns'| && ns'[ns'[q].children[k]].parent == Some(q)
  {
    forall q, k | 0 <= q < |ns'| && 0 <= k < |ns'[q].children|
      ensures q < ns'[q].children[k] < |ns'| && ns'[ns'[q].children[k]].parent == Some(q)
    {
      if q == p && k == |ns[p].children| {
        assert ns'[q].children[k] == m;
      } else {
        assert q < m;
        assert ns'[q].children[k] == ns[q].children[k];
      }
    }
  }

  lemma UniqueNamesAfterAdd(ns: seq<Node>, ns': seq<Node>, p: nat, m: nat, name: string)
    requires WellFormed(ns) && p < |ns| && m == |ns| && |ns'| == m + 1
    requires ns'[m].name == name
    requires ns'[p].children == ns[p].children + [m]
    requires forall q :: 0 <= q < m && q != p ==> ns'[q].children == ns[q].children
    requires forall q :: 0 <= q < m ==> ns'[q].name == ns[q].name
    requires ns'[m].children == []
    requires forall k :: 0 <= k < |ns[p].children| ==> ns[ns[p].children[k]].name != name
    ensures forall q, k, l :: 0 <= q < |ns'| && 0 <= k < l < |ns'[q].children| ==>
              ns'[ns'[q].children[k]].name != ns'[ns'[q].children[l]].name
  {
    forall q, k, l | 0 <= q < |ns'| && 0 <= k < l < |ns'[q].children|
      ensures ns'[ns'[q].children[k]].name != ns'[ns'[q].children[l]].name
    {
      assert q < m;
      assert ns'[q].children[k] == ns[q].children[k];
      if q == p && l == |ns[p].children| {
        assert ns'[q].children[l] == m;
      } else {
        assert ns'[q].children[l] == ns[q].children[l];
      }
    }
  }

  /** The inner loop of the builder: starting at `cur`, descend along `ps`,
      finding each segment among the current node's children or creating it.
      A created node is a directory, except the one for the last segment,
      whose kind is `lastIsDir`. Returns the new arena and the node reached. */
  function Walk(ns: seq<Node>, cur: nat, ps: seq<string>, lastIsDir: bool): (r: (seq<Node>, nat))
    requires WellFormed(ns) && cur < |ns|
    ensures WellFormed(r.0) && |ns| <= |r.0| && r.1 < |r.0|
    decreases |ps|
  {
    if ps == [] then (ns, cur)
    else
      var isDir := if |ps| == 1 then lastIsDir else true;
      match Lookup(ns, cur, ps[0])
      case Some(c) => Walk(ns, c, ps[1..], lastIsDir)
      case None =>
        WithChildWellFormed(ns, cur, ps[0], isDir);
        Walk(WithChild(ns, cur, ps[0], isDir), |ns|, ps[1..], lastIsDir)
  }

  /** One step of the walk: into the child named `ps[0]` when there is
      one, into a new one at the end of the arena otherwise. */
  lemma WalkStep(ns: seq<Node>, cur: nat, ps: seq<string>, lastIsDir: bool)
    requires WellFormed(ns) && cur < |ns| && ps != []
    ensures var c := Lookup(ns, cur, ps[0]);
            c.Some? ==> Walk(ns, cur, ps, lastIsDir) == Walk(ns, c.value, ps[1..], lastIsDir)
    ensures var c := Lookup(ns, cur, ps[0]);
            var ns1 := WithChild(ns, cur, ps[0], if |ps| == 1 then lastIsDir else true);
            c.None? ==> WellFormed(ns1) && Walk(ns, cur, ps, lastIsDir) == Walk(ns1, |ns|, ps[1..], lastIsDir)
  {
    if Lookup(ns, cur, ps[0]).None? {
      WithChildWellFormed(ns, cur, ps[0], if |ps| == 1 then lastIsDir else true);
    }
  }

  /** Attaching an entry to a node changes no link. */
  lemma AttachWellFormed(ns: seq<Node>, n: nat, info: ZipInfo)
    requires WellFormed(ns) && n < |ns|
    ensures WellFormed(ns[n := ns[n].(zipinfo := Some(info))])
  {
    var ns' := ns[n := ns[n].(zipinfo := Some(info))];
    assert forall m :: 0 <= m < |ns| ==>
      ns'[m].name == ns[m].name && ns'[m].isDir == ns[m].isDir &&
      ns'[m].parent == ns[m].parent && ns'[m].children == ns[m].children;
  }

  /** `if not current.is_dir: current.zipinfo = info`: attach the entry to
      node `r` unless that node is a directory. */
  function Attached(ns: seq<Node>, r: nat, info: ZipInfo): (ns': seq<Node>)
    requires WellFormed(ns) && r < |ns|
    ensures WellFormed(ns') && |ns'| == |ns|
  {
    if !ns[r].isDir then
      AttachWellFormed(ns, r, info);
      ns[r := ns[r].(zipinfo := Some(info))]
    else ns
  }

  /** Walk `ps` from the root, then attach `info` to the node reached. */
  function Place(ns: seq<Node>, ps: seq<string>, info: ZipInfo): (ns': seq<Node>)
    requires WellFormed(ns)
    ensures WellFormed(ns') && |ns| <= |ns'|
  {
    var (ns1, r) := Walk(ns, 0, ps, info.isDir);
    Attached(ns1, r, info)
  }

  /** One iteration of the build loop: place the entry at its segments. */
  function Inserted(ns: seq<Node>, info: ZipInfo): (ns': seq<Node>)
    requires WellFormed(ns)
    ensures WellFormed(ns') && |ns| <= |ns'|
  {
    Place(ns, EntryParts(info), info)
  }

  /** The tree built from a listing, entry by entry in listing order. */
  function Built(infos: seq<ZipInfo>): (ns: seq<Node>)
    ensures WellFormed(ns)
  {
    if infos == [] then [RootNode]
    else Inserted(Built(infos[..|infos| - 1]), infos[|infos| - 1])
  }

  /** Building one entry further inserts that entry into the tree built so far. */
  lemma BuiltStep(infos: seq<ZipInfo>, k: nat)
    requires k < |infos|
    ensures Built(infos[..k + 1]) == Inserted(Built(infos[..k]), infos[k])
  {
    assert infos[..k + 1][..k] == infos[..k];
  }

  /** The path of node `n` below the root, root excluded: the names of `n`'s
      proper ancestors followed by `n`'s own name; [] for the root. */
  function FullPath(ns: seq<Node>, n: nat): seq<string>
    requires WellFormed(ns) && n < |ns|
    decreases n, 1
  {
    if n == 0 then [] else PathOf(ns, n) + [ns[n].name]
  }

  /** `get_path_parts` as its docstring describes it: the names of `n`'s
      proper ancestors, from the root down to the parent, with the root node
      itself left out. This is the corrected form; see PathPartsAsWritten. */
  function PathOf(ns: seq<Node>, n: nat): seq<string>
    requires WellFormed(ns) && n < |ns|
    decreases n, 0
  {
    if n == 0 then [] else FullPath(ns, ns[n].parent.value)
  }

  /** Every node other than the root has a plain name: not empty, without
      a separator, and not "." or "..". */
  ghost predicate PlainNames(ns: seq<Node>)
  {
    forall n :: 0 < n < |ns| ==> Plain(ns[n].name)
  }

  /** Every segment of a node's path is plain when every name is. */
  lemma {:induction false} FullPathPlain(ns: seq<Node>, n: nat)
    requires WellFormed(ns) && PlainNames(ns) && n < |ns|
    ensures forall k :: 0 <= k < |FullPath(ns, n)| ==> Plain(FullPath(ns, n)[k])
    decreases n
  {
    if n > 0 {
      var p := ns[n].parent.value;
      FullPathPlain(ns, p);
      assert FullPath(ns, n) == FullPath(ns, p) + [ns[n].name];
    }
  }

  /** `get_path_parts` as written: it walks the parent links and keeps every
      ancestor whose NAME is not "ROOT", so a directory of the archive that
      happens to be called "ROOT" is left out along with the root node. */
  function PathPartsAsWritten(ns: seq<Node>, n: nat): seq<string>
    requires WellFormed(ns) && n < |ns|
    decreases n
  {
    if n == 0 then []
    else
      var p := ns[n].parent.value;
      PathPartsAsWritten(ns, p) + (if ns[p].name != RootName then [ns[p].name] else [])
  }

  /** The segments of every entry of a listing, in listing order. */
  function Listing(infos: seq<ZipInfo>): (r: seq<seq<string>>)
    ensures |r| == |infos|
    ensures forall j :: 0 <= j < |infos| ==> r[j] == EntryParts(infos[j])
  {
    seq(|infos|, j requires 0 <= j < |infos| => EntryParts(infos[j]))
  }

  /** The listing of a longer prefix is the listing of the shorter one
      followed by the new entry's segments. */
  lemma ListingAppend(infos: seq<ZipInfo>, x: ZipInfo)
    ensures Listing(infos + [x]) == Listing(infos) + [EntryParts(x)]
  {
    var l := Listing(infos + [x]);
    var r := Listing(infos) + [EntryParts(x)];
    forall j | 0 <= j < |l|
      ensures l[j] == r[j]
    {
      if j < |infos| {
        assert (infos + [x])[j] == infos[j];
      } else {
        assert (infos + [x])[j] == x;
      }
    }
  }

  /** The position of the last path of `paths` equal to `path`, or -1 when
      there is none. */
  function LastIndexWith(paths: seq<seq<string>>, path: seq<string>): (r: int)
    ensures -1 <= r < |paths|
    ensures r >= 0 ==> paths[r] == path
    ensures forall j :: r < j < |paths| ==> paths[j] != path
  {
    if paths == [] then -1
    else if paths[|paths| - 1] == path then |paths| - 1
    else LastIndexWith(paths[..|paths| - 1], path)
  }

  /** Appending a path changes the last position of `path` only when the
      appended path is `path` itself. */
  lemma LastIndexWithAppend(paths: seq<seq<string>>, p: seq<string>, path: seq<string>)
    ensures LastIndexWith(paths + [p], path)
            == if p == path then |paths| else LastIndexWith(paths, path)
  {
    assert (paths + [p])[..|paths|] == paths;
  }

  /** `ns'` keeps every node of `ns` at its index with the same name, kind
      and parent (children may have been added). */
  ghost predicate Keeps(ns: seq<Node>, ns': seq<Node>)
  {
    && |ns| <= |ns'|
    && forall q :: 0 <= q < |ns| ==>
         ns'[q].name == ns[q].name && ns'[q].isDir == ns[q].isDir && ns'[q].parent == ns[q].parent
  }

  /** A node's path depends only on the names and parents of its ancestors,
      so it survives any change that keeps them. */
  lemma {:induction false} FullPathFrame(ns: seq<Node>, ns': seq<Node>, n: nat)
    requires WellFormed(ns) && WellFormed(ns') && Keeps(ns, ns') && n < |ns|
    ensures FullPath(ns', n) == FullPath(ns, n)
    decreases n
  {
    if n > 0 {
      FullPathFrame(ns, ns', ns[n].parent.value);
    }
  }

  /** Only the root has the empty path. */
  lemma FullPathEmpty(ns: seq<Node>, n: nat)
    requires WellFormed(ns) && n < |ns|
    ensures FullPath(ns, n) == [] <==> n == 0
  {
  }

  /** Two nodes of a well-formed tree with the same path are the same node:
      siblings have distinct names, so a path names at most one node. */
  lemma {:induction false} FullPathInjective(ns: seq<Node>, a: nat, b: nat)
    requires WellFormed(ns) && a < |ns| && b < |ns|
    requires FullPath(ns, a) == FullPath(ns, b)
    ensures a == b
    decreases a + b
  {
    FullPathEmpty(ns, a);
    FullPathEmpty(ns, b);
    if a > 0 && b > 0 {
      var pa := ns[a].parent.value;
      var pb := ns[b].parent.value;
      var fa := FullPath(ns, a);
      assert fa[..|fa| - 1] == FullPath(ns, pa);
      assert FullPath(ns, b)[..|fa| - 1] == FullPath(ns, pb);
      FullPathInjective(ns, pa, pb);
      var cs := ns[pa].children;
      var k :| 0 <= k < |cs| && cs[k] == a;
      var l :| 0 <= l < |cs| && cs[l] == b;
      assert ns[a].name == fa[|fa| - 1] == ns[b].name;
      assert k == l;
    }
  }

  /** What a walk from `cur` along `ps` that ends at node `r` of `ns'` did
      to the arena: it kept the old nodes (attached entries included), every
      node it created has no entry and is a directory unless it is `r`, a
      node reached by creation has the kind asked for, and `r` lies at the
      path of `cur` extended by `ps`. */
  ghost predicate WalkOutcome(ns: seq<Node>, cur: nat, ps: seq<string>, lastIsDir: bool, ns': seq<Node>, r: nat)
    requires WellFormed(ns) && WellFormed(ns') && cur < |ns| && r < |ns'|
  {
    && (ps == [] ==> ns' == ns && r == cur)
    && Keeps(ns, ns')
    && (forall q :: 0 <= q < |ns| ==> ns'[q].zipinfo == ns[q].zipinfo)
    && (forall q :: |ns| <= q < |ns'| ==> ns'[q].zipinfo.None? && (q != r ==> ns'[q].isDir))
    && (r >= |ns| ==> ns'[r].isDir == lastIsDir)
    && (ps != [] && ns[cur].children == [] ==> r >= |ns|)
    && FullPath(ns', r) == FullPath(ns, cur) + ps
  }

  /** Every walk has the outcome WalkOutcome describes. */
  lemma {:induction false} WalkFacts(ns: seq<Node>, cur: nat, ps: seq<string>, lastIsDir: bool)
    requires WellFormed(ns) && cur < |ns|
    ensures WalkOutcome(ns, cur, ps, lastIsDir, Walk(ns, cur, ps, lastIsDir).0, Walk(ns, cur, ps, lastIsDir).1)
    decreases |ps|
  {
    if ps != [] {
      var isDir := if |ps| == 1 then lastIsDir else true;
      match Lookup(ns, cur, ps[0])
      case Some(c) =>
        WalkFacts(ns, c, ps[1..], lastIsDir);
        WalkFoundStep(ns, cur, ps, lastIsDir, c, Walk(ns, c, ps[1..], lastIsDir).0, Walk(ns, c, ps[1..], lastIsDir).1);
      case None =>
        WithChildWellFormed(ns, cur, ps[0], isDir);
        var ns1 := WithChild(ns, cur, ps[0], isDir);
        WalkFacts(ns1, |ns|, ps[1..], lastIsDir);
        WalkCreateStep(ns, cur, ps, lastIsDir, ns1, Walk(ns1, |ns|, ps[1..], lastIsDir).0, Walk(ns1, |ns|, ps[1..], lastIsDir).1);
    }
  }

  /** A walk step through an existing child `c` adds `c`'s name to the path. */
  lemma WalkFoundStep(ns: seq<Node>, cur: nat, ps: seq<string>, lastIsDir: bool, c: nat, ns': seq<Node>, r: nat)
    requires WellFormed(ns) && cur < |ns| && ps != []
    requires c in ns[cur].children && ns[c].name == ps[0]
    requires WellFormed(ns') && c < |ns| && r < |ns'|
    requires WalkOutcome(ns, c, ps[1..], lastIsDir, ns', r)
    ensures WalkOutcome(ns, cur, ps, lastIsDir, ns', r)
  {
    var k :| 0 <= k < |ns[cur].children| && ns[cur].children[k] == c;
    assert ns[c].parent == Some(cur);
    assert FullPath(ns, c) == FullPath(ns, cur) + [ps[0]];
    assert FullPath(ns, c) + ps[1..] == FullPath(ns, cur) + ps;
  }

  /** Keeping nodes is transitive. */
  lemma KeepsTrans(a: seq<Node>, b: seq<Node>, c: seq<Node>)
    requires Keeps(a, b) && Keeps(b, c)
    ensures Keeps(a, c)
  {
  }

  /** A walk step that creates the missing child adds a node at the end of
      the arena, a directory unless it is for the last segment. */
  lemma WalkCreateStep(ns: seq<Node>, cur: nat, ps: seq<string>, lastIsDir: bool, ns1: seq<Node>, ns': seq<Node>, r: nat)
    requires WellFormed(ns) && cur < |ns| && ps != []
    requires ns1 == WithChild(ns, cur, ps[0], if |ps| == 1 then lastIsDir else true)
    requires WellFormed(ns1) && WellFormed(ns') && r < |ns'|
    requires WalkOutcome(ns1, |ns|, ps[1..], lastIsDir, ns', r)
    ensures WalkOutcome(ns, cur, ps, lastIsDir, ns', r)
  {
    var m := |ns|;
    WithChildKeeps(ns, cur, ps[0], if |ps| == 1 then lastIsDir else true);
    KeepsTrans(ns, ns1, ns');
    WalkCreatePath(ns, cur, ps, ns1, ns', r);
    if |ps| == 1 {
      assert r == m;
    } else {
      assert r >= |ns1|;
    }
  }

  /** Adding a child keeps every old node, entry included, and puts the
      new node, without children or entry, at the end. */
  lemma WithChildKeeps(ns: seq<Node>, p: nat, name: string, isDir: bool)
    requires p < |ns|
    ensures var ns1 := WithChild(ns, p, name, isDir);
            && Keeps(ns, ns1) && |ns1| == |ns| + 1
            && ns1[|ns|] == Node(name, isDir, Some(p), [], None)
            && forall q :: 0 <= q < |ns| ==> ns1[q].zipinfo == ns[q].zipinfo
  {
    var ns1 := WithChild(ns, p, name, isDir);
    assert forall q :: 0 <= q < |ns| ==>
      ns1[q].name == ns[q].name && ns1[q].isDir == ns[q].isDir &&
      ns1[q].parent == ns[q].parent && ns1[q].zipinfo == ns[q].zipinfo;
  }

  /** The path half of WalkCreateStep. */
  lemma WalkCreatePath(ns: seq<Node>, cur: nat, ps: seq<string>, ns1: seq<Node>, ns': seq<Node>, r: nat)
    requires WellFormed(ns) && cur < |ns| && ps != []
    requires WellFormed(ns1) && Keeps(ns, ns1) && |ns| < |ns1|
    requires ns1[|ns|].name == ps[0] && ns1[|ns|].parent == Some(cur)
    requires WellFormed(ns') && r < |ns'|
    requires FullPath(ns', r) == FullPath(ns1, |ns|) + ps[1..]
    ensures FullPath(ns', r) == FullPath(ns, cur) + ps
  {
    FullPathFrame(ns, ns1, cur);
    var fp := FullPath(ns, cur);
    assert FullPath(ns1, |ns|) == fp + [ps[0]];
    assert [ps[0]] + ps[1..] == ps;
    assert fp + [ps[0]] + ps[1..] == fp + ps;
  }

  /** The node placing an entry at `ps` ends at. */
  function PlacedNode(ns: seq<Node>, ps: seq<string>, info: ZipInfo): nat
    requires WellFormed(ns)
  {
    Walk(ns, 0, ps, info.isDir).1
  }

  /** Placing an entry at `ps` keeps the old nodes with their paths and
      ends at the node whose path is `ps`. */
  lemma PlacePaths(ns: seq<Node>, ps: seq<string>, info: ZipInfo)
    requires WellFormed(ns)
    ensures var ns' := Place(ns, ps, info);
            var r := PlacedNode(ns, ps, info);
            && r < |ns'|
            && Keeps(ns, ns')
            && FullPath(ns', r) == ps
            && (forall q :: 0 <= q < |ns| ==> FullPath(ns', q) == FullPath(ns, q))
  {
    WalkFacts(ns, 0, ps, info.isDir);
    var w := Walk(ns, 0, ps, info.isDir);
    AttachedPaths(w.0, w.1, info);
    KeepsTrans(ns, w.0, Place(ns, ps, info));
    forall q | 0 <= q < |ns|
      ensures FullPath(w.0, q) == FullPath(ns, q)
    {
      FullPathFrame(ns, w.0, q);
    }
  }

  /** Attaching an entry changes no name, kind or parent. */
  lemma AttachedKeeps(ns: seq<Node>, r: nat, info: ZipInfo)
    requires WellFormed(ns) && r < |ns|
    ensures Keeps(ns, Attached(ns, r, info))
  {
    var ns' := Attached(ns, r, info);
    forall q | 0 <= q < |ns|
      ensures ns'[q].name == ns[q].name && ns'[q].isDir == ns[q].isDir && ns'[q].parent == ns[q].parent
    {
      if !ns[r].isDir && q == r {
        assert ns'[q] == ns[q].(zipinfo := Some(info));
      }
    }
  }

  /** Attaching an entry changes no name, kind, parent or path. */
  lemma AttachedPaths(ns: seq<Node>, r: nat, info: ZipInfo)
    requires WellFormed(ns) && r < |ns|
    ensures Keeps(ns, Attached(ns, r, info))
    ensures forall q :: 0 <= q < |ns| ==> FullPath(Attached(ns, r, info), q) == FullPath(ns, q)
  {
    AttachedKeeps(ns, r, info);
    var ns' := Attached(ns, r, info);
    forall q | 0 <= q < |ns|
      ensures FullPath(ns', q) == FullPath(ns, q)
    {
      FullPathFrame(ns, ns', q);
    }
  }

  /** Placing an entry at `ps` attaches it to the node reached if that node
      is a file and attaches nothing else: the other old nodes keep their
      entries, the other new nodes are directories without an entry, and a
      node created for the entry has the entry's kind. */
  lemma PlaceEntries(ns: seq<Node>, ps: seq<string>, info: ZipInfo)
    requires WellFormed(ns)
    ensures var ns' := Place(ns, ps, info);
            var r := PlacedNode(ns, ps, info);
            && r < |ns'|
            && (forall q :: 0 <= q < |ns| && q != r ==> ns'[q].zipinfo == ns[q].zipinfo)
            && (forall q :: |ns| <= q < |ns'| && q != r ==> ns'[q].isDir && ns'[q].zipinfo.None?)
            && (!ns'[r].isDir ==> ns'[r].zipinfo == Some(info))
            && (ns'[r].isDir ==> ns'[r].zipinfo == if r < |ns| then ns[r].zipinfo else None)
            && (r >= |ns| ==> ns'[r].isDir == info.isDir)
  {
    WalkFacts(ns, 0, ps, info.isDir);
    var w := Walk(ns, 0, ps, info.isDir);
    AttachEntries(ns, w.0, w.1, info);
  }

  /** The attaching half of PlaceEntries. */
  lemma AttachEntries(ns: seq<Node>, ns1: seq<Node>, r: nat, info: ZipInfo)
    requires WellFormed(ns1) && |ns| <= |ns1| && r < |ns1|
    requires forall q :: 0 <= q < |ns| ==> ns1[q].zipinfo == ns[q].zipinfo
    requires forall q :: |ns| <= q < |ns1| ==> ns1[q].zipinfo.None? && (q != r ==> ns1[q].isDir)
    requires r >= |ns| ==> ns1[r].isDir == info.isDir
    ensures var ns' := Attached(ns1, r, info);
            && (forall q :: 0 <= q < |ns| && q != r ==> ns'[q].zipinfo == ns[q].zipinfo)
            && (forall q :: |ns| <= q < |ns'| && q != r ==> ns'[q].isDir && ns'[q].zipinfo.None?)
            && (!ns'[r].isDir ==> ns'[r].zipinfo == Some(info))
            && (ns'[r].isDir ==> ns'[r].zipinfo == if r < |ns| then ns[r].zipinfo else None)
            && (r >= |ns| ==> ns'[r].isDir == info.isDir)
  {
  }

  /** What the tree says about the entries `seen` it was built from, whose
      segments are `paths`: directories carry no entry, and a file node
      carries the last entry whose segments are the node's path. */
  ghost predicate Reflects(ns: seq<Node>, seen: seq<ZipInfo>, paths: seq<seq<string>>)
  {
    && WellFormed(ns)
    && |paths| == |seen|
    && (forall n :: 0 <= n < |ns| && ns[n].isDir ==> ns[n].zipinfo.None?)
    && (forall n :: 0 <= n < |ns| && !ns[n].isDir ==>
          var i := LastIndexWith(paths, FullPath(ns, n));
          0 <= i && ns[n].zipinfo == Some(seen[i]))
  }

  /** Placing an entry at its segments keeps the tree a faithful index of
      the entries seen so far. */
  lemma PlaceReflects(ns: seq<Node>, seen: seq<ZipInfo>, paths: seq<seq<string>>, ps: seq<string>, info: ZipInfo)
    requires Reflects(ns, seen, paths)
    ensures Reflects(Place(ns, ps, info), seen + [info], paths + [ps])
  {
    PlacePaths(ns, ps, info);
    PlaceEntries(ns, ps, info);
    PlaceKeepsFileEntries(ns, seen, paths, ps, info);
  }

  /** After placing, every file node still carries the last entry at its
      path: the placed entry for the node reached, the old one elsewhere. */
  lemma PlaceKeepsFileEntries(ns: seq<Node>, seen: seq<ZipInfo>, paths: seq<seq<string>>, ps: seq<string>, info: ZipInfo)
    requires Reflects(ns, seen, paths)
    ensures var ns' := Place(ns, ps, info);
            forall n :: 0 <= n < |ns'| && !ns'[n].isDir ==>
              var i := LastIndexWith(paths + [ps], FullPath(ns', n));
              0 <= i && ns'[n].zipinfo == Some((seen + [info])[i])
  {
    PlacePaths(ns, ps, info);
    PlaceEntries(ns, ps, info);
    var r := PlacedNode(ns, ps, info);
    var ns' := Place(ns, ps, info);
    forall n | 0 <= n < |ns'| && !ns'[n].isDir
      ensures var i := LastIndexWith(paths + [ps], FullPath(ns', n));
              0 <= i && ns'[n].zipinfo == Some((seen + [info])[i])
    {
      var fp := FullPath(ns', n);
      LastIndexWithAppend(paths, ps, fp);
      if n != r {
        assert n < |ns|;
        if fp == ps {
          FullPathInjective(ns', n, r);
        }
        var i := LastIndexWith(paths, FullPath(ns, n));
        assert (seen + [info])[i] == seen[i];
      }
    }
  }

  /** `at[i]` is a node of `ns` at path `paths[i]`, for every `i`. */
  ghost predicate Covers(ns: seq<Node>, paths: seq<seq<string>>, at: seq<nat>)
    requires WellFormed(ns)
  {
    && |at| == |paths|
    && forall i :: 0 <= i < |at| ==> at[i] < |ns| && FullPath(ns, at[i]) == paths[i]
  }

  /** Placing an entry keeps the old nodes at their paths and adds the node
      reached for the new one. */
  lemma PlaceCovers(ns: seq<Node>, paths: seq<seq<string>>, at: seq<nat>, ps: seq<string>, info: ZipInfo)
    requires WellFormed(ns) && Covers(ns, paths, at)
    ensures Covers(Place(ns, ps, info), paths + [ps], at + [PlacedNode(ns, ps, info)])
  {
    PlacePaths(ns, ps, info);
    var ns' := Place(ns, ps, info);
    var at' := at + [PlacedNode(ns, ps, info)];
    forall i | 0 <= i < |at'|
      ensures at'[i] < |ns'| && FullPath(ns', at'[i]) == (paths + [ps])[i]
    {
      if i < |at| {
        assert at'[i] == at[i];
        assert FullPath(ns', at[i]) == FullPath(ns, at[i]);
      }
    }
  }

  /** Every entry of a listing has a node at its segments in the built tree:
      `at[i]` is the node for entry `i`. */
  lemma {:induction false} BuiltCovers(infos: seq<ZipInfo>) returns (at: seq<nat>)
    ensures Covers(Built(infos), Listing(infos), at)
  {
    if infos == [] {
      at := [];
    } else {
      var init := infos[..|infos| - 1];
      var last := infos[|infos| - 1];
      assert init + [last] == infos;
      ListingAppend(init, last);
      assert Listing(infos) == Listing(init) + [EntryParts(last)];
      assert Built(infos) == Place(Built(init), EntryParts(last), last);
      var at0 := BuiltCovers(init);
      PlaceCovers(Built(init), Listing(init), at0, EntryParts(last), last);
      at := at0 + [PlacedNode(Built(init), EntryParts(last), last)];
    }
  }

  /** The tree built from a listing is a faithful index of it. */
  lemma {:induction false} BuiltReflects(infos: seq<ZipInfo>)
    ensures Reflects(Built(infos), infos, Listing(infos))
  {
    if infos != [] {
      var init := infos[..|infos| - 1];
      var last := infos[|infos| - 1];
      assert init + [last] == infos;
      ListingAppend(init, last);
      assert Listing(infos) == Listing(init) + [EntryParts(last)];
      assert Built(infos) == Place(Built(init), EntryParts(last), last);
      BuiltReflects(init);
      PlaceReflects(Built(init), init, Listing(init), EntryParts(last), last);
    }
  }

  /** A file node of the built tree carries entry `i` of the listing: the
      entry's segments are the node's path (so `get_path_parts()` plus the
      node's name give the entry's name back), and no later entry has that
      path: when several entries share a path, the last one wins. */
  lemma BuiltFileEntry(infos: seq<ZipInfo>, n: nat) returns (i: nat)
    requires n < |Built(infos)| && !Built(infos)[n].isDir
    ensures i < |infos| && Built(infos)[n].zipinfo == Some(infos[i])
    ensures EntryParts(infos[i]) == PathOf(Built(infos), n) + [Built(infos)[n].name]
    ensures forall j :: i < j < |infos| ==> Listing(infos)[j] != FullPath(Built(infos), n)
  {
    BuiltReflects(infos);
    var ns := Built(infos);
    i := LastIndexWith(Listing(infos), FullPath(ns, n));
  }

  /** A directory node of the built tree carries no entry, even when the
      listing has an entry for that directory. */
  lemma BuiltDirEntry(infos: seq<ZipInfo>, n: nat)
    requires n < |Built(infos)| && Built(infos)[n].isDir
    ensures Built(infos)[n].zipinfo.None?
  {
    BuiltReflects(infos);
  }

  /** The tree built from any listing is well formed and each of its file
      nodes carries an entry, which is what extraction relies on. */
  lemma BuiltFilesHaveEntries(infos: seq<ZipInfo>)
    ensures WellFormed(Built(infos)) && FilesHaveEntries(Built(infos))
  {
    var ns := Built(infos);
    BuiltReflects(infos);
    forall n | 0 <= n < |ns| && !ns[n].isDir
      ensures ns[n].zipinfo.Some?
    {
      var i := BuiltFileEntry(infos, n);
    }
  }

  /** Every entry of the listing has exactly one node of the built tree at
      its segments. */
  lemma BuiltEntryNode(infos: seq<ZipInfo>, i: nat) returns (n: nat)
    requires i < |infos|
    ensures n < |Built(infos)| && FullPath(Built(infos), n) == EntryParts(infos[i])
    ensures forall m :: 0 <= m < |Built(infos)| && FullPath(Built(infos), m) == EntryParts(infos[i]) ==> m == n
  {
    var at := BuiltCovers(infos);
    n := at[i];
    var ns := Built(infos);
    forall m | 0 <= m < |ns| && FullPath(ns, m) == EntryParts(infos[i])
      ensures m == n
    {
      FullPathInjective(ns, m, n);
    }
  }

  /** Inserting an entry never changes the name, kind or parent of a node
      that exists; a node created for the entry (its path had no node yet)
      takes the entry's kind. So the kind of a node is that of the first
      entry that reaches its path, and a later entry of the other kind does
      not change it. */
  lemma InsertedKinds(ns: seq<Node>, info: ZipInfo) returns (r: nat)
    requires WellFormed(ns)
    ensures Keeps(ns, Inserted(ns, info))
    ensures r < |Inserted(ns, info)| && FullPath(Inserted(ns, info), r) == EntryParts(info)
    ensures (forall m :: 0 <= m < |ns| ==> FullPath(ns, m) != EntryParts(info)) ==>
              Inserted(ns, info)[r].isDir == info.isDir
  {
    PlacePaths(ns, EntryParts(info), info);
    PlaceEntries(ns, EntryParts(info), info);
    r := PlacedNode(ns, EntryParts(info), info);
    if r < |ns| {
      assert FullPath(ns, r) == EntryParts(info);
    }
  }

  /** No node other than the root is named "ROOT". */
  predicate NoRootNamed(ns: seq<Node>)
  {
    forall q :: 0 < q < |ns| ==> ns[q].name != RootName
  }

  /** While no node other than the root is named "ROOT", the as-written
      `get_path_parts` and the corrected one agree. */
  lemma {:induction false} PathPartsAgree(ns: seq<Node>, n: nat)
    requires WellFormed(ns) && n < |ns|
    requires NoRootNamed(ns)
    ensures PathPartsAsWritten(ns, n) == PathOf(ns, n)
    decreases n
  {
    if n > 0 {
      var p := ns[n].parent.value;
      PathPartsAgree(ns, p);
    }
  }

  /** PathPartsAgree, for any tree: the two agree whenever no node other
      than the root is named "ROOT". */
  lemma PathPartsAgreeWhen(ns: seq<Node>, n: nat)
    requires WellFormed(ns) && n < |ns|
    ensures NoRootNamed(ns) ==> PathPartsAsWritten(ns, n) == PathOf(ns, n)
  {
    if NoRootNamed(ns) {
      PathPartsAgree(ns, n);
    }
  }

  /** `RemoteZipModel`: owns the arena and builds it from the listing. */
  class RemoteZipModel {
    var nodes: seq<Node>

    /** `RemoteZipModel.__init__`: the root, then every entry in order. */
    constructor (infos: seq<ZipInfo>)
      ensures nodes == Built(infos)
    {
      nodes := [RootNode];
      new;
      var k := 0;
      assert infos[..0] == [];
      while k < |infos|
        invariant k <= |infos|
        invariant WellFormed(nodes)
        invariant nodes == Built(infos[..k])
      {
        AddInfo(infos[k]);
        BuiltStep(infos, k);
        k := k + 1;
      }
      assert infos[..k] == infos;
    }

    /** `Node(name, is_dir)` then `current.add_child(child)`: the new node's
        index is returned. */
    method AddChild(p: nat, name: string, isDir: bool) returns (c: nat)
      requires p < |nodes|
      modifies this
      ensures c == |old(nodes)|
      ensures nodes == WithChild(old(nodes), p, name, isDir)
    {
      c := |nodes|;
      nodes := nodes[p := nodes[p].(children := nodes[p].children + [c])] + [Node(name, isDir, Some(p), [], None)];
    }

    /** The generator expression that looks a child up by name. */
    method FindChild(p: nat, name: string) returns (r: Option<nat>)
      requires WellFormed(nodes) && p < |nodes|
      ensures r == Lookup(nodes, p, name)
    {
      var cs := nodes[p].children;
      var k := 0;
      while k < |cs|
        invariant k <= |cs|
        invariant LookupIn(nodes, cs[k..], name) == LookupIn(nodes, cs, name)
      {
        if nodes[cs[k]].name == name {
          return Some(cs[k]);
        }
        assert cs[k..][1..] == cs[k + 1..];
        k := k + 1;
      }
      r := None;
    }

    /** One pass of the inner loop: find the child of `current` named
        `name` or create it with kind `isDir`; `ps` is what remains of the
        segments, `name` first. */
    method Descend(current: nat, name: string, isDir: bool, ghost ps: seq<string>, ghost lastIsDir: bool) returns (c: nat)
      requires WellFormed(nodes) && current < |nodes|
      requires ps != [] && name == ps[0] && isDir == (if |ps| == 1 then lastIsDir else true)
      modifies this
      ensures WellFormed(nodes) && c < |nodes|
      ensures Walk(nodes, c, ps[1..], lastIsDir) == Walk(old(nodes), current, ps, lastIsDir)
    {
      WalkStep(nodes, current, ps, lastIsDir);
      var child := FindChild(current, name);
      if child.None? {
        c := AddChild(current, name, isDir);
      } else {
        c := child.value;
      }
    }

    /** The body of the loop over `rz.infolist()`. */
    method AddInfo(info: ZipInfo)
      requires WellFormed(nodes)
      modifies this
      ensures nodes == Inserted(old(nodes), info)
    {
      var parts := Split(Strip(info.filename));
      var current: nat := 0;
      var i := 0;
      while i < |parts|
        invariant i <= |parts|
        invariant WellFormed(nodes) && current < |nodes|
        invariant Walk(nodes, current, parts[i..], info.isDir) == Walk(old(nodes), 0, parts, info.isDir)
      {
        var isLast := i == |parts| - 1;
        var isDir := if isLast then info.isDir else true;
        assert parts[i..][1..] == parts[i + 1..];
        current := Descend(current, parts[i], isDir, parts[i..], info.isDir);
        i := i + 1;
      }
      if !nodes[current].isDir {
        nodes := nodes[current := nodes[current].(zipinfo := Some(info))];
      }
    }

    /** `Node.get_path_parts`, as written: follows parent links and prepends
        each ancestor's name unless that name is "ROOT". */
    method GetPathParts(n: nat) returns (parts: seq<string>)
      requires WellFormed(nodes) && n < |nodes|
      ensures parts == PathPartsAsWritten(nodes, n)
    {
      parts := [];
      var node: nat := n;
      while nodes[node].parent.Some?
        invariant node < |nodes|
        invariant PathPartsAsWritten(nodes, n) == PathPartsAsWritten(nodes, node) + parts
        decreases node
      {
        var p := nodes[node].parent.value;
        if nodes[p].name != RootName {
          parts := [nodes[p].name] + parts;
        }
        node := p;
      }
    }
  }
}
