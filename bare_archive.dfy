/** The "Download Bare Zip" export: the archive's directory structure is
    written to a new zip file, one member per node below the root, with an
    empty payload for every member, directories named with a trailing
    separator. */
module BareArchive {
  import opened Common
  import opened Paths
  import opened PathTree
  import opened Traversal

  /** One member of the written archive: its name and its payload. */
  datatype Member = Member(name: string, data: seq<byte>)

  /** The zip file being written, as the members written to it so far. */
  class ZipWriter {
    var members: seq<Member>

    constructor ()
      ensures members == []
    {
      members := [];
    }

    /** `writestr`: one more member at the end of the archive. */
    method WriteStr(name: string, data: seq<byte>)
      modifies this
      ensures members == old(members) + [Member(name, data)]
    {
      members := members + [Member(name, data)];
    }
  }

  /** True when `s` ends with the separator. */
  predicate EndsWithSlash(s: string)
  {
    s != [] && s[|s| - 1] == Slash
  }

  /** The member name `add_node` uses for a node called `name` below the
      segments `base`: the segments joined by separators, with one separator
      appended for a directory unless the joined path already ends in one. */
  function MemberName(base: seq<string>, name: string, isDir: bool): string
  {
    var path := Join(base + [name]);
    if isDir && !EndsWithSlash(path) then path + [Slash] else path
  }

  /** The member `add_node` writes for node `n`. */
  function MemberOf(ns: seq<Node>, n: nat): Member
    requires WellFormed(ns) && n < |ns|
  {
    Member(MemberName(PathOf(ns, n), ns[n].name, ns[n].isDir), [])
  }

  /** The member `add_node` would write for each node of the arena. */
  function MemberTable(ns: seq<Node>): (t: seq<Member>)
    requires WellFormed(ns)
    ensures |t| == |ns| && forall n :: 0 <= n < |ns| ==> t[n] == MemberOf(ns, n)
  {
    seq(|ns|, n requires 0 <= n < |ns| => MemberOf(ns, n))
  }

  /** The members for the nodes of `order`, in that order. */
  function Members(ns: seq<Node>, order: seq<nat>): seq<Member>
    requires WellFormed(ns)
    requires forall k :: 0 <= k < |order| ==> order[k] < |ns|
  {
    Pick(MemberTable(ns), order)
  }

  /** The members for two walks one after the other are the members for
      the first, then those for the second. */
  lemma MembersAppend(ns: seq<Node>, a: seq<nat>, b: seq<nat>)
    requires WellFormed(ns)
    requires forall k :: 0 <= k < |a| ==> a[k] < |ns|
    requires forall k :: 0 <= k < |b| ==> b[k] < |ns|
    ensures Members(ns, a + b) == Members(ns, a) + Members(ns, b)
  {
    PickAppend(MemberTable(ns), a, b);
  }

  /** The members below the first `k + 1` children of directory `p` are
      those below the first `k`, then those below child `k`. */
  lemma KidsStep(ns: seq<Node>, p: nat, k: nat, prefix: seq<Member>, mid: seq<Member>, after: seq<Member>)
    requires WellFormed(ns) && p < |ns| && k < |ns[p].children|
    requires mid == prefix + Members(ns, PreorderKids(ns, p, k))
    requires after == mid + Members(ns, Preorder(ns, ns[p].children[k]))
    ensures after == prefix + Members(ns, PreorderKids(ns, p, k + 1))
  {
    var kids := PreorderKids(ns, p, k);
    var below := Preorder(ns, ns[p].children[k]);
    assert PreorderKids(ns, p, k + 1) == kids + below;
    MembersAppend(ns, kids, below);
    assert after == prefix + (Members(ns, kids) + Members(ns, below));
  }

  /** Child `k` of a node sits below that node's full path. */
  lemma ChildBase(ns: seq<Node>, p: nat, k: nat)
    requires WellFormed(ns) && p < |ns| && k < |ns[p].children|
    ensures p < ns[p].children[k] < |ns|
    ensures PathOf(ns, ns[p].children[k]) == FullPath(ns, p)
  {
    assert ns[ns[p].children[k]].parent == Some(p);
  }

  /** The members for `n` followed by `order`: the member for `n`, then
      those for `order`. */
  lemma MembersCons(ns: seq<Node>, n: nat, order: seq<nat>, prefix: seq<Member>)
    requires WellFormed(ns) && n < |ns|
    requires forall k :: 0 <= k < |order| ==> order[k] < |ns|
    ensures prefix + [MemberOf(ns, n)] + Members(ns, order) == prefix + Members(ns, [n] + order)
  {
    var tbl := MemberTable(ns);
    assert ([n] + order)[0] == n && ([n] + order)[1..] == order;
    assert Pick(tbl, [n] + order) == [tbl[n]] + Pick(tbl, order);
  }

  /** `add_node(node, base_parts)`: the member for `n`, then, for a
      directory, the members below each child in order. File nodes are not
      descended into, whatever children they have. */
  method AddNode(zf: ZipWriter, ns: seq<Node>, n: nat, base: seq<string>)
    requires WellFormed(ns) && 0 < n < |ns| && base == PathOf(ns, n)
    modifies zf
    ensures zf.members == old(zf.members) + Members(ns, Preorder(ns, n))
    decreases |ns| - n, 1
  {
    var path := Join(base + [ns[n].name]);
    if ns[n].isDir {
      if !EndsWithSlash(path) {
        path := path + [Slash];
      }
      assert path == MemberOf(ns, n).name;
      zf.WriteStr(path, []);
      AddChildren(zf, ns, n, base + [ns[n].name]);
      assert Preorder(ns, n) == [n] + PreorderKids(ns, n, |ns[n].children|);
      MembersCons(ns, n, PreorderKids(ns, n, |ns[n].children|), old(zf.members));
    } else {
      zf.WriteStr(path, []);
      assert Preorder(ns, n) == [n] + [];
      MembersCons(ns, n, [], old(zf.members));
    }
  }

  /** The loop `for child in node.children: add_node(child, dir)` of
      `add_node`, and the same loop over the root's children that starts
      the export: the members below each child, child by child. `dir` is
      the segments of `n`'s own path. */
  method AddChildren(zf: ZipWriter, ns: seq<Node>, n: nat, dir: seq<string>)
    requires WellFormed(ns) && n < |ns| && dir == FullPath(ns, n)
    modifies zf
    ensures zf.members == old(zf.members) + Members(ns, PreorderKids(ns, n, |ns[n].children|))
    decreases |ns| - n, 0
  {
    var children := ns[n].children;
    for k := 0 to |children|
      invariant zf.members == old(zf.members) + Members(ns, PreorderKids(ns, n, k))
    {
      var c := children[k];
      ChildBase(ns, n, k);
      ghost var mid := zf.members;
      AddNode(zf, ns, c, dir);
      KidsStep(ns, n, k, old(zf.members), mid, zf.members);
    }
  }

  /** The export as a whole: `add_node(child, [])` for each child of the
      root, into a new archive. */
  method ExportBare(ns: seq<Node>) returns (zf: ZipWriter)
    requires WellFormed(ns)
    ensures zf.members == Members(ns, Preorder(ns, 0)[1..])
  {
    zf := new ZipWriter();
    AddChildren(zf, ns, 0, []);
    assert Preorder(ns, 0)[1..] == PreorderKids(ns, 0, |ns[0].children|);
  }

  /** A node is exported exactly when it lies below the root through
      directories only. */
  lemma ExportedIff(ns: seq<Node>, m: nat)
    requires WellFormed(ns) && m < |ns|
    ensures m in Preorder(ns, 0)[1..] <==> 0 < m && Reaches(ns, 0, m)
  {
    var all := Preorder(ns, 0);
    var order := all[1..];
    PreorderIff(ns, 0, m);
    PreorderDistinct(ns, 0);
    if m in order {
      var i :| 0 <= i < |order| && order[i] == m;
      assert all[i + 1] == m && all[0] == 0;
    }
  }

  /** Dropping the first element keeps a sequence free of repeats. */
  lemma DistinctTail(s: seq<nat>)
    requires |s| > 0 && Distinct(s)
    ensures Distinct(s[1..])
  {
    forall i, j | 0 <= i < j < |s| - 1
      ensures s[1..][i] != s[1..][j]
    {
      assert s[1..][i] == s[i + 1] && s[1..][j] == s[j + 1];
    }
  }

  /** Dropping the first element keeps parents ahead of their children. */
  lemma ParentFirstTail(ns: seq<Node>, s: seq<nat>)
    requires |s| > 0 && ParentFirst(ns, s)
    ensures ParentFirst(ns, s[1..])
  {
    forall i, j | 0 <= i < |s| - 1 && 0 <= j < |s| - 1
      ensures s[1..][i] == s[i + 1] && s[1..][j] == s[j + 1]
    {
    }
  }

  /** The export order names each node once, every directory ahead of the
      nodes inside it. */
  lemma ExportOrder(ns: seq<Node>)
    requires WellFormed(ns)
    ensures Distinct(Preorder(ns, 0)[1..])
    ensures ParentFirst(ns, Preorder(ns, 0)[1..])
  {
    PreorderDistinct(ns, 0);
    PreorderParentFirst(ns, 0);
    DistinctTail(Preorder(ns, 0));
    ParentFirstTail(ns, Preorder(ns, 0));
  }

  /** The name `add_node` gives to plain segments `ps` reads back as `ps`,
      and ends in a separator exactly for a directory. */
  lemma NameReadBack(ps: seq<string>, isDir: bool)
    requires |ps| >= 1 && forall k :: 0 <= k < |ps| ==> Plain(ps[k])
    ensures EndsWithSlash(MemberName(ps[..|ps| - 1], ps[|ps| - 1], isDir)) <==> isDir
    ensures Split(Strip(MemberName(ps[..|ps| - 1], ps[|ps| - 1], isDir))) == ps
  {
    assert ps[..|ps| - 1] + [ps[|ps| - 1]] == ps;
    var path := Join(ps);
    JoinPlainEnds(ps);
    StripJoin(ps);
    SplitJoin(ps);
    assert !EndsWithSlash(path);
  }

  /** Every member is empty; a member names a directory exactly when its
      node is one; and, when no name along the way is empty or holds a
      separator, reading the member's name back the way the tree builder
      does (strip separators, split at them) gives the node's path. */
  lemma MemberReadBack(ns: seq<Node>, m: nat)
    requires WellFormed(ns) && PlainNames(ns) && 0 < m < |ns|
    ensures MemberOf(ns, m).data == []
    ensures EndsWithSlash(MemberOf(ns, m).name) <==> ns[m].isDir
    ensures Split(Strip(MemberOf(ns, m).name)) == FullPath(ns, m)
  {
    var ps := FullPath(ns, m);
    FullPathPlain(ns, m);
    assert ps[..|ps| - 1] == PathOf(ns, m) && ps[|ps| - 1] == ns[m].name;
    NameReadBack(ps, ns[m].isDir);
  }

  /** Different nodes give members with different names. */
  lemma MemberNamesDistinct(ns: seq<Node>, a: nat, b: nat)
    requires WellFormed(ns) && PlainNames(ns) && 0 < a < |ns| && 0 < b < |ns| && a != b
    ensures MemberOf(ns, a).name != MemberOf(ns, b).name
  {
    if MemberOf(ns, a).name == MemberOf(ns, b).name {
      MemberReadBack(ns, a);
      MemberReadBack(ns, b);
      FullPathInjective(ns, a, b);
    }
  }
}
