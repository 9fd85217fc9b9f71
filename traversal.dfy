/** The two depth-first walks over the tree: `collect_files` in
    `ExtractWorker.run`, which gathers the file nodes below the selection,
    and the preorder walk of `add_node` in the bare-archive export.

    Both descend only into directory nodes. A file node can have children
    (an entry "a" followed by an entry "a/b" makes the file node "a" a
    parent), and neither walk ever visits them. */
module Traversal {
  import opened Common
  import opened PathTree

  /** `m` is `n` itself or lies below `n` with only directories between
      them, `n` included: the nodes a walk from `n` that descends only into
      directories visits. */
  ghost predicate Reaches(ns: seq<Node>, n: nat, m: nat)
    requires WellFormed(ns) && n < |ns| && m < |ns|
    decreases m
  {
    m == n || (n < m && ns[ns[m].parent.value].isDir && Reaches(ns, n, ns[m].parent.value))
  }

  /** No element occurs twice. */
  predicate Distinct(s: seq<nat>)
  {
    forall i, j :: 0 <= i < j < |s| ==> s[i] != s[j]
  }

  /** Within `s`, a node whose parent also occurs in `s` comes after it. */
  ghost predicate ParentFirst(ns: seq<Node>, s: seq<nat>)
  {
    forall i, j :: 0 <= i < |s| && 0 <= j < |s| && s[j] < |ns| && ns[s[j]].parent == Some(s[i]) ==> i < j
  }

  /** The nodes `add_node` visits from `n`: `n`, then, when `n` is a
      directory, the walks from each of its children in order. */
  function Preorder(ns: seq<Node>, n: nat): (r: seq<nat>)
    requires Ordered(ns) && n < |ns|
    ensures |r| > 0 && r[0] == n
    ensures forall i :: 0 <= i < |r| ==> r[i] < |ns|
    decreases |ns| - n, 1, 0
  {
    [n] + (if ns[n].isDir then PreorderKids(ns, n, |ns[n].children|) else [])
  }

  /** The walks from the first `k` children of `p`, one after the other. */
  function PreorderKids(ns: seq<Node>, p: nat, k: nat): (r: seq<nat>)
    requires Ordered(ns) && p < |ns| && k <= |ns[p].children|
    ensures forall i :: 0 <= i < |r| ==> r[i] < |ns|
    decreases |ns| - p, 0, k
  {
    if k == 0 then [] else PreorderKids(ns, p, k - 1) + Preorder(ns, ns[p].children[k - 1])
  }

  /** `collect_files(n)`: a file node is collected itself; a directory
      collects what each of its children collects, in order. */
  function Leaves(ns: seq<Node>, n: nat): (r: seq<nat>)
    requires Ordered(ns) && n < |ns|
    ensures forall i :: 0 <= i < |r| ==> r[i] < |ns|
    decreases |ns| - n, 1, 0
  {
    if ns[n].isDir then LeavesKids(ns, n, |ns[n].children|) else [n]
  }

  /** What `collect_files` gathers from the first `k` children of `p`. */
  function LeavesKids(ns: seq<Node>, p: nat, k: nat): (r: seq<nat>)
    requires Ordered(ns) && p < |ns| && k <= |ns[p].children|
    ensures forall i :: 0 <= i < |r| ==> r[i] < |ns|
    decreases |ns| - p, 0, k
  {
    if k == 0 then [] else LeavesKids(ns, p, k - 1) + Leaves(ns, ns[p].children[k - 1])
  }

  /** The file nodes of `s`, in order. */
  function Files(ns: seq<Node>, s: seq<nat>): (r: seq<nat>)
  {
    if s == [] then []
    else
      var last := s[|s| - 1];
      Files(ns, s[..|s| - 1]) + (if last < |ns| && !ns[last].isDir then [last] else [])
  }

  /** `files_to_extract` after `collect_files` has run on every node of the
      selection `sel`, in selection order. */
  function Collected(ns: seq<Node>, sel: seq<nat>): (r: seq<nat>)
    requires Ordered(ns)
    requires forall k :: 0 <= k < |sel| ==> sel[k] < |ns|
    ensures forall i :: 0 <= i < |r| ==> r[i] < |ns|
  {
    if sel == [] then [] else Collected(ns, sel[..|sel| - 1]) + Leaves(ns, sel[|sel| - 1])
  }

  // ---------------------------------------------------------------------
  // Reachability

  /** Only nodes at or after `n` are reached from `n`. */
  lemma {:induction false} ReachesLower(ns: seq<Node>, n: nat, m: nat)
    requires WellFormed(ns) && n < |ns| && m < |ns| && Reaches(ns, n, m)
    ensures n <= m
  {
  }

  /** What a child `c` of the directory `p` reaches, `p` reaches. */
  lemma {:induction false} ReachesFromParent(ns: seq<Node>, p: nat, c: nat, m: nat)
    requires WellFormed(ns) && p < |ns| && c < |ns| && m < |ns|
    requires ns[p].isDir && 0 < c && ns[c].parent == Some(p)
    requires Reaches(ns, c, m)
    ensures Reaches(ns, p, m)
    decreases m
  {
    if m != c {
      ReachesFromParent(ns, p, c, ns[m].parent.value);
    }
  }

  /** Two nodes that reach a common node lie on one line: the earlier one
      reaches the later one. */
  lemma {:induction false} ReachesJoin(ns: seq<Node>, a: nat, b: nat, x: nat)
    requires WellFormed(ns) && a < |ns| && b < |ns| && x < |ns|
    requires a <= b && Reaches(ns, a, x) && Reaches(ns, b, x)
    ensures Reaches(ns, a, b)
    decreases x
  {
    if x != b {
      ReachesJoin(ns, a, b, ns[x].parent.value);
    }
  }

  /** Two different children of one node reach no common node. */
  lemma SiblingsApart(ns: seq<Node>, p: nat, j: nat, k: nat, x: nat)
    requires WellFormed(ns) && p < |ns| && j < |ns[p].children| && k < |ns[p].children| && x < |ns|
    requires j != k && Reaches(ns, ns[p].children[j], x)
    ensures !Reaches(ns, ns[p].children[k], x)
  {
    var cj := ns[p].children[j];
    var ck := ns[p].children[k];
    if Reaches(ns, ck, x) && cj != ck {
      if cj < ck {
        ReachesJoin(ns, cj, ck, x);
        ReachesLower(ns, cj, p);
      } else {
        ReachesJoin(ns, ck, cj, x);
        ReachesLower(ns, ck, p);
      }
    }
  }

  // ---------------------------------------------------------------------
  // The preorder walk visits exactly the reached nodes, once each

  /** Every node of the walk from `n` is reached from `n`. */
  lemma {:induction false} PreorderReaches(ns: seq<Node>, n: nat, m: nat)
    requires WellFormed(ns) && n < |ns| && m in Preorder(ns, n)
    ensures m < |ns| && Reaches(ns, n, m)
    decreases |ns| - n, 1, 0
  {
    if m != n {
      var j := PreorderKidsReach(ns, n, |ns[n].children|, m);
      ReachesFromParent(ns, n, ns[n].children[j], m);
    }
  }

  /** Every node of the walks from the first `k` children of `p` is
      reached from one of them, which is returned. */
  lemma {:induction false} PreorderKidsReach(ns: seq<Node>, p: nat, k: nat, m: nat) returns (j: nat)
    requires WellFormed(ns) && p < |ns| && k <= |ns[p].children| && m in PreorderKids(ns, p, k)
    ensures j < k && m < |ns| && Reaches(ns, ns[p].children[j], m)
    decreases |ns| - p, 0, k
  {
    if m in PreorderKids(ns, p, k - 1) {
      j := PreorderKidsReach(ns, p, k - 1, m);
    } else {
      j := k - 1;
      PreorderReaches(ns, ns[p].children[k - 1], m);
    }
  }

  /** The walk from a child of `p` is part of the walks from the first `k`
      children of `p`, once `k` is past it. */
  lemma {:induction false} KidsContain(ns: seq<Node>, p: nat, k: nat, j: nat, x: nat)
    requires Ordered(ns) && p < |ns| && j < k <= |ns[p].children|
    requires x in Preorder(ns, ns[p].children[j])
    ensures x in PreorderKids(ns, p, k)
    decreases k
  {
    if j < k - 1 {
      KidsContain(ns, p, k - 1, j, x);
    }
  }

  /** The walk from a reached node is part of the walk from `n`. */
  lemma {:induction false} PreorderContains(ns: seq<Node>, n: nat, m: nat)
    requires WellFormed(ns) && n < |ns| && m < |ns| && Reaches(ns, n, m)
    ensures forall x :: x in Preorder(ns, m) ==> x in Preorder(ns, n)
    decreases m
  {
    if m != n {
      var q := ns[m].parent.value;
      PreorderContains(ns, n, q);
      var j :| 0 <= j < |ns[q].children| && ns[q].children[j] == m;
      forall x | x in Preorder(ns, m)
        ensures x in Preorder(ns, n)
      {
        KidsContain(ns, q, |ns[q].children|, j, x);
      }
    }
  }

  /** The walk from `n` visits a node if and only if `n` reaches it. */
  lemma PreorderIff(ns: seq<Node>, n: nat, m: nat)
    requires WellFormed(ns) && n < |ns| && m < |ns|
    ensures m in Preorder(ns, n) <==> Reaches(ns, n, m)
  {
    if m in Preorder(ns, n) {
      PreorderReaches(ns, n, m);
    }
    if Reaches(ns, n, m) {
      PreorderContains(ns, n, m);
    }
  }

  /** Two sequences without repeats and without common elements concatenate
      to one without repeats. */
  lemma DistinctConcat(a: seq<nat>, b: seq<nat>)
    requires Distinct(a) && Distinct(b)
    requires forall x :: x in a ==> x !in b
    ensures Distinct(a + b)
  {
    forall i, j | 0 <= i < j < |a + b|
      ensures (a + b)[i] != (a + b)[j]
    {
      if i < |a| && |a| <= j {
        assert (a + b)[i] in a && (a + b)[j] in b;
      }
    }
  }

  /** The walk from `n` visits no node twice. */
  lemma {:induction false} PreorderDistinct(ns: seq<Node>, n: nat)
    requires WellFormed(ns) && n < |ns|
    ensures Distinct(Preorder(ns, n))
    decreases |ns| - n, 1, 0
  {
    if ns[n].isDir {
      var kids := PreorderKids(ns, n, |ns[n].children|);
      PreorderKidsDistinct(ns, n, |ns[n].children|);
      forall x | x in kids
        ensures x != n
      {
        var j := PreorderKidsReach(ns, n, |ns[n].children|, x);
        ReachesLower(ns, ns[n].children[j], x);
      }
      DistinctConcat([n], kids);
    }
  }

  /** The walks from the first `k` children of `p` visit no node twice. */
  lemma {:induction false} PreorderKidsDistinct(ns: seq<Node>, p: nat, k: nat)
    requires WellFormed(ns) && p < |ns| && k <= |ns[p].children|
    ensures Distinct(PreorderKids(ns, p, k))
    decreases |ns| - p, 0, k
  {
    if k > 0 {
      var a := PreorderKids(ns, p, k - 1);
      var b := Preorder(ns, ns[p].children[k - 1]);
      PreorderKidsDistinct(ns, p, k - 1);
      PreorderDistinct(ns, ns[p].children[k - 1]);
      forall x | x in a
        ensures x !in b
      {
        KidsApart(ns, p, k, x);
      }
      DistinctConcat(a, b);
    }
  }

  /** A node of the walks from the first `k - 1` children of `p` is not in
      the walk from child `k - 1`. */
  lemma KidsApart(ns: seq<Node>, p: nat, k: nat, x: nat)
    requires WellFormed(ns) && p < |ns| && 0 < k <= |ns[p].children|
    requires x in PreorderKids(ns, p, k - 1)
    ensures x !in Preorder(ns, ns[p].children[k - 1])
  {
    var j := PreorderKidsReach(ns, p, k - 1, x);
    NotInSiblingWalk(ns, p, j, k - 1, x);
  }

  /** A node below child `j` of `p` is not in the walk from another child. */
  lemma NotInSiblingWalk(ns: seq<Node>, p: nat, j: nat, k: nat, x: nat)
    requires WellFormed(ns) && p < |ns| && j < |ns[p].children| && k < |ns[p].children| && x < |ns|
    requires j != k && Reaches(ns, ns[p].children[j], x)
    ensures x !in Preorder(ns, ns[p].children[k])
  {
    SiblingsApart(ns, p, j, k, x);
    PreorderIff(ns, ns[p].children[k], x);
  }

  /** Concatenation keeps parents first when no node of the first part has
      its parent in the second. */
  lemma ParentFirstConcat(ns: seq<Node>, a: seq<nat>, b: seq<nat>)
    requires ParentFirst(ns, a) && ParentFirst(ns, b)
    requires forall i, j :: 0 <= i < |a| && 0 <= j < |b| && a[i] < |ns| ==> ns[a[i]].parent != Some(b[j])
    ensures ParentFirst(ns, a + b)
  {
    var s := a + b;
    forall i, j | 0 <= i < |s| && 0 <= j < |s| && s[j] < |ns| && ns[s[j]].parent == Some(s[i])
      ensures i < j
    {
      if i < |a| && j < |a| {
        assert s[i] == a[i] && s[j] == a[j];
      } else if |a| <= i && |a| <= j {
        assert s[i] == b[i - |a|] && s[j] == b[j - |a|];
      } else if j < |a| {
        assert false;
      }
    }
  }

  /** In the walk from `n`, every node comes after its parent: a directory
      is visited before anything below it. */
  lemma {:induction false} PreorderParentFirst(ns: seq<Node>, n: nat)
    requires WellFormed(ns) && n < |ns|
    ensures ParentFirst(ns, Preorder(ns, n))
    decreases |ns| - n, 1, 0
  {
    if ns[n].isDir {
      var kids := PreorderKids(ns, n, |ns[n].children|);
      PreorderKidsParentFirst(ns, n, |ns[n].children|);
      forall i, j | 0 <= i < |[n]| && 0 <= j < |kids|
        ensures ns[[n][i]].parent != Some(kids[j])
      {
        var y := kids[j];
        var l := PreorderKidsReach(ns, n, |ns[n].children|, y);
        ReachesLower(ns, ns[n].children[l], y);
      }
      ParentFirstConcat(ns, [n], kids);
    }
  }

  /** The walks from the first `k` children of `p` keep every node after
      its parent. */
  lemma {:induction false} PreorderKidsParentFirst(ns: seq<Node>, p: nat, k: nat)
    requires WellFormed(ns) && p < |ns| && k <= |ns[p].children|
    ensures ParentFirst(ns, PreorderKids(ns, p, k))
    decreases |ns| - p, 0, k
  {
    if k > 0 {
      var a := PreorderKids(ns, p, k - 1);
      var c := ns[p].children[k - 1];
      var b := Preorder(ns, c);
      PreorderKidsParentFirst(ns, p, k - 1);
      PreorderParentFirst(ns, c);
      forall i, l | 0 <= i < |a| && 0 <= l < |b| && a[i] < |ns|
        ensures ns[a[i]].parent != Some(b[l])
      {
        LaterKidsNotParents(ns, p, k, a[i], b[l]);
      }
      ParentFirstConcat(ns, a, b);
    }
  }

  /** No node below child `j` of `p` is a child of a node below a later
      child `k`. */
  lemma ParentNotAcross(ns: seq<Node>, p: nat, j: nat, k: nat, x: nat, y: nat)
    requires WellFormed(ns) && p < |ns| && j < k < |ns[p].children| && x < |ns| && y < |ns|
    requires Reaches(ns, ns[p].children[j], x) && Reaches(ns, ns[p].children[k], y)
    ensures ns[x].parent != Some(y)
  {
    var cj, ck := ns[p].children[j], ns[p].children[k];
    if ns[x].parent == Some(y) {
      if x == cj {
        ReachesLower(ns, ck, y);
      } else {
        SiblingsApart(ns, p, j, k, y);
      }
    }
  }

  /** No node of the walks from the first `k - 1` children of `p` is a
      child of a node of the walk from child `k - 1`. */
  lemma LaterKidsNotParents(ns: seq<Node>, p: nat, k: nat, x: nat, y: nat)
    requires WellFormed(ns) && p < |ns| && 0 < k <= |ns[p].children|
    requires x in PreorderKids(ns, p, k - 1) && y in Preorder(ns, ns[p].children[k - 1])
    ensures x < |ns| && ns[x].parent != Some(y)
  {
    var j := PreorderKidsReach(ns, p, k - 1, x);
    PreorderReaches(ns, ns[p].children[k - 1], y);
    ParentNotAcross(ns, p, j, k - 1, x, y);
  }

  // ---------------------------------------------------------------------
  // collect_files gathers exactly the file nodes of the walk

  /** Filtering distributes over concatenation. */
  lemma {:induction false} FilesAppend(ns: seq<Node>, a: seq<nat>, b: seq<nat>)
    ensures Files(ns, a + b) == Files(ns, a) + Files(ns, b)
    decreases |b|
  {
    if b == [] {
      assert a + b == a;
    } else {
      assert (a + b)[..|a + b| - 1] == a + b[..|b| - 1];
      FilesAppend(ns, a, b[..|b| - 1]);
    }
  }

  /** Filtering two parts and concatenating is filtering the whole. */
  lemma FilesOfConcat(ns: seq<Node>, fa: seq<nat>, fb: seq<nat>, a: seq<nat>, b: seq<nat>)
    requires fa == Files(ns, a) && fb == Files(ns, b)
    ensures fa + fb == Files(ns, a + b)
  {
    FilesAppend(ns, a, b);
  }

  /** The filter keeps exactly the file nodes, and repeats none when the
      input repeats none. */
  lemma {:induction false} FilesSpec(ns: seq<Node>, s: seq<nat>)
    requires forall i :: 0 <= i < |s| ==> s[i] < |ns|
    ensures forall x :: x in Files(ns, s) <==> x in s && !ns[x].isDir
    ensures Distinct(s) ==> Distinct(Files(ns, s))
  {
    if s != [] {
      var init := s[..|s| - 1];
      var last := s[|s| - 1];
      assert s == init + [last];
      FilesSpec(ns, init);
      if Distinct(s) {
        assert Distinct(init);
        assert last !in init;
        DistinctConcat(Files(ns, init), if ns[last].isDir then [] else [last]);
      }
    }
  }

  /** `collect_files` is the preorder walk with the directories filtered
      out. */
  lemma {:induction false} LeavesAreFiles(ns: seq<Node>, n: nat)
    requires Ordered(ns) && n < |ns|
    ensures Leaves(ns, n) == Files(ns, Preorder(ns, n))
    decreases |ns| - n, 1, 0
  {
    if ns[n].isDir {
      LeavesKidsAreFiles(ns, n, |ns[n].children|);
      FilesAppend(ns, [n], PreorderKids(ns, n, |ns[n].children|));
      assert Files(ns, [n]) == [];
    } else {
      assert Files(ns, [n]) == [n];
    }
  }

  /** The same for the walks from the first `k` children of `p`. */
  lemma {:induction false} LeavesKidsAreFiles(ns: seq<Node>, p: nat, k: nat)
    requires Ordered(ns) && p < |ns| && k <= |ns[p].children|
    ensures LeavesKids(ns, p, k) == Files(ns, PreorderKids(ns, p, k))
    decreases |ns| - p, 0, k
  {
    if k > 0 {
      var c := ns[p].children[k - 1];
      assert LeavesKids(ns, p, k) == LeavesKids(ns, p, k - 1) + Leaves(ns, c);
      assert PreorderKids(ns, p, k) == PreorderKids(ns, p, k - 1) + Preorder(ns, c);
      LeavesKidsAreFiles(ns, p, k - 1);
      LeavesAreFiles(ns, c);
      FilesOfConcat(ns, LeavesKids(ns, p, k - 1), Leaves(ns, c), PreorderKids(ns, p, k - 1), Preorder(ns, c));
    }
  }

  /** `collect_files(n)` yields exactly the file nodes that `n` reaches,
      each once, in preorder. */
  lemma LeavesSpec(ns: seq<Node>, n: nat)
    requires WellFormed(ns) && n < |ns|
    ensures forall m :: 0 <= m < |ns| ==> (m in Leaves(ns, n) <==> !ns[m].isDir && Reaches(ns, n, m))
    ensures Distinct(Leaves(ns, n))
  {
    LeavesAreFiles(ns, n);
    FilesSpec(ns, Preorder(ns, n));
    PreorderDistinct(ns, n);
    forall m | 0 <= m < |ns|
      ensures m in Leaves(ns, n) <==> !ns[m].isDir && Reaches(ns, n, m)
    {
      PreorderIff(ns, n, m);
    }
  }

  /** The files gathered for a selection are the file nodes reached from
      some selected node. Duplicates are kept: a node reached from two
      selected nodes is gathered twice. */
  lemma {:induction false} CollectedSpec(ns: seq<Node>, sel: seq<nat>, m: nat)
    requires WellFormed(ns) && m < |ns|
    requires forall k :: 0 <= k < |sel| ==> sel[k] < |ns|
    ensures m in Collected(ns, sel) <==>
              !ns[m].isDir && exists k :: 0 <= k < |sel| && Reaches(ns, sel[k], m)
  {
    if sel != [] {
      var init := sel[..|sel| - 1];
      var last := sel[|sel| - 1];
      CollectedSpec(ns, init, m);
      LeavesSpec(ns, last);
      if !ns[m].isDir && exists k :: 0 <= k < |sel| && Reaches(ns, sel[k], m) {
        var k :| 0 <= k < |sel| && Reaches(ns, sel[k], m);
        if k < |sel| - 1 {
          assert init[k] == sel[k];
        }
      }
    }
  }

  /** Gathering for two selections one after the other gathers for each in
      turn; nothing is dropped, so selecting `sel` twice gathers its files
      twice. */
  lemma {:induction false} CollectedAppend(ns: seq<Node>, a: seq<nat>, b: seq<nat>)
    requires Ordered(ns)
    requires forall k :: 0 <= k < |a| ==> a[k] < |ns|
    requires forall k :: 0 <= k < |b| ==> b[k] < |ns|
    ensures Collected(ns, a + b) == Collected(ns, a) + Collected(ns, b)
    decreases |b|
  {
    if b == [] {
      assert a + b == a;
    } else {
      assert (a + b)[..|a + b| - 1] == a + b[..|b| - 1];
      CollectedAppend(ns, a, b[..|b| - 1]);
    }
  }

  /** Every gathered node is a file node of the tree. */
  lemma {:induction false} CollectedFiles(ns: seq<Node>, sel: seq<nat>)
    requires WellFormed(ns)
    requires forall k :: 0 <= k < |sel| ==> sel[k] < |ns|
    ensures forall i :: 0 <= i < |Collected(ns, sel)| ==>
              Collected(ns, sel)[i] < |ns| && !ns[Collected(ns, sel)[i]].isDir
  {
    if sel != [] {
      var last := sel[|sel| - 1];
      CollectedFiles(ns, sel[..|sel| - 1]);
      LeavesSpec(ns, last);
      var a := Collected(ns, sel[..|sel| - 1]);
      var b := Leaves(ns, last);
      forall i | 0 <= i < |a + b|
        ensures (a + b)[i] < |ns| && !ns[(a + b)[i]].isDir
      {
        if i >= |a| {
          assert (a + b)[i] == b[i - |a|];
          assert b[i - |a|] in b;
        }
      }
    }
  }

  /** `collect_files(n)` appending to `files`: a file node is appended, a
      directory recurses into its children in order. */
  method CollectFiles(ns: seq<Node>, n: nat, files: seq<nat>) returns (r: seq<nat>)
    requires Ordered(ns) && n < |ns|
    ensures r == files + Leaves(ns, n)
    decreases |ns| - n
  {
    if ns[n].isDir {
      r := files;
      var children := ns[n].children;
      for k := 0 to |children|
        invariant r == files + LeavesKids(ns, n, k)
      {
        r := CollectFiles(ns, children[k], r);
      }
    } else {
      r := files + [n];
    }
  }

  /** The loop `for node in self.nodes: collect_files(node)` at the start of
      `run()`: the files below every selected node, in selection order. */
  method CollectAll(ns: seq<Node>, sel: seq<nat>) returns (files: seq<nat>)
    requires Ordered(ns)
    requires forall k :: 0 <= k < |sel| ==> sel[k] < |ns|
    ensures files == Collected(ns, sel)
  {
    files := [];
    for k := 0 to |sel|
      invariant files == Collected(ns, sel[..k])
    {
      files := CollectFiles(ns, sel[k], files);
      assert sel[..k + 1][..k] == sel[..k];
    }
    assert sel[..|sel|] == sel;
  }
}
