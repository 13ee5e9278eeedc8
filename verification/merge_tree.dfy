/** The linkage matrix as an arena-indexed binary merge tree, the leaves
    under each node, and the single forward pass that materialises one
    branch per merge row (get_tree_branches). */
module MergeTree {
  import opened Common

  /** One linkage row: the two child references of a merge. A reference
      k below n names leaf k; a reference n + i names the node made by
      row i. The merge height is not modelled. */
  type Merge = (nat, nat)

  /** Where materialising the branches fails: row `row` refers to the node
      `ref`, which has not been built yet. */
  datatype TreeError = ForwardReference(row: nat, ref: nat)

  /** Child reference j (0 or 1) of a linkage row. */
  function Child(m: Merge, j: nat): nat
  {
    if j == 0 then m.0 else m.1
  }

  /** Row i refers only to leaves and to nodes made by earlier rows. */
  ghost predicate RowForward(z: seq<Merge>, n: nat, i: nat)
    requires i < |z|
  {
    z[i].0 < n + i && z[i].1 < n + i
  }

  /** The first m rows refer only backwards. */
  ghost predicate ForwardUpTo(z: seq<Merge>, n: nat, m: nat)
    requires m <= |z|
  {
    forall i :: 0 <= i < m ==> RowForward(z, n, i)
  }

  ghost predicate Forward(z: seq<Merge>, n: nat)
  {
    ForwardUpTo(z, n, |z|)
  }

  /** Node k is one of the two children merged by row i. */
  ghost predicate IsChildOf(z: seq<Merge>, k: nat, i: nat)
    requires i < |z|
  {
    z[i].0 == k || z[i].1 == k
  }

  /** Some row merges node k. */
  ghost predicate Merged(z: seq<Merge>, k: nat)
  {
    exists i :: 0 <= i < |z| && IsChildOf(z, k, i)
  }

  ghost predicate DisjointRows(a: Merge, b: Merge)
  {
    a.0 != b.0 && a.0 != b.1 && a.1 != b.0 && a.1 != b.1
  }

  /** A linkage matrix over n leaves: n - 1 rows, each merging two distinct
      nodes that already exist, no node merged twice, and every node except
      the last (the root, n + |z| - 1) merged by some row. */
  ghost predicate ValidTree(z: seq<Merge>, n: nat)
  {
    && |z| + 1 == n
    && Forward(z, n)
    && (forall i :: 0 <= i < |z| ==> z[i].0 != z[i].1)
    && (forall i, j :: 0 <= i < j < |z| ==> DisjointRows(z[i], z[j]))
    && (forall k :: 0 <= k < n + |z| - 1 ==> Merged(z, k))
  }

  /** The labels under a node, in the order the forward pass discovers
      them: a leaf gives its own label, an internal node its first child's
      labels followed by its second child's. */
  ghost function Leaves(z: seq<Merge>, labels: seq<Label>, node: nat): (r: Branch)
    requires node < |labels| + |z|
    requires node < |labels| || ForwardUpTo(z, |labels|, node - |labels| + 1)
    ensures |r| >= 1
    decreases node
  {
    var n := |labels|;
    if node < n then [labels[node]]
    else
      var row := z[node - n];
      assert RowForward(z, n, node - n);
      Leaves(z, labels, row.0) + Leaves(z, labels, row.1)
  }

  /** A branch only lists labels of the table. */
  lemma {:induction false} LeavesAreLabels(z: seq<Merge>, labels: seq<Label>, node: nat)
    requires node < |labels| + |z|
    requires node < |labels| || ForwardUpTo(z, |labels|, node - |labels| + 1)
    ensures forall e :: e in Leaves(z, labels, node) ==> e in labels
    decreases node
  {
    var n := |labels|;
    if node >= n {
      assert RowForward(z, n, node - n);
      LeavesAreLabels(z, labels, z[node - n].0);
      LeavesAreLabels(z, labels, z[node - n].1);
    }
  }

  /** `bs` holds, for every row i, the labels under node n + i. */
  ghost predicate BranchesOf(z: seq<Merge>, labels: seq<Label>, bs: seq<Branch>)
  {
    && Forward(z, |labels|)
    && |bs| == |z|
    && forall i :: 0 <= i < |z| ==> bs[i] == Leaves(z, labels, |labels| + i)
  }

  /** What a child reference k contributes to a branch once the branches of
      the earlier rows are known: its label if it is a leaf, the whole
      earlier branch otherwise. */
  function Contribution(bs: seq<Branch>, labels: seq<Label>, k: nat): Branch
    requires k < |labels| + |bs|
  {
    if k < |labels| then [labels[k]] else bs[k - |labels|]
  }

  /** The first j contributions of row m, concatenated (the inner loop over
      a row's two children). */
  function Spliced(bs: seq<Branch>, labels: seq<Label>, m: Merge, j: nat): Branch
    requires forall j' :: 0 <= j' < j ==> Child(m, j') < |labels| + |bs|
  {
    if j == 0 then [] else Spliced(bs, labels, m, j - 1) + Contribution(bs, labels, Child(m, j - 1))
  }

  /** One row of the forward pass (the loop over a row's two children):
      with the branches of the earlier rows known, the row's branch is its
      first child's contribution followed by its second child's; a child
      that is a node not built yet stops the pass. */
  method SpliceRow(branches: seq<Branch>, labels: seq<Label>, m: Merge) returns (r: Result<Branch, TreeError>)
    ensures r.Ok? <==> m.0 < |labels| + |branches| && m.1 < |labels| + |branches|
    ensures r.Ok? ==> r.value == Contribution(branches, labels, m.0) + Contribution(branches, labels, m.1)
    ensures r.Err? ==> r.error == ForwardReference(|branches|, if m.0 >= |labels| + |branches| then m.0 else m.1)
  {
    var n := |labels|;
    var branch: Branch := [];
    for j := 0 to 2
      invariant forall j' :: 0 <= j' < j ==> Child(m, j') < n + |branches|
      invariant branch == Spliced(branches, labels, m, j)
    {
      var k := Child(m, j);
      if k < n {
        branch := branch + [labels[k]];
      } else if k - n < |branches| {
        branch := branch + branches[k - n];
      } else {
        return Err(ForwardReference(|branches|, k));
      }
    }
    assert Child(m, 0) < n + |branches| && Child(m, 1) < n + |branches|;
    return Ok(branch);
  }

  /** The forward pass over the linkage rows. Row i's branch is its first
      child's contribution followed by its second child's; a reference to a
      node not built yet is where the pass fails. */
  method GetTreeBranches(z: seq<Merge>, labels: seq<Label>) returns (r: Result<seq<Branch>, TreeError>)
    requires |z| + 1 == |labels|
    ensures r.Ok? <==> Forward(z, |labels|)
    ensures r.Ok? ==> BranchesOf(z, labels, r.value)
    ensures r.Err? ==>
      var row := r.error.row;
      && row < |z|
      && ForwardUpTo(z, |labels|, row)
      && !RowForward(z, |labels|, row)
      && r.error.ref == (if z[row].0 >= |labels| + row then z[row].0 else z[row].1)
  {
    var n := |labels|;
    var branches: seq<Branch> := [];
    for i := 0 to n - 1
      invariant |branches| == i
      invariant ForwardUpTo(z, n, i)
      invariant forall p :: 0 <= p < i ==> branches[p] == Leaves(z, labels, n + p)
    {
      var row := SpliceRow(branches, labels, z[i]);
      if row.Err? {
        assert !RowForward(z, n, i);
        return Err(row.error);
      }
      assert RowForward(z, n, i);
      ChildLeaves(z, labels, branches, z[i].0);
      ChildLeaves(z, labels, branches, z[i].1);
      branches := branches + [row.value];
    }
    return Ok(branches);
  }

  /** Each materialised branch splices its children's contributions: the
      label of a leaf child, or the whole branch of an earlier row. */
  lemma BranchesSplice(z: seq<Merge>, labels: seq<Label>, bs: seq<Branch>, i: nat)
    requires BranchesOf(z, labels, bs) && i < |z|
    ensures z[i].0 < |labels| + i && z[i].1 < |labels| + i
    ensures bs[i] == Contribution(bs[..i], labels, z[i].0) + Contribution(bs[..i], labels, z[i].1)
  {
    assert RowForward(z, |labels|, i);
    ChildLeaves(z, labels, bs[..i], z[i].0);
    ChildLeaves(z, labels, bs[..i], z[i].1);
  }

  /** A child reference's contribution is the list of leaves under it. */
  lemma ChildLeaves(z: seq<Merge>, labels: seq<Label>, bs: seq<Branch>, k: nat)
    requires |bs| <= |z| && ForwardUpTo(z, |labels|, |bs|)
    requires forall p :: 0 <= p < |bs| ==> bs[p] == Leaves(z, labels, |labels| + p)
    requires k < |labels| + |bs|
    ensures Contribution(bs, labels, k) == Leaves(z, labels, k)
  {
  }

  /** The node made by the row that merges node k (every node but the root
      has one). */
  ghost function Parent(z: seq<Merge>, n: nat, k: nat): (p: nat)
    requires ValidTree(z, n) && k < n + |z| - 1
    ensures n <= p < n + |z| && k < p && IsChildOf(z, k, p - n)
  {
    assert Merged(z, k);
    var i :| 0 <= i < |z| && IsChildOf(z, k, i);
    assert RowForward(z, n, i);
    n + i
  }

  /** The row that merges a node is unique. */
  lemma ParentUnique(z: seq<Merge>, n: nat, k: nat, i: nat)
    requires ValidTree(z, n) && i < |z| && IsChildOf(z, k, i)
    ensures k < n + |z| - 1 && Parent(z, n, k) == n + i
  {
    assert RowForward(z, n, i);
  }

  /** Node k lies in the subtree of node x: it is x, or following parents
      upwards from k reaches x. */
  ghost predicate InSubtree(z: seq<Merge>, n: nat, k: nat, x: nat)
    requires ValidTree(z, n) && x < n + |z|
    decreases x - k
  {
    k == x || (k < x && InSubtree(z, n, Parent(z, n, k), x))
  }

  /** Whatever lies under a child of x lies under x. */
  lemma {:induction false} UpThroughChild(z: seq<Merge>, n: nat, k: nat, c: nat, x: nat)
    requires ValidTree(z, n) && n <= x < n + |z| && IsChildOf(z, c, x - n) && c < x
    requires InSubtree(z, n, k, c)
    ensures InSubtree(z, n, k, x)
    decreases c - k
  {
    assert RowForward(z, n, x - n);
    if k == c {
      ParentUnique(z, n, k, x - n);
    } else {
      UpThroughChild(z, n, Parent(z, n, k), c, x);
    }
  }

  /** Whatever lies strictly under x lies under one of x's two children. */
  lemma {:induction false} DownToChild(z: seq<Merge>, n: nat, k: nat, x: nat)
    requires ValidTree(z, n) && x < n + |z| && k < x
    requires InSubtree(z, n, k, x)
    ensures n <= x && z[x - n].0 < x && z[x - n].1 < x
    ensures InSubtree(z, n, k, z[x - n].0) || InSubtree(z, n, k, z[x - n].1)
    decreases x - k
  {
    var p := Parent(z, n, k);
    assert RowForward(z, n, x - n);
    if p == x {
      assert IsChildOf(z, k, x - n);
    } else {
      DownToChild(z, n, p, x);
      assert RowForward(z, n, x - n);
    }
  }

  /** Two nodes above the same node lie on one path: the lower is under
      the higher. */
  lemma {:induction false} PathsAreChains(z: seq<Merge>, n: nat, k: nat, a: nat, b: nat)
    requires ValidTree(z, n) && a <= b < n + |z|
    requires InSubtree(z, n, k, a) && InSubtree(z, n, k, b)
    ensures InSubtree(z, n, a, b)
    decreases a - k
  {
    if k != a {
      PathsAreChains(z, n, Parent(z, n, k), a, b);
    }
  }

  /** No node lies under both children of a merge. */
  lemma SiblingsDisjoint(z: seq<Merge>, n: nat, k: nat, i: nat)
    requires ValidTree(z, n) && i < |z|
    ensures z[i].0 < n + i && z[i].1 < n + i
    ensures !(InSubtree(z, n, k, z[i].0) && InSubtree(z, n, k, z[i].1))
  {
    assert RowForward(z, n, i);
    var a, b := z[i].0, z[i].1;
    if InSubtree(z, n, k, a) && InSubtree(z, n, k, b) {
      var lo, hi := if a < b then a else b, if a < b then b else a;
      PathsAreChains(z, n, k, lo, hi);
      ParentUnique(z, n, lo, i);
      assert false;
    }
  }

  /** The label of leaf l is in the branch of node x exactly when leaf l
      lies under x. */
  lemma {:induction false} LeafMembership(z: seq<Merge>, labels: seq<Label>, l: nat, x: nat)
    requires ValidTree(z, |labels|) && Distinct(labels)
    requires l < |labels| && x < |labels| + |z|
    ensures labels[l] in Leaves(z, labels, x) <==> InSubtree(z, |labels|, l, x)
    decreases x
  {
    var n := |labels|;
    if x < n {
      if l < x {
        assert Parent(z, n, l) > x;
      }
    } else {
      var i := x - n;
      assert RowForward(z, n, i);
      LeafMembership(z, labels, l, z[i].0);
      LeafMembership(z, labels, l, z[i].1);
      if InSubtree(z, n, l, x) {
        DownToChild(z, n, l, x);
      }
      if InSubtree(z, n, l, z[i].0) {
        UpThroughChild(z, n, l, z[i].0, x);
      }
      if InSubtree(z, n, l, z[i].1) {
        UpThroughChild(z, n, l, z[i].1, x);
      }
    }
  }

  /** Every branch lists each of its leaves once. */
  lemma {:induction false} LeavesDistinct(z: seq<Merge>, labels: seq<Label>, x: nat)
    requires ValidTree(z, |labels|) && Distinct(labels) && x < |labels| + |z|
    ensures Distinct(Leaves(z, labels, x))
    decreases x
  {
    var n := |labels|;
    if x >= n {
      var i := x - n;
      assert RowForward(z, n, i);
      var a, b := z[i].0, z[i].1;
      LeavesDistinct(z, labels, a);
      LeavesDistinct(z, labels, b);
      LeavesAreLabels(z, labels, a);
      forall e | e in Leaves(z, labels, a)
        ensures e !in Leaves(z, labels, b)
      {
        var l :| 0 <= l < n && labels[l] == e;
        LeafMembership(z, labels, l, a);
        LeafMembership(z, labels, l, b);
        SiblingsDisjoint(z, n, l, i);
      }
      DistinctConcat(Leaves(z, labels, a), Leaves(z, labels, b));
    }
  }

  /** Every node lies under the root. */
  lemma {:induction false} UnderRoot(z: seq<Merge>, n: nat, k: nat, root: nat)
    requires ValidTree(z, n) && root == n + |z| - 1 && k <= root
    ensures InSubtree(z, n, k, root)
    decreases root - k
  {
    if k < root {
      UnderRoot(z, n, Parent(z, n, k), root);
    }
  }

  /** The root's branch (the last one materialised) is a permutation of
      all the labels. */
  lemma RootIsPermutation(z: seq<Merge>, labels: seq<Label>)
    requires ValidTree(z, |labels|) && Distinct(labels)
    ensures multiset(Leaves(z, labels, |labels| + |z| - 1)) == multiset(labels)
  {
    RootIsPermutationAt(z, labels, |labels| + |z| - 1);
  }

  lemma RootIsPermutationAt(z: seq<Merge>, labels: seq<Label>, root: nat)
    requires ValidTree(z, |labels|) && Distinct(labels) && root == |labels| + |z| - 1
    ensures multiset(Leaves(z, labels, root)) == multiset(labels)
  {
    var leaves := Leaves(z, labels, root);
    LeavesDistinct(z, labels, root);
    LeavesAreLabels(z, labels, root);
    forall e | e in labels ensures e in leaves {
      var l :| 0 <= l < |labels| && labels[l] == e;
      RootHoldsLeaf(z, labels, l, root);
    }
    DistinctSameElements(leaves, labels);
  }

  /** The root's branch holds the label of every leaf. */
  lemma RootHoldsLeaf(z: seq<Merge>, labels: seq<Label>, l: nat, root: nat)
    requires ValidTree(z, |labels|) && Distinct(labels) && l < |labels| && root == |labels| + |z| - 1
    ensures labels[l] in Leaves(z, labels, root)
  {
    UnderRoot(z, |labels|, l, root);
    LeafMembership(z, labels, l, root);
  }

  /** The proper ancestors of node k, from its parent up to the root. */
  ghost function Ancestors(z: seq<Merge>, n: nat, k: nat): (r: seq<nat>)
    requires ValidTree(z, n) && k < n + |z|
    ensures forall j :: 0 <= j < |r| ==> k < r[j] < n + |z| && n <= r[j]
    ensures |r| == 0 <==> k == n + |z| - 1
    ensures |r| > 0 ==> r[0] == Parent(z, n, k) && r[|r| - 1] == n + |z| - 1
    decreases n + |z| - k
  {
    if k == n + |z| - 1 then [] else [Parent(z, n, k)] + Ancestors(z, n, Parent(z, n, k))
  }

  /** Each ancestor after the first is the parent of the one before. */
  lemma {:induction false} AncestorsStep(z: seq<Merge>, n: nat, k: nat, j: nat)
    requires ValidTree(z, n) && k < n + |z| && j + 1 < |Ancestors(z, n, k)|
    ensures Ancestors(z, n, k)[j] < n + |z| - 1
    ensures Ancestors(z, n, k)[j + 1] == Parent(z, n, Ancestors(z, n, k)[j])
    decreases n + |z| - k
  {
    var p := Parent(z, n, k);
    assert Ancestors(z, n, k) == [p] + Ancestors(z, n, p);
    if j > 0 {
      AncestorsStep(z, n, p, j - 1);
    }
  }

  /** Going one step up the tree only adds leaves: a node's branch is
      contained in, and strictly shorter than, its parent's. */
  lemma GrowsTowardsParent(z: seq<Merge>, labels: seq<Label>, c: nat)
    requires ValidTree(z, |labels|) && c < |labels| + |z| - 1
    ensures var p := Parent(z, |labels|, c);
      && (forall e :: e in Leaves(z, labels, c) ==> e in Leaves(z, labels, p))
      && |Leaves(z, labels, c)| < |Leaves(z, labels, p)|
  {
  }
}
