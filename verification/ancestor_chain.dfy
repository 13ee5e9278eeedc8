/** The ancestor chain of the selected population: the materialised
    branches that contain it, in row order (the pop_branches loop), and
    why that is the population's path from its first merge to the root. */
module AncestorChain {
  import opened Common
  import opened MergeTree

  /** The branches containing `pop`, in their original order. */
  function Filter(bs: seq<Branch>, pop: Label): seq<Branch>
  {
    if bs == [] then []
    else (if pop in bs[0] then [bs[0]] else []) + Filter(bs[1..], pop)
  }

  /** The filtered list keeps exactly the branches that contain `pop`:
      every branch it holds contains `pop` and comes from `bs`, and every
      branch of `bs` that contains `pop` is in it. */
  lemma {:induction false} FilterSpec(bs: seq<Branch>, pop: Label)
    ensures |Filter(bs, pop)| <= |bs|
    ensures forall b :: b in Filter(bs, pop) ==> b in bs && pop in b
    ensures forall b :: b in bs && pop in b ==> b in Filter(bs, pop)
  {
    if bs != [] {
      FilterSpec(bs[1..], pop);
      assert bs == [bs[0]] + bs[1..];
    }
  }

  lemma {:induction false} FilterAppend(a: seq<Branch>, b: seq<Branch>, pop: Label)
    ensures Filter(a + b, pop) == Filter(a, pop) + Filter(b, pop)
  {
    if a == [] {
      assert a + b == b;
    } else {
      assert (a + b)[1..] == a[1..] + b;
      FilterAppend(a[1..], b, pop);
    }
  }

  /** The loop that collects the branches containing the selected
      population. */
  method PopBranches(branches: seq<Branch>, pop: Label) returns (chain: seq<Branch>)
    ensures chain == Filter(branches, pop)
  {
    chain := [];
    for i := 0 to |branches|
      invariant chain == Filter(branches[..i], pop)
    {
      assert branches[..i + 1] == branches[..i] + [branches[i]];
      FilterAppend(branches[..i], [branches[i]], pop);
      assert [branches[i]][1..] == [];
      if pop in branches[i] {
        chain := chain + [branches[i]];
      }
    }
    assert branches[..|branches|] == branches;
  }

  /** The branches of a list of nodes. */
  ghost function LeavesAlong(z: seq<Merge>, labels: seq<Label>, xs: seq<nat>): (r: seq<Branch>)
    requires ValidTree(z, |labels|)
    requires forall j :: 0 <= j < |xs| ==> xs[j] < |labels| + |z|
    ensures |r| == |xs|
  {
    if xs == [] then [] else [Leaves(z, labels, xs[0])] + LeavesAlong(z, labels, xs[1..])
  }

  lemma {:induction false} LeavesAlongAt(z: seq<Merge>, labels: seq<Label>, xs: seq<nat>, j: nat)
    requires ValidTree(z, |labels|)
    requires forall j :: 0 <= j < |xs| ==> xs[j] < |labels| + |z|
    requires j < |xs|
    ensures LeavesAlong(z, labels, xs)[j] == Leaves(z, labels, xs[j])
  {
    if j > 0 {
      LeavesAlongAt(z, labels, xs[1..], j - 1);
    }
  }

  /** The chain of leaf l is the list of branches of l's ancestors, from its
      parent to the root. */
  lemma ChainIsAncestorPath(z: seq<Merge>, labels: seq<Label>, branches: seq<Branch>, l: nat)
    requires ValidTree(z, |labels|) && Distinct(labels) && l < |labels|
    requires BranchesOf(z, labels, branches)
    ensures Filter(branches, labels[l]) == LeavesAlong(z, labels, Ancestors(z, |labels|, l))
  {
    assert branches[0..] == branches;
    ChainFrom(z, labels, branches, l, l, 0);
  }

  /** Scanning the branches from row i on, where node k lies on l's path
      and no ancestor of k is made before row i, collects exactly the
      branches of k's ancestors. */
  lemma {:induction false} ChainFrom(z: seq<Merge>, labels: seq<Label>, branches: seq<Branch>, l: nat, k: nat, i: nat)
    requires ValidTree(z, |labels|) && Distinct(labels) && l < |labels|
    requires BranchesOf(z, labels, branches)
    requires i <= |z| && k < |labels| + i
    requires InSubtree(z, |labels|, l, k)
    requires k == |labels| + |z| - 1 || |labels| + i <= Parent(z, |labels|, k)
    ensures Filter(branches[i..], labels[l]) == LeavesAlong(z, labels, Ancestors(z, |labels|, k))
    decreases |z| - i
  {
    var n := |labels|;
    var pop := labels[l];
    if i == |z| {
      assert branches[i..] == [];
    } else {
      var head := branches[i];
      var next := i + 1;
      var tail := branches[next..];
      var x := n + i;
      assert head == Leaves(z, labels, x);
      assert branches[i..] == [head] + tail;
      if x == Parent(z, n, k) {
        OnPathStep(z, labels, l, k, x);
        ChainFrom(z, labels, branches, l, x, next);
        FilterKeeps(head, tail, pop);
        var up := LeavesAlong(z, labels, Ancestors(z, n, x));
        assert Filter(tail, pop) == up;
        SameFront(Filter([head] + tail, pop), Filter(tail, pop),
                  LeavesAlong(z, labels, Ancestors(z, n, k)), up, head);
      } else {
        OffPathStep(z, labels, l, k, x);
        ChainFrom(z, labels, branches, l, k, next);
        FilterDrops(head, tail, pop);
      }
    }
  }

  /** A first branch that contains `pop` heads the filtered list. */
  lemma FilterKeeps(head: Branch, tail: seq<Branch>, pop: Label)
    requires pop in head
    ensures Filter([head] + tail, pop) == [head] + Filter(tail, pop)
  {
  }

  /** A first branch without `pop` is skipped. */
  lemma FilterDrops(head: Branch, tail: seq<Branch>, pop: Label)
    requires pop !in head
    ensures Filter([head] + tail, pop) == Filter(tail, pop)
  {
  }

  /** Equal tails behind the same first element make equal lists. */
  lemma SameFront(a: seq<Branch>, a': seq<Branch>, b: seq<Branch>, b': seq<Branch>, head: Branch)
    requires a == [head] + a' && b == [head] + b' && a' == b'
    ensures a == b
  {
  }

  /** The parent of a node on l's path is on it too, and heads the list of
      that node's ancestors. */
  lemma OnPathStep(z: seq<Merge>, labels: seq<Label>, l: nat, k: nat, p: nat)
    requires ValidTree(z, |labels|) && Distinct(labels) && l < |labels|
    requires k < |labels| + |z| - 1 && p == Parent(z, |labels|, k)
    requires InSubtree(z, |labels|, l, k)
    ensures InSubtree(z, |labels|, l, p)
    ensures labels[l] in Leaves(z, labels, p)
    ensures LeavesAlong(z, labels, Ancestors(z, |labels|, k))
         == [Leaves(z, labels, p)] + LeavesAlong(z, labels, Ancestors(z, |labels|, p))
  {
    var n := |labels|;
    UpThroughChild(z, n, l, k, p);
    LeafMembership(z, labels, l, p);
    var up := Ancestors(z, n, p);
    assert Ancestors(z, n, k) == [p] + up;
    assert ([p] + up)[1..] == up;
  }

  /** A node between a node on l's path and that node's parent is not on
      l's path. */
  lemma OffPathStep(z: seq<Merge>, labels: seq<Label>, l: nat, k: nat, x: nat)
    requires ValidTree(z, |labels|) && Distinct(labels) && l < |labels|
    requires k < x < |labels| + |z| && k < |labels| + |z| - 1 && x < Parent(z, |labels|, k)
    requires InSubtree(z, |labels|, l, k)
    ensures labels[l] !in Leaves(z, labels, x)
  {
    LeafMembership(z, labels, l, x);
    if InSubtree(z, |labels|, l, x) {
      PathsAreChains(z, |labels|, l, k, x);
      assert false;
    }
  }

  /** Every label of `a` is in `b`. */
  ghost predicate Within(a: Branch, b: Branch)
  {
    forall e :: e in a ==> e in b
  }

  /** Element j + 1 of the chain holds every label of element j, and more. */
  ghost predicate GrowsAt(chain: seq<Branch>, j: nat)
    requires j + 1 < |chain|
  {
    Within(chain[j], chain[j + 1]) && |chain[j]| < |chain[j + 1]|
  }

  /** For a population that is a leaf of a valid tree over at least two
      distinct labels, the chain is non-empty, starts at the leaf's first
      merge, ends at the root branch, and each element holds every label of
      the one before and more. */
  lemma ChainShape(z: seq<Merge>, labels: seq<Label>, branches: seq<Branch>, l: nat)
    requires ValidTree(z, |labels|) && Distinct(labels) && l < |labels| && |labels| >= 2
    requires BranchesOf(z, labels, branches)
    ensures var chain := Filter(branches, labels[l]);
      && |chain| >= 1
      && chain[0] == Leaves(z, labels, Parent(z, |labels|, l))
      && chain[|chain| - 1] == branches[|branches| - 1]
      && forall j :: 0 <= j < |chain| - 1 ==> GrowsAt(chain, j)
  {
    var root := |labels| + |z| - 1;
    ChainIsAncestorPath(z, labels, branches, l);
    PathEnds(z, labels, l, root);
    PathGrows(z, labels, l);
    assert branches[|z| - 1] == Leaves(z, labels, root);
  }

  /** The branches along l's ancestors start at l's parent and end at the
      root. */
  lemma PathEnds(z: seq<Merge>, labels: seq<Label>, l: nat, root: nat)
    requires ValidTree(z, |labels|) && l < |labels| && |labels| >= 2
    requires root == |labels| + |z| - 1
    ensures var along := LeavesAlong(z, labels, Ancestors(z, |labels|, l));
      && |along| >= 1
      && along[0] == Leaves(z, labels, Parent(z, |labels|, l))
      && along[|along| - 1] == Leaves(z, labels, root)
  {
    var path := Ancestors(z, |labels|, l);
    var last := |path| - 1;
    LeavesAlongAt(z, labels, path, 0);
    LeavesAlongAt(z, labels, path, last);
    assert path[last] == root;
  }

  /** Each branch along l's ancestors holds every label of the one before,
      and more. */
  lemma PathGrows(z: seq<Merge>, labels: seq<Label>, l: nat)
    requires ValidTree(z, |labels|) && l < |labels|
    ensures var along := LeavesAlong(z, labels, Ancestors(z, |labels|, l));
      forall j :: 0 <= j < |along| - 1 ==> GrowsAt(along, j)
  {
    var along := LeavesAlong(z, labels, Ancestors(z, |labels|, l));
    forall j | 0 <= j < |along| - 1
      ensures GrowsAt(along, j)
    {
      PathGrowsAt(z, labels, l, j);
    }
  }

  lemma PathGrowsAt(z: seq<Merge>, labels: seq<Label>, l: nat, j: nat)
    requires ValidTree(z, |labels|) && l < |labels|
    requires j + 1 < |Ancestors(z, |labels|, l)|
    ensures GrowsAt(LeavesAlong(z, labels, Ancestors(z, |labels|, l)), j)
  {
    var n := |labels|;
    var path := Ancestors(z, n, l);
    var c := path[j];
    AncestorsStep(z, n, l, j);
    LeavesAlongAt(z, labels, path, j);
    LeavesAlongAt(z, labels, path, j + 1);
    GrowsTowardsParent(z, labels, c);
  }
}
