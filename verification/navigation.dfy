/** The session state behind the population browser: the selected
    population and the cursor into its ancestor chain, the transitions the
    widgets trigger, and the lookup of the branch on display. */
module Navigation {
  import opened Common
  import opened MergeTree
  import opened AncestorChain

  datatype Option<T> = None | Some(value: T)

  /** Looking up the branch on display failed: the cursor is not below the
      length of the chain. */
  datatype CursorError = IndexOutOfRange(index: nat, length: nat)

  /** The cursor after the Previous button: one step towards the smallest
      cluster when clicked, and no move at the first cluster. */
  function PreviousIndex(index: nat, clicked: bool): (r: nat)
    ensures r <= index && index <= r + 1
    ensures r == index <==> !clicked || index == 0
  {
    if clicked && index > 0 then index - 1 else index
  }

  /** The cursor after the Next button: one step towards the root when
      clicked, and no move at the last cluster of a chain of `length`. */
  function NextIndex(index: nat, clicked: bool, length: nat): (r: nat)
    ensures index <= r <= index + 1
    ensures r == index <==> !clicked || index + 1 >= length
    ensures index < length ==> r < length
  {
    if clicked && index < length - 1 then index + 1 else index
  }

  /** The cursor after the Reset button, which is only on offer away from
      the first cluster: a click always leaves the cursor at 0. */
  function ResetIndex(index: nat, clicked: bool): (r: nat)
    ensures clicked ==> r == 0
    ensures !clicked ==> r == index
  {
    if index > 0 && clicked then 0 else index
  }

  /** The three navigation buttons. */
  datatype Button = PreviousButton | NextButton | ResetButton

  /** The cursor after one click on `b`, over a chain of `length`. */
  function Press(index: nat, length: nat, b: Button): nat
  {
    match b
    case PreviousButton => PreviousIndex(index, true)
    case NextButton => NextIndex(index, true, length)
    case ResetButton => ResetIndex(index, true)
  }

  /** The cursor after clicking the buttons of `bs` in turn. */
  function PressAll(index: nat, length: nat, bs: seq<Button>): nat
    decreases |bs|
  {
    if bs == [] then index else PressAll(Press(index, length, bs[0]), length, bs[1..])
  }

  /** k clicks on Next. */
  function Nexts(k: nat): (bs: seq<Button>)
    ensures |bs| == k
  {
    if k == 0 then [] else [NextButton] + Nexts(k - 1)
  }

  /** No sequence of clicks moves a cursor that is inside the chain out of
      it. */
  lemma {:induction false} PressesStayInBounds(index: nat, length: nat, bs: seq<Button>)
    requires index < length
    ensures PressAll(index, length, bs) < length
    decreases |bs|
  {
    if bs != [] {
      PressesStayInBounds(Press(index, length, bs[0]), length, bs[1..]);
    }
  }

  /** Clicking Next k times from cluster i reaches cluster i + k, as long as
      the chain is long enough. */
  lemma {:induction false} NextsWalk(index: nat, length: nat, k: nat)
    requires index + k < length
    ensures PressAll(index, length, Nexts(k)) == index + k
    decreases k
  {
    if k > 0 {
      var bs := Nexts(k);
      assert bs[0] == NextButton && bs[1..] == Nexts(k - 1);
      NextsWalk(index + 1, length, k - 1);
    }
  }

  /** Every cluster of the chain can be reached from the first one. */
  lemma EveryClusterReachable(length: nat, target: nat)
    requires target < length
    ensures exists bs :: PressAll(0, length, bs) == target
  {
    NextsWalk(0, length, target);
  }

  /** Previous undoes Next, away from the last cluster. */
  lemma PreviousUndoesNext(index: nat, length: nat)
    requires index + 1 < length
    ensures PreviousIndex(NextIndex(index, true, length), true) == index
  {
  }

  /** The per-user session state that survives reruns of the script. */
  class Session {
    var selectedPop: Option<Label>
    var clusterIndex: nat

    /** A new session: nothing selected, cursor at the first cluster. */
    constructor ()
      ensures selectedPop == None && clusterIndex == 0
    {
      selectedPop := None;
      clusterIndex := 0;
    }

    /** After loading the table: a selection that is missing, or not a
        label of the table, falls back to the first label with the cursor
        at 0; a selection that is still present keeps its cursor. */
    method Revalidate(labels: seq<Label>)
      requires |labels| > 0
      modifies this
      ensures selectedPop.Some? && selectedPop.value in labels
      ensures old(selectedPop).Some? && old(selectedPop).value in labels ==>
        selectedPop == old(selectedPop) && clusterIndex == old(clusterIndex)
      ensures !(old(selectedPop).Some? && old(selectedPop).value in labels) ==>
        selectedPop == Some(labels[0]) && clusterIndex == 0
    {
      if selectedPop.None? || selectedPop.value !in labels {
        selectedPop := Some(labels[0]);
        clusterIndex := 0;
      }
    }

    /** The population chosen in the selection box becomes the selection;
        choosing a different one moves the cursor back to 0. */
    method Select(pop: Label)
      modifies this
      ensures selectedPop == Some(pop)
      ensures old(selectedPop) != Some(pop) ==> clusterIndex == 0
      ensures old(selectedPop) == Some(pop) ==> clusterIndex == old(clusterIndex)
    {
      if selectedPop != Some(pop) {
        selectedPop := Some(pop);
        clusterIndex := 0;
      }
    }

    /** The Previous button. */
    method Previous(clicked: bool)
      modifies this`clusterIndex
      ensures clusterIndex == PreviousIndex(old(clusterIndex), clicked)
    {
      if clicked && clusterIndex > 0 {
        clusterIndex := clusterIndex - 1;
      }
    }

    /** The Next button, over a chain of `chainLength` branches. */
    method Next(clicked: bool, chainLength: nat)
      modifies this`clusterIndex
      ensures clusterIndex == NextIndex(old(clusterIndex), clicked, chainLength)
    {
      if clicked && clusterIndex < chainLength - 1 {
        clusterIndex := clusterIndex + 1;
      }
    }

    /** The Reset button, shown only away from the first cluster. */
    method Reset(clicked: bool)
      modifies this`clusterIndex
      ensures clusterIndex == ResetIndex(old(clusterIndex), clicked)
    {
      if clusterIndex > 0 {
        if clicked {
          clusterIndex := 0;
        }
      }
    }

    /** The branch on display, looked up as the script does: the cursor is
        used as it stands, so a cursor past the end of the chain fails. */
    method Current(chain: seq<Branch>) returns (r: Result<Branch, CursorError>)
      requires |chain| > 0
      ensures r.Ok? <==> clusterIndex < |chain|
      ensures r.Ok? ==> r.value == chain[clusterIndex]
      ensures r.Err? ==> r.error == IndexOutOfRange(clusterIndex, |chain|)
    {
      if clusterIndex < |chain| {
        r := Ok(chain[clusterIndex]);
      } else {
        r := Err(IndexOutOfRange(clusterIndex, |chain|));
      }
    }

    /** The branch on display, with a cursor left over from a longer chain
        brought back to the first cluster before the lookup. */
    method ShowCurrent(chain: seq<Branch>) returns (b: Branch)
      requires |chain| > 0
      modifies this`clusterIndex
      ensures old(clusterIndex) < |chain| ==> clusterIndex == old(clusterIndex)
      ensures old(clusterIndex) >= |chain| ==> clusterIndex == 0
      ensures clusterIndex < |chain| && b == chain[clusterIndex]
    {
      if clusterIndex >= |chain| {
        clusterIndex := 0;
      }
      b := chain[clusterIndex];
    }
  }

  /** One run of the script up to the chain: revalidate the selection
      against the table, build the branches, keep the selection and filter
      the branches that contain it. */
  method LoadChain(s: Session, z: seq<Merge>, labels: seq<Label>) returns (chain: seq<Branch>)
    requires |labels| > 0 && |z| + 1 == |labels| && Forward(z, |labels|)
    modifies s
    ensures s.selectedPop.Some? && s.selectedPop.value in labels
    ensures old(s.selectedPop).Some? && old(s.selectedPop).value in labels ==>
      s.selectedPop == old(s.selectedPop) && s.clusterIndex == old(s.clusterIndex)
    ensures !(old(s.selectedPop).Some? && old(s.selectedPop).value in labels) ==>
      s.selectedPop == Some(labels[0]) && s.clusterIndex == 0
    ensures exists bs :: BranchesOf(z, labels, bs) && chain == Filter(bs, s.selectedPop.value)
  {
    s.Revalidate(labels);
    var tree := GetTreeBranches(z, labels);
    var bs := tree.value;
    var pop := s.selectedPop.value;
    s.Select(pop);
    chain := PopBranches(bs, pop);
  }

  /** Four populations merged pairwise, then the two pairs. */
  const FourLabels: seq<Label> := ["A", "B", "C", "D"]
  const FourTree: seq<Merge> := [(0, 1), (2, 3), (4, 5)]

  /** Two populations merged once. */
  const TwoLabels: seq<Label> := ["A", "B"]
  const TwoTree: seq<Merge> := [(0, 1)]

  lemma FourTreeForward()
    ensures Forward(FourTree, |FourLabels|)
  {
  }

  /** In the four-population tree, "A" lies in its pair and in the root. */
  lemma FourTreeChain(bs: seq<Branch>)
    requires BranchesOf(FourTree, FourLabels, bs)
    ensures Filter(bs, "A") == [["A", "B"], ["A", "B", "C", "D"]]
  {
    var z, labels := FourTree, FourLabels;
    assert Leaves(z, labels, 4) == ["A", "B"] by {
      assert Leaves(z, labels, 0) == ["A"] && Leaves(z, labels, 1) == ["B"];
    }
    assert Leaves(z, labels, 5) == ["C", "D"] by {
      assert Leaves(z, labels, 2) == ["C"] && Leaves(z, labels, 3) == ["D"];
    }
    assert Leaves(z, labels, 6) == ["A", "B", "C", "D"];
    assert bs[0] == ["A", "B"] && bs[1] == ["C", "D"] && bs[2] == ["A", "B", "C", "D"];
    assert bs == [["A", "B"]] + ([["C", "D"]] + [["A", "B", "C", "D"]]);
    FilterKeeps(["A", "B"], [["C", "D"]] + [["A", "B", "C", "D"]], "A");
    assert "A" !in ["C", "D"];
    FilterDrops(["C", "D"], [["A", "B", "C", "D"]], "A");
    FilterKeeps(["A", "B", "C", "D"], [], "A");
    assert [["A", "B", "C", "D"]] == [["A", "B", "C", "D"]] + [];
  }

  /** In the two-population tree, "A" lies only in the root. */
  lemma TwoTreeChain(bs: seq<Branch>)
    requires BranchesOf(TwoTree, TwoLabels, bs)
    ensures Filter(bs, "A") == [["A", "B"]]
  {
    var z, labels := TwoTree, TwoLabels;
    assert Leaves(z, labels, 2) == ["A", "B"] by {
      assert Leaves(z, labels, 0) == ["A"] && Leaves(z, labels, 1) == ["B"];
    }
    assert bs == [["A", "B"]] + [];
    FilterKeeps(["A", "B"], [], "A");
  }

  /** Browsing to the second cluster of "A" over four populations, then
      reloading a table of two populations that still holds "A", leaves the
      cursor at 1 over a chain of one branch. */
  method BrowseThenReload(s: Session) returns (chain: seq<Branch>)
    requires s.selectedPop == None && s.clusterIndex == 0
    modifies s
    ensures s.clusterIndex == 1 && chain == [["A", "B"]]
  {
    FourTreeForward();
    var first := LoadChain(s, FourTree, FourLabels);
    ghost var bs :| BranchesOf(FourTree, FourLabels, bs) && first == Filter(bs, "A");
    FourTreeChain(bs);
    s.Next(true, |first|);
    assert RowForward(TwoTree, 2, 0);
    chain := LoadChain(s, TwoTree, TwoLabels);
    ghost var bs' :| BranchesOf(TwoTree, TwoLabels, bs') && chain == Filter(bs', "A");
    TwoTreeChain(bs');
  }

  /** As written, the stale cursor makes the lookup of the branch on
      display fail after the reload. */
  method StaleCursorAfterReload() returns (r: Result<Branch, CursorError>)
    ensures r == Err(IndexOutOfRange(1, 1))
  {
    var s := new Session();
    var chain := BrowseThenReload(s);
    r := s.Current(chain);
  }

  /** With the cursor brought back into the chain, the same clicks show the
      one branch that contains "A". */
  method ClampedCursorAfterReload() returns (b: Branch)
    ensures b == ["A", "B"]
  {
    var s := new Session();
    var chain := BrowseThenReload(s);
    b := s.ShowCurrent(chain);
  }
}
