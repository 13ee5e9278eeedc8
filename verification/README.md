# PopTree core in Dafny

PopTree is a Streamlit page. A user picks one population out of a table of
ancestry feature vectors, and the page lets them step through the nested
clusters of a Ward hierarchical clustering that contain that population.
The clustering library returns a linkage matrix: over `n` labelled leaves,
`n - 1` merge rows, where row `i` makes node `n + i` from two earlier nodes.

This project models the logic of `poptree.py` around that matrix:

- `merge_tree.dfy` (module `MergeTree`) models `get_tree_branches`. It is a
  single forward pass over the merge rows that materialises, for every
  internal node, the ordered list of leaf labels under it. `SpliceRow` is the
  inner loop over a row's two children. `GetTreeBranches` is the outer loop.
  Both are proved against the recursive specification `Leaves`. The module
  also proves the tree facts the chain relies on:
  - each branch lists exactly the leaves under its node, once each;
  - the root branch is a permutation of all labels;
  - every node but the root has a unique parent, and its ancestors run up to the root.
- `ancestor_chain.dfy` (module `AncestorChain`) models the `pop_branches`
  loop. It keeps the branches that contain the selected population, in row
  order. The module proves that for a valid tree this is exactly the
  branches of the population's ancestors, from its first merge to the root.
  It follows that the chain is non-empty, nested and strictly growing, and
  that it ends at the root branch.
- `navigation.dfy` (module `Navigation`) models the session state. A
  `Session` object holds the selected population and the cluster cursor.
  Its methods are:
  - the initialisation;
  - the fallback to the first label after loading the table;
  - the reset on a new selection;
  - the Previous, Next and Reset buttons;
  - the lookup of the branch on display.

  The cursor arithmetic of the buttons is stated as functions, with lemmas
  about any sequence of clicks.
- `common.dfy` (module `Common`) holds the shared types (labels, branches,
  `Result`) and facts about duplicate-free sequences.

The linkage matrix is a `seq<(nat, nat)>` of child references. The merge
heights and the cluster sizes are not modelled. A reference to a node that
is not built yet is where the Python code raises `IndexError`. Here it is
the error `ForwardReference(row, ref)`. A valid tree is one where:
- every row refers backwards;
- each row's two children differ;
- no node is merged twice;
- every node but the root is merged.

A reload rebuilds the chain that the cursor indexes. So one would expect
the cursor to go back to 0 whenever the set of loaded time periods
changes. The code does not do that. Lines 38-40 reset it only when the
selected population has disappeared from the table. The model follows the
code. The consequence is listed under Findings.

## Model

| member | source | states |
|---|---|---|
| MergeTree.Leaves | poptree.py:51-56 | the labels under a node, first child's then second child's; never empty |
| MergeTree.LeavesAreLabels | poptree.py:51-56 | every label in a branch is a label of the table |
| MergeTree.SpliceRow | poptree.py:50-56 | a row succeeds exactly when both children already exist; its branch is the first child's contribution (a leaf's label or an earlier branch) followed by the second's; otherwise the error names the row and the first child not yet built |
| MergeTree.GetTreeBranches | poptree.py:46-57 | succeeds exactly when every row refers backwards, and then returns n - 1 branches, branch i being the leaves under node n + i; on failure the error names the first offending row and reference |
| MergeTree.BranchesSplice | poptree.py:51-55 | in a materialised list, branch i splices the contributions of its two children, taken from the branches before it |
| MergeTree.Parent | poptree.py:49-56 | every non-root node has a parent: a later node whose row merges it |
| MergeTree.ParentUnique | poptree.py:49-56 | the row that merges a node is the one its parent names |
| MergeTree.LeafMembership | poptree.py:46-57 | a population's label is in a node's branch exactly when the leaf lies under that node |
| MergeTree.LeavesDistinct | poptree.py:46-57 | no branch lists a label twice |
| MergeTree.RootIsPermutation | poptree.py:46-57 | the last branch (the root) is a permutation of all labels |
| MergeTree.UnderRoot | poptree.py:46-57 | every node lies under the root |
| MergeTree.Ancestors | poptree.py:70-73 | a node's ancestors are later nodes, start at its parent and end at the root; the list is empty only for the root |
| MergeTree.AncestorsStep | poptree.py:70-73 | each ancestor after the first is the parent of the one before |
| MergeTree.GrowsTowardsParent | poptree.py:51-56 | a parent's branch holds every label of its child's branch and is strictly longer |
| AncestorChain.FilterSpec | poptree.py:70-73 | the chain keeps exactly the branches containing the population: it is no longer than the branch list, every element comes from it and contains the population, and every branch containing the population is kept |
| AncestorChain.FilterAppend | poptree.py:70-73 | filtering preserves order: filtering a concatenation concatenates the filtered parts |
| AncestorChain.PopBranches | poptree.py:70-73 | the loop's result is the order-preserving filter of the branches by the population |
| AncestorChain.ChainIsAncestorPath | poptree.py:70-73 | for a valid tree over distinct labels, the chain is the list of branches of the population's ancestors, from its parent up to the root |
| AncestorChain.ChainShape | poptree.py:70-73 | the chain is non-empty, starts at the population's first merge, ends at the root branch, and each element holds every label of the one before and is strictly longer |
| Navigation.PreviousIndex | poptree.py:83-84 | Previous moves the cursor down by at most one, and stays put exactly when not clicked or at the first cluster |
| Navigation.NextIndex | poptree.py:88-89 | Next moves the cursor up by at most one, stays put exactly when not clicked or at the last cluster, and keeps an in-bounds cursor in bounds |
| Navigation.ResetIndex | poptree.py:94-96 | a click on Reset always leaves the cursor at 0, whether or not the button was on offer; without a click the cursor stays put |
| Navigation.PressesStayInBounds | poptree.py:83-97 | no sequence of button clicks takes an in-bounds cursor out of the chain |
| Navigation.NextsWalk | poptree.py:88-89 | k clicks on Next from cluster i reach cluster i + k while the chain is long enough |
| Navigation.EveryClusterReachable | poptree.py:83-97 | every cluster of the chain can be reached from the first |
| Navigation.PreviousUndoesNext | poptree.py:83-89 | away from the last cluster, Previous undoes Next |
| Navigation.Session.constructor | poptree.py:7-10 | a new session has no selected population and the cursor at 0 |
| Navigation.Session.Revalidate | poptree.py:38-40 | afterwards the selection is a label of the table; a missing or absent selection falls back to the first label with the cursor at 0, and a selection still present keeps its cursor |
| Navigation.Session.Select | poptree.py:63-65 | the chosen population becomes the selection; a different one resets the cursor to 0, the same one keeps it |
| Navigation.Session.Previous | poptree.py:83-84 | the cursor becomes PreviousIndex of the old cursor |
| Navigation.Session.Next | poptree.py:88-89 | the cursor becomes NextIndex of the old cursor over the chain's length |
| Navigation.Session.Reset | poptree.py:94-96 | the cursor becomes ResetIndex of the old cursor |
| Navigation.Session.Current | poptree.py:76-78 | the lookup succeeds exactly when the cursor is inside the chain, and then gives the branch at the cursor; otherwise it reports the cursor and the chain length |
| Navigation.Session.ShowCurrent | poptree.py:76-78 | (corrected lookup of the Findings row; the source does not clamp) a cursor past the end is brought back to 0, an in-bounds one is kept, and the branch returned is the one at the cursor |
| Navigation.LoadChain | poptree.py:38-73 | a run that keeps the selection revalidates it, and the chain it builds is the filter by the selection of the materialised branches of the table |
| Navigation.StaleCursorAfterReload | poptree.py:38-78 | after browsing to cluster 1 over four populations and reloading two that still hold the selection, the lookup fails with cursor 1 over a chain of length 1 |
| Navigation.ClampedCursorAfterReload | poptree.py:76-78 | with the clamped lookup, the same steps show the one branch holding the selection |

## Left out

- Ward linkage (poptree.py:43) is a foreign numerical library. The linkage matrix is an input. Its merge heights and cluster sizes are dropped.
- Reading the CSV files, `pd.concat` and `drop_duplicates` (poptree.py:26-32) are file I/O and library calls.
- Distinct labels (`Distinct(labels)`) are a precondition of the tree lemmas. This is an assumption about the data files, not something the code ensures: `drop_duplicates` (poptree.py:32) compares only the feature columns, not the row labels.
- A non-empty table is a precondition of `Revalidate`, because an empty selection of time periods already fails in `pd.concat`.
- The time-period choices (poptree.py:16-23) are static configuration.
- Streamlit widgets, page configuration, columns and `st.rerun` (poptree.py:12-13, 60, 66, 81-97) are UI. A button is a `clicked` flag. The rerun after a state change is not modelled.
- The Plotly dendrogram of the current cluster (poptree.py:99-116) is presentation.
- GetTreeBranches: the matrix holds floats that the code casts with `int`. Here references are natural numbers, so negative or fractional references are not modelled. The matrix must have exactly n - 1 rows, as the linkage library always returns.
- LoadChain: models only a run in which the selection box keeps the stored population. A run that changes the selection reruns the page right after `Select`.
- Navigation.PressesStayInBounds: the in-bounds property covers clicks over one chain. It is not claimed across a reload of the table, which the Findings row shows can break it.

## Findings

| source | as written | input that shows it | evidently intended | confidence | as-written member | corrected member |
|---|---|---|---|---|---|---|
| poptree.py:38-40, 78 | after the loaded time periods change, a selected population that is still in the table keeps its cursor, and line 78 indexes the new, possibly shorter, chain with it | labels A, B, C, D with rows (0,1), (2,3), (4,5), selection A, one click on Next (cursor 1 over a chain of 2); then reload labels A, B with row (0,1): the chain of A has length 1 and the lookup is out of range | the cursor always lies inside the chain it indexes, for example by returning to the first cluster | not executed; high | Navigation.StaleCursorAfterReload | Navigation.Session.ShowCurrent |
