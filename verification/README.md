# A verified model of 3Depict's filter tree and of the algorithms around it

3Depict analyses atom probe data with a tree of filters. Each filter reads the
streams that its parent sends down, passes some of them on, and adds streams of its
own; the streams that leave the leaves are shown. This project models, in Dafny, the
parts of the program where the state is hardest to keep straight, and proves what
they promise.

- **The refresh engine** (`PreOrder`, `Filters`, `Propagation`, `Evaluation`,
  `Collector`, `Scrub`, `Traversal`, `FilterTree`). A refresh computes which types can
  leave a filter and which a filter surely stops, chooses "seed" filters so that
  everything above them may be skipped, walks the subtree of each seed with a stack of
  inputs, frees intermediate streams level by level, and scrubs the list of outputs.
  The main result is the contract of `FilterTree.RefreshFilterTree`: the shortcut
  shows exactly what a refresh from the roots shows, and no stream is freed twice or
  while somebody still holds it.
- **Edits and whole runs** (`Edits`, `UndoRedo`, `Session`, `State`). Property changes,
  moves of subtrees, undo and redo, and refreshes that may be cut short, in any order. The
  main result is `Session.EveryRefreshShowsTheTree`; the operations of `State` drive the
  stacks and the tree through the events it speaks of.
- **The linked tree** (`LinkedNodes`, `LinkedCopy`, `LinkedReplace`, `LinkedTree`,
  `LinkedWalk`, `LinkedMove`, `LinkedReparent`, `LinkedClone`). Nodes with parent, first and
  last child and previous and next sibling links on the heap, with the operations that
  rewrite the links in place. `LinkedTree.Trees.Replace` is shown to end with an exact copy;
  `LinkedWalk.BelowIsUnder` ties the pointers to the depth sequences that the refresh
  engine's modules use; `LinkedReparent.MoveUnder` and `MoveToTop` show that a move by links
  is, in the listing, the move of a slice that `Edits` speaks of; and `LinkedClone.CopyTree`
  copies a whole tree.
- **Saving and loading** (`XmlTree`, `XmlLoad`, `XmlRoundTrip`) and **path names**
  (`PathNames`).
- **Index and graph algorithms**: surface patches and orphan nodes of a mesh
  (`MeshGroups`, `MeshOrphans`, `Mesh`), the shift register and the sampling it drives
  (`Bits`, `Counting`, `Lfsr`), key frames (`KeyFrames`), identifiers of a tear-off list
  (`UniqueIds`) and the voxel grid's edge numbers (`EdgeIndex`).

## How the model stands to the code

- A filter is what its contract says: the types it emits, the types it blocks, streams
  it makes anew at each refresh, and streams it computes from its input and may keep.
  A library of such functions of the filter's property values stands for all filter
  classes, and every theorem holds for every library whose emit mask is honest.
- Whether a filter may keep its output (the code asks how much memory is left) is an
  arbitrary function of the refresh. Errors and the user's wish to stop are arbitrary too.
- A stream's address is the refresh and the filter that made it and its place among
  that filter's streams, so two streams are the same object when these agree.
- `tree<Filter*>::iterator` is the pre-order iterator, so the loops of
  `backend/filtertree.cpp` that say "breadth first" run in pre-order over all the roots,
  and the model's do too.
- Clocks, progress reports, console messages and random numbers are left out or are
  parameters.

## Where the code and its comments differ

The model follows the code.

- `Mesh::divideMeshSurface` returns the number of new groups plus one.
- After a refused edit the undo stack is popped without being restored. The active tree
  and its caches stay, but the redo stack is lost and holds one copy of the active tree;
  if the undo stack was over full, its oldest entry is gone as well
  (`UndoRedo.RefusedEdit`).
- k undos followed by k redos are possible exactly when k is at most `MAX_UNDO_SIZE`,
  although the undo stack can hold one entry more (`UndoRedo.RedosPossible`).
- Loading a saved forest with roots r0, r1, ..., rk gives r0, rk, ..., r1.
- The accumulated block mask of a filter is its own block mask if it is cached and empty
  otherwise: the children's masks are and-ed into an empty mask first.
- `reparentFilter` clears the caches from the moved filter to the end of the forest, but
  passes over filters on the moved filter's own level (`Edits.ClearedForMove`).
- A key-frame track without frames counts as ended at frame 0 although it never starts. So
  when every matching track with frames starts later, such a track is shown and not
  nothing (`KeyFrames.EmptyTrackIsHeld`, `KeyFrames.NothingExactlyBeforeStart`).
- `max_depth` of one node is documented as the depth of the subtree there. From a last
  child that has children the walk climbs past the node and measures the rest of the tree
  as well (`LinkedWalk.MaxDepthIsOfSubtree`, `LinkedWalk.DeeperThanSubtree`). A root always
  has a next sibling, if only the feet sentinel, so `max_depth` of the whole tree is right.

## Model

| member | source | states |
|---|---|---|
| `FilterTree.FilterTree.RefreshFilterTree` | backend/filtertree.cpp:624-938 | For every forest, cache state and library: a refresh that meets no trouble gives exactly the scrubbed leaf outputs of a refresh of everything from the roots, in the same leaf order; it finishes if and only if no visited filter fails or asks to stop; every stream shown or kept in a cache is alive; the filters below a seed keep what their refresh computed from their true inputs, and the others are left as they were; caches stay sound and coherent, also after a refresh that was cut short; each filter under a seed is visited exactly once, in pre-order, and a refresh cut short has visited a prefix of them; and what is shown is, but for repeats, what the leaves of one run over the whole tree give out, each filter there reading what its parent gives out |
| `FilterTree.FilterTree.RefreshFrom` | backend/filtertree.cpp:696-896 | The scan from one seed refreshes each filter of the seed's subtree once and nothing else, and keeps the invariants of the input stack, the collector and the outputs |
| `FilterTree.FilterTree.VisitFilter` | backend/filtertree.cpp:706-893 | One visit: pops to the filter's level, refreshes it with its parent's output on top of the stack, and pushes its output or, for a leaf, shows it; no stream on a live level, in the output list or in a cache is freed |
| `FilterTree.FilterTree.PopToFilter` | backend/filtertree.cpp:716-725 | Popping to the filter's depth leaves exactly its parent's output on top, and collecting to that level frees nothing that is still held |
| `FilterTree.FilterTree.RefreshFilter` | backend/filter.h:600-625 | A filter gives out its own streams and all the inputs whose type it does not block, the latter in their order, the own block first exactly if the kind of filter puts it first; a cached filter hands out its cache whatever its input is, and any other what it makes from its input, marked with its name and the refresh; it keeps what it made if it may and there is any |
| `Evaluation.FilterOutExact` | backend/filter.h:600-625 | The picture of a filter's output from its own streams and its input, for every library, cache and input |
| `Evaluation.GivesOutCounts` | backend/filter.cpp:966-977 | That picture leaves no choice: a stream leaves a filter if and only if it is one of its own or comes in with a type that is not blocked, and as often as it is made plus as often as it comes in |
| `FilterTree.PopPointerStack` | backend/filtertree.cpp:223-232 | Pops exactly the levels above the given depth |
| `FilterTree.RecordOutput` | backend/filtertree.cpp:871-893 | An inner filter's output is tracked and pushed, a leaf's is shown and let go; ownership stays sound |
| `FilterTree.DiscardOutput` | backend/filtertree.cpp:835-863 | After an error the streams of the output that nobody owns are freed, each once: a tracked stream is gone, and any other is alive afterwards if and only if it was and is either cached or in no output |
| `Filters.PropagateStreams` | backend/filter.cpp:966-977 | Appends exactly the inputs whose type is not blocked, in order |
| `Filters.PassExact` | backend/filter.cpp:966-977 | What is passed on are exactly the entries at the places where the type is not blocked, in ascending order of place |
| `Propagation.EmitAccExact` | backend/filtertree.cpp:370-395 | A type is in a filter's accumulated emit mask if and only if some filter at or above it emits the type and none strictly below that one on the path blocks it |
| `Propagation.GetAccumulatedPropagationMaps` | backend/filtertree.cpp:366-456 | Both maps have an entry for every filter. A type is in the emit map if and only if some filter at or above emits it and none below that one on the path blocks it; the block map has a cached filter's own block mask, and the empty mask for any other |
| `Propagation.AccumulatedBlockMap` | backend/filtertree.cpp:400-456 | The loop over the levels reaches each filter exactly once and records its own block mask if it is cached, the empty mask otherwise |
| `Propagation.GetFilterRefreshStarts` | backend/filtertree.cpp:463-580 | The seeds are exactly the topmost filters that are leaves, or for which some filter at or above emits a type that reaches them and that some child lets through, a child letting a type through if it is not cached or does not block it; in visiting order and without repeats |
| `Propagation.SeedExact` | backend/filtertree.cpp:463-580 | The same of each single filter, by paths, types and caches alone |
| `Propagation.SeedsAreUnrelated` | backend/filtertree.cpp:500-576 | No seed is a descendant of another |
| `Propagation.LeafHasOneSeed` | backend/filtertree.cpp:490-576 | Every leaf lies under exactly one seed |
| `Propagation.AboveSeedIsBlocked` | backend/filtertree.cpp:536-556 | All types that a proper ancestor of a seed can emit are in the block mask of each of the ancestor's children, and if there are any, each child is cached |
| `Evaluation.OutputWithinEmitMask` | backend/filtertree.cpp:366-398 | Whatever the caches hold, all that leaves a filter has a type of its accumulated emit mask |
| `Evaluation.SkippingIsSound` | backend/filtertree.cpp:463-580 | Under a seed every filter gives the very same streams when the walk starts at the seeds without input as when it starts at the roots |
| `Evaluation.SeedsGiveAllOutputs` | backend/filtertree.cpp:624-938 | The seeds give the same leaf outputs in the same order as the roots |
| `Evaluation.CachesDoNotShow` | backend/filtertree.cpp:482-484 | With coherent caches a refresh shows what evaluation from scratch shows |
| `Evaluation.OutputsArePure` | backend/filtertree.cpp:624-938 | The leaf outputs read like those of evaluation from scratch |
| `Evaluation.PureOutExact` | backend/filter.h:600-625 | Evaluation from scratch follows the same law at every filter: own payloads and unblocked input, and the input is the parent's output |
| `Evaluation.PureOutByPath` | backend/filter.cpp:966-977 | Evaluated from scratch, a payload leaves a filter if and only if some filter at or above it makes it and no filter from there down to it blocks its type |
| `Evaluation.OutputsExact` | backend/filtertree.cpp:871-893 | The list shown by a full refresh has exactly the leaves that give something out, in visiting order, each with what it gives out |
| `Evaluation.RunOutIdentity` | backend/filtertree.cpp:133-164 | No filter sends the same stream object twice, and what it sends was made by filters on the path down to it |
| `Evaluation.RefreshedInputIsTrue` | backend/filtertree.cpp:696-770 | An uncached filter refreshed below a seed reads the input that a full refresh would give it |
| `Evaluation.RefreshKeepsSoundness` | backend/filtertree.cpp:624-938 | A refresh, even one cut short, leaves every cache marked, named, typed and dated as it should be |
| `Evaluation.RefreshKeepsCoherence` | backend/filtertree.cpp:624-938 | A refresh, even one cut short, leaves in every cache what evaluation from scratch computes |
| `Collector.RefreshCollector.TrackPointers` | backend/filtertree.cpp:133-164 | Opens a level that tracks exactly those streams of the list that nobody owns, nobody let go and no level tracks |
| `Collector.RefreshCollector.ForgetPointers` | backend/filtertree.cpp:166-188 | The given streams are tracked on no level any more, every other stream as before, and those that were tracked are remembered as let go |
| `Collector.RefreshCollector.CollectAll` | backend/filtertree.cpp:190-203 | Frees exactly the tracked streams, each once |
| `Collector.RefreshCollector.CollectToLevel` | backend/filtertree.cpp:205-217 | Frees exactly what is tracked past the level, each once, and leaves that many levels, the lower ones unchanged |
| `Traversal.PopGivesInput` | backend/filtertree.cpp:716-760 | If the stack holds the outputs along the path to the last visited filter, its entry at the next filter's depth is that filter's input |
| `Traversal.CollectIsSafe` | backend/filtertree.cpp:205-217 | Collecting to a level frees no stream of the levels kept, of the outputs or of a cache |
| `Traversal.TrackIsSafe` | backend/filtertree.cpp:871-880 | Pushing and tracking an output keeps every stream held once and alive |
| `Traversal.ForgetIsSafe` | backend/filtertree.cpp:882-890 | Showing and letting go an output keeps every stream shown out of the collector's reach |
| `Traversal.CoveredAscending` | backend/filtertree.cpp:690-896 | The list of the filters under the seeds, in the order of the visits, holds each of them once, ascending |
| `Scrub.ScrubOutput` | backend/filtertree.cpp:898-935 | The nested erase loops compute the scrubbed list: every entry keeps its filter and, in their order, exactly the streams that stand for the first time in the whole list; entries left without streams go, the others keep their order |
| `Scrub.ScrubbedExact` | backend/filtertree.cpp:898-935 | Read in order, the scrubbed list holds each stream of the list exactly once, at its first place, and no entry is empty |
| `FilterTree.FilterTree.SetFilterProperty` | backend/filtertree.cpp:952-988 | After a change the filter with the identifier has exactly the new value and no cache, its descendants keep identifier and value and have no cache, and every other filter is as before; a refused or equal value changes nothing |
| `FilterTree.FilterTree.ClearSubtreeCaches` | backend/filtertree.cpp:1919-1955 | The scan that stops at the first other filter no deeper than the start clears exactly the caches of the descendants, and of the start if asked to |
| `Edits.ChangeExact` | backend/filtertree.cpp:952-988 | What a change does to each single filter |
| `Edits.PropertyKeepsCoherence` | backend/filtertree.cpp:952-988 | After a property change every cache left still holds what evaluation from scratch computes |
| `FilterTree.FilterTree.ReparentFilter` | backend/filtertree.cpp:1819-1916 | Returns false exactly when the new parent lies in the moved subtree, and then changes nothing; otherwise gives the moved depths and filters, filter by filter: its new parent, its identifier and value, and whether it has lost its cache |
| `Edits.MoveGivesForest` | backend/filtertree.cpp:1876-1916 | A move gives a forest again |
| `Edits.MovedParent` | backend/filtertree.cpp:1876-1916 | After a move the moved filter hangs under its new parent and every other filter under its old one |
| `Edits.MovedIsLastChild` | backend/filtertree.cpp:1889-1908 | The moved filter is the last child of its new parent, or a root |
| `Edits.MovedKeepsShape` | backend/filtertree.cpp:1876-1916 | The moved subtree keeps its extent and its relative depths |
| `Edits.MoveConservesFilters` | backend/filtertree.cpp:1876-1916 | A move conserves the filters: nothing is lost, nothing doubled |
| `Edits.ReparentKeepsCoherence` | backend/filtertree.cpp:1819-1916 | After the clearing and the move no filter of the moved subtree has a cache and every cache left is coherent |
| `Edits.InsertThenErase` | backend/filtertree.cpp:1889-1908 | Inserting a dummy node, replacing it with a copy of the subtree and erasing the original is the move of a slice |
| `Edits.MovedTo` | backend/filtertree.cpp:1876-1916 | Every filter after a move and the clearing before it: the moved one hangs under its new parent, any other under its old one, and exactly the moved filter and the later ones on other levels have lost their caches |
| `PreOrder.IsChild` | backend/filtertree.cpp:1338-1353 | Climbing the parents tells exactly whether one filter is a proper descendant of another |
| `PreOrder.SubtreeIsRange` | backend/filtertree.cpp:1919-1955 | In pre-order a subtree is the contiguous range up to the first other node no deeper than its root |
| `PreOrder.BelowByParent` | backend/filtertree.cpp:1338-1353 | The nodes met by climbing parents are exactly the proper ancestors |
| `UndoRedo.TreeState.PushUndoStack` | backend/state.cpp:1506-1513 | Keeps an uncached copy of the active tree, drops the oldest entry when over full, and empties the redo stack |
| `UndoRedo.TreeState.PopUndoStack` | backend/state.cpp:1515-1537 | Keeps an uncached copy for redo, within the limit, and restores the last undo entry only if asked to |
| `UndoRedo.TreeState.PopRedoStack` | backend/state.cpp:1539-1551 | The inverse step, under the method's own assertion on the undo stack |
| `UndoRedo.PushKeepsNewest` | backend/state.cpp:1506-1513 | After a push the stack, counted from the newest entry, is a copy of the active tree and then the old stack, of which only the oldest entry may be missing; eleven entries at most |
| `UndoRedo.StackAfterEdits` | backend/state.cpp:1506-1513 | After any number of edits the stack holds, newest first, copies of the trees before the last edits, and below them what it held before |
| `UndoRedo.EditsAreUndone` | backend/state.cpp:1506-1537 | After any edits the last eleven, or fewer if there were fewer, can be undone one by one, and each undo gives a copy of the tree before the edit that it undoes |
| `UndoRedo.UndoKeepsNewest` | backend/state.cpp:1515-1537 | An undo puts a copy of the active tree on the redo stack, which keeps its ten newest entries |
| `UndoRedo.StacksStayBounded` | backend/state.cpp:1506-1551 | Undo size plus redo size never exceeds the limit plus one, so the redo assertion holds whenever there is something to redo |
| `UndoRedo.RefusedEdit` | backend/state.cpp:1423-1461 | A refused edit leaves the active tree alone; the undo stack comes back if and only if it was not over full; the redo stack becomes one copy of the active tree |
| `UndoRedo.RedosPossible` | backend/state.cpp:1506-1551 | After k undos, k redos are possible if and only if k is at most the limit |
| `UndoRedo.UndoRedoRoundTrip` | backend/state.cpp:1506-1551 | k undos followed by k redos restore the active tree up to its caches and the undo stack, and the redo stack but for its oldest entry when there were more than the limit |
| `Session.EventKeepsGood` | backend/state.cpp:1423-1551 | Every event (property change, move, clearing of caches, refresh, undo, redo) keeps the stacks bounded, the trees well formed and the caches sound and coherent |
| `Session.RunIsGood` | backend/state.cpp:1423-1551 | So does every run of events |
| `Session.EveryRefreshShowsTheTree` | backend/state.cpp:1471-1504 | In every run, whatever was edited, cached, undone or redone before, a refresh from the seeds shows what evaluating the active tree from scratch shows |
| `Session.RedoNeverOverflows` | backend/state.cpp:1539-1542 | In every run the redo operation's assertion holds |
| `State.SetFilterProperty` | backend/state.cpp:1423-1461 | Pushing, trying the change on the filter tree and taking the push back when it was refused is one event of a session, and leaves a good state |
| `Session.SetPropertyExact` | backend/state.cpp:1442-1461 | A changed property in the session, filter by filter; the tree before it becomes the newest undo entry and nothing is left to redo |
| `State.ReparentFilter` | backend/state.cpp:1423-1461 | The same for a move |
| `Session.ReparentExact` | backend/state.cpp:1423-1440 | A move in the session, filter by filter, with the same history |
| `State.UndoEdit` | backend/state.cpp:1515-1537 | An undo is an event of a session and leaves a good state |
| `State.RedoEdit` | backend/state.cpp:1539-1551 | A redo is, and the assertion of the operation holds by the state being good |
| `State.RefreshTree` | backend/state.cpp:1471-1504 | A refresh of the active tree is an event of a session; when it finishes, what it shows reads, but for repeats, like the active tree evaluated from scratch |
| `LinkedTree.Trees.Replace` | backend/tree.hh:1117-1179 | For disjoint subtrees, of one tree or of two: the loop ends; at the position stands a fresh copy of the source, node for node and link for link with equal data; the old subtree is gone; every other node keeps all its links but for the neighbours of the position, which name the new node; all links stay consistent, also when the position is the source's next sibling |
| `LinkedTree.Trees.TakePlace` | backend/tree.hh:1119-1153 | The old subtree is freed and a new childless node has its place and links |
| `LinkedTree.Trees.CopyStep` | backend/tree.hh:1160-1176 | One round of the copying loop copies the next node of the source in pre-order, or comes to the node after the source with everything copied |
| `LinkedTree.Trees.ClimbUp` | backend/tree.hh:1168-1173 | The climb stops at the nearest node with a next sibling, or at the start, and never leaves the source |
| `LinkedTree.Trees.NotPastTheEnd` | backend/tree.hh:1154-1176 | A sibling reached inside the source is never mistaken for the node after the source |
| `LinkedCopy.AddCopy` | backend/tree.hh:1163-1175 | Appending the copy of the next node keeps the partial copy a prefix of the source |
| `LinkedCopy.AllCopied` | backend/tree.hh:1158-1176 | When the climb is back at the top, every node of the source has a copy |
| `LinkedCopy.CopyEnds` | backend/tree.hh:1158-1178 | Then each link of a copied node leads to the copy of where the source's link leads |
| `LinkedReplace.CopyOfOriginal` | backend/tree.hh:1119-1179 | Exchanging the node at the position first does not disturb the source |
| `LinkedReparent.MoveUnder` | backend/filtertree.cpp:1889-1908 | Appending a dummy child, replacing it with the subtree and erasing the original: the listing of the linked tree becomes the old one with the slice of the subtree moved behind the new parent's subtree, copy for original, and its depths become `Edits.MovedDepths` of the old depths; the copy is exact, link for link and with equal data, and every link of every other node is given |
| `LinkedReparent.MoveToTop` | backend/filtertree.cpp:1889-1908 | The same for a move to the top level behind the first root, which may be the root that is moved |
| `LinkedReparent.MovedDepthsAreSeen` | backend/filtertree.cpp:1889-1908 | The depths along the listing after the three steps on the links are those of the move of a slice |
| `LinkedReparent.MovedIs` | backend/filtertree.cpp:1903-1908 | The three steps add up: all links after the move follow from the links before |
| `LinkedMove.InsertedListing` | backend/tree.hh:1054-1076 | A new node comes into the listing of the tree at its gap, and the order of the rest is kept |
| `LinkedMove.ReplacedListing` | backend/tree.hh:1117-1179 | A copy comes into the listing in the place of the node replaced, in the order of its source |
| `LinkedMove.ErasedListing` | backend/tree.hh:592-618 | Erasing a node takes the block of its subtree out of the listing, and the order of the rest is kept |
| `LinkedReparent.CopiesAreOutside` | backend/filtertree.cpp:1903-1908 | No node of the copy lies below the original, so erasing the original frees none of it |
| `LinkedReparent.CopySurvives` | backend/filtertree.cpp:1903-1908 | Erasing the original leaves its copy a copy, also when the two are siblings |
| `LinkedClone.CopyTree` | backend/tree.hh:543-561 | Assigning a tree to another: the listing of the target becomes the image of the source's, fresh node for node with equal data at equal depths, so the roots stand in the same order although their placeholders were put in reversed; the target's old nodes are gone, and every other node keeps its links |
| `LinkedClone.Clear` | backend/tree.hh:563-568 | Exactly the nodes within the roots are erased, and head and feet are linked to each other |
| `LinkedClone.CloneStep` | backend/tree.hh:555-560 | Replacing the next placeholder continues the listing of the copy by that of the next root's subtree |
| `LinkedTree.Trees.AppendChild` | backend/tree.hh:883-911 | The new node is the last child; nothing else changes but the links that name it; all links stay consistent |
| `LinkedTree.Trees.Insert` | backend/tree.hh:998-1022 | The same for a new node before another, or, for a null position, before the feet |
| `LinkedTree.Trees.InsertAfter` | backend/tree.hh:1054-1076 | The same for a new node after another |
| `LinkedTree.Trees.EraseChildren` | backend/tree.hh:571-590 | Exactly the nodes below the given one are freed, each once, each child in its own round and read before it is freed, with all below it gone first; the rest is unchanged |
| `LinkedTree.Trees.Erase` | backend/tree.hh:592-618 | The node and all below it are gone, its neighbours are joined, and the node returned is the one that follows in pre-order and still exists |
| `LinkedTree.Trees.NewTree` | backend/tree.hh:510-528 | A new tree is its two sentinels, linked to each other |
| `LinkedTree.Trees.Next` | backend/tree.hh:2052-2068 | The iterator's step: the first child, or else the next sibling of the nearest ancestor that has one |
| `LinkedTree.Trees.Depth` | backend/tree.hh:1640-1650 | The depth is the number of ancestors |
| `LinkedTree.AfterIsOutside` | backend/tree.hh:2052-2068 | What follows a subtree in pre-order lies outside it and no deeper than its top |
| `LinkedNodes.SameNumberSameChild` | backend/tree.hh:64-71 | The siblings under a node form one chain: equal places mean the same child |
| `LinkedNodes.LinkInKeepsConsistency` | backend/tree.hh:998-1076 | Linking a node into a gap keeps all five links of all nodes in agreement |
| `LinkedNodes.PruneKeepsConsistency` | backend/tree.hh:571-590 | Taking away everything below a node does |
| `LinkedNodes.LinkOutKeepsConsistency` | backend/tree.hh:592-618 | Taking a childless node out does |
| `LinkedWalk.VisitSubtree` | backend/tree.hh:2052-2068 | Visiting on in pre-order while the nodes are deeper than the start visits exactly the start and its descendants, each once |
| `LinkedWalk.ForestListing` | backend/tree.hh:2052-2068 | Every tree has a listing: from the first root by iterator steps to the feet, with every node within a root once |
| `LinkedWalk.VisitForest` | backend/tree.hh:2052-2068 | The loop of the pre-order iterator from begin to end visits exactly that listing |
| `LinkedWalk.DepthsAreValid` | backend/tree.hh:1640-1650 | The depths seen along the listing of a subtree or of a whole tree form a pre-order depth sequence |
| `LinkedWalk.BelowIsUnder` | backend/tree.hh:2052-2068 | The nodes that the depth sequence puts below a node are exactly the nodes below it by the links, in a subtree and in a whole tree |
| `LinkedWalk.NextLeaf` | backend/tree.hh:2642-2661 | One step of the leaf iterator comes to the next childless node of the listing, or to the feet, and stays at the feet |
| `LinkedWalk.VisitLeaves` | backend/filtertree.cpp:490-500 | The loop over the leaf iterator meets exactly the childless nodes of the tree, each once, in pre-order |
| `LinkedWalk.LeafIsChildless` | backend/tree.hh:729-738 | The childless nodes are exactly the leaves of the depth sequence |
| `LinkedWalk.MaxDepthBelow` | backend/tree.hh:1676-1702 | From any position: -1 for null and the sentinels; the depth of the subtree if the node has no child or a next sibling; otherwise the depth of all the rest of the tree below that level |
| `LinkedWalk.MaxDepthIsOfSubtree` | backend/tree.hh:390-391 | What is found is the depth of the subtree, as documented, if and only if the node has no child, or has a next sibling, or no later node reaches deeper |
| `LinkedWalk.DeeperThanSubtree` | backend/tree.hh:1676-1702 | A tree of two roots where 2 is found from a node whose subtree is 1 deep |
| `LinkedWalk.MaxDepth` | backend/tree.hh:1665-1673 | The greatest depth of all nodes from head to feet is found, and -1 for an empty tree |
| `XmlTree.SaveXML` | backend/filtertree.cpp:1198-1302 | Writes the tags between the elements by the difference of their depths, and closes what is open at the end |
| `XmlTree.WriterNests` | backend/filtertree.cpp:1198-1302 | For every list of trees the written tags are the properly nested ones |
| `XmlLoad.WriterIsBalanced` | backend/filtertree.cpp:1198-1302 | What is written parses, and to the document that the trees stand for |
| `XmlLoad.LoadXML` | backend/filtertree.cpp:1062-1196 | The loop with its two stacks fails, with an empty tree, if and only if somewhere in reading order a filter refuses its state, a list of children is empty, or a list of children comes before any filter; from any other document it makes exactly the filters of the document, each at the depth where the nesting puts it, in document order but for the roots r0, r1, ..., rk, which come as r0, rk, ..., r1 with all that is below them |
| `XmlLoad.ReadDocument` | backend/filtertree.cpp:1062-1196 | The stepwise reader, with its stacks and insertions, comes to what the document says read as a whole, for every document |
| `XmlLoad.RotateConserves` | backend/filtertree.cpp:1163-1176 | Putting later roots in front of earlier ones loses and doubles nothing |
| `XmlRoundTrip.RotateTrees` | backend/filtertree.cpp:1163-1176 | On trees it keeps the first and reverses the others |
| `XmlRoundTrip.SaveThenLoad` | backend/filtertree.cpp:1062-1302 | Saving and loading rebuilds every root's subtree exactly; roots r0, r1, ..., rk come back as r0, rk, ..., r1 |
| `XmlRoundTrip.TwoCyclesAreIdentity` | backend/filtertree.cpp:1062-1302 | That order of the roots is undone by a second cycle |
| `XmlRoundTrip.Unflatten` | backend/filtertree.cpp:1198-1215 | Every pre-order listing of a forest is the listing of some trees |
| `XmlRoundTrip.SaveAndLoad` | backend/filtertree.cpp:1062-1302 | For every forest loading what was saved succeeds and gives the same trees, rotated |
| `XmlRoundTrip.TwoCycles` | backend/filtertree.cpp:1062-1302 | For every forest saving and loading twice changes nothing |
| `PathNames.SerialiseToStringPaths` | backend/filtertree.cpp:991-1043 | Every filter's path is its parent's path, a slash and its type name, if no earlier filter has that path, and otherwise the parent's path, the type name and `$>` with the least number from 1 up whose path no earlier filter has; distinct filters get distinct paths, for any forest and any type names |
| `PathNames.FreshName` | backend/filtertree.cpp:1017-1032 | The nonce loop ends; it gives the plain name if that is free, and otherwise the name with the least nonce that is free |
| `PathNames.DecimalIs` | backend/filtertree.cpp:1023-1027 | The number in a name is written in decimal digits, the unit digit last |
| `PathNames.TriedSize` | backend/filtertree.cpp:1018-1032 | n nonces make n different names, so by pigeonhole one is free |
| `PathNames.TopIsParent` | backend/filtertree.cpp:1006-1018 | The top of the stack, cut to the filter's depth, is the parent's path |
| `PathNames.PathsToFilters` | backend/filtertree.cpp:1045-1060 | The map from paths to filters is the exact inverse |
| `MeshGroups.AdjacentSymmetric` | common/mesh.cpp:2128-2186 | Sharing an edge is symmetric |
| `MeshGroups.CommonEdge` | common/mesh.cpp:2128-2186 | Two triangles are adjacent if and only if they have two corners in common |
| `MeshGroups.GetTriEdgeAdjacencyMap` | common/mesh.cpp:2128-2186 | The list of each triangle holds exactly the triangles that share an edge with it |
| `MeshGroups.FloodFrom` | common/mesh.cpp:2261-2311 | The flood ends with exactly the triangles connected to its start in the new group |
| `MeshGroups.PatchAdded` | common/mesh.cpp:2250-2321 | With one more flood the groups still are the connected components, numbered one after the other |
| `MeshGroups.SeedAdded` | common/mesh.cpp:2250-2321 | As the seed is the first untouched triangle, every group has a triangle before all the selected triangles of later groups |
| `Mesh.Mesh.DivideMeshSurface` | common/mesh.cpp:2188-2327 | Two selected triangles end in the same group if and only if a chain of edge-sharing neighbours that pass the angle test links them; groups are numbered consecutively, in the order of their least triangles; other triangles keep their group; the result is the number of groups plus one |
| `MeshOrphans.Offsets` | common/mesh.cpp:389-398 | The offset of a node is the number of orphans up to it |
| `MeshOrphans.RenumberingKeepsNode` | common/mesh.cpp:379-434 | A surviving node has the same coordinates under its new number |
| `MeshOrphans.Unreferenced` | common/mesh.cpp:1040-1071 | The orphans are exactly the nodes that no element refers to, in ascending order |
| `Mesh.RenumberingInjective` | common/mesh.cpp:379-434 | Survivors keep their order and get distinct numbers |
| `Mesh.Mesh.KillOrphans` | common/mesh.cpp:379-434 | Every point, line, triangle and tetrahedron refers to the same coordinates as before, and all indices are in range |
| `Mesh.Mesh.KillOrphanNodes` | common/mesh.cpp:1040-1071 | Afterwards every node is referenced, geometry and the triangles' groups are unchanged, and a mesh without orphans is left as it is |
| `Lfsr.MaskTopBit` | common/mathfuncs.cpp:790-845 | Every mask of the table has its top bit two places below the mask level |
| `Lfsr.Taps1` | common/mathfuncs.cpp:788-800 | The taps of the masks for levels 3 to 14, as sums of powers of two ... |
| `Lfsr.Taps2` | common/mathfuncs.cpp:801-812 | ... of levels 15 to 26 ... |
| `Lfsr.Taps3` | common/mathfuncs.cpp:813-826 | ... of levels 27 to 38 ... |
| `Lfsr.Taps4` | common/mathfuncs.cpp:827-841 | ... and of levels 39 to 50 |
| `Lfsr.LinearFeedbackShiftReg.SetMaskPeriod` | common/mathfuncs.cpp:848-862 | The loop of ors makes the mask of as many ones as the level says |
| `Lfsr.LinearFeedbackShiftReg.Clock` | common/mathfuncs.cpp:898-909 | One clock is the shift, the masked exclusive or, the total mask and the escape from zero |
| `Lfsr.StepBits` | common/mathfuncs.cpp:898-909 | One clock bit by bit, from any start: each bit below the mask level is the next higher one, turned over by the mask if a 1 drops out; 1 if that leaves none |
| `Lfsr.StepReachesStates` | common/mathfuncs.cpp:898-909 | From any start two clocks reach the states 1..2^(n-1)-1, and the clock does not leave them |
| `Lfsr.BackUndoesStep` | common/mathfuncs.cpp:898-909 | On the states the clock has an inverse ... |
| `Lfsr.StepUndoesBack` | common/mathfuncs.cpp:898-909 | ... on both sides, so it permutes them |
| `Lfsr.FullPeriodFromAnyState` | common/mathfuncs.cpp:863-895 | If the state 1 has the full period, then from any state the next 2^(n-1)-1 states are all the states, each once |
| `Lfsr.LinearFeedbackShiftReg.VerifyTable` | common/mathfuncs.cpp:863-895 | The counting loop ends for every entry and returns true if and only if every entry checked has the full period |
| `Lfsr.FirstEntryIsFull` | common/mathfuncs.cpp:788-790 | The first entry of the table has the full period |
| `Lfsr.RandomDigitSelection` | common/basics.h:691-832 | With num not below max, all of [0, max), for any max; otherwise, given the full period of the mask chosen, the weak branch ends with num pairwise distinct numbers in [1, max): those below max among the states that follow the start |
| `Lfsr.MaskLevel` | common/basics.h:797-806 | The mask level has more states than there are numbers to pick from, and its table entry exists |
| `Lfsr.SelectionStep` | common/basics.h:815-829 | As long as numbers are missing a clock makes progress: the cycle is not yet over |
| `Bits.XorTopBit` | common/mathfuncs.cpp:898-909 | The top bit of an exclusive or tells whether the mask was applied |
| `KeyFrames.CheckSelfConsistent` | backend/animator.cpp:157-192 | Collects exactly the positions of tracks that overlap another track of the same property, and is true if and only if there are none |
| `KeyFrames.OverlapIsSharedFrame` | common/basics.h:90-113 | Two ranges overlap if and only if they share a frame |
| `KeyFrames.GetInterpolatedFilterData` | backend/animator.cpp:194-269 | Shows the value of an active track at the frame; else of the track that ended last, at its own last frame; else nothing, and then no matching track has begun or ended |
| `KeyFrames.NothingExactly` | backend/animator.cpp:243-254 | Nothing is shown if and only if every matching track has frames and starts later |
| `KeyFrames.NothingExactlyBeforeStart` | backend/animator.cpp:194-269 | That nothing is shown if and only if every matching track starts later holds if and only if it is not so that a matching track has no frames and all the others start later |
| `KeyFrames.EmptyTrackIsHeld` | backend/animator.cpp:243-262 | In that case, for every list and frame, a track without frames is shown, at frame 0 |
| `KeyFrames.ShownIsUnique` | backend/animator.cpp:194-269 | On a self-consistent list there is one thing to show, unless two different tracks without frames are all that matches up to the frame |
| `KeyFrames.UniqueExactly` | backend/animator.cpp:194-269 | And only then: on a self-consistent list what is shown is determined if and only if there are no two such tracks |
| `KeyFrames.ConsistencyIgnoresOrder` | backend/animator.cpp:157-192 | Self-consistency does not depend on the order of the list |
| `KeyFrames.SameInAnyOrder` | backend/animator.cpp:194-269 | Two orders of the same consistent tracks give the same text, unless two such tracks contend |
| `KeyFrames.GetMinFrame` | backend/animator.cpp:433-440 | The least frame, or the greatest number for no frames |
| `KeyFrames.GetMaxFrame` | backend/animator.cpp:442-449 | The greatest frame, or 0 for no frames |
| `UniqueIds.UniqueIDHandler.GenId` | common/basics.cpp:1183-1212 | Appends the given position with the least identifier that no entry uses, whatever the list holds; appending at the end keeps the list tidy |
| `UniqueIds.UniqueIDHandler.KillByPos` | common/basics.cpp:1149-1168 | Removes exactly the entry at the position; later entries move up by one and keep their identifiers; positions are 0..n-1 again |
| `UniqueIds.UniqueIDHandler.GetPos` | common/basics.cpp:1136-1147 | The position of an identifier ... |
| `UniqueIds.UniqueIDHandler.GetId` | common/basics.cpp:1170-1181 | ... and the identifier at a position, inverse to each other |
| `UniqueIds.SomeIdIsFree` | common/basics.cpp:1183-1212 | By pigeonhole an identifier up to n is free |
| `UniqueIds.SurvivorKeepsId` | common/basics.cpp:1149-1168 | A survivor keeps its identifier and moves up by one exactly if it followed the deleted entry |
| `UniqueIds.RunKeepsIdsSmall` | common/basics.cpp:1136-1212 | In every run identifiers are distinct and stay below the greatest number of entries alive at one time |
| `EdgeIndex.GetEdgeCell` | common/voxels.h:770-788 | Recovers cell and axis: every number is the number of an edge of exactly the cell returned |
| `EdgeIndex.EdgeIdInjective` | common/voxels.h:720-767 | Distinct edges of cells within the bounds have distinct numbers |
| `EdgeIndex.PastTheEndCollides` | common/voxels.h:761-764 | The bound along z is needed: one cell further has the numbers of the next row |
| `EdgeIndex.RoundTrip` | common/voxels.h:720-788 | Decoding inverts the numbering for all bin counts |

## Left out

- Concrete filter classes, memory accounting and the cache-size decision are not modelled: a filter is its contract, and what it may keep is arbitrary.
- The order in which a filter puts its own streams and those it passes on is taken to be fixed for given property values.
- Collector.RefreshCollector.CollectToLevel: states safety only; the code frees from one level past the one it cuts to, so nothing is claimed about streams that are never freed.
- Propagation, Evaluation and FilterTree see the tree as a pre-order depth sequence; LinkedWalk proves that such sequences are what the iterators show of the linked nodes, and LinkedReparent that moves agree, but the engine's methods do not hold the nodes themselves.
- LinkedReparent.MoveUnder: the search for the two filters in the tree and the clearing of caches are modelled in FilterTree, not on the linked nodes.
- prepend_child, move, sort, the post-order, sibling and fixed-depth iterators and the leaf iterator confined to a subtree are not modelled.
- LinkedClone.CopyTree: two different trees; assigning a tree to itself, which would clear it, is not modelled.
- initFilterTree, addFilter, addFilterTree, copyFilter, removeSubtree, cloneSubtree and the identifier maps of TreeState are not modelled.
- The monitoring pass before a refresh and the check that flags inconsistent filter output are left out.
- XmlLoad.LoadXML: starts from an element tree; text, attributes, libxml2 and each filter's own state are opaque, and the renaming of files in packages is left out.
- Mesh.Mesh.DivideMeshSurface: the angle between triangle normals is an arbitrary symmetric relation; floating point is left out. Physical groups of lines and tetrahedra are not kept.
- Mesh refinement, removal of stray triangles, relaxation, volumes and point-in-mesh tests are not modelled.
- Lfsr.RandomDigitSelection: the full period of the table entry in use is assumed, as the code does; VerifyTable states what the repository's own check decides, and only the first entry is worked out here. The tick-based branch is left out, and so is randomSelect, whose weak branch is the same loop through a source list.
- KeyFrames.GetInterpolatedFilterData: interpolation between frames is an arbitrary function of track and frame; std::sort is any sort by last frame.
- UniqueIds.UniqueIDHandler.GenId: 32-bit overflow of identifiers is not modelled.
- EdgeIndex.GetEdgeCell: numbers that do not fit a machine word are not modelled.
- User interface, rendering, file formats, range files and numerical analysis are outside this project.
