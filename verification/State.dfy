/** The operations of the program's state, each an event of the session: they drive
    the undo and redo stacks and the filter tree together. */
module State {
  import opened Filters
  import opened Evaluation
  import opened Edits
  import opened UndoRedo
  import opened Session
  import opened FilterTree
  import Collector
  import Scrub
  import Traversal

  lemma GoodIs(lib: Library, h: History, epoch: nat)
    requires Good(lib, Session(h, epoch))
    ensures Bounded(h) && ValidForest(h.cur) && DistinctIds(h.cur) && |h.cur.d| == |h.cur.f|
    ensures SoundCaches(lib, h.cur, epoch) && Coherent(lib, h.cur)
  {
  }

  /** Push, try the change, and take the push back when it was refused. */
  method SetFilterProperty(s: TreeState, id: nat, outcome: PropertyOutcome, ghost lib: Library, ghost epoch: nat)
    returns (setOK: bool, needUpdate: bool)
    requires Lawful(lib) && Good(lib, Session(s.View(), epoch)) && IndexOf(s.filterTree.f, id) < |s.filterTree.f|
    modifies s
    ensures Next(lib, Session(old(s.View()), epoch), SetProperty(id, outcome), Session(s.View(), epoch))
    ensures Good(lib, Session(s.View(), epoch)) && setOK == !outcome.Refused?
  {
    ghost var before := s.View();
    GoodIs(lib, before, epoch);
    s.PushUndoStack();
    var t := new FilterTree(s.filterTree.d, s.filterTree.f);
    setOK, needUpdate := t.SetFilterProperty(id, outcome);
    s.filterTree := Forest(t.d, t.f);
    if !setOK {
      s.PopUndoStack(false);
    }
    EventKeepsGood(lib, Session(before, epoch), SetProperty(id, outcome), Session(s.View(), epoch));
  }

  /** The same for a move. */
  method ReparentFilter(s: TreeState, id: nat, newParent: Option<nat>, ghost lib: Library, ghost epoch: nat)
    returns (moved: bool)
    requires Lawful(lib) && Good(lib, Session(s.View(), epoch)) && IndexOf(s.filterTree.f, id) < |s.filterTree.f|
    requires newParent.Some? ==>
               newParent.value != id && IndexOf(s.filterTree.f, newParent.value) < |s.filterTree.f|
    modifies s
    ensures Next(lib, Session(old(s.View()), epoch), Reparent(id, newParent), Session(s.View(), epoch))
    ensures Good(lib, Session(s.View(), epoch))
  {
    ghost var before := s.View();
    GoodIs(lib, before, epoch);
    s.PushUndoStack();
    var t := new FilterTree(s.filterTree.d, s.filterTree.f);
    moved := t.ReparentFilter(id, newParent);
    s.filterTree := Forest(t.d, t.f);
    if !moved {
      s.PopUndoStack(false);
    }
    EventKeepsGood(lib, Session(before, epoch), Reparent(id, newParent), Session(s.View(), epoch));
  }

  method UndoEdit(s: TreeState, ghost lib: Library, ghost epoch: nat)
    requires Lawful(lib) && Good(lib, Session(s.View(), epoch)) && s.undoFilterStack != []
    modifies s
    ensures Next(lib, Session(old(s.View()), epoch), Undo, Session(s.View(), epoch))
    ensures Good(lib, Session(s.View(), epoch))
  {
    ghost var before := s.View();
    s.PopUndoStack(true);
    EventKeepsGood(lib, Session(before, epoch), Undo, Session(s.View(), epoch));
  }

  /** In a good session the assertion of the redo operation holds. */
  method RedoEdit(s: TreeState, ghost lib: Library, ghost epoch: nat)
    requires Lawful(lib) && Good(lib, Session(s.View(), epoch)) && s.redoFilterStack != []
    modifies s
    ensures Next(lib, Session(old(s.View()), epoch), Redo, Session(s.View(), epoch))
    ensures Good(lib, Session(s.View(), epoch))
  {
    ghost var before := s.View();
    GoodIs(lib, before, epoch);
    s.PopRedoStack();
    EventKeepsGood(lib, Session(before, epoch), Redo, Session(s.View(), epoch));
  }

  /** The output is, but for repeats, what evaluating the tree from scratch shows. */
  ghost predicate ShowsTree(lib: Library, t: Forest, outData: seq<(nat, seq<Stream>)>)
    requires ValidForest(t)
  {
    exists shown: seq<(nat, seq<Stream>)> ::
      ViewOutputs(shown) == PureOutputs(lib, t, |t.d|) && outData == Scrub.Scrubbed(shown, {})
  }

  /** A refresh of the active tree. When it finishes, the streams it shows, before
      repeats are scrubbed, read like those of evaluating the tree from scratch. */
  method RefreshTree(s: TreeState, r: Refresh, heap: Collector.Heap, trouble: Traversal.Trouble)
    returns (code: Code, outData: seq<(nat, seq<Stream>)>)
    requires Lawful(r.lib) && Good(r.lib, Session(s.View(), r.epoch))
    requires forall x | x in heap.alive :: x.born < r.epoch
    requires forall k, x | 0 <= k < |s.filterTree.f| && s.filterTree.f[k].cache.Some?
               && x in s.filterTree.f[k].cache.value :: x in heap.alive
    modifies s`filterTree, heap
    ensures exists reached: nat ::
              Next(r.lib, Session(old(s.View()), r.epoch), Refreshed(r.keep, reached), Session(s.View(), r.epoch + 1))
    ensures Good(r.lib, Session(s.View(), r.epoch + 1))
    ensures code.Done? ==> ValidForest(old(s.filterTree)) && ShowsTree(r.lib, old(s.filterTree), outData)
  {
    ghost var before, t0 := s.View(), s.filterTree;
    GoodIs(r.lib, before, r.epoch);
    var t := new FilterTree(s.filterTree.d, s.filterTree.f);
    assert t.Tree() == t0;
    code, outData := t.RefreshFilterTree(r, heap, trouble);
    s.filterTree := Forest(t.d, t.f);
    ghost var n: nat :| AfterRefresh(r, t0, Seeds(r.lib, t0), n, s.filterTree);
    EventKeepsGood(r.lib, Session(before, r.epoch), Refreshed(r.keep, n), Session(s.View(), r.epoch + 1));
    if code.Done? {
      OutputsArePure(r, t0, |t0.d|);
      assert ViewOutputs(Outputs(r, t0, {}, |t0.d|)) == PureOutputs(r.lib, t0, |t0.d|);
    }
  }
}
