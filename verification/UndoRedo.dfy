/** The undo and redo stacks around the active filter tree. */
module UndoRedo {
  import opened Filters

  const MAX_UNDO_SIZE: nat := 10

  /** A copy of a tree holds clones of its filters, without their caches. */
  function Clone(t: Forest): (c: Forest)
    ensures c.d == t.d && |c.f| == |t.f|
    ensures forall i | 0 <= i < |t.f| :: c.f[i] == t.f[i].(cache := None)
  {
    Forest(t.d, seq(|t.f|, i requires 0 <= i < |t.f| => t.f[i].(cache := None)))
  }

  ghost predicate Bare(t: Forest) {
    forall i | 0 <= i < |t.f| :: t.f[i].cache.None?
  }

  lemma CloneOfBare(t: Forest)
    requires Bare(t)
    ensures Clone(t) == t
  {
    assert Clone(t).f == t.f;
  }

  datatype History = History(cur: Forest, undo: seq<Forest>, redo: seq<Forest>)

  function Push(h: History): History {
    var undo := if |h.undo| > MAX_UNDO_SIZE then h.undo[1..] else h.undo;
    History(h.cur, undo + [Clone(h.cur)], [])
  }

  function PopUndo(h: History, restore: bool): History
    requires h.undo != []
  {
    var n := |h.undo|;
    var redo := h.redo + [Clone(h.cur)];
    History(if restore then h.undo[n - 1] else h.cur,
            h.undo[..n - 1],
            if |redo| > MAX_UNDO_SIZE then redo[1..] else redo)
  }

  function PopRedo(h: History): History
    requires h.redo != []
  {
    var n := |h.redo|;
    History(h.redo[n - 1], h.undo + [Clone(h.cur)], h.redo[..n - 1])
  }

  class TreeState {
    var filterTree: Forest
    var undoFilterStack: seq<Forest>
    var redoFilterStack: seq<Forest>

    function View(): History
      reads this
    {
      History(filterTree, undoFilterStack, redoFilterStack)
    }

    constructor (t: Forest)
      ensures View() == History(t, [], [])
    {
      filterTree, undoFilterStack, redoFilterStack := t, [], [];
    }

    method PushUndoStack()
      modifies this
      ensures View() == Push(old(View()))
    {
      if |undoFilterStack| > MAX_UNDO_SIZE {
        undoFilterStack := undoFilterStack[1..];
      }
      undoFilterStack := undoFilterStack + [Clone(filterTree)];
      redoFilterStack := [];
    }

    method PopUndoStack(restorePopped: bool)
      requires undoFilterStack != []
      modifies this
      ensures View() == PopUndo(old(View()), restorePopped)
    {
      redoFilterStack := redoFilterStack + [Clone(filterTree)];
      if |redoFilterStack| > MAX_UNDO_SIZE {
        redoFilterStack := redoFilterStack[1..];
      }
      var back := |undoFilterStack| - 1;
      if restorePopped {
        filterTree, undoFilterStack := undoFilterStack[back], undoFilterStack[back := filterTree];
      }
      undoFilterStack := undoFilterStack[..back];
    }

    /** The precondition on the undo stack is the method's own assertion;
        `Bounded` shows that it holds in every run. */
    method PopRedoStack()
      requires redoFilterStack != [] && |undoFilterStack| <= MAX_UNDO_SIZE
      modifies this
      ensures View() == PopRedo(old(View()))
    {
      undoFilterStack := undoFilterStack + [Clone(filterTree)];
      var back := |redoFilterStack| - 1;
      filterTree, redoFilterStack := redoFilterStack[back], redoFilterStack[back := filterTree];
      redoFilterStack := redoFilterStack[..back];
    }
  }

  /** The two stacks together never hold more than one over the limit, and what
      they hold has no caches. */
  ghost predicate Bounded(h: History) {
    && |h.undo| + |h.redo| <= MAX_UNDO_SIZE + 1
    && (forall i | 0 <= i < |h.undo| :: Bare(h.undo[i]))
    && (forall i | 0 <= i < |h.redo| :: Bare(h.redo[i]))
  }

  lemma StacksStayBounded(h: History, restore: bool)
    requires Bounded(h)
    ensures Bounded(Push(h))
    ensures h.undo != [] ==> Bounded(PopUndo(h, restore))
    ensures h.redo != [] ==> |h.undo| <= MAX_UNDO_SIZE && Bounded(PopRedo(h))
  {
  }

  /** A refused edit leaves the active tree alone. The undo stack comes back
      exactly if it was not over full; the redo stack is replaced by one copy of
      the active tree. */
  lemma RefusedEdit(h: History)
    requires Bounded(h)
    ensures Push(h).undo != []
    ensures PopUndo(Push(h), false).cur == h.cur
    ensures PopUndo(Push(h), false).undo == h.undo <==> |h.undo| <= MAX_UNDO_SIZE
    ensures PopUndo(Push(h), false).redo == [Clone(h.cur)]
  {
  }

  function UndoTimes(h: History, k: nat): History
    requires k <= |h.undo|
    decreases k
  {
    if k == 0 then h else UndoTimes(PopUndo(h, true), k - 1)
  }

  predicate CanRedo(h: History, k: nat) {
    k <= |h.redo|
  }

  function RedoTimes(h: History, k: nat): (r: History)
    requires CanRedo(h, k)
    ensures |r.redo| == |h.redo| - k
  {
    if k == 0 then h else PopRedo(RedoTimes(h, k - 1))
  }

  /** The redo stack after `k` undos and as many redos. */
  function RedoKept(h: History, k: nat): seq<Forest> {
    if |h.redo| + k <= MAX_UNDO_SIZE || h.redo == [] then h.redo else h.redo[1..]
  }

  /** After `k` undos the same number of redos is possible unless the whole of an
      over-full undo stack was undone ... */
  lemma RedosPossible(h: History, k: nat)
    requires Bounded(h) && 0 < k <= |h.undo|
    ensures CanRedo(UndoTimes(h, k), k) <==> k <= MAX_UNDO_SIZE == 10
  {
    UndoLength(h, k);
  }

  /** ... and then they restore the active tree (without its caches) and the undo
      stack; the redo stack comes back too, short of its oldest entry if there
      were more than the limit. */
  lemma {:induction false} UndoRedoRoundTrip(h: History, k: nat)
    requires Bounded(h) && 0 < k <= |h.undo| && k <= MAX_UNDO_SIZE
    ensures CanRedo(UndoTimes(h, k), k)
    ensures RedoTimes(UndoTimes(h, k), k) == History(Clone(h.cur), h.undo, RedoKept(h, k))
    ensures RedoKept(h, k) == if |h.redo| + k <= 10 || h.redo == [] then h.redo else h.redo[1..]
    decreases k
  {
    hide *;
    RedoKeptIs(h, k);
    RedosPossible(h, k);
    var u := PopUndo(h, true);
    StacksStayBounded(h, true);
    UndoSplits(h, k);
    UndoIsShorter(h);
    if k > 1 {
      UndoRedoRoundTrip(u, k - 1);
    } else {
      NoneUndone(u);
    }
    BackIs(h, k, RedoTimes(UndoTimes(u, k - 1), k - 1));
  }

  lemma UndoIsShorter(h: History)
    requires h.undo != []
    ensures |PopUndo(h, true).undo| == |h.undo| - 1
  {
  }

  lemma RedoKeptIs(h: History, k: nat)
    ensures RedoKept(h, k) == if |h.redo| + k <= 10 || h.redo == [] then h.redo else h.redo[1..]
    ensures MAX_UNDO_SIZE == 10
  {
  }

  lemma NoneUndone(h: History)
    ensures UndoTimes(h, 0) == h && CanRedo(h, 0) && RedoTimes(h, 0) == h
  {
  }

  lemma UndoSplits(h: History, k: nat)
    requires Bounded(h) && 0 < k <= |h.undo| && k <= MAX_UNDO_SIZE
    requires CanRedo(UndoTimes(h, k), k)
    ensures UndoTimes(h, k) == UndoTimes(PopUndo(h, true), k - 1) && CanRedo(UndoTimes(h, k), k - 1)
    ensures RedoTimes(UndoTimes(h, k), k - 1).redo != []
    ensures RedoTimes(UndoTimes(h, k), k) == PopRedo(RedoTimes(UndoTimes(h, k), k - 1))
  {
  }

  lemma BackIs(h: History, k: nat, back: History)
    requires Bounded(h) && 0 < k <= |h.undo| && k <= MAX_UNDO_SIZE
    requires var u := PopUndo(h, true);
             back == if k == 1 then u else History(Clone(u.cur), u.undo, RedoKept(u, k - 1))
    ensures back.redo != [] && PopRedo(back) == History(Clone(h.cur), h.undo, RedoKept(h, k))
  {
    CloneOfBare(h.undo[|h.undo| - 1]);
    RedoRestores(h, back.redo);
  }

  /** A redo right after an undo, whatever else the redo stack holds below. */
  lemma RedoRestores(h: History, redo: seq<Forest>)
    requires Bounded(h) && h.undo != [] && redo != [] && redo[|redo| - 1] == Clone(h.cur)
    ensures PopRedo(History(h.undo[|h.undo| - 1], h.undo[..|h.undo| - 1], redo)) ==
            History(Clone(h.cur), h.undo, redo[..|redo| - 1])
  {
    CloneOfBare(h.undo[|h.undo| - 1]);
  }

  lemma {:induction false} UndoLength(h: History, k: nat)
    requires Bounded(h) && k <= |h.undo|
    ensures |UndoTimes(h, k).redo| == if |h.redo| + k <= MAX_UNDO_SIZE then |h.redo| + k
                                      else if |h.redo| > MAX_UNDO_SIZE && k == 0 then |h.redo| else MAX_UNDO_SIZE
    decreases k
  {
    if k > 0 {
      StacksStayBounded(h, true);
      UndoLength(PopUndo(h, true), k - 1);
    }
  }

  // ---- Edits and their undoing ----

  /** Histories joined by edits: each a push, followed by any new tree. */
  ghost predicate AreEdits(hs: seq<History>) {
    hs != [] && forall i, j | 0 <= i < |hs| && j == i + 1 && j < |hs| :: hs[j] == Push(hs[i]).(cur := hs[j].cur)
  }

  /** Histories joined by undos, as long as there is something to undo. */
  ghost predicate AreUndos(us: seq<History>) {
    us != [] && forall i, j | 0 <= i < |us| && j == i + 1 && j < |us| ::
      us[i].undo != [] ==> us[j] == PopUndo(us[i], true)
  }

  /** After edits the undo stack holds eleven entries at most, and nothing can be redone. */
  lemma {:induction false} StackSize(hs: seq<History>, k: nat)
    requires AreEdits(hs) && |hs[0].undo| <= 11 && k < |hs|
    ensures |hs[k].undo| == if |hs[0].undo| + k <= 11 then |hs[0].undo| + k else 11
    ensures k > 0 ==> hs[k].redo == []
  {
    if k > 0 {
      StackSize(hs, k - 1);
      hide Clone;
      assert hs[k] == Push(hs[k - 1]).(cur := hs[k].cur);
    }
  }

  /** Counted from the newest, its entries are copies of the trees before the edits, and
      then what the stack held before them. */
  lemma {:induction false} StackAfterEdits(hs: seq<History>, k: nat, j: nat)
    requires AreEdits(hs) && |hs[0].undo| <= 11 && k < |hs| && j < |hs[k].undo|
    ensures j >= k ==> j - k < |hs[0].undo|
    ensures hs[k].undo[|hs[k].undo| - 1 - j] ==
            if j < k then Clone(hs[k - 1 - j].cur) else hs[0].undo[|hs[0].undo| - 1 - (j - k)]
  {
    StackSize(hs, k);
    if k > 0 {
      hide *;
      StackSize(hs, k - 1);
      EditIs(hs, k);
      PushKeepsNewest(hs[k - 1], j);
      if j > 0 { StackAfterEdits(hs, k - 1, j - 1); }
    }
  }

  lemma EditIs(hs: seq<History>, k: nat)
    requires AreEdits(hs) && 0 < k < |hs|
    ensures hs[k] == Push(hs[k - 1]).(cur := hs[k].cur)
  {
    hide Push;
  }

  /** A push puts a copy of the active tree on top; all but perhaps the oldest entry stay. */
  lemma PushKeepsNewest(h: History, j: nat)
    requires |h.undo| <= 11 && j < |Push(h).undo|
    ensures |Push(h).undo| == if |h.undo| <= 10 then |h.undo| + 1 else 11
    ensures Push(h).cur == h.cur && Push(h).redo == []
    ensures j > 0 ==> j - 1 < |h.undo|
    ensures Push(h).undo[|Push(h).undo| - 1 - j] ==
            if j == 0 then Clone(h.cur) else h.undo[|h.undo| - 1 - (j - 1)]
  {
    hide Clone;
  }

  /** An undo puts a copy of the active tree on top of the redo stack, which keeps the ten
      newest entries. */
  lemma UndoKeepsNewest(h: History, restore: bool, j: nat)
    requires h.undo != [] && |h.redo| <= 10 && j < |PopUndo(h, restore).redo|
    ensures |PopUndo(h, restore).redo| == if |h.redo| <= 9 then |h.redo| + 1 else 10
    ensures PopUndo(h, restore).undo == h.undo[..|h.undo| - 1]
    ensures PopUndo(h, restore).cur == if restore then h.undo[|h.undo| - 1] else h.cur
    ensures j > 0 ==> j - 1 < |h.redo|
    ensures PopUndo(h, restore).redo[|PopUndo(h, restore).redo| - 1 - j] ==
            if j == 0 then Clone(h.cur) else h.redo[|h.redo| - 1 - (j - 1)]
  {
    hide Clone;
  }

  /** The last eleven edits, or fewer if there were fewer, can be undone one after the
      other; after each undo the active tree is, but for its caches, the one before the
      edit that was undone. */
  lemma {:induction false} EditsAreUndone(hs: seq<History>, us: seq<History>, i: nat)
    requires AreEdits(hs) && |hs[0].undo| <= 11 && AreUndos(us) && us[0] == hs[|hs| - 1]
    requires i < |us| && i <= |hs| - 1 && i <= 11
    ensures us[i].cur == if i == 0 then hs[|hs| - 1].cur else Clone(hs[|hs| - 1 - i].cur)
    ensures i <= |us[0].undo| && us[i].undo == us[0].undo[..|us[0].undo| - i]
  {
    var k := |hs| - 1;
    StackSize(hs, k);
    hide *;
    if i > 0 {
      EditsAreUndone(hs, us, i - 1);
      StackAfterEdits(hs, k, i - 1);
      UndoIs(us, i);
    }
  }

  lemma UndoIs(us: seq<History>, i: nat)
    requires AreUndos(us) && 0 < i < |us| && us[i - 1].undo != []
    ensures var u := us[i - 1].undo; us[i].cur == u[|u| - 1] && us[i].undo == u[..|u| - 1]
  {
    hide Clone;
    assert us[i] == PopUndo(us[i - 1], true);
  }
}
