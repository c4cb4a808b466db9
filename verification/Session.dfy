/** Whole runs: edits, undos, redos and refreshes in any order. */
module Session {
  import opened Filters
  import opened PreOrder
  import opened Evaluation
  import opened Edits
  import opened UndoRedo

  /** The user's session: the active tree with its history, and the number the
      next refresh will put on its streams. */
  datatype Session = Session(h: History, epoch: nat)

  datatype Event =
    | SetProperty(id: nat, outcome: PropertyOutcome)
    | Reparent(id: nat, newParent: Option<nat>)
    | ClearCaches(which: nat -> bool)
    | Refreshed(keep: nat -> bool, reached: nat)
    | Undo
    | Redo

  /** What an event does. A refresh that met trouble has reached only some of the
      filters. */
  ghost predicate Next(lib: Library, s: Session, e: Event, s': Session) {
    var t := s.h.cur;
    match e
    case SetProperty(id, outcome) =>
      && s'.epoch == s.epoch && |t.d| == |t.f| && IndexOf(t.f, id) < |t.f|
      && s'.h == (match outcome
                  case Refused => PopUndo(Push(s.h), false)
                  case Same => Push(s.h)
                  case Changed(cfg) => Push(s.h).(cur := Forest(t.d, WithProperty(t.d, t.f, IndexOf(t.f, id), cfg))))
    case Reparent(id, newParent) =>
      var m, p := IndexOf(t.f, id), ParentIndex(t.f, newParent);
      && s'.epoch == s.epoch && |t.d| == |t.f| && m < |t.f|
      && (newParent.Some? ==> newParent.value != id && p.value < |t.f|)
      && s'.h == if CanMove(t.d, m, p)
                 then Push(s.h).(cur := Forest(MovedDepths(t.d, m, p), MovedFilters(t.d, ClearedForMove(t.d, t.f, m), m, p)))
                 else PopUndo(Push(s.h), false)
    case ClearCaches(which) =>
      && s'.epoch == s.epoch
      && s'.h == s.h.(cur := Forest(t.d, seq(|t.f|, i requires 0 <= i < |t.f| =>
                                           if which(t.f[i].id) then t.f[i].(cache := None) else t.f[i])))
    case Refreshed(keep, reached) =>
      var r := Refresh(lib, s.epoch, keep);
      && ValidForest(t) && s'.epoch == s.epoch + 1
      && AfterRefresh(r, t, Seeds(lib, t), reached, s'.h.cur)
      && s'.h == s.h.(cur := s'.h.cur)
    case Undo =>
      s'.epoch == s.epoch && s.h.undo != [] && s'.h == PopUndo(s.h, true)
    case Redo =>
      s'.epoch == s.epoch && s.h.redo != [] && s'.h == PopRedo(s.h)
  }

  ghost predicate WellShaped(t: Forest) {
    ValidForest(t) && DistinctIds(t)
  }

  ghost predicate Good(lib: Library, s: Session) {
    && Bounded(s.h)
    && WellShaped(s.h.cur) && SoundCaches(lib, s.h.cur, s.epoch) && Coherent(lib, s.h.cur)
    && (forall i | 0 <= i < |s.h.undo| :: WellShaped(s.h.undo[i]))
    && (forall i | 0 <= i < |s.h.redo| :: WellShaped(s.h.redo[i]))
  }

  lemma CloneIsWellShaped(t: Forest)
    requires WellShaped(t)
    ensures WellShaped(Clone(t)) && Bare(Clone(t))
  {
  }

  lemma BareIsGood(lib: Library, t: Forest, epoch: nat)
    requires ValidForest(t) && Bare(t)
    ensures SoundCaches(lib, t, epoch) && Coherent(lib, t)
  {
  }

  /** Taking caches away leaves sound caches. */
  lemma ClearedIsSound(lib: Library, t: Forest, t': Forest, epoch: nat)
    requires SoundCaches(lib, t, epoch) && |t'.f| == |t.f|
    requires forall i | 0 <= i < |t.f| :: t'.f[i] == t.f[i] || t'.f[i].cache.None?
    ensures SoundCaches(lib, t', epoch)
  {
    forall i | 0 <= i < |t'.f| ensures SoundCache(lib, t'.f[i], epoch) {
      assert SoundCache(lib, t.f[i], epoch);
    }
  }

  lemma PushIsGood(lib: Library, s: Session)
    requires Good(lib, s)
    ensures Good(lib, s.(h := Push(s.h))) && Push(s.h).undo != []
    ensures Good(lib, s.(h := PopUndo(Push(s.h), false)))
  {
    CloneIsWellShaped(s.h.cur);
    StacksStayBounded(s.h, false);
    StacksStayBounded(Push(s.h), false);
  }

  lemma SetPropertyIsGood(lib: Library, s: Session, id: nat, outcome: PropertyOutcome, s': Session)
    requires Good(lib, s) && Next(lib, s, SetProperty(id, outcome), s')
    ensures Good(lib, s')
  {
    PushIsGood(lib, s);
    var t := s.h.cur;
    match outcome
    case Refused =>
    case Same =>
    case Changed(cfg) =>
      PropertyKeepsCoherence(lib, t, IndexOf(t.f, id), cfg);
      ClearedIsSound(lib, t, s'.h.cur, s.epoch);
  }

  /** A change of a property, filter by filter; the tree before it, without its caches, is
      the newest entry of the undo stack, and there is nothing to redo. */
  lemma SetPropertyExact(lib: Library, s: Session, id: nat, cfg: int, s': Session)
    requires Next(lib, s, SetProperty(id, Changed(cfg)), s')
    ensures var t, t' := s.h.cur, s'.h.cur;
            |t.d| == |t.f| && t'.d == t.d && IsChangedAt(t.d, t.f, IndexOf(t.f, id), cfg, t'.f)
    ensures s'.h.undo != [] && s'.h.undo[|s'.h.undo| - 1] == Clone(s.h.cur) && s'.h.redo == []
  {
    ChangeExact(s.h.cur.d, s.h.cur.f, IndexOf(s.h.cur.f, id), cfg);
  }

  /** The same for a move. */
  lemma ReparentExact(lib: Library, s: Session, id: nat, newParent: Option<nat>, s': Session)
    requires ValidForest(s.h.cur) && Next(lib, s, Reparent(id, newParent), s')
    requires newParent.Some? ==> !Within(s.h.cur.d, IndexOf(s.h.cur.f, id), IndexOf(s.h.cur.f, newParent.value))
    ensures var p := if newParent.Some? then Some(IndexOf(s.h.cur.f, newParent.value)) else None;
            IsMovedTo(s.h.cur, IndexOf(s.h.cur.f, id), p, s'.h.cur)
    ensures s'.h.undo != [] && s'.h.undo[|s'.h.undo| - 1] == Clone(s.h.cur) && s'.h.redo == []
  {
    hide IsMovedTo, MovedDepths, MovedFilters, ClearedForMove, Within, ValidForest, AfterRefresh, CanMove, Below, Clone;
    var t := s.h.cur;
    ValidLets(t);
    ParentIndexIs(t.f, newParent);
    CanMoveIs(t.d, IndexOf(t.f, id), ParentIndex(t.f, newParent));
    MovedTo(t, IndexOf(t.f, id), ParentIndex(t.f, newParent));
  }

  lemma ReparentIsGood(lib: Library, s: Session, id: nat, newParent: Option<nat>, s': Session)
    requires Good(lib, s) && Next(lib, s, Reparent(id, newParent), s')
    ensures Good(lib, s')
  {
    PushIsGood(lib, s);
    var t := s.h.cur;
    var m, p := IndexOf(t.f, id), ParentIndex(t.f, newParent);
    if CanMove(t.d, m, p) {
      ReparentKeepsCoherence(lib, t, m, p, s'.h.cur);
      MovedIsSound(lib, t, m, p, s'.h.cur, s.epoch);
    }
  }

  lemma MovedIsSound(lib: Library, t: Forest, m: nat, p: Option<nat>, t': Forest, epoch: nat)
    requires ValidForest(t) && CanMove(t.d, m, p) && SoundCaches(lib, t, epoch)
    requires t' == Forest(MovedDepths(t.d, m, p), MovedFilters(t.d, ClearedForMove(t.d, t.f, m), m, p))
    ensures SoundCaches(lib, t', epoch)
  {
    var c := ClearedForMove(t.d, t.f, m);
    MovedAt(t.d, c, m, p, m);
    forall k' | 0 <= k' < |t'.f| ensures SoundCache(lib, t'.f[k'], epoch) {
      var k := NewIndexOnto(t.d, m, p, k');
      MovedAt(t.d, c, m, p, k);
      assert SoundCache(lib, t.f[k], epoch);
    }
  }

  lemma RefreshIsGood(lib: Library, s: Session, keep: nat -> bool, reached: nat, s': Session)
    requires Lawful(lib) && Good(lib, s) && Next(lib, s, Refreshed(keep, reached), s')
    ensures Good(lib, s')
  {
    var r := Refresh(lib, s.epoch, keep);
    var t, t' := s.h.cur, s'.h.cur;
    RefreshKeepsSoundness(r, t, reached, t');
    RefreshKeepsCoherence(r, t, reached, t');
    forall k | 0 <= k < |t.f| ensures t'.f[k].id == t.f[k].id {
      var i: nat := k;
      assert t'.f[i].id == t.f[i].id;
    }
  }

  lemma HistoryIsGood(lib: Library, s: Session, e: Event, s': Session)
    requires Good(lib, s) && (e.Undo? || e.Redo?) && Next(lib, s, e, s')
    ensures Good(lib, s')
  {
    CloneIsWellShaped(s.h.cur);
    StacksStayBounded(s.h, true);
    if e.Undo? {
      BareIsGood(lib, s.h.undo[|s.h.undo| - 1], s.epoch);
    } else {
      BareIsGood(lib, s.h.redo[|s.h.redo| - 1], s.epoch);
    }
  }

  /** Every event keeps the session good. */
  lemma EventKeepsGood(lib: Library, s: Session, e: Event, s': Session)
    requires Lawful(lib) && Good(lib, s) && Next(lib, s, e, s')
    ensures Good(lib, s')
  {
    match e
    case SetProperty(id, outcome) => SetPropertyIsGood(lib, s, id, outcome, s');
    case Reparent(id, newParent) => ReparentIsGood(lib, s, id, newParent, s');
    case ClearCaches(which) =>
      ClearingKeepsCoherence(lib, s.h.cur, s'.h.cur);
      ClearedIsSound(lib, s.h.cur, s'.h.cur, s.epoch);
    case Refreshed(keep, reached) => RefreshIsGood(lib, s, keep, reached, s');
    case Undo => HistoryIsGood(lib, s, e, s');
    case Redo => HistoryIsGood(lib, s, e, s');
  }

  /** A run: states joined by events, from a tree without caches and an empty
      history. */
  ghost predicate IsRun(lib: Library, states: seq<Session>, events: seq<Event>) {
    && |states| == |events| + 1
    && WellShaped(states[0].h.cur) && Bare(states[0].h.cur)
    && states[0].h.undo == states[0].h.redo == []
    && forall i | 0 <= i < |events| :: Next(lib, states[i], events[i], states[i + 1])
  }

  lemma {:induction false} RunIsGood(lib: Library, states: seq<Session>, events: seq<Event>, i: nat)
    requires Lawful(lib) && IsRun(lib, states, events) && i < |states|
    ensures Good(lib, states[i])
  {
    if i == 0 {
      BareIsGood(lib, states[0].h.cur, states[0].epoch);
    } else {
      RunIsGood(lib, states, events, i - 1);
      EventKeepsGood(lib, states[i - 1], events[i - 1], states[i]);
    }
  }

  /** In every run, whatever was edited, cached, undone or redone before, a refresh
      from the chosen seeds shows what evaluating the active tree from scratch
      shows. */
  lemma EveryRefreshShowsTheTree(lib: Library, states: seq<Session>, events: seq<Event>, i: nat, keep: nat -> bool)
    requires Lawful(lib) && IsRun(lib, states, events) && i < |states|
    ensures ValidForest(states[i].h.cur)
    ensures var t := states[i].h.cur;
            var r := Refresh(lib, states[i].epoch, keep);
            ViewOutputs(Outputs(r, t, Seeds(lib, t), |t.d|)) == PureOutputs(lib, t, |t.d|)
  {
    RunIsGood(lib, states, events, i);
    var t := states[i].h.cur;
    var r := Refresh(lib, states[i].epoch, keep);
    SeedsGiveAllOutputs(r, t, |t.d|);
    OutputsArePure(r, t, |t.d|);
  }

  /** In every run the assertion of the redo operation holds. */
  lemma RedoNeverOverflows(lib: Library, states: seq<Session>, events: seq<Event>, i: nat)
    requires Lawful(lib) && IsRun(lib, states, events) && i < |events| && events[i].Redo?
    ensures |states[i].h.undo| <= MAX_UNDO_SIZE
  {
    RunIsGood(lib, states, events, i);
    assert Next(lib, states[i], events[i], states[i + 1]);
  }
}
