/** The filter tree and its refresh. */
module FilterTree {
  import opened Counting
  import opened Filters
  import opened PreOrder
  import opened Propagation
  import opened Evaluation
  import opened Edits
  import opened Collector
  import opened Scrub
  import opened Traversal

  datatype Code = Done | Failed | Aborted

  class FilterTree {
    var d: seq<nat>
    var f: seq<Filter>
    /** The positions of the filters that the present refresh has refreshed, in order. */
    ghost var visited: seq<nat>

    constructor (d: seq<nat>, f: seq<Filter>)
      ensures this.d == d && this.f == f
    {
      this.d, this.f, visited := d, f, [];
    }

    ghost predicate Valid()
      reads this
    {
      ValidForest(Tree()) && DistinctIds(Tree())
    }

    function Tree(): Forest
      reads this
    {
      Forest(d, f)
    }

    /** One filter's refresh: hand out the cache or compute, then pass on the
        input that is not blocked. */
    method RefreshFilter(r: Refresh, heap: Heap, i: nat, input: seq<Stream>, trouble: Trouble)
      returns (err: bool, out: seq<Stream>)
      requires i < |f|
      requires forall x | x in heap.alive && x.born == r.epoch :: x.origin != f[i].id
      requires f[i].cache.Some? ==> forall x | x in f[i].cache.value :: x.cached && x in heap.alive
      modifies this`f, this`visited, heap
      ensures visited == old(visited) + [i]
      ensures err <==> trouble.fault(old(f)[i].id)
      ensures err ==> f == old(f) && heap.alive == old(heap.alive)
      ensures !err ==> out == FilterOut(r, old(f)[i], input)
      ensures !err ==> f == old(f)[i := KeptFilter(r, old(f)[i], input)]
      ensures !err ==> GivesOut(r, old(f)[i], input, out) && KeepsOwn(r, old(f)[i], input, f[i])
      ensures !err ==> HandsOn(out, input, old(heap.alive), heap.alive)
      ensures !err ==> forall x | x in Own(r, old(f)[i], input) :: x in heap.alive
      ensures forall x | x in heap.alive :: x in old(heap.alive) || (x.born == r.epoch && x.origin == old(f)[i].id)
    {
      visited := visited + [i];
      out := [];
      var filter := f[i];
      err := trouble.fault(filter.id);
      if err {
        return;
      }
      FilterOutExact(r, filter, input);
      var own, kept := MakeOwn(r, heap, filter, input);
      f := f[i := kept];
      var block := r.lib.block(filter.cfg);
      if r.lib.ownFirst(filter.cfg) {
        out := PropagateStreams(input, block, own);
      } else {
        out := PropagateStreams(input, block, []);
        out := out + own;
        assert [] + Pass(block, input) == Pass(block, input);
      }
      assert forall x | x in out :: x in own || x in Pass(block, input);
    }

    /** Pop the inputs to the level of filter `i` and free what was made deeper. */
    method PopToFilter(r: Refresh, heap: Heap, coll: RefreshCollector, ghost t: Forest, ghost seeds: set<nat>,
                       b: nat, i: nat, inDataStack: seq<seq<Stream>>, ghost anc: seq<nat>,
                       ghost outData: seq<(nat, seq<Stream>)>)
      returns (stack: seq<seq<Stream>>)
      requires ValidForest(t) && d == t.d && b <= i < |d| && AheadOk(r, t, i, f, heap.alive)
      requires coll.Valid()
      requires Ready(r, t, seeds, b, i, inDataStack, anc, coll.nodes)
      requires OwnOk(if i == b then [[]] else inDataStack, coll.nodes, coll.forgotten, outData, heap.alive)
      modifies heap, coll
      ensures coll.Valid() && AheadOk(r, t, i, f, heap.alive)
      ensures d[b] <= d[i] && |stack| == |coll.nodes| == d[i] - d[b] + 1 <= |inDataStack|
      ensures stack == inDataStack[..d[i] - d[b] + 1]
      ensures stack[|stack| - 1] == RunIn(r, t, seeds, i)
      ensures OwnOk(stack, coll.nodes, coll.forgotten, outData, heap.alive)
    {
      hide *;
      ghost var before, nodes := heap.alive, coll.nodes;
      ghost var live := if i == b then [[]] else inDataStack;
      ReadyLets(r, t, seeds, b, i, inDataStack, anc, nodes);
      OwnLets(live, nodes, coll.forgotten, outData, before);
      var popLevel := d[i] - d[b] + 1;
      stack := PopPointerStack(inDataStack, popLevel);
      assert inDataStack == inDataStack[..|inDataStack|];
      coll.CollectToLevel(heap, popLevel);
      assert coll.nodes == nodes[..popLevel];
      CollectIsSafe(live, nodes, coll.forgotten, outData, before, popLevel, coll.nodes, heap.alive);
      CollectKeepsCaches(r, t, i, f, nodes, coll.forgotten, before, popLevel + 1, heap.alive);
    }

    /** Visit one filter of the subtree of seed `b`: pop to its level, refresh it
        from the top of the stack, and push its output or, for a leaf, show it. */
    method VisitFilter(r: Refresh, heap: Heap, coll: RefreshCollector, ghost t: Forest, ghost seeds: set<nat>,
                       b: nat, i: nat, inDataStack: seq<seq<Stream>>, ghost anc: seq<nat>,
                       outData: seq<(nat, seq<Stream>)>, trouble: Trouble)
      returns (code: Code, stack: seq<seq<Stream>>, ghost anc': seq<nat>, out: seq<(nat, seq<Stream>)>)
      requires ValidForest(t) && DistinctIds(t) && SoundCaches(r.lib, t, r.epoch)
      requires d == t.d && b <= i < |d| && AheadOk(r, t, i, f, heap.alive)
      requires coll.Valid()
      requires Ready(r, t, seeds, b, i, inDataStack, anc, coll.nodes)
      requires OwnOk(if i == b then [[]] else inDataStack, coll.nodes, coll.forgotten, outData, heap.alive)
      modifies this`f, this`visited, heap, coll
      ensures visited == old(visited) + [i]
      ensures coll.Valid() && AheadOk(r, t, i + 1, f, heap.alive)
      ensures code.Aborted? <==> trouble.abort(t.f[i].id)
      ensures code.Done? <==> !trouble.abort(t.f[i].id) && !trouble.fault(t.f[i].id)
      ensures f == if trouble.fault(t.f[i].id) then old(f) else old(f)[i := KeptFilter(r, t.f[i], RunIn(r, t, seeds, i))]
      ensures OwnOk(stack, coll.nodes, coll.forgotten, out, heap.alive)
      ensures code.Done? ==> StackOk(r, t, seeds, b, i + 1, stack, anc') && |coll.nodes| == |stack|
      ensures out == if code.Done? then outData + OutputOf(r, t, seeds, i) else outData
    {
      hide *;
      ReadyLets(r, t, seeds, b, i, inDataStack, anc, coll.nodes);
      var popped := PopToFilter(r, heap, coll, t, seeds, b, i, inDataStack, anc, outData);
      out, stack, anc' := outData, popped, [];
      ghost var before := heap.alive;
      AheadLets(r, t, i, f, heap.alive);
      var id := f[i].id;
      var err, curData := RefreshFilter(r, heap, i, popped[|popped| - 1], trouble);
      RefreshMovesOn(r, t, i, old(f), f, RunIn(r, t, seeds, i), before, heap.alive);
      NothingIsSafe(popped, coll.nodes, coll.forgotten, outData, before, heap.alive);
      if trouble.abort(id) {
        code := Aborted;
      } else if err {
        code := Failed;
      } else {
        code := Done;
        VisitOutput(r, t, seeds, i, curData);
        stack, out := RecordOutput(coll, IsLeaf(d, i), id, popped, outData, curData, before, heap.alive);
        anc' := (if i == b then [0] else anc[..|popped|]) + if IsLeaf(d, i) then [] else [i];
        VisitKeepsStack(r, t, seeds, b, i, inDataStack, anc, popped, stack, anc');
      }
    }

    /** Refresh the subtree of seed `b`: scan on from `b`, passing over whatever
        does not lie below it. A refresh cut short has left the forest as after
        refreshing its first `m` filters. */
    method RefreshFrom(r: Refresh, heap: Heap, coll: RefreshCollector, ghost t: Forest, ghost seeds: set<nat>,
                       b: nat, inDataStack: seq<seq<Stream>>, outData: seq<(nat, seq<Stream>)>, trouble: Trouble)
      returns (code: Code, stack: seq<seq<Stream>>, out: seq<(nat, seq<Stream>)>, ghost m: nat, ghost ahead: nat)
      requires ValidForest(t) && DistinctIds(t) && SoundCaches(r.lib, t, r.epoch)
      requires d == t.d && b < |d| && seeds == Seeds(r.lib, t) && IsSeed(r.lib, t, b)
      requires coll.Valid() && coll.nodes == [[]] && |inDataStack| >= 1 && inDataStack[0] == []
      requires OwnOk([[]], coll.nodes, coll.forgotten, outData, heap.alive)
      requires Progress(r, t, seeds, b, Forest(d, f), outData, heap.alive)
      requires visited == CoveredBefore(t, seeds, b)
      modifies this`f, this`visited, heap, coll
      ensures b <= ahead <= End(d, b) && visited == CoveredBefore(t, seeds, ahead)
      ensures code.Done? ==> ahead == End(d, b)
      ensures coll.Valid() && OwnOk(stack, coll.nodes, coll.forgotten, out, heap.alive)
      ensures AfterRefresh(r, t, seeds, m, Forest(d, f)) && AheadOk(r, t, ahead, f, heap.alive)
      ensures code.Done? ==> |stack| >= 1 && stack[0] == [] && Progress(r, t, seeds, End(d, b), Forest(d, f), out, heap.alive)
      ensures Smooth(t, seeds, b, trouble) ==> (code.Done? <==> Smooth(t, seeds, End(d, b), trouble))
    {
      hide *;
      code, stack, out, m, ahead := Done, inDataStack, outData, b, b;
      ghost var anc: seq<nat> := [];
      ProgressLets(r, t, seeds, b, Forest(d, f), outData, heap.alive);
      ReadyAtSeed(r.lib, r, t, b, stack, coll.nodes);
      ScanIndex(d, b, b);
      ValidLets(t);
      var i := b;
      while i < |d|
        invariant b <= i <= |d| && d == t.d && code.Done?
        invariant m == ahead == if i <= End(d, b) then i else End(d, b)
        invariant visited == CoveredBefore(t, seeds, ahead)
        invariant coll.Valid() && |stack| >= 1 && stack[0] == []
        invariant i < End(d, b) ==> Ready(r, t, seeds, b, i, stack, anc, coll.nodes)
        invariant OwnOk(if i == b then [[]] else stack, coll.nodes, coll.forgotten, out, heap.alive)
        invariant Progress(r, t, seeds, m, Forest(d, f), out, heap.alive)
        invariant Smooth(t, seeds, b, trouble) ==> Smooth(t, seeds, m, trouble)
      {
        ScanIndex(d, b, i);
        var inside := i == b;
        if i != b {
          inside := IsChild(d, b, i);
        }
        if inside {
          InsideSeed(r.lib, t, b, i);
          CoveredNext(t, seeds, i);
          SmoothStep(t, seeds, i, trouble);
          ProgressLets(r, t, seeds, i, Forest(d, f), out, heap.alive);
          ghost var before, f0, out0 := heap.alive, f, out;
          code, stack, anc, out := VisitFilter(r, heap, coll, t, seeds, b, i, stack, anc, out, trouble);
          ahead := i + 1;
          if !trouble.fault(t.f[i].id) {
            VisitMakesProgress(r, t, seeds, i, f0, f, out0, before, heap.alive);
            ProgressLets(r, t, seeds, i + 1, Forest(d, f), out0 + OutputOf(r, t, seeds, i), heap.alive);
            m := i + 1;
          }
          if !code.Done? {
            if Smooth(t, seeds, End(d, b), trouble) {
              SmoothMonotone(t, seeds, i + 1, End(d, b), trouble);
            }
            return;
          }
          ReadyNext(r.lib, r, t, b, i, stack, anc, coll.nodes);
        }
        i := i + 1;
      }
      ProgressLets(r, t, seeds, m, Forest(d, f), out, heap.alive);
    }

    /** Refresh the forest from the chosen seeds. On success the output list shows
        each leaf's streams as a refresh of everything from the roots would, each
        stream once; every stream in it exists; and no stream was freed twice, or
        while the stack, the output list or a filter's cache still held it. The
        filters at or below a seed are refreshed in scan order, none of them twice. */
    method RefreshFilterTree(r: Refresh, heap: Heap, trouble: Trouble)
      returns (code: Code, outData: seq<(nat, seq<Stream>)>)
      requires Valid() && Lawful(r.lib) && SoundCaches(r.lib, Tree(), r.epoch)
      requires forall x | x in heap.alive :: x.born < r.epoch
      requires forall k, x | 0 <= k < |f| && f[k].cache.Some? && x in f[k].cache.value :: x in heap.alive
      modifies this`f, this`visited, heap
      ensures Valid() && d == old(d) && SoundCaches(r.lib, Tree(), r.epoch + 1)
      ensures old(Coherent(r.lib, Tree())) ==> Coherent(r.lib, Tree())
      ensures code.Done? <==> Smooth(old(Tree()), Seeds(r.lib, old(Tree())), |d|, trouble)
      ensures code.Done? ==> outData == Scrubbed(Outputs(r, old(Tree()), {}, |d|), {})
      ensures code.Done? ==> exists outs, places, shown ::
                IsFullRun(r, old(Tree()), outs) && ListsLeaves(old(Tree()), outs, |d|, places, shown)
                && IsScrubbed(shown, outData)
      ensures exists n: nat :: (code.Done? ==> n == |d|)
                               && AfterRefresh(r, old(Tree()), Seeds(r.lib, old(Tree())), n, Tree())
      ensures code.Done? ==> forall k, x | 0 <= k < |outData| && x in outData[k].1 :: x in heap.alive
      ensures forall k, x | 0 <= k < |f| && f[k].cache.Some? && x in f[k].cache.value :: x in heap.alive
      ensures forall x | x in heap.alive :: x.born <= r.epoch
      ensures forall i, j | 0 <= i < j < |visited| :: visited[i] < visited[j]
      ensures visited <= CoveredBefore(old(Tree()), Seeds(r.lib, old(Tree())), |d|)
      ensures code.Done? ==>
                forall i: nat :: i in visited <==> i < |d| && Covered(old(Tree()), Seeds(r.lib, old(Tree())), i)
    {
      ghost var t := Tree();
      ghost var m: nat, ahead: nat;
      code, outData, m, ahead := RefreshSeeds(r, heap, trouble);
      FinalState(r, t, m, ahead, Tree(), heap.alive, heap.alive);
      CoveredAscending(t, Seeds(r.lib, t), ahead);
      CoveredPrefix(t, Seeds(r.lib, t), ahead, |d|);
      if code.Done? {
        SeedsGiveAllOutputs(r, t, |d|);
        ScrubbedWithin(outData, {}, heap.alive);
        ghost var outs, places := OutputsExact(r, t);
        outData := ScrubOutput(outData);
      }
    }

    method RefreshSeeds(r: Refresh, heap: Heap, trouble: Trouble)
      returns (code: Code, outData: seq<(nat, seq<Stream>)>, ghost m: nat, ghost ahead: nat)
      requires Valid() && Lawful(r.lib) && SoundCaches(r.lib, Tree(), r.epoch)
      requires forall x | x in heap.alive :: x.born < r.epoch
      requires forall k, x | 0 <= k < |f| && f[k].cache.Some? && x in f[k].cache.value :: x in heap.alive
      modifies this`f, this`visited, heap
      ensures d == old(d) && ahead <= |d| && visited == CoveredBefore(old(Tree()), Seeds(r.lib, old(Tree())), ahead)
      ensures code.Done? ==> ahead == |d|
      ensures code.Done? <==> Smooth(old(Tree()), Seeds(r.lib, old(Tree())), |d|, trouble)
      ensures AfterRefresh(r, old(Tree()), Seeds(r.lib, old(Tree())), m, Tree())
      ensures AheadOk(r, old(Tree()), ahead, f, heap.alive)
      ensures code.Done? ==> m == |d| && outData == Outputs(r, old(Tree()), Seeds(r.lib, old(Tree())), |d|)
      ensures code.Done? ==> forall k, x | 0 <= k < |outData| && x in outData[k].1 :: x in heap.alive
    {
      hide *;
      ValidIs();
      ghost var t := Tree();
      ghost var seeds := Seeds(r.lib, t);
      var starts := GetFilterRefreshStarts(r.lib, Tree());
      code, outData, m, ahead := Done, [], 0, 0;
      visited := [];
      NothingVisited(t, seeds);
      var coll := new RefreshCollector();
      var stack: seq<seq<Stream>> := [[]];
      InitialProgress(r, t, heap.alive, trouble);
      var itPos := 0;
      while itPos < |starts|
        invariant 0 <= itPos <= |starts| && code.Done?
        invariant d == t.d && coll.Valid() && |stack| >= 1 && stack[0] == []
        invariant OwnOk(stack, coll.nodes, coll.forgotten, outData, heap.alive)
        invariant itPos > 0 ==> starts[itPos - 1] < |d|
        invariant m == if itPos == 0 then 0 else End(t.d, starts[itPos - 1])
        invariant Progress(r, t, seeds, m, Forest(d, f), outData, heap.alive)
        invariant Smooth(t, seeds, m, trouble)
        invariant m <= |t.d| && visited == CoveredBefore(t, seeds, m)
      {
        var b := starts[itPos];
        GapBetween(r.lib, t, starts, itPos);
        SkipGap(r, t, m, b, Forest(d, f), outData, heap.alive, trouble);
        GapHasNoVisit(r.lib, t, m, b);
        StartCollecting(r, t, seeds, b, Forest(d, f), heap, coll, stack, outData);
        code, stack, outData, m, ahead := RefreshFrom(r, heap, coll, t, seeds, b, stack, outData, trouble);
        if !code.Done? {
          ghost var before := heap.alive;
          DiscardOutput(heap, coll, outData, stack);
          AheadShrinks(r, t, ahead, f, before, heap.alive);
          if Smooth(t, seeds, |d|, trouble) {
            SmoothMonotone(t, seeds, End(t.d, b), |d|, trouble);
          }
          ValidIs();
          return;
        }
        m := End(d, b);
        itPos := itPos + 1;
      }
      GapBetween(r.lib, t, starts, itPos);
      SkipGap(r, t, m, |d|, Forest(d, f), outData, heap.alive, trouble);
      GapHasNoVisit(r.lib, t, m, |d|);
      m, ahead := |d|, |d|;
      StartCollecting(r, t, seeds, m, Forest(d, f), heap, coll, stack, outData);
      OwnLets([[]], coll.nodes, coll.forgotten, outData, heap.alive);
      ProgressLets(r, t, seeds, m, Forest(d, f), outData, heap.alive);
      ValidIs();
    }

    // ---- Edits ----

    method Find(id: nat) returns (i: nat)
      ensures i == IndexOf(f, id)
    {
      i := 0;
      while i < |f| && f[i].id != id
        invariant i <= |f| && IndexOf(f, id) == i + IndexOf(f[i..], id)
      {
        i := i + 1;
      }
    }

    /** The scan of one subtree: from its root on, up to the first other node that
        is no deeper. It clears the subtree's caches and no others. */
    method ClearSubtreeCaches(x: nat, includeSelf: bool)
      requires Valid() && x < |f|
      modifies this`f
      ensures |f| == |old(f)|
      ensures forall k: nat | k < |f| ::
                f[k] == if Below(d, x, k) || (k == x && includeSelf) then old(f)[k].(cache := None) else old(f)[k]
    {
      SubtreeIsRange(d, x, x);
      var it := x;
      while it < |d|
        invariant x <= it <= |d| == |f| == |old(f)|
        invariant it == x || it <= End(d, x)
        invariant forall k: nat | k < |f| ::
                    f[k] == if x <= k < it && (k != x || includeSelf) then old(f)[k].(cache := None) else old(f)[k]
      {
        // Do not traverse siblings.
        if d[it] <= d[x] && it != x {
          break;
        }
        if it != x || includeSelf {
          f := f[it := f[it].(cache := None)];
        }
        it := it + 1;
      }
      assert it == End(d, x);
      forall k: nat | k < |f| ensures x <= k < it <==> Within(d, x, k) {
        SubtreeIsRange(d, x, k);
      }
    }

    /** A changed property leaves no cache at the filter or below it, and every
        other filter as it was. */
    method SetFilterProperty(id: nat, outcome: PropertyOutcome) returns (ok: bool, needUpdate: bool)
      requires Valid() && IndexOf(f, id) < |f|
      modifies this`f
      ensures Valid() && d == old(d)
      ensures ok <==> !outcome.Refused?
      ensures needUpdate <==> outcome.Changed?
      ensures !needUpdate ==> f == old(f)
      ensures needUpdate ==> f == WithProperty(d, old(f), old(IndexOf(f, id)), outcome.cfg)
      ensures needUpdate ==> IsChangedAt(old(d), old(f), old(IndexOf(f, id)), outcome.cfg, f)
    {
      ok, needUpdate := !outcome.Refused?, outcome.Changed?;
      if needUpdate {
        var x := Find(id);
        ChangeExact(d, f, x, outcome.cfg);
        f := f[x := f[x].(cfg := outcome.cfg, cache := None)];
        ClearSubtreeCaches(x, false);
      }
    }

    /** Move a filter and all below it: refused exactly when the new parent lies in
        the moved subtree. */
    method ReparentFilter(id: nat, newParent: Option<nat>) returns (moved: bool)
      requires Valid() && IndexOf(f, id) < |f|
      requires newParent.Some? ==> newParent.value != id && IndexOf(f, newParent.value) < |f|
      modifies this
      ensures Valid()
      ensures var m, p := old(IndexOf(f, id)), old(ParentIndex(f, newParent));
              && (moved <==> CanMove(old(d), m, p))
              && d == (if moved then MovedDepths(old(d), m, p) else old(d))
              && f == (if moved then MovedFilters(old(d), ClearedForMove(old(d), old(f), m), m, p) else old(f))
      ensures var m, p := old(IndexOf(f, id)), old(ParentIndex(f, newParent));
              moved ==> IsMovedTo(old(Tree()), m, p, Tree())
    {
      hide *;
      ValidIs();
      var m := Find(id);
      var p: Option<nat> := None;
      ParentIndexIs(f, newParent);
      ValidLets(Tree());
      if newParent.Some? {
        var i := Find(newParent.value);
        p := Some(i);
        CanMoveIs(d, m, p);
        var inside := SubtreeHolds(m, i);
        if inside {
          return false;
        }
      }
      moved := true;
      ghost var t := Tree();
      CanMoveIs(d, m, p);
      MovedTreeIsSound(t, m, p);
      ClearForMove(m);
      ValidIs();
      ValidLets(t);
      TreeIs(Tree());
      MoveSubtree(m, p);
      ValidIs();
      MovedTo(t, m, p);
    }

    lemma ValidIs()
      ensures Valid() <==> ValidForest(Tree()) && DistinctIds(Tree())
      ensures Tree() == Forest(d, f)
    {
    }

    lemma TreeIs(t: Forest)
      requires |t.d| == |t.f| && PreOrder.Valid(t.d)
      ensures ValidForest(t)
    {
    }

    /** The scan of the subtree at `m` meets node `i`. */
    method SubtreeHolds(m: nat, i: nat) returns (r: bool)
      requires Valid() && m < |d| && i < |d|
      ensures r <==> Within(d, m, i)
    {
      SubtreeIsRange(d, m, i);
      var it := m;
      while it < |d|
        invariant m <= it <= End(d, m) && !(m <= i < it)
      {
        if d[it] <= d[m] && it != m {
          break;
        }
        if it == i {
          return true;
        }
        it := it + 1;
      }
      r := false;
    }

    method ClearForMove(m: nat)
      requires Valid() && m < |f|
      modifies this`f
      ensures f == ClearedForMove(d, old(f), m)
    {
      var it := m;
      while it < |d|
        invariant m <= it <= |d| == |f| == |old(f)|
        invariant forall k: nat | k < |f| ::
                    f[k] == if m <= k < it && d[k] != d[m] then old(f)[k].(cache := None) else old(f)[k]
      {
        if d[it] != d[m] {
          f := f[it := f[it].(cache := None)];
        }
        it := it + 1;
      }
      f := f[m := f[m].(cache := None)];
    }

    method MoveSubtree(m: nat, p: Option<nat>)
      requires ValidForest(Tree()) && CanMove(d, m, p)
      modifies this
      ensures d == MovedDepths(old(d), m, p) && f == MovedFilters(old(d), old(f), m, p)
    {
      assert |d| == |f|;
      hide *;
      MovedIs(d, f, m, p);
      var e, q, nd := End(d, m), Target(d, p), NewDepth(d, p);
      var d' := Relocate(d, m, e, q, Shift(d[m..e], d[m], nd), nd);
      var f' := Relocate(f, m, e, q, f[m..e], Filter(0, 0, None));
      d, f := d', f';
    }
  }

  /** Make a dummy node at the new place, replace it with a copy of the subtree,
      erase the original. */
  method Relocate<T>(s: seq<T>, m: nat, e: nat, q: nat, block: seq<T>, dummy: T) returns (r: seq<T>)
    requires m <= e <= |s| && q <= |s| && (q <= m || e <= q) && |block| == e - m
    ensures r == Move(s, m, e, q, block)
  {
    InsertThenErase(s, m, e, q, block, dummy);
    r := s[..q] + [dummy] + s[q..];
    r := r[..q] + block + r[q + 1..];
    var m' := if q <= m then m + (e - m) else m;
    r := r[..m'] + r[m' + (e - m)..];
  }

  /** Before a new seed: free what the last one left, and open the bottom level. */
  method StartCollecting(r: Refresh, ghost t: Forest, ghost seeds: set<nat>, ghost m: nat, ghost t': Forest,
                         heap: Heap, coll: RefreshCollector,
                         ghost stack: seq<seq<Stream>>, ghost outData: seq<(nat, seq<Stream>)>)
    requires ValidForest(t) && Progress(r, t, seeds, m, t', outData, heap.alive)
    requires coll.Valid() && OwnOk(stack, coll.nodes, coll.forgotten, outData, heap.alive)
    modifies heap, coll
    ensures coll.Valid() && coll.nodes == [[]]
    ensures OwnOk([[]], coll.nodes, coll.forgotten, outData, heap.alive)
    ensures Progress(r, t, seeds, m, t', outData, heap.alive)
  {
    hide *;
    ghost var before, nodes := heap.alive, coll.nodes;
    OwnLets(stack, nodes, coll.forgotten, outData, before);
    coll.CollectAll(heap);
    CollectAllIsSafe(stack, nodes, coll.forgotten, outData, before, heap.alive);
    CollectAllKeepsProgress(r, t, seeds, m, t', stack, nodes, coll.forgotten, outData, before, heap.alive);
    TrackNothing(coll);
  }

  method TrackNothing(coll: RefreshCollector)
    requires coll.Valid() && coll.nodes == []
    modifies coll
    ensures coll.Valid() && coll.nodes == [[]] && coll.forgotten == old(coll.forgotten)
  {
    coll.TrackPointers([]);
  }

  /** Clean up after an error: free, once each, the output streams nobody owns,
      then what is still tracked. */
  method DiscardOutput(heap: Heap, coll: RefreshCollector, outData: seq<(nat, seq<Stream>)>, ghost stack: seq<seq<Stream>>)
    requires coll.Valid() && OwnOk(stack, coll.nodes, coll.forgotten, outData, heap.alive)
    modifies heap, coll
    ensures forall x | x in heap.alive :: x in old(heap.alive)
    ensures forall x | x in old(heap.alive) && x.cached :: x in heap.alive
    ensures forall k, x | 0 <= k < |outData| && x in outData[k].1 && !x.cached :: x !in heap.alive
    ensures forall x | x in old(heap.alive) && !Tracked(old(coll.nodes), x) ::
              x in heap.alive <==> x.cached || forall k | 0 <= k < |outData| :: x !in outData[k].1
    ensures forall x | Tracked(old(coll.nodes), x) :: x !in heap.alive
  {
    var uniqSet: set<Stream> := {};
    for it := 0 to |outData|
      invariant forall x :: x in uniqSet <==> exists k :: 0 <= k < it && x in outData[k].1
    {
      uniqSet := uniqSet + set x | x in outData[it].1;
    }
    ghost var nodes := coll.nodes;
    assert forall x | x in uniqSet :: x in heap.alive && !Tracked(nodes, x);
    ghost var all := uniqSet;
    while uniqSet != {}
      invariant uniqSet <= all && coll.nodes == nodes && coll.Valid()
      invariant forall x | x in uniqSet :: x in heap.alive
      invariant forall x :: x in heap.alive <==> x in old(heap.alive) && (x.cached || x !in all - uniqSet)
    {
      var data :| data in uniqSet;
      if !data.cached {
        heap.Delete(data);
      }
      uniqSet := uniqSet - {data};
    }
    coll.CollectAll(heap);
    assert forall k, x | 0 <= k < |outData| && x in outData[k].1 :: x in all;
  }

  method PopPointerStack(inDataStack: seq<seq<Stream>>, depth: nat) returns (stack: seq<seq<Stream>>)
    ensures stack == if |inDataStack| <= depth then inDataStack else inDataStack[..depth]
  {
    stack := inDataStack;
    while |stack| > depth
      invariant |stack| <= |inDataStack| && stack == inDataStack[..|stack|]
      invariant if |inDataStack| > depth then |stack| >= depth else stack == inDataStack
    {
      stack := stack[..|stack| - 1];
    }
  }

  /** An inner filter's output is tracked and put on the stack for its children;
      a leaf's goes into the output list and is let go. */
  method RecordOutput(coll: RefreshCollector, isLeaf: bool, id: nat, inDataStack: seq<seq<Stream>>,
                      outData: seq<(nat, seq<Stream>)>, curData: seq<Stream>, ghost before: set<Stream>, ghost alive: set<Stream>)
    returns (stack: seq<seq<Stream>>, out: seq<(nat, seq<Stream>)>)
    requires coll.Valid() && NoDup(curData) && |inDataStack| == |coll.nodes| > 0
    requires OwnOk(inDataStack, coll.nodes, coll.forgotten, outData, before)
    requires HandsOn(curData, inDataStack[|inDataStack| - 1], before, alive)
    modifies coll
    ensures coll.Valid() && |coll.nodes| == |stack|
    ensures OwnOk(stack, coll.nodes, coll.forgotten, out, alive)
    ensures stack == if isLeaf then inDataStack else inDataStack + [curData]
    ensures out == if isLeaf && curData != [] then outData + [(id, curData)] else outData
  {
    stack, out := inDataStack, outData;
    ghost var nodes, forgotten := coll.nodes, coll.forgotten;
    if !isLeaf {
      coll.TrackPointers(curData);
      stack := stack + [curData];
      TrackIsSafe(inDataStack, nodes, forgotten, outData, before, alive, curData, coll.nodes);
    } else if curData != [] {
      out := out + [(id, curData)];
      coll.ForgetPointers(curData);
      ForgetIsSafe(inDataStack, nodes, forgotten, outData, before, alive, id, curData, coll.nodes, coll.forgotten);
    } else {
      NothingIsSafe(inDataStack, nodes, forgotten, outData, before, alive);
    }
  }

  /** The streams a filter hands out as its own, and what it keeps of them. */
  method MakeOwn(r: Refresh, heap: Heap, filter: Filter, input: seq<Stream>)
    returns (own: seq<Stream>, kept: Filter)
    requires forall x | x in heap.alive && x.born == r.epoch :: x.origin != filter.id
    requires filter.cache.Some? ==> forall x | x in filter.cache.value :: x.cached && x in heap.alive
    modifies heap
    ensures own == Own(r, filter, input) && kept == KeptFilter(r, filter, input)
    ensures old(heap.alive) <= heap.alive
    ensures forall x | x in own :: x in heap.alive && (x.cached || x !in old(heap.alive))
    ensures forall x | x in heap.alive :: x in old(heap.alive) || (x.born == r.epoch && x.origin == filter.id)
  {
    kept := filter;
    var fixed := Mint(r.epoch, filter.id, 0, r.lib.fixed(filter.cfg), false);
    heap.New(fixed);
    if filter.cache.Some? {
      own := fixed + filter.cache.value;
    } else {
      var slot := |r.lib.fixed(filter.cfg)|;
      var computed := Mint(r.epoch, filter.id, slot, r.lib.gen(filter.cfg, View(input)), r.keep(filter.id));
      forall x | x in computed ensures x !in fixed {
        assert x.slot >= slot;
      }
      heap.New(computed);
      own := fixed + computed;
      if r.keep(filter.id) && computed != [] {
        kept := filter.(cache := Some(computed));
      }
    }
  }
}
