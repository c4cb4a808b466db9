/** The invariants of the refresh traversal, and why each step keeps them. */
module Traversal {
  import opened Counting
  import opened Filters
  import opened PreOrder
  import opened Propagation
  import opened Evaluation
  import opened Collector

  /** What may go wrong, by filter id: its refresh reports an error, or the user
      asks to stop while it runs. */
  datatype Trouble = Trouble(fault: nat -> bool, abort: nat -> bool)

  // ---- The stack of inputs ----

  /** Before node `m` is visited in the subtree of `b`: above the empty bottom
      entry, level `j` holds the output of `anc[j]`, the last node visited at
      depth `d[b] + j - 1`, for every node still open on the path. */
  ghost predicate StackOk(r: Refresh, t: Forest, seeds: set<nat>, b: nat, m: nat, stack: seq<seq<Stream>>, anc: seq<nat>)
    requires ValidForest(t)
  {
    && b < m <= |t.d|
    && |stack| == |anc| >= 1 && stack[0] == []
    && t.d[b] <= t.d[m - 1]
    && |stack| == t.d[m - 1] - t.d[b] + (if IsLeaf(t.d, m - 1) then 1 else 2)
    && forall j | 1 <= j < |stack| ::
         && b <= anc[j] < m && t.d[anc[j]] == t.d[b] + j - 1
         && Within(t.d, anc[j], m - 1)
         && stack[j] == RunOut(r, t, seeds, anc[j])
  }

  /** Popping to the level of the next node leaves its input on top. */
  lemma PopGivesInput(r: Refresh, t: Forest, seeds: set<nat>, b: nat, m: nat, stack: seq<seq<Stream>>, anc: seq<nat>)
    requires ValidForest(t) && b < |t.d| && m < |t.d|
    requires StackOk(r, t, seeds, b, m, stack, anc) && Below(t.d, b, m) && m !in seeds
    ensures t.d[b] < t.d[m] && t.d[m] - t.d[b] + 1 <= |stack|
    ensures stack[t.d[m] - t.d[b]] == RunIn(r, t, seeds, m)
  {
    assert t.d[b] < t.d[m];
    var j := t.d[m] - t.d[b];
    var a := anc[j];
    assert t.d[a] < t.d[m];
    forall k | a < k <= m ensures t.d[a] < t.d[k] {
      if k < m { assert Within(t.d, a, m - 1); }
    }
    ParentUnique(t.d, a, m);
  }

  /** Pushing an inner node's output, or dropping a leaf's, is the next state. */
  lemma PushKeepsStack(r: Refresh, t: Forest, seeds: set<nat>, b: nat, m: nat, stack: seq<seq<Stream>>, anc: seq<nat>)
    requires ValidForest(t) && b < m < |t.d| && Below(t.d, b, m)
    requires StackOk(r, t, seeds, b, m, stack, anc)
    ensures t.d[b] < t.d[m] && t.d[m] - t.d[b] + 1 <= |stack|
    ensures var l := t.d[m] - t.d[b] + 1;
            if IsLeaf(t.d, m) then StackOk(r, t, seeds, b, m + 1, stack[..l], anc[..l])
            else StackOk(r, t, seeds, b, m + 1, stack[..l] + [RunOut(r, t, seeds, m)], anc[..l] + [m])
  {
    hide *;
    StackLevels(r, t, seeds, b, m, stack, anc);
    var l := t.d[m] - t.d[b] + 1;
    var stack' := stack[..l] + if IsLeaf(t.d, m) then [] else [RunOut(r, t, seeds, m)];
    var anc' := anc[..l] + if IsLeaf(t.d, m) then [] else [m];
    forall j | 1 <= j < l ensures Within(t.d, anc[j], m) {
      AncestorStays(t.d, anc[j], m);
    }
    WithinSelf(t.d, m);
    assert stack[..l] + [] == stack[..l] && anc[..l] + [] == anc[..l];
    StackIs(r, t, seeds, b, m + 1, stack', anc');
  }

  lemma WithinSelf(d: seq<nat>, m: nat)
    requires m < |d|
    ensures Within(d, m, m)
  {
  }

  lemma StackLevels(r: Refresh, t: Forest, seeds: set<nat>, b: nat, m: nat, stack: seq<seq<Stream>>, anc: seq<nat>)
    requires ValidForest(t) && b < m < |t.d| && Below(t.d, b, m)
    requires StackOk(r, t, seeds, b, m, stack, anc)
    ensures |t.d| == |t.f| && t.d[b] < t.d[m] && t.d[m] - t.d[b] + 1 <= |stack| == |anc| && stack[0] == []
    ensures forall j | 1 <= j < |stack| ::
         && b <= anc[j] < m && t.d[anc[j]] == t.d[b] + j - 1
         && Within(t.d, anc[j], m - 1)
         && stack[j] == RunOut(r, t, seeds, anc[j])
  {
    hide RunOut, Within;
  }

  lemma AncestorStays(d: seq<nat>, a: nat, m: nat)
    requires 0 < m < |d| && Within(d, a, m - 1) && d[a] < d[m]
    ensures Within(d, a, m)
  {
  }

  lemma StackIs(r: Refresh, t: Forest, seeds: set<nat>, b: nat, m: nat, stack: seq<seq<Stream>>, anc: seq<nat>)
    requires ValidForest(t)
    requires b < m <= |t.d|
    requires |stack| == |anc| >= 1 && stack[0] == []
    requires t.d[b] <= t.d[m - 1]
    requires |stack| == t.d[m - 1] - t.d[b] + (if IsLeaf(t.d, m - 1) then 1 else 2)
    requires forall j | 1 <= j < |stack| ::
         && b <= anc[j] < m && t.d[anc[j]] == t.d[b] + j - 1
         && Within(t.d, anc[j], m - 1)
         && stack[j] == RunOut(r, t, seeds, anc[j])
    ensures StackOk(r, t, seeds, b, m, stack, anc)
  {
    hide RunOut, Within, IsLeaf;
  }

  /** The traversal has come to node `i` of the subtree of `b`. */
  ghost predicate Ready(r: Refresh, t: Forest, seeds: set<nat>, b: nat, i: nat, stack: seq<seq<Stream>>, anc: seq<nat>,
                        nodes: seq<seq<Stream>>)
    requires ValidForest(t) && i < |t.d|
  {
    && |stack| >= 1 && stack[0] == []
    && if i == b then b in seeds && nodes == [[]]
       else Below(t.d, b, i) && i !in seeds && StackOk(r, t, seeds, b, i, stack, anc) && |nodes| == |stack|
  }

  lemma VisitKeepsStack(r: Refresh, t: Forest, seeds: set<nat>, b: nat, i: nat, stack: seq<seq<Stream>>, anc: seq<nat>,
                        popped: seq<seq<Stream>>, stack': seq<seq<Stream>>, anc': seq<nat>)
    requires ValidForest(t) && b <= i < |t.d| && |stack| >= 1 && stack[0] == []
    requires i != b ==> Below(t.d, b, i) && StackOk(r, t, seeds, b, i, stack, anc)
    requires t.d[b] <= t.d[i] && t.d[i] - t.d[b] + 1 <= |stack|
    requires popped == stack[..t.d[i] - t.d[b] + 1]
    requires stack' == if IsLeaf(t.d, i) then popped else popped + [RunOut(r, t, seeds, i)]
    requires anc' == (if i == b then [0] else anc[..|popped|]) + if IsLeaf(t.d, i) then [] else [i]
    ensures StackOk(r, t, seeds, b, i + 1, stack', anc')
  {
    hide *;
    assert popped + [] == popped;
    if i != b {
      PushKeepsStack(r, t, seeds, b, i, stack, anc);
      LevelsOf(r, t, seeds, b, i, stack, anc);
      assert anc[..|popped|] + [] == anc[..|popped|];
    } else {
      assert popped == [[]] && [0] + [] == [0];
      SeedStack(r, t, seeds, b, stack', anc');
    }
  }

  lemma SeedStack(r: Refresh, t: Forest, seeds: set<nat>, b: nat, stack: seq<seq<Stream>>, anc: seq<nat>)
    requires ValidForest(t) && b < |t.d|
    requires stack == [[]] + if IsLeaf(t.d, b) then [] else [RunOut(r, t, seeds, b)]
    requires anc == [0] + if IsLeaf(t.d, b) then [] else [b]
    ensures StackOk(r, t, seeds, b, b + 1, stack, anc)
  {
    hide RunOut, IsLeaf;
  }

  lemma LevelsOf(r: Refresh, t: Forest, seeds: set<nat>, b: nat, m: nat, stack: seq<seq<Stream>>, anc: seq<nat>)
    requires ValidForest(t) && StackOk(r, t, seeds, b, m, stack, anc)
    ensures b < m && |stack| == |anc|
  {
  }

  // ---- Ownership ----

  /** `x` is looked after at one of the levels up to `j`. */
  ghost predicate Kept(nodes: seq<seq<Stream>>, forgotten: set<Stream>, j: int, x: Stream) {
    x.cached || x in forgotten || exists i :: 0 <= i <= j && i < |nodes| && x in nodes[i]
  }

  /** Tracked streams exist; every stream on a level of the stack exists and is
      owned by its filter, by the output, or by the collector at that level or
      below; output streams exist and are not the collector's to free. */
  ghost predicate OwnOk(stack: seq<seq<Stream>>, nodes: seq<seq<Stream>>, forgotten: set<Stream>,
                        out: seq<(nat, seq<Stream>)>, alive: set<Stream>)
  {
    && Sane(nodes, forgotten)
    && (forall x | Tracked(nodes, x) :: x in alive)
    && (forall j, x | 0 <= j < |stack| && x in stack[j] :: x in alive && Kept(nodes, forgotten, j, x))
    && (forall k, x | 0 <= k < |out| && x in out[k].1 :: x in alive && !Tracked(nodes, x))
  }

  /** Collecting above a level leaves the levels up to it, and the output, alone. */
  lemma CollectIsSafe(stack: seq<seq<Stream>>, nodes: seq<seq<Stream>>, forgotten: set<Stream>,
                      out: seq<(nat, seq<Stream>)>, alive: set<Stream>,
                      level: nat, nodes': seq<seq<Stream>>, alive': set<Stream>)
    requires OwnOk(stack, nodes, forgotten, out, alive) && level <= |stack| == |nodes|
    requires nodes' == nodes[..level]
    requires forall x :: x in alive' <==> x in alive && !TrackedFrom(nodes, level + 1, x)
    ensures OwnOk(stack[..level], nodes', forgotten, out, alive')
  {
    forall x | Tracked(nodes', x) ensures Tracked(nodes, x) && x in alive' {
      var i :| 0 <= i < level && x in nodes'[i];
      assert x in nodes[i];
    }
    forall j, x | 0 <= j < level && x in stack[j] ensures x in alive' && Kept(nodes', forgotten, j, x) {
      assert Kept(nodes, forgotten, j, x);
      if i :| 0 <= i <= j && i < |nodes| && x in nodes[i] {
        assert x in nodes'[i];
      }
    }
    forall k, x | 0 <= k < |out| && x in out[k].1 ensures x in alive' && !Tracked(nodes', x) {
      assert !Tracked(nodes, x);
    }
  }

  /** What a filter may hand on: streams of its input, and streams that are its
      own, either cached or just made. */
  ghost predicate HandsOn(cur: seq<Stream>, input: seq<Stream>, before: set<Stream>, after: set<Stream>) {
    && before <= after
    && forall x | x in cur :: x in input || (x in after && (x.cached || x !in before))
  }

  lemma TrackIsSafe(stack: seq<seq<Stream>>, nodes: seq<seq<Stream>>, forgotten: set<Stream>,
                    out: seq<(nat, seq<Stream>)>, before: set<Stream>, alive: set<Stream>,
                    cur: seq<Stream>, nodes': seq<seq<Stream>>)
    requires OwnOk(stack, nodes, forgotten, out, before) && |stack| == |nodes| > 0
    requires HandsOn(cur, stack[|stack| - 1], before, alive)
    requires Sane(nodes', forgotten) && |nodes'| == |nodes| + 1 && nodes'[..|nodes|] == nodes
    requires forall x :: x in nodes'[|nodes|] <==>
               x in cur && !x.cached && x !in forgotten && !Tracked(nodes, x)
    ensures OwnOk(stack + [cur], nodes', forgotten, out, alive)
  {
    var n := |nodes|;
    var top := stack[n - 1];
    assert forall i | 0 <= i < n :: nodes'[i] == nodes'[..n][i] == nodes[i];
    forall x ensures Tracked(nodes', x) <==> Tracked(nodes, x) || x in nodes'[n] {
      if i :| 0 <= i < n && x in nodes[i] { assert x in nodes'[i]; }
      if i :| 0 <= i <= n && x in nodes'[i] { assert i < n ==> x in nodes[i]; }
    }
    forall x | x in nodes'[n] ensures x in alive && x !in before {
      assert x in top ==> Kept(nodes, forgotten, n - 1, x);
    }
    var st := stack + [cur];
    forall j, x | 0 <= j < |st| && x in st[j] ensures x in alive && Kept(nodes', forgotten, j, x) {
      if j < n {
        assert x in stack[j];
        KeptGrows(nodes, nodes', forgotten, j, j, x);
      } else if x in top {
        KeptGrows(nodes, nodes', forgotten, n - 1, n, x);
      } else if !x.cached && x !in forgotten {
        assert Tracked(nodes', x);
      }
    }
  }

  lemma KeptGrows(nodes: seq<seq<Stream>>, nodes': seq<seq<Stream>>, forgotten: set<Stream>, j: int, j': int, x: Stream)
    requires Kept(nodes, forgotten, j, x) && j <= j'
    requires |nodes| <= |nodes'| && forall i | 0 <= i < |nodes| :: nodes'[i] == nodes[i]
    ensures Kept(nodes', forgotten, j', x)
  {
    if i :| 0 <= i <= j && i < |nodes| && x in nodes[i] {
      assert x in nodes'[i];
    }
  }

  lemma ForgetIsSafe(stack: seq<seq<Stream>>, nodes: seq<seq<Stream>>, forgotten: set<Stream>,
                     out: seq<(nat, seq<Stream>)>, before: set<Stream>, alive: set<Stream>,
                     id: nat, cur: seq<Stream>, nodes': seq<seq<Stream>>, forgotten': set<Stream>)
    requires OwnOk(stack, nodes, forgotten, out, before) && |stack| == |nodes| > 0
    requires HandsOn(cur, stack[|stack| - 1], before, alive)
    requires Sane(nodes', forgotten') && Without(nodes, cur, nodes')
    requires forall x :: x in forgotten' <==> x in forgotten || (x in cur && Tracked(nodes, x))
    ensures OwnOk(stack, nodes', forgotten', out + [(id, cur)], alive)
  {
    forall x | Tracked(nodes', x) ensures Tracked(nodes, x) && x !in cur {
      var i :| 0 <= i < |nodes'| && x in nodes'[i];
      assert x in nodes[i];
    }
    forall j, x | 0 <= j < |stack| && x in stack[j] ensures x in alive && Kept(nodes', forgotten', j, x) {
      assert Kept(nodes, forgotten, j, x);
      if i :| 0 <= i <= j && i < |nodes| && x in nodes[i] {
        assert Tracked(nodes, x);
        assert x !in cur ==> x in nodes'[i];
      }
    }
    var o := out + [(id, cur)];
    forall k, x | 0 <= k < |o| && x in o[k].1 ensures x in alive && !Tracked(nodes', x) {
      if k < |out| { assert x in out[k].1; }
    }
  }

  /** Nothing more is shown or tracked when the filter hands on nothing. */
  lemma NothingIsSafe(stack: seq<seq<Stream>>, nodes: seq<seq<Stream>>, forgotten: set<Stream>,
                      out: seq<(nat, seq<Stream>)>, before: set<Stream>, alive: set<Stream>)
    requires OwnOk(stack, nodes, forgotten, out, before) && before <= alive
    ensures OwnOk(stack, nodes, forgotten, out, alive)
  {
  }

  // ---- Freshness and the filters still to come ----

  /** Filters from `m` on are untouched and have made nothing in this refresh;
      kept streams exist. */
  ghost predicate AheadOk(r: Refresh, t: Forest, m: nat, f: seq<Filter>, alive: set<Stream>) {
    && |f| == |t.f|
    && (forall k | m <= k < |f| :: f[k] == t.f[k])
    && (forall k, x | m <= k < |f| && x in alive && x.born == r.epoch :: x.origin != t.f[k].id)
    && (forall x | x in alive :: x.born <= r.epoch)
    && (forall k, x | 0 <= k < |f| && f[k].cache.Some? && x in f[k].cache.value :: x.cached && x in alive)
  }

  lemma AheadShrinks(r: Refresh, t: Forest, m: nat, f: seq<Filter>, alive: set<Stream>, alive': set<Stream>)
    requires AheadOk(r, t, m, f, alive)
    requires forall x | x in alive' :: x in alive
    requires forall x | x in alive && x.cached :: x in alive'
    ensures AheadOk(r, t, m, f, alive')
  {
  }

  /** The collector never frees what a filter keeps. */
  lemma CollectKeepsCaches(r: Refresh, t: Forest, m: nat, f: seq<Filter>, nodes: seq<seq<Stream>>, forgotten: set<Stream>,
                           alive: set<Stream>, lo: int, alive': set<Stream>)
    requires AheadOk(r, t, m, f, alive) && Sane(nodes, forgotten)
    requires forall x :: x in alive' <==> x in alive && !TrackedFrom(nodes, lo, x)
    ensures AheadOk(r, t, m, f, alive')
  {
  }

  /** Refreshing filter `m` leaves the filters after it as they were. */
  lemma RefreshMovesOn(r: Refresh, t: Forest, m: nat, f: seq<Filter>, f': seq<Filter>, input: seq<Stream>,
                       before: set<Stream>, alive: set<Stream>)
    requires AheadOk(r, t, m, f, before) && DistinctIds(t) && m < |f| && before <= alive
    requires forall x | x in alive :: x in before || (x.born == r.epoch && x.origin == t.f[m].id)
    requires f' == f || (f' == f[m := KeptFilter(r, f[m], input)] && forall x | x in Own(r, f[m], input) :: x in alive)
    ensures AheadOk(r, t, m + 1, f', alive)
  {
    forall k, x | 0 <= k < |f'| && f'[k].cache.Some? && x in f'[k].cache.value ensures x.cached && x in alive {
      if f'[k] != f[k] {
        assert x in Computed(r, f[m], input);
        assert x in Own(r, f[m], input);
      }
    }
  }

  lemma OwnLets(stack: seq<seq<Stream>>, nodes: seq<seq<Stream>>, forgotten: set<Stream>,
                out: seq<(nat, seq<Stream>)>, alive: set<Stream>)
    requires OwnOk(stack, nodes, forgotten, out, alive)
    ensures Sane(nodes, forgotten) && forall x | Tracked(nodes, x) :: x in alive
    ensures forall k, x | 0 <= k < |out| && x in out[k].1 :: x in alive && !Tracked(nodes, x)
  {
  }

  /** What the invariants say about the filter that is next. */
  lemma AheadLets(r: Refresh, t: Forest, m: nat, f: seq<Filter>, alive: set<Stream>)
    requires ValidForest(t) && m < |t.d| && AheadOk(r, t, m, f, alive)
    ensures |f| == |t.f| == |t.d| && f[m] == t.f[m]
    ensures forall x | x in alive && x.born == r.epoch :: x.origin != f[m].id
    ensures f[m].cache.Some? ==> forall x | x in f[m].cache.value :: x.cached && x in alive
  {
  }

  lemma ReadyLets(r: Refresh, t: Forest, seeds: set<nat>, b: nat, i: nat, stack: seq<seq<Stream>>, anc: seq<nat>,
                  nodes: seq<seq<Stream>>)
    requires ValidForest(t) && b <= i < |t.d| && Ready(r, t, seeds, b, i, stack, anc, nodes)
    ensures |stack| >= 1 && stack[0] == []
    ensures i != b ==> |anc| == |stack| && Below(t.d, b, i) && StackOk(r, t, seeds, b, i, stack, anc)
    ensures t.d[b] <= t.d[i] && t.d[i] - t.d[b] + 1 <= |stack|
    ensures var live := if i == b then [[]] else stack;
            var l := t.d[i] - t.d[b] + 1;
            |live| == |nodes| && stack[..l] == live[..l] && stack[l - 1] == RunIn(r, t, seeds, i)
  {
    if i != b {
      PopGivesInput(r, t, seeds, b, i, stack, anc);
    }
  }

  lemma VisitOutput(r: Refresh, t: Forest, seeds: set<nat>, i: nat, out: seq<Stream>)
    requires ValidForest(t) && i < |t.d| && DistinctIds(t) && SoundCaches(r.lib, t, r.epoch)
    requires out == FilterOut(r, t.f[i], RunIn(r, t, seeds, i))
    ensures out == RunOut(r, t, seeds, i) && NoDup(out)
    ensures OutputOf(r, t, seeds, i) == if IsLeaf(t.d, i) && out != [] then [(t.f[i].id, out)] else []
  {
    RunOutIdentity(r, t, seeds, i);
  }

  // ---- Seeds, subtrees and the gaps between them ----

  /** Everything done before node `m` is right: outputs shown, caches kept. */
  ghost predicate Progress(r: Refresh, t: Forest, seeds: set<nat>, m: nat, t': Forest,
                           out: seq<(nat, seq<Stream>)>, alive: set<Stream>)
    requires ValidForest(t)
  {
    && m <= |t.d|
    && out == Outputs(r, t, seeds, m)
    && AfterRefresh(r, t, seeds, m, t')
    && AheadOk(r, t, m, t'.f, alive)
  }

  lemma ProgressLets(r: Refresh, t: Forest, seeds: set<nat>, m: nat, t': Forest,
                     out: seq<(nat, seq<Stream>)>, alive: set<Stream>)
    requires ValidForest(t) && Progress(r, t, seeds, m, t', out, alive)
    ensures m <= |t.d| && out == Outputs(r, t, seeds, m)
    ensures AfterRefresh(r, t, seeds, m, t') && AheadOk(r, t, m, t'.f, alive) && |t'.f| == |t.d| && t'.d == t.d
  {
  }

  lemma ReadyAtSeed(lib: Library, r: Refresh, t: Forest, b: nat, stack: seq<seq<Stream>>, nodes: seq<seq<Stream>>)
    requires ValidForest(t) && b < |t.d| && IsSeed(lib, t, b)
    requires |stack| >= 1 && stack[0] == [] && nodes == [[]]
    ensures Ready(r, t, Seeds(lib, t), b, b, stack, [], nodes)
  {
  }

  lemma ReadyNext(lib: Library, r: Refresh, t: Forest, b: nat, i: nat, stack: seq<seq<Stream>>, anc: seq<nat>,
                  nodes: seq<seq<Stream>>)
    requires ValidForest(t) && b < |t.d| && IsSeed(lib, t, b) && b <= i < End(t.d, b)
    requires StackOk(r, t, Seeds(lib, t), b, i + 1, stack, anc) && |nodes| == |stack|
    ensures |stack| >= 1 && stack[0] == []
    ensures i + 1 < End(t.d, b) ==> Ready(r, t, Seeds(lib, t), b, i + 1, stack, anc, nodes)
  {
    if i + 1 < End(t.d, b) {
      InsideSeed(lib, t, b, i + 1);
    }
  }

  /** No filter that is refreshed before node `m` meets trouble. */
  ghost predicate Smooth(t: Forest, seeds: set<nat>, m: nat, trouble: Trouble)
    requires ValidForest(t)
  {
    forall i: nat | i < m && i < |t.d| && Covered(t, seeds, i) ::
      !trouble.fault(t.f[i].id) && !trouble.abort(t.f[i].id)
  }

  lemma VisitMakesProgress(r: Refresh, t: Forest, seeds: set<nat>, m: nat, f: seq<Filter>, f': seq<Filter>,
                           out: seq<(nat, seq<Stream>)>, alive: set<Stream>, alive': set<Stream>)
    requires ValidForest(t) && m < |t.d| && Covered(t, seeds, m)
    requires Progress(r, t, seeds, m, Forest(t.d, f), out, alive)
    requires |f| == |t.d| && f' == f[m := KeptFilter(r, t.f[m], RunIn(r, t, seeds, m))]
    requires AheadOk(r, t, m + 1, f', alive')
    ensures Progress(r, t, seeds, m + 1, Forest(t.d, f'), out + OutputOf(r, t, seeds, m), alive')
  {
  }

  lemma SmoothStep(t: Forest, seeds: set<nat>, m: nat, trouble: Trouble)
    requires ValidForest(t) && m < |t.d| && Covered(t, seeds, m)
    ensures Smooth(t, seeds, m + 1, trouble) <==>
            Smooth(t, seeds, m, trouble) && !trouble.fault(t.f[m].id) && !trouble.abort(t.f[m].id)
  {
  }

  /** A later failure does not undo an earlier one. */
  lemma SmoothMonotone(t: Forest, seeds: set<nat>, m: nat, n: nat, trouble: Trouble)
    requires ValidForest(t) && m <= n && Smooth(t, seeds, n, trouble)
    ensures Smooth(t, seeds, m, trouble)
  {
  }

  // ---- Which filters are visited ----

  /** The filters before `n` that lie at or below a start, in scan order. */
  ghost function CoveredBefore(t: Forest, starts: set<nat>, n: nat): seq<nat>
    requires n <= |t.d|
  {
    if n == 0 then [] else CoveredBefore(t, starts, n - 1) + if Covered(t, starts, n - 1) then [n - 1] else []
  }

  /** They are listed once each, in ascending order. */
  lemma {:induction false} CoveredAscending(t: Forest, starts: set<nat>, n: nat)
    requires n <= |t.d|
    ensures forall i: nat :: i in CoveredBefore(t, starts, n) <==> i < n && Covered(t, starts, i)
    ensures forall i, j | 0 <= i < j < |CoveredBefore(t, starts, n)| ::
              CoveredBefore(t, starts, n)[i] < CoveredBefore(t, starts, n)[j]
  {
    if n > 0 {
      CoveredAscending(t, starts, n - 1);
      hide Covered;
      var before := CoveredBefore(t, starts, n - 1);
      assert forall i | 0 <= i < |before| :: before[i] in before;
    }
  }

  lemma {:induction false} CoveredPrefix(t: Forest, starts: set<nat>, m: nat, n: nat)
    requires m <= n <= |t.d|
    ensures CoveredBefore(t, starts, m) <= CoveredBefore(t, starts, n)
    decreases n - m
  {
    if m < n { CoveredPrefix(t, starts, m, n - 1); }
  }

  lemma NothingVisited(t: Forest, starts: set<nat>)
    ensures CoveredBefore(t, starts, 0) == []
  {
  }

  lemma CoveredNext(t: Forest, starts: set<nat>, i: nat)
    requires i < |t.d| && Covered(t, starts, i)
    ensures CoveredBefore(t, starts, i + 1) == CoveredBefore(t, starts, i) + [i]
  {
  }

  /** Nothing is visited between the subtrees of two seeds. */
  lemma {:induction false} GapHasNoVisit(lib: Library, t: Forest, done: nat, next: nat)
    requires ValidForest(t) && Gap(lib, t, done, next)
    ensures CoveredBefore(t, Seeds(lib, t), next) == CoveredBefore(t, Seeds(lib, t), done)
    decreases next - done
  {
    if done < next {
      GapHasNoSeed(lib, t, done, next, next - 1);
      GapHasNoVisit(lib, t, done, next - 1);
    }
  }

  /** A scan index lies in the subtree of `b` or past it. */
  lemma ScanIndex(d: seq<nat>, b: nat, i: nat)
    requires b <= i < |d|
    ensures b < End(d, b) <= |d|
    ensures i == b || Below(d, b, i) <==> i < End(d, b)
  {
    SubtreeIsRange(d, b, i);
  }

  /** Inside the subtree of a seed there is no other seed. */
  lemma InsideSeed(lib: Library, t: Forest, b: nat, i: nat)
    requires ValidForest(t) && b < |t.d| && IsSeed(lib, t, b) && b <= i < End(t.d, b)
    ensures Covered(t, Seeds(lib, t), i)
    ensures i != b ==> i !in Seeds(lib, t) && Below(t.d, b, i)
  {
    SubtreeIsRange(t.d, b, i);
  }

  /** No seed starts before `next` and reaches past `done`. */
  ghost predicate Gap(lib: Library, t: Forest, done: nat, next: nat)
    requires ValidForest(t)
  {
    && done <= next <= |t.d|
    && forall s: nat | s < |t.d| && IsSeed(lib, t, s) :: s >= next || End(t.d, s) <= done
  }

  lemma GapHasNoSeed(lib: Library, t: Forest, done: nat, next: nat, k: nat)
    requires ValidForest(t) && Gap(lib, t, done, next) && done <= k < next
    ensures !Covered(t, Seeds(lib, t), k) && !IsLeaf(t.d, k)
  {
    forall s: nat | s in Seeds(lib, t) ensures !Within(t.d, s, k) {
      SubtreeIsRange(t.d, s, k);
    }
    if IsLeaf(t.d, k) {
      var s := LeafHasOneSeed(lib, t, k);
    }
  }

  lemma {:induction false} GapHasNoOutput(r: Refresh, t: Forest, done: nat, next: nat)
    requires ValidForest(t) && Gap(r.lib, t, done, next)
    ensures Outputs(r, t, Seeds(r.lib, t), next) == Outputs(r, t, Seeds(r.lib, t), done)
    decreases next - done
  {
    if done < next {
      GapHasNoSeed(r.lib, t, done, next, next - 1);
      assert Gap(r.lib, t, done, next - 1);
      GapHasNoOutput(r, t, done, next - 1);
    }
  }

  lemma SkipGap(r: Refresh, t: Forest, done: nat, next: nat, t': Forest, out: seq<(nat, seq<Stream>)>,
                alive: set<Stream>, trouble: Trouble)
    requires ValidForest(t) && Gap(r.lib, t, done, next)
    requires Progress(r, t, Seeds(r.lib, t), done, t', out, alive)
    ensures Progress(r, t, Seeds(r.lib, t), next, t', out, alive)
    ensures Smooth(t, Seeds(r.lib, t), done, trouble) ==> Smooth(t, Seeds(r.lib, t), next, trouble)
  {
    GapHasNoOutput(r, t, done, next);
    forall k: nat | done <= k < next ensures !Covered(t, Seeds(r.lib, t), k) {
      GapHasNoSeed(r.lib, t, done, next, k);
    }
    SkipUncovered(r, t, Seeds(r.lib, t), done, next, t', out, alive, trouble);
  }

  lemma SkipUncovered(r: Refresh, t: Forest, seeds: set<nat>, done: nat, next: nat, t': Forest,
                      out: seq<(nat, seq<Stream>)>, alive: set<Stream>, trouble: Trouble)
    requires ValidForest(t) && done <= next <= |t.d| && Progress(r, t, seeds, done, t', out, alive)
    requires Outputs(r, t, seeds, next) == Outputs(r, t, seeds, done)
    requires forall k: nat | done <= k < next :: !Covered(t, seeds, k)
    ensures Progress(r, t, seeds, next, t', out, alive)
    ensures Smooth(t, seeds, done, trouble) ==> Smooth(t, seeds, next, trouble)
  {
    hide Covered, KeptFilter, RunIn, Outputs;
  }

  /** A seed's subtree ends before the next seed. */
  lemma SeedEndsBefore(lib: Library, t: Forest, s: nat, next: nat)
    requires ValidForest(t) && s < next < |t.d| && IsSeed(lib, t, s) && IsSeed(lib, t, next)
    ensures End(t.d, s) <= next && next < End(t.d, next)
  {
    SubtreeIsRange(t.d, s, next);
    SeedsAreUnrelated(lib, t, s, next);
  }

  /** Between two seeds that follow each other, before the first and after the
      last, there is a gap. */
  lemma GapBetween(lib: Library, t: Forest, seeds: seq<nat>, q: nat)
    requires ValidForest(t) && q <= |seeds|
    requires forall i: nat :: i in seeds <==> i < |t.d| && IsSeed(lib, t, i)
    requires forall i, j | 0 <= i < j < |seeds| :: seeds[i] < seeds[j]
    ensures forall k | 0 <= k < |seeds| :: seeds[k] < |t.d| && IsSeed(lib, t, seeds[k])
    ensures Gap(lib, t, if q == 0 then 0 else End(t.d, seeds[q - 1]), if q == |seeds| then |t.d| else seeds[q])
  {
    hide *;
    assert forall k | 0 <= k < |seeds| :: seeds[k] in seeds;
    ValidLets(t);
    var done := if q == 0 then 0 else End(t.d, seeds[q - 1]);
    var next := if q == |seeds| then |t.d| else seeds[q];
    forall s: nat | s < |t.d| && IsSeed(lib, t, s) && s < next ensures End(t.d, s) <= done {
      var p :| 0 <= p < |seeds| && seeds[p] == s;
      if p < q - 1 {
        SeedEndsBefore(lib, t, s, seeds[q - 1]);
      }
    }
    if 0 < q < |seeds| {
      SeedEndsBefore(lib, t, seeds[q - 1], seeds[q]);
    }
    GapIs(lib, t, done, next);
  }

  lemma GapIs(lib: Library, t: Forest, done: nat, next: nat)
    requires ValidForest(t) && done <= next <= |t.d|
    requires forall s: nat | s < |t.d| && IsSeed(lib, t, s) && s < next :: End(t.d, s) <= done
    ensures Gap(lib, t, done, next)
  {
  }

  /** Freeing all that is tracked leaves only the empty bottom of the stack. */
  lemma CollectAllIsSafe(stack: seq<seq<Stream>>, nodes: seq<seq<Stream>>, forgotten: set<Stream>,
                         out: seq<(nat, seq<Stream>)>, alive: set<Stream>, alive': set<Stream>)
    requires OwnOk(stack, nodes, forgotten, out, alive)
    requires forall x :: x in alive' <==> x in alive && !Tracked(nodes, x)
    ensures OwnOk([[]], [], forgotten, out, alive')
    ensures OwnOk([[]], [[]], forgotten, out, alive')
  {
  }

  lemma CollectAllKeepsProgress(r: Refresh, t: Forest, seeds: set<nat>, m: nat, t': Forest,
                                stack: seq<seq<Stream>>, nodes: seq<seq<Stream>>, forgotten: set<Stream>,
                                out: seq<(nat, seq<Stream>)>, alive: set<Stream>, alive': set<Stream>)
    requires ValidForest(t) && Progress(r, t, seeds, m, t', out, alive)
    requires OwnOk(stack, nodes, forgotten, out, alive)
    requires forall x :: x in alive' <==> x in alive && !Tracked(nodes, x)
    ensures Progress(r, t, seeds, m, t', out, alive')
  {
    CollectKeepsCaches(r, t, m, t'.f, nodes, forgotten, alive, 0, alive');
  }

  lemma InitialProgress(r: Refresh, t: Forest, alive: set<Stream>, trouble: Trouble)
    requires ValidForest(t) && DistinctIds(t) && SoundCaches(r.lib, t, r.epoch)
    requires forall x | x in alive :: x.born < r.epoch
    requires forall k, x | 0 <= k < |t.f| && t.f[k].cache.Some? && x in t.f[k].cache.value :: x in alive
    ensures Progress(r, t, Seeds(r.lib, t), 0, t, [], alive) && Smooth(t, Seeds(r.lib, t), 0, trouble)
    ensures OwnOk([[]], [], {}, [], alive)
  {
    forall k, x | 0 <= k < |t.f| && t.f[k].cache.Some? && x in t.f[k].cache.value ensures x.cached {
      assert SoundCache(r.lib, t.f[k], r.epoch);
    }
  }

  /** Whatever the outcome, the forest is sound and the caches exist. */
  lemma FinalState(r: Refresh, t: Forest, m: nat, ahead: nat, t': Forest, alive: set<Stream>, alive': set<Stream>)
    requires ValidForest(t) && DistinctIds(t) && Lawful(r.lib) && SoundCaches(r.lib, t, r.epoch)
    requires AfterRefresh(r, t, Seeds(r.lib, t), m, t') && AheadOk(r, t, ahead, t'.f, alive)
    requires forall x | x in alive' :: x in alive
    requires forall x | x in alive && x.cached :: x in alive'
    ensures ValidForest(t') && DistinctIds(t') && SoundCaches(r.lib, t', r.epoch + 1)
    ensures Coherent(r.lib, t) ==> Coherent(r.lib, t')
    ensures forall k, x | 0 <= k < |t'.f| && t'.f[k].cache.Some? && x in t'.f[k].cache.value :: x in alive'
    ensures forall x | x in alive' :: x.born <= r.epoch
  {
    forall k | 0 <= k < |t.f| ensures t'.f[k].id == t.f[k].id {
      var i: nat := k;
      assert t'.f[i].id == t.f[i].id;
    }
    RefreshKeepsSoundness(r, t, m, t');
    if Coherent(r.lib, t) {
      RefreshKeepsCoherence(r, t, m, t');
    }
  }
}
