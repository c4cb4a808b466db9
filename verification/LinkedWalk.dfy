/** Walks over the linked nodes: the listings of a subtree and of a whole tree by the
    pre-order iterator, the leaf iterator, and the greatest depth. */
module LinkedWalk {
  import opened LinkedNodes
  import opened LinkedCopy
  import opened LinkedReplace
  import opened LinkedTree
  import PreOrder

  // ---- Where a walk stands ----

  /** A walk over the subtree at start has met the keys of seen, cf last of all. */
  ghost predicate Walking(w: World, start: Node, seen: map<Node, Node>, cf: Node) {
    && Consistent(w) && start in w.h && Closed(w, start, seen) && Climbing(w, start, seen, cf)
    && cf in w.h && cf in seen
  }

  /** ... and has not yet gone into its children. */
  ghost predicate Arrived(w: World, start: Node, seen: map<Node, Node>, cf: Node) {
    Walking(w, start, seen, cf) && cf in w.h && (w.h[cf].first == null || w.h[cf].first !in seen)
  }

  lemma WalkingIs(w: World, start: Node, seen: map<Node, Node>, cf: Node)
    ensures Walking(w, start, seen, cf) <==>
      && Consistent(w) && start in w.h && Closed(w, start, seen) && Climbing(w, start, seen, cf)
      && cf in w.h && cf in seen
    ensures Arrived(w, start, seen, cf) <==>
      Walking(w, start, seen, cf) && cf in w.h && (w.h[cf].first == null || w.h[cf].first !in seen)
  {
    hide Consistent, Closed, Climbing;
  }

  lemma ClosedGrows(w: World, start: Node, seen: map<Node, Node>, n: Node)
    requires Consistent(w) && Closed(w, start, seen) && IsNext(w, start, seen, n)
    ensures Closed(w, start, seen[n := n])
  {
    forall m | m in seen[n := n] ensures m in w.h && Within(w, start, m) {
      if m == n { WithinByParent(w, start, n); }
    }
  }

  lemma WalkStarts(w: World, start: Node)
    requires Consistent(w) && start in w.h
    ensures Arrived(w, start, map[start := start], start)
  {
    hide *;
    ClimbStarts(w, start, start);
    OnlyStartIsClosed(w, start);
    WalkingIs(w, start, map[start := start], start);
  }

  lemma OnlyStartIsClosed(w: World, start: Node)
    requires Consistent(w) && start in w.h
    ensures Closed(w, start, map[start := start])
  {
  }

  lemma WalkDown(w: World, start: Node, seen: map<Node, Node>, cf: Node)
    requires Arrived(w, start, seen, cf) && cf in w.h && w.h[cf].first != null
    ensures var f: Node := w.h[cf].first;
            f !in seen && f in w.h && w.h[f].parent == cf && Arrived(w, start, seen[f := f], f)
  {
    hide *;
    WalkingIs(w, start, seen, cf);
    var f: Node := w.h[cf].first;
    ChildIs(w, cf);
    GoDown(w, start, seen, cf, f);
    NextIs(w, start, seen, f);
    ClosedGrows(w, start, seen, f);
    WalkingIs(w, start, seen[f := f], f);
  }

  lemma WalkUp(w: World, start: Node, seen: map<Node, Node>, cf: Node)
    requires Walking(w, start, seen, cf) && cf in w.h && cf != start && w.h[cf].next == null && KidsIn(w, seen, cf)
    ensures var p := w.h[cf].parent; p != null && p in w.h && p in w.depth && cf in w.depth
    ensures var p: Node := w.h[cf].parent;
            Walking(w, start, seen, p) && KidsIn(w, seen, p) && w.depth[cf] == w.depth[p] + 1
  {
    hide *;
    WalkingIs(w, start, seen, cf);
    GoUp(w, start, seen, cf);
    NumberIs(w, cf);
    WalkingIs(w, start, seen, w.h[cf].parent);
  }

  lemma WalkRight(w: World, start: Node, seen: map<Node, Node>, cf: Node)
    requires Walking(w, start, seen, cf) && cf in w.h && cf != start && w.h[cf].next != null && KidsIn(w, seen, cf)
    ensures var r: Node := w.h[cf].next;
            r !in seen && r in w.h && r in w.depth && cf in w.depth && w.depth[r] == w.depth[cf]
    ensures var r: Node := w.h[cf].next; Arrived(w, start, seen[r := r], r) && Under(w, start, r)
  {
    hide *;
    WalkingIs(w, start, seen, cf);
    var r: Node := w.h[cf].next;
    GoRight(w, start, seen, cf, r);
    NextIs(w, start, seen, r);
    ClosedGrows(w, start, seen, r);
    SiblingIs(w, cf);
    SameParentSameDepth(w, cf, r);
    WalkingIs(w, start, seen[r := r], r);
    ClimbingIs(w, start, seen[r := r], r);
    WithinIs(w, start, r);
  }

  lemma ArrivedLeaf(w: World, start: Node, seen: map<Node, Node>, cf: Node)
    requires Arrived(w, start, seen, cf) && cf in w.h && w.h[cf].first == null
    ensures Walking(w, start, seen, cf) && KidsIn(w, seen, cf)
  {
    hide *;
    WalkingIs(w, start, seen, cf);
    LeafHasKidsIn(w, seen, cf);
  }

  /** Back at the start with its children met, the walk has met the whole subtree. */
  lemma WalkEnds(w: World, start: Node, seen: map<Node, Node>)
    requires Walking(w, start, seen, start) && KidsIn(w, seen, start)
    ensures Consistent(w) && forall n | n in w.h :: n in seen <==> Within(w, start, n)
    ensures forall n | n in seen :: n in w.h
  {
    hide *;
    WalkingIs(w, start, seen, start);
    forall n | n in w.h ensures n in seen <==> Within(w, start, n) {
      NumberIs(w, n);
      if Within(w, start, n) { AllCopied(w, start, seen, n); }
      if n in seen { ClosedIs(w, start, seen, n); }
    }
    forall n | n in seen ensures n in w.h { ClosedIs(w, start, seen, n); }
  }

  // ---- The pre-order scan of a subtree ----

  /** What follows a node with nothing below it that is new: either the walk goes on
      inside the subtree, or all is met and what follows is what follows the subtree. */
  lemma {:induction false} AfterStep(w: World, start: Node, seen: map<Node, Node>, cf: Node)
    requires Walking(w, start, seen, cf) && cf in w.h && KidsIn(w, seen, cf) && cf in w.depth
    ensures Consistent(w) && start in w.h && start in w.depth
    ensures var r := After(w, cf);
            || (r == After(w, start) && Walking(w, start, seen, start) && KidsIn(w, seen, start))
            || (r != null && r !in seen && r in w.h && Under(w, start, r) && Arrived(w, start, seen[r := r], r))
    decreases w.depth[cf]
  {
    hide *;
    WalkingIs(w, start, seen, cf);
    NumberIs(w, start);
    AfterIs(w, cf);
    if cf != start {
      if w.h[cf].next != null {
        WalkRight(w, start, seen, cf);
      } else {
        WalkUp(w, start, seen, cf);
        AfterStep(w, start, seen, w.h[cf].parent);
      }
    }
  }
  /** Each node of the list is where the iterator goes from the one before. */
  ghost predicate IsWalk(w: World, l: seq<Node>) {
    && Consistent(w) && (forall n | n in l :: n in w.h && n in w.depth)
    && forall i, j | 0 <= i < |l| && j == i + 1 && j < |l| :: l[j] == Successor(w, l[i])
  }

  ghost function Successor(w: World, n: Node): Node?
    requires Consistent(w) && n in w.h && n in w.depth
  {
    if w.h[n].first != null then w.h[n].first else After(w, n)
  }

  /** Where the iterator goes from the last node of a list. */
  ghost predicate EndsBefore(w: World, l: seq<Node>, r: Node?) {
    && Consistent(w) && l != [] && l[|l| - 1] in w.h && l[|l| - 1] in w.depth
    && Successor(w, l[|l| - 1]) == r
  }

  lemma EndsIs(w: World, l: seq<Node>, r: Node?)
    ensures EndsBefore(w, l, r) <==>
      && Consistent(w) && l != [] && l[|l| - 1] in w.h && l[|l| - 1] in w.depth
      && Successor(w, l[|l| - 1]) == r
  {
    hide Consistent, Successor;
  }

  lemma OneNodeWalk(w: World, n: Node)
    requires Consistent(w) && n in w.h && n in w.depth
    ensures IsWalk(w, [n])
  {
    hide Consistent, Successor;
  }

  lemma WalksJoin(w: World, l: seq<Node>, r: seq<Node>)
    requires IsWalk(w, l) && IsWalk(w, r) && r != [] && (l != [] ==> EndsBefore(w, l, r[0]))
    ensures IsWalk(w, l + r)
  {
    hide Consistent, Successor;
    var lr := l + r;
    forall i, j | 0 <= i < |lr| && j == i + 1 && j < |lr|
      ensures lr[i] in w.h && lr[i] in w.depth && lr[j] == Successor(w, lr[i])
    {
      assert lr[i] == if i < |l| then l[i] else r[i - |l|];
      assert lr[j] == if j < |l| then l[j] else r[j - |l|];
    }
  }

  lemma WalkIs(w: World, l: seq<Node>, i: nat)
    requires IsWalk(w, l) && i < |l|
    ensures Consistent(w) && forall n | n in l :: n in w.h && n in w.depth
    ensures l[i] in w.h && l[i] in w.depth
    ensures i + 1 < |l| ==> l[i + 1] == Successor(w, l[i]) && l[i + 1] in w.h && l[i + 1] in w.depth
  {
    hide Consistent, Successor;
    assert l[i] in l;
    if i + 1 < |l| { assert l[i + 1] in l; }
  }

  /** A walk that meets no node twice and nothing higher than its first node. */
  ghost predicate IsListing(w: World, l: seq<Node>) {
    && IsWalk(w, l)
    && (forall i, j | 0 <= i < j < |l| :: l[i] != l[j])
    && forall n | n in l :: l[0] in w.depth && n in w.depth && w.depth[l[0]] <= w.depth[n]
  }

  lemma ListingIs(w: World, l: seq<Node>)
    ensures IsListing(w, l) <==>
      && IsWalk(w, l)
      && (forall i, j | 0 <= i < j < |l| :: l[i] != l[j])
      && forall n | n in l :: l[0] in w.depth && n in w.depth && w.depth[l[0]] <= w.depth[n]
  {
    hide IsWalk;
  }

  /** A listing of a whole subtree: its nodes and no others. */
  ghost predicate IsScan(w: World, start: Node, l: seq<Node>) {
    && IsListing(w, l) && Consistent(w) && start in w.h && start in w.depth && l != [] && l[0] == start
    && (forall n | n in w.h :: n in l <==> Within(w, start, n))
    && EndsBefore(w, l, After(w, start))
  }

  lemma ScanIs(w: World, start: Node, l: seq<Node>)
    ensures IsScan(w, start, l) <==>
      && IsListing(w, l) && Consistent(w) && start in w.h && start in w.depth && l != [] && l[0] == start
      && (forall n | n in w.h :: n in l <==> Within(w, start, n))
      && EndsBefore(w, l, After(w, start))
  {
    hide Consistent, Within, IsListing, EndsBefore, After;
  }

  /** One step of the iterator: into the subtree, and then deeper than its top, or out
      of it to what follows it. */
  lemma StepOfScan(w: World, start: Node, seen: map<Node, Node>, cf: Node)
    requires Arrived(w, start, seen, cf) && cf in w.h
    ensures Consistent(w) && start in w.h && start in w.depth && cf in w.depth
    ensures var r := Successor(w, cf); r != null && r != After(w, start) ==>
              r in w.h && r in w.depth && w.depth[r] > w.depth[start] && r !in seen && Arrived(w, start, seen[r := r], r)
    ensures Successor(w, cf) == After(w, start) ==> Walking(w, start, seen, start) && KidsIn(w, seen, start)
    ensures Successor(w, cf) == null ==> After(w, start) == null
  {
    hide *;
    WalkingIs(w, start, seen, cf);
    NumberIs(w, start);
    NumberIs(w, cf);
    ClimbingIs(w, start, seen, cf);
    WithinIs(w, start, cf);
    SuccessorIs(w, cf);
    AfterIsOutside(w, start);
    if w.h[cf].first != null {
      var f: Node := w.h[cf].first;
      WalkDown(w, start, seen, cf);
      NumberIs(w, f);
      UnderOfParent(w, start, f);
      WithinIs(w, start, f);
      UnderIsDeeper(w, start, f);
    } else {
      ArrivedLeaf(w, start, seen, cf);
      AfterStep(w, start, seen, cf);
      AfterIsOutside(w, cf);
      var r := After(w, cf);
      if r != null && Under(w, start, r) {
        UnderIsDeeper(w, start, r);
        WithinIs(w, start, r);
      }
    }
  }

  lemma SuccessorIs(w: World, n: Node)
    requires Consistent(w) && n in w.h && n in w.depth
    ensures Successor(w, n) == if w.h[n].first != null then w.h[n].first else After(w, n)
  {
  }

  /** The subtree of every node has a listing, which the iterator leaves for what
      follows the subtree. */
  lemma SubtreeListing(w: World, start: Node) returns (l: seq<Node>)
    requires Consistent(w) && start in w.h
    ensures IsScan(w, start, l)
  {
    hide *;
    WalkStarts(w, start);
    NumberIs(w, start);
    AfterIsOutside(w, start);
    var seen: map<Node, Node> := map[start := start];
    l := [start];
    OneNodeWalk(w, start);
    var it: Node?, cf: Node := Successor(w, start), start;
    while it != After(w, start)
      invariant l != [] && l[0] == start && cf == l[|l| - 1]
      invariant forall n | n in l :: n in seen
      invariant forall n | n in seen :: n in l
      invariant forall i, j | 0 <= i < j < |l| :: l[i] != l[j]
      invariant Arrived(w, start, seen, cf) && cf in w.h && cf in w.depth && it == Successor(w, cf)
      invariant forall n | n in seen :: n in w.h && n in w.depth && w.depth[start] <= w.depth[n]
      invariant IsWalk(w, l)
      decreases w.h.Keys - seen.Keys
    {
      StepOfScan(w, start, seen, cf);
      EndsIs(w, l, it);
      OneLess(w, seen, it, it);
      OneNodeWalk(w, it);
      WalksJoin(w, l, [it]);
      seen := seen[it := it];
      l := l + [it];
      cf := it;
      it := Successor(w, cf);
    }
    StepOfScan(w, start, seen, cf);
    WalkEnds(w, start, seen);
    EndsIs(w, l, it);
    ListingIs(w, l);
    ScanIs(w, start, l);
  }

  lemma InListing(w: World, l: seq<Node>, i: nat)
    requires IsListing(w, l) && i < |l|
    ensures IsWalk(w, l) && l[0] in w.depth && l[i] in w.depth && l[0] in w.h && l[i] in w.h
    ensures w.depth[l[0]] <= w.depth[l[i]]
    ensures forall j | 0 <= j < |l| :: l[j] == l[i] ==> j == i
  {
    hide Consistent, Successor;
    assert l[i] in l && l[0] in l;
  }

  /** In the listing of a subtree all but the top are deeper than the top, and what
      follows is not. */
  lemma ScanDepths(w: World, start: Node, l: seq<Node>, i: nat)
    requires IsScan(w, start, l) && i < |l|
    ensures start in w.depth && l[i] in w.depth && (0 < i ==> w.depth[start] < w.depth[l[i]])
    ensures Consistent(w) && start in w.h
    ensures var r := After(w, start); r != null ==> r in w.depth && w.depth[r] <= w.depth[start]
  {
    hide *;
    ScanIs(w, start, l);
    InListing(w, l, i);
    AfterIsOutside(w, start);
    assert l[i] in l;
    WithinIs(w, start, l[i]);
    if 0 < i { UnderIsDeeper(w, start, l[i]); }
  }

  /** Visits a node and then goes on in pre-order as long as the nodes are deeper: just
      the subtree, each node once. */
  method VisitSubtree(t: Trees, start: Node) returns (visited: seq<Node>)
    requires t.Valid() && start in t.w.h
    ensures IsScan(t.w, start, visited)
  {
    hide *;
    t.ValidIs();
    ghost var w := t.w;
    ghost var l := SubtreeListing(w, start);
    ScanIs(w, start, l);
    ListingIs(w, l);
    visited := [start];
    var minDepth := t.Depth(start);
    var it: Node?, going := start, true;
    while going
      invariant 0 < |visited| <= |l| && visited == l[..|visited|]
      invariant going ==> it == visited[|visited| - 1]
      invariant !going ==> visited == l
      decreases |l| - |visited|, going
    {
      WalkIs(w, l, |visited| - 1);
      SuccessorIs(w, it);
      EndsIs(w, l, After(w, start));
      it := t.Next(it, false);
      ScanDepths(w, start, l, if |visited| < |l| then |visited| else 0);
      if |visited| == |l| { AfterIsOutside(w, start); }
      going := false;
      if it != null {
        var depth := t.Depth(it);
        going := depth > minDepth;
        if going {
          visited := visited + [it];
        }
      }
    }
  }

  // ---- A listing as a sequence of depths ----

  /** The depths of the nodes of a walk, counted from the first. */
  ghost function Depths(w: World, l: seq<Node>): (d: seq<nat>)
    requires forall n | n in l :: n in w.depth
    ensures |d| == |l|
  {
    seq(|l|, i requires 0 <= i < |l| =>
      if w.depth[l[i]] >= w.depth[l[0]] then w.depth[l[i]] - w.depth[l[0]] else 0)
  }

  lemma DepthsIs(w: World, l: seq<Node>, i: nat)
    requires i < |l| && forall n | n in l :: n in w.depth
    ensures l[i] in w.depth && l[0] in w.depth
    ensures Depths(w, l)[i] == if w.depth[l[i]] >= w.depth[l[0]] then w.depth[l[i]] - w.depth[l[0]] else 0
  {
  }

  lemma DepthsAt(w: World, l: seq<Node>, i: nat)
    requires IsListing(w, l) && i < |l|
    ensures Consistent(w) && l[0] in w.depth && l[i] in w.depth && l[i] in w.h
    ensures forall n | n in l :: n in w.depth
    ensures Depths(w, l)[i] + w.depth[l[0]] == w.depth[l[i]]
  {
    hide *;
    InListing(w, l, i);
    WalkIs(w, l, i);
    DepthsIs(w, l, i);
  }

  lemma SuccessorDepth(w: World, n: Node)
    requires Consistent(w) && n in w.h && n in w.depth
    ensures var r := Successor(w, n); r != null ==> r in w.h && r in w.depth && w.depth[r] <= w.depth[n] + 1
    ensures var r := Successor(w, n); r != null && w.depth[r] > w.depth[n] ==> w.h[n].first != null
  {
    SuccessorIs(w, n);
    hide *;
    ChildIs(w, n);
    AfterIsOutside(w, n);
    if w.h[n].first != null { NumberIs(w, w.h[n].first); }
  }

  /** The depths that the iterator sees form a pre-order depth sequence. */
  lemma DepthsAreValid(w: World, l: seq<Node>)
    requires IsListing(w, l)
    ensures (forall n | n in l :: n in w.depth) && PreOrder.Valid(Depths(w, l))
  {
    if l != [] { DepthsAt(w, l, 0); }
    var d := Depths(w, l);
    forall i | 0 < i < |d| ensures d[i] <= d[i - 1] + 1 {
      DepthsAt(w, l, i);
      DepthsAt(w, l, i - 1);
      WalkIs(w, l, i - 1);
      SuccessorDepth(w, l[i - 1]);
    }
  }

  /** A node after n that is still deeper than a lies below a when n does. */
  lemma {:induction false} AfterStaysUnder(w: World, a: Node, n: Node)
    requires Consistent(w) && a in w.h && n in w.h && n in w.depth && a in w.depth && Within(w, a, n)
    ensures var r := After(w, n); r != null ==> r in w.h && r in w.depth && (w.depth[r] > w.depth[a] ==> Under(w, a, r))
    decreases w.depth[n]
  {
    hide *;
    AfterIs(w, n);
    NumberIs(w, n);
    SiblingIs(w, n);
    AfterIsOutside(w, n);
    WithinIs(w, a, n);
    if n != a {
      var b := w.h[n].next;
      UnderOfParent(w, a, n);
      if b != null {
        NumberIs(w, b);
        UnderSameParent(w, a, n, b);
      } else {
        WithinIs(w, a, w.h[n].parent);
        AfterStaysUnder(w, a, w.h[n].parent);
      }
    }
  }

  lemma BelowStep(d: seq<nat>, a: nat, i: nat)
    requires i < |d| && PreOrder.Below(d, a, i)
    ensures a < i && d[a] < d[i] && (a < i - 1 ==> PreOrder.Below(d, a, i - 1))
  {
  }

  lemma {:induction false} RangeIsUnder(w: World, l: seq<Node>, a: nat, i: nat)
    requires IsListing(w, l) && a < |l| && i < |l| && forall n | n in l :: n in w.depth
    requires PreOrder.Below(Depths(w, l), a, i)
    ensures l[a] in w.h && l[i] in w.h && Consistent(w) && Under(w, l[a], l[i])
    decreases i
  {
    hide *;
    BelowStep(Depths(w, l), a, i);
    DepthsAt(w, l, a);
    DepthsAt(w, l, i);
    InListing(w, l, i);
    WalkIs(w, l, i - 1);
    var m := l[i - 1];
    SuccessorIs(w, m);
    if a < i - 1 { RangeIsUnder(w, l, a, i - 1); }
    WithinIs(w, l[a], m);
    if w.h[m].first != null {
      ChildIs(w, m);
      UnderOfParent(w, l[a], l[i]);
    } else {
      AfterStaysUnder(w, l[a], m);
    }
  }

  /** The nodes that the depth sequence puts below a node are the nodes below it. */
  lemma {:induction false} BelowIsUnder(w: World, l: seq<Node>, a: nat, i: nat)
    requires IsListing(w, l) && a < |l| && i < |l|
    ensures (forall n | n in l :: n in w.depth) && l[a] in w.h && l[i] in w.h && Consistent(w)
    ensures PreOrder.Below(Depths(w, l), a, i) <==> Under(w, l[a], l[i])
    decreases if Consistent(w) && l[i] in w.depth then w.depth[l[i]] else 0
  {
    hide *;
    DepthsAreValid(w, l);
    DepthsAt(w, l, i);
    DepthsAt(w, l, a);
    var d := Depths(w, l);
    if PreOrder.Below(d, a, i) {
      RangeIsUnder(w, l, a, i);
    } else if Under(w, l[a], l[i]) {
      UnderIsDeeper(w, l[a], l[i]);
      var p := PreOrder.Parent(d, i);
      DepthsAt(w, l, p);
      RangeIsUnder(w, l, p, i);
      ParentByDepth(w, l[p], l[i]);
      InListing(w, l, p);
      if a != p {
        BelowIsUnder(w, l, a, p);
        PreOrder.BelowTrans(d, a, p, i);
      }
    }
  }

  /** The node above another and one level higher is its parent. */
  lemma ParentByDepth(w: World, p: Node, n: Node)
    requires Consistent(w) && p in w.h && n in w.h && Under(w, p, n)
    requires p in w.depth && n in w.depth && w.depth[p] + 1 == w.depth[n]
    ensures w.h[n].parent == p
    ensures forall a: Node | a in w.h && a != p :: Under(w, a, n) <==> Under(w, a, p)
  {
    hide *;
    UnderOfParent(w, p, n);
    NumberIs(w, n);
    var q: Node := w.h[n].parent;
    if q != p { UnderIsDeeper(w, p, q); }
    forall a: Node | a in w.h && a != p ensures Under(w, a, n) <==> Under(w, a, p) { UnderOfParent(w, a, n); }
  }

  // ---- The whole tree, from head to feet ----

  /** The sentinels and the roots between them. */
  ghost predicate TopList(w: World, head: Node, roots: seq<Node>, feet: Node) {
    && Consistent(w) && head in w.h && feet in w.h && (forall r | r in roots :: r in w.h && r != feet)
    && w.h[head].parent == null && w.h[head].first == null && w.h[feet].first == null && w.h[feet].next == null
    && w.h[head].next == (if roots == [] then feet else roots[0])
    && forall i, j | 0 <= i < |roots| && j == i + 1 :: w.h[roots[i]].next == if j < |roots| then roots[j] else feet
  }

  lemma TopListAt(w: World, head: Node, roots: seq<Node>, feet: Node, i: nat)
    requires TopList(w, head, roots, feet)
    ensures Consistent(w) && head in w.h && feet in w.h
    ensures w.h[head].next == (if roots == [] then feet else roots[0])
    ensures w.h[head].parent == null && w.h[head].first == null && w.h[feet].first == null && w.h[feet].next == null
    ensures i < |roots| ==> roots[i] in w.h && roots[i] != feet
    ensures i < |roots| ==> w.h[roots[i]].next == if i + 1 < |roots| then roots[i + 1] else feet
  {
    hide Consistent;
  }

  /** The root, or the feet, at a place of the top list. */
  function TopAt(roots: seq<Node>, feet: Node, i: nat): Node {
    if i < |roots| then roots[i] else feet
  }

  /** Roots have no parent, and their numbers ascend. */
  lemma {:induction false} RootIs(w: World, head: Node, roots: seq<Node>, feet: Node, i: nat)
    requires TopList(w, head, roots, feet) && i <= |roots|
    ensures var r := TopAt(roots, feet, i); r in w.h && w.h[r].parent == null && r in w.depth && w.depth[r] == 0
    ensures var r := TopAt(roots, feet, i); r in w.idx
    ensures forall j: nat | j < i :: roots[j] in w.idx && w.idx[roots[j]] < w.idx[TopAt(roots, feet, i)]
  {
    hide *;
    TopListAt(w, head, roots, feet, i);
    TopAtIs(roots, feet, i);
    var r := TopAt(roots, feet, i);
    if i == 0 {
      SiblingIs(w, head);
    } else {
      RootIs(w, head, roots, feet, i - 1);
      TopListAt(w, head, roots, feet, i - 1);
      TopAtIs(roots, feet, i - 1);
      SiblingIs(w, roots[i - 1]);
      LaterNumber(w, r);
    }
    TopDepth(w, r);
    NumberIs(w, r);
  }

  lemma TopAtIs(roots: seq<Node>, feet: Node, i: nat)
    ensures TopAt(roots, feet, i) == if i < |roots| then roots[i] else feet
  {
  }

  lemma LaterNumber(w: World, n: Node)
    requires Consistent(w) && n in w.h && w.h[n].prev != null
    ensures n in w.idx && w.h[n].prev in w.idx && w.idx[w.h[n].prev] < w.idx[n]
  {
    assert NodeOk(w, n);
  }

  /** Within one of the roots. */
  ghost predicate InTree(w: World, roots: seq<Node>, n: Node)
    requires Consistent(w) && n in w.h
  {
    exists r | r in roots :: Within(w, r, n)
  }

  lemma InTreeIs(w: World, roots: seq<Node>, n: Node)
    requires Consistent(w) && n in w.h
    ensures InTree(w, roots, n) <==> exists r | r in roots :: Within(w, r, n)
  {
    hide Within, Consistent;
  }

  /** The listing of a whole tree: all that is within the roots, up to the feet. */
  ghost predicate IsForest(w: World, roots: seq<Node>, feet: Node, l: seq<Node>) {
    && IsListing(w, l) && Consistent(w)
    && (forall n | n in w.h :: n in l <==> InTree(w, roots, n))
    && (roots == [] <==> l == [])
    && (roots != [] ==> l[0] == roots[0] && l[0] in w.depth && w.depth[l[0]] == 0 && EndsBefore(w, l, feet))
  }

  lemma ForestIs(w: World, roots: seq<Node>, feet: Node, l: seq<Node>)
    ensures IsForest(w, roots, feet, l) <==>
      && IsListing(w, l) && Consistent(w)
      && (forall n | n in w.h :: n in l <==> InTree(w, roots, n))
      && (roots == [] <==> l == [])
      && (roots != [] ==> l[0] == roots[0] && l[0] in w.depth && w.depth[l[0]] == 0 && EndsBefore(w, l, feet))
  {
    hide Consistent, InTree, IsListing, EndsBefore;
  }

  lemma EmptyForest(w: World, feet: Node)
    requires Consistent(w)
    ensures IsForest(w, [], feet, [])
  {
    hide Consistent, Within;
  }

  /** A node within a later root is not within an earlier one. */
  lemma RootsApart(w: World, head: Node, roots: seq<Node>, feet: Node, i: nat, n: Node)
    requires TopList(w, head, roots, feet) && i < |roots| && n in w.h
    requires Consistent(w) && Within(w, roots[i], n)
    ensures !InTree(w, roots[..i], n)
  {
    hide *;
    InTreeIs(w, roots[..i], n);
    if InTree(w, roots[..i], n) {
      var q :| q in roots[..i] && Within(w, q, n);
      var j: nat :| j < i && roots[j] == q;
      RootIs(w, head, roots, feet, i);
      RootIs(w, head, roots, feet, j);
      TopAtIs(roots, feet, i);
      TopAtIs(roots, feet, j);
      NumberIs(w, n);
      NestedAbove(w, q, roots[i], n);
      WithinIs(w, q, roots[i]);
      WithinIs(w, roots[i], q);
      UnderOfParent(w, q, roots[i]);
      UnderOfParent(w, roots[i], q);
    }
  }

  lemma InTreeGrows(w: World, roots: seq<Node>, i: nat, n: Node)
    requires Consistent(w) && n in w.h && i < |roots|
    ensures InTree(w, roots[..i + 1], n) <==> InTree(w, roots[..i], n) || Within(w, roots[i], n)
  {
    hide Within, Consistent;
    var a, b := roots[..i], roots[..i + 1];
    assert b == a + [roots[i]];
    assert roots[i] in b && forall r | r in b :: r in a || r == roots[i];
  }

  /** The listing of the next root continues the listing of the roots before it. */
  lemma ForestGrows(w: World, head: Node, roots: seq<Node>, feet: Node, i: nat, l: seq<Node>, s: seq<Node>)
    requires TopList(w, head, roots, feet) && i < |roots|
    requires IsForest(w, roots[..i], roots[i], l) && IsScan(w, roots[i], s)
    ensures IsForest(w, roots[..i + 1], TopAt(roots, feet, i + 1), l + s)
  {
    hide *;
    var r := roots[i];
    ForestIs(w, roots[..i], r, l);
    ScanIs(w, r, s);
    ListingIs(w, l);
    ListingIs(w, s);
    WalksJoin(w, l, s);
    RootIs(w, head, roots, feet, i);
    RootIs(w, head, roots, feet, i + 1);
    TopAtIs(roots, feet, i);
    TopAtIs(roots, feet, i + 1);
    TopListAt(w, head, roots, feet, i);
    var ls := l + s;
    forall n | n in w.h ensures n in ls <==> InTree(w, roots[..i + 1], n) { InTreeGrows(w, roots, i, n); }
    forall j, k | 0 <= j < k < |ls| ensures ls[j] != ls[k] {
      if j < |l| <= k {
        assert ls[j] in l && ls[k] in s;
        WalkIs(w, l, j);
        WalkIs(w, s, k - |l|);
        RootsApart(w, head, roots, feet, i, ls[k]);
      }
    }
    assert ls[0] == roots[0];
    forall n | n in ls ensures n in w.depth { assert n in l || n in s; }
    ListingIs(w, ls);
    AfterIs(w, r);
    EndsIs(w, s, After(w, r));
    assert ls[|ls| - 1] == s[|s| - 1];
    EndsIs(w, ls, TopAt(roots, feet, i + 1));
    ForestIs(w, roots[..i + 1], TopAt(roots, feet, i + 1), ls);
  }

  /** Every tree has a listing from its first root to its feet. */
  lemma ForestListing(w: World, head: Node, roots: seq<Node>, feet: Node) returns (l: seq<Node>)
    requires TopList(w, head, roots, feet)
    ensures IsForest(w, roots, feet, l)
  {
    hide *;
    var i: nat := 0;
    l := [];
    TopListAt(w, head, roots, feet, 0);
    TopAtIs(roots, feet, 0);
    EmptyForest(w, TopAt(roots, feet, 0));
    assert roots[..0] == [];
    while i < |roots|
      invariant i <= |roots| && IsForest(w, roots[..i], TopAt(roots, feet, i), l)
    {
      TopListAt(w, head, roots, feet, i);
      TopAtIs(roots, feet, i);
      var s := SubtreeListing(w, roots[i]);
      ForestGrows(w, head, roots, feet, i, l, s);
      l := l + s;
      i := i + 1;
    }
    TopAtIs(roots, feet, i);
    assert roots[..i] == roots;
  }

  /** In a tree's listing the iterator goes from each node to the next, and from the
      last to the feet, which are not in the listing. */
  lemma ForestStep(w: World, head: Node, roots: seq<Node>, feet: Node, l: seq<Node>, i: nat)
    requires TopList(w, head, roots, feet) && IsForest(w, roots, feet, l) && i < |l|
    ensures Consistent(w) && l[i] in w.h && l[i] in w.depth
    ensures Successor(w, l[i]) == if i + 1 < |l| then l[i + 1] else feet
    ensures feet !in l
  {
    hide *;
    ForestIs(w, roots, feet, l);
    InListing(w, l, i);
    WalkIs(w, l, i);
    EndsIs(w, l, feet);
    TopListAt(w, head, roots, feet, 0);
    InTreeIs(w, roots, feet);
    RootIs(w, head, roots, feet, |roots|);
    TopAtIs(roots, feet, |roots|);
    forall r | r in roots ensures !Within(w, r, feet) {
      var j: nat :| j < |roots| && roots[j] == r;
      TopListAt(w, head, roots, feet, j);
      WithinIs(w, r, feet);
      UnderOfParent(w, r, feet);
    }
  }

  /** The pre-order loop from the first root to the feet visits every node of the tree
      once, in the order of its listing. */
  method VisitForest(t: Trees, head: Node, feet: Node, ghost roots: seq<Node>) returns (visited: seq<Node>)
    requires t.Valid() && TopList(t.w, head, roots, feet)
    ensures IsForest(t.w, roots, feet, visited)
  {
    hide *;
    t.ValidIs();
    ghost var w := t.w;
    ghost var l := ForestListing(w, head, roots, feet);
    ForestIs(w, roots, feet, l);
    TopListAt(w, head, roots, feet, 0);
    StoredIs(w);
    CellOfIs(head);
    TopAtIs(l, feet, 0);
    visited := [];
    var it: Node? := head.nextSibling;
    while it != feet
      invariant |visited| <= |l| && visited == l[..|visited|]
      invariant it == TopAt(l, feet, |visited|)
      decreases |l| - |visited|
    {
      TopAtIs(l, feet, |visited|);
      ForestStep(w, head, roots, feet, l, |visited|);
      SuccessorIs(w, it);
      visited := visited + [it];
      it := t.Next(it, false);
      TopAtIs(l, feet, |visited|);
    }
    TopAtIs(l, feet, |visited|);
    if |visited| < |l| { ForestStep(w, head, roots, feet, l, |visited|); }
    assert l[..|visited|] == l;
  }

  // ---- The leaf iterator ----

  /** A node of a tree's listing is a leaf by its depth sequence if and only if it has
      no child. */
  lemma LeafIsChildless(w: World, head: Node, roots: seq<Node>, feet: Node, l: seq<Node>, i: nat)
    requires TopList(w, head, roots, feet) && IsForest(w, roots, feet, l) && i < |l|
    ensures (forall n | n in l :: n in w.depth) && l[i] in w.h
    ensures PreOrder.IsLeaf(Depths(w, l), i) <==> w.h[l[i]].first == null
  {
    hide *;
    ForestIs(w, roots, feet, l);
    ForestStep(w, head, roots, feet, l, i);
    DepthsAt(w, l, i);
    SuccessorIs(w, l[i]);
    SuccessorDepth(w, l[i]);
    LeafByDepth(Depths(w, l), i);
    RootIs(w, head, roots, feet, |roots|);
    TopAtIs(roots, feet, |roots|);
    if w.h[l[i]].first != null {
      NumberIs(w, w.h[l[i]].first);
      ChildIs(w, l[i]);
    }
    if i + 1 < |l| { DepthsAt(w, l, i + 1); }
  }

  lemma LeafByDepth(d: seq<nat>, i: nat)
    requires i < |d|
    ensures PreOrder.IsLeaf(d, i) <==> i + 1 == |d| || d[i + 1] <= d[i]
  {
  }

  /** The childless nodes of a list, in order. */
  ghost function Leaves(w: World, l: seq<Node>): (r: seq<Node>)
    ensures forall n | n in r :: n in l && n in w.h && w.h[n].first == null
    ensures forall n | n in l && n in w.h && w.h[n].first == null :: n in r
  {
    if l == [] then [] else
    var n := l[|l| - 1];
    Leaves(w, l[..|l| - 1]) + if n in w.h && w.h[n].first == null then [n] else []
  }

  lemma LeavesGrow(w: World, l: seq<Node>, i: nat)
    requires i < |l| && l[i] in w.h
    ensures Leaves(w, l[..i + 1]) == Leaves(w, l[..i]) + if w.h[l[i]].first == null then [l[i]] else []
  {
    assert l[..i + 1][..i] == l[..i];
  }

  /** From a node of the listing, or from the feet, down to the first leaf. */
  method FirstLeaf(t: Trees, head: Node, feet: Node, ghost roots: seq<Node>, ghost l: seq<Node>, from: Node, ghost i: nat)
    returns (tmp: Node, ghost k: nat)
    requires t.Valid() && TopList(t.w, head, roots, feet) && IsForest(t.w, roots, feet, l)
    requires i <= |l| && from == TopAt(l, feet, i)
    ensures i <= k <= |l| && tmp == TopAt(l, feet, k) && tmp in t.w.h && t.w.h[tmp].first == null
    ensures i == |l| <==> k == |l|
    ensures Leaves(t.w, l[..k]) == Leaves(t.w, l[..i])
  {
    hide *;
    t.ValidIs();
    StoredIs(t.w);
    tmp, k := from, i;
    PlaceIs(t.w, head, roots, feet, l, k);
    CellOfIs(tmp);
    while tmp.firstChild != null
      invariant i <= k <= |l| && tmp == TopAt(l, feet, k) && tmp in t.w.h && tmp.firstChild == t.w.h[tmp].first
      invariant Leaves(t.w, l[..k]) == Leaves(t.w, l[..i]) && (i == |l| <==> k == |l|)
      decreases |l| - k
    {
      PlaceIs(t.w, head, roots, feet, l, k);
      LeavesGrow(t.w, l, k);
      tmp := tmp.firstChild;
      k := k + 1;
      PlaceIs(t.w, head, roots, feet, l, k);
      CellOfIs(tmp);
    }
  }

  /** What the links of a node of the listing, or of the feet, are. */
  lemma PlaceIs(w: World, head: Node, roots: seq<Node>, feet: Node, l: seq<Node>, k: nat)
    requires TopList(w, head, roots, feet) && IsForest(w, roots, feet, l) && k <= |l|
    ensures Consistent(w)
    ensures var n := TopAt(l, feet, k); n in w.h && n in w.depth && (k == |l| ==> w.h[n].first == null)
    ensures var n := TopAt(l, feet, k);
            k < |l| ==> n == l[k] && Successor(w, n) == TopAt(l, feet, k + 1)
    ensures var n := TopAt(l, feet, k);
            k < |l| && w.h[n].first != null ==> k + 1 < |l| && w.h[n].first == l[k + 1]
    ensures k == |l| ==> w.h[TopAt(l, feet, k)].next == null && w.h[TopAt(l, feet, k)].parent == null
  {
    hide *;
    TopAtIs(l, feet, k);
    TopAtIs(l, feet, k + 1);
    TopListAt(w, head, roots, feet, 0);
    RootIs(w, head, roots, feet, |roots|);
    TopAtIs(roots, feet, |roots|);
    if k < |l| {
      ForestStep(w, head, roots, feet, l, k);
      SuccessorIs(w, l[k]);
      ChildIs(w, l[k]);
    }
  }

  /** The step of the leaf iterator: up to a node with a next sibling, then down to the
      first leaf from that sibling; from a node that is no leaf any more, straight
      down. At the feet it stays. */
  method NextLeaf(t: Trees, head: Node, feet: Node, ghost roots: seq<Node>, ghost l: seq<Node>, it: Node, ghost i: nat)
    returns (node: Node, ghost k: nat)
    requires t.Valid() && TopList(t.w, head, roots, feet) && IsForest(t.w, roots, feet, l)
    requires i <= |l| && it == TopAt(l, feet, i)
    ensures k <= |l| && node == TopAt(l, feet, k) && node in t.w.h && t.w.h[node].first == null
    ensures if i == |l| then k == |l| else i < k && Leaves(t.w, l[..k]) == Leaves(t.w, l[..i + 1])
  {
    hide *;
    ghost var w := t.w;
    t.ValidIs();
    StoredIs(w);
    PlaceIs(w, head, roots, feet, l, i);
    SuccessorIs(w, it);
    CellOfIs(it);
    if it.firstChild != null {
      node, k := FirstLeaf(t, head, feet, roots, l, it, i);
      LeavesGrow(w, l, i);
      if k == i { TopAtIs(l, feet, i); }
      return;
    }
    var up := it;
    NumberIs(w, up);
    while up.nextSibling == null
      invariant up in w.h && up in w.depth && CellOf(up) == w.h[up] && up.nextSibling == w.h[up].next
      invariant After(w, it) == After(w, up) && (i == |l| ==> up == it)
      decreases w.depth[up]
    {
      AfterIs(w, up);
      CellOfIs(up);
      if up.parent == null {
        return up, i;
      }
      NumberIs(w, up);
      up := up.parent;
      CellOfIs(up);
      NumberIs(w, up);
    }
    AfterIs(w, up);
    node, k := FirstLeaf(t, head, feet, roots, l, up.nextSibling, i + 1);
  }

  /** The loop of the leaf iterator meets exactly the childless nodes of the tree, each
      once, in pre-order. */
  method VisitLeaves(t: Trees, head: Node, feet: Node, ghost roots: seq<Node>, ghost l: seq<Node>)
    returns (visited: seq<Node>)
    requires t.Valid() && TopList(t.w, head, roots, feet) && IsForest(t.w, roots, feet, l)
    ensures visited == Leaves(t.w, l)
  {
    hide *;
    ghost var w := t.w;
    t.ValidIs();
    StoredIs(w);
    TopListAt(w, head, roots, feet, 0);
    CellOfIs(head);
    ForestIs(w, roots, feet, l);
    TopAtIs(l, feet, 0);
    NoLeaves(w);
    visited := [];
    ghost var k: nat := 0;
    var it: Node := head.nextSibling;
    if it != feet {
      it, k := FirstLeaf(t, head, feet, roots, l, it, 0);
    }
    assert l[..0] == [];
    while it != feet
      invariant k <= |l| && it == TopAt(l, feet, k) && (k < |l| ==> it in w.h && w.h[it].first == null)
      invariant visited == Leaves(w, l[..k])
      decreases |l| - k
    {
      TopAtIs(l, feet, k);
      LeavesGrow(w, l, k);
      visited := visited + [it];
      it, k := NextLeaf(t, head, feet, roots, l, it, k);
    }
    TopAtIs(l, feet, k);
    if k < |l| { ForestStep(w, head, roots, feet, l, k); }
    assert l[..k] == l;
  }

  lemma NoLeaves(w: World)
    ensures Leaves(w, []) == []
  {
  }

  // ---- The greatest depth ----

  /** The nodes of the list reach m levels below base, and no further. */
  ghost predicate Deepest(w: World, base: Node, l: seq<Node>, m: int) {
    && base in w.depth
    && (forall n | n in l :: n in w.depth && w.depth[n] <= w.depth[base] + m)
    && exists n :: n in l && n in w.depth && w.depth[n] == w.depth[base] + m
  }

  lemma DeepestIs(w: World, base: Node, l: seq<Node>, m: int)
    ensures Deepest(w, base, l, m) <==>
      && base in w.depth
      && (forall n | n in l :: n in w.depth && w.depth[n] <= w.depth[base] + m)
      && exists n :: n in l && n in w.depth && w.depth[n] == w.depth[base] + m
  {
  }

  lemma DeepestGrows(w: World, base: Node, l: seq<Node>, i: nat, m: int, d: int)
    requires i < |l| && Deepest(w, base, l[..i], m) && base in w.depth && l[i] in w.depth
    requires w.depth[l[i]] == w.depth[base] + d
    ensures Deepest(w, base, l[..i + 1], if d > m then d else m)
  {
    var a, b := l[..i], l[..i + 1];
    assert b == a + [l[i]];
    if d > m {
      assert l[i] in b && w.depth[l[i]] == w.depth[base] + d;
    } else {
      var k :| k in a && k in w.depth && w.depth[k] == w.depth[base] + m;
      assert k in b && w.depth[k] == w.depth[base] + m;
    }
  }

  /** The nodes within start reach m levels below it, and no further. */
  ghost predicate Reaches(w: World, start: Node, m: int) {
    && Consistent(w) && start in w.h && start in w.depth
    && (forall n | n in w.h && Within(w, start, n) :: n in w.depth && w.depth[n] <= w.depth[start] + m)
    && exists n :: n in w.h && Within(w, start, n) && n in w.depth && w.depth[n] == w.depth[start] + m
  }

  lemma ReachesIs(w: World, start: Node, m: int)
    ensures Reaches(w, start, m) <==>
      && Consistent(w) && start in w.h && start in w.depth
      && (forall n | n in w.h && Within(w, start, n) :: n in w.depth && w.depth[n] <= w.depth[start] + m)
      && exists n :: n in w.h && Within(w, start, n) && n in w.depth && w.depth[n] == w.depth[start] + m
  {
    hide Consistent, Within;
  }

  lemma ScanReaches(w: World, start: Node, l: seq<Node>, m: int)
    requires IsScan(w, start, l)
    ensures Deepest(w, start, l, m) <==> Reaches(w, start, m)
  {
    hide *;
    ScanIs(w, start, l);
    ListingIs(w, l);
    DeepestIs(w, start, l, m);
    ReachesIs(w, start, m);
    forall n | n in l ensures n in w.h {
      var i: nat :| i < |l| && l[i] == n;
      WalkIs(w, l, i);
    }
  }

  lemma LeafReachesNothing(w: World, n: Node)
    requires Consistent(w) && n in w.h && w.h[n].first == null
    ensures Reaches(w, n, 0)
  {
    hide *;
    NumberIs(w, n);
    WithinIs(w, n, n);
    forall m | m in w.h && Within(w, n, m) ensures m == n {
      WithinIs(w, n, m);
      if Under(w, n, m) {
        var c := UnderByChild(w, n, m);
        ParentHasChild(w, c);
      }
    }
    ReachesIs(w, n, 0);
  }

  /** The nodes that the walk for the greatest depth meets, from pos until it comes to
      what follows pos among its siblings, or out of the tree. */
  ghost predicate IsRoute(w: World, pos: Node, l: seq<Node>) {
    && IsWalk(w, l) && pos in w.h && l != [] && l[0] == pos
    && (forall i, j | 0 <= i < j < |l| :: l[i] != l[j])
    && EndsBefore(w, l, w.h[pos].next)
    && forall n: Node | n in l :: n != w.h[pos].next
  }

  lemma RouteIs(w: World, pos: Node, l: seq<Node>)
    ensures IsRoute(w, pos, l) <==>
      && IsWalk(w, l) && pos in w.h && l != [] && l[0] == pos
      && (forall i, j | 0 <= i < j < |l| :: l[i] != l[j])
      && EndsBefore(w, l, w.h[pos].next)
      && forall n: Node | n in l :: n != w.h[pos].next
  {
    hide IsWalk, EndsBefore;
  }

  /** With a next sibling the route is the subtree. */
  lemma ScanIsRoute(w: World, pos: Node, l: seq<Node>)
    requires IsScan(w, pos, l) && pos in w.h && w.h[pos].next != null
    ensures IsRoute(w, pos, l)
  {
    hide *;
    ScanIs(w, pos, l);
    ListingIs(w, l);
    AfterIs(w, pos);
    AfterIsOutside(w, pos);
    RouteIs(w, pos, l);
  }

  /** Without one it goes on to the end of the tree. */
  lemma RestIsRoute(w: World, head: Node, roots: seq<Node>, feet: Node, l: seq<Node>, k: nat)
    requires TopList(w, head, roots, feet) && IsForest(w, roots, feet, l) && k < |l|
    requires l[k] in w.h && w.h[l[k]].next == null
    ensures IsRoute(w, l[k], l[k..] + [feet])
  {
    hide *;
    ForestIs(w, roots, feet, l);
    ListingIs(w, l);
    TopListAt(w, head, roots, feet, 0);
    RootIs(w, head, roots, feet, |roots|);
    TopAtIs(roots, feet, |roots|);
    ForestStep(w, head, roots, feet, l, k);
    OneNodeWalk(w, feet);
    TailIsWalk(w, l, k);
    var r := l[k..];
    EndsIs(w, l, feet);
    EndsIs(w, r, feet);
    WalksJoin(w, r, [feet]);
    forall i, j | 0 <= i < j < |r| ensures r[i] != r[j] { assert l[k + i] != l[k + j]; }
    SuccessorIs(w, feet);
    AfterIs(w, feet);
    EndsIs(w, r + [feet], null);
    RouteIs(w, l[k], r + [feet]);
  }

  lemma TailIsWalk(w: World, l: seq<Node>, k: nat)
    requires IsWalk(w, l) && k <= |l|
    ensures IsWalk(w, l[k..])
  {
    hide Consistent, Successor;
    var r := l[k..];
    forall i, j | 0 <= i < |r| && j == i + 1 && j < |r|
      ensures r[i] in w.h && r[i] in w.depth && r[j] == Successor(w, r[i])
    {
      assert r[i] == l[k + i] && r[j] == l[k + j];
    }
  }

  /** The feet do not count: they are no deeper than any node. */
  lemma WithoutFeet(w: World, pos: Node, l: seq<Node>, feet: Node, m: nat)
    requires Deepest(w, pos, l + [feet], m) && l != [] && l[0] == pos && feet in w.depth && w.depth[feet] == 0
    ensures Deepest(w, pos, l, m)
  {
    var r := l + [feet];
    assert forall n | n in l :: n in r;
    assert pos in l;
  }

  lemma OnRoute(w: World, pos: Node, l: seq<Node>, k: nat)
    requires IsRoute(w, pos, l) && k < |l|
    ensures Consistent(w) && l[k] in w.h && l[k] in w.depth && pos in w.h && l[0] == pos && pos in w.depth
    ensures Successor(w, l[k]) == if k + 1 < |l| then l[k + 1] else w.h[pos].next
    ensures k + 1 < |l| ==> l[k + 1] in w.h && l[k + 1] in w.depth && l[k + 1] != w.h[pos].next
    ensures l[k] == pos ==> k == 0
  {
    hide *;
    RouteIs(w, pos, l);
    WalkIs(w, l, k);
    WalkIs(w, l, 0);
    EndsIs(w, l, w.h[pos].next);
    if k + 1 < |l| { assert l[k + 1] in l; }
  }

  /** From a leaf without a next sibling up until there is one, counting the levels. */
  method ClimbToSibling(t: Trees, from: Node, depthFrom: int) returns (tmp: Node?, curdepth: int)
    requires t.Valid() && from in t.w.h && from.nextSibling == null
    ensures from in t.w.depth && (tmp == null ==> After(t.w, from) == null)
    ensures tmp != null ==> tmp in t.w.h && tmp.nextSibling != null && After(t.w, from) == tmp.nextSibling
    ensures tmp != null ==> tmp in t.w.depth && curdepth + t.w.depth[from] == depthFrom + t.w.depth[tmp]
    ensures tmp != null ==> curdepth <= depthFrom
  {
    hide *;
    ghost var w := t.w;
    t.ValidIs();
    StoredIs(w);
    CellOfIs(from);
    var up := from;
    curdepth := depthFrom;
    NumberIs(w, up);
    while up.nextSibling == null
      invariant up in w.h && up in w.depth && CellOf(up) == w.h[up]
      invariant CellOf(up) == Cell(up.parent, up.firstChild, up.lastChild, up.prevSibling, up.nextSibling)
      invariant After(w, from) == After(w, up) && curdepth + w.depth[from] == depthFrom + w.depth[up]
      invariant curdepth <= depthFrom
      decreases w.depth[up]
    {
      AfterIs(w, up);
      NumberIs(w, up);
      if up.parent == null {
        return null, curdepth;
      }
      up := up.parent;
      curdepth := curdepth - 1;
      CellOfIs(up);
    }
    AfterIs(w, up);
    tmp := up;
  }

  /** From a childless node up to a node with a next sibling, or out of the tree: the
      route goes on to that sibling, unless the climb met its start. */
  lemma AlongTheRoute(w: World, pos: Node, l: seq<Node>, k: nat, up: Node?)
    requires IsRoute(w, pos, l) && k < |l| && l[k] in w.h && w.h[l[k]].first == null
    requires Consistent(w) && l[k] in w.depth
    requires if up == null then After(w, l[k]) == null
             else up in w.h && w.h[up].next != null && After(w, l[k]) == w.h[up].next
    ensures up == null || up == pos ==> l[..k + 1] == l
    ensures up != null && up != pos ==>
              && k + 1 < |l| && l[k + 1] == w.h[up].next && l[k + 1] in w.h && l[k + 1] in w.depth
              && up in w.depth && w.depth[l[k + 1]] == w.depth[up]
  {
    hide *;
    OnRoute(w, pos, l, k);
    SuccessorIs(w, l[k]);
    SiblingIs(w, pos);
    if up != null {
      SiblingIs(w, up);
      SameParentSameDepth(w, up, w.h[up].next);
    }
    if k + 1 == |l| { assert l[..k + 1] == l; }
  }

  lemma DownTheRoute(w: World, pos: Node, l: seq<Node>, k: nat)
    requires IsRoute(w, pos, l) && k < |l| && l[k] in w.h && w.h[l[k]].first != null
    ensures k + 1 < |l| && l[k + 1] == w.h[l[k]].first && l[k + 1] in w.h
    ensures l[k] in w.depth && l[k + 1] in w.depth && w.depth[l[k + 1]] == w.depth[l[k]] + 1
  {
    hide *;
    OnRoute(w, pos, l, k);
    SuccessorIs(w, l[k]);
    SiblingIs(w, pos);
    ChildIs(w, l[k]);
    NumberIs(w, w.h[l[k]].first);
  }

  /** Walks by the links from pos to find how deep it goes. The walk turns back when it
      climbs to pos, which it only sees if pos has a next sibling. */
  method MaxDepthAlong(t: Trees, pos: Node, ghost l: seq<Node>) returns (maxdepth: nat)
    requires t.Valid() && IsRoute(t.w, pos, l)
    ensures pos in t.w.h && if t.w.h[pos].first == null then maxdepth == 0 else Deepest(t.w, pos, l, maxdepth)
  {
    hide *;
    t.ValidIs();
    ghost var w := t.w;
    StoredIs(w);
    RouteIs(w, pos, l);
    OnRoute(w, pos, l, 0);
    var tmp: Node, curdepth: int := pos, 0;
    maxdepth := 0;
    ghost var k: nat := 0;
    DeepestIs(w, pos, l[..1], 0);
    while true
      invariant k < |l| && tmp == l[k] && tmp in w.h && tmp in w.depth
      invariant curdepth + w.depth[pos] == w.depth[tmp] && curdepth <= maxdepth && Deepest(w, pos, l[..k + 1], maxdepth)
      invariant if k == 0 then maxdepth == 0 else w.h[pos].first != null
      decreases |l| - k
    {
      ghost var k0 := k;
      while tmp.firstChild == null
        invariant k0 <= k < |l| && tmp == l[k] && tmp in w.h && tmp in w.depth
        invariant curdepth + w.depth[pos] == w.depth[tmp] && curdepth <= maxdepth && Deepest(w, pos, l[..k + 1], maxdepth)
        invariant if k == 0 then maxdepth == 0 else w.h[pos].first != null
        decreases |l| - k
      {
        CellOfIs(tmp);
        OnRoute(w, pos, l, k);
        SuccessorIs(w, tmp);
        AfterIs(w, tmp);
        if tmp == pos {
          return;
        }
        var up: Node? := tmp;
        if tmp.nextSibling == null {
          up, curdepth := ClimbToSibling(t, tmp, curdepth);
          if up == null {
            AlongTheRoute(w, pos, l, k, up);
            return;
          }
        }
        CellOfIs(up);
        AlongTheRoute(w, pos, l, k, up);
        if up == pos {
          return;
        }
        DeepestGrows(w, pos, l, k + 1, maxdepth, curdepth);
        tmp := up.nextSibling;
        k := k + 1;
      }
      CellOfIs(tmp);
      DownTheRoute(w, pos, l, k);
      DeepestGrows(w, pos, l, k + 1, maxdepth, curdepth + 1);
      tmp := tmp.firstChild;
      curdepth := curdepth + 1;
      maxdepth := if curdepth > maxdepth then curdepth else maxdepth;
      k := k + 1;
    }
  }

  /** What is found from pos: how deep its subtree goes if pos has no child or has a next
      sibling; otherwise how deep the rest of the tree goes. */
  ghost predicate MeasuredFrom(w: World, l: seq<Node>, pos: Node, m: int) {
    && pos in w.h
    && if w.h[pos].first == null || w.h[pos].next != null then Reaches(w, pos, m)
       else forall k | 0 <= k < |l| && l[k] == pos :: Deepest(w, pos, l[k..], m)
  }

  lemma MeasuredIs(w: World, l: seq<Node>, pos: Node, m: int)
    ensures MeasuredFrom(w, l, pos, m) <==>
      && pos in w.h
      && if w.h[pos].first == null || w.h[pos].next != null then Reaches(w, pos, m)
         else forall k | 0 <= k < |l| && l[k] == pos :: Deepest(w, pos, l[k..], m)
  {
    hide Reaches, Deepest;
  }

  /** The greatest depth from any place of a tree. */
  method MaxDepthBelow(t: Trees, head: Node, feet: Node, pos: Node?, ghost roots: seq<Node>, ghost l: seq<Node>)
    returns (maxdepth: int)
    requires t.Valid() && TopList(t.w, head, roots, feet) && IsForest(t.w, roots, feet, l)
    requires pos == null || pos == head || pos == feet || pos in l
    ensures if pos == null || pos == head || pos == feet then maxdepth == -1
            else MeasuredFrom(t.w, l, pos, maxdepth)
  {
    hide *;
    if pos == null || pos == head || pos == feet {
      return -1;
    }
    ghost var w := t.w;
    t.ValidIs();
    ForestIs(w, roots, feet, l);
    ListingIs(w, l);
    ghost var k: nat :| k < |l| && l[k] == pos;
    WalkIs(w, l, k);
    MeasuredIs(w, l, pos, 0);
    ghost var route;
    if w.h[pos].next != null {
      route := SubtreeListing(w, pos);
      ScanIsRoute(w, pos, route);
    } else {
      RestIsRoute(w, head, roots, feet, l, k);
      route := l[k..] + [feet];
    }
    maxdepth := MaxDepthAlong(t, pos, route);
    if w.h[pos].first == null {
      LeafReachesNothing(w, pos);
    } else if w.h[pos].next != null {
      ScanReaches(w, pos, route, maxdepth);
    } else {
      RootIs(w, head, roots, feet, |roots|);
      TopAtIs(roots, feet, |roots|);
      WithoutFeet(w, pos, l[k..], feet, maxdepth);
    }
    MeasuredIs(w, l, pos, maxdepth);
  }

  lemma ReachIsUnique(w: World, pos: Node, m: int, s: int)
    requires Reaches(w, pos, m) && Reaches(w, pos, s)
    ensures m == s
  {
    hide *;
    ReachesIs(w, pos, m);
    ReachesIs(w, pos, s);
  }

  /** What lies within a node comes no earlier in the listing. */
  lemma SubtreeComesLater(w: World, roots: seq<Node>, feet: Node, l: seq<Node>, k: nat, n: Node)
    requires IsForest(w, roots, feet, l) && k < |l| && n in w.h && Consistent(w) && Within(w, l[k], n)
    ensures n in l[k..]
  {
    hide *;
    ForestIs(w, roots, feet, l);
    ListingIs(w, l);
    WalkIs(w, l, k);
    WithinIs(w, l[k], n);
    InTreeIs(w, roots, l[k]);
    InTreeIs(w, roots, n);
    assert l[k] in l;
    if n == l[k] {
      assert l[k..][0] == n;
    } else {
      var r :| r in roots && Within(w, r, l[k]);
      WithinIs(w, r, l[k]);
      WithinIs(w, r, n);
      if r != l[k] { UnderTrans(w, r, l[k], n); }
      var i: nat :| i < |l| && l[i] == n;
      BelowIsUnder(w, l, k, i);
      BelowStep(Depths(w, l), k, i);
      assert l[k..][i - k] == n;
    }
  }

  /** What is found from pos is the depth of its subtree if and only if pos has no child,
      or has a next sibling, or no node after its subtree reaches deeper. */
  lemma MaxDepthIsOfSubtree(w: World, roots: seq<Node>, feet: Node, l: seq<Node>, k: nat, m: int, s: int)
    requires IsForest(w, roots, feet, l) && k < |l| && MeasuredFrom(w, l, l[k], m) && Reaches(w, l[k], s)
    ensures l[k] in w.h && l[k] in w.depth && forall n | n in l :: n in w.depth
    ensures m == s <==> w.h[l[k]].first == null || w.h[l[k]].next != null
                        || forall n | n in l[k..] && !Within(w, l[k], n) :: w.depth[n] <= w.depth[l[k]] + s
  {
    hide *;
    ForestIs(w, roots, feet, l);
    ListingIs(w, l);
    WalkIs(w, l, k);
    var pos := l[k];
    MeasuredIs(w, l, pos, m);
    ReachesIs(w, pos, s);
    if w.h[pos].first == null || w.h[pos].next != null {
      ReachIsUnique(w, pos, m, s);
    } else {
      DeepestIs(w, pos, l[k..], m);
      var n :| n in w.h && Within(w, pos, n) && n in w.depth && w.depth[n] == w.depth[pos] + s;
      SubtreeComesLater(w, roots, feet, l, k, n);
      var d :| d in l[k..] && d in w.depth && w.depth[d] == w.depth[pos] + m;
      assert d in l;
    }
  }

  // ---- An input on which the depth found is not that of the subtree ----

  /** The nodes of a tree, in pre-order between its head and its feet: a root with a child
      and a grandchild, and a second root with a chain of three. */
  datatype Chains = Chains(h: Node, r: Node, c: Node, g: Node, q: Node, x: Node, y: Node, z: Node, f: Node)

  ghost predicate HasCell(w: World, n: Node, cell: Cell, depth: nat, idx: nat) {
    && n in w.h && n in w.depth && n in w.idx && w.h[n] == cell && w.depth[n] == depth && w.idx[n] == idx
  }

  ghost predicate IsTwoChains(w: World, t: Chains) {
    && w.h.Keys == {t.h, t.r, t.c, t.g, t.q, t.x, t.y, t.z, t.f}
    && HasCell(w, t.h, Cell(null, null, null, null, t.r), 0, 0)
    && HasCell(w, t.r, Cell(null, t.c, t.c, t.h, t.q), 0, 1)
    && HasCell(w, t.c, Cell(t.r, t.g, t.g, null, null), 1, 0)
    && HasCell(w, t.g, Cell(t.c, null, null, null, null), 2, 0)
    && HasCell(w, t.q, Cell(null, t.x, t.x, t.r, t.f), 0, 2)
    && HasCell(w, t.x, Cell(t.q, t.y, t.y, null, null), 1, 0)
    && HasCell(w, t.y, Cell(t.x, t.z, t.z, null, null), 2, 0)
    && HasCell(w, t.z, Cell(t.y, null, null, null, null), 3, 0)
    && HasCell(w, t.f, Cell(null, null, null, t.q, null), 0, 3)
  }

  /** There is such a tree over any nine nodes. */
  lemma TwoChainsExist(t: Chains) returns (w: World)
    requires t.h !in {t.r, t.c, t.g, t.q, t.x, t.y, t.z, t.f} && t.r !in {t.c, t.g, t.q, t.x, t.y, t.z, t.f}
    requires t.c !in {t.g, t.q, t.x, t.y, t.z, t.f} && t.g !in {t.q, t.x, t.y, t.z, t.f}
    requires t.q !in {t.x, t.y, t.z, t.f} && t.x !in {t.y, t.z, t.f} && t.y !in {t.z, t.f} && t.z != t.f
    ensures IsTwoChains(w, t)
  {
    w := World(map[t.h := Cell(null, null, null, null, t.r), t.r := Cell(null, t.c, t.c, t.h, t.q),
                   t.c := Cell(t.r, t.g, t.g, null, null), t.g := Cell(t.c, null, null, null, null),
                   t.q := Cell(null, t.x, t.x, t.r, t.f), t.x := Cell(t.q, t.y, t.y, null, null),
                   t.y := Cell(t.x, t.z, t.z, null, null), t.z := Cell(t.y, null, null, null, null),
                   t.f := Cell(null, null, null, t.q, null)],
               map[t.h := 0, t.r := 0, t.c := 1, t.g := 2, t.q := 0, t.x := 1, t.y := 2, t.z := 3, t.f := 0],
               map[t.h := 0, t.r := 1, t.c := 0, t.g := 0, t.q := 2, t.x := 0, t.y := 0, t.z := 0, t.f := 3]);
  }

  lemma TwoChainsTop(w: World, t: Chains)
    requires IsTwoChains(w, t)
    ensures TopList(w, t.h, [t.r, t.q], t.f)
  {
    hide Consistent, NodeOk;
    forall n | n in w.h ensures NodeOk(w, n) { NodeIs(w, n); }
    ConsistentIs(w);
  }

  lemma TwoChainsSteps(w: World, t: Chains)
    requires IsTwoChains(w, t)
    ensures Consistent(w) && forall n | n in w.h :: n in w.depth
    ensures Successor(w, t.r) == t.c && Successor(w, t.c) == t.g && Successor(w, t.g) == t.q
    ensures Successor(w, t.q) == t.x && Successor(w, t.x) == t.y && Successor(w, t.y) == t.z
    ensures Successor(w, t.z) == t.f
  {
    TwoChainsTop(w, t);
    TopListAt(w, t.h, [t.r, t.q], t.f, 0);
    hide Consistent, NodeOk, Successor, After;
    SuccessorIs(w, t.r);
    SuccessorIs(w, t.c);
    SuccessorIs(w, t.g);
    SuccessorIs(w, t.q);
    SuccessorIs(w, t.x);
    SuccessorIs(w, t.y);
    SuccessorIs(w, t.z);
    AfterIs(w, t.g);
    AfterIs(w, t.c);
    AfterIs(w, t.r);
    AfterIs(w, t.z);
    AfterIs(w, t.y);
    AfterIs(w, t.x);
    AfterIs(w, t.q);
  }

  /** Below c there is g, and nothing else. */
  lemma TwoChainsBelow(w: World, t: Chains, n: Node)
    requires IsTwoChains(w, t) && Consistent(w) && n in w.h
    ensures Within(w, t.c, n) <==> n == t.c || n == t.g
  {
    hide Consistent, Under, NodeOk;
    if n != t.c && n != t.g && Under(w, t.c, n) {
      var k := UnderByChild(w, t.c, n);
      ParentHasChild(w, n);
      if k != n { var j := UnderByChild(w, t.g, n); }
    }
    UnderOfParent(w, t.c, t.g);
  }

  lemma TwoChainsFeet(w: World, t: Chains)
    requires IsTwoChains(w, t)
    ensures t.f !in {t.r, t.c, t.g, t.q, t.x, t.y, t.z}
    ensures t.c in w.depth && w.depth[t.c] == 1 && w.h.Keys == {t.h, t.r, t.c, t.g, t.q, t.x, t.y, t.z, t.f}
    ensures t.g in w.depth && w.depth[t.g] == 2 && t.z in w.depth && w.depth[t.z] == 3
    ensures t.q in w.depth && w.depth[t.q] == 0 && t.x in w.depth && w.depth[t.x] == 1 && t.y in w.depth
    ensures w.depth[t.y] == 2 && w.h[t.c].first != null && w.h[t.c].next == null
  {
  }

  lemma TwoChainsListing(w: World, t: Chains, l: seq<Node>)
    requires IsTwoChains(w, t) && IsForest(w, [t.r, t.q], t.f, l)
    ensures l == [t.r, t.c, t.g, t.q, t.x, t.y, t.z]
  {
    hide *;
    TwoChainsTop(w, t);
    TwoChainsSteps(w, t);
    TwoChainsFeet(w, t);
    var roots := [t.r, t.q];
    ForestIs(w, roots, t.f, l);
    ForestStep(w, t.h, roots, t.f, l, 0);
    ForestStep(w, t.h, roots, t.f, l, 1);
    ForestStep(w, t.h, roots, t.f, l, 2);
    ForestStep(w, t.h, roots, t.f, l, 3);
    ForestStep(w, t.h, roots, t.f, l, 4);
    ForestStep(w, t.h, roots, t.f, l, 5);
    ForestStep(w, t.h, roots, t.f, l, 6);
    assert |l| == 7;
  }

  /** From c, whose subtree goes 1 deep, the code finds 2. */
  lemma DeeperThanSubtree(w: World, t: Chains, l: seq<Node>, m: int, s: int)
    requires IsTwoChains(w, t) && IsForest(w, [t.r, t.q], t.f, l)
    requires MeasuredFrom(w, l, t.c, m) && Reaches(w, t.c, s)
    ensures m == 2 && s == 1
  {
    hide *;
    TwoChainsListing(w, t, l);
    TwoChainsFeet(w, t);
    ReachesIs(w, t.c, s);
    TwoChainsBelow(w, t, t.c);
    TwoChainsBelow(w, t, t.g);
    var n :| n in w.h && Within(w, t.c, n) && n in w.depth && w.depth[n] == w.depth[t.c] + s;
    TwoChainsBelow(w, t, n);
    MeasuredIs(w, l, t.c, m);
    var tail := l[1..];
    assert l[1] == t.c && tail == [t.c, t.g, t.q, t.x, t.y, t.z];
    DeepestIs(w, t.c, tail, m);
    assert t.z in tail;
  }

  /** m is the greatest depth of the nodes within the roots, and -1 when there are none. */
  ghost predicate GreatestDepth(w: World, roots: seq<Node>, m: int) {
    && Consistent(w) && m >= -1 && (roots == [] ==> m == -1)
    && (forall r, n | r in roots && n in w.h && Within(w, r, n) :: n in w.depth && w.depth[n] <= m)
    && (roots != [] ==>
          exists r, n :: r in roots && n in w.h && Within(w, r, n) && n in w.depth && w.depth[n] == m)
  }

  lemma GreatestIs(w: World, roots: seq<Node>, m: int)
    ensures GreatestDepth(w, roots, m) <==>
      && Consistent(w) && m >= -1 && (roots == [] ==> m == -1)
      && (forall r, n | r in roots && n in w.h && Within(w, r, n) :: n in w.depth && w.depth[n] <= m)
      && (roots != [] ==>
            exists r, n :: r in roots && n in w.h && Within(w, r, n) && n in w.depth && w.depth[n] == m)
  {
    hide Consistent, Within;
  }

  lemma NoRoots(w: World)
    requires Consistent(w)
    ensures GreatestDepth(w, [], -1)
  {
  }

  lemma OneMoreRoot(w: World, roots: seq<Node>, m: int, r: Node, d: int)
    requires GreatestDepth(w, roots, m) && Reaches(w, r, d) && r in w.depth && w.depth[r] == 0
    ensures GreatestDepth(w, roots + [r], if d > m then d else m)
  {
    hide *;
    ReachesIs(w, r, d);
    GreatestIs(w, roots, m);
    var rs := roots + [r];
    GreatestIs(w, rs, if d > m then d else m);
    assert r in rs && forall q | q in rs :: q in roots || q == r;
    if d > m {
      var n :| n in w.h && Within(w, r, n) && n in w.depth && w.depth[n] == w.depth[r] + d;
      assert r in rs && n in w.h && Within(w, r, n) && n in w.depth && w.depth[n] == d;
    } else if roots != [] {
      var q, n :| q in roots && n in w.h && Within(w, q, n) && n in w.depth && w.depth[n] == m;
      assert q in rs && n in w.h && Within(w, q, n) && n in w.depth && w.depth[n] == m;
    }
  }

  /** The greatest depth in a tree: the roots from head to feet, one after the other. */
  method MaxDepth(t: Trees, head: Node, feet: Node, ghost roots: seq<Node>) returns (maxd: int)
    requires t.Valid() && TopList(t.w, head, roots, feet)
    ensures GreatestDepth(t.w, roots, maxd)
  {
    hide *;
    maxd := -1;
    ghost var i: nat, w := 0, t.w;
    t.ValidIs();
    StoredIs(w);
    TopListAt(w, head, roots, feet, 0);
    ghost var l := ForestListing(w, head, roots, feet);
    CellOfIs(head);
    TopAtIs(roots, feet, 0);
    NoRoots(w);
    var it: Node? := head.nextSibling;
    while it != feet
      invariant i <= |roots| && it == TopAt(roots, feet, i)
      invariant GreatestDepth(w, roots[..i], maxd)
      decreases |roots| - i
    {
      TopListAt(w, head, roots, feet, i);
      TopAtIs(roots, feet, i);
      RootIs(w, head, roots, feet, i);
      RootInListing(w, head, roots, feet, l, i);
      var d := MaxDepthBelow(t, head, feet, it, roots, l);
      MeasuredIs(w, l, it, d);
      OneMoreRoot(w, roots[..i], maxd, it, d);
      maxd := if d > maxd then d else maxd;
      assert roots[..i + 1] == roots[..i] + [it];
      CellOfIs(it);
      it := it.nextSibling;
      i := i + 1;
      TopAtIs(roots, feet, i);
    }
    TopAtIs(roots, feet, i);
    if i < |roots| { TopListAt(w, head, roots, feet, i); }
    assert roots[..i] == roots;
  }

  lemma RootInListing(w: World, head: Node, roots: seq<Node>, feet: Node, l: seq<Node>, i: nat)
    requires TopList(w, head, roots, feet) && IsForest(w, roots, feet, l) && i < |roots|
    ensures roots[i] in l && roots[i] != head && roots[i] in w.h
  {
    hide *;
    TopListAt(w, head, roots, feet, i);
    RootIs(w, head, roots, feet, i);
    TopAtIs(roots, feet, i);
    ForestIs(w, roots, feet, l);
    InTreeIs(w, roots, roots[i]);
    WithinIs(w, roots[i], roots[i]);
    HeadIsFirst(w, head, roots, feet, i);
  }

  /** The head comes before every root and is none of them. */
  lemma {:induction false} HeadIsFirst(w: World, head: Node, roots: seq<Node>, feet: Node, i: nat)
    requires TopList(w, head, roots, feet) && i <= |roots|
    ensures var r := TopAt(roots, feet, i);
            r in w.h && r in w.idx && head in w.idx && w.idx[head] < w.idx[r] && r != head
  {
    hide *;
    TopListAt(w, head, roots, feet, i);
    TopAtIs(roots, feet, i);
    RootIs(w, head, roots, feet, i);
    var r := TopAt(roots, feet, i);
    if i == 0 {
      SiblingIs(w, head);
    } else {
      HeadIsFirst(w, head, roots, feet, i - 1);
      TopListAt(w, head, roots, feet, i - 1);
      TopAtIs(roots, feet, i - 1);
      SiblingIs(w, roots[i - 1]);
    }
    LaterNumber(w, r);
  }
}
