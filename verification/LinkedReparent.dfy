/** Moving a subtree by its links: put a dummy where it is to go, replace the dummy with
    a copy of the subtree, erase the original. In the listing of the tree this is the
    move of a slice. */
module LinkedReparent {
  import opened LinkedNodes
  import opened LinkedCopy
  import opened LinkedReplace
  import opened LinkedTree
  import opened LinkedWalk
  import opened LinkedMove
  import PreOrder
  import Edits
  import Filters

  // ---- A new childless node does not change who is below whom ----

  lemma WithinStable(w: World, w': World, a: Node, n: Node)
    requires Consistent(w) && Consistent(w') && n in w.h && n in w'.h
    requires forall m | m in w'.h && m in w.h :: w'.h[m].parent == w.h[m].parent
    ensures Within(w', a, n) <==> Within(w, a, n)
  {
    hide *;
    WithinIs(w, a, n);
    WithinIs(w', a, n);
    UnderStable(w, w', a, n);
  }

  lemma InsertKeepsParents(w: World, p: Node?, a: Node?, b: Node?, x: Node, w': World)
    requires IsLinkedIn(w, p, a, b, x, w')
    ensures forall m | m in w'.h && m in w.h :: w'.h[m].parent == w.h[m].parent
    ensures x in w'.h && x !in w.h && w'.h[x] == Cell(p, null, null, a, b) && w'.h[x].first == null
    ensures w'.h[x].parent == p && w'.h[x].prev == a && w'.h[x].next == b
    ensures forall m | m in w.h :: m in w'.h
    ensures forall m | m in w'.h :: m in w.h || m == x
  {
  }

  lemma ChildlessHasNothingBelow(w: World, x: Node, n: Node)
    requires Consistent(w) && x in w.h && n in w.h && w.h[x].first == null
    ensures !Under(w, x, n)
  {
    if Under(w, x, n) {
      var c := UnderByChild(w, x, n);
      ParentHasChild(w, c);
    }
  }

  /** Outside the subtree at moved, or at the top of a tree. */
  ghost predicate Outside(w: World, moved: Node, p: Node?)
    requires Consistent(w)
  {
    p == null || (p in w.h && !Within(w, moved, p))
  }

  lemma OutsideIs(w: World, moved: Node, p: Node?)
    requires Consistent(w)
    ensures Outside(w, moved, p) <==> p == null || (p in w.h && !Within(w, moved, p))
  {
    hide Consistent, Within;
  }

  /** The dummy in a gap outside the subtree is apart from the subtree. */
  lemma DummyIsApart(w: World, p: Node?, a: Node?, b: Node?, x: Node, w': World, moved: Node)
    requires Consistent(w) && Consistent(w') && IsLinkedIn(w, p, a, b, x, w')
    requires moved in w.h && Outside(w, moved, p)
    ensures Apart(w', x, moved)
  {
    hide *;
    OutsideIs(w, moved, p);
    InsertKeepsParents(w, p, a, b, x, w');
    if p != null {
      WithinStable(w, w', moved, p);
      WithinIs(w', moved, p);
    }
    WithinIs(w', moved, x);
    WithinIs(w', x, moved);
    UnderOfParent(w', moved, x);
    ChildlessHasNothingBelow(w', x, moved);
    ApartIs(w', x, moved);
  }

  lemma ReplaceKeepsParents(w: World, pos: Node, from: Node, x: Node, cp: map<Node, Node>, w': World)
    requires Consistent(w) && IsReplaced(w, pos, from, x, cp, w')
    ensures forall m | m in w'.h && m in w.h :: w'.h[m].parent == w.h[m].parent
    ensures IsCopy(w, from, cp, w') && pos in w.h && x in w'.h && from in cp && cp[from] == x
    ensures w'.h[x].parent == w.h[pos].parent && w'.h[x].prev == w.h[pos].prev && w'.h[x].next == w.h[pos].next
    ensures forall n | n in w.h :: n in w'.h <==> !Within(w, pos, n)
    ensures forall y | y in w'.h :: y in w.h || y in cp.Values
  {
    hide Consistent, Within, IsCopy;
  }

  /** No copy lies below the original. */
  lemma {:induction false} CopiesAreOutside(w: World, from: Node, x: Node, cp: map<Node, Node>, w': World, n: Node)
    requires Consistent(w) && Consistent(w') && IsCopy(w, from, cp, w') && from in cp && cp[from] == x
    requires x in w'.h && Outside(w', from, w'.h[x].parent) && from in w'.h && x != from
    requires forall k | k in cp :: cp[k] !in w.h
    requires n in cp && n in w.depth && from in w.h
    ensures cp[n] in w'.h && !Within(w', from, cp[n])
    decreases w.depth[n]
  {
    hide *;
    IsCopyIs(w, from, cp, w');
    CopiedNodeHas(w, from, cp, w', n);
    CopiedNodeIs(w, from, cp, w', n);
    WithinIs(w', from, cp[n]);
    UnderOfParent(w', from, cp[n]);
    if n == from {
      OutsideIs(w', from, w'.h[x].parent);
      if w'.h[x].parent != null { WithinIs(w', from, w'.h[x].parent); }
    } else {
      NumberIs(w, n);
      WithinIs(w, from, n);
      UnderOfParent(w, from, n);
      var p: Node := w.h[n].parent;
      WithinIs(w, from, p);
      ImageValue(cp, p);
      CopiesAreOutside(w, from, x, cp, w', p);
      WithinIs(w', from, cp[p]);
    }
  }

  lemma UnlinkedIs(c: Cell, n: Node, p: Node?, a: Node?, b: Node?)
    ensures n != p ==> Unlinked(c, n, p, a, b).first == c.first && Unlinked(c, n, p, a, b).last == c.last
    ensures n != a && n != b && n != p ==> Unlinked(c, n, p, a, b) == c
    ensures Unlinked(c, n, p, a, b).parent == c.parent
    ensures Unlinked(c, n, p, a, b).next == if n == a then b else c.next
    ensures Unlinked(c, n, p, a, b).prev == if n == b then a else c.prev
  {
  }

  /** Erasing the original leaves its copy a copy. */
  lemma CopySurvives(w: World, from: Node, x: Node, cp: map<Node, Node>, w2: World, w3: World, n: Node)
    requires Consistent(w) && Consistent(w2) && IsCopy(w, from, cp, w2) && from in cp && cp[from] == x
    requires x in w2.h && Outside(w2, from, w2.h[x].parent) && from in w2.h && x != from
    requires forall k | k in cp :: cp[k] !in w.h
    requires forall m | m in w2.h && m in w.h :: w2.h[m].parent == w.h[m].parent
    requires w2.h[from].parent in w.h || w2.h[from].parent == null
    requires from in w.h && IsErased(w2, from, w3) && n in cp
    ensures CopiedNode(w, from, cp, w3, n)
  {
    hide *;
    IsCopyIs(w, from, cp, w2);
    CopiedNodeHas(w, from, cp, w2, n);
    CopiedNodeIs(w, from, cp, w2, n);
    NumberIs(w, n);
    CopiesAreOutside(w, from, x, cp, w2, n);
    ErasedCell(w2, from, w3, cp[n]);
    CopiedNodeIs(w, from, cp, w3, n);
    var p, a, b := w2.h[from].parent, w2.h[from].prev, w2.h[from].next;
    SiblingIs(w2, from);
    if n != from {
      WithinIs(w, from, n);
      UnderOfParent(w, from, n);
      WithinIs(w, from, w.h[n].parent);
      ImageValue(cp, w.h[n].parent);
      assert w2.h[cp[n]].parent == cp[w.h[n].parent];
    }
    UnlinkedIs(w2.h[cp[n]], cp[n], p, a, b);
  }

  // ---- The three steps together ----

  /** The first two steps of a move: the trees before, with the dummy in the gap (p, a, b),
      and with the copy of the subtree at moved in the dummy's place. */
  datatype Moving = Moving(w0: World, p: Node?, a: Node?, b: Node?, dummy: Node, w1: World,
                           moved: Node, top: Node, cp: map<Node, Node>, w2: World)

  ghost predicate Prepared(v: Moving) {
    && Consistent(v.w0) && Consistent(v.w1) && Consistent(v.w2)
    && Gap(v.w0, v.p, v.a, v.b) && IsLinkedIn(v.w0, v.p, v.a, v.b, v.dummy, v.w1)
    && v.moved in v.w0.h && Outside(v.w0, v.moved, v.p)
    && IsReplaced(v.w1, v.dummy, v.moved, v.top, v.cp, v.w2)
    && forall k | k in v.cp :: v.cp[k] !in v.w1.h
  }

  lemma PreparedIs(v: Moving)
    ensures Prepared(v) <==>
      && Consistent(v.w0) && Consistent(v.w1) && Consistent(v.w2)
      && Gap(v.w0, v.p, v.a, v.b) && IsLinkedIn(v.w0, v.p, v.a, v.b, v.dummy, v.w1)
      && v.moved in v.w0.h && Outside(v.w0, v.moved, v.p)
      && IsReplaced(v.w1, v.dummy, v.moved, v.top, v.cp, v.w2)
      && forall k | k in v.cp :: v.cp[k] !in v.w1.h
  {
    hide Consistent, Gap, IsLinkedIn, Outside, IsReplaced;
  }

  lemma RelinkedTwice(c: Cell, n: Node, p: Node?, a: Node?, b: Node?, x: Node, y: Node)
    ensures Relinked(Relinked(c, n, p, a, b, x), n, p, a, b, y) == Relinked(c, n, p, a, b, y)
  {
  }

  /** All old nodes are there before the erasure, in their old places but for the gap. */
  lemma OldNodes(v: Moving, n: Node)
    requires Prepared(v) && n in v.w0.h
    ensures n in v.w1.h && n in v.w2.h && v.w2.h[n] == Relinked(v.w0.h[n], n, v.p, v.a, v.b, v.top)
    ensures v.w1.h[n].parent == v.w0.h[n].parent && v.w2.h[n].parent == v.w0.h[n].parent
    ensures v.dummy in v.w1.h && v.dummy !in v.w0.h
    ensures Consistent(v.w0) && Consistent(v.w1) && Consistent(v.w2)
    ensures Within(v.w1, v.moved, n) <==> Within(v.w0, v.moved, n)
    ensures Within(v.w2, v.moved, n) <==> Within(v.w0, v.moved, n)
  {
    hide *;
    PreparedIs(v);
    InsertKeepsParents(v.w0, v.p, v.a, v.b, v.dummy, v.w1);
    ReplaceKeepsParents(v.w1, v.dummy, v.moved, v.top, v.cp, v.w2);
    ChildlessHasNothingBelow(v.w1, v.dummy, n);
    WithinIs(v.w1, v.dummy, n);
    IsReplacedIs(v.w1, v.dummy, v.moved, v.top, v.cp, v.w2);
    LinkedInCell(v.w0, v.p, v.a, v.b, v.dummy, v.w1, n);
    RelinkedTwice(v.w0.h[n], n, v.p, v.a, v.b, v.dummy, v.top);
    WithinStable(v.w0, v.w1, v.moved, n);
    WithinStable(v.w1, v.w2, v.moved, n);
  }

  /** The copy's top is in the gap, outside the original, and the copies are new. */
  lemma TopInGap(v: Moving)
    requires Prepared(v)
    ensures Consistent(v.w1) && IsCopy(v.w1, v.moved, v.cp, v.w2) && v.moved in v.cp && v.cp[v.moved] == v.top
    ensures v.top in v.w2.h && v.w2.h[v.top].parent == v.p && v.w2.h[v.top].prev == v.a && v.w2.h[v.top].next == v.b
    ensures v.moved in v.w1.h && v.moved in v.w2.h && v.top != v.moved && v.top !in v.w0.h && v.top !in v.w1.h
    ensures Consistent(v.w2) && Outside(v.w2, v.moved, v.p)
    ensures forall y | y in v.w2.h :: y in v.w0.h || y in v.cp.Values
  {
    hide *;
    PreparedIs(v);
    InsertKeepsParents(v.w0, v.p, v.a, v.b, v.dummy, v.w1);
    ReplaceKeepsParents(v.w1, v.dummy, v.moved, v.top, v.cp, v.w2);
    OldNodes(v, v.moved);
    WithinIs(v.w1, v.dummy, v.dummy);
    OutsideIs(v.w0, v.moved, v.p);
    OutsideIs(v.w2, v.moved, v.p);
    if v.p != null { OldNodes(v, v.p); }
  }

  lemma CopiesBeforeErase(v: Moving, n: Node)
    requires Prepared(v) && n in v.cp
    ensures n in v.w0.h && Consistent(v.w0) && Within(v.w0, v.moved, n) && v.cp[n] !in v.w0.h
    ensures Consistent(v.w2) && v.cp[n] in v.w2.h && !Within(v.w2, v.moved, v.cp[n])
  {
    hide *;
    PreparedIs(v);
    TopInGap(v);
    InsertKeepsParents(v.w0, v.p, v.a, v.b, v.dummy, v.w1);
    IsCopyIs(v.w1, v.moved, v.cp, v.w2);
    NumberIs(v.w1, n);
    CopiesAreOutside(v.w1, v.moved, v.top, v.cp, v.w2, n);
    DummyIsApart(v.w0, v.p, v.a, v.b, v.dummy, v.w1, v.moved);
    ApartIs(v.w1, v.dummy, v.moved);
    OldNodes(v, n);
  }

  /** The moved subtree is gone; an exact copy of it stands in the gap (p, a, b); all other
      nodes are there, and their links have changed only around the gap and where the
      subtree was. */
  ghost predicate IsMoved(w: World, moved: Node, p: Node?, a: Node?, b: Node?, top: Node, cp: map<Node, Node>, w': World)
    requires Consistent(w)
  {
    && moved in w.h && moved in cp && cp[moved] == top && top in w'.h
    && IsCopy(w, moved, cp, w')
    && (forall n | n in w.h :: n in w'.h <==> !Within(w, moved, n))
    && (forall y | y in w'.h :: y in w.h || y in cp.Values)
    && var c := Relinked(w.h[moved], moved, p, a, b, top);
    && w'.h[top].parent == p
    && w'.h[top].prev == (if a == moved then c.prev else a)
    && w'.h[top].next == (if b == moved then c.next else b)
    && forall n | n in w.h && n in w'.h ::
         w'.h[n] == Unlinked(Relinked(w.h[n], n, p, a, b, top), n, c.parent, c.prev, c.next)
  }

  lemma IsMovedIs(w: World, moved: Node, p: Node?, a: Node?, b: Node?, top: Node, cp: map<Node, Node>, w': World)
    requires Consistent(w)
    ensures IsMoved(w, moved, p, a, b, top, cp, w') <==>
      && moved in w.h && moved in cp && cp[moved] == top && top in w'.h
      && IsCopy(w, moved, cp, w')
      && (forall n | n in w.h :: n in w'.h <==> !Within(w, moved, n))
      && (forall y | y in w'.h :: y in w.h || y in cp.Values)
      && var c := Relinked(w.h[moved], moved, p, a, b, top);
      && w'.h[top].parent == p
      && w'.h[top].prev == (if a == moved then c.prev else a)
      && w'.h[top].next == (if b == moved then c.next else b)
      && forall n | n in w.h && n in w'.h ::
           w'.h[n] == Unlinked(Relinked(w.h[n], n, p, a, b, top), n, c.parent, c.prev, c.next)
  {
    hide Consistent, IsCopy, Within, Relinked, Unlinked;
  }

  /** The dummy changed nothing inside the subtree. */
  lemma SourceBeforeInsert(v: Moving, w3: World, n: Node)
    requires Prepared(v) && n in v.w0.h && Consistent(v.w0) && Within(v.w0, v.moved, n)
    requires CopiedNode(v.w1, v.moved, v.cp, w3, n)
    ensures CopiedNode(v.w0, v.moved, v.cp, w3, n)
  {
    hide *;
    PreparedIs(v);
    OutsideIs(v.w0, v.moved, v.p);
    GapIs(v.w0, v.p, v.a, v.b);
    LinkedInCell(v.w0, v.p, v.a, v.b, v.dummy, v.w1, n);
    UntouchedCell(v.w0.h[n], n, v.p, v.a, v.b, v.dummy);
    CopiedNodeHas(v.w1, v.moved, v.cp, w3, n);
    CopiedNodeIs(v.w1, v.moved, v.cp, w3, n);
    CopiedNodeIs(v.w0, v.moved, v.cp, w3, n);
    WithinIs(v.w0, v.moved, n);
    UnderOfParent(v.w0, v.moved, n);
    if n != v.moved {
      WithinIs(v.w0, v.moved, v.w0.h[n].parent);
    }
  }

  /** Insert, replace and erase add up to the move. */
  lemma MovedIs(v: Moving, w3: World)
    requires Prepared(v) && v.moved in v.w2.h && Consistent(v.w2) && Consistent(w3) && IsErased(v.w2, v.moved, w3)
    ensures Consistent(v.w0) && IsMoved(v.w0, v.moved, v.p, v.a, v.b, v.top, v.cp, w3)
  {
    hide *;
    PreparedIs(v);
    TopInGap(v);
    OldNodes(v, v.moved);
    IsCopyIs(v.w1, v.moved, v.cp, v.w2);
    IsErasedIs(v.w2, v.moved, w3);
    forall n | n in v.w0.h ensures n in w3.h <==> !Within(v.w0, v.moved, n) {
      OldNodes(v, n);
      ErasedCell(v.w2, v.moved, w3, n);
    }
    var c := v.w2.h[v.moved];
    forall n | n in v.w0.h && n in w3.h
      ensures w3.h[n] == Unlinked(Relinked(v.w0.h[n], n, v.p, v.a, v.b, v.top), n, c.parent, c.prev, c.next)
    {
      OldNodes(v, n);
      ErasedCell(v.w2, v.moved, w3, n);
    }
    forall n | n in v.cp ensures n in v.w0.h && Within(v.w0, v.moved, n) && CopiedNode(v.w0, v.moved, v.cp, w3, n) {
      CopiesBeforeErase(v, n);
      SourceHasParents(v);
      CopySurvives(v.w1, v.moved, v.top, v.cp, v.w2, w3, n);
      SourceBeforeInsert(v, w3, n);
    }
    forall n | n in v.w0.h && Within(v.w0, v.moved, n) ensures n in v.cp { OldNodes(v, n); }
    IsCopyIs(v.w0, v.moved, v.cp, w3);
    CopiesBeforeErase(v, v.moved);
    ErasedCell(v.w2, v.moved, w3, v.top);
    UnlinkedIs(v.w2.h[v.top], v.top, c.parent, c.prev, c.next);
    TopIsNeighbour(v);
    IsMovedIs(v.w0, v.moved, v.p, v.a, v.b, v.top, v.cp, w3);
  }

  lemma SourceHasParents(v: Moving)
    requires Prepared(v)
    ensures forall m | m in v.w2.h && m in v.w1.h :: v.w2.h[m].parent == v.w1.h[m].parent
    ensures v.moved in v.w2.h && (v.w2.h[v.moved].parent in v.w1.h || v.w2.h[v.moved].parent == null)
  {
    hide *;
    PreparedIs(v);
    ReplaceKeepsParents(v.w1, v.dummy, v.moved, v.top, v.cp, v.w2);
    OldNodes(v, v.moved);
    SiblingIs(v.w1, v.moved);
  }

  /** The copy's top is next to the original exactly if the gap was. */
  lemma TopIsNeighbour(v: Moving)
    requires Prepared(v)
    ensures v.moved in v.w2.h && (v.w2.h[v.moved].next == v.top <==> v.a == v.moved)
    ensures v.w2.h[v.moved].prev == v.top <==> v.b == v.moved
  {
    hide *;
    PreparedIs(v);
    OldNodes(v, v.moved);
    TopInGap(v);
    RelinkedLinks(v.w0.h[v.moved], v.moved, v.p, v.a, v.b, v.top);
    SiblingIs(v.w0, v.moved);
  }

  // ---- The move in the listing ----

  /** The list without a node. */
  function Dropped(s: seq<Node>, x: Node): (r: seq<Node>) {
    if s == [] then [] else (if s[0] == x then [] else [s[0]]) + Dropped(s[1..], x)
  }

  lemma {:induction false} DroppedNone(s: seq<Node>, x: Node)
    requires x !in s
    ensures Dropped(s, x) == s
  {
    if s != [] {
      assert s[0] in s;
      DroppedNone(s[1..], x);
    }
  }

  lemma {:induction false} DroppedAt(s: seq<Node>, i: nat)
    requires i < |s| && forall j, k | 0 <= j < k < |s| :: s[j] != s[k]
    ensures Dropped(s, s[i]) == s[..i] + s[i + 1..]
  {
    var t := s[1..];
    if i == 0 {
      DroppedNone(t, s[0]);
    } else {
      forall j, k | 0 <= j < k < |t| ensures t[j] != t[k] { assert s[j + 1] != s[k + 1]; }
      assert t[i - 1] == s[i];
      DroppedAt(t, i - 1);
      assert s[..i] == [s[0]] + t[..i - 1];
      assert s[i + 1..] == t[i..];
    }
  }

  lemma RootsDiffer(w: World, head: Node, roots: seq<Node>, feet: Node)
    requires TopList(w, head, roots, feet)
    ensures forall j, k | 0 <= j < k < |roots| :: roots[j] != roots[k]
  {
    hide *;
    forall j, k | 0 <= j < k < |roots| ensures roots[j] != roots[k] {
      TopStep(w, head, roots, feet, k);
      TopAtIs(roots, feet, j);
    }
  }

  /** Erasing a node of the tree drops its block from the listing and, if it is a root,
      the node from the roots. */
  lemma ErasedForest(w: World, head: Node, roots: seq<Node>, feet: Node, l: seq<Node>, x: Node, w': World, m: nat,
                     s: seq<Node>)
    requires TopList(w, head, roots, feet) && IsForest(w, roots, feet, l)
    requires Consistent(w) && Consistent(w') && x in w.h && IsErased(w, x, w') && IsScan(w, x, s)
    requires m + |s| <= |l| && l[m..m + |s|] == s && |s| < |l|
    ensures TopList(w', head, Dropped(roots, x), feet)
    ensures IsForest(w', Dropped(roots, x), feet, l[..m] + l[m + |s|..])
  {
    hide *;
    ForestIs(w, roots, feet, l);
    ListingIs(w, l);
    ScanIs(w, x, s);
    ScanStep(w, x, s, |s| - 1);
    InPlace(w, head, roots, feet, l, m + |s| - 1);
    InPlace(w, head, roots, feet, l, 0);
    assert l[m] == l[m..m + |s|][0] && l[m + |s| - 1] == l[m..m + |s|][|s| - 1];
    TopAtIs(l, feet, m + |s|);
    AfterIs(w, x);
    if i: nat :| i < |roots| && roots[i] == x {
      RootsDiffer(w, head, roots, feet);
      DroppedAt(roots, i);
      TopErased(w, w', head, roots, feet, i);
      TopStep(w, head, roots, feet, i);
      TopStep(w, head, roots, feet, 0);
      TopAtIs(roots, feet, i + 1);
      TopAtIs(roots, feet, 0);
      assert l[m] == x;
      if m == 0 { assert i == 0; }
    } else {
      assert x !in roots;
      DroppedNone(roots, x);
      NoRootHasParent(w, head, roots, feet, l, x, m);
      TopErasedBelow(w, x, w', head, roots, feet);
    }
    ErasedListing(w, head, roots, feet, l, x, w', Dropped(roots, x), m, s);
  }

  /** A node of the tree that is none of the roots has a parent. */
  lemma NoRootHasParent(w: World, head: Node, roots: seq<Node>, feet: Node, l: seq<Node>, x: Node, m: nat)
    requires TopList(w, head, roots, feet) && IsForest(w, roots, feet, l) && m < |l| && l[m] == x && x !in roots
    ensures x in w.h && w.h[x].parent != null
  {
    hide *;
    ForestIs(w, roots, feet, l);
    InPlace(w, head, roots, feet, l, m);
    InTreeIs(w, roots, x);
    assert l[m] in l;
    var r :| r in roots && Within(w, r, x);
    WithinIs(w, r, x);
    UnderOfParent(w, r, x);
  }

  /** A subtree that no step changes inside has the same listing afterwards. */
  lemma ScanKept(w: World, w': World, start: Node, s: seq<Node>)
    requires IsScan(w, start, s) && Consistent(w) && Consistent(w') && start in w'.h
    requires forall n | n in s :: n in w'.h
    requires forall n | n in w'.h :: Within(w', start, n) <==> n in s
    requires forall n, r | n in s && n in w.h && n in w.depth && n in w'.depth && r == Successor(w, n) && r in s
                           && r != start :: Successor(w', n) == r
    ensures IsScan(w', start, s)
  {
    hide *;
    ScanIs(w, start, s);
    ListingIs(w, s);
    forall n | n in s ensures n in w'.depth { NumberIs(w', n); }
    forall i, j | 0 <= i < |s| && j == i + 1 && j < |s|
      ensures s[i] in w'.h && s[i] in w'.depth && s[j] == Successor(w', s[i])
    {
      WalkIs(w, s, i);
      assert s[i] in s && s[j] in s;
    }
    WalkByStep(w', s);
    WalkIsScan(w', start, s);
  }

  /** The subtree of a node is a slice of the listing. */
  lemma SliceIsScan(w: World, roots: seq<Node>, feet: Node, l: seq<Node>, k: nat)
    requires IsForest(w, roots, feet, l) && k < |l|
    ensures forall n | n in l :: n in w.depth
    ensures IsScan(w, l[k], l[k..PreOrder.End(Depths(w, l), k)])
  {
    hide *;
    ForestIs(w, roots, feet, l);
    ListingIs(w, l);
    WalkIs(w, l, k);
    var e := PreOrder.End(Depths(w, l), k);
    TailIsWalk(w, l, k);
    HeadIsWalk(w, l[k..], e - k);
    var s := l[k..e];
    assert l[k..][..e - k] == s;
    forall n | n in w.h ensures n in s <==> Within(w, l[k], n) { SubtreeInListing(w, roots, feet, l, k, n); }
    WalkIsScan(w, l[k], s);
  }

  lemma HeadIsWalk(w: World, l: seq<Node>, k: nat)
    requires IsWalk(w, l) && k <= |l|
    ensures IsWalk(w, l[..k])
  {
    hide Consistent, Successor;
    var r := l[..k];
    forall i, j | 0 <= i < |r| && j == i + 1 && j < |r|
      ensures r[i] in w.h && r[i] in w.depth && r[j] == Successor(w, r[i])
    {
      assert r[i] == l[i] && r[j] == l[j];
    }
  }

  /** What follows a node outside a subtree is outside it too, or is its top. */
  lemma {:induction false} AfterEnters(w: World, a: Node, n: Node)
    requires Consistent(w) && a in w.h && n in w.h && n in w.depth && !Within(w, a, n)
    ensures var r := After(w, n); r != null ==> r in w.h && (r == a || !Within(w, a, r))
    decreases w.depth[n]
  {
    hide *;
    AfterIs(w, n);
    NumberIs(w, n);
    SiblingIs(w, n);
    WithinIs(w, a, n);
    UnderOfParent(w, a, n);
    var b, p := w.h[n].next, w.h[n].parent;
    if b != null {
      UnderSameParent(w, a, n, b);
      WithinIs(w, a, b);
    } else if p != null {
      WithinIs(w, a, p);
      AfterEnters(w, a, p);
    }
  }

  /** A gap outside the subtree is not before one of its inner nodes. */
  lemma GapIsOutside(v: Moving)
    requires Prepared(v)
    ensures Consistent(v.w0) && (v.p != null ==> v.p in v.w0.h && v.p in v.w0.depth)
    ensures var r := AfterGap(v.w0, v.p, v.b); r != null ==> r in v.w0.h && (r == v.moved || !Within(v.w0, v.moved, r))
  {
    hide *;
    PreparedIs(v);
    GapIs(v.w0, v.p, v.a, v.b);
    OutsideIs(v.w0, v.moved, v.p);
    if v.p != null { NumberIs(v.w0, v.p); }
    AfterGapIs(v.w0, v.p, v.b);
    if v.b != null {
      WithinIs(v.w0, v.moved, v.b);
      UnderOfParent(v.w0, v.moved, v.b);
      if v.p != null { WithinIs(v.w0, v.moved, v.p); }
    } else if v.p != null {
      AfterEnters(v.w0, v.moved, v.p);
    }
  }

  lemma ScanAfterInsert(v: Moving, s: seq<Node>)
    requires Prepared(v) && IsScan(v.w0, v.moved, s)
    ensures IsScan(v.w1, v.moved, s) && forall n | n in s :: n in v.w0.h
  {
    hide *;
    PreparedIs(v);
    ScanMembers(v.w0, v.moved, s);
    GapIsOutside(v);
    DummyIsApart(v.w0, v.p, v.a, v.b, v.dummy, v.w1, v.moved);
    ApartIs(v.w1, v.dummy, v.moved);
    InsertKeepsParents(v.w0, v.p, v.a, v.b, v.dummy, v.w1);
    forall n | n in v.w1.h ensures Within(v.w1, v.moved, n) <==> n in s {
      if n != v.dummy { OldNodes(v, n); }
    }
    forall n, r | n in s && n in v.w0.h && n in v.w0.depth && n in v.w1.depth && r == Successor(v.w0, n) && r in s
                  && r != v.moved
      ensures Successor(v.w1, n) == r
    {
      SuccessorInserted(v.w0, v.p, v.a, v.b, v.dummy, v.w1, n);
    }
    ScanKept(v.w0, v.w1, v.moved, s);
  }

  lemma ScanMembers(w: World, start: Node, s: seq<Node>)
    requires IsScan(w, start, s)
    ensures Consistent(w) && start in w.h && (forall n | n in w.h :: n in s <==> Within(w, start, n))
    ensures forall n | n in s :: n in w.h
  {
    hide *;
    ScanIs(w, start, s);
    ListingIs(w, s);
    WalkIs(w, s, 0);
    forall n | n in s ensures n in w.h {
      var i: nat :| i < |s| && s[i] == n;
      WalkIs(w, s, i);
    }
  }

  lemma ScanAfterReplace(v: Moving, s: seq<Node>)
    requires Prepared(v) && IsScan(v.w0, v.moved, s)
    ensures IsScan(v.w2, v.moved, s)
  {
    hide *;
    PreparedIs(v);
    ScanAfterInsert(v, s);
    ScanMembers(v.w0, v.moved, s);
    TopInGap(v);
    InsertKeepsParents(v.w0, v.p, v.a, v.b, v.dummy, v.w1);
    forall n | n in v.w2.h ensures Within(v.w2, v.moved, n) <==> n in s {
      if n in v.w0.h {
        OldNodes(v, n);
      } else {
        var k: Node :| k in v.cp && v.cp[k] == n;
        CopiesBeforeErase(v, k);
      }
    }
    forall n | n in s ensures n in v.w2.h { OldNodes(v, n); }
    forall n, r | n in s && n in v.w1.h && n in v.w1.depth && n in v.w2.depth && r == Successor(v.w1, n) && r in s
                  && r != v.moved
      ensures Successor(v.w2, n) == r
    {
      SuccessorReplaced(v.w1, v.dummy, v.moved, v.top, v.cp, v.w2, n);
      RenamedIs(Successor(v.w1, n), v.dummy, v.top);
    }
    ScanKept(v.w1, v.w2, v.moved, s);
  }

  /** A block put in outside a slice leaves the slice as it is. */
  lemma SliceStays<T>(l: seq<T>, m: nat, e: nat, q: nat, block: seq<T>)
    requires m <= e <= |l| && q <= |l| && (q <= m || e <= q)
    ensures var m2 := if q <= m then m + |block| else m;
            (l[..q] + block + l[q..])[m2..m2 + (e - m)] == l[m..e]
  {
  }

  lemma DummyReplaced<T>(l: seq<T>, q: nat, block: seq<T>, x: T)
    requires q <= |l|
    ensures var l1 := l[..q] + [x] + l[q..]; l1[q] == x && l1[..q] + block + l1[q + 1..] == l[..q] + block + l[q..]
  {
    var l1 := l[..q] + [x] + l[q..];
    assert l1[..q] == l[..q] && l1[q + 1..] == l[q..];
  }

  /** Where the block to be erased is once the copy has come in. */
  lemma BlockAfterReplace<T>(l: seq<T>, m: nat, e: nat, q: nat, block: seq<T>, x: T)
    requires m < e <= |l| && q <= |l| && (q <= m || e <= q) && |block| == e - m
    ensures var l1 := l[..q] + [x] + l[q..];
            var l2 := l1[..q] + block + l1[q + 1..];
            var m2 := if q <= m then m + (e - m) else m;
            && m2 + (e - m) <= |l2| && |l2| == |l| + (e - m) && l2[m2..m2 + (e - m)] == l[m..e] && l1[q] == x
            && l2[..m2] + l2[m2 + (e - m)..] == Edits.Move(l, m, e, q, block)
  {
    hide *;
    DummyReplaced(l, q, block, x);
    SliceStays(l, m, e, q, block);
    Edits.InsertThenErase(l, m, e, q, block, x);
  }

  /** The roots after the dummy has come in and been replaced. */
  ghost predicate RootsWithTop(v: Moving, roots: seq<Node>, roots2: seq<Node>) {
    if v.p != null then roots2 == roots
    else roots != [] && v.a == roots[0] && roots2 == [roots[0], v.top] + roots[1..]
  }

  /** The first two steps in the listing: the copy comes in at the gap. */
  lemma CopiedForest(v: Moving, head: Node, roots: seq<Node>, roots2: seq<Node>, feet: Node, l: seq<Node>, q: nat,
                     s: seq<Node>)
    requires Prepared(v) && TopList(v.w0, head, roots, feet) && IsForest(v.w0, roots, feet, l)
    requires v.p != head && v.p != feet && RootsWithTop(v, roots, roots2)
    requires Consistent(v.w0) && 0 < q <= |l| && BeforeGap(v.w0, v.p, v.a, l[q - 1]) && IsScan(v.w0, v.moved, s)
    ensures (forall n | n in s :: n in v.cp) && TopList(v.w2, head, roots2, feet)
    ensures var l1 := l[..q] + [v.dummy] + l[q..];
            IsForest(v.w2, roots2, feet, l1[..q] + Images(v.cp, s) + l1[q + 1..])
  {
    hide *;
    PreparedIs(v);
    TopInGap(v);
    RootsWithTopIs(v, roots, roots2);
    TopListAt(v.w0, head, roots, feet, 0);
    InPlace(v.w0, head, roots, feet, l, 0);
    InsertKeepsParents(v.w0, v.p, v.a, v.b, v.dummy, v.w1);
    var roots1 := if v.p != null then roots else [roots[0], v.dummy] + roots[1..];
    if v.p != null {
      TopInsertedBelow(v.w0, v.p, v.a, v.b, v.dummy, v.w1, head, roots, feet);
    } else {
      TopInserted(v.w0, v.b, v.dummy, v.w1, head, roots, feet);
    }
    InsertedListing(v.w0, head, roots, feet, l, v.p, v.a, v.b, v.dummy, v.w1, roots1, q);
    TopReplaced(v.w1, v.dummy, v.moved, v.top, v.cp, v.w2, head, roots1, feet);
    RootsRenamed(v, head, roots, feet, roots1, roots2);
    ScanAfterInsert(v, s);
    RenamedIs(l[0], v.dummy, v.top);
    var l1 := l[..q] + [v.dummy] + l[q..];
    assert l1[0] == l[0] && l1[q] == v.dummy;
    ReplacedListing(v.w1, head, roots1, feet, l1, v.dummy, v.moved, v.top, v.cp, v.w2, roots2, q, s);
  }

  lemma RootsWithTopIs(v: Moving, roots: seq<Node>, roots2: seq<Node>)
    ensures RootsWithTop(v, roots, roots2) <==>
      if v.p != null then roots2 == roots
      else roots != [] && v.a == roots[0] && roots2 == [roots[0], v.top] + roots[1..]
  {
  }

  lemma RootsRenamed(v: Moving, head: Node, roots: seq<Node>, feet: Node, roots1: seq<Node>, roots2: seq<Node>)
    requires TopList(v.w0, head, roots, feet) && v.dummy !in v.w0.h && RootsWithTop(v, roots, roots2)
    requires roots1 == if v.p != null then roots else [roots[0], v.dummy] + roots[1..]
    ensures roots2 == AllRenamed(roots1, v.dummy, v.top)
  {
    hide Consistent;
  }

  /** After the erasure the listing is the old one with the slice of the subtree moved to
      the gap, copy for original. */
  lemma MovedForest(v: Moving, w3: World, head: Node, roots: seq<Node>, roots2: seq<Node>, feet: Node, l: seq<Node>,
                    m: nat, e: nat, q: nat)
    requires Prepared(v) && TopList(v.w0, head, roots, feet) && IsForest(v.w0, roots, feet, l)
    requires v.p != head && v.p != feet && RootsWithTop(v, roots, roots2)
    requires Consistent(v.w0) && 0 < q <= |l| && BeforeGap(v.w0, v.p, v.a, l[q - 1])
    requires m < e <= |l| && l[m] == v.moved && (q <= m || e <= q) && IsScan(v.w0, v.moved, l[m..e])
    requires Consistent(v.w2) && v.moved in v.w2.h && Consistent(w3) && IsErased(v.w2, v.moved, w3)
    ensures forall n | n in l[m..e] :: n in v.cp
    ensures TopList(w3, head, Dropped(roots2, v.moved), feet)
    ensures IsForest(w3, Dropped(roots2, v.moved), feet, Edits.Move(l, m, e, q, Images(v.cp, l[m..e])))
  {
    hide *;
    var s := l[m..e];
    CopiedForest(v, head, roots, roots2, feet, l, q, s);
    ScanAfterReplace(v, s);
    var block := Images(v.cp, s);
    ImagesAt(v.cp, s, 0);
    BlockAfterReplace(l, m, e, q, block, v.dummy);
    var l1 := l[..q] + [v.dummy] + l[q..];
    var l2 := l1[..q] + block + l1[q + 1..];
    ErasedForest(v.w2, head, roots2, feet, l2, v.moved, w3, if q <= m then m + (e - m) else m, s);
  }

  // ---- The depths ----

  lemma {:induction false} DepthStable(w: World, w': World, n: Node)
    requires Consistent(w) && Consistent(w') && n in w.h && n in w'.h
    requires forall m | m in w'.h && m in w.h :: w'.h[m].parent == w.h[m].parent
    ensures n in w.depth && n in w'.depth && w.depth[n] == w'.depth[n]
    decreases if n in w.depth then w.depth[n] else 0
  {
    hide *;
    NumberIs(w, n);
    NumberIs(w', n);
    if w.h[n].parent != null {
      DepthStable(w, w', w.h[n].parent);
    } else {
      TopDepth(w, n);
      TopDepth(w', n);
    }
  }

  /** The moved nodes keep their depths below the top of their subtree. */
  lemma {:induction false} CopyDepth(w: World, from: Node, cp: map<Node, Node>, w': World, n: Node)
    requires Consistent(w) && Consistent(w') && IsCopy(w, from, cp, w') && n in cp && n in w.depth
    requires from in cp && cp[from] in w'.h
    ensures from in w.depth && n in w.h && cp[n] in w'.depth && cp[from] in w'.depth
    ensures w'.depth[cp[n]] + w.depth[from] == w.depth[n] + w'.depth[cp[from]]
    decreases w.depth[n]
  {
    hide *;
    IsCopyIs(w, from, cp, w');
    CopiedNodeHas(w, from, cp, w', n);
    CopiedNodeIs(w, from, cp, w', n);
    NumberIs(w, n);
    NumberIs(w, from);
    NumberIs(w', cp[n]);
    NumberIs(w', cp[from]);
    if n != from {
      WithinIs(w, from, n);
      UnderOfParent(w, from, n);
      var p: Node := w.h[n].parent;
      WithinIs(w, from, p);
      ImageValue(cp, p);
      CopyDepth(w, from, cp, w', p);
    }
  }

  lemma MovedDepth(v: Moving, w3: World, n: Node)
    requires Prepared(v) && Consistent(v.w0) && Consistent(w3) && n in v.w0.h
    requires IsMoved(v.w0, v.moved, v.p, v.a, v.b, v.top, v.cp, w3)
    ensures n in v.w0.depth && v.moved in v.w0.depth && (v.p != null ==> v.p in v.w0.depth)
    ensures !Within(v.w0, v.moved, n) ==> n in w3.depth && w3.depth[n] == v.w0.depth[n]
    ensures Within(v.w0, v.moved, n) ==> n in v.cp && v.cp[n] in w3.depth
    ensures Within(v.w0, v.moved, n) ==> w3.depth[v.cp[n]] + v.w0.depth[v.moved]
                                         == v.w0.depth[n] + if v.p == null then 0 else v.w0.depth[v.p] + 1
  {
    hide *;
    PreparedIs(v);
    NumberIs(v.w0, n);
    NumberIs(v.w0, v.moved);
    IsMovedIs(v.w0, v.moved, v.p, v.a, v.b, v.top, v.cp, w3);
    OutsideIs(v.w0, v.moved, v.p);
    forall k | k in w3.h && k in v.w0.h ensures w3.h[k].parent == v.w0.h[k].parent {
      var c := Relinked(v.w0.h[v.moved], v.moved, v.p, v.a, v.b, v.top);
      UnlinkedIs(Relinked(v.w0.h[k], k, v.p, v.a, v.b, v.top), k, c.parent, c.prev, c.next);
      RelinkedLinks(v.w0.h[k], k, v.p, v.a, v.b, v.top);
    }
    if n in w3.h { DepthStable(v.w0, w3, n); }
    IsCopyIs(v.w0, v.moved, v.cp, w3);
    if n in v.cp { CopyDepth(v.w0, v.moved, v.cp, w3, n); }
    NumberIs(w3, v.top);
    if v.p == null {
      TopDepth(w3, v.top);
    } else {
      NumberIs(v.w0, v.p);
      DepthStable(v.w0, w3, v.p);
    }
  }

  /** The place of the new parent in the listing, if there is one. */
  ghost predicate ParentAt(v: Moving, l: seq<Node>, m: nat, at: Filters.Option<nat>) {
    && m < |l| && l[m] == v.moved
    && if v.p == null then at.None? else at.Some? && at.value < |l| && l[at.value] == v.p
  }

  lemma ParentAtIs(v: Moving, l: seq<Node>, m: nat, at: Filters.Option<nat>)
    ensures ParentAt(v, l, m, at) <==>
      && m < |l| && l[m] == v.moved
      && if v.p == null then at.None? else at.Some? && at.value < |l| && l[at.value] == v.p
  {
  }

  /** A place outside the subtree is one to which the depth sequence can be moved. */
  lemma MoveIsPossible(v: Moving, roots: seq<Node>, feet: Node, l: seq<Node>, m: nat, at: Filters.Option<nat>)
    requires Prepared(v) && IsForest(v.w0, roots, feet, l) && ParentAt(v, l, m, at)
    ensures (forall n | n in l :: n in v.w0.depth) && Edits.CanMove(Depths(v.w0, l), m, at)
  {
    hide *;
    PreparedIs(v);
    ParentAtIs(v, l, m, at);
    OutsideIs(v.w0, v.moved, v.p);
    ForestIs(v.w0, roots, feet, l);
    DepthsAreValid(v.w0, l);
    var d := Depths(v.w0, l);
    if at.Some? {
      InsideIsRange(v.w0, l, m, at.value);
      PreOrder.SubtreeIsRange(d, m, at.value);
    }
    CanMoveIs(d, m, at);
  }

  lemma CanMoveIs(d: seq<nat>, m: nat, at: Filters.Option<nat>)
    ensures Edits.CanMove(d, m, at) <==>
      PreOrder.Valid(d) && m < |d| && (at.Some? ==> at.value < |d| && !PreOrder.Within(d, m, at.value))
  {
  }

  /** The node at each place of the moved listing, and its depth. */
  lemma MovedPlace(v: Moving, w3: World, roots: seq<Node>, feet: Node, l: seq<Node>, m: nat, at: Filters.Option<nat>,
                   k: nat)
    requires Prepared(v) && Consistent(v.w0) && Consistent(w3) && IsForest(v.w0, roots, feet, l)
    requires IsMoved(v.w0, v.moved, v.p, v.a, v.b, v.top, v.cp, w3) && ParentAt(v, l, m, at)
    requires (forall n | n in l :: n in v.w0.depth) && Edits.CanMove(Depths(v.w0, l), m, at) && k < |l|
    requires m < |l| && forall n | n in l[m..PreOrder.End(Depths(v.w0, l), m)] :: n in v.cp
    ensures var d := Depths(v.w0, l);
            var e, q, k' := PreOrder.End(d, m), Edits.Target(d, at), Edits.NewIndex(d, m, at, k);
            && m < e <= |l| && q <= |l| && (q <= m || e <= q)
            && var r := Edits.Move(l, m, e, q, Images(v.cp, l[m..e]));
            && |r| == |l| == |Edits.MovedDepths(d, m, at)| && k' < |r|
            && r[k'] in w3.depth && w3.depth[r[k']] == Edits.MovedDepths(d, m, at)[k']
  {
    hide *;
    var d := Depths(v.w0, l);
    CanMoveIs(d, m, at);
    Edits.TargetOutside(d, m, at);
    var e, q := PreOrder.End(d, m), Edits.Target(d, at);
    ForestIs(v.w0, roots, feet, l);
    ParentAtIs(v, l, m, at);
    DepthsAt(v.w0, l, k);
    DepthsAt(v.w0, l, m);
    InsideIsRange(v.w0, l, m, k);
    PreOrder.SubtreeIsRange(d, m, k);
    MovedDepth(v, w3, l[k]);
    Edits.MoveAt(l, m, e, q, Images(v.cp, l[m..e]), k);
    ForestDepth(v.w0, roots, feet, l);
    MovedDepthAt(d, m, at, k);
    if at.Some? { DepthsAt(v.w0, l, at.value); }
    NewDepthIs(d, at);
    if m <= k < e { ImagesAt(v.cp, l[m..e], k - m); }
  }

  lemma NewDepthIs(d: seq<nat>, at: Filters.Option<nat>)
    requires at.Some? ==> at.value < |d|
    ensures Edits.NewDepth(d, at) == if at.Some? then d[at.value] + 1 else 0
  {
  }

  lemma ForestDepth(w: World, roots: seq<Node>, feet: Node, l: seq<Node>)
    requires IsForest(w, roots, feet, l) && l != []
    ensures l[0] in w.depth && w.depth[l[0]] == 0
  {
    hide *;
    ForestIs(w, roots, feet, l);
  }

  lemma MovedDepthAt(d: seq<nat>, m: nat, at: Filters.Option<nat>, k: nat)
    requires Edits.CanMove(d, m, at) && k < |d|
    ensures |Edits.MovedDepths(d, m, at)| == |d| && m < |d|
    ensures var k', e, q := Edits.NewIndex(d, m, at, k), PreOrder.End(d, m), Edits.Target(d, at);
            && (q <= m || e <= q) && m < e && k' == Edits.Place(m, e, q, k)
            && Edits.MovedDepths(d, m, at)[k'] ==
               if PreOrder.Within(d, m, k) then d[k] - d[m] + Edits.NewDepth(d, at) else d[k]
  {
    Edits.TargetOutside(d, m, at);
    Edits.MovedAt(d, seq(|d|, _ => Filters.Filter(0, 0, Filters.None)), m, at, k);
  }

  /** The depths that the iterator sees after the move by links are those of the move of
      a slice. */
  lemma MovedDepthsAreSeen(v: Moving, w3: World, roots: seq<Node>, roots3: seq<Node>, feet: Node, l: seq<Node>, m: nat,
                           at: Filters.Option<nat>, r: seq<Node>)
    requires Prepared(v) && Consistent(v.w0) && Consistent(w3) && IsForest(v.w0, roots, feet, l)
    requires IsMoved(v.w0, v.moved, v.p, v.a, v.b, v.top, v.cp, w3) && ParentAt(v, l, m, at)
    requires (forall n | n in l :: n in v.w0.depth) && Edits.CanMove(Depths(v.w0, l), m, at)
    requires m < |l| && forall n | n in l[m..PreOrder.End(Depths(v.w0, l), m)] :: n in v.cp
    requires var d := Depths(v.w0, l);
             var e, q := PreOrder.End(d, m), Edits.Target(d, at);
             m < e <= |l| && q <= |l| && (q <= m || e <= q) && r == Edits.Move(l, m, e, q, Images(v.cp, l[m..e]))
    requires IsForest(w3, roots3, feet, r)
    ensures forall n | n in r :: n in w3.depth
    ensures Depths(w3, r) == Edits.MovedDepths(Depths(v.w0, l), m, at)
  {
    hide *;
    ForestIs(w3, roots3, feet, r);
    var d := Depths(v.w0, l);
    MovedPlace(v, w3, roots, feet, l, m, at, 0);
    ForestDepth(w3, roots3, feet, r);
    DepthsAt(w3, r, 0);
    forall k': nat | k' < |r| ensures Depths(w3, r)[k'] == Edits.MovedDepths(d, m, at)[k'] {
      var k := Edits.NewIndexOnto(d, m, at, k');
      MovedPlace(v, w3, roots, feet, l, m, at, k);
      DepthsAt(w3, r, k');
    }
  }

  /** After the move the listing of the tree is the old one with the slice at m moved, copy
      for original, and the iterator sees the moved depths. */
  ghost predicate IsSliceMove(w: World, l: seq<Node>, m: nat, at: Filters.Option<nat>, cp: map<Node, Node>, w': World,
                              head: Node, roots: seq<Node>, feet: Node)
  {
    && (forall n | n in l :: n in w.depth) && Edits.CanMove(Depths(w, l), m, at)
    && var d := Depths(w, l);
    && var e, q := PreOrder.End(d, m), Edits.Target(d, at);
    && m < e <= |l| && q <= |l| && (q <= m || e <= q) && (forall n | n in l[m..e] :: n in cp)
    && var r := Edits.Move(l, m, e, q, Images(cp, l[m..e]));
    && TopList(w', head, roots, feet) && IsForest(w', roots, feet, r)
    && (forall n | n in r :: n in w'.depth) && Depths(w', r) == Edits.MovedDepths(d, m, at)
  }

  lemma IsSliceMoveIs(w: World, l: seq<Node>, m: nat, at: Filters.Option<nat>, cp: map<Node, Node>, w': World, head: Node,
                      roots: seq<Node>, feet: Node)
    ensures IsSliceMove(w, l, m, at, cp, w', head, roots, feet) <==>
      && (forall n | n in l :: n in w.depth) && Edits.CanMove(Depths(w, l), m, at)
      && var d := Depths(w, l);
      && var e, q := PreOrder.End(d, m), Edits.Target(d, at);
      && m < e <= |l| && q <= |l| && (q <= m || e <= q) && (forall n | n in l[m..e] :: n in cp)
      && var r := Edits.Move(l, m, e, q, Images(cp, l[m..e]));
      && TopList(w', head, roots, feet) && IsForest(w', roots, feet, r)
      && (forall n | n in r :: n in w'.depth) && Depths(w', r) == Edits.MovedDepths(d, m, at)
  {
    hide TopList, IsForest;
  }

  /** All three steps are the move of a slice. */
  lemma MoveIsSliceMove(v: Moving, w3: World, head: Node, roots: seq<Node>, roots2: seq<Node>, feet: Node, l: seq<Node>,
                        m: nat, at: Filters.Option<nat>)
    requires Prepared(v) && TopList(v.w0, head, roots, feet) && IsForest(v.w0, roots, feet, l)
    requires v.p != head && v.p != feet && RootsWithTop(v, roots, roots2) && ParentAt(v, l, m, at)
    requires (forall n | n in l :: n in v.w0.depth) && Edits.CanMove(Depths(v.w0, l), m, at)
    requires var q := Edits.Target(Depths(v.w0, l), at);
             Consistent(v.w0) && 0 < q <= |l| && BeforeGap(v.w0, v.p, v.a, l[q - 1])
    requires Consistent(v.w2) && v.moved in v.w2.h && Consistent(w3) && IsErased(v.w2, v.moved, w3)
    ensures IsMoved(v.w0, v.moved, v.p, v.a, v.b, v.top, v.cp, w3)
    ensures IsSliceMove(v.w0, l, m, at, v.cp, w3, head, Dropped(roots2, v.moved), feet)
  {
    hide *;
    var d := Depths(v.w0, l);
    CanMoveIs(d, m, at);
    Edits.TargetOutside(d, m, at);
    ParentAtIs(v, l, m, at);
    var e, q := PreOrder.End(d, m), Edits.Target(d, at);
    SliceIsScan(v.w0, roots, feet, l, m);
    MovedIs(v, w3);
    MovedForest(v, w3, head, roots, roots2, feet, l, m, e, q);
    var r := Edits.Move(l, m, e, q, Images(v.cp, l[m..e]));
    MovedDepthsAreSeen(v, w3, roots, Dropped(roots2, v.moved), feet, l, m, at, r);
    IsSliceMoveIs(v.w0, l, m, at, v.cp, w3, head, Dropped(roots2, v.moved), feet);
  }

  // ---- The gaps of the two moves ----

  /** The gap after the last child is before what follows the subtree. */
  lemma GapAfterLastChild(w: World, head: Node, roots: seq<Node>, feet: Node, l: seq<Node>, i: nat)
    requires TopList(w, head, roots, feet) && IsForest(w, roots, feet, l) && i < |l|
    ensures Consistent(w) && l[i] in w.h && (forall n | n in l :: n in w.depth) && l[i] != head && l[i] != feet
    ensures var q := PreOrder.End(Depths(w, l), i); BeforeGap(w, l[i], w.h[l[i]].last, l[q - 1])
  {
    hide *;
    InPlace(w, head, roots, feet, l, i);
    RangeEndsWith(w, head, roots, feet, l, i);
    var p := l[i];
    var n := l[PreOrder.End(Depths(w, l), i) - 1];
    var a := w.h[p].last;
    ForestIs(w, roots, feet, l);
    HeadIsOutside(w, head, roots, feet, l);
    assert p in l;
    ChildIs(w, p);
    BeforeGapIs(w, p, a, n);
    EndsWithIs(w, p, n);
    WithinIs(w, p, n);
    if a == null {
      if n != p {
        var c := UnderByChild(w, p, n);
        ParentHasChild(w, c);
      }
    } else {
      LastChildEnds(w, p, a, n);
    }
  }

  lemma LastChildEnds(w: World, p: Node, a: Node, n: Node)
    requires Consistent(w) && p in w.h && EndsWith(w, p, n) && a == w.h[p].last
    ensures EndsWith(w, a, n)
  {
    hide *;
    EndsWithIs(w, p, n);
    ChildIs(w, p);
    NumberIs(w, a);
    AfterIs(w, a);
    WithinIs(w, p, n);
    var c := UnderByChild(w, p, n);
    NumberIs(w, c);
    WithinIs(w, c, n);
    if c != a {
      SiblingIs(w, c);
      AfterIs(w, c);
      AfterInside(w, c, n);
      AfterIsOutside(w, p);
      var r := After(w, n);
      UnderOfParent(w, p, c);
      if r != null {
        WithinIs(w, p, r);
        WithinIs(w, c, r);
        UnderOfParent(w, p, r);
        if Under(w, c, r) { UnderTrans(w, p, c, r); }
      }
    }
    EndsWithIs(w, a, n);
  }

  lemma HeadIsOutside(w: World, head: Node, roots: seq<Node>, feet: Node, l: seq<Node>)
    requires TopList(w, head, roots, feet) && IsForest(w, roots, feet, l)
    ensures head !in l
  {
    hide *;
    TopListAt(w, head, roots, feet, 0);
    ForestIs(w, roots, feet, l);
    InTreeIs(w, roots, head);
    forall r | r in roots ensures !Within(w, r, head) {
      var j: nat :| j < |roots| && roots[j] == r;
      TopStep(w, head, roots, feet, j);
      WithinIs(w, r, head);
      UnderOfParent(w, r, head);
    }
  }

  /** Every node of a tree has a parent, or siblings on both sides: other roots or the
      sentinels. */
  lemma TreeNodeIsLinked(w: World, head: Node, roots: seq<Node>, feet: Node, l: seq<Node>, i: nat)
    requires TopList(w, head, roots, feet) && IsForest(w, roots, feet, l) && i < |l|
    ensures l[i] in w.h && (w.h[l[i]].parent != null || (w.h[l[i]].prev != null && w.h[l[i]].next != null))
  {
    hide *;
    InPlace(w, head, roots, feet, l, i);
    if l[i] in roots {
      var j: nat :| j < |roots| && roots[j] == l[i];
      TopStep(w, head, roots, feet, j);
      TopListAt(w, head, roots, feet, 0);
      SiblingIs(w, head);
      if j > 0 {
        TopStep(w, head, roots, feet, j - 1);
        TopAtIs(roots, feet, j);
        SiblingIs(w, roots[j - 1]);
      }
    } else {
      NoRootHasParent(w, head, roots, feet, l, l[i], i);
    }
  }

  // ---- The operations ----

  lemma StaysLinked(c: Cell, n: Node, p: Node?, a: Node?, b: Node?, x: Node)
    ensures Relinked(c, n, p, a, b, x).parent == c.parent
    ensures c.prev != null ==> Relinked(c, n, p, a, b, x).prev != null
    ensures c.next != null ==> Relinked(c, n, p, a, b, x).next != null
  {
  }

  /** Replaces the dummy in the gap by a copy of the subtree, and erases the original. */
  method CopyAndErase(t: Trees, dummy: Node, moved: Node, ghost w0: World, ghost p: Node?, ghost a: Node?, ghost b: Node?)
    returns (top: Node, ghost v: Moving)
    requires t.Valid() && Consistent(w0) && Gap(w0, p, a, b) && IsLinkedIn(w0, p, a, b, dummy, t.w)
    requires moved in w0.h && Outside(w0, moved, p)
    requires w0.h[moved].parent != null || (w0.h[moved].prev != null && w0.h[moved].next != null)
    modifies t, t.w.h.Keys
    ensures t.Valid() && Prepared(v) && v == Moving(w0, p, a, b, dummy, old(t.w), moved, top, v.cp, v.w2)
    ensures Consistent(v.w2) && moved in v.w2.h && Consistent(t.w) && IsErased(v.w2, moved, t.w)
    ensures forall n | n in v.cp :: fresh(v.cp[n]) && n in old(t.w).h && v.cp[n].data == old(n.data)
    ensures forall n | n in old(t.w).h :: n.data == old(n.data)
  {
    hide *;
    ghost var w1 := t.w;
    t.ValidIs();
    InsertKeepsParents(w0, p, a, b, dummy, w1);
    GapIs(w0, p, a, b);
    DummyIsApart(w0, p, a, b, dummy, w1, moved);
    ghost var cp;
    top, cp := t.Replace(dummy, moved);
    ghost var w2 := t.w;
    t.ValidIs();
    v := Moving(w0, p, a, b, dummy, w1, moved, top, cp, w2);
    PreparedIs(v);
    OldNodes(v, moved);
    TopInGap(v);
    StaysLinked(w0.h[moved], moved, p, a, b, top);
    forall y | y in w2.h ensures y in w1.h || fresh(y) {
      InsertKeepsParents(w0, p, a, b, dummy, w1);
      if y !in w1.h { var k: Node :| k in cp && cp[k] == y; }
    }
    forall n | n in cp ensures cp[n] in w2.h { CopiesBeforeErase(v, n); }
    var _ := t.Erase(moved);
    t.ValidIs();
  }

  /** Moves a subtree under a new parent outside it, as the last child. */
  method MoveUnder(t: Trees, head: Node, feet: Node, moved: Node, newParent: Node, ghost roots: seq<Node>,
                   ghost l: seq<Node>, ghost m: nat, ghost i: nat)
    returns (top: Node, ghost cp: map<Node, Node>)
    requires t.Valid() && TopList(t.w, head, roots, feet) && IsForest(t.w, roots, feet, l)
    requires m < |l| && l[m] == moved && i < |l| && l[i] == newParent
    requires Consistent(t.w) && newParent in t.w.h && !Within(t.w, moved, newParent)
    modifies t, t.w.h.Keys
    ensures t.Valid() && IsMoved(old(t.w), moved, newParent, old(t.w).h[newParent].last, null, top, cp, t.w)
    ensures IsSliceMove(old(t.w), l, m, Filters.Some(i), cp, t.w, head, Dropped(roots, moved), feet)
    ensures forall n | n in cp :: fresh(cp[n]) && n in old(t.w).h && cp[n].data == old(n.data)
    ensures forall n | n in old(t.w).h :: n.data == old(n.data)
  {
    hide *;
    ghost var w0, last := t.w, t.w.h[newParent].last;
    t.ValidIs();
    TreeNodeIsLinked(w0, head, roots, feet, l, m);
    GapAfterLastChild(w0, head, roots, feet, l, i);
    GapAtEnd(w0, newParent);
    OutsideIs(w0, moved, newParent);
    var dummy := t.AppendChild(newParent, 0);
    InsertKeepsParents(w0, newParent, last, null, dummy, t.w);
    ghost var v;
    top, v := CopyAndErase(t, dummy, moved, w0, newParent, last, null);
    cp := v.cp;
    ghost var at := Filters.Some(i);
    ParentAtIs(v, l, m, at);
    MoveIsPossible(v, roots, feet, l, m, at);
    RootsWithTopIs(v, roots, roots);
    TargetIs(Depths(w0, l), at);
    MoveIsSliceMove(v, t.w, head, roots, roots, feet, l, m, at);
    forall n | n in cp ensures n in w0.h { CopiesBeforeErase(v, n); }
  }

  lemma TargetIs(d: seq<nat>, at: Filters.Option<nat>)
    requires d != [] && (at.Some? ==> at.value < |d|)
    ensures Edits.Target(d, at) == PreOrder.End(d, if at.Some? then at.value else 0)
  {
  }

  /** Moves a subtree to the top level, after the first root. The first root may be the
      one that is moved. */
  method MoveToTop(t: Trees, head: Node, feet: Node, moved: Node, ghost roots: seq<Node>, ghost l: seq<Node>, ghost m: nat)
    returns (top: Node, ghost cp: map<Node, Node>)
    requires t.Valid() && TopList(t.w, head, roots, feet) && IsForest(t.w, roots, feet, l)
    requires m < |l| && l[m] == moved
    modifies t, t.w.h.Keys
    ensures t.Valid() && roots != [] && Consistent(old(t.w)) && roots[0] in old(t.w).h
    ensures IsMoved(old(t.w), moved, null, roots[0], old(t.w).h[roots[0]].next, top, cp, t.w)
    ensures IsSliceMove(old(t.w), l, m, Filters.None, cp, t.w, head, Dropped([roots[0], top] + roots[1..], moved), feet)
    ensures forall n | n in cp :: fresh(cp[n]) && n in old(t.w).h && cp[n].data == old(n.data)
    ensures forall n | n in old(t.w).h :: n.data == old(n.data)
  {
    hide *;
    ghost var w0 := t.w;
    t.ValidIs();
    StoredIs(w0);
    TopListAt(w0, head, roots, feet, 0);
    CellOfIs(head);
    InPlace(w0, head, roots, feet, l, m);
    TopStep(w0, head, roots, feet, 0);
    TopAtIs(roots, feet, 1);
    RangeEndsWith(w0, head, roots, feet, l, 0);
    TreeNodeIsLinked(w0, head, roots, feet, l, m);
    OutsideIs(w0, moved, null);
    var begin: Node := head.nextSibling;
    ghost var b := w0.h[begin].next;
    GapAfter(w0, begin);
    var dummy := t.InsertAfter(begin, 0);
    InsertKeepsParents(w0, null, begin, b, dummy, t.w);
    ghost var v;
    top, v := CopyAndErase(t, dummy, moved, w0, null, begin, b);
    cp := v.cp;
    ghost var at: Filters.Option<nat> := Filters.None;
    ParentAtIs(v, l, m, at);
    MoveIsPossible(v, roots, feet, l, m, at);
    ghost var roots2 := [roots[0], top] + roots[1..];
    RootsWithTopIs(v, roots, roots2);
    TargetIs(Depths(w0, l), at);
    BeforeGapIs(w0, null, begin, l[Edits.Target(Depths(w0, l), at) - 1]);
    MoveIsSliceMove(v, t.w, head, roots, roots2, feet, l, m, at);
    forall n | n in cp ensures n in w0.h { CopiesBeforeErase(v, n); }
  }
}
