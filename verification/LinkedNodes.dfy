/** Tree nodes joined by parent, child and sibling links, as values: what it means
    for the links of all nodes to agree, and what each change of links does. */
module LinkedNodes {

  class Node {
    var parent: Node?
    var firstChild: Node?
    var lastChild: Node?
    var prevSibling: Node?
    var nextSibling: Node?
    var data: int

    constructor (x: int)
      ensures data == x
    {
      data := x;
    }
  }

  /** The five links of a node. */
  datatype Cell = Cell(parent: Node?, first: Node?, last: Node?, prev: Node?, next: Node?)

  /** All nodes in use, in however many trees. A tree's top list runs from its head
      sentinel to its feet sentinel and has no parent. Depths and sibling numbers
      show that the links go round in no circle. */
  datatype World = World(h: map<Node, Cell>, depth: map<Node, nat>, idx: map<Node, nat>)

  ghost predicate ParentOk(w: World, n: Node)
    requires n in w.h && n in w.depth
  {
    var p := w.h[n].parent;
    if p == null then w.depth[n] == 0 else
    && p in w.h && p in w.depth && w.depth[n] == w.depth[p] + 1
    && w.h[p].first != null && w.h[p].last != null
    && (w.h[n].prev == null ==> w.h[p].first == n)
    && (w.h[n].next == null ==> w.h[p].last == n)
  }

  ghost predicate SiblingsOk(w: World, n: Node)
    requires n in w.h && n in w.idx
  {
    var a, b, p := w.h[n].prev, w.h[n].next, w.h[n].parent;
    && (a != null ==> a in w.h && w.h[a].next == n && w.h[a].parent == p)
    && (b != null ==> b in w.h && w.h[b].prev == n && w.h[b].parent == p)
    && (p != null && a == null ==> w.idx[n] == 0)
    && (a != null ==> a in w.idx && w.idx[n] > w.idx[a] && (p != null ==> w.idx[n] == w.idx[a] + 1))
  }

  ghost predicate ChildrenOk(w: World, n: Node)
    requires n in w.h
  {
    var c, d := w.h[n].first, w.h[n].last;
    && (c == null <==> d == null)
    && (c != null ==> c in w.h && w.h[c].parent == n && w.h[c].prev == null)
    && (d != null ==> d in w.h && w.h[d].parent == n && w.h[d].next == null)
  }

  ghost predicate NodeOk(w: World, n: Node) {
    n in w.h && n in w.depth && n in w.idx && ParentOk(w, n) && SiblingsOk(w, n) && ChildrenOk(w, n)
  }

  /** The links of all nodes agree with each other. */
  ghost predicate Consistent(w: World) {
    forall n | n in w.h :: NodeOk(w, n)
  }

  // ---- Siblings ----

  /** Children of one node with equal sibling numbers are the same. */
  lemma {:induction false} SameNumberSameChild(w: World, a: Node, b: Node)
    requires Consistent(w) && a in w.h && b in w.h
    requires w.h[a].parent == w.h[b].parent != null && w.idx[a] == w.idx[b]
    ensures a == b
    decreases w.idx[a]
  {
    assert NodeOk(w, a) && NodeOk(w, b);
    if w.idx[a] > 0 {
      var c, d := w.h[a].prev, w.h[b].prev;
      assert NodeOk(w, c) && NodeOk(w, d);
      SameNumberSameChild(w, c, d);
    }
  }

  /** A child that is not the last by number has a next sibling. */
  lemma {:induction false} SmallerNumberHasNext(w: World, a: Node, b: Node)
    requires Consistent(w) && a in w.h && b in w.h
    requires w.h[a].parent == w.h[b].parent != null && w.idx[a] < w.idx[b]
    ensures w.h[a].next != null && w.idx[w.h[a].next] == w.idx[a] + 1
    decreases w.idx[b]
  {
    assert NodeOk(w, a) && NodeOk(w, b);
    var c := w.h[b].prev;
    assert NodeOk(w, c);
    if w.idx[c] == w.idx[a] {
      SameNumberSameChild(w, a, c);
    } else {
      SmallerNumberHasNext(w, a, c);
    }
  }

  // ---- Ancestors ----

  /** n lies strictly below a. */
  ghost predicate Under(w: World, a: Node, n: Node)
    requires Consistent(w) && n in w.h
    decreases w.depth[n]
  {
    assert NodeOk(w, n);
    var p := w.h[n].parent;
    p != null && (p == a || (assert NodeOk(w, p); Under(w, a, p)))
  }

  lemma {:induction false} UnderIsDeeper(w: World, a: Node, n: Node)
    requires Consistent(w) && a in w.h && n in w.h && Under(w, a, n)
    ensures w.depth[a] < w.depth[n]
    decreases w.depth[n]
  {
    assert NodeOk(w, n);
    var p := w.h[n].parent;
    assert NodeOk(w, p);
    if p != a { UnderIsDeeper(w, a, p); }
  }

  /** To lie below a node is to be one of its children or to lie below one of them. */
  lemma {:induction false} UnderByChild(w: World, a: Node, n: Node) returns (c: Node)
    requires Consistent(w) && n in w.h && Under(w, a, n)
    ensures c in w.h && w.h[c].parent == a && (c == n || Under(w, c, n))
    decreases w.depth[n]
  {
    assert NodeOk(w, n);
    var p := w.h[n].parent;
    assert NodeOk(w, p);
    if p == a { c := n; } else { c := UnderByChild(w, a, p); }
  }

  lemma {:induction false} UnderTrans(w: World, a: Node, b: Node, n: Node)
    requires Consistent(w) && b in w.h && n in w.h && Under(w, a, b) && Under(w, b, n)
    ensures Under(w, a, n)
    decreases w.depth[n]
  {
    assert NodeOk(w, n);
    var p := w.h[n].parent;
    assert NodeOk(w, p);
    if p != b { UnderTrans(w, a, b, p); }
  }

  // ---- A new node between two siblings ----

  /** The gap between siblings prev and next under a parent, either of them null at
      an end of the list. */
  ghost predicate Gap(w: World, p: Node?, a: Node?, b: Node?) {
    && (p != null ==> p in w.h)
    && (a != null ==> a in w.h && w.h[a].next == b && w.h[a].parent == p)
    && (b != null ==> b in w.h && w.h[b].prev == a && w.h[b].parent == p)
    && (a == null ==> p != null && w.h[p].first == b)
    && (b == null ==> p != null && w.h[p].last == a)
  }

  function Relinked(c: Cell, n: Node, p: Node?, a: Node?, b: Node?, x: Node): Cell {
    Cell(c.parent,
         if a == null && n == p then x else c.first,
         if b == null && n == p then x else c.last,
         if n == b then x else c.prev,
         if n == a then x else c.next)
  }

  function NumberAfter(w: World, a: Node?): nat {
    if a == null || a !in w.idx then 0 else w.idx[a] + 1
  }

  ghost predicate IsLinkedIn(w: World, p: Node?, a: Node?, b: Node?, x: Node, w': World) {
    && w'.h.Keys == w.h.Keys + {x} && x !in w.h
    && (forall n | n in w.h :: w'.h[n] == Relinked(w.h[n], n, p, a, b, x))
    && w'.h[x] == Cell(p, null, null, a, b)
    && x in w'.depth && w'.depth[x] == (if p == null || p !in w.depth then 0 else w.depth[p] + 1)
    && x in w'.idx && w'.idx[x] == NumberAfter(w, a)
    && (forall n | n in w.h && n in w.depth :: n in w'.depth && w'.depth[n] == w.depth[n])
    && (forall n | n in w.h && n in w.idx :: n in w'.idx && w'.idx[n] ==
          if w.h[n].parent == p && w.idx[n] >= NumberAfter(w, a) then w.idx[n] + 1 else w.idx[n])
  }

  function LinkedIn(w: World, p: Node?, a: Node?, b: Node?, x: Node): World {
    World((map n | n in w.h :: Relinked(w.h[n], n, p, a, b, x))[x := Cell(p, null, null, a, b)],
          w.depth[x := if p == null || p !in w.depth then 0 else w.depth[p] + 1],
          (map n | n in w.h && n in w.idx ::
            if w.h[n].parent == p && w.idx[n] >= NumberAfter(w, a) then w.idx[n] + 1 else w.idx[n])
          [x := NumberAfter(w, a)])
  }

  lemma LinkedInIs(w: World, p: Node?, a: Node?, b: Node?, x: Node)
    requires x !in w.h
    ensures IsLinkedIn(w, p, a, b, x, LinkedIn(w, p, a, b, x))
  {
  }

  lemma LinkInParent(w: World, p: Node?, a: Node?, b: Node?, x: Node, w': World, n: Node)
    requires Consistent(w) && Gap(w, p, a, b) && IsLinkedIn(w, p, a, b, x, w') && n in w.h
    ensures n in w'.depth && ParentOk(w', n)
  {
    assert NodeOk(w, n);
    if w.h[n].parent != null { assert NodeOk(w, w.h[n].parent); }
  }

  lemma LinkInChildren(w: World, p: Node?, a: Node?, b: Node?, x: Node, w': World, n: Node)
    requires Consistent(w) && Gap(w, p, a, b) && IsLinkedIn(w, p, a, b, x, w') && n in w.h
    ensures ChildrenOk(w', n)
  {
    assert NodeOk(w, n);
    if w.h[n].first != null { assert NodeOk(w, w.h[n].first) && NodeOk(w, w.h[n].last); }
  }

  lemma LinkInPrev(w: World, p: Node?, a: Node?, b: Node?, x: Node, w': World, n: Node)
    requires Consistent(w) && Gap(w, p, a, b) && IsLinkedIn(w, p, a, b, x, w') && n in w.h
    ensures w'.h[n].prev == null ==> w.h[n].prev == null && n != b
    ensures var q := w'.h[n].prev;
            q != null ==> q in w'.h && w'.h[q].next == n && w'.h[q].parent == w.h[n].parent
  {
    assert NodeOk(w, n);
    var q := w.h[n].prev;
    if q != null { assert NodeOk(w, q); }
  }

  lemma LinkInNext(w: World, p: Node?, a: Node?, b: Node?, x: Node, w': World, n: Node)
    requires Consistent(w) && Gap(w, p, a, b) && IsLinkedIn(w, p, a, b, x, w') && n in w.h
    ensures var r := w'.h[n].next;
            r != null ==> r in w'.h && w'.h[r].prev == n && w'.h[r].parent == w.h[n].parent
  {
    assert NodeOk(w, n);
    var r := w.h[n].next;
    if r != null { assert NodeOk(w, r); }
  }

  lemma NumberAfterPrev(w: World, p: Node, a: Node?, b: Node?, n: Node)
    requires Consistent(w) && Gap(w, p, a, b) && n in w.h && w.h[n].parent == p && n != b
    ensures n in w.idx
    ensures w.h[n].prev == null ==> w.idx[n] == 0 && w.idx[n] < NumberAfter(w, a)
    ensures var q := w.h[n].prev;
            q != null ==> (q in w.h && q in w.idx && w.idx[n] == w.idx[q] + 1
                           && (w.idx[n] >= NumberAfter(w, a) <==> w.idx[q] >= NumberAfter(w, a)))
  {
    assert NodeOk(w, n) && NodeOk(w, p);
    if a != null { assert NodeOk(w, a); }
    var q := w.h[n].prev;
    if q != null {
      assert NodeOk(w, q);
      if a != null && w.idx[q] == w.idx[a] { SameNumberSameChild(w, q, a); }
    }
  }

  lemma LinkInNumbers(w: World, p: Node?, a: Node?, b: Node?, x: Node, w': World, n: Node)
    requires Consistent(w) && Gap(w, p, a, b) && IsLinkedIn(w, p, a, b, x, w') && n in w.h
    ensures n in w'.idx
    ensures w.h[n].parent != null && w'.h[n].prev == null ==> w'.idx[n] == 0
    ensures var q := w'.h[n].prev; q != null ==> q in w'.idx && w'.idx[n] > w'.idx[q]
    ensures var q := w'.h[n].prev; w.h[n].parent != null && q != null ==> w'.idx[n] == w'.idx[q] + 1
  {
    assert NodeOk(w, n);
    var q := w.h[n].prev;
    if q != null { assert NodeOk(w, q); }
    if n == b {
      if a != null { assert NodeOk(w, a); }
    } else if p != null && w.h[n].parent == p {
      NumberAfterPrev(w, p, a, b, n);
    }
  }

  lemma LinkInSiblings(w: World, p: Node?, a: Node?, b: Node?, x: Node, w': World, n: Node)
    requires Consistent(w) && Gap(w, p, a, b) && IsLinkedIn(w, p, a, b, x, w') && n in w.h
    ensures n in w'.idx && SiblingsOk(w', n)
  {
    LinkInPrev(w, p, a, b, x, w', n);
    LinkInNext(w, p, a, b, x, w', n);
    LinkInNumbers(w, p, a, b, x, w', n);
    assert w'.h[n].parent == w.h[n].parent;
  }

  lemma LinkInNew(w: World, p: Node?, a: Node?, b: Node?, x: Node, w': World)
    requires Consistent(w) && Gap(w, p, a, b) && IsLinkedIn(w, p, a, b, x, w')
    ensures NodeOk(w', x)
  {
    if p != null { assert NodeOk(w, p); }
    if a != null { assert NodeOk(w, a); }
    if b != null { assert NodeOk(w, b); }
  }

  lemma LinkInKeepsConsistency(w: World, p: Node?, a: Node?, b: Node?, x: Node, w': World)
    requires Consistent(w) && Gap(w, p, a, b) && IsLinkedIn(w, p, a, b, x, w')
    ensures Consistent(w')
  {
    forall n | n in w'.h ensures NodeOk(w', n) {
      if n == x { LinkInNew(w, p, a, b, x, w'); } else {
        LinkInParent(w, p, a, b, x, w', n);
        LinkInSiblings(w, p, a, b, x, w', n);
        LinkInChildren(w, p, a, b, x, w', n);
      }
    }
  }

  // ---- All nodes below a node go ----

  function Childless(c: Cell): Cell {
    Cell(c.parent, null, null, c.prev, c.next)
  }

  /** What is left when everything below p is gone. */
  ghost predicate IsPruned(w: World, p: Node, w': World)
    requires Consistent(w)
  {
    && p in w.h && (forall n | n in w'.h :: n in w.h)
    && (forall n | n in w.h :: n in w'.h <==> !Under(w, p, n))
    && (forall n | n in w'.h :: w'.h[n] == if n == p then Childless(w.h[n]) else w.h[n])
    && w'.depth == w.depth && w'.idx == w.idx
  }

  lemma NotUnderSelf(w: World, n: Node)
    requires Consistent(w) && n in w.h
    ensures !Under(w, n, n)
  {
    if Under(w, n, n) { UnderIsDeeper(w, n, n); }
  }

  lemma UnderSameParent(w: World, a: Node, m: Node, n: Node)
    requires Consistent(w) && m in w.h && n in w.h && w.h[m].parent == w.h[n].parent
    ensures Under(w, a, m) <==> Under(w, a, n)
  {
  }

  lemma UnderOfParent(w: World, a: Node, n: Node)
    requires Consistent(w) && n in w.h
    ensures w.h[n].parent != null ==>
              w.h[n].parent in w.h && (Under(w, a, n) <==> w.h[n].parent == a || Under(w, a, w.h[n].parent))
    ensures w.h[n].parent == null ==> !Under(w, a, n)
  {
    assert NodeOk(w, n);
  }

  lemma NodeIs(w: World, n: Node)
    ensures NodeOk(w, n) <==>
      n in w.h && n in w.depth && n in w.idx && ParentOk(w, n) && SiblingsOk(w, n) && ChildrenOk(w, n)
    ensures Consistent(w) && n in w.h ==> NodeOk(w, n)
  {
  }

  lemma PrunedKeeps(w: World, p: Node, w': World, n: Node)
    requires Consistent(w) && IsPruned(w, p, w') && n in w'.h
    ensures n in w.h && (w.h[n].parent != null ==> w.h[n].parent in w'.h && w.h[n].parent != p)
    ensures w.h[n].prev != null ==> w.h[n].prev in w'.h
    ensures w.h[n].next != null ==> w.h[n].next in w'.h
    ensures n != p ==> (w.h[n].first != null ==> w.h[n].first in w'.h)
    ensures n != p ==> (w.h[n].last != null ==> w.h[n].last in w'.h)
  {
    assert NodeOk(w, n);
    var c := w.h[n];
    UnderOfParent(w, p, n);
    if c.prev != null { UnderSameParent(w, p, c.prev, n); }
    if c.next != null { UnderSameParent(w, p, c.next, n); }
    if c.first != null { UnderOfParent(w, p, c.first); }
    if c.last != null { UnderOfParent(w, p, c.last); }
  }

  lemma PrunedCell(w: World, p: Node, w': World, n: Node)
    requires Consistent(w) && IsPruned(w, p, w') && n in w'.h
    ensures n in w.h && w'.h[n] == (if n == p then Childless(w.h[n]) else w.h[n])
    ensures w'.depth == w.depth && w'.idx == w.idx
  {
  }

  lemma PrunedSiblings(w: World, p: Node, w': World, n: Node)
    requires Consistent(w) && IsPruned(w, p, w') && n in w'.h
    ensures n in w'.idx && SiblingsOk(w', n)
  {
    hide Under, IsPruned;
    PrunedKeeps(w, p, w', n);
    PrunedCell(w, p, w', n);
    assert NodeOk(w, n);
    var a, b := w.h[n].prev, w.h[n].next;
    if a != null { PrunedCell(w, p, w', a); }
    if b != null { PrunedCell(w, p, w', b); }
  }

  lemma PrunedParent(w: World, p: Node, w': World, n: Node)
    requires Consistent(w) && IsPruned(w, p, w') && n in w'.h
    ensures n in w'.depth && ParentOk(w', n)
  {
    hide Under, IsPruned;
    PrunedKeeps(w, p, w', n);
    PrunedCell(w, p, w', n);
    assert NodeOk(w, n);
    var q := w.h[n].parent;
    if q != null { PrunedCell(w, p, w', q); }
  }

  lemma PrunedChildren(w: World, p: Node, w': World, n: Node)
    requires Consistent(w) && IsPruned(w, p, w') && n in w'.h
    ensures ChildrenOk(w', n)
  {
    hide Under, IsPruned;
    PrunedKeeps(w, p, w', n);
    PrunedCell(w, p, w', n);
    assert NodeOk(w, n);
    var c, d := w.h[n].first, w.h[n].last;
    if n != p && c != null { PrunedCell(w, p, w', c); PrunedCell(w, p, w', d); }
  }

  lemma PrunedNode(w: World, p: Node, w': World, n: Node)
    requires Consistent(w) && IsPruned(w, p, w') && n in w'.h
    ensures NodeOk(w', n)
  {
    hide *;
    PrunedParent(w, p, w', n);
    PrunedSiblings(w, p, w', n);
    PrunedChildren(w, p, w', n);
    NodeIs(w', n);
  }

  lemma PruneKeepsConsistency(w: World, p: Node, w': World)
    requires Consistent(w) && IsPruned(w, p, w')
    ensures Consistent(w') && p in w'.h
  {
    NotUnderSelf(w, p);
    forall n | n in w'.h ensures NodeOk(w', n) { PrunedNode(w, p, w', n); }
  }

  /** Whether a node lies below another depends only on the parents above it. */
  lemma {:induction false} UnderStable(w: World, w': World, a: Node, n: Node)
    requires Consistent(w) && Consistent(w') && n in w.h && n in w'.h
    requires forall m | m in w'.h && m in w.h :: w'.h[m].parent == w.h[m].parent
    ensures Under(w', a, n) <==> Under(w, a, n)
    decreases w'.depth[n]
  {
    assert NodeOk(w, n) && NodeOk(w', n);
    var p := w'.h[n].parent;
    if p != null {
      assert NodeOk(w', p);
      UnderStable(w, w', a, p);
    }
  }

  /** The children of p in done have been pruned, the others not yet. */
  ghost predicate IsCut(w: World, p: Node, done: set<Node>, w': World)
    requires Consistent(w)
  {
    && (forall c | c in done :: c in w.h && w.h[c].parent == p)
    && (forall n | n in w'.h :: n in w.h)
    && (forall n | n in w.h :: n in w'.h <==> forall c | c in done :: !Under(w, c, n))
    && (forall n | n in w'.h :: w'.h[n] == if n in done then Childless(w.h[n]) else w.h[n])
    && w'.depth == w.depth && w'.idx == w.idx
  }

  lemma SiblingsNotUnder(w: World, p: Node, c: Node, d: Node)
    requires Consistent(w) && c in w.h && d in w.h && w.h[c].parent == p && w.h[d].parent == p
    ensures !Under(w, c, d)
  {
    assert NodeOk(w, c) && NodeOk(w, d);
    if Under(w, c, d) { UnderIsDeeper(w, c, d); }
  }

  lemma CutIs(w: World, p: Node, done: set<Node>, w': World)
    requires Consistent(w)
    ensures IsCut(w, p, done, w') <==>
      && (forall c | c in done :: c in w.h && w.h[c].parent == p)
      && (forall n | n in w'.h :: n in w.h)
      && (forall n | n in w.h :: n in w'.h <==> forall c | c in done :: !Under(w, c, n))
      && (forall n | n in w'.h :: w'.h[n] == if n in done then Childless(w.h[n]) else w.h[n])
      && w'.depth == w.depth && w'.idx == w.idx
  {
  }

  lemma PrunedMembers(w: World, p: Node, w': World, n: Node)
    requires Consistent(w) && IsPruned(w, p, w')
    ensures n in w'.h <==> n in w.h && !Under(w, p, n)
    ensures w'.depth == w.depth && w'.idx == w.idx
  {
  }

  lemma CutMembers(w: World, p: Node, done: set<Node>, w1: World, c: Node, w2: World, n: Node)
    requires Consistent(w) && Consistent(w1) && c in w.h && c !in done && w.h[c].parent == p
    requires IsCut(w, p, done, w1) && IsPruned(w1, c, w2)
    ensures n in w2.h ==> n in w1.h && n in w.h
    ensures n in w2.h ==> w2.h[n] == if n == c || n in done then Childless(w.h[n]) else w.h[n]
    ensures n in w2.h ==> !Under(w, c, n)
    ensures n in w.h && !Under(w, c, n) && (forall d | d in done :: !Under(w, d, n)) ==> n in w2.h
    ensures w2.depth == w.depth && w2.idx == w.idx
  {
    hide *;
    CutIs(w, p, done, w1);
    PrunedMembers(w1, c, w2, n);
    if n in w1.h {
      UnderStable(w, w1, c, n) by {
        forall m | m in w1.h ensures w1.h[m].parent == w.h[m].parent { ChildlessIs(w.h[m]); }
      }
    }
    if n in w2.h { PrunedCell(w1, c, w2, n); }
  }

  lemma ChildlessIs(c: Cell)
    ensures Childless(c).parent == c.parent
  {
  }

  lemma CutStep(w: World, p: Node, done: set<Node>, w1: World, c: Node, w2: World)
    requires Consistent(w) && Consistent(w1)
    requires IsCut(w, p, done, w1) && IsPruned(w1, c, w2)
    requires c in w.h && c !in done && w.h[c].parent == p
    ensures IsCut(w, p, done + {c}, w2)
  {
    hide *;
    CutIs(w, p, done, w1);
    forall n ensures n in w2.h ==> n in w.h && n in w1.h {
      CutMembers(w, p, done, w1, c, w2, n);
    }
    forall n | n in w2.h ensures w2.h[n] == if n in done + {c} then Childless(w.h[n]) else w.h[n] {
      CutMembers(w, p, done, w1, c, w2, n);
    }
    assert c in done + {c} && forall d | d in done :: d in done + {c};
    forall n | n in w.h ensures n in w2.h <==> forall d | d in done + {c} :: !Under(w, d, n) {
      CutMembers(w, p, done, w1, c, w2, n);
      if n in w2.h {
        forall d | d in done + {c} ensures !Under(w, d, n) {
          assert d != c ==> d in done;
        }
      }
    }
    CutMembers(w, p, done, w1, c, w2, c);
    CutIs(w, p, done + {c}, w2);
  }

  lemma IsPrunedIs(w: World, p: Node, w': World)
    requires Consistent(w)
    ensures IsPruned(w, p, w') <==>
      && p in w.h && (forall n | n in w'.h :: n in w.h)
      && (forall n | n in w.h :: n in w'.h <==> !Under(w, p, n))
      && (forall n | n in w'.h :: w'.h[n] == if n == p then Childless(w.h[n]) else w.h[n])
      && w'.depth == w.depth && w'.idx == w.idx
  {
    hide Under, Consistent;
  }

  /** Once every child is pruned, taking the children out leaves nothing below p. */
  lemma CutDone(w: World, p: Node, done: set<Node>, w1: World, w2: World)
    requires Consistent(w) && p in w.h && IsCut(w, p, done, w1)
    requires forall c | c in w.h && w.h[c].parent == p :: c in done
    requires w2.h.Keys == w1.h.Keys - done
    requires forall n | n in w2.h :: w2.h[n] == if n == p then Childless(w1.h[n]) else w1.h[n]
    requires w2.depth == w1.depth && w2.idx == w1.idx
    ensures IsPruned(w, p, w2)
  {
    hide *;
    CutIs(w, p, done, w1);
    forall n | n in w.h ensures n in w2.h <==> !Under(w, p, n) {
      UnderIffUnderChild(w, p, done, n);
    }
    IsPrunedIs(w, p, w2);
  }

  lemma UnderIffUnderChild(w: World, p: Node, done: set<Node>, n: Node)
    requires Consistent(w) && p in w.h && n in w.h
    requires forall c | c in done :: c in w.h && w.h[c].parent == p
    requires forall c | c in w.h && w.h[c].parent == p :: c in done
    ensures Under(w, p, n) <==> n in done || exists c :: c in done && Under(w, c, n)
  {
    hide *;
    if Under(w, p, n) {
      var c := UnderByChild(w, p, n);
    }
    if c :| c in done && Under(w, c, n) {
      UnderOfParent(w, p, c);
      UnderTrans(w, p, c, n);
    }
    UnderOfParent(w, p, n);
  }

  // ---- A childless node goes ----

  function Unlinked(c: Cell, n: Node, p: Node?, a: Node?, b: Node?): Cell {
    Cell(c.parent,
         if a == null && n == p then b else c.first,
         if b == null && n == p then a else c.last,
         if n == b then a else c.prev,
         if n == a then b else c.next)
  }

  /** The node is not a sentinel, and has no children. */
  ghost predicate Removable(w: World, x: Node) {
    && x in w.h && w.h[x].first == null
    && (w.h[x].parent != null || (w.h[x].prev != null && w.h[x].next != null))
  }

  ghost predicate IsLinkedOut(w: World, x: Node, w': World)
    requires x in w.h
  {
    var c := w.h[x];
    && w'.h.Keys == w.h.Keys - {x}
    && (forall n | n in w'.h :: w'.h[n] == Unlinked(w.h[n], n, c.parent, c.prev, c.next))
    && w'.depth == w.depth
    && (forall n | n in w'.h && n in w.idx && x in w.idx :: n in w'.idx && w'.idx[n] ==
          if w.h[n].parent == c.parent != null && w.idx[n] > w.idx[x] then w.idx[n] - 1 else w.idx[n])
  }

  function LinkedOut(w: World, x: Node): World
    requires x in w.h && x in w.idx
  {
    var c := w.h[x];
    World(map n | n in w.h && n != x :: Unlinked(w.h[n], n, c.parent, c.prev, c.next),
          w.depth,
          map n | n in w.idx ::
            if n in w.h && w.h[n].parent == c.parent != null && w.idx[n] > w.idx[x] then w.idx[n] - 1 else w.idx[n])
  }

  lemma LinkedOutIs(w: World, x: Node)
    requires x in w.h && x in w.idx
    ensures IsLinkedOut(w, x, LinkedOut(w, x))
  {
  }

  lemma LinkOutCell(w: World, x: Node, w': World, n: Node)
    requires x in w.h && IsLinkedOut(w, x, w') && n in w.h && n != x
    ensures n in w'.h && w'.h[n] == Unlinked(w.h[n], n, w.h[x].parent, w.h[x].prev, w.h[x].next)
  {
  }

  lemma LinkOutMember(w: World, x: Node, w': World, n: Node)
    requires x in w.h && IsLinkedOut(w, x, w')
    ensures n in w'.h <==> n in w.h && n != x
    ensures w'.depth == w.depth
  {
  }

  /** The neighbours of the node that goes out. */
  lemma AroundRemoved(w: World, x: Node)
    requires Consistent(w) && Removable(w, x)
    ensures NodeOk(w, x)
    ensures w.h[x].parent != null ==> NodeOk(w, w.h[x].parent) && w.h[x].parent != x
    ensures w.h[x].prev != null ==> NodeOk(w, w.h[x].prev) && w.h[x].prev != x
    ensures w.h[x].next != null ==> NodeOk(w, w.h[x].next) && w.h[x].next != x
  {
  }

  /** A child with a sibling is next to one. */
  lemma NotAlone(w: World, x: Node, n: Node)
    requires Consistent(w) && x in w.h && n in w.h && n != x && w.h[x].parent == w.h[n].parent != null
    ensures w.h[x].prev != null || w.h[x].next != null
  {
    assert NodeOk(w, x) && NodeOk(w, n);
    if w.h[x].prev == null {
      if w.idx[n] == 0 { SameNumberSameChild(w, x, n); } else { SmallerNumberHasNext(w, x, n); }
    }
  }

  lemma LinkOutParent(w: World, x: Node, w': World, n: Node)
    requires Consistent(w) && Removable(w, x) && IsLinkedOut(w, x, w') && n in w'.h
    ensures n in w'.depth && ParentOk(w', n)
  {
    LinkOutMember(w, x, w', n);
    NodeIs(w, n);
    AroundRemoved(w, x);
    hide Consistent, IsLinkedOut;
    LinkOutCell(w, x, w', n);
    var p := w.h[n].parent;
    if p != null {
      NodeIs(w, p);
      assert p != x;
      LinkOutCell(w, x, w', p);
      if p == w.h[x].parent { NotAlone(w, x, n); }
    }
  }

  lemma LinkOutChildren(w: World, x: Node, w': World, n: Node)
    requires Consistent(w) && Removable(w, x) && IsLinkedOut(w, x, w') && n in w'.h
    ensures ChildrenOk(w', n)
  {
    LinkOutMember(w, x, w', n);
    NodeIs(w, n);
    AroundRemoved(w, x);
    hide Consistent, IsLinkedOut;
    LinkOutCell(w, x, w', n);
    var c, d := w'.h[n].first, w'.h[n].last;
    if c != null {
      assert c in w.h && c != x;
      NodeIs(w, c);
      LinkOutCell(w, x, w', c);
    }
    if d != null {
      assert d in w.h && d != x;
      NodeIs(w, d);
      LinkOutCell(w, x, w', d);
    }
  }

  lemma LinkOutNeighbours(w: World, x: Node, w': World, n: Node)
    requires Consistent(w) && Removable(w, x) && IsLinkedOut(w, x, w') && n in w'.h
    ensures n in w.h && w'.h[n].parent == w.h[n].parent
    ensures var q := w'.h[n].prev;
            q != null ==> q in w'.h && w'.h[q].next == n && w'.h[q].parent == w.h[n].parent
    ensures var r := w'.h[n].next;
            r != null ==> r in w'.h && w'.h[r].prev == n && w'.h[r].parent == w.h[n].parent
  {
    LinkOutMember(w, x, w', n);
    NodeIs(w, n);
    AroundRemoved(w, x);
    hide Consistent, IsLinkedOut;
    LinkOutCell(w, x, w', n);
    var q, r := w'.h[n].prev, w'.h[n].next;
    if q != null {
      assert q in w.h && q != x;
      NodeIs(w, q);
      LinkOutCell(w, x, w', q);
    }
    if r != null {
      assert r in w.h && r != x;
      NodeIs(w, r);
      LinkOutCell(w, x, w', r);
    }
  }

  lemma LinkOutNumbers(w: World, x: Node, w': World, n: Node)
    requires Consistent(w) && Removable(w, x) && IsLinkedOut(w, x, w') && n in w'.h
    ensures n in w'.idx
    ensures w.h[n].parent != null && w'.h[n].prev == null ==> w'.idx[n] == 0
    ensures var q := w'.h[n].prev; q != null ==> q in w'.idx && w'.idx[n] > w'.idx[q]
    ensures var q := w'.h[n].prev; w.h[n].parent != null && q != null ==> w'.idx[n] == w'.idx[q] + 1
  {
    assert NodeOk(w, n) && NodeOk(w, x);
    LinkOutNeighbours(w, x, w', n);
    var p, q := w.h[n].parent, w.h[n].prev;
    if q != null {
      assert NodeOk(w, q);
      if q == x {
        if w.h[x].prev != null { assert NodeOk(w, w.h[x].prev); }
      } else if p == w.h[x].parent != null && w.idx[q] == w.idx[x] {
        SameNumberSameChild(w, q, x);
      }
    }
  }

  lemma LinkOutKeepsConsistency(w: World, x: Node, w': World)
    requires Consistent(w) && Removable(w, x) && IsLinkedOut(w, x, w')
    ensures Consistent(w')
  {
    hide ParentOk, ChildrenOk, IsLinkedOut, Consistent, NodeOk;
    forall n | n in w'.h ensures NodeOk(w', n) {
      LinkOutParent(w, x, w', n);
      LinkOutChildren(w, x, w', n);
      LinkOutNeighbours(w, x, w', n);
      LinkOutNumbers(w, x, w', n);
      NodeIs(w', n);
    }
    ConsistentIs(w');
  }

  lemma ConsistentIs(w: World)
    requires forall n | n in w.h :: NodeOk(w, n)
    ensures Consistent(w)
  {
  }

  /** A node taken out leaves a gap where it was. */
  lemma LinkOutLeavesGap(w: World, x: Node, w': World)
    requires Consistent(w) && Removable(w, x) && IsLinkedOut(w, x, w')
    ensures Gap(w', w.h[x].parent, w.h[x].prev, w.h[x].next)
  {
    assert NodeOk(w, x);
    var p, a, b := w.h[x].parent, w.h[x].prev, w.h[x].next;
    if p != null { assert NodeOk(w, p); }
    if a != null { assert NodeOk(w, a); }
    if b != null { assert NodeOk(w, b); }
  }

  /** Taking a childless node out and linking another in at the gap changes just the
      links that named the first. */
  lemma OutThenIn(c: Cell, n: Node, p: Node?, a: Node?, b: Node?, x: Node)
    ensures Relinked(Unlinked(c, n, p, a, b), n, p, a, b, x) == Relinked(c, n, p, a, b, x)
  {
  }
}
