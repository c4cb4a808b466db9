/** The state of the loop that copies a subtree link by link while climbing up and
    down it. */
module LinkedCopy {
  import opened LinkedNodes

  /** n is start or lies below it. */
  ghost predicate Within(w: World, start: Node, n: Node)
    requires Consistent(w) && n in w.h
  {
    n == start || Under(w, start, n)
  }

  function Image(cp: map<Node, Node>, n: Node?): Node? {
    if n == null || n !in cp then null else cp[n]
  }

  /** A copied node's parent and previous sibling are copied, and its copy hangs
      under the one and after the other. */
  ghost predicate ImageOk(w1: World, w: World, start: Node, cp: map<Node, Node>, n: Node)
    requires Consistent(w1)
  {
    && n in cp && n in w1.h && Within(w1, start, n) && cp[n] in w.h
    && (n != start ==>
          var p, a := w1.h[n].parent, w1.h[n].prev;
          && cp[n] !in w1.h
          && p != null && p in cp && w.h[cp[n]].parent == cp[p]
          && (a != null ==> a in cp) && w.h[cp[n]].prev == Image(cp, a))
  }

  /** Outside the copy nothing has changed since w1. */
  ghost predicate OthersKept(w1: World, w: World, tmp: Node, cp: map<Node, Node>) {
    && w.h.Keys == w1.h.Keys + cp.Values
    && tmp in w1.h
    && (forall n | n in w1.h && n != tmp :: w.h[n] == w1.h[n])
    && w.h[tmp] == Cell(w1.h[tmp].parent, w.h[tmp].first, w.h[tmp].last, w1.h[tmp].prev, w1.h[tmp].next)
  }

  ghost predicate Injective(cp: map<Node, Node>) {
    forall m, n | m in cp && n in cp && cp[m] == cp[n] :: m == n
  }

  ghost predicate Copying(w1: World, w: World, start: Node, tmp: Node, cp: map<Node, Node>)
    requires Consistent(w1)
  {
    && start in cp && cp[start] == tmp && start in w1.h
    && OthersKept(w1, w, tmp, cp)
    && Injective(cp)
    && (forall n | n in cp :: ImageOk(w1, w, start, cp, n))
    && (forall y | y in w.h && w.h[y].parent in cp.Values :: y in cp.Values)
  }

  lemma CopyingIs(w1: World, w: World, start: Node, tmp: Node, cp: map<Node, Node>)
    requires Consistent(w1)
    ensures Copying(w1, w, start, tmp, cp) <==>
      && start in cp && cp[start] == tmp && start in w1.h
      && OthersKept(w1, w, tmp, cp)
      && Injective(cp)
      && (forall n | n in cp :: ImageOk(w1, w, start, cp, n))
      && (forall y | y in w.h && w.h[y].parent in cp.Values :: y in cp.Values)
  {
    hide OthersKept, Injective, ImageOk, Consistent;
  }

  lemma ParentHasChild(w: World, n: Node)
    requires Consistent(w) && n in w.h
    ensures w.h[n].parent != null ==> w.h[n].parent in w.h && w.h[w.h[n].parent].first != null
  {
    assert NodeOk(w, n);
  }

  /** At first only the top is copied. */
  lemma CopyStarts(w1: World, start: Node, tmp: Node)
    requires Consistent(w1) && start in w1.h && tmp in w1.h && w1.h[tmp].first == null
    ensures Copying(w1, w1, start, tmp, map[start := tmp])
  {
    var cp := map[start := tmp];
    assert tmp in cp.Values by { assert start in cp && cp[start] == tmp; }
    assert cp.Values == {tmp};
    assert w1.h.Keys == w1.h.Keys + cp.Values;
    forall y | y in w1.h ensures w1.h[y].parent !in cp.Values {
      ParentHasChild(w1, y);
    }
  }

  lemma ImageIs(w1: World, w: World, start: Node, cp: map<Node, Node>, n: Node)
    requires Consistent(w1) && ImageOk(w1, w, start, cp, n)
    ensures n in cp && n in w1.h && Within(w1, start, n) && cp[n] in w.h
    ensures n != start ==> cp[n] !in w1.h && w1.h[n].parent != null && w1.h[n].parent in cp
    ensures n != start ==> w.h[cp[n]].parent == cp[w1.h[n].parent]
    ensures n != start && w1.h[n].prev != null ==> w1.h[n].prev in cp
    ensures n != start ==> w.h[cp[n]].prev == Image(cp, w1.h[n].prev)
  {
  }

  lemma KeptIs(w1: World, w: World, tmp: Node, cp: map<Node, Node>, n: Node)
    requires OthersKept(w1, w, tmp, cp) && n in w1.h
    ensures n in w.h && w.h[n].parent == w1.h[n].parent && w.h[n].prev == w1.h[n].prev
    ensures w.h[n].next == w1.h[n].next && (n != tmp ==> w.h[n] == w1.h[n])
  {
  }

  lemma TopIsKept(w1: World, w: World, tmp: Node, cp: map<Node, Node>)
    requires OthersKept(w1, w, tmp, cp)
    ensures tmp in w1.h && w.h.Keys == w1.h.Keys + cp.Values
    ensures tmp in w.h && w.h[tmp] == Cell(w1.h[tmp].parent, w.h[tmp].first, w.h[tmp].last, w1.h[tmp].prev, w1.h[tmp].next)
  {
  }

  /** Every child of a copy is the copy of a child. */
  lemma ChildOfCopy(w1: World, w: World, start: Node, tmp: Node, cp: map<Node, Node>, y: Node) returns (k: Node)
    requires Consistent(w1) && Consistent(w) && Copying(w1, w, start, tmp, cp)
    requires y in w.h && w.h[y].parent in cp.Values
    ensures k in cp && cp[k] == y && k != start && ImageOk(w1, w, start, cp, k)
  {
    hide *;
    CopyingIs(w1, w, start, tmp, cp);
    k :| k in cp && cp[k] == y;
    if k == start {
      TopIsKept(w1, w, tmp, cp);
      var q :| q in cp && cp[q] == w.h[tmp].parent;
      TopIsNotItsOwnParent(w1, tmp);
      ImageIs(w1, w, start, cp, q);
    }
  }

  lemma TopIsNotItsOwnParent(w: World, n: Node)
    requires Consistent(w) && n in w.h
    ensures w.h[n].parent != n && (w.h[n].parent != null ==> w.h[n].parent in w.h)
  {
    assert NodeOk(w, n);
  }

  lemma InjectiveIs(cp: map<Node, Node>, m: Node, n: Node)
    requires Injective(cp) && m in cp && n in cp && cp[m] == cp[n]
    ensures m == n
  {
  }

  lemma SiblingIs(w: World, n: Node)
    requires Consistent(w) && n in w.h
    ensures var a := w.h[n].prev; a != null ==> a in w.h && w.h[a].next == n && w.h[a].parent == w.h[n].parent
    ensures var b := w.h[n].next; b != null ==> b in w.h && w.h[b].prev == n && w.h[b].parent == w.h[n].parent
    ensures var p := w.h[n].parent; p != null ==> p in w.h
    ensures var p := w.h[n].parent; p != null && w.h[n].prev == null ==> w.h[p].first == n
    ensures var p := w.h[n].parent; p != null && w.h[n].next == null ==> w.h[p].last == n
  {
    assert NodeOk(w, n);
  }

  lemma ChildIs(w: World, n: Node)
    requires Consistent(w) && n in w.h
    ensures w.h[n].first == null <==> w.h[n].last == null
    ensures var c := w.h[n].first; c != null ==> c in w.h && w.h[c].parent == n && w.h[c].prev == null
    ensures var d := w.h[n].last; d != null ==> d in w.h && w.h[d].parent == n && w.h[d].next == null
  {
    assert NodeOk(w, n);
  }

  /** The copy of a node whose next sibling is not copied is the last child so far. */
  lemma CopyIsLast(w1: World, w: World, start: Node, tmp: Node, cp: map<Node, Node>, c: Node)
    requires Consistent(w1) && Consistent(w) && Copying(w1, w, start, tmp, cp)
    requires c in cp && c != start && c in w1.h && (w1.h[c].next == null || w1.h[c].next !in cp)
    ensures w1.h[c].parent != null && w1.h[c].parent in cp
    ensures cp[w1.h[c].parent] in w.h && w.h[cp[w1.h[c].parent]].last == cp[c]
    ensures cp[c] in w.h && w.h[cp[c]].next == null
  {
    hide *;
    CopyingIs(w1, w, start, tmp, cp);
    ImageIs(w1, w, start, cp, c);
    SiblingIs(w, cp[c]);
    var y := w.h[cp[c]].next;
    if y != null {
      assert w.h[y].parent in cp.Values;
      var k := ChildOfCopy(w1, w, start, tmp, cp, y);
      ImageIs(w1, w, start, cp, k);
      ImageIsNonNull(cp, w1.h[k].prev, c);
      SiblingIs(w1, k);
    }
  }

  lemma ImageIsNonNull(cp: map<Node, Node>, a: Node?, c: Node)
    requires Injective(cp) && c in cp && Image(cp, a) == cp[c]
    ensures a == c
  {
  }

  /** The copy of a node whose first child is not copied has no child yet. */
  lemma CopyIsChildless(w1: World, w: World, start: Node, tmp: Node, cp: map<Node, Node>, n: Node)
    requires Consistent(w1) && Consistent(w) && Copying(w1, w, start, tmp, cp)
    requires n in cp && n in w1.h && (w1.h[n].first == null || w1.h[n].first !in cp)
    ensures cp[n] in w.h && w.h[cp[n]].first == null && w.h[cp[n]].last == null
  {
    hide *;
    CopyingIs(w1, w, start, tmp, cp);
    ImageIs(w1, w, start, cp, n);
    ChildIs(w, cp[n]);
    var y := w.h[cp[n]].first;
    if y != null {
      assert w.h[y].parent in cp.Values;
      var k := ChildOfCopy(w1, w, start, tmp, cp, y);
      ImageIs(w1, w, start, cp, k);
      InjectiveIs(cp, w1.h[k].parent, n);
      ImageIsNull(cp, w1.h[k].prev);
      SiblingIs(w1, k);
    }
  }

  lemma ImageIsNull(cp: map<Node, Node>, a: Node?)
    requires Image(cp, a) == null
    ensures a == null || a !in cp
  {
  }

  // ---- One more copy ----

  /** A node of the subtree whose turn it is: its parent is copied and, if it has
      one, the sibling before it; and it is not. */
  ghost predicate IsNext(w1: World, start: Node, cp: map<Node, Node>, n: Node) {
    && n in w1.h && n != start && n !in cp
    && w1.h[n].parent != null && w1.h[n].parent in cp
    && (w1.h[n].prev != null ==> w1.h[n].prev in cp && w1.h[n].prev != start)
  }

  lemma NextExtends(w1: World, w: World, start: Node, tmp: Node, cp: map<Node, Node>, n: Node)
    requires Consistent(w1) && Consistent(w) && Copying(w1, w, start, tmp, cp) && IsNext(w1, start, cp, n)
    ensures cp[w1.h[n].parent] in w.h
    ensures w.h[cp[w1.h[n].parent]].last == Image(cp, w1.h[n].prev)
  {
    hide *;
    NextIs(w1, start, cp, n);
    CopyingIs(w1, w, start, tmp, cp);
    SiblingIs(w1, n);
    var p, a := w1.h[n].parent, w1.h[n].prev;
    ImageIs(w1, w, start, cp, p);
    if a == null {
      CopyIsChildless(w1, w, start, tmp, cp, p);
    } else {
      CopyIsLast(w1, w, start, tmp, cp, a);
    }
    ImageValue(cp, a);
  }

  lemma ImageValue(cp: map<Node, Node>, a: Node?)
    ensures a == null ==> Image(cp, a) == null
    ensures a != null && a in cp ==> Image(cp, a) == cp[a]
  {
  }

  lemma NextIs(w1: World, start: Node, cp: map<Node, Node>, n: Node)
    ensures IsNext(w1, start, cp, n) <==>
      && n in w1.h && n != start && n !in cp
      && w1.h[n].parent != null && w1.h[n].parent in cp
      && (w1.h[n].prev != null ==> w1.h[n].prev in cp && w1.h[n].prev != start)
  {
  }

  lemma ValuesGrow(cp: map<Node, Node>, n: Node, x: Node)
    requires n !in cp
    ensures cp[n := x].Values == cp.Values + {x}
  {
    var cp' := cp[n := x];
    forall v: Node | v in cp.Values + {x} ensures v in cp'.Values {
      if v == x {
        assert cp'[n] == x;
      } else {
        var k: Node :| k in cp && cp[k] == v;
        assert k in cp' && cp'[k] == v;
      }
    }
    forall v: Node | v in cp'.Values ensures v in cp.Values + {x} {
      var k: Node :| k in cp' && cp'[k] == v;
    }
  }

  lemma LinkedInCell(w: World, p: Node?, a: Node?, b: Node?, x: Node, w': World, n: Node)
    requires IsLinkedIn(w, p, a, b, x, w') && n in w.h
    ensures n in w'.h && w'.h[n] == Relinked(w.h[n], n, p, a, b, x)
  {
  }

  lemma LinkedInNew(w: World, p: Node?, a: Node?, b: Node?, x: Node, w': World)
    requires IsLinkedIn(w, p, a, b, x, w')
    ensures w'.h.Keys == w.h.Keys + {x} && x !in w.h && w'.h[x] == Cell(p, null, null, a, b)
  {
  }

  lemma RelinkedIs(c: Cell, n: Node, p: Node?, a: Node?, x: Node)
    ensures Relinked(c, n, p, a, null, x).parent == c.parent
    ensures Relinked(c, n, p, a, null, x).prev == c.prev
    ensures n != a ==> Relinked(c, n, p, a, null, x).next == c.next
    ensures n != a && n != p ==> Relinked(c, n, p, a, null, x) == c
  {
  }

  lemma AddKeepsOthers(w1: World, w: World, start: Node, tmp: Node, cp: map<Node, Node>, n: Node, x: Node, w': World)
    requires Consistent(w1) && Consistent(w) && Copying(w1, w, start, tmp, cp) && IsNext(w1, start, cp, n)
    requires IsLinkedIn(w, cp[w1.h[n].parent], Image(cp, w1.h[n].prev), null, x, w')
    ensures OthersKept(w1, w', tmp, cp[n := x])
  {
    hide *;
    NextIs(w1, start, cp, n);
    CopyingIs(w1, w, start, tmp, cp);
    var p, a := w1.h[n].parent, w1.h[n].prev;
    ImageIs(w1, w, start, cp, p);
    if a != null { ImageIs(w1, w, start, cp, a); }
    ImageValue(cp, a);
    TopIsKept(w1, w, tmp, cp);
    LinkedInNew(w, cp[p], Image(cp, a), null, x, w');
    ValuesGrow(cp, n, x);
    forall m | m in w1.h && m != tmp ensures w'.h[m] == w1.h[m] {
      KeptIs(w1, w, tmp, cp, m);
      LinkedInCell(w, cp[p], Image(cp, a), null, x, w', m);
      RelinkedIs(w.h[m], m, cp[p], Image(cp, a), x);
    }
    LinkedInCell(w, cp[p], Image(cp, a), null, x, w', tmp);
    RelinkedIs(w.h[tmp], tmp, cp[p], Image(cp, a), x);
    KeepsOthersIs(w1, w', tmp, cp[n := x]);
  }

  lemma KeepsOthersIs(w1: World, w: World, tmp: Node, cp: map<Node, Node>)
    requires w.h.Keys == w1.h.Keys + cp.Values && tmp in w1.h
    requires forall n | n in w1.h && n != tmp :: w.h[n] == w1.h[n]
    requires w.h[tmp].parent == w1.h[tmp].parent && w.h[tmp].prev == w1.h[tmp].prev && w.h[tmp].next == w1.h[tmp].next
    ensures OthersKept(w1, w, tmp, cp)
  {
  }

  lemma AddKeepsImage(w1: World, w: World, start: Node, tmp: Node, cp: map<Node, Node>, n: Node, x: Node, w': World, m: Node)
    requires Consistent(w1) && Consistent(w) && Copying(w1, w, start, tmp, cp) && IsNext(w1, start, cp, n)
    requires IsLinkedIn(w, cp[w1.h[n].parent], Image(cp, w1.h[n].prev), null, x, w') && m in cp
    ensures ImageOk(w1, w', start, cp[n := x], m)
  {
    hide *;
    NextIs(w1, start, cp, n);
    CopyingIs(w1, w, start, tmp, cp);
    var p, a := w1.h[n].parent, w1.h[n].prev;
    ImageIs(w1, w, start, cp, m);
    LinkedInCell(w, cp[p], Image(cp, a), null, x, w', cp[m]);
    RelinkedIs(w.h[cp[m]], cp[m], cp[p], Image(cp, a), x);
    ImageValue(cp, w1.h[m].prev);
    ImageValue(cp[n := x], w1.h[m].prev);
    IsImage(w1, w', start, cp[n := x], m);
  }

  lemma IsImage(w1: World, w: World, start: Node, cp: map<Node, Node>, n: Node)
    requires Consistent(w1)
    requires n in cp && n in w1.h && Within(w1, start, n) && cp[n] in w.h
    requires n != start ==> cp[n] !in w1.h && w1.h[n].parent != null && w1.h[n].parent in cp
    requires n != start ==> w.h[cp[n]].parent == cp[w1.h[n].parent]
    requires n != start && w1.h[n].prev != null ==> w1.h[n].prev in cp
    requires n != start ==> w.h[cp[n]].prev == Image(cp, w1.h[n].prev)
    ensures ImageOk(w1, w, start, cp, n)
  {
  }

  lemma WithinByParent(w: World, start: Node, n: Node)
    requires Consistent(w) && n in w.h && w.h[n].parent != null && w.h[n].parent in w.h
    requires Within(w, start, w.h[n].parent)
    ensures Within(w, start, n) && Under(w, start, n)
  {
    UnderOfParent(w, start, n);
  }

  lemma AddMakesImage(w1: World, w: World, start: Node, tmp: Node, cp: map<Node, Node>, n: Node, x: Node, w': World)
    requires Consistent(w1) && Consistent(w) && Copying(w1, w, start, tmp, cp) && IsNext(w1, start, cp, n)
    requires IsLinkedIn(w, cp[w1.h[n].parent], Image(cp, w1.h[n].prev), null, x, w')
    ensures ImageOk(w1, w', start, cp[n := x], n)
  {
    hide *;
    NextIs(w1, start, cp, n);
    CopyingIs(w1, w, start, tmp, cp);
    TopIsKept(w1, w, tmp, cp);
    var p, a := w1.h[n].parent, w1.h[n].prev;
    ImageIs(w1, w, start, cp, p);
    WithinByParent(w1, start, n);
    LinkedInNew(w, cp[p], Image(cp, a), null, x, w');
    CellIs(cp[p], null, null, Image(cp, a), null);
    SiblingIs(w1, n);
    ImageValue(cp, a);
    ImageValue(cp[n := x], a);
    IsImage(w1, w', start, cp[n := x], n);
  }

  lemma CellIs(p: Node?, f: Node?, l: Node?, a: Node?, b: Node?)
    ensures Cell(p, f, l, a, b).parent == p && Cell(p, f, l, a, b).prev == a && Cell(p, f, l, a, b).next == b
  {
  }

  lemma InjectiveGrows(cp: map<Node, Node>, n: Node, x: Node)
    requires Injective(cp) && x !in cp.Values && n !in cp
    ensures Injective(cp[n := x])
  {
  }

  /** Appending the copy of the node whose turn it is goes on with the copying. */
  lemma AddCopy(w1: World, w: World, start: Node, tmp: Node, cp: map<Node, Node>, n: Node, x: Node, w': World)
    requires Consistent(w1) && Consistent(w) && Copying(w1, w, start, tmp, cp) && IsNext(w1, start, cp, n)
    requires IsLinkedIn(w, cp[w1.h[n].parent], Image(cp, w1.h[n].prev), null, x, w')
    ensures Copying(w1, w', start, tmp, cp[n := x])
  {
    hide *;
    NextIs(w1, start, cp, n);
    CopyingIs(w1, w, start, tmp, cp);
    TopIsKept(w1, w, tmp, cp);
    var p, a, cp' := w1.h[n].parent, w1.h[n].prev, cp[n := x];
    LinkedInNew(w, cp[p], Image(cp, a), null, x, w');
    ValuesGrow(cp, n, x);
    AddKeepsOthers(w1, w, start, tmp, cp, n, x, w');
    InjectiveGrows(cp, n, x);
    AddMakesImage(w1, w, start, tmp, cp, n, x, w');
    forall m | m in cp' ensures ImageOk(w1, w', start, cp', m) {
      if m != n { AddKeepsImage(w1, w, start, tmp, cp, n, x, w', m); }
    }
    forall y | y in w'.h && w'.h[y].parent in cp'.Values ensures y in cp'.Values {
      if y != x {
        LinkedInCell(w, cp[p], Image(cp, a), null, x, w', y);
        RelinkedIs(w.h[y], y, cp[p], Image(cp, a), x);
        SiblingIs(w, y);
      }
    }
    CopyingIs(w1, w', start, tmp, cp');
  }

  // ---- Where the loop stands ----

  ghost predicate KidsIn(w1: World, cp: map<Node, Node>, n: Node) {
    forall k | k in w1.h && w1.h[k].parent == n :: k in cp
  }

  /** Everything copied has all its children copied, except the nodes above cf and
      maybe cf itself; and beside those no next sibling is copied. */
  ghost predicate Climbing(w1: World, start: Node, cp: map<Node, Node>, cf: Node)
    requires Consistent(w1)
  {
    && start in cp && start in w1.h && cf in cp && cf in w1.h && Within(w1, start, cf)
    && (forall n | n in cp && n in w1.h && n != cf && !Under(w1, n, cf) :: KidsIn(w1, cp, n))
    && (forall c | c in cp && c in w1.h && c != start && (c == cf || Under(w1, c, cf)) ::
          w1.h[c].next == null || w1.h[c].next !in cp)
  }

  /** What a set of copied nodes is closed under. */
  ghost predicate Closed(w1: World, start: Node, cp: map<Node, Node>)
    requires Consistent(w1)
  {
    forall n | n in cp :: n in w1.h && Within(w1, start, n) && (n != start ==>
      w1.h[n].parent != null && w1.h[n].parent in cp && (w1.h[n].prev != null ==> w1.h[n].prev in cp))
  }

  lemma CopyingIsClosed(w1: World, w: World, start: Node, tmp: Node, cp: map<Node, Node>)
    requires Consistent(w1) && Copying(w1, w, start, tmp, cp)
    ensures Closed(w1, start, cp) && start in cp && start in w1.h && cp[start] == tmp
    ensures forall n | n in cp :: cp[n] in w.h
  {
    hide Within, Consistent, OthersKept, Injective;
  }

  lemma ClosedIs(w1: World, start: Node, cp: map<Node, Node>, n: Node)
    requires Consistent(w1) && Closed(w1, start, cp) && n in cp
    ensures n in w1.h && Within(w1, start, n)
    ensures n != start ==> w1.h[n].parent != null && w1.h[n].parent in cp
    ensures n != start && w1.h[n].prev != null ==> w1.h[n].prev in cp
  {
  }

  /** The prefix of a list of siblings that ends with a copied child is copied. */
  lemma {:induction false} EarlierSiblingsIn(w1: World, start: Node, cp: map<Node, Node>, c: Node, k: Node)
    requires Consistent(w1) && Closed(w1, start, cp) && start in w1.h
    requires c in cp && c in w1.h && k in w1.h && w1.h[k].parent == w1.h[c].parent != null && Under(w1, start, c)
    requires c in w1.idx && k in w1.idx && w1.idx[k] <= w1.idx[c]
    ensures k in cp
    decreases w1.idx[c]
  {
    hide *;
    ClosedIs(w1, start, cp, c);
    NotUnderSelf(w1, start);
    NumberIs(w1, c);
    NumberIs(w1, k);
    if w1.idx[k] == w1.idx[c] {
      SameNumberSameChild(w1, k, c);
    } else {
      var a := w1.h[c].prev;
      SiblingIs(w1, c);
      UnderSameParent(w1, start, a, c);
      NumberIs(w1, a);
      EarlierSiblingsIn(w1, start, cp, a, k);
    }
  }

  lemma NumberIs(w: World, n: Node)
    requires Consistent(w) && n in w.h
    ensures n in w.idx && n in w.depth
    ensures w.h[n].parent != null && w.h[n].prev == null ==> w.idx[n] == 0
    ensures var a := w.h[n].prev; a != null ==> a in w.idx
    ensures var a := w.h[n].prev; w.h[n].parent != null && a != null ==> w.idx[n] == w.idx[a] + 1
    ensures var p := w.h[n].parent; p != null ==> p in w.h && p in w.depth && w.depth[n] == w.depth[p] + 1
  {
    assert NodeOk(w, n);
  }

  /** With the last child all children are copied. */
  lemma LastChildMeansAll(w1: World, start: Node, cp: map<Node, Node>, c: Node)
    requires Consistent(w1) && Closed(w1, start, cp) && start in w1.h
    requires c in cp && c in w1.h && c != start && w1.h[c].next == null
    ensures w1.h[c].parent != null && KidsIn(w1, cp, w1.h[c].parent)
  {
    hide *;
    ClosedIs(w1, start, cp, c);
    WithinIs(w1, start, c);
    NumberIs(w1, c);
    forall k | k in w1.h && w1.h[k].parent == w1.h[c].parent ensures k in cp {
      NumberIs(w1, k);
      if w1.idx[k] > w1.idx[c] { SmallerNumberHasNext(w1, c, k); }
      EarlierSiblingsIn(w1, start, cp, c, k);
    }
    KidsInIs(w1, cp, w1.h[c].parent);
  }

  lemma KidsInIs(w1: World, cp: map<Node, Node>, n: Node)
    ensures KidsIn(w1, cp, n) <==> forall k | k in w1.h && w1.h[k].parent == n :: k in cp
  {
  }

  lemma WithinIs(w: World, start: Node, n: Node)
    requires Consistent(w) && n in w.h
    ensures Within(w, start, n) <==> n == start || Under(w, start, n)
  {
  }

  // ---- The steps of the loop ----

  lemma InsideNotStart(w: World, start: Node, n: Node)
    requires Consistent(w) && start in w.h && n in w.h
    requires w.h[n].parent != null && w.h[n].parent in w.h && Within(w, start, w.h[n].parent)
    ensures n != start && Within(w, start, n)
  {
    WithinByParent(w, start, n);
    NotUnderSelf(w, start);
  }

  /** After a node just copied nothing is copied, and below it neither. */
  lemma NothingAfterNew(w1: World, start: Node, cp: map<Node, Node>, n: Node, x: Node)
    requires Consistent(w1) && Closed(w1, start, cp) && start in w1.h
    requires n in w1.h && n !in cp && w1.h[n].parent != null && w1.h[n].parent in cp
    ensures w1.h[n].next == null || w1.h[n].next !in cp[n := x]
    ensures w1.h[n].first == null || w1.h[n].first !in cp[n := x]
  {
    hide *;
    NumberIs(w1, n);
    ClosedIs(w1, start, cp, w1.h[n].parent);
    InsideNotStart(w1, start, n);
    SiblingIs(w1, n);
    ChildIs(w1, n);
    var s, g := w1.h[n].next, w1.h[n].first;
    if s != null {
      NumberIs(w1, s);
      if s in cp {
        InsideNotStart(w1, start, s);
        ClosedIs(w1, start, cp, s);
      }
    }
    if g != null {
      NumberIs(w1, g);
      if g in cp {
        InsideNotStart(w1, start, g);
        ClosedIs(w1, start, cp, g);
      }
    }
  }

  lemma ClimbingIs(w1: World, start: Node, cp: map<Node, Node>, cf: Node)
    requires Consistent(w1)
    ensures Climbing(w1, start, cp, cf) <==>
      && start in cp && start in w1.h && cf in cp && cf in w1.h && Within(w1, start, cf)
      && (forall n | n in cp && n in w1.h && n != cf && !Under(w1, n, cf) :: KidsIn(w1, cp, n))
      && (forall c | c in cp && c in w1.h && c != start && (c == cf || Under(w1, c, cf)) ::
            w1.h[c].next == null || w1.h[c].next !in cp)
  {
    hide Under, Consistent, KidsIn, Within;
  }

  lemma ClimbStarts(w1: World, start: Node, tmp: Node)
    requires Consistent(w1) && start in w1.h
    ensures Climbing(w1, start, map[start := tmp], start)
    ensures w1.h[start].first == null || w1.h[start].first !in map[start := tmp]
  {
    NotUnderSelf(w1, start);
    hide *;
    ClimbingIs(w1, start, map[start := tmp], start);
    WithinIs(w1, start, start);
    ChildIs(w1, start);
    if w1.h[start].first != null { NumberIs(w1, w1.h[start].first); }
  }

  lemma KidsStayIn(w1: World, cp: map<Node, Node>, m: Node, x: Node, n: Node)
    requires KidsIn(w1, cp, n)
    ensures KidsIn(w1, cp[m := x], n)
  {
  }

  lemma GoDown(w1: World, start: Node, cp: map<Node, Node>, cf: Node, x: Node)
    requires Consistent(w1) && Closed(w1, start, cp) && Climbing(w1, start, cp, cf)
    requires cf in w1.h && w1.h[cf].first != null && w1.h[cf].first !in cp
    ensures var f: Node := w1.h[cf].first; f in w1.h && IsNext(w1, start, cp, f)
    ensures var f: Node := w1.h[cf].first; Climbing(w1, start, cp[f := x], f)
    ensures var f: Node := w1.h[cf].first; w1.h[f].first == null || w1.h[f].first !in cp[f := x]
  {
    hide *;
    var f: Node := w1.h[cf].first;
    var cp' := cp[f := x];
    ClimbingIs(w1, start, cp, cf);
    ChildIs(w1, cf);
    SiblingIs(w1, f);
    NextIs(w1, start, cp, f);
    InsideNotStart(w1, start, f);
    UnderOfParent(w1, cf, f);
    NothingAfterNew(w1, start, cp, f, x);
    forall n | n in cp' && n in w1.h && n != f && !Under(w1, n, f) ensures KidsIn(w1, cp', n) {
      UnderOfParent(w1, n, f);
      KidsStayIn(w1, cp, f, x, n);
    }
    forall c | c in cp' && c in w1.h && c != start && (c == f || Under(w1, c, f))
      ensures w1.h[c].next == null || w1.h[c].next !in cp'
    {
      UnderOfParent(w1, c, f);
      SiblingIs(w1, c);
    }
    ClimbingIs(w1, start, cp', f);
  }

  lemma GoUp(w1: World, start: Node, cp: map<Node, Node>, cf: Node)
    requires Consistent(w1) && Closed(w1, start, cp) && Climbing(w1, start, cp, cf)
    requires cf in w1.h && cf != start && w1.h[cf].next == null && KidsIn(w1, cp, cf)
    ensures var p := w1.h[cf].parent; p != null && p in w1.h && p in cp
    ensures var p: Node := w1.h[cf].parent; Climbing(w1, start, cp, p) && KidsIn(w1, cp, p)
    ensures cf in w1.depth && w1.h[cf].parent in w1.depth && w1.depth[w1.h[cf].parent] < w1.depth[cf]
  {
    hide *;
    ClimbingIs(w1, start, cp, cf);
    ClosedIs(w1, start, cp, cf);
    NumberIs(w1, cf);
    LastChildMeansAll(w1, start, cp, cf);
    var p: Node := w1.h[cf].parent;
    ClosedIs(w1, start, cp, p);
    forall n | n in cp && n in w1.h && n != p && !Under(w1, n, p) ensures KidsIn(w1, cp, n) {
      UnderOfParent(w1, n, cf);
    }
    forall c | c in cp && c in w1.h && c != start && (c == p || Under(w1, c, p))
      ensures w1.h[c].next == null || w1.h[c].next !in cp
    {
      UnderOfParent(w1, c, cf);
    }
    ClimbingIs(w1, start, cp, p);
  }

  lemma GoRight(w1: World, start: Node, cp: map<Node, Node>, cf: Node, x: Node)
    requires Consistent(w1) && Closed(w1, start, cp) && Climbing(w1, start, cp, cf)
    requires cf in w1.h && cf != start && w1.h[cf].next != null && KidsIn(w1, cp, cf)
    ensures var r: Node := w1.h[cf].next; r in w1.h && r != w1.h[start].next && IsNext(w1, start, cp, r)
    ensures var r: Node := w1.h[cf].next; Climbing(w1, start, cp[r := x], r)
    ensures var r: Node := w1.h[cf].next; w1.h[r].first == null || w1.h[r].first !in cp[r := x]
  {
    hide *;
    var r: Node := w1.h[cf].next;
    var cp' := cp[r := x];
    ClimbingIs(w1, start, cp, cf);
    ClosedIs(w1, start, cp, cf);
    SiblingIs(w1, cf);
    SiblingIs(w1, start);
    NextIs(w1, start, cp, r);
    ClosedIs(w1, start, cp, w1.h[cf].parent);
    InsideNotStart(w1, start, r);
    NothingAfterNew(w1, start, cp, r, x);
    NotUnderSelf(w1, cf);
    forall n | n in cp' && n in w1.h && n != r && !Under(w1, n, r) ensures KidsIn(w1, cp', n) {
      UnderSameParent(w1, n, cf, r);
      KidsStayIn(w1, cp, r, x, n);
    }
    forall c | c in cp' && c in w1.h && c != start && (c == r || Under(w1, c, r))
      ensures w1.h[c].next == null || w1.h[c].next !in cp'
    {
      UnderSameParent(w1, c, cf, r);
      SiblingIs(w1, c);
    }
    ClimbingIs(w1, start, cp', r);
  }

  /** Back at the top, the whole subtree has been copied. */
  lemma {:induction false} AllCopied(w1: World, start: Node, cp: map<Node, Node>, n: Node)
    requires Consistent(w1) && Climbing(w1, start, cp, start) && KidsIn(w1, cp, start)
    requires n in w1.h && Within(w1, start, n) && n in w1.depth
    ensures n in cp
    decreases w1.depth[n]
  {
    hide *;
    ClimbingIs(w1, start, cp, start);
    WithinIs(w1, start, n);
    if n != start {
      NumberIs(w1, n);
      UnderOfParent(w1, start, n);
      var p: Node := w1.h[n].parent;
      WithinIs(w1, start, p);
      AllCopied(w1, start, cp, p);
      if p != start { NotAbove(w1, start, p); }
      KidsInIs(w1, cp, p);
    }
  }

  lemma NotAbove(w: World, a: Node, n: Node)
    requires Consistent(w) && a in w.h && n in w.h && Under(w, a, n)
    ensures !Under(w, n, a)
  {
    UnderIsDeeper(w, a, n);
    if Under(w, n, a) { UnderIsDeeper(w, n, a); }
  }

  // ---- What the copy is ----

  /** Every link of the copied node leads to the copy of where the node's link leads;
      the links that leave the subtree at its top are not copied. */
  ghost predicate CopiedNode(w: World, start: Node, cp: map<Node, Node>, w': World, n: Node) {
    && n in cp && n in w.h && cp[n] in w'.h
    && w'.h[cp[n]].first == Image(cp, w.h[n].first) && w'.h[cp[n]].last == Image(cp, w.h[n].last)
    && (n != start ==>
          && w'.h[cp[n]].parent == Image(cp, w.h[n].parent)
          && w'.h[cp[n]].prev == Image(cp, w.h[n].prev) && w'.h[cp[n]].next == Image(cp, w.h[n].next))
  }

  /** cp is an isomorphism from the subtree at start onto its copy. */
  ghost predicate IsCopy(w: World, start: Node, cp: map<Node, Node>, w': World)
    requires Consistent(w)
  {
    && (forall n | n in cp :: n in w.h)
    && (forall n | n in w.h :: n in cp <==> Within(w, start, n))
    && Injective(cp)
    && forall n | n in cp :: CopiedNode(w, start, cp, w', n)
  }

  lemma FinalNode(w1: World, w: World, start: Node, tmp: Node, cp: map<Node, Node>, n: Node)
    requires Consistent(w1) && Consistent(w) && Copying(w1, w, start, tmp, cp)
    requires forall m | m in w1.h && Within(w1, start, m) :: m in cp
    requires n in cp
    ensures CopiedNode(w1, start, cp, w, n)
  {
    hide *;
    CopyingIs(w1, w, start, tmp, cp);
    ImageIs(w1, w, start, cp, n);
    ChildIs(w1, n);
    SiblingIs(w1, n);
    var f, d, r := w1.h[n].first, w1.h[n].last, w1.h[n].next;
    if f == null {
      CopyIsChildless(w1, w, start, tmp, cp, n);
    } else {
      InsideNotStart(w1, start, f);
      InsideNotStart(w1, start, d);
      ImageIs(w1, w, start, cp, f);
      ImageValue(cp, w1.h[f].prev);
      SiblingIs(w, cp[f]);
      CopyIsLast(w1, w, start, tmp, cp, d);
    }
    if n != start {
      if r == null {
        CopyIsLast(w1, w, start, tmp, cp, n);
      } else {
        ImageIs(w1, w, start, cp, w1.h[n].parent);
        InsideNotStart(w1, start, r);
        ImageIs(w1, w, start, cp, r);
        SiblingIs(w, cp[r]);
      }
      ImageValue(cp, w1.h[n].parent);
    }
    ImageValue(cp, f);
    ImageValue(cp, d);
    ImageValue(cp, r);
    ImageValue(cp, n);
    CopiedNodeIs(w1, start, cp, w, n);
  }

  lemma CopiedNodeIs(w: World, start: Node, cp: map<Node, Node>, w': World, n: Node)
    requires n in cp && n in w.h && cp[n] in w'.h
    ensures CopiedNode(w, start, cp, w', n) <==>
      && w'.h[cp[n]].first == Image(cp, w.h[n].first) && w'.h[cp[n]].last == Image(cp, w.h[n].last)
      && (n != start ==>
            && w'.h[cp[n]].parent == Image(cp, w.h[n].parent)
            && w'.h[cp[n]].prev == Image(cp, w.h[n].prev) && w'.h[cp[n]].next == Image(cp, w.h[n].next))
  {
  }

  lemma IsCopyIs(w: World, start: Node, cp: map<Node, Node>, w': World)
    requires Consistent(w)
    ensures IsCopy(w, start, cp, w') <==>
      && (forall n | n in cp :: n in w.h)
      && (forall n | n in w.h :: n in cp <==> Within(w, start, n))
      && Injective(cp)
      && forall n | n in cp :: CopiedNode(w, start, cp, w', n)
  {
    hide Within, Consistent, Injective, CopiedNode;
  }

  /** When the loop is back at the top, the copy is complete. */
  lemma CopyEnds(w1: World, w: World, start: Node, tmp: Node, cp: map<Node, Node>)
    requires Consistent(w1) && Consistent(w) && Copying(w1, w, start, tmp, cp)
    requires Climbing(w1, start, cp, start) && KidsIn(w1, cp, start)
    ensures IsCopy(w1, start, cp, w)
  {
    hide *;
    CopyingIs(w1, w, start, tmp, cp);
    forall n | n in w1.h && Within(w1, start, n) ensures n in cp {
      NumberIs(w1, n);
      AllCopied(w1, start, cp, n);
    }
    forall n | n in cp ensures n in w1.h && Within(w1, start, n) && CopiedNode(w1, start, cp, w, n) {
      ImageIs(w1, w, start, cp, n);
      FinalNode(w1, w, start, tmp, cp, n);
    }
    IsCopyIs(w1, start, cp, w);
  }
}
