/** What replacing a subtree by a copy of another does to all the links. */
module LinkedReplace {
  import opened LinkedNodes
  import opened LinkedCopy

  /** The node at pos and all below it are gone, and x stands in its place. */
  ghost predicate IsSwapped(w: World, pos: Node, x: Node, w': World)
    requires Consistent(w) && pos in w.h
  {
    var c := w.h[pos];
    && x !in w.h && x in w'.h
    && (forall n | n in w'.h :: n == x || n in w.h)
    && (forall n | n in w.h :: n in w'.h <==> !Within(w, pos, n))
    && (forall n | n in w.h && n in w'.h :: w'.h[n] == Relinked(w.h[n], n, c.parent, c.prev, c.next, x))
    && w'.h[x] == Cell(c.parent, null, null, c.prev, c.next)
  }

  lemma IsSwappedIs(w: World, pos: Node, x: Node, w': World)
    requires Consistent(w) && pos in w.h
    ensures var c := w.h[pos]; IsSwapped(w, pos, x, w') <==>
      && x !in w.h && x in w'.h
      && (forall n | n in w'.h :: n == x || n in w.h)
      && (forall n | n in w.h :: n in w'.h <==> !Within(w, pos, n))
      && (forall n | n in w.h && n in w'.h :: w'.h[n] == Relinked(w.h[n], n, c.parent, c.prev, c.next, x))
      && w'.h[x] == Cell(c.parent, null, null, c.prev, c.next)
  {
    hide Within, Consistent, Relinked;
  }

  lemma RemovableIs(w: World, x: Node)
    requires x in w.h && w.h[x].first == null
    requires w.h[x].parent != null || (w.h[x].prev != null && w.h[x].next != null)
    ensures Removable(w, x)
  {
  }

  lemma ChildlessLinks(c: Cell)
    ensures Childless(c).parent == c.parent && Childless(c).prev == c.prev && Childless(c).next == c.next
    ensures Childless(c).first == null
  {
  }

  /** Pruning, taking the node out and linking the new one in add up to the swap. */
  lemma SwapIs(w: World, pos: Node, x: Node, wa: World, wb: World, w': World)
    requires Consistent(w) && pos in w.h && x !in w.h
    requires w.h[pos].parent != null || (w.h[pos].prev != null && w.h[pos].next != null)
    requires IsPruned(w, pos, wa) && pos in wa.h && IsLinkedOut(wa, pos, wb)
    requires IsLinkedIn(wb, w.h[pos].parent, w.h[pos].prev, w.h[pos].next, x, w')
    ensures IsSwapped(w, pos, x, w') && Consistent(w')
  {
    hide *;
    var c := w.h[pos];
    PruneKeepsConsistency(w, pos, wa);
    PrunedCell(w, pos, wa, pos);
    ChildlessLinks(c);
    RemovableIs(wa, pos);
    LinkOutKeepsConsistency(wa, pos, wb);
    LinkOutLeavesGap(wa, pos, wb);
    LinkInKeepsConsistency(wb, c.parent, c.prev, c.next, x, w');
    LinkedInNew(wb, c.parent, c.prev, c.next, x, w');
    forall n ensures n in wb.h <==> n in w.h && !Within(w, pos, n) {
      LinkOutMember(wa, pos, wb, n);
      PrunedMembers(w, pos, wa, n);
      if n in w.h { WithinIs(w, pos, n); }
    }
    forall n | n in w.h && n in w'.h ensures w'.h[n] == Relinked(w.h[n], n, c.parent, c.prev, c.next, x) {
      WithinIs(w, pos, n);
      PrunedMembers(w, pos, wa, n);
      PrunedCell(w, pos, wa, n);
      LinkOutCell(wa, pos, wb, n);
      LinkedInCell(wb, c.parent, c.prev, c.next, x, w', n);
      OutThenIn(w.h[n], n, c.parent, c.prev, c.next, x);
    }
    IsSwappedIs(w, pos, x, w');
  }

  /** Two nodes above a third are one above the other. */
  lemma {:induction false} NestedAbove(w: World, a: Node, b: Node, n: Node)
    requires Consistent(w) && a in w.h && b in w.h && n in w.h && n in w.depth
    requires Within(w, a, n) && Within(w, b, n)
    ensures Within(w, a, b) || Within(w, b, a)
    decreases w.depth[n]
  {
    hide *;
    WithinIs(w, a, n);
    WithinIs(w, b, n);
    if n != a && n != b {
      UnderOfParent(w, a, n);
      UnderOfParent(w, b, n);
      NumberIs(w, n);
      var p: Node := w.h[n].parent;
      WithinIs(w, a, p);
      WithinIs(w, b, p);
      NestedAbove(w, a, b, p);
    }
  }

  /** The two subtrees have no node in common. */
  ghost predicate Apart(w: World, a: Node, b: Node)
    requires Consistent(w)
  {
    a in w.h && b in w.h && !Within(w, a, b) && !Within(w, b, a)
  }

  lemma ApartIs(w: World, a: Node, b: Node)
    requires Consistent(w)
    ensures Apart(w, a, b) <==> a in w.h && b in w.h && !Within(w, a, b) && !Within(w, b, a)
  {
  }

  lemma SwappedParent(w: World, pos: Node, x: Node, w': World, n: Node)
    requires Consistent(w) && pos in w.h && IsSwapped(w, pos, x, w') && n in w.h && n in w'.h
    ensures w'.h[n] == Relinked(w.h[n], n, w.h[pos].parent, w.h[pos].prev, w.h[pos].next, x)
    ensures w'.h[n].parent == w.h[n].parent
  {
  }

  lemma SameUnder(w: World, pos: Node, from: Node, x: Node, w': World, n: Node)
    requires Consistent(w) && Consistent(w') && Apart(w, pos, from) && IsSwapped(w, pos, x, w')
    requires n in w.h && n in w'.h
    ensures Within(w', from, n) <==> Within(w, from, n)
  {
    hide *;
    ApartIs(w, pos, from);
    forall m | m in w.h && m in w'.h ensures w'.h[m].parent == w.h[m].parent {
      SwappedParent(w, pos, x, w', m);
    }
    UnderStable(w, w', from, n);
    WithinIs(w, from, n);
    WithinIs(w', from, n);
  }

  lemma NewIsOutside(w: World, pos: Node, from: Node, x: Node, w': World)
    requires Consistent(w) && Consistent(w') && Apart(w, pos, from) && IsSwapped(w, pos, x, w')
    ensures x in w'.h && !Within(w', from, x)
  {
    hide *;
    ApartIs(w, pos, from);
    IsSwappedIs(w, pos, x, w');
    UnderOfParent(w', from, x);
    WithinIs(w', from, x);
    WithinIs(w, from, pos);
    UnderOfParent(w, from, pos);
    var p := w.h[pos].parent;
    CellIs(p, null, null, w.h[pos].prev, w.h[pos].next);
    if p != null {
      SameUnder(w, pos, from, x, w', p);
      WithinIs(w, from, p);
      WithinIs(w', from, p);
    }
  }

  lemma SourceKept(w: World, pos: Node, from: Node, x: Node, w': World, n: Node)
    requires Consistent(w) && Consistent(w') && Apart(w, pos, from) && IsSwapped(w, pos, x, w')
    requires n in w.h && Within(w, from, n)
    ensures n in w'.h && w'.h[n].first == w.h[n].first && w'.h[n].last == w.h[n].last
    ensures n != from ==> w'.h[n] == w.h[n]
  {
    hide *;
    ApartIs(w, pos, from);
    IsSwappedIs(w, pos, x, w');
    NumberIs(w, n);
    if Within(w, pos, n) { NestedAbove(w, pos, from, n); }
    var c := w.h[pos];
    WithinIs(w, from, pos);
    UnderOfParent(w, from, pos);
    if c.parent != null { WithinIs(w, from, c.parent); }
    WithinIs(w, from, n);
    SiblingIs(w, pos);
    if n == c.prev || n == c.next { UnderSameParent(w, from, n, pos); }
    UntouchedCell(w.h[n], n, c.parent, c.prev, c.next, x);
  }

  lemma UntouchedCell(c: Cell, n: Node, p: Node?, a: Node?, b: Node?, x: Node)
    ensures n != p ==> Relinked(c, n, p, a, b, x).first == c.first && Relinked(c, n, p, a, b, x).last == c.last
    ensures n != p && n != a && n != b ==> Relinked(c, n, p, a, b, x) == c
  {
  }

  /** A copy of the subtree as it is after the swap is a copy of it as it was before. */
  lemma CopyOfOriginal(w: World, pos: Node, from: Node, x: Node, w1: World, cp: map<Node, Node>, w': World)
    requires Consistent(w) && Consistent(w1) && Apart(w, pos, from) && IsSwapped(w, pos, x, w1)
    requires IsCopy(w1, from, cp, w')
    ensures IsCopy(w, from, cp, w')
  {
    hide *;
    ApartIs(w, pos, from);
    IsSwappedIs(w, pos, x, w1);
    IsCopyIs(w1, from, cp, w');
    NewIsOutside(w, pos, from, x, w1);
    forall n | n in cp ensures n in w.h && Within(w, from, n) && CopiedNode(w, from, cp, w', n) {
      SameUnder(w, pos, from, x, w1, n);
      SourceKept(w, pos, from, x, w1, n);
      CopiedNodeHas(w1, from, cp, w', n);
      CopiedNodeIs(w1, from, cp, w', n);
      CopiedNodeIs(w, from, cp, w', n);
    }
    forall n | n in w.h && Within(w, from, n) ensures n in cp {
      SourceKept(w, pos, from, x, w1, n);
      SameUnder(w, pos, from, x, w1, n);
    }
    IsCopyIs(w, from, cp, w');
  }

  lemma CopiedNodeHas(w: World, start: Node, cp: map<Node, Node>, w': World, n: Node)
    requires CopiedNode(w, start, cp, w', n)
    ensures n in cp && n in w.h && cp[n] in w'.h
  {
  }

  /** The whole effect of a replacement: at pos stands the top of a copy of the
      subtree at from, the subtree that was at pos is gone, and nothing else is
      different but the links of pos's neighbours, which name the new node. */
  ghost predicate IsReplaced(w: World, pos: Node, from: Node, x: Node, cp: map<Node, Node>, w': World)
    requires Consistent(w)
  {
    && pos in w.h && x in w'.h && from in cp && cp[from] == x
    && IsCopy(w, from, cp, w')
    && w'.h[x].parent == w.h[pos].parent && w'.h[x].prev == w.h[pos].prev && w'.h[x].next == w.h[pos].next
    && (forall y | y in w'.h :: y in w.h || y in cp.Values)
    && (forall n | n in w.h :: n in w'.h <==> !Within(w, pos, n))
    && (forall n | n in w.h && n in w'.h ::
          w'.h[n] == Relinked(w.h[n], n, w.h[pos].parent, w.h[pos].prev, w.h[pos].next, x))
  }

  lemma IsReplacedIs(w: World, pos: Node, from: Node, x: Node, cp: map<Node, Node>, w': World)
    requires Consistent(w)
    ensures IsReplaced(w, pos, from, x, cp, w') <==>
      && pos in w.h && x in w'.h && from in cp && cp[from] == x
      && IsCopy(w, from, cp, w')
      && w'.h[x].parent == w.h[pos].parent && w'.h[x].prev == w.h[pos].prev && w'.h[x].next == w.h[pos].next
      && (forall y | y in w'.h :: y in w.h || y in cp.Values)
      && (forall n | n in w.h :: n in w'.h <==> !Within(w, pos, n))
      && (forall n | n in w.h && n in w'.h ::
            w'.h[n] == Relinked(w.h[n], n, w.h[pos].parent, w.h[pos].prev, w.h[pos].next, x))
  {
    hide Consistent, IsCopy, Within, Relinked;
  }

  lemma ReplaceResult(w: World, pos: Node, from: Node, x: Node, w1: World, cp: map<Node, Node>, w': World)
    requires Consistent(w) && Consistent(w1) && Consistent(w')
    requires Apart(w, pos, from) && IsSwapped(w, pos, x, w1)
    requires Copying(w1, w', from, x, cp) && Climbing(w1, from, cp, from) && KidsIn(w1, cp, from)
    requires forall v | v in cp.Values :: v !in w.h
    ensures IsReplaced(w, pos, from, x, cp, w')
  {
    hide *;
    ApartIs(w, pos, from);
    IsSwappedIs(w, pos, x, w1);
    CopyingIs(w1, w', from, x, cp);
    CopyEnds(w1, w', from, x, cp);
    CopyOfOriginal(w, pos, from, x, w1, cp, w');
    TopIsKept(w1, w', x, cp);
    var c := w.h[pos];
    CellIs(c.parent, null, null, c.prev, c.next);
    CellIs(c.parent, w'.h[x].first, w'.h[x].last, c.prev, c.next);
    forall n | n in w.h && n in w'.h
      ensures n in w1.h && w'.h[n] == Relinked(w.h[n], n, c.parent, c.prev, c.next, x)
    {
      KeptIs(w1, w', x, cp, n);
    }
    IsReplacedIs(w, pos, from, x, cp, w');
  }
}
