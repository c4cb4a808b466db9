/** Trees of linked nodes: the operations that rewrite the links in place. */
module LinkedTree {
  import opened LinkedNodes
  import opened LinkedCopy
  import opened LinkedReplace

  ghost function CellOf(n: Node): Cell
    reads n
  {
    Cell(n.parent, n.firstChild, n.lastChild, n.prevSibling, n.nextSibling)
  }

  lemma CellOfIs(n: Node)
    ensures CellOf(n) == Cell(n.parent, n.firstChild, n.lastChild, n.prevSibling, n.nextSibling)
  {
  }

  lemma {:induction false} DepthBound(m: map<Node, nat>, s: set<Node>) returns (b: nat)
    ensures forall n | n in s && n in m :: m[n] <= b
    decreases s
  {
    if s == {} {
      b := 0;
    } else {
      var x :| x in s;
      var c := DepthBound(m, s - {x});
      b := if x in m && m[x] > c then m[x] else c;
    }
  }

  /** The fields of all nodes in use hold the links. */
  ghost predicate Stored(w: World)
    reads w.h.Keys
  {
    forall n | n in w.h :: CellOf(n) == w.h[n]
  }

  lemma StoredIs(w: World)
    ensures Stored(w) <==> forall n | n in w.h :: CellOf(n) == w.h[n]
  {
  }

  lemma StoredIn(w: World, p: Node?, a: Node?, b: Node?, x: Node, w': World)
    requires IsLinkedIn(w, p, a, b, x, w') && CellOf(x) == Cell(p, null, null, a, b)
    requires forall n | n in w.h :: CellOf(n) == Relinked(w.h[n], n, p, a, b, x)
    ensures Stored(w')
  {
  }

  // ---- The writes to the fields ----

  lemma RelinkedElsewhere(c: Cell, n: Node, p: Node?, a: Node?, b: Node?, x: Node)
    ensures n != p && n != a && n != b ==> Relinked(c, n, p, a, b, x) == c && Unlinked(c, n, p, a, b) == c
  {
  }

  /** What a node between siblings a and b under p must not be mixed up with. */
  ghost predicate Separate(p: Node?, a: Node?, b: Node?, x: Node) {
    && x != p && x != a && x != b
    && (p != null ==> p != a && p != b) && (a != null ==> a != b)
  }

  /** Hangs a new node at the end of a node's children. */
  method LinkLast(position: Node, tmp: Node)
    requires Separate(position, position.lastChild, null, tmp)
    modifies position, tmp, position.lastChild
    ensures var a := old(position.lastChild);
            && CellOf(tmp) == Cell(position, null, null, a, null)
            && (forall n: Node | n == position || n == a :: n.data == old(n.data)
                  && CellOf(n) == Relinked(old(CellOf(n)), n, position, a, null, tmp))
    ensures tmp.data == old(tmp.data)
  {
    tmp.firstChild := null;
    tmp.lastChild := null;
    tmp.parent := position;
    if position.lastChild != null {
      position.lastChild.nextSibling := tmp;
    } else {
      position.firstChild := tmp;
    }
    tmp.prevSibling := position.lastChild;
    position.lastChild := tmp;
    tmp.nextSibling := null;
  }

  /** Puts a new node before another. */
  method LinkBefore(position: Node, tmp: Node)
    requires Separate(position.parent, position.prevSibling, position, tmp)
    requires position.parent != null || position.prevSibling != null
    modifies position, tmp, position.parent, position.prevSibling
    ensures var p, a := old(position.parent), old(position.prevSibling);
            && CellOf(tmp) == Cell(p, null, null, a, position)
            && (forall n: Node | n == p || n == a || n == position :: n.data == old(n.data)
                  && CellOf(n) == Relinked(old(CellOf(n)), n, p, a, position, tmp))
    ensures tmp.data == old(tmp.data)
  {
    tmp.firstChild := null;
    tmp.lastChild := null;
    tmp.parent := position.parent;
    tmp.nextSibling := position;
    tmp.prevSibling := position.prevSibling;
    position.prevSibling := tmp;
    if tmp.prevSibling == null {
      if tmp.parent != null {
        tmp.parent.firstChild := tmp;
      }
    } else {
      tmp.prevSibling.nextSibling := tmp;
    }
  }

  /** Puts a new node after another. */
  method LinkAfter(position: Node, tmp: Node)
    requires Separate(position.parent, position, position.nextSibling, tmp)
    requires position.parent != null || position.nextSibling != null
    modifies position, tmp, position.parent, position.nextSibling
    ensures var p, b := old(position.parent), old(position.nextSibling);
            && CellOf(tmp) == Cell(p, null, null, position, b)
            && (forall n: Node | n == p || n == b || n == position :: n.data == old(n.data)
                  && CellOf(n) == Relinked(old(CellOf(n)), n, p, position, b, tmp))
    ensures tmp.data == old(tmp.data)
  {
    tmp.firstChild := null;
    tmp.lastChild := null;
    tmp.parent := position.parent;
    tmp.prevSibling := position;
    tmp.nextSibling := position.nextSibling;
    position.nextSibling := tmp;
    if tmp.nextSibling == null {
      if tmp.parent != null {
        tmp.parent.lastChild := tmp;
      }
    } else {
      tmp.nextSibling.prevSibling := tmp;
    }
  }

  /** Puts a new node in the place of another. */
  method LinkInPlace(current: Node, tmp: Node)
    requires Separate(current.parent, current.prevSibling, current.nextSibling, tmp)
    requires Separate(current.parent, current.prevSibling, current.nextSibling, current) && current != tmp
    requires current.parent != null || (current.prevSibling != null && current.nextSibling != null)
    modifies tmp, current.parent, current.prevSibling, current.nextSibling
    ensures var p, a, b := old(current.parent), old(current.prevSibling), old(current.nextSibling);
            && CellOf(tmp) == Cell(p, null, null, a, b)
            && (forall n: Node | n == p || n == a || n == b :: n.data == old(n.data)
                  && CellOf(n) == Relinked(old(CellOf(n)), n, p, a, b, tmp))
    ensures tmp.data == old(tmp.data)
  {
    tmp.firstChild := null;
    tmp.lastChild := null;
    if current.prevSibling == null {
      if current.parent != null {
        current.parent.firstChild := tmp;
      }
    } else {
      current.prevSibling.nextSibling := tmp;
    }
    tmp.prevSibling := current.prevSibling;
    if current.nextSibling == null {
      if current.parent != null {
        current.parent.lastChild := tmp;
      }
    } else {
      current.nextSibling.prevSibling := tmp;
    }
    tmp.nextSibling := current.nextSibling;
    tmp.parent := current.parent;
  }

  /** Links the two sentinels of an empty tree to each other. */
  method LinkSentinels(head: Node, feet: Node)
    requires head != feet
    modifies head, feet
    ensures CellOf(head) == Cell(null, null, null, null, feet) && CellOf(feet) == Cell(null, null, null, head, null)
  {
    head.parent, head.firstChild, head.lastChild := null, null, null;
    head.prevSibling, head.nextSibling := null, feet;
    feet.parent, feet.firstChild, feet.lastChild := null, null, null;
    feet.prevSibling, feet.nextSibling := head, null;
  }

  /** Joins the neighbours of a node that goes. */
  method Unhook(cur: Node)
    requires Separate(cur.parent, cur.prevSibling, cur.nextSibling, cur)
    requires cur.parent != null || (cur.prevSibling != null && cur.nextSibling != null)
    modifies cur.parent, cur.prevSibling, cur.nextSibling
    ensures var p, a, b := old(cur.parent), old(cur.prevSibling), old(cur.nextSibling);
            forall n: Node | n == p || n == a || n == b :: n.data == old(n.data)
              && CellOf(n) == Unlinked(old(CellOf(n)), n, p, a, b)
  {
    if cur.prevSibling == null {
      cur.parent.firstChild := cur.nextSibling;
    } else {
      cur.prevSibling.nextSibling := cur.nextSibling;
    }
    if cur.nextSibling == null {
      cur.parent.lastChild := cur.prevSibling;
    } else {
      cur.nextSibling.prevSibling := cur.prevSibling;
    }
  }

  /** The node that follows a whole subtree in pre-order. */
  ghost function After(w: World, n: Node): Node?
    requires Consistent(w) && n in w.h && n in w.depth
    decreases w.depth[n]
  {
    NumberIs(w, n);
    if w.h[n].next != null then w.h[n].next
    else if w.h[n].parent == null then null
    else After(w, w.h[n].parent)
  }

  lemma AfterIs(w: World, n: Node)
    requires Consistent(w) && n in w.h && n in w.depth
    ensures var p := w.h[n].parent; p != null ==> p in w.h && p in w.depth
    ensures After(w, n) == if w.h[n].next != null then w.h[n].next
                           else if w.h[n].parent == null then null else After(w, w.h[n].parent)
  {
    NumberIs(w, n);
  }

  /** What follows a subtree lies outside it, and no deeper than its top. */
  lemma {:induction false} AfterIsOutside(w: World, n: Node)
    requires Consistent(w) && n in w.h && n in w.depth
    ensures var r := After(w, n);
            r != null ==> r in w.h && !Within(w, n, r) && r in w.depth && w.depth[r] <= w.depth[n]
    decreases w.depth[n]
  {
    hide *;
    AfterIs(w, n);
    NumberIs(w, n);
    SiblingIs(w, n);
    var b, p, r := w.h[n].next, w.h[n].parent, After(w, n);
    if b != null {
      NumberIs(w, b);
      NumberOrder(w, n);
      NotUnderSelf(w, n);
      UnderSameParent(w, n, n, b);
      WithinIs(w, n, b);
      SameParentSameDepth(w, n, b);
    } else if p != null {
      AfterIsOutside(w, p);
      if r != null {
        NumberIs(w, r);
        WithinIs(w, p, r);
        WithinIs(w, n, r);
        UnderOfParent(w, p, n);
        if Under(w, n, r) { UnderTrans(w, p, n, r); }
      }
    }
  }

  lemma NumberOrder(w: World, n: Node)
    requires Consistent(w) && n in w.h
    ensures w.h[n].next != n
  {
    assert NodeOk(w, n);
  }

  lemma SameParentSameDepth(w: World, m: Node, n: Node)
    requires Consistent(w) && m in w.h && n in w.h && w.h[m].parent == w.h[n].parent
    ensures m in w.depth && n in w.depth && w.depth[m] == w.depth[n]
  {
    assert NodeOk(w, m) && NodeOk(w, n);
  }

  lemma TopDepth(w: World, n: Node)
    requires Consistent(w) && n in w.h && w.h[n].parent == null
    ensures n in w.depth && w.depth[n] == 0
  {
    assert NodeOk(w, n);
  }

  /** The nodes of all the trees that are in use. */
  class Trees {
    ghost var w: World
    /** The nodes that have been allocated and not yet freed. */
    ghost var alive: set<Node>

    ghost predicate Linked()
      reads this`w, w.h.Keys
    {
      Consistent(w) && Stored(w)
    }

    ghost predicate Valid()
      reads this, w.h.Keys
    {
      Linked() && alive == w.h.Keys
    }

    /** Gives a node back to the allocator, which must not have it already. */
    method Free(n: Node)
      requires n in alive
      modifies this`alive
      ensures alive == old(alive) - {n}
    {
      alive := alive - {n};
    }

    /** Reads a link of a node, which must not have been freed. */
    method NextSiblingOf(n: Node) returns (r: Node?)
      requires n in alive
      ensures r == n.nextSibling
    {
      r := n.nextSibling;
    }

    method FirstChildOf(n: Node) returns (r: Node?)
      requires n in alive
      ensures r == n.firstChild
    {
      r := n.firstChild;
    }

    constructor ()
      ensures Valid() && w.h == map[]
    {
      w, alive := World(map[], map[], map[]), {};
    }

    /** The two sentinels of a new, empty tree. */
    method NewTree() returns (head: Node, feet: Node)
      requires Valid()
      modifies this
      ensures Valid() && fresh(head) && fresh(feet) && head != feet
      ensures w.h == old(w).h[head := Cell(null, null, null, null, feet)][feet := Cell(null, null, null, head, null)]
    {
      hide *;
      ghost var w0 := w;
      ValidIs();
      StoredIs(w0);
      head := new Node(0);
      feet := new Node(0);
      LinkSentinels(head, feet);
      w, alive := WithTree(w0, head, feet), alive + {head, feet};
      WithTreeIs(w0, head, feet);
      StoredIs(w);
      ValidIs();
    }

    /** Appends a new node to the children of a node. */
    method AppendChild(position: Node, x: int) returns (tmp: Node)
      requires Valid() && position in w.h
      modifies this, w.h.Keys
      ensures Valid() && fresh(tmp) && tmp.data == x
      ensures IsLinkedIn(old(w), position, old(w).h[position].last, null, tmp, w)
      ensures forall n | n in old(w).h :: n.data == old(n.data)
    {
      hide *;
      ghost var w0, last := w, w.h[position].last;
      ValidIs();
      StoredIs(w0);
      ChildIs(w0, position);
      tmp := new Node(x);
      CellOfIs(position);
      SeparateAtEnd(w0, position, tmp);
      LinkLast(position, tmp);
      w, alive := LinkedIn(w0, position, last, null, tmp), alive + {tmp};
      LinkedInIs(w0, position, last, null, tmp);
      LinkedInNew(w0, position, last, null, tmp, w);
      forall n | n in w0.h ensures CellOf(n) == Relinked(w0.h[n], n, position, last, null, tmp) {
        assert old(CellOf(n)) == w0.h[n];
        RelinkedElsewhere(w0.h[n], n, position, last, null, tmp);
      }
      StoredIn(w0, position, last, null, tmp, w);
      GapAtEnd(w0, position);
      LinkInKeepsConsistency(w0, position, last, null, tmp, w);
      ValidIs();
    }

    lemma ValidIs()
      ensures Valid() <==> Linked() && alive == w.h.Keys
      ensures Linked() <==> Consistent(w) && Stored(w)
    {
    }

    /** Puts a new node before another, which is not a head sentinel; no node at all
        stands for the tree's feet. */
    method Insert(position: Node?, feet: Node, x: int) returns (tmp: Node)
      requires Valid() && (if position != null then position in w.h else feet in w.h)
      requires var p := if position != null then position else feet; w.h[p].parent != null || w.h[p].prev != null
      modifies this, w.h.Keys
      ensures Valid() && fresh(tmp) && tmp.data == x
      ensures var p := if position != null then position else feet;
              var c := old(w).h[p]; IsLinkedIn(old(w), c.parent, c.prev, p, tmp, w)
      ensures forall n | n in old(w).h :: n.data == old(n.data)
    {
      hide *;
      var place := if position == null then feet else position;
      ghost var w0, c := w, w.h[place];
      ValidIs();
      StoredIs(w0);
      SiblingIs(w0, place);
      CellOfIs(place);
      tmp := new Node(x);
      SeparateNeighbours(w0, place, tmp);
      LinkBefore(place, tmp);
      w, alive := LinkedIn(w0, c.parent, c.prev, place, tmp), alive + {tmp};
      LinkedInIs(w0, c.parent, c.prev, place, tmp);
      LinkedInNew(w0, c.parent, c.prev, place, tmp, w);
      forall n | n in w0.h ensures CellOf(n) == Relinked(w0.h[n], n, c.parent, c.prev, place, tmp) {
        assert old(CellOf(n)) == w0.h[n];
        RelinkedElsewhere(w0.h[n], n, c.parent, c.prev, place, tmp);
      }
      StoredIn(w0, c.parent, c.prev, place, tmp, w);
      GapBefore(w0, place);
      LinkInKeepsConsistency(w0, c.parent, c.prev, place, tmp, w);
      ValidIs();
    }

    /** Puts a new node after another, which is not a feet sentinel. */
    method InsertAfter(position: Node, x: int) returns (tmp: Node)
      requires Valid() && position in w.h && (w.h[position].parent != null || w.h[position].next != null)
      modifies this, w.h.Keys
      ensures Valid() && fresh(tmp) && tmp.data == x
      ensures var c := old(w).h[position]; IsLinkedIn(old(w), c.parent, position, c.next, tmp, w)
      ensures forall n | n in old(w).h :: n.data == old(n.data)
    {
      hide *;
      ghost var w0, c := w, w.h[position];
      ValidIs();
      StoredIs(w0);
      SiblingIs(w0, position);
      CellOfIs(position);
      tmp := new Node(x);
      SeparateNeighbours(w0, position, tmp);
      LinkAfter(position, tmp);
      w, alive := LinkedIn(w0, c.parent, position, c.next, tmp), alive + {tmp};
      LinkedInIs(w0, c.parent, position, c.next, tmp);
      LinkedInNew(w0, c.parent, position, c.next, tmp, w);
      forall n | n in w0.h ensures CellOf(n) == Relinked(w0.h[n], n, c.parent, position, c.next, tmp) {
        assert old(CellOf(n)) == w0.h[n];
        RelinkedElsewhere(w0.h[n], n, c.parent, position, c.next, tmp);
      }
      StoredIn(w0, c.parent, position, c.next, tmp, w);
      GapAfter(w0, position);
      LinkInKeepsConsistency(w0, c.parent, position, c.next, tmp, w);
      ValidIs();
    }

    /** How many nodes are above a node. */
    method Depth(it: Node) returns (ret: nat)
      requires Valid() && it in w.h
      ensures it in w.depth && ret == w.depth[it]
    {
      var pos := it;
      ret := 0;
      hide *;
      ValidIs();
      StoredIs(w);
      NumberIs(w, pos);
      CellOfIs(pos);
      while pos.parent != null
        invariant pos in w.h && pos in w.depth && ret + w.depth[pos] == w.depth[it]
        invariant pos.parent == w.h[pos].parent
        decreases w.depth[pos]
      {
        NumberIs(w, pos);
        pos := pos.parent;
        ret := ret + 1;
        CellOfIs(pos);
        NumberIs(w, pos);
      }
      TopDepth(w, pos);
    }

    /** The step of the pre-order iterator: into the children, unless they are to be
        skipped, and otherwise to the next sibling of the nearest node on the way up
        that has one. */
    method Next(it: Node, skipChildren: bool) returns (node: Node?)
      requires Valid() && it in w.h
      ensures node == if !skipChildren && w.h[it].first != null then w.h[it].first else After(w, it)
    {
      hide *;
      ValidIs();
      StoredIs(w);
      CellOfIs(it);
      if !skipChildren && it.firstChild != null {
        return it.firstChild;
      }
      var up := it;
      NumberIs(w, it);
      while up.nextSibling == null
        invariant up in w.h && up in w.depth && CellOf(up) == w.h[up] && up.nextSibling == w.h[up].next
        invariant After(w, it) == After(w, up)
        decreases w.depth[up]
      {
        NumberIs(w, up);
        CellOfIs(up);
        AfterIs(w, up);
        if up.parent == null {
          return null;
        }
        up := up.parent;
        CellOfIs(up);
        NumberIs(w, up);
      }
      AfterIs(w, up);
      return up.nextSibling;
    }

    /** Frees everything below a node. The children are freed one after the other,
        each with all below it, and each is read before it is freed. */
    method EraseChildren(it: Node, ghost bound: nat)
      requires Linked() && it in w.h && forall n | n in w.h && n in w.depth :: w.depth[n] <= bound
      requires forall n | n in w.h && Within(w, it, n) :: n in alive
      modifies this, w.h.Keys
      ensures Linked() && IsPruned(old(w), it, w)
      ensures AreFreed(old(w), it, old(alive), alive)
      ensures forall n | n in old(w).h :: n.data == old(n.data)
      decreases bound - if it in w.depth then w.depth[it] else 0
    {
      hide *;
      ghost var w0, done: set<Node>, alive0 := w, {}, alive;
      ValidIs();
      StoredIs(w0);
      CellOfIs(it);
      ChildIs(w0, it);
      NumberIs(w0, it);
      CutStarts(w0, it);
      WithinIs(w0, it, it);
      NoneFreed(w0, alive0);
      var cur := FirstChildOf(it);
      if cur != null { FirstChildNumber(w0, cur); }
      DoneStarts(w0, it, cur);
      while cur != null
        invariant Linked() && w.h.Keys <= w0.h.Keys && IsCut(w0, it, done, w) && it in w.h
        invariant cur != null ==> cur in w.h && cur in w0.h && w0.h[cur].parent == it && cur !in done
        invariant DoneUpTo(w0, it, done, cur) && ChildrenFreed(w0, done, alive0, alive)
        invariant w.depth == w0.depth
        invariant forall n | n in w0.h :: n.data == old(n.data)
        decreases w0.h.Keys - done
      {
        var prev := cur;
        ghost var w1, alive1 := w, alive;
        ValidIs();
        ChildToErase(w0, it, done, alive0, cur, bound);
        cur := NextSiblingOf(cur);
        EraseChildren(prev, bound);
        ValidIs();
        NotFreed(w1, prev, alive1, alive);
        ghost var alive2 := alive;
        Free(prev);
        RoundDone(w0, it, done, w1, prev, w, cur, alive0, alive1, alive2, alive);
        done := done + {prev};
      }
      AllDone(w0, it, done);
      DropChildren(it, w0, done, alive0);
    }

    /** Clears the links to children that are all freed. */
    method DropChildren(it: Node, ghost w0: World, ghost done: set<Node>, ghost alive0: set<Node>)
      requires Linked() && Consistent(w0) && it in w0.h && it in w.h && IsCut(w0, it, done, w)
      requires forall c | c in w0.h && w0.h[c].parent == it :: c in done
      requires ChildrenFreed(w0, done, alive0, alive)
      modifies this`w, w.h.Keys
      ensures Linked() && IsPruned(w0, it, w) && AreFreed(w0, it, alive0, alive)
      ensures forall n: Node | n in old(w).h || n in w0.h :: n.data == old(n.data)
    {
      hide *;
      ghost var w1 := w;
      ParentNotDone(w0, it, done, w1);
      WithoutIs(w1, it, done);
      ValidIs();
      StoredIs(w1);
      label before:
      Bare(it);
      w := Without(w1, it, done);
      forall n | n in w.h ensures CellOf(n) == w.h[n] {
        assert old@before(CellOf(n)) == w1.h[n];
      }
      StoredIs(w);
      CutDone(w0, it, done, w1, w);
      PruneKeepsConsistency(w0, it, w);
      AllFreed(w0, it, done, w1, alive0, alive);
      ValidIs();
    }

    /** Before a round: the child is alive with all below it, and its link is the old one. */
    lemma ChildToErase(w0: World, it: Node, done: set<Node>, alive0: set<Node>, cur: Node, bound: nat)
      requires Linked() && Consistent(w0) && it in w0.h && IsCut(w0, it, done, w) && ChildrenFreed(w0, done, alive0, alive)
      requires forall n | n in w0.h && Within(w0, it, n) :: n in alive0
      requires cur in w0.h && w0.h[cur].parent == it && cur !in done && cur in w.h && w.depth == w0.depth
      requires forall n | n in w0.h && n in w0.depth :: w0.depth[n] <= bound
      ensures cur in alive && cur.nextSibling == w0.h[cur].next && forall n | n in w.h && Within(w, cur, n) :: n in alive
      ensures forall n | n in w.h && n in w.depth :: w.depth[n] <= bound
      ensures cur in w.depth && it in w.depth && w.depth[cur] == w.depth[it] + 1
    {
      hide *;
      ValidIs();
      StoredIs(w);
      CellOfIs(cur);
      CutIs(w0, it, done, w);
      CutCell(w0, it, done, w, cur);
      NumberIs(w0, cur);
      StillAlive(w0, it, done, w, alive0, alive, cur);
      WithinIs(w, cur, cur);
    }

    /** Takes a childless node out of its list. */
    method TakeOut(it: Node)
      requires Valid() && it in w.h && Removable(w, it)
      modifies this, w.h.Keys
      ensures Valid() && IsLinkedOut(old(w), it, w)
      ensures forall n | n in old(w).h :: n.data == old(n.data)
    {
      hide *;
      ghost var wa, c := w, w.h[it];
      ValidIs();
      StoredIs(wa);
      SiblingIs(wa, it);
      CellOfIs(it);
      SeparateFromNeighbours(wa, it);
      NumberIs(wa, it);
      RemovableHas(wa, it);
      Unhook(it);
      Free(it);
      w := LinkedOut(wa, it);
      LinkedOutIs(wa, it);
      forall n | n in wa.h && n != it ensures CellOf(n) == Unlinked(wa.h[n], n, c.parent, c.prev, c.next) {
        assert old(CellOf(n)) == wa.h[n];
        RelinkedElsewhere(wa.h[n], n, c.parent, c.prev, c.next, it);
      }
      StoredOut(wa, it, w);
      LinkOutKeepsConsistency(wa, it, w);
      KeysAfterOut(wa, it, w);
      ValidIs();
    }

    /** Erases a node that is not a sentinel, with everything below it, and returns
        the node that follows in pre-order. */
    method Erase(it: Node) returns (ret: Node?)
      requires Valid() && it in w.h && (w.h[it].parent != null || (w.h[it].prev != null && w.h[it].next != null))
      modifies this, w.h.Keys
      ensures Valid() && IsErased(old(w), it, w)
      ensures it in old(w).depth && ret == After(old(w), it) && (ret != null ==> ret in w.h)
      ensures forall n | n in old(w).h :: n.data == old(n.data)
    {
      hide *;
      ghost var w0 := w;
      ValidIs();
      NumberIs(w0, it);
      ret := Next(it, true);
      AfterIsOutside(w0, it);
      ghost var bound := DepthBound(w.depth, w.h.Keys);
      EraseChildren(it, bound);
      ghost var wa := w;
      FreedIsPruned(w0, it, wa, alive);
      ValidIs();
      PruneKeepsConsistency(w0, it, wa);
      PruneKeeps(w0, it, wa);
      PrunedCell(w0, it, wa, it);
      ChildlessLinks(w0.h[it]);
      RemovableIs(wa, it);
      TakeOut(it);
      ErasedIs(w0, it, wa, w);
      IsErasedIs(w0, it, w);
    }

    /** Puts a new node in the place of a childless one. */
    method SwapIn(position: Node, tmp: Node, ghost wb: World)
      requires Valid() && position in w.h && Removable(w, position) && tmp !in w.h
      requires IsLinkedOut(w, position, wb)
      modifies this, w.h.Keys, tmp
      ensures var c := old(w).h[position]; IsLinkedIn(wb, c.parent, c.prev, c.next, tmp, w)
      ensures Valid() && tmp.data == old(tmp.data)
      ensures forall n | n in old(w).h :: n.data == old(n.data)
    {
      hide *;
      ghost var wa, c := w, w.h[position];
      ValidIs();
      StoredIs(wa);
      CellOfIs(position);
      SiblingIs(wa, position);
      SeparateNeighbours(wa, position, tmp);
      RemovableHas(wa, position);
      LinkInPlace(position, tmp);
      Free(position);
      LinkOutMember(wa, position, wb, tmp);
      w, alive := LinkedIn(wb, c.parent, c.prev, c.next, tmp), alive + {tmp};
      LinkedInIs(wb, c.parent, c.prev, c.next, tmp);
      forall n | n in wb.h ensures CellOf(n) == Relinked(wb.h[n], n, c.parent, c.prev, c.next, tmp) {
        SwapCell(wa, position, wb, tmp, n);
        assert old(CellOf(n)) == wa.h[n];
      }
      StoredIn(wb, c.parent, c.prev, c.next, tmp, w);
      SwapKeepsConsistency(wa, position, wb, tmp, w);
      ValidIs();
    }

    /** Frees the subtree at position and puts a new node with the data of from there. */
    method TakePlace(position: Node, from: Node) returns (tmp: Node)
      requires Valid() && position in w.h && from in w.h
      requires w.h[position].parent != null || (w.h[position].prev != null && w.h[position].next != null)
      modifies this, w.h.Keys
      ensures Valid() && IsSwapped(old(w), position, tmp, w) && fresh(tmp) && tmp.data == old(from.data)
      ensures forall n | n in old(w).h :: n.data == old(n.data)
    {
      hide *;
      ghost var w0 := w;
      ValidIs();
      ghost var bound := DepthBound(w.depth, w.h.Keys);
      EraseChildren(position, bound);
      ghost var wa := w;
      FreedIsPruned(w0, position, wa, alive);
      ValidIs();
      PruneKeepsConsistency(w0, position, wa);
      PruneKeeps(w0, position, wa);
      PrunedCell(w0, position, wa, position);
      ChildlessLinks(w0.h[position]);
      RemovableIs(wa, position);
      NumberIs(wa, position);
      tmp := new Node(from.data);
      ghost var wb := LinkedOut(wa, position);
      LinkedOutIs(wa, position);
      SwapIn(position, tmp, wb);
      SwapIs(w0, position, tmp, wa, wb, w);
    }

    /** Appends to a copy the copy of the next child. */
    method AppendCopy(to: Node, n: Node, ghost w1: World, ghost start: Node, ghost top: Node, ghost cp: map<Node, Node>)
      returns (x: Node)
      requires Valid() && Consistent(w1) && Copying(w1, w, start, top, cp) && IsNext(w1, start, cp, n)
      requires to == cp[w1.h[n].parent]
      modifies this, w.h.Keys
      ensures Valid() && Copying(w1, w, start, top, cp[n := x])
      ensures fresh(x) && x.data == old(n.data)
      ensures w.h.Keys == old(w).h.Keys + {x}
      ensures forall m | m in old(w).h :: m.data == old(m.data)
    {
      hide *;
      ghost var wa := w;
      ValidIs();
      NextExtends(w1, wa, start, top, cp, n);
      x := AppendChild(to, n.data);
      LinkedInNew(wa, to, wa.h[to].last, null, x, w);
      ValidIs();
      AddCopy(w1, wa, start, top, cp, n, x, w);
    }

    /** The nodes being copied keep their links while copies are made. */
    lemma SourceField(w1: World, start: Node, top: Node, cp: map<Node, Node>, n: Node)
      requires Valid() && Consistent(w1) && Copying(w1, w, start, top, cp)
      requires top in w1.h && !Within(w1, start, top) && n in cp && n in w1.h
      ensures n in w.h && n.firstChild == w1.h[n].first && n.nextSibling == w1.h[n].next && n.parent == w1.h[n].parent
      ensures n in w1.depth
    {
      hide *;
      ValidIs();
      StoredIs(w);
      CopyingIs(w1, w, start, top, cp);
      ImageIs(w1, w, start, cp, n);
      KeptIs(w1, w, top, cp, n);
      CellOfIs(n);
      NumberIs(w1, n);
    }

    lemma CopyParent(w1: World, start: Node, top: Node, cp: map<Node, Node>, n: Node)
      requires Valid() && Consistent(w1) && Copying(w1, w, start, top, cp) && n in cp && n != start
      ensures n in w1.h && w1.h[n].parent != null && w1.h[n].parent in cp && cp[n] in w.h
      ensures cp[n].parent == cp[w1.h[n].parent]
    {
      hide *;
      ValidIs();
      StoredIs(w);
      CopyingIs(w1, w, start, top, cp);
      ImageIs(w1, w, start, cp, n);
      CellOfIs(cp[n]);
    }

    /** The copying loop stands at a node of the source, whose copy is toit. */
    ghost predicate CopyingAt(w1: World, start: Node, top: Node, cp: map<Node, Node>, cf: Node, toit: Node)
      reads this, w.h.Keys
    {
      && Valid() && Consistent(w1) && top in w1.h && !Within(w1, start, top)
      && Copying(w1, w, start, top, cp) && Climbing(w1, start, cp, cf)
      && cf in cp && cf in w1.h && toit == cp[cf]
    }

    lemma CopyingAtIs(w1: World, start: Node, top: Node, cp: map<Node, Node>, cf: Node, toit: Node)
      ensures CopyingAt(w1, start, top, cp, cf, toit) <==>
        && Valid() && Consistent(w1) && top in w1.h && !Within(w1, start, top)
        && Copying(w1, w, start, top, cp) && Climbing(w1, start, cp, cf)
        && cf in cp && cf in w1.h && toit == cp[cf]
    {
      hide Valid, Consistent, Within, Copying, Climbing;
    }

    /** Copies the first child of the node the loop stands at. */
    method CopyFirstChild(cf: Node, toit: Node, ghost w1: World, ghost start: Node, ghost top: Node,
                          ghost cp: map<Node, Node>)
      returns (next: Node, x: Node)
      requires CopyingAt(w1, start, top, cp, cf, toit)
      requires cf.firstChild != null && w1.h[cf].first !in cp
      modifies this, w.h.Keys
      ensures next in w1.h && next !in cp && next != top && next.data == old(next.data)
      ensures start in w1.h && next != w1.h[start].next
      ensures CopyingAt(w1, start, top, cp[next := x], next, x)
      ensures w1.h[next].first == null || w1.h[next].first !in cp[next := x]
      ensures fresh(x) && x.data == old(next.data)
      ensures w.h.Keys == old(w).h.Keys + {x}
      ensures forall m | m in old(w).h :: m.data == old(m.data)
    {
      hide *;
      CopyingAtIs(w1, start, top, cp, cf, toit);
      SourceField(w1, start, top, cp, cf);
      CopyingIsClosed(w1, w, start, top, cp);
      next := cf.firstChild;
      ChildIs(w1, cf);
      SiblingIs(w1, start);
      GoDown(w1, start, cp, cf, toit);
      NextIs(w1, start, cp, next);
      x := AppendCopy(toit, next, w1, start, top, cp);
      GoDown(w1, start, cp, cf, x);
      ClimbingIs(w1, start, cp[next := x], next);
      CopyingAtIs(w1, start, top, cp[next := x], next, x);
    }

    /** Climbs from a node whose children are all copied to the next node with a
        sibling after it, or to the start. */
    method ClimbUp(cf: Node, toit: Node, ghost w1: World, ghost top: Node, ghost cp: map<Node, Node>, start: Node)
      returns (up: Node, to: Node)
      requires CopyingAt(w1, start, top, cp, cf, toit) && KidsIn(w1, cp, cf)
      ensures CopyingAt(w1, start, top, cp, up, to) && KidsIn(w1, cp, up)
      ensures up == start || up.nextSibling != null
    {
      hide *;
      up, to := cf, toit;
      CopyingAtIs(w1, start, top, cp, cf, toit);
      CopyingIsClosed(w1, w, start, top, cp);
      NumberIs(w1, cf);
      while up.nextSibling == null && up != start
        invariant CopyingAt(w1, start, top, cp, up, to) && KidsIn(w1, cp, up)
        invariant up in w1.depth
        decreases w1.depth[up]
      {
        CopyingAtIs(w1, start, top, cp, up, to);
        SourceField(w1, start, top, cp, up);
        GoUp(w1, start, cp, up);
        CopyParent(w1, start, top, cp, up);
        up := up.parent;
        to := to.parent;
        CopyingAtIs(w1, start, top, cp, up, to);
      }
    }

    /** Copies the next sibling of a node whose children are all copied. */
    method CopyNextSibling(cf: Node, toit: Node, ghost w1: World, ghost start: Node, ghost top: Node,
                           ghost cp: map<Node, Node>)
      returns (next: Node, x: Node)
      requires CopyingAt(w1, start, top, cp, cf, toit) && KidsIn(w1, cp, cf)
      requires cf.nextSibling != null && cf != start
      modifies this, w.h.Keys
      ensures next == old(cf.nextSibling) && cf in w1.h && next == w1.h[cf].next
      ensures next in w1.h && next !in cp && next != top && next.data == old(next.data)
      ensures CopyingAt(w1, start, top, cp[next := x], next, x)
      ensures w1.h[next].first == null || w1.h[next].first !in cp[next := x]
      ensures fresh(x) && x.data == old(next.data)
      ensures w.h.Keys == old(w).h.Keys + {x}
      ensures forall m | m in old(w).h :: m.data == old(m.data)
    {
      hide *;
      CopyingAtIs(w1, start, top, cp, cf, toit);
      SourceField(w1, start, top, cp, cf);
      CopyingIsClosed(w1, w, start, top, cp);
      next := cf.nextSibling;
      GoRight(w1, start, cp, cf, toit);
      NextIs(w1, start, cp, next);
      CopyParent(w1, start, top, cp, cf);
      SiblingIs(w1, cf);
      x := AppendCopy(toit.parent, next, w1, start, top, cp);
      GoRight(w1, start, cp, cf, x);
      ClimbingIs(w1, start, cp[next := x], next);
      CopyingAtIs(w1, start, top, cp[next := x], next, x);
    }

    /** A sibling reached inside the source is not the node after the whole source. */
    lemma NotPastTheEnd(w1: World, start: Node, top: Node, cp: map<Node, Node>, cf: Node, toit: Node)
      requires CopyingAt(w1, start, top, cp, cf, toit) && KidsIn(w1, cp, cf) && start in w1.h
      ensures cf == start ==> cf.nextSibling == w1.h[start].next
      ensures cf != start && cf.nextSibling != null ==> cf.nextSibling != w1.h[start].next
    {
      hide *;
      CopyingAtIs(w1, start, top, cp, cf, toit);
      SourceField(w1, start, top, cp, cf);
      CopyingIsClosed(w1, w, start, top, cp);
      if cf != start && cf.nextSibling != null {
        GoRight(w1, start, cp, cf, toit);
      }
    }

    /** One round of the copying loop: copies the next node of the source, or comes
        to its end. */
    method CopyStep(cf: Node, toit: Node, start: Node, last: Node?, ghost w1: World, ghost top: Node,
                    ghost cp: map<Node, Node>)
      returns (next: Node?, x: Node, ghost cp': map<Node, Node>)
      requires CopyingAt(w1, start, top, cp, cf, toit) && start in w1.h && last == w1.h[start].next
      requires cf in w1.h && (w1.h[cf].first == null || w1.h[cf].first !in cp)
      modifies this, w.h.Keys
      ensures next != last ==> next != null && next in w1.h && next !in cp && next != top && cp' == cp[next := x]
      ensures next != last ==> CopyingAt(w1, start, top, cp', next, x)
      ensures next != last ==> w1.h[next].first == null || w1.h[next].first !in cp'
      ensures next != last ==> fresh(x) && x.data == old(next.data) && w.h.Keys == old(w).h.Keys + {x}
      ensures next == last ==> CopyingAt(w1, start, top, cp, start, top) && KidsIn(w1, cp, start)
      ensures next == last ==> cp' == cp && w == old(w)
      ensures forall m | m in old(w).h :: m.data == old(m.data)
    {
      hide *;
      CopyingAtIs(w1, start, top, cp, cf, toit);
      SourceField(w1, start, top, cp, cf);
      if cf.firstChild != null {
        next, x := CopyFirstChild(cf, toit, w1, start, top, cp);
        cp' := cp[next := x];
      } else {
        LeafHasKidsIn(w1, cp, cf);
        var up, to := ClimbUp(cf, toit, w1, top, cp, start);
        NotPastTheEnd(w1, start, top, cp, up, to);
        CopyingAtIs(w1, start, top, cp, up, to);
        CopyingIsClosed(w1, w, start, top, cp);
        if up.nextSibling != last {
          next, x := CopyNextSibling(up, to, w1, start, top, cp);
          cp' := cp[next := x];
        } else {
          next, x, cp' := up.nextSibling, to, cp;
        }
      }
    }

    /** Replaces the subtree at position by a copy of the subtree at from, which has
        no node in common with it. The copying loop climbs up and down the source. */
    method Replace(position: Node, from: Node) returns (result: Node, ghost cp: map<Node, Node>)
      requires Valid() && Apart(w, position, from)
      requires w.h[position].parent != null || (w.h[position].prev != null && w.h[position].next != null)
      modifies this, w.h.Keys
      ensures Valid() && IsReplaced(old(w), position, from, result, cp, w)
      ensures forall n | n in cp :: fresh(cp[n]) && n in old(w).h && cp[n].data == old(n.data)
      ensures forall n | n in old(w).h :: n.data == old(n.data)
    {
      hide *;
      ghost var w0 := w;
      ValidIs();
      ApartIs(w0, position, from);
      result := TakePlace(position, from);
      ghost var w1 := w;
      ValidIs();
      SwapFacts(w0, position, from, result, w1);
      StoredIs(w1);
      CellOfIs(from);
      var last := from.nextSibling;
      cp := map[from := result];
      CopyStarts(w1, from, result);
      ClimbStarts(w1, from, result);
      CopyingAtIs(w1, from, result, cp, from, result);
      var currentFrom: Node?, toit: Node, going := from, result, true;
      while going
        invariant going ==> currentFrom != null && currentFrom in w1.h
        invariant going ==> CopyingAt(w1, from, result, cp, currentFrom, toit)
        invariant going ==> w1.h[currentFrom].first == null || w1.h[currentFrom].first !in cp
        invariant !going ==> CopyingAt(w1, from, result, cp, from, result) && KidsIn(w1, cp, from)
        invariant forall y | y in w.h :: y in w0.h || fresh(y)
        invariant forall n | n in cp :: n in w0.h && fresh(cp[n]) && cp[n] in w.h && cp[n].data == old(n.data)
        invariant forall n | n in w0.h :: n.data == old(n.data)
        decreases w1.h.Keys - cp.Keys, going
      {
        ghost var before := cp;
        currentFrom, toit, cp := CopyStep(currentFrom, toit, from, last, w1, result, cp);
        going := currentFrom != last;
        if going { OneLess(w1, before, currentFrom, toit); }
      }
      CopyingAtIs(w1, from, result, cp, from, result);
      ValidIs();
      ReplaceResult(w0, position, from, result, w1, cp, w);
    }
  }

  /** Drops the links to the children. */
  method Bare(it: Node)
    modifies it
    ensures CellOf(it) == Childless(old(CellOf(it))) && it.data == old(it.data)
  {
    it.firstChild := null;
    it.lastChild := null;
  }

  lemma WithoutIs(w: World, p: Node, done: set<Node>)
    ensures var w' := Without(w, p, done);
            && w'.h.Keys == w.h.Keys - done && w'.depth == w.depth && w'.idx == w.idx
            && (forall n | n in w'.h :: w'.h[n] == if n == p then Childless(w.h[n]) else w.h[n])
  {
  }

  lemma CutKeepsParent(w: World, p: Node, done: set<Node>, w': World)
    requires Consistent(w) && p in w.h && IsCut(w, p, done, w')
    ensures p in w'.h
  {
    hide *;
    CutIs(w, p, done, w');
    forall d | d in done ensures !Under(w, d, p) {
      UnderOfParent(w, p, d);
      NotAbove(w, p, d);
    }
  }

  lemma ParentNotDone(w: World, p: Node, done: set<Node>, w': World)
    requires Consistent(w) && p in w.h && IsCut(w, p, done, w')
    ensures p !in done
  {
    hide *;
    CutIs(w, p, done, w');
    TopIsNotItsOwnParent(w, p);
  }

  // ---- Erasing a node ----

  /** The node and all below it are gone, and its neighbours are joined. */
  ghost predicate IsErased(w: World, x: Node, w': World)
    requires Consistent(w) && x in w.h
  {
    && (forall n | n in w'.h :: n in w.h)
    && (forall n | n in w.h :: n in w'.h <==> !Within(w, x, n))
    && (forall n | n in w'.h :: w'.h[n] == Unlinked(w.h[n], n, w.h[x].parent, w.h[x].prev, w.h[x].next))
  }

  lemma ErasedIs(w: World, x: Node, wa: World, w': World)
    requires Consistent(w) && x in w.h
    requires w.h[x].parent != null || (w.h[x].prev != null && w.h[x].next != null)
    requires IsPruned(w, x, wa) && x in wa.h && IsLinkedOut(wa, x, w')
    ensures IsErased(w, x, w') && Consistent(w') && Removable(wa, x) && Consistent(wa)
  {
    hide *;
    var c := w.h[x];
    PruneKeepsConsistency(w, x, wa);
    PrunedCell(w, x, wa, x);
    ChildlessLinks(c);
    RemovableIs(wa, x);
    LinkOutKeepsConsistency(wa, x, w');
    forall n ensures n in w'.h <==> n in w.h && !Within(w, x, n) {
      LinkOutMember(wa, x, w', n);
      PrunedMembers(w, x, wa, n);
      if n in w.h { WithinIs(w, x, n); }
    }
    forall n | n in w'.h ensures w'.h[n] == Unlinked(w.h[n], n, c.parent, c.prev, c.next) {
      WithinIs(w, x, n);
      PrunedMembers(w, x, wa, n);
      PrunedCell(w, x, wa, n);
      LinkOutCell(wa, x, w', n);
    }
    IsErasedIs(w, x, w');
  }

  lemma IsErasedIs(w: World, x: Node, w': World)
    requires Consistent(w) && x in w.h
    ensures IsErased(w, x, w') <==>
      && (forall n | n in w'.h :: n in w.h)
      && (forall n | n in w.h :: n in w'.h <==> !Within(w, x, n))
      && (forall n | n in w'.h :: w'.h[n] == Unlinked(w.h[n], n, w.h[x].parent, w.h[x].prev, w.h[x].next))
  {
    hide Within, Consistent, Unlinked;
  }

  lemma StoredOut(w: World, x: Node, w': World)
    requires x in w.h && IsLinkedOut(w, x, w')
    requires forall n | n in w.h && n != x :: CellOf(n) == Unlinked(w.h[n], n, w.h[x].parent, w.h[x].prev, w.h[x].next)
    ensures Stored(w')
  {
  }

  function WithTree(w: World, head: Node, feet: Node): World {
    World(w.h[head := Cell(null, null, null, null, feet)][feet := Cell(null, null, null, head, null)],
          w.depth[head := 0][feet := 0], w.idx[head := 0][feet := 1])
  }

  lemma WithTreeIs(w: World, head: Node, feet: Node)
    requires Consistent(w) && head !in w.h && feet !in w.h && head != feet
    ensures Consistent(WithTree(w, head, feet))
    ensures WithTree(w, head, feet).h
         == w.h[head := Cell(null, null, null, null, feet)][feet := Cell(null, null, null, head, null)]
  {
    hide Consistent, NodeOk;
    var w' := WithTree(w, head, feet);
    forall n | n in w'.h ensures NodeOk(w', n) {
      if n in w.h {
        NodeIs(w, n);
        WithTreeKeeps(w, head, feet, n);
      } else {
        SentinelsOk(w, head, feet);
      }
    }
    ConsistentIs(w');
  }

  lemma WithTreeKeeps(w: World, head: Node, feet: Node, n: Node)
    requires NodeOk(w, n) && head !in w.h && feet !in w.h && head != feet
    ensures NodeOk(WithTree(w, head, feet), n)
  {
    hide Consistent;
  }

  lemma SentinelsOk(w: World, head: Node, feet: Node)
    requires head != feet
    ensures NodeOk(WithTree(w, head, feet), head) && NodeOk(WithTree(w, head, feet), feet)
  {
    hide Consistent;
  }

  function Without(w: World, p: Node, done: set<Node>): World {
    World(map n | n in w.h && n !in done :: if n == p then Childless(w.h[n]) else w.h[n], w.depth, w.idx)
  }

  /** The children of p before cur are done. */
  ghost predicate DoneUpTo(w: World, p: Node, done: set<Node>, cur: Node?) {
    forall c | c in w.h && w.h[c].parent == p && c in w.idx ::
      c in done <==> (cur == null || (cur in w.idx && w.idx[c] < w.idx[cur]))
  }

  lemma GapAtEnd(w: World, p: Node)
    requires Consistent(w) && p in w.h
    ensures Gap(w, p, w.h[p].last, null)
  {
    assert NodeOk(w, p);
  }

  lemma SeparateAtEnd(w: World, p: Node, x: Node)
    requires Consistent(w) && p in w.h && x !in w.h
    ensures Separate(p, w.h[p].last, null, x)
  {
    assert NodeOk(w, p);
    if w.h[p].last != null { assert NodeOk(w, w.h[p].last); }
  }

  lemma SeparateNeighbours(w: World, n: Node, x: Node)
    requires Consistent(w) && n in w.h && x !in w.h
    ensures Separate(w.h[n].parent, w.h[n].prev, w.h[n].next, x)
    ensures Separate(w.h[n].parent, w.h[n].prev, w.h[n].next, n)
    ensures Separate(w.h[n].parent, w.h[n].prev, n, x)
    ensures Separate(w.h[n].parent, n, w.h[n].next, x)
  {
    assert NodeOk(w, n);
    if w.h[n].prev != null { assert NodeOk(w, w.h[n].prev); }
    if w.h[n].next != null { assert NodeOk(w, w.h[n].next); }
  }

  lemma GapBefore(w: World, n: Node)
    requires Consistent(w) && n in w.h && (w.h[n].parent != null || w.h[n].prev != null)
    ensures Gap(w, w.h[n].parent, w.h[n].prev, n)
  {
    assert NodeOk(w, n);
    if w.h[n].prev != null { assert NodeOk(w, w.h[n].prev); }
  }

  lemma GapAfter(w: World, n: Node)
    requires Consistent(w) && n in w.h && (w.h[n].parent != null || w.h[n].next != null)
    ensures Gap(w, w.h[n].parent, n, w.h[n].next)
  {
    assert NodeOk(w, n);
    if w.h[n].next != null { assert NodeOk(w, w.h[n].next); }
  }

  // ---- Which nodes have been freed ----

  /** Exactly the nodes below `a` have been freed. */
  ghost predicate AreFreed(w: World, a: Node, alive: set<Node>, alive': set<Node>)
    requires Consistent(w)
  {
    && alive' <= alive
    && forall n | n in alive :: n in alive' <==> !(n in w.h && Under(w, a, n))
  }

  /** Exactly the nodes of done and those below them have been freed. */
  ghost predicate ChildrenFreed(w: World, done: set<Node>, alive: set<Node>, alive': set<Node>)
    requires Consistent(w)
  {
    && alive' <= alive
    && forall n | n in alive :: n in alive' <==> n !in done && !(n in w.h && exists c :: c in done && Under(w, c, n))
  }

  lemma FreedIs(w: World, a: Node, alive: set<Node>, alive': set<Node>)
    requires Consistent(w)
    ensures AreFreed(w, a, alive, alive') <==>
      alive' <= alive && forall n | n in alive :: n in alive' <==> !(n in w.h && Under(w, a, n))
  {
    hide Under, Consistent;
  }

  lemma ChildrenFreedIs(w: World, done: set<Node>, alive: set<Node>, alive': set<Node>)
    requires Consistent(w)
    ensures ChildrenFreed(w, done, alive, alive') <==>
      && alive' <= alive
      && forall n | n in alive :: n in alive' <==> n !in done && !(n in w.h && exists c :: c in done && Under(w, c, n))
  {
    hide Under, Consistent;
  }

  lemma NoneFreed(w: World, alive: set<Node>)
    requires Consistent(w)
    ensures ChildrenFreed(w, {}, alive, alive)
  {
    hide *;
    ChildrenFreedIs(w, {}, alive, alive);
  }

  /** A child not done yet is alive, and so is all below it. */
  lemma StillAlive(w: World, p: Node, done: set<Node>, w1: World, alive: set<Node>, alive': set<Node>, c: Node)
    requires Consistent(w) && Consistent(w1) && p in w.h && IsCut(w, p, done, w1) && ChildrenFreed(w, done, alive, alive')
    requires forall n | n in w.h && Within(w, p, n) :: n in alive
    requires c in w.h && w.h[c].parent == p && c !in done && c in w1.h
    ensures forall n | n in w1.h && Within(w1, c, n) :: n in alive'
  {
    hide *;
    CutIs(w, p, done, w1);
    ChildrenFreedIs(w, done, alive, alive');
    forall m | m in w1.h && m in w.h ensures w1.h[m].parent == w.h[m].parent { ChildlessIs(w.h[m]); }
    forall n | n in w1.h && Within(w1, c, n) ensures n in alive' {
      UnderStable(w, w1, c, n);
      WithinIs(w1, c, n);
      WithinIs(w, p, n);
      UnderOfParent(w, p, c);
      if n != c {
        UnderTrans(w, p, c, n);
        if n in done { SiblingsNotUnder(w, p, c, n); }
      }
    }
  }

  lemma NotFreed(w: World, a: Node, alive: set<Node>, alive': set<Node>)
    requires Consistent(w) && a in w.h && a in alive && AreFreed(w, a, alive, alive')
    ensures a in alive'
  {
    NotUnderSelf(w, a);
  }

  lemma OneMoreFreed(w: World, p: Node, done: set<Node>, w1: World, c: Node, alive: set<Node>, alive1: set<Node>,
                     alive2: set<Node>, alive3: set<Node>)
    requires Consistent(w) && Consistent(w1) && p in w.h && IsCut(w, p, done, w1) && c in w1.h
    requires ChildrenFreed(w, done, alive, alive1) && AreFreed(w1, c, alive1, alive2) && alive3 == alive2 - {c}
    requires forall n | n in w.h && Within(w, p, n) :: n in alive
    ensures ChildrenFreed(w, done + {c}, alive, alive3)
  {
    hide *;
    CutIs(w, p, done, w1);
    ChildrenFreedIs(w, done, alive, alive1);
    FreedIs(w1, c, alive1, alive2);
    forall m | m in w1.h && m in w.h ensures w1.h[m].parent == w.h[m].parent { ChildlessIs(w.h[m]); }
    forall n | n in alive
      ensures n in alive3 <==> n !in done + {c} && !(n in w.h && exists d :: d in done + {c} && Under(w, d, n))
    {
      assert c in done + {c} && forall d | d in done :: d in done + {c};
      if n in w1.h { UnderStable(w, w1, c, n); }
    }
    ChildrenFreedIs(w, done + {c}, alive, alive3);
  }

  lemma AllFreed(w: World, p: Node, done: set<Node>, w1: World, alive: set<Node>, alive': set<Node>)
    requires Consistent(w) && p in w.h && IsCut(w, p, done, w1) && ChildrenFreed(w, done, alive, alive')
    requires forall c | c in w.h && w.h[c].parent == p :: c in done
    ensures AreFreed(w, p, alive, alive')
  {
    hide *;
    CutIs(w, p, done, w1);
    ChildrenFreedIs(w, done, alive, alive');
    forall n | n in alive ensures n in alive' <==> !(n in w.h && Under(w, p, n)) {
      if n in w.h { UnderIffUnderChild(w, p, done, n); }
    }
    FreedIs(w, p, alive, alive');
  }

  /** After erasing the children of a node of a valid forest, the nodes alive are
      again the nodes in use. */
  lemma FreedIsPruned(w: World, p: Node, w': World, alive: set<Node>)
    requires Consistent(w) && IsPruned(w, p, w') && AreFreed(w, p, w.h.Keys, alive)
    ensures alive == w'.h.Keys
  {
    hide *;
    FreedIs(w, p, w.h.Keys, alive);
    forall n ensures n in alive <==> n in w'.h { PrunedMembers(w, p, w', n); }
  }

  /** After a round: one more child is done, and the next is still there. */
  lemma RoundDone(w: World, p: Node, done: set<Node>, w1: World, c: Node, w2: World, cur: Node?, alive: set<Node>,
                  alive1: set<Node>, alive2: set<Node>, alive3: set<Node>)
    requires Consistent(w) && Consistent(w1) && Consistent(w2) && p in w.h && c in w1.h
    requires IsCut(w, p, done, w1) && IsPruned(w1, c, w2) && DoneUpTo(w, p, done, c)
    requires c in w.h && w.h[c].parent == p && c !in done && cur == w.h[c].next
    requires ChildrenFreed(w, done, alive, alive1) && AreFreed(w1, c, alive1, alive2) && alive3 == alive2 - {c}
    requires forall n | n in w.h && Within(w, p, n) :: n in alive
    ensures IsCut(w, p, done + {c}, w2) && p in w2.h && DoneUpTo(w, p, done + {c}, cur)
    ensures cur != null ==> cur in w2.h && cur in w.h && w.h[cur].parent == p && cur !in done + {c}
    ensures ChildrenFreed(w, done + {c}, alive, alive3)
    ensures w2.h.Keys <= w1.h.Keys && w2.depth == w1.depth
  {
    hide *;
    CutStep(w, p, done, w1, c, w2);
    CutKeepsParent(w, p, done + {c}, w2);
    DoneStep(w, p, done, c);
    CutHasSiblings(w, p, done + {c}, w2, cur, c);
    OneMoreFreed(w, p, done, w1, c, alive, alive1, alive2, alive3);
    PruneKeeps(w1, c, w2);
    if cur != null {
      NotDoneYet(w, p, done + {c}, cur);
    }
  }

  lemma NotDoneYet(w: World, p: Node, done: set<Node>, cur: Node)
    requires Consistent(w) && cur in w.h && w.h[cur].parent == p && DoneUpTo(w, p, done, cur)
    ensures cur !in done
  {
    NumberIs(w, cur);
  }

  // ---- Erasing children one by one ----

  lemma CutStarts(w: World, p: Node)
    requires Consistent(w) && p in w.h
    ensures IsCut(w, p, {}, w)
  {
    hide Under, Consistent;
  }

  lemma FirstChildNumber(w: World, c: Node)
    requires Consistent(w) && c in w.h && w.h[c].prev == null && w.h[c].parent != null
    ensures c in w.idx && w.idx[c] == 0
  {
    NumberIs(w, c);
  }

  lemma DoneStarts(w: World, p: Node, cur: Node?)
    requires Consistent(w) && p in w.h && cur == w.h[p].first
    requires cur != null ==> cur in w.idx && w.idx[cur] == 0
    ensures DoneUpTo(w, p, {}, cur)
  {
    forall c | c in w.h && w.h[c].parent == p ensures cur != null {
      ParentHasChild(w, c);
    }
  }

  lemma CutCell(w: World, p: Node, done: set<Node>, w': World, n: Node)
    requires Consistent(w) && IsCut(w, p, done, w') && n in w'.h && n !in done
    ensures n in w.h && w'.h[n] == w.h[n]
  {
    CutIs(w, p, done, w');
  }

  lemma DoneStep(w: World, p: Node, done: set<Node>, c: Node)
    requires Consistent(w) && c in w.h && w.h[c].parent == p && DoneUpTo(w, p, done, c)
    ensures DoneUpTo(w, p, done + {c}, w.h[c].next)
  {
    NumberIs(w, c);
    SiblingIs(w, c);
    var r := w.h[c].next;
    if r != null { NumberIs(w, r); }
    forall d | d in w.h && w.h[d].parent == p && d in w.idx
      ensures d in done + {c} <==> (r == null || (r in w.idx && w.idx[d] < w.idx[r]))
    {
      NumberIs(w, d);
      if w.idx[d] == w.idx[c] { SameNumberSameChild(w, c, d); }
      if w.idx[d] > w.idx[c] { SmallerNumberHasNext(w, c, d); }
    }
  }

  lemma AllDone(w: World, p: Node, done: set<Node>)
    requires Consistent(w) && DoneUpTo(w, p, done, null)
    ensures forall c | c in w.h && w.h[c].parent == p :: c in done
  {
    forall c | c in w.h && w.h[c].parent == p ensures c in done { NumberIs(w, c); }
  }

  /** The next child to be freed is still there. */
  lemma CutHasSiblings(w: World, p: Node, done: set<Node>, w': World, r: Node?, c: Node)
    requires Consistent(w) && IsCut(w, p, done, w') && c in w.h && w.h[c].parent == p && r == w.h[c].next
    ensures r != null ==> r in w'.h && r in w.h && w.h[r].parent == p
  {
    SiblingIs(w, c);
    CutIs(w, p, done, w');
    if r != null {
      forall d | d in done ensures !Under(w, d, r) { SiblingsNotUnder(w, p, d, r); }
    }
  }

  lemma PruneKeeps(w: World, p: Node, w': World)
    requires Consistent(w) && IsPruned(w, p, w')
    ensures w'.h.Keys <= w.h.Keys && w'.depth == w.depth
  {
    IsPrunedIs(w, p, w');
  }

  lemma OneLess(w: World, cp: map<Node, Node>, n: Node, x: Node)
    requires n in w.h && n !in cp
    ensures w.h.Keys - cp[n := x].Keys < w.h.Keys - cp.Keys
  {
    assert n in w.h.Keys - cp.Keys;
  }

  lemma KeysAfterOut(w: World, x: Node, w': World)
    requires x in w.h && IsLinkedOut(w, x, w')
    ensures w'.h.Keys == w.h.Keys - {x}
  {
  }

  lemma KeysAfterSwap(wa: World, x: Node, wb: World, p: Node?, a: Node?, b: Node?, tmp: Node, w: World)
    requires x in wa.h && IsLinkedOut(wa, x, wb) && IsLinkedIn(wb, p, a, b, tmp, w)
    ensures w.h.Keys == wa.h.Keys - {x} + {tmp}
  {
    hide *;
    KeysAfterOut(wa, x, wb);
    LinkedInNew(wb, p, a, b, tmp, w);
  }

  /** The cell of a node that stays, in one step. */
  lemma SwapCell(wa: World, x: Node, wb: World, tmp: Node, n: Node)
    requires x in wa.h && IsLinkedOut(wa, x, wb) && n in wb.h
    ensures n in wa.h && n != x
    ensures var c := wa.h[x];
            Relinked(wb.h[n], n, c.parent, c.prev, c.next, tmp) == Relinked(wa.h[n], n, c.parent, c.prev, c.next, tmp)
    ensures var c := wa.h[x]; n != c.parent && n != c.prev && n != c.next ==>
              Relinked(wa.h[n], n, c.parent, c.prev, c.next, tmp) == wa.h[n]
  {
    hide *;
    var c := wa.h[x];
    LinkOutMember(wa, x, wb, n);
    LinkOutCell(wa, x, wb, n);
    OutThenIn(wa.h[n], n, c.parent, c.prev, c.next, tmp);
    RelinkedElsewhere(wa.h[n], n, c.parent, c.prev, c.next, tmp);
  }

  lemma SwapKeepsConsistency(wa: World, x: Node, wb: World, tmp: Node, w: World)
    requires Consistent(wa) && Removable(wa, x) && x in wa.h && IsLinkedOut(wa, x, wb)
    requires var c := wa.h[x]; IsLinkedIn(wb, c.parent, c.prev, c.next, tmp, w)
    ensures Consistent(w) && w.h.Keys == wa.h.Keys - {x} + {tmp}
  {
    hide *;
    var c := wa.h[x];
    LinkOutKeepsConsistency(wa, x, wb);
    LinkOutLeavesGap(wa, x, wb);
    LinkInKeepsConsistency(wb, c.parent, c.prev, c.next, tmp, w);
    KeysAfterSwap(wa, x, wb, c.parent, c.prev, c.next, tmp, w);
  }

  lemma RemovableHas(w: World, x: Node)
    requires Removable(w, x)
    ensures x in w.h && (w.h[x].parent != null || (w.h[x].prev != null && w.h[x].next != null))
  {
  }

  lemma SeparateFromNeighbours(w: World, n: Node)
    requires Consistent(w) && n in w.h
    ensures Separate(w.h[n].parent, w.h[n].prev, w.h[n].next, n)
  {
    assert NodeOk(w, n);
    if w.h[n].prev != null { assert NodeOk(w, w.h[n].prev); }
    if w.h[n].next != null { assert NodeOk(w, w.h[n].next); }
  }

  lemma SwapFacts(w: World, pos: Node, from: Node, x: Node, w1: World)
    requires Consistent(w) && Consistent(w1) && Apart(w, pos, from) && IsSwapped(w, pos, x, w1)
    ensures from in w1.h && x in w1.h && x !in w.h && w1.h[x].first == null && !Within(w1, from, x)
    ensures forall n | n in w1.h :: n in w.h || n == x
  {
    hide *;
    ApartIs(w, pos, from);
    IsSwappedIs(w, pos, x, w1);
    WithinIs(w, from, from);
    SourceKept(w, pos, from, x, w1, from);
    NewIsOutside(w, pos, from, x, w1);
    ChildlessLinks(w1.h[x]);
    NewCellFirst(w.h[pos].parent, w.h[pos].prev, w.h[pos].next);
  }

  lemma NewCellFirst(p: Node?, a: Node?, b: Node?)
    ensures Cell(p, null, null, a, b).first == null
  {
  }

  lemma LeafHasKidsIn(w1: World, cp: map<Node, Node>, n: Node)
    requires Consistent(w1) && n in w1.h && w1.h[n].first == null
    ensures KidsIn(w1, cp, n)
  {
    forall k | k in w1.h ensures w1.h[k].parent != n { ParentHasChild(w1, k); }
  }
}
