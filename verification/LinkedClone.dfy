/** Copying a whole tree: the old contents go, a placeholder comes in for each root of the
    other tree, and each placeholder is replaced by a copy of its root's subtree. */
module LinkedClone {
  import opened LinkedNodes
  import opened LinkedCopy
  import opened LinkedReplace
  import opened LinkedTree
  import opened LinkedWalk
  import opened LinkedMove
  import opened LinkedReparent
  import PreOrder

  // ---- Two trees ----

  /** Trees with different feet have no root in common. */
  lemma {:induction false} RootsDisjoint(w: World, head: Node, roots: seq<Node>, feet: Node, head': Node, roots': seq<Node>,
                                         feet': Node, i: nat, j: nat)
    requires TopList(w, head, roots, feet) && TopList(w, head', roots', feet') && feet != feet'
    requires i <= |roots| && j <= |roots'|
    ensures TopAt(roots, feet, i) != TopAt(roots', feet', j)
    decreases |roots| - i
  {
    hide *;
    TopListAt(w, head, roots, feet, i);
    TopListAt(w, head', roots', feet', j);
    TopAtIs(roots, feet, i);
    TopAtIs(roots', feet', j);
    TopAtIs(roots, feet, i + 1);
    TopAtIs(roots', feet', j + 1);
    if i < |roots| && j < |roots'| {
      RootsDisjoint(w, head, roots, feet, head', roots', feet', i + 1, j + 1);
    }
  }

  /** The nodes of a tree: its sentinels and all within its roots. */
  ghost predicate Holds(w: World, head: Node, roots: seq<Node>, feet: Node, n: Node) {
    Consistent(w) && n in w.h && (n == head || n == feet || InTree(w, roots, n))
  }

  lemma HoldsIs(w: World, head: Node, roots: seq<Node>, feet: Node, n: Node)
    ensures Holds(w, head, roots, feet, n) <==>
      Consistent(w) && n in w.h && (n == head || n == feet || InTree(w, roots, n))
  {
    hide Consistent, InTree;
  }

  /** The topmost node above a node. */
  lemma {:induction false} TopAbove(w: World, n: Node) returns (r: Node)
    requires Consistent(w) && n in w.h && n in w.depth
    ensures r in w.h && w.h[r].parent == null && Within(w, r, n)
    decreases w.depth[n]
  {
    hide *;
    NumberIs(w, n);
    WithinIs(w, n, n);
    if w.h[n].parent == null {
      r := n;
    } else {
      var p: Node := w.h[n].parent;
      r := TopAbove(w, p);
      WithinIs(w, r, p);
      WithinIs(w, r, n);
      UnderOfParent(w, r, n);
    }
  }

  /** Only the sentinels and the roots of a tree are at its top. */
  lemma TopOfTree(w: World, head: Node, roots: seq<Node>, feet: Node, n: Node, r: Node)
    requires TopList(w, head, roots, feet) && Holds(w, head, roots, feet, n)
    requires r in w.h && Consistent(w) && w.h[r].parent == null && Within(w, r, n)
    ensures r == head || r == feet || r in roots
  {
    hide *;
    HoldsIs(w, head, roots, feet, n);
    TopListAt(w, head, roots, feet, 0);
    RootIs(w, head, roots, feet, |roots|);
    TopAtIs(roots, feet, |roots|);
    WithinIs(w, r, n);
    UnderOfParent(w, r, n);
    InTreeIs(w, roots, n);
    if n != head && n != feet {
      var q :| q in roots && Within(w, q, n);
      var j: nat :| j < |roots| && roots[j] == q;
      TopStep(w, head, roots, feet, j);
      NumberIs(w, n);
      NestedAbove(w, q, r, n);
      WithinIs(w, q, r);
      WithinIs(w, r, q);
      UnderOfParent(w, q, r);
      UnderOfParent(w, r, q);
    }
  }

  /** Two trees with different feet have no node in common. */
  lemma TreesDisjoint(w: World, head: Node, roots: seq<Node>, feet: Node, head': Node, roots': seq<Node>, feet': Node,
                      n: Node)
    requires TopList(w, head, roots, feet) && TopList(w, head', roots', feet') && feet != feet'
    requires Holds(w, head, roots, feet, n)
    ensures !Holds(w, head', roots', feet', n)
  {
    hide *;
    HoldsIs(w, head, roots, feet, n);
    if Holds(w, head', roots', feet', n) {
      NumberIs(w, n);
      var r := TopAbove(w, n);
      TopOfTree(w, head, roots, feet, n, r);
      TopOfTree(w, head', roots', feet', n, r);
      TopsDiffer(w, head, roots, feet, head', roots', feet', r);
    }
  }

  lemma TopsDiffer(w: World, head: Node, roots: seq<Node>, feet: Node, head': Node, roots': seq<Node>, feet': Node, r: Node)
    requires TopList(w, head, roots, feet) && TopList(w, head', roots', feet') && feet != feet'
    requires r == head || r == feet || r in roots
    ensures r != head' && r != feet' && r !in roots'
  {
    hide *;
    TopListAt(w, head, roots, feet, 0);
    TopListAt(w, head', roots', feet', 0);
    TopAtIs(roots, feet, 0);
    TopAtIs(roots', feet', 0);
    var i: int := -1;
    if r != head { i := PlaceOf(w, head, roots, feet, r); }
    if r == head' || r == feet' || r in roots' {
      var j: int := -1;
      if r != head' { j := PlaceOf(w, head', roots', feet', r); }
      if i >= 0 && j >= 0 {
        RootsDisjoint(w, head, roots, feet, head', roots', feet', i, j);
      } else if i < |roots| && j < |roots'| {
        if i >= 0 { TopAtIs(roots, feet, i); }
        if j >= 0 { TopAtIs(roots', feet', j); }
        NextPlace(w, head, roots, feet, i);
        NextPlace(w, head', roots', feet', j);
        RootsDisjoint(w, head, roots, feet, head', roots', feet', i + 1, j + 1);
      } else {
        TopAtIs(roots, feet, |roots|);
        TopAtIs(roots', feet', |roots'|);
      }
    }
  }

  /** Where a root or the feet stand in the top list. */
  lemma PlaceOf(w: World, head: Node, roots: seq<Node>, feet: Node, r: Node) returns (i: nat)
    requires TopList(w, head, roots, feet) && (r == feet || r in roots)
    ensures i <= |roots| && TopAt(roots, feet, i) == r
  {
    hide *;
    TopAtIs(roots, feet, |roots|);
    if r == feet {
      i := |roots|;
    } else {
      i :| 0 <= i < |roots| && roots[i] == r;
      TopAtIs(roots, feet, i);
    }
  }

  lemma NextPlace(w: World, head: Node, roots: seq<Node>, feet: Node, i: int)
    requires TopList(w, head, roots, feet) && -1 <= i < |roots|
    ensures var r := if i == -1 then head else roots[i]; r in w.h && w.h[r].next == TopAt(roots, feet, i + 1)
  {
    hide *;
    TopListAt(w, head, roots, feet, if i == -1 then 0 else i);
    TopAtIs(roots, feet, i + 1);
  }

  // ---- A tree that a change leaves alone ----

  /** The sentinels and the nodes of the listing have the links they had. */
  ghost predicate Kept(w: World, w': World, head: Node, feet: Node, l: seq<Node>) {
    && Consistent(w) && Consistent(w')
    && (head in w.h && head in w'.h && w'.h[head] == w.h[head])
    && (feet in w.h && feet in w'.h && w'.h[feet] == w.h[feet])
    && forall n | n in l :: n in w.h && n in w'.h && w'.h[n] == w.h[n]
  }

  lemma KeptIs(w: World, w': World, head: Node, feet: Node, l: seq<Node>)
    ensures Kept(w, w', head, feet, l) <==>
      && Consistent(w) && Consistent(w')
      && (head in w.h && head in w'.h && w'.h[head] == w.h[head])
      && (feet in w.h && feet in w'.h && w'.h[feet] == w.h[feet])
      && forall n | n in l :: n in w.h && n in w'.h && w'.h[n] == w.h[n]
  {
    hide Consistent;
  }

  lemma Listed(w: World, head: Node, roots: seq<Node>, feet: Node, l: seq<Node>, n: Node)
    requires TopList(w, head, roots, feet) && IsForest(w, roots, feet, l)
    ensures Holds(w, head, roots, feet, n) <==> n == head || n == feet || n in l
    ensures n in l ==> n in w.h
  {
    hide *;
    TopListAt(w, head, roots, feet, 0);
    HoldsIs(w, head, roots, feet, n);
    ForestIs(w, roots, feet, l);
    if n in l {
      var i: nat :| i < |l| && l[i] == n;
      InPlace(w, head, roots, feet, l, i);
    }
  }

  lemma ParentListed(w: World, head: Node, roots: seq<Node>, feet: Node, l: seq<Node>, n: Node)
    requires TopList(w, head, roots, feet) && IsForest(w, roots, feet, l) && n in l
    ensures n in w.h && (w.h[n].parent != null ==> w.h[n].parent in l)
  {
    hide *;
    Listed(w, head, roots, feet, l, n);
    ForestIs(w, roots, feet, l);
    InTreeIs(w, roots, n);
    var r :| r in roots && Within(w, r, n);
    var j: nat :| j < |roots| && roots[j] == r;
    TopStep(w, head, roots, feet, j);
    WithinIs(w, r, n);
    UnderOfParent(w, r, n);
    var p := w.h[n].parent;
    if p != null {
      WithinIs(w, r, p);
      InTreeIs(w, roots, p);
    }
  }

  lemma {:induction false} AfterKept(w: World, w': World, head: Node, roots: seq<Node>, feet: Node, l: seq<Node>, n: Node)
    requires TopList(w, head, roots, feet) && IsForest(w, roots, feet, l) && Kept(w, w', head, feet, l)
    requires Consistent(w) && Consistent(w') && n in l && n in w.depth
    ensures n in w.h && n in w'.h && n in w'.depth && After(w', n) == After(w, n) && w'.depth[n] == w.depth[n]
    decreases w.depth[n]
  {
    hide *;
    KeptIs(w, w', head, feet, l);
    NumberIs(w, n);
    NumberIs(w', n);
    AfterIs(w, n);
    AfterIs(w', n);
    ParentListed(w, head, roots, feet, l, n);
    if w.h[n].parent != null {
      AfterKept(w, w', head, roots, feet, l, w.h[n].parent);
    } else {
      TopDepth(w, n);
      TopDepth(w', n);
    }
  }

  /** A tree whose links are kept has its roots, its listing and its depths. */
  lemma TreeKept(w: World, w': World, head: Node, roots: seq<Node>, feet: Node, l: seq<Node>)
    requires TopList(w, head, roots, feet) && IsForest(w, roots, feet, l) && Kept(w, w', head, feet, l)
    ensures TopList(w', head, roots, feet) && IsForest(w', roots, feet, l)
    ensures forall n | n in l :: n in w.depth && n in w'.depth && w'.depth[n] == w.depth[n]
  {
    hide *;
    KeptIs(w, w', head, feet, l);
    TopListAt(w, head, roots, feet, 0);
    TopAtIs(roots, feet, 0);
    ForestIs(w, roots, feet, l);
    forall i: nat | i < |roots|
      ensures roots[i] in w'.h && roots[i] != feet && w'.h[roots[i]].next == TopAt(roots, feet, i + 1)
    {
      TopStep(w, head, roots, feet, i);
      RootInListing(w, head, roots, feet, l, i);
    }
    TopListByStep(w', head, roots, feet);
    forall n | n in l ensures n in w.depth && n in w'.depth && w'.depth[n] == w.depth[n] {
      Listed(w, head, roots, feet, l, n);
      NumberIs(w, n);
      AfterKept(w, w', head, roots, feet, l, n);
    }
    if roots == [] {
      EmptyForest(w', feet);
    } else {
      forall i: nat | i < |l|
        ensures l[i] in w'.h && l[i] in w'.depth && Successor(w', l[i]) == TopAt(l, feet, i + 1)
      {
        InPlace(w, head, roots, feet, l, i);
        AfterKept(w, w', head, roots, feet, l, l[i]);
        SuccessorIs(w, l[i]);
        SuccessorIs(w', l[i]);
      }
      InPlace(w, head, roots, feet, l, 0);
      StepsToForest(w', head, roots, feet, l);
    }
  }

  /** A node of one tree is neither a sentinel nor a root of another, nor below one. */
  lemma Elsewhere(w: World, head: Node, roots: seq<Node>, feet: Node, head': Node, roots': seq<Node>, feet': Node,
                  l': seq<Node>, n: Node)
    requires TopList(w, head, roots, feet) && TopList(w, head', roots', feet') && feet != feet'
    requires IsForest(w, roots', feet', l') && (n == head' || n == feet' || n in l')
    ensures Consistent(w) && n in w.h && n != head && n != feet && n !in roots && !InTree(w, roots, n)
  {
    hide *;
    Listed(w, head', roots', feet', l', n);
    HoldsIs(w, head', roots', feet', n);
    TreesDisjoint(w, head', roots', feet', head, roots, feet, n);
    HoldsIs(w, head, roots, feet, n);
    InTreeIs(w, roots, n);
    WithinIs(w, n, n);
  }

  // ---- The neighbours of a root ----

  lemma RootNeighbours(w: World, head: Node, roots: seq<Node>, feet: Node, i: nat)
    requires TopList(w, head, roots, feet) && i <= |roots|
    ensures Consistent(w)
    ensures var r := TopAt(roots, feet, i);
            r in w.h && w.h[r].parent == null && w.h[r].prev == if i == 0 then head else roots[i - 1]
    ensures var r := TopAt(roots, feet, i);
            i < |roots| ==> r == roots[i] && w.h[r].next == TopAt(roots, feet, i + 1)
  {
    hide *;
    TopListAt(w, head, roots, feet, 0);
    TopAtIs(roots, feet, i);
    RootIs(w, head, roots, feet, i);
    if i == 0 {
      SiblingIs(w, head);
    } else {
      TopStep(w, head, roots, feet, i - 1);
      SiblingIs(w, roots[i - 1]);
    }
    if i < |roots| { TopStep(w, head, roots, feet, i); }
  }

  // ---- Clearing a tree ----

  /** The first i roots are gone with all within them; the other nodes have their links,
      but for the sentinels and the roots left. */
  ghost predicate Cleared(w0: World, head: Node, roots: seq<Node>, feet: Node, i: nat, w: World)
    requires i <= |roots|
  {
    && Consistent(w0) && Consistent(w)
    && (forall n | n in w0.h :: n in w.h <==> !InTree(w0, roots[..i], n))
    && (forall n | n in w.h :: n in w0.h && w.h[n].parent == w0.h[n].parent)
    && forall n | n in w.h && n != head && n != feet && n !in roots[i..] :: n in w0.h && w.h[n] == w0.h[n]
  }

  lemma ClearedIs(w0: World, head: Node, roots: seq<Node>, feet: Node, i: nat, w: World)
    requires i <= |roots|
    ensures Cleared(w0, head, roots, feet, i, w) <==>
      && Consistent(w0) && Consistent(w)
      && (forall n | n in w0.h :: n in w.h <==> !InTree(w0, roots[..i], n))
      && (forall n | n in w.h :: n in w0.h && w.h[n].parent == w0.h[n].parent)
      && forall n | n in w.h && n != head && n != feet && n !in roots[i..] :: n in w0.h && w.h[n] == w0.h[n]
  {
    hide Consistent, InTree;
  }

  lemma NothingCleared(w: World, head: Node, roots: seq<Node>, feet: Node)
    requires Consistent(w)
    ensures Cleared(w, head, roots, feet, 0, w)
  {
    hide *;
    forall n | n in w.h ensures !InTree(w, roots[..0], n) { InTreeIs(w, roots[..0], n); }
    ClearedIs(w, head, roots, feet, 0, w);
  }

  lemma OneMoreCleared(w0: World, head: Node, roots: seq<Node>, feet: Node, i: nat, w1: World, w2: World)
    requires i < |roots| && Cleared(w0, head, roots, feet, i, w1) && TopList(w1, head, roots[i..], feet)
    requires roots[i] in w1.h && Consistent(w1) && Consistent(w2) && IsErased(w1, roots[i], w2)
    ensures Cleared(w0, head, roots, feet, i + 1, w2)
  {
    hide *;
    var r, rest := roots[i], roots[i..];
    ClearedIs(w0, head, roots, feet, i, w1);
    IsErasedIs(w1, r, w2);
    RootNeighbours(w1, head, rest, feet, 0);
    TopAtIs(rest, feet, 1);
    assert rest[0] == r && rest[1..] == roots[i + 1..];
    WithinIs(w1, r, r);
    forall n | n in w0.h ensures n in w2.h <==> !InTree(w0, roots[..i + 1], n) {
      InTreeGrows(w0, roots, i, n);
      if n in w1.h {
        ErasedCell(w1, r, w2, n);
        WithinStable(w0, w1, r, n);
      }
    }
    forall n | n in w2.h
      ensures n in w0.h && w2.h[n].parent == w0.h[n].parent
      ensures n != head && n != feet && n !in roots[i + 1..] ==> w2.h[n] == w0.h[n]
    {
      ErasedCell(w1, r, w2, n);
      UnlinkedIs(w1.h[n], n, w1.h[r].parent, w1.h[r].prev, w1.h[r].next);
      if n in rest {
        var j: nat :| j < |rest| && rest[j] == n;
        assert j > 0 && rest[1..][j - 1] == n;
      }
    }
    ClearedIs(w0, head, roots, feet, i + 1, w2);
  }

  /** Erases the first root as long as there is one. */
  method Clear(t: Trees, head: Node, feet: Node, ghost roots: seq<Node>)
    requires t.Valid() && TopList(t.w, head, roots, feet)
    modifies t, t.w.h.Keys
    ensures t.Valid() && TopList(t.w, head, [], feet) && Consistent(old(t.w))
    ensures forall n | n in old(t.w).h :: n in t.w.h <==> !InTree(old(t.w), roots, n)
    ensures forall n | n in t.w.h :: n in old(t.w).h && (n != head && n != feet ==> t.w.h[n] == old(t.w).h[n])
    ensures forall n | n in old(t.w).h :: n.data == old(n.data)
  {
    hide *;
    ghost var w0, i: nat := t.w, 0;
    t.ValidIs();
    StoredIs(t.w);
    TopListAt(w0, head, roots, feet, 0);
    CellOfIs(head);
    NothingCleared(w0, head, roots, feet);
    assert roots[0..] == roots;
    while head.nextSibling != feet
      invariant i <= |roots| && t.Valid() && TopList(t.w, head, roots[i..], feet)
      invariant Cleared(w0, head, roots, feet, i, t.w)
      invariant head in t.w.h && head.nextSibling == t.w.h[head].next
      invariant forall n | n in t.w.h :: n in w0.h
      invariant forall n | n in w0.h :: n.data == old(n.data)
      decreases |roots| - i
    {
      ghost var w1 := t.w;
      t.ValidIs();
      TopListAt(w1, head, roots[i..], feet, 0);
      TopAtIs(roots[i..], feet, 0);
      RootNeighbours(w1, head, roots[i..], feet, 0);
      var _ := t.Erase(head.nextSibling);
      t.ValidIs();
      TopErased(w1, t.w, head, roots[i..], feet, 0);
      assert roots[i..][..0] + roots[i..][1..] == roots[i + 1..];
      OneMoreCleared(w0, head, roots, feet, i, w1, t.w);
      i := i + 1;
      ClearedIs(w0, head, roots, feet, i, t.w);
      TopListAt(t.w, head, roots[i..], feet, 0);
      StoredIs(t.w);
      CellOfIs(head);
    }
    TopListAt(t.w, head, roots[i..], feet, 0);
    assert roots[i..] == [];
    assert roots[..i] == roots;
    ClearedIs(w0, head, roots, feet, i, t.w);
  }

  // ---- Placeholders ----

  /** All nodes but the two sentinels are there, with the links they had. */
  ghost predicate Framed(w: World, w': World, head: Node, feet: Node) {
    && Consistent(w) && Consistent(w') && head in w'.h && feet in w'.h
    && forall n | n in w.h && n != head && n != feet :: n in w'.h && w'.h[n] == w.h[n]
  }

  lemma FramedIs(w: World, w': World, head: Node, feet: Node)
    ensures Framed(w, w', head, feet) <==>
      && Consistent(w) && Consistent(w') && head in w'.h && feet in w'.h
      && forall n | n in w.h && n != head && n != feet :: n in w'.h && w'.h[n] == w.h[n]
  {
    hide Consistent;
  }

  /** Roots that were not there before, the ones from i on without children. */
  ghost predicate NewRoots(w: World, roots: seq<Node>, i: nat, w': World) {
    && (forall r | r in roots :: r !in w.h && r in w'.h)
    && forall j | i <= j < |roots| :: roots[j] in w'.h && w'.h[roots[j]].first == null
  }

  lemma NewRootsIs(w: World, roots: seq<Node>, i: nat, w': World)
    ensures NewRoots(w, roots, i, w') <==>
      && (forall r | r in roots :: r !in w.h && r in w'.h)
      && forall j | i <= j < |roots| :: roots[j] in w'.h && w'.h[roots[j]].first == null
  {
  }

  /** A placeholder goes in before the others. */
  lemma PlaceholderIn(w0: World, w: World, head: Node, roots: seq<Node>, feet: Node, x: Node, w': World)
    requires TopList(w, head, roots, feet) && Consistent(w') && Framed(w0, w, head, feet) && NewRoots(w0, roots, 0, w)
    requires IsLinkedIn(w, null, head, TopAt(roots, feet, 0), x, w') && x !in w0.h
    ensures TopList(w', head, [x] + roots, feet) && Framed(w0, w', head, feet) && NewRoots(w0, [x] + roots, 0, w')
  {
    hide *;
    var roots', b := [x] + roots, TopAt(roots, feet, 0);
    NewRootsIs(w0, roots, 0, w);
    FramedIs(w0, w, head, feet);
    TopListAt(w, head, roots, feet, 0);
    RootNeighbours(w, head, roots, feet, |roots|);
    TopAtIs(roots, feet, |roots|);
    TopAtIs(roots, feet, 0);
    TopAtIs(roots', feet, 0);
    InsertKeepsParents(w, null, head, b, x, w');
    LinkedInCell(w, null, head, b, x, w', head);
    LinkedInCell(w, null, head, b, x, w', feet);
    RelinkedLinks(w.h[head], head, null, head, b, x);
    RelinkedLinks(w.h[feet], feet, null, head, b, x);
    forall j: nat | j < |roots'|
      ensures roots'[j] in w'.h && roots'[j] != feet && w'.h[roots'[j]].next == TopAt(roots', feet, j + 1)
      ensures w'.h[roots'[j]].first == null
    {
      TopAtIs(roots', feet, j + 1);
      if j > 0 {
        TopStep(w, head, roots, feet, j - 1);
        TopAtIs(roots, feet, j);
        LinkedInCell(w, null, head, b, x, w', roots[j - 1]);
        RelinkedLinks(w.h[roots[j - 1]], roots[j - 1], null, head, b, x);
      }
    }
    TopListByStep(w', head, roots', feet);
    forall n | n in w0.h && n != head && n != feet ensures n in w'.h && w'.h[n] == w0.h[n] {
      LinkedInCell(w, null, head, b, x, w', n);
      assert roots != [] ==> roots[0] in roots;
      RelinkedElsewhere(w.h[n], n, null, head, b, x);
    }
    FramedIs(w0, w', head, feet);
    forall r | r in roots' ensures r !in w0.h && r in w'.h { assert r == x || r in roots; }
    NewRootsIs(w0, roots', 0, w');
  }

  /** Childless roots are their own listing. */
  lemma ChildlessForest(w: World, head: Node, roots: seq<Node>, feet: Node, w0: World)
    requires TopList(w, head, roots, feet) && NewRoots(w0, roots, 0, w)
    ensures IsForest(w, roots, feet, roots)
  {
    hide *;
    NewRootsIs(w0, roots, 0, w);
    TopListAt(w, head, roots, feet, 0);
    if roots == [] {
      EmptyForest(w, feet);
    } else {
      forall i: nat | i < |roots|
        ensures roots[i] in w.h && roots[i] in w.depth && Successor(w, roots[i]) == TopAt(roots, feet, i + 1)
      {
        TopStep(w, head, roots, feet, i);
        NumberIs(w, roots[i]);
        SuccessorIs(w, roots[i]);
        AfterIs(w, roots[i]);
        TopAtIs(roots, feet, i + 1);
      }
      forall i: nat | i < |roots| ensures roots[i] != feet { TopStep(w, head, roots, feet, i); }
      StepsToForest(w, head, roots, feet, roots);
    }
  }

  // ---- Copies for placeholders ----

  /** The first i placeholders have been replaced by copies, which list the first k nodes
      of the other tree at their depths. */
  ghost predicate Cloning(w0: World, l: seq<Node>, w: World, head: Node, roots: seq<Node>, feet: Node, i: nat, k: nat,
                          cp: map<Node, Node>)
  {
    && i <= |roots| && k <= |l| && TopList(w, head, roots, feet) && Framed(w0, w, head, feet) && NewRoots(w0, roots, i, w)
    && (forall n | n in cp :: n in l[..k]) && (forall n | n in l[..k] :: n in cp && n in w0.depth)
    && IsForest(w, roots, feet, Images(cp, l[..k]) + roots[i..])
    && forall n | n in l[..k] :: cp[n] in w.depth && w.depth[cp[n]] == w0.depth[n]
  }

  lemma CloningIs(w0: World, l: seq<Node>, w: World, head: Node, roots: seq<Node>, feet: Node, i: nat, k: nat,
                  cp: map<Node, Node>)
    ensures Cloning(w0, l, w, head, roots, feet, i, k, cp) <==>
      && i <= |roots| && k <= |l| && TopList(w, head, roots, feet) && Framed(w0, w, head, feet) && NewRoots(w0, roots, i, w)
      && (forall n | n in cp :: n in l[..k]) && (forall n | n in l[..k] :: n in cp && n in w0.depth)
      && IsForest(w, roots, feet, Images(cp, l[..k]) + roots[i..])
      && forall n | n in l[..k] :: cp[n] in w.depth && w.depth[cp[n]] == w0.depth[n]
  {
    hide TopList, Framed, NewRoots, IsForest, Images;
  }

  lemma CloningStarts(w0: World, l: seq<Node>, w: World, head: Node, roots: seq<Node>, feet: Node)
    requires TopList(w, head, roots, feet) && Framed(w0, w, head, feet) && NewRoots(w0, roots, 0, w)
    ensures Cloning(w0, l, w, head, roots, feet, 0, 0, map[])
  {
    hide *;
    ChildlessForest(w, head, roots, feet, w0);
    assert l[..0] == [];
    NoImages(map[]);
    assert [] + roots[0..] == roots;
    CloningIs(w0, l, w, head, roots, feet, 0, 0, map[]);
  }

  lemma NoImages(cp: map<Node, Node>)
    ensures Images(cp, []) == []
  {
  }

  /** One placeholder is replaced: what the step needs and what it has done. */
  lemma CloneStep(w0: World, head': Node, roots': seq<Node>, feet': Node, l: seq<Node>, w: World, head: Node,
                  roots: seq<Node>, feet: Node, i: nat, k: nat, cp: map<Node, Node>, top: Node, c: map<Node, Node>,
                  w2: World) returns (k': nat)
    requires TopList(w0, head', roots', feet') && IsForest(w0, roots', feet', l) && Kept(w0, w, head', feet', l)
    requires Cloning(w0, l, w, head, roots, feet, i, k, cp) && i < |roots| == |roots'|
    requires k < |l| && l[k] == roots'[i] && Consistent(w) && Consistent(w2)
    requires IsReplaced(w, roots[i], roots'[i], top, c, w2) && forall n | n in c :: c[n] !in w.h
    requires head' != head && head' != feet && feet' != head && feet' != feet && head !in l && feet !in l
    ensures Cloning(w0, l, w2, head, roots[i := top], feet, i + 1, k', cp + c) && Kept(w0, w2, head', feet', l)
    ensures if i + 1 < |roots'| then k' < |l| && l[k'] == roots'[i + 1] else k' == |l|
  {
    hide *;
    CloningIs(w0, l, w, head, roots, feet, i, k, cp);
    TreeKept(w0, w, head', roots', feet', l);
    ForestIs(w, roots', feet', l);
    ListingIs(w, l);
    SliceIsScan(w, roots', feet', l, k);
    RangeEndsWith(w, head', roots', feet', l, k);
    TopStep(w, head', roots', feet', i);
    AfterIs(w, roots'[i]);
    TopAtIs(roots', feet', i + 1);
    k' := PreOrder.End(Depths(w, l), k);
    TopAtIs(l, feet', k');
    InPlace(w, head', roots', feet', l, k);
    if k' < |l| { InPlace(w, head', roots', feet', l, k'); }
    if i + 1 < |roots'| { TopStep(w, head', roots', feet', i + 1); }
    var s := l[k..k'];
    NextKeys(w0, l, w, head, roots, feet, i, k, k', cp, roots'[i], top, c, w2);
    CloneListing(w0, l, w, head, roots, feet, i, k, k', cp, roots'[i], top, c, w2);
    CloneFrame(w0, l, w, head, roots, feet, i, k, cp, roots'[i], top, c, w2);
    CloneDepths(w0, l, w, head, roots, feet, i, k, k', cp, roots'[i], top, c, w2);
    FramedKeeps(w0, w2, head, feet, head', feet', l, w);
    forall n | n in l[..k'] ensures n in (cp + c) && n in w0.depth {
      assert n in l;
    }
    CloningIs(w0, l, w2, head, roots[i := top], feet, i + 1, k', cp + c);
  }

  lemma FramedKeeps(w0: World, w: World, head: Node, feet: Node, head': Node, feet': Node, l: seq<Node>, w1: World)
    requires Framed(w0, w, head, feet) && Kept(w0, w1, head', feet', l)
    requires head' != head && head' != feet && feet' != head && feet' != feet && head !in l && feet !in l
    ensures Kept(w0, w, head', feet', l)
  {
    hide *;
    FramedIs(w0, w, head, feet);
    KeptIs(w0, w1, head', feet', l);
    KeptIs(w0, w, head', feet', l);
  }

  /** The copies made so far and the new ones are of different nodes. */
  lemma CloneKeys(l: seq<Node>, k: nat, k': nat, cp: map<Node, Node>, c: map<Node, Node>)
    requires k < k' <= |l| && forall a, b | 0 <= a < b < |l| :: l[a] != l[b]
    requires (forall n | n in cp :: n in l[..k]) && forall n | n in l[..k] :: n in cp
    requires (forall n | n in c :: n in l[k..k']) && forall n | n in l[k..k'] :: n in c
    ensures forall n | n in cp + c :: n in l[..k']
    ensures forall n | n in l[..k'] :: n in cp + c
    ensures forall n | n in l[..k] :: n in cp && (cp + c)[n] == cp[n] && n !in c
    ensures forall n | n in l[k..k'] :: n in c && (cp + c)[n] == c[n]
  {
    assert l[..k'] == l[..k] + l[k..k'];
    forall n | n in l[..k] ensures n !in c {
      var a: nat :| a < k && l[a] == n;
    }
  }

  /** The new copies are those of the next root's subtree. */
  lemma NextKeys(w0: World, l: seq<Node>, w: World, head: Node, roots: seq<Node>, feet: Node, i: nat, k: nat, k': nat,
                 cp: map<Node, Node>, from: Node, top: Node, c: map<Node, Node>, w2: World)
    requires Cloning(w0, l, w, head, roots, feet, i, k, cp) && i < |roots| && k < k' <= |l|
    requires forall a, b | 0 <= a < b < |l| :: l[a] != l[b]
    requires IsScan(w, from, l[k..k']) && Consistent(w) && IsReplaced(w, roots[i], from, top, c, w2)
    ensures forall n | n in cp + c :: n in l[..k']
    ensures forall n | n in l[..k'] :: n in cp + c
    ensures forall n | n in l[..k] :: n in cp && (cp + c)[n] == cp[n] && n !in c
    ensures forall n | n in l[k..k'] :: n in c && (cp + c)[n] == c[n]
  {
    hide *;
    CloningIs(w0, l, w, head, roots, feet, i, k, cp);
    IsReplacedIs(w, roots[i], from, top, c, w2);
    IsCopyIs(w, from, c, w2);
    ScanMembers(w, from, l[k..k']);
    CloneKeys(l, k, k', cp, c);
  }

  /** The copy of the next root's subtree continues the listing. */
  lemma CloneListing(w0: World, l: seq<Node>, w: World, head: Node, roots: seq<Node>, feet: Node, i: nat, k: nat, k': nat,
                     cp: map<Node, Node>, from: Node, top: Node, c: map<Node, Node>, w2: World)
    requires Cloning(w0, l, w, head, roots, feet, i, k, cp) && i < |roots| && k < k' <= |l|
    requires IsScan(w, from, l[k..k']) && Consistent(w) && Consistent(w2)
    requires IsReplaced(w, roots[i], from, top, c, w2) && forall n | n in c :: c[n] !in w.h
    requires forall n | n in l[..k] :: n in cp && n !in c
    requires forall n | n in l[k..k'] :: n in c
    requires forall n | n in l[..k'] :: n in cp + c
    ensures TopList(w2, head, roots[i := top], feet)
    ensures IsForest(w2, roots[i := top], feet, Images(cp + c, l[..k']) + roots[i := top][i + 1..])
  {
    hide *;
    CloningIs(w0, l, w, head, roots, feet, i, k, cp);
    PlaceholderTop(w0, w, head, roots, feet, i, from, top, c, w2);
    PlaceholderListing(w, head, roots, feet, Images(cp, l[..k]), from, top, c, w2, i, l[k..k']);
    ImagesJoin(cp, c, l[..k], l[k..k']);
    assert l[..k'] == l[..k] + l[k..k'];
    assert roots[i := top][i + 1..] == roots[i + 1..];
  }

  lemma PlaceholderTop(w0: World, w: World, head: Node, roots: seq<Node>, feet: Node, i: nat, from: Node, top: Node,
                       c: map<Node, Node>, w2: World)
    requires TopList(w, head, roots, feet) && i < |roots| && NewRoots(w0, roots, i, w) && Consistent(w) && Consistent(w2)
    requires IsReplaced(w, roots[i], from, top, c, w2) && forall n | n in c :: c[n] !in w.h
    ensures TopList(w2, head, roots[i := top], feet) && roots[i] in w.h && w.h[roots[i]].first == null
  {
    hide *;
    NewRootsIs(w0, roots, i, w);
    TopStep(w, head, roots, feet, i);
    TopListAt(w, head, roots, feet, 0);
    IsReplacedIs(w, roots[i], from, top, c, w2);
    TopReplaced(w, roots[i], from, top, c, w2, head, roots, feet);
    RootsDiffer(w, head, roots, feet);
    RenamedAt(roots, i, top);
  }

  lemma PlaceholderListing(w: World, head: Node, roots: seq<Node>, feet: Node, p: seq<Node>, from: Node, top: Node,
                           c: map<Node, Node>, w2: World, i: nat, s: seq<Node>)
    requires TopList(w, head, roots, feet) && i < |roots| && IsForest(w, roots, feet, p + roots[i..])
    requires TopList(w2, head, roots[i := top], feet) && Consistent(w) && IsScan(w, from, s)
    requires roots[i] in w.h && w.h[roots[i]].first == null
    requires IsReplaced(w, roots[i], from, top, c, w2) && forall n | n in c :: c[n] !in w.h
    ensures forall n | n in s :: n in c
    ensures IsForest(w2, roots[i := top], feet, p + Images(c, s) + roots[i + 1..])
  {
    hide *;
    var x, tops, L := roots[i], roots[i := top], p + roots[i..];
    assert L[|p|] == x && L[..|p|] == p && L[|p| + 1..] == roots[i + 1..];
    ForestIs(w, roots, feet, L);
    RenamedIs(L[0], x, top);
    if i > 0 { TopStep(w, head, roots, feet, i); TopAtIs(roots, feet, 0); }
    ReplacedListing(w, head, roots, feet, L, x, from, top, c, w2, tops, |p|, s);
  }

  lemma RenamedAt(s: seq<Node>, i: nat, top: Node)
    requires i < |s| && forall a, b | 0 <= a < b < |s| :: s[a] != s[b]
    ensures AllRenamed(s, s[i], top) == s[i := top]
  {
  }

  lemma ImagesLength(cp: map<Node, Node>, s: seq<Node>)
    requires forall n | n in s :: n in cp
    ensures |Images(cp, s)| == |s|
  {
  }

  lemma ImagesJoin(cp: map<Node, Node>, c: map<Node, Node>, a: seq<Node>, b: seq<Node>)
    requires forall n | n in a :: n in cp && n !in c
    requires forall n | n in b :: n in c
    ensures forall n | n in a + b :: n in cp + c
    ensures Images(cp + c, a + b) == Images(cp, a) + Images(c, b)
  {
  }

  lemma CloneFrame(w0: World, l: seq<Node>, w: World, head: Node, roots: seq<Node>, feet: Node, i: nat, k: nat,
                   cp: map<Node, Node>, from: Node, top: Node, c: map<Node, Node>, w2: World)
    requires Cloning(w0, l, w, head, roots, feet, i, k, cp) && i < |roots| && Consistent(w) && Consistent(w2)
    requires IsReplaced(w, roots[i], from, top, c, w2) && forall n | n in c :: c[n] !in w.h
    ensures Framed(w0, w2, head, feet) && NewRoots(w0, roots[i := top], i + 1, w2)
  {
    hide *;
    CloningIs(w0, l, w, head, roots, feet, i, k, cp);
    NewRootsIs(w0, roots, i, w);
    FramedIs(w0, w, head, feet);
    var x, tops := roots[i], roots[i := top];
    IsReplacedIs(w, x, from, top, c, w2);
    TopStep(w, head, roots, feet, i);
    RootNeighbours(w, head, roots, feet, i);
    RootNeighbours(w, head, roots, feet, i + 1);
    TopAtIs(roots, feet, i);
    TopAtIs(roots, feet, i + 1);
    ReplacedLinks(w, x, from, top, c, w2, head);
    ReplacedLinks(w, x, from, top, c, w2, feet);
    forall n | n in w0.h && n != head && n != feet ensures n in w2.h && w2.h[n] == w0.h[n] {
      assert i > 0 ==> roots[i - 1] in roots;
      assert i + 1 < |roots| ==> roots[i + 1] in roots;
      ReplacedLinks(w, x, from, top, c, w2, n);
      RelinkedElsewhere(w.h[n], n, w.h[x].parent, w.h[x].prev, w.h[x].next, top);
    }
    FramedIs(w0, w2, head, feet);
    forall j: nat | j < |tops|
      ensures tops[j] !in w0.h && tops[j] in w2.h && (i < j ==> w2.h[tops[j]].first == null)
    {
      if j != i {
        TopStep(w, head, roots, feet, j);
        TopAtIs(roots, feet, j);
        assert roots[j] in roots;
        assert roots[j] != x;
        ReplacedLinks(w, x, from, top, c, w2, roots[j]);
        RenamedIs(w.h[roots[j]].first, x, top);
      }
    }
    NewRootsIs(w0, tops, i + 1, w2);
  }

  lemma CloneDepths(w0: World, l: seq<Node>, w: World, head: Node, roots: seq<Node>, feet: Node, i: nat, k: nat, k': nat,
                    cp: map<Node, Node>, from: Node, top: Node, c: map<Node, Node>, w2: World)
    requires Cloning(w0, l, w, head, roots, feet, i, k, cp) && i < |roots| && k < k' <= |l|
    requires forall n | n in l :: n in w0.depth && n in w.depth && w.depth[n] == w0.depth[n]
    requires IsScan(w, from, l[k..k']) && Consistent(w) && Consistent(w2) && from in w.h && w.h[from].parent == null
    requires IsReplaced(w, roots[i], from, top, c, w2) && forall n | n in c :: c[n] !in w.h
    requires forall n | n in l[..k] :: n in cp && (cp + c)[n] == cp[n]
    requires forall n | n in l[k..k'] :: n in c && (cp + c)[n] == c[n]
    ensures forall n | n in l[..k'] :: n in cp + c && (cp + c)[n] in w2.depth && w2.depth[(cp + c)[n]] == w0.depth[n]
  {
    hide *;
    CloningIs(w0, l, w, head, roots, feet, i, k, cp);
    NewRootsIs(w0, roots, i, w);
    var x, s := roots[i], l[k..k'];
    TopStep(w, head, roots, feet, i);
    TopAtIs(roots, feet, i);
    IsReplacedIs(w, x, from, top, c, w2);
    TopDepth(w, from);
    TopDepth(w2, top);
    ReplaceKeepsParents(w, x, from, top, c, w2);
    ForestIs(w, roots, feet, Images(cp, l[..k]) + roots[i..]);
    ListingIs(w, Images(cp, l[..k]) + roots[i..]);
    assert l[..k'] == l[..k] + s;
    forall n | n in l[..k'] ensures n in cp + c && (cp + c)[n] in w2.depth && w2.depth[(cp + c)[n]] == w0.depth[n] {
      assert n in l;
      if n in s {
        ScanMembers(w, from, s);
        CopyDepth(w, from, c, w2, n);
      } else {
        var a: nat :| a < k && l[..k][a] == n;
        OldCopy(w, head, roots, feet, cp, l[..k], i, a);
        ReplacedLinks(w, x, from, top, c, w2, cp[n]);
        DepthStable(w, w2, cp[n]);
      }
    }
  }

  /** A copy made before is a node of the tree and no placeholder. */
  lemma OldCopy(w: World, head: Node, roots: seq<Node>, feet: Node, cp: map<Node, Node>, s: seq<Node>, i: nat, a: nat)
    requires TopList(w, head, roots, feet) && i < |roots| && a < |s| && forall n | n in s :: n in cp
    requires IsForest(w, roots, feet, Images(cp, s) + roots[i..])
    ensures s[a] in cp && cp[s[a]] in w.h && cp[s[a]] != roots[i]
  {
    hide *;
    var p := Images(cp, s);
    var L := p + roots[i..];
    ImagesAt(cp, s, a);
    assert L[a] == p[a] && L[|s|] == roots[i];
    InPlace(w, head, roots, feet, L, a);
    ForestIs(w, roots, feet, L);
    ListingIs(w, L);
  }

  // ---- The operation ----

  /** The tree is a copy of another tree: its listing is the image of the other's, node for
      node, at the same depths. */
  ghost predicate IsClone(w: World, l: seq<Node>, cp: map<Node, Node>, w': World, head: Node, roots: seq<Node>, feet: Node) {
    && (forall n | n in l :: n in cp && n in w.depth) && TopList(w', head, roots, feet)
    && IsForest(w', roots, feet, Images(cp, l))
    && (forall n | n in Images(cp, l) :: n in w'.depth)
    && Depths(w', Images(cp, l)) == Depths(w, l)
  }

  lemma CloningEnds(w0: World, l: seq<Node>, w: World, head: Node, roots: seq<Node>, feet: Node, cp: map<Node, Node>)
    requires Cloning(w0, l, w, head, roots, feet, |roots|, |l|, cp)
    ensures IsClone(w0, l, cp, w, head, roots, feet)
  {
    hide *;
    CloningIs(w0, l, w, head, roots, feet, |roots|, |l|, cp);
    assert l[..|l|] == l && roots[|roots|..] == [];
    var p := Images(cp, l);
    assert p + roots[|roots|..] == p;
    ImagesLength(cp, l);
    forall n | n in p ensures n in w.depth {
      var j: nat :| j < |p| && p[j] == n;
      ImagesAt(cp, l, j);
    }
    forall j: nat | j < |l| ensures Depths(w, p)[j] == Depths(w0, l)[j] {
      ImagesAt(cp, l, j);
      ImagesAt(cp, l, 0);
      DepthsIs(w, p, j);
      DepthsIs(w0, l, j);
    }
    assert Depths(w, p) == Depths(w0, l);
    IsCloneIs(w0, l, cp, w, head, roots, feet);
  }

  lemma IsCloneIs(w: World, l: seq<Node>, cp: map<Node, Node>, w': World, head: Node, roots: seq<Node>, feet: Node)
    ensures IsClone(w, l, cp, w', head, roots, feet) <==>
      && (forall n | n in l :: n in cp && n in w.depth) && TopList(w', head, roots, feet)
      && IsForest(w', roots, feet, Images(cp, l))
      && (forall n | n in Images(cp, l) :: n in w'.depth)
      && Depths(w', Images(cp, l)) == Depths(w, l)
  {
    hide TopList, IsForest, Images, Depths;
  }

  /** Puts a placeholder in for each root of the other tree, each before the one put in
      last, so that they stand in reverse order. */
  method PutPlaceholders(t: Trees, head: Node, feet: Node, head': Node, feet': Node, ghost roots': seq<Node>,
                         ghost l: seq<Node>)
    returns (ghost roots: seq<Node>)
    requires t.Valid() && TopList(t.w, head, [], feet) && TopList(t.w, head', roots', feet') && feet != feet'
    requires IsForest(t.w, roots', feet', l)
    modifies t, t.w.h.Keys
    ensures t.Valid() && TopList(t.w, head, roots, feet) && |roots| == |roots'|
    ensures Framed(old(t.w), t.w, head, feet) && NewRoots(old(t.w), roots, 0, t.w)
    ensures forall y | y in t.w.h :: y in old(t.w).h || fresh(y)
    ensures forall n | n in old(t.w).h :: n.data == old(n.data)
  {
    hide *;
    ghost var w0, i: nat := t.w, 0;
    roots := [];
    t.ValidIs();
    StoredIs(w0);
    TopListAt(w0, head, roots, feet, 0);
    TopListAt(w0, head', roots', feet', 0);
    CellOfIs(head);
    CellOfIs(head');
    TopAtIs(roots, feet, 0);
    TopAtIs(roots', feet', 0);
    FramedIs(w0, w0, head, feet);
    NewRootsIs(w0, roots, 0, w0);
    OtherTree(w0, head, roots, feet, head', roots', feet', l);
    KeptIs(w0, w0, head', feet', l);
    ListedAll(w0, head', roots', feet', l);
    var to: Node, it: Node? := head.nextSibling, head'.nextSibling;
    while it != feet'
      invariant i <= |roots'| && |roots| == i && it == TopAt(roots', feet', i) && to == TopAt(roots, feet, 0)
      invariant t.Valid() && TopList(t.w, head, roots, feet) && Framed(w0, t.w, head, feet) && NewRoots(w0, roots, 0, t.w)
      invariant Kept(w0, t.w, head', feet', l)
      invariant forall y | y in t.w.h :: y in w0.h || fresh(y)
      invariant forall n | n in w0.h :: n.data == old(n.data)
      decreases |roots'| - i
    {
      ghost var w1 := t.w;
      t.ValidIs();
      TopAtIs(roots', feet', i);
      RootNeighbours(w1, head, roots, feet, 0);
      TopListAt(w1, head, roots, feet, 0);
      ghost var before := to;
      to := t.Insert(to, feet, it.data);
      t.ValidIs();
      LinkedInNew(w1, null, head, before, to, t.w);
      PlaceholderIn(w0, w1, head, roots, feet, to, t.w);
      roots := [to] + roots;
      TopAtIs(roots, feet, 0);
      FramedKeeps(w0, t.w, head, feet, head', feet', l, w1);
      NextRoot(w0, t.w, head', roots', feet', l, i);
      it := t.Next(it, true);
      i := i + 1;
    }
    TopAtIs(roots', feet', i);
    if i < |roots'| { TopStep(w0, head', roots', feet', i); }
  }

  /** The other tree's sentinels and nodes are none of this tree's sentinels. */
  lemma OtherTree(w: World, head: Node, roots: seq<Node>, feet: Node, head': Node, roots': seq<Node>, feet': Node,
                  l: seq<Node>)
    requires TopList(w, head, roots, feet) && TopList(w, head', roots', feet') && feet != feet'
    requires IsForest(w, roots', feet', l)
    ensures head' != head && head' != feet && feet' != head && head !in l && feet !in l
  {
    hide *;
    Elsewhere(w, head, roots, feet, head', roots', feet', l, head');
    Elsewhere(w, head, roots, feet, head', roots', feet', l, feet');
    if head in l { Elsewhere(w, head, roots, feet, head', roots', feet', l, head); }
    if feet in l { Elsewhere(w, head, roots, feet, head', roots', feet', l, feet); }
  }

  lemma ListedAll(w: World, head: Node, roots: seq<Node>, feet: Node, l: seq<Node>)
    requires TopList(w, head, roots, feet) && IsForest(w, roots, feet, l)
    ensures Kept(w, w, head, feet, l)
  {
    hide *;
    TopListAt(w, head, roots, feet, 0);
    forall n | n in l ensures n in w.h { Listed(w, head, roots, feet, l, n); }
    KeptIs(w, w, head, feet, l);
  }

  /** Passing over its children the iterator goes from a root to the next. */
  lemma NextRoot(w0: World, w: World, head: Node, roots: seq<Node>, feet: Node, l: seq<Node>, i: nat)
    requires TopList(w0, head, roots, feet) && IsForest(w0, roots, feet, l) && Kept(w0, w, head, feet, l) && i < |roots|
    ensures Consistent(w) && roots[i] in w.h && roots[i] in w.depth && After(w, roots[i]) == TopAt(roots, feet, i + 1)
    ensures w.h[roots[i]].parent == null && roots[i] in l
  {
    hide *;
    TreeKept(w0, w, head, roots, feet, l);
    TopStep(w, head, roots, feet, i);
    NumberIs(w, roots[i]);
    AfterIs(w, roots[i]);
    TopAtIs(roots, feet, i + 1);
    RootInListing(w, head, roots, feet, l, i);
  }

  /** The next placeholder has neighbours and is apart from the root it stands for. */
  lemma PlaceholderIsApart(w0: World, l: seq<Node>, w: World, head: Node, roots: seq<Node>, feet: Node, i: nat, k: nat,
                           cp: map<Node, Node>, head': Node, roots': seq<Node>, feet': Node)
    requires Cloning(w0, l, w, head, roots, feet, i, k, cp) && i < |roots| == |roots'|
    requires TopList(w0, head', roots', feet') && IsForest(w0, roots', feet', l) && Kept(w0, w, head', feet', l)
    ensures Consistent(w) && roots[i] in w.h && w.h[roots[i]].prev != null && w.h[roots[i]].next != null
    ensures Apart(w, roots[i], roots'[i])
  {
    hide *;
    CloningIs(w0, l, w, head, roots, feet, i, k, cp);
    NewRootsIs(w0, roots, i, w);
    RootNeighbours(w, head, roots, feet, i);
    TopAtIs(roots, feet, i);
    TopAtIs(roots, feet, i + 1);
    NextRoot(w0, w, head', roots', feet', l, i);
    KeptIs(w0, w, head', feet', l);
    assert roots[i] in roots;
    WithinIs(w, roots[i], roots'[i]);
    WithinIs(w, roots'[i], roots[i]);
    UnderOfParent(w, roots[i], roots'[i]);
    UnderOfParent(w, roots'[i], roots[i]);
    ApartIs(w, roots[i], roots'[i]);
  }

  /** One round: replaces a placeholder by a copy of its root's subtree, and goes on to the
      next placeholder and the next root. */
  method CloneRoot(t: Trees, to: Node, it: Node, head: Node, feet: Node, head': Node, feet': Node, ghost w0: World,
                   ghost roots': seq<Node>, ghost l: seq<Node>, ghost roots: seq<Node>, ghost i: nat, ghost k: nat,
                   ghost cp: map<Node, Node>)
    returns (next: Node?, source: Node?, ghost roots2: seq<Node>, ghost k2: nat, ghost c: map<Node, Node>)
    requires t.Valid() && TopList(w0, head', roots', feet') && IsForest(w0, roots', feet', l)
    requires Cloning(w0, l, t.w, head, roots, feet, i, k, cp) && Kept(w0, t.w, head', feet', l)
    requires i < |roots| == |roots'| && to == roots[i] && it == roots'[i] && k < |l| && l[k] == it
    requires head' != head && head' != feet && feet' != head && feet' != feet && head !in l && feet !in l
    modifies t, t.w.h.Keys
    ensures t.Valid() && |roots2| == |roots'| && Cloning(w0, l, t.w, head, roots2, feet, i + 1, k2, cp + c)
    ensures Kept(w0, t.w, head', feet', l)
    ensures next == TopAt(roots2, feet, i + 1) && source == TopAt(roots', feet', i + 1)
    ensures if i + 1 < |roots'| then k2 < |l| && l[k2] == roots'[i + 1] else k2 == |l|
    ensures forall n | n in c :: fresh(c[n]) && n in old(t.w).h && c[n].data == old(n.data)
    ensures forall y | y in t.w.h :: y in old(t.w).h || fresh(y)
    ensures forall n | n in old(t.w).h :: n.data == old(n.data)
  {
    hide *;
    ghost var w1 := t.w;
    t.ValidIs();
    PlaceholderIsApart(w0, l, w1, head, roots, feet, i, k, cp, head', roots', feet');
    var top;
    top, c := t.Replace(to, it);
    ghost var w2 := t.w;
    t.ValidIs();
    k2 := CloneStep(w0, head', roots', feet', l, w1, head, roots, feet, i, k, cp, top, c, w2);
    IsReplacedIs(w1, to, it, top, c, w2);
    roots2 := roots[i := top];
    CloningIs(w0, l, w2, head, roots2, feet, i + 1, k2, cp + c);
    TopStep(w2, head, roots2, feet, i);
    NumberIs(w2, top);
    AfterIs(w2, top);
    next := t.Next(top, true);
    TopAtIs(roots2, feet, i + 1);
    NextRoot(w0, w2, head', roots', feet', l, i);
    source := t.Next(it, true);
    forall y | y in w2.h ensures y in w1.h || fresh(y) {
      if y !in w1.h { var n: Node :| n in c && c[n] == y; }
    }
  }

  /** Where a tree's iteration begins: at the first root, or at the feet. */
  method Begin(t: Trees, head: Node) returns (it: Node?)
    requires t.Valid() && head in t.w.h
    ensures it == t.w.h[head].next
  {
    hide *;
    t.ValidIs();
    StoredIs(t.w);
    CellOfIs(head);
    it := head.nextSibling;
  }

  lemma FirstPlaces(w0: World, w: World, head: Node, roots: seq<Node>, feet: Node, head': Node, roots': seq<Node>,
                    feet': Node, l: seq<Node>)
    requires TopList(w, head, roots, feet) && TopList(w0, head', roots', feet') && IsForest(w0, roots', feet', l)
    requires Kept(w0, w, head', feet', l)
    ensures head in w.h && w.h[head].next == TopAt(roots, feet, 0)
    ensures head' in w.h && w.h[head'].next == TopAt(roots', feet', 0)
    ensures if roots' == [] then l == [] else l != [] && l[0] == roots'[0]
  {
    hide *;
    TreeKept(w0, w, head', roots', feet', l);
    TopListAt(w, head, roots, feet, 0);
    TopListAt(w, head', roots', feet', 0);
    TopAtIs(roots, feet, 0);
    TopAtIs(roots', feet', 0);
    ForestIs(w0, roots', feet', l);
  }

  lemma CopiesThere(w0: World, l: seq<Node>, w: World, head: Node, roots: seq<Node>, feet: Node, i: nat, k: nat,
                    cp: map<Node, Node>)
    requires Cloning(w0, l, w, head, roots, feet, i, k, cp)
    ensures k <= |l| && forall n | n in cp :: n in l && n in l[..k] && cp[n] in w.h
  {
    hide *;
    CloningIs(w0, l, w, head, roots, feet, i, k, cp);
    var s := l[..k];
    var L := Images(cp, s) + roots[i..];
    ImagesLength(cp, s);
    forall n | n in cp ensures n in l && cp[n] in w.h {
      var a: nat :| a < |s| && s[a] == n;
      assert l[a] == n;
      ImagesAt(cp, s, a);
      assert L[a] == cp[n];
      InPlace(w, head, roots, feet, L, a);
    }
  }

  /** Copies the other tree into this one, which is empty: after the placeholders each
      is replaced by a copy of the root's subtree. */
  method CopyInto(t: Trees, head: Node, feet: Node, head': Node, feet': Node, ghost roots': seq<Node>, ghost l: seq<Node>)
    returns (ghost roots: seq<Node>, ghost cp: map<Node, Node>)
    requires t.Valid() && TopList(t.w, head, [], feet) && TopList(t.w, head', roots', feet') && feet != feet'
    requires IsForest(t.w, roots', feet', l)
    modifies t, t.w.h.Keys
    ensures t.Valid() && |roots| == |roots'| && IsClone(old(t.w), l, cp, t.w, head, roots, feet)
    ensures forall n | n in cp :: n in l && fresh(cp[n]) && n in old(t.w).h && cp[n].data == old(n.data)
    ensures Framed(old(t.w), t.w, head, feet)
    ensures forall y | y in t.w.h :: y in old(t.w).h || fresh(y)
    ensures forall n | n in old(t.w).h :: n.data == old(n.data)
  {
    hide *;
    ghost var w0, i: nat, k: nat := t.w, 0, 0;
    OtherTree(w0, head, [], feet, head', roots', feet', l);
    ListedAll(w0, head', roots', feet', l);
    roots := PutPlaceholders(t, head, feet, head', feet', roots', l);
    cp := map[];
    CloningStarts(w0, l, t.w, head, roots, feet);
    FramedKeeps(w0, t.w, head, feet, head', feet', l, w0);
    FirstPlaces(w0, t.w, head, roots, feet, head', roots', feet', l);
    var to := Begin(t, head);
    var it := Begin(t, head');
    while it != feet'
      invariant i <= |roots| == |roots'| && it == TopAt(roots', feet', i) && to == TopAt(roots, feet, i)
      invariant t.Valid() && Cloning(w0, l, t.w, head, roots, feet, i, k, cp) && Kept(w0, t.w, head', feet', l)
      invariant if i < |roots'| then k < |l| && l[k] == roots'[i] else k == |l|
      invariant forall n | n in cp :: n in w0.h && fresh(cp[n]) && cp[n] in t.w.h && cp[n].data == old(n.data)
      invariant forall y | y in t.w.h :: y in w0.h || fresh(y)
      invariant forall n | n in w0.h :: n.data == old(n.data)
      decreases |roots'| - i
    {
      TopAtIs(roots', feet', i);
      TopAtIs(roots, feet, i);
      ghost var c;
      to, it, roots, k, c := CloneRoot(t, to, it, head, feet, head', feet', w0, roots', l, roots, i, k, cp);
      cp := cp + c;
      i := i + 1;
      CopiesThere(w0, l, t.w, head, roots, feet, i, k, cp);
      KeptIs(w0, t.w, head', feet', l);
    }
    TopAtIs(roots', feet', i);
    if i < |roots'| { TopStep(w0, head', roots', feet', i); }
    CloningEnds(w0, l, t.w, head, roots, feet, cp);
    CloningIs(w0, l, t.w, head, roots, feet, i, k, cp);
  }

  /** Clearing one tree keeps another. */
  lemma KeptByClearing(w0: World, w: World, head: Node, roots: seq<Node>, feet: Node, head': Node, roots': seq<Node>,
                       feet': Node, l: seq<Node>)
    requires TopList(w0, head, roots, feet) && TopList(w0, head', roots', feet') && feet != feet'
    requires IsForest(w0, roots', feet', l) && Consistent(w0) && Consistent(w)
    requires forall n | n in w0.h :: n in w.h <==> !InTree(w0, roots, n)
    requires forall n | n in w.h :: n in w0.h && (n != head && n != feet ==> w.h[n] == w0.h[n])
    ensures Kept(w0, w, head', feet', l) && TopList(w, head', roots', feet') && IsForest(w, roots', feet', l)
    ensures forall n | n in l :: n in w0.depth && n in w.depth && w.depth[n] == w0.depth[n]
  {
    hide *;
    Elsewhere(w0, head, roots, feet, head', roots', feet', l, head');
    Elsewhere(w0, head, roots, feet, head', roots', feet', l, feet');
    forall n | n in l ensures n in w0.h && n in w.h && w.h[n] == w0.h[n] {
      Elsewhere(w0, head, roots, feet, head', roots', feet', l, n);
    }
    KeptIs(w0, w, head', feet', l);
    TreeKept(w0, w, head', roots', feet', l);
  }

  lemma CloneOfSame(w0: World, w1: World, l: seq<Node>, cp: map<Node, Node>, w: World, head: Node, roots: seq<Node>,
                    feet: Node)
    requires IsClone(w1, l, cp, w, head, roots, feet)
    requires forall n | n in l :: n in w0.depth && n in w1.depth && w1.depth[n] == w0.depth[n]
    ensures IsClone(w0, l, cp, w, head, roots, feet)
  {
    hide *;
    IsCloneIs(w1, l, cp, w, head, roots, feet);
    forall j: nat | j < |l| ensures Depths(w0, l)[j] == Depths(w1, l)[j] {
      DepthsIs(w0, l, j);
      DepthsIs(w1, l, j);
      assert l[j] in l && l[0] in l;
    }
    assert Depths(w0, l) == Depths(w1, l);
    IsCloneIs(w0, l, cp, w, head, roots, feet);
  }

  /** Makes one tree a copy of another: its own nodes go, and the other tree's come in as
      fresh copies in the same order at the same depths. Nothing else changes. */
  method CopyTree(t: Trees, head: Node, feet: Node, head': Node, feet': Node, ghost mine: seq<Node>, ghost roots': seq<Node>,
                  ghost l: seq<Node>)
    returns (ghost roots: seq<Node>, ghost cp: map<Node, Node>)
    requires t.Valid() && TopList(t.w, head, mine, feet) && TopList(t.w, head', roots', feet') && feet != feet'
    requires IsForest(t.w, roots', feet', l)
    modifies t, t.w.h.Keys
    ensures t.Valid() && |roots| == |roots'| && IsClone(old(t.w), l, cp, t.w, head, roots, feet)
    ensures forall n | n in cp :: n in l && fresh(cp[n]) && n in old(t.w).h && cp[n].data == old(n.data)
    ensures Consistent(old(t.w)) && forall n | n in old(t.w).h :: n in t.w.h <==> !InTree(old(t.w), mine, n)
    ensures forall n | n in old(t.w).h && n in t.w.h && n != head && n != feet :: t.w.h[n] == old(t.w).h[n]
    ensures forall n | n in old(t.w).h :: n.data == old(n.data)
  {
    hide *;
    ghost var w0 := t.w;
    t.ValidIs();
    Clear(t, head, feet, mine);
    ghost var w1 := t.w;
    t.ValidIs();
    KeptByClearing(w0, w1, head, mine, feet, head', roots', feet', l);
    roots, cp := CopyInto(t, head, feet, head', feet', roots', l);
    FramedIs(w1, t.w, head, feet);
    CloneOfSame(w0, w1, l, cp, t.w, head, roots, feet);
    TopListAt(w1, head, [], feet, 0);
    forall n | n in w0.h ensures n in t.w.h <==> !InTree(w0, mine, n) {
      assert n in w1.h ==> n == head || n == feet || n in t.w.h;
    }
  }
}
