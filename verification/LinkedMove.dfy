/** What inserting, replacing and erasing do to the listing of a tree: a node, or a
    whole block, comes in or goes, and all else keeps its order. */
module LinkedMove {
  import opened LinkedNodes
  import opened LinkedCopy
  import opened LinkedReplace
  import opened LinkedTree
  import opened LinkedWalk
  import PreOrder

  // ---- A walk from the first root to the feet is the listing ----

  lemma {:induction false} WalksAgree(w: World, l: seq<Node>, f: seq<Node>, feet: Node, i: nat)
    requires IsWalk(w, l) && IsWalk(w, f) && f != [] && i < |l| && l[0] == f[0]
    requires EndsBefore(w, f, feet) && feet !in l
    ensures i < |f| && l[i] == f[i]
  {
    hide *;
    if i > 0 {
      WalksAgree(w, l, f, feet, i - 1);
      WalkIs(w, l, i - 1);
      WalkIs(w, f, i - 1);
      EndsIs(w, f, feet);
      assert l[i] in l;
    }
  }

  lemma WalkIsForest(w: World, head: Node, roots: seq<Node>, feet: Node, l: seq<Node>)
    requires TopList(w, head, roots, feet) && roots != [] && IsWalk(w, l)
    requires l != [] && l[0] == roots[0] && EndsBefore(w, l, feet) && feet !in l
    ensures IsForest(w, roots, feet, l)
  {
    hide *;
    var f := ForestListing(w, head, roots, feet);
    ForestIs(w, roots, feet, f);
    ListingIs(w, f);
    ForestStep(w, head, roots, feet, f, 0);
    WalksAgree(w, l, f, feet, |l| - 1);
    WalksAgree(w, f, l, feet, |f| - 1);
    forall i: nat | i < |l| ensures l[i] == f[i] { WalksAgree(w, l, f, feet, i); }
    assert l == f;
  }

  /** A walk that meets just the nodes within its start, each once, is their listing. */
  lemma WalkIsScan(w: World, start: Node, s: seq<Node>)
    requires IsWalk(w, s) && Consistent(w) && start in w.h && s != [] && s[0] == start
    requires forall i, j | 0 <= i < j < |s| :: s[i] != s[j]
    requires forall n | n in w.h :: n in s <==> Within(w, start, n)
    ensures IsScan(w, start, s)
  {
    hide *;
    var f := SubtreeListing(w, start);
    ScanIs(w, start, f);
    ListingIs(w, f);
    var i: nat := 1;
    while i < |s| && i < |f|
      invariant 1 <= i <= |s| && i <= |f| && forall j | 0 <= j < i :: s[j] == f[j]
    {
      WalkIs(w, s, i - 1);
      WalkIs(w, f, i - 1);
      i := i + 1;
    }
    if i < |s| {
      WalkIs(w, s, i);
    } else if i < |f| {
      WalkIs(w, f, i);
    }
    assert s == f;
  }

  lemma WalkByStep(w: World, l: seq<Node>)
    requires Consistent(w) && forall n | n in l :: n in w.h && n in w.depth
    requires forall i, j | 0 <= i < |l| && j == i + 1 && j < |l| ::
               l[i] in w.h && l[i] in w.depth && l[j] == Successor(w, l[i])
    ensures IsWalk(w, l)
  {
    hide Consistent, Successor;
  }

  // ---- What follows a node inside a subtree ----

  /** What follows a node within a lies within a too, or is what follows a. */
  lemma {:induction false} AfterInside(w: World, a: Node, n: Node)
    requires Consistent(w) && a in w.h && a in w.depth && n in w.h && n in w.depth && Within(w, a, n)
    ensures var r := After(w, n); r == After(w, a) || (r != null && r in w.h && Within(w, a, r))
    decreases w.depth[n]
  {
    hide *;
    AfterIs(w, n);
    SiblingIs(w, n);
    NumberIs(w, n);
    WithinIs(w, a, n);
    if n != a {
      UnderOfParent(w, a, n);
      var b, p := w.h[n].next, w.h[n].parent;
      if b != null {
        UnderSameParent(w, a, n, b);
        WithinIs(w, a, b);
      } else {
        WithinIs(w, a, p);
        AfterInside(w, a, p);
      }
    }
  }

  /** n is the last node within a. */
  ghost predicate EndsWith(w: World, a: Node, n: Node)
    requires Consistent(w)
  {
    && a in w.h && a in w.depth && n in w.h && n in w.depth
    && w.h[n].first == null && Within(w, a, n) && After(w, n) == After(w, a)
  }

  lemma EndsWithIs(w: World, a: Node, n: Node)
    requires Consistent(w)
    ensures EndsWith(w, a, n) <==>
      && a in w.h && a in w.depth && n in w.h && n in w.depth
      && w.h[n].first == null && Within(w, a, n) && After(w, n) == After(w, a)
  {
    hide Consistent, Within, After;
  }

  /** The place of a node's subtree in the listing. */
  lemma SubtreeInListing(w: World, roots: seq<Node>, feet: Node, l: seq<Node>, k: nat, n: Node)
    requires IsForest(w, roots, feet, l) && k < |l| && n in w.h && Consistent(w)
    ensures l[k] in w.h && forall m | m in l :: m in w.depth
    ensures Within(w, l[k], n) <==> n in l[k..PreOrder.End(Depths(w, l), k)]
  {
    hide *;
    ForestIs(w, roots, feet, l);
    ListingIs(w, l);
    WalkIs(w, l, k);
    var e := PreOrder.End(Depths(w, l), k);
    var s := l[k..e];
    if Within(w, l[k], n) {
      SubtreeComesLater(w, roots, feet, l, k, n);
      var i: nat :| i < |l[k..]| && l[k..][i] == n;
      InsideIsRange(w, l, k, k + i);
      assert s[i] == n;
    }
    if n in s {
      var i: nat :| i < |s| && s[i] == n;
      InsideIsRange(w, l, k, k + i);
    }
  }

  lemma InsideIsRange(w: World, l: seq<Node>, k: nat, i: nat)
    requires IsListing(w, l) && k < |l| && i < |l|
    ensures Consistent(w) && l[k] in w.h && l[i] in w.h && forall m | m in l :: m in w.depth
    ensures Within(w, l[k], l[i]) <==> k <= i < PreOrder.End(Depths(w, l), k)
  {
    hide *;
    DepthsAt(w, l, k);
    DepthsAt(w, l, i);
    BelowIsUnder(w, l, k, i);
    InListing(w, l, k);
    WithinIs(w, l[k], l[i]);
    PreOrder.SubtreeIsRange(Depths(w, l), k, i);
    WithinByDepths(Depths(w, l), k, i);
  }

  lemma WithinByDepths(d: seq<nat>, a: nat, i: nat)
    requires i < |d|
    ensures PreOrder.Within(d, a, i) <==> a == i || PreOrder.Below(d, a, i)
  {
  }

  /** The node before the end of a subtree's range is the last node of the subtree. */
  lemma RangeEndsWith(w: World, head: Node, roots: seq<Node>, feet: Node, l: seq<Node>, k: nat)
    requires TopList(w, head, roots, feet) && IsForest(w, roots, feet, l) && k < |l|
    ensures Consistent(w) && forall m | m in l :: m in w.depth
    ensures var e := PreOrder.End(Depths(w, l), k); EndsWith(w, l[k], l[e - 1]) && After(w, l[k]) == TopAt(l, feet, e)
  {
    hide *;
    ForestIs(w, roots, feet, l);
    DepthsAt(w, l, k);
    var e := PreOrder.End(Depths(w, l), k);
    var n := l[e - 1];
    ForestStep(w, head, roots, feet, l, k);
    ForestStep(w, head, roots, feet, l, e - 1);
    InsideIsRange(w, l, k, e - 1);
    SuccessorIs(w, n);
    TopAtIs(l, feet, e);
    TopListAt(w, head, roots, feet, 0);
    SubtreeInListing(w, roots, feet, l, k, feet);
    if e < |l| { InsideIsRange(w, l, k, e); }
    if w.h[n].first != null {
      ChildIs(w, n);
      WithinIs(w, l[k], n);
      UnderOfParent(w, l[k], w.h[n].first);
      WithinIs(w, l[k], w.h[n].first);
    }
    AfterInside(w, l[k], n);
    EndsWithIs(w, l[k], n);
  }

  // ---- A new node in a gap ----

  /** Where the iterator goes after a gap. */
  ghost function AfterGap(w: World, p: Node?, b: Node?): Node?
    requires Consistent(w) && (p != null ==> p in w.h && p in w.depth)
  {
    if b != null then b else if p == null then null else After(w, p)
  }

  lemma AfterGapIs(w: World, p: Node?, b: Node?)
    requires Consistent(w) && (p != null ==> p in w.h && p in w.depth)
    ensures AfterGap(w, p, b) == if b != null then b else if p == null then null else After(w, p)
  {
  }

  lemma GapIs(w: World, p: Node?, a: Node?, b: Node?)
    ensures Gap(w, p, a, b) <==>
      && (p != null ==> p in w.h)
      && (a != null ==> a in w.h && w.h[a].next == b && w.h[a].parent == p)
      && (b != null ==> b in w.h && w.h[b].prev == a && w.h[b].parent == p)
      && (a == null ==> p != null && w.h[p].first == b)
      && (b == null ==> p != null && w.h[p].last == a)
  {
  }

  /** n is the node that the iterator leaves for the gap. */
  ghost predicate BeforeGap(w: World, p: Node?, a: Node?, n: Node)
    requires Consistent(w)
  {
    if a == null then n == p else EndsWith(w, a, n)
  }

  lemma BeforeGapIs(w: World, p: Node?, a: Node?, n: Node)
    requires Consistent(w)
    ensures BeforeGap(w, p, a, n) <==> if a == null then n == p else EndsWith(w, a, n)
  {
    hide Consistent, EndsWith;
  }

  lemma RelinkedLinks(c: Cell, n: Node, p: Node?, a: Node?, b: Node?, x: Node)
    ensures var r := Relinked(c, n, p, a, b, x);
            && r.parent == c.parent && r.next == (if n == a then x else c.next) && r.prev == (if n == b then x else c.prev)
            && r.first == (if a == null && n == p then x else c.first)
  {
  }

  /** What follows a node after the insertion: the new node if it is the gap's turn. */
  lemma {:induction false} AfterInserted(w: World, p: Node?, a: Node?, b: Node?, x: Node, w': World, n: Node)
    requires Consistent(w) && Consistent(w') && Gap(w, p, a, b) && IsLinkedIn(w, p, a, b, x, w')
    requires n in w.h && n in w.depth && n in w'.h && n in w'.depth
    ensures a != null ==> a in w.h && a in w.depth
    ensures After(w', n) == if a != null && Within(w, a, n) && After(w, n) == After(w, a) then x else After(w, n)
    decreases w.depth[n]
  {
    hide *;
    GapIs(w, p, a, b);
    if a != null {
      NumberIs(w, a);
      WithinIs(w, a, n);
      AfterIsOutside(w, a);
    }
    LinkedInCell(w, p, a, b, x, w', n);
    RelinkedLinks(w.h[n], n, p, a, b, x);
    AfterIs(w, n);
    AfterIs(w', n);
    NumberIs(w, n);
    SiblingIs(w, n);
    var r, q := w.h[n].next, w.h[n].parent;
    if n != a {
      if r != null {
        if a != null {
          WithinIs(w, a, r);
          UnderSameParent(w, a, n, r);
        }
      } else if q != null {
        LinkedInCell(w, p, a, b, x, w', q);
        NumberIs(w', q);
        if a != null {
          UnderOfParent(w, a, n);
          WithinIs(w, a, q);
        }
        AfterInserted(w, p, a, b, x, w', q);
      } else if a != null {
        UnderOfParent(w, a, n);
      }
    }
  }

  lemma SuccessorInserted(w: World, p: Node?, a: Node?, b: Node?, x: Node, w': World, n: Node)
    requires Consistent(w) && Consistent(w') && Gap(w, p, a, b) && IsLinkedIn(w, p, a, b, x, w')
    requires n in w.h && n in w.depth && n in w'.h && n in w'.depth
    ensures Successor(w', n) == if BeforeGap(w, p, a, n) then x else Successor(w, n)
    ensures p != null ==> p in w.h && p in w.depth
    ensures BeforeGap(w, p, a, n) ==> Successor(w, n) == AfterGap(w, p, b)
  {
    hide *;
    GapIs(w, p, a, b);
    AfterInserted(w, p, a, b, x, w', n);
    LinkedInCell(w, p, a, b, x, w', n);
    RelinkedLinks(w.h[n], n, p, a, b, x);
    SuccessorIs(w, n);
    SuccessorIs(w', n);
    BeforeGapIs(w, p, a, n);
    if p != null { NumberIs(w, p); }
    AfterGapIs(w, p, b);
    if a != null {
      EndsWithIs(w, a, n);
      AfterIs(w, a);
    }
  }

  lemma SuccessorOfNew(w: World, p: Node?, a: Node?, b: Node?, x: Node, w': World)
    requires Consistent(w) && Consistent(w') && Gap(w, p, a, b) && IsLinkedIn(w, p, a, b, x, w')
    ensures x in w'.h && x in w'.depth && (p != null ==> p in w.h && p in w.depth)
    ensures Successor(w', x) == AfterGap(w, p, b)
  {
    hide *;
    GapIs(w, p, a, b);
    LinkedInNew(w, p, a, b, x, w');
    CellIs(p, null, null, a, b);
    NewCellFirst(p, a, b);
    NumberIs(w', x);
    SuccessorIs(w', x);
    AfterIs(w', x);
    if p != null {
      NumberIs(w, p);
      NumberIs(w', p);
      AfterInserted(w, p, a, b, x, w', p);
      if a != null {
        WithinIs(w, a, p);
        NotUnderSelf(w, a);
        TopIsNotItsOwnParent(w, a);
        UnderOfParent(w, a, a);
      }
    }
    AfterGapIs(w, p, b);
  }

  lemma InPlace(w: World, head: Node, roots: seq<Node>, feet: Node, l: seq<Node>, i: nat)
    requires TopList(w, head, roots, feet) && IsForest(w, roots, feet, l) && i < |l|
    ensures Consistent(w) && l[i] in w.h && l[i] in w.depth && Successor(w, l[i]) == TopAt(l, feet, i + 1)
    ensures forall j: nat | j <= |l| :: TopAt(l, feet, j) == TopAt(l, feet, i + 1) ==> j == i + 1
    ensures roots != [] && l[0] == roots[0] && feet in w.h && feet !in l
  {
    hide *;
    ForestStep(w, head, roots, feet, l, i);
    ForestIs(w, roots, feet, l);
    ListingIs(w, l);
    TopListAt(w, head, roots, feet, 0);
    TopAtIs(l, feet, i + 1);
    forall j: nat | j <= |l| ensures TopAt(l, feet, j) == TopAt(l, feet, i + 1) ==> j == i + 1 {
      TopAtIs(l, feet, j);
    }
  }

  /** One node is before the gap. */
  lemma GapInListing(w: World, head: Node, roots: seq<Node>, feet: Node, l: seq<Node>, p: Node?, a: Node?, b: Node?, x: Node,
                     w': World, q: nat, i: nat)
    requires TopList(w, head, roots, feet) && IsForest(w, roots, feet, l) && Consistent(w) && Consistent(w')
    requires Gap(w, p, a, b) && IsLinkedIn(w, p, a, b, x, w')
    requires 0 < q <= |l| && i < |l| && BeforeGap(w, p, a, l[q - 1])
    ensures l[i] in w'.h && l[i] in w'.depth
    ensures Successor(w', l[i]) == if i + 1 == q then x else TopAt(l, feet, i + 1)
    ensures x in w'.h && x in w'.depth && Successor(w', x) == TopAt(l, feet, q)
  {
    hide *;
    InPlace(w, head, roots, feet, l, i);
    InPlace(w, head, roots, feet, l, q - 1);
    LinkedInCell(w, p, a, b, x, w', l[i]);
    NumberIs(w', l[i]);
    LinkedInCell(w, p, a, b, x, w', l[q - 1]);
    NumberIs(w', l[q - 1]);
    SuccessorInserted(w, p, a, b, x, w', l[i]);
    SuccessorInserted(w, p, a, b, x, w', l[q - 1]);
    SuccessorOfNew(w, p, a, b, x, w');
  }

  /** The new node comes into the listing at the gap, and nothing else changes. */
  lemma InsertedListing(w: World, head: Node, roots: seq<Node>, feet: Node, l: seq<Node>, p: Node?, a: Node?, b: Node?,
                        x: Node, w': World, roots': seq<Node>, q: nat)
    requires TopList(w, head, roots, feet) && IsForest(w, roots, feet, l) && TopList(w', head, roots', feet)
    requires Consistent(w) && Gap(w, p, a, b) && IsLinkedIn(w, p, a, b, x, w')
    requires 0 < q <= |l| && BeforeGap(w, p, a, l[q - 1]) && roots' != [] && roots'[0] == l[0]
    ensures IsForest(w', roots', feet, l[..q] + [x] + l[q..])
  {
    hide *;
    TopListAt(w', head, roots', feet, 0);
    InPlace(w, head, roots, feet, l, 0);
    LinkedInNew(w, p, a, b, x, w');
    var L := l[..q] + [x] + l[q..];
    forall i: nat | i < |L| ensures L[i] in w'.h && L[i] in w'.depth && Successor(w', L[i]) == TopAt(L, feet, i + 1) {
      TopAtIs(L, feet, i + 1);
      var k := if i < q then i else if i == q then q - 1 else i - 1;
      GapInListing(w, head, roots, feet, l, p, a, b, x, w', q, k);
      TopAtIs(l, feet, k + 1);
      TopAtIs(l, feet, q);
    }
    StepsToForest(w', head, roots', feet, L);
  }

  /** A list that goes on from step to step, from the first root to the feet, is the
      listing. */
  lemma StepsToForest(w: World, head: Node, roots: seq<Node>, feet: Node, l: seq<Node>)
    requires TopList(w, head, roots, feet) && roots != [] && l != [] && l[0] == roots[0] && feet !in l
    requires Consistent(w)
    requires forall i: nat | i < |l| :: l[i] in w.h && l[i] in w.depth && Successor(w, l[i]) == TopAt(l, feet, i + 1)
    ensures IsForest(w, roots, feet, l)
  {
    hide *;
    forall i, j | 0 <= i < |l| && j == i + 1 && j < |l|
      ensures l[i] in w.h && l[i] in w.depth && l[j] == Successor(w, l[i])
    {
      TopAtIs(l, feet, j);
    }
    WalkByStep(w, l);
    TopAtIs(l, feet, |l|);
    EndsIs(w, l, feet);
    assert l[|l| - 1] in w.h && Successor(w, l[|l| - 1]) == TopAt(l, feet, |l| - 1 + 1);
    WalkIsForest(w, head, roots, feet, l);
  }

  // ---- A copy in the place of a childless node ----

  function Renamed(y: Node?, x: Node, top: Node): Node? {
    if y == x then top else y
  }

  lemma RenamedIs(y: Node?, x: Node, top: Node)
    ensures Renamed(y, x, top) == if y == x then top else y
  {
  }

  /** After the replacement the links of the other nodes are the old ones, with the new
      node for the old. */
  lemma ReplacedLinks(w: World, x: Node, from: Node, top: Node, cp: map<Node, Node>, w': World, n: Node)
    requires Consistent(w) && IsReplaced(w, x, from, top, cp, w') && x in w.h && w.h[x].first == null
    requires n in w.h && n != x
    ensures n in w'.h && w'.h[n].parent == w.h[n].parent && w'.h[n].next == Renamed(w.h[n].next, x, top)
    ensures w'.h[n].first == Renamed(w.h[n].first, x, top)
  {
    hide *;
    IsReplacedIs(w, x, from, top, cp, w');
    WithinIs(w, x, n);
    if Under(w, x, n) {
      var c := UnderByChild(w, x, n);
      ParentHasChild(w, c);
    }
    var c := w.h[x];
    RelinkedLinks(w.h[n], n, c.parent, c.prev, c.next, top);
    SiblingIs(w, x);
    SiblingIs(w, n);
    ChildIs(w, n);
    RenamedIs(w.h[n].next, x, top);
    RenamedIs(w.h[n].first, x, top);
  }

  lemma {:induction false} AfterReplaced(w: World, x: Node, from: Node, top: Node, cp: map<Node, Node>, w': World, n: Node)
    requires Consistent(w) && Consistent(w') && IsReplaced(w, x, from, top, cp, w') && x in w.h && w.h[x].first == null
    requires n in w.h && n in w.depth && n != x
    ensures n in w'.h && n in w'.depth && After(w', n) == Renamed(After(w, n), x, top)
    decreases w.depth[n]
  {
    hide *;
    ReplacedLinks(w, x, from, top, cp, w', n);
    NumberIs(w', n);
    NumberIs(w, n);
    AfterIs(w, n);
    AfterIs(w', n);
    RenamedIs(w.h[n].next, x, top);
    RenamedIs(After(w, n), x, top);
    ParentHasChild(w, n);
    if w.h[n].next == null && w.h[n].parent != null {
      AfterReplaced(w, x, from, top, cp, w', w.h[n].parent);
    }
  }

  lemma SuccessorReplaced(w: World, x: Node, from: Node, top: Node, cp: map<Node, Node>, w': World, n: Node)
    requires Consistent(w) && Consistent(w') && IsReplaced(w, x, from, top, cp, w') && x in w.h && w.h[x].first == null
    requires n in w.h && n in w.depth && n != x
    ensures n in w'.h && n in w'.depth && Successor(w', n) == Renamed(Successor(w, n), x, top)
  {
    hide *;
    ReplacedLinks(w, x, from, top, cp, w', n);
    AfterReplaced(w, x, from, top, cp, w', n);
    SuccessorIs(w, n);
    SuccessorIs(w', n);
    RenamedIs(w.h[n].first, x, top);
  }

  /** The top of the copy has the links that the replaced node had. */
  lemma AfterCopiedTop(w: World, x: Node, from: Node, top: Node, cp: map<Node, Node>, w': World)
    requires Consistent(w) && Consistent(w') && IsReplaced(w, x, from, top, cp, w') && x in w.h && w.h[x].first == null
    requires x in w.depth
    ensures top in w'.h && top in w'.depth && After(w', top) == After(w, x)
  {
    hide *;
    IsReplacedIs(w, x, from, top, cp, w');
    NumberIs(w', top);
    NumberIs(w, x);
    AfterIs(w, x);
    AfterIs(w', top);
    AfterIsOutside(w, x);
    WithinIs(w, x, x);
    ParentHasChild(w, x);
    if w.h[x].next == null && w.h[x].parent != null {
      TopIsNotItsOwnParent(w, x);
      AfterReplaced(w, x, from, top, cp, w', w.h[x].parent);
      RenamedIs(After(w, w.h[x].parent), x, top);
    }
  }

  /** The links of a copy lead to copies, inside the subtree. */
  lemma CopyLinks(w: World, x: Node, from: Node, top: Node, cp: map<Node, Node>, w': World, n: Node)
    requires Consistent(w) && IsReplaced(w, x, from, top, cp, w') && n in cp
    ensures n in w.h && Within(w, from, n) && cp[n] in w'.h && from in w.h && cp[from] == top
    ensures w.h[n].first != null ==> w.h[n].first in cp && w'.h[cp[n]].first == cp[w.h[n].first]
    ensures w.h[n].first == null ==> w'.h[cp[n]].first == null
    ensures n != from && w.h[n].next != null ==> w.h[n].next in cp && w'.h[cp[n]].next == cp[w.h[n].next]
    ensures n != from && w.h[n].next == null ==> w'.h[cp[n]].next == null
    ensures n != from ==> w.h[n].parent != null && w.h[n].parent in cp && w'.h[cp[n]].parent == cp[w.h[n].parent]
  {
    hide *;
    IsReplacedIs(w, x, from, top, cp, w');
    IsCopyIs(w, from, cp, w');
    CopiedNodeHas(w, from, cp, w', n);
    CopiedNodeIs(w, from, cp, w', n);
    CopiedNodeHas(w, from, cp, w', from);
    ChildIs(w, n);
    SiblingIs(w, n);
    WithinIs(w, from, n);
    var f, r, p := w.h[n].first, w.h[n].next, w.h[n].parent;
    ImageValue(cp, f);
    ImageValue(cp, r);
    ImageValue(cp, p);
    if f != null { WithinByParent(w, from, f); }
    if n != from {
      UnderOfParent(w, from, n);
      WithinIs(w, from, p);
      if r != null { WithinByParent(w, from, r); }
    }
  }

  /** What follows a copied node follows its copy, or, at the end of the copy, what
      followed the node replaced. */
  lemma {:induction false} AfterCopied(w: World, x: Node, from: Node, top: Node, cp: map<Node, Node>, w': World, n: Node)
    requires Consistent(w) && Consistent(w') && IsReplaced(w, x, from, top, cp, w') && x in w.h && w.h[x].first == null
    requires n in cp && n in w.depth && x in w.depth
    ensures n in w.h && cp[n] in w'.h && cp[n] in w'.depth && from in w.h && from in w.depth
    ensures After(w', cp[n]) == if After(w, n) == After(w, from) then After(w, x) else Image(cp, After(w, n))
    decreases w.depth[n]
  {
    hide *;
    CopyLinks(w, x, from, top, cp, w', n);
    NumberIs(w', cp[n]);
    NumberIs(w, from);
    NumberIs(w, n);
    if n == from {
      AfterCopiedTop(w, x, from, top, cp, w');
    } else {
      AfterIs(w, n);
      AfterIs(w', cp[n]);
      var r := w.h[n].next;
      if r != null {
        CopyLinks(w, x, from, top, cp, w', r);
        AfterIsOutside(w, from);
        ImageValue(cp, r);
      } else {
        AfterCopied(w, x, from, top, cp, w', w.h[n].parent);
      }
    }
  }

  lemma SuccessorCopied(w: World, x: Node, from: Node, top: Node, cp: map<Node, Node>, w': World, n: Node)
    requires Consistent(w) && Consistent(w') && IsReplaced(w, x, from, top, cp, w') && x in w.h && w.h[x].first == null
    requires n in cp && n in w.depth && x in w.depth
    ensures n in w.h && cp[n] in w'.h && cp[n] in w'.depth && from in w.h && from in w.depth
    ensures Successor(w', cp[n]) == if Successor(w, n) == After(w, from) then After(w, x) else Image(cp, Successor(w, n))
  {
    hide *;
    CopyLinks(w, x, from, top, cp, w', n);
    AfterCopied(w, x, from, top, cp, w', n);
    SuccessorIs(w, n);
    SuccessorIs(w', cp[n]);
    ImageValue(cp, w.h[n].first);
    if w.h[n].first != null {
      CopyLinks(w, x, from, top, cp, w', w.h[n].first);
      AfterIsOutside(w, from);
    }
  }

  function Images(cp: map<Node, Node>, s: seq<Node>): (r: seq<Node>)
    requires forall n | n in s :: n in cp
    ensures |r| == |s| && forall i | 0 <= i < |s| :: s[i] in s && r[i] == cp[s[i]]
  {
    seq(|s|, i requires 0 <= i < |s| => assert s[i] in s; cp[s[i]])
  }

  lemma ImagesAt(cp: map<Node, Node>, s: seq<Node>, i: nat)
    requires i < |s| && forall n | n in s :: n in cp
    ensures s[i] in cp && |Images(cp, s)| == |s| && Images(cp, s)[i] == cp[s[i]]
  {
  }

  lemma ScanStep(w: World, start: Node, s: seq<Node>, k: nat)
    requires IsScan(w, start, s) && k < |s|
    ensures Consistent(w) && s[k] in w.h && s[k] in w.depth && start in w.h && start in w.depth && s[0] == start
    ensures Within(w, start, s[k]) && Successor(w, s[k]) == if k + 1 < |s| then s[k + 1] else After(w, start)
    ensures k + 1 < |s| ==> s[k + 1] != After(w, start)
  {
    hide *;
    ScanIs(w, start, s);
    ListingIs(w, s);
    WalkIs(w, s, k);
    EndsIs(w, s, After(w, start));
    AfterIsOutside(w, start);
    assert s[k] in s;
    if k + 1 < |s| { assert s[k + 1] in s; }
  }

  /** The iterator's steps in the list with the copy in the place of x. */
  lemma CopyInListing(w: World, head: Node, roots: seq<Node>, feet: Node, l: seq<Node>, x: Node, from: Node, top: Node,
                      cp: map<Node, Node>, w': World, q: nat, s: seq<Node>, i: nat)
    requires TopList(w, head, roots, feet) && IsForest(w, roots, feet, l) && Consistent(w) && Consistent(w')
    requires IsReplaced(w, x, from, top, cp, w') && x in w.h && w.h[x].first == null && IsScan(w, from, s)
    requires q < |l| && l[q] == x
    ensures (forall n | n in s :: n in cp) && from in cp && cp[from] == top && s != [] && s[0] == from
    ensures i < |l| && i != q ==> l[i] in w'.h && l[i] in w'.depth
    ensures i < |l| && i != q ==> Successor(w', l[i]) == if i + 1 == q then top else TopAt(l, feet, i + 1)
    ensures i < |s| ==> cp[s[i]] in w'.h && cp[s[i]] in w'.depth
    ensures i < |s| ==> Successor(w', cp[s[i]]) == if i + 1 < |s| then cp[s[i + 1]] else TopAt(l, feet, q + 1)
  {
    hide *;
    IsReplacedIs(w, x, from, top, cp, w');
    IsCopyIs(w, from, cp, w');
    ScanIs(w, from, s);
    ScanStep(w, from, s, 0);
    forall n | n in s ensures n in cp {
      var k: nat :| k < |s| && s[k] == n;
      ScanStep(w, from, s, k);
    }
    InPlace(w, head, roots, feet, l, q);
    TopAtIs(l, feet, q);
    if i < |l| && i != q {
      InPlace(w, head, roots, feet, l, i);
      SuccessorReplaced(w, x, from, top, cp, w', l[i]);
      RenamedIs(TopAt(l, feet, i + 1), x, top);
    }
    if i < |s| {
      ScanStep(w, from, s, i);
      SuccessorCopied(w, x, from, top, cp, w', s[i]);
      SuccessorIs(w, x);
      if i + 1 < |s| {
        ScanStep(w, from, s, i + 1);
        ImageValue(cp, s[i + 1]);
      }
    }
  }

  /** The listing of the copy comes into the listing in the place of the node replaced. */
  lemma ReplacedListing(w: World, head: Node, roots: seq<Node>, feet: Node, l: seq<Node>, x: Node, from: Node, top: Node,
                        cp: map<Node, Node>, w': World, roots': seq<Node>, q: nat, s: seq<Node>)
    requires TopList(w, head, roots, feet) && IsForest(w, roots, feet, l) && TopList(w', head, roots', feet)
    requires Consistent(w) && IsReplaced(w, x, from, top, cp, w') && x in w.h && w.h[x].first == null && IsScan(w, from, s)
    requires forall k | k in cp :: cp[k] !in w.h
    requires q < |l| && l[q] == x && roots' != [] && roots'[0] == Renamed(l[0], x, top)
    ensures forall n | n in s :: n in cp
    ensures IsForest(w', roots', feet, l[..q] + Images(cp, s) + l[q + 1..])
  {
    hide *;
    TopListAt(w', head, roots', feet, 0);
    InPlace(w, head, roots, feet, l, q);
    CopyInListing(w, head, roots, feet, l, x, from, top, cp, w', q, s, 0);
    ImagesAt(cp, s, 0);
    var c := Images(cp, s);
    var L := l[..q] + c + l[q + 1..];
    RenamedIs(l[0], x, top);
    assert L[0] == if q == 0 then c[0] else l[0];
    ForestIs(w, roots, feet, l);
    ListingIs(w, l);
    forall n | n in L ensures n != feet {
      var i: nat :| i < |L| && L[i] == n;
      if q <= i < q + |c| { ImagesAt(cp, s, i - q); } else { assert n in l; }
    }
    forall i: nat | i < |L| ensures L[i] in w'.h && L[i] in w'.depth && Successor(w', L[i]) == TopAt(L, feet, i + 1) {
      TopAtIs(L, feet, i + 1);
      if q <= i < q + |c| {
        CopyInListing(w, head, roots, feet, l, x, from, top, cp, w', q, s, i - q);
        ImagesAt(cp, s, i - q);
        if i + 1 < q + |c| { ImagesAt(cp, s, i - q + 1); }
        TopAtIs(l, feet, q + 1);
      } else {
        var k := if i < q then i else i - |c| + 1;
        CopyInListing(w, head, roots, feet, l, x, from, top, cp, w', q, s, k);
        TopAtIs(l, feet, k + 1);
      }
    }
    StepsToForest(w', head, roots', feet, L);
  }

  // ---- A subtree goes ----

  /** The links of the nodes left, where the node erased is passed over. */
  lemma ErasedLinks(w: World, x: Node, w': World, n: Node)
    requires Consistent(w) && x in w.h && IsErased(w, x, w') && n in w.h && !Within(w, x, n)
    ensures n in w'.h && w'.h[n].parent == w.h[n].parent
    ensures w'.h[n].next == if w.h[n].next == x then w.h[x].next else w.h[n].next
    ensures w'.h[n].first == if w.h[n].first == x then w.h[x].next else w.h[n].first
    ensures w.h[n].next == x ==> w.h[n].parent == w.h[x].parent
    ensures w.h[n].first == x ==> w.h[x].parent == n
  {
    hide *;
    ErasedCell(w, x, w', n);
    SiblingIs(w, x);
    SiblingIs(w, n);
    ChildIs(w, n);
    UnlinkedLinks(w.h[n], n, w.h[x].parent, w.h[x].prev, w.h[x].next);
  }

  lemma ErasedCell(w: World, x: Node, w': World, n: Node)
    requires Consistent(w) && x in w.h && IsErased(w, x, w') && n in w.h
    ensures n in w'.h <==> !Within(w, x, n)
    ensures n in w'.h ==> w'.h[n] == Unlinked(w.h[n], n, w.h[x].parent, w.h[x].prev, w.h[x].next)
  {
    hide Consistent, Within, Unlinked;
  }

  lemma UnlinkedLinks(c: Cell, n: Node, p: Node?, a: Node?, b: Node?)
    ensures var r := Unlinked(c, n, p, a, b);
            && r.parent == c.parent && r.next == (if n == a then b else c.next)
            && r.first == (if a == null && n == p then b else c.first)
  {
  }

  lemma {:induction false} AfterErased(w: World, x: Node, w': World, n: Node)
    requires Consistent(w) && Consistent(w') && x in w.h && IsErased(w, x, w')
    requires n in w.h && n in w.depth && !Within(w, x, n) && x in w.depth
    ensures n in w'.h && n in w'.depth
    ensures After(w', n) == if After(w, n) == x then After(w, x) else After(w, n)
    decreases w.depth[n]
  {
    hide *;
    ErasedLinks(w, x, w', n);
    NumberIs(w, n);
    NumberIs(w', n);
    AfterIs(w, n);
    AfterIs(w', n);
    AfterIs(w, x);
    var p := w.h[n].parent;
    if w'.h[n].next == null && p != null {
      WithinIs(w, x, n);
      WithinIs(w, x, p);
      UnderOfParent(w, x, n);
      if p == x { NotUnderSelf(w, x); }
      AfterErased(w, x, w', p);
      AfterIsOutside(w, p);
      WithinIs(w, p, x);
      UnderOfParent(w, p, x);
    }
  }

  lemma SuccessorErased(w: World, x: Node, w': World, n: Node)
    requires Consistent(w) && Consistent(w') && x in w.h && IsErased(w, x, w')
    requires n in w.h && n in w.depth && !Within(w, x, n) && x in w.depth
    ensures n in w'.h && n in w'.depth
    ensures Successor(w', n) == if Successor(w, n) == x then After(w, x) else Successor(w, n)
  {
    hide *;
    ErasedLinks(w, x, w', n);
    AfterErased(w, x, w', n);
    SuccessorIs(w, n);
    SuccessorIs(w', n);
    AfterIs(w, x);
    AfterIsOutside(w, n);
    WithinIs(w, n, x);
    UnderOfParent(w, n, x);
  }

  /** The block of the subtree goes out of the listing, and nothing else changes. */
  lemma ErasedListing(w: World, head: Node, roots: seq<Node>, feet: Node, l: seq<Node>, x: Node, w': World,
                      roots': seq<Node>, m: nat, s: seq<Node>)
    requires TopList(w, head, roots, feet) && IsForest(w, roots, feet, l) && TopList(w', head, roots', feet)
    requires Consistent(w) && x in w.h && IsErased(w, x, w') && IsScan(w, x, s)
    requires m + |s| <= |l| && l[m..m + |s|] == s && |s| < |l|
    requires roots' != [] && roots'[0] == if m == 0 then l[|s|] else l[0]
    ensures IsForest(w', roots', feet, l[..m] + l[m + |s|..])
  {
    hide *;
    TopListAt(w', head, roots', feet, 0);
    ForestIs(w, roots, feet, l);
    ListingIs(w, l);
    ScanIs(w, x, s);
    var L := l[..m] + l[m + |s|..];
    var e := m + |s|;
    assert forall k: nat | k < |s| :: l[m + k] == l[m..e][k];
    ScanStep(w, x, s, 0);
    ScanStep(w, x, s, |s| - 1);
    InPlace(w, head, roots, feet, l, e - 1);
    assert l[e - 1] == s[|s| - 1];
    assert After(w, x) == TopAt(l, feet, e);
    forall i: nat | i < |L| ensures L[i] in w'.h && L[i] in w'.depth && Successor(w', L[i]) == TopAt(L, feet, i + 1) {
      var k := if i < m then i else i + |s|;
      OutsideBlock(w, l, x, m, s, k);
      InPlace(w, head, roots, feet, l, k);
      SuccessorErased(w, x, w', l[k]);
      TopAtIs(L, feet, i + 1);
      TopAtIs(l, feet, k + 1);
      TopAtIs(l, feet, e);
      TopAtIs(l, feet, m);
    }
    StepsToForest(w', head, roots', feet, L);
  }

  lemma OutsideBlock(w: World, l: seq<Node>, x: Node, m: nat, s: seq<Node>, k: nat)
    requires IsListing(w, l) && IsScan(w, x, s) && m + |s| <= |l| && l[m..m + |s|] == s && k < |l|
    requires k < m || m + |s| <= k
    ensures Consistent(w) && l[k] in w.h && !Within(w, x, l[k])
  {
    hide *;
    ListingIs(w, l);
    WalkIs(w, l, k);
    ScanIs(w, x, s);
  }

  // ---- The roots ----

  lemma TopListByStep(w: World, head: Node, roots: seq<Node>, feet: Node)
    requires Consistent(w) && head in w.h && feet in w.h
    requires w.h[head].parent == null && w.h[head].first == null && w.h[feet].first == null && w.h[feet].next == null
    requires w.h[head].next == TopAt(roots, feet, 0)
    requires forall i: nat | i < |roots| ::
               roots[i] in w.h && roots[i] != feet && w.h[roots[i]].next == TopAt(roots, feet, i + 1)
    ensures TopList(w, head, roots, feet)
  {
    hide Consistent;
    forall i, j | 0 <= i < |roots| && j == i + 1
      ensures roots[i] in w.h && w.h[roots[i]].next == if j < |roots| then roots[j] else feet
    {
    }
  }

  /** The links of the sentinels and the roots as one step each. */
  lemma TopStep(w: World, head: Node, roots: seq<Node>, feet: Node, i: nat)
    requires TopList(w, head, roots, feet) && i < |roots|
    ensures roots[i] in w.h && roots[i] != feet && w.h[roots[i]].next == TopAt(roots, feet, i + 1)
    ensures Consistent(w) && w.h[roots[i]].parent == null
    ensures forall j: nat | j <= |roots| :: TopAt(roots, feet, j) == roots[i] ==> j == i
    ensures roots[i] != head
  {
    hide *;
    TopListAt(w, head, roots, feet, i);
    TopAtIs(roots, feet, i);
    TopAtIs(roots, feet, i + 1);
    RootIs(w, head, roots, feet, i);
    HeadIsFirst(w, head, roots, feet, i);
    forall j: nat | j <= |roots| ensures TopAt(roots, feet, j) == roots[i] ==> j == i {
      RootIs(w, head, roots, feet, j);
      TopAtIs(roots, feet, j);
    }
  }

  lemma TopInsertedBelow(w: World, p: Node, a: Node?, b: Node?, x: Node, w': World, head: Node, roots: seq<Node>, feet: Node)
    requires TopList(w, head, roots, feet) && Consistent(w') && Gap(w, p, a, b) && IsLinkedIn(w, p, a, b, x, w')
    requires p != head && p != feet
    ensures TopList(w', head, roots, feet)
  {
    hide *;
    TopListAt(w, head, roots, feet, 0);
    GapIs(w, p, a, b);
    RootIs(w, head, roots, feet, |roots|);
    TopAtIs(roots, feet, |roots|);
    TopAtIs(roots, feet, 0);
    LinkedInCell(w, p, a, b, x, w', head);
    LinkedInCell(w, p, a, b, x, w', feet);
    RelinkedLinks(w.h[head], head, p, a, b, x);
    RelinkedLinks(w.h[feet], feet, p, a, b, x);
    forall i: nat | i < |roots|
      ensures roots[i] in w'.h && roots[i] != feet && w'.h[roots[i]].next == TopAt(roots, feet, i + 1)
    {
      TopStep(w, head, roots, feet, i);
      LinkedInCell(w, p, a, b, x, w', roots[i]);
      RelinkedLinks(w.h[roots[i]], roots[i], p, a, b, x);
    }
    TopListByStep(w', head, roots, feet);
  }

  /** A new root after the first. */
  lemma TopInserted(w: World, b: Node?, x: Node, w': World, head: Node, roots: seq<Node>, feet: Node)
    requires TopList(w, head, roots, feet) && Consistent(w') && roots != []
    requires Gap(w, null, roots[0], b) && IsLinkedIn(w, null, roots[0], b, x, w')
    ensures TopList(w', head, [roots[0], x] + roots[1..], feet)
  {
    hide *;
    TopListAt(w, head, roots, feet, 0);
    RootIs(w, head, roots, feet, |roots|);
    TopAtIs(roots, feet, |roots|);
    TopAtIs(roots, feet, 0);
    var a, roots' := roots[0], [roots[0], x] + roots[1..];
    GapIs(w, null, a, b);
    LinkedInNew(w, null, a, b, x, w');
    LinkedInCell(w, null, a, b, x, w', head);
    LinkedInCell(w, null, a, b, x, w', feet);
    RelinkedLinks(w.h[head], head, null, a, b, x);
    RelinkedLinks(w.h[feet], feet, null, a, b, x);
    CellIs(null, null, null, a, b);
    TopStep(w, head, roots, feet, 0);
    TopAtIs(roots', feet, 0);
    forall i: nat | i < |roots'|
      ensures roots'[i] in w'.h && roots'[i] != feet && w'.h[roots'[i]].next == TopAt(roots', feet, i + 1)
    {
      TopAtIs(roots', feet, i + 1);
      if i != 1 {
        var k: nat := if i == 0 then 0 else i - 1;
        TopStep(w, head, roots, feet, k);
        TopAtIs(roots, feet, k + 1);
        LinkedInCell(w, null, a, b, x, w', roots[k]);
        RelinkedLinks(w.h[roots[k]], roots[k], null, a, b, x);
      } else {
        TopAtIs(roots, feet, 1);
      }
    }
    TopListByStep(w', head, roots', feet);
  }

  function AllRenamed(s: seq<Node>, x: Node, top: Node): (r: seq<Node>)
    ensures |r| == |s| && forall i | 0 <= i < |s| :: r[i] == if s[i] == x then top else s[i]
  {
    seq(|s|, i requires 0 <= i < |s| => if s[i] == x then top else s[i])
  }

  lemma TopReplaced(w: World, x: Node, from: Node, top: Node, cp: map<Node, Node>, w': World, head: Node,
                    roots: seq<Node>, feet: Node)
    requires TopList(w, head, roots, feet) && Consistent(w') && IsReplaced(w, x, from, top, cp, w')
    requires x in w.h && w.h[x].first == null && x != head && x != feet && top != feet
    ensures TopList(w', head, AllRenamed(roots, x, top), feet)
  {
    TopListAt(w, head, roots, feet, 0);
    hide *;
    RootIs(w, head, roots, feet, |roots|);
    TopAtIs(roots, feet, |roots|);
    TopAtIs(roots, feet, 0);
    var roots' := AllRenamed(roots, x, top);
    assert |roots'| == |roots| && forall i | 0 <= i < |roots| :: roots'[i] == if roots[i] == x then top else roots[i];
    ReplacedLinks(w, x, from, top, cp, w', head);
    ReplacedLinks(w, x, from, top, cp, w', feet);
    RenamedIs(w.h[head].next, x, top);
    RenamedIs(w.h[head].first, x, top);
    RenamedIs(w.h[feet].next, x, top);
    RenamedIs(w.h[feet].first, x, top);
    TopAtIs(roots', feet, 0);
    IsReplacedIs(w, x, from, top, cp, w');
    forall i: nat | i < |roots'|
      ensures roots'[i] in w'.h && roots'[i] != feet && w'.h[roots'[i]].next == TopAt(roots', feet, i + 1)
    {
      TopStep(w, head, roots, feet, i);
      TopAtIs(roots, feet, i + 1);
      TopAtIs(roots', feet, i + 1);
      if roots[i] != x {
        ReplacedLinks(w, x, from, top, cp, w', roots[i]);
        RenamedIs(w.h[roots[i]].next, x, top);
      } else if i + 1 < |roots| {
        TopStep(w, head, roots, feet, i + 1);
      }
    }
    TopListByStep(w', head, roots', feet);
  }

  /** A node that is no root goes. */
  lemma TopErasedBelow(w: World, x: Node, w': World, head: Node, roots: seq<Node>, feet: Node)
    requires TopList(w, head, roots, feet) && Consistent(w') && x in w.h && IsErased(w, x, w')
    requires w.h[x].parent != null
    ensures TopList(w', head, roots, feet)
  {
    hide *;
    TopListAt(w, head, roots, feet, 0);
    RootIs(w, head, roots, feet, |roots|);
    TopAtIs(roots, feet, |roots|);
    TopAtIs(roots, feet, 0);
    RootIs(w, head, roots, feet, 0);
    ErasedTop(w, x, w', head);
    ErasedTop(w, x, w', feet);
    forall i: nat | i < |roots|
      ensures roots[i] in w'.h && roots[i] != feet && w'.h[roots[i]].next == TopAt(roots, feet, i + 1)
    {
      TopStep(w, head, roots, feet, i);
      RootIs(w, head, roots, feet, i + 1);
      ErasedTop(w, x, w', roots[i]);
    }
    TopListByStep(w', head, roots, feet);
  }

  lemma ErasedTop(w: World, x: Node, w': World, n: Node)
    requires Consistent(w) && x in w.h && IsErased(w, x, w') && n in w.h && w.h[n].parent == null && n != x
    ensures n in w'.h && w'.h[n].parent == null
    ensures w'.h[n].next == if w.h[n].next == x then w.h[x].next else w.h[n].next
    ensures w'.h[n].first == if w.h[n].first == x then w.h[x].next else w.h[n].first
  {
    hide *;
    WithinIs(w, x, n);
    UnderOfParent(w, x, n);
    ErasedLinks(w, x, w', n);
  }

  /** A root goes. */
  lemma TopErased(w: World, w': World, head: Node, roots: seq<Node>, feet: Node, i: nat)
    requires TopList(w, head, roots, feet) && i < |roots| && roots[i] in w.h && Consistent(w) && Consistent(w')
    requires IsErased(w, roots[i], w')
    ensures TopList(w', head, roots[..i] + roots[i + 1..], feet)
  {
    hide *;
    var x, roots' := roots[i], roots[..i] + roots[i + 1..];
    TopListAt(w, head, roots, feet, 0);
    RootIs(w, head, roots, feet, |roots|);
    TopAtIs(roots, feet, |roots|);
    TopAtIs(roots, feet, 0);
    TopAtIs(roots', feet, 0);
    TopStep(w, head, roots, feet, i);
    TopAtIs(roots, feet, i + 1);
    ErasedTop(w, x, w', head);
    ErasedTop(w, x, w', feet);
    forall k: nat | k < |roots'|
      ensures roots'[k] in w'.h && roots'[k] != feet && w'.h[roots'[k]].next == TopAt(roots', feet, k + 1)
    {
      var j := if k < i then k else k + 1;
      TopStep(w, head, roots, feet, j);
      TopAtIs(roots, feet, j);
      TopAtIs(roots, feet, j + 1);
      TopAtIs(roots', feet, k + 1);
      ErasedTop(w, x, w', roots[j]);
    }
    TopListByStep(w', head, roots', feet);
  }
}
