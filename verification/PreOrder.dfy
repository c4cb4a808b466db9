/** The shape of a filter forest, as its pre-order iterator shows it: the depth
    of every node, in visiting order. Node `i` is the `i`-th node visited. */
module PreOrder {

  /** A node is at most one level below the node visited before it, and the
      first node visited is a root. */
  ghost predicate Valid(d: seq<nat>) {
    && (d != [] ==> d[0] == 0)
    && forall i | 0 < i < |d| :: d[i] <= d[i - 1] + 1
  }

  /** `i` is a proper descendant of `a`. */
  predicate Below(d: seq<nat>, a: nat, i: nat)
    requires i < |d|
  {
    a < i && forall k | a < k <= i :: d[a] < d[k]
  }

  predicate Within(d: seq<nat>, a: nat, i: nat)
    requires i < |d|
  {
    a == i || Below(d, a, i)
  }

  predicate IsLeaf(d: seq<nat>, i: nat)
    requires i < |d|
  {
    i + 1 == |d| || d[i + 1] <= d[i]
  }

  /** The last node at or before `j` that is no deeper than `x`. */
  function LastAtMost(d: seq<nat>, j: nat, x: nat): (p: nat)
    requires j < |d| && d[0] <= x
    ensures p <= j && d[p] <= x && forall k | p < k <= j :: x < d[k]
  {
    if d[j] <= x then j else LastAtMost(d, j - 1, x)
  }

  /** Index of the parent, or -1 for a root. */
  function Parent(d: seq<nat>, i: nat): (p: int)
    requires Valid(d) && i < |d|
    ensures p == -1 <==> d[i] == 0
    ensures p != -1 ==> 0 <= p < i && d[p] + 1 == d[i] && Below(d, p, i)
  {
    if d[i] == 0 then -1
    else
      assert d[0] == 0;
      var p := LastAtMost(d, i - 1, d[i] - 1);
      assert d[p + 1] <= d[p] + 1;
      p
  }

  /** One past the last node of the subtree that starts at `i`. */
  function End(d: seq<nat>, i: nat): (e: nat)
    requires i < |d|
    ensures i < e <= |d|
    ensures forall k | i < k < e :: d[i] < d[k]
    ensures e < |d| ==> d[e] <= d[i]
  {
    EndFrom(d, i, i + 1)
  }

  function EndFrom(d: seq<nat>, i: nat, j: nat): (e: nat)
    requires i < j <= |d|
    requires forall k | i < k < j :: d[i] < d[k]
    ensures j <= e <= |d|
    ensures forall k | i < k < e :: d[i] < d[k]
    ensures e < |d| ==> d[e] <= d[i]
    decreases |d| - j
  {
    if j == |d| || d[j] <= d[i] then j else EndFrom(d, i, j + 1)
  }

  /** A subtree is the contiguous range [a, End(a)). */
  lemma SubtreeIsRange(d: seq<nat>, a: nat, i: nat)
    requires a < |d| && i < |d|
    ensures Within(d, a, i) <==> a <= i < End(d, a)
  {
    var e := End(d, a);
    var outside := if e < |d| then d[e] else 0;
    assert outside <= d[a];
  }

  /** The parent is the only node one level up whose subtree holds the node. */
  lemma ParentUnique(d: seq<nat>, p: nat, i: nat)
    requires Valid(d) && i < |d| && Below(d, p, i) && d[p] + 1 == d[i]
    ensures Parent(d, i) == p
  {
    var q := Parent(d, i);
    assert q != -1;
    assert d[q] == d[p];
  }

  /** Climbing from a node meets exactly its proper ancestors. */
  lemma BelowByParent(d: seq<nat>, a: nat, i: nat)
    requires Valid(d) && i < |d|
    ensures Below(d, a, i) <==>
            Parent(d, i) >= 0 && (a == Parent(d, i) || Below(d, a, Parent(d, i)))
  {
    var p := Parent(d, i);
    if Below(d, a, i) {
      assert d[a] < d[i];
      assert p != -1 && d[a] <= d[p];
    }
    if p >= 0 && Below(d, a, p) {
      assert d[a] < d[p];
      forall k | a < k <= i ensures d[a] < d[k] {
        if k > p { assert d[p] < d[k]; }
      }
    }
  }

  lemma BelowTrans(d: seq<nat>, a: nat, b: nat, i: nat)
    requires i < |d| && b < |d| && Below(d, a, b) && Below(d, b, i)
    ensures Below(d, a, i)
  {
    assert d[a] < d[b];
    forall k | a < k <= i ensures d[a] < d[k] {
      if k > b { assert d[b] < d[k]; }
    }
  }

  /** Two ancestors of one node lie on one path. */
  lemma AncestorsNest(d: seq<nat>, a: nat, b: nat, i: nat)
    requires i < |d| && a < b <= i && Below(d, a, i) && Within(d, b, i)
    ensures Below(d, a, b)
  {
  }

  /** A node whose successor is deeper has that successor as its first child. */
  lemma FirstChild(d: seq<nat>, i: nat)
    requires Valid(d) && i < |d| && !IsLeaf(d, i)
    ensures d[i + 1] == d[i] + 1 && Parent(d, i + 1) == i
  {
    ParentUnique(d, i, i + 1);
  }

  /** Only a leaf has no child. */
  lemma ParentIsInner(d: seq<nat>, i: nat)
    requires Valid(d) && i < |d| && Parent(d, i) >= 0
    ensures !IsLeaf(d, Parent(d, i))
  {
  }

  /** The sibling iterator: the child after `c`, or -1 past the last one. */
  function NextSibling(d: seq<nat>, c: nat): (r: int)
    requires c < |d|
    ensures r == -1 || (c < r < |d| && d[r] == d[c] && forall k | c < k < r :: d[c] < d[k])
  {
    var e := End(d, c);
    if e < |d| && d[e] == d[c] then e else -1
  }

  /** Between a child and the next one there is no other child of the parent,
      and after the last child there is none. */
  lemma SiblingsCover(d: seq<nat>, c: nat, j: nat)
    requires Valid(d) && c < j < |d| && Parent(d, c) >= 0 && Parent(d, j) == Parent(d, c)
    ensures NextSibling(d, c) != -1 && NextSibling(d, c) <= j
  {
    var p := Parent(d, c);
    var e := End(d, c);
    assert e <= j;
    assert d[p] < d[e];
  }

  lemma NextSiblingHasParent(d: seq<nat>, c: nat)
    requires Valid(d) && c < |d| && NextSibling(d, c) != -1 && Parent(d, c) >= 0
    ensures Parent(d, NextSibling(d, c)) == Parent(d, c)
  {
    var p, r := Parent(d, c), NextSibling(d, c);
    forall k | p < k <= r ensures d[p] < d[k] {
      if c < k < r { assert d[c] < d[k]; }
    }
    ParentUnique(d, p, r);
  }

  /** The deepest level in use, -1 for an empty forest. */
  function MaxDepth(d: seq<nat>): (m: int)
    ensures forall i | 0 <= i < |d| :: d[i] <= m
    ensures if d == [] then m == -1 else exists i | 0 <= i < |d| :: d[i] == m
  {
    MaxDepthOf(d, |d|)
  }

  function MaxDepthOf(d: seq<nat>, n: nat): (m: int)
    requires n <= |d|
    ensures forall i | 0 <= i < n :: d[i] <= m
    ensures if n == 0 then m == -1 else exists i | 0 <= i < n :: d[i] == m
  {
    if n == 0 then -1
    else
      var m := MaxDepthOf(d, n - 1);
      if m < d[n - 1] then d[n - 1] else m
  }

  /** The parent climb that decides whether one node lies under another. */
  method IsChild(d: seq<nat>, testParent: nat, testChild: nat) returns (r: bool)
    requires Valid(d) && testChild < |d|
    ensures r <==> Below(d, testParent, testChild)
  {
    var c: nat := testChild;
    while d[c] != 0
      invariant c < |d|
      invariant Below(d, testParent, testChild) <==> Below(d, testParent, c)
      decreases c
    {
      BelowByParent(d, testParent, c);
      c := Parent(d, c);
      if c == testParent {
        return true;
      }
    }
    BelowByParent(d, testParent, c);
    return false;
  }
}
