/** Edits of the forest: clearing caches, changing a property, moving a subtree.
    Each keeps the caches coherent. */
module Edits {
  import opened Filters
  import opened PreOrder
  import opened Evaluation

  // ---- Caches and properties ----

  /** What flows out of a filter depends on the filters on its path only. */
  lemma {:induction false} PureByPath(lib: Library, t: Forest, u: Forest, i: nat)
    requires ValidForest(t) && ValidForest(u) && t.d == u.d && i < |t.d|
    requires forall a: nat | Below(t.d, a, i) :: t.f[a].cfg == u.f[a].cfg
    ensures PureIn(lib, t, i) == PureIn(lib, u, i)
    ensures t.f[i].cfg == u.f[i].cfg ==> PureOut(lib, t, i) == PureOut(lib, u, i)
  {
    var p := Parent(t.d, i);
    if p != -1 {
      forall a: nat | Below(t.d, a, p) ensures t.f[a].cfg == u.f[a].cfg {
        BelowByParent(t.d, a, i);
      }
      PureByPath(lib, t, u, p);
    }
  }

  /** Clearing caches, any of them, keeps the rest coherent. */
  lemma ClearingKeepsCoherence(lib: Library, t: Forest, t': Forest)
    requires ValidForest(t) && Coherent(lib, t) && t'.d == t.d && |t'.f| == |t.f|
    requires forall i | 0 <= i < |t.f| :: t'.f[i] == t.f[i] || t'.f[i] == t.f[i].(cache := None)
    ensures ValidForest(t') && Coherent(lib, t')
  {
    forall i: nat | i < |t.d| {
      PureByPath(lib, t, t', i);
    }
  }

  /** What a filter makes of a property value: refused, the value it has already,
      or a new value, for which the filter drops its own cache. */
  datatype PropertyOutcome = Refused | Same | Changed(cfg: int)

  /** The filters after filter `x` has been given a new property value. */
  function WithProperty(d: seq<nat>, f: seq<Filter>, x: nat, cfg: int): (g: seq<Filter>)
    requires |d| == |f|
    ensures |g| == |f|
  {
    seq(|f|, i requires 0 <= i < |f| =>
      if i == x then f[i].(cfg := cfg, cache := None)
      else if Below(d, x, i) then f[i].(cache := None)
      else f[i])
  }

  /** Filter `x` has the new value and no cache, the filters below it have no caches, and
      all else is as before. */
  ghost predicate IsChangedAt(d: seq<nat>, f: seq<Filter>, x: nat, cfg: int, g: seq<Filter>)
    requires |d| == |f|
  {
    && x < |f| && |g| == |f|
    && g[x] == Filter(f[x].id, cfg, None)
    && (forall i: nat | i < |f| && Below(d, x, i) :: g[i] == Filter(f[i].id, f[i].cfg, None))
    && forall i: nat | i < |f| && i != x && !Below(d, x, i) :: g[i] == f[i]
  }

  lemma ChangeExact(d: seq<nat>, f: seq<Filter>, x: nat, cfg: int)
    requires |d| == |f| && x < |f|
    ensures IsChangedAt(d, f, x, cfg, WithProperty(d, f, x, cfg))
  {
    hide Below;
    assert !Below(d, x, x) by { BelowSelf(d, x); }
  }

  lemma BelowSelf(d: seq<nat>, x: nat)
    requires x < |d|
    ensures !Below(d, x, x)
  {
  }

  /** A new property value keeps the caches coherent, because the filter and all
      the filters below it have lost theirs. */
  lemma PropertyKeepsCoherence(lib: Library, t: Forest, x: nat, cfg: int)
    requires ValidForest(t) && Coherent(lib, t) && x < |t.d|
    ensures ValidForest(Forest(t.d, WithProperty(t.d, t.f, x, cfg)))
    ensures Coherent(lib, Forest(t.d, WithProperty(t.d, t.f, x, cfg)))
  {
    var t' := Forest(t.d, WithProperty(t.d, t.f, x, cfg));
    forall i: nat | i < |t.d| && t'.f[i].cache.Some?
      ensures View(t'.f[i].cache.value) == lib.gen(t'.f[i].cfg, PureIn(lib, t', i))
    {
      PureByPath(lib, t, t', i);
    }
  }

  // ---- Moving a subtree ----

  /** `s` with the slice [m, e) taken out and `block` put in where `q` was. */
  function Move<T>(s: seq<T>, m: nat, e: nat, q: nat, block: seq<T>): seq<T>
    requires m <= e <= |s| && q <= |s| && (q <= m || e <= q)
  {
    if q <= m then s[..q] + block + s[q..m] + s[e..]
    else s[..m] + s[e..q] + block + s[q..]
  }

  /** Where the element at `k` goes. */
  function Place(m: nat, e: nat, q: nat, k: nat): int
    requires m <= e && (q <= m || e <= q)
  {
    if m <= k < e then (if q <= m then q else q - (e - m)) + (k - m)
    else if q <= m then if q <= k < m then k + (e - m) else k
    else if e <= k < q then k - (e - m) else k
  }

  /** Which element comes to place `k`. */
  function Unplace(m: nat, e: nat, q: nat, k: nat): int
    requires m <= e && (q <= m || e <= q)
  {
    var pos := if q <= m then q else q - (e - m);
    if pos <= k < pos + (e - m) then k - pos + m
    else if q <= m then if q + (e - m) <= k < e then k - (e - m) else k
    else if m <= k < pos then k + (e - m) else k
  }

  lemma PlaceInverse(m: nat, e: nat, q: nat, n: nat, k: nat)
    requires m <= e <= n && q <= n && (q <= m || e <= q) && k < n
    ensures 0 <= Place(m, e, q, k) < n && Unplace(m, e, q, Place(m, e, q, k)) == k
    ensures 0 <= Unplace(m, e, q, k) < n && Place(m, e, q, Unplace(m, e, q, k)) == k
  {
  }

  lemma MoveAt<T>(s: seq<T>, m: nat, e: nat, q: nat, block: seq<T>, k: nat)
    requires m <= e <= |s| && q <= |s| && (q <= m || e <= q) && |block| == e - m && k < |s|
    ensures |Move(s, m, e, q, block)| == |s| && 0 <= Place(m, e, q, k) < |s|
    ensures Move(s, m, e, q, block)[Place(m, e, q, k)] == if m <= k < e then block[k - m] else s[k]
  {
    if q <= m {
      MoveUpAt(s, m, e, q, block, k);
    } else {
      MoveDownAt(s, m, e, q, block, k);
    }
  }

  lemma MoveUpAt<T>(s: seq<T>, m: nat, e: nat, q: nat, block: seq<T>, k: nat)
    requires q <= m <= e <= |s| && |block| == e - m && k < |s|
    ensures |Move(s, m, e, q, block)| == |s| && 0 <= Place(m, e, q, k) < |s|
    ensures Move(s, m, e, q, block)[Place(m, e, q, k)] == if m <= k < e then block[k - m] else s[k]
  {
  }

  lemma MoveDownAt<T>(s: seq<T>, m: nat, e: nat, q: nat, block: seq<T>, k: nat)
    requires m < q && m <= e <= q <= |s| && |block| == e - m && k < |s|
    ensures |Move(s, m, e, q, block)| == |s| && 0 <= Place(m, e, q, k) < |s|
    ensures Move(s, m, e, q, block)[Place(m, e, q, k)] == if m <= k < e then block[k - m] else s[k]
  {
  }

  function Raise(x: nat, from: nat, to: nat): nat {
    if from <= x then x - from + to else 0
  }

  function Shift(s: seq<nat>, from: nat, to: nat): (r: seq<nat>)
    requires forall i | 0 <= i < |s| :: from <= s[i]
    ensures |r| == |s| && forall i | 0 <= i < |s| :: r[i] == s[i] - from + to
  {
    seq(|s|, i requires 0 <= i < |s| => Raise(s[i], from, to))
  }

  function ParentIndex(f: seq<Filter>, newParent: Option<nat>): Option<nat> {
    if newParent.Some? then Some(IndexOf(f, newParent.value)) else None
  }

  /** Where the moved subtree goes: after the last descendant of its new parent,
      or, as a root, after the first tree. */
  function Target(d: seq<nat>, p: Option<nat>): nat
    requires d != [] && (p.Some? ==> p.value < |d|)
  {
    match p
    case Some(i) => End(d, i)
    case None => End(d, 0)
  }

  function NewDepth(d: seq<nat>, p: Option<nat>): nat
    requires p.Some? ==> p.value < |d|
  {
    match p
    case Some(i) => d[i] + 1
    case None => 0
  }

  ghost predicate CanMove(d: seq<nat>, m: nat, p: Option<nat>) {
    && Valid(d) && m < |d|
    && (p.Some? ==> p.value < |d| && !Within(d, m, p.value))
  }

  lemma TargetOutside(d: seq<nat>, m: nat, p: Option<nat>)
    requires CanMove(d, m, p)
    ensures Target(d, p) <= m || End(d, m) <= Target(d, p) <= |d|
    ensures m < End(d, m) <= |d| && forall k | m <= k < End(d, m) :: d[m] <= d[k]
  {
    var a := if p.Some? then p.value else 0;
    SubtreeIsRange(d, m, a);
    SubtreeIsRange(d, a, m);
    if Within(d, a, m) && End(d, a) < |d| {
      SubtreeIsRange(d, m, End(d, a));
      assert d[End(d, a)] <= d[a];
    }
  }

  function MovedDepths(d: seq<nat>, m: nat, p: Option<nat>): seq<nat>
    requires CanMove(d, m, p)
  {
    TargetOutside(d, m, p);
    Move(d, m, End(d, m), Target(d, p), Shift(d[m..End(d, m)], d[m], NewDepth(d, p)))
  }

  function MovedFilters(d: seq<nat>, f: seq<Filter>, m: nat, p: Option<nat>): seq<Filter>
    requires CanMove(d, m, p) && |f| == |d|
  {
    TargetOutside(d, m, p);
    Move(f, m, End(d, m), Target(d, p), f[m..End(d, m)])
  }

  /** The clearing loop before a move runs from the moved filter to the end of the
      forest and passes over other filters on the moved one's level. */
  function ClearedForMove(d: seq<nat>, f: seq<Filter>, m: nat): (c: seq<Filter>)
    requires |d| == |f| && m < |d|
    ensures |c| == |f|
    ensures forall k: nat | k < |f| :: c[k] == f[k] || c[k] == f[k].(cache := None)
    ensures forall k: nat | k < |f| && Within(d, m, k) :: c[k].cache.None?
  {
    seq(|f|, k requires 0 <= k < |f| =>
      if k == m || (m <= k && d[k] != d[m]) then f[k].(cache := None) else f[k])
  }

  /** Where node `k` is after the move. */
  function NewIndex(d: seq<nat>, m: nat, p: Option<nat>, k: nat): (k': nat)
    requires CanMove(d, m, p) && k < |d|
    ensures k' < |d|
  {
    TargetOutside(d, m, p);
    PlaceInverse(m, End(d, m), Target(d, p), |d|, k);
    Place(m, End(d, m), Target(d, p), k)
  }

  /** Every place is taken by one node. */
  lemma NewIndexOnto(d: seq<nat>, m: nat, p: Option<nat>, k': nat) returns (k: nat)
    requires CanMove(d, m, p) && k' < |d|
    ensures k < |d| && NewIndex(d, m, p, k) == k'
    ensures forall j: nat | j < |d| && NewIndex(d, m, p, j) == k' :: j == k
  {
    TargetOutside(d, m, p);
    PlaceInverse(m, End(d, m), Target(d, p), |d|, k');
    k := Unplace(m, End(d, m), Target(d, p), k');
    forall j: nat | j < |d| && NewIndex(d, m, p, j) == k' ensures j == k {
      PlaceInverse(m, End(d, m), Target(d, p), |d|, j);
    }
  }

  /** Depth and filter at the new place. */
  lemma MovedAt(d: seq<nat>, f: seq<Filter>, m: nat, p: Option<nat>, k: nat)
    requires CanMove(d, m, p) && |f| == |d| && k < |d|
    ensures |MovedDepths(d, m, p)| == |MovedFilters(d, f, m, p)| == |d|
    ensures MovedDepths(d, m, p)[NewIndex(d, m, p, k)] ==
            if Within(d, m, k) then d[k] - d[m] + NewDepth(d, p) else d[k]
    ensures MovedFilters(d, f, m, p)[NewIndex(d, m, p, k)] == f[k]
  {
    TargetOutside(d, m, p);
    SubtreeIsRange(d, m, k);
    var e, q := End(d, m), Target(d, p);
    MoveAt(d, m, e, q, Shift(d[m..e], d[m], NewDepth(d, p)), k);
    MoveAt(f, m, e, q, f[m..e], k);
  }

  /** The moved subtree hangs below its new parent, every other node below its
      old one. */
  function NewParent(d: seq<nat>, m: nat, p: Option<nat>, k: nat): int
    requires CanMove(d, m, p) && k < |d|
  {
    if k == m then (if p.Some? then NewIndex(d, m, p, p.value) else -1)
    else if Parent(d, k) == -1 then -1
    else NewIndex(d, m, p, Parent(d, k))
  }

  lemma PlaceOrder(m: nat, e: nat, q: nat, a: nat, j: nat)
    requires m <= e && (q <= m || e <= q)
    ensures (m <= a < e <==> m <= j < e) ==> (Place(m, e, q, a) < Place(m, e, q, j) <==> a < j)
    ensures !(m <= a < e) && m <= j < e ==> (Place(m, e, q, a) < Place(m, e, q, j) <==> a < q)
    ensures !(m <= a < e) && m <= j < e ==> Place(m, e, q, a) != Place(m, e, q, j)
  {
  }

  /** Nothing between a node and its parent, in the new order, is too shallow. */
  lemma StillBelow(d: seq<nat>, m: nat, p: Option<nat>, a: nat, k: nat, j: nat)
    requires CanMove(d, m, p) && k < |d| && j < |d|
    requires if k == m then p == Some(a) else Parent(d, k) == a
    requires NewIndex(d, m, p, a) < NewIndex(d, m, p, j) <= NewIndex(d, m, p, k)
    ensures Within(d, m, j) && !Within(d, m, a) ==> d[a] < NewDepth(d, p)
    ensures (Within(d, m, j) <==> Within(d, m, a)) ==> d[a] < d[j]
    ensures Within(d, m, a) ==> Within(d, m, j)
  {
    TargetOutside(d, m, p);
    var e, q := End(d, m), Target(d, p);
    SubtreeIsRange(d, m, a);
    SubtreeIsRange(d, m, k);
    SubtreeIsRange(d, m, j);
    PlaceOrder(m, e, q, a, j);
    PlaceOrder(m, e, q, j, k);
    PlaceOrder(m, e, q, k, j);
    if k == m {
      SubtreeIsRange(d, a, j);
    } else {
      BelowByParent(d, m, k);
      BelowByParent(d, a, k);
      hide *;
      if !(m <= k < e) && m <= j < e {
        assert a < q <= k;
        Crossing(d, m, p, a, k);
      }
    }
  }

  lemma Crossing(d: seq<nat>, m: nat, p: Option<nat>, a: nat, k: nat)
    requires CanMove(d, m, p) && k < |d| && Below(d, a, k) && a < Target(d, p) <= k
    ensures d[a] < NewDepth(d, p)
  {
    assert d[a] < d[Target(d, p)];
  }

  lemma NewParentIsAbove(d: seq<nat>, m: nat, p: Option<nat>, k: nat)
    requires CanMove(d, m, p) && k < |d| && NewParent(d, m, p, k) != -1
    ensures |MovedDepths(d, m, p)| == |d|
    ensures var d' := MovedDepths(d, m, p);
            0 <= NewParent(d, m, p, k) < NewIndex(d, m, p, k) &&
            Below(d', NewParent(d, m, p, k), NewIndex(d, m, p, k)) &&
            d'[NewParent(d, m, p, k)] + 1 == d'[NewIndex(d, m, p, k)]
  {
    var d' := MovedDepths(d, m, p);
    var a := if k == m then p.value else Parent(d, k);
    var k', a' := NewIndex(d, m, p, k), NewIndex(d, m, p, a);
    var f := seq(|d|, _ => Filter(0, 0, None));
    MovedAt(d, f, m, p, k);
    MovedAt(d, f, m, p, a);
    ParentComesFirst(d, m, p, a, k);
    forall j' | a' < j' <= k' ensures d'[a'] < d'[j'] {
      var j := NewIndexOnto(d, m, p, j');
      MovedAt(d, f, m, p, j);
      StillBelow(d, m, p, a, k, j);
    }
  }

  lemma ParentComesFirst(d: seq<nat>, m: nat, p: Option<nat>, a: nat, k: nat)
    requires CanMove(d, m, p) && k < |d| && a < |d|
    requires if k == m then p == Some(a) else Parent(d, k) == a
    ensures NewIndex(d, m, p, a) < NewIndex(d, m, p, k)
    ensures Within(d, m, a) <==> Within(d, m, k) && k != m
  {
    TargetOutside(d, m, p);
    SubtreeIsRange(d, m, a);
    SubtreeIsRange(d, m, k);
    PlaceOrder(m, End(d, m), Target(d, p), a, k);
    if k != m {
      BelowByParent(d, m, k);
    }
  }

  lemma MovedStep(d: seq<nat>, m: nat, p: Option<nat>, k': nat)
    requires CanMove(d, m, p) && k' < |d|
    ensures |MovedDepths(d, m, p)| == |d|
    ensures MovedDepths(d, m, p)[k'] <= if k' == 0 then 0 else MovedDepths(d, m, p)[k' - 1] + 1
  {
    var d' := MovedDepths(d, m, p);
    var f := seq(|d|, _ => Filter(0, 0, None));
    var k := NewIndexOnto(d, m, p, k');
    MovedAt(d, f, m, p, k);
    if NewParent(d, m, p, k) != -1 {
      NewParentIsAbove(d, m, p, k);
      var above := NewParent(d, m, p, k);
      hide *;
      assert d'[above] + 1 == d'[k'] && 0 <= above < k';
      BelowLets(d', above, k');
    } else {
      assert k == m || !Within(d, m, k) by {
        BelowByParent(d, m, k);
      }
    }
  }

  lemma BelowLets(d: seq<nat>, a: nat, i: nat)
    requires a < i < |d| && Below(d, a, i)
    ensures d[a] <= d[i - 1]
  {
  }

  /** The result is a forest ... */
  lemma MoveGivesForest(d: seq<nat>, m: nat, p: Option<nat>)
    requires CanMove(d, m, p)
    ensures Valid(MovedDepths(d, m, p)) && |MovedDepths(d, m, p)| == |d|
  {
    var d' := MovedDepths(d, m, p);
    MovedStep(d, m, p, 0);
    forall k' | 0 < k' < |d| ensures d'[k'] <= d'[k' - 1] + 1 {
      MovedStep(d, m, p, k');
    }
  }

  /** ... in which every node has the parent it should have. */
  lemma MovedParent(d: seq<nat>, m: nat, p: Option<nat>, k: nat)
    requires CanMove(d, m, p) && k < |d|
    ensures Valid(MovedDepths(d, m, p)) && |MovedDepths(d, m, p)| == |d|
    ensures Parent(MovedDepths(d, m, p), NewIndex(d, m, p, k)) == NewParent(d, m, p, k)
  {
    MoveGivesForest(d, m, p);
    var d' := MovedDepths(d, m, p);
    if NewParent(d, m, p, k) != -1 {
      NewParentIsAbove(d, m, p, k);
      ParentUnique(d', NewParent(d, m, p, k), NewIndex(d, m, p, k));
    } else {
      var f := seq(|d|, _ => Filter(0, 0, None));
      MovedAt(d, f, m, p, k);
      BelowByParent(d, m, k);
    }
  }

  /** The moved node is the last child of its new parent, or a root. */
  lemma MovedIsLastChild(d: seq<nat>, m: nat, p: Option<nat>, k: nat)
    requires CanMove(d, m, p) && k < |d|
    ensures Valid(MovedDepths(d, m, p)) && |MovedDepths(d, m, p)| == |d|
    ensures p.Some? ==>
              Parent(MovedDepths(d, m, p), NewIndex(d, m, p, m)) == NewIndex(d, m, p, p.value)
    ensures p.Some? && Parent(MovedDepths(d, m, p), NewIndex(d, m, p, k)) == NewIndex(d, m, p, p.value) ==>
              NewIndex(d, m, p, k) <= NewIndex(d, m, p, m)
    ensures p.None? ==> Parent(MovedDepths(d, m, p), NewIndex(d, m, p, m)) == -1
  {
    MovedParent(d, m, p, m);
    MovedParent(d, m, p, k);
    if p.Some? && k != m && NewParent(d, m, p, k) == NewIndex(d, m, p, p.value) {
      var b := NewIndexOnto(d, m, p, NewIndex(d, m, p, p.value));
      assert Parent(d, k) == b == p.value;
      TargetOutside(d, m, p);
      SubtreeIsRange(d, m, k);
      SubtreeIsRange(d, p.value, k);
      BelowByParent(d, m, k);
      PlaceOrder(m, End(d, m), Target(d, p), k, m);
    }
  }

  /** The moved subtree keeps its shape: same extent, same relative depths. */
  lemma MovedKeepsShape(d: seq<nat>, m: nat, p: Option<nat>, k: nat)
    requires CanMove(d, m, p) && m <= k < End(d, m)
    ensures |MovedDepths(d, m, p)| == |d|
    ensures NewIndex(d, m, p, k) == NewIndex(d, m, p, m) + (k - m)
    ensures MovedDepths(d, m, p)[NewIndex(d, m, p, k)] - MovedDepths(d, m, p)[NewIndex(d, m, p, m)] == d[k] - d[m]
  {
    var f := seq(|d|, _ => Filter(0, 0, None));
    MovedAt(d, f, m, p, m);
    MovedAt(d, f, m, p, k);
    SubtreeIsRange(d, m, k);
  }

  lemma Swap<T>(a: seq<T>, b: seq<T>, c: seq<T>, z: seq<T>)
    ensures multiset(a + b + c + z) == multiset(a + c + b + z)
  {
  }

  lemma MoveMultiset<T>(s: seq<T>, m: nat, e: nat, q: nat)
    requires m <= e <= |s| && q <= |s| && (q <= m || e <= q)
    ensures multiset(Move(s, m, e, q, s[m..e])) == multiset(s)
  {
    if q <= m {
      assert s == s[..q] + s[q..m] + s[m..e] + s[e..];
      Swap(s[..q], s[q..m], s[m..e], s[e..]);
    } else {
      assert s == s[..m] + s[m..e] + s[e..q] + s[q..];
      Swap(s[..m], s[m..e], s[e..q], s[q..]);
    }
  }

  /** No filter is lost or doubled. */
  lemma MoveConservesFilters(d: seq<nat>, f: seq<Filter>, m: nat, p: Option<nat>)
    requires CanMove(d, m, p) && |f| == |d|
    ensures multiset(MovedFilters(d, f, m, p)) == multiset(f)
  {
    TargetOutside(d, m, p);
    MoveMultiset(f, m, End(d, m), Target(d, p));
  }

  /** Outside the moved subtree every filter keeps its input. */
  lemma {:induction false} MoveKeepsInputs(lib: Library, t: Forest, m: nat, p: Option<nat>, t': Forest, k: nat)
    requires ValidForest(t) && CanMove(t.d, m, p) && k < |t.d| && !Within(t.d, m, k)
    requires t'.d == MovedDepths(t.d, m, p) && t'.f == MovedFilters(t.d, t.f, m, p)
    ensures ValidForest(t') && |t'.d| == |t.d|
    ensures PureIn(lib, t', NewIndex(t.d, m, p, k)) == PureIn(lib, t, k)
    ensures PureOut(lib, t', NewIndex(t.d, m, p, k)) == PureOut(lib, t, k)
  {
    MovedParent(t.d, m, p, k);
    MovedAt(t.d, t.f, m, p, k);
    var a := Parent(t.d, k);
    if a != -1 {
      BelowByParent(t.d, m, k);
      MoveKeepsInputs(lib, t, m, p, t', a);
    }
  }

  /** Moving a subtree whose caches have been cleared keeps the caches coherent. */
  lemma MoveKeepsCoherence(lib: Library, t: Forest, m: nat, p: Option<nat>, t': Forest)
    requires ValidForest(t) && Coherent(lib, t) && CanMove(t.d, m, p)
    requires forall k: nat | k < |t.d| && Within(t.d, m, k) :: t.f[k].cache.None?
    requires t'.d == MovedDepths(t.d, m, p) && t'.f == MovedFilters(t.d, t.f, m, p)
    ensures ValidForest(t') && Coherent(lib, t')
  {
    MoveGivesForest(t.d, m, p);
    MovedAt(t.d, t.f, m, p, m);
    forall k': nat | k' < |t'.d| && t'.f[k'].cache.Some?
      ensures View(t'.f[k'].cache.value) == lib.gen(t'.f[k'].cfg, PureIn(lib, t', k'))
    {
      var k := NewIndexOnto(t.d, m, p, k');
      MovedAt(t.d, t.f, m, p, k);
      MoveKeepsInputs(lib, t, m, p, t', k);
    }
  }

  /** Putting a dummy in, replacing it by the block and erasing the original is a
      move. */
  lemma InsertThenErase<T>(s: seq<T>, m: nat, e: nat, q: nat, block: seq<T>, dummy: T)
    requires m <= e <= |s| && q <= |s| && (q <= m || e <= q) && |block| == e - m
    ensures var s1 := s[..q] + [dummy] + s[q..];
            var s2 := s1[..q] + block + s1[q + 1..];
            var m' := if q <= m then m + (e - m) else m;
            m' + (e - m) <= |s2| && s2[..m'] + s2[m' + (e - m)..] == Move(s, m, e, q, block)
  {
    var s1 := s[..q] + [dummy] + s[q..];
    var s2 := s1[..q] + block + s1[q + 1..];
    assert s1[..q] == s[..q] && s1[q + 1..] == s[q..];
    if q <= m {
      assert s2[..m + (e - m)] == s[..q] + block + s[q..m];
      assert s2[m + (e - m) + (e - m)..] == s[e..];
    } else {
      assert s2[..m] == s[..m];
      assert s2[m + (e - m)..] == s[e..q] + block + s[q..];
      assert s[..m] + (s[e..q] + block + s[q..]) == s[..m] + s[e..q] + block + s[q..];
    }
  }

  lemma MovedIs(d: seq<nat>, f: seq<Filter>, m: nat, p: Option<nat>)
    requires CanMove(d, m, p) && |f| == |d|
    ensures var e, q := End(d, m), Target(d, p);
            && m < e <= |d| && q <= |d| && (q <= m || e <= q)
            && (forall i | 0 <= i < e - m :: d[m] <= d[m..e][i])
            && MovedDepths(d, m, p) == Move(d, m, e, q, Shift(d[m..e], d[m], NewDepth(d, p)))
            && MovedFilters(d, f, m, p) == Move(f, m, e, q, f[m..e])
  {
    TargetOutside(d, m, p);
  }

  /** The whole edit: shape and filters, then coherence. */
  lemma ReparentKeepsCoherence(lib: Library, t: Forest, m: nat, p: Option<nat>, t': Forest)
    requires ValidForest(t) && DistinctIds(t) && Coherent(lib, t) && CanMove(t.d, m, p)
    requires t' == Forest(MovedDepths(t.d, m, p), MovedFilters(t.d, ClearedForMove(t.d, t.f, m), m, p))
    ensures ValidForest(t') && DistinctIds(t') && Coherent(lib, t')
  {
    var c := Forest(t.d, ClearedForMove(t.d, t.f, m));
    ClearingKeepsCoherence(lib, t, c);
    MoveKeepsCoherence(lib, c, m, p, t');
    MoveKeepsIds(c, m, p, t');
  }

  /** Before a move the moved filter loses its cache, and so does every later filter that
      is not on its level; the others keep theirs. */
  lemma ClearedExact(d: seq<nat>, f: seq<Filter>, m: nat, k: nat)
    requires |d| == |f| && m < |f| && k < |f|
    ensures ClearedForMove(d, f, m)[k] ==
            if k == m || (m < k && d[k] != d[m]) then Filter(f[k].id, f[k].cfg, None) else f[k]
  {
  }

  lemma CanMoveIs(d: seq<nat>, m: nat, p: Option<nat>)
    ensures CanMove(d, m, p) <==> Valid(d) && m < |d| && (p.Some? ==> p.value < |d| && !Within(d, m, p.value))
  {
  }

  lemma ParentIndexIs(f: seq<Filter>, newParent: Option<nat>)
    ensures ParentIndex(f, newParent) == if newParent.Some? then Some(IndexOf(f, newParent.value)) else None
  {
  }

  lemma MovedTreeIsSound(t: Forest, m: nat, p: Option<nat>)
    requires ValidForest(t) && DistinctIds(t) && CanMove(t.d, m, p)
    ensures var t' := Forest(MovedDepths(t.d, m, p), MovedFilters(t.d, ClearedForMove(t.d, t.f, m), m, p));
            ValidForest(t') && DistinctIds(t')
  {
    var c := Forest(t.d, ClearedForMove(t.d, t.f, m));
    var t' := Forest(MovedDepths(t.d, m, p), MovedFilters(t.d, ClearedForMove(t.d, t.f, m), m, p));
    MoveKeepsIds(c, m, p, t');
  }

  /** Filter by filter: where it is, how deep, under which parent, and whether it has
      lost its cache. */
  ghost predicate IsMovedTo(t: Forest, m: nat, p: Option<nat>, t': Forest) {
    && ValidForest(t) && CanMove(t.d, m, p) && ValidForest(t') && |t'.d| == |t.d|
    && forall k: nat | k < |t.d| ::
         var k' := NewIndex(t.d, m, p, k);
         && t'.f[k'] == (if k == m || (m < k && t.d[k] != t.d[m]) then Filter(t.f[k].id, t.f[k].cfg, None) else t.f[k])
         && Parent(t'.d, k') == (if k == m then (if p.Some? then NewIndex(t.d, m, p, p.value) else -1)
                                 else if Parent(t.d, k) == -1 then -1 else NewIndex(t.d, m, p, Parent(t.d, k)))
  }

  lemma MovedTo(t: Forest, m: nat, p: Option<nat>)
    requires ValidForest(t) && CanMove(t.d, m, p)
    ensures IsMovedTo(t, m, p, Forest(MovedDepths(t.d, m, p), MovedFilters(t.d, ClearedForMove(t.d, t.f, m), m, p)))
  {
    var c := ClearedForMove(t.d, t.f, m);
    var t' := Forest(MovedDepths(t.d, m, p), MovedFilters(t.d, c, m, p));
    MoveGivesForest(t.d, m, p);
    MovedAt(t.d, c, m, p, m);
    forall k: nat | k < |t.d|
      ensures t'.f[NewIndex(t.d, m, p, k)] ==
              (if k == m || (m < k && t.d[k] != t.d[m]) then Filter(t.f[k].id, t.f[k].cfg, None) else t.f[k])
      ensures Parent(t'.d, NewIndex(t.d, m, p, k)) ==
              (if k == m then (if p.Some? then NewIndex(t.d, m, p, p.value) else -1)
               else if Parent(t.d, k) == -1 then -1 else NewIndex(t.d, m, p, Parent(t.d, k)))
    {
      ClearedExact(t.d, t.f, m, k);
      MovedAt(t.d, c, m, p, k);
      MovedParent(t.d, m, p, k);
    }
  }

  lemma MoveKeepsIds(t: Forest, m: nat, p: Option<nat>, t': Forest)
    requires ValidForest(t) && DistinctIds(t) && CanMove(t.d, m, p)
    requires t'.d == MovedDepths(t.d, m, p) && t'.f == MovedFilters(t.d, t.f, m, p)
    ensures ValidForest(t') && DistinctIds(t')
  {
    MoveGivesForest(t.d, m, p);
    MovedAt(t.d, t.f, m, p, m);
    forall i, j | 0 <= i < j < |t'.f| ensures t'.f[i].id != t'.f[j].id {
      var a := NewIndexOnto(t.d, m, p, i);
      var b := NewIndexOnto(t.d, m, p, j);
      MovedAt(t.d, t.f, m, p, a);
      MovedAt(t.d, t.f, m, p, b);
    }
  }
}
