/** Splitting a triangulated surface into patches that are joined smoothly. */
module MeshGroups {

  datatype Triangle = Triangle(p: seq<nat>, physGroup: nat)

  /** Three different vertices, all of them nodes of the mesh. */
  ghost predicate SaneTriangles(tris: seq<Triangle>, numNodes: nat) {
    forall i | 0 <= i < |tris| ::
      && |tris[i].p| == 3
      && tris[i].p[0] != tris[i].p[1] && tris[i].p[1] != tris[i].p[2] && tris[i].p[0] != tris[i].p[2]
      && forall j | 0 <= j < 3 :: tris[i].p[j] < numNodes
  }

  /** `b` has both ends of the edge of `a` that starts at corner `j`. */
  predicate HasEdge(tris: seq<Triangle>, a: nat, j: nat, b: nat)
    requires a < |tris| && b < |tris| && |tris[a].p| == 3 && j < 3
  {
    tris[a].p[j] in tris[b].p && tris[a].p[(j + 1) % 3] in tris[b].p
  }

  predicate Adjacent(tris: seq<Triangle>, a: nat, b: nat)
    requires a < |tris| && b < |tris| && |tris[a].p| == 3
  {
    a != b && (HasEdge(tris, a, 0, b) || HasEdge(tris, a, 1, b) || HasEdge(tris, a, 2, b))
  }

  lemma AdjacentSymmetric(tris: seq<Triangle>, n: nat, a: nat, b: nat)
    requires SaneTriangles(tris, n) && a < |tris| && b < |tris|
    ensures Adjacent(tris, a, b) <==> Adjacent(tris, b, a)
  {
    CommonEdge(tris, n, a, b);
    CommonEdge(tris, n, b, a);
  }

  /** Two triangles are adjacent when they have two different corners in common. */
  lemma CommonEdge(tris: seq<Triangle>, n: nat, a: nat, b: nat)
    requires SaneTriangles(tris, n) && a < |tris| && b < |tris|
    ensures Adjacent(tris, a, b) <==>
            a != b && exists v, w :: v != w && v in tris[a].p && w in tris[a].p && v in tris[b].p && w in tris[b].p
  {
    var t := tris[a].p;
    if HasEdge(tris, a, 0, b) {
      assert t[0] != t[1] && t[0] in t && t[1] in t;
    } else if HasEdge(tris, a, 1, b) {
      assert t[1] != t[2] && t[1] in t && t[2] in t;
    } else if HasEdge(tris, a, 2, b) {
      assert t[2] != t[0] && t[2] in t && t[0] in t;
    }
  }

  /** For every triangle, the other triangles that share an edge with it. */
  method GetTriEdgeAdjacencyMap(tris: seq<Triangle>, numNodes: nat) returns (adj: seq<seq<nat>>)
    requires SaneTriangles(tris, numNodes)
    ensures |adj| == |tris|
    ensures forall a: nat, b: nat | a < |tris| :: b in adj[a] <==> b < |tris| && Adjacent(tris, a, b)
  {
    var triLookup := BuildLookup(tris, numNodes);
    adj := [];
    for ui := 0 to |tris|
      invariant |adj| == ui
      invariant forall a: nat, b: nat | a < ui :: b in adj[a] <==> b < |tris| && Adjacent(tris, a, b)
    {
      var row: seq<nat> := [];
      for uj := 0 to 3
        invariant forall b: nat :: b in row <==> b < |tris| && b != ui && exists j: nat :: j < uj && HasEdge(tris, ui, j, b)
      {
        var v1, v2 := tris[ui].p[uj], tris[ui].p[(uj + 1) % 3];
        var both := Intersection(triLookup[v1], triLookup[v2], ui);
        assert forall b: nat :: b in both <==> b < |tris| && b != ui && HasEdge(tris, ui, uj, b);
        row := row + both;
      }
      adj := adj + [row];
    }
  }

  /** Which triangles meet at each node. */
  method BuildLookup(tris: seq<Triangle>, numNodes: nat) returns (lookup: seq<seq<nat>>)
    requires SaneTriangles(tris, numNodes)
    ensures |lookup| == numNodes
    ensures forall v: nat, b: nat {:trigger b in lookup[v]} | v < numNodes :: b in lookup[v] <==> b < |tris| && v in tris[b].p
  {
    lookup := seq(numNodes, _ => []);
    for ui := 0 to |tris|
      invariant |lookup| == numNodes
      invariant forall v: nat, b: nat {:trigger b in lookup[v]} | v < numNodes :: b in lookup[v] <==> b < ui && v in tris[b].p
    {
      for uj := 0 to 3
        invariant |lookup| == numNodes
        invariant forall v: nat, b: nat {:trigger b in lookup[v]} | v < numNodes ::
                    b in lookup[v] <==> (b < ui && v in tris[b].p) || (b == ui && v in tris[ui].p[..uj])
      {
        var v := tris[ui].p[uj];
        lookup := lookup[v := lookup[v] + [ui]];
        assert tris[ui].p[..uj + 1] == tris[ui].p[..uj] + [v];
      }
      assert tris[ui].p[..3] == tris[ui].p;
    }
  }

  method Intersection(a: seq<nat>, b: seq<nat>, except: nat) returns (r: seq<nat>)
    ensures forall x :: x in r <==> x in a && x in b && x != except
  {
    r := [];
    for it := 0 to |a|
      invariant forall x :: x in r <==> x in a[..it] && x in b && x != except
    {
      if a[it] in b && a[it] != except {
        r := r + [a[it]];
      }
      assert a[..it + 1] == a[..it] + [a[it]];
    }
    assert a[..|a|] == a;
  }

  // ---- Chains ----

  /** `smooth(a, b)`: the surface does not bend too sharply between the two. */
  datatype Surface = Surface(tris: seq<Triangle>, selected: set<nat>, smooth: (nat, nat) -> bool)

  ghost predicate ValidSurface(s: Surface, numNodes: nat) {
    && SaneTriangles(s.tris, numNodes)
    && (forall t | t in s.selected :: t < |s.tris|)
    && (forall a, b :: s.smooth(a, b) == s.smooth(b, a))
  }

  ghost predicate Link(s: Surface, n: nat, a: nat, b: nat)
    requires ValidSurface(s, n)
  {
    a in s.selected && b in s.selected && Adjacent(s.tris, a, b) && s.smooth(a, b)
  }

  lemma LinkSymmetric(s: Surface, n: nat, a: nat, b: nat)
    requires ValidSurface(s, n) && Link(s, n, a, b)
    ensures Link(s, n, b, a)
  {
    AdjacentSymmetric(s.tris, n, a, b);
  }

  ghost predicate Chain(s: Surface, n: nat, path: seq<nat>, a: nat, b: nat)
    requires ValidSurface(s, n)
  {
    && |path| > 0 && path[0] == a && path[|path| - 1] == b
    && forall i | 0 <= i < |path| - 1 :: Link(s, n, path[i], path[i + 1])
  }

  /** Linked by a chain of smooth steps over shared edges. */
  ghost predicate Connected(s: Surface, n: nat, a: nat, b: nat)
    requires ValidSurface(s, n)
  {
    exists path :: Chain(s, n, path, a, b)
  }

  lemma ConnectedSelf(s: Surface, n: nat, a: nat)
    requires ValidSurface(s, n)
    ensures Connected(s, n, a, a)
  {
    assert Chain(s, n, [a], a, a);
  }

  lemma ConnectedStep(s: Surface, n: nat, a: nat, b: nat, c: nat)
    requires ValidSurface(s, n) && Connected(s, n, a, b) && Link(s, n, b, c)
    ensures Connected(s, n, a, c)
  {
    var p :| Chain(s, n, p, a, b);
    assert Chain(s, n, p + [c], a, c);
  }

  lemma ConnectedSymmetric(s: Surface, n: nat, a: nat, b: nat)
    requires ValidSurface(s, n) && Connected(s, n, a, b)
    ensures Connected(s, n, b, a)
  {
    var p :| Chain(s, n, p, a, b);
    var q := seq(|p|, i requires 0 <= i < |p| => p[|p| - 1 - i]);
    forall i | 0 <= i < |q| - 1 ensures Link(s, n, q[i], q[i + 1]) {
      LinkSymmetric(s, n, p[|p| - 2 - i], p[|p| - 1 - i]);
    }
    assert Chain(s, n, q, b, a);
  }

  lemma ConnectedTransitive(s: Surface, n: nat, a: nat, b: nat, c: nat)
    requires ValidSurface(s, n) && Connected(s, n, a, b) && Connected(s, n, b, c)
    ensures Connected(s, n, a, c)
  {
    var p :| Chain(s, n, p, a, b);
    var q :| Chain(s, n, q, b, c);
    var r := p + q[1..];
    forall i | 0 <= i < |r| - 1 ensures Link(s, n, r[i], r[i + 1]) {
      if i >= |p| - 1 {
        assert r[i] == q[i - |p| + 1] && r[i + 1] == q[i - |p| + 2];
      }
    }
    assert Chain(s, n, r, a, c);
  }

  /** What is closed under links holds whole chains. */
  ghost predicate Closed(s: Surface, n: nat, done: set<nat>)
    requires ValidSurface(s, n)
  {
    forall a: nat, b: nat | a in done && Link(s, n, a, b) :: b in done
  }

  lemma ClosedHoldsChains(s: Surface, n: nat, done: set<nat>, a: nat, b: nat)
    requires ValidSurface(s, n) && Closed(s, n, done) && a in done && Connected(s, n, a, b)
    ensures b in done
  {
    var p :| Chain(s, n, p, a, b);
    var i := 0;
    while i < |p| - 1
      invariant 0 <= i < |p| && p[i] in done
    {
      i := i + 1;
    }
  }

  // ---- Growing one patch ----

  /** Each selected triangle lists its selected neighbours, the others list none. */
  ghost predicate ListsNeighbours(s: Surface, n: nat, adj: seq<seq<nat>>)
    requires ValidSurface(s, n)
  {
    && |adj| == |s.tris|
    && (forall a: nat, b: nat {:trigger b in adj[a]} | a < |adj| && a in s.selected ::
          b in adj[a] <==> b in s.selected && Adjacent(s.tris, a, b))
    && (forall a: nat | a < |adj| && a !in s.selected :: adj[a] == [])
  }

  function Untouched(touched: seq<bool>): nat {
    if touched == [] then 0 else (if touched[0] then 0 else 1) + Untouched(touched[1..])
  }

  lemma {:induction false} TouchCounts(touched: seq<bool>, i: nat)
    requires i < |touched| && !touched[i]
    ensures Untouched(touched[i := true]) + 1 == Untouched(touched)
  {
    if i > 0 {
      TouchCounts(touched[1..], i - 1);
      assert touched[i := true][1..] == touched[1..][i - 1 := true];
    }
  }

  /** The patch so far: everything in `mine` is joined to the seed and was free
      before; whatever is linked to a member that is no longer on the boundary is
      a member too. */
  ghost predicate Growing(s: Surface, n: nat, free: set<nat>, seed: nat, mine: set<nat>, boundary: set<nat>)
    requires ValidSurface(s, n)
  {
    && seed in mine && mine <= free && boundary <= mine
    && (forall x | x in mine :: Connected(s, n, seed, x))
    && (forall x: nat, y: nat | x in mine && x !in boundary && Link(s, n, x, y) :: y in mine)
  }

  lemma GrownIsComponent(s: Surface, n: nat, free: set<nat>, seed: nat, mine: set<nat>, x: nat)
    requires ValidSurface(s, n) && Growing(s, n, free, seed, mine, {})
    ensures x in mine <==> Connected(s, n, seed, x)
  {
    if Connected(s, n, seed, x) {
      ClosedHoldsChains(s, n, mine, seed, x);
    }
  }

  ghost predicate Painted(before: seq<Triangle>, mine: set<nat>, g: nat, after: seq<Triangle>) {
    && |after| == |before|
    && forall x: nat | x < |before| :: after[x] == if x in mine then before[x].(physGroup := g) else before[x]
  }

  /** What is not touched yet is selected, and links do not lead out of it. */
  ghost predicate FreeIsClosed(s: Surface, n: nat, free: set<nat>)
    requires ValidSurface(s, n)
  {
    free <= s.selected && forall x: nat, y: nat | x in free && Link(s, n, x, y) :: y in free
  }

  ghost predicate TouchedBut(touched: seq<bool>, free: set<nat>, mine: set<nat>) {
    forall x: nat | x < |touched| :: touched[x] <==> x !in free || x in mine
  }

  /** Spread from the boundary triangle `b` to its free, smooth neighbours. */
  method SpreadFrom(s: Surface, n: nat, adj: seq<seq<nat>>, ghost free: set<nat>, ghost seed: nat, b: nat, g: nat,
                    touched: seq<bool>, tris: seq<Triangle>, ghost mine: set<nat>, ghost boundary: set<nat>)
    returns (touched': seq<bool>, tris': seq<Triangle>, ghost mine': set<nat>, more: seq<nat>)
    requires ValidSurface(s, n) && ListsNeighbours(s, n, adj) && b < |adj| && b in s.selected
    requires |touched| == |tris| == |s.tris|
    requires Growing(s, n, free, seed, mine, boundary) && b in mine
    requires TouchedBut(touched, free, mine) && FreeIsClosed(s, n, free)
    ensures |touched'| == |touched| && mine <= mine' <= free
    ensures TouchedBut(touched', free, mine')
    ensures Painted(tris, mine' - mine, g, tris')
    ensures forall x: nat :: x in more <==> x in mine' && x !in mine
    ensures forall x | x in mine' :: Connected(s, n, seed, x)
    ensures forall y: nat | Link(s, n, b, y) :: y in mine'
    ensures Untouched(touched') + |more| == Untouched(touched)
  {
    touched', tris', mine', more := touched, tris, mine, [];
    for it := 0 to |adj[b]|
      invariant |touched'| == |touched| == |tris'| && mine <= mine' <= free
      invariant TouchedBut(touched', free, mine')
      invariant Painted(tris, mine' - mine, g, tris')
      invariant forall x: nat :: x in more <==> x in mine' && x !in mine
      invariant forall x | x in mine' :: Connected(s, n, seed, x)
      invariant forall k | 0 <= k < it :: s.smooth(b, adj[b][k]) ==> adj[b][k] in mine'
      invariant Untouched(touched') + |more| == Untouched(touched)
    {
      var t := adj[b][it];
      assert t in adj[b];
      if !touched'[t] && s.smooth(b, t) {
        assert Link(s, n, b, t);
        ConnectedStep(s, n, seed, b, t);
        TouchCounts(touched', t);
        more := more + [t];
        touched' := touched'[t := true];
        tris' := tris'[t := tris'[t].(physGroup := g)];
        mine' := mine' + {t};
      } else if s.smooth(b, t) {
        assert Link(s, n, b, t);
      }
    }
    forall y: nat | Link(s, n, b, y) ensures y in mine' {
      assert y in adj[b];
    }
  }

  lemma BoundaryStep(s: Surface, n: nat, free: set<nat>, seed: nat, mine: set<nat>, boundary: set<nat>, b: nat, mine': set<nat>)
    requires ValidSurface(s, n) && Growing(s, n, free, seed, mine, boundary)
    requires mine <= mine' <= free && forall x | x in mine' :: Connected(s, n, seed, x)
    requires forall y: nat | Link(s, n, b, y) :: y in mine'
    ensures Growing(s, n, free, seed, mine', boundary - {b} + (mine' - mine))
  {
  }

  lemma PaintedMore(t0: seq<Triangle>, a: set<nat>, t1: seq<Triangle>, b: set<nat>, t2: seq<Triangle>, g: nat)
    requires Painted(t0, a, g, t1) && Painted(t1, b, g, t2)
    ensures Painted(t0, a + b, g, t2)
  {
  }

  /** Widen the boundary round by round until nothing more joins the patch. */
  method FloodFrom(s: Surface, n: nat, adj: seq<seq<nat>>, ghost free: set<nat>, curTri: nat, g: nat,
                   touched: seq<bool>, tris: seq<Triangle>)
    returns (touched': seq<bool>, tris': seq<Triangle>, ghost mine: set<nat>)
    requires ValidSurface(s, n) && ListsNeighbours(s, n, adj) && FreeIsClosed(s, n, free)
    requires |touched| == |tris| == |s.tris| && curTri in free
    requires TouchedBut(touched, free, {})
    ensures |touched'| == |touched| && mine <= free && curTri in mine
    ensures forall x :: x in mine <==> Connected(s, n, curTri, x)
    ensures TouchedBut(touched', free, mine) && Painted(tris, mine, g, tris')
    ensures Untouched(touched') < Untouched(touched)
  {
    touched' := touched[curTri := true];
    tris' := tris[curTri := tris[curTri].(physGroup := g)];
    mine := {curTri};
    var boundary := [curTri];
    ghost var open := {curTri};
    TouchCounts(touched, curTri);
    ConnectedSelf(s, n, curTri);
    while boundary != []
      invariant |touched'| == |touched| && TouchedBut(touched', free, mine) && Painted(tris, mine, g, tris')
      invariant Growing(s, n, free, curTri, mine, open)
      invariant forall x | x in boundary :: x in mine
      invariant forall x | x in open :: x in boundary
      invariant Untouched(touched') < Untouched(touched)
      decreases Untouched(touched'), |boundary|
    {
      touched', tris', mine, boundary, open := WidenBoundary(s, n, adj, free, curTri, g, touched', tris, tris', mine, boundary, open);
    }
    assert open == {};
    forall x ensures x in mine <==> Connected(s, n, curTri, x) {
      GrownIsComponent(s, n, free, curTri, mine, x);
    }
  }

  method WidenBoundary(s: Surface, n: nat, adj: seq<seq<nat>>, ghost free: set<nat>, ghost seed: nat, g: nat,
                       touched: seq<bool>, ghost tris0: seq<Triangle>, tris: seq<Triangle>,
                       ghost mine: set<nat>, boundary: seq<nat>, ghost open: set<nat>)
    returns (touched': seq<bool>, tris': seq<Triangle>, ghost mine': set<nat>, moreBoundary: seq<nat>, ghost open': set<nat>)
    requires ValidSurface(s, n) && ListsNeighbours(s, n, adj) && FreeIsClosed(s, n, free)
    requires |touched| == |tris| == |s.tris| && TouchedBut(touched, free, mine) && Painted(tris0, mine, g, tris)
    requires Growing(s, n, free, seed, mine, open)
    requires (forall x | x in boundary :: x in mine) && (forall x | x in open :: x in boundary)
    ensures |touched'| == |touched| && TouchedBut(touched', free, mine') && Painted(tris0, mine', g, tris')
    ensures Growing(s, n, free, seed, mine', open')
    ensures (forall x | x in moreBoundary :: x in mine') && (forall x | x in open' :: x in moreBoundary)
    ensures Untouched(touched') + |moreBoundary| == Untouched(touched)
  {
    touched', tris', mine', moreBoundary, open' := touched, tris, mine, [], open;
    for bIt := 0 to |boundary|
      invariant |touched'| == |touched| == |tris'| && TouchedBut(touched', free, mine') && Painted(tris0, mine', g, tris')
      invariant Growing(s, n, free, seed, mine', open') && mine <= mine'
      invariant forall x | x in moreBoundary :: x in mine'
      invariant forall x | x in open' :: x in moreBoundary || x in boundary[bIt..]
      invariant Untouched(touched') + |moreBoundary| == Untouched(touched)
    {
      var b := boundary[bIt];
      assert b in boundary && b in mine && b in s.selected;
      ghost var mine0, tris1 := mine', tris';
      var more;
      touched', tris', mine', more := SpreadFrom(s, n, adj, free, seed, b, g, touched', tris', mine', open');
      BoundaryStep(s, n, free, seed, mine0, open', b, mine');
      PaintedMore(tris0, mine0, tris1, mine' - mine0, tris', g);
      assert mine0 + (mine' - mine0) == mine';
      assert boundary[bIt..] == [b] + boundary[bIt + 1..];
      open' := open' - {b} + (mine' - mine0);
      moreBoundary := moreBoundary + more;
    }
  }

  // ---- The whole surface ----

  ghost predicate Used(tris: seq<Triangle>, done: set<nat>, k: nat) {
    exists x: nat :: x in done && x < |tris| && tris[x].physGroup == k
  }

  /** The patches found so far: two done triangles have the same number exactly if
      they are connected; the numbers run from `start` to just below `next`. */
  ghost predicate Patched(s: Surface, n: nat, done: set<nat>, tris: seq<Triangle>, start: nat, next: nat)
    requires ValidSurface(s, n)
  {
    && |tris| == |s.tris| && done <= s.selected && Closed(s, n, done)
    && (forall x: nat | x < |tris| && x !in done :: tris[x] == s.tris[x])
    && (forall x: nat | x in done :: tris[x] == s.tris[x].(physGroup := tris[x].physGroup))
    && (forall x: nat | x in done :: start <= tris[x].physGroup < next)
    && (forall k: nat | start <= k < next :: Used(tris, done, k))
    && (forall x: nat, y: nat | x in done && y in done :: tris[x].physGroup == tris[y].physGroup <==> Connected(s, n, x, y))
  }

  lemma PatchAdded(s: Surface, n: nat, done: set<nat>, tris: seq<Triangle>, start: nat, next: nat,
                   seed: nat, mine: set<nat>, tris': seq<Triangle>)
    requires ValidSurface(s, n) && Patched(s, n, done, tris, start, next) && start <= next
    requires mine <= s.selected - done && seed in mine
    requires forall x :: x in mine <==> Connected(s, n, seed, x)
    requires Painted(tris, mine, next, tris')
    ensures Patched(s, n, done + mine, tris', start, next + 1)
  {
    var all := done + mine;
    forall a: nat, b: nat | a in all && Link(s, n, a, b) ensures b in all {
      if a in mine { ConnectedStep(s, n, seed, a, b); }
    }
    forall k: nat | start <= k < next + 1 ensures Used(tris', all, k) {
      if k == next {
        assert seed in all;
      } else {
        assert Used(tris, done, k);
        var x: nat :| x in done && x < |tris| && tris[x].physGroup == k;
        assert x in all && tris'[x].physGroup == k;
      }
    }
    forall x: nat, y: nat | x in all && y in all
      ensures tris'[x].physGroup == tris'[y].physGroup <==> Connected(s, n, x, y)
    {
      MembersConnected(s, n, done, seed, mine, x, y);
    }
  }

  lemma MembersConnected(s: Surface, n: nat, done: set<nat>, seed: nat, mine: set<nat>, x: nat, y: nat)
    requires ValidSurface(s, n) && Closed(s, n, done) && done !! mine
    requires forall x :: x in mine <==> Connected(s, n, seed, x)
    requires x in done + mine && y in done + mine
    ensures x in mine && y in mine ==> Connected(s, n, x, y)
    ensures (x in mine) != (y in mine) ==> !Connected(s, n, x, y)
  {
    if x in mine && y in mine {
      ConnectedSymmetric(s, n, seed, x);
      ConnectedTransitive(s, n, x, seed, y);
    } else if x in done && y in mine && Connected(s, n, x, y) {
      ClosedHoldsChains(s, n, done, x, y);
    } else if x in mine && y in done && Connected(s, n, x, y) {
      ConnectedSymmetric(s, n, x, y);
      ClosedHoldsChains(s, n, done, y, x);
    }
  }

  /** Triangle `z` has number `g` and comes before all selected triangles that have
      a greater number or none yet. */
  ghost predicate Leads(s: Surface, done: set<nat>, tris: seq<Triangle>, g: nat, z: nat)
    requires |tris| == |s.tris|
  {
    && z < |tris| && z in done && tris[z].physGroup == g
    && forall y: nat | y in s.selected && y < |tris| && (y !in done || g < tris[y].physGroup) :: z < y
  }

  ghost predicate HasLead(s: Surface, done: set<nat>, tris: seq<Triangle>, g: nat)
    requires |tris| == |s.tris|
  {
    exists z: nat :: Leads(s, done, tris, g, z)
  }

  /** The patches are numbered in the order of their least triangles. */
  ghost predicate InSeedOrder(s: Surface, done: set<nat>, tris: seq<Triangle>, start: nat, next: nat)
    requires |tris| == |s.tris|
  {
    forall g: nat | start <= g < next :: HasLead(s, done, tris, g)
  }

  lemma SeedAdded(s: Surface, done: set<nat>, tris: seq<Triangle>, start: nat, next: nat,
                  seed: nat, mine: set<nat>, tris': seq<Triangle>)
    requires |tris| == |s.tris| && InSeedOrder(s, done, tris, start, next) && start <= next
    requires mine <= s.selected - done && seed in mine && seed < |tris| && Painted(tris, mine, next, tris')
    requires forall x: nat | x in done && x < |tris| :: tris[x].physGroup < next
    requires forall y: nat | y in s.selected && y !in done && y < |tris| :: seed <= y
    ensures InSeedOrder(s, done + mine, tris', start, next + 1)
  {
    assert Leads(s, done + mine, tris', next, seed);
    assert HasLead(s, done + mine, tris', next);
    forall g: nat | start <= g < next ensures HasLead(s, done + mine, tris', g) {
      assert HasLead(s, done, tris, g);
      var z: nat :| Leads(s, done, tris, g, z);
      assert Leads(s, done + mine, tris', g, z);
    }
  }

  method FindUntouched(touched: seq<bool>) returns (i: nat)
    ensures i <= |touched| && (forall k | 0 <= k < i :: touched[k])
    ensures i < |touched| ==> !touched[i]
  {
    i := 0;
    while i < |touched| && touched[i]
      invariant i <= |touched| && forall k | 0 <= k < i :: touched[k]
    {
      i := i + 1;
    }
  }

  /** Seed after seed, until every triangle has been touched. The result is one
      more than the number of patches. */
  method DividePatches(s: Surface, n: nat, adj: seq<seq<nat>>, touched: seq<bool>, start: nat)
    returns (tris: seq<Triangle>, result: nat, ghost done: set<nat>)
    requires ValidSurface(s, n) && ListsNeighbours(s, n, adj)
    requires |touched| == |s.tris| && TouchedBut(touched, s.selected, {})
    ensures result >= 1 && done == s.selected && Patched(s, n, done, tris, start, start + result - 1)
    ensures InSeedOrder(s, done, tris, start, start + result - 1)
  {
    tris, done := s.tris, {};
    var isTouched, newPhysGroupStart := touched, start;
    while true
      invariant start <= newPhysGroupStart && |isTouched| == |s.tris|
      invariant Patched(s, n, done, tris, start, newPhysGroupStart)
      invariant InSeedOrder(s, done, tris, start, newPhysGroupStart)
      invariant TouchedBut(isTouched, s.selected, done)
      decreases Untouched(isTouched)
    {
      var curTri := FindUntouched(isTouched);
      if curTri == |isTouched| {
        break;
      }
      ghost var free := s.selected - done;
      FreeAfterClosed(s, n, done);
      ghost var mine;
      ghost var before := tris;
      isTouched, tris, mine := FloodFrom(s, n, adj, free, curTri, newPhysGroupStart, isTouched, tris);
      PatchAdded(s, n, done, before, start, newPhysGroupStart, curTri, mine, tris);
      SeedAdded(s, done, before, start, newPhysGroupStart, curTri, mine, tris);
      done := done + mine;
      newPhysGroupStart := newPhysGroupStart + 1;
    }
    assert done == s.selected;
    result := newPhysGroupStart - start + 1;
  }

  lemma FreeAfterClosed(s: Surface, n: nat, done: set<nat>)
    requires ValidSurface(s, n) && Closed(s, n, done)
    ensures FreeIsClosed(s, n, s.selected - done)
  {
    forall x: nat, y: nat | x in s.selected - done && Link(s, n, x, y) ensures y in s.selected - done {
      LinkSymmetric(s, n, x, y);
    }
  }
}
