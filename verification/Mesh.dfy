/** A mesh of points, lines, triangles and tetrahedra over shared nodes. */
module Mesh {
  import opened MeshGroups
  import opened MeshOrphans

  ghost predicate InRange(p: seq<nat>, arity: nat, n: nat) {
    |p| == arity && forall i | 0 <= i < |p| :: p[i] < n
  }

  ghost predicate AllInRange(els: seq<seq<nat>>, arity: nat, n: nat) {
    forall i | 0 <= i < |els| :: InRange(els[i], arity, n)
  }

  ghost predicate AnyHas(els: seq<seq<nat>>, v: nat) {
    exists i :: 0 <= i < |els| && v in els[i]
  }

  function Vertices(tris: seq<Triangle>): (r: seq<seq<nat>>)
    ensures |r| == |tris| && forall i | 0 <= i < |tris| :: r[i] == tris[i].p
  {
    seq(|tris|, i requires 0 <= i < |tris| => tris[i].p)
  }

  /** The coordinates an element stands for. */
  function Corners(nodes: seq<Point3D>, p: seq<nat>): seq<Point3D>
    requires forall i | 0 <= i < |p| :: p[i] < |nodes|
  {
    seq(|p|, i requires 0 <= i < |p| => nodes[p[i]])
  }

  ghost predicate RenumberedAll(orphans: seq<nat>, before: seq<seq<nat>>, after: seq<seq<nat>>) {
    |after| == |before| && forall i | 0 <= i < |before| :: after[i] == Renumbered(orphans, before[i])
  }

  ghost predicate SameGeometry(nodes: seq<Point3D>, els: seq<seq<nat>>, nodes': seq<Point3D>, els': seq<seq<nat>>) {
    && |els'| == |els|
    && forall i | 0 <= i < |els| ::
         && InRange(els[i], |els[i]|, |nodes|) && InRange(els'[i], |els[i]|, |nodes'|)
         && Corners(nodes', els'[i]) == Corners(nodes, els[i])
  }

  /** Renumbering elements that refer to no orphan leaves them where they were. */
  lemma RenumberingKeepsGeometry(nodes: seq<Point3D>, orphans: seq<nat>, els: seq<seq<nat>>, arity: nat, els': seq<seq<nat>>)
    requires Ascending(orphans) && AllInRange(els, arity, |nodes|) && RenumberedAll(orphans, els, els')
    requires forall v | v in orphans :: !AnyHas(els, v)
    ensures AllInRange(els', arity, |Survivors(nodes, orphans, |nodes|)|)
    ensures SameGeometry(nodes, els, Survivors(nodes, orphans, |nodes|), els')
  {
    forall i | 0 <= i < |els|
      ensures InRange(els'[i], arity, |Survivors(nodes, orphans, |nodes|)|)
      ensures Corners(Survivors(nodes, orphans, |nodes|), els'[i]) == Corners(nodes, els[i])
    {
      assert InRange(els[i], arity, |nodes|);
      forall j | 0 <= j < arity
        ensures els'[i][j] < |Survivors(nodes, orphans, |nodes|)|
        ensures Survivors(nodes, orphans, |nodes|)[els'[i][j]] == nodes[els[i][j]]
      {
        assert els[i][j] in els[i];
        RenumberingKeepsNode(nodes, orphans, els[i][j]);
      }
    }
  }

  lemma ReferencedStay(nodes: seq<Point3D>, orphans: seq<nat>, els: seq<seq<nat>>, els': seq<seq<nat>>, v: nat)
    requires RenumberedAll(orphans, els, els') && AnyHas(els, v)
    ensures AnyHas(els', NewNumber(orphans, v))
  {
    var i :| 0 <= i < |els| && v in els[i];
    var j :| 0 <= j < |els[i]| && els[i][j] == v;
    assert els'[i][j] == NewNumber(orphans, v);
  }

  lemma TrianglesStaySane(nodes: seq<Point3D>, orphans: seq<nat>, tris: seq<Triangle>, tris': seq<Triangle>)
    requires Ascending(orphans) && SaneTriangles(tris, |nodes|) && |tris'| == |tris|
    requires forall i | 0 <= i < |tris| :: tris'[i] == tris[i].(p := Renumbered(orphans, tris[i].p))
    requires forall v | v in orphans :: !AnyHas(Vertices(tris), v)
    ensures SaneTriangles(tris', |Survivors(nodes, orphans, |nodes|)|)
  {
    forall i, j, k | 0 <= i < |tris| && 0 <= j < 3 && 0 <= k < 3
      ensures tris'[i].p[j] < |Survivors(nodes, orphans, |nodes|)|
      ensures tris[i].p[j] != tris[i].p[k] ==> tris'[i].p[j] != tris'[i].p[k]
    {
      var v, w := tris[i].p[j], tris[i].p[k];
      assert v in Vertices(tris)[i] && w in Vertices(tris)[i];
      RenumberingKeepsNode(nodes, orphans, v);
      if v < w { RenumberingInjective(orphans, v, w); }
      if w < v { RenumberingInjective(orphans, w, v); }
    }
  }

  lemma {:induction false} OffsetGap(orphans: seq<nat>, v: nat, w: nat)
    requires Ascending(orphans) && v <= w
    ensures Offset(orphans, w) <= Offset(orphans, v) + (w - v)
    decreases w
  {
    if v < w {
      OffsetGap(orphans, v, w - 1);
      OffsetStep(orphans, w);
    }
  }

  /** Two survivors never get the same number. */
  lemma RenumberingInjective(orphans: seq<nat>, v: nat, w: nat)
    requires Ascending(orphans) && v !in orphans && w !in orphans && v < w
    ensures NewNumber(orphans, v) < NewNumber(orphans, w)
  {
    OffsetStep(orphans, w);
    OffsetStep(orphans, w - 1);
    OffsetStep(orphans, v);
    if v == 0 { NoneBelowZero(orphans); } else { OffsetStep(orphans, v - 1); }
    OffsetGap(orphans, v, w - 1);
  }

  class Mesh {
    var nodes: seq<Point3D>
    var points: seq<nat>
    var lines: seq<seq<nat>>
    var triangles: seq<Triangle>
    var tetrahedra: seq<seq<nat>>

    ghost predicate Valid()
      reads this
    {
      && InRange(points, |points|, |nodes|)
      && AllInRange(lines, 2, |nodes|)
      && SaneTriangles(triangles, |nodes|)
      && AllInRange(tetrahedra, 4, |nodes|)
    }

    ghost predicate Refers(v: nat)
      reads this
    {
      v in points || AnyHas(lines, v) || AnyHas(Vertices(triangles), v) || AnyHas(tetrahedra, v)
    }

    /** Split the surface formed by the triangles of the given groups. Two of these
        triangles end up in the same group exactly if a chain of smooth steps over
        shared edges joins them; the new groups are numbered without gaps, in the
        order of their least triangles; all other triangles keep their group. The result is one more than the number
        of new groups. */
    method DivideMeshSurface(smooth: (nat, nat) -> bool, newPhysGroupStart: nat, physGroupsToSplit: seq<nat>)
      returns (result: nat, ghost s: Surface, ghost done: set<nat>)
      requires Valid() && forall a, b :: smooth(a, b) == smooth(b, a)
      modifies this`triangles
      ensures Valid() && result >= 1
      ensures done == set t: nat | t < |old(triangles)| && old(triangles)[t].physGroup in physGroupsToSplit
      ensures s == Surface(old(triangles), done, smooth) && ValidSurface(s, |nodes|)
      ensures Patched(s, |nodes|, done, triangles, newPhysGroupStart, newPhysGroupStart + result - 1)
      ensures InSeedOrder(s, done, triangles, newPhysGroupStart, newPhysGroupStart + result - 1)
    {
      var n := |nodes|;
      var adj := GetTriEdgeAdjacencyMap(triangles, n);
      var chosen := set t: nat | t < |triangles| && triangles[t].physGroup in physGroupsToSplit;
      var touched, kept := SelectTriangles(triangles, physGroupsToSplit, adj);
      s, done := Surface(triangles, chosen, smooth), chosen;
      var tris;
      tris, result, done := DividePatches(Surface(triangles, chosen, smooth), n, kept, touched, newPhysGroupStart);
      triangles := tris;
    }

    /** Drop the given nodes and renumber the others. Every element stays where it
        was. */
    method KillOrphans(orphans: seq<nat>)
      requires Valid() && Ascending(orphans) && forall v | v in orphans :: !Refers(v)
      modifies this
      ensures Valid() && nodes == Survivors(old(nodes), orphans, |old(nodes)|)
      ensures points == Renumbered(orphans, old(points)) && RenumberedAll(orphans, old(lines), lines)
      ensures RenumberedAll(orphans, Vertices(old(triangles)), Vertices(triangles))
      ensures RenumberedAll(orphans, old(tetrahedra), tetrahedra)
      ensures |triangles| == |old(triangles)|
      ensures forall i | 0 <= i < |triangles| :: triangles[i].physGroup == old(triangles)[i].physGroup
      ensures SameGeometry(old(nodes), old([points]), nodes, [points])
      ensures SameGeometry(old(nodes), old(lines), nodes, lines)
      ensures SameGeometry(old(nodes), old(Vertices(triangles)), nodes, Vertices(triangles))
      ensures SameGeometry(old(nodes), old(tetrahedra), nodes, tetrahedra)
    {
      var offsets := Offsets(|nodes|, orphans);
      var newPoints := RenumberAll([points], offsets, orphans, |points|);
      var newLines := RenumberAll(lines, offsets, orphans, 2);
      var newVertices := RenumberAll(Vertices(triangles), offsets, orphans, 3);
      var newTetrahedra := RenumberAll(tetrahedra, offsets, orphans, 4);
      var newNodes := KeepSurvivors(nodes, orphans);
      assert newPoints == [newPoints[0]];
      var newTriangles := seq(|triangles|, i requires 0 <= i < |newVertices| && 0 <= i < |triangles| reads this =>
        triangles[i].(p := newVertices[i]));
      TrianglesStaySane(nodes, orphans, triangles, newTriangles);
      assert Vertices(newTriangles) == newVertices;
      points, lines, triangles, tetrahedra := newPoints[0], newLines, newTriangles, newTetrahedra;
      nodes := newNodes;
    }

    /** Drop every node that no element refers to. Afterwards every node is referred
        to, so that a second call changes nothing. */
    method KillOrphanNodes() returns (ghost orphans: seq<nat>)
      requires Valid()
      modifies this
      ensures Valid() && forall v: nat | v < |nodes| :: Refers(v)
      ensures Ascending(orphans) && forall v: nat :: v in orphans <==> v < |old(nodes)| && !old(Refers(v))
      ensures nodes == Survivors(old(nodes), orphans, |old(nodes)|)
      ensures |triangles| == |old(triangles)|
      ensures forall i | 0 <= i < |triangles| :: triangles[i].physGroup == old(triangles)[i].physGroup
      ensures SameGeometry(old(nodes), old([points]), nodes, [points])
      ensures SameGeometry(old(nodes), old(lines), nodes, lines)
      ensures SameGeometry(old(nodes), old(Vertices(triangles)), nodes, Vertices(triangles))
      ensures SameGeometry(old(nodes), old(tetrahedra), nodes, tetrahedra)
      ensures old(forall v: nat | v < |nodes| :: Refers(v)) ==>
                nodes == old(nodes) && points == old(points) && lines == old(lines) &&
                triangles == old(triangles) && tetrahedra == old(tetrahedra)
    {
      var referenced := seq(|nodes|, _ => false);
      referenced := MarkAll([points], referenced, |points|);
      referenced := MarkAll(lines, referenced, 2);
      referenced := MarkAll(Vertices(triangles), referenced, 3);
      referenced := MarkAll(tetrahedra, referenced, 4);
      assert forall v: nat | v < |nodes| :: referenced[v] <==> Refers(v) by {
        OneList(points);
      }
      var unreferenced := Unreferenced(referenced);
      orphans := unreferenced;
      if unreferenced != [] {
        assert unreferenced[0] in unreferenced;
        KillOrphans(unreferenced);
        forall k: nat | k < |nodes| ensures Refers(k) {
          var v := PlaceHasNode(old(nodes), orphans, |old(nodes)|, k);
          assert old(Refers(v));
          SurvivorReferred(old(points), old(lines), old(Vertices(triangles)), old(tetrahedra), orphans, old(nodes), v);
        }
      } else {
        NoOrphans(nodes, |nodes|);
        NothingMoves(nodes, [points]);
        NothingMoves(nodes, lines);
        NothingMoves(nodes, Vertices(triangles));
        NothingMoves(nodes, tetrahedra);
      }
    }

    lemma SurvivorReferred(p0: seq<nat>, l0: seq<seq<nat>>, v0: seq<seq<nat>>, t0: seq<seq<nat>>, orphans: seq<nat>,
                           n0: seq<Point3D>, v: nat)
      requires v in p0 || AnyHas(l0, v) || AnyHas(v0, v) || AnyHas(t0, v)
      requires points == Renumbered(orphans, p0) && RenumberedAll(orphans, l0, lines)
      requires RenumberedAll(orphans, v0, Vertices(triangles)) && RenumberedAll(orphans, t0, tetrahedra)
      ensures Refers(NewNumber(orphans, v))
    {
      if v in p0 {
        var i :| 0 <= i < |p0| && p0[i] == v;
        assert points[i] == NewNumber(orphans, v);
      } else if AnyHas(l0, v) {
        ReferencedStay(n0, orphans, l0, lines, v);
      } else if AnyHas(v0, v) {
        ReferencedStay(n0, orphans, v0, Vertices(triangles), v);
      } else {
        ReferencedStay(n0, orphans, t0, tetrahedra, v);
      }
    }
  }

  lemma OneList(p: seq<nat>)
    ensures forall v :: AnyHas([p], v) <==> v in p
  {
    forall v | v in p ensures AnyHas([p], v) {
      assert v in [p][0];
    }
  }

  lemma {:induction false} NoOrphans<T>(nodes: seq<T>, n: nat)
    requires n <= |nodes|
    ensures Survivors(nodes, [], n) == nodes[..n]
  {
    if n > 0 {
      NoOrphans(nodes, n - 1);
    }
  }

  lemma NothingMoves(nodes: seq<Point3D>, els: seq<seq<nat>>)
    requires forall i | 0 <= i < |els| :: InRange(els[i], |els[i]|, |nodes|)
    ensures SameGeometry(nodes, els, nodes, els)
  {
  }

  method MarkAll(els: seq<seq<nat>>, referenced: seq<bool>, arity: nat) returns (r: seq<bool>)
    requires AllInRange(els, arity, |referenced|)
    ensures |r| == |referenced|
    ensures forall v: nat | v < |r| :: r[v] <==> referenced[v] || AnyHas(els, v)
  {
    r := referenced;
    for ui := 0 to |els|
      invariant |r| == |referenced|
      invariant forall v: nat | v < |r| :: r[v] <==> referenced[v] || exists i :: 0 <= i < ui && v in els[i]
    {
      assert InRange(els[ui], arity, |referenced|);
      ghost var before := r;
      for uj := 0 to |els[ui]|
        invariant |r| == |referenced|
        invariant forall v: nat | v < |r| :: r[v] <==> before[v] || v in els[ui][..uj]
      {
        r := r[els[ui][uj] := true];
        assert els[ui][..uj + 1] == els[ui][..uj] + [els[ui][uj]];
      }
      assert els[ui][..|els[ui]|] == els[ui];
    }
  }

  method RenumberAll(els: seq<seq<nat>>, offsets: seq<nat>, orphans: seq<nat>, arity: nat) returns (r: seq<seq<nat>>)
    requires Ascending(orphans) && AllInRange(els, arity, |offsets|)
    requires forall v | 0 <= v < |offsets| :: offsets[v] == Offset(orphans, v)
    requires forall v | v in orphans :: !AnyHas(els, v)
    ensures RenumberedAll(orphans, els, r)
    ensures forall nodes: seq<Point3D> | |nodes| == |offsets| ::
              AllInRange(r, arity, |Survivors(nodes, orphans, |nodes|)|) &&
              SameGeometry(nodes, els, Survivors(nodes, orphans, |nodes|), r)
  {
    r := [];
    for ui := 0 to |els|
      invariant |r| == ui && forall i | 0 <= i < ui :: r[i] == Renumbered(orphans, els[i])
    {
      assert InRange(els[ui], arity, |offsets|);
      forall j | 0 <= j < |els[ui]| ensures Offset(orphans, els[ui][j]) <= els[ui][j] {
        assert els[ui][j] in els[ui];
        SurvivorOffset(orphans, els[ui][j]);
      }
      var p := Renumber(els[ui], offsets, orphans);
      r := r + [p];
    }
    forall nodes: seq<Point3D> | |nodes| == |offsets|
      ensures AllInRange(r, arity, |Survivors(nodes, orphans, |nodes|)|)
      ensures SameGeometry(nodes, els, Survivors(nodes, orphans, |nodes|), r)
    {
      RenumberingKeepsGeometry(nodes, orphans, els, arity, r);
    }
  }

  lemma SurvivorOffset(orphans: seq<nat>, v: nat)
    requires Ascending(orphans) && v !in orphans
    ensures Offset(orphans, v) <= v
  {
    OffsetStep(orphans, v);
    if v == 0 { NoneBelowZero(orphans); } else { OffsetStep(orphans, v - 1); }
  }

  /** Unselected triangles count as touched and list no neighbours; the others list
      their selected neighbours. */
  method SelectTriangles(triangles: seq<Triangle>, physGroupsToSplit: seq<nat>, adj: seq<seq<nat>>)
    returns (touched: seq<bool>, kept: seq<seq<nat>>)
    requires |adj| == |triangles| && forall a, b: nat | 0 <= a < |adj| && b in adj[a] :: b < |triangles|
    ensures |touched| == |kept| == |triangles|
    ensures forall t: nat | t < |triangles| :: touched[t] <==> triangles[t].physGroup !in physGroupsToSplit
    ensures forall t: nat | t < |triangles| && touched[t] :: kept[t] == []
    ensures forall t: nat, b: nat {:trigger b in kept[t]} | t < |triangles| && !touched[t] ::
              b in kept[t] <==> b in adj[t] && triangles[b].physGroup in physGroupsToSplit
  {
    touched, kept := [], [];
    for ui := 0 to |triangles|
      invariant |touched| == |kept| == ui
      invariant forall t: nat | t < ui :: touched[t] <==> triangles[t].physGroup !in physGroupsToSplit
      invariant forall t: nat | t < ui && touched[t] :: kept[t] == []
      invariant forall t: nat, b: nat {:trigger b in kept[t]} | t < ui && !touched[t] ::
                  b in kept[t] <==> b in adj[t] && triangles[b].physGroup in physGroupsToSplit
    {
      if triangles[ui].physGroup !in physGroupsToSplit {
        touched, kept := touched + [true], kept + [[]];
      } else {
        var row := SelectNeighbours(triangles, physGroupsToSplit, adj[ui]);
        touched, kept := touched + [false], kept + [row];
      }
    }
  }

  method SelectNeighbours(triangles: seq<Triangle>, physGroupsToSplit: seq<nat>, row: seq<nat>) returns (r: seq<nat>)
    requires forall b: nat | b in row :: b < |triangles|
    ensures forall b: nat :: b in r <==> b in row && triangles[b].physGroup in physGroupsToSplit
  {
    r := [];
    for it := 0 to |row|
      invariant forall b: nat :: b in r <==> b in row[..it] && b < |triangles| && triangles[b].physGroup in physGroupsToSplit
    {
      assert row[it] in row;
      if triangles[row[it]].physGroup in physGroupsToSplit {
        r := r + [row[it]];
      }
      assert row[..it + 1] == row[..it] + [row[it]];
    }
    assert row[..|row|] == row;
  }
}
