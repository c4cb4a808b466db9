/** Dropping the nodes that no element of a mesh refers to. */
module MeshOrphans {

  datatype Point3D = Point3D(x: real, y: real, z: real)

  ghost predicate Ascending(s: seq<nat>) {
    forall i, j | 0 <= i < j < |s| :: s[i] < s[j]
  }

  /** How many of the orphans come no later than `v`. */
  function Offset(orphans: seq<nat>, v: int): nat {
    if orphans == [] then 0
    else Offset(orphans[..|orphans| - 1], v) + if orphans[|orphans| - 1] <= v then 1 else 0
  }

  lemma {:induction false} OffsetStep(orphans: seq<nat>, v: nat)
    requires Ascending(orphans)
    ensures Offset(orphans, v) == Offset(orphans, v - 1) + if v in orphans then 1 else 0
    ensures Offset(orphans, v) <= v + 1
    decreases v, |orphans|
  {
    if orphans != [] {
      OffsetStep(orphans[..|orphans| - 1], v);
    }
    if v > 0 {
      OffsetStep(orphans, v - 1);
    } else {
      NoneBelowZero(orphans);
    }
  }

  lemma {:induction false} NoneBelowZero(orphans: seq<nat>)
    ensures Offset(orphans, -1) == 0
  {
    if orphans != [] {
      NoneBelowZero(orphans[..|orphans| - 1]);
    }
  }

  /** The new number of node `v`. */
  function NewNumber(orphans: seq<nat>, v: nat): nat {
    if Offset(orphans, v) <= v then v - Offset(orphans, v) else 0
  }

  function Renumbered(orphans: seq<nat>, p: seq<nat>): (r: seq<nat>)
    ensures |r| == |p| && forall i | 0 <= i < |p| :: r[i] == NewNumber(orphans, p[i])
  {
    seq(|p|, i requires 0 <= i < |p| => NewNumber(orphans, p[i]))
  }

  /** The nodes among the first `n` that are no orphans, in their order. */
  function Survivors<T>(nodes: seq<T>, orphans: seq<nat>, n: nat): seq<T>
    requires n <= |nodes|
  {
    if n == 0 then []
    else Survivors(nodes, orphans, n - 1) + if n - 1 in orphans then [] else [nodes[n - 1]]
  }

  lemma {:induction false} SurvivorCount<T>(nodes: seq<T>, orphans: seq<nat>, n: nat)
    requires n <= |nodes| && Ascending(orphans)
    ensures |Survivors(nodes, orphans, n)| == n - Offset(orphans, n - 1)
  {
    if n == 0 {
      NoneBelowZero(orphans);
    } else {
      SurvivorCount(nodes, orphans, n - 1);
      OffsetStep(orphans, n - 1);
    }
  }

  lemma {:induction false} SurvivorsPrefix<T>(nodes: seq<T>, orphans: seq<nat>, m: nat, n: nat)
    requires m <= n <= |nodes|
    ensures Survivors(nodes, orphans, m) <= Survivors(nodes, orphans, n)
    decreases n - m
  {
    if m < n {
      SurvivorsPrefix(nodes, orphans, m, n - 1);
    }
  }

  /** Under its new number a surviving node is found at the same coordinates. */
  lemma RenumberingKeepsNode<T>(nodes: seq<T>, orphans: seq<nat>, v: nat)
    requires Ascending(orphans) && v < |nodes| && v !in orphans
    ensures NewNumber(orphans, v) == v - Offset(orphans, v) < |Survivors(nodes, orphans, |nodes|)|
    ensures Survivors(nodes, orphans, |nodes|)[NewNumber(orphans, v)] == nodes[v]
  {
    SurvivorCount(nodes, orphans, v);
    OffsetStep(orphans, v);
    SurvivorsPrefix(nodes, orphans, v + 1, |nodes|);
    assert Survivors(nodes, orphans, v + 1)[|Survivors(nodes, orphans, v)|] == nodes[v];
  }

  /** Every surviving place belongs to one surviving node. */
  lemma {:induction false} PlaceHasNode<T>(nodes: seq<T>, orphans: seq<nat>, n: nat, k: nat) returns (v: nat)
    requires Ascending(orphans) && n <= |nodes| && k < |Survivors(nodes, orphans, n)|
    ensures v < n && v !in orphans && NewNumber(orphans, v) == k
  {
    SurvivorCount(nodes, orphans, n - 1);
    OffsetStep(orphans, n - 1);
    if k < |Survivors(nodes, orphans, n - 1)| {
      v := PlaceHasNode(nodes, orphans, n - 1, k);
    } else {
      v := n - 1;
    }
  }

  method Offsets(numNodes: nat, orphans: seq<nat>) returns (offsets: seq<nat>)
    requires Ascending(orphans)
    ensures |offsets| == numNodes && forall v | 0 <= v < numNodes :: offsets[v] == Offset(orphans, v)
  {
    offsets := [];
    var curOrphan := 0;
    for ui := 0 to numNodes
      invariant |offsets| == ui && forall v | 0 <= v < ui :: offsets[v] == Offset(orphans, v)
      invariant 0 <= curOrphan <= |orphans| && forall k | 0 <= k < curOrphan :: orphans[k] <= ui
    {
      while curOrphan < |orphans| && orphans[curOrphan] <= ui
        invariant 0 <= curOrphan <= |orphans| && forall k | 0 <= k < curOrphan :: orphans[k] <= ui
      {
        curOrphan := curOrphan + 1;
      }
      OffsetIs(orphans, ui, curOrphan);
      offsets := offsets + [curOrphan];
    }
  }

  lemma {:induction false} OffsetIs(orphans: seq<nat>, v: int, k: nat)
    requires Ascending(orphans) && k <= |orphans|
    requires (forall i | 0 <= i < k :: orphans[i] <= v) && (k < |orphans| ==> v < orphans[k])
    ensures Offset(orphans, v) == k
    decreases |orphans|
  {
    if orphans != [] {
      var n := |orphans| - 1;
      OffsetIs(orphans[..n], v, if k == n + 1 then n else k);
    }
  }

  method Renumber(p: seq<nat>, offsets: seq<nat>, ghost orphans: seq<nat>) returns (r: seq<nat>)
    requires forall i | 0 <= i < |p| :: p[i] < |offsets|
    requires forall v | 0 <= v < |offsets| :: offsets[v] == Offset(orphans, v)
    requires forall i | 0 <= i < |p| :: Offset(orphans, p[i]) <= p[i]
    ensures r == Renumbered(orphans, p)
  {
    r := p;
    for ui := 0 to |p|
      invariant |r| == |p|
      invariant forall i | 0 <= i < ui :: r[i] == NewNumber(orphans, p[i])
      invariant forall i | ui <= i < |p| :: r[i] == p[i]
    {
      r := r[ui := r[ui] - offsets[r[ui]]];
    }
  }

  method KeepSurvivors<T>(nodes: seq<T>, orphans: seq<nat>) returns (newNodes: seq<T>)
    ensures newNodes == Survivors(nodes, orphans, |nodes|)
  {
    newNodes := [];
    for ui := 0 to |nodes|
      invariant newNodes == Survivors(nodes, orphans, ui)
    {
      if ui !in orphans {
        newNodes := newNodes + [nodes[ui]];
      }
    }
  }

  /** The nodes not marked, in order. */
  method Unreferenced(referenced: seq<bool>) returns (orphans: seq<nat>)
    ensures Ascending(orphans) && forall v: nat :: v in orphans <==> v < |referenced| && !referenced[v]
  {
    orphans := [];
    for ui := 0 to |referenced|
      invariant forall i | 0 <= i < |orphans| :: orphans[i] < ui
      invariant Ascending(orphans) && forall v: nat :: v in orphans <==> v < ui && !referenced[v]
    {
      if !referenced[ui] {
        orphans := orphans + [ui];
      }
    }
  }
}
