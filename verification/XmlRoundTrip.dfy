/** Reading back what was written. */
module XmlRoundTrip {
  import opened PreOrder
  import opened XmlTree
  import opened XmlLoad

  /** The document of some trees is never refused, and its lines are their listing. */
  lemma {:induction false} DomReads(ts: seq<Tree>, k: nat, at: nat, seen: bool)
    ensures !Refused(Dom(ts), seen) && Lines(Dom(ts), k, at) == Flatten(ts, k)
    decreases ts
  {
    if ts != [] {
      hide *;
      var t, later := ts[0], Dom(ts[1..]);
      assert ts == [t] + ts[1..];
      DomCons(t, ts[1..]);
      NestedCons(t, ts[1..], k);
      DomReads(ts[1..], k, k, true);
      DomReads(t.kids, k + 1, k, true);
      TreeReads(t, later, k, at, seen);
    } else {
      DomNone(k, at, seen);
    }
  }

  lemma DomNone(k: nat, at: nat, seen: bool)
    ensures Dom([]) == [] && Flatten([], k) == [] && !Refused([], seen) && Lines([], k, at) == []
  {
  }

  /** Reading a filter, then its children, if any, then what follows. */
  lemma TreeReads(t: Tree, later: seq<Xml>, k: nat, at: nat, seen: bool)
    requires !Refused(later, true) && !Refused(Dom(t.kids), true)
    requires Lines(Dom(t.kids), k + 1, k) == Flatten(t.kids, k + 1)
    ensures var block := if t.kids == [] then [] else [Children([Text] + Dom(t.kids)), Text];
            var nodes := [Elem(t.f, true), Text] + block + later;
            !Refused(nodes, seen)
            && Lines(nodes, k, at) == [Entry(k, t.f)] + Flatten(t.kids, k + 1) + Lines(later, k, k)
  {
    hide *;
    if t.kids == [] {
      FlattenNone(k + 1);
      assert [Elem(t.f, true), Text] + [] + later == [Elem(t.f, true)] + ([Text] + later);
      NodeReads(Text, later, k, k, true);
      NodeReads(Elem(t.f, true), [Text] + later, k, at, seen);
      assert [Entry(k, t.f)] + [] == [Entry(k, t.f)];
    } else {
      var block := Children([Text] + Dom(t.kids));
      assert [Elem(t.f, true), Text] + [block, Text] + later
          == [Elem(t.f, true)] + ([Text] + ([block] + ([Text] + later)));
      assert ([Text] + Dom(t.kids))[1..] == Dom(t.kids);
      NodeReads(Text, later, k, k, true);
      NodeReads(block, [Text] + later, k, k, true);
      NodeReads(Text, [block] + ([Text] + later), k, k, true);
      NodeReads(Elem(t.f, true), [Text] + ([block] + ([Text] + later)), k, at, seen);
      assert [Entry(k, t.f)] + (Flatten(t.kids, k + 1) + Lines(later, k, k))
          == [Entry(k, t.f)] + Flatten(t.kids, k + 1) + Lines(later, k, k);
    }
  }

  lemma NodeReads(x: Xml, rest: seq<Xml>, k: nat, at: nat, seen: bool)
    ensures x.Elem? ==> Lines([x] + rest, k, at) == [Entry(k, x.f)] + Lines(rest, k, k)
    ensures x.Elem? ==> (Refused([x] + rest, seen) <==> !x.ok || Refused(rest, true))
    ensures x.Text? ==> Lines([x] + rest, k, at) == Lines(rest, k, at)
    ensures x.Text? ==> (Refused([x] + rest, seen) <==> Refused(rest, seen))
    ensures x.Children? && x.kids != [] ==>
              Lines([x] + rest, k, at) == Lines(x.kids[1..], at + 1, at) + Lines(rest, k, at)
    ensures x.Children? && x.kids != [] && seen ==>
              (Refused([x] + rest, seen) <==> Refused(x.kids[1..], true) || Refused(rest, true))
  {
    assert ([x] + rest)[1..] == rest;
    LinesIs([x] + rest, k, at);
    RefusedIs([x] + rest, seen);
  }

  // ---- The roots ----

  function Reversed(ts: seq<Tree>): (r: seq<Tree>)
    ensures |r| == |ts| && forall i | 0 <= i < |r| :: r[i] == ts[|ts| - 1 - i]
  {
    if ts == [] then [] else Reversed(ts[1..]) + [ts[0]]
  }

  /** The first root stays first, the others come back in reverse. */
  function Rotated(ts: seq<Tree>): seq<Tree> {
    if ts == [] then [] else [ts[0]] + Reversed(ts[1..])
  }

  lemma {:induction false} ReversedTwice(ts: seq<Tree>)
    ensures Reversed(Reversed(ts)) == ts
  {
    if ts != [] {
      ReversedTwice(ts[1..]);
      ReversedEnd(Reversed(ts[1..]), ts[0]);
    }
  }

  lemma {:induction false} ReversedEnd(ts: seq<Tree>, t: Tree)
    ensures Reversed(ts + [t]) == [t] + Reversed(ts)
  {
    if ts != [] {
      ReversedEnd(ts[1..], t);
      assert (ts + [t])[1..] == ts[1..] + [t];
    } else {
      assert ts + [t] == [t];
      assert [t][1..] == [];
      assert Reversed([t]) == [t];
    }
  }

  lemma {:induction false} FlattenConcat(ts: seq<Tree>, us: seq<Tree>, k: nat)
    ensures Flatten(ts + us, k) == Flatten(ts, k) + Flatten(us, k)
    decreases |ts|
  {
    if ts == [] {
      assert ts + us == us;
    } else {
      assert (ts + us)[1..] == ts[1..] + us;
      FlattenConcat(ts[1..], us, k);
    }
  }

  lemma {:induction false} BelowIsDeeper(ts: seq<Tree>, k: nat)
    ensures forall i | 0 <= i < |Flatten(ts, k)| :: k <= Flatten(ts, k)[i].depth
    decreases ts
  {
    if ts != [] {
      BelowIsDeeper(ts[0].kids, k + 1);
      BelowIsDeeper(ts[1..], k);
    }
  }

  lemma OneTree(t: Tree)
    ensures Flatten([t], 0) == [Entry(0, t.f)] + Flatten(t.kids, 1)
    ensures forall i | 0 < i < |Flatten([t], 0)| :: Flatten([t], 0)[i].depth > 0
  {
    assert [t][1..] == [];
    BelowIsDeeper(t.kids, 1);
  }

  lemma {:induction false} LastFirstTrees(ts: seq<Tree>)
    ensures LastFirst(Flatten(ts, 0)) == Flatten(Reversed(ts), 0)
    decreases |ts|
  {
    hide *;
    if ts == [] {
      LastFirstIs([]);
      DomNone(0, 0, true);
      assert Reversed(ts) == [];
    } else {
      var us, t := ts[..|ts| - 1], ts[|ts| - 1];
      assert ts == us + [t];
      var before, tree := Flatten(us, 0), Flatten([t], 0);
      LastFirstTrees(us);
      FlattenConcat(us, [t], 0);
      OneTree(t);
      LastFirstSplits(before + tree, |before|);
      assert (before + tree)[|before|..] == tree && (before + tree)[..|before|] == before;
      ReversedEnd(us, t);
      FlattenConcat([t], Reversed(us), 0);
    }
  }

  /** Rotating the listing of some trees is rotating the trees. */
  lemma RotateTrees(ts: seq<Tree>)
    ensures Rotate(Flatten(ts, 0)) == Flatten(Rotated(ts), 0)
  {
    if ts != [] {
      hide *;
      var tree, later := Flatten([ts[0]], 0), Flatten(ts[1..], 0);
      assert ts == [ts[0]] + ts[1..];
      FlattenConcat([ts[0]], ts[1..], 0);
      FlattenConcat([ts[0]], Reversed(ts[1..]), 0);
      OneTree(ts[0]);
      if ts[1..] == [] { DomNone(0, 0, true); } else { FlattenHead(ts[1..], 0); }
      NextAtIs(tree + later, 1, |tree|);
      RotateIs(tree + later);
      assert (tree + later)[..|tree|] == tree && (tree + later)[|tree|..] == later;
      LastFirstTrees(ts[1..]);
      ReversedIs(ts);
    }
  }

  lemma ReversedIs(ts: seq<Tree>)
    requires ts != []
    ensures Rotated(ts) == [ts[0]] + Reversed(ts[1..])
  {
  }

  /** Saving and loading rebuilds every tree; the roots after the first come back
      in reverse order. */
  lemma SaveThenLoad(ts: seq<Tree>)
    ensures var doc := ParseDocument(Emit(0, Flatten(ts, 0)));
            doc != [] && !Refused(doc[1..], false) && Rotate(Lines(doc[1..], 0, 0)) == Flatten(Rotated(ts), 0)
  {
    hide *;
    WriterIsBalanced(ts);
    assert ([Text] + Dom(ts))[1..] == Dom(ts);
    DomReads(ts, 0, 0, false);
    RotateTrees(ts);
  }

  /** Two cycles give the tree back as it was. */
  lemma TwoCyclesAreIdentity(ts: seq<Tree>)
    ensures Rotated(Rotated(ts)) == ts
  {
    if ts != [] {
      ReversedTwice(ts[1..]);
      assert Rotated(ts)[1..] == Reversed(ts[1..]);
    }
  }

  // ---- Every forest ----

  /** The nodes of one level and below, each at most one level below the last. */
  ghost predicate Nodes(s: seq<Entry>, k: nat) {
    && (s != [] ==> s[0].depth == k)
    && (forall i | 0 <= i < |s| :: k <= s[i].depth)
    && forall i | 0 < i < |s| :: s[i].depth <= s[i - 1].depth + 1
  }

  /** Every pre-order listing of a forest is the listing of some trees. */
  lemma {:induction false} Unflatten(s: seq<Entry>, k: nat) returns (ts: seq<Tree>)
    requires Nodes(s, k)
    ensures Flatten(ts, k) == s
    decreases |s|
  {
    if s == [] {
      ts := [];
      assert Flatten(ts, k) == [];
    } else {
      hide *;
      var e := NextAt(s, k, 1);
      SplitNodes(s, k);
      var kids := Unflatten(s[1..e], k + 1);
      var rest := Unflatten(s[e..], k);
      ts := [Tree(s[0].f, kids)] + rest;
      FlattenJoin(s[0], kids, rest, k);
      assert s == [s[0]] + s[1..e] + s[e..];
    }
  }

  lemma SplitNodes(s: seq<Entry>, k: nat)
    requires Nodes(s, k) && s != []
    ensures s[0].depth == k && Nodes(s[1..NextAt(s, k, 1)], k + 1) && Nodes(s[NextAt(s, k, 1)..], k)
  {
    var e := NextAt(s, k, 1);
    var inner, later := s[1..e], s[e..];
    assert forall i | 0 <= i < |inner| :: inner[i] == s[i + 1];
    assert forall i | 0 <= i < |later| :: later[i] == s[i + e];
  }

  lemma FlattenJoin(x: Entry, kids: seq<Tree>, rest: seq<Tree>, k: nat)
    requires x.depth == k
    ensures Flatten([Tree(x.f, kids)] + rest, k) == [x] + Flatten(kids, k + 1) + Flatten(rest, k)
  {
    assert ([Tree(x.f, kids)] + rest)[1..] == rest;
  }

  /** Saving any forest and loading it gives the same trees, rotated. */
  method SaveAndLoad(filters: seq<Entry>) returns (code: nat, loaded: seq<Entry>, ghost ts: seq<Tree>)
    requires Valid(Depths(filters))
    ensures code == 0 && filters == Flatten(ts, 0) && loaded == Flatten(Rotated(ts), 0)
  {
    assert Nodes(filters, 0) by {
      assert forall i | 0 <= i < |filters| :: Depths(filters)[i] == filters[i].depth;
    }
    ts := Unflatten(filters, 0);
    hide *;
    var toks := SaveXML(filters);
    SaveThenLoad(ts);
    code, loaded := LoadXML(ParseDocument(toks));
  }

  /** Saving and loading twice changes nothing. */
  method TwoCycles(filters: seq<Entry>) returns (code: nat, loaded: seq<Entry>)
    requires Valid(Depths(filters))
    ensures code == 0 && loaded == filters
  {
    hide *;
    var once;
    ghost var ts;
    code, once, ts := SaveAndLoad(filters);
    var toks := SaveXML(once);
    SaveThenLoad(Rotated(ts));
    TwoCyclesAreIdentity(ts);
    code, loaded := LoadXML(ParseDocument(toks));
  }
}
