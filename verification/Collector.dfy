/** Ownership of the streams made during a refresh. */
module Collector {
  import opened Counting
  import opened Filters

  /** The streams that exist. Deleting one that does not is the error that the
      collector has to avoid, so `Delete` demands that the stream be alive. */
  class Heap {
    ghost var alive: set<Stream>

    method New(made: seq<Stream>)
      requires forall x | x in made :: x !in alive
      modifies this
      ensures alive == old(alive) + (set x | x in made)
    {
      alive := alive + (set x | x in made);
    }

    method Delete(x: Stream)
      requires x in alive
      modifies this
      ensures alive == old(alive) - {x}
    {
      alive := alive - {x};
    }
  }

  /** `x` is in one of the lists from position `lo` on. */
  predicate TrackedFrom(nodes: seq<seq<Stream>>, lo: int, x: Stream) {
    exists i :: 0 <= i < |nodes| && lo <= i && x in nodes[i]
  }

  predicate Tracked(nodes: seq<seq<Stream>>, x: Stream) {
    TrackedFrom(nodes, 0, x)
  }

  /** Nothing that owns itself, nothing twice, nothing that was let go. */
  ghost predicate Sane(nodes: seq<seq<Stream>>, forgotten: set<Stream>) {
    && (forall i, x | 0 <= i < |nodes| && x in nodes[i] :: !x.cached && x !in forgotten)
    && (forall i | 0 <= i < |nodes| :: NoDup(nodes[i]))
    && (forall i, j, x | 0 <= i < j < |nodes| && x in nodes[i] :: x !in nodes[j])
  }

  lemma NoDupRemove<T>(s: seq<T>, k: nat)
    requires NoDup(s) && k < |s|
    ensures NoDup(s[..k] + s[k + 1..])
    ensures forall y :: y in s[..k] + s[k + 1..] <==> y in s && y != s[k]
  {
    var r := s[..k] + s[k + 1..];
    forall y | y in s && y != s[k] ensures y in r {
      var i :| 0 <= i < |s| && s[i] == y;
      assert y == r[if i < k then i else i - 1];
    }
  }

  /** `after` is `before` without the streams in `gone`. */
  ghost predicate Without(before: seq<seq<Stream>>, gone: seq<Stream>, after: seq<seq<Stream>>) {
    && |before| == |after|
    && forall i, x {:trigger x in after[i]} {:trigger x in before[i]} | 0 <= i < |after| ::
         x in after[i] <==> x in before[i] && x !in gone
  }

  lemma WithoutOneMore(before: seq<seq<Stream>>, gone: seq<Stream>, mid: seq<seq<Stream>>, p: Stream, after: seq<seq<Stream>>)
    requires Without(before, gone, mid) && Without(mid, [p], after)
    ensures Without(before, gone + [p], after)
    ensures Tracked(mid, p) <==> Tracked(before, p) && p !in gone
  {
    forall i, x | 0 <= i < |after| ensures x in after[i] <==> x in before[i] && x !in gone + [p] {
      assert x in mid[i] <==> x in before[i] && x !in gone;
    }
    if Tracked(before, p) && p !in gone {
      var i :| 0 <= i < |before| && p in before[i];
      assert p in mid[i];
    }
  }

  class RefreshCollector {
    var nodes: seq<seq<Stream>>
    var forgotten: set<Stream>

    ghost predicate Valid()
      reads this
    {
      Sane(nodes, forgotten)
    }

    constructor ()
      ensures Valid() && nodes == [] && forgotten == {}
    {
      nodes, forgotten := [], {};
    }

    /** Start tracking the streams that nobody owns yet, as a new level. */
    method TrackPointers(v: seq<Stream>)
      requires Valid() && NoDup(v)
      modifies this
      ensures Valid() && forgotten == old(forgotten)
      ensures |nodes| == |old(nodes)| + 1 && nodes[..|old(nodes)|] == old(nodes)
      ensures |nodes[|old(nodes)|]| <= |v|
      ensures forall x :: x in nodes[|old(nodes)|] <==>
                x in v && !x.cached && x !in forgotten && !Tracked(old(nodes), x)
    {
      var keep: seq<Stream> := [];
      for ui := 0 to |v|
        invariant nodes == old(nodes) && forgotten == old(forgotten)
        invariant NoDup(keep) && |keep| <= ui
        invariant forall x :: x in keep <==>
                    x in v[..ui] && !x.cached && x !in forgotten && !Tracked(nodes, x)
      {
        if !v[ui].cached {
          var found := false;
          for uj := 0 to |nodes|
            invariant found <==> exists k :: 0 <= k < uj && v[ui] in nodes[k]
          {
            if v[ui] in nodes[uj] {
              found := true;
              break;
            }
          }
          found := found || v[ui] in forgotten;
          if !found {
            keep := keep + [v[ui]];
          }
        }
        assert v[..ui + 1] == v[..ui] + [v[ui]];
      }
      assert v[..|v|] == v;
      nodes := nodes + [keep];
    }

    /** Let go of the given streams: they are no longer the collector's to free. */
    method ForgetPointers(v: seq<Stream>)
      requires Valid()
      modifies this
      ensures Valid() && Without(old(nodes), v, nodes)
      ensures forall x :: x in forgotten <==> x in old(forgotten) || (x in v && Tracked(old(nodes), x))
    {
      for uj := 0 to |v|
        invariant Valid() && Without(old(nodes), v[..uj], nodes)
        invariant forall x :: x in forgotten <==> x in old(forgotten) || (x in v[..uj] && Tracked(old(nodes), x))
      {
        ghost var mid := nodes;
        ForgetOne(v[uj]);
        assert v[..uj + 1] == v[..uj] + [v[uj]];
        WithoutOneMore(old(nodes), v[..uj], mid, v[uj], nodes);
      }
      assert v[..|v|] == v;
    }

    method ForgetOne(p: Stream)
      requires Valid()
      modifies this
      ensures Valid() && Without(old(nodes), [p], nodes)
      ensures forgotten == old(forgotten) + if Tracked(old(nodes), p) then {p} else {}
    {
      for ui := 0 to |nodes|
        invariant nodes == old(nodes) && forgotten == old(forgotten)
        invariant forall i | 0 <= i < ui :: p !in nodes[i]
      {
        if p in nodes[ui] {
          var k: nat :| k < |nodes[ui]| && nodes[ui][k] == p;
          NoDupRemove(nodes[ui], k);
          forgotten := forgotten + {p};
          nodes := nodes[ui := nodes[ui][..k] + nodes[ui][k + 1..]];
          assert Tracked(old(nodes), p);
          return;
        }
      }
    }

    /** Free everything that is still tracked. */
    method CollectAll(heap: Heap)
      requires Valid() && forall x | Tracked(nodes, x) :: x in heap.alive
      modifies this, heap
      ensures Valid() && nodes == [] && forgotten == old(forgotten)
      ensures forall x :: x in heap.alive <==> x in old(heap.alive) && !Tracked(old(nodes), x)
    {
      DeleteFrom(heap, 0);
      nodes := [];
    }

    /** Free what is tracked past the given level, and cut or grow to the level. */
    method CollectToLevel(heap: Heap, level: nat)
      requires Valid() && forall x | Tracked(nodes, x) :: x in heap.alive
      modifies this, heap
      ensures Valid() && forgotten == old(forgotten) && |nodes| == level
      ensures forall i | 0 <= i < level :: nodes[i] == if i < |old(nodes)| then old(nodes)[i] else []
      ensures forall x :: x in heap.alive <==> x in old(heap.alive) && !TrackedFrom(old(nodes), level + 1, x)
    {
      DeleteFrom(heap, level + 1);
      if level <= |nodes| {
        nodes := nodes[..level];
      } else {
        nodes := nodes + seq(level - |nodes|, _ => []);
      }
    }

    method DeleteFrom(heap: Heap, lo: nat)
      requires Valid() && forall x | Tracked(nodes, x) :: x in heap.alive
      modifies heap
      ensures forall x :: x in heap.alive <==> x in old(heap.alive) && !TrackedFrom(nodes, lo, x)
    {
      var ui := lo;
      while ui < |nodes|
        invariant lo <= ui
        invariant forall x :: x in heap.alive <==>
                    x in old(heap.alive) && !exists i :: 0 <= i < |nodes| && lo <= i < ui && x in nodes[i]
      {
        var it := 0;
        assert nodes[ui][..0] == [];
        while it < |nodes[ui]|
          invariant 0 <= it <= |nodes[ui]|
          invariant forall x :: x in heap.alive <==>
                      && x in old(heap.alive)
                      && (!exists i :: 0 <= i < |nodes| && lo <= i < ui && x in nodes[i])
                      && x !in nodes[ui][..it]
        {
          var p := nodes[ui][it];
          assert Tracked(nodes, p);
          assert p !in nodes[ui][..it];
          heap.Delete(p);
          assert forall x :: x in nodes[ui][..it + 1] <==> x in nodes[ui][..it] || x == p;
          it := it + 1;
        }
        assert nodes[ui][..it] == nodes[ui];
        ui := ui + 1;
      }
    }
  }
}
