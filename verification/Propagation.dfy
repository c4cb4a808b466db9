/** Accumulated emit and block masks, and the choice of the filters from which a
    refresh has to start. */
module Propagation {
  import opened Filters
  import opened PreOrder

  /** Types that can leave filter `i`. */
  function EmitAcc(lib: Library, t: Forest, i: nat): set<Ty>
    requires ValidForest(t) && i < |t.d|
  {
    var p := Parent(t.d, i);
    if p == -1 then lib.emit(t.f[i].cfg)
    else EmitAcc(lib, t, p) - lib.block(t.f[i].cfg) + lib.emit(t.f[i].cfg)
  }

  /** `ty` starts at `a` and no filter on the way down to `i` stops it. */
  ghost predicate Reaches(lib: Library, t: Forest, ty: Ty, a: nat, i: nat)
    requires ValidForest(t) && i < |t.d|
  {
    && Within(t.d, a, i)
    && ty in lib.emit(t.f[a].cfg)
    && forall k | a < k <= i && Within(t.d, k, i) :: ty !in lib.block(t.f[k].cfg)
  }

  /** The accumulated emit mask names exactly the types that some filter at or
      above emits and nothing strictly below that filter blocks. */
  lemma {:induction false} EmitAccExact(lib: Library, t: Forest, i: nat, ty: Ty)
    requires ValidForest(t) && i < |t.d|
    ensures ty in EmitAcc(lib, t, i) <==> exists a: nat :: Reaches(lib, t, ty, a, i)
  {
    var p := Parent(t.d, i);
    forall k: nat {
      BelowByParent(t.d, k, i);
    }
    if p != -1 {
      EmitAccExact(lib, t, p, ty);
      if ty in lib.emit(t.f[i].cfg) {
        assert Reaches(lib, t, ty, i, i);
      } else if ty in EmitAcc(lib, t, i) {
        var a: nat :| Reaches(lib, t, ty, a, p);
        assert Reaches(lib, t, ty, a, i);
      } else if a: nat :| Reaches(lib, t, ty, a, i) {
        assert Reaches(lib, t, ty, a, p);
      }
    } else if ty in lib.emit(t.f[i].cfg) {
      assert Reaches(lib, t, ty, i, i);
    }
  }

  /** Types that filter `i` surely keeps from the filters below it. */
  function BlockAcc(lib: Library, t: Forest, i: nat): set<Ty>
    requires ValidForest(t) && i < |t.d|
  {
    if t.f[i].cache.Some? then lib.block(t.f[i].cfg) else {}
  }

  method GetAccumulatedPropagationMaps(lib: Library, t: Forest)
    returns (emitTypes: map<nat, set<Ty>>, blockTypes: map<nat, set<Ty>>)
    requires ValidForest(t)
    ensures forall i: nat :: (i in emitTypes <==> i < |t.d|) && (i in blockTypes <==> i < |t.d|)
    ensures forall i: nat | i < |t.d| :: emitTypes[i] == EmitAcc(lib, t, i) && blockTypes[i] == BlockAcc(lib, t, i)
    ensures forall i: nat, ty | i < |t.d| :: ty in emitTypes[i] <==> exists a: nat :: Reaches(lib, t, ty, a, i)
    ensures forall i: nat | i < |t.d| ::
              blockTypes[i] == if t.f[i].cache.Some? then lib.block(t.f[i].cfg) else {}
  {
    emitTypes := map[];
    var it: nat := 0;
    while it < |t.d|
      invariant 0 <= it <= |t.d|
      invariant forall i: nat :: i in emitTypes <==> i < it
      invariant forall i: nat | i < it :: emitTypes[i] == EmitAcc(lib, t, i)
    {
      var cfg := t.f[it].cfg;
      var curEmit;
      if t.d[it] == 0 {
        curEmit := lib.emit(cfg);
      } else {
        curEmit := emitTypes[Parent(t.d, it)];
        curEmit := curEmit * (ALL - lib.block(cfg));
        curEmit := curEmit + lib.emit(cfg);
      }
      assert curEmit == EmitAcc(lib, t, it) by { AllTypes(); }
      emitTypes := emitTypes[it := curEmit];
      it := it + 1;
    }
    blockTypes := AccumulatedBlockMap(lib, t);
    forall i: nat, ty | i < |t.d| ensures ty in emitTypes[i] <==> exists a: nat :: Reaches(lib, t, ty, a, i) {
      EmitAccExact(lib, t, i, ty);
    }
  }

  /** Level by level, deepest level first. */
  method AccumulatedBlockMap(lib: Library, t: Forest) returns (blockTypes: map<nat, set<Ty>>)
    requires ValidForest(t)
    ensures forall i: nat :: i in blockTypes <==> i < |t.d|
    ensures forall i: nat | i < |t.d| :: blockTypes[i] == BlockAcc(lib, t, i)
    ensures forall i: nat | i < |t.d| ::
              blockTypes[i] == if t.f[i].cache.Some? then lib.block(t.f[i].cfg) else {}
  {
    blockTypes := map[];
    var ui := MaxDepth(t.d) + 1;
    while ui > 0
      invariant 0 <= ui
      invariant forall i: nat :: i in blockTypes <==> i < |t.d| && ui <= t.d[i]
      invariant forall i: nat | i in blockTypes :: blockTypes[i] == BlockAcc(lib, t, i)
    {
      ui := ui - 1;
      var it: nat := 0;
      while it < |t.d|
        invariant 0 <= it <= |t.d|
        invariant forall i: nat :: i in blockTypes <==> i < |t.d| && (ui < t.d[i] || (ui == t.d[i] && i < it))
        invariant forall i: nat | i in blockTypes :: blockTypes[i] == BlockAcc(lib, t, i)
      {
        if t.d[it] == ui {
          // Reached once for each filter: its level comes round only once.
          assert it !in blockTypes;
          var mask := BlockMaskOf(lib, t, it);
          blockTypes := blockTypes[it := mask];
        }
        it := it + 1;
      }
    }
  }

  /** The mask of one filter: the children's masks are and-ed into an empty mask
      before the filter's own is or-ed in. */
  method BlockMaskOf(lib: Library, t: Forest, i: nat) returns (mask: set<Ty>)
    requires ValidForest(t) && i < |t.d|
    ensures mask == BlockAcc(lib, t, i) == if t.f[i].cache.Some? then lib.block(t.f[i].cfg) else {}
  {
    mask := {};
    if t.f[i].cache.Some? {
      var j := if IsLeaf(t.d, i) then -1 else i + 1;
      while j != -1
        invariant -1 <= j < |t.d|
        invariant mask == {}
        decreases if j == -1 then 0 else |t.d| - j
      {
        if t.f[j].cache.None? {
          mask := mask * {};
          break;
        }
        mask := mask * lib.block(t.f[j].cfg);
        j := NextSibling(t.d, j);
      }
      mask := mask + lib.block(t.f[i].cfg);
    }
  }

  /** Filter `i` may emit a type that some child lets through. */
  ghost predicate Leaks(lib: Library, t: Forest, i: nat)
    requires ValidForest(t) && i < |t.d|
  {
    exists c: nat | c < |t.d| && Parent(t.d, c) == i :: !(EmitAcc(lib, t, i) <= BlockAcc(lib, t, c))
  }

  /** The walk cannot go past `i`. */
  ghost predicate Stops(lib: Library, t: Forest, i: nat)
    requires ValidForest(t) && i < |t.d|
  {
    IsLeaf(t.d, i) || Leaks(lib, t, i)
  }

  /** The walk has to stop at `i`: it is a leaf, or some type that starts at or above it
      and that no filter on the way down to it stops is let through by a child, because
      the child has no cache or does not block the type. */
  ghost predicate MustStop(lib: Library, t: Forest, i: nat)
    requires ValidForest(t) && i < |t.d|
  {
    IsLeaf(t.d, i) ||
    exists ty, a: nat, c: nat :: LetThrough(lib, t, ty, a, i, c)
  }

  ghost predicate LetThrough(lib: Library, t: Forest, ty: Ty, a: nat, i: nat, c: nat)
    requires ValidForest(t) && i < |t.d|
  {
    && Reaches(lib, t, ty, a, i)
    && c < |t.d| && Parent(t.d, c) == i && (t.f[c].cache.None? || ty !in lib.block(t.f[c].cfg))
  }

  lemma StopsExact(lib: Library, t: Forest, i: nat)
    requires ValidForest(t) && i < |t.d|
    ensures Stops(lib, t, i) <==> MustStop(lib, t, i)
  {
    hide Reaches, EmitAcc, Parent, IsLeaf;
    if c: nat :| c < |t.d| && Parent(t.d, c) == i && !(EmitAcc(lib, t, i) <= BlockAcc(lib, t, c)) {
      var ty :| ty in EmitAcc(lib, t, i) && ty !in BlockAcc(lib, t, c);
      EmitAccExact(lib, t, i, ty);
      var a: nat :| Reaches(lib, t, ty, a, i);
      assert LetThrough(lib, t, ty, a, i, c);
    }
    if ty, a: nat, c: nat :| LetThrough(lib, t, ty, a, i, c) {
      EmitAccExact(lib, t, i, ty);
    }
  }

  ghost predicate IsTopStop(lib: Library, t: Forest, i: nat)
    requires ValidForest(t) && i < |t.d|
  {
    MustStop(lib, t, i) && forall a: nat | Below(t.d, a, i) :: !MustStop(lib, t, a)
  }

  lemma TopStopIs(lib: Library, t: Forest, i: nat)
    requires ValidForest(t) && i < |t.d|
    ensures forall a: nat | Below(t.d, a, i) :: a < |t.d|
    ensures IsTopStop(lib, t, i) <==> MustStop(lib, t, i) && forall a: nat | Below(t.d, a, i) :: !MustStop(lib, t, a)
  {
    hide MustStop;
  }

  /** The seeds are the topmost filters where the walk has to stop. */
  lemma SeedExact(lib: Library, t: Forest, i: nat)
    requires ValidForest(t) && i < |t.d|
    ensures IsSeed(lib, t, i) <==> IsTopStop(lib, t, i)
  {
    hide *;
    StopsExact(lib, t, i);
    TopStopIs(lib, t, i);
    forall a: nat | Below(t.d, a, i) ensures a < |t.d| && (Stops(lib, t, a) <==> MustStop(lib, t, a)) {
      BelowIsBefore(t.d, a, i);
      StopsExact(lib, t, a);
    }
    SeedIs(lib, t, i);
  }

  lemma SeedIs(lib: Library, t: Forest, i: nat)
    requires ValidForest(t) && i < |t.d|
    ensures forall a: nat | Below(t.d, a, i) :: a < |t.d|
    ensures IsSeed(lib, t, i) <==> Stops(lib, t, i) && forall a: nat | Below(t.d, a, i) :: !Stops(lib, t, a)
  {
    hide Stops;
  }

  /** The topmost filters where the walk has to stop. */
  ghost predicate IsSeed(lib: Library, t: Forest, i: nat)
    requires ValidForest(t) && i < |t.d|
  {
    Stops(lib, t, i) && forall a: nat | Below(t.d, a, i) :: !Stops(lib, t, a)
  }

  method ChildrenBlockMask(lib: Library, t: Forest, i: nat, blockTypes: map<nat, set<Ty>>) returns (mask: set<Ty>)
    requires ValidForest(t) && i < |t.d|
    requires forall k: nat | k < |t.d| :: k in blockTypes && blockTypes[k] == BlockAcc(lib, t, k)
    ensures forall ty :: ty in mask <==> forall c: nat | c < |t.d| && Parent(t.d, c) == i :: ty in BlockAcc(lib, t, c)
  {
    AllTypes();
    mask := ALL;
    var c := if IsLeaf(t.d, i) then -1 else i + 1;
    if c == -1 {
      forall k: nat | k < |t.d| ensures Parent(t.d, k) != i {
        if Parent(t.d, k) >= 0 { ParentIsInner(t.d, k); }
      }
    } else {
      FirstChild(t.d, i);
    }
    ghost var seen: int := i;
    while c != -1
      invariant -1 <= c < |t.d|
      invariant c != -1 ==> seen < c && Parent(t.d, c) == i
      invariant forall k: nat | k < |t.d| && Parent(t.d, k) == i :: k <= seen || (c != -1 && c <= k)
      invariant forall ty :: ty in mask <==> forall k: nat | k < |t.d| && k <= seen && Parent(t.d, k) == i :: ty in BlockAcc(lib, t, k)
      decreases if c == -1 then 0 else |t.d| - c
    {
      mask := mask * blockTypes[c];
      seen := c;
      forall k: nat | c < k < |t.d| && Parent(t.d, k) == i
        ensures NextSibling(t.d, c) != -1 && NextSibling(t.d, c) <= k
      {
        SiblingsCover(t.d, c, k);
      }
      if NextSibling(t.d, c) != -1 { NextSiblingHasParent(t.d, c); }
      c := NextSibling(t.d, c);
    }
  }

  method GetFilterRefreshStarts(lib: Library, t: Forest) returns (seeds: seq<nat>)
    requires ValidForest(t)
    ensures forall i: nat :: i in seeds <==> i < |t.d| && IsSeed(lib, t, i)
    ensures forall i: nat :: i in seeds <==> i < |t.d| && IsTopStop(lib, t, i)
    ensures forall i, j | 0 <= i < j < |seeds| :: seeds[i] < seeds[j]
  {
    hide *;
    forall i: nat | i < |t.d| ensures IsSeed(lib, t, i) <==> IsTopStop(lib, t, i) { SeedExact(lib, t, i); }
    seeds := [];
    if |t.d| == 0 {
      return;
    }
    var emitTypes, blockTypes := GetAccumulatedPropagationMaps(lib, t);
    ValidLets(t);
    var it: nat := 0;
    while it < |t.d|
      invariant 0 <= it <= |t.d|
      invariant forall i: nat :: i in seeds <==> i < it && IsSeed(lib, t, i)
      invariant forall i | 0 <= i < |seeds| :: seeds[i] < it
      invariant forall i, j | 0 <= i < j < |seeds| :: seeds[i] < seeds[j]
    {
      var isChildFilt := false;
      for ui := 0 to |seeds|
        invariant isChildFilt <==> exists k: nat :: k < ui && Below(t.d, seeds[k], it)
      {
        var below := IsChild(t.d, seeds[ui], it);
        if below {
          isChildFilt := true;
        }
      }
      SeedDecision(lib, t, it, seeds);
      if !isChildFilt {
        if IsLeaf(t.d, it) {
          seeds := seeds + [it];
        } else {
          var mask := ChildrenBlockMask(lib, t, it, blockTypes);
          LeaksByMask(lib, t, it, mask);
          if emitTypes[it] * (ALL - mask) != {} {
            seeds := seeds + [it];
          }
        }
      }
      it := it + 1;
    }
  }

  /** Whether the node scanned next is a seed, given the seeds before it. */
  lemma SeedDecision(lib: Library, t: Forest, it: nat, seeds: seq<nat>)
    requires ValidForest(t) && it < |t.d|
    requires forall i: nat :: i in seeds <==> i < it && IsSeed(lib, t, i)
    ensures (exists k: nat :: k < |seeds| && Below(t.d, seeds[k], it)) ==> !IsSeed(lib, t, it)
    ensures !(exists k: nat :: k < |seeds| && Below(t.d, seeds[k], it)) ==>
              (IsSeed(lib, t, it) <==> IsLeaf(t.d, it) || Leaks(lib, t, it))
  {
    UnderSeedIffUnderStop(lib, t, it);
    hide Leaks, Below, IsLeaf;
    if k: nat :| k < |seeds| && Below(t.d, seeds[k], it) {
      assert seeds[k] in seeds;
    } else if a: nat :| Below(t.d, a, it) && IsSeed(lib, t, a) {
      BelowIsBefore(t.d, a, it);
    }
  }

  lemma BelowIsBefore(d: seq<nat>, a: nat, i: nat)
    requires i < |d| && Below(d, a, i)
    ensures a < i
  {
  }

  /** A filter leaks exactly if some type of its emit mask is not blocked by all children. */
  lemma LeaksByMask(lib: Library, t: Forest, i: nat, mask: set<Ty>)
    requires ValidForest(t) && i < |t.d|
    requires forall ty :: ty in mask <==> forall c: nat | c < |t.d| && Parent(t.d, c) == i :: ty in BlockAcc(lib, t, c)
    ensures Leaks(lib, t, i) <==> EmitAcc(lib, t, i) * (ALL - mask) != {}
  {
    AllTypes();
    hide EmitAcc, BlockAcc, Parent;
    var open := EmitAcc(lib, t, i) * (ALL - mask);
    if ty :| ty in open {
      var c: nat :| c < |t.d| && Parent(t.d, c) == i && ty !in BlockAcc(lib, t, c);
    }
    if c: nat :| c < |t.d| && Parent(t.d, c) == i && !(EmitAcc(lib, t, i) <= BlockAcc(lib, t, c)) {
      var ty :| ty in EmitAcc(lib, t, i) && ty !in BlockAcc(lib, t, c);
      assert ty in open;
    }
  }

  /** Having a stop above and having a seed above are the same. */
  lemma {:induction false} UnderSeedIffUnderStop(lib: Library, t: Forest, i: nat)
    requires ValidForest(t) && i < |t.d|
    ensures (exists a: nat :: Below(t.d, a, i) && IsSeed(lib, t, a)) <==>
            (exists a: nat :: Below(t.d, a, i) && Stops(lib, t, a))
  {
    if a: nat :| Below(t.d, a, i) && Stops(lib, t, a) {
      UnderSeedIffUnderStop(lib, t, a);
      if exists b: nat :: Below(t.d, b, a) && IsSeed(lib, t, b) {
        var b: nat :| Below(t.d, b, a) && IsSeed(lib, t, b);
        BelowTrans(t.d, b, a, i);
      } else {
        assert IsSeed(lib, t, a);
      }
    }
  }

  /** No seed lies under another. */
  lemma SeedsAreUnrelated(lib: Library, t: Forest, i: nat, j: nat)
    requires ValidForest(t) && i < |t.d| && j < |t.d|
    requires IsSeed(lib, t, i) && IsSeed(lib, t, j)
    ensures !Below(t.d, i, j)
  {
  }

  /** Every leaf lies under exactly one seed. */
  lemma LeafHasOneSeed(lib: Library, t: Forest, leaf: nat) returns (s: nat)
    requires ValidForest(t) && leaf < |t.d| && IsLeaf(t.d, leaf)
    ensures s < |t.d| && IsSeed(lib, t, s) && Within(t.d, s, leaf)
    ensures forall r: nat | r < |t.d| && IsSeed(lib, t, r) && Within(t.d, r, leaf) :: r == s
  {
    UnderSeedIffUnderStop(lib, t, leaf);
    if a: nat :| Below(t.d, a, leaf) && IsSeed(lib, t, a) {
      s := a;
    } else {
      s := leaf;
    }
    forall r: nat | r < |t.d| && IsSeed(lib, t, r) && Within(t.d, r, leaf) ensures r == s {
      if r < s {
        AncestorsNest(t.d, r, s, leaf);
      } else if s < r {
        AncestorsNest(t.d, s, r, leaf);
      }
    }
  }

  /** Everything a filter above a seed can emit is blocked by each of its
      children, and each child that has something to block is cached. */
  lemma AboveSeedIsBlocked(lib: Library, t: Forest, s: nat, a: nat, c: nat)
    requires ValidForest(t) && s < |t.d| && IsSeed(lib, t, s) && Below(t.d, a, s)
    requires c < |t.d| && Parent(t.d, c) == a
    ensures EmitAcc(lib, t, a) <= BlockAcc(lib, t, c)
    ensures EmitAcc(lib, t, a) != {} ==> t.f[c].cache.Some?
  {
    assert !Leaks(lib, t, a);
  }
}
