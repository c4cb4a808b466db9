/** The last step of a refresh: every stream is shown once. */
module Scrub {
  import opened Counting

  /** `v` without the streams already in `seen`, each remaining one once. */
  function Fresh<T(==)>(v: seq<T>, seen: set<T>): seq<T> {
    if v == [] then []
    else if v[0] in seen then Fresh(v[1..], seen)
    else [v[0]] + Fresh(v[1..], seen + {v[0]})
  }

  lemma {:induction false} FreshElements<T(!new)>(v: seq<T>, seen: set<T>)
    ensures NoDup(Fresh(v, seen)) && forall x :: x in Fresh(v, seen) <==> x in v && x !in seen
  {
    if v != [] {
      FreshElements(v[1..], seen);
      FreshElements(v[1..], seen + {v[0]});
    }
  }

  function Scrubbed<T(==)>(o: seq<(nat, seq<T>)>, seen: set<T>): seq<(nat, seq<T>)> {
    if o == [] then []
    else
      var v := Fresh(o[0].1, seen);
      (if v == [] then [] else [(o[0].0, v)]) + Scrubbed(o[1..], seen + Elements(v))
  }

  /** All streams of an output list, in order. */
  function Flat<T>(o: seq<(nat, seq<T>)>): seq<T> {
    if o == [] then [] else o[0].1 + Flat(o[1..])
  }

  /** What scrubbing is for: read in order, the list holds each stream that was
      in it exactly once, at its first place, and no entry is empty. */
  lemma {:induction false} ScrubbedExact<T>(o: seq<(nat, seq<T>)>, seen: set<T>)
    ensures Flat(Scrubbed(o, seen)) == Fresh(Flat(o), seen)
    ensures forall e | e in Scrubbed(o, seen) :: e.1 != []
  {
    if o != [] {
      var v := Fresh(o[0].1, seen);
      var seen' := seen + Elements(v);
      var rest := Scrubbed(o[1..], seen');
      ScrubbedExact(o[1..], seen');
      FlatCons(o[0].0, v, rest);
      FreshConcat(o[0].1, Flat(o[1..]), seen);
    }
  }

  /** The stream at place p of entry k is new: it is not in seen, in no entry before, and
      not before its place. */
  ghost predicate NewAt<T>(o: seq<(nat, seq<T>)>, seen: set<T>, k: nat, p: nat)
    requires k < |o| && p < |o[k].1|
  {
    var x := o[k].1[p];
    x !in seen && (forall h | 0 <= h < k :: x !in o[h].1) && x !in o[k].1[..p]
  }

  ghost function NewPlaces<T(!new)>(o: seq<(nat, seq<T>)>, seen: set<T>, k: nat): (s: set<nat>)
    requires k < |o|
    ensures forall p: nat :: p in s <==> p < |o[k].1| && NewAt(o, seen, k, p)
  {
    set p: nat | p < |o[k].1| && NewAt(o, seen, k, p)
  }

  ghost predicate EntryScrubbed<T(!new)>(o: seq<(nat, seq<T>)>, seen: set<T>, k: nat, v: seq<T>)
    requires k < |o|
  {
    exists pos :: IsPicked(o[k].1, NewPlaces(o, seen, k), pos, v)
  }

  /** The entries that have something new, in order and under their own numbers, each
      with just its new streams. */
  ghost predicate ScrubbedTo<T(!new)>(o: seq<(nat, seq<T>)>, seen: set<T>, idx: seq<nat>, r: seq<(nat, seq<T>)>) {
    && |idx| == |r|
    && (forall j, k | 0 <= j < k < |idx| :: idx[j] < idx[k])
    && (forall k: nat :: k in idx <==> k < |o| && NewPlaces(o, seen, k) != {})
    && forall j | 0 <= j < |idx| :: idx[j] < |o| && r[j].0 == o[idx[j]].0 && EntryScrubbed(o, seen, idx[j], r[j].1)
  }

  ghost predicate IsScrubbed<T(!new)>(o: seq<(nat, seq<T>)>, r: seq<(nat, seq<T>)>) {
    exists idx :: ScrubbedTo(o, {}, idx, r)
  }

  ghost function FirstPlaces<T(!new)>(v: seq<T>, seen: set<T>): (s: set<nat>)
    ensures forall p: nat :: p in s <==> p < |v| && v[p] !in seen && v[p] !in v[..p]
  {
    set p: nat | p < |v| && v[p] !in seen && v[p] !in v[..p]
  }

  /** The streams of one entry that are kept. */
  lemma {:induction false} FreshExact<T(!new)>(v: seq<T>, seen: set<T>) returns (pos: seq<nat>)
    ensures IsPicked(v, FirstPlaces(v, seen), pos, Fresh(v, seen))
  {
    if v == [] {
      pos := [];
    } else {
      var w, known := v[1..], v[0] in seen;
      var inner := FreshExact(w, if known then seen else seen + {v[0]});
      pos := (if known then [] else [0]) + Raised(inner);
      forall p: nat ensures p in FirstPlaces(v, seen) <==>
        if p == 0 then !known else p - 1 in FirstPlaces(w, if known then seen else seen + {v[0]})
      {
        if 0 < p < |v| { assert v[..p] == [v[0]] + w[..p - 1] && v[p] == w[p - 1]; }
      }
      FreshStep(v, seen);
      assert v == [v[0]] + w;
      hide *;
      PickFirst(v[0], w, FirstPlaces(w, if known then seen else seen + {v[0]}), inner,
                Fresh(w, if known then seen else seen + {v[0]}), !known, FirstPlaces(v, seen));
      assert [] + Fresh(w, seen) == Fresh(w, seen);
    }
  }

  /** Scrubbing, entry by entry and place by place. */
  lemma {:induction false} ScrubbedPlaces<T(!new)>(o: seq<(nat, seq<T>)>, seen: set<T>) returns (idx: seq<nat>)
    ensures ScrubbedTo(o, seen, idx, Scrubbed(o, seen))
  {
    if o == [] {
      idx := [];
    } else {
      var v := Fresh(o[0].1, seen);
      var inner := ScrubbedPlaces(o[1..], seen + Elements(v));
      idx := (if v == [] then [] else [0]) + Raised(inner);
      ScrubbedMore(o, seen, inner, Scrubbed(o[1..], seen + Elements(v)));
    }
  }

  lemma LaterNew<T(!new)>(o: seq<(nat, seq<T>)>, seen: set<T>, k: nat)
    requires 0 < k < |o|
    ensures NewPlaces(o, seen, k) == NewPlaces(o[1..], seen + Elements(Fresh(o[0].1, seen)), k - 1)
  {
    var seen', rest := seen + Elements(Fresh(o[0].1, seen)), o[1..];
    FreshElements(o[0].1, seen);
    assert rest[k - 1] == o[k];
    forall p: nat | p < |o[k].1| ensures NewAt(o, seen, k, p) <==> NewAt(rest, seen', k - 1, p) {
      var x := o[k].1[p];
      assert (forall h | 0 <= h < k :: x !in o[h].1) <==> x !in o[0].1 && forall h | 0 <= h < k - 1 :: x !in rest[h].1 by {
        assert forall h | 0 <= h < k - 1 :: rest[h] == o[h + 1];
        assert forall h | 1 <= h < k :: o[h] == rest[h - 1];
      }
    }
  }

  lemma FirstNew<T(!new)>(o: seq<(nat, seq<T>)>, seen: set<T>)
    requires o != []
    ensures EntryScrubbed(o, seen, 0, Fresh(o[0].1, seen))
    ensures NewPlaces(o, seen, 0) == {} <==> Fresh(o[0].1, seen) == []
  {
    var v := o[0].1;
    var pos := FreshExact(v, seen);
    assert NewPlaces(o, seen, 0) == FirstPlaces(v, seen);
    assert Fresh(v, seen) != [] ==> pos[0] in pos;
  }

  lemma ScrubbedMore<T(!new)>(o: seq<(nat, seq<T>)>, seen: set<T>, inner: seq<nat>, rest: seq<(nat, seq<T>)>)
    requires o != []
    requires ScrubbedTo(o[1..], seen + Elements(Fresh(o[0].1, seen)), inner, rest)
    ensures var v := Fresh(o[0].1, seen);
            ScrubbedTo(o, seen, (if v == [] then [] else [0]) + Raised(inner),
                       (if v == [] then [] else [(o[0].0, v)]) + rest)
  {
    hide *;
    FirstNew(o, seen);
    LaterEntries(o, seen, inner, rest);
    LaterIndices(o, seen, inner, rest);
    HeadEntry(o, seen, Fresh(o[0].1, seen), Raised(inner), rest);
  }

  lemma HeadEntry<T(!new)>(o: seq<(nat, seq<T>)>, seen: set<T>, v: seq<T>, later: seq<nat>, rest: seq<(nat, seq<T>)>)
    requires o != [] && (NewPlaces(o, seen, 0) == {} <==> v == []) && EntryScrubbed(o, seen, 0, v)
    requires forall k: nat :: k in later <==> 0 < k < |o| && NewPlaces(o, seen, k) != {}
    requires forall j, k | 0 <= j < k < |later| :: later[j] < later[k]
    requires |later| == |rest| && forall j | 0 <= j < |rest| ::
               later[j] < |o| && rest[j].0 == o[later[j]].0 && EntryScrubbed(o, seen, later[j], rest[j].1)
    ensures ScrubbedTo(o, seen, (if v == [] then [] else [0]) + later, (if v == [] then [] else [(o[0].0, v)]) + rest)
  {
    hide *;
    forall j | 0 <= j < |later| ensures later[j] in later {}
    if v == [] {
      assert [] + later == later && [] + rest == rest;
      ScrubbedToIs(o, seen, later, rest);
    } else {
      ScrubbedToIs(o, seen, [0] + later, [(o[0].0, v)] + rest);
    }
  }

  lemma RaisedLength(s: seq<nat>)
    ensures |Raised(s)| == |s| && forall i | 0 <= i < |s| :: Raised(s)[i] == s[i] + 1
  {
  }

  lemma LaterIndices<T(!new)>(o: seq<(nat, seq<T>)>, seen: set<T>, inner: seq<nat>, rest: seq<(nat, seq<T>)>)
    requires o != []
    requires ScrubbedTo(o[1..], seen + Elements(Fresh(o[0].1, seen)), inner, rest)
    ensures forall k: nat :: k in Raised(inner) <==> 0 < k < |o| && NewPlaces(o, seen, k) != {}
    ensures forall j, k | 0 <= j < k < |Raised(inner)| :: Raised(inner)[j] < Raised(inner)[k]
  {
    hide *;
    ScrubbedToIs(o[1..], seen + Elements(Fresh(o[0].1, seen)), inner, rest);
    RaisedLength(inner);
    forall k: nat ensures k in Raised(inner) <==> 0 < k < |o| && NewPlaces(o, seen, k) != {} {
      RaisedHas(inner, k);
      if 0 < k < |o| { LaterNew(o, seen, k); }
    }
  }

  lemma LaterEntries<T(!new)>(o: seq<(nat, seq<T>)>, seen: set<T>, inner: seq<nat>, rest: seq<(nat, seq<T>)>)
    requires o != []
    requires ScrubbedTo(o[1..], seen + Elements(Fresh(o[0].1, seen)), inner, rest)
    ensures |Raised(inner)| == |rest|
    ensures forall j | 0 <= j < |rest| :: Raised(inner)[j] < |o| && rest[j].0 == o[Raised(inner)[j]].0
                                          && EntryScrubbed(o, seen, Raised(inner)[j], rest[j].1)
  {
    hide *;
    ScrubbedToIs(o[1..], seen + Elements(Fresh(o[0].1, seen)), inner, rest);
    RaisedLength(inner);
    forall j | 0 <= j < |rest|
      ensures Raised(inner)[j] < |o| && rest[j].0 == o[Raised(inner)[j]].0
      ensures EntryScrubbed(o, seen, Raised(inner)[j], rest[j].1)
    {
      assert o[1..][inner[j]] == o[inner[j] + 1];
      LaterScrubbed(o, seen, inner[j] + 1, rest[j].1);
    }
  }

  lemma LaterScrubbed<T(!new)>(o: seq<(nat, seq<T>)>, seen: set<T>, k: nat, v: seq<T>)
    requires 0 < k < |o| && EntryScrubbed(o[1..], seen + Elements(Fresh(o[0].1, seen)), k - 1, v)
    ensures EntryScrubbed(o, seen, k, v)
  {
    LaterNew(o, seen, k);
    hide NewPlaces, IsPicked, Fresh;
    var pos :| IsPicked(o[1..][k - 1].1, NewPlaces(o[1..], seen + Elements(Fresh(o[0].1, seen)), k - 1), pos, v);
  }

  lemma ScrubbedToIs<T(!new)>(o: seq<(nat, seq<T>)>, seen: set<T>, idx: seq<nat>, r: seq<(nat, seq<T>)>)
    ensures ScrubbedTo(o, seen, idx, r) <==>
      && |idx| == |r|
      && (forall j, k | 0 <= j < k < |idx| :: idx[j] < idx[k])
      && (forall k: nat :: k in idx <==> k < |o| && NewPlaces(o, seen, k) != {})
      && forall j | 0 <= j < |idx| :: idx[j] < |o| && r[j].0 == o[idx[j]].0 && EntryScrubbed(o, seen, idx[j], r[j].1)
  {
    hide EntryScrubbed, NewPlaces;
  }

  /** Nothing is shown that was not there. */
  lemma {:induction false} ScrubbedWithin<T(!new)>(o: seq<(nat, seq<T>)>, seen: set<T>, all: set<T>)
    requires forall k, x | 0 <= k < |o| && x in o[k].1 :: x in all
    ensures forall k, x | 0 <= k < |Scrubbed(o, seen)| && x in Scrubbed(o, seen)[k].1 :: x in all
  {
    if o != [] {
      FreshElements(o[0].1, seen);
      assert o[0].1 == o[..][0].1;
      ScrubbedWithin(o[1..], seen + Elements(Fresh(o[0].1, seen)), all);
    }
  }

  lemma FlatCons<T>(id: nat, v: seq<T>, rest: seq<(nat, seq<T>)>)
    ensures Flat((if v == [] then [] else [(id, v)]) + rest) == v + Flat(rest)
  {
    var o := (if v == [] then [] else [(id, v)]) + rest;
    if v == [] {
      assert o == rest;
    } else {
      assert o[1..] == rest;
    }
  }

  lemma {:induction false} FreshConcat<T>(a: seq<T>, b: seq<T>, seen: set<T>)
    ensures Fresh(a + b, seen) == Fresh(a, seen) + Fresh(b, seen + Elements(Fresh(a, seen)))
  {
    if a == [] {
      assert a + b == b;
      assert seen + Elements(Fresh(a, seen)) == seen;
    } else {
      assert (a + b)[1..] == a[1..] + b;
      if a[0] in seen {
        FreshConcat(a[1..], b, seen);
      } else {
        FreshConcat(a[1..], b, seen + {a[0]});
        var rest := Fresh(a[1..], seen + {a[0]});
        assert seen + Elements([a[0]] + rest) == seen + {a[0]} + Elements(rest);
      }
    }
  }

  /** One entry: an element seen before is erased, any other is remembered. */
  method ScrubEntry<T(==)>(v: seq<T>, seen: set<T>) returns (r: seq<T>, seen': set<T>)
    ensures r == Fresh(v, seen) && seen' == seen + Elements(r)
  {
    r, seen' := v, seen;
    var it := 0;
    ghost var done: seq<T>, rest := [], v;
    while it < |r|
      invariant r == done + rest && it == |done|
      invariant Fresh(v, seen) == done + Fresh(rest, seen')
      invariant seen' == seen + Elements(done)
      decreases |r| - it
    {
      assert r[it] == rest[0];
      FreshStep(rest, seen');
      if r[it] !in seen' {
        seen' := seen' + {r[it]};
        assert Elements(done + [rest[0]]) == Elements(done) + {rest[0]};
        assert done + ([rest[0]] + Fresh(rest[1..], seen')) == done + [rest[0]] + Fresh(rest[1..], seen');
        done, rest := done + [rest[0]], rest[1..];
        it := it + 1;
      } else {
        assert r[..it] == done && r[it + 1..] == rest[1..];
        r := r[..it] + r[it + 1..];
        rest := rest[1..];
      }
    }
    assert rest == [];
  }

  lemma FreshStep<T>(v: seq<T>, seen: set<T>)
    requires v != []
    ensures v[0] in seen ==> Fresh(v, seen) == Fresh(v[1..], seen)
    ensures v[0] !in seen ==> Fresh(v, seen) == [v[0]] + Fresh(v[1..], seen + {v[0]})
  {
  }

  /** The nested erase loops over the output list. */
  method ScrubOutput<T(==, !new)>(outData: seq<(nat, seq<T>)>) returns (r: seq<(nat, seq<T>)>)
    ensures r == Scrubbed(outData, {}) && IsScrubbed(outData, r)
  {
    hide *;
    ScrubbedIs(outData);
    r := outData;
    var unique: set<T> := {};
    var it := 0;
    ghost var done: seq<(nat, seq<T>)>, rest := [], outData;
    assert [] + Scrubbed(outData, {}) == Scrubbed(outData, {});
    while it < |r|
      invariant it == |done| && r == done + rest
      invariant Scrubbed(outData, {}) == done + Scrubbed(rest, unique)
      decreases |r| - it
    {
      assert r[it] == rest[0];
      ScrubbedStep(rest, unique);
      var v, seen := ScrubEntry(r[it].1, unique);
      unique := seen;
      if v == [] {
        assert r[..it] == done && r[it + 1..] == rest[1..];
        r := r[..it] + r[it + 1..];
        rest := rest[1..];
      } else {
        var e := (r[it].0, v);
        assert (done + rest)[it := e] == done + [e] + rest[1..];
        assert done + ([e] + Scrubbed(rest[1..], unique)) == done + [e] + Scrubbed(rest[1..], unique);
        r := r[it := e];
        done, rest := done + [e], rest[1..];
        it := it + 1;
      }
    }
    assert rest == [] && r == done;
    NothingToScrub<T>(unique);
  }

  lemma ScrubbedStep<T>(o: seq<(nat, seq<T>)>, seen: set<T>)
    requires o != []
    ensures var v := Fresh(o[0].1, seen);
            Scrubbed(o, seen) == (if v == [] then [] else [(o[0].0, v)]) + Scrubbed(o[1..], seen + Elements(v))
    ensures Fresh(o[0].1, seen) == [] ==> Scrubbed(o, seen) == Scrubbed(o[1..], seen + Elements(Fresh(o[0].1, seen)))
  {
  }

  lemma ScrubbedIs<T(!new)>(o: seq<(nat, seq<T>)>)
    ensures IsScrubbed(o, Scrubbed(o, {}))
  {
    hide ScrubbedTo;
    var idx := ScrubbedPlaces(o, {});
  }

  lemma NothingToScrub<T>(seen: set<T>)
    ensures Scrubbed<T>([], seen) == []
  {
  }
}
