/** Streams, filters and the contract every filter keeps. */
module Filters {
  import opened Counting
  import PreOrder

  datatype Option<+T> = None | Some(value: T)

  /** The stream types a mask can name. */
  datatype Ty = Ions | Plot | Plot2D | Draw | Range | Voxel | OpenVdbGrid

  const ALL: set<Ty> := {Ions, Plot, Plot2D, Draw, Range, Voxel, OpenVdbGrid}

  lemma AllTypes()
    ensures forall ty: Ty :: ty in ALL
  {
    forall ty: Ty ensures ty in ALL {
      match ty
      case Ions => case Plot => case Plot2D => case Draw => case Range => case Voxel => case OpenVdbGrid =>
    }
  }

  /** What a stream says, as the filters below it read it. */
  datatype Payload = Payload(ty: Ty, data: int)

  /** A stream object. `born`, `origin` and `slot` are its address: the refresh
      and the filter that made it, and its place among that filter's streams.
      A cached stream belongs to its filter, any other to whoever holds it. */
  datatype Stream = Stream(born: nat, origin: nat, slot: nat, payload: Payload, cached: bool)

  /** `cfg` is the filter's kind and property values; `cache` its kept output. */
  datatype Filter = Filter(id: nat, cfg: int, cache: Option<seq<Stream>>)

  /** How a filter behaves for given property values: the types it may emit, the
      types it does not pass on, the streams it makes anew at every refresh
      (such as the handles of a selection device), the streams it computes from
      its input and may cache, and whether its own streams come first. */
  datatype Library = Library(
    emit: int -> set<Ty>,
    block: int -> set<Ty>,
    fixed: int -> seq<Payload>,
    gen: (int, seq<Payload>) -> seq<Payload>,
    ownFirst: int -> bool)

  /** The masks are consistent with what the filter emits. */
  ghost predicate Lawful(lib: Library) {
    && (forall cfg: int, p | p in lib.fixed(cfg) :: p.ty in lib.emit(cfg))
    && (forall cfg: int, input: seq<Payload>, p | p in lib.gen(cfg, input) :: p.ty in lib.emit(cfg))
  }

  /** The filters in pre-order, with their depths. */
  datatype Forest = Forest(d: seq<nat>, f: seq<Filter>)

  ghost predicate ValidForest(t: Forest) {
    |t.d| == |t.f| && PreOrder.Valid(t.d)
  }

  lemma ValidLets(t: Forest)
    requires ValidForest(t)
    ensures |t.d| == |t.f| && PreOrder.Valid(t.d)
  {
  }

  ghost predicate DistinctIds(t: Forest) {
    forall i, j | 0 <= i < j < |t.f| :: t.f[i].id != t.f[j].id
  }

  /** Where the filter with the given id is, or the number of filters. */
  function IndexOf(f: seq<Filter>, id: nat): (i: nat)
    ensures i <= |f| && (i < |f| ==> f[i].id == id) && forall k | 0 <= k < i :: f[k].id != id
  {
    if f == [] || f[0].id == id then 0 else 1 + IndexOf(f[1..], id)
  }

  function View(s: seq<Stream>): (r: seq<Payload>)
    ensures |r| == |s| && forall i | 0 <= i < |s| :: r[i] == s[i].payload
  {
    seq(|s|, i requires 0 <= i < |s| => s[i].payload)
  }

  /** The inputs that a filter with block mask `block` passes on. */
  function Pass(block: set<Ty>, s: seq<Stream>): (r: seq<Stream>)
    ensures forall x :: x in r <==> x in s && x.payload.ty !in block
    ensures (forall x | x in s :: x.payload.ty in block) ==> r == []
  {
    if s == [] then []
    else if s[|s| - 1].payload.ty in block then Pass(block, s[..|s| - 1])
    else Pass(block, s[..|s| - 1]) + [s[|s| - 1]]
  }

  function PassPayloads(block: set<Ty>, s: seq<Payload>): (r: seq<Payload>)
    ensures forall x :: x in r <==> x in s && x.ty !in block
  {
    if s == [] then []
    else if s[|s| - 1].ty in block then PassPayloads(block, s[..|s| - 1])
    else PassPayloads(block, s[..|s| - 1]) + [s[|s| - 1]]
  }

  lemma {:induction false} ViewPass(block: set<Ty>, s: seq<Stream>)
    ensures View(Pass(block, s)) == PassPayloads(block, View(s))
  {
    if s != [] {
      ViewPass(block, s[..|s| - 1]);
      assert View(s)[..|s| - 1] == View(s[..|s| - 1]);
    }
  }

  lemma PickedCount<T>(s: seq<T>, r: seq<T>, x: T)
    requires s != []
    ensures s == s[..|s| - 1] + [s[|s| - 1]]
    ensures multiset(s)[x] == multiset(s[..|s| - 1])[x] + if s[|s| - 1] == x then 1 else 0
    ensures multiset(r + [s[|s| - 1]])[x] == multiset(r)[x] + if s[|s| - 1] == x then 1 else 0
  {
    assert s == s[..|s| - 1] + [s[|s| - 1]];
  }

  /** The places of the streams that a block mask lets through. */
  function OpenPlaces(block: set<Ty>, s: seq<Stream>): (o: set<nat>)
    ensures forall k: nat :: k in o <==> k < |s| && s[k].payload.ty !in block
  {
    set k: nat | k < |s| && s[k].payload.ty !in block
  }

  function OpenPayloads(block: set<Ty>, s: seq<Payload>): (o: set<nat>)
    ensures forall k: nat :: k in o <==> k < |s| && s[k].ty !in block
  {
    set k: nat | k < |s| && s[k].ty !in block
  }

  /** What is passed on are the inputs that are not blocked, in their order. */
  lemma {:induction false} PassExact(block: set<Ty>, s: seq<Stream>) returns (idx: seq<nat>)
    ensures IsPicked(s, OpenPlaces(block, s), idx, Pass(block, s))
  {
    if s == [] {
      idx := [];
    } else {
      var n := |s| - 1;
      idx := PassExact(block, s[..n]);
      assert s == s[..n] + [s[n]];
      assert OpenPlaces(block, s) == OpenPlaces(block, s[..n]) + if s[n].payload.ty in block then {} else {n as nat};
      idx := PickNext(s[..n], OpenPlaces(block, s[..n]), idx, Pass(block, s[..n]), s[n], OpenPlaces(block, s));
    }
  }

  lemma {:induction false} PassPayloadsExact(block: set<Ty>, s: seq<Payload>) returns (idx: seq<nat>)
    ensures IsPicked(s, OpenPayloads(block, s), idx, PassPayloads(block, s))
  {
    if s == [] {
      idx := [];
    } else {
      var n := |s| - 1;
      idx := PassPayloadsExact(block, s[..n]);
      assert s == s[..n] + [s[n]];
      assert OpenPayloads(block, s) == OpenPayloads(block, s[..n]) + if s[n].ty in block then {} else {n as nat};
      idx := PickNext(s[..n], OpenPayloads(block, s[..n]), idx, PassPayloads(block, s[..n]), s[n], OpenPayloads(block, s));
    }
  }

  /** ... each as often as it comes in. */
  lemma {:induction false} PassCounts(block: set<Ty>, s: seq<Stream>, x: Stream)
    ensures multiset(Pass(block, s))[x] == if x.payload.ty in block then 0 else multiset(s)[x]
  {
    if s != [] {
      PassCounts(block, s[..|s| - 1], x);
      PickedCount(s, Pass(block, s[..|s| - 1]), x);
    }
  }

  lemma {:induction false} PassPayloadsCounts(block: set<Ty>, s: seq<Payload>, x: Payload)
    ensures multiset(PassPayloads(block, s))[x] == if x.ty in block then 0 else multiset(s)[x]
  {
    if s != [] {
      PassPayloadsCounts(block, s[..|s| - 1], x);
      PickedCount(s, PassPayloads(block, s[..|s| - 1]), x);
    }
  }

  lemma ViewConcat(a: seq<Stream>, b: seq<Stream>)
    ensures View(a + b) == View(a) + View(b)
  {
  }

  /** The loop of `propagateStreams` with an inverted mask. */
  method PropagateStreams(input: seq<Stream>, block: set<Ty>, output: seq<Stream>) returns (r: seq<Stream>)
    ensures r == output + Pass(block, input)
  {
    r := output;
    assert input[..0] == [];
    for i := 0 to |input|
      invariant r == output + Pass(block, input[..i])
    {
      assert input[..i + 1][..i] == input[..i];
      AllTypes();
      if input[i].payload.ty in ALL - block {
        r := r + [input[i]];
      }
    }
    assert input[..|input|] == input;
  }
}
