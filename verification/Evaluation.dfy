/** What a refresh computes: evaluation from scratch, evaluation that uses the
    caches and starts at chosen filters, and why the two agree. */
module Evaluation {
  import opened Counting
  import opened Filters
  import opened PreOrder
  import opened Propagation

  /** One refresh: the filters' behaviour, the number that marks the streams it
      makes, and which filters may cache (by id). */
  datatype Refresh = Refresh(lib: Library, epoch: nat, keep: nat -> bool)

  function Join<T>(ownFirst: bool, own: seq<T>, passed: seq<T>): seq<T> {
    if ownFirst then own + passed else passed + own
  }

  // ---- Evaluation from scratch, on contents alone ----

  function PureOwn(lib: Library, cfg: int, input: seq<Payload>): seq<Payload> {
    lib.fixed(cfg) + lib.gen(cfg, input)
  }

  function PureIn(lib: Library, t: Forest, i: nat): seq<Payload>
    requires ValidForest(t) && i < |t.d|
    decreases i, 0
  {
    var p := Parent(t.d, i);
    if p == -1 then [] else PureOut(lib, t, p)
  }

  function PureOut(lib: Library, t: Forest, i: nat): seq<Payload>
    requires ValidForest(t) && i < |t.d|
    decreases i, 1
  {
    var cfg, input := t.f[i].cfg, PureIn(lib, t, i);
    Join(lib.ownFirst(cfg), PureOwn(lib, cfg, input), PassPayloads(lib.block(cfg), input))
  }

  /** What a filter gives out, on contents: its own payloads, and before or after them
      the inputs that it does not block, in their order. */
  ghost predicate GivesPayloads(lib: Library, cfg: int, input: seq<Payload>, out: seq<Payload>) {
    exists passed, idx ::
      && IsPicked(input, OpenPayloads(lib.block(cfg), input), idx, passed)
      && out == if lib.ownFirst(cfg) then lib.fixed(cfg) + lib.gen(cfg, input) + passed
                else passed + (lib.fixed(cfg) + lib.gen(cfg, input))
  }

  /** From scratch a filter reads what its parent gives out, and a root nothing. */
  lemma PureOutExact(lib: Library, t: Forest, i: nat)
    requires ValidForest(t) && i < |t.d|
    ensures PureIn(lib, t, i) == if Parent(t.d, i) == -1 then [] else PureOut(lib, t, Parent(t.d, i))
    ensures GivesPayloads(lib, t.f[i].cfg, PureIn(lib, t, i), PureOut(lib, t, i))
  {
    hide IsPicked;
    var idx := PassPayloadsExact(lib.block(t.f[i].cfg), PureIn(lib, t, i));
  }

  /** Filter `a` makes p, and no filter on the way down to `i` stops it. */
  ghost predicate Carried(lib: Library, t: Forest, p: Payload, a: nat, i: nat)
    requires ValidForest(t) && i < |t.d|
  {
    && Within(t.d, a, i)
    && (p in lib.fixed(t.f[a].cfg) || p in lib.gen(t.f[a].cfg, PureIn(lib, t, a)))
    && forall k | a < k <= i && Within(t.d, k, i) :: p.ty !in lib.block(t.f[k].cfg)
  }

  /** What leaves a filter is just what some filter at or above it makes and nothing
      strictly below that filter blocks. */
  lemma {:induction false} PureOutByPath(lib: Library, t: Forest, i: nat, p: Payload)
    requires ValidForest(t) && i < |t.d|
    ensures p in PureOut(lib, t, i) <==> exists a: nat :: Carried(lib, t, p, a, i)
  {
    var q := Parent(t.d, i);
    forall k: nat {
      BelowByParent(t.d, k, i);
    }
    var mine := p in lib.fixed(t.f[i].cfg) || p in lib.gen(t.f[i].cfg, PureIn(lib, t, i));
    if mine { assert Carried(lib, t, p, i, i); }
    if q != -1 {
      PureOutByPath(lib, t, q, p);
      if !mine && p in PureOut(lib, t, i) {
        var a: nat :| Carried(lib, t, p, a, q);
        assert Carried(lib, t, p, a, i);
      } else if !mine && exists a: nat :: Carried(lib, t, p, a, i) {
        var a: nat :| Carried(lib, t, p, a, i);
        assert Carried(lib, t, p, a, q);
      }
    }
  }

  // ---- Evaluation with caches ----

  function Mint(epoch: nat, origin: nat, slot: nat, ps: seq<Payload>, cached: bool): (s: seq<Stream>)
    ensures View(s) == ps
    ensures forall x | x in s :: x.born == epoch && x.origin == origin && x.cached == cached && x.payload in ps
  {
    seq(|ps|, i requires 0 <= i < |ps| => Stream(epoch, origin, slot + i, ps[i], cached))
  }

  /** The part of a filter's own output that it may cache. */
  function Computed(r: Refresh, f: Filter, input: seq<Stream>): seq<Stream> {
    if f.cache.Some? then f.cache.value
    else Mint(r.epoch, f.id, |r.lib.fixed(f.cfg)|, r.lib.gen(f.cfg, View(input)), r.keep(f.id))
  }

  function Own(r: Refresh, f: Filter, input: seq<Stream>): seq<Stream> {
    Mint(r.epoch, f.id, 0, r.lib.fixed(f.cfg), false) + Computed(r, f, input)
  }

  function FilterOut(r: Refresh, f: Filter, input: seq<Stream>): seq<Stream> {
    Join(r.lib.ownFirst(f.cfg), Own(r, f, input), Pass(r.lib.block(f.cfg), input))
  }

  /** A filter's own streams, place by place: those made anew at each refresh, then the
      cached ones or, without a cache, those computed from the input. */
  ghost predicate IsOwnBlock(r: Refresh, f: Filter, input: seq<Stream>, own: seq<Stream>) {
    var fixed, made := r.lib.fixed(f.cfg), r.lib.gen(f.cfg, View(input));
    && |own| == |fixed| + (if f.cache.Some? then |f.cache.value| else |made|)
    && (forall j | 0 <= j < |fixed| :: own[j] == Stream(r.epoch, f.id, j, fixed[j], false))
    && forall j | |fixed| <= j < |own| ::
         own[j] == if f.cache.Some? then f.cache.value[j - |fixed|]
                   else Stream(r.epoch, f.id, j, made[j - |fixed|], r.keep(f.id))
  }

  /** What a filter gives out: its own streams, and before or after them the inputs that
      it does not block, in their order. */
  ghost predicate GivesOut(r: Refresh, f: Filter, input: seq<Stream>, out: seq<Stream>) {
    exists own, passed, idx :: GivesParts(r, f, input, out, own, passed, idx)
  }

  ghost predicate GivesParts(r: Refresh, f: Filter, input: seq<Stream>, out: seq<Stream>, own: seq<Stream>,
                             passed: seq<Stream>, idx: seq<nat>)
  {
    && IsOwnBlock(r, f, input, own) && IsPicked(input, OpenPlaces(r.lib.block(f.cfg), input), idx, passed)
    && out == if r.lib.ownFirst(f.cfg) then own + passed else passed + own
  }

  /** What a filter keeps: a cache it has; otherwise what it computed, if it may keep it
      and there is any. */
  ghost predicate KeepsOwn(r: Refresh, f: Filter, input: seq<Stream>, f': Filter) {
    var fixed, made := r.lib.fixed(f.cfg), r.lib.gen(f.cfg, View(input));
    && f'.id == f.id && f'.cfg == f.cfg
    && if f.cache.Some? || !r.keep(f.id) || made == [] then f'.cache == f.cache else
         && f'.cache.Some? && |f'.cache.value| == |made|
         && forall j | 0 <= j < |made| :: f'.cache.value[j] == Stream(r.epoch, f.id, |fixed| + j, made[j], true)
  }

  lemma OwnExact(r: Refresh, f: Filter, input: seq<Stream>)
    ensures IsOwnBlock(r, f, input, Own(r, f, input))
  {
    var ps := r.lib.gen(f.cfg, View(input));
    MintAt(r.epoch, f.id, 0, r.lib.fixed(f.cfg), false);
    MintAt(r.epoch, f.id, |r.lib.fixed(f.cfg)|, ps, r.keep(f.id));
  }

  lemma MintAt(epoch: nat, origin: nat, slot: nat, ps: seq<Payload>, cached: bool)
    ensures |Mint(epoch, origin, slot, ps, cached)| == |ps|
    ensures forall j | 0 <= j < |ps| ::
              Mint(epoch, origin, slot, ps, cached)[j] == Stream(epoch, origin, slot + j, ps[j], cached)
  {
  }

  /** The output and the cache of a filter are as the code makes them. */
  lemma FilterOutExact(r: Refresh, f: Filter, input: seq<Stream>)
    ensures GivesOut(r, f, input, FilterOut(r, f, input)) && KeepsOwn(r, f, input, KeptFilter(r, f, input))
  {
    OutExact(r, f, input);
    KeptExact(r, f, input);
  }

  lemma OutExact(r: Refresh, f: Filter, input: seq<Stream>)
    ensures GivesOut(r, f, input, FilterOut(r, f, input))
  {
    hide IsOwnBlock, IsPicked, Own;
    OwnExact(r, f, input);
    var idx := PassExact(r.lib.block(f.cfg), input);
    assert GivesParts(r, f, input, FilterOut(r, f, input), Own(r, f, input), Pass(r.lib.block(f.cfg), input), idx);
  }

  lemma KeptExact(r: Refresh, f: Filter, input: seq<Stream>)
    ensures KeepsOwn(r, f, input, KeptFilter(r, f, input))
  {
    MintAt(r.epoch, f.id, |r.lib.fixed(f.cfg)|, r.lib.gen(f.cfg, View(input)), r.keep(f.id));
    hide Mint;
  }

  /** So a stream comes out if and only if it is one of the filter's own or an input that
      is not blocked, and as often as both together. */
  lemma GivesOutCounts(r: Refresh, f: Filter, input: seq<Stream>, out: seq<Stream>) returns (own: seq<Stream>)
    requires GivesOut(r, f, input, out)
    ensures IsOwnBlock(r, f, input, own)
    ensures forall x :: x in out <==> x in own || (x in input && x.payload.ty !in r.lib.block(f.cfg))
    ensures forall x :: multiset(out)[x] == multiset(own)[x]
                          + if x.payload.ty in r.lib.block(f.cfg) then 0 else multiset(input)[x]
  {
    var block := r.lib.block(f.cfg);
    var o, passed, idx :| GivesParts(r, f, input, out, o, passed, idx);
    own := o;
    var pick := PassExact(block, input);
    PickedOnce(input, OpenPlaces(block, input), idx, passed, pick, Pass(block, input));
    forall x ensures multiset(out)[x] == multiset(own)[x] + if x.payload.ty in block then 0 else multiset(input)[x] {
      PassCounts(block, input, x);
    }
  }

  function RunIn(r: Refresh, t: Forest, starts: set<nat>, i: nat): seq<Stream>
    requires ValidForest(t) && i < |t.d|
    decreases i, 0
  {
    var p := Parent(t.d, i);
    if i in starts || p == -1 then [] else RunOut(r, t, starts, p)
  }

  /** Output of filter `i` when the filters in `starts` are given no input. */
  function RunOut(r: Refresh, t: Forest, starts: set<nat>, i: nat): seq<Stream>
    requires ValidForest(t) && i < |t.d|
    decreases i, 1
  {
    FilterOut(r, t.f[i], RunIn(r, t, starts, i))
  }

  /** Kept streams are marked as cached, carry their filter's name, are pairwise
      different, older than the present refresh and of a type the filter may emit. */
  ghost predicate SoundCache(lib: Library, f: Filter, epoch: nat) {
    f.cache.Some? ==>
      && f.cache.value != []
      && (forall x | x in f.cache.value ::
            x.cached && x.origin == f.id && x.born < epoch && x.payload.ty in lib.emit(f.cfg))
      && NoDup(f.cache.value)
  }

  ghost predicate SoundCaches(lib: Library, t: Forest, epoch: nat) {
    forall i | 0 <= i < |t.f| :: SoundCache(lib, t.f[i], epoch)
  }

  /** A cache holds what evaluation from scratch would compute. */
  ghost predicate Coherent(lib: Library, t: Forest)
    requires ValidForest(t)
  {
    forall i: nat | i < |t.d| && t.f[i].cache.Some? ::
      View(t.f[i].cache.value) == lib.gen(t.f[i].cfg, PureIn(lib, t, i))
  }

  ghost function Seeds(lib: Library, t: Forest): (s: set<nat>)
    requires ValidForest(t)
    ensures forall i: nat :: i in s <==> i < |t.d| && IsSeed(lib, t, i)
  {
    set i: nat | i < |t.d| && IsSeed(lib, t, i)
  }

  ghost predicate Covered(t: Forest, starts: set<nat>, i: nat)
    requires i < |t.d|
  {
    exists s: nat :: s in starts && Within(t.d, s, i)
  }

  /** The accumulated emit mask bounds what leaves a filter, caches or not. */
  lemma {:induction false} OutputWithinEmitMask(r: Refresh, t: Forest, i: nat)
    requires ValidForest(t) && i < |t.d| && Lawful(r.lib) && SoundCaches(r.lib, t, r.epoch)
    ensures forall x | x in RunOut(r, t, {}, i) :: x.payload.ty in EmitAcc(r.lib, t, i)
    ensures EmitAcc(r.lib, t, i) == {} ==> RunOut(r, t, {}, i) == []
  {
    var p := Parent(t.d, i);
    if p != -1 {
      OutputWithinEmitMask(r, t, p);
    }
    var input := RunIn(r, t, {}, i);
    var own := Own(r, t.f[i], input);
    var passed := Pass(r.lib.block(t.f[i].cfg), input);
    assert SoundCache(r.lib, t.f[i], r.epoch);
    forall x | x in RunOut(r, t, {}, i) ensures x.payload.ty in EmitAcc(r.lib, t, i) {
      assert x in own || x in passed;
    }
    var out := RunOut(r, t, {}, i);
    assert out != [] ==> out[0] in out;
  }

  /** Skipping is sound: below a seed, every filter gives the very same streams
      as when the whole forest is refreshed from its roots. */
  lemma {:induction false} SkippingIsSound(r: Refresh, t: Forest, i: nat)
    requires ValidForest(t) && i < |t.d| && Lawful(r.lib) && SoundCaches(r.lib, t, r.epoch)
    requires Covered(t, Seeds(r.lib, t), i)
    ensures RunOut(r, t, Seeds(r.lib, t), i) == RunOut(r, t, {}, i)
  {
    var seeds := Seeds(r.lib, t);
    var p := Parent(t.d, i);
    if p == -1 {
    } else if i in seeds {
      StartingAtSeed(r, t, i);
    } else {
      var s: nat :| s in seeds && Within(t.d, s, i);
      BelowByParent(t.d, s, i);
      assert Within(t.d, s, p);
      SkippingIsSound(r, t, p);
    }
  }

  /** A seed below the roots does not need what its parent would send it. */
  lemma StartingAtSeed(r: Refresh, t: Forest, i: nat)
    requires ValidForest(t) && i < |t.d| && Lawful(r.lib) && SoundCaches(r.lib, t, r.epoch)
    requires IsSeed(r.lib, t, i) && Parent(t.d, i) != -1
    ensures FilterOut(r, t.f[i], RunOut(r, t, {}, Parent(t.d, i))) == FilterOut(r, t.f[i], [])
  {
    var p := Parent(t.d, i);
    var sent := RunOut(r, t, {}, p);
    OutputWithinEmitMask(r, t, p);
    BelowByParent(t.d, p, i);
    AboveSeedIsBlocked(r.lib, t, i, p, i);
    if sent != [] {
      assert sent[0].payload.ty in EmitAcc(r.lib, t, p);
      var passed := Pass(r.lib.block(t.f[i].cfg), sent);
      assert passed == [];
    }
  }

  /** With coherent caches a refresh shows what evaluation from scratch shows. */
  lemma {:induction false} CachesDoNotShow(r: Refresh, t: Forest, i: nat)
    requires ValidForest(t) && i < |t.d| && Coherent(r.lib, t)
    ensures View(RunIn(r, t, {}, i)) == PureIn(r.lib, t, i)
    ensures View(RunOut(r, t, {}, i)) == PureOut(r.lib, t, i)
  {
    var p := Parent(t.d, i);
    if p != -1 {
      CachesDoNotShow(r, t, p);
    }
    var f, input := t.f[i], RunIn(r, t, {}, i);
    var fixed := Mint(r.epoch, f.id, 0, r.lib.fixed(f.cfg), false);
    var passed := Pass(r.lib.block(f.cfg), input);
    ViewPass(r.lib.block(f.cfg), input);
    ViewConcat(fixed, Computed(r, f, input));
    ViewConcat(Own(r, f, input), passed);
    ViewConcat(passed, Own(r, f, input));
  }

  // ---- Identity of the streams ----

  /** `x` was made by a filter on the path down to `i`. */
  ghost predicate FromPath(t: Forest, i: nat, x: Stream)
    requires ValidForest(t) && i < |t.d|
  {
    exists a: nat :: Within(t.d, a, i) && x.origin == t.f[a].id
  }

  lemma PassNoDup(block: set<Ty>, s: seq<Stream>)
    requires NoDup(s)
    ensures NoDup(Pass(block, s))
  {
  }

  lemma ConcatNoDup<T>(a: seq<T>, b: seq<T>)
    requires NoDup(a) && NoDup(b) && forall x | x in a :: x !in b
    ensures NoDup(a + b)
  {
    forall i, j | 0 <= i < j < |a + b| ensures (a + b)[i] != (a + b)[j] {
      if i < |a| <= j {
        assert a[i] in a && b[j - |a|] in b;
      }
    }
  }

  /** A filter's own streams are pairwise different and carry its name. */
  lemma OwnIdentity(r: Refresh, f: Filter, input: seq<Stream>)
    requires SoundCache(r.lib, f, r.epoch)
    ensures NoDup(Own(r, f, input)) && forall x | x in Own(r, f, input) :: x.origin == f.id
  {
    var fixed := Mint(r.epoch, f.id, 0, r.lib.fixed(f.cfg), false);
    forall x | x in fixed ensures x !in Computed(r, f, input) {
      assert x.slot < |r.lib.fixed(f.cfg)|;
    }
    ConcatNoDup(fixed, Computed(r, f, input));
  }

  /** No filter sends the same stream twice, and all it sends was made on the
      path down to it. */
  lemma {:induction false} RunOutIdentity(r: Refresh, t: Forest, starts: set<nat>, i: nat)
    requires ValidForest(t) && i < |t.d| && DistinctIds(t) && SoundCaches(r.lib, t, r.epoch)
    ensures NoDup(RunOut(r, t, starts, i)) && forall x | x in RunOut(r, t, starts, i) :: FromPath(t, i, x)
    ensures NoDup(RunIn(r, t, starts, i)) && forall x | x in RunIn(r, t, starts, i) :: x.origin != t.f[i].id
  {
    var f, p, input := t.f[i], Parent(t.d, i), RunIn(r, t, starts, i);
    if p != -1 {
      RunOutIdentity(r, t, starts, p);
    }
    forall x | x in input ensures x.origin != f.id && FromPath(t, i, x) {
      var a: nat :| Within(t.d, a, p) && x.origin == t.f[a].id;
      BelowByParent(t.d, a, i);
      assert Within(t.d, a, i);
    }
    var own, passed := Own(r, f, input), Pass(r.lib.block(f.cfg), input);
    assert SoundCache(r.lib, f, r.epoch);
    OwnIdentity(r, f, input);
    PassNoDup(r.lib.block(f.cfg), input);
    ConcatNoDup(own, passed);
    ConcatNoDup(passed, own);
    forall x | x in RunOut(r, t, starts, i) ensures FromPath(t, i, x) {
      assert x in own || x in passed;
      assert Within(t.d, i, i);
    }
  }

  // ---- What a refresh leaves behind ----

  /** The filter after its refresh: it keeps what it computed if it may cache
      and computed anything. */
  function KeptFilter(r: Refresh, f: Filter, input: seq<Stream>): Filter {
    if f.cache.None? && r.keep(f.id) && Computed(r, f, input) != []
    then f.(cache := Some(Computed(r, f, input)))
    else f
  }

  /** `t'` is the forest after refreshing those of the first `n` filters that lie
      below a filter in `starts`. */
  ghost predicate AfterRefresh(r: Refresh, t: Forest, starts: set<nat>, n: nat, t': Forest)
    requires ValidForest(t)
  {
    && t'.d == t.d && |t'.f| == |t.f|
    && forall i: nat | i < |t.d| ::
         t'.f[i] == if i < n && Covered(t, starts, i)
                    then KeptFilter(r, t.f[i], RunIn(r, t, starts, i))
                    else t.f[i]
  }

  /** Evaluation from scratch reads depths and property values only. */
  lemma {:induction false} PureIgnoresCaches(lib: Library, t: Forest, u: Forest, i: nat)
    requires ValidForest(t) && ValidForest(u) && t.d == u.d && i < |t.d|
    requires forall k | 0 <= k <= i :: t.f[k].cfg == u.f[k].cfg
    ensures PureIn(lib, t, i) == PureIn(lib, u, i) && PureOut(lib, t, i) == PureOut(lib, u, i)
  {
    var p := Parent(t.d, i);
    if p != -1 {
      PureIgnoresCaches(lib, t, u, p);
    }
  }

  /** An uncached filter that is refreshed below a seed reads its true input. */
  lemma RefreshedInputIsTrue(r: Refresh, t: Forest, i: nat)
    requires ValidForest(t) && i < |t.d| && Lawful(r.lib) && SoundCaches(r.lib, t, r.epoch)
    requires Covered(t, Seeds(r.lib, t), i) && t.f[i].cache.None?
    ensures RunIn(r, t, Seeds(r.lib, t), i) == RunIn(r, t, {}, i)
  {
    var seeds, p := Seeds(r.lib, t), Parent(t.d, i);
    if p != -1 && i in seeds {
      BelowByParent(t.d, p, i);
      AboveSeedIsBlocked(r.lib, t, i, p, i);
      OutputWithinEmitMask(r, t, p);
    } else if p != -1 {
      var s: nat :| s in seeds && Within(t.d, s, i);
      BelowByParent(t.d, s, i);
      assert Within(t.d, s, p);
      SkippingIsSound(r, t, p);
    }
  }

  /** A refresh keeps every cache sound, even one cut short. */
  lemma RefreshKeepsSoundness(r: Refresh, t: Forest, n: nat, t': Forest)
    requires ValidForest(t) && Lawful(r.lib) && SoundCaches(r.lib, t, r.epoch)
    requires AfterRefresh(r, t, Seeds(r.lib, t), n, t')
    ensures ValidForest(t') && SoundCaches(r.lib, t', r.epoch + 1)
  {
    forall i: nat | i < |t.d| ensures SoundCache(r.lib, t'.f[i], r.epoch + 1) {
      assert SoundCache(r.lib, t.f[i], r.epoch);
    }
  }

  /** ... and coherent. */
  lemma RefreshKeepsCoherence(r: Refresh, t: Forest, n: nat, t': Forest)
    requires ValidForest(t) && Lawful(r.lib) && SoundCaches(r.lib, t, r.epoch) && Coherent(r.lib, t)
    requires AfterRefresh(r, t, Seeds(r.lib, t), n, t')
    ensures ValidForest(t') && Coherent(r.lib, t')
  {
    forall i: nat | i < |t.d| && t'.f[i].cache.Some?
      ensures View(t'.f[i].cache.value) == r.lib.gen(t'.f[i].cfg, PureIn(r.lib, t', i))
    {
      PureIgnoresCaches(r.lib, t, t', i);
      if t'.f[i] != t.f[i] {
        RefreshedInputIsTrue(r, t, i);
        CachesDoNotShow(r, t, i);
      }
    }
  }

  // ---- Leaf outputs ----

  /** The outputs of the leaves in visiting order, empty ones left out. */
  function Outputs(r: Refresh, t: Forest, starts: set<nat>, n: nat): seq<(nat, seq<Stream>)>
    requires ValidForest(t) && n <= |t.d|
  {
    if n == 0 then []
    else Outputs(r, t, starts, n - 1) + OutputOf(r, t, starts, n - 1)
  }

  function OutputOf(r: Refresh, t: Forest, starts: set<nat>, i: nat): seq<(nat, seq<Stream>)>
    requires ValidForest(t) && i < |t.d|
  {
    var out := RunOut(r, t, starts, i);
    if IsLeaf(t.d, i) && out != [] then [(t.f[i].id, out)] else []
  }

  function PureOutputs(lib: Library, t: Forest, n: nat): seq<(nat, seq<Payload>)>
    requires ValidForest(t) && n <= |t.d|
  {
    if n == 0 then []
    else PureOutputs(lib, t, n - 1) + PureOutputOf(lib, t, n - 1)
  }

  function PureOutputOf(lib: Library, t: Forest, i: nat): seq<(nat, seq<Payload>)>
    requires ValidForest(t) && i < |t.d|
  {
    var out := PureOut(lib, t, i);
    if IsLeaf(t.d, i) && out != [] then [(t.f[i].id, out)] else []
  }

  function ViewOutputs(o: seq<(nat, seq<Stream>)>): (r: seq<(nat, seq<Payload>)>)
    ensures |r| == |o| && forall j | 0 <= j < |o| :: r[j] == (o[j].0, View(o[j].1))
  {
    if o == [] then []
    else ViewOutputs(o[..|o| - 1]) + [(o[|o| - 1].0, View(o[|o| - 1].1))]
  }

  /** The seeds give the same leaf outputs, in the same order, as the roots. */
  lemma {:induction false} SeedsGiveAllOutputs(r: Refresh, t: Forest, n: nat)
    requires ValidForest(t) && n <= |t.d| && Lawful(r.lib) && SoundCaches(r.lib, t, r.epoch)
    ensures Outputs(r, t, Seeds(r.lib, t), n) == Outputs(r, t, {}, n)
  {
    hide OutputOf, Seeds, SoundCaches, ValidForest;
    if n != 0 {
      SeedsGiveAllOutputs(r, t, n - 1);
      SeedsGiveOutputOf(r, t, n - 1);
    }
  }

  lemma SeedsGiveOutputOf(r: Refresh, t: Forest, i: nat)
    requires ValidForest(t) && i < |t.d| && Lawful(r.lib) && SoundCaches(r.lib, t, r.epoch)
    ensures OutputOf(r, t, Seeds(r.lib, t), i) == OutputOf(r, t, {}, i)
  {
    if IsLeaf(t.d, i) {
      var s := LeafHasOneSeed(r.lib, t, i);
      assert s in Seeds(r.lib, t);
      SkippingIsSound(r, t, i);
    }
  }

  /** The outputs of all filters in a refresh of everything: a root reads nothing, any
      other filter what its parent gives out. */
  ghost predicate IsFullRun(r: Refresh, t: Forest, outs: seq<seq<Stream>>)
    requires ValidForest(t)
  {
    && |outs| == |t.d|
    && forall i: nat | i < |t.d| ::
         GivesOut(r, t.f[i], if Parent(t.d, i) == -1 then [] else outs[Parent(t.d, i)], outs[i])
  }

  /** The list has just the leaves that give something out, in their order. */
  ghost predicate ListsLeaves<T>(t: Forest, outs: seq<seq<T>>, n: nat, places: seq<nat>, shown: seq<(nat, seq<T>)>)
    requires |t.d| == |t.f| == |outs| && n <= |t.d|
  {
    && |places| == |shown|
    && (forall j, k | 0 <= j < k < |places| :: places[j] < places[k])
    && (forall i: nat :: i in places <==> i < n && IsLeaf(t.d, i) && outs[i] != [])
    && forall j | 0 <= j < |places| :: places[j] < n && shown[j] == (t.f[places[j]].id, outs[places[j]])
  }

  lemma ListsIs<T>(t: Forest, outs: seq<seq<T>>, n: nat, places: seq<nat>, shown: seq<(nat, seq<T>)>)
    requires |t.d| == |t.f| == |outs| && n <= |t.d|
    ensures ListsLeaves(t, outs, n, places, shown) <==>
      && |places| == |shown|
      && (forall j, k | 0 <= j < k < |places| :: places[j] < places[k])
      && (forall i: nat :: i in places <==> i < n && IsLeaf(t.d, i) && outs[i] != [])
      && forall j | 0 <= j < |places| :: places[j] < n && shown[j] == (t.f[places[j]].id, outs[places[j]])
  {
    hide IsLeaf;
  }

  lemma ListOneMore<T>(t: Forest, outs: seq<seq<T>>, n: nat, places: seq<nat>, shown: seq<(nat, seq<T>)>)
    requires |t.d| == |t.f| == |outs| && n < |t.d| && ListsLeaves(t, outs, n, places, shown)
    ensures var more := IsLeaf(t.d, n) && outs[n] != [];
            ListsLeaves(t, outs, n + 1, if more then places + [n] else places,
                        shown + if more then [(t.f[n].id, outs[n])] else [])
  {
    hide *;
    ListsIs(t, outs, n, places, shown);
    AppendPlace(places, n) by {
      forall i | i in places ensures i < n {}
    }
    if IsLeaf(t.d, n) && outs[n] != [] {
      AppendShown(t, outs, n, places, shown);
      ListsIs(t, outs, n + 1, places + [n], shown + [(t.f[n].id, outs[n])]);
    } else {
      assert shown + [] == shown;
      ListsIs(t, outs, n + 1, places, shown);
    }
  }

  lemma AppendPlace(places: seq<nat>, n: nat)
    requires (forall j, k | 0 <= j < k < |places| :: places[j] < places[k]) && forall i | i in places :: i < n
    ensures forall j, k | 0 <= j < k < |places + [n]| :: (places + [n])[j] < (places + [n])[k]
    ensures forall i: nat :: i in places + [n] <==> i in places || i == n
  {
    forall j | 0 <= j < |places| ensures places[j] < n { assert places[j] in places; }
  }

  lemma AppendShown<T>(t: Forest, outs: seq<seq<T>>, n: nat, places: seq<nat>, shown: seq<(nat, seq<T>)>)
    requires |t.f| == |outs| && n < |t.f| && |places| == |shown|
    requires forall j | 0 <= j < |places| :: places[j] < n && shown[j] == (t.f[places[j]].id, outs[places[j]])
    ensures var places', shown' := places + [n], shown + [(t.f[n].id, outs[n])];
            |places'| == |shown'| && forall j | 0 <= j < |places'| ::
              places'[j] < n + 1 && shown'[j] == (t.f[places'[j]].id, outs[places'[j]])
  {
  }

  /** A refresh of everything shows just the outputs of its leaves. */
  lemma OutputsExact(r: Refresh, t: Forest) returns (outs: seq<seq<Stream>>, places: seq<nat>)
    requires ValidForest(t)
    ensures IsFullRun(r, t, outs) && ListsLeaves(t, outs, |t.d|, places, Outputs(r, t, {}, |t.d|))
  {
    outs := seq(|t.d|, i requires 0 <= i < |t.d| => RunOut(r, t, {}, i));
    places := OutputsListed(r, t, outs, |t.d|);
    forall i: nat | i < |t.d|
      ensures GivesOut(r, t.f[i], if Parent(t.d, i) == -1 then [] else outs[Parent(t.d, i)], outs[i])
    {
      OutExact(r, t.f[i], RunIn(r, t, {}, i));
    }
  }

  lemma OutputsIs(r: Refresh, t: Forest, n: nat)
    requires ValidForest(t) && n <= |t.d|
    ensures n == 0 ==> Outputs(r, t, {}, n) == []
    ensures n > 0 ==> Outputs(r, t, {}, n) == Outputs(r, t, {}, n - 1) +
                        if IsLeaf(t.d, n - 1) && RunOut(r, t, {}, n - 1) != []
                        then [(t.f[n - 1].id, RunOut(r, t, {}, n - 1))] else []
  {
    hide RunOut, IsLeaf;
  }

  lemma {:induction false} OutputsListed(r: Refresh, t: Forest, outs: seq<seq<Stream>>, n: nat) returns (places: seq<nat>)
    requires ValidForest(t) && |outs| == |t.d| && n <= |t.d|
    requires forall i: nat | i < |t.d| :: outs[i] == RunOut(r, t, {}, i)
    ensures ListsLeaves(t, outs, n, places, Outputs(r, t, {}, n))
  {
    hide *;
    OutputsIs(r, t, n);
    ValidLets(t);
    if n == 0 {
      places := [];
      ListsIs(t, outs, 0, [], []);
    } else {
      var before := OutputsListed(r, t, outs, n - 1);
      ListOneMore(t, outs, n - 1, before, Outputs(r, t, {}, n - 1));
      places := if IsLeaf(t.d, n - 1) && outs[n - 1] != [] then before + [n - 1] else before;
    }
  }

  lemma NoOutputs(r: Refresh, t: Forest)
    requires ValidForest(t)
    ensures ViewOutputs(Outputs(r, t, {}, 0)) == PureOutputs(r.lib, t, 0)
  {
  }

  /** ... and show what evaluation from scratch shows. */
  lemma {:induction false} OutputsArePure(r: Refresh, t: Forest, n: nat)
    requires ValidForest(t) && n <= |t.d| && Coherent(r.lib, t)
    ensures ViewOutputs(Outputs(r, t, {}, n)) == PureOutputs(r.lib, t, n)
    decreases n
  {
    hide *;
    if n == 0 {
      NoOutputs(r, t);
    } else {
      OutputsArePure(r, t, n - 1);
      OutputOfIsPure(r, t, n - 1);
      OutputsStep(r, t, n - 1);
    }
  }

  lemma OutputsStep(r: Refresh, t: Forest, k: nat)
    requires ValidForest(t) && k < |t.d|
    requires ViewOutputs(Outputs(r, t, {}, k)) == PureOutputs(r.lib, t, k)
    requires ViewOutputs(OutputOf(r, t, {}, k)) == PureOutputOf(r.lib, t, k)
    ensures ViewOutputs(Outputs(r, t, {}, k + 1)) == PureOutputs(r.lib, t, k + 1)
  {
    hide RunOut, RunIn, PureOut, PureIn, Coherent;
    ViewOutputsAdd(Outputs(r, t, {}, k), OutputOf(r, t, {}, k));
  }

  lemma OutputOfIsPure(r: Refresh, t: Forest, i: nat)
    requires ValidForest(t) && i < |t.d| && Coherent(r.lib, t)
    ensures ViewOutputs(OutputOf(r, t, {}, i)) == PureOutputOf(r.lib, t, i)
  {
    CachesDoNotShow(r, t, i);
    hide RunOut, RunIn, PureOut, PureIn, Coherent;
    assert |PureOut(r.lib, t, i)| == |RunOut(r, t, {}, i)|;
  }

  lemma ViewOutputsAdd(a: seq<(nat, seq<Stream>)>, b: seq<(nat, seq<Stream>)>)
    requires |b| <= 1
    ensures ViewOutputs(a + b) == ViewOutputs(a) + ViewOutputs(b)
  {
    if |b| == 1 {
      assert (a + b)[..|a|] == a;
      assert b[..0] == [];
    } else {
      assert a + b == a;
    }
  }
}
