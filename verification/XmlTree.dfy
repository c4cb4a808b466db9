/** Writing the filter tree as nested elements and reading it back. */
module XmlTree {

  /** A filter with the filters below it; `f` stands for the filter's own state. */
  datatype Tree = Tree(f: int, kids: seq<Tree>)

  /** One node as the pre-order iterator shows it. */
  datatype Entry = Entry(depth: nat, f: int)

  function Flatten(ts: seq<Tree>, depth: nat): seq<Entry> {
    if ts == [] then []
    else [Entry(depth, ts[0].f)] + Flatten(ts[0].kids, depth + 1) + Flatten(ts[1..], depth)
  }

  // ---- Writing ----

  datatype Token = Open | Close | Item(f: int)

  function Repeat(t: Token, n: nat): (r: seq<Token>)
    ensures |r| == n && forall i | 0 <= i < n :: r[i] == t
  {
    if n == 0 then [] else Repeat(t, n - 1) + [t]
  }

  /** The tags between an element at depth `last` and one at depth `depth`. */
  function Tags(last: nat, depth: nat): seq<Token> {
    if last < depth then Repeat(Open, depth - last) else Repeat(Close, last - depth)
  }

  /** What is still to be written when the last element was at depth `last`. */
  function Emit(last: nat, s: seq<Entry>): seq<Token>
    decreases |s|
  {
    if s == [] then Repeat(Close, last)
    else Tags(last, s[0].depth) + [Item(s[0].f)] + Emit(s[0].depth, s[1..])
  }

  method SaveXML(filters: seq<Entry>) returns (out: seq<Token>)
    ensures out == Emit(0, filters)
  {
    hide *;
    out := [];
    var depthLast, child: nat := 0, 0;
    assert filters[0..] == filters;
    for filtIt := 0 to |filters|
      invariant child == depthLast
      invariant Emit(0, filters) == out + Emit(depthLast, filters[filtIt..])
    {
      var depth := filters[filtIt].depth;
      var tags;
      tags, child := WriteTags(depthLast, depth, child);
      EmitIs(depthLast, filters[filtIt..]);
      assert filters[filtIt..][1..] == filters[filtIt + 1..];
      assert out + (tags + [Item(filters[filtIt].f)] + Emit(depth, filters[filtIt + 1..]))
          == out + tags + [Item(filters[filtIt].f)] + Emit(depth, filters[filtIt + 1..]);
      out := out + tags + [Item(filters[filtIt].f)];
      depthLast := depth;
    }
    var tail: seq<Token> := [];
    ghost var open := child;
    while child > 0
      invariant child <= open && tail == Repeat(Close, open - child)
    {
      RepeatBack(Close, open - child);
      child := child - 1;
      tail := tail + [Close];
    }
    EmitIs(open, []);
    assert filters[|filters|..] == [];
    out := out + tail;
  }

  method WriteTags(last: nat, depth: nat, open: nat) returns (tags: seq<Token>, child: nat)
    requires open == last
    ensures tags == Tags(last, depth) && child == depth
  {
    tags, child := [], open;
    var depthLast := last;
    if depth > depthLast {
      while depthLast < depth
        invariant last <= depthLast <= depth && child == depthLast
        invariant tags == Repeat(Open, depthLast - last)
      {
        depthLast := depthLast + 1;
        tags := tags + [Open];
        child := child + 1;
      }
    } else if depth < depthLast {
      while depthLast > depth
        invariant depth <= depthLast <= last && child == depthLast
        invariant tags == Repeat(Close, last - depthLast)
      {
        depthLast := depthLast - 1;
        tags := tags + [Close];
        child := child - 1;
      }
    }
  }

  /** The nested form: each filter, followed by its children inside a pair of tags. */
  function Nested(ts: seq<Tree>): seq<Token> {
    if ts == [] then []
    else
      [Item(ts[0].f)] +
      (if ts[0].kids == [] then [] else [Open] + Nested(ts[0].kids) + [Close]) +
      Nested(ts[1..])
  }

  lemma EmitOpens(k: nat, s: seq<Entry>)
    requires s != [] && s[0].depth == k + 1
    ensures Emit(k, s) == [Open] + Emit(k + 1, s)
  {
    hide *;
    EmitIs(k, s);
    EmitIs(k + 1, s);
    TagsOpen(k);
    Prepended([Open], [], [Item(s[0].f)], Emit(k + 1, s[1..]));
  }

  lemma Prepended<T>(a: seq<T>, none: seq<T>, b: seq<T>, c: seq<T>)
    requires none == []
    ensures a + b + c == a + (none + b + c)
  {
  }

  lemma TagsOpen(k: nat)
    ensures Tags(k, k + 1) == [Open] && Tags(k + 1, k + 1) == []
  {
  }

  lemma EmitCloses(k: nat, s: seq<Entry>)
    requires s != [] ==> s[0].depth <= k
    ensures Emit(k + 1, s) == [Close] + Emit(k, s)
  {
    hide *;
    EmitIs(k, s);
    EmitIs(k + 1, s);
    RepeatFront(Close, k);
    if s != [] {
      TagsClose(k, s[0].depth);
      var more := [Item(s[0].f)] + Emit(s[0].depth, s[1..]);
      assert Tags(k + 1, s[0].depth) + [Item(s[0].f)] + Emit(s[0].depth, s[1..]) == Tags(k + 1, s[0].depth) + more;
      assert [Close] + Tags(k, s[0].depth) + more
          == [Close] + (Tags(k, s[0].depth) + [Item(s[0].f)] + Emit(s[0].depth, s[1..]));
    }
  }

  lemma RepeatBack(t: Token, n: nat)
    ensures Repeat(t, n + 1) == Repeat(t, n) + [t] && Repeat(t, 0) == []
  {
  }

  lemma RepeatFront(t: Token, n: nat)
    ensures Repeat(t, n + 1) == [t] + Repeat(t, n)
  {
  }

  lemma TagsClose(k: nat, depth: nat)
    requires depth <= k
    ensures Tags(k + 1, depth) == [Close] + Tags(k, depth)
  {
    RepeatFront(Close, k - depth);
  }

  lemma EmitIs(k: nat, s: seq<Entry>)
    ensures Emit(k, s) == if s == [] then Repeat(Close, k)
                          else Tags(k, s[0].depth) + [Item(s[0].f)] + Emit(s[0].depth, s[1..])
  {
  }

  lemma EmitItem(k: nat, f: int, s: seq<Entry>)
    ensures Emit(k, [Entry(k, f)] + s) == [Item(f)] + Emit(k, s)
  {
    assert ([Entry(k, f)] + s)[1..] == s;
    assert Tags(k, k) == [];
  }

  lemma NestedCons(t: Tree, ts: seq<Tree>, k: nat)
    ensures Flatten([t] + ts, k) == [Entry(k, t.f)] + Flatten(t.kids, k + 1) + Flatten(ts, k)
    ensures Nested([t] + ts) == [Item(t.f)] + (if t.kids == [] then [] else [Open] + Nested(t.kids) + [Close]) + Nested(ts)
  {
    assert ([t] + ts)[1..] == ts;
  }

  lemma FlattenHead(ts: seq<Tree>, k: nat)
    requires ts != []
    ensures Flatten(ts, k) != [] && Flatten(ts, k)[0] == Entry(k, ts[0].f)
  {
  }

  lemma Regroup<T>(a: seq<T>, b: seq<T>, c: seq<T>, d: seq<T>, e: seq<T>, f: seq<T>)
    ensures a + (b + (c + (d + (e + f)))) == (a + (b + c + d) + e) + f
  {
  }

  lemma Regroup3<T>(a: seq<T>, b: seq<T>, c: seq<T>, d: seq<T>)
    ensures (a + b + c) + d == a + (b + (c + d))
  {
  }

  /** The depth-driven writer produces the nested form. */
  lemma {:induction false} WriterNests(ts: seq<Tree>, k: nat, rest: seq<Entry>)
    requires rest != [] ==> rest[0].depth <= k
    ensures Emit(k, Flatten(ts, k) + rest) == Nested(ts) + Emit(k, rest)
    decreases ts
  {
    hide *;
    if ts == [] {
      FlattenNone(k);
      assert [] + rest == rest && [] + Emit(k, rest) == Emit(k, rest);
    } else {
      LaterHead(ts[1..], k, rest);
      WriterNests(ts[1..], k, rest);
      var later := Flatten(ts[1..], k) + rest;
      assert later != [] ==> later[0].depth <= k + 1;
      WriterNests(ts[0].kids, k + 1, later);
      WriterNestsOne(ts[0], ts[1..], k, rest);
      assert ts == [ts[0]] + ts[1..];
    }
  }

  lemma LaterHead(ts: seq<Tree>, k: nat, rest: seq<Entry>)
    requires rest != [] ==> rest[0].depth <= k
    ensures var later := Flatten(ts, k) + rest; later != [] ==> later[0].depth <= k
  {
    if ts != [] { FlattenHead(ts, k); }
  }

  lemma WriterNestsOne(t: Tree, ts: seq<Tree>, k: nat, rest: seq<Entry>)
    requires var later := Flatten(ts, k) + rest;
             && (later != [] ==> later[0].depth <= k)
             && Emit(k, later) == Nested(ts) + Emit(k, rest)
             && Emit(k + 1, Flatten(t.kids, k + 1) + later) == Nested(t.kids) + Emit(k + 1, later)
    ensures Emit(k, Flatten([t] + ts, k) + rest) == Nested([t] + ts) + Emit(k, rest)
  {
    hide *;
    var inner, later, end := Flatten(t.kids, k + 1), Flatten(ts, k) + rest, Emit(k, rest);
    NestedCons(t, ts, k);
    Regroup3([Entry(k, t.f)], inner, Flatten(ts, k), rest);
    EmitItem(k, t.f, inner + later);
    if t.kids != [] {
      FlattenHead(t.kids, k + 1);
      EmitOpens(k, inner + later);
      EmitCloses(k, later);
      Regroup([Item(t.f)], [Open], Nested(t.kids), [Close], Nested(ts), end);
    } else {
      FlattenNone(k + 1);
      assert inner + later == later;
      assert [Item(t.f)] + (Nested(ts) + end) == ([Item(t.f)] + [] + Nested(ts)) + end;
    }
  }

  lemma FlattenNone(k: nat)
    ensures Flatten([], k) == [] && Nested([]) == []
  {
  }
}
