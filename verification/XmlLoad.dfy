/** Reading the nested elements back into a filter tree. */
module XmlLoad {
  import opened PreOrder
  import opened XmlTree

  /** The nodes of the parsed document: white space, an element that is no filter,
      a filter element (with the verdict on its own state), or a list of children. */
  datatype Xml = Text | Unknown | Elem(f: int, ok: bool) | Children(kids: seq<Xml>)

  // ---- From tags to nodes ----

  datatype Parsed = Parsed(nodes: seq<Xml>, rest: seq<Token>) | Unbalanced

  /** Sibling nodes up to the closing tag of their parent, or the end. Each element
      is written on its own line, so white space follows it. */
  function ParseNodes(toks: seq<Token>): (p: Parsed)
    ensures p.Parsed? ==> |p.rest| <= |toks| && (p.rest != [] ==> p.rest[0] == Close)
    decreases |toks|
  {
    if toks == [] || toks[0] == Close then Parsed([], toks)
    else match toks[0]
      case Item(f) =>
        var p := ParseNodes(toks[1..]);
        if p.Unbalanced? then p else Parsed([Elem(f, true), Text] + p.nodes, p.rest)
      case Open =>
        var inner := ParseNodes(toks[1..]);
        if inner.Unbalanced? || inner.rest == [] then Unbalanced
        else
          var p := ParseNodes(inner.rest[1..]);
          if p.Unbalanced? then p
          else Parsed([Children([Text] + inner.nodes), Text] + p.nodes, p.rest)
  }

  /** The document element's nodes, or nothing if the tags do not match up. */
  function ParseDocument(toks: seq<Token>): seq<Xml> {
    var p := ParseNodes(toks);
    if p.Unbalanced? || p.rest != [] then [] else [Text] + p.nodes
  }

  function Dom(ts: seq<Tree>): seq<Xml> {
    if ts == [] then []
    else
      [Elem(ts[0].f, true), Text] +
      (if ts[0].kids == [] then [] else [Children([Text] + Dom(ts[0].kids)), Text]) +
      Dom(ts[1..])
  }

  lemma {:induction false} NestedParses(ts: seq<Tree>, rest: seq<Token>)
    requires rest != [] ==> rest[0] == Close
    ensures ParseNodes(Nested(ts) + rest) == Parsed(Dom(ts), rest)
    decreases ts
  {
    if ts == [] {
      assert Nested(ts) + rest == rest;
    } else {
      var more := Nested(ts[1..]) + rest;
      NestedParses(ts[1..], rest);
      NestedParses(ts[0].kids, [Close] + more);
      NestedParsesOne(ts[0], ts[1..], rest);
      assert ts == [ts[0]] + ts[1..];
    }
  }

  lemma ParseItem(f: int, toks: seq<Token>)
    requires ParseNodes(toks).Parsed?
    ensures ParseNodes([Item(f)] + toks) ==
            Parsed([Elem(f, true), Text] + ParseNodes(toks).nodes, ParseNodes(toks).rest)
  {
    assert ([Item(f)] + toks)[1..] == toks;
  }

  lemma ParseOpen(toks: seq<Token>, kids: seq<Xml>, more: seq<Token>)
    requires ParseNodes(toks) == Parsed(kids, [Close] + more) && ParseNodes(more).Parsed?
    ensures ParseNodes([Open] + toks) ==
            Parsed([Children([Text] + kids), Text] + ParseNodes(more).nodes, ParseNodes(more).rest)
  {
    assert ([Open] + toks)[1..] == toks;
    assert ([Close] + more)[1..] == more;
  }

  lemma DomCons(t: Tree, ts: seq<Tree>)
    ensures Dom([t] + ts) ==
            [Elem(t.f, true), Text] + (if t.kids == [] then [] else [Children([Text] + Dom(t.kids)), Text]) + Dom(ts)
  {
    assert ([t] + ts)[1..] == ts;
  }

  lemma NestedParsesOne(t: Tree, ts: seq<Tree>, rest: seq<Token>)
    requires ParseNodes(Nested(ts) + rest) == Parsed(Dom(ts), rest)
    requires ParseNodes(Nested(t.kids) + ([Close] + (Nested(ts) + rest))) == Parsed(Dom(t.kids), [Close] + (Nested(ts) + rest))
    ensures ParseNodes(Nested([t] + ts) + rest) == Parsed(Dom([t] + ts), rest)
  {
    hide *;
    var more := Nested(ts) + rest;
    NestedCons(t, ts, 0);
    DomCons(t, ts);
    if t.kids == [] {
      ParseItem(t.f, more);
      assert ([Item(t.f)] + [] + Nested(ts)) + rest == [Item(t.f)] + more;
      assert [Elem(t.f, true), Text] + Dom(ts) == [Elem(t.f, true), Text] + [] + Dom(ts);
    } else {
      var inner := Nested(t.kids) + ([Close] + more);
      ParseOpen(inner, Dom(t.kids), more);
      ParseItem(t.f, [Open] + inner);
      Regroup([Item(t.f)], [Open], Nested(t.kids), [Close], Nested(ts), rest);
      Regroup3([Elem(t.f, true), Text], [Children([Text] + Dom(t.kids)), Text], Dom(ts), []);
      assert ([Elem(t.f, true), Text] + [Children([Text] + Dom(t.kids)), Text] + Dom(ts)) ==
             [Elem(t.f, true), Text] + ([Children([Text] + Dom(t.kids)), Text] + Dom(ts));
    }
  }

  /** The writer's tags always match up, and nest as the tree does. */
  lemma WriterIsBalanced(ts: seq<Tree>)
    ensures ParseDocument(Emit(0, Flatten(ts, 0))) == [Text] + Dom(ts)
  {
    WriterNests(ts, 0, []);
    assert Flatten(ts, 0) + [] == Flatten(ts, 0);
    assert Emit(0, []) == [];
    NestedParses(ts, []);
  }

  // ---- From nodes to the tree ----

  const FEET := -1

  /** The reader's variables. `after` are the nodes that follow the present one
      among its siblings; tree positions are pre-order indices, or `FEET` for the
      end of the tree. */
  datatype Reader = Reader(
    after: seq<Xml>,
    nodeStack: seq<seq<Xml>>,
    treeNodeStack: seq<int>,
    lastFilt: int,
    lastTop: int,
    filters: seq<Entry>)

  ghost predicate ValidReader(l: Reader) {
    && |l.nodeStack| == |l.treeNodeStack|
    && (forall i | 0 <= i < |l.treeNodeStack| :: 0 <= l.treeNodeStack[i] < |l.filters|)
    && -1 <= l.lastTop < |l.filters|
    && (l.filters != [] ==> 0 <= l.lastFilt < |l.filters|)
  }

  function Depths(s: seq<Entry>): (d: seq<nat>)
    ensures |d| == |s| && forall i | 0 <= i < |s| :: d[i] == s[i].depth
  {
    seq(|s|, i requires 0 <= i < |s| => s[i].depth)
  }

  /** Positions at or past an insertion move on by one. */
  function ShiftOne(at: nat, pos: int): int {
    if pos >= at then pos + 1 else pos
  }

  function ShiftAll(at: nat, s: seq<int>): (r: seq<int>)
    ensures |r| == |s| && forall i | 0 <= i < |s| :: r[i] == ShiftOne(at, s[i])
  {
    seq(|s|, i requires 0 <= i < |s| => ShiftOne(at, s[i]))
  }

  function InsertAt(s: seq<Entry>, at: nat, e: Entry): seq<Entry>
    requires at <= |s|
  {
    s[..at] + [e] + s[at..]
  }

  /** A filter under the node on top of the stack goes after that node's last
      descendant; a later root goes in front of the last root put in. */
  function AddFilter(l: Reader, f: int): (r: Reader)
    requires ValidReader(l)
    ensures ValidReader(r) && r.after == l.after && r.nodeStack == l.nodeStack
  {
    var n := |l.treeNodeStack|;
    if l.filters == [] then
      l.(filters := [Entry(0, f)], lastFilt := 0)
    else if n > 0 then
      var p := l.treeNodeStack[n - 1];
      var at := End(Depths(l.filters), p);
      l.(filters := InsertAt(l.filters, at, Entry(l.filters[p].depth + 1, f)), lastFilt := at,
         lastTop := ShiftOne(at, l.lastTop), treeNodeStack := ShiftAll(at, l.treeNodeStack))
    else
      var at := if l.lastTop == FEET then |l.filters| else l.lastTop;
      l.(filters := InsertAt(l.filters, at, Entry(0, f)), lastFilt := at, lastTop := at)
  }

  function Weight(xs: seq<Xml>): nat {
    if xs == [] then 0
    else (match xs[0] case Children(kids) => 1 + Weight(kids) case _ => 1) + Weight(xs[1..])
  }

  function WeightAll(stack: seq<seq<Xml>>): nat {
    if stack == [] then 0 else WeightAll(stack[..|stack| - 1]) + Weight(stack[|stack| - 1])
  }

  datatype Loaded = Loaded(filters: seq<Entry>) | Malformed

  /** What the reader makes of the nodes it has still to see. */
  function Read(l: Reader): Loaded
    requires ValidReader(l)
    decreases Weight(l.after) + WeightAll(l.nodeStack), |l.nodeStack|
  {
    var n := |l.nodeStack|;
    if l.after == [] then
      if n == 0 then Loaded(l.filters)
      else Read(l.(after := l.nodeStack[n - 1], nodeStack := l.nodeStack[..n - 1],
                   treeNodeStack := l.treeNodeStack[..n - 1], lastFilt := l.treeNodeStack[n - 1]))
    else
      var rest := l.after[1..];
      match l.after[0]
      case Text => Read(l.(after := rest))
      case Unknown => Read(l.(after := rest))
      case Elem(f, ok) => if ok then Read(AddFilter(l.(after := rest), f)) else Malformed
      case Children(kids) =>
        if l.filters == [] || kids == [] then Malformed
        else
          assert l.(nodeStack := l.nodeStack + [rest]).nodeStack[..n] == l.nodeStack;
          assert Weight(kids) >= 1 + Weight(kids[1..]);
          Read(l.(after := kids[1..], nodeStack := l.nodeStack + [rest], treeNodeStack := l.treeNodeStack + [l.lastFilt]))
  }

  /** Back at the end of a list of children: on with what followed it. */
  function Up(l: Reader): Reader
    requires l.nodeStack != [] && |l.treeNodeStack| == |l.nodeStack|
  {
    var n := |l.nodeStack|;
    l.(after := l.nodeStack[n - 1], nodeStack := l.nodeStack[..n - 1],
       treeNodeStack := l.treeNodeStack[..n - 1], lastFilt := l.treeNodeStack[n - 1])
  }

  /** One step of the reader, case by case. */
  lemma ReadIs(l: Reader)
    requires ValidReader(l)
    ensures l.after == [] && l.nodeStack == [] ==> Read(l) == Loaded(l.filters)
    ensures l.after == [] && l.nodeStack != [] ==>
              |l.treeNodeStack| == |l.nodeStack| && ValidReader(Up(l)) && Read(l) == Read(Up(l))
    ensures l.after != [] && (l.after[0].Text? || l.after[0].Unknown?) ==>
              ValidReader(l.(after := l.after[1..])) && Read(l) == Read(l.(after := l.after[1..]))
    ensures l.after != [] && l.after[0].Elem? && l.after[0].ok ==>
              ValidReader(l.(after := l.after[1..]))
              && Read(l) == Read(AddFilter(l.(after := l.after[1..]), l.after[0].f))
    ensures l.after != [] && l.after[0].Elem? && !l.after[0].ok ==> Read(l) == Malformed
    ensures l.after != [] && l.after[0].Children? && (l.filters == [] || l.after[0].kids == []) ==>
              Read(l) == Malformed
  {
    hide Weight, WeightAll, AddFilter, Depths;
  }

  function Start(doc: seq<Xml>): Reader
    requires doc != []
    ensures ValidReader(Start(doc))
  {
    Reader(doc[1..], [], [], FEET, FEET, [])
  }

  // ---- What a document stands for ----

  /** A document that the reader gives up on: somewhere in reading order a filter
      refuses its own state, or a list of children is quite empty or comes before
      any filter (`seen` tells whether one has been read). */
  predicate Refused(nodes: seq<Xml>, seen: bool) {
    nodes != [] &&
    match nodes[0]
    case Elem(_, ok) => !ok || Refused(nodes[1..], true)
    case Children(kids) => !seen || kids == [] || Refused(kids[1..], true) || Refused(nodes[1..], true)
    case _ => Refused(nodes[1..], seen)
  }

  /** The filters of a list of nodes in reading order. Those of the list itself are
      at depth `k`; a list of children belongs to the filter before it, at depth
      `at`, or to the parent when there is none. The first node of such a list is
      passed over. */
  function Lines(nodes: seq<Xml>, k: nat, at: nat): seq<Entry> {
    if nodes == [] then []
    else match nodes[0]
      case Elem(f, _) => [Entry(k, f)] + Lines(nodes[1..], k, k)
      case Children(kids) => (if kids == [] then [] else Lines(kids[1..], at + 1, at)) + Lines(nodes[1..], k, at)
      case _ => Lines(nodes[1..], k, at)
  }

  lemma {:induction false} LinesAreDeep(nodes: seq<Xml>, k: nat, at: nat)
    requires k <= at + 1
    ensures forall i | 0 <= i < |Lines(nodes, k, at)| :: k <= Lines(nodes, k, at)[i].depth
  {
    if nodes != [] {
      match nodes[0]
      case Elem(f, _) => LinesAreDeep(nodes[1..], k, k);
      case Children(kids) =>
        LinesAreDeep(nodes[1..], k, at);
        if kids != [] { LinesAreDeep(kids[1..], at + 1, at); }
      case _ => LinesAreDeep(nodes[1..], k, at);
    }
  }

  function NextAt(s: seq<Entry>, k: nat, j: nat): (e: nat)
    requires j <= |s|
    ensures j <= e <= |s| && (forall i | j <= i < e :: k < s[i].depth) && (e < |s| ==> s[e].depth <= k)
    decreases |s| - j
  {
    if j == |s| || s[j].depth <= k then j else NextAt(s, k, j + 1)
  }

  /** The last root, or 0. */
  function LastRoot(s: seq<Entry>): (p: nat)
    requires s != []
    ensures p < |s| && (p > 0 ==> s[p].depth == 0) && forall i | p < i < |s| :: s[i].depth > 0
  {
    var n := |s| - 1;
    if n == 0 || s[n].depth == 0 then n else LastRoot(s[..n])
  }

  /** The trees of a listing, the last one first. */
  function LastFirst(s: seq<Entry>): seq<Entry>
    decreases |s|
  {
    if s == [] then [] else s[LastRoot(s)..] + LastFirst(s[..LastRoot(s)])
  }

  /** The first tree stays first, the others come in reverse. */
  function Rotate(s: seq<Entry>): seq<Entry> {
    if s == [] then [] else s[..NextAt(s, 0, 1)] + LastFirst(s[NextAt(s, 0, 1)..])
  }

  lemma {:induction false} LastFirstConserves(s: seq<Entry>)
    ensures multiset(LastFirst(s)) == multiset(s)
    decreases |s|
  {
    if s != [] {
      assert s == s[..LastRoot(s)] + s[LastRoot(s)..];
      LastFirstConserves(s[..LastRoot(s)]);
    }
  }

  lemma RotateConserves(s: seq<Entry>)
    ensures multiset(Rotate(s)) == multiset(s)
  {
    if s != [] {
      assert s == s[..NextAt(s, 0, 1)] + s[NextAt(s, 0, 1)..];
      LastFirstConserves(s[NextAt(s, 0, 1)..]);
    }
  }

  // ---- The reader puts every filter where it belongs ----

  /** All nodes after `p` lie below it. */
  ghost predicate Reaches(a: seq<Entry>, p: int) {
    0 <= p < |a| && forall i | p < i < |a| :: a[p].depth < a[i].depth
  }

  /** The reader puts what it reads behind `a`; the older roots `b` follow. */
  ghost predicate Front(l: Reader, a: seq<Entry>, b: seq<Entry>) {
    && ValidReader(l) && l.filters == a + b
    && (forall i | 0 <= i < |l.treeNodeStack| :: l.treeNodeStack[i] < |a|)
    && l.lastTop < |a| && Reaches(a, l.lastFilt)
    && (b != [] ==> b[0].depth == 0)
  }

  function Top(l: Reader): int
    requires l.treeNodeStack != []
  {
    l.treeNodeStack[|l.treeNodeStack| - 1]
  }

  ghost predicate Inner(l: Reader, a: seq<Entry>, b: seq<Entry>) {
    && Front(l, a, b) && l.treeNodeStack != []
    && Reaches(a, Top(l)) && a[Top(l)].depth <= a[l.lastFilt].depth
  }

  /** The reader after it has put `more` behind `a`. */
  function Grown(l: Reader, a: seq<Entry>, more: seq<Entry>, b: seq<Entry>, last: int, after: seq<Xml>): (r: Reader)
  {
    l.(after := after, filters := a + more + b, lastFilt := last)
  }

  lemma FrontEnd(l: Reader, a: seq<Entry>, b: seq<Entry>, p: int)
    requires Front(l, a, b) && Reaches(a, p)
    ensures End(Depths(l.filters), p) == |a| && l.filters[p] == a[p]
  {
    var d := Depths(l.filters);
    var e := End(d, p);
    assert forall k | 0 <= k < |a| :: d[k] == a[k].depth;
    var atEnd := if e < |d| then d[e] else 0;
    var afterA := if b != [] then d[|a|] else 0;
    assert afterA == 0;
  }

  /** A filter in a list of children goes behind `a`. */
  lemma AddUnderTop(l: Reader, a: seq<Entry>, b: seq<Entry>, f: int, rest: seq<Xml>)
    requires Inner(l, a, b)
    ensures ValidReader(l.(after := rest))
    ensures var e := Entry(a[Top(l)].depth + 1, f);
            AddFilter(l.(after := rest), f) == Grown(l, a, [e], b, |a|, rest)
            && Inner(Grown(l, a, [e], b, |a|, rest), a + [e], b)
  {
    FrontEnd(l, a, b, Top(l));
    hide End, Depths;
    var e := Entry(a[Top(l)].depth + 1, f);
    assert InsertAt(l.filters, |a|, e) == a + [e] + b;
    assert ShiftAll(|a|, l.treeNodeStack) == l.treeNodeStack;
  }

  function Down(l: Reader): Reader
    requires l.after != [] && l.after[0].Children? && l.after[0].kids != []
  {
    l.(after := l.after[0].kids[1..], nodeStack := l.nodeStack + [l.after[1..]],
       treeNodeStack := l.treeNodeStack + [l.lastFilt])
  }

  lemma GoesDown(l: Reader, a: seq<Entry>, b: seq<Entry>)
    requires Front(l, a, b) && l.after != [] && l.after[0].Children? && l.after[0].kids != []
    ensures Inner(Down(l), a, b) && Top(Down(l)) == l.lastFilt && Read(l) == Read(Down(l))
  {
    var l' := Down(l);
    forall i | 0 <= i < |l'.treeNodeStack| ensures 0 <= l'.treeNodeStack[i] < |a| {
      if i < |l.treeNodeStack| { assert l'.treeNodeStack[i] == l.treeNodeStack[i]; }
    }
  }

  /** Behind a list of children the reader goes on as before, with the list's
      filters put in. */
  lemma GoesUp(l: Reader, a: seq<Entry>, b: seq<Entry>, more: seq<Entry>, last: int)
    requires Front(l, a, b) && l.after != [] && l.after[0].Children? && l.after[0].kids != []
    requires forall i | 0 <= i < |more| :: a[l.lastFilt].depth < more[i].depth
    requires Inner(Grown(Down(l), a, more, b, last, []), a + more, b)
    ensures var l' := Grown(l, a, more, b, l.lastFilt, l.after[1..]);
            Front(l', a + more, b) && Read(Grown(Down(l), a, more, b, last, [])) == Read(l')
            && (Inner(l, a, b) ==> Inner(l', a + more, b))
  {
    var back := Grown(Down(l), a, more, b, last, []);
    ReadIs(back);
    assert back.nodeStack[..|l.nodeStack|] == l.nodeStack && back.treeNodeStack[..|l.treeNodeStack|] == l.treeNodeStack;
    assert Up(back) == Grown(l, a, more, b, l.lastFilt, l.after[1..]);
    hide Read;
  }

  lemma FrontLets(l: Reader, a: seq<Entry>, b: seq<Entry>)
    requires Front(l, a, b)
    ensures ValidReader(l) && l.filters == a + b && a != [] && l.filters != [] && 0 <= l.lastFilt < |a|
    ensures Inner(l, a, b) ==> l.treeNodeStack != [] && 0 <= Top(l) < |a| && a[Top(l)].depth <= a[l.lastFilt].depth
  {
  }

  lemma GrownIs(l: Reader, a: seq<Entry>, more: seq<Entry>, b: seq<Entry>, last: int, after: seq<Xml>)
    ensures var r := Grown(l, a, more, b, last, after);
            r.after == after && r.filters == a + more + b && r.lastFilt == last && r.lastTop == l.lastTop
            && r.nodeStack == l.nodeStack && r.treeNodeStack == l.treeNodeStack
    ensures l.treeNodeStack != [] && 0 <= Top(l) < |a| ==>
              Top(Grown(l, a, more, b, last, after)) == Top(l) && (a + more)[Top(l)] == a[Top(l)]
  {
  }

  lemma GrownTwice(l: Reader, a: seq<Entry>, x: seq<Entry>, y: seq<Entry>, b: seq<Entry>, m: int, n: int,
                   t: seq<Xml>, u: seq<Xml>)
    ensures Grown(Grown(l, a, x, b, m, t), a + x, y, b, n, u) == Grown(l, a, x + y, b, n, u)
    ensures a + x + y == a + (x + y)
  {
    assert a + x + y == a + (x + y);
  }

  lemma NothingGrown(l: Reader, a: seq<Entry>, b: seq<Entry>)
    requires l.filters == a + b
    ensures Grown(l, a, [], b, l.lastFilt, l.after) == l && a + [] == a
  {
    assert a + [] == a;
  }

  lemma InnerIsFront(l: Reader, a: seq<Entry>, b: seq<Entry>)
    requires Inner(l, a, b)
    ensures Front(l, a, b) && ValidReader(l)
  {
  }

  lemma DownIs(l: Reader)
    requires l.after != [] && l.after[0].Children? && l.after[0].kids != []
    ensures Down(l).after == l.after[0].kids[1..] && Down(l).lastFilt == l.lastFilt
    ensures Down(l).treeNodeStack != []
  {
  }

  /** Passing over a node that is no filter. */
  lemma Skipped(l: Reader, a: seq<Entry>, b: seq<Entry>)
    requires Inner(l, a, b) && l.after != []
    ensures var l' := Grown(l, a, [], b, l.lastFilt, l.after[1..]);
            Inner(l', a + [], b) && l' == l.(after := l.after[1..])
  {
    assert a + [] == a;
  }

  lemma LinesIs(nodes: seq<Xml>, k: nat, at: nat)
    ensures nodes == [] ==> Lines(nodes, k, at) == []
    ensures nodes != [] && nodes[0].Elem? ==> Lines(nodes, k, at) == [Entry(k, nodes[0].f)] + Lines(nodes[1..], k, k)
    ensures nodes != [] && nodes[0].Children? && nodes[0].kids != [] ==>
              Lines(nodes, k, at) == Lines(nodes[0].kids[1..], at + 1, at) + Lines(nodes[1..], k, at)
    ensures nodes != [] && (nodes[0].Text? || nodes[0].Unknown?) ==> Lines(nodes, k, at) == Lines(nodes[1..], k, at)
  {
  }

  lemma RefusedIs(nodes: seq<Xml>, seen: bool)
    ensures nodes == [] ==> !Refused(nodes, seen)
    ensures nodes != [] && nodes[0].Elem? ==> (Refused(nodes, seen) <==> !nodes[0].ok || Refused(nodes[1..], true))
    ensures nodes != [] && nodes[0].Children? ==>
              (Refused(nodes, seen) <==>
                (!seen || nodes[0].kids == [] || Refused(nodes[0].kids[1..], true) || Refused(nodes[1..], true)))
    ensures nodes != [] && (nodes[0].Text? || nodes[0].Unknown?) ==> (Refused(nodes, seen) <==> Refused(nodes[1..], seen))
  {
  }

  /** A list of children is read as its lines, at depth `k` behind `a`. */
  lemma {:induction false} ReadInner(l: Reader, a: seq<Entry>, b: seq<Entry>, k: nat, at: nat) returns (last: int)
    requires Inner(l, a, b) && 0 <= Top(l) < |a| && k == a[Top(l)].depth + 1
    requires 0 <= l.lastFilt < |a| && at == a[l.lastFilt].depth
    ensures ValidReader(l)
    ensures Refused(l.after, true) ==> Read(l) == Malformed
    ensures !Refused(l.after, true) ==>
              var more := Lines(l.after, k, at);
              Inner(Grown(l, a, more, b, last, []), a + more, b)
              && ValidReader(Grown(l, a, more, b, last, [])) && Read(l) == Read(Grown(l, a, more, b, last, []))
    decreases l.after, 1
  {
    hide *;
    InnerIsFront(l, a, b);
    FrontLets(l, a, b);
    ReadIs(l);
    LinesIs(l.after, k, at);
    RefusedIs(l.after, true);
    last := l.lastFilt;
    if l.after == [] {
      NothingGrown(l, a, b);
    } else if (l.after[0].Elem? ==> l.after[0].ok) && (l.after[0].Children? ==> l.after[0].kids != []) {
      var rest := l.after[1..];
      var more, m, next := [], l.lastFilt, at;
      match l.after[0] {
        case Elem(f, ok) =>
          AddUnderTop(l, a, b, f, rest);
          more, m, next := [Entry(k, f)], |a|, k;
        case Children(kids) =>
          more := ReadBlock(l, a, b, at);
          if Refused(kids[1..], true) { return; }
        case _ =>
          Skipped(l, a, b);
      }
      var l1 := Grown(l, a, more, b, m, rest);
      GrownIs(l, a, more, b, m, rest);
      InnerIsFront(l1, a + more, b);
      FrontLets(l1, a + more, b);
      last := ReadInner(l1, a + more, b, k, next);
      assert [] + Lines(rest, k, next) == Lines(rest, k, next);
      GrownTwice(l, a, more, Lines(rest, k, next), b, m, last, rest, []);
    }
  }

  /** One list of children, behind the filter read last. */
  lemma {:induction false} ReadBlock(l: Reader, a: seq<Entry>, b: seq<Entry>, at: nat) returns (more: seq<Entry>)
    requires Front(l, a, b) && l.after != [] && l.after[0].Children? && l.after[0].kids != []
    requires 0 <= l.lastFilt < |a| && at == a[l.lastFilt].depth
    ensures more == Lines(l.after[0].kids[1..], at + 1, at) && ValidReader(l)
    ensures Refused(l.after[0].kids[1..], true) ==> Read(l) == Malformed
    ensures !Refused(l.after[0].kids[1..], true) ==>
              var l' := Grown(l, a, more, b, l.lastFilt, l.after[1..]);
              Front(l', a + more, b) && ValidReader(l') && Read(l) == Read(l')
              && (Inner(l, a, b) ==> Inner(l', a + more, b))
    decreases l.after, 0
  {
    hide *;
    var kids := l.after[0].kids[1..];
    more := Lines(kids, at + 1, at);
    FrontLets(l, a, b);
    GoesDown(l, a, b);
    DownIs(l);
    var last := ReadInner(Down(l), a, b, at + 1, at);
    if !Refused(kids, true) {
      LinesAreDeep(kids, at + 1, at);
      GoesUp(l, a, b, more, last);
      FrontLets(Grown(l, a, more, b, l.lastFilt, l.after[1..]), a + more, b);
    }
  }

  // ---- The roots ----

  /** Between roots, when `s` has been read: the last root and what is below it
      stand behind the first tree, unless they are the first tree. */
  ghost predicate Outer(l: Reader, s: seq<Entry>) {
    && ValidReader(l) && l.nodeStack == [] && l.treeNodeStack == []
    && s != [] && s[0].depth == 0 && l.filters == Rotate(s)
    && l.lastFilt == LastAt(s)
    && l.lastTop == if LastRoot(s) == 0 then FEET else LastAt(s)
  }

  /** Where the last root of a listing stands after the rotation. */
  function LastAt(s: seq<Entry>): (p: nat)
    requires s != []
  {
    if LastRoot(s) == 0 then 0 else NextAt(s, 0, 1)
  }

  /** What the reader's list is up to the end of the last tree read, and the rest. */
  function Ahead(s: seq<Entry>): seq<Entry>
    requires s != []
  {
    if LastRoot(s) == 0 then s else s[..NextAt(s, 0, 1)] + s[LastRoot(s)..]
  }

  function Behind(s: seq<Entry>): seq<Entry>
    requires s != []
  {
    if LastRoot(s) == 0 || LastRoot(s) < NextAt(s, 0, 1) then [] else LastFirst(s[NextAt(s, 0, 1)..LastRoot(s)])
  }

  lemma {:induction false} LastFirstRoot(s: seq<Entry>)
    requires s != [] ==> s[0].depth == 0
    ensures s != [] ==> LastFirst(s) != [] && LastFirst(s)[0].depth == 0
  {
    if s != [] {
      assert s[LastRoot(s)..] != [];
    }
  }

  lemma LastRootIs(s: seq<Entry>, p: nat)
    requires p < |s| && (p > 0 ==> s[p].depth == 0) && forall i | p < i < |s| :: s[i].depth > 0
    ensures LastRoot(s) == p
  {
  }

  lemma NextAtIs(s: seq<Entry>, j: nat, e: nat)
    requires j <= e <= |s| && (forall i | j <= i < e :: 0 < s[i].depth) && (e < |s| ==> s[e].depth == 0)
    ensures NextAt(s, 0, j) == e
  {
  }

  lemma LastFirstIs(s: seq<Entry>)
    ensures LastFirst([]) == []
    ensures s != [] ==> LastFirst(s) == s[LastRoot(s)..] + LastFirst(s[..LastRoot(s)])
  {
  }

  lemma RotateIs(s: seq<Entry>)
    requires s != []
    ensures Rotate(s) == s[..NextAt(s, 0, 1)] + LastFirst(s[NextAt(s, 0, 1)..])
  {
  }

  lemma LastFirstSplits(s: seq<Entry>, p: nat)
    requires p < |s| && s[p].depth == 0 && forall i | p < i < |s| :: s[i].depth > 0
    ensures LastFirst(s) == s[p..] + LastFirst(s[..p])
  {
    LastRootIs(s, p);
    LastFirstIs(s);
  }

  lemma RotateSplits(s: seq<Entry>)
    requires s != [] && s[0].depth == 0
    ensures Rotate(s) == Ahead(s) + Behind(s)
    ensures Behind(s) != [] ==> Behind(s)[0].depth == 0
  {
    hide LastFirst, Rotate;
    var e, p := NextAt(s, 0, 1), LastRoot(s);
    RotateIs(s);
    LastFirstIs([]);
    if p == 0 {
      NextAtIs(s, 1, |s|);
      assert s[..|s|] == s && s[|s|..] == [];
    } else {
      var later := s[e..];
      LastFirstSplits(later, p - e);
      assert later[p - e..] == s[p..] && later[..p - e] == s[e..p];
      LastFirstRoot(s[e..p]);
    }
  }

  lemma AheadReaches(s: seq<Entry>)
    requires s != [] && s[0].depth == 0
    ensures LastAt(s) < |Ahead(s)| && Reaches(Ahead(s), LastAt(s)) && Ahead(s)[LastAt(s)].depth == 0
  {
  }

  /** More nodes below the last root. */
  lemma RotateGrows(s: seq<Entry>, more: seq<Entry>)
    requires s != [] && s[0].depth == 0 && forall i | 0 <= i < |more| :: more[i].depth > 0
    ensures Rotate(s + more) == Ahead(s) + more + Behind(s)
    ensures LastAt(s + more) == LastAt(s) && LastRoot(s + more) == LastRoot(s)
  {
    hide LastFirst, Rotate;
    var e, p, t := NextAt(s, 0, 1), LastRoot(s), s + more;
    LastRootIs(t, p);
    RotateSplits(t);
    if p > 0 {
      NextAtIs(t, 1, e);
      assert t[..e] == s[..e] && t[p..] == s[p..] + more && t[e..p] == s[e..p];
      assert s[..e] + (s[p..] + more) == s[..e] + s[p..] + more;
    }
  }

  lemma LastFirstRootAdded(s: seq<Entry>, x: Entry)
    requires x.depth == 0
    ensures LastFirst(s + [x]) == [x] + LastFirst(s)
  {
    hide LastFirst;
    LastFirstSplits(s + [x], |s|);
    assert (s + [x])[|s|..] == [x] && (s + [x])[..|s|] == s;
  }

  lemma Inserted(a: seq<Entry>, b: seq<Entry>, x: Entry)
    ensures InsertAt(a + b, |a|, x) == a + ([x] + b)
  {
    assert (a + b)[..|a|] == a && (a + b)[|a|..] == b;
  }

  /** One more root. */
  lemma RotateRoot(s: seq<Entry>, x: Entry)
    requires s != [] && s[0].depth == 0 && x.depth == 0
    ensures NextAt(s, 0, 1) <= |Rotate(s)| && Rotate(s + [x]) == InsertAt(Rotate(s), NextAt(s, 0, 1), x)
  {
    hide LastFirst, Rotate, NextAt, InsertAt;
    var e, t := NextAt(s, 0, 1), s + [x];
    RotateIs(s);
    RotateIs(t);
    NextAtIs(t, 1, e);
    assert t[..e] == s[..e] && t[e..] == s[e..] + [x];
    LastFirstRootAdded(s[e..], x);
    Inserted(s[..e], LastFirst(s[e..]), x);
  }

  lemma RotatedRoots(s: seq<Entry>)
    requires s != [] && s[0].depth == 0
    ensures NextAt(s, 0, 1) == if LastRoot(s) == 0 then |Rotate(s)| else LastAt(s)
  {
    hide LastFirst, Rotate;
    RotateIs(s);
    LastFirstIs([]);
    if LastRoot(s) == 0 {
      NextAtIs(s, 1, |s|);
      assert s[..|s|] == s && s[|s|..] == [];
    }
  }

  lemma RootLast(s: seq<Entry>, x: Entry)
    requires s != [] && s[0].depth == 0 && x.depth == 0
    ensures LastAt(s + [x]) == NextAt(s, 0, 1) && LastRoot(s + [x]) == |s|
  {
    LastRootIs(s + [x], |s|);
    NextAtIs(s + [x], 1, NextAt(s, 0, 1));
  }

  lemma OuterFront(l: Reader, s: seq<Entry>)
    requires Outer(l, s)
    ensures Front(l, Ahead(s), Behind(s)) && ValidReader(l) && l.filters != []
    ensures LastAt(s) < |Ahead(s)| && Ahead(s)[LastAt(s)].depth == 0 && l.lastFilt == LastAt(s)
    ensures l.filters == Rotate(s) && l.nodeStack == [] && s != []
  {
    RotateSplits(s);
    AheadReaches(s);
  }

  lemma AddRoot(l: Reader, s: seq<Entry>, f: int, rest: seq<Xml>)
    requires Outer(l, s)
    ensures ValidReader(l.(after := rest)) && Outer(AddFilter(l.(after := rest), f), s + [Entry(0, f)])
  {
    RotateRoot(s, Entry(0, f));
    RotatedRoots(s);
    RootLast(s, Entry(0, f));
    hide Rotate, LastRoot, LastAt, Depths;
  }

  lemma GrowRoot(l: Reader, s: seq<Entry>, more: seq<Entry>, rest: seq<Xml>)
    requires Outer(l, s) && forall i | 0 <= i < |more| :: more[i].depth > 0
    ensures Front(l, Ahead(s), Behind(s)) && l.lastFilt == LastAt(s)
    ensures ValidReader(Grown(l, Ahead(s), more, Behind(s), l.lastFilt, rest)) ==>
              Outer(Grown(l, Ahead(s), more, Behind(s), l.lastFilt, rest), s + more)
  {
    RotateGrows(s, more);
    OuterFront(l, s);
  }

  lemma SkipRoot(l: Reader, s: seq<Entry>, rest: seq<Xml>)
    requires Outer(l, s)
    ensures Outer(l.(after := rest), s)
  {
  }

  /** At the top, what has been read already and what is still to come are rotated. */
  lemma {:induction false} ReadOuter(l: Reader, s: seq<Entry>)
    requires Outer(l, s)
    ensures ValidReader(l)
    ensures Read(l) == if Refused(l.after, true) then Malformed else Loaded(Rotate(s + Lines(l.after, 0, 0)))
    decreases l.after
  {
    hide *;
    OuterFront(l, s);
    ReadIs(l);
    LinesIs(l.after, 0, 0);
    RefusedIs(l.after, true);
    if l.after == [] {
      assert s + [] == s;
    } else if (l.after[0].Elem? ==> l.after[0].ok) && (l.after[0].Children? ==> l.after[0].kids != []) {
      var rest := l.after[1..];
      var more, l1 := [], l.(after := rest);
      match l.after[0] {
        case Elem(f, ok) =>
          AddRoot(l, s, f, rest);
          more, l1 := [Entry(0, f)], AddFilter(l.(after := rest), f);
          AddFilterAfter(l.(after := rest), f);
        case Children(kids) =>
          more := ReadBlock(l, Ahead(s), Behind(s), 0);
          if Refused(kids[1..], true) { return; }
          LinesAreDeep(kids[1..], 1, 0);
          GrowRoot(l, s, more, rest);
          l1 := Grown(l, Ahead(s), more, Behind(s), l.lastFilt, rest);
          GrownIs(l, Ahead(s), more, Behind(s), l.lastFilt, rest);
        case _ =>
          SkipRoot(l, s, rest);
          assert s + [] == s;
      }
      ReadOuter(l1, s + more);
      assert s + more + Lines(rest, 0, 0) == s + (more + Lines(rest, 0, 0));
      assert [] + Lines(rest, 0, 0) == Lines(rest, 0, 0);
    }
  }

  lemma AddFilterAfter(l: Reader, f: int)
    requires ValidReader(l)
    ensures AddFilter(l, f).after == l.after
  {
  }

  ghost predicate Empty(l: Reader) {
    l.nodeStack == [] && l.treeNodeStack == [] && l.lastFilt == l.lastTop == FEET && l.filters == []
  }

  lemma FirstRoot(l: Reader, f: int)
    requires Empty(l)
    ensures ValidReader(l) && Outer(AddFilter(l, f), [Entry(0, f)])
  {
    var s := [Entry(0, f)];
    assert s[..1] == s && s[1..] == [];
  }

  lemma EmptyIs(l: Reader)
    requires Empty(l)
    ensures ValidReader(l) && l.nodeStack == [] && l.filters == []
    ensures forall rest :: Empty(l.(after := rest))
    ensures Rotate([]) == []
  {
  }

  lemma {:induction false} ReadFirst(l: Reader)
    requires Empty(l)
    ensures ValidReader(l)
    ensures Read(l) == if Refused(l.after, false) then Malformed else Loaded(Rotate(Lines(l.after, 0, 0)))
    decreases l.after
  {
    hide *;
    EmptyIs(l);
    ReadIs(l);
    LinesIs(l.after, 0, 0);
    RefusedIs(l.after, false);
    if l.after != [] {
      var l1 := l.(after := l.after[1..]);
      match l.after[0]
      case Elem(f, ok) =>
        if ok {
          FirstRoot(l1, f);
          AddFilterAfter(l1, f);
          ReadOuter(AddFilter(l1, f), [Entry(0, f)]);
        }
      case Children(_) =>
      case _ => ReadFirst(l1);
    }
  }

  /** What the reader makes of any document: nothing, if it is refused, and
      otherwise its filters in reading order at their depths, with the trees after
      the first in reverse. */
  lemma ReadDocument(doc: seq<Xml>)
    requires doc != []
    ensures Read(Start(doc)) == if Refused(doc[1..], false) then Malformed else Loaded(Rotate(Lines(doc[1..], 0, 0)))
  {
    ReadFirst(Start(doc));
  }

  // ---- The loop ----

  /** How much is left to be read. */
  function Left(l: Reader): nat {
    Weight(l.after) + WeightAll(l.nodeStack)
  }

  /** Every round of the loop takes one step of the reader and leaves less to do. */
  lemma StepTaken(l: Reader)
    requires ValidReader(l)
    ensures |l.nodeStack| == |l.treeNodeStack|
    ensures l.after == [] && l.nodeStack != [] ==>
              Left(Up(l)) == Left(l) && |Up(l).nodeStack| < |l.nodeStack| && ValidReader(Up(l)) && Read(l) == Read(Up(l))
    ensures l.after != [] ==> Left(l.(after := l.after[1..])) < Left(l) && ValidReader(l.(after := l.after[1..]))
    ensures l.after != [] && (l.after[0].Text? || l.after[0].Unknown?) ==> Read(l) == Read(l.(after := l.after[1..]))
  {
    hide Read;
    ReadIs(l);
    if l.after == [] && l.nodeStack != [] {
      assert Weight([]) == 0;
    }
  }

  lemma ElemTaken(l: Reader, f: int)
    requires ValidReader(l) && l.after != [] && l.after[0] == Elem(f, true)
    ensures var l' := AddFilter(l.(after := l.after[1..]), f);
            ValidReader(l.(after := l.after[1..])) && ValidReader(l') && Left(l') < Left(l) && Read(l) == Read(l')
  {
    hide AddFilter;
    ReadIs(l);
  }

  lemma ChildrenTaken(l: Reader)
    requires ValidReader(l) && l.filters != [] && l.after != [] && l.after[0].Children? && l.after[0].kids != []
    ensures ValidReader(Down(l)) && Left(Down(l)) < Left(l) && Read(l) == Read(Down(l))
  {
    assert (l.nodeStack + [l.after[1..]])[..|l.nodeStack|] == l.nodeStack;
    assert Weight(l.after[0].kids) >= 1 + Weight(l.after[0].kids[1..]);
  }

  lemma UpWritten(l: Reader)
    requires l.nodeStack != [] && |l.treeNodeStack| == |l.nodeStack|
    ensures var n := |l.nodeStack|;
            Up(l) == l.(after := l.nodeStack[n - 1], nodeStack := l.nodeStack[..n - 1],
                        treeNodeStack := l.treeNodeStack[..n - 1], lastFilt := l.treeNodeStack[n - 1])
  {
  }

  lemma DownWritten(l: Reader)
    requires l.after != [] && l.after[0].Children? && l.after[0].kids != []
    ensures Down(l) == l.(after := l.after[0].kids[1..], nodeStack := l.nodeStack + [l.after[1..]],
                          treeNodeStack := l.treeNodeStack + [l.lastFilt])
  {
  }

  /** Fails exactly on the documents that are refused; from any other it makes the
      tree of the document's filters, every one in its place. */
  method LoadXML(doc: seq<Xml>) returns (code: nat, filters: seq<Entry>)
    requires doc != []
    ensures code == if Refused(doc[1..], false) then 1 else 0
    ensures filters == if code == 0 then Rotate(Lines(doc[1..], 0, 0)) else []
  {
    hide *;
    ReadDocument(doc);
    var l := Start(doc);
    ghost var document := Read(l);
    var inTree := true;
    while inTree
      invariant ValidReader(l)
      invariant document == if inTree then Read(l) else Loaded(l.filters)
      decreases inTree, Left(l), |l.nodeStack|
    {
      // Jump to the next element at this depth.
      ghost var before := l;
      while l.after != [] && l.after[0].Text?
        invariant ValidReader(l) && document == Read(l)
        invariant l.nodeStack == before.nodeStack && Left(l) <= Left(before)
        decreases Left(l)
      {
        StepTaken(l);
        l := l.(after := l.after[1..]);
      }
      StepTaken(l);
      ReadIs(l);
      var n := |l.nodeStack|;
      if l.after == [] {
        if n > 0 {
          UpWritten(l);
          l := l.(after := l.nodeStack[n - 1], nodeStack := l.nodeStack[..n - 1],
                  treeNodeStack := l.treeNodeStack[..n - 1], lastFilt := l.treeNodeStack[n - 1]);
        } else {
          inTree := false;
        }
        continue;
      }
      var node, rest := l.after[0], l.after[1..];
      if node.Children? {
        if l.filters == [] || node.kids == [] {
          return 1, [];
        }
        ChildrenTaken(l);
        DownWritten(l);
        l := l.(after := node.kids[1..], nodeStack := l.nodeStack + [rest], treeNodeStack := l.treeNodeStack + [l.lastFilt]);
      } else if node.Elem? {
        if !node.ok {
          return 1, [];
        }
        ElemTaken(l, node.f);
        l := AddFilter(l.(after := rest), node.f);
      } else {
        l := l.(after := rest);
      }
    }
    return 0, l.filters;
  }
}
