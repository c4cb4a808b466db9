/** Counting the entries of a list. */
module Counting {

  ghost predicate NoDup<T>(s: seq<T>) {
    forall i, j | 0 <= i < j < |s| :: s[i] != s[j]
  }

  function Elements<T(==)>(q: seq<T>): set<T> {
    set x | x in q
  }

  lemma {:induction false} ElementCount(q: seq<nat>)
    ensures |Elements(q)| <= |q|
    ensures NoDup(q) ==> |Elements(q)| == |q|
  {
    if q != [] {
      var r := q[..|q| - 1];
      ElementCount(r);
      assert q == r + [q[|q| - 1]];
      assert Elements(q) == Elements(r) + {q[|q| - 1]};
    }
  }

  function Upto(p: nat): (r: set<nat>)
    ensures forall x :: x in r <==> 1 <= x <= p
    ensures |r| == p
  {
    if p == 0 then {} else Upto(p - 1) + {p}
  }

  lemma SubsetCount<T>(a: set<T>, b: set<T>)
    requires a <= b
    ensures |a| <= |b|
    ensures |a| == |b| ==> a == b
  {
    assert b == a + (b - a);
    assert |b| == |a| + |b - a|;
  }

  /** Distinct numbers from 1 to p are at most p of them, and p only if all are there. */
  lemma Pigeonhole(q: seq<nat>, p: nat)
    requires NoDup(q) && forall x :: x in q ==> 1 <= x <= p
    ensures |q| <= p
    ensures |q| == p ==> forall x :: 1 <= x <= p ==> x in q
  {
    ElementCount(q);
    SubsetCount(Elements(q), Upto(p));
    if |q| == p {
      forall x | 1 <= x <= p ensures x in q {
        assert x in Elements(q);
      }
    }
  }

  /** A list holding all of 1 to p has at least p entries. */
  lemma CoverCount(q: seq<nat>, p: nat)
    requires forall x :: 1 <= x <= p ==> x in q
    ensures |q| >= p
  {
    ElementCount(q);
    SubsetCount(Upto(p), Elements(q));
  }

  function {:induction false} CountBelow(p: nat): (r: set<nat>)
    ensures forall x :: x in r <==> 0 <= x < p
    ensures |r| == p
  {
    if p == 0 then {} else CountBelow(p - 1) + {p - 1}
  }

  /** A list holding all the numbers below p has at least p entries. */
  lemma CoverCountFromZero(q: seq<nat>, p: nat)
    requires forall x :: 0 <= x < p ==> x in q
    ensures |q| >= p
  {
    ElementCount(q);
    SubsetCount(CountBelow(p), Elements(q));
  }

  // ---- Picking entries of a list ----

  /** `r` is what is left of `s` when only the entries at the open places are kept, in
      their order; `idx` are the places, ascending. */
  ghost predicate IsPicked<T>(s: seq<T>, open: set<nat>, idx: seq<nat>, r: seq<T>) {
    && |idx| == |r|
    && (forall j | 0 <= j < |idx| :: idx[j] < |s| && r[j] == s[idx[j]])
    && (forall j, k | 0 <= j < k < |idx| :: idx[j] < idx[k])
    && forall k :: k in idx <==> k in open
  }

  lemma PickNext<T>(s: seq<T>, open: set<nat>, idx: seq<nat>, r: seq<T>, x: T, open': set<nat>) returns (idx': seq<nat>)
    requires IsPicked(s, open, idx, r) && (open' == open || open' == open + {|s|})
    ensures IsPicked(s + [x], open', idx', if |s| in open' then r + [x] else r)
  {
    forall k | k in open ensures k < |s| { assert k in idx; }
    idx' := if |s| in open' then idx + [|s|] else idx;
  }

  /** Picking from the same places gives the same. */
  lemma PickedOnce<T>(s: seq<T>, open: set<nat>, idx: seq<nat>, a: seq<T>, pick: seq<nat>, b: seq<T>)
    requires IsPicked(s, open, idx, a) && IsPicked(s, open, pick, b)
    ensures a == b
  {
    AscendingOnce(idx, pick);
  }

  lemma FirstIsIn<T>(s: seq<T>)
    ensures s != [] ==> s[0] in s
  {
  }

  lemma {:induction false} AscendingOnce(a: seq<nat>, b: seq<nat>)
    requires forall j, k | 0 <= j < k < |a| :: a[j] < a[k]
    requires forall j, k | 0 <= j < k < |b| :: b[j] < b[k]
    requires forall k :: k in a <==> k in b
    ensures a == b
  {
    FirstIsIn(b);
    if a != [] {
      var m := |a| - 1;
      assert a[m] in a;
      var j :| 0 <= j < |b| && b[j] == a[m];
      var n := |b| - 1;
      assert b[n] in b;
      var i :| 0 <= i < |a| && a[i] == b[n];
      assert a == a[..m] + [a[m]] && b == b[..n] + [b[n]];
      assert a[m] == b[n];
      forall k ensures k in a[..m] <==> k in b[..n] {
        assert k in a[..m] ==> k in a && k != a[m];
        assert k in b[..n] ==> k in b && k != b[n];
      }
      AscendingOnce(a[..m], b[..n]);
    }
  }

  function Raised(s: seq<nat>): (r: seq<nat>)
    ensures |r| == |s| && forall i | 0 <= i < |s| :: r[i] == s[i] + 1
  {
    seq(|s|, i requires 0 <= i < |s| => s[i] + 1)
  }

  lemma RaisedHas(s: seq<nat>, x: nat)
    ensures x in Raised(s) <==> x > 0 && x - 1 in s
  {
    if x > 0 && x - 1 in s {
      var i :| 0 <= i < |s| && s[i] == x - 1;
      assert Raised(s)[i] == x;
    }
  }

  /** Picking from a list with one entry more at its head. */
  lemma PickFirst<T>(x: T, s: seq<T>, open: set<nat>, idx: seq<nat>, r: seq<T>, keep: bool, open': set<nat>)
    requires IsPicked(s, open, idx, r)
    requires forall k: nat :: k in open' <==> if k == 0 then keep else k - 1 in open
    ensures IsPicked([x] + s, open', (if keep then [0] else []) + Raised(idx), (if keep then [x] else []) + r)
  {
    var idx', r' := (if keep then [0] else []) + Raised(idx), (if keep then [x] else []) + r;
    forall k: nat ensures k in idx' <==> k in open' { RaisedHas(idx, k); }
    forall j | 0 <= j < |idx'| ensures idx'[j] < |s| + 1 && r'[j] == ([x] + s)[idx'[j]] {
      var h := if keep then j - 1 else j;
      if h >= 0 { assert idx'[j] == idx[h] + 1 && r'[j] == r[h]; }
    }
  }
}
