/** Naming every filter by a path of type names, and back. */
module PathNames {
  import opened Counting
  import opened PreOrder

  // ---- Decimal numerals ----

  function Digit(n: nat): char
    requires n < 10
  {
    "0123456789"[n]
  }

  function Decimal(n: nat): (s: string)
    ensures s != []
  {
    if n < 10 then [Digit(n)] else Decimal(n / 10) + [Digit(n % 10)]
  }

  /** The numeral's last digit is the unit digit, and what stands before it is the numeral
      of the rest. */
  lemma DecimalIs(n: nat)
    ensures n < 10 ==> Decimal(n) == [('0' as int + n) as char]
    ensures n >= 10 ==> Decimal(n) == Decimal(n / 10) + [('0' as int + n % 10) as char]
  {
  }

  lemma {:induction false} DecimalInjective(a: nat, b: nat)
    requires Decimal(a) == Decimal(b)
    ensures a == b
  {
    var s, t := Decimal(a), Decimal(b);
    assert s[|s| - 1] == Digit(a % 10) && t[|t| - 1] == Digit(b % 10);
    if a >= 10 && b >= 10 {
      assert s[..|s| - 1] == Decimal(a / 10) && t[..|t| - 1] == Decimal(b / 10);
      DecimalInjective(a / 10, b / 10);
    }
  }

  // ---- Candidate names ----

  const PATH_NONCE := "$>"

  /** The first name tried, and the names tried when it is taken. */
  function Candidate(parent: string, typeName: string, nonce: nat): string {
    if nonce == 0 then parent + "/" + typeName
    else parent + typeName + PATH_NONCE + Decimal(nonce)
  }

  lemma CandidateIs(parent: string, typeName: string, nonce: nat)
    ensures Candidate(parent, typeName, nonce) ==
            if nonce == 0 then parent + "/" + typeName else parent + typeName + "$>" + Decimal(nonce)
  {
  }

  lemma NoncesDiffer(parent: string, typeName: string, a: nat, b: nat)
    requires 0 < a && 0 < b && Candidate(parent, typeName, a) == Candidate(parent, typeName, b)
    ensures a == b
  {
    var stem := parent + typeName + PATH_NONCE;
    assert (stem + Decimal(a))[|stem|..] == Decimal(a);
    assert (stem + Decimal(b))[|stem|..] == Decimal(b);
    DecimalInjective(a, b);
  }

  function Tried(parent: string, typeName: string, n: nat): (s: set<string>)
    ensures forall k: nat | 0 < k <= n :: Candidate(parent, typeName, k) in s
    ensures forall x | x in s :: exists k: nat :: 0 < k <= n && x == Candidate(parent, typeName, k)
  {
    if n == 0 then {} else Tried(parent, typeName, n - 1) + {Candidate(parent, typeName, n)}
  }

  /** Pigeonhole: the names tried with nonces 1..n are n different names. */
  lemma {:induction false} TriedSize(parent: string, typeName: string, n: nat)
    ensures |Tried(parent, typeName, n)| == n
  {
    if n > 0 {
      TriedSize(parent, typeName, n - 1);
      var x := Candidate(parent, typeName, n);
      if x in Tried(parent, typeName, n - 1) {
        var k: nat :| 0 < k <= n - 1 && x == Candidate(parent, typeName, k);
        NoncesDiffer(parent, typeName, k, n);
        assert false;
      }
    }
  }

  /** `path` is a proper name for a filter of type `typeName` under `parent`. */
  ghost predicate NameOf(path: string, parent: string, typeName: string) {
    exists nonce: nat :: path == Candidate(parent, typeName, nonce)
  }

  method FreshName(parent: string, typeName: string, taken: set<string>) returns (path: string)
    ensures path !in taken && NameOf(path, parent, typeName)
    ensures parent + "/" + typeName !in taken ==> path == parent + "/" + typeName
    ensures IsFirstFree(path, parent, typeName, taken)
  {
    hide IsFirstFree;
    var nonce: nat := 0;
    path := parent + "/" + typeName;
    while path in taken
      invariant path == Candidate(parent, typeName, nonce)
      invariant nonce > 0 ==> Candidate(parent, typeName, 0) in taken
      invariant Tried(parent, typeName, if nonce == 0 then 0 else nonce - 1) <= taken
      decreases |taken| + 1 - nonce
    {
      TriedSize(parent, typeName, nonce);
      assert Tried(parent, typeName, nonce) <= taken;
      SubsetCount(Tried(parent, typeName, nonce), taken);
      nonce := nonce + 1;
      path := parent + typeName + PATH_NONCE + Decimal(nonce);
    }
    FirstFree(path, parent, typeName, taken, nonce);
  }

  /** The plain name if that is free, and otherwise the name with the least nonce whose
      name is free. */
  ghost predicate IsFirstFree(path: string, parent: string, typeName: string, taken: set<string>) {
    if parent + "/" + typeName !in taken then path == parent + "/" + typeName
    else exists n: nat :: LeastNonce(path, parent + typeName, taken, n)
  }

  ghost predicate LeastNonce(path: string, stem: string, taken: set<string>, n: nat) {
    && n >= 1 && path == stem + "$>" + Decimal(n) && path !in taken
    && forall m: nat | 1 <= m < n :: stem + "$>" + Decimal(m) in taken
  }

  lemma FirstFree(path: string, parent: string, typeName: string, taken: set<string>, nonce: nat)
    requires path == Candidate(parent, typeName, nonce) && path !in taken
    requires nonce > 0 ==> Candidate(parent, typeName, 0) in taken
    requires Tried(parent, typeName, if nonce == 0 then 0 else nonce - 1) <= taken
    ensures IsFirstFree(path, parent, typeName, taken)
  {
    hide Decimal, Tried;
    CandidateIs(parent, typeName, 0);
    CandidateIs(parent, typeName, nonce);
    if nonce > 0 {
      forall m: nat | 1 <= m < nonce ensures parent + typeName + "$>" + Decimal(m) in taken {
        CandidateIs(parent, typeName, m);
        assert Candidate(parent, typeName, m) in Tried(parent, typeName, nonce - 1);
      }
      assert LeastNonce(path, parent + typeName, taken, nonce);
    }
  }

  // ---- The whole forest ----

  /** The path of the parent, or the empty path above a root. */
  function ParentPath(d: seq<nat>, paths: seq<string>, i: nat): string
    requires Valid(d) && i < |d| && i <= |paths|
  {
    if Parent(d, i) == -1 then "" else paths[Parent(d, i)]
  }

  /** Level `j` of the stack is the path of the last node seen at depth `j - 1`. */
  ghost predicate StackHolds(d: seq<nat>, paths: seq<string>, stack: seq<string>, anc: seq<nat>, i: nat)
    requires i <= |d| && i <= |paths|
  {
    && |stack| == |anc| == (if i == 0 then 1 else d[i - 1] + 2)
    && stack[0] == ""
    && forall j | 1 <= j < |stack| ::
         anc[j] < i && d[anc[j]] == j - 1 && Within(d, anc[j], i - 1) && stack[j] == paths[anc[j]]
  }

  lemma TopIsParent(d: seq<nat>, paths: seq<string>, stack: seq<string>, anc: seq<nat>, i: nat)
    requires Valid(d) && i < |d| && i <= |paths| && StackHolds(d, paths, stack, anc, i)
    ensures d[i] + 1 <= |stack| && stack[d[i]] == ParentPath(d, paths, i)
  {
    assert d[0] == 0;
    if d[i] > 0 {
      var a := anc[d[i]];
      forall k | a < k <= i ensures d[a] < d[k] {
        if k < i { assert Within(d, a, i - 1); }
      }
      ParentUnique(d, a, i);
    }
  }

  /** Each path is the first name that is free, under the path of the parent, when those
      before it are taken. */
  ghost predicate FirstNames(d: seq<nat>, typeNames: seq<string>, paths: seq<string>)
    requires Valid(d) && |paths| <= |d| == |typeNames|
  {
    forall k: nat | k < |paths| ::
      IsFirstFree(paths[k], if Parent(d, k) == -1 then "" else paths[Parent(d, k)], typeNames[k], set x | x in paths[..k])
  }

  lemma FirstNamesGrow(d: seq<nat>, typeNames: seq<string>, paths: seq<string>, path: string, taken: set<string>)
    requires Valid(d) && |paths| < |d| == |typeNames| && FirstNames(d, typeNames, paths)
    requires (forall x :: x in taken <==> x in paths)
    requires IsFirstFree(path, ParentPath(d, paths, |paths|), typeNames[|paths|], taken)
    ensures FirstNames(d, typeNames, paths + [path])
  {
    hide IsFirstFree, Parent, Valid;
    var more := paths + [path];
    forall k: nat | k < |more|
      ensures Parent(d, k) < k && IsFirstFree(more[k], if Parent(d, k) == -1 then "" else more[Parent(d, k)], typeNames[k],
                                              set x | x in more[..k])
    {
      if k < |paths| {
        assert more[..k] == paths[..k];
      } else {
        assert more[..k] == paths;
        assert taken == set x | x in paths;
      }
    }
  }

  /** Different paths, each a proper name under the parent's path. */
  ghost predicate Named(d: seq<nat>, typeNames: seq<string>, paths: seq<string>)
    requires Valid(d) && |paths| <= |d| == |typeNames|
  {
    && (forall a, b | 0 <= a < b < |paths| :: paths[a] != paths[b])
    && (forall k: nat | k < |paths| :: NameOf(paths[k], ParentPath(d, paths, k), typeNames[k]))
  }

  method SerialiseToStringPaths(d: seq<nat>, typeNames: seq<string>) returns (paths: seq<string>)
    requires Valid(d) && |typeNames| == |d|
    ensures |paths| == |d| && Named(d, typeNames, paths) && FirstNames(d, typeNames, paths)
  {
    hide *;
    NoNames(d, typeNames);
    paths := [];
    var pathStack := [""];
    ghost var anc: seq<nat> := [0];
    var enumerated: set<string> := {};
    NothingNamed(d, typeNames, anc);
    for i := 0 to |d|
      invariant |paths| == i
      invariant forall x :: x in enumerated <==> x in paths
      invariant Named(d, typeNames, paths) && FirstNames(d, typeNames, paths)
      invariant StackHolds(d, paths, pathStack, anc, i)
    {
      TopIsParent(d, paths, pathStack, anc, i);
      HoldsLets(d, paths, pathStack, anc, i);
      var stack := PopTo(pathStack, d[i] + 1);
      var path := FreshName(stack[|stack| - 1], typeNames[i], enumerated);
      NamedGrows(d, typeNames, paths, path);
      FirstNamesGrow(d, typeNames, paths, path, enumerated);
      StackGrows(d, paths, path, pathStack, anc, i);
      enumerated := enumerated + {path};
      paths := paths + [path];
      pathStack := stack + [path];
      anc := anc[..d[i] + 1] + [i];
    }
  }

  lemma NoNames(d: seq<nat>, typeNames: seq<string>)
    requires Valid(d) && |d| == |typeNames|
    ensures FirstNames(d, typeNames, [])
  {
  }

  lemma NothingNamed(d: seq<nat>, typeNames: seq<string>, anc: seq<nat>)
    requires Valid(d) && |d| == |typeNames| && |anc| == 1
    ensures Named(d, typeNames, []) && StackHolds(d, [], [""], anc, 0)
  {
  }

  method PopTo(stack: seq<string>, size: nat) returns (r: seq<string>)
    requires size <= |stack|
    ensures r == stack[..size]
  {
    r := stack;
    while |r| > size
      invariant size <= |r| <= |stack| && r == stack[..|r|]
    {
      r := r[..|r| - 1];
    }
  }

  lemma HoldsLets(d: seq<nat>, paths: seq<string>, stack: seq<string>, anc: seq<nat>, i: nat)
    requires i <= |d| && i <= |paths| && StackHolds(d, paths, stack, anc, i)
    ensures |anc| == |stack|
  {
  }

  lemma NamedGrows(d: seq<nat>, typeNames: seq<string>, paths: seq<string>, path: string)
    requires Valid(d) && |paths| < |d| == |typeNames| && Named(d, typeNames, paths)
    requires path !in paths && NameOf(path, ParentPath(d, paths, |paths|), typeNames[|paths|])
    ensures Named(d, typeNames, paths + [path])
  {
    hide *;
    NamedIs(d, typeNames, paths);
    forall k: nat | k < |paths| + 1 ensures NameOf((paths + [path])[k], ParentPath(d, paths + [path], k), typeNames[k]) {
      ParentPathGrows(d, paths, path, k);
    }
    NamedIs(d, typeNames, paths + [path]);
  }

  lemma NamedIs(d: seq<nat>, typeNames: seq<string>, paths: seq<string>)
    requires Valid(d) && |paths| <= |d| == |typeNames|
    ensures Named(d, typeNames, paths) <==>
      && (forall a, b | 0 <= a < b < |paths| :: paths[a] != paths[b])
      && (forall k: nat | k < |paths| :: NameOf(paths[k], ParentPath(d, paths, k), typeNames[k]))
  {
    hide NameOf, ParentPath, Valid;
  }

  lemma ParentPathGrows(d: seq<nat>, paths: seq<string>, path: string, k: nat)
    requires Valid(d) && k < |d| && k <= |paths|
    ensures ParentPath(d, paths + [path], k) == ParentPath(d, paths, k)
  {
  }

  lemma StackGrows(d: seq<nat>, paths: seq<string>, path: string, stack: seq<string>, anc: seq<nat>, i: nat)
    requires Valid(d) && i < |d| && |paths| == i && StackHolds(d, paths, stack, anc, i)
    requires d[i] + 1 <= |stack| == |anc|
    ensures StackHolds(d, paths + [path], stack[..d[i] + 1] + [path], anc[..d[i] + 1] + [i], i + 1)
  {
    forall j | 1 <= j < d[i] + 1 ensures Within(d, anc[j], i) {
      assert Within(d, anc[j], i - 1) && d[anc[j]] < d[i];
    }
  }

  /** The reverse map: from path to filter. Because no two filters share a path, it
      is the exact inverse. */
  method PathsToFilters(ids: seq<nat>, paths: seq<string>) returns (byPath: map<string, nat>)
    requires |ids| == |paths|
    requires forall i, j | 0 <= i < j < |paths| :: paths[i] != paths[j]
    ensures forall x :: x in byPath <==> x in paths
    ensures forall i | 0 <= i < |paths| :: byPath[paths[i]] == ids[i]
  {
    byPath := map[];
    for i := 0 to |paths|
      invariant forall x :: x in byPath <==> x in paths[..i]
      invariant forall k | 0 <= k < i :: paths[k] in byPath && byPath[paths[k]] == ids[k]
    {
      assert paths[i] !in byPath;
      byPath := byPath[paths[i] := ids[i]];
      assert paths[..i + 1] == paths[..i] + [paths[i]];
    }
    assert paths[..|paths|] == paths;
  }
}
