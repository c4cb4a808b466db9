/** The linear feedback shift register and the sampling without repeats that it
    drives. */
module Lfsr {
  import opened Bits
  import opened Counting

  const TABLE: seq<nat> :=
    [0x03, 0x06, 0x0C, 0x14, 0x30, 0x60, 0xb8, 0x0110]
    + [0x0240, 0x0500, 0x0e08, 0x1c80, 0x3802, 0x6000, 0xb400, 0x12000]
    + [0x20400, 0x72000, 0x90000, 0x140000, 0x300000, 0x420000, 0xD80000, 0x1200000]
    + [0x3880000, 0x7200000, 0x9000000, 0x14000000, 0x32800000, 0x48000000, 0xA3000000, 0x100080000]
    + [0x262000000, 0x500000000, 0x801000000, 0x1940000000, 0x3180000000, 0x4400000000, 0x9C00000000, 0x12000000000]
    + [0x29400000000, 0x63000000000, 0xA6000000000, 0x1B0000000000, 0x20E000000000, 0x420000000000, 0x894000000000, 0x1008000000000]

  predicate InTable(n: nat) {
    3 <= n < 3 + |TABLE|
  }

  lemma InTableIs()
    ensures forall n: nat :: InTable(n) <==> 3 <= n < 3 + |TABLE|
  {
  }

  function Mask(n: nat): nat
    requires InTable(n)
  {
    TABLE[n - 3]
  }

  /** One clock of the register with mask `n`, from any state. */
  function Step(n: nat, s: nat): (r: nat)
    requires InTable(n)
    ensures r >= 1
  {
    var x := And(Xor(s / 2, if s % 2 == 1 then Mask(n) else 0), Ones(n));
    if x == 0 then 1 else x
  }

  /** The states of the cycle: one bit fewer than the mask level, and not zero. */
  predicate State(n: nat, s: nat)
    requires n >= 1
  {
    1 <= s < Pow2(n - 1)
  }

  predicate TopBitsFrom(k: nat, p: nat)
    decreases |TABLE| - k
  {
    k >= |TABLE| || (p <= TABLE[k] < 2 * p && TopBitsFrom(k + 1, 2 * p))
  }

  lemma {:induction false} TopBitsAt(k: nat, i: nat)
    requires k <= i < |TABLE| && TopBitsFrom(k, Pow2(k + 1))
    ensures Pow2(i + 1) <= TABLE[i] < Pow2(i + 2)
    decreases i - k
  {
    if k < i { TopBitsAt(k + 1, i); }
  }

  lemma TableHigh()
    ensures TopBitsFrom(32, 0x200000000)
  {
    assert TopBitsFrom(46, 0x800000000000);
    assert TopBitsFrom(44, 0x200000000000);
    assert TopBitsFrom(42, 0x80000000000);
    assert TopBitsFrom(40, 0x20000000000);
    assert TopBitsFrom(38, 0x8000000000);
    assert TopBitsFrom(36, 0x2000000000);
    assert TopBitsFrom(34, 0x800000000);
  }

  lemma TableMiddle()
    ensures TopBitsFrom(16, 0x20000)
  {
    TableHigh();
    assert TopBitsFrom(30, 0x80000000);
    assert TopBitsFrom(28, 0x20000000);
    assert TopBitsFrom(26, 0x8000000);
    assert TopBitsFrom(24, 0x2000000);
    assert TopBitsFrom(22, 0x800000);
    assert TopBitsFrom(20, 0x200000);
    assert TopBitsFrom(18, 0x80000);
  }

  lemma TableTopBits()
    ensures TopBitsFrom(0, 0x2)
  {
    TableMiddle();
    assert TopBitsFrom(14, 0x8000);
    assert TopBitsFrom(12, 0x2000);
    assert TopBitsFrom(10, 0x800);
    assert TopBitsFrom(8, 0x200);
    assert TopBitsFrom(6, 0x80);
    assert TopBitsFrom(4, 0x20);
    assert TopBitsFrom(2, 0x8);
  }

  /** Every mask of the table has its top bit at place n - 2. */
  lemma MaskTopBit(n: nat)
    requires InTable(n)
    ensures Pow2(n - 2) <= Mask(n) < Pow2(n - 1)
  {
    TableTopBits();
    TopBitsAt(0, n - 3);
  }

  // ---- The taps ----

  lemma Powers1()
    ensures Pow2(0) == 0x1 && Pow2(1) == 0x2 && Pow2(2) == 0x4 && Pow2(3) == 0x8
    ensures Pow2(4) == 0x10 && Pow2(5) == 0x20 && Pow2(6) == 0x40 && Pow2(7) == 0x80
    ensures Pow2(8) == 0x100 && Pow2(9) == 0x200 && Pow2(10) == 0x400 && Pow2(11) == 0x800
    ensures Pow2(12) == 0x1000
  {
  }

  lemma Powers2()
    ensures Pow2(13) == 0x2000 && Pow2(14) == 0x4000 && Pow2(15) == 0x8000 && Pow2(16) == 0x10000
    ensures Pow2(17) == 0x20000 && Pow2(18) == 0x40000 && Pow2(19) == 0x80000 && Pow2(20) == 0x100000
    ensures Pow2(21) == 0x200000 && Pow2(22) == 0x400000 && Pow2(23) == 0x800000 && Pow2(24) == 0x1000000
  {
    Powers1();
  }

  lemma Powers3()
    ensures Pow2(25) == 0x2000000 && Pow2(26) == 0x4000000 && Pow2(27) == 0x8000000 && Pow2(28) == 0x10000000
    ensures Pow2(29) == 0x20000000 && Pow2(30) == 0x40000000 && Pow2(31) == 0x80000000 && Pow2(32) == 0x100000000
    ensures Pow2(33) == 0x200000000 && Pow2(34) == 0x400000000 && Pow2(35) == 0x800000000 && Pow2(36) == 0x1000000000
  {
    Powers2();
  }

  lemma Powers4()
    ensures Pow2(37) == 0x2000000000 && Pow2(38) == 0x4000000000 && Pow2(39) == 0x8000000000 && Pow2(40) == 0x10000000000
    ensures Pow2(41) == 0x20000000000 && Pow2(42) == 0x40000000000 && Pow2(43) == 0x80000000000 && Pow2(44) == 0x100000000000
    ensures Pow2(45) == 0x200000000000 && Pow2(46) == 0x400000000000 && Pow2(47) == 0x800000000000
    ensures Pow2(48) == 0x1000000000000
  {
    Powers3();
  }

  /** The taps of every entry: two or four bits each. */
  lemma Taps1()
    ensures TABLE[0] == Pow2(1) + Pow2(0)
    ensures TABLE[1] == Pow2(2) + Pow2(1)
    ensures TABLE[2] == Pow2(3) + Pow2(2)
    ensures TABLE[3] == Pow2(4) + Pow2(2)
    ensures TABLE[4] == Pow2(5) + Pow2(4)
    ensures TABLE[5] == Pow2(6) + Pow2(5)
    ensures TABLE[6] == Pow2(7) + Pow2(5) + Pow2(4) + Pow2(3)
    ensures TABLE[7] == Pow2(8) + Pow2(4)
    ensures TABLE[8] == Pow2(9) + Pow2(6)
    ensures TABLE[9] == Pow2(10) + Pow2(8)
    ensures TABLE[10] == Pow2(11) + Pow2(10) + Pow2(9) + Pow2(3)
    ensures TABLE[11] == Pow2(12) + Pow2(11) + Pow2(10) + Pow2(7)
  {
    Powers1();
    hide Pow2;
  }

  lemma Taps2()
    ensures TABLE[12] == Pow2(13) + Pow2(12) + Pow2(11) + Pow2(1)
    ensures TABLE[13] == Pow2(14) + Pow2(13)
    ensures TABLE[14] == Pow2(15) + Pow2(13) + Pow2(12) + Pow2(10)
    ensures TABLE[15] == Pow2(16) + Pow2(13)
    ensures TABLE[16] == Pow2(17) + Pow2(10)
    ensures TABLE[17] == Pow2(18) + Pow2(17) + Pow2(16) + Pow2(13)
    ensures TABLE[18] == Pow2(19) + Pow2(16)
    ensures TABLE[19] == Pow2(20) + Pow2(18)
    ensures TABLE[20] == Pow2(21) + Pow2(20)
    ensures TABLE[21] == Pow2(22) + Pow2(17)
    ensures TABLE[22] == Pow2(23) + Pow2(22) + Pow2(20) + Pow2(19)
    ensures TABLE[23] == Pow2(24) + Pow2(21)
  {
    Powers1();
    Powers2();
    hide Pow2;
  }

  lemma Taps3()
    ensures TABLE[24] == Pow2(25) + Pow2(24) + Pow2(23) + Pow2(19)
    ensures TABLE[25] == Pow2(26) + Pow2(25) + Pow2(24) + Pow2(21)
    ensures TABLE[26] == Pow2(27) + Pow2(24)
    ensures TABLE[27] == Pow2(28) + Pow2(26)
    ensures TABLE[28] == Pow2(29) + Pow2(28) + Pow2(25) + Pow2(23)
    ensures TABLE[29] == Pow2(30) + Pow2(27)
    ensures TABLE[30] == Pow2(31) + Pow2(29) + Pow2(25) + Pow2(24)
    ensures TABLE[31] == Pow2(32) + Pow2(19)
    ensures TABLE[32] == Pow2(33) + Pow2(30) + Pow2(29) + Pow2(25)
    ensures TABLE[33] == Pow2(34) + Pow2(32)
    ensures TABLE[34] == Pow2(35) + Pow2(24)
    ensures TABLE[35] == Pow2(36) + Pow2(35) + Pow2(32) + Pow2(30)
  {
    Powers1();
    Powers2();
    Powers3();
    hide Pow2;
  }

  lemma Taps4()
    ensures TABLE[36] == Pow2(37) + Pow2(36) + Pow2(32) + Pow2(31)
    ensures TABLE[37] == Pow2(38) + Pow2(34)
    ensures TABLE[38] == Pow2(39) + Pow2(36) + Pow2(35) + Pow2(34)
    ensures TABLE[39] == Pow2(40) + Pow2(37)
    ensures TABLE[40] == Pow2(41) + Pow2(39) + Pow2(36) + Pow2(34)
    ensures TABLE[41] == Pow2(42) + Pow2(41) + Pow2(37) + Pow2(36)
    ensures TABLE[42] == Pow2(43) + Pow2(41) + Pow2(38) + Pow2(37)
    ensures TABLE[43] == Pow2(44) + Pow2(43) + Pow2(41) + Pow2(40)
    ensures TABLE[44] == Pow2(45) + Pow2(39) + Pow2(38) + Pow2(37)
    ensures TABLE[45] == Pow2(46) + Pow2(41)
    ensures TABLE[46] == Pow2(47) + Pow2(43) + Pow2(40) + Pow2(38)
    ensures TABLE[47] == Pow2(48) + Pow2(39)
  {
    Powers1();
    Powers2();
    Powers3();
    Powers4();
    hide Pow2;
  }

  /** The bit that the clock puts at place `k`: the next higher one, turned over by
      the mask if a 1 drops out at the bottom. */
  predicate ShiftedBit(n: nat, s: nat, k: nat)
    requires InTable(n)
  {
    Bit(s, k + 1) != (s % 2 == 1 && Bit(Mask(n), k))
  }

  /** One clock, bit by bit, from any state whatever. */
  lemma StepBits(n: nat, s: nat)
    requires InTable(n)
    ensures (forall k: nat :: k < n ==> !ShiftedBit(n, s, k)) ==> Step(n, s) == 1
    ensures (exists k: nat :: k < n && ShiftedBit(n, s, k)) ==>
              forall k: nat :: Bit(Step(n, s), k) <==> k < n && ShiftedBit(n, s, k)
  {
    hide Bit, Xor, And, Ones, Pow2, Mask;
    var m := if s % 2 == 1 then Mask(n) else 0;
    var x := And(Xor(s / 2, m), Ones(n));
    forall k: nat ensures Bit(x, k) <==> k < n && ShiftedBit(n, s, k) {
      AndBits(Xor(s / 2, m), Ones(n), k);
      OnesBits(n, k);
      XorBits(s / 2, m, k);
      BitShifts(s, k);
      ZeroBits(k);
    }
    if x == 0 {
      forall k: nat ensures !Bit(x, k) { ZeroBits(k); }
    } else {
      var k := SomeBit(x);
    }
  }

  // ---- One step ----

  /** Two clocks reach the cycle's states from any start whatever. */
  lemma StepReachesStates(n: nat, s: nat)
    requires InTable(n)
    ensures Step(n, s) < Pow2(n)
    ensures s < Pow2(n) ==> State(n, Step(n, s))
  {
    var m := if s % 2 == 1 then Mask(n) else 0;
    AndOnesBelow(Xor(s / 2, m), n);
    if s < Pow2(n) {
      MaskTopBit(n);
      XorBound(s / 2, m, n - 1);
      AndOnesKeeps(Xor(s / 2, m), n);
      assert Pow2(n - 1) >= 2 by { Pow2Monotone(1, n - 1); }
    }
  }

  /** The clock run backwards: the top bit tells whether the mask was applied. */
  function Back(n: nat, r: nat): nat
    requires InTable(n)
  {
    if Pow2(n - 2) <= r then 2 * Xor(r, Mask(n)) + 1 else 2 * r
  }

  lemma StepOfState(n: nat, s: nat)
    requires InTable(n) && State(n, s)
    ensures Step(n, s) == Xor(s / 2, if s % 2 == 1 then Mask(n) else 0)
    ensures Pow2(n - 2) <= Step(n, s) <==> s % 2 == 1
  {
    var m := if s % 2 == 1 then Mask(n) else 0;
    MaskTopBit(n);
    XorBound(s / 2, m, n - 1);
    AndOnesKeeps(Xor(s / 2, m), n);
    XorTopBit(s / 2, m, n - 2);
    XorZero(s / 2);
  }

  /** The clock is a permutation of the states. */
  lemma BackUndoesStep(n: nat, s: nat)
    requires InTable(n) && State(n, s)
    ensures State(n, Step(n, s)) && Back(n, Step(n, s)) == s
  {
    StepOfState(n, s);
    StepReachesStates(n, s);
    XorCancel(s / 2, Mask(n));
    XorZero(s / 2);
  }

  lemma BackOfState(n: nat, r: nat)
    requires InTable(n) && State(n, r)
    ensures State(n, Back(n, r))
    ensures Back(n, r) % 2 == 1 ==> Back(n, r) / 2 == Xor(r, Mask(n))
    ensures Back(n, r) % 2 == 0 ==> Back(n, r) / 2 == r
  {
    MaskTopBit(n);
    XorBound(r, Mask(n), n - 1);
    XorTopBit(r, Mask(n), n - 2);
  }

  lemma StepUndoesBack(n: nat, r: nat)
    requires InTable(n) && State(n, r)
    ensures State(n, Back(n, r)) && Step(n, Back(n, r)) == r
  {
    hide *;
    BackOfState(n, r);
    StepOfState(n, Back(n, r));
    XorCancel(r, Mask(n));
    XorZero(r);
  }

  // ---- Many steps ----

  function Iter(n: nat, s: nat, k: nat): nat
    requires InTable(n)
  {
    if k == 0 then s else Step(n, Iter(n, s, k - 1))
  }

  function Period(n: nat): nat
    requires n >= 1
  {
    Pow2(n - 1) - 1
  }

  /** What the table promises of an entry: the state 1 first comes back after as
      many clocks as there are states. */
  ghost predicate FullPeriod(n: nat)
    requires InTable(n)
  {
    && Iter(n, 1, Period(n)) == 1
    && forall k: nat :: 0 < k < Period(n) ==> Iter(n, 1, k) != 1
  }

  lemma {:induction false} IterAdds(n: nat, s: nat, i: nat, j: nat)
    requires InTable(n)
    ensures Iter(n, Iter(n, s, i), j) == Iter(n, s, i + j)
    decreases j
  {
    if j > 0 { IterAdds(n, s, i, j - 1); }
  }

  lemma {:induction false} IterStaysInStates(n: nat, s: nat, k: nat)
    requires InTable(n) && State(n, s)
    ensures State(n, Iter(n, s, k))
  {
    if k > 0 {
      IterStaysInStates(n, s, k - 1);
      BackUndoesStep(n, Iter(n, s, k - 1));
    }
  }

  /** Starts that meet after equally many clocks were equal. */
  lemma {:induction false} IterInjective(n: nat, s: nat, t: nat, k: nat)
    requires InTable(n) && State(n, s) && State(n, t)
    requires Iter(n, s, k) == Iter(n, t, k)
    ensures s == t
    decreases k
  {
    if k > 0 {
      IterStaysInStates(n, s, k - 1);
      IterStaysInStates(n, t, k - 1);
      BackUndoesStep(n, Iter(n, s, k - 1));
      BackUndoesStep(n, Iter(n, t, k - 1));
      IterInjective(n, s, t, k - 1);
    }
  }

  /** An orbit that repeats itself first repeats its start. */
  lemma RepeatComesFromStart(n: nat, s: nat, i: nat, j: nat)
    requires InTable(n) && State(n, s) && i < j
    requires Iter(n, s, i) == Iter(n, s, j)
    ensures Iter(n, s, j - i) == s
  {
    IterAdds(n, s, j - i, i);
    IterStaysInStates(n, s, j - i);
    IterInjective(n, s, Iter(n, s, j - i), i);
  }

  // ---- Orbits ----

  function Orbit(n: nat, s: nat, k: nat): (q: seq<nat>)
    requires InTable(n)
    ensures |q| == k && forall i :: 0 <= i < k ==> q[i] == Iter(n, s, i)
  {
    seq(k, i requires i >= 0 => Iter(n, s, i))
  }

  /** Until the start comes back, the states passed are all different. */
  lemma OrbitIsDistinct(n: nat, s: nat, k: nat)
    requires InTable(n) && State(n, s)
    requires forall d: nat :: 0 < d < k ==> Iter(n, s, d) != s
    ensures NoDup(Orbit(n, s, k)) && k <= Period(n)
    ensures forall x :: x in Orbit(n, s, k) ==> State(n, x)
  {
    var q := Orbit(n, s, k);
    forall i, j | 0 <= i < j < k ensures q[i] != q[j] {
      if q[i] == q[j] { RepeatComesFromStart(n, s, i, j); }
    }
    forall x | x in q ensures State(n, x) {
      var i :| 0 <= i < k && q[i] == x;
      IterStaysInStates(n, s, i);
    }
    Pigeonhole(q, Period(n));
  }

  lemma OneIsState(n: nat)
    requires InTable(n)
    ensures State(n, 1)
  {
    Pow2Monotone(1, n - 1);
  }

  /** With a full period, the state 1 leads to every state. */
  lemma ReachedFromOne(n: nat, s: nat) returns (m: nat)
    requires InTable(n) && FullPeriod(n) && State(n, s)
    ensures Iter(n, 1, m) == s
  {
    OneIsState(n);
    OrbitIsDistinct(n, 1, Period(n));
    Pigeonhole(Orbit(n, 1, Period(n)), Period(n));
    assert s in Orbit(n, 1, Period(n));
    m :| 0 <= m < Period(n) && Orbit(n, 1, Period(n))[m] == s;
  }

  lemma NoEarlyReturn(n: nat, s: nat, d: nat)
    requires InTable(n) && FullPeriod(n) && State(n, s) && 0 < d < Period(n)
    ensures Iter(n, s, d) != s
  {
    var m := ReachedFromOne(n, s);
    if Iter(n, s, d) == s {
      OneIsState(n);
      IterAdds(n, 1, m, d);
      RepeatComesFromStart(n, 1, m, m + d);
    }
  }

  /** With a full period, the next Period(n) states from any state are all the
      states, each once. */
  lemma FullPeriodFromAnyState(n: nat, s: nat)
    requires InTable(n) && FullPeriod(n) && State(n, s)
    ensures forall d: nat :: 0 < d < Period(n) ==> Iter(n, s, d) != s
    ensures NoDup(Orbit(n, s, Period(n)))
    ensures forall x :: State(n, x) ==> x in Orbit(n, s, Period(n))
  {
    forall d: nat | 0 < d < Period(n) ensures Iter(n, s, d) != s {
      NoEarlyReturn(n, s, d);
    }
    OrbitIsDistinct(n, s, Period(n));
    Pigeonhole(Orbit(n, s, Period(n)), Period(n));
  }

  lemma IterIs(n: nat, s: nat, k: nat)
    requires InTable(n)
    ensures Iter(n, s, 0) == s
    ensures Iter(n, s, k + 1) == Step(n, Iter(n, s, k))
  {
  }

  lemma NotBackYet(n: nat, period: nat)
    requires InTable(n)
    requires forall k: nat :: 0 < k <= period ==> Iter(n, 1, k) != 1
    ensures period < Period(n)
    ensures Iter(n, 1, period + 1) == Step(n, Iter(n, 1, period))
  {
    OneIsState(n);
    OrbitIsDistinct(n, 1, period + 1);
  }

  /** The first return tells whether the period is full. */
  lemma FirstReturn(n: nat, period: nat)
    requires InTable(n) && period > 0 && Iter(n, 1, period) == 1
    requires forall k: nat :: 0 < k < period ==> Iter(n, 1, k) != 1
    ensures FullPeriod(n) <==> period == Period(n)
  {
    OneIsState(n);
    OrbitIsDistinct(n, 1, period);
  }

  /** The smallest entry of the table does have its full period. */
  lemma FirstEntryIsFull()
    ensures FullPeriod(3)
  {
    FirstEntrySteps();
    IterIs(3, 1, 0);
    IterIs(3, 1, 1);
    IterIs(3, 1, 2);
    hide Step, Xor, And, Mask;
    forall k: nat | 0 < k < Period(3) ensures Iter(3, 1, k) != 1 {
      assert k == 1 || k == 2;
    }
  }

  lemma FirstEntrySteps()
    ensures InTable(3) && Step(3, 1) == 3 && Step(3, 3) == 2 && Step(3, 2) == 1 && Period(3) == 3
  {
    assert Mask(3) == 3;
    assert Xor(0, 3) == 3 && Xor(1, 3) == 2 && Xor(1, 0) == 1;
    StepOfState(3, 1);
    StepOfState(3, 3);
    StepOfState(3, 2);
  }

  // ---- The register ----

  class LinearFeedbackShiftReg {
    var lfsr: nat
    var maskVal: nat
    var totalMask: nat

    ghost predicate HasMask(n: nat)
      reads this`maskVal, this`totalMask
    {
      InTable(n) && maskVal == Mask(n) && totalMask == Ones(n)
    }

    method SetState(newState: nat)
      modifies this`lfsr
      ensures lfsr == newState
    {
      lfsr := newState;
    }

    method SetMaskPeriod(newMask: nat)
      requires InTable(newMask)
      modifies this`maskVal, this`totalMask
      ensures HasMask(newMask)
    {
      maskVal := TABLE[newMask - 3];
      totalMask := 0;
      for ui := 0 to newMask
        invariant maskVal == Mask(newMask)
        invariant totalMask == Ones(ui)
      {
        OrNextBit(ui);
        totalMask := Or(totalMask, Pow2(ui));
      }
    }

    method Clock(ghost n: nat) returns (r: nat)
      requires HasMask(n)
      modifies this`lfsr
      ensures r == lfsr == Step(n, old(lfsr))
    {
      lfsr := Xor(lfsr / 2, if lfsr % 2 == 1 then maskVal else 0);
      lfsr := And(lfsr, totalMask);
      if lfsr == 0 {
        lfsr := 1;
      }
      r := lfsr;
    }

    /** Counts the clocks until the state 1 comes back, entry by entry. */
    method VerifyTable(maxLen: nat) returns (ok: bool)
      requires maxLen < |TABLE|
      modifies this
      ensures ok <==> forall n :: 3 <= n < 3 + (if maxLen == 0 then |TABLE| else maxLen) ==> FullPeriod(n)
    {
      hide *;
      InTableIs();
      var tableLen := if maxLen == 0 then |TABLE| else maxLen;
      var n := 3;
      while n < tableLen + 3
        invariant 3 <= n <= tableLen + 3
        invariant forall m: nat :: 3 <= m < n ==> FullPeriod(m)
      {
        SetState(1);
        SetMaskPeriod(n);
        OneIsState(n);
        var _ := Clock(n);
        var period := 1;
        IterIs(n, 1, 0);
        while lfsr != 1
          invariant HasMask(n) && period >= 1
          invariant lfsr == Iter(n, 1, period)
          invariant forall k: nat :: 0 < k < period ==> Iter(n, 1, k) != 1
          decreases Period(n) - period
        {
          NotBackYet(n, period);
          var _ := Clock(n);
          period := period + 1;
        }
        FirstReturn(n, period);
        if period != Period(n) {
          return false;
        }
        n := n + 1;
      }
      return true;
    }
  }

  // ---- Sampling without repeats ----

  /** The states that lie below a bound, in the order they were passed. */
  function Below(q: seq<nat>, max: nat): (r: seq<nat>)
    ensures forall x :: x in r <==> x in q && x < max
    ensures |r| <= |q|
  {
    if q == [] then [] else
    Below(q[..|q| - 1], max) + if q[|q| - 1] < max then [q[|q| - 1]] else []
  }

  lemma {:induction false} BelowIsDistinct(q: seq<nat>, max: nat)
    requires NoDup(q)
    ensures NoDup(Below(q, max))
  {
    if q != [] {
      BelowIsDistinct(q[..|q| - 1], max);
      assert q[|q| - 1] !in q[..|q| - 1];
    }
  }

  /** One more state passed. */
  lemma BelowNext(q: seq<nat>, x: nat, max: nat)
    ensures Below(q + [x], max) == Below(q, max) + if x < max then [x] else []
  {
    assert (q + [x])[..|q|] == q;
  }

  /** While fewer than max - 1 numbers have been accepted, the cycle is not over. */
  lemma NotAllSeen(n: nat, base: nat, c: nat, max: nat)
    requires InTable(n) && FullPeriod(n) && State(n, base)
    requires c <= Period(n) && 1 <= max <= Pow2(n - 1)
    requires |Below(Orbit(n, base, c), max)| < max - 1
    ensures c < Period(n)
  {
    if c == Period(n) {
      FullPeriodFromAnyState(n, base);
      CoverCount(Below(Orbit(n, base, c), max), max - 1);
    }
  }

  lemma OrbitPrefixDistinct(n: nat, base: nat, c: nat, max: nat)
    requires InTable(n) && FullPeriod(n) && State(n, base) && c <= Period(n)
    ensures NoDup(Below(Orbit(n, base, c), max))
    ensures forall x :: x in Below(Orbit(n, base, c), max) ==> 1 <= x < max
  {
    FullPeriodFromAnyState(n, base);
    OrbitIsDistinct(n, base, c);
    BelowIsDistinct(Orbit(n, base, c), max);
  }

  /** The mask level: the first power of two that is at least twice max. */
  method MaskLevel(max: nat) returns (i: nat, j: nat)
    requires 3 <= max <= Pow2(49)
    ensures i == Pow2(j) && InTable(j)
    ensures Pow2(j - 2) < max <= Pow2(j - 1)
  {
    i, j := 1, 0;
    while i < 2 * max
      invariant i == Pow2(j) && (j >= 1 ==> Pow2(j - 1) < 2 * max)
      decreases 4 * max - i
    {
      i := i * 2;
      j := j + 1;
    }
    assert Pow2(2) == 4;
    if j < 3 { Pow2Monotone(j, 2); }
    if j > 50 { Pow2Monotone(50, j - 1); }
  }

  /** The first state that the clock reaches from a start: the first output, or
      else the second. */
  function FirstState(n: nat, start: nat): (s: nat)
    requires InTable(n)
    ensures State(n, s)
  {
    StepReachesStates(n, start);
    StepReachesStates(n, Step(n, start));
    if State(n, Step(n, start)) then Step(n, start) else Step(n, Step(n, start))
  }

  /** What the selection loop knows: c states have been passed since the first one,
      and the numbers accepted are those of them below max. */
  ghost predicate Progress(n: nat, max: nat, start: nat, c: nat, warm: nat, lfsr: nat, picked: seq<nat>)
    requires InTable(n)
  {
    && c <= Period(n) && warm <= 1
    && (c > 0 ==> lfsr == Iter(n, FirstState(n, start), c - 1))
    && (c == 0 ==> lfsr == if warm == 1 then start else Step(n, start))
    && (c == 0 && warm == 0 ==> !State(n, lfsr))
    && picked == Below(Orbit(n, FirstState(n, start), c), max)
  }

  lemma StartOfSelection(n: nat, max: nat, start: nat)
    requires InTable(n)
    ensures Progress(n, max, start, 0, 1, start, [])
  {
  }

  lemma NextState(n: nat, max: nat, start: nat, c: nat, warm: nat, lfsr: nat, picked: seq<nat>)
    requires InTable(n)
    requires Progress(n, max, start, c, warm, lfsr, picked)
    ensures State(n, Step(n, lfsr)) ==> Iter(n, FirstState(n, start), c) == Step(n, lfsr)
    ensures !State(n, Step(n, lfsr)) ==> c == 0 && warm == 1
  {
    hide *;
    ProgressIs(n, max, start, c, warm, lfsr, picked);
    FirstStateIs(n, start);
    if c > 0 {
      IterStaysInStates(n, FirstState(n, start), c - 1);
      StateStepsToState(n, lfsr);
      IterIs(n, FirstState(n, start), c - 1);
    } else {
      IterIs(n, FirstState(n, start), 0);
    }
  }

  lemma StateStepsToState(n: nat, s: nat)
    requires InTable(n) && State(n, s)
    ensures State(n, Step(n, s))
  {
    BackUndoesStep(n, s);
  }

  lemma FirstStateIs(n: nat, start: nat)
    requires InTable(n)
    ensures State(n, Step(n, start)) ==> FirstState(n, start) == Step(n, start)
    ensures !State(n, Step(n, start)) ==>
              State(n, Step(n, Step(n, start))) && FirstState(n, start) == Step(n, Step(n, start))
  {
    StepReachesStates(n, start);
    StepReachesStates(n, Step(n, start));
  }

  lemma OrbitNext(n: nat, s: nat, c: nat, max: nat)
    requires InTable(n)
    ensures Below(Orbit(n, s, c + 1), max)
         == Below(Orbit(n, s, c), max) + if Iter(n, s, c) < max then [Iter(n, s, c)] else []
  {
    assert Orbit(n, s, c + 1) == Orbit(n, s, c) + [Iter(n, s, c)];
    BelowNext(Orbit(n, s, c), Iter(n, s, c), max);
  }

  lemma OutOfStates(n: nat, max: nat, s: nat)
    requires InTable(n) && 1 <= max <= Pow2(n - 1) && !State(n, s) && s >= 1
    ensures s >= max
  {
  }

  /** One clock of the selection loop. The first may miss the states; no other does. */
  lemma SelectionStep(n: nat, max: nat, start: nat, c: nat, warm: nat, lfsr: nat, picked: seq<nat>)
    returns (c': nat)
    requires InTable(n) && FullPeriod(n) && 1 <= max <= Pow2(n - 1)
    requires Progress(n, max, start, c, warm, lfsr, picked) && |picked| < max - 1
    ensures Progress(n, max, start, c', 0, Step(n, lfsr),
                     picked + if Step(n, lfsr) < max then [Step(n, lfsr)] else [])
    ensures Period(n) - c' < Period(n) - c + warm
  {
    var base, res := FirstState(n, start), Step(n, lfsr);
    NotAllSeen(n, base, c, max) by {
      assert picked == Below(Orbit(n, base, c), max);
    }
    NextState(n, max, start, c, warm, lfsr, picked);
    c' := if State(n, res) then c + 1 else c;
    StepIsProgress(n, max, start, c, warm, lfsr, picked);
  }

  lemma StepIsProgress(n: nat, max: nat, start: nat, c: nat, warm: nat, lfsr: nat, picked: seq<nat>)
    requires InTable(n) && 1 <= max <= Pow2(n - 1) && c < Period(n)
    requires Progress(n, max, start, c, warm, lfsr, picked)
    ensures Progress(n, max, start, if State(n, Step(n, lfsr)) then c + 1 else c, 0, Step(n, lfsr),
                     picked + if Step(n, lfsr) < max then [Step(n, lfsr)] else [])
  {
    var base, res := FirstState(n, start), Step(n, lfsr);
    NextState(n, max, start, c, warm, lfsr, picked);
    ProgressIs(n, max, start, c, warm, lfsr, picked);
    OrbitNext(n, base, c, max);
    hide *;
    if State(n, res) {
      ProgressIs(n, max, start, c + 1, 0, res, picked + if res < max then [res] else []);
    } else {
      OutOfStates(n, max, res);
      assert picked + [] == picked;
      ProgressIs(n, max, start, c, 0, res, picked);
    }
  }

  lemma ProgressIs(n: nat, max: nat, start: nat, c: nat, warm: nat, lfsr: nat, picked: seq<nat>)
    requires InTable(n)
    ensures Progress(n, max, start, c, warm, lfsr, picked) <==>
            && c <= Period(n) && warm <= 1
            && (c > 0 ==> lfsr == Iter(n, FirstState(n, start), c - 1))
            && (c == 0 ==> lfsr == if warm == 1 then start else Step(n, start))
            && (c == 0 && warm == 0 ==> !State(n, lfsr))
            && picked == Below(Orbit(n, FirstState(n, start), c), max)
  {
  }

  lemma SelectionResult(n: nat, max: nat, start: nat, c: nat, warm: nat, lfsr: nat, picked: seq<nat>)
    requires InTable(n) && FullPeriod(n)
    requires Progress(n, max, start, c, warm, lfsr, picked)
    ensures NoDup(picked) && forall x :: x in picked ==> 1 <= x < max
    ensures Pow2(n - 2) < max <= Pow2(n - 1) ==> Selected(picked, n, c, max, start)
  {
    OrbitPrefixDistinct(n, FirstState(n, start), c, max);
  }

  /** The numbers below max among the first c states from a start. */
  ghost predicate Selected(result: seq<nat>, n: nat, c: nat, max: nat, start: nat) {
    && InTable(n) && Pow2(n - 2) < max <= Pow2(n - 1)
    && c <= Period(n) && result == Below(Orbit(n, FirstState(n, start), c), max)
  }

  /** The weak branch: the register is clocked from the start, and numbers that are
      too large are dropped. */
  method WeakSelection(max: nat, num: nat, start: nat) returns (result: array<nat>, ghost j: nat, ghost c: nat)
    requires 3 <= max <= Pow2(49) && num < max
    requires forall n: nat :: InTable(n) && Pow2(n - 2) < max <= Pow2(n - 1) ==> FullPeriod(n)
    ensures fresh(result) && result.Length == num
    ensures NoDup(result[..]) && forall x :: x in result[..] ==> 1 <= x < max
    ensures Selected(result[..], j, c, max, start)
  {
    hide *;
    result := new nat[num];
    var l := new LinearFeedbackShiftReg;
    var _, level := MaskLevel(max);
    j := level;
    l.SetMaskPeriod(level);
    l.SetState(start);
    var ui := 0;
    ghost var warm: nat := 1;
    c := 0;
    StartOfSelection(j, max, start);
    assert result[..0] == [];
    while ui < num
      invariant l.HasMask(j) && fresh(l) && fresh(result) && result.Length == num
      invariant ui <= num && Progress(j, max, start, c, warm, l.lfsr, result[..ui])
      decreases Period(j) - c + warm
    {
      ghost var before := result[..ui];
      c := SelectionStep(j, max, start, c, warm, l.lfsr, before);
      warm := 0;
      var res := l.Clock(j);
      if res < max {
        result[ui] := res;
        ui := ui + 1;
        assert result[..ui] == before + [res];
      } else {
        assert before + [] == before;
      }
    }
    assert result[..] == result[..ui];
    SelectionResult(j, max, start, c, warm, l.lfsr, result[..ui]);
  }

  /** Picks num different numbers from [0, max): all of them when num is not smaller,
      and otherwise the first num states below max that follow the start. */
  method RandomDigitSelection(max: nat, num: nat, start: nat) returns (result: array<nat>)
    requires num < max ==> 3 <= max <= Pow2(49)
    requires num < max ==>
               forall n: nat :: InTable(n) && Pow2(n - 2) < max <= Pow2(n - 1) ==> FullPeriod(n)
    ensures fresh(result) && result.Length == if max <= num then max else num
    ensures NoDup(result[..])
    ensures forall x :: x in result[..] ==> x < max && (num < max ==> 1 <= x)
    ensures num < max ==> exists n: nat, c: nat :: Selected(result[..], n, c, max, start)
  {
    if max <= num {
      result := AllDigits(max);
    } else {
      hide *;
      ghost var j, c;
      result, j, c := WeakSelection(max, num, start);
    }
  }

  method AllDigits(max: nat) returns (result: array<nat>)
    ensures fresh(result) && result.Length == max && NoDup(result[..])
    ensures forall x :: x in result[..] ==> x < max
  {
    result := new nat[max];
    for ui := 0 to max
      invariant forall k :: 0 <= k < ui ==> result[k] == k
    {
      result[ui] := ui;
    }
  }
}
