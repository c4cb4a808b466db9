/** Bitwise and, or and exclusive or of natural numbers. */
module Bits {

  function Pow2(n: nat): (p: nat)
    ensures p >= 1
  {
    if n == 0 then 1 else 2 * Pow2(n - 1)
  }

  lemma {:induction false} Pow2Monotone(m: nat, n: nat)
    requires m <= n
    ensures Pow2(m) <= Pow2(n)
    decreases n
  {
    if m < n {
      Pow2Monotone(m, n - 1);
    }
  }

  function Xor(a: nat, b: nat): nat
    decreases a + b
  {
    if a == 0 && b == 0 then 0
    else (if a % 2 != b % 2 then 1 else 0) + 2 * Xor(a / 2, b / 2)
  }

  lemma {:induction false} XorZero(a: nat)
    ensures Xor(a, 0) == a
  {
    if a > 0 {
      XorZero(a / 2);
    }
  }

  lemma {:induction false} XorCancel(a: nat, b: nat)
    ensures Xor(Xor(a, b), b) == a
    decreases a + b
  {
    if a > 0 || b > 0 {
      XorCancel(a / 2, b / 2);
      assert Xor(a, b) / 2 == Xor(a / 2, b / 2);
    }
  }

  lemma {:induction false} XorBound(a: nat, b: nat, k: nat)
    requires a < Pow2(k) && b < Pow2(k)
    ensures Xor(a, b) < Pow2(k)
    decreases k
  {
    if k > 0 {
      XorBound(a / 2, b / 2, k - 1);
    }
  }

  /** The top bit of the result is the exclusive or of the top bits. */
  lemma {:induction false} XorTopBit(a: nat, b: nat, k: nat)
    requires a < Pow2(k + 1) && b < Pow2(k + 1)
    ensures Pow2(k) <= Xor(a, b) <==> (Pow2(k) <= a) != (Pow2(k) <= b)
    decreases k
  {
    if k > 0 {
      XorTopBit(a / 2, b / 2, k - 1);
    } else {
      assert Xor(0, 0) == 0 && Xor(1, 0) == 1 && Xor(0, 1) == 1 && Xor(1, 1) == 0;
    }
  }

  function And(a: nat, b: nat): nat
    decreases a + b
  {
    if a == 0 && b == 0 then 0
    else (if a % 2 == 1 && b % 2 == 1 then 1 else 0) + 2 * And(a / 2, b / 2)
  }

  function Or(a: nat, b: nat): nat
    decreases a + b
  {
    if a == 0 && b == 0 then 0
    else (if a % 2 == 1 || b % 2 == 1 then 1 else 0) + 2 * Or(a / 2, b / 2)
  }

  /** The number whose lowest k bits, and no others, are set. */
  function Ones(k: nat): nat {
    Pow2(k) - 1
  }

  lemma {:induction false} OrNextBit(k: nat)
    ensures Or(Ones(k), Pow2(k)) == Ones(k + 1)
  {
    if k > 0 {
      OrNextBit(k - 1);
      assert Ones(k) / 2 == Ones(k - 1) && Ones(k) % 2 == 1;
    } else {
      assert Or(0, 1) == 1 + 2 * Or(0, 0);
    }
  }

  lemma {:induction false} AndOnesBelow(a: nat, k: nat)
    ensures And(a, Ones(k)) < Pow2(k)
    decreases a, k
  {
    if k > 0 {
      assert Ones(k) / 2 == Ones(k - 1) && Ones(k) % 2 == 1;
      if a > 0 {
        AndOnesBelow(a / 2, k - 1);
      } else {
        AndOnesBelow(a, k - 1);
      }
    } else if a > 0 {
      AndOnesBelow(a / 2, k);
    }
  }

  lemma {:induction false} AndOnesKeeps(a: nat, k: nat)
    requires a < Pow2(k)
    ensures And(a, Ones(k)) == a
    decreases k
  {
    if k > 0 {
      assert Ones(k) / 2 == Ones(k - 1) && Ones(k) % 2 == 1;
      AndOnesKeeps(a / 2, k - 1);
    }
  }

  // ---- Bit by bit ----

  /** Bit `k` of a number. */
  predicate Bit(a: nat, k: nat) {
    if k == 0 then a % 2 == 1 else Bit(a / 2, k - 1)
  }

  lemma BitShifts(a: nat, k: nat)
    ensures Bit(a, 0) <==> a % 2 == 1
    ensures Bit(a, k + 1) <==> Bit(a / 2, k)
  {
  }

  lemma {:induction false} XorBits(a: nat, b: nat, k: nat)
    ensures Bit(Xor(a, b), k) <==> Bit(a, k) != Bit(b, k)
    decreases k
  {
    XorStep(a, b);
    hide *;
    if k == 0 {
      BitShifts(a, 0);
      BitShifts(b, 0);
      BitShifts(Xor(a, b), 0);
    } else {
      BitShifts(a, k - 1);
      BitShifts(b, k - 1);
      BitShifts(Xor(a, b), k - 1);
      XorBits(a / 2, b / 2, k - 1);
    }
  }

  lemma Halved(x: nat, e: nat)
    requires e < 2
    ensures (e + 2 * x) % 2 == e && (e + 2 * x) / 2 == x
  {
  }

  lemma XorStep(a: nat, b: nat)
    ensures Xor(a, b) % 2 == (if a % 2 != b % 2 then 1 else 0) && Xor(a, b) / 2 == Xor(a / 2, b / 2)
  {
    Halved(Xor(a / 2, b / 2), if a % 2 != b % 2 then 1 else 0);
  }

  lemma AndStep(a: nat, b: nat)
    ensures And(a, b) % 2 == (if a % 2 == 1 && b % 2 == 1 then 1 else 0) && And(a, b) / 2 == And(a / 2, b / 2)
  {
    Halved(And(a / 2, b / 2), if a % 2 == 1 && b % 2 == 1 then 1 else 0);
  }

  lemma {:induction false} AndBits(a: nat, b: nat, k: nat)
    ensures Bit(And(a, b), k) <==> Bit(a, k) && Bit(b, k)
    decreases k
  {
    AndStep(a, b);
    hide *;
    if k == 0 {
      BitShifts(a, 0);
      BitShifts(b, 0);
      BitShifts(And(a, b), 0);
    } else {
      BitShifts(a, k - 1);
      BitShifts(b, k - 1);
      BitShifts(And(a, b), k - 1);
      AndBits(a / 2, b / 2, k - 1);
    }
  }

  lemma OnesHalved(n: nat)
    ensures Ones(0) == 0
    ensures n > 0 ==> Ones(n) % 2 == 1 && Ones(n) / 2 == Ones(n - 1)
  {
    if n > 0 {
      assert Ones(n) == 1 + 2 * Ones(n - 1);
      Halved(Ones(n - 1), 1);
    }
  }

  lemma {:induction false} OnesBits(n: nat, k: nat)
    ensures Bit(Ones(n), k) <==> k < n
    decreases k
  {
    hide *;
    OnesHalved(n);
    if n == 0 {
      ZeroBits(k);
    } else if k == 0 {
      BitShifts(Ones(n), 0);
    } else {
      BitShifts(Ones(n), k - 1);
      OnesBits(n - 1, k - 1);
    }
  }

  lemma {:induction false} ZeroBits(k: nat)
    ensures !Bit(0, k)
  {
    if k > 0 { ZeroBits(k - 1); }
  }

  /** A number other than 0 has a bit. */
  lemma {:induction false} SomeBit(a: nat) returns (k: nat)
    requires a > 0
    ensures Bit(a, k)
  {
    BitShifts(a, 0);
    if a % 2 == 1 {
      k := 0;
    } else {
      var j := SomeBit(a / 2);
      BitShifts(a, j);
      k := j + 1;
    }
  }
}
