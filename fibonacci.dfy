/**
  The Fibonacci numbers, the mathematical object the library computes
  residues of, with the identities used to evaluate them.
*/
module Fibonacci {

  /** The Fibonacci numbers, F(0) = 0 and F(1) = 1. */
  ghost function Fib(n: nat): nat
  {
    if n < 2 then n else Fib(n - 1) + Fib(n - 2)
  }

  lemma FibRecurrence(n: nat)
    ensures Fib(n + 2) == Fib(n + 1) + Fib(n)
  {
  }

  /** F(p+q) = F(p-1)·F(q) + F(p)·F(q+1), by induction on q. */
  lemma {:induction false} FibAddition(p: nat, q: nat)
    requires p >= 1
    ensures Fib(p + q) == Fib(p - 1) * Fib(q) + Fib(p) * Fib(q + 1)
    decreases q
  {
    if q < 2 {
      FibAdditionBase(p, q);
    } else {
      FibAddition(p, q - 2);
      FibAddition(p, q - 1);
      FibAdditionStep(p, q);
    }
  }

  lemma FibAdditionBase(p: nat, q: nat)
    requires p >= 1 && q < 2
    ensures Fib(p + q) == Fib(p - 1) * Fib(q) + Fib(p) * Fib(q + 1)
  {
    assert Fib(1) == 1 && Fib(2) == 1;
    if q == 1 {
      FibRecurrence(p - 1);
    }
  }

  /** The identity for q follows from the identities for q - 2 and q - 1. */
  lemma FibAdditionStep(p: nat, q: nat)
    requires p >= 1 && q >= 2
    requires Fib(p + (q - 2)) == Fib(p - 1) * Fib(q - 2) + Fib(p) * Fib(q - 2 + 1)
    requires Fib(p + (q - 1)) == Fib(p - 1) * Fib(q - 1) + Fib(p) * Fib(q - 1 + 1)
    ensures Fib(p + q) == Fib(p - 1) * Fib(q) + Fib(p) * Fib(q + 1)
  {
    FibRecurrence(p + q - 2);
    FibRecurrence(q - 2);
    FibRecurrence(q - 1);
    AdditionStep(Fib(p - 1), Fib(p), Fib(q - 2), Fib(q - 1), Fib(q), Fib(q + 1),
                 Fib(p + q - 2), Fib(p + q - 1), Fib(p + q));
  }

  /** The step of FibAddition on plain numbers: the two previous identities add up to the next one. */
  lemma AdditionStep(a: nat, b: nat, f0: nat, f1: nat, f2: nat, f3: nat, s0: nat, s1: nat, s2: nat)
    requires f2 == f0 + f1 && f3 == f1 + f2
    requires s0 == a * f0 + b * f1 && s1 == a * f1 + b * f2 && s2 == s0 + s1
    ensures s2 == a * f2 + b * f3
  {
  }

  /** F(100), by halving the index three times with FibAddition. */
  lemma Fib100()
    ensures Fib(100) == 354_224_848_179_261_915_075
  {
    Fib50();
    FibAddition(50, 50);
  }

  lemma Fib50()
    ensures Fib(49) == 7_778_742_049 && Fib(50) == 12_586_269_025 && Fib(51) == 20_365_011_074
  {
    Fib25();
    FibAddition(25, 24);
    FibAddition(25, 25);
    FibAddition(26, 25);
  }

  lemma Fib25()
    ensures Fib(24) == 46_368 && Fib(25) == 75_025 && Fib(26) == 121_393
  {
    assert Fib(12) == 144 && Fib(13) == 233;
    FibAddition(12, 12);
    FibAddition(12, 13);
    FibAddition(13, 13);
  }
}
