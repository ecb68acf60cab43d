/**
  fast-fibonacci: the n-th Fibonacci number modulo `modulo`, computed by
  raising the recurrence matrix [[0, 1], [1, 1]] to the n-th power by
  exponentiation by squaring, in u64 arithmetic.

  The three functions of the library are modelled here: `fib_with_mod`
  (FibWithMod), `multiply_with_mod` (MultiplyWithMod) and
  `matrix_power_with_mod` (MatrixPowerWithMod). Every arithmetic step the
  source performs on `u64` values is performed here on the newtype `u64`,
  so the verifier checks that none of them overflows.
*/
module FastFibonacci {
  import opened Matrix
  import opened Fibonacci

  /** Rust's `u64`: an operation whose exact result leaves this range is rejected by the verifier. */
  newtype u64 = x: int | 0 <= x < 0x1_0000_0000_0000_0000

  const U64_LIMIT: int := 0x1_0000_0000_0000_0000

  /** The largest modulus for which no product of two residues overflows u64 (2^32). */
  const MAX_MODULUS: int := 0x1_0000_0000

  /** The recurrence matrix `t` built at src/lib.rs:33-36. */
  const Transition: Mat2 := Mat2(0, 1, 1, 1)

  /**
    The bound on the entries of every matrix that reaches the multiply: a
    residue below `modulo`, or, for `modulo == 1`, one of the unreduced
    entries 0 or 1 of the recurrence matrix (the power returns it as is
    for exponent 1).
  */
  function EntryBound(modulo: nat): nat
  {
    if modulo < 2 then 2 else modulo
  }

  // ---------------------------------------------------------------------------
  // The mathematical specification

  /**
    What `fib_with_mod(n, m)` returns: 0 and 1 for the two base cases,
    whatever m is, and F(n) mod m from n == 2 on.
  */
  ghost function FibMod(n: nat, m: nat): nat
    requires n >= 2 ==> m >= 1
  {
    if n == 0 then 0 else if n == 1 then 1 else Fib(n) % m
  }

  // ---------------------------------------------------------------------------
  // The u64 overflow boundary

  /**
    One step of the inner loop of `multiply_with_mod`: with a running entry
    below m, factors below EntryBound(m) and m at most 2^32, the sum
    `return_mat[[i, j]] + a[[i, k]] * b[[k, j]]` fits in u64.
  */
  lemma StepFitsU64(acc: nat, x: nat, y: nat, m: nat)
    requires 1 <= m <= MAX_MODULUS
    requires acc < m && x < EntryBound(m) && y < EntryBound(m)
    ensures 0 <= x * y && acc + x * y < U64_LIMIT
  {
    var b := EntryBound(m) - 1;
    MulMonotone(x, y, b, b);
    MulMonotone(b, b, MAX_MODULUS - 1, MAX_MODULUS - 1);
    if m == 1 {
      assert b * b == 1;
    }
  }

  lemma MulMonotone(x: nat, y: nat, u: nat, v: nat)
    requires x <= u && y <= v
    ensures x * y <= u * v
  {
    assert u * y - x * y == (u - x) * y;
    assert u * v - u * y == u * (v - y);
  }

  /**
    The bound is tight: for every modulus above 2^32 the product of the two
    largest residues, (m - 1) * (m - 1), no longer fits in u64.
  */
  lemma OverflowAboveBound(m: nat)
    requires MAX_MODULUS < m
    ensures (m - 1) * (m - 1) >= U64_LIMIT
  {
    MulMonotone(MAX_MODULUS, MAX_MODULUS, m - 1, m - 1);
  }

  // ---------------------------------------------------------------------------
  // src/lib.rs

  /**
    `multiply_with_mod`: the 2×2 product of a and b, each entry reduced
    modulo `modulo` after every partial sum; the result is the exact
    product reduced modulo `modulo`.
  */
  method MultiplyWithMod(a: Mat2, b: Mat2, modulo: u64) returns (c: Mat2)
    requires 1 <= modulo as int <= MAX_MODULUS
    requires EntriesBelow(a, EntryBound(modulo as nat)) && EntriesBelow(b, EntryBound(modulo as nat))
    ensures c == Reduce(Mul(a, b), modulo as nat)
    ensures EntriesBelow(c, modulo as nat)
  {
    ghost var m := modulo as nat;
    c := Zero;
    FilledStart(a, b, m);
    for i := 0 to 2
      invariant c == Filled(a, b, m, i, 0)
    {
      for j := 0 to 2
        invariant c == Filled(a, b, m, i, j)
      {
        FilledEntryStart(a, b, m, i, j);
        for k := 0 to 2
          invariant c == Filled(a, b, m, i, j).Set(i, j, PartialDot(a, b, i, j, k) % m)
        {
          var acc, x, y := c.At(i, j) as u64, a.At(i, k) as u64, b.At(k, j) as u64;
          StepFitsU64(acc as nat, x as nat, y as nat, m);
          var sum: u64 := acc + x * y;
          EntryStep(a, b, i, j, k, m, sum as nat);
          c := c.Set(i, j, (sum % modulo) as nat);
          SetTwice(Filled(a, b, m, i, j), i, j, PartialDot(a, b, i, j, k) % m, (sum % modulo) as nat);
        }
        FilledEntryDone(a, b, m, i, j);
      }
      FilledRowDone(a, b, m, i);
    }
    FilledComplete(a, b, m);
  }

  /** One pass of the k loop: adding the next product to the reduced partial sum and reducing gives the next reduced partial sum. */
  lemma EntryStep(a: Mat2, b: Mat2, i: nat, j: nat, k: nat, m: nat, sum: nat)
    requires i < 2 && j < 2 && k < 2 && m >= 1
    requires sum == PartialDot(a, b, i, j, k) % m + a.At(i, k) * b.At(k, j)
    ensures sum % m == PartialDot(a, b, i, j, k + 1) % m
  {
    ModAddLeft(PartialDot(a, b, i, j, k), a.At(i, k) * b.At(k, j), m);
  }

  /**
    The state of `return_mat` in `multiply_with_mod` once the entries before
    (i, j), in row-major order, are done: those hold the reduced dot products,
    the rest are still 0.
  */
  ghost function Filled(a: Mat2, b: Mat2, m: nat, i: nat, j: nat): Mat2
    requires m >= 1
  {
    Mat2(FilledEntry(a, b, m, i, j, 0, 0), FilledEntry(a, b, m, i, j, 0, 1),
         FilledEntry(a, b, m, i, j, 1, 0), FilledEntry(a, b, m, i, j, 1, 1))
  }

  ghost function FilledEntry(a: Mat2, b: Mat2, m: nat, i: nat, j: nat, p: nat, q: nat): nat
    requires m >= 1 && p < 2 && q < 2
  {
    if p < i || (p == i && q < j) then PartialDot(a, b, p, q, 2) % m else 0
  }

  /** Before the loops `return_mat` is the zero matrix, with nothing filled. */
  lemma FilledStart(a: Mat2, b: Mat2, m: nat)
    requires m >= 1
    ensures Filled(a, b, m, 0, 0) == Zero
  {
  }

  /** Entry (i, j) is still 0, the empty partial sum, when the k loop starts. */
  lemma FilledEntryStart(a: Mat2, b: Mat2, m: nat, i: nat, j: nat)
    requires m >= 1 && i < 2 && j < 2
    ensures Filled(a, b, m, i, j).Set(i, j, PartialDot(a, b, i, j, 0) % m) == Filled(a, b, m, i, j)
  {
  }

  /** Once the k loop has summed both products, entry (i, j) is done. */
  lemma FilledEntryDone(a: Mat2, b: Mat2, m: nat, i: nat, j: nat)
    requires m >= 1 && i < 2 && j < 2
    ensures Filled(a, b, m, i, j).Set(i, j, PartialDot(a, b, i, j, 2) % m) == Filled(a, b, m, i, j + 1)
  {
  }

  /** Finishing a row is starting the next one. */
  lemma FilledRowDone(a: Mat2, b: Mat2, m: nat, i: nat)
    requires m >= 1 && i < 2
    ensures Filled(a, b, m, i, 2) == Filled(a, b, m, i + 1, 0)
  {
  }

  /** With every entry filled, `return_mat` is the reduced product a·b. */
  lemma FilledComplete(a: Mat2, b: Mat2, m: nat)
    requires m >= 1
    ensures Filled(a, b, m, 2, 0) == Reduce(Mul(a, b), m)
  {
    MulAt(a, b, 0, 0);
    MulAt(a, b, 0, 1);
    MulAt(a, b, 1, 0);
    MulAt(a, b, 1, 1);
  }

  /**
    `matrix_power_with_mod`: mat^pow by exponentiation by squaring. For
    pow == 1 the input comes back unreduced; from pow == 2 on the result is
    the exact power reduced modulo `modulo`. The recursion terminates
    because pow strictly decreases (pow - 1 when odd, pow / 2 when even and
    at least 2); pow == 0 is excluded because 0 / 2 == 0.
  */
  method MatrixPowerWithMod(mat: Mat2, pow: u64, modulo: u64) returns (r: Mat2, ghost calls: nat)
    requires pow >= 1
    requires 1 <= modulo as int <= MAX_MODULUS
    requires EntriesBelow(mat, EntryBound(modulo as nat))
    ensures pow == 1 ==> r == mat
    ensures pow >= 2 ==> r == Reduce(MatPow(mat, pow as nat), modulo as nat)
    ensures pow >= 2 ==> EntriesBelow(r, modulo as nat)
    ensures EntriesBelow(r, EntryBound(modulo as nat))
    ensures calls == PowerCalls(pow as nat)
    decreases pow
  {
    ghost var m := modulo as nat;
    ghost var n := pow as nat;
    if pow == 1 {
      return mat, 1;
    }
    if pow % 2 == 1 {
      var rest, restCalls := MatrixPowerWithMod(mat, pow - 1, modulo);
      r := MultiplyWithMod(mat, rest, modulo);
      calls := 1 + restCalls;
      calc {
        r;
        Reduce(Mul(mat, Reduce(MatPow(mat, n - 1), m)), m);
        { ReduceMulRight(mat, MatPow(mat, n - 1), m); }
        Reduce(Mul(mat, MatPow(mat, n - 1)), m);
      }
      return;
    }
    var x, halfCalls := MatrixPowerWithMod(mat, pow / 2, modulo);
    r := MultiplyWithMod(x, x, modulo);
    calls := 1 + halfCalls;
    ghost var h := n / 2;
    ghost var half := MatPow(mat, h);
    assert Reduce(x, m) == Reduce(half, m) by {
      if h == 1 {
        MatPowOne(mat);
      } else {
        ReduceReduced(Reduce(half, m), m);
      }
    }
    calc {
      r;
      Reduce(Mul(x, x), m);
      { ReduceMul(x, x, m); }
      Reduce(Mul(Reduce(half, m), Reduce(half, m)), m);
      { ReduceMul(half, half, m); }
      Reduce(Mul(half, half), m);
      { MatPowAdd(mat, h, h); }
      Reduce(MatPow(mat, n), m);
    }
  }

  /**
    `fib_with_mod`: 0 for n == 0 and 1 for n == 1, for every modulus, and
    F(n) mod `modulo` otherwise, read off row 0 of T^n against the state
    vector [F(0), F(1)] = [0, 1].
  */
  method FibWithMod(n: u64, modulo: u64) returns (answer: u64)
    requires n >= 2 ==> 1 <= modulo as int <= MAX_MODULUS
    ensures n == 0 ==> answer == 0
    ensures n == 1 ==> answer == 1
    ensures n >= 2 ==> answer as int == Fib(n as nat) % modulo as int && answer < modulo
    ensures answer as int == FibMod(n as nat, modulo as nat)
  {
    if n == 0 {
      return 0;
    }
    if n == 1 {
      return 1;
    }
    var f: seq<u64> := [0, 1];
    var powerT, _ := MatrixPowerWithMod(Transition, n, modulo);
    answer := 0;
    // The source adds `answer` twice per step; since f[0] == 0 the first
    // step leaves it at 0, so the sum is exactly powerT[0][1] mod modulo.
    for i := 0 to 2
      invariant i < 2 ==> answer == 0
      invariant i == 2 ==> answer as int == powerT.e01
    {
      var entry, state := powerT.At(0, i) as u64, f[i];
      assert state as int == i && entry < modulo && answer == 0;
      MulByBit(entry as int, state as int);
      ModUnique(entry as int * state as int, modulo as int, 0, entry as int * state as int);
      answer := answer + (answer + entry * state) % modulo;
    }
    FibFromPower(n as nat, modulo as nat, powerT);
  }

  /** Multiplying by a state-vector entry 0 or 1 gives 0 or the other factor. */
  lemma MulByBit(x: int, b: int)
    requires b == 0 || b == 1
    ensures x * b == if b == 0 then 0 else x
  {
  }

  /** Entry (0, 1) of T^n reduced modulo m is F(n) mod m. */
  lemma FibFromPower(n: nat, m: nat, x: Mat2)
    requires n >= 2 && m >= 1
    requires x == Reduce(MatPow(Transition, n), m)
    ensures x.e01 == Fib(n) % m
  {
    MatPowFib(n);
    ReduceReduced(x, m);
  }

  // ---------------------------------------------------------------------------
  // Properties

  /** [[F(p-1), F(p)], [F(p), F(p+1)]]. */
  ghost function FibMatrix(p: nat): Mat2
    requires p >= 1
  {
    Mat2(Fib(p - 1), Fib(p), Fib(p), Fib(p + 1))
  }

  /** T^p = [[F(p-1), F(p)], [F(p), F(p+1)]] for p >= 1. */
  lemma {:induction false} MatPowFib(p: nat)
    requires p >= 1
    ensures MatPow(Transition, p) == FibMatrix(p)
    decreases p, 1
  {
    if p == 1 {
      MatPowFibBase(p);
    } else {
      MatPowFibStep(p);
    }
  }

  lemma MatPowFibBase(p: nat)
    requires p == 1
    ensures MatPow(Transition, p) == FibMatrix(p)
  {
    assert Fib(0) == 0 && Fib(1) == 1 && Fib(2) == 1;
    MatPowOne(Transition);
  }

  lemma {:induction false} MatPowFibStep(p: nat)
    requires p >= 2
    ensures MatPow(Transition, p) == FibMatrix(p)
    decreases p, 0
  {
    MatPowFib(p - 1);
    FibUnfold(p);
    TransitionStep(p, Fib(p - 2), Fib(p - 1), Fib(p), Fib(p + 1));
  }

  lemma FibUnfold(p: nat)
    requires p >= 2
    ensures Fib(p) == Fib(p - 2) + Fib(p - 1) && Fib(p + 1) == Fib(p - 1) + Fib(p)
  {
    FibRecurrence(p - 2);
    FibRecurrence(p - 1);
  }

  /**
    One step of T^p on a matrix of consecutive Fibonacci-like numbers:
    [[a, b], [b, d]] with d = a + b becomes [[b, d], [d, b + d]].
  */
  lemma TransitionStep(p: nat, a: nat, b: nat, d: nat, e: nat)
    requires p >= 1 && d == a + b && e == b + d
    requires MatPow(Transition, p - 1) == Mat2(a, b, b, d)
    ensures MatPow(Transition, p) == Mat2(b, d, d, e)
  {
    MatPowSucc(Transition, p, Mat2(a, b, b, d));
    MulTransition(Mat2(a, b, b, d));
  }

  /** Multiplying by T on the left: [[c, d], [a + c, b + d]] for [[a, b], [c, d]]. */
  lemma MulTransition(a: Mat2)
    ensures Mul(Transition, a) == Mat2(a.e10, a.e11, a.e00 + a.e10, a.e01 + a.e11)
  {
  }

  /**
    The results of `fib_with_mod` follow the Fibonacci recurrence modulo m,
    including at n == 2 and n == 3 where an unreduced base case takes part.
  */
  lemma {:induction false} FibModRecurrence(n: nat, m: nat)
    requires n >= 2 && m >= 1
    ensures FibMod(n, m) == (FibMod(n - 1, m) + FibMod(n - 2, m)) % m
  {
    FibRecurrence(n - 2);
    if n == 3 {
      ModAddLeft(1, 1, m);
    } else if n >= 4 {
      ModAdd(Fib(n - 1), Fib(n - 2), m);
      ModAddLeft(Fib(n - 1) % m + Fib(n - 2) % m, 0, m);
    }
  }

  /** The values asserted by the library's tests and examples for n <= 5. */
  lemma SmallExamples()
    ensures FibMod(0, 10) == 0 && FibMod(1, 10) == 1 && FibMod(2, 10) == 1
    ensures FibMod(3, 10) == 2 && FibMod(4, 10) == 3 && FibMod(5, 10) == 5
  {
    assert Fib(5) == 5;
  }

  /** The values asserted by the library's tests and examples for n == 100. */
  lemma Examples100()
    ensures FibMod(100, 1_000_000_000) == 261_915_075
    ensures FibMod(100, 1_000_000) == 915_075
    ensures FibMod(100, 1_000) == 75
    ensures FibMod(100, 10) == 5
  {
    Fib100();
    FibModFromDivision(100, 1_000_000_000, 354_224_848_179, 261_915_075);
    FibModFromDivision(100, 1_000_000, 354_224_848_179_261, 915_075);
    FibModFromDivision(100, 1_000, 354_224_848_179_261_915, 75);
    FibModFromDivision(100, 10, 35_422_484_817_926_191_507, 5);
  }

  /** F(n) == q·m + r with 0 <= r < m gives FibMod(n, m) == r. */
  lemma FibModFromDivision(n: nat, m: nat, q: nat, r: nat)
    requires n >= 2 && 0 <= r < m && Fib(n) == q * m + r
    ensures FibMod(n, m) == r
  {
    ModUnique(Fib(n), m, q, r);
  }

  // ---------------------------------------------------------------------------
  // Recursion depth of matrix_power_with_mod

  /** The number of calls of `matrix_power_with_mod` that one call with exponent pow makes, itself included. */
  ghost function PowerCalls(pow: nat): nat
    requires pow >= 1
    decreases pow
  {
    if pow == 1 then 1
    else if pow % 2 == 1 then 1 + PowerCalls(pow - 1)
    else 1 + PowerCalls(pow / 2)
  }

  /** floor(log2(p)). */
  ghost function Log2(p: nat): nat
    requires p >= 1
    decreases p
  {
    if p == 1 then 0 else 1 + Log2(p / 2)
  }

  /** The recursion depth is at most 2·floor(log2(pow)) + 1, so O(log pow) multiplies. */
  lemma {:induction false} PowerCallsLogarithmic(pow: nat)
    requires pow >= 1
    ensures PowerCalls(pow) <= 2 * Log2(pow) + 1
    decreases pow
  {
    if pow == 1 {
    } else if pow % 2 == 1 {
      PowerCallsLogarithmic((pow - 1) / 2);
      assert (pow - 1) / 2 == pow / 2;
    } else {
      PowerCallsLogarithmic(pow / 2);
    }
  }
}
