# fast-fibonacci in Dafny

A model of the Rust library `fast-fibonacci` (`src/lib.rs`). The library
computes the n-th Fibonacci number modulo `modulo` in O(log n) time. It raises
the recurrence matrix T = [[0, 1], [1, 1]] to the n-th power by
exponentiation by squaring, with every arithmetic step done in `u64`.

The project has three modules:

- `Matrix` (`matrix.dfy`) defines the 2×2 matrix value, written `Mat2`. The
  library keeps this matrix in an ndarray `Array2<u64>` of shape (2, 2). The
  module defines the exact product `Mul`, the exact power `MatPow` and the
  entrywise reduction `Reduce`. It also proves the algebra and the modular
  arithmetic that the squaring relies on.
- `Fibonacci` (`fibonacci.dfy`) defines the mathematical specification
  `Fib`, the addition identity F(p+q) = F(p-1)·F(q) + F(p)·F(q+1), and the
  exact value F(100), which follows from that identity.
- `FastFibonacci` (`fast_fibonacci.dfy`) models the library's three
  functions:
  - `multiply_with_mod` becomes the method `MultiplyWithMod`. It keeps the
    triple `i`/`j`/`k` loop and updates one entry of the result at a time.
    `u64` is a newtype, so the verifier checks every addition and
    multiplication for overflow.
  - `matrix_power_with_mod` becomes the recursive method
    `MatrixPowerWithMod`.
  - `fib_with_mod` becomes the method `FibWithMod`. It keeps the
    two-iteration accumulation loop, including the doubled `answer` term.

Points where the code's behaviour shapes the model:

- The code multiplies two `u64` residues directly, without widening, so
  the model requires `modulo <= 2^32`. `OverflowAboveBound` shows that
  (m-1)·(m-1) no longer fits in `u64` above that bound.
- For exponent 1 the code returns the input matrix unreduced. For
  `modulo == 1` this means the entries 1 of T reach the multiply, so the
  entry bound used throughout is `EntryBound(modulo)`: `modulo` itself,
  except 2 when `modulo == 1`.
- `fib_with_mod(1, m)` returns 1 without reducing it, even for `m == 1`.
  `FibMod` and `FibWithMod` say so.

## Model

| member | source | states |
|---|---|---|
| Matrix.Set | src/lib.rs:50-54 | the assignment `return_mat[[i, j]] = v` changes entry (i, j) to v and leaves the other three entries as they were |
| Matrix.MulAt | src/lib.rs:47-57 | entry (i, j) of the product is the sum over k of a[i][k]·b[k][j] |
| Matrix.ReduceReduced | src/lib.rs:62-64 | reducing a matrix whose entries are already below m changes nothing |
| Matrix.ReduceMul | src/lib.rs:69-70 | reducing both factors before multiplying gives the same reduced product, which is why squaring the reduced half power is sound |
| Matrix.ReduceMulRight | src/lib.rs:66-67 | reducing only the right factor before multiplying gives the same reduced product, which is why the odd step is sound |
| Matrix.MulAssociative | src/lib.rs:66-70 | the matrix product is associative |
| Matrix.MatPowAdd | src/lib.rs:66-70 | t^(p+q) = t^p · t^q, the identity behind both the odd step and the even step |
| Matrix.ModAddLeft | src/lib.rs:50-54 | reducing the running sum before adding the next product does not change its residue |
| Matrix.ModDot | src/lib.rs:50-54 | the residue of a two-term dot product depends only on the residues of its factors |
| FastFibonacci.StepFitsU64 | src/lib.rs:50-54 | with a running entry below m, factors below EntryBound(m) and 1 <= m <= 2^32, `return_mat[[i, j]] + a[[i, k]] * b[[k, j]]` fits in u64 |
| FastFibonacci.OverflowAboveBound | src/lib.rs:52 | for every modulus above 2^32, the product of the two largest residues, (m-1)·(m-1), no longer fits in u64, so the 2^32 bound is tight |
| FastFibonacci.MultiplyWithMod | src/lib.rs:45-59 | reducing after every partial sum yields exactly the product a·b with every entry reduced modulo `modulo`; every entry is below `modulo`; no u64 step overflows |
| FastFibonacci.EntryStep | src/lib.rs:50-54 | adding the next product a[i][k]·b[k][j] to the reduced partial sum and reducing gives the reduced partial sum over one more k |
| FastFibonacci.FilledEntryDone | src/lib.rs:48-55 | once the k loop has run, `return_mat` is the row-major fill state with entry (i, j) added |
| FastFibonacci.FilledComplete | src/lib.rs:48-58 | once every entry is filled, the returned matrix is the exact product a·b reduced modulo m |
| FastFibonacci.MatrixPowerWithMod | src/lib.rs:61-71 | for pow == 1 the input is returned unreduced; for pow >= 2 the result is mat^pow with every entry reduced, all entries below `modulo`; the entry bound is preserved; termination is shown by `pow` decreasing (pow - 1 when odd, pow / 2 when even and at least 2); the ghost out-parameter `calls` counts the calls made, itself included, and equals PowerCalls(pow) |
| FastFibonacci.PowerCallsLogarithmic | src/lib.rs:63-70 | PowerCalls(pow), the number of calls `MatrixPowerWithMod` makes (its ghost out-parameter `calls`), is at most 2·floor(log2 pow) + 1, so the recursion depth is O(log pow) |
| FastFibonacci.MatPowFib | src/lib.rs:33-37 | T^p = [[F(p-1), F(p)], [F(p), F(p+1)]] for every p >= 1 |
| FastFibonacci.MatPowFibStep | src/lib.rs:33-37 | the identity for p follows from the identity for p - 1 by one multiplication by T |
| FastFibonacci.TransitionStep | src/lib.rs:33-36 | multiplying [[a, b], [b, a+b]] by T on the left gives [[b, a+b], [a+b, a+2b]] |
| FastFibonacci.MulTransition | src/lib.rs:33-36 | multiplying by T on the left moves row 1 up and puts the sum of the two rows in row 1 |
| FastFibonacci.FibFromPower | src/lib.rs:37-41 | entry (0, 1) of the reduced power T^n is exactly F(n) mod m |
| FastFibonacci.FibWithMod | src/lib.rs:24-43 | returns 0 for n == 0 and 1 for n == 1 whatever the modulus, unreduced; for n >= 2 returns F(n) mod `modulo`, below `modulo`; the line-40 loop that adds `answer` twice yields exactly P[0][1] mod `modulo`; no u64 step overflows |
| FastFibonacci.FibModRecurrence | src/lib.rs:78-85 | for n >= 2, the library's result is the sum of its results for n-1 and n-2, taken mod m, including the unreduced base cases at n == 2 and n == 3 |
| FastFibonacci.SmallExamples | src/lib.rs:78-85 | the specified results for n = 0..5 modulo 10 are 0, 1, 1, 2, 3, 5 |
| FastFibonacci.Examples100 | src/lib.rs:88-93 | the specified results for n = 100 are 261915075, 915075, 75 and 5 modulo 10^9, 10^6, 10^3 and 10 |
| FastFibonacci.FibModFromDivision | src/lib.rs:88-93 | F(n) = q·m + r with 0 <= r < m gives a result of r |
| Fibonacci.FibAddition | src/lib.rs:88-92 | F(p+q) = F(p-1)·F(q) + F(p)·F(q+1) for p >= 1 |
| Fibonacci.Fib100 | src/lib.rs:88-92 | F(100) = 354224848179261915075 |

## Left out

- The ndarray crate (`arr2`, `Array2::zeros`, `clone`, src/lib.rs:7-8, 33, 46, 62) is replaced by the datatype `Mat2`. Each function builds a fresh matrix, so value semantics lose no aliasing.
- MatrixPowerWithMod: `matrix_power_with_mod` is pure recursion. It is modelled as a recursive method because it calls the multiply, which is an imperative method here, and a Dafny function cannot call a method. Its result is tied to the function `MatPow`.
- MultiplyWithMod: the model does not capture the wrap-around (release build) or panic (debug build) on u64 overflow. It requires `modulo <= 2^32` and entries below `EntryBound(modulo)`, under which no overflow happens. `OverflowAboveBound` shows that larger moduli can overflow.
- FibWithMod: for n >= 2 the model requires `1 <= modulo <= 2^32`. A zero modulus makes `%` panic, and larger moduli can overflow in `multiply_with_mod`. n == 0 and n == 1 are modelled for every modulus.
- MatrixPowerWithMod: the model requires `pow >= 1`. For `pow == 0` the source recurses forever, because 0 is even and 0 / 2 == 0. The only caller passes n >= 2.
- The results for n = 10^15 and 10^15 + 1 (src/lib.rs:21-22, 97-98) are not evaluated. Proving them would mean computing F(10^15), which is impractical. `FibWithMod` covers these inputs through its general contract.
- The doc-test and `#[cfg(test)]` harness (src/lib.rs:16-23, 73-100) is not modelled. Its asserted values appear as the lemmas `SmallExamples` and `Examples100`.
