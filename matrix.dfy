/**
  Fixed-shape 2×2 matrices over the natural numbers.

  This is the matrix value the library builds with ndarray's `Array2<u64>`
  (always of shape (2, 2)): its entries, the exact matrix product and power,
  and the entrywise reduction modulo a modulus, together with the algebra
  (associativity, powers add) and the modular arithmetic (reducing before
  or after a product gives the same residue) that the modular
  exponentiation relies on.
*/
module Matrix {

  /** The matrix [[e00, e01], [e10, e11]]. */
  datatype Mat2 = Mat2(e00: nat, e01: nat, e10: nat, e11: nat)
  {
    /** The entry in row i, column j (`mat[[i, j]]`). */
    function At(i: nat, j: nat): nat
      requires i < 2 && j < 2
    {
      if i == 0 then (if j == 0 then e00 else e01)
      else (if j == 0 then e10 else e11)
    }

    /** This matrix with entry (i, j) replaced by v (`mat[[i, j]] = v`). */
    function Set(i: nat, j: nat, v: nat): (r: Mat2)
      requires i < 2 && j < 2
      ensures r.At(i, j) == v
      ensures forall p: nat, q: nat | p < 2 && q < 2 && (p != i || q != j) :: r.At(p, q) == At(p, q)
    {
      if i == 0 then (if j == 0 then this.(e00 := v) else this.(e01 := v))
      else (if j == 0 then this.(e10 := v) else this.(e11 := v))
    }
  }

  /** `Array2::zeros((2, 2))`. */
  const Zero: Mat2 := Mat2(0, 0, 0, 0)

  const Identity: Mat2 := Mat2(1, 0, 0, 1)

  /** Writing entry (i, j) twice leaves only the second value. */
  lemma SetTwice(c: Mat2, i: nat, j: nat, v: nat, w: nat)
    requires i < 2 && j < 2
    ensures c.Set(i, j, v).Set(i, j, w) == c.Set(i, j, w)
  {
  }

  /** Every entry of `a` is below `bound`. */
  predicate EntriesBelow(a: Mat2, bound: nat)
  {
    a.e00 < bound && a.e01 < bound && a.e10 < bound && a.e11 < bound
  }

  /** The sum of the first k terms a[i][t] * b[t][j] of the (i, j) entry of a·b. */
  function PartialDot(a: Mat2, b: Mat2, i: nat, j: nat, k: nat): nat
    requires i < 2 && j < 2 && k <= 2
    decreases k
  {
    if k == 0 then 0 else PartialDot(a, b, i, j, k - 1) + a.At(i, k - 1) * b.At(k - 1, j)
  }

  /** The exact matrix product a·b. */
  function Mul(a: Mat2, b: Mat2): Mat2
  {
    Mat2(a.e00 * b.e00 + a.e01 * b.e10, a.e00 * b.e01 + a.e01 * b.e11,
         a.e10 * b.e00 + a.e11 * b.e10, a.e10 * b.e01 + a.e11 * b.e11)
  }

  /** The exact power t^p, defined by peeling one factor at a time. */
  function MatPow(t: Mat2, p: nat): Mat2
    decreases p
  {
    if p == 0 then Identity else Mul(t, MatPow(t, p - 1))
  }

  /** Every entry of `a` reduced modulo m. */
  function Reduce(a: Mat2, m: nat): (r: Mat2)
    requires m >= 1
    ensures EntriesBelow(r, m)
  {
    Mat2(a.e00 % m, a.e01 % m, a.e10 % m, a.e11 % m)
  }

  /** Entry (i, j) of a·b is the sum over k of a[i][k] * b[k][j]. */
  lemma MulAt(a: Mat2, b: Mat2, i: nat, j: nat)
    requires i < 2 && j < 2
    ensures Mul(a, b).At(i, j) == PartialDot(a, b, i, j, 2)
  {
  }

  // ---------------------------------------------------------------------------
  // Euclidean division facts

  /** x % m is determined by any decomposition x == q*m + r with 0 <= r < m. */
  lemma ModUnique(x: int, m: int, q: int, r: int)
    requires m > 0 && 0 <= r < m && x == q * m + r
    ensures x % m == r
  {
    var q', r' := x / m, x % m;
    assert (q - q') * m == r' - r;
    if q > q' {
      assert (q - q') * m >= m by { MulAtLeast(q - q', m); }
    } else if q < q' {
      assert (q' - q) * m >= m by { MulAtLeast(q' - q, m); }
    }
  }

  lemma MulAtLeast(d: int, m: int)
    requires d >= 1 && m > 0
    ensures d * m >= m
  {
    assert d * m == (d - 1) * m + m;
  }

  /** Reducing a summand first does not change the residue of a sum. */
  lemma ModAdd(x: nat, y: nat, m: nat)
    requires m >= 1
    ensures (x + y) % m == (x % m + y % m) % m
  {
    var s := x % m + y % m;
    calc {
      x + y;
      (x / m) * m + x % m + (y / m) * m + y % m;
      (x / m + y / m) * m + s;
      (x / m + y / m) * m + (s / m) * m + s % m;
      (x / m + y / m + s / m) * m + s % m;
    }
    ModUnique(x + y, m, x / m + y / m + s / m, s % m);
  }

  /** Reducing the running sum before adding the next term does not change the residue. */
  lemma ModAddLeft(x: nat, y: nat, m: nat)
    requires m >= 1
    ensures (x % m + y) % m == (x + y) % m
  {
    ModAdd(x, y, m);
    ModAdd(x % m, y, m);
    ModUnique(x % m, m, 0, x % m);
  }

  /** Reducing the factors first does not change the residue of a product. */
  lemma ModMul(x: nat, y: nat, m: nat)
    requires m >= 1
    ensures (x * y) % m == ((x % m) * (y % m)) % m
  {
    var qx, rx, qy, ry := x / m, x % m, y / m, y % m;
    var p := rx * ry;
    var k := qx * qy * m + qx * ry + rx * qy;
    calc {
      x * y;
      (qx * m + rx) * (qy * m + ry);
      k * m + p;
      k * m + (p / m) * m + p % m;
      (k + p / m) * m + p % m;
    }
    ModUnique(x * y, m, k + p / m, p % m);
  }

  /** The residue of a two-term dot product only depends on the residues of its terms. */
  lemma ModDot(x1: nat, y1: nat, x2: nat, y2: nat, m: nat)
    requires m >= 1
    ensures ((x1 % m) * (y1 % m) + (x2 % m) * (y2 % m)) % m == (x1 * y1 + x2 * y2) % m
  {
    var u, v := (x1 % m) * (y1 % m), (x2 % m) * (y2 % m);
    ModAdd(u, v, m);
    ModMul(x1, y1, m);
    ModMul(x2, y2, m);
    ModAdd(x1 * y1, x2 * y2, m);
  }

  // ---------------------------------------------------------------------------
  // Matrix algebra

  lemma MulIdentity(a: Mat2)
    ensures Mul(Identity, a) == a && Mul(a, Identity) == a
  {
  }

  /** The matrix product is associative. */
  lemma MulAssociative(a: Mat2, b: Mat2, c: Mat2)
    ensures Mul(Mul(a, b), c) == Mul(a, Mul(b, c))
  {
    DotAssociative(a.e00, a.e01, b.e00, b.e01, b.e10, b.e11, c.e00, c.e10);
    DotAssociative(a.e00, a.e01, b.e00, b.e01, b.e10, b.e11, c.e01, c.e11);
    DotAssociative(a.e10, a.e11, b.e00, b.e01, b.e10, b.e11, c.e00, c.e10);
    DotAssociative(a.e10, a.e11, b.e00, b.e01, b.e10, b.e11, c.e01, c.e11);
  }

  /** One entry of (a·b)·c against the same entry of a·(b·c). */
  lemma DotAssociative(x0: nat, x1: nat, y00: nat, y01: nat, y10: nat, y11: nat, z0: nat, z1: nat)
    ensures (x0 * y00 + x1 * y10) * z0 + (x0 * y01 + x1 * y11) * z1
         == x0 * (y00 * z0 + y01 * z1) + x1 * (y10 * z0 + y11 * z1)
  {
    calc {
      (x0 * y00 + x1 * y10) * z0 + (x0 * y01 + x1 * y11) * z1;
      x0 * y00 * z0 + x1 * y10 * z0 + x0 * y01 * z1 + x1 * y11 * z1;
      x0 * (y00 * z0 + y01 * z1) + x1 * (y10 * z0 + y11 * z1);
    }
  }

  /** t^(p+q) = t^p · t^q. */
  lemma {:induction false} MatPowAdd(t: Mat2, p: nat, q: nat)
    ensures MatPow(t, p + q) == Mul(MatPow(t, p), MatPow(t, q))
    decreases p
  {
    if p == 0 {
      MulIdentity(MatPow(t, q));
    } else {
      calc {
        MatPow(t, p + q);
        Mul(t, MatPow(t, p - 1 + q));
        { MatPowAdd(t, p - 1, q); }
        Mul(t, Mul(MatPow(t, p - 1), MatPow(t, q)));
        { MulAssociative(t, MatPow(t, p - 1), MatPow(t, q)); }
        Mul(Mul(t, MatPow(t, p - 1)), MatPow(t, q));
        Mul(MatPow(t, p), MatPow(t, q));
      }
    }
  }

  /** One more factor: if t^(p-1) is x then t^p is t·x. */
  lemma MatPowSucc(t: Mat2, p: nat, x: Mat2)
    requires p >= 1 && MatPow(t, p - 1) == x
    ensures MatPow(t, p) == Mul(t, x)
  {
  }

  lemma MatPowOne(t: Mat2)
    ensures MatPow(t, 1) == t
  {
    MulIdentity(t);
  }

  /** Reducing a matrix that is already reduced changes nothing. */
  lemma ReduceReduced(a: Mat2, m: nat)
    requires m >= 1 && EntriesBelow(a, m)
    ensures Reduce(a, m) == a
  {
    ModUnique(a.e00, m, 0, a.e00);
    ModUnique(a.e01, m, 0, a.e01);
    ModUnique(a.e10, m, 0, a.e10);
    ModUnique(a.e11, m, 0, a.e11);
  }

  /** Reducing the factors before multiplying gives the same reduced product. */
  lemma ReduceMul(a: Mat2, b: Mat2, m: nat)
    requires m >= 1
    ensures Reduce(Mul(Reduce(a, m), Reduce(b, m)), m) == Reduce(Mul(a, b), m)
  {
    ModDot(a.e00, b.e00, a.e01, b.e10, m);
    ModDot(a.e00, b.e01, a.e01, b.e11, m);
    ModDot(a.e10, b.e00, a.e11, b.e10, m);
    ModDot(a.e10, b.e01, a.e11, b.e11, m);
  }

  /** Reducing only the right factor before multiplying gives the same reduced product. */
  lemma ReduceMulRight(a: Mat2, b: Mat2, m: nat)
    requires m >= 1
    ensures Reduce(Mul(a, Reduce(b, m)), m) == Reduce(Mul(a, b), m)
  {
    ReduceMul(a, Reduce(b, m), m);
    ReduceReduced(Reduce(b, m), m);
    ReduceMul(a, b, m);
  }
}
