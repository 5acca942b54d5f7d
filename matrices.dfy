/**
 * Dense real matrices: the Kronecker product that composes per-qubit
 * operators and the matrix-vector product that evolves the state.
 */
module Matrices {
  import Bits

  /** A matrix as a list of rows, as the simulator's `number[][]`. */
  type Matrix = seq<seq<real>>

  /** m has the given numbers of rows and columns. */
  predicate IsMatrix(m: Matrix, rows: nat, cols: nat)
  {
    |m| == rows && forall r :: 0 <= r < rows ==> |m[r]| == cols
  }

  /** A non-empty matrix whose rows are all as long as its first. */
  predicate IsRect(m: Matrix)
  {
    |m| > 0 && IsMatrix(m, |m|, |m[0]|)
  }

  /** The d×d identity. */
  function Identity(d: nat): (u: Matrix)
    ensures IsMatrix(u, d, d)
  {
    seq(d, r => seq(d, c => if r == c then 1.0 else 0.0))
  }

  /** x ≤ y scales to x·p ≤ y·p. */
  lemma MulMono(x: nat, y: nat, p: nat)
    requires x <= y
    ensures x * p <= y * p
  {
    var d: nat := y - x;
    assert y * p == x * p + d * p;
  }

  /** Row r of a product index r = i·p + k splits back into (i, k). */
  lemma SplitIndex(i: nat, k: nat, p: nat, m: nat)
    requires i < m && k < p
    ensures (i * p + k) / p == i && (i * p + k) % p == k
    ensures i * p + k < i * p + p == (i + 1) * p <= m * p
  {
    Bits.DivUnique(i * p + k, p, i, k);
    MulMono(i + 1, m, p);
  }

  /** Block i of height p ends at (i + 1)·p, within m blocks. */
  lemma BlockEnd(i: nat, p: nat, m: nat)
    requires i < m
    ensures i * p + p == (i + 1) * p <= m * p
  {
    MulMono(i + 1, m, p);
  }

  /** An index below m·p has quotient below m. */
  lemma QuotientBound(r: nat, m: nat, p: nat)
    requires p > 0 && r < m * p
    ensures r / p < m
  {
    assert r == p * (r / p) + r % p;
    assert r / p >= m ==> p * (r / p) >= p * m by {
      if r / p >= m {
        MulMono(m, r / p, p);
      }
    }
  }

  /**
   * The Kronecker product: entry (r, c) of the result is
   * a[r / p][c / q] · b[r % p][c % q] for a of size m×n and b of size p×q.
   */
  function KronOf(a: Matrix, b: Matrix): (k: Matrix)
    requires IsRect(a) && IsRect(b)
    ensures IsMatrix(k, |a| * |b|, |a[0]| * |b[0]|) && IsRect(k)
  {
    var m, n, p, q := |a|, |a[0]|, |b|, |b[0]|;
    MulMono(1, m, p);
    seq(m * p, r requires 0 <= r < m * p =>
      seq(n * q, c requires 0 <= c < n * q =>
        QuotientBound(r, m, p);
        QuotientBound(c, n, q);
        a[r / p][c / q] * b[r % p][c % q]))
  }

  /** The rows of a two-dimensional array. */
  function Rows(g: array2<real>): (m: Matrix)
    reads g
    ensures IsMatrix(m, g.Length0, g.Length1)
    ensures forall r, c :: 0 <= r < g.Length0 && 0 <= c < g.Length1 ==> m[r][c] == g[r, c]
  {
    seq(g.Length0, r requires 0 <= r < g.Length0 reads g =>
      seq(g.Length1, c requires 0 <= c < g.Length1 reads g => g[r, c]))
  }

  /** An array holding a matrix entry by entry reads back as that matrix. */
  lemma RowsAgree(g: array2<real>, spec: Matrix)
    requires IsMatrix(spec, g.Length0, g.Length1)
    requires forall r, c :: 0 <= r < g.Length0 && 0 <= c < g.Length1 ==> g[r, c] == spec[r][c]
    ensures Rows(g) == spec
  {
    var m := Rows(g);
    forall r | 0 <= r < g.Length0
      ensures m[r] == spec[r]
    {
      assert forall c :: 0 <= c < g.Length1 ==> m[r][c] == spec[r][c];
    }
  }

  /**
   * `kron(a, b)`: fills an (m·p)×(n·q) result, writing each entry
   * result[i·p+k][j·q+l] = a[i][j]·b[k][l] once, block (i, j) at a time.
   */
  method Kron(a: Matrix, b: Matrix) returns (result: Matrix)
    requires IsRect(a) && IsRect(b)
    ensures result == KronOf(a, b)
  {
    var m, n := |a|, |a[0]|;
    var p, q := |b|, |b[0]|;
    ghost var spec := KronOf(a, b);
    var res := new real[m * p, n * q]((_, _) => 0.0);
    for i := 0 to m
      invariant forall r, c :: 0 <= r < m * p && 0 <= c < n * q && r < i * p ==> res[r, c] == spec[r][c]
    {
      BlockEnd(i, p, m);
      for j := 0 to n
        invariant forall r, c ::
                    0 <= r < m * p && 0 <= c < n * q && (r < i * p || (r < i * p + p && c < j * q)) ==>
                      res[r, c] == spec[r][c]
      {
        BlockEnd(j, q, n);
        KronBlock(res, a, b, i, j);
      }
    }
    RowsAgree(res, spec);
    result := Rows(res);
  }

  /** Block (i, j) of the product: a[i][j] times every entry of b. */
  method KronBlock(res: array2<real>, a: Matrix, b: Matrix, i: nat, j: nat)
    requires IsRect(a) && IsRect(b) && i < |a| && j < |a[0]|
    requires res.Length0 == |a| * |b| && res.Length1 == |a[0]| * |b[0]|
    modifies res
    ensures forall r, c :: 0 <= r < res.Length0 && 0 <= c < res.Length1 ==>
              res[r, c] == if i * |b| <= r < i * |b| + |b| && j * |b[0]| <= c < j * |b[0]| + |b[0]|
                           then KronOf(a, b)[r][c] else old(res[r, c])
  {
    for k := 0 to |b|
      invariant forall r, c :: 0 <= r < res.Length0 && 0 <= c < res.Length1 ==>
                  res[r, c] == if i * |b| <= r < i * |b| + k && j * |b[0]| <= c < j * |b[0]| + |b[0]|
                               then KronOf(a, b)[r][c] else old(res[r, c])
    {
      KronRowSegment(res, a, b, i, j, k);
    }
  }

  /** Row k of block (i, j): result[i·p+k][j·q+l] = a[i][j]·b[k][l] for every l. */
  method KronRowSegment(res: array2<real>, a: Matrix, b: Matrix, i: nat, j: nat, k: nat)
    requires IsRect(a) && IsRect(b) && i < |a| && j < |a[0]| && k < |b|
    requires res.Length0 == |a| * |b| && res.Length1 == |a[0]| * |b[0]|
    modifies res
    ensures forall r, c :: 0 <= r < res.Length0 && 0 <= c < res.Length1 ==>
              res[r, c] == if r == i * |b| + k && j * |b[0]| <= c < j * |b[0]| + |b[0]|
                           then KronOf(a, b)[r][c] else old(res[r, c])
  {
    var p, q := |b|, |b[0]|;
    SplitIndex(i, k, p, |a|);
    for l := 0 to q
      invariant forall r, c :: 0 <= r < res.Length0 && 0 <= c < res.Length1 ==>
                  res[r, c] == if r == i * p + k && j * q <= c < j * q + l
                               then KronOf(a, b)[r][c] else old(res[r, c])
    {
      SplitIndex(j, l, q, |a[0]|);
      KronAt(a, b, i * p + k, j * q + l);
      res[i * p + k, j * q + l] := a[i][j] * b[k][l];
    }
  }

  /** Every entry of `kron(a, b)` is the product its block position names. */
  lemma KronAt(a: Matrix, b: Matrix, r: nat, c: nat)
    requires IsRect(a) && IsRect(b)
    requires r < |a| * |b| && c < |a[0]| * |b[0]|
    ensures r / |b| < |a| && c / |b[0]| < |a[0]|
    ensures KronOf(a, b)[r][c] == a[r / |b|][c / |b[0]|] * b[r % |b|][c % |b[0]|]
  {
    QuotientBound(r, |a|, |b|);
    QuotientBound(c, |a[0]|, |b[0]|);
  }

  /** [[1]], the starting value of the fold, is the left unit of `kron`: kron([[1]], b) = b. */
  lemma KronUnitLeft(b: Matrix)
    requires IsRect(b)
    ensures KronOf([[1.0]], b) == b
  {
    var k := KronOf([[1.0]], b);
    forall r | 0 <= r < |b|
      ensures k[r] == b[r]
    {
      forall c | 0 <= c < |b[0]|
        ensures k[r][c] == b[r][c]
      {
        Bits.DivUnique(r, |b|, 0, r);
        Bits.DivUnique(c, |b[0]|, 0, c);
      }
    }
  }

  lemma IdentityProduct(d1: nat, d2: nat, x: nat, y: nat, xr: nat, yr: nat)
    requires x < d1 && y < d1 && xr < d2 && yr < d2
    ensures Identity(d1)[x][y] * Identity(d2)[xr][yr] == if x == y && xr == yr then 1.0 else 0.0
  {
  }

  lemma KronIdentityAt(d: nat, r: nat, c: nat)
    requires d > 0 && r < 2 * d && c < 2 * d
    ensures KronOf(Identity(d), Identity(2))[r][c] == if r == c then 1.0 else 0.0
  {
    KronAt(Identity(d), Identity(2), r, c);
    IdentityProduct(d, 2, r / 2, c / 2, r % 2, c % 2);
  }

  /** Adding one qubit's identity to an identity gives the identity of twice the size. */
  lemma KronIdentity(d: nat)
    requires d > 0
    ensures KronOf(Identity(d), Identity(2)) == Identity(2 * d)
  {
    var k := KronOf(Identity(d), Identity(2));
    var u := Identity(2 * d);
    forall r | 0 <= r < 2 * d
      ensures k[r] == u[r]
    {
      forall c | 0 <= c < 2 * d
        ensures k[r][c] == u[r][c]
      {
        KronIdentityAt(d, r, c);
      }
    }
  }

  /** The left-to-right `kron` of a list of matrices, starting from [[1]]. */
  function KronAll(ms: seq<Matrix>): (u: Matrix)
    requires forall k :: 0 <= k < |ms| ==> IsMatrix(ms[k], 2, 2)
    ensures IsMatrix(u, Bits.Pow2(|ms|), Bits.Pow2(|ms|))
  {
    if ms == [] then [[1.0]]
    else
      var init := ms[..|ms| - 1];
      assert forall k :: 0 <= k < |init| ==> init[k] == ms[k];
      var u := KronAll(init);
      assert IsMatrix(ms[|ms| - 1], 2, 2);
      KronOf(u, ms[|ms| - 1])
  }

  /** Composing only identities gives the identity of the whole register. */
  lemma {:induction false} KronAllIdentities(n: nat)
    ensures KronAll(seq(n, _ => Identity(2))) == Identity(Bits.Pow2(n))
  {
    if n > 0 {
      KronAllIdentities(n - 1);
      assert seq(n, _ => Identity(2))[..n - 1] == seq(n - 1, _ => Identity(2));
      KronIdentity(Bits.Pow2(n - 1));
    } else {
      assert Identity(1)[0] == [1.0];
    }
  }

  /**
   * `row.reduce((acc, v, i) => acc + v * vec[i], 0)`: the products of the
   * row with the matching vector entries, summed left to right.
   */
  function Dot(row: seq<real>, vec: seq<real>): real
    requires |row| <= |vec|
  {
    if row == [] then 0.0 else Dot(row[..|row| - 1], vec) + row[|row| - 1] * vec[|row| - 1]
  }

  /** `matVecMul(mat, vec)`: one dot product per row. */
  function MatVecMul(mat: Matrix, vec: seq<real>): (w: seq<real>)
    requires forall r :: 0 <= r < |mat| ==> |mat[r]| <= |vec|
    ensures |w| == |mat|
    ensures forall r :: 0 <= r < |mat| && |mat[r]| == 0 ==> w[r] == 0.0
  {
    seq(|mat|, r requires 0 <= r < |mat| => Dot(mat[r], vec))
  }

  /** A row with a single 1 at position k and zeros elsewhere selects vec[k]. */
  lemma {:induction false} DotOneHot(row: seq<real>, vec: seq<real>, k: nat)
    requires |row| <= |vec| && k < |row|
    requires forall c :: 0 <= c < |row| ==> row[c] == if c == k then 1.0 else 0.0
    ensures Dot(row, vec) == vec[k]
  {
    var last := |row| - 1;
    if k < last {
      DotOneHot(row[..last], vec, k);
    } else {
      DotZero(row[..last], vec);
    }
  }

  /** A row whose only possibly nonzero entry is at k contributes row[k]·vec[k]. */
  lemma {:induction false} DotSingle(row: seq<real>, vec: seq<real>, k: nat)
    requires |row| <= |vec| && k < |row|
    requires forall c :: 0 <= c < |row| && c != k ==> row[c] == 0.0
    ensures Dot(row, vec) == row[k] * vec[k]
  {
    var last := |row| - 1;
    if k < last {
      DotSingle(row[..last], vec, k);
    } else {
      DotZero(row[..last], vec);
    }
  }

  /** A row whose only possibly nonzero entries are p at k1 and q at k2 contributes p·vec[k1] + q·vec[k2]. */
  lemma {:induction false} DotPair(row: seq<real>, vec: seq<real>, k1: nat, k2: nat, p: real, q: real)
    requires |row| <= |vec| && k1 < |row| && k2 < |row| && k1 != k2
    requires row[k1] == p && row[k2] == q
    requires forall c :: 0 <= c < |row| && c != k1 && c != k2 ==> row[c] == 0.0
    ensures Dot(row, vec) == p * vec[k1] + q * vec[k2]
  {
    var last := |row| - 1;
    if last == k1 {
      DotSingle(row[..last], vec, k2);
    } else if last == k2 {
      DotSingle(row[..last], vec, k1);
    } else {
      DotPair(row[..last], vec, k1, k2, p, q);
    }
  }

  /** Row r of mat·vec when that row's only possibly nonzero entries are p at k1 and q at k2. */
  lemma MatVecPair(mat: Matrix, vec: seq<real>, r: nat, k1: nat, k2: nat, p: real, q: real)
    requires forall r' :: 0 <= r' < |mat| ==> |mat[r']| <= |vec|
    requires r < |mat| && k1 < |mat[r]| && k2 < |mat[r]| && k1 != k2
    requires mat[r][k1] == p && mat[r][k2] == q
    requires forall c :: 0 <= c < |mat[r]| && c != k1 && c != k2 ==> mat[r][c] == 0.0
    ensures MatVecMul(mat, vec)[r] == p * vec[k1] + q * vec[k2]
  {
    DotPair(mat[r], vec, k1, k2, p, q);
  }

  /** The 2×2 product step: mixing (x, y) with rows (p, q) and (r, w) of a matrix that squares to the identity, twice. */
  lemma SquareStep(p: real, q: real, r: real, w: real, x: real, y: real, x': real, y': real)
    requires p * p + q * r == 1.0 && p * q + q * w == 0.0
    requires x' == p * x + q * y && y' == w * y + r * x
    ensures p * x' + q * y' == x
  {
    calc {
      p * x' + q * y';
      p * (p * x + q * y) + q * (w * y + r * x);
      (p * p + q * r) * x + (p * q + q * w) * y;
    }
  }

  /**
   * A matrix whose rows j and f are zero except on columns j and f, where
   * they hold (p, q) and (r, w), with p·p + q·r = 1 and p·q + q·w = 0:
   * applying it twice gives the amplitude at j back.
   */
  lemma PairRowsTwice(u: Matrix, p: real, q: real, r: real, w: real, s: seq<real>, j: nat, f: nat)
    requires IsMatrix(u, |s|, |s|) && j < |s| && f < |s| && j != f
    requires forall i :: 0 <= i < |s| ==> u[j][i] == if i == j then p else if i == f then q else 0.0
    requires forall i :: 0 <= i < |s| ==> u[f][i] == if i == f then w else if i == j then r else 0.0
    requires p * p + q * r == 1.0 && p * q + q * w == 0.0
    ensures MatVecMul(u, MatVecMul(u, s))[j] == s[j]
  {
    var once := MatVecMul(u, s);
    MatVecPair(u, s, j, j, f, p, q);
    MatVecPair(u, s, f, f, j, w, r);
    MatVecPair(u, once, j, j, f, p, q);
    SquareStep(p, q, r, w, s[j], s[f], once[j], once[f]);
  }

  /** An all-zero row contributes nothing. */
  lemma {:induction false} DotZero(row: seq<real>, vec: seq<real>)
    requires |row| <= |vec|
    requires forall c :: 0 <= c < |row| ==> row[c] == 0.0
    ensures Dot(row, vec) == 0.0
  {
    if row != [] {
      DotZero(row[..|row| - 1], vec);
    }
  }

  /**
   * A matrix whose row r has its single 1 in column sigma(r) (a permutation
   * matrix) moves entry sigma(r) of the state to position r.
   */
  lemma MatVecPermutation(mat: Matrix, vec: seq<real>, sigma: nat -> nat)
    requires IsMatrix(mat, |vec|, |vec|)
    requires forall r :: 0 <= r < |vec| ==> sigma(r) < |vec|
    requires forall r, c :: 0 <= r < |vec| && 0 <= c < |vec| ==>
               mat[r][c] == if c == sigma(r) then 1.0 else 0.0
    ensures |MatVecMul(mat, vec)| == |vec|
    ensures forall r :: 0 <= r < |vec| ==> MatVecMul(mat, vec)[r] == vec[sigma(r)]
  {
    forall r | 0 <= r < |vec|
      ensures MatVecMul(mat, vec)[r] == vec[sigma(r)]
    {
      DotOneHot(mat[r], vec, sigma(r));
    }
  }

  /** The identity leaves a state unchanged. */
  lemma MatVecIdentity(vec: seq<real>)
    ensures MatVecMul(Identity(|vec|), vec) == vec
  {
    MatVecPermutation(Identity(|vec|), vec, r => r);
  }
}
