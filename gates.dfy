/**
 * The gate catalog and the embedding of controlled gates at arbitrary qubit
 * positions. The embeddings build the whole 2^n×2^n matrix column by column:
 * column i is the image of basis state i.
 */
module Gates {
  import opened Bits
  import opened Matrices

  /** 1/Math.sqrt(2) as a decimal; nothing below depends on its value. */
  const InvSqrt2: real := 0.7071067811865475

  const I: Matrix := [[1.0, 0.0], [0.0, 1.0]]
  const X: Matrix := [[0.0, 1.0], [1.0, 0.0]]
  const H: Matrix := [[InvSqrt2, InvSqrt2], [InvSqrt2, -InvSqrt2]]
  const Z: Matrix := [[1.0, 0.0], [0.0, -1.0]]

  /** Reference 2-qubit matrices, control on qubit 0 and target on qubit 1. */
  const CX: Matrix := [[1.0, 0.0, 0.0, 0.0],
                       [0.0, 1.0, 0.0, 0.0],
                       [0.0, 0.0, 0.0, 1.0],
                       [0.0, 0.0, 1.0, 0.0]]
  const CH: Matrix := [[1.0, 0.0, 0.0, 0.0],
                       [0.0, 1.0, 0.0, 0.0],
                       [0.0, 0.0, InvSqrt2, InvSqrt2],
                       [0.0, 0.0, InvSqrt2, -InvSqrt2]]
  const CZ: Matrix := [[1.0, 0.0, 0.0, 0.0],
                       [0.0, 1.0, 0.0, 0.0],
                       [0.0, 0.0, 1.0, 0.0],
                       [0.0, 0.0, 0.0, -1.0]]

  /** Reference 3-qubit matrix, controls on qubits 0 and 1, target on qubit 2. */
  const CCX: Matrix := [[1.0, 0.0, 0.0, 0.0, 0.0, 0.0, 0.0, 0.0],
                        [0.0, 1.0, 0.0, 0.0, 0.0, 0.0, 0.0, 0.0],
                        [0.0, 0.0, 1.0, 0.0, 0.0, 0.0, 0.0, 0.0],
                        [0.0, 0.0, 0.0, 1.0, 0.0, 0.0, 0.0, 0.0],
                        [0.0, 0.0, 0.0, 0.0, 1.0, 0.0, 0.0, 0.0],
                        [0.0, 0.0, 0.0, 0.0, 0.0, 1.0, 0.0, 0.0],
                        [0.0, 0.0, 0.0, 0.0, 0.0, 0.0, 0.0, 1.0],
                        [0.0, 0.0, 0.0, 0.0, 0.0, 0.0, 1.0, 0.0]]

  /** The `type` of a two-qubit gate descriptor. */
  datatype ControlKind = KindCX | KindCH | KindCZ

  /** One cell of the circuit grid. */
  datatype Cell =
    | Empty                                                    // null or undefined
    | Tag(name: string)                                        // a gate name such as "X", "H", "Z" or "I"
    | Controlled(kind: ControlKind, control: nat, target: nat) // { type: 'CX' | 'CH' | 'CZ', control, target }
    | Toffoli(c1: nat, c2: nat, target: nat)                   // { type: 'CCX', controls: [c1, c2], target }

  /**
   * `getGateMatrix`: the tags "X", "H" and "Z" select their matrix; every
   * other cell (empty, "I", an unknown name, any descriptor) gets I.
   */
  function GetGateMatrix(cell: Cell): (m: Matrix)
    ensures IsMatrix(m, 2, 2)
    ensures m == X <==> cell == Tag("X")
    ensures m == H <==> cell == Tag("H")
    ensures m == Z <==> cell == Tag("Z")
    ensures m == I <==> cell !in {Tag("X"), Tag("H"), Tag("Z")}
  {
    assert X[0][0] != I[0][0] && H[0][1] != I[0][1] && Z[1][1] != I[1][1];
    assert X[0][0] != H[0][0] && X[0][0] != Z[0][0] && H[0][1] != Z[0][1];
    match cell
    case Controlled(_, _, _) => I
    case Tag(name) =>
      if name == "X" then X
      else if name == "H" then H
      else if name == "Z" then Z
      else I
    case _ => I
  }

  /** The catalog's identity is the 2×2 identity. */
  lemma IIsIdentity()
    ensures I == Identity(2)
  {
    assert Identity(2)[0] == I[0] && Identity(2)[1] == I[1];
  }

  // ---------------------------------------------------------------------------
  // Controlled gate (CX, CH, CZ) on any control and target.

  /** Basis indices j and i agree on every qubit except possibly t. */
  ghost predicate AgreeExcept(n: nat, j: nat, i: nat, t: nat)
  {
    forall q :: 0 <= q < n && q != t ==> Bit(j, n, q) == Bit(i, n, q)
  }

  /**
   * Entry (j, i) of "apply base to qubit t when qubit c is 1": column i is
   * the identity column when bit c of i is 0; otherwise its only possibly
   * nonzero entries are at the j that agree with i outside qubit t, with
   * value base[bit t of j][bit t of i].
   */
  ghost function ControlledEntry(n: nat, c: nat, t: nat, base: Matrix, j: nat, i: nat): real
    requires c < n && t < n && IsMatrix(base, 2, 2)
  {
    if Bit(i, n, c) == 0 then (if j == i then 1.0 else 0.0)
    else if AgreeExcept(n, j, i, t) then base[Bit(j, n, t)][Bit(i, n, t)]
    else 0.0
  }

  ghost function ControlledMatrix(n: nat, c: nat, t: nat, base: Matrix): (u: Matrix)
    requires c < n && t < n && IsMatrix(base, 2, 2)
    ensures IsMatrix(u, Pow2(n), Pow2(n))
  {
    seq(Pow2(n), j requires 0 <= j => seq(Pow2(n), i requires 0 <= i => ControlledEntry(n, c, t, base, j, i)))
  }

  /**
   * The index with qubit t of i set to k is the unique in-range index that
   * agrees with i outside t and has bit k at t.
   */
  lemma SetBitUnique(n: nat, i: nat, t: nat, k: nat)
    requires i < Pow2(n) && t < n && k < 2
    ensures FromBits(BitsOf(i, n)[t := k]) < Pow2(n)
    ensures AgreeExcept(n, FromBits(BitsOf(i, n)[t := k]), i, t)
    ensures Bit(FromBits(BitsOf(i, n)[t := k]), n, t) == k
    ensures forall j: nat :: j < Pow2(n) && AgreeExcept(n, j, i, t) && Bit(j, n, t) == k ==>
              j == FromBits(BitsOf(i, n)[t := k])
  {
    var s := BitsOf(i, n)[t := k];
    SetBit(i, n, t, k);
    forall j: nat | j < Pow2(n) && AgreeExcept(n, j, i, t) && Bit(j, n, t) == k
      ensures j == FromBits(s)
    {
      AgreeAndBitDetermine(n, i, j, t, k);
    }
  }

  lemma AgreeAndBitDetermine(n: nat, i: nat, j: nat, t: nat, k: nat)
    requires i < Pow2(n) && j < Pow2(n) && t < n && k < 2
    requires AgreeExcept(n, j, i, t) && Bit(j, n, t) == k
    ensures j == FromBits(BitsOf(i, n)[t := k])
  {
    var s := BitsOf(i, n)[t := k];
    forall q | 0 <= q < n
      ensures BitsOf(j, n)[q] == s[q]
    {
      if q != t {
        assert Bit(j, n, q) == Bit(i, n, q);
      }
    }
    assert BitsOf(j, n) == s;
    FromBitsOf(j, n);
  }

  /**
   * `makeGeneralControlledGate`: for every basis index i, decode its bits;
   * if the control bit is 1 write base[k][t] at the index with the target
   * bit set to k, for k = 0, 1; otherwise write the identity column.
   */
  method MakeGeneralControlledGate(n: nat, control: nat, target: nat, base: Matrix) returns (u: Matrix)
    requires control < n && target < n && IsMatrix(base, 2, 2)
    ensures u == ControlledMatrix(n, control, target, base)
  {
    var dim := Pow2(n);
    ghost var spec := ControlledMatrix(n, control, target, base);
    var U := new real[dim, dim]((_, _) => 0.0);
    for i := 0 to dim
      invariant forall j, c :: 0 <= j < dim && 0 <= c < dim ==>
                  U[j, c] == if c < i then spec[j][c] else 0.0
    {
      ControlledColumn(U, n, control, target, base, i);
    }
    RowsAgree(U, spec);
    u := Rows(U);
  }

  /**
   * Column i of the controlled gate, written into a zero column of U: with
   * the control bit of i set, base[k][bit t of i] at the index with the
   * target bit set to k, for k = 0, 1; otherwise the identity column.
   */
  method ControlledColumn(U: array2<real>, n: nat, control: nat, target: nat, base: Matrix, i: nat)
    requires control < n && target < n && IsMatrix(base, 2, 2)
    requires U.Length0 == Pow2(n) && U.Length1 == Pow2(n) && i < Pow2(n)
    requires forall j :: 0 <= j < Pow2(n) ==> U[j, i] == 0.0
    modifies U
    ensures forall j, c :: 0 <= j < Pow2(n) && 0 <= c < Pow2(n) ==>
              U[j, c] == if c == i then ControlledEntry(n, control, target, base, j, i) else old(U[j, c])
  {
    var bits := BitsOf(i, n);
    if bits[control] == 1 {
      var flipped := bits;
      var t := bits[target];
      for k := 0 to 2
        invariant |flipped| == n
        invariant forall q :: 0 <= q < n && q != target ==> flipped[q] == bits[q]
        invariant forall j, c :: 0 <= j < Pow2(n) && 0 <= c < Pow2(n) && c != i ==> U[j, c] == old(U[j, c])
        invariant forall j :: 0 <= j < Pow2(n) ==>
                    U[j, i] == if AgreeExcept(n, j, i, target) && Bit(j, n, target) < k
                               then base[Bit(j, n, target)][t] else 0.0
      {
        flipped := flipped[target := k];
        assert flipped == bits[target := k];
        SetBitUnique(n, i, target, k);
        var j := FromBits(flipped);
        U[j, i] := base[k][t];
      }
    } else {
      U[i, i] := 1.0;
    }
  }

  /**
   * Where column i of a controlled gate can be nonzero: with the control bit
   * set, exactly at i with its target bit cleared and at i with it set.
   */
  lemma ControlledSupport(n: nat, c: nat, t: nat, i: nat, j: nat)
    requires c < n && t < n && i < Pow2(n) && j < Pow2(n)
    ensures AgreeExcept(n, j, i, t) <==>
              j == i || j == (if Bit(i, n, t) == 0 then i + Pow2(n - 1 - t) else i - Pow2(n - 1 - t))
  {
    var s, b := BitsOf(i, n), Bit(i, n, t);
    FlipBit(i, n, t);
    SetBitUnique(n, i, t, 1 - b);
    if AgreeExcept(n, j, i, t) {
      if Bit(j, n, t) == b {
        SetBitUnique(n, i, t, b);
        assert s[t := b] == s;
        FromBitsOf(i, n);
        assert j == i;
      } else {
        assert j == FromBits(s[t := 1 - b]);
      }
    }
    if j == i {
      assert AgreeExcept(n, j, i, t);
    }
  }

  /**
   * Column i of a controlled gate by index arithmetic: the identity column
   * when the control bit of i is 0; otherwise base[b][b] at i itself and
   * base[1 - b][b] at i moved by the target's weight, b being i's target bit.
   */
  lemma ControlledColumnEntries(n: nat, c: nat, t: nat, base: Matrix, j: nat, i: nat)
    requires c < n && t < n && IsMatrix(base, 2, 2) && i < Pow2(n) && j < Pow2(n)
    ensures var b := Bit(i, n, t);
      var flip := if b == 0 then i + Pow2(n - 1 - t) else i - Pow2(n - 1 - t);
      ControlledMatrix(n, c, t, base)[j][i] ==
        if Bit(i, n, c) == 0 then (if j == i then 1.0 else 0.0)
        else if j == i then base[b][b]
        else if j == flip then base[1 - b][b]
        else 0.0
  {
    var b, w := Bit(i, n, t), Pow2(n - 1 - t);
    var flip := if b == 0 then i + w else i - w;
    assert ControlledMatrix(n, c, t, base)[j][i] == ControlledEntry(n, c, t, base, j, i);
    if Bit(i, n, c) == 1 {
      ControlledSupport(n, c, t, i, j);
      if j == i {
        assert AgreeExcept(n, j, i, t);
      } else if j == flip {
        FlipBit(i, n, t);
        assert BitsOf(j, n) == BitsOf(i, n)[t := 1 - b];
      }
    }
  }

  /**
   * With base X the embedding is a permutation matrix: column i has its one
   * 1 at i with the target bit flipped when the control bit is 1, else at i.
   */
  lemma ControlledXIsPermutation(n: nat, c: nat, t: nat, j: nat, i: nat)
    requires c < n && t < n && i < Pow2(n) && j < Pow2(n)
    ensures ControlledEntry(n, c, t, X, j, i) ==
              if j == FlipImage(n, c, c, t, i) then 1.0 else 0.0
  {
    if Bit(i, n, c) == 1 {
      var k := 1 - Bit(i, n, t);
      SetBitUnique(n, i, t, k);
      FlipImageBits(n, c, c, t, i);
      assert X[Bit(j, n, t)][Bit(i, n, t)] == if Bit(j, n, t) == k then 1.0 else 0.0;
    }
  }

  /**
   * The controlled-X embedding is the CCX embedding with both controls on the
   * same qubit; with control and target distinct it is therefore its own inverse.
   */
  lemma ControlledXSelfInverse(n: nat, c: nat, t: nat, s: seq<real>)
    requires c < n && t < n && c != t && |s| == Pow2(n)
    ensures ControlledMatrix(n, c, t, X) == ToffoliMatrix(n, c, c, t)
    ensures MatVecMul(ControlledMatrix(n, c, t, X), MatVecMul(ControlledMatrix(n, c, t, X), s)) == s
  {
    var u, v := ControlledMatrix(n, c, t, X), ToffoliMatrix(n, c, c, t);
    forall j | 0 <= j < Pow2(n)
      ensures u[j] == v[j]
    {
      forall i | 0 <= i < Pow2(n)
        ensures u[j][i] == v[j][i]
      {
        ControlledXIsPermutation(n, c, t, j, i);
      }
    }
    ToffoliSelfInverse(n, c, c, t, s);
  }

  /** base·base is the 2×2 identity: base undoes itself. */
  predicate SquaresToIdentity(base: Matrix)
    requires IsMatrix(base, 2, 2)
  {
    base[0][0] * base[0][0] + base[0][1] * base[1][0] == 1.0 &&
    base[0][0] * base[0][1] + base[0][1] * base[1][1] == 0.0 &&
    base[1][0] * base[0][0] + base[1][1] * base[1][0] == 0.0 &&
    base[1][0] * base[0][1] + base[1][1] * base[1][1] == 1.0
  }

  /** X and Z undo themselves. */
  lemma XAndZSquareToIdentity()
    ensures SquaresToIdentity(X) && SquaresToIdentity(Z)
  {
  }

  /**
   * Row j of a controlled gate with control distinct from target: the
   * identity row when the control bit of j is 0; otherwise base[b][b] at j
   * itself, base[b][1 - b] at j with its target bit flipped, and 0 elsewhere,
   * b being j's target bit.
   */
  lemma ControlledRowEntries(n: nat, c: nat, t: nat, base: Matrix, j: nat, i: nat)
    requires c < n && t < n && c != t && IsMatrix(base, 2, 2) && i < Pow2(n) && j < Pow2(n)
    ensures Bit(j, n, c) == 0 ==> ControlledMatrix(n, c, t, base)[j][i] == if i == j then 1.0 else 0.0
    ensures Bit(j, n, c) == 1 && i == j ==> ControlledMatrix(n, c, t, base)[j][i] == base[Bit(j, n, t)][Bit(j, n, t)]
    ensures Bit(j, n, c) == 1 && i != j && i == FlipImage(n, c, c, t, j) ==>
              ControlledMatrix(n, c, t, base)[j][i] == base[Bit(j, n, t)][1 - Bit(j, n, t)]
    ensures Bit(j, n, c) == 1 && i != j && i != FlipImage(n, c, c, t, j) ==> ControlledMatrix(n, c, t, base)[j][i] == 0.0
  {
    if Bit(j, n, c) == 0 {
      ControlledRowIdle(n, c, t, base, j, i);
    } else {
      ControlledRowMixed(n, c, t, base, j, i);
    }
  }

  lemma ControlledRowIdle(n: nat, c: nat, t: nat, base: Matrix, j: nat, i: nat)
    requires c < n && t < n && c != t && IsMatrix(base, 2, 2) && i < Pow2(n) && j < Pow2(n)
    requires Bit(j, n, c) == 0
    ensures ControlledMatrix(n, c, t, base)[j][i] == if i == j then 1.0 else 0.0
  {
    ControlledColumnEntries(n, c, t, base, j, i);
    if Bit(i, n, c) == 1 {
      ControlFlip(n, c, t, i);
    }
  }

  lemma ControlledRowMixed(n: nat, c: nat, t: nat, base: Matrix, j: nat, i: nat)
    requires c < n && t < n && c != t && IsMatrix(base, 2, 2) && i < Pow2(n) && j < Pow2(n)
    requires Bit(j, n, c) == 1
    ensures var b, f := Bit(j, n, t), FlipImage(n, c, c, t, j);
      ControlledMatrix(n, c, t, base)[j][i] ==
        if i == j then base[b][b] else if i == f then base[b][1 - b] else 0.0
  {
    ControlledColumnEntries(n, c, t, base, j, i);
    ControlFlip(n, c, t, j);
    if Bit(i, n, c) == 1 {
      ControlFlip(n, c, t, i);
    }
  }

  /**
   * With the control bit of j set, its flip image is a different in-range
   * index with the control bit still set, the opposite target bit, and
   * image j.
   */
  lemma ControlFlip(n: nat, c: nat, t: nat, j: nat)
    requires c < n && t < n && c != t && j < Pow2(n) && Bit(j, n, c) == 1
    ensures var f := FlipImage(n, c, c, t, j);
      0 <= f < Pow2(n) && f != j && Bit(f, n, c) == 1 && Bit(f, n, t) == 1 - Bit(j, n, t) &&
      FlipImage(n, c, c, t, f) == j
  {
    FlipImageBits(n, c, c, t, j);
    FlipBack(n, c, c, t, j);
  }

  /**
   * One amplitude of a controlled gate applied to v: unchanged when the
   * control bit is 0; otherwise the base row mixes it with the amplitude
   * whose target bit differs.
   */
  lemma ControlledApply(n: nat, c: nat, t: nat, base: Matrix, v: seq<real>, j: nat)
    requires c < n && t < n && c != t && IsMatrix(base, 2, 2) && |v| == Pow2(n) && j < Pow2(n)
    ensures 0 <= FlipImage(n, c, c, t, j) < Pow2(n)
    ensures Bit(j, n, c) == 0 ==> MatVecMul(ControlledMatrix(n, c, t, base), v)[j] == v[j]
    ensures Bit(j, n, c) == 1 ==>
              MatVecMul(ControlledMatrix(n, c, t, base), v)[j] ==
              base[Bit(j, n, t)][Bit(j, n, t)] * v[j] + base[Bit(j, n, t)][1 - Bit(j, n, t)] * v[FlipImage(n, c, c, t, j)]
  {
    FlipImageInvolution(n, c, c, t, j);
    if Bit(j, n, c) == 0 {
      ControlledApplyIdle(n, c, t, base, v, j);
    } else {
      ControlledApplyMixed(n, c, t, base, v, j);
    }
  }

  lemma ControlledApplyIdle(n: nat, c: nat, t: nat, base: Matrix, v: seq<real>, j: nat)
    requires c < n && t < n && c != t && IsMatrix(base, 2, 2) && |v| == Pow2(n) && j < Pow2(n)
    requires Bit(j, n, c) == 0
    ensures MatVecMul(ControlledMatrix(n, c, t, base), v)[j] == v[j]
  {
    var row := ControlledMatrix(n, c, t, base)[j];
    forall i | 0 <= i < |row|
      ensures row[i] == if i == j then 1.0 else 0.0
    {
      ControlledRowEntries(n, c, t, base, j, i);
    }
    DotOneHot(row, v, j);
  }

  lemma ControlledApplyMixed(n: nat, c: nat, t: nat, base: Matrix, v: seq<real>, j: nat)
    requires c < n && t < n && c != t && IsMatrix(base, 2, 2) && |v| == Pow2(n) && j < Pow2(n)
    requires Bit(j, n, c) == 1
    ensures 0 <= FlipImage(n, c, c, t, j) < Pow2(n)
    ensures MatVecMul(ControlledMatrix(n, c, t, base), v)[j] ==
              base[Bit(j, n, t)][Bit(j, n, t)] * v[j] + base[Bit(j, n, t)][1 - Bit(j, n, t)] * v[FlipImage(n, c, c, t, j)]
  {
    var u := ControlledMatrix(n, c, t, base);
    var b, f := Bit(j, n, t), FlipImage(n, c, c, t, j);
    ControlFlip(n, c, t, j);
    forall i | 0 <= i < |u[j]| && i != j && i != f
      ensures u[j][i] == 0.0
    {
      ControlledRowEntries(n, c, t, base, j, i);
    }
    ControlledRowEntries(n, c, t, base, j, j);
    ControlledRowEntries(n, c, t, base, j, f);
    MatVecPair(u, v, j, j, f, base[b][b], base[b][1 - b]);
  }

  /** The two conditions of SquaresToIdentity that involve row b. */
  lemma SquareRow(base: Matrix, b: nat)
    requires IsMatrix(base, 2, 2) && SquaresToIdentity(base) && b < 2
    ensures base[b][b] * base[b][b] + base[b][1 - b] * base[1 - b][b] == 1.0
    ensures base[b][b] * base[b][1 - b] + base[b][1 - b] * base[1 - b][1 - b] == 0.0
  {
  }

  /** Amplitude j after applying a self-undoing controlled gate twice. */
  lemma ControlledTwiceAt(n: nat, c: nat, t: nat, base: Matrix, s: seq<real>, j: nat)
    requires c < n && t < n && c != t && IsMatrix(base, 2, 2) && SquaresToIdentity(base)
    requires |s| == Pow2(n) && j < Pow2(n)
    ensures MatVecMul(ControlledMatrix(n, c, t, base), MatVecMul(ControlledMatrix(n, c, t, base), s))[j] == s[j]
  {
    var u := ControlledMatrix(n, c, t, base);
    var once := MatVecMul(u, s);
    if Bit(j, n, c) == 0 {
      ControlledApply(n, c, t, base, once, j);
      ControlledApply(n, c, t, base, s, j);
    } else {
      ControlledTwiceMixed(n, c, t, base, s, j);
    }
  }

  lemma ControlledTwiceMixed(n: nat, c: nat, t: nat, base: Matrix, s: seq<real>, j: nat)
    requires c < n && t < n && c != t && IsMatrix(base, 2, 2) && SquaresToIdentity(base)
    requires |s| == Pow2(n) && j < Pow2(n) && Bit(j, n, c) == 1
    ensures MatVecMul(ControlledMatrix(n, c, t, base), MatVecMul(ControlledMatrix(n, c, t, base), s))[j] == s[j]
  {
    var u := ControlledMatrix(n, c, t, base);
    var b, f := Bit(j, n, t), FlipImage(n, c, c, t, j);
    ControlFlip(n, c, t, j);
    forall i | 0 <= i < Pow2(n)
      ensures u[j][i] == if i == j then base[b][b] else if i == f then base[b][1 - b] else 0.0
      ensures u[f][i] == if i == f then base[1 - b][1 - b] else if i == j then base[1 - b][b] else 0.0
    {
      ControlledRowEntries(n, c, t, base, j, i);
      ControlledRowEntries(n, c, t, base, f, i);
      assert 1 - (1 - b) == b;
    }
    SquareRow(base, b);
    PairRowsTwice(u, base[b][b], base[b][1 - b], base[1 - b][b], base[1 - b][1 - b], s, j, f);
  }

  /**
   * A controlled gate whose base squares to the identity, with control
   * distinct from target, applied twice gives any state back.
   */
  lemma ControlledTwice(n: nat, c: nat, t: nat, base: Matrix, s: seq<real>)
    requires c < n && t < n && c != t && IsMatrix(base, 2, 2) && SquaresToIdentity(base)
    requires |s| == Pow2(n)
    ensures MatVecMul(ControlledMatrix(n, c, t, base), MatVecMul(ControlledMatrix(n, c, t, base), s)) == s
  {
    var u := ControlledMatrix(n, c, t, base);
    var twice := MatVecMul(u, MatVecMul(u, s));
    forall j | 0 <= j < |s|
      ensures twice[j] == s[j]
    {
      ControlledTwiceAt(n, c, t, base, s, j);
    }
  }

  /** With n = 2, control 0 and target 1 the embedding of X is the constant CX. */
  lemma ControlledXIsCX()
    ensures ControlledMatrix(2, 0, 1, X) == CX
  {
    ControlledTwoQubits(X);
    var u := ControlledMatrix(2, 0, 1, X);
    forall j | 0 <= j < 4 ensures u[j] == CX[j] { }
  }

  /** With n = 2, control 0 and target 1 the embedding of Z is the constant CZ. */
  lemma ControlledZIsCZ()
    ensures ControlledMatrix(2, 0, 1, Z) == CZ
  {
    ControlledTwoQubits(Z);
    var u := ControlledMatrix(2, 0, 1, Z);
    forall j | 0 <= j < 4 ensures u[j] == CZ[j] { }
  }

  /** With n = 2, control 0 and target 1 the embedding of H is the constant CH. */
  lemma ControlledHIsCH()
    ensures ControlledMatrix(2, 0, 1, H) == CH
  {
    ControlledTwoQubits(H);
    var u := ControlledMatrix(2, 0, 1, H);
    forall j | 0 <= j < 4 ensures u[j] == CH[j] { }
  }

  /** The two bits of a two-qubit basis index. */
  lemma BitsOfTwo(i: nat)
    requires i < 4
    ensures BitsOf(i, 2) == [i / 2, i % 2]
  {
    assert BitsOf(i / 2, 1) == [i / 2];
  }

  /** One entry of the two-qubit embedding with control 0 and target 1. */
  lemma ControlledTwoQubitsAt(base: Matrix, j: nat, i: nat)
    requires IsMatrix(base, 2, 2) && j < 4 && i < 4
    ensures ControlledEntry(2, 0, 1, base, j, i) ==
              if i < 2 then (if j == i then 1.0 else 0.0)
              else if j < 2 then 0.0
              else base[j - 2][i - 2]
  {
    BitsOfTwo(i);
    BitsOfTwo(j);
    assert Bit(j, 2, 0) == j / 2 && Bit(i, 2, 0) == i / 2;
    assert Bit(j, 2, 1) == j % 2 && Bit(i, 2, 1) == i % 2;
    assert AgreeExcept(2, j, i, 1) <==> j / 2 == i / 2;
  }

  /** On two qubits with control 0 and target 1 the embedding is the block matrix diag(I, base). */
  lemma ControlledTwoQubits(base: Matrix)
    requires IsMatrix(base, 2, 2)
    ensures forall j, i :: 0 <= j < 4 && 0 <= i < 4 ==>
              ControlledEntry(2, 0, 1, base, j, i) ==
                if i < 2 then (if j == i then 1.0 else 0.0)
                else if j < 2 then 0.0
                else base[j - 2][i - 2]
  {
    forall j, i | 0 <= j < 4 && 0 <= i < 4
      ensures ControlledEntry(2, 0, 1, base, j, i) ==
                if i < 2 then (if j == i then 1.0 else 0.0)
                else if j < 2 then 0.0
                else base[j - 2][i - 2]
    {
      ControlledTwoQubitsAt(base, j, i);
    }
  }

  // ---------------------------------------------------------------------------
  // Doubly controlled NOT (CCX) on any two controls and target.

  /**
   * The basis state that CCX sends i to: the target bit flipped (moved by
   * the target's weight 2^(n-1-t)) when both control bits are 1, else i.
   */
  function FlipImage(n: nat, c1: nat, c2: nat, t: nat, i: nat): int
    requires c1 < n && c2 < n && t < n
  {
    if Bit(i, n, c1) == 1 && Bit(i, n, c2) == 1 then
      (if Bit(i, n, t) == 0 then i + Pow2(n - 1 - t) else i - Pow2(n - 1 - t))
    else i
  }

  function ToffoliMatrix(n: nat, c1: nat, c2: nat, t: nat): (u: Matrix)
    requires c1 < n && c2 < n && t < n
    ensures IsMatrix(u, Pow2(n), Pow2(n))
  {
    seq(Pow2(n), j => seq(Pow2(n), i requires 0 <= i => if j == FlipImage(n, c1, c2, t, i) then 1.0 else 0.0))
  }

  /** The image of an in-range index is the index whose bits are i's with the target flipped. */
  lemma FlipImageBits(n: nat, c1: nat, c2: nat, t: nat, i: nat)
    requires c1 < n && c2 < n && t < n && i < Pow2(n)
    requires Bit(i, n, c1) == 1 && Bit(i, n, c2) == 1
    ensures FlipImage(n, c1, c2, t, i) == FromBits(BitsOf(i, n)[t := 1 - Bit(i, n, t)])
    ensures 0 <= FlipImage(n, c1, c2, t, i) < Pow2(n)
    ensures BitsOf(FlipImage(n, c1, c2, t, i), n) == BitsOf(i, n)[t := 1 - Bit(i, n, t)]
  {
    FlipBit(i, n, t);
  }

  /**
   * The row of the 1 in column i of the CCX embedding: decode i's bits, flip
   * the target when both controls are 1, and parse the bits back.
   */
  method ToffoliColumnTarget(n: nat, c1: nat, c2: nat, target: nat, i: nat) returns (j: nat)
    requires c1 < n && c2 < n && target < n && i < Pow2(n)
    ensures j < Pow2(n) && j == FlipImage(n, c1, c2, target, i)
  {
    var bits := BitsOf(i, n);
    if bits[c1] == 1 && bits[c2] == 1 {
      var flipped := bits;
      flipped := flipped[target := 1 - flipped[target]];
      FlipImageBits(n, c1, c2, target, i);
      j := FromBits(flipped);
    } else {
      j := i;
    }
  }

  /**
   * `makeGeneralCCX`: for every basis index i, write a 1 at the index with
   * the target bit flipped when both control bits are 1, else at i itself.
   */
  method MakeGeneralCCX(n: nat, c1: nat, c2: nat, target: nat) returns (u: Matrix)
    requires c1 < n && c2 < n && target < n
    ensures u == ToffoliMatrix(n, c1, c2, target)
  {
    var dim := Pow2(n);
    ghost var spec := ToffoliMatrix(n, c1, c2, target);
    var U := new real[dim, dim]((_, _) => 0.0);
    for i := 0 to dim
      invariant forall j, c :: 0 <= j < dim && 0 <= c < dim ==>
                  U[j, c] == if c < i then spec[j][c] else 0.0
    {
      var j := ToffoliColumnTarget(n, c1, c2, target, i);
      U[j, i] := 1.0;
    }
    RowsAgree(U, spec);
    u := Rows(U);
  }

  /** Every column of the CCX embedding holds exactly one 1, at the flip image, and 0 elsewhere. */
  lemma ToffoliColumnOne(n: nat, c1: nat, c2: nat, t: nat, i: nat)
    requires c1 < n && c2 < n && t < n && i < Pow2(n)
    ensures 0 <= FlipImage(n, c1, c2, t, i) < Pow2(n)
    ensures forall j :: 0 <= j < Pow2(n) ==>
              (ToffoliMatrix(n, c1, c2, t)[j][i] == 1.0 <==> j == FlipImage(n, c1, c2, t, i))
    ensures forall j :: 0 <= j < Pow2(n) && j != FlipImage(n, c1, c2, t, i) ==> ToffoliMatrix(n, c1, c2, t)[j][i] == 0.0
  {
    var u, f := ToffoliMatrix(n, c1, c2, t), FlipImage(n, c1, c2, t, i);
    if Bit(i, n, c1) == 1 && Bit(i, n, c2) == 1 {
      FlipImageBits(n, c1, c2, t, i);
    }
    forall j | 0 <= j < Pow2(n)
      ensures u[j][i] == if j == f then 1.0 else 0.0
    {
    }
  }

  /**
   * With the controls distinct from the target, flipping twice is the
   * identity, so the CCX matrix is its own inverse.
   */
  lemma FlipImageInvolution(n: nat, c1: nat, c2: nat, t: nat, i: nat)
    requires c1 < n && c2 < n && t < n && c1 != t && c2 != t && i < Pow2(n)
    ensures 0 <= FlipImage(n, c1, c2, t, i) < Pow2(n)
    ensures FlipImage(n, c1, c2, t, FlipImage(n, c1, c2, t, i)) == i
  {
    if Bit(i, n, c1) == 1 && Bit(i, n, c2) == 1 {
      FlipBack(n, c1, c2, t, i);
    }
  }

  lemma FlipBack(n: nat, c1: nat, c2: nat, t: nat, i: nat)
    requires c1 < n && c2 < n && t < n && c1 != t && c2 != t && i < Pow2(n)
    requires Bit(i, n, c1) == 1 && Bit(i, n, c2) == 1
    ensures 0 <= FlipImage(n, c1, c2, t, i) < Pow2(n)
    ensures FlipImage(n, c1, c2, t, FlipImage(n, c1, c2, t, i)) == i
  {
    var s := BitsOf(i, n);
    FlipImageBits(n, c1, c2, t, i);
    var j: nat := FlipImage(n, c1, c2, t, i);
    var sj := BitsOf(j, n);
    assert sj == s[t := 1 - s[t]];
    assert Bit(j, n, c1) == 1 && Bit(j, n, c2) == 1 && Bit(j, n, t) == 1 - s[t];
    FlipImageBits(n, c1, c2, t, j);
    var k: nat := FlipImage(n, c1, c2, t, j);
    assert BitsOf(k, n) == sj[t := s[t]];
    assert sj[t := s[t]] == s;
    BitsOfInjective(k, i, n);
  }

  /** Applying the CCX matrix twice to any state gives the state back. */
  lemma ToffoliSelfInverse(n: nat, c1: nat, c2: nat, t: nat, s: seq<real>)
    requires c1 < n && c2 < n && t < n && c1 != t && c2 != t && |s| == Pow2(n)
    ensures MatVecMul(ToffoliMatrix(n, c1, c2, t), MatVecMul(ToffoliMatrix(n, c1, c2, t), s)) == s
  {
    var u := ToffoliMatrix(n, c1, c2, t);
    var sigma: nat -> nat := (r: nat) => var f := FlipImage(n, c1, c2, t, r); if r < Pow2(n) && f >= 0 then f as nat else 0;
    forall r: nat | r < |s|
      ensures sigma(r) < |s| && sigma(sigma(r)) == r
    {
      FlipImageInvolution(n, c1, c2, t, r);
    }
    forall r, c | 0 <= r < |s| && 0 <= c < |s|
      ensures u[r][c] == if c == sigma(r) then 1.0 else 0.0
    {
      FlipImageInvolution(n, c1, c2, t, c);
      FlipImageInvolution(n, c1, c2, t, r);
    }
    var once := MatVecMul(u, s);
    MatVecPermutation(u, s, sigma);
    MatVecPermutation(u, once, sigma);
    var twice := MatVecMul(u, once);
    forall r | 0 <= r < |s|
      ensures twice[r] == s[r]
    {
      assert twice[r] == once[sigma(r)] == s[sigma(sigma(r))];
    }
  }

  /** The three bits of a three-qubit basis index. */
  lemma BitsOfThree(i: nat)
    requires i < 8
    ensures BitsOf(i, 3) == [i / 4, i / 2 % 2, i % 2]
  {
    var h := i / 2;
    assert h / 2 == i / 4 && h % 2 == i / 2 % 2 && h / 4 == 0;
    assert BitsOf(h / 2, 1) == [h / 2];
    assert BitsOf(h, 2) == [h / 2, h % 2];
  }

  /** On three qubits with controls 0 and 1 and target 2 only 110 and 111 trade places. */
  lemma FlipImageThree(i: nat)
    requires i < 8
    ensures FlipImage(3, 0, 1, 2, i) == if i == 6 then 7 else if i == 7 then 6 else i
  {
    BitsOfThree(i);
  }

  /** With n = 3, controls 0 and 1 and target 2 the CCX embedding is the constant CCX. */
  lemma ToffoliIsCCX()
    ensures ToffoliMatrix(3, 0, 1, 2) == CCX
  {
    var u := ToffoliMatrix(3, 0, 1, 2);
    forall j | 0 <= j < 8
      ensures u[j] == CCX[j]
    {
      forall i | 0 <= i < 8
        ensures u[j][i] == CCX[j][i]
      {
        FlipImageThree(i);
      }
    }
  }

  // ---------------------------------------------------------------------------
  // Tensor products of X and I gates.

  /**
   * The basis index that a tensor product of X and I gates sends i to, one
   * flag per qubit with the last flag for the last qubit: every flagged bit
   * is flipped, the others are kept.
   */
  function FlipMask(i: nat, flips: seq<bool>): (r: nat)
    ensures r < Pow2(|flips|)
  {
    if flips == [] then 0
    else
      var last := |flips| - 1;
      2 * FlipMask(i / 2, flips[..last]) + (if flips[last] then 1 - i % 2 else i % 2)
  }

  /** The image has the bit of every flagged qubit flipped and every other bit kept. */
  lemma {:induction false} FlipMaskBits(i: nat, flips: seq<bool>)
    ensures forall q :: 0 <= q < |flips| ==>
              Bit(FlipMask(i, flips), |flips|, q) == if flips[q] then 1 - Bit(i, |flips|, q) else Bit(i, |flips|, q)
  {
    if flips != [] {
      var n, last := |flips|, |flips| - 1;
      var init := flips[..last];
      FlipMaskBits(i / 2, init);
      var a := FlipMask(i / 2, init);
      var b := if flips[last] then 1 - i % 2 else i % 2;
      DivMulAdd(a, b);
      assert BitsOf(FlipMask(i, flips), n) == BitsOf(a, last) + [b];
      forall q | 0 <= q < n
        ensures Bit(FlipMask(i, flips), n, q) == if flips[q] then 1 - Bit(i, n, q) else Bit(i, n, q)
      {
        if q < last {
          assert Bit(FlipMask(i, flips), n, q) == Bit(a, last, q);
          assert Bit(i, n, q) == Bit(i / 2, last, q);
          assert init[q] == flips[q];
        }
      }
    }
  }

  /** Flipping the same qubits twice gives every in-range index back. */
  lemma {:induction false} FlipMaskInvolution(i: nat, flips: seq<bool>)
    requires i < Pow2(|flips|)
    ensures FlipMask(FlipMask(i, flips), flips) == i
  {
    if flips != [] {
      var last := |flips| - 1;
      var init := flips[..last];
      var a := FlipMask(i / 2, init);
      var b := if flips[last] then 1 - i % 2 else i % 2;
      DivMulAdd(a, b);
      FlipMaskInvolution(i / 2, init);
    }
  }

  /** One step of the fold: appending X or I to a flip permutation gives a flip permutation. */
  lemma KronFlipsStep(u: Matrix, g: Matrix, flips: seq<bool>, r: nat, c: nat)
    requires flips != [] && g == (if flips[|flips| - 1] then X else I)
    requires IsMatrix(u, Pow2(|flips| - 1), Pow2(|flips| - 1))
    requires forall r', c' :: 0 <= r' < Pow2(|flips| - 1) && 0 <= c' < Pow2(|flips| - 1) ==>
               u[r'][c'] == if r' == FlipMask(c', flips[..|flips| - 1]) then 1.0 else 0.0
    requires r < Pow2(|flips|) && c < Pow2(|flips|)
    ensures IsRect(u) && IsRect(g) && r < |u| * |g| && c < |u[0]| * |g[0]|
    ensures KronOf(u, g)[r][c] == if r == FlipMask(c, flips) then 1.0 else 0.0
  {
    var last := |flips| - 1;
    var a := FlipMask(c / 2, flips[..last]);
    var b := if flips[last] then 1 - c % 2 else c % 2;
    KronAt(u, g, r, c);
    FlipEntry(g, flips[last], r % 2, c % 2);
    assert u[r / 2][c / 2] == if r / 2 == a then 1.0 else 0.0;
    assert FlipMask(c, flips) == 2 * a + b;
    SplitLowBit(r, a, b);
  }

  /** Entry (x, y) of X or I: 1 exactly when x is y, flipped for X. */
  lemma FlipEntry(g: Matrix, flip: bool, x: nat, y: nat)
    requires g == (if flip then X else I) && x < 2 && y < 2
    ensures g[x][y] == if x == (if flip then 1 - y else y) then 1.0 else 0.0
  {
    if flip {
      assert g == X;
    } else {
      assert g == I;
    }
  }

  /** r is 2a + b exactly when a and b are r's quotient and remainder by 2. */
  lemma SplitLowBit(r: nat, a: nat, b: nat)
    requires b < 2
    ensures r == 2 * a + b <==> r / 2 == a && r % 2 == b
  {
    DivMulAdd(a, b);
  }

  /**
   * The tensor product of X on the flagged qubits and I elsewhere is the
   * permutation matrix of FlipMask: column c has its one 1 in row
   * FlipMask(c, flips).
   */
  lemma {:induction false} KronFlips(ms: seq<Matrix>, flips: seq<bool>)
    requires |ms| == |flips| && forall q :: 0 <= q < |ms| ==> ms[q] == if flips[q] then X else I
    ensures forall q :: 0 <= q < |ms| ==> IsMatrix(ms[q], 2, 2)
    ensures forall r, c :: 0 <= r < Pow2(|ms|) && 0 <= c < Pow2(|ms|) ==>
              KronAll(ms)[r][c] == if r == FlipMask(c, flips) then 1.0 else 0.0
  {
    if ms != [] {
      var last := |ms| - 1;
      KronFlips(ms[..last], flips[..last]);
      KronFlipsExtend(KronAll(ms[..last]), ms[last], flips);
      assert KronAll(ms) == KronOf(KronAll(ms[..last]), ms[last]);
    }
  }

  /** The inductive step of KronFlips, for every entry of the product. */
  lemma KronFlipsExtend(u: Matrix, g: Matrix, flips: seq<bool>)
    requires flips != [] && g == (if flips[|flips| - 1] then X else I)
    requires IsMatrix(u, Pow2(|flips| - 1), Pow2(|flips| - 1))
    requires forall r, c :: 0 <= r < Pow2(|flips| - 1) && 0 <= c < Pow2(|flips| - 1) ==>
               u[r][c] == if r == FlipMask(c, flips[..|flips| - 1]) then 1.0 else 0.0
    ensures IsMatrix(KronOf(u, g), Pow2(|flips|), Pow2(|flips|))
    ensures forall r, c :: 0 <= r < Pow2(|flips|) && 0 <= c < Pow2(|flips|) ==>
              KronOf(u, g)[r][c] == if r == FlipMask(c, flips) then 1.0 else 0.0
  {
    assert IsRect(g) && IsMatrix(g, 2, 2);
    var d := Pow2(|flips| - 1);
    assert |u| == d && |u[0]| == d && Pow2(|flips|) == d * 2;
    var k := KronOf(u, g);
    assert IsMatrix(k, d * 2, d * 2);
    forall r, c | 0 <= r < Pow2(|flips|) && 0 <= c < Pow2(|flips|)
      ensures k[r][c] == if r == FlipMask(c, flips) then 1.0 else 0.0
    {
      KronFlipsStep(u, g, flips, r, c);
    }
  }

  /** Applying a tensor product of X and I gates twice gives any state back. */
  lemma KronFlipsTwice(ms: seq<Matrix>, flips: seq<bool>, s: seq<real>)
    requires |ms| == |flips| && forall q :: 0 <= q < |ms| ==> ms[q] == if flips[q] then X else I
    requires |s| == Pow2(|ms|)
    ensures forall q :: 0 <= q < |ms| ==> IsMatrix(ms[q], 2, 2)
    ensures MatVecMul(KronAll(ms), MatVecMul(KronAll(ms), s)) == s
  {
    KronFlips(ms, flips);
    var u := KronAll(ms);
    var sigma: nat -> nat := (r: nat) => FlipMask(r, flips);
    forall r: nat | r < |s|
      ensures sigma(r) < |s| && sigma(sigma(r)) == r
    {
      FlipMaskInvolution(r, flips);
    }
    forall r, c | 0 <= r < |s| && 0 <= c < |s|
      ensures u[r][c] == if c == sigma(r) then 1.0 else 0.0
    {
      FlipMaskInvolution(c, flips);
      FlipMaskInvolution(r, flips);
    }
    var once := MatVecMul(u, s);
    MatVecPermutation(u, s, sigma);
    MatVecPermutation(u, once, sigma);
    var twice := MatVecMul(u, once);
    forall r | 0 <= r < |s|
      ensures twice[r] == s[r]
    {
      assert twice[r] == once[sigma(r)] == s[sigma(sigma(r))];
    }
  }
}
