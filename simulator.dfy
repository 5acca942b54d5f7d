/**
 * `simulateQuantumCircuit`: the circuit is a grid with one row per qubit and
 * one column per time slot. Column by column, the simulator collects the
 * gates of the column, builds one 2^n×2^n matrix for it and multiplies the
 * state vector by it; at the end every basis state's squared amplitude is
 * reported under its bit-string key.
 *
 * The column matrix is built in three steps, each modelled as written:
 * a first pass claims qubits for the multi-qubit descriptors, a second pass
 * adds one single-qubit op per unclaimed qubit, the ops are sorted by their
 * first position and folded with `kron`, except that the fold stops at the
 * first op that spans the whole register and uses that op's matrix alone.
 * The reference semantics this amounts to is `ColumnMatrix`: the first
 * descriptor of the column (lowest row) decides the matrix, and only a
 * column without descriptors is the tensor product of its single-qubit gates.
 */
module Simulator {
  import opened Bits
  import opened Matrices
  import opened Gates

  /** `circuitData[q][col]`: row q is qubit q; rows may be shorter than row 0. */
  type Circuit = seq<seq<Cell>>

  /** One entry of `gateOps`. */
  datatype GateOp = GateOp(mat: Matrix, positions: seq<int>)

  /** `circuitData[0]?.length || 0`: only row 0 fixes the number of columns. */
  function NumSlots(circuit: Circuit): (k: nat)
    ensures k > 0 ==> |circuit| > 0
    ensures |circuit| > 0 ==> k == |circuit[0]|
  {
    if |circuit| == 0 then 0 else |circuit[0]|
  }

  /** A cell past the end of its row reads as `undefined`, i.e. empty. */
  function CellAt(circuit: Circuit, q: nat, col: nat): (cell: Cell)
    requires q < |circuit|
    ensures col >= |circuit[q]| ==> cell == Empty
    ensures col < |circuit[q]| ==> cell == circuit[q][col]
  {
    if col < |circuit[q]| then circuit[q][col] else Empty
  }

  function Column(circuit: Circuit, col: nat): (cells: seq<Cell>)
    ensures |cells| == |circuit|
    ensures forall q :: 0 <= q < |circuit| ==> cells[q] == CellAt(circuit, q, col)
  {
    seq(|circuit|, q requires 0 <= q < |circuit| => CellAt(circuit, q, col))
  }

  predicate IsDescriptor(cell: Cell)
  {
    cell.Controlled? || cell.Toffoli?
  }

  /** The qubits a descriptor marks as used: control and target, or both controls and target. */
  function Claimed(cell: Cell): set<nat>
  {
    match cell
    case Controlled(_, c, t) => {c, t}
    case Toffoli(c1, c2, t) => {c1, c2, t}
    case _ => {}
  }

  predicate InRange(cell: Cell, n: nat)
  {
    forall x :: x in Claimed(cell) ==> x < n
  }

  predicate AllInRange(col: seq<Cell>, n: nat)
  {
    forall q :: 0 <= q < |col| ==> InRange(col[q], n)
  }

  /** Every descriptor in a column the simulator reads (before NumSlots) names qubits of the register. */
  predicate WellFormed(circuit: Circuit)
  {
    forall q, col :: 0 <= q < |circuit| && 0 <= col < NumSlots(circuit) && col < |circuit[q]| ==>
      InRange(circuit[q][col], |circuit|)
  }

  lemma ColumnInRange(circuit: Circuit, col: nat)
    requires WellFormed(circuit) && col < NumSlots(circuit)
    ensures AllInRange(Column(circuit, col), |circuit|)
  {
    var cells := Column(circuit, col);
    forall q | 0 <= q < |cells|
      ensures InRange(cells[q], |circuit|)
    {
      assert cells[q] == CellAt(circuit, q, col);
    }
  }

  /** The base gate a controlled descriptor applies: X, unless the type is CH or CZ. */
  function BaseOf(kind: ControlKind): (m: Matrix)
    ensures IsMatrix(m, 2, 2)
    ensures (m == X <==> kind == KindCX) && (m == H <==> kind == KindCH) && (m == Z <==> kind == KindCZ)
  {
    assert X[0][0] != H[0][0] && X[0][0] != Z[0][0] && H[0][1] != Z[0][1];
    match kind
    case KindCX => X
    case KindCH => H
    case KindCZ => Z
  }

  /** The whole-register matrix of a descriptor. */
  ghost function Kernel(cell: Cell, n: nat): (u: Matrix)
    requires IsDescriptor(cell) && InRange(cell, n)
    ensures IsMatrix(u, Pow2(n), Pow2(n))
  {
    assert forall x :: x in Claimed(cell) ==> x < n;
    if cell.Controlled? then
      assert cell.control in Claimed(cell) && cell.target in Claimed(cell);
      ControlledMatrix(n, cell.control, cell.target, BaseOf(cell.kind))
    else
      assert cell.c1 in Claimed(cell) && cell.c2 in Claimed(cell) && cell.target in Claimed(cell);
      ToffoliMatrix(n, cell.c1, cell.c2, cell.target)
  }

  /** `Array.from({length: n}, (_, i) => i)`. */
  function AllQubits(n: nat): (p: seq<int>)
    ensures |p| == n && forall i :: 0 <= i < n ==> p[i] == i
  {
    seq(n, i => i)
  }

  // ---------------------------------------------------------------------------
  // Collecting the ops of one column.

  /**
   * The first pass from row q on, with the qubits in `used` already claimed
   * and `acc` the ops pushed so far: a descriptor in an unclaimed row whose
   * qubits are all unclaimed pushes its matrix and claims its qubits.
   */
  ghost function Claim(col: seq<Cell>, n: nat, q: nat, used: set<nat>, acc: seq<GateOp>): (seq<GateOp>, set<nat>)
    requires q <= |col| && AllInRange(col, n)
    decreases |col| - q
  {
    if q == |col| then (acc, used)
    else if q !in used && IsDescriptor(col[q]) && Claimed(col[q]) !! used then
      Claim(col, n, q + 1, used + Claimed(col[q]), acc + [GateOp(Kernel(col[q], n), AllQubits(n))])
    else Claim(col, n, q + 1, used, acc)
  }

  /** The second pass over rows below k: one single-qubit op per unclaimed qubit. */
  function Singles(col: seq<Cell>, used: set<nat>, k: nat): seq<GateOp>
    requires k <= |col|
  {
    if k == 0 then []
    else
      var rest := Singles(col, used, k - 1);
      if k - 1 in used then rest else rest + [GateOp(GetGateMatrix(col[k - 1]), [k - 1])]
  }

  /** The ops of a column, before sorting. */
  ghost function BuildOps(col: seq<Cell>, n: nat): seq<GateOp>
    requires AllInRange(col, n)
  {
    var (multi, used) := Claim(col, n, 0, {}, []);
    multi + Singles(col, used, |col|)
  }

  /**
   * The two passes of one column: `used` starts all false; the first pass
   * skips claimed rows and pushes a descriptor whose qubits are all free,
   * the second pushes `getGateMatrix` of every row still free.
   */
  method CollectOps(circuit: Circuit, colIdx: nat) returns (ops: seq<GateOp>)
    requires WellFormed(circuit) && colIdx < NumSlots(circuit)
    ensures AllInRange(Column(circuit, colIdx), |circuit|)
    ensures ops == BuildOps(Column(circuit, colIdx), |circuit|)
  {
    var n := |circuit|;
    ghost var col := Column(circuit, colIdx);
    ColumnInRange(circuit, colIdx);
    var used := seq(n, _ => false);
    ghost var usedSet: set<nat> := {};
    ops := [];
    for q := 0 to n
      invariant |used| == n && forall x :: 0 <= x < n ==> used[x] == (x in usedSet)
      invariant Claim(col, n, q, usedSet, ops) == Claim(col, n, 0, {}, [])
    {
      used, usedSet, ops := ClaimRow(circuit, colIdx, q, used, usedSet, ops);
    }
    ghost var claimed := usedSet;
    ghost var multi := ops;
    assert Claim(col, n, 0, {}, []) == (multi, claimed);
    for q := 0 to n
      invariant |used| == n && forall x :: 0 <= x < n ==> used[x] == (x in claimed || x < q)
      invariant ops == multi + Singles(col, claimed, q)
    {
      if !used[q] {
        ops := ops + [GateOp(GetGateMatrix(CellAt(circuit, q, colIdx)), [q])];
        used := used[q := true];
      }
    }
  }

  /**
   * Row q of the first pass: a CX/CH/CZ or CCX descriptor in an unclaimed row
   * whose qubits are all unclaimed pushes its whole-register matrix and
   * claims those qubits; anything else changes nothing.
   */
  method ClaimRow(circuit: Circuit, colIdx: nat, q: nat, used: seq<bool>, ghost usedSet: set<nat>, ops: seq<GateOp>)
    returns (used': seq<bool>, ghost usedSet': set<nat>, ops': seq<GateOp>)
    requires WellFormed(circuit) && colIdx < NumSlots(circuit) && q < |circuit|
    requires |used| == |circuit| && forall x :: 0 <= x < |circuit| ==> used[x] == (x in usedSet)
    ensures AllInRange(Column(circuit, colIdx), |circuit|)
    ensures |used'| == |circuit| && forall x :: 0 <= x < |circuit| ==> used'[x] == (x in usedSet')
    ensures var cell := Column(circuit, colIdx)[q];
      var fire := q !in usedSet && IsDescriptor(cell) && Claimed(cell) !! usedSet;
      usedSet' == (if fire then usedSet + Claimed(cell) else usedSet) &&
      ops' == (if fire then ops + [GateOp(Kernel(cell, |circuit|), AllQubits(|circuit|))] else ops)
    ensures Claim(Column(circuit, colIdx), |circuit|, q + 1, usedSet', ops') ==
            Claim(Column(circuit, colIdx), |circuit|, q, usedSet, ops)
  {
    var n := |circuit|;
    ghost var col := Column(circuit, colIdx);
    ColumnInRange(circuit, colIdx);
    used', usedSet', ops' := used, usedSet, ops;
    if !used[q] {
      var cell := CellAt(circuit, q, colIdx);
      assert cell == col[q] && InRange(cell, n);
      match cell
      case Controlled(kind, ctrl, tgt) =>
        assert Claimed(cell) == {ctrl, tgt} && ctrl < n && tgt < n;
        assert (!used[ctrl] && !used[tgt]) == (Claimed(cell) !! usedSet);
        if !used[ctrl] && !used[tgt] {
          var u := MakeGeneralControlledGate(n, ctrl, tgt, BaseOf(kind));
          ops' := ops + [GateOp(u, AllQubits(n))];
          used' := used[ctrl := true][tgt := true];
          usedSet' := usedSet + Claimed(cell);
        }
      case Toffoli(c1, c2, tgt) =>
        assert Claimed(cell) == {c1, c2, tgt} && c1 < n && c2 < n && tgt < n;
        assert (!used[c1] && !used[c2] && !used[tgt]) == (Claimed(cell) !! usedSet);
        if !used[c1] && !used[c2] && !used[tgt] {
          var u := MakeGeneralCCX(n, c1, c2, tgt);
          ops' := ops + [GateOp(u, AllQubits(n))];
          used' := used[c1 := true][c2 := true][tgt := true];
          usedSet' := usedSet + Claimed(cell);
        }
      case _ =>
    }
  }

  // ---------------------------------------------------------------------------
  // `gateOps.sort((a, b) => a.positions[0] - b.positions[0])`, a stable sort.

  predicate HasKeys(ops: seq<GateOp>)
  {
    forall k :: 0 <= k < |ops| ==> |ops[k].positions| > 0
  }

  function Key(op: GateOp): int
    requires |op.positions| > 0
  {
    op.positions[0]
  }

  predicate SortedByKey(ops: seq<GateOp>)
    requires HasKeys(ops)
  {
    forall i, j :: 0 <= i < j < |ops| ==> Key(ops[i]) <= Key(ops[j])
  }

  /** Insert x after every element whose key is not greater than x's. */
  function Insert(x: GateOp, s: seq<GateOp>): (r: seq<GateOp>)
    requires |x.positions| > 0 && HasKeys(s)
    ensures HasKeys(r) && multiset(r) == multiset(s) + multiset{x}
  {
    if s == [] then [x]
    else
      var init, last := s[..|s| - 1], s[|s| - 1];
      assert s == init + [last];
      if Key(last) <= Key(x) then s + [x] else Insert(x, init) + [last]
  }

  function SortOps(s: seq<GateOp>): (r: seq<GateOp>)
    requires HasKeys(s)
    ensures HasKeys(r) && multiset(r) == multiset(s)
  {
    if s == [] then []
    else
      var init := s[..|s| - 1];
      assert s == init + [s[|s| - 1]];
      Insert(s[|s| - 1], SortOps(init))
  }

  lemma {:induction false} InsertSorted(x: GateOp, s: seq<GateOp>)
    requires |x.positions| > 0 && HasKeys(s) && SortedByKey(s)
    ensures SortedByKey(Insert(x, s))
  {
    if s != [] {
      var init, last := s[..|s| - 1], s[|s| - 1];
      assert s == init + [last];
      if Key(last) <= Key(x) {
        forall i | 0 <= i < |s|
          ensures Key(s[i]) <= Key(x)
        {
          assert Key(s[i]) <= Key(last);
        }
        SortedAppend(s, x);
      } else {
        InsertSorted(x, init);
        var r := Insert(x, init);
        forall i | 0 <= i < |r|
          ensures Key(r[i]) <= Key(last)
        {
          assert r[i] in multiset(r);
          assert r[i] in multiset(init) || r[i] == x;
        }
        SortedAppend(r, last);
      }
    }
  }

  /** Appending an op whose key bounds every key keeps the list sorted. */
  lemma SortedAppend(s: seq<GateOp>, x: GateOp)
    requires |x.positions| > 0 && HasKeys(s) && SortedByKey(s)
    requires forall i :: 0 <= i < |s| ==> Key(s[i]) <= Key(x)
    ensures HasKeys(s + [x]) && SortedByKey(s + [x])
  {
    var t := s + [x];
    forall i, j | 0 <= i < j < |t|
      ensures Key(t[i]) <= Key(t[j])
    {
      if j < |s| {
        assert t[i] == s[i] && t[j] == s[j];
      }
    }
  }

  /** The comparator sort returns its input ordered by first position and as a permutation. */
  lemma {:induction false} SortOpsSorted(s: seq<GateOp>)
    requires HasKeys(s)
    ensures SortedByKey(SortOps(s)) && multiset(SortOps(s)) == multiset(s)
  {
    if s != [] {
      SortOpsSorted(s[..|s| - 1]);
      InsertSorted(s[|s| - 1], SortOps(s[..|s| - 1]));
    }
  }

  /** A list already ordered by first position comes back unchanged (the sort is stable). */
  lemma {:induction false} SortOpsIdentity(s: seq<GateOp>)
    requires HasKeys(s) && SortedByKey(s)
    ensures SortOps(s) == s
  {
    if s != [] {
      var init, last := s[..|s| - 1], s[|s| - 1];
      assert s == init + [last];
      forall i, j | 0 <= i < j < |init|
        ensures Key(init[i]) <= Key(init[j])
      {
        assert init[i] == s[i] && init[j] == s[j];
      }
      SortOpsIdentity(init);
      if init != [] {
        assert init[|init| - 1] == s[|s| - 2];
      }
      assert Insert(last, init) == init + [last];
    }
  }

  // ---------------------------------------------------------------------------
  // Folding the sorted ops into one matrix.

  /**
   * The fold of `for (const op of gateOps)` from accumulator acc: an op
   * spanning n positions replaces the result and stops the fold; any other
   * op is appended with `kron`.
   */
  function AccumulateUnitary(ops: seq<GateOp>, n: nat, acc: Matrix): Matrix
    requires IsRect(acc) && forall k :: 0 <= k < |ops| ==> IsRect(ops[k].mat)
    decreases |ops|
  {
    if ops == [] then acc
    else if |ops[0].positions| == n then ops[0].mat
    else AccumulateUnitary(ops[1..], n, KronOf(acc, ops[0].mat))
  }

  /** The loop that builds `U` from `[[1]]`, with its `break`. */
  method ColumnUnitary(ops: seq<GateOp>, n: nat) returns (u: Matrix)
    requires forall k :: 0 <= k < |ops| ==> IsRect(ops[k].mat)
    ensures u == AccumulateUnitary(ops, n, [[1.0]])
  {
    u := [[1.0]];
    var k := 0;
    while k < |ops|
      invariant 0 <= k <= |ops| && IsRect(u)
      invariant AccumulateUnitary(ops[k..], n, u) == AccumulateUnitary(ops, n, [[1.0]])
    {
      if |ops[k].positions| == n {
        u := ops[k].mat;
        break;
      }
      assert ops[k..][1..] == ops[k + 1..];
      u := Kron(u, ops[k].mat);
      k := k + 1;
    }
  }

  // ---------------------------------------------------------------------------
  // The reference semantics of a column.

  /** The single-qubit matrices of a column, one per row. */
  function SingleMatrices(col: seq<Cell>): (ms: seq<Matrix>)
    ensures |ms| == |col| && forall q :: 0 <= q < |col| ==> ms[q] == GetGateMatrix(col[q])
    ensures forall q :: 0 <= q < |ms| ==> IsMatrix(ms[q], 2, 2)
  {
    seq(|col|, q requires 0 <= q < |col| => GetGateMatrix(col[q]))
  }

  /** The first descriptor at or after row q decides; with none, the tensor product of the rows. */
  ghost function ColumnFrom(col: seq<Cell>, n: nat, q: nat): (u: Matrix)
    requires |col| == n && q <= n && AllInRange(col, n)
    ensures IsMatrix(u, Pow2(n), Pow2(n))
    decreases n - q
  {
    if q == n then KronAll(SingleMatrices(col))
    else if IsDescriptor(col[q]) then Kernel(col[q], n)
    else ColumnFrom(col, n, q + 1)
  }

  ghost function ColumnMatrix(col: seq<Cell>, n: nat): (u: Matrix)
    requires |col| == n && AllInRange(col, n)
    ensures IsMatrix(u, Pow2(n), Pow2(n))
  {
    ColumnFrom(col, n, 0)
  }

  /** Rows before the first descriptor claim nothing. */
  lemma {:induction false} ClaimSkip(col: seq<Cell>, n: nat, q: nat)
    requires q <= |col| && AllInRange(col, n)
    requires forall k :: 0 <= k < q ==> !IsDescriptor(col[k])
    ensures Claim(col, n, 0, {}, []) == Claim(col, n, q, {}, [])
  {
    if q > 0 {
      ClaimSkip(col, n, q - 1);
    }
  }

  /** The first pass only appends to what was pushed before, and only whole-register ops. */
  lemma {:induction false} ClaimExtends(col: seq<Cell>, n: nat, q: nat, used: set<nat>, acc: seq<GateOp>)
    requires q <= |col| && AllInRange(col, n)
    ensures var r := Claim(col, n, q, used, acc).0;
      |acc| <= |r| && r[..|acc|] == acc &&
      forall k :: |acc| <= k < |r| ==> r[k].positions == AllQubits(n) && IsMatrix(r[k].mat, Pow2(n), Pow2(n))
    decreases |col| - q
  {
    if q < |col| {
      if q !in used && IsDescriptor(col[q]) && Claimed(col[q]) !! used {
        var acc' := acc + [GateOp(Kernel(col[q], n), AllQubits(n))];
        ClaimExtends(col, n, q + 1, used + Claimed(col[q]), acc');
        var r := Claim(col, n, q, used, acc).0;
        assert r[..|acc'|][..|acc|] == r[..|acc|];
      } else {
        ClaimExtends(col, n, q + 1, used, acc);
      }
    }
  }

  /**
   * The first pass never releases a claim and claims only qubits of the
   * register; when it pushes any op, the qubits of some descriptor of the
   * remaining rows are all claimed at the end.
   */
  lemma {:induction false} ClaimMonotone(col: seq<Cell>, n: nat, q: nat, used: set<nat>, acc: seq<GateOp>)
    requires q <= |col| && AllInRange(col, n)
    ensures used <= Claim(col, n, q, used, acc).1
    ensures forall x :: x in Claim(col, n, q, used, acc).1 ==> x in used || x < n
    ensures |Claim(col, n, q, used, acc).0| > |acc| ==>
              exists k :: q <= k < |col| && IsDescriptor(col[k]) && Claimed(col[k]) <= Claim(col, n, q, used, acc).1
    decreases |col| - q
  {
    if q < |col| {
      if q !in used && IsDescriptor(col[q]) && Claimed(col[q]) !! used {
        assert InRange(col[q], n);
        var used' := used + Claimed(col[q]);
        ClaimMonotone(col, n, q + 1, used', acc + [GateOp(Kernel(col[q], n), AllQubits(n))]);
        assert Claimed(col[q]) <= Claim(col, n, q, used, acc).1;
      } else {
        ClaimMonotone(col, n, q + 1, used, acc);
      }
    }
  }

  /** With no descriptor from row q on, the first pass claims nothing more. */
  lemma {:induction false} ClaimNone(col: seq<Cell>, n: nat, q: nat, used: set<nat>, acc: seq<GateOp>)
    requires q <= |col| && AllInRange(col, n)
    requires forall k :: q <= k < |col| ==> !IsDescriptor(col[k])
    ensures Claim(col, n, q, used, acc) == (acc, used)
    decreases |col| - q
  {
    if q < |col| {
      ClaimNone(col, n, q + 1, used, acc);
    }
  }

  /** The second pass yields single-position ops in increasing row order, each below k. */
  lemma {:induction false} SinglesShape(col: seq<Cell>, used: set<nat>, k: nat)
    requires k <= |col|
    ensures var s := Singles(col, used, k);
      HasKeys(s) &&
      (forall i :: 0 <= i < |s| ==> |s[i].positions| == 1 && 0 <= Key(s[i]) < k && IsMatrix(s[i].mat, 2, 2)) &&
      (forall i, j :: 0 <= i < j < |s| ==> Key(s[i]) < Key(s[j]))
  {
    if k > 0 {
      SinglesShape(col, used, k - 1);
    }
  }

  /** With nothing claimed the second pass gives one op per row, in row order. */
  lemma {:induction false} SinglesAll(col: seq<Cell>, k: nat)
    requires k <= |col|
    ensures Singles(col, {}, k) == seq(k, q requires 0 <= q < k => GateOp(GetGateMatrix(col[q]), [q]))
  {
    if k > 0 {
      SinglesAll(col, k - 1);
      var prev := seq(k - 1, q requires 0 <= q < k - 1 => GateOp(GetGateMatrix(col[q]), [q]));
      var cur := seq(k, q requires 0 <= q < k => GateOp(GetGateMatrix(col[q]), [q]));
      assert cur == prev + [GateOp(GetGateMatrix(col[k - 1]), [k - 1])];
    }
  }

  /**
   * After the second pass every qubit below k is claimed exactly once: a
   * qubit left free by the first pass gets its own single-qubit op, and no
   * single-qubit op lands on a qubit the first pass claimed.
   */
  lemma {:induction false} SinglesCover(col: seq<Cell>, used: set<nat>, k: nat)
    requires k <= |col|
    ensures forall op :: op in Singles(col, used, k) ==>
              |op.positions| == 1 && 0 <= op.positions[0] < k && op.positions[0] !in used
    ensures forall q :: 0 <= q < k ==>
              (q !in used <==> GateOp(GetGateMatrix(col[q]), [q]) in Singles(col, used, k))
  {
    if k > 0 {
      SinglesCover(col, used, k - 1);
      var rest := Singles(col, used, k - 1);
      if k - 1 !in used {
        var op := GateOp(GetGateMatrix(col[k - 1]), [k - 1]);
        assert Singles(col, used, k) == rest + [op];
        forall q | 0 <= q < k - 1
          ensures GateOp(GetGateMatrix(col[q]), [q]) in rest + [op] <==> GateOp(GetGateMatrix(col[q]), [q]) in rest
        {
          assert GateOp(GetGateMatrix(col[q]), [q]) != op;
        }
      }
    }
  }

  /** The collected ops are already ordered by first position: whole-register ops first, at 0. */
  lemma BuildOpsSorted(col: seq<Cell>, n: nat)
    requires |col| == n && AllInRange(col, n)
    ensures HasKeys(BuildOps(col, n)) && SortedByKey(BuildOps(col, n))
    ensures forall k :: 0 <= k < |BuildOps(col, n)| ==> IsRect(BuildOps(col, n)[k].mat)
    ensures |Claim(col, n, 0, {}, []).0| <= |BuildOps(col, n)|
    ensures forall k :: 0 <= k < |Claim(col, n, 0, {}, []).0| ==> BuildOps(col, n)[k].positions == AllQubits(n)
  {
    var (multi, used) := Claim(col, n, 0, {}, []);
    ClaimExtends(col, n, 0, {}, []);
    SinglesShape(col, used, n);
    var singles := Singles(col, used, n);
    var ops := BuildOps(col, n);
    assert ops == multi + singles;
    if |multi| > 0 {
      assert n > 0 by {
        assert |multi[0].positions| == n;
        if n == 0 {
          ClaimNoneWhenEmpty(col, n);
        }
      }
    }
    forall i | 0 <= i < |ops|
      ensures |ops[i].positions| > 0 && IsRect(ops[i].mat)
      ensures i < |multi| ==> ops[i].positions == AllQubits(n) && Key(ops[i]) == 0
      ensures i >= |multi| ==> Key(ops[i]) >= 0
    {
      if i >= |multi| {
        assert ops[i] == singles[i - |multi|];
      }
    }
  }

  /** An empty register has no column cells, so the first pass pushes nothing. */
  lemma ClaimNoneWhenEmpty(col: seq<Cell>, n: nat)
    requires |col| == n && n == 0 && AllInRange(col, n)
    ensures Claim(col, n, 0, {}, []).0 == []
  {
  }

  /** Folding the single-qubit ops of rows k.. onto the product of rows ..k gives the product of all rows. */
  lemma {:induction false} AccumulateSingles(ops: seq<GateOp>, ms: seq<Matrix>, n: nat, k: nat)
    requires n >= 2 && |ops| == n && |ms| == n && k <= n
    requires forall q :: 0 <= q < n ==> IsMatrix(ms[q], 2, 2) && ops[q] == GateOp(ms[q], [q])
    ensures forall q :: 0 <= q < k ==> IsMatrix(ms[..k][q], 2, 2)
    ensures forall j :: 0 <= j < |ops[k..]| ==> IsRect(ops[k..][j].mat)
    ensures AccumulateUnitary(ops[k..], n, KronAll(ms[..k])) == KronAll(ms)
    decreases n - k
  {
    assert forall q :: 0 <= q < k ==> ms[..k][q] == ms[q];
    assert forall j :: 0 <= j < |ops[k..]| ==> ops[k..][j] == ops[k + j];
    if k == n {
      assert ms[..k] == ms;
    } else {
      assert ops[k..][0] == ops[k] && ops[k..][1..] == ops[k + 1..];
      assert ms[..k + 1][..k] == ms[..k];
      AccumulateSingles(ops, ms, n, k + 1);
    }
  }

  /** Folding one single-qubit op per row, in row order, gives the product of the rows' matrices. */
  lemma AccumulateRows(ops: seq<GateOp>, ms: seq<Matrix>, n: nat)
    requires |ops| == n && |ms| == n
    requires forall q :: 0 <= q < n ==> IsMatrix(ms[q], 2, 2) && ops[q] == GateOp(ms[q], [q])
    ensures forall k :: 0 <= k < n ==> IsRect(ops[k].mat)
    ensures AccumulateUnitary(ops, n, [[1.0]]) == KronAll(ms)
  {
    if n == 1 {
      assert ms == [ms[0]] && ms[..0] == [];
      KronUnitLeft(ms[0]);
    } else if n >= 2 {
      AccumulateSingles(ops, ms, n, 0);
      assert ops[0..] == ops && ms[..0] == [];
    }
  }

  /** Without descriptors the fold is the product of every row's single-qubit matrix, in row order. */
  lemma NoDescriptorColumn(col: seq<Cell>, n: nat)
    requires |col| == n && AllInRange(col, n)
    requires forall k :: 0 <= k < n ==> !IsDescriptor(col[k])
    ensures forall k :: 0 <= k < |BuildOps(col, n)| ==> IsRect(BuildOps(col, n)[k].mat)
    ensures AccumulateUnitary(BuildOps(col, n), n, [[1.0]]) == KronAll(SingleMatrices(col))
  {
    BuildOpsNoDescriptor(col, n);
    var ops := BuildOps(col, n);
    var ms := SingleMatrices(col);
    assert forall k :: 0 <= k < n ==> ops[k] == GateOp(ms[k], [k]);
    AccumulateRows(ops, ms, n);
  }

  /** Without descriptors every row gets its own single-qubit op, in row order. */
  lemma BuildOpsNoDescriptor(col: seq<Cell>, n: nat)
    requires |col| == n && AllInRange(col, n)
    requires forall k :: 0 <= k < n ==> !IsDescriptor(col[k])
    ensures BuildOps(col, n) == seq(n, q requires 0 <= q < n => GateOp(GetGateMatrix(col[q]), [q]))
  {
    ClaimNone(col, n, 0, {}, []);
    SinglesAll(col, n);
    assert BuildOps(col, n) == [] + Singles(col, {}, n);
  }

  /** When row f holds the first descriptor, the fold stops at its whole-register op. */
  lemma DescriptorColumn(col: seq<Cell>, n: nat, f: nat)
    requires |col| == n && AllInRange(col, n) && f < n && IsDescriptor(col[f])
    requires forall k :: 0 <= k < f ==> !IsDescriptor(col[k])
    ensures forall k :: 0 <= k < |BuildOps(col, n)| ==> IsRect(BuildOps(col, n)[k].mat)
    ensures AccumulateUnitary(BuildOps(col, n), n, [[1.0]]) == Kernel(col[f], n)
  {
    BuildOpsSorted(col, n);
    FirstOpIsKernel(col, n, f);
  }

  /** The first descriptor's whole-register op is the first op collected. */
  lemma FirstOpIsKernel(col: seq<Cell>, n: nat, f: nat)
    requires |col| == n && AllInRange(col, n) && f < n && IsDescriptor(col[f])
    requires forall k :: 0 <= k < f ==> !IsDescriptor(col[k])
    ensures |BuildOps(col, n)| > 0 && BuildOps(col, n)[0] == GateOp(Kernel(col[f], n), AllQubits(n))
  {
    ClaimSkip(col, n, f);
    var op := GateOp(Kernel(col[f], n), AllQubits(n));
    assert Claimed(col[f]) !! {};
    assert Claim(col, n, f, {}, []) == Claim(col, n, f + 1, {} + Claimed(col[f]), [] + [op]);
    ClaimExtends(col, n, f + 1, {} + Claimed(col[f]), [] + [op]);
    var multi := Claim(col, n, 0, {}, []).0;
    assert multi[..1] == [op];
    assert BuildOps(col, n)[0] == multi[0];
  }

  /**
   * The column matrix the simulator builds (sort, then fold) is the
   * reference one, given that rows before q hold no descriptor.
   */
  lemma {:induction false} ColumnUnitaryFrom(col: seq<Cell>, n: nat, q: nat)
    requires |col| == n && q <= n && AllInRange(col, n)
    requires forall k :: 0 <= k < q ==> !IsDescriptor(col[k])
    ensures forall k :: 0 <= k < |BuildOps(col, n)| ==> IsRect(BuildOps(col, n)[k].mat)
    ensures AccumulateUnitary(BuildOps(col, n), n, [[1.0]]) == ColumnFrom(col, n, q)
    decreases n - q
  {
    if q == n {
      NoDescriptorColumn(col, n);
    } else if IsDescriptor(col[q]) {
      DescriptorColumn(col, n, q);
    } else {
      ColumnUnitaryFrom(col, n, q + 1);
    }
  }

  /** The matrix applied for a column: the first descriptor's matrix, or the product of the rows. */
  lemma ColumnUnitaryCorrect(col: seq<Cell>, n: nat)
    requires |col| == n && AllInRange(col, n)
    ensures HasKeys(BuildOps(col, n))
    ensures forall k :: 0 <= k < |SortOps(BuildOps(col, n))| ==> IsRect(SortOps(BuildOps(col, n))[k].mat)
    ensures AccumulateUnitary(SortOps(BuildOps(col, n)), n, [[1.0]]) == ColumnMatrix(col, n)
  {
    BuildOpsSorted(col, n);
    SortOpsIdentity(BuildOps(col, n));
    ColumnUnitaryFrom(col, n, 0);
  }

  /** Everything after the first descriptor of a column, gates and descriptors alike, is ignored. */
  lemma LaterCellsIgnored(col: seq<Cell>, n: nat, f: nat, q: nat, cell: Cell)
    requires |col| == n && AllInRange(col, n) && InRange(cell, n)
    requires f < q < n && IsDescriptor(col[f])
    requires forall k :: 0 <= k < f ==> !IsDescriptor(col[k])
    ensures AllInRange(col[q := cell], n)
    ensures ColumnMatrix(col[q := cell], n) == ColumnMatrix(col, n) == Kernel(col[f], n)
  {
    var col' := col[q := cell];
    FirstDescriptorDecides(col, n, f, 0);
    FirstDescriptorDecides(col', n, f, 0);
  }

  lemma {:induction false} FirstDescriptorDecides(col: seq<Cell>, n: nat, f: nat, q: nat)
    requires |col| == n && AllInRange(col, n) && q <= f < n && IsDescriptor(col[f])
    requires forall k :: q <= k < f ==> !IsDescriptor(col[k])
    ensures ColumnFrom(col, n, q) == Kernel(col[f], n)
    decreases f - q
  {
    if q < f {
      FirstDescriptorDecides(col, n, f, q + 1);
    }
  }

  // ---------------------------------------------------------------------------
  // The state vector and the probability map.

  /** A cell that acts as the identity on its own: no descriptor and no X, H or Z tag. */
  predicate Idle(cell: Cell)
  {
    !IsDescriptor(cell) && cell !in {Tag("X"), Tag("H"), Tag("Z")}
  }

  /** With no descriptor from row q on, the column is the tensor product of its rows. */
  lemma {:induction false} NoDescriptorFrom(col: seq<Cell>, n: nat, q: nat)
    requires |col| == n && q <= n && AllInRange(col, n)
    requires forall k :: q <= k < n ==> !IsDescriptor(col[k])
    ensures ColumnFrom(col, n, q) == KronAll(SingleMatrices(col))
    decreases n - q
  {
    if q < n {
      NoDescriptorFrom(col, n, q + 1);
    }
  }

  /** A column of idle cells is the identity on the whole register. */
  lemma IdleColumn(col: seq<Cell>, n: nat)
    requires |col| == n && forall q :: 0 <= q < n ==> Idle(col[q])
    ensures AllInRange(col, n) && ColumnMatrix(col, n) == Identity(Pow2(n))
  {
    assert forall q :: 0 <= q < n ==> Claimed(col[q]) == {};
    NoDescriptorFrom(col, n, 0);
    IIsIdentity();
    assert SingleMatrices(col) == seq(n, _ => Identity(2));
    KronAllIdentities(n);
  }

  /** Which rows of a column hold an X tag. */
  function XRows(col: seq<Cell>): (flips: seq<bool>)
    ensures |flips| == |col| && forall q :: 0 <= q < |col| ==> (flips[q] <==> col[q] == Tag("X"))
  {
    seq(|col|, q requires 0 <= q < |col| => col[q] == Tag("X"))
  }

  /** A cell that is X or idle: no descriptor and no H or Z tag. */
  predicate FlipOrIdle(cell: Cell)
  {
    !IsDescriptor(cell) && cell != Tag("H") && cell != Tag("Z")
  }

  /**
   * A column of X and idle cells is the permutation matrix that flips the
   * bits of exactly the X rows: entry (r, c) is 1 when r is c with those bits
   * flipped, and 0 otherwise.
   */
  lemma FlipColumn(col: seq<Cell>, n: nat)
    requires |col| == n && forall q :: 0 <= q < n ==> FlipOrIdle(col[q])
    ensures AllInRange(col, n)
    ensures forall r, c :: 0 <= r < Pow2(n) && 0 <= c < Pow2(n) ==>
              ColumnMatrix(col, n)[r][c] == if r == FlipMask(c, XRows(col)) then 1.0 else 0.0
  {
    assert forall q :: 0 <= q < n ==> Claimed(col[q]) == {};
    NoDescriptorFrom(col, n, 0);
    FlipRowMatrices(col);
    KronFlips(SingleMatrices(col), XRows(col));
  }

  /** Each row of such a column contributes X where it holds an X tag and I elsewhere. */
  lemma FlipRowMatrices(col: seq<Cell>)
    requires forall q :: 0 <= q < |col| ==> FlipOrIdle(col[q])
    ensures forall q :: 0 <= q < |col| ==> SingleMatrices(col)[q] == if XRows(col)[q] then X else I
  {
    forall q | 0 <= q < |col|
      ensures SingleMatrices(col)[q] == if XRows(col)[q] then X else I
    {
      if col[q] != Tag("X") {
        assert col[q] !in {Tag("X"), Tag("H"), Tag("Z")};
      }
    }
  }

  /** Applying a column of X and idle cells twice gives any state back. */
  lemma FlipColumnTwice(col: seq<Cell>, n: nat, s: seq<real>)
    requires |col| == n && forall q :: 0 <= q < n ==> FlipOrIdle(col[q])
    requires |s| == Pow2(n)
    ensures AllInRange(col, n)
    ensures MatVecMul(ColumnMatrix(col, n), MatVecMul(ColumnMatrix(col, n), s)) == s
  {
    assert forall q :: 0 <= q < n ==> Claimed(col[q]) == {};
    NoDescriptorFrom(col, n, 0);
    FlipRowMatrices(col);
    KronFlipsTwice(SingleMatrices(col), XRows(col), s);
  }

  /** Columns of idle cells leave the initial state where it is. */
  lemma {:induction false} IdleEvolve(circuit: Circuit, k: nat)
    requires WellFormed(circuit) && k <= NumSlots(circuit)
    requires forall q, c :: 0 <= q < |circuit| && 0 <= c < |circuit[q]| ==> Idle(circuit[q][c])
    ensures Evolve(circuit, k) == ZeroState(|circuit|)
  {
    if k > 0 {
      IdleEvolve(circuit, k - 1);
      var col := Column(circuit, k - 1);
      assert forall q :: 0 <= q < |circuit| ==> Idle(col[q]);
      IdleColumn(col, |circuit|);
      MatVecIdentity(ZeroState(|circuit|));
    }
  }

  /** A circuit of idle cells ends in the all-zeros basis state. */
  lemma IdleCircuit(circuit: Circuit)
    requires WellFormed(circuit)
    requires forall q, c :: 0 <= q < |circuit| && 0 <= c < |circuit[q]| ==> Idle(circuit[q][c])
    ensures FinalState(circuit) == ZeroState(|circuit|)
  {
    IdleEvolve(circuit, NumSlots(circuit));
  }

  /**
   * A column whose first descriptor is a CX or a CZ, or a CCX, on qubits
   * distinct from its target undoes itself: applying the column twice gives
   * any state back.
   */
  lemma ColumnTwiceRestores(col: seq<Cell>, n: nat, f: nat, s: seq<real>)
    requires |col| == n && AllInRange(col, n) && f < n && |s| == Pow2(n)
    requires forall k :: 0 <= k < f ==> !IsDescriptor(col[k])
    requires (col[f].Controlled? && col[f].kind != KindCH && col[f].control != col[f].target) ||
             (col[f].Toffoli? && col[f].c1 != col[f].target && col[f].c2 != col[f].target)
    ensures MatVecMul(ColumnMatrix(col, n), MatVecMul(ColumnMatrix(col, n), s)) == s
  {
    FirstDescriptorDecides(col, n, f, 0);
    var cell := col[f];
    assert InRange(cell, n);
    if cell.Controlled? {
      assert cell.control in Claimed(cell) && cell.target in Claimed(cell);
      XAndZSquareToIdentity();
      ControlledTwice(n, cell.control, cell.target, BaseOf(cell.kind), s);
    } else {
      assert cell.c1 in Claimed(cell) && cell.c2 in Claimed(cell) && cell.target in Claimed(cell);
      ToffoliSelfInverse(n, cell.c1, cell.c2, cell.target, s);
    }
  }

  /** `getInitialState(n)`: all amplitude on basis state 0. */
  method InitialState(n: nat) returns (state: seq<real>)
    ensures |state| == Pow2(n) && state[0] == 1.0
    ensures forall i :: 0 < i < |state| ==> state[i] == 0.0
  {
    var a := new real[Pow2(n)](_ => 0.0);
    a[0] := 1.0;
    state := a[..];
  }

  /** The basis state with index 0, |00…0⟩. */
  function ZeroState(n: nat): (s: seq<real>)
    ensures |s| == Pow2(n)
  {
    seq(Pow2(n), i => if i == 0 then 1.0 else 0.0)
  }

  /** The state after the first k columns. */
  ghost function Evolve(circuit: Circuit, k: nat): (s: seq<real>)
    requires WellFormed(circuit) && k <= NumSlots(circuit)
    ensures |s| == Pow2(|circuit|)
  {
    if k == 0 then ZeroState(|circuit|)
    else
      ColumnInRange(circuit, k - 1);
      MatVecMul(ColumnMatrix(Column(circuit, k - 1), |circuit|), Evolve(circuit, k - 1))
  }

  ghost function FinalState(circuit: Circuit): (s: seq<real>)
    requires WellFormed(circuit)
    ensures |s| == Pow2(|circuit|)
  {
    Evolve(circuit, NumSlots(circuit))
  }

  /**
   * The probability map reports the state: every basis index i is present
   * under its bit-string key with value state[i]², every key is some index's
   * key, and every value is non-negative.
   */
  ghost predicate Reports(probs: map<string, real>, state: seq<real>, n: nat)
  {
    ReportsUpTo(probs, state, n, |state|)
  }

  /** `Reports` for the indices below m. */
  ghost predicate ReportsUpTo(probs: map<string, real>, state: seq<real>, n: nat, m: nat)
    requires m <= |state|
  {
    HasEntries(probs, state, n, m) && OnlyEntries(probs, state, n, m)
  }

  ghost predicate HasEntries(probs: map<string, real>, state: seq<real>, n: nat, m: nat)
    requires m <= |state|
  {
    forall i :: 0 <= i < m ==>
      IndexToBitString(i, n) in probs && probs[IndexToBitString(i, n)] == state[i] * state[i]
  }

  ghost predicate OnlyEntries(probs: map<string, real>, state: seq<real>, n: nat, m: nat)
    requires m <= |state|
  {
    forall key :: key in probs ==>
      (exists i :: 0 <= i < m && key == IndexToBitString(i, n)) && probs[key] >= 0.0
  }

  /** The key of index i is not the key of any earlier index. */
  lemma NewKey(n: nat, i: nat)
    ensures forall k :: 0 <= k < i ==> IndexToBitString(k, n) != IndexToBitString(i, n)
  {
    forall k | 0 <= k < i
      ensures IndexToBitString(k, n) != IndexToBitString(i, n)
    {
      IndexToBitStringParses(k, n);
      IndexToBitStringParses(i, n);
    }
  }

  lemma HasEntriesStep(probs: map<string, real>, state: seq<real>, n: nat, i: nat)
    requires i < |state| && HasEntries(probs, state, n, i)
    ensures HasEntries(probs[IndexToBitString(i, n) := state[i] * state[i]], state, n, i + 1)
  {
    NewKey(n, i);
  }

  lemma OnlyEntriesStep(probs: map<string, real>, state: seq<real>, n: nat, i: nat)
    requires i < |state| && OnlyEntries(probs, state, n, i)
    ensures OnlyEntries(probs[IndexToBitString(i, n) := state[i] * state[i]], state, n, i + 1)
  {
    var key := IndexToBitString(i, n);
    var probs' := probs[key := state[i] * state[i]];
    forall key' | key' in probs'
      ensures (exists k :: 0 <= k < i + 1 && key' == IndexToBitString(k, n)) && probs'[key'] >= 0.0
    {
      if key' != key {
        var k :| 0 <= k < i && key' == IndexToBitString(k, n);
        assert key' == IndexToBitString(k, n);
      }
    }
  }

  /**
   * The simulator: evolve the state column by column, then key each basis
   * state's squared magnitude by its bit string.
   */
  method Simulate(circuit: Circuit) returns (probs: map<string, real>)
    requires WellFormed(circuit)
    ensures Reports(probs, FinalState(circuit), |circuit|)
  {
    var n := |circuit|;
    var numSlots := NumSlots(circuit);
    var state := InitialState(n);
    assert state == ZeroState(n);
    for col := 0 to numSlots
      invariant state == Evolve(circuit, col)
    {
      state := ApplyColumn(circuit, col, state);
    }
    assert state == FinalState(circuit);
    probs := ProbabilityMap(state, n);
  }

  /**
   * One step of the column loop: collect the column's operators, sort them
   * by first qubit, fold them into U and multiply the state by U.
   */
  method ApplyColumn(circuit: Circuit, col: nat, state: seq<real>) returns (next: seq<real>)
    requires WellFormed(circuit) && col < NumSlots(circuit) && |state| == Pow2(|circuit|)
    ensures AllInRange(Column(circuit, col), |circuit|)
    ensures next == MatVecMul(ColumnMatrix(Column(circuit, col), |circuit|), state)
  {
    var n := |circuit|;
    var ops := CollectOps(circuit, col);
    ColumnUnitaryCorrect(Column(circuit, col), n);
    var sorted := SortOps(ops);
    var u := ColumnUnitary(sorted, n);
    next := MatVecMul(u, state);
  }

  /**
   * The closing loop of the simulator: basis index i is keyed by
   * `indexToBitString(i, n)` and mapped to `Math.pow(Math.abs(state[i]), 2)`,
   * which on reals is state[i]·state[i]. Distinct indices have distinct keys,
   * so no entry overwrites another.
   */
  method ProbabilityMap(state: seq<real>, n: nat) returns (probs: map<string, real>)
    ensures Reports(probs, state, n)
  {
    probs := map[];
    for i := 0 to |state|
      invariant ReportsUpTo(probs, state, n, i)
    {
      HasEntriesStep(probs, state, n, i);
      OnlyEntriesStep(probs, state, n, i);
      probs := probs[IndexToBitString(i, n) := state[i] * state[i]];
    }
  }
}
