# Quantum circuit simulator — verified model of the state-vector engine

This project models the engine of `utils/quantumSimulator.ts`. The engine
takes a grid of gate cells, one row per qubit and one column per time step.
It evolves the n-qubit state vector column by column and returns a map from
each basis state's bit string to its squared amplitude.

The model has four modules, one per layer of the engine:

- `bits.dfy` (`Bits`) covers basis-state encoding.
  - A basis index is decoded into n bits, most significant first, so qubit 0
    is the leftmost character of a key.
  - Decoding and encoding use division and modulo.
  - `indexToBitString` (`toString(2)` followed by `padStart`) and
    `parseInt(…, 2)` are modelled as string functions.
  - Lemmas tie the string functions to the arithmetic form.
- `matrices.dfy` (`Matrices`) covers dense real matrices.
  - `kron` is an imperative fill of a two-dimensional array, proved equal to
    a reference function.
  - `matVecMul` is the row-by-row left-to-right dot product.
  - The module also holds the facts about identities and permutation
    matrices that the gate lemmas use.
- `gates.dfy` (`Gates`) covers the constant gates and the gate lookup.
  - It holds the constants `I`, `X`, `H`, `Z`, `CX`, `CH`, `CZ` and `CCX`,
    and the cell datatype.
  - It models `getGateMatrix`.
  - `makeGeneralControlledGate` and `makeGeneralCCX` are modelled as loops
    that fill an array. Each is proved equal to a reference matrix defined by
    bit arithmetic, and that matrix is characterised column by column.
- `simulator.dfy` (`Simulator`) covers `simulateQuantumCircuit`.
  - It models the two claim passes over a column's `used` flags, the sort
    by first position, and the fold of the ops into the column unitary, with
    its early `break`.
  - It models the column loop and the probability map.
  - The column unitary that the code builds is proved equal to a reference
    semantics. In that reference, the first multi-qubit descriptor in row
    order decides the whole column. A column with no descriptor is the
    Kronecker product of its per-row matrices.

Matrices are `seq<seq<real>>`. The matrices that `kron` and the two
embeddings allocate and fill are local `array2<real>` buffers, read back as
sequences at the end. The initial state is a one-dimensional `array<real>`.
The `used` flags and the `gateOps` list are sequences, `seq<bool>` and
`seq<GateOp>`, that the methods reassign.
Amplitudes are real numbers, so floating-point rounding is not modelled.

With no qubits, the code keys index 0 with `(0).toString(2).padStart(0, '0')`,
which is `"0"` and not the empty string. The model follows the code
(`Bits.EmptyRegisterKey`).

## Model

| member | source | states |
|---|---|---|
| Bits.BitsOf | utils/quantumSimulator.ts:134 | `i.toString(2).padStart(n, '0').split('').map(Number)` in arithmetic form: exactly n binary digits. FromBitsOf and BitValue characterise it. |
| Bits.FromBits | utils/quantumSimulator.ts:142 | `parseInt(bits.join(''), 2)`: k binary digits give a value below 2^k. BitsOfFromBits and ParseNumeral characterise it. |
| Bits.FromBitsOf | utils/quantumSimulator.ts:134-142 | Re-encoding the decoded bits of an index below 2^n gives the index back. |
| Bits.BitsOfFromBits | utils/quantumSimulator.ts:142 | Every bit sequence encodes to an index below 2^length, and that index decodes to the same sequence. |
| Bits.BitsOfInjective | utils/quantumSimulator.ts:134 | Distinct indices below 2^n have distinct bit expansions. |
| Bits.SetBit | utils/quantumSimulator.ts:141-142 | Setting the bit of qubit t to k moves the index by +2^(n-1-t), by -2^(n-1-t) or not at all. The result stays below 2^n and decodes to the updated bits. |
| Bits.FlipBit | utils/quantumSimulator.ts:160-161 | Flipping the target bit moves the index up or down by the target's weight, stays in range, and decodes to the flipped bits. |
| Bits.BitValue | utils/quantumSimulator.ts:134 | Qubit q's bit is the base-2 digit of weight 2^(n-1-q), so qubit 0 is the most significant bit. |
| Bits.IndexToBitStringSpec | utils/quantumSimulator.ts:105-107 | For 1 <= n and idx < 2^n, the key has n characters. Character q is the bit of qubit q, which is digit n-1-q of idx. Parsing the key gives idx back. |
| Bits.IndexToBitStringParses | utils/quantumSimulator.ts:105-107 | `parseInt(indexToBitString(idx, n), 2) == idx` for every index and width. |
| Bits.IndexToBitStringInjective | utils/quantumSimulator.ts:105-107 | Distinct indices get distinct keys. |
| Bits.ParseToBinary | utils/quantumSimulator.ts:106 | `parseInt(idx.toString(2), 2) == idx`. |
| Bits.ParseLeadingZeros | utils/quantumSimulator.ts:106 | Zeros added by `padStart` do not change the parsed value. |
| Bits.ParseNumeral | utils/quantumSimulator.ts:142 | `parseInt(bits.join(''), 2)` is the value of the bit sequence. |
| Bits.SplitKeyIsBits | utils/quantumSimulator.ts:134 | `toString(2).padStart(n).split('').map(Number)` of an in-range index is its arithmetic bit sequence. |
| Bits.IndexToBitString | utils/quantumSimulator.ts:105-107 | `idx.toString(2).padStart(n, '0')`: a key of '0' and '1' characters, at least n long and never empty. When it is longer than n and idx > 0 there is no leading zero. IndexToBitStringSpec and IndexToBitStringParses characterise it. |
| Bits.ToBinary | utils/quantumSimulator.ts:106 | `idx.toString(2)`: a non-empty string of '0' and '1' that starts with '0' only for idx = 0. ParseToBinary shows that it parses back to idx. |
| Bits.EmptyRegisterKey | utils/quantumSimulator.ts:105-107 | With no qubits, index 0 is keyed "0", not "". |
| Matrices.Kron | utils/quantumSimulator.ts:76-90 | The four nested loops produce exactly the Kronecker product. By KronAt, every entry of the result is therefore written exactly once. |
| Matrices.KronBlock | utils/quantumSimulator.ts:82-86 | One (i, j) block is written with a[i][j]·b, and every other entry is unchanged. |
| Matrices.KronRowSegment | utils/quantumSimulator.ts:83-85 | Row k of block (i, j) is written and nothing else changes. |
| Matrices.KronOf | utils/quantumSimulator.ts:76-79 | The product of an m×n and a p×q matrix is (m·p)×(n·q). |
| Matrices.KronAt | utils/quantumSimulator.ts:84 | Entry (r, c) is a[r/p][c/q]·b[r%p][c%q], with both quotients in range. |
| Matrices.KronUnitLeft | utils/quantumSimulator.ts:219-225 | `kron([[1]], b) == b`, so the fold's starting value is neutral. |
| Matrices.KronIdentity | utils/quantumSimulator.ts:76-90 | `kron(I_d, I_2)` is the identity of size 2d. |
| Matrices.KronAllIdentities | utils/quantumSimulator.ts:219-227 | The left-to-right `kron` of n copies of I is the 2^n identity. |
| Matrices.MatVecMul | utils/quantumSimulator.ts:93-95 | `matVecMul`: one entry per row, the row's left-to-right dot product with the vector, with an empty row giving 0. MatVecPermutation, MatVecIdentity and DotOneHot characterise it. |
| Matrices.MatVecPermutation | utils/quantumSimulator.ts:93-95 | A matrix whose row r has its only 1 in column sigma(r) maps the state to r ↦ vec[sigma(r)], with the length kept. |
| Matrices.MatVecIdentity | utils/quantumSimulator.ts:93-95 | The identity leaves the state unchanged. |
| Matrices.DotOneHot | utils/quantumSimulator.ts:94 | A row with a single 1 at k selects vec[k]. |
| Matrices.DotSingle | utils/quantumSimulator.ts:94 | A row that is zero except at k contributes row[k]·vec[k]. |
| Matrices.DotPair | utils/quantumSimulator.ts:94 | A row that is zero except for p at k1 and q at k2 (k1 ≠ k2) contributes p·vec[k1] + q·vec[k2]. |
| Matrices.MatVecPair | utils/quantumSimulator.ts:93-95 | Row r of the product, when that row is zero except for p at k1 and q at k2, is p·vec[k1] + q·vec[k2]. |
| Matrices.PairRowsTwice | utils/quantumSimulator.ts:93-95 | If rows j and f of a matrix are zero outside columns j and f, hold (p, q) and (r, w) there, and p·p + q·r = 1 and p·q + q·w = 0, then multiplying by it twice gives amplitude j back. |
| Gates.GetGateMatrix | utils/quantumSimulator.ts:57-73 | The result is X, H or Z exactly for the tags 'X', 'H' and 'Z'. Every other cell gets I, including CX/CH/CZ and CCX descriptors and unknown tags. The result is always 2×2. |
| Gates.IIsIdentity | utils/quantumSimulator.ts:6-9 | The constant I is the 2×2 identity. |
| Gates.MakeGeneralControlledGate | utils/quantumSimulator.ts:130-150 | The filled matrix equals the controlled embedding of the base gate. |
| Gates.ControlledColumn | utils/quantumSimulator.ts:134-147 | One pass of the i loop writes column i of the embedding into a zero column and changes nothing else. |
| Gates.ControlledColumnEntries | utils/quantumSimulator.ts:133-147 | With the control bit of i clear, column i is the identity column. Otherwise, with b the target bit of i, column i holds base[b][b] at i, base[1-b][b] at i with the target bit flipped, and 0 elsewhere. |
| Gates.ControlledSupport | utils/quantumSimulator.ts:137-144 | The indices that agree with i outside the target are exactly i and i with the target bit flipped. |
| Gates.SetBitUnique | utils/quantumSimulator.ts:141-143 | The index written for k is the only in-range index that agrees with i outside the target and has target bit k. |
| Gates.ControlledXIsPermutation | utils/quantumSimulator.ts:130-150 | With base X, column i has its only 1 at the flip image of i. |
| Gates.ControlledRowEntries | utils/quantumSimulator.ts:133-147 | Take control ≠ target. If the control bit of j is clear, row j of the embedding is the identity row. Otherwise, with b the target bit of j, row j holds base[b][b] at j, base[b][1-b] at j with the target bit flipped, and 0 elsewhere. |
| Gates.ControlFlip | utils/quantumSimulator.ts:137-143 | Take j with its control bit set. Its flip image is a different in-range index. That index keeps the control bit set, has the opposite target bit, and flips back to j. |
| Gates.ControlledApply | utils/quantumSimulator.ts:130-150 | Amplitude j of the embedding applied to v is v[j] when the control bit of j is clear. Otherwise it is base[b][b]·v[j] + base[b][1-b]·v[f], with f the flip image of j. |
| Gates.XAndZSquareToIdentity | utils/quantumSimulator.ts:10-21 | X·X = I and Z·Z = I. |
| Gates.ControlledTwice | utils/quantumSimulator.ts:130-150 | For control ≠ target and any base with base·base = I, such as X or Z, applying the embedding twice restores any state. |
| Gates.ControlledXSelfInverse | utils/quantumSimulator.ts:130-150 | For control ≠ target, controlled-X is the CCX embedding with both controls equal, and applying it twice restores any state. |
| Gates.ControlledTwoQubits | utils/quantumSimulator.ts:130-150 | On two qubits with control 0 and target 1, the embedding is diag(I, base). |
| Gates.ControlledXIsCX | utils/quantumSimulator.ts:24-29 | The embedding of X with n = 2, control 0 and target 1 is the constant CX. |
| Gates.ControlledZIsCZ | utils/quantumSimulator.ts:38-43 | The embedding of Z with n = 2, control 0 and target 1 is the constant CZ. |
| Gates.ControlledHIsCH | utils/quantumSimulator.ts:31-36 | The embedding of H with n = 2, control 0 and target 1 is the constant CH. |
| Gates.MakeGeneralCCX | utils/quantumSimulator.ts:153-168 | The filled matrix equals the CCX embedding. |
| Gates.ToffoliColumnTarget | utils/quantumSimulator.ts:157-164 | The row receiving column i's 1 is in range and is i with the target bit flipped when both control bits are 1, else i. |
| Gates.FlipImageBits | utils/quantumSimulator.ts:158-161 | When both controls are set, the flip image is the re-encoding of i's bits with the target flipped, and it lies in range. |
| Gates.ToffoliColumnOne | utils/quantumSimulator.ts:153-168 | Every column holds exactly one 1, at the flip image, and 0 elsewhere. |
| Gates.FlipImageInvolution | utils/quantumSimulator.ts:158-161 | With both controls distinct from the target, flipping twice gives i back. |
| Gates.ToffoliSelfInverse | utils/quantumSimulator.ts:153-168 | The CCX embedding applied twice restores any state. |
| Gates.FlipImageThree | utils/quantumSimulator.ts:46-55 | On three qubits with controls 0 and 1 and target 2, only 110 and 111 swap. |
| Gates.ToffoliIsCCX | utils/quantumSimulator.ts:46-55 | The embedding with n = 3, controls 0 and 1 and target 2 is the constant CCX. |
| Gates.FlipMask | utils/quantumSimulator.ts:219-225 | The basis index that the `kron` of X and I gates sends c to. It is below 2^n. |
| Gates.FlipMaskBits | utils/quantumSimulator.ts:219-225 | Bit q of the image of c is flipped exactly on the X rows and kept on the I rows. |
| Gates.FlipMaskInvolution | utils/quantumSimulator.ts:219-225 | Flipping the same rows twice gives the index back. |
| Gates.KronFlips | utils/quantumSimulator.ts:219-225 | The left-to-right `kron` of X and I gates is the permutation matrix whose column c has its only 1 at the image of c. |
| Gates.KronFlipsTwice | utils/quantumSimulator.ts:219-229 | The left-to-right `kron` of X and I gates, applied twice, restores any state. |
| Simulator.NumSlots | utils/quantumSimulator.ts:172 | The number of columns is the length of row 0, and 0 for a circuit with no rows. |
| Simulator.CellAt | utils/quantumSimulator.ts:182 | A cell past the end of its row is `undefined` and reads as an empty cell. Otherwise it is the stored cell. |
| Simulator.BaseOf | utils/quantumSimulator.ts:188-190 | The base gate of a controlled descriptor is a 2×2 matrix, and it is X, H or Z exactly when the type is CX, CH or CZ respectively. |
| Simulator.CollectOps | utils/quantumSimulator.ts:178-215 | The two passes over the `used` flags produce exactly the op list of the claim-pass reference: descriptors first, in row order, then one single-qubit op per unclaimed row. |
| Simulator.ClaimRow | utils/quantumSimulator.ts:181-207 | A descriptor in an unclaimed row whose qubits are all free pushes its whole-register matrix and claims those qubits. Any other row changes nothing. `used` stays equal to the claimed set, and the rest of the first pass is unaffected. |
| Simulator.ClaimMonotone | utils/quantumSimulator.ts:180-208 | The first pass never releases a claim and claims only register qubits. If it pushes an op, some descriptor's qubits are all claimed. |
| Simulator.ClaimExtends | utils/quantumSimulator.ts:184-205 | The first pass only appends, and every op it appends spans all n positions with a 2^n×2^n matrix. |
| Simulator.SinglesCover | utils/quantumSimulator.ts:210-215 | After the second pass every qubit is claimed exactly once. A qubit left free gets its own op at position [q], and no single-qubit op lands on a claimed qubit. |
| Simulator.SinglesShape | utils/quantumSimulator.ts:210-215 | The second pass yields 2×2 ops with one position each, in strictly increasing row order. |
| Simulator.BuildOpsSorted | utils/quantumSimulator.ts:178-217 | The collected list is already ordered by first position, and every op has a position and a rectangular matrix. The ops of the first pass come first, and each spans the whole register. |
| Simulator.SortOps | utils/quantumSimulator.ts:217 | `gateOps.sort` by `positions[0]`: every op keeps a key, and the result is a permutation (same multiset) of the input. SortOpsSorted proves that it is ordered. SortOpsIdentity proves that an ordered list comes back unchanged. |
| Simulator.Insert | utils/quantumSimulator.ts:217 | Insertion keeps every key and adds exactly one element to the multiset. |
| Simulator.SortOpsSorted | utils/quantumSimulator.ts:217 | The sort returns a permutation of its input ordered by `positions[0]`. |
| Simulator.SortOpsIdentity | utils/quantumSimulator.ts:217 | The stable sort returns an already-ordered list unchanged. |
| Simulator.ColumnUnitary | utils/quantumSimulator.ts:219-227 | The loop with `break` computes the fold that stops at the first full-register op. |
| Simulator.NoDescriptorColumn | utils/quantumSimulator.ts:210-227 | With no descriptor, U is the left-to-right `kron` of the per-row matrices in qubit order. |
| Simulator.DescriptorColumn | utils/quantumSimulator.ts:180-227 | With a descriptor, U is the first descriptor's matrix, and later ops are not applied. |
| Simulator.ColumnUnitaryCorrect | utils/quantumSimulator.ts:178-227 | Collect, sort and fold give the reference column matrix. |
| Simulator.FirstDescriptorDecides | utils/quantumSimulator.ts:219-224 | The first descriptor in row order decides the column. |
| Simulator.LaterCellsIgnored | utils/quantumSimulator.ts:219-224 | Changing any cell below the first descriptor leaves the column matrix unchanged. Single-qubit gates and a second multi-qubit gate in that column are not applied. |
| Simulator.IdleColumn | utils/quantumSimulator.ts:210-227 | A column with no descriptor and no X, H or Z tag is the 2^n identity. |
| Simulator.IdleCircuit | utils/quantumSimulator.ts:170-230 | A circuit of such cells ends in the initial basis state. |
| Simulator.ColumnTwiceRestores | utils/quantumSimulator.ts:184-229 | Applied twice, a column restores any state when its first descriptor is a CX or CZ, or a CCX, on qubits distinct from its target. |
| Simulator.FlipColumn | utils/quantumSimulator.ts:210-227 | A column with only X cells and idle cells is the permutation that flips exactly the bits of its X rows. |
| Simulator.FlipColumnTwice | utils/quantumSimulator.ts:177-229 | Such a column applied twice restores any state, so X followed by X is the identity. |
| Simulator.InitialState | utils/quantumSimulator.ts:98-102 | The initial state has length 2^n, amplitude 1 at index 0 and 0 elsewhere. |
| Simulator.ApplyColumn | utils/quantumSimulator.ts:177-229 | One column step multiplies the state by the reference column matrix. |
| Simulator.ProbabilityMap | utils/quantumSimulator.ts:233-237 | Every index i is present under `indexToBitString(i, n)` with value state[i]², every key is some index's key, and every value is non-negative. |
| Simulator.Simulate | utils/quantumSimulator.ts:170-238 | The returned map reports the final state: the initial state multiplied by each column's reference matrix in turn. |

## Left out

- `console.log(circuitData)` (line 174) is output only. It is not modelled.
- Floating point is not modelled. Amplitudes are exact reals, and `H` uses the
  decimal constant 0.7071067811865475 in place of `1/Math.sqrt(2)`. Results
  about H are structural only. The claim that probabilities sum to 1 is a
  numerical property and is not stated.
- `Math.pow(Math.abs(x), 2)` is modelled as x·x, which is equal on the reals.
- `kronNWithGate` (lines 110-127) is not modelled. Nothing in the engine calls
  it.
- `pages/index.vue`, which defines the cell types, is not part of this model. Cells are a datatype with four cases: empty, a
  tag string, a CX/CH/CZ descriptor, and a CCX descriptor. An object cell
  of any other type behaves like an empty cell in the code. The model has no
  separate case for it.
- Simulator.Simulate: descriptor qubit indices in the columns the loop reads
  must lie in the register (`WellFormed`). The code does not check this, and out-of-range indices
  are not modelled. What the code does with them:
  - A CX/CH/CZ descriptor with an out-of-range target and an in-range
    control: the write at line 141 appends a bit to `flipped`, so line 142
    parses to 2i + k. At the first i >= 2^(n-1) whose control bit is set,
    that row of `U` does not exist, so line 143 throws and the whole
    simulation fails.
  - An out-of-range control: the test at line 135 is never true, so every
    column takes the identity branch at line 146.
  - A CCX descriptor with an out-of-range control: the test at line 158
    fails and the matrix is the identity.
  - A CCX descriptor with an out-of-range target: line 160 writes `NaN`,
    and `parseInt` at line 161 stops at it, giving j = i. The matrix is
    again the identity.
  - In the identity cases, the in-range qubits named by the descriptor are
    still marked used (lines 193-194 and 202-204), so their own
    single-qubit gates in that column are dropped.
- Inside `makeGeneralControlledGate` and `makeGeneralCCX`, the strings built with `toString(2)`, `padStart`, `split`, `join` and
  `parseInt` are replaced by integer bit arithmetic (`BitsOf`, `FromBits`).
  Bits.SplitKeyIsBits and Bits.ParseNumeral relate the two forms. The keys
  of the probability map stay strings (`IndexToBitString`).
- Simulator.ColumnTwiceRestores: it does not cover a CH descriptor. `H` here
  is built from the decimal constant, so H·H is not exactly I and CH applied
  twice does not exactly restore the state. Gates.ControlledTwice covers
  every base with base·base = I, which holds for X and Z.
- Simulator.SortOps: `Array.prototype.sort` is modelled as a stable insertion
  sort by `positions[0]`, the order the engine relies on. The internals of
  the engine's sort are not modelled.
- Resource limits are not modelled. `Array(2 ** n)` (lines 99, 132 and 155)
  throws a `RangeError` for n >= 32, and the time and memory grow as 4^n.
  Integers here are unbounded, so the model has no such bound.
- Matrices.MatVecMul: it requires each row to be no longer than the vector.
  A longer row would read `undefined` and produce `NaN`, which is not
  modelled.
