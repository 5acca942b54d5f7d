/**
 * Basis-state encoding. A basis index of an n-qubit register is written as n
 * bits, most significant first, so qubit 0 is the most significant bit.
 * The simulator turns an index into bits with `toString(2)` + `padStart` and
 * back with `parseInt(…, 2)`; here the bits are computed with division and
 * modulo, and the string form is related to them by lemmas.
 */
module Bits {

  /** 2^k, the number of basis states of a k-qubit register. */
  function Pow2(k: nat): (r: nat)
    ensures r >= 1
  {
    if k == 0 then 1 else 2 * Pow2(k - 1)
  }

  /** Every entry is a binary digit. */
  predicate IsBits(s: seq<nat>)
  {
    forall k :: 0 <= k < |s| ==> s[k] < 2
  }

  /** The n-bit big-endian expansion of i (i modulo 2^n when i is too large). */
  function BitsOf(i: nat, n: nat): (bits: seq<nat>)
    ensures |bits| == n && IsBits(bits)
  {
    if n == 0 then [] else BitsOf(i / 2, n - 1) + [i % 2]
  }

  /** The bit of qubit q in basis index i of an n-qubit register. */
  function Bit(i: nat, n: nat, q: nat): (b: nat)
    requires q < n
    ensures b < 2
  {
    BitsOf(i, n)[q]
  }

  /**
   * The value of a big-endian digit sequence, as `parseInt(digits.join(''), 2)`:
   * binary digits of length k give an index of a k-qubit register.
   */
  function FromBits(s: seq<nat>): (r: nat)
    ensures IsBits(s) ==> r < Pow2(|s|)
  {
    if s == [] then 0 else 2 * FromBits(s[..|s| - 1]) + s[|s| - 1]
  }

  lemma DivMulAdd(a: nat, b: nat)
    requires b < 2
    ensures (2 * a + b) / 2 == a && (2 * a + b) % 2 == b
  {
  }

  /** Decoding then re-encoding an in-range index gives it back. */
  lemma {:induction false} FromBitsOf(i: nat, n: nat)
    requires i < Pow2(n)
    ensures FromBits(BitsOf(i, n)) == i
  {
    if n > 0 {
      var bits := BitsOf(i, n);
      assert bits[..n - 1] == BitsOf(i / 2, n - 1);
      FromBitsOf(i / 2, n - 1);
    }
  }

  /** Encoding a bit sequence gives an index below 2^|s| that decodes back to it. */
  lemma {:induction false} BitsOfFromBits(s: seq<nat>)
    requires IsBits(s)
    ensures FromBits(s) < Pow2(|s|)
    ensures BitsOf(FromBits(s), |s|) == s
  {
    if s != [] {
      var init := s[..|s| - 1];
      BitsOfFromBits(init);
      DivMulAdd(FromBits(init), s[|s| - 1]);
      assert init + [s[|s| - 1]] == s;
    }
  }

  /** Distinct in-range indices have distinct bit expansions. */
  lemma BitsOfInjective(i: nat, j: nat, n: nat)
    requires i < Pow2(n) && j < Pow2(n)
    requires BitsOf(i, n) == BitsOf(j, n)
    ensures i == j
  {
    FromBitsOf(i, n);
    FromBitsOf(j, n);
  }

  /** Division is determined by quotient and remainder. */
  lemma DivUnique(i: nat, d: nat, b: nat, r: nat)
    requires d >= 1 && r < d && i == d * b + r
    ensures i / d == b
  {
    var b', r' := i / d, i % d;
    assert d * b + r == d * b' + r';
    MulGap(d, b', b);
    MulGap(d, b, b');
  }

  /** A larger multiplier scales d by at least one more d. */
  lemma MulGap(d: nat, x: nat, y: nat)
    ensures x < y ==> d * x + d <= d * y
  {
    if x < y {
      var e := y - x - 1;
      assert d * y == d * x + d + d * e;
    }
  }

  /**
   * Changing the digit at position t of a bit sequence moves its value by
   * the change times that position's weight 2^(|s|-1-t).
   */
  lemma {:induction false} FromBitsUpdate(s: seq<nat>, t: nat, k: nat)
    requires t < |s|
    ensures FromBits(s[t := k]) == FromBits(s) + (k - s[t]) * Pow2(|s| - 1 - t)
  {
    var last := |s| - 1;
    var init := s[..last];
    if t == last {
      assert s[t := k][..last] == init;
      assert Pow2(|s| - 1 - t) == 1;
    } else {
      assert s[t := k][..last] == init[t := k];
      FromBitsUpdate(init, t, k);
      assert FromBits(s[t := k]) == 2 * FromBits(init[t := k]) + s[last];
      assert FromBits(s) == 2 * FromBits(init) + s[last];
      assert Pow2(|s| - 1 - t) == 2 * Pow2(last - 1 - t);
      DoubleShift(FromBits(init), k - s[t], Pow2(last - 1 - t), s[last]);
    }
  }

  /** Doubling and appending a digit scales a shift by d·w to a shift by d·2w. */
  lemma DoubleShift(a: int, d: int, w: int, x: int)
    ensures 2 * (a + d * w) + x == (2 * a + x) + d * (2 * w)
  {
  }

  /** Setting a binary digit at t to k moves the value by the weight of t, up, down or not at all. */
  lemma FromBitsSet(s: seq<nat>, t: nat, k: nat)
    requires t < |s| && k < 2 && s[t] < 2
    ensures s[t] == k ==> FromBits(s[t := k]) == FromBits(s)
    ensures s[t] < k ==> FromBits(s[t := k]) == FromBits(s) + Pow2(|s| - 1 - t)
    ensures s[t] > k ==> FromBits(s[t := k]) + Pow2(|s| - 1 - t) == FromBits(s)
  {
    FromBitsUpdate(s, t, k);
    ScaleUnit(k - s[t], Pow2(|s| - 1 - t));
  }

  /** Scaling by -1, 0 or 1. */
  lemma ScaleUnit(d: int, w: int)
    requires -1 <= d <= 1
    ensures d * w == if d == 0 then 0 else if d == 1 then w else -w
  {
  }

  /** Setting qubit t of basis index i to k gives i moved by (k - old bit) times the qubit's weight. */
  lemma SetBit(i: nat, n: nat, t: nat, k: nat)
    requires i < Pow2(n) && t < n && k < 2
    ensures Bit(i, n, t) == k ==> FromBits(BitsOf(i, n)[t := k]) == i
    ensures Bit(i, n, t) < k ==> FromBits(BitsOf(i, n)[t := k]) == i + Pow2(n - 1 - t)
    ensures Bit(i, n, t) > k ==> FromBits(BitsOf(i, n)[t := k]) == i - Pow2(n - 1 - t)
    ensures FromBits(BitsOf(i, n)[t := k]) < Pow2(n)
    ensures BitsOf(FromBits(BitsOf(i, n)[t := k]), n) == BitsOf(i, n)[t := k]
  {
    var bits := BitsOf(i, n);
    var updated := bits[t := k];
    assert Bit(i, n, t) == bits[t];
    FromBitsSet(bits, t, k);
    FromBitsOf(i, n);
    assert FromBits(bits) == i;
    assert IsBits(updated);
    BitsOfFromBits(updated);
  }

  /** Flipping bit t moves i by the weight of position t, up or down, and stays in range. */
  lemma FlipBit(i: nat, n: nat, t: nat)
    requires i < Pow2(n) && t < n
    ensures FromBits(BitsOf(i, n)[t := 1 - Bit(i, n, t)]) ==
              if Bit(i, n, t) == 0 then i + Pow2(n - 1 - t) else i - Pow2(n - 1 - t)
    ensures FromBits(BitsOf(i, n)[t := 1 - Bit(i, n, t)]) < Pow2(n)
    ensures BitsOf(FromBits(BitsOf(i, n)[t := 1 - Bit(i, n, t)]), n) == BitsOf(i, n)[t := 1 - Bit(i, n, t)]
  {
    var flipped := BitsOf(i, n)[t := 1 - Bit(i, n, t)];
    SetBit(i, n, t, 1 - Bit(i, n, t));
    assert IsBits(flipped);
    BitsOfFromBits(flipped);
  }


  lemma DivDiv2(i: nat, p: nat)
    requires p >= 1
    ensures (i / 2) / p == i / (2 * p)
  {
    var a, r1 := i / 2, i % 2;
    var b, r2 := a / p, a % p;
    assert i == 2 * (p * b + r2) + r1;
    assert i == (2 * p) * b + (2 * r2 + r1);
    DivUnique(i, 2 * p, b, 2 * r2 + r1);
  }

  /** Qubit q's bit is digit n-1-q of i in base 2: qubit 0 is the most significant bit. */
  lemma {:induction false} BitValue(i: nat, n: nat, q: nat)
    requires q < n
    ensures Bit(i, n, q) == (i / Pow2(n - 1 - q)) % 2
  {
    if q < n - 1 {
      assert Bit(i, n, q) == Bit(i / 2, n - 1, q);
      BitValue(i / 2, n - 1, q);
      DivDiv2(i, Pow2(n - 2 - q));
    }
  }

  // ---------------------------------------------------------------------------
  // The string form used as the key of the probability map.

  function Digit(b: nat): char
  {
    if b == 0 then '0' else '1'
  }

  function DigitValue(c: char): nat
  {
    if c == '1' then 1 else 0
  }

  /** `idx.toString(2)`: the shortest binary numeral ("0" for zero). */
  function ToBinary(idx: nat): (s: string)
    ensures |s| >= 1 && forall i :: 0 <= i < |s| ==> s[i] == '0' || s[i] == '1'
    ensures s[0] == '0' <==> idx == 0
  {
    if idx < 2 then [Digit(idx)] else ToBinary(idx / 2) + [Digit(idx % 2)]
  }

  /** `s.padStart(n, '0')`. */
  function PadStart(s: string, n: nat): string
  {
    if |s| >= n then s else seq(n - |s|, _ => '0') + s
  }

  /** `indexToBitString(idx, numQubits)`. */
  function IndexToBitString(idx: nat, n: nat): (key: string)
    ensures |key| >= 1 && |key| >= n
    ensures forall i :: 0 <= i < |key| ==> key[i] == '0' || key[i] == '1'
    ensures idx > 0 && |key| > n ==> key[0] == '1'
  {
    PadStart(ToBinary(idx), n)
  }

  /** `parseInt(s, 2)` on a string of '0' and '1'. */
  function ParseBinary(s: string): nat
  {
    if s == [] then 0 else 2 * ParseBinary(s[..|s| - 1]) + DigitValue(s[|s| - 1])
  }

  /** The fixed-width numeral read off the bits of idx, qubit 0 first. */
  function BitString(idx: nat, n: nat): (s: string)
    ensures |s| == n
  {
    if n == 0 then [] else BitString(idx / 2, n - 1) + [Digit(idx % 2)]
  }

  lemma {:induction false} BitStringAt(idx: nat, n: nat, q: nat)
    requires q < n
    ensures BitString(idx, n)[q] == Digit(Bit(idx, n, q))
  {
    if q < n - 1 {
      BitStringAt(idx / 2, n - 1, q);
    }
  }

  lemma {:induction false} BitStringOfZero(n: nat)
    ensures BitString(0, n) == seq(n, _ => '0')
  {
    if n > 0 {
      BitStringOfZero(n - 1);
    }
  }

  lemma {:induction false} PaddedBinaryIsBitString(idx: nat, n: nat)
    requires 1 <= n && idx < Pow2(n)
    ensures IndexToBitString(idx, n) == BitString(idx, n)
  {
    if idx < 2 {
      BitStringOfZero(n - 1);
      assert idx / 2 == 0;
    } else {
      assert 2 * (idx / 2) <= idx;
      assert idx / 2 < Pow2(n - 1);
      PaddedBinaryIsBitString(idx / 2, n - 1);
      var s := ToBinary(idx / 2);
      if |s| < n - 1 {
        assert seq(n - |s| - 1, _ => '0') + s + [Digit(idx % 2)]
            == seq(n - (|s| + 1), _ => '0') + (s + [Digit(idx % 2)]);
      }
    }
  }

  lemma {:induction false} ParseLeadingZeros(z: nat, s: string)
    ensures ParseBinary(seq(z, _ => '0') + s) == ParseBinary(s)
  {
    if s == [] {
      if z > 0 {
        assert seq(z, _ => '0') + s == seq(z - 1, _ => '0') + ['0'];
        assert (seq(z - 1, _ => '0') + ['0'])[..z - 1] == seq(z - 1, _ => '0') + [];
        ParseLeadingZeros(z - 1, []);
      }
    } else {
      var init := s[..|s| - 1];
      assert (seq(z, _ => '0') + s)[..z + |s| - 1] == seq(z, _ => '0') + init;
      ParseLeadingZeros(z, init);
    }
  }

  lemma {:induction false} ParseToBinary(idx: nat)
    ensures ParseBinary(ToBinary(idx)) == idx
  {
    if idx >= 2 {
      var s := ToBinary(idx / 2);
      assert (s + [Digit(idx % 2)])[..|s|] == s;
      ParseToBinary(idx / 2);
    }
  }

  /**
   * The probability-map key of basis index idx: n characters, each '0' or
   * '1', character q being the bit of qubit q (qubit 0 most significant), and
   * `parseInt(key, 2)` gives idx back.
   */
  lemma IndexToBitStringSpec(idx: nat, n: nat)
    requires 1 <= n && idx < Pow2(n)
    ensures |IndexToBitString(idx, n)| == n
    ensures forall q :: 0 <= q < n ==>
              IndexToBitString(idx, n)[q] == Digit(Bit(idx, n, q)) &&
              IndexToBitString(idx, n)[q] == Digit((idx / Pow2(n - 1 - q)) % 2)
    ensures ParseBinary(IndexToBitString(idx, n)) == idx
  {
    PaddedBinaryIsBitString(idx, n);
    forall q | 0 <= q < n
      ensures IndexToBitString(idx, n)[q] == Digit(Bit(idx, n, q))
      ensures IndexToBitString(idx, n)[q] == Digit((idx / Pow2(n - 1 - q)) % 2)
    {
      BitStringAt(idx, n, q);
      BitValue(idx, n, q);
    }
    IndexToBitStringParses(idx, n);
  }

  /** `parseInt(indexToBitString(idx, n), 2) == idx` for every index and width. */
  lemma IndexToBitStringParses(idx: nat, n: nat)
    ensures ParseBinary(IndexToBitString(idx, n)) == idx
  {
    var s := ToBinary(idx);
    ParseToBinary(idx);
    if |s| < n {
      ParseLeadingZeros(n - |s|, s);
    }
  }

  /** Distinct indices get distinct keys, so the probability map has one entry per index. */
  lemma IndexToBitStringInjective(i: nat, j: nat, n: nat)
    requires IndexToBitString(i, n) == IndexToBitString(j, n)
    ensures i == j
  {
    IndexToBitStringParses(i, n);
    IndexToBitStringParses(j, n);
  }

  /** `bits.join('')`: the numeral spelled by a digit sequence. */
  function Numeral(s: seq<nat>): (r: string)
    ensures |r| == |s|
  {
    seq(|s|, q requires 0 <= q < |s| => Digit(s[q]))
  }

  /** `parseInt(flipped.join(''), 2)` is the value of the digit sequence. */
  lemma {:induction false} ParseNumeral(s: seq<nat>)
    requires IsBits(s)
    ensures ParseBinary(Numeral(s)) == FromBits(s)
  {
    if s != [] {
      var init := s[..|s| - 1];
      assert Numeral(s)[..|s| - 1] == Numeral(init);
      ParseNumeral(init);
    }
  }

  /**
   * `idx.toString(2).padStart(n, '0').split('').map(Number)` for an index of
   * the register is the bit sequence the model decodes arithmetically.
   */
  lemma SplitKeyIsBits(idx: nat, n: nat)
    requires 1 <= n && idx < Pow2(n)
    ensures seq(n, q requires 0 <= q < n => DigitValue(IndexToBitString(idx, n)[q])) == BitsOf(idx, n)
  {
    IndexToBitStringSpec(idx, n);
  }

  /** With no qubits the only index, 0, is keyed "0": `(0).toString(2)` is already one digit. */
  lemma EmptyRegisterKey()
    ensures IndexToBitString(0, 0) == "0"
  {
  }
}
