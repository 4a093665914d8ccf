/**
 * Binary counting facts behind the truth table's variable columns: row i of the table
 * spells i in binary over the n variable columns, the first variable being the most
 * significant digit.
 */
module Bits {

  function Pow2(n: nat): (p: nat)
    ensures p >= 1
  {
    if n == 0 then 1 else 2 * Pow2(n - 1)
  }

  lemma {:induction false} Pow2Add(a: nat, b: nat)
    ensures Pow2(a + b) == Pow2(a) * Pow2(b)
    decreases b
  {
    if b > 0 {
      Pow2Add(a, b - 1);
      assert Pow2(a + b) == 2 * Pow2(a + b - 1);
    }
  }

  lemma {:induction false} MulAtLeast(d: int, y: nat)
    requires d >= 0
    ensures y >= 1 ==> d * y >= d
    decreases y
  {
    if y > 1 {
      MulAtLeast(d, y - 1);
      assert d * y == d * (y - 1) + d;
    }
  }

  /** A multiple of d strictly between -d and d is zero. */
  lemma SmallMultiple(d: int, x: int)
    requires d > 0 && -d < d * x < d
    ensures x == 0
  {
    MulAtLeast(d, if x >= 0 then x else -x);
  }

  /** Integer division is determined by any quotient and remainder that fit. */
  lemma DivUnique(i: int, d: int, q: int, r: int)
    requires d > 0 && 0 <= r < d && i == d * q + r
    ensures i / d == q && i % d == r
  {
    var q' := i / d;
    var r' := i % d;
    assert d * q' + r' == d * q + r;
    assert d * (q - q') == r' - r;
    SmallMultiple(d, q - q');
  }

  /** Dividing by 2m is dividing by 2 and then by m. */
  lemma DivDiv(i: nat, m: nat)
    requires m >= 1
    ensures i / (2 * m) == (i / 2) / m
  {
    var h := i / 2;
    var a := h / m;
    var b := h % m;
    assert i == 2 * h + i % 2;
    assert h == m * a + b;
    assert i == (2 * m) * a + (2 * b + i % 2);
    DivUnique(i, 2 * m, a, 2 * b + i % 2);
  }

  /** Bit k (0 = most significant) of i written with n binary digits. */
  function Digit(n: nat, i: nat, k: nat): (b: int)
    requires k < n
    ensures b == 0 || b == 1
  {
    (i / Pow2(n - 1 - k)) % 2
  }

  /** The n binary digits of i, most significant first. */
  function RowBits(n: nat, i: nat): (bits: seq<int>)
    ensures |bits| == n
    ensures forall k :: 0 <= k < n ==> bits[k] == Digit(n, i, k)
  {
    seq(n, k requires 0 <= k < n => Digit(n, i, k))
  }

  predicate IsBits(bits: seq<int>) {
    forall k :: 0 <= k < |bits| ==> bits[k] == 0 || bits[k] == 1
  }

  /** The number a digit sequence spells, most significant digit first. */
  function FromBits(bits: seq<int>): int
    decreases |bits|
  {
    if bits == [] then 0 else 2 * FromBits(bits[..|bits| - 1]) + bits[|bits| - 1]
  }

  /** One more digit: the leading n digits of i are the digits of i / 2, the last one is i mod 2. */
  lemma RowBitsStep(n: nat, i: nat)
    ensures RowBits(n + 1, i) == RowBits(n, i / 2) + [i % 2]
  {
    var lhs := RowBits(n + 1, i);
    var rhs := RowBits(n, i / 2) + [i % 2];
    forall k | 0 <= k < n + 1 ensures lhs[k] == rhs[k] {
      if k < n {
        assert Pow2(n - k) == 2 * Pow2(n - 1 - k);
        DivDiv(i, Pow2(n - 1 - k));
      }
    }
  }

  /** Reading back the digits of i gives i, for every i below 2^n. */
  lemma {:induction false} RowBitsRoundTrip(n: nat, i: nat)
    requires i < Pow2(n)
    ensures FromBits(RowBits(n, i)) == i
  {
    if n > 0 {
      RowBitsStep(n - 1, i);
      RowBitsRoundTrip(n - 1, i / 2);
      var bits := RowBits(n, i);
      assert bits[..n - 1] == RowBits(n - 1, i / 2);
    }
  }

  /** Every 0/1 sequence of length n is the digit sequence of one number below 2^n. */
  lemma {:induction false} FromBitsRoundTrip(bits: seq<int>)
    requires IsBits(bits)
    ensures 0 <= FromBits(bits) < Pow2(|bits|)
    ensures RowBits(|bits|, FromBits(bits)) == bits
    decreases |bits|
  {
    if bits != [] {
      var n := |bits| - 1;
      var init := bits[..n];
      FromBitsRoundTrip(init);
      var v := FromBits(bits);
      DivUnique(v, 2, FromBits(init), bits[n]);
      RowBitsStep(n, v);
      assert bits == init + [bits[n]];
    }
  }

  /**
   * The data rows of a truth table over n variables list every assignment exactly once:
   * each 0/1 sequence of length n is the row of some i below 2^n, and no two rows agree.
   */
  lemma EveryAssignmentOnce(n: nat)
    ensures forall bits :: |bits| == n && IsBits(bits) ==>
      0 <= FromBits(bits) < Pow2(n) && RowBits(n, FromBits(bits)) == bits
    ensures forall i, j :: 0 <= i < j < Pow2(n) ==> RowBits(n, i) != RowBits(n, j)
  {
    forall bits | |bits| == n && IsBits(bits)
      ensures 0 <= FromBits(bits) < Pow2(n) && RowBits(n, FromBits(bits)) == bits
    {
      FromBitsRoundTrip(bits);
    }
    forall i, j | 0 <= i < j < Pow2(n) ensures RowBits(n, i) != RowBits(n, j) {
      RowBitsRoundTrip(n, i);
      RowBitsRoundTrip(n, j);
    }
  }

  /**
   * The first variable toggles slowest (it is 0 in the first half of the rows and 1 in the
   * second) and the last toggles on every row.
   */
  lemma SlowestAndFastest(n: nat, i: nat)
    requires n >= 1 && i < Pow2(n)
    ensures RowBits(n, i)[0] == (if i < Pow2(n - 1) then 0 else 1)
    ensures RowBits(n, i)[n - 1] == i % 2
  {
    var z := Pow2(n - 1);
    assert Pow2(n) == 2 * z;
    if i < z {
      DivUnique(i, z, 0, i);
    } else {
      DivUnique(i, z, 1, i - z);
    }
  }
}
