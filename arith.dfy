/** Small facts about multiplication and division of naturals that the layout and
    sharding proofs share. */
module Arith {

  /** Element k of row j of a row-major array whose rows are w long. */
  function Cell(j: nat, w: nat, k: nat): nat
  {
    j * w + k
  }

  /** Where row j starts in a row-major array whose rows are w long, counted row by row
      (it is j*w, see RowStartIsProduct). */
  function RowStart(j: nat, w: nat): nat
  {
    if j == 0 then 0 else RowStart(j - 1, w) + w
  }

  lemma {:induction false} RowStartIsProduct(j: nat, w: nat)
    ensures RowStart(j, w) == j * w
  {
    if j > 0 {
      RowStartIsProduct(j - 1, w);
      MulSucc(j - 1, w);
    }
  }

  /** A row before row j ends no later than row j starts. */
  lemma {:induction false} RowStartMonotone(i: nat, j: nat, w: nat)
    requires i < j
    ensures RowStart(i, w) + w <= RowStart(j, w)
  {
    if i < j - 1 {
      RowStartMonotone(i, j - 1, w);
    }
  }

  lemma {:induction false} MulMonotone(w: nat, a: nat, b: nat)
    requires a <= b
    ensures w * a <= w * b
    decreases b - a
  {
    if a < b {
      MulMonotone(w, a + 1, b);
      assert w * (a + 1) == w * a + w;
    }
  }

  lemma DigitBound(a: nat, b: nat, w: nat, m: nat)
    requires a < w && b < m
    ensures a + w * b < w * m
  {
    assert w * (b + 1) == w * b + w;
    MulMonotone(w, b + 1, m);
  }

  /** a + w*b determines a and b when a < w (one digit of a mixed-radix number). */
  lemma DigitsUnique(a: nat, b: nat, a': nat, b': nat, w: nat)
    requires a < w && a' < w && a + w * b == a' + w * b'
    ensures a == a' && b == b'
  {
    if b < b' {
      DigitBound(a, b, w, b');
      assert false;
    } else if b' < b {
      DigitBound(a', b', w, b);
      assert false;
    }
  }

  /** Integer division by a positive divisor is monotone. */
  lemma DivMonotone(a: nat, b: nat, d: nat)
    requires 0 < d && a <= b
    ensures a / d <= b / d
  {
    if a / d > b / d {
      MulMonotone(d, b / d + 1, a / d);
      assert false;
    }
  }

  /** Multiplying by a positive divisor and dividing by it again gives the number back. */
  lemma MulDivCancel(w: nat, d: nat)
    requires 0 < d
    ensures w * d / d == w
  {
    var q, r := w * d / d, w * d % d;
    assert w * d == d * q + r;
    assert 0 + d * w == r + d * q;
    DigitsUnique(0, w, r, q, d);
  }

  lemma MulSucc(a: nat, b: nat)
    ensures (a + 1) * b == a * b + b
    ensures a * b <= (a + 1) * b
  {
  }

  /** Row j of a row-major array of `rows` rows of `w` elements ends within the array. */
  lemma RowFits(rows: nat, w: nat, j: nat)
    requires j < rows
    ensures j * w + w <= rows * w
  {
    MulSucc(j, w);
    MulMonotone(w, j + 1, rows);
    assert w * (j + 1) == (j + 1) * w && w * rows == rows * w;
  }

  /** Division by w recovers the digits of r + w*q when r < w. */
  lemma DivModOf(r: nat, q: nat, w: nat)
    requires r < w
    ensures (r + w * q) % w == r && (r + w * q) / w == q
  {
    var x := r + w * q;
    assert x == x % w + w * (x / w);
    DigitsUnique(x % w, x / w, r, q, w);
  }
}
