/** Residues for the circular write cursor.  `Mod` is remainder by repeated
    subtraction, so that the proofs about slots stay in linear arithmetic;
    `ModIsRemainder` ties it to the `%` the cursor update uses (Dafny's and
    Python's `%` agree here, every operand being non-negative). */
module Modular {

  function Mod(x: nat, m: nat): (r: nat)
    requires 0 < m
    ensures r < m && r <= x
    decreases x
  {
    if x < m then x else Mod(x - m, m)
  }

  /** The cursor advances by one slot and wraps from `m - 1` to 0. */
  lemma {:induction false} ModSucc(x: nat, m: nat)
    requires 0 < m
    ensures Mod(x + 1, m) == if Mod(x, m) + 1 == m then 0 else Mod(x, m) + 1
    decreases x
  {
    if x >= m {
      ModSucc(x - m, m);
    }
  }

  /** Reducing the left summand first does not change the residue of a sum. */
  lemma {:induction false} ModOfSum(a: nat, b: nat, m: nat)
    requires 0 < m
    ensures Mod(Mod(a, m) + b, m) == Mod(a + b, m)
    decreases a
  {
    if a >= m {
      ModOfSum(a - m, b, m);
    }
  }

  /** Two distinct indices less than one turn apart have distinct residues. */
  lemma {:induction false} ModWindow(a: nat, b: nat, m: nat)
    requires 0 < m && a < b < a + m
    ensures Mod(a, m) != Mod(b, m)
    decreases a
  {
    if a >= m {
      ModWindow(a - m, b - m, m);
    }
  }

  lemma MulAtLeast(d: int, m: int)
    requires d >= 1 && m > 0
    ensures d * m >= m
  {
    var e := d - 1;
    assert d * m == e * m + m;
    assert e * m >= 0;
  }

  /** Quotient and remainder are unique. */
  lemma ModUnique(x: int, m: int, q: int, r: int)
    requires m > 0 && 0 <= r < m && x == q * m + r
    ensures x % m == r
  {
    var q0, r0 := x / m, x % m;
    assert x == q0 * m + r0;
    assert (q - q0) * m == r0 - r;
    if q > q0 {
      MulAtLeast(q - q0, m);
    } else if q < q0 {
      MulAtLeast(q0 - q, m);
    }
  }

  /** `Mod` is Euclidean remainder. */
  lemma {:induction false} ModIsRemainder(x: nat, m: nat)
    requires 0 < m
    ensures Mod(x, m) == x % m
    decreases x
  {
    if x < m {
      ModUnique(x, m, 0, x);
    } else {
      ModIsRemainder(x - m, m);
      ModUnique(x, m, (x - m) / m + 1, (x - m) % m);
    }
  }
}
