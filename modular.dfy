/**
 * Facts about Python's `%` with a positive modulus (where it agrees with
 * Dafny's), used to follow indices that wrap around a ring or a table.
 */
module Modular {

  /** `i % n` for `0 <= i <= n`: `i` itself, or 0 once `i` reaches `n`. */
  lemma ModWrap(i: int, n: int)
    requires 0 <= i <= n && 0 < n
    ensures i % n == if i < n then i else 0
  {
  }

  /** A quotient and remainder in range are the ones `/` and `%` compute. */
  lemma DivModUnique(a: int, n: int, q: int, r: int)
    requires 0 < n && 0 <= r < n && a == q * n + r
    ensures a / n == q && a % n == r
  {
    var q0, r0 := a / n, a % n;
    assert a == q0 * n + r0;
    if q != q0 {
      MulAtLeast(q - q0, n);
      MulAtLeast(q0 - q, n);
    }
  }

  lemma MulAtLeast(x: int, n: int)
    requires 0 < n
    ensures x >= 1 ==> x * n >= n
  {
  }

  /**
   * The slot reached `e` steps after the home slot `h % n` of a table of `n`
   * slots, moving one slot at a time and wrapping from the last to the first.
   */
  function Probe(h: int, e: nat, n: nat): (i: nat)
    requires 0 < n
    ensures i < n
  {
    (h + e) % n
  }

  /** One more step moves to the next slot, `(index + 1) % n`. */
  lemma ProbeNext(h: int, e: nat, n: nat)
    requires 0 < n
    ensures Probe(h, e + 1, n) == (Probe(h, e, n) + 1) % n
  {
    var q, r := (h + e) / n, (h + e) % n;
    assert h + e == q * n + r;
    ModWrap(r + 1, n);
    if r + 1 < n {
      DivModUnique(h + e + 1, n, q, r + 1);
    } else {
      DivModUnique(h + e + 1, n, q + 1, 0);
    }
  }

  /** The slot before `i`, wrapping from the first to the last. */
  function Prev(i: nat, n: nat): (j: nat)
    requires 0 < n
    ensures j < n
  {
    (i + n - 1) % n
  }

  /** The slot before the one `e > 0` steps from home is the one `e - 1` steps from home. */
  lemma ProbePrev(h: int, e: nat, n: nat)
    requires 0 < n && 0 < e
    ensures Prev(Probe(h, e, n), n) == Probe(h, e - 1, n)
  {
    ProbeNext(h, e - 1, n);
    var p := Probe(h, e - 1, n);
    if p + 1 < n {
      DivModUnique(p + 1, n, 0, p + 1);
      DivModUnique(p + n, n, 1, p);
    } else {
      DivModUnique(p + 1, n, 1, 0);
      DivModUnique(n - 1, n, 0, n - 1);
    }
  }

  /** Fewer than `n` steps from one home never reach the same slot twice. */
  lemma ProbeInjective(h: int, a: nat, b: nat, n: nat)
    requires 0 < n && a < n && b < n
    requires Probe(h, a, n) == Probe(h, b, n)
    ensures a == b
  {
    if a < b {
      ProbeApart(h, a, b, n);
    } else if b < a {
      ProbeApart(h, b, a, n);
    }
  }

  lemma ProbeApart(h: int, a: nat, b: nat, n: nat)
    requires 0 < n && a < b < n
    ensures Probe(h, a, n) != Probe(h, b, n)
  {
    var q, r := (h + a) / n, (h + a) % n;
    if r + (b - a) < n {
      DivModUnique(h + b, n, q, r + (b - a));
    } else {
      DivModUnique(h + b, n, q + 1, r + (b - a) - n);
    }
  }

  /** Every slot `i` lies `(i - h) % n` steps from home. */
  lemma ProbeCovers(h: int, i: nat, n: nat)
    requires 0 < n && i < n
    ensures Probe(h, (i - h) % n, n) == i
  {
    var q, d := (i - h) / n, (i - h) % n;
    DivModUnique(h + d, n, -q, i);
  }

  /** The slot `e < n` steps from home is at distance `(slot - h % n) % n` from it. */
  lemma ProbeDistance(h: int, e: nat, n: nat)
    requires 0 < n && e < n
    ensures (Probe(h, e, n) - h % n) % n == e
  {
    var q, q' := (h + e) / n, h / n;
    DivModUnique(Probe(h, e, n) - h % n, n, q' - q, e);
  }
}
