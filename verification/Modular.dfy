/**
 Positions in an unbounded history and the buffer cells they occupy.

 `Cell` is reduction modulo the buffer size, defined by laps so that proofs about it stay linear;
 `CellIsMod` ties it to `%`.
 */
module Modular {

  /** The cell of history position t in a buffer of n cells. */
  function Cell(t: nat, n: nat): (c: nat)
    requires n > 0
    ensures c < n
  {
    if t < n then t else Cell(t - n, n)
  }

  lemma {:induction false} CellIsMod(t: nat, n: nat)
    requires n > 0
    ensures Cell(t, n) == t % n
  {
    if t < n {
      DivModUnique(t, 0, t, n);
    } else {
      CellIsMod(t - n, n);
      var q, r := (t - n) / n, (t - n) % n;
      assert (q + 1) * n == q * n + n;
      DivModUnique(t, q + 1, r, n);
    }
  }

  /** Division with remainder is unique. */
  lemma DivModUnique(x: int, q: int, r: int, n: int)
    requires n > 0
    requires x == q * n + r
    requires 0 <= r < n
    ensures x / n == q
    ensures x % n == r
  {
    var d := x / n - q;
    assert d * n == r - x % n by {
      assert x == (x / n) * n + x % n;
      assert (x / n - q) * n == (x / n) * n - q * n;
    }
    assert d >= 1 ==> d * n >= n;
    assert d <= -1 ==> d * n <= -n;
  }

  /** Advancing a cell is advancing the position. */
  lemma {:induction false} CellAdd(t: nat, d: nat, n: nat)
    requires n > 0
    ensures Cell(Cell(t, n) + d, n) == Cell(t + d, n)
  {
    if t >= n {
      CellAdd(t - n, d, n);
    }
  }

  /** Two positions less than one lap apart occupy different cells. */
  lemma {:induction false} CellDistinct(a: nat, b: nat, n: nat)
    requires n > 0
    requires 0 < b - a < n
    ensures Cell(a, n) != Cell(b, n)
  {
    if a >= n {
      CellDistinct(a - n, b - n, n);
    }
  }

  /** Two positions less than one lap apart: their cells give the distance back. */
  lemma {:induction false} CellDistance(a: nat, b: nat, n: nat)
    requires n > 0
    requires 0 <= b - a < n
    ensures b - a == if Cell(b, n) >= Cell(a, n) then Cell(b, n) - Cell(a, n) else Cell(b, n) - Cell(a, n) + n
  {
    if a >= n {
      CellDistance(a - n, b - n, n);
    }
  }
}
