/** Bitwise AND on unbounded naturals, and the power-of-two mask of the ring buffer. */
module Bits {
  import Modular

  function Pow2(k: nat): (p: nat)
    ensures p >= 1
  {
    if k == 0 then 1 else 2 * Pow2(k - 1)
  }

  ghost predicate IsPow2(n: nat) {
    exists k: nat :: n == Pow2(k)
  }

  /** x & y, bit by bit. */
  function And(x: nat, y: nat): (z: nat)
    ensures z <= x && z <= y
  {
    if x == 0 || y == 0 then 0 else 2 * And(x / 2, y / 2) + (if x % 2 == 1 && y % 2 == 1 then 1 else 0)
  }

  /** Halving commutes with reduction modulo an even number. */
  lemma ModDouble(x: nat, m: nat, d: nat)
    requires m > 0
    requires d == 2 * m
    ensures x % d == 2 * ((x / 2) % m) + x % 2
  {
    var q, r := (x / 2) / m, (x / 2) % m;
    assert x / 2 == q * m + r;
    assert q * d == 2 * (q * m);
    Modular.DivModUnique(x, q, 2 * r + x % 2, d);
  }

  /** One unfolding of `And` with an odd mask. */
  lemma AndOdd(x: nat, h: nat, y: nat)
    requires y == 2 * h + 1
    ensures And(x, y) == 2 * And(x / 2, h) + x % 2
  {
  }

  /** Masking with 2^k - 1 is reduction modulo 2^k. */
  lemma {:induction false} AndMaskIsMod(x: nat, k: nat)
    ensures And(x, Pow2(k) - 1) == x % Pow2(k)
  {
    if k == 0 {
      assert Pow2(0) == 1;
    } else {
      var half := Pow2(k - 1);
      AndMaskIsMod(x / 2, k - 1);
      AndOdd(x, half - 1, 2 * half - 1);
      ModDouble(x, half, 2 * half);
    }
  }

  lemma {:induction false} AndSelf(x: nat)
    ensures And(x, x) == x
  {
    if x > 0 {
      AndSelf(x / 2);
    }
  }

  /** n & (n - 1) is zero for powers of two only. */
  lemma {:induction false} AndPredecessorZero(n: nat)
    requires n > 0
    requires And(n, n - 1) == 0
    ensures IsPow2(n)
  {
    if n == 1 {
      assert n == Pow2(0);
    } else if n % 2 == 1 {
      AndSelf(n / 2);
    } else {
      assert (n - 1) / 2 == n / 2 - 1;
      AndPredecessorZero(n / 2);
      var k: nat :| n / 2 == Pow2(k);
      assert n == Pow2(k + 1);
    }
  }

  /** The mask `size - 1` reduces every index modulo `size` exactly when `size` is a power of two. */
  lemma MaskIsModIff(size: nat)
    requires size > 0
    ensures (forall x: nat :: And(x, size - 1) == x % size) <==> IsPow2(size)
  {
    if IsPow2(size) {
      var k: nat :| size == Pow2(k);
      forall x: nat
        ensures And(x, size - 1) == x % size
      {
        AndMaskIsMod(x, k);
      }
    } else if forall x: nat :: And(x, size - 1) == x % size {
      assert And(size, size - 1) == size % size;
      AndPredecessorZero(size);
    }
  }

  /** `c & (size - 1)` is c. */
  predicate Kept(c: nat, size: nat)
    requires size > 0
  {
    And(c, size - 1) == c
  }

  lemma KeptByHalf(c: nat, half: nat, size: nat)
    requires half > 0 && size == 2 * half && Kept(2 * c, size)
    ensures Kept(c, half)
  {
    AndOdd(2 * c, half - 1, size - 1);
  }

  lemma OddMaskKeepsOne(size: nat)
    requires size > 1 && Kept(1, size)
    ensures size % 2 == 0
  {
  }

  /** A mask that lets every index below the size through consists of ones only. */
  lemma {:induction false} FullMaskIsPow2(size: nat)
    requires size > 0
    requires forall c: nat :: c < size ==> Kept(c, size)
    ensures IsPow2(size)
  {
    if size == 1 {
      assert size == Pow2(0);
    } else {
      OddMaskKeepsOne(size);
      var half := size / 2;
      forall c: nat | c < half
        ensures Kept(c, half)
      {
        KeptByHalf(c, half, size);
      }
      FullMaskIsPow2(half);
      var k: nat :| half == Pow2(k);
      assert size == Pow2(k + 1);
    }
  }

  /** The mask `size - 1` leaves every index below `size` alone exactly when `size` is a power of two. */
  lemma MaskKeepsIndicesIff(size: nat)
    requires size > 0
    ensures (forall c: nat :: c < size ==> Kept(c, size)) <==> IsPow2(size)
  {
    if IsPow2(size) {
      forall c: nat | c < size
        ensures Kept(c, size)
      {
        Mask(c, size);
      }
    } else if forall c: nat :: c < size ==> Kept(c, size) {
      FullMaskIsPow2(size);
    }
  }

  /** size & (size - 1) is zero for powers of two and no other size. */
  lemma MaskedSizeIff(size: nat)
    requires size > 0
    ensures And(size, size - 1) == 0 <==> IsPow2(size)
  {
    if IsPow2(size) {
      MaskIsModIff(size);
      assert And(size, size - 1) == size % size;
    } else if And(size, size - 1) == 0 {
      AndPredecessorZero(size);
    }
  }

  /** One instance of the mask law. */
  lemma Mask(x: nat, size: nat)
    requires size > 0 && IsPow2(size)
    ensures And(x, size - 1) == Modular.Cell(x, size)
  {
    MaskIsModIff(size);
    Modular.CellIsMod(x, size);
  }
}
