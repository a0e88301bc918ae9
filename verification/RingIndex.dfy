/** The index arithmetic that every operation of the JACK ring buffer shares. */
module RingIndex {
  import Bits
  import opened Modular

  type byte = b: int | 0 <= b < 256

  /** A size the ring can be created with, and whose mask reduces indices correctly. */
  ghost predicate ValidSize(size: nat) {
    size >= 2 && Bits.IsPow2(size)
  }

  /** `x & size_mask`. */
  function Masked(x: nat, size: nat): nat
    requires size > 0
  {
    Bits.And(x, size - 1)
  }

  /** jack_ringbuffer_read_space, from the two loaded pointers. */
  function ReadSpace(w: nat, r: nat, size: nat): nat
    requires w < size && r < size
  {
    if w > r then w - r else Masked(w - r + size, size)
  }

  /** jack_ringbuffer_write_space, from the two loaded pointers. */
  function WriteSpace(w: nat, r: nat, size: nat): int
    requires w < size && r < size
  {
    if w > r then Masked(r - w + size, size) - 1
    else if w < r then r - w - 1
    else size - 1
  }

  /** How a transfer of `cnt` bytes at `ptr` is cut at the end of the buffer: the second part starts at cell 0. */
  datatype Split = Split(n1: nat, n2: nat)

  function SplitAt(ptr: nat, cnt: nat, size: nat): Split
    requires ptr < size
  {
    if ptr + cnt > size then Split(size - ptr, Masked(ptr + cnt, size)) else Split(cnt, 0)
  }

  /** The cell of the i-th byte of a split transfer. */
  function CellOf(ptr: nat, s: Split, i: nat): nat {
    if i < s.n1 then ptr + i else i - s.n1
  }

  /** Storing a masked pointer. */
  lemma MaskedIsCell(x: nat, size: nat)
    requires ValidSize(size)
    ensures Masked(x, size) == Cell(x, size)
  {
    Bits.Mask(x, size);
  }

  /** How many cells there are from the read pointer up to the write pointer. */
  function Fill(w: nat, r: nat, size: nat): (n: nat)
    requires w < size && r < size
    ensures n < size
  {
    if w >= r then w - r else w - r + size
  }

  /** With both sides idle, one cell is always kept free. */
  lemma SpacesAddUp(w: nat, r: nat, size: nat)
    requires ValidSize(size)
    requires w < size && r < size
    ensures ReadSpace(w, r, size) == Fill(w, r, size)
    ensures 0 <= WriteSpace(w, r, size)
    ensures ReadSpace(w, r, size) + WriteSpace(w, r, size) == size - 1
  {
    if w <= r {
      MaskedIsCell(w - r + size, size);
    } else {
      MaskedIsCell(r - w + size, size);
    }
  }

  /**
   Both pointers at cell 0: the ring is empty exactly when its size is a power of two. For any other size the read
   space is the number of bytes that are there to be read although none was written.
   */
  lemma FreshReadSpaceIff(size: nat)
    requires size > 0
    ensures ReadSpace(0, 0, size) == Bits.And(size, size - 1)
    ensures ReadSpace(0, 0, size) == 0 <==> Bits.IsPow2(size)
  {
    Bits.MaskedSizeIff(size);
  }

  /** Advancing by n from cell 0 arrives at cell n. */
  predicate Advances(n: nat, size: nat)
    requires size > 0
  {
    Masked(0 + n, size) == n
  }

  /** From cell 0, publishing n bytes moves the pointer by n for every n below the size exactly for powers of two. */
  lemma FreshAdvanceIff(size: nat)
    requires size > 0
    ensures (forall n: nat :: n < size ==> Advances(n, size)) <==> Bits.IsPow2(size)
  {
    Bits.MaskKeepsIndicesIff(size);
    assert forall n: nat :: n < size ==> Advances(n, size) == Bits.Kept(n, size);
  }

  /** Size 3: two bytes to be read from the start, and a published byte moves no pointer. */
  lemma SizeThreeMisbehaves()
    ensures ReadSpace(0, 0, 3) == 2 && Masked(0 + 1, 3) == 0 && !Advances(1, 3)
  {
    assert Bits.And(3, 2) == 2 * Bits.And(1, 1);
    assert Bits.And(1, 2) == 2 * Bits.And(0, 1);
  }

  /** From the two pointers, the space functions recover the true fill level. */
  lemma SpacesFromPositions(written: nat, taken: nat, size: nat)
    requires ValidSize(size)
    requires 0 <= written - taken < size
    ensures ReadSpace(Cell(written, size), Cell(taken, size), size) == written - taken
    ensures WriteSpace(Cell(written, size), Cell(taken, size), size) == size - 1 - (written - taken)
  {
    CellDistance(taken, written, size);
    SpacesAddUp(Cell(written, size), Cell(taken, size), size);
  }

  /** The split parts lie inside the buffer and the second one, if any, starts a new lap. */
  predicate Fits(s: Split, ptr: nat, size: nat) {
    && s.n1 + s.n2 < size
    && ptr + s.n1 <= size
    && (s.n2 > 0 ==> ptr + s.n1 == size)
  }

  lemma SplitFits(ptr: nat, cnt: nat, size: nat)
    requires ValidSize(size)
    requires ptr < size && cnt < size
    ensures Fits(SplitAt(ptr, cnt, size), ptr, size)
    ensures SplitAt(ptr, cnt, size).n1 + SplitAt(ptr, cnt, size).n2 == cnt
  {
    MaskedIsCell(ptr + cnt, size);
  }

  /** A split transfer visits the cells of consecutive history positions. */
  lemma CellOfPosition(pos: nat, s: Split, i: nat, size: nat)
    requires size > 0
    requires Fits(s, Cell(pos, size), size)
    requires i < s.n1 + s.n2
    ensures CellOf(Cell(pos, size), s, i) == Cell(pos + i, size)
  {
    CellAdd(pos, i, size);
  }

  /** Storing a masked pointer advances the position. */
  lemma MaskedAdvance(pos: nat, n: nat, size: nat)
    requires ValidSize(size)
    ensures Masked(Cell(pos, size) + n, size) == Cell(pos + n, size)
  {
    MaskedIsCell(Cell(pos, size) + n, size);
    CellAdd(pos, n, size);
  }

  /** The n bytes that start at history position (or cell) `pos` of a ring whose memory is `mem`. */
  function Window(mem: seq<byte>, pos: nat, n: nat): (bytes: seq<byte>)
    requires |mem| > 0
    ensures |bytes| == n
    ensures forall i :: 0 <= i < n ==> bytes[i] == mem[Cell(pos + i, |mem|)]
  {
    if n == 0 then [] else Window(mem, pos, n - 1) + [mem[Cell(pos + n - 1, |mem|)]]
  }
}
