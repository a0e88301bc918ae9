/**
 The JACK ring buffer as one thread sees it: an object with a byte buffer and two pointers, updated in place.

 `Contents()` is the FIFO queue that the buffer stands for. Copying reads and writes, peeks and the zero-copy
 vectors are all specified against it, so that equal contracts make them interchangeable.
 */
module RingBuffer {
  import opened Common
  import opened RingIndex
  import opened Modular
  import Bits

  /** The two stretches of a vector: `len0` bytes from cell `start`, then `len1` bytes from cell 0. */
  datatype Vector = Vector(start: nat, len0: nat, len1: nat)

  /** The sequence with `data` written over it from index `at` on. */
  function Patched<T>(s: seq<T>, at: nat, data: seq<T>): (r: seq<T>)
    requires at + |data| <= |s|
    ensures |r| == |s|
  {
    s[..at] + data + s[at + |data|..]
  }

  /** The largest size for which the source's `1 << power_of_two` stays inside an int. */
  const MAX_SIZE: nat := 0x4000_0000

  class Ringbuffer {
    var buf: array<byte>
    var size: nat
    var writePtr: nat
    var readPtr: nat

    ghost predicate Valid()
      reads this
    {
      && ValidSize(size)
      && size <= buf.Length
      && writePtr < size
      && readPtr < size
    }

    ghost function Memory(): (mem: seq<byte>)
      requires Valid()
      reads this, buf
      ensures |mem| == size
    {
      buf[..size]
    }

    /** The queue: oldest byte first. */
    ghost function Contents(): (queue: seq<byte>)
      requires Valid()
      reads this, buf
      ensures |queue| < size
    {
      Window(Memory(), readPtr, Fill(writePtr, readPtr, size))
    }

    /** jack_ringbuffer_create. */
    constructor (sz: nat)
      requires sz <= MAX_SIZE
      ensures Valid() && fresh(buf)
      ensures Contents() == []
      ensures sz <= size && buf.Length == size
      ensures forall k: nat :: Bits.Pow2(k) >= sz && Bits.Pow2(k) >= 2 ==> size <= Bits.Pow2(k)
      ensures forall i :: 0 <= i < size ==> buf[i] == 0
    {
      var powerOfTwo: nat := 1;
      while Bits.Pow2(powerOfTwo) < sz
        invariant powerOfTwo >= 1
        invariant forall k: nat :: Bits.Pow2(k) >= sz && Bits.Pow2(k) >= 2 ==> powerOfTwo <= k
        decreases sz - Bits.Pow2(powerOfTwo)
      {
        powerOfTwo := powerOfTwo + 1;
      }
      var n := Bits.Pow2(powerOfTwo);
      size := n;
      buf := new byte[n](_ => 0);
      writePtr := 0;
      readPtr := 0;
      new;
      forall k: nat | Bits.Pow2(k) >= sz && Bits.Pow2(k) >= 2
        ensures size <= Bits.Pow2(k)
      {
        Pow2Monotone(powerOfTwo, k);
      }
    }

    /** jack_ringbuffer_read_space. */
    method Available() returns (n: nat)
      requires Valid()
      ensures n == |Contents()|
    {
      SpacesAddUp(writePtr, readPtr, size);
      n := ReadSpace(writePtr, readPtr, size);
    }

    /** jack_ringbuffer_write_space. */
    method Free() returns (n: nat)
      requires Valid()
      ensures |Contents()| + n == size - 1
    {
      SpacesAddUp(writePtr, readPtr, size);
      n := WriteSpace(writePtr, readPtr, size);
    }

    /** The index `x & size_mask`. */
    method Mask(x: nat) returns (cell: nat)
      requires Valid()
      ensures cell == Cell(x, size)
    {
      MaskedIsCell(x, size);
      cell := Masked(x, size);
    }

    /** The two parts of a transfer of `cnt` bytes at `ptr`. */
    method Cut(ptr: nat, cnt: nat) returns (split: Split)
      requires Valid()
      requires ptr < size && cnt < size
      ensures Fits(split, ptr, size) && split.n1 + split.n2 == cnt
    {
      SplitFits(ptr, cnt, size);
      split := SplitAt(ptr, cnt, size);
    }

    /** memcpy out of the buffer. */
    method CopyOut(dest: array<byte>, at: nat, cell: nat, n: nat, ghost data: seq<byte>)
      requires at + n <= dest.Length && cell + n <= buf.Length
      requires dest != buf
      requires data == buf[cell..cell + n]
      modifies dest
      ensures dest[..] == Patched(old(dest[..]), at, data)
    {
      var k := 0;
      while k < n
        invariant 0 <= k <= n
        invariant forall i :: 0 <= i < dest.Length ==>
          dest[i] == if at <= i < at + k then buf[cell + (i - at)] else old(dest[i])
      {
        dest[at + k] := buf[cell + k];
        k := k + 1;
      }
    }

    /** Two memcpys out of the buffer, one behind the other in the destination. */
    method CopyOutTwo(dest: array<byte>, cell1: nat, n1: nat, cell2: nat, n2: nat, ghost data: seq<byte>)
      requires n1 + n2 <= dest.Length && cell1 + n1 <= buf.Length && cell2 + n2 <= buf.Length
      requires dest != buf
      requires data == buf[cell1..cell1 + n1] + buf[cell2..cell2 + n2]
      modifies dest
      ensures dest[..] == Patched(old(dest[..]), 0, data)
    {
      ghost var a, b := buf[cell1..cell1 + n1], buf[cell2..cell2 + n2];
      PatchTwice(dest[..], a, b);
      CopyOut(dest, 0, cell1, n1, a);
      if n2 > 0 {
        CopyOut(dest, n1, cell2, n2, b);
      }
    }

    /** memcpy into the buffer. */
    method CopyIn(src: array<byte>, at: nat, cell: nat, n: nat)
      requires at + n <= src.Length && cell + n <= buf.Length
      requires src != buf
      modifies buf
      ensures forall c :: 0 <= c < buf.Length ==>
        buf[c] == if cell <= c < cell + n then src[at + (c - cell)] else old(buf[c])
    {
      var k := 0;
      while k < n
        invariant 0 <= k <= n
        invariant forall c :: 0 <= c < buf.Length ==>
          buf[c] == if cell <= c < cell + k then src[at + (c - cell)] else old(buf[c])
      {
        buf[cell + k] := src[at + k];
        k := k + 1;
      }
    }

    /** jack_ringbuffer_read_advance. */
    method ReadAdvance(cnt: nat)
      requires Valid()
      modifies this`readPtr
      ensures Valid()
      ensures readPtr == Cell(old(readPtr) + cnt, size)
      ensures cnt <= |old(Contents())| ==> Contents() == old(Contents())[cnt..]
    {
      if cnt <= |Contents()| {
        AdvanceReadPointer(Memory(), writePtr, readPtr, cnt);
      }
      readPtr := Mask(readPtr + cnt);
    }

    /** jack_ringbuffer_write_advance: the bytes that lie in the free cells become part of the queue. */
    method WriteAdvance(cnt: nat)
      requires Valid()
      modifies this`writePtr
      ensures Valid()
      ensures writePtr == Cell(old(writePtr) + cnt, size)
      ensures |old(Contents())| + cnt <= size - 1 ==>
        Contents() == old(Contents()) + Window(Memory(), old(writePtr), cnt)
    {
      if |Contents()| + cnt <= size - 1 {
        AdvanceWritePointer(Memory(), writePtr, readPtr, cnt);
      }
      writePtr := Mask(writePtr + cnt);
    }

    /** One memcpy out of the buffer followed by the store of read_ptr. */
    method TakeFlat(dest: array<byte>, at: nat, n: nat)
      requires Valid() && dest != buf
      requires n <= |Contents()| && readPtr + n <= size && at + n <= dest.Length
      modifies this`readPtr, dest
      ensures Valid()
      ensures Contents() == old(Contents())[n..]
      ensures readPtr == Cell(old(readPtr) + n, size)
      ensures dest[..] == Patched(old(dest[..]), at, old(Contents())[..n])
    {
      WindowFlat(Memory(), readPtr, |Contents()|, n);
      CopyOut(dest, at, readPtr, n, Contents()[..n]);
      ReadAdvance(n);
    }

    /** The second memcpy of a read, if the transfer wraps. */
    method TakeRest(dest: array<byte>, at: nat, n: nat)
      requires Valid() && dest != buf
      requires n <= |Contents()| && readPtr + n <= size && at + n <= dest.Length
      modifies this`readPtr, dest
      ensures Valid()
      ensures Contents() == old(Contents())[n..]
      ensures dest[..] == Patched(old(dest[..]), at, old(Contents())[..n])
    {
      if n > 0 {
        TakeFlat(dest, at, n);
      } else {
        PatchNothing(dest[..], at);
      }
    }

    /** jack_ringbuffer_read. */
    method Read(dest: array<byte>, cnt: nat) returns (n: nat)
      requires Valid() && dest != buf
      requires cnt <= dest.Length
      modifies this`readPtr, dest
      ensures Valid()
      ensures n == Min(cnt, |old(Contents())|)
      ensures Contents() == old(Contents())[n..]
      ensures dest[..] == Patched(old(dest[..]), 0, old(Contents())[..n])
    {
      var avail := Available();
      if avail == 0 {
        PatchNothing(dest[..], 0);
        return 0;
      }
      n := Min(cnt, avail);
      var split := Cut(readPtr, n);
      ReadInTwo(dest[..], Contents(), split.n1, n);
      TakeFlat(dest, 0, split.n1);
      TakeRest(dest, split.n1, split.n2);
    }

    /** The first n bytes of the queue, as the two slices of memory a peek copies. */
    lemma FrontOfQueue(split: Split, second: nat, n: nat)
      requires Valid() && n <= |Contents()|
      requires Fits(split, readPtr, size) && split.n1 + split.n2 == n && second == Cell(readPtr + split.n1, size)
      ensures second + split.n2 <= size
      ensures Contents()[..n] == buf[readPtr..readPtr + split.n1] + buf[second..second + split.n2]
    {
      WindowOfSplit(Memory(), readPtr, split, |Contents()|);
      assert Memory()[readPtr..readPtr + split.n1] == buf[readPtr..readPtr + split.n1];
      assert Memory()[..split.n2] == buf[..split.n2];
      assert split.n2 > 0 ==> second == 0;
      assert split.n2 == 0 ==> buf[second..second + split.n2] == buf[..split.n2];
    }

    /** The two memcpys of a peek, with its private copy of the read pointer. */
    method PeekBytes(dest: array<byte>, n: nat)
      requires Valid() && dest != buf
      requires n <= |Contents()| && n <= dest.Length
      modifies dest
      ensures dest[..] == Patched(old(dest[..]), 0, old(Contents())[..n])
    {
      var tmpReadPtr := readPtr;
      var split := Cut(tmpReadPtr, n);
      tmpReadPtr := Mask(tmpReadPtr + split.n1);
      FrontOfQueue(split, tmpReadPtr, n);
      CopyOutTwo(dest, readPtr, split.n1, tmpReadPtr, split.n2, Contents()[..n]);
    }

    /** jack_ringbuffer_peek: the same bytes as a read, and the queue stays. */
    method Peek(dest: array<byte>, cnt: nat) returns (n: nat)
      requires Valid() && dest != buf
      requires cnt <= dest.Length
      modifies dest
      ensures n == Min(cnt, |Contents()|)
      ensures Contents() == old(Contents())
      ensures dest[..] == Patched(old(dest[..]), 0, old(Contents())[..n])
    {
      var avail := Available();
      if avail == 0 {
        PatchNothing(dest[..], 0);
        return 0;
      }
      n := Min(cnt, avail);
      PeekBytes(dest, n);
    }

    /** A peek followed by an advance over what it returned has the contract of `Read`. */
    method PeekThenAdvance(dest: array<byte>, cnt: nat) returns (n: nat)
      requires Valid() && dest != buf
      requires cnt <= dest.Length
      modifies this`readPtr, dest
      ensures Valid()
      ensures n == Min(cnt, |old(Contents())|)
      ensures Contents() == old(Contents())[n..]
      ensures dest[..] == Patched(old(dest[..]), 0, old(Contents())[..n])
    {
      n := Peek(dest, cnt);
      ReadAdvance(n);
    }

    /** One memcpy into the free cells. */
    method StoreFlat(src: array<byte>, at: nat, n: nat)
      requires Valid() && src != buf
      requires |Contents()| + n <= size - 1 && writePtr + n <= size && at + n <= src.Length
      modifies buf
      ensures Contents() == old(Contents())
      ensures Window(Memory(), writePtr, n) == src[at..at + n]
    {
      ghost var mem := Memory();
      CopyIn(src, at, writePtr, n);
      FreeStoreKeepsQueue(mem, Memory(), writePtr, readPtr, src[at..at + n], n);
      FreeStoreAppends(mem, Memory(), writePtr, src[at..at + n], n);
    }

    /** One memcpy into the buffer followed by the store of write_ptr. */
    method PutFlat(src: array<byte>, at: nat, n: nat)
      requires Valid() && src != buf
      requires |Contents()| + n <= size - 1 && writePtr + n <= size && at + n <= src.Length
      modifies this`writePtr, buf
      ensures Valid()
      ensures Contents() == old(Contents()) + src[at..at + n]
      ensures writePtr == Cell(old(writePtr) + n, size)
    {
      StoreFlat(src, at, n);
      WriteAdvance(n);
    }

    /** The second memcpy of a write, if the transfer wraps. */
    method PutRest(src: array<byte>, at: nat, n: nat)
      requires Valid() && src != buf
      requires |Contents()| + n <= size - 1 && writePtr + n <= size && at + n <= src.Length
      modifies this`writePtr, buf
      ensures Valid()
      ensures Contents() == old(Contents()) + src[at..at + n]
    {
      if n > 0 {
        PutFlat(src, at, n);
      }
    }

    /** The two halves of a write. */
    method PutSplit(src: array<byte>, split: Split)
      requires Valid() && src != buf && Fits(split, writePtr, size)
      requires |Contents()| + split.n1 + split.n2 <= size - 1 && split.n1 + split.n2 <= src.Length
      modifies this`writePtr, buf
      ensures Valid()
      ensures Contents() == old(Contents()) + src[..split.n1 + split.n2]
    {
      SliceJoin(Contents(), src[..], split.n1, split.n1 + split.n2);
      PutFlat(src, 0, split.n1);
      PutRest(src, split.n1, split.n2);
    }

    /** jack_ringbuffer_write. */
    method Write(src: array<byte>, cnt: nat) returns (n: nat)
      requires Valid() && src != buf
      requires cnt <= src.Length
      modifies this`writePtr, buf
      ensures Valid()
      ensures n == Min(cnt, size - 1 - |old(Contents())|)
      ensures Contents() == old(Contents()) + src[..n]
    {
      var free := Free();
      if free == 0 {
        return 0;
      }
      n := Min(cnt, free);
      var split := Cut(writePtr, n);
      PutSplit(src, split);
    }

    /** jack_ringbuffer_get_read_vector: the two stretches spell out the queue. */
    method GetReadVector() returns (vec: Vector)
      requires Valid()
      ensures Fits(Split(vec.len0, vec.len1), vec.start, size)
      ensures Contents() == buf[vec.start..vec.start + vec.len0] + buf[..vec.len1]
    {
      var avail := Available();
      var split := Cut(readPtr, avail);
      vec := Vector(readPtr, split.n1, split.n2);
      WindowOfSplit(Memory(), readPtr, split, avail);
      assert Contents()[..avail] == Contents();
    }

    /** jack_ringbuffer_get_write_vector: the two stretches are all the free cells, in the order they will be read. */
    method GetWriteVector() returns (vec: Vector)
      requires Valid()
      ensures |Contents()| + vec.len0 + vec.len1 == size - 1
      ensures vec.start == writePtr
      ensures Fits(Split(vec.len0, vec.len1), writePtr, size)
      ensures forall i: nat :: i < vec.len0 + vec.len1 ==>
        CellOf(vec.start, Split(vec.len0, vec.len1), i) == Cell(writePtr + i, size)
    {
      var free := Free();
      var split := Cut(writePtr, free);
      vec := Vector(writePtr, split.n1, split.n2);
      forall i: nat | i < free
        ensures CellOf(writePtr, split, i) == Cell(writePtr + i, size)
      {
        CellOfPosition(writePtr, split, i, size);
      }
    }

    /** The client's own loads from the two stretches of a read vector. */
    method CopyThroughVector(dest: array<byte>, vec: Vector, n0: nat, n: nat)
      requires Valid() && dest != buf
      requires Fits(Split(vec.len0, vec.len1), vec.start, size)
      requires n <= dest.Length && n <= vec.len0 + vec.len1 && n0 == Min(n, vec.len0)
      modifies dest
      ensures dest[..] == Patched(old(dest[..]), 0, old(buf[vec.start..vec.start + vec.len0] + buf[..vec.len1])[..n])
    {
      SliceOfTwo(buf[..], vec.start, vec.len0, vec.len1, n0, n);
      CopyOutTwo(dest, vec.start, n0, 0, n - n0, (buf[vec.start..vec.start + vec.len0] + buf[..vec.len1])[..n]);
    }

    /** A client that reads through the vector gets what `Read` gives it: same contract. */
    method ReadThroughVector(dest: array<byte>, cnt: nat) returns (n: nat)
      requires Valid() && dest != buf
      requires cnt <= dest.Length
      modifies this`readPtr, dest
      ensures Valid()
      ensures n == Min(cnt, |old(Contents())|)
      ensures Contents() == old(Contents())[n..]
      ensures dest[..] == Patched(old(dest[..]), 0, old(Contents())[..n])
    {
      var vec := GetReadVector();
      n := Min(cnt, vec.len0 + vec.len1);
      var n0 := Min(n, vec.len0);
      CopyThroughVector(dest, vec, n0, n);
      ReadAdvance(n);
    }

    /** The client's own stores into the two stretches of a write vector. */
    method StoreThroughVector(src: array<byte>, vec: Vector, n: nat, n0: nat)
      requires Valid() && src != buf
      requires Fits(Split(vec.len0, vec.len1), writePtr, size) && vec.start == writePtr
      requires n <= src.Length && n <= vec.len0 + vec.len1 && n0 == Min(n, vec.len0)
      modifies buf
      ensures StoredFree(old(Memory()), Memory(), writePtr, src[..n], n0)
    {
      CopyIn(src, 0, vec.start, n0);
      CopyIn(src, n0, 0, n - n0);
    }

    /** A client that writes through the vector achieves what `Write` achieves: same contract. */
    method WriteThroughVector(src: array<byte>, cnt: nat) returns (n: nat)
      requires Valid() && src != buf
      requires cnt <= src.Length
      modifies this`writePtr, buf
      ensures Valid()
      ensures n == Min(cnt, size - 1 - |old(Contents())|)
      ensures Contents() == old(Contents()) + src[..n]
    {
      var vec := GetWriteVector();
      n := Min(cnt, vec.len0 + vec.len1);
      var n0 := Min(n, vec.len0);
      ghost var mem := Memory();
      StoreThroughVector(src, vec, n, n0);
      FreeStoreKeepsQueue(mem, Memory(), writePtr, readPtr, src[..n], n0);
      FreeStoreAppends(mem, Memory(), writePtr, src[..n], n0);
      WriteAdvance(n);
    }

    /** jack_ringbuffer_reset. */
    method Reset()
      requires Valid()
      modifies this`readPtr, this`writePtr, buf
      ensures Valid()
      ensures Contents() == []
      ensures forall i :: 0 <= i < size ==> buf[i] == 0
    {
      readPtr := 0;
      writePtr := 0;
      forall i | 0 <= i < size {
        buf[i] := 0;
      }
    }

    /**
     jack_ringbuffer_reset_size does not round its argument. What it promises is an empty buffer: there is nothing to
     read, and publishing n bytes moves the write pointer by n, exactly when the caller passed a power of two.
     */
    method ResetSize(sz: nat)
      requires sz <= buf.Length
      modifies this`size, this`readPtr, this`writePtr
      ensures size == sz && readPtr == 0 && writePtr == 0
      ensures sz > 0 ==> (ReadSpace(writePtr, readPtr, size) == 0 <==> Bits.IsPow2(sz))
      ensures sz > 0 ==> ((forall n: nat :: n < size ==> Advances(n, size)) <==> Bits.IsPow2(sz))
      ensures sz >= 2 && Bits.IsPow2(sz) ==> Valid() && Contents() == []
    {
      if sz > 0 {
        FreshReadSpaceIff(sz);
        FreshAdvanceIff(sz);
      }
      size := sz;
      readPtr := 0;
      writePtr := 0;
    }
  }

  // ---------------------------------------------------------------- pointers and positions

  lemma {:induction false} Pow2Monotone(j: nat, k: nat)
    requires j <= k
    ensures Bits.Pow2(j) <= Bits.Pow2(k)
    decreases k - j
  {
    if j < k {
      Pow2Monotone(j, k - 1);
    }
  }

  lemma SliceJoin<T>(queue: seq<T>, s: seq<T>, k: nat, n: nat)
    requires k <= n <= |s|
    ensures queue + s[0..k] + s[k..n] == queue + s[..n]
    ensures s[0..k] == s[..k]
  {
  }

  /** A prefix of two stretches is a prefix of the first, and of the second behind it. */
  lemma SliceOfTwo<T>(s: seq<T>, start: nat, len0: nat, len1: nat, n0: nat, n: nat)
    requires start + len0 <= |s| && len1 <= |s| && n <= len0 + len1 && n0 == Min(n, len0)
    ensures (s[start..start + len0] + s[..len1])[..n] == s[start..start + n0] + s[0..n - n0]
  {
  }

  lemma PatchNothing<T>(s: seq<T>, at: nat)
    requires at <= |s|
    ensures Patched(s, at, []) == s
  {
  }

  lemma PatchTwice<T>(s: seq<T>, a: seq<T>, b: seq<T>)
    requires |a| + |b| <= |s|
    ensures Patched(Patched(s, 0, a), |a|, b) == Patched(s, 0, a + b)
    ensures b == [] ==> Patched(s, 0, a + b) == Patched(s, 0, a)
  {
    assert b == [] ==> a + b == a;
  }

  /** Taking k bytes and then n - k bytes is taking n bytes. */
  lemma ReadInTwo<T>(dest: seq<T>, queue: seq<T>, k: nat, n: nat)
    requires k <= n <= |queue| && n <= |dest|
    ensures queue[k..][n - k..] == queue[n..]
    ensures Patched(Patched(dest, 0, queue[..k]), k, queue[k..][..n - k]) == Patched(dest, 0, queue[..n])
  {
    assert queue[..k] + queue[k..][..n - k] == queue[..n];
    PatchTwice(dest, queue[..k], queue[k..][..n - k]);
  }

  /** The fill level after the read pointer moved by `cnt`. */
  lemma FillAfterRead(w: nat, r: nat, cnt: nat, size: nat)
    requires w < size && r < size && cnt <= Fill(w, r, size)
    ensures Fill(w, Cell(r + cnt, size), size) == Fill(w, r, size) - cnt
  {
  }

  /** The fill level after the write pointer moved by `cnt`. */
  lemma FillAfterWrite(w: nat, r: nat, cnt: nat, size: nat)
    requires w < size && r < size && Fill(w, r, size) + cnt < size
    ensures Fill(Cell(w + cnt, size), r, size) == Fill(w, r, size) + cnt
  {
  }

  /** The write pointer is where the queue ends. */
  lemma QueueEnds(w: nat, r: nat, size: nat)
    requires w < size && r < size
    ensures Cell(r + Fill(w, r, size), size) == w
  {
  }

  lemma AdvanceReadPointer(mem: seq<byte>, w: nat, r: nat, cnt: nat)
    requires w < |mem| && r < |mem| && cnt <= Fill(w, r, |mem|)
    ensures var r' := Cell(r + cnt, |mem|);
      Window(mem, r', Fill(w, r', |mem|)) == Window(mem, r, Fill(w, r, |mem|))[cnt..]
  {
    var rest := Fill(w, r, |mem|) - cnt;
    FillAfterRead(w, r, cnt, |mem|);
    WindowShift(mem, r + cnt, rest);
    WindowDrop(mem, r, cnt, rest);
  }

  lemma WindowDrop(mem: seq<byte>, r: nat, cnt: nat, rest: nat)
    requires |mem| > 0
    ensures Window(mem, r, cnt + rest)[cnt..] == Window(mem, r + cnt, rest)
  {
    WindowSplit(mem, r, cnt, rest);
    ConcatDrop(Window(mem, r, cnt), Window(mem, r + cnt, rest));
  }

  lemma ConcatDrop<T>(a: seq<T>, b: seq<T>)
    ensures (a + b)[|a|..] == b
  {
  }

  lemma AdvanceWritePointer(mem: seq<byte>, w: nat, r: nat, cnt: nat)
    requires w < |mem| && r < |mem| && Fill(w, r, |mem|) + cnt < |mem|
    ensures Window(mem, r, Fill(Cell(w + cnt, |mem|), r, |mem|))
         == Window(mem, r, Fill(w, r, |mem|)) + Window(mem, w, cnt)
  {
    var fill := Fill(w, r, |mem|);
    FillAfterWrite(w, r, cnt, |mem|);
    QueueEnds(w, r, |mem|);
    WindowShift(mem, r + fill, cnt);
    WindowSplit(mem, r, fill, cnt);
  }

  /** A window depends on the cell it starts at only. */
  lemma WindowShift(mem: seq<byte>, pos: nat, n: nat)
    requires |mem| > 0
    ensures Window(mem, Cell(pos, |mem|), n) == Window(mem, pos, n)
  {
    var a, b := Window(mem, Cell(pos, |mem|), n), Window(mem, pos, n);
    forall i | 0 <= i < n
      ensures a[i] == b[i]
    {
      CellAdd(pos, i, |mem|);
    }
  }

  lemma WindowSplit(mem: seq<byte>, pos: nat, k: nat, n: nat)
    requires |mem| > 0
    ensures Window(mem, pos, k + n) == Window(mem, pos, k) + Window(mem, pos + k, n)
  {
    var a, b, c := Window(mem, pos, k + n), Window(mem, pos, k), Window(mem, pos + k, n);
    forall i | 0 <= i < k + n
      ensures a[i] == (b + c)[i]
    {
      if i >= k {
        assert c[i - k] == mem[Cell(pos + k + (i - k), |mem|)];
      }
    }
  }

  /** Up to the end of the buffer, a window is a slice of memory. */
  lemma WindowFlat(mem: seq<byte>, pos: nat, n: nat, k: nat)
    requires |mem| > 0 && k <= n
    requires pos < |mem| && pos + k <= |mem|
    ensures Window(mem, pos, n)[..k] == mem[pos..pos + k]
  {
  }

  /** A window that may run past the end of the buffer is two slices of memory. */
  lemma WindowOfSplit(mem: seq<byte>, pos: nat, split: Split, n: nat)
    requires |mem| > 0 && pos < |mem| && Fits(split, pos, |mem|) && split.n1 + split.n2 <= n
    ensures Window(mem, pos, n)[..split.n1 + split.n2] == mem[pos..pos + split.n1] + mem[..split.n2]
  {
    var a, b := Window(mem, pos, n)[..split.n1 + split.n2], mem[pos..pos + split.n1] + mem[..split.n2];
    forall i | 0 <= i < |a|
      ensures a[i] == b[i]
    {
      CellOfPosition(pos, split, i, |mem|);
    }
  }

  /** The cell of the i-th free position, when the first `n0` of them reach the end of the buffer or suffice. */
  lemma FreeCell(w: nat, n0: nat, i: nat, size: nat)
    requires w < size && i < size
    requires w + n0 <= size && (n0 <= i ==> w + n0 == size)
    ensures Cell(w + i, size) == if i < n0 then w + i else i - n0
  {
  }

  /** A queued position lies outside the first `n` free cells. */
  lemma QueuedIsNotFree(w: nat, r: nat, n: nat, n0: nat, k: nat, size: nat)
    requires w < size && r < size
    requires Fill(w, r, size) + n < size && k < Fill(w, r, size)
    requires n0 <= n && w + n0 <= size && (n0 < n ==> w + n0 == size)
    ensures var c := Cell(r + k, size); !(w <= c < w + n0) && !(c < n - n0)
  {
  }

  /** Memory after stores of `data` into the free cells: `n0` bytes up to the end of the buffer, the rest from cell 0. */
  ghost predicate StoredFree(mem: seq<byte>, mem': seq<byte>, w: nat, data: seq<byte>, n0: nat) {
    && |mem'| == |mem|
    && n0 <= |data| < |mem|
    && w + n0 <= |mem|
    && (n0 < |data| ==> w + n0 == |mem|)
    && forall c :: 0 <= c < |mem| ==>
      mem'[c] == if w <= c < w + n0 then data[c - w] else if c < |data| - n0 then data[n0 + c] else mem[c]
  }

  lemma FreeStoreKeepsQueue(mem: seq<byte>, mem': seq<byte>, w: nat, r: nat, data: seq<byte>, n0: nat)
    requires w < |mem| && r < |mem|
    requires Fill(w, r, |mem|) + |data| < |mem|
    requires StoredFree(mem, mem', w, data, n0)
    ensures Window(mem', r, Fill(w, r, |mem|)) == Window(mem, r, Fill(w, r, |mem|))
  {
    var fill := Fill(w, r, |mem|);
    var a, b := Window(mem', r, fill), Window(mem, r, fill);
    forall k | 0 <= k < fill
      ensures a[k] == b[k]
    {
      QueuedIsNotFree(w, r, |data|, n0, k, |mem|);
    }
  }

  lemma FreeStoreAppends(mem: seq<byte>, mem': seq<byte>, w: nat, data: seq<byte>, n0: nat)
    requires w < |mem|
    requires StoredFree(mem, mem', w, data, n0)
    ensures Window(mem', w, |data|) == data
  {
    var v := Window(mem', w, |data|);
    forall i | 0 <= i < |data|
      ensures v[i] == data[i]
    {
      FreeCell(w, n0, i, |mem|);
    }
  }
}
