/** Every step of the ring buffer's two threads keeps the invariant of memory, pointers and program positions. */
module RingSteps {
  import opened Common
  import opened RingIndex
  import opened Modular
  import opened RingProtocol

  // ---------------------------------------------------------------- what one thread does to the other

  /** The reader's side survives anything that only extends the published history. */
  lemma ReaderUndisturbed(g: Ring, g': Ring, reader: Reader)
    requires RingInv(g) && RingInv(g') && ReaderInv(g, reader)
    requires |g'.buf| == |g.buf| && g'.r == g.r && g'.delivered == g.delivered
    requires g.accepted <= g'.accepted
    ensures ReaderInv(g', reader)
  {
    assert forall a: nat, b: nat {:trigger g'.accepted[a..b]} ::
      a <= b <= |g.accepted| ==> g'.accepted[a..b] == g.accepted[a..b];
  }

  /** The writer's side survives anything that only releases bytes. */
  lemma WriterUndisturbed(g: Ring, g': Ring, writer: Writer)
    requires RingInv(g) && RingInv(g') && WriterInv(g, writer)
    requires g'.buf == g.buf && g'.w == g.w && g'.accepted == g.accepted
    requires |g.delivered| <= |g'.delivered|
    ensures WriterInv(g', writer)
  {
  }

  // ---------------------------------------------------------------- stores and publishes

  /** A store at position `t` leaves every other position less than a lap away alone. */
  lemma StoreElsewhere(buf: seq<byte>, t: nat, b: byte, i: nat)
    requires |buf| > 0
    requires -|buf| < t - i < |buf|
    ensures At(buf[Cell(t, |buf|) := b], i) == if i == t then b else At(buf, i)
  {
    if i < t {
      CellDistinct(i, t, |buf|);
    } else if t < i {
      CellDistinct(t, i, |buf|);
    }
  }

  /** A store beyond the held bytes, or over one of them. */
  lemma HoldsAfterStore(buf: seq<byte>, from: nat, data: seq<byte>, t: nat, b: byte)
    requires |data| <= |buf| && 0 < |buf|
    requires from <= t < from + |buf|
    requires Holds(buf, from, data)
    ensures Holds(buf[Cell(t, |buf|) := b], from, if t < from + |data| then data[t - from := b] else data)
  {
    var buf' := buf[Cell(t, |buf|) := b];
    forall i: nat | from <= i < from + |data|
      ensures At(buf', i) == if i == t then b else data[i - from]
    {
      StoreElsewhere(buf, t, b, i);
    }
  }

  /** Staging one more byte. */
  lemma HoldsSnoc(buf: seq<byte>, from: nat, data: seq<byte>, b: byte)
    requires |data| < |buf|
    requires Holds(buf, from, data)
    ensures Holds(buf[Cell(from + |data|, |buf|) := b], from, data + [b])
  {
    HoldsAfterStore(buf, from, data, from + |data|, b);
  }

  lemma HoldsConcat(buf: seq<byte>, from: nat, data: seq<byte>, more: seq<byte>)
    requires 0 < |buf|
    requires Holds(buf, from, data) && Holds(buf, from + |data|, more)
    ensures Holds(buf, from, data + more)
  {
  }

  /** A byte that is published and not yet released is in memory. */
  lemma Readable(g: Ring, t: nat)
    requires RingInv(g)
    requires |g.delivered| <= t < |g.accepted|
    ensures At(g.buf, t) == g.accepted[t]
  {
    assert g.accepted[|g.delivered|..][t - |g.delivered|] == g.accepted[t];
  }

  /** A store into free cells keeps the readable bytes. */
  lemma FreeStore(g: Ring, t: nat, b: byte)
    requires RingInv(g)
    requires |g.accepted| <= t < |g.delivered| + |g.buf|
    ensures RingInv(g.(buf := g.buf[Cell(t, |g.buf|) := b]))
  {
    HoldsAfterStore(g.buf, |g.delivered|, g.accepted[|g.delivered|..], t, b);
  }

  /** Publishing staged bytes moves them into the readable part. */
  lemma PublishKeepsRing(g: Ring, data: seq<byte>)
    requires RingInv(g)
    requires |g.accepted| + |data| < |g.delivered| + |g.buf|
    requires Holds(g.buf, |g.accepted|, data)
    ensures RingInv(PublishWrite(g, data))
  {
    var g' := PublishWrite(g, data);
    var taken := |g.delivered|;
    MaskedAdvance(|g.accepted|, |data|, |g.buf|);
    HoldsConcat(g.buf, taken, g.accepted[taken..], data);
    AppendSlices(g.accepted, data, taken);
  }

  lemma AppendSlices(s: seq<byte>, more: seq<byte>, k: nat)
    requires k <= |s|
    ensures (s + more)[..k] == s[..k] && (s + more)[k..] == s[k..] + more
  {
  }

  /** Releasing bytes gives their cells to the writer. */
  lemma ReleaseKeepsRing(g: Ring, data: seq<byte>)
    requires RingInv(g)
    requires |g.delivered| + |data| <= |g.accepted|
    requires data == g.accepted[|g.delivered|..|g.delivered| + |data|]
    ensures RingInv(PublishRead(g, data))
  {
    MaskedAdvance(|g.delivered|, |data|, |g.buf|);
    PrefixGrows(g.accepted, |g.delivered|, |data|);
    HoldsLater(g.buf, g.accepted, |g.delivered|, |data|);
  }

  lemma PrefixGrows(s: seq<byte>, k: nat, n: nat)
    requires k + n <= |s|
    ensures s[..k] + s[k..k + n] == s[..k + n]
  {
  }

  lemma HoldsLater(buf: seq<byte>, history: seq<byte>, pos: nat, n: nat)
    requires |buf| > 0 && pos + n <= |history| && Holds(buf, pos, history[pos..])
    ensures Holds(buf, pos + n, history[pos + n..])
  {
    forall t: nat | pos + n <= t < |history|
      ensures At(buf, t) == history[pos + n..][t - (pos + n)]
    {
      assert history[pos..][t - pos] == history[t];
    }
  }

  // ---------------------------------------------------------------- the writer's steps

  /** What a fresh write vector spells out is what memory holds for the next positions. */
  lemma GatherHolds(buf: seq<byte>, pos: nat, split: Split, n: nat)
    requires |buf| > 0 && Fits(split, Cell(pos, |buf|), |buf|) && n == split.n1 + split.n2
    ensures Holds(buf, pos, Gather(buf, Cell(pos, |buf|), split, 0, n))
  {
    var stage := Gather(buf, Cell(pos, |buf|), split, 0, n);
    forall t: nat | pos <= t < pos + n
      ensures At(buf, t) == stage[t - pos]
    {
      CellOfPosition(pos, split, t - pos, |buf|);
    }
  }

  lemma StartVectorInv(g: Ring, free: nat)
    requires RingInv(g)
    requires |g.accepted| + free < |g.delivered| + |g.buf| && free < |g.buf|
    ensures var split := SplitAt(g.w, free, |g.buf|);
      WVectorInv(g, g.w, split, Gather(g.buf, g.w, split, 0, free), 0)
  {
    SplitFits(g.w, free, |g.buf|);
    var split := SplitAt(g.w, free, |g.buf|);
    GatherHolds(g.buf, |g.accepted|, split, free);
    assert Gather(g.buf, g.w, split, 0, free)[0..] == Gather(g.buf, g.w, split, 0, free);
  }

  lemma StartWriteInv(g: Ring, req: WriteRequest)
    requires RingInv(g)
    ensures WriterInv(g, StartWrite(g, req, |g.accepted|))
  {
    SpacesFromPositions(|g.accepted|, |g.delivered|, |g.buf|);
    var free := FreeNow(g);
    match req {
      case Write(src) => SplitFits(g.w, Min(|src|, free), |g.buf|);
      case WriteVector => StartVectorInv(g, free);
      case AskWriteSpace =>
    }
  }

  lemma CopyFirstByteInv(g: Ring, src: seq<byte>, split: Split, k: nat, start: nat)
    requires RingInv(g) && WCopyFirstInv(g, src, split, k, start)
    requires k < split.n1
    ensures var g' := g.(buf := Stored(g.buf, g.w + k, src[k]));
      RingInv(g') && WCopyFirstInv(g', src, split, k + 1, start)
  {
    var written := |g.accepted|;
    CellOfPosition(written, split, k, |g.buf|);
    FreeStore(g, written + k, src[k]);
    HoldsSnoc(g.buf, written, src[..k], src[k]);
    assert src[..k] + [src[k]] == src[..k + 1];
  }

  /** A position that starts a lap: the next positions follow from cell 0 on. */
  lemma CellInLap(t: nat, k: nat, size: nat)
    requires k < size && Cell(t, size) == 0
    ensures Cell(t + k, size) == k
  {
    CellAdd(t, k, size);
  }

  lemma HoldsNext(buf: seq<byte>, from: nat, src: seq<byte>, n1: nat, k: nat)
    requires |buf| > 0 && n1 + k < |src| && k < |buf| && Holds(buf, from, src[n1..n1 + k])
    ensures Holds(buf[Cell(from + k, |buf|) := src[n1 + k]], from, src[n1..n1 + k + 1])
  {
    HoldsSnoc(buf, from, src[n1..n1 + k], src[n1 + k]);
    assert src[n1..n1 + k] + [src[n1 + k]] == src[n1..n1 + k + 1];
  }

  lemma CopySecondByteInv(g: Ring, src: seq<byte>, split: Split, k: nat, start: nat)
    requires RingInv(g) && WCopySecondInv(g, src, split, k, start)
    requires k < split.n2
    ensures var g' := g.(buf := Stored(g.buf, g.w + k, src[split.n1 + k]));
      RingInv(g') && WCopySecondInv(g', src, split, k + 1, start)
  {
    var written, n1 := |g.accepted|, split.n1;
    CellInLap(written, k, |g.buf|);
    FreeStore(g, written + k, src[n1 + k]);
    HoldsNext(g.buf, written, src, n1, k);
  }

  lemma PublishFirstInv(g: Ring, src: seq<byte>, split: Split, start: nat)
    requires RingInv(g) && WCopyFirstInv(g, src, split, split.n1, start)
    ensures var g' := PublishWrite(g, src[..split.n1]);
      && RingInv(g')
      && (if split.n2 > 0 then WCopySecondInv(g', src, split, 0, start) else WReturnedInv(g', src, split.n1, start))
  {
    var g' := PublishWrite(g, src[..split.n1]);
    PublishKeepsRing(g, src[..split.n1]);
    assert g'.accepted[start..] == src[..split.n1];
    MaskedIsCell(g.w + split.n1, |g.buf|);
  }

  lemma HistoryAfterBothHalves(accepted: seq<byte>, src: seq<byte>, start: nat, n1: nat, n2: nat)
    requires start + n1 == |accepted| && n1 + n2 <= |src|
    requires accepted[start..] == src[..n1]
    ensures (accepted + src[n1..n1 + n2])[start..] == src[..n1 + n2]
  {
    assert (accepted + src[n1..n1 + n2])[start..] == accepted[start..] + src[n1..n1 + n2];
    assert src[..n1] + src[n1..n1 + n2] == src[..n1 + n2];
  }

  lemma PublishSecondInv(g: Ring, src: seq<byte>, split: Split, start: nat)
    requires RingInv(g) && WCopySecondInv(g, src, split, split.n2, start)
    ensures var g' := PublishWrite(g, src[split.n1..split.n1 + split.n2]);
      RingInv(g') && WReturnedInv(g', src, split.n1 + split.n2, start)
  {
    PublishKeepsRing(g, src[split.n1..split.n1 + split.n2]);
    HistoryAfterBothHalves(g.accepted, src, start, split.n1, split.n2);
  }

  /** A store at stage position i, seen from the part of the stage that is not published yet. */
  lemma StageAfterStore(buf: seq<byte>, written: nat, stage: seq<byte>, done: nat, i: nat, b: byte)
    requires |buf| > 0 && done <= i < |stage| && |stage| - done < |buf| && done <= written
    requires Holds(buf, written, stage[done..])
    ensures Holds(Stored(buf, Cell(written - done + i, |buf|), b), written, stage[i := b][done..])
  {
    HoldsAfterStore(buf, written, stage[done..], written - done + i, b);
    assert stage[i := b][done..] == stage[done..][i - done := b];
  }

  /** The cell behind a position of an owned write vector that is not published yet. */
  lemma StoreIsFree(g: Ring, ptr: nat, split: Split, stage: seq<byte>, done: nat, i: nat)
    requires RingInv(g) && WVectorInv(g, ptr, split, stage, done)
    requires done <= i < |stage|
    ensures CellOf(ptr, split, i) == Cell(|g.accepted| - done + i, |g.buf|)
    ensures |g.accepted| <= |g.accepted| - done + i < |g.delivered| + |g.buf|
    ensures |stage| - done < |g.buf|
  {
    CellOfPosition(|g.accepted| - done, split, i, |g.buf|);
  }

  lemma VectorStoreInv(g: Ring, ptr: nat, split: Split, stage: seq<byte>, done: nat, i: nat, b: byte)
    requires RingInv(g) && WVectorInv(g, ptr, split, stage, done)
    requires done <= i < |stage|
    ensures var g' := g.(buf := Stored(g.buf, CellOf(ptr, split, i), b));
      RingInv(g') && WVectorInv(g', ptr, split, stage[i := b], done)
  {
    StoreIsFree(g, ptr, split, stage, done, i);
    FreeStore(g, |g.accepted| - done + i, b);
    StageAfterStore(g.buf, |g.accepted|, stage, done, i, b);
  }

  lemma VectorAdvanceInv(g: Ring, ptr: nat, split: Split, stage: seq<byte>, done: nat, n: nat)
    requires RingInv(g) && WVectorInv(g, ptr, split, stage, done)
    requires done + n <= |stage|
    ensures var g' := PublishWrite(g, stage[done..done + n]);
      RingInv(g') && WVectorInv(g', ptr, split, stage, done + n)
  {
    PublishKeepsRing(g, stage[done..done + n]);
  }

  /** What a writer step leaves alone. */
  ghost predicate WriterFrame(g: Ring, g': Ring) {
    |g'.buf| == |g.buf| && g'.r == g.r && g'.delivered == g.delivered && g.accepted <= g'.accepted
  }

  lemma CopyFirstStepInv(g: Ring, src: seq<byte>, split: Split, k: nat, start: nat, step: WriterStep)
    requires RingInv(g) && WCopyFirstInv(g, src, split, k, start)
    requires CopyFirstNext(g, src, split, k, start, step).Some?
    ensures var (g', writer') := CopyFirstNext(g, src, split, k, start, step).value;
      RingInv(g') && WriterInv(g', writer') && WriterFrame(g, g')
  {
    if step.WCopyByte? {
      CopyFirstByteInv(g, src, split, k, start);
    } else {
      PublishFirstInv(g, src, split, start);
    }
  }

  lemma CopySecondStepInv(g: Ring, src: seq<byte>, split: Split, k: nat, start: nat, step: WriterStep)
    requires RingInv(g) && WCopySecondInv(g, src, split, k, start)
    requires CopySecondNext(g, src, split, k, start, step).Some?
    ensures var (g', writer') := CopySecondNext(g, src, split, k, start, step).value;
      RingInv(g') && WriterInv(g', writer') && WriterFrame(g, g')
  {
    if step.WCopyByte? {
      CopySecondByteInv(g, src, split, k, start);
    } else {
      assert CopySecondNext(g, src, split, k, start, step).value
          == (PublishWrite(g, src[split.n1..split.n1 + split.n2]), WReturned(src, split.n1 + split.n2, start));
      PublishSecondInv(g, src, split, start);
    }
  }

  lemma WriteVectorStepInv(g: Ring, ptr: nat, split: Split, stage: seq<byte>, done: nat, step: WriterStep)
    requires RingInv(g) && WVectorInv(g, ptr, split, stage, done)
    requires WriteVectorNext(g, ptr, split, stage, done, step).Some?
    ensures var (g', writer') := WriteVectorNext(g, ptr, split, stage, done, step).value;
      RingInv(g') && WriterInv(g', writer') && WriterFrame(g, g')
  {
    match step {
      case WStore(i, b) =>
        assert WriteVectorNext(g, ptr, split, stage, done, step).value
            == (g.(buf := Stored(g.buf, CellOf(ptr, split, i), b)), WVector(ptr, split, stage[i := b], done));
        VectorStoreInv(g, ptr, split, stage, done, i, b);
      case WAdvance(n) =>
        assert WriteVectorNext(g, ptr, split, stage, done, step).value
            == (PublishWrite(g, stage[done..done + n]), WVector(ptr, split, stage, done + n));
        VectorAdvanceInv(g, ptr, split, stage, done, n);
      case WDropVector =>
    }
  }

  lemma WriterStepInv(g: Ring, writer: Writer, step: WriterStep, g': Ring, writer': Writer)
    requires RingInv(g) && WriterInv(g, writer)
    requires WriterNext(g, writer, step) == Some((g', writer'))
    ensures RingInv(g') && WriterInv(g', writer') && WriterFrame(g, g')
  {
    match writer {
      case WReturned(_, _, _) =>
      case WAnswered =>
      case WLoaded(req, _, _) => StartWriteInv(g, req);
      case WCopyFirst(src, split, k, start) => CopyFirstStepInv(g, src, split, k, start, step);
      case WCopySecond(src, split, k, start) => CopySecondStepInv(g, src, split, k, start, step);
      case WVector(ptr, split, stage, done) => WriteVectorStepInv(g, ptr, split, stage, done, step);
    }
  }

  // ---------------------------------------------------------------- the reader's steps

  lemma StartReadInv(g: Ring, req: ReadRequest, w: nat, seen: nat)
    requires RingInv(g)
    requires ReaderInv(g, RLoaded(req, w, seen, |g.delivered|))
    ensures ReaderInv(g, StartRead(g, req, w, |g.delivered|))
  {
    var size := |g.buf|;
    SpacesFromPositions(seen, |g.delivered|, size);
    var avail := ReadSpace(w, g.r, size);
    assert avail == seen - |g.delivered|;
    match req {
      case Read(cnt) => StartCopyInv(g, Min(cnt, avail));
      case Peek(cnt) => StartCopyInv(g, Min(cnt, avail));
      case ReadVector => SplitFits(g.r, avail, size);
      case AskReadSpace =>
    }
  }

  lemma StartCopyInv(g: Ring, n: nat)
    requires RingInv(g) && |g.delivered| + n <= |g.accepted|
    ensures RCopyFirstInv(g, SplitAt(g.r, n, |g.buf|), [], |g.delivered|)
  {
    SplitFits(g.r, n, |g.buf|);
  }

  /** One more byte of the history. */
  lemma CopiedOutNext(g: Ring, dest: seq<byte>, start: nat, b: byte)
    requires CopiedOut(g, dest, start) && start + |dest| < |g.accepted| && b == g.accepted[start + |dest|]
    ensures CopiedOut(g, dest + [b], start)
  {
  }

  lemma ReadFirstByteInv(g: Ring, split: Split, dest: seq<byte>, start: nat)
    requires RingInv(g) && RCopyFirstInv(g, split, dest, start)
    requires |dest| < split.n1
    ensures RCopyFirstInv(g, split, dest + [Loaded(g.buf, g.r + |dest|)], start)
  {
    CellOfPosition(start, split, |dest|, |g.buf|);
    Readable(g, start + |dest|);
    CopiedOutNext(g, dest, start, Loaded(g.buf, g.r + |dest|));
  }

  lemma ReadSecondByteInv(g: Ring, peek: bool, split: Split, ptr: nat, dest: seq<byte>, start: nat)
    requires RingInv(g) && RCopySecondInv(g, peek, split, ptr, dest, start)
    requires |dest| < split.n1 + split.n2
    ensures RCopySecondInv(g, peek, split, ptr, dest + [Loaded(g.buf, ptr + (|dest| - split.n1))], start)
  {
    CellInLap(start + split.n1, |dest| - split.n1, |g.buf|);
    Readable(g, start + |dest|);
    CopiedOutNext(g, dest, start, Loaded(g.buf, ptr + (|dest| - split.n1)));
  }

  lemma ReleaseFirstInv(g: Ring, peek: bool, split: Split, dest: seq<byte>, start: nat)
    requires RingInv(g) && RCopyFirstInv(g, split, dest, start)
    requires |dest| == split.n1
    ensures var g' := if peek then g else PublishRead(g, dest);
      && RingInv(g')
      && (if split.n2 > 0 then RCopySecondInv(g', peek, split, Masked(g.r + split.n1, |g.buf|), dest, start)
          else ReaderInv(g', RReturned(peek, dest, start)))
  {
    if !peek {
      ReleaseKeepsRing(g, dest);
    }
    SecondPartStart(g, split, start);
  }

  lemma SecondPartStart(g: Ring, split: Split, start: nat)
    requires RingInv(g) && start == |g.delivered| && Fits(split, g.r, |g.buf|)
    ensures Masked(g.r + split.n1, |g.buf|) == Cell(start + split.n1, |g.buf|)
    ensures split.n2 > 0 ==> Cell(start + split.n1, |g.buf|) == 0
  {
    MaskedIsCell(g.r + split.n1, |g.buf|);
    CellAdd(start, split.n1, |g.buf|);
  }

  lemma SecondHalfOfCopy(accepted: seq<byte>, dest: seq<byte>, start: nat, n1: nat)
    requires start + |dest| <= |accepted| && dest == accepted[start..start + |dest|] && n1 <= |dest|
    ensures dest[n1..] == accepted[start + n1..start + |dest|]
  {
  }

  lemma ReleaseRestOfCopy(g: Ring, dest: seq<byte>, start: nat, n1: nat)
    requires RingInv(g) && CopiedOut(g, dest, start) && n1 <= |dest| && |g.delivered| == start + n1
    ensures RingInv(PublishRead(g, dest[n1..]))
    ensures |PublishRead(g, dest[n1..]).delivered| == start + |dest|
  {
    SecondHalfOfCopy(g.accepted, dest, start, n1);
    ReleaseKeepsRing(g, dest[n1..]);
  }

  lemma ReleaseSecondInv(g: Ring, peek: bool, split: Split, ptr: nat, dest: seq<byte>, start: nat)
    requires RingInv(g) && RCopySecondInv(g, peek, split, ptr, dest, start)
    requires |dest| == split.n1 + split.n2
    ensures var g' := if peek then g else PublishRead(g, dest[split.n1..]);
      RingInv(g') && ReaderInv(g', RReturned(peek, dest, start))
  {
    if !peek {
      ReleaseRestOfCopy(g, dest, start, split.n1);
    }
  }

  /** Any stretch of an owned read vector holds the history that the reader has not released yet. */
  lemma VectorHoldsHistory(g: Ring, ptr: nat, split: Split, done: nat, from: nat, n: nat)
    requires RingInv(g) && RVectorInv(g, ptr, split, done)
    requires done <= from
    requires from + n <= split.n1 + split.n2
    ensures var base := |g.delivered| - done + from;
      && base + n <= |g.accepted|
      && Gather(g.buf, ptr, split, from, n) == g.accepted[base..base + n]
  {
    var base := |g.delivered| - done;
    var bytes := Gather(g.buf, ptr, split, from, n);
    forall i | 0 <= i < n
      ensures bytes[i] == g.accepted[base + from + i]
    {
      VectorByte(g, ptr, split, done, from, n, i);
    }
  }

  lemma VectorByte(g: Ring, ptr: nat, split: Split, done: nat, from: nat, n: nat, i: nat)
    requires RingInv(g) && RVectorInv(g, ptr, split, done)
    requires done <= from && from + n <= split.n1 + split.n2 && i < n
    ensures Gather(g.buf, ptr, split, from, n)[i] == g.accepted[|g.delivered| - done + from + i]
  {
    var base := |g.delivered| - done;
    CellOfPosition(base, split, from + i, |g.buf|);
    Readable(g, base + (from + i));
  }

  /** What a reader step leaves alone. */
  ghost predicate ReaderFrame(g: Ring, g': Ring) {
    g'.buf == g.buf && g'.w == g.w && g'.accepted == g.accepted && |g.delivered| <= |g'.delivered|
  }

  lemma ReadFirstStepInv(g: Ring, peek: bool, split: Split, dest: seq<byte>, start: nat, step: ReaderStep)
    requires RingInv(g) && RCopyFirstInv(g, split, dest, start)
    requires ReadFirstNext(g, peek, split, dest, start, step).Some?
    ensures var (g', reader') := ReadFirstNext(g, peek, split, dest, start, step).value;
      RingInv(g') && ReaderInv(g', reader') && ReaderFrame(g, g')
  {
    if step.RCopyByte? {
      ReadFirstByteInv(g, split, dest, start);
    } else {
      ReleaseFirstInv(g, peek, split, dest, start);
    }
  }

  lemma ReadSecondStepInv(g: Ring, peek: bool, split: Split, ptr: nat, dest: seq<byte>, start: nat, step: ReaderStep)
    requires RingInv(g) && RCopySecondInv(g, peek, split, ptr, dest, start)
    requires ReadSecondNext(g, peek, split, ptr, dest, start, step).Some?
    ensures var (g', reader') := ReadSecondNext(g, peek, split, ptr, dest, start, step).value;
      RingInv(g') && ReaderInv(g', reader') && ReaderFrame(g, g')
  {
    if step.RCopyByte? {
      ReadSecondByteInv(g, peek, split, ptr, dest, start);
    } else {
      ReleaseSecondInv(g, peek, split, ptr, dest, start);
    }
  }

  lemma ReadVectorStepInv(g: Ring, ptr: nat, split: Split, done: nat, step: ReaderStep)
    requires RingInv(g) && RVectorInv(g, ptr, split, done)
    requires ReadVectorNext(g, ptr, split, done, step).Some?
    ensures var (g', reader') := ReadVectorNext(g, ptr, split, done, step).value;
      RingInv(g') && ReaderInv(g', reader') && ReaderFrame(g, g')
  {
    if step.RAdvance? {
      VectorReleaseInv(g, ptr, split, done, step.n);
    }
  }

  lemma VectorReleaseInv(g: Ring, ptr: nat, split: Split, done: nat, n: nat)
    requires RingInv(g) && RVectorInv(g, ptr, split, done) && done + n <= split.n1 + split.n2
    ensures var g' := PublishRead(g, Gather(g.buf, ptr, split, done, n));
      RingInv(g') && RVectorInv(g', ptr, split, done + n)
  {
    VectorHoldsHistory(g, ptr, split, done, done, n);
    ReleaseKeepsRing(g, Gather(g.buf, ptr, split, done, n));
  }

  lemma ReaderStepInv(g: Ring, reader: Reader, step: ReaderStep, g': Ring, reader': Reader)
    requires RingInv(g) && ReaderInv(g, reader)
    requires ReaderNext(g, reader, step) == Some((g', reader'))
    ensures RingInv(g') && ReaderInv(g', reader') && ReaderFrame(g, g')
  {
    match reader {
      case RReturned(_, _, _) =>
      case RAnswered =>
      case RCalled(_, _) =>
      case RLoaded(req, w, seen, start) => StartReadInv(g, req, w, seen);
      case RCopyFirst(peek, split, dest, start) => ReadFirstStepInv(g, peek, split, dest, start, step);
      case RCopySecond(peek, split, ptr, dest, start) => ReadSecondStepInv(g, peek, split, ptr, dest, start, step);
      case RVector(ptr, split, done) => ReadVectorStepInv(g, ptr, split, done, step);
    }
  }

  // ---------------------------------------------------------------- either thread

  lemma StepInv(s: State, step: Step, t: State)
    requires Inv(s) && PointersInRange(s)
    requires Next(s, step) == Some(t)
    ensures Inv(t)
  {
    match step {
      case WriterMoves(ws) =>
        WriterStepInv(s.ring, s.writer, ws, t.ring, t.writer);
        ReaderUndisturbed(s.ring, t.ring, s.reader);
      case ReaderMoves(rs) =>
        ReaderStepInv(s.ring, s.reader, rs, t.ring, t.reader);
        WriterUndisturbed(s.ring, t.ring, s.writer);
    }
  }
}
