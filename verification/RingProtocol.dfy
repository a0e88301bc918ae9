/**
 The JACK ring buffer under one writer thread and one reader thread that run at the same time.

 Every load of a shared pointer, every byte of a memcpy and every store of a pointer is a step of its own,
 and the steps of the two threads interleave freely (sequentially consistent memory).
 A transfer that wraps publishes its pointer once between the two memcpy halves, as the source does.

 `accepted` is the history of bytes that the writer has published; `delivered` the history of bytes that the
 reader has taken out of memory and released. They grow; nothing in the protocol reads them.
 */
module RingProtocol {
  import opened Common
  import opened RingIndex
  import opened Modular

  // ---------------------------------------------------------------- state

  datatype Ring = Ring(buf: seq<byte>, w: nat, r: nat, accepted: seq<byte>, delivered: seq<byte>)

  /** The last one is jack_ringbuffer_write_space, called by the writer. */
  datatype WriteRequest = Write(src: seq<byte>) | WriteVector | AskWriteSpace

  datatype Writer =
    /** Not inside the ring: the last call returned `n`, having started at history position `start`. */
    | WReturned(src: seq<byte>, n: nat, start: nat)
    /** write_ptr is loaded, read_ptr is not. */
    | WLoaded(req: WriteRequest, ptr: nat, start: nat)
    /** First memcpy: `k` of `split.n1` bytes are in the buffer. */
    | WCopyFirst(src: seq<byte>, split: Split, k: nat, start: nat)
    /** Second memcpy, after the first publish: `k` of `split.n2` bytes are in the buffer. */
    | WCopySecond(src: seq<byte>, split: Split, k: nat, start: nat)
    /** The application owns a write vector; `stage` is what it has put there, `done` bytes are advanced over. */
    | WVector(ptr: nat, split: Split, stage: seq<byte>, done: nat)
    /** write_space has returned; the answer is the `found` of the thread's view. */
    | WAnswered

  /** The last one is jack_ringbuffer_read_space, called by the reader. */
  datatype ReadRequest = Read(cnt: nat) | Peek(cnt: nat) | ReadVector | AskReadSpace

  datatype Reader =
    | RReturned(peek: bool, dest: seq<byte>, start: nat)
    | RCalled(req: ReadRequest, start: nat)
    /** write_ptr is loaded (when `seen` bytes had been published), read_ptr is not. */
    | RLoaded(req: ReadRequest, w: nat, seen: nat, start: nat)
    | RCopyFirst(peek: bool, split: Split, dest: seq<byte>, start: nat)
    | RCopySecond(peek: bool, split: Split, ptr: nat, dest: seq<byte>, start: nat)
    | RVector(ptr: nat, split: Split, done: nat)
    /** read_space has returned; the answer is the `found` of the thread's view. */
    | RAnswered

  /**
   What a thread knows of its current or last call: the bytes it asked for, the true space when the call began, and
   the space that the call computed from its two pointer loads. Only `found` is a value the code has.
   */
  datatype View = View(cnt: nat, atCall: nat, found: nat)

  const NO_VIEW := View(0, 0, 0)

  datatype State = State(ring: Ring, writer: Writer, reader: Reader, wview: View, rview: View)

  ghost predicate Init(s: State) {
    && ValidSize(|s.ring.buf|)
    && s.ring.w == 0 && s.ring.r == 0
    && s.ring.accepted == [] && s.ring.delivered == []
    && s.writer == WReturned([], 0, 0)
    && s.reader == RReturned(false, [], 0)
    && s.wview == NO_VIEW && s.rview == NO_VIEW
  }

  // ---------------------------------------------------------------- steps

  datatype WriterStep =
    | WCall(req: WriteRequest)
    | WLoadReadPtr
    | WCopyByte
    | WPublish
    | WStore(i: nat, b: byte)
    | WAdvance(n: nat)
    | WDropVector

  datatype ReaderStep =
    | RCall(req: ReadRequest)
    | RLoadWritePtr
    | RLoadReadPtr
    | RCopyByte
    | RPublish
    | RAdvance(n: nat)
    | RDropVector

  datatype Step = WriterMoves(ws: WriterStep) | ReaderMoves(rs: ReaderStep)

  predicate PointersInRange(s: State) {
    && s.ring.w < |s.ring.buf| && s.ring.r < |s.ring.buf|
    && (s.reader.RLoaded? ==> s.reader.w < |s.ring.buf|)
  }

  /** A store or load outside the buffer has no meaning here; `RaceFreedom` shows that none is ever made. */
  function Stored(buf: seq<byte>, cell: nat, b: byte): seq<byte> {
    if cell < |buf| then buf[cell := b] else buf
  }

  function Loaded(buf: seq<byte>, cell: nat): byte {
    if cell < |buf| then buf[cell] else 0
  }

  /** The bytes at positions `from .. from + n` of a split transfer. */
  function Gather(buf: seq<byte>, ptr: nat, split: Split, from: nat, n: nat): (bytes: seq<byte>)
    ensures |bytes| == n
    ensures forall i :: 0 <= i < n ==> bytes[i] == Loaded(buf, CellOf(ptr, split, from + i))
  {
    if n == 0 then [] else Gather(buf, ptr, split, from, n - 1) + [Loaded(buf, CellOf(ptr, split, from + n - 1))]
  }

  /** The write space computed from the two pointers as they are. */
  function FreeNow(g: Ring): nat
    requires g.w < |g.buf| && g.r < |g.buf|
  {
    var space := WriteSpace(g.w, g.r, |g.buf|);
    if space < 0 then 0 else space
  }

  /** The write request once both pointers are known. */
  function StartWrite(g: Ring, req: WriteRequest, start: nat): Writer
    requires g.w < |g.buf| && g.r < |g.buf|
  {
    var free := FreeNow(g);
    match req
    case Write(src) =>
      if free == 0 then WReturned(src, 0, start)
      else WCopyFirst(src, SplitAt(g.w, Min(|src|, free), |g.buf|), 0, start)
    case WriteVector =>
      var split := SplitAt(g.w, free, |g.buf|);
      WVector(g.w, split, Gather(g.buf, g.w, split, 0, free), 0)
    case AskWriteSpace => WAnswered
  }

  /** The read request once both pointers are known. */
  function StartRead(g: Ring, req: ReadRequest, w: nat, start: nat): Reader
    requires w < |g.buf| && g.r < |g.buf|
  {
    var avail := ReadSpace(w, g.r, |g.buf|);
    match req
    case Read(cnt) =>
      if avail == 0 then RReturned(false, [], start)
      else RCopyFirst(false, SplitAt(g.r, Min(cnt, avail), |g.buf|), [], start)
    case Peek(cnt) =>
      if avail == 0 then RReturned(true, [], start)
      else RCopyFirst(true, SplitAt(g.r, Min(cnt, avail), |g.buf|), [], start)
    case ReadVector => RVector(g.r, SplitAt(g.r, avail, |g.buf|), 0)
    case AskReadSpace => RAnswered
  }

  /** The writer's store of write_ptr; `data` are the bytes this makes readable. */
  function PublishWrite(g: Ring, data: seq<byte>): Ring
    requires |g.buf| > 0
  {
    g.(w := Masked(g.w + |data|, |g.buf|), accepted := g.accepted + data)
  }

  /** The reader's store of read_ptr; `data` are the bytes this gives back to the writer. */
  function PublishRead(g: Ring, data: seq<byte>): Ring
    requires |g.buf| > 0
  {
    g.(r := Masked(g.r + |data|, |g.buf|), delivered := g.delivered + data)
  }

  function CopyFirstNext(g: Ring, src: seq<byte>, split: Split, k: nat, start: nat, step: WriterStep)
    : Option<(Ring, Writer)>
    requires |g.buf| > 0
  {
    if step.WCopyByte? && k < split.n1 && k < |src| then
      Some((g.(buf := Stored(g.buf, g.w + k, src[k])), WCopyFirst(src, split, k + 1, start)))
    else if step.WPublish? && k == split.n1 <= |src| then
      Some((PublishWrite(g, src[..split.n1]),
            if split.n2 > 0 then WCopySecond(src, split, 0, start) else WReturned(src, split.n1, start)))
    else None
  }

  function CopySecondNext(g: Ring, src: seq<byte>, split: Split, k: nat, start: nat, step: WriterStep)
    : Option<(Ring, Writer)>
    requires |g.buf| > 0
  {
    var n1, n2 := split.n1, split.n2;
    if step.WCopyByte? && k < n2 && n1 + k < |src| then
      Some((g.(buf := Stored(g.buf, g.w + k, src[n1 + k])), WCopySecond(src, split, k + 1, start)))
    else if step.WPublish? && k == n2 && n1 + n2 <= |src| then
      Some((PublishWrite(g, src[n1..n1 + n2]), WReturned(src, n1 + n2, start)))
    else None
  }

  function WriteVectorNext(g: Ring, ptr: nat, split: Split, stage: seq<byte>, done: nat, step: WriterStep)
    : Option<(Ring, Writer)>
    requires |g.buf| > 0
  {
    match step
    case WStore(i, b) =>
      if done <= i < |stage| then
        Some((g.(buf := Stored(g.buf, CellOf(ptr, split, i), b)), WVector(ptr, split, stage[i := b], done)))
      else None
    case WAdvance(n) =>
      if done + n <= |stage| then
        Some((PublishWrite(g, stage[done..done + n]), WVector(ptr, split, stage, done + n)))
      else None
    case WDropVector => Some((g, WReturned([], 0, |g.accepted|)))
    case _ => None
  }

  /** One step of the writer, if it is enabled. */
  function WriterNext(g: Ring, writer: Writer, step: WriterStep): Option<(Ring, Writer)>
    requires g.w < |g.buf| && g.r < |g.buf|
  {
    match writer
    case WReturned(_, _, _) =>
      if step.WCall? then Some((g, WLoaded(step.req, g.w, |g.accepted|))) else None
    case WAnswered =>
      if step.WCall? then Some((g, WLoaded(step.req, g.w, |g.accepted|))) else None
    case WLoaded(req, _, start) =>
      if step.WLoadReadPtr? then Some((g, StartWrite(g, req, start))) else None
    case WCopyFirst(src, split, k, start) => CopyFirstNext(g, src, split, k, start, step)
    case WCopySecond(src, split, k, start) => CopySecondNext(g, src, split, k, start, step)
    case WVector(ptr, split, stage, done) => WriteVectorNext(g, ptr, split, stage, done, step)
  }

  function ReadFirstNext(g: Ring, peek: bool, split: Split, dest: seq<byte>, start: nat, step: ReaderStep)
    : Option<(Ring, Reader)>
    requires |g.buf| > 0
  {
    if step.RCopyByte? && |dest| < split.n1 then
      Some((g, RCopyFirst(peek, split, dest + [Loaded(g.buf, g.r + |dest|)], start)))
    else if step.RPublish? && |dest| == split.n1 then
      Some((if peek then g else PublishRead(g, dest),
            if split.n2 > 0 then RCopySecond(peek, split, Masked(g.r + split.n1, |g.buf|), dest, start)
            else RReturned(peek, dest, start)))
    else None
  }

  function ReadSecondNext(g: Ring, peek: bool, split: Split, ptr: nat, dest: seq<byte>, start: nat, step: ReaderStep)
    : Option<(Ring, Reader)>
    requires |g.buf| > 0
  {
    var n1, n2 := split.n1, split.n2;
    if step.RCopyByte? && n1 <= |dest| < n1 + n2 then
      Some((g, RCopySecond(peek, split, ptr, dest + [Loaded(g.buf, ptr + (|dest| - n1))], start)))
    else if step.RPublish? && |dest| == n1 + n2 then
      Some((if peek then g else PublishRead(g, dest[n1..]), RReturned(peek, dest, start)))
    else None
  }

  function ReadVectorNext(g: Ring, ptr: nat, split: Split, done: nat, step: ReaderStep): Option<(Ring, Reader)>
    requires |g.buf| > 0
  {
    match step
    case RAdvance(n) =>
      if done + n <= split.n1 + split.n2 then
        Some((PublishRead(g, Gather(g.buf, ptr, split, done, n)), RVector(ptr, split, done + n)))
      else None
    case RDropVector => Some((g, RReturned(false, [], |g.delivered|)))
    case _ => None
  }

  /** One step of the reader, if it is enabled. */
  function ReaderNext(g: Ring, reader: Reader, step: ReaderStep): Option<(Ring, Reader)>
    requires g.w < |g.buf| && g.r < |g.buf|
    requires reader.RLoaded? ==> reader.w < |g.buf|
  {
    match reader
    case RReturned(_, _, _) =>
      if step.RCall? then Some((g, RCalled(step.req, |g.delivered|))) else None
    case RAnswered =>
      if step.RCall? then Some((g, RCalled(step.req, |g.delivered|))) else None
    case RCalled(req, start) =>
      if step.RLoadWritePtr? then Some((g, RLoaded(req, g.w, |g.accepted|, start))) else None
    case RLoaded(req, w, seen, start) =>
      if step.RLoadReadPtr? then Some((g, StartRead(g, req, w, start))) else None
    case RCopyFirst(peek, split, dest, start) => ReadFirstNext(g, peek, split, dest, start, step)
    case RCopySecond(peek, split, ptr, dest, start) => ReadSecondNext(g, peek, split, ptr, dest, start, step)
    case RVector(ptr, split, done) => ReadVectorNext(g, ptr, split, done, step)
  }

  /** How a writer step changes what the writer knows. */
  function WriterView(g: Ring, view: View, step: WriterStep): View
    requires g.w < |g.buf| && g.r < |g.buf|
  {
    match step
    case WCall(req) => View(if req.Write? then |req.src| else 0, FreeNow(g), 0)
    case WLoadReadPtr => view.(found := FreeNow(g))
    case WDropVector => NO_VIEW
    case _ => view
  }

  function Asked(req: ReadRequest): nat {
    match req
    case Read(cnt) => cnt
    case Peek(cnt) => cnt
    case _ => 0
  }

  /** How a reader step changes what the reader knows. */
  function ReaderView(g: Ring, reader: Reader, view: View, step: ReaderStep): View
    requires g.w < |g.buf| && g.r < |g.buf|
    requires reader.RLoaded? ==> reader.w < |g.buf|
  {
    match step
    case RCall(req) => View(Asked(req), ReadSpace(g.w, g.r, |g.buf|), 0)
    case RLoadReadPtr => if reader.RLoaded? then view.(found := ReadSpace(reader.w, g.r, |g.buf|)) else view
    case RDropVector => NO_VIEW
    case _ => view
  }

  function Next(s: State, step: Step): Option<State>
    requires PointersInRange(s)
  {
    match step
    case WriterMoves(ws) =>
      var o := WriterNext(s.ring, s.writer, ws);
      if o.None? then None
      else Some(State(o.value.0, o.value.1, s.reader, WriterView(s.ring, s.wview, ws), s.rview))
    case ReaderMoves(rs) =>
      var o := ReaderNext(s.ring, s.reader, rs);
      if o.None? then None
      else Some(State(o.value.0, s.writer, o.value.1, s.wview, ReaderView(s.ring, s.reader, s.rview, rs)))
  }

  ghost predicate Follows(s: State, t: State) {
    PointersInRange(s) && exists step :: Next(s, step) == Some(t)
  }

  /** The k-th state follows from the one before. */
  ghost predicate StepsTo(run: seq<State>, k: int) {
    0 < k < |run| && Follows(run[k - 1], run[k])
  }

  /** The states of one interleaving, from the creation of the ring on. */
  ghost predicate IsRun(run: seq<State>) {
    && |run| > 0
    && Init(run[0])
    && forall k :: 0 < k < |run| ==> StepsTo(run, k)
  }

  // ---------------------------------------------------------------- the invariant

  /** Memory and pointers agree with the two histories. */
  ghost predicate RingInv(g: Ring) {
    var size, written, taken := |g.buf|, |g.accepted|, |g.delivered|;
    && ValidSize(size)
    && taken <= written < taken + size
    && g.w == Cell(written, size)
    && g.r == Cell(taken, size)
    && g.delivered == g.accepted[..taken]
    && Holds(g.buf, taken, g.accepted[taken..])
  }

  /** What memory holds for history position `t`. */
  function At(buf: seq<byte>, t: nat): byte
    requires |buf| > 0
  {
    buf[Cell(t, |buf|)]
  }

  /** The cells of history positions `from ..` hold `data`. */
  ghost predicate Holds(buf: seq<byte>, from: nat, data: seq<byte>)
    requires |buf| > 0
  {
    forall t: nat :: from <= t < from + |data| ==> At(buf, t) == data[t - from]
  }

  ghost predicate WReturnedInv(g: Ring, src: seq<byte>, n: nat, start: nat) {
    n <= |src| && start + n == |g.accepted| && g.accepted[start..] == src[..n]
  }

  ghost predicate WCopyFirstInv(g: Ring, src: seq<byte>, split: Split, k: nat, start: nat)
    requires |g.buf| > 0
  {
    && start == |g.accepted|
    && split.n1 + split.n2 <= |src|
    && Fits(split, g.w, |g.buf|)
    && |g.accepted| + split.n1 + split.n2 < |g.delivered| + |g.buf|
    && k <= split.n1
    && Holds(g.buf, |g.accepted|, src[..k])
  }

  ghost predicate WCopySecondInv(g: Ring, src: seq<byte>, split: Split, k: nat, start: nat)
    requires |g.buf| > 0
  {
    && start + split.n1 == |g.accepted|
    && split.n1 + split.n2 <= |src|
    && g.accepted[start..] == src[..split.n1]
    && g.w == 0
    && |g.accepted| + split.n2 < |g.delivered| + |g.buf|
    && k <= split.n2
    && Holds(g.buf, |g.accepted|, src[split.n1..split.n1 + k])
  }

  ghost predicate WVectorInv(g: Ring, ptr: nat, split: Split, stage: seq<byte>, done: nat)
    requires |g.buf| > 0
  {
    && split.n1 + split.n2 == |stage|
    && done <= |stage|
    && done <= |g.accepted|
    && |g.accepted| - done + |stage| < |g.delivered| + |g.buf|
    && ptr == Cell(|g.accepted| - done, |g.buf|)
    && Fits(split, ptr, |g.buf|)
    && Holds(g.buf, |g.accepted|, stage[done..])
  }

  ghost predicate WriterInv(g: Ring, writer: Writer)
    requires |g.buf| > 0
  {
    match writer
    case WReturned(src, n, start) => WReturnedInv(g, src, n, start)
    case WLoaded(req, ptr, start) => ptr == g.w && start == |g.accepted|
    case WCopyFirst(src, split, k, start) => WCopyFirstInv(g, src, split, k, start)
    case WCopySecond(src, split, k, start) => WCopySecondInv(g, src, split, k, start)
    case WVector(ptr, split, stage, done) => WVectorInv(g, ptr, split, stage, done)
    case WAnswered => true
  }

  /** `dest` is the accepted history from position `start` on. */
  ghost predicate CopiedOut(g: Ring, dest: seq<byte>, start: nat) {
    start + |dest| <= |g.accepted| && dest == g.accepted[start..start + |dest|]
  }

  ghost predicate RCopyFirstInv(g: Ring, split: Split, dest: seq<byte>, start: nat) {
    && start == |g.delivered|
    && Fits(split, g.r, |g.buf|)
    && start + split.n1 + split.n2 <= |g.accepted|
    && |dest| <= split.n1
    && CopiedOut(g, dest, start)
  }

  ghost predicate RCopySecondInv(g: Ring, peek: bool, split: Split, ptr: nat, dest: seq<byte>, start: nat)
    requires |g.buf| > 0
  {
    && |g.delivered| == (if peek then start else start + split.n1)
    && ptr == 0 == Cell(start + split.n1, |g.buf|)
    && split.n2 < |g.buf|
    && start + split.n1 + split.n2 <= |g.accepted|
    && split.n1 <= |dest| <= split.n1 + split.n2
    && CopiedOut(g, dest, start)
  }

  ghost predicate RVectorInv(g: Ring, ptr: nat, split: Split, done: nat)
    requires |g.buf| > 0
  {
    && done <= split.n1 + split.n2
    && done <= |g.delivered|
    && |g.delivered| - done + split.n1 + split.n2 <= |g.accepted|
    && ptr == Cell(|g.delivered| - done, |g.buf|)
    && Fits(split, ptr, |g.buf|)
  }

  ghost predicate ReaderInv(g: Ring, reader: Reader)
    requires |g.buf| > 0
  {
    var written, taken := |g.accepted|, |g.delivered|;
    match reader
    case RReturned(peek, dest, start) =>
      CopiedOut(g, dest, start) && taken == (if peek then start else start + |dest|)
    case RCalled(req, start) => start == taken
    case RLoaded(req, w, seen, start) => start == taken && taken <= seen <= written && w == Cell(seen, |g.buf|)
    case RCopyFirst(peek, split, dest, start) => RCopyFirstInv(g, split, dest, start)
    case RCopySecond(peek, split, ptr, dest, start) => RCopySecondInv(g, peek, split, ptr, dest, start)
    case RVector(ptr, split, done) => RVectorInv(g, ptr, split, done)
    case RAnswered => true
  }

  ghost predicate Inv(s: State) {
    RingInv(s.ring) && WriterInv(s.ring, s.writer) && ReaderInv(s.ring, s.reader)
  }
}
