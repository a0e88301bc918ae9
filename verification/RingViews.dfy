/** What the two ring buffer threads know of the free and readable space, and what each of their steps keeps of it. */
module RingViews {
  import opened Common
  import opened RingIndex
  import opened RingProtocol

  // ---------------------------------------------------------------- what a thread knows

  /** The computed space is at least the one at the start of the call and reaches from `base` no further than `limit`. */
  predicate Conservative(v: View, base: nat, limit: int) {
    v.atCall <= v.found && base + v.found <= limit
  }

  /** The last history position the writer may fill before the reader moves on. */
  function WriteLimit(g: Ring): int {
    |g.delivered| + |g.buf| - 1
  }

  predicate WriterViewInv(g: Ring, writer: Writer, v: View) {
    match writer
    case WReturned(src, n, start) => n == Min(|src|, v.found) && Conservative(v, start, WriteLimit(g))
    case WAnswered => Conservative(v, |g.accepted|, WriteLimit(g))
    case WLoaded(req, _, start) => start + v.atCall <= WriteLimit(g)
    case WCopyFirst(src, split, _, start) =>
      split.n1 + split.n2 == Min(|src|, v.found) && Conservative(v, start, WriteLimit(g))
    case WCopySecond(src, split, _, start) =>
      split.n1 + split.n2 == Min(|src|, v.found) && Conservative(v, start, WriteLimit(g))
    case WVector(_, _, stage, done) =>
      |stage| == v.found && done <= |g.accepted| && Conservative(v, |g.accepted| - done, WriteLimit(g))
  }

  predicate ReaderViewInv(g: Ring, reader: Reader, v: View) {
    match reader
    case RReturned(_, dest, start) => |dest| == Min(v.cnt, v.found) && Conservative(v, start, |g.accepted|)
    case RAnswered => Conservative(v, |g.delivered|, |g.accepted|)
    case RCalled(req, start) => v.cnt == Asked(req) && start + v.atCall <= |g.accepted|
    case RLoaded(req, _, seen, start) => v.cnt == Asked(req) && start + v.atCall <= seen
    case RCopyFirst(_, split, _, start) =>
      split.n1 + split.n2 == Min(v.cnt, v.found) && Conservative(v, start, |g.accepted|)
    case RCopySecond(_, split, _, _, start) =>
      split.n1 + split.n2 == Min(v.cnt, v.found) && Conservative(v, start, |g.accepted|)
    case RVector(_, split, done) =>
      split.n1 + split.n2 == v.found && done <= |g.delivered| && Conservative(v, |g.delivered| - done, |g.accepted|)
  }

  ghost predicate ViewsInv(s: State) {
    WriterViewInv(s.ring, s.writer, s.wview) && ReaderViewInv(s.ring, s.reader, s.rview)
  }

  // ---------------------------------------------------------------- one step

  lemma FreeIsTheGap(g: Ring)
    requires RingInv(g)
    ensures |g.accepted| + FreeNow(g) == WriteLimit(g)
  {
    SpacesFromPositions(|g.accepted|, |g.delivered|, |g.buf|);
  }

  /** Both pointers are loaded: the space found is what is free at this moment. */
  lemma WriterLoads(g: Ring, req: WriteRequest, ptr: nat, start: nat, v: View)
    requires RingInv(g) && WriterInv(g, WLoaded(req, ptr, start)) && WriterViewInv(g, WLoaded(req, ptr, start), v)
    ensures WriterViewInv(g, StartWrite(g, req, start), WriterView(g, v, WLoadReadPtr))
  {
    FreeIsTheGap(g);
    var free := FreeNow(g);
    match req {
      case Write(src) => SplitFits(g.w, Min(|src|, free), |g.buf|);
      case WriteVector => SplitFits(g.w, free, |g.buf|);
      case AskWriteSpace =>
    }
  }

  lemma CopyFirstView(g: Ring, src: seq<byte>, split: Split, k: nat, start: nat, v: View, step: WriterStep)
    requires g.w < |g.buf| && g.r < |g.buf| && WriterViewInv(g, WCopyFirst(src, split, k, start), v)
    requires CopyFirstNext(g, src, split, k, start, step).Some?
    ensures var (g', writer') := CopyFirstNext(g, src, split, k, start, step).value;
      WriterViewInv(g', writer', WriterView(g, v, step))
  {
  }

  lemma CopySecondView(g: Ring, src: seq<byte>, split: Split, k: nat, start: nat, v: View, step: WriterStep)
    requires g.w < |g.buf| && g.r < |g.buf| && WriterViewInv(g, WCopySecond(src, split, k, start), v)
    requires CopySecondNext(g, src, split, k, start, step).Some?
    ensures var (g', writer') := CopySecondNext(g, src, split, k, start, step).value;
      WriterViewInv(g', writer', WriterView(g, v, step))
  {
  }

  lemma WriteVectorView(g: Ring, ptr: nat, split: Split, stage: seq<byte>, done: nat, v: View, step: WriterStep)
    requires RingInv(g) && WriterViewInv(g, WVector(ptr, split, stage, done), v)
    requires WriteVectorNext(g, ptr, split, stage, done, step).Some?
    ensures var (g', writer') := WriteVectorNext(g, ptr, split, stage, done, step).value;
      WriterViewInv(g', writer', WriterView(g, v, step))
  {
  }

  lemma ReaderLoads(g: Ring, req: ReadRequest, w: nat, seen: nat, start: nat, v: View)
    requires RingInv(g) && ReaderInv(g, RLoaded(req, w, seen, start)) && ReaderViewInv(g, RLoaded(req, w, seen, start), v)
    ensures ReaderViewInv(g, StartRead(g, req, w, start), ReaderView(g, RLoaded(req, w, seen, start), v, RLoadReadPtr))
  {
    SpacesFromPositions(seen, start, |g.buf|);
    var avail := ReadSpace(w, g.r, |g.buf|);
    SplitFits(g.r, Min(v.cnt, avail), |g.buf|);
    SplitFits(g.r, avail, |g.buf|);
  }

  lemma ReadFirstView(g: Ring, peek: bool, split: Split, dest: seq<byte>, start: nat, v: View, step: ReaderStep)
    requires g.w < |g.buf| && g.r < |g.buf| && ReaderViewInv(g, RCopyFirst(peek, split, dest, start), v)
    requires ReadFirstNext(g, peek, split, dest, start, step).Some?
    ensures var (g', reader') := ReadFirstNext(g, peek, split, dest, start, step).value;
      ReaderViewInv(g', reader', ReaderView(g, RCopyFirst(peek, split, dest, start), v, step))
  {
  }

  lemma ReadSecondView(g: Ring, peek: bool, split: Split, ptr: nat, dest: seq<byte>, start: nat, v: View, step: ReaderStep)
    requires g.w < |g.buf| && g.r < |g.buf| && ReaderViewInv(g, RCopySecond(peek, split, ptr, dest, start), v)
    requires ReadSecondNext(g, peek, split, ptr, dest, start, step).Some?
    ensures var (g', reader') := ReadSecondNext(g, peek, split, ptr, dest, start, step).value;
      ReaderViewInv(g', reader', ReaderView(g, RCopySecond(peek, split, ptr, dest, start), v, step))
  {
  }

  lemma ReadVectorView(g: Ring, ptr: nat, split: Split, done: nat, v: View, step: ReaderStep)
    requires RingInv(g) && ReaderViewInv(g, RVector(ptr, split, done), v)
    requires ReadVectorNext(g, ptr, split, done, step).Some?
    ensures var (g', reader') := ReadVectorNext(g, ptr, split, done, step).value;
      ReaderViewInv(g', reader', ReaderView(g, RVector(ptr, split, done), v, step))
  {
  }
}
