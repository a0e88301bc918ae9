/**
 What the calls of the two ring buffer threads return, in every interleaving: the spaces they compute are out of date by
 the time they are used, but only ever too small; the counts they return are the ones those spaces allow; and a call
 ends after a bounded number of its own steps, whatever the other thread does.
 */
module RingCalls {
  import opened Common
  import opened RingIndex
  import opened RingProtocol
  import opened RingSteps
  import opened RingRuns
  import opened RingViews

  lemma WriterViewStep(g: Ring, writer: Writer, v: View, step: WriterStep, g': Ring, writer': Writer)
    requires RingInv(g) && WriterInv(g, writer) && WriterViewInv(g, writer, v)
    requires WriterNext(g, writer, step) == Some((g', writer'))
    ensures WriterViewInv(g', writer', WriterView(g, v, step))
  {
    match writer {
      case WReturned(_, _, _) => FreeIsTheGap(g);
      case WAnswered => FreeIsTheGap(g);
      case WLoaded(req, ptr, start) => WriterLoads(g, req, ptr, start, v);
      case WCopyFirst(src, split, k, start) => CopyFirstView(g, src, split, k, start, v, step);
      case WCopySecond(src, split, k, start) => CopySecondView(g, src, split, k, start, v, step);
      case WVector(ptr, split, stage, done) => WriteVectorView(g, ptr, split, stage, done, v, step);
    }
  }

  lemma ReaderViewStep(g: Ring, reader: Reader, v: View, step: ReaderStep, g': Ring, reader': Reader)
    requires RingInv(g) && ReaderInv(g, reader) && ReaderViewInv(g, reader, v)
    requires ReaderNext(g, reader, step) == Some((g', reader'))
    ensures ReaderViewInv(g', reader', ReaderView(g, reader, v, step))
  {
    match reader {
      case RReturned(_, _, _) => SpacesFromPositions(|g.accepted|, |g.delivered|, |g.buf|);
      case RAnswered => SpacesFromPositions(|g.accepted|, |g.delivered|, |g.buf|);
      case RCalled(_, _) =>
      case RLoaded(req, w, seen, start) => ReaderLoads(g, req, w, seen, start, v);
      case RCopyFirst(peek, split, dest, start) => ReadFirstView(g, peek, split, dest, start, v, step);
      case RCopySecond(peek, split, ptr, dest, start) => ReadSecondView(g, peek, split, ptr, dest, start, v, step);
      case RVector(ptr, split, done) => ReadVectorView(g, ptr, split, done, v, step);
    }
  }

  lemma StepViews(s: State, step: Step, t: State)
    requires Inv(s) && ViewsInv(s) && PointersInRange(s)
    requires Next(s, step) == Some(t)
    ensures ViewsInv(t)
  {
    match step {
      case WriterMoves(ws) =>
        WriterStepInv(s.ring, s.writer, ws, t.ring, t.writer);
        WriterViewStep(s.ring, s.writer, s.wview, ws, t.ring, t.writer);
      case ReaderMoves(rs) =>
        ReaderStepInv(s.ring, s.reader, rs, t.ring, t.reader);
        ReaderViewStep(s.ring, s.reader, s.rview, rs, t.ring, t.reader);
    }
  }

  lemma FollowsViews(s: State, t: State)
    requires Inv(s) && ViewsInv(s) && Follows(s, t)
    ensures ViewsInv(t)
  {
    var step :| Next(s, step) == Some(t);
    StepViews(s, step, t);
  }

  lemma {:induction false} RunViews(run: seq<State>, k: nat)
    requires IsRun(run) && k < |run|
    ensures ViewsInv(run[k])
  {
    if k > 0 {
      RunViews(run, k - 1);
      RunInv(run, k - 1);
      assert StepsTo(run, k);
      FollowsViews(run[k - 1], run[k]);
    }
  }

  // ---------------------------------------------------------------- computed spaces and returned counts

  /** The bytes of its transfer that the writer has not published yet. */
  function WriterPending(writer: Writer): int {
    match writer
    case WCopyFirst(_, split, _, _) => split.n1 + split.n2
    case WCopySecond(_, split, _, _) => split.n2
    case WVector(_, _, stage, done) => |stage| - done
    case _ => 0
  }

  /** The bytes of its transfer that the reader has not released yet. */
  function ReaderPending(reader: Reader): int {
    match reader
    case RCopyFirst(_, split, _, _) => split.n1 + split.n2
    case RCopySecond(peek, split, _, _, _) => if peek then split.n1 + split.n2 else split.n2
    case RVector(_, split, done) => split.n1 + split.n2 - done
    case _ => 0
  }

  /**
   In every interleaving, the answer of write_space and of read_space lies between the true space when it was asked for
   and the true space now, for as long as the thread keeps it; and no transfer in progress relies on more than there is.
   */
  lemma ConservativeViews(run: seq<State>, k: nat)
    requires IsRun(run) && k < |run|
    ensures PointersInRange(run[k])
    ensures var s := run[k];
      && (s.writer.WAnswered? ==>
            s.wview.atCall <= s.wview.found <= WriteSpace(s.ring.w, s.ring.r, |s.ring.buf|))
      && (s.reader.RAnswered? ==>
            s.rview.atCall <= s.rview.found <= ReadSpace(s.ring.w, s.ring.r, |s.ring.buf|))
      && WriterPending(s.writer) <= WriteSpace(s.ring.w, s.ring.r, |s.ring.buf|)
      && ReaderPending(s.reader) <= ReadSpace(s.ring.w, s.ring.r, |s.ring.buf|)
  {
    RunInv(run, k);
    RunViews(run, k);
    SpacesFromPositions(|run[k].ring.accepted|, |run[k].ring.delivered|, |run[k].ring.buf|);
  }

  /**
   In every interleaving, a call returns the minimum of what was asked for and the space it found, and that space was
   at least the true one when the call began and at most the true one now, before this call's own transfer.
   */
  lemma CountsFollowTheViews(run: seq<State>, k: nat)
    requires IsRun(run) && k < |run|
    ensures PointersInRange(run[k])
    ensures var s := run[k]; s.writer.WReturned? ==>
      && s.writer.n == Min(|s.writer.src|, s.wview.found)
      && s.wview.atCall <= s.wview.found <= WriteSpace(s.ring.w, s.ring.r, |s.ring.buf|) + s.writer.n
    ensures var s := run[k]; s.reader.RReturned? ==>
      && |s.reader.dest| == Min(s.rview.cnt, s.rview.found)
      && s.rview.atCall <= s.rview.found
           <= ReadSpace(s.ring.w, s.ring.r, |s.ring.buf|) + (if s.reader.peek then 0 else |s.reader.dest|)
  {
    RunInv(run, k);
    RunViews(run, k);
    SpacesFromPositions(|run[k].ring.accepted|, |run[k].ring.delivered|, |run[k].ring.buf|);
  }

  /** What a completed call tells its caller, in every interleaving. */
  lemma CallsReturnTheHistory(run: seq<State>, k: nat)
    requires IsRun(run) && k < |run|
    ensures var s := run[k]; s.writer.WReturned? ==>
      // write() took exactly the first n bytes of its source, as many as fit the space it found
      && s.writer.n == Min(|s.writer.src|, s.wview.found) && s.writer.start <= |s.ring.accepted|
      && s.ring.accepted == s.ring.accepted[..s.writer.start] + s.writer.src[..s.writer.n]
    ensures var s := run[k]; s.reader.RReturned? ==>
      // read() and peek() copied out the accepted history at their starting position; read() released it
      && |s.reader.dest| == Min(s.rview.cnt, s.rview.found)
      && s.reader.start + |s.reader.dest| <= |s.ring.accepted|
      && s.reader.dest == s.ring.accepted[s.reader.start..s.reader.start + |s.reader.dest|]
      && |s.ring.delivered| == (if s.reader.peek then s.reader.start else s.reader.start + |s.reader.dest|)
    ensures var s := run[k]; s.reader.RVector? ==>
      // every byte of an owned read vector that is not advanced over yet is accepted history
      forall i: nat :: s.reader.done <= i < s.reader.split.n1 + s.reader.split.n2 ==>
        && |s.ring.delivered| - s.reader.done + i < |s.ring.accepted|
        && Loaded(s.ring.buf, CellOf(s.reader.ptr, s.reader.split, i))
             == s.ring.accepted[|s.ring.delivered| - s.reader.done + i]
  {
    RunInv(run, k);
    CountsFollowTheViews(run, k);
    var s := run[k];
    if s.reader.RVector? {
      forall i: nat | s.reader.done <= i < s.reader.split.n1 + s.reader.split.n2
        ensures |s.ring.delivered| - s.reader.done + i < |s.ring.accepted|
        ensures Loaded(s.ring.buf, CellOf(s.reader.ptr, s.reader.split, i))
             == s.ring.accepted[|s.ring.delivered| - s.reader.done + i]
      {
        VectorHoldsHistory(s.ring, s.reader.ptr, s.reader.split, s.reader.done, i, 1);
        assert Gather(s.ring.buf, s.reader.ptr, s.reader.split, i, 1)[0]
            == Loaded(s.ring.buf, CellOf(s.reader.ptr, s.reader.split, i + 0));
      }
    }
  }

  // ---------------------------------------------------------------- progress

  /** Neither thread ever waits for the other: inside a call there is always a next step. */
  lemma NonBlocking(run: seq<State>, k: nat)
    requires IsRun(run) && k < |run|
    ensures PointersInRange(run[k])
    ensures exists ws :: WriterNext(run[k].ring, run[k].writer, ws).Some?
    ensures exists rs :: ReaderNext(run[k].ring, run[k].reader, rs).Some?
  {
    RunInv(run, k);
    WriterHasStep(run[k]);
    ReaderHasStep(run[k]);
  }

  lemma WriterHasStep(s: State)
    requires Inv(s) && PointersInRange(s)
    ensures exists ws :: WriterNext(s.ring, s.writer, ws).Some?
  {
    var ws := match s.writer
      case WReturned(_, _, _) => WCall(WriteVector)
      case WAnswered => WCall(WriteVector)
      case WLoaded(_, _, _) => WLoadReadPtr
      case WCopyFirst(_, split, k, _) => if k < split.n1 then WCopyByte else WPublish
      case WCopySecond(_, split, k, _) => if k < split.n2 then WCopyByte else WPublish
      case WVector(_, _, _, _) => WDropVector;
    assert WriterNext(s.ring, s.writer, ws).Some?;
  }

  lemma ReaderHasStep(s: State)
    requires Inv(s) && PointersInRange(s)
    ensures exists rs :: ReaderNext(s.ring, s.reader, rs).Some?
  {
    var rs := match s.reader
      case RReturned(_, _, _) => RCall(ReadVector)
      case RAnswered => RCall(ReadVector)
      case RCalled(_, _) => RLoadWritePtr
      case RLoaded(_, _, _, _) => RLoadReadPtr
      case RCopyFirst(_, split, dest, _) => if |dest| < split.n1 then RCopyByte else RPublish
      case RCopySecond(_, split, _, dest, _) => if |dest| < split.n1 + split.n2 then RCopyByte else RPublish
      case RVector(_, _, _) => RDropVector;
    assert ReaderNext(s.ring, s.reader, rs).Some?;
  }

  predicate WriterInCall(writer: Writer) {
    writer.WLoaded? || writer.WCopyFirst? || writer.WCopySecond?
  }

  predicate ReaderInCall(reader: Reader) {
    reader.RCalled? || reader.RLoaded? || reader.RCopyFirst? || reader.RCopySecond?
  }

  /** The steps of a split transfer of which `k` bytes are copied: the bytes, and a publish behind each half. */
  function TransferLeft(split: Split, k: nat): int {
    split.n1 - k + 1 + (if split.n2 > 0 then split.n2 + 1 else 0)
  }

  /** How many steps of its own the writer needs at most to finish its call. */
  function WriterLeft(writer: Writer): int {
    match writer
    case WLoaded(req, _, _) => if req.Write? then |req.src| + 3 else 1
    case WCopyFirst(_, split, k, _) => TransferLeft(split, k)
    case WCopySecond(_, split, k, _) => split.n2 - k + 1
    case _ => 0
  }

  /** How many steps of its own the reader needs at most to finish its call. */
  function ReaderLeft(reader: Reader): int {
    match reader
    case RCalled(req, _) => if req.Read? || req.Peek? then req.cnt + 4 else 2
    case RLoaded(req, _, _, _) => if req.Read? || req.Peek? then req.cnt + 3 else 1
    case RCopyFirst(_, split, dest, _) => TransferLeft(split, |dest|)
    case RCopySecond(_, split, _, dest, _) => split.n1 + split.n2 - |dest| + 1
    case _ => 0
  }

  lemma WriterProgress(g: Ring, writer: Writer, step: WriterStep, g': Ring, writer': Writer)
    requires RingInv(g) && WriterInv(g, writer) && WriterInCall(writer)
    requires WriterNext(g, writer, step) == Some((g', writer'))
    ensures WriterLeft(writer') < WriterLeft(writer)
  {
    if writer.WLoaded? && writer.req.Write? {
      FreeIsTheGap(g);
      SplitFits(g.w, Min(|writer.req.src|, FreeNow(g)), |g.buf|);
    }
  }

  lemma ReaderLoadProgress(g: Ring, req: ReadRequest, w: nat, seen: nat, start: nat)
    requires RingInv(g) && ReaderInv(g, RLoaded(req, w, seen, start))
    ensures ReaderLeft(StartRead(g, req, w, start)) < ReaderLeft(RLoaded(req, w, seen, start))
  {
    SpacesFromPositions(seen, start, |g.buf|);
    SplitFits(g.r, Min(Asked(req), ReadSpace(w, g.r, |g.buf|)), |g.buf|);
  }

  lemma ReaderProgress(g: Ring, reader: Reader, step: ReaderStep, g': Ring, reader': Reader)
    requires RingInv(g) && ReaderInv(g, reader) && ReaderInCall(reader)
    requires ReaderNext(g, reader, step) == Some((g', reader'))
    ensures ReaderLeft(reader') < ReaderLeft(reader)
  {
    match reader {
      case RCalled(_, _) =>
      case RLoaded(req, w, seen, start) => ReaderLoadProgress(g, req, w, seen, start);
      case RCopyFirst(peek, split, dest, start) =>
        assert ReadFirstNext(g, peek, split, dest, start, step) == Some((g', reader'));
      case RCopySecond(peek, split, ptr, dest, start) =>
        assert ReadSecondNext(g, peek, split, ptr, dest, start, step) == Some((g', reader'));
    }
  }

  /** From one state to the next, a thread inside a call stands still or comes closer to its end. */
  predicate WriterAdvances(a: Writer, b: Writer) {
    WriterInCall(a) && (b == a || WriterLeft(b) < WriterLeft(a))
  }

  predicate ReaderAdvances(a: Reader, b: Reader) {
    ReaderInCall(a) && (b == a || ReaderLeft(b) < ReaderLeft(a))
  }

  lemma StepProgress(s: State, step: Step, t: State)
    requires Inv(s) && PointersInRange(s) && Next(s, step) == Some(t)
    ensures WriterInCall(s.writer) ==> WriterAdvances(s.writer, t.writer)
    ensures ReaderInCall(s.reader) ==> ReaderAdvances(s.reader, t.reader)
  {
    match step {
      case WriterMoves(ws) =>
        if WriterInCall(s.writer) {
          WriterProgress(s.ring, s.writer, ws, t.ring, t.writer);
        }
      case ReaderMoves(rs) =>
        if ReaderInCall(s.reader) {
          ReaderProgress(s.ring, s.reader, rs, t.ring, t.reader);
        }
    }
  }

  lemma FollowsProgress(s: State, t: State)
    requires Inv(s) && Follows(s, t)
    ensures WriterInCall(s.writer) ==> WriterAdvances(s.writer, t.writer)
    ensures ReaderInCall(s.reader) ==> ReaderAdvances(s.reader, t.reader)
  {
    var step :| Next(s, step) == Some(t);
    StepProgress(s, step, t);
  }

  lemma RunProgress(run: seq<State>, k: nat)
    requires IsRun(run) && 0 < k < |run|
    ensures WriterInCall(run[k - 1].writer) ==> WriterAdvances(run[k - 1].writer, run[k].writer)
    ensures ReaderInCall(run[k - 1].reader) ==> ReaderAdvances(run[k - 1].reader, run[k].reader)
  {
    RunInv(run, k - 1);
    assert StepsTo(run, k);
    FollowsProgress(run[k - 1], run[k]);
  }

  /** How often a thread moved, from the states it went through. */
  function Moves<T(==)>(states: seq<T>): nat {
    if |states| <= 1 then 0
    else
      var n := |states| - 1;
      Moves(states[..n]) + if states[n] != states[n - 1] then 1 else 0
  }

  lemma {:induction false} WriterMovesBounded(ws: seq<Writer>)
    requires ws != [] && forall i {:trigger ws[i]} :: 0 <= i < |ws| - 1 ==> WriterAdvances(ws[i], ws[i + 1])
    ensures Moves(ws) + WriterLeft(ws[|ws| - 1]) <= WriterLeft(ws[0])
  {
    var n := |ws| - 1;
    if n > 0 {
      var front := ws[..n];
      assert WriterAdvances(ws[n - 1], ws[n]);
      assert front[n - 1] == ws[n - 1] && front[0] == ws[0];
      WriterMovesBounded(front);
    }
  }

  lemma {:induction false} ReaderMovesBounded(rs: seq<Reader>)
    requires rs != [] && forall i {:trigger rs[i]} :: 0 <= i < |rs| - 1 ==> ReaderAdvances(rs[i], rs[i + 1])
    ensures Moves(rs) + ReaderLeft(rs[|rs| - 1]) <= ReaderLeft(rs[0])
  {
    var n := |rs| - 1;
    if n > 0 {
      var front := rs[..n];
      assert ReaderAdvances(rs[n - 1], rs[n]);
      assert front[n - 1] == rs[n - 1] && front[0] == rs[0];
      ReaderMovesBounded(front);
    }
  }

  /** What the writer goes through from state j to state k of a run. */
  function Writers(run: seq<State>, j: nat, k: nat): (ws: seq<Writer>)
    requires j <= k < |run|
    ensures |ws| == k - j + 1
    ensures forall i :: 0 <= i <= k - j ==> ws[i] == run[j + i].writer
    decreases k - j
  {
    if j == k then [run[k].writer] else Writers(run, j, k - 1) + [run[k].writer]
  }

  function Readers(run: seq<State>, j: nat, k: nat): (rs: seq<Reader>)
    requires j <= k < |run|
    ensures |rs| == k - j + 1
    ensures forall i :: 0 <= i <= k - j ==> rs[i] == run[j + i].reader
    decreases k - j
  {
    if j == k then [run[k].reader] else Readers(run, j, k - 1) + [run[k].reader]
  }

  /** Inside a call in every state, except perhaps the last. */
  predicate AllWriting(ws: seq<Writer>) {
    forall i :: 0 <= i < |ws| - 1 ==> WriterInCall(ws[i])
  }

  predicate AllReading(rs: seq<Reader>) {
    forall i :: 0 <= i < |rs| - 1 ==> ReaderInCall(rs[i])
  }

  lemma WriterAdvancesAt(run: seq<State>, j: nat, k: nat, i: nat)
    requires IsRun(run) && j <= k < |run| && AllWriting(Writers(run, j, k)) && i < k - j
    ensures WriterAdvances(Writers(run, j, k)[i], Writers(run, j, k)[i + 1])
  {
    RunProgress(run, j + i + 1);
  }

  lemma ReaderAdvancesAt(run: seq<State>, j: nat, k: nat, i: nat)
    requires IsRun(run) && j <= k < |run| && AllReading(Readers(run, j, k)) && i < k - j
    ensures ReaderAdvances(Readers(run, j, k)[i], Readers(run, j, k)[i + 1])
  {
    RunProgress(run, j + i + 1);
  }

  /**
   Wait-freedom: in every interleaving, however often the reader moves, the writer spends at most WriterLeft steps of
   its own in a call, which for a write is three more than the bytes of its source.
   */
  lemma WriterIsWaitFree(run: seq<State>, j: nat, k: nat)
    requires IsRun(run) && j <= k < |run| && AllWriting(Writers(run, j, k))
    ensures Moves(Writers(run, j, k)) + WriterLeft(run[k].writer) <= WriterLeft(run[j].writer)
  {
    var ws := Writers(run, j, k);
    forall i | 0 <= i < |ws| - 1
      ensures WriterAdvances(ws[i], ws[i + 1])
    {
      WriterAdvancesAt(run, j, k, i);
    }
    WriterMovesBounded(ws);
    assert ws[0] == run[j + 0].writer && ws[k - j] == run[j + (k - j)].writer;
  }

  /** The same for the reader; a read or peek takes at most four more steps of its own than the bytes it asks for. */
  lemma ReaderIsWaitFree(run: seq<State>, j: nat, k: nat)
    requires IsRun(run) && j <= k < |run| && AllReading(Readers(run, j, k))
    ensures Moves(Readers(run, j, k)) + ReaderLeft(run[k].reader) <= ReaderLeft(run[j].reader)
  {
    var rs := Readers(run, j, k);
    forall i | 0 <= i < |rs| - 1
      ensures ReaderAdvances(rs[i], rs[i + 1])
    {
      ReaderAdvancesAt(run, j, k, i);
    }
    ReaderMovesBounded(rs);
    assert rs[0] == run[j + 0].reader && rs[k - j] == run[j + (k - j)].reader;
  }
}
