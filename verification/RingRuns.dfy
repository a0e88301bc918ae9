/** What holds in every interleaving of the ring buffer's reader and writer. */
module RingRuns {
  import opened Common
  import opened RingIndex
  import opened Modular
  import opened RingProtocol
  import opened RingSteps

  lemma FollowsInv(s: State, t: State)
    requires Inv(s) && Follows(s, t)
    ensures Inv(t)
  {
    var step :| Next(s, step) == Some(t);
    StepInv(s, step, t);
  }

  lemma StepGrows(s: State, step: Step, t: State)
    requires Inv(s) && PointersInRange(s)
    requires Next(s, step) == Some(t)
    ensures s.ring.accepted <= t.ring.accepted
    ensures s.ring.delivered <= t.ring.delivered
    ensures step.WriterMoves? ==> t.ring.delivered == s.ring.delivered
    ensures step.ReaderMoves? ==> t.ring.accepted == s.ring.accepted
    ensures |t.ring.buf| == |s.ring.buf|
  {
    match step {
      case WriterMoves(ws) => WriterStepInv(s.ring, s.writer, ws, t.ring, t.writer);
      case ReaderMoves(rs) => ReaderStepInv(s.ring, s.reader, rs, t.ring, t.reader);
    }
  }

  /** One step extends one of the two histories, or neither. */
  lemma FollowsGrows(s: State, t: State)
    requires Inv(s) && Follows(s, t)
    ensures s.ring.accepted <= t.ring.accepted
    ensures s.ring.delivered <= t.ring.delivered
    ensures t.ring.delivered == s.ring.delivered || t.ring.accepted == s.ring.accepted
  {
    var step :| Next(s, step) == Some(t);
    StepGrows(s, step, t);
  }

  lemma {:induction false} RunInv(run: seq<State>, k: nat)
    requires IsRun(run) && k < |run|
    ensures Inv(run[k])
  {
    if k > 0 {
      RunInv(run, k - 1);
      assert StepsTo(run, k);
      FollowsInv(run[k - 1], run[k]);
    }
  }

  // ---------------------------------------------------------------- main results

  /** The bytes a reader arriving now would find: only memory and the two pointers are consulted. */
  function Contents(g: Ring): (bytes: seq<byte>)
    requires g.w < |g.buf| && g.r < |g.buf|
  {
    seq<byte>(ReadSpace(g.w, g.r, |g.buf|), i requires 0 <= i => g.buf[(g.r + i) % |g.buf|])
  }

  lemma ContentsAreTheGap(g: Ring)
    requires RingInv(g)
    ensures Contents(g) == g.accepted[|g.delivered|..]
  {
    var size, taken := |g.buf|, |g.delivered|;
    SpacesFromPositions(|g.accepted|, taken, size);
    forall i | 0 <= i < |g.accepted| - taken
      ensures Contents(g)[i] == g.accepted[taken..][i]
    {
      ByteInGap(g, i);
    }
  }

  lemma ByteInGap(g: Ring, i: nat)
    requires RingInv(g) && |g.delivered| + i < |g.accepted|
    ensures g.buf[(g.r + i) % |g.buf|] == g.accepted[|g.delivered| + i]
  {
    CellIsMod(g.r + i, |g.buf|);
    CellAdd(|g.delivered|, i, |g.buf|);
    Readable(g, |g.delivered| + i);
  }

  /**
   In every state of every interleaving, what was accepted is what was delivered followed by what the buffer holds:
   nothing is lost, duplicated or reordered, and the half-published state of a wrapping transfer is no exception.
   One cell stays free.
   */
  lemma FifoSafety(run: seq<State>, k: nat)
    requires IsRun(run) && k < |run|
    ensures PointersInRange(run[k])
    ensures run[k].ring.accepted == run[k].ring.delivered + Contents(run[k].ring)
    ensures |Contents(run[k].ring)| < |run[k].ring.buf|
  {
    RunInv(run, k);
    ContentsAreTheGap(run[k].ring);
  }

  lemma RunStepGrows(run: seq<State>, k: nat)
    requires IsRun(run) && 0 < k < |run|
    ensures run[k - 1].ring.accepted <= run[k].ring.accepted
    ensures run[k - 1].ring.delivered <= run[k].ring.delivered
    ensures run[k].ring.delivered == run[k - 1].ring.delivered || run[k].ring.accepted == run[k - 1].ring.accepted
  {
    RunInv(run, k - 1);
    assert StepsTo(run, k);
    FollowsGrows(run[k - 1], run[k]);
  }

  /** The histories only grow: a byte once accepted or delivered is never taken back or altered. */
  lemma {:induction false} HistoriesGrow(run: seq<State>, j: nat, k: nat)
    requires IsRun(run) && j <= k < |run|
    ensures run[j].ring.accepted <= run[k].ring.accepted
    ensures run[j].ring.delivered <= run[k].ring.delivered
    decreases k - j
  {
    if j < k {
      HistoriesGrow(run, j, k - 1);
      RunStepGrows(run, k);
      PrefixTransitive(run[j].ring.accepted, run[k - 1].ring.accepted, run[k].ring.accepted);
      PrefixTransitive(run[j].ring.delivered, run[k - 1].ring.delivered, run[k].ring.delivered);
    }
  }

  lemma PrefixTransitive(a: seq<byte>, b: seq<byte>, c: seq<byte>)
    requires a <= b <= c
    ensures a <= c
  {
  }

  /** Publishing bytes appends them to the contents. */
  lemma ContentsAfterPush(g: Ring, g': Ring)
    requires RingInv(g) && RingInv(g')
    requires g.accepted <= g'.accepted && g.delivered == g'.delivered
    ensures Contents(g') == Contents(g) + g'.accepted[|g.accepted|..]
  {
    ContentsAreTheGap(g);
    ContentsAreTheGap(g');
    assert g'.accepted[|g.delivered|..] == g.accepted[|g.delivered|..] + g'.accepted[|g.accepted|..];
  }

  /** Releasing bytes takes them off the front of the contents. */
  lemma ContentsAfterPop(g: Ring, g': Ring)
    requires RingInv(g) && RingInv(g')
    requires g.accepted == g'.accepted && g.delivered <= g'.delivered
    ensures Contents(g) == g'.delivered[|g.delivered|..] + Contents(g')
  {
    ContentsAreTheGap(g);
    ContentsAreTheGap(g');
    GapSplits(g.accepted, |g.delivered|, |g'.delivered|);
  }

  lemma GapSplits(s: seq<byte>, i: nat, j: nat)
    requires i <= j <= |s|
    ensures s[i..] == s[..j][i..] + s[j..]
  {
  }

  /** Each step pushes onto, pops from or leaves alone a bounded FIFO queue whose state is the memory contents. */
  lemma StepRefinesFifo(run: seq<State>, k: nat)
    requires IsRun(run) && 0 < k < |run|
    ensures PointersInRange(run[k - 1]) && PointersInRange(run[k])
    ensures var g, g' := run[k - 1].ring, run[k].ring;
      || (&& g'.delivered == g.delivered && g.accepted <= g'.accepted
          && Contents(g') == Contents(g) + g'.accepted[|g.accepted|..])
      || (&& g'.accepted == g.accepted && g.delivered <= g'.delivered
          && Contents(g) == g'.delivered[|g.delivered|..] + Contents(g'))
  {
    RunInv(run, k - 1);
    RunInv(run, k);
    RunStepGrows(run, k);
    var g, g' := run[k - 1].ring, run[k].ring;
    if g'.delivered == g.delivered {
      ContentsAfterPush(g, g');
    } else {
      ContentsAfterPop(g, g');
    }
  }

  // ---------------------------------------------------------------- race freedom

  /** The writer, from here to the end of its call, may still store into this cell. */
  ghost predicate WriterMayTouch(g: Ring, writer: Writer, cell: nat) {
    match writer
    case WCopyFirst(_, split, k, _) => exists i: nat :: k <= i < split.n1 + split.n2 && cell == CellOf(g.w, split, i)
    case WCopySecond(_, split, k, _) => exists i: nat :: k <= i < split.n2 && cell == CellOf(g.w, Split(split.n2, 0), i)
    case WVector(ptr, split, stage, done) => exists i: nat :: done <= i < |stage| && cell == CellOf(ptr, split, i)
    case _ => false
  }

  /** The reader, from here to the end of its call, may still load from this cell. */
  ghost predicate ReaderMayTouch(g: Ring, reader: Reader, cell: nat) {
    match reader
    case RCopyFirst(_, split, dest, _) =>
      exists i: nat :: |dest| <= i < split.n1 + split.n2 && cell == CellOf(g.r, split, i)
    case RCopySecond(_, split, ptr, dest, _) =>
      exists i: nat :: |dest| <= split.n1 + i < split.n1 + split.n2 && cell == CellOf(ptr, Split(split.n2, 0), i)
    case RVector(ptr, split, done) =>
      exists i: nat :: done <= i < split.n1 + split.n2 && cell == CellOf(ptr, split, i)
    case _ => false
  }

  lemma SecondHalfIsFree(g: Ring, writer: Writer, cell: nat) returns (t: nat)
    requires RingInv(g) && WriterInv(g, writer) && WriterMayTouch(g, writer, cell)
    requires writer.WCopySecond?
    ensures |g.accepted| <= t < |g.delivered| + |g.buf| - 1
    ensures cell == Cell(t, |g.buf|)
  {
    var n2 := writer.split.n2;
    var i: nat :| writer.k <= i < n2 && cell == CellOf(g.w, Split(n2, 0), i);
    CellAdd(|g.accepted|, i, |g.buf|);
    t := |g.accepted| + i;
  }

  lemma WriteVectorIsFree(g: Ring, writer: Writer, cell: nat) returns (t: nat)
    requires RingInv(g) && WriterInv(g, writer) && WriterMayTouch(g, writer, cell)
    requires writer.WVector?
    ensures |g.accepted| <= t < |g.delivered| + |g.buf| - 1
    ensures cell == Cell(t, |g.buf|)
  {
    var base := |g.accepted| - writer.done;
    var i: nat :| writer.done <= i < |writer.stage| && cell == CellOf(writer.ptr, writer.split, i);
    CellOfPosition(base, writer.split, i, |g.buf|);
    t := base + i;
  }

  lemma WriterTouchesFreeCells(g: Ring, writer: Writer, cell: nat) returns (t: nat)
    requires RingInv(g) && WriterInv(g, writer) && WriterMayTouch(g, writer, cell)
    ensures |g.accepted| <= t < |g.delivered| + |g.buf| - 1
    ensures cell == Cell(t, |g.buf|)
  {
    match writer {
      case WCopyFirst(_, split, k, _) =>
        var i: nat :| k <= i < split.n1 + split.n2 && cell == CellOf(g.w, split, i);
        CellOfPosition(|g.accepted|, split, i, |g.buf|);
        t := |g.accepted| + i;
      case WCopySecond(_, _, _, _) => t := SecondHalfIsFree(g, writer, cell);
      case WVector(_, _, _, _) => t := WriteVectorIsFree(g, writer, cell);
    }
  }

  lemma SecondHalfIsReadable(g: Ring, reader: Reader, cell: nat) returns (t: nat)
    requires RingInv(g) && ReaderInv(g, reader) && ReaderMayTouch(g, reader, cell)
    requires reader.RCopySecond?
    ensures |g.delivered| <= t < |g.accepted|
    ensures cell == Cell(t, |g.buf|)
  {
    var n1, n2 := reader.split.n1, reader.split.n2;
    var i: nat :| |reader.dest| <= n1 + i < n1 + n2 && cell == CellOf(reader.ptr, Split(n2, 0), i);
    CellAdd(reader.start + n1, i, |g.buf|);
    t := reader.start + n1 + i;
  }

  lemma VectorIsReadable(g: Ring, reader: Reader, cell: nat) returns (t: nat)
    requires RingInv(g) && ReaderInv(g, reader) && ReaderMayTouch(g, reader, cell)
    requires reader.RVector?
    ensures |g.delivered| <= t < |g.accepted|
    ensures cell == Cell(t, |g.buf|)
  {
    var base := |g.delivered| - reader.done;
    var i: nat :| reader.done <= i < reader.split.n1 + reader.split.n2 && cell == CellOf(reader.ptr, reader.split, i);
    CellOfPosition(base, reader.split, i, |g.buf|);
    t := base + i;
  }

  lemma ReaderTouchesReadableCells(g: Ring, reader: Reader, cell: nat) returns (t: nat)
    requires RingInv(g) && ReaderInv(g, reader) && ReaderMayTouch(g, reader, cell)
    ensures |g.delivered| <= t < |g.accepted|
    ensures cell == Cell(t, |g.buf|)
  {
    match reader {
      case RCopyFirst(_, split, dest, start) =>
        var i: nat :| |dest| <= i < split.n1 + split.n2 && cell == CellOf(g.r, split, i);
        CellOfPosition(start, split, i, |g.buf|);
        t := start + i;
      case RCopySecond(_, _, _, _, _) => t := SecondHalfIsReadable(g, reader, cell);
      case RVector(_, _, _) => t := VectorIsReadable(g, reader, cell);
    }
  }

  /** In every reachable state, no cell is within reach of both threads, and no access leaves the buffer. */
  lemma RaceFreedom(run: seq<State>, k: nat, cell: nat)
    requires IsRun(run) && k < |run|
    ensures var s := run[k];
      !(WriterMayTouch(s.ring, s.writer, cell) && ReaderMayTouch(s.ring, s.reader, cell))
    ensures var s := run[k];
      WriterMayTouch(s.ring, s.writer, cell) || ReaderMayTouch(s.ring, s.reader, cell) ==> cell < |s.ring.buf|
  {
    RunInv(run, k);
    var s := run[k];
    if WriterMayTouch(s.ring, s.writer, cell) {
      var tw := WriterTouchesFreeCells(s.ring, s.writer, cell);
      if ReaderMayTouch(s.ring, s.reader, cell) {
        var tr := ReaderTouchesReadableCells(s.ring, s.reader, cell);
        CellDistinct(tr, tw, |s.ring.buf|);
      }
    } else if ReaderMayTouch(s.ring, s.reader, cell) {
      var tr := ReaderTouchesReadableCells(s.ring, s.reader, cell);
    }
  }
}
