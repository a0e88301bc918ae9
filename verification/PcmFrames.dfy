/**
 The frames of the ALSA plugin's playback side as values: the ring offset across pointer wraps, what the two pointers
 tell, audio and silence, block limits, and the invariant that ties ring, pointers and output to the frames committed.
 */
module PcmFrames {
  import opened Common
  import opened Modular

  /** What ends up in a PipeWire buffer. */
  datatype Out<F> = Audio(frame: F) | Silence

  // ---------------------------------------------------------------- the ring offset across boundary wraps

  lemma {:induction false} CellMinusMultiple(t: nat, m: nat, n: nat)
    requires n > 0 && Cell(m, n) == 0 && m <= t
    ensures Cell(t, n) == Cell(t - m, n)
    decreases m
  {
    if m >= n {
      CellMinusMultiple(t - n, m - n, n);
    }
  }

  lemma {:induction false} CellOfCell(t: nat, m: nat, n: nat)
    requires n > 0 && m > 0 && Cell(m, n) == 0
    ensures Cell(Cell(t, m), n) == Cell(t, n)
  {
    if t >= m {
      CellOfCell(t - m, m, n);
      CellMinusMultiple(t, m, n);
    }
  }

  /** Reducing the hardware pointer by the boundary is harmless exactly when the boundary is a multiple of the buffer size. */
  lemma OffsetSurvivesBoundaryIff(boundary: nat, bufferSize: nat)
    requires boundary > 0 && bufferSize > 0
    ensures (forall t: nat :: Cell(Cell(t, boundary), bufferSize) == Cell(t, bufferSize))
      <==> Cell(boundary, bufferSize) == 0
  {
    if Cell(boundary, bufferSize) == 0 {
      forall t: nat
        ensures Cell(Cell(t, boundary), bufferSize) == Cell(t, bufferSize)
      {
        CellOfCell(t, boundary, bufferSize);
      }
    } else {
      assert Cell(boundary, boundary) == 0;
      assert Cell(Cell(boundary, boundary), bufferSize) == 0;
    }
  }

  // ---------------------------------------------------------------- what the two pointers tell

  /** What snd_pcm_ioplug_hw_avail may answer: at most a buffer of frames, which lead from the one pointer to the other. */
  predicate IsHwAvail(answer: nat, hwPtr: nat, applPtr: nat, bufferSize: nat, boundary: nat)
    requires boundary > 0
  {
    answer <= bufferSize && Cell(hwPtr + answer, boundary) == applPtr
  }

  /** The pointers admit a single answer. */
  ghost predicate Determined(consumed: nat, committed: nat, bufferSize: nat, boundary: nat)
    requires boundary > 0
  {
    forall answer: nat ::
      IsHwAvail(answer, Cell(consumed, boundary), Cell(committed, boundary), bufferSize, boundary) ==>
        consumed + answer == committed
  }

  /** Two distances less than a boundary apart that lead to the same cell are the same. */
  lemma SameCellSameDistance(t: nat, a: nat, b: nat, boundary: nat)
    requires boundary > 0 && Cell(t + a, boundary) == Cell(t + b, boundary)
    requires a < b + boundary && b < a + boundary
    ensures a == b
  {
    if a < b {
      CellDistinct(t + a, t + b, boundary);
    } else if b < a {
      CellDistinct(t + b, t + a, boundary);
    }
  }

  /** An answer leads from the total consumed to the cell of the total committed. */
  lemma AnswerLeads(consumed: nat, committed: nat, bufferSize: nat, boundary: nat, answer: nat)
    requires boundary > 0
    ensures IsHwAvail(answer, Cell(consumed, boundary), Cell(committed, boundary), bufferSize, boundary) <==>
      answer <= bufferSize && Cell(consumed + answer, boundary) == Cell(committed, boundary)
  {
    CellAdd(consumed, answer, boundary);
  }

  /** With a boundary beyond the buffer size, every admissible answer is the number of frames ready. */
  lemma AnswerIsFill(consumed: nat, fill: nat, bufferSize: nat, boundary: nat, answer: nat)
    requires fill <= bufferSize < boundary && bufferSize > 0
    requires IsHwAvail(answer, Cell(consumed, boundary), Cell(consumed + fill, boundary), bufferSize, boundary)
    ensures answer == fill
  {
    AnswerLeads(consumed, consumed + fill, bufferSize, boundary, answer);
    SameCellSameDistance(consumed, answer, fill, boundary);
  }

  /**
   Two pointers that are reduced by the same boundary tell how many frames are ready exactly when that boundary exceeds
   the buffer size or the ring is neither empty nor full.
   */
  lemma DeterminedIff(consumed: nat, committed: nat, bufferSize: nat, boundary: nat)
    requires consumed <= committed <= consumed + bufferSize && 0 < bufferSize <= boundary
    ensures Determined(consumed, committed, bufferSize, boundary) <==>
      bufferSize < boundary || 0 < committed - consumed < bufferSize
  {
    var fill := committed - consumed;
    if bufferSize < boundary || 0 < fill < bufferSize {
      forall answer: nat |
        IsHwAvail(answer, Cell(consumed, boundary), Cell(committed, boundary), bufferSize, boundary)
        ensures answer == fill
      {
        AnswerLeads(consumed, committed, bufferSize, boundary, answer);
        SameCellSameDistance(consumed, answer, fill, boundary);
      }
    } else {
      var other := bufferSize - fill;
      AnswerLeads(consumed, committed, bufferSize, boundary, other);
      assert IsHwAvail(other, Cell(consumed, boundary), Cell(committed, boundary), bufferSize, boundary);
    }
  }

  /**
   The boundary that prepare falls back to reduces the hardware pointer by the buffer size, while alsa-lib keeps the
   application pointer below its own, larger boundary. The true number of frames is an admissible answer exactly while
   the consumer is in the first buffer size of that boundary; then it is the only one.
   */
  lemma FallbackTellsIff(consumed: nat, fill: nat, bufferSize: nat, boundary: nat)
    requires fill <= bufferSize < boundary && bufferSize > 0 && Cell(boundary, bufferSize) == 0
    ensures var hwPtr, applPtr := Cell(consumed, bufferSize), Cell(consumed + fill, boundary);
      && (IsHwAvail(fill, hwPtr, applPtr, bufferSize, boundary) <==> Cell(consumed, boundary) < bufferSize)
      && (Cell(consumed, boundary) < bufferSize ==>
            forall answer: nat :: IsHwAvail(answer, hwPtr, applPtr, bufferSize, boundary) ==> answer == fill)
  {
    var hwPtr, applPtr, inLap := Cell(consumed, bufferSize), Cell(consumed + fill, boundary), Cell(consumed, boundary);
    CellOfCell(consumed, boundary, bufferSize);
    CellAdd(consumed, fill, boundary);
    if inLap >= bufferSize && Cell(hwPtr + fill, boundary) == applPtr {
      SameCellSameDistance(fill, hwPtr, inLap, boundary);
    }
    forall answer: nat | inLap < bufferSize && IsHwAvail(answer, hwPtr, applPtr, bufferSize, boundary)
      ensures answer == fill
    {
      AnswerIsFill(consumed, fill, bufferSize, boundary, answer);
    }
  }

  // ---------------------------------------------------------------- silence and audio

  function Silent<F>(n: nat): (s: seq<Out<F>>)
    ensures |s| == n
    ensures forall i :: 0 <= i < n ==> s[i] == Silence
  {
    if n == 0 then [] else Silent<F>(n - 1) + [Silence]
  }

  function Audible<F>(frames: seq<F>): (s: seq<Out<F>>)
    ensures |s| == |frames|
    ensures forall i :: 0 <= i < |frames| ==> s[i] == Audio(frames[i])
  {
    if frames == [] then [] else Audible(frames[..|frames| - 1]) + [Audio(frames[|frames| - 1])]
  }

  /** The frames in an output, without the silence. */
  function AudioOf<F>(out: seq<Out<F>>): seq<F> {
    if out == [] then []
    else
      var last := out[|out| - 1];
      AudioOf(out[..|out| - 1]) + if last.Audio? then [last.frame] else []
  }

  lemma {:induction false} AudioOfConcat<F>(a: seq<Out<F>>, b: seq<Out<F>>)
    ensures AudioOf(a + b) == AudioOf(a) + AudioOf(b)
    decreases |b|
  {
    if b == [] {
      assert a + b == a;
    } else {
      var n := |b| - 1;
      AudioOfConcat(a, b[..n]);
      assert (a + b)[..|a| + n] == a + b[..n];
    }
  }

  lemma {:induction false} AudioOfAudible<F>(frames: seq<F>)
    ensures AudioOf(Audible(frames)) == frames
  {
    if frames != [] {
      var n := |frames| - 1;
      AudioOfAudible(frames[..n]);
      assert Audible(frames)[..n] == Audible(frames[..n]);
    }
  }

  lemma {:induction false} AudioOfSilent<F>(n: nat)
    ensures AudioOf(Silent<F>(n)) == []
  {
    if n > 0 {
      AudioOfSilent<F>(n - 1);
      assert Silent<F>(n)[..n - 1] == Silent<F>(n - 1);
    }
  }

  /** One buffer: n frames of the history from `from` on, and silence up to `frames`. */
  function Emitted<F>(history: seq<F>, from: nat, n: nat, frames: nat): (out: seq<Out<F>>)
    requires from + n <= |history| && n <= frames
    ensures |out| == frames
  {
    Audible(history[from..from + n]) + Silent(frames - n)
  }

  /** What one callback appends to the output: the next frames, then silence. */
  lemma AudioOfBuffer<F>(out: seq<Out<F>>, frames: seq<F>, n: nat)
    ensures AudioOf(out + (Audible(frames) + Silent(n))) == AudioOf(out) + frames
  {
    AudioOfConcat(out, Audible(frames) + Silent(n));
    AudioOfConcat(Audible(frames), Silent(n));
    AudioOfAudible(frames);
    AudioOfSilent<F>(n);
  }

  // ---------------------------------------------------------------- how much to transfer

  /** The whole frames of one block, at most one period. */
  function BlockFrames(maxsize: nat, minAvail: nat, stride: nat): nat
    requires stride > 0
  {
    Min(maxsize, minAvail * stride) / stride
  }

  /** The frames that fit into every block and into one period. */
  function Fitting(want: nat, maxsizes: seq<nat>, minAvail: nat, stride: nat): nat
    requires stride > 0
  {
    if maxsizes == [] then want
    else
      var n := |maxsizes| - 1;
      Min(Fitting(want, maxsizes[..n], minAvail, stride), BlockFrames(maxsizes[n], minAvail, stride))
  }

  lemma FittingStep(want: nat, maxsizes: seq<nat>, bl: nat, minAvail: nat, stride: nat)
    requires stride > 0 && bl < |maxsizes|
    ensures Fitting(want, maxsizes[..bl + 1], minAvail, stride)
         == Min(Fitting(want, maxsizes[..bl], minAvail, stride), BlockFrames(maxsizes[bl], minAvail, stride))
  {
    assert maxsizes[..bl + 1][..bl] == maxsizes[..bl];
  }

  lemma {:induction false} FittingFits(want: nat, maxsizes: seq<nat>, minAvail: nat, stride: nat)
    requires stride > 0
    ensures Fitting(want, maxsizes, minAvail, stride) <= want
    ensures forall i :: 0 <= i < |maxsizes| ==> Fitting(want, maxsizes, minAvail, stride) * stride <= maxsizes[i]
    ensures maxsizes != [] ==> Fitting(want, maxsizes, minAvail, stride) <= minAvail
  {
    if maxsizes != [] {
      var n := |maxsizes| - 1;
      var before, limit := Fitting(want, maxsizes[..n], minAvail, stride), Min(maxsizes[n], minAvail * stride);
      var fit := Fitting(want, maxsizes, minAvail, stride);
      FittingFits(want, maxsizes[..n], minAvail, stride);
      QuotientFits(fit, limit, stride);
      QuotientFits(fit, minAvail * stride, stride);
      DivModUnique(minAvail * stride, minAvail, 0, stride);
      DivMonotone(limit, minAvail * stride, stride);
      forall i | 0 <= i < |maxsizes|
        ensures fit * stride <= maxsizes[i]
      {
        if i < n {
          assert maxsizes[..n][i] == maxsizes[i];
          MulMonotone(fit, before, stride);
        }
      }
    }
  }

  lemma QuotientFits(n: nat, size: nat, stride: nat)
    requires stride > 0
    ensures n <= size / stride ==> n * stride <= size
  {
    if n <= size / stride {
      MulMonotone(n, size / stride, stride);
    }
  }

  lemma DivMonotone(a: nat, b: nat, c: nat)
    requires a <= b && c > 0
    ensures a / c <= b / c
  {
    if a / c > b / c {
      MulMonotone(b / c + 1, a / c, c);
    }
  }

  // ---------------------------------------------------------------- ring, pointers and output

  /** Emitting the next frames and any silence keeps the audible output equal to the consumed history. */
  lemma EmittedAudio<F>(output: seq<Out<F>>, committed: seq<F>, from: nat, n: nat, frames: nat)
    requires from + n <= |committed| && n <= frames
    requires AudioOf(output) == committed[..from]
    ensures AudioOf(output + Emitted(committed, from, n, frames)) == committed[..from + n]
  {
    AudioOfBuffer(output, committed[from..from + n], frames - n);
    assert committed[..from] + committed[from..from + n] == committed[..from + n];
  }

  /** The frames not yet consumed are where the application put them. */
  ghost predicate InRing<F>(ring: seq<F>, committed: seq<F>, consumed: nat) {
    |ring| > 0 && forall t: nat :: consumed <= t < |committed| ==> ring[Cell(t, |ring|)] == committed[t]
  }

  /** A wrapping copy from the consumer's cell on yields the next committed frames. */
  lemma TakenFrames<F>(ring: seq<F>, committed: seq<F>, consumed: nat, n: nat, out: seq<Out<F>>)
    requires InRing(ring, committed, consumed) && consumed + n <= |committed| && |out| == n
    requires forall i :: 0 <= i < n ==> out[i] == Audio(ring[Cell(Cell(consumed, |ring|) + i, |ring|)])
    ensures out == Audible(committed[consumed..consumed + n])
  {
    var frames := committed[consumed..consumed + n];
    forall i | 0 <= i < n
      ensures out[i] == Audio(frames[i])
    {
      CellAdd(consumed, i, |ring|);
    }
  }

  lemma StoreInRing<F>(ring: seq<F>, committed: seq<F>, consumed: nat, frame: F)
    requires InRing(ring, committed, consumed) && consumed <= |committed| < consumed + |ring|
    ensures InRing(ring[Cell(|committed|, |ring|) := frame], committed + [frame], consumed)
  {
    var ring', committed' := ring[Cell(|committed|, |ring|) := frame], committed + [frame];
    forall t: nat | consumed <= t < |committed'|
      ensures ring'[Cell(t, |ring|)] == committed'[t]
    {
      if t < |committed| {
        CellDistinct(t, |committed|, |ring|);
      }
    }
  }

  /** Ring, pointers and output agree with the frames committed and the number of them consumed. */
  ghost predicate StreamInv<F>(bufferSize: nat, boundary: nat, ring: seq<F>, hwPtr: nat, applPtr: nat,
                               committed: seq<F>, consumed: nat, output: seq<Out<F>>) {
    && 0 < bufferSize == |ring| <= boundary && Cell(boundary, bufferSize) == 0
    && consumed <= |committed| <= consumed + bufferSize
    && hwPtr == Cell(consumed, boundary) && applPtr == Cell(|committed|, boundary)
    && InRing(ring, committed, consumed)
    && AudioOf(output) == committed[..consumed]
  }

  /** Nothing committed, nothing consumed. */
  lemma StreamStarts<F>(bufferSize: nat, boundary: nat, ring: seq<F>)
    requires 0 < bufferSize == |ring| <= boundary && Cell(boundary, bufferSize) == 0
    ensures StreamInv(bufferSize, boundary, ring, 0, 0, [], 0, [])
  {
  }

  /** Emitting the next n frames, padded with silence, and moving the hardware pointer behind them. */
  lemma StreamEmits<F>(bufferSize: nat, boundary: nat, ring: seq<F>, hwPtr: nat, applPtr: nat,
                       committed: seq<F>, consumed: nat, output: seq<Out<F>>, n: nat, frames: nat)
    requires StreamInv(bufferSize, boundary, ring, hwPtr, applPtr, committed, consumed, output)
    requires consumed + n <= |committed| && n <= frames
    ensures StreamInv(bufferSize, boundary, ring, Cell(consumed + n, boundary), applPtr, committed, consumed + n,
                      output + Emitted(committed, consumed, n, frames))
  {
    EmittedAudio(output, committed, consumed, n, frames);
  }

  /** The cell an application frame goes to, and the pointer behind it. */
  lemma StreamCommits<F>(bufferSize: nat, boundary: nat, ring: seq<F>, hwPtr: nat, applPtr: nat,
                         committed: seq<F>, consumed: nat, output: seq<Out<F>>, frame: F)
    requires StreamInv(bufferSize, boundary, ring, hwPtr, applPtr, committed, consumed, output)
    requires |committed| < consumed + bufferSize
    ensures applPtr % bufferSize < |ring|
    ensures StreamInv(bufferSize, boundary, ring[applPtr % bufferSize := frame], hwPtr,
                      if applPtr + 1 == boundary then 0 else applPtr + 1, committed + [frame], consumed, output)
  {
    CellIsMod(applPtr, bufferSize);
    CellOfCell(|committed|, boundary, bufferSize);
    NextCell(|committed|, boundary);
    StoreInRing(ring, committed, consumed, frame);
    assert (committed + [frame])[..consumed] == committed[..consumed];
  }

  lemma NextCell(t: nat, boundary: nat)
    requires boundary > 0
    ensures Cell(t + 1, boundary) == if Cell(t, boundary) + 1 == boundary then 0 else Cell(t, boundary) + 1
  {
    CellAdd(t, 1, boundary);
  }

  /** `hw_ptr % buffer_size` is the offset of the total consumed, and a wrapping copy from there yields the next frames. */
  lemma StreamOffset<F>(bufferSize: nat, boundary: nat, ring: seq<F>, hwPtr: nat, applPtr: nat,
                        committed: seq<F>, consumed: nat, output: seq<Out<F>>)
    requires StreamInv(bufferSize, boundary, ring, hwPtr, applPtr, committed, consumed, output)
    ensures hwPtr % bufferSize == Cell(consumed, bufferSize)
  {
    CellIsMod(hwPtr, bufferSize);
    CellOfCell(consumed, boundary, bufferSize);
  }

  lemma StreamAdvance<F>(bufferSize: nat, boundary: nat, ring: seq<F>, hwPtr: nat, applPtr: nat,
                         committed: seq<F>, consumed: nat, output: seq<Out<F>>, n: nat)
    requires StreamInv(bufferSize, boundary, ring, hwPtr, applPtr, committed, consumed, output)
    requires consumed + n <= |committed|
    ensures Cell(consumed + n, boundary) == if hwPtr + n >= boundary then hwPtr + n - boundary else hwPtr + n
  {
    CellAdd(consumed, n, boundary);
  }

  /** What alsa-lib answers is what is committed and not consumed. */
  lemma StreamAnswer<F>(bufferSize: nat, boundary: nat, ring: seq<F>, hwPtr: nat, applPtr: nat,
                        committed: seq<F>, consumed: nat, output: seq<Out<F>>, hwAvail: nat)
    requires StreamInv(bufferSize, boundary, ring, hwPtr, applPtr, committed, consumed, output)
    requires IsHwAvail(hwAvail, hwPtr, applPtr, bufferSize, boundary)
    requires bufferSize < boundary || hwAvail == |committed| - consumed
    ensures consumed + hwAvail == |committed|
  {
    if bufferSize < boundary {
      AnswerIsFill(consumed, |committed| - consumed, bufferSize, boundary, hwAvail);
    }
  }
}
