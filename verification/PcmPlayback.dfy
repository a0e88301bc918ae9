/**
 The playback side of the ALSA plugin: the realtime callback that moves frames from the application's ring into
 PipeWire buffers, pads them with silence, and starts the drain. Every callback and every plugin call is one step.

 `committed` is the history of frames the application has written, `consumed` how many of them the callback has taken,
 `output` everything it has put into PipeWire buffers; nothing in the code reads these three.
 alsa-lib's answer to how many frames are ready is a parameter, of which only its relation to the two pointers is known
 (`IsHwAvail`); so are the PipeWire buffers.
 */
module PcmPlayback {
  import opened Common
  import opened Modular
  import opened PcmFrames

  datatype PcmState = Prepared | Running | Draining | Stopped

  class Plugin<F(0)> {
    const bufferSize: nat
    const boundary: nat
    var ring: array<F>
    var hwPtr: nat
    /** The application's own pointer, kept by alsa-lib. */
    var applPtr: nat
    var xrunDetected: bool
    var drained: bool
    var draining: bool
    var state: PcmState
    ghost var committed: seq<F>
    ghost var consumed: nat
    ghost var output: seq<Out<F>>
    /** Calls of pw_stream_flush since the last drain or prepare. */
    ghost var flushes: nat

    ghost predicate Valid()
      reads this, ring
    {
      StreamInv(bufferSize, boundary, ring[..], hwPtr, applPtr, committed, consumed, output) && DrainInv()
    }

    /** At most one flush per drain. */
    ghost predicate DrainInv()
      reads this
    {
      !(drained && draining) && flushes <= (if drained || draining then 1 else 0)
    }

    constructor (bufferSize: nat, boundary: nat)
      requires 0 < bufferSize <= boundary && Cell(boundary, bufferSize) == 0
      ensures Valid() && fresh(ring)
      ensures this.bufferSize == bufferSize && this.boundary == boundary
      ensures committed == [] && consumed == 0 && output == [] && flushes == 0
      ensures !xrunDetected && !drained && !draining && state == Prepared
    {
      this.bufferSize, this.boundary := bufferSize, boundary;
      ring := new F[bufferSize];
      hwPtr, applPtr, xrunDetected, drained, draining, state := 0, 0, false, false, false, Prepared;
      committed, consumed, output, flushes := [], 0, [], 0;
    }

    /** What alsa-lib answers is what is committed and not consumed. */
    lemma FramesReady(hwAvail: nat)
      requires Valid() && IsHwAvail(hwAvail, hwPtr, applPtr, bufferSize, boundary)
      requires bufferSize < boundary || hwAvail == |committed| - consumed
      ensures consumed + hwAvail == |committed|
    {
      StreamAnswer(bufferSize, boundary, ring[..], hwPtr, applPtr, committed, consumed, output, hwAvail);
    }

    predicate Active()
      reads this
    {
      state == Running || state == Draining
    }

    /** snd_pcm_areas_copy_wrap from the ring: n frames from the given offset on. */
    method CopyWrap(offset: nat, n: nat) returns (out: seq<Out<F>>)
      requires ring.Length == bufferSize > 0 && offset < bufferSize
      ensures |out| == n
      ensures forall i :: 0 <= i < n ==> out[i] == Audio(ring[Cell(offset + i, bufferSize)])
    {
      out := [];
      var cell := offset;
      while |out| < n
        invariant |out| <= n && cell == Cell(offset + |out|, bufferSize)
        invariant forall i :: 0 <= i < |out| ==> out[i] == Audio(ring[Cell(offset + i, bufferSize)])
        decreases n - |out|
      {
        CellAdd(offset + |out|, 1, bufferSize);
        out := out + [Audio(ring[cell])];
        cell := if cell + 1 == bufferSize then 0 else cell + 1;
      }
    }

    /** The loop over the blocks of snd_pcm_pipewire_process, and the chunk size it stores in each of them. */
    static method LimitWant(want: nat, maxsizes: seq<nat>, minAvail: nat, stride: nat)
      returns (limited: nat, chunkSize: nat)
      requires stride > 0
      ensures limited == Fitting(want, maxsizes, minAvail, stride)
      ensures chunkSize == limited * stride
      ensures forall i :: 0 <= i < |maxsizes| ==> chunkSize <= maxsizes[i]
    {
      limited := want;
      var bl := 0;
      while bl < |maxsizes|
        invariant 0 <= bl <= |maxsizes|
        invariant limited == Fitting(want, maxsizes[..bl], minAvail, stride)
      {
        FittingStep(want, maxsizes, bl, minAvail, stride);
        limited := Min(limited, BlockFrames(maxsizes[bl], minAvail, stride));
        bl := bl + 1;
      }
      assert maxsizes[..|maxsizes|] == maxsizes;
      FittingFits(want, maxsizes, minAvail, stride);
      chunkSize := limited * stride;
    }

    /**
     snd_pcm_pipewire_process: fills one PipeWire buffer of `want` frames. In RUNNING and DRAINING it takes the next
     committed frames; what they do not cover is silence, and an xrun is flagged exactly when silence was needed.
     */
    method Process(want: nat, hwAvail: nat, maxsizes: seq<nat>, minAvail: nat, stride: nat)
      returns (out: seq<Out<F>>, chunkSize: nat, left: nat)
      requires Valid() && stride > 0 && maxsizes != []
      requires IsHwAvail(hwAvail, hwPtr, applPtr, bufferSize, boundary)
      requires bufferSize < boundary || hwAvail == |committed| - consumed
      modifies this`hwPtr, this`xrunDetected, this`consumed, this`output
      ensures Valid()
      ensures var frames := Fitting(want, maxsizes, minAvail, stride);
        var taken := if Active() then Min(frames, hwAvail) else 0;
        && consumed == old(consumed) + taken && left == hwAvail - taken
        && out == Emitted(committed, old(consumed), taken, frames)
        && output == old(output) + out
        && chunkSize == frames * stride
        && (xrunDetected <==> old(xrunDetected) || (Active() && taken < frames))
      ensures forall i :: 0 <= i < |maxsizes| ==> chunkSize <= maxsizes[i]
    {
      FramesReady(hwAvail);
      var frames;
      frames, chunkSize := LimitWant(want, maxsizes, minAvail, stride);
      out, left := Fill(frames, hwAvail);
    }

    /** The copy and silence part: exactly `frames` frames of output. */
    method Fill(frames: nat, hwAvail: nat) returns (out: seq<Out<F>>, left: nat)
      requires Valid() && consumed + hwAvail == |committed|
      modifies this`hwPtr, this`xrunDetected, this`consumed, this`output
      ensures Valid()
      ensures var taken := if Active() then Min(frames, hwAvail) else 0;
        && consumed == old(consumed) + taken && left == hwAvail - taken
        && out == Emitted(committed, old(consumed), taken, frames)
        && output == old(output) + out
        && (xrunDetected <==> old(xrunDetected) || (Active() && taken < frames))
    {
      var xfer := if Active() then Min(frames, hwAvail) else 0;
      left := hwAvail - xfer;
      out := Transfer(xfer, frames);
      if xfer < frames && Active() {
        xrunDetected := true;
      }
    }

    /** Copies n frames out of the ring, moves the hardware pointer, and silences the rest of the buffer. */
    method Transfer(n: nat, frames: nat) returns (out: seq<Out<F>>)
      requires Valid() && consumed + n <= |committed| && n <= frames
      modifies this`hwPtr, this`consumed, this`output
      ensures Valid()
      ensures consumed == old(consumed) + n
      ensures out == Emitted(committed, old(consumed), n, frames)
      ensures output == old(output) + out
    {
      StreamEmits(bufferSize, boundary, ring[..], hwPtr, applPtr, committed, consumed, output, n, frames);
      out := FillBuffer(n, frames);
      Record(n, out);
    }

    /** What the buffer has consumed and played. */
    method Record(n: nat, out: seq<Out<F>>)
      requires StreamInv(bufferSize, boundary, ring[..], hwPtr, applPtr, committed, consumed + n, output + out)
      requires DrainInv()
      modifies this`consumed, this`output
      ensures Valid() && consumed == old(consumed) + n && output == old(output) + out
    {
      consumed := consumed + n;
      output := output + out;
    }

    /** One buffer of n frames from the ring and silence behind them. */
    method FillBuffer(n: nat, frames: nat) returns (out: seq<Out<F>>)
      requires Valid() && consumed + n <= |committed| && n <= frames
      modifies this`hwPtr
      ensures hwPtr == Cell(consumed + n, boundary)
      ensures out == Emitted(committed, consumed, n, frames)
    {
      out := MoveFrames(n);
      out := Pad(out, frames);
    }

    /** The copy out of the ring and the step of the hardware pointer, if there is anything to copy. */
    method MoveFrames(n: nat) returns (out: seq<Out<F>>)
      requires Valid() && consumed + n <= |committed|
      modifies this`hwPtr
      ensures hwPtr == Cell(consumed + n, boundary)
      ensures out == Audible(committed[consumed..consumed + n])
    {
      out := [];
      if n > 0 {
        out := CopyFrames(n);
        AdvanceHwPtr(n);
      } else {
        assert committed[consumed..consumed + n] == [];
      }
    }

    /** snd_pcm_areas_silence on the frames that were not copied. */
    static method Pad(out: seq<Out<F>>, frames: nat) returns (padded: seq<Out<F>>)
      requires |out| <= frames
      ensures padded == out + Silent(frames - |out|)
    {
      padded := out;
      while |padded| < frames
        invariant |out| <= |padded| <= frames
        invariant padded == out + Silent(|padded| - |out|)
      {
        padded := padded + [Silence];
      }
    }

    /** The next n frames of the application, from the ring. */
    method CopyFrames(n: nat) returns (out: seq<Out<F>>)
      requires Valid() && consumed + n <= |committed|
      ensures out == Audible(committed[consumed..consumed + n])
    {
      var offset := HwOffset();
      out := CopyWrap(offset, n);
      TakenFrames(ring[..], committed, consumed, n, out);
    }

    /** `hw_ptr % buffer_size`. */
    method HwOffset() returns (offset: nat)
      requires Valid()
      ensures offset == Cell(consumed, bufferSize)
    {
      StreamOffset(bufferSize, boundary, ring[..], hwPtr, applPtr, committed, consumed, output);
      offset := hwPtr % bufferSize;
    }

    method AdvanceHwPtr(n: nat)
      requires Valid() && consumed + n <= |committed|
      modifies this`hwPtr
      ensures hwPtr == Cell(consumed + n, boundary)
    {
      StreamAdvance(bufferSize, boundary, ring[..], hwPtr, applPtr, committed, consumed, output, n);
      hwPtr := hwPtr + n;
      if hwPtr >= boundary {
        hwPtr := hwPtr - boundary;
      }
    }

    /** The application writes frames into the ring and commits them. */
    method Commit(frames: seq<F>)
      requires Valid()
      requires |committed| + |frames| <= consumed + bufferSize
      modifies this`committed, this`applPtr, ring
      ensures Valid()
      ensures committed == old(committed) + frames
    {
      var k := 0;
      while k < |frames|
        invariant Valid()
        invariant 0 <= k <= |frames| && committed == old(committed) + frames[..k]
      {
        CommitOne(frames[k]);
        k := k + 1;
      }
    }

    method CommitOne(frame: F)
      requires Valid() && |committed| < consumed + bufferSize
      modifies this`committed, this`applPtr, ring
      ensures Valid()
      ensures committed == old(committed) + [frame]
    {
      StreamCommits(bufferSize, boundary, ring[..], hwPtr, applPtr, committed, consumed, output, frame);
      var cell := applPtr % bufferSize;
      ring[cell] := frame;
      assert ring[..] == old(ring[..])[cell := frame];
      applPtr := if applPtr + 1 == boundary then 0 else applPtr + 1;
      committed := committed + [frame];
    }

    /** alsa-lib moves the device from state to state. */
    method SetState(next: PcmState)
      requires Valid()
      modifies this`state
      ensures Valid() && state == next
    {
      state := next;
    }

    /** on_stream_drained. */
    method OnStreamDrained()
      requires Valid()
      modifies this`drained, this`draining
      ensures Valid()
      ensures drained && !draining
    {
      drained := true;
      draining := false;
    }

    /** The part of snd_pcm_pipewire_drain that touches the flags. */
    method Drain()
      requires Valid()
      modifies this`drained, this`draining, this`flushes
      ensures Valid()
      ensures !drained && !draining && flushes == 0
    {
      drained := false;
      draining := false;
      flushes := 0;
    }

    /** The end of snd_pcm_pipewire_prepare: everything starts over. */
    method Prepare()
      requires Valid()
      modifies this
      ensures Valid()
      ensures ring == old(ring)
      ensures committed == [] && consumed == 0 && output == [] && flushes == 0
      ensures hwPtr == 0 && !xrunDetected && !drained && !draining && state == Prepared
    {
      StreamStarts(bufferSize, boundary, ring[..]);
      hwPtr, applPtr, xrunDetected, drained, draining, state := 0, 0, false, false, false, Prepared;
      committed, consumed, output, flushes := [], 0, [], 0;
    }

    /** The end of on_stream_process: flush once everything is copied out, unless that happened already. */
    method StartDraining(left: nat) returns (flushed: bool)
      requires Valid() && !drained && consumed + left == |committed|
      modifies this`drained, this`draining, this`flushes
      ensures Valid()
      ensures flushes == old(flushes) + if flushed then 1 else 0
      ensures flushed <==> !old(draining) && state == Draining && consumed == |committed|
      ensures flushed ==> draining && old(flushes) == 0
      ensures !flushed ==> drained == old(drained) && draining == old(draining)
    {
      flushed := state == Draining && !draining && left == 0;
      if flushed {
        flushes := flushes + 1;
        draining := true;
        drained := false;
      }
    }

    /**
     on_stream_process for playback. `requested` is what the PipeWire buffer asks for (0: no preference), `hasBuffer`
     whether one could be dequeued. A flush is issued at most once per drain, and only when every committed frame has
     been copied out.
     */
    method OnStreamProcess(hasBuffer: bool, requested: nat, hwAvail: nat, maxsizes: seq<nat>, minAvail: nat, stride: nat)
      returns (flushed: bool)
      requires Valid() && stride > 0 && maxsizes != []
      requires IsHwAvail(hwAvail, hwPtr, applPtr, bufferSize, boundary)
      requires bufferSize < boundary || hwAvail == |committed| - consumed
      modifies this`hwPtr, this`xrunDetected, this`consumed, this`output, this`drained, this`draining, this`flushes
      ensures Valid()
      ensures flushes == old(flushes) + if flushed then 1 else 0
      ensures flushed ==> state == Draining && consumed == |committed| && draining && old(flushes) == 0
      ensures flushed <==> hasBuffer && !old(drained) && !old(draining) && state == Draining && consumed == |committed|
      ensures !flushed ==> drained == old(drained) && draining == old(draining)
      ensures old(drained) || !hasBuffer ==> consumed == old(consumed) && output == old(output)
      ensures !old(drained) && hasBuffer ==>
        var frames := Fitting(if requested > 0 then requested else hwAvail, maxsizes, minAvail, stride);
        var taken := if Active() then Min(frames, hwAvail) else 0;
        && consumed == old(consumed) + taken
        && output == old(output) + Emitted(committed, old(consumed), taken, frames)
        && (xrunDetected <==> old(xrunDetected) || (Active() && taken < frames))
    {
      flushed := false;
      if drained || !hasBuffer {
        return;
      }
      FramesReady(hwAvail);
      var want := if requested > 0 then requested else hwAvail;
      var out, chunkSize, left := Process(want, hwAvail, maxsizes, minAvail, stride);
      flushed := StartDraining(left);
    }
  }
}
