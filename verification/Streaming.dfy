/**
 The streaming side of one V4L2 shim file: buffer announcement, queueing and dequeueing, stream on and off, and the
 index arithmetic of mmap. Each ioctl and each stream callback is one step, as they all run under the loop lock.

 The stream itself is the environment: which buffers it adds when it is connected, whether it can be connected or
 activated, and which buffer it hands out next.
 */
module Streaming {
  import opened Common
  import opened Modular

  const MAX_BUFFERS: nat := 32
  const U32: nat := 0x1_0000_0000

  datatype Error = EINVAL | EBUSY | EIO | StreamError

  datatype Result<T> = Ok(value: T) | Err(error: Error)

  /** The v4l2_buffer part of a buffer slot. */
  datatype Buffer = Buffer(index: nat, queued: bool, mapped: bool, offset: u32, length: u32, sequence: u32)

  // ---------------------------------------------------------------- history

  /** What happened to the buffers, oldest first. `StreamedOff(n)` found n buffers. */
  datatype Event = Queued(i: nat) | Dequeued(i: nat) | StreamedOff(n: nat) | Added(i: nat)

  predicate Releases(e: Event, i: nat) {
    (e.Dequeued? && e.i == i) || (e.StreamedOff? && i < e.n) || (e.Added? && e.i == i)
  }

  /** The last event that concerns buffer i was an accepted qbuf. */
  predicate InQueue(log: seq<Event>, i: nat) {
    if log == [] then false
    else
      var e, before := log[|log| - 1], log[..|log| - 1];
      if e == Queued(i) then true else if Releases(e, i) then false else InQueue(before, i)
  }

  /** Dequeued buffers since streaming was last switched off. */
  function SessionLength(log: seq<Event>): nat {
    if log == [] then 0
    else
      var e, before := log[|log| - 1], log[..|log| - 1];
      if e.StreamedOff? then 0 else SessionLength(before) + if e.Dequeued? then 1 else 0
  }

  /** No buffer is ever queued twice in a row. */
  ghost predicate QueuesOnce(log: seq<Event>) {
    forall k, i :: 0 <= k < |log| && log[k] == Queued(i) ==> !InQueue(log[..k], i)
  }

  lemma LogGrows(log: seq<Event>, e: Event)
    requires QueuesOnce(log) && (e.Queued? ==> !InQueue(log, e.i))
    ensures QueuesOnce(log + [e])
    ensures forall i :: InQueue(log + [e], i) == (e == Queued(i) || (!Releases(e, i) && InQueue(log, i)))
    ensures SessionLength(log + [e]) == if e.StreamedOff? then 0 else SessionLength(log) + if e.Dequeued? then 1 else 0
  {
    var log' := log + [e];
    assert log'[..|log|] == log && log'[|log|] == e;
    forall k, i | 0 <= k < |log'| && log'[k] == Queued(i)
      ensures !InQueue(log'[..k], i)
    {
      assert log'[..k] == log[..k];
    }
  }

  /** While nothing releases it, a queued buffer stays queued. */
  lemma {:induction false} StaysQueued(log: seq<Event>, j: nat, k: nat, i: nat)
    requires j < k <= |log| && log[j] == Queued(i)
    requires forall m :: j < m < k ==> !Releases(log[m], i)
    ensures InQueue(log[..k], i)
    decreases k
  {
    assert log[..k][..k - 1] == log[..k - 1];
    if k - 1 != j {
      StaysQueued(log, j, k - 1, i);
    }
  }

  /** Between two accepted qbufs of one buffer lies its dqbuf, a streamoff or its re-announcement. */
  lemma QbufsAreSeparated(log: seq<Event>, j: nat, k: nat, i: nat)
    requires QueuesOnce(log)
    requires j < k < |log| && log[j] == Queued(i) && log[k] == Queued(i)
    ensures exists m :: j < m < k && Releases(log[m], i)
  {
    if forall m :: j < m < k ==> !Releases(log[m], i) {
      StaysQueued(log, j, k, i);
    }
  }

  lemma WrapIncrement(n: nat)
    ensures (n % U32 + 1) % U32 == (n + 1) % U32
  {
  }

  // ---------------------------------------------------------------- mmap

  /** The buffer that v4l2_mmap selects, for the buffer size the file has. */
  function MmapIndex(size: u32, length: nat, offset: nat): Result<nat> {
    if size == 0 then Err(EIO)
    else
      var id := offset / size;
      if id * size != offset || size != length then Err(EINVAL) else Ok(id)
  }

  /** vb.m.offset, computed in 32 bits. */
  function OffsetOf(i: nat, size: u32): u32 {
    (i * size) % U32
  }

  /**
   Mapping with the offset and length that querybuf reported for buffer i selects buffer i exactly when the buffer has
   the size of the latest one, that size is not zero, and the offset did not wrap around 32 bits.
   */
  lemma MmapSelectsTheQueriedBuffer(i: nat, length: u32, size: u32)
    ensures MmapIndex(size, length, OffsetOf(i, length)) == Ok(i) <==>
      size == length && length > 0 && i * length < U32
  {
    if size == length && length > 0 {
      var offset := OffsetOf(i, length);
      if i * length < U32 {
        DivModUnique(i * length, 0, i * length, U32);
        DivModUnique(i * length, i, 0, length);
      } else {
        assert offset < i * length;
      }
    }
  }

  lemma QuotientBelow(offset: nat, size: nat, n: nat)
    requires size > 0
    ensures offset / size < n <==> offset < n * size
    ensures (offset / size) * size == offset <==> offset % size == 0
  {
    var q := offset / size;
    assert offset == q * size + offset % size;
    if q < n {
      MulMonotone(q + 1, n, size);
      assert (q + 1) * size == q * size + size;
    } else {
      MulMonotone(n, q, size);
    }
  }

  /** An announced buffer is selected exactly for the current size at a multiple of it below the announced buffers' end. */
  lemma MmapSelectsAnnouncedIff(size: u32, length: nat, offset: nat, n: nat)
    ensures (MmapIndex(size, length, offset).Ok? && MmapIndex(size, length, offset).value < n) <==>
      length == size > 0 && offset % size == 0 && offset < n * size
  {
    if size > 0 {
      QuotientBelow(offset, size, n);
    }
  }

  /** The offset one past the announced buffers passes the checks, as does every multiple of the size behind it. */
  lemma MmapReachesPastTheEnd(size: u32, n: nat)
    requires size > 0
    ensures MmapIndex(size, size, n * size) == Ok(n)
  {
    DivModUnique(n * size, n, 0, size);
  }

  // ---------------------------------------------------------------- the file

  /** A slot in use describes itself, and its flag tells whether the buffer is with the stream. */
  ghost predicate SlotValid(b: Buffer, i: nat, log: seq<Event>) {
    b.index == i && b.offset == OffsetOf(i, b.length) && (b.queued <==> InQueue(log, i))
  }

  class File {
    var hasStream: bool
    var buffers: array<Buffer>
    var nBuffers: nat
    var size: u32
    var running: bool
    var sequence: u32
    var reqbufs: nat
    var reqbufsFd: int
    var bufferMaps: nat
    ghost var log: seq<Event>

    ghost predicate Valid()
      reads this, buffers
    {
      && buffers.Length == MAX_BUFFERS
      && nBuffers <= MAX_BUFFERS
      && (nBuffers > 0 ==> hasStream)
      && (forall i :: 0 <= i < nBuffers ==> SlotValid(buffers[i], i, log))
      && QueuesOnce(log)
      && sequence == SessionLength(log) % U32
      && (!running ==> SessionLength(log) == 0)
    }

    constructor ()
      ensures Valid() && fresh(buffers)
      ensures nBuffers == 0 && !hasStream && !running && log == [] && reqbufsFd == -1 && bufferMaps == 0
    {
      hasStream, nBuffers, size, running, sequence := false, 0, 0, false, 0;
      reqbufs, reqbufsFd, bufferMaps, log := 0, -1, 0, [];
      buffers := new Buffer[MAX_BUFFERS](_ => Buffer(0, false, false, 0, 0, 0));
    }

    /** on_stream_add_buffer. */
    method AddBuffer(maxsize: u32)
      requires Valid()
      requires hasStream && nBuffers < MAX_BUFFERS
      modifies this, buffers
      ensures Valid()
      ensures buffers == old(buffers) && hasStream && running == old(running) && sequence == old(sequence)
      ensures reqbufs == old(reqbufs) && reqbufsFd == old(reqbufsFd) && bufferMaps == old(bufferMaps)
      ensures nBuffers == old(nBuffers) + 1 && size == maxsize
      ensures forall i :: 0 <= i < old(nBuffers) ==> buffers[i] == old(buffers[i])
      ensures buffers[old(nBuffers)]
           == Buffer(old(nBuffers), false, false, OffsetOf(old(nBuffers), maxsize), maxsize, 0)
      ensures log == old(log) + [Added(old(nBuffers))]
    {
      var id := nBuffers;
      size := maxsize;
      var vb := Buffer(id, false, false, OffsetOf(id, size), size, 0);
      LogGrows(log, Added(id));
      assert SlotValid(vb, id, log + [Added(id)]);
      assert forall i :: 0 <= i < nBuffers ==> SlotValid(buffers[i], i, log + [Added(id)]);
      buffers[id] := vb;
      nBuffers := nBuffers + 1;
      log := log + [Added(id)];
    }

    /** on_stream_remove_buffer. */
    method RemoveBuffer()
      requires Valid() && nBuffers > 0
      modifies this`nBuffers
      ensures Valid()
      ensures nBuffers == old(nBuffers) - 1
    {
      nBuffers := nBuffers - 1;
    }

    /** disconnect_stream. */
    method Disconnect()
      requires Valid()
      modifies this`hasStream, this`nBuffers
      ensures Valid()
      ensures !hasStream && nBuffers == 0
    {
      if hasStream {
        hasStream := false;
        nBuffers := 0;
      }
    }

    /**
     connect_stream. The environment decides whether the format converts, whether the stream can be created, the sizes
     of the buffers that arrive, and whether the stream gets as far as streaming.
     */
    method Connect(formatOk: bool, created: bool, sizes: seq<u32>, reached: bool) returns (res: Result<()>)
      requires Valid()
      requires |sizes| <= MAX_BUFFERS
      modifies this, buffers
      ensures Valid()
      ensures buffers == old(buffers) && running == old(running) && sequence == old(sequence)
      ensures reqbufs == old(reqbufs) && reqbufsFd == old(reqbufsFd) && bufferMaps == old(bufferMaps)
      ensures res.Ok? <==> formatOk && created && reached
      ensures res.Err? ==> res.error == if formatOk then StreamError else EINVAL
      ensures formatOk && created ==>
        && hasStream && nBuffers == |sizes|
        && forall i :: 0 <= i < |sizes| ==> buffers[i] == Buffer(i, false, false, OffsetOf(i, sizes[i]), sizes[i], 0)
      ensures formatOk && !created ==> !hasStream && nBuffers == 0
      ensures !formatOk ==> nBuffers == old(nBuffers) && hasStream == old(hasStream) && log == old(log)
    {
      if !formatOk {
        return Err(EINVAL);
      }
      Disconnect();
      if !created {
        return Err(StreamError);
      }
      hasStream := true;
      var k := 0;
      while k < |sizes|
        invariant Valid() && hasStream && buffers == old(buffers)
        invariant running == old(running) && sequence == old(sequence)
        invariant reqbufs == old(reqbufs) && reqbufsFd == old(reqbufsFd) && bufferMaps == old(bufferMaps)
        invariant 0 <= k <= |sizes| && nBuffers == k
        invariant forall i :: 0 <= i < k ==> buffers[i] == Buffer(i, false, false, OffsetOf(i, sizes[i]), sizes[i], 0)
      {
        AddBuffer(sizes[k]);
        k := k + 1;
      }
      res := if reached then Ok(()) else Err(StreamError);
    }

    /** VIDIOC_REQBUFS. */
    method ReqBufs(fd: int, count: nat, formatOk: bool, created: bool, sizes: seq<u32>, reached: bool)
      returns (res: Result<nat>)
      requires Valid()
      requires |sizes| <= MAX_BUFFERS
      modifies this, buffers
      ensures Valid() && buffers == old(buffers)
      ensures running == old(running) && sequence == old(sequence) && bufferMaps == old(bufferMaps)
      ensures old(nBuffers) > 0 && old(reqbufsFd) != fd ==> res == Err(EBUSY)
      ensures count == 0 && (bufferMaps > 0 || running) ==> res == Err(EBUSY)
      ensures res == Err(EBUSY) ==> nBuffers == old(nBuffers) && hasStream == old(hasStream) && log == old(log)
      ensures res.Ok? && count == 0 ==> !hasStream && nBuffers == 0 && reqbufs == 0 && reqbufsFd == -1 && !running
      ensures res.Ok? && count > 0 ==> hasStream && res.value == nBuffers == |sizes| && reqbufsFd == fd
      ensures res.Ok? <==>
        && !(old(nBuffers) > 0 && old(reqbufsFd) != fd)
        && if count == 0 then bufferMaps == 0 && !running else formatOk && created && reached
    {
      if nBuffers > 0 && reqbufsFd != fd {
        return Err(EBUSY);
      }
      if count == 0 {
        if bufferMaps != 0 || running {
          return Err(EBUSY);
        }
        Disconnect();
        reqbufs, reqbufsFd := 0, -1;
        res := Ok(0);
      } else {
        reqbufs := count;
        var r := Connect(formatOk, created, sizes, reached);
        if r.Err? {
          return Err(r.error);
        }
        reqbufsFd := fd;
        res := Ok(nBuffers);
      }
    }

    /** VIDIOC_QUERYBUF. */
    method QueryBuf(index: nat) returns (res: Result<Buffer>)
      requires Valid()
      ensures res.Ok? <==> index < nBuffers
      ensures res.Ok? ==>
        && res.value == buffers[index] && res.value.index == index
        && res.value.offset == OffsetOf(index, res.value.length)
    {
      if index >= nBuffers {
        return Err(EINVAL);
      }
      res := Ok(buffers[index]);
    }

    /** VIDIOC_QBUF: a buffer that is queued already is refused. */
    method QBuf(index: nat) returns (res: Result<Buffer>)
      requires Valid()
      modifies this`log, buffers
      ensures Valid()
      ensures res.Ok? <==> index < nBuffers && !InQueue(old(log), index)
      ensures res.Ok? ==>
        && log == old(log) + [Queued(index)] && hasStream
        && res.value == buffers[index] == old(buffers[index]).(queued := true)
      ensures res.Err? ==> log == old(log)
      ensures forall i :: 0 <= i < MAX_BUFFERS && (i != index || res.Err?) ==> buffers[i] == old(buffers[i])
    {
      if index >= nBuffers {
        return Err(EINVAL);
      }
      assert SlotValid(buffers[index], index, log);
      if buffers[index].queued {
        return Err(EINVAL);
      }
      buffers[index] := buffers[index].(queued := true);
      LogGrows(log, Queued(index));
      log := log + [Queued(index)];
      res := Ok(buffers[index]);
    }

    /** VIDIOC_DQBUF; `got` is the buffer the stream hands out, or None if waiting for one failed. */
    method DqBuf(index: nat, got: int) returns (res: Result<Buffer>)
      requires Valid()
      requires 0 <= got < nBuffers || got == -1
      modifies this`log, this`sequence, buffers
      ensures Valid()
      ensures res.Ok? <==> index < nBuffers && running && got >= 0
      ensures res.Ok? ==>
        && log == old(log) + [Dequeued(got)] && res.value == buffers[got]
        && res.value.index == got && !res.value.queued && res.value.sequence == SessionLength(old(log)) % U32
      ensures res.Err? ==> log == old(log) && sequence == old(sequence)
      ensures forall i :: 0 <= i < MAX_BUFFERS && (i != got || res.Err?) ==> buffers[i] == old(buffers[i])
    {
      if index >= nBuffers || !running {
        return Err(EINVAL);
      }
      if got < 0 {
        return Err(StreamError);
      }
      assert SlotValid(buffers[got], got, log);
      buffers[got] := buffers[got].(queued := false, sequence := sequence);
      WrapIncrement(SessionLength(log));
      sequence := (sequence + 1) % U32;
      LogGrows(log, Dequeued(got));
      log := log + [Dequeued(got)];
      res := Ok(buffers[got]);
    }

    /** VIDIOC_STREAMON. */
    method StreamOn(activated: bool) returns (res: Result<()>)
      requires Valid()
      modifies this`running
      ensures Valid()
      ensures res.Ok? <==> nBuffers > 0 && (old(running) || activated)
      ensures running == (old(running) || (nBuffers > 0 && activated))
    {
      if nBuffers == 0 {
        return Err(EINVAL);
      }
      if running {
        return Ok(());
      }
      if !activated {
        return Err(StreamError);
      }
      running := true;
      res := Ok(());
    }

    /** The loop of VIDIOC_STREAMOFF. */
    method ClearQueued()
      requires buffers.Length == MAX_BUFFERS && nBuffers <= MAX_BUFFERS
      modifies buffers
      ensures forall i :: 0 <= i < MAX_BUFFERS ==>
        buffers[i] == if i < nBuffers then old(buffers[i]).(queued := false) else old(buffers[i])
    {
      var i := 0;
      while i < nBuffers
        invariant 0 <= i <= nBuffers
        invariant forall k :: 0 <= k < MAX_BUFFERS ==>
          buffers[k] == if k < i then old(buffers[k]).(queued := false) else old(buffers[k])
      {
        buffers[i] := buffers[i].(queued := false);
        i := i + 1;
      }
    }

    /** VIDIOC_STREAMOFF: returns all buffers and starts a new session. */
    method StreamOff()
      requires Valid()
      modifies this`running, this`sequence, this`log, buffers
      ensures Valid()
      ensures !running && sequence == 0
      ensures log == old(log) + [StreamedOff(nBuffers)]
      ensures forall i :: 0 <= i < nBuffers ==> buffers[i] == old(buffers[i]).(queued := false)
    {
      ClearQueued();
      LogGrows(log, StreamedOff(nBuffers));
      log := log + [StreamedOff(nBuffers)];
      if running {
        running := false;
        sequence := 0;
      }
    }

    /**
     The index part of mmap. An index that is computed and not checked can lie behind the announced buffers; nothing is
     promised for such a call.
     */
    method Mmap(length: nat, offset: nat) returns (res: Result<nat>)
      requires Valid()
      modifies this`bufferMaps, buffers
      ensures length == size > 0 && offset % size == 0 && offset < nBuffers * size ==>
        && Valid() && res == Ok(offset / size) && offset / size < nBuffers && bufferMaps == old(bufferMaps) + 1
        && buffers[offset / size] == old(buffers[offset / size]).(mapped := true)
        && forall i :: 0 <= i < MAX_BUFFERS && i != offset / size ==> buffers[i] == old(buffers[i])
      ensures size == 0 || length != size || offset % size != 0 ==>
        && Valid() && res == Err(if size == 0 then EIO else EINVAL)
        && buffers[..] == old(buffers[..]) && bufferMaps == old(bufferMaps)
    {
      res := MmapIndex(size, length, offset);
      MmapSelectsAnnouncedIff(size, length, offset, nBuffers);
      if res.Ok? && res.value < nBuffers {
        buffers[res.value] := buffers[res.value].(mapped := true);
        bufferMaps := bufferMaps + 1;
      }
    }
  }
}
