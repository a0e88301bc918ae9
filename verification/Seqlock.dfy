/**
 The sequence counter between the realtime process callback (one writer) and the delay query (one reader).

 Every load and every store of a shared field is one step; an interleaving is any sequence of steps. `count` is the
 number of increments of the counter so far, `snapshots` the shared fields after each completed callback and `calls`
 what those callbacks were given; the code has only `seq`.
 */
module Seqlock {
  import opened Modular

  /** The number of transferred frames is 64 bits wide. */
  const FRAMES: nat := 0x1_0000_0000_0000_0000

  /** The number of values of the counter, which has the width of a pointer. */
  type Word = w: nat | w > 0 && w % 2 == 0 witness 2

  datatype Config = Config(boundary: nat, playback: bool, word: Word)

  datatype Shared = Shared(delay: int, transfered: nat, buffered: nat, now: int, hwPtr: nat)

  /** One callback: the stream time, the frames asked for, the frames taken from the ring and the frames queued. */
  datatype Call = Call(delay: int, now: int, want: nat, copied: nat, queued: nat)

  /** The statements between the two increments, each with the one store it performs. */
  datatype WriterPc = Idle | AtCarry | AtClear | AtHwPtr | AtDelay | AtTransfered | AtBuffered | AtNow | AtEnd

  datatype ReaderPc = AtSeq1 | LoadDelay | LoadTransfered | LoadNow | LoadHwPtr | AtSeq2

  /** What the query has loaded, with the number of increments at its two counter loads. */
  datatype Reading = Reading(count1: nat, count2: nat, delay: int, transfered: nat, now: int, hwPtr: nat)

  datatype State = State(
    seqno: nat, shared: Shared,
    writer: WriterPc, call: Call,
    reader: ReaderPc, seq1: nat, reading: Reading,
    count: nat, snapshots: seq<Shared>, calls: seq<Call>, results: seq<Reading>)

  datatype Action = Begin(call: Call) | Write | Read

  // ---------------------------------------------------------------- the steps

  function Increment(seqno: nat, word: Word): nat {
    if seqno + 1 >= word then 0 else seqno + 1
  }

  /** The store at a writer position. */
  function Store(cfg: Config, s: Shared, c: Call, pc: WriterPc): Shared {
    match pc
    case AtCarry => if s.now != c.now then s.(transfered := s.buffered) else s
    case AtClear => if s.now != c.now then s.(buffered := 0) else s
    case AtHwPtr =>
      var next := s.hwPtr + c.copied;
      s.(hwPtr := if next >= cfg.boundary then next - cfg.boundary else next)
    case AtDelay => s.(delay := c.delay)
    case AtTransfered => if cfg.playback then s.(transfered := (s.transfered + c.queued) % FRAMES) else s
    case AtBuffered =>
      s.(buffered := if c.want == 0 || s.transfered < c.want then 0 else s.transfered % c.want)
    case AtNow => s.(now := c.now)
    case Idle => s
    case AtEnd => s
  }

  function NextPc(pc: WriterPc): WriterPc {
    match pc
    case Idle => AtCarry
    case AtCarry => AtClear
    case AtClear => AtHwPtr
    case AtHwPtr => AtDelay
    case AtDelay => AtTransfered
    case AtTransfered => AtBuffered
    case AtBuffered => AtNow
    case AtNow => AtEnd
    case AtEnd => Idle
  }

  function BeginStep(cfg: Config, s: State, c: Call): State {
    if s.writer != Idle then s
    else s.(seqno := Increment(s.seqno, cfg.word), count := s.count + 1, writer := AtCarry, call := c)
  }

  function WriteStep(cfg: Config, s: State): State {
    match s.writer
    case Idle => s
    case AtEnd => s.(seqno := Increment(s.seqno, cfg.word), count := s.count + 1, writer := Idle,
                     snapshots := s.snapshots + [s.shared], calls := s.calls + [s.call])
    case _ => s.(shared := Store(cfg, s.shared, s.call, s.writer), writer := NextPc(s.writer))
  }

  /** The two loads agree and no callback was in progress. */
  predicate ReadSuccess(seq1: nat, seq2: nat) {
    seq1 == seq2 && seq2 % 2 == 0
  }

  function ReadStep(s: State): State {
    match s.reader
    case AtSeq1 => s.(seq1 := s.seqno, reading := s.reading.(count1 := s.count), reader := LoadDelay)
    case LoadDelay => s.(reading := s.reading.(delay := s.shared.delay), reader := LoadTransfered)
    case LoadTransfered => s.(reading := s.reading.(transfered := s.shared.transfered), reader := LoadNow)
    case LoadNow => s.(reading := s.reading.(now := s.shared.now), reader := LoadHwPtr)
    case LoadHwPtr => s.(reading := s.reading.(hwPtr := s.shared.hwPtr), reader := AtSeq2)
    case AtSeq2 =>
      var r := s.reading.(count2 := s.count);
      s.(reading := r, reader := AtSeq1, results := if ReadSuccess(s.seq1, s.seqno) then s.results + [r] else s.results)
  }

  function Step(cfg: Config, s: State, a: Action): State {
    match a
    case Begin(c) => BeginStep(cfg, s, c)
    case Write => WriteStep(cfg, s)
    case Read => ReadStep(s)
  }

  function Run(cfg: Config, s: State, actions: seq<Action>): State {
    if actions == [] then s else Step(cfg, Run(cfg, s, actions[..|actions| - 1]), actions[|actions| - 1])
  }

  /** Both threads idle, no callback yet. */
  predicate Initial(s: State) {
    && s.seqno == 0 && s.count == 0 && s.writer == Idle && s.reader == AtSeq1
    && s.snapshots == [s.shared] && s.calls == [] && s.results == []
  }

  // ---------------------------------------------------------------- what a whole callback does

  /** The frames counted against the current period when the callback starts. */
  function Carried(s: Shared, c: Call): nat {
    if s.now != c.now then s.buffered else s.transfered
  }

  function AfterCall(cfg: Config, s: Shared, c: Call): Shared {
    var total := if cfg.playback then (Carried(s, c) + c.queued) % FRAMES else Carried(s, c);
    Shared(c.delay, total, if c.want == 0 || total < c.want then 0 else total % c.want, c.now,
           if s.hwPtr + c.copied >= cfg.boundary then s.hwPtr + c.copied - cfg.boundary else s.hwPtr + c.copied)
  }

  /** The shared fields once the callback in progress has performed its remaining stores. */
  function Finished(cfg: Config, s: Shared, c: Call, pc: WriterPc): Shared
    decreases Left(pc)
  {
    if pc == AtEnd || pc == Idle then s else Finished(cfg, Store(cfg, s, c, pc), c, NextPc(pc))
  }

  function Left(pc: WriterPc): nat {
    match pc
    case AtCarry => 7
    case AtClear => 6
    case AtHwPtr => 5
    case AtDelay => 4
    case AtTransfered => 3
    case AtBuffered => 2
    case AtNow => 1
    case AtEnd => 0
    case Idle => 0
  }

  /** The stores one by one add up to the callback. */
  lemma StoresAddUp(cfg: Config, s: Shared, c: Call)
    ensures Finished(cfg, s, c, AtCarry) == AfterCall(cfg, s, c)
  {
    var s1 := Store(cfg, s, c, AtCarry);
    var s2 := Store(cfg, s1, c, AtClear);
    var s3 := Store(cfg, s2, c, AtHwPtr);
    var s4 := Store(cfg, s3, c, AtDelay);
    var s5 := Store(cfg, s4, c, AtTransfered);
    var s6 := Store(cfg, s5, c, AtBuffered);
    var s7 := Store(cfg, s6, c, AtNow);
    assert Finished(cfg, s7, c, AtEnd) == s7;
    assert Finished(cfg, s6, c, AtNow) == s7;
    assert Finished(cfg, s5, c, AtBuffered) == s7;
    assert Finished(cfg, s4, c, AtTransfered) == s7;
    assert Finished(cfg, s3, c, AtDelay) == s7;
    assert Finished(cfg, s2, c, AtHwPtr) == s7;
    assert Finished(cfg, s1, c, AtClear) == s7;
  }

  // ---------------------------------------------------------------- the invariant

  function Last(snapshots: seq<Shared>): Shared
    requires snapshots != []
  {
    snapshots[|snapshots| - 1]
  }

  ghost predicate WriterInv(cfg: Config, s: State) {
    && s.seqno == Cell(s.count, cfg.word)
    && |s.snapshots| == |s.calls| + 1
    && s.count == 2 * |s.calls| + (if s.writer == Idle then 0 else 1)
    && (s.writer == Idle ==> s.shared == Last(s.snapshots))
    && (s.writer != Idle ==>
          Finished(cfg, s.shared, s.call, s.writer) == AfterCall(cfg, Last(s.snapshots), s.call))
  }

  /** Every snapshot is the whole effect of one callback on the snapshot before. */
  ghost predicate Chained(cfg: Config, snapshots: seq<Shared>, calls: seq<Call>) {
    && |snapshots| == |calls| + 1
    && forall k :: 0 <= k < |calls| ==> snapshots[k + 1] == AfterCall(cfg, snapshots[k], calls[k])
  }

  /** The fields loaded so far are those of one snapshot. */
  ghost predicate LoadedFrom(r: Reading, snap: Shared, pc: ReaderPc) {
    && (pc in {LoadTransfered, LoadNow, LoadHwPtr, AtSeq2} ==> r.delay == snap.delay)
    && (pc in {LoadNow, LoadHwPtr, AtSeq2} ==> r.transfered == snap.transfered)
    && (pc in {LoadHwPtr, AtSeq2} ==> r.now == snap.now)
    && (pc == AtSeq2 ==> r.hwPtr == snap.hwPtr)
  }

  ghost predicate ReaderInv(cfg: Config, s: State) {
    s.reader != AtSeq1 ==>
      && s.reading.count1 <= s.count && s.seq1 == Cell(s.reading.count1, cfg.word)
      && (s.reading.count1 == s.count && s.writer == Idle ==> LoadedFrom(s.reading, s.shared, s.reader))
  }

  /** A finished query saw one snapshot: the one that was current from its first counter load to its last. */
  ghost predicate Consistent(r: Reading, snapshots: seq<Shared>) {
    && r.count1 == r.count2 && r.count1 % 2 == 0 && r.count1 / 2 < |snapshots|
    && LoadedFrom(r, snapshots[r.count1 / 2], AtSeq2)
  }

  ghost predicate ResultInv(word: Word, r: Reading, snapshots: seq<Shared>) {
    r.count1 <= r.count2 && (r.count2 - r.count1 < word ==> Consistent(r, snapshots))
  }

  ghost predicate ResultsInv(word: Word, results: seq<Reading>, snapshots: seq<Shared>) {
    forall i :: 0 <= i < |results| ==> ResultInv(word, results[i], snapshots)
  }

  ghost predicate Inv(cfg: Config, s: State) {
    && WriterInv(cfg, s) && Chained(cfg, s.snapshots, s.calls) && ReaderInv(cfg, s)
    && ResultsInv(cfg.word, s.results, s.snapshots)
  }

  /** The counter follows the number of increments. */
  lemma CounterFollows(count: nat, word: Word)
    ensures Cell(count + 1, word) == Increment(Cell(count, word), word)
  {
    CellAdd(count, 1, word);
  }

  lemma {:induction false} SameParity(a: nat, b: nat)
    requires a % 2 == 0
    ensures (b + a) % 2 == b % 2
  {
    DivModUnique(b + a, b / 2 + a / 2, b % 2, 2);
  }

  lemma {:induction false} CounterParity(count: nat, word: Word)
    ensures Cell(count, word) % 2 == count % 2
  {
    if count >= word {
      CounterParity(count - word, word);
      SameParity(word, count - word);
    }
  }

  /** Equal counter values with less than a whole wrap between the loads mean no increment between the loads. */
  lemma EqualWithinOneWrap(a: nat, b: nat, word: Word)
    requires a <= b < a + word && Cell(a, word) == Cell(b, word)
    ensures a == b
  {
    if a < b {
      CellDistinct(a, b, word);
    }
  }

  lemma BeginKeepsWriterInv(cfg: Config, s: State, c: Call)
    requires WriterInv(cfg, s)
    ensures WriterInv(cfg, BeginStep(cfg, s, c))
  {
    if s.writer == Idle {
      StoresAddUp(cfg, s.shared, c);
      CounterFollows(s.count, cfg.word);
    }
  }

  lemma BeginKeepsInv(cfg: Config, s: State, c: Call)
    requires Inv(cfg, s)
    ensures Inv(cfg, BeginStep(cfg, s, c))
  {
    BeginKeepsWriterInv(cfg, s, c);
  }

  lemma WriteKeepsWriterInv(cfg: Config, s: State)
    requires WriterInv(cfg, s) && Chained(cfg, s.snapshots, s.calls)
    ensures WriterInv(cfg, WriteStep(cfg, s))
    ensures Chained(cfg, WriteStep(cfg, s).snapshots, WriteStep(cfg, s).calls)
  {
    var s' := WriteStep(cfg, s);
    if s.writer == AtEnd {
      assert s.shared == AfterCall(cfg, Last(s.snapshots), s.call);
      assert Last(s'.snapshots) == s.shared;
      CounterFollows(s.count, cfg.word);
    }
  }

  /** Snapshots are only ever appended. */
  lemma ResultsSurvive(word: Word, results: seq<Reading>, snapshots: seq<Shared>, more: seq<Shared>)
    requires ResultsInv(word, results, snapshots)
    ensures ResultsInv(word, results, snapshots + more)
  {
    forall i | 0 <= i < |results|
      ensures ResultInv(word, results[i], snapshots + more)
    {
      var r := results[i];
      assert ResultInv(word, r, snapshots);
      if r.count2 - r.count1 < word {
        assert (snapshots + more)[r.count1 / 2] == snapshots[r.count1 / 2];
      }
    }
  }

  lemma WriteKeepsInv(cfg: Config, s: State)
    requires Inv(cfg, s)
    ensures Inv(cfg, WriteStep(cfg, s))
  {
    WriteKeepsWriterInv(cfg, s);
    ResultsSurvive(cfg.word, s.results, s.snapshots, [s.shared]);
  }

  lemma ReadKeepsReaderInv(cfg: Config, s: State)
    requires WriterInv(cfg, s) && ReaderInv(cfg, s)
    ensures ReaderInv(cfg, ReadStep(s))
  {
  }

  /** A load that ends a query with success adds a consistent result. */
  lemma SuccessIsConsistent(cfg: Config, s: State, r: Reading)
    requires WriterInv(cfg, s) && ReaderInv(cfg, s) && s.reader == AtSeq2 && ReadSuccess(s.seq1, s.seqno)
    requires r == s.reading.(count2 := s.count)
    ensures ResultInv(cfg.word, r, s.snapshots)
  {
    if r.count2 - r.count1 < cfg.word {
      EqualWithinOneWrap(r.count1, r.count2, cfg.word);
      CounterParity(s.count, cfg.word);
      assert s.writer == Idle;
    }
  }

  lemma ReadKeepsInv(cfg: Config, s: State)
    requires Inv(cfg, s)
    ensures Inv(cfg, ReadStep(s))
  {
    ReadKeepsReaderInv(cfg, s);
    if s.reader == AtSeq2 && ReadSuccess(s.seq1, s.seqno) {
      SuccessIsConsistent(cfg, s, s.reading.(count2 := s.count));
    }
  }

  lemma {:induction false} RunInv(cfg: Config, s: State, actions: seq<Action>)
    requires Initial(s)
    ensures Inv(cfg, Run(cfg, s, actions))
  {
    if actions != [] {
      var n := |actions| - 1;
      RunInv(cfg, s, actions[..n]);
      var before := Run(cfg, s, actions[..n]);
      match actions[n] {
        case Begin(c) => BeginKeepsInv(cfg, before, c);
        case Write => WriteKeepsInv(cfg, before);
        case Read => ReadKeepsInv(cfg, before);
      }
    }
  }

  // ---------------------------------------------------------------- main results

  /**
   In every interleaving, a query that succeeds with less than one wrap of the counter between its two counter loads
   returns the four fields of one snapshot: the state after a whole number of callbacks, each applied in full to the one
   before.
   */
  lemma SuccessfulReadsAreSnapshots(cfg: Config, s: State, actions: seq<Action>, i: nat)
    requires Initial(s) && i < |Run(cfg, s, actions).results|
    requires var r := Run(cfg, s, actions).results[i]; r.count2 - r.count1 < cfg.word
    ensures var t := Run(cfg, s, actions);
      var r := t.results[i];
      var k := r.count1 / 2;
      && k < |t.snapshots| && Chained(cfg, t.snapshots, t.calls)
      && r.delay == t.snapshots[k].delay && r.transfered == t.snapshots[k].transfered
      && r.now == t.snapshots[k].now && r.hwPtr == t.snapshots[k].hwPtr
      && r.count1 == r.count2 == 2 * k
  {
    RunInv(cfg, s, actions);
    var t := Run(cfg, s, actions);
    assert ResultInv(cfg.word, t.results[i], t.snapshots);
  }

  /** The frames taken from the ring by the first n callbacks. */
  function Copied(calls: seq<Call>, n: nat): nat
    requires n <= |calls|
  {
    if n == 0 then 0 else Copied(calls, n - 1) + calls[n - 1].copied
  }

  /** The hardware pointer of a snapshot is the number of frames copied so far, modulo the boundary. */
  lemma {:induction false} SnapshotHwPtr(cfg: Config, snapshots: seq<Shared>, calls: seq<Call>, k: nat)
    requires Chained(cfg, snapshots, calls) && k < |snapshots| && cfg.boundary > 0 && snapshots[0].hwPtr == 0
    requires forall j :: 0 <= j < |calls| ==> calls[j].copied <= cfg.boundary
    ensures snapshots[k].hwPtr == Cell(Copied(calls, k), cfg.boundary)
  {
    if k > 0 {
      SnapshotHwPtr(cfg, snapshots, calls, k - 1);
      CellAdd(Copied(calls, k - 1), calls[k - 1].copied, cfg.boundary);
    }
  }

  // ---------------------------------------------------------------- the bound is tight

  function Writes(n: nat): seq<Action> {
    if n == 0 then [] else [Write] + Writes(n - 1)
  }

  /** A callback that is not interrupted, n times over. */
  function Calls(c: Call, n: nat): seq<Action> {
    if n == 0 then [] else Calls(c, n - 1) + ([Begin(c)] + Writes(8))
  }

  lemma {:induction false} RunConcat(cfg: Config, s: State, a: seq<Action>, b: seq<Action>)
    ensures Run(cfg, s, a + b) == Run(cfg, Run(cfg, s, a), b)
    decreases |b|
  {
    if b == [] {
      assert a + b == a;
    } else {
      var n := |b| - 1;
      RunConcat(cfg, s, a, b[..n]);
      assert (a + b)[..|a| + n] == a + b[..n];
    }
  }

  lemma RunOne(cfg: Config, s: State, a: Action)
    ensures Run(cfg, s, [a]) == Step(cfg, s, a)
  {
    assert [a][..0] == [];
    assert Run(cfg, s, []) == s;
  }

  function Completed(cfg: Config, s: State): State {
    var shared := Finished(cfg, s.shared, s.call, s.writer);
    s.(seqno := Increment(s.seqno, cfg.word), count := s.count + 1, writer := Idle, shared := shared,
       snapshots := s.snapshots + [shared], calls := s.calls + [s.call])
  }

  lemma {:induction false} WritesComplete(cfg: Config, s: State, n: nat)
    requires s.writer != Idle && n == Left(s.writer) + 1
    ensures Run(cfg, s, Writes(n)) == Completed(cfg, s)
    decreases n
  {
    var next := WriteStep(cfg, s);
    RunOne(cfg, s, Write);
    RunConcat(cfg, s, [Write], Writes(n - 1));
    if s.writer != AtEnd {
      WritesComplete(cfg, next, n - 1);
    }
  }

  lemma CallCompletes(cfg: Config, s: State, c: Call)
    requires s.writer == Idle
    ensures Run(cfg, s, [Begin(c)] + Writes(8)) == Completed(cfg, BeginStep(cfg, s, c))
    ensures Completed(cfg, BeginStep(cfg, s, c)).shared == AfterCall(cfg, s.shared, c)
  {
    RunOne(cfg, s, Begin(c));
    RunConcat(cfg, s, [Begin(c)], Writes(8));
    WritesComplete(cfg, BeginStep(cfg, s, c), 8);
    StoresAddUp(cfg, s.shared, c);
  }

  const OLD := Shared(0, 0, 0, 0, 0)
  const NEW := Shared(1, 0, 0, 5, 0)
  const TO_NEW := Call(1, 5, 0, 0, 0)

  ghost predicate OnlyOldAndNew(snapshots: seq<Shared>) {
    forall k :: 0 <= k < |snapshots| ==> snapshots[k] == OLD || snapshots[k] == NEW
  }

  ghost predicate OldOrNew(word: Word, s: State) {
    && s.writer == Idle && s.seqno == Cell(s.count, word) && (s.shared == OLD || s.shared == NEW)
    && OnlyOldAndNew(s.snapshots)
  }

  predicate SameReader(s: State, t: State) {
    t.reader == s.reader && t.seq1 == s.seq1 && t.reading == s.reading && t.results == s.results
  }

  lemma CompletedToNew(cfg: Config, s: State, t: State)
    requires cfg.boundary > 0 && OldOrNew(cfg.word, s)
    requires t == Completed(cfg, BeginStep(cfg, s, TO_NEW)) && t.shared == AfterCall(cfg, s.shared, TO_NEW)
    ensures OldOrNew(cfg.word, t) && t.shared == NEW && t.count == s.count + 2 && SameReader(s, t)
  {
    assert AfterCall(cfg, s.shared, TO_NEW) == NEW;
    CounterFollows(s.count, cfg.word);
    CounterFollows(s.count + 1, cfg.word);
  }

  lemma {:induction false} RunLastCall(cfg: Config, s: State, c: Call, n: nat)
    requires n > 0
    ensures Run(cfg, s, Calls(c, n)) == Run(cfg, Run(cfg, s, Calls(c, n - 1)), [Begin(c)] + Writes(8))
  {
    RunConcat(cfg, s, Calls(c, n - 1), [Begin(c)] + Writes(8));
  }

  lemma CallToNew(cfg: Config, s: State)
    requires cfg.boundary > 0 && OldOrNew(cfg.word, s)
    ensures var t := Run(cfg, s, [Begin(TO_NEW)] + Writes(8));
      OldOrNew(cfg.word, t) && t.shared == NEW && t.count == s.count + 2 && SameReader(s, t)
  {
    CallCompletes(cfg, s, TO_NEW);
    CompletedToNew(cfg, s, Completed(cfg, BeginStep(cfg, s, TO_NEW)));
  }

  lemma {:induction false} CallsToNew(cfg: Config, s: State, n: nat)
    requires cfg.boundary > 0 && OldOrNew(cfg.word, s)
    ensures var t := Run(cfg, s, Calls(TO_NEW, n));
      OldOrNew(cfg.word, t) && (n > 0 ==> t.shared == NEW) && t.count == s.count + 2 * n && SameReader(s, t)
  {
    if n > 0 {
      CallsToNew(cfg, s, n - 1);
      RunLastCall(cfg, s, TO_NEW, n);
      CallToNew(cfg, Run(cfg, s, Calls(TO_NEW, n - 1)));
    }
  }

  lemma RunReads(cfg: Config, s: State)
    ensures Run(cfg, s, [Read, Read]) == ReadStep(ReadStep(s))
    ensures Run(cfg, s, [Read, Read] + [Read, Read]) == ReadStep(ReadStep(ReadStep(ReadStep(s))))
  {
    RunOne(cfg, s, Read);
    RunOne(cfg, ReadStep(s), Read);
    RunConcat(cfg, s, [Read], [Read]);
    assert [Read] + [Read] == [Read, Read];
    var t := ReadStep(ReadStep(s));
    RunOne(cfg, t, Read);
    RunOne(cfg, ReadStep(t), Read);
    RunConcat(cfg, t, [Read], [Read]);
    RunConcat(cfg, s, [Read, Read], [Read, Read]);
  }

  /** Two loads, n whole callbacks, the other four loads. */
  function TornActions(n: nat): seq<Action> {
    [Read, Read] + Calls(TO_NEW, n) + ([Read, Read] + [Read, Read])
  }

  lemma TornRun(cfg: Config, s: State, n: nat)
    ensures Run(cfg, s, TornActions(n))
         == ReadStep(ReadStep(ReadStep(ReadStep(Run(cfg, ReadStep(ReadStep(s)), Calls(TO_NEW, n))))))
  {
    RunReads(cfg, s);
    RunConcat(cfg, s, [Read, Read], Calls(TO_NEW, n));
    RunReads(cfg, Run(cfg, ReadStep(ReadStep(s)), Calls(TO_NEW, n)));
    RunConcat(cfg, s, [Read, Read] + Calls(TO_NEW, n), [Read, Read] + [Read, Read]);
  }

  /** The remaining four loads of a query that loaded the counter at 0 and the delay from the old snapshot. */
  lemma LateLoads(word: Word, b: State)
    requires OldOrNew(word, b) && b.shared == NEW && b.count == word && b.reader == LoadTransfered && b.results == []
    requires b.seq1 == 0 && b.reading.count1 == 0 && b.reading.delay == 0
    ensures var t := ReadStep(ReadStep(ReadStep(ReadStep(b))));
      && |t.results| == 1 && t.results[0].count1 == 0 && t.results[0].count2 == word
      && t.results[0].delay == OLD.delay && t.results[0].now == NEW.now && t.snapshots == b.snapshots
  {
    assert Cell(word, word) == Cell(0, word);
  }

  /** With exactly one wrap of the counter between its counter loads, a query can succeed on a mixture of two snapshots. */
  lemma WrapAdmitsTornRead(cfg: Config, s: State, n: nat)
    requires cfg.boundary > 0 && Initial(s) && s.shared == OLD && 2 * n == cfg.word
    ensures var t := Run(cfg, s, TornActions(n));
      && |t.results| == 1 && t.results[0].count2 - t.results[0].count1 == cfg.word
      && forall k :: 0 <= k < |t.snapshots| ==>
           !(t.snapshots[k].delay == t.results[0].delay && t.snapshots[k].now == t.results[0].now)
  {
    var a := ReadStep(ReadStep(s));
    CallsToNew(cfg, a, n);
    LateLoads(cfg.word, Run(cfg, a, Calls(TO_NEW, n)));
    TornRun(cfg, s, n);
  }
}
