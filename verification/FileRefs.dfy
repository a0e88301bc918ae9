/**
 The reference-counted `struct file` objects of the V4L2 shim, under any number of threads inside open, dup, close,
 ioctl and mmap at once.

 What happens under `globals.lock` is one step, each atomic increment or decrement outside it is one step, and
 free_file runs as a step of its own after the decrement that reached zero. Descriptor numbers are whatever the kernel
 returns. `file_maps` entries carry no reference and are not part of this model.
 */
module FileRefs {
  import opened Common

  type FileId = nat

  const FD_MAP_DUP: bool := true

  /** `frees` counts how often free_file ran on the object. */
  datatype File = File(ref: int, dev: nat, fd: int, closed: bool, frees: nat)

  datatype FdMap = FdMap(fd: int, dup: bool, file: FileId)

  /** Where a thread stands. A continuation is what it does afterwards. */
  datatype Thread =
    | Idle
    /** About to decrement: unref_file. */
    | Dropping(file: FileId, next: Thread)
    /** The decrement returned zero: about to run free_file. */
    | Freeing(file: FileId, next: Thread)
    /** open: the device has a file, its reference is taken. */
    | Reopening(file: FileId)
    /** open: the device had no file when looked up. */
    | Making(dev: nat)
    /** open: a new file is being connected. */
    | Creating(file: FileId)
    /** do_dup: the kernel has duplicated `oldFd` into `res`; find_file comes next. */
    | Finding(oldFd: int, res: int, dup: bool, next: Thread)
    /** add_fd_map comes next. */
    | Adding(res: int, dup: bool, file: FileId, next: Thread)
    /** close: the entry is removed and its reference dropped; the file's fields are read and written next. */
    | Closing(fd: int, file: FileId)
    /** ioctl or mmap, between find_file and unref_file. */
    | Using(file: FileId)

  datatype State = State(files: map<FileId, File>, fdMaps: seq<FdMap>, threads: seq<Thread>)

  ghost predicate Init(s: State) {
    s.files == map[] && s.fdMaps == [] && forall t :: 0 <= t < |s.threads| ==> s.threads[t] == Idle
  }

  // ---------------------------------------------------------------- lookups

  /** The first entry for a descriptor, or the length. */
  function IndexOfFd(maps: seq<FdMap>, fd: int): (i: nat)
    ensures i <= |maps|
    ensures i < |maps| ==> maps[i].fd == fd
  {
    if maps == [] || maps[0].fd == fd then 0 else 1 + IndexOfFd(maps[1..], fd)
  }

  /** The first entry whose file serves a device, or the length. */
  function IndexOfDev(maps: seq<FdMap>, files: map<FileId, File>, dev: nat): (i: nat)
    ensures i <= |maps|
    ensures i < |maps| ==> maps[i].file in files && files[maps[i].file].dev == dev
  {
    if maps == [] || (maps[0].file in files && files[maps[0].file].dev == dev) then 0
    else 1 + IndexOfDev(maps[1..], files, dev)
  }

  // ---------------------------------------------------------------- steps

  function AddRef(files: map<FileId, File>, f: FileId, d: int): map<FileId, File> {
    if f in files then files[f := files[f].(ref := files[f].ref + d)] else files
  }

  function CountFree(files: map<FileId, File>, f: FileId): map<FileId, File> {
    if f in files then files[f := files[f].(frees := files[f].frees + 1)] else files
  }

  datatype Step =
    | CallOpen(dev: nat)
    | CallDup(oldFd: int, res: int)
    | CallClose(fd: int)
    | CallUse(fd: int)
    /** The thread goes on; `res` is the kernel's answer where one is needed, `id` the address of a new object. */
    | Continue(res: int, id: FileId)

  /** The thread's next state and the new globals, if the step is possible. */
  datatype Outcome = Blocked | Goes(files: map<FileId, File>, fdMaps: seq<FdMap>, thread: Thread)

  function StartCall(s: State, step: Step): Outcome {
    match step
    case CallOpen(dev) =>
      var i := IndexOfDev(s.fdMaps, s.files, dev);
      if i < |s.fdMaps| then
        var e := s.fdMaps[i];
        var file := s.files[e.file];
        var reused := file.(ref := file.ref + 1, fd := if file.closed then e.fd else file.fd);
        Goes(s.files[e.file := reused], s.fdMaps, Reopening(e.file))
      else Goes(s.files, s.fdMaps, Making(dev))
    case CallDup(oldFd, res) =>
      if res < 0 then Goes(s.files, s.fdMaps, Idle)
      else Goes(s.files, s.fdMaps, Finding(oldFd, res, FD_MAP_DUP, Idle))
    case CallClose(fd) =>
      var i := IndexOfFd(s.fdMaps, fd);
      if i < |s.fdMaps| then
        var f := s.fdMaps[i].file;
        Goes(AddRef(s.files, f, 1), Without(s.fdMaps, i), Dropping(f, Closing(fd, f)))
      else Goes(s.files, s.fdMaps, Idle)
    case CallUse(fd) =>
      var i := IndexOfFd(s.fdMaps, fd);
      if i < |s.fdMaps| then
        Goes(AddRef(s.files, s.fdMaps[i].file, 1), s.fdMaps, Using(s.fdMaps[i].file))
      else Goes(s.files, s.fdMaps, Idle)
    case Continue(_, _) => Blocked
  }

  function ContinueCall(s: State, thread: Thread, res: int, id: FileId): Outcome {
    match thread
    case Idle => Blocked
    case Dropping(f, next) =>
      if f !in s.files then Blocked
      else Goes(AddRef(s.files, f, -1), s.fdMaps, if s.files[f].ref - 1 <= 0 then Freeing(f, next) else next)
    case Freeing(f, next) => Goes(CountFree(s.files, f), s.fdMaps, next)
    case Reopening(f) =>
      if f !in s.files then Blocked
      else if res < 0 then Goes(s.files, s.fdMaps, Dropping(f, Idle))
      else Goes(s.files, s.fdMaps, Finding(s.files[f].fd, res, false, Dropping(f, Idle)))
    case Making(dev) =>
      if id in s.files then Blocked
      else Goes(s.files[id := File(1, dev, -1, false, 0)], s.fdMaps, Creating(id))
    case Creating(f) =>
      if f !in s.files then Blocked
      else if res < 0 then Goes(CountFree(s.files, f), s.fdMaps, Idle)
      else Goes(s.files[f := s.files[f].(fd := res)], s.fdMaps, Adding(res, false, f, Idle))
    case Finding(oldFd, newFd, dup, next) =>
      var i := IndexOfFd(s.fdMaps, oldFd);
      if i < |s.fdMaps| then
        var e := s.fdMaps[i];
        Goes(AddRef(s.files, e.file, 1), s.fdMaps, Adding(newFd, dup || e.dup, e.file, next))
      else Goes(s.files, s.fdMaps, next)
    case Adding(newFd, dup, f, next) =>
      Goes(AddRef(s.files, f, 1), s.fdMaps + [FdMap(newFd, dup, f)], Dropping(f, next))
    case Closing(_, f) =>
      if f !in s.files then Blocked
      else Goes(s.files[f := s.files[f].(closed := true)], s.fdMaps, Dropping(f, Idle))
    case Using(f) => Goes(s.files, s.fdMaps, Dropping(f, Idle))
  }

  function Step1(s: State, t: nat, step: Step): Outcome
    requires t < |s.threads|
  {
    match step
    case Continue(res, id) => ContinueCall(s, s.threads[t], res, id)
    case _ => if s.threads[t] == Idle then StartCall(s, step) else Blocked
  }

  function After(s: State, t: nat, o: Outcome): State
    requires t < |s.threads| && o.Goes?
  {
    State(o.files, o.fdMaps, s.threads[t := o.thread])
  }

  ghost predicate Follows(s: State, s': State) {
    exists t: nat, step :: t < |s.threads| && Step1(s, t, step).Goes? && s' == After(s, t, Step1(s, t, step))
  }

  /** The k-th state follows from the one before. */
  ghost predicate StepsTo(run: seq<State>, k: int) {
    0 < k < |run| && Follows(run[k - 1], run[k])
  }

  ghost predicate IsRun(run: seq<State>) {
    && |run| > 0
    && Init(run[0])
    && forall k :: 0 < k < |run| ==> StepsTo(run, k)
  }

  // ---------------------------------------------------------------- counting

  function One(b: bool): nat {
    if b then 1 else 0
  }

  /** How many references to f a thread has borrowed and not given back. */
  function Held(thread: Thread, f: FileId): nat {
    match thread
    case Dropping(g, next) => One(g == f) + Held(next, f)
    case Freeing(_, next) => Held(next, f)
    case Finding(_, _, _, next) => Held(next, f)
    case Adding(_, _, g, next) => One(g == f) + Held(next, f)
    case Reopening(g) => One(g == f)
    case Creating(g) => One(g == f)
    case Closing(_, g) => One(g == f)
    case Using(g) => One(g == f)
    case Idle => 0
    case Making(_) => 0
  }

  predicate IsFreeing(thread: Thread, f: FileId) {
    thread.Freeing? && thread.file == f
  }

  function TotalHeld(threads: seq<Thread>, f: FileId): nat {
    if threads == [] then 0 else Held(threads[0], f) + TotalHeld(threads[1..], f)
  }

  function TotalFreeing(threads: seq<Thread>, f: FileId): nat {
    if threads == [] then 0 else One(IsFreeing(threads[0], f)) + TotalFreeing(threads[1..], f)
  }

  /** How many descriptors map to f. */
  function Entries(maps: seq<FdMap>, f: FileId): nat {
    if maps == [] then 0 else One(maps[0].file == f) + Entries(maps[1..], f)
  }

  lemma {:induction false} ThreadChanges(threads: seq<Thread>, t: nat, thread: Thread, f: FileId)
    requires t < |threads|
    ensures TotalHeld(threads[t := thread], f) == TotalHeld(threads, f) - Held(threads[t], f) + Held(thread, f)
    ensures TotalFreeing(threads[t := thread], f)
         == TotalFreeing(threads, f) - One(IsFreeing(threads[t], f)) + One(IsFreeing(thread, f))
    ensures TotalHeld(threads, f) >= Held(threads[t], f)
    ensures TotalFreeing(threads, f) >= One(IsFreeing(threads[t], f))
  {
    if t == 0 {
      assert threads[t := thread][1..] == threads[1..];
    } else {
      ThreadChanges(threads[1..], t - 1, thread, f);
      assert threads[t := thread][1..] == threads[1..][t - 1 := thread];
    }
  }

  lemma {:induction false} EntriesConcat(a: seq<FdMap>, b: seq<FdMap>, f: FileId)
    ensures Entries(a + b, f) == Entries(a, f) + Entries(b, f)
  {
    if a == [] {
      assert a + b == b;
    } else {
      EntriesConcat(a[1..], b, f);
      assert (a + b)[1..] == a[1..] + b;
    }
  }

  lemma EntryAdded(maps: seq<FdMap>, e: FdMap, f: FileId)
    ensures Entries(maps + [e], f) == Entries(maps, f) + One(e.file == f)
  {
    EntriesConcat(maps, [e], f);
    assert Entries([e], f) == One(e.file == f) + Entries([e][1..], f);
  }

  lemma EntryRemoved(maps: seq<FdMap>, i: nat, f: FileId)
    requires i < |maps|
    ensures Entries(maps, f) == Entries(Without(maps, i), f) + One(maps[i].file == f)
  {
    assert maps == maps[..i] + ([maps[i]] + maps[i + 1..]);
    EntriesConcat(maps[..i], [maps[i]] + maps[i + 1..], f);
    assert ([maps[i]] + maps[i + 1..])[1..] == maps[i + 1..];
    EntriesConcat(maps[..i], maps[i + 1..], f);
  }

  // ---------------------------------------------------------------- the invariant

  /** References in the table plus references borrowed by calls in progress. */
  function References(s: State, f: FileId): nat {
    Entries(s.fdMaps, f) + TotalHeld(s.threads, f)
  }

  ghost predicate FileInv(s: State, f: FileId) {
    if f !in s.files then References(s, f) == 0 && TotalFreeing(s.threads, f) == 0
    else if s.files[f].frees + TotalFreeing(s.threads, f) == 0 then s.files[f].ref == References(s, f) >= 1
    else s.files[f].frees + TotalFreeing(s.threads, f) == 1 && References(s, f) == 0
  }

  /** A file that is still being set up is known to its creator only. */
  ghost predicate CreatorInv(s: State, t: nat)
    requires t < |s.threads|
  {
    s.threads[t].Creating? ==> References(s, s.threads[t].file) == 1
  }

  /** What a thread can have left to do after its current action. */
  predicate IsContinuation(thread: Thread) {
    match thread
    case Idle => true
    case Closing(_, _) => true
    case Dropping(_, next) => IsContinuation(next)
    case _ => false
  }

  predicate ThreadInv(thread: Thread) {
    match thread
    case Dropping(_, next) => IsContinuation(next)
    case Freeing(_, next) => IsContinuation(next)
    case Finding(_, _, _, next) => IsContinuation(next)
    case Adding(_, _, _, next) => IsContinuation(next)
    case _ => true
  }

  ghost predicate Inv(s: State) {
    && (forall f: FileId :: FileInv(s, f))
    && (forall t: nat :: t < |s.threads| ==> CreatorInv(s, t))
    && (forall t: nat :: t < |s.threads| ==> ThreadInv(s.threads[t]))
  }

  // ---------------------------------------------------------------- one step

  /** The step concerns file g only. */
  ghost predicate Local(s: State, t: nat, o: Outcome, g: FileId)
    requires t < |s.threads| && o.Goes?
  {
    forall f: FileId :: f != g ==> Untouched(s, t, o, f)
  }

  ghost predicate Untouched(s: State, t: nat, o: Outcome, f: FileId)
    requires t < |s.threads| && o.Goes?
  {
    && (f in o.files <==> f in s.files)
    && (f in s.files ==> o.files[f].ref == s.files[f].ref && o.files[f].frees == s.files[f].frees)
    && Entries(o.fdMaps, f) == Entries(s.fdMaps, f)
    && Held(o.thread, f) == Held(s.threads[t], f)
    && IsFreeing(o.thread, f) == IsFreeing(s.threads[t], f)
  }

  /** No other thread is still setting g up. */
  ghost predicate NoOtherCreator(s: State, t: nat, g: FileId) {
    forall u: nat :: u < |s.threads| && u != t ==> s.threads[u] != Creating(g)
  }

  lemma {:induction false} TwoHolders(threads: seq<Thread>, t: nat, u: nat, f: FileId)
    requires t < |threads| && u < |threads| && t != u
    ensures TotalHeld(threads, f) >= Held(threads[t], f) + Held(threads[u], f)
  {
    ThreadChanges(threads, t, Idle, f);
    ThreadChanges(threads[t := Idle], u, Idle, f);
  }

  lemma HolderIsNotCreatedElsewhere(s: State, t: nat, g: FileId)
    requires Inv(s) && t < |s.threads|
    requires g !in s.files || Entries(s.fdMaps, g) >= 1 || Held(s.threads[t], g) >= 1
    ensures NoOtherCreator(s, t, g)
  {
    forall u: nat | u < |s.threads| && u != t
      ensures s.threads[u] != Creating(g)
    {
      TwoHolders(s.threads, t, u, g);
      assert CreatorInv(s, u);
      assert FileInv(s, g);
    }
  }

  lemma LocalStepInv(s: State, t: nat, o: Outcome, g: FileId)
    requires Inv(s) && t < |s.threads| && o.Goes?
    requires Local(s, t, o, g)
    requires FileInv(After(s, t, o), g)
    requires NoOtherCreator(s, t, g)
    requires o.thread.Creating? ==> o.thread.file == g && References(After(s, t, o), g) == 1
    requires ThreadInv(o.thread)
    ensures Inv(After(s, t, o))
  {
    var s' := After(s, t, o);
    forall f: FileId
      ensures FileInv(s', f)
    {
      if f != g {
        assert FileInv(s, f) && Untouched(s, t, o, f);
        ThreadChanges(s.threads, t, o.thread, f);
      }
    }
    forall u: nat | u < |s.threads|
      ensures CreatorInv(s', u)
    {
      if u != t && s.threads[u].Creating? {
        var f := s.threads[u].file;
        assert CreatorInv(s, u) && Untouched(s, t, o, f);
        ThreadChanges(s.threads, t, o.thread, f);
      }
    }
  }

  /** What a step on file g must balance. */
  lemma BalancedStepInv(s: State, t: nat, o: Outcome, g: FileId)
    requires Inv(s) && t < |s.threads| && o.Goes?
    requires Local(s, t, o, g)
    requires g in s.files && g in o.files
    requires Entries(s.fdMaps, g) >= 1 || Held(s.threads[t], g) >= 1
    requires o.files[g].frees == s.files[g].frees
    requires o.files[g].ref - s.files[g].ref
          == Entries(o.fdMaps, g) - Entries(s.fdMaps, g) + Held(o.thread, g) - Held(s.threads[t], g)
    requires !IsFreeing(s.threads[t], g) && (IsFreeing(o.thread, g) <==> o.files[g].ref <= 0)
    requires !o.thread.Creating? && ThreadInv(o.thread)
    ensures Inv(After(s, t, o))
  {
    assert FileInv(s, g);
    ThreadChanges(s.threads, t, o.thread, g);
    HolderIsNotCreatedElsewhere(s, t, g);
    LocalStepInv(s, t, o, g);
  }

  lemma {:induction false} ContinuationIsNotFreeing(thread: Thread, f: FileId)
    requires IsContinuation(thread)
    ensures !IsFreeing(thread, f) && !thread.Creating? && ThreadInv(thread)
  {
  }

  lemma {:induction false} EntryCounts(maps: seq<FdMap>, i: nat)
    requires i < |maps|
    ensures Entries(maps, maps[i].file) >= 1
  {
    EntryRemoved(maps, i, maps[i].file);
  }

  /** A mapped file exists and is not freed. */
  lemma MappedFileIsLive(s: State, i: nat)
    requires Inv(s) && i < |s.fdMaps|
    ensures Entries(s.fdMaps, s.fdMaps[i].file) >= 1
    ensures s.fdMaps[i].file in s.files
    ensures s.files[s.fdMaps[i].file].frees == 0
  {
    EntryCounts(s.fdMaps, i);
    assert FileInv(s, s.fdMaps[i].file);
  }

  /** A file that some thread holds exists and is not freed, nor about to be. */
  lemma HeldFileIsLive(s: State, t: nat, f: FileId)
    requires Inv(s) && t < |s.threads| && Held(s.threads[t], f) >= 1
    ensures f in s.files
    ensures s.files[f].frees == 0 && TotalFreeing(s.threads, f) == 0
    ensures s.files[f].ref == References(s, f) >= 1
  {
    ThreadChanges(s.threads, t, Idle, f);
    assert FileInv(s, f);
  }

  lemma HeldWhenDropping(f: FileId, fd: int)
    ensures forall g: FileId :: Held(Dropping(f, Idle), g) == One(f == g)
    ensures forall g: FileId :: Held(Dropping(f, Closing(fd, f)), g) == 2 * One(f == g)
  {
    assert forall g: FileId :: Held(Idle, g) == 0 && Held(Closing(fd, f), g) == One(f == g);
  }

  // ---------------------------------------------------------------- the steps

  lemma NothingChanges(s: State, t: nat, o: Outcome)
    requires Inv(s) && t < |s.threads| && o.Goes?
    requires o.files == s.files && o.fdMaps == s.fdMaps
    requires forall f: FileId :: Held(o.thread, f) == Held(s.threads[t], f)
    requires forall f: FileId :: !IsFreeing(o.thread, f) && !IsFreeing(s.threads[t], f)
    requires !o.thread.Creating? && ThreadInv(o.thread)
    ensures Inv(After(s, t, o))
  {
    var s' := After(s, t, o);
    forall f: FileId
      ensures FileInv(s', f) && References(s', f) == References(s, f)
    {
      assert FileInv(s, f);
      ThreadChanges(s.threads, t, o.thread, f);
    }
    forall u: nat | u < |s.threads|
      ensures CreatorInv(s', u)
    {
      assert CreatorInv(s, u);
    }
  }

  lemma StartCallInv(s: State, t: nat, step: Step)
    requires Inv(s) && t < |s.threads| && s.threads[t] == Idle
    requires StartCall(s, step).Goes?
    ensures Inv(After(s, t, StartCall(s, step)))
  {
    var o := StartCall(s, step);
    match step {
      case CallOpen(dev) =>
        var i := IndexOfDev(s.fdMaps, s.files, dev);
        if i < |s.fdMaps| {
          MappedFileIsLive(s, i);
          assert FileInv(s, s.fdMaps[i].file);
          forall g: FileId | g != s.fdMaps[i].file
            ensures Untouched(s, t, o, g)
          {
          }
          BalancedStepInv(s, t, o, s.fdMaps[i].file);
        } else {
          NothingChanges(s, t, o);
        }
      case CallDup(oldFd, res) => NothingChanges(s, t, o);
      case CallClose(fd) =>
        var i := IndexOfFd(s.fdMaps, fd);
        if i < |s.fdMaps| {
          CloseCallInv(s, t, fd, i);
        } else {
          NothingChanges(s, t, o);
        }
      case CallUse(fd) =>
        var i := IndexOfFd(s.fdMaps, fd);
        if i < |s.fdMaps| {
          MappedFileIsLive(s, i);
          assert FileInv(s, s.fdMaps[i].file);
          BalancedStepInv(s, t, o, s.fdMaps[i].file);
        } else {
          NothingChanges(s, t, o);
        }
    }
  }

  /** close takes the entry out and keeps its reference, besides the one of the lookup. */
  lemma CloseCallInv(s: State, t: nat, fd: int, i: nat)
    requires Inv(s) && t < |s.threads| && s.threads[t] == Idle
    requires i < |s.fdMaps|
    ensures var f := s.fdMaps[i].file;
      Inv(After(s, t, Goes(AddRef(s.files, f, 1), Without(s.fdMaps, i), Dropping(f, Closing(fd, f)))))
  {
    var f := s.fdMaps[i].file;
    var o := Goes(AddRef(s.files, f, 1), Without(s.fdMaps, i), Dropping(f, Closing(fd, f)));
    MappedFileIsLive(s, i);
    HeldWhenDropping(f, fd);
    assert FileInv(s, f);
    forall g: FileId
      ensures Entries(s.fdMaps, g) == Entries(o.fdMaps, g) + One(f == g)
    {
      EntryRemoved(s.fdMaps, i, g);
    }
    BalancedStepInv(s, t, o, f);
  }

  /** unref_file: the decrement that reaches zero, and no other, goes on to free. */
  lemma DropInv(s: State, t: nat)
    requires Inv(s) && t < |s.threads| && s.threads[t].Dropping?
    ensures ContinueCall(s, s.threads[t], 0, 0).Goes?
    ensures Inv(After(s, t, ContinueCall(s, s.threads[t], 0, 0)))
    ensures ContinueCall(s, s.threads[t], 0, 0).thread.Freeing? <==> References(s, s.threads[t].file) == 1
  {
    var f, next := s.threads[t].file, s.threads[t].next;
    HeldFileIsLive(s, t, f);
    ContinuationIsNotFreeing(next, f);
    assert !next.Freeing?;
    BalancedStepInv(s, t, ContinueCall(s, s.threads[t], 0, 0), f);
  }

  lemma FreeInv(s: State, t: nat)
    requires Inv(s) && t < |s.threads| && s.threads[t].Freeing?
    ensures Inv(After(s, t, ContinueCall(s, s.threads[t], 0, 0)))
  {
    var f, next := s.threads[t].file, s.threads[t].next;
    var o := ContinueCall(s, s.threads[t], 0, 0);
    ContinuationIsNotFreeing(next, f);
    ThreadChanges(s.threads, t, next, f);
    assert FileInv(s, f);
    forall u: nat | u < |s.threads| && u != t
      ensures s.threads[u] != Creating(f)
    {
      assert CreatorInv(s, u);
    }
    LocalStepInv(s, t, o, f);
  }

  lemma MakeInv(s: State, t: nat, id: FileId)
    requires Inv(s) && t < |s.threads| && s.threads[t].Making? && id !in s.files
    ensures Inv(After(s, t, ContinueCall(s, s.threads[t], 0, id)))
  {
    var o := ContinueCall(s, s.threads[t], 0, id);
    assert FileInv(s, id);
    ThreadChanges(s.threads, t, o.thread, id);
    HolderIsNotCreatedElsewhere(s, t, id);
    LocalStepInv(s, t, o, id);
  }

  /** A failed open frees the object directly, without a decrement: nobody else can know it. */
  lemma CreateInv(s: State, t: nat, res: int)
    requires Inv(s) && t < |s.threads| && s.threads[t].Creating?
    ensures ContinueCall(s, s.threads[t], res, 0).Goes?
    ensures Inv(After(s, t, ContinueCall(s, s.threads[t], res, 0)))
  {
    var f := s.threads[t].file;
    HeldFileIsLive(s, t, f);
    var o := ContinueCall(s, s.threads[t], res, 0);
    assert CreatorInv(s, t);
    if res < 0 {
      ThreadChanges(s.threads, t, Idle, f);
      HolderIsNotCreatedElsewhere(s, t, f);
      LocalStepInv(s, t, o, f);
    } else {
      forall g: FileId
        ensures Held(o.thread, g) == Held(s.threads[t], g) == One(f == g)
        ensures g != f ==> Untouched(s, t, o, g)
      {
        assert Held(Idle, g) == 0;
      }
      BalancedStepInv(s, t, o, f);
    }
  }

  lemma FindInv(s: State, t: nat)
    requires Inv(s) && t < |s.threads| && s.threads[t].Finding?
    ensures Inv(After(s, t, ContinueCall(s, s.threads[t], 0, 0)))
  {
    var th := s.threads[t];
    var o := ContinueCall(s, th, 0, 0);
    var i := IndexOfFd(s.fdMaps, th.oldFd);
    if i < |s.fdMaps| {
      MappedFileIsLive(s, i);
      assert FileInv(s, s.fdMaps[i].file);
      BalancedStepInv(s, t, o, s.fdMaps[i].file);
    } else {
      forall f: FileId
        ensures !IsFreeing(o.thread, f)
      {
        ContinuationIsNotFreeing(th.next, f);
      }
      ContinuationIsNotFreeing(th.next, 0);
      NothingChanges(s, t, o);
    }
  }

  lemma AddInv(s: State, t: nat)
    requires Inv(s) && t < |s.threads| && s.threads[t].Adding?
    ensures Inv(After(s, t, ContinueCall(s, s.threads[t], 0, 0)))
  {
    var th := s.threads[t];
    var o := ContinueCall(s, th, 0, 0);
    HeldFileIsLive(s, t, th.file);
    forall g: FileId
      ensures Entries(o.fdMaps, g) == Entries(s.fdMaps, g) + One(th.file == g)
    {
      EntryAdded(s.fdMaps, FdMap(th.res, th.dup, th.file), g);
    }
    BalancedStepInv(s, t, o, th.file);
  }

  /** The steps that only read or write the fields of a held file. */
  lemma UseInv(s: State, t: nat, res: int)
    requires Inv(s) && t < |s.threads|
    requires s.threads[t].Reopening? || s.threads[t].Closing? || s.threads[t].Using?
    ensures ContinueCall(s, s.threads[t], res, 0).Goes?
    ensures Inv(After(s, t, ContinueCall(s, s.threads[t], res, 0)))
  {
    var f := s.threads[t].file;
    HeldFileIsLive(s, t, f);
    HeldWhenDropping(f, 0);
    var o := ContinueCall(s, s.threads[t], res, 0);
    forall g: FileId
      ensures Held(o.thread, g) == Held(s.threads[t], g) == One(f == g)
      ensures g != f ==> Untouched(s, t, o, g)
    {
      assert Held(Dropping(f, Idle), g) == One(f == g);
    }
    BalancedStepInv(s, t, o, f);
  }

  lemma StepInv(s: State, t: nat, step: Step)
    requires Inv(s) && t < |s.threads| && Step1(s, t, step).Goes?
    ensures Inv(After(s, t, Step1(s, t, step)))
  {
    if !step.Continue? {
      StartCallInv(s, t, step);
    } else {
      match s.threads[t] {
        case Dropping(_, _) => DropInv(s, t);
        case Freeing(_, _) => FreeInv(s, t);
        case Making(_) => MakeInv(s, t, step.id);
        case Creating(_) => CreateInv(s, t, step.res);
        case Finding(_, _, _, _) => FindInv(s, t);
        case Adding(_, _, _, _) => AddInv(s, t);
        case Reopening(_) => UseInv(s, t, step.res);
        case Closing(_, _) => UseInv(s, t, step.res);
        case Using(_) => UseInv(s, t, step.res);
      }
    }
  }

  // ---------------------------------------------------------------- every interleaving

  lemma {:induction false} NobodyHolds(threads: seq<Thread>, f: FileId)
    requires forall t :: 0 <= t < |threads| ==> threads[t] == Idle
    ensures TotalHeld(threads, f) == 0 && TotalFreeing(threads, f) == 0
  {
    if threads != [] {
      NobodyHolds(threads[1..], f);
    }
  }

  lemma {:induction false} RunInv(run: seq<State>, k: nat)
    requires IsRun(run) && k < |run|
    ensures Inv(run[k])
  {
    if k == 0 {
      forall f: FileId
        ensures FileInv(run[0], f)
      {
        NobodyHolds(run[0].threads, f);
      }
    } else {
      RunInv(run, k - 1);
      assert StepsTo(run, k);
      var t: nat, step :| t < |run[k - 1].threads| && Step1(run[k - 1], t, step).Goes?
        && run[k] == After(run[k - 1], t, Step1(run[k - 1], t, step));
      StepInv(run[k - 1], t, step);
    }
  }

  /**
   In every interleaving, the count of a file that free_file has not been called for is the number of its table
   entries plus the number of references borrowed by calls in progress, and is positive; free_file runs at most once,
   and only when both are zero.
   */
  lemma ReferenceCountsAreExact(run: seq<State>, k: nat, f: FileId)
    requires IsRun(run) && k < |run| && f in run[k].files
    ensures run[k].files[f].frees + TotalFreeing(run[k].threads, f) <= 1
    ensures run[k].files[f].frees + TotalFreeing(run[k].threads, f) == 0 <==> References(run[k], f) > 0
    ensures References(run[k], f) > 0 ==> run[k].files[f].ref == References(run[k], f)
  {
    RunInv(run, k);
    assert FileInv(run[k], f);
  }

  /** The file whose memory a thread reads or writes in its next step. */
  function Touches(thread: Thread): set<FileId> {
    match thread
    case Dropping(f, _) => {f}
    case Freeing(f, _) => {f}
    case Reopening(f) => {f}
    case Creating(f) => {f}
    case Adding(_, _, f, _) => {f}
    case Closing(_, f) => {f}
    case Using(f) => {f}
    case _ => {}
  }

  /** No thread ever touches a freed file, and the table never leads to one. */
  lemma NoUseAfterFree(run: seq<State>, k: nat, t: nat, f: FileId)
    requires IsRun(run) && k < |run| && t < |run[k].threads|
    ensures f in Touches(run[k].threads[t]) ==> f in run[k].files && run[k].files[f].frees == 0
    ensures forall i :: 0 <= i < |run[k].fdMaps| ==>
      var g := run[k].fdMaps[i].file; g in run[k].files && run[k].files[g].frees == 0
  {
    RunInv(run, k);
    var s := run[k];
    forall i | 0 <= i < |s.fdMaps|
      ensures s.fdMaps[i].file in s.files && s.files[s.fdMaps[i].file].frees == 0
    {
      MappedFileIsLive(s, i);
    }
    if f in Touches(s.threads[t]) {
      ThreadChanges(s.threads, t, Idle, f);
      assert FileInv(s, f);
    }
  }
}
