/**
 Sharing of the V4L2 shim's files between opens of one device. openat looks the device up under the lock, and connects
 and enters a new file later; whether two opens share one file depends on no other thread being in between.
 */
module OpenRaces {
  import opened Common
  import opened FileRefs

  // ---------------------------------------------------------------- who can put a file into the table

  ghost predicate InMaps(maps: seq<FdMap>, f: FileId) {
    exists i :: 0 <= i < |maps| && maps[i].file == f
  }

  /** The thread has a file that it is going to enter. */
  predicate Brings(thread: Thread, f: FileId) {
    thread == Creating(f) || (thread.Adding? && thread.file == f)
  }

  ghost predicate SomeoneBrings(threads: seq<Thread>, f: FileId) {
    exists u :: 0 <= u < |threads| && Brings(threads[u], f)
  }

  ghost predicate Involved(s: State, f: FileId) {
    InMaps(s.fdMaps, f) || SomeoneBrings(s.threads, f)
  }

  /** The thread is going to enter a file of the device. */
  predicate Opens(files: map<FileId, File>, thread: Thread, dev: nat) {
    || thread == Making(dev)
    || ((thread.Creating? || thread.Adding?) && thread.file in files && files[thread.file].dev == dev)
  }

  /** An open that finds no file while another thread is about to enter one. */
  ghost predicate Racing(s: State, t: nat, step: Step) {
    && step.CallOpen? && IndexOfDev(s.fdMaps, s.files, step.dev) == |s.fdMaps|
    && exists u :: 0 <= u < |s.threads| && u != t && Opens(s.files, s.threads[u], step.dev)
  }

  ghost predicate CalmlyFollows(s: State, s': State) {
    exists t: nat, step ::
      && t < |s.threads| && Step1(s, t, step).Goes? && s' == After(s, t, Step1(s, t, step))
      && !Racing(s, t, step)
  }

  ghost predicate CalmStepsTo(run: seq<State>, k: int) {
    0 < k < |run| && CalmlyFollows(run[k - 1], run[k])
  }

  /** A run without such opens. */
  ghost predicate IsCalmRun(run: seq<State>) {
    IsRun(run) && forall k :: 0 < k < |run| ==> CalmStepsTo(run, k)
  }

  // ---------------------------------------------------------------- the invariant

  ghost predicate OneFile(s: State, f: FileId, g: FileId) {
    Involved(s, f) && Involved(s, g) && f in s.files && g in s.files && s.files[f].dev == s.files[g].dev ==> f == g
  }

  /** Whoever is about to make a file for a device is the only one, and there is none yet. */
  ghost predicate Alone(s: State, t: nat)
    requires t < |s.threads|
  {
    s.threads[t].Making? ==>
      && (forall f: FileId :: Involved(s, f) && f in s.files ==> s.files[f].dev != s.threads[t].dev)
      && forall u :: 0 <= u < |s.threads| && u != t ==> s.threads[u] != s.threads[t]
  }

  ghost predicate OneInv(s: State) {
    && (forall f: FileId, g: FileId :: OneFile(s, f, g))
    && forall t: nat :: t < |s.threads| ==> Alone(s, t)
  }

  lemma InvolvedIsLive(s: State, f: FileId)
    requires Inv(s) && Involved(s, f)
    ensures f in s.files && s.files[f].frees == 0
  {
    if InMaps(s.fdMaps, f) {
      var i :| 0 <= i < |s.fdMaps| && s.fdMaps[i].file == f;
      MappedFileIsLive(s, i);
    } else {
      var u :| 0 <= u < |s.threads| && Brings(s.threads[u], f);
      HeldFileIsLive(s, u, f);
    }
  }

  /** The step puts no other file in line for the table. */
  ghost predicate AddsNone(s: State, t: nat, o: Outcome)
    requires t < |s.threads| && o.Goes?
  {
    && (forall f: FileId :: InMaps(o.fdMaps, f) ==> Involved(s, f))
    && (forall f: FileId :: Brings(o.thread, f) ==> Involved(s, f))
    && (forall f: FileId :: f in s.files ==> f in o.files && o.files[f].dev == s.files[f].dev)
  }

  lemma InvolvedAfter(s: State, t: nat, o: Outcome, f: FileId)
    requires t < |s.threads| && o.Goes? && Involved(After(s, t, o), f)
    ensures InMaps(o.fdMaps, f) || Brings(o.thread, f) || Involved(s, f)
  {
    if !InMaps(o.fdMaps, f) {
      var threads := s.threads[t := o.thread];
      var u :| 0 <= u < |threads| && Brings(threads[u], f);
      if u != t {
        assert Brings(s.threads[u], f);
      }
    }
  }

  /** A step that brings no other file and starts no open. */
  lemma AddsNoneKeeps(s: State, t: nat, o: Outcome)
    requires Inv(s) && OneInv(s) && t < |s.threads| && o.Goes? && AddsNone(s, t, o) && !o.thread.Making?
    ensures OneInv(After(s, t, o))
  {
    var s' := After(s, t, o);
    forall f: FileId | Involved(s', f)
      ensures Involved(s, f) && f in s.files && f in s'.files && s'.files[f].dev == s.files[f].dev
    {
      InvolvedAfter(s, t, o, f);
      InvolvedIsLive(s, f);
    }
    forall f: FileId, g: FileId
      ensures OneFile(s', f, g)
    {
      assert OneFile(s, f, g);
    }
    forall u: nat | u < |s'.threads|
      ensures Alone(s', u)
    {
      assert Alone(s, u);
    }
  }

  lemma {:induction false} NotFound(maps: seq<FdMap>, files: map<FileId, File>, dev: nat, f: FileId)
    requires IndexOfDev(maps, files, dev) == |maps| && InMaps(maps, f) && f in files
    ensures files[f].dev != dev
  {
    var i :| 0 <= i < |maps| && maps[i].file == f;
    if i > 0 {
      assert maps[1..][i - 1].file == f;
      NotFound(maps[1..], files, dev, f);
    }
  }

  /** An open that finds no file and does not race. */
  lemma OpenKeeps(s: State, t: nat, dev: nat)
    requires Inv(s) && OneInv(s) && t < |s.threads| && s.threads[t] == Idle
    requires IndexOfDev(s.fdMaps, s.files, dev) == |s.fdMaps| && !Racing(s, t, CallOpen(dev))
    ensures OneInv(After(s, t, Goes(s.files, s.fdMaps, Making(dev))))
  {
    var o := Goes(s.files, s.fdMaps, Making(dev));
    var s' := After(s, t, o);
    forall f: FileId | Involved(s', f)
      ensures Involved(s, f)
    {
      InvolvedAfter(s, t, o, f);
    }
    forall f: FileId, g: FileId
      ensures OneFile(s', f, g)
    {
      assert OneFile(s, f, g);
    }
    forall f: FileId | Involved(s', f) && f in s.files
      ensures s.files[f].dev != dev
    {
      NoneBefore(s, t, dev, f);
    }
    forall u: nat | u < |s'.threads|
      ensures Alone(s', u)
    {
      assert Alone(s, u);
      assert u != t ==> !Opens(s.files, s.threads[u], dev);
    }
  }

  lemma NoneBefore(s: State, t: nat, dev: nat, f: FileId)
    requires t < |s.threads| && s.threads[t] == Idle && Involved(s, f) && f in s.files
    requires IndexOfDev(s.fdMaps, s.files, dev) == |s.fdMaps| && !Racing(s, t, CallOpen(dev))
    ensures s.files[f].dev != dev
  {
    if InMaps(s.fdMaps, f) {
      NotFound(s.fdMaps, s.files, dev, f);
    } else {
      var u :| 0 <= u < |s.threads| && Brings(s.threads[u], f);
      assert !Opens(s.files, s.threads[u], dev);
    }
  }

  /** A new file for a device that only this thread is opening. */
  lemma MakeKeeps(s: State, t: nat, id: FileId)
    requires Inv(s) && OneInv(s) && t < |s.threads| && s.threads[t].Making? && id !in s.files
    ensures OneInv(After(s, t, ContinueCall(s, s.threads[t], 0, id)))
  {
    var dev, o := s.threads[t].dev, ContinueCall(s, s.threads[t], 0, id);
    var s' := After(s, t, o);
    assert Alone(s, t);
    forall f: FileId | Involved(s', f)
      ensures f == id || (Involved(s, f) && f in s.files && s.files[f].dev != dev && s'.files[f] == s.files[f])
    {
      InvolvedAfter(s, t, o, f);
      if f != id {
        InvolvedIsLive(s, f);
      }
    }
    forall f: FileId, g: FileId
      ensures OneFile(s', f, g)
    {
      assert OneFile(s, f, g);
    }
    forall u: nat | u < |s'.threads|
      ensures Alone(s', u)
    {
      assert Alone(s, u);
    }
  }

  // ---------------------------------------------------------------- the other steps

  lemma {:induction false} FoundIsInMaps(maps: seq<FdMap>, i: nat)
    requires i < |maps|
    ensures InMaps(maps, maps[i].file)
  {
  }

  lemma {:induction false} WithoutIsInMaps(maps: seq<FdMap>, i: nat, f: FileId)
    requires i < |maps| && InMaps(Without(maps, i), f)
    ensures InMaps(maps, f)
  {
    var j :| 0 <= j < |maps| - 1 && Without(maps, i)[j].file == f;
    FoundIsInMaps(maps, if j < i then j else j + 1);
  }

  lemma {:induction false} AppendIsInMaps(maps: seq<FdMap>, e: FdMap, f: FileId)
    ensures InMaps(maps + [e], f) <==> InMaps(maps, f) || e.file == f
  {
    if InMaps(maps, f) {
      var i :| 0 <= i < |maps| && maps[i].file == f;
      assert (maps + [e])[i].file == f;
    }
    assert (maps + [e])[|maps|] == e;
  }

  lemma StartKeeps(s: State, t: nat, step: Step)
    requires Inv(s) && OneInv(s) && t < |s.threads| && s.threads[t] == Idle
    requires StartCall(s, step).Goes? && !Racing(s, t, step)
    ensures OneInv(After(s, t, StartCall(s, step)))
  {
    var o := StartCall(s, step);
    if step.CallOpen? && IndexOfDev(s.fdMaps, s.files, step.dev) == |s.fdMaps| {
      OpenKeeps(s, t, step.dev);
    } else {
      if step.CallClose? && IndexOfFd(s.fdMaps, step.fd) < |s.fdMaps| {
        forall f: FileId | InMaps(o.fdMaps, f)
          ensures InMaps(s.fdMaps, f)
        {
          WithoutIsInMaps(s.fdMaps, IndexOfFd(s.fdMaps, step.fd), f);
        }
      }
      AddsNoneKeeps(s, t, o);
    }
  }

  lemma {:induction false} ContinuationBringsNone(thread: Thread, f: FileId)
    requires IsContinuation(thread)
    ensures !Brings(thread, f) && !thread.Making?
  {
  }

  lemma AddKeeps(s: State, t: nat)
    requires Inv(s) && OneInv(s) && t < |s.threads| && s.threads[t].Adding?
    ensures OneInv(After(s, t, ContinueCall(s, s.threads[t], 0, 0)))
  {
    var th, o := s.threads[t], ContinueCall(s, s.threads[t], 0, 0);
    assert Brings(s.threads[t], th.file);
    forall f: FileId | InMaps(o.fdMaps, f)
      ensures Involved(s, f)
    {
      AppendIsInMaps(s.fdMaps, FdMap(th.res, th.dup, th.file), f);
    }
    AddsNoneKeeps(s, t, o);
  }

  lemma FindKeeps(s: State, t: nat)
    requires Inv(s) && OneInv(s) && t < |s.threads| && s.threads[t].Finding?
    ensures OneInv(After(s, t, ContinueCall(s, s.threads[t], 0, 0)))
  {
    var th, o := s.threads[t], ContinueCall(s, s.threads[t], 0, 0);
    var i := IndexOfFd(s.fdMaps, th.oldFd);
    assert ThreadInv(th);
    if i < |s.fdMaps| {
      FoundIsInMaps(s.fdMaps, i);
    }
    forall f: FileId
      ensures Brings(o.thread, f) ==> Involved(s, f)
    {
      ContinuationBringsNone(th.next, f);
    }
    ContinuationBringsNone(th.next, 0);
    AddsNoneKeeps(s, t, o);
  }

  /** The steps that leave the table alone and go on with what was left to do. */
  lemma RestKeeps(s: State, t: nat, res: int, id: FileId)
    requires Inv(s) && OneInv(s) && t < |s.threads| && ContinueCall(s, s.threads[t], res, id).Goes?
    requires var th := s.threads[t]; !th.Making? && !th.Adding? && !th.Finding?
    ensures OneInv(After(s, t, ContinueCall(s, s.threads[t], res, id)))
  {
    var th, o := s.threads[t], ContinueCall(s, s.threads[t], res, id);
    assert ThreadInv(th);
    forall f: FileId
      ensures Brings(o.thread, f) ==> Involved(s, f)
    {
      if th.Creating? {
        assert Brings(s.threads[t], th.file);
      } else if th.Dropping? || th.Freeing? {
        ContinuationBringsNone(th.next, f);
      }
    }
    if th.Dropping? || th.Freeing? {
      ContinuationBringsNone(th.next, 0);
    }
    AddsNoneKeeps(s, t, o);
  }

  lemma StepKeeps(s: State, t: nat, step: Step)
    requires Inv(s) && OneInv(s) && t < |s.threads| && Step1(s, t, step).Goes? && !Racing(s, t, step)
    ensures OneInv(After(s, t, Step1(s, t, step)))
  {
    if !step.Continue? {
      StartKeeps(s, t, step);
    } else {
      match s.threads[t] {
        case Making(_) => MakeKeeps(s, t, step.id);
        case Adding(_, _, _, _) => AddKeeps(s, t);
        case Finding(_, _, _, _) => FindKeeps(s, t);
        case Dropping(_, _) => RestKeeps(s, t, step.res, step.id);
        case Freeing(_, _) => RestKeeps(s, t, step.res, step.id);
        case Reopening(_) => RestKeeps(s, t, step.res, step.id);
        case Creating(_) => RestKeeps(s, t, step.res, step.id);
        case Closing(_, _) => RestKeeps(s, t, step.res, step.id);
        case Using(_) => RestKeeps(s, t, step.res, step.id);
      }
    }
  }

  lemma {:induction false} CalmRunInv(run: seq<State>, k: nat)
    requires IsCalmRun(run) && k < |run|
    ensures Inv(run[k]) && OneInv(run[k])
  {
    RunInv(run, k);
    if k > 0 {
      CalmRunInv(run, k - 1);
      assert CalmStepsTo(run, k);
      var t: nat, step :| t < |run[k - 1].threads| && Step1(run[k - 1], t, step).Goes?
        && run[k] == After(run[k - 1], t, Step1(run[k - 1], t, step)) && !Racing(run[k - 1], t, step);
      StepKeeps(run[k - 1], t, step);
    }
  }

  /** While no open races, all descriptors of one device share one file, in every interleaving. */
  lemma CalmOpensShare(run: seq<State>, k: nat, i: nat, j: nat)
    requires IsCalmRun(run) && k < |run| && i < |run[k].fdMaps| && j < |run[k].fdMaps|
    ensures var s := run[k];
      var f, g := s.fdMaps[i].file, s.fdMaps[j].file;
      f in s.files && g in s.files && (s.files[f].dev == s.files[g].dev ==> f == g)
  {
    var s := run[k];
    CalmRunInv(run, k);
    MappedFileIsLive(s, i);
    MappedFileIsLive(s, j);
    FoundIsInMaps(s.fdMaps, i);
    FoundIsInMaps(s.fdMaps, j);
    assert OneFile(s, s.fdMaps[i].file, s.fdMaps[j].file);
  }

  // ---------------------------------------------------------------- the condition is needed

  /** Two live files of one device are in the table. */
  ghost predicate TwoFiles(s: State, dev: nat) {
    exists f: FileId, g: FileId :: f != g && IsMappedFile(s, f, dev) && IsMappedFile(s, g, dev)
  }

  ghost predicate IsMappedFile(s: State, f: FileId, dev: nat) {
    InMaps(s.fdMaps, f) && f in s.files && s.files[f].dev == dev
  }

  function Last(run: seq<State>): State
    requires run != []
  {
    run[|run| - 1]
  }

  ghost predicate Extends(run: seq<State>, more: seq<State>) {
    IsRun(more) && |run| <= |more| && more[..|run|] == run
  }

  lemma {:induction false} Extend(start: seq<State>, run: seq<State>, t: nat, step: Step) returns (more: seq<State>)
    requires start != [] && Extends(start, run) && t < |Last(run).threads| && Step1(Last(run), t, step).Goes?
    ensures more != [] && Extends(start, more) && Last(more) == After(Last(run), t, Step1(Last(run), t, step))
  {
    more := run + [After(Last(run), t, Step1(Last(run), t, step))];
    forall k | 0 < k < |more|
      ensures StepsTo(more, k)
    {
      if k < |run| {
        assert StepsTo(run, k);
      } else {
        assert Follows(more[k - 1], more[k]);
      }
    }
    assert more[..|start|] == run[..|start|];
  }

  lemma {:induction false} FreshId(ids: set<FileId>) returns (id: FileId)
    ensures forall i :: i in ids ==> i < id
  {
    if ids == {} {
      id := 0;
    } else {
      var i :| i in ids;
      var bound := FreshId(ids - {i});
      id := if i < bound then bound else i + 1;
      assert forall j :: j in ids ==> j == i || j in ids - {i};
    }
  }

  /** A thread that is going to enter a file of the device enters one, while another waits to make its own. */
  lemma {:induction false} Enter(start: seq<State>, run: seq<State>, u: nat, dev: nat)
    returns (more: seq<State>, f: FileId)
    requires start != [] && Extends(start, run)
    requires u < |Last(run).threads| && Opens(Last(run).files, Last(run).threads[u], dev)
    ensures more != [] && Extends(start, more) && IsMappedFile(Last(more), f, dev)
    ensures |Last(more).threads| == |Last(run).threads|
    ensures forall t :: 0 <= t < |Last(run).threads| && t != u ==> Last(more).threads[t] == Last(run).threads[t]
    ensures forall g: FileId :: IsMappedFile(Last(run), g, dev) ==> IsMappedFile(Last(more), g, dev)
    ensures var thread := Last(run).threads[u];
      if thread.Making? then f !in Last(run).files else f == thread.file
    decreases match Last(run).threads[u] { case Making(_) => 2 case Creating(_) => 1 case _ => 0 }
  {
    var s := Last(run);
    match s.threads[u] {
      case Making(_) =>
        var id := FreshId(s.files.Keys);
        var next := Extend(start, run, u, Continue(0, id));
        more, f := Enter(start, next, u, dev);
      case Creating(_) =>
        var next := Extend(start, run, u, Continue(0, 0));
        more, f := Enter(start, next, u, dev);
      case Adding(res, dup, file, _) =>
        f := file;
        more := Extend(start, run, u, Continue(0, 0));
        forall g: FileId
          ensures InMaps(Last(more).fdMaps, g) <==> InMaps(s.fdMaps, g) || g == file
        {
          AppendIsInMaps(s.fdMaps, FdMap(res, dup, file), g);
        }
    }
  }

  /** Every open that races can end with two files for its device. */
  lemma {:induction false} RacingOpensMayNotShare(run: seq<State>, t: nat, dev: nat) returns (more: seq<State>)
    requires IsRun(run) && t < |Last(run).threads| && Last(run).threads[t] == Idle
    requires Racing(Last(run), t, CallOpen(dev))
    ensures more != [] && Extends(run, more) && TwoFiles(Last(more), dev)
  {
    var s := Last(run);
    var u :| 0 <= u < |s.threads| && u != t && Opens(s.files, s.threads[u], dev);
    assert run[..|run|] == run;
    var begun := Extend(run, run, t, CallOpen(dev));
    var entered, f := Enter(run, begun, u, dev);
    var g;
    more, g := Enter(run, entered, t, dev);
    assert f in Last(entered).files && g !in Last(entered).files;
  }

  /** Two threads that open a device at the same time are enough. */
  lemma {:induction false} TwoOpensMayNotShare(dev: nat) returns (run: seq<State>)
    ensures IsRun(run) && TwoFiles(Last(run), dev)
  {
    var start := [State(map[], [], [Idle, Idle])];
    assert start[..1] == start;
    var one := Extend(start, start, 0, CallOpen(dev));
    assert Opens(Last(one).files, Last(one).threads[0], dev);
    run := RacingOpensMayNotShare(one, 1, dev);
  }
}
