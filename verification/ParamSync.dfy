/**
 How the V4L2 shim keeps its copy of a node's parameters: a pending list that collects announcements (markers, entries
 without a pod) and replies, generation numbers that tell current replies from stale ones, and a commit when the
 server answers the latest sync request.
 */
module ParamSync {
  import opened Common

  /** What the protocol looks at in a pod; `body` stands for the rest. */
  datatype Pod = Pod(isObject: bool, objectId: nat, body: int)

  /** A pending or committed entry; without a pod it is the marker of a new enumeration. */
  datatype Param = Param(id: nat, gen: int, pod: Option<Pod>)

  datatype ParamInfo = ParamInfo(id: nat, readable: bool, serial: nat, user: nat, gen: int)

  const ID_INVALID: nat := 0xffff_ffff

  const PW_ID_CORE: nat := 0

  // ---------------------------------------------------------------- list operations as functions

  function Filter(s: seq<Param>, keep: Param -> bool): (r: seq<Param>)
    ensures |r| <= |s|
    ensures forall x :: x in r <==> x in s && keep(x)
  {
    if s == [] then []
    else if keep(s[0]) then [s[0]] + Filter(s[1..], keep)
    else Filter(s[1..], keep)
  }

  lemma {:induction false} FilterConcat(a: seq<Param>, b: seq<Param>, keep: Param -> bool)
    ensures Filter(a + b, keep) == Filter(a, keep) + Filter(b, keep)
  {
    if a == [] {
      assert a + b == b;
    } else {
      var ab := a + b;
      assert ab[0] == a[0] && ab[1..] == a[1..] + b;
      FilterConcat(a[1..], b, keep);
      assert Filter(ab, keep) == (if keep(a[0]) then [a[0]] else []) + Filter(ab[1..], keep);
      assert Filter(a, keep) == (if keep(a[0]) then [a[0]] else []) + Filter(a[1..], keep);
    }
  }

  lemma {:induction false} FilterSame(s: seq<Param>, f: Param -> bool, g: Param -> bool)
    requires forall x :: x in s ==> f(x) == g(x)
    ensures Filter(s, f) == Filter(s, g)
  {
    if s != [] {
      FilterSame(s[1..], f, g);
    }
  }

  lemma {:induction false} FilterFilter(s: seq<Param>, f: Param -> bool, g: Param -> bool)
    ensures Filter(Filter(s, f), g) == Filter(s, (x: Param) => f(x) && g(x))
  {
    if s != [] {
      FilterFilter(s[1..], f, g);
      if f(s[0]) {
        assert ([s[0]] + Filter(s[1..], f))[1..] == Filter(s[1..], f);
      }
    }
  }

  /** clear_params. */
  function Cleared(list: seq<Param>, id: nat): seq<Param> {
    Filter(list, (p: Param) => id != ID_INVALID && p.id != id)
  }

  /** add_param: the id may come from the pod; an entry without a pod clears its id first. */
  function Added(list: seq<Param>, gen: int, id: nat, pod: Option<Pod>): seq<Param> {
    if id == ID_INVALID && (pod.None? || !pod.value.isObject) then list
    else
      var realId := if id == ID_INVALID then pod.value.objectId else id;
      if pod.Some? then list + [Param(realId, gen, pod)]
      else Cleared(list, realId) + [Param(realId, gen, None)]
  }

  /** A reply of another generation than the one the node info asks for. */
  predicate Stale(p: Param, info: seq<ParamInfo>) {
    p.pod.Some? && exists i :: 0 <= i < |info| && info[i].id == p.id && info[i].gen != p.gen
  }

  /** A reply that is stale for one table slot. */
  predicate StaleFor(p: Param, slot: ParamInfo) {
    p.id == slot.id && p.gen != slot.gen && p.pod.Some?
  }

  function Survivors(pending: seq<Param>, info: seq<ParamInfo>): seq<Param> {
    Filter(pending, (p: Param) => !Stale(p, info))
  }

  /** The consuming loop of update_params. */
  function Committed(list: seq<Param>, pending: seq<Param>): seq<Param>
    decreases |pending|
  {
    if pending == [] then list
    else if pending[0].pod.None? then Committed(Cleared(list, pending[0].id), pending[1..])
    else Committed(list + [pending[0]], pending[1..])
  }

  // ---------------------------------------------------------------- the view of one id

  function OfId(list: seq<Param>, id: nat): seq<Param> {
    Filter(list, (p: Param) => p.id == id)
  }

  /** For one id: at most one marker, and it comes first. */
  predicate MarkerFirst(list: seq<Param>) {
    forall i :: 0 < i < |list| ==> list[i].pod.Some?
  }

  /** In the pending list, each id has at most one marker and no reply before it. Markers carry a real id. */
  ghost predicate PendingInv(pending: seq<Param>) {
    && (forall id: nat :: MarkerFirst(OfId(pending, id)))
    && (forall p :: p in pending && p.pod.None? ==> p.id != ID_INVALID)
  }

  predicate HasMarker(list: seq<Param>, id: nat) {
    exists i :: 0 <= i < |list| && list[i].id == id && list[i].pod.None?
  }

  lemma OfIdCleared(list: seq<Param>, cleared: nat, id: nat)
    requires cleared != ID_INVALID
    ensures OfId(Cleared(list, cleared), id) == if cleared == id then [] else OfId(list, id)
  {
    var f, g := (p: Param) => cleared != ID_INVALID && p.id != cleared, (p: Param) => p.id == id;
    FilterFilter(list, f, g);
    FilterSame(list, (p: Param) => f(p) && g(p), if cleared == id then (p: Param) => false else g);
    FilterNothing(list);
  }

  lemma {:induction false} FilterNothing(list: seq<Param>)
    ensures Filter(list, (p: Param) => false) == []
  {
    if list != [] {
      FilterNothing(list[1..]);
    }
  }

  lemma OfIdSnoc(list: seq<Param>, p: Param, id: nat)
    ensures OfId(list + [p], id) == if p.id == id then OfId(list, id) + [p] else OfId(list, id)
  {
    FilterConcat(list, [p], (q: Param) => q.id == id);
    assert [p][1..] == [];
  }

  /** add_param seen from one id. */
  lemma OfIdAdded(list: seq<Param>, gen: int, id: nat, pod: Option<Pod>, view: nat)
    ensures var realId := if id == ID_INVALID && pod.Some? then pod.value.objectId else id;
      OfId(Added(list, gen, id, pod), view) ==
        if (id == ID_INVALID && (pod.None? || !pod.value.isObject)) || realId != view then OfId(list, view)
        else if pod.Some? then OfId(list, view) + [Param(view, gen, pod)]
        else [Param(view, gen, None)]
  {
    var realId := if id == ID_INVALID && pod.Some? then pod.value.objectId else id;
    if pod.Some? {
      OfIdSnoc(list, Param(realId, gen, pod), view);
    } else if id != ID_INVALID {
      OfIdCleared(list, id, view);
      OfIdSnoc(Cleared(list, id), Param(id, gen, None), view);
    }
  }

  /** Whatever is added, the pending list stays well-formed. */
  lemma AddedKeepsInv(pending: seq<Param>, gen: int, id: nat, pod: Option<Pod>)
    requires PendingInv(pending)
    ensures PendingInv(Added(pending, gen, id, pod))
  {
    var pending' := Added(pending, gen, id, pod);
    forall view: nat
      ensures MarkerFirst(OfId(pending', view))
    {
      OfIdAdded(pending, gen, id, pod, view);
      assert MarkerFirst(OfId(pending, view));
    }
  }

  // ---------------------------------------------------------------- what a commit does to one id

  /** Committing, restricted to the entries of one id. */
  lemma {:induction false} OfIdCommitted(list: seq<Param>, pending: seq<Param>, id: nat)
    requires forall p :: p in pending && p.pod.None? ==> p.id != ID_INVALID
    ensures OfId(Committed(list, pending), id) == Committed(OfId(list, id), OfId(pending, id))
    decreases |pending|
  {
    if pending != [] {
      var p, rest := pending[0], pending[1..];
      var list' := if p.pod.None? then Cleared(list, p.id) else list + [p];
      OfIdCommitted(list', rest, id);
      if p.pod.None? {
        OfIdCleared(list, p.id, id);
      } else {
        OfIdSnoc(list, p, id);
      }
      if p.id == id {
        assert ([p] + OfId(rest, id))[1..] == OfId(rest, id);
        ClearedOfId(list, id);
      }
    }
  }

  lemma ClearedOfId(list: seq<Param>, id: nat)
    ensures id != ID_INVALID ==> Cleared(OfId(list, id), id) == []
  {
    if id != ID_INVALID {
      var f, g := (p: Param) => p.id == id, (p: Param) => id != ID_INVALID && p.id != id;
      FilterFilter(list, f, g);
      FilterSame(list, (p: Param) => f(p) && g(p), (p: Param) => false);
      FilterNothing(list);
    }
  }

  lemma {:induction false} CommittedReplies(list: seq<Param>, pending: seq<Param>)
    requires forall i :: 0 <= i < |pending| ==> pending[i].pod.Some?
    ensures Committed(list, pending) == list + pending
    decreases |pending|
  {
    if pending != [] {
      CommittedReplies(list + [pending[0]], pending[1..]);
    }
  }

  /** The replies a commit lets through. */
  function Fresh(list: seq<Param>, info: seq<ParamInfo>): seq<Param> {
    Filter(list, (p: Param) => p.pod.Some? && !Stale(p, info))
  }

  /** update_params: drop stale replies, then apply the pending entries in order. */
  function Updated(list: seq<Param>, pending: seq<Param>, info: seq<ParamInfo>): seq<Param> {
    Committed(list, Survivors(pending, info))
  }

  lemma OfIdSurvivors(pending: seq<Param>, info: seq<ParamInfo>, id: nat)
    ensures OfId(Survivors(pending, info), id) == Survivors(OfId(pending, id), info)
  {
    var f, g := (p: Param) => !Stale(p, info), (p: Param) => p.id == id;
    FilterFilter(pending, f, g);
    FilterFilter(pending, g, f);
    FilterSame(pending, (p: Param) => f(p) && g(p), (p: Param) => g(p) && f(p));
  }

  lemma SurvivorsAreFresh(list: seq<Param>, info: seq<ParamInfo>)
    requires forall i :: 0 <= i < |list| ==> list[i].pod.Some?
    ensures Survivors(list, info) == Fresh(list, info)
    ensures forall i :: 0 <= i < |Fresh(list, info)| ==> Fresh(list, info)[i].pod.Some?
  {
    FilterSame(list, (p: Param) => !Stale(p, info), (p: Param) => p.pod.Some? && !Stale(p, info));
    forall i | 0 <= i < |Fresh(list, info)|
      ensures Fresh(list, info)[i].pod.Some?
    {
      assert Fresh(list, info)[i] in Fresh(list, info);
    }
  }

  lemma {:induction false} MarkerIsSeen(pending: seq<Param>, id: nat)
    requires MarkerFirst(OfId(pending, id))
    ensures HasMarker(pending, id) <==> OfId(pending, id) != [] && OfId(pending, id)[0].pod.None?
  {
    var view := OfId(pending, id);
    if HasMarker(pending, id) {
      var i :| 0 <= i < |pending| && pending[i].id == id && pending[i].pod.None?;
      assert pending[i] in view;
      var k :| 0 <= k < |view| && view[k] == pending[i];
    } else if view != [] {
      assert view[0] in view;
    }
  }

  /**
   One commit, seen from any id: a marked id is replaced by its current-generation replies, an unmarked id keeps what
   it had and gains its current-generation replies, all in arrival order.
   */
  lemma UpdateById(list: seq<Param>, pending: seq<Param>, info: seq<ParamInfo>, id: nat)
    requires PendingInv(pending)
    ensures OfId(Updated(list, pending, info), id) ==
      (if HasMarker(pending, id) then [] else OfId(list, id)) + Fresh(OfId(pending, id), info)
  {
    var view, before := OfId(pending, id), OfId(list, id);
    assert MarkerFirst(view);
    assert forall p :: p in Survivors(pending, info) && p.pod.None? ==> p.id != ID_INVALID;
    OfIdCommitted(list, Survivors(pending, info), id);
    OfIdSurvivors(pending, info, id);
    MarkerIsSeen(pending, id);
    if view != [] && view[0].pod.None? {
      var marker, rest := view[0], view[1..];
      SurvivorsAreFresh(rest, info);
      assert view[0] in view;
      assert Survivors(view, info) == [marker] + Fresh(rest, info);
      assert Fresh(view, info) == Fresh(rest, info);
      ClearedOfId(list, id);
      assert ([marker] + Fresh(rest, info))[1..] == Fresh(rest, info);
      CommittedReplies([], Fresh(rest, info));
    } else {
      SurvivorsAreFresh(view, info);
      CommittedReplies(before, Fresh(view, info));
    }
  }

  lemma {:induction false} CommittedFrom(list: seq<Param>, pending: seq<Param>, p: Param)
    requires p in Committed(list, pending)
    ensures p in list || (p in pending && p.pod.Some?)
    decreases |pending|
  {
    if pending != [] {
      CommittedFrom(if pending[0].pod.None? then Cleared(list, pending[0].id) else list + [pending[0]], pending[1..], p);
    }
  }

  /** A reply of a stale generation never gets into the committed list. */
  lemma StaleNeverCommitted(list: seq<Param>, pending: seq<Param>, info: seq<ParamInfo>, p: Param)
    requires p in Updated(list, pending, info) && p !in list
    ensures p in pending && p.pod.Some?
    ensures forall i :: 0 <= i < |info| && info[i].id == p.id ==> info[i].gen == p.gen
  {
    CommittedFrom(list, Survivors(pending, info), p);
  }

  // ---------------------------------------------------------------- from the calls since the last commit

  /** One call of add_param on the pending list. */
  datatype Call = Call(gen: int, id: nat, pod: Option<Pod>)

  predicate Ignored(c: Call) {
    c.id == ID_INVALID && (c.pod.None? || !c.pod.value.isObject)
  }

  function RealId(c: Call): nat {
    if c.id == ID_INVALID && c.pod.Some? then c.pod.value.objectId else c.id
  }

  /** The call is accepted and concerns `id`. */
  predicate Concerns(c: Call, id: nat) {
    !Ignored(c) && RealId(c) == id
  }

  predicate Marks(c: Call, id: nat) {
    Concerns(c, id) && c.pod.None?
  }

  function PendingAfter(pending: seq<Param>, calls: seq<Call>): seq<Param>
    decreases |calls|
  {
    if calls == [] then pending
    else
      var n := |calls| - 1;
      Added(PendingAfter(pending, calls[..n]), calls[n].gen, calls[n].id, calls[n].pod)
  }

  /** The entries that the calls for one id ask for, in order. */
  function EntriesOf(calls: seq<Call>, id: nat): seq<Param>
    decreases |calls|
  {
    if calls == [] then []
    else
      var n := |calls| - 1;
      if Concerns(calls[n], id) then EntriesOf(calls[..n], id) + [Param(id, calls[n].gen, calls[n].pod)]
      else EntriesOf(calls[..n], id)
  }

  /** Where the last announcement of an id is, or 0 if there is none. */
  function LastMark(calls: seq<Call>, id: nat): (m: nat)
    ensures m <= |calls|
    ensures forall i :: m < i < |calls| ==> !Marks(calls[i], id)
    ensures m > 0 ==> m < |calls| && Marks(calls[m], id)
    decreases |calls|
  {
    if calls == [] then 0
    else
      var n := |calls| - 1;
      if Marks(calls[n], id) then n else LastMark(calls[..n], id)
  }

  predicate Marked(calls: seq<Call>, id: nat) {
    exists i :: 0 <= i < |calls| && Marks(calls[i], id)
  }

  /** Only what came since the last announcement is still pending. */
  lemma {:induction false} PendingIsSinceLastMark(calls: seq<Call>, id: nat)
    ensures OfId(PendingAfter([], calls), id) == EntriesOf(calls[LastMark(calls, id)..], id)
    decreases |calls|
  {
    if calls != [] {
      var n := |calls| - 1;
      var c, init := calls[n], calls[..n];
      PendingIsSinceLastMark(init, id);
      OfIdAdded(PendingAfter([], init), c.gen, c.id, c.pod, id);
      var m := LastMark(calls, id);
      if Marks(c, id) {
        assert calls[m..] == [c];
        assert EntriesOf([c][..0], id) == [];
      } else {
        var tail := calls[m..];
        assert tail[..|tail| - 1] == init[m..];
        assert tail[|tail| - 1] == c;
      }
    }
  }

  lemma {:induction false} PendingAfterInv(pending: seq<Param>, calls: seq<Call>)
    requires PendingInv(pending)
    ensures PendingInv(PendingAfter(pending, calls))
    decreases |calls|
  {
    if calls != [] {
      var n := |calls| - 1;
      PendingAfterInv(pending, calls[..n]);
      AddedKeepsInv(PendingAfter(pending, calls[..n]), calls[n].gen, calls[n].id, calls[n].pod);
    }
  }

  lemma {:induction false} PendingAfterConcat(pending: seq<Param>, calls: seq<Call>, more: seq<Call>)
    ensures PendingAfter(pending, calls + more) == PendingAfter(PendingAfter(pending, calls), more)
    decreases |more|
  {
    if more == [] {
      assert calls + more == calls;
    } else {
      var n := |more| - 1;
      PendingAfterConcat(pending, calls, more[..n]);
      assert (calls + more)[..|calls| + n] == calls + more[..n];
    }
  }

  lemma {:induction false} MarkerPending(calls: seq<Call>, id: nat)
    ensures HasMarker(PendingAfter([], calls), id) <==> Marked(calls, id)
    decreases |calls|
  {
    if calls != [] {
      var n := |calls| - 1;
      var c, init := calls[n], calls[..n];
      var before, after := PendingAfter([], init), PendingAfter([], calls);
      MarkerPending(init, id);
      AddedMarkers(before, c, id);
      if Marked(init, id) {
        var i :| 0 <= i < |init| && Marks(init[i], id);
        assert Marks(calls[i], id);
      }
    }
  }

  lemma AddedMarkers(pending: seq<Param>, c: Call, id: nat)
    ensures HasMarker(Added(pending, c.gen, c.id, c.pod), id) <==> HasMarker(pending, id) || Marks(c, id)
  {
    var pending' := Added(pending, c.gen, c.id, c.pod);
    if HasMarker(pending, id) && !Marks(c, id) {
      var i :| 0 <= i < |pending| && pending[i].id == id && pending[i].pod.None?;
      assert pending[i] in pending';
    }
    if HasMarker(pending', id) && !Marks(c, id) {
      var i :| 0 <= i < |pending'| && pending'[i].id == id && pending'[i].pod.None?;
      assert pending'[i] in pending;
    }
    if Marks(c, id) {
      assert pending'[|pending'| - 1] == Param(id, c.gen, None);
    }
  }

  /**
   The protocol from one commit to the next, for any sequence of announcements and replies in between and any id:
   an announced id ends up with exactly the current-generation replies that followed its last announcement, in arrival
   order; an id without announcement keeps its list and gains the current-generation replies.
   */
  lemma CommitReflectsLastEnumeration(list: seq<Param>, calls: seq<Call>, info: seq<ParamInfo>, id: nat)
    ensures OfId(Updated(list, PendingAfter([], calls), info), id) ==
      (if Marked(calls, id) then [] else OfId(list, id)) + Fresh(EntriesOf(calls[LastMark(calls, id)..], id), info)
  {
    EmptyPendingInv();
    PendingAfterInv([], calls);
    UpdateById(list, PendingAfter([], calls), info, id);
    PendingIsSinceLastMark(calls, id);
    MarkerPending(calls, id);
  }

  lemma EmptyPendingInv()
    ensures PendingInv([])
  {
  }

  // ---------------------------------------------------------------- the node

  /** What the server says about one parameter: its id and its flags. */
  datatype Listed = Listed(id: nat, readable: bool, serial: nat)

  /** pw_node_info_merge on the parameter table; `gens` is what new table slots happen to contain. */
  function Merged(info: seq<ParamInfo>, update: seq<Listed>, gens: seq<int>): (r: seq<ParamInfo>)
    requires |gens| == |update|
    ensures |r| == |update|
  {
    seq(|update|, i requires 0 <= i < |update| =>
      var u := update[i];
      if i < |info| then
        var changed := info[i].readable != u.readable || info[i].serial != u.serial;
        ParamInfo(u.id, u.readable, u.serial, if changed then 1 else 0, info[i].gen)
      else ParamInfo(u.id, u.readable, u.serial, 1, gens[i]))
  }

  /** The announcements that the first k table slots cause. */
  function Announcements(info: seq<ParamInfo>, k: nat): seq<Call>
    requires k <= |info|
  {
    if k == 0 then []
    else if info[k - 1].user == 0 then Announcements(info, k - 1)
    else Announcements(info, k - 1) + [Call(info[k - 1].gen, info[k - 1].id, None)]
  }

  /** A table slot after its enumeration has been requested; `result` is the asynchronous answer, if it is one. */
  function Requested(p: ParamInfo, result: Option<int>): ParamInfo {
    if p.user == 0 then p
    else if !p.readable then p.(user := 0)
    else p.(user := 0, gen := if result.Some? then result.value else p.gen + 1)
  }

  /** The table after the loop of node_event_info. */
  function AllRequested(table: seq<ParamInfo>, results: seq<Option<int>>): (r: seq<ParamInfo>)
    requires |results| == |table|
    ensures |r| == |table|
    ensures forall i :: 0 <= i < |table| ==> r[i] == Requested(table[i], results[i])
  {
    seq(|table|, i requires 0 <= i < |table| => Requested(table[i], results[i]))
  }

  lemma {:induction false} NothingToAnnounce(table: seq<ParamInfo>, k: nat)
    requires k <= |table| && forall i :: 0 <= i < |table| ==> table[i].user == 0
    ensures Announcements(table, k) == []
  {
    if k > 0 {
      NothingToAnnounce(table, k - 1);
    }
  }

  /** Hearing the same node info again announces nothing and keeps every generation, so replies under way stay current. */
  lemma RepeatedInfoIsSilent(
    info: seq<ParamInfo>, update: seq<Listed>, gens: seq<int>, results: seq<Option<int>>, again: seq<int>)
    requires |gens| == |update| == |results| == |again|
    ensures var table := AllRequested(Merged(info, update, gens), results);
      Announcements(Merged(table, update, again), |update|) == [] && Merged(table, update, again) == table
  {
    var table := AllRequested(Merged(info, update, gens), results);
    var merged := Merged(table, update, again);
    forall i | 0 <= i < |update|
      ensures merged[i] == table[i] && merged[i].user == 0
    {
      assert table[i] == Requested(Merged(info, update, gens)[i], results[i]);
    }
    NothingToAnnounce(merged, |update|);
  }

  class Node {
    var pending: seq<Param>
    var params: seq<Param>
    var info: Option<seq<ParamInfo>>
    var pendingSeq: int
    var lastSeq: int
    /** The add_param calls on the pending list since the last commit. */
    ghost var calls: seq<Call>

    ghost predicate Valid()
      reads this
    {
      pending == PendingAfter([], calls)
    }

    constructor ()
      ensures Valid() && calls == []
      ensures pending == [] && params == [] && info == None && pendingSeq == 0 && lastSeq == 0
    {
      pending, params, info, pendingSeq, lastSeq, calls := [], [], None, 0, 0, [];
    }

    /** clear_params. */
    static method ClearParams(list: seq<Param>, id: nat) returns (rest: seq<Param>, count: nat)
      ensures rest == Cleared(list, id)
      ensures count == |list| - |rest|
    {
      rest, count := [], 0;
      var i := 0;
      while i < |list|
        invariant 0 <= i <= |list|
        invariant rest == Cleared(list[..i], id) && count == i - |rest|
      {
        FilterConcat(list[..i], [list[i]], (p: Param) => id != ID_INVALID && p.id != id);
        assert list[..i + 1] == list[..i] + [list[i]];
        assert [list[i]][1..] == [];
        if id == ID_INVALID || list[i].id == id {
          count := count + 1;
        } else {
          rest := rest + [list[i]];
        }
        i := i + 1;
      }
      assert list[..|list|] == list;
    }

    /** add_param. */
    static method AddParam(list: seq<Param>, gen: int, id: nat, pod: Option<Pod>) returns (res: seq<Param>)
      ensures res == Added(list, gen, id, pod)
    {
      var realId := id;
      if id == ID_INVALID {
        if pod.None? || !pod.value.isObject {
          return list;
        }
        realId := pod.value.objectId;
      }
      res := list;
      if pod.None? {
        var n;
        res, n := ClearParams(res, realId);
      }
      res := res + [Param(realId, gen, pod)];
    }

    /** The first loops of update_params: one pass over the pending list per table slot. */
    static method RemoveStale(pending: seq<Param>, info: seq<ParamInfo>) returns (rest: seq<Param>)
      ensures rest == Survivors(pending, info)
    {
      rest := pending;
      SurvivorsOfNone(pending, info);
      var i := 0;
      while i < |info|
        invariant 0 <= i <= |info|
        invariant rest == Survivors(pending, info[..i])
      {
        SurvivorsStep(pending, info, i);
        rest := RemoveStaleFor(rest, info[i]);
        i := i + 1;
      }
      assert info[..|info|] == info;
    }

    static method RemoveStaleFor(pending: seq<Param>, slot: ParamInfo) returns (rest: seq<Param>)
      ensures rest == Filter(pending, (p: Param) => !StaleFor(p, slot))
    {
      rest := [];
      var k := 0;
      while k < |pending|
        invariant 0 <= k <= |pending|
        invariant rest == Filter(pending[..k], (p: Param) => !StaleFor(p, slot))
      {
        FilterConcat(pending[..k], [pending[k]], (p: Param) => !StaleFor(p, slot));
        assert pending[..k + 1] == pending[..k] + [pending[k]];
        assert [pending[k]][1..] == [];
        if !(pending[k].id == slot.id && pending[k].gen != slot.gen && pending[k].pod.Some?) {
          rest := rest + [pending[k]];
        }
        k := k + 1;
      }
      assert pending[..|pending|] == pending;
    }

    /** update_params. */
    method UpdateParams()
      requires Valid()
      modifies this`pending, this`params, this`calls
      ensures Valid()
      ensures info.None? ==> pending == old(pending) && params == old(params) && calls == old(calls)
      ensures info.Some? ==> pending == [] && calls == [] && params == Updated(old(params), old(pending), info.value)
    {
      if info.None? {
        return;
      }
      pending := RemoveStale(pending, info.value);
      ghost var goal := Committed(params, pending);
      while pending != []
        invariant Committed(params, pending) == goal
        decreases |pending|
      {
        var p := pending[0];
        pending := pending[1..];
        if p.pod.None? {
          var n;
          params, n := ClearParams(params, p.id);
        } else {
          params := params + [p];
        }
      }
      calls := [];
    }

    /** node_event_param. */
    method NodeEventParam(gen: int, id: nat, pod: Option<Pod>)
      requires Valid()
      modifies this`pending, this`calls
      ensures Valid()
      ensures calls == old(calls) + [Call(gen, id, pod)]
    {
      pending := AddParam(pending, gen, id, pod);
      calls := calls + [Call(gen, id, pod)];
      assert calls[..|calls| - 1] == old(calls);
    }

    /** node_event_info: merge the table, announce every changed parameter, ask for the readable ones, then sync. */
    method NodeEventInfo(update: Option<seq<Listed>>, gens: seq<int>, results: seq<Option<int>>, syncSeq: int)
      requires Valid()
      requires update.Some? ==> |gens| == |update.value| == |results|
      modifies this`pending, this`info, this`pendingSeq, this`calls
      ensures Valid()
      ensures pendingSeq == syncSeq
      ensures update.None? ==> calls == old(calls) && info == Some(if old(info).Some? then old(info).value else [])
      ensures update.Some? ==>
        var table := Merged(if old(info).Some? then old(info).value else [], update.value, gens);
        && calls == old(calls) + Announcements(table, |table|)
        && info == Some(AllRequested(table, results))
    {
      var current := if info.Some? then info.value else [];
      info := Some(current);
      if update.Some? {
        var table := Merged(current, update.value, gens);
        var slots;
        pending, slots := Announce(pending, table, results);
        PendingAfterConcat([], calls, Announcements(table, |table|));
        calls := calls + Announcements(table, |table|);
        info := Some(slots);
      }
      pendingSeq := syncSeq;
    }

    /** The loop of node_event_info over the parameter table. */
    static method Announce(before: seq<Param>, table: seq<ParamInfo>, results: seq<Option<int>>)
      returns (pending: seq<Param>, slots: seq<ParamInfo>)
      requires |results| == |table|
      ensures pending == PendingAfter(before, Announcements(table, |table|))
      ensures slots == AllRequested(table, results)
    {
      pending, slots := before, table;
      var i := 0;
      while i < |table|
        invariant 0 <= i <= |table| && |slots| == |table|
        invariant pending == PendingAfter(before, Announcements(table, i))
        invariant forall j :: 0 <= j < |table| ==> slots[j] == if j < i then Requested(table[j], results[j]) else table[j]
      {
        var p := slots[i];
        if p.user != 0 {
          ghost var calls := Announcements(table, i);
          assert (calls + [Call(p.gen, p.id, None)])[..|calls|] == calls;
          pending := AddParam(pending, p.gen, p.id, None);
          var gen := p.gen;
          if p.readable {
            gen := if results[i].Some? then results[i].value else p.gen + 1;
          }
          slots := slots[i := p.(user := 0, gen := gen)];
        }
        i := i + 1;
      }
    }

    /** on_sync_reply: only the answer to the latest request commits. */
    method OnSyncReply(id: nat, syncSeq: int) returns (signalled: bool)
      requires Valid()
      modifies this`pending, this`params, this`lastSeq, this`calls
      ensures Valid()
      ensures signalled == (id == PW_ID_CORE && syncSeq == pendingSeq)
      ensures lastSeq == if id == PW_ID_CORE then syncSeq else old(lastSeq)
      ensures !signalled || info.None? ==> pending == old(pending) && params == old(params) && calls == old(calls)
      ensures signalled && info.Some? ==> pending == [] && calls == [] && forall id: nat ::
        OfId(params, id) == (if Marked(old(calls), id) then [] else OfId(old(params), id))
          + Fresh(EntriesOf(old(calls)[LastMark(old(calls), id)..], id), info.value)
    {
      signalled := false;
      if id != PW_ID_CORE {
        return;
      }
      lastSeq := syncSeq;
      if pendingSeq == syncSeq {
        UpdateParams();
        signalled := true;
        if info.Some? {
          forall id: nat
            ensures OfId(params, id) == (if Marked(old(calls), id) then [] else OfId(old(params), id))
              + Fresh(EntriesOf(old(calls)[LastMark(old(calls), id)..], id), info.value)
          {
            CommitReflectsLastEnumeration(old(params), old(calls), info.value, id);
          }
        }
      }
    }
  }

  lemma {:induction false} FilterAll(s: seq<Param>, keep: Param -> bool)
    requires forall x :: x in s ==> keep(x)
    ensures Filter(s, keep) == s
  {
    if s != [] {
      FilterAll(s[1..], keep);
    }
  }

  lemma SurvivorsOfNone(pending: seq<Param>, info: seq<ParamInfo>)
    ensures Survivors(pending, info[..0]) == pending
  {
    FilterAll(pending, (p: Param) => !Stale(p, info[..0]));
  }

  lemma SurvivorsStep(pending: seq<Param>, info: seq<ParamInfo>, i: nat)
    requires i < |info|
    ensures Filter(Survivors(pending, info[..i]), (p: Param) => !StaleFor(p, info[i])) == Survivors(pending, info[..i + 1])
  {
    var f, g := (p: Param) => !Stale(p, info[..i]), (p: Param) => !StaleFor(p, info[i]);
    FilterFilter(pending, f, g);
    forall p | p in pending
      ensures (f(p) && g(p)) == !Stale(p, info[..i + 1])
    {
      StaleStep(p, info, i);
    }
    FilterSame(pending, (p: Param) => f(p) && g(p), (p: Param) => !Stale(p, info[..i + 1]));
  }

  lemma StaleStep(p: Param, info: seq<ParamInfo>, i: nat)
    requires i < |info|
    ensures Stale(p, info[..i + 1]) <==> Stale(p, info[..i]) || StaleFor(p, info[i])
  {
    var a, b := info[..i], info[..i + 1];
    assert forall k :: 0 <= k < i ==> a[k] == b[k];
    assert b[i] == info[i];
  }
}
