/**
 Who owns the strings of the JACK metadata store. Every string that update_property ever allocates is, at any time,
 either in exactly one visible property or freed exactly once, as long as deletions take first or last properties; an
 interior deletion breaks this, because the move to the start of the array loses entries and repeats others.
 */
module MetadataStrings {
  import opened Common
  import opened Metadata

  // ---------------------------------------------------------------- strings in use

  function One(b: bool): nat {
    if b then 1 else 0
  }

  /** How often a property points to string a. */
  function Uses(p: Property, a: nat): nat {
    One(p.at.key == a) + One(p.at.data == a) + One(p.at.ptype == a)
  }

  /** How often the visible entries of an array point to string a. */
  function InArray(ps: seq<Property>, a: nat): nat {
    if ps == [] then 0 else InArray(ps[..|ps| - 1], a) + Uses(ps[|ps| - 1], a)
  }

  function InStore(ds: seq<Description>, a: nat): nat {
    if ds == [] then 0 else InStore(ds[..|ds| - 1], a) + InArray(ds[|ds| - 1].properties, a)
  }

  lemma {:induction false} InArrayConcat(x: seq<Property>, y: seq<Property>, a: nat)
    ensures InArray(x + y, a) == InArray(x, a) + InArray(y, a)
    decreases |y|
  {
    if y == [] {
      assert x + y == x;
    } else {
      var n := |y| - 1;
      InArrayConcat(x, y[..n], a);
      assert (x + y)[..|x| + n] == x + y[..n];
    }
  }

  lemma {:induction false} InArraySnoc(ps: seq<Property>, p: Property, a: nat)
    ensures InArray(ps + [p], a) == InArray(ps, a) + Uses(p, a)
  {
    assert (ps + [p])[..|ps|] == ps;
  }

  /** An array is what is before an entry, the entry, and what is behind it. */
  lemma {:induction false} InArrayAt(ps: seq<Property>, i: nat, a: nat)
    requires i < |ps|
    ensures InArray(ps, a) == InArray(ps[..i], a) + Uses(ps[i], a) + InArray(ps[i + 1..], a)
  {
    assert ps == ps[..i] + [ps[i]] + ps[i + 1..];
    InArrayConcat(ps[..i] + [ps[i]], ps[i + 1..], a);
    InArraySnoc(ps[..i], ps[i], a);
  }

  lemma {:induction false} InArrayReplaced(ps: seq<Property>, i: nat, p: Property, a: nat)
    requires i < |ps|
    ensures InArray(ps[i := p], a) + Uses(ps[i], a) == InArray(ps, a) + Uses(p, a)
  {
    InArrayAt(ps, i, a);
    InArrayAt(ps[i := p], i, a);
    assert ps[i := p][..i] == ps[..i] && ps[i := p][i + 1..] == ps[i + 1..];
  }

  lemma {:induction false} InStoreConcat(x: seq<Description>, y: seq<Description>, a: nat)
    ensures InStore(x + y, a) == InStore(x, a) + InStore(y, a)
    decreases |y|
  {
    if y == [] {
      assert x + y == x;
    } else {
      var n := |y| - 1;
      InStoreConcat(x, y[..n], a);
      assert (x + y)[..|x| + n] == x + y[..n];
    }
  }

  lemma {:induction false} InStoreSnoc(ds: seq<Description>, desc: Description, a: nat)
    ensures InStore(ds + [desc], a) == InStore(ds, a) + InArray(desc.properties, a)
  {
    assert (ds + [desc])[..|ds|] == ds;
  }

  lemma {:induction false} InStoreAt(ds: seq<Description>, d: nat, a: nat)
    requires d < |ds|
    ensures InStore(ds, a) == InStore(Without(ds, d), a) + InArray(ds[d].properties, a)
  {
    assert ds == ds[..d] + [ds[d]] + ds[d + 1..];
    InStoreConcat(ds[..d] + [ds[d]], ds[d + 1..], a);
    InStoreSnoc(ds[..d], ds[d], a);
    InStoreConcat(ds[..d], ds[d + 1..], a);
  }

  lemma {:induction false} InStoreReplaced(ds: seq<Description>, d: nat, desc: Description, a: nat)
    requires d < |ds|
    ensures InStore(ds[d := desc], a) + InArray(ds[d].properties, a) == InStore(ds, a) + InArray(desc.properties, a)
  {
    InStoreAt(ds, d, a);
    InStoreAt(ds[d := desc], d, a);
    assert Without(ds[d := desc], d) == Without(ds, d);
  }

  // ---------------------------------------------------------------- what an update allocates and frees

  /** How often string a is in a list of frees. */
  function Times(frees: seq<nat>, a: nat): nat {
    if frees == [] then 0 else Times(frees[..|frees| - 1], a) + One(frees[|frees| - 1] == a)
  }

  lemma {:induction false} TimesConcat(x: seq<nat>, y: seq<nat>, a: nat)
    ensures Times(x + y, a) == Times(x, a) + Times(y, a)
    decreases |y|
  {
    if y == [] {
      assert x + y == x;
    } else {
      var n := |y| - 1;
      TimesConcat(x, y[..n], a);
      assert (x + y)[..|x| + n] == x + y[..n];
    }
  }

  lemma {:induction false} TimesSnoc(frees: seq<nat>, b: nat, a: nat)
    ensures Times(frees + [b], a) == Times(frees, a) + One(b == a)
  {
    assert (frees + [b])[..|frees|] == frees;
  }

  predicate Appended(now: seq<nat>, before: seq<nat>, more: seq<nat>) {
    now == before + more
  }

  /** clear_property frees key, value and type. */
  function Cleared(p: Property): seq<nat> {
    [p.at.key, p.at.data, p.at.ptype]
  }

  lemma {:induction false} ClearedTimes(p: Property, a: nat)
    ensures Times(Cleared(p), a) == Uses(p, a)
  {
    TimesSnoc([], p.at.key, a);
    TimesSnoc([p.at.key], p.at.data, a);
    TimesSnoc([p.at.key, p.at.data], p.at.ptype, a);
    assert [] + [p.at.key] == [p.at.key];
    assert [p.at.key] + [p.at.data] == [p.at.key, p.at.data];
    assert [p.at.key, p.at.data] + [p.at.ptype] == Cleared(p);
  }

  /** jack_free_description clears every visible entry. */
  function ClearedAll(ps: seq<Property>): seq<nat> {
    if ps == [] then [] else ClearedAll(ps[..|ps| - 1]) + Cleared(ps[|ps| - 1])
  }

  lemma {:induction false} ClearedAllTimes(ps: seq<Property>, a: nat)
    ensures Times(ClearedAll(ps), a) == InArray(ps, a)
  {
    if ps != [] {
      var n := |ps| - 1;
      ClearedAllTimes(ps[..n], a);
      ClearedTimes(ps[n], a);
      TimesConcat(ClearedAll(ps[..n]), Cleared(ps[n]), a);
    }
  }

  /** The strings that change_property frees: those of the texts that differ. */
  function Replaced(p: Property, entry: Entry): seq<nat> {
    (if p.data != entry.data then [p.at.data] else []) + (if p.ptype != entry.ptype then [p.at.ptype] else [])
  }

  lemma {:induction false} ReplacedTimes(p: Property, entry: Entry, a: nat)
    ensures Times(Replaced(p, entry), a)
         == One(p.data != entry.data && p.at.data == a) + One(p.ptype != entry.ptype && p.at.ptype == a)
  {
    var first := if p.data != entry.data then [p.at.data] else [];
    if p.data != entry.data {
      TimesSnoc([], p.at.data, a);
      assert [] + [p.at.data] == first;
    }
    if p.ptype != entry.ptype {
      TimesSnoc(first, p.at.ptype, a);
    } else {
      assert Replaced(p, entry) == first;
    }
  }

  /** The property an update finds, if there is one. */
  function Found(ds: seq<Description>, u: Update): Option<Property> {
    if u.key.Some? && Has(ds, u.subject, u.key.value) then
      var d := SubjectIndex(ds, u.subject);
      Some(ds[d].properties[KeyIndex(ds[d].properties, u.key.value)])
    else None
  }

  /** The strings that an update frees, in order. */
  function Frees(ds: seq<Description>, u: Update): seq<nat> {
    if u.key.None? then
      var d := SubjectIndex(ds, u.subject);
      if d < |ds| then ClearedAll(ds[d].properties) else []
    else if Found(ds, u).None? then []
    else if u.data.None? || u.ptype.None? then Cleared(Found(ds, u).value)
    else Replaced(Found(ds, u).value, Entry(u.data.value, u.ptype.value))
  }

  /** The number of strings that an update allocates. */
  function Allocates(ds: seq<Description>, u: Update): nat {
    if u.key.None? || u.data.None? || u.ptype.None? then 0
    else if Found(ds, u).None? then 3
    else Differences(Found(ds, u).value, Entry(u.data.value, u.ptype.value))
  }

  /** String a is one of the n allocated from `next` on. */
  predicate IsNew(next: nat, n: nat, a: nat) {
    next <= a < next + n
  }

  lemma {:induction false} NewStrings(key: string, entry: Entry, next: nat, a: nat)
    ensures Uses(NewProperty(key, entry, next), a) == One(IsNew(next, 3, a))
  {
  }

  lemma {:induction false} ChangedStrings(p: Property, entry: Entry, next: nat, a: nat)
    ensures Uses(ChangedProperty(p, entry, next), a) + Times(Replaced(p, entry), a)
         == Uses(p, a) + One(IsNew(next, Differences(p, entry), a))
  {
    ReplacedTimes(p, entry, a);
  }

  lemma {:induction false} EndRemoved(ps: seq<Property>, i: nat, a: nat)
    requires i < |ps| && (i == 0 || i == |ps| - 1)
    ensures InArray(Moved(ps, i), a) + Uses(ps[i], a) == InArray(ps, a)
  {
    InArrayAt(ps, i, a);
    if i == 0 {
      assert Moved(ps, i) == ps[1..];
    } else {
      assert Moved(ps, i) == ps[..i];
    }
  }

  // ---------------------------------------------------------------- conservation

  /** What an update adds to the uses of a string is what it allocates, less what it frees. */
  ghost predicate Conserves(ds: seq<Description>, u: Update, next: nat, a: nat) {
    InStore(Applied(ds, u, next), a) + Times(Frees(ds, u), a) == InStore(ds, a) + One(IsNew(next, Allocates(ds, u), a))
  }

  lemma {:induction false} AddFirstConserves(ds: seq<Description>, subject: nat, p: Property, a: nat)
    ensures InStore(ds + [WithProperty(Description(subject, [], 0), p)], a) == InStore(ds, a) + Uses(p, a)
  {
    InStoreSnoc(ds, WithProperty(Description(subject, [], 0), p), a);
    InArraySnoc([], p, a);
  }

  lemma {:induction false} AddConserves(ds: seq<Description>, d: nat, p: Property, a: nat)
    requires d < |ds|
    ensures InStore(ds[d := WithProperty(ds[d], p)], a) == InStore(ds, a) + Uses(p, a)
  {
    InStoreReplaced(ds, d, WithProperty(ds[d], p), a);
    InArraySnoc(ds[d].properties, p, a);
  }

  lemma {:induction false} ChangeConserves(ds: seq<Description>, d: nat, i: nat, entry: Entry, next: nat, a: nat)
    requires d < |ds| && i < |ds[d].properties|
    ensures var p := ds[d].properties[i];
      InStore(ds[d := WithChanged(ds[d], i, entry, next)], a) + Times(Replaced(p, entry), a)
        == InStore(ds, a) + One(IsNew(next, Differences(p, entry), a))
  {
    var ps := ds[d].properties;
    ChangedStrings(ps[i], entry, next, a);
    InStoreReplaced(ds, d, WithChanged(ds[d], i, entry, next), a);
    InArrayReplaced(ps, i, ChangedProperty(ps[i], entry, next), a);
  }

  lemma {:induction false} StoreConserves(ds: seq<Description>, u: Update, next: nat, a: nat)
    requires u.key.Some? && u.data.Some? && u.ptype.Some?
    ensures Conserves(ds, u, next, a)
  {
    var entry := Entry(u.data.value, u.ptype.value);
    var d, p := SubjectIndex(ds, u.subject), NewProperty(u.key.value, entry, next);
    NewStrings(u.key.value, entry, next, a);
    if d == |ds| {
      AddFirstConserves(ds, u.subject, p, a);
    } else {
      var i := KeyIndex(ds[d].properties, u.key.value);
      if i == |ds[d].properties| {
        AddConserves(ds, d, p, a);
      } else {
        ChangeConserves(ds, d, i, entry, next, a);
      }
    }
  }

  lemma {:induction false} RemoveConserves(ds: seq<Description>, d: nat, i: nat, a: nat)
    requires d < |ds| && i < |ds[d].properties| && (i == 0 || i == |ds[d].properties| - 1)
    ensures InStore(Removed(ds, d, i), a) + Times(Cleared(ds[d].properties[i]), a) == InStore(ds, a)
  {
    var ps := ds[d].properties;
    ClearedTimes(ps[i], a);
    EndRemoved(ps, i, a);
    if |ps| == 1 {
      InStoreAt(ds, d, a);
      assert Moved(ps, i) == [];
    } else {
      InStoreReplaced(ds, d, ds[d].(properties := Moved(ps, i)), a);
    }
  }

  lemma {:induction false} DeleteAllConserves(ds: seq<Description>, d: nat, a: nat)
    requires d < |ds|
    ensures InStore(Without(ds, d), a) + Times(ClearedAll(ds[d].properties), a) == InStore(ds, a)
  {
    InStoreAt(ds, d, a);
    ClearedAllTimes(ds[d].properties, a);
  }

  /** Conservation of strings, for every update that is no interior deletion. */
  lemma {:induction false} UpdateConserves(ds: seq<Description>, u: Update, next: nat, a: nat)
    requires AtEnd(ds, u)
    ensures Conserves(ds, u, next, a)
  {
    var d := SubjectIndex(ds, u.subject);
    if u.key.None? {
      if d < |ds| {
        DeleteAllConserves(ds, d, a);
      }
    } else if u.data.None? || u.ptype.None? {
      if Has(ds, u.subject, u.key.value) {
        RemoveConserves(ds, d, KeyIndex(ds[d].properties, u.key.value), a);
      }
    } else {
      StoreConserves(ds, u, next, a);
    }
  }

  // ---------------------------------------------------------------- soundness

  /** The arrays, the next allocation, and what has been freed so far. */
  datatype Image = Image(ds: seq<Description>, next: nat, freed: seq<nat>)

  function After(s: Image, u: Update): Image {
    Image(Applied(s.ds, u, s.next), s.next + Allocates(s.ds, u), s.freed + Frees(s.ds, u))
  }

  /** An allocated string is in use once or has been freed once; any other string is neither in use nor freed. */
  ghost predicate OwnedOnce(s: Image, a: nat) {
    InStore(s.ds, a) + Times(s.freed, a) == One(a < s.next)
  }

  /** No leak, no dangling pointer, no double free. */
  ghost predicate Sound(s: Image) {
    forall a: nat :: OwnedOnce(s, a)
  }

  lemma {:induction false} EndKeepsOwned(s: Image, u: Update, a: nat)
    requires OwnedOnce(s, a) && AtEnd(s.ds, u)
    ensures OwnedOnce(After(s, u), a)
  {
    UpdateConserves(s.ds, u, s.next, a);
    TimesConcat(s.freed, Frees(s.ds, u), a);
  }

  lemma {:induction false} NotInArray(ps: seq<Property>, a: nat)
    requires forall k :: 0 <= k < |ps| ==> Uses(ps[k], a) == 0
    ensures InArray(ps, a) == 0
  {
    if ps != [] {
      NotInArray(ps[..|ps| - 1], a);
    }
  }

  /** A string used once in an array is used by one entry only. */
  lemma {:induction false} UsedElsewhere(ps: seq<Property>, i: nat, j: nat, a: nat)
    requires i < |ps| && j < |ps| && i != j && Uses(ps[i], a) >= 1 && InArray(ps, a) <= 1
    ensures Uses(ps[j], a) == 0
  {
    InArrayAt(ps, i, a);
    if j < i {
      InArrayAt(ps[..i], j, a);
    } else {
      InArrayAt(ps[i + 1..], j - i - 1, a);
    }
  }

  /** After an interior deletion no entry points to the key string of the first property any more. */
  lemma {:induction false} FirstIsLeaked(ps: seq<Property>, i: nat, a: nat)
    requires 0 < i < |ps| - 1 && a == ps[0].at.key && InArray(ps, a) <= 1
    ensures InArray(Moved(ps, i), a) == 0 && Uses(ps[i], a) == 0
  {
    forall k | 0 <= k < |Moved(ps, i)|
      ensures Uses(Moved(ps, i)[k], a) == 0
    {
      MovedAt(ps, i, k);
      UsedElsewhere(ps, 0, Origin(|ps|, i, k), a);
    }
    NotInArray(Moved(ps, i), a);
    UsedElsewhere(ps, 0, i, a);
  }

  lemma {:induction false} InteriorLeaks(s: Image, u: Update)
    requires Sound(s) && !AtEnd(s.ds, u)
    ensures !Sound(After(s, u))
  {
    var d := SubjectIndex(s.ds, u.subject);
    var ps := s.ds[d].properties;
    var i := KeyIndex(ps, u.key.value);
    var a := ps[0].at.key;
    assert OwnedOnce(s, a);
    InStoreAt(s.ds, d, a);
    InArrayAt(ps, 0, a);
    FirstIsLeaked(ps, i, a);
    ClearedTimes(ps[i], a);
    TimesConcat(s.freed, Frees(s.ds, u), a);
    InStoreReplaced(s.ds, d, s.ds[d].(properties := Moved(ps, i)), a);
    assert !OwnedOnce(After(s, u), a);
  }

  /** From soundness, an update keeps it if and only if it is not an interior deletion. */
  lemma {:induction false} UpdateSoundIff(s: Image, u: Update)
    requires Sound(s)
    ensures Sound(After(s, u)) <==> AtEnd(s.ds, u)
  {
    if AtEnd(s.ds, u) {
      forall a: nat
        ensures OwnedOnce(After(s, u), a)
      {
        EndKeepsOwned(s, u, a);
      }
    } else {
      InteriorLeaks(s, u);
    }
  }

  // ---------------------------------------------------------------- the consequence of an interior deletion

  lemma {:induction false} UsedByTwo(ps: seq<Property>, k: nat, l: nat, a: nat)
    requires k < l < |ps|
    ensures InArray(ps, a) >= Uses(ps[k], a) + Uses(ps[l], a)
  {
    InArrayAt(ps, l, a);
    InArrayAt(ps[..l], k, a);
  }

  /** Some string is visible twice after an interior deletion, or visible and freed. */
  lemma {:induction false} InteriorRepeats(ps: seq<Property>, i: nat) returns (a: nat)
    requires 0 < i < |ps| - 1
    ensures InArray(Moved(ps, i), a) + Uses(ps[i], a) >= 2
  {
    var n, after := |ps|, Moved(ps, i);
    if i == n - 2 {
      a := ps[i].at.key;
      MovedAt(ps, i, i);
      InArrayAt(after, i, a);
    } else {
      var j := if i + 1 > n - 1 - i then i + 1 else n - 1 - i;
      a := ps[j].at.key;
      MovedAt(ps, i, j - i - 1);
      MovedAt(ps, i, j);
      UsedByTwo(after, j - i - 1, j, a);
    }
  }

  lemma {:induction false} SubjectStays(ds: seq<Description>, subject: nat, d: nat, desc: Description)
    requires d == SubjectIndex(ds, subject) < |ds| && desc.subject == subject
    ensures SubjectIndex(ds[d := desc], subject) == d
  {
    var ds' := ds[d := desc];
    assert ds'[d].subject == subject;
    assert forall j :: 0 <= j < d ==> ds'[j].subject == ds[j].subject;
  }

  /** Deleting the whole description after an interior deletion frees some string a second time. */
  lemma {:induction false} InteriorFreesTwice(s: Image, u: Update) returns (a: nat)
    requires !AtEnd(s.ds, u)
    ensures Times(After(After(s, u), Update(u.subject, None, None, None)).freed, a) >= 2
  {
    var d := SubjectIndex(s.ds, u.subject);
    var ps := s.ds[d].properties;
    var i := KeyIndex(ps, u.key.value);
    var t := After(s, u);
    a := InteriorRepeats(ps, i);
    SubjectStays(s.ds, u.subject, d, s.ds[d].(properties := Moved(ps, i)));
    ClearedTimes(ps[i], a);
    TimesConcat(s.freed, Frees(s.ds, u), a);
    ClearedAllTimes(Moved(ps, i), a);
    TimesConcat(t.freed, ClearedAll(Moved(ps, i)), a);
    assert Frees(t.ds, Update(u.subject, None, None, None)) == ClearedAll(Moved(ps, i));
  }

  // ---------------------------------------------------------------- whole runs

  /** The store after a sequence of updates, from nothing. */
  function Run(us: seq<Update>): Image {
    if us == [] then Image([], 0, []) else After(Run(us[..|us| - 1]), us[|us| - 1])
  }

  function SpecRun(us: seq<Update>): Contents {
    if us == [] then map[] else Updated(SpecRun(us[..|us| - 1]), us[|us| - 1])
  }

  /** Every deletion of the run takes the first or the last property of its description. */
  predicate EndsOnly(us: seq<Update>) {
    us != [] ==> EndsOnly(us[..|us| - 1]) && AtEnd(Run(us[..|us| - 1]).ds, us[|us| - 1])
  }

  /** Such a run agrees with the map of maps, and has lost, shared or freed twice no string. */
  lemma {:induction false} RunAgrees(us: seq<Update>)
    requires EndsOnly(us)
    ensures Agrees(Run(us).ds, SpecRun(us)) && Sound(Run(us))
  {
    if us == [] {
      forall a: nat
        ensures OwnedOnce(Run(us), a)
      {
        assert Times([], a) == 0 && InStore([], a) == 0;
      }
    } else {
      var n := |us| - 1;
      RunAgrees(us[..n]);
      var s := Run(us[..n]);
      UpdateAgreesIff(s.ds, SpecRun(us[..n]), us[n], s.next);
      UpdateSoundIff(s, us[n]);
    }
  }

  // ---------------------------------------------------------------- what a call may touch

  /** No visible entry points to a freed string. */
  ghost predicate Readable(ds: seq<Description>, freed: seq<nat>) {
    forall a: nat {:trigger InStore(ds, a)} :: InStore(ds, a) > 0 ==> Times(freed, a) == 0
  }

  /** The listed strings have not been freed, and each is listed once. */
  ghost predicate MayFree(freed: seq<nat>, list: seq<nat>) {
    forall a: nat {:trigger Times(list, a)} :: Times(freed, a) + Times(list, a) <= 1
  }

  /** A property of the arrays counts among the strings in use. */
  lemma {:induction false} EntryInStore(ds: seq<Description>, d: nat, i: nat, a: nat)
    requires d < |ds| && i < |ds[d].properties|
    ensures InStore(ds, a) >= InArray(ds[d].properties, a) >= Uses(ds[d].properties[i], a)
  {
    InStoreAt(ds, d, a);
    InArrayAt(ds[d].properties, i, a);
  }

  lemma {:induction false} ReadableAt(ds: seq<Description>, freed: seq<nat>, d: nat, i: nat, a: nat)
    requires Readable(ds, freed) && d < |ds| && i < |ds[d].properties| && Uses(ds[d].properties[i], a) > 0
    ensures Times(freed, a) == 0
  {
    EntryInStore(ds, d, i, a);
  }

  lemma {:induction false} AllInUse(ds: seq<Description>, d: nat, a: nat)
    requires d < |ds|
    ensures Times(ClearedAll(ds[d].properties), a) <= InStore(ds, a)
  {
    InStoreAt(ds, d, a);
    ClearedAllTimes(ds[d].properties, a);
  }

  lemma {:induction false} ReplacedInUse(p: Property, entry: Entry, a: nat)
    ensures Times(Replaced(p, entry), a) <= Uses(p, a)
  {
    ReplacedTimes(p, entry, a);
  }

  lemma {:induction false} FreesAreInUse(ds: seq<Description>, u: Update, a: nat)
    ensures Times(Frees(ds, u), a) <= InStore(ds, a)
  {
    var d := SubjectIndex(ds, u.subject);
    if u.key.None? {
      if d < |ds| {
        AllInUse(ds, d, a);
      }
    } else if Found(ds, u).Some? {
      var i := KeyIndex(ds[d].properties, u.key.value);
      EntryInStore(ds, d, i, a);
      if u.data.None? || u.ptype.None? {
        ClearedTimes(ds[d].properties[i], a);
      } else {
        ReplacedInUse(ds[d].properties[i], Entry(u.data.value, u.ptype.value), a);
      }
    }
  }

  /** From soundness every update may be called: it touches no freed string and frees none twice. */
  lemma {:induction false} SoundIsUsable(s: Image, u: Update)
    requires Sound(s)
    ensures Readable(s.ds, s.freed) && MayFree(s.freed, Frees(s.ds, u))
  {
    forall a: nat
      ensures InStore(s.ds, a) > 0 ==> Times(s.freed, a) == 0
      ensures Times(s.freed, a) + Times(Frees(s.ds, u), a) <= 1
    {
      assert OwnedOnce(s, a);
      FreesAreInUse(s.ds, u, a);
    }
  }

  /** Clearing one property: its three strings are three different ones, none of them freed before. */
  lemma {:induction false} MayClear(freed: seq<nat>, p: Property)
    requires MayFree(freed, Cleared(p))
    ensures Times(freed, p.at.key) == 0
    ensures Times(freed + [p.at.key], p.at.data) == 0
    ensures Times(freed + [p.at.key] + [p.at.data], p.at.ptype) == 0
    ensures freed + [p.at.key] + [p.at.data] + [p.at.ptype] == freed + Cleared(p)
  {
    ClearedTimes(p, p.at.key);
    ClearedTimes(p, p.at.data);
    ClearedTimes(p, p.at.ptype);
    TimesSnoc(freed, p.at.key, p.at.data);
    TimesSnoc(freed, p.at.key, p.at.ptype);
    TimesSnoc(freed + [p.at.key], p.at.data, p.at.ptype);
  }

  /** Clearing a whole array, entry by entry. */
  lemma {:induction false} MayClearNext(freed: seq<nat>, ps: seq<Property>, k: nat)
    requires MayFree(freed, ClearedAll(ps)) && k < |ps|
    ensures MayFree(freed + ClearedAll(ps[..k]), Cleared(ps[k]))
    ensures freed + ClearedAll(ps[..k]) + Cleared(ps[k]) == freed + ClearedAll(ps[..k + 1])
  {
    assert ps[..k + 1][..k] == ps[..k];
    forall a: nat
      ensures Times(freed + ClearedAll(ps[..k]), a) + Times(Cleared(ps[k]), a) <= 1
    {
      TimesConcat(freed, ClearedAll(ps[..k]), a);
      ClearedAllTimes(ps, a);
      ClearedAllTimes(ps[..k], a);
      ClearedTimes(ps[k], a);
      InArrayAt(ps, k, a);
      assert Times(freed, a) + Times(ClearedAll(ps), a) <= 1;
    }
  }

  /** Replacing data and type. */
  lemma {:induction false} MayReplace(freed: seq<nat>, p: Property, entry: Entry)
    requires MayFree(freed, Replaced(p, entry))
    ensures p.data != entry.data ==> Times(freed, p.at.data) == 0
    ensures p.ptype != entry.ptype ==>
      Times(freed + (if p.data != entry.data then [p.at.data] else []), p.at.ptype) == 0
  {
    ReplacedTimes(p, entry, p.at.data);
    ReplacedTimes(p, entry, p.at.ptype);
    if p.data != entry.data {
      TimesSnoc(freed, p.at.data, p.at.ptype);
    } else {
      assert freed + [] == freed;
    }
  }

  // ---------------------------------------------------------------- the branches of update_property

  function StoreOf(subject: nat, key: string, entry: Entry): Update {
    Update(subject, Some(key), Some(entry.ptype), Some(entry.data))
  }

  /** What the branches of update_property do together. */
  ghost predicate Edited(s: Image, t: Image, u: Update, changed: nat, change: Change) {
    t == After(s, u) && changed == Changes(s.ds, u) && change == KindInArrays(s.ds, u)
  }

  /** A new property in description d, which is new as well if there are only d descriptions. */
  function WithNew(ds: seq<Description>, d: nat, subject: nat, p: Property): seq<Description>
    requires d <= |ds|
  {
    if d == |ds| then ds + [WithProperty(Description(subject, [], 0), p)] else ds[d := WithProperty(ds[d], p)]
  }

  /** The three cases of the branch that stores. */
  lemma {:induction false} StoreEdits(
    s: Image, t: Image, subject: nat, key: string, entry: Entry, changed: nat, change: Change)
    requires var d := SubjectIndex(s.ds, subject);
      if Has(s.ds, subject, key) then
        var i := KeyIndex(s.ds[d].properties, key);
        var p := s.ds[d].properties[i];
        && change == PropertyChanged && changed == Differences(p, entry)
        && t == Image(s.ds[d := WithChanged(s.ds[d], i, entry, s.next)], s.next + changed, s.freed + Replaced(p, entry))
      else
        && change == PropertyCreated && changed == 1
        && t == Image(WithNew(s.ds, d, subject, NewProperty(key, entry, s.next)), s.next + 3, s.freed)
    ensures Edited(s, t, StoreOf(subject, key, entry), changed, change)
  {
    assert s.freed + [] == s.freed;
  }

  lemma {:induction false} DeleteEdits(s: Image, t: Image, u: Update, changed: nat)
    requires u.key.Some? && (u.data.None? || u.ptype.None?)
    requires if !Has(s.ds, u.subject, u.key.value) then t == s && changed == 0 else
        var d := SubjectIndex(s.ds, u.subject);
        var i := KeyIndex(s.ds[d].properties, u.key.value);
        t == Image(Removed(s.ds, d, i), s.next, s.freed + Cleared(s.ds[d].properties[i])) && changed == 1
    ensures Edited(s, t, u, changed, PropertyDeleted)
  {
    assert s.freed + [] == s.freed;
  }

  lemma {:induction false} DeleteAllEdits(s: Image, t: Image, u: Update, changed: nat)
    requires u.key.None?
    requires var d := SubjectIndex(s.ds, u.subject);
      if d == |s.ds| then t == s && changed == 0
      else t == Image(Without(s.ds, d), s.next, s.freed + ClearedAll(s.ds[d].properties)) && changed == 1
    ensures Edited(s, t, u, changed, PropertyDeleted)
  {
    assert s.freed + [] == s.freed;
  }

  lemma {:induction false} UpdateOutcome(s: Image, t: Image, m: Contents, u: Update, changed: nat, change: Change)
    requires Edited(s, t, u, changed, change)
    ensures Agrees(s.ds, m) ==> (Agrees(t.ds, Updated(m, u)) <==> AtEnd(s.ds, u))
    ensures Agrees(s.ds, m) ==> Reports(m, u, changed, if changed > 0 then Some(change) else None)
    ensures Sound(s) ==> (Sound(t) <==> AtEnd(s.ds, u))
  {
    if Agrees(s.ds, m) {
      UpdateAgreesIff(s.ds, m, u, s.next);
      UpdateReports(s.ds, m, u, changed, change);
    }
    if Sound(s) {
      UpdateSoundIff(s, u);
    }
  }

  function WithMoved(ds: seq<Description>, d: nat, i: nat): seq<Description>
    requires d < |ds| && i < |ds[d].properties|
  {
    ds[d := ds[d].(properties := Moved(ds[d].properties, i))]
  }

  /** Editing a description and then removing it is removing it. */
  lemma {:induction false} RemovedWhole(ds: seq<Description>, d: nat, i: nat)
    requires d < |ds| && i < |ds[d].properties|
    ensures var edited := WithMoved(ds, d, i);
      Removed(ds, d, i) == if |ds[d].properties| == 1 then Without(edited, d) else edited
  {
    if |ds[d].properties| == 1 {
      assert Without(WithMoved(ds, d, i), d) == Without(ds, d);
    }
  }
}
