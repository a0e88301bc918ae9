/**
 The JACK metadata store: an array of descriptions, each with a growing array of properties, against a map from subject
 to a map from key to value and type. Removing a property moves the tail of the array to its start, so the two agree
 exactly when the removed property is the first or the last.
 */
module Metadata {
  import opened Common

  /** Which allocations hold the three strings of a property. */
  datatype Strings = Strings(key: nat, data: nat, ptype: nat)

  /** A property: its texts and where they are. Copying an entry copies the pointers, not the strings. */
  datatype Property = Property(key: string, data: string, ptype: string, at: Strings)

  datatype Description = Description(subject: nat, properties: seq<Property>, size: nat)

  /** The arguments of update_property; None is a null pointer. */
  datatype Update = Update(subject: nat, key: Option<string>, ptype: Option<string>, data: Option<string>)

  datatype Change = PropertyCreated | PropertyChanged | PropertyDeleted

  datatype Entry = Entry(data: string, ptype: string)

  type Contents = map<nat, map<string, Entry>>

  // ---------------------------------------------------------------- the intended store

  function Deleted(m: Contents, subject: nat, key: string): Contents {
    if subject !in m || key !in m[subject] then m
    else
      var rest := m[subject] - {key};
      if rest == map[] then m - {subject} else m[subject := rest]
  }

  function Stored(m: Contents, subject: nat, key: string, entry: Entry): Contents {
    m[subject := (if subject in m then m[subject] else map[])[key := entry]]
  }

  function Updated(m: Contents, u: Update): Contents {
    if u.key.None? then m - {u.subject}
    else if u.data.None? || u.ptype.None? then Deleted(m, u.subject, u.key.value)
    else Stored(m, u.subject, u.key.value, Entry(u.data.value, u.ptype.value))
  }

  // ---------------------------------------------------------------- the arrays

  /** The first description of a subject, or the number of descriptions. */
  function SubjectIndex(ds: seq<Description>, subject: nat): (i: nat)
    ensures i <= |ds|
    ensures i < |ds| ==> ds[i].subject == subject
    ensures forall j :: 0 <= j < i ==> ds[j].subject != subject
  {
    if ds == [] then 0 else if ds[0].subject == subject then 0 else 1 + SubjectIndex(ds[1..], subject)
  }

  /** The first property with a key, or the number of properties. */
  function KeyIndex(ps: seq<Property>, key: string): (i: nat)
    ensures i <= |ps|
    ensures i < |ps| ==> ps[i].key == key
    ensures forall j :: 0 <= j < i ==> ps[j].key != key
  {
    if ps == [] then 0 else if ps[0].key == key then 0 else 1 + KeyIndex(ps[1..], key)
  }

  /** Where the entry visible at k after a deletion at i was before. */
  function Origin(n: nat, i: nat, k: nat): nat
    requires i < n
  {
    if k < n - 1 - i then k + i + 1 else k
  }

  /** The visible properties after the entries behind entry i have been moved to the start. */
  function Moved(ps: seq<Property>, i: nat): seq<Property>
    requires i < |ps|
  {
    seq(|ps| - 1, k requires 0 <= k < |ps| - 1 => ps[Origin(|ps|, i, k)])
  }

  function Grown(count: nat, size: nat): nat {
    if count == size then if size > 0 then size * 2 else 8 else size
  }

  function WithProperty(d: Description, p: Property): Description {
    d.(properties := d.properties + [p], size := Grown(|d.properties|, d.size))
  }

  /** The descriptions without property i of description d, which goes with its only property. */
  function Removed(ds: seq<Description>, d: nat, i: nat): seq<Description>
    requires d < |ds| && i < |ds[d].properties|
  {
    if |ds[d].properties| == 1 then Without(ds, d) else ds[d := ds[d].(properties := Moved(ds[d].properties, i))]
  }

  function AppliedDelete(ds: seq<Description>, subject: nat, key: string): seq<Description> {
    var d := SubjectIndex(ds, subject);
    if d == |ds| then ds
    else
      var i := KeyIndex(ds[d].properties, key);
      if i == |ds[d].properties| then ds else Removed(ds, d, i)
  }

  /** set_property: three new strings, from allocation `next` on. */
  function NewProperty(key: string, entry: Entry, next: nat): Property {
    Property(key, entry.data, entry.ptype, Strings(next, next + 1, next + 2))
  }

  /** change_property: a new string for each text that differs. */
  function ChangedProperty(p: Property, entry: Entry, next: nat): Property {
    var q := if p.data != entry.data then p.(data := entry.data, at := p.at.(data := next)) else p;
    if p.ptype != entry.ptype
    then q.(ptype := entry.ptype, at := q.at.(ptype := if p.data != entry.data then next + 1 else next))
    else q
  }

  function WithChanged(d: Description, i: nat, entry: Entry, next: nat): Description
    requires i < |d.properties|
  {
    d.(properties := d.properties[i := ChangedProperty(d.properties[i], entry, next)])
  }

  function AppliedStore(ds: seq<Description>, subject: nat, key: string, entry: Entry, next: nat): seq<Description> {
    var d, p := SubjectIndex(ds, subject), NewProperty(key, entry, next);
    if d == |ds| then ds + [WithProperty(Description(subject, [], 0), p)]
    else
      var i := KeyIndex(ds[d].properties, key);
      if i == |ds[d].properties| then ds[d := WithProperty(ds[d], p)] else ds[d := WithChanged(ds[d], i, entry, next)]
  }

  /** The arrays after an update; new strings are allocations from `next` on. */
  function Applied(ds: seq<Description>, u: Update, next: nat): seq<Description> {
    if u.key.None? then
      var d := SubjectIndex(ds, u.subject);
      if d == |ds| then ds else Without(ds, d)
    else if u.data.None? || u.ptype.None? then AppliedDelete(ds, u.subject, u.key.value)
    else AppliedStore(ds, u.subject, u.key.value, Entry(u.data.value, u.ptype.value), next)
  }

  /** The update does not delete a property that has others on both sides. */
  predicate AtEnd(ds: seq<Description>, u: Update) {
    u.key.Some? && (u.data.None? || u.ptype.None?) ==>
      var d := SubjectIndex(ds, u.subject);
      d < |ds| ==>
        var i := KeyIndex(ds[d].properties, u.key.value);
        i == 0 || i >= |ds[d].properties| - 1
  }

  // ---------------------------------------------------------------- agreement

  ghost predicate WellFormedProps(ps: seq<Property>) {
    forall i, j :: 0 <= i < j < |ps| ==> ps[i].key != ps[j].key
  }

  ghost predicate HasKey(ps: seq<Property>, key: string) {
    exists i :: 0 <= i < |ps| && ps[i].key == key
  }

  ghost predicate HasSubject(ds: seq<Description>, subject: nat) {
    exists i :: 0 <= i < |ds| && ds[i].subject == subject
  }

  function EntryOf(p: Property): Entry {
    Entry(p.data, p.ptype)
  }

  ghost predicate HoldsProps(ps: seq<Property>, m: map<string, Entry>) {
    && (forall i :: 0 <= i < |ps| ==> ps[i].key in m && m[ps[i].key] == EntryOf(ps[i]))
    && forall k :: k in m ==> HasKey(ps, k)
  }

  ghost predicate Fine(d: Description, m: map<string, Entry>) {
    && d.properties != [] && |d.properties| <= d.size
    && WellFormedProps(d.properties) && HoldsProps(d.properties, m)
  }

  /** Subjects and keys are unique, no description is empty, and the contents are those of the map. */
  ghost predicate Agrees(ds: seq<Description>, m: Contents) {
    && (forall i, j :: 0 <= i < j < |ds| ==> ds[i].subject != ds[j].subject)
    && (forall i :: 0 <= i < |ds| ==> ds[i].subject in m && Fine(ds[i], m[ds[i].subject]))
    && forall s :: s in m ==> HasSubject(ds, s)
  }

  lemma {:induction false} AddHolds(ps: seq<Property>, m: map<string, Entry>, p: Property)
    requires WellFormedProps(ps) && HoldsProps(ps, m) && KeyIndex(ps, p.key) == |ps|
    ensures WellFormedProps(ps + [p]) && HoldsProps(ps + [p], m[p.key := EntryOf(p)])
  {
    var ps', m' := ps + [p], m[p.key := EntryOf(p)];
    forall k | k in m'
      ensures HasKey(ps', k)
    {
      var i := if k in m then KeyIndex(ps, k) else |ps|;
      assert ps'[i].key == k;
    }
  }

  lemma {:induction false} ChangeHolds(ps: seq<Property>, m: map<string, Entry>, i: nat, p: Property)
    requires WellFormedProps(ps) && HoldsProps(ps, m) && i < |ps| && p.key == ps[i].key
    ensures WellFormedProps(ps[i := p]) && HoldsProps(ps[i := p], m[p.key := EntryOf(p)])
  {
    var ps', m' := ps[i := p], m[p.key := EntryOf(p)];
    forall k | k in m'
      ensures HasKey(ps', k)
    {
      assert HasKey(ps, k);
      var j :| 0 <= j < |ps| && ps[j].key == k;
      assert ps'[j].key == k;
    }
  }

  lemma {:induction false} DropFirstHolds(ps: seq<Property>, m: map<string, Entry>)
    requires WellFormedProps(ps) && HoldsProps(ps, m) && ps != []
    ensures WellFormedProps(ps[1..]) && HoldsProps(ps[1..], m - {ps[0].key})
  {
    forall k | k in m && k != ps[0].key
      ensures HasKey(ps[1..], k)
    {
      assert HasKey(ps, k);
      var j :| 0 <= j < |ps| && ps[j].key == k;
      assert ps[1..][j - 1].key == k;
    }
  }

  lemma {:induction false} DropLastHolds(ps: seq<Property>, m: map<string, Entry>, n: nat)
    requires WellFormedProps(ps) && HoldsProps(ps, m) && |ps| == n + 1
    ensures WellFormedProps(ps[..n]) && HoldsProps(ps[..n], m - {ps[n].key})
  {
    forall k | k in m && k != ps[n].key
      ensures HasKey(ps[..n], k)
    {
      assert HasKey(ps, k);
      var j :| 0 <= j < |ps| && ps[j].key == k;
      assert ps[..n][j].key == k;
    }
  }

  lemma {:induction false} RemoveEndHolds(ps: seq<Property>, m: map<string, Entry>, i: nat)
    requires WellFormedProps(ps) && HoldsProps(ps, m) && i < |ps| && (i == 0 || i == |ps| - 1)
    ensures WellFormedProps(Moved(ps, i)) && HoldsProps(Moved(ps, i), m - {ps[i].key})
  {
    if i == 0 {
      assert Moved(ps, i) == ps[1..];
      DropFirstHolds(ps, m);
    } else {
      assert Moved(ps, i) == ps[..i];
      DropLastHolds(ps, m, i);
    }
  }

  lemma {:induction false} MovedAt(ps: seq<Property>, i: nat, k: nat)
    requires i < |ps| && k < |ps| - 1
    ensures Moved(ps, i)[k] == ps[Origin(|ps|, i, k)]
  {
  }

  lemma {:induction false} DistinctKeys(ps: seq<Property>, a: nat, b: nat)
    requires WellFormedProps(ps) && a < |ps| && b < |ps| && a != b
    ensures ps[a].key != ps[b].key
  {
    var lo, hi := if a < b then a else b, if a < b then b else a;
    assert ps[lo].key != ps[hi].key;
  }

  /** The entry visible at k after a deletion at i. */
  lemma {:induction false} Survives(ps: seq<Property>, i: nat, k: nat)
    requires i < |ps| && k < |ps| - 1
    ensures HasKey(Moved(ps, i), ps[Origin(|ps|, i, k)].key)
  {
    MovedAt(ps, i, k);
  }

  lemma {:induction false} IsLost(ps: seq<Property>, i: nat, j: nat)
    requires WellFormedProps(ps) && i < |ps| && j <= i && (j < |ps| - 1 - i || j == |ps| - 1)
    ensures !HasKey(Moved(ps, i), ps[j].key)
  {
    var after := Moved(ps, i);
    forall k | 0 <= k < |after|
      ensures after[k].key != ps[j].key
    {
      MovedAt(ps, i, k);
      DistinctKeys(ps, Origin(|ps|, i, k), j);
    }
  }

  /** An old entry is still visible after a deletion at i exactly when it was behind i or in the part not overwritten. */
  lemma {:induction false} SurvivesIff(ps: seq<Property>, i: nat, j: nat)
    requires WellFormedProps(ps) && i < |ps| && j < |ps|
    ensures HasKey(Moved(ps, i), ps[j].key) <==> j > i || |ps| - 1 - i <= j < |ps| - 1
  {
    if j > i {
      Survives(ps, i, j - i - 1);
    } else if |ps| - 1 - i <= j < |ps| - 1 {
      Survives(ps, i, j);
    } else {
      IsLost(ps, i, j);
    }
  }

  /** An interior deletion always loses the first property. */
  lemma {:induction false} InteriorLosesFirst(ps: seq<Property>, m: map<string, Entry>, i: nat)
    requires WellFormedProps(ps) && HoldsProps(ps, m) && 0 < i < |ps| - 1
    ensures ps[0].key in m - {ps[i].key} && !HasKey(Moved(ps, i), ps[0].key)
    ensures !HoldsProps(Moved(ps, i), m - {ps[i].key})
  {
    SurvivesIff(ps, i, 0);
  }

  /** The deleted property itself stays visible exactly when it lies in the second half and is not the last. */
  lemma {:induction false} DeletedStaysVisibleIff(ps: seq<Property>, i: nat)
    requires WellFormedProps(ps) && i < |ps|
    ensures HasKey(Moved(ps, i), ps[i].key) <==> |ps| - 1 - i <= i < |ps| - 1
  {
    SurvivesIff(ps, i, i);
  }

  /** Two visible entries have the key. */
  ghost predicate HasKeyTwice(ps: seq<Property>, key: string) {
    exists k, l :: 0 <= k < l < |ps| && ps[k].key == key && ps[l].key == key
  }

  /** An entry is visible twice after a deletion at i exactly when it was both moved and not overwritten. */
  lemma {:induction false} VisibleTwiceIff(ps: seq<Property>, i: nat, j: nat)
    requires WellFormedProps(ps) && i < |ps| && j < |ps|
    ensures HasKeyTwice(Moved(ps, i), ps[j].key) <==> j > i && |ps| - 1 - i <= j < |ps| - 1
  {
    var n, after, key := |ps|, Moved(ps, i), ps[j].key;
    if j > i && n - 1 - i <= j < n - 1 {
      MovedAt(ps, i, j - i - 1);
      MovedAt(ps, i, j);
      assert after[j - i - 1].key == key && after[j].key == key;
    } else {
      forall k, l | 0 <= k < l < |after|
        ensures !(after[k].key == key && after[l].key == key)
      {
        NotBoth(ps, i, j, k, l);
      }
    }
  }

  lemma {:induction false} NotBoth(ps: seq<Property>, i: nat, j: nat, k: nat, l: nat)
    requires WellFormedProps(ps) && i < |ps| && j < |ps| && k < l < |ps| - 1
    requires !(j > i && |ps| - 1 - i <= j < |ps| - 1)
    ensures !(Moved(ps, i)[k].key == ps[j].key && Moved(ps, i)[l].key == ps[j].key)
  {
    var a, b := Origin(|ps|, i, k), Origin(|ps|, i, l);
    MovedAt(ps, i, k);
    MovedAt(ps, i, l);
    if a != j {
      DistinctKeys(ps, a, j);
    } else {
      DistinctKeys(ps, b, j);
    }
  }

  /** Deleting the second of three drops the first and leaves the second; of four, the third ends up twice. */
  lemma {:induction false} InteriorExamples(a: Property, b: Property, c: Property, d: Property)
    ensures Moved([a, b, c], 1) == [c, b]
    ensures Moved([a, b, c, d], 1) == [c, d, c]
  {
    assert [a, b, c][2..] == [c] && [a, b, c][1..2] == [b];
    assert [a, b, c, d][2..] == [c, d] && [a, b, c, d][2..3] == [c];
  }

  lemma {:induction false} ReplaceFinds(ds: seq<Description>, d: nat, desc: Description, s: nat)
    requires d < |ds| && desc.subject == ds[d].subject && HasSubject(ds, s)
    ensures HasSubject(ds[d := desc], s)
  {
    var j :| 0 <= j < |ds| && ds[j].subject == s;
    assert ds[d := desc][j].subject == s;
  }

  lemma {:induction false} ReplaceAgrees(
    ds: seq<Description>, m: Contents, d: nat, desc: Description, entries: map<string, Entry>)
    requires Agrees(ds, m) && d < |ds| && desc.subject == ds[d].subject && Fine(desc, entries)
    ensures Agrees(ds[d := desc], m[desc.subject := entries])
  {
    var ds', m' := ds[d := desc], m[desc.subject := entries];
    forall s | s in m'
      ensures HasSubject(ds', s)
    {
      ReplaceFinds(ds, d, desc, s);
    }
  }

  lemma {:induction false} AppendAgrees(
    ds: seq<Description>, m: Contents, desc: Description, entries: map<string, Entry>)
    requires Agrees(ds, m) && SubjectIndex(ds, desc.subject) == |ds| && Fine(desc, entries)
    ensures Agrees(ds + [desc], m[desc.subject := entries])
  {
    var ds', m' := ds + [desc], m[desc.subject := entries];
    forall s | s in m'
      ensures HasSubject(ds', s)
    {
      var i := if s in m then SubjectIndex(ds, s) else |ds|;
      assert ds'[i].subject == s;
    }
  }

  lemma {:induction false} WithoutAt(ds: seq<Description>, d: nat, i: nat)
    requires d < |ds| && i < |ds| - 1
    ensures Without(ds, d)[i] == ds[if i < d then i else i + 1]
  {
  }

  lemma {:induction false} WithoutFinds(ds: seq<Description>, d: nat, s: nat)
    requires d < |ds| && HasSubject(ds, s) && s != ds[d].subject
    ensures HasSubject(Without(ds, d), s)
  {
    var j :| 0 <= j < |ds| && ds[j].subject == s;
    var k := if j < d then j else j - 1;
    WithoutAt(ds, d, k);
    assert Without(ds, d)[k].subject == s;
  }

  lemma {:induction false} WithoutAgrees(ds: seq<Description>, m: Contents, d: nat)
    requires Agrees(ds, m) && d < |ds|
    ensures Agrees(Without(ds, d), m - {ds[d].subject})
  {
    var ds', m' := Without(ds, d), m - {ds[d].subject};
    forall i | 0 <= i < |ds'|
      ensures ds'[i] == ds[if i < d then i else i + 1]
    {
      WithoutAt(ds, d, i);
    }
    forall s | s in m'
      ensures HasSubject(ds', s)
    {
      WithoutFinds(ds, d, s);
    }
  }

  /** A subject is in the map exactly when the array has it, a key exactly when its description has it. */
  lemma {:induction false} SameLookups(ds: seq<Description>, m: Contents, subject: nat, key: string)
    requires Agrees(ds, m)
    ensures subject in m <==> SubjectIndex(ds, subject) < |ds|
    ensures var d := SubjectIndex(ds, subject);
      d < |ds| ==>
        && (key in m[subject] <==> KeyIndex(ds[d].properties, key) < |ds[d].properties|)
        && (key in m[subject] ==> m[subject][key] == EntryOf(ds[d].properties[KeyIndex(ds[d].properties, key)]))
  {
    var d := SubjectIndex(ds, subject);
    if d < |ds| {
      assert Fine(ds[d], m[subject]);
    }
  }

  lemma {:induction false} NewIsFine(subject: nat, p: Property)
    ensures Fine(WithProperty(Description(subject, [], 0), p), map[p.key := EntryOf(p)])
  {
    AddHolds([], map[], p);
    assert [] + [p] == [p];
  }

  lemma {:induction false} AddedIsFine(d: Description, m: map<string, Entry>, p: Property)
    requires Fine(d, m) && KeyIndex(d.properties, p.key) == |d.properties|
    ensures Fine(WithProperty(d, p), m[p.key := EntryOf(p)])
  {
    AddHolds(d.properties, m, p);
  }

  lemma {:induction false} ChangedIsFine(d: Description, m: map<string, Entry>, i: nat, entry: Entry, next: nat)
    requires Fine(d, m) && i < |d.properties|
    ensures Fine(WithChanged(d, i, entry, next), m[d.properties[i].key := entry])
  {
    ChangeHolds(d.properties, m, i, ChangedProperty(d.properties[i], entry, next));
  }

  lemma {:induction false} StoreAgrees(
    ds: seq<Description>, m: Contents, subject: nat, key: string, entry: Entry, next: nat)
    requires Agrees(ds, m)
    ensures Agrees(AppliedStore(ds, subject, key, entry, next), Stored(m, subject, key, entry))
  {
    var d, p := SubjectIndex(ds, subject), NewProperty(key, entry, next);
    SameLookups(ds, m, subject, key);
    if d == |ds| {
      NewIsFine(subject, p);
      AppendAgrees(ds, m, WithProperty(Description(subject, [], 0), p), map[key := entry]);
    } else {
      var i := KeyIndex(ds[d].properties, key);
      if i == |ds[d].properties| {
        AddedIsFine(ds[d], m[subject], p);
        ReplaceAgrees(ds, m, d, WithProperty(ds[d], p), m[subject][key := entry]);
      } else {
        ChangedIsFine(ds[d], m[subject], i, entry, next);
        ReplaceAgrees(ds, m, d, WithChanged(ds[d], i, entry, next), m[subject][key := entry]);
      }
    }
  }

  /** Deleting the only property empties the map of its subject, deleting one of several does not. */
  lemma {:induction false} RestIsEmptyIff(ps: seq<Property>, m: map<string, Entry>, i: nat)
    requires WellFormedProps(ps) && HoldsProps(ps, m) && i < |ps|
    ensures m - {ps[i].key} == map[] <==> |ps| == 1
  {
    if |ps| == 1 {
      forall k | k in m
        ensures k == ps[0].key
      {
        assert HasKey(ps, k);
      }
    } else {
      var j := if i == 0 then 1 else 0;
      assert ps[j].key in m - {ps[i].key};
    }
  }

  lemma {:induction false} DeleteAgrees(ds: seq<Description>, m: Contents, subject: nat, key: string, d: nat, i: nat)
    requires Agrees(ds, m) && d == SubjectIndex(ds, subject) < |ds|
    requires i == KeyIndex(ds[d].properties, key) < |ds[d].properties|
    requires i == 0 || i == |ds[d].properties| - 1
    ensures Agrees(AppliedDelete(ds, subject, key), Deleted(m, subject, key))
  {
    var ps := ds[d].properties;
    SameLookups(ds, m, subject, key);
    RestIsEmptyIff(ps, m[subject], i);
    if |ps| == 1 {
      WithoutAgrees(ds, m, d);
    } else {
      RemoveEndHolds(ps, m[subject], i);
      ReplaceAgrees(ds, m, d, ds[d].(properties := Moved(ps, i)), m[subject] - {key});
    }
  }

  lemma {:induction false} InteriorDeleteDisagrees(
    ds: seq<Description>, m: Contents, subject: nat, key: string, d: nat, i: nat)
    requires Agrees(ds, m) && d == SubjectIndex(ds, subject) < |ds|
    requires i == KeyIndex(ds[d].properties, key) && 0 < i < |ds[d].properties| - 1
    ensures !Agrees(AppliedDelete(ds, subject, key), Deleted(m, subject, key))
  {
    var ps := ds[d].properties;
    SameLookups(ds, m, subject, key);
    InteriorLosesFirst(ps, m[subject], i);
    RestIsEmptyIff(ps, m[subject], i);
    var ds', m' := AppliedDelete(ds, subject, key), Deleted(m, subject, key);
    assert ds'[d].properties == Moved(ps, i) && ds'[d].subject == subject;
    if Agrees(ds', m') {
      SubjectIsFine(ds', m', d);
      assert false;
    }
  }

  /** From agreement, an update keeps agreement if and only if it is not an interior deletion. */
  lemma {:induction false} UpdateAgreesIff(ds: seq<Description>, m: Contents, u: Update, next: nat)
    requires Agrees(ds, m)
    ensures Agrees(Applied(ds, u, next), Updated(m, u)) <==> AtEnd(ds, u)
  {
    var d := SubjectIndex(ds, u.subject);
    SameLookups(ds, m, u.subject, if u.key.Some? then u.key.value else "");
    if u.key.None? {
      if d < |ds| {
        WithoutAgrees(ds, m, d);
      } else {
        assert m - {u.subject} == m;
      }
    } else if u.data.None? || u.ptype.None? {
      if d < |ds| {
        var i := KeyIndex(ds[d].properties, u.key.value);
        if 0 < i < |ds[d].properties| - 1 {
          InteriorDeleteDisagrees(ds, m, u.subject, u.key.value, d, i);
        } else if i < |ds[d].properties| {
          DeleteAgrees(ds, m, u.subject, u.key.value, d, i);
        }
      }
    } else {
      StoreAgrees(ds, m, u.subject, u.key.value, Entry(u.data.value, u.ptype.value), next);
    }
  }

  // ---------------------------------------------------------------- the reported change

  function Differences(p: Property, entry: Entry): nat {
    (if p.data != entry.data then 1 else 0) + (if p.ptype != entry.ptype then 1 else 0)
  }

  /** The arrays hold a property of that subject and key. */
  predicate Has(ds: seq<Description>, subject: nat, key: string) {
    var d := SubjectIndex(ds, subject);
    d < |ds| && KeyIndex(ds[d].properties, key) < |ds[d].properties|
  }

  /** What update_property returns. */
  function Changes(ds: seq<Description>, u: Update): nat {
    var d := SubjectIndex(ds, u.subject);
    if u.key.None? then if d < |ds| then 1 else 0
    else
      var found := Has(ds, u.subject, u.key.value);
      if u.data.None? || u.ptype.None? then if found then 1 else 0
      else if !found then 1
      else Differences(ds[d].properties[KeyIndex(ds[d].properties, u.key.value)], Entry(u.data.value, u.ptype.value))
  }

  /** The kind of change, seen from the map. */
  function Kind(m: Contents, u: Update): Change {
    if u.key.None? || u.data.None? || u.ptype.None? then PropertyDeleted
    else if u.subject in m && u.key.value in m[u.subject] then PropertyChanged
    else PropertyCreated
  }

  lemma {:induction false} DeletedChangesIff(m: Contents, subject: nat, key: string)
    requires subject in m ==> m[subject] != map[]
    ensures Deleted(m, subject, key) != m <==> subject in m && key in m[subject]
  {
    if subject in m && key in m[subject] {
      var rest := m[subject] - {key};
      assert key !in rest;
      assert subject in Deleted(m, subject, key) ==> Deleted(m, subject, key)[subject] == rest;
    }
  }

  lemma {:induction false} StoredChangesIff(m: Contents, subject: nat, key: string, entry: Entry)
    ensures Stored(m, subject, key, entry) == m <==> subject in m && key in m[subject] && m[subject][key] == entry
  {
    var m' := Stored(m, subject, key, entry);
    assert subject in m' && key in m'[subject] && m'[subject][key] == entry;
    if subject in m && key in m[subject] && m[subject][key] == entry {
      assert m'[subject] == m[subject];
      assert m' == m;
    }
  }

  /** The result is positive exactly when the map of maps changes. */
  lemma {:induction false} ChangesIff(ds: seq<Description>, m: Contents, u: Update)
    requires Agrees(ds, m)
    ensures Changes(ds, u) > 0 <==> Updated(m, u) != m
  {
    var d := SubjectIndex(ds, u.subject);
    SameLookups(ds, m, u.subject, if u.key.Some? then u.key.value else "");
    if u.key.None? {
      assert u.subject !in m - {u.subject};
      assert u.subject !in m ==> m - {u.subject} == m;
    } else if u.data.None? || u.ptype.None? {
      if d < |ds| {
        assert ds[d].properties[0].key in m[u.subject];
      }
      DeletedChangesIff(m, u.subject, u.key.value);
    } else {
      StoredChangesIff(m, u.subject, u.key.value, Entry(u.data.value, u.ptype.value));
    }
  }

  /** A map has as many entries as the array that holds it. */
  lemma {:induction false} CountsAgree(ps: seq<Property>, m: map<string, Entry>)
    requires WellFormedProps(ps) && HoldsProps(ps, m)
    ensures |ps| == |m|
  {
    if ps == [] {
      assert m == map[];
    } else {
      var n := |ps| - 1;
      DropLastHolds(ps, m, n);
      CountsAgree(ps[..n], m - {ps[n].key});
      assert m.Keys == (m - {ps[n].key}).Keys + {ps[n].key};
    }
  }

  /** A description holds exactly the entries of its subject. */
  lemma {:induction false} SubjectIsFine(ds: seq<Description>, m: Contents, d: nat)
    requires Agrees(ds, m) && d < |ds|
    ensures ds[d].subject in m
    ensures WellFormedProps(ds[d].properties) && HoldsProps(ds[d].properties, m[ds[d].subject])
    ensures |ds[d].properties| == |m[ds[d].subject]|
  {
    assert Fine(ds[d], m[ds[d].subject]);
    CountsAgree(ds[d].properties, m[ds[d].subject]);
  }

  /** The kind of change, seen from the arrays. */
  function KindInArrays(ds: seq<Description>, u: Update): Change {
    if u.key.None? || u.data.None? || u.ptype.None? then PropertyDeleted
    else if Has(ds, u.subject, u.key.value) then PropertyChanged
    else PropertyCreated
  }

  /** What update_property reports to its caller and to the listener. */
  ghost predicate Reports(m: Contents, u: Update, changed: nat, emitted: Option<Change>) {
    && (changed > 0 <==> Updated(m, u) != m)
    && emitted == if changed > 0 then Some(Kind(m, u)) else None
  }

  lemma {:induction false} UpdateReports(ds: seq<Description>, m: Contents, u: Update, changed: nat, change: Change)
    requires Agrees(ds, m) && changed == Changes(ds, u) && change == KindInArrays(ds, u)
    ensures Reports(m, u, changed, if changed > 0 then Some(change) else None)
  {
    ChangesIff(ds, m, u);
    SameLookups(ds, m, u.subject, if u.key.Some? then u.key.value else "");
  }

  /** The entry that the arrays hold for a subject and key. */
  function EntryFor(ds: seq<Description>, subject: nat, key: string): Option<Entry> {
    if Has(ds, subject, key) then
      var d := SubjectIndex(ds, subject);
      Some(EntryOf(ds[d].properties[KeyIndex(ds[d].properties, key)]))
    else None
  }

  lemma {:induction false} SameEntry(ds: seq<Description>, m: Contents, subject: nat, key: string)
    requires Agrees(ds, m)
    ensures EntryFor(ds, subject, key) == if subject in m && key in m[subject] then Some(m[subject][key]) else None
  {
    SameLookups(ds, m, subject, key);
  }
}
