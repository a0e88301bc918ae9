/**
 The code of the JACK metadata store: a table of descriptions that own their arrays of properties. What they show is
 tied to the functions of `Metadata`, and through them to the map of maps; what it allocates and frees to
 `MetadataStrings`.
 */
module MetadataStore {
  import opened Common
  import opened Metadata
  import opened MetadataStrings
  import opened Descriptors

  /** The global table of descriptions, guarded by one lock. */
  class Store {
    const mem: Allocator
    var descriptions: seq<Descriptor>
    /** What the descriptions show, in order. */
    ghost var view: seq<Description>
    /** What the callers asked for so far. */
    ghost var contents: Contents

    /** The arrays and what has become of the strings. */
    ghost function State(): Image
      reads this, mem
    {
      Image(view, mem.next, mem.freed)
    }

    /** The store agrees with the map of maps, and no string is lost, shared, or in use after its free. */
    ghost predicate Valid()
      reads this, mem, descriptions, set d | d in descriptions :: d.properties
    {
      Show(descriptions, view) && Agrees(view, contents) && Sound(State())
    }

    constructor ()
      ensures Valid() && view == [] && contents == map[]
    {
      mem := new Allocator();
      descriptions, view, contents := [], [], map[];
      new;
      RunAgrees([]);
    }

    method FindDescription(subject: nat) returns (d: nat)
      requires Show(descriptions, view)
      ensures d == SubjectIndex(view, subject)
    {
      d := 0;
      while d < |descriptions|
        invariant d <= |descriptions| && forall j :: 0 <= j < d ==> view[j].subject != subject
      {
        assert descriptions[d].View() == view[d];
        if descriptions[d].subject == subject {
          return;
        }
        d := d + 1;
      }
    }

    method FindProperty(d: nat, key: string) returns (i: nat)
      requires Show(descriptions, view) && Readable(view, mem.freed) && d < |descriptions|
      ensures i == KeyIndex(view[d].properties, key) && |view[d].properties| == descriptions[d].count
    {
      assert descriptions[d].View() == view[d];
      ReadableKeys(view, mem.freed, d);
      assert forall k :: 0 <= k < descriptions[d].count ==> descriptions[d].properties[k] == view[d].properties[k];
      i := descriptions[d].FindProperty(mem, key);
    }

    method AddDescription(subject: nat) returns (d: nat)
      requires Show(descriptions, view)
      modifies this`descriptions, this`view
      ensures Show(descriptions, view) && d == |old(descriptions)| < |descriptions|
      ensures fresh(descriptions[d]) && fresh(descriptions[d].properties)
      ensures view == old(view) + [Description(subject, [], 0)]
    {
      d := |descriptions|;
      var desc := new Descriptor(subject);
      descriptions, view := descriptions + [desc], view + [Description(subject, [], 0)];
    }

    /** remove_description: pw_array_remove moves the later descriptions down. */
    method RemoveDescription(d: nat)
      requires Show(descriptions, view) && d < |descriptions|
      modifies this`descriptions, this`view
      ensures Show(descriptions, view) && view == Without(old(view), d)
    {
      descriptions, view := descriptions[..d] + descriptions[d + 1..], Without(view, d);
    }

    method AddProperty(d: nat, key: string, entry: Entry)
      requires Show(descriptions, view) && d < |descriptions|
      modifies this`view, mem`next, descriptions[d], descriptions[d].properties
      ensures Show(descriptions, view) && descriptions == old(descriptions)
      ensures view == old(view)[d := WithProperty(old(view)[d], NewProperty(key, entry, old(mem.next)))]
      ensures mem.next == old(mem.next) + 3
    {
      view := view[d := WithProperty(view[d], NewProperty(key, entry, mem.next))];
      descriptions[d].AddProperty(mem, key, entry);
    }

    /** The part of remove_property that edits the array. */
    method DropProperty(d: nat, i: nat, ghost p: Property) returns (left: nat)
      requires Show(descriptions, view) && d < |descriptions| && i < |view[d].properties|
      requires p == view[d].properties[i] && MayFree(mem.freed, Cleared(p))
      modifies this`view, mem`freed, descriptions[d], descriptions[d].properties
      ensures Show(descriptions, view) && descriptions == old(descriptions)
      ensures view == WithMoved(old(view), d, i)
      ensures left == |old(view)[d].properties| - 1
      ensures Appended(mem.freed, old(mem.freed), Cleared(p))
    {
      assert descriptions[d].View() == view[d];
      ghost var desc := view[d].(properties := Moved(view[d].properties, i));
      left := descriptions[d].count - 1;
      descriptions[d].RemoveProperty(mem, i);
      assert descriptions[d].View() == desc;
      view := view[d := desc];
    }

    method RemoveIfEmpty(d: nat, left: nat)
      requires Show(descriptions, view) && d < |descriptions|
      modifies this`descriptions, this`view
      ensures Show(descriptions, view) && view == if left == 0 then Without(old(view), d) else old(view)
    {
      if left == 0 {
        RemoveDescription(d);
      }
    }

    /** remove_property: the description goes with its last property. */
    method RemoveProperty(d: nat, i: nat, ghost p: Property)
      requires Show(descriptions, view) && d < |descriptions| && i < |view[d].properties|
      requires p == view[d].properties[i] && MayFree(mem.freed, Cleared(p))
      modifies this`descriptions, this`view, mem`freed, descriptions[d], descriptions[d].properties
      ensures Show(descriptions, view)
      ensures view == Removed(old(view), d, i) && Appended(mem.freed, old(mem.freed), Cleared(p))
    {
      RemovedWhole(view, d, i);
      var left := DropProperty(d, i, p);
      RemoveIfEmpty(d, left);
    }

    method ChangeProperty(d: nat, i: nat, entry: Entry) returns (changed: nat)
      requires Show(descriptions, view) && d < |descriptions| && i < |view[d].properties|
      requires Readable(view, mem.freed) && MayFree(mem.freed, Replaced(view[d].properties[i], entry))
      modifies this`view, mem, descriptions[d].properties
      ensures Show(descriptions, view) && descriptions == old(descriptions)
      ensures var p := old(view)[d].properties[i];
        && changed == Differences(p, entry)
        && view == old(view)[d := WithChanged(old(view)[d], i, entry, old(mem.next))]
        && mem.next == old(mem.next) + changed && mem.freed == old(mem.freed) + Replaced(p, entry)
    {
      assert descriptions[d].View() == view[d];
      ReadableAt(view, mem.freed, d, i, view[d].properties[i].at.data);
      ReadableAt(view, mem.freed, d, i, view[d].properties[i].at.ptype);
      ghost var desc := WithChanged(view[d], i, entry, mem.next);
      changed := descriptions[d].ChangeProperty(mem, i, entry);
      assert descriptions[d].View() == desc;
      view := view[d := desc];
    }

    /** The first property of a new description. */
    method AddFirst(subject: nat, key: string, entry: Entry)
      requires Show(descriptions, view)
      modifies this`descriptions, this`view, mem`next
      ensures Show(descriptions, view)
      ensures view == old(view) + [WithProperty(Description(subject, [], 0), NewProperty(key, entry, old(mem.next)))]
      ensures mem.next == old(mem.next) + 3
    {
      ghost var ds, desc := view, Description(subject, [], 0);
      ReplacedLast(ds, desc, WithProperty(desc, NewProperty(key, entry, mem.next)));
      var d := AddDescription(subject);
      AddProperty(d, key, entry);
    }

    /** There is no property with the key yet, and perhaps no description of the subject. */
    method AddNew(d: nat, subject: nat, key: string, entry: Entry)
      requires Show(descriptions, view) && d <= |descriptions|
      modifies this`descriptions, this`view, mem`next, descriptions, set d | d in descriptions :: d.properties
      ensures Show(descriptions, view) && mem.next == old(mem.next) + 3
      ensures view == WithNew(old(view), d, subject, NewProperty(key, entry, old(mem.next)))
    {
      if d == |descriptions| {
        AddFirst(subject, key, entry);
      } else {
        AddProperty(d, key, entry);
      }
    }

    /** The branch of update_property that creates or changes a property. */
    method StoreProperty(subject: nat, key: string, entry: Entry) returns (changed: nat, change: Change)
      requires Show(descriptions, view) && Readable(view, mem.freed)
      requires MayFree(mem.freed, Frees(view, StoreOf(subject, key, entry)))
      modifies this`descriptions, this`view, mem, descriptions, set d | d in descriptions :: d.properties
      ensures Show(descriptions, view)
      ensures Edited(old(State()), State(), StoreOf(subject, key, entry), changed, change)
    {
      ghost var s := State();
      var found, d, i := Find(subject, key);
      changed, change := 1, PropertyCreated;
      if found {
        changed := ChangeProperty(d, i, entry);
        change := PropertyChanged;
      } else {
        AddNew(d, subject, key, entry);
      }
      StoreEdits(s, State(), subject, key, entry, changed, change);
    }

    /** Both searches; `i` is the number of properties if there is none with the key. */
    method Find(subject: nat, key: string) returns (found: bool, d: nat, i: nat)
      requires Show(descriptions, view) && Readable(view, mem.freed)
      ensures found == Has(view, subject, key) && d == SubjectIndex(view, subject)
      ensures d < |view| ==> i == KeyIndex(view[d].properties, key)
    {
      i := 0;
      d := FindDescription(subject);
      found := d < |descriptions|;
      if found {
        i := FindProperty(d, key);
        found := i < descriptions[d].count;
      }
    }

    /** The branch of update_property that deletes one property. */
    method DeleteProperty(u: Update) returns (changed: nat)
      requires Show(descriptions, view) && Readable(view, mem.freed) && MayFree(mem.freed, Frees(view, u))
      requires u.key.Some? && (u.data.None? || u.ptype.None?)
      modifies this`descriptions, this`view, mem`freed, descriptions, set d | d in descriptions :: d.properties
      ensures Show(descriptions, view) && Edited(old(State()), State(), u, changed, PropertyDeleted)
    {
      changed := 0;
      ghost var s := State();
      var found, d, i := Find(u.subject, u.key.value);
      if found {
        RemoveProperty(d, i, view[d].properties[i]);
        changed := 1;
      }
      DeleteEdits(s, State(), u, changed);
    }

    /** The branch of update_property that deletes a whole description. */
    method DeleteAll(u: Update) returns (changed: nat)
      requires Show(descriptions, view) && MayFree(mem.freed, Frees(view, u)) && u.key.None?
      modifies this`descriptions, this`view, mem`freed
      ensures Show(descriptions, view) && Edited(old(State()), State(), u, changed, PropertyDeleted)
    {
      changed := 0;
      ghost var s := State();
      var d := FindDescription(u.subject);
      if d < |descriptions| {
        assert descriptions[d].View() == view[d];
        descriptions[d].FreeStrings(mem);
        RemoveDescription(d);
        changed := 1;
      }
      DeleteAllEdits(s, State(), u, changed);
    }

    /** The three branches of update_property. */
    method Edit(u: Update) returns (changed: nat, change: Change)
      requires Show(descriptions, view) && Readable(view, mem.freed) && MayFree(mem.freed, Frees(view, u))
      modifies this`descriptions, this`view, mem, descriptions, set d | d in descriptions :: d.properties
      ensures Show(descriptions, view) && Edited(old(State()), State(), u, changed, change)
    {
      change := PropertyDeleted;
      if u.key.None? {
        changed := DeleteAll(u);
      } else if u.data.None? || u.ptype.None? {
        changed := DeleteProperty(u);
      } else {
        changed, change := StoreProperty(u.subject, u.key.value, Entry(u.data.value, u.ptype.value));
      }
    }

    /**
     update_property. From agreement it keeps agreement unless it deletes an interior property, returns a positive
     number exactly when the contents changed, and reports the kind of change exactly then. Under the same condition no
     string gets lost, shared, or freed while in use.
     */
    method UpdateProperty(u: Update) returns (changed: nat, emitted: Option<Change>)
      requires Show(descriptions, view) && Readable(view, mem.freed) && MayFree(mem.freed, Frees(view, u))
      modifies this, mem, descriptions, set d | d in descriptions :: d.properties
      ensures Show(descriptions, view) && State() == After(old(State()), u) && contents == Updated(old(contents), u)
      ensures old(Agrees(view, contents)) ==> (Agrees(view, contents) <==> AtEnd(old(view), u))
      ensures old(Agrees(view, contents)) ==> Reports(old(contents), u, changed, emitted)
      ensures old(Sound(State())) ==> (Sound(State()) <==> AtEnd(old(view), u))
    {
      ghost var s, m := State(), contents;
      var change;
      changed, change := Edit(u);
      emitted := if changed > 0 then Some(change) else None;
      contents := Updated(contents, u);
      UpdateOutcome(s, State(), m, u, changed, change);
    }

    /** The entry that a property holds. */
    method Load(d: nat, i: nat) returns (entry: Entry)
      requires Show(descriptions, view) && d < |view| && i < |view[d].properties|
      ensures entry == EntryOf(view[d].properties[i])
    {
      assert descriptions[d].View() == view[d];
      entry := EntryOf(descriptions[d].properties[i]);
    }

    method Get(subject: nat, key: string) returns (r: Option<Entry>)
      requires Show(descriptions, view) && Readable(view, mem.freed)
      ensures r == EntryFor(view, subject, key)
    {
      r := None;
      var found, d, i := Find(subject, key);
      if found {
        var entry := Load(d, i);
        r := Some(entry);
      }
    }

    /** jack_get_property. */
    method GetProperty(subject: nat, key: string) returns (r: Option<Entry>)
      requires Valid()
      ensures r == if subject in contents && key in contents[subject] then Some(contents[subject][key]) else None
    {
      SoundIsUsable(State(), Update(subject, None, None, None));
      SameEntry(view, contents, subject, key);
      r := Get(subject, key);
    }

    method CopyTexts(d: nat) returns (dst: array<Copied>)
      requires Show(descriptions, view) && Readable(view, mem.freed) && d < |descriptions|
      ensures fresh(dst) && CopyOf(dst[..], view[d].properties)
    {
      assert descriptions[d].View() == view[d];
      ReadableKeys(view, mem.freed, d);
      assert forall k :: 0 <= k < descriptions[d].count ==> descriptions[d].properties[k] == view[d].properties[k];
      dst := descriptions[d].CopyProperties(mem);
    }

    /** copy_description: a fresh array with the entries of the description's subject. */
    method CopyDescription(d: nat) returns (dst: array<Copied>)
      requires Valid() && d < |descriptions|
      ensures fresh(dst) && view[d].subject in contents
      ensures Copies(dst[..], contents[view[d].subject])
    {
      SoundIsUsable(State(), Update(0, None, None, None));
      dst := CopyTexts(d);
      SubjectIsFine(view, contents, d);
      CopyHolds(view[d].properties, dst[..], contents[view[d].subject]);
    }

    /** jack_get_properties: a copy of the description, and the number of its properties. */
    method GetProperties(subject: nat) returns (res: int, copy: Option<array<Copied>>)
      requires Valid()
      ensures copy.Some? <==> subject in contents
      ensures copy.None? ==> res == -1
      ensures copy.Some? ==>
        fresh(copy.value) && res == copy.value.Length == |contents[subject]| && Copies(copy.value[..], contents[subject])
    {
      SameLookups(view, contents, subject, "");
      res, copy := -1, None;
      var d := FindDescription(subject);
      if d < |descriptions| {
        var dst := CopyDescription(d);
        res, copy := dst.Length, Some(dst);
      }
    }
  }

  /** A list of texts that holds every entry of a map exactly once. */
  ghost predicate Copies(copied: seq<Copied>, m: map<string, Entry>) {
    && |copied| == |m|
    && (forall i, j :: 0 <= i < j < |copied| ==> copied[i].key != copied[j].key)
    && forall i :: 0 <= i < |copied| ==> copied[i].key in m && m[copied[i].key] == copied[i].entry
  }

  ghost predicate CopyOf(copied: seq<Copied>, ps: seq<Property>) {
    |copied| == |ps| && forall k :: 0 <= k < |ps| ==> copied[k] == Copied(ps[k].key, EntryOf(ps[k]))
  }

  lemma {:induction false} CopyHolds(ps: seq<Property>, copied: seq<Copied>, m: map<string, Entry>)
    requires WellFormedProps(ps) && HoldsProps(ps, m) && CopyOf(copied, ps) && |ps| == |m|
    ensures Copies(copied, m)
  {
  }

  lemma {:induction false} ReadableKeys(ds: seq<Description>, freed: seq<nat>, d: nat)
    requires Readable(ds, freed) && d < |ds|
    ensures forall k, a :: 0 <= k < |ds[d].properties| && Uses(ds[d].properties[k], a) > 0 ==> Times(freed, a) == 0
    ensures forall k :: 0 <= k < |ds[d].properties| ==> Times(freed, ds[d].properties[k].at.key) == 0
  {
    forall k, a | 0 <= k < |ds[d].properties| && Uses(ds[d].properties[k], a) > 0
      ensures Times(freed, a) == 0
    {
      ReadableAt(ds, freed, d, k, a);
    }
    assert forall k :: 0 <= k < |ds[d].properties| ==> Uses(ds[d].properties[k], ds[d].properties[k].at.key) > 0;
  }

  lemma {:induction false} ReplacedLast(ds: seq<Description>, desc: Description, other: Description)
    ensures (ds + [desc])[|ds| := other] == ds + [other]
  {
  }
}
