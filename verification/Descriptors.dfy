/** One description of the JACK metadata store, with the growing array of properties it owns and edits in place. */
module Descriptors {
  import opened Metadata
  import opened MetadataStrings

  /** strdup and free; strings are told apart by the number of their allocation. */
  class Allocator {
    var next: nat
    ghost var freed: seq<nat>

    constructor ()
      ensures next == 0 && freed == []
    {
      next, freed := 0, [];
    }

    method Strdup() returns (at: nat)
      modifies this`next
      ensures at == old(next) && next == at + 1
    {
      at := next;
      next := next + 1;
    }

    /** No string may be freed twice. */
    method Free(at: nat)
      requires Times(freed, at) == 0
      modifies this`freed
      ensures freed == old(freed) + [at]
    {
      freed := freed + [at];
    }

    /** clear_property. */
    method Clear(p: Property)
      requires MayFree(freed, Cleared(p))
      modifies this`freed
      ensures freed == old(freed) + Cleared(p)
    {
      MayClear(freed, p);
      Free(p.at.key);
      Free(p.at.data);
      Free(p.at.ptype);
    }
  }

  /** The texts of a property, as a caller of jack_get_properties gets them. */
  datatype Copied = Copied(key: string, entry: Entry)

  /** A jack_description_t; `property_size` is the length of the array. */
  class Descriptor {
    const subject: nat
    var properties: array<Property>
    var count: nat

    ghost predicate Valid()
      reads this
    {
      count <= properties.Length
    }

    /** What the description shows: its first `count` properties. */
    ghost function View(): (d: Description)
      requires Valid()
      reads this, properties
    {
      Description(subject, properties[..count], properties.Length)
    }

    /** add_description: all zero except the subject. */
    constructor (subject: nat)
      ensures Valid() && View() == Description(subject, [], 0) && fresh(properties)
    {
      this.subject := subject;
      properties, count := new Property[0], 0;
    }

    /** find_property reads the key strings, none of which may be freed. */
    method FindProperty(mem: Allocator, key: string) returns (i: nat)
      requires Valid() && forall k :: 0 <= k < count ==> Times(mem.freed, properties[k].at.key) == 0
      ensures i == KeyIndex(View().properties, key)
    {
      i := 0;
      while i < count
        invariant i <= count && forall j :: 0 <= j < i ==> properties[j].key != key
      {
        if properties[i].key == key {
          return;
        }
        i := i + 1;
      }
    }

    /** pw_reallocarray: a larger array with the same entries in front. */
    method Grow(size: nat)
      requires Valid() && properties.Length <= size
      modifies this`properties
      ensures Valid() && fresh(properties) && properties.Length == size
      ensures properties[..count] == old(properties[..count])
    {
      var larger := new Property[size];
      var k := 0;
      while k < count
        invariant properties == old(properties)
        invariant 0 <= k <= count && forall j :: 0 <= j < k ==> larger[j] == properties[j]
      {
        larger[k] := properties[k];
        k := k + 1;
      }
      properties := larger;
    }

    /** add_property: doubles a full array, starting from eight, and copies the three strings. */
    method AddProperty(mem: Allocator, key: string, entry: Entry)
      requires Valid()
      modifies this, properties, mem`next
      ensures Valid() && View() == WithProperty(old(View()), NewProperty(key, entry, old(mem.next)))
      ensures mem.next == old(mem.next) + 3
      ensures properties == old(properties) || fresh(properties)
    {
      if count == properties.Length {
        Grow(if properties.Length > 0 then properties.Length * 2 else 8);
      }
      var p := SetProperty(mem, key, entry);
      properties[count] := p;
      count := count + 1;
    }

    /** set_property. */
    static method SetProperty(mem: Allocator, key: string, entry: Entry) returns (p: Property)
      modifies mem`next
      ensures p == NewProperty(key, entry, old(mem.next)) && mem.next == old(mem.next) + 3
    {
      var a := mem.Strdup();
      var b := mem.Strdup();
      var c := mem.Strdup();
      p := Property(key, entry.data, entry.ptype, Strings(a, b, c));
    }

    /**
     remove_property, up to the check for an empty array: frees the strings of the entry, decrements the count, and
     moves what lies behind the entry to the start of the array.
     */
    method RemoveProperty(mem: Allocator, i: nat)
      requires Valid() && i < count && MayFree(mem.freed, Cleared(properties[i]))
      modifies this`count, properties, mem`freed
      ensures Valid() && View() == old(View()).(properties := Moved(old(View()).properties, i))
      ensures mem.freed == old(mem.freed) + Cleared(old(properties[i]))
    {
      ghost var before := properties[..];
      mem.Clear(properties[i]);
      count := count - 1;
      MoveToStart(i + 1, count - i);
      MovedIsMemmove(before, i, count + 1);
    }

    /** memmove of n entries to the start of the array. */
    method MoveToStart(from: nat, n: nat)
      requires from + n <= properties.Length
      modifies properties
      ensures properties[..] == old(properties[from..from + n] + properties[n..])
    {
      ghost var before := properties[..];
      var k := 0;
      while k < n
        invariant 0 <= k <= n
        invariant forall j :: 0 <= j < k ==> properties[j] == before[from + j]
        invariant forall j :: k <= j < properties.Length ==> properties[j] == before[j]
      {
        properties[k] := properties[from + k];
        k := k + 1;
      }
    }

    /** change_property compares the strings, and replaces those whose texts differ. */
    method ChangeProperty(mem: Allocator, i: nat, entry: Entry) returns (changed: nat)
      requires Valid() && i < count && MayFree(mem.freed, Replaced(properties[i], entry))
      requires Times(mem.freed, properties[i].at.data) == 0 && Times(mem.freed, properties[i].at.ptype) == 0
      modifies properties, mem
      ensures Valid()
      ensures var before := old(View());
        && changed == Differences(before.properties[i], entry)
        && View() == WithChanged(before, i, entry, old(mem.next))
        && mem.next == old(mem.next) + changed
        && mem.freed == old(mem.freed) + Replaced(before.properties[i], entry)
    {
      var p;
      p, changed := Change(mem, properties[i], entry);
      properties[i] := p;
    }

    static method Change(mem: Allocator, p: Property, entry: Entry) returns (q: Property, changed: nat)
      requires MayFree(mem.freed, Replaced(p, entry))
      requires Times(mem.freed, p.at.data) == 0 && Times(mem.freed, p.at.ptype) == 0
      modifies mem
      ensures q == ChangedProperty(p, entry, old(mem.next)) && changed == Differences(p, entry)
      ensures mem.next == old(mem.next) + changed && mem.freed == old(mem.freed) + Replaced(p, entry)
    {
      MayReplace(mem.freed, p, entry);
      q, changed := p, 0;
      if p.data != entry.data {
        mem.Free(p.at.data);
        var at := mem.Strdup();
        q, changed := q.(data := entry.data, at := q.at.(data := at)), changed + 1;
      }
      if p.ptype != entry.ptype {
        mem.Free(p.at.ptype);
        var at := mem.Strdup();
        q, changed := q.(ptype := entry.ptype, at := q.at.(ptype := at)), changed + 1;
      }
    }

    /** jack_free_description: clears every visible entry. */
    method FreeStrings(mem: Allocator)
      requires Valid() && MayFree(mem.freed, ClearedAll(properties[..count]))
      modifies mem`freed
      ensures mem.freed == old(mem.freed) + ClearedAll(properties[..count])
    {
      ghost var ps := properties[..count];
      var n := 0;
      while n < count
        invariant 0 <= n <= count && ps == properties[..count]
        invariant mem.freed == old(mem.freed) + ClearedAll(ps[..n])
      {
        MayClearNext(old(mem.freed), ps, n);
        mem.Clear(properties[n]);
        n := n + 1;
      }
      assert ps[..count] == ps;
    }

    /** copy_properties: the texts of all entries, for the caller. */
    method CopyProperties(mem: Allocator) returns (dst: array<Copied>)
      requires Valid() && forall k, a :: 0 <= k < count && Uses(properties[k], a) > 0 ==> Times(mem.freed, a) == 0
      ensures fresh(dst) && dst.Length == count
      ensures forall k :: 0 <= k < count ==> dst[k] == Copied(properties[k].key, EntryOf(properties[k]))
    {
      dst := new Copied[count];
      var k := 0;
      while k < count
        invariant 0 <= k <= count
        invariant forall j :: 0 <= j < k ==> dst[j] == Copied(properties[j].key, EntryOf(properties[j]))
      {
        dst[k] := Copied(properties[k].key, EntryOf(properties[k]));
        k := k + 1;
      }
    }
  }

  /** Every description has its own array, and together they show the view. */
  ghost predicate Show(descriptions: seq<Descriptor>, view: seq<Description>)
    reads descriptions, set d | d in descriptions :: d.properties
  {
    && |view| == |descriptions|
    && (forall i, j :: 0 <= i < j < |descriptions| ==>
          descriptions[i] != descriptions[j] && descriptions[i].properties != descriptions[j].properties)
    && forall i :: 0 <= i < |descriptions| ==> descriptions[i].Valid() && descriptions[i].View() == view[i]
  }

  /** The first n - 1 entries of the array after the move. */
  lemma {:induction false} MovedIsMemmove(before: seq<Property>, i: nat, n: nat)
    requires i < n <= |before|
    ensures (before[i + 1..n] + before[n - 1 - i..])[..n - 1] == Moved(before[..n], i)
  {
    TakeConcat(before[i + 1..n], before[n - 1 - i..], i);
    SliceOfPrefix(before, i + 1, n, n);
    SliceOfPrefix(before, n - 1 - i, n - 1, n);
    SliceOfDrop(before, n - 1 - i, i);
  }

  lemma {:induction false} TakeConcat<T>(a: seq<T>, b: seq<T>, k: nat)
    requires k <= |b|
    ensures (a + b)[..|a| + k] == a + b[..k]
  {
  }

  lemma {:induction false} SliceOfPrefix<T>(s: seq<T>, lo: nat, hi: nat, n: nat)
    requires lo <= hi <= n <= |s|
    ensures s[..n][lo..hi] == s[lo..hi]
  {
  }

  lemma {:induction false} SliceOfDrop<T>(s: seq<T>, lo: nat, k: nat)
    requires lo + k <= |s|
    ensures s[lo..][..k] == s[lo..lo + k]
  {
  }
}
