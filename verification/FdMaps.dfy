/** The invariant of the V4L2 shim's descriptor table, and what each elementary change of the table does to it. */
module FdMaps {
  import opened Common
  import opened FileRefs

  /** Descriptors are unique, so the entry that maps one is. */
  ghost predicate DistinctFds(maps: seq<FdMap>) {
    forall i, j :: 0 <= i < j < |maps| ==> maps[i].fd != maps[j].fd
  }

  ghost predicate Mapped(maps: seq<FdMap>, fd: int) {
    exists i :: 0 <= i < |maps| && maps[i].fd == fd
  }

  ghost predicate MappedTo(maps: seq<FdMap>, fd: int, f: FileId) {
    exists i :: 0 <= i < |maps| && maps[i].fd == fd && maps[i].file == f
  }

  ghost predicate EntryInv(e: FdMap, files: map<FileId, File>, openFds: set<int>, appFds: set<int>) {
    e.file in files && e.fd in openFds && e.fd in appFds && e.fd >= 0
  }

  /** A live file counts its entries; its own descriptor is open and belongs to it alone. */
  ghost predicate LiveFileInv(f: FileId, file: File, maps: seq<FdMap>, openFds: set<int>, appFds: set<int>) {
    && file.ref == Entries(maps, f) >= 1
    && file.fd in openFds && file.fd >= 0
    && (!file.closed ==> MappedTo(maps, file.fd, f))
    && (MappedTo(maps, file.fd, f) || (!Mapped(maps, file.fd) && file.fd !in appFds))
  }

  ghost predicate TableInv(files: map<FileId, File>, maps: seq<FdMap>, openFds: set<int>, appFds: set<int>) {
    && DistinctFds(maps)
    && appFds <= openFds
    && (forall i :: 0 <= i < |maps| ==> EntryInv(maps[i], files, openFds, appFds))
    && (forall f :: f in files ==> LiveFileInv(f, files[f], maps, openFds, appFds))
    && (forall f, g :: f in files && g in files && f != g ==> files[f].dev != files[g].dev && files[f].fd != files[g].fd)
  }

  // ---------------------------------------------------------------- the elementary changes

  lemma MappedAfterAppend(maps: seq<FdMap>, e: FdMap)
    ensures forall fd, f :: MappedTo(maps + [e], fd, f) <==> MappedTo(maps, fd, f) || (e.fd == fd && e.file == f)
    ensures forall fd :: Mapped(maps + [e], fd) <==> Mapped(maps, fd) || e.fd == fd
  {
    var maps' := maps + [e];
    assert maps'[|maps|] == e;
    assert forall i :: 0 <= i < |maps| ==> maps'[i] == maps[i];
  }

  lemma MappedAfterRemove(maps: seq<FdMap>, i: nat)
    requires i < |maps| && DistinctFds(maps)
    ensures forall fd, f :: MappedTo(Without(maps, i), fd, f) <==> MappedTo(maps, fd, f) && fd != maps[i].fd
    ensures forall fd :: Mapped(Without(maps, i), fd) <==> Mapped(maps, fd) && fd != maps[i].fd
    ensures DistinctFds(Without(maps, i))
  {
    var rest := Without(maps, i);
    assert forall k :: 0 <= k < i ==> rest[k] == maps[k];
    assert forall k :: i < k < |maps| ==> rest[k - 1] == maps[k];
    assert forall k :: i <= k < |rest| ==> rest[k] == maps[k + 1];
  }

  lemma NotMappedYet(files: map<FileId, File>, maps: seq<FdMap>, openFds: set<int>, appFds: set<int>, fd: int)
    requires TableInv(files, maps, openFds, appFds) && fd !in openFds
    ensures !Mapped(maps, fd)
  {
    forall i | 0 <= i < |maps|
      ensures maps[i].fd != fd
    {
      assert EntryInv(maps[i], files, openFds, appFds);
    }
  }

  lemma DescriptorGiven(files: map<FileId, File>, maps: seq<FdMap>, openFds: set<int>, appFds: set<int>, fd: int)
    requires TableInv(files, maps, openFds, appFds) && fd !in openFds
    ensures TableInv(files, maps, openFds + {fd}, appFds + {fd})
  {
    forall f | f in files
      ensures LiveFileInv(f, files[f], maps, openFds + {fd}, appFds + {fd})
    {
      assert LiveFileInv(f, files[f], maps, openFds, appFds);
    }
    forall i | 0 <= i < |maps|
      ensures EntryInv(maps[i], files, openFds + {fd}, appFds + {fd})
    {
      assert EntryInv(maps[i], files, openFds, appFds);
    }
  }

  lemma EntryAppended(files: map<FileId, File>, maps: seq<FdMap>, openFds: set<int>, appFds: set<int>, e: FdMap)
    requires TableInv(files, maps, openFds, appFds)
    requires e.file in files && e.fd in appFds && e.fd >= 0 && !Mapped(maps, e.fd)
    ensures TableInv(AddRef(files, e.file, 1), maps + [e], openFds, appFds)
  {
    var files', maps' := AddRef(files, e.file, 1), maps + [e];
    MappedAfterAppend(maps, e);
    forall f | f in files'
      ensures LiveFileInv(f, files'[f], maps', openFds, appFds)
    {
      assert LiveFileInv(f, files[f], maps, openFds, appFds);
      EntryAdded(maps, e, f);
    }
    forall i | 0 <= i < |maps'|
      ensures EntryInv(maps'[i], files', openFds, appFds)
    {
      assert i < |maps| ==> EntryInv(maps[i], files, openFds, appFds);
    }
  }

  lemma OwnDescriptorReassigned(files: map<FileId, File>, maps: seq<FdMap>, openFds: set<int>, appFds: set<int>, i: nat)
    requires TableInv(files, maps, openFds, appFds) && i < |maps|
    ensures maps[i].file in files
    ensures TableInv(files[maps[i].file := files[maps[i].file].(fd := maps[i].fd)], maps, openFds, appFds)
  {
    var e := maps[i];
    assert EntryInv(e, files, openFds, appFds);
    var files' := files[e.file := files[e.file].(fd := e.fd)];
    assert MappedTo(maps, e.fd, e.file);
    forall f | f in files'
      ensures LiveFileInv(f, files'[f], maps, openFds, appFds)
      ensures f != e.file ==> files[f].fd != e.fd
    {
      assert LiveFileInv(f, files[f], maps, openFds, appFds);
    }
    forall j | 0 <= j < |maps|
      ensures EntryInv(maps[j], files', openFds, appFds)
    {
      assert EntryInv(maps[j], files, openFds, appFds);
    }
  }

  lemma FileMade(files: map<FileId, File>, maps: seq<FdMap>, openFds: set<int>, appFds: set<int>,
                 dev: nat, fd: int, id: FileId)
    requires TableInv(files, maps, openFds, appFds)
    requires id !in files && fd !in openFds && fd >= 0
    requires forall f :: f in files ==> files[f].dev != dev
    ensures TableInv(files[id := File(1, dev, fd, false, 0)], maps + [FdMap(fd, false, id)],
                     openFds + {fd}, appFds + {fd})
  {
    var e := FdMap(fd, false, id);
    var files', maps' := files[id := File(1, dev, fd, false, 0)], maps + [e];
    NotMappedYet(files, maps, openFds, appFds, fd);
    DistinctAppend(maps, e);
    NoEntryYet(files, maps, openFds, appFds, id);
    forall f | f in files'
      ensures LiveFileInv(f, files'[f], maps', openFds + {fd}, appFds + {fd})
      ensures f != id ==> files[f].fd != fd
    {
      if f != id {
        LiveBesides(f, files[f], maps, openFds, appFds, e);
      } else {
        EntryAdded(maps, e, id);
        assert maps'[|maps|] == e;
      }
    }
    forall i | 0 <= i < |maps'|
      ensures EntryInv(maps'[i], files', openFds + {fd}, appFds + {fd})
    {
      assert i < |maps| ==> EntryInv(maps[i], files, openFds, appFds);
    }
  }

  lemma DistinctAppend(maps: seq<FdMap>, e: FdMap)
    requires DistinctFds(maps) && !Mapped(maps, e.fd)
    ensures DistinctFds(maps + [e])
  {
  }

  /** An entry of another file, for a new descriptor, changes nothing for a file. */
  lemma LiveBesides(f: FileId, file: File, maps: seq<FdMap>, openFds: set<int>, appFds: set<int>, e: FdMap)
    requires LiveFileInv(f, file, maps, openFds, appFds) && e.file != f && e.fd !in openFds
    ensures LiveFileInv(f, file, maps + [e], openFds + {e.fd}, appFds + {e.fd}) && file.fd != e.fd
  {
    MappedAfterAppend(maps, e);
    EntryAdded(maps, e, f);
  }

  lemma NoEntryYet(files: map<FileId, File>, maps: seq<FdMap>, openFds: set<int>, appFds: set<int>, id: FileId)
    requires TableInv(files, maps, openFds, appFds) && id !in files
    ensures Entries(maps, id) == 0
  {
    forall i | 0 <= i < |maps|
      ensures maps[i].file != id
    {
      assert EntryInv(maps[i], files, openFds, appFds);
    }
    NoEntries(maps, id);
  }

  lemma {:induction false} NoEntries(maps: seq<FdMap>, f: FileId)
    requires forall i :: 0 <= i < |maps| ==> maps[i].file != f
    ensures Entries(maps, f) == 0
  {
    if maps != [] {
      NoEntries(maps[1..], f);
    }
  }

  lemma OneTarget(maps: seq<FdMap>)
    requires DistinctFds(maps)
    ensures forall fd, f, g :: MappedTo(maps, fd, f) && MappedTo(maps, fd, g) ==> f == g
  {
  }

  /** One more entry for the file of the i-th: whatever that one's descriptor maps to, the new one maps to. */
  lemma DuplicateMapped(maps: seq<FdMap>, i: nat, e: FdMap)
    requires DistinctFds(maps) && i < |maps| && e.file == maps[i].file
    ensures forall f :: MappedTo(maps, maps[i].fd, f) ==> MappedTo(maps + [e], e.fd, f)
  {
    assert (maps + [e])[|maps|] == e;
    assert MappedTo(maps + [e], e.fd, e.file);
  }

  lemma UnmappedClosed(files: map<FileId, File>, maps: seq<FdMap>, openFds: set<int>, appFds: set<int>, fd: int)
    requires TableInv(files, maps, openFds, appFds)
    requires (fd in appFds || fd !in openFds) && !Mapped(maps, fd)
    ensures TableInv(files, maps, openFds - {fd}, appFds - {fd})
  {
    forall f | f in files
      ensures LiveFileInv(f, files[f], maps, openFds - {fd}, appFds - {fd})
    {
      assert LiveFileInv(f, files[f], maps, openFds, appFds);
      assert MappedTo(maps, files[f].fd, f) ==> Mapped(maps, files[f].fd);
    }
    forall i | 0 <= i < |maps|
      ensures EntryInv(maps[i], files, openFds - {fd}, appFds - {fd})
    {
      assert EntryInv(maps[i], files, openFds, appFds);
    }
  }

  /** The files after the close of an entry: gone with its last reference, marked closed otherwise. */
  function FilesAfterClose(files: map<FileId, File>, e: FdMap): map<FileId, File>
    requires e.file in files
  {
    var file := files[e.file];
    if file.ref - 1 <= 0 then files - {e.file} else files[e.file := file.(closed := true, ref := file.ref - 1)]
  }

  /** The descriptors open after the close of an entry: the file's own one goes with the file, and only then. */
  function OpenAfterClose(files: map<FileId, File>, openFds: set<int>, e: FdMap): set<int>
    requires e.file in files
  {
    var file := files[e.file];
    if file.ref - 1 <= 0 then openFds - {e.fd, file.fd} else if e.fd != file.fd then openFds - {e.fd} else openFds
  }

  /** What close leaves, in one value. */
  ghost predicate ClosedInv(files: map<FileId, File>, maps: seq<FdMap>, openFds: set<int>, appFds: set<int>, i: nat)
    requires i < |maps| && maps[i].file in files
  {
    var e := maps[i];
    TableInv(FilesAfterClose(files, e), Without(maps, i), OpenAfterClose(files, openFds, e), appFds - {e.fd})
  }

  /** A mapped file is live, and its count is the number of its entries. */
  lemma EntryIsLive(files: map<FileId, File>, maps: seq<FdMap>, openFds: set<int>, appFds: set<int>, i: nat)
    requires TableInv(files, maps, openFds, appFds) && i < |maps|
    ensures maps[i].file in files && files[maps[i].file].ref == Entries(maps, maps[i].file) >= 1
  {
    assert EntryInv(maps[i], files, openFds, appFds);
    assert LiveFileInv(maps[i].file, files[maps[i].file], maps, openFds, appFds);
  }

  /** After close, every other live file keeps its descriptors and its count. */
  lemma OtherFileKept(files: map<FileId, File>, maps: seq<FdMap>, openFds: set<int>, appFds: set<int>, i: nat, g: FileId)
    requires TableInv(files, maps, openFds, appFds)
    requires i < |maps| && g in files && maps[i].file in files && g != maps[i].file
    ensures var fd, file := maps[i].fd, files[maps[i].file];
      && fd != files[g].fd && file.fd != files[g].fd
      && LiveFileInv(g, files[g], Without(maps, i), openFds - {fd, file.fd}, appFds - {fd})
  {
    MappedAfterRemove(maps, i);
    EntryRemoved(maps, i, g);
    assert LiveFileInv(g, files[g], maps, openFds, appFds);
    assert MappedTo(maps, maps[i].fd, maps[i].file) && Mapped(maps, maps[i].fd);
    OneTarget(maps);
  }

  lemma EntryClosed(files: map<FileId, File>, maps: seq<FdMap>, openFds: set<int>, appFds: set<int>, i: nat)
    requires TableInv(files, maps, openFds, appFds)
    requires i < |maps| && maps[i].file in files
    ensures ClosedInv(files, maps, openFds, appFds, i)
  {
    var files', openFds' := FilesAfterClose(files, maps[i]), OpenAfterClose(files, openFds, maps[i]);
    if files[maps[i].file].ref - 1 <= 0 {
      LastEntryClosed(files, maps, openFds, appFds, i, files', openFds');
    } else {
      OneEntryClosed(files, maps, openFds, appFds, i, files', openFds');
    }
  }

  /** When the last entry of a file goes, the application holds none of its descriptors any more. */
  lemma OwnDescriptorGone(files: map<FileId, File>, maps: seq<FdMap>, openFds: set<int>, appFds: set<int>, i: nat)
    requires TableInv(files, maps, openFds, appFds)
    requires i < |maps| && maps[i].file in files && files[maps[i].file].ref - 1 <= 0
    ensures files[maps[i].file].fd == maps[i].fd || !Mapped(maps, files[maps[i].file].fd)
    ensures files[maps[i].file].fd !in appFds - {maps[i].fd}
  {
    var f := maps[i].file;
    assert LiveFileInv(f, files[f], maps, openFds, appFds);
    EntryRemoved(maps, i, f);
    if MappedTo(maps, files[f].fd, f) {
      var m :| 0 <= m < |maps| && maps[m].fd == files[f].fd && maps[m].file == f;
      OnlyEntry(maps, i, m);
    }
  }

  lemma OnlyEntry(maps: seq<FdMap>, i: nat, m: nat)
    requires i < |maps| && m < |maps| && maps[m].file == maps[i].file
    requires Entries(maps, maps[i].file) <= 1
    ensures m == i
  {
    var f := maps[i].file;
    EntryRemoved(maps, i, f);
    if m < i {
      EntriesConcat(maps[..i], maps[i + 1..], f);
      EntryCounts(maps[..i], m);
    } else if i < m {
      EntriesConcat(maps[..i], maps[i + 1..], f);
      EntryCounts(maps[i + 1..], m - i - 1);
    }
  }

  lemma DistinctWithout(maps: seq<FdMap>, i: nat)
    requires DistinctFds(maps) && i < |maps|
    ensures DistinctFds(Without(maps, i))
  {
    var maps' := Without(maps, i);
    assert forall k :: 0 <= k < |maps'| ==> maps'[k] == maps[if k < i then k else k + 1];
  }

  lemma LastEntryClosed(files: map<FileId, File>, maps: seq<FdMap>, openFds: set<int>, appFds: set<int>, i: nat,
                        files': map<FileId, File>, openFds': set<int>)
    requires TableInv(files, maps, openFds, appFds)
    requires i < |maps| && maps[i].file in files && files[maps[i].file].ref - 1 <= 0
    requires files' == files - {maps[i].file} && openFds' == openFds - {maps[i].fd, files[maps[i].file].fd}
    ensures TableInv(files', Without(maps, i), openFds', appFds - {maps[i].fd})
  {
    var fd, f, maps', appFds' := maps[i].fd, maps[i].file, Without(maps, i), appFds - {maps[i].fd};
    OwnDescriptorGone(files, maps, openFds, appFds, i);
    DistinctWithout(maps, i);
    forall g | g in files'
      ensures LiveFileInv(g, files'[g], maps', openFds', appFds')
    {
      OtherFileKept(files, maps, openFds, appFds, i, g);
    }
    forall k | 0 <= k < |maps'|
      ensures EntryInv(maps'[k], files', openFds', appFds')
    {
      EntryKept(files, maps, openFds, appFds, i, k);
    }
  }

  lemma OneEntryClosed(files: map<FileId, File>, maps: seq<FdMap>, openFds: set<int>, appFds: set<int>, i: nat,
                       files': map<FileId, File>, openFds': set<int>)
    requires TableInv(files, maps, openFds, appFds)
    requires i < |maps| && maps[i].file in files && files[maps[i].file].ref - 1 > 0
    requires var fd, f := maps[i].fd, maps[i].file;
      && files' == files[f := files[f].(closed := true, ref := files[f].ref - 1)]
      && openFds' == if fd != files[f].fd then openFds - {fd} else openFds
    ensures TableInv(files', Without(maps, i), openFds', appFds - {maps[i].fd})
  {
    var fd, f, maps', appFds' := maps[i].fd, maps[i].file, Without(maps, i), appFds - {maps[i].fd};
    DistinctWithout(maps, i);
    forall g | g in files'
      ensures LiveFileInv(g, files'[g], maps', openFds', appFds')
    {
      if g == f {
        ClosedFileKept(files, maps, openFds, appFds, i);
      } else {
        OtherFileKept(files, maps, openFds, appFds, i, g);
      }
    }
    forall k | 0 <= k < |maps'|
      ensures EntryInv(maps'[k], files', openFds', appFds')
    {
      EntryKept(files, maps, openFds, appFds, i, k);
    }
  }

  /** The file itself, when other entries of it remain. */
  lemma ClosedFileKept(files: map<FileId, File>, maps: seq<FdMap>, openFds: set<int>, appFds: set<int>, i: nat)
    requires TableInv(files, maps, openFds, appFds)
    requires i < |maps| && maps[i].file in files && files[maps[i].file].ref - 1 > 0
    ensures var fd, f := maps[i].fd, maps[i].file;
      LiveFileInv(f, files[f].(closed := true, ref := files[f].ref - 1), Without(maps, i),
                  if fd != files[f].fd then openFds - {fd} else openFds, appFds - {fd})
  {
    MappedAfterRemove(maps, i);
    EntryRemoved(maps, i, maps[i].file);
    assert LiveFileInv(maps[i].file, files[maps[i].file], maps, openFds, appFds);
  }

  lemma EntryKept(files: map<FileId, File>, maps: seq<FdMap>, openFds: set<int>, appFds: set<int>, i: nat, k: nat)
    requires TableInv(files, maps, openFds, appFds)
    requires i < |maps| && maps[i].file in files && k < |maps| - 1
    ensures var fd, f, e := maps[i].fd, maps[i].file, Without(maps, i)[k];
      && EntryInv(e, files, openFds - {fd}, appFds - {fd})
      && (files[f].ref - 1 <= 0 ==> e.file != f && e.fd != files[f].fd)
  {
    var j := if k < i then k else k + 1;
    var f, e := maps[i].file, Without(maps, i)[k];
    assert e == maps[j] && EntryInv(maps[j], files, openFds, appFds);
    assert LiveFileInv(f, files[f], maps, openFds, appFds);
    EntryRemoved(maps, i, f);
    EntryCounts(Without(maps, i), k);
    assert Mapped(maps, e.fd);
    if files[f].ref - 1 <= 0 {
      OwnDescriptorGone(files, maps, openFds, appFds, i);
    }
  }

  lemma {:induction false} SomeEntry(maps: seq<FdMap>, f: FileId) returns (i: nat)
    requires Entries(maps, f) >= 1
    ensures i < |maps| && maps[i].file == f
  {
    if maps[0].file == f {
      i := 0;
    } else {
      var j := SomeEntry(maps[1..], f);
      i := j + 1;
    }
  }
}
