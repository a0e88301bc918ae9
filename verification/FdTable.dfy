/**
 The descriptor table of the V4L2 shim, one call at a time.

 The kernel is represented by the set of open descriptors and by the descriptor numbers it hands out (fresh ones, or a
 negative number on failure). `appFds` are the descriptors the application has been given and has not closed; it closes
 each of them once.
 */
module FdTable {
  import opened Common
  import opened FileRefs
  import opened FdMaps

  class Table {
    var files: map<FileId, File>
    var fdMaps: seq<FdMap>
    var openFds: set<int>
    var appFds: set<int>

    ghost predicate Valid()
      reads this
    {
      TableInv(files, fdMaps, openFds, appFds)
    }

    constructor (openFds: set<int>)
      ensures Valid() && fdMaps == [] && files == map[]
    {
      this.files := map[];
      this.fdMaps := [];
      this.openFds := openFds;
      this.appFds := openFds;
    }

    /** find_fd_map_unlocked, as a search. */
    method FindFd(fd: int) returns (i: nat)
      ensures i == IndexOfFd(fdMaps, fd)
      ensures i == |fdMaps| <==> !Mapped(fdMaps, fd)
    {
      i := 0;
      while i < |fdMaps|
        invariant 0 <= i <= |fdMaps|
        invariant forall j :: 0 <= j < i ==> fdMaps[j].fd != fd
        invariant i + IndexOfFd(fdMaps[i..], fd) == IndexOfFd(fdMaps, fd)
      {
        if fdMaps[i].fd == fd {
          return;
        }
        assert fdMaps[i..][1..] == fdMaps[i + 1..];
        i := i + 1;
      }
    }

    /** The search of find_file_by_dev. */
    method FindDev(dev: nat) returns (i: nat)
      requires Valid()
      ensures i == IndexOfDev(fdMaps, files, dev)
      ensures i < |fdMaps| <==> exists f :: f in files && files[f].dev == dev
    {
      i := 0;
      while i < |fdMaps|
        invariant 0 <= i <= |fdMaps|
        invariant forall j :: 0 <= j < i ==> files[fdMaps[j].file].dev != dev
        invariant i + IndexOfDev(fdMaps[i..], files, dev) == IndexOfDev(fdMaps, files, dev)
      {
        assert EntryInv(fdMaps[i], files, openFds, appFds);
        if files[fdMaps[i].file].dev == dev {
          return;
        }
        assert fdMaps[i..][1..] == fdMaps[i + 1..];
        i := i + 1;
      }
      forall f | f in files
        ensures files[f].dev != dev
      {
        assert LiveFileInv(f, files[f], fdMaps, openFds, appFds);
        var j := SomeEntry(fdMaps, f);
      }
    }

    /** The kernel hands a new descriptor to the application. */
    method PassThroughOpen(newFd: int)
      requires Valid()
      requires newFd !in openFds && newFd >= 0
      modifies this
      ensures Valid()
      ensures fdMaps == old(fdMaps) && files == old(files)
      ensures appFds == old(appFds) + {newFd} && openFds == old(openFds) + {newFd}
    {
      DescriptorGiven(files, fdMaps, openFds, appFds, newFd);
      openFds, appFds := openFds + {newFd}, appFds + {newFd};
    }

    /** add_fd_map, including its reference. */
    method AddFdMap(fd: int, dup: bool, f: FileId)
      requires Valid()
      requires f in files && fd in appFds && fd >= 0 && !Mapped(fdMaps, fd)
      modifies this
      ensures Valid()
      ensures fdMaps == old(fdMaps) + [FdMap(fd, dup, f)]
      ensures files == AddRef(old(files), f, 1)
      ensures openFds == old(openFds) && appFds == old(appFds)
    {
      EntryAppended(files, fdMaps, openFds, appFds, FdMap(fd, dup, f));
      files := AddRef(files, f, 1);
      fdMaps := fdMaps + [FdMap(fd, dup, f)];
    }

    /** dup of any descriptor: an entry with the same file if the old descriptor has one. */
    method Dup(oldFd: int, dup: bool, newFd: int) returns (res: int)
      requires Valid()
      requires newFd !in openFds
      requires newFd >= 0 ==> oldFd in openFds
      modifies this
      ensures Valid()
      ensures res == newFd
      ensures newFd < 0 ==> unchanged(this)
      ensures newFd >= 0 ==> openFds == old(openFds) + {newFd} && appFds == old(appFds) + {newFd}
      ensures forall f :: newFd >= 0 && MappedTo(old(fdMaps), oldFd, f) ==> MappedTo(fdMaps, newFd, f)
      ensures !Mapped(old(fdMaps), oldFd) ==> fdMaps == old(fdMaps)
      ensures old(fdMaps) <= fdMaps && files.Keys == old(files).Keys
    {
      res := newFd;
      if newFd < 0 {
        return;
      }
      NotMappedYet(files, fdMaps, openFds, appFds, newFd);
      PassThroughOpen(newFd);
      var i := FindFd(oldFd);
      if i < |fdMaps| {
        DupEntry(i, oldFd, dup, newFd);
      }
    }

    /** The entry of a duplicate, for the file of the i-th entry. */
    method DupEntry(i: nat, oldFd: int, dup: bool, newFd: int)
      requires Valid() && i < |fdMaps| && fdMaps[i].fd == oldFd
      requires newFd in appFds && newFd >= 0 && !Mapped(fdMaps, newFd)
      modifies this
      ensures Valid()
      ensures openFds == old(openFds) && appFds == old(appFds) && files.Keys == old(files).Keys
      ensures old(fdMaps) <= fdMaps
      ensures forall f :: MappedTo(old(fdMaps), oldFd, f) ==> MappedTo(fdMaps, newFd, f)
    {
      var e := fdMaps[i];
      EntryIsLive(files, fdMaps, openFds, appFds, i);
      DuplicateMapped(fdMaps, i, FdMap(newFd, dup || e.dup, e.file));
      AddFdMap(newFd, dup || e.dup, e.file);
    }

    /**
     open of a video device. If the device has a file, the result is one more descriptor of that same file; otherwise
     a new file is made around the new descriptor. `id` is the address a new object would get.
     */
    method Open(dev: nat, newFd: int, id: FileId) returns (res: int)
      requires Valid()
      requires newFd !in openFds && id !in files
      modifies this
      ensures Valid()
      ensures res == newFd
      ensures newFd >= 0 ==> newFd in appFds
      ensures forall f :: newFd >= 0 && f in old(files) && old(files)[f].dev == dev ==> MappedTo(fdMaps, newFd, f)
      ensures newFd >= 0 && (forall f :: f in old(files) ==> old(files)[f].dev != dev) ==>
        id in files && files[id].dev == dev && MappedTo(fdMaps, newFd, id)
      ensures old(fdMaps) <= fdMaps
      ensures newFd < 0 ==> fdMaps == old(fdMaps) && openFds == old(openFds) && appFds == old(appFds)
    {
      var i := FindDev(dev);
      if i < |fdMaps| {
        var e := fdMaps[i];
        assert EntryInv(e, files, openFds, appFds);
        if files[e.file].closed {
          OwnDescriptorReassigned(files, fdMaps, openFds, appFds, i);
          files := files[e.file := files[e.file].(fd := e.fd)];
        }
        assert LiveFileInv(e.file, files[e.file], fdMaps, openFds, appFds);
        assert MappedTo(fdMaps, files[e.file].fd, e.file);
        res := Dup(files[e.file].fd, false, newFd);
      } else {
        res := newFd;
        if newFd >= 0 {
          FileMade(files, fdMaps, openFds, appFds, dev, newFd, id);
          files := files[id := File(1, dev, newFd, false, 0)];
          fdMaps := fdMaps + [FdMap(newFd, false, id)];
          openFds, appFds := openFds + {newFd}, appFds + {newFd};
          assert fdMaps[|fdMaps| - 1] == FdMap(newFd, false, id);
        }
      }
    }

    /** The body of close behind remove_fd_map, with the drop of the entry's reference. */
    static method ReleaseEntry(files: map<FileId, File>, openFds: set<int>, e: FdMap)
      returns (files': map<FileId, File>, openFds': set<int>)
      requires e.file in files
      ensures files' == FilesAfterClose(files, e) && openFds' == OpenAfterClose(files, openFds, e)
      ensures e.file in files' <==> files[e.file].ref > 1
    {
      var file := files[e.file];
      openFds' := if e.fd != file.fd then openFds - {e.fd} else openFds;
      if file.ref - 1 <= 0 {
        files', openFds' := files - {e.file}, openFds' - {file.fd};
        assert openFds' == openFds - {e.fd, file.fd};
      } else {
        files' := files[e.file := file.(closed := true, ref := file.ref - 1)];
      }
    }

    /** remove_fd_map, the close of a descriptor that is not the file's own, and the drop of the entry's reference. */
    method CloseEntry(i: nat)
      requires Valid() && i < |fdMaps|
      modifies this
      ensures Valid()
      ensures fdMaps == Without(old(fdMaps), i)
      ensures appFds == old(appFds) - {old(fdMaps)[i].fd} && openFds <= old(openFds)
      ensures var e := old(fdMaps)[i];
        && e.file in old(files) && files == FilesAfterClose(old(files), e)
        && openFds == OpenAfterClose(old(files), old(openFds), e)
        && (e.file in files <==> Entries(old(fdMaps), e.file) > 1)
    {
      var e := fdMaps[i];
      EntryIsLive(files, fdMaps, openFds, appFds, i);
      EntryClosed(files, fdMaps, openFds, appFds, i);
      files, openFds := ReleaseEntry(files, openFds, e);
      fdMaps, appFds := Without(fdMaps, i), appFds - {e.fd};
    }

    /** close of a descriptor the application owns, or of a number that is not open. */
    method Close(fd: int)
      requires Valid() && (fd in appFds || fd !in openFds)
      modifies this
      ensures Valid()
      ensures appFds == old(appFds) - {fd} && openFds <= old(openFds)
      ensures !Mapped(fdMaps, fd)
      ensures forall g, f :: g != fd ==> (MappedTo(fdMaps, g, f) <==> MappedTo(old(fdMaps), g, f))
      ensures !Mapped(old(fdMaps), fd) ==> openFds == old(openFds) - {fd} && files == old(files)
    {
      var i := FindFd(fd);
      if i == |fdMaps| {
        UnmappedClosed(files, fdMaps, openFds, appFds, fd);
        openFds, appFds := openFds - {fd}, appFds - {fd};
      } else {
        MappedAfterRemove(fdMaps, i);
        CloseEntry(i);
      }
    }
  }
}
