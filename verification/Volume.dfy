/** The file system's operations as they are written, on a free map that is a bitmap, a directory that
    is a row of slots, and inodes that are opened and closed. Each method is proved to be the step of
    the same name of module FileSystem. */
module FileSystemVolume {
  import opened Bitmaps
  import opened Palloc
  import opened InodeData
  import opened FileSystem
  import opened Wrappers

  lemma OwnedParts(used: seq<bool>, s: nat, d: InodeDisk)
    requires Owned(s, d) <= UsedIn(used, 0) && DataApart(s, d) && s < |used|
    ensures Range(s, 1) <= UsedIn(used, 0)
    ensures Range(d.start, BytesToSectors(d.length)) <= UsedIn(Release(used, s, 1), 0)
  {
    FilledIsUsed(used, 0, s, 1);
    assert Range(s, 1) == {s};
    hide UsedIn, Range, BytesToSectors;
  }

  lemma LookupUnfolds(entries: seq<Entry>, i: nat, name: string)
    requires i < |entries|
    ensures Lookup(entries[i..], name)
         == if entries[i].inUse && entries[i].name == name then Some(0)
            else match Lookup(entries[i + 1..], name) case Some(k) => Some(k + 1) case None => None
  {
    assert entries[i..][1..] == entries[i + 1..];
  }

  lemma SlotUnfolds(entries: seq<Entry>, i: nat)
    requires i <= |entries|
    ensures FreeSlot(entries[i..])
         == if i == |entries| then None
            else if !entries[i].inUse then Some(0)
            else match FreeSlot(entries[i + 1..]) case Some(k) => Some(k + 1) case None => None
  {
    if i < |entries| {
      assert entries[i..][1..] == entries[i + 1..];
    }
  }

  lemma SeenPart(entries: seq<Entry>, limit: nat)
    ensures Seen(entries, limit) == entries[..|Seen(entries, limit)|]
    ensures |Seen(entries, limit)| == if limit < |entries| then limit else |entries|
  {
  }

  lemma DirAddIs(entries: seq<Entry>, name: string, sector: nat, m: AddMemory)
    ensures var seen := Seen(entries, m.search);
      var i := match FreeSlot(seen) case Some(k) => k case None => |seen|;
      DirAdd(entries, name, sector, m)
        == if name == "" || |name| > NAME_MAX || Lookup(Seen(entries, m.lookup), name).Some? || i >= |entries| || !m.write then None
           else Some(entries[i := Entry(sector, name, true)])
  {
    hide Lookup, FreeSlot, Seen;
  }

  /** The sector that filesys_create gives back when it fails is in use. */
  lemma CreateReleases(fs: Fs, sector: nat, size: nat, inodeMemory: bool, written: bool)
    requires FirstFit(fs.used, 0, 1) == At(sector)
    ensures sector < |fs.used| && Range(sector, 1) <= UsedIn(Filled(fs.used, sector, 1, true), 0)
    ensures var fs1 := fs.(used := Filled(fs.used, sector, 1, true));
      InodeCreate(fs1, sector, size, written).Some? ==>
        var fs2 := InodeCreate(fs1, sector, size, written).value;
        |fs2.used| == |fs.used| && Range(sector, 1) <= UsedIn(fs2.used, 0)
  {
    FilledIsUsed(fs.used, 0, sector, 1);
    FitIsFree(Filled(fs.used, sector, 1, true), BytesToSectors(size));
    hide UsedIn, Range, BytesToSectors, FirstFit;
  }

  /** What inode_close gives back is in use, and is given back once only. */
  lemma ClosesOwned(fs: Fs, s: nat)
    requires Inv(fs) && s in fs.open
    ensures Owned(s, fs.open[s].data) <= Used(fs) && DataApart(s, fs.open[s].data)
  {
    InvParts(fs);
    assert OpenOk(fs.inodes, fs.entries, s, fs.open[s]);
    assert s in Live(fs);
    LiveParts(fs, s);
  }

  lemma NamedAreThere(fs: Fs)
    requires Inv(fs)
    ensures forall i | 0 <= i < |fs.entries| && fs.entries[i].inUse :: fs.entries[i].sector in fs.inodes
  {
    forall i | 0 <= i < |fs.entries| && fs.entries[i].inUse
      ensures fs.entries[i].sector in fs.inodes
    {
      NamedIsThere(fs, i);
    }
  }

  lemma SeenSlot(entries: seq<Entry>, limit: nat, name: string)
    ensures var l := Lookup(Seen(entries, limit), name);
      l.Some? ==> l.value < |entries| && entries[l.value].inUse && entries[l.value].name == name
  {
  }

  /** Giving back free sectors that were just marked. */
  lemma FilledBack(used: seq<bool>, i: nat, cnt: nat)
    requires i + cnt <= |used| && AllAre(used, i, cnt, false)
    ensures Filled(Filled(used, i, cnt, true), i, cnt, false) == used
  {
  }

  class Volume {
    const freeMap: Bitmap
    var inodes: map<nat, InodeDisk>
    var entries: seq<Entry>
    var open: map<nat, OpenInode>

    ghost predicate Valid() {
      freeMap.Valid()
    }

    ghost function State(): Fs
      requires Valid()
      reads this, freeMap.bits
    {
      Fs(freeMap.Contents(), inodes, entries, open)
    }

    constructor (used: Bitmap, inodes: map<nat, InodeDisk>, entries: seq<Entry>, open: map<nat, OpenInode>)
      requires used.Valid()
      ensures Valid() && State() == Fs(used.Contents(), inodes, entries, open)
    {
      freeMap := used;
      this.inodes, this.entries, this.open := inodes, entries, open;
    }

    // ----- free-map.c -----------------------------------------------------------------------------

    /** free_map_allocate; written says whether the free map's file could be written. */
    method FreeMapAllocate(cnt: nat, written: bool) returns (r: Found)
      requires Valid()
      modifies freeMap.bits
      ensures r == Allocate(old(freeMap.Contents()), cnt, written)
      ensures r.At? ==> r.index + cnt <= |old(freeMap.Contents())|
      ensures freeMap.Contents()
           == if r.At? then Filled(old(freeMap.Contents()), r.index, cnt, true) else old(freeMap.Contents())
    {
      ghost var used := freeMap.Contents();
      r := freeMap.ScanAndFlip(0, cnt, false);
      FirstFitUnique(used, 0, cnt, false, r, FirstFit(used, 0, cnt));
      if r.At? && !written {
        FilledBack(used, r.index, cnt);
        freeMap.SetMultiple(r.index, cnt, false);
        r := NotFound;
      }
    }

    /** free_map_release, with its assertion that the sectors are in use. */
    method FreeMapRelease(sector: nat, cnt: nat)
      requires Valid() && sector + cnt <= freeMap.bitCnt && Range(sector, cnt) <= UsedIn(freeMap.Contents(), 0)
      modifies freeMap.bits
      ensures freeMap.Contents() == Release(old(freeMap.Contents()), sector, cnt)
    {
      FilledIsUsed(freeMap.Contents(), 0, sector, cnt);
      var unused := freeMap.Contains(sector, cnt, false);
      assert !unused;
      freeMap.SetMultiple(sector, cnt, false);
    }

    // ----- inode.c --------------------------------------------------------------------------------

    /** inode_create. */
    method CreateInode(sector: nat, length: nat, memory: bool, written: bool) returns (success: bool)
      requires Valid()
      modifies this`inodes, freeMap.bits
      ensures var r := if memory then InodeCreate(old(State()), sector, length, written) else None;
        success == r.Some? && State() == if r.Some? then r.value else old(State())
    {
      success := false;
      if memory {
        var r := FreeMapAllocate(BytesToSectors(length), written);
        if r.At? {
          inodes := inodes[sector := InodeDisk(r.index, length)];
          success := true;
        }
      }
    }

    /** inode_open. */
    method OpenSector(sector: nat, memory: bool) returns (success: bool)
      requires Valid() && sector in inodes
      modifies this`open
      ensures success <==> sector in old(open) || memory
      ensures State() == if success then InodeOpen(old(State()), sector) else old(State())
    {
      if sector in open {
        open := open[sector := open[sector].(openCnt := open[sector].openCnt + 1)];
        return true;
      }
      if !memory {
        return false;
      }
      open := open[sector := OpenInode(1, false, inodes[sector])];
      return true;
    }

    /** inode_close. */
    method CloseInode(sector: nat)
      requires Valid() && CanClose(State(), sector)
      requires open[sector].removed ==> Owned(sector, open[sector].data) <= Used(State())
      requires open[sector].removed ==> DataApart(sector, open[sector].data)
      modifies this`open, freeMap.bits
      ensures State() == InodeClose(old(State()), sector)
    {
      var o := open[sector];
      if o.openCnt > 1 {
        open := open[sector := o.(openCnt := o.openCnt - 1)];
      } else {
        open := open - {sector};
        if o.removed {
          OwnedParts(freeMap.Contents(), sector, o.data);
          FreeMapRelease(sector, 1);
          FreeMapRelease(o.data.start, BytesToSectors(o.data.length));
        }
      }
    }

    // ----- directory.c ----------------------------------------------------------------------------

    /** lookup; limit is how many slots can be read before there is no memory for a bounce buffer. */
    method Find(name: string, limit: nat) returns (r: Option<nat>)
      ensures r == Lookup(Seen(entries, limit), name)
    {
      var i := 0;
      ghost var seen := Seen(entries, limit);
      while i < |entries| && i < limit
        invariant i <= |seen|
        invariant Lookup(seen, name) == match Lookup(seen[i..], name) case Some(k) => Some(i + k) case None => None
      {
        LookupUnfolds(seen, i, name);
        if entries[i].inUse && entries[i].name == name {
          return Some(i);
        }
        i := i + 1;
      }
      return None;
    }

    /** dir_add. */
    method AddEntry(name: string, sector: nat, m: AddMemory) returns (success: bool)
      requires Valid()
      modifies this`entries
      ensures var r := DirAdd(old(entries), name, sector, m);
        success == r.Some? && entries == if r.Some? then r.value else old(entries)
    {
      hide DirAdd, Lookup, FreeSlot, Seen;
      DirAddIs(entries, name, sector, m);
      SeenPart(entries, m.search);
      if name == "" || |name| > NAME_MAX {
        return false;
      }
      var taken := Find(name, m.lookup);
      if taken.Some? {
        return false;
      }
      var i := 0;
      ghost var seen := Seen(entries, m.search);
      while i < |entries| && i < m.search && entries[i].inUse
        invariant i <= |seen| && entries == old(entries)
        invariant FreeSlot(seen) == match FreeSlot(seen[i..]) case Some(k) => Some(i + k) case None => None
      {
        SlotUnfolds(seen, i);
        i := i + 1;
      }
      SlotUnfolds(seen, i);
      success := i < |entries| && m.write;
      if success {
        entries := entries[i := Entry(sector, name, true)];
      }
    }

    /** dir_readdir, from position pos; like lookup it stops where a slot cannot be read. */
    method ReadDir(pos: nat, limit: nat) returns (next: nat, name: Option<string>)
      requires pos <= |entries|
      ensures pos <= next <= |entries| && next <= pos + limit && (forall i | pos <= i < next - 1 :: !entries[i].inUse)
      ensures name.Some? ==> next > pos && entries[next - 1].inUse && name.value == entries[next - 1].name
      ensures name.None? ==> forall i | pos <= i < next :: !entries[i].inUse
      ensures name.None? ==> next == |entries| || next == pos + limit
      ensures name.None? <==> forall i | pos <= i < |entries| && i < pos + limit :: !entries[i].inUse
    {
      next := pos;
      while next < |entries| && next < pos + limit
        invariant pos <= next <= |entries| && next <= pos + limit && forall i | pos <= i < next :: !entries[i].inUse
      {
        next := next + 1;
        if entries[next - 1].inUse {
          return next, Some(entries[next - 1].name);
        }
      }
      name := None;
    }

    // ----- filesys.c ------------------------------------------------------------------------------

    /** filesys_create. */
    method CreateFile(name: string, size: nat, m: CreateMemory) returns (success: bool)
      requires Valid() && Inv(State())
      modifies this`inodes, this`entries, freeMap.bits
      ensures (State(), success) == Create(old(State()), name, size, m)
    {
      hide Inv, DirAdd, FirstFit, InodeCreate, UsedIn;
      ghost var fs := State();
      if !m.dir {
        return false;
      }
      var r := FreeMapAllocate(1, m.sector);
      if r.NotFound? {
        return false;
      }
      var sector := r.index;
      CreateReleases(fs, sector, size, m.inode, m.data);
      success := CreateInode(sector, size, m.inode, m.data);
      if success {
        success := AddEntry(name, sector, m.add);
      }
      if !success && sector != 0 {
        FreeMapRelease(sector, 1);
      }
    }

    /** filesys_open up to the inode. */
    method OpenFile(name: string, m: OpenMemory) returns (sector: Option<nat>)
      requires Valid() && Inv(State())
      modifies this`open
      ensures forall i | 0 <= i < |old(entries)| && old(entries)[i].inUse :: old(entries)[i].sector in inodes
      ensures (State(), sector) == Open(old(State()), name, m)
    {
      hide Inv, InodeOpen, Lookup, Seen;
      NamedAreThere(State());
      if !m.dir {
        return None;
      }
      var slot := Find(name, m.lookup);
      if slot.None? {
        return None;
      }
      SeenSlot(entries, m.lookup, name);
      sector := Some(entries[slot.value].sector);
      var success := OpenSector(sector.value, m.inode);
      if !success {
        sector := None;
      }
    }

    /** filesys_remove, by way of dir_remove. */
    method RemoveFile(name: string, m: RemoveMemory) returns (success: bool)
      requires Valid() && Inv(State())
      modifies this`open, this`entries, freeMap.bits
      ensures (State(), success) == Remove(old(State()), name, m)
    {
      hide Inv, InodeClose, CanClose, Owned, Used, Range, InodeOpen, Lookup, Seen;
      ghost var fs := State();
      if !m.dir {
        return false;
      }
      var slot := Find(name, m.lookup);
      if slot.None? {
        return false;
      }
      var i := slot.value;
      SeenSlot(fs.entries, m.lookup, name);
      NamedIsThere(fs, i);
      var sector := entries[i].sector;
      UnnamedKeeps(fs, i);
      UnnamedIs(fs, i);
      OpenKeeps(fs, sector);
      success := OpenSector(sector, m.inode);
      if success {
        if m.write {
          entries := entries[i := entries[i].(inUse := false)];
          open := open[sector := open[sector].(removed := true)];
          assert State() == Unnamed(fs, i);
          CloseKeeps(Unnamed(fs, i), sector);
          ClosesOwned(Unnamed(fs, i), sector);
        } else {
          success := false;
          CloseKeeps(InodeOpen(fs, sector), sector);
          ClosesOwned(InodeOpen(fs, sector), sector);
        }
        CloseInode(sector);
      }
    }
  }
}
