/** Who owns which sectors: files are created, opened, removed and closed (filesys/filesys.c,
    filesys/directory.c, filesys/inode.c and filesys/free-map.c), as steps on the state that these
    files keep. */
module FileSystem {
  import opened Bitmaps
  import opened Palloc
  import opened InodeData
  import opened Wrappers

  const FREE_MAP_SECTOR: nat := 0
  const ROOT_DIR_SECTOR: nat := 1
  const NAME_MAX: nat := 14
  /** sizeof (struct dir_entry): sector number, name with its end, and in_use. */
  const ENTRY_SIZE: nat := 20
  const ROOT_ENTRIES: nat := 16

  /** struct inode_disk, as it is in the inode's sector. */
  datatype InodeDisk = InodeDisk(start: nat, length: nat)

  /** struct dir_entry. */
  datatype Entry = Entry(sector: nat, name: string, inUse: bool)

  /** struct inode, of an inode that is open. */
  datatype OpenInode = OpenInode(openCnt: nat, removed: bool, data: InodeDisk)

  /** The free map, the inodes on disk by sector, the slots of the root directory, and the inodes in
      memory. */
  datatype Fs = Fs(used: seq<bool>, inodes: map<nat, InodeDisk>, entries: seq<Entry>, open: map<nat, OpenInode>)

  // ----- The free map -----------------------------------------------------------------------------

  /** The first group of cnt free sectors at or after i: what bitmap_scan finds. */
  function FirstFit(used: seq<bool>, i: nat, cnt: nat): (r: Found)
    requires i <= |used|
    ensures IsFirstFit(used, i, cnt, false, r)
    decreases |used| - i
  {
    if i + cnt > |used| then NotFound
    else if AllAre(used, i, cnt, false) then At(i)
    else FirstFit(used, i + 1, cnt)
  }

  function Release(used: seq<bool>, start: nat, cnt: nat): seq<bool>
    requires start + cnt <= |used|
  {
    Filled(used, start, cnt, false)
  }

  // ----- Directory entries ------------------------------------------------------------------------

  predicate ValidName(name: string) {
    name != "" && |name| <= NAME_MAX
  }

  /** lookup: the first slot in use with that name. */
  function Lookup(entries: seq<Entry>, name: string): (r: Option<nat>)
    ensures r.Some? ==> r.value < |entries| && entries[r.value].inUse && entries[r.value].name == name
    ensures r.None? ==> forall i | 0 <= i < |entries| :: !(entries[i].inUse && entries[i].name == name)
  {
    if entries == [] then None
    else if entries[0].inUse && entries[0].name == name then Some(0)
    else match Lookup(entries[1..], name) case Some(i) => Some(i + 1) case None => None
  }

  /** The first slot that is not in use. */
  function FreeSlot(entries: seq<Entry>): (r: Option<nat>)
    ensures r.Some? ==> r.value < |entries| && !entries[r.value].inUse
    ensures r.None? ==> forall i | 0 <= i < |entries| :: entries[i].inUse
  {
    if entries == [] then None
    else if !entries[0].inUse then Some(0)
    else match FreeSlot(entries[1..]) case Some(i) => Some(i + 1) case None => None
  }

  /** The slots that a scan of the directory gets to read. inode_read_at needs memory for a bounce
      buffer, since a slot is less than a sector, and a scan ends at a short read: so limit is how many
      slots can be read before malloc fails. */
  function Seen(entries: seq<Entry>, limit: nat): seq<Entry> {
    if limit < |entries| then entries[..limit] else entries
  }

  /** A slot is read and written as a whole with a bounce buffer, if the file reaches that far, and not at
      all without. */
  lemma SlotNeedsMemory(entries: nat, i: nat)
    ensures Clipped(entries * ENTRY_SIZE, ENTRY_SIZE, i * ENTRY_SIZE) == if i < entries then ENTRY_SIZE else 0
    ensures Whole(entries * ENTRY_SIZE, ENTRY_SIZE, i * ENTRY_SIZE) == 0
  {
  }

  /** Where the search for a free slot stops: at one, or where a slot cannot be read, or at the end. */
  function Stop(entries: seq<Entry>, limit: nat): nat {
    match FreeSlot(Seen(entries, limit)) case Some(i) => i case None => |Seen(entries, limit)|
  }

  /** What malloc does for dir_add: how many slots lookup and the search for a free slot can read, and
      whether there is a bounce buffer for writing the slot. */
  datatype AddMemory = AddMemory(lookup: nat, search: nat, write: bool)

  /** dir_add: None when the name is not valid, or lookup sees it, or the search gets to the end, since
      the directory does not grow, or the slot cannot be written. */
  function DirAdd(entries: seq<Entry>, name: string, sector: nat, m: AddMemory): Option<seq<Entry>> {
    if !ValidName(name) || Lookup(Seen(entries, m.lookup), name).Some? then None
    else if Stop(entries, m.search) >= |entries| || !m.write then None
    else Some(entries[Stop(entries, m.search) := Entry(sector, name, true)])
  }

  // ----- Inodes -----------------------------------------------------------------------------------

  /** The sectors of an inode: its own, and those of the data. */
  function Owned(sector: nat, d: InodeDisk): set<nat> {
    {sector} + Range(d.start, BytesToSectors(d.length))
  }

  /** free_map_allocate; written says whether the free map's file could be written. If not, the sectors
      are given back. */
  function Allocate(used: seq<bool>, cnt: nat, written: bool): Found {
    if written then FirstFit(used, 0, cnt) else NotFound
  }

  /** inode_create, when there is memory; None when there is no room for the data. */
  function InodeCreate(fs: Fs, sector: nat, length: nat, written: bool): Option<Fs> {
    match Allocate(fs.used, BytesToSectors(length), written)
    case NotFound => None
    case At(start) =>
      Some(fs.(used := Filled(fs.used, start, BytesToSectors(length), true),
               inodes := fs.inodes[sector := InodeDisk(start, length)]))
  }

  /** How many openers an inode has. */
  function Times(fs: Fs, s: nat): nat {
    if s in fs.open then fs.open[s].openCnt else 0
  }

  /** inode_open, when there is memory for the inode or it is open already. */
  function InodeOpen(fs: Fs, sector: nat): Fs
    requires sector in fs.inodes
  {
    if sector in fs.open then fs.(open := fs.open[sector := fs.open[sector].(openCnt := fs.open[sector].openCnt + 1)])
    else fs.(open := fs.open[sector := OpenInode(1, false, fs.inodes[sector])])
  }

  /** The sectors that inode_close releases are in the free map: what free_map_release relies on. */
  predicate CanClose(fs: Fs, sector: nat) {
    && sector in fs.open && fs.open[sector].openCnt > 0
    && var d := fs.open[sector].data;
      sector < |fs.used| && d.start + BytesToSectors(d.length) <= |fs.used|
  }

  /** inode_close. */
  function InodeClose(fs: Fs, sector: nat): Fs
    requires CanClose(fs, sector)
  {
    var o := fs.open[sector];
    if o.openCnt > 1 then fs.(open := fs.open[sector := o.(openCnt := o.openCnt - 1)])
    else if o.removed then
      fs.(open := fs.open - {sector},
          used := Release(Release(fs.used, sector, 1), o.data.start, BytesToSectors(o.data.length)))
    else fs.(open := fs.open - {sector})
  }

  // ----- Operations -------------------------------------------------------------------------------

  /** What goes well in filesys_create: opening the directory, writing the free map's file for the
      inode's sector and for the data, memory for the inode, and what dir_add finds. */
  datatype CreateMemory = CreateMemory(dir: bool, sector: bool, inode: bool, data: bool, add: AddMemory)

  /** filesys_create. */
  function Create(fs: Fs, name: string, size: nat, m: CreateMemory): (r: (Fs, bool)) {
    if !m.dir then (fs, false)
    else match Allocate(fs.used, 1, m.sector)
      case NotFound => (fs, false)
      case At(sector) =>
        var fs1 := fs.(used := Filled(fs.used, sector, 1, true));
        var fs2 := if m.inode then InodeCreate(fs1, sector, size, m.data) else None;
        var entries := if fs2.Some? then DirAdd(fs.entries, name, sector, m.add) else None;
        var fs3 := if fs2.Some? then fs2.value else fs1;
        if entries.Some? then (fs3.(entries := entries.value), true)
        else if sector != 0 then (fs3.(used := Release(fs3.used, sector, 1)), false)
        else (fs3, false)
  }

  /** What goes well in filesys_open up to the inode: opening the directory, how many slots lookup can
      read, and memory for the inode if it is not open yet. */
  datatype OpenMemory = OpenMemory(dir: bool, lookup: nat, inode: bool)

  /** filesys_open up to the inode. */
  function Open(fs: Fs, name: string, m: OpenMemory): (r: (Fs, Option<nat>))
    requires forall i | 0 <= i < |fs.entries| && fs.entries[i].inUse :: fs.entries[i].sector in fs.inodes
  {
    match Lookup(Seen(fs.entries, m.lookup), name)
    case None => (fs, None)
    case Some(i) =>
      var sector := fs.entries[i].sector;
      if m.dir && (sector in fs.open || m.inode) then (InodeOpen(fs, sector), Some(sector)) else (fs, None)
  }

  /** The state of dir_remove just before it closes the inode. */
  function Unnamed(fs: Fs, i: nat): Fs
    requires i < |fs.entries| && fs.entries[i].sector in fs.inodes
  {
    var sector := fs.entries[i].sector;
    var fs1 := InodeOpen(fs, sector);
    fs1.(entries := fs.entries[i := fs.entries[i].(inUse := false)],
         open := fs1.open[sector := fs1.open[sector].(removed := true)])
  }

  // ----- Invariants -------------------------------------------------------------------------------

  function Used(fs: Fs): set<nat> {
    UsedIn(fs.used, 0)
  }

  function Named(entries: seq<Entry>): set<nat> {
    set e | e in entries && e.inUse :: e.sector
  }

  /** Inodes whose sectors must not be given to anyone else: those of the system, those that a name
      leads to, and those that are open, removed or not. */
  function Live(fs: Fs): set<nat> {
    {FREE_MAP_SECTOR, ROOT_DIR_SECTOR} + Named(fs.entries) + fs.open.Keys
  }

  /** An inode's own sector is not one of its data sectors. */
  predicate DataApart(s: nat, d: InodeDisk) {
    s !in Range(d.start, BytesToSectors(d.length))
  }

  /** The inodes of a set own sectors that are in use, each its own. */
  ghost predicate Ownership(used: set<nat>, sectors: nat, inodes: map<nat, InodeDisk>, live: set<nat>) {
    && (forall s | s in live :: s in inodes && Owned(s, inodes[s]) <= used)
    && (forall s | s in live :: inodes[s].start + BytesToSectors(inodes[s].length) <= sectors && DataApart(s, inodes[s]))
    && (forall s, t | s in live && t in live && s != t :: Owned(s, inodes[s]) !! Owned(t, inodes[t]))
  }

  /** A removed inode has no name; one that is not removed may have lost its name to another file. */
  predicate OpenOk(inodes: map<nat, InodeDisk>, entries: seq<Entry>, s: nat, o: OpenInode) {
    && o.openCnt > 0 && s in inodes && o.data == inodes[s]
    && (o.removed ==> s !in Named(entries) && s > ROOT_DIR_SECTOR)
  }

  /** Slots in use have valid names and lead to different inodes. */
  predicate SlotsOk(entries: seq<Entry>) {
    && (forall i | 0 <= i < |entries| && entries[i].inUse :: ValidName(entries[i].name) && entries[i].sector > ROOT_DIR_SECTOR)
    && (forall i, j | 0 <= i < j < |entries| && entries[i].inUse && entries[j].inUse :: entries[i].sector != entries[j].sector)
  }

  /** The names in use are different from each other. */
  predicate NamesOk(entries: seq<Entry>) {
    forall i, j | 0 <= i < j < |entries| && entries[i].inUse && entries[j].inUse :: entries[i].name != entries[j].name
  }

  predicate EntriesOk(entries: seq<Entry>) {
    SlotsOk(entries) && NamesOk(entries)
  }

  /** The root directory has 16 slots, and its file is as long as they are. */
  predicate RootOk(inodes: map<nat, InodeDisk>, entries: seq<Entry>) {
    && |entries| == ROOT_ENTRIES
    && ROOT_DIR_SECTOR in inodes && inodes[ROOT_DIR_SECTOR].length == |entries| * ENTRY_SIZE
  }

  /** What every run keeps, also when memory runs out in the middle of an operation. */
  ghost predicate Inv(fs: Fs) {
    && Ownership(Used(fs), |fs.used|, fs.inodes, Live(fs))
    && (forall s | s in fs.open :: OpenOk(fs.inodes, fs.entries, s, fs.open[s]))
    && SlotsOk(fs.entries) && RootOk(fs.inodes, fs.entries)
  }

  // ----- Ownership --------------------------------------------------------------------------------

  /** Sectors that were free make a new inode; what else becomes used does not matter. */
  lemma OwnershipGrows(used: set<nat>, sectors: nat, inodes: map<nat, InodeDisk>, live: set<nat>, s: nat, d: InodeDisk, used': set<nat>)
    requires Ownership(used, sectors, inodes, live) && Owned(s, d) !! used && used + Owned(s, d) <= used'
    requires d.start + BytesToSectors(d.length) <= sectors && DataApart(s, d)
    ensures s !in live && Ownership(used', sectors, inodes[s := d], live + {s})
  {
    hide BytesToSectors, DataApart;
    assert s in Owned(s, d);
    assert forall t | t in live :: t in Owned(t, inodes[t]);
    hide Owned;
    var inodes', live' := inodes[s := d], live + {s};
    forall t, u | t in live' && u in live' && t != u
      ensures Owned(t, inodes'[t]) !! Owned(u, inodes'[u])
    {
    }
  }

  /** Changes to inodes that are not live, and more used sectors, change nothing. */
  lemma OwnershipStays(used: set<nat>, sectors: nat, inodes: map<nat, InodeDisk>, live: set<nat>, used': set<nat>, inodes': map<nat, InodeDisk>, live': set<nat>)
    requires Ownership(used, sectors, inodes, live) && used <= used' && live' <= live
    requires forall s | s in live :: s in inodes' && inodes'[s] == inodes[s]
    ensures Ownership(used', sectors, inodes', live')
  {
    hide Owned, BytesToSectors, DataApart;
  }

  lemma OwnershipOfFewer(used: set<nat>, sectors: nat, inodes: map<nat, InodeDisk>, live: set<nat>, live': set<nat>)
    requires Ownership(used, sectors, inodes, live) && live' <= live
    ensures Ownership(used, sectors, inodes, live')
  {
    hide Owned, BytesToSectors, DataApart;
  }

  /** The sectors of an inode that is given up become free. */
  lemma OwnershipShrinks(used: set<nat>, sectors: nat, inodes: map<nat, InodeDisk>, live: set<nat>, s: nat)
    requires Ownership(used, sectors, inodes, live) && s in live
    ensures Ownership(used - Owned(s, inodes[s]), sectors, inodes, live - {s})
  {
    hide Owned, BytesToSectors, DataApart;
  }

  // ----- The steps keep the invariant -------------------------------------------------------------

  lemma LiveParts(fs: Fs, s: nat)
    requires Inv(fs) && s in Live(fs)
    ensures s in fs.inodes && Owned(s, fs.inodes[s]) <= Used(fs) && s < |fs.used|
    ensures fs.inodes[s].start + BytesToSectors(fs.inodes[s].length) <= |fs.used| && DataApart(s, fs.inodes[s])
  {
    hide DataApart;
    assert s in Owned(s, fs.inodes[s]);
  }

  /** An inode in memory that has one opener more. */
  function OnceMore(fs: Fs, s: nat): OpenInode
    requires s in fs.inodes
  {
    OpenInode(Times(fs, s) + 1, s in fs.open && fs.open[s].removed, if s in fs.open then fs.open[s].data else fs.inodes[s])
  }

  lemma OpenKeeps(fs: Fs, s: nat)
    requires Inv(fs) && (s in Named(fs.entries) || s in fs.open || s <= ROOT_DIR_SECTOR)
    ensures s in fs.inodes && Inv(InodeOpen(fs, s)) && Live(InodeOpen(fs, s)) == Live(fs)
    ensures InodeOpen(fs, s) == fs.(open := fs.open[s := OnceMore(fs, s)])
  {
    hide *;
    IsLive(fs, s);
    InvParts(fs);
    OpenedIs(fs, s);
    var fs' := InodeOpen(fs, s);
    OpenedLive(fs, fs', s);
    UsedIs(fs, fs');
    OpenedOk(fs, s);
    InvFrom(fs');
  }

  lemma IsLive(fs: Fs, s: nat)
    requires Inv(fs) && (s in Named(fs.entries) || s in fs.open || s <= ROOT_DIR_SECTOR)
    ensures s in Live(fs) && s in fs.inodes
  {
    LiveParts(fs, s);
  }

  lemma OpenedIs(fs: Fs, s: nat)
    requires s in fs.inodes
    ensures InodeOpen(fs, s) == fs.(open := fs.open[s := OnceMore(fs, s)])
  {
  }

  lemma OpenedLive(fs: Fs, fs': Fs, s: nat)
    requires s in Live(fs) && fs'.entries == fs.entries && fs'.open.Keys == fs.open.Keys + {s}
    ensures Live(fs') == Live(fs)
  {
    hide Named;
  }

  lemma OpenedOk(fs: Fs, s: nat)
    requires s in fs.inodes && forall t | t in fs.open :: OpenOk(fs.inodes, fs.entries, t, fs.open[t])
    ensures OpenOk(fs.inodes, fs.entries, s, OnceMore(fs, s))
  {
    hide Named;
    assert s in fs.open ==> OpenOk(fs.inodes, fs.entries, s, fs.open[s]);
  }

  lemma CloseKeeps(fs: Fs, s: nat)
    requires Inv(fs) && s in fs.open
    ensures CanClose(fs, s) && Inv(InodeClose(fs, s))
    ensures var (fs', o) := (InodeClose(fs, s), fs.open[s]);
      && fs'.inodes == fs.inodes && fs'.entries == fs.entries
      && fs'.open == (if o.openCnt == 1 then fs.open - {s} else fs.open[s := o.(openCnt := o.openCnt - 1)])
      && (if o.openCnt == 1 && o.removed then
            Used(fs') == Used(fs) - Owned(s, fs.inodes[s]) && s in Live(fs) && Live(fs') == Live(fs) - {s}
          else Used(fs') == Used(fs))
  {
    assert s in Live(fs);
    LiveParts(fs, s);
    assert OpenOk(fs.inodes, fs.entries, s, fs.open[s]);
    var o := fs.open[s];
    if o.openCnt > 1 {
      KeepsOpen(fs, s);
    } else if o.removed {
      LastClose(fs, s);
    } else {
      ForgetsInode(fs, s);
    }
  }

  lemma KeepsOpen(fs: Fs, s: nat)
    requires Inv(fs) && CanClose(fs, s) && fs.open[s].openCnt > 1
    ensures Inv(InodeClose(fs, s)) && Used(InodeClose(fs, s)) == Used(fs)
  {
    hide Ownership, SlotsOk, Named;
    assert Live(InodeClose(fs, s)) == Live(fs);
  }

  lemma ForgetsInode(fs: Fs, s: nat)
    requires Inv(fs) && CanClose(fs, s) && fs.open[s].openCnt == 1 && !fs.open[s].removed
    ensures Inv(InodeClose(fs, s)) && Used(InodeClose(fs, s)) == Used(fs)
  {
    assert OpenOk(fs.inodes, fs.entries, s, fs.open[s]);
    var fs' := InodeClose(fs, s);
    assert Live(fs') <= Live(fs);
    OwnershipStays(Used(fs), |fs.used|, fs.inodes, Live(fs), Used(fs'), fs'.inodes, Live(fs'));
    hide Ownership, SlotsOk, Named;
  }

  lemma LastClose(fs: Fs, s: nat)
    requires Inv(fs) && CanClose(fs, s) && fs.open[s].openCnt == 1 && fs.open[s].removed
    ensures var fs' := InodeClose(fs, s);
      Inv(fs') && Used(fs') == Used(fs) - Owned(s, fs.inodes[s]) && Live(fs') == Live(fs) - {s}
  {
    assert OpenOk(fs.inodes, fs.entries, s, fs.open[s]);
    var d, fs' := fs.open[s].data, InodeClose(fs, s);
    assert s in Live(fs);
    hide Named;
    assert Live(fs') == Live(fs) - {s};
    OwnershipShrinks(Used(fs), |fs.used|, fs.inodes, Live(fs), s);
    hide Ownership, SlotsOk;
    ReleasesOwned(fs.used, s, d);
  }

  lemma ReleasesOwned(used: seq<bool>, s: nat, d: InodeDisk)
    requires s < |used| && d.start + BytesToSectors(d.length) <= |used|
    ensures var used' := Release(Release(used, s, 1), d.start, BytesToSectors(d.length));
      UsedIn(used', 0) == UsedIn(used, 0) - Owned(s, d) && |used'| == |used|
  {
    hide BytesToSectors;
    FilledIsUsed(used, 0, s, 1);
    FilledIsUsed(Release(used, s, 1), 0, d.start, BytesToSectors(d.length));
    assert Range(s, 1) == {s};
    hide Range, UsedIn;
  }

  // ----- Names ------------------------------------------------------------------------------------

  /** What a name leads to: the directory as a map from names to sectors. */
  function NameMap(entries: seq<Entry>, name: string): Option<nat> {
    match Lookup(entries, name) case Some(i) => Some(entries[i].sector) case None => None
  }

  /** lookup finds the entry with a name that is in use, since there is no other one. */
  lemma LookupIs(entries: seq<Entry>, i: nat)
    requires NamesOk(entries) && i < |entries| && entries[i].inUse
    ensures Lookup(entries, entries[i].name) == Some(i) && NameMap(entries, entries[i].name) == Some(entries[i].sector)
  {
  }

  /** A scan that cannot read every slot finds a name exactly if its first slot is among those read. */
  lemma {:induction false} LookupSeen(entries: seq<Entry>, limit: nat, name: string)
    ensures Lookup(Seen(entries, limit), name)
         == match Lookup(entries, name) case Some(i) => if i < limit then Some(i) else None case None => None
  {
    if entries != [] && limit > 0 {
      LookupSeen(entries[1..], limit - 1, name);
      assert Seen(entries, limit)[1..] == Seen(entries[1..], limit - 1);
    }
  }

  /** The search stops at the first free slot unless it cannot read a slot before that. */
  lemma {:induction false} StopIs(entries: seq<Entry>, limit: nat)
    ensures Stop(entries, limit) == match FreeSlot(entries)
      case Some(i) => if i <= limit then i else limit
      case None => if limit < |entries| then limit else |entries|
  {
    if entries != [] && limit > 0 {
      StopIs(entries[1..], limit - 1);
      assert Seen(entries, limit)[1..] == Seen(entries[1..], limit - 1);
    }
  }

  /** dir_add gets as far as writing a slot: the name is valid, lookup does not see it, the search does
      not get to the end, and the slot can be written. */
  predicate AddSucceeds(entries: seq<Entry>, name: string, m: AddMemory) {
    && ValidName(name) && m.write
    && (Lookup(entries, name).Some? ==> m.lookup <= Lookup(entries, name).value)
    && (FreeSlot(entries).Some? || m.search < |entries|)
  }

  lemma AddSucceedsIff(entries: seq<Entry>, name: string, sector: nat, m: AddMemory)
    ensures DirAdd(entries, name, sector, m).Some? <==> AddSucceeds(entries, name, m)
    ensures DirAdd(entries, name, sector, m).Some? ==>
      && Stop(entries, m.search) < |entries|
      && DirAdd(entries, name, sector, m).value == entries[Stop(entries, m.search) := Entry(sector, name, true)]
  {
    LookupSeen(entries, m.lookup, name);
    StopIs(entries, m.search);
    hide Lookup, FreeSlot, Seen, Stop;
  }

  /** The directory has one name more, which leads to the sector, and is as before otherwise. */
  ghost predicate OnlyAdds(entries: seq<Entry>, name: string, sector: nat, entries': seq<Entry>) {
    && EntriesOk(entries') && Named(entries') == Named(entries) + {sector}
    && forall n :: NameMap(entries', n) == if n == name then Some(sector) else NameMap(entries, n)
  }

  /** dir_add gives the map just one name more, and keeps the names different, exactly when the name is
      valid and not in use, there is a free slot that the search gets to, and the slot can be written. */
  lemma AddUpdatesMapIff(entries: seq<Entry>, name: string, sector: nat, m: AddMemory)
    requires EntriesOk(entries) && sector > ROOT_DIR_SECTOR && sector !in Named(entries)
    ensures (DirAdd(entries, name, sector, m).Some? && OnlyAdds(entries, name, sector, DirAdd(entries, name, sector, m).value))
       <==> && ValidName(name) && NameMap(entries, name).None? && m.write
            && FreeSlot(entries).Some? && FreeSlot(entries).value <= m.search
  {
    hide Lookup, FreeSlot, Seen, Stop, DirAdd, Named, SlotsOk, NamesOk;
    AddSucceedsIff(entries, name, sector, m);
    StopIs(entries, m.search);
    if AddSucceeds(entries, name, m) {
      var i := Stop(entries, m.search);
      var entries' := entries[i := Entry(sector, name, true)];
      SlotFilled(entries, i, name, sector);
      NamesAfter(entries, i, name, sector);
      if !entries[i].inUse && Lookup(entries, name).None? {
        forall n
          ensures NameMap(entries', n) == if n == name then Some(sector) else NameMap(entries, n)
        {
          SameLookup(entries, entries', i, n);
        }
      }
      FirstFree(entries, i);
    }
  }

  /** dir_add puts a name into the directory twice exactly when lookup cannot read as far as the name, and
      the slot that the search stops at is not the one with the name. */
  lemma AddDoublesIff(entries: seq<Entry>, name: string, sector: nat, m: AddMemory)
    requires EntriesOk(entries) && AddSucceeds(entries, name, m)
    ensures DirAdd(entries, name, sector, m).Some?
    ensures !NamesOk(DirAdd(entries, name, sector, m).value) <==> Doubles(entries, name, m)
  {
    hide Lookup, FreeSlot, Seen, Stop, DirAdd, SlotsOk, NamesOk;
    AddSucceedsIff(entries, name, sector, m);
    NamesAfter(entries, Stop(entries, m.search), name, sector);
  }

  predicate Doubles(entries: seq<Entry>, name: string, m: AddMemory) {
    && AddSucceeds(entries, name, m)
    && Lookup(entries, name).Some? && Lookup(entries, name).value != Stop(entries, m.search)
  }

  /** dir_add takes the slot of another inode exactly when a slot in use cannot be read and all slots
      before it are in use. */
  lemma AddOverwritesIff(entries: seq<Entry>, name: string, sector: nat, m: AddMemory)
    requires SlotsOk(entries) && AddSucceeds(entries, name, m) && sector > ROOT_DIR_SECTOR && sector !in Named(entries)
    ensures DirAdd(entries, name, sector, m).Some?
    ensures !(Named(entries) <= Named(DirAdd(entries, name, sector, m).value)) <==>
      m.search < |entries| && (FreeSlot(entries).Some? ==> m.search < FreeSlot(entries).value)
  {
    hide Lookup, FreeSlot, Seen, Stop, DirAdd, SlotsOk, Named;
    AddSucceedsIff(entries, name, sector, m);
    StopIs(entries, m.search);
    var i := Stop(entries, m.search);
    SlotFilled(entries, i, name, sector);
    FirstFree(entries, i);
    var entries' := entries[i := Entry(sector, name, true)];
    if entries[i].inUse {
      InUseIsNamed(entries, i);
      assert entries[i].sector !in Named(entries');
    } else {
      assert Named(entries) <= Named(entries');
    }
  }

  lemma InUseIsNamed(entries: seq<Entry>, i: nat)
    requires i < |entries| && entries[i].inUse
    ensures entries[i].sector in Named(entries)
  {
    assert entries[i] in entries;
  }

  lemma {:induction false} FirstFree(entries: seq<Entry>, i: nat)
    requires i < |entries|
    ensures !entries[i].inUse ==> FreeSlot(entries).Some? && FreeSlot(entries).value <= i
    ensures FreeSlot(entries) == Some(i) ==> !entries[i].inUse
  {
    if entries[0].inUse && i > 0 {
      FirstFree(entries[1..], i - 1);
    }
  }

  /** Writing a slot keeps the names different exactly if no other slot has the name. */
  lemma NamesAfter(entries: seq<Entry>, i: nat, name: string, sector: nat)
    requires NamesOk(entries) && i < |entries|
    ensures NamesOk(entries[i := Entry(sector, name, true)]) <==>
      Lookup(entries, name).None? || Lookup(entries, name).value == i
  {
    var entries' := entries[i := Entry(sector, name, true)];
    var l := Lookup(entries, name);
    hide Lookup;
    if l.Some? && l.value != i {
      var x, y := if l.value < i then l.value else i, if l.value < i then i else l.value;
      assert entries'[x].inUse && entries'[y].inUse && entries'[x].name == entries'[y].name;
    } else {
      forall x, y | 0 <= x < y < |entries| && entries'[x].inUse && entries'[y].inUse
        ensures entries'[x].name != entries'[y].name
      {
      }
    }
  }

  lemma SlotFilled(entries: seq<Entry>, i: nat, name: string, sector: nat)
    requires SlotsOk(entries) && i < |entries| && ValidName(name)
    requires sector > ROOT_DIR_SECTOR && sector !in Named(entries)
    ensures var entries' := entries[i := Entry(sector, name, true)];
      SlotsOk(entries') && Named(entries') == Named(entries) - Lost(entries, i) + {sector}
    ensures Named(entries[i := Entry(sector, name, true)]) == Named(entries) + {sector} <==> !entries[i].inUse
  {
    var e, entries' := Entry(sector, name, true), entries[i := Entry(sector, name, true)];
    forall j | 0 <= j < |entries| && entries[j].inUse
      ensures entries[j].sector != sector && entries[j].sector in Named(entries)
    {
      assert entries[j] in entries;
    }
    forall x | x in entries && x.inUse && (entries[i].inUse ==> x.sector != entries[i].sector)
      ensures x in entries'
    {
      var j :| 0 <= j < |entries| && entries[j] == x;
      assert entries'[j] == x;
    }
    forall x | x in entries' && x.inUse
      ensures x == e || (x in entries && (entries[i].inUse ==> x.sector != entries[i].sector))
    {
      var j :| 0 <= j < |entries'| && entries'[j] == x;
      assert j != i ==> x == entries[j];
    }
    assert entries'[i] == e;
  }

  /** The inode that loses its name when slot i is written. */
  function Lost(entries: seq<Entry>, i: nat): set<nat>
    requires i < |entries|
  {
    if entries[i].inUse then {entries[i].sector} else {}
  }

  /** A change in slot i matters only to the names before and after in that slot. */
  lemma SameLookup(entries: seq<Entry>, entries': seq<Entry>, i: nat, n: string)
    requires NamesOk(entries) && NamesOk(entries') && |entries| == |entries'| && i < |entries|
    requires forall j | 0 <= j < |entries| && j != i :: entries'[j] == entries[j]
    ensures entries'[i].inUse && entries'[i].name == n ==> NameMap(entries', n) == Some(entries'[i].sector)
    ensures !(entries'[i].inUse && entries'[i].name == n) && entries[i].inUse && entries[i].name == n ==> NameMap(entries', n) == None
    ensures !(entries'[i].inUse && entries'[i].name == n) && !(entries[i].inUse && entries[i].name == n) ==>
      NameMap(entries', n) == NameMap(entries, n)
  {
    hide Lookup;
    var l, l' := Lookup(entries, n), Lookup(entries', n);
  }

  /** Freeing a slot takes one name out of the map. */
  lemma RemoveUpdatesMap(entries: seq<Entry>, i: nat)
    requires EntriesOk(entries) && i < |entries| && entries[i].inUse
    ensures var entries' := entries[i := entries[i].(inUse := false)];
      && EntriesOk(entries') && Named(entries') == Named(entries) - {entries[i].sector}
      && entries[i].sector in Named(entries)
      && forall n :: NameMap(entries', n) == if n == entries[i].name then None else NameMap(entries, n)
  {
    var entries' := entries[i := entries[i].(inUse := false)];
    SlotFreed(entries, i);
    hide Named, Lookup, SlotsOk;
    forall n
      ensures NameMap(entries', n) == if n == entries[i].name then None else NameMap(entries, n)
    {
      SameLookup(entries, entries', i, n);
    }
  }

  lemma SlotFreed(entries: seq<Entry>, i: nat)
    requires SlotsOk(entries) && i < |entries| && entries[i].inUse
    ensures var entries' := entries[i := entries[i].(inUse := false)];
      && SlotsOk(entries') && Named(entries') == Named(entries) - {entries[i].sector} && entries[i].sector in Named(entries)
      && (NamesOk(entries) ==> NamesOk(entries'))
  {
    var entries' := entries[i := entries[i].(inUse := false)];
    assert entries[i] in entries;
    forall x | x in entries && x.inUse && x != entries[i]
      ensures x in entries' && x.sector != entries[i].sector
    {
      var j :| 0 <= j < |entries| && entries[j] == x;
      assert entries'[j] == x;
    }
    forall x | x in entries' && x.inUse
      ensures x in entries && x != entries[i]
    {
      var j :| 0 <= j < |entries'| && entries'[j] == x;
      assert j != i && x == entries[j];
    }
  }

  // ----- filesys_create, filesys_open and filesys_remove ------------------------------------------

  /** A first fit is free, and marking it makes it used. */
  lemma FitIsFree(used: seq<bool>, cnt: nat)
    ensures FirstFit(used, 0, cnt).At? ==>
      var i := FirstFit(used, 0, cnt).index;
      && i + cnt <= |used| && Range(i, cnt) !! UsedIn(used, 0)
      && UsedIn(Filled(used, i, cnt, true), 0) == UsedIn(used, 0) + Range(i, cnt)
  {
    if FirstFit(used, 0, cnt).At? {
      FilledIsUsed(used, 0, FirstFit(used, 0, cnt).index, cnt);
    }
  }

  /** The sector and the inode that filesys_create makes before it looks at the directory; None when it
      does not get that far. */
  function Prepared(fs: Fs, size: nat, m: CreateMemory): Option<(nat, InodeDisk)> {
    if !m.dir || !m.inode then None
    else match Allocate(fs.used, 1, m.sector)
      case NotFound => None
      case At(sector) =>
        match Allocate(Filled(fs.used, sector, 1, true), BytesToSectors(size), m.data)
        case NotFound => None
        case At(start) => Some((sector, InodeDisk(start, size)))
  }

  lemma PreparedIsFree(fs: Fs, size: nat, m: CreateMemory)
    requires Inv(fs) && Prepared(fs, size, m).Some?
    ensures var (sector, d) := Prepared(fs, size, m).value;
      && Owned(sector, d) !! Used(fs) && sector > ROOT_DIR_SECTOR && sector < |fs.used| && sector !in Live(fs)
      && DataApart(sector, d) && d.length == size && d.start + BytesToSectors(size) <= |fs.used|
      && var used1 := Filled(fs.used, sector, 1, true);
      UsedIn(Filled(used1, d.start, BytesToSectors(size), true), 0) == Used(fs) + Owned(sector, d)
  {
    var sector := FirstFit(fs.used, 0, 1).index;
    var used1 := Filled(fs.used, sector, 1, true);
    FitIsFree(fs.used, 1);
    FitIsFree(used1, BytesToSectors(size));
    assert Range(sector, 1) == {sector};
    assert FREE_MAP_SECTOR in Live(fs) && ROOT_DIR_SECTOR in Live(fs);
    LiveParts(fs, FREE_MAP_SECTOR);
    LiveParts(fs, ROOT_DIR_SECTOR);
    if sector in Live(fs) {
      LiveParts(fs, sector);
    }
    hide Inv, Live, UsedIn, Range, BytesToSectors, FirstFit;
  }

  /** What filesys_create does, case by case. */
  lemma CreateIs(fs: Fs, name: string, size: nat, m: CreateMemory)
    requires fs.used != [] && fs.used[0]
    ensures var (fs', ok) := Create(fs, name, size, m);
      match Prepared(fs, size, m)
      case None =>
        && !ok && fs'.(used := fs.used) == fs && |fs'.used| == |fs.used| && UsedIn(fs'.used, 0) == UsedIn(fs.used, 0)
      case Some((sector, d)) =>
        sector < |fs.used| && d.start + BytesToSectors(size) <= |fs.used| &&
        var used2 := Filled(Filled(fs.used, sector, 1, true), d.start, BytesToSectors(size), true);
        match DirAdd(fs.entries, name, sector, m.add)
        case Some(entries) => ok && fs' == Fs(used2, fs.inodes[sector := d], entries, fs.open)
        case None =>
          && !ok
          && fs' == fs.(inodes := fs.inodes[sector := d], used := if sector != 0 then Release(used2, sector, 1) else used2)
  {
    hide DirAdd, UsedIn, BytesToSectors;
    FitIsFree(fs.used, 1);
    var f := FirstFit(fs.used, 0, 1);
    if f.At? {
      var used1 := Filled(fs.used, f.index, 1, true);
      FitIsFree(used1, BytesToSectors(size));
      FilledIsUsed(used1, 0, f.index, 1);
      assert UsedIn(fs.used, 0) + Range(f.index, 1) - Range(f.index, 1) == UsedIn(fs.used, 0);
    }
  }

  lemma SystemSectorUsed(fs: Fs)
    requires Inv(fs)
    ensures fs.used != [] && fs.used[0]
  {
    assert FREE_MAP_SECTOR in Live(fs);
    LiveParts(fs, FREE_MAP_SECTOR);
    assert FREE_MAP_SECTOR in Owned(FREE_MAP_SECTOR, fs.inodes[FREE_MAP_SECTOR]);
  }

  /** filesys_create keeps every live inode's sectors its own. When it succeeds, a slot has the name and
      leads to an inode with sectors that were free; the inode whose slot that was, if any, loses its
      name. When it fails after the data sectors were allocated, these stay used without an owner. */
  lemma CreateKeeps(fs: Fs, name: string, size: nat, m: CreateMemory)
    requires Inv(fs)
    ensures var (fs', ok) := Create(fs, name, size, m);
      && Inv(fs') && fs'.open == fs.open
      && (ok <==> Prepared(fs, size, m).Some? && AddSucceeds(fs.entries, name, m.add))
      && (ok ==> var (sector, d) := Prepared(fs, size, m).value;
            && Stop(fs.entries, m.add.search) < |fs.entries|
            && fs'.entries == fs.entries[Stop(fs.entries, m.add.search) := Entry(sector, name, true)]
            && fs'.inodes == fs.inodes[sector := d] && Used(fs') == Used(fs) + Owned(sector, d)
            && Named(fs'.entries) == Named(fs.entries) - Lost(fs.entries, Stop(fs.entries, m.add.search)) + {sector})
      && (!ok ==>
            && fs'.entries == fs.entries && Live(fs') == Live(fs)
            && (forall s | s in Live(fs) && s in fs.inodes :: s in fs'.inodes && fs'.inodes[s] == fs.inodes[s])
            && Used(fs') == Used(fs) + match Prepared(fs, size, m)
                                       case Some((_, d)) => Range(d.start, BytesToSectors(size))
                                       case None => {})
  {
    SystemSectorUsed(fs);
    CreateIs(fs, name, size, m);
    var (fs', ok) := Create(fs, name, size, m);
    match Prepared(fs, size, m)
    case None =>
      OwnershipStays(Used(fs), |fs.used|, fs.inodes, Live(fs), Used(fs'), fs.inodes, Live(fs'));
      hide Create, Ownership, UsedIn, SlotsOk;
    case Some((sector, d)) =>
      PreparedIsFree(fs, size, m);
      AddSucceedsIff(fs.entries, name, sector, m.add);
      if ok {
        CreateSucceeds(fs, name, sector, d, m.add, fs');
      } else {
        CreateFails(fs, sector, d, fs');
      }
  }

  /** filesys_create adds just its name to the map exactly when dir_add gets a fresh name into a free
      slot; then every inode that was live still is. */
  lemma CreateUpdatesMapIff(fs: Fs, name: string, size: nat, m: CreateMemory)
    requires Inv(fs) && NamesOk(fs.entries)
    ensures var (fs', ok) := Create(fs, name, size, m);
      (ok && OnlyAdds(fs.entries, name, Prepared(fs, size, m).value.0, fs'.entries))
      <==> && Prepared(fs, size, m).Some? && ValidName(name) && NameMap(fs.entries, name).None? && m.add.write
           && FreeSlot(fs.entries).Some? && FreeSlot(fs.entries).value <= m.add.search
  {
    hide Inv, Create, Prepared, Live, Used, OnlyAdds, Lookup, FreeSlot, Stop, Named, DirAdd, NamesOk, AddSucceeds;
    CreateKeeps(fs, name, size, m);
    if Prepared(fs, size, m).Some? {
      var (sector, d) := Prepared(fs, size, m).value;
      PreparedIsFree(fs, size, m);
      LiveHasNamed(fs, sector);
      InvParts(fs);
      AddSucceedsIff(fs.entries, name, sector, m.add);
      AddUpdatesMapIff(fs.entries, name, sector, m.add);
    }
  }

  lemma LiveHasNamed(fs: Fs, s: nat)
    ensures s in Named(fs.entries) ==> s in Live(fs)
  {
  }

  /** filesys_create leaves data sectors used without an owner exactly when it gets as far as dir_add
      with a file that has data, and dir_add cannot succeed. */
  lemma CreateLeaksIff(fs: Fs, name: string, size: nat, m: CreateMemory)
    requires Inv(fs)
    ensures var (fs', ok) := Create(fs, name, size, m);
      !ok && Used(fs') != Used(fs)
      <==> Prepared(fs, size, m).Some? && BytesToSectors(size) > 0 && !AddSucceeds(fs.entries, name, m.add)
  {
    hide Inv, Create, Prepared, Used, Stop, Named, AddSucceeds, BytesToSectors;
    CreateKeeps(fs, name, size, m);
    if Prepared(fs, size, m).Some? {
      var (sector, d) := Prepared(fs, size, m).value;
      PreparedIsFree(fs, size, m);
      DataIsNew(sector, d, Used(fs));
    }
  }

  lemma DataIsNew(sector: nat, d: InodeDisk, used: set<nat>)
    requires Owned(sector, d) !! used
    ensures used + Range(d.start, BytesToSectors(d.length)) != used <==> BytesToSectors(d.length) > 0
  {
    hide BytesToSectors;
    if BytesToSectors(d.length) > 0 {
      assert d.start in Range(d.start, BytesToSectors(d.length)) && d.start in Owned(sector, d);
    } else {
      assert Range(d.start, 0) == {};
    }
  }

  lemma InvParts(fs: Fs)
    requires Inv(fs)
    ensures Ownership(Used(fs), |fs.used|, fs.inodes, Live(fs)) && SlotsOk(fs.entries) && RootOk(fs.inodes, fs.entries)
    ensures forall s | s in fs.open :: OpenOk(fs.inodes, fs.entries, s, fs.open[s])
    ensures Live(fs) == {FREE_MAP_SECTOR, ROOT_DIR_SECTOR} + Named(fs.entries) + fs.open.Keys
  {
    hide Ownership, SlotsOk, OpenOk, Used, RootOk;
  }

  lemma InvFrom(fs: Fs)
    requires Ownership(Used(fs), |fs.used|, fs.inodes, Live(fs)) && SlotsOk(fs.entries) && RootOk(fs.inodes, fs.entries)
    requires forall s | s in fs.open :: OpenOk(fs.inodes, fs.entries, s, fs.open[s])
    ensures Inv(fs)
  {
    hide Ownership, SlotsOk, OpenOk, Used, RootOk;
  }

  lemma RootStays(fs: Fs, fs': Fs)
    requires RootOk(fs.inodes, fs.entries) && |fs'.entries| == |fs.entries|
    requires ROOT_DIR_SECTOR in fs.inodes ==> ROOT_DIR_SECTOR in fs'.inodes && fs'.inodes[ROOT_DIR_SECTOR] == fs.inodes[ROOT_DIR_SECTOR]
    ensures RootOk(fs'.inodes, fs'.entries)
  {
  }

  lemma LiveGrows(fs: Fs, fs': Fs, sector: nat)
    requires Named(fs'.entries) <= Named(fs.entries) + {sector} && fs'.open == fs.open
    ensures Live(fs') <= Live(fs) + {sector}
    ensures sector !in Live(fs) ==> sector !in Named(fs.entries) && sector !in fs.open
  {
    hide Named;
  }

  /** Open inodes stay as they were when another inode gets a name. */
  lemma OpenStays(fs: Fs, fs': Fs, sector: nat)
    requires forall s | s in fs.open :: OpenOk(fs.inodes, fs.entries, s, fs.open[s])
    requires Named(fs'.entries) <= Named(fs.entries) + {sector} && fs'.open == fs.open && sector !in fs.open
    requires fs'.inodes.Keys == fs.inodes.Keys + {sector} && forall s | s in fs.inodes && s != sector :: fs'.inodes[s] == fs.inodes[s]
    ensures forall s | s in fs'.open :: OpenOk(fs'.inodes, fs'.entries, s, fs'.open[s])
  {
    hide Named;
    assert forall s | s in fs.open :: OpenOk(fs.inodes, fs.entries, s, fs.open[s]) && s != sector;
  }

  lemma CreateSucceeds(fs: Fs, name: string, sector: nat, d: InodeDisk, m: AddMemory, fs': Fs)
    requires Inv(fs) && Owned(sector, d) !! Used(fs) && sector > ROOT_DIR_SECTOR && sector !in Live(fs)
    requires d.start + BytesToSectors(d.length) <= |fs.used| && DataApart(sector, d)
    requires ValidName(name) && Stop(fs.entries, m.search) < |fs.entries|
    requires fs'.entries == fs.entries[Stop(fs.entries, m.search) := Entry(sector, name, true)]
    requires fs'.inodes == fs.inodes[sector := d] && fs'.open == fs.open && |fs'.used| == |fs.used|
    requires Used(fs') == Used(fs) + Owned(sector, d)
    ensures Inv(fs')
    ensures Named(fs'.entries) == Named(fs.entries) - Lost(fs.entries, Stop(fs.entries, m.search)) + {sector}
  {
    hide *;
    InvParts(fs);
    LiveHasNamed(fs, sector);
    SlotFilled(fs.entries, Stop(fs.entries, m.search), name, sector);
    LiveGrows(fs, fs', sector);
    OwnershipGrows(Used(fs), |fs.used|, fs.inodes, Live(fs), sector, d, Used(fs'));
    OwnershipOfFewer(Used(fs'), |fs.used|, fs'.inodes, Live(fs) + {sector}, Live(fs'));
    OpenStays(fs, fs', sector);
    RootStays(fs, fs');
    InvFrom(fs');
  }

  lemma CreateFails(fs: Fs, sector: nat, d: InodeDisk, fs': Fs)
    requires Inv(fs) && Owned(sector, d) !! Used(fs) && sector > ROOT_DIR_SECTOR && sector !in Live(fs) && sector < |fs.used|
    requires DataApart(sector, d) && d.start + BytesToSectors(d.length) <= |fs.used|
    requires var used2 := Filled(Filled(fs.used, sector, 1, true), d.start, BytesToSectors(d.length), true);
      && UsedIn(used2, 0) == Used(fs) + Owned(sector, d)
      && fs' == fs.(inodes := fs.inodes[sector := d], used := Release(used2, sector, 1))
    ensures Inv(fs') && Live(fs') == Live(fs) && Used(fs') == Used(fs) + Range(d.start, BytesToSectors(d.length))
  {
    hide *;
    FailsUsed(fs, sector, d, fs');
    FailsLive(fs, fs');
    InvParts(fs);
    FailsOwnership(fs, sector, d, fs');
    OpenSameInodes(fs, sector, d, fs');
    RootStays(fs, fs');
    InvFrom(fs');
  }

  lemma FailsUsed(fs: Fs, sector: nat, d: InodeDisk, fs': Fs)
    requires Owned(sector, d) !! Used(fs) && sector < |fs.used|
    requires DataApart(sector, d) && d.start + BytesToSectors(d.length) <= |fs.used|
    requires var used2 := Filled(Filled(fs.used, sector, 1, true), d.start, BytesToSectors(d.length), true);
      && UsedIn(used2, 0) == Used(fs) + Owned(sector, d)
      && fs' == fs.(inodes := fs.inodes[sector := d], used := Release(used2, sector, 1))
    ensures Used(fs') == Used(fs) + Range(d.start, BytesToSectors(d.length)) && |fs'.used| == |fs.used|
  {
    var used2 := Filled(Filled(fs.used, sector, 1, true), d.start, BytesToSectors(d.length), true);
    FilledIsUsed(used2, 0, sector, 1);
    assert Range(sector, 1) == {sector} && sector in Owned(sector, d);
    hide UsedIn, Filled, BytesToSectors;
  }

  lemma FailsLive(fs: Fs, fs': Fs)
    requires fs'.entries == fs.entries && fs'.open == fs.open
    ensures Live(fs') == Live(fs)
  {
    hide Named;
  }

  lemma FailsOwnership(fs: Fs, sector: nat, d: InodeDisk, fs': Fs)
    requires Ownership(Used(fs), |fs.used|, fs.inodes, Live(fs)) && sector !in Live(fs)
    requires fs'.inodes == fs.inodes[sector := d] && Used(fs) <= Used(fs') && |fs'.used| == |fs.used| && Live(fs') == Live(fs)
    ensures Ownership(Used(fs'), |fs'.used|, fs'.inodes, Live(fs'))
  {
    hide Live, Used, Owned, BytesToSectors, DataApart;
    OwnershipStays(Used(fs), |fs.used|, fs.inodes, Live(fs), Used(fs'), fs'.inodes, Live(fs'));
  }

  lemma OpenSameInodes(fs: Fs, sector: nat, d: InodeDisk, fs': Fs)
    requires forall s | s in fs.open :: OpenOk(fs.inodes, fs.entries, s, fs.open[s])
    requires fs'.inodes == fs.inodes[sector := d] && fs'.entries == fs.entries && fs'.open == fs.open && sector !in Live(fs)
    ensures forall s | s in fs'.open :: OpenOk(fs'.inodes, fs'.entries, s, fs'.open[s])
  {
    hide Named;
    assert forall s | s in fs.open :: s in Live(fs) && OpenOk(fs.inodes, fs.entries, s, fs.open[s]);
  }

  lemma NamedIsThere(fs: Fs, i: nat)
    requires Inv(fs) && i < |fs.entries| && fs.entries[i].inUse
    ensures fs.entries[i].sector in Named(fs.entries) && fs.entries[i].sector in fs.inodes
  {
    assert fs.entries[i] in fs.entries;
    assert fs.entries[i].sector in Live(fs);
  }

  lemma OpenByNameKeeps(fs: Fs, name: string, m: OpenMemory)
    requires Inv(fs)
    ensures forall i | 0 <= i < |fs.entries| && fs.entries[i].inUse :: fs.entries[i].sector in fs.inodes
    ensures var ((fs', r), l) := (Open(fs, name, m), Lookup(fs.entries, name));
      && Inv(fs') && Live(fs') == Live(fs)
      && (r.Some? <==> m.dir && l.Some? && l.value < m.lookup && (fs.entries[l.value].sector in fs.open || m.inode))
      && (r.Some? ==>
            NameMap(fs.entries, name) == r && r.value in fs.inodes && fs' == fs.(open := fs.open[r.value := OnceMore(fs, r.value)]))
      && (r.None? ==> fs' == fs)
  {
    forall i | 0 <= i < |fs.entries| && fs.entries[i].inUse
      ensures fs.entries[i].sector in fs.inodes && fs.entries[i].sector in Named(fs.entries)
    {
      NamedIsThere(fs, i);
    }
    LookupSeen(fs.entries, m.lookup, name);
    hide Inv, Named, Live, Seen, InodeOpen, OnceMore;
    var l := Lookup(fs.entries, name);
    if l.Some? {
      OpenKeeps(fs, fs.entries[l.value].sector);
    }
  }

  lemma EntrySector(entries: seq<Entry>, i: nat)
    requires SlotsOk(entries) && i < |entries| && entries[i].inUse
    ensures entries[i].sector > ROOT_DIR_SECTOR
  {
  }

  lemma UnnamedIs(fs: Fs, i: nat)
    requires i < |fs.entries| && fs.entries[i].sector in fs.inodes
    ensures var sector := fs.entries[i].sector;
      var fs1, fs' := InodeOpen(fs, sector), Unnamed(fs, i);
      && sector in fs1.open && fs1.used == fs.used && fs1.inodes == fs.inodes && fs1.entries == fs.entries
      && fs' == Fs(fs.used, fs.inodes, fs.entries[i := fs.entries[i].(inUse := false)],
                   fs1.open[sector := fs1.open[sector].(removed := true)])
  {
  }

  lemma UnnamedLive(fs1: Fs, fs': Fs, sector: nat)
    requires sector in fs1.open && fs'.open.Keys == fs1.open.Keys && Named(fs'.entries) == Named(fs1.entries) - {sector}
    ensures Live(fs') == Live(fs1)
  {
    hide Named;
  }

  lemma UnnamedOpen(fs1: Fs, fs': Fs, sector: nat)
    requires sector in fs1.open && fs'.open == fs1.open[sector := fs1.open[sector].(removed := true)]
    requires fs'.inodes == fs1.inodes && Named(fs'.entries) == Named(fs1.entries) - {sector} && sector > ROOT_DIR_SECTOR
    requires forall s | s in fs1.open :: OpenOk(fs1.inodes, fs1.entries, s, fs1.open[s])
    ensures forall s | s in fs'.open :: OpenOk(fs'.inodes, fs'.entries, s, fs'.open[s])
  {
    hide Named;
    forall s | s in fs'.open
      ensures OpenOk(fs'.inodes, fs'.entries, s, fs'.open[s])
    {
      assert OpenOk(fs1.inodes, fs1.entries, s, fs1.open[s]);
    }
  }

  lemma UsedIs(a: Fs, b: Fs)
    requires a.used == b.used
    ensures Used(a) == Used(b)
  {
  }

  lemma UnnamedParts(fs: Fs, i: nat, fs': Fs)
    requires i < |fs.entries| && fs.entries[i].inUse && fs.entries[i].sector in fs.inodes && fs' == Unnamed(fs, i)
    requires SlotsOk(fs.entries)
    requires var fs1 := InodeOpen(fs, fs.entries[i].sector);
      && Live(fs1) == Live(fs) && fs.entries[i].sector in fs1.open
      && Ownership(Used(fs1), |fs1.used|, fs1.inodes, Live(fs1))
      && (forall s | s in fs1.open :: OpenOk(fs1.inodes, fs1.entries, s, fs1.open[s]))
    requires Named(fs.entries[i := fs.entries[i].(inUse := false)]) == Named(fs.entries) - {fs.entries[i].sector}
    ensures fs'.entries == fs.entries[i := fs.entries[i].(inUse := false)] && fs'.used == fs.used
    ensures Live(fs') == Live(fs) && Ownership(Used(fs'), |fs'.used|, fs'.inodes, Live(fs'))
    ensures forall s | s in fs'.open :: OpenOk(fs'.inodes, fs'.entries, s, fs'.open[s])
    ensures fs.entries[i].sector in fs'.open && fs'.open[fs.entries[i].sector].removed
  {
    hide *;
    var sector := fs.entries[i].sector;
    EntrySector(fs.entries, i);
    UnnamedIs(fs, i);
    UnnamedLive(InodeOpen(fs, sector), fs', sector);
    UnnamedOpen(InodeOpen(fs, sector), fs', sector);
    UsedIs(InodeOpen(fs, sector), fs');
  }

  /** dir_remove up to its inode_close: the inode is live because it is open. */
  lemma UnnamedKeeps(fs: Fs, i: nat)
    requires Inv(fs) && i < |fs.entries| && fs.entries[i].inUse
    ensures fs.entries[i].sector in fs.inodes
    ensures var fs' := Unnamed(fs, i);
      && Inv(fs') && Live(fs') == Live(fs) && fs'.used == fs.used && fs'.entries == fs.entries[i := fs.entries[i].(inUse := false)]
      && fs.entries[i].sector in fs'.open && fs'.open[fs.entries[i].sector].removed
  {
    hide *;
    NamedIsThere(fs, i);
    var sector := fs.entries[i].sector;
    OpenKeeps(fs, sector);
    InvParts(fs);
    InvParts(InodeOpen(fs, sector));
    UnnamedIs(fs, i);
    SlotFreed(fs.entries, i);
    UnnamedParts(fs, i, Unnamed(fs, i));
    RootStays(fs, Unnamed(fs, i));
    InvFrom(Unnamed(fs, i));
  }

  // ----- Runs -------------------------------------------------------------------------------------

  /** What goes well in filesys_remove: opening the directory, how many slots lookup can read, memory
      for the inode if it is not open, and writing the slot. */
  datatype RemoveMemory = RemoveMemory(dir: bool, lookup: nat, inode: bool, write: bool)

  datatype Action =
    | CreateFile(name: string, size: nat, create: CreateMemory)
    | OpenFile(name: string, open: OpenMemory)
    | ReopenFile(sector: nat)
    | CloseFile(sector: nat)
    | RemoveFile(name: string, remove: RemoveMemory)

  /** Only inodes that are open are reopened and closed, and the free map's never. */
  predicate Enabled(fs: Fs, a: Action) {
    match a
    case ReopenFile(s) => s in fs.open && s != FREE_MAP_SECTOR
    case CloseFile(s) => s in fs.open && s != FREE_MAP_SECTOR
    case CreateFile(_, _, _) => true
    case OpenFile(_, _) => true
    case RemoveFile(_, _) => true
  }

  /** filesys_remove. Without a bounce buffer for writing the slot, the inode is closed again and keeps
      its name. */
  function Remove(fs: Fs, name: string, m: RemoveMemory): (r: (Fs, bool))
    requires Inv(fs)
  {
    match Lookup(Seen(fs.entries, m.lookup), name)
    case None => (fs, false)
    case Some(i) =>
      NamedIsThere(fs, i);
      var sector := fs.entries[i].sector;
      if !m.dir || !(sector in fs.open || m.inode) then (fs, false)
      else if !m.write then
        OpenKeeps(fs, sector);
        CloseKeeps(InodeOpen(fs, sector), sector);
        (InodeClose(InodeOpen(fs, sector), sector), false)
      else
        UnnamedKeeps(fs, i);
        CloseKeeps(Unnamed(fs, i), sector);
        (InodeClose(Unnamed(fs, i), sector), true)
  }

  function Do(fs: Fs, a: Action): Fs
    requires Inv(fs) && Enabled(fs, a)
  {
    match a
    case CreateFile(name, size, m) => Create(fs, name, size, m).0
    case OpenFile(name, m) => OpenByNameKeeps(fs, name, m); Open(fs, name, m).0
    case ReopenFile(s) => OpenKeeps(fs, s); InodeOpen(fs, s)
    case CloseFile(s) => CloseKeeps(fs, s); InodeClose(fs, s)
    case RemoveFile(name, m) => Remove(fs, name, m).0
  }

  /** Opening an inode and closing it again changes nothing. */
  lemma OpenThenClose(fs: Fs, s: nat)
    requires s in fs.inodes && CanClose(InodeOpen(fs, s), s)
    requires s in fs.open ==> fs.open[s].openCnt > 0
    ensures InodeClose(InodeOpen(fs, s), s) == fs
  {
    if s !in fs.open {
      assert fs.open[s := OpenInode(1, false, fs.inodes[s])] - {s} == fs.open;
    } else {
      var o := fs.open[s];
      assert fs.open[s := o.(openCnt := o.openCnt + 1)][s := o] == fs.open;
    }
  }

  /** The guard of filesys_remove. */
  predicate RemoveSucceeds(fs: Fs, name: string, m: RemoveMemory) {
    && m.dir && m.write && Lookup(fs.entries, name).Some? && Lookup(fs.entries, name).value < m.lookup
    && (fs.entries[Lookup(fs.entries, name).value].sector in fs.open || m.inode)
  }

  /** filesys_remove succeeds exactly when it can open the directory, read as far as the name, get at the
      inode, and write the slot; it frees the first slot with the name then, and changes nothing
      otherwise. */
  lemma RemoveKeeps(fs: Fs, name: string, m: RemoveMemory)
    requires Inv(fs)
    ensures var (fs', ok) := Remove(fs, name, m);
      && Inv(fs') && (ok <==> RemoveSucceeds(fs, name, m))
      && if ok then Removed(fs, Lookup(fs.entries, name).value, fs') else fs' == fs
  {
    LookupSeen(fs.entries, m.lookup, name);
    hide Inv, NameMap, Unnamed, InodeOpen, InodeClose, CanClose, Lookup, Seen, Removed;
    var l := Lookup(fs.entries, name);
    if l.Some? {
      var sector := fs.entries[l.value].sector;
      NamedIsThere(fs, l.value);
      UnnamedKeeps(fs, l.value);
      CloseKeeps(Unnamed(fs, l.value), sector);
      RemovedIs(fs, l.value);
      OpenKeeps(fs, sector);
      CloseKeeps(InodeOpen(fs, sector), sector);
      if sector in fs.open {
        OpenCount(fs, sector);
      }
      OpenThenClose(fs, sector);
    }
  }

  /** The slot is free. The inode's sectors are too if nobody had it open; else the inode is marked for
      removal and has as many openers as before. Nothing else has changed. */
  ghost predicate Removed(fs: Fs, i: nat, fs': Fs) {
    && i < |fs.entries| && fs'.entries == fs.entries[i := fs.entries[i].(inUse := false)] && fs'.inodes == fs.inodes
    && var s := fs.entries[i].sector;
      && s in fs.inodes
      && if s in fs.open then
           fs'.open == fs.open[s := fs.open[s].(removed := true)] && Used(fs') == Used(fs) && Live(fs') == Live(fs)
         else
           && fs'.open == fs.open && Used(fs') == Used(fs) - Owned(s, fs.inodes[s])
           && s in Live(fs) && Live(fs') == Live(fs) - {s}
  }

  lemma RemovedIs(fs: Fs, i: nat)
    requires Inv(fs) && i < |fs.entries| && fs.entries[i].inUse && fs.entries[i].sector in fs.inodes
    ensures CanClose(Unnamed(fs, i), fs.entries[i].sector)
    ensures Removed(fs, i, InodeClose(Unnamed(fs, i), fs.entries[i].sector))
  {
    hide Inv, InodeClose, InodeOpen, Owned, Live, Used, CanClose;
    var s := fs.entries[i].sector;
    var fs1 := Unnamed(fs, i);
    UnnamedKeeps(fs, i);
    NamedIsThere(fs, i);
    OpenKeeps(fs, s);
    CloseKeeps(fs1, s);
    UsedIs(fs, fs1);
    if s in fs.open {
      OpenCount(fs, s);
      OpenLive(fs, fs1, InodeClose(fs1, s));
    }
  }

  lemma OpenLive(fs: Fs, fs1: Fs, fs': Fs)
    requires Live(fs1) == Live(fs) && fs'.entries == fs1.entries && fs'.open.Keys == fs1.open.Keys
    ensures Live(fs') == Live(fs)
  {
    hide Named;
  }

  /** While names are different, the map loses just this name exactly when the name is in use and
      nothing stands in the way. */
  lemma RemoveUpdatesMapIff(fs: Fs, name: string, m: RemoveMemory)
    requires Inv(fs) && NamesOk(fs.entries)
    ensures var entries' := Remove(fs, name, m).0.entries;
      && NamesOk(entries')
      && ((NameMap(fs.entries, name).Some? && forall n :: NameMap(entries', n) == if n == name then None else NameMap(fs.entries, n))
          <==> RemoveSucceeds(fs, name, m))
  {
    hide Inv, Remove, Named, NamesOk, SlotsOk;
    InvParts(fs);
    RemoveKeeps(fs, name, m);
    var l := Lookup(fs.entries, name);
    if RemoveSucceeds(fs, name, m) {
      RemoveUpdatesMap(fs.entries, l.value);
      SlotFreed(fs.entries, l.value);
    }
  }

  lemma CloseKeepsEntries(fs: Fs, s: nat)
    requires CanClose(fs, s)
    ensures InodeClose(fs, s).entries == fs.entries && InodeClose(fs, s).inodes == fs.inodes
  {
  }

  lemma StepKeeps(fs: Fs, a: Action)
    requires Inv(fs) && Enabled(fs, a)
    ensures Inv(Do(fs, a))
  {
    hide Inv, Create, Open, InodeOpen, InodeClose, Remove;
    match a
    case CreateFile(name, size, m) => CreateKeeps(fs, name, size, m);
    case OpenFile(name, m) => OpenByNameKeeps(fs, name, m);
    case ReopenFile(s) => OpenKeeps(fs, s);
    case CloseFile(s) => CloseKeeps(fs, s);
    case RemoveFile(name, m) => RemoveKeeps(fs, name, m);
  }

  /** A formatted file system: the free map and the root directory, with the free map open. None when
      the device has no room for their data. */
  function Format(sectors: nat): Option<Fs>
    requires sectors >= 2
  {
    var fs0 := Fs(Filled(seq(sectors, i => false), 0, 2, true), map[], seq(ROOT_ENTRIES, i => Entry(0, "", false)), map[]);
    match InodeCreate(fs0, FREE_MAP_SECTOR, (sectors + ELEM_BITS - 1) / ELEM_BITS * 4, true)
    case None => None
    case Some(fs1) =>
      match InodeCreate(fs1, ROOT_DIR_SECTOR, ROOT_ENTRIES * ENTRY_SIZE, true)
      case None => None
      case Some(fs2) => Some(InodeOpen(fs2, FREE_MAP_SECTOR))
  }

  /** Making an inode in a sector that is marked but not owned yet. */
  lemma InodeCreateOwns(fs: Fs, sector: nat, length: nat, written: bool, live: set<nat>)
    requires sector in Used(fs) && sector !in live && forall s | s in live :: s in fs.inodes && sector !in Owned(s, fs.inodes[s])
    requires Ownership(Used(fs), |fs.used|, fs.inodes, live)
    ensures InodeCreate(fs, sector, length, written).Some? ==>
      var fs' := InodeCreate(fs, sector, length, written).value;
      && Used(fs) <= Used(fs') && |fs'.used| == |fs.used| && fs'.entries == fs.entries && fs'.open == fs.open
      && Used(fs') == Used(fs) + Owned(sector, fs'.inodes[sector])
      && fs'.inodes == fs.inodes[sector := fs'.inodes[sector]] && fs'.inodes[sector].length == length
      && Owned(sector, fs'.inodes[sector]) - {sector} !! Used(fs)
      && Ownership(Used(fs'), |fs.used|, fs'.inodes, live + {sector})
  {
    FitIsFree(fs.used, BytesToSectors(length));
    hide UsedIn, BytesToSectors, FirstFit;
  }

  lemma FormatInv(sectors: nat)
    requires sectors >= 2
    ensures Format(sectors).Some? ==>
      Inv(Format(sectors).value) && NamesOk(Format(sectors).value.entries) && forall n :: NameMap(Format(sectors).value.entries, n) == None
  {
    hide InodeCreate, UsedIn, Filled, Owned, BytesToSectors, Inv, NameMap, Ownership, Used, InodeOpen;
    var entries := seq(ROOT_ENTRIES, i => Entry(0, "", false));
    var fs0 := Fs(Filled(seq(sectors, i => false), 0, 2, true), map[], entries, map[]);
    TwoMarked(sectors, fs0);
    var n := (sectors + ELEM_BITS - 1) / ELEM_BITS * 4;
    InodeCreateOwns(fs0, FREE_MAP_SECTOR, n, true, {});
    var r1 := InodeCreate(fs0, FREE_MAP_SECTOR, n, true);
    if r1.Some? {
      assert ROOT_DIR_SECTOR !in Owned(FREE_MAP_SECTOR, r1.value.inodes[FREE_MAP_SECTOR]);
      assert {} + {FREE_MAP_SECTOR} == {FREE_MAP_SECTOR};
      InodeCreateOwns(r1.value, ROOT_DIR_SECTOR, ROOT_ENTRIES * ENTRY_SIZE, true, {FREE_MAP_SECTOR});
      var r2 := InodeCreate(r1.value, ROOT_DIR_SECTOR, ROOT_ENTRIES * ENTRY_SIZE, true);
      if r2.Some? {
        FormattedInv(r2.value, entries);
      }
    }
  }

  /** Formatting succeeds exactly when there is room for the two inodes, the free map and the directory, which
      takes one sector. */
  lemma FormatSucceedsIff(sectors: nat)
    requires sectors >= 2
    ensures Format(sectors).Some? <==> 3 + BytesToSectors((sectors + ELEM_BITS - 1) / ELEM_BITS * 4) <= sectors
  {
    var n := BytesToSectors((sectors + ELEM_BITS - 1) / ELEM_BITS * 4);
    var used := Filled(seq(sectors, i => false), 0, 2, true);
    FitsBehind(used, 2, n);
    if 2 + n <= sectors {
      FitsBehind(Filled(used, 2, n, true), 2 + n, 1);
    }
    assert BytesToSectors(ROOT_ENTRIES * ENTRY_SIZE) == 1;
    hide FirstFit, Filled, BytesToSectors, InodeOpen;
  }

  lemma FitsBehind(used: seq<bool>, k: nat, cnt: nat)
    requires k <= |used| && cnt > 0 && forall j | 0 <= j < |used| :: used[j] <==> j < k
    ensures FirstFit(used, 0, cnt) == if k + cnt <= |used| then At(k) else NotFound
  {
    forall j | 0 <= j && j + cnt <= |used|
      ensures AllAre(used, j, cnt, false) <==> j >= k
    {
      assert j < k ==> used[j];
    }
    FirstFitUnique(used, 0, cnt, false, FirstFit(used, 0, cnt), if k + cnt <= |used| then At(k) else NotFound);
  }

  lemma TwoMarked(sectors: nat, fs0: Fs)
    requires sectors >= 2 && fs0.used == Filled(seq(sectors, i => false), 0, 2, true)
    ensures FREE_MAP_SECTOR in Used(fs0) && ROOT_DIR_SECTOR in Used(fs0)
    ensures Ownership(Used(fs0), |fs0.used|, fs0.inodes, {})
  {
    FilledIsUsed(seq(sectors, i => false), 0, 0, 2);
    assert 0 in Range(0, 2) && 1 in Range(0, 2);
  }

  lemma FormattedInv(fs2: Fs, entries: seq<Entry>)
    requires RootOk(fs2.inodes, entries)
    requires fs2.entries == entries && fs2.open == map[] && forall i | 0 <= i < |entries| :: !entries[i].inUse
    requires Ownership(Used(fs2), |fs2.used|, fs2.inodes, {FREE_MAP_SECTOR} + {ROOT_DIR_SECTOR})
    ensures FREE_MAP_SECTOR in fs2.inodes && Inv(InodeOpen(fs2, FREE_MAP_SECTOR))
    ensures InodeOpen(fs2, FREE_MAP_SECTOR).entries == entries
    ensures forall n :: NameMap(entries, n) == None
  {
    assert Named(entries) == {};
    hide Ownership;
    assert FREE_MAP_SECTOR in {FREE_MAP_SECTOR} + {ROOT_DIR_SECTOR};
    InodeThere(fs2);
    assert Live(InodeOpen(fs2, FREE_MAP_SECTOR)) == {FREE_MAP_SECTOR} + {ROOT_DIR_SECTOR};
  }

  lemma InodeThere(fs: Fs)
    requires Ownership(Used(fs), |fs.used|, fs.inodes, {FREE_MAP_SECTOR} + {ROOT_DIR_SECTOR})
    ensures FREE_MAP_SECTOR in fs.inodes
  {
  }

  /** The state after a run on a freshly formatted device; None when the device cannot be formatted or
      an action was not enabled. */
  function After(sectors: nat, run: seq<Action>): (r: Option<Fs>)
    requires sectors >= 2
    ensures r.Some? ==> Inv(r.value)
    decreases |run|
  {
    if run == [] then
      FormatInv(sectors);
      Format(sectors)
    else
      var before := After(sectors, run[..|run| - 1]);
      if before.Some? && Enabled(before.value, run[|run| - 1]) then
        StepKeeps(before.value, run[|run| - 1]);
        Some(Do(before.value, run[|run| - 1]))
      else None
  }

  lemma FirstFreeSector(used: seq<bool>, k: nat)
    requires k < |used| && !used[k] && forall j | 0 <= j < k :: used[j]
    ensures FirstFit(used, 0, 1) == At(k)
  {
    assert forall j :: 0 <= j < k ==> used[j] && !AllAre(used, j, 1, false);
    FirstFitUnique(used, 0, 1, false, FirstFit(used, 0, 1), At(k));
  }

  const ALL_MEMORY: CreateMemory := CreateMemory(true, true, true, true, AddMemory(ROOT_ENTRIES, ROOT_ENTRIES, true))

  /** With all the memory there is: "a" without data, and "a" again with one byte. */
  function TwiceTheSame(): seq<Action> {
    [CreateFile("a", 0, ALL_MEMORY), CreateFile("a", 1, ALL_MEMORY)]
  }

  function NoEntries(): seq<Entry> {
    seq(ROOT_ENTRIES, i => Entry(0, "", false))
  }

  /** A formatted device of seven sectors. */
  function SevenSectors(): Fs {
    Fs([true, true, true, true, false, false, false], map[0 := InodeDisk(2, 4), 1 := InodeDisk(3, 320)],
       NoEntries(), map[0 := OpenInode(1, false, InodeDisk(2, 4))])
  }

  function WithFile(): Fs {
    Fs([true, true, true, true, true, false, false],
       map[0 := InodeDisk(2, 4), 1 := InodeDisk(3, 320), 4 := InodeDisk(0, 0)],
       NoEntries()[0 := Entry(4, "a", true)], map[0 := OpenInode(1, false, InodeDisk(2, 4))])
  }

  function WithLeak(): Fs {
    Fs([true, true, true, true, true, false, true],
       map[0 := InodeDisk(2, 4), 1 := InodeDisk(3, 320), 4 := InodeDisk(0, 0), 5 := InodeDisk(6, 1)],
       NoEntries()[0 := Entry(4, "a", true)], map[0 := OpenInode(1, false, InodeDisk(2, 4))])
  }

  /** A run on a device of seven sectors: the second call fails, and leaves sector 6 used, which no inode
      in use has. */
  lemma CreateCanLeak()
    ensures After(7, TwiceTheSame()[..1]) == Some(WithFile()) && After(7, TwiceTheSame()) == Some(WithLeak())
    ensures !Create(WithFile(), "a", 1, ALL_MEMORY).1
    ensures 6 !in Used(WithFile()) && 6 in Used(WithLeak())
    ensures forall s | s in Live(WithLeak()) :: s in WithLeak().inodes && 6 !in Owned(s, WithLeak().inodes[s])
  {
    hide Create, After, SevenSectors, WithFile, WithLeak, Live, Owned, UsedIn;
    FormatsSeven();
    FirstCreate();
    SecondCreate();
    TwoSteps();
    LeakIs();
  }

  lemma TwoSteps()
    requires Format(7) == Some(SevenSectors())
    requires Create(SevenSectors(), "a", 0, ALL_MEMORY) == (WithFile(), true)
    requires Create(WithFile(), "a", 1, ALL_MEMORY) == (WithLeak(), false)
    ensures After(7, TwiceTheSame()[..1]) == Some(WithFile()) && After(7, TwiceTheSame()) == Some(WithLeak())
  {
    hide Create, Format, SevenSectors, WithFile, WithLeak, Inv;
    assert TwiceTheSame()[..1][..0] == [];
    assert After(7, []) == Some(SevenSectors());
  }

  lemma LeakIs()
    ensures 6 !in Used(WithFile()) && 6 in Used(WithLeak())
    ensures forall s | s in Live(WithLeak()) :: s in WithLeak().inodes && 6 !in Owned(s, WithLeak().inodes[s])
  {
    assert WithLeak().entries[0] in WithLeak().entries;
    assert Named(WithLeak().entries) == {4};
    hide Named;
  }

  lemma FormatsSeven()
    ensures Format(7) == Some(SevenSectors())
  {
    var used := Filled(seq(7, i => false), 0, 2, true);
    assert used == [true, true, false, false, false, false, false];
    FirstFreeSector(used, 2);
    assert Filled(used, 2, 1, true) == [true, true, true, false, false, false, false];
    FirstFreeSector(Filled(used, 2, 1, true), 3);
    assert Filled(Filled(used, 2, 1, true), 3, 1, true) == SevenSectors().used;
    hide FirstFit, Filled;
  }

  lemma FirstCreate()
    ensures Create(SevenSectors(), "a", 0, ALL_MEMORY) == (WithFile(), true)
  {
    FirstPrepared();
    CreateIs(SevenSectors(), "a", 0, ALL_MEMORY);
    FirstAdded();
    hide Create, DirAdd, Prepared;
  }

  lemma FirstPrepared()
    ensures Prepared(SevenSectors(), 0, ALL_MEMORY) == Some((4, InodeDisk(0, 0)))
    ensures Filled(Filled(SevenSectors().used, 4, 1, true), 0, 0, true) == WithFile().used
  {
    var used1 := Filled(SevenSectors().used, 4, 1, true);
    FirstFreeSector(SevenSectors().used, 4);
    assert used1 == WithFile().used;
    FirstFitUnique(used1, 0, 0, false, FirstFit(used1, 0, 0), At(0));
    hide FirstFit, Filled;
  }

  lemma FirstAdded()
    ensures DirAdd(NoEntries(), "a", 4, ALL_MEMORY.add) == Some(NoEntries()[0 := Entry(4, "a", true)])
  {
    AddSucceedsIff(NoEntries(), "a", 4, ALL_MEMORY.add);
    StopIs(NoEntries(), ROOT_ENTRIES);
    FirstFree(NoEntries(), 0);
    hide Lookup, FreeSlot, DirAdd, Stop;
  }

  lemma SecondCreate()
    ensures Create(WithFile(), "a", 1, ALL_MEMORY) == (WithLeak(), false)
  {
    var fs := WithFile();
    var used1 := Filled(fs.used, 5, 1, true);
    FirstFreeSector(fs.used, 5);
    FirstFreeSector(used1, 6);
    var used2 := Filled(used1, 6, 1, true);
    assert Release(used2, 5, 1) == WithLeak().used;
    AddSucceedsIff(fs.entries, "a", 5, ALL_MEMORY.add);
    assert Lookup(fs.entries, "a") == Some(0);
    hide FirstFit, Filled, Lookup, FreeSlot, DirAdd;
  }

  /** The directory of WithFile, when lookup fails to read the first slot. */
  lemma AddCanDouble()
    ensures EntriesOk(WithFile().entries)
    ensures DirAdd(WithFile().entries, "a", 5, AddMemory(0, ROOT_ENTRIES, true))
         == Some(NoEntries()[0 := Entry(4, "a", true)][1 := Entry(5, "a", true)])
  {
    var entries := WithFile().entries;
    LookupSeen(entries, 0, "a");
    StopIs(entries, ROOT_ENTRIES);
    FirstFree(entries, 1);
    AddSucceedsIff(entries, "a", 5, AddMemory(0, ROOT_ENTRIES, true));
    hide Lookup, FreeSlot, DirAdd, Stop;
  }

  /** The same directory, when the search fails to read the first slot: the file loses its name. */
  lemma AddCanOverwrite()
    ensures var entries' := NoEntries()[0 := Entry(5, "b", true)];
      && DirAdd(WithFile().entries, "b", 5, AddMemory(ROOT_ENTRIES, 0, true)) == Some(entries')
      && NameMap(WithFile().entries, "a") == Some(4) && NameMap(entries', "a") == None
  {
    var entries, entries' := WithFile().entries, NoEntries()[0 := Entry(5, "b", true)];
    StopIs(entries, 0);
    assert "a"[0] != "b"[0];
    LookupIs(entries, 0);
    AddSucceedsIff(entries, "b", 5, AddMemory(ROOT_ENTRIES, 0, true));
    assert entries[0 := Entry(5, "b", true)] == entries';
    hide Lookup, FreeSlot, DirAdd, Stop;
  }

  /** A step keeps the names different exactly if it is not one that puts a name in twice. */
  lemma NamesKeptIff(fs: Fs, a: Action)
    requires Inv(fs) && Enabled(fs, a) && NamesOk(fs.entries)
    ensures NamesOk(Do(fs, a).entries) <==> !DoublesName(fs, a)
  {
    hide Inv, Create, Open, InodeOpen, InodeClose, Remove, NamesOk, Doubles, Prepared, Named, AddSucceeds;
    match a
    case CreateFile(name, size, m) =>
      CreateKeeps(fs, name, size, m);
      if Create(fs, name, size, m).1 {
        DoublesIs(fs.entries, name, m.add);
        NamesAfter(fs.entries, Stop(fs.entries, m.add.search), name, Prepared(fs, size, m).value.0);
      } else {
        DoublesIs(fs.entries, name, m.add);
      }
    case OpenFile(name, m) => OpenByNameKeeps(fs, name, m);
    case ReopenFile(s) =>
      OpenKeeps(fs, s);
      InodeOpenEntries(fs, s);
    case CloseFile(s) =>
      CloseKeeps(fs, s);
      CloseKeepsEntries(fs, s);
    case RemoveFile(name, m) => RemoveUpdatesMapIff(fs, name, m);
  }

  lemma DoublesIs(entries: seq<Entry>, name: string, m: AddMemory)
    ensures Doubles(entries, name, m) <==>
      && AddSucceeds(entries, name, m)
      && Lookup(entries, name).Some? && Lookup(entries, name).value != Stop(entries, m.search)
  {
  }

  lemma InodeOpenEntries(fs: Fs, s: nat)
    requires s in fs.inodes
    ensures InodeOpen(fs, s).entries == fs.entries
  {
  }

  predicate DoublesName(fs: Fs, a: Action) {
    a.CreateFile? && Prepared(fs, a.size, a.create).Some? && Doubles(fs.entries, a.name, a.create.add)
  }

  /** No step of the run puts a name in twice. */
  predicate NeverDoubles(sectors: nat, run: seq<Action>)
    requires sectors >= 2 && After(sectors, run).Some?
    decreases |run|
  {
    run == [] ||
    var before := run[..|run| - 1];
    NeverDoubles(sectors, before) && !DoublesName(After(sectors, before).value, run[|run| - 1])
  }

  /** Then names are different in the end, and lookup of each name in use finds its only slot. */
  lemma {:induction false} NamesUnique(sectors: nat, run: seq<Action>)
    requires sectors >= 2 && After(sectors, run).Some? && NeverDoubles(sectors, run)
    ensures var entries := After(sectors, run).value.entries;
      && NamesOk(entries)
      && forall i | 0 <= i < |entries| && entries[i].inUse :: Lookup(entries, entries[i].name) == Some(i)
    decreases |run|
  {
    hide DoublesName, Do, NamesOk, Inv, Lookup, Format;
    var fs := After(sectors, run).value;
    if run == [] {
      FormatInv(sectors);
    } else {
      var before := run[..|run| - 1];
      NamesUnique(sectors, before);
      NamesKeptIff(After(sectors, before).value, run[|run| - 1]);
    }
    forall i | 0 <= i < |fs.entries| && fs.entries[i].inUse
      ensures Lookup(fs.entries, fs.entries[i].name) == Some(i)
    {
      LookupIs(fs.entries, i);
    }
  }

  /** malloc lets lookup read every slot of the root directory. */
  predicate ReadsAllSlots(a: Action) {
    a.CreateFile? ==> a.create.add.lookup >= ROOT_ENTRIES
  }

  /** As long as lookup in dir_add can read every slot, names are different in every reachable state. */
  lemma {:induction false} EnoughMemoryKeepsNames(sectors: nat, run: seq<Action>)
    requires sectors >= 2 && After(sectors, run).Some? && forall a | a in run :: ReadsAllSlots(a)
    ensures NeverDoubles(sectors, run) && NamesOk(After(sectors, run).value.entries)
    decreases |run|
  {
    hide DoublesName, Do, NamesOk, Inv, Format, ReadsAllSlots;
    if run != [] {
      var before := run[..|run| - 1];
      EnoughMemoryKeepsNames(sectors, before);
      InvParts(After(sectors, before).value);
      AllReadNeverDoubles(After(sectors, before).value, run[|run| - 1]);
    }
    NamesUnique(sectors, run);
  }

  lemma AllReadNeverDoubles(fs: Fs, a: Action)
    requires RootOk(fs.inodes, fs.entries) && ReadsAllSlots(a)
    ensures !DoublesName(fs, a)
  {
  }

  // ----- Every used sector has an owner -----------------------------------------------------------

  /** Each of these sectors belongs to a live inode. */
  ghost predicate AllOwned(used: set<nat>, inodes: map<nat, InodeDisk>, live: set<nat>) {
    forall x | x in used :: exists s :: s in live && s in inodes && x in Owned(s, inodes[s])
  }

  /** The free map marks no sector for nothing, and an open inode that is not removed has a name or is one of
      the system's. */
  ghost predicate Accounted(fs: Fs) {
    AllOwned(Used(fs), fs.inodes, Live(fs)) && OpenHaveNames(fs)
  }

  ghost predicate OpenHaveNames(fs: Fs) {
    forall s | s in fs.open && !fs.open[s].removed :: s in Named(fs.entries) || s <= ROOT_DIR_SECTOR
  }

  /** filesys_create gets to dir_add with a file that has data, and dir_add cannot succeed. */
  predicate Leaks(fs: Fs, a: Action) {
    && a.CreateFile? && Prepared(fs, a.size, a.create).Some? && BytesToSectors(a.size) > 0
    && !AddSucceeds(fs.entries, a.name, a.create.add)
  }

  /** filesys_create writes the slot of another file. */
  predicate Overwrites(fs: Fs, a: Action) {
    && a.CreateFile? && Prepared(fs, a.size, a.create).Some? && AddSucceeds(fs.entries, a.name, a.create.add)
    && var (search, free) := (a.create.add.search, FreeSlot(fs.entries));
      search < |fs.entries| && (free.Some? ==> search < free.value)
  }

  lemma OwnedGrow(used: set<nat>, inodes: map<nat, InodeDisk>, live: set<nat>, s: nat, d: InodeDisk)
    requires AllOwned(used, inodes, live) && s !in live
    ensures AllOwned(used + Owned(s, d), inodes[s := d], live + {s})
  {
    hide Owned;
    forall x | x in used + Owned(s, d)
      ensures exists t :: t in live + {s} && t in inodes[s := d] && x in Owned(t, inodes[s := d][t])
    {
      if x in Owned(s, d) {
        assert s in live + {s};
      } else {
        var t :| t in live && t in inodes && x in Owned(t, inodes[t]);
        assert t in live + {s};
      }
    }
  }

  lemma OwnedShrink(used: set<nat>, inodes: map<nat, InodeDisk>, live: set<nat>, s: nat)
    requires AllOwned(used, inodes, live) && s in inodes
    ensures AllOwned(used - Owned(s, inodes[s]), inodes, live - {s})
  {
    hide Owned;
    forall x | x in used - Owned(s, inodes[s])
      ensures exists t :: t in live - {s} && t in inodes && x in Owned(t, inodes[t])
    {
      var t :| t in live && t in inodes && x in Owned(t, inodes[t]);
      assert t in live - {s};
    }
  }

  lemma OwnedStay(used: set<nat>, inodes: map<nat, InodeDisk>, live: set<nat>, inodes': map<nat, InodeDisk>)
    requires AllOwned(used, inodes, live) && forall s | s in live && s in inodes :: s in inodes' && inodes'[s] == inodes[s]
    ensures AllOwned(used, inodes', live)
  {
    hide Owned;
    forall x | x in used
      ensures exists t :: t in live && t in inodes' && x in Owned(t, inodes'[t])
    {
      var t :| t in live && t in inodes && x in Owned(t, inodes[t]);
      assert t in live;
    }
  }

  /** A sector that is used and belongs to none of the live inodes. */
  lemma NotOwned(used: set<nat>, inodes: map<nat, InodeDisk>, live: set<nat>, x: nat)
    requires x in used && forall s | s in live && s in inodes :: x !in Owned(s, inodes[s])
    ensures !AllOwned(used, inodes, live)
  {
    hide Owned;
  }

  lemma OverwritesIs(entries: seq<Entry>, name: string, m: AddMemory)
    requires AddSucceeds(entries, name, m)
    ensures Stop(entries, m.search) < |entries|
    ensures entries[Stop(entries, m.search)].inUse <==>
      m.search < |entries| && (FreeSlot(entries).Some? ==> m.search < FreeSlot(entries).value)
  {
    hide Lookup, FreeSlot, Stop;
    AddSucceedsIff(entries, name, 0, m);
    StopIs(entries, m.search);
    FirstFree(entries, Stop(entries, m.search));
  }

  lemma AccountsOf(fs: Fs, fs': Fs)
    requires Accounted(fs)
    ensures AllOwned(Used(fs), fs.inodes, Live(fs)) && OpenHaveNames(fs)
    ensures Accounted(fs') <==> AllOwned(Used(fs'), fs'.inodes, Live(fs')) && OpenHaveNames(fs')
  {
    hide AllOwned, Used, Live, Named;
  }

  /** A new inode under a new name. */
  lemma NewAccounted(fs: Fs, fs': Fs, sector: nat, d: InodeDisk)
    requires Accounted(fs) && sector !in Live(fs) && fs'.open == fs.open && fs'.inodes == fs.inodes[sector := d]
    requires Used(fs') == Used(fs) + Owned(sector, d) && Named(fs'.entries) == Named(fs.entries) + {sector}
    ensures Accounted(fs')
  {
    AccountsOf(fs, fs');
    assert Live(fs') == Live(fs) + {sector} by {
      hide Named;
    }
    OwnedGrow(Used(fs), fs.inodes, Live(fs), sector, d);
    hide Accounted, AllOwned, Used, Live, Named;
  }

  /** An inode that loses its name: its sectors are lost, or will be when it is closed. */
  lemma LostUnaccounted(fs: Fs, fs': Fs, sector: nat, d: InodeDisk, t: nat)
    requires Inv(fs) && sector !in Live(fs) && Owned(sector, d) !! Used(fs) && t in Named(fs.entries) && t > ROOT_DIR_SECTOR
    requires fs'.open == fs.open && fs'.inodes == fs.inodes[sector := d]
    requires Used(fs') == Used(fs) + Owned(sector, d) && Named(fs'.entries) == Named(fs.entries) - {t} + {sector}
    ensures !Accounted(fs')
  {
    IsLive(fs, t);
    InvParts(fs);
    assert Live(fs') <= Live(fs) + {sector} && (t !in fs.open ==> t !in Live(fs')) by {
      hide Named, Inv, Ownership;
    }
    assert t in Owned(t, fs.inodes[t]);
    hide Inv, Named, Owned, Live, Used;
    if t in fs.open {
      assert OpenOk(fs.inodes, fs.entries, t, fs.open[t]);
    } else {
      NotOwned(Used(fs'), fs'.inodes, Live(fs'), t);
    }
  }

  lemma LeakUnaccounted(fs: Fs, fs': Fs, sector: nat, d: InodeDisk)
    requires Inv(fs) && Live(fs') == Live(fs) && Owned(sector, d) !! Used(fs) && BytesToSectors(d.length) > 0
    requires forall s | s in Live(fs) && s in fs.inodes :: s in fs'.inodes && fs'.inodes[s] == fs.inodes[s]
    requires Used(fs') == Used(fs) + Range(d.start, BytesToSectors(d.length))
    ensures !Accounted(fs')
  {
    InvParts(fs);
    assert d.start in Range(d.start, BytesToSectors(d.length)) && d.start in Owned(sector, d);
    hide Inv, Live, Used, Owned, BytesToSectors;
    NotOwned(Used(fs'), fs'.inodes, Live(fs'), d.start);
  }

  lemma CreateAccountedIff(fs: Fs, name: string, size: nat, m: CreateMemory)
    requires Inv(fs) && Accounted(fs)
    ensures Accounted(Create(fs, name, size, m).0) <==>
      !Leaks(fs, CreateFile(name, size, m)) && !Overwrites(fs, CreateFile(name, size, m))
  {
    hide Inv, Accounted, Create, Prepared, Used, Live, Named, Owned, AllOwned, AddSucceeds, Stop, BytesToSectors, FreeSlot, Range;
    CreateKeeps(fs, name, size, m);
    var (fs', ok) := Create(fs, name, size, m);
    AccountsOf(fs, fs');
    if Prepared(fs, size, m).Some? {
      var (sector, d) := Prepared(fs, size, m).value;
      PreparedIsFree(fs, size, m);
      if ok {
        var i := Stop(fs.entries, m.add.search);
        OverwritesIs(fs.entries, name, m.add);
        if fs.entries[i].inUse {
          InUseIsNamed(fs.entries, i);
          InvParts(fs);
          EntrySector(fs.entries, i);
          LostUnaccounted(fs, fs', sector, d, fs.entries[i].sector);
        } else {
          NewAccounted(fs, fs', sector, d);
        }
      } else if BytesToSectors(size) > 0 {
        LeakUnaccounted(fs, fs', sector, d);
      } else {
        DataIsNew(sector, d, Used(fs));
        OwnedStay(Used(fs), fs.inodes, Live(fs), fs'.inodes);
      }
    } else {
      assert Used(fs) + {} == Used(fs);
      OwnedStay(Used(fs), fs.inodes, Live(fs), fs'.inodes);
    }
  }

  lemma CloseAccounted(fs: Fs, s: nat)
    requires Inv(fs) && Accounted(fs) && s in fs.open
    ensures CanClose(fs, s) && Accounted(InodeClose(fs, s))
  {
    hide Inv, Accounted, AllOwned, InodeClose, Used, Live, Named, Owned;
    CloseKeeps(fs, s);
    var fs' := InodeClose(fs, s);
    AccountsOf(fs, fs');
    if fs.open[s].openCnt == 1 && fs.open[s].removed {
      OpenData(fs, s);
      OwnedShrink(Used(fs), fs.inodes, Live(fs), s);
    } else {
      ClosedLive(fs, fs', s);
    }
  }

  lemma OpenData(fs: Fs, s: nat)
    requires Inv(fs) && s in fs.open
    ensures s in fs.inodes && fs.open[s].data == fs.inodes[s] && fs.open[s].openCnt > 0
  {
    InvParts(fs);
    assert OpenOk(fs.inodes, fs.entries, s, fs.open[s]);
  }

  lemma ClosedLive(fs: Fs, fs': Fs, s: nat)
    requires s in fs.open && (s in fs'.open || s in Named(fs.entries) || s <= ROOT_DIR_SECTOR)
    requires fs'.entries == fs.entries && fs'.open.Keys + {s} == fs.open.Keys
    ensures Live(fs') == Live(fs)
  {
    hide Named;
  }

  lemma RemoveAccounted(fs: Fs, i: nat, fs': Fs)
    requires Inv(fs) && Accounted(fs) && i < |fs.entries| && fs.entries[i].inUse && Removed(fs, i, fs')
    ensures Accounted(fs')
  {
    hide Inv, Accounted, AllOwned, Used, Live, Named, Owned;
    AccountsOf(fs, fs');
    InvParts(fs);
    SlotFreed(fs.entries, i);
    if fs.entries[i].sector !in fs.open {
      OwnedShrink(Used(fs), fs.inodes, Live(fs), fs.entries[i].sector);
    }
  }

  /** A step that finds every used sector owned leaves it so exactly if it is not a call of filesys_create
      that loses data sectors, or writes another file's slot. */
  lemma AccountedKeptIff(fs: Fs, a: Action)
    requires Inv(fs) && Enabled(fs, a) && Accounted(fs)
    ensures Accounted(Do(fs, a)) <==> !Leaks(fs, a) && !Overwrites(fs, a)
  {
    hide Inv, Accounted, Create, Open, InodeOpen, InodeClose, Remove, Removed, RemoveSucceeds, Used, Live, Named, Owned, Lookup;
    match a
    case CreateFile(name, size, m) => CreateAccountedIff(fs, name, size, m);
    case OpenFile(name, m) =>
      OpenByNameKeeps(fs, name, m);
      if Open(fs, name, m).1.Some? {
        InUseIsNamed(fs.entries, Lookup(fs.entries, name).value);
        OpenAccounted(fs, Open(fs, name, m).1.value, Do(fs, a));
      }
    case ReopenFile(s) =>
      OpenKeeps(fs, s);
      OpenAccounted(fs, s, Do(fs, a));
    case CloseFile(s) => CloseAccounted(fs, s);
    case RemoveFile(name, m) =>
      RemoveKeeps(fs, name, m);
      if RemoveSucceeds(fs, name, m) {
        RemoveGuard(fs, name, m);
        RemoveAccounted(fs, Lookup(fs.entries, name).value, Do(fs, a));
      }
  }

  lemma RemoveGuard(fs: Fs, name: string, m: RemoveMemory)
    requires RemoveSucceeds(fs, name, m)
    ensures var l := Lookup(fs.entries, name);
      l.Some? && l.value < |fs.entries| && fs.entries[l.value].inUse && fs.entries[l.value].name == name
  {
    hide Lookup;
  }

  lemma OpenAccounted(fs: Fs, s: nat, fs': Fs)
    requires Inv(fs) && Accounted(fs) && s in fs.inodes && fs' == fs.(open := fs.open[s := OnceMore(fs, s)])
    requires s in fs.open || s in Named(fs.entries)
    requires Live(fs') == Live(fs)
    ensures Accounted(fs')
  {
    hide Inv, Live, Named, Owned, AllOwned;
    UsedIs(fs, fs');
    hide Used;
  }

  lemma FormatAccounted(sectors: nat)
    requires sectors >= 2 && Format(sectors).Some?
    ensures Accounted(Format(sectors).value)
  {
    hide InodeCreate, UsedIn, Filled, Owned, BytesToSectors, Used, InodeOpen, AllOwned;
    var fs0 := Fs(Filled(seq(sectors, i => false), 0, 2, true), map[], NoEntries(), map[]);
    TwoMarked(sectors, fs0);
    OnlyTwo(sectors, fs0);
    var n := (sectors + ELEM_BITS - 1) / ELEM_BITS * 4;
    InodeCreateOwns(fs0, FREE_MAP_SECTOR, n, true, {});
    var fs1 := InodeCreate(fs0, FREE_MAP_SECTOR, n, true).value;
    assert ROOT_DIR_SECTOR !in Owned(FREE_MAP_SECTOR, fs1.inodes[FREE_MAP_SECTOR]);
    assert {} + {FREE_MAP_SECTOR} == {FREE_MAP_SECTOR};
    InodeCreateOwns(fs1, ROOT_DIR_SECTOR, ROOT_ENTRIES * ENTRY_SIZE, true, {FREE_MAP_SECTOR});
    var fs2 := InodeCreate(fs1, ROOT_DIR_SECTOR, ROOT_ENTRIES * ENTRY_SIZE, true).value;
    FormattedAccounted(fs2);
  }

  lemma OnlyTwo(sectors: nat, fs0: Fs)
    requires sectors >= 2 && fs0.used == Filled(seq(sectors, i => false), 0, 2, true)
    ensures Used(fs0) == {FREE_MAP_SECTOR, ROOT_DIR_SECTOR}
  {
  }

  lemma FormattedAccounted(fs2: Fs)
    requires FREE_MAP_SECTOR in fs2.inodes && ROOT_DIR_SECTOR in fs2.inodes && fs2.open == map[] && fs2.entries == NoEntries()
    requires var (d0, d1) := (fs2.inodes[FREE_MAP_SECTOR], fs2.inodes[ROOT_DIR_SECTOR]);
      Used(fs2) == {FREE_MAP_SECTOR, ROOT_DIR_SECTOR} + Owned(FREE_MAP_SECTOR, d0) + Owned(ROOT_DIR_SECTOR, d1)
    ensures Accounted(InodeOpen(fs2, FREE_MAP_SECTOR))
  {
    hide *;
    var fs := InodeOpen(fs2, FREE_MAP_SECTOR);
    OpenedIs(fs2, FREE_MAP_SECTOR);
    UsedIs(fs, fs2);
    SystemOwned(Used(fs2), fs2.inodes);
    SystemLive(fs);
    AccountedFrom(fs);
  }

  lemma SystemLive(fs: Fs)
    requires fs.entries == NoEntries() && fs.open.Keys == {FREE_MAP_SECTOR}
    ensures Live(fs) == {FREE_MAP_SECTOR, ROOT_DIR_SECTOR} && OpenHaveNames(fs)
  {
    assert Named(fs.entries) == {};
  }

  lemma AccountedFrom(fs: Fs)
    requires AllOwned(Used(fs), fs.inodes, Live(fs)) && OpenHaveNames(fs)
    ensures Accounted(fs)
  {
    hide AllOwned, Used, Live, OpenHaveNames;
  }

  lemma SystemOwned(used: set<nat>, inodes: map<nat, InodeDisk>)
    requires FREE_MAP_SECTOR in inodes && ROOT_DIR_SECTOR in inodes
    requires used == {FREE_MAP_SECTOR, ROOT_DIR_SECTOR} + Owned(FREE_MAP_SECTOR, inodes[FREE_MAP_SECTOR]) + Owned(ROOT_DIR_SECTOR, inodes[ROOT_DIR_SECTOR])
    ensures AllOwned(used, inodes, {FREE_MAP_SECTOR, ROOT_DIR_SECTOR})
  {
    assert FREE_MAP_SECTOR in Owned(FREE_MAP_SECTOR, inodes[FREE_MAP_SECTOR]);
    assert ROOT_DIR_SECTOR in Owned(ROOT_DIR_SECTOR, inodes[ROOT_DIR_SECTOR]);
    hide Owned;
    forall x | x in used
      ensures exists s :: s in {FREE_MAP_SECTOR, ROOT_DIR_SECTOR} && s in inodes && x in Owned(s, inodes[s])
    {
      var s := if x in Owned(FREE_MAP_SECTOR, inodes[FREE_MAP_SECTOR]) then FREE_MAP_SECTOR else ROOT_DIR_SECTOR;
      assert s in {FREE_MAP_SECTOR, ROOT_DIR_SECTOR};
    }
  }

  /** No step of the run loses track of sectors. */
  predicate NeverLoses(sectors: nat, run: seq<Action>)
    requires sectors >= 2 && After(sectors, run).Some?
    decreases |run|
  {
    run == [] ||
    var (before, a) := (run[..|run| - 1], run[|run| - 1]);
    NeverLoses(sectors, before) && !Leaks(After(sectors, before).value, a) && !Overwrites(After(sectors, before).value, a)
  }

  /** Then the free map is exact: it marks those sectors that belong to an inode of the system, of a name, or
      in use by somebody. What was removed is free again as soon as nobody has it open. */
  lemma {:induction false} NothingLost(sectors: nat, run: seq<Action>)
    requires sectors >= 2 && After(sectors, run).Some? && NeverLoses(sectors, run)
    ensures var fs := After(sectors, run).value;
      && (forall x :: x in Used(fs) <==> exists s :: s in Live(fs) && s in fs.inodes && x in Owned(s, fs.inodes[s]))
      && Accounted(fs)
    decreases |run|
  {
    hide Leaks, Overwrites, Do, Inv, Format, Accounted, Used, Live, Owned;
    var fs := After(sectors, run).value;
    if run == [] {
      FormatAccounted(sectors);
    } else {
      var before := run[..|run| - 1];
      NothingLost(sectors, before);
      AccountedKeptIff(After(sectors, before).value, run[|run| - 1]);
    }
    AccountsOf(fs, fs);
    InvParts(fs);
  }

  /** filesys_open gets at the inode of this name. */
  predicate OpenSucceeds(fs: Fs, name: string, m: OpenMemory) {
    var l := Lookup(fs.entries, name);
    m.dir && l.Some? && l.value < m.lookup && (fs.entries[l.value].sector in fs.open || m.inode)
  }

  /** The inode that the step gives to one opener more. */
  function Opens(fs: Fs, a: Action): Option<nat> {
    match a
    case OpenFile(name, m) => if OpenSucceeds(fs, name, m) then NameMap(fs.entries, name) else None
    case ReopenFile(s) => Some(s)
    case CreateFile(_, _, _) => None
    case CloseFile(_) => None
    case RemoveFile(_, _) => None
  }

  /** The inode that the step takes the name from. */
  function Unlinks(fs: Fs, a: Action): Option<nat> {
    if a.RemoveFile? && RemoveSucceeds(fs, a.name, a.remove) then NameMap(fs.entries, a.name) else None
  }

  /** A step changes the number of openers of an inode exactly by opening or closing it, and an open inode is
      marked for removal exactly by removing its name. */
  lemma StepTimes(fs: Fs, a: Action, s: nat)
    requires Inv(fs) && Enabled(fs, a)
    ensures Times(Do(fs, a), s) + (if a == CloseFile(s) then 1 else 0) == Times(fs, s) + (if Opens(fs, a) == Some(s) then 1 else 0)
    ensures s in fs.open && s in Do(fs, a).open ==>
      Do(fs, a).open[s].removed == (fs.open[s].removed || Unlinks(fs, a) == Some(s))
  {
    hide Inv, Create, Open, InodeOpen, InodeClose, Remove, RemoveSucceeds, Used, Live, Named, Owned, Lookup;
    match a
    case CreateFile(name, size, m) => CreateKeeps(fs, name, size, m);
    case OpenFile(name, m) => OpenByNameKeeps(fs, name, m);
    case ReopenFile(t) => OpenKeeps(fs, t);
    case CloseFile(t) =>
      CloseKeeps(fs, t);
      OpenCount(fs, t);
    case RemoveFile(name, m) =>
      RemoveKeeps(fs, name, m);
      if RemoveSucceeds(fs, name, m) {
        RemoveGuard(fs, name, m);
      }
  }

  /** In every reachable state no sector belongs to two live inodes, and every sector that belongs to
      one is marked in the free map. */
  lemma NoSectorOwnedTwice(sectors: nat, run: seq<Action>, s: nat, t: nat, x: nat)
    requires sectors >= 2 && After(sectors, run).Some?
    requires var fs := After(sectors, run).value;
      && s in Live(fs) && t in Live(fs) && s in fs.inodes && t in fs.inodes
      && x in Owned(s, fs.inodes[s]) && x in Owned(t, fs.inodes[t])
    ensures s == t && x in Used(After(sectors, run).value)
  {
    hide After, Owned, Live, UsedIn;
    InvParts(After(sectors, run).value);
  }

  /** The sectors of an open inode stay its own, with the same contents of the inode, through every
      step but the last close of it. */
  lemma OpenInodeKeepsSectors(fs: Fs, a: Action, s: nat)
    requires Inv(fs) && Enabled(fs, a) && s in fs.open
    requires !(a == CloseFile(s) && fs.open[s].openCnt == 1)
    ensures s in Do(fs, a).open && s in fs.inodes && s in Do(fs, a).inodes
    ensures Do(fs, a).open[s].data == fs.open[s].data && (fs.open[s].removed ==> Do(fs, a).open[s].removed)
    ensures Owned(s, fs.open[s].data) <= Used(Do(fs, a))
  {
    var fs' := Do(fs, a);
    StepKeeps(fs, a);
    OpenStaysOpen(fs, a, s);
    OpenCount(fs, s);
    hide Do;
    InvParts(fs);
    InvParts(fs');
    assert OpenOk(fs'.inodes, fs'.entries, s, fs'.open[s]) && OpenOk(fs.inodes, fs.entries, s, fs.open[s]);
    assert s in Live(fs') && s in Live(fs);
    LiveParts(fs', s);
  }

  lemma OpenStaysOpen(fs: Fs, a: Action, s: nat)
    requires Inv(fs) && Enabled(fs, a) && s in fs.open
    requires !(a == CloseFile(s) && fs.open[s].openCnt == 1)
    ensures SameOpen(fs, Do(fs, a), s)
  {
    hide Inv, Create, Open, InodeOpen, InodeClose, Remove, SameOpen;
    SameOpenItself(fs, s);
    match a
    case CreateFile(name, size, m) =>
      CreateKeeps(fs, name, size, m);
      SameOpenMap(fs, Do(fs, a), s);
    case OpenFile(name, m) =>
      OpenByNameKeeps(fs, name, m);
      OpenSame(fs, name, m, s);
    case ReopenFile(t) =>
      OpenKeeps(fs, t);
      InodeOpenSame(fs, t, s);
    case CloseFile(t) =>
      CloseKeeps(fs, t);
      InodeCloseSame(fs, t, s);
    case RemoveFile(name, m) =>
      OpenCount(fs, s);
      RemoveKeepsOpen(fs, name, m, s);
  }

  /** The inode is open before and after, with the same contents, and stays removed if it was. */
  predicate SameOpen(fs: Fs, fs': Fs, s: nat) {
    && s in fs.open && s in fs'.open
    && fs'.open[s].data == fs.open[s].data && (fs.open[s].removed ==> fs'.open[s].removed)
  }

  lemma SameOpenItself(fs: Fs, s: nat)
    requires s in fs.open
    ensures SameOpen(fs, fs, s)
  {
  }

  lemma SameOpenMap(fs: Fs, fs': Fs, s: nat)
    requires s in fs.open && fs'.open == fs.open
    ensures SameOpen(fs, fs', s)
  {
  }

  lemma OpenSame(fs: Fs, name: string, m: OpenMemory, s: nat)
    requires s in fs.open && forall i | 0 <= i < |fs.entries| && fs.entries[i].inUse :: fs.entries[i].sector in fs.inodes
    ensures SameOpen(fs, Open(fs, name, m).0, s)
  {
  }

  lemma InodeOpenSame(fs: Fs, t: nat, s: nat)
    requires s in fs.open && t in fs.inodes
    ensures SameOpen(fs, InodeOpen(fs, t), s)
  {
  }

  lemma InodeCloseSame(fs: Fs, t: nat, s: nat)
    requires s in fs.open && CanClose(fs, t) && !(s == t && fs.open[s].openCnt == 1)
    ensures SameOpen(fs, InodeClose(fs, t), s)
  {
  }

  lemma OpenCount(fs: Fs, s: nat)
    requires Inv(fs) && s in fs.open
    ensures fs.open[s].openCnt > 0
  {
    InvParts(fs);
    assert OpenOk(fs.inodes, fs.entries, s, fs.open[s]);
  }

  lemma RemoveKeepsOpen(fs: Fs, name: string, m: RemoveMemory, s: nat)
    requires Inv(fs) && s in fs.open && fs.open[s].openCnt > 0
    ensures SameOpen(fs, Remove(fs, name, m).0, s)
  {
    hide Inv;
    var l := Lookup(Seen(fs.entries, m.lookup), name);
    if l.Some? {
      NamedIsThere(fs, l.value);
      RemoveKeeps(fs, name, m);
    }
  }
}
