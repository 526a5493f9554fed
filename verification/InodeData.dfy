/** Reading and writing files sector by sector: inode_read_at and inode_write_at of filesys/inode.c,
    and what they mean on the disk seen as one sequence of bytes. */
module InodeData {

  type Byte = bv8

  const BLOCK_SECTOR_SIZE: nat := 512

  type Sector = s: seq<Byte> | |s| == BLOCK_SECTOR_SIZE witness seq(BLOCK_SECTOR_SIZE, i => 0)

  // ----- The disk as a sequence of bytes ----------------------------------------------------------

  function Flat(disk: seq<Sector>): (f: seq<Byte>)
    ensures |f| == |disk| * BLOCK_SECTOR_SIZE
    ensures forall a :: 0 <= a < |f| ==> f[a] == disk[a / BLOCK_SECTOR_SIZE][a % BLOCK_SECTOR_SIZE]
  {
    seq(|disk| * BLOCK_SECTOR_SIZE, a requires 0 <= a < |disk| * BLOCK_SECTOR_SIZE =>
      disk[a / BLOCK_SECTOR_SIZE][a % BLOCK_SECTOR_SIZE])
  }

  /** The bytes f with those from position a replaced by x. */
  function Overwrite(f: seq<Byte>, a: nat, x: seq<Byte>): (r: seq<Byte>)
    requires a + |x| <= |f|
    ensures |r| == |f|
  {
    f[..a] + x + f[a + |x|..]
  }

  lemma OverwriteTwice(f: seq<Byte>, a: nat, x: seq<Byte>, y: seq<Byte>)
    requires a + |x| + |y| <= |f|
    ensures Overwrite(Overwrite(f, a, x), a + |x|, y) == Overwrite(f, a, x + y)
  {
  }

  /** A chunk that lies within one sector: rewriting that sector overwrites just these bytes. */
  lemma ChunkOverwrites(disk: seq<Sector>, s: nat, ofs: nat, x: seq<Byte>)
    requires s < |disk| && ofs + |x| <= BLOCK_SECTOR_SIZE
    ensures s * BLOCK_SECTOR_SIZE + ofs + |x| <= |Flat(disk)|
    ensures Flat(disk[s := Overwrite(disk[s], ofs, x)]) == Overwrite(Flat(disk), s * BLOCK_SECTOR_SIZE + ofs, x)
  {
    var a0 := s * BLOCK_SECTOR_SIZE + ofs;
    var f, g := Flat(disk), Flat(disk[s := Overwrite(disk[s], ofs, x)]);
    forall a | 0 <= a < |f|
      ensures g[a] == Overwrite(f, a0, x)[a]
    {
      if a / BLOCK_SECTOR_SIZE == s {
        assert a % BLOCK_SECTOR_SIZE == a - s * BLOCK_SECTOR_SIZE;
      }
    }
  }

  lemma ChunkOf(disk: seq<Sector>, s: nat, ofs: nat, n: nat)
    requires s < |disk| && ofs + n <= BLOCK_SECTOR_SIZE
    ensures s * BLOCK_SECTOR_SIZE + ofs + n <= |Flat(disk)|
    ensures disk[s][ofs..ofs + n] == Flat(disk)[s * BLOCK_SECTOR_SIZE + ofs..s * BLOCK_SECTOR_SIZE + ofs + n]
  {
    var a0, x := s * BLOCK_SECTOR_SIZE + ofs, disk[s][ofs..ofs + n];
    forall i | 0 <= i < n
      ensures x[i] == Flat(disk)[a0 + i]
    {
      assert (a0 + i) / BLOCK_SECTOR_SIZE == s && (a0 + i) % BLOCK_SECTOR_SIZE == ofs + i;
    }
  }

  // ----- Files ------------------------------------------------------------------------------------

  function BytesToSectors(size: nat): nat {
    (size + BLOCK_SECTOR_SIZE - 1) / BLOCK_SECTOR_SIZE
  }

  /** How much of a request of size bytes at offset lies before the end of the file. */
  function Clipped(length: nat, size: int, offset: nat): nat {
    if size <= 0 || offset >= length then 0 else if size < length - offset then size else length - offset
  }

  /** How much of it is done without a bounce buffer: whole sectors, up to the first that is not. */
  function Whole(length: nat, size: int, offset: nat): nat {
    if offset % BLOCK_SECTOR_SIZE == 0 then Clipped(length, size, offset) / BLOCK_SECTOR_SIZE * BLOCK_SECTOR_SIZE else 0
  }

  /** A file gets just enough sectors. */
  lemma SectorsAreLeast(size: nat, k: nat)
    ensures k * BLOCK_SECTOR_SIZE >= size <==> k >= BytesToSectors(size)
  {
  }

  /** A request is cut off at the end of the file and nowhere else. */
  lemma ClippedIsMost(length: nat, size: int, offset: nat, n: nat)
    ensures n <= Clipped(length, size, offset) <==> n == 0 || (n <= size && offset + n <= length)
  {
  }

  /** Without memory the request ends at the first chunk that is no whole sector. */
  lemma WholeIsMost(length: nat, size: int, offset: nat, n: nat)
    requires n % BLOCK_SECTOR_SIZE == 0
    ensures Whole(length, size, offset) % BLOCK_SECTOR_SIZE == 0
    ensures n <= Whole(length, size, offset) <==> n == 0 || (offset % BLOCK_SECTOR_SIZE == 0 && n <= size && offset + n <= length)
  {
    ClippedIsMost(length, size, offset, n);
    hide Clipped;
  }

  /** The contents of a file that starts at a sector. */
  function FileBytes(disk: seq<Sector>, start: nat, length: nat): seq<Byte>
    requires start + BytesToSectors(length) <= |disk|
  {
    FileFits(|disk|, start, length);
    Flat(disk)[start * BLOCK_SECTOR_SIZE..start * BLOCK_SECTOR_SIZE + length]
  }

  lemma FileFits(sectors: nat, start: nat, length: nat)
    requires start + BytesToSectors(length) <= sectors
    ensures start * BLOCK_SECTOR_SIZE + length <= sectors * BLOCK_SECTOR_SIZE
  {
  }

  /** The block device. */
  class Device {
    var sectors: seq<Sector>

    constructor (s: seq<Sector>)
      ensures sectors == s
    {
      sectors := s;
    }
  }

  /** What the loops of inode_read_at and inode_write_at compute for one round: the sector, the offset
      in it, and how many bytes to copy. */
  method NextChunk(start: nat, length: nat, size: int, offset: nat) returns (sector: nat, ofs: nat, chunk: int)
    requires size > 0
    ensures ofs == offset % BLOCK_SECTOR_SIZE
    ensures chunk <= 0 <==> Clipped(length, size, offset) == 0
    ensures chunk > 0 ==> sector == start + offset / BLOCK_SECTOR_SIZE && sector < start + BytesToSectors(length)
    ensures chunk > 0 ==> ofs + chunk <= BLOCK_SECTOR_SIZE && chunk <= Clipped(length, size, offset)
    ensures chunk > 0 ==> chunk == Clipped(length, size, offset) || ofs + chunk == BLOCK_SECTOR_SIZE
  {
    sector := if offset < length then start + offset / BLOCK_SECTOR_SIZE else 0;
    ofs := offset % BLOCK_SECTOR_SIZE;
    var inodeLeft := length - offset;
    var sectorLeft := BLOCK_SECTOR_SIZE - ofs;
    var minLeft := if inodeLeft < sectorLeft then inodeLeft else sectorLeft;
    chunk := if size < minLeft then size else minLeft;
  }

  /** The k bytes of f from position a, or nothing if they are not there. */
  function Piece(f: seq<Byte>, a: nat, k: nat): (p: seq<Byte>)
    ensures |p| == k || p == []
  {
    if a + k <= |f| then f[a..a + k] else []
  }

  lemma PieceGrows(first: seq<Byte>, now: seq<Byte>, f: seq<Byte>, a: nat, k: nat, n: nat)
    requires k + n <= |first| && a + k + n <= |f|
    requires now == Overwrite(first, 0, Piece(f, a, k))
    ensures |now| == |first| && |Piece(f, a, k + n)| == k + n
    ensures Overwrite(now, k, f[a + k..a + k + n]) == Overwrite(first, 0, Piece(f, a, k + n))
  {
    OverwriteTwice(first, 0, f[a..a + k], f[a + k..a + k + n]);
    assert f[a..a + k] + f[a + k..a + k + n] == f[a..a + k + n];
  }

  /** inode_read_at; memory says whether malloc finds room for the bounce buffer, without which only
      whole sectors can be read. */
  method ReadAt(dev: Device, start: nat, length: nat, buffer: array<Byte>, size: int, offset: nat, memory: bool)
    returns (bytesRead: nat)
    requires start + BytesToSectors(length) <= |dev.sectors| && size <= buffer.Length
    modifies buffer
    ensures bytesRead <= Clipped(length, size, offset)
    ensures bytesRead == if memory then Clipped(length, size, offset) else Whole(length, size, offset)
    ensures bytesRead <= buffer.Length && (bytesRead > 0 ==> offset + bytesRead <= length)
    ensures bytesRead > 0 ==> buffer[..bytesRead] == FileBytes(dev.sectors, start, length)[offset..offset + bytesRead]
    ensures buffer[bytesRead..] == old(buffer[..])[bytesRead..]
  {
    hide *;
    bytesRead := 0;
    var size', offset' := size, offset;
    ghost var f, a, first := Flat(dev.sectors), start * BLOCK_SECTOR_SIZE + offset, buffer[..];
    NothingRead(first, f, a);
    while size' > 0
      invariant offset' == offset + bytesRead && size' == size - bytesRead
      invariant bytesRead + Clipped(length, size', offset') == Clipped(length, size, offset)
      invariant !memory ==> bytesRead + Whole(length, size', offset') == Whole(length, size, offset)
      invariant bytesRead <= buffer.Length && |Piece(f, a, bytesRead)| == bytesRead
      invariant buffer[..] == Overwrite(first, 0, Piece(f, a, bytesRead))
      decreases size'
    {
      var sector, ofs, chunk := NextChunk(start, length, size', offset');
      NextWhole(length, size', offset', ofs, chunk);
      if chunk <= 0 {
        break;
      }
      if !(ofs == 0 && chunk == BLOCK_SECTOR_SIZE) && !memory {
        break;
      }
      ClippedShrinks(length, size', offset', chunk);
      ChunkOf(dev.sectors, sector, ofs, chunk);
      ChunkAddress(start, sector, ofs, offset');
      PieceGrows(first, buffer[..], f, a, bytesRead, chunk);
      CopyChunk(buffer, bytesRead, dev.sectors[sector], ofs, chunk);
      size', offset', bytesRead := size' - chunk, offset' + chunk, bytesRead + chunk;
    }
    Unclipped(length, size', offset');
    HasRead(dev.sectors, start, length, offset, size, bytesRead, first, buffer[..]);
  }

  /** block_read or memcpy into the caller's buffer. */
  method CopyChunk(buffer: array<Byte>, at: nat, sector: Sector, ofs: nat, n: nat)
    requires at + n <= buffer.Length && ofs + n <= BLOCK_SECTOR_SIZE
    modifies buffer
    ensures buffer[..] == Overwrite(old(buffer[..]), at, sector[ofs..ofs + n])
  {
    forall i | 0 <= i < n {
      buffer[at + i] := sector[ofs + i];
    }
  }

  lemma NothingRead(first: seq<Byte>, f: seq<Byte>, a: nat)
    ensures first == Overwrite(first, 0, Piece(f, a, 0)) && |Piece(f, a, 0)| == 0
  {
  }

  lemma ChunkAddress(start: nat, sector: nat, ofs: nat, offset: nat)
    requires sector == start + offset / BLOCK_SECTOR_SIZE && ofs == offset % BLOCK_SECTOR_SIZE
    ensures sector * BLOCK_SECTOR_SIZE + ofs == start * BLOCK_SECTOR_SIZE + offset
  {
  }

  lemma ClippedShrinks(length: nat, size: int, offset: nat, n: nat)
    requires 0 < n <= Clipped(length, size, offset)
    ensures Clipped(length, size - n, offset + n) == Clipped(length, size, offset) - n && n <= size
  {
  }

  lemma Unclipped(length: nat, size: int, offset: nat)
    ensures size <= 0 ==> Clipped(length, size, offset) == 0 && Whole(length, size, offset) == 0
  {
  }

  /** A chunk that is no whole sector is the last that is done without memory. */
  lemma NextWhole(length: nat, size: int, offset: nat, ofs: nat, chunk: int)
    requires ofs == offset % BLOCK_SECTOR_SIZE
    requires chunk <= 0 <==> Clipped(length, size, offset) == 0
    requires chunk > 0 ==> ofs + chunk <= BLOCK_SECTOR_SIZE && chunk <= Clipped(length, size, offset)
    requires chunk > 0 ==> chunk == Clipped(length, size, offset) || ofs + chunk == BLOCK_SECTOR_SIZE
    ensures chunk <= 0 || !(ofs == 0 && chunk == BLOCK_SECTOR_SIZE) ==> Whole(length, size, offset) == 0
    ensures ofs == 0 && chunk == BLOCK_SECTOR_SIZE ==>
      Whole(length, size - chunk, offset + chunk) + chunk == Whole(length, size, offset)
  {
    if ofs == 0 && chunk == BLOCK_SECTOR_SIZE {
      ClippedShrinks(length, size, offset, chunk);
    }
  }

  lemma HasRead(disk: seq<Sector>, start: nat, length: nat, offset: nat, size: int, n: nat, first: seq<Byte>, now: seq<Byte>)
    requires start + BytesToSectors(length) <= |disk| && n <= Clipped(length, size, offset) && n <= |first|
    requires now == Overwrite(first, 0, Piece(Flat(disk), start * BLOCK_SECTOR_SIZE + offset, n))
    ensures n > 0 ==> offset + n <= length && now[..n] == FileBytes(disk, start, length)[offset..offset + n]
    ensures |now| == |first| && now[n..] == first[n..]
  {
    var f, b := Flat(disk), start * BLOCK_SECTOR_SIZE;
    FileFits(|disk|, start, length);
    if n > 0 {
      assert f[b..b + length][offset..offset + n] == f[b + offset..b + offset + n];
    }
  }

  // ----- Writing ----------------------------------------------------------------------------------

  /** inode_write_at. The bytes that it writes come out on the disk at the file's place, and no other
      byte of the disk changes, in the file's sectors or elsewhere. */
  method WriteAt(dev: Device, start: nat, length: nat, denyWriteCnt: nat, buffer: array<Byte>, size: int, offset: nat, memory: bool)
    returns (bytesWritten: nat)
    requires start + BytesToSectors(length) <= |dev.sectors| && size <= buffer.Length
    modifies dev
    ensures denyWriteCnt > 0 ==> bytesWritten == 0
    ensures bytesWritten <= Clipped(length, size, offset)
    ensures denyWriteCnt == 0 ==>
      bytesWritten == if memory then Clipped(length, size, offset) else Whole(length, size, offset)
    ensures |dev.sectors| == |old(dev.sectors)| && bytesWritten <= buffer.Length
    ensures start * BLOCK_SECTOR_SIZE + offset + bytesWritten <= |Flat(old(dev.sectors))| || bytesWritten == 0
    ensures Flat(dev.sectors)
         == if bytesWritten == 0 then Flat(old(dev.sectors))
            else Overwrite(Flat(old(dev.sectors)), start * BLOCK_SECTOR_SIZE + offset, buffer[..bytesWritten])
  {
    hide *;
    bytesWritten := 0;
    if denyWriteCnt > 0 {
      return;
    }
    var size', offset' := size, offset;
    ghost var first, a := Flat(dev.sectors), start * BLOCK_SECTOR_SIZE + offset;
    NothingWritten(first, a, buffer[..]);
    while size' > 0
      invariant offset' == offset + bytesWritten && size' == size - bytesWritten
      invariant bytesWritten + Clipped(length, size', offset') == Clipped(length, size, offset)
      invariant !memory ==> bytesWritten + Whole(length, size', offset') == Whole(length, size, offset)
      invariant bytesWritten <= buffer.Length && |dev.sectors| == |old(dev.sectors)|
      invariant Written(first, Flat(dev.sectors), a, buffer[..], bytesWritten)
      decreases size'
    {
      var sector, ofs, chunk := NextChunk(start, length, size', offset');
      NextWhole(length, size', offset', ofs, chunk);
      if chunk <= 0 {
        break;
      }
      if !(ofs == 0 && chunk == BLOCK_SECTOR_SIZE) && !memory {
        break;
      }
      ClippedShrinks(length, size', offset', chunk);
      ChunkAddress(start, sector, ofs, offset');
      ghost var disk := dev.sectors;
      WriteChunk(dev, sector, ofs, buffer, bytesWritten, chunk);
      WrittenGrows(first, Flat(disk), Flat(dev.sectors), a, buffer[..], bytesWritten, chunk);
      size', offset', bytesWritten := size' - chunk, offset' + chunk, bytesWritten + chunk;
    }
    Unclipped(length, size', offset');
    HasWritten(first, Flat(dev.sectors), a, buffer, bytesWritten);
  }

  /** The disk after k bytes have been written. */
  predicate Written(first: seq<Byte>, now: seq<Byte>, a: nat, buffer: seq<Byte>, k: nat) {
    && k <= |buffer|
    && (if k == 0 then now == first else a + k <= |first| && now == Overwrite(first, a, buffer[..k]))
  }

  lemma NothingWritten(first: seq<Byte>, a: nat, buffer: seq<Byte>)
    ensures Written(first, first, a, buffer, 0)
  {
  }

  lemma WrittenGrows(first: seq<Byte>, now: seq<Byte>, now': seq<Byte>, a: nat, buffer: seq<Byte>, k: nat, n: nat)
    requires Written(first, now, a, buffer, k) && k + n <= |buffer| && n > 0 && a + k + n <= |now|
    requires now' == Overwrite(now, a + k, buffer[k..k + n])
    ensures Written(first, now', a, buffer, k + n)
  {
    assert buffer[..k + n] == buffer[..k] + buffer[k..k + n];
    if k > 0 {
      OverwriteTwice(first, a, buffer[..k], buffer[k..k + n]);
    } else {
      assert buffer[..n] == buffer[0..n];
    }
  }

  lemma HasWritten(first: seq<Byte>, now: seq<Byte>, a: nat, buffer: array<Byte>, k: nat)
    requires Written(first, now, a, buffer[..], k)
    ensures k <= buffer.Length && (a + k <= |first| || k == 0)
    ensures now == if k == 0 then first else Overwrite(first, a, buffer[..k])
  {
    assert buffer[..][..k] == buffer[..k];
  }

  /** One sector: written as a whole, or read into the bounce buffer, changed there and written back.
      The bounce buffer would start with zeros only if the chunk were the whole sector. */
  method WriteChunk(dev: Device, sector: nat, ofs: nat, buffer: array<Byte>, from: nat, n: nat)
    requires sector < |dev.sectors| && ofs + n <= BLOCK_SECTOR_SIZE && from + n <= buffer.Length && n > 0
    modifies dev
    ensures |dev.sectors| == |old(dev.sectors)| && sector * BLOCK_SECTOR_SIZE + ofs + n <= |Flat(old(dev.sectors))|
    ensures Flat(dev.sectors)
         == Overwrite(Flat(old(dev.sectors)), sector * BLOCK_SECTOR_SIZE + ofs, buffer[..][from..from + n])
  {
    hide Flat;
    ghost var disk := dev.sectors;
    ChunkOverwrites(disk, sector, ofs, buffer[..][from..from + n]);
    if ofs == 0 && n == BLOCK_SECTOR_SIZE {
      WholeSector(disk[sector], buffer[..][from..from + n]);
      assert buffer[from..from + n] == buffer[..][from..from + n];
      dev.sectors := dev.sectors[sector := buffer[from..from + n]];
    } else {
      var changed := Bounce(dev.sectors[sector], ofs, buffer, from, n);
      dev.sectors := dev.sectors[sector := changed];
    }
  }

  lemma WholeSector(s: Sector, x: seq<Byte>)
    requires |x| == BLOCK_SECTOR_SIZE
    ensures Overwrite(s, 0, x) == x
  {
  }

  /** The way through the bounce buffer. */
  method Bounce(s: Sector, ofs: nat, buffer: array<Byte>, from: nat, n: nat) returns (changed: Sector)
    requires ofs + n <= BLOCK_SECTOR_SIZE && from + n <= buffer.Length && (ofs > 0 || n < BLOCK_SECTOR_SIZE)
    ensures changed == Overwrite(s, ofs, buffer[..][from..from + n])
  {
    var bounce := new Byte[BLOCK_SECTOR_SIZE](i => 0);
    if ofs > 0 || n < BLOCK_SECTOR_SIZE - ofs {
      forall i | 0 <= i < BLOCK_SECTOR_SIZE {
        bounce[i] := s[i];
      }
    }
    assert bounce[..] == s;
    forall i | 0 <= i < n {
      bounce[ofs + i] := buffer[from + i];
    }
    changed := bounce[..];
    assert changed == Overwrite(s, ofs, buffer[..][from..from + n]);
  }

  // ----- Reading back -----------------------------------------------------------------------------

  /** What a write that was not cut short means for the file: a slice update of its bytes. */
  lemma WriteUpdatesFile(disk: seq<Sector>, disk': seq<Sector>, start: nat, length: nat, offset: nat, x: seq<Byte>)
    requires start + BytesToSectors(length) <= |disk| == |disk'| && offset + |x| <= length
    requires start * BLOCK_SECTOR_SIZE + offset + |x| <= |Flat(disk)|
    requires Flat(disk') == Overwrite(Flat(disk), start * BLOCK_SECTOR_SIZE + offset, x)
    ensures FileBytes(disk', start, length) == Overwrite(FileBytes(disk, start, length), offset, x)
    ensures FileBytes(disk', start, length)[offset..offset + |x|] == x
  {
    FileFits(|disk|, start, length);
    OverwriteWithin(Flat(disk), start * BLOCK_SECTOR_SIZE, length, offset, x);
  }

  lemma OverwriteWithin(f: seq<Byte>, b: nat, n: nat, o: nat, x: seq<Byte>)
    requires b + n <= |f| && o + |x| <= n
    ensures Overwrite(f, b + o, x)[b..b + n] == Overwrite(f[b..b + n], o, x)
    ensures Overwrite(f[b..b + n], o, x)[o..o + |x|] == x
  {
    var w := f[b..b + n];
    assert f[..b + o] == f[..b] + w[..o];
    assert f[b + o + |x|..] == w[o + |x|..] + f[b + n..];
    Regroup(f[..b], w[..o], x, w[o + |x|..], f[b + n..]);
    MiddlePart(f[..b], Overwrite(w, o, x), f[b + n..]);
    MiddlePart(w[..o], x, w[o + |x|..]);
  }

  lemma Regroup(p: seq<Byte>, a: seq<Byte>, x: seq<Byte>, c: seq<Byte>, q: seq<Byte>)
    ensures (p + a) + x + (c + q) == p + (a + x + c) + q
  {
  }

  lemma MiddlePart(p: seq<Byte>, m: seq<Byte>, q: seq<Byte>)
    ensures (p + m + q)[|p|..|p| + |m|] == m
  {
  }

  /** Files whose sectors are apart do not see each other's writes. */
  lemma WriteKeepsOtherFiles(disk: seq<Sector>, disk': seq<Sector>, start: nat, length: nat, offset: nat, x: seq<Byte>,
                             other: nat, otherLength: nat)
    requires start + BytesToSectors(length) <= |disk| == |disk'| && offset + |x| <= length
    requires other + BytesToSectors(otherLength) <= |disk|
    requires other + BytesToSectors(otherLength) <= start || start + BytesToSectors(length) <= other
    requires start * BLOCK_SECTOR_SIZE + offset + |x| <= |Flat(disk)|
    requires Flat(disk') == Overwrite(Flat(disk), start * BLOCK_SECTOR_SIZE + offset, x)
    ensures FileBytes(disk', other, otherLength) == FileBytes(disk, other, otherLength)
  {
    FileFits(|disk|, other, otherLength);
    SectorsApart(start, length, other, otherLength);
  }

  lemma SectorsApart(start: nat, length: nat, other: nat, otherLength: nat)
    requires other + BytesToSectors(otherLength) <= start || start + BytesToSectors(length) <= other
    ensures other * BLOCK_SECTOR_SIZE + otherLength <= start * BLOCK_SECTOR_SIZE
         || start * BLOCK_SECTOR_SIZE + length <= other * BLOCK_SECTOR_SIZE
  {
  }

  // ----- New files --------------------------------------------------------------------------------

  function Zeros(n: nat): seq<Byte> {
    seq(n, i => 0)
  }

  /** The loop of inode_create that clears the sectors of a new file: the file consists of zeros, and the
      other sectors of the disk do not change. */
  method ClearFile(dev: Device, start: nat, length: nat)
    requires start + BytesToSectors(length) <= |dev.sectors|
    modifies dev
    ensures |dev.sectors| == |old(dev.sectors)| && FileBytes(dev.sectors, start, length) == Zeros(length)
    ensures dev.sectors[..start] == old(dev.sectors)[..start]
    ensures dev.sectors[start + BytesToSectors(length)..] == old(dev.sectors)[start + BytesToSectors(length)..]
  {
    var sectors := BytesToSectors(length);
    var zeros: Sector := Zeros(BLOCK_SECTOR_SIZE);
    ghost var first := dev.sectors;
    var i := 0;
    assert Cleared(first, dev.sectors, start, 0, zeros);
    hide *;
    while i < sectors
      invariant i <= sectors && Cleared(first, dev.sectors, start, i, zeros)
    {
      ClearOne(first, dev.sectors, start, i, zeros);
      dev.sectors := dev.sectors[start + i := zeros];
      i := i + 1;
    }
    ClearedFile(first, dev.sectors, start, length, zeros);
  }

  /** The disk after n sectors have been cleared. */
  predicate Cleared(first: seq<Sector>, now: seq<Sector>, start: nat, n: nat, zeros: Sector) {
    && |now| == |first|
    && forall s | 0 <= s < |now| :: now[s] == if start <= s < start + n then zeros else first[s]
  }

  lemma ClearOne(first: seq<Sector>, now: seq<Sector>, start: nat, n: nat, zeros: Sector)
    requires Cleared(first, now, start, n, zeros)
    ensures start + n < |now| ==> Cleared(first, now[start + n := zeros], start, n + 1, zeros)
    ensures |now| == |first|
  {
  }

  lemma ClearedFile(first: seq<Sector>, now: seq<Sector>, start: nat, length: nat, zeros: Sector)
    requires Cleared(first, now, start, BytesToSectors(length), zeros)
    requires zeros == Zeros(BLOCK_SECTOR_SIZE) && start + BytesToSectors(length) <= |now|
    ensures |now| == |first| && FileBytes(now, start, length) == Zeros(length)
    ensures now[..start] == first[..start]
    ensures now[start + BytesToSectors(length)..] == first[start + BytesToSectors(length)..]
  {
    FileFits(|now|, start, length);
    var f, b := FileBytes(now, start, length), start * BLOCK_SECTOR_SIZE;
    forall k | 0 <= k < length
      ensures f[k] == 0
    {
      assert f[k] == Flat(now)[b + k];
      assert start <= (b + k) / BLOCK_SECTOR_SIZE < start + BytesToSectors(length);
    }
  }
}
