/** drivers/ata.c: byte transfers at any position over a drive that moves whole 512-byte sectors. */
module Ata {
  import opened Base

  // A drive address has 28 bits.
  const SECTORS: nat := 0x1000_0000
  const CAPACITY: nat := 0x20_0000_0000

  type Disk = map<nat, seq<u8>>

  predicate DiskOk(d: Disk) {
    forall s | 0 <= s < SECTORS :: s in d && |d[s]| == 512
  }

  /** The sector the drive is asked for: the upper bits of the block number are lost. */
  function SectorOf(pos: nat): nat {
    pos / 512 % SECTORS
  }

  /** The drive as a flat array of bytes. */
  function Byte(d: Disk, q: nat): u8
    requires DiskOk(d) && q < CAPACITY
  {
    d[q / 512][q % 512]
  }

  /** Where a file position lies in the flat array. */
  function Flat(pos: nat): (q: nat)
    ensures q < CAPACITY && SectorOf(pos) == q / 512 && pos % 512 == q % 512
  {
    pos % CAPACITY
  }

  /** The sector and the byte under the k-th position of a run. */
  function SectorAt(pos: nat, k: nat): nat {
    SectorOf(pos + k)
  }

  function ByteAt(d: Disk, pos: nat, k: nat): u8
    requires DiskOk(d)
  {
    Byte(d, Flat(pos + k))
  }

  /** The flat array with a run of bytes stored from a position on, round the end of the address range. */
  function Over(d: Disk, pos: nat, bytes: seq<u8>, q: nat): u8
    requires DiskOk(d) && q < CAPACITY
  {
    var k := (q - pos) % CAPACITY;
    if k < |bytes| then bytes[k] else Byte(d, q)
  }

  /** A sector with a chunk of it replaced. */
  function Patched(sector: seq<u8>, off: nat, bytes: seq<u8>): (r: seq<u8>)
    requires |sector| == 512 && off + |bytes| <= 512
    ensures |r| == 512
  {
    sector[..off] + bytes + sector[off + |bytes|..]
  }

  lemma FlatNear(pos: nat, k: nat)
    requires pos % 512 + k < 512
    ensures Flat(pos + k) == Flat(pos) + k
  {
  }

  /** Which addresses a chunk inside one sector covers. */
  lemma ChunkAddresses(pos: nat, m: nat, q: nat)
    requires pos % 512 + m <= 512 && q < CAPACITY
    ensures (q - pos) % CAPACITY < m <==> q / 512 == SectorOf(pos) && pos % 512 <= q % 512 < pos % 512 + m
    ensures (q - pos) % CAPACITY < m ==> (q - pos) % CAPACITY == q % 512 - pos % 512
  {
    var u := Flat(pos);
    assert (q - pos) % CAPACITY == if q >= u then q - u else q - u + CAPACITY;
  }

  /** One chunk stored through a sector that was read correctly changes the flat array in its own bytes only. */
  lemma ChunkStored(d: Disk, pos: nat, bytes: seq<u8>, q: nat)
    requires DiskOk(d) && pos % 512 + |bytes| <= 512 && q < CAPACITY
    ensures var n := d[SectorOf(pos) := Patched(d[SectorOf(pos)], pos % 512, bytes)];
      DiskOk(n) && Byte(n, q) == Over(d, pos, bytes, q)
  {
    ChunkAddresses(pos, |bytes|, q);
    hide Flat;
  }

  /** Storing a run and then the bytes after it stores the longer run. */
  lemma OverExtends(d: Disk, e: Disk, pos: nat, bytes: seq<u8>, more: seq<u8>, q: nat)
    requires DiskOk(d) && DiskOk(e) && q < CAPACITY && |bytes| + |more| <= CAPACITY
    requires Byte(e, q) == Over(d, pos, bytes, q)
    ensures Over(e, pos + |bytes|, more, q) == Over(d, pos, bytes + more, q)
  {
    var k, j := (q - pos) % CAPACITY, (q - (pos + |bytes|)) % CAPACITY;
    assert j == if k >= |bytes| then k - |bytes| else k - |bytes| + CAPACITY;
  }

  /** The sector that the drive takes from its four address registers: 24 bits of the number, and four more beside the
      drive select bits. */
  function Addressed(lba: nat): (s: nat)
    ensures s == lba % SECTORS
  {
    Registers(lba);
    lba % 256 + 256 * (lba / 256 % 256) + 65536 * (lba / 65536 % 256) + 16777216 * (lba / 16777216 % 16)
  }

  /** Splitting off the low byte. */
  lemma LowByte(x: nat, m: nat)
    requires m > 0
    ensures x % (256 * m) == x % 256 + 256 * (x / 256 % m)
  {
    var h, l := x / 256, x % 256;
    var q, r := h / m, h % m;
    assert h == q * m + r;
    assert x == 256 * m * q + (256 * r + l);
    assert 256 * r + l < 256 * m;
    Remainder(x, 256 * m, q, 256 * r + l);
  }

  lemma Remainder(x: nat, m: nat, q: nat, r: nat)
    requires x == m * q + r && r < m
    ensures x % m == r
  {
    var p := x / m;
    assert x == m * p + x % m;
    assert p < q ==> m * (p + 1) <= m * q;
    assert q < p ==> m * (q + 1) <= m * p;
  }

  lemma Registers(lba: nat)
    ensures lba % 0x1000_0000 == lba % 256 + 256 * (lba / 256 % 256) + 65536 * (lba / 65536 % 256) + 16777216 * (lba / 16777216 % 16)
  {
    var b, c, d := lba / 256, lba / 256 / 256, lba / 256 / 256 / 256;
    LowByte(c, 16);
    LowByte(b, 4096);
    LowByte(lba, 0x10_0000);
    assert c == lba / 65536 && d == lba / 16777216;
  }

  /** Below 128 GiB nothing wraps: positions are addresses. */
  lemma OverBelow(d: Disk, pos: nat, bytes: seq<u8>, q: nat)
    requires DiskOk(d) && pos + |bytes| <= 0x20_0000_0000 && q < 0x20_0000_0000
    ensures Over(d, pos, bytes, q) == if pos <= q < pos + |bytes| then bytes[q - pos] else Byte(d, q)
  {
  }

  /**
   * A write goes on when the read before it failed, with whatever the stack held in place of the sector. The bytes
   * around the chunk survive that, whatever was on the stack, exactly when the chunk is the whole sector.
   */
  lemma NeighboursKeptIff(sector: seq<u8>, off: nat, bytes: seq<u8>)
    requires |sector| == 512 && off + |bytes| <= 512
    ensures (forall junk: seq<u8>, i: nat | |junk| == 512 && i < 512 && !(off <= i < off + |bytes|) ::
               Patched(junk, off, bytes)[i] == sector[i]) <==> |bytes| == 512
  {
    if |bytes| < 512 {
      var i := if off > 0 then 0 else |bytes|;
      var junk := sector[i := if sector[i] == 0 then 1 else 0];
      assert Patched(junk, off, bytes)[i] == junk[i];
    }
  }

  /** The positions of a chunk lie side by side in one sector. */
  lemma SameSector(d: Disk, pos: nat, n: nat, chunk: nat, k: nat)
    requires DiskOk(d) && (pos + n) % 512 + chunk <= 512 && n <= k < n + chunk
    ensures SectorAt(pos, k) == SectorAt(pos, n)
    ensures ByteAt(d, pos, k) == d[SectorAt(pos, n)][(pos + n) % 512 + (k - n)]
  {
    FlatNear(pos + n, k - n);
    assert pos + k == pos + n + (k - n);
  }

  /** The whole of the sector under the k-th position lies inside the run. */
  predicate Covered(pos: nat, count: nat, k: nat) {
    var start := (pos + k) - (pos + k) % 512;
    pos <= start && start + 512 <= pos + count
  }

  /** The first n bytes are under their positions, and sectors without any of these positions are as they were. */
  ghost predicate Landed(d: Disk, e: Disk, pos: nat, src: seq<u8>, n: nat)
    requires DiskOk(d) && DiskOk(e) && n <= |src|
  {
    && (forall k | 0 <= k < n :: ByteAt(e, pos, k) == src[k])
    && (forall s | 0 <= s < SECTORS && e[s] != d[s] :: exists k | 0 <= k < n :: SectorAt(pos, k) == s)
  }

  /** Positions in different blocks of a run shorter than the address range are in different sectors. */
  lemma SectorsApart(pos: nat, k: nat, n: nat)
    requires k < n < WORD_LIMIT && (pos + n) % 512 == 0
    ensures SectorAt(pos, k) != SectorAt(pos, n)
  {
    var a, b := (pos + k) / 512, (pos + n) / 512;
    assert a < b < a + SECTORS;
  }

  lemma LandedStep(d: Disk, e: Disk, pos: nat, src: seq<u8>, n: nat, chunk: nat, before: seq<u8>)
    requires DiskOk(d) && DiskOk(e) && n + chunk <= |src| < WORD_LIMIT && |before| == 512 && 0 < chunk
    requires (pos + n) % 512 + chunk <= 512 && (n > 0 ==> (pos + n) % 512 == 0) && Landed(d, e, pos, src, n)
    ensures var f := e[SectorOf(pos + n) := Patched(before, (pos + n) % 512, src[n..n + chunk])];
      DiskOk(f) && Landed(d, f, pos, src, n + chunk)
  {
    var f := e[SectorOf(pos + n) := Patched(before, (pos + n) % 512, src[n..n + chunk])];
    assert SectorOf(pos + n) == SectorAt(pos, n);
    forall k | 0 <= k < n + chunk ensures ByteAt(f, pos, k) == src[k] {
      if k < n {
        SectorsApart(pos, k, n);
        assert ByteAt(e, pos, k) == src[k];
      } else {
        SameSector(f, pos, n, chunk, k);
      }
    }
    forall s | 0 <= s < SECTORS && f[s] != d[s] ensures exists k | 0 <= k < n + chunk :: SectorAt(pos, k) == s {
      if s != SectorAt(pos, n) { var k :| 0 <= k < n && SectorAt(pos, k) == s; }
    }
  }

  /** The flat array after a run of chunks. */
  ghost predicate Exact(d: Disk, e: Disk, pos: nat, bytes: seq<u8>)
    requires DiskOk(d) && DiskOk(e)
  {
    forall q | 0 <= q < CAPACITY :: Byte(e, q) == Over(d, pos, bytes, q)
  }

  /** A write and then a read of the same run returns what was written. */
  lemma WriteThenRead(d: Disk, e: Disk, pos: nat, bytes: seq<u8>, k: nat)
    requires DiskOk(d) && DiskOk(e) && Exact(d, e, pos, bytes) && k < |bytes| <= CAPACITY
    ensures ByteAt(e, pos, k) == bytes[k]
  {
    assert (Flat(pos + k) - pos) % CAPACITY == k;
  }

  lemma ExactStep(d: Disk, e: Disk, pos: nat, src: seq<u8>, n: nat, chunk: nat)
    requires DiskOk(d) && DiskOk(e) && n + chunk <= |src| < WORD_LIMIT
    requires (pos + n) % 512 + chunk <= 512 && Exact(d, e, pos, src[..n])
    ensures var f := e[SectorOf(pos + n) := Patched(e[SectorOf(pos + n)], (pos + n) % 512, src[n..n + chunk])];
      DiskOk(f) && Exact(d, f, pos, src[..n + chunk])
  {
    var bytes := src[n..n + chunk];
    var f := e[SectorOf(pos + n) := Patched(e[SectorOf(pos + n)], (pos + n) % 512, bytes)];
    assert src[..n] + bytes == src[..n + chunk];
    forall q | 0 <= q < CAPACITY ensures Byte(f, q) == Over(d, pos, src[..n + chunk], q) {
      ChunkStored(e, pos + n, bytes, q);
      OverExtends(d, e, pos, src[..n], bytes, q);
    }
  }

  lemma OverNothing(d: Disk, pos: nat)
    requires DiskOk(d)
    ensures Exact(d, d, pos, []) && forall src :: Landed(d, d, pos, src, 0)
  {
  }

  /** The chunk at n is only part of its sector, so the run does not cover that sector. */
  lemma PartUncovered(pos: nat, count: nat, n: nat)
    requires n < count && (n > 0 ==> (pos + n) % 512 == 0)
    requires var off := (pos + n) % 512; Min(512 - off, count - n) < 512
    ensures !Covered(pos, count, n)
  {
  }

  class Drive {
    var disk: Disk
    const badRead: set<nat>
    const badWrite: set<nat>

    /** A drive some of whose sectors may fail to be read or written. */
    constructor (disk: Disk, badRead: set<nat>, badWrite: set<nat>)
      requires DiskOk(disk)
      ensures this.disk == disk && this.badRead == badRead && this.badWrite == badWrite
    {
      this.disk, this.badRead, this.badWrite := disk, badRead, badWrite;
    }

    /** Every sector under a run of positions. */
    ghost predicate Readable(pos: nat, count: nat) {
      forall k | 0 <= k < count :: SectorAt(pos, k) !in badRead
    }

    /** ata_read_sector; on an error the buffer stays as it was. */
    method ReadSector(lba: nat, buf: seq<u8>) returns (r: int, sector: seq<u8>)
      requires DiskOk(disk) && |buf| == 512
      ensures var s := lba % SECTORS;
        if s in badRead then r == -EIO && sector == buf else r == 0 && sector == disk[s]
    {
      var s := Addressed(lba);
      if s in badRead { return -EIO, buf; }
      return 0, disk[s];
    }

    /** ata_write_sector. */
    method WriteSector(lba: nat, sector: seq<u8>) returns (r: int)
      requires DiskOk(disk) && |sector| == 512
      modifies this
      ensures var s := lba % SECTORS;
        if s in badWrite then r == -EIO && disk == old(disk) else r == 0 && disk == old(disk)[s := sector]
    {
      var s := Addressed(lba);
      if s in badWrite { return -EIO; }
      disk := disk[s := sector];
      r := 0;
    }

    /**
     * ata_file_read: the bytes of the flat array under the positions, up to the first sector that cannot be read.
     * The position moves only when everything was read.
     */
    method FileRead(out: array<u8>, count: nat, pos: nat, junk: seq<u8>) returns (r: int, newPos: nat)
      requires DiskOk(disk) && count <= out.Length && |junk| == 512
      modifies out
      ensures var n := if r > 0 then r else 0;
        && n <= count && Readable(pos, n)
        && (forall k | 0 <= k < n :: out[k] == ByteAt(disk, pos, k))
        && (forall k | n <= k < out.Length :: out[k] == old(out[k]))
        && (n < count ==> SectorAt(pos, n) in badRead)
        && (r < 0 ==> r == -EIO && n < count)
        && (r == 0 ==> count == 0)
        && newPos == if n == count then pos + n else pos
    {
      var n := 0;
      newPos := pos;
      while n < count
        invariant 0 <= n <= count && Readable(pos, n)
        invariant forall k | 0 <= k < n :: out[k] == ByteAt(disk, pos, k)
        invariant forall k | n <= k < out.Length :: out[k] == old(out[k])
      {
        var lba, off := (pos + n) / 512, (pos + n) % 512;
        var chunk := Min(512 - off, count - n);
        var e, sector := ReadSector(lba, junk);
        if e != 0 { return if n > 0 then n else e, pos; }
        forall k | n <= k < n + chunk ensures SectorAt(pos, k) == SectorAt(pos, n) && ByteAt(disk, pos, k) == sector[off + (k - n)] {
          SameSector(disk, pos, n, chunk, k);
        }
        CopyChunk(out, n, sector[off..off + chunk]);
        n := n + chunk;
      }
      newPos := pos + n;
      r := n;
    }

    /** A sector under a run that could not be read is harmless when the run overwrites all of it. */
    ghost predicate Safe(pos: nat, count: nat) {
      forall k | 0 <= k < count :: SectorAt(pos, k) in badRead ==> Covered(pos, count, k)
    }

    /** The sector read-modify-write of one chunk; an unreadable sector counts as junk. */
    method WriteChunk(pos: nat, bytes: seq<u8>, junk: seq<u8>) returns (r: int)
      requires DiskOk(disk) && |junk| == 512 && 0 < |bytes| && pos % 512 + |bytes| <= 512
      modifies this
      ensures DiskOk(disk) && (r == 0 <==> SectorOf(pos) !in badWrite) && (r != 0 ==> r == -EIO && disk == old(disk))
      ensures var s := SectorOf(pos);
        var before := if |bytes| < 512 && s in badRead then junk else old(disk)[s];
        r == 0 ==> disk == old(disk)[s := Patched(before, pos % 512, bytes)]
    {
      var lba, off := pos / 512, pos % 512;
      var sector := junk;
      if off != 0 || |bytes| < 512 {
        var _, now := ReadSector(lba, sector);
        sector := now;
      }
      assert |bytes| == 512 ==> Patched(sector, off, bytes) == Patched(disk[SectorOf(pos)], off, bytes);
      r := WriteSector(lba, Patched(sector, off, bytes));
    }

    /** The first n bytes of a run are written; n is the end of the run or the start of a sector. */
    ghost predicate Wrote(d: Disk, e: Disk, pos: nat, src: seq<u8>, n: nat)
      requires DiskOk(d)
    {
      && DiskOk(e) && n <= |src| && (0 < n < |src| ==> (pos + n) % 512 == 0)
      && (forall k | 0 <= k < n :: SectorAt(pos, k) !in badWrite)
      && Landed(d, e, pos, src, n) && (Safe(pos, |src|) ==> Exact(d, e, pos, src[..n]))
    }

    lemma WroteParts(d: Disk, e: Disk, pos: nat, src: seq<u8>, n: nat)
      requires DiskOk(d) && Wrote(d, e, pos, src, n)
      ensures DiskOk(e) && n <= |src| && (forall k | 0 <= k < n :: SectorAt(pos, k) !in badWrite)
      ensures Landed(d, e, pos, src, n) && (Safe(pos, |src|) ==> Exact(d, e, pos, src[..n]))
    {
    }

    lemma WroteNothing(d: Disk, pos: nat, src: seq<u8>)
      requires DiskOk(d)
      ensures Wrote(d, d, pos, src, 0)
    {
      OverNothing(d, pos);
      assert src[..0] == [];
    }

    /** What storing the chunk at n does, ahead of storing it. */
    lemma ChunkFacts(d: Disk, e: Disk, pos: nat, src: seq<u8>, n: nat, chunk: nat, junk: seq<u8>)
      requires DiskOk(d) && n < |src| < WORD_LIMIT && |junk| == 512
      requires chunk == Min(512 - (pos + n) % 512, |src| - n) && Wrote(d, e, pos, src, n)
      ensures DiskOk(e) && chunk > 0 && (pos + n) % 512 + chunk <= 512
      ensures var s := SectorOf(pos + n);
        var before := if chunk < 512 && s in badRead then junk else e[s];
        s !in badWrite ==> Wrote(d, e[s := Patched(before, (pos + n) % 512, src[n..n + chunk])], pos, src, n + chunk)
      ensures SectorAt(pos, n) == SectorOf(pos + n)
    {
      hide Landed, Exact, Patched;
      var s := SectorOf(pos + n);
      var before := if chunk < 512 && s in badRead then junk else e[s];
      LandedStep(d, e, pos, src, n, chunk, before);
      forall k | n <= k < n + chunk ensures SectorAt(pos, k) == s { SameSector(d, pos, n, chunk, k); }
      if Safe(pos, |src|) {
        assert SectorAt(pos, n) == s;
        if chunk < 512 { PartUncovered(pos, |src|, n); }
        ExactStep(d, e, pos, src, n, chunk);
      }
    }

    /**
     * ata_file_write: the bytes land under the positions, up to the first sector that cannot be written, and no
     * sector besides theirs changes. When the partly written sectors can be read, no other byte changes at all.
     * The position moves only when everything was written.
     */
    method FileWrite(src: seq<u8>, pos: nat, junk: seq<u8>) returns (r: int, newPos: nat)
      requires DiskOk(disk) && |junk| == 512 && |src| < WORD_LIMIT
      modifies this
      ensures DiskOk(disk)
      ensures var n := if r > 0 then r else 0;
        && n <= |src| && (forall k | 0 <= k < n :: SectorAt(pos, k) !in badWrite)
        && (n < |src| ==> SectorAt(pos, n) in badWrite)
        && (r < 0 ==> r == -EIO && n < |src|) && (r == 0 ==> src == [])
        && newPos == (if n == |src| then pos + n else pos)
        && Landed(old(disk), disk, pos, src, n)
        && (Safe(pos, |src|) ==> Exact(old(disk), disk, pos, src[..n]))
    {
      var n, e := WriteRun(src, pos, junk);
      if e != 0 { return if n > 0 then n else e, pos; }
      return n, pos + n;
    }

    /** The sector loop of ata_file_write. */
    method WriteRun(src: seq<u8>, pos: nat, junk: seq<u8>) returns (n: nat, e: int)
      requires DiskOk(disk) && |junk| == 512 && |src| < WORD_LIMIT
      modifies this
      ensures DiskOk(disk) && n <= |src| && (forall k | 0 <= k < n :: SectorAt(pos, k) !in badWrite)
      ensures if e == 0 then n == |src| else e == -EIO && n < |src| && SectorAt(pos, n) in badWrite
      ensures Landed(old(disk), disk, pos, src, n) && (Safe(pos, |src|) ==> Exact(old(disk), disk, pos, src[..n]))
    {
      hide *;
      ghost var d := disk;
      WroteNothing(d, pos, src);
      n := 0;
      while n < |src|
        invariant n <= |src| && Wrote(d, disk, pos, src, n)
      {
        var room := 512 - (pos + n) % 512;
        var chunk := if room < |src| - n then room else |src| - n;
        ChunkSize(room, |src| - n);
        ChunkFacts(d, disk, pos, src, n, chunk, junk);
        e := WriteChunk(pos + n, src[n..n + chunk], junk);
        if e != 0 { WroteParts(d, disk, pos, src, n); return; }
        n := n + chunk;
      }
      WroteParts(d, disk, pos, src, n);
      e := 0;
    }
  }

  lemma ChunkSize(a: nat, b: nat)
    ensures Min(a, b) == if a < b then a else b
  {
  }

  /** memcpy. */
  method CopyChunk(out: array<u8>, at: nat, bytes: seq<u8>)
    requires at + |bytes| <= out.Length
    modifies out
    ensures forall k | 0 <= k < out.Length :: out[k] == if at <= k < at + |bytes| then bytes[k - at] else old(out[k])
  {
    var i := 0;
    while i < |bytes|
      invariant 0 <= i <= |bytes|
      invariant forall k | 0 <= k < out.Length :: out[k] == if at <= k < at + i then bytes[k - at] else old(out[k])
    {
      out[at + i] := bytes[i];
      i := i + 1;
    }
  }
}
