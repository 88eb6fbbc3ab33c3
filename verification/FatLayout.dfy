/** How a FAT16 or FAT32 volume is laid out: as a table of links and a row of clusters, written down by
    an encoder. What lib832soc/minfat.c reads of it is what was put there. */
module FatLayout {
  import opened Words
  import opened FatVolume
  import opened FatFile

  // ---------- The FAT ----------

  function Width(wide: bool): nat {
    if wide then 4 else 2
  }

  /** A link as it is stored: two or four bytes, the lowest first. */
  function EntryBytes(e: int, wide: bool): (s: seq<int>)
    ensures |s| == Width(wide)
  {
    var low, high := e % 0x1_0000, e / 0x1_0000;
    if wide then [low % 256, low / 256, high % 256, high / 256] else [low % 256, low / 256]
  }

  function FatBytes(entries: seq<int>, wide: bool): seq<int> {
    if entries == [] then []
    else FatBytes(entries[..|entries| - 1], wide) + EntryBytes(entries[|entries| - 1], wide)
  }

  lemma {:induction false} FatBytesLength(entries: seq<int>, wide: bool)
    ensures |FatBytes(entries, wide)| == if wide then 4 * |entries| else 2 * |entries|
  {
    hide EntryBytes;
    if entries != [] {
      FatBytesLength(entries[..|entries| - 1], wide);
    }
  }

  lemma {:induction false} FatBytesAt(entries: seq<int>, wide: bool, c: nat)
    requires c < |entries|
    ensures |FatBytes(entries, wide)| == if wide then 4 * |entries| else 2 * |entries|
    ensures FatBytes(entries, wide)[if wide then 4 * c else 2 * c..][..Width(wide)] == EntryBytes(entries[c], wide)
  {
    hide EntryBytes;
    var n := |entries| - 1;
    FatBytesLength(entries, wide);
    FatBytesLength(entries[..n], wide);
    if c < n {
      FatBytesAt(entries[..n], wide, c);
    }
  }

  /** What an entry of a FAT can be. */
  predicate IsEntry(e: int, wide: bool) {
    0 <= e < if wide then WORD else 0x1_0000
  }

  lemma LeBytes(s: seq<int>, o: nat)
    ensures o + 2 <= |s| ==> Le(s, o, 2) == s[o] + 0x100 * s[o + 1]
    ensures o + 4 <= |s| ==> Le(s, o, 4) == s[o] + 0x100 * s[o + 1] + 0x1_0000 * s[o + 2] + 0x100_0000 * s[o + 3]
  {
    if o + 2 <= |s| {
      assert Le(s, o + 2, 0) == 0 && Le(s, o + 1, 1) == s[o + 1];
    }
    if o + 4 <= |s| {
      assert Le(s, o + 4, 0) == 0 && Le(s, o + 3, 1) == s[o + 3] && Le(s, o + 2, 2) == s[o + 2] + 0x100 * s[o + 3];
      assert Le(s, o + 1, 3) == s[o + 1] + 0x100 * Le(s, o + 2, 2);
    }
  }

  /** The bytes of a stored entry add up to it. */
  lemma EntryAdds(e: int)
    ensures var low, high := e % 0x1_0000, e / 0x1_0000;
      && e == low % 256 + 0x100 * (low / 256) + 0x1_0000 * (high % 256) + 0x100_0000 * (high / 256)
      && (IsEntry(e, false) ==> high == 0)
  {
    var low, high := e % 0x1_0000, e / 0x1_0000;
    assert low == low % 256 + 0x100 * (low / 256) && high == high % 256 + 0x100 * (high / 256);
  }

  /** The sectors of v from place `start` on hold these bytes. */
  ghost predicate Holds(v: Volume, start: int, bytes: seq<int>) {
    && |bytes| % SECTOR == 0
    && forall k {:trigger HoldsAt(v, start, bytes, k)} :: 0 <= k < |bytes| / SECTOR ==> HoldsAt(v, start, bytes, k)
  }

  ghost predicate HoldsAt(v: Volume, start: int, bytes: seq<int>, k: int)
    requires 0 <= k < |bytes| / SECTOR
  {
    SECTOR * k + SECTOR <= |bytes| && v.Read(start + k) == bytes[SECTOR * k..SECTOR * k + SECTOR]
  }

  /** The FAT of v is made of these entries. */
  ghost predicate HasFat(v: Volume, entries: seq<int>) {
    && v.Valid() && |entries| == (if v.fat32 then 128 * v.fatSize else 256 * v.fatSize)
    && (forall c :: 0 <= c < |entries| ==> IsEntry(entries[c], v.fat32))
    && Holds(v, v.fatStart, FatBytes(entries, v.fat32))
  }

  /** The link of every cluster is what the encoder put into the FAT; FAT32 leaves out the top four bits. */
  lemma LinkIsEntry(v: Volume, entries: seq<int>, c: nat)
    requires HasFat(v, entries) && c < |entries|
    ensures v.InFat(v.LinkSector(c)) && v.Link(c) == if v.fat32 then entries[c] % 0x1000_0000 else entries[c]
  {
    hide FatBytes, EntryBytes, Le;
    var b := FatBytes(entries, v.fat32);
    FatBytesAt(entries, v.fat32, c);
    var k, o := if v.fat32 then c / 128 else c / 256, if v.fat32 then 4 * (c % 128) else 2 * (c % 256);
    EntryPlace(c, v.fat32, v.fatSize);
    assert HoldsAt(v, v.fatStart, b, k);
    EntryThere(b, SECTOR * k, o, entries[c], v.fat32);
  }

  /** In which sector and where in it entry c is. */
  lemma EntryPlace(c: nat, wide: bool, n: int)
    requires c < if wide then 128 * n else 256 * n
    ensures wide ==> 0 <= c / 128 < n && SECTOR * (c / 128) + 4 * (c % 128) == 4 * c
    ensures !wide ==> 0 <= c / 256 < n && SECTOR * (c / 256) + 2 * (c % 256) == 2 * c
  {
  }

  /** A stretch of bytes in which an entry lies. */
  lemma EntryThere(b: seq<int>, start: nat, o: nat, e: int, wide: bool)
    requires start + SECTOR <= |b| && o + Width(wide) <= SECTOR && IsEntry(e, wide)
    requires b[start + o..][..Width(wide)] == EntryBytes(e, wide)
    ensures Le(b[start..start + SECTOR], o, Width(wide)) == e
  {
    var s, t := b[start..start + SECTOR], b[start + o..][..Width(wide)];
    assert s[o] == t[0] && s[o + 1] == t[1] && (wide ==> s[o + 2] == t[2] && s[o + 3] == t[3]);
    LeBytes(s, o);
    EntryAdds(e);
  }

  // ---------- Files ----------

  /** The clusters of v, of which the first is number 2, hold these bytes, and lie after the FAT. */
  ghost predicate HasData(v: Volume, data: seq<int>) {
    && v.Valid() && v.fatStart + v.fatSize <= v.dataStart && v.dataStart + |data| / SECTOR <= WORD
    && Holds(v, v.dataStart, data)
  }

  function ClusterBytes(v: Volume): int {
    v.clusterSize * SECTOR
  }

  /** Cluster c is in the data area. */
  predicate Fits(v: Volume, data: seq<int>, c: int)
    requires v.clusterSize > 0
  {
    c >= 2 && (c - 1) * ClusterBytes(v) <= |data|
  }

  /** These bytes have been put into the clusters `nodes` one after another, and the links made. The last
      node is what ends the chain. */
  ghost predicate Stored(v: Volume, entries: seq<int>, data: seq<int>, nodes: seq<int>, bytes: seq<int>)
    requires v.clusterSize > 0
  {
    && |nodes| > 0 && |bytes| == (|nodes| - 1) * ClusterBytes(v)
    && forall k {:trigger StoredAt(v, entries, data, nodes, bytes, k)} ::
         0 <= k < |nodes| - 1 ==> StoredAt(v, entries, data, nodes, bytes, k)
  }

  ghost predicate StoredAt(v: Volume, entries: seq<int>, data: seq<int>, nodes: seq<int>, bytes: seq<int>, k: int)
    requires v.clusterSize > 0 && 0 <= k < |nodes| - 1
  {
    var c, n := nodes[k], ClusterBytes(v);
    && Fits(v, data, c) && c < |entries| && nodes[k + 1] == (if v.fat32 then entries[c] % 0x1000_0000 else entries[c])
    && AllCopied(bytes, k * n, data, (c - 2) * n, n)
  }

  /** n bytes from place i of s are those from place j of t. */
  ghost predicate AllCopied(s: seq<int>, i: int, t: seq<int>, j: int, n: int) {
    forall r :: 0 <= r < n ==> Copied(s, i, t, j, r)
  }

  /** Byte r from place i of s is byte r from place j of t. */
  predicate Copied(s: seq<int>, i: int, t: seq<int>, j: int, r: int) {
    InRange(i + r, s) && InRange(j + r, t) && s[i + r] == t[j + r]
  }

  predicate InRange(i: int, s: seq<int>) {
    0 <= i < |s|
  }

  /** Sector o of cluster c is that of the data area. */
  lemma SectorIsData(v: Volume, data: seq<int>, c: int, o: int, r: int)
    requires HasData(v, data) && Fits(v, data, c) && 0 <= o < v.clusterSize && 0 <= r < SECTOR
    ensures !v.InFat(v.DataSector(c, o)) && |v.Read(v.DataSector(c, o))| == SECTOR
    ensures InRange((c - 2) * ClusterBytes(v) + SECTOR * o + r, data)
    ensures v.Read(v.DataSector(c, o))[r] == data[(c - 2) * ClusterBytes(v) + SECTOR * o + r]
  {
    var q := v.clusterSize * (c - 2) + o;
    SectorPlace(v.clusterSize, c, o, |data|);
    SectorHolds(v, data, q, r);
    assert v.DataSector(c, o) == v.dataStart + q;
  }

  lemma SectorPlace(cs: int, c: int, o: int, size: int)
    requires cs > 0 && c >= 2 && 0 <= o < cs && (c - 1) * (cs * SECTOR) <= size
    ensures var q := cs * (c - 2) + o;
      0 <= q && SECTOR * q + SECTOR <= size && SECTOR * q == (c - 2) * (cs * SECTOR) + SECTOR * o
  {
    assert (c - 1) * (cs * SECTOR) == (c - 2) * (cs * SECTOR) + cs * SECTOR;
    Scaled(c - 2, cs);
  }

  lemma SectorHolds(v: Volume, data: seq<int>, q: int, r: int)
    requires HasData(v, data) && 0 <= q && SECTOR * q + SECTOR <= |data| && 0 <= r < SECTOR
    ensures var s := v.Read(v.dataStart + q); |s| == SECTOR && s[r] == data[SECTOR * q + r]
    ensures v.dataStart + q < WORD
  {
    assert HoldsAt(v, v.dataStart, data, q);
  }

  lemma Scaled(a: int, cs: int)
    requires cs > 0 && a >= 0
    ensures a * (cs * SECTOR) == SECTOR * (cs * a) && cs * a >= 0
  {
  }

  /** The nodes are a cluster chain. */
  lemma StoredChain(v: Volume, entries: seq<int>, data: seq<int>, nodes: seq<int>, bytes: seq<int>)
    requires HasFat(v, entries) && HasData(v, data) && Stored(v, entries, data, nodes, bytes)
    ensures v.Chain(nodes)
  {
    hide Holds;
    forall k | 0 <= k < |nodes| - 1 ensures v.LinkedAt(nodes, k) {
      assert StoredAt(v, entries, data, nodes, bytes, k);
      LinkIsEntry(v, entries, nodes[k]);
    }
    forall k, o | 0 <= k < |nodes| - 1 && 0 <= o < v.clusterSize ensures v.ClearAt(nodes, k, o) {
      assert StoredAt(v, entries, data, nodes, bytes, k);
      SectorIsData(v, data, nodes[k], o, 0);
    }
  }

  /** And the file they spell out is what has been put there. */
  lemma ReadsBack(v: Volume, entries: seq<int>, data: seq<int>, nodes: seq<int>, bytes: seq<int>, lo: nat, n: nat)
    requires HasData(v, data) && Stored(v, entries, data, nodes, bytes) && lo + n <= |bytes|
    ensures v.Content(nodes, lo, n) == bytes[lo..lo + n]
  {
    var s, t := v.Content(nodes, lo, n), bytes[lo..lo + n];
    forall i | 0 <= i < n ensures s[i] == t[i] {
      ByteReadsBack(v, entries, data, nodes, bytes, lo + i);
    }
  }

  lemma ByteReadsBack(v: Volume, entries: seq<int>, data: seq<int>, nodes: seq<int>, bytes: seq<int>, i: nat)
    requires HasData(v, data) && Stored(v, entries, data, nodes, bytes) && i < |bytes|
    ensures v.FileByte(nodes, i) == bytes[i]
  {
    var k, o := i / SECTOR / v.clusterSize, i / SECTOR % v.clusterSize;
    BytePlace(i, |nodes| - 1, v.clusterSize);
    assert StoredAt(v, entries, data, nodes, bytes, k);
    ByteThere(v, data, nodes[k], o, i % SECTOR, bytes, k * ClusterBytes(v));
  }

  /** In which cluster, sector and byte of it byte i of m clusters is. */
  lemma BytePlace(i: nat, m: nat, cs: int)
    requires cs > 0 && i < m * (cs * SECTOR)
    ensures var k, o := i / SECTOR / cs, i / SECTOR % cs;
      0 <= k < m && 0 <= o < cs && i == k * (cs * SECTOR) + SECTOR * o + i % SECTOR
  {
    var p := i / SECTOR;
    ClusterStart(p, cs);
    Scaled(p / cs, cs);
    if p / cs >= m {
      MulLe(m, p / cs, cs * SECTOR);
      assert false;
    }
  }

  lemma ByteThere(v: Volume, data: seq<int>, c: int, o: int, r: int, bytes: seq<int>, at: int)
    requires HasData(v, data) && Fits(v, data, c) && 0 <= o < v.clusterSize && 0 <= r < SECTOR
    requires AllCopied(bytes, at, data, (c - 2) * ClusterBytes(v), ClusterBytes(v))
    ensures InRange(at + SECTOR * o + r, bytes) && |v.Read(v.DataSector(c, o))| == SECTOR
    ensures v.Read(v.DataSector(c, o))[r] == bytes[at + SECTOR * o + r]
  {
    assert Copied(bytes, at, data, (c - 2) * ClusterBytes(v), SECTOR * o + r);
    SectorIsData(v, data, c, o, r);
  }

  /** So a file of so many bytes, opened on such a volume, sought anywhere and read to its end,
      is what was put there. */
  method ReadStored(drive: Drive, ghost entries: seq<int>, ghost data: seq<int>, ghost nodes: seq<int>,
                    ghost bytes: seq<int>, first: int, size: int, from: int, buffer: array<int>)
    requires drive.Coherent() && HasFat(drive.vol, entries) && HasData(drive.vol, data)
    requires Stored(drive.vol, entries, data, nodes, bytes) && nodes[0] == first
    requires |nodes| * drive.vol.clusterSize < 0x8000_0000
    requires 0 <= from < size <= |bytes| && size < WORD && size - from < 0x8000_0000
    requires buffer.Length == size - from && buffer != drive.sector_buffer
    modifies drive, drive.sector_buffer, buffer
    ensures buffer[..] == bytes[from..size]
  {
    hide HasFat, HasData, Stored, FileHandle.Marked, FileHandle.Sound;
    StoredChain(drive.vol, entries, data, nodes, bytes);
    StoredSize(drive.vol, entries, data, nodes, bytes, from, size);
    var f := new FileHandle(drive, 8, size, first, nodes);
    ReadFrom(f, from, buffer);
    ReadsBack(drive.vol, entries, data, nodes, bytes, from, size - from);
  }

  /** The rest of a file, from any place on. */
  method ReadFrom(f: FileHandle, from: int, buffer: array<int>)
    requires f.Valid() && 0 <= from < f.size < WORD && buffer.Length == f.size - from < 0x8000_0000
    requires from / SECTOR / f.ClusterSize() < |f.nodes| && f.Vol().InFile(f.nodes, f.size)
    requires buffer != f.drive.sector_buffer
    modifies f`sector, f`cluster, f`cursor, f.bookmarks, f.drive, f.drive.sector_buffer, buffer
    ensures buffer[..] == f.Vol().Content(f.nodes, from, f.size - from)
  {
    hide FileHandle.Recorded, FileHandle.LinksFollowed, FileHandle.Marked, FileHandle.Sound;
    f.FileSeek(from);
    f.ClampInFile(f.size - from);
    var n := f.FileRead(buffer, f.size - from, 0);
    assert buffer[..n] == buffer[..];
  }

  lemma StoredSize(v: Volume, entries: seq<int>, data: seq<int>, nodes: seq<int>, bytes: seq<int>, from: nat, size: nat)
    requires v.clusterSize > 0 && Stored(v, entries, data, nodes, bytes) && from < size <= |bytes|
    ensures from / SECTOR / v.clusterSize < |nodes| && v.InFile(nodes, size)
  {
    SeekInside(v, |nodes| - 1, |bytes|, from);
  }

  lemma SeekInside(v: Volume, m: nat, n: int, from: nat)
    requires v.clusterSize > 0 && n == m * ClusterBytes(v) && from < n
    ensures from / SECTOR / v.clusterSize < m + 1 && n <= m * v.clusterSize * SECTOR
  {
    BytePlace(from, m, v.clusterSize);
    assert m * (v.clusterSize * SECTOR) == m * v.clusterSize * SECTOR;
  }
}
