/** A FAT16 or FAT32 volume as lib832soc/minfat.c reads it: cluster links, and the
    content of a file as its cluster chain spells it out. */
module FatVolume {
  import opened Words

  const SECTOR := 512

  /** A sector is 512 bytes. */
  predicate IsSector(s: seq<int>) {
    |s| == SECTOR && forall i :: 0 <= i < SECTOR ==> 0 <= s[i] < 256
  }

  /** Little-endian integer in n bytes at offset o. */
  function Le(s: seq<int>, o: nat, n: nat): int
    requires o + n <= |s|
    decreases n
  {
    if n == 0 then 0 else s[o] + 256 * Le(s, o + 1, n - 1)
  }

  datatype Volume = Volume(fat32: bool, fatStart: int, fatSize: int, dataStart: int, clusterSize: int,
                           disk: map<int, seq<int>>) {
    /** Every sector can be read; one never written reads as zeros. */
    function Read(n: int): seq<int> {
      if n in disk then disk[n] else seq(SECTOR, _ => 0)
    }

    ghost predicate Valid() {
      && clusterSize > 0 && 0 <= fatStart && 0 <= fatSize && fatStart + fatSize < WORD
      && forall n :: n in disk ==> IsSector(disk[n])
    }

    predicate InFat(n: int) {
      fatStart <= n < fatStart + fatSize
    }

    /** The FAT sector that holds the link of cluster c, and where in it. */
    function LinkSector(c: int): int {
      fatStart + if fat32 then c / 128 else c / 256
    }

    function LinkIn(s: seq<int>, c: int): int
      requires |s| == SECTOR
    {
      if fat32 then Le(s, 4 * (c % 128), 4) % 0x1000_0000 else Le(s, 2 * (c % 256), 2)
    }

    /** The on-disk link of cluster c. */
    function Link(c: int): int
      requires Valid()
    {
      LinkIn(Read(LinkSector(c)), c)
    }

    /** Disk address of sector o of cluster c, in 32-bit arithmetic. */
    function DataSector(c: int, o: int): int {
      Wrap(dataStart + clusterSize * (c - 2) + o)
    }

    /** A file's clusters, in order, followed by the mark that ends the chain. */
    ghost predicate Chain(nodes: seq<int>)
      requires Valid()
    {
      && |nodes| > 0
      && (forall k {:trigger LinkedAt(nodes, k)} :: 0 <= k < |nodes| - 1 ==> LinkedAt(nodes, k))
      && (forall k, o {:trigger ClearAt(nodes, k, o)} ::
            0 <= k < |nodes| - 1 && 0 <= o < clusterSize ==> ClearAt(nodes, k, o))
    }

    /** The k-th link is in the FAT, and leads to the next cluster. */
    ghost predicate LinkedAt(nodes: seq<int>, k: int)
      requires Valid() && 0 <= k < |nodes| - 1
    {
      InFat(LinkSector(nodes[k])) && Link(nodes[k]) == nodes[k + 1]
    }

    /** Sector o of the k-th cluster is not in the FAT. */
    ghost predicate ClearAt(nodes: seq<int>, k: int, o: int)
      requires Valid() && 0 <= k < |nodes| - 1
    {
      !InFat(DataSector(nodes[k], o))
    }

    /** No sector of the file is in the FAT. */
    lemma SectorClear(nodes: seq<int>, p: nat)
      requires Valid() && Chain(nodes) && p / clusterSize < |nodes| - 1
      ensures !InFat(DataSector(nodes[p / clusterSize], p % clusterSize))
    {
      ClusterStart(p, clusterSize);
      var k, o := p / clusterSize, p % clusterSize;
      assert 0 <= k && 0 <= o < clusterSize && ClearAt(nodes, k, o);
    }

    /** Sector p of the file with chain `nodes`. */
    function FileSector(nodes: seq<int>, p: nat): (s: seq<int>)
      requires Valid() && p / clusterSize < |nodes|
      ensures |s| == SECTOR
    {
      Read(DataSector(nodes[p / clusterSize], p % clusterSize))
    }

    /** Byte i of the file; zero past the end of the chain. */
    function FileByte(nodes: seq<int>, i: nat): int
      requires Valid()
    {
      if i / SECTOR / clusterSize < |nodes| then FileSector(nodes, i / SECTOR)[i % SECTOR] else 0
    }

    /** n bytes of the file from position lo. */
    function Content(nodes: seq<int>, lo: nat, n: nat): (s: seq<int>)
      requires Valid()
      ensures |s| == n && forall i :: 0 <= i < n ==> s[i] == FileByte(nodes, lo + i)
    {
      seq(n, i requires 0 <= i < n => FileByte(nodes, lo + i))
    }

    /** The first n bytes lie in clusters of the chain. */
    predicate InFile(nodes: seq<int>, n: int) {
      n <= Capacity(nodes) * SECTOR
    }

    lemma InFileLess(nodes: seq<int>, m: int, n: int)
      requires m <= n && InFile(nodes, n)
      ensures InFile(nodes, m)
    {
    }

    lemma ByteInFile(nodes: seq<int>, i: nat, n: nat)
      requires Valid() && InFile(nodes, n) && i < n
      ensures i / SECTOR / clusterSize < |nodes| - 1
    {
      var p := i / SECTOR;
      ClusterStart(p, clusterSize);
      if p / clusterSize >= |nodes| - 1 {
        MulLe(|nodes| - 1, p / clusterSize, clusterSize);
      }
    }

    /** Bytes of one sector of the file. */
    lemma SameSector(nodes: seq<int>, start: nat, n: nat)
      requires Valid() && InFile(nodes, start + n) && start % SECTOR + n <= SECTOR && n > 0
      ensures start / SECTOR / clusterSize < |nodes| - 1
      ensures Content(nodes, start, n) == FileSector(nodes, start / SECTOR)[start % SECTOR..start % SECTOR + n]
    {
      ByteInFile(nodes, start, start + n);
      var s := Content(nodes, start, n);
      forall i | 0 <= i < n ensures s[i] == FileSector(nodes, start / SECTOR)[start % SECTOR + i] {
        assert (start + i) / SECTOR == start / SECTOR && (start + i) % SECTOR == start % SECTOR + i;
      }
    }

    lemma ContentSplits(nodes: seq<int>, lo: nat, m: nat, n: nat)
      requires Valid()
      ensures Content(nodes, lo, m + n) == Content(nodes, lo, m) + Content(nodes, lo + m, n)
    {
      var s, t := Content(nodes, lo, m + n), Content(nodes, lo, m) + Content(nodes, lo + m, n);
      forall i | 0 <= i < m + n ensures s[i] == t[i] {
        assert i >= m ==> lo + m + (i - m) == lo + i;
      }
    }

    /** Sectors the chain has room for. */
    function Capacity(nodes: seq<int>): int {
      (|nodes| - 1) * clusterSize
    }
  }

  // ---------- Cluster arithmetic ----------

  lemma DivIs(x: int, c: int, k: int)
    requires c > 0 && k * c <= x < (k + 1) * c
    ensures x / c == k && x % c == x - k * c
  {
    assert (k + 1) * c == k * c + c;
    DivideUnique(x, c, k, x - k * c);
  }

  lemma MulLe(a: int, b: int, c: int)
    requires a <= b && 0 <= c
    ensures a * c <= b * c
  {
  }

  /** One cluster further on. */
  lemma NextCluster(x: int, c: int)
    requires x >= 0 && c > 0
    ensures (x + c) / c == x / c + 1
  {
    var q := x / c;
    assert x == q * c + x % c;
    assert (q + 1) * c == q * c + c && (q + 2) * c == q * c + 2 * c;
    DivIs(x + c, c, q + 1);
  }

  /** The start of x's cluster. */
  lemma ClusterStart(x: int, c: int)
    requires x >= 0 && c > 0
    ensures var s := x - x % c; 0 <= s <= x < s + c && s % c == 0 && s / c == x / c && s == x / c * c && x / c >= 0
  {
    var q := x / c;
    assert x == q * c + x % c;
    assert (q + 1) * c == q * c + c;
    DivIs(x - x % c, c, q);
  }
}
