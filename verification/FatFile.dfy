/** The file cursor of lib832soc/minfat.c: one sector buffer shared by everything, and
    bookmarks that remember where in its chain a file has been. */
module FatFile {
  import opened Words
  import opened FatVolume

  class Drive {
    const vol: Volume
    const sector_buffer: array<int>
    var cachedsector: int
    ghost var links: nat  // how many links GetCluster has followed

    constructor (vol: Volume)
      ensures this.vol == vol && fresh(sector_buffer) && sector_buffer.Length == SECTOR
      ensures cachedsector == WORD - 1 && links == 0 && (vol.Valid() ==> Coherent())
    {
      this.vol := vol;
      sector_buffer := new int[SECTOR](_ => 0);
      cachedsector := WORD - 1;
      links := 0;
    }

    /** Whenever the cache claims to hold a FAT sector, the buffer is that sector. */
    ghost predicate Coherent()
      reads this, sector_buffer
    {
      && vol.Valid() && sector_buffer.Length == SECTOR
      && (vol.InFat(cachedsector) ==> sector_buffer[..] == vol.Read(cachedsector))
    }

    method ReadSector(n: int, buffer: array<int>, offset: nat)
      requires vol.Valid() && offset + SECTOR <= buffer.Length
      modifies buffer
      ensures buffer[offset..offset + SECTOR] == vol.Read(n)
      ensures buffer[..offset] == old(buffer[..offset]) && buffer[offset + SECTOR..] == old(buffer[offset + SECTOR..])
    {
      var s := vol.Read(n);
      for i := 0 to SECTOR
        invariant buffer[offset..offset + i] == s[..i]
        invariant buffer[..offset] == old(buffer[..offset]) && buffer[offset + i..] == old(buffer[offset + i..])
      {
        buffer[offset + i] := s[i];
        assert buffer[offset..offset + i + 1] == buffer[offset..offset + i] + [s[i]];
      }
      assert s[..SECTOR] == s;
    }

    /** A sector is read into some buffer, and the cache label moves to it: which stays true if the
        buffer is the shared one, or the sector is not in the FAT. */
    method Load(n: int, buffer: array<int>, offset: nat)
      requires Coherent() && offset + SECTOR <= buffer.Length && (buffer == sector_buffer || !vol.InFat(n))
      modifies this`cachedsector, buffer
      ensures Coherent() && buffer[offset..offset + SECTOR] == vol.Read(n)
      ensures buffer[..offset] == old(buffer[..offset]) && buffer[offset + SECTOR..] == old(buffer[offset + SECTOR..])
    {
      cachedsector := n;
      ReadSector(n, buffer, offset);
      assert buffer == sector_buffer ==> buffer[..] == buffer[offset..offset + SECTOR];
    }

    /** The link of a cluster, by way of the one shared buffer. */
    method GetCluster(cluster: int) returns (r: int)
      requires Coherent() && vol.InFat(vol.LinkSector(cluster))
      modifies this, sector_buffer
      ensures Coherent() && r == vol.Link(cluster) && links == old(links) + 1
    {
      var sb := vol.LinkSector(cluster);
      links := links + 1;
      if cachedsector != sb {
        cachedsector := sb;
        ReadSector(sb, sector_buffer, 0);
        assert sector_buffer[..] == sector_buffer[0..SECTOR];
      }
      r := vol.LinkIn(sector_buffer[..], cluster);
    }
  }

  lemma SameCluster(p: int, q: int, c: int)
    requires p >= 0 && q >= 0 && c > 0
    ensures p - p % c == q - q % c <==> p / c == q / c
  {
    ClusterStart(p, c);
    ClusterStart(q, c);
  }

  datatype Bookmark = Bookmark(sector: int, cluster: int)

  function Threshold(size: int, count: int): (t: int)
    requires size >= 0 && count > 0
    ensures t >= 0
  {
    size / SECTOR / (8 * count)
  }

  /** 8 * count stretches of that many sectors, and no longer ones, fit into the file's whole sectors. */
  lemma ThresholdMeans(size: int, count: int)
    requires size >= 0 && count > 0
    ensures var t, whole := Threshold(size, count), size / 512;
      t * (8 * count) <= whole < (t + 1) * (8 * count)
  {
    var t, n := Threshold(size, count), 8 * count;
    assert size / 512 == t * n + size / 512 % n && (t + 1) * n == t * n + n;
  }

  class FileHandle {
    const drive: Drive
    const bookmarks: array<Bookmark>
    var sector: int
    var cluster: int
    var size: int
    var firstcluster: int
    var cursor: int
    var bookmark_threshold: int
    ghost var nodes: seq<int>  // the file's cluster chain and its end mark

    function Vol(): Volume {
      drive.vol
    }

    function ClusterSize(): int {
      drive.vol.clusterSize
    }

    /** c is the cluster of sector s, as plain walking from the first cluster finds it. */
    ghost predicate Sound(s: int, c: int)
      reads this
      requires Vol().Valid()
    {
      s >= 0 && s / ClusterSize() < |nodes| && c == nodes[s / ClusterSize()]
    }

    ghost predicate GoodMark(b: Bookmark)
      reads this
      requires Vol().Valid()
    {
      b.sector % ClusterSize() == 0 && Sound(b.sector, b.cluster)
    }

    /** Every bookmark is sound, and one is at the start of the file. */
    ghost predicate Marked()
      reads this, bookmarks
      requires Vol().Valid()
    {
      && (forall i :: 0 <= i < bookmarks.Length ==> GoodMark(bookmarks[i]))
      && HasStart() && Ranged()
    }

    ghost predicate HasStart()
      reads bookmarks
    {
      exists i :: 0 <= i < bookmarks.Length && bookmarks[i].sector == 0
    }

    /** Bookmarked sectors are 31-bit numbers, so that their differences are, too. */
    ghost predicate Ranged()
      reads bookmarks
    {
      bookmarks.Length >= 2 && forall i :: 0 <= i < bookmarks.Length ==> 0 <= bookmarks[i].sector < 0x7fff_ffff
    }

    ghost predicate Valid()
      reads this, bookmarks, drive, drive.sector_buffer
    {
      && drive.Coherent() && Vol().Chain(nodes) && nodes[0] == firstcluster
      && |nodes| * ClusterSize() < 0x8000_0000
      && Sound(sector, cluster) && Marked()
      && 0 <= bookmark_threshold
    }

    /** FileOpen, once the directory entry is found: at the start, with every bookmark there too. */
    constructor (drive: Drive, count: int, size: int, first: int, ghost nodes: seq<int>)
      requires drive.Coherent() && drive.vol.Chain(nodes) && nodes[0] == first
      requires |nodes| * drive.vol.clusterSize < 0x8000_0000 && count >= 2 && size >= 0
      ensures Valid() && fresh(this) && fresh(bookmarks) && this.drive == drive && bookmarks.Length == count
      ensures this.nodes == nodes && this.size == size && sector == cursor == 0 && cluster == firstcluster == first
      ensures bookmarks[..] == seq(count, _ => Bookmark(0, first)) && bookmark_threshold == Threshold(size, count)
    {
      this.drive := drive;
      this.size := size;
      cluster := first;
      sector := 0;
      firstcluster := first;
      cursor := 0;
      bookmarks := new Bookmark[count](_ => Bookmark(0, first));
      bookmark_threshold := Threshold(size, count);
      this.nodes := nodes;
      new;
      ClusterStart(0, drive.vol.clusterSize);
      assert bookmarks[0].sector == 0;
    }

    /** FileNextSector: forward by count sectors, following links as clusters are crossed. */
    method FileNextSector(count: int)
      requires Valid() && 0 <= count && (sector + count) / ClusterSize() < |nodes|
      modifies this`sector, this`cluster, drive, drive.sector_buffer
      ensures Valid() && sector == old(sector) + count
      ensures drive.links == old(drive.links) + sector / ClusterSize() - old(sector) / ClusterSize()
    {
      var target := count + sector;
      var c := ClusterSize();
      DivideOrder(sector, target, c);
      while sector / c != target / c
        invariant Valid() && 0 <= sector / c <= target / c
        invariant drive.links == old(drive.links) + sector / c - old(sector / c)
        decreases target / c - sector / c
      {
        NextCluster(sector, c);
        assert Vol().LinkedAt(nodes, sector / c);
        var next := drive.GetCluster(cluster);
        cluster := next;
        sector := sector + c;
      }
      sector := target;
    }
  
    /** FileReadSector: the current sector into a caller's buffer, or into the shared one. The
        cache label moves either way; it is still true because no data sector lies in the FAT. */
    method FileReadSector(buffer: array<int>, offset: nat)
      requires Valid() && offset + SECTOR <= buffer.Length
      requires buffer == drive.sector_buffer || sector / ClusterSize() < |nodes| - 1
      modifies drive`cachedsector, buffer
      ensures Valid() && buffer[offset..offset + SECTOR] == Vol().FileSector(nodes, sector)
      ensures buffer[..offset] == old(buffer[..offset]) && buffer[offset + SECTOR..] == old(buffer[offset + SECTOR..])
    {
      var sb := Vol().DataSector(cluster, sector % ClusterSize());
      if sector / ClusterSize() < |nodes| - 1 {
        Vol().SectorClear(nodes, sector);
      }
      drive.Load(sb, buffer, offset);
    }

    /** BestBookmark: the bookmark nearest before sector pm, -1 if none is before it. */
    method BestBookmark(pm: int) returns (best: int)
      requires Ranged() && HasStart() && 0 <= pm < 0x7fff_ffff
      ensures 0 <= best < bookmarks.Length && bookmarks[best].sector <= pm
      ensures forall i :: 0 <= i < bookmarks.Length && bookmarks[i].sector <= pm ==>
        bookmarks[i].sector <= bookmarks[best].sector
    {
      best := -1;
      var bestd := 0x7fff_ffff;
      for idx := 0 to bookmarks.Length
        invariant -1 <= best < idx
        invariant best == -1 ==> bestd == 0x7fff_ffff && forall i :: 0 <= i < idx ==> bookmarks[i].sector > pm
        invariant best >= 0 ==> bestd == pm - bookmarks[best].sector && 0 <= bestd
        invariant best >= 0 ==> forall i :: 0 <= i < idx && bookmarks[i].sector <= pm ==>
          bookmarks[i].sector <= bookmarks[best].sector
      {
        var d := ToInt32(pm - bookmarks[idx].sector);
        if d >= 0 && d < bestd {
          best := idx;
          bestd := d;
        }
      }
    }

    /** The gap from bookmark a up to bookmark b; only pairs in ascending order have one. */
    ghost predicate HasGap(a: int, b: int)
      reads this, bookmarks
    {
      && 0 <= a < bookmarks.Length && 0 <= b < bookmarks.Length && a != b
      && bookmarks[a].sector <= bookmarks[b].sector
    }

    ghost function Gap(a: int, b: int): int
      requires HasGap(a, b)
      reads this, bookmarks
    {
      bookmarks[b].sector - bookmarks[a].sector
    }

    /** No gap up from bookmark a, to those below index `upto`, is less than d. */
    ghost predicate NoneCloser(a: int, upto: int, d: int)
      reads this, bookmarks
    {
      forall b :: b < upto && HasGap(a, b) ==> d <= Gap(a, b)
    }

    ghost predicate IsWorst(worst: int, from: int)
      reads this, bookmarks
    {
      && HasGap(from, worst)
      && forall a :: 0 <= a < bookmarks.Length ==> NoneCloser(a, bookmarks.Length, Gap(from, worst))
    }

    /** The same, of a list of bookmarks: the upper one of a pair no further apart than any other. */
    static ghost predicate WorstOf(bs: seq<Bookmark>, w: int) {
      && 0 <= w < |bs|
      && exists f :: ClosestPair(bs, f, w)
    }

    static ghost predicate ClosestPair(bs: seq<Bookmark>, f: int, w: int) {
      && UpFrom(bs, f, w)
      && forall a, b {:trigger UpFrom(bs, a, b)} :: UpFrom(bs, a, b) ==>
           bs[w].sector - bs[f].sector <= bs[b].sector - bs[a].sector
    }

    static ghost predicate UpFrom(bs: seq<Bookmark>, a: int, b: int) {
      0 <= a < |bs| && 0 <= b < |bs| && a != b && bs[a].sector <= bs[b].sector
    }

    lemma WorstIsWorst(worst: int, from: int)
      requires IsWorst(worst, from)
      ensures WorstOf(bookmarks[..], worst)
    {
      var bs := bookmarks[..];
      forall a, b | UpFrom(bs, a, b)
        ensures bs[worst].sector - bs[from].sector <= bs[b].sector - bs[a].sector {
        assert HasGap(a, b) && NoneCloser(a, bookmarks.Length, Gap(from, worst));
      }
      assert ClosestPair(bs, from, worst);
    }

    /** WorstBookmark: the upper one of the two closest bookmarks. The differences are compared
        as unsigned numbers, so only pairs in ascending order count. */
    method WorstBookmark() returns (worst: int)
      requires Ranged()
      ensures WorstOf(bookmarks[..], worst) && exists from :: IsWorst(worst, from)
    {
      var worstd := 0x7fff_ffff;
      worst := -1;
      ghost var from := -1;
      for idx := 0 to bookmarks.Length
        invariant if worst == -1 then worstd == 0x7fff_ffff else HasGap(from, worst) && worstd == Gap(from, worst)
        invariant forall a :: 0 <= a < idx ==> NoneCloser(a, bookmarks.Length, worstd)
      {
        for idx2 := 0 to bookmarks.Length
          invariant if worst == -1 then worstd == 0x7fff_ffff else HasGap(from, worst) && worstd == Gap(from, worst)
          invariant forall a :: 0 <= a < idx ==> NoneCloser(a, bookmarks.Length, worstd)
          invariant NoneCloser(idx, idx2, worstd)
        {
          var d := ToInt32(bookmarks[idx2].sector - bookmarks[idx].sector);
          UnsignedLess(bookmarks[idx2].sector - bookmarks[idx].sector, worstd);
          if idx != idx2 && Wrap(d) < worstd {
            forall a | 0 <= a < idx ensures NoneCloser(a, bookmarks.Length, d) {
              assert NoneCloser(a, bookmarks.Length, worstd);
            }
            assert NoneCloser(idx, idx2, worstd);
            worst := idx2;
            worstd := d;
            from := idx;
          }
        }
      }
      TwoHaveGap();
      assert IsWorst(worst, from);
      WorstIsWorst(worst, from);
    }

    lemma UnsignedLess(d: int, w: int)
      requires -0x7fff_ffff < d < 0x7fff_ffff && 0 <= w <= 0x7fff_ffff
      ensures ToInt32(d) == d && (Wrap(d) < w <==> 0 <= d < w)
    {
    }

    lemma TwoHaveGap()
      requires Ranged()
      ensures !NoneCloser(0, bookmarks.Length, 0x7fff_ffff) || !NoneCloser(1, bookmarks.Length, 0x7fff_ffff)
    {
      assert HasGap(0, 1) || HasGap(1, 0);
    }

    /** Giving up the worst bookmark leaves one at the start of the file. */
    lemma WorstSparesZero(worst: int, from: int)
      requires Ranged() && HasStart() && IsWorst(worst, from)
      ensures exists i :: 0 <= i < bookmarks.Length && i != worst && bookmarks[i].sector == 0
    {
      var z :| 0 <= z < bookmarks.Length && bookmarks[z].sector == 0;
      if z == worst {
        assert bookmarks[from].sector == 0;
      }
    }

    // ---------- Seeking ----------

    /** The state a seek leaves, and a read should start from: the cursor's sector is current, and
        buffered if the cursor is inside it. */
    ghost predicate Positioned()
      reads this, drive, drive.sector_buffer
      requires Vol().Valid() && drive.sector_buffer.Length == SECTOR
    {
      Behind(0)
    }

    /** The current sector, and the buffer, are those of a place so many bytes before the cursor. */
    ghost predicate Behind(lag: int)
      reads this, drive, drive.sector_buffer
      requires Vol().Valid() && drive.sector_buffer.Length == SECTOR
    {
      && 0 <= lag <= cursor && lag % SECTOR == 0 && sector == (cursor - lag) / SECTOR
      && (cursor % SECTOR != 0 ==>
            sector / ClusterSize() < |nodes| && drive.sector_buffer[..] == Vol().FileSector(nodes, sector))
    }

    /** FileSeek: to any position in the chain, or just past its end, whatever came before. */
    method FileSeek(pos: int)
      requires Valid() && 0 <= pos && pos / SECTOR / ClusterSize() < |nodes|
      modifies this`sector, this`cluster, this`cursor, bookmarks, drive, drive.sector_buffer
      ensures Valid() && cursor == pos && Positioned() && cluster == nodes[pos / SECTOR / ClusterSize()]
      ensures drive.sector_buffer[..] == Vol().FileSector(nodes, pos / SECTOR)
      ensures LinksFollowed(old(bookmarks[..]), old(sector), pos / SECTOR, drive.links - old(drive.links))
      ensures drive.links - old(drive.links) <= pos / SECTOR / ClusterSize()
      ensures var from := old(sector) - old(sector) % ClusterSize();
        if pos / SECTOR / ClusterSize() == old(sector) / ClusterSize() then bookmarks[..] == old(bookmarks[..])
        else Recorded(old(bookmarks[..]), from, old(cluster))
    {
      MoveTo(pos / SECTOR);
      FileReadSector(drive.sector_buffer, 0);
      cursor := pos;
      assert drive.sector_buffer[..] == drive.sector_buffer[0..SECTOR];
    }

    /** Make sector p current: within the cluster, or by way of the best bookmark. */
    method MoveTo(p: int)
      requires Valid() && 0 <= p && p / ClusterSize() < |nodes|
      modifies this`sector, this`cluster, bookmarks, drive, drive.sector_buffer
      ensures Valid() && sector == p
      ensures LinksFollowed(old(bookmarks[..]), old(sector), p, drive.links - old(drive.links))
      ensures drive.links - old(drive.links) <= p / ClusterSize()
      ensures var from := old(sector) - old(sector) % ClusterSize();
        if p / ClusterSize() == old(sector) / ClusterSize() then bookmarks[..] == old(bookmarks[..])
        else Recorded(old(bookmarks[..]), from, old(cluster))
    {
      MoveReady(p);
      var pm, currentsector := p - p % ClusterSize(), sector - sector % ClusterSize();
      if pm == currentsector {
        sector := p;
      } else {
        MoveFar(p, pm, currentsector);
      }
    }

    /** How many links a move takes: none within a cluster, and otherwise as many as there are clusters
        from the nearest bookmark at or before the goal. */
    ghost predicate LinksFollowed(was: seq<Bookmark>, from: int, p: int, n: int)
      requires Vol().Valid()
    {
      if p / ClusterSize() == from / ClusterSize() then n == 0 else FromNearest(was, p, p - p % ClusterSize(), n)
    }

    ghost predicate FromNearest(was: seq<Bookmark>, p: int, pm: int, n: int)
      requires Vol().Valid()
    {
      exists i :: IsNearest(was, pm, i) && n == p / ClusterSize() - was[i].sector / ClusterSize()
    }

    ghost predicate IsNearest(was: seq<Bookmark>, pm: int, i: int) {
      && 0 <= i < |was| && was[i].sector <= pm
      && forall j :: 0 <= j < |was| && was[j].sector <= pm ==> was[j].sector <= was[i].sector
    }

    /** By way of the best bookmark; where the file was may be worth one, too. */
    method MoveFar(p: int, pm: int, currentsector: int)
      requires Valid() && 0 <= pm <= p < 0x7fff_ffff && p / ClusterSize() < |nodes|
      requires 0 <= currentsector < 0x7fff_ffff && currentsector % ClusterSize() == 0 && Sound(currentsector, cluster)
      modifies this`sector, this`cluster, bookmarks, drive, drive.sector_buffer
      ensures Valid() && sector == p && drive.links - old(drive.links) <= p / ClusterSize()
      ensures FromNearest(old(bookmarks[..]), p, pm, drive.links - old(drive.links))
      ensures Recorded(old(bookmarks[..]), currentsector, old(cluster))
    {
      var here := cluster;
      ghost var i := Jump(pm);
      var rest := p - sector;
      Remember(currentsector, here);
      Forward(rest);
    }

    /** On from a bookmark; no more links than from the start of the file. */
    method Forward(rest: int)
      requires Valid() && 0 <= rest && (sector + rest) / ClusterSize() < |nodes|
      modifies this`sector, this`cluster, drive, drive.sector_buffer
      ensures Valid() && sector == old(sector) + rest && drive.links - old(drive.links) <= sector / ClusterSize()
      ensures drive.links - old(drive.links) == sector / ClusterSize() - old(sector) / ClusterSize()
    {
      ClusterStart(sector, ClusterSize());
      FileNextSector(rest);
    }

    lemma MoveReady(p: int)
      requires Valid() && 0 <= p && p / ClusterSize() < |nodes|
      ensures var pm, s := p - p % ClusterSize(), sector - sector % ClusterSize();
        && 0 <= pm <= p < 0x7fff_ffff && 0 <= s < 0x7fff_ffff && s % ClusterSize() == 0 && Sound(s, cluster)
        && p / ClusterSize() >= 0
        && (pm == s <==> p / ClusterSize() == sector / ClusterSize()) && (pm == s ==> Sound(p, cluster))
    {
      SeekRange(p);
      SeekRange(sector);
      SameCluster(p, sector, ClusterSize());
    }

    lemma SeekRange(p: int)
      requires Valid() && 0 <= p && p / ClusterSize() < |nodes|
      ensures p < 0x7fff_ffff
      ensures var m := p - p % ClusterSize();
        && 0 <= m <= p && m % ClusterSize() == 0 && m / ClusterSize() == p / ClusterSize()
        && m == p / ClusterSize() * ClusterSize()
    {
      var c := ClusterSize();
      ClusterStart(p, c);
      MulLe(p / c + 1, |nodes|, c);
      assert (p / c + 1) * c == p / c * c + c;
    }

    /** To the best bookmark for the cluster at pm. There always is one, since one stays at
        sector 0; the branch that goes back to the first cluster is never taken. */
    method Jump(pm: int) returns (ghost best: nat)
      requires Valid() && 0 <= pm < 0x7fff_ffff
      modifies this`sector, this`cluster
      ensures Valid() && 0 <= sector <= pm && IsNearest(bookmarks[..], pm, best) && sector == bookmarks[best].sector
    {
      var idx := BestBookmark(pm);
      if idx >= 0 {
        sector := bookmarks[idx].sector;
        cluster := bookmarks[idx].cluster;
      } else {
        assert false;
      }
      best := idx;
    }

    /** The bookmarks after a jump away from a sector, given what they were: it is recorded in the
        place of the worst, if it is more than the threshold from the start of the file and from
        every bookmark before it. */
    ghost predicate Recorded(was: seq<Bookmark>, s: int, here: int)
      reads this, bookmarks
      requires |was| == bookmarks.Length
    {
      if s > bookmark_threshold
         && forall i :: 0 <= i < |was| && was[i].sector <= s ==> s - was[i].sector > bookmark_threshold
      then exists w :: WorstOf(was, w) && bookmarks[..] == was[w := Bookmark(s, here)]
      else bookmarks[..] == was
    }

    /** Bookmark where the file was, unless that is near the start or an existing bookmark. */
    method Remember(currentsector: int, here: int)
      requires Valid() && 0 <= currentsector < 0x7fff_ffff && currentsector % ClusterSize() == 0
      requires Sound(currentsector, here)
      modifies bookmarks
      ensures Valid() && Recorded(old(bookmarks[..]), currentsector, here)
    {
      var idx := BestBookmark(currentsector);
      if currentsector > bookmark_threshold && idx >= 0
         && currentsector - bookmarks[idx].sector > bookmark_threshold {
        idx := WorstBookmark();
        assert WorstOf(bookmarks[..], idx);
        Replace(idx, Bookmark(currentsector, here));
      }
    }

    method Replace(idx: int, b: Bookmark)
      requires Valid() && GoodMark(b) && b.sector < 0x7fff_ffff && exists from :: IsWorst(idx, from)
      modifies bookmarks
      ensures Valid() && bookmarks[..] == old(bookmarks[..])[idx := b]
    {
      ghost var from :| IsWorst(idx, from);
      WorstSparesZero(idx, from);
      ghost var z :| 0 <= z < bookmarks.Length && z != idx && bookmarks[z].sector == 0;
      bookmarks[idx] := b;
      assert bookmarks[z].sector == 0;
    }
  
    // ---------- Reading ----------

    /** The rest of the buffered sector: what a read gives first when it starts inside one. */
    method ReadHead(buffer: array<int>, count: int, ghost lag: int) returns (c: int)
      requires Valid() && Behind(lag) && cursor % SECTOR != 0 && 0 < count <= buffer.Length
      requires Vol().InFile(nodes, cursor - lag + count) && buffer != drive.sector_buffer
      modifies this`cursor, buffer
      ensures Valid() && c == (if SECTOR - old(cursor) % SECTOR > count then count else SECTOR - old(cursor) % SECTOR)
      ensures cursor == old(cursor) + c
      ensures buffer[..c] == Vol().Content(nodes, old(cursor) - lag, c)
      ensures forall i :: c <= i < buffer.Length ==> buffer[i] == old(buffer[i])
    {
      var curs := cursor % SECTOR;
      c := SECTOR - curs;
      if c > count {
        c := count;
      }
      ghost var start := cursor;
      WholeSectors(cursor - lag, lag);
      cursor := cursor + c;
      CopyHead(buffer, curs, c);
      Vol().SameSector(nodes, start - lag, c);
    }

    /** The loop that copies what is left of the buffered sector. */
    method CopyHead(buffer: array<int>, curs: int, c: int)
      requires buffer != drive.sector_buffer && 0 <= curs && 0 <= c <= buffer.Length
      requires curs + c <= drive.sector_buffer.Length
      modifies buffer
      ensures buffer[..c] == drive.sector_buffer[curs..curs + c]
      ensures forall k :: c <= k < buffer.Length ==> buffer[k] == old(buffer[k])
    {
      for i := 0 to c
        invariant buffer[..i] == drive.sector_buffer[curs..curs + i]
        invariant forall k :: c <= k < buffer.Length ==> buffer[k] == old(buffer[k])
      {
        buffer[i] := drive.sector_buffer[curs + i];
      }
    }

    /** Done bytes have been delivered, from place lo on, and the cursor is so many bytes further on. */
    ghost predicate Delivered(buffer: array<int>, lo: int, done: int, lag: int)
      reads this, bookmarks, drive, drive.sector_buffer, buffer
    {
      && Valid() && 0 <= lo && 0 <= done <= buffer.Length && cursor - lag == lo + done && lag >= 0 && lag % SECTOR == 0
      && buffer[..done] == Vol().Content(nodes, lo, done)
    }

    /** A whole sector straight into the caller's buffer; after the last one the shared buffer is
        filled too. */
    method ReadWhole(buffer: array<int>, done: int, last: bool, ghost lo: int, ghost lag: int)
      requires Delivered(buffer, lo, done, lag) && buffer != drive.sector_buffer && done + SECTOR <= buffer.Length
      requires AtSector(lo + done) && Vol().InFile(nodes, lo + done + SECTOR)
      modifies this`sector, this`cluster, this`cursor, drive, drive.sector_buffer, buffer
      ensures Delivered(buffer, lo, done + SECTOR, lag) && AtSector(lo + done + SECTOR)
      ensures forall i :: done + SECTOR <= i < buffer.Length ==> buffer[i] == old(buffer[i])
    {
      SectorInto(buffer, done, lo, lag);
      ghost var b := buffer[..];
      NextInFile();
      FileNextSector(1);
      if last {
        FileReadSector(drive.sector_buffer, 0);
      }
      assert buffer[..] == b;
      WholeSectors(lo + done, SECTOR);
    }

    /** The place is the start of the current sector. */
    ghost predicate AtSector(place: int)
      reads this
    {
      place >= 0 && place % SECTOR == 0 && sector == place / SECTOR
    }

    method SectorInto(buffer: array<int>, done: int, ghost lo: int, ghost lag: int)
      requires Delivered(buffer, lo, done, lag) && buffer != drive.sector_buffer && done + SECTOR <= buffer.Length
      requires AtSector(lo + done) && Vol().InFile(nodes, lo + done + SECTOR)
      modifies this`cursor, drive`cachedsector, buffer
      ensures Delivered(buffer, lo, done + SECTOR, lag) && sector / ClusterSize() < |nodes| - 1
      ensures forall i :: done + SECTOR <= i < buffer.Length ==> buffer[i] == old(buffer[i])
    {
      Vol().SameSector(nodes, lo + done, SECTOR);
      FileReadSector(buffer, done);
      cursor := cursor + SECTOR;
      assert buffer[..done + SECTOR] == buffer[..done] + buffer[done..done + SECTOR];
      Vol().ContentSplits(nodes, lo, done, SECTOR);
    }

    /** From inside the chain one sector on is inside it or at its end mark. */
    lemma NextInFile()
      requires Valid() && sector / ClusterSize() < |nodes| - 1
      ensures (sector + 1) / ClusterSize() < |nodes|
    {
      NextCluster(sector, ClusterSize());
      DivideOrder(sector + 1, sector + ClusterSize(), ClusterSize());
    }

    /** The first count bytes of a sector, by way of the shared buffer. */
    method ReadTail(buffer: array<int>, done: int, count: int, ghost lo: int, ghost lag: int)
      requires Delivered(buffer, lo, done, lag) && buffer != drive.sector_buffer
      requires 0 < count < SECTOR && done + count <= buffer.Length
      requires AtSector(lo + done) && Vol().InFile(nodes, lo + done + count)
      modifies this`cursor, drive`cachedsector, drive.sector_buffer, buffer
      ensures Delivered(buffer, lo, done + count, lag) && Behind(lag)
      ensures forall i :: done + count <= i < buffer.Length ==> buffer[i] == old(buffer[i])
    {
      Vol().SameSector(nodes, lo + done, count);
      FileReadSector(drive.sector_buffer, 0);
      assert drive.sector_buffer[..] == drive.sector_buffer[0..SECTOR];
      CopyTail(buffer, done, count);
      assert buffer[..done + count] == buffer[..done] + buffer[done..done + count];
      Vol().ContentSplits(nodes, lo, done, count);
      WithinSector(lo + done, count);
    }

    /** The loop that copies the tail. */
    method CopyTail(buffer: array<int>, done: int, count: int)
      requires buffer != drive.sector_buffer && 0 <= done && 0 < count <= drive.sector_buffer.Length
      requires done + count <= buffer.Length
      modifies this`cursor, buffer
      ensures cursor == old(cursor) + count
      ensures buffer[done..done + count] == drive.sector_buffer[..count]
      ensures buffer[..done] == old(buffer[..done]) && buffer[done + count..] == old(buffer[done + count..])
    {
      cursor := cursor + count;
      for i := 0 to count
        invariant cursor == old(cursor) + count
        invariant buffer[done..done + i] == drive.sector_buffer[..i]
        invariant buffer[..done] == old(buffer[..done]) && buffer[done + count..] == old(buffer[done + count..])
      {
        buffer[done + i] := drive.sector_buffer[i];
        assert buffer[done..done + i + 1] == buffer[done..done + i] + [buffer[done + i]];
      }
    }

    /** FileRead: count bytes from the cursor, or as many as the file has left, if the file is positioned;
        otherwise as many bytes from the place it has fallen behind to. It falls behind by one more
        sector when it takes just what is left of one. */
    method FileRead(buffer: array<int>, count: int, ghost lag: int) returns (result: int)
      requires Valid() && Behind(lag) && -0x8000_0000 <= count < 0x8000_0000 && cursor < WORD && 0 <= size < WORD
      requires Clamp(count, cursor, size) <= buffer.Length && buffer != drive.sector_buffer
      requires Clamp(count, cursor, size) > 0 ==> CanDeliver(cursor + Clamp(count, cursor, size))
      modifies this`sector, this`cluster, this`cursor, drive, drive.sector_buffer, buffer
      ensures Valid() && result == Clamp(count, old(cursor), size) && cursor == old(cursor) + result
      ensures buffer[..result] == Vol().Content(nodes, old(cursor) - lag, result)
      ensures forall i :: result <= i < buffer.Length ==> buffer[i] == old(buffer[i])
      ensures Behind(lag + if DrainsSector(old(cursor), result) then SECTOR else 0)
      ensures lag == 0 ==> (Positioned() <==> !DrainsSector(old(cursor), result))
    {
      var left := count;
      if Wrap(left + cursor) > size {
        left := ToInt32(size - cursor);
      }
      if left <= 0 {
        return 0;
      }
      result := left;
      Vol().InFileLess(nodes, cursor - lag + left, cursor + left);
      Deliver(buffer, left, lag);
    }

    /** The chain goes that far, and so does a 32-bit cursor. */
    ghost predicate CanDeliver(end: int)
      reads this
    {
      end < WORD && Vol().InFile(nodes, end)
    }

    /** That is the case for whatever the clamp rightly lets through of a file that its chain holds. */
    lemma ClampInFile(count: int)
      requires 0 <= cursor < WORD && 0 <= size < WORD && -0x8000_0000 <= count < 0x8000_0000
      requires Vol().InFile(nodes, size)
      ensures Clamp(count, cursor, size) == Wanted(count, cursor, size) > 0 ==>
        CanDeliver(cursor + Clamp(count, cursor, size))
    {
      if Wanted(count, cursor, size) > 0 {
        Vol().InFileLess(nodes, cursor + Wanted(count, cursor, size), size);
      }
    }

    /** The whole read, once its length is settled. */
    method Deliver(buffer: array<int>, count: int, ghost lag: int)
      requires Valid() && Behind(lag) && Vol().InFile(nodes, cursor - lag + count) && 0 < count <= buffer.Length
      requires buffer != drive.sector_buffer
      modifies this`sector, this`cluster, this`cursor, drive, drive.sector_buffer, buffer
      ensures Delivered(buffer, old(cursor) - lag, count, lag)
      ensures forall i :: count <= i < buffer.Length ==> buffer[i] == old(buffer[i])
      ensures Behind(lag + if DrainsSector(old(cursor), count) then SECTOR else 0)
    {
      ghost var lo := cursor - lag;
      WholeSectors(lo, lag);
      var c := 0;
      if cursor % SECTOR != 0 {
        c := DeliverHead(buffer, count, lag);
      }
      if c < count {
        ReadRest(buffer, c, count - c, lo, lag);
      }
    }

    /** A read that starts inside a sector: it gets the rest of it, and goes on to the next if that is
        not all that was wanted. */
    method DeliverHead(buffer: array<int>, count: int, ghost lag: int) returns (c: int)
      requires Valid() && Behind(lag) && cursor % SECTOR != 0 && 0 < count <= buffer.Length
      requires Vol().InFile(nodes, cursor - lag + count) && buffer != drive.sector_buffer
      modifies this`sector, this`cluster, this`cursor, drive, drive.sector_buffer, buffer
      ensures 0 < c <= count && Delivered(buffer, old(cursor) - lag, c, lag)
      ensures forall i :: c <= i < buffer.Length ==> buffer[i] == old(buffer[i])
      ensures if c < count then AtSector(old(cursor) - lag + c) && !DrainsSector(old(cursor), count)
        else Behind(lag + if DrainsSector(old(cursor), count) then SECTOR else 0)
    {
      ghost var lo := cursor - lag;
      HeadPlaces(cursor, lag, count);
      c := ReadHead(buffer, count, lag);
      if c < count {
        ghost var b := buffer[..];
        StepOn(lo, count);
        assert buffer[..] == b;
      }
    }

    /** On to the next sector, from the one in which a read began. */
    method StepOn(ghost lo: int, ghost count: int)
      requires Valid() && 0 <= lo && 0 < count && sector == lo / SECTOR && Vol().InFile(nodes, lo + count)
      modifies this`sector, this`cluster, drive, drive.sector_buffer
      ensures Valid() && sector == lo / SECTOR + 1
    {
      Vol().ByteInFile(nodes, lo, lo + count);
      NextInFile();
      FileNextSector(1);
    }

    /** A read up to position lo + end has left bytes to go, from the start of a sector, or is over. */
    ghost predicate Reading(buffer: array<int>, lo: int, done: int, left: int, end: int, lag: int)
      reads this, bookmarks, drive, drive.sector_buffer, buffer
    {
      && Delivered(buffer, lo, done, lag) && end <= buffer.Length && Vol().InFile(nodes, lo + end)
      && if left > 0 then done + left == end && AtSector(lo + done) else done == end && Behind(lag)
    }

    method ReadPiece(buffer: array<int>, done: int, left: int, ghost lo: int, ghost end: int, ghost lag: int)
      returns (n: int)
      requires Reading(buffer, lo, done, left, end, lag) && left > 0 && buffer != drive.sector_buffer
      modifies this`sector, this`cluster, this`cursor, drive, drive.sector_buffer, buffer
      ensures n == (if left > SECTOR - 1 then SECTOR else left) && Reading(buffer, lo, done + n, left - n, end, lag)
      ensures forall i :: end <= i < buffer.Length ==> buffer[i] == old(buffer[i])
    {
      if left > SECTOR - 1 {
        Vol().InFileLess(nodes, lo + done + SECTOR, lo + end);
        ReadWhole(buffer, done, left == SECTOR, lo, lag);
        n := SECTOR;
        WholeSectors(lo + done + SECTOR, lag);
      } else {
        ReadTail(buffer, done, left, lo, lag);
        n := left;
      }
    }

    /** The rest of a read, from the start of a sector: whole sectors, then a tail. */
    method ReadRest(buffer: array<int>, start: int, count: int, ghost lo: int, ghost lag: int)
      requires Delivered(buffer, lo, start, lag) && buffer != drive.sector_buffer && 0 < count
      requires start + count <= buffer.Length
      requires AtSector(lo + start) && Vol().InFile(nodes, lo + start + count)
      modifies this`sector, this`cluster, this`cursor, drive, drive.sector_buffer, buffer
      ensures Delivered(buffer, lo, start + count, lag) && Behind(lag)
      ensures forall i :: start + count <= i < buffer.Length ==> buffer[i] == old(buffer[i])
    {
      var done, left := start, count;
      ghost var end := start + count;
      while left > 0
        invariant Reading(buffer, lo, done, left, end, lag)
        invariant forall i :: start + count <= i < buffer.Length ==> buffer[i] == old(buffer[i])
      {
        var n := ReadPiece(buffer, done, left, lo, end, lag);
        done := done + n;
        left := left - n;
      }
    }

  }

  /** Two reads in a row: the first takes the second half of the first sector, and the second delivers
      the first half of that sector, not of the next. */
  method ReadsAgain(f: FileHandle, first: array<int>, second: array<int>)
    requires f.Valid() && f.Positioned() && f.cursor == 256 && 768 <= f.size < WORD && f.Vol().InFile(f.nodes, f.size)
    requires first.Length == second.Length == 256 && first != second
    requires first != f.drive.sector_buffer && second != f.drive.sector_buffer
    modifies f`sector, f`cluster, f`cursor, f.drive, f.drive.sector_buffer, first, second
    ensures f.Valid() && f.cursor == 768
    ensures first[..] == f.Vol().Content(f.nodes, 256, 256) && second[..] == f.Vol().Content(f.nodes, 0, 256)
  {
    f.ClampInFile(256);
    var a := f.FileRead(first, 256, 0);
    f.ClampInFile(256);
    var b := f.FileRead(second, 256, SECTOR);
    assert first[..a] == first[..] && second[..b] == second[..];
  }

  /** Whole sectors make no difference to the place in a sector. */
  lemma WholeSectors(x: int, lag: int)
    requires lag % SECTOR == 0
    ensures (x + lag) % SECTOR == x % SECTOR && (x + lag) / SECTOR == x / SECTOR + lag / SECTOR
  {
    var q := lag / SECTOR;
    assert lag == q * SECTOR;
    DivideUnique(x + lag, SECTOR, x / SECTOR + q, x % SECTOR);
  }

  lemma WithinSector(x: int, n: int)
    requires 0 <= n && x % SECTOR + n < SECTOR
    ensures (x + n) / SECTOR == x / SECTOR && (x + n) % SECTOR == x % SECTOR + n
  {
    DivideUnique(x + n, SECTOR, x / SECTOR, x % SECTOR + n);
  }

  /** Where a read from x - lag is, if that is inside a sector, when it has got what is left of it or less. */
  lemma HeadPlaces(x: int, lag: int, n: int)
    requires n > 0 && lag % SECTOR == 0 && 0 <= lag <= x && x % SECTOR != 0
    ensures var r, lo := SECTOR - x % SECTOR, x - lag;
      if n < r then (x + n - lag) / SECTOR == lo / SECTOR
      else && lag + SECTOR <= x + r && (lag + SECTOR) % SECTOR == 0 && (x + r - (lag + SECTOR)) / SECTOR == lo / SECTOR
           && (x + r) % SECTOR == 0 && (lo + r) % SECTOR == 0 && (lo + r) / SECTOR == lo / SECTOR + 1
  {
    var r, lo := SECTOR - x % SECTOR, x - lag;
    WholeSectors(lo, lag);
    WholeSectors(lag, SECTOR);
    var q, p := lo / SECTOR, x / SECTOR;
    if n < r {
      WithinSector(lo, n);
    } else {
      assert lo == q * SECTOR + lo % SECTOR && x == p * SECTOR + x % SECTOR;
      DivideUnique(q * SECTOR, SECTOR, q, 0);
      DivideUnique(q * SECTOR + SECTOR, SECTOR, q + 1, 0);
      DivideUnique(p * SECTOR + SECTOR, SECTOR, p + 1, 0);
    }
  }

  /** How many bytes FileRead delivers, in the C program's mixed signed and unsigned arithmetic. */
  function Clamp(count: int, cursor: int, size: int): (n: int)
    ensures n >= 0
  {
    var c := if Wrap(count + cursor) > size then ToInt32(size - cursor) else count;
    if c <= 0 then 0 else c
  }

  /** What a read ought to deliver. */
  function Wanted(count: int, cursor: int, size: int): int {
    if count <= 0 || cursor >= size then 0 else if count <= size - cursor then count else size - cursor
  }

  /** The clamp is right with three exceptions: a negative count that goes back beyond the start, which
      reads what is left of the file, if that is less than 2 GB; a count that goes on past 4 GB, which
      is not clamped unless it comes out past the end again; and a cursor more than 2 GB past the
      end, which makes what is left look positive. */
  lemma ClampIsRight(count: int, cursor: int, size: int)
    requires -0x8000_0000 <= count < 0x8000_0000 && 0 <= cursor < WORD && 0 <= size < WORD
    ensures Clamp(count, cursor, size) == Wanted(count, cursor, size)
       <==> && !(count + cursor < 0 && 0 < size - cursor < 0x8000_0000)
            && !(count + cursor >= WORD && count + cursor - WORD <= size)
            && !(cursor - size > 0x8000_0000 && Wrap(count + cursor) > size)
  {
  }

  /** An instance of each: the rest of 100 bytes read backwards, a read at the end of 4 GB, and one that
      starts 3 GB past the end of a file. */
  lemma ClampGoesWrong()
    ensures Clamp(-20, 10, 100) == 90 && Wanted(-20, 10, 100) == 0
    ensures Clamp(0x300, 0xFFFF_FE00, 0xFFFF_FF00) == 0x300 && Wanted(0x300, 0xFFFF_FE00, 0xFFFF_FF00) == 0x100
    ensures Clamp(1, 0xC000_0000, 0) == 0x4000_0000 && Wanted(1, 0xC000_0000, 0) == 0
  {
  }

  /** The read starts inside a sector and takes exactly the rest of it: then the file's sector
      is not moved on, and no longer the one the cursor is in. */
  predicate DrainsSector(cursor: int, n: int) {
    cursor % SECTOR != 0 && cursor % SECTOR + n == SECTOR
  }
}
