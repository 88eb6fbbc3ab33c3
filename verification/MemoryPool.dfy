/** The root memory pool (lib832soc/memorypool.c): a linked list of flagged fragments, kept
    in the free memory itself, and tagged chunks. */
module MemoryPool {
  import opened Words
  import opened Bits
  import opened Memory
  import opened FragSpec

  // Offsets within struct MemoryPool_AllocFragment and struct AllocTag
  const NEXT := 0
  const SIZE := 4
  const FLAGS := 8
  const GUARD := 0
  const GUARD2 := 12

  const GUARDWORD1 := 0x5aa5
  const GUARDWORD2 := 0xc22c

  /** The address of fragment i, 0 past the end. */
  function AddrOf(f: seq<Frag>, i: int): int {
    if 0 <= i < |f| then f[i].addr else 0
  }

  ghost predicate NodeAt(m: Mem, f: seq<Frag>, i: int)
    requires 0 <= i < |f|
  {
    && Rd(m, f[i].addr + NEXT) == AddrOf(f, i + 1)
    && Rd(m, f[i].addr + SIZE) == f[i].size && Rd(m, f[i].addr + FLAGS) == f[i].flags
  }

  /** The fragment list f is linked up in memory. */
  ghost predicate ListAt(m: Mem, f: seq<Frag>) {
    forall i :: 0 <= i < |f| ==> NodeAt(m, f, i)
  }

  ghost predicate TagAt(m: Mem, c: Frag) {
    && Rd(m, c.addr + GUARD) == GUARDWORD1 && Rd(m, c.addr + GUARD2) == GUARDWORD2
    && Rd(m, c.addr + SIZE) == c.size && Rd(m, c.addr + FLAGS) == c.flags
  }

  ghost predicate Tags(m: Mem, live: seq<Frag>) {
    forall i :: 0 <= i < |live| ==> live[i].size >= TAG && TagAt(m, live[i])
  }

  /** Different items of a good layout have headers that do not overlap. */
  lemma HeadersApart(f: seq<Frag>, i: nat, j: nat)
    requires Good(f) && i < |f| && j < |f| && i != j
    ensures f[i].addr + FRAGMENT < f[j].addr || f[j].addr + FRAGMENT < f[i].addr
  {
    if i < j { assert Apart(f[i], f[j]); } else { assert Apart(f[j], f[i]); }
  }

  lemma OneAddress(f: seq<Frag>, i: nat, j: nat)
    requires Good(f) && i < |f| && j < |f| && f[i].addr == f[j].addr
    ensures i == j
  {
    if i != j {
      HeadersApart(f, i, j);
    }
  }

  /** Only words of the fragment header at x may differ. */
  ghost predicate OnlyHeader(m: Mem, m': Mem, x: int) {
    forall a {:trigger Rd(m', a)} :: !(x <= a <= x + FLAGS) ==> Rd(m', a) == Rd(m, a)
  }

  ghost predicate SameHeader(m: Mem, m': Mem, x: int) {
    Rd(m', x + NEXT) == Rd(m, x + NEXT) && Rd(m', x + SIZE) == Rd(m, x + SIZE) && Rd(m', x + FLAGS) == Rd(m, x + FLAGS)
  }

  /** Writing one fragment's header leaves the other headers and all tags alone. */
  lemma HeaderFrame(m: Mem, m': Mem, f: seq<Frag>, live: seq<Frag>, k: nat)
    requires Good(f + live) && ListAt(m, f) && Tags(m, live) && k < |f| && OnlyHeader(m, m', f[k].addr)
    ensures Tags(m', live)
    ensures forall i :: 0 <= i < |f| && i != k ==> NodeAt(m', f, i)
  {
    var all := f + live;
    forall i | 0 <= i < |live| ensures TagAt(m', live[i]) {
      assert TagAt(m, live[i]) && all[|f| + i] == live[i] && all[k] == f[k];
      assert Apart(all[k], all[|f| + i]);
    }
    forall i | 0 <= i < |f| && i != k ensures NodeAt(m', f, i) {
      assert NodeAt(m, f, i) && all[i] == f[i] && all[k] == f[k];
      HeadersApart(all, i, k);
    }
  }

  lemma DropList(m: Mem, m': Mem, f: seq<Frag>, live: seq<Frag>, j: nat)
    requires Good(f + live) && ListAt(m, f) && Tags(m, live) && j < |f|
    requires m' == if j == 0 then m else m[f[j - 1].addr + NEXT := AddrOf(f, j + 1)]
    ensures ListAt(m', Drop(f, j)) && Tags(m', live)
  {
    var g := Drop(f, j);
    if j > 0 {
      HeaderFrame(m, m', f, live, j - 1);
      assert NodeAt(m, f, j - 1);
    }
    forall i | 0 <= i < |g| ensures NodeAt(m', g, i) {
      assert NodeAt(m, f, Was(i, j)) && (Was(i, j) != j - 1 ==> NodeAt(m', f, Was(i, j)));
    }
  }

  lemma DropGood(f: seq<Frag>, live: seq<Frag>, j: nat)
    requires Good(f + live) && j < |f|
    ensures Good(Drop(f, j) + live)
  {
    var a, b := f + live, Drop(f, j) + live;
    forall k | 0 <= k < |b| ensures b[k] == a[Was(k, j)] {
    }
    forall k, l | 0 <= k < l < |b| ensures Apart(b[k], b[l]) {
      assert Apart(a[Was(k, j)], a[Was(l, j)]);
    }
  }

  lemma DropBanked(f: seq<Frag>, seeds: seq<Frag>, j: nat)
    requires j < |f| && Banked(f, seeds)
    ensures Banked(Drop(f, j), seeds)
  {
    forall i | 0 <= i < |f| - 1 ensures Drop(f, j)[i] == f[Was(i, j)] {
    }
  }

  lemma AddrPositive(f: seq<Frag>, live: seq<Frag>)
    requires Good(f + live)
    ensures forall i :: 0 <= i < |f| ==> f[i].addr > 0
    ensures forall i :: 0 <= i < |live| ==> live[i].addr > 0
    ensures Good(f)
  {
    assert forall i :: 0 <= i < |f| ==> (f + live)[i] == f[i];
    assert forall i :: 0 <= i < |live| ==> (f + live)[|f| + i] == live[i];
    forall i, j | 0 <= i < j < |f| ensures Apart(f[i], f[j]) {
      assert Apart((f + live)[i], (f + live)[j]);
    }
  }

  /** A new size word makes fragment i longer. */
  lemma GrowList(m: Mem, f: seq<Frag>, live: seq<Frag>, i: nat, n: int)
    requires Good(f + live) && ListAt(m, f) && Tags(m, live) && i < |f|
    ensures var m' := m[f[i].addr + SIZE := f[i].size + n];
      ListAt(m', f[i := f[i].(size := f[i].size + n)]) && Tags(m', live)
  {
    var m', g := m[f[i].addr + SIZE := f[i].size + n], f[i := f[i].(size := f[i].size + n)];
    HeaderFrame(m, m', f, live, i);
    forall k | 0 <= k < |g| ensures NodeAt(m', g, k) {
      assert NodeAt(m, f, k) && (k != i ==> NodeAt(m', f, k));
    }
  }

  lemma NothingYet(m: Mem)
    ensures Good([] + []) && ListAt(m, []) && Tags(m, []) && Accounted([], [], [], 0, 0)
  {
  }

  class RootPool {
    var mem: Mem
    var fragmentlist: int
    var recordlist: int
    ghost var frags: seq<Frag>
    ghost var live: seq<Frag>   // chunks handed out, tags included
    ghost var seeds: seq<Frag>  // the banks given to the pool
    ghost var lost: int         // bytes of remainders too small to keep
    ghost var allocations: int

    /** The list and the tags are in order, and everything lies in a bank of its own kind. */
    ghost predicate Sound()
      reads this
    {
      && AllApart(seeds)
      && Banked(frags, seeds) && Banked(live, seeds)
      && Good(frags + live) && ListAt(mem, frags) && Tags(mem, live)
      && fragmentlist == AddrOf(frags, 0)
    }

    /** MemoryPool_InitRootPool: a pool that has no memory yet. */
    constructor (m: Mem)
      ensures Valid() && mem == m && frags == [] && live == [] && seeds == [] && lost == 0 && allocations == 0
    {
      mem, fragmentlist, recordlist := m, 0, 0;
      frags, live, seeds := [], [], [];
      lost, allocations := 0, 0;
      NothingYet(m);
    }

    /** removefragment: unlink fragment j. Its own words stay as they were. */
    method RemoveFragment(p: int, ghost j: nat)
      requires Sound() && j < |frags| && frags[j].addr == p
      modifies this`mem, this`fragmentlist, this`frags
      ensures Sound() && frags == Drop(old(frags), j)
      ensures SameHeader(old(mem), mem, p)
    {
      ghost var f, m := frags, mem;
      assert forall i :: 0 <= i < |f| ==> (f + live)[i] == f[i];
      DropGood(f, live, j);
      assert NodeAt(mem, f, j);
      if fragmentlist == p {
        OneAddress(f + live, 0, j);
        fragmentlist := Rd(mem, fragmentlist + NEXT);
      } else {
        assert j > 0;
        HeadersApart(f + live, j - 1, j);
        assert f[j - 1].addr + FRAGMENT < p || p + FRAGMENT < f[j - 1].addr;
        Unlink(p, j);
      }
      DropList(m, mem, f, live, j);
      DropBanked(f, seeds, j);
      frags := Drop(f, j);
    }

    method Unlink(p: int, ghost j: nat)
      requires Sound() && 0 < j < |frags| && frags[j].addr == p
      modifies this`mem
      ensures mem == old(mem)[frags[j - 1].addr + NEXT := AddrOf(frags, j + 1)]
    {
      var fragment := fragmentlist;
      ghost var f, k, m := frags, 0, mem;
      assert forall i :: 0 <= i < |f| ==> (f + live)[i] == f[i];
      while fragment != 0
        invariant fragment != 0 ==> 0 <= k < j && fragment == f[k].addr && mem == m
        invariant fragment == 0 ==> mem == m[f[j - 1].addr + NEXT := AddrOf(f, j + 1)]
        decreases j - k, fragment != 0
      {
        assert NodeAt(m, f, k) && NodeAt(m, f, j);
        if Rd(mem, fragment + NEXT) == p {
          OneAddress(f + live, k + 1, j);
          mem := mem[fragment + NEXT := Rd(mem, Rd(mem, fragment + NEXT) + NEXT)];
          fragment := 0;
        } else {
          fragment := Rd(mem, fragment + NEXT);
          k := k + 1;
        }
      }
    }
  
    /** Fragment i swallows fragment j, which starts where it ends. */
    method Swallows(p: int, q: int, ghost i: nat, ghost j: nat)
      requires Sound() && Edge(frags, i, j) && frags[i].addr == p && frags[j].addr == q
      modifies this`mem, this`fragmentlist, this`frags
      ensures Sound() && frags == Swallow(old(frags), i, j) && Rd(mem, q + NEXT) == AddrOf(old(frags), j + 1)
    {
      hide Good, Banked, Tags, AllApart;
      ghost var f, k := frags, Moved(i, j);
      AddrPositive(f, live);
      assert NodeAt(mem, f, i) && NodeAt(mem, f, j);
      RemoveFragment(q, j);
      assert frags[k] == f[i] && NodeAt(mem, frags, k);
      SwallowParts(f, live, seeds, i, j);
      Lengthen(p, q, k, f[j]);
      assert frags == Swallow(f, i, j) && fragmentlist == AddrOf(frags, 0);
    }

    /** Add fragment q's size word to p's. */
    method Lengthen(p: int, q: int, ghost k: nat, ghost x: Frag)
      requires Good(frags + live) && ListAt(mem, frags) && Tags(mem, live) && k < |frags|
      requires frags[k].addr == p && Rd(mem, q + SIZE) == x.size
      requires x.addr == q && Apart(frags[k], x) && x.size > FRAGMENT
      modifies this`mem, this`frags
      ensures frags == old(frags)[k := old(frags)[k].(size := old(frags)[k].size + x.size)]
      ensures ListAt(mem, frags) && Tags(mem, live) && SameHeader(old(mem), mem, q)
    {
      AddrPositive(frags, live);
      assert NodeAt(mem, frags, k);
      GrowList(mem, frags, live, k, x.size);
      mem := mem[p + SIZE := Rd(mem, p + SIZE) + Rd(mem, q + SIZE)];
      frags := frags[k := frags[k].(size := frags[k].size + x.size)];
    }

    /** One fragment of the scan, compared with all that follow it. The result is that fragment,
        or 0 if another has swallowed it. */
    method ScanFrom(f1: int, ghost i: nat, ghost hot: bool) returns (r: int)
      requires Sound() && i < |frags| && f1 == frags[i].addr && (hot ==> Scanning(frags, i, i + 1))
      modifies this`mem, this`fragmentlist, this`frags
      ensures Sound() && (r == 0 || r == f1) && MergedFrom(old(frags))
      ensures r != 0 ==> i < |frags| <= |old(frags)| && frags[i].addr == f1 && (hot ==> Scanning(frags, i, |frags|))
      ensures r == 0 ==> |frags| < |old(frags)| && (hot ==> OneEdge(frags))
    {
      r := f1;
      ghost var j := i + 1;
      AddrPositive(frags, live);
      assert NodeAt(mem, frags, i);
      var f2 := Rd(mem, f1 + NEXT);
      while f2 != 0
        invariant Sound() && MergedFrom(old(frags)) && (r == 0 || r == f1) && f1 != 0
        invariant r == f1 ==> Comparing(f1, f2, i, j, hot) && |frags| <= |old(frags)|
        invariant r == 0 ==> f2 == 0 && |frags| < |old(frags)| && (hot ==> OneEdge(frags))
        decreases |frags| - j, f2 != 0
      {
        r, f2, j := Compare(f1, f2, i, j, hot, old(frags));
      }
    }

    /** Two fragments compared: the first swallows the second, or the other way round, or neither. */
    method Compare(f1: int, f2: int, ghost i: nat, ghost j: nat, ghost hot: bool, ghost f0: seq<Frag>)
      returns (r: int, next: int, ghost j': nat)
      requires Sound() && MergedFrom(f0) && Comparing(f1, f2, i, j, hot) && f2 != 0 && f1 != 0
      modifies this`mem, this`fragmentlist, this`frags
      ensures Sound() && MergedFrom(f0)
      ensures |frags| - j' < |old(frags)| - j && |frags| <= |old(frags)|
      ensures if r == f1 then Comparing(f1, next, i, j', hot)
        else r == next == 0 && |frags| < |old(frags)| && (hot ==> OneEdge(frags))
    {
      ghost var f := frags;
      assert NodeAt(mem, f, i) && NodeAt(mem, f, j);
      AddrPositive(f, live);
      if f2 - f1 == Rd(mem, f1 + SIZE) && Rd(mem, f1 + FLAGS) == Rd(mem, f2 + FLAGS) {
        next := MergeOn(f1, f2, i, j, hot, f0);
        r, j' := f1, j;
      } else if f1 - f2 == Rd(mem, f2 + SIZE) && Rd(mem, f1 + FLAGS) == Rd(mem, f2 + FLAGS) {
        MergeBack(f1, f2, i, j, hot, f0);
        r, next, j' := 0, 0, j;
      } else {
        if hot { ScanOn(f, i, j); }
        r, next, j' := f1, Rd(mem, f2 + NEXT), j + 1;
      }
    }

    method MergeOn(f1: int, f2: int, ghost i: nat, ghost j: nat, ghost hot: bool, ghost f0: seq<Frag>)
      returns (next: int)
      requires Sound() && MergedFrom(f0) && Comparing(f1, f2, i, j, hot) && Edge(frags, i, j) && f2 == frags[j].addr
      modifies this`mem, this`fragmentlist, this`frags
      ensures Sound() && MergedFrom(f0) && Comparing(f1, next, i, j, hot) && |frags| < |old(frags)|
    {
      AddrPositive(frags, live);
      StillMerged(f0, frags, i, j);
      if hot { ScanForward(frags, i, j); }
      Swallows(f1, f2, i, j);
      next := Rd(mem, f2 + NEXT);
      AddrPositive(frags, live);
    }

    method MergeBack(f1: int, f2: int, ghost i: nat, ghost j: nat, ghost hot: bool, ghost f0: seq<Frag>)
      requires Sound() && MergedFrom(f0) && Comparing(f1, f2, i, j, hot) && Edge(frags, j, i) && f2 == frags[j].addr
      modifies this`mem, this`fragmentlist, this`frags
      ensures Sound() && MergedFrom(f0) && |frags| < |old(frags)| && (hot ==> OneEdge(frags))
    {
      AddrPositive(frags, live);
      StillMerged(f0, frags, j, i);
      if hot { ScanAgain(frags, i, j); }
      Swallows(f2, f1, j, i);
    }

    ghost predicate Comparing(f1: int, f2: int, i: int, j: int, hot: bool)
      reads this
    {
      && 0 <= i < j <= |frags| && frags[i].addr == f1 && f2 == AddrOf(frags, j)
      && (f2 == 0 ==> j == |frags|) && (hot ==> Scanning(frags, i, j))
    }

    /** mergefragments: ends for every list, keeps what it covers, and when only its first fragment
        can be merged with anything, leaves nothing to merge. */
    method MergeFragments()
      requires Sound()
      modifies this`mem, this`fragmentlist, this`frags
      ensures Sound() && MergedFrom(old(frags))
      ensures Star(old(frags)) ==> Merged(frags)
    {
      ghost var hot := Star(frags);
      var f1 := fragmentlist;
      ghost var i := 0;
      AddrPositive(frags, live);
      while f1 != 0
        invariant Sound() && MergedFrom(old(frags)) && 0 <= i <= |frags| && f1 == AddrOf(frags, i)
        invariant (f1 == 0 ==> i == |frags|) && (hot ==> Scanning(frags, i, i + 1))
        decreases |frags|, |frags| - i
      {
        ghost var f := frags;
        f1, i := ScanStep(f1, i, hot);
        MergedOn(old(frags), f, frags);
      }
      if hot { ScanDone(frags, i, i + 1); }
    }

    /** On to the next fragment, or back to the first if this one has been swallowed. */
    method ScanStep(f1: int, ghost i: nat, ghost hot: bool) returns (next: int, ghost i': nat)
      requires Sound() && i < |frags| && f1 == frags[i].addr && (hot ==> Scanning(frags, i, i + 1))
      modifies this`mem, this`fragmentlist, this`frags
      ensures Sound() && MergedFrom(old(frags)) && i' <= |frags| && next == AddrOf(frags, i')
        && (next == 0 ==> i' == |frags|)
      ensures hot ==> Scanning(frags, i', i' + 1)
      ensures |frags| < |old(frags)| || (|frags| == |old(frags)| && i' == i + 1)
    {
      next := ScanFrom(f1, i, hot);
      AddrPositive(frags, live);
      if next != 0 {
        assert NodeAt(mem, frags, i);
        if hot { ScanNext(frags, i); }
        next, i' := Rd(mem, next + NEXT), i + 1;
      } else {
        next, i' := fragmentlist, 0;
      }
    }

    // ---------- The pool's operations ----------

    /** Everything is accounted for, and nothing is left to merge. */
    ghost predicate Valid()
      reads this
    {
      Sound() && Accounted(frags, live, seeds, lost, allocations)
    }

    /** addfragment: a stretch clear of everything goes to the front of the list, if it is big
        enough to hold a header. */
    method AddFragment(p: int, s: int, flags: int)
      requires Sound() && p > 0 && s >= 0 && ClearOf(Frag(p, s, flags), frags + live)
      requires s > FRAGMENT ==> HasBank(Frag(p, s, flags), seeds)
      modifies this`mem, this`fragmentlist, this`frags
      ensures Sound() && frags == Keep(p, s, flags) + old(frags)
      ensures OnlyIn(old(mem), mem, Frag(p, s, flags))
    {
      hide Good, ListAt, Tags, AllApart, ClearOf;
      if s > FRAGMENT {
        ghost var x, f := Frag(p, s, flags), frags;
        AddGood(x, f, live);
        AddrPositive(f, live);
        RegionFrame(mem, mem[p + NEXT := fragmentlist][p + SIZE := s][p + FLAGS := flags], f, live, x);
        mem := mem[p + NEXT := fragmentlist];
        mem := mem[p + SIZE := s];
        mem := mem[p + FLAGS := flags];
        fragmentlist := p;
        frags := [x] + f;
        AddList(mem, x, f);
      } else {
        assert [] + frags == frags;
      }
    }

    /** MemoryPool_SeedMemory: a bank of memory of some kind, less the record at its start. */
    method SeedMemory(p: int, size: int, flags: int)
      requires Valid() && p > 0 && size >= 8 && ClearOf(Frag(p, size, flags), seeds)
      modifies this
      ensures Valid() && seeds == old(seeds) + [Frag(p, size, flags)] && live == old(live)
      ensures frags == Keep(p + 8, size - 8, flags) + old(frags) && allocations == old(allocations)
    {
      hide Good, Banked, Merged, Room, Total, ClearOf, ListAt, Tags, AllApart;
      SeedAccounts(frags, live, seeds, lost, allocations, p, size, flags);
      SeedBank(p, size, flags);
      lost := lost + if size - RECORD > FRAGMENT then 0 else size - RECORD;
    }

    method SeedBank(p: int, size: int, flags: int)
      requires Sound() && p > 0 && size >= RECORD && ClearOf(Frag(p, size, flags), seeds)
      modifies this`mem, this`fragmentlist, this`recordlist, this`frags, this`seeds
      ensures Sound() && seeds == old(seeds) + [Frag(p, size, flags)]
      ensures frags == Keep(p + RECORD, size - RECORD, flags) + old(frags)
    {
      SeedFits(frags, live, seeds, p, size, flags);
      AddFreeRecord(p, size, flags);
      AddFragment(p + RECORD, size - RECORD, flags);
    }

    /** addfreerecord: the record at the start of the bank joins the list of records. */
    method AddFreeRecord(p: int, size: int, ghost flags: int)
      requires Sound() && size >= RECORD && ClearOf(Frag(p, size, flags), seeds)
      modifies this`mem, this`recordlist, this`seeds
      ensures Sound() && seeds == old(seeds) + [Frag(p, size, flags)]
      ensures recordlist == p && Rd(mem, p + NEXT) == old(recordlist) && Rd(mem, p + SIZE) == size
    {
      ghost var bank := Frag(p, size, flags);
      SeedClear(frags, live, seeds, bank);
      RegionFrame(mem, mem[p + NEXT := recordlist][p + SIZE := size], frags, live, bank);
      mem := mem[p + NEXT := recordlist];
      mem := mem[p + SIZE := size];
      recordlist := p;
      SeedApart(seeds, bank);
      BankedMore(frags, seeds, bank);
      BankedMore(live, seeds, bank);
      seeds := seeds + [bank];
    }

    /** The test made on each fragment. */
    function HeaderFits(fragment: int, size: int, flags: int, flagmask: int, ghost j: nat): (b: bool)
      requires j < |frags| && frags[j].addr == fragment && NodeAt(mem, frags, j)
      reads this
      ensures b <==> Fits(frags[j], size, flags, flagmask)
    {
      MatchesBits(frags[j].flags, flags, flagmask);
      Rd(mem, fragment + SIZE) >= size && Matches(Rd(mem, fragment + FLAGS), flags, flagmask)
    }

    /** The first fragment of the list that will do, 0 if there is none. */
    method FindFragment(size: int, flags: int, flagmask: int) returns (fragment: int, ghost j: nat)
      requires Sound()
      ensures j <= |frags| && fragment == AddrOf(frags, j) && (fragment == 0 <==> j == |frags|)
      ensures forall i :: 0 <= i < j ==> !Fits(frags[i], size, flags, flagmask)
      ensures j < |frags| ==> Fits(frags[j], size, flags, flagmask)
    {
      AddrPositive(frags, live);
      fragment := fragmentlist;
      j := 0;
      while fragment != 0
        invariant 0 <= j <= |frags| && fragment == AddrOf(frags, j) && (fragment == 0 <==> j == |frags|)
        invariant forall i :: 0 <= i < j ==> !Fits(frags[i], size, flags, flagmask)
        decreases |frags| - j
      {
        assert NodeAt(mem, frags, j);
        if HeaderFits(fragment, size, flags, flagmask, j) {
          return;
        }
        fragment := Rd(mem, fragment + NEXT);
        j := j + 1;
      }
    }

    /** Cut size bytes off the front of fragment j, and keep the rest if it is worth keeping. */
    method Cut(fragment: int, size: int, ghost j: nat) returns (fragflags: int)
      requires Sound() && j < |frags| && frags[j].addr == fragment && TAG <= size <= frags[j].size
      modifies this`mem, this`fragmentlist, this`frags
      ensures Sound() && fragflags == old(frags)[j].flags
      ensures frags == Keep(fragment + size, old(frags)[j].size - size, fragflags) + Drop(old(frags), j)
      ensures ClearOf(Frag(fragment, size, fragflags), frags + live)
    {
      ghost var f, x := frags, frags[j];
      assert NodeAt(mem, f, j);
      CutClear(f, live, seeds, j, size);
      RemoveFragment(fragment, j);
      AddFragment(fragment + size, Rd(mem, fragment + SIZE) - size, Rd(mem, fragment + FLAGS));
      fragflags := Rd(mem, fragment + FLAGS);
    }

    /** AddAllocTag: the chunk at p is now in use. */
    method AddAllocTag(p: int, size: int, flags: int)
      requires Sound() && p > 0 && size >= TAG && ClearOf(Frag(p, size, flags), frags + live)
      requires HasBank(Frag(p, size, flags), seeds)
      modifies this`mem, this`live
      ensures Sound() && live == old(live) + [Frag(p, size, flags)]
    {
      hide Good, ListAt, ClearOf, AllApart;
      ghost var c, m := Frag(p, size, flags), mem;
      mem := mem[p + GUARD := GUARDWORD1];
      mem := mem[p + SIZE := size];
      mem := mem[p + FLAGS := flags];
      mem := mem[p + GUARD2 := GUARDWORD2];
      RegionFrame(m, mem, frags, live, c);
      AddLive(frags, live, c);
      live := live + [c];
    }

    /** AllocUnmasked on the root pool: first fit among the fragments of a wanted kind. */
    method Alloc(request: int, flags: int, flagmask: int) returns (p: int)
      requires Valid() && 0 <= request && request + TAG < 0x8000_0000
      modifies this
      ensures Valid() && seeds == old(seeds)
      ensures p == 0 <==> forall i :: 0 <= i < |old(frags)| ==> !Fits(old(frags)[i], request + 16, flags, flagmask)
      ensures p == 0 ==> frags == old(frags) && live == old(live) && lost == old(lost)
      ensures p == 0 ==> allocations == old(allocations)
      ensures p != 0 ==> allocations == old(allocations) + 1
      ensures p != 0 ==> exists j :: Granted(old(frags), old(live), frags, live, j, p, request, flags, flagmask)
    {
      var size := request + TAG;
      var fragment;
      ghost var j;
      fragment, j := FindFragment(size, flags, flagmask);
      AddrPositive(frags, live);
      p := fragment;
      if p != 0 {
        p := Grant(fragment, request, flags, flagmask, j);
      }
    }

    /** The chunk is cut from fragment j. */
    method Grant(fragment: int, request: int, flags: int, flagmask: int, ghost j: nat) returns (p: int)
      requires Valid() && 0 <= request && Serves(frags, j, fragment + TAG, request, flags, flagmask)
      modifies this
      ensures Valid() && seeds == old(seeds) && allocations == old(allocations) + 1 && p != 0
      ensures Granted(old(frags), old(live), frags, live, j, p, request, flags, flagmask)
    {
      AddrPositive(frags, live);
      TakeCounted(fragment, request + TAG, j);
      p := fragment + TAG;
    }

    method TakeCounted(fragment: int, size: int, ghost j: nat)
      requires Valid() && j < |frags| && frags[j].addr == fragment && TAG <= size <= frags[j].size
      modifies this
      ensures Valid() && seeds == old(seeds) && allocations == old(allocations) + 1
      ensures live == old(live) + [Frag(fragment, size, old(frags)[j].flags)]
      ensures frags == Keep(fragment + size, old(frags)[j].size - size, old(frags)[j].flags) + Drop(old(frags), j)
    {
      ghost var rest := frags[j].size - size;
      AllocAccounts(frags, live, seeds, lost, allocations, j, size);
      Take(fragment, size, j);
      lost := lost + if rest > FRAGMENT then 0 else rest;
      allocations := allocations + 1;
    }

    /** What an owner does with a chunk: write any word of it past the tag. */
    method Store(p: int, offset: int, v: int, ghost k: nat)
      requires Valid() && k < |live| && live[k].addr + TAG == p
      requires 0 <= offset && offset + 4 <= live[k].size - TAG
      modifies this`mem
      ensures Valid() && mem == old(mem)[p + offset := v]
    {
      PayloadFrame(mem, frags, live, k, p + offset, v);
      mem := mem[p + offset := v];
    }

    /** The first size bytes of fragment j become a chunk in use. */
    method Take(fragment: int, size: int, ghost j: nat)
      requires Sound() && j < |frags| && frags[j].addr == fragment && TAG <= size <= frags[j].size
      modifies this`mem, this`fragmentlist, this`frags, this`live
      ensures Sound() && live == old(live) + [Frag(fragment, size, old(frags)[j].flags)]
      ensures frags == Keep(fragment + size, old(frags)[j].size - size, old(frags)[j].flags) + Drop(old(frags), j)
    {
      AddrPositive(frags, live);
      ChunkBank(frags, seeds, j, size);
      var fragflags := Cut(fragment, size, j);
      AddAllocTag(fragment, size, fragflags);
    }

    /** Free: the chunk goes back to the front of the list, of the kind it came from, and is
        merged with its neighbours. */
    method Free(p: int, ghost k: nat)
      requires Valid() && (p != 0 ==> k < |live| && live[k].addr + TAG == p)
      modifies this
      ensures Valid() && seeds == old(seeds) && lost == old(lost) && allocations == old(allocations)
      ensures p == 0 ==> live == old(live) && SameCover(old(frags), frags)
      ensures p != 0 ==> live == Drop(old(live), k) && SameCover([old(live)[k]] + old(frags), frags)
    {
      AddrPositive(frags, live);
      if p != 0 {
        FreeAccounts(frags, live, seeds, lost, allocations, k);
        Untag(p - TAG, k);
      }
      ghost var f := frags;
      MergeFragments();
      assert Merged(frags) && Total(frags) == Total(f);
    }

    method Untag(at: int, ghost k: nat)
      requires Sound() && k < |live| && live[k].addr == at && at > 0
      modifies this`mem, this`fragmentlist, this`frags, this`live
      ensures Sound() && frags == [old(live)[k]] + old(frags) && live == Drop(old(live), k)
    {
      ghost var c, m := live[k], mem;
      assert TagAt(mem, c);
      LiveClear(frags, live, seeds, k);
      DropTags(mem, live, k);
      live := Drop(live, k);
      mem := mem[at + GUARD2 := 0xffff];
      mem := mem[at + GUARD := 0xffff];
      RegionFrame(m, mem, frags, live, c);
      AddFragment(at, Rd(mem, at + SIZE), Rd(mem, at + FLAGS));
    }

    /** Merging has only joined fragments that touch. */
    ghost predicate MergedFrom(f: seq<Frag>)
      reads this
    {
      SameCover(f, frags) && Total(frags) == Total(f)
    }
  }

  /** Nothing is left to merge, and every byte of the banks is free, handed out, or lost; at most
      a header's worth is lost at a time. */
  ghost predicate Accounted(f: seq<Frag>, live: seq<Frag>, seeds: seq<Frag>, lost: int, allocations: int) {
    && Merged(f) && Total(f) + Total(live) + lost == Room(seeds)
    && 0 <= lost <= 12 * (allocations + |seeds|)
  }

  /** What can be kept of a stretch of memory: all or nothing. */
  function Keep(p: int, s: int, flags: int): seq<Frag> {
    if s > 12 then [Frag(p, s, flags)] else []
  }

  lemma KeepTotal(p: int, s: int, flags: int, f: seq<Frag>)
    ensures Total(Keep(p, s, flags) + f) == Total(f) + if s > FRAGMENT then s else 0
  {
    TotalConcat(Keep(p, s, flags), f);
    assert Keep(p, s, flags) != [] ==> Keep(p, s, flags)[1..] == [];
  }

  ghost predicate ClearOf(x: Frag, f: seq<Frag>) {
    forall i :: 0 <= i < |f| ==> Apart(x, f[i])
  }

  /** Bytes the banks have to give. */
  function Room(seeds: seq<Frag>): int {
    if seeds == [] then 0 else Room(seeds[..|seeds| - 1]) + seeds[|seeds| - 1].size - 8
  }

  lemma SeedRoom(seeds: seq<Frag>, x: Frag)
    ensures Room(seeds + [x]) == Room(seeds) + x.size - RECORD
  {
    assert (seeds + [x])[..|seeds|] == seeds;
  }

  /** Only words inside x may differ. */
  ghost predicate OnlyIn(m: Mem, m': Mem, x: Frag) {
    forall a {:trigger Rd(m', a)} :: !(x.addr <= a < x.addr + x.size) ==> Rd(m', a) == Rd(m, a)
  }

  /** Writing memory that is clear of every fragment and chunk harms neither list nor tags. */
  lemma RegionFrame(m: Mem, m': Mem, f: seq<Frag>, live: seq<Frag>, x: Frag)
    requires Good(f + live) && ListAt(m, f) && Tags(m, live) && ClearOf(x, f + live) && OnlyIn(m, m', x)
    ensures ListAt(m', f) && Tags(m', live)
  {
    var all := f + live;
    forall i | 0 <= i < |live| ensures live[i].size >= TAG && TagAt(m', live[i]) {
      assert TagAt(m, live[i]) && all[|f| + i] == live[i] && Apart(x, all[|f| + i]);
    }
    forall i | 0 <= i < |f| ensures NodeAt(m', f, i) {
      assert NodeAt(m, f, i) && all[i] == f[i] && Apart(x, all[i]);
    }
  }

  /** Writing a word of a chunk past its tag does neither. */
  lemma PayloadFrame(m: Mem, f: seq<Frag>, live: seq<Frag>, k: nat, a: int, v: int)
    requires Good(f + live) && ListAt(m, f) && Tags(m, live) && k < |live|
    requires live[k].addr + TAG <= a < live[k].addr + live[k].size
    ensures var m' := m[a := v]; ListAt(m', f) && Tags(m', live)
  {
    var m', all, n := m[a := v], f + live, |f| + k;
    assert all[n] == live[k];
    forall i | 0 <= i < |live| ensures live[i].size >= TAG && TagAt(m', live[i]) {
      assert TagAt(m, live[i]) && all[|f| + i] == live[i];
      if i < k { assert Apart(all[|f| + i], all[n]); } else if k < i { assert Apart(all[n], all[|f| + i]); }
    }
    forall i | 0 <= i < |f| ensures NodeAt(m', f, i) {
      assert NodeAt(m, f, i) && all[i] == f[i] && Apart(all[i], all[n]);
    }
  }

  lemma AddGood(x: Frag, f: seq<Frag>, live: seq<Frag>)
    requires Good(f + live) && ClearOf(x, f + live) && x.addr > 0 && x.size > FRAGMENT
    ensures Good([x] + f + live)
  {
    var a, b := f + live, [x] + f + live;
    assert b == [x] + a;
    forall i, j | 0 <= i < j < |b| ensures Apart(b[i], b[j]) {
      assert b[j] == a[j - 1] && (i > 0 ==> b[i] == a[i - 1] && Apart(a[i - 1], a[j - 1]));
    }
  }

  lemma AddList(m: Mem, x: Frag, f: seq<Frag>)
    requires ListAt(m, f) && Rd(m, x.addr + NEXT) == AddrOf(f, 0)
    requires Rd(m, x.addr + SIZE) == x.size && Rd(m, x.addr + FLAGS) == x.flags
    ensures ListAt(m, [x] + f)
  {
    var g := [x] + f;
    forall i | 0 <= i < |g| ensures NodeAt(m, g, i) {
      if i > 0 {
        assert NodeAt(m, f, i - 1);
      }
    }
  }

  /** A new bank is clear of all that lies in the old ones. */
  lemma SeedClear(f: seq<Frag>, live: seq<Frag>, seeds: seq<Frag>, bank: Frag)
    requires Banked(f, seeds) && Banked(live, seeds) && ClearOf(bank, seeds)
    ensures ClearOf(bank, f + live)
    ensures bank.size >= RECORD ==> ClearOf(Frag(bank.addr + RECORD, bank.size - RECORD, bank.flags), f + live)
  {
    forall i | 0 <= i < |f + live| ensures Apart(bank, (f + live)[i]) {
      if i < |f| {
        assert HasBank(f[i], seeds);
        var k :| 0 <= k < |seeds| && InBank(f[i], seeds[k]);
        assert Apart(bank, seeds[k]);
      } else {
        assert HasBank(live[i - |f|], seeds);
        var k :| 0 <= k < |seeds| && InBank(live[i - |f|], seeds[k]);
        assert Apart(bank, seeds[k]);
      }
    }
  }

  lemma SeedApart(seeds: seq<Frag>, bank: Frag)
    requires ClearOf(bank, seeds) && AllApart(seeds)
    ensures AllApart(seeds + [bank])
  {
  }

  /** The record before a new bank's fragment, and the ones before all others, keep it from
      touching any of them. */
  lemma SeedFits(f: seq<Frag>, live: seq<Frag>, seeds: seq<Frag>, p: int, size: int, flags: int)
    requires Banked(f, seeds) && Banked(live, seeds) && ClearOf(Frag(p, size, flags), seeds) && size >= RECORD
    ensures ClearOf(Frag(p + RECORD, size - RECORD, flags), f + live)
    ensures HasBank(Frag(p + RECORD, size - RECORD, flags), seeds + [Frag(p, size, flags)])
  {
    var bank, x := Frag(p, size, flags), Frag(p + RECORD, size - RECORD, flags);
    SeedClear(f, live, seeds, bank);
    assert (seeds + [bank])[|seeds|] == bank && InBank(x, bank);
  }

  lemma SeedAccounts(f: seq<Frag>, live: seq<Frag>, seeds: seq<Frag>, lost: int, allocations: int,
                     p: int, size: int, flags: int)
    requires Good(f + live) && Banked(f, seeds) && Accounted(f, live, seeds, lost, allocations)
    requires ClearOf(Frag(p, size, flags), seeds) && size >= RECORD
    ensures var s := size - RECORD;
      Accounted(Keep(p + RECORD, s, flags) + f, live, seeds + [Frag(p, size, flags)],
                lost + (if s > FRAGMENT then 0 else s), allocations)
  {
    var bank, x := Frag(p, size, flags), Frag(p + RECORD, size - RECORD, flags);
    AddrPositive(f, live);
    SeedMerged(x, f, bank, seeds);
    SeedRoom(seeds, bank);
    KeepTotal(p + RECORD, size - RECORD, flags, f);
  }

  lemma SeedMerged(x: Frag, f: seq<Frag>, bank: Frag, seeds: seq<Frag>)
    requires Merged(f) && Banked(f, seeds) && ClearOf(bank, seeds) && bank.size >= RECORD
    requires x == Frag(bank.addr + RECORD, bank.size - RECORD, bank.flags)
    requires forall i :: 0 <= i < |f| ==> f[i].size > 0
    ensures Merged(Keep(x.addr, x.size, x.flags) + f)
  {
    var g := Keep(x.addr, x.size, x.flags) + f;
    if x.size > FRAGMENT {
      forall a, b ensures !Edge(g, a, b) {
        assert !Edge(f, a - 1, b - 1);
        if a == 0 && 0 < b < |g| {
          assert HasBank(f[b - 1], seeds);
          var k :| 0 <= k < |seeds| && InBank(f[b - 1], seeds[k]);
          assert Apart(bank, seeds[k]);
        } else if b == 0 && 0 < a < |g| {
          assert HasBank(f[a - 1], seeds);
          var k :| 0 <= k < |seeds| && InBank(f[a - 1], seeds[k]);
          assert Apart(bank, seeds[k]);
        }
      }
    } else {
      assert g == f;
    }
  }

  lemma BankedMore(f: seq<Frag>, seeds: seq<Frag>, bank: Frag)
    requires Banked(f, seeds)
    ensures Banked(f, seeds + [bank])
  {
    forall i | 0 <= i < |f| ensures HasBank(f[i], seeds + [bank]) {
      assert HasBank(f[i], seeds);
      var k :| 0 <= k < |seeds| && InBank(f[i], seeds[k]);
      assert InBank(f[i], (seeds + [bank])[k]);
    }
  }

  // ---------- Allocation ----------

  predicate Matches(a: int, b: int, mask: int) {
    And(Xor(Wrap(a), Wrap(b)), Wrap(mask)) == 0
  }

  /** In every bit that the mask has, both words are the same. */
  ghost predicate SameKind(a: int, b: int, mask: int) {
    forall i :: 0 <= i < 32 && Bit(Wrap(mask), i) == 1 ==> Bit(Wrap(a), i) == Bit(Wrap(b), i)
  }

  /** That is what the test on the flags says. */
  lemma MatchesBits(a: int, b: int, mask: int)
    ensures Matches(a, b, mask) <==> SameKind(a, b, mask)
  {
    hide And, Xor, Bit;
    var x, m := Xor(Wrap(a), Wrap(b)), Wrap(mask);
    forall i: nat ensures Bit(And(x, m), i) == 1 <==> Bit(m, i) == 1 && Bit(Wrap(a), i) != Bit(Wrap(b), i) {
      XorBits(Wrap(a), Wrap(b), i);
      AndBits(x, m, i);
    }
    if SameKind(a, b, mask) {
      AndSmall(x, m);
      WordBits();
      forall i | 0 <= i < 32 ensures Bit(And(x, m), i) == 0 {
        BitIs(And(x, m), i);
      }
      ZeroBits(And(x, m), 32);
    }
    if Matches(a, b, mask) {
      forall i | 0 <= i < 32 && Bit(m, i) == 1 ensures Bit(Wrap(a), i) == Bit(Wrap(b), i) {
        NoBits(i);
      }
    }
  }

  /** So no mask asks for nothing, and a full one for just these flags. */
  lemma MasksAtTheEnds(a: int, b: int)
    ensures Matches(a, b, 0)
    ensures Matches(a, b, WORD - 1) <==> Wrap(a) == Wrap(b)
  {
    hide Matches, Bit;
    MatchesBits(a, b, 0);
    MatchesBits(a, b, WORD - 1);
    forall i | 0 <= i < 32 ensures Bit(WORD - 1, i) == 1 && Bit(0, i) == 0 {
      OneBits(i, 32);
      WordBits();
      NoBits(i);
    }
    if SameKind(a, b, WORD - 1) {
      WordBits();
      SameBits(Wrap(a), Wrap(b), 32);
    }
  }

  /** Big enough, and of a wanted kind. */
  ghost predicate Fits(x: Frag, size: int, flags: int, flagmask: int) {
    x.size >= size && SameKind(x.flags, flags, flagmask)
  }

  /** p is the payload cut from fragment j, the first that fits. */
  ghost predicate Serves(f: seq<Frag>, j: int, p: int, request: int, flags: int, flagmask: int) {
    && 0 <= j < |f| && f[j].addr + 16 == p && Fits(f[j], request + 16, flags, flagmask)
    && forall i :: 0 <= i < j ==> !Fits(f[i], request + 16, flags, flagmask)
  }

  /** The chunk is cut from the front of the first fragment that will do, and of its kind; what is
      left of that fragment stays free if it is worth keeping. */
  ghost predicate Granted(f: seq<Frag>, live: seq<Frag>, f': seq<Frag>, live': seq<Frag>, j: int, p: int,
                          request: int, flags: int, flagmask: int) {
    && Serves(f, j, p, request, flags, flagmask)
    && live' == live + [Frag(p - 16, request + 16, f[j].flags)]
    && f' == Keep(p + request, f[j].size - request - 16, f[j].flags) + Drop(f, j)
  }

  /** A fragment taken off the list, or any part of it, is clear of all that remains. */
  lemma CutClear(f: seq<Frag>, live: seq<Frag>, seeds: seq<Frag>, j: nat, size: int)
    requires Good(f + live) && Banked(f, seeds) && j < |f| && TAG <= size <= f[j].size
    ensures var x, g := f[j], Drop(f, j); var rest := Frag(x.addr + size, x.size - size, x.flags);
      && rest.addr > 0 && ClearOf(rest, g + live) && HasBank(rest, seeds)
      && ClearOf(Frag(x.addr, size, x.flags), Keep(rest.addr, rest.size, rest.flags) + g + live)
  {
    var x, g := f[j], Drop(f, j);
    var a, b := f + live, g + live;
    assert a[j] == x;
    forall k | 0 <= k < |b| ensures Apart(x, b[k]) {
      assert b[k] == a[Was(k, j)];
      if j < Was(k, j) { assert Apart(a[j], a[Was(k, j)]); } else { assert Apart(a[Was(k, j)], a[j]); }
    }
    var rest := Frag(x.addr + size, x.size - size, x.flags);
    var all := Keep(rest.addr, rest.size, rest.flags) + g + live;
    assert all == Keep(rest.addr, rest.size, rest.flags) + b;
    assert HasBank(x, seeds);
    var s :| 0 <= s < |seeds| && InBank(x, seeds[s]);
    assert InBank(rest, seeds[s]);
  }

  lemma ChunkBank(f: seq<Frag>, seeds: seq<Frag>, j: nat, size: int)
    requires Banked(f, seeds) && j < |f| && 0 <= size <= f[j].size
    ensures HasBank(Frag(f[j].addr, size, f[j].flags), seeds)
  {
    assert HasBank(f[j], seeds);
    var s :| 0 <= s < |seeds| && InBank(f[j], seeds[s]);
    assert InBank(Frag(f[j].addr, size, f[j].flags), seeds[s]);
  }

  lemma AddLive(f: seq<Frag>, live: seq<Frag>, c: Frag)
    requires Good(f + live) && ClearOf(c, f + live) && c.addr > 0 && c.size > FRAGMENT
    ensures Good(f + (live + [c]))
  {
    var a, b := f + live, f + (live + [c]);
    assert b == a + [c];
  }

  lemma LiveClear(f: seq<Frag>, live: seq<Frag>, seeds: seq<Frag>, k: nat)
    requires Good(f + live) && Banked(live, seeds) && k < |live|
    ensures Good(f + Drop(live, k)) && ClearOf(live[k], f + Drop(live, k)) && HasBank(live[k], seeds)
    ensures Banked(Drop(live, k), seeds)
  {
    var a, b, n := f + live, f + Drop(live, k), |f| + k;
    DropBanked(live, seeds, k);
    forall i | 0 <= i < |b| ensures b[i] == a[Was(i, n)] {
    }
    forall i, j | 0 <= i < j < |b| ensures Apart(b[i], b[j]) {
      assert Apart(a[Was(i, n)], a[Was(j, n)]);
    }
    forall i | 0 <= i < |b| ensures Apart(live[k], b[i]) {
      assert a[n] == live[k];
      if n < Was(i, n) { assert Apart(a[n], a[Was(i, n)]); } else { assert Apart(a[Was(i, n)], a[n]); }
    }
  }

  lemma DropTags(m: Mem, live: seq<Frag>, k: nat)
    requires Tags(m, live) && k < |live|
    ensures Tags(m, Drop(live, k))
  {
    forall i | 0 <= i < |live| - 1 ensures Drop(live, k)[i].size >= TAG && TagAt(m, Drop(live, k)[i]) {
      assert Drop(live, k)[i] == live[Was(i, k)] && TagAt(m, live[Was(i, k)]);
    }
  }

  lemma AllocAccounts(f: seq<Frag>, live: seq<Frag>, seeds: seq<Frag>, lost: int, allocations: int, j: nat, size: int)
    requires Good(f + live) && Accounted(f, live, seeds, lost, allocations) && j < |f| && TAG <= size <= f[j].size
    ensures var x := f[j]; var n := x.size - size;
      Accounted(Keep(x.addr + size, n, x.flags) + Drop(f, j), live + [Frag(x.addr, size, x.flags)], seeds,
                lost + (if n > FRAGMENT then 0 else n), allocations + 1)
  {
    var x, c := f[j], Frag(f[j].addr, size, f[j].flags);
    KeepTotal(x.addr + size, x.size - size, x.flags, Drop(f, j));
    TotalDrop(f, j);
    TotalConcat(live, [c]);
    assert [c][1..] == [];
    AddrPositive(f, live);
    CutMerged(f, j, size);
  }

  /** What is left of a fragment ends where the fragment did, and starts where nothing ends. */
  lemma CutMerged(f: seq<Frag>, j: nat, size: int)
    requires Good(f) && Merged(f) && j < |f| && TAG <= size <= f[j].size
    ensures Merged(Keep(f[j].addr + size, f[j].size - size, f[j].flags) + Drop(f, j))
  {
    var k := Keep(f[j].addr + size, f[j].size - size, f[j].flags);
    var g := k + Drop(f, j);
    forall a, b ensures !Edge(g, a, b) {
      var u := if a < |k| then j else Was(a - |k|, j);
      var v := if b < |k| then j else Was(b - |k|, j);
      assert !Edge(f, u, v);
      if 0 <= u < |f| {
        Disjoint(f, u, j);
      }
    }
  }

  lemma FreeAccounts(f: seq<Frag>, live: seq<Frag>, seeds: seq<Frag>, lost: int, allocations: int, k: nat)
    requires Accounted(f, live, seeds, lost, allocations) && k < |live|
    ensures Star([live[k]] + f) && Total([live[k]] + f) + Total(Drop(live, k)) + lost == Room(seeds)
  {
    var g := [live[k]] + f;
    TotalDrop(live, k);
    assert g[1..] == f;
    forall a, b | Edge(g, a, b) ensures a == 0 || b == 0 {
      assert !Edge(f, a - 1, b - 1);
    }
  }

  lemma MergedOn(f: seq<Frag>, g: seq<Frag>, h: seq<Frag>)
    requires SameCover(f, g) && SameCover(g, h)
    ensures SameCover(f, h)
  {
  }

  lemma SwallowParts(f: seq<Frag>, live: seq<Frag>, seeds: seq<Frag>, i: nat, j: nat)
    requires Good(f + live) && Edge(f, i, j) && Banked(f, seeds)
    requires AllApart(seeds)
    ensures Good(Swallow(f, i, j) + live) && Banked(Swallow(f, i, j), seeds)
    ensures Swallow(f, i, j) == Drop(f, j)[Moved(i, j) := f[i].(size := f[i].size + f[j].size)]
  {
    SwallowBeside(f, live, i, j);
    SwallowBanked(f, seeds, i, j);
  }

  lemma StillMerged(f0: seq<Frag>, f: seq<Frag>, i: nat, j: nat)
    requires Good(f) && Edge(f, i, j) && SameCover(f0, f) && Total(f) == Total(f0)
    ensures SameCover(f0, Swallow(f, i, j)) && Total(Swallow(f, i, j)) == Total(f0)
  {
    SwallowCovers(f, i, j);
    SwallowTotal(f, i, j);
  }
}
