/** The directory browser: ScanDirectory, one method per mode (Lib/fat.c:500-1051). */
module DirBrowser {
  import opened DirSpec
  import opened DirTable

  class Browser {
    const table: Table  // DirEntry, sort_table
    const temp: Table   // t_DirEntry, t_sort_table
    var nDirEntries: int
    var iSelectedEntry: int

    ghost const Repr: set<object> := {this, table.entries, table.order, temp.entries, temp.order}

    predicate Apart() {
      table.entries != temp.entries && table.order != temp.order
    }

    ghost predicate Valid()
      reads Repr
    {
      && table.Valid(MAXDIRENTRIES) && temp.Shape() && 0 <= nDirEntries <= MAXDIRENTRIES
      && Apart()
      && (nDirEntries == 1 ==> forall i :: 0 <= i < MAXDIRENTRIES ==> table.order[i] == i)
    }

    constructor ()
      ensures Valid() && nDirEntries == 0 && iSelectedEntry == 0 && fresh(Repr)
    {
      table := new Table();
      temp := new Table();
      nDirEntries := 0;
      iSelectedEntry := 0;
      new;
      table.Reset();
    }

    /** The entries on the screen, in order. */
    ghost function Screen(): seq<Entry>
      requires Valid()
      reads Repr
    {
      table.View(nDirEntries)
    }

    /** The screen shows state s of the sorted directory d. */
    ghost predicate At(d: seq<Entry>, s: State)
      reads Repr
    {
      Valid() && nDirEntries == s.len && iSelectedEntry == s.sel && Shows(d, s, Screen())
    }

    /** The unused indices still name the unused slots. On a screen that SCAN_INIT_FIRST has left short,
        SCAN_PREV and SCAN_PREV_PAGE change that. */
    ghost predicate Tidy()
      reads Repr
    {
      && 0 <= nDirEntries <= MAXDIRENTRIES && table.Valid(nDirEntries)
      && (forall j :: nDirEntries <= j < MAXDIRENTRIES ==> table.order[j] == j)
    }

    /** A table being filled. */
    ghost predicate Filling(s: set<Entry>)
      reads Repr
    {
      Tidy() && IsBest(table.View(nDirEntries), s, true)
    }

    /** One accepted entry of a filling scan. */
    method Gather(e: Entry, ghost l: seq<Entry>)
      requires Filling(Elems(l)) && Kept(l) && forall x :: x in Elems(l) ==> x.key != e.key
      modifies this`nDirEntries, table.entries, table.order
      ensures Filling(Elems(l) + {e}) && Kept(l + [e])
    {
      ghost var was, n := table.entries[..], nDirEntries;
      OfferKeepsBest(table.View(n), Elems(l), e, true);
      OrderedRises(table.View(n), true);
      PutTidy(e);
      KeptMore(was, table.entries[..], l, e);
    }

    /** An entry put into a tidy table. */
    method PutTidy(e: Entry)
      requires Tidy() && Rising(table.View(nDirEntries), true)
      modifies this`nDirEntries, table.entries, table.order
      ensures Tidy() && nDirEntries == Min(old(nDirEntries) + 1, MAXDIRENTRIES)
      ensures table.View(nDirEntries) == Offer(old(table.View(nDirEntries)), e, true)
      ensures old(nDirEntries) < MAXDIRENTRIES ==> table.entries[..] == old(table.entries[..])[old(nDirEntries) := e]
    {
      nDirEntries := table.Put(nDirEntries, e, true);
    }

    lemma KeptMore(a: seq<Entry>, b: seq<Entry>, l: seq<Entry>, e: Entry)
      requires |a| == |b| == MAXDIRENTRIES && (|l| <= MAXDIRENTRIES ==> a[..|l|] == l)
      requires |l| < MAXDIRENTRIES ==> b == a[|l| := e]
      ensures |l| + 1 <= MAXDIRENTRIES ==> b[..|l| + 1] == l + [e]
    {
    }

    /** SCAN_INIT: the first eight entries. */
    method Init(disk: Disk, ghost d: seq<Entry>)
      requires Valid() && disk.Valid() && Listing(d, disk.All())
      modifies Repr
      ensures At(d, Step(d, disk.All(), State(0, 0, 0), ScanInit)) && Tidy() && Kept(disk.All())
    {
      nDirEntries := 0;
      iSelectedEntry := 0;
      table.Reset();
      FillScreen(disk, d);
      assert d[0..] == d;
      Completed(d, 0);
    }

    /** Up to eight entries are in the slots as they came, whatever the indices make of them. */
    ghost predicate Kept(l: seq<Entry>)
      reads Repr
    {
      table.Shape() && nDirEntries == Min(|l|, MAXDIRENTRIES) && (|l| <= MAXDIRENTRIES ==> table.entries[..|l|] == l)
    }

    lemma NoneYet(disk: Disk)
      requires disk.Valid() && Filling({}) && nDirEntries == 0
      ensures Filling(Elems(disk.Listed(0))) && Kept(disk.Listed(0))
    {
      assert disk.Listed(0) == [];
    }

    method FillScreen(disk: Disk, ghost d: seq<Entry>)
      requires disk.Valid() && Listing(d, disk.All()) && Filling({}) && nDirEntries == 0
      modifies this`nDirEntries, table.entries, table.order
      ensures Filling(Elems(d)) && Kept(disk.All())
    {
      hide Filling, Kept;
      NoneYet(disk);
      for i := 0 to |disk.slots|
        invariant Filling(Elems(disk.Listed(i))) && Kept(disk.Listed(i))
      {
        if disk.Wanted(i) {
          disk.NextIsNew(d, i);
          disk.ListedNext(i);
          Gather(disk.slots[i].entry, disk.Listed(i));
        }
      }
    }

    /** The best of everything from rank k on is the slice that starts there. */
    lemma Completed(d: seq<Entry>, k: nat)
      requires Ordered(d, true) && k <= |d| && Filling(Elems(d[k..])) && temp.Shape() && Apart()
      ensures Valid() && table.View(nDirEntries) == d[k..k + Min(MAXDIRENTRIES, |d| - k)]
    {
      FirstBest(d, k);
      assert Elems(d[k..]) <= Elems(d);
      KeysDiffer(d, Elems(d[k..]));
      SameBest(table.View(nDirEntries), d[k..Min(k + MAXDIRENTRIES, |d|)], Elems(d[k..]), true);
    }

    /** SCAN_INIT_FIRST: show just the entry with the given first cluster, if there is one. */
    method InitFirst(disk: Disk, iPreviousDirectory: int, ghost d: seq<Entry>, ghost s: State) returns (rc: int)
      requires disk.Valid() && Listing(d, disk.All()) && At(d, s)
      modifies Repr
      ensures At(d, Step(d, disk.All(), s, ScanInitFirst(iPreviousDirectory)))
      ensures rc == if s.len > 0 && Find(d, disk.All(), iPreviousDirectory) >= 0 then 1 else 0
      ensures rc == 1 || old(Tidy()) ==> Tidy()
      ensures forall j :: 1 <= j < MAXDIRENTRIES ==> table.entries[j] == old(table.entries[j])
    {
      hide Tidy, Listing;
      rc := 0;
      if nDirEntries == 0 {
        return;
      }
      for i := 0 to |disk.slots|
        invariant FirstSo(d, disk.Listed(i), iPreviousDirectory, s, rc)
        invariant rc == 1 || old(Tidy()) ==> Tidy()
        invariant forall j :: 1 <= j < MAXDIRENTRIES ==> table.entries[j] == old(table.entries[j])
      {
        if disk.Wanted(i) {
          disk.NextIsNew(d, i);
          disk.ListedNext(i);
          rc := FirstSlot(disk.slots[i].entry, iPreviousDirectory, d, disk.Listed(i), s, rc);
        }
      }
    }

    /** Of the entries l seen so far, the last one wanted is shown, or nothing has changed. */
    ghost predicate FirstSo(d: seq<Entry>, l: seq<Entry>, cluster: int, s: State, rc: int)
      reads Repr
    {
      var r := Find(d, l, cluster);
      if r >= 0 then rc == 1 && At(d, State(r, 1, 0)) else rc == 0 && At(d, s)
    }

    method FirstSlot(e: Entry, iPreviousDirectory: int, ghost d: seq<Entry>, ghost l: seq<Entry>, ghost s: State,
                     rc: int)
      returns (rc': int)
      requires FirstSo(d, l, iPreviousDirectory, s, rc) && e in d
      modifies Repr
      ensures FirstSo(d, l + [e], iPreviousDirectory, s, rc')
      ensures rc' == 1 || old(Tidy()) ==> Tidy()
      ensures forall j :: 1 <= j < MAXDIRENTRIES ==> table.entries[j] == old(table.entries[j])
    {
      rc' := rc;
      FindNext(d, l, e, iPreviousDirectory);
      if e.cluster == iPreviousDirectory {
        table.Reset();
        nDirEntries := 1;
        iSelectedEntry := 0;
        table.entries[0] := e;
        assert Screen() == [e];
        rc' := 1;
      }
    }

    /** SCAN_INIT_NEXT: what comes after the first entry shown is offered. On a tidy table that completes
        a screen of one entry, and doubles an entry on any other, so that it is no slice any more. */
    method InitNext(disk: Disk, ghost d: seq<Entry>, ghost s: State)
      requires disk.Valid() && Listing(d, disk.All()) && At(d, s) && s.len > 0
      modifies this`nDirEntries, table.entries, table.order
      ensures Valid() && Raw() == FollowedIn(old(Raw()), disk.All())
      ensures s.len == 1 ==> At(d, s.(len := Min(MAXDIRENTRIES, |d| - s.k)))
      ensures s.len > 1 && old(Tidy()) ==> forall t :: !At(d, t)
      ensures old(Tidy()) ==> Tidy()
    {
      ghost var v, tidy := Screen(), Tidy();
      ShownOrdered(d, s, v);
      OrderedRises(v, true);
      FollowAll(disk);
      if s.len == 1 {
        assert v == [d[s.k]];
        FollowDone(d, disk.All(), s);
      } else if tidy {
        FollowDoubles(d, disk.All(), s, v);
      }
    }

    ghost function Raw(): Slots
      requires Valid()
      reads Repr
    {
      table.Now(nDirEntries)
    }

    method FollowAll(disk: Disk)
      requires Valid() && disk.Valid() && nDirEntries > 0 && Rising(Screen(), true)
      modifies this`nDirEntries, table.entries, table.order
      ensures Valid() && Raw() == FollowedIn(old(Raw()), disk.All())
      ensures old(Tidy()) ==> Tidy() && table.View(nDirEntries) == Followed(old(Screen()), disk.All())
    {
      ghost var v, r := Screen(), Raw();
      for i := 0 to |disk.slots|
        invariant Valid() && nDirEntries > 0 && Raw() == FollowedIn(r, disk.Listed(i))
        invariant old(Tidy()) ==> Following(v, disk.Listed(i))
      {
        if disk.Wanted(i) {
          disk.ListedNext(i);
          FollowNext(disk.slots[i].entry, v, r, disk.Listed(i));
        }
      }
    }

    method FollowNext(e: Entry, ghost v: seq<Entry>, ghost r: Slots, ghost l: seq<Entry>)
      requires Valid() && nDirEntries > 0 && Raw() == FollowedIn(r, l)
      modifies this`nDirEntries, table.entries, table.order
      ensures Valid() && nDirEntries > 0 && Raw() == FollowedIn(r, l + [e])
      ensures old(Following(v, l)) ==> Following(v, l + [e])
    {
      FollowedMore(v, l, e);
      FollowedInMore(r, l, e);
      FollowSlot(e);
    }

    /** The tidy table shows what following l up on screen v comes to. */
    ghost predicate Following(v: seq<Entry>, l: seq<Entry>)
      reads Repr
    {
      Tidy() && Rising(table.View(nDirEntries), true) && table.View(nDirEntries) == Followed(v, l)
    }

    /** What SCAN_INIT_NEXT does with one accepted entry. */
    method FollowSlot(e: Entry)
      requires Valid() && nDirEntries > 0
      modifies this`nDirEntries, table.entries, table.order
      ensures Valid() && nDirEntries > 0 && Raw() == FollowIn(old(Raw()), e)
      ensures old(Tidy() && Rising(Screen(), true)) ==>
        Tidy() && Rising(table.View(nDirEntries), true) && table.View(nDirEntries) == FollowOne(old(Screen()), e)
    {
      assert Screen()[0] == table.entries[table.order[0]];
      if Before(table.entries[table.order[0]], e, true) {
        PutAny(e);
      }
    }

    /** An entry put into a table that may not be tidy. */
    method PutAny(e: Entry)
      requires Valid() && nDirEntries > 0
      modifies this`nDirEntries, table.entries, table.order
      ensures Valid() && nDirEntries > 0 && Raw() == PutIn(old(Raw()), e)
      ensures old(Tidy() && Rising(Screen(), true)) ==>
        Tidy() && Rising(table.View(nDirEntries), true) && table.View(nDirEntries) == Offer(old(Screen()), e, true)
    {
      ghost var v := Screen();
      nDirEntries := table.Put(nDirEntries, e, true);
      if Rising(v, true) {
        OfferRises(v, e, true);
      }
    }

    lemma FollowDone(d: seq<Entry>, l: seq<Entry>, s: State)
      requires Listing(d, l) && s.k < |d| && Tidy() && table.View(nDirEntries) == Followed([d[s.k]], l)
      requires temp.Shape() && Apart() && iSelectedEntry == s.sel == 0
      ensures At(d, s.(len := Min(MAXDIRENTRIES, |d| - s.k)))
    {
      FollowedBest(d[s.k], l);
      FromRank(d, s.k);
      Completed(d, s.k);
    }

    lemma FollowDoubles(d: seq<Entry>, l: seq<Entry>, s: State, v: seq<Entry>)
      requires Listing(d, l) && Shows(d, s, v) && s.len > 1 && Tidy() && table.View(nDirEntries) == Followed(v, l)
      ensures forall t :: !At(d, t)
    {
      ShownOrdered(d, s, v);
      OrderedRises(v, true);
      OrderedAll(v, true);
      assert v[0] == d[s.k] && v[1] == d[s.k + 1];
      FollowedDoubled(d, s.k, v, l);
      assert d[s.k + 1] in Elems(l);
      forall t ensures !At(d, t) {
        DoubledIsNoSlice(d, s.k, Followed(v, l), t);
      }
    }

    lemma FromRank(d: seq<Entry>, k: nat)
      requires Ordered(d, true) && k < |d|
      ensures {d[k]} + Above(Elems(d), d[k]) == Elems(d[k..])
    {
      OrderedAll(d, true);
      forall e | e in Above(Elems(d), d[k]) ensures e in d[k..] {
        var i :| 0 <= i < |d| && d[i] == e;
        assert d[k..][i - k] == e;
      }
      assert d[k..][0] == d[k];
    }
  
    // ---------- One entry down or up ----------

    /** The screen has not moved, or has moved down by one and x is the least entry seen above last. */
    ghost predicate Seeking(old8: seq<Entry>, seen: set<Entry>, nNew: int)
      reads Repr
      requires |old8| == MAXDIRENTRIES
    {
      && Valid() && nDirEntries == MAXDIRENTRIES
      && if nNew == 0 then Screen() == old8 && seen == {} else
         var x := Screen()[MAXDIRENTRIES - 1];
         Screen() == old8[1..] + [x] && x in seen && forall y :: y in seen ==> x.key <= y.key
    }

    /** What SCAN_NEXT does with one accepted entry. */
    method NextSlot(e: Entry, nNew: int, ghost old8: seq<Entry>, ghost all: set<Entry>) returns (n: int)
      requires |old8| == MAXDIRENTRIES && Seeking(old8, Above(all, old8[MAXDIRENTRIES - 1]), nNew)
      modifies table.entries, table.order
      ensures Seeking(old8, Above(all + {e}, old8[MAXDIRENTRIES - 1]), n)
    {
      n := nNew;
      ghost var last := old8[MAXDIRENTRIES - 1];
      assert Above(all + {e}, last) == Above(all, last) + (if e.key > last.key then {e} else {});
      if nNew == 0 {
        if Before(table.entries[table.order[MAXDIRENTRIES - 1]], e, true) {
          n := 1;
          table.PushNext(e);
        }
      } else {
        if Before(e, table.entries[table.order[MAXDIRENTRIES - 1]], true) {
          assert Screen()[MAXDIRENTRIES - 2] == last;
          if Before(table.entries[table.order[MAXDIRENTRIES - 2]], e, true) {
            table.SetAt(MAXDIRENTRIES - 1, e);
          }
        }
      }
    }
  
    /** SCAN_NEXT: within the screen if possible, else scroll by one. */
    method Next(disk: Disk, ghost d: seq<Entry>, ghost s: State)
      requires disk.Valid() && Listing(d, disk.All()) && At(d, s)
      modifies Repr
      ensures At(d, Step(d, disk.All(), s, ScanNext)) && (old(Tidy()) ==> Tidy())
    {
      if nDirEntries == 0 {
        return;
      }
      if iSelectedEntry + 1 < nDirEntries {
        iSelectedEntry := iSelectedEntry + 1;
        return;
      }
      if nDirEntries < MAXDIRENTRIES {
        return;
      }
      ghost var old8 := Screen();
      var nNew := 0;
      assert disk.Listed(0) == [];
      for i := 0 to |disk.slots|
        invariant iSelectedEntry == s.sel && Seeking(old8, Above(Elems(disk.Listed(i)), old8[MAXDIRENTRIES - 1]), nNew)
      {
        if disk.Wanted(i) {
          disk.NextIsNew(d, i);
          nNew := NextSlot(disk.slots[i].entry, nNew, old8, Elems(disk.Listed(i)));
        }
      }
      NextDone(d, s, old8, nNew);
    }

    lemma NextDone(d: seq<Entry>, s: State, old8: seq<Entry>, nNew: int)
      requires Shows(d, s, old8) && |old8| == MAXDIRENTRIES && s.sel == MAXDIRENTRIES - 1 == iSelectedEntry
      requires Ordered(d, true) && Seeking(old8, Above(Elems(d), old8[MAXDIRENTRIES - 1]), nNew)
      ensures At(d, if s.k + s.len >= |d| then s else s.(k := s.k + 1))
    {
      var m := s.k + MAXDIRENTRIES - 1;
      if nNew == 0 {
        if m + 1 < |d| {
          OrderedAt(d, m, m + 1, true);
          assert d[m + 1] in Above(Elems(d), d[m]);
        }
      } else {
        Successor(d, m, Screen()[MAXDIRENTRIES - 1]);
      }
    }

    ghost predicate SeekingBack(oldN: seq<Entry>, seen: set<Entry>, nNew: int)
      reads Repr
      requires 0 < |oldN| <= MAXDIRENTRIES
    {
      && Valid()
      && if nNew == 0 then Screen() == oldN && seen == {} else
         && nDirEntries == Min(MAXDIRENTRIES, |oldN| + 1)
         && Screen() == [Screen()[0]] + oldN[..nDirEntries - 1]
         && Screen()[0] in seen && forall y :: y in seen ==> Screen()[0].key >= y.key
    }

    /** The slots and indices as they were, or with the last index first and another entry in its slot. */
    ghost predicate Pushed(a: seq<Entry>, o: seq<int>, nNew: int)
      reads Repr
    {
      && table.Shape() && |a| == |o| == MAXDIRENTRIES
      && if nNew == 0 then table.order[..] == o && table.entries[..] == a else
         var last := o[MAXDIRENTRIES - 1];
         && table.order[..] == [last] + o[..MAXDIRENTRIES - 1]
         && forall i :: 0 <= i < MAXDIRENTRIES && i != last ==> table.entries[i] == a[i]
    }

    /** Does the mode scroll a screen that is not full? */
    static predicate ScrollsShort(s: State, mode: Mode) {
      mode in {ScanPrev, ScanPrevPage} && s.len < MAXDIRENTRIES && s.sel == 0 && s.k > 0
    }

    /** What SCAN_PREV does with one accepted entry. */
    method PrevSlot(e: Entry, nNew: int, ghost oldN: seq<Entry>, ghost all: set<Entry>, ghost a: seq<Entry>,
                    ghost o: seq<int>)
      returns (n: int)
      requires 0 < |oldN| <= MAXDIRENTRIES && SeekingBack(oldN, Below(all, oldN[0]), nNew) && Pushed(a, o, nNew)
      modifies this`nDirEntries, table.entries, table.order
      ensures SeekingBack(oldN, Below(all + {e}, oldN[0]), n) && Pushed(a, o, n)
    {
      n := nNew;
      BelowGrows(all, e, oldN[0]);
      assert Screen()[0] == table.entries[table.order[0]];
      if nNew == 0 {
        if Before(e, table.entries[table.order[0]], true) {
          n := 1;
          PushBack(e, oldN, a, o);
        }
      } else {
        if Before(table.entries[table.order[0]], e, true) {
          assert Screen()[1] == oldN[0] == table.entries[table.order[1]];
          if Before(e, table.entries[table.order[1]], true) {
            ReplaceFirst(e, oldN, a, o);
          }
        }
      }
    }

    lemma BelowGrows(all: set<Entry>, e: Entry, first: Entry)
      ensures Below(all + {e}, first) == Below(all, first) + (if e.key < first.key then {e} else {})
    {
    }

    /** The first entry found goes to the front. */
    method PushBack(e: Entry, ghost oldN: seq<Entry>, ghost a: seq<Entry>, ghost o: seq<int>)
      requires Valid() && oldN == Screen() && 0 < |oldN| && Pushed(a, o, 0)
      modifies this`nDirEntries, table.entries, table.order
      ensures Valid() && nDirEntries == Min(MAXDIRENTRIES, |oldN| + 1) && Screen() == [e] + oldN[..nDirEntries - 1]
      ensures Pushed(a, o, 1)
    {
      ghost var v := table.View(MAXDIRENTRIES);
      assert oldN == v[..|oldN|];
      PushFirst(e);
      FrontSlice(v, e, |oldN|, nDirEntries);
    }

    method PushFirst(e: Entry)
      requires Valid() && nDirEntries > 0
      modifies this`nDirEntries, table.entries, table.order
      ensures Valid() && nDirEntries == Min(MAXDIRENTRIES, old(nDirEntries) + 1)
      ensures Screen() == ([e] + old(table.View(MAXDIRENTRIES))[..MAXDIRENTRIES - 1])[..nDirEntries]
      ensures Pushed(old(table.entries[..]), old(table.order[..]), 1)
    {
      if nDirEntries < MAXDIRENTRIES {
        nDirEntries := nDirEntries + 1;
      }
      table.PushPrev(e);
      assert Screen() == table.View(MAXDIRENTRIES)[..nDirEntries];
    }

    lemma FrontSlice(v: seq<Entry>, e: Entry, k: nat, n: nat)
      requires 0 < n <= |v| && n - 1 <= k <= |v|
      ensures ([e] + v[..|v| - 1])[..n] == [e] + v[..k][..n - 1]
    {
    }

    /** A better one takes its place. */
    method ReplaceFirst(e: Entry, ghost oldN: seq<Entry>, ghost a: seq<Entry>, ghost o: seq<int>)
      requires Valid() && nDirEntries > 1 && |oldN| > 0 && nDirEntries - 1 <= |oldN|
      requires Screen() == [Screen()[0]] + oldN[..nDirEntries - 1] && Pushed(a, o, 1)
      modifies table.entries
      ensures Valid() && Screen() == [e] + oldN[..nDirEntries - 1] && Pushed(a, o, 1)
    {
      table.SetAt(0, e);
      assert Screen() == table.View(MAXDIRENTRIES)[..nDirEntries];
    }

    /** SCAN_PREV: within the screen if possible, else scroll back by one. */
    method Prev(disk: Disk, ghost d: seq<Entry>, ghost s: State)
      requires disk.Valid() && Listing(d, disk.All()) && At(d, s)
      modifies Repr
      ensures At(d, Step(d, disk.All(), s, ScanPrev))
      ensures old(Tidy()) && !ScrollsShort(s, ScanPrev) ==> Tidy()
      ensures s.len > 0 && s.sel == 0 && s.k > 0 ==> Pushed(old(table.entries[..]), old(table.order[..]), 1)
    {
      if nDirEntries == 0 {
        return;
      }
      if iSelectedEntry > 0 {
        iSelectedEntry := iSelectedEntry - 1;
        return;
      }
      ghost var oldN := Screen();
      var nNew := SeekBack(disk, d, oldN);
      PrevDone(d, s, oldN, nNew);
    }

    method SeekBack(disk: Disk, ghost d: seq<Entry>, ghost oldN: seq<Entry>) returns (nNew: int)
      requires disk.Valid() && Listing(d, disk.All()) && Valid() && nDirEntries > 0 && oldN == Screen()
      modifies this`nDirEntries, table.entries, table.order
      ensures SeekingBack(oldN, Below(Elems(d), oldN[0]), nNew)
      ensures Pushed(old(table.entries[..]), old(table.order[..]), nNew)
    {
      ghost var a, o := table.entries[..], table.order[..];
      nNew := 0;
      assert disk.Listed(0) == [];
      for i := 0 to |disk.slots|
        invariant SeekingBack(oldN, Below(Elems(disk.Listed(i)), oldN[0]), nNew) && Pushed(a, o, nNew)
      {
        if disk.Wanted(i) {
          disk.NextIsNew(d, i);
          nNew := PrevSlot(disk.slots[i].entry, nNew, oldN, Elems(disk.Listed(i)), a, o);
        }
      }
      assert Elems(disk.All()) == Elems(d);
    }

    lemma PrevDone(d: seq<Entry>, s: State, oldN: seq<Entry>, nNew: int)
      requires Shows(d, s, oldN) && 0 < |oldN| == s.len && s.sel == 0 == iSelectedEntry
      requires Ordered(d, true) && SeekingBack(oldN, Below(Elems(d), oldN[0]), nNew)
      ensures At(d, if s.k == 0 then s else State(s.k - 1, Min(MAXDIRENTRIES, s.len + 1), 0))
      ensures nNew == 0 <==> s.k == 0
    {
      if s.k > 0 {
        OrderedAt(d, s.k - 1, s.k, true);
        assert d[s.k - 1] in Below(Elems(d), d[s.k]);
      }
      if nNew != 0 {
        Predecessor(d, s.k, Screen()[0]);
      }
    }
  
    // ---------- One page down or up ----------

    /** The temporary table holds the best n of the entries seen beyond the screen; the screen is as it was. */
    ghost predicate Paging(d: seq<Entry>, s: State, seen: set<Entry>, n: int, up: bool)
      reads Repr
    {
      At(d, s) && temp.Valid(n) && IsBest(temp.View(n), seen, up)
    }

    /** What the page modes do with one accepted entry beyond the screen. */
    method PageSlot(e: Entry, n: int, up: bool, ghost d: seq<Entry>, ghost s: State, ghost seen: set<Entry>)
      returns (n': int)
      requires Paging(d, s, seen, n, up) && forall x :: x in seen ==> x.key != e.key
      modifies temp.entries, temp.order
      ensures Paging(d, s, seen + {e}, n', up)
    {
      OfferKeepsBest(temp.View(n), seen, e, up);
      OrderedRises(temp.View(n), up);
      n' := PutTemp(e, n, up);
    }

    /** The temporary table's indices are set as its slots are filled. */
    method PutTemp(e: Entry, n: int, up: bool) returns (n': int)
      requires temp.Valid(n) && Rising(temp.View(n), up)
      modifies temp.entries, temp.order
      ensures temp.Valid(n') && temp.View(n') == Offer(old(temp.View(n)), e, up)
    {
      if n < MAXDIRENTRIES {
        ghost var v := temp.View(n);
        temp.order[n] := n;
        assert temp.View(n) == v;
      }
      n' := temp.Put(n, e, up);
    }

    lemma BeyondNone(disk: Disk, up: bool, d: seq<Entry>, s: State)
      requires disk.Valid() && At(d, s) && s.len > 0
      ensures s.k + s.len <= |d| && Paging(d, s, Beyond(Elems(disk.Listed(0)), d, s, up), 0, up)
    {
      assert disk.Listed(0) == [];
    }

    /** Gather the entries beyond the last one shown (up) or the first (down). */
    method Collect(disk: Disk, up: bool, ghost d: seq<Entry>, ghost s: State) returns (n: int)
      requires disk.Valid() && Listing(d, disk.All()) && At(d, s) && s.len > 0
      requires up ==> s.len == MAXDIRENTRIES
      modifies temp.entries, temp.order
      ensures Paging(d, s, Beyond(Elems(d), d, s, up), n, up)
    {
      hide Paging, Shows, Ordered;
      n := 0;
      BeyondNone(disk, up, d, s);
      for i := 0 to |disk.slots|
        invariant At(d, s) && s.k + s.len <= |d|
        invariant Paging(d, s, Beyond(Elems(disk.Listed(i)), d, s, up), n, up)
      {
        if disk.Wanted(i) {
          disk.NextIsNew(d, i);
          n := CollectSlot(disk.slots[i].entry, n, up, d, s, Elems(disk.Listed(i)));
        }
      }
    }

    /** What the page modes do with one accepted entry. */
    method CollectSlot(e: Entry, n: int, up: bool, ghost d: seq<Entry>, ghost s: State, ghost seen: set<Entry>)
      returns (n': int)
      requires At(d, s) && s.len > 0 && (up ==> s.len == MAXDIRENTRIES)
      requires Paging(d, s, Beyond(seen, d, s, up), n, up) && forall x :: x in seen ==> x.key != e.key
      modifies temp.entries, temp.order
      ensures At(d, s) && Paging(d, s, Beyond(seen + {e}, d, s, up), n', up)
    {
      n' := n;
      BeyondGrows(seen, e, d, s, up);
      if Before(table.entries[table.order[if up then MAXDIRENTRIES - 1 else 0]], e, up) {
        n' := PageSlot(e, n, up, d, s, Beyond(seen, d, s, up));
      }
    }

    ghost function Beyond(all: set<Entry>, d: seq<Entry>, s: State, up: bool): set<Entry>
      requires 0 < s.len && s.k + s.len <= |d|
    {
      if up then Above(all, d[s.k + s.len - 1]) else Below(all, d[s.k])
    }

    lemma BeyondGrows(all: set<Entry>, e: Entry, d: seq<Entry>, s: State, up: bool)
      requires 0 < s.len && s.k + s.len <= |d|
      ensures var b := d[if up then s.k + s.len - 1 else s.k];
        Beyond(all + {e}, d, s, up) == Beyond(all, d, s, up) + (if Before(b, e, up) then {e} else {})
    {
    }

    /** SCAN_NEXT_PAGE: to the last entry shown, or else down by up to eight. */
    method NextPage(disk: Disk, ghost d: seq<Entry>, ghost s: State)
      requires disk.Valid() && Listing(d, disk.All()) && At(d, s)
      modifies Repr
      ensures At(d, Step(d, disk.All(), s, ScanNextPage)) && (old(Tidy()) ==> Tidy())
    {
      hide Ordered, Beyond;
      if nDirEntries == 0 {
        return;
      }
      if iSelectedEntry + 1 < nDirEntries {
        iSelectedEntry := nDirEntries - 1;
        return;
      }
      if nDirEntries < MAXDIRENTRIES {
        return;
      }
      var nNew := Collect(disk, true, d, s);
      NextPageBest(d, s, nNew);
      if nNew > 0 {
        ShowNext(nNew, d, s);
      }
    }

    method ShowNext(n: int, ghost d: seq<Entry>, ghost s: State)
      requires At(d, s) && s.len == MAXDIRENTRIES && temp.Valid(n) && 0 < n && s.k + s.len + n <= |d|
      requires temp.View(n) == d[s.k + s.len..s.k + s.len + n]
      modifies table.entries, table.order
      ensures At(d, s.(k := s.k + n))
    {
      ghost var v := Screen();
      ScrollNext(n);
      NextSlice(d, s, n, v, temp.View(n));
    }

    method ScrollNext(n: int)
      requires table.Valid(MAXDIRENTRIES) && temp.Valid(n) && Apart() && 0 < n
      modifies table.entries, table.order
      ensures table.Valid(MAXDIRENTRIES)
      ensures table.View(MAXDIRENTRIES) == old(table.View(MAXDIRENTRIES))[n..] + old(temp.View(n))
    {
      ghost var v, w := table.View(MAXDIRENTRIES), temp.View(n);
      table.PageNext(n);
      assert temp.Valid(n) && temp.View(n) == w;
      CopyNext(n, v);
    }

    lemma NextSlice(d: seq<Entry>, s: State, n: int, v: seq<Entry>, w: seq<Entry>)
      requires 0 < n <= MAXDIRENTRIES == s.len && s.k + s.len + n <= |d|
      requires v == d[s.k..s.k + s.len] && w == d[s.k + s.len..s.k + s.len + n]
      ensures v[n..] + w == d[s.k + n..s.k + n + MAXDIRENTRIES]
    {
    }

    lemma NextPageBest(d: seq<Entry>, s: State, n: int)
      requires Ordered(d, true) && s.len == MAXDIRENTRIES && s.k + s.len <= |d|
      requires Paging(d, s, Beyond(Elems(d), d, s, true), n, true)
      ensures n == Min(MAXDIRENTRIES, |d| - s.k - s.len) && temp.View(n) == d[s.k + s.len..s.k + s.len + n]
    {
      var m := s.k + s.len - 1;
      AboveBest(d, m);
      KeysDiffer(d, Above(Elems(d), d[m]));
      SameBest(temp.View(n), d[m + 1..Min(m + 1 + MAXDIRENTRIES, |d|)], Above(Elems(d), d[m]), true);
    }

    /** The gathered entries, in order, go to the end of the screen. */
    method CopyNext(n: int, ghost v: seq<Entry>)
      requires table.Valid(MAXDIRENTRIES) && temp.Valid(n) && Apart() && 0 < n
      requires |v| == MAXDIRENTRIES && table.View(MAXDIRENTRIES)[..MAXDIRENTRIES - n] == v[n..]
      modifies table.entries
      ensures table.View(MAXDIRENTRIES) == v[n..] + temp.View(n)
    {
      var j := MAXDIRENTRIES - n;
      ghost var w := temp.View(n);
      for i := 0 to n
        invariant temp.View(n) == w && table.View(MAXDIRENTRIES)[..j + i] == v[n..] + w[..i]
      {
        ghost var u := table.View(MAXDIRENTRIES);
        table.SetAt(i + j, temp.entries[temp.order[i]]);
        assert table.View(MAXDIRENTRIES)[..j + i + 1] == u[..j + i] + [w[i]];
      }
      assert w[..n] == w;
    }

    /** SCAN_PREV_PAGE: to the first entry shown, or else up by up to eight. */
    method PrevPage(disk: Disk, ghost d: seq<Entry>, ghost s: State)
      requires disk.Valid() && Listing(d, disk.All()) && At(d, s)
      modifies Repr
      ensures At(d, Step(d, disk.All(), s, ScanPrevPage))
      ensures old(Tidy()) && !ScrollsShort(s, ScanPrevPage) ==> Tidy()
    {
      hide Ordered, PageBack, Step;
      BackBy(d, disk.All(), s);
      if nDirEntries == 0 {
        return;
      }
      if iSelectedEntry > 0 {
        iSelectedEntry := 0;
        return;
      }
      ScrollPageUp(disk, d, s);
    }

    /** From the first entry shown. */
    method ScrollPageUp(disk: Disk, ghost d: seq<Entry>, ghost s: State)
      requires disk.Valid() && Listing(d, disk.All()) && At(d, s) && s.len > 0 && s.sel == 0
      modifies this`nDirEntries, table.entries, table.order, temp.entries, temp.order
      ensures At(d, PageBack(s))
      ensures old(Tidy()) && (s.len == MAXDIRENTRIES || s.k == 0) ==> Tidy()
    {
      hide Ordered, Beyond;
      var nNew := Collect(disk, false, d, s);
      PrevPageBest(d, s, nNew);
      if nNew > 0 {
        ShowPrev(nNew, d, s);
      }
    }

    /** The window a page back. */
    static function PageBack(s: State): State {
      var m := Min(MAXDIRENTRIES, s.k);
      State(s.k - m, Min(MAXDIRENTRIES, s.len + m), 0)
    }

    lemma BackBy(d: seq<Entry>, l: seq<Entry>, s: State)
      requires s.len <= MAXDIRENTRIES
      ensures Step(d, l, s, ScanPrevPage) == if s.len == 0 then s else if s.sel > 0 then s.(sel := 0) else PageBack(s)
    {
    }

    method ShowPrev(n: int, ghost d: seq<Entry>, ghost s: State)
      requires At(d, s) && s.sel == 0 && s.len > 0 && temp.Valid(n) && 0 < n <= s.k
      requires temp.View(n) == Reverse(d[s.k - n..s.k])
      modifies this`nDirEntries, table.entries, table.order
      ensures At(d, State(s.k - n, Min(MAXDIRENTRIES, s.len + n), 0))
    {
      ghost var v := table.View(MAXDIRENTRIES);
      assert Screen() == v[..s.len];
      ScrollBack(n);
      PrevSlice(d, s, n, v, Screen());
    }

    method ScrollBack(n: int)
      requires Valid() && nDirEntries > 0 && temp.Valid(n) && 0 < n
      modifies this`nDirEntries, table.entries, table.order
      ensures Valid() && nDirEntries == Min(old(nDirEntries) + n, MAXDIRENTRIES)
      ensures Screen() ==
        (Reverse(old(temp.View(n))) + old(table.View(MAXDIRENTRIES))[..MAXDIRENTRIES - n])[..nDirEntries]
    {
      ScrollPrev(n, table.View(MAXDIRENTRIES));
      nDirEntries := Min(nDirEntries + n, MAXDIRENTRIES);
      assert Screen() == table.View(MAXDIRENTRIES)[..nDirEntries];
    }

    method ScrollPrev(n: int, ghost v: seq<Entry>)
      requires table.Valid(MAXDIRENTRIES) && temp.Valid(n) && Apart() && 0 < n && v == table.View(MAXDIRENTRIES)
      modifies table.entries, table.order
      ensures table.Valid(MAXDIRENTRIES) && table.View(MAXDIRENTRIES) == Reverse(temp.View(n)) + v[..MAXDIRENTRIES - n]
      ensures temp.Valid(n) && temp.View(n) == old(temp.View(n))
    {
      table.PagePrev(n);
      assert temp.Valid(n) && temp.View(n) == old(temp.View(n));
      forall p | n <= p < MAXDIRENTRIES ensures table.View(MAXDIRENTRIES)[p] == v[p - n] {
        assert table.View(MAXDIRENTRIES)[n..][p - n] == v[..MAXDIRENTRIES - n][p - n];
      }
      CopyPrev(n, v);
    }

    lemma PrevSlice(d: seq<Entry>, s: State, n: int, v: seq<Entry>, w: seq<Entry>)
      requires 0 < n <= s.k && n <= MAXDIRENTRIES == |v| && s.len <= MAXDIRENTRIES && s.k + s.len <= |d|
      requires v[..s.len] == d[s.k..s.k + s.len] && |w| == Min(s.len + n, MAXDIRENTRIES)
      requires w == (Reverse(Reverse(d[s.k - n..s.k])) + v[..MAXDIRENTRIES - n])[..|w|]
      ensures w == d[s.k - n..s.k - n + |w|]
    {
      forall i | 0 <= i < |w| ensures w[i] == d[s.k - n + i] {
        if i >= n {
          assert v[i - n] == v[..s.len][i - n];
        }
      }
    }

    lemma PrevPageBest(d: seq<Entry>, s: State, n: int)
      requires Ordered(d, true) && s.len > 0 && s.k + s.len <= |d|
      requires Paging(d, s, Beyond(Elems(d), d, s, false), n, false)
      ensures n == Min(MAXDIRENTRIES, s.k) && temp.View(n) == Reverse(d[s.k - n..s.k])
    {
      BelowBest(d, s.k);
      KeysDiffer(d, Below(Elems(d), d[s.k]));
      SameBest(temp.View(n), Reverse(d[s.k - Min(MAXDIRENTRIES, s.k)..s.k]), Below(Elems(d), d[s.k]), false);
    }

    /** The gathered entries, in reverse, go to the front of the screen. */
    method CopyPrev(n: int, ghost v: seq<Entry>)
      requires table.Valid(MAXDIRENTRIES) && temp.Valid(n) && Apart() && 0 < n
      requires |v| == MAXDIRENTRIES
      requires forall p :: n <= p < MAXDIRENTRIES ==> table.View(MAXDIRENTRIES)[p] == v[p - n]
      modifies table.entries
      ensures table.View(MAXDIRENTRIES) == Reverse(temp.View(n)) + v[..MAXDIRENTRIES - n]
    {
      var j := n - 1;
      ghost var w := temp.View(n);
      for i := 0 to n
        invariant temp.View(n) == w
        invariant forall p :: n - i <= p < n ==> table.View(MAXDIRENTRIES)[p] == w[n - 1 - p]
        invariant forall p :: n <= p < MAXDIRENTRIES ==> table.View(MAXDIRENTRIES)[p] == v[p - n]
      {
        assert temp.View(n)[i] == temp.entries[temp.order[i]];
        table.SetAt(j - i, temp.entries[temp.order[i]]);
      }
    }

    /** ScanDirectory, for every mode but the search for a letter. The return value says
        whether SCAN_INIT_FIRST found its entry. */
    method ScanDirectory(mode: Mode, disk: Disk, ghost d: seq<Entry>, ghost s: State) returns (rc: int)
      requires disk.Valid() && Listing(d, disk.All()) && if mode == ScanInit then Valid() else At(d, s)
      modifies Repr
      ensures Valid()
      ensures mode != ScanInitNext || s.len <= 1 ==> At(d, Step(d, disk.All(), s, mode))
      ensures mode == ScanInitNext && s.len > 1 && old(Tidy()) ==> forall t :: !At(d, t)
      ensures mode == ScanInit || (mode.ScanInitFirst? && rc == 1) ==> Tidy()
      ensures old(Tidy()) && !ScrollsShort(s, mode) ==> Tidy()
      ensures rc == if mode.ScanInitFirst? && s.len > 0 && Find(d, disk.All(), mode.cluster) >= 0 then 1 else 0
    {
      rc := 0;
      match mode
      case ScanInit => Init(disk, d);
      case ScanNext => Next(disk, d, s);
      case ScanPrev => Prev(disk, d, s);
      case ScanNextPage => NextPage(disk, d, s);
      case ScanPrevPage => PrevPage(disk, d, s);
      case ScanInitFirst(cluster) => rc := InitFirst(disk, cluster, d, s);
      case ScanInitNext =>
        if nDirEntries == 0 {
          return;
        }
        InitNext(disk, d, s);
    }
  }

  // ---------- A screen that is not tidy ----------

  /** The raw slot of a file that is listed. */
  function Plain(e: Entry): DirSlot {
    DirSlot(seq(11, _ => 0x41), 0, e)
  }

  function Files(l: seq<Entry>): Disk {
    Disk(seq(|l|, i requires 0 <= i < |l| => Plain(l[i])), [STAR, STAR, STAR], false)
  }

  lemma {:induction false} FilesListed(l: seq<Entry>, n: nat)
    requires n <= |l|
    ensures Files(l).Valid() && Files(l).Listed(n) == l[..n]
  {
    if n > 0 {
      FilesListed(l, n - 1);
      assert Files(l).Wanted(n - 1);
    }
  }

  /** Three files, listed in the order 2, 1, 3. SCAN_INIT, SCAN_INIT_FIRST for the third and SCAN_PREV leave two
      of them on the screen, and then SCAN_INIT_NEXT shows all three: the first is sorted in from a slot
      that an index has come to name again. */
  method StaleEntry() returns (b: Browser)
    ensures b.At([Entry(1, 1), Entry(2, 2), Entry(3, 3)], State(0, 3, 0))
  {
    var l := [Entry(2, 2), Entry(1, 1), Entry(3, 3)];
    ghost var d := [l[1], l[0], l[2]];
    ThreeListed(l, d);
    b := AllShown(Files(l), l, d);
    FirstAndPrev(b, Files(l), l, d);
    ShownAgain(b, Files(l), l, d);
  }

  ghost predicate Three(disk: Disk, l: seq<Entry>, d: seq<Entry>) {
    |l| == 3 && d == [l[1], l[0], l[2]] && disk.Valid() && disk.All() == l && Listing(d, l) && Find(d, l, 3) == 2
  }

  method AllShown(disk: Disk, ghost l: seq<Entry>, ghost d: seq<Entry>) returns (b: Browser)
    requires Three(disk, l, d)
    ensures b.At(d, State(0, 3, 0)) && b.table.entries[1] == l[1] && fresh(b.Repr)
  {
    b := new Browser();
    b.Init(disk, d);
    assert b.table.entries[..3][1] == l[1];
  }

  method FirstAndPrev(b: Browser, disk: Disk, ghost l: seq<Entry>, ghost d: seq<Entry>)
    requires Three(disk, l, d) && b.At(d, State(0, 3, 0)) && b.table.entries[1] == l[1]
    modifies b.Repr
    ensures b.At(d, State(1, 2, 0)) && Stale(b.Raw(), l)
  {
    FirstShown(b, disk, l, d);
    b.Prev(disk, d, State(2, 1, 0));
    TwoShown(b.Screen(), d);
  }

  lemma TwoShown(v: seq<Entry>, d: seq<Entry>)
    requires |d| == 3 && v == d[1..1 + 2]
    ensures v[0] == d[1] && v[1] == d[2]
  {
  }

  method FirstShown(b: Browser, disk: Disk, ghost l: seq<Entry>, ghost d: seq<Entry>)
    requires Three(disk, l, d) && b.At(d, State(0, 3, 0)) && b.table.entries[1] == l[1]
    modifies b.Repr
    ensures b.At(d, State(2, 1, 0)) && b.table.entries[1] == l[1] && b.table.entries[0] == l[2]
    ensures b.table.order[..] == [0, 1, 2, 3, 4, 5, 6, 7]
  {
    var rc := b.InitFirst(disk, 3, d, State(0, 3, 0));
    assert b.Screen()[0] == d[2..2 + 1][0];
  }

  method ShownAgain(b: Browser, disk: Disk, ghost l: seq<Entry>, ghost d: seq<Entry>)
    requires Three(disk, l, d) && l == [Entry(2, 2), Entry(1, 1), Entry(3, 3)]
    requires b.At(d, State(1, 2, 0)) && Stale(b.Raw(), l)
    modifies b.Repr
    ensures b.At(d, State(0, 3, 0))
  {
    StaleFollowed(b.Raw(), l);
    b.InitNext(disk, d, State(1, 2, 0));
    InOrder(b.Raw(), l);
    assert b.Screen() == Shown(b.Raw().entries, b.Raw().order, 3);
  }

  lemma InOrder(t: Slots, l: seq<Entry>)
    requires t.Sane() && t.n == 3 && |l| == 3 && t.order[..3] == [1, 7, 0]
    requires t.entries[1] == l[1] && t.entries[7] == l[0] && t.entries[0] == l[2]
    ensures var d := [l[1], l[0], l[2]]; Shown(t.entries, t.order, 3) == d[0..0 + 3]
  {
    assert t.order[0] == t.order[..3][0] && t.order[1] == t.order[..3][1] && t.order[2] == t.order[..3][2];
  }

  /** The two shown are in slots 7 and 0, and slot 1 holds the one that is not. */
  ghost predicate Stale(s: Slots, l: seq<Entry>)
    requires |l| == 3
  {
    && s.Sane() && s.n == 2 && s.order == [7, 0, 1, 2, 3, 4, 5, 6]
    && s.entries[7] == l[0] && s.entries[0] == l[2] && s.entries[1] == l[1]
  }

  lemma ThreeListed(l: seq<Entry>, d: seq<Entry>)
    requires l == [Entry(2, 2), Entry(1, 1), Entry(3, 3)] && d == [l[1], l[0], l[2]]
    ensures Files(l).Valid() && Files(l).All() == l && Listing(d, l) && Find(d, l, 3) == 2
  {
    hide RankOf;
    FilesListed(l, 3);
    assert l[..3] == l && l[..2] == [l[0], l[1]];
    assert d[0] in Elems(d) && d[1] in Elems(d) && d[2] in Elems(d);
    assert l[0] in Elems(l) && l[1] in Elems(l) && l[2] in Elems(l);
    ThirdRanks(l, d);
  }

  lemma ThirdRanks(l: seq<Entry>, d: seq<Entry>)
    requires l == [Entry(2, 2), Entry(1, 1), Entry(3, 3)] && d == [l[1], l[0], l[2]]
    ensures RankOf(d, l[2]) == 2
  {
    assert d[1..] == [l[0], l[2]] && d[1..][1..] == [l[2]];
    assert RankOf(d[1..][1..], l[2]) == 0 && RankOf(d[1..], l[2]) == 1 && RankOf(d, l[2]) == 2;
  }

  lemma StaleFollowed(s: Slots, l: seq<Entry>)
    requires l == [Entry(2, 2), Entry(1, 1), Entry(3, 3)] && Stale(s, l)
    ensures var t := FollowedIn(s, l);
      && t.Sane() && t.n == 3 && t.order[..3] == [1, 7, 0]
      && t.entries[1] == l[1] && t.entries[7] == l[0] && t.entries[0] == l[2]
  {
    FollowedInMore(s, [], l[0]);
    FollowedInMore(s, [l[0]], l[1]);
    FollowedInMore(s, [l[0], l[1]], l[2]);
    assert [] + [l[0]] == [l[0]] && [l[0]] + [l[1]] == [l[0], l[1]] && [l[0], l[1]] + [l[2]] == l;
    StaleSunk(s, l);
  }

  lemma StaleSunk(s: Slots, l: seq<Entry>)
    requires l == [Entry(2, 2), Entry(1, 1), Entry(3, 3)] && Stale(s, l)
    ensures var t := FollowIn(s, l[2]);
      && t.Sane() && t.n == 3 && t.order[..3] == [1, 7, 0]
      && t.entries[1] == l[1] && t.entries[7] == l[0] && t.entries[0] == l[2]
  {
    var entries := s.entries[2 := l[2]];
    SunkKeeps(entries, s.order, 2, true, MAXDIRENTRIES);
    var o1 := Swapped(s.order, 2);
    var o2 := Swapped(o1, 1);
    assert Sunk(entries, s.order, 2, true) == Sunk(entries, o1, 1, true) == Sunk(entries, o2, 0, true) == o2;
  }

  // ---------- What navigation does, over every run ----------

  /** SCAN_INIT_NEXT completes a window of one entry, and only that; every other mode may come at any time. */
  ghost predicate LegalRun(d: seq<Entry>, l: seq<Entry>, s: State, modes: seq<Mode>)
    decreases |modes|
  {
    modes == [] || ((modes[0] == ScanInitNext ==> s.len <= 1) && LegalRun(d, l, Step(d, l, s, modes[0]), modes[1..]))
  }

  function Run(d: seq<Entry>, l: seq<Entry>, s: State, modes: seq<Mode>): State
    decreases |modes|
  {
    if modes == [] then s else Run(d, l, Step(d, l, s, modes[0]), modes[1..])
  }

  ghost predicate InBounds(d: seq<Entry>, s: State) {
    && s.len <= MAXDIRENTRIES && s.k + s.len <= |d| && s.sel < (if s.len == 0 then 1 else s.len)
  }

  /** As many entries are shown as fit. */
  predicate Full(d: seq<Entry>, s: State) {
    s.len == if |d| >= s.k then Min(MAXDIRENTRIES, |d| - s.k) else 0
  }

  lemma StepInBounds(d: seq<Entry>, l: seq<Entry>, s: State, mode: Mode)
    requires InBounds(d, s)
    ensures InBounds(d, Step(d, l, s, mode))
    ensures !mode.ScanInitFirst? && Full(d, s) ==> Full(d, Step(d, l, s, mode))
    ensures mode == ScanInit || (mode == ScanInitNext && s.len == 1) ==> Full(d, Step(d, l, s, mode))
  {
  }

  /** Over any run the window stays a slice of the sorted directory with a selected entry in
      it; and it is full whenever the last SCAN_INIT_FIRST has been followed up. */
  lemma {:induction false} RunInBounds(d: seq<Entry>, l: seq<Entry>, s: State, modes: seq<Mode>)
    requires InBounds(d, s) && LegalRun(d, l, s, modes)
    ensures InBounds(d, Run(d, l, s, modes))
    ensures Full(d, s) && (forall i :: 0 <= i < |modes| ==> !modes[i].ScanInitFirst?) ==> Full(d, Run(d, l, s, modes))
    decreases |modes|
  {
    if modes != [] {
      StepInBounds(d, l, s, modes[0]);
      RunInBounds(d, l, Step(d, l, s, modes[0]), modes[1..]);
    }
  }

  /** The place of the selected entry in the whole sorted directory. */
  function Rank(s: State): nat {
    s.k + s.sel
  }

  /** SCAN_NEXT moves the selection down by exactly one unless it is on the last entry of the
      directory, if and only if the window is not one that SCAN_INIT_FIRST left incomplete
      with the selection on its last entry. */
  lemma NextMoves(d: seq<Entry>, l: seq<Entry>, s: State)
    requires InBounds(d, s) && s.len > 0
    ensures Rank(Step(d, l, s, ScanNext)) == Min(Rank(s) + 1, |d| - 1) <==> Full(d, s) || s.sel + 1 < s.len
  {
  }

  /** With two entries and just the first of them shown, it stays there. */
  lemma NextStays(d: seq<Entry>, l: seq<Entry>)
    requires |d| == 2
    ensures InBounds(d, State(0, 1, 0)) && Step(d, l, State(0, 1, 0), ScanNext) == State(0, 1, 0)
  {
  }

  lemma PrevMoves(d: seq<Entry>, l: seq<Entry>, s: State)
    requires InBounds(d, s) && s.len > 0
    ensures Rank(Step(d, l, s, ScanPrev)) == if Rank(s) == 0 then 0 else Rank(s) - 1
  {
  }

  /** SCAN_NEXT then SCAN_PREV selects the same entry again, except from the last one: exactly if there
      is a next entry on the screen, or a full screen can scroll; or the first entry is also the last. */
  lemma NextThenPrev(d: seq<Entry>, l: seq<Entry>, s: State)
    requires InBounds(d, s) && s.len > 0
    ensures Rank(Step(d, l, Step(d, l, s, ScanNext), ScanPrev)) == Rank(s)
       <==> s.sel + 1 < s.len || (s.len == MAXDIRENTRIES && s.k + s.len < |d|) || Rank(s) == 0
  {
    StepInBounds(d, l, s, ScanNext);
    PrevMoves(d, l, Step(d, l, s, ScanNext));
  }

  /** With two entries and just the second shown, that ends on the first. */
  lemma NextThenPrevSlips(d: seq<Entry>, l: seq<Entry>)
    requires |d| == 2
    ensures InBounds(d, State(1, 1, 0))
    ensures Step(d, l, Step(d, l, State(1, 1, 0), ScanNext), ScanPrev) == State(0, 2, 0)
  {
  }

  /** Moving within the screen, the window stays where it is; by a page it goes to the last entry shown, or
      the first. */
  lemma MovesWithin(d: seq<Entry>, l: seq<Entry>, s: State)
    requires InBounds(d, s) && s.len > 0
    ensures s.sel + 1 < s.len ==>
      && SameWindow(s, Step(d, l, s, ScanNext)) && Rank(Step(d, l, s, ScanNext)) == Rank(s) + 1
      && SameWindow(s, Step(d, l, s, ScanNextPage)) && Rank(Step(d, l, s, ScanNextPage)) == s.k + s.len - 1
    ensures s.sel > 0 ==>
      && SameWindow(s, Step(d, l, s, ScanPrev)) && Rank(Step(d, l, s, ScanPrev)) == Rank(s) - 1
      && SameWindow(s, Step(d, l, s, ScanPrevPage)) && Rank(Step(d, l, s, ScanPrevPage)) == s.k
  {
  }

  predicate SameWindow(s: State, t: State) {
    t.k == s.k && t.len == s.len
  }

  /** Down from the last entry shown: a full screen moves on by one, or by a page of eight or what is left,
      stays full and keeps its last line selected; a short one does not move. */
  lemma ScrollsDown(d: seq<Entry>, l: seq<Entry>, s: State)
    requires InBounds(d, s) && s.len > 0 && s.sel + 1 == s.len
    ensures var t := Step(d, l, s, ScanNext);
      t.len == s.len && t.sel == s.sel && t.k == s.k + if s.len == 8 && s.k + 8 < |d| then 1 else 0
    ensures var t, left := Step(d, l, s, ScanNextPage), |d| - s.k - s.len;
      t.len == s.len && t.sel == s.sel && t.k == s.k + if s.len < 8 then 0 else if left < 8 then left else 8
  {
  }

  /** Up from the first entry shown: the window goes back by one, or by a page of eight or as many as there
      are, and a short one grows by as many until it is full. The first line is selected. */
  lemma ScrollsUp(d: seq<Entry>, l: seq<Entry>, s: State)
    requires InBounds(d, s) && s.len > 0 && s.sel == 0
    ensures var t := Step(d, l, s, ScanPrev);
      var m := if s.k == 0 then 0 else 1;
      t.sel == 0 && t.k == s.k - m && t.len == if s.len + m > 8 then 8 else s.len + m
    ensures var t := Step(d, l, s, ScanPrevPage);
      var m := if s.k < 8 then s.k else 8;
      t.sel == 0 && t.k == s.k - m && t.len == if s.len + m > 8 then 8 else s.len + m
  {
  }

  /** A page down and two up come back to the same window exactly if there was a whole page to go down by, or
      the window is the first. */
  lemma PagesBack(d: seq<Entry>, l: seq<Entry>, s: State)
    requires InBounds(d, s) && s.len == 8 && s.sel == 7
    ensures var t := Step(d, l, s, ScanNextPage);
      Step(d, l, Step(d, l, t, ScanPrevPage), ScanPrevPage) == State(s.k, 8, 0) <==> s.k + 16 <= |d| || s.k == 0
  {
  }

  /** SCAN_INIT shows the first eight entries, or all; SCAN_INIT_FIRST just the last one listed with that
      first cluster, if there is one; and SCAN_INIT_NEXT goes on from it with up to seven more. */
  lemma Starts(d: seq<Entry>, l: seq<Entry>, s: State, cluster: int)
    requires InBounds(d, s) && Elems(l) == Elems(d)
    ensures Step(d, l, s, ScanInit) == State(0, if |d| < 8 then |d| else 8, 0)
    ensures s.len > 0 ==> var t := Step(d, l, s, ScanInitFirst(cluster));
      if forall i :: 0 <= i < |l| ==> l[i].cluster != cluster then t == s
      else t.len == 1 && t.sel == 0 && t.k < |d| && IsLast(l, cluster, d[t.k])
    ensures s.len == 1 ==> var t := Step(d, l, s, ScanInitNext);
      t.k == s.k && t.sel == 0 && t.len == if |d| - s.k < 8 then |d| - s.k else 8
  {
    FindIsLast(d, l, cluster);
  }

  /** A listed entry is among the first eight exactly when fewer than eight listed ones come before it. */
  lemma ShownFirst(d: seq<Entry>, l: seq<Entry>, e: Entry)
    requires Listing(d, l) && e in Elems(l)
    ensures e in d[..if |d| < 8 then |d| else 8] <==> |Below(Elems(l), e)| < 8
  {
    var r :| 0 <= r < |d| && d[r] == e;
    OrderedAll(d, true);
    PrefixCount(d, r);
    assert Below(Elems(l), e) == Elems(d[..r]) by {
      forall x | x in Below(Elems(d), e) ensures x in Elems(d[..r]) {
        var i :| 0 <= i < |d| && d[i] == x;
        assert d[..r][i] == x;
      }
    }
    if r < 8 {
      assert d[..if |d| < 8 then |d| else 8][r] == e;
    }
  }

  lemma {:induction false} PrefixCount(d: seq<Entry>, r: nat)
    requires Ordered(d, true) && r <= |d|
    ensures |Elems(d[..r])| == r
  {
    OrderedAll(d, true);
    if r > 0 {
      PrefixCount(d, r - 1);
      assert Elems(d[..r]) == Elems(d[..r - 1]) + {d[r - 1]};
    } else {
      assert Elems(d[..0]) == {};
    }
  }

  function Repeated(mode: Mode, n: nat): (modes: seq<Mode>)
    ensures |modes| == n && forall i :: 0 <= i < n ==> modes[i] == mode
  {
    seq(n, _ => mode)
  }

  /** Stepping down from the start selects one entry after the other, to the last one. */
  lemma {:induction false} WalksDown(d: seq<Entry>, l: seq<Entry>, s: State, n: nat)
    requires InBounds(d, s) && Full(d, s) && s.len > 0 && Rank(s) + n < |d|
    ensures Rank(Run(d, l, s, Repeated(ScanNext, n))) == Rank(s) + n
    decreases n
  {
    if n > 0 {
      var t := Step(d, l, s, ScanNext);
      StepInBounds(d, l, s, ScanNext);
      assert Repeated(ScanNext, n)[1..] == Repeated(ScanNext, n - 1);
      WalksDown(d, l, t, n - 1);
    }
  }

  /** And stepping up, back to the first. */
  lemma {:induction false} WalksUp(d: seq<Entry>, l: seq<Entry>, s: State, n: nat)
    requires InBounds(d, s) && s.len > 0 && n <= Rank(s)
    ensures Rank(Run(d, l, s, Repeated(ScanPrev, n))) == Rank(s) - n
    decreases n
  {
    if n > 0 {
      var t := Step(d, l, s, ScanPrev);
      StepInBounds(d, l, s, ScanPrev);
      PrevMoves(d, l, s);
      assert Repeated(ScanPrev, n)[1..] == Repeated(ScanPrev, n - 1);
      WalksUp(d, l, t, n - 1);
    }
  }

  /** Every directory without equal entries has a sorted listing. */
  function Sorted(l: seq<Entry>): seq<Entry> {
    if l == [] then [] else Insert(Sorted(l[..|l| - 1]), l[|l| - 1], true)
  }

  lemma {:induction false} SortedLists(l: seq<Entry>)
    requires forall i, j :: 0 <= i < j < |l| ==> l[i].key != l[j].key
    ensures Listing(Sorted(l), l)
  {
    if l != [] {
      var n := |l| - 1;
      SortedLists(l[..n]);
      var v := Sorted(l[..n]);
      forall i | 0 <= i < |v| ensures v[i].key != l[n].key {
        assert v[i] in Elems(v);
        var j :| 0 <= j < n && l[..n][j] == v[i];
      }
      InsertOrdered(v, l[n], true);
      assert Elems(l) == Elems(l[..n]) + {l[n]};
    }
  }
}
