/** What the directory browser (Lib/fat.c, ScanDirectory) shows: a window of at most
    eight entries onto the sorted directory. */
module DirSpec {
  import opened Words
  import opened Bits

  /** A directory entry, reduced to its place in CompareDirEntries' order and its first cluster. */
  datatype Entry = Entry(key: int, cluster: int)

  const MAXDIRENTRIES := 8

  /** The comparator: ascending when `up`, descending for the page-up scan. */
  predicate Before(a: Entry, b: Entry, up: bool) {
    if up then a.key < b.key else a.key > b.key
  }

  /** Says which two entries are compared. */
  predicate Pair(i: int, j: int) {
    true
  }

  ghost predicate Ordered(v: seq<Entry>, up: bool) {
    forall i, j {:trigger Pair(i, j)} :: Pair(i, j) && 0 <= i < j < |v| ==> Before(v[i], v[j], up)
  }

  lemma OrderedAll(v: seq<Entry>, up: bool)
    requires Ordered(v, up)
    ensures forall i, j :: 0 <= i < j < |v| ==> Before(v[i], v[j], up)
  {
    forall i, j | 0 <= i < j < |v| ensures Before(v[i], v[j], up) {
      assert Pair(i, j);
    }
  }

  ghost function Elems(v: seq<Entry>): set<Entry> {
    set e | e in v
  }

  /** d is the directory l in order; no two entries of l compare equal. */
  ghost predicate Listing(d: seq<Entry>, l: seq<Entry>) {
    Ordered(d, true) && Elems(d) == Elems(l) && forall i, j :: 0 <= i < j < |l| ==> l[i].key != l[j].key
  }

  // ---------- A table of the best eight ----------

  /** Where the bubble pass puts e: after the last entry it does not come before. */
  function Slot(v: seq<Entry>, e: Entry, up: bool): (p: nat)
    ensures p <= |v|
  {
    if v == [] || !Before(e, v[|v| - 1], up) then |v| else Slot(v[..|v| - 1], e, up)
  }

  function Insert(v: seq<Entry>, e: Entry, up: bool): seq<Entry> {
    var p := Slot(v, e, up);
    v[..p] + [e] + v[p..]
  }

  /** A new entry goes into a table with room, or pushes the last one out, or is dropped. */
  function Offer(v: seq<Entry>, e: Entry, up: bool): seq<Entry> {
    if |v| < MAXDIRENTRIES then Insert(v, e, up)
    else if Before(e, v[|v| - 1], up) then Insert(v[..|v| - 1], e, up)
    else v
  }

  /** v holds the first eight of s, in order. */
  ghost predicate IsBest(v: seq<Entry>, s: set<Entry>, up: bool) {
    && |v| <= MAXDIRENTRIES && Ordered(v, up)
    && (forall i :: 0 <= i < |v| ==> v[i] in s)
    && (forall e :: e in s && e !in v ==> |v| == MAXDIRENTRIES && Before(v[|v| - 1], e, up))
  }

  /** No entry comes before the one ahead of it; equal ones may follow one another. */
  ghost predicate Rising(v: seq<Entry>, up: bool) {
    forall i :: 0 < i < |v| ==> !Before(v[i], v[i - 1], up)
  }

  lemma OrderedRises(v: seq<Entry>, up: bool)
    requires Ordered(v, up)
    ensures Rising(v, up)
  {
    OrderedAll(v, up);
    forall i | 0 < i < |v| ensures !Before(v[i], v[i - 1], up) {
      assert Before(v[i - 1], v[i], up);
    }
  }

  /** Where Slot stops. */
  lemma {:induction false} SlotStops(v: seq<Entry>, e: Entry, up: bool)
    ensures var p := Slot(v, e, up);
      (p > 0 ==> !Before(e, v[p - 1], up)) && forall i :: p <= i < |v| ==> Before(e, v[i], up)
  {
    if v != [] && Before(e, v[|v| - 1], up) {
      SlotStops(v[..|v| - 1], e, up);
    }
  }

  /** Two entries that neither comes before the other of may both be in a table, and it still rises. */
  lemma InsertRises(v: seq<Entry>, e: Entry, up: bool)
    requires Rising(v, up)
    ensures Rising(Insert(v, e, up), up)
  {
    SlotStops(v, e, up);
    var p, w := Slot(v, e, up), Insert(v, e, up);
    forall i | 0 < i < |w| ensures !Before(w[i], w[i - 1], up) {
      if i < p {
        assert w[i] == v[i] && w[i - 1] == v[i - 1];
      } else if i > p + 1 {
        assert w[i] == v[i - 1] && w[i - 1] == v[i - 2];
      }
    }
  }

  lemma OfferRises(v: seq<Entry>, e: Entry, up: bool)
    requires Rising(v, up)
    ensures Rising(Offer(v, e, up), up)
  {
    InsertRises(v, e, up);
    if v != [] {
      InsertRises(v[..|v| - 1], e, up);
    }
  }

  lemma {:induction false} SlotSplits(v: seq<Entry>, e: Entry, up: bool)
    requires Ordered(v, up)
    ensures var p := Slot(v, e, up);
      && (forall i :: 0 <= i < p ==> !Before(e, v[i], up))
      && (forall i :: p <= i < |v| ==> Before(e, v[i], up))
  {
    OrderedAll(v, up);
    if v != [] && Before(e, v[|v| - 1], up) {
      SlotSplits(v[..|v| - 1], e, up);
    }
  }

  /** w is v with e put in at p. */
  ghost predicate IsInsert(v: seq<Entry>, w: seq<Entry>, e: Entry, p: nat) {
    && p <= |v| && |w| == |v| + 1 && w[p] == e
    && (forall i :: 0 <= i < p ==> w[i] == v[i]) && (forall i :: p < i < |w| ==> w[i] == v[i - 1])
  }

  lemma InsertElems(v: seq<Entry>, w: seq<Entry>, e: Entry, p: nat)
    requires IsInsert(v, w, e, p)
    ensures Elems(w) == Elems(v) + {e}
  {
    forall x | x in v ensures x in w {
      var i :| 0 <= i < |v| && v[i] == x;
      assert w[if i < p then i else i + 1] == x;
    }
  }

  lemma InsertSorts(v: seq<Entry>, w: seq<Entry>, e: Entry, p: nat, up: bool)
    requires IsInsert(v, w, e, p) && Ordered(v, up)
    requires forall i :: 0 <= i < p ==> Before(v[i], e, up)
    requires forall i :: p <= i < |v| ==> Before(e, v[i], up)
    ensures Ordered(w, up)
  {
    OrderedAll(v, up);
  }

  lemma InsertOrdered(v: seq<Entry>, e: Entry, up: bool)
    requires Ordered(v, up) && forall i :: 0 <= i < |v| ==> v[i].key != e.key
    ensures Ordered(Insert(v, e, up), up) && Elems(Insert(v, e, up)) == Elems(v) + {e}
  {
    SlotSplits(v, e, up);
    var p, w := Slot(v, e, up), Insert(v, e, up);
    assert IsInsert(v, w, e, p);
    InsertElems(v, w, e, p);
    InsertSorts(v, w, e, p, up);
  }

  /** Offering one more entry keeps the table the best of what was offered. */
  lemma OfferKeepsBest(v: seq<Entry>, s: set<Entry>, e: Entry, up: bool)
    requires IsBest(v, s, up) && forall x :: x in s ==> x.key != e.key
    ensures IsBest(Offer(v, e, up), s + {e}, up)
  {
    if |v| < MAXDIRENTRIES {
      InsertOrdered(v, e, up);
      var w := Insert(v, e, up);
      forall x | x in s + {e} ensures x in w {
        assert x in Elems(w);
      }
    } else if Before(e, v[|v| - 1], up) {
      PushOut(v, s, e, up);
    } else {
      assert Before(v[|v| - 1], e, up) by { assert v[|v| - 1] in s; }
    }
  }

  lemma PushOut(v: seq<Entry>, s: set<Entry>, e: Entry, up: bool)
    requires IsBest(v, s, up) && |v| == MAXDIRENTRIES && Before(e, v[|v| - 1], up)
    requires forall x :: x in s ==> x.key != e.key
    ensures IsBest(Insert(v[..|v| - 1], e, up), s + {e}, up)
  {
    OrderedAll(v, up);
    var t := v[..|v| - 1];
    var w := Insert(t, e, up);
    InsertOrdered(t, e, up);
    assert forall i :: 0 <= i < |w| ==> w[i] in Elems(w);
    var last := w[|w| - 1];
    assert last in Elems(t) + {e};
    assert Before(last, v[|v| - 1], up);
    forall x | x in s + {e} && x !in w ensures Before(last, x, up) {
      assert x !in Elems(w);
      assert forall i :: 0 <= i < |t| ==> t[i] in Elems(t);
      assert x !in t;
      if x in v {
        var i :| 0 <= i < |v| && v[i] == x;
        assert i < |t| ==> x in t;
      }
    }
  }

  /** There is only one best table. */
  lemma {:induction false} BestIsUnique(v: seq<Entry>, w: seq<Entry>, s: set<Entry>, up: bool, k: nat)
    requires IsBest(v, s, up) && IsBest(w, s, up) && k <= |v|
    requires forall x, y :: x in s && y in s && x != y ==> x.key != y.key
    ensures k <= |w| && v[..k] == w[..k]
  {
    if k > 0 {
      BestIsUnique(v, w, s, up, k - 1);
      NextBest(v, w, s, up, k - 1);
    }
  }

  /** Two best tables that agree so far agree on the next entry. */
  lemma NextBest(v: seq<Entry>, w: seq<Entry>, s: set<Entry>, up: bool, k: nat)
    requires IsBest(v, s, up) && IsBest(w, s, up) && k < |v|
    requires forall x, y :: x in s && y in s && x != y ==> x.key != y.key
    requires k <= |w| && v[..k] == w[..k]
    ensures k < |w| && v[k] == w[k]
  {
    OrderedAll(v, up);
    OrderedAll(w, up);
    assert forall i :: 0 <= i < k ==> v[i] == v[..k][i] == w[i];
    assert v[k] in s;
    var x := v[k];
    assert k == |w| ==> x !in w;
    if k == |w| {
      assert false;
    } else if v[k] != w[k] {
      assert w[k] in s;
      if Before(v[k], w[k], up) {
        Earlier(w, s, up, k, v[k]);
      } else {
        Earlier(v, s, up, k, w[k]);
      }
    }
  }

  /** What comes before entry k of a best table is in the table, before it. */
  lemma Earlier(w: seq<Entry>, s: set<Entry>, up: bool, k: nat, x: Entry)
    requires IsBest(w, s, up) && k < |w| && x in s && Before(x, w[k], up)
    ensures exists i :: 0 <= i < k && w[i] == x
  {
    OrderedAll(w, up);
    assert w[|w| - 1] == w[k] || Before(w[k], w[|w| - 1], up);
    assert x in w;
    var i :| 0 <= i < |w| && w[i] == x;
    OrderedAt(w, k, i, up);
  }

  lemma OrderedAt(w: seq<Entry>, k: nat, i: nat, up: bool)
    requires Ordered(w, up) && k < |w| && i < |w|
    ensures k < i ==> Before(w[k], w[i], up)
  {
    assert Pair(k, i);
  }

  // ---------- The directory on disk ----------

  /** A raw directory slot, as far as the scan looks at it. */
  datatype DirSlot = DirSlot(name: seq<int>, attributes: nat, entry: Entry)

  const SLOT_EMPTY := 0x00
  const SLOT_DELETED := 0xE5
  const DOT := 0x2E
  const SPACE := 0x20
  const STAR := 0x2A
  const ATTR_HIDDEN := 0x02
  const ATTR_VOLUME := 0x08
  const ATTR_DIRECTORY := 0x10
  const ATTR_LFN := 0x0F

  /** strncmp finds no difference: none before the end of both strings, or of n chars. */
  predicate Same(s: seq<int>, t: seq<int>, n: nat)
    requires n <= |s| && n <= |t|
  {
    n == 0 || (s[0] == t[0] && (s[0] == 0 || Same(s[1..], t[1..], n - 1)))
  }

  lemma {:induction false} SameMeans(s: seq<int>, t: seq<int>, n: nat)
    requires n <= |s| && n <= |t|
    ensures Same(s, t, n) <==> forall i :: 0 <= i < n && NoEnd(s, i) ==> s[i] == t[i]
  {
    if n > 0 && s[0] == t[0] && s[0] != 0 {
      SameMeans(s[1..], t[1..], n - 1);
      forall i | 0 <= i < n - 1 ensures NoEnd(s, i + 1) <==> NoEnd(s[1..], i) {
        if NoEnd(s, i + 1) {
          assert forall j :: 0 <= j < i ==> s[1..][j] == s[j + 1];
        }
      }
      assert forall i :: 0 <= i < n - 1 ==> s[1..][i] == s[i + 1] && t[1..][i] == t[i + 1];
      if Same(s, t, n) {
        forall i | 0 <= i < n && NoEnd(s, i) ensures s[i] == t[i] {
          assert i > 0 ==> NoEnd(s[1..], i - 1) && s[1..][i - 1] == t[1..][i - 1];
        }
      } else {
        var i :| 0 <= i < n - 1 && NoEnd(s[1..], i) && s[1..][i] != t[1..][i];
        assert NoEnd(s, i + 1);
      }
    } else if n > 0 {
      assert NoEnd(s, 0);
    }
  }

  /** The string does not end before place i. */
  ghost predicate NoEnd(s: seq<int>, i: int) {
    forall j :: 0 <= j < i && j < |s| ==> s[j] != 0
  }

  /** The scan's filter: in use, a short name, neither volume label nor hidden, not the "."
      entry, and of the wanted extension (or any directory, if those are wanted too). */
  predicate Accepts(x: DirSlot, extension: seq<int>, dirs: bool)
    requires |x.name| == 11 && |extension| == 3
  {
    && x.name[0] != SLOT_EMPTY && x.name[0] != SLOT_DELETED && x.attributes != ATTR_LFN
    && And(x.attributes, Or(ATTR_VOLUME, ATTR_HIDDEN)) == 0 && (x.name[0] != DOT || x.name[1] != SPACE)
    && (extension[0] == STAR || Same(x.name[8..], extension, 3) || (dirs && And(x.attributes, ATTR_DIRECTORY) != 0))
  }

  /** Slots are left out whose name starts with 0 or 0xE5 or with ". ", and those that are hidden (bit 1 of the
      attributes) or a volume label (bit 3), as parts of long names are; of the others those count that have the
      extension, or if directories are wanted that are one (bit 4). */
  lemma AcceptsMeans(x: DirSlot, extension: seq<int>, dirs: bool)
    requires |x.name| == 11 && |extension| == 3 && x.attributes < 0x100
    ensures Accepts(x, extension, dirs) <==>
      && x.name[0] !in {0, 0xE5} && !(x.name[0] == 0x2E && x.name[1] == 0x20)
      && Bit(x.attributes, 1) == 0 && Bit(x.attributes, 3) == 0
      && (extension[0] == 0x2A || (dirs && Bit(x.attributes, 4) == 1)
          || forall i :: 0 <= i < 3 && NoEnd(x.name[8..], i) ==> x.name[8..][i] == extension[i])
  {
    hide And, Same, Bit;
    SameMeans(x.name[8..], extension, 3);
    AttributeBits(x.attributes);
  }

  lemma AttributeBits(a: nat)
    requires a < 0x100
    ensures And(a, Or(ATTR_VOLUME, ATTR_HIDDEN)) == 0 <==> Bit(a, 1) == 0 && Bit(a, 3) == 0
    ensures And(a, ATTR_DIRECTORY) != 0 <==> Bit(a, 4) == 1
    ensures a == ATTR_LFN ==> Bit(a, 1) == 1
  {
    hide And, Bit;
    MaskBits();
    forall i: nat ensures Bit(And(a, 0x0A), i) == if Bit(a, i) == 1 && Bit(0x0A, i) == 1 then 1 else 0 {
      AndBits(a, 0x0A, i);
    }
    forall i: nat ensures Bit(And(a, 0x10), i) == if Bit(a, i) == 1 && Bit(0x10, i) == 1 then 1 else 0 {
      AndBits(a, 0x10, i);
    }
    AndSmall(a, 0x0A);
    AndSmall(a, 0x10);
    WordBits();
    forall i: nat ensures Bit(0, i) == 0 && (Bit(a, i) == 0 || Bit(a, i) == 1) {
      NoBits(i);
      BitIs(a, i);
    }
    if Bit(a, 1) == 0 && Bit(a, 3) == 0 {
      ZeroBits(And(a, 0x0A), 8);
    }
    if Bit(a, 4) == 0 {
      ZeroBits(And(a, 0x10), 8);
    }
  }

  lemma MaskBits()
    ensures Or(ATTR_VOLUME, ATTR_HIDDEN) == 0x0A && Bit(ATTR_LFN, 1) == 1
    ensures forall i: nat {:trigger Bit(0x0A, i)} :: i < 8 ==> (Bit(0x0A, i) == 1 <==> i == 1 || i == 3)
    ensures forall i: nat {:trigger Bit(0x10, i)} :: i < 8 ==> (Bit(0x10, i) == 1 <==> i == 4)
  {
    assert Or(8, 2) == 2 * Or(4, 1) && Or(4, 1) == 2 * Or(2, 0) + 1;
    assert Pow2(0) == 1 && Pow2(1) == 2 && Pow2(2) == 4 && Pow2(3) == 8;
    assert Pow2(4) == 16 && Pow2(5) == 32 && Pow2(6) == 64 && Pow2(7) == 128;
  }

  datatype Disk = Disk(slots: seq<DirSlot>, extension: seq<int>, dirs: bool) {
    ghost predicate Valid() {
      |extension| == 3 && forall i :: 0 <= i < |slots| ==> |slots[i].name| == 11
    }

    predicate Wanted(i: nat)
      requires Valid() && i < |slots|
    {
      Accepts(slots[i], extension, dirs)
    }

    /** The entries accepted among the first i slots, in disk order. */
    function Listed(i: nat): seq<Entry>
      requires Valid() && i <= |slots|
    {
      if i == 0 then []
      else if Wanted(i - 1) then Listed(i - 1) + [slots[i - 1].entry]
      else Listed(i - 1)
    }

    function All(): seq<Entry>
      requires Valid()
    {
      Listed(|slots|)
    }

    /** Just the accepted slots' entries are listed. */
    lemma {:induction false} ListedAre(i: nat, e: Entry)
      requires Valid() && i <= |slots|
      ensures e in Elems(Listed(i)) <==> exists j :: 0 <= j < i && Wanted(j) && slots[j].entry == e
    {
      if i > 0 {
        ListedAre(i - 1, e);
        if Wanted(i - 1) {
          var l := Listed(i - 1);
          assert Listed(i) == l + [slots[i - 1].entry];
          assert Listed(i)[|l|] == slots[i - 1].entry;
          if e in Elems(l) {
            var k :| 0 <= k < |l| && l[k] == e;
            assert Listed(i)[k] == e;
          }
        }
      }
    }

    lemma ListedNext(i: nat)
      requires Valid() && i < |slots| && Wanted(i)
      ensures Listed(i + 1) == Listed(i) + [slots[i].entry]
    {
    }

    lemma {:induction false} ListedPrefix(i: nat)
      requires Valid() && i <= |slots|
      ensures Listed(i) <= All()
      decreases |slots| - i
    {
      if i < |slots| {
        ListedPrefix(i + 1);
      }
    }

    /** The next entry accepted is new: nothing seen so far compares equal to it. */
    lemma NextIsNew(d: seq<Entry>, i: nat)
      requires Valid() && i < |slots| && Wanted(i) && Listing(d, All())
      ensures forall x :: x in Elems(Listed(i)) ==> x.key != slots[i].entry.key
      ensures slots[i].entry in d && Elems(Listed(i + 1)) == Elems(Listed(i)) + {slots[i].entry}
    {
      ListedPrefix(i + 1);
      var l := All();
      assert l[|Listed(i)|] == slots[i].entry;
      assert l[|Listed(i)|] in Elems(l);
      forall x | x in Elems(Listed(i)) ensures x.key != slots[i].entry.key {
        var j :| 0 <= j < |Listed(i)| && Listed(i)[j] == x;
        assert l[j] == x;
      }
    }
  }

  // ---------- Navigation ----------

  /** The window starts at rank k of the sorted directory, shows len entries, and sel is selected. */
  datatype State = State(k: nat, len: nat, sel: nat)

  datatype Mode =
    | ScanInit | ScanNext | ScanPrev | ScanNextPage | ScanPrevPage
    | ScanInitFirst(cluster: int) | ScanInitNext

  function Min(a: int, b: int): int {
    if a < b then a else b
  }

  /** Rank of the last listed entry, in disk order, with the given first cluster; -1 if none. */
  function Find(d: seq<Entry>, l: seq<Entry>, cluster: int): (r: int)
    ensures -1 <= r < |d|
  {
    if l == [] then -1
    else if l[|l| - 1].cluster == cluster && RankOf(d, l[|l| - 1]) < |d| then RankOf(d, l[|l| - 1])
    else Find(d, l[..|l| - 1], cluster)
  }

  /** That is what it finds, when everything listed is in d. */
  lemma {:induction false} FindIsLast(d: seq<Entry>, l: seq<Entry>, cluster: int)
    requires Elems(l) <= Elems(d)
    ensures Find(d, l, cluster) == -1 <==> forall i :: 0 <= i < |l| ==> l[i].cluster != cluster
    ensures Find(d, l, cluster) >= 0 ==> IsLast(l, cluster, d[Find(d, l, cluster)])
  {
    if l != [] {
      var n := |l| - 1;
      assert l[n] in Elems(l);
      RankOfAt(d, l[n]);
      FindIsLast(d, l[..n], cluster);
      if l[n].cluster != cluster {
        assert forall i :: 0 <= i < n ==> l[..n][i] == l[i];
        LastOfMore(l, cluster, d, Find(d, l[..n], cluster));
      }
    }
  }

  /** One more entry listed, which is found if it has that first cluster. */
  lemma FindNext(d: seq<Entry>, l: seq<Entry>, e: Entry, cluster: int)
    requires e in d
    ensures if e.cluster == cluster then var r := Find(d, l + [e], cluster); r >= 0 && d[r..r + 1] == [e]
      else Find(d, l + [e], cluster) == Find(d, l, cluster)
  {
    RankOfAt(d, e);
    assert (l + [e])[..|l|] == l;
  }

  /** e is the last entry of l with that first cluster. */
  ghost predicate IsLast(l: seq<Entry>, cluster: int, e: Entry) {
    exists i :: 0 <= i < |l| && l[i] == e && e.cluster == cluster && NoneFrom(l, cluster, i + 1)
  }

  ghost predicate NoneFrom(l: seq<Entry>, cluster: int, i: int) {
    forall j :: i <= j < |l| && j >= 0 ==> l[j].cluster != cluster
  }

  lemma LastOfMore(l: seq<Entry>, cluster: int, d: seq<Entry>, r: int)
    requires l != [] && l[|l| - 1].cluster != cluster && r < |d|
    requires r >= 0 ==> IsLast(l[..|l| - 1], cluster, d[r])
    ensures r >= 0 ==> IsLast(l, cluster, d[r])
  {
    if r >= 0 {
      var m := l[..|l| - 1];
      var i :| 0 <= i < |m| && m[i] == d[r] && d[r].cluster == cluster && NoneFrom(m, cluster, i + 1);
      assert l[i] == d[r];
      forall j | i + 1 <= j < |l| ensures l[j].cluster != cluster {
        if j < |m| { assert m[j].cluster != cluster; }
      }
      assert NoneFrom(l, cluster, i + 1);
    }
  }

  function RankOf(d: seq<Entry>, e: Entry): nat {
    if d == [] || d[0] == e then 0 else 1 + RankOf(d[1..], e)
  }

  function Step(d: seq<Entry>, l: seq<Entry>, s: State, mode: Mode): State {
    var n := |d|;
    if mode == ScanInit then State(0, Min(MAXDIRENTRIES, n), 0)
    else if s.len == 0 then s
    else match mode
      case ScanInit => s
      case ScanNext =>
        if s.sel + 1 < s.len then s.(sel := s.sel + 1)
        else if s.len < MAXDIRENTRIES || s.k + s.len >= n then s
        else s.(k := s.k + 1)
      case ScanPrev =>
        if s.sel > 0 then s.(sel := s.sel - 1)
        else if s.k == 0 then s
        else State(s.k - 1, Min(MAXDIRENTRIES, s.len + 1), 0)
      case ScanNextPage =>
        if s.sel + 1 < s.len then s.(sel := s.len - 1)
        else if s.len < MAXDIRENTRIES || s.k + s.len >= n then s
        else s.(k := s.k + Min(MAXDIRENTRIES, n - s.k - s.len))
      case ScanPrevPage =>
        if s.sel > 0 then s.(sel := 0)
        else
          var m := Min(MAXDIRENTRIES, s.k);
          State(s.k - m, Min(MAXDIRENTRIES, s.len + m), 0)
      case ScanInitFirst(cluster) =>
        var r := Find(d, l, cluster);
        if r >= 0 then State(r, 1, 0) else s
      case ScanInitNext => s.(len := if n >= s.k then Min(MAXDIRENTRIES, n - s.k) else 0)
  }

  /** What is on the screen: a contiguous slice of the sorted directory, with a selected entry. */
  ghost predicate Shows(d: seq<Entry>, s: State, view: seq<Entry>) {
    && s.len <= MAXDIRENTRIES && s.k + s.len <= |d| && view == d[s.k..s.k + s.len]
    && s.sel < (if s.len == 0 then 1 else s.len)
  }

  /** What is shown is in order. */
  lemma ShownOrdered(d: seq<Entry>, s: State, view: seq<Entry>)
    requires Ordered(d, true) && Shows(d, s, view)
    ensures Ordered(view, true)
  {
    OrderedAll(d, true);
  }

  // ---------- Slices are best tables ----------

  ghost function Above(s: set<Entry>, b: Entry): set<Entry> {
    set e | e in s && e.key > b.key
  }

  ghost function Below(s: set<Entry>, b: Entry): set<Entry> {
    set e | e in s && e.key < b.key
  }

  function Reverse(v: seq<Entry>): (r: seq<Entry>)
    ensures |r| == |v| && forall i :: 0 <= i < |v| ==> r[i] == v[|v| - 1 - i]
  {
    if v == [] then [] else Reverse(v[1..]) + [v[0]]
  }

  lemma AboveBest(d: seq<Entry>, m: nat)
    requires Ordered(d, true) && m < |d|
    ensures IsBest(d[m + 1..Min(m + 1 + MAXDIRENTRIES, |d|)], Above(Elems(d), d[m]), true)
  {
    OrderedAll(d, true);
    var w := d[m + 1..Min(m + 1 + MAXDIRENTRIES, |d|)];
    forall e | e in Above(Elems(d), d[m]) ensures e in w || (|w| == MAXDIRENTRIES && Before(w[|w| - 1], e, true)) {
      var i :| 0 <= i < |d| && d[i] == e;
      assert i > m;
      if i < m + 1 + |w| {
        assert w[i - m - 1] == e;
      }
    }
  }

  lemma BelowBest(d: seq<Entry>, k: nat)
    requires Ordered(d, true) && k < |d|
    ensures IsBest(Reverse(d[k - Min(MAXDIRENTRIES, k)..k]), Below(Elems(d), d[k]), false)
  {
    var m := Min(MAXDIRENTRIES, k);
    ReversedBest(d, k, m, Reverse(d[k - m..k]));
  }

  lemma ReversedBest(d: seq<Entry>, k: nat, m: nat, w: seq<Entry>)
    requires Ordered(d, true) && k < |d| && m == Min(MAXDIRENTRIES, k)
    requires |w| == m && forall i :: 0 <= i < m ==> w[i] == d[k - 1 - i]
    ensures IsBest(w, Below(Elems(d), d[k]), false)
  {
    OrderedAll(d, true);
    forall e | e in Below(Elems(d), d[k]) ensures e in w || (|w| == MAXDIRENTRIES && Before(w[|w| - 1], e, false)) {
      var i :| 0 <= i < |d| && d[i] == e;
      assert i < k;
      if i >= k - m {
        assert w[k - 1 - i] == e;
      }
    }
  }

  lemma FirstBest(d: seq<Entry>, k: nat)
    requires Ordered(d, true) && k <= |d|
    ensures IsBest(d[k..Min(k + MAXDIRENTRIES, |d|)], Elems(d[k..]), true)
  {
    OrderedAll(d, true);
    var w := d[k..Min(k + MAXDIRENTRIES, |d|)];
    forall e | e in Elems(d[k..]) ensures e in w || (|w| == MAXDIRENTRIES && Before(w[|w| - 1], e, true)) {
      var i :| 0 <= i < |d[k..]| && d[k..][i] == e;
      if i < |w| {
        assert w[i] == e;
      }
    }
  }

  /** The least entry above d[m] is its successor, and the greatest below is its predecessor. */
  lemma Successor(d: seq<Entry>, m: nat, x: Entry)
    requires Ordered(d, true) && m < |d| && x in Above(Elems(d), d[m])
    requires forall y :: y in Above(Elems(d), d[m]) ==> x.key <= y.key
    ensures m + 1 < |d| && x == d[m + 1]
  {
    OrderedAll(d, true);
    var i :| 0 <= i < |d| && d[i] == x;
    assert i > m;
    assert d[m + 1] in Above(Elems(d), d[m]);
  }

  lemma Predecessor(d: seq<Entry>, k: nat, x: Entry)
    requires Ordered(d, true) && k < |d| && x in Below(Elems(d), d[k])
    requires forall y :: y in Below(Elems(d), d[k]) ==> x.key >= y.key
    ensures k > 0 && x == d[k - 1]
  {
    OrderedAll(d, true);
    var i :| 0 <= i < |d| && d[i] == x;
    assert i < k;
    assert d[k - 1] in Below(Elems(d), d[k]);
  }

  /** Whatever is best among the same entries is the same table. */
  lemma SameBest(v: seq<Entry>, w: seq<Entry>, s: set<Entry>, up: bool)
    requires IsBest(v, s, up) && IsBest(w, s, up)
    requires forall x, y :: x in s && y in s && x != y ==> x.key != y.key
    ensures v == w
  {
    BestIsUnique(v, w, s, up, |v|);
    BestIsUnique(w, v, s, up, |w|);
    assert v[..|v|] == v && w[..|w|] == w;
  }

  lemma KeysDiffer(d: seq<Entry>, s: set<Entry>)
    requires Ordered(d, true) && s <= Elems(d)
    ensures forall x, y :: x in s && y in s && x != y ==> x.key != y.key
  {
    OrderedAll(d, true);
    forall x, y | x in s && y in s && x != y ensures x.key != y.key {
      var i :| 0 <= i < |d| && d[i] == x;
      var j :| 0 <= j < |d| && d[j] == y;
    }
  }

  /** A best table that has the least entry of all has it first. */
  lemma LeastIsFirst(v: seq<Entry>, s: set<Entry>, b: Entry)
    requires IsBest(v, s, true) && b in s && forall e :: e in s && e != b ==> e.key > b.key
    ensures |v| > 0 && v[0] == b
  {
    assert forall i :: 0 <= i < |v| ==> v[i] in s;
    if b in v {
      var i :| 0 <= i < |v| && v[i] == b;
      OrderedAt(v, 0, i, true);
    }
  }

  // ---------- Following up an entry ----------

  /** What SCAN_INIT_NEXT makes of one more entry, and of all of l: what comes after the first one shown
      is offered, whether it is shown already or not. */
  function FollowOne(v: seq<Entry>, e: Entry): seq<Entry> {
    if v != [] && Before(v[0], e, true) then Offer(v, e, true) else v
  }

  function Followed(v: seq<Entry>, l: seq<Entry>): seq<Entry> {
    FollowedTo(v, l, |l|)
  }

  /** The first n of them. */
  function FollowedTo(v: seq<Entry>, l: seq<Entry>, n: nat): seq<Entry>
    requires n <= |l|
  {
    if n == 0 then v else FollowOne(FollowedTo(v, l, n - 1), l[n - 1])
  }

  lemma {:induction false} FollowedSame(v: seq<Entry>, l: seq<Entry>, m: seq<Entry>, n: nat)
    requires n <= |l| && n <= |m| && forall i :: 0 <= i < n ==> l[i] == m[i]
    ensures FollowedTo(v, l, n) == FollowedTo(v, m, n)
  {
    if n > 0 {
      FollowedSame(v, l, m, n - 1);
    }
  }

  lemma FollowedMore(v: seq<Entry>, l: seq<Entry>, e: Entry)
    ensures Followed(v, l + [e]) == FollowOne(Followed(v, l), e)
  {
    FollowedSame(v, l, l + [e], |l|);
  }

  /** b and those of the entries seen that come after it. */
  ghost function OnFrom(b: Entry, seen: set<Entry>): set<Entry> {
    {b} + Above(seen, b)
  }

  ghost predicate Different(l: seq<Entry>) {
    forall i, j :: 0 <= i < j < |l| ==> l[i].key != l[j].key
  }

  /** With just b shown, that is the best of what comes after it. */
  lemma {:induction false} FollowedBest(b: Entry, l: seq<Entry>)
    requires Different(l)
    ensures IsBest(Followed([b], l), OnFrom(b, Elems(l)), true)
  {
    if l == [] {
      assert OnFrom(b, Elems(l)) == {b};
    } else {
      var n := |l| - 1;
      FollowedBest(b, l[..n]);
      assert Elems(l) == Elems(l[..n]) + {l[n]};
      FollowedMore([b], l[..n], l[n]);
      assert l[..n] + [l[n]] == l;
      FollowBest(Followed([b], l[..n]), b, Elems(l[..n]), l[n]);
    }
  }

  lemma FollowBest(v: seq<Entry>, b: Entry, seen: set<Entry>, e: Entry)
    requires IsBest(v, OnFrom(b, seen), true) && forall x :: x in seen ==> x.key != e.key
    ensures IsBest(FollowOne(v, e), OnFrom(b, seen + {e}), true)
  {
    LeastIsFirst(v, OnFrom(b, seen), b);
    if e.key > b.key {
      assert OnFrom(b, seen + {e}) == OnFrom(b, seen) + {e};
      OfferKeepsBest(v, OnFrom(b, seen), e, true);
    } else {
      assert OnFrom(b, seen + {e}) == OnFrom(b, seen);
    }
  }

  /** With more than that shown, w starts with d[k] and d[k + 1], and if `twice` with another d[k + 1]. */
  ghost predicate Doubled(d: seq<Entry>, k: nat, w: seq<Entry>, twice: bool) {
    && k + 1 < |d| && 2 <= |w| <= MAXDIRENTRIES && Rising(w, true) && w[0] == d[k] && w[1] == d[k + 1]
    && if twice then |w| > 2 && w[2] == d[k + 1] else |w| > 2 ==> w[2].key > d[k + 1].key
  }

  /** An entry after d[k] goes behind the first d[k + 1], and behind the second if it is another one. */
  lemma DoubledMore(d: seq<Entry>, k: nat, w: seq<Entry>, twice: bool, e: Entry)
    requires Ordered(d, true) && Doubled(d, k, w, twice) && e in d && (e == d[k + 1] ==> !twice)
    ensures Doubled(d, k, FollowOne(w, e), twice || e == d[k + 1])
  {
    OrderedAll(d, true);
    var i :| 0 <= i < |d| && d[i] == e;
    OrderedAt(d, i, k, true);
    OrderedAt(d, k + 1, i, true);
    if i > k {
      OfferRises(w, e, true);
      RisesAbove(w, 2);
      OfferDoubled(d, k, w, twice, e);
    }
  }

  lemma {:induction false} RisesAbove(w: seq<Entry>, i: nat)
    requires Rising(w, true)
    ensures forall j :: i <= j < |w| ==> w[i].key <= w[j].key
    decreases |w| - i
  {
    if i + 1 < |w| {
      RisesAbove(w, i + 1);
      assert !Before(w[i + 1], w[i], true);
    }
  }

  lemma OfferDoubled(d: seq<Entry>, k: nat, w: seq<Entry>, twice: bool, e: Entry)
    requires Doubled(d, k, w, twice) && Rising(Offer(w, e, true), true) && e.key >= d[k + 1].key > d[k].key
    requires (e.key == d[k + 1].key ==> e == d[k + 1] && !twice) && (forall j :: 2 <= j < |w| ==> w[2].key <= w[j].key)
    ensures Doubled(d, k, Offer(w, e, true), twice || e == d[k + 1])
  {
    SlotStops(w, e, true);
    SlotStops(w[..|w| - 1], e, true);
  }

  lemma {:induction false} FollowedDoubled(d: seq<Entry>, k: nat, v: seq<Entry>, l: seq<Entry>)
    requires Ordered(d, true) && Doubled(d, k, v, false) && Elems(l) <= Elems(d) && Different(l)
    ensures Doubled(d, k, Followed(v, l), d[k + 1] in l)
  {
    if l != [] {
      var n := |l| - 1;
      AllButLast(d, l, d[k + 1]);
      FollowedDoubled(d, k, v, l[..n]);
      FollowedMore(v, l[..n], l[n]);
      DoubledMore(d, k, Followed(v, l[..n]), d[k + 1] in l[..n], l[n]);
    }
  }

  lemma AllButLast(d: seq<Entry>, l: seq<Entry>, x: Entry)
    requires l != [] && Elems(l) <= Elems(d) && Different(l)
    ensures var n := |l| - 1;
      && l == l[..n] + [l[n]] && l[n] in d && Elems(l[..n]) <= Elems(d) && Different(l[..n])
      && (x in l <==> x in l[..n] || l[n] == x) && (l[n] == x ==> x !in l[..n])
  {
    var n := |l| - 1;
    assert forall i :: 0 <= i < n ==> l[..n][i] == l[i];
    assert Elems(l[..n]) <= Elems(l) && l[n] in Elems(l);
  }

  /** An entry shown twice is no part of a sorted directory. */
  lemma DoubledIsNoSlice(d: seq<Entry>, k: nat, w: seq<Entry>, s: State)
    requires Ordered(d, true) && Doubled(d, k, w, true)
    ensures !Shows(d, s, w)
  {
    if s.k + 2 < |d| {
      OrderedAt(d, s.k + 1, s.k + 2, true);
    }
  }

  lemma {:induction false} RankOfAt(d: seq<Entry>, e: Entry)
    requires e in d
    ensures RankOf(d, e) < |d| && d[RankOf(d, e)] == e
  {
    if d[0] != e {
      RankOfAt(d[1..], e);
    }
  }
}
