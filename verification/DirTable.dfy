/** Eight slots for directory entries, kept in order through a table of indices:
    DirEntry with sort_table, and t_DirEntry with t_sort_table (Lib/fat.c:88-99). */
module DirTable {
  import opened DirSpec

  /** The first n indices name slots below n, each once. */
  ghost predicate Indexes(order: seq<int>, n: int) {
    && |order| == MAXDIRENTRIES && 0 <= n <= MAXDIRENTRIES
    && (forall i :: 0 <= i < n ==> 0 <= order[i] < n)
    && (forall i, j {:trigger Pair(i, j)} :: Pair(i, j) && 0 <= i < j < n ==> order[i] != order[j])
  }

  lemma IndexesDiffer(order: seq<int>, n: int)
    requires Indexes(order, n)
    ensures forall i, j :: 0 <= i < j < n ==> order[i] != order[j]
  {
    forall i, j | 0 <= i < j < n ensures order[i] != order[j] {
      assert Pair(i, j);
    }
  }

  /** The n entries in order. */
  ghost function Shown(entries: seq<Entry>, order: seq<int>, n: int): (v: seq<Entry>)
    requires |entries| == |order| == MAXDIRENTRIES && 0 <= n <= MAXDIRENTRIES
    requires forall i :: 0 <= i < n ==> 0 <= order[i] < MAXDIRENTRIES
    ensures |v| == n && forall i :: 0 <= i < n ==> v[i] == entries[order[i]]
  {
    seq(n, i requires 0 <= i < n => entries[order[i]])
  }

  /** v with e put in at i. */
  function With(v: seq<Entry>, e: Entry, i: nat): (w: seq<Entry>)
    requires i <= |v|
    ensures |w| == |v| + 1 && w[i] == e
  {
    v[..i] + [e] + v[i..]
  }

  /** Swapping e with the entry before it moves e down by one. */
  lemma WithSwap(v: seq<Entry>, e: Entry, i: nat)
    requires 0 < i <= |v|
    ensures With(v, e, i)[i - 1] == v[i - 1]
    ensures With(v, e, i)[i - 1 := e][i := v[i - 1]] == With(v, e, i - 1)
  {
  }

  lemma SlotStep(v: seq<Entry>, e: Entry, up: bool, i: nat)
    requires 0 < i <= |v|
    ensures Slot(v[..i], e, up) == if Before(e, v[i - 1], up) then Slot(v[..i - 1], e, up) else i
  {
    assert v[..i][..i - 1] == v[..i - 1];
  }

  /** Sorting in the last entry of a sorted table changes nothing. */
  lemma LastStays(v: seq<Entry>, up: bool)
    requires v != [] && Rising(v, up)
    ensures Insert(v[..|v| - 1], v[|v| - 1], up) == v
  {
    assert Slot(v[..|v| - 1], v[|v| - 1], up) == |v| - 1;
  }

  // ---------- The slots as they are ----------

  /** The eight slots, the eight indices, and how many of them are in use. */
  datatype Slots = Slots(entries: seq<Entry>, order: seq<int>, n: nat) {
    ghost predicate Sane() {
      |entries| == MAXDIRENTRIES && Indexes(order, MAXDIRENTRIES) && n <= MAXDIRENTRIES
    }
  }

  /** The first n indices each name one of the eight slots. */
  ghost predicate Names(order: seq<int>, n: int) {
    |order| == MAXDIRENTRIES && 0 <= n <= MAXDIRENTRIES && forall i :: 0 <= i < n ==> 0 <= order[i] < MAXDIRENTRIES
  }

  /** The bubble pass from index i on. */
  ghost function Sunk(entries: seq<Entry>, order: seq<int>, i: nat, up: bool): (o: seq<int>)
    requires |entries| == MAXDIRENTRIES && i < MAXDIRENTRIES && Names(order, i + 1)
    ensures |o| == MAXDIRENTRIES
    decreases i
  {
    if i == 0 || !Before(entries[order[i]], entries[order[i - 1]], up) then order
    else Sunk(entries, Swapped(order, i), i - 1, up)
  }

  ghost function Swapped(order: seq<int>, i: nat): (o: seq<int>)
    requires 0 < i < |order|
    ensures |o| == |order| && o[i] == order[i - 1] && o[i - 1] == order[i]
    ensures forall j :: 0 <= j < |o| && j != i && j != i - 1 ==> o[j] == order[j]
  {
    order[i := order[i - 1]][i - 1 := order[i]]
  }

  /** Exchanging two indices in use leaves each naming its own slot. */
  lemma ExchangedKeeps(o: seq<int>, p: seq<int>, i: nat, j: nat, n: int)
    requires Indexes(o, n) && i < n && j < n && p == o[i := o[j]][j := o[i]]
    ensures Indexes(p, n)
  {
    IndexesDiffer(o, n);
  }

  /** It only moves indices about. */
  lemma {:induction false} SunkKeeps(entries: seq<Entry>, order: seq<int>, i: nat, up: bool, n: nat)
    requires |entries| == MAXDIRENTRIES && i < n && Names(order, n)
    ensures var o := Sunk(entries, order, i, up);
      Names(o, n) && o[n..] == order[n..] && (Indexes(order, n) ==> Indexes(o, n))
    decreases i
  {
    if i > 0 && Before(entries[order[i]], entries[order[i - 1]], up) {
      SwappedKeeps(order, i, n);
      SunkKeeps(entries, Swapped(order, i), i - 1, up, n);
    }
  }

  lemma SwappedKeeps(order: seq<int>, i: nat, n: nat)
    requires 0 < i < n && Names(order, n)
    ensures var o := Swapped(order, i); Names(o, n) && o[n..] == order[n..] && (Indexes(order, n) ==> Indexes(o, n))
  {
    if Indexes(order, n) {
      ExchangedKeeps(order, Swapped(order, i), i, i - 1, n);
    }
  }

  /** And sinks the entry at i to its place among those before it. */
  lemma {:induction false} SunkSorts(entries: seq<Entry>, order: seq<int>, i: nat, up: bool, n: nat,
                                     v: seq<Entry>, e: Entry)
    requires |entries| == MAXDIRENTRIES && i < n && Names(order, n) && i <= |v|
    requires Shown(entries, order, n) == With(v, e, i)
    ensures Names(Sunk(entries, order, i, up), n)
    ensures Shown(entries, Sunk(entries, order, i, up), n) == With(v, e, Slot(v[..i], e, up))
    decreases i
  {
    SunkKeeps(entries, order, i, up, n);
    if i > 0 {
      WithSwap(v, e, i);
      SlotStep(v, e, up, i);
      assert entries[order[i]] == e && entries[order[i - 1]] == v[i - 1];
      if Before(e, v[i - 1], up) {
        SwapShown(entries, order, i, n);
        SunkSorts(entries, Swapped(order, i), i - 1, up, n, v, e);
      }
    }
  }

  lemma SunkSafe(entries: seq<Entry>, order: seq<int>, i: nat, up: bool)
    requires |entries| == MAXDIRENTRIES && i < MAXDIRENTRIES && Names(order, i + 1)
    ensures Indexes(order, MAXDIRENTRIES) ==> Indexes(Sunk(entries, order, i, up), MAXDIRENTRIES)
  {
    if Indexes(order, MAXDIRENTRIES) {
      SunkKeeps(entries, order, i, up, MAXDIRENTRIES);
    }
  }

  lemma SwapShown(entries: seq<Entry>, order: seq<int>, i: nat, n: nat)
    requires |entries| == MAXDIRENTRIES && 0 < i < n && Names(order, n)
    ensures var v := Shown(entries, order, n);
      Names(Swapped(order, i), n) && Shown(entries, Swapped(order, i), n) == v[i - 1 := v[i]][i := v[i - 1]]
  {
  }

  /** A new entry goes into the next slot, whatever the indices say about it; or into the one that comes last,
      if it belongs before what is there. */
  ghost function PutIn(s: Slots, e: Entry): (t: Slots)
    requires s.Sane()
    ensures t.n == Min(s.n + 1, MAXDIRENTRIES)
  {
    var last := s.order[MAXDIRENTRIES - 1];
    var entries :=
      if s.n < MAXDIRENTRIES then s.entries[s.n := e]
      else if Before(e, s.entries[last], true) then s.entries[last := e]
      else s.entries;
    var n := Min(s.n + 1, MAXDIRENTRIES);
    Slots(entries, Sunk(entries, s.order, n - 1, true), n)
  }

  /** What SCAN_INIT_NEXT makes of one more entry, and of all of l, slot by slot. */
  ghost function FollowIn(s: Slots, e: Entry): Slots {
    if s.Sane() && Before(s.entries[s.order[0]], e, true) then PutIn(s, e) else s
  }

  ghost function FollowedIn(s: Slots, l: seq<Entry>): Slots {
    FollowedInTo(s, l, |l|)
  }

  ghost function FollowedInTo(s: Slots, l: seq<Entry>, n: nat): Slots
    requires n <= |l|
  {
    if n == 0 then s else FollowIn(FollowedInTo(s, l, n - 1), l[n - 1])
  }

  lemma {:induction false} FollowedInSame(s: Slots, l: seq<Entry>, m: seq<Entry>, n: nat)
    requires n <= |l| && n <= |m| && forall i :: 0 <= i < n ==> l[i] == m[i]
    ensures FollowedInTo(s, l, n) == FollowedInTo(s, m, n)
  {
    if n > 0 {
      FollowedInSame(s, l, m, n - 1);
    }
  }

  /** With the entry last, all that is left to do is to sort it in. */
  lemma PutShown(a: seq<Entry>, b: seq<Entry>, o: seq<int>, n: nat, e: Entry, up: bool)
    requires |a| == |b| == |o| == MAXDIRENTRIES && n <= MAXDIRENTRIES
    requires n == MAXDIRENTRIES ==> 0 <= o[n - 1] < MAXDIRENTRIES
    requires b ==
      if n < MAXDIRENTRIES then a[n := e]
      else if Before(e, a[o[MAXDIRENTRIES - 1]], up) then a[o[MAXDIRENTRIES - 1] := e]
      else a
    ensures Indexes(o, n) && (n < MAXDIRENTRIES ==> o[n] == n) && Rising(Shown(a, o, n), up) ==>
      var n' := Min(n + 1, MAXDIRENTRIES);
      Indexes(o, n') && Insert(Shown(b, o, n')[..n' - 1], Shown(b, o, n')[n' - 1], up) == Offer(Shown(a, o, n), e, up)
  {
    if Indexes(o, n) && (n < MAXDIRENTRIES ==> o[n] == n) && Rising(Shown(a, o, n), up) {
      var n' := Min(n + 1, MAXDIRENTRIES);
      if n == MAXDIRENTRIES && !Before(e, a[o[n - 1]], up) {
        LastStays(Shown(a, o, n), up);
      } else {
        LastShown(a, b, o, n' - 1, e);
        assert n < MAXDIRENTRIES ==> Shown(a, o, n')[..n] == Shown(a, o, n);
      }
    }
  }

  lemma LastShown(a: seq<Entry>, b: seq<Entry>, o: seq<int>, k: nat, e: Entry)
    requires |a| == |b| == |o| == MAXDIRENTRIES && k < MAXDIRENTRIES && Indexes(o, k + 1) && b == a[o[k] := e]
    ensures Shown(b, o, k + 1) == Shown(a, o, k + 1)[..k] + [e]
  {
    SlotShown(a, b, o, k + 1, k, e);
  }

  /** An entry put into the slot that index p names takes the p-th place. */
  lemma SlotShown(a: seq<Entry>, b: seq<Entry>, o: seq<int>, n: nat, p: nat, e: Entry)
    requires |a| == |b| == |o| == MAXDIRENTRIES && p < n && Indexes(o, n) && b == a[o[p] := e]
    ensures Shown(b, o, n) == Shown(a, o, n)[p := e]
  {
    IndexesDiffer(o, n);
  }

  lemma FollowedInMore(s: Slots, l: seq<Entry>, e: Entry)
    ensures FollowedIn(s, l + [e]) == FollowIn(FollowedIn(s, l), e)
  {
    FollowedInSame(s, l, l + [e], |l|);
  }

  /** A new entry in the last slot, whose index goes first. */
  lemma PushedShown(entries: seq<Entry>, o: seq<int>, p: seq<int>, v: seq<Entry>, e: Entry)
    requires |entries| == MAXDIRENTRIES && Indexes(o, MAXDIRENTRIES) && Indexes(p, MAXDIRENTRIES)
    requires |v| == MAXDIRENTRIES
    requires p == [o[MAXDIRENTRIES - 1]] + o[..MAXDIRENTRIES - 1]
    requires Shown(entries, o, MAXDIRENTRIES) == v[MAXDIRENTRIES - 1 := e]
    ensures Shown(entries, p, MAXDIRENTRIES) == [e] + v[..MAXDIRENTRIES - 1]
  {
    var w := Shown(entries, o, MAXDIRENTRIES);
    forall i | 0 <= i < MAXDIRENTRIES ensures Shown(entries, p, MAXDIRENTRIES)[i] == ([e] + v[..MAXDIRENTRIES - 1])[i] {
      assert p[i] == o[if i > 0 then i - 1 else MAXDIRENTRIES - 1];
      assert Shown(entries, p, MAXDIRENTRIES)[i] == w[if i > 0 then i - 1 else MAXDIRENTRIES - 1];
    }
  }

  /** The entries from m on are the first ones now. */
  lemma MovedUp(entries: seq<Entry>, o: seq<int>, p: seq<int>, m: nat)
    requires |entries| == MAXDIRENTRIES && Names(o, MAXDIRENTRIES) && Names(p, MAXDIRENTRIES) && m <= MAXDIRENTRIES
    requires forall i :: 0 <= i < MAXDIRENTRIES - m ==> p[i] == o[i + m]
    ensures Shown(entries, p, MAXDIRENTRIES)[..MAXDIRENTRIES - m] == Shown(entries, o, MAXDIRENTRIES)[m..]
  {
  }

  class Table {
    const entries: array<Entry>
    const order: array<int>

    constructor ()
      ensures fresh(entries) && fresh(order) && Shape()
    {
      entries := new Entry[MAXDIRENTRIES](_ => Entry(0, 0));
      order := new int[MAXDIRENTRIES](i => i);
    }

    /** sort_table[i] = i throughout. */
    method Reset()
      requires Shape()
      modifies order
      ensures forall i :: 0 <= i < MAXDIRENTRIES ==> order[i] == i
    {
      for i := 0 to MAXDIRENTRIES
        invariant forall j :: 0 <= j < i ==> order[j] == j
      {
        order[i] := i;
      }
    }

    predicate Shape() {
      entries.Length == order.Length == MAXDIRENTRIES
    }

    ghost predicate Valid(n: int)
      reads order
    {
      Shape() && Indexes(order[..], n)
    }

    /** Every index in use names one of the eight slots. */
    ghost predicate InRange(n: int)
      reads order
    {
      Shape() && Names(order[..], n)
    }

    ghost function View(n: int): (v: seq<Entry>)
      requires InRange(n)
      reads entries, order
      ensures |v| == n && forall i :: 0 <= i < n ==> v[i] == entries[order[i]]
    {
      Shown(entries[..], order[..], n)
    }

    method Swap(i: int)
      requires Shape() && 0 < i < MAXDIRENTRIES
      modifies order
      ensures order[..] == Swapped(old(order[..]), i)
    {
      var x := order[i];
      order[i] := order[i - 1];
      order[i - 1] := x;
    }

    /** One bubble pass: the last entry sinks to its place among the others. */
    method Bubble(n: int, up: bool)
      requires InRange(n) && n >= 1
      modifies order
      ensures order[..] == Sunk(entries[..], old(order[..]), n - 1, up)
      ensures InRange(n) && order[n..] == old(order[n..]) && (old(Valid(n)) ==> Valid(n))
      ensures old(Valid(MAXDIRENTRIES)) ==> Valid(MAXDIRENTRIES)
      ensures View(n) == Insert(old(View(n))[..n - 1], old(View(n))[n - 1], up)
    {
      ghost var v, o := View(n), order[..];
      BubbleDown(n, up);
      SunkKeeps(entries[..], o, n - 1, up, n);
      SunkSafe(entries[..], o, n - 1, up);
      SunkSorts(entries[..], o, n - 1, up, n, v[..n - 1], v[n - 1]);
      assert v[..n - 1][..n - 1] == v[..n - 1];
    }

    method BubbleDown(n: int, up: bool)
      requires InRange(n) && n >= 1
      modifies order
      ensures order[..] == Sunk(entries[..], old(order[..]), n - 1, up)
    {
      ghost var o := order[..];
      var i := n - 1;
      while i > 0
        invariant 0 <= i <= n - 1 && Names(order[..], n)
        invariant Sunk(entries[..], o, n - 1, up) == Sunk(entries[..], order[..], i, up)
      {
        if Before(entries[order[i]], entries[order[i - 1]], up) {
          SwapShown(entries[..], order[..], i, n);
          Swap(i);
        } else {
          break;
        }
        i := i - 1;
      }
    }

    /** The unused index that comes next names the next slot, and the entries in use are in order. */
    ghost predicate Ready(n: int, up: bool)
      reads entries, order
    {
      Valid(n) && (n < MAXDIRENTRIES ==> order[n] == n) && Rising(View(n), up)
    }

    ghost function Now(n: nat): Slots
      requires Shape()
      reads entries, order
    {
      Slots(entries[..], order[..], n)
    }

    /** Add an entry to a table that has room, or put it in the place of the last if it belongs
        before that one; then sort it in. */
    method Put(n: int, e: Entry, up: bool) returns (n': int)
      requires 0 <= n <= MAXDIRENTRIES && InRange(Min(n + 1, MAXDIRENTRIES))
      modifies entries, order
      ensures n' == Min(n + 1, MAXDIRENTRIES)
      ensures n < MAXDIRENTRIES ==> entries[..] == old(entries[..])[n := e]
      ensures old(Ready(n, up)) ==>
        Valid(n') && order[n'..] == old(order[n'..]) && View(n') == Offer(old(View(n)), e, up)
      ensures old(Valid(MAXDIRENTRIES)) ==> Valid(MAXDIRENTRIES) && (up ==> Now(n') == PutIn(old(Now(n)), e))
    {
      n' := PutLast(n, e, up);
      Bubble(n', up);
    }

    /** The entry goes last, unless the table is full and it does not come before the last one. */
    method PutLast(n: int, e: Entry, up: bool) returns (n': int)
      requires 0 <= n <= MAXDIRENTRIES && InRange(Min(n + 1, MAXDIRENTRIES))
      modifies entries
      ensures n' == Min(n + 1, MAXDIRENTRIES)
      ensures old(Ready(n, up)) ==>
        Valid(n') && Insert(View(n')[..n' - 1], View(n')[n' - 1], up) == Offer(old(View(n)), e, up)
      ensures entries[..] ==
        if n < MAXDIRENTRIES then old(entries[..])[n := e]
        else if Before(e, old(entries[order[MAXDIRENTRIES - 1]]), up)
          then old(entries[..])[order[MAXDIRENTRIES - 1] := e]
        else old(entries[..])
    {
      ghost var was := entries[..];
      n' := n;
      if n < MAXDIRENTRIES {
        entries[n] := e;
        n' := n + 1;
      } else if Before(e, entries[order[MAXDIRENTRIES - 1]], up) {
        entries[order[MAXDIRENTRIES - 1]] := e;
      }
      PutShown(was, entries[..], order[..], n, e, up);
    }

    /** The entries' indices scroll by one: the first becomes the last. */
    method ScrollNext()
      requires Valid(MAXDIRENTRIES)
      modifies order
      ensures Valid(MAXDIRENTRIES) && order[..] == old(order[1..]) + [old(order[0])]
    {
      var x := order[0];
      for i := 0 to MAXDIRENTRIES - 1
        invariant order[..i] == old(order[1..i + 1]) && order[i..] == old(order[i..])
      {
        order[i] := order[i + 1];
      }
      assert order[..MAXDIRENTRIES - 1] == old(order[1..]);
      order[MAXDIRENTRIES - 1] := x;
      assert order[..] == order[..MAXDIRENTRIES - 1] + [x];
      RotatedNext(old(order[..]), order[..]);
    }

    /** The other way: the last becomes the first. */
    method ScrollPrev()
      requires Valid(MAXDIRENTRIES)
      modifies order
      ensures Valid(MAXDIRENTRIES) && order[..] == [old(order[MAXDIRENTRIES - 1])] + old(order[..MAXDIRENTRIES - 1])
    {
      var x := order[MAXDIRENTRIES - 1];
      var i := MAXDIRENTRIES - 1;
      while i > 0
        invariant 0 <= i < MAXDIRENTRIES
        invariant order[..i + 1] == old(order[..i + 1]) && order[i + 1..] == old(order[i..MAXDIRENTRIES - 1])
      {
        order[i] := order[i - 1];
        i := i - 1;
      }
      assert order[1..] == old(order[..MAXDIRENTRIES - 1]);
      order[0] := x;
      assert order[..] == [x] + order[1..];
      RotatedPrev(old(order[..]), order[..]);
    }

    method SetAt(p: int, e: Entry)
      requires Valid(MAXDIRENTRIES) && 0 <= p < MAXDIRENTRIES
      modifies entries
      ensures View(MAXDIRENTRIES) == old(View(MAXDIRENTRIES))[p := e] && entries[..] == old(entries[..])[order[p] := e]
    {
      SlotShown(entries[..], entries[..][order[p] := e], order[..], MAXDIRENTRIES, p, e);
      entries[order[p]] := e;
    }

    /** A new entry at the end; the first one goes. */
    method PushNext(e: Entry)
      requires Valid(MAXDIRENTRIES)
      modifies entries, order
      ensures Valid(MAXDIRENTRIES) && View(MAXDIRENTRIES) == old(View(MAXDIRENTRIES))[1..] + [e]
    {
      ghost var v := View(MAXDIRENTRIES);
      SetAt(0, e);
      ghost var o := order[..];
      ScrollNext();
      forall i | 0 <= i < MAXDIRENTRIES ensures View(MAXDIRENTRIES)[i] == (v[1..] + [e])[i] {
        assert order[..][i] == o[if i < MAXDIRENTRIES - 1 then i + 1 else 0];
      }
    }

    /** A new entry at the front; the last one goes. */
    method PushPrev(e: Entry)
      requires Valid(MAXDIRENTRIES)
      modifies entries, order
      ensures Valid(MAXDIRENTRIES)
      ensures View(MAXDIRENTRIES) == [e] + old(View(MAXDIRENTRIES))[..MAXDIRENTRIES - 1]
      ensures var last := old(order[MAXDIRENTRIES - 1]);
        order[..] == [last] + old(order[..MAXDIRENTRIES - 1]) && entries[..] == old(entries[..])[last := e]
    {
      ghost var v, o := View(MAXDIRENTRIES), order[..];
      SetAt(MAXDIRENTRIES - 1, e);
      ScrollPrev();
      PushedShown(entries[..], o, order[..], v, e);
    }

    /** A page down: the indices from m on move to the front, swapped with those they displace. */
    method PageNext(m: int)
      requires Valid(MAXDIRENTRIES) && 0 < m <= MAXDIRENTRIES
      modifies order
      ensures Valid(MAXDIRENTRIES)
      ensures View(MAXDIRENTRIES)[..MAXDIRENTRIES - m] == old(View(MAXDIRENTRIES))[m..]
    {
      ghost var o := order[..];
      for i := 0 to MAXDIRENTRIES - m
        invariant Valid(MAXDIRENTRIES)
        invariant forall p :: 0 <= p < i ==> order[p] == o[p + m]
        invariant forall p :: i + m <= p < MAXDIRENTRIES ==> order[p] == o[p]
      {
        Exchange(i, i + m);
      }
      MovedUp(entries[..], o, order[..], m);
    }

    method Exchange(i: int, j: int)
      requires Valid(MAXDIRENTRIES) && 0 <= i < MAXDIRENTRIES && 0 <= j < MAXDIRENTRIES
      modifies order
      ensures Valid(MAXDIRENTRIES) && order[..] == old(order[..])[i := old(order[j])][j := old(order[i])]
    {
      ExchangedKeeps(order[..], order[..][i := order[j]][j := order[i]], i, j, MAXDIRENTRIES);
      var x := order[i];
      order[i] := order[j];
      order[j] := x;
    }

    /** A page up: the indices before 8 - m move to the back. */
    method PagePrev(m: int)
      requires Valid(MAXDIRENTRIES) && 0 < m <= MAXDIRENTRIES
      modifies order
      ensures Valid(MAXDIRENTRIES)
      ensures View(MAXDIRENTRIES)[m..] == old(View(MAXDIRENTRIES))[..MAXDIRENTRIES - m]
    {
      ghost var o := order[..];
      var i := MAXDIRENTRIES - 1;
      while i >= m
        invariant m - 1 <= i < MAXDIRENTRIES && Valid(MAXDIRENTRIES)
        invariant forall p :: i < p < MAXDIRENTRIES ==> order[p] == o[p - m]
        invariant forall p :: 0 <= p <= i - m ==> order[p] == o[p]
      {
        Exchange(i, i - m);
        i := i - 1;
      }
    }
  }

  lemma RotatedNext(a: seq<int>, b: seq<int>)
    requires Indexes(a, MAXDIRENTRIES) && b == a[1..] + [a[0]]
    ensures Indexes(b, MAXDIRENTRIES)
  {
    IndexesDiffer(a, MAXDIRENTRIES);
    forall i, j | 0 <= i < j < MAXDIRENTRIES ensures b[i] != b[j] {
      assert b[i] == a[i + 1] && b[j] == a[if j < MAXDIRENTRIES - 1 then j + 1 else 0];
    }
  }

  lemma RotatedPrev(a: seq<int>, b: seq<int>)
    requires Indexes(a, MAXDIRENTRIES) && b == [a[MAXDIRENTRIES - 1]] + a[..MAXDIRENTRIES - 1]
    ensures Indexes(b, MAXDIRENTRIES)
  {
    IndexesDiffer(a, MAXDIRENTRIES);
    forall i, j | 0 <= i < j < MAXDIRENTRIES ensures b[i] != b[j] {
      assert b[i] == a[if i > 0 then i - 1 else MAXDIRENTRIES - 1] && b[j] == a[j - 1];
    }
  }
}
