/** Safety of the arena allocator over every run: shape, conservation, coverage. */
module BlockProofs {
  import opened BlockSpec

  // ---------- Block sequences, one local change at a time ----------

  ghost predicate WellPlaced(head: int, b: seq<Block>) {
    Ascending(b) && forall k :: 0 <= k < |b| ==> Sound(head, b[k])
  }

  /** c is b with block i made into the two blocks u and v. */
  ghost predicate IsSplit(b: seq<Block>, c: seq<Block>, i: nat, u: Block, v: Block) {
    && i < |b| && |c| == |b| + 1 && c[i] == u && c[i + 1] == v
    && (forall k :: 0 <= k < i ==> c[k] == b[k])
    && (forall k :: i + 1 < k < |c| ==> c[k] == b[k - 1])
  }

  lemma SplitKeeps(head: int, b: seq<Block>, c: seq<Block>, i: nat, u: Block, v: Block)
    requires WellPlaced(head, b) && IsSplit(b, c, i, u, v)
    requires Sound(head, u) && Sound(head, v)
    requires u.addr == b[i].addr && u.addr + u.size == v.addr && v.addr + v.size == b[i].addr + b[i].size
    ensures WellPlaced(head, c)
  {
    AscendingAll(b);
  }

  lemma SplitCoalesced(b: seq<Block>, c: seq<Block>, i: nat, u: Block, v: Block)
    requires Coalesced(b) && IsSplit(b, c, i, u, v) && b[i].free && !u.free && v.free
    requires u.addr == b[i].addr && v.addr + v.size == b[i].addr + b[i].size
    ensures Coalesced(c)
  {
    forall k | 0 <= k < |c| - 1 && c[k].free && c[k + 1].free ensures !Touch(c, k) {
      if k + 1 < i {
        assert !Touch(b, k);
      } else if k > i {
        assert !Touch(b, k - 1);
      }
    }
  }

  lemma SplitFrees(b: seq<Block>, c: seq<Block>, i: nat, u: Block, v: Block)
    requires Ascending(b) && (forall k :: 0 <= k < |b| ==> b[k].size > 0)
    requires IsSplit(b, c, i, u, v) && b[i].free && !u.free && v.free && u.addr == b[i].addr
    ensures FreeAddrs(c) == FreeAddrs(b) - {u.addr} + {v.addr}
  {
    hide Ascending;
    AscendingAll(b);
    forall a | a in FreeAddrs(b) && a != u.addr ensures a in FreeAddrs(c) {
      var k :| 0 <= k < |b| && b[k].free && b[k].addr == a;
      assert c[if k < i then k else k + 1] == b[k];
    }
    assert c[i + 1].free;
  }

  lemma ToggleKeeps(head: int, b: seq<Block>, i: nat, f: bool)
    requires WellPlaced(head, b) && i < |b|
    ensures var c := b[i := Block(b[i].addr, b[i].size, f)];
      && WellPlaced(head, c)
      && FreeAddrs(c) == if f then FreeAddrs(b) + {b[i].addr} else FreeAddrs(b) - {b[i].addr}
  {
    AscendingAll(b);
    var c := b[i := Block(b[i].addr, b[i].size, f)];
    forall a | a in FreeAddrs(b) && a != b[i].addr ensures a in FreeAddrs(c) {
      var k :| 0 <= k < |b| && b[k].free && b[k].addr == a;
      assert c[k] == b[k];
    }
    if f {
      assert c[i].free;
    }
  }

  /** c is b with blocks k and k + 1 made into one free block. */
  ghost predicate IsJoin(b: seq<Block>, c: seq<Block>, k: nat) {
    && k + 1 < |b| && |c| == |b| - 1
    && c[k] == Block(b[k].addr, b[k].size + b[k + 1].size, true)
    && (forall l :: 0 <= l < k ==> c[l] == b[l])
    && (forall l :: k < l < |c| ==> c[l] == b[l + 1])
  }

  lemma JoinIsJoin(b: seq<Block>, k: nat)
    requires k + 1 < |b|
    ensures IsJoin(b, Join(b, k), k)
  {
  }

  lemma SoundJoin(head: int, x: Block, y: Block)
    requires Sound(head, x) && Sound(head, y) && x.addr + x.size == y.addr
    ensures Sound(head, Block(x.addr, x.size + y.size, true))
  {
  }

  lemma SoundSplit(head: int, x: Block, need: int)
    requires Sound(head, x) && 2 * HEADER <= need && need + 2 * HEADER <= x.size
    ensures Sound(head, Block(x.addr, need, false)) && Sound(head, Block(x.addr + need, x.size - need, true))
  {
  }

  lemma SoundSeed(head: int, p: Pool, a: int, size: int)
    requires Fresh(head, p, a, size)
    ensures Sound(head, Block(a, RoundSeed(size), false)) && RoundSeed(size) <= size
  {
  }

  lemma JoinKeeps(head: int, b: seq<Block>, c: seq<Block>, k: nat)
    requires WellPlaced(head, b) && IsJoin(b, c, k) && Touch(b, k)
    ensures WellPlaced(head, c)
  {
    AscendingAll(b);
    SoundJoin(head, b[k], b[k + 1]);
    forall i, j | 0 <= i < j < |c| ensures c[i].addr + c[i].size <= c[j].addr {
      var j' := if j <= k then j else j + 1;
      assert b[if i < k then i else i + 1].addr + b[if i < k then i else i + 1].size <= b[j'].addr;
    }
  }

  lemma JoinFrees(b: seq<Block>, c: seq<Block>, k: nat)
    requires Ascending(b) && (forall i :: 0 <= i < |b| ==> b[i].size > 0) && IsJoin(b, c, k)
    ensures FreeAddrs(c) == FreeAddrs(b) - {b[k + 1].addr} + {b[k].addr}
  {
    AscendingAll(b);
    forall a | a in FreeAddrs(b) && a != b[k + 1].addr ensures a in FreeAddrs(c) {
      var i :| 0 <= i < |b| && b[i].free && b[i].addr == a;
      assert c[if i <= k then i else i - 1].addr == a;
    }
    assert c[k].free;
  }

  lemma JoinTouch(b: seq<Block>, c: seq<Block>, k: nat, l: int)
    requires IsJoin(b, c, k) && Touch(b, k) && 0 <= l < |c| - 1
    ensures Touch(c, l) == Touch(b, if l < k then l else l + 1)
  {
  }

  // ---------- The operations keep the invariant ----------

  /** Block i is node j of the free chain and can hold need bytes. */
  ghost predicate CanCarve(p: Pool, i: nat, j: nat, need: int) {
    && i < |p.blocks| && j < |p.fl|
    && p.fl[j] == p.blocks[i].addr && p.blocks[i].free
    && 2 * HEADER <= need <= p.blocks[i].size
  }

  lemma CarveKeeps(head: int, p: Pool, i: nat, j: nat, need: int)
    requires Inv(head, p) && CanCarve(p, i, j, need)
    ensures Inv(head, Carve(p, i, j, need))
  {
    if p.blocks[i].size >= need + 2 * HEADER {
      CarveSplitKeeps(head, p, i, j, need);
    } else {
      CarveWholeKeeps(head, p, i, j, need);
    }
  }

  lemma CarveSplitKeeps(head: int, p: Pool, i: nat, j: nat, need: int)
    requires Inv(head, p) && CanCarve(p, i, j, need) && p.blocks[i].size >= need + 2 * HEADER
    ensures Inv(head, Carve(p, i, j, need))
  {
    var b, q := p.blocks, Carve(p, i, j, need);
    var u, v := Block(b[i].addr, need, false), Block(b[i].addr + need, b[i].size - need, true);
    assert IsSplit(b, q.blocks, i, u, v);
    SoundSplit(head, b[i], need);
    SplitKeeps(head, b, q.blocks, i, u, v);
    SplitCoalesced(b, q.blocks, i, u, v);
    SplitFrees(b, q.blocks, i, u, v);
    NotInside(b, i, v.addr);
    assert v.addr !in Elems(p.fl);
    ReplaceInSet(p.fl, j, v.addr);
  }

  lemma CarveWholeKeeps(head: int, p: Pool, i: nat, j: nat, need: int)
    requires Inv(head, p) && CanCarve(p, i, j, need) && p.blocks[i].size < need + 2 * HEADER
    ensures Inv(head, Carve(p, i, j, need))
  {
    var b, q := p.blocks, Carve(p, i, j, need);
    ToggleKeeps(head, b, i, false);
    DropFromSet(p.fl, j);
    forall k | 0 <= k < |b| - 1 && q.blocks[k].free && q.blocks[k + 1].free ensures !Touch(q.blocks, k) {
      assert !Touch(b, k);
    }
  }

  /** No block starts strictly inside block i. */
  lemma NotInside(b: seq<Block>, i: nat, a: int)
    requires Ascending(b) && i < |b| && b[i].addr < a < b[i].addr + b[i].size
    requires forall k :: 0 <= k < |b| ==> b[k].size > 0
    ensures a !in FreeAddrs(b)
  {
    AscendingAll(b);
  }

  lemma ReplaceInSet(s: seq<int>, j: nat, a: int)
    requires Distinct(s) && j < |s| && a !in s
    ensures Distinct(s[j := a]) && Elems(s[j := a]) == Elems(s) - {s[j]} + {a}
  {
    var t := s[j := a];
    forall x | x in s && x != s[j] ensures x in t {
      var k :| 0 <= k < |s| && s[k] == x;
      assert t[k] == x;
    }
    assert t[j] == a;
  }

  lemma DropFromSet(s: seq<int>, j: nat)
    requires Distinct(s) && j < |s|
    ensures var t := s[..j] + s[j + 1..]; Distinct(t) && Elems(t) == Elems(s) - {s[j]}
  {
    var t := s[..j] + s[j + 1..];
    forall x | x in s && x != s[j] ensures x in t {
      var k :| 0 <= k < |s| && s[k] == x;
      assert t[if k < j then k else k - 1] == x;
    }
  }

  /** Block k is on no free chain; all other touching free blocks are already one. */
  ghost predicate CoalescedBut(b: seq<Block>, k: int) {
    forall i :: 0 <= i < |b| - 1 && i != k && i + 1 != k && b[i].free && b[i + 1].free ==> !Touch(b, i)
  }

  /** Like CoalescedBut, but only the end of block k may still be open. */
  ghost predicate CoalescedBefore(b: seq<Block>, k: int) {
    forall i :: 0 <= i < |b| - 1 && i != k && b[i].free && b[i + 1].free ==> !Touch(b, i)
  }

  lemma ReleaseBackKeeps(head: int, p: Pool, k: nat)
    requires Shaped(head, p) && CoalescedBut(p.blocks, k) && k < |p.blocks| && !p.blocks[k].free
    ensures var (q, i) := ReleaseBack(p, k);
      && i < |q.blocks| && q.blocks[i].free
      && Shaped(head, q) && CoalescedBefore(q.blocks, i)
  {
    if Touch(p.blocks, k - 1) && p.blocks[k - 1].free {
      JoinBackKeeps(head, p, k);
    } else {
      PushKeeps(head, p, k);
    }
  }

  /** The previous block grows over block k. */
  lemma JoinBackKeeps(head: int, p: Pool, k: nat)
    requires Shaped(head, p) && CoalescedBut(p.blocks, k) && k < |p.blocks| && !p.blocks[k].free
    requires Touch(p.blocks, k - 1) && p.blocks[k - 1].free
    ensures var c := Join(p.blocks, k - 1);
      k - 1 < |c| && c[k - 1].free && Shaped(head, Pool(c, p.fl)) && CoalescedBefore(c, k - 1)
  {
    AscendingAll(p.blocks);
    var b, c := p.blocks, Join(p.blocks, k - 1);
    JoinIsJoin(b, k - 1);
    JoinKeeps(head, b, c, k - 1);
    JoinFrees(b, c, k - 1);
    assert b[k].addr !in FreeAddrs(b);
    assert b[k - 1].addr in FreeAddrs(b);
    JoinedBefore(b, c, k);
  }

  lemma JoinedBefore(b: seq<Block>, c: seq<Block>, k: nat)
    requires CoalescedBut(b, k) && 0 < k < |b| && IsJoin(b, c, k - 1) && Touch(b, k - 1) && b[k - 1].free
    ensures CoalescedBefore(c, k - 1)
  {
    forall l | 0 <= l < |c| - 1 && l != k - 1 && c[l].free && c[l + 1].free ensures !Touch(c, l) {
      JoinTouch(b, c, k - 1, l);
    }
  }

  /** Block k becomes free by itself. */
  lemma PushKeeps(head: int, p: Pool, k: nat)
    requires Shaped(head, p) && CoalescedBut(p.blocks, k) && k < |p.blocks| && !p.blocks[k].free
    requires !(Touch(p.blocks, k - 1) && p.blocks[k - 1].free)
    ensures var c := p.blocks[k := Block(p.blocks[k].addr, p.blocks[k].size, true)];
      Shaped(head, Pool(c, [p.blocks[k].addr] + p.fl)) && CoalescedBefore(c, k)
  {
    AscendingAll(p.blocks);
    var b := p.blocks;
    var c := b[k := Block(b[k].addr, b[k].size, true)];
    ToggleKeeps(head, b, k, true);
    assert b[k].addr !in FreeAddrs(b);
    forall l | 0 <= l < |c| - 1 && l != k && c[l].free && c[l + 1].free ensures !Touch(c, l) {
      assert !Touch(b, l);
    }
  }

  lemma JoinedCoalesced(b: seq<Block>, c: seq<Block>, k: nat)
    requires IsJoin(b, c, k) && Touch(b, k) && CoalescedBefore(b, k) && b[k].free && b[k + 1].free
    ensures Coalesced(c)
  {
    forall l | 0 <= l < |c| - 1 && c[l].free && c[l + 1].free ensures !Touch(c, l) {
      JoinTouch(b, c, k, l);
    }
  }

  lemma ReleaseOnKeeps(head: int, p: Pool, k: nat)
    requires Shaped(head, p) && CoalescedBefore(p.blocks, k) && k < |p.blocks| && p.blocks[k].free
    ensures Inv(head, ReleaseOn(p, k))
  {
    var b, q := p.blocks, ReleaseOn(p, k);
    if Touch(b, k) && b[k + 1].free {
      JoinIsJoin(b, k);
      JoinKeeps(head, b, q.blocks, k);
      JoinFrees(b, q.blocks, k);
      JoinedCoalesced(b, q.blocks, k);
      assert b[k + 1].addr in Elems(p.fl) && b[k].addr in FreeAddrs(b);
      var j :| 0 <= j < |p.fl| && p.fl[j] == b[k + 1].addr;
      WithoutAt(p.fl, j);
      DropFromSet(p.fl, j);
    }
  }

  lemma ReleaseKeeps(head: int, p: Pool, k: nat)
    requires Shaped(head, p) && CoalescedBut(p.blocks, k) && k < |p.blocks| && !p.blocks[k].free
    ensures Inv(head, Release(p, k))
  {
    ReleaseBackKeeps(head, p, k);
    var (q, i) := ReleaseBack(p, k);
    ReleaseOnKeeps(head, q, i);
  }

  /** c is b with block x put in at index i. */
  ghost predicate IsInsert(b: seq<Block>, c: seq<Block>, i: nat, x: Block) {
    && i <= |b| && |c| == |b| + 1 && c[i] == x
    && (forall k :: 0 <= k < i ==> c[k] == b[k])
    && (forall k :: i < k < |c| ==> c[k] == b[k - 1])
  }

  lemma PlacedKeeps(head: int, b: seq<Block>, c: seq<Block>, i: nat, x: Block)
    requires WellPlaced(head, b) && IsInsert(b, c, i, x) && Sound(head, x)
    requires forall k :: 0 <= k < i ==> b[k].addr + b[k].size <= x.addr
    requires forall k :: i <= k < |b| ==> x.addr + x.size <= b[k].addr
    ensures WellPlaced(head, c)
  {
    AscendingAll(b);
  }

  lemma PlacedFrees(b: seq<Block>, c: seq<Block>, i: nat, x: Block)
    requires Coalesced(b) && IsInsert(b, c, i, x) && !x.free
    ensures CoalescedBut(c, i) && FreeAddrs(c) == FreeAddrs(b)
  {
    forall a | a in FreeAddrs(b) ensures a in FreeAddrs(c) {
      var k :| 0 <= k < |b| && b[k].free && b[k].addr == a;
      assert c[if k < i then k else k + 1] == b[k];
    }
    forall l | 0 <= l < |c| - 1 && l != i && l + 1 != i && c[l].free && c[l + 1].free ensures !Touch(c, l) {
      if l < i { assert !Touch(b, l); } else { assert !Touch(b, l - 1); }
    }
  }

  lemma InsertKeeps(head: int, p: Pool, a: int, size: int)
    requires Inv(head, p) && Fresh(head, p, a, size)
    ensures var q, i := Insert(p, a, RoundSeed(size)), Place(p.blocks, a);
      && Shaped(head, q) && CoalescedBut(q.blocks, i)
      && i < |q.blocks| && q.blocks[i] == Block(a, RoundSeed(size), false)
  {
    SoundSeed(head, p, a, size);
    InsertSizedKeeps(head, p, a, size, RoundSeed(size));
  }

  lemma InsertSizedKeeps(head: int, p: Pool, a: int, size: int, r: int)
    requires Inv(head, p) && Fresh(head, p, a, size) && r <= size && Sound(head, Block(a, r, false))
    ensures var q, i := Insert(p, a, r), Place(p.blocks, a);
      && Shaped(head, q) && CoalescedBut(q.blocks, i)
      && i < |q.blocks| && q.blocks[i] == Block(a, r, false)
  {
    var b, q, i, x := p.blocks, Insert(p, a, r), Place(p.blocks, a), Block(a, r, false);
    assert forall k :: 0 <= k < |b| ==> Sound(head, b[k]);
    PlaceIsSorted(b, a);
    assert IsInsert(b, q.blocks, i, x);
    assert forall k :: 0 <= k < i ==> b[k].addr + b[k].size <= x.addr;
    assert forall k :: i <= k < |b| ==> x.addr + x.size <= b[k].addr;
    PlacedKeeps(head, b, q.blocks, i, x);
    PlacedFrees(b, q.blocks, i, x);
  }
}
