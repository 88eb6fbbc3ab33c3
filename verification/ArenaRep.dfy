/** How a pool of blocks lies in memory, and what each burst of writes in
    Lib/malloc.c does to that picture. */
module ArenaRep {
  import opened Memory
  import opened Chains
  import opened Cells
  import opened BlockSpec
  import opened BlockProofs
  import opened BlockTheorems

  const USED := 0
  const FREE := 1
  const HEAD := 2

  function Addrs(b: seq<Block>): (s: seq<int>)
    ensures |s| == |b| && forall i :: 0 <= i < |b| ==> s[i] == b[i].addr
  {
    seq(|b|, i requires 0 <= i < |b| => b[i].addr)
  }

  function Nodes(head: int, b: seq<Block>): set<int> {
    {head} + set i | 0 <= i < |b| :: b[i].addr
  }

  /** The type and size words of every block; the type of block `hole` is anything. */
  ghost predicate Labelled(m: Mem, b: seq<Block>, hole: int) {
    && (forall i :: 0 <= i < |b| ==> Rd(m, b[i].addr + SIZE) == b[i].size)
    && (forall i :: 0 <= i < |b| && i != hole ==> Rd(m, b[i].addr + TYPE) == if b[i].free then FREE else USED)
  }

  /** Memory m holds pool p: both chains, and a label on every block. */
  ghost predicate Rep(m: Mem, head: int, p: Pool, hole: int) {
    && Linked(m, head, Addrs(p.blocks), NEXT)
    && Linked(m, head, p.fl, NEXT_FREE)
    && Labelled(m, p.blocks, hole)
    && Rd(m, head + TYPE) == HEAD
  }

  lemma ShapedNodes(head: int, p: Pool)
    requires Shaped(head, p)
    ensures var nodes := Nodes(head, p.blocks);
      Separated(nodes) && Within(head, Addrs(p.blocks), nodes) && Within(head, p.fl, nodes)
  {
    AscendingAll(p.blocks);
    var nodes := Nodes(head, p.blocks);
    assert Separated(nodes) by {
      forall x, y | x in nodes && y in nodes && x != y ensures x + 24 <= y || y + 24 <= x {
        BlocksApart(head, p.blocks, x, y);
      }
    }
    var b := p.blocks;
    forall i, j | 0 <= i < j < |b| ensures b[i].addr != b[j].addr {
      assert Sound(head, b[i]);
    }
    forall i | 0 <= i < |b| ensures b[i].addr in nodes && b[i].addr != head {
      assert Sound(head, b[i]);
    }
    forall i | 0 <= i < |p.fl| ensures p.fl[i] in nodes && p.fl[i] != head {
      assert p.fl[i] in Elems(p.fl);
      var k :| 0 <= k < |b| && b[k].free && b[k].addr == p.fl[i];
    }
  }

  lemma BlocksApart(head: int, b: seq<Block>, x: int, y: int)
    requires WellPlaced(head, b) && x in Nodes(head, b) && y in Nodes(head, b) && x != y
    ensures x + 24 <= y || y + 24 <= x
  {
    AscendingAll(b);
    if x != head {
      var i :| 0 <= i < |b| && b[i].addr == x;
      assert Sound(head, b[i]);
      if y != head {
        var j :| 0 <= j < |b| && b[j].addr == y;
        assert Sound(head, b[j]);
      }
    } else {
      var j :| 0 <= j < |b| && b[j].addr == y;
      assert Sound(head, b[j]);
    }
  }

  /** What the links of block k say, and that its neighbours' headers are no closer than 24 bytes. */
  lemma MainNeighbours(m: Mem, head: int, p: Pool, k: nat)
    requires Shaped(head, p) && Linked(m, head, Addrs(p.blocks), NEXT) && k < |p.blocks|
    ensures var ap, an := At(head, Addrs(p.blocks), k), At(head, Addrs(p.blocks), k + 2);
      && Rd(m, p.blocks[k].addr + PREV) == ap && Rd(m, p.blocks[k].addr + NEXT) == an
      && (ap == an || ap + 24 <= an || an + 24 <= ap)
  {
    var a := Addrs(p.blocks);
    ShapedNodes(head, p);
    Neighbours(m, head, a, NEXT, k);
    WithinAt(head, a, Nodes(head, p.blocks), k);
    WithinAt(head, a, Nodes(head, p.blocks), k + 2);
  }

  lemma FreeNeighbours(m: Mem, head: int, p: Pool, j: nat)
    requires Shaped(head, p) && Linked(m, head, p.fl, NEXT_FREE) && j < |p.fl|
    ensures var ap, an := At(head, p.fl, j), At(head, p.fl, j + 2);
      && Rd(m, p.fl[j] + PREV_FREE) == ap && Rd(m, p.fl[j] + NEXT_FREE) == an
      && (ap == an || ap + 24 <= an || an + 24 <= ap)
  {
    ShapedNodes(head, p);
    Neighbours(m, head, p.fl, NEXT_FREE, j);
    WithinAt(head, p.fl, Nodes(head, p.blocks), j);
    WithinAt(head, p.fl, Nodes(head, p.blocks), j + 2);
  }

  /** What walking the free chain reads at its node j. */
  lemma FreeNode(m: Mem, head: int, p: Pool, j: nat)
    requires Shaped(head, p) && Rep(m, head, p, -1) && j <= |p.fl|
    ensures var h := At(head, p.fl, j + 1);
      if j == |p.fl| then Rd(m, h + TYPE) == HEAD else
        && h > 0 && Rd(m, h + TYPE) == FREE && Rd(m, h + SIZE) == SizeAt(p.blocks, p.fl[j])
        && Rd(m, h + NEXT_FREE) == At(head, p.fl, j + 2)
    ensures j == 0 ==> Rd(m, head + NEXT_FREE) == At(head, p.fl, 1)
  {
    if j == 0 {
      assert LinkAt(m, head, p.fl, NEXT_FREE, 0);
    }
    if j < |p.fl| {
      NodeIsFree(head, p, j);
      assert Sound(head, p.blocks[IndexOf(p.blocks, p.fl[j])]);
      assert LinkAt(m, head, p.fl, NEXT_FREE, j + 1);
    }
  }

  lemma LabelFrame(m: Mem, m': Mem, head: int, b: seq<Block>, hole: int, nodes: set<int>)
    requires Labelled(m, b, hole) && Rd(m, head + TYPE) == HEAD && Nodes(head, b) <= nodes
    requires Same(m, m', nodes, TYPE) && Same(m, m', nodes, SIZE)
    ensures Labelled(m', b, hole) && Rd(m', head + TYPE) == HEAD
  {
    forall i | 0 <= i < |b| ensures b[i].addr in nodes {
      assert b[i].addr in Nodes(head, b);
    }
  }

  /** Writes to type and size words leave both chains standing. */
  lemma ChainsFrame(m: Mem, m': Mem, head: int, c: seq<int>, fl: seq<int>, nodes: set<int>)
    requires Linked(m, head, c, NEXT) && Linked(m, head, fl, NEXT_FREE)
    requires Within(head, c, nodes) && Within(head, fl, nodes)
    requires forall q :: Offset(q) && q != TYPE && q != SIZE ==> Same(m, m', nodes, q)
    ensures Linked(m', head, c, NEXT) && Linked(m', head, fl, NEXT_FREE)
  {
    ChainFrame(m, m', head, c, NEXT, nodes);
    ChainFrame(m, m', head, fl, NEXT_FREE, nodes);
  }

  /** Only type and size words of the headers xs may differ. */
  ghost predicate OnlyLabelled(m: Mem, m': Mem, xs: set<int>) {
    forall a {:trigger Rd(m', a)} :: a - TYPE !in xs && a - SIZE !in xs ==> Rd(m', a) == Rd(m, a)
  }

  /** Relabelling headers touches no link, and no label of any other header. */
  lemma Relabel(m: Mem, m': Mem, nodes: set<int>, xs: set<int>)
    requires Separated(nodes) && xs <= nodes
    requires OnlyLabelled(m, m', xs)
    ensures forall q :: Offset(q) && q != TYPE && q != SIZE ==> Same(m, m', nodes, q)
    ensures forall y :: y in nodes && y !in xs ==>
      Rd(m', y + TYPE) == Rd(m, y + TYPE) && Rd(m', y + SIZE) == Rd(m, y + SIZE)
  {
  }

  // ---------- free ----------

  /** Where the first free header is, and that the header of a block in use is clear of it. */
  lemma PushApart(m: Mem, head: int, p: Pool, k: nat)
    requires Shaped(head, p) && Rep(m, head, p, k) && k < |p.blocks| && !p.blocks[k].free
    ensures var x, first := p.blocks[k].addr, At(head, p.fl, 1);
      Rd(m, head + NEXT_FREE) == first && Apart(x, head) && Apart(x, first) && Near(head, first)
  {
    var nodes := Nodes(head, p.blocks);
    ShapedNodes(head, p);
    UsedNotNode(head, p, k);
    WithinAt(head, p.fl, nodes, 1);
    assert p.blocks[k].addr in nodes && LinkAt(m, head, p.fl, NEXT_FREE, 0);
    assert Sound(head, p.blocks[k]);
  }

  /** The block becomes free at the front of the free chain. */
  lemma RepPush(m: Mem, m1: Mem, m2: Mem, head: int, p: Pool, k: nat)
    requires Shaped(head, p) && Rep(m, head, p, k) && k < |p.blocks| && !p.blocks[k].free
    requires m1 == m[p.blocks[k].addr + TYPE := FREE]
    requires LinkedIn(m1, m2, NEXT_FREE, head, p.blocks[k].addr, At(head, p.fl, 1))
    ensures var x := p.blocks[k];
      Rep(m2, head, Pool(p.blocks[k := Block(x.addr, x.size, true)], [x.addr] + p.fl), -1)
  {
    hide Linked, Within, Separated, Same, Shaped, Labelled, LinkedIn;
    var b, x, nodes := p.blocks, p.blocks[k].addr, Nodes(head, p.blocks);
    var b' := b[k := Block(x, b[k].size, true)];
    ShapedNodes(head, p);
    assert x in nodes;
    assert Addrs(b') == Addrs(b) && Nodes(head, b') == nodes;
    Relabel(m, m1, nodes, {x});
    ChainsFrame(m, m1, head, Addrs(b), p.fl, nodes);
    assert Labelled(m1, b', -1) by { LabelOne(m, m1, head, p, b', k, nodes); }
    UsedNotNode(head, p, k);
    Link(m1, m2, head, p.fl, NEXT_FREE, 0, x, nodes);
    assert p.fl[..0] + [x] + p.fl[0..] == [x] + p.fl;
    ChainFrame(m1, m2, head, Addrs(b), NEXT, nodes);
    LabelFrame(m1, m2, head, b', -1, nodes);
  }

  lemma LabelOne(m: Mem, m1: Mem, head: int, p: Pool, b': seq<Block>, k: nat, nodes: set<int>)
    requires Shaped(head, p) && Labelled(m, p.blocks, k) && nodes == Nodes(head, p.blocks) && k < |p.blocks|
    requires |b'| == |p.blocks| && b' == p.blocks[k := Block(p.blocks[k].addr, p.blocks[k].size, b'[k].free)]
    requires m1 == m[p.blocks[k].addr + TYPE := if b'[k].free then FREE else USED]
    ensures Labelled(m1, b', -1)
  {
    AscendingAll(p.blocks);
    var b := p.blocks;
    forall i | 0 <= i < |b| && i != k ensures b[i].addr + 24 <= b[k].addr || b[k].addr + 24 <= b[i].addr {
      assert Sound(head, b[i]) && Sound(head, b[k]);
    }
  }

  lemma UsedNotNode(head: int, p: Pool, k: nat)
    requires Shaped(head, p) && k < |p.blocks| && !p.blocks[k].free
    ensures p.blocks[k].addr !in p.fl
  {
    forall i | 0 <= i < |p.blocks| && p.blocks[i].free ensures p.blocks[i].addr != p.blocks[k].addr {
      OneBlockAt(head, p.blocks, i, k);
    }
    var a := p.blocks[k].addr;
    assert a in p.fl ==> a in Elems(p.fl);
  }

  lemma AddrsJoin(b: seq<Block>, k: nat)
    requires k + 1 < |b|
    ensures Addrs(Join(b, k)) == Addrs(b)[..k + 1] + Addrs(b)[k + 2..]
  {
  }

  lemma NodesJoin(head: int, b: seq<Block>, k: nat)
    requires k + 1 < |b|
    ensures Nodes(head, Join(b, k)) <= Nodes(head, b)
  {
    var c := Join(b, k);
    forall i | 0 <= i < |c| ensures c[i].addr in Nodes(head, b) {
      assert c[i].addr == b[if i <= k then i else i + 1].addr;
    }
  }

  /** Block k grows over block k + 1, whose header leaves the main chain. */
  lemma RepJoin(m: Mem, m1: Mem, m2: Mem, head: int, p: Pool, fl: seq<int>, k: nat, hole: int)
    requires Shaped(head, p) && k + 1 < |p.blocks| && p.blocks[k].free && (hole == -1 || hole == k + 1)
    requires Linked(m, head, Addrs(p.blocks), NEXT) && Labelled(m, p.blocks, hole) && Rd(m, head + TYPE) == HEAD
    requires Within(head, fl, Nodes(head, p.blocks)) && Linked(m, head, fl, NEXT_FREE)
    requires m1 == m[p.blocks[k].addr + SIZE := p.blocks[k].size + p.blocks[k + 1].size]
    requires LinkedOut(m1, m2, NEXT, p.blocks[k].addr, At(head, Addrs(p.blocks), k + 3))
    ensures Rep(m2, head, Pool(Join(p.blocks, k), fl), -1)
  {
    hide Linked, Within, Separated, Same, Shaped, Labelled, LinkedOut;
    var b, nodes := p.blocks, Nodes(head, p.blocks);
    var c := Join(b, k);
    ShapedNodes(head, p);
    assert b[k].addr in nodes;
    Relabel(m, m1, nodes, {b[k].addr});
    ChainsFrame(m, m1, head, Addrs(b), fl, nodes);
    assert Labelled(m1, c, -1) by { LabelJoin(m, m1, head, p, c, k, hole); }
    Unlink(m1, m2, head, Addrs(b), NEXT, k + 1, nodes);
    AddrsJoin(b, k);
    NodesJoin(head, b, k);
    ChainFrame(m1, m2, head, fl, NEXT_FREE, nodes);
    assert head in nodes && Rd(m1, head + TYPE) == HEAD;
    LabelFrame(m1, m2, head, c, -1, nodes);
  }

  lemma LabelJoin(m: Mem, m1: Mem, head: int, p: Pool, c: seq<Block>, k: nat, hole: int)
    requires Shaped(head, p) && Labelled(m, p.blocks, hole) && k + 1 < |p.blocks|
    requires p.blocks[k].free && (hole == -1 || hole == k + 1) && c == Join(p.blocks, k)
    requires m1 == m[p.blocks[k].addr + SIZE := p.blocks[k].size + p.blocks[k + 1].size]
    ensures Labelled(m1, c, -1)
  {
    AscendingAll(p.blocks);
    var b := p.blocks;
    JoinIsJoin(b, k);
    forall i | 0 <= i < |c|
      ensures Rd(m1, c[i].addr + SIZE) == c[i].size && Rd(m1, c[i].addr + TYPE) == if c[i].free then FREE else USED
    {
      var o := if i <= k then i else i + 1;
      assert Sound(head, b[o]) && Sound(head, b[k]) && c[i].addr == b[o].addr;
      assert o < k ==> b[o].addr + b[o].size <= b[k].addr;
      assert o > k ==> b[k].addr + b[k].size <= b[o].addr;
    }
  }

  /** A header leaves the free chain. */
  lemma RepPop(m: Mem, m': Mem, head: int, p: Pool, j: nat, nodes: set<int>)
    requires Separated(nodes) && Within(head, Addrs(p.blocks), nodes) && Within(head, p.fl, nodes)
    requires Nodes(head, p.blocks) <= nodes && j < |p.fl| && Rep(m, head, p, -1)
    requires LinkedOut(m, m', NEXT_FREE, At(head, p.fl, j), At(head, p.fl, j + 2))
    ensures Rep(m', head, p.(fl := p.fl[..j] + p.fl[j + 1..]), -1)
  {
    Unlink(m, m', head, p.fl, NEXT_FREE, j, nodes);
    ChainFrame(m, m', head, Addrs(p.blocks), NEXT, nodes);
    LabelFrame(m, m', head, p.blocks, -1, nodes);
  }

  /** Header x is relabelled; then one header leaves the free chain and one the main chain. */
  lemma ShrinkBoth(m: Mem, m1: Mem, m2: Mem, m3: Mem, head: int, a: seq<int>, fl: seq<int>, c: seq<Block>,
                   x: int, k: nat, j: nat, nodes: set<int>)
    requires Separated(nodes) && Within(head, a, nodes) && Within(head, fl, nodes) && Nodes(head, c) <= nodes
    requires Linked(m, head, a, NEXT) && Linked(m, head, fl, NEXT_FREE) && Rd(m, head + TYPE) == HEAD
    requires x in nodes && x != head && k < |a| && j < |fl|
    requires OnlyLabelled(m, m1, {x}) && Labelled(m1, c, -1)
    requires LinkedOut(m1, m2, NEXT_FREE, At(head, fl, j), At(head, fl, j + 2))
    requires LinkedOut(m2, m3, NEXT, At(head, a, k), At(head, a, k + 2))
    requires Addrs(c) == a[..k] + a[k + 1..]
    ensures Rep(m3, head, Pool(c, fl[..j] + fl[j + 1..]), -1)
  {
    Relabel(m, m1, nodes, {x});
    ChainsFrame(m, m1, head, a, fl, nodes);
    Unlink(m1, m2, head, fl, NEXT_FREE, j, nodes);
    ChainFrame(m1, m2, head, a, NEXT, nodes);
    LabelFrame(m1, m2, head, c, -1, nodes);
    Unlink(m2, m3, head, a, NEXT, k, nodes);
    WithinLess(head, fl, j, nodes);
    ChainFrame(m2, m3, head, fl[..j] + fl[j + 1..], NEXT_FREE, nodes);
    LabelFrame(m2, m3, head, c, -1, nodes);
  }

  lemma WithinLess(head: int, c: seq<int>, j: nat, nodes: set<int>)
    requires Within(head, c, nodes) && j < |c|
    ensures Within(head, c[..j] + c[j + 1..], nodes)
  {
  }

  /** A label write, or taking a header off the free chain, leaves the main links alone. */
  lemma MainLinksKept(m: Mem, m1: Mem, m2: Mem, head: int, p: Pool, x: int, j: nat, y: int)
    requires Shaped(head, p) && x in Nodes(head, p.blocks) && y in Nodes(head, p.blocks) && j < |p.fl|
    requires OnlyLabelled(m, m1, {x})
    requires LinkedOut(m1, m2, NEXT_FREE, At(head, p.fl, j), At(head, p.fl, j + 2))
    ensures Rd(m2, y + NEXT) == Rd(m, y + NEXT) && Rd(m2, y + PREV) == Rd(m, y + PREV)
  {
    var nodes := Nodes(head, p.blocks);
    ShapedNodes(head, p);
    WithinAt(head, p.fl, nodes, j);
    WithinAt(head, p.fl, nodes, j + 2);
    Relabel(m, m1, nodes, {x});
    LinkedOutSame(m1, m2, NEXT_FREE, At(head, p.fl, j), At(head, p.fl, j + 2), nodes);
  }

  lemma FreeLinksKept(m: Mem, m1: Mem, head: int, p: Pool, x: int, y: int)
    requires Shaped(head, p) && x in Nodes(head, p.blocks) && y in Nodes(head, p.blocks)
    requires OnlyLabelled(m, m1, {x})
    ensures Rd(m1, y + NEXT_FREE) == Rd(m, y + NEXT_FREE) && Rd(m1, y + PREV_FREE) == Rd(m, y + PREV_FREE)
  {
    ShapedNodes(head, p);
    Relabel(m, m1, Nodes(head, p.blocks), {x});
  }

  /** Block k grows over the free block k + 1, which is node j of the free chain. */
  lemma RepJoinFree(m: Mem, m1: Mem, m2: Mem, m3: Mem, head: int, p: Pool, k: nat, j: nat)
    requires Shaped(head, p) && Rep(m, head, p, -1) && Touch(p.blocks, k) && p.blocks[k].free && p.blocks[k + 1].free
    requires j < |p.fl| && p.fl[j] == p.blocks[k + 1].addr
    requires m1 == m[p.blocks[k].addr + SIZE := p.blocks[k].size + p.blocks[k + 1].size]
    ensures LinkedOut(m1, m2, NEXT_FREE, At(head, p.fl, j), At(head, p.fl, j + 2))
         && LinkedOut(m2, m3, NEXT, At(head, Addrs(p.blocks), k + 1), At(head, Addrs(p.blocks), k + 3))
        ==> Rep(m3, head, ReleaseOn(p, k), -1)
  {
    var b, c, nodes := p.blocks, Join(p.blocks, k), Nodes(head, p.blocks);
    ShapedNodes(head, p);
    NodesJoin(head, b, k);
    AddrsJoin(b, k);
    LabelJoin(m, m1, head, p, c, k, -1);
    assert b[k].addr in nodes && b[k].addr == Addrs(b)[k];
    if LinkedOut(m1, m2, NEXT_FREE, At(head, p.fl, j), At(head, p.fl, j + 2))
       && LinkedOut(m2, m3, NEXT, At(head, Addrs(b), k + 1), At(head, Addrs(b), k + 3)) {
      ShrinkBoth(m, m1, m2, m3, head, Addrs(b), p.fl, c, b[k].addr, k + 1, j, nodes);
    }
    WithoutAt(p.fl, j);
  }

  /** The test free makes on the previous header is the one Release makes. */
  lemma BackTest(m: Mem, head: int, p: Pool, k: nat)
    requires Shaped(head, p) && Rep(m, head, p, k) && k < |p.blocks|
    ensures var pah := At(head, Addrs(p.blocks), k);
      (Rd(m, pah + TYPE) == FREE && pah + Rd(m, pah + SIZE) == p.blocks[k].addr) <==>
      (Touch(p.blocks, k - 1) && p.blocks[k - 1].free)
    ensures k > 0 ==> At(head, Addrs(p.blocks), k) == p.blocks[k - 1].addr
  {
  }

  /** And so is the test on the next header. */
  lemma OnTest(m: Mem, head: int, p: Pool, k: nat)
    requires Shaped(head, p) && Rep(m, head, p, -1) && k < |p.blocks|
    ensures var nah, r := At(head, Addrs(p.blocks), k + 2), p.blocks[k].addr;
      (Rd(m, nah + TYPE) == FREE && r + Rd(m, r + SIZE) == nah) <==> (Touch(p.blocks, k) && p.blocks[k + 1].free)
    ensures k + 1 < |p.blocks| ==> At(head, Addrs(p.blocks), k + 2) == p.blocks[k + 1].addr
  {
  }

  /** Releasing backwards does not change which header comes next. */
  lemma NextKept(head: int, p: Pool, k: nat)
    requires k < |p.blocks|
    ensures var (q, i) := ReleaseBack(p, k);
      At(head, Addrs(q.blocks), i + 2) == At(head, Addrs(p.blocks), k + 2)
      && i < |q.blocks|
      && q.blocks[i].addr == p.blocks[if Touch(p.blocks, k - 1) && p.blocks[k - 1].free then k - 1 else k].addr
  {
  }

  // ---------- malloc ----------

  lemma RepWhole(m: Mem, m1: Mem, m2: Mem, head: int, p: Pool, i: nat, j: nat, need: int)
    requires Inv(head, p) && Rep(m, head, p, -1) && CanCarve(p, i, j, need)
    requires p.blocks[i].size < need + 2 * HEADER
    requires m1 == m[p.blocks[i].addr + TYPE := USED]
    requires LinkedOut(m1, m2, NEXT_FREE, At(head, p.fl, j), At(head, p.fl, j + 2))
    ensures Rep(m2, head, Carve(p, i, j, need), -1)
  {
    var b, nodes := p.blocks, Nodes(head, p.blocks);
    var b' := b[i := Block(b[i].addr, b[i].size, false)];
    ShapedNodes(head, p);
    assert b[i].addr in nodes;
    Relabel(m, m1, nodes, {b[i].addr});
    ChainsFrame(m, m1, head, Addrs(b), p.fl, nodes);
    LabelOne(m, m1, head, p, b', i, nodes);
    assert Addrs(b') == Addrs(b) && Nodes(head, b') == nodes;
    RepPop(m1, m2, head, p.(blocks := b'), j, nodes);
  }

  /** Headers xs are relabelled and header x joins the main chain after node k. */
  lemma GrowMain(m: Mem, m1: Mem, m2: Mem, head: int, a: seq<int>, fl: seq<int>, c: seq<Block>, hole: int,
                 k: nat, x: int, xs: set<int>, nodes: set<int>)
    requires Separated(nodes) && Within(head, a, nodes) && Within(head, fl, nodes) && Nodes(head, c) <= nodes
    requires Linked(m, head, a, NEXT) && Linked(m, head, fl, NEXT_FREE) && Rd(m, head + TYPE) == HEAD
    requires xs <= nodes && head !in xs && x in nodes && x != head && x !in a && k <= |a|
    requires OnlyLabelled(m, m1, xs)
    requires Labelled(m1, c, hole) && Addrs(c) == a[..k] + [x] + a[k..]
    requires LinkedIn(m1, m2, NEXT, At(head, a, k), x, At(head, a, k + 1))
    ensures Rep(m2, head, Pool(c, fl), hole)
  {
    Relabel(m, m1, nodes, xs);
    ChainsFrame(m, m1, head, a, fl, nodes);
    Link(m1, m2, head, a, NEXT, k, x, nodes);
    ChainFrame(m1, m2, head, fl, NEXT_FREE, nodes);
    LabelFrame(m1, m2, head, c, hole, nodes);
  }

  /** Header v takes the place of node j + 1 of the free chain. */
  lemma SwapFree(m: Mem, m': Mem, head: int, c: seq<Block>, fl: seq<int>, j: nat, v: int, nodes: set<int>)
    requires Separated(nodes) && Within(head, Addrs(c), nodes) && Within(head, fl, nodes) && Nodes(head, c) <= nodes
    requires j < |fl| && Rep(m, head, Pool(c, fl), -1) && v in nodes && v != head && v !in fl
    requires LinkedIn(m, m', NEXT_FREE, At(head, fl, j), v, At(head, fl, j + 2))
    ensures Rep(m', head, Pool(c, fl[j := v]), -1)
  {
    Relink(m, m', head, fl, NEXT_FREE, j, v, nodes);
    ChainFrame(m, m', head, Addrs(c), NEXT, nodes);
    LabelFrame(m, m', head, c, -1, nodes);
  }

  ghost predicate SplitLabels(m: Mem, m1: Mem, x: Block, need: int) {
    var v := x.addr + need;
    && OnlyLabelled(m, m1, {v, x.addr})
    && Rd(m1, v + TYPE) == FREE && Rd(m1, v + SIZE) == x.size - need
    && Rd(m1, x.addr + TYPE) == USED && Rd(m1, x.addr + SIZE) == need
  }

  /** Everything SplitDone needs to know about the pool itself. */
  lemma SplitFacts(m: Mem, m1: Mem, head: int, p: Pool, i: nat, j: nat, need: int, c: seq<Block>)
    requires Inv(head, p) && Labelled(m, p.blocks, -1) && CanCarve(p, i, j, need)
    requires p.blocks[i].size >= need + 2 * HEADER && c == Carve(p, i, j, need).blocks
    requires SplitLabels(m, m1, p.blocks[i], need)
    requires Rep(m, head, p, -1)
    ensures GrowReady(m, m1, head, p, c, i, j, p.blocks[i].addr, p.blocks[i].addr + need)
  {
    SplitNodes(head, p, i, j, need);
    LabelSplit(m, m1, head, p, i, j, need);
    AddrsSplit(p, i, j, need);
  }

  /** The headers a split writes to are the block, its neighbours and the new one, all apart. */
  lemma SplitApart(m: Mem, m1: Mem, head: int, p: Pool, i: nat, j: nat, need: int, c: seq<Block>)
    requires Inv(head, p) && Rep(m, head, p, -1) && CanCarve(p, i, j, need)
    requires p.blocks[i].size >= need + 2 * HEADER && c == Carve(p, i, j, need).blocks
    requires SplitLabels(m, m1, p.blocks[i], need)
    ensures var x, v, a := p.blocks[i].addr, p.blocks[i].addr + need, Addrs(p.blocks);
      && Apart(v, x) && Apart(v, At(head, a, i + 2)) && Apart(v, At(head, p.fl, j)) && Apart(v, At(head, p.fl, j + 2))
      && Near(x, At(head, a, i + 2)) && Near(At(head, p.fl, j), At(head, p.fl, j + 2))
      && Near(x, At(head, p.fl, j)) && Near(x, At(head, p.fl, j + 2))
      && Rd(m1, x + NEXT_FREE) == Rd(m, x + NEXT_FREE) && Rd(m1, x + PREV_FREE) == Rd(m, x + PREV_FREE)
  {
    SplitNodes(head, p, i, j, need);
    var nodes, a := Nodes(head, c), Addrs(p.blocks);
    WithinAt(head, a, nodes, i + 2);
    WithinAt(head, p.fl, nodes, j);
    WithinAt(head, p.fl, nodes, j + 2);
    assert head in nodes;
    Relabel(m, m1, nodes, {p.blocks[i].addr + need, p.blocks[i].addr});
    ApartAt(head, a, i + 2, p.blocks[i].addr + need);
    ApartAt(head, p.fl, j, p.blocks[i].addr + need);
    ApartAt(head, p.fl, j + 2, p.blocks[i].addr + need);
  }

  lemma ApartAt(head: int, c: seq<int>, k: int, v: int)
    requires v != head && v !in c
    ensures At(head, c, k) != v
  {
  }

  predicate Apart(x: int, y: int) {
    x + 24 <= y || y + 24 <= x
  }

  predicate Near(x: int, y: int) {
    x == y || Apart(x, y)
  }

  /** Linking x in beside p on the main chain leaves the free-chain words of p. */
  lemma FreeCellsKept(m: Mem, m': Mem, p: int, x: int, n: int)
    requires Apart(x, p) && Near(p, n) && LinkedIn(m, m', NEXT, p, x, n)
    ensures Rd(m', p + NEXT_FREE) == Rd(m, p + NEXT_FREE) && Rd(m', p + PREV_FREE) == Rd(m, p + PREV_FREE)
  {
  }

  /** What inserting nfp on the main chain does, as long as the headers involved are apart. */
  ghost predicate MainWritten(m: Mem, m': Mem, fp: int, nfp: int, na: int) {
    Apart(nfp, fp) && Apart(nfp, na) && Near(fp, na) ==> LinkedIn(m, m', NEXT, fp, nfp, na)
  }

  ghost predicate FreeWritten(m: Mem, m': Mem, fp: int, nfp: int) {
    var fpp, fpn := Rd(m, fp + PREV_FREE), Rd(m, fp + NEXT_FREE);
    Apart(nfp, fp) && Apart(nfp, fpn) && Apart(nfp, fpp) && Near(fpp, fpn) ==>
      LinkedIn(m, m', NEXT_FREE, fpp, nfp, fpn)
  }

  // The twelve writes of a split

  function LabelsWritten(m: Mem, fp: int, size: int, fsize: int): Mem {
    m[fp + size + TYPE := FREE][fp + size + SIZE := fsize - size][fp + TYPE := USED][fp + SIZE := size]
  }

  function InsertedMain(m: Mem, fp: int, nfp: int, na: int): Mem {
    m[nfp + PREV := fp][nfp + NEXT := na][na + PREV := nfp][fp + NEXT := nfp]
  }

  function ReplacedFree(m: Mem, fp: int, nfp: int): Mem {
    var fpn := Rd(m, fp + NEXT_FREE);
    var m1 := m[nfp + NEXT_FREE := fpn];
    var fpp := Rd(m1, fp + PREV_FREE);
    m1[nfp + PREV_FREE := fpp][fpn + PREV_FREE := nfp][fpp + NEXT_FREE := nfp]
  }

  /** What splitting size bytes off a block of fsize bytes at fp makes of memory, whatever the size. */
  function SplitMem(m: Mem, fp: int, size: int, fsize: int): Mem {
    ReplacedFree(InsertedMain(LabelsWritten(m, fp, size, fsize), fp, fp + size, Rd(m, fp + NEXT)), fp, fp + size)
  }

  lemma LabelsAre(m: Mem, fp: int, size: int, fsize: int)
    requires size >= FREE_HEADER
    ensures SplitLabels(m, LabelsWritten(m, fp, size, fsize), Block(fp, fsize, true), size)
  {
  }

  lemma MainIs(m: Mem, fp: int, nfp: int, na: int)
    ensures MainWritten(m, InsertedMain(m, fp, nfp, na), fp, nfp, na)
  {
  }

  lemma FreeIs(m: Mem, fp: int, nfp: int)
    ensures FreeWritten(m, ReplacedFree(m, fp, nfp), fp, nfp)
  {
  }

  /** Of a size that leaves room for a header, they do what they should. */
  lemma SplitMemDone(m: Mem, m3: Mem, head: int, p: Pool, i: nat, j: nat, need: int)
    requires Inv(head, p) && Rep(m, head, p, -1) && CanCarve(p, i, j, need) && p.blocks[i].size >= need + 2 * HEADER
    requires m3 == SplitMem(m, p.blocks[i].addr, need, p.blocks[i].size)
    ensures Rep(m3, head, Carve(p, i, j, need), -1)
  {
    hide Inv, Rep, Carve, SplitLabels, MainWritten, FreeWritten, LabelsWritten, InsertedMain, ReplacedFree;
    var fp, fsize := p.blocks[i].addr, p.blocks[i].size;
    var na, nfp := Rd(m, fp + NEXT), fp + need;
    var m1 := LabelsWritten(m, fp, need, fsize);
    var m2 := InsertedMain(m1, fp, nfp, na);
    assert p.blocks[i] == Block(fp, fsize, true);
    LabelsAre(m, fp, need, fsize);
    MainIs(m1, fp, nfp, na);
    FreeIs(m2, fp, nfp);
    SplitDone(m, m1, m2, m3, head, p, i, j, need);
  }

  lemma SplitDone(m: Mem, m1: Mem, m2: Mem, m3: Mem, head: int, p: Pool, i: nat, j: nat, need: int)
    requires Inv(head, p) && Rep(m, head, p, -1) && CanCarve(p, i, j, need)
    requires p.blocks[i].size >= need + 2 * HEADER
    requires SplitLabels(m, m1, p.blocks[i], need)
    requires MainWritten(m1, m2, p.blocks[i].addr, p.blocks[i].addr + need, Rd(m, p.blocks[i].addr + NEXT))
    requires FreeWritten(m2, m3, p.blocks[i].addr, p.blocks[i].addr + need)
    ensures Rep(m3, head, Carve(p, i, j, need), -1)
  {
    hide Linked, LinkedIn, Labelled, Shaped, Coalesced, SplitLabels, GrowReady, Apart, Near;
    var x, v, c := p.blocks[i].addr, p.blocks[i].addr + need, Carve(p, i, j, need).blocks;
    MainNeighbours(m, head, p, i);
    FreeNeighbours(m, head, p, j);
    SplitApart(m, m1, head, p, i, j, need, c);
    FreeCellsKept(m1, m2, x, v, At(head, Addrs(p.blocks), i + 2));
    SplitFacts(m, m1, head, p, i, j, need, c);
    GrowBoth(m, m1, m2, m3, head, p, c, i, j, x, v);
  }

  /** All but the links is in place for v to be split off x. */
  ghost predicate GrowReady(m: Mem, m1: Mem, head: int, p: Pool, c: seq<Block>, i: int, j: int, x: int, v: int) {
    && SplitReady(head, p, c, x, v) && Rep(m, head, p, -1)
    && 0 <= i < |p.blocks| && x == p.blocks[i].addr && 0 <= j < |p.fl|
    && OnlyLabelled(m, m1, {v, x}) && Labelled(m1, c, -1)
    && Addrs(c) == Addrs(p.blocks)[..i + 1] + [v] + Addrs(p.blocks)[i + 1..]
  }

  /** Header v, split off header x, joins the main chain and replaces x on the free chain. */
  lemma GrowBoth(m: Mem, m1: Mem, m2: Mem, m3: Mem, head: int, p: Pool, c: seq<Block>, i: nat, j: nat, x: int, v: int)
    requires GrowReady(m, m1, head, p, c, i, j, x, v)
    ensures LinkedIn(m1, m2, NEXT, x, v, At(head, Addrs(p.blocks), i + 2))
         && LinkedIn(m2, m3, NEXT_FREE, At(head, p.fl, j), v, At(head, p.fl, j + 2))
        ==> Rep(m3, head, Pool(c, p.fl[j := v]), -1)
  {
    hide Linked, LinkedIn, Within, Labelled, OnlyLabelled, Separated;
    var nodes := Nodes(head, c);
    if LinkedIn(m1, m2, NEXT, x, v, At(head, Addrs(p.blocks), i + 2))
       && LinkedIn(m2, m3, NEXT_FREE, At(head, p.fl, j), v, At(head, p.fl, j + 2)) {
      GrowMain(m, m1, m2, head, Addrs(p.blocks), p.fl, c, -1, i + 1, v, {v, x}, nodes);
      SwapFree(m2, m3, head, c, p.fl, j, v, nodes);
    }
  }

  lemma AddrsSplit(p: Pool, i: nat, j: nat, need: int)
    requires i < |p.blocks| && j < |p.fl| && p.blocks[i].size >= need + 2 * HEADER
    ensures var a := Addrs(p.blocks);
      Addrs(Carve(p, i, j, need).blocks) == a[..i + 1] + [p.blocks[i].addr + need] + a[i + 1..]
  {
  }

  lemma AddrsInsert(p: Pool, x: int, size: int)
    ensures var a, i := Addrs(p.blocks), Place(p.blocks, x);
      Addrs(Insert(p, x, size).blocks) == a[..i] + [x] + a[i..]
  {
  }

  /** The headers of c can hold both chains of p and the new header v beside x. */
  ghost predicate SplitReady(head: int, p: Pool, c: seq<Block>, x: int, v: int) {
    var nodes := Nodes(head, c);
    && Separated(nodes) && Within(head, Addrs(p.blocks), nodes) && Within(head, p.fl, nodes)
    && Within(head, Addrs(c), nodes)
    && v in nodes && x in nodes && x != head && v != head && v !in p.fl && v !in Addrs(p.blocks)
  }

  /** The nodes after a split hold both chains from before it. */
  lemma SplitNodes(head: int, p: Pool, i: nat, j: nat, need: int)
    requires Inv(head, p) && CanCarve(p, i, j, need) && p.blocks[i].size >= need + 2 * HEADER
    ensures SplitReady(head, p, Carve(p, i, j, need).blocks, p.blocks[i].addr, p.blocks[i].addr + need)
  {
    var b, q, v := p.blocks, Carve(p, i, j, need), p.blocks[i].addr + need;
    CarveKeeps(head, p, i, j, need);
    ShapedNodes(head, q);
    ShapedNodes(head, p);
    SplitCovers(head, b, q.blocks, i, v, p, j, need);
    NotInside(b, i, v) by { assert Sound(head, b[i]); assert forall k :: 0 <= k < |b| ==> Sound(head, b[k]); }
    assert v !in Elems(p.fl);
  }

  lemma SplitCovers(head: int, b: seq<Block>, c: seq<Block>, i: nat, v: int, p: Pool, j: nat, need: int)
    requires Inv(head, p) && CanCarve(p, i, j, need) && p.blocks[i].size >= need + 2 * HEADER
    requires b == p.blocks && c == Carve(p, i, j, need).blocks && v == b[i].addr + need
    ensures Nodes(head, b) <= Nodes(head, c) && v in Nodes(head, c) && v != head && v !in Addrs(b)
  {
    AscendingAll(b);
    forall k | 0 <= k < |b| ensures b[k].addr in Nodes(head, c) {
      assert c[if k <= i then k else k + 1].addr == b[k].addr;
    }
    assert c[i + 1].addr == v;
    forall k | 0 <= k < |b| ensures b[k].addr != v {
      assert Sound(head, b[k]) && Sound(head, b[i]);
    }
  }

  lemma LabelSplit(m: Mem, m1: Mem, head: int, p: Pool, i: nat, j: nat, need: int)
    requires Inv(head, p) && Labelled(m, p.blocks, -1) && CanCarve(p, i, j, need)
    requires p.blocks[i].size >= need + 2 * HEADER
    requires SplitLabels(m, m1, p.blocks[i], need)
    ensures Labelled(m1, Carve(p, i, j, need).blocks, -1)
  {
    AscendingAll(p.blocks);
    var b, c := p.blocks, Carve(p, i, j, need).blocks;
    forall k | 0 <= k < |c|
      ensures Rd(m1, c[k].addr + SIZE) == c[k].size && Rd(m1, c[k].addr + TYPE) == if c[k].free then FREE else USED
    {
      if k != i && k != i + 1 {
        var o := if k < i then k else k - 1;
        assert c[k] == b[o] && Sound(head, b[o]) && Sound(head, b[i]);
        assert o < i ==> b[o].addr + b[o].size <= b[i].addr;
        assert o > i ==> b[i].addr + b[i].size <= b[o].addr;
      }
    }
  }

  // ---------- malloc_add ----------

  lemma RepInsert(m: Mem, m1: Mem, m2: Mem, head: int, p: Pool, a: int, size: int)
    requires Inv(head, p) && Rep(m, head, p, -1) && Fresh(head, p, a, size)
    requires OnlyLabelled(m, m1, {a}) && Rd(m1, a + SIZE) == RoundSeed(size)
    requires var i := Place(p.blocks, a);
      LinkedIn(m1, m2, NEXT, At(head, Addrs(p.blocks), i), a, At(head, Addrs(p.blocks), i + 1))
    ensures Rep(m2, head, Insert(p, a, RoundSeed(size)), Place(p.blocks, a))
  {
    var c, i := Insert(p, a, RoundSeed(size)).blocks, Place(p.blocks, a);
    var s, nodes := Addrs(p.blocks), Nodes(head, c);
    InsertNodes(head, p, a, size);
    LabelInsert(m, m1, head, p, a, size);
    AddrsInsert(p, a, RoundSeed(size));
    GrowMain(m, m1, m2, head, s, p.fl, c, i, i, a, {a}, nodes);
  }

  ghost predicate GapClear(m: Mem, head: int, s: seq<int>, i: int, a: int) {
    && Apart(a, At(head, s, i)) && Apart(a, At(head, s, i + 1)) && Near(At(head, s, i), At(head, s, i + 1))
    && Rd(m, At(head, s, i) + NEXT) == At(head, s, i + 1)
  }

  /** The new header keeps clear of the two it is linked between. */
  lemma PlaceApart(m: Mem, head: int, p: Pool, a: int, size: int)
    requires Inv(head, p) && Rep(m, head, p, -1) && Fresh(head, p, a, size)
    ensures GapClear(m, head, Addrs(p.blocks), Place(p.blocks, a), a)
  {
    InsertNodes(head, p, a, size);
    GapApart(m, head, p, Place(p.blocks, a), a, Insert(p, a, RoundSeed(size)).blocks);
  }

  /** Types and prev words of every node read the same in m and m1. */
  ghost predicate SameAround(m: Mem, m1: Mem, head: int, p: Pool) {
    forall k {:trigger At(head, Addrs(p.blocks), k)} :: 0 <= k <= |p.blocks| + 1 ==>
      AroundSame(m, m1, At(head, Addrs(p.blocks), k))
  }

  ghost predicate AroundSame(m: Mem, m1: Mem, x: int) {
    && Rd(m1, x + TYPE) == Rd(m, x + TYPE) && Rd(m1, x + PREV) == Rd(m, x + PREV)
    && Rd(m1, x + NEXT) == Rd(m, x + NEXT)
  }

  lemma PlaceKept(m: Mem, m1: Mem, head: int, p: Pool, a: int, size: int)
    requires Inv(head, p) && Fresh(head, p, a, size) && OnlyLabelled(m, m1, {a})
    ensures SameAround(m, m1, head, p)
  {
    var s, nodes := Addrs(p.blocks), Nodes(head, Insert(p, a, RoundSeed(size)).blocks);
    InsertNodes(head, p, a, size);
    forall k | 0 <= k <= |p.blocks| + 1 ensures AroundSame(m, m1, At(head, Addrs(p.blocks), k)) {
      WithinAt(head, s, nodes, k);
      ApartAt(head, s, k, a);
      OtherKept(m, m1, nodes, At(head, s, k), a);
    }
  }

  lemma OtherKept(m: Mem, m1: Mem, nodes: set<int>, x: int, a: int)
    requires Separated(nodes) && x in nodes && a in nodes && x != a && OnlyLabelled(m, m1, {a})
    ensures AroundSame(m, m1, x)
  {
  }

  lemma GapApart(m: Mem, head: int, p: Pool, i: nat, a: int, c: seq<Block>)
    requires InsertReady(head, p, c, a) && Linked(m, head, Addrs(p.blocks), NEXT) && i <= |p.blocks|
    ensures GapClear(m, head, Addrs(p.blocks), i, a)
  {
    var s, nodes := Addrs(p.blocks), Nodes(head, c);
    WithinAt(head, s, nodes, i);
    WithinAt(head, s, nodes, i + 1);
    assert LinkAt(m, head, s, NEXT, i);
    ApartAt(head, s, i, a);
    ApartAt(head, s, i + 1, a);
  }

  lemma InsertDone(m: Mem, m1: Mem, m2: Mem, head: int, p: Pool, a: int, size: int, pah: int)
    requires Inv(head, p) && Rep(m, head, p, -1) && Fresh(head, p, a, size)
    requires OnlyLabelled(m, m1, {a}) && Rd(m1, a + SIZE) == RoundSeed(size)
    requires pah == At(head, Addrs(p.blocks), Place(p.blocks, a))
    requires MainWritten(m1, m2, pah, a, Rd(m1, pah + NEXT))
    ensures Rep(m2, head, Insert(p, a, RoundSeed(size)), Place(p.blocks, a))
  {
    PlaceKept(m, m1, head, p, a, size);
    PlaceApart(m, head, p, a, size);
    RepInsert(m, m1, m2, head, p, a, size);
  }

  /** The headers of c can hold both chains of p and the new header a. */
  ghost predicate InsertReady(head: int, p: Pool, c: seq<Block>, a: int) {
    var nodes := Nodes(head, c);
    && Separated(nodes) && Within(head, Addrs(p.blocks), nodes) && Within(head, p.fl, nodes)
    && a in nodes && a != head && a !in Addrs(p.blocks)
  }

  lemma InsertNodes(head: int, p: Pool, a: int, size: int)
    requires Inv(head, p) && Fresh(head, p, a, size)
    ensures InsertReady(head, p, Insert(p, a, RoundSeed(size)).blocks, a)
  {
    var b, i := p.blocks, Place(p.blocks, a);
    var q := Insert(p, a, RoundSeed(size));
    InsertKeeps(head, p, a, size);
    ShapedNodes(head, q);
    ShapedNodes(head, p);
    InsertCovers(head, p, q.blocks, i, a, size);
  }

  /** The nodes after an insertion are those from before it and the new one. */
  lemma InsertCovers(head: int, p: Pool, c: seq<Block>, i: nat, a: int, size: int)
    requires Shaped(head, p) && Fresh(head, p, a, size) && i <= |p.blocks|
    requires c == p.blocks[..i] + [Block(a, RoundSeed(size), false)] + p.blocks[i..]
    ensures forall k :: 0 <= k < |p.blocks| ==> p.blocks[k].addr in Nodes(head, c) && p.blocks[k].addr != a
    ensures a in Nodes(head, c)
  {
    var b := p.blocks;
    forall k | 0 <= k < |b| ensures b[k].addr in Nodes(head, c) && b[k].addr != a {
      assert c[if k < i then k else k + 1].addr == b[k].addr;
      assert Sound(head, b[k]);
    }
    assert c[i].addr == a;
  }

  lemma LabelInsert(m: Mem, m1: Mem, head: int, p: Pool, a: int, size: int)
    requires Inv(head, p) && Labelled(m, p.blocks, -1) && Fresh(head, p, a, size)
    requires OnlyLabelled(m, m1, {a}) && Rd(m1, a + SIZE) == RoundSeed(size)
    ensures Labelled(m1, Insert(p, a, RoundSeed(size)).blocks, Place(p.blocks, a))
  {
    var b, i := p.blocks, Place(p.blocks, a);
    var c := Insert(p, a, RoundSeed(size)).blocks;
    forall k | 0 <= k < |c| && k != i
      ensures Rd(m1, c[k].addr + SIZE) == c[k].size && Rd(m1, c[k].addr + TYPE) == if c[k].free then FREE else USED
    {
      var o := if k < i then k else k - 1;
      assert c[k] == b[o] && Sound(head, b[o]);
    }
  }

  // ---------- payloads ----------

  lemma PayloadWrite(m: Mem, head: int, p: Pool, ptr: int, offset: int, v: int)
    requires Inv(head, p) && Rep(m, head, p, -1) && Live(p, ptr)
    requires 0 <= offset && offset + 4 <= SizeAt(p.blocks, ptr - HEADER) - HEADER
    ensures Rep(m[ptr + offset := v], head, p, -1)
  {
    LiveIsUsed(head, p, ptr);
    var k, a, m' := IndexOf(p.blocks, ptr - HEADER), ptr + offset, m[ptr + offset := v];
    PayloadClear(head, p, k, a);
    UsedNotNode(head, p, k);
    forall i | 0 <= i <= |p.fl| + 1 ensures Clear(At(head, p.fl, i), a, PREV_FREE) {
      FreeNodeClear(head, p, k, a, i);
    }
    forall i | 0 <= i <= |p.blocks| + 1 ensures Clear(At(head, Addrs(p.blocks), i), a, PREV) {
    }
    LinkedFrame(m, m', head, p.fl, NEXT_FREE);
    LinkedFrame(m, m', head, Addrs(p.blocks), NEXT);
  }

  /** Cell a is none of the header words up to offset `last` of the header at x. */
  predicate Clear(x: int, a: int, last: int) {
    a < x || x + last < a
  }

  lemma PayloadClear(head: int, p: Pool, k: nat, a: int)
    requires Shaped(head, p) && k < |p.blocks|
    requires p.blocks[k].addr + HEADER <= a && a + 4 <= p.blocks[k].addr + p.blocks[k].size
    ensures Clear(head, a, PREV_FREE)
    ensures forall i :: 0 <= i < |p.blocks| ==> Clear(p.blocks[i].addr, a, if i == k then PREV else PREV_FREE)
  {
    AscendingAll(p.blocks);
    assert Sound(head, p.blocks[k]);
    forall i | 0 <= i < |p.blocks| && i != k ensures Clear(p.blocks[i].addr, a, PREV_FREE) {
      assert Sound(head, p.blocks[i]);
      assert i < k ==> p.blocks[i].addr + p.blocks[i].size <= p.blocks[k].addr;
      assert i > k ==> p.blocks[k].addr + p.blocks[k].size <= p.blocks[i].addr;
    }
  }

  lemma FreeNodeClear(head: int, p: Pool, k: nat, a: int, i: int)
    requires Shaped(head, p) && k < |p.blocks| && !p.blocks[k].free && 0 <= i <= |p.fl| + 1
    requires p.blocks[k].addr + HEADER <= a && a + 4 <= p.blocks[k].addr + p.blocks[k].size
    ensures Clear(At(head, p.fl, i), a, PREV_FREE)
  {
    PayloadClear(head, p, k, a);
    if 1 <= i <= |p.fl| {
      NodeIsFree(head, p, i - 1);
    }
  }
}
