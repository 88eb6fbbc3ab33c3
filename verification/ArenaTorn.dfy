/** What is left of the arena when a request overflows size_t (Lib/malloc.c:62-83). */
module ArenaTorn {
  import opened Words
  import opened Memory
  import opened Chains
  import opened Cells
  import opened BlockSpec
  import opened BlockProofs
  import opened BlockTheorems
  import opened ArenaRep

  /** The block at fp is both its own neighbours, of size 0 and in use, and still on the free chain. */
  ghost predicate Tangled(m: Mem, prev: int, fp: int) {
    && Rd(m, fp + TYPE) == USED && Rd(m, fp + SIZE) == 0
    && Rd(m, fp + NEXT) == fp && Rd(m, fp + PREV) == fp && Rd(m, prev + NEXT_FREE) == fp
  }

  /** A request that wraps to 0 leaves one header, tangled, and no pool of blocks that memory
      could stand for. */
  lemma MallocOverflows(m: Mem, head: int, p: Pool, n: int)
    requires Inv(head, p) && Rep(m, head, p, -1) && Torn(p, n) && Need(n) == 0
    ensures var fp := p.fl[0]; var m' := SplitMem(m, fp, 0, SizeAt(p.blocks, fp));
      && fp == Answer(p, n) - HEADER && Tangled(m', head, fp)
      && forall q :: Inv(head, q) ==> !Rep(m', head, q, -1)
  {
    MallocChooses(head, p, n);
    NodeIsFree(head, p, 0);
    var i := IndexOf(p.blocks, p.fl[0]);
    assert Choose(p, n) == Chosen(0, i);
    SplitOfNothing(m, head, p, i);
    var m' := SplitMem(m, p.fl[0], 0, p.blocks[i].size);
    forall q | Inv(head, q) ensures !Rep(m', head, q, -1) {
      UsedOnChain(m', head, q, p.fl[0]);
    }
  }

  lemma SplitOfNothing(m: Mem, head: int, p: Pool, i: nat)
    requires Inv(head, p) && Rep(m, head, p, -1) && p.fl != [] && i < |p.blocks| && p.blocks[i].addr == p.fl[0]
    ensures Tangled(SplitMem(m, p.fl[0], 0, p.blocks[i].size), head, p.fl[0])
  {
    var fp := p.fl[0];
    ShapedNodes(head, p);
    MainNeighbours(m, head, p, i);
    FreeNeighbours(m, head, p, 0);
    var nodes := Nodes(head, p.blocks);
    WithinAt(head, Addrs(p.blocks), nodes, i + 2);
    WithinAt(head, p.fl, nodes, 2);
    WithinAt(head, p.fl, nodes, 1);
    NothingSplit(m, fp, p.blocks[i].size, Rd(m, fp + NEXT), head, Rd(m, fp + NEXT_FREE));
  }

  /** With headers apart, the twelve writes at one address come to this. */
  lemma NothingSplit(m: Mem, fp: int, fsize: int, na: int, head: int, fpn: int)
    requires na == Rd(m, fp + NEXT) && head == Rd(m, fp + PREV_FREE) && fpn == Rd(m, fp + NEXT_FREE)
    requires Apart(fp, head) && Apart(fp, na) && Apart(fp, fpn) && Near(head, na) && Near(head, fpn) && Near(na, fpn)
    ensures Tangled(SplitMem(m, fp, 0, fsize), head, fp)
  {
    var m2 := InsertedMain(LabelsWritten(m, fp, 0, fsize), fp, fp, na);
    assert Rd(m2, fp + NEXT_FREE) == fpn && Rd(m2, fp + PREV_FREE) == head;
    assert Rd(m2, fp + TYPE) == USED && Rd(m2, fp + SIZE) == 0 && Rd(m2, fp + NEXT) == fp && Rd(m2, fp + PREV) == fp;
  }

  /** A header in use is the first node of no free chain. */
  lemma UsedOnChain(m: Mem, head: int, q: Pool, fp: int)
    requires Inv(head, q) && Rd(m, fp + TYPE) == USED && fp != head && Rd(m, head + NEXT_FREE) == fp
    ensures !Rep(m, head, q, -1)
  {
    if Rep(m, head, q, -1) {
      FreeNode(m, head, q, 0);
    }
  }

  /** A request that wraps to one header puts the new header over the links of the old: what is read
      back as the next and previous free block are its type and its size, and their links are written. */
  lemma LinksOverwritten(m: Mem, head: int, p: Pool, n: int)
    requires Inv(head, p) && Rep(m, head, p, -1) && Torn(p, n) && Need(n) == HEADER
    ensures var x := p.blocks[Choose(p, n).i]; var nfp, m' := x.addr + HEADER, SplitMem(m, x.addr, HEADER, x.size);
      Rd(m', FREE + PREV_FREE) == nfp && Rd(m', x.size - HEADER + NEXT_FREE) == nfp
  {
    hide Shaped, Linked, Labelled, Coalesced, SplitMem;
    var i := Choose(p, n).i;
    var x := p.blocks[i];
    MainNeighbours(m, head, p, i);
    NextApart(head, p, i);
    LinksRead(m, x);
  }

  lemma LinksRead(m: Mem, x: Block)
    requires Apart(x.addr, Rd(m, x.addr + NEXT))
    ensures var nfp, m' := x.addr + HEADER, SplitMem(m, x.addr, HEADER, x.size);
      Rd(m', FREE + PREV_FREE) == nfp && Rd(m', x.size - HEADER + NEXT_FREE) == nfp
  {
    var nfp, na := x.addr + HEADER, Rd(m, x.addr + NEXT);
    var m2 := InsertedMain(LabelsWritten(m, x.addr, HEADER, x.size), x.addr, nfp, na);
    assert Rd(m2, x.addr + NEXT_FREE) == FREE && Rd(m2, x.addr + PREV_FREE) == x.size - HEADER;
    var m3 := m2[nfp + NEXT_FREE := FREE][nfp + PREV_FREE := x.size - HEADER];
    assert SplitMem(m, x.addr, HEADER, x.size) == m3[FREE + PREV_FREE := nfp][x.size - HEADER + NEXT_FREE := nfp];
  }

  /** The block after another leaves room for its whole header. */
  lemma NextApart(head: int, p: Pool, i: nat)
    requires Shaped(head, p) && i < |p.blocks|
    ensures Apart(p.blocks[i].addr, At(head, Addrs(p.blocks), i + 2))
  {
    var nodes := Nodes(head, p.blocks);
    ShapedNodes(head, p);
    WithinAt(head, Addrs(p.blocks), nodes, i + 2);
    assert p.blocks[i].addr in nodes && At(head, Addrs(p.blocks), i + 1) == p.blocks[i].addr;
    if i + 1 < |p.blocks| {
      assert Addrs(p.blocks)[i] != Addrs(p.blocks)[i + 1];
    }
  }
}
