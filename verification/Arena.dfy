/** The arena allocator itself (Lib/malloc.c), working in place on memory. */
module Arena {
  import opened Words
  import opened Memory
  import opened Chains
  import opened Cells
  import opened BlockSpec
  import opened BlockProofs
  import opened BlockTheorems
  import opened ArenaRep

  class Allocator {
    const head: int  // &__malloc_head
    var mem: Mem
    ghost var pool: Pool

    ghost predicate Valid()
      reads this
    {
      Inv(head, pool) && Rep(mem, head, pool, -1)
    }

    /** The static initialiser of __malloc_head: both chains empty. */
    constructor (head: int)
      ensures Valid() && pool == EMPTY && this.head == head
    {
      this.head := head;
      mem := map[head + TYPE := HEAD, head + SIZE := 0, head + NEXT := head, head + PREV := head,
                 head + NEXT_FREE := head, head + PREV_FREE := head];
      pool := EMPTY;
      new;
      assert LinkAt(mem, head, [], NEXT, 0) && LinkAt(mem, head, [], NEXT_FREE, 0);
    }

    /** remove_from_main_chain; p and n are the neighbours. */
    method RemoveFromMainChain(ah: int, ghost p: int, ghost n: int)
      requires Rd(mem, ah + PREV) == p && Rd(mem, ah + NEXT) == n && p != n + 4
      modifies this`mem
      ensures LinkedOut(old(mem), mem, NEXT, p, n)
    {
      var ap, an := Rd(mem, ah + PREV), Rd(mem, ah + NEXT);
      mem := mem[ap + NEXT := an];
      mem := mem[an + PREV := ap];
    }

    method RemoveFromFreeChain(ah: int, ghost p: int, ghost n: int)
      requires Rd(mem, ah + PREV_FREE) == p && Rd(mem, ah + NEXT_FREE) == n && p != n + 4
      modifies this`mem
      ensures LinkedOut(old(mem), mem, NEXT_FREE, p, n)
    {
      var ap, an := Rd(mem, ah + PREV_FREE), Rd(mem, ah + NEXT_FREE);
      mem := mem[ap + NEXT_FREE := an];
      mem := mem[an + PREV_FREE := ap];
    }
  
    /** The size word of block k grows by that of the next. */
    method AddSize(ah: int, nah: int, ghost k: nat)
      requires Labelled(mem, pool.blocks, k + 1) && k + 1 < |pool.blocks|
      requires pool.blocks[k].addr == ah && pool.blocks[k + 1].addr == nah
      modifies this`mem
      ensures mem == old(mem)[ah + SIZE := pool.blocks[k].size + pool.blocks[k + 1].size]
    {
      mem := mem[ah + SIZE := Rd(mem, ah + SIZE) + Rd(mem, nah + SIZE)];
    }

    /** free's first half when the previous block is free and touches: it grows over this one. */
    method CoalesceBack(ah: int, ghost k: nat)
      requires Shaped(head, pool) && Rep(mem, head, pool, k) && k < |pool.blocks|
      requires pool.blocks[k].addr == ah && Touch(pool.blocks, k - 1) && pool.blocks[k - 1].free
      modifies this
      ensures pool == Pool(Join(old(pool.blocks), k - 1), old(pool.fl)) && Rep(mem, head, pool, -1)
    {
      hide Shaped, Linked, Labelled, Within, Separated;
      ghost var m := mem;
      MainNeighbours(mem, head, pool, k);
      assert Within(head, pool.fl, Nodes(head, pool.blocks)) by { ShapedNodes(head, pool); }
      var pah, nah := Rd(mem, ah + PREV), Rd(mem, ah + NEXT);
      AddSize(pah, ah, k - 1);
      ghost var m1 := mem;
      mem := mem[pah + NEXT := nah];
      mem := mem[nah + PREV := pah];
      RepJoin(m, m1, mem, head, pool, pool.fl, k - 1, k);
      pool := Pool(Join(pool.blocks, k - 1), pool.fl);
    }

    /** free's first half otherwise: the block goes to the front of the free chain. */
    method PushFree(ah: int, ghost k: nat)
      requires Shaped(head, pool) && Rep(mem, head, pool, k) && k < |pool.blocks|
      requires pool.blocks[k].addr == ah && !pool.blocks[k].free
      modifies this
      ensures pool == Pool(old(pool.blocks)[k := Block(ah, old(pool.blocks)[k].size, true)], [ah] + old(pool.fl))
      ensures Rep(mem, head, pool, -1)
    {
      hide Shaped, Rep;
      ghost var m := mem;
      PushApart(m, head, pool, k);
      mem := mem[ah + TYPE := FREE];
      ghost var m1 := mem;
      mem := mem[ah + NEXT_FREE := Rd(mem, head + NEXT_FREE)];
      mem := mem[ah + PREV_FREE := head];
      mem := mem[head + NEXT_FREE := ah];
      mem := mem[Rd(mem, ah + NEXT_FREE) + PREV_FREE := ah];
      RepPush(m, m1, mem, head, pool, k);
      pool := Pool(pool.blocks[k := Block(ah, pool.blocks[k].size, true)], [ah] + pool.fl);
    }
  
    /** free's second half: the block grows over a free next block, which leaves both chains. */
    method CoalesceOn(ah: int, nah: int, ghost k: nat)
      requires Shaped(head, pool) && Rep(mem, head, pool, -1) && k + 1 < |pool.blocks| && pool.blocks[k].free
      requires pool.blocks[k].addr == ah && pool.blocks[k + 1].addr == nah
      requires Touch(pool.blocks, k) && pool.blocks[k + 1].free
      modifies this
      ensures pool == ReleaseOn(old(pool), k) && Rep(mem, head, pool, -1)
    {
      ghost var m := mem;
      ghost var j := FreeIsNode(head, pool, k + 1);
      AddSize(ah, nah, k);
      RemoveFromChains(m, ah, nah, k, j);
      pool := ReleaseOn(pool, k);
    }

    /** remove_from_chains, for the block that block k has grown over since memory was m. */
    method RemoveFromChains(ghost m: Mem, ghost ah: int, nah: int, ghost k: nat, ghost j: nat)
      requires Shaped(head, pool) && Rep(m, head, pool, -1) && Touch(pool.blocks, k) && j < |pool.fl|
      requires pool.blocks[k].addr == ah && pool.blocks[k + 1].addr == nah == pool.fl[j]
      requires pool.blocks[k].free && pool.blocks[k + 1].free
      requires mem == m[ah + SIZE := pool.blocks[k].size + pool.blocks[k + 1].size]
      modifies this`mem
      ensures Rep(mem, head, ReleaseOn(pool, k), -1)
    {
      hide Shaped, Linked, Labelled, Within, Separated;
      ghost var m1, a, nodes := mem, Addrs(pool.blocks), Nodes(head, pool.blocks);
      assert ah in nodes && nah in nodes;
      MainNeighbours(m, head, pool, k + 1);
      FreeNeighbours(m, head, pool, j);
      FreeLinksKept(m, m1, head, pool, ah, nah);
      RemoveFromFreeChain(nah, At(head, pool.fl, j), At(head, pool.fl, j + 2));
      ghost var m2 := mem;
      MainLinksKept(m, m1, m2, head, pool, ah, j, nah);
      RemoveFromMainChain(nah, At(head, a, k + 1), At(head, a, k + 3));
      RepJoinFree(m, m1, m2, mem, head, pool, k, j);
    }
  
    method ReleaseBackwards(ah: int, pah: int, ghost k: nat) returns (r: int)
      requires Shaped(head, pool) && Rep(mem, head, pool, k) && k < |pool.blocks|
      requires pool.blocks[k].addr == ah && !pool.blocks[k].free
      requires pah == At(head, Addrs(pool.blocks), k)
      modifies this
      ensures pool == ReleaseBack(old(pool), k).0 && Rep(mem, head, pool, -1)
      ensures r == if Touch(old(pool.blocks), k - 1) && old(pool.blocks)[k - 1].free then pah else ah
    {
      BackTest(mem, head, pool, k);
      if Rd(mem, pah + TYPE) == FREE && pah + Rd(mem, pah + SIZE) == ah {
        CoalesceBack(ah, k);
        r := pah;
      } else {
        PushFree(ah, k);
        r := ah;
      }
    }

    method ReleaseOnwards(ah: int, nah: int, ghost k: nat)
      requires Shaped(head, pool) && Rep(mem, head, pool, -1) && k < |pool.blocks|
      requires pool.blocks[k].addr == ah && pool.blocks[k].free
      requires nah == At(head, Addrs(pool.blocks), k + 2)
      modifies this
      ensures pool == ReleaseOn(old(pool), k) && Rep(mem, head, pool, -1)
    {
      OnTest(mem, head, pool, k);
      if Rd(mem, nah + TYPE) == FREE && ah + Rd(mem, ah + SIZE) == nah {
        CoalesceOn(ah, nah, k);
      }
    }

    /** __free_block: block k, whatever its type word says, becomes free and merges both ways. */
    method FreeBlock(ah: int, ghost k: nat) returns (r: int)
      requires Shaped(head, pool) && Rep(mem, head, pool, k) && k < |pool.blocks|
      requires pool.blocks[k].addr == ah && !pool.blocks[k].free && CoalescedBut(pool.blocks, k)
      modifies this
      ensures Valid() && pool == Release(old(pool), k)
      ensures var i := ReleaseBack(old(pool), k).1; i < |pool.blocks| && r == pool.blocks[i].addr
    {
      hide Shaped, Linked, Labelled, Coalesced, CoalescedBut;
      ghost var i := ReleaseBack(pool, k).1;
      ReleaseKeeps(head, pool, k);
      ReleaseBackKeeps(head, pool, k);
      MainNeighbours(mem, head, pool, k);
      NextKept(head, pool, k);
      var pah, nah := Rd(mem, ah + PREV), Rd(mem, ah + NEXT);
      r := ReleaseBackwards(ah, pah, k);
      ReleaseOnwards(r, nah, i);
    }

    /** Block i, node j of the free chain, can hold size bytes: what malloc has found. */
    ghost predicate Found(fp: int, size: int, i: nat, j: nat)
      reads this
    {
      && i < |pool.blocks| && j < |pool.fl| && 0 <= size <= pool.blocks[i].size
      && pool.fl[j] == pool.blocks[i].addr == fp && pool.blocks[i].free
    }

    /** __malloc_from_block: split the free block, or use it whole. Splitting off less than two headers,
        which only an overflowing request can ask for, tears the headers apart. */
    method MallocFromBlock(fp: int, size: int, ghost i: nat, ghost j: nat) returns (r: int)
      requires Valid() && Found(fp, size, i, j)
      modifies this
      ensures r == fp + HEADER
      ensures !Tears(old(pool), i, size) ==> Valid() && pool == Carve(old(pool), i, j, size)
      ensures Tears(old(pool), i, size) ==>
        pool == old(pool) && mem == SplitMem(old(mem), fp, size, old(pool).blocks[i].size)
    {
      var fsize := Rd(mem, fp + SIZE);
      assert Wrap(size + 2 * HEADER) == size + 2 * HEADER by { assert Sound(head, pool.blocks[i]); }
      if fsize >= Wrap(size + 2 * HEADER) {
        SplitBlock(fp, size, fsize, i, j);
      } else {
        UseWhole(fp, size, i, j);
      }
      r := fp + HEADER;
    }

    /** The block leaves the free chain as it is: whatever the size, that does no harm. */
    method UseWhole(fp: int, ghost size: int, ghost i: nat, ghost j: nat)
      requires Valid() && Found(fp, size, i, j) && pool.blocks[i].size < size + 2 * HEADER
      modifies this
      ensures pool == Carve(old(pool), i, j, size) && Valid()
    {
      ghost var m := mem;
      ghost var need := WholeNeed(head, pool, i, j, size);
      CarveKeeps(head, pool, i, j, need);
      FreeNeighbours(mem, head, pool, j);
      assert fp in Nodes(head, pool.blocks);
      mem := mem[fp + TYPE := USED];
      FreeLinksKept(m, mem, head, pool, fp, fp);
      ghost var m1 := mem;
      RemoveFromFreeChain(fp, At(head, pool.fl, j), At(head, pool.fl, j + 2));
      RepWhole(m, m1, mem, head, pool, i, j, need);
      pool := Carve(pool, i, j, need);
    }

    /** Insert nfp between fp and na on the all-block chain. */
    method InsertMain(fp: int, nfp: int, na: int)
      modifies this`mem
      ensures mem == InsertedMain(old(mem), fp, nfp, na)
    {
      mem := mem[nfp + PREV := fp];
      mem := mem[nfp + NEXT := na];
      mem := mem[na + PREV := nfp];
      mem := mem[fp + NEXT := nfp];
    }

    /** Put nfp where fp is on the free chain. */
    method ReplaceFree(fp: int, nfp: int)
      modifies this`mem
      ensures mem == ReplacedFree(old(mem), fp, nfp)
    {
      var fpn := Rd(mem, fp + NEXT_FREE);
      mem := mem[nfp + NEXT_FREE := fpn];
      var fpp := Rd(mem, fp + PREV_FREE);
      mem := mem[nfp + PREV_FREE := fpp];
      mem := mem[fpn + PREV_FREE := nfp];
      mem := mem[fpp + NEXT_FREE := nfp];
    }

    method RelabelSplit(fp: int, size: int, fsize: int)
      modifies this`mem
      ensures mem == LabelsWritten(old(mem), fp, size, fsize)
    {
      var nfp := fp + size;
      mem := mem[nfp + TYPE := FREE];
      mem := mem[nfp + SIZE := fsize - size];
      mem := mem[fp + TYPE := USED];
      mem := mem[fp + SIZE := size];
    }

    method SplitBlock(fp: int, size: int, fsize: int, ghost i: nat, ghost j: nat)
      requires Valid() && Found(fp, size, i, j) && fsize == pool.blocks[i].size >= size + 2 * HEADER
      modifies this
      ensures mem == SplitMem(old(mem), fp, size, fsize)
      ensures if size >= 2 * HEADER then pool == Carve(old(pool), i, j, size) && Valid() else pool == old(pool)
    {
      ghost var m := mem;
      WriteSplit(fp, size, fsize);
      if size >= 2 * HEADER {
        SplitMemDone(m, mem, head, pool, i, j, size);
        CarveKeeps(head, pool, i, j, size);
        pool := Carve(pool, i, j, size);
      }
    }

    method WriteSplit(fp: int, size: int, fsize: int)
      modifies this`mem
      ensures mem == SplitMem(old(mem), fp, size, fsize)
    {
      var nfp := fp + size;
      var na := Rd(mem, fp + NEXT);
      RelabelSplit(fp, size, fsize);
      InsertMain(fp, nfp, na);
      ReplaceFree(fp, nfp);
    }

    /** The node that should precede a new arena: found searching backwards from the top.
        m is memory before the arena's own header was written. */
    method FindPlace(ghost m: Mem, p: int) returns (pah: int)
      requires Inv(head, pool) && Rep(m, head, pool, -1) && SameAround(m, mem, head, pool)
      ensures pah == At(head, Addrs(pool.blocks), Place(pool.blocks, p))
    {
      hide Inv, Shaped, Place;
      ghost var b, a := pool.blocks, Addrs(pool.blocks);
      ghost var k := |b|;
      assert LinkAt(m, head, a, NEXT, |b|) && At(head, a, |b| + 1) == head;
      assert b[..|b|] == b;
      pah := Rd(mem, head + PREV);
      while Rd(mem, pah + TYPE) != HEAD
        invariant 0 <= k <= |b| && pah == At(head, a, k)
        invariant Place(b, p) == Place(b[..k], p)
        decreases k
      {
        assert k > 0 && At(head, a, k) == pah;
        PlaceStep(b, p, k);
        if pah < p {
          break;
        }
        assert LinkAt(m, head, a, NEXT, k - 1);
        pah := Rd(mem, pah + PREV);
        k := k - 1;
      }
    }

    /** malloc_add: a fresh arena joins the pool and merges with its neighbours. */
    method MallocAdd(p: int, size: int)
      requires Valid() && Fresh(head, pool, p, size)
      modifies this
      ensures Valid() && pool == Step(old(pool), Add(p, size))
    {
      ghost var i := Place(pool.blocks, p);
      InsertKeeps(head, pool, p, size);
      InsertArena(p, size);
      var _ := FreeBlock(p, i);
    }

    method InsertArena(p: int, size: int)
      requires Valid() && Fresh(head, pool, p, size)
      modifies this
      ensures pool == Insert(old(pool), p, RoundSeed(size)) && Rep(mem, head, pool, Place(old(pool.blocks), p))
    {
      ghost var m := mem;
      LabelArena(p, size);
      ghost var m1 := mem;
      PlaceKept(m, m1, head, pool, p, size);
      var pah := FindPlace(m, p);
      InsertAfter(pah, p);
      InsertDone(m, m1, mem, head, pool, p, size, pah);
      pool := Insert(pool, p, RoundSeed(size));
    }

    method LabelArena(p: int, size: int)
      modifies this`mem
      ensures OnlyLabelled(old(mem), mem, {p}) && Rd(mem, p + SIZE) == RoundSeed(size)
    {
      mem := mem[p + TYPE := FREE];
      mem := mem[p + SIZE := RoundSeed(size)];
    }

    method InsertAfter(pah: int, fp: int)
      modifies this`mem
      ensures MainWritten(old(mem), mem, pah, fp, Rd(old(mem), pah + NEXT))
    {
      mem := mem[fp + NEXT := Rd(mem, pah + NEXT)];
      mem := mem[fp + PREV := pah];
      mem := mem[pah + NEXT := fp];
      mem := mem[Rd(mem, fp + NEXT) + PREV := fp];
    }

    /** malloc: first fit along the free chain, for any size_t request. The pool is in order
        afterwards unless the size overflowed and a block was split for what is left of it; then
        memory is as those writes leave it. */
    method MallocRequest(n: int) returns (r: int)
      requires Valid() && 0 <= n < WORD
      modifies this
      ensures r == Answer(old(pool), n)
      ensures !Torn(old(pool), n) ==> Valid() && pool == Step(old(pool), Malloc(n))
      ensures Torn(old(pool), n) ==>
        pool == old(pool) && mem ==
          SplitMem(old(mem), r - HEADER, Need(n), old(pool).blocks[Choose(old(pool), n).i].size)
    {
      if n == 0 {
        return 0;
      }
      NeedBounds(n);
      var size := Need(n);
      var fp;
      ghost var j;
      fp, j := FirstFit(size);
      MallocChooses(head, pool, n);
      if Rd(mem, fp + TYPE) == HEAD {
        return 0;
      }
      NodeIsFree(head, pool, j);
      r := MallocFromBlock(fp, size, IndexOf(pool.blocks, fp), j);
    }

    /** The first block on the free chain that is big enough, or the head node. */
    method FirstFit(size: int) returns (fp: int, ghost j: nat)
      requires Valid()
      ensures j == Fit(pool.blocks, pool.fl, size) <= |pool.fl| && fp == At(head, pool.fl, j + 1)
      ensures Rd(mem, fp + TYPE) == HEAD <==> j == |pool.fl|
    {
      ghost var b, fl := pool.blocks, pool.fl;
      j := 0;
      FreeNode(mem, head, pool, 0);
      assert fl[0..] == fl;
      fp := Rd(mem, head + NEXT_FREE);
      while Rd(mem, fp + TYPE) != HEAD
        invariant 0 <= j <= |fl| && fp == At(head, fl, j + 1) && (Rd(mem, fp + TYPE) == HEAD <==> j == |fl|)
        invariant Fit(b, fl, size) == j + Fit(b, fl[j..], size)
        decreases |fl| - j
      {
        FreeNode(mem, head, pool, j);
        if Rd(mem, fp + SIZE) >= size {
          return;
        }
        assert fl[j..][1..] == fl[j + 1..];
        FreeNode(mem, head, pool, j + 1);
        fp := Rd(mem, fp + NEXT_FREE);
        j := j + 1;
      }
    }

    /** free: a live block, or nothing for NULL. */
    method FreePointer(ptr: int)
      requires Valid() && Legal(head, pool, Free(ptr))
      modifies this
      ensures Valid() && pool == Step(old(pool), Free(ptr))
    {
      if ptr == 0 {
        return;
      }
      ghost var k := FreeIsRelease(head, pool, ptr);
      var _ := FreeBlock(ptr - HEADER, k);
    }

    /** What an owner does with an allocation: write any word of its payload. The words a free
        header would keep there are overwritten too, and nothing the allocator reads is. */
    method Store(ptr: int, offset: int, v: int)
      requires Valid() && Live(pool, ptr)
      requires 0 <= offset && offset + 4 <= SizeAt(pool.blocks, ptr - HEADER) - HEADER
      modifies this`mem
      ensures Valid() && mem == old(mem)[ptr + offset := v]
    {
      PayloadWrite(mem, head, pool, ptr, offset, v);
      mem := mem[ptr + offset := v];
    }

    /** availmem: the sum over the free chain, as a 32-bit int. */
    method AvailMem() returns (result: int)
      requires Valid()
      ensures result == ToInt32(FreeBytes(pool.blocks))
    {
      ChainSums(head, pool);
      SumFromStart(pool.blocks, pool.fl);
      result := WalkFree();
    }

    method WalkFree() returns (result: int)
      requires Valid()
      ensures result == ToInt32(SumFrom(pool.blocks, pool.fl, 0))
    {
      ghost var j, sum := 0, SumFrom(pool.blocks, pool.fl, 0);
      FreeNode(mem, head, pool, 0);
      result := 0;
      var h := Rd(mem, head + NEXT_FREE);
      while h != 0 && Rd(mem, h + TYPE) == FREE
        invariant AtNode(h, j) && SumLeft(result, j, sum)
        decreases |pool.fl| - j
      {
        AtNext(h, j);
        SumNext(result, j, sum);
        result := ToInt32(result + Rd(mem, h + SIZE));
        h := Rd(mem, h + NEXT_FREE);
        j := j + 1;
      }
    }

    /** With what is left of the chain added, the result will be the sum. */
    ghost predicate SumLeft(result: int, j: nat, sum: int)
      reads this
    {
      ToInt32(result) == result && ToInt32(result + SumFrom(pool.blocks, pool.fl, j)) == ToInt32(sum)
    }

    lemma SumNext(result: int, j: nat, sum: int)
      requires SumLeft(result, j, sum) && j < |pool.fl|
      ensures SumLeft(ToInt32(result + SizeAt(pool.blocks, pool.fl[j])), j + 1, sum)
    {
      Int32Adds(result + SizeAt(pool.blocks, pool.fl[j]), SumFrom(pool.blocks, pool.fl, j + 1));
    }

    /** The walk along the free chain has come to node j, or back to the head. */
    ghost predicate AtNode(h: int, j: nat)
      reads this
    {
      && j <= |pool.fl| && h == At(head, pool.fl, j + 1)
      && (h != 0 && Rd(mem, h + TYPE) == FREE <==> j < |pool.fl|)
    }

    lemma AtNext(h: int, j: nat)
      requires Valid() && AtNode(h, j) && j < |pool.fl|
      ensures Rd(mem, h + SIZE) == SizeAt(pool.blocks, pool.fl[j]) && AtNode(Rd(mem, h + NEXT_FREE), j + 1)
    {
      FreeNode(mem, head, pool, j);
      FreeNode(mem, head, pool, j + 1);
    }
  }

  lemma Int32Adds(x: int, y: int)
    ensures ToInt32(ToInt32(x) + y) == ToInt32(x + y)
  {
  }
}
