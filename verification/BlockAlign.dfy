/** Blocks and pointers of the arena allocator (Lib/malloc.c) are aligned, if the arenas are. */
module BlockAlign {
  import opened Words
  import opened BlockSpec
  import opened BlockProofs
  import opened BlockTheorems

  predicate AlignedBlock(x: Block) {
    x.addr % 16 == 0 && x.size % 16 == 0
  }

  ghost predicate Aligned(b: seq<Block>) {
    forall i :: 0 <= i < |b| ==> AlignedBlock(b[i])
  }

  /** Arenas start on a multiple of 16. */
  predicate AlignedOp(op: Op) {
    op.Add? ==> op.addr % 16 == 0
  }

  lemma JoinAligned(b: seq<Block>, k: nat)
    requires Aligned(b) && k + 1 < |b|
    ensures Aligned(Join(b, k))
  {
    assert AlignedBlock(b[k]) && AlignedBlock(b[k + 1]);
  }

  lemma ToggleAligned(b: seq<Block>, k: nat, f: bool)
    requires Aligned(b) && k < |b|
    ensures Aligned(b[k := Block(b[k].addr, b[k].size, f)])
  {
    assert AlignedBlock(b[k]);
  }

  lemma CarveAligned(p: Pool, i: nat, j: nat, need: int)
    requires Aligned(p.blocks) && i < |p.blocks| && j < |p.fl| && need % 16 == 0
    ensures Aligned(Carve(p, i, j, need).blocks)
  {
    assert AlignedBlock(p.blocks[i]);
  }

  lemma ReleaseAligned(p: Pool, k: nat)
    requires Aligned(p.blocks) && k < |p.blocks|
    ensures Aligned(Release(p, k).blocks)
  {
    var (q, i) := ReleaseBack(p, k);
    if Touch(p.blocks, k - 1) && p.blocks[k - 1].free {
      JoinAligned(p.blocks, k - 1);
    } else {
      ToggleAligned(p.blocks, k, true);
    }
    if Touch(q.blocks, i) && q.blocks[i + 1].free {
      JoinAligned(q.blocks, i);
    }
  }

  lemma InsertAligned(p: Pool, a: int, size: int)
    requires Aligned(p.blocks) && a % 16 == 0
    ensures Aligned(Insert(p, a, RoundSeed(size)).blocks)
    ensures Place(p.blocks, a) < |Insert(p, a, RoundSeed(size)).blocks|
  {
    hide RoundSeed, Place;
    SeedAligned(size);
    assert AlignedBlock(Block(a, RoundSeed(size), false));
  }

  lemma SeedAligned(size: int)
    ensures RoundSeed(size) % 16 == 0
  {
    assert RoundSeed(size) == 16 * (size / CHUNK * 32);
  }

  lemma StepAligned(head: int, p: Pool, op: Op)
    requires Inv(head, p) && Legal(head, p, op) && Aligned(p.blocks) && AlignedOp(op)
    ensures Aligned(Step(p, op).blocks)
  {
    hide Shaped, Coalesced, Fresh, Release, Carve, RoundSeed;
    match op
    case Add(a, size) =>
      InsertAligned(p, a, size);
      ReleaseAligned(Insert(p, a, RoundSeed(size)), Place(p.blocks, a));
    case Malloc(n) =>
      if Choose(p, n).Chosen? {
        NeedBounds(n);
        CarveAligned(p, Choose(p, n).i, Choose(p, n).j, Need(n));
      }
    case Free(ptr) =>
      if ptr != 0 {
        LiveIsUsed(head, p, ptr);
        ReleaseAligned(p, IndexOf(p.blocks, ptr - HEADER));
      }
  }

  lemma AnswerAligned(p: Pool, n: int)
    requires Aligned(p.blocks)
    ensures Answer(p, n) % 16 == 0
  {
    if Choose(p, n).Chosen? {
      assert AlignedBlock(p.blocks[Choose(p, n).i]);
    }
  }

  /** Over every run all blocks start on a multiple of 16 and are multiples of 16 long, and so is every
      pointer that malloc hands out. */
  lemma {:induction false} RunAligned(head: int, p: Pool, ops: seq<Op>, n: int)
    requires Inv(head, p) && LegalRun(head, p, ops) && Aligned(p.blocks)
    requires forall k :: 0 <= k < |ops| ==> AlignedOp(ops[k])
    ensures Aligned(Run(p, ops).blocks) && Answer(Run(p, ops), n) % 16 == 0
    decreases |ops|
  {
    hide Inv, Legal, Aligned, Step, AlignedOp;
    if ops == [] {
      AnswerAligned(p, n);
    } else {
      StepKeeps(head, p, ops[0]);
      StepAligned(head, p, ops[0]);
      RunAligned(head, Step(p, ops[0]), ops[1..], n);
    }
  }
}
