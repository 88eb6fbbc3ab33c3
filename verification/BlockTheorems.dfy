/** What the arena allocator guarantees over every run of seeds, allocations and releases. */
module BlockTheorems {
  import opened Words
  import opened BlockSpec
  import opened BlockProofs

  // ---------- One step ----------

  /** Every node of the free chain names a free block, whose size is what first fit looks at. */
  lemma NodeIsFree(head: int, p: Pool, j: nat)
    requires Shaped(head, p) && j < |p.fl|
    ensures var i := IndexOf(p.blocks, p.fl[j]);
      && i < |p.blocks| && p.blocks[i].free && p.blocks[i].addr == p.fl[j]
      && SizeAt(p.blocks, p.fl[j]) == p.blocks[i].size
  {
    assert p.fl[j] in Elems(p.fl);
    var k :| 0 <= k < |p.blocks| && p.blocks[k].free && p.blocks[k].addr == p.fl[j];
    IndexOfFinds(p.blocks, k);
  }

  lemma FreeIsNode(head: int, p: Pool, i: nat) returns (j: nat)
    requires Shaped(head, p) && i < |p.blocks| && p.blocks[i].free
    ensures j < |p.fl| && p.fl[j] == p.blocks[i].addr && IndexOf(p.blocks, p.fl[j]) == i
  {
    assert p.blocks[i].addr in FreeAddrs(p.blocks);
    assert p.blocks[i].addr in Elems(p.fl);
    j :| 0 <= j < |p.fl| && p.fl[j] == p.blocks[i].addr;
    IndexOfFinds(p.blocks, i);
  }

  /** The request grows by 16 bytes of header and is rounded up to a multiple of 16, unless size_t overflows. */
  lemma NeedBounds(n: int)
    requires 0 < n < WORD
    ensures n <= MAX_REQUEST ==> n + 16 <= Need(n) < n + 32 && Need(n) >= 32
    ensures n > MAX_REQUEST ==> 0 <= Need(n) <= 16
    ensures Need(n) % 16 == 0
  {
    if n > MAX_REQUEST {
      assert Wrap(n + 2 * HEADER - 1) == n + 2 * HEADER - 1 - WORD;
    }
  }

  /** malloc fails exactly when asked for nothing or when no free block is big enough;
      otherwise it chooses the first such block of the free chain. */
  lemma MallocChooses(head: int, p: Pool, n: int)
    requires Shaped(head, p)
    ensures Choose(p, n).NoFit? <==>
      n == 0 || forall i :: 0 <= i < |p.blocks| && p.blocks[i].free ==> p.blocks[i].size < Need(n)
    ensures Choose(p, n).NoFit? <==> Answer(p, n) == 0
    ensures match Choose(p, n)
      case NoFit => true
      case Chosen(j, i) =>
        && p.fl[j] == p.blocks[i].addr && p.blocks[i].free && p.blocks[i].size >= Need(n)
        && forall k :: 0 <= k < j ==> SizeAt(p.blocks, p.fl[k]) < Need(n)
  {
    FitIsFirst(p.blocks, p.fl, Need(n));
    var j := Fit(p.blocks, p.fl, Need(n));
    if j < |p.fl| {
      NodeIsFree(head, p, j);
    } else {
      forall i | 0 <= i < |p.blocks| && p.blocks[i].free ensures p.blocks[i].size < Need(n) {
        var l := FreeIsNode(head, p, i);
      }
    }
  }

  lemma LiveIsUsed(head: int, p: Pool, ptr: int)
    requires Shaped(head, p) && Live(p, ptr)
    ensures var i := IndexOf(p.blocks, ptr - HEADER);
      i < |p.blocks| && !p.blocks[i].free && p.blocks[i].addr == ptr - HEADER && ptr != 0
  {
    var i :| 0 <= i < |p.blocks| && p.blocks[i].addr + HEADER == ptr && !p.blocks[i].free;
    IndexOfFinds(p.blocks, i);
  }

  /** What freeing a live block comes to. */
  lemma FreeIsRelease(head: int, p: Pool, ptr: int) returns (k: nat)
    requires Inv(head, p) && Live(p, ptr)
    ensures k < |p.blocks| && !p.blocks[k].free && p.blocks[k].addr == ptr - HEADER
    ensures CoalescedBut(p.blocks, k) && Step(p, Free(ptr)) == Release(p, k)
  {
    LiveIsUsed(head, p, ptr);
    k := IndexOf(p.blocks, ptr - HEADER);
  }

  lemma StepKeeps(head: int, p: Pool, op: Op)
    requires Inv(head, p) && Legal(head, p, op)
    ensures Inv(head, Step(p, op))
  {
    match op
    case Add(a, size) =>
      InsertKeeps(head, p, a, size);
      ReleaseKeeps(head, Insert(p, a, RoundSeed(size)), Place(p.blocks, a));
    case Malloc(n) =>
      MallocChooses(head, p, n);
      match Choose(p, n) {
        case NoFit =>
        case Chosen(j, i) =>
          NeedBounds(n);
          CarveKeeps(head, p, i, j, Need(n));
      }
    case Free(ptr) =>
      if ptr != 0 {
        LiveIsUsed(head, p, ptr);
        ReleaseKeeps(head, p, IndexOf(p.blocks, ptr - HEADER));
      }
  }

  // ---------- Conservation: no byte is lost or invented ----------

  function Total(b: seq<Block>): int {
    if b == [] then 0 else b[0].size + Total(b[1..])
  }

  lemma {:induction false} TotalConcat(b: seq<Block>, c: seq<Block>)
    ensures Total(b + c) == Total(b) + Total(c)
  {
    if b == [] {
      assert b + c == c;
    } else {
      TotalConcat(b[1..], c);
      assert (b + c)[1..] == b[1..] + c;
    }
  }

  /** Swapping a middle stretch changes the total by the difference. */
  lemma TotalSwap(l: seq<Block>, m: seq<Block>, m': seq<Block>, r: seq<Block>)
    ensures Total(l + m' + r) - Total(l + m + r) == Total(m') - Total(m)
  {
    TotalConcat(l + m, r);
    TotalConcat(l, m);
    TotalConcat(l + m', r);
    TotalConcat(l, m');
  }

  lemma TotalToggle(b: seq<Block>, i: nat, f: bool)
    requires i < |b|
    ensures Total(b[i := Block(b[i].addr, b[i].size, f)]) == Total(b)
  {
    var x := Block(b[i].addr, b[i].size, f);
    TotalSwap(b[..i], [b[i]], [x], b[i + 1..]);
    assert b == b[..i] + [b[i]] + b[i + 1..];
    assert b[i := x] == b[..i] + [x] + b[i + 1..];
  }

  lemma TotalOne(x: Block)
    ensures Total([x]) == x.size
  {
    assert [x][1..] == [];
  }

  lemma TotalPair(x: Block, y: Block)
    ensures Total([x, y]) == x.size + y.size
  {
    assert [x, y][1..] == [y];
    TotalOne(y);
  }

  lemma AroundPair(b: seq<Block>, k: nat)
    requires k + 1 < |b|
    ensures b == b[..k] + [b[k], b[k + 1]] + b[k + 2..]
  {
  }

  lemma TotalJoin(b: seq<Block>, k: nat)
    requires k + 1 < |b|
    ensures Total(Join(b, k)) == Total(b)
  {
    var x := Block(b[k].addr, b[k].size + b[k + 1].size, true);
    TotalPair(b[k], b[k + 1]);
    TotalOne(x);
    AroundPair(b, k);
    TotalSwap(b[..k], [b[k], b[k + 1]], [x], b[k + 2..]);
  }

  lemma TotalCarve(p: Pool, i: nat, j: nat, need: int)
    requires i < |p.blocks| && j < |p.fl|
    ensures Total(Carve(p, i, j, need).blocks) == Total(p.blocks)
  {
    var b, x := p.blocks, p.blocks[i];
    if x.size >= need + 2 * HEADER {
      var two := [Block(x.addr, need, false), Block(x.addr + need, x.size - need, true)];
      assert two[1..] == [two[1]] && Total([two[1]]) == x.size - need && Total(two) == Total([x]);
      TotalSwap(b[..i], [x], two, b[i + 1..]);
      assert b == b[..i] + [x] + b[i + 1..];
    } else {
      TotalToggle(b, i, false);
    }
  }

  lemma TotalRelease(p: Pool, k: nat)
    requires k < |p.blocks|
    ensures Total(Release(p, k).blocks) == Total(p.blocks)
  {
    var b := p.blocks;
    var (q, i) := ReleaseBack(p, k);
    if Touch(b, k - 1) && b[k - 1].free {
      TotalJoin(b, k - 1);
    } else {
      TotalToggle(b, k, true);
    }
    if Touch(q.blocks, i) && q.blocks[i + 1].free {
      TotalJoin(q.blocks, i);
    }
  }

  /** The bytes an arena brings: all of it but what is left over from chunks of 512. */
  function Seed(op: Op): int {
    if op.Add? then op.size - op.size % 512 else 0
  }

  lemma RoundedDown(size: int)
    ensures RoundSeed(size) == size - size % 512
  {
  }

  lemma StepConserves(p: Pool, op: Op)
    ensures Total(Step(p, op).blocks) == Total(p.blocks) + Seed(op)
  {
    match op
    case Add(a, size) =>
      RoundedDown(size);
      var q, i, x := Insert(p, a, RoundSeed(size)), Place(p.blocks, a), Block(a, RoundSeed(size), false);
      TotalRelease(q, i);
      TotalSwap(p.blocks[..i], [], [x], p.blocks[i..]);
      assert p.blocks == p.blocks[..i] + [] + p.blocks[i..];
    case Malloc(n) =>
      match Choose(p, n) {
        case NoFit =>
        case Chosen(j, i) => TotalCarve(p, i, j, Need(n));
      }
    case Free(ptr) =>
      var i := IndexOf(p.blocks, ptr - HEADER);
      if ptr != 0 && i < |p.blocks| {
        TotalRelease(p, i);
      }
  }

  // ---------- Coverage: the blocks are exactly the seeded bytes ----------

  predicate Holds(x: Block, a: int) {
    x.addr <= a < x.addr + x.size
  }

  ghost predicate Covered(b: seq<Block>, a: int) {
    exists i :: 0 <= i < |b| && Holds(b[i], a)
  }

  lemma CoveredSwap(l: seq<Block>, m: seq<Block>, m': seq<Block>, r: seq<Block>, a: int)
    requires Covered(m, a) ==> Covered(m', a)
    ensures Covered(l + m + r, a) ==> Covered(l + m' + r, a)
  {
    if Covered(l + m + r, a) {
      var b, c := l + m + r, l + m' + r;
      var i :| 0 <= i < |b| && Holds(b[i], a);
      if i < |l| {
        assert Holds(c[i], a);
      } else if i < |l| + |m| {
        assert Holds(m[i - |l|], a);
        var k :| 0 <= k < |m'| && Holds(m'[k], a);
        assert Holds(c[|l| + k], a);
      } else {
        assert Holds(c[i - |m| + |m'|], a);
      }
    }
  }

  lemma CoveredJoin(b: seq<Block>, k: nat, a: int)
    requires Touch(b, k) && b[k].size > 0 && b[k + 1].size > 0
    ensures Covered(Join(b, k), a) == Covered(b, a)
  {
    var x := Block(b[k].addr, b[k].size + b[k + 1].size, true);
    var one, two := [x], [b[k], b[k + 1]];
    assert Holds(one[0], a) <==> Holds(two[0], a) || Holds(two[1], a);
    CoveredSwap(b[..k], two, one, b[k + 2..], a);
    CoveredSwap(b[..k], one, two, b[k + 2..], a);
    assert b == b[..k] + two + b[k + 2..];
  }

  lemma CoveredToggle(b: seq<Block>, i: nat, f: bool, a: int)
    requires i < |b|
    ensures Covered(b[i := Block(b[i].addr, b[i].size, f)], a) == Covered(b, a)
  {
    var one, two := [b[i]], [Block(b[i].addr, b[i].size, f)];
    assert Holds(one[0], a) <==> Holds(two[0], a);
    CoveredSwap(b[..i], two, one, b[i + 1..], a);
    CoveredSwap(b[..i], one, two, b[i + 1..], a);
    assert b == b[..i] + one + b[i + 1..];
    assert b[i := two[0]] == b[..i] + two + b[i + 1..];
  }

  lemma CoveredCarve(p: Pool, i: nat, j: nat, need: int, a: int)
    requires i < |p.blocks| && j < |p.fl| && need >= 0
    ensures Covered(Carve(p, i, j, need).blocks, a) == Covered(p.blocks, a)
  {
    var b, x := p.blocks, p.blocks[i];
    if x.size >= need + 2 * HEADER {
      var one, two := [x], [Block(x.addr, need, false), Block(x.addr + need, x.size - need, true)];
      assert Holds(one[0], a) <==> Holds(two[0], a) || Holds(two[1], a);
      CoveredSwap(b[..i], two, one, b[i + 1..], a);
      CoveredSwap(b[..i], one, two, b[i + 1..], a);
      assert b == b[..i] + one + b[i + 1..];
    } else {
      CoveredToggle(b, i, false, a);
    }
  }

  lemma CoveredRelease(head: int, p: Pool, k: nat, a: int)
    requires Shaped(head, p) && CoalescedBut(p.blocks, k) && k < |p.blocks| && !p.blocks[k].free
    ensures Covered(Release(p, k).blocks, a) == Covered(p.blocks, a)
  {
    var b := p.blocks;
    var (q, i) := ReleaseBack(p, k);
    ReleaseBackKeeps(head, p, k);
    assert forall l :: 0 <= l < |b| ==> Sound(head, b[l]);
    assert forall l :: 0 <= l < |q.blocks| ==> Sound(head, q.blocks[l]);
    if Touch(b, k - 1) && b[k - 1].free {
      CoveredJoin(b, k - 1, a);
    } else {
      CoveredToggle(b, k, true, a);
    }
    if Touch(q.blocks, i) && q.blocks[i + 1].free {
      CoveredJoin(q.blocks, i, a);
    }
  }

  predicate Seeds(op: Op, a: int) {
    op.Add? && op.addr <= a < op.addr + op.size - op.size % 512
  }

  lemma StepCovers(head: int, p: Pool, op: Op, a: int)
    requires Inv(head, p) && Legal(head, p, op)
    ensures Covered(Step(p, op).blocks, a) <==> Covered(p.blocks, a) || Seeds(op, a)
  {
    match op
    case Add(addr, size) =>
      RoundedDown(size);
      var q, i, x := Insert(p, addr, RoundSeed(size)), Place(p.blocks, addr), Block(addr, RoundSeed(size), false);
      InsertKeeps(head, p, addr, size);
      CoveredRelease(head, q, i, a);
      var b := p.blocks;
      assert b == b[..i] + [] + b[i..];
      if Seeds(op, a) {
        assert Holds(q.blocks[i], a);
      } else {
        assert !Holds([x][0], a);
        CoveredSwap(b[..i], [x], [], b[i..], a);
      }
      CoveredSwap(b[..i], [], [x], b[i..], a);
    case Malloc(n) =>
      MallocChooses(head, p, n);
      match Choose(p, n) {
        case NoFit =>
        case Chosen(j, i) =>
          NeedBounds(n);
          CoveredCarve(p, i, j, Need(n), a);
      }
    case Free(ptr) =>
      if ptr != 0 {
        LiveIsUsed(head, p, ptr);
        CoveredRelease(head, p, IndexOf(p.blocks, ptr - HEADER), a);
      }
  }

  /** So an arena of size bytes brings a whole number of chunks, and less than one is left over at its end. */
  lemma AddGrows(head: int, p: Pool, addr: int, size: int)
    requires Inv(head, p) && Legal(head, p, Add(addr, size))
    ensures var grown := Total(Step(p, Add(addr, size)).blocks) - Total(p.blocks);
      grown % 512 == 0 && size - 512 < grown <= size
    ensures forall a ::
      Covered(Step(p, Add(addr, size)).blocks, a) <==> Covered(p.blocks, a) || addr <= a < addr + size - size % 512
  {
    StepConserves(p, Add(addr, size));
    forall a ensures
      Covered(Step(p, Add(addr, size)).blocks, a) <==> Covered(p.blocks, a) || addr <= a < addr + size - size % 512
    {
      StepCovers(head, p, Add(addr, size), a);
    }
  }

  /** The first arena becomes one free block: 64K at 64K all of it, and of 1000 bytes at 64K there are 512. */
  lemma FirstArena()
    ensures Step(EMPTY, Add(0x10000, 0x10000)) == Pool([Block(0x10000, 0x10000, true)], [0x10000])
    ensures Step(EMPTY, Add(0x10000, 1000)) == Pool([Block(0x10000, 512, true)], [0x10000])
  {
    RoundedDown(0x10000);
    RoundedDown(1000);
  }

  // ---------- Every run ----------

  const EMPTY := Pool([], [])

  function Run(p: Pool, ops: seq<Op>): Pool
    decreases |ops|
  {
    if ops == [] then p else Run(Step(p, ops[0]), ops[1..])
  }

  ghost predicate LegalRun(head: int, p: Pool, ops: seq<Op>)
    decreases |ops|
  {
    ops == [] || (Legal(head, p, ops[0]) && LegalRun(head, Step(p, ops[0]), ops[1..]))
  }

  function SeedTotal(ops: seq<Op>): int {
    if ops == [] then 0 else Seed(ops[0]) + SeedTotal(ops[1..])
  }

  ghost predicate Seeded(ops: seq<Op>, a: int) {
    exists k :: 0 <= k < |ops| && Seeds(ops[k], a)
  }

  lemma {:induction false} RunKeeps(head: int, p: Pool, ops: seq<Op>)
    requires Inv(head, p) && LegalRun(head, p, ops)
    ensures Inv(head, Run(p, ops))
    ensures Total(Run(p, ops).blocks) == Total(p.blocks) + SeedTotal(ops)
    ensures forall a :: Covered(Run(p, ops).blocks, a) <==> Covered(p.blocks, a) || Seeded(ops, a)
    decreases |ops|
  {
    if ops != [] {
      var q := Step(p, ops[0]);
      StepKeeps(head, p, ops[0]);
      StepConserves(p, ops[0]);
      RunKeeps(head, q, ops[1..]);
      forall a ensures Covered(Run(p, ops).blocks, a) <==> Covered(p.blocks, a) || Seeded(ops, a) {
        StepCovers(head, p, ops[0], a);
        SeededSplits(ops, a);
      }
    }
  }

  lemma SeededSplits(ops: seq<Op>, a: int)
    requires ops != []
    ensures Seeded(ops, a) <==> Seeds(ops[0], a) || Seeded(ops[1..], a)
  {
    if k :| 0 <= k < |ops| && Seeds(ops[k], a) {
      assert k > 0 ==> Seeds(ops[1..][k - 1], a);
    }
    if k :| 0 <= k < |ops[1..]| && Seeds(ops[1..][k], a) {
      assert Seeds(ops[k + 1], a);
    }
  }

  /** Once nothing is in use, each block is a whole maximal stretch of seeded memory. */
  lemma DrainedIsWhole(head: int, ops: seq<Op>, i: nat)
    requires LegalRun(head, EMPTY, ops)
    requires i < |Run(EMPTY, ops).blocks|
    requires forall k :: 0 <= k < |Run(EMPTY, ops).blocks| ==> Run(EMPTY, ops).blocks[k].free
    ensures var x := Run(EMPTY, ops).blocks[i];
      && (forall a :: Holds(x, a) ==> Seeded(ops, a))
      && !Seeded(ops, x.addr - 1) && !Seeded(ops, x.addr + x.size)
  {
    var b := Run(EMPTY, ops).blocks;
    RunKeeps(head, EMPTY, ops);
    NothingBeside(head, b, i);
    forall a | Holds(b[i], a) ensures Seeded(ops, a) {
      assert Covered(b, a);
    }
  }

  /** When all blocks are free and none could be merged, there is nothing on either side of one. */
  lemma NothingBeside(head: int, b: seq<Block>, i: nat)
    requires WellPlaced(head, b) && Coalesced(b) && i < |b| && forall k :: 0 <= k < |b| ==> b[k].free
    ensures !Covered(b, b[i].addr - 1) && !Covered(b, b[i].addr + b[i].size)
  {
    if Covered(b, b[i].addr - 1) {
      var k :| 0 <= k < |b| && Holds(b[k], b[i].addr - 1);
      Adjacent(head, b, k, i);
    }
    if Covered(b, b[i].addr + b[i].size) {
      var k :| 0 <= k < |b| && Holds(b[k], b[i].addr + b[i].size);
      BlockOrder(head, b, k, i);
      BlockOrder(head, b, i, k);
      assert Sound(head, b[i]);
      Adjacent(head, b, i, k);
    }
  }

  lemma BlockOrder(head: int, b: seq<Block>, k: nat, i: nat)
    requires WellPlaced(head, b) && k < |b| && i < |b|
    ensures k < i ==> b[k].addr + b[k].size <= b[i].addr
  {
    AscendingAll(b);
  }

  /** If block k starts before i and reaches it, they are neighbours that touch. */
  lemma Adjacent(head: int, b: seq<Block>, k: nat, i: nat)
    requires WellPlaced(head, b) && k < |b| && i < |b|
    requires b[k].addr < b[i].addr <= b[k].addr + b[k].size
    ensures i == k + 1 && Touch(b, k)
  {
    AscendingAll(b);
    assert Sound(head, b[i]);
    assert k < i && Sound(head, b[k + 1]);
    assert b[k].addr + b[k].size <= b[k + 1].addr;
    BlockOrder(head, b, k + 1, i);
  }

  // ---------- What malloc hands out and free takes back ----------

  ghost function LiveBlocks(b: seq<Block>): set<Block> {
    set i | 0 <= i < |b| && !b[i].free :: b[i]
  }

  lemma SplitLive(b: seq<Block>, c: seq<Block>, i: nat, u: Block, v: Block)
    requires IsSplit(b, c, i, u, v) && b[i].free && !u.free && v.free
    ensures LiveBlocks(c) == LiveBlocks(b) + {u}
  {
    forall x | x in LiveBlocks(b) ensures x in LiveBlocks(c) {
      var k :| 0 <= k < |b| && !b[k].free && b[k] == x;
      assert c[if k < i then k else k + 1] == x;
    }
    assert c[i] == u;
  }

  lemma JoinLive(b: seq<Block>, c: seq<Block>, k: nat)
    requires IsJoin(b, c, k)
    ensures LiveBlocks(c) == LiveBlocks(b[k := b[k].(free := true)][k + 1 := b[k + 1].(free := true)])
  {
    var d := b[k := b[k].(free := true)][k + 1 := b[k + 1].(free := true)];
    forall x | x in LiveBlocks(d) ensures x in LiveBlocks(c) {
      var i :| 0 <= i < |d| && !d[i].free && d[i] == x;
      assert c[if i < k then i else i - 1] == x;
    }
    forall x | x in LiveBlocks(c) ensures x in LiveBlocks(d) {
      var i :| 0 <= i < |c| && !c[i].free && c[i] == x;
      assert d[if i < k then i else i + 1] == x;
    }
  }

  /** A successful request adds one live block, cut from the chosen free one: at least as
      big as needed, at most a header's slack bigger, and every other allocation untouched. */
  lemma MallocGrants(head: int, p: Pool, n: int)
    requires Inv(head, p) && Choose(p, n).Chosen? && 0 < n <= MAX_REQUEST
    ensures var x := p.blocks[Choose(p, n).i];
      exists g: Block ::
        && LiveBlocks(Step(p, Malloc(n)).blocks) == LiveBlocks(p.blocks) + {g} && g !in LiveBlocks(p.blocks)
        && g.addr + 16 == Answer(p, n) && g.addr == x.addr
        && n + 16 <= g.size <= x.size && g.size < n + 64
        && (g.size < x.size ==> x.size - g.size >= 32 && g.size < n + 32)
  {
    MallocChooses(head, p, n);
    NeedBounds(n);
    var c := Choose(p, n);
    var b, x, need := p.blocks, p.blocks[c.i], Need(n);
    var q := Step(p, Malloc(n));
    if x.size >= need + 2 * HEADER {
      var g, v := Block(x.addr, need, false), Block(x.addr + need, x.size - need, true);
      assert IsSplit(b, q.blocks, c.i, g, v);
      SplitLive(b, q.blocks, c.i, g, v);
      LiveElsewhere(head, b, c.i, g);
    } else {
      var g := Block(x.addr, x.size, false);
      ToggleLive(b, c.i);
      LiveElsewhere(head, b, c.i, g);
    }
  }

  lemma ToggleLive(b: seq<Block>, i: nat)
    requires i < |b| && b[i].free
    ensures LiveBlocks(b[i := b[i].(free := false)]) == LiveBlocks(b) + {b[i].(free := false)}
  {
    var c := b[i := b[i].(free := false)];
    assert c[i] == b[i].(free := false);
    forall x | x in LiveBlocks(b) ensures x in LiveBlocks(c) {
      var k :| 0 <= k < |b| && !b[k].free && b[k] == x;
      assert c[k] == x;
    }
  }

  lemma LiveElsewhere(head: int, b: seq<Block>, i: nat, g: Block)
    requires WellPlaced(head, b) && i < |b| && b[i].free && g.addr == b[i].addr && !g.free
    ensures g !in LiveBlocks(b)
  {
    forall k | 0 <= k < |b| && !b[k].free ensures b[k] != g {
      OneBlockAt(head, b, i, k);
    }
  }

  lemma OneBlockAt(head: int, b: seq<Block>, i: nat, k: nat)
    requires WellPlaced(head, b) && i < |b| && k < |b|
    ensures b[i].addr == b[k].addr ==> i == k
  {
    AscendingAll(b);
    assert Sound(head, b[i]) && Sound(head, b[k]);
  }

  /** Allocations overflow size_t, and come back too small, exactly above MAX_REQUEST. */
  lemma MallocServesIff(head: int, p: Pool, n: int)
    requires Inv(head, p) && 0 < n < WORD && Choose(p, n).Chosen?
    ensures var c := Choose(p, n);
      Step(p, Malloc(n)).blocks[c.i].size >= n + 16 <==> n <= 0xFFFF_FFE0
  {
    MallocChooses(head, p, n);
    NeedBounds(n);
  }

  /** Block i is to be split, for a size that has no room for a free header. */
  predicate Tears(p: Pool, i: nat, size: int)
    requires i < |p.blocks|
  {
    size < 2 * HEADER && p.blocks[i].size >= size + 2 * HEADER
  }

  /** A request of n bytes does that. */
  predicate Torn(p: Pool, n: int) {
    var c := Choose(p, n);
    c.Chosen? && Tears(p, c.i, Need(n))
  }

  /** Only requests above MAX_REQUEST do: those that wrap to 0, whenever there is a free block, and
      those that wrap to one header, when the first free block has room for two more. */
  lemma TornExactly(head: int, p: Pool, n: int)
    requires Inv(head, p) && 0 <= n < WORD
    ensures Torn(p, n) <==>
      n > MAX_REQUEST && p.fl != [] && (Need(n) == 0 || SizeAt(p.blocks, p.fl[0]) >= 48)
  {
    if n > 0 {
      NeedBounds(n);
      MallocChooses(head, p, n);
      if p.fl != [] {
        NodeIsFree(head, p, 0);
        assert Sound(head, p.blocks[IndexOf(p.blocks, p.fl[0])]);
      }
    }
  }

  /** Such requests exist: 2^32 - 31 bytes, with a single free block. */
  lemma TornOnce(head: int)
    requires head >= 0x2000
    ensures var p := Pool([Block(0x1000, 512, true)], [0x1000]);
      Inv(head, p) && Need(WORD - 31) == 0 && Torn(p, WORD - 31)
  {
    var p := Pool([Block(0x1000, 512, true)], [0x1000]);
    assert p.blocks[0].addr in FreeAddrs(p.blocks);
    TornExactly(head, p, WORD - 31);
  }

  /** A block that is too small to be split may as well have been asked for in full. */
  lemma WholeNeed(head: int, p: Pool, i: nat, j: nat, size: int) returns (need: int)
    requires Inv(head, p) && i < |p.blocks| && j < |p.fl| && 0 <= size <= p.blocks[i].size < size + 2 * HEADER
    requires p.fl[j] == p.blocks[i].addr && p.blocks[i].free
    ensures CanCarve(p, i, j, need) && p.blocks[i].size < need + 2 * HEADER
    ensures Carve(p, i, j, need) == Carve(p, i, j, size)
  {
    assert Sound(head, p.blocks[i]);
    need := if size < 2 * HEADER then 2 * HEADER else size;
  }

  /** free takes back exactly one live block, its own. */
  lemma FreeReclaims(head: int, p: Pool, ptr: int)
    requires Inv(head, p) && Live(p, ptr)
    ensures var k := IndexOf(p.blocks, ptr - HEADER);
      k < |p.blocks| && LiveBlocks(Step(p, Free(ptr)).blocks) == LiveBlocks(p.blocks) - {p.blocks[k]}
  {
    LiveIsUsed(head, p, ptr);
    var k := IndexOf(p.blocks, ptr - HEADER);
    ReleaseLive(head, p, k);
  }

  lemma ReleaseLive(head: int, p: Pool, k: nat)
    requires Shaped(head, p) && CoalescedBut(p.blocks, k) && k < |p.blocks| && !p.blocks[k].free
    ensures LiveBlocks(Release(p, k).blocks) == LiveBlocks(p.blocks) - {p.blocks[k]}
  {
    ReleaseBackLive(head, p, k);
    ReleaseBackKeeps(head, p, k);
    var (q, i) := ReleaseBack(p, k);
    var c := q.blocks;
    if Touch(c, i) && c[i + 1].free {
      JoinIsJoin(c, i);
      JoinLive(c, Join(c, i), i);
      assert c == c[i := c[i].(free := true)][i + 1 := c[i + 1].(free := true)];
    }
  }

  lemma ReleaseBackLive(head: int, p: Pool, k: nat)
    requires WellPlaced(head, p.blocks) && k < |p.blocks| && !p.blocks[k].free
    ensures LiveBlocks(ReleaseBack(p, k).0.blocks) == LiveBlocks(p.blocks) - {p.blocks[k]}
  {
    var b := p.blocks;
    UntoggleLive(head, b, k);
    if Touch(b, k - 1) && b[k - 1].free {
      JoinIsJoin(b, k - 1);
      JoinLive(b, Join(b, k - 1), k - 1);
      assert b[k := b[k].(free := true)] == b[k - 1 := b[k - 1].(free := true)][k := b[k].(free := true)];
    }
  }

  lemma UntoggleLive(head: int, b: seq<Block>, k: nat)
    requires WellPlaced(head, b) && k < |b| && !b[k].free
    ensures LiveBlocks(b[k := b[k].(free := true)]) == LiveBlocks(b) - {b[k]}
  {
    AscendingAll(b);
    var c := b[k := b[k].(free := true)];
    forall x | x in LiveBlocks(b) && x != b[k] ensures x in LiveBlocks(c) {
      var i :| 0 <= i < |b| && !b[i].free && b[i] == x;
      assert c[i] == x;
    }
    forall i | 0 <= i < |b| && i != k ensures b[i] != b[k] {
      assert Sound(head, b[i]) && Sound(head, b[k]);
    }
  }

  /** free finds the block that malloc has just cut. */
  lemma FreeFinds(head: int, p: Pool, n: int, i: nat, j: nat)
    requires Inv(head, p) && Choose(p, n) == Chosen(j, i) && 0 < n <= MAX_REQUEST
    ensures CanCarve(p, i, j, Need(n))
    ensures Step(Step(p, Malloc(n)), Free(Answer(p, n))) == Release(Carve(p, i, j, Need(n)), i)
  {
    MallocChooses(head, p, n);
    NeedBounds(n);
    CarveKeeps(head, p, i, j, Need(n));
    var q := Carve(p, i, j, Need(n));
    CarveStarts(p, i, j, Need(n));
    FreeAt(head, q, i);
    assert Step(p, Malloc(n)) == q;
  }

  lemma CarveStarts(p: Pool, i: nat, j: nat, need: int)
    requires CanCarve(p, i, j, need)
    ensures i < |Carve(p, i, j, need).blocks| && Carve(p, i, j, need).blocks[i].addr == p.blocks[i].addr
  {
  }

  lemma FreeAt(head: int, q: Pool, i: nat)
    requires Inv(head, q) && i < |q.blocks|
    ensures Step(q, Free(q.blocks[i].addr + HEADER)) == Release(q, i)
  {
    assert forall k :: 0 <= k < |q.blocks| ==> Sound(head, q.blocks[k]);
    IndexOfFinds(q.blocks, i);
  }

  /** Freeing a fresh allocation puts every block back as it was; on the free chain the
      block has moved to the front. */
  lemma FreeUndoesMalloc(head: int, p: Pool, n: int)
    requires Inv(head, p) && Choose(p, n).Chosen? && 0 < n <= MAX_REQUEST
    ensures var a := Answer(p, n) - HEADER;
      Step(Step(p, Malloc(n)), Free(Answer(p, n))) == Pool(p.blocks, [a] + Without(p.fl, a))
  {
    var i, j := Choose(p, n).i, Choose(p, n).j;
    FreeFinds(head, p, n, i, j);
    if p.blocks[i].size >= Need(n) + 2 * HEADER {
      ReleaseSplit(head, p, i, j, Need(n));
    } else {
      ReleaseWhole(head, p, i, j, Need(n));
    }
    WithoutAt(p.fl, j);
  }

  lemma ReleaseWhole(head: int, p: Pool, i: nat, j: nat, need: int)
    requires Inv(head, p) && CanCarve(p, i, j, need) && p.blocks[i].size < need + 2 * HEADER
    ensures Release(Carve(p, i, j, need), i) == Pool(p.blocks, [p.blocks[i].addr] + (p.fl[..j] + p.fl[j + 1..]))
  {
    var b, q := p.blocks, Carve(p, i, j, need);
    assert Touch(q.blocks, i - 1) == Touch(b, i - 1);
    assert !(Touch(b, i - 1) && b[i - 1].free);
    assert ReleaseBack(q, i).0.blocks == b;
    assert !(Touch(b, i) && b[i + 1].free);
  }

  lemma ReleaseSplit(head: int, p: Pool, i: nat, j: nat, need: int)
    requires Inv(head, p) && CanCarve(p, i, j, need) && p.blocks[i].size >= need + 2 * HEADER
    ensures Release(Carve(p, i, j, need), i) == Pool(p.blocks, [p.blocks[i].addr] + (p.fl[..j] + p.fl[j + 1..]))
  {
    var b, v := p.blocks, Block(p.blocks[i].addr + need, p.blocks[i].size - need, true);
    var u := Block(b[i].addr, need, true);
    assert !(Touch(b, i - 1) && b[i - 1].free);
    SplitReleased(p, i, j, need, u, v);
    SplitTail(head, p, i, j, need);
    SplitRejoined(b, i, u, v);
  }

  lemma SplitReleased(p: Pool, i: nat, j: nat, need: int, u: Block, v: Block)
    requires i < |p.blocks| && j < |p.fl| && p.blocks[i].size >= need + 2 * HEADER
    requires u == Block(p.blocks[i].addr, need, true)
    requires v == Block(p.blocks[i].addr + need, p.blocks[i].size - need, true)
    requires !(Touch(p.blocks, i - 1) && p.blocks[i - 1].free)
    ensures ReleaseBack(Carve(p, i, j, need), i) ==
      (Pool(p.blocks[..i] + [u, v] + p.blocks[i + 1..], [u.addr] + p.fl[j := v.addr]), i)
  {
    var q := Carve(p, i, j, need).blocks;
    assert i > 0 ==> q[i - 1] == p.blocks[i - 1] && q[i].addr == p.blocks[i].addr;
    assert q[i := u] == p.blocks[..i] + [u, v] + p.blocks[i + 1..];
  }

  lemma SplitRejoined(b: seq<Block>, i: nat, u: Block, v: Block)
    requires i < |b| && b[i].free && u.addr == b[i].addr && v.addr == u.addr + u.size && u.size + v.size == b[i].size
    ensures var c := b[..i] + [u, v] + b[i + 1..];
      Touch(c, i) && c[i + 1] == v && Join(c, i) == b
  {
    var c := b[..i] + [u, v] + b[i + 1..];
    assert c[..i] == b[..i] && c[i + 2..] == b[i + 1..] && c[i] == u && c[i + 1] == v;
    assert b == b[..i] + [b[i]] + b[i + 1..];
  }

  lemma SplitTail(head: int, p: Pool, i: nat, j: nat, need: int)
    requires Inv(head, p) && CanCarve(p, i, j, need) && p.blocks[i].size >= need + 2 * HEADER
    ensures var a, v := p.blocks[i].addr, p.blocks[i].addr + need;
      Without([a] + p.fl[j := v], v) == [a] + (p.fl[..j] + p.fl[j + 1..])
  {
    var a, v := p.blocks[i].addr, p.blocks[i].addr + need;
    NotInside(p.blocks, i, v);
    assert v !in Elems(p.fl);
    ReplaceInSet(p.fl, j, v);
    WithoutAt(p.fl[j := v], j);
    assert ([a] + p.fl[j := v])[1..] == p.fl[j := v];
    assert p.fl[j := v][..j] == p.fl[..j] && p.fl[j := v][j + 1..] == p.fl[j + 1..];
  }

  // ---------- availmem ----------

  function SumAt(b: seq<Block>, fl: seq<int>): int {
    if fl == [] then 0 else SizeAt(b, fl[0]) + SumAt(b, fl[1..])
  }

  /** The same, from node j on. */
  function SumFrom(b: seq<Block>, fl: seq<int>, j: nat): int
    decreases |fl| - j
  {
    if j >= |fl| then 0 else SizeAt(b, fl[j]) + SumFrom(b, fl, j + 1)
  }

  lemma {:induction false} SumFromIs(b: seq<Block>, fl: seq<int>, j: nat)
    requires j <= |fl|
    ensures SumFrom(b, fl, j) == SumAt(b, fl[j..])
    decreases |fl| - j
  {
    if j < |fl| {
      SumFromIs(b, fl, j + 1);
      assert fl[j..][1..] == fl[j + 1..];
    }
  }

  lemma SumFromStart(b: seq<Block>, fl: seq<int>)
    ensures SumFrom(b, fl, 0) == SumAt(b, fl)
  {
    SumFromIs(b, fl, 0);
    assert fl[0..] == fl;
  }

  function FreeBytes(b: seq<Block>): int {
    if b == [] then 0 else (if b[|b| - 1].free then b[|b| - 1].size else 0) + FreeBytes(b[..|b| - 1])
  }

  lemma {:induction false} SumDrop(b: seq<Block>, fl: seq<int>, j: nat)
    requires j < |fl|
    ensures SumAt(b, fl) == SizeAt(b, fl[j]) + SumAt(b, fl[..j] + fl[j + 1..])
  {
    if j == 0 {
      assert fl[..0] + fl[1..] == fl[1..];
    } else {
      SumDrop(b, fl[1..], j - 1);
      assert (fl[..j] + fl[j + 1..])[1..] == fl[1..][..j - 1] + fl[1..][j..];
    }
  }

  lemma {:induction false} SumPrefix(b: seq<Block>, fl: seq<int>)
    requires b != [] && forall j :: 0 <= j < |fl| ==> IndexOf(b[..|b| - 1], fl[j]) < |b| - 1
    ensures SumAt(b, fl) == SumAt(b[..|b| - 1], fl)
  {
    if fl != [] {
      IndexPrefix(b, fl[0]);
      SumPrefix(b, fl[1..]);
    }
  }

  lemma {:induction false} IndexPrefix(b: seq<Block>, a: int)
    requires b != [] && IndexOf(b[..|b| - 1], a) < |b| - 1
    ensures IndexOf(b, a) == IndexOf(b[..|b| - 1], a)
  {
    if b[0].addr != a {
      assert b[..|b| - 1][1..] == b[1..][..|b| - 2];
      IndexPrefix(b[1..], a);
    }
  }

  lemma NoElems(s: seq<int>)
    ensures Elems(s) == {} ==> s == []
  {
    if s != [] {
      assert s[0] in Elems(s);
    }
  }

  /** Adding up the free chain gives the bytes of all free blocks. */
  lemma {:induction false} ChainSums(head: int, p: Pool)
    requires Shaped(head, p)
    ensures SumAt(p.blocks, p.fl) == FreeBytes(p.blocks)
    decreases |p.blocks|
  {
    AscendingAll(p.blocks);
    var b, fl := p.blocks, p.fl;
    if b == [] {
      NoElems(fl);
    } else {
      var n := |b| - 1;
      var c := b[..n];
      assert FreeAddrs(b) == FreeAddrs(c) + (if b[n].free then {b[n].addr} else {});
      var rest := fl;
      if b[n].free {
        var j := FreeIsNode(head, p, n);
        SumDrop(b, fl, j);
        DropFromSet(fl, j);
        NodeIsFree(head, p, j);
        rest := fl[..j] + fl[j + 1..];
        assert b[n].addr !in FreeAddrs(c) by { assert forall k :: 0 <= k < |b| ==> Sound(head, b[k]); }
      }
      var q := Pool(c, rest);
      assert Shaped(head, q);
      forall l | 0 <= l < |rest| ensures IndexOf(c, rest[l]) < n {
        NodeIsFree(head, q, l);
      }
      SumPrefix(b, rest);
      ChainSums(head, q);
    }
  }

  lemma {:induction false} AllFreeBytes(b: seq<Block>)
    requires forall k :: 0 <= k < |b| ==> b[k].free
    ensures FreeBytes(b) == Total(b)
  {
    if b != [] {
      AllFreeBytes(b[..|b| - 1]);
      TotalConcat(b[..|b| - 1], [b[|b| - 1]]);
      assert b == b[..|b| - 1] + [b[|b| - 1]];
    }
  }

  /** With nothing in use, the free chain adds up to all that was ever seeded. */
  lemma DrainedSums(head: int, ops: seq<Op>)
    requires LegalRun(head, EMPTY, ops)
    requires forall k :: 0 <= k < |Run(EMPTY, ops).blocks| ==> Run(EMPTY, ops).blocks[k].free
    ensures var p := Run(EMPTY, ops); SumAt(p.blocks, p.fl) == SeedTotal(ops)
  {
    RunKeeps(head, EMPTY, ops);
    ChainSums(head, Run(EMPTY, ops));
    AllFreeBytes(Run(EMPTY, ops).blocks);
  }
}
