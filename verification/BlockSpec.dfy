/** What the arena allocator (Lib/malloc.c) does to its blocks, without pointers:
    the blocks in address order and the free blocks in the order of the free chain. */
module BlockSpec {
  import opened Words  // size_t is 32 bits

  datatype Block = Block(addr: int, size: int, free: bool)

  datatype Pool = Pool(blocks: seq<Block>, fl: seq<int>)

  const HEADER := 16           // sizeof(struct arena_header)
  const FREE_HEADER := 24      // sizeof(struct free_arena_header)
  const CHUNK := 512           // MALLOC_CHUNK_MASK + 1
  const RAM_TOP := 0xFFFF_FFE0 // hardware registers start here (include/hw/ps2.h:6)

  // ---------- The operations ----------

  /** Header added and rounded up, in size_t arithmetic. */
  function Need(n: int): int {
    Wrap(n + 2 * HEADER - 1) / HEADER * HEADER
  }

  /** Index of the block at address a, |b| if there is none. */
  function IndexOf(b: seq<Block>, a: int): nat {
    if b == [] || b[0].addr == a then 0 else 1 + IndexOf(b[1..], a)
  }

  function SizeAt(b: seq<Block>, a: int): int {
    var i := IndexOf(b, a);
    if i < |b| then b[i].size else 0
  }

  /** Position on the free chain of the first block that is big enough, |fl| if there is none. */
  function Fit(b: seq<Block>, fl: seq<int>, need: int): nat {
    if fl == [] || SizeAt(b, fl[0]) >= need then 0 else 1 + Fit(b, fl[1..], need)
  }

  /** Allocate out of free block i, which is node j of the free chain. */
  function Carve(p: Pool, i: nat, j: nat, need: int): Pool
    requires i < |p.blocks| && j < |p.fl|
  {
    var x := p.blocks[i];
    if x.size >= need + 2 * HEADER then
      Pool(p.blocks[..i] + [Block(x.addr, need, false), Block(x.addr + need, x.size - need, true)] + p.blocks[i + 1..],
           p.fl[j := x.addr + need])
    else
      Pool(p.blocks[i := Block(x.addr, x.size, false)], p.fl[..j] + p.fl[j + 1..])
  }

  function Without(s: seq<int>, a: int): seq<int> {
    if s == [] then [] else if s[0] == a then s[1..] else [s[0]] + Without(s[1..], a)
  }

  /** Blocks k and k + 1 are one unbroken stretch of memory. */
  predicate Touch(b: seq<Block>, k: int) {
    0 <= k < |b| - 1 && b[k].addr + b[k].size == b[k + 1].addr
  }

  /** Blocks k and k + 1 become the single block k. */
  function Join(b: seq<Block>, k: nat): seq<Block>
    requires k + 1 < |b|
  {
    b[..k] + [Block(b[k].addr, b[k].size + b[k + 1].size, true)] + b[k + 2..]
  }

  /** First half of a release: into the previous block, or onto the free chain.
      Also the index at which the memory of block k now is. */
  function ReleaseBack(p: Pool, k: nat): (Pool, nat)
    requires k < |p.blocks|
  {
    var b := p.blocks;
    if Touch(b, k - 1) && b[k - 1].free then
      (Pool(Join(b, k - 1), p.fl), k - 1)
    else
      (Pool(b[k := Block(b[k].addr, b[k].size, true)], [b[k].addr] + p.fl), k)
  }

  /** Second half: absorb the next block if it is free and touches. */
  function ReleaseOn(p: Pool, k: nat): Pool
    requires k < |p.blocks|
  {
    var b := p.blocks;
    if Touch(b, k) && b[k + 1].free then Pool(Join(b, k), Without(p.fl, b[k + 1].addr)) else p
  }

  function Release(p: Pool, k: nat): Pool
    requires k < |p.blocks|
  {
    var (q, i) := ReleaseBack(p, k);
    ReleaseOn(q, i)
  }

  /** How many blocks lie below a; their place in address order. */
  function Place(b: seq<Block>, a: int): (i: nat)
    ensures i <= |b|
  {
    if b == [] || b[|b| - 1].addr < a then |b| else Place(b[..|b| - 1], a)
  }

  lemma PlaceStep(b: seq<Block>, a: int, k: nat)
    requires 0 < k <= |b|
    ensures Place(b[..k], a) == if b[k - 1].addr < a then k else Place(b[..k - 1], a)
  {
    assert b[..k][..k - 1] == b[..k - 1];
  }

  function RoundSeed(size: int): int {
    size / CHUNK * CHUNK
  }

  /** The new block in its place, on no chain but the main one yet. */
  function Insert(p: Pool, a: int, size: int): Pool {
    var i := Place(p.blocks, a);
    p.(blocks := p.blocks[..i] + [Block(a, size, false)] + p.blocks[i..])
  }

  datatype Op = Add(addr: int, size: int) | Malloc(n: int) | Free(ptr: int)

  /** Position on the free chain and index of the block that serves a request of n bytes. */
  datatype Choice = NoFit | Chosen(j: nat, i: nat)

  function Choose(p: Pool, n: int): (c: Choice)
    ensures c.Chosen? ==> c.j < |p.fl| && c.i < |p.blocks| && n != 0
    ensures c.Chosen? ==> p.blocks[c.i].addr == p.fl[c.j] && p.blocks[c.i].size >= Need(n)
  {
    var j := Fit(p.blocks, p.fl, Need(n));
    FitIsFirst(p.blocks, p.fl, Need(n));
    if n == 0 || j >= |p.fl| then NoFit
    else
      var i := IndexOf(p.blocks, p.fl[j]);
      IndexOfAt(p.blocks, p.fl[j]);
      if i < |p.blocks| then Chosen(j, i) else NoFit
  }

  /** The pointer malloc returns. */
  function Answer(p: Pool, n: int): int {
    match Choose(p, n)
    case NoFit => 0
    case Chosen(_, i) => p.blocks[i].addr + HEADER
  }

  function Step(p: Pool, op: Op): Pool {
    match op
    case Add(a, size) => Release(Insert(p, a, RoundSeed(size)), Place(p.blocks, a))
    case Malloc(n) =>
      (match Choose(p, n)
       case NoFit => p
       case Chosen(j, i) => Carve(p, i, j, Need(n)))
    case Free(ptr) =>
      var i := IndexOf(p.blocks, ptr - HEADER);
      if ptr == 0 || i >= |p.blocks| then p else Release(p, i)
  }

  // ---------- What every run keeps ----------

  /** Says which two items are compared. */
  predicate Pair(i: int, j: int) {
    true
  }

  ghost predicate Ascending(b: seq<Block>) {
    forall i, j {:trigger Pair(i, j)} :: Pair(i, j) && 0 <= i < j < |b| ==> b[i].addr + b[i].size <= b[j].addr
  }

  lemma AscendingAll(b: seq<Block>)
    requires Ascending(b)
    ensures forall i, j :: 0 <= i < j < |b| ==> b[i].addr + b[i].size <= b[j].addr
  {
    forall i, j | 0 <= i < j < |b| ensures b[i].addr + b[i].size <= b[j].addr {
      assert Pair(i, j);
    }
  }

  /** Big enough for a free header, inside RAM, clear of the head node. */
  ghost predicate Sound(head: int, x: Block) {
    && x.size >= 2 * HEADER && 0 < x.addr && x.addr + x.size <= RAM_TOP
    && (x.addr + x.size <= head || head + FREE_HEADER <= x.addr)
  }

  ghost predicate Distinct(s: seq<int>) {
    forall i, j :: 0 <= i < j < |s| ==> s[i] != s[j]
  }

  ghost function FreeAddrs(b: seq<Block>): set<int> {
    set i | 0 <= i < |b| && b[i].free :: b[i].addr
  }

  ghost function Elems(s: seq<int>): set<int> {
    set a | a in s
  }

  /** The free chain holds exactly the free blocks, each once. */
  ghost predicate Exact(p: Pool) {
    Distinct(p.fl) && Elems(p.fl) == FreeAddrs(p.blocks)
  }

  ghost predicate Coalesced(b: seq<Block>) {
    forall i :: 0 <= i < |b| - 1 && b[i].free && b[i + 1].free ==> !Touch(b, i)
  }

  /** Everything but coalescing. */
  ghost predicate Shaped(head: int, p: Pool) {
    && Ascending(p.blocks)
    && (forall i :: 0 <= i < |p.blocks| ==> Sound(head, p.blocks[i]))
    && Exact(p)
  }

  ghost predicate Inv(head: int, p: Pool) {
    Shaped(head, p) && Coalesced(p.blocks)
  }

  /** An arena that malloc_add may be handed: RAM clear of the head node and of every block. */
  ghost predicate Fresh(head: int, p: Pool, a: int, size: int) {
    && CHUNK <= size && 0 < a && a + size <= RAM_TOP
    && (a + size <= head || head + FREE_HEADER <= a)
    && forall i :: 0 <= i < |p.blocks| ==>
         a + size <= p.blocks[i].addr || p.blocks[i].addr + p.blocks[i].size <= a
  }

  ghost predicate Live(p: Pool, ptr: int) {
    exists i :: 0 <= i < |p.blocks| && p.blocks[i].addr + HEADER == ptr && !p.blocks[i].free
  }

  const MAX_REQUEST := WORD - 2 * HEADER

  /** What callers owe: fresh arenas, live or null pointers, and requests that do not
      overflow size_t when the header is added. */
  ghost predicate Legal(head: int, p: Pool, op: Op) {
    match op
    case Add(a, size) => Fresh(head, p, a, size)
    case Malloc(n) => 0 <= n <= MAX_REQUEST
    case Free(ptr) => ptr == 0 || Live(p, ptr)
  }

  // ---------- Lookup ----------

  lemma {:induction false} IndexOfAt(b: seq<Block>, a: int)
    ensures var i := IndexOf(b, a); i <= |b| && (i < |b| ==> b[i].addr == a)
  {
    if b != [] && b[0].addr != a {
      IndexOfAt(b[1..], a);
    }
  }

  lemma {:induction false} IndexOfFinds(b: seq<Block>, i: nat)
    requires Ascending(b) && i < |b| && forall k :: 0 <= k < |b| ==> b[k].size > 0
    ensures IndexOf(b, b[i].addr) == i
  {
    AscendingAll(b);
    if i > 0 {
      IndexOfFinds(b[1..], i - 1);
    }
  }

  lemma {:induction false} FitIsFirst(b: seq<Block>, fl: seq<int>, need: int)
    ensures var j := Fit(b, fl, need);
      && j <= |fl|
      && (j < |fl| ==> SizeAt(b, fl[j]) >= need)
      && forall k :: 0 <= k < j ==> SizeAt(b, fl[k]) < need
  {
    if fl != [] && SizeAt(b, fl[0]) < need {
      FitIsFirst(b, fl[1..], need);
    }
  }

  lemma {:induction false} PlaceIsSorted(b: seq<Block>, a: int)
    requires Ascending(b) && forall k :: 0 <= k < |b| ==> b[k].size > 0
    ensures var i := Place(b, a);
      && (forall k :: 0 <= k < i ==> b[k].addr < a)
      && (forall k :: i <= k < |b| ==> b[k].addr >= a)
  {
    AscendingAll(b);
    if b != [] && b[|b| - 1].addr >= a {
      PlaceIsSorted(b[..|b| - 1], a);
    }
  }

  lemma {:induction false} WithoutAt(s: seq<int>, i: nat)
    requires Distinct(s) && i < |s|
    ensures Without(s, s[i]) == s[..i] + s[i + 1..]
  {
    if i > 0 {
      WithoutAt(s[1..], i - 1);
      assert s[1..][..i - 1] == s[1..i] && s[..i] == [s[0]] + s[1..i];
    }
  }
}
