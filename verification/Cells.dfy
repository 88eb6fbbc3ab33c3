/** Header cells: the six words of a free header, and why writing one leaves the others alone. */
module Cells {
  import opened Memory
  import opened Chains

  // Offsets within struct free_arena_header
  const TYPE := 0
  const SIZE := 4
  const NEXT := 8
  const PREV := 12
  const NEXT_FREE := 16
  const PREV_FREE := 20

  predicate Offset(o: int) {
    o == TYPE || o == SIZE || o == NEXT || o == PREV || o == NEXT_FREE || o == PREV_FREE
  }

  /** No two header addresses are closer than a free header. */
  ghost predicate Separated(nodes: set<int>) {
    forall x, y :: x in nodes && y in nodes && x != y ==> x + 24 <= y || y + 24 <= x
  }

  /** Word o of every header is as it was. */
  ghost predicate Same(m: Mem, m': Mem, nodes: set<int>, o: int) {
    forall x :: x in nodes ==> Rd(m', x + o) == Rd(m, x + o)
  }

  ghost predicate Within(head: int, c: seq<int>, nodes: set<int>) {
    head in nodes && (forall i :: 0 <= i < |c| ==> c[i] in nodes && c[i] != head)
    && forall i, j :: 0 <= i < j < |c| ==> c[i] != c[j]
  }

  lemma WithinAt(head: int, c: seq<int>, nodes: set<int>, i: int)
    requires Within(head, c, nodes)
    ensures At(head, c, i) in nodes
  {
  }

  lemma AtApart(head: int, c: seq<int>, nodes: set<int>, i: int, j: int)
    requires Within(head, c, nodes) && 0 <= i < j <= |c| + 1 && (i, j) != (0, |c| + 1)
    ensures At(head, c, i) != At(head, c, j)
  {
  }

  lemma ChainFrame(m: Mem, m': Mem, head: int, c: seq<int>, off: int, nodes: set<int>)
    requires Within(head, c, nodes) && Linked(m, head, c, off)
    requires Same(m, m', nodes, off) && Same(m, m', nodes, off + 4)
    ensures Linked(m', head, c, off)
  {
    forall i ensures At(head, c, i) in nodes { WithinAt(head, c, nodes, i); }
    LinkedFrame(m, m', head, c, off);
  }

  /** Only the cells in `cells` may differ. */
  ghost predicate OnlyWrote(m: Mem, m': Mem, cells: set<int>) {
    forall a {:trigger Rd(m', a)} :: a !in cells ==> Rd(m', a) == Rd(m, a)
  }

  /** The four cells that link x in between headers p and n. */
  ghost predicate LinkedIn(m: Mem, m': Mem, off: int, p: int, x: int, n: int) {
    && OnlyWrote(m, m', {x + off, x + off + 4, p + off, n + off + 4})
    && Rd(m', x + off) == n && Rd(m', x + off + 4) == p
    && Rd(m', p + off) == x && Rd(m', n + off + 4) == x
  }

  lemma LinkedInSame(m: Mem, m': Mem, off: int, p: int, x: int, n: int, nodes: set<int>)
    requires Separated(nodes) && p in nodes && x in nodes && n in nodes
    requires LinkedIn(m, m', off, p, x, n) && (off == NEXT || off == NEXT_FREE)
    ensures forall q :: Offset(q) && q != off && q != off + 4 ==> Same(m, m', nodes, q)
    ensures forall y :: y in nodes && y != x && y != p ==> Rd(m', y + off) == Rd(m, y + off)
    ensures forall y :: y in nodes && y != x && y != n ==> Rd(m', y + off + 4) == Rd(m, y + off + 4)
  {
  }

  /** The two cells that make headers p and n neighbours. */
  ghost predicate LinkedOut(m: Mem, m': Mem, off: int, p: int, n: int) {
    OnlyWrote(m, m', {p + off, n + off + 4}) && Rd(m', p + off) == n && Rd(m', n + off + 4) == p
  }

  lemma LinkedOutSame(m: Mem, m': Mem, off: int, p: int, n: int, nodes: set<int>)
    requires Separated(nodes) && p in nodes && n in nodes
    requires LinkedOut(m, m', off, p, n) && (off == NEXT || off == NEXT_FREE)
    ensures forall q :: Offset(q) && q != off && q != off + 4 ==> Same(m, m', nodes, q)
    ensures forall y :: y in nodes && y != p ==> Rd(m', y + off) == Rd(m, y + off)
    ensures forall y :: y in nodes && y != n ==> Rd(m', y + off + 4) == Rd(m, y + off + 4)
  {
  }

  lemma Neighbours(m: Mem, head: int, c: seq<int>, off: int, k: nat)
    requires k < |c| && Linked(m, head, c, off)
    ensures Rd(m, c[k] + off + 4) == At(head, c, k) && Rd(m, c[k] + off) == At(head, c, k + 2)
  {
    assert LinkAt(m, head, c, off, k) && LinkAt(m, head, c, off, k + 1);
  }

  /** A header leaves a chain. */
  lemma Unlink(m: Mem, m': Mem, head: int, c: seq<int>, off: int, k: nat, nodes: set<int>)
    requires Separated(nodes) && Within(head, c, nodes) && k < |c|
    requires Linked(m, head, c, off) && (off == NEXT || off == NEXT_FREE)
    requires LinkedOut(m, m', off, At(head, c, k), At(head, c, k + 2))
    ensures Linked(m', head, c[..k] + c[k + 1..], off)
    ensures forall q :: Offset(q) && q != off && q != off + 4 ==> Same(m, m', nodes, q)
  {
    WithinAt(head, c, nodes, k);
    WithinAt(head, c, nodes, k + 2);
    LinkedOutSame(m, m', off, At(head, c, k), At(head, c, k + 2), nodes);
    forall j | 0 <= j <= |c| && !(k <= j <= k + 1) ensures Rd(m', At(head, c, j) + off) == Rd(m, At(head, c, j) + off) {
      WithinAt(head, c, nodes, j);
      if j < k { AtApart(head, c, nodes, j, k); } else { AtApart(head, c, nodes, k, j); }
    }
    forall j | 1 <= j <= |c| + 1 && !(k < j <= k + 2)
      ensures Rd(m', At(head, c, j) + off + 4) == Rd(m, At(head, c, j) + off + 4)
    {
      WithinAt(head, c, nodes, j);
      if j < k + 2 { AtApart(head, c, nodes, j, k + 2); } else { AtApart(head, c, nodes, k + 2, j); }
    }
    LinkedRemove(m, m', head, c, off, k);
  }

  /** A header joins a chain after node k. */
  lemma Link(m: Mem, m': Mem, head: int, c: seq<int>, off: int, k: nat, x: int, nodes: set<int>)
    requires Separated(nodes) && Within(head, c, nodes) && k <= |c|
    requires x in nodes && x != head && x !in c
    requires Linked(m, head, c, off) && (off == NEXT || off == NEXT_FREE)
    requires LinkedIn(m, m', off, At(head, c, k), x, At(head, c, k + 1))
    ensures Linked(m', head, c[..k] + [x] + c[k..], off)
    ensures forall q :: Offset(q) && q != off && q != off + 4 ==> Same(m, m', nodes, q)
  {
    WithinAt(head, c, nodes, k);
    WithinAt(head, c, nodes, k + 1);
    LinkedInSame(m, m', off, At(head, c, k), x, At(head, c, k + 1), nodes);
    forall j | 0 <= j <= |c| && j != k ensures Rd(m', At(head, c, j) + off) == Rd(m, At(head, c, j) + off) {
      WithinAt(head, c, nodes, j);
      if j < k { AtApart(head, c, nodes, j, k); } else { AtApart(head, c, nodes, k, j); }
    }
    forall j | 1 <= j <= |c| + 1 && j != k + 1
      ensures Rd(m', At(head, c, j) + off + 4) == Rd(m, At(head, c, j) + off + 4)
    {
      WithinAt(head, c, nodes, j);
      if j < k + 1 { AtApart(head, c, nodes, j, k + 1); } else { AtApart(head, c, nodes, k + 1, j); }
    }
    LinkedInsert(m, m', head, c, off, k, x);
  }

  /** A header takes the place of node k + 1. */
  lemma Relink(m: Mem, m': Mem, head: int, c: seq<int>, off: int, k: nat, x: int, nodes: set<int>)
    requires Separated(nodes) && Within(head, c, nodes) && k < |c|
    requires x in nodes && x != head && x !in c
    requires Linked(m, head, c, off) && (off == NEXT || off == NEXT_FREE)
    requires LinkedIn(m, m', off, At(head, c, k), x, At(head, c, k + 2))
    ensures Linked(m', head, c[k := x], off)
    ensures forall q :: Offset(q) && q != off && q != off + 4 ==> Same(m, m', nodes, q)
  {
    WithinAt(head, c, nodes, k);
    WithinAt(head, c, nodes, k + 2);
    LinkedInSame(m, m', off, At(head, c, k), x, At(head, c, k + 2), nodes);
    forall j | 0 <= j <= |c| && !(k <= j <= k + 1) ensures Rd(m', At(head, c, j) + off) == Rd(m, At(head, c, j) + off) {
      WithinAt(head, c, nodes, j);
      if j < k { AtApart(head, c, nodes, j, k); } else { AtApart(head, c, nodes, k, j); }
    }
    forall j | 1 <= j <= |c| + 1 && !(k < j <= k + 2)
      ensures Rd(m', At(head, c, j) + off + 4) == Rd(m, At(head, c, j) + off + 4)
    {
      WithinAt(head, c, nodes, j);
      if j < k + 2 { AtApart(head, c, nodes, j, k + 2); } else { AtApart(head, c, nodes, k + 2, j); }
    }
    LinkedReplace(m, m', head, c, off, k, x);
  }
}
