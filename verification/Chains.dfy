/** Circular doubly linked chains threaded through memory around a head node.
    A chain is named by the addresses of its nodes in order, head excluded; the
    "next" word of a node lies `off` bytes into it and the "prev" word at `off + 4`. */
module Chains {
  import opened Memory

  /** Node k of the circle: 0 and |c| + 1 are both the head. */
  function At(head: int, c: seq<int>, k: int): int {
    if 1 <= k <= |c| then c[k - 1] else head
  }

  /** Nodes k and k + 1 point at each other. */
  ghost predicate LinkAt(m: Mem, head: int, c: seq<int>, off: int, k: int) {
    && Rd(m, At(head, c, k) + off) == At(head, c, k + 1)
    && Rd(m, At(head, c, k + 1) + off + 4) == At(head, c, k)
  }

  ghost predicate Linked(m: Mem, head: int, c: seq<int>, off: int) {
    forall k :: 0 <= k <= |c| ==> LinkAt(m, head, c, off, k)
  }

  /** Next words of nodes outside lo..hi are as before, and so are the prev words of
      nodes outside lo + 1 .. hi + 1: every link outside lo..hi is untouched. */
  ghost predicate SameOutside(m: Mem, m': Mem, head: int, c: seq<int>, off: int, lo: int, hi: int) {
    && (forall j {:trigger At(head, c, j)} :: 0 <= j <= |c| && !(lo <= j <= hi) ==>
          Rd(m', At(head, c, j) + off) == Rd(m, At(head, c, j) + off))
    && (forall j {:trigger At(head, c, j)} :: 1 <= j <= |c| + 1 && !(lo < j <= hi + 1) ==>
          Rd(m', At(head, c, j) + off + 4) == Rd(m, At(head, c, j) + off + 4))
  }

  lemma LinkedFrame(m: Mem, m': Mem, head: int, c: seq<int>, off: int)
    requires Linked(m, head, c, off) && SameOutside(m, m', head, c, off, 0, -1)
    ensures Linked(m', head, c, off)
  {
    forall k | 0 <= k <= |c| ensures LinkAt(m', head, c, off, k) {
      assert LinkAt(m, head, c, off, k);
    }
  }

  /** Four writes put x between nodes k and k + 1. */
  lemma LinkedInsert(m: Mem, m': Mem, head: int, c: seq<int>, off: int, k: nat, x: int)
    requires k <= |c| && Linked(m, head, c, off) && SameOutside(m, m', head, c, off, k, k)
    requires Rd(m', x + off) == At(head, c, k + 1) && Rd(m', x + off + 4) == At(head, c, k)
    requires Rd(m', At(head, c, k) + off) == x && Rd(m', At(head, c, k + 1) + off + 4) == x
    ensures Linked(m', head, c[..k] + [x] + c[k..], off)
  {
    var d := c[..k] + [x] + c[k..];
    forall j | 0 <= j <= |d| ensures LinkAt(m', head, d, off, j) {
      if j < k {
        assert LinkAt(m, head, c, off, j);
        assert At(head, d, j) == At(head, c, j) && At(head, d, j + 1) == At(head, c, j + 1);
      } else if j > k + 1 {
        assert LinkAt(m, head, c, off, j - 1);
        assert At(head, d, j) == At(head, c, j - 1) && At(head, d, j + 1) == At(head, c, j);
      } else {
        assert At(head, d, k) == At(head, c, k) && At(head, d, k + 1) == x && At(head, d, k + 2) == At(head, c, k + 1);
      }
    }
  }

  /** Two writes take node k + 1 out. */
  lemma LinkedRemove(m: Mem, m': Mem, head: int, c: seq<int>, off: int, k: nat)
    requires k < |c| && Linked(m, head, c, off) && SameOutside(m, m', head, c, off, k, k + 1)
    requires Rd(m', At(head, c, k) + off) == At(head, c, k + 2)
    requires Rd(m', At(head, c, k + 2) + off + 4) == At(head, c, k)
    ensures Linked(m', head, c[..k] + c[k + 1..], off)
  {
    var d := c[..k] + c[k + 1..];
    forall j | 0 <= j <= |d| ensures LinkAt(m', head, d, off, j) {
      if j < k {
        assert LinkAt(m, head, c, off, j);
        assert At(head, d, j) == At(head, c, j) && At(head, d, j + 1) == At(head, c, j + 1);
      } else if j > k {
        assert LinkAt(m, head, c, off, j + 1);
        assert At(head, d, j) == At(head, c, j + 1) && At(head, d, j + 1) == At(head, c, j + 2);
      } else {
        assert At(head, d, k) == At(head, c, k) && At(head, d, k + 1) == At(head, c, k + 2);
      }
    }
  }

  /** Four writes put x in the place of node k + 1. */
  lemma LinkedReplace(m: Mem, m': Mem, head: int, c: seq<int>, off: int, k: nat, x: int)
    requires k < |c| && Linked(m, head, c, off) && SameOutside(m, m', head, c, off, k, k + 1)
    requires Rd(m', x + off) == At(head, c, k + 2) && Rd(m', x + off + 4) == At(head, c, k)
    requires Rd(m', At(head, c, k) + off) == x && Rd(m', At(head, c, k + 2) + off + 4) == x
    ensures Linked(m', head, c[k := x], off)
  {
    var d := c[k := x];
    forall j | 0 <= j <= |d| ensures LinkAt(m', head, d, off, j) {
      if j < k || j > k + 1 {
        assert LinkAt(m, head, c, off, j);
        assert At(head, d, j) == At(head, c, j) && At(head, d, j + 1) == At(head, c, j + 1);
      } else {
        assert At(head, d, k) == At(head, c, k) && At(head, d, k + 1) == x && At(head, d, k + 2) == At(head, c, k + 2);
      }
    }
  }
}
