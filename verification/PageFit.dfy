/** Where in a chunk of memory an aligned or page-bound allocation can go (lib832soc/memorypool.c). */
module PageFit {
  import opened Words

  /** x & ~(alignment - 1), for an alignment that is a power of two: the last boundary up to x. */
  function Floor(x: int, alignment: int): int
    requires alignment > 0
  {
    x / alignment * alignment
  }

  /** Inside the chunk. */
  predicate InChunk(q: int, size: int, p: int, chunksize: int) {
    p <= q && q + size <= p + chunksize
  }

  predicate Aligned(q: int, alignment: int)
    requires alignment > 0
  {
    q % alignment == 0
  }

  /** From q on, size bytes do not go over a boundary. */
  predicate OnOnePage(q: int, size: int, alignment: int)
    requires alignment > 0
  {
    Floor(q, alignment) == Floor(q + size - 1, alignment)
  }

  predicate GoodAligned(q: int, size: int, p: int, chunksize: int, alignment: int)
    requires alignment > 0
  {
    InChunk(q, size, p, chunksize) && Aligned(q, alignment)
  }

  predicate GoodPage(q: int, size: int, p: int, chunksize: int, alignment: int)
    requires alignment > 0
  {
    InChunk(q, size, p, chunksize) && OnOnePage(q, size, alignment)
  }

  lemma FloorIs(x: int, k: int, alignment: int)
    requires alignment > 0
    ensures k * alignment <= x < (k + 1) * alignment ==> Floor(x, alignment) == k * alignment
    ensures Floor(x, alignment) <= x < Floor(x, alignment) + alignment && Aligned(Floor(x, alignment), alignment)
  {
    var m := x / alignment;
    assert x == m * alignment + x % alignment;
    if k * alignment <= x < (k + 1) * alignment {
      Between(m, k, alignment);
      Between(k, m, alignment);
      assert (k + 1) * alignment == k * alignment + alignment && (m + 1) * alignment == m * alignment + alignment;
    }
    MultipleAligned(m, alignment);
  }

  lemma MultipleAligned(m: int, alignment: int)
    requires alignment > 0
    ensures m * alignment % alignment == 0
  {
    DivideUnique(m * alignment, alignment, m, 0);
  }

  lemma Between(m: int, k: int, a: int)
    requires a > 0
    ensures m * a < (k + 1) * a ==> m <= k
  {
    assert m >= k + 1 ==> m * a >= (k + 1) * a;
  }

  /** An aligned address is its own floor, and so a multiple of the alignment. */
  lemma AlignedFloor(q: int, alignment: int)
    requires alignment > 0
    ensures Aligned(q, alignment) <==> Floor(q, alignment) == q
  {
    assert q == q / alignment * alignment + q % alignment;
  }

  /** Floors keep order. */
  lemma FloorOrder(x: int, y: int, alignment: int)
    requires alignment > 0 && x <= y
    ensures Floor(x, alignment) <= Floor(y, alignment)
  {
    var m, k := x / alignment, y / alignment;
    assert x == m * alignment + x % alignment && y == k * alignment + y % alignment;
    assert (k + 1) * alignment == k * alignment + alignment;
    Between(m, k, alignment);
    assert m <= k ==> m * alignment <= k * alignment;
  }

  /** The first boundary at or after p. */
  function RoundUp(p: int, alignment: int): int
    requires alignment > 0
  {
    Floor(p + (alignment - 1), alignment)
  }

  lemma RoundUpIsLeast(p: int, alignment: int, q: int)
    requires alignment > 0
    ensures p <= RoundUp(p, alignment) < p + alignment && Aligned(RoundUp(p, alignment), alignment)
    ensures q >= p && Aligned(q, alignment) ==> RoundUp(p, alignment) <= q
  {
    FloorIs(p + (alignment - 1), 0, alignment);
    if q >= p && Aligned(q, alignment) {
      NextFloor(q, alignment);
      FloorOrder(p + (alignment - 1), q + (alignment - 1), alignment);
    }
  }

  /** On from a boundary, the rest of the page has the same floor. */
  lemma NextFloor(q: int, alignment: int)
    requires alignment > 0 && Aligned(q, alignment)
    ensures Floor(q + (alignment - 1), alignment) == q
  {
    var k := q / alignment;
    assert q == k * alignment && (k + 1) * alignment == k * alignment + alignment;
    FloorIs(q + (alignment - 1), k, alignment);
  }

  // ---------- checkalign ----------

  /** checkalign; 0 means no. */
  function CheckAlign(size: int, p: int, chunksize: int, alignment: int): int
    requires alignment > 0
  {
    if size > chunksize then 0
    else
      var boundary := RoundUp(p, alignment);
      if boundary - p + size > chunksize then 0 else boundary
  }

  /** The answer is the least aligned address with room, and there is none exactly when it is 0. */
  lemma CheckAlignRight(size: nat, p: int, chunksize: nat, alignment: int)
    requires alignment > 0 && p > 0
    ensures var r := CheckAlign(size, p, chunksize, alignment);
      && (r != 0 ==> GoodAligned(r, size, p, chunksize, alignment))
      && (forall q :: GoodAligned(q, size, p, chunksize, alignment) ==> r != 0 && r <= q)
  {
    RoundUpIsLeast(p, alignment, p);
    forall q | GoodAligned(q, size, p, chunksize, alignment)
      ensures CheckAlign(size, p, chunksize, alignment) != 0 && CheckAlign(size, p, chunksize, alignment) <= q {
      RoundUpIsLeast(p, alignment, q);
    }
  }

  // ---------- checkmask ----------

  /** checkmask; 0 means no. */
  function CheckMask(size: int, p: int, chunksize: int, alignment: int): int
    requires alignment > 0
  {
    if size > chunksize then 0
    else if Floor(p, alignment) == Floor(p + size - 1, alignment) then p
    else if Floor(p + chunksize - size, alignment) == Floor(p + chunksize - 1, alignment) then p + chunksize - size
    else
      var boundary := RoundUp(p, alignment);
      if p + chunksize - boundary >= size then boundary else 0
  }

  /** What fits on a page fits at its start. */
  lemma PageStart(b: int, size: int, alignment: int)
    requires alignment > 0 && 0 < size <= alignment && Aligned(b, alignment)
    ensures OnOnePage(b, size, alignment)
  {
    NextFloor(b, alignment);
    AlignedFloor(b, alignment);
    FloorOrder(b, b + size - 1, alignment);
    FloorOrder(b + size - 1, b + (alignment - 1), alignment);
  }

  /** A place on p's own page is no better than p. */
  lemma SamePage(p: int, q: int, size: int, alignment: int)
    requires alignment > 0 && size > 0 && p <= q < RoundUp(p, alignment) && OnOnePage(q, size, alignment)
    ensures OnOnePage(p, size, alignment)
  {
    var f := Floor(p, alignment);
    FloorIs(p, 0, alignment);
    FloorOrder(p, q, alignment);
    FloorIs(q, 0, alignment);
    RoundUpIsLeast(p, alignment, Floor(q, alignment));
    FloorOrder(p, p + size - 1, alignment);
    FloorOrder(p + size - 1, q + size - 1, alignment);
    AlignedFloor(Floor(q, alignment), alignment);
    if Floor(q, alignment) < p {
      FloorOrder(Floor(q, alignment), p, alignment);
    }
  }

  /** The answer is a place in the chunk that crosses no boundary, and there is none exactly when it is 0. */
  lemma CheckMaskRight(size: int, p: int, chunksize: int, alignment: int)
    requires alignment > 0 && p > 0 && 0 < size <= alignment
    ensures var r := CheckMask(size, p, chunksize, alignment);
      && (r != 0 ==> GoodPage(r, size, p, chunksize, alignment))
      && (r == 0 <==> forall q :: !GoodPage(q, size, p, chunksize, alignment))
  {
    var b, r := RoundUp(p, alignment), CheckMask(size, p, chunksize, alignment);
    RoundUpIsLeast(p, alignment, p);
    PageStart(b, size, alignment);
    if r == 0 {
      forall q ensures !GoodPage(q, size, p, chunksize, alignment) {
        if p <= q < b && OnOnePage(q, size, alignment) {
          SamePage(p, q, size, alignment);
        }
      }
    } else {
      assert GoodPage(r, size, p, chunksize, alignment);
    }
  }

  /** A good answer: a place, or 0 when there is none. */
  ghost predicate Answers(r: int, size: int, p: int, chunksize: int, alignment: int)
    requires alignment > 0
  {
    if r == 0 then forall q :: !GoodPage(q, size, p, chunksize, alignment)
    else GoodPage(r, size, p, chunksize, alignment)
  }

  /** More than a page has no place on one page. */
  lemma TooBig(q: int, size: int, alignment: int)
    requires alignment > 0 && size > alignment
    ensures !OnOnePage(q, size, alignment)
  {
    FloorIs(q, 0, alignment);
    FloorIs(q + size - 1, 0, alignment);
  }

  /** A request of more than a page is answered rightly only when there is no room from the first
      boundary on; otherwise it gets that boundary, and crosses the next. */
  lemma CheckMaskExactly(size: int, p: int, chunksize: int, alignment: int)
    requires alignment > 0 && p > 0 && size > 0
    ensures Answers(CheckMask(size, p, chunksize, alignment), size, p, chunksize, alignment)
       <==> size <= alignment || p + chunksize - RoundUp(p, alignment) < size
  {
    RoundUpIsLeast(p, alignment, p);
    if size <= alignment {
      CheckMaskRight(size, p, chunksize, alignment);
    } else {
      forall q ensures !GoodPage(q, size, p, chunksize, alignment) {
        TooBig(q, size, alignment);
      }
      TooBig(p, size, alignment);
      TooBig(p + chunksize - size, size, alignment);
    }
  }

  /** A request is on one page when no boundary comes after its first byte. */
  lemma OnePageMeans(q: int, size: int, alignment: int)
    requires alignment > 0 && size > 0
    ensures OnOnePage(q, size, alignment) <==> forall b :: q < b < q + size ==> !Aligned(b, alignment)
  {
    FloorIs(q, 0, alignment);
    FloorIs(q + size - 1, 0, alignment);
    FloorOrder(q, q + size - 1, alignment);
    if OnOnePage(q, size, alignment) {
      forall b | q < b < q + size ensures !Aligned(b, alignment) {
        if Aligned(b, alignment) {
          AlignedFloor(b, alignment);
          FloorOrder(b, q + size - 1, alignment);
          assert false;
        }
      }
    } else {
      var f := Floor(q + size - 1, alignment);
      if f <= q {
        AlignedFloor(f, alignment);
        FloorOrder(f, q, alignment);
        assert false;
      }
      assert Aligned(f, alignment) && q < f < q + size;
    }
  }

  /** The start of the chunk is taken if no boundary is in the way there; or else its end, if none is there;
      and only then the first boundary, if there is room. */
  lemma CheckMaskPrefers(size: int, p: int, chunksize: int, alignment: int)
    requires alignment > 0 && p > 0 && 0 < size <= chunksize
    ensures var r, last := CheckMask(size, p, chunksize, alignment), p + chunksize - size;
      if forall b :: p < b < p + size ==> !Aligned(b, alignment) then r == p
      else if forall b :: last < b < last + size ==> !Aligned(b, alignment) then r == last
      else if r == 0 then forall b :: p <= b <= last ==> !Aligned(b, alignment)
      else p <= r <= last && Aligned(r, alignment) && forall b :: p <= b < r ==> !Aligned(b, alignment)
  {
    OnePageMeans(p, size, alignment);
    OnePageMeans(p + chunksize - size, size, alignment);
    forall b | b >= p && Aligned(b, alignment) ensures RoundUp(p, alignment) <= b {
      RoundUpIsLeast(p, alignment, b);
    }
    RoundUpIsLeast(p, alignment, p);
  }

  /** For instance, 10 bytes on one page of 4 are said to be at 4, and are nowhere. */
  lemma CheckMaskCrosses()
    ensures CheckMask(10, 1, 100, 4) == 4 && !Answers(CheckMask(10, 1, 100, 4), 10, 1, 100, 4)
  {
    assert RoundUp(1, 4) == 4;
    CheckMaskExactly(10, 1, 100, 4);
  }
}
