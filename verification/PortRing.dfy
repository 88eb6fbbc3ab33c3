/** The hardware ring buffer (lib832soc/hw_ringbuffer.c). */
module PortRing {
  import opened PortTrace

  const RING := 16  // HW_RINGBUFFER_SIZE

  function Next(p: int): int {
    (p + 1) % RING
  }

  /** Slots less than a turn apart are different. */
  lemma SlotsDiffer(i: int, j: int)
    requires i < j < i + RING
    ensures i % RING != j % RING
  {
  }

  lemma NextSlot(n: int)
    ensures Next(n % RING) == (n + 1) % RING
  {
  }

  /** Two positions share a slot when they are whole turns apart. */
  lemma SameSlot(i: int, j: int)
    ensures i % RING == j % RING <==> (i - j) % RING == 0
  {
  }

  /** Less than a turn apart, the slots tell whether there are none between them, or all but one. */
  lemma IndexTests(i: int, j: int)
    requires i <= j < i + RING
    ensures i % RING == Next(j % RING) <==> j - i == RING - 1
    ensures i % RING == j % RING <==> i == j
  {
    NextSlot(j);
    SameSlot(j + 1, i);
    SameSlot(j, i);
  }

  /** The latest position in the same slot as j. */
  lemma LatestSlot(n: int, j: int)
    ensures var i := n - 1 - (n - 1 - j) % RING; n - RING <= i < n && i % RING == j % RING
  {
  }

  /** The count as the program computes it, in_hw being read twice: to compare, and to subtract. */
  function Counted(first: int, second: int, in_cpu: int): int {
    if first >= in_cpu then second - in_cpu else second + RING - in_cpu
  }

  /** With n bytes unread and d more arriving between the two readings of in_hw, the count is right
      unless in_hw passes the end of the buffer just then; if it does, the count is 16 short. */
  lemma CountedRight(taken: nat, n: nat, d: nat)
    requires n + d < RING
    ensures var first, second, in_cpu := (taken + n) % RING, (taken + n + d) % RING, taken % RING;
      && (Counted(first, second, in_cpu) == n + d <==> !(second < in_cpu <= first))
      && (second < in_cpu <= first ==> Counted(first, second, in_cpu) == n + d - RING < 0)
  {
  }

  /** For instance, with one byte unread in slot 14 and another coming in slot 15 meanwhile. */
  lemma CountedShort()
    ensures Counted(15, 0, 14) == -14 && Counted(15, 15, 14) == 1 && Counted(0, 0, 14) == 2
  {
  }

  lemma CountedOnce(i: int, j: int)
    ensures Counted(i % RING, i % RING, j % RING) == (i - j) % RING
  {
  }

  class Ring {
    const inbuf: array<Word>
    const outbuf: array<Word>
    var in_hw: int
    var in_cpu: int
    var out_hw: int
    var out_cpu: int
    var overruns: int
    var flags: Flags

    // All that has ever passed through
    ghost var received: seq<Word>
    ghost var taken: seq<Word>
    ghost var written: seq<Word>
    ghost var sent: seq<Word>
    ghost var overrun: bool  // has there ever been one?

    /** Whatever happens, inbuf has the latest bytes received, and what was written is what was sent
        and what is still in outbuf, in order. Until there is an overrun, what was received is what
        was read and what is still in inbuf. */
    ghost predicate Valid()
      reads this`in_hw, this`in_cpu, this`out_hw, this`out_cpu, this`overruns, this`overrun
      reads this`received, this`taken, this`written, this`sent, inbuf, outbuf
    {
      && inbuf.Length == RING && outbuf.Length == RING && inbuf != outbuf
      && in_hw == |received| % RING && in_cpu == |taken| % RING
      && out_cpu == |written| % RING && out_hw == |sent| % RING
      && Stored() && Queued()
      && sent <= written && |written| - |sent| < RING
      && (!overrun ==> taken <= received && |received| - |taken| < RING && overruns == 0)
      && (overrun ==> |received| >= RING)
      && (forall i :: 0 <= i < |received| ==> received[i] < 0x100)
    }

    ghost predicate Stored()
      requires inbuf.Length == RING
      reads this`received, inbuf
    {
      forall i :: 0 <= i < |received| && |received| - RING <= i ==> inbuf[i % RING] == received[i]
    }

    ghost predicate Queued()
      requires outbuf.Length == RING
      reads this`written, this`sent, outbuf
    {
      forall i :: |sent| <= i < |written| ==> outbuf[i % RING] == written[i]
    }

    constructor ()
      ensures Valid() && fresh(inbuf) && fresh(outbuf)
      ensures received == [] && taken == [] && written == [] && sent == [] && !overrun && flags == NO_FLAGS
    {
      inbuf := new Word[RING];
      outbuf := new Word[RING];
      in_hw, in_cpu, out_hw, out_cpu, overruns, flags := 0, 0, 0, 0, 0, NO_FLAGS;
      received, taken, written, sent, overrun := [], [], [], [], false;
    }

    /** hw_ringbuffer_fill: the byte is stored even when that wipes out all that is unread. */
    method Fill(b: Word)
      requires Valid() && b < 0x100
      modifies this`in_hw, this`overruns, this`received, this`overrun, inbuf
      ensures Valid() && received == old(received) + [b]
      ensures overrun <==> old(overrun) || (|old(received)| + 1 - |taken|) % RING == 0
      ensures overruns == old(overruns) + if (|old(received)| + 1 - |taken|) % RING == 0 then 1 else 0
    {
      hide Queued;
      var newptr := Next(in_hw);
      NextSlot(|received|);
      SameSlot(|received| + 1, |taken|);
      if in_cpu == newptr {
        overruns := overruns + 1;
        overrun := true;
      }
      inbuf[in_hw] := b;
      in_hw := newptr;
      ghost var n := |received|;
      received := received + [b];
      forall i | 0 <= i < |received| && |received| - RING <= i ensures inbuf[i % RING] == received[i] {
        if i < n {
          SlotsDiffer(i, n);
        }
      }
    }

    /** The part of hw_ringbuffer_read made with interrupts off. Until there is an overrun, the
        next byte received; after one, still one of the latest. */
    method Take() returns (r: Word)
      requires Valid() && (overrun || |taken| < |received|)
      modifies this`in_cpu, this`taken
      ensures Valid() && taken == old(taken) + [r]
      ensures !overrun ==> r == received[|old(taken)|]
      ensures r in received[if |received| > RING then |received| - RING else 0..]
    {
      hide Queued, Next;
      ghost var n := |received|;
      LatestSlot(n, |taken|);
      NextSlot(|taken|);
      ghost var i := if overrun then n - 1 - (n - 1 - |taken|) % RING else |taken|;
      assert i % RING == in_cpu && 0 <= i < n && i >= n - RING;
      assert inbuf[i % RING] == received[i];
      r := ByteOf(inbuf[in_cpu]);
      in_cpu := Next(in_cpu);
      taken := taken + [r];
    }

    /** Is there nothing to read? Right unless there has been an overrun. */
    predicate Empty()
      reads this
    {
      in_hw == in_cpu
    }

    /** hw_ringbuffer_count, with no byte arriving meanwhile. */
    method Count() returns (n: int)
      requires Valid()
      ensures n == (|received| - |taken|) % RING
      ensures !overrun ==> n == |received| - |taken|
    {
      CountedOnce(|received|, |taken|);
      n := Counted(in_hw, in_hw, in_cpu);
    }

    /** hw_ringbuffer_overruns. */
    method Overruns() returns (n: int)
      requires Valid()
      modifies this`overruns
      ensures Valid() && n == old(overruns) && overruns == 0
    {
      n := overruns;
      overruns := 0;
    }

    predicate Full()
      reads this
    {
      out_hw == Next(out_cpu)
    }

    lemma FullMeans()
      requires Valid()
      ensures Full() <==> |written| - |sent| == RING - 1
      ensures |sent| <= |written| && (out_hw == out_cpu <==> |written| == |sent|)
      ensures !overrun ==> |received| - |taken| < RING && (Empty() <==> |received| == |taken|)
    {
      hide Stored, Queued, Next;
      IndexTests(|sent|, |written|);
      if !overrun {
        IndexTests(|taken|, |received|);
      }
    }

    /** The part of hw_ringbuffer_write that stores the word. */
    method Put(w: Word)
      requires Valid() && !Full()
      modifies this`out_cpu, this`written, outbuf
      ensures Valid() && written == old(written) + [w]
    {
      ghost var n := |written|;
      NextSlot(n);
      FullMeans();
      outbuf[out_cpu] := w;
      out_cpu := Next(out_cpu);
      written := written + [w];
      forall i | |sent| <= i < |written| ensures outbuf[i % RING] == written[i] {
        if i < n {
          SlotsDiffer(i, n);
        }
      }
    }

    /** The next word for the hardware. */
    method Send() returns (w: Word)
      requires Valid() && out_hw != out_cpu
      modifies this`out_hw, this`sent
      ensures Valid() && sent == old(sent) + [w]
    {
      NextSlot(|sent|);
      assert |sent| < |written|;
      assert outbuf[|sent| % RING] == written[|sent|];
      w := outbuf[out_hw];
      out_hw := Next(out_hw);
      sent := sent + [w];
    }
  }
}
