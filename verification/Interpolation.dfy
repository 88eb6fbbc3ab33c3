/** SAM's transitions between phonemes (Apps/SAM/createtransitions.c): a straight line drawn with
    an accumulated error, all in bytes. */
module Interpolation {
  import opened Words
  import opened Divisors

  const BYTE := 0x100

  predicate IsByte(x: int) {
    0 <= x < BYTE
  }

  /** A signed char. */
  predicate IsChar(x: int) {
    -0x80 <= x < 0x80
  }

  // ---------- The loop, as a recursion ----------

  /** error and val between two frames. */
  datatype Pen = Pen(error: int, val: int)

  /** What is written to the next frame, and the error it leaves; r is what every frame adds to
      the error. */
  function Draw(p: Pen, r: int, w: int, falls: bool): Pen {
    var e := (p.error + r) % BYTE;
    if e < w then Pen(e, p.val)
    else if falls then Pen(e - w, (p.val - 1) % BYTE)
    else if p.val != 0 then Pen(e - w, (p.val + 1) % BYTE)
    else Pen(e - w, p.val)
  }

  /** The pen once k frames are drawn; every frame takes a step. */
  function After(start: int, step: int, r: int, w: int, falls: bool, k: nat): Pen {
    if k == 0 then Pen(0, (start + step) % BYTE)
    else
      var p := Draw(After(start, step, r, w, falls, k - 1), r, w, falls);
      Pen(p.error, (p.val + step) % BYTE)
  }

  function PenAfter(start: int, d: int, w: int, k: nat): Pen
    requires w > 0
  {
    After(start, Quotient(d, w) % BYTE, Abs(d) % w, w, d < 0, k)
  }

  /** The value of frame k. */
  function Drawn(start: int, d: int, w: int, k: nat): int
    requires w > 0 && k > 0
  {
    Draw(PenAfter(start, d, w, k - 1), Abs(d) % w, w, d < 0).val
  }

  // ---------- The line ----------

  /** Frame k of w on the line from start to start + d, rounded toward start. */
  function OnLine(start: int, d: int, w: int, k: int): int
    requires w > 0
  {
    start + Quotient(k * d, w)
  }

  /** A line from 0 that rises by less than one a frame never leaves 0. */
  predicate StaysZero(start: int, d: int, w: int) {
    start == 0 && 0 <= d < w
  }

  function Wanted(start: int, d: int, w: int, k: int): int
    requires w > 0
  {
    if StaysZero(start, d, w) then 0 else OnLine(start, d, w, k)
  }

  /** Whole steps and carries so far: what k frames of a slope of n / w come to. */
  function Carries(n: nat, w: int, k: nat): int
    requires w > 0
  {
    k * (n % w) / w
  }

  /** k * n / w in steps and carries. */
  lemma SlopeParts(n: nat, w: int, k: nat)
    requires w > 0
    ensures k * n / w == k * (n / w) + Carries(n, w, k)
  {
    var q, r, c := n / w, n % w, Carries(n, w, k);
    assert k * r == c * w + k * r % w;
    assert k * n == k * (q * w + r) == k * q * w + k * r == (k * q + c) * w + k * r % w;
    DivideUnique(k * n, w, k * q + c, k * r % w);
  }

  lemma LineParts(start: int, d: int, w: int, k: nat)
    requires w > 0
    ensures OnLine(start, d, w, k) ==
      start + k * Quotient(d, w) + (if d < 0 then -Carries(Abs(d), w, k) else Carries(Abs(d), w, k))
  {
    SlopeParts(Abs(d), w, k);
    if d < 0 {
      assert -(k * d) == k * -d;
      assert k * Quotient(d, w) == -(k * (-d / w));
      if k > 0 { assert k * d < 0; }
    } else {
      assert k * d >= 0;
    }
  }

  /** One frame more: the error either passes w, or it does not. */
  lemma CarriesNext(n: nat, w: int, k: nat)
    requires w > 0
    ensures var r, e := n % w, k * (n % w) % w;
      && Carries(n, w, k + 1) == Carries(n, w, k) + (if e + r >= w then 1 else 0)
      && (k + 1) * r % w == (if e + r >= w then e + r - w else e + r)
  {
    var r := n % w;
    var c, e := k * r / w, k * r % w;
    assert (k + 1) * r == k * r + r == c * w + (e + r);
    if e + r >= w {
      assert (c + 1) * w == c * w + w;
      DivideUnique((k + 1) * r, w, c + 1, e + r - w);
    } else {
      DivideUnique((k + 1) * r, w, c, e + r);
    }
  }

  // ---------- The loop draws the line ----------

  /** Where the pen is when its error has not overflowed a byte. */
  ghost predicate OnTrack(p: Pen, start: int, d: int, w: int, k: nat)
    requires w > 0
  {
    && p.error == k * (Abs(d) % w) % w
    && p.val == (OnLine(start, d, w, k) + Quotient(d, w)) % BYTE
  }

  lemma StepUp(k: int, q: int)
    ensures (k + 1) * q == k * q + q
  {
  }

  lemma ProductSign(k: int, q: int)
    requires k >= 0
    ensures q >= 0 ==> k * q >= 0
    ensures q <= 0 ==> k * q <= 0
  {
  }

  lemma QuotientSign(n: int, w: int)
    requires w > 0 && n >= 0
    ensures n / w >= 0 && (n >= w ==> n / w >= 1)
  {
    MultipleBounds(n / w, w);
  }

  /** One frame on, the line has gone a whole step, and perhaps a carry. */
  lemma LineNext(start: int, d: int, w: int, k: nat)
    requires w > 0
    ensures var c := if k * (Abs(d) % w) % w + Abs(d) % w >= w then 1 else 0;
      OnLine(start, d, w, k + 1) == OnLine(start, d, w, k) + Quotient(d, w) + (if d < 0 then -c else c)
  {
    CarriesNext(Abs(d), w, k);
    LineParts(start, d, w, k);
    LineParts(start, d, w, k + 1);
    StepUp(k, Quotient(d, w));
  }

  /** On the way up the line stays above 0 and does not pass its end. */
  lemma RiseInside(start: int, d: int, w: int, k: nat)
    requires w > 0 && d >= 0 && 0 <= start && k < w && !StaysZero(start, d, w)
    ensures 0 < OnLine(start, d, w, k) + Quotient(d, w)
    ensures OnLine(start, d, w, k) + Quotient(d, w) <= OnLine(start, d, w, k + 1) <= start + d
  {
    LineNext(start, d, w, k);
    WantedInside(start, d, w, k);
    WantedInside(start, d, w, k + 1);
    QuotientSign(d, w);
  }

  lemma Below(n: nat, w: int, k: nat)
    requires w > 0 && k <= w
    ensures k * n / w <= n
  {
    assert k * n <= w * n;
    DivideUnique(w * n, w, n, 0);
    DivideOrder(k * n, w * n, w);
  }

  /** One frame, with x the value the line had, whole step included, and y the one it is to have. */
  lemma DrawNext(p: Pen, r: int, w: int, falls: bool, x: int, y: int)
    requires 0 <= r < w && p.error + r < BYTE && 0 <= p.error < w && p.val == x % BYTE
    requires y == x + (if p.error + r < w then 0 else if falls then -1 else 1)
    requires falls || 0 < x <= y < BYTE
    ensures Draw(p, r, w, falls) == Pen(if p.error + r < w then p.error + r else p.error + r - w, y % BYTE)
  {
    ByteSame(p.error + r);
    ByteSame(x);
    StepFrom(x, -1);
    StepFrom(x, 1);
  }

  lemma StepFrom(x: int, c: int)
    ensures (x % BYTE + c) % BYTE == (x + c) % BYTE
  {
  }

  lemma StepNext(y: int, q: int)
    ensures (y % BYTE + q % BYTE) % BYTE == (y + q) % BYTE
  {
  }

  lemma RemainderSmall(n: nat, w: int, k: nat)
    requires w > 0
    ensures 0 <= n % w < w && 0 <= k * (n % w) % w < w
  {
  }

  /** The error before frame j + 1, as long as it has not overflowed. */
  function ErrorAt(r: nat, w: int, j: nat): int
    requires w > 0
  {
    j * r % w
  }

  /** No sum of the error and what a frame adds overflows a byte in the first n frames. */
  ghost predicate NoOverflow(r: nat, w: int, n: int)
    requires w > 0
  {
    forall j: nat :: j < n ==> ErrorAt(r, w, j) + r < BYTE
  }

  lemma {:induction false} PenOnTrack(start: int, d: int, w: int, k: nat)
    requires 0 < w && IsByte(start) && IsByte(start + d) && k < w && !StaysZero(start, d, w)
    requires NoOverflow(Abs(d) % w, w, k)
    ensures OnTrack(PenAfter(start, d, w, k), start, d, w, k)
  {
    if k == 0 {
      LineStarts(start, d, w);
      StepFirst(start, Quotient(d, w));
    } else {
      PenOnTrack(start, d, w, k - 1);
      assert ErrorAt(Abs(d) % w, w, k - 1) + Abs(d) % w < BYTE;
      FrameRight(start, d, w, k);
      PenStepped(PenAfter(start, d, w, k - 1), Quotient(d, w), Abs(d) % w, w, d < 0,
                 OnLine(start, d, w, k), k * (Abs(d) % w) % w);
    }
  }

  lemma StepFirst(start: int, q: int)
    ensures (start + q % BYTE) % BYTE == (start + q) % BYTE
  {
  }

  lemma PenStepped(p: Pen, q: int, r: int, w: int, falls: bool, y: int, e: int)
    requires Draw(p, r, w, falls) == Pen(e, y % BYTE)
    ensures var t := Draw(p, r, w, falls); Pen(t.error, (t.val + q % BYTE) % BYTE) == Pen(e, (y + q) % BYTE)
  {
    StepNext(y, q);
  }

  lemma LineStarts(start: int, d: int, w: int)
    requires 0 < w
    ensures OnLine(start, d, w, 0) == start && 0 * (Abs(d) % w) % w == 0
  {
    assert 0 * d == 0;
  }

  lemma FrameRight(start: int, d: int, w: int, k: nat)
    requires 0 < w && IsByte(start) && IsByte(start + d) && 0 < k < w && !StaysZero(start, d, w)
    requires ErrorAt(Abs(d) % w, w, k - 1) + Abs(d) % w < BYTE
    requires OnTrack(PenAfter(start, d, w, k - 1), start, d, w, k - 1)
    ensures Draw(PenAfter(start, d, w, k - 1), Abs(d) % w, w, d < 0)
         == Pen(k * (Abs(d) % w) % w, OnLine(start, d, w, k) % BYTE)
  {
    var p, r := PenAfter(start, d, w, k - 1), Abs(d) % w;
    var x, y := OnLine(start, d, w, k - 1) + Quotient(d, w), OnLine(start, d, w, k);
    RemainderSmall(Abs(d), w, k - 1);
    LineNext(start, d, w, k - 1);
    CarriesNext(Abs(d), w, k - 1);
    if d >= 0 {
      RiseInside(start, d, w, k - 1);
    }
    DrawNext(p, r, w, d < 0, x, y);
  }

  lemma {:induction false} ZeroStays(r: int, w: int, k: nat)
    requires 0 <= r < w
    ensures After(0, 0, r, w, false, k).val == 0 && Draw(After(0, 0, r, w, false, k), r, w, false).val == 0
  {
    if k > 0 {
      ZeroStays(r, w, k - 1);
    }
  }

  /** Until the error overflows, every frame has the value on the line, rounded toward the start; but a
      line that rises from 0 by less than one a frame stays at 0. */
  lemma DrawsLine(start: int, d: int, w: int, k: nat)
    requires 0 < w < BYTE && IsByte(start) && IsByte(start + d) && 0 < k < w && NoOverflow(Abs(d) % w, w, k)
    ensures Drawn(start, d, w, k) == Wanted(start, d, w, k)
  {
    if StaysZero(start, d, w) {
      SmallQuotient(d, w);
      RemainderSmall(d, w, 0);
      ZeroStays(Abs(d) % w, w, k - 1);
    } else {
      SlopeDrawn(start, d, w, k);
    }
  }

  lemma SlopeDrawn(start: int, d: int, w: int, k: nat)
    requires 0 < w && IsByte(start) && IsByte(start + d) && 0 < k < w && !StaysZero(start, d, w)
    requires NoOverflow(Abs(d) % w, w, k)
    ensures Drawn(start, d, w, k) == OnLine(start, d, w, k)
  {
    PenOnTrack(start, d, w, k - 1);
    assert ErrorAt(Abs(d) % w, w, k - 1) + Abs(d) % w < BYTE;
    FrameRight(start, d, w, k);
    WantedInside(start, d, w, k);
    ByteSame(OnLine(start, d, w, k));
  }

  lemma ByteSame(x: int)
    ensures IsByte(x) ==> x % BYTE == x
  {
  }

  lemma SmallQuotient(d: int, w: int)
    requires 0 <= d < w
    ensures Quotient(d, w) == 0
  {
  }

  /** The line keeps between its ends. */
  lemma WantedInside(start: int, d: int, w: int, k: nat)
    requires w > 0 && k <= w
    ensures if d >= 0 then start <= OnLine(start, d, w, k) <= start + d
      else start + d <= OnLine(start, d, w, k) <= start
  {
    Below(Abs(d), w, k);
    QuotientBetween(k * d, k * Abs(d), w, d < 0);
    ProductSign(k, Abs(d));
    QuotientSign(k * Abs(d), w);
    assert d < 0 ==> k * d == -(k * -d);
  }

  lemma QuotientBetween(x: int, n: int, w: int, falls: bool)
    requires w > 0 && n >= 0 && x == (if falls then -n else n)
    ensures Quotient(x, w) == if falls then -(n / w) else n / w
  {
  }

  /** And runs one way. */
  lemma LineMonotone(start: int, d: int, w: int, k: nat)
    requires w > 0
    ensures if d >= 0 then OnLine(start, d, w, k) <= OnLine(start, d, w, k + 1)
      else OnLine(start, d, w, k + 1) <= OnLine(start, d, w, k)
  {
    StepUp(k, Abs(d));
    DivideOrder(k * Abs(d), (k + 1) * Abs(d), w);
    LineAt(start, d, w, k);
    LineAt(start, d, w, k + 1);
  }

  lemma LineAt(start: int, d: int, w: int, k: nat)
    requires w > 0
    ensures OnLine(start, d, w, k) == start + if d < 0 then -(k * Abs(d) / w) else k * Abs(d) / w
  {
    ProductSign(k, Abs(d));
    assert d < 0 ==> k * d == -(k * Abs(d));
    QuotientBetween(k * d, k * Abs(d), w, d < 0);
  }

  /** Do all lines of this slope come out right? */
  ghost predicate AlwaysRight(d: int, w: int)
    requires w > 0
  {
    forall start, k: nat :: IsByte(start) && IsByte(start + d) && 0 < k < w ==>
      Drawn(start, d, w, k) == Wanted(start, d, w, k)
  }

  /** They do exactly when no error overflows its byte. */
  lemma RightWithoutOverflow(d: int, w: int)
    requires IsChar(d) && 0 < w < BYTE
    ensures AlwaysRight(d, w) <==> NoOverflow(Abs(d) % w, w, w - 1)
  {
    var r := Abs(d) % w;
    if NoOverflow(r, w, w - 1) {
      forall start, k: nat | IsByte(start) && IsByte(start + d) && 0 < k < w
        ensures Drawn(start, d, w, k) == Wanted(start, d, w, k) {
        DrawsLine(start, d, w, k);
      }
    } else {
      var j: nat :| j < w - 1 && ErrorAt(r, w, j) + r >= BYTE;
      var i := FirstOverflow(r, w, j);
      LineLost(d, w, i);
    }
  }

  lemma {:induction false} FirstOverflow(r: nat, w: int, j: nat) returns (i: nat)
    requires w > 0 && ErrorAt(r, w, j) + r >= BYTE
    ensures i <= j && ErrorAt(r, w, i) + r >= BYTE && NoOverflow(r, w, i)
  {
    if k: nat :| k < j && ErrorAt(r, w, k) + r >= BYTE {
      i := FirstOverflow(r, w, k);
    } else {
      i := j;
    }
  }

  /** Where the error first overflows, the carry is missed, and the frame is one off the line. */
  lemma LineLost(d: int, w: int, i: nat)
    requires IsChar(d) && 0 < w < BYTE && i < w - 1 && NoOverflow(Abs(d) % w, w, i)
    requires ErrorAt(Abs(d) % w, w, i) + Abs(d) % w >= BYTE
    ensures !AlwaysRight(d, w)
  {
    var start := if d < 0 then 200 else 1;
    var p, r := PenAfter(start, d, w, i), Abs(d) % w;
    PenOnTrack(start, d, w, i);
    RemainderSmall(Abs(d), w, i);
    LineNext(start, d, w, i);
    WantedInside(start, d, w, i + 1);
    CarryMissed(p, r, w, d < 0, OnLine(start, d, w, i) + Quotient(d, w));
    assert Drawn(start, d, w, i + 1) != Wanted(start, d, w, i + 1);
  }

  lemma CarryMissed(p: Pen, r: int, w: int, falls: bool, x: int)
    requires 0 <= r < w < BYTE && 0 <= p.error < w && p.error + r >= BYTE && p.val == x % BYTE
    ensures IsByte(x + 1) ==> Draw(p, r, w, falls).val != x + 1
    ensures IsByte(x - 1) ==> Draw(p, r, w, falls).val != x - 1
  {
  }

  /** The width and what every frame adds to the error say whether one overflows: the greatest error is
      as far below the width as their greatest common divisor. */
  lemma OverflowExactly(r: nat, w: int)
    requires 0 <= r < w < BYTE
    ensures NoOverflow(r, w, w - 1) <==> w + r - Gcd(r, w) < BYTE
  {
    if w + r - Gcd(r, w) < BYTE {
      forall j: nat | j < w - 1 ensures ErrorAt(r, w, j) + r < BYTE {
        RemainderAtMost(r, w, j);
      }
    } else if r > 0 {
      var j := RemainderReached(r, w);
      LastRemainder(r, w);
      assert ErrorAt(r, w, j) + r >= BYTE;
    }
  }

  lemma LastRemainder(r: nat, w: int)
    requires 0 < r < w
    ensures (w - 1) * r % w == w - r
  {
    assert (w - 1) * r == (r - 1) * w + (w - r);
    DivideUnique((w - 1) * r, w, r - 1, w - r);
  }

  /** So this is when all lines of a slope and a width are right. */
  lemma RightExactly(d: int, w: int)
    requires IsChar(d) && 0 < w < BYTE
    ensures AlwaysRight(d, w) <==> w + Abs(d) % w - Gcd(Abs(d) % w, w) < BYTE
  {
    RemainderSmall(Abs(d), w, 0);
    RightWithoutOverflow(d, w);
    OverflowExactly(Abs(d) % w, w);
  }

  /** Of the widths transitions have, up to 129, there is one with a slope whose lines go wrong. */
  lemma TransitionsRight(d: int, w: int)
    requires IsChar(d) && 2 <= w <= 129
    ensures AlwaysRight(d, w) <==> !(w == 129 && d == -128)
  {
    RightExactly(d, w);
    RemainderSmall(Abs(d), w, 0);
    GcdOfLongest();
  }

  lemma GcdOfLongest()
    ensures Gcd(128, 129) == 1
  {
    assert Gcd(128, 129) == Gcd(129 % 128, 128) == Gcd(1, 128) == Gcd(128 % 1, 1) == 1;
  }

  /** Pitch lines can be wider: of width 200 and slope -120, frame 4 from 200 on is one too high. */
  lemma WideLineLost()
    ensures !AlwaysRight(-120, 200) && Drawn(200, -120, 200, 4) == 199 && Wanted(200, -120, 200, 4) == 198
  {
    assert PenAfter(200, -120, 200, 1) == Pen(120, 200);
    assert PenAfter(200, -120, 200, 2) == Pen(40, 199);
    assert PenAfter(200, -120, 200, 3) == Pen(160, 199);
    assert Drawn(200, -120, 200, 4) != Wanted(200, -120, 200, 4);
  }

  // ---------- The frame tables ----------

  /** The first n frames of the line. */
  function Frames(start: int, d: int, w: int, n: nat): (vs: seq<int>)
    requires w > 0
    ensures |vs| == n
  {
    if n == 0 then [] else Frames(start, d, w, n - 1) + [Drawn(start, d, w, n)]
  }

  lemma {:induction false} FramesAt(start: int, d: int, w: int, n: nat, k: nat)
    requires w > 0 && k < n
    ensures Frames(start, d, w, n)[k] == Drawn(start, d, w, k + 1)
  {
    if k < n - 1 {
      FramesAt(start, d, w, n - 1, k);
    }
  }

  /** A table with the frames after the given one replaced; frame numbers wrap around. */
  function Redrawn(t: seq<int>, frame: int, vs: seq<int>): seq<int>
    requires |t| == BYTE && IsByte(frame)
  {
    seq(BYTE, i requires 0 <= i < BYTE =>
      if 0 < (i - frame) % BYTE <= |vs| then vs[(i - frame) % BYTE - 1] else t[i])
  }

  /** interpolate, from a frame on. The table has 256 frames, and frame numbers are bytes. */
  method Interpolate(width: int, table: array<int>, frame: int, mem53: int)
    requires 0 < width < BYTE && IsByte(frame) && IsChar(mem53) && table.Length == BYTE
    modifies table
    ensures table[..] == Redrawn(old(table[..]), frame, Frames(old(table[frame]), mem53, width, width - 1))
  {
    hide Redrawn, Quotient, PenAfter, Draw, Drawn;
    ghost var start := table[frame];
    NoneDrawn(table[..], frame, start, mem53, width);
    var sign := mem53 < 0;
    var remainder := Abs(mem53) % width;
    var div := Quotient(mem53, width) % BYTE;
    var error, pos, val, f := 0, width, (table[frame] + div) % BYTE, frame;
    ghost var k, t := 0, table[..];
    while pos - 1 != 0
      invariant 1 <= pos <= width && k == width - pos
      invariant AtFrame(table[..], f, Pen(error, val), t, frame, start, mem53, width, k)
    {
      pos := pos - 1;
      error, val := Move(error, val, remainder, width, sign);
      NextFrame(frame, k, f);
      f := (f + 1) % BYTE;
      PenMoves(start, mem53, width, k, Pen(error, val));
      PutFrame(table, frame, f, val, t, Frames(start, mem53, width, k));
      val := (val + div) % BYTE;
      k := k + 1;
    }
  }

  lemma NoneDrawn(t: seq<int>, frame: int, start: int, d: int, w: int)
    requires |t| == BYTE && IsByte(frame) && w > 0
    ensures Redrawn(t, frame, Frames(start, d, w, 0)) == t
    ensures PenAfter(start, d, w, 0) == Pen(0, (start + Quotient(d, w) % BYTE) % BYTE)
  {
  }

  /** k frames have been redrawn in table t, which is now u, and the pen is at frame f. */
  ghost predicate AtFrame(u: seq<int>, f: int, p: Pen, t: seq<int>, frame: int, start: int, d: int, w: int, k: nat) {
    && |t| == |u| == BYTE && IsByte(frame) && w > 0 && f == (frame + k) % BYTE
    && p == PenAfter(start, d, w, k) && u == Redrawn(t, frame, Frames(start, d, w, k))
  }

  /** The pen as it draws frame k + 1, and after. */
  lemma PenMoves(start: int, d: int, w: int, k: nat, p: Pen)
    requires w > 0 && p == Draw(PenAfter(start, d, w, k), Abs(d) % w, w, d < 0)
    ensures Drawn(start, d, w, k + 1) == p.val
    ensures PenAfter(start, d, w, k + 1) == Pen(p.error, (p.val + Quotient(d, w) % BYTE) % BYTE)
    ensures Frames(start, d, w, k + 1) == Frames(start, d, w, k) + [p.val]
  {
  }

  /** The next frame is put in. */
  method PutFrame(table: array<int>, ghost frame: int, f: int, val: int, ghost t: seq<int>, ghost vs: seq<int>)
    requires table.Length == BYTE == |t| && IsByte(frame) && IsByte(f) && (f - frame) % BYTE == |vs| + 1
    requires table[..] == Redrawn(t, frame, vs)
    modifies table
    ensures table[..] == Redrawn(t, frame, vs + [val])
  {
    RedrawnMore(t, frame, vs, f, val);
    table[f] := val;
  }

  method Move(error: int, val: int, remainder: int, width: int, sign: bool) returns (e: int, v: int)
    ensures Pen(e, v) == Draw(Pen(error, val), remainder, width, sign)
  {
    e, v := (error + remainder) % BYTE, val;
    if e >= width {
      e := e - width;
      if sign {
        v := (v - 1) % BYTE;
      } else if v != 0 {
        v := (v + 1) % BYTE;
      }
    }
  }

  lemma RedrawnMore(t: seq<int>, frame: int, vs: seq<int>, f: int, v: int)
    requires |t| == BYTE && IsByte(frame) && IsByte(f) && (f - frame) % BYTE == |vs| + 1
    ensures Redrawn(t, frame, vs + [v]) == Redrawn(t, frame, vs)[f := v]
  {
    var a, b := Redrawn(t, frame, vs + [v]), Redrawn(t, frame, vs);
    forall i | 0 <= i < BYTE && i != f ensures a[i] == b[i] {
      if (i - frame) % BYTE == |vs| + 1 {
        FrameApart(frame, i, f);
      }
    }
    assert a == b[f := v];
  }

  lemma NextFrame(frame: int, k: nat, f: int)
    requires IsByte(frame) && f == (frame + k) % BYTE && k + 1 < BYTE
    ensures ((f + 1) % BYTE - frame) % BYTE == k + 1 && (f + 1) % BYTE == (frame + k + 1) % BYTE
  {
  }

  lemma FrameApart(frame: int, i: int, f: int)
    requires IsByte(frame) && IsByte(i) && IsByte(f) && (i - frame) % BYTE == (f - frame) % BYTE
    ensures i == f
  {
  }

  // ---------- One transition ----------

  /** The slope taken between two values: their difference as a char. */
  function Slope(from: int, to: int): int {
    ToChar(to - from, true)
  }

  /** Between values less than 128 apart, transitions are straight. */
  lemma TransitionFrames(t: seq<int>, from: int, to: int, w: int, i: int)
    requires |t| == BYTE && IsByte(from) && IsByte(to) && 2 <= w <= 129 && IsByte(i) && IsByte(t[from]) && IsByte(t[to])
    requires -0x80 <= t[to] - t[from] < 0x80 && !(w == 129 && t[to] - t[from] == -0x80) && 0 < (i - from) % BYTE < w
    ensures Redrawn(t, from, Frames(t[from], Slope(t[from], t[to]), w, w - 1))[i]
         == Wanted(t[from], t[to] - t[from], w, (i - from) % BYTE)
  {
    hide Wanted, Frames;
    var d, k := t[to] - t[from], (i - from) % BYTE;
    assert Slope(t[from], t[to]) == d;
    FrameAtRight(t[from], d, w, k);
  }

  lemma FrameAtRight(start: int, d: int, w: int, k: nat)
    requires IsChar(d) && 2 <= w <= 129 && !(w == 129 && d == -128) && IsByte(start) && IsByte(start + d) && 0 < k < w
    ensures Frames(start, d, w, w - 1)[k - 1] == Wanted(start, d, w, k)
  {
    FramesAt(start, d, w, w - 1, k - 1);
    RightAt(start, d, w, k);
  }

  lemma RightAt(start: int, d: int, w: int, k: nat)
    requires IsChar(d) && 2 <= w <= 129 && !(w == 129 && d == -128) && IsByte(start) && IsByte(start + d) && 0 < k < w
    ensures Drawn(start, d, w, k) == Wanted(start, d, w, k)
  {
    TransitionsRight(d, w);
  }

  /** u is t with a straight line drawn between two frames. */
  ghost predicate Straight(t: seq<int>, u: seq<int>, from: int, to: int, w: int)
    requires |t| == |u| == BYTE && IsByte(from) && IsByte(to) && w > 0
  {
    forall i :: 0 <= i < BYTE ==>
      u[i] == if 0 < (i - from) % BYTE < w then Wanted(t[from], t[to] - t[from], w, (i - from) % BYTE) else t[i]
  }

  predicate IsTable(t: seq<int>) {
    |t| == BYTE && forall i :: 0 <= i < BYTE ==> IsByte(t[i])
  }

  lemma TransitionStraight(t: seq<int>, from: int, to: int, w: int)
    requires IsTable(t) && IsByte(from) && IsByte(to) && 2 <= w <= 129
    requires -0x80 <= t[to] - t[from] < 0x80 && !(w == 129 && t[to] - t[from] == -0x80)
    ensures Straight(t, Redrawn(t, from, Frames(t[from], Slope(t[from], t[to]), w, w - 1)), from, to, w)
  {
    var u := Redrawn(t, from, Frames(t[from], Slope(t[from], t[to]), w, w - 1));
    forall i | 0 <= i < BYTE
      ensures u[i] ==
        if 0 < (i - from) % BYTE < w then Wanted(t[from], t[to] - t[from], w, (i - from) % BYTE) else t[i] {
      if 0 < (i - from) % BYTE < w {
        TransitionFrames(t, from, to, w, i);
      }
    }
  }

  lemma SmallShare(x: int, y: int, w: int)
    requires w >= 2 && (x >= w || y >= w) && x >= 0 && y >= 0 && x + y == 0x100
    ensures 1 <= x / w + y / w <= 0x80
  {
    var a, b := x / w, y / w;
    QuotientSign(x, w);
    QuotientSign(y, w);
    assert x == a * w + x % w && y == b * w + y % w;
    assert (a + b) * w == a * w + b * w;
    MulAtLeast(a + b, w);
  }

  lemma MulAtLeast(m: int, w: int)
    requires m >= 0 && w >= 2
    ensures m * w >= 2 * m
  {
  }

  lemma OtherByte(x: int, n: int)
    requires 0 < n < BYTE
    ensures x % BYTE != x + n && x % BYTE != x - n
  {
  }

  lemma FirstDrawn(a: int, s: int, w: int)
    requires 2 <= w < BYTE
    ensures Drawn(a, s, w, 1) == (a + Quotient(s, w)) % BYTE
  {
    RemainderSmall(Abs(s), w, 0);
    ByteSame(Abs(s) % w);
    StepFirst(a, Quotient(s, w));
  }

  lemma FirstOnLine(a: int, d: int, w: int)
    requires w > 0
    ensures OnLine(a, d, w, 1) == a + Quotient(d, w)
  {
    assert 1 * d == d;
  }

  /** The first frame after values too far apart is off the line, except with the one slope that is
      less than one a frame both ways. */
  lemma FirstFrameOff(a: int, b: int, w: int)
    requires IsByte(a) && IsByte(b) && 2 <= w <= 129 && !(-0x80 <= b - a < 0x80) && !(w == 129 && b - a == 0x80)
    ensures Drawn(a, Slope(a, b), w, 1) != Wanted(a, b - a, w, 1)
  {
    var d, s := b - a, Slope(a, b);
    assert s == if d > 0 then d - 0x100 else d + 0x100;
    FirstDrawn(a, s, w);
    FirstOnLine(a, d, w);
    OtherWay(d, s, w);
    OtherByte(a + Quotient(s, w), Abs(Quotient(d, w) - Quotient(s, w)));
  }

  lemma OtherWay(d: int, s: int, w: int)
    requires 2 <= w <= 129 && 0x80 <= Abs(d) < BYTE && !(w == 129 && Abs(d) == 0x80)
    requires s == if d > 0 then d - 0x100 else d + 0x100
    ensures 0 < Abs(Quotient(d, w) - Quotient(s, w)) < BYTE
  {
    SmallShare(Abs(d), Abs(s), w);
    QuotientBetween(d, Abs(d), w, d < 0);
    QuotientBetween(s, Abs(s), w, s < 0);
  }

  /** With that slope the pen never moves. */
  lemma {:induction false} Frozen(a: int, k: nat)
    requires IsByte(a)
    ensures PenAfter(a, -0x80, 129, k) == Pen(if k % 2 == 0 then 0 else 0x80, a) && Drawn(a, -0x80, 129, k + 1) == a
  {
    if k > 0 {
      Frozen(a, k - 1);
    }
  }

  /** Is the transition between these values straight? Their difference must be what a char holds. For the
      greatest width it must not be -128; but 128 does no harm above 0, since that line stays 0. */
  predicate Joins(a: int, b: int, w: int) {
    if w == 129 then -0x80 < b - a < 0x80 || (a == 0 && b == 0x80) else -0x80 <= b - a < 0x80
  }

  lemma StraightExactly(t: seq<int>, from: int, to: int, w: int)
    requires IsTable(t) && IsByte(from) && IsByte(to) && 2 <= w <= 129
    ensures Straight(t, Redrawn(t, from, Frames(t[from], Slope(t[from], t[to]), w, w - 1)), from, to, w)
       <==> Joins(t[from], t[to], w)
  {
    var a, b := t[from], t[to];
    var vs := Frames(a, Slope(a, b), w, w - 1);
    if w == 129 && Abs(b - a) == 0x80 {
      Longest(t, from, to);
    } else if -0x80 <= b - a < 0x80 {
      TransitionStraight(t, from, to, w);
    } else {
      FirstFrameOff(a, b, w);
      FramesAt(a, Slope(a, b), w, w - 1, 0);
      NotStraight(t, from, to, w, vs, 1);
    }
  }

  /** The greatest width, and values 128 apart. */
  lemma Longest(t: seq<int>, from: int, to: int)
    requires IsTable(t) && IsByte(from) && IsByte(to) && Abs(t[to] - t[from]) == 0x80
    ensures Straight(t, Redrawn(t, from, Frames(t[from], Slope(t[from], t[to]), 129, 128)), from, to, 129)
       <==> t[from] == 0 && t[to] == 0x80
  {
    var a, b := t[from], t[to];
    var vs := Frames(a, -0x80, 129, 128);
    assert Slope(a, b) == -0x80;
    forall k | 0 <= k < |vs| ensures vs[k] == a {
      Frozen(a, k);
      FramesAt(a, -0x80, 129, 128, k);
    }
    if a == 0 && b == 0x80 {
      IsStraight(t, from, to, 129, vs);
    } else {
      assert Wanted(a, b - a, 129, 2) != a;
      NotStraight(t, from, to, 129, vs, 2);
    }
  }

  lemma IsStraight(t: seq<int>, from: int, to: int, w: int, vs: seq<int>)
    requires IsTable(t) && IsByte(from) && IsByte(to) && 2 <= w <= 129 && |vs| == w - 1
    requires forall k :: 0 <= k < |vs| ==> vs[k] == Wanted(t[from], t[to] - t[from], w, k + 1)
    ensures Straight(t, Redrawn(t, from, vs), from, to, w)
  {
  }

  lemma NotStraight(t: seq<int>, from: int, to: int, w: int, vs: seq<int>, k: nat)
    requires IsTable(t) && IsByte(from) && IsByte(to) && 2 <= w <= 129
    requires 0 < k < w && k <= |vs| && vs[k - 1] != Wanted(t[from], t[to] - t[from], w, k)
    ensures !Straight(t, Redrawn(t, from, vs), from, to, w)
  {
    var i := (from + k) % BYTE;
    FrameNumber(from, k);
    assert Redrawn(t, from, vs)[i] == vs[k - 1];
  }

  lemma FrameNumber(frame: int, k: nat)
    requires IsByte(frame) && k < BYTE
    ensures ((frame + k) % BYTE - frame) % BYTE == k && IsByte((frame + k) % BYTE)
  {
  }

  /** Values further apart are joined the wrong way round: from 0 to 200 in two frames by way of 228. */
  lemma FarApart()
    ensures Slope(0, 200) == -56 && Drawn(0, Slope(0, 200), 2, 1) == 228 && Wanted(0, 200, 2, 1) == 100
  {
    assert PenAfter(0, -56, 2, 0) == Pen(0, 228);
  }

  /** The part of CreateTransitions that joins two phonemes in one table, whose boundary is at frame
      mem49: phase1 frames before it and phase2 after. */
  method Join(table: array<int>, mem49: int, phase1: int, phase2: int)
    requires table.Length == BYTE && IsTable(table[..]) && IsByte(mem49) && IsByte(phase1) && IsByte(phase2)
    modifies table
    ensures var w, from, to := (phase1 + phase2) % BYTE, (mem49 - phase1) % BYTE, (mem49 + phase2) % BYTE;
      Joined(old(table[..]), table[..], from, to, w)
  {
    var speedcounter := (mem49 + phase2) % BYTE;
    var phase3 := (mem49 - phase1) % BYTE;
    var transition := (phase1 + phase2) % BYTE;
    TransitionTest(transition);
    if (transition - 2) % BYTE < 0x80 {
      JoinFrames(table, transition, phase3, speedcounter);
    }
  }

  /** The test on bit 7. */
  lemma TransitionTest(w: int)
    requires IsByte(w)
    ensures (w - 2) % BYTE < 0x80 <==> 2 <= w <= 129
  {
  }

  method JoinFrames(table: array<int>, transition: int, phase3: int, speedcounter: int)
    requires table.Length == BYTE && IsTable(table[..]) && IsByte(phase3) && IsByte(speedcounter)
    requires 2 <= transition <= 129
    modifies table
    ensures Joined(old(table[..]), table[..], phase3, speedcounter, transition)
  {
    var value := ToChar(table[speedcounter] - table[phase3], true);
    SlopeIsChar(table[speedcounter] - table[phase3]);
    RedrawnJoins(table[..], phase3, speedcounter, transition);
    Interpolate(transition, table, phase3, value);
  }

  lemma SlopeIsChar(x: int)
    ensures IsChar(ToChar(x, true))
  {
  }

  /** Widths over 129, 0 and 1 leave the table alone. */
  ghost predicate Joined(t: seq<int>, u: seq<int>, from: int, to: int, w: int)
    requires |t| == |u| == BYTE && IsByte(from) && IsByte(to) && IsByte(w)
  {
    if 2 <= w <= 129 then
      && u == Redrawn(t, from, Frames(t[from], Slope(t[from], t[to]), w, w - 1))
      && (Straight(t, u, from, to, w) <==> Joins(t[from], t[to], w))
    else u == t
  }

  lemma RedrawnJoins(t: seq<int>, from: int, to: int, w: int)
    requires IsTable(t) && IsByte(from) && IsByte(to) && 2 <= w <= 129
    ensures Joined(t, Redrawn(t, from, Frames(t[from], Slope(t[from], t[to]), w, w - 1)), from, to, w)
  {
    StraightExactly(t, from, to, w);
  }
}
