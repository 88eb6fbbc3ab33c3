/** What the sequencer's effects come to, row by row (Apps/Modplayer/ptreplay.c). */
module SongPlay {
  import opened SongSpec

  // ---------- Rows without effects, and with one ----------

  /** A cell that does not steer the sequencer. */
  predicate Quiet(data: seq<int>, at: int)
    requires 0 <= at && at + 4 <= |data|
  {
    var c, x := data[at + 2] % 16, data[at + 3];
    c != 0xb && c != 0xd && c != 0xf && !(c == 0xe && (x / 16 == 6 || x / 16 == 0xe))
  }

  /** All cells of the row are quiet but perhaps cell k. */
  predicate QuietBut(data: seq<int>, at: int, k: int)
    requires 0 <= at && at + 16 <= |data|
  {
    forall j :: 0 <= j < CHANNELS && j != k ==> Quiet(data, at + 4 * j)
  }

  /** Voice k's effect alone, on the sequencer's variables. */
  function Effect(s: Song, k: nat, data: seq<int>, at: int, vblank: bool): Song
    requires k < CHANNELS == |s.chans| && 0 <= at && at + 16 <= |data|
  {
    PlayVoice(s, k, data, at + 4 * k, vblank)
  }

  /** Alike but for the channels. */
  predicate Alike(s: Song, t: Song) {
    s.(chans := t.chans) == t
  }

  lemma QuietVoice(s: Song, i: nat, data: seq<int>, at: int, vblank: bool)
    requires IsModule(data) && i < |s.chans| && 0 <= at && at + 4 <= |data| && Quiet(data, at)
    ensures Alike(s, PlayVoice(s, i, data, at, vblank))
  {
    CommandOf(data[at + 2], data[at + 3]);
  }

  lemma CommandOf(c: int, x: int)
    requires 0 <= x < 0x100
    ensures (c % 16 * 0x100 + x) / 0x100 == c % 16
  {
  }

  lemma {:induction false} QuietRow(s: Song, n: nat, data: seq<int>, at: int, vblank: bool)
    requires IsModule(data) && |s.chans| == CHANNELS && n <= CHANNELS && 0 <= at && at + 16 <= |data|
    requires forall j :: 0 <= j < n ==> Quiet(data, at + 4 * j)
    ensures Alike(s, PlayRow(s, n, data, at, vblank))
  {
    if n > 0 {
      QuietRow(s, n - 1, data, at, vblank);
      QuietVoice(PlayRow(s, n - 1, data, at, vblank), n - 1, data, at + 4 * (n - 1), vblank);
    }
  }

  /** Position jump, pattern break and delay do not depend on the channel's past. */
  lemma EffectAlike(s: Song, t: Song, k: nat, data: seq<int>, at: int, vblank: bool)
    requires IsModule(data) && k < CHANNELS == |s.chans| == |t.chans| && 0 <= at && at + 16 <= |data| && Alike(s, t)
    requires data[at + 4 * k + 2] % 16 == 0xe ==> data[at + 4 * k + 3] / 16 != 6
    ensures Alike(Effect(s, k, data, at, vblank), Effect(t, k, data, at, vblank))
  {
    CommandOf(data[at + 4 * k + 2], data[at + 4 * k + 3]);
  }

  lemma OneEffect(s: Song, k: nat, n: nat, data: seq<int>, at: int, vblank: bool)
    requires IsModule(data) && |s.chans| == CHANNELS && k < n <= CHANNELS && 0 <= at && at + 16 <= |data|
    requires QuietBut(data, at, k) && (data[at + 4 * k + 2] % 16 == 0xe ==> data[at + 4 * k + 3] / 16 != 6)
    ensures Alike(Effect(s, k, data, at, vblank), PlayRow(s, n, data, at, vblank))
  {
    OneEffectBelow(s, k, n, data, at, vblank);
  }

  /** The same of the first n voices, whatever the others do. */
  lemma {:induction false} OneEffectBelow(s: Song, k: nat, n: nat, data: seq<int>, at: int, vblank: bool)
    requires IsModule(data) && |s.chans| == CHANNELS && k < n <= CHANNELS && 0 <= at && at + 16 <= |data|
    requires forall j :: 0 <= j < n && j != k ==> Quiet(data, at + 4 * j)
    requires data[at + 4 * k + 2] % 16 == 0xe ==> data[at + 4 * k + 3] / 16 != 6
    ensures Alike(Effect(s, k, data, at, vblank), PlayRow(s, n, data, at, vblank))
  {
    hide PlayVoice, Quiet;
    if n - 1 == k {
      QuietRow(s, k, data, at, vblank);
      EffectAlike(s, PlayRow(s, k, data, at, vblank), k, data, at, vblank);
    } else {
      OneEffectBelow(s, k, n - 1, data, at, vblank);
      QuietVoice(PlayRow(s, n - 1, data, at, vblank), n - 1, data, at + 4 * (n - 1), vblank);
    }
  }

  /** With two voices that are not quiet, the second goes on from what the first has done. */
  lemma {:induction false} TwoEffects(s: Song, i: nat, k: nat, n: nat, data: seq<int>, at: int, vblank: bool)
    requires IsModule(data) && |s.chans| == CHANNELS && i < k < n <= CHANNELS && 0 <= at && at + 16 <= |data|
    requires forall j :: 0 <= j < n && j != i && j != k ==> Quiet(data, at + 4 * j)
    requires data[at + 4 * i + 2] % 16 == 0xe ==> data[at + 4 * i + 3] / 16 != 6
    requires data[at + 4 * k + 2] % 16 == 0xe ==> data[at + 4 * k + 3] / 16 != 6
    ensures |Effect(s, i, data, at, vblank).chans| == CHANNELS
    ensures Alike(Effect(Effect(s, i, data, at, vblank), k, data, at, vblank), PlayRow(s, n, data, at, vblank))
  {
    hide PlayVoice, Quiet;
    EffectChans(s, i, data, at, vblank);
    if n - 1 == k {
      OneEffectBelow(s, i, k, data, at, vblank);
      EffectAlike(Effect(s, i, data, at, vblank), PlayRow(s, k, data, at, vblank), k, data, at, vblank);
    } else {
      TwoEffects(s, i, k, n - 1, data, at, vblank);
      QuietVoice(PlayRow(s, n - 1, data, at, vblank), n - 1, data, at + 4 * (n - 1), vblank);
    }
  }

  lemma EffectChans(s: Song, k: nat, data: seq<int>, at: int, vblank: bool)
    requires k < CHANNELS == |s.chans| && 0 <= at && at + 16 <= |data|
    ensures |Effect(s, k, data, at, vblank).chans| == CHANNELS
  {
  }

  /** The next tick plays a row. (RowInside has the bounds from the rest.) */
  ghost predicate PlaysRow(s: Song, data: seq<int>) {
    && IsModule(data) && Steady(s, data) && s.counter + 1 >= s.speed && s.delTime2 == 0
    && 0 <= RowAt(s, data) <= |data| - 16
  }

  lemma RowsArePlayed(s: Song, data: seq<int>)
    requires IsModule(data) && Steady(s, data) && s.counter + 1 >= s.speed && s.delTime2 == 0
    ensures PlaysRow(s, data)
  {
    RowInside(s, data);
  }

  /** The command and the parameter of voice k's cell in the row to be played. */
  function Command(s: Song, k: nat, data: seq<int>): int
    requires k < CHANNELS && |data| >= PATTERNS_AT && 0 <= s.songPos < 128 && 0 <= RowAt(s, data) <= |data| - 16
  {
    data[RowAt(s, data) + 4 * k + 2] % 16
  }

  function Parameter(s: Song, k: nat, data: seq<int>): int
    requires k < CHANNELS && |data| >= PATTERNS_AT && 0 <= s.songPos < 128 && 0 <= RowAt(s, data) <= |data| - 16
  {
    data[RowAt(s, data) + 4 * k + 3]
  }

  /** The position after this one. */
  function Following(p: int, data: seq<int>): int
    requires |data| >= PATTERNS_AT
  {
    if (p + 1) % 0x80 >= data[LENGTH_AT] then 0 else (p + 1) % 0x80
  }

  /** Without effects the rows of a pattern follow one another, and then the next position does. */
  lemma PlainRow(s: Song, data: seq<int>, vblank: bool)
    requires PlaysRow(s, data) && QuietBut(data, RowAt(s, data), -1)
    ensures var t := Tick(s, data, vblank);
      && t.counter == 0 && t.speed == s.speed
      && t.patternPos == (if s.patternPos == 1008 then 0 else s.patternPos + 16)
      && t.songPos == (if s.patternPos == 1008 then Following(s.songPos, data) else s.songPos)
  {
    QuietRow(s.(counter := 0), CHANNELS, data, RowAt(s, data), vblank);
  }

  /** Bxx alone: the first row of position xx, or of the song's first when there is no such. */
  lemma JumpRow(s: Song, k: nat, data: seq<int>, vblank: bool)
    requires PlaysRow(s, data) && k < CHANNELS
    requires QuietBut(data, RowAt(s, data), k) && Command(s, k, data) == 0xb
    ensures var t, x := Tick(s, data, vblank), Parameter(s, k, data);
      t.patternPos == 0 && t.songPos == if x % 0x80 >= data[LENGTH_AT] then 0 else x % 0x80
  {
    hide PlayRow, QuietBut, CheckRow;
    var at := RowAt(s, data);
    CommandOf(data[at + 4 * k + 2], data[at + 4 * k + 3]);
    OneEffect(s.(counter := 0), k, CHANNELS, data, at, vblank);
  }

  /** Dxy alone: row 10 * x + y of the following position, or its first when there is no such row. */
  lemma BreakTo(s: Song, k: nat, data: seq<int>, vblank: bool)
    requires PlaysRow(s, data) && k < CHANNELS
    requires QuietBut(data, RowAt(s, data), k) && Command(s, k, data) == 0xd
    ensures var t, x := Tick(s, data, vblank), Parameter(s, k, data);
      && t.songPos == Following(s.songPos, data)
      && t.patternPos / 16 == (if x / 16 * 10 + x % 16 < 64 then x / 16 * 10 + x % 16 else 0)
  {
    hide PlayRow, BreakRow, QuietBut, CheckRow;
    var at := RowAt(s, data);
    CommandOf(data[at + 4 * k + 2], data[at + 4 * k + 3]);
    BreakRowIs(data[at + 4 * k + 3]);
    OneEffect(s.(counter := 0), k, CHANNELS, data, at, vblank);
  }

  /** Fxx alone: the rows that follow take xx ticks, up to 31, or any number when there is no timer for the
      tempo; 0 changes nothing. The row itself is like one without effects. */
  lemma SpeedRow(s: Song, k: nat, data: seq<int>, vblank: bool)
    requires PlaysRow(s, data) && k < CHANNELS
    requires QuietBut(data, RowAt(s, data), k) && Command(s, k, data) == 0xf
    ensures var t, x := Tick(s, data, vblank), Parameter(s, k, data);
      && t.counter == 0 && t.speed == (if x == 0 || (x >= 32 && !vblank) then s.speed else x)
      && t.patternPos == (if s.patternPos == 1008 then 0 else s.patternPos + 16)
      && t.songPos == (if s.patternPos == 1008 then Following(s.songPos, data) else s.songPos) && t.delTime2 == 0
  {
    hide PlayRow, QuietBut, CheckRow;
    var at := RowAt(s, data);
    CommandOf(data[at + 4 * k + 2], data[at + 4 * k + 3]);
    OneEffect(s.(counter := 0), k, CHANNELS, data, at, vblank);
  }

  /** Bxx and Dyz in one row: position xx either way, and row 10 * y + z of it when Dyz comes on a later channel, but
      row 0 when Bxx does. */
  lemma JumpAndBreak(s: Song, j: nat, k: nat, data: seq<int>, vblank: bool)
    requires PlaysRow(s, data) && j < CHANNELS && k < CHANNELS && j != k
    requires forall i :: 0 <= i < CHANNELS && i != j && i != k ==> Quiet(data, RowAt(s, data) + 4 * i)
    requires Command(s, j, data) == 0xb && Command(s, k, data) == 0xd
    ensures var t, x, y := Tick(s, data, vblank), Parameter(s, j, data), Parameter(s, k, data);
      && t.songPos == (if x % 0x80 >= data[LENGTH_AT] then 0 else x % 0x80)
      && t.patternPos / 16 == (if j < k && y / 16 * 10 + y % 16 < 64 then y / 16 * 10 + y % 16 else 0)
  {
    hide PlayRow, PlayVoice, Quiet, CheckRow, BreakRow, DSkip;
    var at, u := RowAt(s, data), s.(counter := 0);
    BreakRowIs(data[at + 4 * k + 3]);
    if j < k {
      JumpThenBreak(u, j, k, data, at, vblank);
    } else {
      BreakThenJump(u, j, k, data, at, vblank);
    }
    JumpedSkip(PlayRow(u, CHANNELS, data, at, vblank), data[at + 4 * j + 3], data);
  }

  lemma JumpThenBreak(s: Song, j: nat, k: nat, data: seq<int>, at: int, vblank: bool)
    requires IsModule(data) && |s.chans| == CHANNELS && j < k < CHANNELS && 0 <= at && at + 16 <= |data|
    requires forall i :: 0 <= i < CHANNELS && i != j && i != k ==> Quiet(data, at + 4 * i)
    requires data[at + 4 * j + 2] % 16 == 0xb && data[at + 4 * k + 2] % 16 == 0xd
    ensures Alike(s.(songPos := data[at + 4 * j + 3] - 1, breakPos := BreakRow(data[at + 4 * k + 3]), posJump := true),
                  PlayRow(s, CHANNELS, data, at, vblank))
  {
    hide PlayRow, Quiet, BreakRow;
    CommandOf(data[at + 4 * j + 2], data[at + 4 * j + 3]);
    CommandOf(data[at + 4 * k + 2], data[at + 4 * k + 3]);
    TwoEffects(s, j, k, CHANNELS, data, at, vblank);
  }

  lemma BreakThenJump(s: Song, j: nat, k: nat, data: seq<int>, at: int, vblank: bool)
    requires IsModule(data) && |s.chans| == CHANNELS && k < j < CHANNELS && 0 <= at && at + 16 <= |data|
    requires forall i :: 0 <= i < CHANNELS && i != j && i != k ==> Quiet(data, at + 4 * i)
    requires data[at + 4 * j + 2] % 16 == 0xb && data[at + 4 * k + 2] % 16 == 0xd
    ensures Alike(s.(songPos := data[at + 4 * j + 3] - 1, breakPos := 0, posJump := true),
                  PlayRow(s, CHANNELS, data, at, vblank))
  {
    hide PlayRow, Quiet, BreakRow;
    CommandOf(data[at + 4 * j + 2], data[at + 4 * j + 3]);
    CommandOf(data[at + 4 * k + 2], data[at + 4 * k + 3]);
    TwoEffects(s, k, j, CHANNELS, data, at, vblank);
  }

  /** What the end of a row makes of a jump to position x. */
  lemma JumpedSkip(t: Song, x: int, data: seq<int>)
    requires |data| >= PATTERNS_AT && t.posJump && t.songPos == x - 1 && !t.breakFlag
    ensures var u := DSkip(t, data);
      u.patternPos == t.breakPos * 16 && u.songPos == if x % 0x80 >= data[LENGTH_AT] then 0 else x % 0x80
  {
  }

  lemma BreakRowIs(x: int)
    requires 0 <= x < 0x100
    ensures BreakRow(x) * 16 / 16 == (if x / 16 * 10 + x % 16 < 64 then x / 16 * 10 + x % 16 else 0)
    ensures 0 <= BreakRow(x) < 64
  {
  }

  // ---------- Delay ----------

  /** EEx alone: the row is held, and x more row times are owed. */
  lemma DelayRow(s: Song, k: nat, data: seq<int>, vblank: bool)
    requires PlaysRow(s, data) && k < CHANNELS
    requires QuietBut(data, RowAt(s, data), k) && Command(s, k, data) == 0xe
    requires Parameter(s, k, data) / 16 == 0xe && Parameter(s, k, data) % 16 > 0
    ensures var t := Tick(s, data, vblank);
      && t.delTime2 == Parameter(s, k, data) % 16 && t.patternPos == s.patternPos && t.songPos == s.songPos
      && t.counter == 0 && t.speed == s.speed
  {
    var at := RowAt(s, data);
    CommandOf(data[at + 4 * k + 2], data[at + 4 * k + 3]);
    OneEffect(s.(counter := 0), k, CHANNELS, data, at, vblank);
  }

  /** No channel is set to loop. */
  ghost predicate NoLoops(s: Song) {
    forall i :: 0 <= i < |s.chans| ==> !(s.chans[i].cmd / 0x100 == 0xe && s.chans[i].cmdlo / 16 == 6)
  }

  lemma {:induction false} CheckQuiet(s: Song, n: nat)
    requires |s.chans| == CHANNELS && n <= CHANNELS && NoLoops(s) && s.delTime2 > 0
    ensures CheckRow(s, n) == s
  {
    if n > 0 {
      CheckQuiet(s, n - 1);
    }
  }

  /** The state after n more row times of a held row. */
  function Held(s: Song, n: nat, data: seq<int>): (t: Song)
    requires |data| >= PATTERNS_AT && |s.chans| == CHANNELS
    ensures |t.chans| == CHANNELS
  {
    if n == 0 then s else DSkip(CheckRow(Held(s, n - 1, data), CHANNELS), data)
  }

  /** A row that owes n row times is left exactly when they are over. */
  lemma {:induction false} HeldFor(s: Song, n: nat, data: seq<int>)
    requires |data| >= PATTERNS_AT && Steady(s, data) && NoLoops(s) && n <= s.delTime2
    ensures var t := Held(s, n, data); NoLoops(t) && Steady(t, data) && t.delTime2 == s.delTime2 - n
    ensures var t := Held(s, n, data);
      if n < s.delTime2 || n == 0 then t.patternPos == s.patternPos && t.songPos == s.songPos
      else
        && t.patternPos == (if s.patternPos == 1008 then 0 else s.patternPos + 16)
        && t.songPos == (if s.patternPos == 1008 then Following(s.songPos, data) else s.songPos)
  {
    if n > 0 {
      HeldFor(s, n - 1, data);
      HeldOnce(Held(s, n - 1, data), data);
    }
  }

  lemma HeldOnce(t: Song, data: seq<int>)
    requires |data| >= PATTERNS_AT && Steady(t, data) && NoLoops(t) && t.delTime2 > 0
    ensures var u := DSkip(CheckRow(t, CHANNELS), data);
      && NoLoops(u) && Steady(u, data) && u.delTime2 == t.delTime2 - 1
      && u.patternPos == (if u.delTime2 > 0 then t.patternPos
                          else if t.patternPos == 1008 then 0 else t.patternPos + 16)
      && u.songPos == (if u.delTime2 == 0 && t.patternPos == 1008 then Following(t.songPos, data) else t.songPos)
  {
    CheckQuiet(t, CHANNELS);
  }

  // ---------- Loops ----------

  /** The loop counter of a channel after k visits to an E6x, first with none under way. */
  function Visits(x: int, k: nat): int {
    if k == 0 then 0 else LoopCount(Visits(x, k - 1), x)
  }

  /** Does the k-th visit jump back? */
  predicate JumpsBack(x: int, k: nat)
    requires k > 0
  {
    !(Visits(x, k - 1) > 0 && Visits(x, k) == 0)
  }

  /** E6x jumps back x times and then goes on, ready for the next time. */
  lemma {:induction false} LoopsExactly(x: int, k: nat)
    requires 0 < x && 0 < k <= x + 1
    ensures Visits(x, k) == x + 1 - k && (JumpsBack(x, k) <==> k <= x)
  {
    if k > 1 {
      LoopsExactly(x, k - 1);
    }
  }

  /** And that is what JumpLoop does on a row's first tick. */
  lemma LoopVisit(s: Song, i: nat, k: nat)
    requires i < |s.chans| && s.counter == 0 && k > 0
    requires var c := s.chans[i];
      c.cmdlo % 16 > 0 && k <= c.cmdlo % 16 + 1 && c.loopcount == Visits(c.cmdlo % 16, k - 1)
    ensures var c, t := s.chans[i], JumpLoop(s, i); var x := c.cmdlo % 16;
      && t.chans[i].loopcount == Visits(x, k)
      && (if k <= x then t.breakFlag && t.breakPos == c.pattpos
         else t.breakFlag == s.breakFlag && t.breakPos == s.breakPos)
  {
    LoopsExactly(s.chans[i].cmdlo % 16, k);
    if k > 1 {
      LoopsExactly(s.chans[i].cmdlo % 16, k - 1);
    }
  }
}
