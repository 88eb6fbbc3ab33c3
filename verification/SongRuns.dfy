/** Row times of the ProTracker player in ticks, and how often and for how long rows are played
    (Apps/Modplayer/ptreplay.c). */
module SongRuns {
  import opened Words
  import opened SongSpec
  import opened SongPlay

  // ---------- Runs and row times ----------

  predicate Moment(n: nat) {
    true
  }

  /** The player, tick by tick. (Moment says which tick is asked about.) */
  ghost predicate IsRun(run: nat -> Song, data: seq<int>, vblank: bool)
    requires IsModule(data)
  {
    forall n: nat {:trigger Moment(n)} :: Moment(n) ==> Steady(run(n), data) && run(n + 1) == Tick(run(n), data, vblank)
  }

  lemma RunOf(s: Song, data: seq<int>, vblank: bool) returns (run: nat -> Song)
    requires IsModule(data) && Steady(s, data)
    ensures IsRun(run, data, vblank) && run(0) == s && forall n :: run(n) == Ticks(s, n, data, vblank)
  {
    run := (n: nat) => Ticks(s, n, data, vblank);
    forall n: nat | Moment(n) ensures Steady(run(n), data) && run(n + 1) == Tick(run(n), data, vblank) {
    }
  }

  /** Between rows no effect steers the sequencer. */
  lemma {:induction false} EffectsWait(s: Song, n: nat)
    requires |s.chans| == CHANNELS && n <= CHANNELS && s.counter != 0
    ensures CheckRow(s, n) == s
  {
    if n > 0 {
      EffectsWait(s, n - 1);
    }
  }

  lemma OffTick(s: Song, data: seq<int>, vblank: bool)
    requires IsModule(data) && Steady(s, data) && s.counter + 1 < s.speed
    ensures Tick(s, data, vblank) == s.(counter := s.counter + 1)
  {
    EffectsWait(s.(counter := s.counter + 1), CHANNELS);
  }

  /** Ticks that are not the last of a row time only count. */
  lemma {:induction false} OffTicks(run: nat -> Song, m: nat, n: nat, data: seq<int>, vblank: bool)
    requires IsModule(data) && IsRun(run, data, vblank) && run(m).counter == 0 && n < run(m).speed
    ensures run(m + n) == run(m).(counter := n)
  {
    hide CheckRow;
    assert Moment(m + n);
    if n > 0 {
      assert Moment(m + n - 1);
      OffTicks(run, m, n - 1, data, vblank);
      OffTick(run(m + n - 1), data, vblank);
    }
  }

  /** One row time, from the tick after a row to the next. */
  ghost function Row(s: Song, data: seq<int>, vblank: bool): (t: Song)
    requires IsModule(data) && Steady(s, data)
    ensures Steady(t, data)
  {
    TickKeeps(s.(counter := s.speed - 1), data, vblank);
    Tick(s.(counter := s.speed - 1), data, vblank)
  }

  /** It takes as many ticks as the speed says. */
  lemma RowTakes(run: nat -> Song, m: nat, data: seq<int>, vblank: bool)
    requires IsModule(data) && IsRun(run, data, vblank) && run(m).counter == 0 && Steady(run(m), data)
    ensures run(m + run(m).speed) == Row(run(m), data, vblank)
  {
    var n := run(m).speed - 1;
    OffTicks(run, m, n, data, vblank);
    assert Moment(m + n);
  }

  /** The speed is what it was, and a row time is over. */
  predicate InTime(s: Song, t: Song) {
    t.speed == s.speed && t.counter == 0
  }

  /** n times x, by adding up. */
  function Times(x: nat, n: nat): nat {
    if n == 0 then 0 else Times(x, n - 1) + x
  }

  lemma {:induction false} TimesIs(x: nat, n: nat)
    ensures Times(x, n) == n * x
  {
    if n > 0 {
      TimesIs(x, n - 1);
      assert (n - 1) * x + x == n * x;
    }
  }

  // ---------- A row, one voice at a time ----------

  /** A row is about to be played, not held. */
  ghost predicate Due(s: Song, data: seq<int>)
    requires |data| >= PATTERNS_AT
  {
    Steady(s, data) && s.counter == 0 && s.delTime2 == 0
  }

  lemma RowIs(s: Song, data: seq<int>, vblank: bool)
    requires IsModule(data) && Due(s, data)
    ensures 0 <= RowAt(s, data) <= |data| - 16
    ensures Row(s, data, vblank) == DSkip(PlayRow(s, CHANNELS, data, RowAt(s, data), vblank), data)
  {
    var t := s.(counter := s.speed - 1);
    RowsArePlayed(t, data);
    assert t.(counter := 0) == s;
  }

  /** Alike but for the channels, and channel k the same. */
  predicate SameVoice(s: Song, t: Song, k: nat) {
    Alike(s, t) && k < |s.chans| == |t.chans| && s.chans[k] == t.chans[k]
  }

  lemma OtherVoice(s: Song, i: nat, k: nat, data: seq<int>, at: int, vblank: bool)
    requires IsModule(data) && i < |s.chans| && k < |s.chans| && i != k && 0 <= at && at + 4 <= |data|
    requires Quiet(data, at)
    ensures SameVoice(s, PlayVoice(s, i, data, at, vblank), k)
  {
    CommandOf(data[at + 2], data[at + 3]);
  }

  /** An effect depends on no other channel. */
  lemma OwnVoice(s: Song, t: Song, k: nat, data: seq<int>, at: int, vblank: bool)
    requires IsModule(data) && SameVoice(s, t, k) && 0 <= at && at + 4 <= |data|
    ensures SameVoice(PlayVoice(s, k, data, at, vblank), PlayVoice(t, k, data, at, vblank), k)
  {
  }

  /** A row with at most one effect does what that voice does by itself. */
  lemma {:induction false} OneVoice(s: Song, k: nat, n: nat, data: seq<int>, at: int, vblank: bool)
    requires IsModule(data) && |s.chans| == CHANNELS && k < CHANNELS && n <= CHANNELS && 0 <= at && at + 16 <= |data|
    requires QuietBut(data, at, k)
    ensures n <= k ==> SameVoice(s, PlayRow(s, n, data, at, vblank), k)
    ensures n > k ==> SameVoice(Effect(s, k, data, at, vblank), PlayRow(s, n, data, at, vblank), k)
  {
    hide PlayVoice;
    if n > 0 {
      var t := PlayRow(s, n - 1, data, at, vblank);
      OneVoice(s, k, n - 1, data, at, vblank);
      if n - 1 == k {
        OwnVoice(s, t, k, data, at + 4 * k, vblank);
      } else if n - 1 < k {
        OtherVoiceToo(s, t, n - 1, k, data, at + 4 * (n - 1), vblank);
      } else {
        OtherVoiceToo(Effect(s, k, data, at, vblank), t, n - 1, k, data, at + 4 * (n - 1), vblank);
      }
    }
  }

  lemma OtherVoiceToo(s: Song, t: Song, i: nat, k: nat, data: seq<int>, at: int, vblank: bool)
    requires IsModule(data) && SameVoice(s, t, k) && i < |t.chans| && i != k && 0 <= at && at + 4 <= |data|
    requires Quiet(data, at)
    ensures SameVoice(s, PlayVoice(t, i, data, at, vblank), k)
  {
    OtherVoice(t, i, k, data, at, vblank);
  }

  // ---------- Loops ----------

  /** E60 at row a and E6x at row b of the pattern at position p, on channel k; no other effect that
      matters from row a to row b. */
  datatype Loop = Loop(p: int, k: nat, a: int, b: int, x: int) {
    function At(data: seq<int>, row: int): int
      requires |data| >= PATTERNS_AT && 0 <= p < 128
    {
      PATTERNS_AT + data[ORDER_AT + p] * 1024 + 16 * row
    }

    ghost predicate Written(data: seq<int>)
      requires IsModule(data)
    {
      && 0 <= p < 128 && k < CHANNELS && 0 <= a < b < 64 && 0 < x < 16
      && forall row :: a <= row <= b ==> RowFits(data, row)
    }

    ghost predicate RowFits(data: seq<int>, row: int)
      requires IsModule(data) && 0 <= p < 128 && k < CHANNELS
    {
      var at := At(data, row);
      && 0 <= at <= |data| - 16
      && if row == a then QuietBut(data, at, k) && IsLoopCell(data, at, 0)
         else if row == b then QuietBut(data, at, k) && IsLoopCell(data, at, x)
         else QuietBut(data, at, -1)
    }

    predicate IsLoopCell(data: seq<int>, at: int, y: int)
      requires k < CHANNELS && 0 <= at <= |data| - 16
    {
      data[at + 4 * k + 2] % 16 == 0xe && data[at + 4 * k + 3] == 0x60 + y
    }

    function Length(): int {
      b - a + 1
    }

    /** Row a + j is about to be played for the (i + 1)-th time. */
    ghost predicate Stage(s: Song, t: Song, i: nat, j: int, data: seq<int>)
      requires |data| >= PATTERNS_AT && k < CHANNELS
    {
      && Due(t, data) && InTime(s, t) && t.songPos == p && t.patternPos == 16 * (a + j)
      && t.chans[k].loopcount == Visits(x, i) && (j > 0 ==> t.chans[k].pattpos == a)
    }

    /** The loop is over: on to the next row, and the count is ready for another time. */
    ghost predicate Over(s: Song, t: Song, data: seq<int>)
      requires |data| >= PATTERNS_AT && k < CHANNELS
    {
      && Due(t, data) && InTime(s, t) && t.chans[k].loopcount == 0
      && t.patternPos == (if b == 63 then 0 else 16 * (b + 1))
      && t.songPos == (if b == 63 then Following(p, data) else p)
    }

    /** A row of the loop that is not its last. */
    lemma StageOn(s: Song, t: Song, i: nat, j: int, data: seq<int>, vblank: bool)
      requires IsModule(data) && Written(data) && Stage(s, t, i, j, data) && 0 <= j < b - a
      ensures Stage(s, Row(t, data, vblank), i, j + 1, data)
    {
      var at := At(data, a + j);
      assert RowFits(data, a + j) && RowAt(t, data) == at;
      RowIs(t, data, vblank);
      PassRow(t, j == 0, data, at, vblank);
    }

    /** A row that may mark the start of the loop, before the end of the row. */
    lemma PassRow(t: Song, first: bool, data: seq<int>, at: int, vblank: bool)
      requires IsModule(data) && k < CHANNELS && 0 <= at <= |data| - 16 && Due(t, data)
      requires if first then QuietBut(data, at, k) && IsLoopCell(data, at, 0) else QuietBut(data, at, -1)
      ensures var u := PlayRow(t, CHANNELS, data, at, vblank);
        && |u.chans| == CHANNELS && u.(chans := t.chans) == t && u.chans[k].loopcount == t.chans[k].loopcount
        && u.chans[k].pattpos == if first then t.patternPos / 16 else t.chans[k].pattpos
    {
      CommandOf(data[at + 4 * k + 2], data[at + 4 * k + 3]);
      OneVoice(t, k, CHANNELS, data, at, vblank);
    }

    /** The last row: back to the first, or on. */
    lemma StageEnd(s: Song, t: Song, i: nat, data: seq<int>, vblank: bool)
      requires IsModule(data) && Written(data) && Stage(s, t, i, b - a, data) && i <= x
      ensures i < x ==> Stage(s, Row(t, data, vblank), i + 1, 0, data)
      ensures i == x ==> Over(s, Row(t, data, vblank), data)
    {
      var at := At(data, b);
      assert RowFits(data, b) && RowAt(t, data) == at;
      RowIs(t, data, vblank);
      LoopRow(t, i, data, at, vblank);
    }

    /** The row with E6x itself, before the end of the row. */
    lemma LoopRow(t: Song, i: nat, data: seq<int>, at: int, vblank: bool)
      requires IsModule(data) && 0 < x < 16 && k < CHANNELS && 0 <= at <= |data| - 16 && i <= x
      requires QuietBut(data, at, k) && IsLoopCell(data, at, x)
      requires Due(t, data) && t.chans[k].loopcount == Visits(x, i)
      ensures var u := PlayRow(t, CHANNELS, data, at, vblank);
        && |u.chans| == CHANNELS && u.chans[k].loopcount == Visits(x, i + 1) == x - i
        && u.(chans := t.chans) == if i < x then t.(breakFlag := true, breakPos := t.chans[k].pattpos) else t
    {
      LoopCell(t, i, data, at, vblank);
      OneVoice(t, k, CHANNELS, data, at, vblank);
    }

    lemma LoopCell(t: Song, i: nat, data: seq<int>, at: int, vblank: bool)
      requires IsModule(data) && 0 < x < 16 && k < CHANNELS && 0 <= at <= |data| - 16 && i <= x
      requires IsLoopCell(data, at, x) && Due(t, data) && t.chans[k].loopcount == Visits(x, i)
      ensures var u := Effect(t, k, data, at, vblank);
        && |u.chans| == CHANNELS && u.chans[k].loopcount == Visits(x, i + 1) == x - i
        && u.(chans := t.chans) == if i < x then t.(breakFlag := true, breakPos := t.chans[k].pattpos) else t
    {
      CommandOf(data[at + 4 * k + 2], data[at + 4 * k + 3]);
      var u := t.(chans := t.chans[k := Fetch(t.chans[k], data, at + 4 * k)]);
      assert Effect(t, k, data, at, vblank) == JumpLoop(u, k);
      LoopVisit(u, k, i + 1);
      LoopsExactly(x, i + 1);
    }

    /** One row time later. */
    lemma StageLater(run: nat -> Song, m: nat, i: nat, j: int, data: seq<int>, vblank: bool)
      requires IsModule(data) && Written(data) && IsRun(run, data, vblank) && Stage(run(0), run(m), i, j, data)
      requires 0 <= j <= b - a && i <= x
      ensures var t := run(m + run(0).speed);
        if j < b - a then Stage(run(0), t, i, j + 1, data)
        else if i < x then Stage(run(0), t, i + 1, 0, data)
        else Over(run(0), t, data)
    {
      RowTakes(run, m, data, vblank);
      if j < b - a {
        StageOn(run(0), run(m), i, j, data, vblank);
      } else {
        StageEnd(run(0), run(m), i, data, vblank);
      }
    }

    /** i rounds of the loop and j rows. */
    function RowsBy(i: nat, j: nat): nat
      requires Length() >= 0
    {
      Times(Length(), i) + j
    }

    /** The rows of the loop are played in turn, each of them x + 1 times. */
    lemma {:induction false} LoopStage(run: nat -> Song, i: nat, j: nat, data: seq<int>, vblank: bool)
      requires IsModule(data) && Written(data) && IsRun(run, data, vblank) && Stage(run(0), run(0), 0, 0, data)
      requires i <= x && j < Length()
      ensures Stage(run(0), run(Times(run(0).speed, RowsBy(i, j))), i, j, data)
      decreases i, j
    {
      if j > 0 {
        LoopStage(run, i, j - 1, data, vblank);
        StageLater(run, Times(run(0).speed, RowsBy(i, j - 1)), i, j - 1, data, vblank);
      } else if i > 0 {
        LoopStage(run, i - 1, b - a, data, vblank);
        StageLater(run, Times(run(0).speed, RowsBy(i - 1, b - a)), i - 1, b - a, data, vblank);
      }
    }

    /** How often a row is played in i rounds and j rows more. */
    lemma {:induction false} PlayedSoFar(run: nat -> Song, row: int, i: nat, j: nat, data: seq<int>, vblank: bool)
      requires IsModule(data) && Written(data) && IsRun(run, data, vblank) && Stage(run(0), run(0), 0, 0, data)
      requires a <= row <= b && i <= x && j <= Length()
      ensures Played(run, row, RowsBy(i, j)) == i + if row - a < j then 1 else 0
      decreases i, j
    {
      if j > 0 {
        PlayedSoFar(run, row, i, j - 1, data, vblank);
        LoopStage(run, i, j - 1, data, vblank);
      } else if i > 0 {
        PlayedSoFar(run, row, i - 1, Length(), data, vblank);
      }
    }

    /** From where row a is first due with no loop under way, each row from a to b is played exactly x + 1
        times, and then the player goes on. */
    lemma LoopPlays(run: nat -> Song, row: int, data: seq<int>, vblank: bool)
      requires IsModule(data) && Written(data) && a <= row <= b && IsRun(run, data, vblank)
      requires Due(run(0), data) && run(0).songPos == p && run(0).patternPos == 16 * a && run(0).chans[k].loopcount == 0
      ensures var n := (x + 1) * Length(); Played(run, row, n) == x + 1 && Over(run(0), run(n * run(0).speed), data)
    {
      PlayedSoFar(run, row, x, Length(), data, vblank);
      LoopEnds(run, data, vblank);
      TimesIs(Length(), x + 1);
      TimesIs(run(0).speed, (x + 1) * Length());
    }

    lemma LoopEnds(run: nat -> Song, data: seq<int>, vblank: bool)
      requires IsModule(data) && Written(data) && IsRun(run, data, vblank) && Stage(run(0), run(0), 0, 0, data)
      ensures Over(run(0), run(Times(run(0).speed, Times(Length(), x + 1))), data)
    {
      LoopStage(run, x, b - a, data, vblank);
      StageLater(run, Times(run(0).speed, RowsBy(x, b - a)), x, b - a, data, vblank);
    }
  }

  /** In how many of the first n row times a row is due, the speed staying what it is. */
  ghost function Played(run: nat -> Song, row: int, n: nat): nat
    requires run(0).speed >= 0
  {
    if n == 0 then 0
    else Played(run, row, n - 1) + if run(Times(run(0).speed, n - 1)).patternPos == 16 * row then 1 else 0
  }

  // ---------- Speed ----------

  /** Fxx alone in the row that is due: once that row time is over, the next takes as many ticks as xx says. */
  lemma SpeedLasts(run: nat -> Song, k: nat, data: seq<int>, vblank: bool)
    requires IsModule(data) && IsRun(run, data, vblank) && Due(run(0), data) && k < CHANNELS
    requires 0 <= RowAt(run(0), data) <= |data| - 16
    requires QuietBut(data, RowAt(run(0), data), k) && Command(run(0), k, data) == 0xf
    ensures var n, x := run(0).speed, Parameter(run(0), k, data);
      var m := if x == 0 || (x >= 32 && !vblank) then n else x;
      && Due(run(n), data) && run(n).speed == m && run(n + m) == Row(run(n), data, vblank)
      && forall i: nat :: i < m ==> run(n + i) == run(n).(counter := i)
  {
    hide Tick, QuietBut, CheckRow, PlayRow;
    var s := run(0);
    RowTakes(run, 0, data, vblank);
    var t := s.(counter := s.speed - 1);
    RowsArePlayed(t, data);
    SpeedRow(t, k, data, vblank);
    var n, m := s.speed, run(s.speed).speed;
    RowTakes(run, n, data, vblank);
    forall i: nat | i < m ensures run(n + i) == run(n).(counter := i) {
      OffTicks(run, n, i, data, vblank);
    }
  }

  // ---------- Delay ----------

  /** The cells of a row are what its voices have been given. */
  lemma {:induction false} RowFetched(s: Song, n: nat, j: nat, data: seq<int>, at: int, vblank: bool)
    requires IsModule(data) && |s.chans| == CHANNELS && j < n <= CHANNELS && 0 <= at && at + 16 <= |data|
    ensures var c := PlayRow(s, n, data, at, vblank).chans[j];
      c.cmd == data[at + 4 * j + 2] % 16 * 0x100 + data[at + 4 * j + 3] && c.cmdlo == data[at + 4 * j + 3]
  {
    hide PlayVoice;
    if j < n - 1 {
      RowFetched(s, n - 1, j, data, at, vblank);
      OtherCommand(PlayRow(s, n - 1, data, at, vblank), n - 1, j, data, at + 4 * (n - 1), vblank);
    } else {
      OwnCommand(PlayRow(s, j, data, at, vblank), j, data, at + 4 * j, vblank);
    }
  }

  lemma OtherCommand(s: Song, i: nat, j: nat, data: seq<int>, at: int, vblank: bool)
    requires i < |s.chans| && j < |s.chans| && i != j && 0 <= at && at + 4 <= |data|
    ensures PlayVoice(s, i, data, at, vblank).chans[j] == s.chans[j]
  {
  }

  lemma OwnCommand(s: Song, i: nat, data: seq<int>, at: int, vblank: bool)
    requires i < |s.chans| && 0 <= at && at + 4 <= |data|
    ensures var c := PlayVoice(s, i, data, at, vblank).chans[i];
      c.cmd == data[at + 2] % 16 * 0x100 + data[at + 3] && c.cmdlo == data[at + 3]
  {
  }

  /** EEx stands alone in the row that is due. */
  ghost predicate Delays(s: Song, k: nat, data: seq<int>) {
    && IsModule(data) && Due(s, data) && k < CHANNELS && 0 <= RowAt(s, data) <= |data| - 16
    && QuietBut(data, RowAt(s, data), k) && Command(s, k, data) == 0xe
    && Parameter(s, k, data) / 16 == 0xe && Parameter(s, k, data) % 16 > 0
  }

  lemma DelayStarts(s: Song, k: nat, data: seq<int>, vblank: bool)
    requires Delays(s, k, data)
    ensures var t := Row(s, data, vblank);
      && InTime(s, t) && NoLoops(t) && t.delTime2 == Parameter(s, k, data) % 16
      && t.patternPos == s.patternPos && t.songPos == s.songPos
  {
    var t := s.(counter := s.speed - 1);
    RowsArePlayed(t, data);
    DelayRow(t, k, data, vblank);
    RowIs(s, data, vblank);
    DelayNoLoops(s, k, data, vblank);
  }

  lemma DelayNoLoops(s: Song, k: nat, data: seq<int>, vblank: bool)
    requires Delays(s, k, data)
    ensures NoLoops(PlayRow(s, CHANNELS, data, RowAt(s, data), vblank))
  {
    hide PlayVoice;
    var at := RowAt(s, data);
    var u := PlayRow(s, CHANNELS, data, at, vblank);
    forall j | 0 <= j < CHANNELS ensures !(u.chans[j].cmd / 0x100 == 0xe && u.chans[j].cmdlo / 16 == 6) {
      RowFetched(s, CHANNELS, j, data, at, vblank);
      CommandOf(data[at + 4 * j + 2], data[at + 4 * j + 3]);
      assert j != k ==> Quiet(data, at + 4 * j);
    }
  }

  lemma HeldRow(t: Song, data: seq<int>, vblank: bool)
    requires IsModule(data) && Steady(t, data) && t.counter == 0 && t.delTime2 > 0
    ensures Row(t, data, vblank) == DSkip(CheckRow(t, CHANNELS), data)
  {
    assert t.(counter := t.speed - 1).(counter := 0) == t;
  }

  /** A row is held, and d row times are owed; or it has been left for the next one. */
  ghost predicate Holding(s: Song, t: Song, d: nat, data: seq<int>)
    requires |data| >= PATTERNS_AT
  {
    && Steady(t, data) && InTime(s, t) && NoLoops(t) && t.delTime2 == d
    && if d > 0 then t.patternPos == s.patternPos && t.songPos == s.songPos
       else && t.patternPos == (if s.patternPos == 1008 then 0 else s.patternPos + 16)
            && t.songPos == (if s.patternPos == 1008 then Following(s.songPos, data) else s.songPos)
  }

  lemma HoldingOn(s: Song, t: Song, d: nat, data: seq<int>, vblank: bool)
    requires IsModule(data) && Holding(s, t, d, data) && d > 0
    ensures Holding(s, Row(t, data, vblank), d - 1, data)
  {
    HeldRow(t, data, vblank);
    assert Held(t, 0, data) == t;
    HeldFor(t, 1, data);
    CheckQuiet(t, CHANNELS);
  }

  lemma HoldingLater(run: nat -> Song, s: Song, m: nat, d: nat, data: seq<int>, vblank: bool)
    requires IsModule(data) && IsRun(run, data, vblank) && Holding(s, run(m), d, data) && d > 0
    ensures Holding(s, run(m + s.speed), d - 1, data)
  {
    RowTakes(run, m, data, vblank);
    HoldingOn(s, run(m), d, data, vblank);
  }

  /** A row with EEx lasts x + 1 row times: until then the player stays on it, and then it goes on. */
  lemma {:induction false} DelayLasts(run: nat -> Song, k: nat, n: nat, data: seq<int>, vblank: bool)
    requires Delays(run(0), k, data) && IsRun(run, data, vblank) && 0 < n <= Parameter(run(0), k, data) % 16 + 1
    ensures Holding(run(0), run(n * run(0).speed), Parameter(run(0), k, data) % 16 + 1 - n, data)
  {
    TimesIs(run(0).speed, n);
    DelayStage(run, k, n, data, vblank);
  }

  lemma {:induction false} DelayStage(run: nat -> Song, k: nat, n: nat, data: seq<int>, vblank: bool)
    requires Delays(run(0), k, data) && IsRun(run, data, vblank) && 0 < n <= Parameter(run(0), k, data) % 16 + 1
    ensures Holding(run(0), run(Times(run(0).speed, n)), Parameter(run(0), k, data) % 16 + 1 - n, data)
  {
    var s := run(0);
    if n == 1 {
      RowTakes(run, 0, data, vblank);
      DelayStarts(s, k, data, vblank);
      assert Times(s.speed, 1) == Times(s.speed, 0) + s.speed == s.speed;
    } else {
      DelayStage(run, k, n - 1, data, vblank);
      HoldingLater(run, s, Times(s.speed, n - 1), Parameter(s, k, data) % 16 + 2 - n, data, vblank);
    }
  }
}
