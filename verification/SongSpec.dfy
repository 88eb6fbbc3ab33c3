/** The sequencer of the ProTracker player (Apps/Modplayer/ptreplay.c): which row comes next. */
module SongSpec {
  /** What the sequencer keeps of a channel. */
  datatype Chan = Chan(note: int, cmd: int, cmdlo: int, pattpos: int, loopcount: int)

  /** The mt_ variables. */
  datatype Song = Song(counter: int, speed: int, songPos: int, patternPos: int, delTime: int, delTime2: int,
                       breakPos: int, posJump: bool, breakFlag: bool, chans: seq<Chan>)

  const CHANNELS := 4
  const LENGTH_AT := 950   // the song's length in positions
  const ORDER_AT := 952    // the pattern of each of 128 positions
  const PATTERNS_AT := 1084

  /** The highest pattern in use among the first n positions, and one more. */
  function Patterns(data: seq<int>, n: nat): (p: int)
    requires n <= 128 && |data| >= PATTERNS_AT
    ensures p >= 1 && forall i :: ORDER_AT <= i < ORDER_AT + n ==> data[i] < p
    ensures p == 1 || exists i :: ORDER_AT <= i < ORDER_AT + n && p == data[i] + 1
  {
    if n == 0 then 1
    else
      var x, p := data[ORDER_AT + n - 1], Patterns(data, n - 1);
      if x >= p then x + 1 else p
  }

  /** A module, with all the patterns its order list mentions. */
  ghost predicate IsModule(data: seq<int>) {
    && |data| >= PATTERNS_AT && (forall i :: 0 <= i < |data| ==> 0 <= data[i] < 0x100)
    && |data| >= PATTERNS_AT + 1024 * Patterns(data, 128)
  }

  // ---------- Effects that steer the sequencer ----------

  /** E6x: mark the row, or go back to the row marked, x times. */
  function JumpLoop(s: Song, i: nat): Song
    requires i < |s.chans|
  {
    var c := s.chans[i];
    if s.counter != 0 then s
    else if c.cmdlo % 16 == 0 then s.(chans := s.chans[i := c.(pattpos := s.patternPos / 16)])
    else
      var n := LoopCount(c.loopcount, c.cmdlo % 16);
      if c.loopcount > 0 && n == 0 then s.(chans := s.chans[i := c.(loopcount := 0)])
      else s.(chans := s.chans[i := c.(loopcount := n)], breakPos := c.pattpos, breakFlag := true)
  }

  function LoopCount(loopcount: int, x: int): int {
    if loopcount <= 0 then x else loopcount - 1
  }

  /** EEx: hold this row for x more. */
  function PatternDelay(s: Song, i: nat): Song
    requires i < |s.chans|
  {
    if s.counter == 0 && s.delTime2 == 0 then s.(delTime := s.chans[i].cmdlo % 16 + 1) else s
  }

  /** Bxx: on to position xx. */
  function PositionJump(s: Song, i: nat): Song
    requires i < |s.chans|
  {
    s.(songPos := s.chans[i].cmdlo - 1, breakPos := 0, posJump := true)
  }

  /** Dxy: on to row 10 * x + y of the next position. */
  function PatternBreak(s: Song, i: nat): Song
    requires i < |s.chans|
  {
    s.(breakPos := BreakRow(s.chans[i].cmdlo), posJump := true)
  }

  function BreakRow(xy: int): int {
    var row := xy / 16 * 10 + xy % 16;
    if row > 63 then 0 else row
  }

  /** Fxx: the ticks of a row, or the tempo when there is a timer for it. */
  function SetSpeed(s: Song, i: nat, vblank: bool): Song
    requires i < |s.chans|
  {
    var x := s.chans[i].cmdlo;
    if x == 0 then s
    else if vblank || x < 32 then s.(counter := 0, speed := x)
    else s.(counter := 0)
  }

  function ECommand(s: Song, i: nat): Song
    requires i < |s.chans|
  {
    var e := s.chans[i].cmdlo / 16;
    if e == 6 then JumpLoop(s, i) else if e == 0xe then PatternDelay(s, i) else s
  }

  function CheckMoreEfx(s: Song, i: nat, vblank: bool): Song
    requires i < |s.chans|
  {
    var c := s.chans[i].cmd / 0x100;
    if c == 0xb then PositionJump(s, i)
    else if c == 0xd then PatternBreak(s, i)
    else if c == 0xe then ECommand(s, i)
    else if c == 0xf then SetSpeed(s, i, vblank)
    else s
  }

  function CheckEfx(s: Song, i: nat): Song
    requires i < |s.chans|
  {
    if s.chans[i].cmd / 0x100 == 0xe then ECommand(s, i) else s
  }

  // ---------- One tick ----------

  /** A cell of a pattern: 12 bits of note, 12 of command. */
  function Fetch(c: Chan, data: seq<int>, at: int): Chan
    requires 0 <= at && at + 4 <= |data|
  {
    c.(note := data[at] % 16 * 0x100 + data[at + 1],
       cmd := data[at + 2] % 16 * 0x100 + data[at + 3], cmdlo := data[at + 3])
  }

  /** Voice i plays the cell at the given place. (Command 9 is looked at twice, which for the
      sequencer makes no difference.) */
  function PlayVoice(s: Song, i: nat, data: seq<int>, at: int, vblank: bool): Song
    requires i < |s.chans| && 0 <= at && at + 4 <= |data|
  {
    CheckMoreEfx(s.(chans := s.chans[i := Fetch(s.chans[i], data, at)]), i, vblank)
  }

  function NextPosition(s: Song, data: seq<int>): Song
    requires |data| >= PATTERNS_AT
  {
    var p := (s.songPos + 1) % 0x80;
    s.(patternPos := s.breakPos * 16, breakPos := 0, posJump := false, songPos := if p >= data[LENGTH_AT] then 0 else p)
  }

  /** The row is over: hold it, go on, or go where a loop says. */
  function NextRow(s: Song): Song {
    var d := if s.delTime > 0 then s.delTime else s.delTime2;
    var d' := if d > 0 then d - 1 else d;
    var p := if d' > 0 then s.patternPos else s.patternPos + 16;
    var t := s.(delTime := 0, delTime2 := d', patternPos := p);
    if s.breakFlag then t.(breakFlag := false, patternPos := s.breakPos * 16, breakPos := 0) else t
  }

  function DSkip(s: Song, data: seq<int>): Song
    requires |data| >= PATTERNS_AT
  {
    var t := NextRow(s);
    if t.patternPos >= 1024 || t.posJump then NextPosition(t, data) else t
  }

  /** Where the cells of the row lie. */
  function RowAt(s: Song, data: seq<int>): int
    requires |data| >= PATTERNS_AT && 0 <= s.songPos < 128
  {
    PATTERNS_AT + data[ORDER_AT + s.songPos] * 1024 + s.patternPos
  }

  function PlayRow(s: Song, n: nat, data: seq<int>, at: int, vblank: bool): (t: Song)
    requires |s.chans| == CHANNELS && n <= CHANNELS && 0 <= at && at + 16 <= |data|
    ensures |t.chans| == CHANNELS
  {
    if n == 0 then s else PlayVoice(PlayRow(s, n - 1, data, at, vblank), n - 1, data, at + 4 * (n - 1), vblank)
  }

  function CheckRow(s: Song, n: nat): (t: Song)
    requires |s.chans| == CHANNELS && n <= CHANNELS
    ensures |t.chans| == CHANNELS
  {
    if n == 0 then s else CheckEfx(CheckRow(s, n - 1), n - 1)
  }

  /** mt_music. */
  function Tick(s: Song, data: seq<int>, vblank: bool): Song
    requires IsModule(data) && Steady(s, data)
  {
    if s.counter + 1 >= s.speed then RowTime(s.(counter := 0), data, vblank)
    else BetweenRows(s.(counter := s.counter + 1), data)
  }

  /** A row time: a new row, or what holding one takes, and the end of it. */
  function RowTime(s: Song, data: seq<int>, vblank: bool): Song
    requires IsModule(data) && Steady(s, data)
  {
    DSkip(Voices(s, data, vblank), data)
  }

  function Voices(s: Song, data: seq<int>, vblank: bool): Song
    requires IsModule(data) && Steady(s, data)
  {
    RowInside(s, data);
    if s.delTime2 == 0 then PlayRow(s, CHANNELS, data, RowAt(s, data), vblank) else CheckRow(s, CHANNELS)
  }

  /** A tick that is not the first of a row. */
  function BetweenRows(s: Song, data: seq<int>): Song
    requires |data| >= PATTERNS_AT && |s.chans| == CHANNELS
  {
    var t := CheckRow(s, CHANNELS);
    if t.posJump then NextPosition(t, data) else t
  }

  // ---------- Between ticks ----------

  /** The state between two ticks: on a row of a pattern, at a position of the song, with nothing
      left to do from the tick before. */
  ghost predicate Steady(s: Song, data: seq<int>)
    requires |data| >= PATTERNS_AT
  {
    && 0 <= s.counter && 0 < s.speed && s.patternPos % 16 == 0 && 0 <= s.patternPos < 1024
    && 0 <= s.songPos < 128 && (s.songPos == 0 || s.songPos < data[LENGTH_AT])
    && s.delTime == 0 && 0 <= s.delTime2 && s.breakPos == 0 && !s.posJump && !s.breakFlag && Marked(s)
  }

  predicate GoodChan(c: Chan) {
    0 <= c.pattpos < 64 && 0 <= c.cmdlo < 0x100 && 0 <= c.cmd < 0x1000
  }

  /** Every channel's loop starts at some row. */
  ghost predicate Marked(s: Song) {
    |s.chans| == CHANNELS && forall i :: 0 <= i < CHANNELS ==> GoodChan(s.chans[i])
  }

  lemma RowInside(s: Song, data: seq<int>)
    requires IsModule(data) && Steady(s, data)
    ensures PATTERNS_AT <= RowAt(s, data) && RowAt(s, data) + 16 <= PATTERNS_AT + 1024 * Patterns(data, 128)
  {
    assert data[ORDER_AT + s.songPos] < Patterns(data, 128);
  }

  // ---------- Every tick keeps it ----------

  /** While the voices of a row are looked at. */
  ghost predicate Within(s: Song, data: seq<int>)
    requires |data| >= PATTERNS_AT
  {
    && 0 <= s.counter && 0 < s.speed && s.patternPos % 16 == 0 && 0 <= s.patternPos < 1024
    && (!s.posJump ==> 0 <= s.songPos < 128 && (s.songPos == 0 || s.songPos < data[LENGTH_AT]))
    && 0 <= s.delTime && 0 <= s.delTime2 && 0 <= s.breakPos < 64 && Marked(s)
    && (!s.posJump && !s.breakFlag ==> s.breakPos == 0)
  }

  lemma BreakRowInside(xy: int)
    requires 0 <= xy < 0x100
    ensures 0 <= BreakRow(xy) < 64
  {
  }

  lemma ChanKeeps(s: Song, i: nat, c: Chan)
    requires Marked(s) && i < CHANNELS && GoodChan(c)
    ensures Marked(s.(chans := s.chans[i := c]))
  {
  }

  lemma JumpLoopKeeps(s: Song, i: nat, data: seq<int>)
    requires |data| >= PATTERNS_AT && Within(s, data) && i < CHANNELS
    ensures Within(JumpLoop(s, i), data)
  {
    var c := s.chans[i];
    assert GoodChan(c);
    ChanKeeps(s, i, c.(pattpos := s.patternPos / 16));
    ChanKeeps(s, i, c.(loopcount := 0));
    ChanKeeps(s, i, c.(loopcount := LoopCount(c.loopcount, c.cmdlo % 16)));
  }

  lemma EffectKeeps(s: Song, i: nat, data: seq<int>, vblank: bool)
    requires |data| >= PATTERNS_AT && Within(s, data) && i < CHANNELS
    ensures Within(CheckMoreEfx(s, i, vblank), data)
  {
    assert GoodChan(s.chans[i]);
    ECommandKeeps(s, i, data);
    BreakRowInside(s.chans[i].cmdlo);
  }

  lemma ECommandKeeps(s: Song, i: nat, data: seq<int>)
    requires |data| >= PATTERNS_AT && Within(s, data) && i < CHANNELS
    ensures var t := ECommand(s, i);
      && Within(t, data) && t.posJump == s.posJump && t.counter == s.counter
      && (s.counter != 0 ==> t.delTime == s.delTime && t.breakFlag == s.breakFlag)
  {
    assert GoodChan(s.chans[i]);
    JumpLoopKeeps(s, i, data);
  }

  lemma FetchGood(c: Chan, data: seq<int>, at: int)
    requires GoodChan(c) && IsModule(data) && 0 <= at && at + 4 <= |data|
    ensures GoodChan(Fetch(c, data, at))
  {
  }

  lemma {:induction false} PlayRowKeeps(s: Song, n: nat, data: seq<int>, at: int, vblank: bool)
    requires IsModule(data) && Within(s, data) && n <= CHANNELS && 0 <= at && at + 16 <= |data|
    ensures Within(PlayRow(s, n, data, at, vblank), data)
  {
    if n > 0 {
      PlayRowKeeps(s, n - 1, data, at, vblank);
      var t := PlayRow(s, n - 1, data, at, vblank);
      assert GoodChan(t.chans[n - 1]);
      FetchGood(t.chans[n - 1], data, at + 4 * (n - 1));
      ChanKeeps(t, n - 1, Fetch(t.chans[n - 1], data, at + 4 * (n - 1)));
      EffectKeeps(t.(chans := t.chans[n - 1 := Fetch(t.chans[n - 1], data, at + 4 * (n - 1))]), n - 1, data, vblank);
    }
  }

  lemma {:induction false} CheckRowKeeps(s: Song, n: nat, data: seq<int>)
    requires |data| >= PATTERNS_AT && Within(s, data) && n <= CHANNELS
    ensures Within(CheckRow(s, n), data) && CheckRow(s, n).posJump == s.posJump && CheckRow(s, n).counter == s.counter
    ensures s.counter != 0 ==> s.delTime == CheckRow(s, n).delTime && CheckRow(s, n).breakFlag == s.breakFlag
  {
    if n > 0 {
      CheckRowKeeps(s, n - 1, data);
      ECommandKeeps(CheckRow(s, n - 1), n - 1, data);
    }
  }

  lemma NextPositionKeeps(s: Song, data: seq<int>)
    requires |data| >= PATTERNS_AT && 0 <= s.breakPos < 64 && 0 <= s.counter && 0 < s.speed && Marked(s)
    requires s.delTime == 0 && 0 <= s.delTime2 && !s.breakFlag
    ensures Steady(NextPosition(s, data), data)
  {
  }

  lemma DSkipKeeps(s: Song, data: seq<int>)
    requires |data| >= PATTERNS_AT && Within(s, data)
    ensures Steady(DSkip(s, data), data)
  {
    var t := NextRow(s);
    assert Marked(t) && 0 <= t.breakPos < 64;
    NextPositionKeeps(t, data);
  }

  /** The player stays on the rows of its module, whatever effects it meets. */
  lemma TickKeeps(s: Song, data: seq<int>, vblank: bool)
    requires IsModule(data) && Steady(s, data)
    ensures Steady(Tick(s, data, vblank), data)
  {
    if s.counter + 1 >= s.speed {
      VoicesKeep(s.(counter := 0), data, vblank);
      DSkipKeeps(Voices(s.(counter := 0), data, vblank), data);
    } else {
      BetweenKeeps(s.(counter := s.counter + 1), data);
    }
  }

  lemma VoicesKeep(s: Song, data: seq<int>, vblank: bool)
    requires IsModule(data) && Steady(s, data)
    ensures Within(Voices(s, data, vblank), data)
  {
    RowInside(s, data);
    PlayRowKeeps(s, CHANNELS, data, RowAt(s, data), vblank);
    CheckRowKeeps(s, CHANNELS, data);
  }

  lemma BetweenKeeps(s: Song, data: seq<int>)
    requires |data| >= PATTERNS_AT && Steady(s, data) && s.counter > 0
    ensures Steady(BetweenRows(s, data), data)
  {
    CheckRowKeeps(s, CHANNELS, data);
  }

  /** mt_init's sequencer state; channels keep what they had. */
  ghost predicate Initial(s: Song) {
    && s.speed == 6 && s.counter == 0 && s.songPos == 0 && s.patternPos == 0 && s.delTime == 0 && s.delTime2 == 0
    && s.breakPos == 0 && !s.posJump && !s.breakFlag && Marked(s)
  }

  ghost function Ticks(s: Song, n: nat, data: seq<int>, vblank: bool): (t: Song)
    requires IsModule(data) && Steady(s, data)
    ensures Steady(t, data)
  {
    if n == 0 then s
    else
      TickKeeps(Ticks(s, n - 1, data, vblank), data, vblank);
      Tick(Ticks(s, n - 1, data, vblank), data, vblank)
  }

  /** Over any run from the start, every row lies among the patterns of the module. */
  lemma RunInside(s: Song, n: nat, data: seq<int>, vblank: bool)
    requires IsModule(data) && Initial(s)
    ensures Steady(Ticks(s, n, data, vblank), data)
    ensures var at := RowAt(Ticks(s, n, data, vblank), data);
      PATTERNS_AT <= at && at + 16 <= PATTERNS_AT + 1024 * Patterns(data, 128) <= |data|
  {
    RowInside(Ticks(s, n, data, vblank), data);
  }
}
