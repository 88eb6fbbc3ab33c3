/** The ProTracker player's sequencer at work (Apps/Modplayer/ptreplay.c). */
module SongPlayer {
  import opened SongSpec

  /** Where the first n cells of a row lie. */
  ghost function Cells(at: int, n: nat): seq<int> {
    if n == 0 then [] else Cells(at, n - 1) + [at + 4 * (n - 1)]
  }

  class Player {
    const data: seq<int>         // mt_SongDataPtr
    const vblank: bool           // tempoMode != 0
    const chans: array<Chan>     // mt_chan1temp to mt_chan4temp
    var enable: bool
    var counter: int
    var speed: int
    var songPos: int
    var patternPos: int
    var delTime: int
    var delTime2: int
    var breakPos: int
    var posJump: bool
    var breakFlag: bool
    var patterns: int            // as mt_init counts them
    ghost var fetched: seq<int>  // where cells were fetched

    ghost function Now(): Song
      reads this, chans
    {
      Song(counter, speed, songPos, patternPos, delTime, delTime2, breakPos, posJump, breakFlag, chans[..])
    }

    /** Between ticks. */
    ghost predicate Valid()
      reads this, chans
    {
      IsModule(data) && chans.Length == CHANNELS && Steady(Now(), data) && AllFetchedInside()
    }

    /** Every cell fetched so far lies in the patterns of the module. */
    ghost predicate AllFetchedInside()
      reads this
    {
      && patterns == (if |data| >= PATTERNS_AT then Patterns(data, 128) else 0)
      && forall i :: 0 <= i < |fetched| ==> PATTERNS_AT <= fetched[i] && fetched[i] + 4 <= PATTERNS_AT + 1024 * patterns
    }

    /** mt_init. */
    constructor (m: seq<int>, mode: bool)
      requires IsModule(m)
      ensures Valid() && Initial(Now()) && data == m && vblank == mode && !enable && fetched == [] && fresh(chans)
    {
      data, vblank := m, mode;
      chans := new Chan[CHANNELS](_ => Chan(0, 0, 0, 0, 0));
      enable, counter, speed, songPos, patternPos, delTime, delTime2 := false, 0, 6, 0, 0, 0, 0;
      breakPos, posJump, breakFlag := 0, false, false;
      fetched := [];
      new;
      patterns := CountPatterns();
    }

    method CountPatterns() returns (pattNum: int)
      requires IsModule(data)
      ensures pattNum == Patterns(data, 128)
    {
      pattNum := 0;
      for i := 0 to 128
        invariant pattNum + 1 == Patterns(data, i)
      {
        if data[ORDER_AT + i] > pattNum {
          pattNum := data[ORDER_AT + i];
        }
      }
      pattNum := pattNum + 1;
    }

    method JumpLoop(i: nat)
      requires chans.Length == CHANNELS && i < CHANNELS
      modifies chans, this`breakPos, this`breakFlag
      ensures Now() == SongSpec.JumpLoop(old(Now()), i)
    {
      if counter == 0 {
        var dat := chans[i].cmdlo % 16;
        if dat == 0 {
          chans[i] := chans[i].(pattpos := patternPos / 16);
          return;
        }
        if chans[i].loopcount <= 0 {
          chans[i] := chans[i].(loopcount := dat);
        } else {
          chans[i] := chans[i].(loopcount := chans[i].loopcount - 1);
          if chans[i].loopcount == 0 {
            return;
          }
        }
        breakPos := chans[i].pattpos;
        breakFlag := true;
      }
    }

    method PatternDelay(i: nat)
      requires chans.Length == CHANNELS && i < CHANNELS
      modifies this`delTime
      ensures Now() == SongSpec.PatternDelay(old(Now()), i)
    {
      if counter == 0 {
        if delTime2 == 0 {
          delTime := chans[i].cmdlo % 16 + 1;
        }
      }
    }

    method PatternBreak(i: nat)
      requires chans.Length == CHANNELS && i < CHANNELS
      modifies this`breakPos, this`posJump
      ensures Now() == SongSpec.PatternBreak(old(Now()), i)
    {
      breakPos := chans[i].cmdlo / 16 * 10 + chans[i].cmdlo % 16;
      if breakPos > 63 {
        breakPos := 0;
      }
      posJump := true;
    }

    method SetSpeed(i: nat)
      requires chans.Length == CHANNELS && i < CHANNELS && chans[i].cmdlo >= 0
      modifies this`counter, this`speed
      ensures Now() == SongSpec.SetSpeed(old(Now()), i, vblank)
    {
      if chans[i].cmdlo > 0 {
        counter := 0;
        if vblank || chans[i].cmdlo < 32 {
          speed := chans[i].cmdlo;
        }
      }
    }

    method ECommands(i: nat)
      requires chans.Length == CHANNELS && i < CHANNELS
      modifies this`breakPos, this`breakFlag, this`delTime, chans
      ensures Now() == ECommand(old(Now()), i)
    {
      if chans[i].cmdlo / 16 == 6 {
        JumpLoop(i);
      } else if chans[i].cmdlo / 16 == 0xe {
        PatternDelay(i);
      }
    }

    method CheckMoreEfx(i: nat)
      requires chans.Length == CHANNELS && i < CHANNELS && chans[i].cmdlo >= 0
      modifies this`counter, this`speed, this`songPos, this`breakPos, this`posJump, this`breakFlag, this`delTime, chans
      ensures Now() == SongSpec.CheckMoreEfx(old(Now()), i, vblank)
    {
      var c := chans[i].cmd / 0x100;
      if c == 0xb {
        songPos := chans[i].cmdlo - 1;
        breakPos := 0;
        posJump := true;
      } else if c == 0xd {
        PatternBreak(i);
      } else if c == 0xe {
        ECommands(i);
      } else if c == 0xf {
        SetSpeed(i);
      }
    }

    method CheckEfx(i: nat)
      requires chans.Length == CHANNELS && i < CHANNELS
      modifies this`breakPos, this`breakFlag, this`delTime, chans
      ensures Now() == SongSpec.CheckEfx(old(Now()), i)
    {
      if chans[i].cmd != 0 && chans[i].cmd / 0x100 == 0xe {
        ECommands(i);
      }
    }

    /** mt_SetPeriod, as far as it concerns the sequencer. */
    method SetPeriod(i: nat)
      requires chans.Length == CHANNELS && i < CHANNELS && chans[i].cmdlo >= 0
      modifies this`counter, this`speed, this`songPos, this`breakPos, this`posJump, this`breakFlag, this`delTime, chans
      ensures Now() == SongSpec.CheckMoreEfx(old(Now()), i, vblank)
    {
      CheckMoreEfx(i);
    }

    method PlayVoice(i: nat, pattPos: int)
      requires IsModule(data) && chans.Length == CHANNELS && i < CHANNELS && AllFetchedInside()
      requires 0 <= pattPos && pattPos + 4 <= 1024 * patterns
      modifies this`counter, this`speed, this`songPos, this`breakPos, this`posJump, this`breakFlag, this`delTime
      modifies chans, this`fetched
      ensures Now() == SongSpec.PlayVoice(old(Now()), i, data, PATTERNS_AT + pattPos, vblank)
      ensures fetched == old(fetched) + [PATTERNS_AT + pattPos] && AllFetchedInside()
    {
      var at := PATTERNS_AT + pattPos;
      chans[i] := Fetch(chans[i], data, at);
      fetched := fetched + [at];
      if chans[i].note == 0 {
        CheckMoreEfx(i);
        return;
      }
      if chans[i].cmd / 16 == 0xe5 {
        SetPeriod(i);
        return;
      }
      var cmd := chans[i].cmd / 0x100;
      if cmd == 3 || cmd == 5 {
        CheckMoreEfx(i);
      } else if cmd == 9 {
        CheckMoreEfx(i);
        SetPeriod(i);
      } else {
        SetPeriod(i);
      }
    }

    method NextPosition()
      requires |data| >= PATTERNS_AT
      modifies this`patternPos, this`breakPos, this`posJump, this`songPos
      ensures Now() == SongSpec.NextPosition(old(Now()), data)
    {
      patternPos := breakPos * 16;
      breakPos := 0;
      posJump := false;
      songPos := (songPos + 1) % 0x80;
      if songPos >= data[LENGTH_AT] {
        songPos := 0;
      }
    }

    method DSkip()
      requires |data| >= PATTERNS_AT && delTime >= 0 && delTime2 >= 0
      modifies this`patternPos, this`breakPos, this`posJump, this`songPos, this`delTime, this`delTime2, this`breakFlag
      ensures Now() == SongSpec.DSkip(old(Now()), data)
    {
      patternPos := patternPos + 16;
      if delTime > 0 {
        delTime2 := delTime;
        delTime := 0;
      }
      if delTime2 > 0 {
        delTime2 := delTime2 - 1;
        if delTime2 > 0 {
          patternPos := patternPos - 16;
        }
      }
      if breakFlag {
        breakFlag := false;
        patternPos := breakPos * 16;
        breakPos := 0;
      }
      if patternPos >= 1024 || posJump {
        NextPosition();
      }
    }

    /** The four voices of a row. */
    method PlayVoices(start: int)
      requires IsModule(data) && chans.Length == CHANNELS && AllFetchedInside()
      requires 0 <= start && start + 16 <= 1024 * patterns
      modifies this`counter, this`speed, this`songPos, this`breakPos, this`posJump, this`breakFlag, this`delTime
      modifies chans, this`fetched
      ensures Now() == PlayRow(old(Now()), CHANNELS, data, PATTERNS_AT + start, vblank)
      ensures fetched == old(fetched) + Cells(PATTERNS_AT + start, CHANNELS)
      ensures AllFetchedInside()
    {
      ghost var s, f := Now(), fetched;
      var i, pattPos := 0, start;
      NextVoice(i, pattPos, s, start, f);
      i, pattPos := i + 1, pattPos + 4;
      NextVoice(i, pattPos, s, start, f);
      i, pattPos := i + 1, pattPos + 4;
      NextVoice(i, pattPos, s, start, f);
      i, pattPos := i + 1, pattPos + 4;
      NextVoice(i, pattPos, s, start, f);
    }

    method NextVoice(i: nat, pattPos: int, ghost s: Song, ghost start: int, ghost f: seq<int>)
      requires IsModule(data) && chans.Length == CHANNELS && i < CHANNELS && AllFetchedInside()
      requires 0 <= start && start + 16 <= 1024 * patterns && pattPos == start + 4 * i && |s.chans| == CHANNELS
      requires Now() == PlayRow(s, i, data, PATTERNS_AT + start, vblank) && fetched == f + Cells(PATTERNS_AT + start, i)
      modifies this`counter, this`speed, this`songPos, this`breakPos, this`posJump, this`breakFlag, this`delTime
      modifies chans, this`fetched
      ensures Now() == PlayRow(s, i + 1, data, PATTERNS_AT + start, vblank) && AllFetchedInside()
      ensures fetched == f + Cells(PATTERNS_AT + start, i + 1)
    {
      PlayVoice(i, pattPos);
    }

    method CheckVoices()
      requires chans.Length == CHANNELS
      modifies this`breakPos, this`breakFlag, this`delTime, chans
      ensures Now() == CheckRow(old(Now()), CHANNELS)
    {
      ghost var s := Now();
      CheckEfx(0);
      assert Now() == CheckRow(s, 1);
      CheckEfx(1);
      assert Now() == CheckRow(s, 2);
      CheckEfx(2);
      assert Now() == CheckRow(s, 3);
      CheckEfx(3);
    }

    /** mt_music: one tick. Cells are fetched just when a new row is due, and then that row's four. */
    method Music()
      requires Valid()
      modifies this, chans
      ensures Valid() && enable == old(enable) && patterns == old(patterns)
      ensures Now() == if old(enable) then Tick(old(Now()), data, vblank) else old(Now())
      ensures var due := old(enable && counter + 1 >= speed && delTime2 == 0);
        fetched == old(fetched) + if due then Cells(RowAt(old(Now()), data), CHANNELS) else []
    {
      hide SongSpec.RowTime, SongSpec.BetweenRows;
      if enable {
        TickKeeps(Now(), data, vblank);
        counter := counter + 1;
        if counter >= speed {
          counter := 0;
          Row();
        } else {
          Between();
        }
      }
    }

    /** A tick that is not the first of a row. */
    method Between()
      requires |data| >= PATTERNS_AT && chans.Length == CHANNELS
      modifies this`breakPos, this`breakFlag, this`delTime, this`patternPos, this`posJump, this`songPos, chans
      ensures Now() == BetweenRows(old(Now()), data)
    {
      CheckVoices();
      if posJump {
        NextPosition();
      }
    }

    /** A row time: a new row, or what holding one takes. */
    method Row()
      requires Valid() && counter == 0
      modifies this, chans
      ensures enable == old(enable) && AllFetchedInside() && patterns == old(patterns)
      ensures Now() == RowTime(old(Now()), data, vblank)
      ensures fetched == old(fetched) + if old(delTime2) == 0 then Cells(RowAt(old(Now()), data), CHANNELS) else []
    {
      Voices();
      DSkip();
    }

    /** All voices play the new row, or look at their effects while it is held. */
    method Voices()
      requires Valid() && counter == 0
      modifies this, chans
      ensures enable == old(enable) && AllFetchedInside() && patterns == old(patterns)
      ensures Within(Now(), data) && Now() == SongSpec.Voices(old(Now()), data, vblank)
      ensures fetched == old(fetched) + if old(delTime2) == 0 then Cells(RowAt(old(Now()), data), CHANNELS) else []
    {
      hide SongSpec.PlayVoice, SongSpec.CheckEfx;
      RowInside(Now(), data);
      VoicesKeep(Now(), data, vblank);
      if delTime2 == 0 {
        var pattern := data[ORDER_AT + songPos];
        PlayVoices(pattern * 1024 + patternPos);
      } else {
        CheckVoices();
      }
    }

    /** Any number of ticks: all that is fetched lies in the module's patterns. */
    method Play(n: nat)
      requires Valid()
      modifies this, chans
      ensures Valid() && forall i :: 0 <= i < |fetched| ==> PATTERNS_AT <= fetched[i] && fetched[i] + 4 <= |data|
    {
      for i := 0 to n
        invariant Valid()
      {
        Music();
      }
    }
  }
}
