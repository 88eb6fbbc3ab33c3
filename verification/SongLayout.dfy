/** How a ProTracker module is laid out (Apps/Modplayer/ptreplay.c): an encoder of its order list and its
    patterns. The cells the player fetches are those that were put there. */
module SongLayout {
  import opened SongSpec

  /** What a row has for one channel. */
  datatype Cell = Cell(sample: int, period: int, command: int, parameter: int)

  predicate IsCell(c: Cell) {
    0 <= c.sample < 0x100 && 0 <= c.period < 0x1000 && 0 <= c.command < 0x10 && 0 <= c.parameter < 0x100
  }

  /** Half the sample's number goes before the period, the other half before the command. */
  function CellBytes(c: Cell): (s: seq<int>)
    ensures |s| == 4
  {
    [c.sample / 16 * 16 + c.period / 0x100, c.period % 0x100, c.sample % 16 * 16 + c.command, c.parameter]
  }

  function CellsBytes(cells: seq<Cell>): seq<int> {
    if cells == [] then [] else CellsBytes(cells[..|cells| - 1]) + CellBytes(cells[|cells| - 1])
  }

  lemma {:induction false} CellsLength(cells: seq<Cell>)
    ensures |CellsBytes(cells)| == 4 * |cells|
  {
    if cells != [] {
      CellsLength(cells[..|cells| - 1]);
    }
  }

  lemma {:induction false} CellsBytesAt(cells: seq<Cell>, k: nat)
    requires k < |cells|
    ensures |CellsBytes(cells)| == 4 * |cells| && CellsBytes(cells)[4 * k..4 * k + 4] == CellBytes(cells[k])
  {
    var n := |cells| - 1;
    CellsLength(cells);
    CellsLength(cells[..n]);
    if k < n {
      CellsBytesAt(cells[..n], k);
      assert CellsBytes(cells)[4 * k..4 * k + 4] == CellsBytes(cells[..n])[4 * k..4 * k + 4];
    }
  }

  /** Title and samples; the length and another byte; the pattern at each of 128 positions; four letters; and the
      patterns, of 64 rows of four cells each. */
  function ModuleBytes(title: seq<int>, length: int, restart: int, order: seq<int>, id: seq<int>, cells: seq<Cell>)
    : seq<int>
  {
    title + [length, restart] + order + id + CellsBytes(cells)
  }

  ghost predicate IsSong(title: seq<int>, length: int, restart: int, order: seq<int>, id: seq<int>, cells: seq<Cell>) {
    && |title| == 950 && |order| == 128 && |id| == 4
    && (forall i :: 0 <= i < 950 ==> 0 <= title[i] < 0x100) && (forall i :: 0 <= i < 4 ==> 0 <= id[i] < 0x100)
    && 0 <= length < 0x100 && 0 <= restart < 0x100
    && (forall i :: 0 <= i < 128 ==> 0 <= order[i] < 0x100 && (order[i] + 1) * 256 <= |cells|)
    && |cells| >= 256 && forall i :: 0 <= i < |cells| ==> IsCell(cells[i])
  }

  /** The bytes of such a module. */
  ghost predicate Holds(data: seq<int>, length: int, order: seq<int>, cells: seq<Cell>) {
    exists title, restart, id :: IsSong(title, length, restart, order, id, cells)
      && data == ModuleBytes(title, length, restart, order, id, cells)
  }

  /** Where the parts of a module are. */
  lemma Parts(data: seq<int>, length: int, order: seq<int>, cells: seq<Cell>)
    requires Holds(data, length, order, cells)
    ensures |data| == 1084 + 4 * |cells| && data[950] == length && data[952..1080] == order
    ensures data[1084..] == CellsBytes(cells)
    ensures |order| == 128 && forall i :: 0 <= i < 128 ==> 0 <= order[i] < 0x100 && (order[i] + 1) * 256 <= |cells|
  {
    CellsLength(cells);
  }

  lemma {:induction false} BytesAreBytes(cells: seq<Cell>, j: nat)
    requires j < 4 * |cells| && forall i :: 0 <= i < |cells| ==> IsCell(cells[i])
    ensures j < |CellsBytes(cells)| && 0 <= CellsBytes(cells)[j] < 0x100
  {
    CellsBytesAt(cells, j / 4);
    assert IsCell(cells[j / 4]);
    assert CellsBytes(cells)[j] == CellsBytes(cells)[4 * (j / 4)..4 * (j / 4) + 4][j % 4];
  }

  /** It is one that has all the patterns it mentions. */
  lemma HoldsModule(data: seq<int>, length: int, order: seq<int>, cells: seq<Cell>)
    requires Holds(data, length, order, cells)
    ensures IsModule(data)
  {
    Parts(data, length, order, cells);
    var title, restart, id :| IsSong(title, length, restart, order, id, cells)
      && data == ModuleBytes(title, length, restart, order, id, cells);
    forall i | 0 <= i < |data| ensures 0 <= data[i] < 0x100 {
      if i >= 1084 {
        BytesAreBytes(cells, i - 1084);
      }
    }
    var p := Patterns(data, 128);
    if p > 1 {
      var i :| ORDER_AT <= i < ORDER_AT + 128 && p == data[i] + 1;
      assert data[i] == order[i - 952];
    }
  }

  /** What is fetched for channel c at a row of a position is the cell of that row in that position's pattern. */
  lemma FetchIsCell(ch: Chan, s: Song, row: nat, c: nat, data: seq<int>, length: int, order: seq<int>, cells: seq<Cell>)
    requires Holds(data, length, order, cells) && 0 <= s.songPos < 128 && s.patternPos == 16 * row && row < 64 && c < 4
    ensures |order| == 128 && 0 <= order[s.songPos] * 256 + row * 4 + c < |cells|
    ensures |data| >= PATTERNS_AT && 0 <= RowAt(s, data) && RowAt(s, data) + 4 * c + 4 <= |data|
    ensures var x := cells[order[s.songPos] * 256 + row * 4 + c];
      Fetch(ch, data, RowAt(s, data) + 4 * c) ==
        ch.(note := x.period, cmd := 0x100 * x.command + x.parameter, cmdlo := x.parameter)
  {
    Parts(data, length, order, cells);
    var k := order[s.songPos] * 256 + row * 4 + c;
    assert data[ORDER_AT + s.songPos] == data[952..1080][s.songPos];
    CellsBytesAt(cells, k);
    assert IsCell(cells[k]);
    var at, b := RowAt(s, data) + 4 * c, CellBytes(cells[k]);
    assert at == 1084 + 4 * k;
    assert data[1084..][4 * k..4 * k + 4] == b;
    assert data[at] == b[0] && data[at + 1] == b[1] && data[at + 2] == b[2] && data[at + 3] == b[3];
    CellReads(cells[k]);
  }

  /** After the last position the song starts over. */
  lemma PositionsFollow(s: Song, data: seq<int>, length: int, order: seq<int>, cells: seq<Cell>)
    requires Holds(data, length, order, cells) && 0 <= s.songPos < 128
    ensures |data| >= PATTERNS_AT
    ensures NextPosition(s, data).songPos == if s.songPos + 1 < length && s.songPos < 127 then s.songPos + 1 else 0
  {
    Parts(data, length, order, cells);
  }

  lemma CellReads(x: Cell)
    requires IsCell(x)
    ensures var b := CellBytes(x); b[0] % 16 * 0x100 + b[1] == x.period && b[2] % 16 == x.command && b[3] == x.parameter
  {
  }
}
