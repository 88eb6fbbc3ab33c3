/** Motorola S-records, and the machine that takes them in byte by byte (SoC/Firmware/main.c). */
module SRecordSpec {
  import opened Words

  /** d0 & 0xdf: bit 5 off. */
  function Upper(d0: int): int {
    var b := d0 % 0x100;
    if b / 0x20 % 2 == 1 then b - 0x20 else b
  }

  /** What DoDecode takes a char for; 0 to 15 for hex digits of either case. */
  function Digit(c: char): int {
    var d := Upper(c as int) - 55;
    if d < 0 then d + 39 else d
  }

  function DoDecode(a0: int, d0: char): int {
    ToInt32(Or(Wrap(a0 * 16), Wrap(Digit(d0))))
  }

  predicate IsHex(c: char) {
    '0' <= c <= '9' || 'A' <= c <= 'F' || 'a' <= c <= 'f'
  }

  /** The digit's value, by its place in the alphabet. */
  function HexDigit(c: char): (d: int)
    requires IsHex(c)
    ensures 0 <= d < 16
  {
    if c <= '9' then c as int - '0' as int
    else if c <= 'F' then c as int - 'A' as int + 10
    else c as int - 'a' as int + 10
  }

  lemma DigitIsHex(c: char)
    requires IsHex(c)
    ensures Digit(c) == HexDigit(c)
  {
  }

  lemma DigitWord(c: char)
    requires IsHex(c)
    ensures Wrap(Digit(c)) == HexDigit(c)
  {
    DigitIsHex(c);
  }

  lemma OrNibble(k: nat, d: nat)
    requires d < 16
    ensures Or(16 * k, d) == 16 * k + d
  {
    hide Or;
    var d1 := d / 2;
    var d2 := d1 / 2;
    var d3 := d2 / 2;
    OrNothing(k);
    OrBit(k, d3);
    OrBit(2 * k, d2);
    OrBit(4 * k, d1);
    OrBit(8 * k, d);
  }

  lemma OrNothing(k: nat)
    ensures Or(k, 0) == k
  {
  }

  lemma OrBit(k: nat, d: nat)
    requires Or(k, d / 2) == k + d / 2
    ensures Or(2 * k, d) == 2 * k + d
  {
  }

  /** Reading a hex digit shifts it in, within 32 bits. */
  lemma DecodeHex(a0: int, c: char)
    requires IsHex(c)
    ensures DoDecode(a0, c) == ToInt32(16 * a0 + HexDigit(c))
  {
    DecodeBits(a0, c);
    ShiftTurn(a0, HexDigit(c));
  }

  lemma DecodeBits(a0: int, c: char)
    requires IsHex(c)
    ensures Or(Wrap(a0 * 16), Wrap(Digit(c))) == 16 * (a0 % 0x1000_0000) + HexDigit(c)
  {
    DigitWord(c);
    ShiftDrops(a0);
    OrNibble(a0 % 0x1000_0000, HexDigit(c));
  }

  lemma ShiftDrops(a: int)
    ensures Wrap(a * 16) == 16 * (a % 0x1000_0000)
  {
  }

  lemma ShiftTurn(a: int, d: int)
    ensures ToInt32(16 * (a % 0x1000_0000) + d) == ToInt32(16 * a + d)
  {
    var q := a / 0x1000_0000;
    assert a == a % 0x1000_0000 + q * 0x1000_0000;
    ToIntTurn(16 * (a % 0x1000_0000) + d, q);
  }

  lemma ToIntTurn(x: int, q: int)
    ensures ToInt32(x + q * 0x1_0000_0000) == ToInt32(x)
  {
  }

  /** Shifting a digit in does not look at the bits that drop out. */
  lemma ToIntShift(x: int, d: int)
    ensures ToInt32(16 * ToInt32(x) + d) == ToInt32(16 * x + d)
  {
    var q := (ToInt32(x) - x) / 0x1_0000_0000;
    assert ToInt32(x) == x + q * 0x1_0000_0000;
    ToIntTurn(16 * x + d, 16 * q);
  }

  function HexValue(cs: string): nat
    requires forall i :: 0 <= i < |cs| ==> IsHex(cs[i])
  {
    if cs == [] then 0 else 16 * HexValue(cs[..|cs| - 1]) + HexDigit(cs[|cs| - 1])
  }

  // ---------- The machine ----------

  datatype Write = Write(addr: int, byte: int)

  /** The SREC_ variables, the bytes stored so far, and whether the program has been started. */
  datatype State = State(column: int, addr: int, addrSize: int, byteCount: int, kind: int,
                         counter: int, temp: int, maxAddr: int, writes: seq<Write>, booted: bool)

  const BOOT_ADDR := 0x1000_0000

  const RESET := State(0, 0, 0, 0, 0, 0, 0, 0, [], false)

  /** HandleByte. */
  function Step(s0: State, c: char): State {
    var s := s0.(column := s0.column + 1);
    if c == 'S' then s.(column := 0, addr := 0, byteCount := 0, kind := 0)
    else if s.column == 1 then
      var t := DoDecode(s.kind, c);
      s.(kind := t, addrSize := ((if t > 3 then 10 - t else t) + 1) * 2)
    else if !(0 < s.kind <= 9) then s
    else if s.column <= 3 then s.(byteCount := DoDecode(s.byteCount, c))
    else if s.column <= s.addrSize + 3 then s.(addr := DoDecode(s.addr, c), counter := 1)
    else if s.kind <= 3 then
      if s.column <= s.byteCount * 2 + 1 then DataDigit(s, c) else Leftover(s)
    else if s.kind >= 7 then s.(addr := SummedTo(s.maxAddr), booted := true)
    else s
  }

  /** Where a loop that adds up words from BOOT_ADDR on stops: the first one not below the top. */
  function SummedTo(top: int): (a: int)
    ensures a >= BOOT_ADDR && a % 4 == 0
    ensures a >= top && (a > BOOT_ADDR ==> a - 4 < top)
  {
    if top <= BOOT_ADDR then BOOT_ADDR else (top + 3) / 4 * 4
  }

  lemma SummedOnce(a: int, top: int)
    requires a >= BOOT_ADDR && a % 4 == 0 && a >= top && (a > BOOT_ADDR ==> a - 4 < top)
    ensures a == SummedTo(top)
  {
  }

  /** Every second digit completes a byte. */
  function DataDigit(s0: State, c: char): State {
    var s := s0.(temp := DoDecode(s0.temp, c), counter := s0.counter - 1);
    if s.counter < 0 then ByteDone(s).(counter := 1) else s
  }

  function ByteDone(s: State): State {
    var next := ToInt32(s.addr + 1);
    s.(writes := s.writes + [Write(Wrap(s.addr), s.temp % 0x100)], addr := next,
       maxAddr := if next > s.maxAddr then next else s.maxAddr)
  }

  /** Past the data, a digit without a partner is stored as a high nibble. */
  function Leftover(s: State): State {
    if s.counter == 0 then
      var temp := ToInt32(s.temp * 16);
      s.(temp := temp, writes := s.writes + [Write(Wrap(s.addr), temp % 0x100)])
    else s
  }

  function Run(s: State, text: string): State {
    if text == [] then s else Step(Run(s, text[..|text| - 1]), text[|text| - 1])
  }

  lemma {:induction false} RunConcat(s: State, a: string, b: string)
    ensures Run(s, a + b) == Run(Run(s, a), b)
  {
    if b == [] {
      assert a + b == a;
    } else {
      RunConcat(s, a, b[..|b| - 1]);
      assert (a + b)[..|a + b| - 1] == a + b[..|b| - 1];
    }
  }
}
