/** The S-record loader (SoC/Firmware/main.c), its encoder, and the round trip. */
module SRecordLoader {
  import opened Words
  import opened SRecordSpec
  import opened SRecordProofs

  // ---------- Encoding ----------

  function HexChar(d: int, lower: bool): char
    requires 0 <= d < 16
  {
    if d < 10 then "0123456789"[d] else if lower then "abcdef"[d - 10] else "ABCDEF"[d - 10]
  }

  lemma HexCharDigit(d: int, lower: bool)
    requires 0 <= d < 16
    ensures IsHex(HexChar(d, lower)) && HexDigit(HexChar(d, lower)) == d
  {
  }

  /** The digits of a byte. */
  const BYTE := 2

  /** n in k digits. */
  function Hex(n: nat, k: nat, lower: bool): string {
    if k == 0 then "" else Hex(n / 16, k - 1, lower) + [HexChar(n % 16, lower)]
  }

  function Rest(n: nat, k: nat): nat {
    if k == 0 then n else Rest(n / 16, k - 1)
  }

  lemma {:induction false} HexRound(n: nat, k: nat, lower: bool)
    requires Rest(n, k) == 0
    ensures |Hex(n, k, lower)| == k && AllHex(Hex(n, k, lower)) && HexValue(Hex(n, k, lower)) == n
  {
    if k > 0 {
      HexRound(n / 16, k - 1, lower);
      HexCharDigit(n % 16, lower);
      assert Hex(n, k, lower)[..k - 1] == Hex(n / 16, k - 1, lower);
    }
  }

  function HexBytes(data: seq<int>, lower: bool): string
    requires forall i :: 0 <= i < |data| ==> 0 <= data[i] < 0x100
  {
    if data == [] then ""
    else
      var b := data[|data| - 1];
      HexBytes(data[..|data| - 1], lower) + [HexChar(b / 16, lower), HexChar(b % 16, lower)]
  }

  lemma {:induction false} HexBytesSpell(data: seq<int>, lower: bool)
    requires forall i :: 0 <= i < |data| ==> 0 <= data[i] < 0x100
    ensures Spells(HexBytes(data, lower), data)
  {
    if data != [] {
      var n := |data| - 1;
      HexBytesSpell(data[..n], lower);
      HexCharDigit(data[n] / 16, lower);
      HexCharDigit(data[n] % 16, lower);
      var t, u := HexBytes(data, lower), HexBytes(data[..n], lower);
      forall j | 0 <= j < |data| ensures data[j] == 16 * HexDigit(t[2 * j]) + HexDigit(t[2 * j + 1]) {
        if j < n {
          assert t[2 * j] == u[2 * j] && t[2 * j + 1] == u[2 * j + 1] && data[..n][j] == data[j];
        }
      }
    }
  }

  /** Count, address and data bytes added up. */
  function Sum(data: seq<int>): int {
    if data == [] then 0 else Sum(data[..|data| - 1]) + data[|data| - 1]
  }

  function Checksum(r: Record): int {
    0xff - (r.kind + 2 + |r.data| + r.addr % 0x100 + r.addr / 0x100 % 0x100 + r.addr / 0x1_0000 % 0x100
            + r.addr / 0x100_0000 + Sum(r.data)) % 0x100
  }

  /** The bytes that digits spell two by two, added up. */
  function PairSum(t: string): nat
    requires AllHex(t) && |t| % 2 == 0
  {
    if t == [] then 0 else PairSum(t[..|t| - 2]) + 16 * HexDigit(t[|t| - 2]) + HexDigit(t[|t| - 1])
  }

  lemma {:induction false} PairSumConcat(a: string, b: string)
    requires AllHex(a) && AllHex(b) && |a| % 2 == 0 && |b| % 2 == 0
    ensures PairSum(a + b) == PairSum(a) + PairSum(b)
  {
    if b == [] {
      assert a + b == a;
    } else {
      PairSumConcat(a, b[..|b| - 2]);
      assert (a + b)[..|a + b| - 2] == a + b[..|b| - 2];
    }
  }

  /** The k lowest bytes of a number, added up. */
  function ByteSum(n: nat, k: nat): nat {
    if k == 0 then 0 else ByteSum(n / 0x100, k - 1) + n % 0x100
  }

  lemma {:induction false} HexSum(n: nat, k: nat, lower: bool)
    ensures |Hex(n, 2 * k, lower)| == 2 * k && AllHex(Hex(n, 2 * k, lower))
    ensures PairSum(Hex(n, 2 * k, lower)) == ByteSum(n, k)
  {
    hide HexDigit, HexChar, AllHex, Hex, PairSum;
    HexNone(n, lower);
    if k > 0 {
      HexSum(n / 0x100, k - 1, lower);
      var t, c, d := Hex(n / 0x100, 2 * k - 2, lower), HexChar(n / 16 % 16, lower), HexChar(n % 16, lower);
      HexCharDigit(n % 16, lower);
      HexCharDigit(n / 16 % 16, lower);
      HexTwo(n, 2 * k - 2, lower);
      PairMore(t, c, d);
      TwoDigitsOf(n);
    }
  }

  lemma HexNone(n: nat, lower: bool)
    ensures Hex(n, 0, lower) == "" && AllHex("") && PairSum("") == 0
  {
  }

  lemma HexTwo(n: nat, k: nat, lower: bool)
    ensures Hex(n, k + 2, lower) == Hex(n / 0x100, k, lower) + [HexChar(n / 16 % 16, lower), HexChar(n % 16, lower)]
  {
    hide HexChar;
    assert n / 16 / 16 == n / 0x100;
    assert Hex(n / 16, k + 1, lower) == Hex(n / 16 / 16, k, lower) + [HexChar(n / 16 % 16, lower)];
  }

  lemma PairMore(t: string, c: char, d: char)
    requires AllHex(t) && |t| % 2 == 0 && IsHex(c) && IsHex(d)
    ensures AllHex(t + [c, d]) && PairSum(t + [c, d]) == PairSum(t) + 16 * HexDigit(c) + HexDigit(d)
  {
    hide HexDigit;
    var u := t + [c, d];
    assert u[..|u| - 2] == t;
  }

  lemma TwoDigitsOf(n: nat)
    ensures 16 * (n / 16 % 16) + n % 16 == n % 0x100
  {
  }

  lemma {:induction false} DataSum(data: seq<int>, lower: bool)
    requires forall i :: 0 <= i < |data| ==> 0 <= data[i] < 0x100
    ensures |HexBytes(data, lower)| == 2 * |data| && AllHex(HexBytes(data, lower))
    ensures PairSum(HexBytes(data, lower)) == Sum(data)
  {
    HexBytesSpell(data, lower);
    if data != [] {
      var n := |data| - 1;
      DataSum(data[..n], lower);
      HexCharDigit(data[n] / 16, lower);
      HexCharDigit(data[n] % 16, lower);
      assert HexBytes(data, lower)[..2 * n] == HexBytes(data[..n], lower);
    }
  }

  lemma AddrSum(addr: nat, k: nat)
    requires 2 <= k <= 4 && addr < WORD && (k < 4 ==> addr < 0x100_0000) && (k < 3 ==> addr < 0x1_0000)
    ensures ByteSum(addr, k) == addr % 0x100 + addr / 0x100 % 0x100 + addr / 0x1_0000 % 0x100 + addr / 0x100_0000
  {
    hide ByteSum;
    var a, b := addr / 0x100, addr / 0x1_0000;
    Shifts(addr);
    if k == 2 {
      SumTwo(addr);
    } else if k == 3 {
      NextSum(addr, 2);
      SumTwo(a);
    } else {
      NextSum(addr, 3);
      NextSum(a, 2);
      SumTwo(b);
    }
  }

  lemma SumTwo(n: nat)
    requires n < 0x1_0000
    ensures ByteSum(n, 2) == n % 0x100 + n / 0x100
  {
    ByteIs(n / 0x100);
  }

  lemma Shifts(n: nat)
    requires n < WORD
    ensures n / 0x100 / 0x100 == n / 0x1_0000 && n / 0x1_0000 / 0x100 == n / 0x100_0000 && n / 0x100_0000 < 0x100
    ensures (n < 0x100_0000 ==> n / 0x100_0000 == 0) && (n < 0x1_0000 ==> n / 0x1_0000 == 0)
  {
  }

  lemma NextSum(n: nat, k: nat)
    ensures ByteSum(n, k + 1) == ByteSum(n / 0x100, k) + n % 0x100
  {
  }

  /** The bytes of an encoded line, with its checksum, add up to 0xff, as S-records have it. */
  lemma LineSums(r: Record, lower: bool)
    requires IsRecord(r)
    ensures var t := CountText(r, lower) + AddrText(r, lower) + HexBytes(r.data, lower) + SumText(r, lower);
      AllHex(t) && |t| % 2 == 0 && PairSum(t) % 0x100 == 0xff
  {
    hide Hex, HexBytes, PairSum, Checksum, AllHex;
    CountSum(r, lower);
    HexSum(r.addr, r.kind + 1, lower);
    DataSum(r.data, lower);
    AllSum(r);
    HexSum(Checksum(r), 1, lower);
    FourSums(CountText(r, lower), AddrText(r, lower), HexBytes(r.data, lower), SumText(r, lower));
  }

  lemma CountSum(r: Record, lower: bool)
    requires IsRecord(r)
    ensures |CountText(r, lower)| == 2 && AllHex(CountText(r, lower))
    ensures PairSum(CountText(r, lower)) == r.kind + 2 + |r.data|
  {
    hide Hex, PairSum, AllHex;
    HexSum(r.kind + 2 + |r.data|, 1, lower);
    ByteIs(r.kind + 2 + |r.data|);
  }

  lemma ByteIs(n: nat)
    requires n < 0x100
    ensures ByteSum(n, 1) == n
  {
    assert ByteSum(n / 0x100, 0) == 0;
  }

  lemma TwoSums(a: string, b: string)
    requires AllHex(a) && AllHex(b) && |a| % 2 == 0 && |b| % 2 == 0
    ensures AllHex(a + b) && |a + b| % 2 == 0 && PairSum(a + b) == PairSum(a) + PairSum(b)
  {
    PairSumConcat(a, b);
  }

  lemma FourSums(a: string, b: string, c: string, d: string)
    requires AllHex(a) && AllHex(b) && AllHex(c) && AllHex(d)
    requires |a| % 2 == 0 && |b| % 2 == 0 && |c| % 2 == 0 && |d| % 2 == 0
    ensures AllHex(a + b + c + d) && |a + b + c + d| % 2 == 0
    ensures PairSum(a + b + c + d) == PairSum(a) + PairSum(b) + PairSum(c) + PairSum(d)
  {
    hide PairSum, AllHex;
    TwoSums(a, b);
    TwoSums(a + b, c);
    TwoSums(a + b + c, d);
  }

  lemma AllSum(r: Record)
    requires IsRecord(r)
    ensures 0 <= Checksum(r) < 0x100
    ensures var n := r.kind + 2 + |r.data| + ByteSum(r.addr, r.kind + 1) + Sum(r.data);
      (n + ByteSum(Checksum(r), 1)) % 0x100 == 0xff
  {
    AddrSum(r.addr, r.kind + 1);
    ByteIs(Checksum(r));
    SumToFull(r.kind + 2 + |r.data| + ByteSum(r.addr, r.kind + 1) + Sum(r.data));
  }

  lemma SumToFull(n: int)
    ensures (n + (0xff - n % 0x100)) % 0x100 == 0xff
  {
  }

  /** A record as a line of text, in either case and with any line ending. */
  function Line(r: Record, lower: bool, eol: string): Item
    requires IsRecord(r)
  {
    Data(r, CountText(r, lower), AddrText(r, lower), HexBytes(r.data, lower), SumText(r, lower) + eol)
  }

  function CountText(r: Record, lower: bool): string
    requires IsRecord(r)
  {
    Hex(r.kind + 2 + |r.data|, BYTE, lower)
  }

  function AddrText(r: Record, lower: bool): string
    requires IsRecord(r)
  {
    Hex(r.addr, 2 * (r.kind + 1), lower)
  }

  function SumText(r: Record, lower: bool): string {
    Hex(Checksum(r), BYTE, lower)
  }

  lemma HexHasNoS(n: nat, k: nat, lower: bool)
    requires Rest(n, k) == 0
    ensures NoS(Hex(n, k, lower))
  {
    HexRound(n, k, lower);
  }

  lemma RestTwo(n: nat)
    requires n < 0x100
    ensures Rest(n, 2) == 0
  {
    assert Rest(n, 2) == Rest(n / 16, 1) == Rest(n / 16 / 16, 0);
  }

  lemma RestByte(n: nat)
    requires n < 0x100
    ensures Rest(n, BYTE) == 0
  {
    RestTwo(n);
  }

  lemma RestFour(n: nat)
    ensures n < 0x1_0000 ==> Rest(n, 4) == 0
    ensures n < 0x100_0000 ==> Rest(n, 6) == 0
    ensures n < WORD ==> Rest(n, 8) == 0
  {
    RestStep(n, 2);
    RestStep(n, 4);
    RestStep(n, 6);
    RestStep(n / 0x100, 2);
    RestStep(n / 0x100, 4);
    RestStep(n / 0x100 / 0x100, 2);
    if n / 0x100 < 0x100 { RestTwo(n / 0x100); }
    if n / 0x100 / 0x100 < 0x100 { RestTwo(n / 0x100 / 0x100); }
    if n / 0x100 / 0x100 / 0x100 < 0x100 { RestTwo(n / 0x100 / 0x100 / 0x100); }
  }

  lemma RestStep(n: nat, k: nat)
    ensures Rest(n, k + 2) == Rest(n / 0x100, k)
  {
    assert n / 16 / 16 == n / 0x100;
    assert Rest(n, k + 2) == Rest(n / 16, k + 1) == Rest(n / 16 / 16, k);
  }

  lemma LineEncodes(r: Record, lower: bool, eol: string)
    requires IsRecord(r) && NoS(eol)
    ensures Encodes(Line(r, lower, eol))
  {
    CountHex(r, lower);
    AddrHex(r, lower);
    HexBytesSpell(r.data, lower);
    SumHex(r, lower, eol);
    DataEncodes(r, CountText(r, lower), AddrText(r, lower), HexBytes(r.data, lower), SumText(r, lower) + eol);
  }

  predicate IsCount(r: Record, t: string) {
    |t| == 2 && AllHex(t) && HexValue(t) == r.kind + 2 + |r.data|
  }

  predicate IsAddr(r: Record, t: string) {
    |t| == 2 * (r.kind + 1) && AllHex(t) && HexValue(t) == r.addr
  }

  lemma DataEncodes(r: Record, count: string, addr: string, data: string, rest: string)
    requires IsRecord(r) && IsCount(r, count) && IsAddr(r, addr) && Spells(data, r.data) && NoS(rest)
    ensures Encodes(Data(r, count, addr, data, rest))
  {
  }

  lemma NoSConcat(a: string, b: string)
    requires NoS(a) && NoS(b)
    ensures NoS(a + b)
  {
  }

  lemma CountHex(r: Record, lower: bool)
    requires IsRecord(r)
    ensures IsCount(r, CountText(r, lower))
  {
    RestByte(r.kind + 2 + |r.data|);
    HexRound(r.kind + 2 + |r.data|, BYTE, lower);
  }

  lemma AddrHex(r: Record, lower: bool)
    requires IsRecord(r)
    ensures IsAddr(r, AddrText(r, lower))
  {
    RestFour(r.addr);
    HexRound(r.addr, 2 * (r.kind + 1), lower);
  }

  lemma SumHex(r: Record, lower: bool, eol: string)
    requires IsRecord(r) && NoS(eol)
    ensures NoS(SumText(r, lower) + eol)
  {
    RestByte(Checksum(r));
    HexHasNoS(Checksum(r), BYTE, lower);
    NoSConcat(SumText(r, lower), eol);
  }

  /** A file: every record in its own case, every line with its own ending. */
  datatype FileLine = FileLine(r: Record, lower: bool, eol: string)

  function Encode(ls: seq<FileLine>): seq<Item>
    requires forall i :: 0 <= i < |ls| ==> IsRecord(ls[i].r)
  {
    seq(|ls|, i requires 0 <= i < |ls| => Line(ls[i].r, ls[i].lower, ls[i].eol))
  }

  function Wanted(ls: seq<FileLine>): seq<Write> {
    if ls == [] then []
    else Wanted(ls[..|ls| - 1]) + Stores(ls[|ls| - 1].r.addr, ls[|ls| - 1].r.data)
  }

  lemma {:induction false} EncodeWanted(ls: seq<FileLine>)
    requires forall i :: 0 <= i < |ls| ==> IsRecord(ls[i].r)
    ensures AskedOf(Encode(ls)) == Wanted(ls)
  {
    if ls != [] {
      var n := |ls| - 1;
      EncodeWanted(ls[..n]);
      assert Encode(ls)[..n] == Encode(ls[..n]);
    }
  }

  /** Decoding undoes encoding, whatever state the loader was in. */
  lemma RoundTrip(s: State, ls: seq<FileLine>)
    requires forall i :: 0 <= i < |ls| ==> IsRecord(ls[i].r) && NoS(ls[i].eol)
    ensures Loads(s, Run(s, TextOf(Encode(ls))), Wanted(ls))
  {
    forall i | 0 <= i < |ls| ensures Encodes(Encode(ls)[i]) {
      LineEncodes(ls[i].r, ls[i].lower, ls[i].eol);
    }
    StreamLoads(s, Encode(ls));
    EncodeWanted(ls);
  }

  // ---------- The loader ----------

  /** What memory holds after some stores. */
  function Applied(m: map<int, int>, ws: seq<Write>): map<int, int> {
    AppliedTo(m, ws, |ws|)
  }

  /** After the first n. */
  function AppliedTo(m: map<int, int>, ws: seq<Write>, n: nat): map<int, int>
    requires n <= |ws|
  {
    if n == 0 then m else AppliedTo(m, ws, n - 1)[ws[n - 1].addr := ws[n - 1].byte]
  }

  lemma AppliedMore(m: map<int, int>, ws: seq<Write>, w: Write)
    ensures Applied(m, ws + [w]) == Applied(m, ws)[w.addr := w.byte]
  {
    AppliedSame(m, ws, w, |ws|);
  }

  lemma {:induction false} AppliedSame(m: map<int, int>, ws: seq<Write>, w: Write, n: nat)
    requires n <= |ws|
    ensures AppliedTo(m, ws + [w], n) == AppliedTo(m, ws, n)
  {
    if n > 0 {
      AppliedSame(m, ws, w, n - 1);
    }
  }

  class Loader {
    var column: int
    var addr: int
    var addrSize: int
    var byteCount: int
    var kind: int
    var counter: int
    var temp: int
    var maxAddr: int
    var memory: map<int, int>
    var booted: bool
    ghost var initial: map<int, int>
    ghost var writes: seq<Write>

    ghost function Now(): State
      reads this`column, this`addr, this`addrSize, this`byteCount, this`kind, this`counter, this`temp, this`maxAddr
      reads this`writes, this`booted
    {
      State(column, addr, addrSize, byteCount, kind, counter, temp, maxAddr, writes, booted)
    }

    /** Memory is what the stores made so far have left. */
    ghost predicate Valid()
      reads this`memory, this`initial, this`writes
    {
      memory == Applied(initial, writes)
    }

    constructor (ram: map<int, int>)
      ensures Valid() && Now() == RESET && memory == initial == ram
    {
      column, addr, addrSize, byteCount, kind, counter, temp, maxAddr := 0, 0, 0, 0, 0, 0, 0, 0;
      memory, booted := ram, false;
      initial, writes := ram, [];
    }

    method Poke(at: int, byte: int)
      requires Valid()
      modifies this`memory, this`writes
      ensures Valid() && writes == old(writes) + [Write(at, byte)]
    {
      AppliedMore(initial, writes, Write(at, byte));
      memory := memory[at := byte];
      writes := writes + [Write(at, byte)];
    }

    /** A digit of the data; every second one completes a byte. */
    method DataByte(d0: char)
      requires Valid()
      modifies this`temp, this`counter, this`addr, this`maxAddr, this`memory, this`writes
      ensures Valid() && Now() == DataDigit(old(Now()), d0)
    {
      temp := DoDecode(temp, d0);
      counter := counter - 1;
      if counter < 0 {
        PutByte();
        counter := 1;
      }
    }

    method PutByte()
      requires Valid()
      modifies this`addr, this`maxAddr, this`memory, this`writes
      ensures Valid() && Now() == ByteDone(old(Now()))
    {
      Poke(Wrap(addr), temp % 0x100);
      addr := ToInt32(addr + 1);
      if addr > maxAddr {
        maxAddr := addr;
      }
    }

    method OddDigit()
      requires Valid()
      modifies this`temp, this`memory, this`writes
      ensures Valid() && Now() == Leftover(old(Now()))
    {
      if counter == 0 {
        temp := ToInt32(temp * 16);
        Poke(Wrap(addr), temp % 0x100);
      }
    }

    method HandleByte(d0: char)
      requires Valid()
      modifies this
      ensures Valid() && initial == old(initial) && Now() == Step(old(Now()), d0)
    {
      column := column + 1;
      if d0 == 'S' {
        column := 0;
        addr := 0;
        byteCount := 0;
        kind := 0;
      } else if column == 1 {
        kind := DoDecode(kind, d0);
        var t := kind;
        if t > 3 {
          t := 10 - t;
        }
        addrSize := (t + 1) * 2;
      } else if kind <= 9 && kind > 0 {
        if column <= 3 {
          byteCount := DoDecode(byteCount, d0);
        } else if column <= addrSize + 3 {
          addr := DoDecode(addr, d0);
          counter := 1;
        } else if kind > 0 && kind <= 3 {
          if column <= byteCount * 2 + 1 {
            DataByte(d0);
          } else {
            OddDigit();
          }
        } else if kind >= 7 {
          SumLoaded();
          SumLoaded();
          booted := true;
        }
      }
    }

    /** The loop of the checksum, which is only printed: it moves the address over all that was loaded. */
    method SumLoaded()
      modifies this`addr
      ensures addr == SummedTo(maxAddr)
    {
      addr := BOOT_ADDR;
      while addr < maxAddr
        invariant addr >= BOOT_ADDR && addr % 4 == 0 && (addr > BOOT_ADDR ==> addr - 4 < maxAddr)
      {
        addr := addr + 4;
      }
      SummedOnce(addr, maxAddr);
    }

    /** A stream, byte by byte. */
    method Receive(text: string)
      requires Valid()
      modifies this
      ensures Valid() && initial == old(initial) && Now() == Run(old(Now()), text)
    {
      for i := 0 to |text|
        invariant Valid() && initial == old(initial) && Now() == Run(old(Now()), text[..i])
      {
        RunHead(old(Now()), text, i);
        HandleByte(text[i]);
      }
      assert text[..|text|] == text;
    }

    /** A whole file of records ends up in memory. */
    method Load(ls: seq<FileLine>)
      requires Valid() && forall i :: 0 <= i < |ls| ==> IsRecord(ls[i].r) && NoS(ls[i].eol)
      modifies this
      ensures Valid() && writes == old(writes) + Wanted(ls) && booted == old(booted)
      ensures memory == Applied(initial, old(writes) + Wanted(ls)) && initial == old(initial)
      ensures maxAddr == Highest(old(maxAddr), Wanted(ls))
    {
      RoundTrip(Now(), ls);
      Receive(TextOf(Encode(ls)));
    }
  }
}
