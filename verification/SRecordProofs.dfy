/** The machine of SRecordSpec undoes the encoding of S-records. */
module SRecordProofs {
  import opened Words
  import opened SRecordSpec

  /** A data record: type S1, S2 or S3, and so a 2, 3 or 4 byte address. */
  datatype Record = Record(kind: int, addr: int, data: seq<int>)

  function AddrLimit(kind: int): int {
    if kind == 1 then 0x1_0000 else if kind == 2 then 0x100_0000 else WORD
  }

  predicate IsRecord(r: Record) {
    && 1 <= r.kind <= 3 && 0 <= r.addr < AddrLimit(r.kind) && r.kind + 2 + |r.data| < 0x100
    && forall i :: 0 <= i < |r.data| ==> 0 <= r.data[i] < 0x100
  }

  predicate AllHex(t: string) {
    forall i :: 0 <= i < |t| ==> IsHex(t[i])
  }

  predicate NoS(t: string) {
    forall i :: 0 <= i < |t| ==> t[i] != 'S'
  }

  /** A piece of the stream: a data record, as digits of either case with a checksum and a line
      ending in the rest; or a record of a type that is neither data nor an end. */
  datatype Item =
    | Data(r: Record, count: string, addr: string, data: string, rest: string)
    | Other(kind: char, rest: string)

  function KindDigit(kind: int): char {
    if kind == 1 then '1' else if kind == 2 then '2' else '3'
  }

  function Text(x: Item): string {
    match x
    case Data(r, count, addr, data, rest) => "S" + [KindDigit(r.kind)] + count + addr + data + rest
    case Other(kind, rest) => "S" + [kind] + rest
  }

  /** The digits of t, two by two, are the bytes of data. */
  predicate Spells(t: string, data: seq<int>) {
    && AllHex(t) && |t| == 2 * |data|
    && forall j :: 0 <= j < |data| ==> data[j] == 16 * HexDigit(t[2 * j]) + HexDigit(t[2 * j + 1])
  }

  predicate Encodes(x: Item) {
    match x
    case Data(r, count, addr, data, rest) =>
      && IsRecord(r) && AllHex(count) && AllHex(addr) && NoS(rest)
      && |count| == 2 && HexValue(count) == r.kind + 2 + |r.data|
      && |addr| == 2 * (r.kind + 1) && HexValue(addr) == r.addr
      && Spells(data, r.data)
    case Other(kind, rest) =>
      var t := DoDecode(0, kind);
      kind != 'S' && NoS(rest) && t !in {1, 2, 3, 7, 8, 9}
  }

  /** The stores a record asks for. */
  function Stores(addr: int, data: seq<int>): seq<Write> {
    seq(|data|, j requires 0 <= j < |data| => Write(Wrap(addr + j), data[j]))
  }

  function Asked(x: Item): seq<Write> {
    if x.Data? then Stores(x.r.addr, x.r.data) else []
  }

  /** The highest end address so far, as an int. */
  function Highest(m: int, ws: seq<Write>): int {
    if ws == [] then m
    else
      var h, e := Highest(m, ws[..|ws| - 1]), ToInt32(ws[|ws| - 1].addr + 1);
      if e > h then e else h
  }

  // ---------- One record ----------

  lemma HexHead(t: string, i: nat)
    requires AllHex(t) && i < |t|
    ensures HexValue(t[..i + 1]) == 16 * HexValue(t[..i]) + HexDigit(t[i])
  {
    assert t[..i + 1][..i] == t[..i];
  }

  lemma RunHead(s: State, t: string, i: nat)
    requires i < |t|
    ensures Run(s, t[..i + 1]) == Step(Run(s, t[..i]), t[i])
  {
    assert t[..i + 1][..i] == t[..i];
  }

  lemma {:induction false} AddrPhase(s: State, a: string, i: nat)
    requires AllHex(a) && i <= |a| == s.addrSize && s.column == 3 && s.addr == 0 && 0 < s.kind <= 3
    ensures Run(s, a[..i]) ==
      s.(column := 3 + i, addr := ToInt32(HexValue(a[..i])), counter := if i > 0 then 1 else s.counter)
  {
    if i > 0 {
      AddrPhase(s, a, i - 1);
      RunHead(s, a, i - 1);
      HexHead(a, i - 1);
      AddrDigit(Run(s, a[..i - 1]), a[i - 1], HexValue(a[..i - 1]));
    }
  }

  lemma AddrDigit(s: State, c: char, v: nat)
    requires IsHex(c) && 0 < s.kind <= 3 && 3 <= s.column < s.addrSize + 3 && s.addr == ToInt32(v)
    ensures Step(s, c) == s.(column := s.column + 1, addr := ToInt32(16 * v + HexDigit(c)), counter := 1)
  {
    DecodeHex(s.addr, c);
    ToIntShift(v, HexDigit(c));
  }

  /** The state a record's data leaves, all but the scratch byte. */
  function Stored(s: State, a: int, data: seq<int>, temp: int): State {
    s.(column := s.column + 2 * |data|, addr := ToInt32(a + |data|), temp := temp,
       writes := s.writes + Stores(a, data), maxAddr := Highest(s.maxAddr, Stores(a, data)))
  }

  ghost predicate DataReady(s: State, a: int, n: int) {
    && 0 < s.kind <= 3 && s.counter == 1 && s.addr == ToInt32(a)
    && s.column >= s.addrSize + 3 && s.column >= 3 && s.column + 2 * n <= s.byteCount * 2 + 1
  }

  /** The two digits of a byte, whatever was shifted in before them. */
  lemma TwoDigits(t: int, c: char, d: char)
    requires IsHex(c) && IsHex(d)
    ensures DoDecode(DoDecode(t, c), d) % 0x100 == 16 * HexDigit(c) + HexDigit(d)
  {
    DecodeHex(t, c);
    DecodeHex(DoDecode(t, c), d);
    LowByteShift(t, HexDigit(c), HexDigit(d));
  }

  lemma LowByteShift(t: int, h: int, l: int)
    requires 0 <= h < 16 && 0 <= l < 16
    ensures ToInt32(16 * ToInt32(16 * t + h) + l) % 0x100 == 16 * h + l
  {
    ToIntShift(16 * t + h, l);
    LowByte(16 * (16 * t + h) + l);
    assert 16 * (16 * t + h) + l == 0x100 * t + (16 * h + l);
    LowPart(t, 16 * h + l);
  }

  lemma LowPart(t: int, b: int)
    requires 0 <= b < 0x100
    ensures (0x100 * t + b) % 0x100 == b
  {
  }

  lemma LowByte(x: int)
    ensures ToInt32(x) % 0x100 == x % 0x100
  {
  }

  lemma TwoSteps(s: State, a: int, c: char, d: char)
    requires DataReady(s, a, 1) && IsHex(c) && IsHex(d)
    ensures Step(Step(s, c), d) == Stored(s, a, [16 * HexDigit(c) + HexDigit(d)], DoDecode(DoDecode(s.temp, c), d))
  {
    hide DoDecode, HexDigit, Highest;
    var b := 16 * HexDigit(c) + HexDigit(d);
    TwoDigits(s.temp, c, d);
    FirstStore(s.maxAddr, a, b);
    ToIntNext(a);
  }

  lemma FirstStore(m: int, a: int, b: int)
    ensures Stores(a, [b]) == [Write(Wrap(a), b)]
    ensures Highest(m, Stores(a, [b])) == if ToInt32(Wrap(a) + 1) > m then ToInt32(Wrap(a) + 1) else m
  {
    var ws := Stores(a, [b]);
    assert ws == [Write(Wrap(a), b)] && ws[..0] == [];
  }

  lemma ToIntNext(a: int)
    ensures ToInt32(ToInt32(a) + 1) == ToInt32(a + 1) == ToInt32(Wrap(a) + 1)
    ensures Wrap(ToInt32(a)) == Wrap(a)
  {
    hide ToInt32;
    WordTurns(a);
    ToIntTurn(a + 1, (ToInt32(a) - a) / 0x1_0000_0000);
    ToIntTurn(a + 1, -(a / 0x1_0000_0000));
  }

  lemma WordTurns(a: int)
    ensures ToInt32(a) == a + (ToInt32(a) - a) / 0x1_0000_0000 * 0x1_0000_0000
    ensures Wrap(a) == a - a / 0x1_0000_0000 * 0x1_0000_0000 && Wrap(ToInt32(a)) == Wrap(a)
  {
  }

  lemma StoresMore(a: int, data: seq<int>, b: int)
    ensures Stores(a, data + [b]) == Stores(a, data) + Stores(a + |data|, [b])
  {
  }

  lemma HighestMore(m: int, ws: seq<Write>, w: Write)
    ensures Highest(m, ws + [w]) == Highest(Highest(m, ws), [w])
  {
    assert (ws + [w])[..|ws|] == ws && [w][..0] == [];
  }

  lemma StoredMore(s: State, a: int, data: seq<int>, b: int, t: int, u: int)
    ensures Stored(Stored(s, a, data, t), a + |data|, [b], u) == Stored(s, a, data + [b], u)
  {
    StoresMore(a, data, b);
    HighestMore(s.maxAddr, Stores(a, data), Stores(a + |data|, [b])[0]);
    assert Stores(a + |data|, [b]) == [Stores(a + |data|, [b])[0]];
    assert s.writes + Stores(a, data) + Stores(a + |data|, [b]) ==
      s.writes + (Stores(a, data) + Stores(a + |data|, [b]));
  }

  /** Storing data takes s to s'. */
  ghost predicate Completes(s: State, a: int, data: seq<int>, s': State) {
    exists temp :: s' == Stored(s, a, data, temp)
  }

  lemma {:induction false} DataPhase(s: State, a: int, t: string, data: seq<int>, j: nat)
    requires Spells(t, data) && j <= |data| && DataReady(s, a, |data|)
    ensures Completes(s, a, data[..j], Run(s, t[..2 * j]))
  {
    hide Step;
    if j == 0 {
      assert s.writes + Stores(a, []) == s.writes;
      assert Run(s, t[..0]) == Stored(s, a, data[..0], s.temp);
    } else {
      DataPhase(s, a, t, data, j - 1);
      var k := 2 * (j - 1);
      assert data[j - 1] == 16 * HexDigit(t[k]) + HexDigit(t[k + 1]);
      assert data[..j] == data[..j - 1] + [data[j - 1]];
      RunTwo(s, a, data[..j - 1], t, k);
    }
  }

  lemma RunTwo(s: State, a: int, data: seq<int>, t: string, k: nat)
    requires k + 1 < |t| && AllHex(t) && DataReady(s, a, |data| + 1) && Completes(s, a, data, Run(s, t[..k]))
    ensures Completes(s, a, data + [16 * HexDigit(t[k]) + HexDigit(t[k + 1])], Run(s, t[..k + 2]))
  {
    hide Step;
    OneMore(s, a, data, Run(s, t[..k]), t[k], t[k + 1]);
    RunHeads(s, t, k);
  }

  lemma RunHeads(s: State, t: string, k: nat)
    requires k + 1 < |t|
    ensures Run(s, t[..k + 2]) == Step(Step(Run(s, t[..k]), t[k]), t[k + 1])
  {
    RunHead(s, t, k);
    RunHead(s, t, k + 1);
  }

  lemma OneMore(s: State, a: int, data: seq<int>, m: State, c: char, d: char)
    requires IsHex(c) && IsHex(d) && DataReady(s, a, |data| + 1) && Completes(s, a, data, m)
    ensures Completes(s, a, data + [16 * HexDigit(c) + HexDigit(d)], Step(Step(m, c), d))
  {
    var temp :| m == Stored(s, a, data, temp);
    NextByte(s, a, data, temp, c, d);
  }

  lemma NextByte(s: State, a: int, data: seq<int>, temp: int, c: char, d: char)
    requires IsHex(c) && IsHex(d) && DataReady(s, a, |data| + 1)
    ensures var b := 16 * HexDigit(c) + HexDigit(d); var m := Stored(s, a, data, temp);
      Step(Step(m, c), d) == Stored(s, a, data + [b], DoDecode(DoDecode(temp, c), d))
  {
    var m := Stored(s, a, data, temp);
    TwoSteps(m, a + |data|, c, d);
    StoredMore(s, a, data, 16 * HexDigit(c) + HexDigit(d), temp, DoDecode(DoDecode(temp, c), d));
  }

  /** Checksum and line ending leave no trace. */
  lemma {:induction false} RestPhase(s: State, t: string, i: nat)
    requires NoS(t) && i <= |t| && 0 < s.kind <= 3 && s.counter == 1
    requires s.column >= s.addrSize + 3 && s.column >= s.byteCount * 2 + 1 && s.column >= 3
    ensures Run(s, t[..i]) == s.(column := s.column + i)
  {
    if i > 0 {
      RestPhase(s, t, i - 1);
      RunHead(s, t, i - 1);
    }
  }

  lemma HeadPhase(s: State, kind: int)
    requires 1 <= kind <= 3
    ensures Run(s, "S" + [KindDigit(kind)])
         == s.(column := 1, addr := 0, byteCount := 0, kind := kind, addrSize := 2 * (kind + 1))
  {
    var c := KindDigit(kind);
    DecodeHex(0, c);
    assert "S"[..0] == [] && ("S" + [c])[..1] == "S";
    assert Run(s, "S") == s.(column := 0, addr := 0, byteCount := 0, kind := 0);
  }

  lemma SmallDecode(a: int, c: char)
    requires 0 <= a < 16 && IsHex(c)
    ensures DoDecode(a, c) == 16 * a + HexDigit(c)
  {
    hide DoDecode, HexDigit;
    DecodeHex(a, c);
  }

  lemma TwoHex(t: string)
    requires |t| == 2 && AllHex(t)
    ensures HexValue(t) == 16 * HexDigit(t[0]) + HexDigit(t[1])
  {
    HexHead(t, 0);
    HexHead(t, 1);
    assert t[..2] == t && t[..0] == [];
  }

  lemma CountPhase(s: State, t: string)
    requires s.column == 1 && 1 <= s.kind <= 3 && s.byteCount == 0 && |t| == 2 && AllHex(t)
    ensures Run(s, t) == s.(column := 3, byteCount := HexValue(t))
  {
    var d := HexDigit(t[0]);
    SmallDecode(0, t[0]);
    SmallDecode(d, t[1]);
    TwoHex(t);
    assert Step(s, t[0]) == s.(column := 2, byteCount := d);
    assert t[..1] == [t[0]] && [t[0]][..0] == [] && t[..2] == t;
    assert Run(s, t[..1]) == Step(s, t[0]);
  }

  /** Loading a text leaves these stores, on top of what was there. */
  ghost predicate Loads(s: State, s': State, ws: seq<Write>) {
    && s'.writes == s.writes + ws && s'.maxAddr == Highest(s.maxAddr, ws) && s'.booted == s.booted
  }

  lemma DataLoads(s: State, x: Item)
    requires x.Data? && Encodes(x)
    ensures Loads(s, Run(s, Text(x)), Asked(x))
  {
    var r, head := x.r, "S" + [KindDigit(x.r.kind)];
    var s1 := s.(column := 1, addr := 0, byteCount := 0, kind := r.kind, addrSize := 2 * (r.kind + 1));
    var s2 := s1.(column := 3, byteCount := HexValue(x.count));
    var s3 := s2.(column := 3 + |x.addr|, addr := ToInt32(r.addr), counter := 1);
    HeadPhase(s, r.kind);
    CountPhase(s1, x.count);
    AddrPhase(s2, x.addr, |x.addr|);
    assert x.addr[..|x.addr|] == x.addr;
    BodyPhase(s3, x);
    RunConcat(s, head, x.count);
    RunConcat(s, head + x.count, x.addr);
    RunConcat(s, head + x.count + x.addr, x.data);
    RunConcat(s, head + x.count + x.addr + x.data, x.rest);
  }

  lemma BodyPhase(s: State, x: Item)
    requires x.Data? && Encodes(x) && s.kind == x.r.kind && s.counter == 1 && s.addr == ToInt32(x.r.addr)
    requires s.column == 3 + s.addrSize && s.addrSize == |x.addr| && s.byteCount == HexValue(x.count)
    ensures Loads(s, Run(Run(s, x.data), x.rest), Asked(x))
  {
    var r := x.r;
    DataPhase(s, r.addr, x.data, r.data, |r.data|);
    assert x.data[..2 * |r.data|] == x.data && r.data[..|r.data|] == r.data;
    var temp :| Run(s, x.data) == Stored(s, r.addr, r.data, temp);
    RestPhase(Stored(s, r.addr, r.data, temp), x.rest, |x.rest|);
    assert x.rest[..|x.rest|] == x.rest;
  }

  ghost predicate Inert(s: State) {
    s.kind !in {1, 2, 3, 7, 8, 9} && s.column >= 1
  }

  lemma {:induction false} InertPhase(s: State, t: string, i: nat)
    requires NoS(t) && i <= |t| && Inert(s)
    ensures Inert(Run(s, t[..i])) && Loads(s, Run(s, t[..i]), [])
  {
    if i == 0 {
      assert s.writes + [] == s.writes;
    } else {
      InertPhase(s, t, i - 1);
      RunHead(s, t, i - 1);
    }
  }

  lemma OtherLoads(s: State, x: Item)
    requires x.Other? && Encodes(x)
    ensures Loads(s, Run(s, Text(x)), [])
  {
    var head := "S" + [x.kind];
    assert "S"[..0] == [] && head[..1] == "S";
    assert Run(s, "S") == s.(column := 0, addr := 0, byteCount := 0, kind := 0);
    var s1 := Run(s, head);
    assert s1.kind == DoDecode(0, x.kind) && s1.column == 1;
    InertPhase(s1, x.rest, |x.rest|);
    assert x.rest[..|x.rest|] == x.rest;
    RunConcat(s, head, x.rest);
  }

  // ---------- Streams ----------

  function TextOf(xs: seq<Item>): string {
    if xs == [] then [] else TextOf(xs[..|xs| - 1]) + Text(xs[|xs| - 1])
  }

  function AskedOf(xs: seq<Item>): seq<Write> {
    if xs == [] then [] else AskedOf(xs[..|xs| - 1]) + Asked(xs[|xs| - 1])
  }

  lemma {:induction false} HighestConcat(m: int, a: seq<Write>, b: seq<Write>)
    ensures Highest(m, a + b) == Highest(Highest(m, a), b)
  {
    if b == [] {
      assert a + b == a;
    } else {
      HighestConcat(m, a, b[..|b| - 1]);
      assert (a + b)[..|a + b| - 1] == a + b[..|b| - 1];
    }
  }

  lemma LoadsMore(s: State, m: State, t: State, a: seq<Write>, b: seq<Write>)
    requires Loads(s, m, a) && Loads(m, t, b)
    ensures Loads(s, t, a + b)
  {
    HighestConcat(s.maxAddr, a, b);
    assert s.writes + a + b == s.writes + (a + b);
  }

  /** Whatever came before, a stream of records is loaded in full: just the stores it asks for, in
      its order, and no start of the program. */
  lemma {:induction false} StreamLoads(s: State, xs: seq<Item>)
    requires forall i :: 0 <= i < |xs| ==> Encodes(xs[i])
    ensures Loads(s, Run(s, TextOf(xs)), AskedOf(xs))
  {
    if xs == [] {
      assert s.writes + [] == s.writes;
    } else {
      var n := |xs| - 1;
      StreamLoads(s, xs[..n]);
      var m := Run(s, TextOf(xs[..n]));
      RunConcat(s, TextOf(xs[..n]), Text(xs[n]));
      if xs[n].Data? { DataLoads(m, xs[n]); } else { OtherLoads(m, xs[n]); }
      LoadsMore(s, m, Run(m, Text(xs[n])), AskedOf(xs[..n]), Asked(xs[n]));
    }
  }

  /** The end of what a record loads. */
  function End(x: Item): int {
    if x.Data? then x.r.addr + |x.r.data| else 0
  }

  predicate HasData(x: Item) {
    x.Data? && x.r.data != []
  }

  /** h is the greatest of m and the ends of the records with data. */
  ghost predicate IsHighest(h: int, m: int, xs: seq<Item>) {
    && h >= m && (forall i :: 0 <= i < |xs| && HasData(xs[i]) ==> h >= End(xs[i]))
    && (h == m || exists i :: 0 <= i < |xs| && HasData(xs[i]) && h == End(xs[i]))
  }

  lemma HighestOfOne(m: int, a: int, b: int)
    requires 0 <= a && a + 1 < 0x8000_0000
    ensures Highest(m, [Write(a, b)]) == if a + 1 > m then a + 1 else m
  {
    assert [Write(a, b)][..0] == [];
  }

  lemma LastStore(a: int, data: seq<int>)
    requires data != [] && 0 <= a && a + |data| < 0x8000_0000
    ensures Stores(a, data) == Stores(a, data[..|data| - 1]) + [Write(a + |data| - 1, data[|data| - 1])]
  {
    var n := |data| - 1;
    assert Wrap(a + n) == a + n;
    assert Stores(a, data)[n] == Write(Wrap(a + n), data[n]);
  }

  lemma {:induction false} HighestOfData(m: int, a: int, data: seq<int>)
    requires 0 <= a && a + |data| < 0x8000_0000
    ensures Highest(m, Stores(a, data)) == if data != [] && a + |data| > m then a + |data| else m
  {
    if data != [] {
      var n := |data| - 1;
      HighestOfData(m, a, data[..n]);
      LastStore(a, data);
      HighestMore(m, Stores(a, data[..n]), Write(a + n, data[n]));
      HighestOfOne(Highest(m, Stores(a, data[..n])), a + n, data[n]);
    }
  }

  /** Below 2 GB SREC_MAX_ADDR is the greatest end of all records with data, or what it was. */
  lemma {:induction false} HighestIsEnd(m: int, xs: seq<Item>)
    requires forall i :: 0 <= i < |xs| ==> Encodes(xs[i]) && (HasData(xs[i]) ==> End(xs[i]) < 0x8000_0000)
    ensures IsHighest(Highest(m, AskedOf(xs)), m, xs)
  {
    if xs != [] {
      var n := |xs| - 1;
      HighestIsEnd(m, xs[..n]);
      HighestConcat(m, AskedOf(xs[..n]), Asked(xs[n]));
      HighestOfItem(Highest(m, AskedOf(xs[..n])), xs[n]);
      HighestStep(Highest(m, AskedOf(xs[..n])), m, xs);
    }
  }

  lemma HighestOfItem(h: int, x: Item)
    requires Encodes(x) && (HasData(x) ==> End(x) < 0x8000_0000)
    ensures Highest(h, Asked(x)) == if HasData(x) && End(x) > h then End(x) else h
  {
    if HasData(x) {
      HighestOfData(h, x.r.addr, x.r.data);
    } else {
      assert Asked(x) == [];
    }
  }

  lemma HighestStep(h: int, m: int, xs: seq<Item>)
    requires xs != [] && IsHighest(h, m, xs[..|xs| - 1])
    ensures var x := xs[|xs| - 1]; IsHighest(if HasData(x) && End(x) > h then End(x) else h, m, xs)
  {
    var n := |xs| - 1;
    if h != m {
      var i :| 0 <= i < n && HasData(xs[..n][i]) && h == End(xs[..n][i]);
      assert HasData(xs[i]) && h == End(xs[i]);
    }
    forall i | 0 <= i < n && HasData(xs[i]) ensures h >= End(xs[i]) {
      assert HasData(xs[..n][i]);
    }
  }

  lemma {:induction false} HighestIsInt(m: int, ws: seq<Write>)
    requires m < 0x8000_0000
    ensures Highest(m, ws) < 0x8000_0000
  {
    if ws != [] {
      HighestIsInt(m, ws[..|ws| - 1]);
    }
  }

  /** Which it is exactly when no record reaches the 2 GB line. */
  lemma HighestExactly(m: int, xs: seq<Item>)
    requires m < 0x8000_0000 && forall i :: 0 <= i < |xs| ==> Encodes(xs[i])
    ensures IsHighest(Highest(m, AskedOf(xs)), m, xs)
       <==> forall i :: 0 <= i < |xs| && HasData(xs[i]) ==> End(xs[i]) < 0x8000_0000
  {
    HighestIsInt(m, AskedOf(xs));
    if forall i :: 0 <= i < |xs| && HasData(xs[i]) ==> End(xs[i]) < 0x8000_0000 {
      HighestIsEnd(m, xs);
    }
  }

  /** Across that line SREC_ADDR turns negative, and is no longer the greater: a record of one byte there
      leaves SREC_MAX_ADDR as it was. */
  lemma HighestWraps(m: int)
    requires m >= 0
    ensures Highest(m, Stores(0x8000_0000, [0])) == m
  {
    assert Stores(0x8000_0000, [0]) == [Write(0x8000_0000, 0)] && [Write(0x8000_0000, 0)][..0] == [];
  }

  /** The address and count of an S7, S8 or S9 record are passed over; its checksum starts the program,
      once SREC_ADDR has gone over what was loaded. */
  lemma EndBoots(s: State, c: char, body: string, last: char)
    requires '7' <= c <= '9' && NoS(body) && last != 'S' && |body| == 2 + 2 * (11 - HexDigit(c))
    ensures Loads(s, Run(s, "S" + [c] + body), [])
    ensures Run(s, "S" + [c] + body + [last])
         == Run(s, "S" + [c] + body).(booted := true, column := |body| + 2, addr := SummedTo(s.maxAddr))
  {
    var head, d := "S" + [c], HexDigit(c);
    EndHead(s, c);
    var s1 := s.(column := 1, addr := 0, byteCount := 0, kind := d, addrSize := 2 * (11 - d));
    AddressPassed(s1, body, |body|);
    assert body[..|body|] == body;
    RunConcat(s, head, body);
    assert s.writes + [] == s.writes;
    var t := head + body + [last];
    assert t[..|t| - 1] == head + body;
    EndStep(Run(s, head + body), last);
  }

  lemma EndHead(s: State, c: char)
    requires '7' <= c <= '9'
    ensures var d := HexDigit(c);
      Run(s, "S" + [c]) == s.(column := 1, addr := 0, byteCount := 0, kind := d, addrSize := 2 * (11 - d))
  {
    var head := "S" + [c];
    SmallDecode(0, c);
    assert "S"[..0] == [] && head[..1] == "S";
    assert Run(s, "S") == s.(column := 0, addr := 0, byteCount := 0, kind := 0);
  }

  lemma EndStep(s: State, last: char)
    requires 7 <= s.kind <= 9 && s.column >= s.addrSize + 3 && s.column >= 3 && last != 'S'
    ensures Step(s, last) == s.(booted := true, column := s.column + 1, addr := SummedTo(s.maxAddr))
  {
  }

  lemma {:induction false} AddressPassed(s: State, t: string, i: nat)
    requires NoS(t) && i <= |t| == 2 + s.addrSize && s.column == 1 && 7 <= s.kind <= 9
    ensures var s' := Run(s, t[..i]);
      s' == s.(column := 1 + i, addr := s'.addr, byteCount := s'.byteCount, counter := s'.counter)
  {
    if i > 0 {
      AddressPassed(s, t, i - 1);
      RunHead(s, t, i - 1);
    }
  }

  // ---------- Digits without a partner ----------

  /** Within a record's data the counter says whether a digit's partner has come; anywhere else it has. */
  ghost predicate Paired(s: State) {
    && s.column >= 0 && (s.column == 0 ==> s.kind == 0)
    && (1 <= s.kind <= 3 ==> s.addrSize == 2 * (s.kind + 1))
    && (1 <= s.kind <= 3 && s.column > 3 ==>
          s.counter == if s.addrSize + 3 < s.column <= 2 * s.byteCount + 1 then s.column % 2 else 1)
  }

  lemma StepPaired(s: State, c: char)
    requires Paired(s)
    ensures Paired(Step(s, c))
  {
    hide DoDecode;
  }

  lemma {:induction false} RunPaired(t: string)
    ensures Paired(Run(RESET, t))
  {
    if t != [] {
      RunPaired(t[..|t| - 1]);
      StepPaired(Run(RESET, t[..|t| - 1]), t[|t| - 1]);
    }
  }

  /** Whatever the stream, past a record's data nothing is ever stored: there is no digit left over. */
  lemma NothingLeftOver(t: string, c: char)
    requires var s := Run(RESET, t);
      1 <= s.kind <= 3 && s.column >= s.addrSize + 3 && s.column >= 2 * s.byteCount + 1 && c != 'S'
    ensures Step(Run(RESET, t), c) == Run(RESET, t).(column := Run(RESET, t).column + 1)
  {
    hide DoDecode, Run;
    RunPaired(t);
  }
}
