/** What passes over the PS/2 keyboard line (lib832soc/ps2.c), and the order it has to keep. */
module PortTrace {
  import opened Words

  type Word = nat  // an unsigned int

  const PS2_BAT: Word := 0xaa
  const PS2_ACK: Word := 0xfa
  const PS2_ERROR: Word := 0xfc
  const PS2_RESEND: Word := 0xfe

  /** Bit BIT_PS2_RECV of a port's register: a byte has come, and is in the low bits. */
  predicate HasByte(reading: Word) {
    reading / 0x800 % 2 == 1
  }

  /** Bit BIT_PS2_CTS: the port can take a byte to send. */
  predicate CanSend(reading: Word) {
    reading / 0x400 % 2 == 1
  }

  function ByteOf(word: Word): Word {
    word % 0x100
  }

  /** Bit 8 of a queued word, the place of PS2_FLAG_WAITACK: this byte has to be answered. */
  predicate IsMarked(word: Word) {
    word / 0x100 % 2 == 1
  }

  /** The word queued for a char, x | PS2_FLAG_WAITACK; a negative char has all high bits set. */
  function Marked(x: int): Word
    requires -0x80 <= x < 0x100
  {
    if x < 0 then x + 0x1_0000_0000 else x + 0x100
  }

  lemma MarkedKeeps(x: int)
    requires -0x80 <= x < 0x100
    ensures IsMarked(Marked(x)) && ByteOf(Marked(x)) == x % 0x100
  {
  }

  /** A port's register: a byte in bits 0 to 7, and the two bits 10 and 11 among others. */
  function Register(b: Word, middle: Word, clear: bool, received: bool, high: Word): Word {
    b + 0x100 * middle + (if clear then 0x400 else 0) + (if received then 0x800 else 0) + 0x1000 * high
  }

  lemma RegisterReads(b: Word, middle: Word, clear: bool, received: bool, high: Word)
    requires b < 0x100 && middle < 4
    ensures var r := Register(b, middle, clear, received, high);
      HasByte(r) == received && CanSend(r) == clear && ByteOf(r) == b
  {
    hide HasByte, CanSend, ByteOf;
    var c, d := if clear then 1 else 0, if received then 1 else 0;
    var r := b + 0x100 * middle + 0x400 * c + 0x800 * d + 0x1000 * high;
    assert Register(b, middle, clear, received, high) == r;
    LowByte(r, b, middle + 4 * c + 8 * d + 16 * high);
    BitTen(r, b + 0x100 * middle, c, d + 2 * high);
    BitEleven(r, b + 0x100 * middle + 0x400 * c, d, high);
  }

  lemma LowByte(r: Word, b: Word, q: Word)
    requires r == 0x100 * q + b && b < 0x100
    ensures ByteOf(r) == b
  {
  }

  lemma BitTen(r: Word, low: Word, c: Word, q: Word)
    requires r == 0x800 * q + 0x400 * c + low && low < 0x400 && c <= 1
    ensures CanSend(r) <==> c == 1
  {
    DivideUnique(r, 0x400, 2 * q + c, low);
  }

  lemma BitEleven(r: Word, low: Word, d: Word, q: Word)
    requires r == 0x1000 * q + 0x800 * d + low && low < 0x800 && d <= 1
    ensures HasByte(r) <==> d == 1
  {
    DivideUnique(r, 0x800, 2 * q + d, low);
  }

  predicate IsReply(b: Word) {
    b == 0xaa || b == 0xfa || b == 0xfc || b == 0xfe
  }

  /** The bits PS2_FLAG_BAT, _ACK, _ERROR, _RESEND and _WAITACK of the flags word. */
  datatype Flags = Flags(bat: bool, ack: bool, error: bool, resend: bool, waitack: bool)

  const NO_FLAGS := Flags(false, false, false, false, false)

  /** Cleared: the program has taken these flags away. */
  datatype Event = Sent(word: Word) | Received(byte: Word) | Cleared(flags: Flags)

  type Trace = seq<Event>

  predicate Releases(e: Event) {
    (e.Cleared? && e.flags.waitack) || (e.Received? && IsReply(e.byte))
  }

  /** A byte has been sent, and nothing since has answered it. */
  predicate Waiting(t: Trace) {
    t != [] && (t[|t| - 1].Sent? || (!Releases(t[|t| - 1]) && Waiting(t[..|t| - 1])))
  }

  /** Between two sent bytes there is an answer to the first. */
  ghost predicate Orderly(t: Trace) {
    forall i, j :: 0 <= i < j < |t| && t[i].Sent? && t[j].Sent? ==> Answered(t, i, j)
  }

  ghost predicate Answered(t: Trace, i: int, j: int) {
    exists k :: 0 <= i < k < j <= |t| && Releases(t[k])
  }

  /** A line that is not waiting has had every sent byte answered, and the other way round. */
  lemma {:induction false} WaitingMeans(t: Trace)
    ensures !Waiting(t) <==> forall i :: 0 <= i < |t| && t[i].Sent? ==> Answered(t, i, |t|)
  {
    if t == [] {
    } else {
      var s, n := t[..|t| - 1], |t| - 1;
      WaitingMeans(s);
      if t[n].Sent? {
        assert !Answered(t, n, n + 1);
      } else if Releases(t[n]) {
        forall i | 0 <= i < n ensures Answered(t, i, |t|) {
        }
      } else {
        forall i | 0 <= i < n ensures Answered(s, i, n) <==> Answered(t, i, n + 1) {
          if Answered(s, i, n) {
            var k :| i < k < n && Releases(s[k]);
            assert Releases(t[k]);
          }
          if Answered(t, i, n + 1) {
            var k :| i < k < n + 1 && Releases(t[k]);
            assert Releases(s[k]);
          }
        }
        assert forall i :: 0 <= i < n ==> s[i] == t[i];
      }
    }
  }

  /** Sending only when not waiting keeps the order. */
  lemma OrderlyMore(t: Trace, e: Event)
    requires Orderly(t) && (e.Sent? ==> !Waiting(t))
    ensures Orderly(t + [e])
  {
    var u := t + [e];
    WaitingMeans(t);
    forall i, j | 0 <= i < j < |u| && u[i].Sent? && u[j].Sent? ensures Answered(u, i, j) {
      assert t[i].Sent? && Answered(t, i, j);
      var k :| i < k < j && Releases(t[k]);
      assert Releases(u[k]);
    }
  }

  lemma WaitingMore(t: Trace, e: Event)
    ensures Waiting(t + [e]) <==> e.Sent? || (!Releases(e) && Waiting(t))
  {
    assert (t + [e])[..|t|] == t;
  }

  /** The bytes that went out, and those that came in. */
  function Outgoing(t: Trace): seq<Word> {
    if t == [] then []
    else Outgoing(t[..|t| - 1]) + if t[|t| - 1].Sent? then [t[|t| - 1].word] else []
  }

  function Incoming(t: Trace): seq<Word> {
    if t == [] then []
    else Incoming(t[..|t| - 1]) + if t[|t| - 1].Received? then [t[|t| - 1].byte] else []
  }

  lemma TrafficMore(t: Trace, e: Event)
    ensures Outgoing(t + [e]) == Outgoing(t) + if e.Sent? then [e.word] else []
    ensures Incoming(t + [e]) == Incoming(t) + if e.Received? then [e.byte] else []
  {
    assert (t + [e])[..|t|] == t;
  }

  // ---------- The flags word ----------

  function Both(a: Flags, b: Flags): Flags {
    Flags(a.bat && b.bat, a.ack && b.ack, a.error && b.error, a.resend && b.resend, a.waitack && b.waitack)
  }

  function Without(a: Flags, b: Flags): Flags {
    Flags(a.bat && !b.bat, a.ack && !b.ack, a.error && !b.error, a.resend && !b.resend, a.waitack && !b.waitack)
  }

  /** What a received byte does to the keyboard's flags. */
  function Replied(f: Flags, b: Word): Flags {
    if !f.waitack then f
    else if b == PS2_BAT then f.(bat := true, waitack := false)
    else if b == PS2_ACK then f.(ack := true, waitack := false)
    else if b == PS2_ERROR then f.(error := true, waitack := false)
    else if b == PS2_RESEND then f.(resend := true, waitack := false)
    else f
  }

  /** The flag that stands for a reply: 0xaa after the self test, 0xfa for a command taken, 0xfc for an error,
      0xfe to have it sent again. */
  predicate FlagOf(f: Flags, reply: Word) {
    (reply == 0xaa && f.bat) || (reply == 0xfa && f.ack) || (reply == 0xfc && f.error) || (reply == 0xfe && f.resend)
  }

  /** That reply has come while the line was waiting, and its flag has not been taken away since. */
  ghost predicate Raised(t: Trace, reply: Word) {
    exists i :: 0 <= i < |t| && RaisedAt(t, reply, i)
  }

  ghost predicate RaisedAt(t: Trace, reply: Word, i: int)
    requires 0 <= i < |t|
  {
    && t[i] == Received(reply) && Waiting(t[..i])
    && forall j :: i < j < |t| && t[j].Cleared? ==> !FlagOf(t[j].flags, reply)
  }

  lemma RaisedMore(t: Trace, e: Event, reply: Word)
    ensures Raised(t + [e], reply) <==>
      (e == Received(reply) && Waiting(t)) || (Raised(t, reply) && !(e.Cleared? && FlagOf(e.flags, reply)))
  {
    var u, n := t + [e], |t|;
    assert u[..n] == t;
    if Raised(u, reply) {
      var i :| 0 <= i < |u| && RaisedAt(u, reply, i);
      if i < n {
        assert u[..i] == t[..i] && forall j :: 0 <= j < n ==> u[j] == t[j];
        assert RaisedAt(t, reply, i) && u[n] == e;
      }
    }
    if Raised(t, reply) && !(e.Cleared? && FlagOf(e.flags, reply)) {
      var i :| 0 <= i < n && RaisedAt(t, reply, i);
      assert u[..i] == t[..i] && RaisedAt(u, reply, i);
    }
    if e == Received(reply) && Waiting(t) {
      assert RaisedAt(u, reply, n);
    }
  }

  /** The flags say what has happened: whether the line waits, and which replies have come. */
  ghost predicate Tells(f: Flags, t: Trace) {
    && (f.waitack <==> Waiting(t)) && (f.bat <==> Raised(t, 0xaa)) && (f.ack <==> Raised(t, 0xfa))
    && (f.error <==> Raised(t, 0xfc)) && (f.resend <==> Raised(t, 0xfe))
  }

  /** They go on to do so, whichever way the line goes on. */
  lemma TellsMore(f: Flags, t: Trace, e: Event)
    requires Tells(f, t)
    ensures Tells(match e
      case Sent(_) => f.(waitack := true)
      case Received(b) => Replied(f, b)
      case Cleared(g) => Without(f, g), t + [e])
  {
    WaitingMore(t, e);
    RaisedMore(t, e, 0xaa);
    RaisedMore(t, e, 0xfa);
    RaisedMore(t, e, 0xfc);
    RaisedMore(t, e, 0xfe);
  }

  /** A reply once seen stays until it is cleared. */
  predicate KeepsReplies(a: Flags, b: Flags) {
    (a.bat ==> b.bat) && (a.ack ==> b.ack) && (a.error ==> b.error) && (a.resend ==> b.resend)
  }

  /** The bytes among a run of readings. */
  function BytesOf(readings: seq<Word>): seq<Word> {
    if readings == [] then []
    else BytesOf(readings[..|readings| - 1])
         + if HasByte(readings[|readings| - 1]) then [ByteOf(readings[|readings| - 1])] else []
  }

  lemma BytesMore(readings: seq<Word>, r: Word)
    ensures BytesOf(readings + [r]) == BytesOf(readings) + if HasByte(r) then [ByteOf(r)] else []
  {
    assert (readings + [r])[..|readings|] == readings;
  }
}
