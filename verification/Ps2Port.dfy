/** The PS/2 keyboard and mouse ports (lib832soc/ps2.c): an interrupt handler and the calls a
    program makes, in any order. */
module Ps2Port {
  import opened PortTrace
  import opened PortRing

  /** What the two registers show when the handler is called. */
  datatype Reading = Reading(kbd: Word, mouse: Word)

  function Keyboard(rs: seq<Reading>): seq<Word> {
    seq(|rs|, i requires 0 <= i < |rs| => rs[i].kbd)
  }

  function Mouse(rs: seq<Reading>): seq<Word> {
    seq(|rs|, i requires 0 <= i < |rs| => rs[i].mouse)
  }

  function If(b: bool, w: Word): seq<Word> {
    if b then [w] else []
  }

  /** What has passed through the two ports so far. */
  datatype History = History(trace: Trace, keyboard: Traffic, mouse: Traffic)

  datatype Traffic = Traffic(received: seq<Word>, taken: seq<Word>, written: seq<Word>, overrun: bool) {
    /** More bytes are unread than a ring can hold. */
    predicate Overflows() {
      |received| - |taken| >= RING
    }
  }

  /** From a to b a port has been looked at with just these readings, and the program has neither
      read nor written. */
  ghost predicate Saw(a: Traffic, b: Traffic, rs: seq<Word>) {
    && b.taken == a.taken && b.received == a.received + BytesOf(rs)
    && (b.overrun <==> a.overrun || b.Overflows())
  }

  ghost predicate Heard(a: History, b: History, rs: seq<Reading>) {
    && a.trace <= b.trace && Saw(a.keyboard, b.keyboard, Keyboard(rs)) && Saw(a.mouse, b.mouse, Mouse(rs))
  }

  ghost predicate WroteNothing(a: History, b: History) {
    b.keyboard.written == a.keyboard.written && b.mouse.written == a.mouse.written
  }

  lemma SawMore(a: Traffic, b: Traffic, c: Traffic, rs: seq<Word>, r: Word)
    requires Saw(a, b, rs) && c.taken == b.taken && c.received == b.received + If(HasByte(r), ByteOf(r))
    requires c.overrun <==> b.overrun || c.Overflows()
    ensures Saw(a, c, rs + [r])
  {
    BytesMore(rs, r);
  }

  lemma HeardMore(a: History, b: History, c: History, rs: seq<Reading>, i: nat)
    requires i < |rs| && Heard(a, b, rs[..i]) && Heard(b, c, [rs[i]])
    ensures Heard(a, c, rs[..i + 1])
  {
    var ks, ms := Keyboard(rs[..i]), Mouse(rs[..i]);
    assert Keyboard(rs[..i + 1]) == ks + [rs[i].kbd] && Mouse(rs[..i + 1]) == ms + [rs[i].mouse];
    OneReading(rs[i]);
    SawMore(a.keyboard, b.keyboard, c.keyboard, ks, rs[i].kbd);
    SawMore(a.mouse, b.mouse, c.mouse, ms, rs[i].mouse);
  }

  lemma OneReading(r: Reading)
    ensures BytesOf(Keyboard([r])) == If(HasByte(r.kbd), ByteOf(r.kbd))
    ensures BytesOf(Mouse([r])) == If(HasByte(r.mouse), ByteOf(r.mouse))
  {
    BytesMore([], r.kbd);
    BytesMore([], r.mouse);
    assert Keyboard([r]) == [] + [r.kbd] && Mouse([r]) == [] + [r.mouse];
  }

  lemma HeardNothing(a: History, rs: seq<Reading>)
    requires rs == [] && (a.keyboard.Overflows() ==> a.keyboard.overrun) && (a.mouse.Overflows() ==> a.mouse.overrun)
    ensures Heard(a, a, rs)
  {
    assert Keyboard(rs) == [] && Mouse(rs) == [];
  }

  /** The keyboard's flags after n readings during which nothing is sent. */
  function FlagsAfter(flags: Flags, rs: seq<Reading>, n: nat): Flags
    requires n <= |rs|
  {
    if n == 0 then flags else Ports.Answer(rs[n - 1].kbd, FlagsAfter(flags, rs, n - 1))
  }

  /** With nothing sent before it, reading j is one on which a full ring sends a word. */
  predicate GivesRoom(keyboard: bool, flags: Flags, rs: seq<Reading>, j: int)
    requires 0 <= j < |rs|
  {
    if keyboard then CanSend(rs[j].kbd) && !FlagsAfter(flags, rs, j + 1).waitack else CanSend(rs[j].mouse)
  }

  /** No reading before the n-th does. */
  ghost predicate NoRoomBefore(keyboard: bool, flags: Flags, rs: seq<Reading>, n: int) {
    forall j :: 0 <= j < n && j < |rs| ==> !GivesRoom(keyboard, flags, rs, j)
  }

  class Ports {
    const kb: Ring
    const mouse: Ring
    ghost var trace: Trace  // of the keyboard line

    ghost predicate Apart()
      reads this
    {
      && kb != mouse && kb.inbuf != mouse.inbuf && kb.inbuf != mouse.outbuf
      && kb.outbuf != mouse.inbuf && kb.outbuf != mouse.outbuf
    }

    ghost function Repr(): set<object>
      reads this
    {
      {this, kb, mouse, kb.inbuf, kb.outbuf, mouse.inbuf, mouse.outbuf}
    }

    /** The line is in order, the flags say whether it waits and which replies have come, and the trace is
        what passed through the keyboard's ring. */
    ghost predicate Valid()
      reads Repr()
    {
      && Apart() && kb.Valid() && mouse.Valid()
      && Orderly(trace) && Tells(kb.flags, trace)
      && Outgoing(trace) == kb.sent && Incoming(trace) == kb.received
      && forall i :: 0 <= i < |kb.written| ==> IsMarked(kb.written[i])
    }

    /** PS2Init. */
    constructor ()
      ensures Valid() && trace == [] && fresh(Repr() - {this})
      ensures kb.received == kb.taken == kb.written == [] && !kb.overrun
      ensures mouse.received == mouse.taken == mouse.written == [] && !mouse.overrun
    {
      kb := new Ring();
      mouse := new Ring();
      trace := [];
    }

    /** The keyboard's part of PS2Handler: take in what has come, then send if the line is free. */
    method KeyboardHandler(kbd: Word)
      requires Valid()
      modifies this, kb, kb.inbuf
      ensures Valid() && old(trace) <= trace
      ensures kb.written == old(kb.written) && kb.taken == old(kb.taken)
      ensures kb.received == old(kb.received) + If(HasByte(kbd), ByteOf(kbd))
      ensures var sends := KeyboardSends(kbd, old(kb.flags), |old(kb.sent)|);
        && |kb.sent| == |old(kb.sent)| + (if sends then 1 else 0)
        && kb.flags == Answer(kbd, old(kb.flags)).(waitack := Answer(kbd, old(kb.flags)).waitack || sends)
      ensures kb.overrun <==> old(kb.overrun) || Overflowed(kb)
    {
      TakeIn(kbd);
      SendOne(kbd);
    }

    /** A byte that answers what was sent frees the line; every byte is kept for the program. */
    method TakeIn(kbd: Word)
      requires Valid()
      modifies this`trace, kb`flags, kb`in_hw, kb`overruns, kb`received, kb`overrun, kb.inbuf
      ensures Valid() && old(trace) <= trace
      ensures kb.received == old(kb.received) + If(HasByte(kbd), ByteOf(kbd))
      ensures kb.flags == Answer(kbd, old(kb.flags))
      ensures kb.overrun <==> old(kb.overrun) || Overflowed(kb)
    {
      if HasByte(kbd) {
        KeepByte(ByteOf(kbd));
      }
    }

    method KeepByte(b: Word)
      requires Valid() && b < 0x100
      modifies this`trace, kb`flags, kb`in_hw, kb`overruns, kb`received, kb`overrun, kb.inbuf
      ensures Valid() && old(trace) <= trace && kb.received == old(kb.received) + [b]
      ensures kb.flags == Replied(old(kb.flags), b)
      ensures kb.overrun <==> old(kb.overrun) || Overflowed(kb)
    {
      hide Ring.Valid, Tells, Replied;
      TellsMore(kb.flags, trace, Received(b));
      kb.flags := Replied(kb.flags, b);
      FillOne(kb, b);
      Happens(Received(b));
    }

    method FillOne(r: Ring, b: Word)
      requires Apart() && kb.Valid() && mouse.Valid() && (r == kb || r == mouse) && b < 0x100
      modifies r`in_hw, r`overruns, r`received, r`overrun, r.inbuf
      ensures kb.Valid() && mouse.Valid() && r.received == old(r.received) + [b]
      ensures r.overrun <==> old(r.overrun) || Overflowed(r)
    {
      r.Fill(b);
    }

    method SendOne(kbd: Word)
      requires Valid()
      modifies this`trace, kb`flags, kb`out_hw, kb`sent
      ensures Valid() && old(trace) <= trace
      ensures var sends := !old(kb.flags).waitack && CanSend(kbd) && |old(kb.sent)| < |kb.written|;
        && |kb.sent| == |old(kb.sent)| + (if sends then 1 else 0)
        && kb.flags == old(kb.flags).(waitack := old(kb.flags).waitack || sends)
    {
      hide Raised, Waiting, Ring.Stored, Ring.Queued;
      kb.FullMeans();
      if !kb.flags.waitack && CanSend(kbd) {
        if kb.out_hw != kb.out_cpu {
          var t := kb.Send();
          assert t == kb.written[|kb.sent| - 1];
          TellsMore(kb.flags, trace, Sent(t));
          if IsMarked(t) {
            kb.flags := kb.flags.(waitack := true);
          }
          Happens(Sent(t));
        }
      }
    }

    ghost method Happens(e: Event)
      requires Orderly(trace) && (e.Sent? ==> !Waiting(trace))
      modifies this`trace
      ensures trace == old(trace) + [e] && Orderly(trace)
      ensures Outgoing(trace) == Outgoing(old(trace)) + if e.Sent? then [e.word] else []
      ensures Incoming(trace) == Incoming(old(trace)) + if e.Received? then [e.byte] else []
    {
      OrderlyMore(trace, e);
      TrafficMore(trace, e);
      trace := trace + [e];
    }

    /** The mouse's part of PS2Handler, which waits for no answers. */
    method MouseHandler(reading: Word)
      requires Valid()
      modifies mouse, mouse.inbuf
      ensures Valid()
      ensures mouse.written == old(mouse.written) && mouse.taken == old(mouse.taken)
      ensures mouse.received == old(mouse.received) + If(HasByte(reading), ByteOf(reading))
      ensures |mouse.sent| == |old(mouse.sent)|
        + if CanSend(reading) && |old(mouse.sent)| < |mouse.written| then 1 else 0
      ensures mouse.overrun <==> old(mouse.overrun) || Overflowed(mouse)
      ensures mouse.flags == old(mouse.flags)
    {
      hide Ring.Valid, Orderly, Waiting, Outgoing, Incoming, IsMarked, Ring.Full, Ring.Empty, Next;
      if HasByte(reading) {
        FillOne(mouse, ByteOf(reading));
      }
      mouse.FullMeans();
      if CanSend(reading) {
        if mouse.out_hw != mouse.out_cpu {
          var t := mouse.Send();
        }
      }
    }

    /** The flags once a reading's byte, if any, has been looked at. */
    static function Answer(kbd: Word, flags: Flags): Flags {
      if HasByte(kbd) then Replied(flags, ByteOf(kbd)) else flags
    }

    /** A byte goes out when the line is free, the port is ready, and there is one. */
    ghost predicate KeyboardSends(kbd: Word, flags: Flags, sent: nat)
      reads kb
    {
      !Answer(kbd, flags).waitack && CanSend(kbd) && sent < |kb.written|
    }

    /** More bytes are unread than the ring can hold. */
    static ghost predicate Overflowed(r: Ring)
      reads r
    {
      |r.received| - |r.taken| >= RING
    }

    ghost function Log(): History
      reads this, kb, mouse
    {
      History(trace, Traffic(kb.received, kb.taken, kb.written, kb.overrun),
              Traffic(mouse.received, mouse.taken, mouse.written, mouse.overrun))
    }

    /** PS2Handler. */
    method Handler(r: Reading)
      requires Valid()
      modifies Repr()
      ensures Valid() && Heard(old(Log()), Log(), [r]) && WroteNothing(old(Log()), Log())
      ensures var sends := KeyboardSends(r.kbd, old(kb.flags), |old(kb.sent)|);
        && |kb.sent| == |old(kb.sent)| + (if sends then 1 else 0)
        && kb.flags == Answer(r.kbd, old(kb.flags)).(waitack := Answer(r.kbd, old(kb.flags)).waitack || sends)
      ensures var sends := CanSend(r.mouse) && |old(mouse.sent)| < |mouse.written|;
        |mouse.sent| == |old(mouse.sent)| + (if sends then 1 else 0)
    {
      OneReading(r);
      KeyboardHandler(r.kbd);
      MouseHandler(r.mouse);
    }

    lemma NothingYet(rs: seq<Reading>)
      requires Valid()
      ensures Heard(Log(), Log(), rs[..0])
    {
      HeardNothing(Log(), rs[..0]);
    }

    /** The handler called once for each of a run of readings. */
    method Interrupts(rs: seq<Reading>)
      requires Valid()
      modifies Repr()
      ensures Valid() && Heard(old(Log()), Log(), rs) && WroteNothing(old(Log()), Log())
      ensures KeepsReplies(old(kb.flags), kb.flags) && (rs == [] ==> kb.flags == old(kb.flags))
    {
      hide Valid, Heard;
      ghost var h, flags := Log(), kb.flags;
      var i := 0;
      NothingYet(rs);
      while i < |rs|
        invariant 0 <= i <= |rs| && Valid() && Heard(h, Log(), rs[..i]) && WroteNothing(h, Log())
        invariant KeepsReplies(flags, kb.flags) && (i == 0 ==> kb.flags == flags)
      {
        HandleOne(h, rs, i);
        i := i + 1;
      }
      assert rs[..i] == rs;
    }

    /** hw_ringbuffer_write with PS2Handler as the action: call the handler while there is no room,
        store the word, and call the handler once more. The readings are what the handler will
        see; while it has not seen enough of them, the call does not end. */
    method Write(r: Ring, w: Word, rs: seq<Reading>) returns (done: bool, ghost used: nat)
      requires Valid() && (r == kb || r == mouse) && (r == kb ==> IsMarked(w))
      modifies Repr()
      ensures Valid() && used <= |rs| && Heard(old(Log()), Log(), rs[..used])
      ensures done ==> used > 0 && (old(r.Full()) <==> used > 1)
      ensures !done ==> used == |rs| && (rs != [] ==> old(r.Full()))
      ensures old(r.Full()) ==> NoRoomBefore(r == kb, old(kb.flags), rs, if done then used - 2 else |rs| - 1)
      ensures done && used > 1 ==> GivesRoom(r == kb, old(kb.flags), rs, used - 2)
      ensures kb.written == old(kb.written) + if done && r == kb then [w] else []
      ensures mouse.written == old(mouse.written) + if done && r == mouse then [w] else []
    {
      hide Valid, Heard, NoRoomBefore, GivesRoom, FlagsAfter;
      ghost var h := Log();
      var i := AwaitRoom(r, rs);
      used := i;
      done := i < |rs|;
      if done {
        Finish(r, w, h, rs, i);
        used := i + 1;
      }
    }

    /** Reading i passes through the handler. */
    method HandleNext(ghost h: History, rs: seq<Reading>, i: nat)
      requires Valid() && i < |rs| && Heard(h, Log(), rs[..i])
      modifies Repr()
      ensures Valid() && Heard(h, Log(), rs[..i + 1]) && WroteNothing(old(Log()), Log())
      ensures var sends := KeyboardSends(rs[i].kbd, old(kb.flags), |old(kb.sent)|);
        && |kb.sent| == |old(kb.sent)| + (if sends then 1 else 0)
        && kb.flags == Answer(rs[i].kbd, old(kb.flags)).(waitack := kb.flags.waitack)
        && (!sends ==> kb.flags == Answer(rs[i].kbd, old(kb.flags)))
      ensures var sends := CanSend(rs[i].mouse) && |old(mouse.sent)| < |mouse.written|;
        |mouse.sent| == |old(mouse.sent)| + (if sends then 1 else 0)
    {
      ghost var b := Log();
      Handler(rs[i]);
      HeardMore(h, b, Log(), rs, i);
    }

    method HandleOne(ghost h: History, rs: seq<Reading>, i: nat)
      requires Valid() && i < |rs| && Heard(h, Log(), rs[..i])
      modifies Repr()
      ensures Valid() && Heard(h, Log(), rs[..i + 1]) && WroteNothing(old(Log()), Log())
      ensures KeepsReplies(old(kb.flags), kb.flags)
    {
      hide Valid, Heard;
      HandleNext(h, rs, i);
    }

    /** A full ring sends on the readings that give room, and is then full no more. */
    method HandleFull(r: Ring, ghost h: History, ghost flags: Flags, rs: seq<Reading>, i: nat)
      requires Valid() && (r == kb || r == mouse) && i < |rs| && Heard(h, Log(), rs[..i]) && r.Full()
      requires r == kb ==> kb.flags == FlagsAfter(flags, rs, i)
      modifies Repr()
      ensures Valid() && Heard(h, Log(), rs[..i + 1]) && WroteNothing(old(Log()), Log())
      ensures r.Full() <==> !GivesRoom(r == kb, flags, rs, i)
      ensures r == kb && r.Full() ==> kb.flags == FlagsAfter(flags, rs, i + 1)
    {
      r.FullMeans();
      HandleNext(h, rs, i);
      r.FullMeans();
    }

    method Finish(r: Ring, w: Word, ghost h: History, rs: seq<Reading>, i: nat)
      requires Valid() && (r == kb || r == mouse) && (r == kb ==> IsMarked(w)) && !r.Full()
      requires i < |rs| && Heard(h, Log(), rs[..i])
      modifies Repr()
      ensures Valid() && Heard(h, Log(), rs[..i + 1])
      ensures kb.written == old(kb.written) + if r == kb then [w] else []
      ensures mouse.written == old(mouse.written) + if r == mouse then [w] else []
    {
      Store(r, w);
      HandleOne(h, rs, i);
    }

    method Store(r: Ring, w: Word)
      requires Valid() && (r == kb || r == mouse) && (r == kb ==> IsMarked(w)) && !r.Full()
      modifies r`out_cpu, r`written, r.outbuf
      ensures Valid() && r.written == old(r.written) + [w]
    {
      r.Put(w);
    }

    method AwaitRoom(r: Ring, rs: seq<Reading>) returns (i: nat)
      requires Valid() && (r == kb || r == mouse)
      modifies Repr()
      ensures Valid() && i <= |rs| && Heard(old(Log()), Log(), rs[..i]) && WroteNothing(old(Log()), Log())
      ensures i < |rs| ==> !r.Full()
      ensures i > 0 <==> old(r.Full()) && rs != []
      ensures old(r.Full()) ==> NoRoomBefore(r == kb, old(kb.flags), rs, if i < |rs| then i - 1 else |rs| - 1)
      ensures i > 0 ==> (r.Full() <==> !GivesRoom(r == kb, old(kb.flags), rs, i - 1))
    {
      hide Valid, Heard, GivesRoom;
      ghost var h, flags := Log(), kb.flags;
      i := 0;
      NothingYet(rs);
      while i < |rs| && r.Full()
        invariant 0 <= i <= |rs| && Valid() && Heard(h, Log(), rs[..i]) && WroteNothing(h, Log())
        invariant if i == 0 then r.Full() == old(r.Full()) else old(r.Full())
        invariant NoRoomBefore(r == kb, flags, rs, i - 1)
        invariant i > 0 ==> (r.Full() <==> !GivesRoom(r == kb, flags, rs, i - 1))
        invariant r == kb && r.Full() ==> kb.flags == FlagsAfter(flags, rs, i)
      {
        HandleFull(r, h, flags, rs, i);
        i := i + 1;
      }
    }

    /** PS2KeyboardWriteChar and PS2MouseWriteChar. */
    method KeyboardWriteChar(x: int, rs: seq<Reading>) returns (done: bool, ghost used: nat)
      requires Valid() && -0x80 <= x < 0x100
      modifies Repr()
      ensures Valid() && used <= |rs| && Heard(old(Log()), Log(), rs[..used])
      ensures done ==> used > 0 && kb.written == old(kb.written) + [Marked(x)]
      ensures !done ==> used == |rs| && kb.written == old(kb.written)
      ensures mouse.written == old(mouse.written)
    {
      MarkedKeeps(x);
      done, used := Write(kb, Marked(x), rs);
    }

    method MouseWriteChar(x: Word, rs: seq<Reading>) returns (done: bool, ghost used: nat)
      requires Valid()
      modifies Repr()
      ensures Valid() && used <= |rs| && Heard(old(Log()), Log(), rs[..used])
      ensures done ==> used > 0 && mouse.written == old(mouse.written) + [x]
      ensures !done ==> used == |rs| && mouse.written == old(mouse.written)
      ensures kb.written == old(kb.written)
    {
      done, used := Write(mouse, x, rs);
    }

    /** hw_ringbuffer_read, -1 when there is nothing; interrupts may come between the test and the
        taking. Until there is an overrun this is the next byte of those received. */
    method Read(r: Ring, between: seq<Reading>) returns (b: int)
      requires Valid() && (r == kb || r == mouse)
      modifies Repr()
      ensures Valid() && WroteNothing(old(Log()), Log()) && old(trace) <= trace
      ensures b >= -1 && (b == -1 <==> old(r.Empty()))
      ensures b == -1 ==> Log() == old(Log())
      ensures b != -1 ==> r.taken == old(r.taken) + [b]
      ensures !r.overrun && b == -1 ==> |r.received| == |r.taken|
      ensures !r.overrun && b != -1 ==> |old(r.taken)| < |r.received| && b == r.received[|old(r.taken)|]
      ensures b != -1 ==> kb.received == old(kb.received) + BytesOf(Keyboard(between))
      ensures b != -1 ==> mouse.received == old(mouse.received) + BytesOf(Mouse(between))
    {
      r.FullMeans();
      if r.Empty() {
        return -1;
      }
      Interrupts(between);
      b := TakeFrom(r);
    }

    /** The byte at the front of a ring. */
    method TakeFrom(r: Ring) returns (b: Word)
      requires Valid() && (r == kb || r == mouse) && (r.overrun || |r.taken| < |r.received|)
      modifies r`in_cpu, r`taken
      ensures Valid() && r.taken == old(r.taken) + [b]
      ensures !r.overrun ==> b == r.received[|old(r.taken)|]
    {
      b := r.Take();
    }

    /** PS2Keyboard_TestFlags; interrupts may come between the reading of the flags and the clearing.
        Only flags that are reported are cleared, so that no reply that comes meanwhile is lost. */
    method TestFlags(mask: Flags, between: seq<Reading>) returns (result: Flags, ghost flags: Flags, ghost log: History)
      requires Valid()
      modifies Repr()
      ensures Valid() && result == Both(old(kb.flags), mask) && kb.flags == Without(flags, result)
      ensures Heard(old(Log()), log, between) && WroteNothing(old(Log()), log) && KeepsReplies(old(kb.flags), flags)
      ensures between == [] ==> flags == old(kb.flags)
      ensures Log() == log.(trace := log.trace + [Cleared(result)])
      ensures result.ack <==> mask.ack && Raised(old(trace), 0xfa)
      ensures result.error <==> mask.error && Raised(old(trace), 0xfc)
      ensures result.resend <==> mask.resend && Raised(old(trace), 0xfe)
      ensures result.bat <==> mask.bat && Raised(old(trace), 0xaa)
      ensures result.waitack <==> mask.waitack && Waiting(old(trace))
    {
      result := Both(kb.flags, mask);
      Interrupts(between);
      flags, log := kb.flags, Log();
      ClearFlags(result);
    }

    /** What TestFlags does with interrupts off. */
    method ClearFlags(result: Flags)
      requires Valid()
      modifies this`trace, kb`flags
      ensures Valid() && kb.flags == Without(old(kb.flags), result)
      ensures trace == old(trace) + [Cleared(result)]
    {
      TellsMore(kb.flags, trace, Cleared(result));
      kb.flags := Without(kb.flags, result);
      Happens(Cleared(result));
    }

    /** Any calls, in any order, with any interrupts between them. */
    method Run(calls: seq<Call>)
      requires Valid()
      modifies Repr()
      ensures Valid() && old(trace) <= trace
    {
      for i := 0 to |calls|
        invariant Valid() && old(trace) <= trace
      {
        Perform(calls[i]);
      }
    }

    method Perform(c: Call)
      requires Valid()
      modifies Repr()
      ensures Valid() && old(trace) <= trace
    {
      match c
      case Interrupt(r) => Handler(r);
      case WriteKey(x, rs) => var done; ghost var used; done, used := KeyboardWriteChar(x, rs);
      case WriteMouse(x, rs) => var done; ghost var used; done, used := MouseWriteChar(x, rs);
      case ReadKey(between) => var b := Read(kb, between);
      case ReadMouse(between) => var b := Read(mouse, between);
      case TestKey(mask, between) => var result; ghost var flags, log; result, flags, log := TestFlags(mask, between);
      case Overruns => var k := kb.Overruns(); var m := mouse.Overruns();
    }

    /** What that means: bytes go out in the order they were written, one at a time, each answered
        before the next; until one is overrun, bytes are read in the order they came; and a flag is up
        exactly when its reply has come to a waiting line since it was last taken away. */
    lemma Meaning()
      requires Valid()
      ensures Outgoing(trace) <= kb.written && |kb.written| - |Outgoing(trace)| < RING
      ensures forall i, j :: 0 <= i < j < |trace| && trace[i].Sent? && trace[j].Sent? ==> Answered(trace, i, j)
      ensures !kb.overrun ==> kb.taken <= Incoming(trace)
      ensures !kb.flags.waitack <==> forall i :: 0 <= i < |trace| && trace[i].Sent? ==> Answered(trace, i, |trace|)
      ensures (kb.flags.ack <==> Raised(trace, 0xfa)) && (kb.flags.error <==> Raised(trace, 0xfc))
      ensures (kb.flags.resend <==> Raised(trace, 0xfe)) && (kb.flags.bat <==> Raised(trace, 0xaa))
    {
      WaitingMeans(trace);
    }
  }

  datatype Call =
    | Interrupt(r: Reading)
    | WriteKey(x: Char, rs: seq<Reading>)
    | WriteMouse(w: Word, rs: seq<Reading>)
    | ReadKey(between: seq<Reading>)
    | ReadMouse(between: seq<Reading>)
    | TestKey(mask: Flags, between: seq<Reading>)
    | Overruns

  type Char = x: int | -0x80 <= x < 0x100
}
