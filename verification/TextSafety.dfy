// What a host may rely on about the messages delivered in any run of the receiver: they follow
// the fragmentation rules, and text is UTF-8 across fragments, buffer flushes and interleaved
// control frames.

module TextSafety {
  import opened Octets
  import opened Frames
  import opened Receiver
  import Utf8

  /** The type of the message that the last deliveries left unfinished; Continue stands for none. */
  function InProgress(log: seq<Event>): Frag {
    if log == [] then Continue
    else
      match log[|log| - 1]
      case Message(e, fin, _) => if fin then Continue else if e.Utf8Text? then Text else Binary
      case _ => InProgress(log[..|log| - 1])
  }

  /** The text delivered so far of an unfinished text message. */
  function TextSoFar(log: seq<Event>): bytes {
    if log == [] then []
    else
      var before := log[..|log| - 1];
      match log[|log| - 1]
      case Message(Utf8Text, fin, d) => if fin then [] else TextSoFar(before) + d
      case _ => TextSoFar(before)
  }

  /**
   * Pieces of different messages do not mix; a finished text message is well-formed UTF-8 as a
   * whole; an unfinished one can still become so.
   */
  ghost predicate Safe(log: seq<Event>) {
    log == [] ||
    var before := log[..|log| - 1];
    && Safe(before)
    && match log[|log| - 1]
       case Message(Utf8Text, fin, d) =>
         var m := TextSoFar(before) + d;
         && !InProgress(before).Binary?
         && if fin then Utf8.WellFormed(m) else Utf8.Extendable(m)
       case Message(BinaryData, _, _) => !InProgress(before).Text?
       case _ => true
  }

  lemma Snoc(log: seq<Event>, e: Event)
    ensures (log + [e])[..|log|] == log
  {}

  lemma SafeOther(log: seq<Event>, e: Event)
    requires Safe(log) && !e.Message?
    ensures Safe(log + [e]) && TextSoFar(log + [e]) == TextSoFar(log) && InProgress(log + [e]) == InProgress(log)
  {
    Snoc(log, e);
  }

  lemma SafeText(log: seq<Event>, fin: bool, d: bytes)
    requires Safe(log) && !InProgress(log).Binary?
    requires var q := Utf8.Run(0, TextSoFar(log) + d);
             if fin then q == Utf8.COMPLETE else q != Utf8.INVALID
    ensures var l := log + [Message(Utf8Text, fin, d)];
            && Safe(l) && InProgress(l) == (if fin then Continue else Text)
            && TextSoFar(l) == if fin then [] else TextSoFar(log) + d
  {
    Snoc(log, Message(Utf8Text, fin, d));
    Utf8.AcceptsExactlyWellFormed(TextSoFar(log) + d);
    Utf8.InvalidExactlyUnrepairable(TextSoFar(log) + d);
  }

  lemma SafeBinary(log: seq<Event>, fin: bool, d: bytes)
    requires Safe(log) && !InProgress(log).Text?
    ensures var l := log + [Message(BinaryData, fin, d)];
            && Safe(l) && InProgress(l) == (if fin then Continue else Binary)
            && TextSoFar(l) == TextSoFar(log)
  {
    Snoc(log, Message(BinaryData, fin, d));
  }

  /** Ties the validator state of the receiver to the text it has delivered and still buffers. */
  ghost predicate Tracks(c: Conn) {
    && Safe(c.log)
    && (!InProgress(c.log).Text? ==> TextSoFar(c.log) == [])
    && (c.Open? ==>
          var t, k := TextSoFar(c.log), Kind(c.rx);
          if c.rx.state.OpcodeOctet? || IsControl(c.rx.opcode) then
            InProgress(c.log) == c.rx.frag && (c.rx.frag.Text? ==> c.rx.saved == Utf8.Run(0, t))
          else
            && (InProgress(c.log) == c.rx.frag || InProgress(c.log) == k)
            && (k.Text? ==> c.rx.utf8 == Utf8.Run(0, t + c.rx.buf)))
  }

  lemma OtherTracks(c: Conn, e: Event)
    requires Tracks(c) && !e.Message?
    ensures Tracks(c.(log := c.log + [e]))
  {
    SafeOther(c.log, e);
  }

  lemma TracksShut(c: Conn)
    requires Tracks(c)
    ensures Tracks(Shut(c.log))
  {}

  /** The two events that end a connection change nothing about messages and answers. */
  lemma SafeEnd(log: seq<Event>, e: Event)
    requires Safe(log) && (e.Closed? || e.HandshakeFailed?)
    ensures var l := log + [TransportClosed, e];
            && Safe(l) && TextSoFar(l) == TextSoFar(log) && InProgress(l) == InProgress(log)
            && Replies(l) == Replies(log)
  {
    SafeOther(log, TransportClosed);
    SafeOther(log + [TransportClosed], e);
    RepliesSnoc(log, TransportClosed);
    RepliesSnoc(log + [TransportClosed], e);
    assert log + [TransportClosed] + [e] == log + [TransportClosed, e];
  }

  lemma CloseTracks(c: Conn, code: nat, reason: bytes)
    requires Tracks(c)
    ensures Tracks(Shutdown(c, code, reason))
  {
    SafeEnd(c.log, Event.Closed(code, reason));
  }

  lemma OpcodeTracks(c: Conn, b: byte)
    requires c.Open? && Tracks(c) && c.rx.state.OpcodeOctet?
    ensures Tracks(OnOpcode(c, b))
  {
    CloseTracks(c, CLOSE_PROTOCOL_ERROR, []);
    assert TextSoFar(c.log) + [] == TextSoFar(c.log);
  }

  lemma DataTracks(cfg: Config, c: Conn, b: byte)
    requires c.Open? && Valid(cfg, c.rx) && Tracks(c) && c.rx.state.Data? && !Pending(cfg, c)
    ensures Tracks(OnData(c, b))
  {
    CloseTracks(c, CLOSE_INVALID_DATA, []);
    var x := Unmask(c.rx, b);
    Associative(TextSoFar(c.log), c.rx.buf, [x]);
    Utf8.RunSnoc(0, TextSoFar(c.log) + c.rx.buf, x);
  }

  lemma ConsumeTracks(cfg: Config, c: Conn, b: byte)
    requires c.Open? && Valid(cfg, c.rx) && Tracks(c) && !Pending(cfg, c)
    ensures Tracks(Consume(cfg, c, b))
  {
    hide Tracks, OnOpcode, OnData;
    match c.rx.state
    case OpcodeOctet => OpcodeTracks(c, b);
    case Data => DataTracks(cfg, c, b);
    case _ => HeaderTracks(cfg, c, b);
  }

  lemma HeaderTracks(cfg: Config, c: Conn, b: byte)
    requires c.Open? && Valid(cfg, c.rx) && Tracks(c) && !Pending(cfg, c) && !c.rx.state.OpcodeOctet?
    requires !c.rx.state.Data?
    ensures Tracks(Consume(cfg, c, b))
  {
    hide Safe;
    if c.rx.state.SizeOctet? {
      CloseTracks(c, SizeFault(cfg, c.rx.opcode, b % 128), []);
    }
  }

  lemma TextDeliveryTracks(cfg: Config, c: Conn)
    requires Pending(cfg, c) && Valid(cfg, c.rx) && Tracks(c) && Kind(c.rx).Text?
    ensures Tracks(Deliver(cfg, c))
  {
    var fin := c.rx.size == 0 && c.rx.fin;
    var t := TextSoFar(c.log) + c.rx.buf;
    if fin && c.rx.utf8 != Utf8.COMPLETE {
      CloseTracks(c, CLOSE_INVALID_DATA, []);
    } else {
      SafeText(c.log, fin, c.rx.buf);
      assert t + [] == t;
    }
  }

  lemma ControlDeliveryTracks(cfg: Config, c: Conn)
    requires Pending(cfg, c) && Valid(cfg, c.rx) && Tracks(c) && IsControl(Kind(c.rx))
    ensures Tracks(Deliver(cfg, c))
  {
    var d := c.rx.buf;
    assert c.log + [] == c.log;
    if c.rx.opcode.Close? {
      CloseTracks(c, CloseAnswer(d, c.rx.utf8).0, CloseAnswer(d, c.rx.utf8).1);
    } else {
      SafeOther(c.log, Reply(d));
    }
  }

  lemma DeliverTracks(cfg: Config, c: Conn)
    requires Pending(cfg, c) && Valid(cfg, c.rx) && Tracks(c)
    ensures Tracks(Deliver(cfg, c))
  {
    if Kind(c.rx).Text? {
      TextDeliveryTracks(cfg, c);
    } else if Kind(c.rx).Binary? {
      SafeBinary(c.log, c.rx.size == 0 && c.rx.fin, c.rx.buf);
    } else {
      ControlDeliveryTracks(cfg, c);
    }
  }

  lemma {:induction false} RunTracks(cfg: Config, c: Conn, s: bytes)
    requires cfg.capacity > 0 && Settled(cfg, c) && Tracks(c)
    ensures Tracks(Run(cfg, c, s))
    decreases |s|
  {
    if s != [] {
      if c.Open? {
        ConsumeTracks(cfg, c, s[0]);
        ConsumeValid(cfg, c, s[0]);
        var d := Consume(cfg, c, s[0]);
        if Pending(cfg, d) {
          DeliverTracks(cfg, d);
        }
      }
      RunTracks(cfg, Feed(cfg, c, s[0]), s[1..]);
    }
  }

  /** A fresh receiver. */
  const FRESH := Conn.Open(InitialRx, [])

  lemma FreshTracks(cfg: Config)
    requires cfg.capacity > 0
    ensures Settled(cfg, FRESH) && Tracks(FRESH)
  {
    assert Pow256(8) > 0;
  }

  /** Any run of a fresh receiver; delivered sizes have 16 bits. */
  function FreshRun(cfg: Config, s: bytes): (r: Conn)
    requires 0 < cfg.capacity < 0x1_0000
    ensures Settled(cfg, r)
  {
    FreshTracks(cfg);
    Run(cfg, FRESH, s)
  }

  /** Whatever octets arrive, and however they are split, every delivery is safe. */
  lemma EveryRunIsSafe(cfg: Config, s: bytes)
    requires 0 < cfg.capacity < 0x1_0000
    ensures Safe(FreshRun(cfg, s).log)
  {
    FreshTracks(cfg);
    RunTracks(cfg, FRESH, s);
  }

  /** An octet of text is refused when it is read, exactly if no continuation of the message can repair it. */
  lemma RefusedExactlyWhenUnrepairable(cfg: Config, c: Conn, b: byte)
    requires c.Open? && Valid(cfg, c.rx) && Tracks(c) && c.rx.state.Data? && !Pending(cfg, c) && Kind(c.rx).Text?
    ensures var m := TextSoFar(c.log) + c.rx.buf + [Unmask(c.rx, b)];
            var d := OnData(c, b);
            && (if Utf8.Extendable(m) then d.Open? && d.rx.utf8 == Utf8.Run(0, m) else d == Fail(c, CLOSE_INVALID_DATA))
  {
    var m := TextSoFar(c.log) + c.rx.buf;
    Utf8.RunSnoc(0, m, Unmask(c.rx, b));
    Utf8.InvalidExactlyUnrepairable(m + [Unmask(c.rx, b)]);
  }

  /**
   * In the middle of any run, an octet of a text frame closes the connection exactly if no
   * continuation of the message can repair it, or if it is the last of the message and leaves a
   * character incomplete. Then the code is 1007.
   */
  lemma FailsExactlyWhenUnrepairable(cfg: Config, s: bytes, b: byte)
    requires 0 < cfg.capacity < 0x1_0000
    requires var c := FreshRun(cfg, s); c.Open? && c.rx.state.Data? && Kind(c.rx).Text?
    ensures var c, d := FreshRun(cfg, s), FreshRun(cfg, s + [b]);
            var m := TextSoFar(c.log) + c.rx.buf + [Unmask(c.rx, b)];
            && (d.Shut? <==> !Utf8.Extendable(m) || (c.rx.size == 1 && c.rx.fin && !Utf8.WellFormed(m)))
            && (d.Shut? ==> d == Fail(c, CLOSE_INVALID_DATA))
  {
    var c := FreshRun(cfg, s);
    FreshTracks(cfg);
    RunTracks(cfg, FRESH, s);
    RunConcat(cfg, FRESH, s, [b]);
    RunOne(cfg, c, b);
    FeedsText(cfg, c, b);
  }

  lemma RunOne(cfg: Config, c: Conn, b: byte)
    requires cfg.capacity > 0 && Settled(cfg, c)
    ensures Run(cfg, c, [b]) == Feed(cfg, c, b)
  {
    hide Feed;
    assert Run(cfg, c, [b]) == Run(cfg, Feed(cfg, c, b), []);
  }

  lemma FeedsText(cfg: Config, c: Conn, b: byte)
    requires cfg.capacity > 0 && c.Open? && Settled(cfg, c) && Tracks(c) && c.rx.state.Data? && Kind(c.rx).Text?
    ensures var m, d := TextSoFar(c.log) + c.rx.buf + [Unmask(c.rx, b)], Feed(cfg, c, b);
            && (d.Shut? <==> !Utf8.Extendable(m) || (c.rx.size == 1 && c.rx.fin && !Utf8.WellFormed(m)))
            && (d.Shut? ==> d == Fail(c, CLOSE_INVALID_DATA))
  {
    hide Tracks, Utf8.Extendable, Utf8.WellFormed, Valid;
    RefusedExactlyWhenUnrepairable(cfg, c, b);
    ConsumeValid(cfg, c, b);
    Utf8.AcceptsExactlyWellFormed(TextSoFar(c.log) + c.rx.buf + [Unmask(c.rx, b)]);
  }
}
