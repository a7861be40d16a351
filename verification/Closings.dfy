// How a peer's frame is refused or answered with a close, octet for octet and code for code
// (sections 5.2 to 5.5 and 7.4 of RFC 6455).

module Closings {
  import opened Octets
  import opened Frames
  import opened Receiver
  import opened Decoder
  import opened EndToEnd
  import opened Instance
  import opened Refinement
  import opened Sender
  import Lifecycle
  import TextSafety
  import Utf8

  /** Connection `c` has been closed, and the host told of it with this code and reason. */
  predicate ClosedWith(c: Conn, d: Conn, code: nat, reason: bytes) {
    d == Shut(c.log + [TransportClosed, Event.Closed(code, reason)])
  }

  predicate BetweenFrames(cfg: Config, c: Conn) {
    0 < cfg.capacity && c.Open? && Valid(cfg, c.rx) && c.rx.state.OpcodeOctet?
  }

  lemma BetweenSettled(cfg: Config, c: Conn)
    requires BetweenFrames(cfg, c)
    ensures Settled(cfg, c)
  {}

  lemma RunOne(cfg: Config, c: Conn, b: byte)
    requires cfg.capacity > 0 && Settled(cfg, c)
    ensures Run(cfg, c, [b]) == Feed(cfg, c, b)
  {
    assert Run(cfg, c, [b]) == Run(cfg, Feed(cfg, c, b), []);
  }

  /**
   * The first octet of a frame closes the connection, with 1002, exactly if a reserved bit is set,
   * the opcode is reserved, a control frame is not final, a message is continued that has not
   * begun, or one is begun inside another.
   */
  lemma FirstOctetDecides(cfg: Config, c: Conn, b: byte)
    requires BetweenFrames(cfg, c)
    ensures Settled(cfg, c)
    ensures var d, op := Run(cfg, c, [b]), b % 16;
            if b / 16 % 8 != 0 || 3 <= op <= 7 || 11 <= op || (op >= 8 && b < 128)
               || (op == 0 && c.rx.frag.Continue?) || (1 <= op <= 2 && !c.rx.frag.Continue?)
            then ClosedWith(c, d, 1002, [])
            else d.Open? && d.log == c.log && d.rx.fin == (b >= 128) && OpcodeToByte(d.rx.opcode) == op
  {
    RunOne(cfg, c, b);
    OpcodeOf(b);
  }

  lemma OpcodeOf(b: byte)
    ensures OpcodeToByte(ByteToOpcode(b)) == b % 16
    ensures ByteToOpcode(b).Reserved? <==> 3 <= b % 16 <= 7 || 11 <= b % 16
  {}

  /**
   * The second octet closes it exactly if a control frame is longer than 125 octets or than the
   * buffer, or a close frame has less than its code: with 1002 for the rules of the protocol, with
   * 1009 for the buffer, and with 1000 in answer to a close without a code. Besides, a frame that is
   * over with it may end a text inside a character.
   */
  lemma SecondOctetDecides(cfg: Config, c: Conn, b: byte, s: byte)
    requires BetweenFrames(cfg, c) && Settled(cfg, c) && Run(cfg, c, [b]).Open?
    ensures var d, op, n := Run(cfg, c, [b, s]), b % 16, s % 128;
            if op >= 8 && (n > 125 || (op == 8 && n == 1)) then ClosedWith(c, d, 1002, [])
            else if op == 8 && n == 0 then ClosedWith(c, d, 1000, [])
            else if op >= 8 && n > cfg.capacity then ClosedWith(c, d, 1009, [])
            else if s == 0 && op == 0 && b >= 128 && c.rx.frag.Text? && c.rx.saved != Utf8.COMPLETE then
              ClosedWith(c, d, 1007, [])
            else d.Open?
  {
    hide Run;
    RunSnoc(cfg, c, [b], s);
    assert [b] + [s] == [b, s];
    RunOne(cfg, c, b);
    OpcodeOf(b);
    var e := OnOpcode(c, b);
    assert Feed(cfg, c, b) == e && e.Open?;
    AfterOpcode(cfg, e, s);
  }

  lemma AfterOpcode(cfg: Config, c: Conn, s: byte)
    requires cfg.capacity > 0 && c.Open? && Valid(cfg, c.rx) && c.rx.state.SizeOctet?
    requires !IsControl(c.rx.opcode) && !c.rx.opcode.Continue? ==> c.rx.utf8 == Utf8.COMPLETE
    ensures Settled(cfg, c)
    ensures var d := Feed(cfg, c, s);
            var fault := SizeFault(cfg, c.rx.opcode, s % 128);
            if fault != 0 then d == Fail(c, fault)
            else if s == 0 && c.rx.opcode.Continue? && c.rx.fin && c.rx.frag.Text? && c.rx.utf8 != Utf8.COMPLETE then
              d == Fail(c, CLOSE_INVALID_DATA)
            else d.Open?
  {
    SizeValid(cfg, c, s);
  }

  // ---- Close frames ----

  /** A code in two octets, in network order. */
  function CodeOf(p: bytes): nat
    requires |p| >= 2
  {
    p[0] as nat * 256 + p[1]
  }

  /** The codes that section 7.4.1 of RFC 6455 allows on the wire. */
  predicate Registered(code: nat) {
    1000 <= code <= 1003 || 1007 <= code <= 1011
  }

  /** A close frame of a length that the receiver refuses. */
  lemma CloseRefused(cfg: Config, c: Conn, p: bytes, key: Key)
    requires BetweenFrames(cfg, c) && |p| < 0x1_0000
    ensures Settled(cfg, c)
    ensures var d := Run(cfg, c, EncodeFrame(Frame(true, Close, p), key));
            && (p == [] ==> ClosedWith(c, d, 1000, []))
            && (|p| == 1 || |p| > 125 ==> ClosedWith(c, d, 1002, []))
            && (2 <= |p| <= 125 && |p| > cfg.capacity ==> ClosedWith(c, d, 1009, []))
  {
    hide Run, EncodeFrame;
    BetweenSettled(cfg, c);
    if |p| < 2 || |p| > 125 || |p| > cfg.capacity {
      ControlRefused(cfg, c, Frame(true, Close, p), key);
    }
  }

  /**
   * A close frame that is read to its end, under any key: how it is answered, and what the host is
   * told. A reason that no continuation makes well-formed is answered with 1007; a registered code
   * and a well-formed reason are given back; a code from 3000 to 4999 is answered with 1000; and any
   * other code, or a reason that ends inside a character, with 1002.
   */
  lemma CloseAnswered(cfg: Config, c: Conn, p: bytes, key: Key)
    requires BetweenFrames(cfg, c) && 2 <= |p| <= 125 && |p| <= cfg.capacity
    ensures Settled(cfg, c)
    ensures var d, code, reason := Run(cfg, c, EncodeFrame(Frame(true, Close, p), key)), CodeOf(p), p[2..];
            && (!Utf8.Extendable(reason) ==> ClosedWith(c, d, 1007, []))
            && (Registered(code) && Utf8.WellFormed(reason) ==> ClosedWith(c, d, code, reason))
            && (3000 <= code <= 4999 && Utf8.Extendable(reason) ==> ClosedWith(c, d, 1000, []))
            && (Registered(code) && !Utf8.WellFormed(reason) && Utf8.Extendable(reason) ==> ClosedWith(c, d, 1002, []))
            && (!Registered(code) && !(3000 <= code <= 4999) && Utf8.Extendable(reason) ==> ClosedWith(c, d, 1002, []))
  {
    hide Run, EncodeFrame, Utf8.Run, Utf8.WellFormed, Utf8.Extendable, GoodPrefix;
    BetweenSettled(cfg, c);
    var f, reason := Frame(true, Close, p), p[2..];
    FrameArrives(cfg, c, f, key);
    Utf8.AcceptsExactlyWellFormed(reason);
    Utf8.InvalidExactlyUnrepairable(reason);
    if Utf8.WellFormed(reason) {
      WellFormedExtends(reason);
    }
    CloseOutcome(cfg, c, p);
    assert p[..2] == [p[0], p[1]];
    BigEndian2(p[0], p[1]);
  }

  lemma WellFormedExtends(s: bytes)
    requires Utf8.WellFormed(s)
    ensures Utf8.Extendable(s)
  {
    assert s + [] == s;
  }

  /** What the decoder makes of a close frame. */
  lemma CloseOutcome(cfg: Config, c: Conn, p: bytes)
    requires cfg.capacity > 0 && c.Open? && |p| >= 2
    ensures var q := Utf8.Run(0, p[2..]);
            var a := if q == Utf8.INVALID then (CLOSE_INVALID_DATA, []) else CloseAnswer(p, q);
            Outcome(cfg, c.rx, Frame(true, Close, p)).trace == Trace([TransportClosed, Event.Closed(a.0, a.1)], false)
  {
    hide Utf8.Run;
    Utf8RunNothing();
    assert |p| == 2 ==> p[2..] == [];
    if Utf8.Run(0, p[2..]) == Utf8.INVALID {
      assert Validate(Close, 0, p) == Utf8.INVALID;
      assert GoodPrefix(Close, 0, p) == GoodPrefix(Close, 0, p[..|p| - 1]) < |p|;
      assert [] + [TransportClosed, Event.Closed(CLOSE_INVALID_DATA, [])]
        == [TransportClosed, Event.Closed(CLOSE_INVALID_DATA, [])];
    }
  }

  lemma Utf8RunNothing()
    ensures Utf8.Run(0, []) == 0
  {}

  // ---- What the peer gets to see of it ----

  /** The host of `wic` can buffer an answer of this size. */
  ghost predicate CanAnswer(wic: Wic, size: nat) {
    && wic.host.AlwaysReady()
    && size <= wic.host.maxSize(CloseBuffer) && size <= wic.host.maxSize(CloseResponseBuffer)
  }

  /** The last frame on the wire is a close with this payload. */
  ghost predicate LastWords(wic: Wic, p: bytes)
    reads wic
  {
    wic.sent != [] && wic.sent[|wic.sent| - 1] == Frame(true, Close, p)
  }

  /** What the host has been told of the end is what its peer is told, if there are buffers for that. */
  lemma ToldAlike(wic: Wic, c: Conn, code: nat, reason: bytes)
    requires wic.Valid() && ClosedWith(c, wic.Model(), code, reason)
    requires !wic.IsLocalCode(code) && code < 0x1_0000 && Utf8.WellFormed(reason)
    requires CanAnswer(wic, MinFrameSize(Close, true, |reason|))
    ensures LastWords(wic, ClosePayload(code, reason))
  {
    hide OnWire, Pongs, Replies, Utf8.WellFormed, HasClose, TextSafety.Tracks, Lifecycle.Orderly, Valid;
    assert wic.log[|wic.log| - 1] == Event.Closed(code, reason);
    assert wic.Parted(code, reason);
  }

  /**
   * A peer that closes gets its own payload back if its code is registered and its reason is
   * well-formed; and else the code alone that its mistake calls for.
   */
  lemma PeerAnswered(wic: Wic, before: Conn, p: bytes, key: Key)
    requires wic.Valid() && BetweenFrames(wic.Cfg(), before) && 2 <= |p| <= 125 && |p| <= wic.Cfg().capacity
    requires Follows(wic.Cfg(), before, EncodeFrame(Frame(true, Close, p), key), wic.Model())
    requires !Pending(wic.Cfg(), wic.Model()) && CanAnswer(wic, MinFrameSize(Close, true, |p| - 2))
    ensures wic.state.Closed?
    ensures var code, reason := CodeOf(p), p[2..];
            if !Utf8.Extendable(reason) then LastWords(wic, [3, 239])
            else if Registered(code) && Utf8.WellFormed(reason) then LastWords(wic, p)
            else if 3000 <= code <= 4999 then LastWords(wic, [3, 232])
            else LastWords(wic, [3, 234])
  {
    hide Run, EncodeFrame, Utf8.WellFormed, Utf8.Extendable, Valid, Wic.SendValid, Wic.ReceiveValid;
    wic.Running();
    var cfg, d := wic.Cfg(), wic.Model();
    var code, reason := CodeOf(p), p[2..];
    BetweenSettled(cfg, before);
    AfterNothing(cfg, d);
    CloseAnswered(cfg, before, p, key);
    NoReason();
    assert ClosePayload(1007, []) == [3, 239] && ClosePayload(1000, []) == [3, 232]
      && ClosePayload(1002, []) == [3, 234];
    if !Utf8.Extendable(reason) {
      ToldAlike(wic, before, 1007, []);
    } else if Registered(code) && Utf8.WellFormed(reason) {
      ToldAlike(wic, before, code, reason);
      assert ClosePayload(code, reason) == p;
    } else if 3000 <= code <= 4999 {
      ToldAlike(wic, before, 1000, []);
    } else {
      ToldAlike(wic, before, 1002, []);
    }
  }

  lemma NoReason()
    ensures Utf8.WellFormed([])
  {}
}
