// The receive side of an open connection as a machine over single octets, with an
// always-ready host. `wic_parse` is proved in Instance.dfy to follow this machine.

module Receiver {
  import opened Octets
  import opened Frames
  import Utf8

  datatype Encoding = Utf8Text | BinaryData

  datatype HandshakeFailure = Abnormal1 | Abnormal2 | Tls | Irrelevant | Protocol | Upgrade

  /** What the host of a connection can observe, in order. */
  datatype Event =
    | Opened
    | Message(encoding: Encoding, fin: bool, data: bytes)
    | Reply(payload: bytes)
    | TransportClosed
    | Closed(code: nat, reason: bytes)
    | HandshakeFailed(why: HandshakeFailure)

  /** The payloads of the pongs sent in answer. */
  function Replies(log: seq<Event>): seq<bytes> {
    if log == [] then []
    else Replies(log[..|log| - 1]) + if log[|log| - 1].Reply? then [log[|log| - 1].payload] else []
  }

  lemma RepliesSnoc(log: seq<Event>, e: Event)
    ensures Replies(log + [e]) == if e.Reply? then Replies(log) + [e.payload] else Replies(log)
  {
    assert (log + [e])[..|log|] == log;
    assert !e.Reply? ==> Replies(log) + [] == Replies(log);
  }

  const CLOSE_NORMAL: nat := 1000
  const CLOSE_GOING_AWAY: nat := 1001
  const CLOSE_PROTOCOL_ERROR: nat := 1002
  const CLOSE_UNSUPPORTED: nat := 1003
  const CLOSE_ABNORMAL_1: nat := 1005
  const CLOSE_ABNORMAL_2: nat := 1006
  const CLOSE_INVALID_DATA: nat := 1007
  const CLOSE_POLICY: nat := 1008
  const CLOSE_TOO_BIG: nat := 1009
  const CLOSE_EXTENSION_REQUIRED: nat := 1010
  const CLOSE_UNEXPECTED_EXCEPTION: nat := 1011
  const CLOSE_TLS: nat := 1015

  /** Capacity of the receive buffer, and the largest frame the host can ever buffer for a pong. */
  datatype Config = Config(capacity: nat, pongMax: nat)

  /** The 17 receive states: `Extended(n)` is SIZE_n, `MaskKey(n)` is MASK_n. */
  datatype RxState = OpcodeOctet | SizeOctet | Extended(n: nat) | MaskKey(n: nat) | Data

  /**
   * Receive fields. `frag` is the type of the fragmented message in progress, or Continue;
   * `utf8` the validator state in this frame; `saved` the validator state carried over from
   * the previous fragment; `buf` the filled part of the receive buffer.
   */
  datatype Rx = Rx(state: RxState, fin: bool, opcode: Opcode, masked: bool, mask: Mask, size: nat,
                   utf8: Utf8.State, frag: Frag, saved: Utf8.State, buf: bytes)

  datatype Conn = Open(rx: Rx, log: seq<Event>) | Shut(log: seq<Event>)

  const InitialRx := Rx(OpcodeOctet, false, Continue, false, [0, 0, 0, 0], 0, 0, Continue, 0, [])

  /** What the payload of the current frame belongs to. */
  function Kind(rx: Rx): Opcode {
    if rx.opcode.Continue? then rx.frag else rx.opcode
  }

  predicate IsType(op: Opcode) {
    op.Text? || op.Binary?
  }

  /** The invariant of the receive fields. */
  predicate Valid(cfg: Config, rx: Rx) {
    && |rx.buf| <= cfg.capacity
    && rx.saved != Utf8.INVALID
    && rx.utf8 != Utf8.INVALID
    && (rx.state.Extended? ==> rx.state.n < 10 && rx.size < Pow256(OctetsRead(rx.state.n)))
    && (rx.state.MaskKey? ==> rx.state.n < 4)
    && rx.size < Pow256(8)
    && (!rx.state.OpcodeOctet? ==>
          && (IsType(Kind(rx)) || IsControl(rx.opcode))
          && (IsControl(rx.opcode) ==> rx.fin)
          && (rx.opcode.Continue? <==> rx.frag != Continue && !IsControl(rx.opcode))
          && (rx.state.Data? || rx.buf == []))
    && (IsControl(rx.opcode) && (rx.state.Extended? || rx.state.MaskKey? || rx.state.Data?) ==>
          && !rx.state.Extended?
          && |rx.buf| + rx.size <= 125
          && |rx.buf| + rx.size <= cfg.capacity
          && (rx.opcode.Close? ==> 2 <= |rx.buf| + rx.size))
  }

  /** Octets of extended length read on arrival in state SIZE_n. */
  function OctetsRead(n: nat): nat {
    if n < 2 then n else n - 2
  }

  predicate ValidConn(cfg: Config, c: Conn) {
    c.Open? ==> Valid(cfg, c.rx)
  }

  /** The host is owed a delivery: the frame is complete, or the buffer is full. */
  predicate Pending(cfg: Config, c: Conn) {
    c.Open? && c.rx.state.Data? && (c.rx.size == 0 || |c.rx.buf| == cfg.capacity)
  }

  function Shutdown(c: Conn, code: nat, reason: bytes): Conn {
    Shut(c.log + [TransportClosed, Closed(code, reason)])
  }

  function Fail(c: Conn, code: nat): Conn {
    Shutdown(c, code, [])
  }

  // ---- One octet ----

  /** Whether a frame may start this way while `frag` is in progress (sections 5.2, 5.4 and 5.5 of RFC 6455). */
  predicate MayStart(b: byte, frag: Frag) {
    && b / 16 % 8 == 0
    && match ByteToOpcode(b)
       case Close => b >= 128
       case Ping => b >= 128
       case Pong => b >= 128
       case Continue => frag != Continue
       case Text => frag == Continue
       case Binary => frag == Continue
       case Reserved(_) => false
  }

  function OnOpcode(c: Conn, b: byte): Conn
    requires c.Open?
  {
    if MayStart(b, c.rx.frag) then
      var op := ByteToOpcode(b);
      c.(rx := c.rx.(state := SizeOctet, fin := b >= 128, opcode := op, buf := [],
                     utf8 := if op.Continue? then c.rx.saved else 0))
    else Fail(c, CLOSE_PROTOCOL_ERROR)
  }

  /** The code with which a control frame announcing `n` octets is refused, if it is. */
  function SizeFault(cfg: Config, op: Opcode, n: nat): nat {
    if !IsControl(op) then 0
    else if n > 125 || (op.Close? && n == 1) then CLOSE_PROTOCOL_ERROR
    else if op.Close? && n == 0 then CLOSE_NORMAL
    else if n > cfg.capacity then CLOSE_TOO_BIG
    else 0
  }

  function AfterSize(rx: Rx): RxState {
    if rx.masked then MaskKey(0) else Data
  }

  function OnSize(cfg: Config, c: Conn, b: byte): Conn
    requires c.Open?
  {
    var n := b % 128;
    if SizeFault(cfg, c.rx.opcode, n) != 0 then Fail(c, SizeFault(cfg, c.rx.opcode, n))
    else
      var rx := c.rx.(masked := b >= 128);
      c.(rx := if n == 127 then rx.(state := Extended(2), size := 0)
               else if n == 126 then rx.(state := Extended(0), size := 0)
               else rx.(state := AfterSize(rx), size := n))
  }

  function OnExtended(c: Conn, b: byte): Conn
    requires c.Open? && c.rx.state.Extended?
  {
    var n := c.rx.state.n;
    c.(rx := c.rx.(size := c.rx.size * 256 + b,
                   state := if n == 1 || n == 9 then AfterSize(c.rx) else Extended(n + 1)))
  }

  function OnMask(c: Conn, b: byte): Conn
    requires c.Open? && c.rx.state.MaskKey? && c.rx.state.n < 4
  {
    var n := c.rx.state.n;
    c.(rx := c.rx.(mask := c.rx.mask[n := b], state := if n == 3 then Data else MaskKey(n + 1)))
  }

  /** The key octet is chosen by the position in the receive buffer. */
  function Unmask(rx: Rx, b: byte): byte {
    if rx.masked then Xor(b, rx.mask[|rx.buf| % 4]) else b
  }

  function OnData(c: Conn, b: byte): Conn
    requires c.Open? && c.rx.size > 0
  {
    var x := Unmask(c.rx, b);
    var rx := c.rx.(size := c.rx.size - 1, buf := c.rx.buf + [x]);
    var checked := Kind(rx).Text? || (Kind(rx).Close? && |rx.buf| > 2);
    var q := if checked then Utf8.Parse(rx.utf8, x) else rx.utf8;
    if checked && q == Utf8.INVALID then Fail(c, CLOSE_INVALID_DATA)
    else c.(rx := rx.(utf8 := q))
  }

  /** One octet read from the transport. */
  function Consume(cfg: Config, c: Conn, b: byte): (r: Conn)
    requires c.Open? && Valid(cfg, c.rx) && !Pending(cfg, c)
  {
    match c.rx.state
    case OpcodeOctet => OnOpcode(c, b)
    case SizeOctet => OnSize(cfg, c, b)
    case Extended(_) => OnExtended(c, b)
    case MaskKey(_) => OnMask(c, b)
    case Data => OnData(c, b)
  }

  // ---- One delivery ----

  predicate IsWireCode(code: nat) {
    || 1000 <= code <= 1003
    || 1007 <= code <= 1011
  }

  /** The code and reason with which a close frame is answered. */
  function CloseAnswer(payload: bytes, utf8: Utf8.State): (nat, bytes)
    requires |payload| >= 2
  {
    var code := BigEndian(payload[..2]);
    if IsWireCode(code) then
      if utf8 == Utf8.COMPLETE then (code, payload[2..]) else (CLOSE_PROTOCOL_ERROR, [])
    else if 3000 <= code <= 4999 then (CLOSE_NORMAL, [])
    else (CLOSE_PROTOCOL_ERROR, [])
  }

  function EncodingOf(op: Opcode): Encoding {
    if op.Text? then Utf8Text else BinaryData
  }

  /** The owed delivery, to a host that is ready. */
  function Deliver(cfg: Config, c: Conn): (r: Conn)
    requires Pending(cfg, c) && Valid(cfg, c.rx)
  {
    var rx, k := c.rx, Kind(c.rx);
    if rx.size > 0 then
      Open(rx.(buf := []), c.log + if IsType(k) then [Message(EncodingOf(k), false, rx.buf)] else [])
    else
      var next := rx.(state := OpcodeOctet);
      match k
      case Text =>
        if !rx.fin then
          Open(next.(frag := Text, saved := rx.utf8), c.log + [Message(Utf8Text, false, rx.buf)])
        else if rx.utf8 == Utf8.COMPLETE then
          Open(next.(frag := Continue), c.log + [Message(Utf8Text, true, rx.buf)])
        else Fail(c, CLOSE_INVALID_DATA)
      case Binary =>
        Open(next.(frag := if rx.fin then Continue else Binary), c.log + [Message(BinaryData, rx.fin, rx.buf)])
      case Close =>
        Shutdown(c, CloseAnswer(rx.buf, rx.utf8).0, CloseAnswer(rx.buf, rx.utf8).1)
      case Ping =>
        Open(next, c.log + if MinFrameSize(Pong, true, |rx.buf|) <= cfg.pongMax then [Reply(rx.buf)] else [])
      case _ =>
        Open(next, c.log)
  }

  /** The message that is owed, if what is owed is a message. */
  function Owed(cfg: Config, c: Conn): (r: seq<Event>)
    requires Pending(cfg, c) && Valid(cfg, c.rx)
    ensures |r| <= 1 && (r != [] ==> r[0].Message? && r[0].data == c.rx.buf)
    ensures r != [] ==> Deliver(cfg, c).log == c.log + r
  {
    var log := Deliver(cfg, c).log;
    if |log| == |c.log| + 1 && log[|c.log|].Message? then log[|c.log|..] else []
  }

  lemma FullBuffer(cfg: Config, c: Conn)
    requires Pending(cfg, c) && Valid(cfg, c.rx) && c.rx.size > 0
    ensures var m := if IsType(Kind(c.rx)) then [Message(EncodingOf(Kind(c.rx)), false, c.rx.buf)] else [];
            Owed(cfg, c) == m && Deliver(cfg, c) == Open(c.rx.(buf := []), c.log + m)
  {}

  lemma BinaryEnds(cfg: Config, c: Conn)
    requires Pending(cfg, c) && Valid(cfg, c.rx) && c.rx.size == 0 && Kind(c.rx).Binary?
    ensures var m := Message(BinaryData, c.rx.fin, c.rx.buf);
            && Owed(cfg, c) == [m]
            && Deliver(cfg, c)
            == Open(c.rx.(state := OpcodeOctet, frag := if c.rx.fin then Continue else Binary), c.log + [m])
  {}

  lemma TextEnds(cfg: Config, c: Conn)
    requires Pending(cfg, c) && Valid(cfg, c.rx) && c.rx.size == 0 && Kind(c.rx).Text?
    ensures var m, next := Message(Utf8Text, c.rx.fin, c.rx.buf), c.rx.(state := OpcodeOctet);
            if c.rx.fin && c.rx.utf8 != Utf8.COMPLETE then
              Owed(cfg, c) == [] && Deliver(cfg, c) == Fail(c, CLOSE_INVALID_DATA)
            else
              && Owed(cfg, c) == [m]
              && Deliver(cfg, c)
              == Open(if c.rx.fin then next.(frag := Continue) else next.(frag := Text, saved := c.rx.utf8),
                      c.log + [m])
  {}

  lemma ControlEnds(cfg: Config, c: Conn)
    requires Pending(cfg, c) && Valid(cfg, c.rx) && c.rx.size == 0 && !IsType(Kind(c.rx))
    ensures Owed(cfg, c) == []
  {}

  // ---- Whole runs ----

  function Settle(cfg: Config, c: Conn): Conn
    requires ValidConn(cfg, c)
  {
    if Pending(cfg, c) then Deliver(cfg, c) else c
  }

  predicate Settled(cfg: Config, c: Conn) {
    ValidConn(cfg, c) && !Pending(cfg, c)
  }

  /** The machine after one more octet. A closed connection swallows it. */
  function Feed(cfg: Config, c: Conn, b: byte): (r: Conn)
    requires cfg.capacity > 0 && Settled(cfg, c)
    ensures Settled(cfg, r)
  {
    if c.Shut? then c
    else
      ConsumeValid(cfg, c, b);
      var d := Consume(cfg, c, b);
      if Pending(cfg, d) then DeliverValid(cfg, d); Deliver(cfg, d) else d
  }

  function Run(cfg: Config, c: Conn, s: bytes): (r: Conn)
    requires cfg.capacity > 0 && Settled(cfg, c)
    ensures Settled(cfg, r)
    decreases |s|
  {
    if s == [] then c else Run(cfg, Feed(cfg, c, s[0]), s[1..])
  }

  lemma OpcodeValid(cfg: Config, c: Conn, b: byte)
    requires c.Open? && Valid(cfg, c.rx) && c.rx.state.OpcodeOctet?
    ensures ValidConn(cfg, OnOpcode(c, b))
  {}

  lemma SizeValid(cfg: Config, c: Conn, b: byte)
    requires c.Open? && Valid(cfg, c.rx) && c.rx.state.SizeOctet?
    ensures ValidConn(cfg, OnSize(cfg, c, b))
  {
    Pow256Grows(1, 8);
  }

  lemma ExtendedValid(cfg: Config, c: Conn, b: byte)
    requires c.Open? && Valid(cfg, c.rx) && c.rx.state.Extended?
    ensures ValidConn(cfg, OnExtended(c, b))
  {
    Pow256Grows(OctetsRead(c.rx.state.n) + 1, 8);
  }

  lemma DataValid(cfg: Config, c: Conn, b: byte)
    requires c.Open? && Valid(cfg, c.rx) && c.rx.state.Data? && !Pending(cfg, c)
    ensures ValidConn(cfg, OnData(c, b))
  {}

  /** Every octet keeps the invariant; the length never leaves 64 bits. */
  lemma ConsumeValid(cfg: Config, c: Conn, b: byte)
    requires c.Open? && Valid(cfg, c.rx) && !Pending(cfg, c)
    ensures ValidConn(cfg, Consume(cfg, c, b))
  {
    match c.rx.state
    case OpcodeOctet => OpcodeValid(cfg, c, b);
    case SizeOctet => SizeValid(cfg, c, b);
    case Extended(_) => ExtendedValid(cfg, c, b);
    case MaskKey(_) =>
    case Data => DataValid(cfg, c, b);
  }

  /** A delivery keeps the invariant and leaves none owed. */
  lemma DeliverValid(cfg: Config, c: Conn)
    requires cfg.capacity > 0 && Pending(cfg, c) && Valid(cfg, c.rx)
    ensures Settled(cfg, Deliver(cfg, c))
  {}

  // ---- The loop that reads ----

  lemma RunNothing(cfg: Config, c: Conn)
    requires cfg.capacity > 0 && Settled(cfg, c)
    ensures Run(cfg, c, []) == c
  {}

  lemma {:induction false} RunShut(cfg: Config, c: Conn, s: bytes)
    requires cfg.capacity > 0 && c.Shut?
    ensures Run(cfg, c, s) == c
    decreases |s|
  {
    if s != [] {
      RunShut(cfg, c, s[1..]);
    }
  }

  /** What one always-ready host sees of connection `c` and further octets `s`. */
  function After(cfg: Config, c: Conn, s: bytes): (r: Conn)
    requires cfg.capacity > 0 && ValidConn(cfg, c)
    ensures Settled(cfg, r)
  {
    if Pending(cfg, c) then DeliverValid(cfg, c); Run(cfg, Deliver(cfg, c), s) else Run(cfg, c, s)
  }

  /** The work left: two units for an unread octet, one for an owed delivery. */
  function Work(cfg: Config, c: Conn, unread: nat): nat {
    2 * unread + if Pending(cfg, c) then 1 else 0
  }

  /** Reading an octet when nothing is owed. */
  lemma AfterConsume(cfg: Config, c: Conn, b: byte)
    requires cfg.capacity > 0 && c.Open? && Settled(cfg, c)
    ensures ValidConn(cfg, Consume(cfg, c, b))
    ensures After(cfg, c, [b]) == After(cfg, Consume(cfg, c, b), [])
  {
    ConsumeValid(cfg, c, b);
    assert Run(cfg, c, [b]) == Run(cfg, Feed(cfg, c, b), []);
  }

  /** Delivering what is owed. */
  lemma AfterDeliver(cfg: Config, c: Conn)
    requires cfg.capacity > 0 && ValidConn(cfg, c) && Pending(cfg, c)
    ensures Settled(cfg, Deliver(cfg, c))
    ensures After(cfg, c, []) == After(cfg, Deliver(cfg, c), []) == Deliver(cfg, c)
  {
    DeliverValid(cfg, c);
  }

  lemma AfterNothing(cfg: Config, c: Conn)
    requires cfg.capacity > 0 && Settled(cfg, c)
    ensures After(cfg, c, []) == c
  {}

  /** Reading on: first `s`, then `t`. */
  lemma {:induction false} RunConcat(cfg: Config, c: Conn, s: bytes, t: bytes)
    requires cfg.capacity > 0 && Settled(cfg, c)
    ensures Run(cfg, c, s + t) == Run(cfg, Run(cfg, c, s), t)
    decreases |s|
  {
    if s == [] {
      assert s + t == t;
    } else {
      assert (s + t)[1..] == s[1..] + t;
      RunConcat(cfg, Feed(cfg, c, s[0]), s[1..], t);
    }
  }

  lemma AfterConcat(cfg: Config, c: Conn, s: bytes, t: bytes)
    requires cfg.capacity > 0 && ValidConn(cfg, c)
    ensures After(cfg, c, s + t) == Run(cfg, After(cfg, c, s), t)
  {
    hide Run;
    if Pending(cfg, c) {
      DeliverValid(cfg, c);
    }
    RunConcat(cfg, Settle(cfg, c), s, t);
  }

  // ---- Many calls ----

  /** What one call took, and the connection after it. */
  datatype Call = Call(octets: bytes, after: Conn)

  /** A call has taken `octets`: to an always-ready host the connection is where it would be with them. */
  predicate Follows(cfg: Config, before: Conn, octets: bytes, after: Conn) {
    && cfg.capacity > 0 && ValidConn(cfg, before) && ValidConn(cfg, after)
    && After(cfg, after, []) == After(cfg, before, octets)
  }

  /** Calls in a row, from connection `c` on. */
  predicate Calls(cfg: Config, c: Conn, calls: seq<Call>)
    decreases |calls|
  {
    calls == [] || (Follows(cfg, c, calls[0].octets, calls[0].after) && Calls(cfg, calls[0].after, calls[1..]))
  }

  function Taken(calls: seq<Call>): bytes {
    if calls == [] then [] else calls[0].octets + Taken(calls[1..])
  }

  function Last(c: Conn, calls: seq<Call>): Conn {
    if calls == [] then c else calls[|calls| - 1].after
  }

  lemma FollowsOn(cfg: Config, before: Conn, s: bytes, mid: Conn, t: bytes, after: Conn)
    requires Follows(cfg, before, s, mid) && Follows(cfg, mid, t, after)
    ensures Follows(cfg, before, s + t, after)
  {
    hide Run, Valid;
    AfterConcat(cfg, before, s, t);
    AfterConcat(cfg, mid, [], t);
    assert [] + t == t;
  }

  lemma {:induction false} CallsFollow(cfg: Config, c: Conn, calls: seq<Call>)
    requires cfg.capacity > 0 && ValidConn(cfg, c) && Calls(cfg, c, calls)
    ensures Follows(cfg, c, Taken(calls), Last(c, calls))
    decreases |calls|
  {
    hide Follows;
    if calls == [] {
      FollowsNothing(cfg, c);
    } else {
      var next := calls[0].after;
      FollowsValid(cfg, c, calls[0].octets, next);
      CallsFollow(cfg, next, calls[1..]);
      FollowsOn(cfg, c, calls[0].octets, next, Taken(calls[1..]), Last(next, calls[1..]));
    }
  }

  lemma FollowsNothing(cfg: Config, c: Conn)
    requires cfg.capacity > 0 && ValidConn(cfg, c)
    ensures Follows(cfg, c, [], c)
  {}

  lemma FollowsValid(cfg: Config, before: Conn, octets: bytes, after: Conn)
    requires Follows(cfg, before, octets, after)
    ensures ValidConn(cfg, after)
  {}

  /**
   * However the octets were split into calls, and whatever deliveries were refused on the way and
   * asked for again: once nothing is owed, the connection is where an always-ready host would have
   * brought it with all the octets at once. Nothing is lost, repeated or reordered.
   */
  lemma NothingIsLost(cfg: Config, c: Conn, calls: seq<Call>)
    requires cfg.capacity > 0 && Settled(cfg, c) && Calls(cfg, c, calls) && !Pending(cfg, Last(c, calls))
    ensures Last(c, calls) == Run(cfg, c, Taken(calls))
  {
    hide Run, Valid;
    CallsFollow(cfg, c, calls);
    AfterNothing(cfg, Last(c, calls));
  }
}
