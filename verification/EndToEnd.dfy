// A sender and a receiver compose: what one endpoint puts on the wire, the other delivers.

module EndToEnd {
  import opened Octets
  import opened Frames
  import opened Receiver
  import opened Decoder
  import opened Refinement
  import opened Payloads
  import opened Sender
  import Utf8

  /** The receiver chooses the key octets of this payload rightly. */
  predicate KeyFits(cfg: Config, key: Key, n: nat) {
    key.Unmasked? || n <= cfg.capacity || cfg.capacity % 4 == 0
  }

  /** The fragmentation state admits the frame, and the receiver can hold it if it is a control frame. */
  predicate Admits(cfg: Config, frag: Frag, f: Frame) {
    && |f.payload| < 0x1_0000
    && match f.opcode
       case Continue => !frag.Continue?
       case Text => frag.Continue?
       case Binary => frag.Continue?
       case Reserved(_) => false
       case _ => f.fin && |f.payload| <= 125 && |f.payload| <= cfg.capacity && (f.opcode.Close? ==> |f.payload| >= 2)
  }

  function Outcome(cfg: Config, rx: Rx, f: Frame): FrameResult
    requires cfg.capacity > 0 && (f.opcode.Close? ==> |f.payload| >= 2)
  {
    CompleteFrame(cfg, if f.opcode.Continue? then rx.frag else f.opcode, f.fin, rx.frag, rx.saved,
                  if f.opcode.Continue? then rx.saved else 0, f.payload)
  }

  lemma UnmasksSent(cfg: Config, key: Key, p: bytes)
    requires cfg.capacity > 0 && KeyFits(cfg, key, |p|)
    ensures UnmaskBuffered(key, cfg.capacity, Apply(key, p)) == p
  {
    ApplyInvolution(key, p);
    if key.Masked? {
      FittingKeyAgrees(key.mask, cfg.capacity, |p|);
      AgreeingKey(key.mask, cfg.capacity, Apply(key, p));
    }
  }

  /** The first two octets of an admitted frame pass the receiver's checks. */
  lemma SentStarts(cfg: Config, c: Conn, f: Frame, key: Key, bs: bytes)
    requires cfg.capacity > 0 && c.Open? && Valid(cfg, c.rx) && c.rx.state.OpcodeOctet?
    requires Admits(cfg, c.rx.frag, f) && bs == EncodeFrame(f, key)
    ensures |bs| >= 2 && Starts(cfg, c, bs[0], bs[1])
  {
    hide EncodeLength, Apply, OpcodeToByte, ByteToOpcode, FirstOctet, Valid;
    var h := FirstOctet(f.fin, f.opcode);
    FirstOctetReads(f.fin, f.opcode);
    var e := EncodeLength(key.Masked?, |f.payload|);
    EncodedLength(key.Masked?, |f.payload|, e);
    Layout2(h, e, (if key.Masked? then key.mask else []), Apply(key, f.payload));
    assert |e| == 1 ==> Announced(e) == e[0] % 128;
  }

  lemma Layout2(h: byte, e: bytes, k: bytes, p: bytes)
    requires e != []
    ensures ([h] + e + k + p)[0] == h && ([h] + e + k + p)[1] == e[0]
  {}

  lemma SentHeader(f: Frame, key: Key, bs: bytes)
    requires !f.opcode.Reserved? && |f.payload| < 0x1_0000 && bs == EncodeFrame(f, key)
    ensures |bs| >= 2 && |bs| >= HeaderSize(bs[1])
    ensures ReadHeader(bs) == Header(f.fin, f.opcode, key, |f.payload|, |bs| - |f.payload|)
    ensures bs[|bs| - |f.payload|..] == Apply(key, f.payload)
  {
    assert bs + [] == bs;
    HeaderRoundTrip(f, key, [], bs);
    assert Apply(key, f.payload) + [] == Apply(key, f.payload);
  }

  /** One frame on the wire is one frame received, with the payload it was sent with. */
  lemma FrameArrives(cfg: Config, c: Conn, f: Frame, key: Key)
    requires cfg.capacity > 0 && c.Open? && Valid(cfg, c.rx) && c.rx.state.OpcodeOctet?
    requires Admits(cfg, c.rx.frag, f) && KeyFits(cfg, key, |f.payload|)
    ensures Ends(Run(cfg, c, EncodeFrame(f, key)), c.log, Outcome(cfg, c.rx, f))
  {
    var bs := EncodeFrame(f, key);
    SentHeader(f, key, bs);
    SentStarts(cfg, c, f, key, bs);
    HeaderThenBody(cfg, c, bs, |f.payload|);
    UnmasksSent(cfg, key, f.payload);
  }

  /**
   * The sender lets through control frames of any length. A ping or pong leaves the connection of
   * the receiver open exactly if it keeps to the 125 octets of section 5.5 of RFC 6455 and fits its
   * buffer.
   */
  lemma ControlFrameKept(cfg: Config, c: Conn, f: Frame, key: Key)
    requires 0 < cfg.capacity && c.Open? && Valid(cfg, c.rx) && c.rx.state.OpcodeOctet?
    requires f.fin && (f.opcode.Ping? || f.opcode.Pong?) && |f.payload| < 0x1_0000
    ensures Settled(cfg, c)
    ensures Run(cfg, c, EncodeFrame(f, key)).Open? <==> |f.payload| <= 125 && |f.payload| <= cfg.capacity
    ensures |f.payload| > 125 ==> Run(cfg, c, EncodeFrame(f, key)) == Fail(c, CLOSE_PROTOCOL_ERROR)
    ensures cfg.capacity < |f.payload| <= 125 ==> Run(cfg, c, EncodeFrame(f, key)) == Fail(c, CLOSE_TOO_BIG)
  {
    if |f.payload| <= 125 && |f.payload| <= cfg.capacity {
      FrameArrives(cfg, c, f, key);
    } else {
      LongControl(cfg, c, f, key);
    }
  }

  lemma LongControl(cfg: Config, c: Conn, f: Frame, key: Key)
    requires cfg.capacity > 0 && c.Open? && Valid(cfg, c.rx) && c.rx.state.OpcodeOctet?
    requires f.fin && (f.opcode.Ping? || f.opcode.Pong?) && |f.payload| < 0x1_0000
    requires |f.payload| > 125 || |f.payload| > cfg.capacity
    ensures Settled(cfg, c)
    ensures Run(cfg, c, EncodeFrame(f, key))
         == Fail(c, if |f.payload| > 125 then CLOSE_PROTOCOL_ERROR else CLOSE_TOO_BIG)
  {
    hide Run;
    ControlRefused(cfg, c, f, key);
  }

  /** A control frame that the receiver refuses by its length. */
  lemma ControlRefused(cfg: Config, c: Conn, f: Frame, key: Key)
    requires cfg.capacity > 0 && c.Open? && Valid(cfg, c.rx) && c.rx.state.OpcodeOctet?
    requires f.fin && IsControl(f.opcode) && |f.payload| < 0x1_0000
    requires SizeFault(cfg, f.opcode, if |f.payload| > 125 then 126 else |f.payload|) != 0
    ensures Settled(cfg, c)
    ensures Run(cfg, c, EncodeFrame(f, key))
         == Fail(c, SizeFault(cfg, f.opcode, if |f.payload| > 125 then 126 else |f.payload|))
  {
    hide Run;
    var bs := EncodeFrame(f, key);
    var h := FirstOctet(f.fin, f.opcode);
    var e := EncodeLength(key.Masked?, |f.payload|);
    FirstOctetReads(f.fin, f.opcode);
    EncodedLength(key.Masked?, |f.payload|, e);
    Layout2(h, e, (if key.Masked? then key.mask else []), Apply(key, f.payload));
    assert bs[1] % 128 == if |f.payload| > 125 then 126 else |f.payload|;
    RefusedFrame(cfg, c, bs);
  }

  lemma RefusedFrame(cfg: Config, c: Conn, bs: bytes)
    requires cfg.capacity > 0 && c.Open? && Valid(cfg, c.rx) && c.rx.state.OpcodeOctet?
    requires |bs| >= 2 && MayStart(bs[0], c.rx.frag)
    requires SizeFault(cfg, ByteToOpcode(bs[0]), bs[1] % 128) != 0
    ensures Run(cfg, c, bs) == Fail(c, SizeFault(cfg, ByteToOpcode(bs[0]), bs[1] % 128))
  {
    var d := OnOpcode(c, bs[0]);
    OpcodeValid(cfg, c, bs[0]);
    assert Feed(cfg, c, bs[0]) == d;
    var e := OnSize(cfg, d, bs[1]);
    SizeValid(cfg, d, bs[1]);
    assert Feed(cfg, d, bs[1]) == e;
    RunShut(cfg, e, bs[1..][1..]);
  }

  lemma HeaderThenBody(cfg: Config, c: Conn, bs: bytes, n: nat)
    requires |bs| >= 2 && |bs| >= HeaderSize(bs[1]) && Starts(cfg, c, bs[0], bs[1])
    requires n == ReadHeader(bs).length == |bs| - HeaderSize(bs[1])
    ensures var d := Headed(c, ReadHeader(bs));
            var q := UnmaskBuffered(KeyOf(d.rx), cfg.capacity, bs[|bs| - n..]);
            AtPayload(cfg, d) && Ends(Run(cfg, c, bs), c.log, ResultOf(cfg, d, q))
  {
    hide Run;
    var h := ReadHeader(bs);
    var body := bs[h.size..];
    var d := Headed(c, h);
    ReadHeaderPrefix(bs);
    HeaderRuns(cfg, c, bs[..h.size]);
    var e := Settle(cfg, d);
    FrameRuns(cfg, d, e, body);
    assert body[..h.length] == body;
    RunConcat(cfg, c, bs[..h.size], body);
    Cut(bs, 0, h.size);
  }

  // ---- Whole messages, as the two hosts see them ----

  datatype Parcel = Parcel(encoding: Encoding, data: bytes)

  /** The data of the message that the deliveries left unfinished. */
  function PartReceived(log: seq<Event>): bytes {
    if log == [] then []
    else
      var before := log[..|log| - 1];
      match log[|log| - 1]
      case Message(_, fin, d) => if fin then [] else PartReceived(before) + d
      case _ => PartReceived(before)
  }

  /** The messages delivered to the end, in order. */
  function Received(log: seq<Event>): seq<Parcel> {
    if log == [] then []
    else
      var before := log[..|log| - 1];
      match log[|log| - 1]
      case Message(e, fin, d) => Received(before) + if fin then [Parcel(e, PartReceived(before) + d)] else []
      case _ => Received(before)
  }

  function PartSent(sent: seq<Frame>): bytes {
    if sent == [] then []
    else
      var before, f := sent[..|sent| - 1], sent[|sent| - 1];
      if IsControl(f.opcode) then PartSent(before)
      else if f.fin then [] else PartSent(before) + f.payload
  }

  /** The messages sent to the end, in order. */
  function Posted(sent: seq<Frame>): seq<Parcel> {
    if sent == [] then []
    else
      var before, f := sent[..|sent| - 1], sent[|sent| - 1];
      Posted(before) +
      if IsControl(f.opcode) || !f.fin then []
      else [Parcel(EncodingOf(TypeOf(before, f)), PartSent(before) + f.payload)]
  }

  function Pings(sent: seq<Frame>): seq<bytes> {
    if sent == [] then []
    else Pings(sent[..|sent| - 1]) + if sent[|sent| - 1].opcode.Ping? then [sent[|sent| - 1].payload] else []
  }

  lemma EventSnoc(log: seq<Event>, e: Event)
    ensures (log + [e])[..|log|] == log
  {}

  /** A frame delivered in pieces is received as if it came in one. */
  lemma {:induction false} PiecesReceived(log: seq<Event>, pieces: seq<Event>, enc: Encoding, fin: bool, cap: nat)
    requires Piecewise(pieces, enc, fin, cap)
    ensures PartReceived(log + pieces) == if fin then [] else PartReceived(log) + DataOf(pieces)
    ensures Received(log + pieces)
         == Received(log) + if fin then [Parcel(enc, PartReceived(log) + DataOf(pieces))] else []
    ensures Replies(log + pieces) == Replies(log)
    decreases |pieces|
  {
    var e, rest := pieces[0], pieces[1..];
    EventSnoc(log, e);
    Associative(log, [e], rest);
    assert [e] + rest == pieces;
    if rest == [] {
      assert DataOf(pieces) == e.data + [] == e.data;
      assert log + pieces == log + [e];
    } else {
      PiecesReceived(log + [e], rest, enc, fin, cap);
      Associative(PartReceived(log), e.data, DataOf(rest));
    }
  }

  /** What the receiving host has got is what the sending host has sent. */
  ghost predicate Corresponds(start: seq<Event>, log: seq<Event>, sent: seq<Frame>) {
    && Received(log) == Received(start) + Posted(sent)
    && PartReceived(log) == PartSent(sent)
    && Replies(log) == Replies(start) + Pings(sent)
  }

  /** Every frame is short enough for the receiver, and every key is chosen rightly. */
  ghost predicate Carried(cfg: Config, sent: seq<Frame>, keys: seq<Key>) {
    && |sent| == |keys|
    && forall i :: 0 <= i < |sent| ==>
         && |sent[i].payload| < 0x1_0000
         && (IsControl(sent[i].opcode) ==> |sent[i].payload| <= 125 && |sent[i].payload| <= cfg.capacity)
         && KeyFits(cfg, keys[i], |sent[i].payload|)
  }

  /** The receiver between two frames, in step with the sender. */
  ghost predicate InStep(cfg: Config, c: Conn, sent: seq<Frame>) {
    c.Open? && Valid(cfg, c.rx) && c.rx.state.OpcodeOctet?
    && c.rx.frag == Unfinished(sent)
    && (c.rx.frag.Text? ==> c.rx.saved == Utf8.Run(0, UnfinishedText(sent)))
  }

  /** A legal text frame leaves the validator where the sender's rules say. */
  lemma LegalText(cfg: Config, c: Conn, sent: seq<Frame>, f: Frame)
    requires InStep(cfg, c, sent) && Legal(sent) && Sender.MayFollow(sent, f) && TypeOf(sent, f).Text?
    ensures var u := if f.opcode.Continue? then c.rx.saved else 0;
            var q := Utf8.Run(u, f.payload);
            && q == Utf8.Run(0, UnfinishedText(sent) + f.payload)
            && (if f.fin then q == Utf8.COMPLETE else q != Utf8.INVALID)
  {
    NoTextUnfinished(sent);
    var m := UnfinishedText(sent) + f.payload;
    Utf8.RunConcat(0, UnfinishedText(sent), f.payload);
    Utf8.AcceptsExactlyWellFormed(m);
    Utf8.InvalidExactlyUnrepairable(m);
  }

  lemma LegalOutcome(cfg: Config, c: Conn, sent: seq<Frame>, f: Frame)
    requires cfg.capacity > 0 && InStep(cfg, c, sent) && Legal(sent) && Sender.MayFollow(sent, f)
    requires !IsControl(f.opcode)
    ensures var r, k := Outcome(cfg, c.rx, f), TypeOf(sent, f);
            && IsType(k) && r.trace.open
            && DataOf(r.trace.events) == f.payload
            && Piecewise(r.trace.events, EncodingOf(k), f.fin, cfg.capacity)
            && r.frag == Unfinished(sent + [f])
            && (r.frag.Text? ==> r.saved == Utf8.Run(0, UnfinishedText(sent + [f])))
  {
    var k := TypeOf(sent, f);
    SentSnoc(sent, f);
    if k.Text? {
      LegalText(cfg, c, sent, f);
    }
    DeliveredWhole(cfg, k, f.fin, c.rx.frag, c.rx.saved, if f.opcode.Continue? then c.rx.saved else 0, f.payload);
  }

  lemma PostedSnoc(sent: seq<Frame>, f: Frame)
    requires !IsControl(f.opcode)
    ensures PartSent(sent + [f]) == if f.fin then [] else PartSent(sent) + f.payload
    ensures Posted(sent + [f])
         == Posted(sent) + if f.fin then [Parcel(EncodingOf(TypeOf(sent, f)), PartSent(sent) + f.payload)] else []
    ensures Pings(sent + [f]) == Pings(sent)
  {
    SentSnoc(sent, f);
    assert Pings(sent + [f]) == Pings(sent) + [];
  }

  lemma DataFrameArrives(cfg: Config, start: seq<Event>, c: Conn, sent: seq<Frame>, f: Frame, key: Key)
    requires cfg.capacity > 0 && InStep(cfg, c, sent) && Legal(sent) && Sender.MayFollow(sent, f)
    requires !IsControl(f.opcode) && |f.payload| < 0x1_0000 && KeyFits(cfg, key, |f.payload|)
    requires Corresponds(start, c.log, sent)
    ensures var d := Run(cfg, c, EncodeFrame(f, key));
            InStep(cfg, d, sent + [f]) && Corresponds(start, d.log, sent + [f])
  {
    var k := TypeOf(sent, f);
    FrameArrives(cfg, c, f, key);
    LegalOutcome(cfg, c, sent, f);
    PiecesReceived(c.log, Outcome(cfg, c.rx, f).trace.events, EncodingOf(k), f.fin, cfg.capacity);
    PostedSnoc(sent, f);
    Associative(Received(start), Posted(sent),
                if f.fin then [Parcel(EncodingOf(k), PartSent(sent) + f.payload)] else []);
  }

  lemma ControlFrameArrives(cfg: Config, start: seq<Event>, c: Conn, sent: seq<Frame>, f: Frame, key: Key)
    requires cfg.capacity > 0 && InStep(cfg, c, sent) && Legal(sent) && Sender.MayFollow(sent, f)
    requires (f.opcode.Ping? || f.opcode.Pong?) && |f.payload| <= 125 && |f.payload| <= cfg.capacity
    requires cfg.pongMax >= 131
    requires Corresponds(start, c.log, sent)
    ensures var d := Run(cfg, c, EncodeFrame(f, key));
            InStep(cfg, d, sent + [f]) && Corresponds(start, d.log, sent + [f])
  {
    hide Run, EncodeFrame, Ends, Outcome, Corresponds, Legal, Sender.MayFollow;
    var d := Run(cfg, c, EncodeFrame(f, key));
    ControlAdmitted(cfg, c, sent, f);
    FrameArrives(cfg, c, f, key);
    ControlPosted(sent, f);
    ControlOutcome(cfg, c, f, d);
    ReplyReceived(start, c.log, d.log, sent, f);
  }

  lemma ControlAdmitted(cfg: Config, c: Conn, sent: seq<Frame>, f: Frame)
    requires Sender.MayFollow(sent, f) && (f.opcode.Ping? || f.opcode.Pong?)
    requires |f.payload| <= 125 && |f.payload| <= cfg.capacity && c.Open?
    ensures Admits(cfg, c.rx.frag, f)
  {}

  /** A ping is answered, a pong ignored, and both leave the message in progress alone. */
  lemma ControlOutcome(cfg: Config, c: Conn, f: Frame, d: Conn)
    requires cfg.capacity > 0 && cfg.pongMax >= 131 && c.Open? && (f.opcode.Ping? || f.opcode.Pong?)
    requires |f.payload| <= 125 && Ends(d, c.log, Outcome(cfg, c.rx, f))
    ensures d.Open? && d.rx.state.OpcodeOctet? && d.rx.frag == c.rx.frag && d.rx.saved == c.rx.saved
    ensures d.log == c.log + if f.opcode.Ping? then [Reply(f.payload)] else []
  {}

  lemma ReplyReceived(start: seq<Event>, log: seq<Event>, log': seq<Event>, sent: seq<Frame>, f: Frame)
    requires Corresponds(start, log, sent) && (f.opcode.Ping? || f.opcode.Pong?)
    requires log' == log + if f.opcode.Ping? then [Reply(f.payload)] else []
    ensures Corresponds(start, log', sent + [f])
  {
    ControlPosted(sent, f);
    if f.opcode.Ping? {
      EventSnoc(log, Reply(f.payload));
      RepliesSnoc(log, Reply(f.payload));
      Associative(Replies(start), Pings(sent), [f.payload]);
    } else {
      assert log' == log;
    }
  }

  lemma ControlPosted(sent: seq<Frame>, f: Frame)
    requires IsControl(f.opcode)
    ensures Unfinished(sent + [f]) == Unfinished(sent) && UnfinishedText(sent + [f]) == UnfinishedText(sent)
    ensures PartSent(sent + [f]) == PartSent(sent) && Posted(sent + [f]) == Posted(sent)
    ensures Pings(sent + [f]) == if f.opcode.Ping? then Pings(sent) + [f.payload] else Pings(sent)
  {
    SentSnoc(sent, f);
    assert Posted(sent + [f]) == Posted(sent) + [];
    assert !f.opcode.Ping? ==> Pings(sent + [f]) == Pings(sent) + [];
  }

  /**
   * Any legal run of text, binary, ping and pong frames, under any keys, is received without a
   * close: the receiving host gets exactly the messages sent, whole, in order, with their
   * encodings, and answers every ping with its payload.
   */
  lemma {:induction false} RunArrives(cfg: Config, c: Conn, sent: seq<Frame>, keys: seq<Key>)
    requires 0 < cfg.capacity < 0x1_0000 && cfg.pongMax >= 131
    requires InStep(cfg, c, []) && PartReceived(c.log) == []
    requires Legal(sent) && !HasClose(sent) && Carried(cfg, sent, keys)
    ensures var d := Run(cfg, c, Wire(sent, keys));
            InStep(cfg, d, sent) && Corresponds(c.log, d.log, sent)
  {
    hide Run, EncodeFrame, Corresponds;
    if sent != [] {
      var before, f := sent[..|sent| - 1], sent[|sent| - 1];
      var ks, key := keys[..|sent| - 1], keys[|sent| - 1];
      Around(sent, |before|);
      SentSnoc(before, f);
      RunArrives(cfg, c, before, ks);
      var d := Run(cfg, c, Wire(before, ks));
      RunConcat(cfg, c, Wire(before, ks), EncodeFrame(f, key));
      if IsControl(f.opcode) {
        ControlFrameArrives(cfg, c.log, d, before, f, key);
      } else {
        DataFrameArrives(cfg, c.log, d, before, f, key);
      }
    } else {
      NothingSent(cfg, c);
    }
  }

  lemma NothingSent(cfg: Config, c: Conn)
    requires cfg.capacity > 0 && Settled(cfg, c) && PartReceived(c.log) == []
    ensures Run(cfg, c, []) == c && Corresponds(c.log, c.log, [])
  {
    assert Received(c.log) + [] == Received(c.log);
    assert Replies(c.log) + [] == Replies(c.log);
  }
}
