// An instance of the library in the client role, field by field, with the methods of its API.

module Instance {
  import opened Octets
  import opened Frames
  import opened Streams
  import opened Sender
  import R = Receiver
  import D = Decoder
  import Lifecycle
  import TextSafety
  import Utf8

  datatype State = Init | ParseHandshake | Ready | Open | Closed {
    function Rank(): nat {
      match this
      case Init => 0
      case ParseHandshake => 1
      case Ready => 2
      case Open => 3
      case Closed => 4
    }
  }

  datatype Status = Success | NotOpen | TooLarge | WouldBlock | BadState | BadInput

  datatype BufferType = UserBuffer | PingBuffer | PongBuffer | CloseBuffer | CloseResponseBuffer

  type CloseKind = k: BufferType | k.CloseBuffer? || k.CloseResponseBuffer? witness CloseBuffer

  /** What a host is asked for: a buffer for a frame of `size` octets. */
  datatype BufferRequest = BufferRequest(kind: BufferType, size: nat)

  type Code = n: nat | n < 0x1_0000

  /** A frame to be sent; `code` matters to close frames only. */
  datatype TxFrame = TxFrame(fin: bool, opcode: Opcode, code: nat, payload: bytes) {
    function Meaning(): Frame {
      Frame(fin, opcode, if opcode.Close? then ClosePayload(code, payload) else payload)
    }

    function Size(): nat {
      MinFrameSize(opcode, true, |payload|)
    }
  }

  /** Some requests more, none of them for a pong. */
  predicate NoPong(before: seq<BufferRequest>, now: seq<BufferRequest>) {
    before <= now && forall k :: |before| <= k < |now| ==> !now[k].kind.PongBuffer?
  }

  lemma NoPongThen(host: Host, a: seq<BufferRequest>, b: seq<BufferRequest>, c: seq<BufferRequest>)
    requires NoPong(a, b) && b <= c
    ensures a <= c && host.Unanswered(a, c) == host.Unanswered(b, c)
    ensures NoPong(b, c) ==> NoPong(a, c)
    ensures !host.Unanswered(a, b)
  {}

  /** Two stretches of a call, of which the first left nothing owed and the host in place. */
  lemma InTwo(host: Host, offered: (seq<R.Event>, seq<R.Event>, seq<R.Event>),
      asked: (seq<BufferRequest>, seq<BufferRequest>, seq<BufferRequest>))
    requires offered.0 <= offered.1 <= offered.2 && asked.0 <= asked.1 <= asked.2
    requires !host.Refused(offered.0, offered.1) && !host.Unanswered(asked.0, asked.1)
    requires host.Answer(offered.0, offered.1).Stays?
    ensures offered.0 <= offered.2 && asked.0 <= asked.2
    ensures host.Refused(offered.0, offered.2) == host.Refused(offered.1, offered.2)
    ensures host.Unanswered(asked.0, asked.2) == host.Unanswered(asked.1, asked.2)
    ensures host.Answer(offered.0, offered.2) == host.Answer(offered.1, offered.2)
  {
    assert |offered.1| == |offered.2| ==> offered.1 == offered.2;
    assert |asked.1| == |asked.2| ==> asked.1 == asked.2;
  }

  /** Two calls in a row, in the first of which the host has not closed. */
  lemma AnswerInTwo(host: Host, a: seq<R.Event>, b: seq<R.Event>, c: seq<R.Event>)
    requires a <= b <= c && host.Answer(a, b).Stays?
    ensures a <= c && host.Answer(a, c) == host.Answer(b, c)
  {
    assert |b| == |c| ==> b == c;
  }

  /** What the host did from inside a callback, beyond sending: nothing, or one close. */
  datatype Reaction = Stays | Closes(code: Code, reason: bytes)

  /**
   * A host, by its answers: how large its buffers of a kind can be; whether it has one for the last
   * of the requests so far, and which key it draws for the frame; whether it accepts the last of the
   * messages offered so far, and what it does about that. As no list comes up twice, these are the
   * answers of any host in any run.
   */
  datatype Host = Host(maxSize: BufferType -> nat, hasBuffer: seq<BufferRequest> -> bool,
                       mask: seq<BufferRequest> -> Mask, accepts: seq<R.Event> -> bool,
                       reacts: seq<R.Event> -> Reaction)
  {
    /** It accepts every message, and has a buffer whenever it is asked. */
    ghost predicate AlwaysReady() {
      (forall offered :: accepts(offered)) && forall asked :: hasBuffer(asked)
    }

    /** Of the messages offered between `before` and `now`, the last was refused. */
    predicate Refused(before: seq<R.Event>, now: seq<R.Event>) {
      |before| < |now| && !accepts(now)
    }

    /** What the host did about the last of these messages. */
    function Answer(before: seq<R.Event>, now: seq<R.Event>): Reaction {
      if |before| < |now| && accepts(now) then reacts(now) else Stays
    }

    /**
     * Of the requests between `before` and `now`, the last was for a pong that could be buffered,
     * and was turned down.
     */
    predicate Unanswered(before: seq<BufferRequest>, now: seq<BufferRequest>) {
      && |before| < |now| && now[|now| - 1].kind.PongBuffer?
      && now[|now| - 1].size <= maxSize(PongBuffer) && !hasBuffer(now)
    }
  }

  function React(c: R.Conn, r: Reaction): R.Conn {
    if r.Stays? || c.Shut? then c else R.Shutdown(c, r.code, r.reason)
  }

  function Later(log: seq<R.Event>, r: Reaction): seq<R.Event> {
    if r.Stays? then log else log + [R.TransportClosed, R.Event.Closed(r.code, r.reason)]
  }

  /** The part of a masked payload that starts at offset `k` of the key. */
  function ApplyFrom(mask: Mask, p: bytes, k: nat): (r: bytes)
    ensures |r| == |p|
  {
    seq(|p|, i requires 0 <= i < |p| => Xor(p[i], mask[(i + k) % 4]))
  }

  lemma ApplyAfterTwo(mask: Mask, x: byte, y: byte, rest: bytes)
    ensures Apply(Masked(mask), [x, y] + rest) == [Xor(x, mask[0]), Xor(y, mask[1])] + ApplyFrom(mask, rest, 2)
  {
    var p := [x, y] + rest;
    forall i | 2 <= i < |p| ensures Apply(Masked(mask), p)[i] == ApplyFrom(mask, rest, 2)[i - 2] {
      assert p[i] == rest[i - 2];
    }
    assert p[0] == x && p[1] == y;
  }

  lemma ApplyWhole(mask: Mask, p: bytes)
    ensures ApplyFrom(mask, p, 0) == Apply(Masked(mask), p)
  {}

  lemma TwoThen(s: bytes, x: byte, y: byte, t: bytes)
    ensures s + [x] + [y] + t == s + ([x, y] + t)
  {}

  lemma FrameParts(f: TxFrame, mask: Mask)
    ensures var n := |f.payload| + if f.opcode.Close? then 2 else 0;
            && |f.Meaning().payload| == n
            && f.Size() == 1 + |EncodeLength(true, n)| + 4 + n == |EncodeFrame(f.Meaning(), Masked(mask))|
            && EncodeFrame(f.Meaning(), Masked(mask))
            == [FirstOctet(f.fin, f.opcode)] + EncodeLength(true, n) + mask + Apply(Masked(mask), f.Meaning().payload)
  {}

  /** Delivering, whatever the host then does. */
  lemma AfterReaction(cfg: R.Config, c: R.Conn, r: Reaction)
    requires cfg.capacity > 0 && R.ValidConn(cfg, c) && R.Pending(cfg, c)
    ensures var d := React(R.Deliver(cfg, c), r);
            R.Settled(cfg, d) && R.After(cfg, d, []) == React(R.After(cfg, c, []), r)
  {
    R.AfterDeliver(cfg, c);
  }

  lemma TwoOctets(s: bytes)
    requires |s| >= 2
    ensures BigEndian(s[..2]) == s[0] as nat * 256 + s[1]
  {
    assert s[..2] == [s[0], s[1]];
    BigEndian2(s[0], s[1]);
  }

  class Wic {
    const rxs: Stream
    const host: Host
    var state: State

    var rxState: R.RxState
    var rxFin: bool
    var rxOpcode: Opcode
    var rxFrag: Frag
    var rxMask: Mask
    var rxMasked: bool
    var rxSize: nat
    var rxUtf8: Utf8.State
    var utf8Rx: Utf8.State

    var frag: Frag
    var utf8Tx: Utf8.State

    // What the host has been asked for, and the messages it has been offered.
    var asked: seq<BufferRequest>
    var offered: seq<R.Event>

    // What the host has observed, and what it was given to put on the wire.
    ghost var log: seq<R.Event>
    ghost var sent: seq<Frame>
    ghost var keys: seq<Key>
    ghost var wire: bytes

    ghost function Cfg(): R.Config
    {
      R.Config(rxs.size, host.maxSize(PongBuffer))
    }

    ghost function RxView(): R.Rx
      requires rxs.Valid()
      reads `rxState, `rxFin, `rxOpcode, `rxMasked, `rxMask, `rxSize, `rxUtf8, `rxFrag, `utf8Rx, rxs, rxs.buf
    {
      R.Rx(rxState, rxFin, rxOpcode, rxMasked, rxMask, rxSize, rxUtf8, rxFrag, utf8Rx, rxs.Contents())
    }

    /** The instance as the machine of Receiver.dfy. */
    ghost function Model(): R.Conn
      requires rxs.Valid()
      reads `state, `log, `rxState, `rxFin, `rxOpcode, `rxMasked, `rxMask, `rxSize, `rxUtf8, `rxFrag, `utf8Rx
      reads rxs, rxs.buf
    {
      if state.Closed? then R.Shut(log) else R.Conn.Open(RxView(), log)
    }

    /** The sending half: everything sent is legal, and the fields say what may come next. */
    ghost predicate SendValid()
      reads `state, `frag, `utf8Tx, `sent, `keys, `wire, `log, `asked
    {
      && OnWire(sent, keys, wire)
      && Unfinished(sent) == frag
      && (frag.Text? ==> utf8Tx == Utf8.Run(0, UnfinishedText(sent)))
      && (HasClose(sent) ==> state.Closed?)
      && Pongs(sent) == R.Replies(log)
      && Parting()
    }

    ghost predicate Parting()
      reads `state, `sent, `log, `asked
    {
      state.Closed? && log != [] && log[|log| - 1].Closed? ==> Parted(log[|log| - 1].code, log[|log| - 1].reason)
    }

    /**
     * The close frame for an end with this code and reason has gone out last, exactly if the code may
     * be written, the frame fits, and the host had a buffer for it.
     */
    ghost predicate Parted(code: nat, reason: bytes)
      reads `asked, `sent
    {
      if IsLocalCode(code) then !HasClose(sent)
      else
        && asked != []
        && var last := asked[|asked| - 1];
        && (last.kind.CloseBuffer? || last.kind.CloseResponseBuffer?)
        && last.size == MinFrameSize(Close, true, |Sendable(reason)|)
        && if last.size <= host.maxSize(last.kind) && host.hasBuffer(asked) then
             sent != [] && sent[|sent| - 1] == Frame(true, Close, ClosePayload(code, Sendable(reason)))
           else !HasClose(sent)
    }

    /** The receiving half: every delivery was safe, and endings are orderly. */
    ghost predicate ReceiveValid()
      reads `state, `log, `rxState, `rxFin, `rxOpcode, `rxMasked, `rxMask, `rxSize, `rxUtf8, `rxFrag, `utf8Rx
      reads rxs, rxs.buf
    {
      && rxs.Valid() && rxs.size > 0
      && (!state.Closed? && !rxState.OpcodeOctet? ==> !rxs.error)
      && R.ValidConn(Cfg(), Model())
      && TextSafety.Tracks(Model())
      && Lifecycle.Orderly(state.Closed?, log)
    }

    ghost predicate Valid()
      reads this, rxs, rxs.buf
    {
      SendValid() && ReceiveValid()
    }

    /** What sending and closing rely on, also from inside a callback: nothing about the frame in hand. */
    ghost predicate Closable()
      reads `state, `frag, `utf8Tx, `sent, `keys, `wire, `log, `asked, rxs
    {
      && SendValid() && rxs.Valid() && rxs.size > 0
      && TextSafety.Tracks(R.Shut(log))
      && Lifecycle.Orderly(state.Closed?, log)
    }

    /** What is valid about a closed instance does not depend on the frame in hand. */
    lemma ClosedValid()
      requires Closable() && state.Closed?
      ensures Valid()
    {
      hide SendValid;
    }

    lemma OpenValid()
      requires Closable() && state.Open? && (!rxState.OpcodeOctet? ==> !rxs.error)
      requires R.ValidConn(Cfg(), Model()) && TextSafety.Tracks(Model())
      ensures Valid()
    {
      hide SendValid;
    }

    /**
     * A fresh client instance over the receive buffer `rx`. Deliveries carry a 16-bit size, and
     * without any room the receive loop could not proceed.
     */
    constructor (rx: array<byte>, host: Host)
      requires 0 < rx.Length < 0x1_0000
      ensures Valid() && fresh(rxs) && rxs.buf == rx && rxs.size == rx.Length && this.host == host
      ensures state.Init? && log == [] && sent == [] && wire == [] && asked == [] && offered == []
      ensures !rxs.error && RxView() == R.InitialRx
    {
      rxs := new Stream(rx, rx.Length);
      this.host := host;
      state := Init;
      rxState, rxFin, rxOpcode, rxFrag := R.OpcodeOctet, false, Continue, Continue;
      rxMask, rxMasked, rxSize, rxUtf8, utf8Rx := [0, 0, 0, 0], false, 0, 0, 0;
      frag, utf8Tx := Continue, 0;
      asked, offered := [], [];
      log, sent, keys, wire := [], [], [], [];
    }

    /** The request has gone out. */
    method BeginHandshake()
      requires Valid() && state.Init?
      modifies `state
      ensures Valid() && state.ParseHandshake? && Lifecycle.Quiet(log)
    {
      hide EncodeFrame, Wire, Legal, Parted, Pongs, HasClose, R.Valid, R.Replies, TextSafety.Tracks;
      state := ParseHandshake;
    }

    /** The response is complete. */
    method BecomeReady()
      requires Valid() && state.ParseHandshake?
      modifies `state
      ensures Valid() && state.Ready?
    {
      hide EncodeFrame, Wire, Legal, Parted, Pongs, HasClose, R.Valid, R.Replies, TextSafety.Tracks, Lifecycle.Quiet;
      state := Ready;
    }

    /** The handshake has failed: the transport is closed and the host is told. Neither callback calls back. */
    method Refuse(why: R.HandshakeFailure)
      requires Valid() && (state.ParseHandshake? || state.Ready?) && Lifecycle.Quiet(log)
      modifies `state, `log
      ensures Valid() && state.Closed? && log == old(log) + [R.TransportClosed, R.HandshakeFailed(why)]
    {
      hide EncodeFrame, Wire, Legal, Parted, Pongs, HasClose, R.Valid, R.Replies, TextSafety.Tracks, Lifecycle.Quiet;
      TextSafety.TracksShut(Model());
      BecomeClosed();
      EndWith(R.HandshakeFailed(why));
    }

    // ---- Host callbacks ----

    /** A transmit buffer of at least `min` octets, if the host has one. The limit of its type never changes. */
    method OnBuffer(min: nat, kind: BufferType) returns (buf: array?<byte>, max: nat)
      modifies `asked
      ensures asked == old(asked) + [BufferRequest(kind, min)] && max == host.maxSize(kind)
      ensures buf != null <==> host.hasBuffer(asked)
      ensures buf != null ==> fresh(buf) && buf.Length >= min
    {
      asked := asked + [BufferRequest(kind, min)];
      max := host.maxSize(kind);
      buf := null;
      if host.hasBuffer(asked) {
        buf := new byte[min](_ => 0);
      }
    }

    /** The key for the next frame. */
    function Rand(kind: BufferType, size: nat): Mask
      reads `asked
    {
      host.mask(asked + [BufferRequest(kind, size)])
    }

    /** The host was asked for a buffer for one frame: what came of it. */
    twostate predicate Tried(kind: BufferType, size: nat, r: Status)
      reads `asked
    {
      && asked == old(asked) + [BufferRequest(kind, size)]
      && (r.TooLarge? <==> size > host.maxSize(kind))
      && (r.WouldBlock? <==> size <= host.maxSize(kind) && !host.hasBuffer(asked))
      && (r.Success? <==> size <= host.maxSize(kind) && host.hasBuffer(asked))
    }

    /** The host has been offered no message and asked for no pong. */
    twostate predicate OffersNothing()
      reads `offered, `asked
    {
      offered == old(offered) && NoPong(old(asked), asked)
    }

    // ---- Sending ----

    method PutMasked(tx: Stream, p: bytes, mask: Mask, k: nat)
      requires tx.Valid() && !tx.error && tx.pos + |p| <= tx.size
      modifies tx, tx.buf
      ensures tx.Valid() && !tx.error
      ensures tx.Contents() == old(tx.Contents()) + ApplyFrom(mask, p, k)
    {
      for i := 0 to |p|
        invariant tx.Valid() && !tx.error
        invariant tx.Contents() == old(tx.Contents()) + ApplyFrom(mask, p, k)[..i]
      {
        var _ := tx.PutU8(Xor(p[i], mask[(i + k) % 4]));
      }
    }

    method PutHeader(tx: Stream, f: TxFrame, n: nat, mask: Mask)
      requires tx.Valid() && !tx.error && tx.pos == 0
      requires tx.size >= 1 + |EncodeLength(true, n)| + 4
      modifies tx, tx.buf
      ensures tx.Valid() && !tx.error
      ensures tx.Contents() == [FirstOctet(f.fin, f.opcode)] + EncodeLength(true, n) + mask
    {
      var _ := tx.PutU8(FirstOctet(f.fin, f.opcode));
      if n <= 125 {
        var _ := tx.PutU8(Or(0x80, n));
      } else {
        var _ := tx.PutU8(Or(0x80, 126));
        var _ := tx.PutU16(n);
      }
      assert tx.Contents() == [FirstOctet(f.fin, f.opcode)] + EncodeLength(true, n);
      var _ := tx.Write(mask);
    }

    /** The two octets of a close code, then its reason. */
    method PutClose(tx: Stream, x: byte, y: byte, reason: bytes, mask: Mask)
      requires tx.Valid() && !tx.error && tx.size - tx.pos >= 2 + |reason|
      modifies tx, tx.buf
      ensures tx.Valid() && !tx.error
      ensures tx.Contents() == old(tx.Contents()) + Apply(Masked(mask), [x, y] + reason)
    {
      var hi, lo := Xor(x, mask[0]), Xor(y, mask[1]);
      var _ := tx.PutU8(hi);
      var _ := tx.PutU8(lo);
      PutMasked(tx, reason, mask, 2);
      ApplyAfterTwo(mask, x, y, reason);
      TwoThen(old(tx.Contents()), hi, lo, ApplyFrom(mask, reason, 2));
    }

    method PutPayload(tx: Stream, f: TxFrame, mask: Mask)
      requires tx.Valid() && !tx.error && f.code < 0x1_0000
      requires tx.size - tx.pos >= |f.Meaning().payload|
      modifies tx, tx.buf
      ensures tx.Valid() && !tx.error
      ensures tx.Contents() == old(tx.Contents()) + Apply(Masked(mask), f.Meaning().payload)
    {
      if f.opcode.Close? {
        assert f.code / 256 % 256 == f.code / 256;
        assert f.Meaning().payload == [f.code / 256, f.code % 256] + f.payload;
        PutClose(tx, f.code / 256, f.code % 256, f.payload, mask);
      } else {
        PutMasked(tx, f.payload, mask, 0);
        ApplyWhole(mask, f.payload);
      }
    }

    /** Asks the host for a buffer of exactly the size of the frame, and fills it. */
    method PutFrame(f: TxFrame, kind: BufferType, mask: Mask) returns (status: Status, tx: Stream?)
      requires f.code < 0x1_0000
      modifies `asked
      ensures Tried(kind, f.Size(), status)
      ensures status.Success? ==>
                && tx != null && fresh(tx) && fresh(tx.buf) && tx.Valid()
                && tx.Contents() == EncodeFrame(f.Meaning(), Masked(mask))
                && tx.pos == f.Size()
    {
      tx := null;
      var n := |f.payload| + (if f.opcode.Close? then 2 else 0);
      var frameSize := MinFrameSize(f.opcode, true, |f.payload|);
      var buf, max := OnBuffer(frameSize, kind);
      if max < frameSize {
        return TooLarge, null;
      }
      if buf == null {
        return WouldBlock, null;
      }
      tx := new Stream(buf, frameSize);
      FrameParts(f, mask);
      PutHeader(tx, f, n, mask);
      PutPayload(tx, f, mask);
      status := Success;
    }

    /** A client that is told of the upgrade may send at once: the first send opens it. */
    method AllowedToSend() returns (ok: bool)
      modifies `state
      ensures ok == (old(state).Ready? || old(state).Open?)
      ensures state == if old(state).Ready? then Open else old(state)
    {
      if state.Ready? {
        state := Open;
      }
      ok := state.Open?;
    }

    /** The frame `f` went on the wire, under the key drawn for it. */
    twostate predicate Emitted(f: Frame)
      reads this
    {
      sent == old(sent) + [f] && keys == old(keys) + [Masked(host.mask(asked))]
    }

    /**
     * Frames a message and hands it to the host, if the host has a buffer. What may be sent next
     * changes only with a frame that went out.
     */
    method Transmit(f: TxFrame, kind: BufferType, next: Frag, q: Utf8.State) returns (r: Status)
      requires f.code < 0x1_0000 && OnWire(sent, keys, wire) && Steps(sent, f.Meaning(), next, q)
      modifies `frag, `utf8Tx, `sent, `keys, `wire, `asked
      ensures OnWire(sent, keys, wire)
      ensures Tried(kind, f.Size(), r)
      ensures r.Success? ==> Emitted(f.Meaning()) && frag == next && utf8Tx == q
      ensures !r.Success? ==> unchanged(`sent, `keys, `wire, `frag, `utf8Tx)
    {
      hide EncodeFrame, Wire, Legal, Parted, Pongs, HasClose, Utf8.WellFormed, Utf8.Extendable;
      var mask := Rand(kind, f.Size());
      var tx;
      r, tx := PutFrame(f, kind, mask);
      if r.Success? {
        OnWireSnoc(sent, keys, wire, f.Meaning(), Masked(mask), tx.Contents());
        sent, keys, wire := sent + [f.Meaning()], keys + [Masked(mask)], wire + tx.Contents();
        frag, utf8Tx := next, q;
      }
    }

    predicate CanSend()
      reads this
    {
      state.Ready? || state.Open?
    }

    method SendBinary(fin: bool, data: bytes) returns (r: Status)
      requires SendValid()
      modifies `state, `frag, `utf8Tx, `sent, `keys, `wire, `asked
      ensures SendValid()
      ensures state == if old(state).Ready? then Open else old(state)
      ensures var f := Frame(fin, if old(frag).Binary? then Continue else Binary, data);
              var may := old(CanSend()) && Sender.MayFollow(old(sent), f);
              && (r.NotOpen? <==> !old(CanSend()))
              && (r.BadState? <==> old(CanSend()) && !may)
              && (if may then Tried(UserBuffer, MinFrameSize(f.opcode, true, |data|), r) else unchanged(`asked))
              && (r.Success? ==> may && Emitted(f))
      ensures !r.Success? ==> unchanged(`sent, `keys, `wire, `frag)
    {
      hide EncodeFrame, Wire, Legal, Parted, Pongs, R.Replies, HasClose, Utf8.WellFormed, Utf8.Extendable;
      var ok := AllowedToSend();
      if !ok {
        return NotOpen;
      }
      if frag.Text? {
        return BadState;
      }
      BinaryStep(sent, utf8Tx, fin, data);
      r := Transmit(TxFrame(fin, if frag.Binary? then Continue else Binary, 0, data), UserBuffer,
                    if fin then Continue else Binary, utf8Tx);
    }

    method SendText(fin: bool, data: bytes) returns (r: Status)
      requires SendValid()
      modifies `state, `frag, `utf8Tx, `sent, `keys, `wire, `asked
      ensures SendValid()
      ensures state == if old(state).Ready? then Open else old(state)
      ensures var f := Frame(fin, if old(frag).Text? then Continue else Text, data);
              var may := old(CanSend()) && Sender.MayFollow(old(sent), f);
              && (r.NotOpen? <==> !old(CanSend()))
              && (r.BadState? || r.BadInput? <==> old(CanSend()) && !may)
              && (r.BadState? <==> old(CanSend()) && old(frag).Binary?)
              && (if may then Tried(UserBuffer, MinFrameSize(f.opcode, true, |data|), r) else unchanged(`asked))
              && (r.Success? ==> may && Emitted(f))
      ensures !r.Success? ==> unchanged(`sent, `keys, `wire, `frag, `utf8Tx)
    {
      hide EncodeFrame, Wire, Legal, Parted, Pongs, R.Replies, HasClose, Utf8.WellFormed, Utf8.Extendable;
      var ok := AllowedToSend();
      if !ok {
        return NotOpen;
      }
      if frag.Binary? {
        return BadState;
      }
      var q := Utf8.ParseString(if frag.Continue? then 0 else utf8Tx, data);
      NoTextUnfinished(sent);
      if q == Utf8.INVALID || (fin && q != Utf8.COMPLETE) {
        TextRefused(sent, q, fin, data);
        return BadInput;
      }
      TextStep(sent, q, fin, data);
      r := Transmit(TxFrame(fin, if frag.Text? then Continue else Text, 0, data), UserBuffer,
                    if fin then Continue else Text, q);
    }

    method SendPing(data: bytes) returns (r: Status)
      requires SendValid()
      modifies `state, `frag, `utf8Tx, `sent, `keys, `wire, `asked
      ensures SendValid()
      ensures state == if old(state).Ready? then Open else old(state)
      ensures r.NotOpen? <==> !old(CanSend())
      ensures if old(CanSend()) then Tried(PingBuffer, MinFrameSize(Ping, true, |data|), r) else unchanged(`asked)
      ensures r.Success? ==> Emitted(Frame(true, Ping, data))
      ensures unchanged(`frag, `utf8Tx) && (!r.Success? ==> unchanged(`sent, `keys, `wire))
    {
      hide EncodeFrame, Wire, Legal, Parted, Pongs, R.Replies, HasClose, Utf8.WellFormed, Utf8.Extendable;
      var ok := AllowedToSend();
      if !ok {
        return NotOpen;
      }
      ControlStep(sent, Frame(true, Ping, data), utf8Tx);
      r := Transmit(TxFrame(true, Ping, 0, data), PingBuffer, frag, utf8Tx);
    }

    /** Answers a ping. The host sees the answer on the wire only. */
    method SendPong(data: bytes) returns (r: Status)
      requires Valid() && state.Open?
      modifies `frag, `utf8Tx, `sent, `keys, `wire, `asked, `log
      ensures Valid() && unchanged(`frag, `utf8Tx)
      ensures Tried(PongBuffer, MinFrameSize(Pong, true, |data|), r)
      ensures r.Success? ==> log == old(log) + [R.Reply(data)] && Emitted(Frame(true, Pong, data))
      ensures !r.Success? ==> unchanged(`log, `sent, `keys, `wire)
    {
      hide EncodeFrame, Wire, Legal, Parted, HasClose, Utf8.WellFormed, Utf8.Extendable, R.Valid, R.Replies, Pongs,
           TextSafety.Tracks, ReceiveValid;
      ControlStep(sent, Frame(true, Pong, data), utf8Tx);
      R.RepliesSnoc(log, R.Reply(data));
      r := Transmit(TxFrame(true, Pong, 0, data), PongBuffer, frag, utf8Tx);
      if r.Success? {
        NoteReply(data);
      }
    }

    /** The host sees the answer on the wire. */
    ghost method NoteReply(data: bytes)
      requires ReceiveValid() && state.Open?
      modifies `log
      ensures ReceiveValid() && log == old(log) + [R.Reply(data)]
    {
      hide R.Valid, R.Replies, TextSafety.Tracks, Lifecycle.Quiet;
      TextSafety.OtherTracks(Model(), R.Reply(data));
      Lifecycle.QuietSnoc(log, R.Reply(data));
      log := log + [R.Reply(data)];
      Lifecycle.StillOrderly(log);
    }

    /** The codes that RFC 6455 reserves for local use are never written. */
    predicate IsLocalCode(code: nat) {
      code == R.CLOSE_ABNORMAL_1 || code == R.CLOSE_ABNORMAL_2 || code == R.CLOSE_TLS
    }

    function Failure(code: nat): R.HandshakeFailure {
      if code == R.CLOSE_ABNORMAL_1 then R.Abnormal1
      else if code == R.CLOSE_ABNORMAL_2 then R.Abnormal2
      else if code == R.CLOSE_TLS then R.Tls
      else R.Irrelevant
    }

    /** What closing adds to what the host observes. */
    function Ending(s: State, code: nat, reason: bytes): seq<R.Event> {
      match s
      case Init => []
      case Closed => []
      case ParseHandshake => [R.TransportClosed, R.HandshakeFailed(Failure(code))]
      case _ => [R.TransportClosed, R.Event.Closed(code, reason)]
    }

    /**
     * Closes from any state; a second close does nothing. From an open connection a close frame goes
     * out, exactly if the code is not a local one, the frame fits, and the host has a buffer for it.
     * A reason that is not UTF-8 is left out of the frame.
     */
    method CloseWithReason(code: nat, reason: bytes, kind: CloseKind)
      requires Closable() && code < 0x1_0000
      modifies `state, `frag, `utf8Tx, `sent, `keys, `wire, `asked, `log
      ensures Valid() && Closable() && state.Closed? && unchanged(`frag, `utf8Tx)
      ensures log == old(log) + Ending(old(state), code, reason)
      ensures old(CanSend()) ==> Model() == R.Shutdown(old(Model()), code, reason)
      ensures if old(CanSend()) && !IsLocalCode(code) then Farewell(code, reason, kind)
              else unchanged(`sent, `keys, `wire, `asked)
    {
      hide EncodeFrame, Wire, Legal, Parted, Pongs, HasClose, Utf8.WellFormed, Utf8.Extendable, R.Valid, R.Replies,
           SendValid,
           Sendable, Lifecycle.Quiet, TextSafety.Tracks;
      match state {
        case Init =>
          BecomeClosed();
          assert log + [] == log;
        case Closed =>
          assert log + [] == log;
        case ParseHandshake =>
          BecomeClosed();
          EndWith(R.HandshakeFailed(Failure(code)));
        case _ =>
          BecomeClosed();
          if !IsLocalCode(code) {
            SendClose(code, reason, kind);
          } else {
            NothingWritten(code, reason);
          }
          EndWith(R.Event.Closed(code, reason));
      }
    }

    method BecomeClosed()
      requires SendValid() && Lifecycle.Quiet(log) && !state.Closed?
      modifies `state
      ensures SendValid() && !HasClose(sent) && state.Closed?
    {
      hide EncodeFrame, Wire, Legal, Parted, Pongs, HasClose, Utf8.WellFormed, Utf8.Extendable, R.Replies, OnWire,
           Lifecycle.Quiet;
      Lifecycle.QuietLast(log);
      state := Closed;
    }

    lemma NothingWritten(code: nat, reason: bytes)
      requires IsLocalCode(code) && !HasClose(sent)
      ensures Parted(code, reason)
    {}

    /** A close frame with this code and reason has been tried, and has gone out if the host had a buffer for it. */
    twostate predicate Farewell(code: nat, reason: bytes, kind: CloseKind)
      reads this
    {
      var size := MinFrameSize(Close, true, |Sendable(reason)|);
      && asked == old(asked) + [BufferRequest(kind, size)]
      && if size <= host.maxSize(kind) && host.hasBuffer(asked) then
           Emitted(Frame(true, Close, ClosePayload(code, Sendable(reason))))
         else unchanged(`sent, `keys, `wire)
    }

    /** Closes the transport and reports the end. */
    ghost method EndWith(e: R.Event)
      requires SendValid() && state.Closed? && rxs.Valid() && rxs.size > 0
      requires Lifecycle.Quiet(log) && TextSafety.Tracks(R.Shut(log))
      requires e.HandshakeFailed? || (e.Closed? && Parted(e.code, e.reason))
      modifies `log
      ensures Valid() && log == old(log) + [R.TransportClosed, e]
    {
      hide EncodeFrame, Wire, Legal, Parted, Pongs, HasClose, Utf8.WellFormed, Utf8.Extendable, R.Valid, R.Replies;
      Lifecycle.OrderlyEnd(log, e);
      TextSafety.SafeEnd(log, e);
      log := log + [R.TransportClosed, e];
    }

    /** The reason as far as it may be written. */
    ghost function Sendable(reason: bytes): bytes {
      if Utf8.WellFormed(reason) then reason else []
    }

    method SendClose(code: nat, reason: bytes, kind: CloseKind)
      requires SendValid() && state.Closed? && Lifecycle.Quiet(log) && !HasClose(sent)
      requires code < 0x1_0000 && !IsLocalCode(code)
      modifies `frag, `utf8Tx, `sent, `keys, `wire, `asked
      ensures SendValid() && unchanged(`frag, `utf8Tx) && Farewell(code, reason, kind) && Parted(code, reason)
    {
      hide HasClose, Sendable, SendValid, Lifecycle.Quiet;
      PutClosing(code, reason, kind);
    }

    /** A reason that is not UTF-8 is discarded. */
    method Written(reason: bytes) returns (written: bytes)
      ensures written == Sendable(reason) && Utf8.WellFormed(written)
    {
      hide Utf8.WellFormed;
      var q := Utf8.ParseString(0, reason);
      Utf8.AcceptsExactlyWellFormed(reason);
      Utf8.AcceptsExactlyWellFormed([]);
      written := if q == Utf8.COMPLETE then reason else [];
    }

    method PutClosing(code: nat, reason: bytes, kind: CloseKind)
      requires SendValid() && state.Closed? && Lifecycle.Quiet(log) && !HasClose(sent)
      requires code < 0x1_0000 && !IsLocalCode(code)
      modifies `frag, `utf8Tx, `sent, `keys, `wire, `asked
      ensures SendValid() && unchanged(`frag, `utf8Tx) && Farewell(code, reason, kind)
    {
      hide EncodeFrame, Wire, Legal, Parted, Utf8.WellFormed, Utf8.Extendable, Lifecycle.Quiet, Sendable, Steps,
           HasClose, Pongs, Unfinished, UnfinishedText, ClosePayload, R.Replies, Utf8.Run;
      Lifecycle.QuietLast(log);
      var written := Written(reason);
      CloseStep(sent, code, written, utf8Tx);
      var _ := Transmit(TxFrame(true, Close, code, written), kind, frag, utf8Tx);
    }

    // ---- Receiving ----

    /** A host may send from inside a callback. */
    method HostSends()
      requires Closable() && CanSend()
      modifies `state, `frag, `utf8Tx, `sent, `keys, `wire, `asked
      ensures Closable() && CanSend() && (old(state).Open? ==> state.Open?)
      ensures NoPong(old(asked), asked)
    {
      hide EncodeFrame, Wire, Legal, Parted, Pongs, HasClose, Utf8.WellFormed, Utf8.Extendable, R.Valid, R.Replies;
      var n: nat := *;
      while n > 0
        invariant Closable() && CanSend() && (old(state).Open? ==> state.Open?)
        invariant NoPong(old(asked), asked)
      {
        var fin: bool, data: bytes := *, *;
        if * {
          var _ := SendText(fin, data);
        } else if * {
          var _ := SendBinary(fin, data);
        } else {
          var _ := SendPing(data);
        }
        n := n - 1;
      }
    }

    /**
     * What a host may do from inside a callback: any sends, and a close, after which nothing has
     * an effect. None of this touches the frame in hand.
     */
    method HostReacts(r: Reaction)
      requires Closable() && CanSend()
      modifies `state, `frag, `utf8Tx, `sent, `keys, `wire, `asked, `log
      ensures Closable()
      ensures r.Stays? ==> CanSend() && log == old(log) && (old(state).Open? ==> state.Open?)
      ensures r.Closes? ==> state.Closed? && log == old(log) + [R.TransportClosed, R.Event.Closed(r.code, r.reason)]
      ensures NoPong(old(asked), asked)
    {
      hide EncodeFrame, Wire, Legal, Parted, Pongs, HasClose, Utf8.WellFormed, Utf8.Extendable, R.Valid, R.Replies;
      HostSends();
      if r.Closes? {
        CloseWithReason(r.code, r.reason, CloseBuffer);
      }
    }

    /**
     * The handshake has succeeded: the host is told, and then the connection is open in any case. So
     * an instance whose host closes it when told of the opening is opened again after its end.
     */
    method Establish(onOpen: Reaction)
      requires Valid() && state.Ready? && Lifecycle.Quiet(log)
      modifies `state, `frag, `utf8Tx, `sent, `keys, `wire, `asked, `log
      ensures state.Open? && OffersNothing()
      ensures Valid() <==> onOpen.Stays?
      ensures log == old(log) + [R.Opened] + if onOpen.Stays? then []
        else [R.TransportClosed, R.Event.Closed(onOpen.code, onOpen.reason)]
    {
      hide EncodeFrame, Wire, Legal, Parted, Pongs, HasClose, Utf8.WellFormed, Utf8.Extendable, R.Valid, R.Replies,
           TextSafety.Tracks, Lifecycle.Orderly, Lifecycle.Quiet, SendValid;
      TellOpened();
      ghost var told := Model();
      HostReacts(onOpen);
      if onOpen.Closes? {
        state := Open;
        Lifecycle.NotOrderly(log);
      } else {
        Lifecycle.StillOrderly(log);
        SetOpen();
        assert Model() == told;
      }
    }

    method SetOpen()
      requires SendValid() && CanSend()
      modifies `state
      ensures SendValid() && state.Open?
    {
      hide EncodeFrame, Wire, Legal, Parted, Pongs, HasClose, Utf8.WellFormed, Utf8.Extendable, R.Replies, OnWire;
      state := Open;
    }

    /** The host is told of the opening. */
    ghost method TellOpened()
      requires Valid() && state.Ready? && Lifecycle.Quiet(log)
      modifies `log
      ensures Valid() && Closable() && Lifecycle.Quiet(log) && log == old(log) + [R.Opened]
    {
      hide EncodeFrame, Wire, Legal, Parted, Pongs, HasClose, Utf8.WellFormed, Utf8.Extendable, R.Valid, R.Replies,
           TextSafety.Tracks;
      TextSafety.OtherTracks(Model(), R.Opened);
      TextSafety.TracksShut(Model().(log := log + [R.Opened]));
      R.RepliesSnoc(log, R.Opened);
      log := log + [R.Opened];
    }

    /** Between frames, what the receive buffer holds does not matter. */
    twostate lemma BufferFree()
      requires old(Valid()) && unchanged(this) && rxs.Valid() && rxState.OpcodeOctet?
      ensures Valid() && (Model().Open? ==> Model() == old(Model()).(rx := old(RxView()).(buf := rxs.Contents())))
    {
      hide EncodeFrame, Wire, Legal, Parted, Pongs, HasClose, Utf8.WellFormed, Utf8.Extendable, R.Replies;
    }

    /** The same from an open connection, on behalf of the receiver. */
    method CloseOpen(code: nat, reason: bytes, kind: CloseKind)
      requires Closable() && state.Open? && code < 0x1_0000 && !IsLocalCode(code)
      modifies `state, `frag, `utf8Tx, `sent, `keys, `wire, `asked, `log
      ensures Valid() && state.Closed? && OffersNothing()
      ensures Model() == R.Shutdown(R.Shut(old(log)), code, reason)
      ensures Farewell(code, reason, kind)
    {
      hide EncodeFrame, Wire, Legal, Parted, Pongs, HasClose, Utf8.WellFormed, Utf8.Extendable, R.Valid, R.Replies,
           SendValid, Lifecycle.Orderly, Sendable;
      CloseWithReason(code, reason, kind);
    }

    /** A fault of the peer: closes with `code`. */
    method Fail(code: nat, kind: CloseKind)
      requires Closable() && state.Open? && code < 0x1_0000 && !IsLocalCode(code)
      modifies `state, `frag, `utf8Tx, `sent, `keys, `wire, `asked, `log
      ensures Valid() && state.Closed? && OffersNothing()
      ensures Model() == R.Fail(R.Shut(old(log)), code)
      ensures Farewell(code, [], kind)
    {
      hide SendValid, ReceiveValid, Lifecycle.Orderly, TextSafety.Tracks, Sendable;
      CloseOpen(code, [], kind);
    }

    method ParseOpcode(s: Input) returns (blocked: bool)
      requires Valid() && state.Open? && rxState.OpcodeOctet? && s.Valid() && !s.error
      modifies this, rxs, s
      ensures Valid() && s.Valid()
      ensures blocked == (old(s.pos) == |s.data|)
      ensures blocked ==> Model() == old(Model()) && s.pos == old(s.pos)
      ensures !blocked ==>
                && s.pos == old(s.pos) + 1 && !s.error
                && Model() == R.Consume(Cfg(), old(Model()), s.data[old(s.pos)])
      ensures !rxState.Data? && (state.Open? || state.Closed?) && OffersNothing()
    {
      hide EncodeFrame, Wire, Legal, Parted, Pongs, HasClose, Utf8.WellFormed, Utf8.Extendable, R.Replies;
      var ok, b := s.GetU8();
      blocked := !ok;
      if ok {
        StartFrame(b);
      }
    }

    /** The flags and the opcode of a frame, and whether it may start now. */
    method StartFrame(b: byte)
      requires Valid() && state.Open? && rxState.OpcodeOctet?
      modifies this, rxs
      ensures Valid()
      ensures Model() == R.OnOpcode(old(Model()), b)
      ensures !rxState.Data? && (state.Open? || state.Closed?) && OffersNothing()
    {
      hide EncodeFrame, Wire, Legal, Parted, Pongs, HasClose, R.Replies, R.Valid, TextSafety.Tracks, Lifecycle.Quiet,
           SendValid, Lifecycle.Orderly, ByteToOpcode, R.OnOpcode;
      ghost var before := old(Model());
      R.OpcodeValid(Cfg(), before, b);
      TextSafety.OpcodeTracks(before, b);
      TextSafety.TracksShut(before);
      var refused := ReadOpcode(b);
      if refused {
        Fail(R.CLOSE_PROTOCOL_ERROR, CloseBuffer);
      }
    }

    /** Takes the octet apart; a frame that is refused is not looked at further. */
    method ReadOpcode(b: byte) returns (refused: bool)
      requires rxs.Valid() && state.Open? && rxState.OpcodeOctet?
      modifies `rxState, `rxFin, `rxOpcode, `rxUtf8, rxs
      ensures rxs.Valid() && !rxs.error && !rxState.Data?
      ensures R.OnOpcode(old(Model()), b) == if refused then R.Fail(R.Shut(log), R.CLOSE_PROTOCOL_ERROR) else Model()
    {
      hide ByteToOpcode;
      rxs.Rewind();
      rxFin := b >= 128;
      rxUtf8 := 0;
      if b / 16 % 8 != 0 {
        return true;
      }
      rxOpcode := ByteToOpcode(b);
      refused := CheckOpcode(b);
      rxState := R.SizeOctet;
    }

    /** Whether the frame may not start now; a continued text goes on where its last fragment ended. */
    method CheckOpcode(ghost b: byte) returns (refused: bool)
      requires rxOpcode == ByteToOpcode(b) && rxFin == (b >= 128) && b / 16 % 8 == 0
      modifies `rxUtf8
      ensures refused == !R.MayStart(b, rxFrag)
      ensures rxUtf8 == if rxOpcode.Continue? && !refused then utf8Rx else old(rxUtf8)
    {
      match rxOpcode {
        case Close => refused := !rxFin;
        case Ping => refused := !rxFin;
        case Pong => refused := !rxFin;
        case Continue =>
          refused := rxFrag.Continue?;
          if !refused {
            rxUtf8 := utf8Rx;
          }
        case Text => refused := !rxFrag.Continue?;
        case Binary => refused := !rxFrag.Continue?;
        case Reserved(_) => refused := true;
      }
    }

    method ParseSize(s: Input) returns (blocked: bool)
      requires Valid() && state.Open? && rxState.SizeOctet? && s.Valid() && !s.error
      modifies this, s
      ensures Valid() && s.Valid()
      ensures blocked == (old(s.pos) == |s.data|)
      ensures blocked ==> Model() == old(Model()) && s.pos == old(s.pos)
      ensures !blocked ==>
                && s.pos == old(s.pos) + 1 && !s.error
                && Model() == R.Consume(Cfg(), old(Model()), s.data[old(s.pos)])
      ensures state.Closed? ==> rxs.pos == 0 && IsControl(rxOpcode)
      ensures (state.Open? || state.Closed?) && OffersNothing()
    {
      hide EncodeFrame, Wire, Legal, Parted, Pongs, HasClose, R.Replies, TextSafety.Tracks, Lifecycle.Quiet;
      var ok, b := s.GetU8();
      blocked := !ok;
      if ok {
        ReadSize(b);
      }
    }

    /** The short length, or the announcement of a long one, and whether a control frame may be so long. */
    method ReadSize(b: byte)
      requires Valid() && state.Open? && rxState.SizeOctet?
      modifies this
      ensures Valid()
      ensures Model() == R.OnSize(Cfg(), old(Model()), b)
      ensures state.Closed? ==> IsControl(rxOpcode)
      ensures (state.Open? || state.Closed?) && OffersNothing()
    {
      hide EncodeFrame, Wire, Legal, Parted, Pongs, HasClose, R.Replies, R.Valid, TextSafety.Tracks, Lifecycle.Quiet,
           SendValid, Lifecycle.Orderly;
      ghost var before := old(Model());
      R.SizeValid(Cfg(), before, b);
      TextSafety.ConsumeTracks(Cfg(), before, b);
      TextSafety.TracksShut(before);
      hide ReceiveValid;
      rxMasked := b >= 128;
      rxSize := b % 128;
      CheckSize();
      SetSize();
      if state.Closed? {
        ClosedValid();
      } else {
        OpenValid();
      }
    }

    /** Where the payload begins depends on the short length. */
    method SetSize()
      requires rxs.Valid()
      modifies `rxSize, `rxState
      ensures RxView() == if old(rxSize) >= 126
        then old(RxView()).(state := R.Extended(if old(rxSize) == 127 then 2 else 0), size := 0)
        else old(RxView()).(state := R.AfterSize(old(RxView())))
      requires rxSize < 128
    {
      if rxSize == 127 {
        rxState := R.Extended(2);
        rxSize := 0;
      } else if rxSize == 126 {
        rxState := R.Extended(0);
        rxSize := 0;
      } else {
        rxState := if rxMasked then R.MaskKey(0) else R.Data;
      }
    }

    method CheckSize()
      requires Closable() && state.Open?
      modifies `state, `frag, `utf8Tx, `sent, `keys, `wire, `asked, `log
      ensures var fault := R.SizeFault(Cfg(), rxOpcode, rxSize);
              if fault == 0 then unchanged(this)
              else Valid() && state.Closed? && OffersNothing() && Model() == R.Fail(R.Shut(old(log)), fault)
    {
      hide EncodeFrame, Wire, Legal, Parted, Pongs, HasClose, R.Replies, R.Valid, TextSafety.Tracks, Lifecycle.Quiet;
      match rxOpcode {
        case Close =>
          if rxSize > 125 || rxSize == 1 {
            Fail(R.CLOSE_PROTOCOL_ERROR, CloseBuffer);
          } else if rxSize == 0 {
            Fail(R.CLOSE_NORMAL, CloseBuffer);
          } else if rxSize > rxs.size {
            Fail(R.CLOSE_TOO_BIG, CloseBuffer);
          }
        case Continue =>
        case Text =>
        case Binary =>
        case Reserved(_) =>
        case _ =>
          if rxSize > 125 {
            Fail(R.CLOSE_PROTOCOL_ERROR, CloseBuffer);
          } else if rxSize > rxs.size {
            Fail(R.CLOSE_TOO_BIG, CloseBuffer);
          }
      }
    }

    method ParseExtendedSize(s: Input) returns (blocked: bool)
      requires Valid() && state.Open? && rxState.Extended? && s.Valid() && !s.error
      modifies `rxSize, `rxState, s
      ensures Valid() && s.Valid()
      ensures blocked == (old(s.pos) == |s.data|)
      ensures blocked ==> Model() == old(Model()) && s.pos == old(s.pos)
      ensures !blocked ==>
                && s.pos == old(s.pos) + 1 && !s.error
                && Model() == R.Consume(Cfg(), old(Model()), s.data[old(s.pos)])
    {
      hide EncodeFrame, Wire, Legal, Parted, Pongs, HasClose, R.Replies, R.Valid, TextSafety.Tracks, Lifecycle.Quiet,
           SendValid;
      ghost var before := old(Model());
      var ok, b := s.GetU8();
      blocked := !ok;
      if ok {
        R.ConsumeValid(Cfg(), before, b);
        TextSafety.ConsumeTracks(Cfg(), before, b);
        rxSize := rxSize * 256 + b;
        var n := rxState.n;
        rxState := if n == 1 || n == 9 then if rxMasked then R.MaskKey(0) else R.Data else R.Extended(n + 1);
        assert Model() == R.OnExtended(before, b);
      }
    }

    method ParseMask(s: Input) returns (blocked: bool)
      requires Valid() && state.Open? && rxState.MaskKey? && s.Valid() && !s.error
      modifies `rxMask, `rxState, s
      ensures Valid() && s.Valid()
      ensures blocked == (old(s.pos) == |s.data|)
      ensures blocked ==> Model() == old(Model()) && s.pos == old(s.pos)
      ensures !blocked ==>
                && s.pos == old(s.pos) + 1 && !s.error
                && Model() == R.Consume(Cfg(), old(Model()), s.data[old(s.pos)])
    {
      hide EncodeFrame, Wire, Legal, Parted, Pongs, HasClose, R.Replies, TextSafety.Tracks, Lifecycle.Quiet, SendValid,
           Lifecycle.Orderly;
      ghost var before := old(Model());
      var ok, b := s.GetU8();
      blocked := !ok;
      if ok {
        R.ConsumeValid(Cfg(), before, b);
        TextSafety.ConsumeTracks(Cfg(), before, b);
        var n := rxState.n;
        rxMask := rxMask[n := b];
        rxState := if n == 3 then R.Data else R.MaskKey(n + 1);
        assert Model() == R.OnMask(before, b);
      }
    }

    /**
     * Offers the buffered payload to the host. A host that refuses may send before, but does not
     * close; it is offered the payload again later.
     */
    method OnMessage(enc: R.Encoding, fin: bool) returns (ok: bool, ghost r: Reaction)
      requires Closable() && state.Open?
      requires TextSafety.Tracks(R.Shut(log + [R.Message(enc, fin, rxs.Contents())]))
      modifies `state, `frag, `utf8Tx, `sent, `keys, `wire, `asked, `offered, `log
      ensures offered == old(offered) + [R.Message(enc, fin, rxs.Contents())]
      ensures ok == host.accepts(offered) && r == if ok then host.reacts(offered) else Stays
      ensures NoPong(old(asked), asked)
      ensures !ok ==> Closable() && state.Open? && log == old(log)
      ensures ok ==>
                && Closable() && (if r.Stays? then state.Open? else state.Closed?)
                && log == Later(old(log) + [R.Message(enc, fin, rxs.Contents())], r)
    {
      hide EncodeFrame, Wire, Legal, Parted, Pongs, HasClose, R.Replies, R.Valid, TextSafety.Tracks;
      offered := offered + [R.Message(enc, fin, rxs.buf[..rxs.pos])];
      ok, r := host.accepts(offered), Stays;
      if ok {
        R.RepliesSnoc(log, R.Message(enc, fin, rxs.Contents()));
        log := log + [R.Message(enc, fin, rxs.Contents())];
        r := host.reacts(offered);
        HostReacts(host.reacts(offered));
      } else {
        HostSends();
      }
    }

    /**
     * The host has been offered just the message that was owed in `before`, if one was; it is
     * blocked exactly if the host refused it, and else `r` is what the host did about it.
     */
    twostate predicate Offers(before: R.Conn, blocked: bool, r: Reaction)
      requires R.Pending(Cfg(), before) && R.ValidConn(Cfg(), before)
      reads `offered, `asked
    {
      && offered == old(offered) + R.Owed(Cfg(), before)
      && blocked == host.Refused(old(offered), offered) && r == host.Answer(old(offered), offered)
      && NoPong(old(asked), asked)
    }

    /** The buffer is full in the middle of a frame. */
    method Flush() returns (blocked: bool, ghost r: Reaction)
      requires Valid() && state.Open? && rxState.Data? && rxSize > 0 && rxs.pos == rxs.size
      modifies this, rxs
      ensures Valid() && (state.Open? || state.Closed?)
      ensures Offers(old(Model()), blocked, r)
      ensures blocked ==> Model() == old(Model())
      ensures !blocked ==> Model() == React(R.Deliver(Cfg(), old(Model())), r)
    {
      hide EncodeFrame, Wire, Legal, Parted, Pongs, HasClose, R.Replies, R.Valid, TextSafety.Tracks, Lifecycle.Quiet,
           SendValid, R.Deliver, R.Owed;
      var kind := if rxOpcode.Continue? then rxFrag else rxOpcode;
      match kind {
        case Text => blocked, r := FlushAs(R.Utf8Text);
        case Binary => blocked, r := FlushAs(R.BinaryData);
        case _ =>
          ghost var before := old(Model());
          R.FullBuffer(Cfg(), before);
          R.DeliverValid(Cfg(), before);
          TextSafety.DeliverTracks(Cfg(), before);
          assert log + [] == log && offered + [] == offered;
          blocked, r := false, Stays;
          rxs.Rewind();
          assert Model() == R.Deliver(Cfg(), before);
      }
    }

    method FlushAs(enc: R.Encoding) returns (blocked: bool, ghost r: Reaction)
      requires Valid() && state.Open? && rxState.Data? && rxSize > 0 && rxs.pos == rxs.size
      requires R.IsType(R.Kind(RxView())) && enc == R.EncodingOf(R.Kind(RxView()))
      modifies this, rxs
      ensures Valid() && (state.Open? || state.Closed?)
      ensures Offers(old(Model()), blocked, r)
      ensures blocked ==> Model() == old(Model())
      ensures !blocked ==> Model() == React(R.Deliver(Cfg(), old(Model())), r)
    {
      hide EncodeFrame, Wire, Legal, Parted, Pongs, HasClose, R.Replies, R.Valid, TextSafety.Tracks, Lifecycle.Quiet,
           SendValid, R.Deliver, R.Owed;
      ghost var before := old(Model());
      R.FullBuffer(Cfg(), before);
      R.DeliverValid(Cfg(), before);
      TextSafety.DeliverTracks(Cfg(), before);
      TextSafety.TracksShut(before);
      TextSafety.TracksShut(R.Deliver(Cfg(), before));
      var ok;
      ok, r := OnMessage(enc, false);
      blocked := !ok;
      if ok {
        rxs.Rewind();
      }
      assert ok && r.Stays? ==> Model() == R.Deliver(Cfg(), before);
    }

    method TakeOctet(s: Input) returns (blocked: bool)
      requires Valid() && (state.Open? || state.Closed?) && s.Valid() && !s.error
      requires rxState.Data? && rxSize > 0 && rxs.pos < rxs.size
      modifies this, rxs, rxs.buf, s
      ensures Valid() && s.Valid() && rxState == old(rxState)
      ensures blocked == (old(s.pos) == |s.data|)
      ensures blocked ==> Model() == old(Model()) && s.pos == old(s.pos) && state == old(state) && rxSize == old(rxSize)
      ensures !blocked ==> s.pos == old(s.pos) + 1 && !s.error
      ensures !blocked && old(state.Open?) ==> Model() == R.OnData(old(Model()), s.data[old(s.pos)])
      ensures old(state.Closed?) ==> Model() == old(Model())
      ensures (state.Open? || state.Closed?) && OffersNothing() && (state.Open? ==> unchanged(`asked))
    {
      hide EncodeFrame, Wire, Legal, Parted, Pongs, HasClose, R.Replies, R.Valid, TextSafety.Tracks, Lifecycle.Quiet,
           R.OnData;
      var ok, b := s.GetU8();
      blocked := !ok;
      if ok {
        ghost var before := old(Model());
        if state.Open? {
          R.DataValid(Cfg(), before, b);
          TextSafety.DataTracks(Cfg(), before, b);
          TextSafety.TracksShut(before);
        }
        StoreOctet(b);
      }
    }

    /** One payload octet: unmasked, buffered, and checked if it is text. */
    method StoreOctet(b: byte)
      requires Closable() && (state.Open? || state.Closed?) && rxState.Data? && rxSize > 0 && rxs.pos < rxs.size
      requires state.Open? ==> !rxs.error
      modifies this, rxs, rxs.buf
      ensures Closable() && rxState == old(rxState) && (state.Open? || state.Closed?)
      ensures old(state.Open?) ==> Model() == R.OnData(old(Model()), b) && !rxs.error
      ensures old(state.Closed?) ==> Model() == old(Model())
      ensures OffersNothing() && (state.Open? ==> unchanged(`asked))
    {
      hide Xor, Utf8.Parse, EncodeFrame, Wire, Legal, Pongs, HasClose, R.Replies, R.Valid, TextSafety.Tracks,
           Lifecycle.Quiet, SendValid;
      var x := PutUnmasked(b);
      CheckOctet(x);
    }

    /** Of a text every octet is checked, of a close those of its reason. */
    method CheckOctet(x: byte)
      requires Closable() && (state.Open? || state.Closed?)
      modifies `rxUtf8, `state, `frag, `utf8Tx, `sent, `keys, `wire, `asked, `log
      ensures Closable() && (state.Open? || state.Closed?) && OffersNothing() && (state.Open? ==> unchanged(`asked))
      ensures var k := R.Kind(old(RxView()));
              if k.Text? || (k.Close? && rxs.pos > 2) then Checked(x)
              else unchanged(`rxUtf8, `state, `log)
    {
      hide Utf8.Parse, EncodeFrame, Wire, Legal, Parted, Pongs, HasClose, R.Replies, R.Valid, TextSafety.Tracks,
           Lifecycle.Quiet, SendValid;
      var kind := if rxOpcode.Continue? then rxFrag else rxOpcode;
      match kind {
        case Text => CheckText(x, CloseBuffer);
        case Close =>
          if rxs.pos > 2 {
            CheckText(x, CloseResponseBuffer);
          }
        case _ =>
      }
    }

    /** The validator has taken `x`; an octet that cannot be repaired closes an open connection. */
    twostate predicate Checked(x: byte)
      reads `rxUtf8, `state, `log, `asked
    {
      && rxUtf8 == Utf8.Parse(old(rxUtf8), x)
      && if rxUtf8 == Utf8.INVALID && old(state.Open?)
         then state.Closed? && R.Shut(log) == R.Fail(R.Shut(old(log)), R.CLOSE_INVALID_DATA)
         else unchanged(`state, `log, `asked)
    }

    method PutUnmasked(b: byte) returns (x: byte)
      requires rxs.Valid() && rxSize > 0 && rxs.pos < rxs.size
      modifies `rxSize, rxs, rxs.buf
      ensures rxs.Valid() && x == R.Unmask(old(RxView()), b)
      ensures !old(rxs.error) ==>
                !rxs.error && RxView() == old(RxView()).(size := old(rxSize) - 1, buf := old(rxs.Contents()) + [x])
    {
      hide Xor;
      rxSize := rxSize - 1;
      x := if rxMasked then Xor(b, rxMask[rxs.pos % 4]) else b;
      var _ := rxs.PutU8(x);
    }

    method CheckText(x: byte, kind: CloseKind)
      requires Closable() && (state.Open? || state.Closed?)
      modifies `rxUtf8, `state, `frag, `utf8Tx, `sent, `keys, `wire, `asked, `log
      ensures Closable() && Checked(x) && OffersNothing()
    {
      hide EncodeFrame, Wire, Legal, Parted, Pongs, HasClose, R.Replies, R.Valid, TextSafety.Tracks, Lifecycle.Quiet,
           Utf8.Parse;
      rxUtf8 := Utf8.Parse(rxUtf8, x);
      if rxUtf8 == Utf8.INVALID {
        CloseWithReason(R.CLOSE_INVALID_DATA, [], kind);
        assert old(state.Closed?) ==> log == old(log) + [] == old(log);
      }
    }

    /** A text frame is complete. */
    method FinishText() returns (blocked: bool, ghost r: Reaction)
      requires Valid() && state.Open? && rxState.Data? && rxSize == 0
      requires R.Kind(RxView()).Text?
      modifies this
      ensures Closable() && (state.Open? || state.Closed?)
      ensures Offers(old(Model()), blocked, r)
      ensures blocked ==> state.Open? && Model() == old(Model())
      ensures !blocked ==> FinishedAs(React(R.Deliver(Cfg(), old(Model())), r))
    {
      hide EncodeFrame, Wire, Legal, Parted, Pongs, HasClose, R.Replies, R.Valid, TextSafety.Tracks, Lifecycle.Quiet,
           SendValid, R.Deliver, R.Owed;
      ghost var before := old(Model());
      R.TextEnds(Cfg(), before);
      if !rxFin {
        blocked, r := FinishTextPart();
      } else if rxUtf8 == Utf8.COMPLETE {
        blocked, r := FinishWholeText();
      } else {
        TextSafety.TracksShut(before);
        assert offered + [] == offered;
        blocked, r := false, Stays;
        Fail(R.CLOSE_INVALID_DATA, CloseBuffer);
      }
    }

    method FinishTextPart() returns (blocked: bool, ghost r: Reaction)
      requires Valid() && state.Open? && rxState.Data? && rxSize == 0
      requires R.Kind(RxView()).Text? && !rxFin
      modifies this
      ensures Closable() && (state.Open? || state.Closed?)
      ensures Offers(old(Model()), blocked, r)
      ensures blocked ==> state.Open? && Model() == old(Model())
      ensures !blocked ==> FinishedAs(React(R.Deliver(Cfg(), old(Model())), r))
    {
      hide EncodeFrame, Wire, Legal, Parted, Pongs, HasClose, R.Replies, R.Valid, TextSafety.Tracks, Lifecycle.Quiet,
           SendValid, R.Deliver, R.Owed, Lifecycle.Orderly;
      ghost var before := old(Model());
      R.TextEnds(Cfg(), before);
      TextSafety.DeliverTracks(Cfg(), before);
      TextSafety.TracksShut(before);
      TextSafety.TracksShut(R.Deliver(Cfg(), before));
      var ok;
      ok, r := OnMessage(R.Utf8Text, rxFin);
      if ok {
        rxFrag := Text;
        utf8Rx := rxUtf8;
      }
      blocked := !ok;
    }

    method FinishWholeText() returns (blocked: bool, ghost r: Reaction)
      requires Valid() && state.Open? && rxState.Data? && rxSize == 0
      requires R.Kind(RxView()).Text? && rxFin && rxUtf8 == Utf8.COMPLETE
      modifies this
      ensures Closable() && (state.Open? || state.Closed?)
      ensures Offers(old(Model()), blocked, r)
      ensures blocked ==> state.Open? && Model() == old(Model())
      ensures !blocked ==> FinishedAs(React(R.Deliver(Cfg(), old(Model())), r))
    {
      hide EncodeFrame, Wire, Legal, Parted, Pongs, HasClose, R.Replies, R.Valid, TextSafety.Tracks, Lifecycle.Quiet,
           SendValid, R.Deliver, R.Owed, Lifecycle.Orderly;
      ghost var before := old(Model());
      R.TextEnds(Cfg(), before);
      TextSafety.DeliverTracks(Cfg(), before);
      TextSafety.TracksShut(before);
      TextSafety.TracksShut(R.Deliver(Cfg(), before));
      var ok;
      ok, r := OnMessage(R.Utf8Text, rxFin);
      if ok {
        rxFrag := Continue;
      }
      blocked := !ok;
    }

    /** The instance is `c`, but for the receive state that ends the frame. */
    ghost predicate FinishedAs(c: R.Conn)
      requires rxs.Valid()
      reads `state, `log, `rxState, `rxFin, `rxOpcode, `rxMasked, `rxMask, `rxSize, `rxUtf8, `rxFrag, `utf8Rx
      reads rxs, rxs.buf
    {
      Model() == if c.Shut? then c else c.(rx := c.rx.(state := rxState))
    }

    method FinishBinary() returns (blocked: bool, ghost r: Reaction)
      requires Valid() && state.Open? && rxState.Data? && rxSize == 0
      requires R.Kind(RxView()).Binary?
      modifies this
      ensures Closable() && (state.Open? || state.Closed?)
      ensures Offers(old(Model()), blocked, r)
      ensures blocked ==> state.Open? && Model() == old(Model())
      ensures !blocked ==> FinishedAs(React(R.Deliver(Cfg(), old(Model())), r))
    {
      hide EncodeFrame, Wire, Legal, Parted, Pongs, HasClose, R.Replies, R.Valid, TextSafety.Tracks, Lifecycle.Quiet,
           SendValid, R.Deliver, R.Owed, Lifecycle.Orderly;
      ghost var before := old(Model());
      R.BinaryEnds(Cfg(), before);
      TextSafety.DeliverTracks(Cfg(), before);
      TextSafety.TracksShut(before);
      TextSafety.TracksShut(R.Deliver(Cfg(), before));
      var ok;
      ok, r := OnMessage(R.BinaryData, rxFin);
      if ok {
        rxFrag := if rxFin then Continue else Binary;
      }
      blocked := !ok;
    }

    /** Answers a close frame with its own code if that may be on the wire, or for it. */
    method FinishClose()
      requires Valid() && state.Open? && rxState.Data? && rxSize == 0
      requires R.Kind(RxView()).Close? && rxs.pos >= 2
      modifies this
      ensures Closable() && state.Closed? && OffersNothing()
      ensures Model() == R.Deliver(Cfg(), old(Model()))
      ensures var (code, reason) := old(R.CloseAnswer(rxs.Contents(), rxUtf8));
              Farewell(code, reason, CloseResponseBuffer)
    {
      hide EncodeFrame, Wire, Legal, Parted, Pongs, HasClose, R.Replies, R.Valid, TextSafety.Tracks, Lifecycle.Quiet,
           SendValid, Lifecycle.Orderly, Sendable, BigEndian;
      ghost var before := old(Model());
      TextSafety.TracksShut(before);
      TwoOctets(rxs.Contents());
      var code: nat := rxs.buf[0] as nat * 256 + rxs.buf[1];
      if R.IsWireCode(code) {
        if rxUtf8 == Utf8.COMPLETE {
          CloseOpen(code, rxs.buf[2..rxs.pos], CloseResponseBuffer);
        } else {
          Fail(R.CLOSE_PROTOCOL_ERROR, CloseResponseBuffer);
        }
      } else if 3000 <= code <= 3999 {
        Fail(R.CLOSE_NORMAL, CloseResponseBuffer);
      } else if 4000 <= code <= 4999 {
        Fail(R.CLOSE_NORMAL, CloseResponseBuffer);
      } else {
        Fail(R.CLOSE_PROTOCOL_ERROR, CloseResponseBuffer);
      }
    }

    method FinishPing() returns (blocked: bool)
      requires Valid() && state.Open? && rxState.Data? && rxSize == 0
      requires R.Kind(RxView()).Ping?
      modifies this
      ensures Closable() && state.Open?
      ensures unchanged(`offered) && old(asked) <= asked
      ensures blocked == host.Unanswered(old(asked), asked)
      ensures blocked ==> Valid() && Model() == old(Model())
      ensures !blocked ==> FinishedAs(R.Deliver(Cfg(), old(Model())))
    {
      hide EncodeFrame, Wire, Legal, Parted, Pongs, HasClose, R.Replies, R.Valid, TextSafety.Tracks, Lifecycle.Quiet;
      var status := SendPong(rxs.buf[..rxs.pos]);
      blocked := status.WouldBlock?;
      TextSafety.TracksShut(Model());
    }

    /** A frame has ended: only a message is owed to the host, and a pong has no effect. */
    lemma FinishOwes(c: R.Conn)
      requires R.Pending(Cfg(), c) && R.Valid(Cfg(), c.rx) && c.rx.size == 0
      ensures R.Deliver(Cfg(), c).Open? ==> R.Deliver(Cfg(), c).rx.state.OpcodeOctet?
      ensures !R.IsType(R.Kind(c.rx)) ==> R.Owed(Cfg(), c) == []
      ensures !R.IsType(R.Kind(c.rx)) && !R.Kind(c.rx).Close? && !R.Kind(c.rx).Ping? ==>
                R.Deliver(Cfg(), c) == c.(rx := c.rx.(state := R.OpcodeOctet))
    {
      hide R.Owed;
      if !R.IsType(R.Kind(c.rx)) {
        R.ControlEnds(Cfg(), c);
      }
    }

    /** The payload is complete: delivers the rest of a message, or acts on a control frame. */
    method Finish() returns (blocked: bool, ghost r: Reaction)
      requires Valid() && state.Open? && rxState.Data? && rxSize == 0
      modifies this
      ensures Valid() && (state.Open? || state.Closed?)
      ensures old(asked) <= asked && offered == old(offered) + R.Owed(Cfg(), old(Model()))
      ensures blocked == (host.Refused(old(offered), offered) || host.Unanswered(old(asked), asked))
      ensures r == host.Answer(old(offered), offered)
      ensures blocked ==> r.Stays? && Model() == old(Model())
      ensures !blocked ==> Model() == React(R.Deliver(Cfg(), old(Model())), r)
    {
      hide EncodeFrame, Wire, Legal, Parted, Pongs, HasClose, R.Replies, TextSafety.Tracks, Lifecycle.Quiet, SendValid,
           Lifecycle.Orderly, R.Deliver, R.Owed;
      ghost var before := old(Model());
      R.DeliverValid(Cfg(), before);
      FinishOwes(before);
      TextSafety.DeliverTracks(Cfg(), before);
      assert !rxs.error && TextSafety.Tracks(before);
      hide ReceiveValid;
      blocked, r := FinishKind();
      if !blocked {
        rxState := R.OpcodeOctet;
        assert Model() == React(R.Deliver(Cfg(), before), r);
        assert state.Open? ==> Model() == R.Deliver(Cfg(), before);
      }
      if state.Closed? {
        ClosedValid();
      } else {
        OpenValid();
      }
    }

    /** What is done depends on what the frame belongs to. */
    method FinishKind() returns (blocked: bool, ghost r: Reaction)
      requires Valid() && state.Open? && rxState.Data? && rxSize == 0
      modifies this
      ensures Closable() && (state.Open? || state.Closed?)
      ensures old(asked) <= asked && offered == old(offered) + R.Owed(Cfg(), old(Model()))
      ensures blocked == (host.Refused(old(offered), offered) || host.Unanswered(old(asked), asked))
      ensures r == host.Answer(old(offered), offered)
      ensures blocked ==> state.Open? && r.Stays? && Model() == old(Model())
      ensures !blocked ==> FinishedAs(React(R.Deliver(Cfg(), old(Model())), r))
    {
      hide EncodeFrame, Wire, Legal, Parted, Pongs, HasClose, R.Replies, TextSafety.Tracks, Lifecycle.Quiet, SendValid,
           Lifecycle.Orderly, R.Deliver, R.Owed;
      FinishOwes(old(Model()));
      TextSafety.TracksShut(old(Model()));
      assert offered + [] == offered;
      assert Closable();
      hide ReceiveValid;
      blocked, r := false, Stays;
      var kind := if rxOpcode.Continue? then rxFrag else rxOpcode;
      match kind {
        case Text => blocked, r := FinishText();
        case Binary => blocked, r := FinishBinary();
        case Close => FinishClose();
        case Ping => blocked := FinishPing();
        case Pong =>
        case _ =>
      }
    }

    /**
     * One step of the receive loop has taken `n` octets of `data` from `at`. To an always-ready
     * host it makes no difference whether this host accepted what it was offered on the way.
     */
    ghost predicate Reached(before: R.Conn, data: bytes, r: Reaction)
      requires rxs.Valid()
      reads `state, `log, `rxState, `rxFin, `rxOpcode, `rxMasked, `rxMask, `rxSize, `rxUtf8, `rxFrag, `utf8Rx
      reads rxs, rxs.buf
    {
      && Cfg().capacity > 0 && R.ValidConn(Cfg(), before) && R.ValidConn(Cfg(), Model())
      && R.After(Cfg(), Model(), []) == React(R.After(Cfg(), before, data), r)
      && (r.Closes? ==> state.Closed?)
    }

    /**
     * In a call, `r` is what the host did about the last message it was offered; and something is
     * owed to it exactly if it refused that message, or had no buffer for the last pong.
     */
    twostate predicate Consulted(blocked: bool, r: Reaction)
      requires rxs.Valid()
      reads this, rxs, rxs.buf
    {
      && old(offered) <= offered && old(asked) <= asked && r == host.Answer(old(offered), offered)
      && (host.Refused(old(offered), offered) || host.Unanswered(old(asked), asked) <==>
            blocked && R.Pending(Cfg(), Model()))
    }

    /** A call in which the host has not closed has merely read on. */
    lemma ReachedFollows(before: R.Conn, data: bytes, r: Reaction)
      requires rxs.Valid() && Reached(before, data, r) && (!state.Closed? || r.Stays?)
      ensures R.Follows(Cfg(), before, data, Model())
    {}

    lemma Running()
      requires Valid()
      ensures rxs.Valid() && Cfg().capacity > 0 && R.ValidConn(Cfg(), Model())
    {}

    /** The part of a payload that is still to come: a full buffer is passed on, or one octet is read. */
    method TakeData(s: Input) returns (blocked: bool, ghost r: Reaction)
      requires Valid() && rxState.Data? && (state.Open? || (state.Closed? && rxs.pos == 0)) && s.Valid() && !s.error
      requires rxSize > 0
      modifies this, rxs, rxs.buf, s
      ensures Valid() && s.Valid() && (state.Open? || state.Closed?) && old(s.pos) <= s.pos
      ensures Reached(old(Model()), s.data[old(s.pos)..s.pos], r)
      ensures Consulted(blocked, r)
      ensures state.Open? && rxSize == 0 ==>
                rxState.Data? && !blocked && r.Stays? && unchanged(`offered, `asked) && s.pos == old(s.pos) + 1
      ensures blocked && state.Open? ==> s.pos == |s.data| || R.Pending(Cfg(), Model())
      ensures !blocked && state.Open? ==>
                !s.error && R.Work(Cfg(), Model(), |s.data| - s.pos) < old(R.Work(Cfg(), Model(), |s.data| - s.pos))
    {
      hide EncodeFrame, Wire, Legal, Parted, Pongs, HasClose, R.Replies, R.Valid, TextSafety.Tracks, Lifecycle.Quiet,
           R.Deliver, R.Owed, SendValid;
      r := Stays;
      ghost var before := Model();
      ghost var cfg := Cfg();
      if rxs.Eof() {
        AfterDelivery(before);
        R.FullBuffer(cfg, before);
        blocked, r := Flush();
        assert s.data[s.pos..s.pos] == [];
      } else {
        blocked := TakeOctet(s);
        NoPongThen(host, old(asked), asked, asked);
        TakenOctet(before, s.data, old(s.pos), blocked);
      }
    }

    /** One payload octet, read or not there. */
    lemma TakenOctet(before: R.Conn, data: bytes, at: nat, blocked: bool)
      requires rxs.Valid() && rxs.size > 0 && R.ValidConn(Cfg(), before) && !R.Pending(Cfg(), before)
      requires at + (if blocked then 0 else 1) <= |data|
      requires blocked || before.Shut? ==> Model() == before
      requires !blocked && before.Open? ==> before.rx.state.Data? && Model() == R.OnData(before, data[at])
      ensures Reached(before, data[at..at + if blocked then 0 else 1], Stays)
    {
      hide R.OnData, R.Valid;
      var s := data[at..at + if blocked then 0 else 1];
      if before.Shut? {
        R.RunShut(Cfg(), before, s);
      } else if !blocked {
        R.AfterConsume(Cfg(), before, data[at]);
        OneOctet(data, at);
      } else {
        assert s == [];
      }
    }

    method ParseData(s: Input) returns (blocked: bool, ghost r: Reaction)
      requires Valid() && rxState.Data? && (state.Open? || (state.Closed? && rxs.pos == 0)) && s.Valid() && !s.error
      modifies this, rxs, rxs.buf, s
      ensures Valid() && s.Valid() && (state.Open? || state.Closed?)
      ensures old(s.pos) <= s.pos
      ensures Reached(old(Model()), s.data[old(s.pos)..s.pos], r)
      ensures Consulted(blocked, r)
      ensures blocked && state.Open? ==> s.pos == |s.data| || R.Pending(Cfg(), Model())
      ensures !blocked && state.Open? ==>
                !s.error && R.Work(Cfg(), Model(), |s.data| - s.pos) < old(R.Work(Cfg(), Model(), |s.data| - s.pos))
    {
      hide EncodeFrame, Wire, Legal, Parted, Pongs, HasClose, R.Replies, R.Valid, TextSafety.Tracks, Lifecycle.Quiet,
           R.Deliver, R.Owed, SendValid;
      blocked, r := false, Stays;
      if rxSize > 0 {
        blocked, r := TakeData(s);
      } else {
        NothingTaken(Model(), s.data, s.pos);
      }
      if state.Open? && rxSize == 0 {
        ghost var mid := Model();
        blocked, r := Finish();
        Delivered(old(Model()), s.data[old(s.pos)..s.pos], mid, blocked, r);
      }
    }

    /** What was owed after some octets has been delivered, or refused. */
    lemma Delivered(before: R.Conn, data: bytes, mid: R.Conn, blocked: bool, r: Reaction)
      requires Valid() && R.ValidConn(Cfg(), before) && R.ValidConn(Cfg(), mid) && R.Pending(Cfg(), mid)
      requires R.After(Cfg(), mid, []) == R.After(Cfg(), before, data)
      requires if blocked then Model() == mid && r.Stays? else Model() == React(R.Deliver(Cfg(), mid), r)
      ensures Reached(before, data, r)
    {
      hide R.Valid, R.Run, R.Deliver, SendValid, TextSafety.Tracks, Lifecycle.Orderly;
      if !blocked {
        AfterReaction(Cfg(), mid, r);
      }
    }

    lemma NothingTaken(c: R.Conn, data: bytes, at: nat)
      requires rxs.Valid() && rxs.size > 0 && R.ValidConn(Cfg(), c) && Model() == c && at <= |data|
      ensures Reached(c, data[at..at], Stays)
    {
      hide R.Valid, R.Run;
      assert data[at..at] == [];
    }

    lemma AfterDelivery(c: R.Conn)
      requires rxs.size > 0 && R.ValidConn(Cfg(), c) && R.Pending(Cfg(), c)
      ensures forall r :: R.Settled(Cfg(), React(R.Deliver(Cfg(), c), r))
      ensures forall r :: R.After(Cfg(), React(R.Deliver(Cfg(), c), r), []) == React(R.After(Cfg(), c, []), r)
    {
      forall r ensures R.Settled(Cfg(), React(R.Deliver(Cfg(), c), r))
        && R.After(Cfg(), React(R.Deliver(Cfg(), c), r), []) == React(R.After(Cfg(), c, []), r) {
        AfterReaction(Cfg(), c, r);
      }
    }

    /** The part of a round that reads a header octet, if one is due. */
    method ParseHead(s: Input) returns (blocked: bool)
      requires Valid() && state.Open? && s.Valid() && !s.error
      modifies this, rxs, s
      ensures Valid() && s.Valid() && (state.Open? || state.Closed?)
      ensures old(s.pos) <= s.pos && (rxState.Data? ==> !s.error && (state.Closed? ==> rxs.pos == 0))
      ensures Reached(old(Model()), s.data[old(s.pos)..s.pos], Stays) && OffersNothing()
      ensures blocked ==> s.pos == |s.data| && !rxState.Data?
      ensures !blocked && !(s.pos == old(s.pos) && Model() == old(Model()) && rxState.Data?) ==>
                !s.error && R.Work(Cfg(), Model(), |s.data| - s.pos) < old(R.Work(Cfg(), Model(), |s.data| - s.pos))
    {
      hide EncodeFrame, Wire, Legal, Parted, Pongs, HasClose, R.Replies, R.Valid, TextSafety.Tracks, Lifecycle.Quiet;
      ghost var before := Model();
      match rxState {
        case OpcodeOctet => blocked := ParseOpcode(s);
        case SizeOctet => blocked := ParseSize(s);
        case Extended(_) => blocked := ParseExtendedSize(s);
        case MaskKey(_) => blocked := ParseMask(s);
        case Data => blocked := false;
      }
      if s.pos > old(s.pos) {
        R.AfterConsume(Cfg(), before, s.data[old(s.pos)]);
        OneOctet(s.data, old(s.pos));
      } else {
        assert s.data[s.pos..s.pos] == [];
      }
    }

    /** One round of the receive loop. */
    method ParseStep(s: Input) returns (blocked: bool, ghost r: Reaction)
      requires Valid() && state.Open? && s.Valid() && !s.error
      modifies this, rxs, rxs.buf, s
      ensures Valid() && s.Valid() && (state.Open? || state.Closed?)
      ensures old(s.pos) <= s.pos
      ensures Reached(old(Model()), s.data[old(s.pos)..s.pos], r)
      ensures Consulted(blocked, r)
      ensures blocked && state.Open? ==> s.pos == |s.data| || R.Pending(Cfg(), Model())
      ensures !blocked && state.Open? ==>
                !s.error && R.Work(Cfg(), Model(), |s.data| - s.pos) < old(R.Work(Cfg(), Model(), |s.data| - s.pos))
    {
      hide EncodeFrame, Wire, Legal, Parted, Pongs, HasClose, R.Replies, R.Valid, TextSafety.Tracks, Lifecycle.Quiet;
      r := Stays;
      blocked := ParseHead(s);
      if rxState.Data? {
        ghost var mid, p := Model(), s.pos;
        blocked, r := ParseData(s);
        Splice(s.data, old(s.pos), p, s.pos);
        Continued(old(Model()), s.data[old(s.pos)..p], mid, s.data[p..s.pos]);
      }
    }

    /** Two stretches of input in a row. */
    lemma Continued(before: R.Conn, head: bytes, mid: R.Conn, tail: bytes)
      requires rxs.size > 0 && R.ValidConn(Cfg(), before) && R.ValidConn(Cfg(), mid)
      requires R.After(Cfg(), mid, []) == R.After(Cfg(), before, head)
      ensures R.After(Cfg(), mid, tail) == R.After(Cfg(), before, head + tail)
    {
      R.AfterConcat(Cfg(), mid, [], tail);
      R.AfterConcat(Cfg(), before, head, tail);
      assert [] + tail == tail;
    }

    /**
     * A host that is always ready is not owed anything: the connection is that of the octets taken,
     * and its own doing.
     */
    lemma Served(before: R.Conn, data: bytes, r: Reaction)
      requires rxs.Valid() && Reached(before, data, r) && !R.Pending(Cfg(), Model())
      ensures Cfg().capacity > 0 && R.ValidConn(Cfg(), before) && Model() == React(R.After(Cfg(), before, data), r)
    {
      hide R.Run;
      R.AfterNothing(Cfg(), Model());
    }

    /**
     * Reads until the input is used up, the host refuses a delivery, or the connection closes.
     * What a refusing host is owed is delivered by a later call: up to that, host and connection
     * are where an always-ready host would have brought them with the octets taken. And nothing else
     * than a refusal, or the lack of a buffer for a pong, stops the loop before the end of the input:
     * a host that is always ready gets all that an open connection is sent.
     */
    method ParseFrames(s: Input) returns (ghost r: Reaction)
      requires Valid() && state.Open? && s.Valid() && !s.error
      modifies this, rxs, rxs.buf, s
      ensures Valid() && s.Valid() && (state.Open? || state.Closed?)
      ensures old(s.pos) <= s.pos
      ensures Reached(old(Model()), s.data[old(s.pos)..s.pos], r)
      ensures Consulted(true, r)
      ensures state.Open? ==> s.pos == |s.data| || R.Pending(Cfg(), Model())
      ensures host.AlwaysReady() ==>
                && !R.Pending(Cfg(), Model()) && (state.Open? ==> s.pos == |s.data|)
                && Cfg().capacity > 0 && R.ValidConn(Cfg(), old(Model()))
                && Model() == React(R.After(Cfg(), old(Model()), s.data[old(s.pos)..s.pos]), r)
    {
      hide EncodeFrame, Wire, Legal, Parted, Pongs, HasClose, R.Replies, R.Valid, TextSafety.Tracks, Lifecycle.Quiet;
      ghost var before, at := Model(), s.pos;
      var blocked := false;
      r := Stays;
      R.AfterConcat(Cfg(), before, [], []);
      while !blocked && state.Open?
        invariant Valid() && s.Valid() && (state.Open? || state.Closed?)
        invariant at <= s.pos && Reached(before, s.data[at..s.pos], r)
        invariant Consulted(blocked, r) && (state.Open? ==> r.Stays?)
        invariant !blocked && state.Open? ==> !s.error
        invariant blocked && state.Open? ==> s.pos == |s.data| || R.Pending(Cfg(), Model())
        decreases !blocked && state.Open?, R.Work(Cfg(), Model(), |s.data| - s.pos)
      {
        ghost var mid, p := Model(), s.pos;
        ghost var o, a := offered, asked;
        blocked, r := ParseStep(s);
        InTwo(host, (old(offered), o, offered), (old(asked), a, asked));
        Splice(s.data, at, p, s.pos);
        Continued(before, s.data[at..p], mid, s.data[p..s.pos]);
      }
      if !R.Pending(Cfg(), Model()) {
        Served(before, s.data[at..s.pos], r);
      }
    }
  }
}
