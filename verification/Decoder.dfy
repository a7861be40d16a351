// A decoder of sections 5.2 to 5.5 of RFC 6455 that reads a whole buffer frame by frame, and
// the proof that the octet machine of Receiver.dfy refines it.

module Decoder {
  import opened Octets
  import opened Frames
  import opened Receiver
  import Utf8

  // ---- Runs compose, so any split of the input gives the same result ----

  lemma RunSnoc(cfg: Config, c: Conn, s: bytes, b: byte)
    requires cfg.capacity > 0 && Settled(cfg, c)
    ensures Run(cfg, c, s + [b]) == Feed(cfg, Run(cfg, c, s), b)
  {
    RunConcat(cfg, c, s, [b]);
    var d := Run(cfg, c, s);
    assert Run(cfg, d, [b]) == Run(cfg, Feed(cfg, d, b), []);
  }

  function RunCalls(cfg: Config, c: Conn, calls: seq<bytes>): (r: Conn)
    requires cfg.capacity > 0 && Settled(cfg, c)
    ensures Settled(cfg, r)
    decreases |calls|
  {
    if calls == [] then c else RunCalls(cfg, Run(cfg, c, calls[0]), calls[1..])
  }

  /** However the input is split into calls, the outcome is that of one call with all of it. */
  lemma {:induction false} SplitIndependent(cfg: Config, c: Conn, calls: seq<bytes>)
    requires cfg.capacity > 0 && Settled(cfg, c)
    ensures RunCalls(cfg, c, calls) == Run(cfg, c, Concat(calls))
    decreases |calls|
  {
    if calls != [] {
      RunConcat(cfg, c, calls[0], Concat(calls[1..]));
      SplitIndependent(cfg, Run(cfg, c, calls[0]), calls[1..]);
    }
  }

  // ---- Pieces of a payload ----

  /** The full buffers taken off the front of `q`. */
  function Chunks(cap: nat, q: bytes): seq<bytes>
    requires cap > 0
    decreases |q|
  {
    if |q| < cap then [] else [q[..cap]] + Chunks(cap, q[cap..])
  }

  /** What is left in the buffer after that. */
  function Leftover(cap: nat, q: bytes): (r: bytes)
    requires cap > 0
    ensures |r| < cap && |r| <= |q|
    decreases |q|
  {
    if |q| < cap then q else Leftover(cap, q[cap..])
  }

  lemma {:induction false} ChunksSnoc(cap: nat, q: bytes, x: byte)
    requires cap > 0
    ensures var l := Leftover(cap, q) + [x];
            && Chunks(cap, q + [x]) == Chunks(cap, q) + (if |l| == cap then [l] else [])
            && Leftover(cap, q + [x]) == if |l| == cap then [] else l
    decreases |q|
  {
    if |q| >= cap {
      assert (q + [x])[..cap] == q[..cap];
      assert (q + [x])[cap..] == q[cap..] + [x];
      ChunksSnoc(cap, q[cap..], x);
    } else if |q| + 1 == cap {
      assert (q + [x])[..cap] == q + [x];
      assert Chunks(cap, (q + [x])[cap..]) == [];
    }
  }

  /** No octet is lost, repeated or moved. */
  lemma {:induction false} ChunksComplete(cap: nat, q: bytes)
    requires cap > 0
    ensures Concat(Chunks(cap, q)) + Leftover(cap, q) == q
    decreases |q|
  {
    if |q| >= cap {
      ChunksComplete(cap, q[cap..]);
      Associative(q[..cap], Concat(Chunks(cap, q[cap..])), Leftover(cap, q[cap..]));
    }
  }

  lemma {:induction false} LeftoverSize(cap: nat, q: bytes)
    requires cap > 0
    ensures |Leftover(cap, q)| == |q| % cap
    decreases |q|
  {
    if |q| >= cap {
      LeftoverSize(cap, q[cap..]);
      ModMinus(|q|, cap);
    }
  }

  // ---- Decoding ----

  datatype Trace = Trace(events: seq<Event>, open: bool)

  function Failed(events: seq<Event>, code: nat): Trace {
    Trace(events + [TransportClosed, Event.Closed(code, [])], false)
  }

  /** The receiver takes the key octet at the buffer position, which restarts with every full buffer. */
  function UnmaskBuffered(key: Key, cap: nat, p: bytes): (r: bytes)
    requires cap > 0
    ensures |r| == |p|
  {
    if key.Unmasked? then p
    else seq(|p|, i requires 0 <= i < |p| => Xor(p[i], key.mask[i % cap % 4]))
  }

  function Flushes(k: Opcode, parts: seq<bytes>): seq<Event> {
    if parts == [] || !IsType(k) then []
    else [Message(EncodingOf(k), false, parts[0])] + Flushes(k, parts[1..])
  }

  /** The validator over the checked part of a payload: all of a text, the reason of a close. */
  function Validate(k: Opcode, u: Utf8.State, q: bytes): Utf8.State {
    if k.Text? then Utf8.Run(u, q)
    else if k.Close? && |q| > 2 then Utf8.Run(u, q[2..])
    else u
  }

  /** The length of the longest prefix of `p` that can still become valid. */
  function GoodPrefix(k: Opcode, u: Utf8.State, p: bytes): (n: nat)
    ensures n <= |p|
  {
    if p == [] || Validate(k, u, p) != Utf8.INVALID then |p| else GoodPrefix(k, u, p[..|p| - 1])
  }

  /** The result of one frame: what was observed, and what the next frame starts from. */
  datatype FrameResult = FrameResult(trace: Trace, frag: Frag, saved: Utf8.State)

  /** What was observed of a frame of which only the payload octets `p` have arrived. */
  function PartialFrame(cap: nat, k: Opcode, u: Utf8.State, p: bytes): Trace
    requires cap > 0
  {
    var n := GoodPrefix(k, u, p);
    var flushed := Flushes(k, Chunks(cap, p[..n]));
    if n < |p| then Failed(flushed, CLOSE_INVALID_DATA) else Trace(flushed, true)
  }

  /**
   * What a complete frame with payload `p` amounts to. Full buffers are passed on as they fill
   * up, except that the last octet always waits for the end of the frame.
   */
  function CompleteFrame(cfg: Config, k: Opcode, fin: bool, frag: Frag, saved: Utf8.State, u: Utf8.State,
      p: bytes): FrameResult
    requires cfg.capacity > 0 && (k.Close? ==> |p| >= 2)
  {
    var body := if p == [] then [] else p[..|p| - 1];
    var last := if p == [] then [] else Leftover(cfg.capacity, body) + [p[|p| - 1]];
    var flushed := Flushes(k, Chunks(cfg.capacity, body));
    var q := Validate(k, u, p);
    if q == Utf8.INVALID && p != [] then
      FrameResult(PartialFrame(cfg.capacity, k, u, p), frag, saved)
    else
      match k
      case Text =>
        if fin && q != Utf8.COMPLETE then
          FrameResult(Failed(flushed, CLOSE_INVALID_DATA), frag, saved)
        else
          FrameResult(Trace(flushed + [Message(Utf8Text, fin, last)], true),
                      if fin then Continue else Text, if fin then saved else q)
      case Binary =>
        FrameResult(Trace(flushed + [Message(BinaryData, fin, last)], true),
                    if fin then Continue else Binary, saved)
      case Close =>
        var (code, reason) := CloseAnswer(p, q);
        FrameResult(Trace([TransportClosed, Event.Closed(code, reason)], false), frag, saved)
      case Ping =>
        var fits := MinFrameSize(Pong, true, |p|) <= cfg.pongMax;
        FrameResult(Trace(if fits then [Reply(p)] else [], true), frag, saved)
      case _ =>
        FrameResult(Trace([], true), frag, saved)
  }

  /** Everything observed of the octets `bs`, starting between two frames. */
  function Decode(cfg: Config, frag: Frag, saved: Utf8.State, bs: bytes): Trace
    requires cfg.capacity > 0
    decreases |bs|
  {
    if bs == [] then Trace([], true)
    else if !MayStart(bs[0], frag) then Failed([], CLOSE_PROTOCOL_ERROR)
    else if |bs| == 1 then Trace([], true)
    else if SizeFault(cfg, ByteToOpcode(bs[0]), bs[1] % 128) != 0 then
      Failed([], SizeFault(cfg, ByteToOpcode(bs[0]), bs[1] % 128))
    else if |bs| < HeaderSize(bs[1]) then Trace([], true)
    else
      var h := ReadHeader(bs);
      var body := bs[h.size..];
      var k := if h.opcode.Continue? then frag else h.opcode;
      var u := if h.opcode.Continue? then saved else 0;
      if |body| < h.length then
        PartialFrame(cfg.capacity, k, u, UnmaskBuffered(h.key, cfg.capacity, body))
      else
        ControlLength(bs);
        var r := CompleteFrame(cfg, k, h.fin, frag, saved, u, UnmaskBuffered(h.key, cfg.capacity, body[..h.length]));
        if r.trace.open then
          var t := Decode(cfg, r.frag, r.saved, body[h.length..]);
          Trace(r.trace.events + t.events, t.open)
        else r.trace
  }

  lemma ControlLength(bs: bytes)
    requires |bs| >= 2 && |bs| >= HeaderSize(bs[1])
    ensures bs[1] % 128 <= 125 ==> ReadHeader(bs).length == bs[1] % 128
  {}
}
