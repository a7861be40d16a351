// The octet machine of Receiver.dfy and the whole-buffer decoder of Decoder.dfy agree.

module Refinement {
  import opened Octets
  import opened Frames
  import opened Receiver
  import opened Decoder
  import Utf8

  // ---- Header ----

  /** The connection after the two octets `a` and `b` open a frame that needs more header. */
  function Started(c: Conn, a: byte, b: byte): Conn
    requires c.Open?
  {
    var op := ByteToOpcode(a);
    var n := b % 128;
    var rx := c.rx.(fin := a >= 128, opcode := op, buf := [], masked := b >= 128,
                    utf8 := if op.Continue? then c.rx.saved else 0);
    c.(rx := if n == 127 then rx.(state := Extended(2), size := 0)
             else if n == 126 then rx.(state := Extended(0), size := 0)
             else rx.(state := AfterSize(rx), size := n))
  }

  ghost predicate Starts(cfg: Config, c: Conn, a: byte, b: byte) {
    && cfg.capacity > 0 && c.Open? && Valid(cfg, c.rx) && c.rx.state.OpcodeOctet?
    && MayStart(a, c.rx.frag) && SizeFault(cfg, ByteToOpcode(a), b % 128) == 0
  }

  lemma StartedRuns(cfg: Config, c: Conn, a: byte, b: byte)
    requires Starts(cfg, c, a, b)
    ensures ValidConn(cfg, Started(c, a, b))
    ensures Run(cfg, c, [a, b]) == Settle(cfg, Started(c, a, b))
  {
    hide Run;
    var d := OnOpcode(c, a);
    OpcodeValid(cfg, c, a);
    assert Feed(cfg, c, a) == d;
    SizeValid(cfg, d, b);
    assert OnSize(cfg, d, b) == Started(c, a, b);
    RunNothing(cfg, c);
    RunSnoc(cfg, c, [], a);
    RunSnoc(cfg, c, [a], b);
    assert [] + [a] == [a] && [a] + [b] == [a, b];
  }

  lemma FeedExtended(cfg: Config, c: Conn, b: byte)
    requires cfg.capacity > 0 && c.Open? && Valid(cfg, c.rx) && c.rx.state.Extended?
    ensures ValidConn(cfg, OnExtended(c, b))
    ensures Feed(cfg, c, b) == Settle(cfg, OnExtended(c, b))
  {
    ExtendedValid(cfg, c, b);
  }

  lemma FeedMask(cfg: Config, c: Conn, b: byte)
    requires cfg.capacity > 0 && c.Open? && Valid(cfg, c.rx) && c.rx.state.MaskKey?
    ensures ValidConn(cfg, OnMask(c, b))
    ensures Feed(cfg, c, b) == Settle(cfg, OnMask(c, b))
  {
    ConsumeValid(cfg, c, b);
  }

  /** Reading the octets `s` of an extended length that is not complete yet. */
  lemma {:induction false} ExtendedRuns(cfg: Config, c: Conn, n0: nat, s: bytes)
    requires cfg.capacity > 0 && c.Open? && Valid(cfg, c.rx) && c.rx.state == Extended(n0) && c.rx.size == 0
    requires (n0 == 0 && |s| < 2) || (n0 == 2 && |s| < 8)
    ensures Run(cfg, c, s) == c.(rx := c.rx.(state := Extended(n0 + |s|), size := BigEndian(s)))
    decreases |s|
  {
    hide Run, Feed, Valid, OnExtended, Settle;
    if s == [] {
      RunNothing(cfg, c);
    } else {
      var t, b := s[..|s| - 1], s[|s| - 1];
      ExtendedRuns(cfg, c, n0, t);
      RunSnoc(cfg, c, t, b);
      Around(s, |t|);
      FeedExtended(cfg, Run(cfg, c, t), b);
      ExtendedNext(cfg, c, n0 + |t|, t, b);
    }
  }

  lemma ExtendedNext(cfg: Config, c: Conn, n: nat, t: bytes, b: byte)
    requires c.Open? && n != 1 && n < 9
    requires var d := c.(rx := c.rx.(state := Extended(n), size := BigEndian(t))); ValidConn(cfg, OnExtended(d, b))
    ensures var d := c.(rx := c.rx.(state := Extended(n), size := BigEndian(t)));
            Settle(cfg, OnExtended(d, b)) == c.(rx := c.rx.(state := Extended(n + 1), size := BigEndian(t + [b])))
  {
    hide Valid;
    assert (t + [b])[..|t|] == t;
  }

  lemma ExtendedCompletes(cfg: Config, c: Conn, n0: nat, s: bytes)
    requires cfg.capacity > 0 && c.Open? && Valid(cfg, c.rx) && c.rx.state == Extended(n0) && c.rx.size == 0
    requires (n0 == 0 && |s| == 2) || (n0 == 2 && |s| == 8)
    ensures var d := c.(rx := c.rx.(state := AfterSize(c.rx), size := BigEndian(s)));
            ValidConn(cfg, d) && Run(cfg, c, s) == Settle(cfg, d)
  {
    hide Run, Feed;
    var t, b := s[..|s| - 1], s[|s| - 1];
    ExtendedRuns(cfg, c, n0, t);
    RunSnoc(cfg, c, t, b);
    Around(s, |t|);
    FeedExtended(cfg, Run(cfg, c, t), b);
  }

  lemma {:induction false} MaskRuns(cfg: Config, c: Conn, s: bytes)
    requires cfg.capacity > 0 && c.Open? && Valid(cfg, c.rx) && c.rx.state == MaskKey(0) && |s| < 4
    ensures Run(cfg, c, s) == c.(rx := c.rx.(state := MaskKey(|s|), mask := s + c.rx.mask[|s|..]))
    decreases |s|
  {
    hide Run, Feed;
    if s != [] {
      var t, b := s[..|s| - 1], s[|s| - 1];
      MaskRuns(cfg, c, t);
      RunSnoc(cfg, c, t, b);
      FeedMask(cfg, Run(cfg, c, t), b);
      Around(s, |t|);
      assert (t + c.rx.mask[|t|..])[|t| := b] == s + c.rx.mask[|s|..];
    } else {
      RunNothing(cfg, c);
      assert s + c.rx.mask[|s|..] == c.rx.mask;
    }
  }

  lemma MaskCompletes(cfg: Config, c: Conn, s: bytes)
    requires cfg.capacity > 0 && c.Open? && Valid(cfg, c.rx) && c.rx.state == MaskKey(0) && |s| == 4
    ensures var d := c.(rx := c.rx.(state := Data, mask := s));
            ValidConn(cfg, d) && Run(cfg, c, s) == Settle(cfg, d)
  {
    hide Run, Feed;
    var t, b := s[..3], s[3];
    MaskRuns(cfg, c, t);
    RunSnoc(cfg, c, t, b);
    FeedMask(cfg, Run(cfg, c, t), b);
    Around(s, 3);
    assert (t + c.rx.mask[3..])[3 := b] == s;
  }

  /** The connection with the header `h` read and the payload still to come. */
  function Headed(c: Conn, h: Header): Conn
    requires c.Open?
  {
    c.(rx := c.rx.(state := Data, fin := h.fin, opcode := h.opcode, buf := [], size := h.length,
                   masked := h.key.Masked?, mask := if h.key.Masked? then h.key.mask else c.rx.mask,
                   utf8 := if h.opcode.Continue? then c.rx.saved else 0))
  }

  /** The connection with the length field read. */
  function Sized(c: Conn, bs: bytes): Conn
    requires c.Open? && |bs| >= 2 && |bs| >= 2 + ExtendedOctets(bs[1] % 128)
  {
    var d := Started(c, bs[0], bs[1]);
    var ext := ExtendedOctets(bs[1] % 128);
    d.(rx := d.rx.(state := AfterSize(d.rx), size := if ext == 0 then bs[1] % 128 else BigEndian(bs[2..2 + ext])))
  }

  lemma SizedRuns(cfg: Config, c: Conn, bs: bytes)
    requires |bs| >= 2 && |bs| == 2 + ExtendedOctets(bs[1] % 128) && Starts(cfg, c, bs[0], bs[1])
    ensures ValidConn(cfg, Sized(c, bs))
    ensures Run(cfg, c, bs) == Settle(cfg, Sized(c, bs))
  {
    hide Run, Feed, Consume, Pow256;
    StartedRuns(cfg, c, bs[0], bs[1]);
    if |bs| == 2 {
      assert bs == [bs[0], bs[1]];
    } else {
      LongSizeRuns(cfg, c, bs);
    }
  }

  lemma LongSizeRuns(cfg: Config, c: Conn, bs: bytes)
    requires |bs| > 2 && |bs| == 2 + ExtendedOctets(bs[1] % 128) && Starts(cfg, c, bs[0], bs[1])
    ensures ValidConn(cfg, Sized(c, bs))
    ensures Run(cfg, c, bs) == Settle(cfg, Sized(c, bs))
  {
    hide Run, Feed, Consume, Pow256, BigEndian, Settle;
    StartedRuns(cfg, c, bs[0], bs[1]);
    var d, ext := Started(c, bs[0], bs[1]), ExtendedOctets(bs[1] % 128);
    StartedSettled(cfg, d);
    ExtendedCompletes(cfg, d, if ext == 2 then 0 else 2, bs[2..]);
    assert [bs[0], bs[1]] + bs[2..] == bs;
    RunConcat(cfg, c, [bs[0], bs[1]], bs[2..]);
    assert 2 + ext == |bs|;
    assert bs[2..2 + ext] == bs[2..];
  }

  lemma StartedSettled(cfg: Config, d: Conn)
    requires ValidConn(cfg, d) && d.Open? && !d.rx.state.Data?
    ensures Settle(cfg, d) == d
  {
    hide Valid;
  }

  /** The machine's fields after the length, and the key if any, are those of the whole-buffer header. */
  lemma SizedHeads(c: Conn, bs: bytes, n: nat)
    requires c.Open? && |bs| >= 2 && |bs| == HeaderSize(bs[1]) && n == 2 + ExtendedOctets(bs[1] % 128)
    ensures var d := Sized(c, bs[..n]);
            Headed(c, ReadHeader(bs)) == if bs[1] < 128 then d else d.(rx := d.rx.(state := Data, mask := bs[n..]))
  {
    assert bs[..n][2..n] == bs[2..n];
    assert bs[1] < 128 || bs[n..n + 4] == bs[n..];
  }

  /** A complete header takes the machine to the payload, with what a whole-buffer reader finds. */
  lemma HeaderRuns(cfg: Config, c: Conn, bs: bytes)
    requires |bs| >= 2 && |bs| == HeaderSize(bs[1]) && Starts(cfg, c, bs[0], bs[1])
    ensures ValidConn(cfg, Headed(c, ReadHeader(bs)))
    ensures Run(cfg, c, bs) == Settle(cfg, Headed(c, ReadHeader(bs)))
  {
    hide Run, Feed, Valid, BigEndian;
    var n := 2 + ExtendedOctets(bs[1] % 128);
    SizedHeads(c, bs, n);
    SizedRuns(cfg, c, bs[..n]);
    if bs[1] < 128 {
      assert bs[..n] == bs;
    } else {
      MaskCompletes(cfg, Sized(c, bs[..n]), bs[n..]);
      RunConcat(cfg, c, bs[..n], bs[n..]);
      assert bs[..n] + bs[n..] == bs;
    }
  }

  /** An incomplete header shows nothing. */
  lemma HeaderIncomplete(cfg: Config, c: Conn, bs: bytes)
    requires |bs| >= 2 && |bs| < HeaderSize(bs[1]) && Starts(cfg, c, bs[0], bs[1])
    ensures Run(cfg, c, bs).Open? && Run(cfg, c, bs).log == c.log
  {
    hide Run, Feed;
    var d := Started(c, bs[0], bs[1]);
    var ext := ExtendedOctets(bs[1] % 128);
    StartedRuns(cfg, c, bs[0], bs[1]);
    RunConcat(cfg, c, [bs[0], bs[1]], bs[2..]);
    assert [bs[0], bs[1]] + bs[2..] == bs;
    if |bs| < 2 + ext {
      ExtendedRuns(cfg, d, if ext == 2 then 0 else 2, bs[2..]);
    } else if ext > 0 {
      var s, t := bs[2..2 + ext], bs[2 + ext..];
      ExtendedCompletes(cfg, d, if ext == 2 then 0 else 2, s);
      RunConcat(cfg, d, s, t);
      Cut(bs, 2, 2 + ext);
      MaskRuns(cfg, d.(rx := d.rx.(state := MaskKey(0), size := BigEndian(s))), t);
    } else {
      MaskRuns(cfg, d, bs[2..]);
    }
  }

  // ---- Payload ----

  function KeyOf(rx: Rx): Key {
    if rx.masked then Masked(rx.mask) else Unmasked
  }

  lemma UnmaskPrefix(key: Key, cap: nat, r: bytes, n: nat)
    requires cap > 0 && n <= |r|
    ensures UnmaskBuffered(key, cap, r[..n]) == UnmaskBuffered(key, cap, r)[..n]
  {}

  lemma ValidateSnoc(k: Opcode, u: Utf8.State, q: bytes, x: byte)
    ensures Validate(k, u, q + [x])
         == if k.Text? || (k.Close? && |q| >= 2) then Utf8.Parse(Validate(k, u, q), x) else Validate(k, u, q)
  {
    if k.Text? {
      Utf8.RunSnoc(u, q, x);
    } else if k.Close? && |q| >= 2 {
      assert (q + [x])[2..] == q[2..] + [x];
      Utf8.RunSnoc(u, q[2..], x);
      assert |q| == 2 ==> Utf8.Run(u, q[2..]) == u;
    }
  }

  /** The good prefix is good, and one octet more is not. */
  lemma {:induction false} GoodPrefixMaximal(k: Opcode, u: Utf8.State, p: bytes)
    requires u != Utf8.INVALID
    ensures var n := GoodPrefix(k, u, p);
            && Validate(k, u, p[..n]) != Utf8.INVALID
            && (n < |p| ==> Validate(k, u, p[..n + 1]) == Utf8.INVALID)
  {
    var n := GoodPrefix(k, u, p);
    if n == |p| {
      assert p[..n] == p;
    } else {
      var t := p[..|p| - 1];
      GoodPrefixMaximal(k, u, t);
      assert n <= |t| && t[..n] == p[..n];
      if n < |t| {
        assert t[..n + 1] == p[..n + 1];
      } else {
        assert p[..n + 1] == p;
      }
    }
  }

  /** A connection about to read the payload of a frame, nothing of it buffered yet. */
  ghost predicate AtPayload(cfg: Config, c: Conn) {
    && cfg.capacity > 0 && c.Open? && Valid(cfg, c.rx) && c.rx.state.Data? && c.rx.buf == []
  }

  /** The connection once the payload octets `q`, but not yet all, have arrived unobjectionably. */
  function Arrived(cfg: Config, c: Conn, q: bytes): Conn
    requires cfg.capacity > 0 && c.Open? && |q| <= c.rx.size
  {
    var k := Kind(c.rx);
    Open(c.rx.(size := c.rx.size - |q|, buf := Leftover(cfg.capacity, q), utf8 := Validate(k, c.rx.utf8, q)),
         c.log + Flushes(k, Chunks(cfg.capacity, q)))
  }

  lemma {:induction false} FlushesConcat(k: Opcode, a: seq<bytes>, b: seq<bytes>)
    ensures Flushes(k, a + b) == Flushes(k, a) + Flushes(k, b)
    decreases |a|
  {
    if a == [] {
      assert a + b == b;
    } else {
      assert (a + b)[1..] == a[1..] + b;
      FlushesConcat(k, a[1..], b);
    }
  }

  lemma ArrivedSettled(cfg: Config, c: Conn, q: bytes)
    requires AtPayload(cfg, c) && |q| < c.rx.size && Validate(Kind(c.rx), c.rx.utf8, q) != Utf8.INVALID
    ensures Settled(cfg, Arrived(cfg, c, q))
  {}

  /** The effect of one more payload octet on the arrived part, before any delivery. */
  lemma ArrivedOctet(cfg: Config, c: Conn, q: bytes, b: byte, x: byte)
    requires AtPayload(cfg, c) && |q| < c.rx.size && Validate(Kind(c.rx), c.rx.utf8, q) != Utf8.INVALID
    requires x == if c.rx.masked then Xor(b, c.rx.mask[|q| % cfg.capacity % 4]) else b
    ensures var k, d := Kind(c.rx), Arrived(cfg, c, q);
            OnData(d, b) ==
            if Validate(k, c.rx.utf8, q + [x]) == Utf8.INVALID then Fail(d, CLOSE_INVALID_DATA)
            else d.(rx := d.rx.(size := d.rx.size - 1, buf := d.rx.buf + [x], utf8 := Validate(k, c.rx.utf8, q + [x])))
  {
    LeftoverSize(cfg.capacity, q);
    ValidateSnoc(Kind(c.rx), c.rx.utf8, q, x);
  }

  function Flush(k: Opcode, cap: nat, l: bytes): seq<Event> {
    if |l| == cap && IsType(k) then [Message(EncodingOf(k), false, l)] else []
  }

  /** One more octet may fill the buffer; then exactly that buffer is passed on. */
  lemma FlushesSnoc(k: Opcode, cap: nat, q: bytes, x: byte)
    requires cap > 0
    ensures Flushes(k, Chunks(cap, q + [x])) == Flushes(k, Chunks(cap, q)) + Flush(k, cap, Leftover(cap, q) + [x])
  {
    var l := Leftover(cap, q) + [x];
    var parts := if |l| == cap then [l] else [];
    ChunksSnoc(cap, q, x);
    FlushesConcat(k, Chunks(cap, q), parts);
    assert |l| == cap ==> parts[1..] == [];
  }

  lemma ArrivedSnoc(cfg: Config, c: Conn, q: bytes, b: byte, x: byte)
    requires AtPayload(cfg, c) && |q| + 1 < c.rx.size && Validate(Kind(c.rx), c.rx.utf8, q) != Utf8.INVALID
    requires x == if c.rx.masked then Xor(b, c.rx.mask[|q| % cfg.capacity % 4]) else b
    requires Validate(Kind(c.rx), c.rx.utf8, q + [x]) != Utf8.INVALID
    ensures Settled(cfg, Arrived(cfg, c, q))
    ensures Feed(cfg, Arrived(cfg, c, q), b) == Arrived(cfg, c, q + [x])
  {
    var d := Arrived(cfg, c, q);
    ArrivedSettled(cfg, c, q);
    ArrivedOctet(cfg, c, q, b, x);
    FeedData(cfg, d, b);
    SettledOctet(cfg, c, q, x, OnData(d, b));
  }

  lemma FeedData(cfg: Config, d: Conn, b: byte)
    requires cfg.capacity > 0 && d.Open? && Settled(cfg, d) && d.rx.state.Data?
    ensures ValidConn(cfg, OnData(d, b)) && Feed(cfg, d, b) == Settle(cfg, OnData(d, b))
  {
    hide OnData;
    ConsumeValid(cfg, d, b);
  }

  /** A buffer that the octet fills is passed on. */
  lemma SettledOctet(cfg: Config, c: Conn, q: bytes, x: byte, e: Conn)
    requires AtPayload(cfg, c) && |q| + 1 < c.rx.size && ValidConn(cfg, e)
    requires var d := Arrived(cfg, c, q);
             e == d.(rx := d.rx.(size := d.rx.size - 1, buf := d.rx.buf + [x],
               utf8 := Validate(Kind(c.rx), c.rx.utf8, q + [x])))
    ensures Settle(cfg, e) == Arrived(cfg, c, q + [x])
  {
    hide Validate, Valid;
    ChunksSnoc(cfg.capacity, q, x);
    FlushesSnoc(Kind(c.rx), cfg.capacity, q, x);
    var k := Kind(c.rx);
    Associative(c.log, Flushes(k, Chunks(cfg.capacity, q)), Flush(k, cfg.capacity, Leftover(cfg.capacity, q) + [x]));
    assert e.log + [] == e.log;
  }

  /** Validity is lost once and for all. */
  lemma {:induction false} ValidPrefixes(k: Opcode, u: Utf8.State, q: bytes, n: nat)
    requires n <= |q| && Validate(k, u, q) != Utf8.INVALID
    ensures Validate(k, u, q[..n]) != Utf8.INVALID
    decreases |q| - n
  {
    if n == |q| {
      assert q[..n] == q;
    } else {
      ValidPrefixes(k, u, q, n + 1);
      assert q[..n + 1] == q[..n] + [q[n]];
      ValidateSnoc(k, u, q[..n], q[n]);
      Utf8.InvalidIsTrap([q[n]]);
      assert Utf8.Run(Utf8.INVALID, [q[n]]) == Utf8.Run(Utf8.Parse(Utf8.INVALID, q[n]), []);
    }
  }

  /** Reading octets of a payload that is not complete yet and has not failed. */
  lemma {:induction false} BodyArrives(cfg: Config, c: Conn, r: bytes, q: bytes)
    requires AtPayload(cfg, c) && |r| < c.rx.size
    requires q == UnmaskBuffered(KeyOf(c.rx), cfg.capacity, r)
    requires Validate(Kind(c.rx), c.rx.utf8, q) != Utf8.INVALID
    ensures Settled(cfg, c) && Run(cfg, c, r) == Arrived(cfg, c, q)
    decreases |r|
  {
    if r == [] {
      assert c.log + [] == c.log;
    } else {
      var t, b := r[..|r| - 1], r[|r| - 1];
      var p, x := q[..|q| - 1], q[|q| - 1];
      UnmaskPrefix(KeyOf(c.rx), cfg.capacity, r, |t|);
      ValidPrefixes(Kind(c.rx), c.rx.utf8, q, |p|);
      hide Feed, Validate, Arrived, Settled;
      BodyArrives(cfg, c, t, p);
      Around(q, |p|);
      ArrivedSnoc(cfg, c, p, b, x);
      RunSnoc(cfg, c, t, b);
      Around(r, |t|);
    }
  }

  ghost predicate Shows(c: Conn, log: seq<Event>, t: Trace) {
    c.log == log + t.events && c.Open? == t.open
  }

  /** The octet that makes a payload invalid closes the connection; what follows is swallowed. */
  lemma BodyFails(cfg: Config, c: Conn, r: bytes, q: bytes)
    requires AtPayload(cfg, c) && |r| <= c.rx.size
    requires q == UnmaskBuffered(KeyOf(c.rx), cfg.capacity, r)
    requires GoodPrefix(Kind(c.rx), c.rx.utf8, q) < |q|
    ensures Settled(cfg, c)
    ensures Shows(Run(cfg, c, r), c.log, PartialFrame(cfg.capacity, Kind(c.rx), c.rx.utf8, q))
  {
    hide Run;
    var k, u := Kind(c.rx), c.rx.utf8;
    var n := GoodPrefix(k, u, q);
    GoodPrefixMaximal(k, u, q);
    UnmaskPrefix(KeyOf(c.rx), cfg.capacity, r, n);
    BodyArrives(cfg, c, r[..n], q[..n]);
    Around(q, n);
    Around(r, n);
    ArrivedOctet(cfg, c, q[..n], r[n], q[n]);
    var d := Fail(Arrived(cfg, c, q[..n]), CLOSE_INVALID_DATA);
    RunSnoc(cfg, c, r[..n], r[n]);
    RunConcat(cfg, c, r[..n] + [r[n]], r[n + 1..]);
    RunShut(cfg, d, r[n + 1..]);
  }

  /** An incomplete payload shows what the whole-buffer decoder says. */
  lemma PartialRuns(cfg: Config, c: Conn, r: bytes)
    requires AtPayload(cfg, c) && |r| < c.rx.size
    ensures var q := UnmaskBuffered(KeyOf(c.rx), cfg.capacity, r);
            && Settled(cfg, c)
            && Shows(Run(cfg, c, r), c.log, PartialFrame(cfg.capacity, Kind(c.rx), c.rx.utf8, q))
  {
    var k, u := Kind(c.rx), c.rx.utf8;
    var q := UnmaskBuffered(KeyOf(c.rx), cfg.capacity, r);
    GoodPrefixMaximal(k, u, q);
    if GoodPrefix(k, u, q) == |q| {
      assert q[..|q|] == q;
      BodyArrives(cfg, c, r, q);
    } else {
      BodyFails(cfg, c, r, q);
    }
  }

  // ---- Whole frames ----

  /** The connection shows a frame's result and is back between frames, or closed. */
  ghost predicate Ends(c: Conn, log: seq<Event>, f: FrameResult) {
    && Shows(c, log, f.trace)
    && (c.Open? ==> c.rx.state.OpcodeOctet? && c.rx.frag == f.frag && c.rx.saved == f.saved)
  }

  function ResultOf(cfg: Config, c: Conn, q: bytes): FrameResult
    requires cfg.capacity > 0 && c.Open? && (Kind(c.rx).Close? ==> |q| >= 2)
  {
    CompleteFrame(cfg, Kind(c.rx), c.rx.fin, c.rx.frag, c.rx.saved, c.rx.utf8, q)
  }

  lemma EmptyFrameRuns(cfg: Config, c: Conn)
    requires AtPayload(cfg, c) && c.rx.size == 0
    ensures Pending(cfg, c) && Ends(Deliver(cfg, c), c.log, ResultOf(cfg, c, []))
  {
    assert Chunks(cfg.capacity, []) == [];
  }

  /** The state just before a final delivery determines the result of the frame. */
  lemma FinalDelivery(cfg: Config, c: Conn, p: bytes, e: Conn)
    requires AtPayload(cfg, c) && p != [] && (Kind(c.rx).Close? ==> |p| >= 2)
    requires Validate(Kind(c.rx), c.rx.utf8, p) != Utf8.INVALID
    requires var body := p[..|p| - 1];
             && e.Open? && Pending(cfg, e) && Valid(cfg, e.rx)
             && e.rx == c.rx.(size := 0, buf := Leftover(cfg.capacity, body) + [p[|p| - 1]],
                              utf8 := Validate(Kind(c.rx), c.rx.utf8, p))
             && e.log == c.log + Flushes(Kind(c.rx), Chunks(cfg.capacity, body))
    requires !IsType(Kind(c.rx)) ==> e.rx.buf == p && e.log == c.log
    ensures Ends(Deliver(cfg, e), c.log, ResultOf(cfg, c, p))
  {
    var k := Kind(c.rx);
    var flushed := Flushes(k, Chunks(cfg.capacity, p[..|p| - 1]));
    var last := e.rx.buf;
    if k.Text? {
      Associative(c.log, flushed, [Message(Utf8Text, e.rx.fin, last)]);
      Associative(c.log, flushed, [TransportClosed, Event.Closed(CLOSE_INVALID_DATA, [])]);
    } else if k.Binary? {
      Associative(c.log, flushed, [Message(BinaryData, e.rx.fin, last)]);
    }
  }

  /** The last octet of an unobjectionable payload triggers the final delivery. */
  lemma LastOctet(cfg: Config, c: Conn, q: bytes, b: byte, x: byte)
    requires AtPayload(cfg, c) && |q| + 1 == c.rx.size
    requires Validate(Kind(c.rx), c.rx.utf8, q) != Utf8.INVALID
    requires x == if c.rx.masked then Xor(b, c.rx.mask[|q| % cfg.capacity % 4]) else b
    requires Validate(Kind(c.rx), c.rx.utf8, q + [x]) != Utf8.INVALID
    ensures Settled(cfg, Arrived(cfg, c, q))
    ensures Ends(Feed(cfg, Arrived(cfg, c, q), b), c.log, ResultOf(cfg, c, q + [x]))
  {
    hide OnData, Deliver, Validate, ResultOf, Valid, Leftover, Flushes, Chunks;
    var d := Arrived(cfg, c, q);
    ArrivedSettled(cfg, c, q);
    ArrivedOctet(cfg, c, q, b, x);
    ConsumeValid(cfg, d, b);
    LastDelivered(cfg, c, q, x, OnData(d, b));
  }

  lemma LastDelivered(cfg: Config, c: Conn, q: bytes, x: byte, e: Conn)
    requires AtPayload(cfg, c) && |q| + 1 == c.rx.size
    requires Validate(Kind(c.rx), c.rx.utf8, q + [x]) != Utf8.INVALID
    requires var d := Arrived(cfg, c, q);
             && e.Open? && Valid(cfg, e.rx)
             && e == d.(rx := d.rx.(size := d.rx.size - 1, buf := d.rx.buf + [x],
                  utf8 := Validate(Kind(c.rx), c.rx.utf8, q + [x])))
    ensures Pending(cfg, e) && Ends(Deliver(cfg, e), c.log, ResultOf(cfg, c, q + [x]))
  {
    hide Deliver, Validate, ResultOf, Chunks, Leftover, Flushes;
    var p := q + [x];
    assert p[..|p| - 1] == q;
    if !IsType(Kind(c.rx)) {
      ControlWhole(cfg, c, q, x);
    }
    FinalDelivery(cfg, c, p, e);
  }

  /** A control frame is delivered in one piece. */
  lemma ControlWhole(cfg: Config, c: Conn, q: bytes, x: byte)
    requires AtPayload(cfg, c) && |q| + 1 == c.rx.size && !IsType(Kind(c.rx))
    ensures Leftover(cfg.capacity, q) + [x] == q + [x] && c.log + Flushes(Kind(c.rx), Chunks(cfg.capacity, q)) == c.log
  {}

  lemma CompleteRuns(cfg: Config, c: Conn, r: bytes)
    requires AtPayload(cfg, c) && |r| == c.rx.size > 0
    ensures Settled(cfg, c)
    ensures Ends(Run(cfg, c, r), c.log, ResultOf(cfg, c, UnmaskBuffered(KeyOf(c.rx), cfg.capacity, r)))
  {
    hide Run;
    var k, u := Kind(c.rx), c.rx.utf8;
    var q := UnmaskBuffered(KeyOf(c.rx), cfg.capacity, r);
    GoodPrefixMaximal(k, u, q);
    if GoodPrefix(k, u, q) < |q| {
      BodyFails(cfg, c, r, q);
    } else {
      var n := |q| - 1;
      assert q[..|q|] == q;
      ValidPrefixes(k, u, q, n);
      UnmaskPrefix(KeyOf(c.rx), cfg.capacity, r, n);
      BodyArrives(cfg, c, r[..n], q[..n]);
      Around(q, n);
      Around(r, n);
      LastOctet(cfg, c, q[..n], r[n], q[n]);
      RunSnoc(cfg, c, r[..n], r[n]);
    }
  }

  // ---- Whole buffers ----

  lemma ReadHeaderPrefix(bs: bytes)
    requires |bs| >= 2 && |bs| >= HeaderSize(bs[1])
    ensures ReadHeader(bs[..HeaderSize(bs[1])]) == ReadHeader(bs)
  {
    var n := HeaderSize(bs[1]);
    var ext := ExtendedOctets(bs[1] % 128);
    assert bs[..n][2..2 + ext] == bs[2..2 + ext];
    assert bs[1] >= 128 ==> bs[..n][2 + ext..6 + ext] == bs[2 + ext..6 + ext];
  }

  /** The first or the second octet of a frame is objectionable. */
  lemma RefusedHeader(cfg: Config, c: Conn, bs: bytes)
    requires cfg.capacity > 0 && c.Open? && Valid(cfg, c.rx) && c.rx.state.OpcodeOctet? && bs != []
    requires !MayStart(bs[0], c.rx.frag)
          || (|bs| >= 2 && SizeFault(cfg, ByteToOpcode(bs[0]), bs[1] % 128) != 0)
    ensures Shows(Run(cfg, c, bs), c.log, Decode(cfg, c.rx.frag, c.rx.saved, bs))
  {
    var d := OnOpcode(c, bs[0]);
    OpcodeValid(cfg, c, bs[0]);
    assert Feed(cfg, c, bs[0]) == d;
    if d.Shut? {
      RunShut(cfg, d, bs[1..]);
    } else {
      var e := OnSize(cfg, d, bs[1]);
      SizeValid(cfg, d, bs[1]);
      assert Feed(cfg, d, bs[1]) == e;
      RunShut(cfg, e, bs[1..][1..]);
    }
  }

  /** A complete frame, then the rest of the buffer. */
  lemma FrameRuns(cfg: Config, c: Conn, d: Conn, body: bytes)
    requires AtPayload(cfg, c) && |body| >= c.rx.size && d == Settle(cfg, c)
    ensures Settled(cfg, d)
    ensures var r := body[..c.rx.size];
            var q := UnmaskBuffered(KeyOf(c.rx), cfg.capacity, r);
            Ends(Run(cfg, d, r), c.log, ResultOf(cfg, c, q))
  {
    var r := body[..c.rx.size];
    if c.rx.size == 0 {
      EmptyFrameRuns(cfg, c);
      DeliverValid(cfg, c);
      assert UnmaskBuffered(KeyOf(c.rx), cfg.capacity, r) == [];
    } else {
      CompleteRuns(cfg, c, r);
    }
  }

  /**
   * Octet by octet, in any split, the machine shows what the whole-buffer decoder reads: the
   * same events in the same order, and it is closed exactly when the decoder stops at a fault
   * or a close frame.
   */
  lemma {:induction false} DecoderRefined(cfg: Config, c: Conn, bs: bytes)
    requires 0 < cfg.capacity < 0x1_0000 && c.Open? && Valid(cfg, c.rx) && c.rx.state.OpcodeOctet?
    ensures Shows(Run(cfg, c, bs), c.log, Decode(cfg, c.rx.frag, c.rx.saved, bs))
    decreases |bs|, 1
  {
    if bs == [] {
    } else if !MayStart(bs[0], c.rx.frag) {
      RefusedHeader(cfg, c, bs);
    } else if |bs| == 1 {
      OpcodeValid(cfg, c, bs[0]);
      assert Run(cfg, c, bs) == Run(cfg, OnOpcode(c, bs[0]), []);
    } else if SizeFault(cfg, ByteToOpcode(bs[0]), bs[1] % 128) != 0 {
      RefusedHeader(cfg, c, bs);
    } else if |bs| < HeaderSize(bs[1]) {
      HeaderIncomplete(cfg, c, bs);
    } else {
      AfterHeader(cfg, c, bs);
    }
  }

  /**
   * So it is for the calls of an instance: however the octets were split, and however often the
   * host refused a delivery, once nothing is owed it has seen what the decoder reads in all of them.
   */
  lemma CallsDecode(cfg: Config, c: Conn, calls: seq<Call>)
    requires 0 < cfg.capacity < 0x1_0000 && c.Open? && Valid(cfg, c.rx) && c.rx.state.OpcodeOctet?
    requires Calls(cfg, c, calls) && !Pending(cfg, Last(c, calls))
    ensures Shows(Last(c, calls), c.log, Decode(cfg, c.rx.frag, c.rx.saved, Taken(calls)))
  {
    hide Calls, Valid, Run, Decode;
    BetweenFrames(cfg, c);
    NothingIsLost(cfg, c, calls);
    DecoderRefined(cfg, c, Taken(calls));
  }

  lemma BetweenFrames(cfg: Config, c: Conn)
    requires c.Open? && Valid(cfg, c.rx) && c.rx.state.OpcodeOctet?
    ensures Settled(cfg, c)
  {}

  lemma AfterHeader(cfg: Config, c: Conn, bs: bytes)
    requires |bs| >= 2 && |bs| >= HeaderSize(bs[1]) && Starts(cfg, c, bs[0], bs[1]) && cfg.capacity < 0x1_0000
    ensures Shows(Run(cfg, c, bs), c.log, Decode(cfg, c.rx.frag, c.rx.saved, bs))
    decreases |bs|, 0
  {
    hide Run;
    var h := ReadHeader(bs);
    var body := bs[h.size..];
    var d := Headed(c, h);
    ReadHeaderPrefix(bs);
    HeaderRuns(cfg, c, bs[..h.size]);
    RunConcat(cfg, c, bs[..h.size], body);
    Cut(bs, 0, h.size);
    ControlLength(bs);
    if |body| < h.length {
      PartialRuns(cfg, d, body);
    } else {
      var e := Settle(cfg, d);
      FrameRuns(cfg, d, e, body);
      var q := UnmaskBuffered(h.key, cfg.capacity, body[..h.length]);
      var f := Run(cfg, e, body[..h.length]);
      var t := Trace([], true);
      if f.Open? {
        DecoderRefined(cfg, f, body[h.length..]);
        t := Decode(cfg, f.rx.frag, f.rx.saved, body[h.length..]);
      }
      ThenRest(cfg, e, body, h.length, c.log, ResultOf(cfg, d, q), t);
    }
  }

  lemma ThenRest(cfg: Config, e: Conn, body: bytes, n: nat, log: seq<Event>, r: FrameResult, t: Trace)
    requires cfg.capacity > 0 && Settled(cfg, e) && n <= |body|
    requires var f := Run(cfg, e, body[..n]);
             Ends(f, log, r) && (f.Open? ==> Shows(Run(cfg, f, body[n..]), f.log, t))
    ensures Shows(Run(cfg, e, body), log,
                  if r.trace.open then Trace(r.trace.events + t.events, t.open) else r.trace)
  {
    hide Run, Feed, Valid, Pending;
    var f := Run(cfg, e, body[..n]);
    RunConcat(cfg, e, body[..n], body[n..]);
    Cut(body, 0, n);
    if f.Shut? {
      RunShut(cfg, f, body[n..]);
    } else {
      Associative(log, r.trace.events, t.events);
    }
  }
}
