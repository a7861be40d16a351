// Whole chunked responses, from the status line to the trailers.

module HttpMessages {
  import opened Octets
  import opened Headers
  import opened Http
  import opened HttpAnswers
  import opened HttpBodies
  import opened HttpHeads
  import opened HttpNames
  import opened HttpRuns

  lemma LfEndsTrailers(m: Machine)
    requires !Stopped(m) && m.core.state.HeadersAlmostDone? && m.core.flags.trailing && Next(m, LF).core.errno.Ok?
    ensures var r := Next(m, LF);
            && Over(r.seen) && r.taken == m.taken + 1
            && r.seen == WithNotes(m.seen, [ChunkComplete, MessageComplete])
  {
    hide ShouldKeepAlive;
    assert [ChunkComplete] + [MessageComplete] == [ChunkComplete, MessageComplete];
  }

  /** Headers behind the last chunk, and the empty line that ends the message. */
  lemma Trailers(m: Machine, hs: seq<Header>)
    requires AtLine(m) && m.core.flags.trailing && (forall h :: h in hs ==> IsHeader(h))
    requires Run(m, Lines(hs) + [CR, LF]).core.errno.Ok?
    ensures var r := Run(m, Lines(hs) + [CR, LF]);
            && Over(r.seen) && r.taken == m.taken + |Lines(hs)| + 2
            && Completed(r.seen.head) == Spelled(m) + hs && r.seen.body == m.seen.body
  {
    hide Next, AtLine, IsHeader, Spelled, Over;
    var p := Run(m, Lines(hs));
    RunConcat(m, Lines(hs), [CR, LF]);
    RunTaken(p, [CR, LF]);
    RunTaken(m, Lines(hs));
    HeaderLines(m, hs);
    RunTwo(p, CR, LF);
    RunSticks(Next(p, CR), LF);
    CrEndsHead(p);
    LfEndsTrailers(Next(p, CR));
    StillGoing(p);
  }

  /** What follows the chunks: a last, empty one, trailing headers, an empty line. */
  function TailText(size: bytes, parameters: bytes, trailers: seq<Header>): bytes {
    SizeLine(size, parameters) + (Lines(trailers) + [CR, LF])
  }

  lemma TailRun(m: Machine, size: bytes, parameters: bytes, trailers: seq<Header>)
    requires AtChunk(m) && IsSizeLine(size, parameters, 0) && !m.seen.head.part.Name?
    requires forall h :: h in trailers ==> IsHeader(h)
    requires Run(m, TailText(size, parameters, trailers)).core.errno.Ok?
    ensures var r := Run(m, TailText(size, parameters, trailers));
            && Over(r.seen) && r.taken == m.taken + |TailText(size, parameters, trailers)|
            && Completed(r.seen.head) == Completed(m.seen.head) + trailers && r.seen.body == m.seen.body
  {
    hide IsSizeLine, IsHeader, Next;
    var line := SizeLine(size, parameters);
    SizeLineRun(m, size, parameters, 0);
    RunConcat(m, line, Lines(trailers) + [CR, LF]);
    RunTaken(m, line);
    RunValid(m, line);
    Trailers(Run(m, line), trailers);
  }

  lemma LfOk(m: Machine)
    requires !Stopped(m) && m.core.state.HeadersAlmostDone? && m.core.flags.trailing && m.core.nread < MAX_HEADER_SIZE
    ensures Next(m, LF).core.errno.Ok?
  {
    hide ShouldKeepAlive;
  }

  lemma LineFlagsTrailing(m: Machine)
    ensures LineFlags(m).trailing == m.core.flags.trailing
  {
    FinishedSame(m.core);
  }

  /** Trailers that say nothing about a body are not refused. */
  lemma TrailersKept(m: Machine, hs: seq<Header>)
    requires Ready(m) && m.core.flags.trailing && forall h :: h in hs ==> Benign(h)
    requires m.core.nread + |Lines(hs)| + 2 <= MAX_HEADER_SIZE
    ensures Run(m, Lines(hs) + [CR, LF]).core.errno.Ok?
  {
    hide Next, Ready, Benign, LineFlags, Spelled;
    BenignLines(m, hs);
    var p := Run(m, Lines(hs));
    RunConcat(m, Lines(hs), [CR, LF]);
    RunTwo(p, CR, LF);
    EndCr(p);
    LineFlagsTrailing(p);
    LfOk(Next(p, CR));
  }

  /** Neither is what follows the chunks, with such trailers. */
  lemma TailKept(m: Machine, size: bytes, parameters: bytes, trailers: seq<Header>)
    requires AtChunk(m) && IsSizeLine(size, parameters, 0) && forall h :: h in trailers ==> Benign(h)
    requires |Lines(trailers)| + 2 <= MAX_HEADER_SIZE
    ensures Run(m, TailText(size, parameters, trailers)).core.errno.Ok?
  {
    hide IsSizeLine, Benign, Next;
    var line := SizeLine(size, parameters);
    SizeLineRun(m, size, parameters, 0);
    RunConcat(m, line, Lines(trailers) + [CR, LF]);
    RunValid(m, line);
    TrailersKept(Run(m, line), trailers);
  }

  lemma ChunkHolds(m: Machine)
    requires Valid(m) && !Stopped(m) && m.core.state.ChunkSizeStart?
    ensures !m.seen.head.part.Name?
  {}

  /**
   * A chunked response (section 4.1 of RFC 7230), written out and parsed: if neither its head nor
   * its trailers are refused, the body is the data of its chunks, the headers are those of the head
   * and the trailers in order, and nothing behind the message is taken.
   */
  lemma ChunkedResponse(l: StatusLine, hs: seq<Header>, cs: seq<Chunk>, size: bytes, parameters: bytes,
      trailers: seq<Header>, rest: bytes)
    requires IsStatusLine(l) && (forall h :: h in hs ==> IsHeader(h)) && (forall h :: h in trailers ==> IsHeader(h))
    requires (forall c :: c in cs ==> IsChunk(c)) && IsSizeLine(size, parameters, 0)
    requires var h := Run(START, StatusText(l) + Lines(hs) + [CR, LF]); h.core.errno.Ok? && h.core.flags.chunked
    ensures var head := StatusText(l) + Lines(hs) + [CR, LF];
            var text := head + ChunkTexts(cs) + TailText(size, parameters, trailers);
            var r := Run(START, text + rest);
            r.core.errno.Ok? ==>
              && Over(r.seen) && r.taken == |text|
              && r.seen.body == Data(cs)
              && Completed(r.seen.head) == hs + trailers
  {
    hide Next, IsStatusLine, IsHeader, IsChunk, IsSizeLine, AtChunk, Over, TailText, ChunkTexts, Stopped, Valid;
    var head := StatusText(l) + Lines(hs) + [CR, LF];
    var tail := TailText(size, parameters, trailers);
    var text := head + ChunkTexts(cs) + tail;
    HeadRoundTrip(l, hs);
    var a := Run(START, head);
    StartValid();
    RunValid(START, head);
    BetweenChunks(a);
    Chunks(a, cs);
    var b := Run(a, ChunkTexts(cs));
    RunConcat(START, head, ChunkTexts(cs));
    RunConcat(START, head + ChunkTexts(cs), tail);
    RunConcat(START, text, rest);
    RunTaken(Run(START, text), rest);
    if Run(START, text + rest).core.errno.Ok? {
      Between(b);
      ChunkValid(b);
      RunTaken(a, ChunkTexts(cs));
      TailRun(b, size, parameters, trailers);
      NothingAfterTheMessage(START, text, rest);
    }
  }

  /** Behind a head that announces chunks, and with trailers that say nothing about a body, nothing is refused. */
  lemma ChunkedKept(l: StatusLine, hs: seq<Header>, cs: seq<Chunk>, size: bytes, parameters: bytes,
      trailers: seq<Header>, rest: bytes)
    requires IsStatusLine(l) && (forall h :: h in hs ==> IsHeader(h)) && (forall h :: h in trailers ==> Benign(h))
    requires (forall c :: c in cs ==> IsChunk(c)) && IsSizeLine(size, parameters, 0)
    requires var h := Run(START, StatusText(l) + Lines(hs) + [CR, LF]); h.core.errno.Ok? && h.core.flags.chunked
    requires |Lines(trailers)| + 2 <= MAX_HEADER_SIZE
    ensures var text := StatusText(l) + Lines(hs) + [CR, LF] + ChunkTexts(cs) + TailText(size, parameters, trailers);
            var r := Run(START, text + rest);
            && r.core.errno.Ok? && Over(r.seen) && r.taken == |text|
            && r.seen.body == Data(cs) && Completed(r.seen.head) == hs + trailers
  {
    hide Next, IsStatusLine, IsHeader, IsChunk, IsSizeLine, AtChunk, Over, TailText, ChunkTexts, Stopped, Valid, Benign;
    var head := StatusText(l) + Lines(hs) + [CR, LF];
    var tail := TailText(size, parameters, trailers);
    HeadRoundTrip(l, hs);
    var a := Run(START, head);
    StartValid();
    RunValid(START, head);
    BetweenChunks(a);
    Chunks(a, cs);
    var b := Run(a, ChunkTexts(cs));
    TailKept(b, size, parameters, trailers);
    RunConcat(START, head, ChunkTexts(cs));
    RunConcat(START, head + ChunkTexts(cs), tail);
    Between(b);
    ChunkValid(b);
    forall h | h in trailers ensures IsHeader(h) {
      BenignIs(h);
    }
    TailRun(b, size, parameters, trailers);
    NothingAfterTheMessage(START, head + ChunkTexts(cs) + tail, rest);
    ChunkedResponse(l, hs, cs, size, parameters, trailers, rest);
  }

  lemma StartValid()
    ensures Valid(START)
  {}

  lemma BetweenChunks(m: Machine)
    requires Valid(m) && !Stopped(m) && m.core.state.ChunkSizeStart? && !m.core.flags.trailing
    ensures AtChunk(m)
  {}

  lemma ChunkValid(m: Machine)
    requires AtChunk(m)
    ensures Valid(m) && !m.seen.head.part.Name?
  {
    ChunkHolds(m);
  }
}
