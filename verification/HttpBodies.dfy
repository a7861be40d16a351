// Bodies of HTTP responses: as long as announced, or in chunks (section 4.1 of RFC 7230).

module HttpBodies {
  import opened Octets
  import opened Headers
  import opened Http
  import opened HttpRuns

  /** What was seen, with more of the body. */
  function WithBody(s: Seen, data: bytes): Seen {
    s.(body := s.body + data)
  }

  function WithNotes(s: Seen, notes: seq<Note>): Seen {
    s.(notes := s.notes + notes)
  }

  lemma BodyOctet(s: Seen, c: Core, b: byte)
    ensures Report(s, Move(c, false, Take(BodyData), []), b) == WithBody(s, [b])
    ensures WithBody(s, []) == s
    ensures Over(s) == Over(WithBody(s, [b]))
  {
    assert s.notes + [] == s.notes;
    assert s.body + [] == s.body;
  }

  lemma MoreBody(s: Seen, x: bytes, y: bytes)
    ensures WithBody(WithBody(s, x), y) == WithBody(s, x + y)
  {
    Associative(s.body, x, y);
  }

  /** The body ends with the octet that makes it as long as announced, and the message with it. */
  lemma {:induction false} IdentityBody(m: Machine, s: bytes)
    requires Valid(m) && !Stopped(m) && m.core.state.BodyIdentity? && |s| <= m.core.length
    ensures var r := Run(m, s);
            && r.core.errno.Ok? && r.taken == m.taken + |s| && r.seen.body == m.seen.body + s
            && (if |s| < m.core.length then
                  r.seen == WithBody(m.seen, s) && r.core == m.core.(length := m.core.length - |s|)
                else
                  && r.seen == WithNotes(WithBody(m.seen, s), [MessageComplete])
                  && r.core == Complete(m.core.(length := 0)).core)
    decreases |s|
  {
    if s == [] {
      assert m.seen.body + [] == m.seen.body;
    } else {
      BodyOctet(m.seen, m.core, s[0]);
      MoreBody(m.seen, [s[0]], s[1..]);
      assert [s[0]] + s[1..] == s;
      NextValid(m, s[0]);
      if m.core.length > 1 {
        IdentityBody(Next(m, s[0]), s[1..]);
      } else {
        assert s[1..] == [];
      }
    }
  }

  /** Without a length the body is all there is until the connection ends. */
  lemma {:induction false} EofBody(m: Machine, s: bytes)
    requires !Stopped(m) && m.core.state.BodyIdentityEof?
    ensures Run(m, s) == Machine(m.core, WithBody(m.seen, s), m.taken + |s|)
    ensures AtEof(Run(m, s)).seen == WithNotes(WithBody(m.seen, s), [MessageComplete])
    decreases |s|
  {
    if s == [] {
      assert m.seen.body + [] == m.seen.body;
    } else {
      BodyOctet(m.seen, m.core, s[0]);
      MoreBody(m.seen, [s[0]], s[1..]);
      assert [s[0]] + s[1..] == s;
      EofBody(Next(m, s[0]), s[1..]);
    }
  }

  // ---- Chunks ----

  /** A chunk as it is written: its size in hexadecimal, possibly parameters, its data. */
  datatype Chunk = Chunk(size: bytes, parameters: bytes, data: bytes)

  predicate IsParameters(p: bytes) {
    p == [] || ((p[0] == SEMICOLON || p[0] == SPACE) && CR !in p)
  }

  /** A size line says `n`, and is not too long. */
  predicate IsSizeLine(size: bytes, parameters: bytes, n: nat) {
    && size != [] && Numeral(16, size) && ValueOf(16, size) == n < Limit(16)
    && IsParameters(parameters) && |size| + |parameters| + 2 <= MAX_HEADER_SIZE
  }

  predicate IsChunk(c: Chunk) {
    c.data != [] && IsSizeLine(c.size, c.parameters, |c.data|)
  }

  function SizeLine(size: bytes, parameters: bytes): bytes {
    size + parameters + [CR, LF]
  }

  function ChunkText(c: Chunk): bytes {
    SizeLine(c.size, c.parameters) + c.data + [CR, LF]
  }

  function ChunkTexts(cs: seq<Chunk>): bytes {
    if cs == [] then [] else ChunkText(cs[0]) + ChunkTexts(cs[1..])
  }

  function Data(cs: seq<Chunk>): bytes {
    if cs == [] then [] else cs[0].data + Data(cs[1..])
  }

  function Notes(cs: seq<Chunk>): seq<Note> {
    if cs == [] then [] else [ChunkHeader(|cs[0].data|), ChunkComplete] + Notes(cs[1..])
  }

  /** Between chunks. */
  predicate AtChunk(m: Machine) {
    !Stopped(m) && Valid(m) && m.core.state.ChunkSizeStart? && !m.core.flags.trailing
  }

  lemma {:induction false} DigitsQuiet(m: Machine, ds: bytes)
    requires !Stopped(m) && m.core.state.ChunkSize? && Numeral(16, ds)
    ensures Run(m, ds).core.errno.Ok? ==>
              && Run(m, ds).seen == m.seen
              && Run(m, ds).core == m.core.(length := Run(m, ds).core.length, nread := m.core.nread + |ds|)
    decreases |ds|
  {
    if ds != [] {
      assert ds[0] in ds && ds[0] != CR;
      assert m.seen.notes + [] == m.seen.notes;
      if Next(m, ds[0]).core.errno.Ok? {
        DigitsQuiet(Next(m, ds[0]), ds[1..]);
      } else {
        RunStopped(Next(m, ds[0]), ds[1..]);
      }
    }
  }

  lemma {:induction false} ParametersQuiet(m: Machine, p: bytes)
    requires !Stopped(m) && m.core.state.ChunkParameters? && CR !in p && m.core.nread + |p| <= MAX_HEADER_SIZE
    ensures Run(m, p) == Machine(m.core.(nread := m.core.nread + |p|), m.seen, m.taken + |p|)
    decreases |p|
  {
    if p != [] {
      assert p[0] in p;
      assert m.seen.notes + [] == m.seen.notes;
      ParametersQuiet(Next(m, p[0]), p[1..]);
    }
  }

  /** The size and the parameters, up to the end of the line. */
  lemma SizeRead(m: Machine, size: bytes, parameters: bytes, n: nat)
    requires AtChunk(m) && IsSizeLine(size, parameters, n)
    ensures var r := Run(m, size + parameters);
            && !Stopped(r) && r.seen == m.seen && r.core.length == n && r.core.flags == m.core.flags
            && r.core.nread + 2 <= MAX_HEADER_SIZE
            && (r.core.state.ChunkSize? || r.core.state.ChunkParameters?)
  {
    ChunkSizeExact(m, size);
    RunConcat(m, size, parameters);
    assert size[0] in size;
    assert m.seen.notes + [] == m.seen.notes;
    DigitsQuiet(Next(m, size[0]), size[1..]);
    var r := Run(m, size);
    if parameters != [] {
      ParametersStart(r, parameters);
      ParametersQuiet(Next(r, parameters[0]), parameters[1..]);
    }
  }

  lemma ParametersStart(m: Machine, p: bytes)
    requires !Stopped(m) && m.core.state.ChunkSize? && p != [] && IsParameters(p) && m.core.nread < MAX_HEADER_SIZE
    ensures Next(m, p[0]) == Machine(m.core.(state := ChunkParameters, nread := m.core.nread + 1), m.seen, m.taken + 1)
    ensures CR !in p[1..]
  {
    assert p[0] in p;
    assert m.seen.notes + [] == m.seen.notes;
  }

  lemma SizeEnds(m: Machine)
    requires !Stopped(m) && (m.core.state.ChunkSize? || m.core.state.ChunkParameters?) && m.core.nread < MAX_HEADER_SIZE
    ensures Next(m, CR)
         == Machine(m.core.(state := ChunkSizeAlmostDone, nread := m.core.nread + 1), m.seen, m.taken + 1)
  {
    assert m.seen.notes + [] == m.seen.notes;
  }

  lemma LineEnd(m: Machine)
    requires !Stopped(m) && (m.core.state.ChunkSize? || m.core.state.ChunkParameters?)
    requires m.core.nread + 2 <= MAX_HEADER_SIZE
    ensures var r := Run(m, [CR, LF]);
            && !Stopped(r) && r.seen == WithNotes(m.seen, [ChunkHeader(m.core.length)])
            && r.core.length == m.core.length && r.core.nread == 0
            && r.core.flags == m.core.flags.(trailing := m.core.flags.trailing || m.core.length == 0)
            && r.core.state == if m.core.length == 0 then FieldStart else ChunkData
  {
    RunTwo(m, CR, LF);
    SizeEnds(m);
  }

  lemma SizeLineRun(m: Machine, size: bytes, parameters: bytes, n: nat)
    requires AtChunk(m) && IsSizeLine(size, parameters, n)
    ensures var r := Run(m, SizeLine(size, parameters));
            && !Stopped(r) && r.seen == WithNotes(m.seen, [ChunkHeader(n)])
            && r.core.length == n && r.core.nread == 0
            && r.core.flags == m.core.flags.(trailing := n == 0)
            && r.core.state == if n == 0 then FieldStart else ChunkData
  {
    hide Next, Stopped, Valid, IsSizeLine;
    SizeRead(m, size, parameters, n);
    RunConcat(m, size + parameters, [CR, LF]);
    LineEnd(Run(m, size + parameters));
  }

  lemma {:induction false} DataRun(m: Machine, s: bytes)
    requires !Stopped(m) && m.core.state.ChunkData? && s != [] && |s| <= m.core.length
    ensures Run(m, s) == Machine(m.core.(length := m.core.length - |s|,
                                         state := if |s| == m.core.length then ChunkDataAlmostDone else ChunkData),
                                 WithBody(m.seen, s), m.taken + |s|)
    decreases |s|
  {
    BodyOctet(m.seen, m.core, s[0]);
    MoreBody(m.seen, [s[0]], s[1..]);
    assert [s[0]] + s[1..] == s;
    if |s| > 1 {
      DataRun(Next(m, s[0]), s[1..]);
    } else {
      assert s[1..] == [];
      BodyOctet(WithBody(m.seen, s), m.core, s[0]);
    }
  }

  lemma DataEnd(m: Machine)
    requires !Stopped(m) && m.core.state.ChunkDataAlmostDone?
    ensures var r := Run(m, [CR, LF]);
            && !Stopped(r) && r.seen == WithNotes(m.seen, [ChunkComplete])
            && r.core == m.core.(state := ChunkSizeStart, nread := 0)
  {
    RunTwo(m, CR, LF);
    assert m.seen.notes + [] == m.seen.notes;
  }

  lemma OneChunk(m: Machine, c: Chunk)
    requires AtChunk(m) && IsChunk(c)
    ensures AtChunk(Run(m, ChunkText(c)))
    ensures Run(m, ChunkText(c)).seen == WithNotes(WithBody(m.seen, c.data), [ChunkHeader(|c.data|), ChunkComplete])
  {
    hide Next, Valid, IsSizeLine;
    var line := SizeLine(c.size, c.parameters);
    SizeLineRun(m, c.size, c.parameters, |c.data|);
    var a := Run(m, line);
    DataRun(a, c.data);
    var b := Run(a, c.data);
    DataEnd(b);
    RunConcat(m, line, c.data);
    RunConcat(m, line + c.data, [CR, LF]);
    RunValid(m, ChunkText(c));
    assert m.seen.notes + [ChunkHeader(|c.data|)] + [ChunkComplete]
        == m.seen.notes + [ChunkHeader(|c.data|), ChunkComplete];
  }

  lemma {:induction false} Chunks(m: Machine, cs: seq<Chunk>)
    requires AtChunk(m) && forall c :: c in cs ==> IsChunk(c)
    ensures AtChunk(Run(m, ChunkTexts(cs)))
    ensures Run(m, ChunkTexts(cs)).seen == WithNotes(WithBody(m.seen, Data(cs)), Notes(cs))
    decreases |cs|
  {
    if cs == [] {
      assert m.seen.body + [] == m.seen.body && m.seen.notes + [] == m.seen.notes;
    } else {
      hide AtChunk, IsChunk, ChunkText, Next;
      var c, rest := cs[0], cs[1..];
      assert c in cs;
      OneChunk(m, c);
      Chunks(Run(m, ChunkText(c)), rest);
      RunConcat(m, ChunkText(c), ChunkTexts(rest));
      Associative(m.seen.body, c.data, Data(rest));
      Associative(m.seen.notes, [ChunkHeader(|c.data|), ChunkComplete], Notes(rest));
    }
  }

  lemma EmptyLine(m: Machine)
    requires !Stopped(m) && m.core.state.FieldStart? && m.core.flags.trailing && m.core.nread == 0
    ensures var r := Run(m, [CR, LF]);
            && r.core.errno.Ok? && r.taken == m.taken + 2
            && r.seen == WithNotes(m.seen, [ChunkComplete, MessageComplete])
  {
    hide ShouldKeepAlive;
    RunTwo(m, CR, LF);
    assert m.seen.notes + [] == m.seen.notes;
    assert Next(m, CR) == Machine(m.core.(state := HeadersAlmostDone, nread := 1), m.seen, m.taken + 1);
    assert [ChunkComplete] + [MessageComplete] == [ChunkComplete, MessageComplete];
  }

  /** The last chunk is empty; without trailing headers an empty line ends the message. */
  lemma LastChunk(m: Machine, size: bytes, parameters: bytes)
    requires AtChunk(m) && IsSizeLine(size, parameters, 0)
    ensures var text := SizeLine(size, parameters) + [CR, LF];
            && Run(m, text).core.errno.Ok? && Run(m, text).taken == m.taken + |text|
            && Run(m, text).seen == WithNotes(m.seen, [ChunkHeader(0), ChunkComplete, MessageComplete])
  {
    hide Valid, IsSizeLine, Next;
    SizeLineRun(m, size, parameters, 0);
    var line := SizeLine(size, parameters);
    RunConcat(m, line, [CR, LF]);
    RunTaken(m, line);
    EmptyLine(Run(m, line));
    assert m.seen.notes + [ChunkHeader(0)] + [ChunkComplete, MessageComplete]
        == m.seen.notes + [ChunkHeader(0), ChunkComplete, MessageComplete];
  }

  /** A chunked body is decoded to the data of its chunks, and nothing behind it is taken. */
  lemma ChunkedBody(m: Machine, cs: seq<Chunk>, size: bytes, parameters: bytes, rest: bytes)
    requires AtChunk(m) && (forall c :: c in cs ==> IsChunk(c)) && IsSizeLine(size, parameters, 0)
    ensures var text := ChunkTexts(cs) + (SizeLine(size, parameters) + [CR, LF]);
            var r := Run(m, text + rest);
            && r.core.errno.Ok? && Over(r.seen) && r.taken == m.taken + |text|
            && r.seen.body == m.seen.body + Data(cs)
            && r.seen.head == m.seen.head
  {
    hide AtChunk, IsChunk, IsSizeLine, Next;
    var last := SizeLine(size, parameters) + [CR, LF];
    var text := ChunkTexts(cs) + last;
    Chunks(m, cs);
    assert !Stopped(Run(m, ChunkTexts(cs))) by { Between(Run(m, ChunkTexts(cs))); }
    RunTaken(m, ChunkTexts(cs));
    LastChunk(Run(m, ChunkTexts(cs)), size, parameters);
    RunConcat(m, ChunkTexts(cs), last);
    NothingAfterTheMessage(m, text, rest);
  }

  lemma Between(m: Machine)
    requires AtChunk(m)
    ensures !Stopped(m)
  {}
}
