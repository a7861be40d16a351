// The head of an HTTP response, written out and parsed back.

module HttpHeads {
  import opened Octets
  import opened Headers
  import opened Http
  import opened HttpRuns

  predicate IsName(n: bytes) {
    n != [] && forall b :: b in n ==> Token(b) != 0
  }

  /** A value: on one line, without blanks in front, printable. Its first octet is not checked to be printable. */
  predicate IsText(v: bytes) {
    v != [] ==> !IsBlank(v[0]) && !IsLineEnd(v[0]) && forall b :: b in v[1..] ==> IsHeaderChar(b) && !IsLineEnd(b)
  }

  predicate IsHeader(h: Header) {
    IsName(h.name) && IsText(h.value)
  }

  /** Letters, digits and dashes, which may stand in names and in values. */
  predicate IsWord(s: string) {
    s != "" && forall i :: 0 <= i < |s| ==> IsLetter(s[i])
  }

  predicate IsLetter(c: char) {
    'a' <= c <= 'z' || 'A' <= c <= 'Z' || '0' <= c <= '9' || c == '-'
  }

  lemma LetterOk(c: char)
    requires IsLetter(c)
    ensures var b := c as int % 256; Token(b) != 0 && IsHeaderChar(b) && !IsLineEnd(b) && !IsBlank(b)
  {}

  lemma WordName(s: string)
    requires IsWord(s)
    ensures IsName(Ascii(s))
  {
    hide Token;
    forall b | b in Ascii(s) ensures Token(b) != 0 {
      var i :| 0 <= i < |s| && Ascii(s)[i] == b;
      LetterOk(s[i]);
    }
  }

  lemma WordText(s: string)
    requires IsWord(s)
    ensures forall b :: b in Ascii(s) ==> IsHeaderChar(b) && !IsLineEnd(b) && !IsBlank(b)
    ensures IsText(Ascii(s))
  {
    hide IsHeaderChar, IsLineEnd, IsBlank;
    forall b | b in Ascii(s) ensures IsHeaderChar(b) && !IsLineEnd(b) && !IsBlank(b) {
      var i :| 0 <= i < |s| && Ascii(s)[i] == b;
      LetterOk(s[i]);
    }
    assert Ascii(s)[0] in Ascii(s);
  }

  lemma WordHeader(name: string, v: bytes)
    requires IsWord(name) && IsText(v)
    ensures IsHeader(Header(Ascii(name), v))
  {
    hide IsText;
    WordName(name);
  }

  function Line(h: Header): bytes {
    h.name + [COLON, SPACE] + h.value + [CR, LF]
  }

  function Lines(hs: seq<Header>): bytes {
    if hs == [] then [] else Line(hs[0]) + Lines(hs[1..])
  }

  /** Where a header, or the empty line behind the last, may begin. */
  predicate AtLine(m: Machine) {
    && Valid(m) && !Stopped(m)
    && (m.core.state.FieldStart? || m.core.state.ValueLws? || m.core.state.DiscardLws?)
  }

  /** What the next octet will have been told of a header that turns out to have no value. */
  function Settled(m: Machine): Progress {
    if m.core.state.DiscardLws? then Say(m.seen.head, Value([])) else m.seen.head
  }

  function Spelled(m: Machine): seq<Header> {
    Completed(Settled(m))
  }

  /** The part of the state that headers do not touch. */
  predicate SameLine(m: Machine, r: Machine) {
    && r.core.status == m.core.status && r.core.major == m.core.major && r.core.minor == m.core.minor
    && r.core.flags.trailing == m.core.flags.trailing
    && r.seen.body == m.seen.body && r.seen.notes == m.seen.notes
  }

  /** What the start of a line is, once the octet there has finished the header before. */
  function Counted(m: Machine): Core {
    var c := m.core.(nread := m.core.nread + 1);
    if c.state.FieldStart? then c else Finished(c)
  }

  lemma LineFirst(m: Machine, b: byte)
    requires AtLine(m) && !IsBlank(b) && Next(m, b).core.errno.Ok?
    ensures var move := OnFieldStart(Counted(m), b).(empty := m.core.state.DiscardLws?);
            Next(m, b) == Machine(move.core, Report(m.seen, move, b), m.taken + 1) && move.core.errno.Ok?
  {
    hide OnFieldStart, OnValueStart;
    FieldStartPlain(m.core.(nread := m.core.nread + 1), b);
    FieldStartPlain(Finished(m.core.(nread := m.core.nread + 1)), b);
  }

  lemma NameFirst(m: Machine, b: byte)
    requires AtLine(m) && Token(b) != 0 && Next(m, b).core.errno.Ok?
    ensures var r := Next(m, b);
            && !Stopped(r) && r.core.state.InName? && SameLine(m, r)
            && r.seen.head == Progress(Spelled(m), Name([b]))
  {
    hide Next, AtLine, Finished, Spelled, Settled;
    LineFirst(m, b);
    BeginsName(m, b);
    FinishedSame(m.core.(nread := m.core.nread + 1));
    assert m.seen.notes + [] == m.seen.notes;
  }

  /** With the first octet of a name the header before is complete. */
  lemma BeginsName(m: Machine, b: byte)
    requires AtLine(m)
    ensures Say(Settled(m), Field([b])) == Progress(Spelled(m), Name([b]))
    ensures !Stopped(m)
    ensures Settled(m) == if m.core.state.DiscardLws? then AddData(m.seen, ValueData, []).head else m.seen.head
  {}

  lemma FinishedSame(c: Core)
    ensures Finished(c) == c.(flags := Finished(c).flags) && Finished(c).flags.trailing == c.flags.trailing
  {
    hide Flagged;
  }

  lemma NameNext(m: Machine, b: byte)
    requires !Stopped(m) && m.core.state.InName? && m.seen.head.part.Name? && Token(b) != 0 && Next(m, b).core.errno.Ok?
    ensures var r := Next(m, b);
            && !Stopped(r) && r.core.state.InName? && SameLine(m, r)
            && r.seen.head == m.seen.head.(part := Name(m.seen.head.part.name + [b]))
  {
    hide NameStep;
    NameStepKeeps(m.core.(nread := m.core.nread + 1), Token(b), b);
    NameStepTrailing(m.core.(nread := m.core.nread + 1), Token(b), b);
    assert m.seen.notes + [] == m.seen.notes;
  }

  lemma NameStepTrailing(c: Core, t: byte, ch: byte)
    ensures NameStep(c, t, ch).flags.trailing == c.flags.trailing
  {}

  lemma {:induction false} NameRun(m: Machine, s: bytes)
    requires !Stopped(m) && m.core.state.InName? && m.seen.head.part.Name?
    requires (forall b :: b in s ==> Token(b) != 0) && Run(m, s).core.errno.Ok?
    ensures var r := Run(m, s);
            && !Stopped(r) && r.core.state.InName? && SameLine(m, r)
            && r.seen.head == m.seen.head.(part := Name(m.seen.head.part.name + s))
    decreases |s|
  {
    hide Next, Token, Over;
    if s == [] {
      assert m.seen.head.part.name + [] == m.seen.head.part.name;
    } else {
      assert s[0] in s;
      RunTaken(Next(m, s[0]), s[1..]);
      NameNext(m, s[0]);
      NameRun(Next(m, s[0]), s[1..]);
      Associative(m.seen.head.part.name, [s[0]], s[1..]);
      assert [s[0]] + s[1..] == s;
    }
  }

  lemma AfterName(m: Machine, b: byte)
    requires !Stopped(m) && Next(m, b).core.errno.Ok?
    requires (m.core.state.InName? && b == COLON) || (m.core.state.DiscardWs? && b == SPACE)
    ensures var r := Next(m, b);
            !Stopped(r) && r.core.state.DiscardWs? && SameLine(m, r) && r.seen.head == m.seen.head
  {
    assert m.seen.notes + [] == m.seen.notes;
  }

  lemma ValueFirst(m: Machine, b: byte)
    requires !Stopped(m) && m.core.state.DiscardWs? && m.seen.head.part.Name?
    requires !IsLineEnd(b) && !IsBlank(b) && Next(m, b).core.errno.Ok?
    ensures var r := Next(m, b);
            && !Stopped(r) && r.core.state.InText? && SameLine(m, r)
            && r.seen.head == m.seen.head.(part := Both(m.seen.head.part.name, [b]))
  {
    hide Lower;
    assert m.seen.notes + [] == m.seen.notes;
  }

  lemma ValueNext(m: Machine, b: byte)
    requires !Stopped(m) && m.core.state.InText? && m.seen.head.part.Both?
    requires !IsLineEnd(b) && IsHeaderChar(b) && Next(m, b).core.errno.Ok?
    ensures var r := Next(m, b);
            && !Stopped(r) && r.core.state.InText? && SameLine(m, r)
            && r.seen.head == m.seen.head.(part := Both(m.seen.head.part.name, m.seen.head.part.value + [b]))
  {
    hide TextStep;
    TextStepSame(m.core.(nread := m.core.nread + 1), b);
    assert m.seen.notes + [] == m.seen.notes;
  }

  lemma TextStepSame(c: Core, ch: byte)
    ensures var d := TextStep(c, ch);
            && d == c.(header := d.header, index := d.index, flags := d.flags, length := d.length, errno := d.errno)
            && d.flags.trailing == c.flags.trailing
  {
    hide Matched, Token, LengthStep, AfterConnection, TokenStart, Lower;
    AfterConnectionSame(c, ch);
    LengthStepSame(c, ch);
  }

  lemma AfterConnectionSame(c: Core, ch: byte)
    ensures var d := AfterConnection(c, ch);
            d == c.(header := d.header, index := d.index, flags := d.flags) && d.flags.trailing == c.flags.trailing
  {}

  lemma LengthStepSame(c: Core, ch: byte)
    ensures var d := LengthStep(c, ch); d == c.(header := d.header, length := d.length, errno := d.errno)
  {}

  lemma {:induction false} ValueRun(m: Machine, s: bytes)
    requires !Stopped(m) && m.core.state.InText? && m.seen.head.part.Both?
    requires (forall b :: b in s ==> IsHeaderChar(b) && !IsLineEnd(b)) && Run(m, s).core.errno.Ok?
    ensures var r := Run(m, s);
            && !Stopped(r) && r.core.state.InText? && SameLine(m, r)
            && r.seen.head == m.seen.head.(part := Both(m.seen.head.part.name, m.seen.head.part.value + s))
    decreases |s|
  {
    hide Next, IsHeaderChar, Over;
    if s == [] {
      assert m.seen.head.part.value + [] == m.seen.head.part.value;
    } else {
      assert s[0] in s;
      RunTaken(Next(m, s[0]), s[1..]);
      ValueNext(m, s[0]);
      ValueRun(Next(m, s[0]), s[1..]);
      Associative(m.seen.head.part.value, [s[0]], s[1..]);
      assert [s[0]] + s[1..] == s;
    }
  }

  /** The end of a line, behind a value or behind none. */
  lemma LineEnds(m: Machine)
    requires !Stopped(m) && (m.core.state.InText? || m.core.state.DiscardWs?) && Run(m, [CR, LF]).core.errno.Ok?
    ensures var r := Run(m, [CR, LF]);
            && !Stopped(r) && SameLine(m, r) && r.seen.head == m.seen.head
            && r.core.state == if m.core.state.InText? then ValueLws else DiscardLws
  {
    RunTwo(m, CR, LF);
    assert m.seen.notes + [] == m.seen.notes;
    CrEndsText(m);
  }

  lemma CrEndsText(m: Machine)
    requires !Stopped(m) && (m.core.state.InText? || m.core.state.DiscardWs?)
    ensures Next(m, CR).core.errno.Ok? ==>
              Next(m, CR) == Machine(m.core.(nread := m.core.nread + 1,
                                             state := if m.core.state.InText? then HeaderAlmostDone
                                                      else DiscardWsAlmostDone),
                                     m.seen, m.taken + 1)
  {
    assert m.seen.notes + [] == m.seen.notes;
  }

  /** The name of a header and the blank before its value. */
  lemma NamePart(m: Machine, n: bytes)
    requires AtLine(m) && IsName(n) && Run(m, n + [COLON, SPACE]).core.errno.Ok?
    ensures var r := Run(m, n + [COLON, SPACE]);
            && !Stopped(r) && r.core.state.DiscardWs? && SameLine(m, r)
            && r.seen.head == Progress(Spelled(m), Name(n))
  {
    hide Next, Spelled, AtLine;
    var a := Run(m, n);
    RunConcat(m, n, [COLON, SPACE]);
    RunTaken(a, [COLON, SPACE]);
    assert n[0] in n;
    RunTaken(Next(m, n[0]), n[1..]);
    NameFirst(m, n[0]);
    NameRun(Next(m, n[0]), n[1..]);
    assert [n[0]] + n[1..] == n;
    RunTwo(a, COLON, SPACE);
    RunSticks(Next(a, COLON), SPACE);
    AfterName(a, COLON);
    AfterName(Next(a, COLON), SPACE);
  }

  lemma ValuePart(m: Machine, v: bytes)
    requires !Stopped(m) && m.core.state.DiscardWs? && m.seen.head.part.Name? && IsText(v)
    requires Run(m, v + [CR, LF]).core.errno.Ok?
    ensures var r, n := Run(m, v + [CR, LF]), m.seen.head.part.name;
            && !Stopped(r) && SameLine(m, r)
            && r.core.state == (if v == [] then DiscardLws else ValueLws)
            && Settled(r) == m.seen.head.(part := Both(n, v))
  {
    hide Next;
    RunConcat(m, v, [CR, LF]);
    RunTaken(Run(m, v), [CR, LF]);
    if v == [] {
      LineEnds(m);
    } else {
      RunTaken(Next(m, v[0]), v[1..]);
      ValueFirst(m, v[0]);
      ValueRun(Next(m, v[0]), v[1..]);
      assert [v[0]] + v[1..] == v;
      LineEnds(Run(m, v));
    }
  }

  /** A line that is not refused adds its header to the list. */
  lemma HeaderLine(m: Machine, h: Header)
    requires AtLine(m) && IsHeader(h) && Run(m, Line(h)).core.errno.Ok?
    ensures AtLine(Run(m, Line(h))) && Spelled(Run(m, Line(h))) == Spelled(m) + [h] && SameLine(m, Run(m, Line(h)))
  {
    hide Next, Stopped, Valid, IsName, IsText;
    var front := h.name + [COLON, SPACE];
    var back := h.value + [CR, LF];
    assert Line(h) == front + back;
    RunConcat(m, front, back);
    RunTaken(Run(m, front), back);
    NamePart(m, h.name);
    ValuePart(Run(m, front), h.value);
    RunValid(m, Line(h));
  }

  lemma {:induction false} HeaderLines(m: Machine, hs: seq<Header>)
    requires AtLine(m) && (forall h :: h in hs ==> IsHeader(h)) && Run(m, Lines(hs)).core.errno.Ok?
    ensures var r := Run(m, Lines(hs)); AtLine(r) && Spelled(r) == Spelled(m) + hs && SameLine(m, r)
    decreases |hs|
  {
    hide AtLine, IsHeader, Spelled, Line, Next;
    if hs == [] {
      assert Spelled(m) + [] == Spelled(m);
    } else {
      assert hs[0] in hs;
      RunConcat(m, Line(hs[0]), Lines(hs[1..]));
      RunTaken(Run(m, Line(hs[0])), Lines(hs[1..]));
      HeaderLine(m, hs[0]);
      HeaderLines(Run(m, Line(hs[0])), hs[1..]);
      assert Spelled(m) + [hs[0]] + hs[1..] == Spelled(m) + hs;
    }
  }

  /** The empty line: the headers are complete, and without a body an upgraded message is over. */
  lemma HeadEnds(m: Machine)
    requires AtLine(m) && !m.core.flags.trailing && Run(m, [CR, LF]).core.errno.Ok?
    ensures var r := Run(m, [CR, LF]);
            && r.taken == m.taken + 2
            && Completed(r.seen.head) == Spelled(m) && r.seen.body == m.seen.body
            && r.core.status == m.core.status
            && (r.core.flags.chunked ==> !Stopped(r) && r.core.state.ChunkSizeStart? && !r.core.flags.trailing)
            && (r.core.upgrade <==> r.core.flags.upgrade && r.core.flags.connectionUpgrade && r.core.status == 101)
            && (r.core.upgrade && !HasBody(r.core) ==> Over(r.seen))
  {
    hide Next, Spelled, HasBody;
    RunTwo(m, CR, LF);
    RunSticks(Next(m, CR), LF);
    CrEndsHead(m);
    LfEndsHead(Next(m, CR));
  }

  lemma LfEndsHead(m: Machine)
    requires !Stopped(m) && m.core.state.HeadersAlmostDone? && !m.core.flags.trailing && Next(m, LF).core.errno.Ok?
    ensures var r := Next(m, LF);
            && r.taken == m.taken + 1 && r.seen.head == m.seen.head && r.core.status == m.core.status
            && r.seen.body == m.seen.body
            && (r.core.flags.chunked ==> !Stopped(r) && r.core.state.ChunkSizeStart? && !r.core.flags.trailing)
            && (r.core.upgrade <==> r.core.flags.upgrade && r.core.flags.connectionUpgrade && r.core.status == 101)
            && (r.core.upgrade && !HasBody(r.core) ==> Over(r.seen))
  {
    hide ShouldKeepAlive, NeedsEof;
  }

  lemma CrEndsHead(m: Machine)
    requires AtLine(m) && Next(m, CR).core.errno.Ok?
    ensures var r := Next(m, CR);
            && !Stopped(r) && r.core.state.HeadersAlmostDone? && SameLine(m, r) && r.taken == m.taken + 1
            && Completed(r.seen.head) == Spelled(m)
  {
    hide Next;
    LineFirst(m, CR);
    assert m.seen.notes + [] == m.seen.notes;
  }

  // ---- The status line ----

  /** A version, a code of three digits, a reason. */
  datatype StatusLine = StatusLine(major: byte, minor: byte, code: bytes, reason: bytes)

  predicate IsStatusLine(l: StatusLine) {
    && IsNum(l.major) && IsNum(l.minor)
    && |l.code| == 3 && IsNum(l.code[0]) && IsNum(l.code[1]) && IsNum(l.code[2])
    && CR !in l.reason && LF !in l.reason
  }

  function Code(l: StatusLine): nat
    requires IsStatusLine(l)
  {
    (l.code[0] - ZERO) * 100 + (l.code[1] - ZERO) * 10 + (l.code[2] - ZERO)
  }

  function VersionText(l: StatusLine): bytes {
    [0x48, 0x54, 0x54, 0x50, 0x2f] + [l.major, 0x2e, l.minor, SPACE]
  }

  function StatusText(l: StatusLine): bytes {
    VersionText(l) + (l.code + [SPACE]) + (l.reason + [CR, LF])
  }

  /** A whole head. */
  function Head(l: StatusLine, hs: seq<Header>): bytes {
    StatusText(l) + Lines(hs) + [CR, LF]
  }

  const START := Machine(INITIAL, NOTHING, 0)

  /** A core between the octets of the status line. */
  function LineCore(s: State, n: nat, major: nat, minor: nat, status: nat): Core {
    Core(s, General, 0, NO_FLAGS, UNKNOWN, n, major, minor, status, false, Ok)
  }

  function Begun(c: Core): Machine {
    Machine(c, NOTHING.(notes := [MessageBegin]), c.nread)
  }

  /** One octet of the status line. */
  lemma Step(c: Core, b: byte, d: Core, rest: bytes)
    requires c.errno.Ok? && d.errno.Ok? && ParsingHeader(c.state) && d.nread == c.nread + 1 <= MAX_HEADER_SIZE
    requires Dispatch(c.(nread := c.nread + 1), b) == Go(d, d.state)
    ensures Run(Begun(c), [b] + rest) == Run(Begun(d), rest)
  {
    hide Dispatch;
    RunFront(Begun(c), [b] + rest);
    assert ([b] + rest)[1..] == rest;
    assert [MessageBegin] + [] == [MessageBegin];
  }

  /** Two octets of the status line. */
  lemma TwoSteps(c: Core, x: byte, d: Core, y: byte, e: Core, rest: bytes)
    requires c.errno.Ok? && d.errno.Ok? && ParsingHeader(c.state) && d.nread == c.nread + 1 <= MAX_HEADER_SIZE
    requires e.errno.Ok? && ParsingHeader(d.state) && e.nread == d.nread + 1 <= MAX_HEADER_SIZE
    requires Dispatch(c.(nread := c.nread + 1), x) == Go(d, d.state)
    requires Dispatch(d.(nread := d.nread + 1), y) == Go(e, e.state)
    ensures Run(Begun(c), [x, y] + rest) == Run(Begun(e), rest)
  {
    hide Dispatch, Run, Begun;
    assert [x, y] + rest == [x] + ([y] + rest);
    Step(c, x, d, [y] + rest);
    Step(d, y, e, rest);
  }

  lemma Protocol(rest: bytes)
    ensures Run(START, [0x48, 0x54, 0x54, 0x50, 0x2f] + rest) == Run(Begun(LineCore(Major, 5, 0, 0, 0)), rest)
  {
    hide Run, Begun;
    assert [0x48, 0x54, 0x54, 0x50, 0x2f] + rest == [0x48] + ([0x54, 0x54] + ([0x50, 0x2f] + rest));
    FirstOctet([0x54, 0x54] + ([0x50, 0x2f] + rest));
    ProtocolLetters(rest);
  }

  lemma ProtocolLetters(rest: bytes)
    ensures Run(Begun(LineCore(ResH, 1, 0, 0, 0)), [0x54, 0x54] + ([0x50, 0x2f] + rest))
         == Run(Begun(LineCore(Major, 5, 0, 0, 0)), rest)
  {
    hide Run, Begun, Dispatch;
    LetterDispatch();
    TwoSteps(LineCore(ResH, 1, 0, 0, 0), 0x54, LineCore(ResHT, 2, 0, 0, 0), 0x54, LineCore(ResHTT, 3, 0, 0, 0),
      [0x50, 0x2f] + rest);
    TwoSteps(LineCore(ResHTT, 3, 0, 0, 0), 0x50, LineCore(ResHTTP, 4, 0, 0, 0), 0x2f,
      LineCore(Major, 5, 0, 0, 0), rest);
  }

  lemma LetterDispatch()
    ensures Dispatch(LineCore(ResH, 2, 0, 0, 0), 0x54) == Go(LineCore(ResHT, 2, 0, 0, 0), ResHT)
    ensures Dispatch(LineCore(ResHT, 3, 0, 0, 0), 0x54) == Go(LineCore(ResHTT, 3, 0, 0, 0), ResHTT)
    ensures Dispatch(LineCore(ResHTT, 4, 0, 0, 0), 0x50) == Go(LineCore(ResHTTP, 4, 0, 0, 0), ResHTTP)
    ensures Dispatch(LineCore(ResHTTP, 5, 0, 0, 0), 0x2f) == Go(LineCore(Major, 5, 0, 0, 0), Major)
  {}

  lemma FirstOctet(rest: bytes)
    ensures Run(START, [0x48] + rest) == Run(Begun(LineCore(ResH, 1, 0, 0, 0)), rest)
  {
    hide Run;
    RunFront(START, [0x48] + rest);
    assert ([0x48] + rest)[1..] == rest;
    assert Next(START, 0x48) == Begun(LineCore(ResH, 1, 0, 0, 0)) by {
      assert [] + [MessageBegin] == [MessageBegin];
    }
  }

  lemma Version(l: StatusLine, rest: bytes)
    requires IsStatusLine(l)
    ensures Run(Begun(LineCore(Major, 5, 0, 0, 0)), [l.major, 0x2e, l.minor, SPACE] + rest)
         == Run(Begun(LineCore(FirstStatusCode, 9, l.major - ZERO, l.minor - ZERO, 0)), rest)
  {
    hide Run, Begun, Dispatch;
    var x, y := l.major - ZERO, l.minor - ZERO;
    VersionDispatch(l);
    assert [l.major, 0x2e, l.minor, SPACE] + rest == [l.major, 0x2e] + ([l.minor, SPACE] + rest);
    TwoSteps(LineCore(Major, 5, 0, 0, 0), l.major, LineCore(Dot, 6, x, 0, 0), 0x2e, LineCore(Minor, 7, x, 0, 0),
      [l.minor, SPACE] + rest);
    TwoSteps(LineCore(Minor, 7, x, 0, 0), l.minor, LineCore(VersionEnd, 8, x, y, 0), SPACE,
      LineCore(FirstStatusCode, 9, x, y, 0), rest);
  }

  lemma VersionDispatch(l: StatusLine)
    requires IsStatusLine(l)
    ensures var x, y := l.major - ZERO, l.minor - ZERO;
            && Dispatch(LineCore(Major, 6, 0, 0, 0), l.major) == Go(LineCore(Dot, 6, x, 0, 0), Dot)
            && Dispatch(LineCore(Dot, 7, x, 0, 0), 0x2e) == Go(LineCore(Minor, 7, x, 0, 0), Minor)
            && Dispatch(LineCore(Minor, 8, x, 0, 0), l.minor) == Go(LineCore(VersionEnd, 8, x, y, 0), VersionEnd)
            && Dispatch(LineCore(VersionEnd, 9, x, y, 0), SPACE)
                 == Go(LineCore(FirstStatusCode, 9, x, y, 0), FirstStatusCode)
  {}

  lemma StatusCodeRead(l: StatusLine, rest: bytes)
    requires IsStatusLine(l)
    ensures Run(Begun(LineCore(FirstStatusCode, 9, l.major - ZERO, l.minor - ZERO, 0)), l.code + [SPACE] + rest)
         == Run(Begun(LineCore(StatusStart, 13, l.major - ZERO, l.minor - ZERO, Code(l))), rest)
  {
    hide Run, Begun;
    var x, y := l.major - ZERO, l.minor - ZERO;
    var p, q, r := l.code[0], l.code[1], l.code[2];
    var two := (p - ZERO) * 10 + (q - ZERO);
    Step(LineCore(FirstStatusCode, 9, x, y, 0), p, LineCore(StatusCode, 10, x, y, p - ZERO), [q, r, SPACE] + rest);
    Step(LineCore(StatusCode, 10, x, y, p - ZERO), q, LineCore(StatusCode, 11, x, y, two), [r, SPACE] + rest);
    Step(LineCore(StatusCode, 11, x, y, two), r, LineCore(StatusCode, 12, x, y, Code(l)), [SPACE] + rest);
    Step(LineCore(StatusCode, 12, x, y, Code(l)), SPACE, LineCore(StatusStart, 13, x, y, Code(l)), rest);
    assert l.code + [SPACE] + rest == [p] + ([q, r, SPACE] + rest);
    assert [q, r, SPACE] + rest == [q] + ([r, SPACE] + rest);
    assert [r, SPACE] + rest == [r] + ([SPACE] + rest);
  }

  /** The reason, of any length, does not matter. */
  lemma {:induction false} Reason(s: State, n: nat, x: nat, y: nat, code: nat, reason: bytes)
    requires (s.StatusStart? || s.Status?) && CR !in reason && LF !in reason
    ensures var r := Run(Begun(LineCore(s, n, x, y, code)), reason + [CR, LF]);
            && (r.core.errno.Ok? ==> r == Begun(LineCore(FieldStart, n + |reason| + 2, x, y, code)))
            && (n + |reason| + 2 <= MAX_HEADER_SIZE ==> r.core.errno.Ok?)
    decreases |reason|
  {
    var c := LineCore(s, n, x, y, code);
    hide Run, Begun;
    if n >= MAX_HEADER_SIZE {
      TooLong(c, reason + [CR, LF]);
    } else if reason == [] {
      assert [] + [CR, LF] == [CR] + [LF] && [LF] == [LF] + [];
      Step(c, CR, LineCore(LineAlmostDone, n + 1, x, y, code), [LF]);
      ReasonEnds(n + 1, x, y, code);
    } else {
      assert reason[0] in reason;
      assert reason + [CR, LF] == [reason[0]] + (reason[1..] + [CR, LF]);
      Step(c, reason[0], LineCore(Status, n + 1, x, y, code), reason[1..] + [CR, LF]);
      Reason(Status, n + 1, x, y, code, reason[1..]);
    }
  }

  lemma TooLong(c: Core, s: bytes)
    requires c.errno.Ok? && ParsingHeader(c.state) && c.nread >= MAX_HEADER_SIZE && s != []
    ensures !Run(Begun(c), s).core.errno.Ok?
  {
    hide Dispatch;
    RunFront(Begun(c), s);
    RunStopped(Next(Begun(c), s[0]), s[1..]);
  }

  lemma RunFront(m: Machine, s: bytes)
    requires s != []
    ensures Run(m, s) == Run(Next(m, s[0]), s[1..])
  {}

  lemma ReasonEnds(n: nat, x: nat, y: nat, code: nat)
    ensures var r := Run(Begun(LineCore(LineAlmostDone, n, x, y, code)), [LF]);
            && (r.core.errno.Ok? ==> r == Begun(LineCore(FieldStart, n + 1, x, y, code)))
            && (n < MAX_HEADER_SIZE ==> r.core.errno.Ok?)
  {
    var c := LineCore(LineAlmostDone, n, x, y, code);
    RunFront(Begun(c), [LF]);
    if n < MAX_HEADER_SIZE {
      assert [LF] + [] == [LF];
      Step(c, LF, LineCore(FieldStart, n + 1, x, y, code), []);
    }
  }

  /**
   * A response head, written out and parsed: if it is not refused, all of it is taken, and the
   * parser has its headers in order and its status; an upgrade without a body ends it right there.
   */
  lemma HeadRoundTrip(l: StatusLine, hs: seq<Header>)
    requires IsStatusLine(l) && forall h :: h in hs ==> IsHeader(h)
    ensures var text := StatusText(l) + Lines(hs) + [CR, LF];
            var r := Run(START, text);
            r.core.errno.Ok? ==>
              && r.taken == |text|
              && Completed(r.seen.head) == hs && r.seen.body == []
              && (r.core.flags.chunked ==> !Stopped(r) && r.core.state.ChunkSizeStart? && !r.core.flags.trailing)
              && r.core.status == Code(l)
              && (r.core.upgrade <==> r.core.flags.upgrade && r.core.flags.connectionUpgrade && Code(l) == 101)
              && (r.core.upgrade && !HasBody(r.core) ==> Over(r.seen))
  {
    hide Next, AtLine, IsHeader, Spelled, HasBody, IsStatusLine;
    var line := StatusText(l);
    var m := Run(START, line);
    RunConcat(START, line, Lines(hs));
    RunConcat(START, line + Lines(hs), [CR, LF]);
    var p := Run(m, Lines(hs));
    RunTaken(m, Lines(hs));
    RunTaken(p, [CR, LF]);
    if Run(p, [CR, LF]).core.errno.Ok? {
      StatusLineRun(l);
      HeaderLines(m, hs);
      RunTaken(START, line);
      HeadEnds(p);
      StillGoing(m);
      StillGoing(p);
    }
  }

  lemma StillGoing(m: Machine)
    requires AtLine(m)
    ensures !Stopped(m)
  {}

  lemma StatusLineRun(l: StatusLine)
    requires IsStatusLine(l)
    requires Run(START, StatusText(l)).core.errno.Ok? || |StatusText(l)| <= MAX_HEADER_SIZE
    ensures var m := Run(START, StatusText(l));
            && AtLine(m) && Spelled(m) == [] && m.core.status == Code(l)
            && m == Begun(LineCore(FieldStart, |StatusText(l)|, l.major - ZERO, l.minor - ZERO, Code(l)))
  {
    hide Run;
    var tail := l.reason + [CR, LF];
    assert StatusText(l) == [0x48, 0x54, 0x54, 0x50, 0x2f]
      + ([l.major, 0x2e, l.minor, SPACE] + (l.code + [SPACE] + tail));
    Protocol([l.major, 0x2e, l.minor, SPACE] + (l.code + [SPACE] + tail));
    Version(l, l.code + [SPACE] + tail);
    StatusCodeRead(l, tail);
    ReasonOf(l);
  }

  lemma ReasonOf(l: StatusLine)
    requires IsStatusLine(l)
    ensures var r := Run(Begun(LineCore(StatusStart, 13, l.major - ZERO, l.minor - ZERO, Code(l))),
                         l.reason + [CR, LF]);
            && (r.core.errno.Ok? ==>
                  r == Begun(LineCore(FieldStart, 13 + |l.reason| + 2, l.major - ZERO, l.minor - ZERO, Code(l))))
            && (13 + |l.reason| + 2 <= MAX_HEADER_SIZE ==> r.core.errno.Ok?)
  {
    hide Run, Begun;
    Reason(StatusStart, 13, l.major - ZERO, l.minor - ZERO, Code(l), l.reason);
  }
}
