// The HTTP response parser as it runs: over a stretch of input at a time, with marks where data
// began, and loops that run through names, values and bodies.

module HttpExecute {
  import opened Octets
  import opened Options
  import opened Headers
  import opened Http
  import opened HttpRuns
  import opened HttpBodies

  /** Where data not yet reported begins. */
  type Marks = Option<(Kind, nat)>

  /** What will have been seen when the marked data is reported. */
  ghost function WithMark(s: Seen, mark: Marks, data: bytes, p: nat): Seen
    requires p <= |data| && (mark.Some? ==> mark.value.1 <= p)
  {
    if mark.None? then s else AddData(s, mark.value.0, data[mark.value.1..p])
  }

  /** At most one mark is set, and the state says which. */
  predicate MarkFits(s: State, mark: Marks, p: nat) {
    && (mark.Some? ==> mark.value.1 <= p)
    && match s
       case InName => mark.Some? && mark.value.0.FieldData?
       case InText => mark.Some? && mark.value.0.ValueData?
       case BodyIdentity => mark.Some? ==> mark.value.0.BodyData?
       case BodyIdentityEof => mark.Some? ==> mark.value.0.BodyData?
       case ChunkData => mark.Some? ==> mark.value.0.BodyData?
       case ChunkDataAlmostDone => mark.Some? ==> mark.value.0.BodyData?
       case _ => mark.None?
  }

  /** Data reported in two pieces is the data reported in one. */
  lemma AddMore(s: Seen, k: Kind, a: bytes, b: bytes)
    ensures AddData(AddData(s, k, a), k, b) == AddData(s, k, a + b)
  {
    match k
    case FieldData =>
      if s.head.part.Name? {
        Associative(s.head.part.name, a, b);
      }
    case ValueData =>
      if s.head.part.Both? {
        Associative(s.head.part.value, a, b);
      }
    case BodyData => Associative(s.body, a, b);
  }

  lemma AddNothing(s: Seen, k: Kind)
    requires k.FieldData? ==> s.head.part.Name?
    requires k.ValueData? ==> s.head.part.Both?
    ensures AddData(s, k, []) == s
  {
    match k
    case FieldData => assert s.head.part.name + [] == s.head.part.name;
    case ValueData => assert s.head.part.value + [] == s.head.part.value;
    case BodyData => assert s.body + [] == s.body;
  }

  lemma MarkGrows(s: Seen, k: Kind, from: nat, data: bytes, p: nat, q: nat)
    requires from <= p <= q <= |data|
    ensures AddData(WithMark(s, Some((k, from)), data, p), k, data[p..q]) == WithMark(s, Some((k, from)), data, q)
  {
    AddMore(s, k, data[from..p], data[p..q]);
    assert data[from..p] + data[p..q] == data[from..q];
  }

  lemma OneMore(m: Machine, data: bytes, p: nat)
    requires p < |data|
    ensures Run(m, data[..p + 1]) == Next(Run(m, data[..p]), data[p])
  {
    hide Next;
    RunSnoc(m, data[..p], data[p]);
    assert data[..p] + [data[p]] == data[..p + 1];
  }

  lemma SomeMore(m: Machine, data: bytes, p: nat, q: nat)
    requires p <= q <= |data|
    ensures Run(m, data[..q]) == Run(Run(m, data[..p]), data[p..q])
  {
    RunConcat(m, data[..p], data[p..q]);
    assert data[..p] + data[p..q] == data[..q];
  }

  lemma StoppedThere(m: Machine, data: bytes, p: nat)
    requires p <= |data| && Stopped(Run(m, data[..p]))
    ensures Run(m, data) == Run(m, data[..p])
  {
    SomeMore(m, data, p, |data|);
    RunStopped(Run(m, data[..p]), data[p..]);
    assert data[..|data|] == data;
  }

  /** The states in which the parser runs through many octets at once. */
  predicate IsBulk(s: State) {
    s.InName? || s.InText? || s.BodyIdentity? || s.ChunkData? || s.BodyIdentityEof?
  }

  /** What the other states do to data: a name or a value begins, or a chunk has ended. */
  predicate MarksFit(c: Core, ch: byte, m: Move) {
    && (m.empty <==> c.state.DiscardLws? && !IsBlank(ch))
    && (m.mark == Take(FieldData) <==> m.core.state.InName?)
    && (m.mark == Take(ValueData) <==> m.core.state.InText?)
    && (m.mark == End(BodyData) <==> c.state.ChunkDataAlmostDone?)
    && (m.mark.NoMark? || m.mark == Take(FieldData) || m.mark == Take(ValueData) || m.mark == End(BodyData))
    && !m.core.state.ChunkDataAlmostDone?
    && (EndsMessage(m.notes) ==> m.mark == NoMark)
  }

  lemma HeadersEndMarks(c: Core, ch: byte)
    requires OnHeadersAlmostDone(c, ch).core.errno.Ok? && !c.state.DiscardLws? && !c.state.ChunkDataAlmostDone?
    ensures MarksFit(c, ch, OnHeadersAlmostDone(c, ch))
  {
    hide ShouldKeepAlive, NeedsEof;
  }

  lemma FieldStartMarks(c: Core, ch: byte)
    requires OnFieldStart(c, ch).core.errno.Ok?
    ensures MarksFit(c.(state := FieldStart), ch, OnFieldStart(c, ch))
  {
    hide OnHeadersAlmostDone, Token;
    if ch == LF {
      SameFromHere(c, c.(state := FieldStart), ch);
      HeadersEndMarks(c.(state := FieldStart), ch);
    }
  }

  /** The end of the head does not depend on the state from which it is reached. */
  lemma SameFromHere(c: Core, d: Core, ch: byte)
    requires d == c.(state := d.state) && OnHeadersAlmostDone(c, ch).core.errno.Ok?
    ensures OnHeadersAlmostDone(c, ch) == OnHeadersAlmostDone(d, ch)
  {}

  lemma ValueStartMarks(c: Core, ch: byte)
    requires OnValueStart(c, ch).core.errno.Ok? && !c.state.ChunkDataAlmostDone?
    ensures OnValueStart(c, ch).core.state.InText? && OnValueStart(c, ch).mark == Take(ValueData)
    ensures !OnValueStart(c, ch).empty && OnValueStart(c, ch).notes == []
  {
    hide Lower;
  }

  lemma DispatchMarks(c: Core, ch: byte)
    requires !IsBulk(c.state) && c.errno.Ok? && LengthOk(c) && Dispatch(c, ch).core.errno.Ok?
    ensures MarksFit(c, ch, Dispatch(c, ch))
  {
    if InHeaders(c.state) {
      HeaderMarks(c, ch);
    } else if InBody(c.state) {
      BodyMarks(c, ch);
    } else {
      LineMarks(c, ch);
    }
  }

  lemma LineMarks(c: Core, ch: byte)
    requires c.errno.Ok? && LengthOk(c) && !InHeaders(c.state) && !InBody(c.state) && Dispatch(c, ch).core.errno.Ok?
    ensures MarksFit(c, ch, Dispatch(c, ch))
  {}

  lemma BodyMarks(c: Core, ch: byte)
    requires c.errno.Ok? && LengthOk(c) && InBody(c.state) && !IsBulk(c.state) && Dispatch(c, ch).core.errno.Ok?
    ensures MarksFit(c, ch, Dispatch(c, ch))
  {
    hide Digit, Unhex;
    if c.state.ChunkSize? && Unhex(ch) >= 0 {
      DigitKeeps(c, 16, Unhex(ch));
    }
  }

  lemma HeaderMarks(c: Core, ch: byte)
    requires c.errno.Ok? && InHeaders(c.state) && !IsBulk(c.state) && Dispatch(c, ch).core.errno.Ok?
    ensures MarksFit(c, ch, Dispatch(c, ch))
  {
    hide OnHeadersAlmostDone, OnFieldStart, OnValueStart, Flagged;
    match c.state
    case FieldStart => FieldStartMarks(c, ch);
    case DiscardWs => if !IsBlank(ch) && !IsLineEnd(ch) { ValueStartMarks(c, ch); }
    case DiscardLws =>
      if !IsBlank(ch) && OnFieldStart(Http.Finished(c), ch).core.errno.Ok? {
        FieldStartMarks(Http.Finished(c), ch);
      }
    case ValueLws =>
      if IsBlank(ch) {
        ValueStartMarks(if c.header.ContentLengthNum? then c.(header := ContentLengthWs) else c, ch);
      } else {
        FieldStartMarks(Http.Finished(c), ch);
      }
    case HeadersAlmostDone => HeadersEndMarks(c, ch);
    case _ =>
  }

  lemma ValidCore(m: Machine, ahead: nat)
    requires Http.Valid(m) && !Stopped(m)
    ensures LengthOk(m.core.(nread := m.core.nread + ahead)) && m.core.errno.Ok?
    ensures m.core.state.InName? || m.core.state.DiscardLws? ==> m.seen.head.part.Name?
    ensures m.core.state.InText? ==> m.seen.head.part.Both?
  {}

  /** One octet, once it is counted. */
  lemma NextIs(m: Machine, c: Core, ch: byte)
    requires !Stopped(m) && c == m.core.(nread := m.core.nread + if ParsingHeader(m.core.state) then 1 else 0)
    requires ParsingHeader(c.state) ==> c.nread <= MAX_HEADER_SIZE
    ensures var move := Dispatch(c, ch);
            Next(m, ch) == if move.core.errno.Ok? then Machine(move.core, Report(m.seen, move, ch), m.taken + 1)
                           else m.(core := move.core)
  {
    hide Dispatch;
  }

  lemma NotesApart(s: Seen, k: Kind, d: bytes, notes: seq<Note>)
    ensures AddData(s.(notes := notes), k, d) == AddData(s, k, d).(notes := notes)
    ensures AddData(s, k, d).notes == s.notes
  {}

  /**
   * A name or a value is being read from `p` and has been read up to `q`; its octets but the first
   * are counted at the end. Then the parser is where the octet machine is, or the octet machine has
   * found the head too long, and the count will find it so.
   */
  ghost predicate Reading(start: Machine, data: bytes, p: nat, q: nat, c: Core, s: Seen, mark: Marks)
    requires p <= q <= |data| && mark.Some? && mark.value.1 <= p && c.nread >= 1
  {
    var r := Run(start, data[..q]);
    && c.errno.Ok? && ParsingHeader(c.state)
    && if r.core.errno.HeaderOverflow? then c.nread + (q - 1 - p) > MAX_HEADER_SIZE
       else
         && !Stopped(r) && r.taken == q && r.seen == WithMark(s, mark, data, q)
         && r.core == c.(nread := c.nread - 1 + (q - p)) && r.core.nread <= MAX_HEADER_SIZE
  }

  /** The octet machine has refused the input: for being too long, by `q`, or at `q` and for this reason. */
  ghost predicate RefusedAt(start: Machine, data: bytes, q: nat, e: Errno) {
    var r := Run(start, data);
    && !r.core.errno.Ok?
    && if r.core.errno.HeaderOverflow? then r.taken <= start.taken + q else r.core.errno == e && r.taken == q
  }

  lemma TakesOne(s: Seen, mark: Marks, data: bytes, q: nat, m: Move)
    requires q < |data| && mark.Some? && mark.value.1 <= q && m.mark == Take(mark.value.0) && !m.empty && m.notes == []
    ensures Report(WithMark(s, mark, data, q), m, data[q]) == WithMark(s, mark, data, q + 1)
  {
    hide AddData;
    var t := WithMark(s, mark, data, q);
    MarkGrows(s, mark.value.0, mark.value.1, data, q, q + 1);
    assert data[q..q + 1] == [data[q]];
    NotesApart(t, mark.value.0, [data[q]], t.notes);
    assert t.notes + [] == t.notes;
  }

  /** The octet at `q` is beyond the limit. */
  lemma Overruns(start: Machine, data: bytes, p: nat, q: nat, c: Core, s: Seen, mark: Marks)
    requires p <= q < |data| && mark.Some? && mark.value.1 <= p && c.nread >= 1
    requires Reading(start, data, p, q, c, s, mark) && c.nread + (q - p) > MAX_HEADER_SIZE
    ensures Reading(start, data, p, q + 1, c, s, mark)
    ensures forall e, n :: n >= q ==> RefusedAt(start, data, n, e)
  {
    hide Dispatch, AddData;
    RunTaken(start, data[..q]);
    OneMore(start, data, q);
    StoppedThere(start, data, q + 1);
  }

  lemma RunOut(start: Machine, data: bytes, p: nat, c: Core, s: Seen, mark: Marks)
    requires p < |data| && mark.Some? && mark.value.1 <= p && c.nread >= 1
    requires Reading(start, data, p, |data|, c, s, mark) && c.nread + (|data| - 1 - p) > MAX_HEADER_SIZE
    ensures forall e, n :: n >= |data| ==> RefusedAt(start, data, n, e)
  {
    assert data[..|data|] == data;
    RunTaken(start, data);
  }

  /** One more octet of a name or a value, as the transition `m` has it. */
  lemma ReadsOne(start: Machine, data: bytes, p: nat, q: nat, c: Core, d: Core, s: Seen, mark: Marks)
    requires p <= q < |data| && mark.Some? && mark.value.1 <= p && c.nread >= 1 && d.nread == c.nread
    requires Reading(start, data, p, q, c, s, mark) && ParsingHeader(d.state)
    requires var n := c.nread + (q - p);
             var m := Dispatch(c.(nread := n), data[q]);
             m.core == d.(nread := n) && (d.errno.Ok? ==> m == Move(d.(nread := n), false, Take(mark.value.0), []))
    ensures if d.errno.Ok? then Reading(start, data, p, q + 1, d, s, mark) else RefusedAt(start, data, q, d.errno)
  {
    hide Dispatch, AddData;
    OneMore(start, data, q);
    var r := Run(start, data[..q]);
    RunTaken(start, data[..q]);
    if !r.core.errno.HeaderOverflow? && c.nread + (q - p) <= MAX_HEADER_SIZE {
      NextIs(r, c.(nread := c.nread + (q - p)), data[q]);
      if d.errno.Ok? {
        TakesOne(s, mark, data, q, Dispatch(c.(nread := c.nread + (q - p)), data[q]));
        StillReading(r.seen);
      }
    }
    if Stopped(Run(start, data[..q + 1])) {
      StoppedThere(start, data, q + 1);
    }
  }

  lemma StillReading(s: Seen)
    ensures forall k, d :: Over(AddData(s, k, d)) == Over(s)
  {}

  lemma NameReads(start: Machine, data: bytes, p: nat, q: nat, c: Core, s: Seen, mark: Marks)
    requires p <= q < |data| && mark.Some? && mark.value.1 <= p && c.nread >= 1 && mark.value.0.FieldData?
    requires Reading(start, data, p, q, c, s, mark) && c.state.InName? && Token(data[q]) != 0
    ensures Reading(start, data, p, q + 1, NameStep(c, Token(data[q]), data[q]), s, mark)
    ensures NameStep(c, Token(data[q]), data[q]).state.InName? && NameStep(c, Token(data[q]), data[q]).nread == c.nread
  {
    hide NameStep, Reading, Token;
    var n := c.nread + (q - p);
    NameStepCount(c, Token(data[q]), data[q], n);
    NameStepKeeps(c, Token(data[q]), data[q]);
    ReadingOk(start, data, p, q, c, s, mark);
    ReadsOne(start, data, p, q, c, NameStep(c, Token(data[q]), data[q]), s, mark);
  }

  lemma ReadingOk(start: Machine, data: bytes, p: nat, q: nat, c: Core, s: Seen, mark: Marks)
    requires p <= q <= |data| && mark.Some? && mark.value.1 <= p && c.nread >= 1
    requires Reading(start, data, p, q, c, s, mark)
    ensures c.errno.Ok? && ParsingHeader(c.state)
  {}

  lemma NameStepCount(c: Core, t: byte, ch: byte, n: nat)
    ensures NameStep(c.(nread := n), t, ch) == NameStep(c, t, ch).(nread := n)
  {
    hide Matched;
  }

  lemma TextReads(start: Machine, data: bytes, p: nat, q: nat, c: Core, s: Seen, mark: Marks)
    requires p <= q < |data| && mark.Some? && mark.value.1 <= p && c.nread >= 1 && mark.value.0.ValueData?
    requires Reading(start, data, p, q, c, s, mark) && c.state.InText? && IsHeaderChar(data[q]) && !IsLineEnd(data[q])
    ensures var d := TextStep(c, data[q]);
            && d.state.InText? && d.nread == c.nread
            && if d.errno.Ok? then Reading(start, data, p, q + 1, d, s, mark) else RefusedAt(start, data, q, d.errno)
  {
    hide TextStep, Reading, IsHeaderChar;
    var n := c.nread + (q - p);
    TextStepCount(c, data[q], n);
    ReadingOk(start, data, p, q, c, s, mark);
    ReadsOne(start, data, p, q, c, TextStep(c, data[q]), s, mark);
  }

  lemma TextStepCount(c: Core, ch: byte, n: nat)
    ensures TextStep(c.(nread := n), ch) == TextStep(c, ch).(nread := n)
    ensures TextStep(c, ch).state == c.state && TextStep(c, ch).nread == c.nread
  {
    hide Matched, Token, Lower, LengthStep, AfterConnection, TokenStart;
    var d := c.(nread := n);
    LengthStepCount(c, ch, n);
    AfterConnectionCount(c, ch, n);
    TokenStartCount(c, d, Lower(ch), TransferToken);
    TokenStartCount(c, d, Lower(ch), ConnectionToken);
    if c.header.ContentLength? || c.header.ContentLengthNum? {
      assert TextStep(d, ch) == TextStep(c, ch).(nread := n);
    } else if c.header.IsKeepAlive? || c.header.IsClose? || c.header.IsConnectionUpgrade? {
      assert TextStep(d, ch) == AfterConnection(d, ch);
    }
  }

  lemma LengthStepCount(c: Core, ch: byte, n: nat)
    ensures LengthStep(c.(nread := n), ch) == LengthStep(c, ch).(nread := n)
    ensures LengthStep(c, ch).state == c.state && LengthStep(c, ch).nread == c.nread
  {}

  lemma AfterConnectionCount(c: Core, ch: byte, n: nat)
    ensures AfterConnection(c.(nread := n), ch) == AfterConnection(c, ch).(nread := n)
    ensures AfterConnection(c, ch).state == c.state && AfterConnection(c, ch).nread == c.nread
  {}

  lemma TokenStartCount(c: Core, d: Core, l: byte, other: HeaderMatch)
    requires c.header == d.header
    ensures TokenStart(c, l, other) == TokenStart(d, l, other)
  {}

  class Parser {
    var core: Core
    const headers: Store
    ghost var seen: Seen

    ghost predicate Valid()
      reads this, headers, headers.s, headers.s.buf
    {
      headers.Valid() && headers.progress == seen.head && Http.Valid(Machine(core, seen, 0))
    }

    constructor (headers: Store)
      requires headers.Valid() && headers.progress == NOTHING.head
      ensures Valid() && this.headers == headers && core == INITIAL && seen == NOTHING
    {
      core := INITIAL;
      this.headers := headers;
      seen := NOTHING;
    }

    /**
     * After `p` octets the parser is where the octet machine is, except for what is marked; of the
     * octets it has counted, `ahead` are still to be read.
     */
    ghost predicate At(start: Machine, data: bytes, p: nat, mark: Marks, ahead: nat)
      reads this, headers, headers.s, headers.s.buf
    {
      && p <= |data| && MarkFits(core.state, mark, p)
      && headers.Valid() && headers.progress == seen.head
      && var m := Run(start, data[..p]);
         && !Stopped(m) && Http.Valid(m) && m.taken == p
         && core == m.core.(nread := m.core.nread + ahead)
         && m.seen == WithMark(seen, mark, data, p)
    }

    /** The parser has refused the input, as the octet machine does. */
    ghost predicate Refused(start: Machine, data: bytes, n: nat)
      reads this, headers, headers.s, headers.s.buf
    {
      var r := Run(start, data);
      && headers.Valid()
      && !r.core.errno.Ok? && !core.errno.Ok?
      && if r.core.errno.HeaderOverflow? then r.taken <= start.taken + n
         else core.errno == r.core.errno && n == r.taken
    }

    /** The message is over, as the octet machine finds. */
    ghost predicate Finished(start: Machine, data: bytes, n: nat)
      reads this, headers, headers.s, headers.s.buf
    {
      var r := Run(start, data);
      && headers.Valid() && headers.progress == seen.head
      && r.core.errno.Ok? && Over(r.seen) && r.core == core && r.seen == seen && r.taken == n
    }

    /** Reports data to the instance; what a body holds is only observed. */
    method Callback(kind: Kind, data: bytes)
      requires headers.Valid() && headers.progress == seen.head && (kind.ValueData? ==> !seen.head.part.Nothing?)
      modifies `seen, headers, headers.s, headers.s.buf
      ensures headers.Valid() && headers.progress == seen.head && seen == AddData(old(seen), kind, data)
    {
      match kind {
        case FieldData =>
          var _ := headers.OnHeaderField(data);
        case ValueData =>
          var _ := headers.OnHeaderValue(data);
        case BodyData =>
      }
      seen := AddData(seen, kind, data);
    }

    /** Carries out what a move says about data, and notes the rest. */
    method Apply(move: Move, data: bytes, p: nat, mark: Marks) returns (mark': Marks, due: bool)
      requires p < |data| && headers.Valid() && headers.progress == seen.head
      requires mark.Some? ==> mark.value.0.BodyData? && mark.value.1 <= p && move.mark == End(BodyData) && !move.empty
      requires move.mark.End? ==> move.mark == End(BodyData)
      requires move.empty ==> !seen.head.part.Nothing?
      modifies `seen, headers, headers.s, headers.s.buf
      ensures headers.Valid() && headers.progress == seen.head
      ensures due == EndsMessage(move.notes)
      ensures mark' == if move.mark.Take? then Some((move.mark.kind, p)) else None
      ensures WithMark(seen, mark', data, p + 1) == Report(WithMark(old(seen), mark, data, p), move, data[p])
    {
      hide AddData;
      mark' := None;
      ghost var before := seen;
      if move.empty {
        Callback(ValueData, []);
      }
      match move.mark {
        case Take(kind) =>
          mark' := Some((kind, p));
          assert data[p..p + 1] == [data[p]];
          NotesApart(seen, kind, [data[p]], before.notes + move.notes);
        case End(kind) =>
          if mark.Some? {
            Callback(kind, data[mark.value.1..p]);
            NotesApart(before, kind, data[mark.value.1..p], before.notes);
          }
        case NoMark =>
      }
      NotesApart(before, ValueData, [], before.notes);
      seen := seen.(notes := seen.notes + move.notes);
      due := EndsMessage(move.notes);
    }

    /** One octet in a state that reads one at a time. */
    method Other(ghost start: Machine, data: bytes, p: nat, mark: Marks) returns (mark': Marks, due: bool)
      requires p < |data| && !IsBulk(core.state) && start.taken == 0
      requires At(start, data, p, mark, if ParsingHeader(core.state) then 1 else 0)
      requires ParsingHeader(core.state) ==> core.nread <= MAX_HEADER_SIZE
      modifies this, headers, headers.s, headers.s.buf
      ensures !core.errno.Ok? ==> Refused(start, data, p)
      ensures core.errno.Ok? && due ==> Finished(start, data, p + 1)
      ensures core.errno.Ok? && !due ==> At(start, data, p + 1, mark', 0)
    {
      hide Dispatch, Next, Run, AddData, Http.Valid, Store.Valid, Report;
      ghost var m := Run(start, data[..p]);
      var ch := data[p];
      var move := Dispatch(core, ch);
      ValidCore(m, if ParsingHeader(core.state) then 1 else 0);
      OneMore(start, data, p);
      NextIs(m, core, ch);
      core := move.core;
      mark', due := None, false;
      if !core.errno.Ok? {
        StoppedThere(start, data, p + 1);
        return;
      }
      DispatchMarks(old(core), ch);
      NextValid(m, ch);
      ReportEnds(m.seen, move, ch);
      mark', due := Apply(move, data, p, mark);
      if due {
        StoppedThere(start, data, p + 1);
      }
    }

    /** Bodies of known length: as many octets at once as are at hand and belong to the body. */
    method Identity(ghost start: Machine, data: bytes, p: nat, mark: Marks) returns (q: nat, mark': Marks, due: bool)
      requires p < |data| && core.state.BodyIdentity? && start.taken == 0 && At(start, data, p, mark, 0)
      modifies this, headers, headers.s, headers.s.buf
      ensures p < q <= |data|
      ensures if due then core.errno.Ok? && Finished(start, data, q) else core.errno.Ok? && At(start, data, q, mark', 0)
    {
      hide Next, Run, AddData, Http.Valid, ShouldKeepAlive, Store.Valid, NeedsEof;
      ghost var m := Run(start, data[..p]);
      ValidCore(m, 0);
      var toRead := if core.length < |data| - p then core.length else |data| - p;
      q := p + toRead;
      mark' := if mark.Some? then mark else Some((BodyData, p));
      SomeMore(start, data, p, q);
      RunValid(m, data[p..q]);
      BodyMarked(seen, mark, mark', data, p, q);
      IdentityBody(m, data[p..q]);
      core := core.(length := core.length - toRead);
      due := core.length == 0;
      if due {
        core := Complete(core).core;
        Callback(BodyData, data[mark'.value.1..q]);
        seen := seen.(notes := seen.notes + [MessageComplete]);
        mark' := None;
        StoppedThere(start, data, q);
      }
    }

    method Chunk(ghost start: Machine, data: bytes, p: nat, mark: Marks) returns (q: nat, mark': Marks)
      requires p < |data| && core.state.ChunkData? && start.taken == 0 && At(start, data, p, mark, 0)
      modifies `core
      ensures core.errno.Ok? && p < q <= |data| && At(start, data, q, mark', 0)
    {
      hide Next, Run, AddData, Http.Valid, Store.Valid;
      ghost var m := Run(start, data[..p]);
      ValidCore(m, 0);
      assert 0 < core.length < UNKNOWN;
      var toRead := if core.length < |data| - p then core.length else |data| - p;
      q := p + toRead;
      mark' := if mark.Some? then mark else Some((BodyData, p));
      SomeMore(start, data, p, q);
      RunValid(m, data[p..q]);
      BodyMarked(seen, mark, mark', data, p, q);
      DataRun(m, data[p..q]);
      core := core.(length := core.length - toRead);
      if core.length == 0 {
        core := core.(state := ChunkDataAlmostDone);
      }
    }

    /** Until the connection ends, everything is body. */
    method Rest(ghost start: Machine, data: bytes, p: nat, mark: Marks) returns (mark': Marks)
      requires p < |data| && core.state.BodyIdentityEof? && start.taken == 0 && At(start, data, p, mark, 0)
      ensures core.errno.Ok? && At(start, data, |data|, mark', 0)
    {
      hide Next, Run, AddData, Http.Valid, Store.Valid;
      ghost var m := Run(start, data[..p]);
      ValidCore(m, 0);
      mark' := if mark.Some? then mark else Some((BodyData, p));
      SomeMore(start, data, p, |data|);
      RunValid(m, data[p..|data|]);
      BodyMarked(seen, mark, mark', data, p, |data|);
      EofBody(m, data[p..|data|]);
    }

    /** Counts `n` octets of a head; false if they are too many. */
    method CountHeaderSize(n: nat) returns (ok: bool)
      modifies `core
      ensures ok == (old(core.nread) + n <= MAX_HEADER_SIZE)
      ensures core == old(core).(nread := old(core.nread) + n, errno := if ok then old(core.errno) else HeaderOverflow)
    {
      core := core.(nread := core.nread + n);
      ok := core.nread <= MAX_HEADER_SIZE;
      if !ok {
        core := core.(errno := HeaderOverflow);
      }
    }

    /** What reading from `p` to `q` has left of the parser's duties. */
    ghost predicate Read(start: Machine, data: bytes, p: nat, q: nat, mark: Marks)
      reads this, headers, headers.s, headers.s.buf
    {
      && p <= q <= |data| && mark.Some? && mark.value.1 <= p && core.nread >= 1
      && headers.Valid() && headers.progress == seen.head
      && Reading(start, data, p, q, core, seen, mark)
    }

    /** Reads on in a name, fast while it is not one to be recognized. */
    method ScanName(ghost start: Machine, data: bytes, p: nat, ghost mark: Marks) returns (q: nat)
      requires core.state.InName? && mark.Some? && mark.value.0.FieldData? && Read(start, data, p, p, mark)
      modifies `core
      ensures core.state.InName? && Read(start, data, p, q, mark)
      ensures q < |data| ==> Token(data[q]) == 0
    {
      hide Token, NameStep, Reading;
      q := p;
      while q < |data| && Token(data[q]) != 0
        invariant core.state.InName? && Read(start, data, p, q, mark)
      {
        NameReads(start, data, p, q, core, seen, mark);
        if core.header.General? {
          NameGeneral(core, Token(data[q]), data[q]);
          ghost var c := core;
          var pe := q + if |data| - q < MAX_HEADER_SIZE then |data| - q else MAX_HEADER_SIZE;
          while q + 1 < pe && Token(data[q + 1]) != 0
            invariant p <= q < pe && core == c
            invariant Read(start, data, p, q + 1, mark)
          {
            q := q + 1;
            NameReads(start, data, p, q, core, seen, mark);
            NameGeneral(core, Token(data[q]), data[q]);
          }
        } else {
          core := NameStep(core, Token(data[q]), data[q]);
        }
        q := q + 1;
      }
    }

    lemma StartsReading(start: Machine, data: bytes, p: nat, mark: Marks)
      requires p < |data| && At(start, data, p, mark, 1) && (core.state.InName? || core.state.InText?)
      requires core.nread <= MAX_HEADER_SIZE
      ensures Read(start, data, p, p, mark)
    {
      hide Run, AddData, Http.Valid, Store.Valid;
    }

    method Name(ghost start: Machine, data: bytes, p: nat, mark: Marks) returns (q: nat, mark': Marks)
      requires p < |data| && core.state.InName? && start.taken == 0 && At(start, data, p, mark, 1)
      requires core.nread <= MAX_HEADER_SIZE
      modifies this, headers, headers.s, headers.s.buf
      ensures !core.errno.Ok? ==> Refused(start, data, q)
      ensures core.errno.Ok? ==> p < q <= |data| && At(start, data, q, mark', 0)
    {
      hide Token, NameStep, Reading, AddData, Run, Next, Http.Valid, Store.Valid, RefusedAt;
      StartsReading(start, data, p, mark);
      q := ScanName(start, data, p, mark);
      mark' := mark;
      ReadingOk(start, data, p, q, core, seen, mark);
      if q == |data| {
        EndsReading(start, data, p, core, seen, mark);
        var ok := CountHeaderSize(q - 1 - p);
        if !ok {
          IsRefused(start, data, q, HeaderOverflow);
        }
      } else {
        EndOfName(start, data, p, q, core, seen, mark);
        var ok := CountHeaderSize(q - p);
        if !ok {
          IsRefused(start, data, q, HeaderOverflow);
        } else if data[q] == COLON {
          core := core.(state := DiscardWs);
          Callback(FieldData, data[mark.value.1..q]);
          mark' := None;
          q := q + 1;
        } else {
          core := core.(errno := InvalidHeaderToken);
          IsRefused(start, data, q, InvalidHeaderToken);
        }
      }
    }

    /** Reads on in a value to the end of its line, fast while nothing in it is to be recognized. */
    method ScanText(ghost start: Machine, data: bytes, p: nat, ghost mark: Marks) returns (q: nat)
      requires core.state.InText? && mark.Some? && mark.value.0.ValueData? && Read(start, data, p, p, mark)
      modifies `core
      ensures headers.Valid() && headers.progress == seen.head
      ensures if core.errno.Ok? then
                core.state.InText? && Read(start, data, p, q, mark) && (q < |data| ==> IsLineEnd(data[q]))
              else RefusedAt(start, data, q, core.errno)
    {
      hide TextStep, Reading, IsHeaderChar;
      q := p;
      ReadingOk(start, data, p, q, core, seen, mark);
      while q < |data| && !IsLineEnd(data[q])
        invariant core.state.InText? && core.errno.Ok? && Read(start, data, p, q, mark)
      {
        if !IsHeaderChar(data[q]) {
          BadText(start, data, p, q, core, seen, mark);
          core := core.(errno := InvalidHeaderToken);
          return;
        }
        if core.header.General? {
          var ok;
          q, ok := SkimText(start, data, p, q, mark);
          if !ok {
            return;
          }
        } else {
          TextReads(start, data, p, q, core, seen, mark);
          core := TextStep(core, data[q]);
          if !core.errno.Ok? {
            return;
          }
        }
        q := q + 1;
      }
    }

    /**
     * The rest of a value in which nothing is to be recognized, but no more than the size limit. An
     * octet behind that is skipped, which makes the head too long in any case.
     */
    method SkimText(ghost start: Machine, data: bytes, p: nat, from: nat, ghost mark: Marks) returns (q: nat, ok: bool)
      requires core.state.InText? && core.header.General? && mark.Some? && mark.value.0.ValueData?
      requires Read(start, data, p, from, mark) && from < |data| && !IsLineEnd(data[from]) && core.errno.Ok?
      modifies `core
      ensures headers.Valid() && headers.progress == seen.head && from <= q < |data|
      ensures if ok then core == old(core) && Read(start, data, p, q + 1, mark)
              else !core.errno.Ok? && RefusedAt(start, data, q, core.errno)
    {
      hide TextStep, Reading, IsHeaderChar;
      var pe := from + if |data| - from < MAX_HEADER_SIZE then |data| - from else MAX_HEADER_SIZE;
      q := from;
      while q != pe && !IsLineEnd(data[q])
        invariant from <= q <= pe && core == old(core)
        invariant Read(start, data, p, q, mark)
        decreases pe - q
      {
        if !IsHeaderChar(data[q]) {
          BadText(start, data, p, q, core, seen, mark);
          core := core.(errno := InvalidHeaderToken);
          return q, false;
        }
        TextReads(start, data, p, q, core, seen, mark);
        TextGeneral(core, data[q]);
        q := q + 1;
      }
      if q == |data| || q < pe {
        q := q - 1;
      } else {
        Overruns(start, data, p, q, core, seen, mark);
      }
      ok := true;
    }

    method Text(ghost start: Machine, data: bytes, p: nat, mark: Marks) returns (q: nat, mark': Marks)
      requires p < |data| && core.state.InText? && start.taken == 0 && At(start, data, p, mark, 1)
      requires core.nread <= MAX_HEADER_SIZE
      modifies this, headers, headers.s, headers.s.buf
      ensures !core.errno.Ok? ==> Refused(start, data, q)
      ensures core.errno.Ok? ==> p < q <= |data| && At(start, data, q, mark', 0)
    {
      hide TextStep, Reading, AddData, Run, Next, Http.Valid, Store.Valid, RefusedAt;
      ghost var m := Run(start, data[..p]);
      ValidCore(m, 1);
      MarkedText(seen, mark, data, p);
      StartsReading(start, data, p, mark);
      q := ScanText(start, data, p, mark);
      mark' := mark;
      if !core.errno.Ok? {
        IsRefused(start, data, q, core.errno);
        return;
      }
      if q == |data| {
        EndsReading(start, data, p, core, seen, mark);
        var ok := CountHeaderSize(q - 1 - p);
        if !ok {
          IsRefused(start, data, q, HeaderOverflow);
        }
      } else {
        q, mark' := EndText(start, data, p, q, mark);
      }
    }

    /** A value ends with its line, and is reported. */
    method EndText(ghost start: Machine, data: bytes, p: nat, at: nat, mark: Marks) returns (q: nat, mark': Marks)
      requires at < |data| && core.state.InText? && IsLineEnd(data[at]) && core.errno.Ok?
      requires Read(start, data, p, at, mark)
      requires mark.value.0.ValueData? && Http.Valid(Run(start, data[..p])) && !seen.head.part.Nothing?
      modifies this, headers, headers.s, headers.s.buf
      ensures !core.errno.Ok? ==> Refused(start, data, q)
      ensures core.errno.Ok? ==> q == at + 1 && At(start, data, q, mark', 0)
    {
      hide Reading, AddData, Run, Next, Http.Valid, Store.Valid, RefusedAt;
      EndOfText(start, data, p, at, core, seen, mark);
      mark', q := None, at;
      if data[at] == CR {
        core := core.(state := HeaderAlmostDone);
        Callback(ValueData, data[mark.value.1..at]);
        var ok := CountHeaderSize(at - p);
        if !ok {
          IsRefused(start, data, at, HeaderOverflow);
          return;
        }
      } else {
        var ok := CountHeaderSize(at - p);
        if !ok {
          IsRefused(start, data, at, HeaderOverflow);
          return;
        }
        Callback(ValueData, data[mark.value.1..at]);
        core := core.(state := ValueLws);
      }
      q := at + 1;
    }

    /** Counts the next octet, unless it belongs to a body. */
    method CountOctet(ghost start: Machine, data: bytes, p: nat, mark: Marks) returns (ok: bool)
      requires p < |data| && At(start, data, p, mark, 0)
      modifies `core
      ensures core.state == old(core.state)
      ensures if ok then
                && At(start, data, p, mark, if ParsingHeader(core.state) then 1 else 0)
                && (ParsingHeader(core.state) ==> core.nread <= MAX_HEADER_SIZE)
              else !core.errno.Ok? && Refused(start, data, p)
    {
      hide Reading, AddData, Run, Next, Http.Valid, Store.Valid, RefusedAt;
      ValidCore(Run(start, data[..p]), 0);
      ok := true;
      if ParsingHeader(core.state) {
        CountsOne(start, data, p, core, seen, mark);
        ok := CountHeaderSize(1);
        if !ok {
          IsRefused(start, data, p, HeaderOverflow);
        }
      }
    }

    /** One stretch: what the state reads at once. */
    method Stretch(ghost start: Machine, data: bytes, p: nat, mark: Marks) returns (q: nat, mark': Marks, due: bool)
      requires p < |data| && start.taken == 0 && At(start, data, p, mark, 0)
      modifies this, headers, headers.s, headers.s.buf
      ensures !core.errno.Ok? ==> Refused(start, data, q)
      ensures core.errno.Ok? && due ==> Finished(start, data, q)
      ensures core.errno.Ok? && !due ==> p < q <= |data| && At(start, data, q, mark', 0)
    {
      hide At, Refused, Finished, Reading, AddData, Run, Next, Http.Valid, Store.Valid, RefusedAt;
      q, mark', due := p, mark, false;
      var ok := CountOctet(start, data, p, mark);
      if !ok {
        return;
      }
      match core.state {
        case InName => q, mark' := Name(start, data, p, mark);
        case InText => q, mark' := Text(start, data, p, mark);
        case BodyIdentity => q, mark', due := Identity(start, data, p, mark);
        case ChunkData => q, mark' := Chunk(start, data, p, mark);
        case BodyIdentityEof =>
          mark' := Rest(start, data, p, mark);
          q := |data|;
        case _ =>
          mark', due := Other(start, data, p, mark);
          if core.errno.Ok? {
            q := p + 1;
          }
      }
    }

    /** Where data that a former call left unfinished goes on. */
    method FirstMark(ghost start: Machine, data: bytes) returns (mark: Marks)
      requires Valid() && core.errno.Ok? && !Over(seen) && start == Machine(core, seen, 0)
      ensures At(start, data, 0, mark, 0)
    {
      hide AddData, Next, Http.Valid, Store.Valid;
      ValidCore(start, 0);
      mark := if core.state.InName? then Some((FieldData, 0))
              else if core.state.InText? then Some((ValueData, 0))
              else None;
      if mark.Some? {
        AddNothing(seen, mark.value.0);
      }
    }

    /** The connection has ended. */
    method Eof() returns (n: nat)
      requires Valid() && core.errno.Ok? && !Over(seen)
      modifies `core, `seen
      ensures var r := AtEof(Machine(old(core), old(seen), 0)); core == r.core && seen == r.seen
      ensures headers.Valid() && headers.progress == seen.head && n == if core.errno.Ok? then 0 else 1
    {
      hide Store.Valid, Http.Valid, Over;
      n := 0;
      match core.state {
        case BodyIdentityEof => seen := seen.(notes := seen.notes + [MessageComplete]);
        case Dead =>
        case StartRes =>
        case _ =>
          core := core.(errno := InvalidEofState);
          n := 1;
      }
    }

    /**
     * Parses the next stretch of a response; no input means that the connection has ended. Returns
     * how much was taken, and whether the message is over.
     */
    method Execute(data: bytes) returns (n: nat, due: bool)
      requires Valid() && !Over(seen)
      modifies this, headers, headers.s, headers.s.buf
      ensures headers.Valid()
      ensures var start := Machine(old(core), old(seen), 0);
              if data == [] then core == AtEof(start).core && seen == AtEof(start).seen
              else if Run(start, data).core.errno.Ok? then
                core == Run(start, data).core && seen == Run(start, data).seen && n == Run(start, data).taken
              else Refused(start, data, n)
      ensures core.errno.Ok? ==> Valid()
      ensures due == (core.errno.Ok? && Over(seen))
    {
      hide AddData, Run, Next, Http.Valid, Store.Valid, RefusedAt, Over;
      ghost var start := Machine(core, seen, 0);
      n, due := 0, false;
      if !core.errno.Ok? {
        AlreadyStopped(start, data);
        return;
      }
      if data == [] {
        n := Eof();
        EofValid(start);
        due := core.errno.Ok? && core.state.BodyIdentityEof?;
        return;
      }
      var mark := FirstMark(start, data);
      var p := 0;
      while p < |data|
        invariant !due && p <= |data| && At(start, data, p, mark, 0)
        decreases |data| - p
      {
        p, mark, due := Stretch(start, data, p, mark);
        if !core.errno.Ok? || due {
          RunKeeps(start, data);
          return p, due && core.errno.Ok?;
        }
      }
      assert data[..|data|] == data;
      if mark.Some? {
        if mark.value.0.ValueData? {
          ValidCore(Run(start, data), 0);
          MarkedText(seen, mark, data, |data|);
        }
        assert data[mark.value.1..|data|] == data[mark.value.1..];
        Callback(mark.value.0, data[mark.value.1..]);
      }
      StillGoing(Run(start, data));
      n := |data|;
    }
  }

  lemma CountsOne(start: Machine, data: bytes, p: nat, c: Core, s: Seen, mark: Marks)
    requires p < |data| && !Stopped(Run(start, data[..p])) && Run(start, data[..p]).core == c && ParsingHeader(c.state)
    ensures c.nread + 1 > MAX_HEADER_SIZE ==> RefusedAt(start, data, p, HeaderOverflow)
  {
    hide Dispatch, Run;
    if c.nread + 1 > MAX_HEADER_SIZE {
      RunTaken(start, data[..p]);
      OneMore(start, data, p);
      StoppedThere(start, data, p + 1);
    }
  }

  lemma AlreadyStopped(start: Machine, data: bytes)
    requires !start.core.errno.Ok?
    ensures Run(start, data) == start && AtEof(start) == start
  {
    RunStopped(start, data);
  }

  lemma EofValid(m: Machine)
    requires Http.Valid(m) && !Stopped(m)
    ensures Http.Valid(AtEof(m))
    ensures AtEof(m).core.errno.Ok? ==> (Over(AtEof(m).seen) <==> m.core.state.BodyIdentityEof?)
  {}

  lemma RunKeeps(start: Machine, data: bytes)
    requires Http.Valid(start)
    ensures Http.Valid(Run(start, data))
    ensures forall n :: Http.Valid(Run(start, data)) ==> Http.Valid(Run(start, data).(taken := n))
  {
    hide Run;
    RunValid(start, data);
  }

  lemma StillGoing(m: Machine)
    requires !Stopped(m) && Http.Valid(m)
    ensures !Over(m.seen) && m.core.errno.Ok? && Http.Valid(m.(taken := 0))
  {}

  lemma IsRefused(start: Machine, data: bytes, q: nat, e: Errno)
    requires RefusedAt(start, data, q, e)
    ensures var r := Run(start, data);
            && !r.core.errno.Ok?
            && if r.core.errno.HeaderOverflow? then r.taken <= start.taken + q
               else r.core.errno == e && r.taken == q
  {}

  lemma TextGeneral(c: Core, ch: byte)
    requires c.header.General?
    ensures TextStep(c, ch) == c
  {}

  /** A value is marked only behind a name. */
  lemma MarkedText(s: Seen, mark: Marks, data: bytes, p: nat)
    requires p <= |data| && mark.Some? && mark.value.0.ValueData? && mark.value.1 <= p
    requires !WithMark(s, mark, data, p).head.part.Nothing?
    ensures !s.head.part.Nothing?
  {}

  lemma BadText(start: Machine, data: bytes, p: nat, q: nat, c: Core, s: Seen, mark: Marks)
    requires p <= q < |data| && mark.Some? && mark.value.1 <= p && c.nread >= 1
    requires Reading(start, data, p, q, c, s, mark) && c.state.InText? && !IsHeaderChar(data[q])
    ensures RefusedAt(start, data, q, InvalidHeaderToken)
  {
    hide Run, AddData, Reading, Next;
    if c.nread + (q - p) > MAX_HEADER_SIZE {
      Overruns(start, data, p, q, c, s, mark);
      assert RefusedAt(start, data, q, InvalidHeaderToken);
    } else {
      Tracked(start, data, p, q, c, s, mark);
      OneMore(start, data, q);
      NextIs(Run(start, data[..q]), c.(nread := c.nread + (q - p)), data[q]);
      StoppedThere(start, data, q + 1);
    }
  }

  /** A value ends with its line. */
  lemma EndOfText(start: Machine, data: bytes, p: nat, q: nat, c: Core, s: Seen, mark: Marks)
    requires p <= q < |data| && mark.Some? && mark.value.1 <= p && c.nread >= 1
    requires Reading(start, data, p, q, c, s, mark) && Http.Valid(Run(start, data[..p]))
    requires c.state.InText? && IsLineEnd(data[q])
    ensures if c.nread + (q - p) > MAX_HEADER_SIZE then RefusedAt(start, data, q, HeaderOverflow)
            else
              var r := Run(start, data[..q + 1]);
              && !Stopped(r) && Http.Valid(r) && r.taken == q + 1 && r.seen == WithMark(s, mark, data, q)
              && r.core == c.(nread := c.nread + (q - p), state := if data[q] == CR then HeaderAlmostDone else ValueLws)
  {
    hide Run, AddData, Http.Valid, Reading, Next;
    if c.nread + (q - p) > MAX_HEADER_SIZE {
      Overruns(start, data, p, q, c, s, mark);
    } else {
      Tracked(start, data, p, q, c, s, mark);
      ReadingOk(start, data, p, q, c, s, mark);
      OneMore(start, data, q);
      var r := Run(start, data[..q]);
      NextIs(r, c.(nread := c.nread + (q - p)), data[q]);
      NoData(r.seen, c.(nread := c.nread + (q - p), state := if data[q] == CR then HeaderAlmostDone else ValueLws),
        End(ValueData), data[q]);
      SomeMore(start, data, p, q + 1);
      RunValid(Run(start, data[..p]), data[p..q + 1]);
    }
  }

  /** As long as the head is not too long, the octet machine has read the same. */
  lemma Tracked(start: Machine, data: bytes, p: nat, q: nat, c: Core, s: Seen, mark: Marks)
    requires p <= q <= |data| && mark.Some? && mark.value.1 <= p && c.nread >= 1
    requires Reading(start, data, p, q, c, s, mark) && c.nread + (q - 1 - p) <= MAX_HEADER_SIZE
    ensures var r := Run(start, data[..q]);
            && !Stopped(r) && r.taken == q && r.seen == WithMark(s, mark, data, q)
            && r.core == c.(nread := c.nread - 1 + (q - p))
  {
    hide Run, AddData;
  }

  /** The input ends within a name or a value. */
  lemma EndsReading(start: Machine, data: bytes, p: nat, c: Core, s: Seen, mark: Marks)
    requires p < |data| && mark.Some? && mark.value.1 <= p && c.nread >= 1
    requires Reading(start, data, p, |data|, c, s, mark) && Http.Valid(Run(start, data[..p]))
    ensures if c.nread + (|data| - 1 - p) > MAX_HEADER_SIZE then RefusedAt(start, data, |data|, HeaderOverflow)
            else
              var r := Run(start, data[..|data|]);
              && !Stopped(r) && Http.Valid(r) && r.taken == |data| && r.seen == WithMark(s, mark, data, |data|)
              && r.core == c.(nread := c.nread + (|data| - 1 - p))
  {
    hide Run, AddData, Http.Valid, Reading;
    if c.nread + (|data| - 1 - p) > MAX_HEADER_SIZE {
      RunOut(start, data, p, c, s, mark);
    } else {
      Tracked(start, data, p, |data|, c, s, mark);
      SomeMore(start, data, p, |data|);
      RunValid(Run(start, data[..p]), data[p..|data|]);
    }
  }

  /** A name ends with a colon, or is wrong. */
  lemma EndOfName(start: Machine, data: bytes, p: nat, q: nat, c: Core, s: Seen, mark: Marks)
    requires p <= q < |data| && mark.Some? && mark.value.1 <= p && c.nread >= 1
    requires Reading(start, data, p, q, c, s, mark) && Http.Valid(Run(start, data[..p]))
    requires c.state.InName? && Token(data[q]) == 0
    ensures if c.nread + (q - p) > MAX_HEADER_SIZE then RefusedAt(start, data, q, HeaderOverflow)
            else if data[q] == COLON then
              var r := Run(start, data[..q + 1]);
              && !Stopped(r) && Http.Valid(r) && r.taken == q + 1 && r.seen == WithMark(s, mark, data, q)
              && r.core == c.(nread := c.nread + (q - p), state := DiscardWs)
            else RefusedAt(start, data, q, InvalidHeaderToken)
  {
    hide Run, AddData, Http.Valid, Reading, Token, Next;
    if c.nread + (q - p) > MAX_HEADER_SIZE {
      Overruns(start, data, p, q, c, s, mark);
    } else {
      Tracked(start, data, p, q, c, s, mark);
      ReadingOk(start, data, p, q, c, s, mark);
      OneMore(start, data, q);
      var r := Run(start, data[..q]);
      NextIs(r, c.(nread := c.nread + (q - p)), data[q]);
      if data[q] == COLON {
        NoData(r.seen, c.(nread := c.nread + (q - p), state := DiscardWs), End(FieldData), data[q]);
        SomeMore(start, data, p, q + 1);
        RunValid(Run(start, data[..p]), data[p..q + 1]);
      } else {
        StoppedThere(start, data, q + 1);
      }
    }
  }

  lemma ReportEnds(s: Seen, m: Move, ch: byte)
    requires !Over(s)
    ensures Over(Report(s, m, ch)) <==> EndsMessage(m.notes)
  {}

  lemma NoData(s: Seen, c: Core, mark: Mark, ch: byte)
    requires !mark.Take?
    ensures Report(s, Move(c, false, mark, []), ch) == s
  {
    assert s.notes + [] == s.notes;
  }

  lemma NameGeneral(c: Core, t: byte, ch: byte)
    requires c.header.General?
    ensures NameStep(c, t, ch) == c
  {}

  lemma BodyMarked(s: Seen, mark: Marks, mark': Marks, data: bytes, p: nat, q: nat)
    requires p <= q <= |data| && (mark.Some? ==> mark.value.0.BodyData? && mark.value.1 <= p)
    requires mark' == if mark.Some? then mark else Some((BodyData, p))
    ensures WithMark(s, mark', data, q) == WithBody(WithMark(s, mark, data, p), data[p..q])
  {
    if mark.Some? {
      MarkGrows(s, BodyData, mark.value.1, data, p, q);
    }
  }
}
