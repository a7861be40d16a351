// Where NUL can and cannot get into the headers of a response.

module HttpTidy {
  import opened Octets
  import opened Headers
  import opened Http
  import opened HttpRuns

  /** NUL-free behind the first octet. */
  predicate TailNulFree(v: bytes) {
    forall i :: 1 <= i < |v| ==> v[i] != 0
  }

  predicate TidyHeader(h: Header) {
    NulFree(h.name) && TailNulFree(h.value)
  }

  predicate TidyPart(part: Part) {
    match part
    case Nothing => true
    case Name(n) => NulFree(n)
    case Both(n, v) => NulFree(n) && TailNulFree(v)
  }

  predicate TidyHead(p: Progress) {
    (forall h :: h in p.done ==> TidyHeader(h)) && TidyPart(p.part)
  }

  /** No NUL in any name or value but in front of a value; and a finished message has no name alone. */
  predicate Tidy(m: Machine) {
    && TidyHead(m.seen.head)
    && (m.core.errno.Ok? && Over(m.seen) ==> !m.seen.head.part.Name?)
  }

  /** An octet taken into a name, or into a value that is begun, is not NUL; a message ends behind a value. */
  predicate PlainMove(c: Core, m: Move, ch: byte) {
    && (m.mark == Take(FieldData) ==> ch != 0)
    && (m.mark == Take(ValueData) && (c.state.InText? || c.state.ValueLws?) ==> ch != 0)
    && (m.mark == Take(ValueData) ==> c.state.InText? || c.state.ValueLws? || c.state.DiscardWs?)
    && (m.empty ==> c.state.DiscardLws?)
    && (EndsMessage(m.notes) ==> (m.mark.NoMark? || m.mark == Take(BodyData)) && (m.empty || !NamePending(c.state)))
  }

  lemma HeadersEndMark(c: Core, ch: byte)
    ensures OnHeadersAlmostDone(c, ch).mark.NoMark? && !OnHeadersAlmostDone(c, ch).empty
  {
    hide ShouldKeepAlive;
  }

  lemma FieldStartPlain(c: Core, ch: byte)
    ensures var m := OnFieldStart(c, ch);
            && !m.empty
            && (m.core.errno.Ok? ==> (m.mark == Take(FieldData) && ch != 0 && m.notes == []) || m.mark.NoMark?)
  {
    hide OnHeadersAlmostDone;
    HeadersEndMark(c, ch);
  }

  lemma ValueStartPlain(c: Core, ch: byte)
    requires OnValueStart(c, ch).core.errno.Ok?
    ensures OnValueStart(c, ch).mark == Take(ValueData) && OnValueStart(c, ch).notes == [] && !OnValueStart(c, ch).empty
  {
    hide Lower;
  }

  lemma WithinPlain(c: Core, ch: byte)
    requires (c.state.InText? || c.state.InName?) && Dispatch(c, ch).core.errno.Ok?
    ensures PlainMove(c, Dispatch(c, ch), ch)
  {
    hide NameStep, TextStep;
  }

  lemma HeadersPlain(c: Core, ch: byte)
    requires InHeaders(c.state) && Dispatch(c, ch).core.errno.Ok?
    ensures PlainMove(c, Dispatch(c, ch), ch)
  {
    hide OnHeadersAlmostDone, OnFieldStart, OnValueStart, OnText, OnName, Flagged;
    if c.state.InText? || c.state.InName? {
      WithinPlain(c, ch);
      return;
    }
    HeadersEndMark(c, ch);
    FieldStartPlain(c, ch);
    FieldStartPlain(Finished(c), ch);
    if c.state.DiscardWs? && !IsBlank(ch) && !IsLineEnd(ch) {
      ValueStartPlain(c, ch);
    } else if c.state.ValueLws? && IsBlank(ch) {
      ValueStartPlain(if c.header.ContentLengthNum? then c.(header := ContentLengthWs) else c, ch);
    }
  }

  lemma BodyPlain(c: Core, ch: byte)
    requires InBody(c.state) && Dispatch(c, ch).core.errno.Ok?
    ensures PlainMove(c, Dispatch(c, ch), ch)
  {
    hide Digit, Unhex, ShouldKeepAlive;
  }

  lemma DispatchPlain(c: Core, ch: byte)
    requires c.errno.Ok? && LengthOk(c) && Dispatch(c, ch).core.errno.Ok?
    ensures PlainMove(c, Dispatch(c, ch), ch)
  {
    hide Dispatch;
    if InHeaders(c.state) {
      HeadersPlain(c, ch);
    } else if InBody(c.state) {
      BodyPlain(c, ch);
    } else {
      LinePlain(c, ch);
    }
  }

  lemma LinePlain(c: Core, ch: byte)
    requires c.errno.Ok? && LengthOk(c) && !InHeaders(c.state) && !InBody(c.state) && Dispatch(c, ch).core.errno.Ok?
    ensures PlainMove(c, Dispatch(c, ch), ch)
  {
    LineMoves(c, ch);
  }

  /** One octet spelled. */
  lemma SayTidy(p: Progress, k: Kind, ch: byte)
    requires TidyHead(p)
    requires k.FieldData? || (k.ValueData? && p.part.Both?) ==> ch != 0
    ensures k.FieldData? ==> TidyHead(Say(p, Field([ch])))
    ensures k.ValueData? ==> TidyHead(Say(p, Value([ch])))
  {}

  lemma EmptyTidy(p: Progress)
    requires TidyHead(p)
    ensures TidyHead(Say(p, Value([])))
    ensures p.part.Name? ==> Say(p, Value([])).part.Both?
  {
    if p.part.Both? {
      assert p.part.value + [] == p.part.value;
    }
  }

  /** Every octet keeps the headers tidy. */
  lemma NextTidy(m: Machine, ch: byte)
    requires Valid(m) && Tidy(m)
    ensures Tidy(Next(m, ch))
  {
    hide Dispatch, TidyHead, LengthOk, Say;
    if !Stopped(m) && !(ParsingHeader(m.core.state) && m.core.nread + 1 > MAX_HEADER_SIZE) {
      var c := if ParsingHeader(m.core.state) then m.core.(nread := m.core.nread + 1) else m.core;
      var move := Dispatch(c, ch);
      if move.core.errno.Ok? {
        CountedLength(m.core, c);
        DispatchPlain(c, ch);
        EmptyTidy(m.seen.head);
        ReportTidy(m.seen, c, move, ch);
      }
    }
  }

  lemma CountedLength(c: Core, d: Core)
    requires LengthOk(c) && d == c.(nread := d.nread)
    ensures LengthOk(d)
  {}

  lemma ReportTidy(s: Seen, c: Core, m: Move, ch: byte)
    requires TidyHead(s.head) && Fits(c, s.head.part) && PlainMove(c, m, ch) && !Over(s)
    ensures TidyHead(Report(s, m, ch).head)
    ensures Over(Report(s, m, ch)) ==> !Report(s, m, ch).head.part.Name?
  {
    hide TidyHead, LengthOk;
    EmptyTidy(s.head);
    if m.mark.Take? {
      SayTidy(if m.empty then Say(s.head, Value([])) else s.head, m.mark.kind, ch);
    }
  }

  lemma {:induction false} RunTidy(m: Machine, s: bytes)
    requires Valid(m) && Tidy(m)
    ensures Tidy(Run(m, s)) && Valid(Run(m, s))
    decreases |s|
  {
    if s != [] {
      NextValid(m, s[0]);
      NextTidy(m, s[0]);
      RunTidy(Next(m, s[0]), s[1..]);
    }
  }

  lemma EofTidy(m: Machine)
    requires Valid(m) && Tidy(m)
    ensures Tidy(AtEof(m)) && Valid(AtEof(m))
  {}

  /**
   * A header that came through the parser can be stored as two strings, exactly if its value does
   * not begin with NUL.
   */
  lemma CleanExactly(h: Header)
    requires TidyHeader(h)
    ensures Clean(h) <==> h.value == [] || h.value[0] != 0
  {
    var v := h.value;
    if v != [] && v[0] == 0 {
      assert v[0] in v;
    } else {
      forall b | b in v ensures b != 0 {
        var i :| 0 <= i < |v| && v[i] == b;
      }
    }
  }

  lemma CompletedTidy(m: Machine)
    requires Tidy(m)
    ensures forall h :: h in Completed(m.seen.head) ==> TidyHeader(h)
  {}

  /** The first octet of a value is not checked: here is a NUL that gets through. */
  lemma NulGetsThrough(m: Machine)
    requires Valid(m) && !Stopped(m) && m.core.state.DiscardWs? && m.core.header.General?
    requires m.core.nread < MAX_HEADER_SIZE
    ensures Next(m, 0).core.errno.Ok? && Next(m, 0).seen.head.part == Both(m.seen.head.part.name, [0])
    ensures !NulFree(Next(m, 0).seen.head.part.value)
  {
    assert 0 in [0];
    assert m.seen.notes + [] == m.seen.notes;
  }
}
