// Messages that say where they end, cut off by the end of the connection.

module HttpCuts {
  import opened Octets
  import opened Headers
  import opened Http
  import opened HttpBodies
  import opened HttpHeads
  import opened HttpLengths
  import opened HttpRuns

  /** Between messages. */
  predicate Idle(s: State) {
    s.StartRes? || s.Dead?
  }

  lemma HeadEndBusy(c: Core, ch: byte)
    ensures var m := OnHeadersAlmostDone(c, ch);
            m.core.errno.Ok? && c.errno.Ok? && !Idle(c.state) ==> EndsMessage(m.notes) || !Idle(m.core.state)
  {
    hide ShouldKeepAlive, NeedsEof;
  }

  lemma FieldStartBusy(c: Core, ch: byte)
    requires c.errno.Ok? && !Idle(c.state)
    ensures var m := OnFieldStart(c, ch); m.core.errno.Ok? ==> EndsMessage(m.notes) || !Idle(m.core.state)
  {
    hide OnHeadersAlmostDone;
    HeadEndBusy(c, ch);
  }

  lemma HeadersBusy(c: Core, ch: byte)
    requires c.errno.Ok? && InHeaders(c.state)
    ensures var m := Dispatch(c, ch); m.core.errno.Ok? ==> EndsMessage(m.notes) || !Idle(m.core.state)
  {
    hide OnHeadersAlmostDone, OnFieldStart, OnValueStart, TextStep, NameStep, Token, IsHeaderChar, Finished;
    match c.state
    case FieldStart => FieldStartBusy(c, ch);
    case InName => NameStepKeeps(c, Token(ch), ch);
    case DiscardWs => ValueStartState(c, ch);
    case DiscardLws =>
      FinishedSame(c);
      FieldStartBusy(Finished(c), ch);
    case InText => TextStepSame(c, ch);
    case ValueLws =>
      FinishedSame(c);
      FieldStartBusy(Finished(c), ch);
      ValueStartState(if c.header.ContentLengthNum? then c.(header := ContentLengthWs) else c, ch);
    case HeadersAlmostDone => HeadEndBusy(c, ch);
    case _ =>
  }

  lemma ValueStartState(c: Core, ch: byte)
    ensures OnValueStart(c, ch).core.state.InText?
  {
    hide Lower;
  }

  lemma BodyBusy(c: Core, ch: byte)
    requires c.errno.Ok? && InBody(c.state)
    ensures var m := Dispatch(c, ch); m.core.errno.Ok? ==> EndsMessage(m.notes) || !Idle(m.core.state)
  {
    hide ShouldKeepAlive, Digit, Unhex;
    if c.state.ChunkSize? && Unhex(ch) >= 0 {
      DigitState(c, Unhex(ch));
    }
  }

  lemma DigitState(c: Core, d: nat)
    ensures Digit(c, 16, d).state == c.state
  {}

  lemma LineBusy(c: Core, ch: byte)
    requires c.errno.Ok? && !Idle(c.state) && !InHeaders(c.state) && !InBody(c.state)
    ensures var m := Dispatch(c, ch); m.core.errno.Ok? ==> !Idle(m.core.state)
  {}

  /** Within a message every octet leads on in it, or ends it. */
  lemma NextBusy(m: Machine, b: byte)
    requires !Stopped(m) && !Idle(m.core.state)
    ensures var r := Next(m, b); Stopped(r) || !Idle(r.core.state)
  {
    hide Dispatch;
    if !(ParsingHeader(m.core.state) && m.core.nread + 1 > MAX_HEADER_SIZE) {
      var c := if ParsingHeader(m.core.state) then m.core.(nread := m.core.nread + 1) else m.core;
      if InHeaders(c.state) {
        HeadersBusy(c, b);
      } else if InBody(c.state) {
        BodyBusy(c, b);
      } else {
        LineBusy(c, b);
      }
      var move := Dispatch(c, b);
      if EndsMessage(move.notes) {
        assert (m.seen.notes + move.notes)[|m.seen.notes + move.notes| - 1] == move.notes[|move.notes| - 1];
      }
    }
  }

  lemma {:induction false} RunBusy(m: Machine, s: bytes)
    requires !Stopped(m) && !Idle(m.core.state) && !Stopped(Run(m, s))
    ensures !Idle(Run(m, s).core.state)
    decreases |s|
  {
    if s != [] {
      hide Next;
      NextBusy(m, s[0]);
      if Stopped(Next(m, s[0])) {
        RunStopped(Next(m, s[0]), s[1..]);
      } else {
        RunBusy(Next(m, s[0]), s[1..]);
      }
    }
  }

  lemma BeginsBusy(b: byte)
    requires !IsLineEnd(b) && Next(START, b).core.errno.Ok?
    ensures !Stopped(Next(START, b)) && !Idle(Next(START, b).core.state)
  {
    assert [] + [MessageBegin] == [MessageBegin];
  }

  /** A message that says where it ends, cut off anywhere by the end of the connection, is refused. */
  lemma CutOff(s: bytes, k: nat)
    requires Run(START, s).core.errno.Ok? && Over(Run(START, s).seen) && Run(START, s).taken == |s|
    requires 0 < k < |s| && !IsLineEnd(s[0])
    ensures !Stopped(Run(START, s[..k])) && !AtEof(Run(START, s[..k])).core.errno.Ok?
  {
    hide Next;
    var m := Run(START, s[..k]);
    NotBefore(START, s, k);
    OkBefore(START, s, k);
    assert s[..k][0] == s[0] && s[..k] == [s[0]] + s[..k][1..];
    RunTaken(Next(START, s[0]), s[..k][1..]);
    BeginsBusy(s[0]);
    RunBusy(Next(START, s[0]), s[..k][1..]);
    assert s[..k] + s[k..] == s;
    RunConcat(START, s[..k], s[k..]);
    if m.core.state.BodyIdentityEof? {
      EofBody(m, s[k..]);
    }
  }
}
