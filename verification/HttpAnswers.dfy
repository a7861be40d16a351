// A response head that has nothing but what an upgrade needs, and other headers that the parser
// does not interpret, is not refused, and its flags say what it has.

module HttpAnswers {
  import opened Octets
  import opened Headers
  import opened Http
  import opened HttpRuns
  import opened HttpHeads
  import opened HttpNames

  predicate IsConnection(h: Header) {
    Lowered(h.name) == CONNECTION || Lowered(h.name) == PROXY_CONNECTION
  }

  predicate IsUpgrade(h: Header) {
    Lowered(h.name) == UPGRADE
  }

  /** No header about the length of a body, and none about the connection but that it is upgraded. */
  predicate Benign(h: Header) {
    && IsHeader(h)
    && Lowered(h.name) != CONTENT_LENGTH && !(TRANSFER_ENCODING <= Lowered(h.name))
    && (IsConnection(h) ==> SameIgnoringCase(h.value, UPGRADE))
  }

  /** What a benign header says. */
  function Effect(f: Flags, h: Header): Flags {
    if IsConnection(h) then f.(connectionUpgrade := true)
    else if IsUpgrade(h) && h.value != [] then f.(upgrade := true)
    else f
  }

  function Effects(f: Flags, hs: seq<Header>): Flags
    decreases |hs|
  {
    if hs == [] then f else Effects(Effect(f, hs[0]), hs[1..])
  }

  // ---- Values ----

  lemma {:induction false} AnyText(m: Machine, s: bytes)
    requires !Stopped(m) && m.core.state.InText? && m.core.header.General? && m.core.nread + |s| <= MAX_HEADER_SIZE
    requires forall b :: b in s ==> IsHeaderChar(b) && !IsLineEnd(b)
    ensures !Stopped(Run(m, s)) && Run(m, s).core == m.core.(nread := m.core.nread + |s|)
    decreases |s|
  {
    if s != [] {
      hide IsHeaderChar;
      assert s[0] in s;
      assert m.seen.notes + [] == m.seen.notes;
      AnyText(Next(m, s[0]), s[1..]);
    }
  }

  /** The rest of the word `upgrade`, from its character `i` on. */
  lemma {:induction false} UpgradeText(m: Machine, i: nat, s: bytes)
    requires !Stopped(m) && m.core.state.InText? && m.core.nread + |s| <= MAX_HEADER_SIZE
    requires 1 <= i < 7 && |s| == 7 - i && m.core.header.MatchingConnectionUpgrade? && m.core.index == i - 1
    requires forall j :: 0 <= j < |s| ==> ToLower(s[j]) == UPGRADE[i + j]
    ensures var r := Run(m, s);
            && !Stopped(r)
            && r.core == m.core.(header := IsConnectionUpgrade, index := 6, nread := m.core.nread + |s|)
    decreases |s|
  {
    UpgradeOctet(m, i, s[0]);
    if |s| > 1 {
      assert forall j :: 0 <= j < |s[1..]| ==> s[1..][j] == s[j + 1];
      UpgradeText(Next(m, s[0]), i + 1, s[1..]);
    } else {
      assert s[1..] == [];
    }
  }

  lemma LowerLetter(ch: byte, letter: byte)
    requires ToLower(ch) == letter && 0x61 <= letter <= 0x7a
    ensures Lower(ch) == letter && IsHeaderChar(ch) && !IsLineEnd(ch) && !IsBlank(ch)
  {}

  lemma UpgradeLetters()
    ensures UPGRADE == [0x75, 0x70, 0x67, 0x72, 0x61, 0x64, 0x65]
  {}

  lemma UpgradeOctet(m: Machine, i: nat, ch: byte)
    requires !Stopped(m) && m.core.state.InText? && m.core.nread < MAX_HEADER_SIZE
    requires 1 <= i < 7 && m.core.header.MatchingConnectionUpgrade? && m.core.index == i - 1
    requires ToLower(ch) == UPGRADE[i]
    ensures var r := Next(m, ch);
            && !Stopped(r)
            && r.core == m.core.(header := if i == 6 then IsConnectionUpgrade else MatchingConnectionUpgrade,
                                 index := i,
                                 nread := m.core.nread + 1)
  {
    UpgradeLetters();
    LowerLetter(ch, UPGRADE[i]);
    hide IsHeaderChar, Lower;
    assert m.seen.notes + [] == m.seen.notes;
  }

  /** The first octet of a value, by what the header was recognized as. */
  lemma ValueBegins(m: Machine, b: byte)
    requires !Stopped(m) && m.core.state.DiscardWs? && m.core.nread < MAX_HEADER_SIZE && !IsLineEnd(b) && !IsBlank(b)
    requires !m.core.header.ContentLength? && !m.core.header.TransferEncoding?
    requires m.core.header.Connection? ==> Lower(b) == 0x75
    requires m.core.header.Upgrade? || m.core.header.Connection? || m.core.header.General? || AtStart(m.core.header)
      || InWord(m.core.header)
    ensures var r := Next(m, b);
            && !Stopped(r)
            && r.core == m.core.(state := InText, index := 0, nread := m.core.nread + 1,
                                 header := if m.core.header.Connection? then MatchingConnectionUpgrade else General,
                                 flags := m.core.flags.(upgrade := m.core.flags.upgrade || m.core.header.Upgrade?))
  {
    hide Lower;
    assert m.seen.notes + [] == m.seen.notes;
  }

  lemma LineEndCore(m: Machine)
    requires !Stopped(m) && (m.core.state.InText? || m.core.state.DiscardWs?) && m.core.nread + 2 <= MAX_HEADER_SIZE
    ensures var r := Run(m, [CR, LF]);
            && !Stopped(r)
            && r.core == m.core.(state := if m.core.state.InText? then ValueLws else DiscardLws,
                                 nread := m.core.nread + 2)
  {
    RunTwo(m, CR, LF);
    assert m.seen.notes + [] == m.seen.notes;
    CrEndsText(m);
    CrOk(m);
  }

  lemma CrOk(m: Machine)
    requires !Stopped(m) && (m.core.state.InText? || m.core.state.DiscardWs?) && m.core.nread + 2 <= MAX_HEADER_SIZE
    ensures Next(m, CR).core.errno.Ok? && !Over(Next(m, CR).seen)
  {
    assert m.seen.notes + [] == m.seen.notes;
  }

  // ---- Lines ----

  /** The name of a benign header is recognized for what it is. */
  lemma NameRead(m: Machine, h: Header)
    requires Ready(m) && Benign(h) && m.core.nread + |h.name| + 2 <= MAX_HEADER_SIZE
    ensures var r := Run(m, h.name + [COLON, SPACE]);
            && !Stopped(r) && r.core.state.DiscardWs?
            && r.core == m.core.(state := DiscardWs, header := r.core.header, index := r.core.index,
                                 flags := LineFlags(m), nread := m.core.nread + |h.name| + 2)
            && (r.core.header.Upgrade? <==> IsUpgrade(h)) && (r.core.header.Connection? <==> IsConnection(h))
            && !r.core.header.ContentLength? && !r.core.header.TransferEncoding?
            && (r.core.header.Upgrade? || r.core.header.Connection? || r.core.header.General?
                 || AtStart(r.core.header) || InWord(r.core.header))
  {
    hide Ready, Matches, IsText, Ascii;
    Recognized(m, h.name);
    var r := Run(m, h.name + [COLON, SPACE]);
    OneMeaning(r.core.header, r.core.index, Lowered(h.name));
  }

  /** The value of a benign header, up to the end of its line. */
  lemma ValueRead(m: Machine, h: Header)
    requires !Stopped(m) && m.core.state.DiscardWs? && Benign(h) && m.core.nread + |h.value| + 2 <= MAX_HEADER_SIZE
    requires !m.core.header.ContentLength? && !m.core.header.TransferEncoding?
    requires m.core.header.Upgrade? || m.core.header.Connection? || m.core.header.General? || AtStart(m.core.header)
      || InWord(m.core.header)
    requires (m.core.header.Upgrade? <==> IsUpgrade(h)) && (m.core.header.Connection? <==> IsConnection(h))
    ensures var r := Run(m, h.value + [CR, LF]);
            && !Stopped(r) && !r.core.header.ContentLength?
            && r.core.state == (if h.value == [] then DiscardLws else ValueLws)
            && r.core == m.core.(state := r.core.state, header := r.core.header, index := r.core.index,
                                 flags := r.core.flags, nread := m.core.nread + |h.value| + 2)
            && LineFlags(r) == Effect(m.core.flags, h)
  {
    hide Next, IsHeaderChar, Lowered, Finished;
    var v := h.value;
    RunConcat(m, v, [CR, LF]);
    if v == [] {
      assert !IsConnection(h);
      FinishedPlain(m.core);
    } else if m.core.header.Connection? {
      ConnectionValue(m, v);
      FinishedPlain(Run(m, v).core);
    } else {
      ValueBegins(m, v[0]);
      AnyText(Next(m, v[0]), v[1..]);
      FinishedPlain(Run(m, v).core);
    }
    LineEndCore(Run(m, v));
    FinishedAlike(Run(m, v).core, Run(m, v + [CR, LF]).core);
  }

  lemma ConnectionValue(m: Machine, v: bytes)
    requires !Stopped(m) && m.core.state.DiscardWs? && m.core.header.Connection?
    requires m.core.nread + |v| <= MAX_HEADER_SIZE
    requires SameIgnoringCase(v, UPGRADE)
    ensures var r := Run(m, v);
            && !Stopped(r)
            && r.core == m.core.(state := InText, header := IsConnectionUpgrade, index := 6,
                                 nread := m.core.nread + |v|)
  {
    hide Next, Lower;
    UpgradeLetters();
    assert ToLower(v[0]) == UPGRADE[0];
    LowerLetter(v[0], UPGRADE[0]);
    ValueBegins(m, v[0]);
    forall j | 0 <= j < |v[1..]| ensures ToLower(v[1..][j]) == UPGRADE[1 + j] {
      assert v[1..][j] == v[1 + j];
    }
    UpgradeText(Next(m, v[0]), 1, v[1..]);
  }

  /** What finishing a line adds, by what the header was recognized as. */
  lemma FinishedPlain(c: Core)
    requires c.header.IsConnectionUpgrade? || c.header.General? || c.header.Upgrade? || AtStart(c.header)
      || InWord(c.header)
    ensures Finished(c).flags == if c.header.IsConnectionUpgrade? then c.flags.(connectionUpgrade := true) else c.flags
  {}

  lemma FinishedAlike(c: Core, d: Core)
    requires c.header == d.header && c.flags == d.flags
    ensures Finished(c).flags == Finished(d).flags
  {}

  lemma BenignLine(m: Machine, h: Header)
    requires Ready(m) && Benign(h) && m.core.nread + |Line(h)| <= MAX_HEADER_SIZE
    ensures var r := Run(m, Line(h));
            && Ready(r) && LineFlags(r) == Effect(LineFlags(m), h) && SameLine(m, r)
            && r.core.length == m.core.length && r.core.nread == m.core.nread + |Line(h)|
            && Spelled(r) == Spelled(m) + [h]
  {
    hide Next, Benign, Spelled, Effect, Ascii;
    var front, back := h.name + [COLON, SPACE], h.value + [CR, LF];
    assert Line(h) == front + back;
    RunConcat(m, front, back);
    NameRead(m, h);
    ValueRead(Run(m, front), h);
    BenignIs(h);
    HeaderLine(m, h);
  }

  lemma BenignIs(h: Header)
    requires Benign(h)
    ensures IsHeader(h)
  {}

  lemma {:induction false} BenignLines(m: Machine, hs: seq<Header>)
    requires Ready(m) && (forall h :: h in hs ==> Benign(h)) && m.core.nread + |Lines(hs)| <= MAX_HEADER_SIZE
    ensures var r := Run(m, Lines(hs));
            && Ready(r) && LineFlags(r) == Effects(LineFlags(m), hs) && SameLine(m, r)
            && r.core.length == m.core.length && r.core.nread == m.core.nread + |Lines(hs)|
            && Spelled(r) == Spelled(m) + hs
    decreases |hs|
  {
    hide Ready, Benign, Spelled, Effect, Next, Line;
    if hs == [] {
      assert Spelled(m) + [] == Spelled(m);
    } else {
      assert hs[0] in hs;
      RunConcat(m, Line(hs[0]), Lines(hs[1..]));
      BenignLine(m, hs[0]);
      BenignLines(Run(m, Line(hs[0])), hs[1..]);
      assert Spelled(m) + [hs[0]] + hs[1..] == Spelled(m) + hs;
    }
  }

  /** The empty line behind a benign head. */
  lemma BenignEnd(m: Machine)
    requires Ready(m) && m.core.nread + 2 <= MAX_HEADER_SIZE && m.core.length == UNKNOWN
    requires LineFlags(m) == NO_FLAGS.(upgrade := true, connectionUpgrade := true) && m.core.status == 101
    ensures var r := Run(m, [CR, LF]);
            r.core.errno.Ok? && Over(r.seen) && r.core.upgrade && r.core.status == 101
  {
    RunTwo(m, CR, LF);
    EndCr(m);
    hide ShouldKeepAlive;
  }

  lemma EndCr(m: Machine)
    requires Ready(m) && m.core.nread + 2 <= MAX_HEADER_SIZE
    ensures var r := Next(m, CR);
            && !Stopped(r)
            && r.core == m.core.(state := HeadersAlmostDone, flags := LineFlags(m), nread := m.core.nread + 1)
  {
    hide Finished, LengthOk, Completed, OnValueStart;
    FinishedKeeps(m.core.(nread := m.core.nread + 1), m.core);
    assert m.seen.notes + [] == m.seen.notes;
  }

  /** The flags of a benign head: upgraded to something, if some header says to what, and connected so. */
  lemma {:induction false} UpgradeSaid(f: Flags, hs: seq<Header>)
    ensures Effects(f, hs).upgrade <==> f.upgrade || exists i :: 0 <= i < |hs| && SaysUpgrade(hs[i])
    decreases |hs|
  {
    hide IsConnection, IsUpgrade;
    if hs != [] {
      UpgradeSaid(Effect(f, hs[0]), hs[1..]);
      assert forall i :: 1 <= i < |hs| ==> hs[i] == hs[1..][i - 1];
      if i :| 1 <= i < |hs| && SaysUpgrade(hs[i]) {
        assert SaysUpgrade(hs[1..][i - 1]);
      }
    }
  }

  predicate SaysUpgrade(h: Header) {
    !IsConnection(h) && IsUpgrade(h) && h.value != []
  }

  lemma {:induction false} ConnectionSaid(f: Flags, hs: seq<Header>)
    ensures Effects(f, hs).connectionUpgrade <==>
              f.connectionUpgrade || exists i :: 0 <= i < |hs| && IsConnection(hs[i])
    decreases |hs|
  {
    hide IsConnection, IsUpgrade;
    if hs != [] {
      ConnectionSaid(Effect(f, hs[0]), hs[1..]);
      assert forall i :: 1 <= i < |hs| ==> hs[i] == hs[1..][i - 1];
      if i :| 1 <= i < |hs| && IsConnection(hs[i]) {
        assert IsConnection(hs[1..][i - 1]);
      }
    }
  }

  lemma {:induction false} NothingElseSaid(f: Flags, hs: seq<Header>)
    ensures Effects(f, hs)
         == f.(upgrade := Effects(f, hs).upgrade, connectionUpgrade := Effects(f, hs).connectionUpgrade)
    decreases |hs|
  {
    hide Effect;
    if hs != [] {
      EffectKeeps(f, hs[0]);
      NothingElseSaid(Effect(f, hs[0]), hs[1..]);
    }
  }

  lemma EffectKeeps(f: Flags, h: Header)
    ensures Effect(f, h) == f.(upgrade := Effect(f, h).upgrade, connectionUpgrade := Effect(f, h).connectionUpgrade)
  {
    hide IsConnection, IsUpgrade;
  }

  /**
   * A benign head with status 101 that says it is upgraded is accepted as such: all of it is taken,
   * nothing is refused, and the message ends there.
   */
  lemma UpgradeHead(l: StatusLine, hs: seq<Header>)
    requires IsStatusLine(l) && Code(l) == 101 && forall h :: h in hs ==> Benign(h)
    requires |StatusText(l) + Lines(hs) + [CR, LF]| <= MAX_HEADER_SIZE
    requires (exists i :: 0 <= i < |hs| && SaysUpgrade(hs[i])) && exists i :: 0 <= i < |hs| && IsConnection(hs[i])
    ensures var text := StatusText(l) + Lines(hs) + [CR, LF];
            var r := Run(START, text);
            && r.core.errno.Ok? && Over(r.seen) && r.taken == |text|
            && r.core.status == 101 && r.core.upgrade && Completed(r.seen.head) == hs
  {
    hide Next, Benign, Spelled, Effect, Line, IsStatusLine, SaysUpgrade, IsConnection, Completed, Code, Ascii;
    var line := StatusText(l);
    StatusLineRun(l);
    var m := Run(START, line);
    BegunReady(l);
    BenignLines(m, hs);
    UpgradeSaid(NO_FLAGS, hs);
    ConnectionSaid(NO_FLAGS, hs);
    NothingElseSaid(NO_FLAGS, hs);
    RunConcat(START, line, Lines(hs));
    RunConcat(START, line + Lines(hs), [CR, LF]);
    BenignEnd(Run(m, Lines(hs)));
    forall h | h in hs ensures IsHeader(h) {
      BenignIs(h);
    }
    HeadRoundTrip(l, hs);
  }

  lemma BegunReady(l: StatusLine)
    requires IsStatusLine(l) && |StatusText(l)| <= MAX_HEADER_SIZE
    ensures var m := Run(START, StatusText(l));
            && Ready(m) && LineFlags(m) == NO_FLAGS && m.core.length == UNKNOWN && m.core.nread == |StatusText(l)|
            && Spelled(m) == [] && m.core.status == Code(l)
  {
    hide Run;
    StatusLineRun(l);
  }
}
