// What follows a response head, by what is written in it: a body of the length that it says, chunks,
// nothing, or all until the connection ends (section 3.3.3 of RFC 7230).

module HttpLengths {
  import opened Octets
  import opened Headers
  import opened Http
  import opened HttpAnswers
  import opened HttpBodies
  import opened HttpHeads
  import opened HttpMessages
  import opened HttpNames
  import opened HttpRuns

  const CHUNKED: bytes := Ascii("chunked")

  /** A header that says nothing about a body. */
  predicate Silent(h: Header) {
    IsHeader(h) && Lowered(h.name) != CONTENT_LENGTH && !(TRANSFER_ENCODING <= Lowered(h.name))
  }

  /** A length in digits, which the parser can count. */
  predicate SaysLength(h: Header, n: nat) {
    && IsName(h.name) && Lowered(h.name) == CONTENT_LENGTH
    && h.value != [] && Numeral(10, h.value) && ValueOf(10, h.value) == n
  }

  /** Chunks, and no other coding. */
  predicate SaysChunked(h: Header) {
    IsName(h.name) && Lowered(h.name) == TRANSFER_ENCODING && SameIgnoringCase(h.value, CHUNKED)
  }

  /** Flags that say the same about a body. */
  predicate Alike(f: Flags, g: Flags) {
    g == f.(keepAlive := g.keepAlive, close := g.close, connectionUpgrade := g.connectionUpgrade, upgrade := g.upgrade)
  }

  // ---- Headers that say nothing about a body ----

  /** Where the parser is in the value of a Connection header. */
  predicate InConnection(h: HeaderMatch) {
    || h.MatchingKeepAlive? || h.MatchingClose? || h.MatchingConnectionUpgrade? || h.ConnectionToken?
    || h.ConnectionTokenStart? || h.IsKeepAlive? || h.IsClose? || h.IsConnectionUpgrade? || h.General?
  }

  lemma ConnectionStepKeeps(c: Core, ch: byte)
    requires InConnection(c.header)
    ensures var d := TextStep(c, ch);
            d == c.(header := d.header, index := d.index, flags := d.flags) && InConnection(d.header)
            && Alike(c.flags, d.flags)
  {
    hide Lower, Flagged, Alike, AfterConnection, Matched, InConnection, TokenStart;
    InConnectionCases(c);
    FlagsAlike(c.flags);
    var l, i := Lower(ch), c.index + 1;
    match c.header
    case MatchingKeepAlive => MatchedOne("keep-alive", i, l, MatchingKeepAlive, IsKeepAlive, ConnectionToken);
    case MatchingClose => MatchedOne("close", i, l, MatchingClose, IsClose, ConnectionToken);
    case MatchingConnectionUpgrade =>
      MatchedOne("upgrade", i, l, MatchingConnectionUpgrade, IsConnectionUpgrade, ConnectionToken);
    case ConnectionTokenStart => TokenOne(c, l, ConnectionToken);
    case General =>
    case ConnectionToken =>
    case _ => AfterKeeps(c, ch);
  }

  lemma InConnectionCases(c: Core)
    ensures InConnection(MatchingKeepAlive) && InConnection(MatchingClose) && InConnection(MatchingConnectionUpgrade)
    ensures InConnection(IsKeepAlive) && InConnection(IsClose) && InConnection(IsConnectionUpgrade)
    ensures InConnection(ConnectionToken) && InConnection(ConnectionTokenStart) && InConnection(General)
    ensures InConnection(c.header) ==>
              var h := c.header;
              || h.MatchingKeepAlive? || h.MatchingClose? || h.MatchingConnectionUpgrade? || h.ConnectionToken?
              || h.ConnectionTokenStart? || h.IsKeepAlive? || h.IsClose? || h.IsConnectionUpgrade? || h.General?
  {}

  lemma MatchedOne(word: string, i: nat, t: byte, a: HeaderMatch, b: HeaderMatch, other: HeaderMatch)
    ensures var m := Matched(word, i, t, a, b, other); m == a || m == b || m == other
  {}

  lemma TokenOne(c: Core, l: byte, other: HeaderMatch)
    ensures var m := TokenStart(c, l, other); m == other || m == c.header || m == General
  {}

  lemma AfterKeeps(c: Core, ch: byte)
    requires InConnection(c.header)
    ensures var d := AfterConnection(c, ch);
            d == c.(header := d.header, index := d.index, flags := d.flags) && InConnection(d.header)
            && Alike(c.flags, d.flags)
  {
    hide Flagged, Alike, InConnection;
    InConnectionCases(c);
    FlaggedAlike(c);
    FlagsAlike(c.flags);
  }

  lemma ConnectionOctet(m: Machine, b: byte)
    requires !Stopped(m) && m.core.state.InText? && InConnection(m.core.header) && m.core.nread < MAX_HEADER_SIZE
    requires IsHeaderChar(b) && !IsLineEnd(b)
    ensures var r := Next(m, b);
            && !Stopped(r) && InConnection(r.core.header) && Alike(m.core.flags, r.core.flags)
            && r.core == m.core.(header := r.core.header, index := r.core.index, flags := r.core.flags,
                                 nread := m.core.nread + 1)
  {
    hide TextStep, IsHeaderChar, InConnection;
    ConnectionStepKeeps(m.core.(nread := m.core.nread + 1), b);
    assert m.seen.notes + [] == m.seen.notes;
  }

  /** A Connection header may have any value. */
  lemma {:induction false} ConnectionText(m: Machine, s: bytes)
    requires !Stopped(m) && m.core.state.InText? && InConnection(m.core.header)
    requires m.core.nread + |s| <= MAX_HEADER_SIZE && forall b :: b in s ==> IsHeaderChar(b) && !IsLineEnd(b)
    ensures var r := Run(m, s);
            && !Stopped(r) && InConnection(r.core.header) && Alike(m.core.flags, r.core.flags)
            && r.core == m.core.(header := r.core.header, index := r.core.index, flags := r.core.flags,
                                 nread := m.core.nread + |s|)
    decreases |s|
  {
    if s != [] {
      hide Next, IsHeaderChar, InConnection;
      assert s[0] in s;
      ConnectionOctet(m, s[0]);
      ConnectionText(Next(m, s[0]), s[1..]);
    }
  }

  lemma ConnectionBegins(m: Machine, b: byte)
    requires !Stopped(m) && m.core.state.DiscardWs? && m.core.header.Connection? && m.core.nread < MAX_HEADER_SIZE
    requires !IsLineEnd(b) && !IsBlank(b)
    ensures var r := Next(m, b);
            && !Stopped(r) && InConnection(r.core.header)
            && r.core == m.core.(state := InText, index := 0, header := r.core.header, nread := m.core.nread + 1)
  {
    hide Lower;
    assert m.seen.notes + [] == m.seen.notes;
  }

  /** What a line leaves behind does not matter to a body. */
  predicate Passing(h: HeaderMatch) {
    InConnection(h) || h.Connection? || h.Upgrade? || AtStart(h) || InWord(h)
  }

  lemma FinishedAlikeToo(c: Core)
    requires Passing(c.header)
    ensures Alike(c.flags, Finished(c).flags)
  {
    hide Flagged, Alike;
    FlaggedAlike(c);
    assert !c.header.IsChunked?;
  }

  lemma FlaggedAlike(c: Core)
    ensures Alike(c.flags, Flagged(c))
  {
    hide Alike;
    FlagsAlike(c.flags);
    match c.header
    case IsKeepAlive =>
    case IsClose =>
    case IsConnectionUpgrade =>
    case _ => assert Flagged(c) == c.flags;
  }

  lemma FlagsAlike(f: Flags)
    ensures Alike(f, f) && Alike(f, f.(keepAlive := true)) && Alike(f, f.(close := true))
    ensures Alike(f, f.(connectionUpgrade := true))
  {}

  /** What the name of such a header may have been recognized as. */
  predicate Named(h: HeaderMatch) {
    h.Upgrade? || h.Connection? || h.General? || AtStart(h) || InWord(h)
  }

  lemma Kinds(h: HeaderMatch)
    ensures Named(h) || InConnection(h) ==> Passing(h)
    ensures Passing(h) ==> !h.ContentLength? && !h.TransferEncoding?
    ensures InConnection(General)
  {}

  /** The value of such a header. */
  lemma SilentText(m: Machine, v: bytes)
    requires !Stopped(m) && m.core.state.DiscardWs? && v != [] && IsText(v) && m.core.nread + |v| <= MAX_HEADER_SIZE
    requires Named(m.core.header)
    ensures var r := Run(m, v);
            && !Stopped(r) && Passing(r.core.header) && Alike(m.core.flags, r.core.flags)
            && r.core == m.core.(state := InText, header := r.core.header, index := r.core.index,
                                 flags := r.core.flags, nread := m.core.nread + |v|)
  {
    hide Next, IsHeaderChar, InConnection, AtStart, InWord, Passing;
    Kinds(m.core.header);
    if m.core.header.Connection? {
      ConnectionBegins(m, v[0]);
      ConnectionText(Next(m, v[0]), v[1..]);
    } else {
      ValueBegins(m, v[0]);
      AnyText(Next(m, v[0]), v[1..]);
    }
    Kinds(Run(m, v).core.header);
  }

  /** The same, up to the end of its line. */
  lemma SilentValue(m: Machine, v: bytes)
    requires !Stopped(m) && m.core.state.DiscardWs? && IsText(v) && m.core.nread + |v| + 2 <= MAX_HEADER_SIZE
    requires Named(m.core.header)
    ensures var r := Run(m, v + [CR, LF]);
            && !Stopped(r) && !r.core.header.ContentLength?
            && r.core == m.core.(state := r.core.state, header := r.core.header, index := r.core.index,
                                 flags := r.core.flags, nread := m.core.nread + |v| + 2)
            && r.core.state == (if v == [] then DiscardLws else ValueLws)
            && Alike(m.core.flags, Finished(r.core).flags)
  {
    hide Next, IsText, Finished, Passing, Named;
    RunConcat(m, v, [CR, LF]);
    Kinds(m.core.header);
    if v != [] {
      SilentText(m, v);
    }
    var t := Run(m, v);
    Kinds(t.core.header);
    LineEndCore(t);
    FinishedAlikeToo(t.core);
    FinishedAlike(t.core, Run(m, v + [CR, LF]).core);
  }

  lemma SilentLine(m: Machine, h: Header)
    requires Ready(m) && Silent(h) && m.core.nread + |Line(h)| <= MAX_HEADER_SIZE
    ensures var r := Run(m, Line(h));
            && Ready(r) && Alike(LineFlags(m), LineFlags(r)) && SameLine(m, r)
            && r.core.length == m.core.length && r.core.nread == m.core.nread + |Line(h)|
            && Spelled(r) == Spelled(m) + [h]
  {
    hide Next, Spelled, Ascii, Matches, IsText, Finished, IsName;
    var front, back := h.name + [COLON, SPACE], h.value + [CR, LF];
    assert Line(h) == front + back;
    RunConcat(m, front, back);
    Recognized(m, h.name);
    var r := Run(m, front);
    OneMeaning(r.core.header, r.core.index, Lowered(h.name));
    SilentValue(r, h.value);
    HeaderLine(m, h);
  }

  lemma {:induction false} SilentLines(m: Machine, hs: seq<Header>)
    requires Ready(m) && (forall h :: h in hs ==> Silent(h)) && m.core.nread + |Lines(hs)| <= MAX_HEADER_SIZE
    ensures var r := Run(m, Lines(hs));
            && Ready(r) && Alike(LineFlags(m), LineFlags(r)) && SameLine(m, r)
            && r.core.length == m.core.length && r.core.nread == m.core.nread + |Lines(hs)|
            && Spelled(r) == Spelled(m) + hs
    decreases |hs|
  {
    hide Ready, Silent, Spelled, Next, Line, LineFlags;
    if hs == [] {
      assert Spelled(m) + [] == Spelled(m);
    } else {
      assert hs[0] in hs;
      RunConcat(m, Line(hs[0]), Lines(hs[1..]));
      SilentLine(m, hs[0]);
      SilentLines(Run(m, Line(hs[0])), hs[1..]);
      assert Spelled(m) + [hs[0]] + hs[1..] == Spelled(m) + hs;
    }
  }

  lemma SilentIs(h: Header)
    requires Silent(h)
    ensures IsHeader(h)
  {}

  // ---- A length ----

  lemma LengthFirst(m: Machine, b: byte)
    requires !Stopped(m) && m.core.state.DiscardWs? && m.core.header.ContentLength? && m.core.nread < MAX_HEADER_SIZE
    requires !m.core.flags.contentLength && IsNum(b)
    ensures var r := Next(m, b);
            && !Stopped(r)
            && r.core == m.core.(state := InText, index := 0, nread := m.core.nread + 1, header := ContentLengthNum,
                                 flags := m.core.flags.(contentLength := true), length := b - ZERO)
  {
    assert m.seen.notes + [] == m.seen.notes;
  }

  lemma LengthOctet(m: Machine, b: byte)
    requires !Stopped(m) && m.core.state.InText? && m.core.header.ContentLengthNum? && IsNum(b)
    requires m.core.nread < MAX_HEADER_SIZE && Next(m, b).core.errno.Ok?
    ensures var r := Next(m, b);
            !Stopped(r) && r.core == m.core.(nread := m.core.nread + 1, length := r.core.length)
  {
    assert m.seen.notes + [] == m.seen.notes;
  }

  /** Digits change nothing but the length. */
  lemma {:induction false} LengthDigits(m: Machine, ds: bytes)
    requires !Stopped(m) && m.core.state.InText? && m.core.header.ContentLengthNum? && Numeral(10, ds)
    requires m.core.nread + |ds| <= MAX_HEADER_SIZE && Run(m, ds).core.errno.Ok?
    ensures var r := Run(m, ds);
            !Stopped(r) && r.core == m.core.(nread := m.core.nread + |ds|, length := r.core.length)
    decreases |ds|
  {
    if ds != [] {
      assert ds[0] in ds;
      RunTaken(Next(m, ds[0]), ds[1..]);
      LengthOctet(m, ds[0]);
      hide Next;
      LengthDigits(Next(m, ds[0]), ds[1..]);
    }
  }

  /** The value of a Content-Length is accepted exactly if it is below the limit, and then it is the length. */
  lemma LengthValue(m: Machine, ds: bytes, n: nat)
    requires Valid(m) && !Stopped(m) && m.core.state.DiscardWs? && m.core.header.ContentLength?
    requires !m.core.flags.contentLength && m.core.nread + |ds| + 2 <= MAX_HEADER_SIZE
    requires ds != [] && Numeral(10, ds) && ValueOf(10, ds) == n
    ensures var r := Run(m, ds + [CR, LF]);
            && (r.core.errno.Ok? <==> n < Limit(10))
            && (r.core.errno.Ok? ==>
                  && !Stopped(r) && r.core.header.ContentLengthNum?
                  && r.core == m.core.(state := ValueLws, header := ContentLengthNum, index := 0, length := n,
                                       flags := m.core.flags.(contentLength := true), nread := m.core.nread + |ds| + 2))
  {
    hide Next, Valid;
    ContentLengthExact(m, ds);
    RunConcat(m, ds, [CR, LF]);
    var t := Run(m, ds);
    assert ds == [ds[0]] + ds[1..] && ds[0] in ds;
    if t.core.errno.Ok? {
      RunTaken(Next(m, ds[0]), ds[1..]);
      LengthFirst(m, ds[0]);
      LengthDigits(Next(m, ds[0]), ds[1..]);
      LineEndCore(t);
    } else {
      RunTaken(t, [CR, LF]);
    }
  }

  /** A line that says a length. */
  lemma LengthLine(m: Machine, h: Header, n: nat)
    requires Ready(m) && SaysLength(h, n) && !LineFlags(m).contentLength && m.core.nread + |Line(h)| <= MAX_HEADER_SIZE
    ensures var r := Run(m, Line(h));
            && (r.core.errno.Ok? <==> n < Limit(10))
            && (r.core.errno.Ok? ==>
                  && Ready(r) && LineFlags(r) == LineFlags(m).(contentLength := true) && SameLine(m, r)
                  && r.core.length == n && r.core.nread == m.core.nread + |Line(h)|
                  && Spelled(r) == Spelled(m) + [h])
  {
    hide Next, Spelled, Ascii, Matches, Finished, IsName, Valid;
    var front, back := h.name + [COLON, SPACE], h.value + [CR, LF];
    assert Line(h) == front + back;
    RunConcat(m, front, back);
    WordsApart();
    Recognized(m, h.name);
    var t := Run(m, front);
    ReadyIs(m);
    RunValid(m, front);
    LengthValue(t, h.value, n);
    var r := Run(m, Line(h));
    if r.core.errno.Ok? {
      LengthIsText(h, n);
      FinishedLength(r.core);
      HeaderLine(m, h);
    }
  }

  lemma ReadyIs(m: Machine)
    requires Ready(m)
    ensures AtLine(m) && Valid(m) && !Stopped(m)
  {}

  lemma FinishedLength(c: Core)
    requires c.header.ContentLengthNum?
    ensures Finished(c).flags == c.flags
  {}

  lemma WordsApart()
    ensures !(TRANSFER_ENCODING <= CONTENT_LENGTH) && CONTENT_LENGTH != TRANSFER_ENCODING
    ensures |TRANSFER_ENCODING| == 17 && TRANSFER_ENCODING != CONNECTION && TRANSFER_ENCODING != PROXY_CONNECTION
  {}

  lemma LengthIsText(h: Header, n: nat)
    requires SaysLength(h, n)
    ensures IsHeader(h)
  {
    var v := h.value;
    forall b | b in v ensures IsHeaderChar(b) && !IsLineEnd(b) && !IsBlank(b) {
      assert IsDigit(10, b);
    }
    assert v[0] in v;
  }

  // ---- Chunks ----

  lemma ChunkedLetters()
    ensures CHUNKED == [0x63, 0x68, 0x75, 0x6e, 0x6b, 0x65, 0x64]
  {}

  lemma ChunkedOctet(m: Machine, i: nat, ch: byte)
    requires !Stopped(m) && m.core.state.InText? && m.core.nread < MAX_HEADER_SIZE
    requires 1 <= i < 7 && m.core.header.MatchingChunked? && m.core.index == i - 1
    requires ToLower(ch) == CHUNKED[i]
    ensures var r := Next(m, ch);
            && !Stopped(r)
            && r.core == m.core.(header := if i == 6 then IsChunked else MatchingChunked, index := i,
                                 nread := m.core.nread + 1)
  {
    ChunkedLetters();
    LowerLetter(ch, CHUNKED[i]);
    hide IsHeaderChar, Lower;
    assert m.seen.notes + [] == m.seen.notes;
  }

  /** The rest of the word, from its character `i` on. */
  lemma {:induction false} ChunkedText(m: Machine, i: nat, s: bytes)
    requires !Stopped(m) && m.core.state.InText? && m.core.nread + |s| <= MAX_HEADER_SIZE
    requires 1 <= i < 7 && |s| == 7 - i && m.core.header.MatchingChunked? && m.core.index == i - 1
    requires forall j :: 0 <= j < |s| ==> ToLower(s[j]) == CHUNKED[i + j]
    ensures var r := Run(m, s);
            && !Stopped(r)
            && r.core == m.core.(header := IsChunked, index := 6, nread := m.core.nread + |s|)
    decreases |s|
  {
    ChunkedOctet(m, i, s[0]);
    hide Next;
    if |s| > 1 {
      assert forall j :: 0 <= j < |s[1..]| ==> s[1..][j] == s[j + 1];
      ChunkedText(Next(m, s[0]), i + 1, s[1..]);
    } else {
      assert s[1..] == [];
    }
  }

  lemma ChunkedFirst(m: Machine, b: byte)
    requires !Stopped(m) && m.core.state.DiscardWs? && m.core.header.TransferEncoding?
    requires m.core.nread < MAX_HEADER_SIZE && ToLower(b) == 0x63
    ensures var r := Next(m, b);
            && !Stopped(r)
            && r.core == m.core.(state := InText, index := 0, nread := m.core.nread + 1, header := MatchingChunked)
  {
    LowerLetter(b, 0x63);
    hide Lower;
    assert m.seen.notes + [] == m.seen.notes;
  }

  lemma ChunkedValue(m: Machine, v: bytes)
    requires !Stopped(m) && m.core.state.DiscardWs? && m.core.header.TransferEncoding?
    requires m.core.nread + |v| + 2 <= MAX_HEADER_SIZE && SameIgnoringCase(v, CHUNKED)
    ensures var r := Run(m, v + [CR, LF]);
            && !Stopped(r)
            && r.core == m.core.(state := ValueLws, header := IsChunked, index := 6, nread := m.core.nread + |v| + 2)
  {
    hide Next, Lower;
    ChunkedLetters();
    RunConcat(m, v, [CR, LF]);
    assert ToLower(v[0]) == CHUNKED[0];
    ChunkedFirst(m, v[0]);
    forall j | 0 <= j < |v[1..]| ensures ToLower(v[1..][j]) == CHUNKED[1 + j] {
      assert v[1..][j] == v[1 + j];
    }
    ChunkedText(Next(m, v[0]), 1, v[1..]);
    LineEndCore(Run(m, v));
  }

  /** The word is noted with its last character. */
  lemma CodingWord(m: Machine, n: bytes)
    requires Ready(m) && IsName(n) && Lowered(n) == TRANSFER_ENCODING && m.core.nread + |n| <= MAX_HEADER_SIZE
    ensures var r := Run(m, n);
            && !Stopped(r)
            && r.core == m.core.(state := InName, header := TransferEncoding, index := 16,
                                 flags := LineFlags(m).(transferEncoding := true), nread := m.core.nread + |n|)
  {
    hide Next, Token, Matches, Ready, Ascii;
    WordsApart();
    assert n[0] in n;
    NameFirstCore(m, n[0]);
    FirstMatches(Token(n[0]));
    var a := Next(m, n[0]);
    var front := n[1..16];
    assert forall b :: b in front ==> b in n;
    NameMatches(a, [Token(n[0])], front);
    assert [Token(n[0])] + Lowered(front) == TRANSFER_ENCODING[..16];
    var b := Run(a, front);
    assert n[16] in n;
    NameNextCore(b, n[16]);
    LastLetter(b.core.(nread := b.core.nread + 1), n[16]);
    assert n[1..] == front + [n[16]];
    RunSnoc(a, front, n[16]);
  }

  lemma CodingRead(m: Machine, n: bytes)
    requires Ready(m) && IsName(n) && Lowered(n) == TRANSFER_ENCODING && m.core.nread + |n| + 2 <= MAX_HEADER_SIZE
    ensures var r := Run(m, n + [COLON, SPACE]);
            && !Stopped(r)
            && r.core == m.core.(state := DiscardWs, header := TransferEncoding, index := 16,
                                 flags := LineFlags(m).(transferEncoding := true), nread := m.core.nread + |n| + 2)
  {
    hide Next, Lowered, Ready, Ascii;
    CodingWord(m, n);
    RunConcat(m, n, [COLON, SPACE]);
    var c := Run(m, n);
    RunTwo(c, COLON, SPACE);
    BlankCore(c, COLON);
    BlankCore(Next(c, COLON), SPACE);
  }

  lemma LastLetter(c: Core, ch: byte)
    requires Matches(c.header, c.index, TRANSFER_ENCODING[..16]) && Token(ch) == TRANSFER_ENCODING[16]
    ensures NameStep(c, Token(ch), ch)
         == c.(header := TransferEncoding, index := 16, flags := c.flags.(transferEncoding := true))
  {
    WordsDiffer();
    WordsApart();
    var l := TRANSFER_ENCODING[..16];
    assert l[0] == TRANSFER_ENCODING[0] && |CONNECTION| == 10 && |PROXY_CONNECTION| == 16 && |UPGRADE| == 7;
    assert l <= TRANSFER_ENCODING;
    MatchedMeans("transfer-encoding", l, Token(ch), MatchingTransferEncoding, TransferEncoding);
  }

  /** A line that says that the body comes in chunks. */
  lemma ChunkedLine(m: Machine, h: Header)
    requires Ready(m) && SaysChunked(h) && m.core.nread + |Line(h)| <= MAX_HEADER_SIZE
    ensures var r := Run(m, Line(h));
            && Ready(r) && LineFlags(r) == LineFlags(m).(transferEncoding := true, chunked := true) && SameLine(m, r)
            && r.core.length == m.core.length && r.core.nread == m.core.nread + |Line(h)|
            && Spelled(r) == Spelled(m) + [h]
  {
    hide Next, Spelled, Ascii, Finished, IsName, SameIgnoringCase;
    var front, back := h.name + [COLON, SPACE], h.value + [CR, LF];
    assert Line(h) == front + back;
    RunConcat(m, front, back);
    CodingRead(m, h.name);
    ChunkedValue(Run(m, front), h.value);
    FinishedChunked(Run(m, Line(h)).core);
    ChunkedIsText(h);
    HeaderLine(m, h);
  }

  lemma FinishedChunked(c: Core)
    requires c.header.IsChunked?
    ensures Finished(c).flags == c.flags.(chunked := true)
  {}

  lemma ChunkedIsText(h: Header)
    requires SaysChunked(h)
    ensures IsHeader(h)
  {
    ChunkedLetters();
    var v := h.value;
    forall i | 0 <= i < |v| ensures IsHeaderChar(v[i]) && !IsLineEnd(v[i]) && !IsBlank(v[i]) {
      assert ToLower(v[i]) == CHUNKED[i];
      LowerLetter(v[i], CHUNKED[i]);
    }
  }

  // ---- The end of the head ----

  /** Responses that have no body whatever their head says about one (section 3.3.3 of RFC 7230). */
  predicate Bodyless(status: nat) {
    100 <= status <= 199 || status == 204 || status == 304
  }

  /** What the empty line behind a head leads to, by flags, length and status. */
  lemma HeadDone(m: Machine)
    requires Ready(m) && !m.core.flags.trailing && m.core.nread + 2 <= MAX_HEADER_SIZE && m.core.length <= UNKNOWN
    ensures var f, n, r := LineFlags(m), m.core.length, Run(m, [CR, LF]);
            if f.transferEncoding && f.contentLength then !r.core.errno.Ok?
            else
              && r.core.errno.Ok? && r.taken == m.taken + 2 && r.core.flags == f && r.core.status == m.core.status
              && r.seen.body == m.seen.body && r.core.length == n && Completed(r.seen.head) == Spelled(m)
              && (f.chunked ==> !Over(r.seen) && r.core.state.ChunkSizeStart?)
              && (!f.chunked && !f.transferEncoding ==>
                    if n == 0 || (n == UNKNOWN && Bodyless(m.core.status)) then Over(r.seen)
                    else !Over(r.seen) && r.core.state == if n == UNKNOWN then BodyIdentityEof else BodyIdentity)
  {
    hide Next, Spelled, LineFlags;
    RunTwo(m, CR, LF);
    EndCr(m);
    LineFlagsTrailing(m);
    ReadyIs(m);
    CrEndsHead(m);
    LfDone(Next(m, CR));
  }

  lemma LfDone(m: Machine)
    requires !Stopped(m) && m.core.state.HeadersAlmostDone? && !m.core.flags.trailing
    requires m.core.nread < MAX_HEADER_SIZE && m.core.length <= UNKNOWN
    ensures var f, n, r := m.core.flags, m.core.length, Next(m, LF);
            if f.transferEncoding && f.contentLength then !r.core.errno.Ok?
            else
              && r.core.errno.Ok? && r.taken == m.taken + 1 && r.core.flags == f && r.core.status == m.core.status
              && r.seen.body == m.seen.body && r.core.length == n && r.seen.head == m.seen.head
              && (f.chunked ==> !Over(r.seen) && r.core.state.ChunkSizeStart?)
              && (!f.chunked && !f.transferEncoding ==>
                    if n == 0 || (n == UNKNOWN && Bodyless(m.core.status)) then Over(r.seen)
                    else !Over(r.seen) && r.core.state == if n == UNKNOWN then BodyIdentityEof else BodyIdentity)
  {
    hide ShouldKeepAlive;
  }

  // ---- Whole responses ----

  /** A message that ends with its last octet has not ended before. */
  lemma NotBefore(m: Machine, s: bytes, k: nat)
    requires Run(m, s).taken == m.taken + |s| && k < |s|
    ensures !Over(Run(m, s[..k]).seen)
  {
    hide Next;
    RunTaken(m, s[..k]);
    assert s[..k] + s[k..] == s;
    if Over(Run(m, s[..k]).seen) {
      NothingAfterTheMessage(m, s[..k], s[k..]);
    }
  }

  /** The lines of a head of which one may say something about a body. */
  lemma LinesAround(m: Machine, a: seq<Header>, h: Header, b: seq<Header>)
    ensures Lines(a + [h] + b) == Lines(a) + Line(h) + Lines(b)
    ensures Run(m, Lines(a + [h] + b)) == Run(Run(Run(m, Lines(a)), Line(h)), Lines(b))
  {
    hide Next, Line;
    LinesConcat(a + [h], b);
    LinesConcat(a, [h]);
    assert [h][1..] == [] && Lines([h]) == Line(h) + [];
    RunConcat(m, Lines(a) + Line(h), Lines(b));
    RunConcat(m, Lines(a), Line(h));
  }

  lemma {:induction false} LinesConcat(a: seq<Header>, b: seq<Header>)
    ensures Lines(a + b) == Lines(a) + Lines(b)
    decreases |a|
  {
    hide Line;
    if a == [] {
      assert a + b == b;
    } else {
      assert (a + b)[1..] == a[1..] + b;
      LinesConcat(a[1..], b);
      Associative(Line(a[0]), Lines(a[1..]), Lines(b));
    }
  }

  /** The lines of a head, up to the empty line. */
  lemma LinesOf(l: StatusLine, hs: seq<Header>) returns (m: Machine)
    requires IsStatusLine(l) && |Head(l, hs)| <= MAX_HEADER_SIZE
    ensures m == Run(START, StatusText(l)) && Run(START, Head(l, hs)) == Run(Run(m, Lines(hs)), [CR, LF])
    ensures Ready(m) && LineFlags(m) == NO_FLAGS && m.core.length == UNKNOWN && m.core.status == Code(l)
    ensures Spelled(m) == [] && m.seen.body == [] && m.taken == m.core.nread == |StatusText(l)|
    ensures !m.core.flags.trailing
    ensures |StatusText(l)| + |Lines(hs)| + 2 == |Head(l, hs)|
  {
    hide Next;
    m := Run(START, StatusText(l));
    StatusLineRun(l);
    BegunReady(l);
    RunConcat(START, StatusText(l), Lines(hs));
    RunConcat(START, StatusText(l) + Lines(hs), [CR, LF]);
    LineFlagsTrailing(m);
  }

  /**
   * A head with one length, and otherwise nothing about a body, is refused exactly if the length is
   * not below the limit.
   */
  lemma LengthHead(l: StatusLine, a: seq<Header>, h: Header, b: seq<Header>, n: nat)
    requires IsStatusLine(l) && (forall x :: x in a + b ==> Silent(x)) && SaysLength(h, n)
    requires |Head(l, a + [h] + b)| <= MAX_HEADER_SIZE
    ensures var head := Head(l, a + [h] + b); var r := Run(START, head);
            && (r.core.errno.Ok? <==> n < Limit(10))
            && (r.core.errno.Ok? ==>
                  && r.taken == |head| && r.core.status == Code(l)
                  && Completed(r.seen.head) == a + [h] + b && r.seen.body == []
                  && r.core.length == n
                  && if n == 0 then Over(r.seen) else !Over(r.seen) && r.core.state.BodyIdentity?)
  {
    hide Next, Ready, Silent, SaysLength, Spelled, Line, LineFlags, IsStatusLine, Code, Alike;
    var hs := a + [h] + b;
    var m := LinesOf(l, hs);
    LinesAround(m, a, h, b);
    assert forall x :: x in a ==> x in a + b;
    assert forall x :: x in b ==> x in a + b;
    SilentLines(m, a);
    var p := Run(m, Lines(a));
    AlikeFlags(LineFlags(m), LineFlags(p));
    LengthLine(p, h, n);
    var q := Run(p, Line(h));
    if q.core.errno.Ok? {
      SilentLines(q, b);
      var r := Run(q, Lines(b));
      AlikeFlags(LineFlags(q), LineFlags(r));
      RunTaken(m, Lines(hs));
      ReadyIs(r);
      HeadDone(r);
      assert Spelled(r) == [] + a + [h] + b;
      assert [] + a == a;
    } else {
      RunTaken(q, Lines(b));
      RunTaken(Run(q, Lines(b)), [CR, LF]);
    }
  }

  lemma AlikeFlags(f: Flags, g: Flags)
    requires Alike(f, g)
    ensures g.chunked == f.chunked && g.transferEncoding == f.transferEncoding && g.contentLength == f.contentLength
  {}

  /**
   * A response with a length, whatever the letter case and the place of the header that says it: the
   * message is over with the last octet of a body of this length, or with its head if the length is 0,
   * and not before; this is the body, and nothing behind it is taken.
   */
  lemma SizedResponse(l: StatusLine, a: seq<Header>, h: Header, b: seq<Header>, body: bytes, rest: bytes)
    requires IsStatusLine(l) && (forall x :: x in a + b ==> Silent(x)) && SaysLength(h, |body|)
    requires |body| < Limit(10) && |Head(l, a + [h] + b)| <= MAX_HEADER_SIZE
    ensures var text := Head(l, a + [h] + b) + body;
            var r := Run(START, text + rest);
            && r.core.errno.Ok? && Over(r.seen) && r.taken == |text|
            && r.core.status == Code(l) && Completed(r.seen.head) == a + [h] + b && r.seen.body == body
            && forall k :: 0 <= k < |text| ==> !Stopped(Run(START, text[..k]))
  {
    hide Next, Silent, SaysLength, IsStatusLine, Code, StatusText, Lines, Head;
    var head := Head(l, a + [h] + b);
    LengthHead(l, a, h, b, |body|);
    var m := Run(START, head);
    RunConcat(START, head, body);
    StartValid();
    RunValid(START, head);
    if body == [] {
      assert head + body == head;
    } else {
      IdentityBody(m, body);
      OverBody(m, body);
      assert [] + body == body;
    }
    NothingAfterTheMessage(START, head + body, rest);
    forall k | 0 <= k < |head + body| ensures !Stopped(Run(START, (head + body)[..k])) {
      NotBefore(START, head + body, k);
      OkBefore(START, head + body, k);
    }
  }

  lemma OverBody(m: Machine, body: bytes)
    ensures Over(WithNotes(WithBody(m.seen, body), [MessageComplete]))
  {}

  lemma OkBefore(m: Machine, s: bytes, k: nat)
    requires Run(m, s).core.errno.Ok? && k <= |s|
    ensures Run(m, s[..k]).core.errno.Ok?
  {
    hide Next;
    assert s[..k] + s[k..] == s;
    RunConcat(m, s[..k], s[k..]);
    RunTaken(Run(m, s[..k]), s[k..]);
  }

  /**
   * A response that says nothing about a body: it is over with its head exactly if its status stands
   * for none; and otherwise everything is its body until the connection ends.
   */
  lemma UnsizedResponse(l: StatusLine, hs: seq<Header>, body: bytes)
    requires IsStatusLine(l) && (forall x :: x in hs ==> Silent(x)) && |Head(l, hs)| <= MAX_HEADER_SIZE
    ensures var head := Head(l, hs); var m, r := Run(START, head), Run(START, head + body);
            && m.core.errno.Ok? && m.taken == |head| && m.core.status == Code(l) && Completed(m.seen.head) == hs
            && (Over(m.seen) <==> 100 <= Code(l) <= 199 || Code(l) == 204 || Code(l) == 304)
            && (Over(m.seen) ==> r == m && m.seen.body == [])
            && (!Over(m.seen) ==>
                  && !Stopped(r) && r.taken == |head + body|
                  && AtEof(r).core.errno.Ok? && Over(AtEof(r).seen) && AtEof(r).seen.body == body
                  && Completed(AtEof(r).seen.head) == hs)
  {
    hide Next, Silent, IsStatusLine, Code, StatusText, Lines, Spelled, Ready, LineFlags;
    var head := Head(l, hs);
    var s := LinesOf(l, hs);
    SilentLines(s, hs);
    var p := Run(s, Lines(hs));
    AlikeFlags(LineFlags(s), LineFlags(p));
    ReadyIs(p);
    RunTaken(s, Lines(hs));
    HeadDone(p);
    assert [] + hs == hs;
    var m := Run(START, head);
    RunConcat(START, head, body);
    if Over(m.seen) {
      RunStopped(m, body);
    } else {
      EofBody(m, body);
      OverBody(m, body);
      assert [] + body == body;
    }
  }

  /** A head that announces chunks, and otherwise says nothing about a body, is taken for just that. */
  lemma ChunkedHead(l: StatusLine, a: seq<Header>, h: Header, b: seq<Header>)
    requires IsStatusLine(l) && (forall x :: x in a + b ==> Silent(x)) && SaysChunked(h)
    requires |Head(l, a + [h] + b)| <= MAX_HEADER_SIZE
    ensures var r := Run(START, Head(l, a + [h] + b)); r.core.errno.Ok? && r.core.flags.chunked
    ensures forall x :: x in a + [h] + b ==> IsHeader(x)
  {
    hide Next, Ready, Silent, SaysChunked, Spelled, Line, LineFlags, IsStatusLine, Code, Alike, IsHeader;
    var hs := a + [h] + b;
    var m := LinesOf(l, hs);
    LinesAround(m, a, h, b);
    assert forall x :: x in a ==> x in a + b;
    assert forall x :: x in b ==> x in a + b;
    SilentLines(m, a);
    var p := Run(m, Lines(a));
    AlikeFlags(LineFlags(m), LineFlags(p));
    ChunkedLine(p, h);
    var q := Run(p, Line(h));
    SilentLines(q, b);
    var r := Run(q, Lines(b));
    AlikeFlags(LineFlags(q), LineFlags(r));
    ReadyIs(r);
    HeadDone(r);
    forall x | x in a + [h] + b ensures IsHeader(x) {
      if x == h {
        ChunkedIsText(h);
      } else {
        assert x in a + b;
        SilentIs(x);
      }
    }
  }

  /** A chunked response, by what its head says: from the first octet on, with chunks and trailers. */
  lemma ChunkedMessage(l: StatusLine, a: seq<Header>, h: Header, b: seq<Header>, cs: seq<Chunk>, size: bytes,
      parameters: bytes, trailers: seq<Header>, rest: bytes)
    requires IsStatusLine(l) && (forall x :: x in a + b ==> Silent(x)) && SaysChunked(h)
    requires |Head(l, a + [h] + b)| <= MAX_HEADER_SIZE
    requires (forall c :: c in cs ==> IsChunk(c)) && IsSizeLine(size, parameters, 0)
    requires (forall x :: x in trailers ==> Benign(x)) && |Lines(trailers)| + 2 <= MAX_HEADER_SIZE
    ensures var text := Head(l, a + [h] + b) + ChunkTexts(cs) + TailText(size, parameters, trailers);
            var r := Run(START, text + rest);
            && r.core.errno.Ok? && Over(r.seen) && r.taken == |text|
            && r.seen.body == Data(cs) && Completed(r.seen.head) == a + [h] + b + trailers
            && forall k :: 0 <= k < |text| ==> !Stopped(Run(START, text[..k]))
  {
    hide Next, Silent, SaysChunked, IsStatusLine, IsChunk, IsSizeLine, Benign, TailText, ChunkTexts, StatusText, Lines,
         IsHeader;
    ChunkedHead(l, a, h, b);
    ChunkedKept(l, a + [h] + b, cs, size, parameters, trailers, rest);
    var text := Head(l, a + [h] + b) + ChunkTexts(cs) + TailText(size, parameters, trailers);
    ChunkedKept(l, a + [h] + b, cs, size, parameters, trailers, []);
    assert text + [] == text;
    forall k | 0 <= k < |text| ensures !Stopped(Run(START, text[..k])) {
      NotBefore(START, text, k);
      OkBefore(START, text, k);
    }
  }

  /** A second length. */
  lemma LengthLineTwice(m: Machine, h: Header, n: nat)
    requires Ready(m) && SaysLength(h, n) && LineFlags(m).contentLength && m.core.nread + |Line(h)| <= MAX_HEADER_SIZE
    ensures !Run(m, Line(h)).core.errno.Ok?
  {
    hide Next, Spelled, Ascii, Matches, Finished, IsName, Valid;
    var front, back := h.name + [COLON, SPACE], h.value + [CR, LF];
    assert Line(h) == front + back;
    RunConcat(m, front, back);
    WordsApart();
    Recognized(m, h.name);
    var t := Run(m, front);
    assert back == [h.value[0]] + (h.value[1..] + [CR, LF]) && h.value[0] in h.value;
    SecondLength(t, h.value[0]);
    assert back[1..] == h.value[1..] + [CR, LF];
    RunTaken(Next(t, back[0]), back[1..]);
  }

  lemma SecondLength(m: Machine, b: byte)
    requires !Stopped(m) && m.core.state.DiscardWs? && m.core.header.ContentLength? && m.core.flags.contentLength
    requires IsDigit(10, b)
    ensures !Next(m, b).core.errno.Ok?
  {}

  /** A head that says two lengths is refused, even if they are the same. */
  lemma TwoLengths(l: StatusLine, a: seq<Header>, h: Header, b: seq<Header>, i: Header, c: seq<Header>, n: nat, k: nat)
    requires IsStatusLine(l) && (forall x :: x in a + b + c ==> Silent(x)) && SaysLength(h, n) && SaysLength(i, k)
    requires |Head(l, a + [h] + (b + [i] + c))| <= MAX_HEADER_SIZE
    ensures !Run(START, Head(l, a + [h] + (b + [i] + c))).core.errno.Ok?
  {
    hide Next, Ready, Silent, SaysLength, Spelled, Line, LineFlags, IsStatusLine, Code, Alike;
    var tail := b + [i] + c;
    var m := LinesOf(l, a + [h] + tail);
    LinesAround(m, a, h, tail);
    assert forall x :: x in a ==> x in a + b + c;
    assert forall x :: x in b ==> x in a + b + c;
    SilentLines(m, a);
    var p := Run(m, Lines(a));
    AlikeFlags(LineFlags(m), LineFlags(p));
    LengthLine(p, h, n);
    var q := Run(p, Line(h));
    LinesAround(q, b, i, c);
    if q.core.errno.Ok? {
      SilentLines(q, b);
      var r := Run(q, Lines(b));
      AlikeFlags(LineFlags(q), LineFlags(r));
      LengthLineTwice(r, i, k);
      RunTaken(Run(r, Line(i)), Lines(c));
    } else {
      RunTaken(q, Lines(tail));
    }
    RunTaken(Run(q, Lines(tail)), [CR, LF]);
  }

  /** A head that says a length and that there are chunks is refused. */
  lemma LengthAndChunks(l: StatusLine, a: seq<Header>, h: Header, b: seq<Header>, i: Header, c: seq<Header>, n: nat)
    requires IsStatusLine(l) && (forall x :: x in a + b + c ==> Silent(x))
    requires (SaysLength(h, n) && SaysChunked(i)) || (SaysChunked(h) && SaysLength(i, n))
    requires |Head(l, a + [h] + (b + [i] + c))| <= MAX_HEADER_SIZE
    ensures !Run(START, Head(l, a + [h] + (b + [i] + c))).core.errno.Ok?
  {
    hide Next, Ready, Silent, SaysLength, SaysChunked, Spelled, Line, LineFlags, IsStatusLine, Code, Alike;
    var tail := b + [i] + c;
    var m := LinesOf(l, a + [h] + tail);
    LinesAround(m, a, h, tail);
    assert forall x :: x in a ==> x in a + b + c;
    assert forall x :: x in b ==> x in a + b + c;
    assert forall x :: x in c ==> x in a + b + c;
    SilentLines(m, a);
    var p := Run(m, Lines(a));
    AlikeFlags(LineFlags(m), LineFlags(p));
    var q := Run(p, Line(h));
    LinesAround(q, b, i, c);
    RunTaken(Run(q, Lines(tail)), [CR, LF]);
    RunTaken(q, Lines(tail));
    if SaysLength(h, n) && SaysChunked(i) {
      LengthLine(p, h, n);
      if q.core.errno.Ok? {
        SilentLines(q, b);
        AlikeFlags(LineFlags(q), LineFlags(Run(q, Lines(b))));
        ChunkedLine(Run(q, Lines(b)), i);
        BothSaid(Run(Run(q, Lines(b)), Line(i)), c);
      }
    } else {
      ChunkedLine(p, h);
      SilentLines(q, b);
      var r := Run(q, Lines(b));
      AlikeFlags(LineFlags(q), LineFlags(r));
      LengthLine(r, i, n);
      if Run(r, Line(i)).core.errno.Ok? {
        BothSaid(Run(r, Line(i)), c);
      } else {
        RunTaken(Run(r, Line(i)), Lines(c));
      }
    }
  }

  /** Behind both, the empty line is refused. */
  lemma BothSaid(m: Machine, c: seq<Header>)
    requires Ready(m) && (forall x :: x in c ==> Silent(x)) && m.core.nread + |Lines(c)| + 2 <= MAX_HEADER_SIZE
    requires LineFlags(m).transferEncoding && LineFlags(m).contentLength && !m.core.flags.trailing
    ensures !Run(Run(m, Lines(c)), [CR, LF]).core.errno.Ok?
  {
    hide Next, Ready, Silent, Spelled, LineFlags, Alike;
    SilentLines(m, c);
    var r := Run(m, Lines(c));
    AlikeFlags(LineFlags(m), LineFlags(r));
    ReadyIs(r);
    HeadDone(r);
  }

  // ---- A name that goes on ----

  /** A name that goes on where `Transfer-Encoding` ends is not taken for it, but noted as if it were. */
  predicate GoesOn(h: Header) {
    IsHeader(h) && TRANSFER_ENCODING < Lowered(h.name)
  }

  lemma NoteStays(m: Machine, b: byte)
    requires !Stopped(m) && m.core.state.InName? && Token(b) != 0 && m.core.nread < MAX_HEADER_SIZE
    requires m.core.flags.transferEncoding
    ensures var r := Next(m, b);
            && !Stopped(r) && r.core.state.InName? && r.core.nread == m.core.nread + 1 && r.core.flags == m.core.flags
  {
    hide NameStep, Token;
    NameNextCore(m, b);
    NameStepKeeps(m.core.(nread := m.core.nread + 1), Token(b), b);
    StepKeepsNote(m.core.(nread := m.core.nread + 1), Token(b), b);
  }

  lemma StepKeepsNote(c: Core, t: byte, ch: byte)
    requires c.flags.transferEncoding
    ensures NameStep(c, t, ch).flags == c.flags
  {}

  lemma {:induction false} NoteStaysOn(m: Machine, s: bytes)
    requires !Stopped(m) && m.core.state.InName? && (forall b :: b in s ==> Token(b) != 0)
    requires m.core.nread + |s| <= MAX_HEADER_SIZE && m.core.flags.transferEncoding
    ensures var r := Run(m, s);
            && !Stopped(r) && r.core.state.InName? && r.core.nread == m.core.nread + |s| && r.core.flags == m.core.flags
    decreases |s|
  {
    if s != [] {
      hide Next, Token;
      assert s[0] in s;
      NoteStays(m, s[0]);
      NoteStaysOn(Next(m, s[0]), s[1..]);
    }
  }

  lemma GoesOnName(m: Machine, n: bytes)
    requires Ready(m) && IsName(n) && TRANSFER_ENCODING < Lowered(n) && m.core.nread + |n| + 2 <= MAX_HEADER_SIZE
    ensures Run(m, n + [COLON, SPACE]).core.flags == LineFlags(m).(transferEncoding := true)
  {
    hide Next, Token, Ready, Ascii, LineFlags;
    WordsApart();
    var word, more := n[..17], n[17..];
    assert word + more == n && Lowered(word) == TRANSFER_ENCODING;
    assert forall b :: b in word ==> b in n;
    assert forall b :: b in more ==> b in n;
    CodingWord(m, word);
    RunConcat(m, word, more);
    NoteStaysOn(Run(m, word), more);
    var c := Run(m, n);
    RunConcat(m, n, [COLON, SPACE]);
    RunTwo(c, COLON, SPACE);
    BlankCore(c, COLON);
    BlankCore(Next(c, COLON), SPACE);
  }

  lemma GoesOnLine(m: Machine, h: Header)
    requires Ready(m) && GoesOn(h) && m.core.nread + |Line(h)| <= MAX_HEADER_SIZE
    ensures var r := Run(m, Line(h));
            && Ready(r) && Alike(LineFlags(m).(transferEncoding := true), LineFlags(r)) && SameLine(m, r)
            && r.core.length == m.core.length && r.core.nread == m.core.nread + |Line(h)|
            && Spelled(r) == Spelled(m) + [h]
  {
    hide Next, Spelled, Ascii, Matches, IsText, Finished, IsName;
    var front, back := h.name + [COLON, SPACE], h.value + [CR, LF];
    assert Line(h) == front + back;
    RunConcat(m, front, back);
    WordsApart();
    Recognized(m, h.name);
    var r := Run(m, front);
    OneMeaning(r.core.header, r.core.index, Lowered(h.name));
    GoesOnName(m, h.name);
    LongerThanAll(Lowered(h.name));
    SilentValue(r, h.value);
    HeaderLine(m, h);
  }

  lemma LongerThanAll(l: bytes)
    requires TRANSFER_ENCODING < l
    ensures l != CONTENT_LENGTH && l != TRANSFER_ENCODING
  {}

  /** With such a header a head that says a length is refused, though nothing is said about a coding. */
  lemma LongerName(l: StatusLine, a: seq<Header>, h: Header, b: seq<Header>, i: Header, c: seq<Header>, n: nat)
    requires IsStatusLine(l) && (forall x :: x in a + b + c ==> Silent(x)) && SaysLength(h, n) && GoesOn(i)
    requires |Head(l, a + [h] + (b + [i] + c))| <= MAX_HEADER_SIZE
    ensures !Run(START, Head(l, a + [h] + (b + [i] + c))).core.errno.Ok?
  {
    hide Next, Ready, Silent, SaysLength, GoesOn, Spelled, Line, LineFlags, IsStatusLine, Code, Alike;
    var tail := b + [i] + c;
    var m := LinesOf(l, a + [h] + tail);
    LinesAround(m, a, h, tail);
    assert forall x :: x in a ==> x in a + b + c;
    assert forall x :: x in b ==> x in a + b + c;
    assert forall x :: x in c ==> x in a + b + c;
    SilentLines(m, a);
    var p := Run(m, Lines(a));
    AlikeFlags(LineFlags(m), LineFlags(p));
    var q := Run(p, Line(h));
    LinesAround(q, b, i, c);
    RunTaken(Run(q, Lines(tail)), [CR, LF]);
    RunTaken(q, Lines(tail));
    LengthLine(p, h, n);
    if q.core.errno.Ok? {
      SilentLines(q, b);
      var r := Run(q, Lines(b));
      AlikeFlags(LineFlags(q), LineFlags(r));
      GoesOnLine(r, i);
      AlikeFlags(LineFlags(r).(transferEncoding := true), LineFlags(Run(r, Line(i))));
      BothSaid(Run(r, Line(i)), c);
    }
  }
}
