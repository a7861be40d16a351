// Which headers the parser recognizes: those with the right name, letters without case.

module HttpNames {
  import opened Octets
  import opened Headers
  import opened Http
  import opened HttpRuns
  import opened HttpHeads

  const CONNECTION: bytes := Ascii("connection")
  const PROXY_CONNECTION: bytes := Ascii("proxy-connection")
  const CONTENT_LENGTH: bytes := Ascii("content-length")
  const TRANSFER_ENCODING: bytes := Ascii("transfer-encoding")
  const UPGRADE: bytes := Ascii("upgrade")

  /** A name in lower case. */
  function Lowered(n: bytes): (r: bytes)
    ensures |r| == |n|
  {
    seq(|n|, i requires 0 <= i < |n| => Token(n[i]))
  }

  /** The word is one of those to be recognized, and `l` is the beginning of it. */
  predicate Begins(l: bytes, word: bytes, least: nat) {
    least <= |l| < |word| && l <= word
  }

  predicate BeginsNone(l: bytes) {
    && !(l <= CONNECTION) && !(l <= PROXY_CONNECTION) && !(l <= CONTENT_LENGTH)
    && !(l <= TRANSFER_ENCODING) && !(l <= UPGRADE)
  }

  /** What the state of the matcher says of the name read so far, in lower case. */
  predicate Matches(h: HeaderMatch, index: nat, l: bytes) {
    match h
    case C => index == 0 && Begins(l, CONNECTION, 1) && |l| == 1
    case CO => index == 1 && Begins(l, CONNECTION, 2) && |l| == 2
    case CON => index == 2 && Begins(l, CONNECTION, 3) && |l| == 3
    case MatchingConnection => index == |l| - 1 && Begins(l, CONNECTION, 4)
    case MatchingProxyConnection => index == |l| - 1 && Begins(l, PROXY_CONNECTION, 1)
    case MatchingContentLength => index == |l| - 1 && Begins(l, CONTENT_LENGTH, 4)
    case MatchingTransferEncoding => index == |l| - 1 && Begins(l, TRANSFER_ENCODING, 1)
    case MatchingUpgrade => index == |l| - 1 && Begins(l, UPGRADE, 1)
    case Connection => l == CONNECTION || l == PROXY_CONNECTION
    case ContentLength => l == CONTENT_LENGTH
    case TransferEncoding => l == TRANSFER_ENCODING
    case Upgrade => l == UPGRADE
    case General => BeginsNone(l)
    case _ => false
  }

  lemma PrefixSnoc(l: bytes, t: byte, word: bytes)
    ensures l + [t] <= word <==> l <= word && |l| < |word| && word[|l|] == t
  {
    if l + [t] <= word {
      assert (l + [t])[|l|] == word[|l|];
      assert forall i :: 0 <= i < |l| ==> (l + [t])[i] == word[i];
    }
  }

  /** The words differ early. */
  lemma WordsDiffer()
    ensures CONNECTION[0] == 0x63 && CONNECTION[1] == 0x6f && CONNECTION[2] == 0x6e && CONNECTION[3] == 0x6e
    ensures CONTENT_LENGTH[0] == 0x63 && CONTENT_LENGTH[1] == 0x6f && CONTENT_LENGTH[2] == 0x6e
    ensures CONTENT_LENGTH[3] == 0x74
    ensures PROXY_CONNECTION[0] == 0x70 && TRANSFER_ENCODING[0] == 0x74 && UPGRADE[0] == 0x75
  {}

  /** A character too many, or a wrong one, and no word is begun any more. */
  lemma NoLonger(l: bytes, t: byte, word: bytes)
    requires l != [] && l <= word && !(l + [t] <= word)
    requires word == CONNECTION || word == CONTENT_LENGTH ==> |l| >= 4
    requires word == CONNECTION || word == PROXY_CONNECTION || word == CONTENT_LENGTH || word == TRANSFER_ENCODING
      || word == UPGRADE
    ensures BeginsNone(l + [t])
  {
    hide Ascii;
    WordsDiffer();
    var m := l + [t];
    assert m[0] == l[0] == word[0];
    assert |l| >= 4 ==> m[3] == l[3] == word[3];
  }

  predicate IsPlain(word: string) {
    forall i :: 0 <= i < |word| ==> word[i] as int < 256
  }

  lemma MatchedMeans(word: string, l: bytes, t: byte, going: HeaderMatch, done: HeaderMatch)
    requires IsPlain(word) && l <= Ascii(word) && |l| < |word|
    ensures var w := Ascii(word);
            var h := Matched(word, |l|, t, going, done, General);
            if w[|l|] != t then h == General && !(l + [t] <= w)
            else l + [t] <= w && h == (if |l| == |w| - 1 then done else going) && (|l| == |w| - 1 ==> l + [t] == w)
  {
    PrefixSnoc(l, t, Ascii(word));
    assert word[|l|] as int % 256 == word[|l|] as int;
  }

  lemma Plain()
    ensures IsPlain("connection") && IsPlain("proxy-connection") && IsPlain("content-length")
    ensures IsPlain("transfer-encoding") && IsPlain("upgrade")
  {}

  /** One more character of a word that is being matched. */
  lemma WordGoes(word: string, l: bytes, t: byte, going: HeaderMatch, done: HeaderMatch)
    requires word == "connection" || word == "proxy-connection" || word == "content-length"
      || word == "transfer-encoding" || word == "upgrade"
    requires l != [] && l <= Ascii(word) && |l| < |word|
    requires word == "connection" || word == "content-length" ==> |l| >= 4
    ensures var h := Matched(word, |l|, t, going, done, General);
            || (h == General && BeginsNone(l + [t]))
            || (h == done && l + [t] == Ascii(word))
            || (h == going && l + [t] <= Ascii(word) && |l| + 1 < |word|)
  {
    hide Ascii, BeginsNone;
    Plain();
    MatchedMeans(word, l, t, going, done);
    if !(l + [t] <= Ascii(word)) {
      NoLonger(l, t, Ascii(word));
    }
  }

  /** Beyond a word that was matched there is none. */
  lemma WordEnds(l: bytes, t: byte)
    requires l == CONNECTION || l == PROXY_CONNECTION || l == CONTENT_LENGTH || l == TRANSFER_ENCODING || l == UPGRADE
    ensures BeginsNone(l + [t])
  {
    hide BeginsNone;
    PrefixSnoc(l, t, l);
    NoLonger(l, t, l);
  }

  lemma NoneStays(l: bytes, t: byte)
    requires BeginsNone(l)
    ensures BeginsNone(l + [t])
  {
    PrefixSnoc(l, t, CONNECTION);
    PrefixSnoc(l, t, PROXY_CONNECTION);
    PrefixSnoc(l, t, CONTENT_LENGTH);
    PrefixSnoc(l, t, TRANSFER_ENCODING);
    PrefixSnoc(l, t, UPGRADE);
  }

  /** The first three characters, which two words share. */
  lemma SharedStart(h: HeaderMatch, l: bytes, t: byte)
    requires (h == C && |l| == 1) || (h == CO && |l| == 2) || (h == CON && |l| == 3)
    requires l <= CONNECTION
    ensures var next := NameStep(INITIAL.(header := h, index := |l| - 1), t, t).header;
            next != General ==> Matches(next, |l|, l + [t])
    ensures var next := NameStep(INITIAL.(header := h, index := |l| - 1), t, t).header;
            next == General ==> BeginsNone(l + [t])
  {
    WordsDiffer();
    PrefixSnoc(l, t, CONNECTION);
    PrefixSnoc(l, t, CONTENT_LENGTH);
    assert |l| >= 1 ==> l[0] == CONNECTION[0];
    assert |l| >= 2 ==> l[1] == CONNECTION[1];
    assert |l| >= 3 ==> l[2] == CONNECTION[2];
    hide Ascii;
    assert (l + [t])[0] == 0x63;
    var cl := CONTENT_LENGTH;
    assert l == cl[..|l|];
  }

  ghost predicate Goes(c: Core, l: bytes, t: byte, d: Core) {
    && Matches(d.header, d.index, l + [t])
    && d == c.(header := d.header, index := d.index, flags := d.flags)
    && (l + [t] != TRANSFER_ENCODING ==> d.flags == c.flags)
  }

  predicate AtStart(h: HeaderMatch) {
    h.C? || h.CO? || h.CON?
  }

  predicate InWord(h: HeaderMatch) {
    || h.MatchingConnection? || h.MatchingProxyConnection? || h.MatchingContentLength?
    || h.MatchingTransferEncoding? || h.MatchingUpgrade?
  }

  lemma StartGoes(c: Core, l: bytes, t: byte, ch: byte)
    requires l != [] && Matches(c.header, c.index, l) && t == Token(ch) != 0 && AtStart(c.header)
    ensures Goes(c, l, t, NameStep(c, t, ch))
  {
    hide Ascii, BeginsNone, Matched;
    SharedStart(c.header, l, t);
  }

  lemma ConnectionStep(c: Core, l: bytes, t: byte, ch: byte)
    requires l != [] && Matches(c.header, c.index, l) && t == Token(ch) != 0
    requires c.header.MatchingConnection? || c.header.MatchingProxyConnection?
    ensures Goes(c, l, t, NameStep(c, t, ch))
  {
    hide Ascii, BeginsNone, Matched, Token;
    if c.header.MatchingConnection? {
      WordGoes("connection", l, t, MatchingConnection, Connection);
    } else {
      WordGoes("proxy-connection", l, t, MatchingProxyConnection, Connection);
    }
  }

  lemma LengthWordStep(c: Core, l: bytes, t: byte, ch: byte)
    requires l != [] && Matches(c.header, c.index, l) && t == Token(ch) != 0
    requires c.header.MatchingContentLength? || c.header.MatchingTransferEncoding?
    ensures Goes(c, l, t, NameStep(c, t, ch))
  {
    hide Ascii, BeginsNone, Matched, Token;
    if c.header.MatchingContentLength? {
      WordGoes("content-length", l, t, MatchingContentLength, ContentLength);
    } else {
      WordGoes("transfer-encoding", l, t, MatchingTransferEncoding, TransferEncoding);
    }
  }

  lemma WordStep(c: Core, l: bytes, t: byte, ch: byte)
    requires l != [] && Matches(c.header, c.index, l) && t == Token(ch) != 0 && InWord(c.header)
    ensures Goes(c, l, t, NameStep(c, t, ch))
  {
    hide Ascii, BeginsNone, Matched, Token;
    if c.header.MatchingUpgrade? {
      WordGoes("upgrade", l, t, MatchingUpgrade, Upgrade);
    } else {
      hide Matches, Goes, NameStep;
      if c.header.MatchingConnection? || c.header.MatchingProxyConnection? {
        ConnectionStep(c, l, t, ch);
      } else {
        LengthWordStep(c, l, t, ch);
      }
    }
  }

  lemma OtherGoes(c: Core, l: bytes, t: byte, ch: byte)
    requires l != [] && Matches(c.header, c.index, l) && t == Token(ch) != 0 && !AtStart(c.header) && !InWord(c.header)
    ensures Goes(c, l, t, NameStep(c, t, ch))
  {
    hide Ascii, BeginsNone, Matched;
    if c.header.General? {
      NoneStays(l, t);
    } else {
      WordEnds(l, t);
    }
  }

  /** One more character of a name. */
  lemma NameStepMatches(c: Core, l: bytes, t: byte, ch: byte)
    requires l != [] && Matches(c.header, c.index, l) && t == Token(ch) != 0
    ensures Goes(c, l, t, NameStep(c, t, ch))
  {
    hide Goes, Matches, NameStep;
    if AtStart(c.header) {
      StartGoes(c, l, t, ch);
    } else if InWord(c.header) {
      WordStep(c, l, t, ch);
    } else {
      OtherGoes(c, l, t, ch);
    }
  }

  lemma FirstMatches(t: byte)
    ensures Matches(FirstMatch(t), 0, [t])
  {
    WordsDiffer();
  }

  /** The flags at the start of a line, once the header before is finished. */
  function LineFlags(m: Machine): Flags {
    if m.core.state.FieldStart? then m.core.flags else Finished(m.core).flags
  }

  /** A line may begin that is not refused for what came before. */
  predicate Ready(m: Machine) {
    AtLine(m) && !(m.core.state.DiscardLws? && m.core.header.ContentLength?)
  }

  lemma NameFirstCore(m: Machine, b: byte)
    requires Ready(m) && Token(b) != 0 && m.core.nread < MAX_HEADER_SIZE
    ensures var r := Next(m, b);
            && !Stopped(r) && r.core.state.InName? && r.seen.head.part.Name?
            && r.core == m.core.(state := InName, header := FirstMatch(Token(b)), index := 0, flags := LineFlags(m),
                                 nread := m.core.nread + 1)
  {
    hide Finished, OnFieldStart, FirstMatch, LengthOk, OnValueStart, Completed, Token;
    FieldStartToken(m.core.(nread := m.core.nread + 1), b);
    FieldStartToken(Finished(m.core.(nread := m.core.nread + 1)), b);
    NotBlank(b);
    FinishedKeeps(m.core.(nread := m.core.nread + 1), m.core);
  }

  lemma FieldStartToken(c: Core, b: byte)
    requires Token(b) != 0
    ensures OnFieldStart(c, b) == Move(c.(state := InName, index := 0, header := FirstMatch(Token(b))), false,
      Take(FieldData), [])
  {}

  lemma NotBlank(b: byte)
    requires Token(b) != 0
    ensures !IsBlank(b) && !IsLineEnd(b)
  {}

  lemma FinishedKeeps(c: Core, d: Core)
    requires c == d.(nread := c.nread)
    ensures Finished(c) == c.(flags := Finished(c).flags) && Finished(c).flags == Finished(d).flags
  {}

  lemma NameNextCore(m: Machine, b: byte)
    requires !Stopped(m) && m.core.state.InName? && Token(b) != 0 && m.core.nread < MAX_HEADER_SIZE
    ensures !Stopped(Next(m, b))
    ensures Next(m, b).core == NameStep(m.core.(nread := m.core.nread + 1), Token(b), b)
  {
    hide NameStep, Token;
    NameStepKeeps(m.core.(nread := m.core.nread + 1), Token(b), b);
    assert m.seen.notes + [] == m.seen.notes;
  }

  /** The matcher follows a whole name. */
  lemma {:induction false} NameMatches(m: Machine, l: bytes, s: bytes)
    requires !Stopped(m) && m.core.state.InName? && l != [] && Matches(m.core.header, m.core.index, l)
    requires (forall b :: b in s ==> Token(b) != 0) && m.core.nread + |s| <= MAX_HEADER_SIZE
    ensures var r := Run(m, s);
            && !Stopped(r) && Matches(r.core.header, r.core.index, l + Lowered(s))
            && r.core == m.core.(header := r.core.header, index := r.core.index, flags := r.core.flags,
                                 nread := m.core.nread + |s|)
            && (!(TRANSFER_ENCODING <= l + Lowered(s)) ==> r.core.flags == m.core.flags)
    decreases |s|
  {
    hide Next, Token, Matches, Ascii, NameStep, Lowered;
    if s == [] {
      assert l + Lowered(s) == l;
    } else {
      var b := s[0];
      assert b in s;
      NameNextCore(m, b);
      NameStepMatches(m.core.(nread := m.core.nread + 1), l, Token(b), b);
      LoweredFront(l, s);
      NameMatches(Next(m, b), l + [Token(b)], s[1..]);
    }
  }

  lemma LoweredFront(l: bytes, s: bytes)
    requires s != []
    ensures l + Lowered(s) == l + [Token(s[0])] + Lowered(s[1..])
    ensures l + [Token(s[0])] <= l + Lowered(s)
  {
    hide Token;
    assert Lowered(s) == [Token(s[0])] + Lowered(s[1..]);
  }

  lemma BlankCore(m: Machine, b: byte)
    requires !Stopped(m) && m.core.nread < MAX_HEADER_SIZE
    requires (m.core.state.InName? && b == COLON) || (m.core.state.DiscardWs? && b == SPACE)
    ensures !Stopped(Next(m, b))
    ensures Next(m, b).core == m.core.(state := DiscardWs, nread := m.core.nread + 1)
  {
    assert m.seen.notes + [] == m.seen.notes;
  }

  /** After a name, the header is recognized exactly if the name is right, letters without case. */
  lemma Recognized(m: Machine, n: bytes)
    requires Ready(m) && IsName(n) && m.core.nread + |n| + 2 <= MAX_HEADER_SIZE
    ensures var r := Run(m, n + [COLON, SPACE]);
            && !Stopped(r) && r.core.state.DiscardWs? && Matches(r.core.header, r.core.index, Lowered(n))
            && r.core == m.core.(state := DiscardWs, header := r.core.header, index := r.core.index,
                                 flags := r.core.flags, nread := m.core.nread + |n| + 2)
            && (!(TRANSFER_ENCODING <= Lowered(n)) ==> r.core.flags == LineFlags(m))
            && (r.core.header.Upgrade? <==> Lowered(n) == UPGRADE)
            && (r.core.header.Connection? <==> Lowered(n) == CONNECTION || Lowered(n) == PROXY_CONNECTION)
            && (r.core.header.ContentLength? <==> Lowered(n) == CONTENT_LENGTH)
            && (r.core.header.TransferEncoding? <==> Lowered(n) == TRANSFER_ENCODING)
  {
    hide Next, Token, Matches, Ready, Ascii;
    assert n[0] in n;
    NameFirstCore(m, n[0]);
    FirstMatches(Token(n[0]));
    NameMatches(Next(m, n[0]), [Token(n[0])], n[1..]);
    assert [Token(n[0])] + Lowered(n[1..]) == Lowered(n);
    var a := Run(m, n);
    RunConcat(m, n, [COLON, SPACE]);
    RunTwo(a, COLON, SPACE);
    BlankCore(a, COLON);
    BlankCore(Next(a, COLON), SPACE);
    OneMeaning(a.core.header, a.core.index, Lowered(n));
  }

  lemma OneMeaning(h: HeaderMatch, index: nat, l: bytes)
    requires Matches(h, index, l)
    ensures h.Upgrade? <==> l == UPGRADE
    ensures h.Connection? <==> l == CONNECTION || l == PROXY_CONNECTION
    ensures h.ContentLength? <==> l == CONTENT_LENGTH
    ensures h.TransferEncoding? <==> l == TRANSFER_ENCODING
    ensures h.Upgrade? || h.Connection? || h.ContentLength? || h.TransferEncoding? || h.General? || AtStart(h)
      || InWord(h)
  {
    WordsDiffer();
    Plain();
  }
}
