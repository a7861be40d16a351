// Which response heads are refused: exactly those with a status line or a header line that is not
// one, as told by splitting them at their marks.

module HttpRefusals {
  import opened Octets
  import opened Headers
  import opened Http
  import opened HttpAnswers
  import opened HttpHeads
  import opened HttpLengths
  import opened HttpMessages
  import opened HttpNames
  import opened HttpRuns

  /** No line end inside. */
  predicate OneLine(s: bytes) {
    CR !in s && LF !in s
  }

  // ---- The status line ----

  /** HTTP/, two digits around a dot, a blank. */
  predicate IsVersion(t: bytes) {
    && |t| >= 9 && t[..5] == Ascii("HTTP/") && IsNum(t[5]) && t[6] == 0x2e && IsNum(t[7]) && t[8] == SPACE
  }

  /** How many blanks come first. */
  function LeadingBlanks(s: bytes): (n: nat)
    ensures n <= |s| && (n < |s| ==> s[n] != SPACE)
  {
    if s == [] || s[0] != SPACE then 0 else 1 + LeadingBlanks(s[1..])
  }

  /** The digits that come first. */
  function LeadingDigits(s: bytes): (r: bytes)
    ensures r <= s && Numeral(10, r) && (|r| < |s| ==> !IsNum(s[|r|]))
  {
    if s == [] || !IsNum(s[0]) then []
    else
      var r := LeadingDigits(s[1..]);
      assert forall b :: b in [s[0]] + r ==> b == s[0] || b in r;
      [s[0]] + r
  }

  /** Blanks, digits that make at most 999, and then nothing or a blank and anything. */
  predicate IsCode(u: bytes) {
    var a := u[LeadingBlanks(u)..];
    var ds := LeadingDigits(a);
    ds != [] && ValueOf(10, ds) <= 999 && (|ds| < |a| ==> a[|ds|] == SPACE)
  }

  /** The number that it says. */
  function CodeValue(u: bytes): nat {
    ValueOf(10, LeadingDigits(u[LeadingBlanks(u)..]))
  }

  predicate IsStatus(t: bytes) {
    IsVersion(t) && IsCode(t[9..])
  }

  /** What the next octet of the version has to be. */
  predicate Wanted(s: State, b: byte) {
    match s
    case ResH => b == 0x54
    case ResHT => b == 0x54
    case ResHTT => b == 0x50
    case ResHTTP => b == 0x2f
    case Major => IsNum(b)
    case Dot => b == 0x2e
    case Minor => IsNum(b)
    case VersionEnd => b == SPACE
    case _ => false
  }

  function Then(s: State): State {
    match s
    case ResH => ResHT
    case ResHT => ResHTT
    case ResHTT => ResHTTP
    case ResHTTP => Major
    case Major => Dot
    case Dot => Minor
    case Minor => VersionEnd
    case _ => FirstStatusCode
  }

  predicate InVersion(s: State) {
    || s.ResH? || s.ResHT? || s.ResHTT? || s.ResHTTP? || s.Major? || s.Dot? || s.Minor? || s.VersionEnd?
  }

  lemma VersionStep(m: Machine, b: byte)
    requires m.core.errno.Ok? && m.seen == NOTHING.(notes := [MessageBegin]) && InVersion(m.core.state)
    requires m.core.nread < MAX_HEADER_SIZE
    ensures var r := Next(m, b);
            && (r.core.errno.Ok? <==> Wanted(m.core.state, b))
            && (r.core.errno.Ok? ==>
                  r.seen == m.seen && r.core.state == Then(m.core.state) && r.core.nread == m.core.nread + 1)
  {
    assert [MessageBegin] + [] == [MessageBegin];
  }

  lemma FirstStep(b: byte)
    requires !IsLineEnd(b)
    ensures Next(START, b).core.errno.Ok? <==> b == 0x48
    ensures b == 0x48 ==>
              Next(START, b).seen == NOTHING.(notes := [MessageBegin]) && Next(START, b).core.state == ResH
                && Next(START, b).core.nread == 1
  {
    assert [] + [MessageBegin] == [MessageBegin];
  }

  /** The octets that the rest of a version has to be, from a state within it. */
  predicate Continues(s: State, t: bytes)
    decreases |t|
  {
    t == [] || (InVersion(s) && Wanted(s, t[0]) && Continues(Then(s), t[1..]))
  }

  lemma {:induction false} VersionRun(m: Machine, t: bytes)
    requires m.core.errno.Ok? && m.seen == NOTHING.(notes := [MessageBegin]) && InVersion(m.core.state)
    requires m.core.nread + |t| <= MAX_HEADER_SIZE && Reach(m.core.state) >= |t|
    ensures Run(m, t).core.errno.Ok? <==> Continues(m.core.state, t)
    ensures Run(m, t).core.errno.Ok? && |t| < Reach(m.core.state) ==>
              Run(m, t).seen == m.seen && InVersion(Run(m, t).core.state) && Run(m, t).core.nread == m.core.nread + |t|
    decreases |t|
  {
    if t != [] {
      VersionStep(m, t[0]);
      RunTaken(Next(m, t[0]), t[1..]);
      hide Next;
      if Next(m, t[0]).core.errno.Ok? && t[1..] != [] {
        VersionRun(Next(m, t[0]), t[1..]);
      }
    }
  }

  /** How many octets of the version are still to come. */
  function Reach(s: State): nat {
    match s
    case ResH => 8
    case ResHT => 7
    case ResHTT => 6
    case ResHTTP => 5
    case Major => 4
    case Dot => 3
    case Minor => 2
    case VersionEnd => 1
    case _ => 0
  }

  lemma ContinuesIs(t: bytes)
    requires |t| == 8
    ensures Continues(ResH, t) <==> IsVersion([0x48] + t)
  {
    ContinuesFour(ResH, t);
    ContinuesFour(Major, t[4..]);
    assert t[4..][4..] == [];
    var v, w := [0x48] + t, Ascii("HTTP/");
    assert w == [0x48, 0x54, 0x54, 0x50, 0x2f];
    assert v[..5] == [0x48, t[0], t[1], t[2], t[3]];
  }

  lemma ContinuesFour(s: State, t: bytes)
    requires |t| >= 4 && (s.ResH? || s.Major?)
    ensures Continues(s, t) <==>
              && Wanted(s, t[0]) && Wanted(Then(s), t[1]) && Wanted(Then(Then(s)), t[2])
              && Wanted(Then(Then(Then(s))), t[3])
              && Continues(if s.ResH? then Major else FirstStatusCode, t[4..])
  {
    hide Wanted;
    assert t[1..][1..] == t[2..] && t[2..][1..] == t[3..] && t[3..][1..] == t[4..];
    assert Continues(Then(s), t[1..]) <==> Wanted(Then(s), t[1]) && Continues(Then(Then(s)), t[2..]);
    assert Continues(Then(Then(s)), t[2..]) <==>
      Wanted(Then(Then(s)), t[2]) && Continues(Then(Then(Then(s))), t[3..]);
  }

  /** The first nine octets are accepted exactly if they are a version. */
  lemma VersionExactly(t: bytes)
    requires |t| >= 9 && OneLine(t)
    ensures Run(START, t[..9]).core.errno.Ok? <==> IsVersion(t)
    ensures IsVersion(t) ==>
              Run(START, t[..9]) == Begun(LineCore(FirstStatusCode, 9, t[5] - ZERO, t[7] - ZERO, 0))
  {
    hide Next, Run;
    assert t[0] in t;
    assert t[..9] == [t[0]] + t[1..9] && t[..9][1..] == t[1..9];
    RunFront(START, t[..9]);
    FirstStep(t[0]);
    RunTaken(Next(START, t[0]), t[1..9]);
    if t[0] == 0x48 {
      VersionRun(Next(START, t[0]), t[1..9]);
      ContinuesIs(t[1..9]);
      assert [0x48] + t[1..9] == t[..9];
      SameVersion(t);
    }
    if IsVersion(t) {
      WrittenVersion(t);
    }
  }

  lemma SameVersion(t: bytes)
    requires |t| >= 9
    ensures IsVersion(t[..9]) <==> IsVersion(t)
  {
    assert t[..9][..5] == t[..5];
  }

  lemma WrittenVersion(t: bytes)
    requires IsVersion(t)
    ensures t[0] == 0x48
    ensures Run(START, t[..9]) == Begun(LineCore(FirstStatusCode, 9, t[5] - ZERO, t[7] - ZERO, 0))
  {
    hide Run, Begun;
    assert Ascii("HTTP/") == [0x48, 0x54, 0x54, 0x50, 0x2f];
    var l := StatusLine(t[5], t[7], [ZERO, ZERO, ZERO], []);
    var v := [l.major, 0x2e, l.minor, SPACE];
    assert t[..9] == t[..5] + v;
    assert t[0] == t[..5][0];
    Protocol(v);
    assert v + [] == v;
    Version(l, []);
    RunEmpty(Begun(LineCore(FirstStatusCode, 9, l.major - ZERO, l.minor - ZERO, 0)));
  }

  lemma RunEmpty(m: Machine)
    ensures Run(m, []) == m
  {}

  /** A line that is too short for a version is refused with its end, unless it is empty. */
  lemma ShortLine(t: bytes)
    requires 1 <= |t| < 9 && OneLine(t)
    ensures !Run(START, t + [CR]).core.errno.Ok?
  {
    hide Next, Run;
    assert t[0] in t;
    RunFront(START, t);
    FirstStep(t[0]);
    RunTaken(Next(START, t[0]), t[1..]);
    RunSnoc(START, t, CR);
    RunSticks(Run(START, t), CR);
    if Run(START, t).core.errno.Ok? {
      VersionRun(Next(START, t[0]), t[1..]);
      VersionStep(Run(START, t), CR);
    }
  }

  // ---- The code ----

  lemma BlankStep(x: nat, y: nat, n: nat)
    requires n < MAX_HEADER_SIZE
    ensures Next(Begun(LineCore(FirstStatusCode, n, x, y, 0)), SPACE)
      == Begun(LineCore(FirstStatusCode, n + 1, x, y, 0))
  {
    assert [MessageBegin] + [] == [MessageBegin];
  }

  /** The first octet that is no blank. */
  lemma DigitFirst(x: nat, y: nat, n: nat, b: byte)
    requires n < MAX_HEADER_SIZE && b != SPACE
    ensures var r := Next(Begun(LineCore(FirstStatusCode, n, x, y, 0)), b);
            && (r.core.errno.Ok? <==> IsNum(b))
            && (r.core.errno.Ok? ==> r == Begun(LineCore(StatusCode, n + 1, x, y, b - ZERO)))
  {
    assert [MessageBegin] + [] == [MessageBegin];
  }

  lemma DigitNext(x: nat, y: nat, n: nat, code: nat, b: byte)
    requires n < MAX_HEADER_SIZE && IsNum(b)
    ensures var r := Next(Begun(LineCore(StatusCode, n, x, y, code)), b);
            && (r.core.errno.Ok? <==> code * 10 + (b - ZERO) <= 999)
            && (r.core.errno.Ok? ==> r == Begun(LineCore(StatusCode, n + 1, x, y, code * 10 + (b - ZERO))))
  {
    assert [MessageBegin] + [] == [MessageBegin];
  }

  lemma CodeEnds(x: nat, y: nat, n: nat, code: nat, b: byte)
    requires n < MAX_HEADER_SIZE && !IsNum(b) && b != LF
    ensures var r := Next(Begun(LineCore(StatusCode, n, x, y, code)), b);
            && (r.core.errno.Ok? <==> b == SPACE || b == CR)
            && (b == SPACE ==> r == Begun(LineCore(StatusStart, n + 1, x, y, code)))
            && (b == CR ==> r == Begun(LineCore(LineAlmostDone, n + 1, x, y, code)))
  {
    assert [MessageBegin] + [] == [MessageBegin];
  }

  lemma {:induction false} BlanksSkipped(x: nat, y: nat, n: nat, u: bytes, tail: bytes)
    requires n + |u| <= MAX_HEADER_SIZE
    ensures var k := LeadingBlanks(u);
            Run(Begun(LineCore(FirstStatusCode, n, x, y, 0)), u + tail)
            == Run(Begun(LineCore(FirstStatusCode, n + k, x, y, 0)), u[k..] + tail)
    decreases |u|
  {
    hide Next, Run, Begun, LineCore;
    var k := LeadingBlanks(u);
    if k > 0 {
      BlankStep(x, y, n);
      assert (u + tail)[1..] == u[1..] + tail;
      RunFront(Begun(LineCore(FirstStatusCode, n, x, y, 0)), u + tail);
      BlanksSkipped(x, y, n + 1, u[1..], tail);
      assert u[1..][k - 1..] == u[k..];
    } else {
      assert u[0..] == u;
    }
  }

  /** The digits of the code, from the first on. */
  lemma {:induction false} CodeDigits(x: nat, y: nat, n: nat, ds: bytes)
    requires ds != [] && Numeral(10, ds) && n + |ds| <= MAX_HEADER_SIZE
    ensures var r := Run(Begun(LineCore(FirstStatusCode, n, x, y, 0)), ds);
            && (r.core.errno.Ok? <==> ValueOf(10, ds) <= 999)
            && (r.core.errno.Ok? ==> r == Begun(LineCore(StatusCode, n + |ds|, x, y, ValueOf(10, ds))))
    decreases |ds|
  {
    hide Next;
    var m := Begun(LineCore(FirstStatusCode, n, x, y, 0));
    var front, last := ds[..|ds| - 1], ds[|ds| - 1];
    assert front + [last] == ds && last in ds;
    RunSnoc(m, front, last);
    if front == [] {
      assert ValueFrom(0, 10, []) * 10 == 0;
      RunEmpty(m);
      DigitFirst(x, y, n, last);
    } else {
      CodeDigits(x, y, n, front);
      RunSticks(Run(m, front), last);
      Grows(ValueOf(10, front), 10, Unhex(last));
      if ValueOf(10, front) <= 999 {
        DigitNext(x, y, n + |front|, ValueOf(10, front), last);
      }
    }
  }

  /** What may stand behind the digits of the code. */
  lemma BehindCode(x: nat, y: nat, n: nat, code: nat, a: bytes)
    requires OneLine(a) && (a != [] ==> !IsNum(a[0])) && n + |a| + 2 <= MAX_HEADER_SIZE
    ensures var r := Run(Begun(LineCore(StatusCode, n, x, y, code)), a + [CR, LF]);
            && (r.core.errno.Ok? <==> (a != [] ==> a[0] == SPACE))
            && (r.core.errno.Ok? ==> r == Begun(LineCore(FieldStart, n + |a| + 2, x, y, code)))
  {
    hide Next;
    var m, s := Begun(LineCore(StatusCode, n, x, y, code)), a + [CR, LF];
    RunFront(m, s);
    CodeEnds(x, y, n, code, s[0]);
    if a == [] {
      assert s[1..] == [LF];
      ReasonEnds(n + 1, x, y, code);
    } else {
      assert a[0] in a;
      assert s[1..] == a[1..] + [CR, LF];
      if a[0] == SPACE {
        assert OneLine(a[1..]) by {
          assert forall b :: b in a[1..] ==> b in a;
        }
        Reason(StatusStart, n + 1, x, y, code, a[1..]);
      } else {
        RunTaken(Next(m, s[0]), s[1..]);
      }
    }
  }

  /** What follows the version is accepted exactly if it is a code. */
  lemma CodeExactly(x: nat, y: nat, n: nat, u: bytes)
    requires OneLine(u) && n + |u| + 2 <= MAX_HEADER_SIZE
    ensures var r := Run(Begun(LineCore(FirstStatusCode, n, x, y, 0)), u + [CR, LF]);
            && (r.core.errno.Ok? <==> IsCode(u))
            && (r.core.errno.Ok? ==> r == Begun(LineCore(FieldStart, n + |u| + 2, x, y, CodeValue(u))))
  {
    hide Next, Run, Begun, LineCore, ValueOf, Numeral, LeadingDigits, LeadingBlanks, IsCode, CodeValue;
    BlanksSkipped(x, y, n, u, [CR, LF]);
    var k := LeadingBlanks(u);
    var a := u[k..];
    CodeParts(u, k, a);
    if LeadingDigits(a) == [] {
      NoDigit(x, y, n + k, a);
    } else {
      SomeDigits(x, y, n + k, a);
    }
  }

  lemma CodeParts(u: bytes, k: nat, a: bytes)
    requires k == LeadingBlanks(u) && a == u[k..]
    ensures |a| + k == |u| && (a != [] ==> a[0] != SPACE)
    ensures OneLine(u) ==> OneLine(a)
    ensures var ds := LeadingDigits(a);
            && CodeValue(u) == ValueOf(10, ds)
            && (IsCode(u) <==> ds != [] && ValueOf(10, ds) <= 999 && (|ds| < |a| ==> a[|ds|] == SPACE))
  {
    hide ValueOf, LeadingDigits;
    assert forall b :: b in a ==> b in u;
  }

  /** The same behind the blanks. */
  lemma SomeDigits(x: nat, y: nat, n: nat, a: bytes)
    requires OneLine(a) && n + |a| + 2 <= MAX_HEADER_SIZE && LeadingDigits(a) != []
    ensures var r, ds := Run(Begun(LineCore(FirstStatusCode, n, x, y, 0)), a + [CR, LF]), LeadingDigits(a);
            && (r.core.errno.Ok? <==> ValueOf(10, ds) <= 999 && (|ds| < |a| ==> a[|ds|] == SPACE))
            && (r.core.errno.Ok? ==> r == Begun(LineCore(FieldStart, n + |a| + 2, x, y, ValueOf(10, ds))))
  {
    hide Next, Run, Begun, LineCore, ValueOf, Numeral;
    var m, ds := Begun(LineCore(FirstStatusCode, n, x, y, 0)), LeadingDigits(a);
    var rest := a[|ds|..];
    hide LeadingDigits;
    assert forall b :: b in rest ==> b in a;
    CodeDigits(x, y, n, ds);
    assert a + [CR, LF] == ds + (rest + [CR, LF]);
    RunConcat(m, ds, rest + [CR, LF]);
    RunTaken(Run(m, ds), rest + [CR, LF]);
    if ValueOf(10, ds) <= 999 {
      BehindCode(x, y, n + |ds|, ValueOf(10, ds), rest);
    }
  }

  lemma NoDigit(x: nat, y: nat, n: nat, a: bytes)
    requires n < MAX_HEADER_SIZE && (a != [] ==> a[0] != SPACE) && LeadingDigits(a) == []
    ensures !Run(Begun(LineCore(FirstStatusCode, n, x, y, 0)), a + [CR, LF]).core.errno.Ok?
  {
    hide Next, Run;
    var m, s := Begun(LineCore(FirstStatusCode, n, x, y, 0)), a + [CR, LF];
    RunFront(m, s);
    DigitFirst(x, y, n, s[0]);
    RunTaken(Next(m, s[0]), s[1..]);
  }

  /**
   * The first line of a response, if it is not empty, is accepted exactly if it is a status line: a
   * version, blanks, a code of at most 999, and nothing or a blank and anything behind it.
   */
  lemma StatusLineExactly(t: bytes)
    requires OneLine(t) && t != [] && |t| + 2 <= MAX_HEADER_SIZE
    ensures var r := Run(START, t + [CR, LF]);
            && (r.core.errno.Ok? <==> IsStatus(t))
            && (r.core.errno.Ok? ==>
                  r == Begun(LineCore(FieldStart, |t| + 2, t[5] - ZERO, t[7] - ZERO, CodeValue(t[9..]))))
  {
    hide Next, Run, Begun, LineCore, IsCode, IsVersion, CodeValue;
    if |t| < 9 {
      ShortLine(t);
      assert t + [CR, LF] == t + [CR] + [LF];
      RunConcat(START, t + [CR], [LF]);
      RunTaken(Run(START, t + [CR]), [LF]);
      TooShort(t);
    } else {
      VersionExactly(t);
      var u := t[9..];
      assert t + [CR, LF] == t[..9] + (u + [CR, LF]);
      RunConcat(START, t[..9], u + [CR, LF]);
      RunTaken(Run(START, t[..9]), u + [CR, LF]);
      assert forall b :: b in u ==> b in t;
      if IsVersion(t) {
        VersionDigits(t);
        CodeExactly(t[5] - ZERO, t[7] - ZERO, 9, u);
      }
    }
  }

  lemma TooShort(t: bytes)
    requires |t| < 9
    ensures !IsVersion(t)
  {}

  lemma VersionDigits(t: bytes)
    requires IsVersion(t)
    ensures |t| >= 9 && t[5] >= ZERO && t[7] >= ZERO
  {}

  // ---- Header lines ----

  /** Without the blanks in front. */
  function Trimmed(s: bytes): (r: bytes)
    ensures |r| <= |s| && (r != [] ==> !IsBlank(r[0]))
  {
    if s != [] && IsBlank(s[0]) then Trimmed(s[1..]) else s
  }

  lemma {:induction false} TrimmedInside(s: bytes)
    ensures OneLine(s) ==> OneLine(Trimmed(s))
  {
    if s != [] && IsBlank(s[0]) {
      assert forall b :: b in s[1..] ==> b in s;
      TrimmedInside(s[1..]);
    }
  }

  function NameOf(x: bytes): bytes {
    UpTo(x, COLON)
  }

  function ValueText(x: bytes): bytes {
    if |NameOf(x)| < |x| then Trimmed(x[|NameOf(x)| + 1..]) else []
  }

  /** A name, a colon, and a value behind blanks. */
  predicate IsHeaderLine(x: bytes) {
    COLON in x && IsName(NameOf(x)) && IsText(ValueText(x))
  }

  /** The line is about a body, by the name in front. */
  predicate AboutBody(x: bytes) {
    Lowered(NameOf(x)) == CONTENT_LENGTH || TRANSFER_ENCODING <= Lowered(NameOf(x))
  }

  lemma BadFirst(m: Machine, b: byte)
    requires Ready(m) && !IsBlank(b) && !IsLineEnd(b) && Token(b) == 0
    ensures !Next(m, b).core.errno.Ok?
  {
    hide OnHeadersAlmostDone, Finished;
  }

  lemma GoodNext(m: Machine, b: byte)
    requires !Stopped(m) && m.core.state.InName? && b != COLON && Next(m, b).core.errno.Ok?
    ensures Token(b) != 0 && !Stopped(Next(m, b)) && Next(m, b).core.state.InName?
  {
    hide NameStep;
    NameStepKeeps(m.core.(nread := m.core.nread + 1), Token(b), b);
    assert m.seen.notes + [] == m.seen.notes;
  }

  lemma {:induction false} GoodName(m: Machine, s: bytes)
    requires !Stopped(m) && m.core.state.InName? && COLON !in s && Run(m, s).core.errno.Ok?
    ensures forall b :: b in s ==> Token(b) != 0
    ensures !Stopped(Run(m, s)) && Run(m, s).core.state.InName?
    decreases |s|
  {
    if s != [] {
      hide Next, Token;
      assert s[0] in s;
      RunTaken(Next(m, s[0]), s[1..]);
      GoodNext(m, s[0]);
      GoodName(Next(m, s[0]), s[1..]);
    }
  }

  /** A name is accepted only if it is one. */
  lemma NameOnly(m: Machine, n: bytes)
    requires Ready(m) && OneLine(n) && COLON !in n && (n != [] ==> !IsBlank(n[0])) && n != []
    requires m.core.nread + |n| <= MAX_HEADER_SIZE && Run(m, n).core.errno.Ok?
    ensures IsName(n) && !Stopped(Run(m, n)) && Run(m, n).core.state.InName?
  {
    hide Next, Token, Ready;
    RunTaken(Next(m, n[0]), n[1..]);
    assert n[0] in n;
    if Token(n[0]) == 0 {
      BadFirst(m, n[0]);
    }
    NameFirstCore(m, n[0]);
    assert forall b :: b in n[1..] ==> b in n;
    GoodName(Next(m, n[0]), n[1..]);
    assert [n[0]] + n[1..] == n;
  }

  lemma NoColon(m: Machine)
    requires !Stopped(m) && m.core.state.InName?
    ensures !Next(m, CR).core.errno.Ok?
  {}

  lemma BlankPassed(m: Machine, b: byte)
    requires !Stopped(m) && m.core.nread < MAX_HEADER_SIZE
    requires (m.core.state.InName? && b == COLON) || (m.core.state.DiscardWs? && IsBlank(b))
    ensures Next(m, b) == Machine(m.core.(state := DiscardWs, nread := m.core.nread + 1), m.seen, m.taken + 1)
    ensures m.core.state.DiscardWs? ==> Next(m, b) == Past(m, 1)
  {
    assert m.seen.notes + [] == m.seen.notes;
  }

  /** The machine with `k` octets more counted. */
  function Past(m: Machine, k: nat): Machine {
    Machine(m.core.(nread := m.core.nread + k), m.seen, m.taken + k)
  }

  lemma {:induction false} BlanksPassed(m: Machine, w: bytes, tail: bytes)
    requires !Stopped(m) && m.core.state.DiscardWs? && m.core.nread + |w| <= MAX_HEADER_SIZE
    ensures Run(m, w + tail) == Run(Past(m, |w| - |Trimmed(w)|), Trimmed(w) + tail)
    decreases |w|
  {
    hide Next, Run;
    if w != [] && IsBlank(w[0]) {
      BlankPassed(m, w[0]);
      RunFront(m, w + tail);
      assert (w + tail)[1..] == w[1..] + tail;
      BlanksPassed(Past(m, 1), w[1..], tail);
      assert Past(Past(m, 1), |w[1..]| - |Trimmed(w[1..])|) == Past(m, |w| - |Trimmed(w)|);
    }
  }

  lemma GoodChar(m: Machine, b: byte)
    requires !Stopped(m) && m.core.state.InText? && !IsLineEnd(b) && Next(m, b).core.errno.Ok?
    ensures IsHeaderChar(b) && !Stopped(Next(m, b)) && Next(m, b).core.state.InText?
  {
    hide TextStep;
    TextStepSame(m.core.(nread := m.core.nread + 1), b);
    assert m.seen.notes + [] == m.seen.notes;
  }

  lemma {:induction false} GoodText(m: Machine, s: bytes)
    requires !Stopped(m) && m.core.state.InText? && OneLine(s) && Run(m, s).core.errno.Ok?
    ensures forall b :: b in s ==> IsHeaderChar(b) && !IsLineEnd(b)
    decreases |s|
  {
    if s != [] {
      hide Next, IsHeaderChar;
      assert s[0] in s;
      RunTaken(Next(m, s[0]), s[1..]);
      GoodChar(m, s[0]);
      assert forall b :: b in s[1..] ==> b in s;
      GoodText(Next(m, s[0]), s[1..]);
    }
  }

  lemma ValueStarts(m: Machine, b: byte)
    requires !Stopped(m) && m.core.state.DiscardWs? && !IsLineEnd(b) && !IsBlank(b) && Next(m, b).core.errno.Ok?
    ensures !Stopped(Next(m, b)) && Next(m, b).core.state.InText?
  {
    hide Lower;
    assert m.seen.notes + [] == m.seen.notes;
  }

  /** A value is accepted only if it is text. */
  lemma ValueOnly(m: Machine, v: bytes)
    requires !Stopped(m) && m.core.state.DiscardWs? && OneLine(v) && (v != [] ==> !IsBlank(v[0]))
    requires Run(m, v + [CR, LF]).core.errno.Ok?
    ensures IsText(v)
  {
    hide Next, IsHeaderChar;
    if v != [] {
      RunConcat(m, v, [CR, LF]);
      RunTaken(Run(m, v), [CR, LF]);
      assert v[0] in v;
      RunTaken(Next(m, v[0]), v[1..]);
      ValueStarts(m, v[0]);
      assert forall b :: b in v[1..] ==> b in v;
      GoodText(Next(m, v[0]), v[1..]);
    }
  }

  /** What a name leads to, in front of its colon. */
  lemma NamePast(m: Machine, n: bytes)
    requires Ready(m) && IsName(n) && m.core.nread + |n| + 1 <= MAX_HEADER_SIZE
    requires Lowered(n) != CONTENT_LENGTH && !(TRANSFER_ENCODING <= Lowered(n))
    ensures var r := Run(m, n + [COLON]);
            && !Stopped(r) && r.core.state.DiscardWs? && SameLine(m, r) && Named(r.core.header)
            && r.core == m.core.(state := DiscardWs, header := r.core.header, index := r.core.index,
                                 flags := LineFlags(m), nread := m.core.nread + |n| + 1)
            && r.seen.head == Progress(Spelled(m), Name(n))
  {
    hide Next, Token, Matches, Spelled, Ascii;
    ReadyIs(m);
    assert n[0] in n;
    NameFirstCore(m, n[0]);
    NameFirst(m, n[0]);
    FirstMatches(Token(n[0]));
    var a, rest := Next(m, n[0]), n[1..];
    assert forall b :: b in rest ==> b in n;
    NameMatches(a, [Token(n[0])], rest);
    NameRun(a, rest);
    assert [n[0]] + rest == n && [Token(n[0])] + Lowered(rest) == Lowered(n);
    var c := Run(m, n);
    OneMeaning(c.core.header, c.core.index, Lowered(n));
    RunSnoc(m, n, COLON);
    BlankPassed(c, COLON);
  }

  lemma PastValid(m: Machine, n: bytes, a: Machine, k: nat)
    requires Ready(m) && a == Run(m, n + [COLON]) && !Stopped(a) && a.core.state.DiscardWs? && SameLine(m, a)
    ensures var b := Past(a, k); Valid(b) && !Stopped(b) && SameLine(m, b)
  {
    hide Next;
    ReadyIs(m);
    RunValid(m, n + [COLON]);
  }

  lemma NotALine(m: Machine, x: bytes)
    requires Ready(m) && x != [] && OneLine(x) && !IsBlank(x[0]) && COLON !in x
    requires m.core.nread + |x| + 2 <= MAX_HEADER_SIZE
    ensures !Run(m, x + [CR, LF]).core.errno.Ok?
  {
    hide Next, Ready, IsName;
    var a := Run(m, x);
    RunConcat(m, x, [CR, LF]);
    RunTwo(a, CR, LF);
    RunTaken(a, [CR, LF]);
    if a.core.errno.Ok? {
      NameOnly(m, x);
      NoColon(a);
      RunSticks(Next(a, CR), LF);
    }
  }

  lemma NotAName(m: Machine, n: bytes, tail: bytes)
    requires Ready(m) && OneLine(n) && COLON !in n && (n != [] ==> !IsBlank(n[0])) && !IsName(n)
    requires m.core.nread + |n| <= MAX_HEADER_SIZE
    ensures !Run(m, n + ([COLON] + tail)).core.errno.Ok?
  {
    hide Next, Ready, Run, IsName;
    RunConcat(m, n, [COLON] + tail);
    RunTaken(Run(m, n), [COLON] + tail);
    if n == [] {
      RunEmpty(m);
      ColonFirst(m, tail);
    } else if Run(m, n).core.errno.Ok? {
      NameOnly(m, n);
    }
  }

  lemma ColonFirst(m: Machine, tail: bytes)
    requires Ready(m)
    ensures !Run(m, [COLON] + tail).core.errno.Ok?
  {
    hide Next, Ready, Run;
    assert ([COLON] + tail)[1..] == tail;
    RunFront(m, [COLON] + tail);
    BadFirst(m, COLON);
    RunTaken(Next(m, COLON), tail);
  }

  /** The value behind the blanks, of a header that is not about a body. */
  lemma ValueExactly(m: Machine, b: Machine, n: bytes, v: bytes)
    requires !Stopped(b) && b.core.state.DiscardWs? && SameLine(m, b) && Named(b.core.header) && Valid(b)
    requires b.seen.head == Progress(Spelled(m), Name(n)) && b.core.flags == LineFlags(m)
    requires OneLine(v) && (v != [] ==> !IsBlank(v[0])) && b.core.nread + |v| + 2 <= MAX_HEADER_SIZE
    ensures var r := Run(b, v + [CR, LF]);
            && (r.core.errno.Ok? <==> IsText(v))
            && (r.core.errno.Ok? ==>
                  && Ready(r) && Alike(LineFlags(m), LineFlags(r)) && SameLine(m, r)
                  && r.core.length == b.core.length && r.core.nread == b.core.nread + |v| + 2
                  && Spelled(r) == Spelled(m) + [Header(n, v)])
  {
    hide Next, IsText, Finished, Named;
    var r := Run(b, v + [CR, LF]);
    if IsText(v) {
      SilentValue(b, v);
      ValuePart(b, v);
      RunValid(b, v + [CR, LF]);
    } else if r.core.errno.Ok? {
      ValueOnly(b, v);
    }
  }

  /**
   * A line of a head that is not about a body is accepted exactly if it is a name, a colon, and a value
   * behind blanks; and then just this header has been read.
   */
  lemma HeaderLineExactly(m: Machine, x: bytes)
    requires Ready(m) && x != [] && OneLine(x) && !IsBlank(x[0]) && !AboutBody(x)
    requires m.core.nread + |x| + 2 <= MAX_HEADER_SIZE
    ensures var r := Run(m, x + [CR, LF]);
            && (r.core.errno.Ok? <==> IsHeaderLine(x))
            && (r.core.errno.Ok? ==>
                  && Ready(r) && Alike(LineFlags(m), LineFlags(r)) && SameLine(m, r)
                  && r.core.length == m.core.length && r.core.nread == m.core.nread + |x| + 2
                  && Spelled(r) == Spelled(m) + [Header(NameOf(x), ValueText(x))])
  {
    hide Next, Run, Ready, Spelled, IsText, IsName, Lowered, LineFlags, Alike, SameLine, NameOf, ValueText, OneLine;
    var n := NameOf(x);
    LineParts(x);
    if COLON !in x {
      NotALine(m, x);
    } else {
      var w := x[|n| + 1..];
      BehindColon(x, n, w);
      if IsName(n) {
        LineRead(m, n, w);
      } else {
        NotAName(m, n, w + [CR, LF]);
      }
    }
  }

  lemma BehindColon(x: bytes, n: bytes, w: bytes)
    requires x == n + [COLON] + w && x != []
    ensures x + [CR, LF] == n + ([COLON] + (w + [CR, LF])) == n + [COLON] + (w + [CR, LF])
    ensures |x| == |n| + 1 + |w| && (n != [] ==> n[0] == x[0])
  {}

  /** A line with a name in front. */
  lemma LineRead(m: Machine, n: bytes, w: bytes)
    requires Ready(m) && IsName(n) && OneLine(w) && Lowered(n) != CONTENT_LENGTH && !(TRANSFER_ENCODING <= Lowered(n))
    requires m.core.nread + |n| + 1 + |w| + 2 <= MAX_HEADER_SIZE
    ensures var r := Run(m, n + [COLON] + (w + [CR, LF]));
            && (r.core.errno.Ok? <==> IsText(Trimmed(w)))
            && (r.core.errno.Ok? ==>
                  && Ready(r) && Alike(LineFlags(m), LineFlags(r)) && SameLine(m, r)
                  && r.core.length == m.core.length && r.core.nread == m.core.nread + |n| + 1 + |w| + 2
                  && Spelled(r) == Spelled(m) + [Header(n, Trimmed(w))])
  {
    hide Next, Run, Ready, Spelled, IsText, IsName, Lowered, LineFlags, Alike, SameLine, Trimmed, OneLine;
    NamePast(m, n);
    var a := Run(m, n + [COLON]);
    RunConcat(m, n + [COLON], w + [CR, LF]);
    BlanksPassed(a, w, [CR, LF]);
    TrimmedInside(w);
    PastValid(m, n, a, |w| - |Trimmed(w)|);
    ValueExactly(m, Past(a, |w| - |Trimmed(w)|), n, Trimmed(w));
  }

  lemma LineParts(x: bytes)
    requires OneLine(x)
    ensures COLON !in NameOf(x) && OneLine(NameOf(x)) && (COLON in x <==> |NameOf(x)| < |x|)
    ensures |NameOf(x)| < |x| ==>
              var w := x[|NameOf(x)| + 1..]; x == NameOf(x) + [COLON] + w && OneLine(w) && ValueText(x) == Trimmed(w)
  {
    hide UpTo, Trimmed;
    var n := NameOf(x);
    assert forall b :: b in n ==> b in x;
    if |n| < |x| {
      assert x[|n|] == COLON;
      assert forall b :: b in x[|n| + 1..] ==> b in x;
    } else {
      assert n == x;
    }
  }

  // ---- Whole heads ----

  function LineTexts(xs: seq<bytes>): bytes {
    if xs == [] then [] else xs[0] + [CR, LF] + LineTexts(xs[1..])
  }

  /** The headers that the lines say. */
  function Said(xs: seq<bytes>): seq<Header> {
    if xs == [] then [] else [Header(NameOf(xs[0]), ValueText(xs[0]))] + Said(xs[1..])
  }

  /** A line of its own, not about a body. */
  predicate Plain(x: bytes) {
    x != [] && OneLine(x) && !IsBlank(x[0]) && !AboutBody(x)
  }

  predicate AllHeaders(xs: seq<bytes>) {
    forall x :: x in xs ==> IsHeaderLine(x)
  }

  lemma AllFront(xs: seq<bytes>)
    requires xs != []
    ensures AllHeaders(xs) <==> IsHeaderLine(xs[0]) && AllHeaders(xs[1..])
    ensures xs[0] in xs && forall x :: x in xs[1..] ==> x in xs
  {
    hide IsHeaderLine;
    assert forall x :: x in xs ==> x == xs[0] || x in xs[1..];
  }

  /** One line, and then more. */
  predicate ReadOn(m: Machine, r: Machine, n: nat, hs: seq<Header>) {
    && Ready(r) && Alike(LineFlags(m), LineFlags(r)) && SameLine(m, r)
    && r.core.length == m.core.length && r.core.nread == m.core.nread + n && Spelled(r) == Spelled(m) + hs
  }

  lemma ReadOnTwice(m: Machine, q: Machine, r: Machine, n: nat, k: nat, h: Header, hs: seq<Header>)
    requires ReadOn(m, q, n, [h]) && ReadOn(q, r, k, hs)
    ensures ReadOn(m, r, n + k, [h] + hs)
  {
    hide Ready, Spelled, LineFlags;
    Associative(Spelled(m), [h], hs);
  }

  lemma {:induction false} LinesExactly(m: Machine, xs: seq<bytes>)
    requires Ready(m) && (forall x :: x in xs ==> Plain(x)) && m.core.nread + |LineTexts(xs)| <= MAX_HEADER_SIZE
    ensures var r := Run(m, LineTexts(xs));
            && (r.core.errno.Ok? <==> AllHeaders(xs))
            && (r.core.errno.Ok? ==> ReadOn(m, r, |LineTexts(xs)|, Said(xs)))
    decreases |xs|
  {
    hide Next, Ready, Plain, NameOf, ValueText, ReadOn;
    if xs == [] {
      NothingRead(m);
    } else {
      hide AllHeaders, Run, IsHeaderLine;
      var x, rest := xs[0], xs[1..];
      AllFront(xs);
      RunConcat(m, x + [CR, LF], LineTexts(rest));
      PlainLine(m, x);
      var q := Run(m, x + [CR, LF]);
      if q.core.errno.Ok? {
        StillReady(m, q, |x| + 2, [Header(NameOf(x), ValueText(x))]);
        LinesExactly(q, rest);
        if Run(q, LineTexts(rest)).core.errno.Ok? {
          ReadOnTwice(m, q, Run(q, LineTexts(rest)), |x| + 2, |LineTexts(rest)|, Header(NameOf(x), ValueText(x)),
            Said(rest));
        }
      } else {
        RunTaken(q, LineTexts(rest));
      }
    }
  }

  lemma NothingRead(m: Machine)
    requires Ready(m)
    ensures ReadOn(m, m, 0, []) && m.core.errno.Ok?
  {
    hide Spelled, LineFlags;
    ReadyIs(m);
    assert Spelled(m) + [] == Spelled(m);
  }

  lemma StillReady(m: Machine, q: Machine, n: nat, hs: seq<Header>)
    requires ReadOn(m, q, n, hs)
    ensures Ready(q) && q.core.nread == m.core.nread + n
  {}

  lemma PlainLine(m: Machine, x: bytes)
    requires Ready(m) && Plain(x) && m.core.nread + |x| + 2 <= MAX_HEADER_SIZE
    ensures var r := Run(m, x + [CR, LF]);
            && (r.core.errno.Ok? <==> IsHeaderLine(x))
            && (r.core.errno.Ok? ==> ReadOn(m, r, |x| + 2, [Header(NameOf(x), ValueText(x))]))
  {
    hide Run, IsHeaderLine, Ready, Spelled, NameOf, ValueText, LineFlags;
    HeaderLineExactly(m, x);
  }

  /**
   * A head of any lines that are not about a body: it is refused exactly if its first line is no status
   * line or one of the others is no header. Otherwise it is read to its end, for just what it says.
   */
  lemma HeadExactly(t: bytes, xs: seq<bytes>)
    requires t != [] && OneLine(t) && forall x :: x in xs ==> Plain(x)
    requires |t| + 2 + |LineTexts(xs)| + 2 <= MAX_HEADER_SIZE
    ensures var text := t + [CR, LF] + LineTexts(xs) + [CR, LF];
            var r := Run(START, text);
            && (r.core.errno.Ok? <==> IsStatus(t) && AllHeaders(xs))
            && (r.core.errno.Ok? ==>
                  && r.taken == |text| && r.core.status == CodeValue(t[9..])
                  && Completed(r.seen.head) == Said(xs) && r.seen.body == [])
  {
    hide Next, Ready, Spelled, Plain, AllHeaders, LineFlags, IsCode, IsVersion, CodeValue, Begun, Said, LineTexts;
    var m := Run(START, t + [CR, LF]);
    RunConcat(START, t + [CR, LF], LineTexts(xs));
    RunConcat(START, t + [CR, LF] + LineTexts(xs), [CR, LF]);
    RunTaken(START, t + [CR, LF]);
    StatusLineExactly(t);
    var p := Run(m, LineTexts(xs));
    RunTaken(m, LineTexts(xs));
    RunTaken(p, [CR, LF]);
    if m.core.errno.Ok? {
      AfterStatus(t);
      LinesExactly(m, xs);
      if p.core.errno.Ok? {
        AlikeFlags(LineFlags(m), LineFlags(p));
        ReadyIs(p);
        HeadDone(p);
        assert [] + Said(xs) == Said(xs);
      }
    }
  }

  lemma AfterStatus(t: bytes)
    requires t != [] && OneLine(t) && |t| + 2 <= MAX_HEADER_SIZE && IsStatus(t)
    ensures var m := Run(START, t + [CR, LF]);
            && Ready(m) && LineFlags(m) == NO_FLAGS && m.core.length == UNKNOWN && Spelled(m) == []
            && m.core.nread == |t| + 2 && !m.core.flags.trailing && m.core.status == CodeValue(t[9..])
            && m.seen.body == [] && m.taken == |t| + 2
  {
    hide Run, IsCode, CodeValue;
    StatusLineExactly(t);
  }
}
