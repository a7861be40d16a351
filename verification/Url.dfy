// The URL parser: one automaton finds the parts of a URL, a second one takes the server apart.

module Url {
  import opened Octets
  import opened Options

  datatype Field = Schema | UserInfo | Host | Port | Path | Query | Fragment {
    /** The order in which the parts stand in a URL. */
    function Rank(): nat {
      match this
      case Schema => 0
      case UserInfo => 1
      case Host => 2
      case Port => 3
      case Path => 4
      case Query => 5
      case Fragment => 6
    }
  }

  datatype Span = Span(off: nat, len: nat) {
    function End(): nat {
      off + len
    }
  }

  /** The parts that are set, and where they are. */
  type Fields = map<Field, Span>

  datatype UrlState =
    | Dead | SpacesBeforeUrl | InSchema | SchemaSlash | SchemaSlashSlash | ServerStart | Server | ServerWithAt
    | InPath | QueryStart | InQuery | FragmentStart | InFragment

  const SLASH: byte := 0x2f
  const COLON: byte := 0x3a
  const AT: byte := 0x40
  const QUESTION: byte := 0x3f
  const HASH: byte := 0x23
  const STAR: byte := 0x2a
  const PERCENT: byte := 0x25
  const DOT: byte := 0x2e
  const DASH: byte := 0x2d
  const OPENING: byte := 0x5b
  const CLOSING: byte := 0x5d

  predicate IsNum(ch: byte) {
    0x30 <= ch <= 0x39
  }

  predicate IsAlpha(ch: byte) {
    0x41 <= ch <= 0x5a || 0x61 <= ch <= 0x7a
  }

  predicate IsAlphaNum(ch: byte) {
    IsAlpha(ch) || IsNum(ch)
  }

  predicate IsHex(ch: byte) {
    IsNum(ch) || 0x41 <= ch <= 0x46 || 0x61 <= ch <= 0x66
  }

  predicate IsUserInfoChar(ch: byte) {
    || IsAlphaNum(ch)
    || ch in [DASH, 0x5f, DOT, 0x21, 0x7e, STAR, 0x27, 0x28, 0x29, PERCENT, 0x3b, COLON, 0x26, 0x3d, 0x2b, 0x24, 0x2c]
  }

  predicate IsUrlChar(ch: byte) {
    0x21 <= ch <= 0x7e && ch != HASH && ch != QUESTION
  }

  predicate IsHostChar(ch: byte) {
    IsAlphaNum(ch) || ch == DOT || ch == DASH
  }

  /** One octet of a URL. */
  function ParseUrlChar(s: UrlState, ch: byte): UrlState {
    if ch in [0x20, 0x0d, 0x0a, 0x09, 0x0c] then Dead
    else
      match s
      case SpacesBeforeUrl => if ch == SLASH || ch == STAR then InPath else if IsAlpha(ch) then InSchema else Dead
      case InSchema => if IsAlpha(ch) then InSchema else if ch == COLON then SchemaSlash else Dead
      case SchemaSlash => if ch == SLASH then SchemaSlashSlash else Dead
      case SchemaSlashSlash => if ch == SLASH then ServerStart else Dead
      case ServerWithAt => if ch == AT then Dead else InServer(ch)
      case ServerStart => InServer(ch)
      case Server => InServer(ch)
      case InPath =>
        if IsUrlChar(ch) then InPath
        else if ch == QUESTION then QueryStart
        else if ch == HASH then FragmentStart
        else Dead
      case QueryStart => if IsUrlChar(ch) || ch == QUESTION then InQuery else if ch == HASH then FragmentStart else Dead
      case InQuery => if IsUrlChar(ch) || ch == QUESTION then InQuery else if ch == HASH then FragmentStart else Dead
      case FragmentStart =>
        if IsUrlChar(ch) || ch == QUESTION then InFragment
        else if ch == HASH then FragmentStart
        else Dead
      case InFragment => if IsUrlChar(ch) || ch == QUESTION || ch == HASH then InFragment else Dead
      case Dead => Dead
  }

  function InServer(ch: byte): UrlState {
    if ch == SLASH then InPath
    else if ch == QUESTION then QueryStart
    else if ch == AT then ServerWithAt
    else if IsUserInfoChar(ch) || ch == OPENING || ch == CLOSING then Server
    else Dead
  }

  /** The part that an octet belongs to; the delimiters belong to none. */
  function FieldOf(s: UrlState): Option<Field> {
    match s
    case InSchema => Some(Schema)
    case Server => Some(Host)
    case ServerWithAt => Some(Host)
    case InPath => Some(Path)
    case InQuery => Some(Query)
    case InFragment => Some(Fragment)
    case _ => None
  }

  // ---- The parts ----

  datatype Scan = Scan(state: UrlState, fields: Fields, current: Option<Field>, foundAt: bool)

  const BEGIN := Scan(SpacesBeforeUrl, map[], None, false)

  /** One more octet, at position `p`. */
  function Step(sc: Scan, ch: byte, p: nat): Scan {
    var s := ParseUrlChar(sc.state, ch);
    var found := sc.foundAt || s.ServerWithAt?;
    match FieldOf(s)
    case None => sc.(state := s)
    case Some(f) =>
      if sc.current == Some(f) && f in sc.fields then
        Scan(s, sc.fields[f := Span(sc.fields[f].off, sc.fields[f].len + 1)], sc.current, found)
      else
        Scan(s, sc.fields[f := Span(p, 1)], Some(f), found)
  }

  function ScanFrom(sc: Scan, buf: bytes, p: nat): Scan
    requires p <= |buf|
    decreases |buf| - p
  {
    if p == |buf| || sc.state.Dead? then sc else ScanFrom(Step(sc, buf[p], p), buf, p + 1)
  }

  /** The fields are in order and before `p`, and the one in hand is the last. */
  ghost predicate InOrder(fields: Fields, p: nat) {
    && (forall f :: f in fields ==> fields[f].len > 0 && fields[f].End() <= p)
    && (forall f, g :: f in fields && g in fields && f.Rank() < g.Rank() ==> fields[f].End() <= fields[g].off)
  }

  ghost predicate Latest(sc: Scan) {
    && (sc.current.None? ==> sc.fields == map[])
    && (sc.current.Some? ==>
          sc.current.value in sc.fields && forall f :: f in sc.fields ==> f.Rank() <= sc.current.value.Rank())
  }

  /** Which part the state has behind it. */
  predicate Follows(sc: Scan) {
    match sc.state
    case SpacesBeforeUrl => sc.current.None?
    case SchemaSlash => sc.current == Some(Schema)
    case SchemaSlashSlash => sc.current == Some(Schema)
    case ServerStart => sc.current == Some(Schema)
    case QueryStart => sc.current.Some? && sc.current.value.Rank() < Query.Rank()
    case FragmentStart => sc.current.Some? && sc.current.value.Rank() < Fragment.Rank()
    case Dead => true
    case s => sc.current == FieldOf(s)
  }

  ghost predicate Scanned(sc: Scan, p: nat) {
    && InOrder(sc.fields, p) && Latest(sc) && Follows(sc)
    && (FieldOf(sc.state).Some? ==> sc.fields[sc.current.value].End() == p)
    && UserInfo !in sc.fields && Port !in sc.fields
  }

  /** Which part an octet belongs to, given the part before. */
  lemma NextPart(sc: Scan, ch: byte)
    requires Follows(sc) && !sc.state.Dead?
    ensures var s := ParseUrlChar(sc.state, ch);
            var f := FieldOf(s);
            && (f.None? && !s.Dead? ==> Follows(sc.(state := s)))
            && (f.Some? && sc.current == f ==> FieldOf(sc.state) == f)
            && (f.Some? && sc.current != f && sc.current.Some? ==> sc.current.value.Rank() < f.value.Rank())
            && (f.Some? ==> f.value != UserInfo && f.value != Port)
  {
    hide IsUserInfoChar, IsUrlChar, IsAlpha;
  }

  lemma StepScanned(sc: Scan, ch: byte, p: nat)
    requires Scanned(sc, p) && !sc.state.Dead?
    ensures !Step(sc, ch, p).state.Dead? ==> Scanned(Step(sc, ch, p), p + 1)
  {
    hide ParseUrlChar;
    NextPart(sc, ch);
    var s := ParseUrlChar(sc.state, ch);
    if FieldOf(s).Some? {
      var f := FieldOf(s).value;
      if sc.current == Some(f) {
        Extends(sc.fields, f, p);
      } else {
        Begins(sc, f, p);
      }
      SpanFollows(Step(sc, ch, p));
    }
  }

  lemma SpanFollows(sc: Scan)
    requires FieldOf(sc.state).Some? && sc.current == FieldOf(sc.state)
    ensures Follows(sc)
  {}

  lemma Extends(fields: Fields, f: Field, p: nat)
    requires InOrder(fields, p) && f in fields && fields[f].End() == p
    requires forall g :: g in fields ==> g.Rank() <= f.Rank()
    ensures InOrder(fields[f := Span(fields[f].off, fields[f].len + 1)], p + 1)
  {}

  lemma Begins(sc: Scan, f: Field, p: nat)
    requires InOrder(sc.fields, p) && Latest(sc) && (sc.current.Some? ==> sc.current.value.Rank() < f.Rank())
    ensures InOrder(sc.fields[f := Span(p, 1)], p + 1)
    ensures f !in sc.fields && forall g :: g in sc.fields ==> g.Rank() < f.Rank()
  {}

  lemma {:induction false} ScanScanned(sc: Scan, buf: bytes, p: nat)
    requires p <= |buf| && Scanned(sc, p)
    ensures !ScanFrom(sc, buf, p).state.Dead? ==> Scanned(ScanFrom(sc, buf, p), |buf|)
    decreases |buf| - p
  {
    if p < |buf| && !sc.state.Dead? {
      StepScanned(sc, buf[p], p);
      if !Step(sc, buf[p], p).state.Dead? {
        ScanScanned(Step(sc, buf[p], p), buf, p + 1);
      }
    }
  }

  // ---- The server ----

  datatype HostState =
    | HostDead | UserInfoStart | InUserInfo | HostStart | V6Start | InHost | InV6 | V6End | ZoneStart | InZone
    | PortStart | InPort

  /** One octet of a server. */
  function ParseHostChar(s: HostState, ch: byte): HostState {
    match s
    case InUserInfo => if ch == AT then HostStart else if IsUserInfoChar(ch) then InUserInfo else HostDead
    case UserInfoStart => if ch == AT then HostStart else if IsUserInfoChar(ch) then InUserInfo else HostDead
    case HostStart => if ch == OPENING then V6Start else if IsHostChar(ch) then InHost else HostDead
    case InHost => if IsHostChar(ch) then InHost else if ch == COLON then PortStart else HostDead
    case V6End => if ch == COLON then PortStart else HostDead
    case InV6 =>
      if ch == CLOSING then V6End
      else if IsHex(ch) || ch == COLON || ch == DOT then InV6
      else if ch == PERCENT then ZoneStart
      else HostDead
    case V6Start => if IsHex(ch) || ch == COLON || ch == DOT then InV6 else HostDead
    case InZone => if ch == CLOSING then V6End else if IsZoneChar(ch) then InZone else HostDead
    case ZoneStart => if IsZoneChar(ch) then InZone else HostDead
    case InPort => if IsNum(ch) then InPort else HostDead
    case PortStart => if IsNum(ch) then InPort else HostDead
    case HostDead => HostDead
  }

  predicate IsZoneChar(ch: byte) {
    IsAlphaNum(ch) || ch == PERCENT || ch == DOT || ch == DASH || ch == 0x5f || ch == 0x7e
  }

  datatype HostScan = HostScan(state: HostState, host: Span, port: Option<Span>, userInfo: Option<Span>)

  function Longer(s: Span): Span {
    Span(s.off, s.len + 1)
  }

  function LongerOr(s: Option<Span>, p: nat): Option<Span> {
    Some(if s.Some? then Longer(s.value) else Span(p, 1))
  }

  function HostStep(h: HostScan, ch: byte, p: nat): HostScan {
    var s := ParseHostChar(h.state, ch);
    var next := h.(state := s);
    match s
    case InHost => next.(host := Longer(if h.state.InHost? then h.host else Span(p, h.host.len)))
    case InV6 => next.(host := Longer(if h.state.InV6? then h.host else Span(p, h.host.len)))
    case ZoneStart => next.(host := Longer(h.host))
    case InZone => next.(host := Longer(h.host))
    case InPort => next.(port := LongerOr(if h.state.InPort? then h.port else None, p))
    case InUserInfo => next.(userInfo := LongerOr(if h.state.InUserInfo? then h.userInfo else None, p))
    case _ => next
  }

  function HostFrom(h: HostScan, buf: bytes, p: nat, end: nat): HostScan
    requires p <= end <= |buf|
    decreases end - p
  {
    if p == end || h.state.HostDead? then h else HostFrom(HostStep(h, buf[p], p), buf, p + 1, end)
  }

  predicate EndsWell(s: HostState) {
    s.InHost? || s.V6End? || s.InPort?
  }

  function HostBegin(off: nat, foundAt: bool): HostScan {
    HostScan(if foundAt then UserInfoStart else HostStart, Span(off, 0), None, None)
  }

  predicate Digits(buf: bytes, s: Span) {
    s.End() <= |buf| && forall i :: s.off <= i < s.End() ==> IsNum(buf[i])
  }

  /** The parts of the server read so far, from `lo` to before `p`. */
  ghost predicate HostScanned(h: HostScan, buf: bytes, lo: nat, p: nat)
    requires p <= |buf|
  {
    var before := if h.userInfo.Some? then h.userInfo.value.End() else lo;
    && lo <= before <= p
    && (h.userInfo.Some? ==> lo <= h.userInfo.value.off && h.userInfo.value.len > 0)
    && match h.state
       case UserInfoStart => h.userInfo.None? && h.port.None? && h.host.len == 0
       case InUserInfo => h.userInfo.Some? && before == p && h.port.None? && h.host.len == 0
       case HostStart => h.port.None? && h.host.len == 0
       case V6Start => h.port.None? && h.host.len == 0
       case V6End => h.port.None? && h.host.len > 0 && before <= h.host.off && h.host.End() <= p
       case PortStart => h.port.None? && h.host.len > 0 && before <= h.host.off && h.host.End() <= p
       case InPort =>
         && h.host.len > 0 && before <= h.host.off && h.port.Some?
         && h.host.End() <= h.port.value.off && h.port.value.len > 0 && h.port.value.End() == p
              && Digits(buf, h.port.value)
       case HostDead => true
       case _ => h.port.None? && h.host.len > 0 && before <= h.host.off && h.host.End() == p
  }

  lemma HostStepScanned(h: HostScan, buf: bytes, lo: nat, p: nat)
    requires p < |buf| && HostScanned(h, buf, lo, p) && !h.state.HostDead?
    ensures !HostStep(h, buf[p], p).state.HostDead? ==> HostScanned(HostStep(h, buf[p], p), buf, lo, p + 1)
  {
    hide ParseHostChar, HostScanned, HostStep;
    var s := ParseHostChar(h.state, buf[p]);
    HostMoves(h.state, buf[p]);
    if s.InUserInfo? || s.HostStart? || s.V6Start? {
      BeforeHost(h, buf, lo, p);
    } else if s.PortStart? || s.InPort? || s.V6End? {
      AfterHost(h, buf, lo, p);
    } else if !s.HostDead? {
      WithinHost(h, buf, lo, p);
    }
    StepState(h, buf[p], p);
  }

  lemma StepState(h: HostScan, ch: byte, p: nat)
    ensures HostStep(h, ch, p).state == ParseHostChar(h.state, ch)
  {
    hide ParseHostChar;
  }

  lemma BeforeHost(h: HostScan, buf: bytes, lo: nat, p: nat)
    requires p < |buf| && HostScanned(h, buf, lo, p)
    requires var s := ParseHostChar(h.state, buf[p]); s.InUserInfo? || s.HostStart? || s.V6Start?
    ensures HostScanned(HostStep(h, buf[p], p), buf, lo, p + 1)
  {
    hide ParseHostChar;
    HostMoves(h.state, buf[p]);
  }

  lemma WithinHost(h: HostScan, buf: bytes, lo: nat, p: nat)
    requires p < |buf| && HostScanned(h, buf, lo, p)
    requires var s := ParseHostChar(h.state, buf[p]); s.InHost? || s.InV6? || s.ZoneStart? || s.InZone?
    ensures HostScanned(HostStep(h, buf[p], p), buf, lo, p + 1)
  {
    hide ParseHostChar;
    HostMoves(h.state, buf[p]);
  }

  lemma AfterHost(h: HostScan, buf: bytes, lo: nat, p: nat)
    requires p < |buf| && HostScanned(h, buf, lo, p)
    requires var s := ParseHostChar(h.state, buf[p]); s.PortStart? || s.InPort? || s.V6End?
    ensures HostScanned(HostStep(h, buf[p], p), buf, lo, p + 1)
  {
    hide ParseHostChar, Digits;
    HostMoves(h.state, buf[p]);
    if ParseHostChar(h.state, buf[p]).InPort? {
      MoreDigits(buf, if h.state.InPort? then h.port.value else Span(p, 0), p);
    }
  }

  /** From where each part of a server can be reached. */
  lemma HostMoves(s: HostState, ch: byte)
    ensures match ParseHostChar(s, ch)
            case UserInfoStart => false
            case InUserInfo => s.UserInfoStart? || s.InUserInfo?
            case HostStart => s.UserInfoStart? || s.InUserInfo?
            case V6Start => s.HostStart?
            case InHost => s.HostStart? || s.InHost?
            case InV6 => s.V6Start? || s.InV6?
            case V6End => s.InV6? || s.InZone?
            case ZoneStart => s.InV6?
            case InZone => s.ZoneStart? || s.InZone?
            case PortStart => s.InHost? || s.V6End?
            case InPort => (s.PortStart? || s.InPort?) && IsNum(ch)
            case HostDead => true
  {
    hide IsUserInfoChar, IsZoneChar, IsHostChar, IsHex;
  }

  lemma MoreDigits(buf: bytes, s: Span, p: nat)
    requires p < |buf| && (s.len > 0 ==> Digits(buf, s)) && s.End() == p && IsNum(buf[p])
    ensures Digits(buf, Longer(s))
  {}

  lemma {:induction false} HostFromScanned(h: HostScan, buf: bytes, lo: nat, p: nat, end: nat)
    requires p <= end <= |buf| && HostScanned(h, buf, lo, p)
    ensures !HostFrom(h, buf, p, end).state.HostDead? ==> HostScanned(HostFrom(h, buf, p, end), buf, lo, end)
    decreases end - p
  {
    if p < end && !h.state.HostDead? {
      HostStepScanned(h, buf, lo, p);
      if !HostStep(h, buf[p], p).state.HostDead? {
        HostFromScanned(HostStep(h, buf[p], p), buf, lo, p + 1, end);
      }
    }
  }

  // ---- The whole URL ----

  function Merge(fields: Fields, h: HostScan): Fields {
    var a := fields[Host := h.host];
    var b := if h.port.Some? then a[Port := h.port.value] else a;
    if h.userInfo.Some? then b[UserInfo := h.userInfo.value] else b
  }

  /** The decimal value of the digits of a span. */
  function Decimal(buf: bytes, s: Span): nat
    requires Digits(buf, s)
    decreases s.len
  {
    if s.len == 0 then 0 else Decimal(buf, Span(s.off, s.len - 1)) * 10 + (buf[s.off + s.len - 1] - 0x30)
  }

  const MAX_PORT: nat := 0xffff

  /** The parts of a URL and its port, if it is one; port 0 if none is given. */
  function Parsed(buf: bytes): Option<(Fields, nat)> {
    var sc := ScanFrom(BEGIN, buf, 0);
    if buf == [] || sc.state.Dead? || (Schema in sc.fields && Host !in sc.fields) then None
    else if Host !in sc.fields then Some((sc.fields, 0))
    else
      ScanHolds(buf);
      var span := sc.fields[Host];
      var h := HostFrom(HostBegin(span.off, sc.foundAt), buf, span.off, span.End());
      if !EndsWell(h.state) then None
      else if h.port.None? then Some((Merge(sc.fields, h), 0))
      else
        HostHolds(buf);
        var port := Decimal(buf, h.port.value);
        if port > MAX_PORT then None else Some((Merge(sc.fields, h), port))
  }

  lemma ScanHolds(buf: bytes)
    ensures var sc := ScanFrom(BEGIN, buf, 0); !sc.state.Dead? ==> Scanned(sc, |buf|)
  {
    ScanScanned(BEGIN, buf, 0);
  }

  lemma HostHolds(buf: bytes)
    requires !ScanFrom(BEGIN, buf, 0).state.Dead? && Host in ScanFrom(BEGIN, buf, 0).fields
    ensures var sc := ScanFrom(BEGIN, buf, 0);
            var span := sc.fields[Host];
            && span.End() <= |buf|
            && var h := HostFrom(HostBegin(span.off, sc.foundAt), buf, span.off, span.End());
               !h.state.HostDead? ==> HostScanned(h, buf, span.off, span.End())
  {
    ScanHolds(buf);
    var sc := ScanFrom(BEGIN, buf, 0);
    HostFromScanned(HostBegin(sc.fields[Host].off, sc.foundAt), buf, sc.fields[Host].off, sc.fields[Host].off,
      sc.fields[Host].End());
  }

  /**
   * Of a URL that is accepted, every part that is set is non-empty and lies within it, the parts
   * stand in order without overlapping, and the port is the value of its digits.
   */
  lemma PartsInOrder(buf: bytes)
    requires Parsed(buf).Some?
    ensures var (fields, port) := Parsed(buf).value;
            && InOrder(fields, |buf|)
            && (Schema in fields ==> Host in fields)
            && port <= MAX_PORT
            && if Port in fields then Digits(buf, fields[Port]) && port == Decimal(buf, fields[Port]) else port == 0
  {
    ScanHolds(buf);
    var sc := ScanFrom(BEGIN, buf, 0);
    if Host in sc.fields {
      HostHolds(buf);
      var span := sc.fields[Host];
      var h := HostFrom(HostBegin(span.off, sc.foundAt), buf, span.off, span.End());
      ServerHolds(h, buf, span.off, span.End());
      Merged(sc.fields, h, |buf|);
    }
  }

  /** The parts of a server that ends well: its host and perhaps a port, behind the user information if there is any. */
  ghost predicate ServerParts(h: HostScan, lo: nat, hi: nat) {
    && h.host.len > 0 && lo <= h.host.off && h.host.End() <= hi
    && (h.port.Some? ==> h.host.End() <= h.port.value.off && h.port.value.len > 0 && h.port.value.End() <= hi)
    && (h.userInfo.Some? ==>
          lo <= h.userInfo.value.off && h.userInfo.value.len > 0 && h.userInfo.value.End() <= h.host.off)
  }

  lemma ServerHolds(h: HostScan, buf: bytes, lo: nat, hi: nat)
    requires hi <= |buf| && EndsWell(h.state) && HostScanned(h, buf, lo, hi)
    ensures ServerParts(h, lo, hi)
  {
    hide Digits;
  }

  /** The parts of the server take the place of the server among the others. */
  lemma Merged(fields: Fields, h: HostScan, n: nat)
    requires InOrder(fields, n) && Host in fields && UserInfo !in fields && Port !in fields
    requires ServerParts(h, fields[Host].off, fields[Host].End())
    ensures InOrder(Merge(fields, h), n)
  {
    var a := fields[Host := h.host];
    Placed(fields, Host, h.host, n);
    if h.port.Some? {
      PlacedPort(fields, a, h, n);
    }
    var b := if h.port.Some? then a[Port := h.port.value] else a;
    if h.userInfo.Some? {
      PlacedUserInfo(fields, b, h, n);
    }
  }

  lemma PlacedPort(fields: Fields, a: Fields, h: HostScan, n: nat)
    requires InOrder(fields, n) && Host in fields && ServerParts(h, fields[Host].off, fields[Host].End())
    requires h.port.Some?
    requires a == fields[Host := h.host] && InOrder(a, n) && Port !in fields
    ensures InOrder(a[Port := h.port.value], n)
  {
    assert forall g :: g in a ==> g == Host || g in fields;
    Placed(a, Port, h.port.value, n);
  }

  lemma PlacedUserInfo(fields: Fields, b: Fields, h: HostScan, n: nat)
    requires InOrder(fields, n) && Host in fields && ServerParts(h, fields[Host].off, fields[Host].End())
    requires h.userInfo.Some?
    requires InOrder(b, n) && UserInfo !in b && Host in b && b[Host] == h.host
    requires forall g :: g in b ==> g == Host || g == Port || (g in fields && b[g] == fields[g])
    ensures InOrder(b[UserInfo := h.userInfo.value], n)
  {
    Placed(b, UserInfo, h.userInfo.value, n);
  }

  /** A part that fits between its neighbours keeps the order. */
  lemma Placed(fields: Fields, f: Field, s: Span, n: nat)
    requires InOrder(fields, n) && s.len > 0 && s.End() <= n
    requires forall g :: g in fields && g != f ==> if g.Rank() < f.Rank() then fields[g].End() <= s.off
      else s.End() <= fields[g].off
    ensures InOrder(fields[f := s], n)
  {}

  predicate IsPrintable(ch: byte) {
    0x21 <= ch <= 0x7e
  }

  lemma CharPrintable(s: UrlState, ch: byte)
    requires !ParseUrlChar(s, ch).Dead?
    ensures IsPrintable(ch)
  {}

  lemma {:induction false} ScanPrintable(sc: Scan, buf: bytes, p: nat)
    requires p <= |buf| && !ScanFrom(sc, buf, p).state.Dead?
    ensures forall i :: p <= i < |buf| ==> IsPrintable(buf[i])
    decreases |buf| - p
  {
    if p < |buf| {
      hide ParseUrlChar;
      ScanPrintable(Step(sc, buf[p], p), buf, p + 1);
      CharPrintable(sc.state, buf[p]);
    }
  }

  /** A URL that is accepted has no blanks, line ends or other control characters, and no octets beyond ASCII. */
  lemma AcceptedPrintable(buf: bytes)
    requires Parsed(buf).Some?
    ensures forall i :: 0 <= i < |buf| ==> IsPrintable(buf[i])
  {
    hide ScanFrom;
    ScanPrintable(BEGIN, buf, 0);
  }

  // ---- As the library computes it ----

  /** Parses a URL; the positions of its parts are kept in 16 bits. */
  method ParseUrl(buf: bytes) returns (ok: bool, fields: Fields, port: nat)
    requires |buf| <= 0xffff
    ensures ok <==> Parsed(buf).Some?
    ensures ok ==> (fields, port) == Parsed(buf).value
  {
    hide ParseUrlChar, ScanFrom, HostFrom, InOrder;
    ok, fields, port := false, map[], 0;
    if |buf| == 0 {
      return;
    }
    var alive, foundAt;
    alive, fields, foundAt := ParseParts(buf);
    if !alive || (Schema in fields && Host !in fields) {
      return;
    }
    ScanHolds(buf);
    if Host in fields {
      HostHolds(buf);
      ok, fields := ParseHost(buf, fields, foundAt);
      if !ok {
        return;
      }
    }
    if Port in fields {
      ok, port := ParsePort(buf, fields[Port]);
      return;
    }
    ok := true;
  }

  /** The parts of the URL, the server as a whole, unless an octet is wrong. */
  method ParseParts(buf: bytes) returns (alive: bool, fields: Fields, foundAt: bool)
    requires |buf| <= 0xffff
    ensures var sc := ScanFrom(BEGIN, buf, 0);
            (alive <==> !sc.state.Dead?) && (alive ==> fields == sc.fields && foundAt == sc.foundAt)
  {
    hide ParseUrlChar;
    alive, fields, foundAt := true, map[], false;
    var s, current := SpacesBeforeUrl, None;
    var p := 0;
    while p < |buf|
      invariant p <= |buf| && !s.Dead?
      invariant ScanFrom(BEGIN, buf, 0) == ScanFrom(Scan(s, fields, current, foundAt), buf, p)
      invariant current.Some? ==> current.value in fields
    {
      s := ParseUrlChar(s, buf[p]);
      if s.Dead? {
        return false, fields, foundAt;
      }
      foundAt := foundAt || s.ServerWithAt?;
      match FieldOf(s) {
        case None =>
        case Some(f) =>
          if current == Some(f) {
            fields := fields[f := Span(fields[f].off, fields[f].len + 1)];
          } else {
            fields := fields[f := Span(p, 1)];
            current := Some(f);
          }
      }
      p := p + 1;
    }
  }

  /** Takes the server apart: the user information, the host and the port. */
  method ParseHost(buf: bytes, u: Fields, foundAt: bool) returns (ok: bool, fields: Fields)
    requires Host in u && u[Host].End() <= |buf| && Port !in u && UserInfo !in u
    ensures var h := HostFrom(HostBegin(u[Host].off, foundAt), buf, u[Host].off, u[Host].End());
            && (ok <==> EndsWell(h.state))
            && (ok ==> fields == Merge(u, h))
  {
    hide ParseHostChar;
    var end := u[Host].End();
    ok, fields := false, u[Host := Span(u[Host].off, 0)];
    var s := if foundAt then UserInfoStart else HostStart;
    var p := u[Host].off;
    ghost var h := HostBegin(u[Host].off, foundAt);
    while p < end
      invariant u[Host].off <= p <= end && h.state == s && !s.HostDead?
      invariant HostFrom(HostBegin(u[Host].off, foundAt), buf, u[Host].off, end) == HostFrom(h, buf, p, end)
      invariant fields == Merge(u, h)
      invariant (s.InPort? ==> h.port.Some?) && (s.InUserInfo? ==> h.userInfo.Some?)
    {
      var next := ParseHostChar(s, buf[p]);
      if next.HostDead? {
        return;
      }
      fields := Assign(u, fields, s, next, p, h, buf[p]);
      h := HostStep(h, buf[p], p);
      s := next;
      p := p + 1;
    }
    ok := EndsWell(s);
  }

  /** The part that the octet at `p` begins or lengthens. */
  method Assign(ghost u: Fields, before: Fields, s: HostState, next: HostState, p: nat,
      ghost h: HostScan, ghost ch: byte)
    returns (fields: Fields)
    requires Host in u && Port !in u && UserInfo !in u
    requires before == Merge(u, h) && s == h.state && next == ParseHostChar(s, ch) && !next.HostDead?
    requires (s.InPort? ==> h.port.Some?) && (s.InUserInfo? ==> h.userInfo.Some?)
    ensures fields == Merge(u, HostStep(h, ch, p))
  {
    hide ParseHostChar;
    fields := before;
    match next {
      case InHost =>
        fields := fields[Host := Longer(if s.InHost? then fields[Host] else Span(p, fields[Host].len))];
      case InV6 =>
        fields := fields[Host := Longer(if s.InV6? then fields[Host] else Span(p, fields[Host].len))];
      case ZoneStart =>
        fields := fields[Host := Longer(fields[Host])];
      case InZone =>
        fields := fields[Host := Longer(fields[Host])];
      case InPort =>
        fields := fields[Port := if s.InPort? then Longer(fields[Port]) else Span(p, 1)];
      case InUserInfo =>
        fields := fields[UserInfo := if s.InUserInfo? then Longer(fields[UserInfo]) else Span(p, 1)];
      case _ =>
    }
  }

  /** The number a port's digits make, unless it leaves 16 bits. */
  method ParsePort(buf: bytes, s: Span) returns (ok: bool, port: nat)
    requires Digits(buf, s)
    ensures ok <==> Decimal(buf, s) <= MAX_PORT
    ensures ok ==> port == Decimal(buf, s)
  {
    port := 0;
    for p := s.off to s.End()
      invariant port == Decimal(buf, Span(s.off, p - s.off)) <= MAX_PORT
    {
      port := port * 10 + (buf[p] - 0x30);
      if port > MAX_PORT {
        DecimalGrows(buf, s, p + 1 - s.off);
        return false, port;
      }
    }
    ok := true;
  }

  lemma {:induction false} DecimalGrows(buf: bytes, s: Span, n: nat)
    requires Digits(buf, s) && n <= s.len
    ensures Decimal(buf, Span(s.off, n)) <= Decimal(buf, s)
    decreases s.len
  {
    if n < s.len {
      DecimalGrows(buf, Span(s.off, s.len - 1), n);
    }
  }
}
