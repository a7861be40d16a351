// The HTTP response parser as a machine over single octets: status line, headers, and bodies
// delimited by length, by chunks or by the end of the connection.

module Http {
  import opened Octets
  import opened Headers

  const CR: byte := 0x0d
  const LF: byte := 0x0a
  const SPACE: byte := 0x20
  const TAB: byte := 0x09
  const COLON: byte := 0x3a
  const SEMICOLON: byte := 0x3b
  const COMMA: byte := 0x2c
  const ZERO: byte := 0x30

  const MAX_HEADER_SIZE: nat := 81920

  /** The all-ones length, which stands for no length at all. */
  const UNKNOWN: nat := 0xffff_ffff_ffff_ffff

  datatype Errno =
    | Ok | InvalidConstant | Strict | InvalidVersion | InvalidStatus | LfExpected | InvalidHeaderToken
    | InvalidContentLength | UnexpectedContentLength | InvalidChunkSize | HeaderOverflow
    | ClosedConnection | InvalidEofState | MessageCompleteRefused

  /** The states in which the parser can be between two octets. */
  datatype State =
    | Dead | StartRes | ResH | ResHT | ResHTT | ResHTTP | Major | Dot | Minor | VersionEnd
    | FirstStatusCode | StatusCode | StatusStart | Status | LineAlmostDone
    | FieldStart | InName | DiscardWs | DiscardWsAlmostDone | DiscardLws
    | InText | HeaderAlmostDone | ValueLws
    | ChunkSizeStart | ChunkSize | ChunkParameters | ChunkSizeAlmostDone | HeadersAlmostDone
    | ChunkData | ChunkDataAlmostDone | ChunkDataDone | BodyIdentity | BodyIdentityEof

  /** What is known of the header in hand. */
  datatype HeaderMatch =
    | General | C | CO | CON
    | MatchingConnection | MatchingProxyConnection | MatchingContentLength | MatchingTransferEncoding | MatchingUpgrade
    | Connection | ContentLength | ContentLengthNum | ContentLengthWs | TransferEncoding | Upgrade
    | TransferTokenStart | MatchingChunked | TransferToken
    | ConnectionTokenStart | MatchingKeepAlive | MatchingClose | MatchingConnectionUpgrade | ConnectionToken
    | IsChunked | IsKeepAlive | IsClose | IsConnectionUpgrade

  datatype Flags = Flags(chunked: bool, keepAlive: bool, close: bool, connectionUpgrade: bool, trailing: bool,
                         upgrade: bool, contentLength: bool, transferEncoding: bool)

  const NO_FLAGS := Flags(false, false, false, false, false, false, false, false)

  datatype Core = Core(state: State, header: HeaderMatch, index: nat, flags: Flags, length: nat, nread: nat,
                       major: nat, minor: nat, status: nat, upgrade: bool, errno: Errno)

  const INITIAL := Core(StartRes, General, 0, NO_FLAGS, 0, 0, 0, 0, 0, false, Ok)

  datatype Kind = FieldData | ValueData | BodyData

  /** What one octet means to the data in hand: part of it, its end, or neither. */
  datatype Mark = NoMark | Take(kind: Kind) | End(kind: Kind)

  datatype Note = MessageBegin | HeadersComplete | ChunkHeader(size: nat) | ChunkComplete | MessageComplete

  /** `empty`: before anything else, an empty header value is reported. */
  datatype Move = Move(core: Core, empty: bool, mark: Mark, notes: seq<Note>)

  function Fail(c: Core, e: Errno): Move {
    Move(c.(errno := e), false, NoMark, [])
  }

  function Go(c: Core, s: State): Move {
    Move(c.(state := s), false, NoMark, [])
  }

  predicate IsLineEnd(ch: byte) {
    ch == CR || ch == LF
  }

  predicate IsBlank(ch: byte) {
    ch == SPACE || ch == TAB
  }

  predicate IsNum(ch: byte) {
    ZERO <= ch <= 0x39
  }

  /** C's `c | 0x20`. */
  function Lower(ch: byte): byte {
    if ch / 32 % 2 == 1 then ch else ch + 32
  }

  /** The token characters, letters made lower case; 0 for all others. */
  function Token(ch: byte): byte {
    if 0x41 <= ch <= 0x5a then ch + 32
    else if 0x61 <= ch <= 0x7a || IsNum(ch) then ch
    else if ch in [0x21, 0x23, 0x24, 0x25, 0x26, 0x27, 0x2a, 0x2b, 0x2d, 0x2e, 0x5e, 0x5f, 0x60, 0x7c, 0x7e] then ch
    else 0
  }

  predicate IsHeaderChar(ch: byte) {
    IsLineEnd(ch) || ch == TAB || (ch > 31 && ch != 127)
  }

  function Unhex(ch: byte): (r: int)
    ensures -1 <= r < 16
  {
    if IsNum(ch) then ch - ZERO
    else if 0x41 <= ch <= 0x46 then ch - 0x41 + 10
    else if 0x61 <= ch <= 0x66 then ch - 0x61 + 10
    else -1
  }

  predicate NeedsEof(c: Core) {
    if c.status / 100 == 1 || c.status == 204 || c.status == 304 then false
    else if c.flags.transferEncoding && !c.flags.chunked then true
    else !c.flags.chunked && c.length == UNKNOWN
  }

  predicate ShouldKeepAlive(c: Core) {
    && (if c.major > 0 && c.minor > 0 then !c.flags.close else c.flags.keepAlive)
    && !NeedsEof(c)
  }

  function Complete(c: Core): Move {
    Move(c.(state := if ShouldKeepAlive(c) then StartRes else Dead), false, NoMark, [MessageComplete])
  }

  // ---- The status line ----

  function OnStart(c: Core, ch: byte): Move {
    var d := c.(flags := NO_FLAGS, length := UNKNOWN);
    if IsLineEnd(ch) then Go(c, StartRes)
    else if ch == 0x48 then Move(d.(state := ResH), false, NoMark, [MessageBegin])
    else Fail(d, InvalidConstant)
  }

  function Expect(c: Core, ok: bool, next: State, e: Errno): Move {
    if ok then Go(c, next) else Fail(c, e)
  }

  function OnFirstStatusCode(c: Core, ch: byte): Move {
    if IsNum(ch) then Go(c.(status := ch - ZERO), StatusCode)
    else Expect(c, ch == SPACE, FirstStatusCode, InvalidStatus)
  }

  function OnStatusCode(c: Core, ch: byte): Move {
    if IsNum(ch) then
      var d := c.(status := c.status * 10 + (ch - ZERO));
      Expect(d, d.status <= 999, StatusCode, InvalidStatus)
    else if ch == SPACE then Go(c, StatusStart)
    else if IsLineEnd(ch) then OnStatusStart(c, ch)
    else Fail(c, InvalidStatus)
  }

  function OnStatusStart(c: Core, ch: byte): Move {
    OnStatus(c.(index := 0), ch)
  }

  function OnStatus(c: Core, ch: byte): Move {
    Go(c, if ch == CR then LineAlmostDone else if ch == LF then FieldStart else Status)
  }

  // ---- Headers ----

  function FirstMatch(t: byte): HeaderMatch {
    if t == 0x63 then C
    else if t == 0x70 then MatchingProxyConnection
    else if t == 0x74 then MatchingTransferEncoding
    else if t == 0x75 then MatchingUpgrade
    else General
  }

  function OnFieldStart(c: Core, ch: byte): Move {
    if ch == CR then Go(c, HeadersAlmostDone)
    else if ch == LF then OnHeadersAlmostDone(c, ch)
    else if Token(ch) == 0 then Fail(c, InvalidHeaderToken)
    else Move(c.(state := InName, index := 0, header := FirstMatch(Token(ch))), false, Take(FieldData), [])
  }

  /** Character `i` of a word to be recognized: goes on matching, is matched, or is not. */
  function Matched(word: string, i: nat, t: byte, going: HeaderMatch, done: HeaderMatch,
      other: HeaderMatch): HeaderMatch
  {
    if i >= |word| || word[i] as int != t then other
    else if i == |word| - 1 then done
    else going
  }

  function NameStep(c: Core, t: byte, ch: byte): Core {
    var i := c.index + 1;
    match c.header
    case C => c.(index := i, header := if t == 0x6f then CO else General)
    case CO => c.(index := i, header := if t == 0x6e then CON else General)
    case CON =>
      c.(index := i,
         header := if t == 0x6e then MatchingConnection else if t == 0x74 then MatchingContentLength else General)
    case MatchingConnection =>
      c.(index := i, header := Matched("connection", i, t, MatchingConnection, Connection, General))
    case MatchingProxyConnection =>
      c.(index := i, header := Matched("proxy-connection", i, t, MatchingProxyConnection, Connection, General))
    case MatchingContentLength =>
      c.(index := i, header := Matched("content-length", i, t, MatchingContentLength, ContentLength, General))
    case MatchingTransferEncoding =>
      var h := Matched("transfer-encoding", i, t, MatchingTransferEncoding, TransferEncoding, General);
      c.(index := i, header := h, flags := if h.TransferEncoding? then c.flags.(transferEncoding := true) else c.flags)
    case MatchingUpgrade =>
      c.(index := i, header := Matched("upgrade", i, t, MatchingUpgrade, Upgrade, General))
    case General => c
    case _ => if ch != SPACE then c.(header := General) else c
  }

  function OnName(c: Core, ch: byte): Move {
    if Token(ch) != 0 then Move(NameStep(c, Token(ch), ch), false, Take(FieldData), [])
    else if ch == COLON then Move(c.(state := DiscardWs), false, End(FieldData), [])
    else Fail(c, InvalidHeaderToken)
  }

  function OnDiscardWs(c: Core, ch: byte): Move {
    if IsBlank(ch) then Go(c, DiscardWs)
    else if ch == CR then Go(c, DiscardWsAlmostDone)
    else if ch == LF then Go(c, DiscardLws)
    else OnValueStart(c, ch)
  }

  function OnValueStart(c: Core, ch: byte): Move {
    var d := c.(state := InText, index := 0);
    var l := Lower(ch);
    if c.header.ContentLength? && (!IsNum(ch) || c.flags.contentLength) then
      Fail(d, if !IsNum(ch) then InvalidContentLength else UnexpectedContentLength)
    else
      Move(match c.header
           case Upgrade => d.(flags := c.flags.(upgrade := true), header := General)
           case TransferEncoding => d.(header := if l == 0x63 then MatchingChunked else TransferToken)
           case TransferTokenStart => d
           case ContentLength =>
             d.(flags := c.flags.(contentLength := true), length := ch - ZERO, header := ContentLengthNum)
           case ContentLengthWs => d
           case Connection =>
             d.(header := if l == 0x6b then MatchingKeepAlive
                          else if l == 0x63 then MatchingClose
                          else if l == 0x75 then MatchingConnectionUpgrade
                          else ConnectionToken)
           case ConnectionTokenStart => d
           case _ => d.(header := General),
           false, Take(ValueData), [])
  }

  /** One more digit, in 64-bit arithmetic, unless a conservative bound says it could be too many. */
  function Digit(c: Core, base: nat, d: nat): Core
    requires base > 0
  {
    if (UNKNOWN - base) / base < c.length then c.(errno := InvalidContentLength)
    else c.(length := (c.length * base + d) % (UNKNOWN + 1))
  }

  function LengthStep(c: Core, ch: byte): Core {
    if ch == SPACE then c.(header := ContentLengthWs)
    else if !IsNum(ch) then c.(errno := InvalidContentLength)
    else Digit(c.(header := ContentLengthNum), 10, ch - ZERO)
  }

  function TokenStart(c: Core, l: byte, other: HeaderMatch): HeaderMatch {
    if Token(l) != 0 then other
    else if IsBlank(l) then c.header
    else General
  }

  function Flagged(c: Core): (f: Flags)
    ensures f.trailing == c.flags.trailing
  {
    match c.header
    case IsKeepAlive => c.flags.(keepAlive := true)
    case IsClose => c.flags.(close := true)
    case IsConnectionUpgrade => c.flags.(connectionUpgrade := true)
    case _ => c.flags
  }

  function TextStep(c: Core, ch: byte): Core {
    var l, i := Lower(ch), c.index + 1;
    match c.header
    case General => c
    case ContentLength => if ch == SPACE then c else LengthStep(c, ch)
    case ContentLengthNum => LengthStep(c, ch)
    case ContentLengthWs => if ch == SPACE then c else c.(errno := InvalidContentLength)
    case TransferTokenStart =>
      c.(header := if l == 0x63 then MatchingChunked else TokenStart(c, l, TransferToken))
    case MatchingChunked =>
      c.(index := i, header := Matched("chunked", i, l, MatchingChunked, IsChunked, TransferToken))
    case TransferToken => if ch == COMMA then c.(header := TransferTokenStart, index := 0) else c
    case ConnectionTokenStart =>
      c.(header := if l == 0x6b then MatchingKeepAlive
                   else if l == 0x63 then MatchingClose
                   else if l == 0x75 then MatchingConnectionUpgrade
                   else TokenStart(c, l, ConnectionToken))
    case MatchingKeepAlive =>
      c.(index := i, header := Matched("keep-alive", i, l, MatchingKeepAlive, IsKeepAlive, ConnectionToken))
    case MatchingClose =>
      c.(index := i, header := Matched("close", i, l, MatchingClose, IsClose, ConnectionToken))
    case MatchingConnectionUpgrade =>
      c.(index := i,
         header := Matched("upgrade", i, l, MatchingConnectionUpgrade, IsConnectionUpgrade, ConnectionToken))
    case ConnectionToken => if ch == COMMA then c.(header := ConnectionTokenStart, index := 0) else c
    case IsChunked => if ch != SPACE then c.(header := TransferToken) else c
    case IsKeepAlive => AfterConnection(c, ch)
    case IsClose => AfterConnection(c, ch)
    case IsConnectionUpgrade => AfterConnection(c, ch)
    case _ => c.(header := General)
  }

  function AfterConnection(c: Core, ch: byte): Core {
    if ch == COMMA then c.(flags := Flagged(c), header := ConnectionTokenStart, index := 0)
    else if ch != SPACE then c.(header := ConnectionToken)
    else c
  }

  function OnText(c: Core, ch: byte): Move {
    if ch == CR then Move(c.(state := HeaderAlmostDone), false, End(ValueData), [])
    else if ch == LF then Move(c.(state := ValueLws), false, End(ValueData), [])
    else if !IsHeaderChar(ch) then Fail(c, InvalidHeaderToken)
    else Move(TextStep(c, ch), false, Take(ValueData), [])
  }

  /** The line has ended: unless the next one continues it, the header is finished. */
  function OnValueLws(c: Core, ch: byte): Move {
    if IsBlank(ch) then OnValueStart(if c.header.ContentLengthNum? then c.(header := ContentLengthWs) else c, ch)
    else OnFieldStart(Finished(c), ch)
  }

  function Finished(c: Core): Core {
    c.(flags := if c.header.IsChunked? then c.flags.(chunked := true) else Flagged(c))
  }

  function OnDiscardLws(c: Core, ch: byte): Move {
    if IsBlank(ch) then Go(c, DiscardWs)
    else if c.header.ContentLength? then Fail(c, InvalidContentLength)
    else OnFieldStart(Finished(c), ch).(empty := true)
  }

  // ---- The end of the head ----

  function OnHeadersAlmostDone(c: Core, ch: byte): Move {
    if ch != LF then Fail(c, Strict)
    else if c.flags.trailing then
      var m := Complete(c);
      m.(notes := [ChunkComplete] + m.notes)
    else if c.flags.transferEncoding && c.flags.contentLength then Fail(c, UnexpectedContentLength)
    else
      var m := OnHeadersDone(c.(upgrade := c.flags.upgrade && c.flags.connectionUpgrade && c.status == 101));
      m.(notes := [HeadersComplete] + m.notes)
  }

  predicate HasBody(c: Core) {
    c.flags.chunked || (c.length > 0 && c.length != UNKNOWN)
  }

  function OnHeadersDone(c: Core): Move {
    var d := c.(nread := 0);
    if c.upgrade && !HasBody(c) then Complete(d)
    else if c.flags.chunked then Go(d, ChunkSizeStart)
    else if c.flags.transferEncoding then Go(d, BodyIdentityEof)
    else if c.length == 0 then Complete(d)
    else if c.length != UNKNOWN then Go(d, BodyIdentity)
    else if !NeedsEof(c) then Complete(d)
    else Go(d, BodyIdentityEof)
  }

  // ---- Bodies ----

  function OnBodyIdentity(c: Core): Move {
    var d := c.(length := if c.length > 0 then c.length - 1 else 0);
    if d.length == 0 then Complete(d).(mark := Take(BodyData))
    else Move(d, false, Take(BodyData), [])
  }

  function OnChunkSizeStart(c: Core, ch: byte): Move {
    if Unhex(ch) == -1 then Fail(c, InvalidChunkSize)
    else Go(c.(length := Unhex(ch)), ChunkSize)
  }

  function OnChunkSize(c: Core, ch: byte): Move {
    if ch == CR then Go(c, ChunkSizeAlmostDone)
    else if Unhex(ch) == -1 then Expect(c, ch == SEMICOLON || ch == SPACE, ChunkParameters, InvalidChunkSize)
    else Move(Digit(c, 16, Unhex(ch)), false, NoMark, [])
  }

  function OnChunkSizeAlmostDone(c: Core, ch: byte): Move {
    var d := c.(nread := 0);
    if ch != LF then Fail(c, Strict)
    else
      Move(if c.length == 0 then d.(flags := c.flags.(trailing := true), state := FieldStart)
           else d.(state := ChunkData),
           false, NoMark, [ChunkHeader(c.length)])
  }

  function OnChunkData(c: Core): Move {
    var d := c.(length := if c.length > 0 then c.length - 1 else 0);
    Move(if d.length == 0 then d.(state := ChunkDataAlmostDone) else d, false, Take(BodyData), [])
  }

  function OnChunkDataAlmostDone(c: Core, ch: byte): Move {
    Expect(c, ch == CR, ChunkDataDone, Strict).(mark := End(BodyData))
  }

  function OnChunkDataDone(c: Core, ch: byte): Move {
    if ch != LF then Fail(c, Strict)
    else Move(c.(nread := 0, state := ChunkSizeStart), false, NoMark, [ChunkComplete])
  }

  // ---- One octet ----

  /** Only octets outside bodies count against the size limit. */
  predicate ParsingHeader(s: State) {
    !(s.ChunkData? || s.ChunkDataAlmostDone? || s.ChunkDataDone? || s.BodyIdentity? || s.BodyIdentityEof?)
  }

  function Dispatch(c: Core, ch: byte): Move {
    match c.state
    case Dead => Expect(c, IsLineEnd(ch), Dead, ClosedConnection)
    case StartRes => OnStart(c, ch)
    case ResH => Expect(c, ch == 0x54, ResHT, Strict)
    case ResHT => Expect(c, ch == 0x54, ResHTT, Strict)
    case ResHTT => Expect(c, ch == 0x50, ResHTTP, Strict)
    case ResHTTP => Expect(c, ch == 0x2f, Major, Strict)
    case Major => Expect(c.(major := if IsNum(ch) then ch - ZERO else 0), IsNum(ch), Dot, InvalidVersion)
    case Dot => Expect(c, ch == 0x2e, Minor, InvalidVersion)
    case Minor => Expect(c.(minor := if IsNum(ch) then ch - ZERO else 0), IsNum(ch), VersionEnd, InvalidVersion)
    case VersionEnd => Expect(c, ch == SPACE, FirstStatusCode, InvalidVersion)
    case FirstStatusCode => OnFirstStatusCode(c, ch)
    case StatusCode => OnStatusCode(c, ch)
    case StatusStart => OnStatusStart(c, ch)
    case Status => OnStatus(c, ch)
    case LineAlmostDone => Expect(c, ch == LF, FieldStart, Strict)
    case FieldStart => OnFieldStart(c, ch)
    case InName => OnName(c, ch)
    case DiscardWs => OnDiscardWs(c, ch)
    case DiscardWsAlmostDone => Expect(c, ch == LF, DiscardLws, Strict)
    case DiscardLws => OnDiscardLws(c, ch)
    case InText => OnText(c, ch)
    case HeaderAlmostDone => Expect(c, ch == LF, ValueLws, LfExpected)
    case ValueLws => OnValueLws(c, ch)
    case ChunkSizeStart => OnChunkSizeStart(c, ch)
    case ChunkSize => OnChunkSize(c, ch)
    case ChunkParameters => Go(c, if ch == CR then ChunkSizeAlmostDone else ChunkParameters)
    case ChunkSizeAlmostDone => OnChunkSizeAlmostDone(c, ch)
    case HeadersAlmostDone => OnHeadersAlmostDone(c, ch)
    case ChunkData => OnChunkData(c)
    case ChunkDataAlmostDone => OnChunkDataAlmostDone(c, ch)
    case ChunkDataDone => OnChunkDataDone(c, ch)
    case BodyIdentity => OnBodyIdentity(c)
    case BodyIdentityEof => Move(c, false, Take(BodyData), [])
  }

  function Advance(c: Core, ch: byte): Move {
    if !ParsingHeader(c.state) then Dispatch(c, ch)
    else if c.nread + 1 > MAX_HEADER_SIZE then Fail(c, HeaderOverflow)
    else Dispatch(c.(nread := c.nread + 1), ch)
  }

  /** What has been reported: the headers spelled, the octets of the body, the notes in order. */
  datatype Seen = Seen(head: Progress, body: bytes, notes: seq<Note>)

  const NOTHING := Seen(Progress([], Nothing), [], [])

  /** The parser between octets, with what it reported and how many octets it took. */
  datatype Machine = Machine(core: Core, seen: Seen, taken: nat)

  function Say(p: Progress, c: Callback): Progress {
    if Accepts(p, c) then Spell(p, c) else p
  }

  function AddData(s: Seen, kind: Kind, data: bytes): Seen {
    match kind
    case FieldData => s.(head := Say(s.head, Field(data)))
    case ValueData => s.(head := Say(s.head, Value(data)))
    case BodyData => s.(body := s.body + data)
  }

  function Report(s: Seen, m: Move, ch: byte): Seen {
    var t := if m.empty then AddData(s, ValueData, []) else s;
    var u := if m.mark.Take? then AddData(t, m.mark.kind, [ch]) else t;
    u.(notes := s.notes + m.notes)
  }

  predicate EndsMessage(notes: seq<Note>) {
    notes != [] && notes[|notes| - 1].MessageComplete?
  }

  /** The message is over; its parser stops. */
  predicate Over(s: Seen) {
    s.notes != [] && s.notes[|s.notes| - 1].MessageComplete?
  }

  predicate Stopped(m: Machine) {
    !m.core.errno.Ok? || Over(m.seen)
  }

  /** One octet; a parser that has stopped takes no more, and neither does it take an octet that is wrong. */
  function Next(m: Machine, ch: byte): Machine {
    if Stopped(m) then m
    else
      var move := Advance(m.core, ch);
      if !move.core.errno.Ok? then m.(core := move.core)
      else Machine(move.core, Report(m.seen, move, ch), m.taken + 1)
  }

  function Run(m: Machine, s: bytes): Machine
    decreases |s|
  {
    if s == [] then m else Run(Next(m, s[0]), s[1..])
  }

  /** The connection has ended. */
  function AtEof(m: Machine): Machine {
    if Stopped(m) then m
    else match m.core.state
      case BodyIdentityEof => m.(seen := m.seen.(notes := m.seen.notes + [MessageComplete]))
      case Dead => m
      case StartRes => m
      case _ => m.(core := m.core.(errno := InvalidEofState))
  }

  // ---- What every octet keeps ----

  predicate NamePending(s: State) {
    s.InName? || s.DiscardWs? || s.DiscardWsAlmostDone? || s.DiscardLws?
  }

  predicate ValuePending(s: State) {
    s.InText? || s.HeaderAlmostDone? || s.ValueLws?
  }

  /** The lengths that the states may meet; these are the assertions of the body states. */
  predicate LengthOk(c: Core) {
    && c.length <= UNKNOWN
    && (c.state.BodyIdentity? || c.state.ChunkData? ==> 0 < c.length < UNKNOWN)
    && (c.state.ChunkSize? || c.state.ChunkParameters? || c.state.ChunkSizeAlmostDone? ==> c.length < UNKNOWN)
    && (c.state.ChunkDataAlmostDone? ==> c.length == 0)
  }

  /** Names and values come in turn, and the lengths are right. */
  predicate Fits(c: Core, part: Part) {
    LengthOk(c) && (NamePending(c.state) <==> part.Name?) && (ValuePending(c.state) ==> part.Both?)
  }

  predicate Valid(m: Machine) {
    && m.core.length <= UNKNOWN
    && (!Stopped(m) ==>
          && Fits(m.core, m.seen.head.part)
          && (m.core.state.ChunkSizeStart? ==> m.core.nread == 0))
  }

  /** The conservative bound lets through the numbers below this one. */
  function Limit(base: nat): nat {
    if base == 10 then 18446744073709551610 else 0xffff_ffff_ffff_fff0
  }

  /** An accepted digit is counted exactly: no wrap-around, and never the value that stands for no length. */
  lemma DigitExact(c: Core, base: nat, d: nat)
    requires d < base && (base == 10 || base == 16) && c.errno.Ok?
    ensures Digit(c, base, d).errno.Ok? ==> Digit(c, base, d).length == c.length * base + d < UNKNOWN
    ensures Digit(c, base, d).errno.Ok? <==> c.length * base + d < Limit(base)
  {
    if c.length <= (UNKNOWN - base) / base {
      assert c.length * base + d < UNKNOWN;
    }
  }

  lemma TextStepKeeps(c: Core, ch: byte)
    requires c.errno.Ok? && c.length <= UNKNOWN
    ensures var d := TextStep(c, ch); d.state == c.state && d.nread == c.nread && d.length <= UNKNOWN
  {
    hide Digit;
    if IsNum(ch) {
      DigitKeeps(c.(header := ContentLengthNum), 10, ch - ZERO);
    }
  }

  lemma DigitKeeps(c: Core, base: nat, d: nat)
    requires base > 0 && c.length <= UNKNOWN
    ensures Digit(c, base, d).length <= UNKNOWN
    ensures Digit(c, base, d) == c.(length := Digit(c, base, d).length, errno := Digit(c, base, d).errno)
  {}

  lemma NameStepKeeps(c: Core, t: byte, ch: byte)
    ensures var d := NameStep(c, t, ch); d == c.(header := d.header, index := d.index, flags := d.flags)
  {}

  lemma ValueStartKeeps(c: Core, ch: byte)
    requires c.errno.Ok? && c.length <= UNKNOWN
    ensures var m := OnValueStart(c, ch);
            && m.core.length <= UNKNOWN && !m.empty && m.notes == []
            && (m.core.errno.Ok? ==> m.core.state.InText? && m.mark == Take(ValueData))
  {}

  /** A move that is no error leads to a fitting core, or to the end of the message. */
  predicate Keeps(c: Core, s: Seen, m: Move, ch: byte) {
    && m.core.length <= UNKNOWN
    && (m.core.errno.Ok? && !Over(Report(s, m, ch)) ==>
          && Fits(m.core, Report(s, m, ch).head.part)
          && (m.core.state.ChunkSizeStart? ==> m.core.nread == 0))
  }

  lemma HeadersEnd(c: Core, s: Seen, ch: byte)
    requires c.errno.Ok? && c.length <= UNKNOWN && !s.head.part.Name?
    ensures Keeps(c, s, OnHeadersAlmostDone(c, ch), ch)
  {
    hide ShouldKeepAlive, NeedsEof;
  }

  lemma FieldStartKeeps(c: Core, s: Seen, ch: byte)
    requires c.errno.Ok? && c.length <= UNKNOWN && !s.head.part.Name? && !Over(s)
    ensures Keeps(c, s, OnFieldStart(c, ch), ch)
  {
    hide OnHeadersAlmostDone;
    HeadersEnd(c, s, ch);
  }

  lemma ValueKeeps(c: Core, s: Seen, ch: byte)
    requires c.errno.Ok? && c.length <= UNKNOWN && !s.head.part.Nothing?
    ensures Keeps(c, s, OnValueStart(c, ch), ch)
  {
    hide OnValueStart;
    ValueStartKeeps(c, ch);
  }

  predicate InHeaders(s: State) {
    || NamePending(s) || ValuePending(s)
    || s.FieldStart? || s.HeadersAlmostDone?
  }

  predicate InBody(s: State) {
    || s.ChunkSizeStart? || s.ChunkSize? || s.ChunkParameters? || s.ChunkSizeAlmostDone?
    || s.ChunkData? || s.ChunkDataAlmostDone? || s.ChunkDataDone? || s.BodyIdentity? || s.BodyIdentityEof?
  }

  lemma HeadersKeep(c: Core, s: Seen, ch: byte)
    requires c.errno.Ok? && !Over(s) && Fits(c, s.head.part) && InHeaders(c.state)
    ensures Keeps(c, s, Dispatch(c, ch), ch)
  {
    hide OnHeadersAlmostDone, OnFieldStart, OnValueStart, TextStep, NameStep, Token, IsHeaderChar;
    match c.state
    case FieldStart => FieldStartKeeps(c, s, ch);
    case InName => NameStepKeeps(c, Token(ch), ch);
    case DiscardWs => ValueKeeps(c, s, ch);
    case DiscardLws => EmptyKeeps(c, s, ch);
    case InText => TextStepKeeps(c, ch);
    case ValueLws =>
      ValueKeeps(if c.header.ContentLengthNum? then c.(header := ContentLengthWs) else c, s, ch);
      FieldStartKeeps(Finished(c), s, ch);
    case HeadersAlmostDone => HeadersEnd(c, s, ch);
    case _ =>
  }

  lemma BodyKeeps(c: Core, s: Seen, ch: byte)
    requires c.errno.Ok? && !Over(s) && Fits(c, s.head.part) && InBody(c.state)
    ensures Keeps(c, s, Dispatch(c, ch), ch)
  {
    hide OnChunkSize, Unhex, ShouldKeepAlive, OnBodyIdentity;
    if c.state.ChunkSize? {
      ChunkSizeKeeps(c, s, ch);
    } else if c.state.BodyIdentity? {
      IdentityKeeps(c, s, ch);
    }
  }

  lemma IdentityKeeps(c: Core, s: Seen, ch: byte)
    requires c.errno.Ok? && !Over(s) && Fits(c, s.head.part) && c.state.BodyIdentity?
    ensures Keeps(c, s, OnBodyIdentity(c), ch)
  {
    hide ShouldKeepAlive;
  }

  /** The status line reports no data and leads to the first header. */
  lemma LineMoves(c: Core, ch: byte)
    requires c.errno.Ok? && LengthOk(c) && !InHeaders(c.state) && !InBody(c.state)
    ensures var m := Dispatch(c, ch);
            && m.core.length <= UNKNOWN && !m.empty && m.mark == NoMark
            && (m.core.errno.Ok? ==> m.core.state.FieldStart? || !(InHeaders(m.core.state) || InBody(m.core.state)))
  {}

  lemma LineKeeps(c: Core, s: Seen, ch: byte)
    requires c.errno.Ok? && !Over(s) && Fits(c, s.head.part) && !InHeaders(c.state) && !InBody(c.state)
    ensures Keeps(c, s, Dispatch(c, ch), ch)
  {
    hide Dispatch;
    LineMoves(c, ch);
  }

  lemma DispatchKeeps(c: Core, s: Seen, ch: byte)
    requires c.errno.Ok? && !Over(s) && Fits(c, s.head.part)
    ensures Keeps(c, s, Dispatch(c, ch), ch)
  {
    hide Dispatch, Keeps, Fits;
    if InHeaders(c.state) {
      HeadersKeep(c, s, ch);
    } else if InBody(c.state) {
      BodyKeeps(c, s, ch);
    } else {
      LineKeeps(c, s, ch);
    }
  }

  lemma ChunkSizeKeeps(c: Core, s: Seen, ch: byte)
    requires c.errno.Ok? && !Over(s) && Fits(c, s.head.part) && c.state.ChunkSize?
    ensures Keeps(c, s, OnChunkSize(c, ch), ch)
  {
    hide Digit;
    if Unhex(ch) >= 0 {
      DigitKeeps(c, 16, Unhex(ch));
      DigitExact(c, 16, Unhex(ch));
    }
  }

  /** A header without a value: the next one may begin with the same octet. */
  lemma EmptyKeeps(c: Core, s: Seen, ch: byte)
    requires c.errno.Ok? && !Over(s) && Fits(c, s.head.part) && c.state.DiscardLws?
    ensures Keeps(c, s, OnDiscardLws(c, ch), ch)
  {
    hide OnFieldStart;
    var t := AddData(s, ValueData, []);
    var d := Finished(c);
    FieldStartKeeps(d, t, ch);
    FieldStartPlain(d, ch);
  }

  lemma FieldStartPlain(c: Core, ch: byte)
    ensures !OnFieldStart(c, ch).empty
  {}

  /** Every octet keeps the invariant. */
  lemma NextValid(m: Machine, ch: byte)
    requires Valid(m)
    ensures Valid(Next(m, ch))
  {
    hide Dispatch;
    if !Stopped(m) && !(ParsingHeader(m.core.state) && m.core.nread + 1 > MAX_HEADER_SIZE) {
      var c := if ParsingHeader(m.core.state) then m.core.(nread := m.core.nread + 1) else m.core;
      DispatchKeeps(c, m.seen, ch);
    }
  }
}
