// Two responses that are no answers and are taken for answers.

module Misleading {
  import opened Octets
  import opened Options
  import opened Headers
  import opened HeaderStrings
  import opened HttpTidy
  import opened Decisions
  import opened Responses
  import opened Streams
  import H = Http
  import HttpAnswers
  import HttpHeads
  import HttpNames

  // ---- A response that is no answer and is taken for one ----

  const STATUS := HttpHeads.StatusLine(0x31, 0x31, [0x31, 0x30, 0x31], [])

  /** An upgrade to something else; with a NUL in front of two values, its strings say otherwise. */
  function Shifted(key: bytes): seq<Header> {
    [Header(Ascii("X"), [0] + UPGRADE), Header(WEBSOCKET, [0]), Header(ACCEPT, AcceptFor(key)),
     Header(UPGRADE, Ascii("h2c")), Header(Ascii("connection"), UPGRADE)]
  }

  lemma NulStarts()
    ensures !H.IsLineEnd(0) && !H.IsBlank(0)
  {}

  lemma NulThenText(s: string)
    requires HttpHeads.IsWord(s)
    ensures HttpHeads.IsText(Ascii(s)) && HttpHeads.IsText([0] + Ascii(s))
  {
    hide H.IsHeaderChar, H.IsLineEnd, H.IsBlank;
    HttpHeads.WordText(s);
    assert ([0] + Ascii(s))[1..] == Ascii(s);
    NulStarts();
  }

  lemma AcceptIsText(key: bytes)
    ensures HttpHeads.IsText(AcceptFor(key)) && HttpHeads.IsText([0])
  {
    hide AcceptFor;
    AcceptText(key);
  }

  lemma ShiftedBenign(key: bytes)
    ensures forall h :: h in Shifted(key) ==> HttpAnswers.Benign(h)
  {
    hide AcceptFor, Ascii, HttpHeads.IsText, HttpHeads.IsHeader, HttpAnswers.Benign;
    ShiftedHeaders(key);
    Words();
    ShortWords();
    FirstOfAccept();
    BenignByLength(Header(Ascii("X"), [0] + UPGRADE));
    BenignByLength(Header(WEBSOCKET, [0]));
    BenignByLength(Header(ACCEPT, AcceptFor(key)));
    BenignByLength(Header(UPGRADE, Ascii("h2c")));
    ConnectionBenign();
  }

  lemma ShiftedHeaders(key: bytes)
    ensures forall h :: h in Shifted(key) ==> HttpHeads.IsHeader(h)
  {
    hide AcceptFor, Ascii, HttpHeads.IsText, HttpHeads.IsHeader;
    NulThenText("upgrade");
    NulThenText("h2c");
    AcceptIsText(key);
    HttpHeads.WordHeader("X", [0] + UPGRADE);
    HttpHeads.WordHeader("websocket", [0]);
    HttpHeads.WordHeader("Sec-WebSocket-Accept", AcceptFor(key));
    HttpHeads.WordHeader("upgrade", Ascii("h2c"));
    HttpHeads.WordHeader("connection", UPGRADE);
  }

  lemma FirstOfAccept()
    ensures ACCEPT[0] == 0x53
  {}

  lemma ConnectionBenign()
    requires HttpHeads.IsHeader(Header(Ascii("connection"), UPGRADE))
    ensures HttpAnswers.Benign(Header(Ascii("connection"), UPGRADE))
  {
    hide HttpHeads.IsHeader;
    assert HttpNames.Lowered(Ascii("connection"))[0] == 0x63;
    assert |HttpNames.CONTENT_LENGTH| == 14 && |HttpNames.TRANSFER_ENCODING| == 17;
  }

  /** The parser takes a name of such a length for nothing that matters to a body or the connection. */
  lemma BenignByLength(h: Header)
    requires HttpHeads.IsHeader(h)
    requires |h.name| == 1 || |h.name| == 7 || |h.name| == 9 || (|h.name| == 20 && h.name[0] == 0x53)
    ensures HttpAnswers.Benign(h)
  {
    assert |HttpNames.CONTENT_LENGTH| == 14 && |HttpNames.TRANSFER_ENCODING| == 17
      && HttpNames.TRANSFER_ENCODING[0] == 0x74;
    assert |HttpNames.CONNECTION| == 10 && |HttpNames.PROXY_CONNECTION| == 16;
    assert |h.name| == 20 ==> HttpNames.Lowered(h.name)[0] == 0x73;
  }

  lemma LinesCons(h: Header, hs: seq<Header>)
    ensures HttpHeads.Lines([h] + hs) == HttpHeads.Line(h) + HttpHeads.Lines(hs)
    ensures |HttpHeads.Line(h)| == |h.name| + |h.value| + 4
  {
    assert ([h] + hs)[1..] == hs;
  }

  lemma ShiftedFits(key: bytes)
    ensures |HttpHeads.Head(STATUS, Shifted(key))| <= 300
  {
    hide AcceptFor, Ascii, HttpHeads.Line, HttpHeads.Lines;
    AcceptText(key);
    var c := [Header(Ascii("connection"), UPGRADE)];
    var u := [Header(UPGRADE, Ascii("h2c"))] + c;
    var a := [Header(ACCEPT, AcceptFor(key))] + u;
    var w := [Header(WEBSOCKET, [0])] + a;
    assert Shifted(key) == [Header(Ascii("X"), [0] + UPGRADE)] + w;
    LinesCons(c[0], []);
    assert c == [c[0]] + [];
    LinesCons(u[0], c);
    LinesCons(a[0], u);
    LinesCons(w[0], a);
    LinesCons(Header(Ascii("X"), [0] + UPGRADE), w);
    assert HttpHeads.Lines([]) == [] by {
      NoLines();
    }
  }

  lemma NoLines()
    ensures HttpHeads.Lines([]) == []
  {}

  /** The strings of the misleading head. */
  lemma ShiftedStrings(key: bytes)
    ensures exists rest ::
              AllStrings(Shifted(key))
              == [Ascii("X"), []] + ([UPGRADE, WEBSOCKET] + ([[], []] + ([ACCEPT, AcceptFor(key)] + rest)))
  {
    hide AcceptFor, Ascii, AllStrings;
    AcceptText(key);
    var x, w, a := Header(Ascii("X"), [0] + UPGRADE), Header(WEBSOCKET, [0]), Header(ACCEPT, AcceptFor(key));
    var others := [Header(UPGRADE, Ascii("h2c")), Header(Ascii("connection"), UPGRADE)];
    assert Shifted(key) == [x] + ([w] + ([a] + others));
    StringsCons(x, [w] + ([a] + others));
    StringsCons(w, [a] + others);
    StringsCons(a, others);
    assert ([0] + UPGRADE)[1..] == UPGRADE && [0][1..] == [];
    var rest := AllStrings(others);
    assert Strings(x) + (Strings(w) + (Strings(a) + rest))
        == [Ascii("X"), []] + ([UPGRADE, WEBSOCKET] + ([[], []] + ([ACCEPT, AcceptFor(key)] + rest)));
  }

  /** In pairs they are an answer. */
  lemma ShiftedPairs(key: bytes, tail: bytes)
    ensures var p := Paired(AllStrings(Shifted(key)), tail); Upgrades(p) && Knows(p, key)
  {
    hide AcceptFor, Ascii, AllStrings, Paired, Lookup, Shifted;
    Words();
    ShortWords();
    ShiftedStrings(key);
    var rest :|
      AllStrings(Shifted(key))
      == [Ascii("X"), []] + ([UPGRADE, WEBSOCKET] + ([[], []] + ([ACCEPT, AcceptFor(key)] + rest)));
    var s := [ACCEPT, AcceptFor(key)] + rest;
    PairFront(Ascii("X"), [], [UPGRADE, WEBSOCKET] + ([[], []] + s), tail);
    PairFront(UPGRADE, WEBSOCKET, [[], []] + s, tail);
    PairFront([], [], s, tail);
    PairFront(ACCEPT, AcceptFor(key), rest, tail);
    var r := Paired(rest, tail);
    var q := [Header(ACCEPT, AcceptFor(key))] + r;
    PassesBy(Header(Ascii("X"), []), [Header(UPGRADE, WEBSOCKET)] + ([Header([], [])] + q), UPGRADE);
    LookupCons(Header(UPGRADE, WEBSOCKET), [Header([], [])] + q, UPGRADE);
    PassesBy(Header(Ascii("X"), []), [Header(UPGRADE, WEBSOCKET)] + ([Header([], [])] + q), ACCEPT);
    PassesBy(Header(UPGRADE, WEBSOCKET), [Header([], [])] + q, ACCEPT);
    PassesBy(Header([], []), q, ACCEPT);
    LookupCons(Header(ACCEPT, AcceptFor(key)), r, ACCEPT);
  }

  lemma ShortWords()
    ensures |Ascii("X")| == 1 && |Ascii("h2c")| == 3
  {}

  /** Its headers are not. */
  lemma ShiftedIsNoAnswer(key: bytes)
    ensures !Upgrades(Shifted(key)) && Lookup(Shifted(key), Ascii("connection")).Some?
    ensures Lookup(Shifted(key), UPGRADE) == Some(Ascii("h2c"))
  {
    hide AcceptFor, Ascii, Lookup;
    Words();
    ShortWords();
    var x, w, a := Header(Ascii("X"), [0] + UPGRADE), Header(WEBSOCKET, [0]), Header(ACCEPT, AcceptFor(key));
    var u, c := Header(UPGRADE, Ascii("h2c")), Header(Ascii("connection"), UPGRADE);
    assert Shifted(key) == [x] + ([w] + ([a] + ([u] + ([c] + []))));
    PassesBy(x, [w] + ([a] + ([u] + ([c] + []))), UPGRADE);
    PassesBy(w, [a] + ([u] + ([c] + [])), UPGRADE);
    PassesBy(a, [u] + ([c] + []), UPGRADE);
    LookupCons(u, [c] + [], UPGRADE);
    LookupConcat([x] + ([w] + ([a] + [u])), [c] + [], Ascii("connection"));
    assert [x] + ([w] + ([a] + [u])) + ([c] + []) == Shifted(key);
    LookupCons(c, [], Ascii("connection"));
  }

  lemma ShiftedSays(key: bytes)
    ensures |Shifted(key)| == 5 && HttpAnswers.SaysUpgrade(Shifted(key)[3])
    ensures HttpAnswers.IsConnection(Shifted(key)[4])
  {
    hide AcceptFor, HttpAnswers.Benign, HttpAnswers.IsConnection, Ascii;
    ShiftedBenign(key);
    var hs := Shifted(key);
    assert hs[3] in hs && hs[4] in hs;
    ShortWords();
    SaysSomething(hs[3]);
    NamedConnection(hs[4]);
  }

  lemma SaysSomething(h: Header)
    requires HttpAnswers.Benign(h) && h.name == UPGRADE && h.value != []
    ensures HttpAnswers.SaysUpgrade(h)
  {
    SameName(UPGRADE, "upgrade");
    assert |HttpNames.CONNECTION| == 10 && |HttpNames.PROXY_CONNECTION| == 16;
  }

  /**
   * A complete response to any key that is no answer to it, and is taken for one: the parser lets
   * it through, its upgrade header names another protocol, and the library accepts it nevertheless.
   */
  lemma Misled(key: bytes, mem: bytes, end: nat)
    requires Holding(Shifted(key), mem, end)
    ensures var r := H.Run(HttpHeads.START, HttpHeads.Head(STATUS, Shifted(key)));
            && r.core.errno.Ok? && H.Over(r.seen) && r.taken == |HttpHeads.Head(STATUS, Shifted(key))|
            && Completed(r.seen.head) == Shifted(key)
            && !Accepted(r.core, Shifted(key), key)
            && Accepted(r.core, Stored(mem, 0, end), key)
  {
    hide AcceptFor, Stored, Shifted, H.Run, HttpHeads.Head, Completed, Upgrades, Knows, Flatten, TidyHeader,
         AllStrings, Paired,
         StringAt;
    ShiftedParsed(key);
    ShiftedIsNoAnswer(key);
    ShiftedPairs(key, StringAt(mem, end));
    StoredIs(mem, end, Shifted(key));
  }

  lemma ShiftedParsed(key: bytes)
    ensures var r := H.Run(HttpHeads.START, HttpHeads.Head(STATUS, Shifted(key)));
            && r.core.errno.Ok? && H.Over(r.seen) && r.taken == |HttpHeads.Head(STATUS, Shifted(key))|
            && r.core.status == 101 && r.core.upgrade && Completed(r.seen.head) == Shifted(key)
  {
    hide AcceptFor, Shifted, HttpAnswers.Benign, H.Run, HttpHeads.StatusText, HttpHeads.Lines, HttpAnswers.SaysUpgrade,
         HttpAnswers.IsConnection, Completed, Ascii;
    ShiftedBenign(key);
    ShiftedFits(key);
    ShiftedSays(key);
    HttpAnswers.UpgradeHead(STATUS, Shifted(key));
  }

  // ---- A response that does not fit and is taken for an answer ----

  /** An upgrade to a protocol whose name goes on where `websocket` ends. */
  function Truncated(key: bytes): seq<Header> {
    [Header(Ascii("connection"), UPGRADE), Header(ACCEPT, AcceptFor(key)), Header(UPGRADE, WEBSOCKET + Ascii("X"))]
  }

  /** What a buffer of just this size keeps of it, if the last value comes in two pieces. */
  function Front(key: bytes): bytes {
    Flatten(Truncated(key)[..2]) + UPGRADE + [0] + WEBSOCKET
  }

  lemma AsciiJoined(a: string, b: string)
    ensures Ascii(a) + Ascii(b) == Ascii(a + b)
  {}

  lemma TruncatedBenign(key: bytes)
    ensures forall h :: h in Truncated(key) ==> HttpAnswers.Benign(h)
  {
    hide AcceptFor, Ascii, HttpHeads.IsText, HttpHeads.IsHeader, HttpAnswers.Benign;
    Words();
    FirstOfAccept();
    NulThenText("upgrade");
    NulThenText("websocketX");
    AsciiJoined("websocket", "X");
    assert "websocket" + "X" == "websocketX";
    AcceptIsText(key);
    HttpHeads.WordHeader("connection", UPGRADE);
    HttpHeads.WordHeader("Sec-WebSocket-Accept", AcceptFor(key));
    HttpHeads.WordHeader("upgrade", WEBSOCKET + Ascii("X"));
    ConnectionBenign();
    BenignByLength(Header(ACCEPT, AcceptFor(key)));
    BenignByLength(Header(UPGRADE, WEBSOCKET + Ascii("X")));
  }

  lemma TruncatedFits(key: bytes)
    ensures |HttpHeads.Head(STATUS, Truncated(key))| <= 300 && |Front(key)| <= 300
  {
    hide AcceptFor, Ascii, HttpHeads.Line, HttpHeads.Lines;
    AcceptText(key);
    Words();
    ShortWords();
    ConnectionSize();
    var t := Truncated(key);
    assert t == [t[0]] + ([t[1]] + ([t[2]] + []));
    LinesCons(t[0], [t[1]] + ([t[2]] + []));
    LinesCons(t[1], [t[2]] + []);
    LinesCons(t[2], []);
    NoLines();
    assert t[..2] == [t[0], t[1]];
    FlattenTwo(t[0], t[1]);
  }

  lemma FlattenTwo(a: Header, b: Header)
    ensures |Flatten([a, b])| == |a.name| + |a.value| + |b.name| + |b.value| + 4
  {
    assert [a, b][1..] == [b] && [b][1..] == [];
    assert |Flatten([b])| == |Flat(b)|;
  }

  lemma ConnectionSize()
    ensures |Ascii("connection")| == 10
  {}

  /** Its headers are no answer. */
  lemma TruncatedIsNoAnswer(key: bytes)
    ensures !Upgrades(Truncated(key))
  {
    hide AcceptFor, Ascii, Lookup;
    Words();
    ShortWords();
    ConnectionSize();
    var t := Truncated(key);
    assert t == [t[0]] + ([t[1]] + ([t[2]] + []));
    PassesBy(t[0], [t[1]] + ([t[2]] + []), UPGRADE);
    PassesBy(t[1], [t[2]] + [], UPGRADE);
    LookupCons(t[2], [], UPGRADE);
  }

  lemma {:induction false} CStringAll(s: bytes)
    requires NulFree(s)
    ensures CString(s) == s
  {
    if s != [] {
      assert s[0] in s;
      CStringAll(s[1..]);
    }
  }

  /** A string that memory does not end, but that ends there or before a NUL. */
  lemma StringOpen(mem: bytes, at: nat, s: bytes)
    requires at + |s| <= |mem| && mem[at..at + |s|] == s && NulFree(s) && s != []
    requires |mem| > at + |s| ==> mem[at + |s|] == 0
    ensures StringAt(mem, at) == s
  {
    var n := at + |s|;
    if |mem| > n {
      assert mem[at..] == s + [0] + mem[n + 1..];
      CStringUnique(s, mem[n + 1..]);
    } else {
      assert mem[at..] == s;
      CStringAll(s);
    }
  }

  lemma FrontSplit(mem: bytes, n: nat, a: bytes, b: bytes)
    requires n <= |mem| && mem[..n] == a + b
    ensures |a| <= n && mem[0..|a|] == a && mem[|a|..n] == b
  {}

  /** Whole headers, then a name, then a value that nothing ends but what memory holds behind it. */
  lemma OpenEnd(mem: bytes, n: nat, hs: seq<Header>, name: bytes, value: bytes)
    requires n <= |mem| && mem[..n] == Flatten(hs) + (name + [0] + value) && (n < |mem| ==> mem[n] == 0)
    requires (forall h :: h in hs ==> Clean(h)) && NulFree(name) && NulFree(value) && value != []
    ensures Stored(mem, 0, n) == hs + [Header(name, value)]
  {
    hide Flatten, StringAt, Stored;
    var at := |Flatten(hs)|;
    FrontSplit(mem, n, Flatten(hs), name + [0] + value);
    StoredFront(mem, 0, n, hs);
    StringIs(mem, at, n, name, value);
    StringOpen(mem, at + |name| + 1, value);
    LastStored(mem, at, n);
  }

  /** What is read back of the front. */
  lemma FrontRead(key: bytes, mem: bytes)
    requires |Front(key)| <= |mem| && mem[..|Front(key)|] == Front(key)
    requires |mem| > |Front(key)| ==> mem[|Front(key)|] == 0
    ensures Stored(mem, 0, |Front(key)|) == Truncated(key)[..2] + [Header(UPGRADE, WEBSOCKET)]
  {
    hide AcceptFor, Ascii, Flatten, StringAt, Stored;
    AcceptText(key);
    Words();
    WordsTidy();
    ConnectionTidy();
    var two := Truncated(key)[..2];
    Associative(Flatten(two), UPGRADE, [0]);
    Associative(Flatten(two), UPGRADE + [0], WEBSOCKET);
    OpenEnd(mem, |Front(key)|, two, UPGRADE, WEBSOCKET);
  }

  lemma LastStored(mem: bytes, at: nat, n: nat)
    requires at < n && at + |StringAt(mem, at)| + 1 + |StringAt(mem, at + |StringAt(mem, at)| + 1)| >= n
    ensures Stored(mem, at, n) == [Header(StringAt(mem, at), StringAt(mem, at + |StringAt(mem, at)| + 1))]
  {}

  lemma ConnectionTidy()
    ensures NulFree(Ascii("connection"))
  {
    AsciiNulFree("connection");
  }

  lemma FrontAnswers(key: bytes)
    ensures var p := Truncated(key)[..2] + [Header(UPGRADE, WEBSOCKET)]; Upgrades(p) && Knows(p, key)
  {
    hide AcceptFor, Ascii, Lookup;
    Words();
    ConnectionSize();
    var t := Truncated(key);
    var u := Header(UPGRADE, WEBSOCKET);
    assert t[..2] + [u] == [t[0]] + ([t[1]] + ([u] + []));
    PassesBy(t[0], [t[1]] + ([u] + []), UPGRADE);
    PassesBy(t[1], [u] + [], UPGRADE);
    LookupCons(u, [], UPGRADE);
    PassesBy(t[0], [t[1]] + ([u] + []), ACCEPT);
    LookupCons(t[1], [u] + [], ACCEPT);
  }

  lemma TruncatedSays(key: bytes)
    ensures |Truncated(key)| == 3
    ensures HttpAnswers.SaysUpgrade(Truncated(key)[2]) && HttpAnswers.IsConnection(Truncated(key)[0])
  {
    hide AcceptFor, HttpAnswers.Benign, HttpAnswers.IsConnection, Ascii;
    TruncatedBenign(key);
    var hs := Truncated(key);
    assert hs[2] in hs && hs[0] in hs;
    Words();
    SaysSomething(hs[2]);
    NamedConnection(hs[0]);
  }

  /**
   * A complete response to any key that is no answer to it: if the buffer is full behind
   * `websocket`, and memory holds a NUL behind it, the library accepts it.
   */
  lemma MisledByOverflow(key: bytes, mem: bytes)
    requires |Front(key)| <= |mem| && mem[..|Front(key)|] == Front(key)
    requires |mem| > |Front(key)| ==> mem[|Front(key)|] == 0
    ensures var r := H.Run(HttpHeads.START, HttpHeads.Head(STATUS, Truncated(key)));
            && r.core.errno.Ok? && H.Over(r.seen) && r.taken == |HttpHeads.Head(STATUS, Truncated(key))|
            && Completed(r.seen.head) == Truncated(key)
            && !Accepted(r.core, Truncated(key), key)
            && Accepted(r.core, Stored(mem, 0, |Front(key)|), key)
  {
    hide AcceptFor, Stored, Lookup, SameIgnoringCase, Truncated, HttpAnswers.Benign, H.Run, HttpHeads.StatusText,
         HttpHeads.Lines, HttpAnswers.SaysUpgrade, HttpAnswers.IsConnection, Completed, Upgrades, Knows, Front, Ascii,
         StringAt;
    TruncatedBenign(key);
    TruncatedFits(key);
    TruncatedSays(key);
    TruncatedIsNoAnswer(key);
    FrontRead(key, mem);
    FrontAnswers(key);
    HttpAnswers.UpgradeHead(STATUS, Truncated(key));
  }

  /** The callbacks for one header, each of its parts in one piece. */
  method OneHeader(store: Store, name: bytes, value: bytes)
    requires store.Valid() && !store.progress.part.Name?
    modifies store, store.s, store.s.buf
    ensures store.Valid() && store.progress == Progress(Completed(old(store.progress)), Both(name, value))
  {
    hide Flatten, Store.Valid, Written;
    SpellDone(store.progress, Field(name));
    var _ := store.OnHeaderField(name);
    var _ := store.OnHeaderValue(value);
  }

  /** A piece for which there is no room changes nothing in memory, and neither does what follows it. */
  method LastPiece(store: Store, value: bytes)
    requires store.Valid() && store.progress.part.Both? && value != [] && |Written(store.progress)| == store.s.size
    modifies store, store.s, store.s.buf
    ensures store.s.Valid() && store.s.error && store.s.Contents() == Written(old(store.progress))
    ensures store.progress == Spell(old(store.progress), Value(value))
  {
    hide Flatten, Written, WholeKept, KeptBy, Concat, Kept;
    ghost var before, writes := store.progress, store.writes;
    KeptPrefix(store.s.size, writes);
    PiecesWritten(before, Value(value), writes);
    KeptSnoc(store.s.size, writes, value);
    ConcatSnoc(writes, value);
    var _ := store.OnHeaderValue(value);
    assert store.writes == writes + [value];
    KeptSnoc(store.s.size, writes + [value], [0]);
    ConcatSnoc(writes + [value], [0]);
    store.Finish();
    KeptPrefix(store.s.size, store.writes);
  }

  /** The callbacks that bring it about, when an input ends behind `websocket`, in a buffer of that size. */
  method Overflow(key: bytes) returns (store: Store)
    ensures store.s.Valid() && store.s.size == store.s.buf.Length == |Front(key)| < 0x1_0000
    ensures Completed(store.progress) == Truncated(key) && store.s.error
    ensures store.s.pos == |Front(key)| && store.Memory() == Front(key)
  {
    hide AcceptFor, Ascii, Flatten, KeptBy, Store.Valid, WholeKept;
    TruncatedFits(key);
    var size := |Front(key)|;
    var buf := new byte[size](_ => 0);
    var s := new Stream(buf, size);
    store := new Store(s, []);
    OneHeader(store, Ascii("connection"), UPGRADE);
    OneHeader(store, ACCEPT, AcceptFor(key));
    OneHeader(store, UPGRADE, WEBSOCKET);
    assert store.progress == Progress(Truncated(key)[..2], Both(UPGRADE, WEBSOCKET));
    FrontWritten(key);
    LastPiece(store, Ascii("X"));
    assert store.Memory() == store.s.Contents();
  }

  lemma FrontWritten(key: bytes)
    ensures Written(Progress(Truncated(key)[..2], Both(UPGRADE, WEBSOCKET))) == Front(key)
  {
    hide AcceptFor, Ascii, Flatten;
  }
}
