// The opening request (section 4.1 of RFC 6455), as a server reads it: its first line split at the
// blanks, and the headers behind it as the HTTP parser reads them.

module Requests {
  import opened Octets
  import opened Options
  import opened Headers
  import opened Handshake
  import opened HttpLengths
  import opened UrlParts
  import H = Http
  import HttpHeads
  import HttpNames
  import HttpRuns
  import Base64
  import Url

  // ---- A reader ----

  function Behind(s: bytes, n: nat): bytes {
    if n <= |s| then s[n..] else []
  }

  /** The HTTP parser where a header may begin; as no body is expected, it stops behind the empty line. */
  const HEADERS := H.Machine(H.INITIAL.(state := H.FieldStart, length := H.UNKNOWN, status := 204), H.NOTHING, 0)

  datatype Reading = Reading(method_: bytes, target: bytes, version: bytes, head: H.Machine)

  /** A line of three words, and what the HTTP parser makes of what follows it. */
  function Read(octets: bytes): Reading {
    var line := UpTo(octets, H.CR);
    var verb := UpTo(line, H.SPACE);
    var target := UpTo(Behind(line, |verb| + 1), H.SPACE);
    var version := Behind(line, |verb| + 1 + |target| + 1);
    Reading(verb, target, version, H.Run(HEADERS, Behind(octets, |line| + 2)))
  }

  /** A request is read as it is written, if its target has no blank and no line end. */
  lemma ReadLine(verb: bytes, target: bytes, version: bytes, rest: bytes)
    requires H.SPACE !in verb && H.SPACE !in target && H.CR !in verb && H.CR !in target && H.CR !in version
    ensures Read(verb + [H.SPACE] + target + [H.SPACE] + version + [H.CR, H.LF] + rest)
         == Reading(verb, target, version, H.Run(HEADERS, rest))
  {
    hide H.Run;
    var line := verb + [H.SPACE] + target + [H.SPACE] + version;
    var octets := line + [H.CR, H.LF] + rest;
    assert octets == line + [H.CR] + ([H.LF] + rest);
    UpToMark(line, H.CR, [H.LF] + rest);
    assert line == verb + [H.SPACE] + (target + [H.SPACE] + version);
    UpToMark(verb, H.SPACE, target + [H.SPACE] + version);
    assert Behind(line, |verb| + 1) == target + [H.SPACE] + version;
    UpToMark(target, H.SPACE, version);
    assert Behind(line, |verb| + 1 + |target| + 1) == version;
    assert Behind(octets, |line| + 2) == rest;
  }

  // ---- What is written ----

  /** The path, and query and fragment with their marks if they are set. */
  function Target(url: bytes, fields: Url.Fields): bytes {
    var query, fragment := TextOf(url, fields, Url.Query), TextOf(url, fields, Url.Fragment);
    TextOf(url, fields, Url.Path) + (if query != [] then [Url.QUESTION] + query else [])
    + (if fragment != [] then [Url.HASH] + fragment else [])
  }

  /** The host, and the port if it is not 0. */
  function Authority(url: bytes, fields: Url.Fields, port: nat): bytes {
    TextOf(url, fields, Url.Host) + if port != 0 then [Url.COLON] + TextOf(url, fields, Url.Port) else []
  }

  /** The headers that a client sends: those that section 4.1 of RFC 6455 asks for, and its own. */
  function Asking(host: bytes, key: bytes, extra: seq<Header>): seq<Header> {
    [Header(Ascii("Host"), host), Header(Ascii("Upgrade"), Ascii("websocket")),
     Header(Ascii("Connection"), Ascii("upgrade")), Header(Ascii("Sec-WebSocket-Version"), Ascii("13")),
     Header(Ascii("Sec-WebSocket-Key"), key)] + extra
  }

  lemma AsciiJoined(a: string, b: string)
    ensures Ascii(a) + Ascii(b) == Ascii(a + b)
  {}

  lemma Marks()
    ensures Ascii(": ") == [H.COLON, H.SPACE] && Ascii("\r\n") == [H.CR, H.LF] && Ascii(" ") == [H.SPACE]
    ensures Ascii("?") == [Url.QUESTION] && Ascii("#") == [Url.HASH] && Ascii(":") == [Url.COLON]
  {}

  /** A header line in one piece. */
  lemma LineInOne(name: string, value: string)
    ensures Ascii(name + ": " + value + "\r\n") == HttpHeads.Line(Header(Ascii(name), Ascii(value)))
  {
    hide Ascii;
    Marks();
    AsciiJoined(name, ": ");
    AsciiJoined(name + ": ", value);
    AsciiJoined(name + ": " + value, "\r\n");
  }

  lemma {:induction false} HeaderLinesAre(hs: seq<Header>)
    ensures Handshake.HeaderLines(hs) == HttpHeads.Lines(hs)
    decreases |hs|
  {
    hide Ascii, HttpHeads.Line;
    if hs != [] {
      var front, h := hs[..|hs| - 1], hs[|hs| - 1];
      HeaderLinesAre(front);
      assert front + [h] == hs;
      LinesConcat(front, [h]);
      OneLine(h);
    }
  }

  lemma OneLine(h: Header)
    ensures HttpHeads.Lines([h]) == HttpHeads.Line(h) == Handshake.HeaderLine(h)
  {
    hide Ascii;
    Marks();
    assert [h][1..] == [] && HttpHeads.Line(h) + [] == HttpHeads.Line(h);
  }

  lemma VerbParts()
    ensures Ascii("GET ") == Ascii("GET") + [H.SPACE]
    ensures Ascii(" HTTP/1.1\r\n") == [H.SPACE] + Ascii("HTTP/1.1") + [H.CR, H.LF]
    ensures Ascii("Host: ") == Ascii("Host") + [H.COLON, H.SPACE]
    ensures Ascii("Sec-WebSocket-Key: ") == Ascii("Sec-WebSocket-Key") + [H.COLON, H.SPACE]
  {
    hide Ascii;
    Marks();
    AsciiJoined("GET", " ");
    AsciiJoined(" ", "HTTP/1.1");
    AsciiJoined(" " + "HTTP/1.1", "\r\n");
    assert " " + "HTTP/1.1" + "\r\n" == " HTTP/1.1\r\n";
    AsciiJoined("Host", ": ");
    AsciiJoined("Sec-WebSocket-Key", ": ");
    assert "GET" + " " == "GET " && "Host" + ": " == "Host: " && "Sec-WebSocket-Key" + ": " == "Sec-WebSocket-Key: ";
  }

  lemma FixedLines()
    ensures Ascii("Upgrade: websocket\r\n") == HttpHeads.Line(Header(Ascii("Upgrade"), Ascii("websocket")))
    ensures Ascii("Connection: upgrade\r\n") == HttpHeads.Line(Header(Ascii("Connection"), Ascii("upgrade")))
    ensures Ascii("Sec-WebSocket-Version: 13\r\n")
         == HttpHeads.Line(Header(Ascii("Sec-WebSocket-Version"), Ascii("13")))
  {
    hide Ascii, HttpHeads.Line;
    LineInOne("Upgrade", "websocket");
    LineInOne("Connection", "upgrade");
    LineInOne("Sec-WebSocket-Version", "13");
    assert "Upgrade" + ": " + "websocket" + "\r\n" == "Upgrade: websocket\r\n";
    assert "Connection" + ": " + "upgrade" + "\r\n" == "Connection: upgrade\r\n";
    assert "Sec-WebSocket-Version" + ": " + "13" + "\r\n" == "Sec-WebSocket-Version: 13\r\n";
  }

  lemma RequestLineIs(url: bytes, fields: Url.Fields)
    ensures RequestLine(url, fields)
         == Ascii("GET") + [H.SPACE] + Target(url, fields) + [H.SPACE] + Ascii("HTTP/1.1") + [H.CR, H.LF]
  {
    hide Ascii, TextOf;
    VerbParts();
    Marks();
  }

  lemma HostLineIs(url: bytes, fields: Url.Fields, port: nat)
    ensures HostLine(url, fields, port) == HttpHeads.Line(Header(Ascii("Host"), Authority(url, fields, port)))
  {
    hide Ascii, TextOf;
    VerbParts();
    Marks();
  }

  lemma KeyLinesAre(key: bytes)
    ensures KeyLines(key)
         == HttpHeads.Line(Header(Ascii("Upgrade"), Ascii("websocket")))
            + HttpHeads.Line(Header(Ascii("Connection"), Ascii("upgrade")))
            + HttpHeads.Line(Header(Ascii("Sec-WebSocket-Version"), Ascii("13")))
            + HttpHeads.Line(Header(Ascii("Sec-WebSocket-Key"), key))
  {
    FixedLines();
    KeyLineIs(key);
    hide Ascii, HttpHeads.Line;
  }

  lemma KeyLineIs(key: bytes)
    ensures Ascii("Sec-WebSocket-Key: ") + key + Ascii("\r\n")
      == HttpHeads.Line(Header(Ascii("Sec-WebSocket-Key"), key))
  {
    hide Ascii;
    VerbParts();
    Marks();
  }

  lemma LinesFive(a: Header, b: Header, c: Header, d: Header, e: Header, hs: seq<Header>)
    ensures HttpHeads.Lines([a, b, c, d, e] + hs)
         == HttpHeads.Line(a)
            + (HttpHeads.Line(b) + HttpHeads.Line(c) + HttpHeads.Line(d) + HttpHeads.Line(e))
            + HttpHeads.Lines(hs)
  {
    hide HttpHeads.Line;
    assert [a, b, c, d, e] + hs == [a] + ([b] + ([c] + ([d] + ([e] + hs))));
    LinesFront(a, [b] + ([c] + ([d] + ([e] + hs))));
    LinesFront(b, [c] + ([d] + ([e] + hs)));
    LinesFront(c, [d] + ([e] + hs));
    LinesFront(d, [e] + hs);
    LinesFront(e, hs);
  }

  lemma LinesFront(h: Header, hs: seq<Header>)
    ensures HttpHeads.Lines([h] + hs) == HttpHeads.Line(h) + HttpHeads.Lines(hs)
  {
    assert ([h] + hs)[1..] == hs;
  }

  /** The octets of a request, by line. */
  lemma RequestText(url: bytes, fields: Url.Fields, port: nat, key: bytes, extra: seq<Header>)
    ensures Request(url, fields, port, key, extra)
         == Ascii("GET") + [H.SPACE] + Target(url, fields) + [H.SPACE] + Ascii("HTTP/1.1") + [H.CR, H.LF]
            + (HttpHeads.Lines(Asking(Authority(url, fields, port), key, extra)) + [H.CR, H.LF])
  {
    hide Ascii, RequestLine, HostLine, KeyLines, HttpHeads.Lines, HttpHeads.Line, HeaderLines, Target, Authority;
    RequestLineIs(url, fields);
    HostLineIs(url, fields, port);
    KeyLinesAre(key);
    HeaderLinesAre(extra);
    Marks();
    var hs := Asking(Authority(url, fields, port), key, extra);
    LinesFive(hs[0], hs[1], hs[2], hs[3], hs[4], extra);
  }

  // ---- What is read ----

  /** The parser takes a name of such a length, or with such a first letter, for nothing about a body. */
  lemma SilentName(name: string, v: bytes)
    requires HttpHeads.IsWord(name) && HttpHeads.IsText(v)
    requires |name| < 14 || name[0] == 'S'
    ensures Silent(Header(Ascii(name), v))
  {
    HttpHeads.WordHeader(name, v);
    assert |HttpNames.CONTENT_LENGTH| == 14 && |HttpNames.TRANSFER_ENCODING| == 17;
    assert HttpNames.CONTENT_LENGTH[0] == 0x63 && HttpNames.TRANSFER_ENCODING[0] == 0x74;
    if name[0] == 'S' {
      assert HttpNames.Lowered(Ascii(name))[0] == 0x73;
    }
  }

  lemma AskingSilent(host: bytes, key: bytes, extra: seq<Header>)
    requires HttpHeads.IsText(host) && HttpHeads.IsText(key) && forall h :: h in extra ==> Silent(h)
    ensures forall h :: h in Asking(host, key, extra) ==> Silent(h)
  {
    hide Silent, HttpHeads.IsText;
    HttpHeads.WordText("websocket");
    HttpHeads.WordText("upgrade");
    HttpHeads.WordText("13");
    SilentName("Host", host);
    SilentName("Upgrade", Ascii("websocket"));
    SilentName("Connection", Ascii("upgrade"));
    SilentName("Sec-WebSocket-Version", Ascii("13"));
    SilentName("Sec-WebSocket-Key", key);
    hide Ascii;
  }

  /** Headers that say nothing about a body are read back, and the empty line ends the head. */
  lemma HeadersRead(hs: seq<Header>)
    requires (forall h :: h in hs ==> Silent(h)) && |HttpHeads.Lines(hs)| + 2 <= H.MAX_HEADER_SIZE
    ensures var r := H.Run(HEADERS, HttpHeads.Lines(hs) + [H.CR, H.LF]);
            && r.core.errno.Ok? && H.Over(r.seen) && r.taken == |HttpHeads.Lines(hs)| + 2
            && Completed(r.seen.head) == hs
  {
    hide H.Next, Silent, HttpHeads.Spelled, HttpNames.Ready, HttpNames.LineFlags, HttpHeads.Line, Alike;
    HeadersReady();
    SilentLines(HEADERS, hs);
    var r := H.Run(HEADERS, HttpHeads.Lines(hs));
    AlikeFlags(HttpNames.LineFlags(HEADERS), HttpNames.LineFlags(r));
    HttpRuns.RunConcat(HEADERS, HttpHeads.Lines(hs), [H.CR, H.LF]);
    HttpRuns.RunTaken(HEADERS, HttpHeads.Lines(hs));
    ReadyIs(r);
    HeadDone(r);
    assert [] + hs == hs;
  }

  lemma HeadersReady()
    ensures HttpNames.Ready(HEADERS) && HttpNames.LineFlags(HEADERS) == H.NO_FLAGS && HttpHeads.Spelled(HEADERS) == []
  {}

  lemma PrintableText(v: bytes)
    requires forall b :: b in v ==> Url.IsPrintable(b)
    ensures HttpHeads.IsText(v) && H.SPACE !in v && H.CR !in v
  {
    if v != [] {
      assert v[0] in v;
      assert forall b :: b in v[1..] ==> b in v;
    }
  }

  lemma PartPrintable(url: bytes, fields: Url.Fields, f: Url.Field)
    requires forall i :: 0 <= i < |url| ==> Url.IsPrintable(url[i])
    ensures forall b :: b in TextOf(url, fields, f) ==> Url.IsPrintable(b)
  {}

  lemma TargetPrintable(url: bytes, fields: Url.Fields, port: nat)
    requires Url.Parsed(url).Some?
    ensures forall b :: b in Target(url, fields) ==> Url.IsPrintable(b)
    ensures forall b :: b in Authority(url, fields, port) ==> Url.IsPrintable(b)
  {
    hide TextOf, Url.Parsed;
    Url.AcceptedPrintable(url);
    PartPrintable(url, fields, Url.Path);
    PartPrintable(url, fields, Url.Query);
    PartPrintable(url, fields, Url.Fragment);
    PartPrintable(url, fields, Url.Host);
    PartPrintable(url, fields, Url.Port);
  }

  lemma KeyText(nonce: bytes)
    ensures HttpHeads.IsText(Base64.Encode(nonce))
  {
    hide Base64.Sextet;
    var t := Base64.Encode(nonce);
    forall i | 0 <= i < |t| ensures 0x2b <= t[i] <= 0x7a {}
  }

  /**
   * Of any URL that is accepted, a server reads the request as it is meant: GET, the path with query
   * and fragment, version 1.1, then the headers that the handshake asks for and those of the
   * application in order, up to the empty line. The application's own headers may say nothing about a
   * body, and all headers together have at most as many octets as the parser reads.
   */
  lemma RequestRead(url: bytes, fields: Url.Fields, port: nat, nonce: bytes, extra: seq<Header>)
    requires Url.Parsed(url) == Some((fields, port)) && forall h :: h in extra ==> Silent(h)
    requires var hs := Asking(Authority(url, fields, port), Base64.Encode(nonce), extra);
             |HttpHeads.Lines(hs)| + 2 <= H.MAX_HEADER_SIZE
    ensures var hs := Asking(Authority(url, fields, port), Base64.Encode(nonce), extra);
            var r := Read(Request(url, fields, port, Base64.Encode(nonce), extra));
            && r.method_ == Ascii("GET") && r.target == Target(url, fields) && r.version == Ascii("HTTP/1.1")
            && r.head.core.errno.Ok? && H.Over(r.head.seen) && Completed(r.head.seen.head) == hs
  {
    hide Ascii, Request, Target, Authority, HttpHeads.Lines, Silent, Url.Parsed, H.Run, Base64.Encode, HttpHeads.IsText,
         Completed;
    var host, key := Authority(url, fields, port), Base64.Encode(nonce);
    var hs := Asking(host, key, extra);
    TargetPrintable(url, fields, port);
    PrintableText(Target(url, fields));
    PrintableText(host);
    KeyText(nonce);
    AskingSilent(host, key, extra);
    HeadersRead(hs);
    RequestText(url, fields, port, key, extra);
    VerbsPlain();
    ReadLine(Ascii("GET"), Target(url, fields), Ascii("HTTP/1.1"), HttpHeads.Lines(hs) + [H.CR, H.LF]);
  }

  lemma VerbsPlain()
    ensures H.SPACE !in Ascii("GET") && H.CR !in Ascii("GET") && H.CR !in Ascii("HTTP/1.1")
  {}

  // ---- Of a URL in parts ----

  lemma FieldsFound(url: bytes, at: Places, rest: Rest)
    requires IsServerUrl(url, at) && IsRest(url, rest) && rest.begin == at.ServerEnd() && Url.Parsed(url).Some?
    ensures at.ServerEnd() <= |url| && rest.path <= |url| && rest.QueryEnd() <= |url| && InTurn(at) && RestInTurn(rest)
    ensures at.Server() <= at.ServerEnd()
    ensures Url.Parsed(url).value.0 == FieldsOf(at, rest)
    ensures at.port.None? ==> Url.Parsed(url).value.1 == 0
  {
    hide Url.Parsed, Url.Decimal, FieldsOf, IsServerUrl, IsRest, InTurn, RestInTurn;
    PlacesInTurn(url, at, rest);
    PartsFound(url, at, rest);
  }

  lemma TextsFound(url: bytes, at: Places, rest: Rest)
    requires IsServerUrl(url, at) && IsRest(url, rest) && rest.begin == at.ServerEnd()
    ensures InTurn(at) && RestInTurn(rest) && at.Server() <= at.HostBegin() <= at.host <= at.ServerEnd() <= rest.path
    ensures rest.path <= rest.QueryEnd() <= rest.End() == |url| && (at.kind.Address? ==> at.HostBegin() + 2 < at.host)
    ensures at.port.Some? ==> at.host + 1 < at.port.value
    ensures var fields := FieldsOf(at, rest);
            && TextOf(url, fields, Url.Path) == url[rest.begin..rest.path]
            && TextOf(url, fields, Url.Query) == (if rest.query.Some? then url[rest.path + 1..rest.query.value] else [])
            && TextOf(url, fields, Url.Fragment)
            == (if rest.fragment.Some? then url[rest.QueryEnd() + 1..rest.fragment.value] else [])
            && TextOf(url, fields, Url.Host)
            == (if at.kind.Name? then url[at.HostBegin()..at.host] else url[at.HostBegin() + 1..at.host - 1])
            && (at.port.Some? ==> TextOf(url, fields, Url.Port) == url[at.host + 1..at.port.value])
  {
    hide FieldsOf, IsServerUrl, IsRest;
    PlacesInTurn(url, at, rest);
    FieldSpans(at, rest);
  }

  /**
   * Of a URL in parts the target is all that stands behind the server. It is a path, as a request
   * needs, exactly if the URL has one; and it has a fragment, which a request may not have, exactly if
   * the URL has one.
   */
  lemma TargetOf(url: bytes, at: Places, rest: Rest)
    requires IsServerUrl(url, at) && IsRest(url, rest) && rest.begin == at.ServerEnd() && Url.Parsed(url).Some?
    ensures at.ServerEnd() <= |url|
    ensures var target := Target(url, Url.Parsed(url).value.0);
            && target == url[at.ServerEnd()..]
            && (target != [] && target[0] == Url.SLASH <==> rest.begin < rest.path)
            && (Url.HASH in target <==> rest.fragment.Some?)
  {
    hide Url.Parsed, FieldsOf, IsServerUrl, TextOf;
    FieldsFound(url, at, rest);
    TextsFound(url, at, rest);
    hide IsRest;
    RestShape(url, rest);
    RestJoined(url, rest);
  }

  /** The mark in front of a query, and that in front of a fragment, which stands nowhere before. */
  lemma RestShape(url: bytes, rest: Rest)
    requires IsRest(url, rest)
    ensures rest.begin <= rest.path <= rest.QueryEnd() <= rest.End() == |url|
    ensures rest.begin < rest.path ==> url[rest.begin] == Url.SLASH
    ensures rest.query.Some? ==> rest.path + 1 < rest.QueryEnd() && url[rest.path] == Url.QUESTION
    ensures rest.fragment.Some? ==>
              rest.begin < rest.QueryEnd() && rest.QueryEnd() + 1 < |url| && url[rest.QueryEnd()] == Url.HASH
    ensures forall i :: rest.begin <= i < rest.QueryEnd() ==> url[i] != Url.HASH
    ensures rest.query.None? ==> rest.QueryEnd() == rest.path
    ensures rest.fragment.None? ==> rest.QueryEnd() == |url|
  {}

  lemma RestJoined(url: bytes, rest: Rest)
    requires rest.begin <= rest.path <= rest.QueryEnd() <= rest.End() == |url|
    requires rest.begin < rest.path ==> url[rest.begin] == Url.SLASH
    requires rest.query.Some? ==> rest.path + 1 < rest.QueryEnd() && url[rest.path] == Url.QUESTION
    requires rest.fragment.Some? ==>
               rest.begin < rest.QueryEnd() && rest.QueryEnd() + 1 < |url| && url[rest.QueryEnd()] == Url.HASH
    requires forall i :: rest.begin <= i < rest.QueryEnd() ==> url[i] != Url.HASH
    requires rest.query.None? ==> rest.QueryEnd() == rest.path
    requires rest.fragment.None? ==> rest.QueryEnd() == |url|
    ensures var query := if rest.query.Some? then url[rest.path + 1..rest.query.value] else [];
            var fragment := if rest.fragment.Some? then url[rest.QueryEnd() + 1..rest.fragment.value] else [];
            var target := url[rest.begin..rest.path] + (if query != [] then [Url.QUESTION] + query else [])
              + (if fragment != [] then [Url.HASH] + fragment else []);
            && target == url[rest.begin..]
            && (target != [] && target[0] == Url.SLASH <==> rest.begin < rest.path)
            && (Url.HASH in target <==> rest.fragment.Some?)
  {
    var t := url[rest.begin..];
    assert t == url[rest.begin..rest.path] + url[rest.path..rest.QueryEnd()] + url[rest.QueryEnd()..];
    assert rest.query.Some? ==> url[rest.path..rest.QueryEnd()] == [Url.QUESTION] + url[rest.path + 1..rest.QueryEnd()];
    assert rest.fragment.Some? ==> url[rest.QueryEnd()..] == [Url.HASH] + url[rest.QueryEnd() + 1..];
    if rest.fragment.Some? {
      assert t[rest.QueryEnd() - rest.begin] == Url.HASH;
    }
  }

  /**
   * The Host header names the server as the URL does, but for user information, exactly if the host is
   * a name and the port is not 0: an address loses its brackets, and port 0 is left out.
   */
  lemma HostOf(url: bytes, at: Places, rest: Rest)
    requires IsServerUrl(url, at) && IsRest(url, rest) && rest.begin == at.ServerEnd() && Url.Parsed(url).Some?
    ensures at.HostBegin() <= at.host <= at.ServerEnd() <= |url| && (at.kind.Address? ==> at.HostBegin() + 2 < at.host)
    ensures var (fields, port) := Url.Parsed(url).value;
            var host := Authority(url, fields, port);
            && host == (if at.kind.Name? then url[at.HostBegin()..at.host] else url[at.HostBegin() + 1..at.host - 1])
                       + (if port != 0 then url[at.host..at.ServerEnd()] else [])
            && (host == url[at.HostBegin()..at.ServerEnd()] <==> at.kind.Name? && (at.port.Some? ==> port != 0))
  {
    hide Url.Parsed, FieldsOf, IsRest, TextOf;
    FieldsFound(url, at, rest);
    TextsFound(url, at, rest);
    PlacesInTurn(url, at, rest);
    hide IsServerUrl;
    var port := Url.Parsed(url).value.1;
    if at.port.Some? {
      assert url[at.host..at.port.value] == [Url.COLON] + url[at.host + 1..at.port.value];
    }
    Restored(url, at.HostBegin(), at.host, at.ServerEnd(), at.kind.Name?, port != 0);
  }

  /** What is left of the text between `a` and `c` is all of it exactly if nothing is left out. */
  lemma Restored(s: bytes, a: nat, b: nat, c: nat, bare: bool, full: bool)
    requires a <= b <= c <= |s| && (!bare ==> a + 2 < b)
    ensures (if bare then s[a..b] else s[a + 1..b - 1]) + (if full then s[b..c] else []) == s[a..c]
            <==> bare && (b < c ==> full)
  {
    if bare && (b < c ==> full) {
      assert s[a..b] + s[b..c] == s[a..c];
    } else {
      assert |(if bare then s[a..b] else s[a + 1..b - 1]) + if full then s[b..c] else []| < c - a;
    }
  }
}
