// The opening handshake of a client (section 4.1 of RFC 6455), and the entry point for received octets.

module Handshake {
  import opened Octets
  import opened Options
  import opened Streams
  import opened Headers
  import opened Instance
  import opened Responses
  import opened Decisions
  import opened HttpTidy
  import H = Http
  import HeaderStrings
  import HttpHeads
  import HttpRuns
  import HttpExecute
  import R = Receiver
  import Frames
  import Lifecycle
  import TextSafety
  import Base64
  import Sha1
  import Sha1Context
  import Url

  /** The hash of a key, as the library computes it in two pieces. */
  method ServerHash(nonce: bytes) returns (hash: bytes)
    requires |nonce| < Sha1Context.WORD
    ensures hash == Sha1.Hash(nonce + GUID)
  {
    hide Ascii, Sha1.Hash;
    hash := HashOfTwo(nonce, GUID);
  }

  method HashOfTwo(front: bytes, back: bytes) returns (hash: bytes)
    requires |front| < Sha1Context.WORD && |back| < Sha1Context.WORD
    ensures hash == Sha1.Hash(front + back)
  {
    hide Sha1.Hash, Sha1.Digest, Sha1.PadAs, Sha1.Output, Sha1Context.Context.Valid;
    var ctx := new Sha1Context.Context();
    ctx.Update(front);
    assert [] + front == front;
    ctx.Update(back);
    hash := ctx.Finish();
  }

  // ---- The request ----

  function TextOf(buf: bytes, fields: Url.Fields, f: Url.Field): bytes {
    if f in fields && fields[f].End() <= |buf| then buf[fields[f].off..fields[f].End()] else []
  }

  function HeaderLine(h: Header): bytes {
    h.name + Ascii(": ") + h.value + Ascii("\r\n")
  }

  function HeaderLines(hs: seq<Header>): bytes {
    if hs == [] then [] else HeaderLines(hs[..|hs| - 1]) + HeaderLine(hs[|hs| - 1])
  }

  function Prefixed(prefix: string, part: bytes): bytes {
    if |part| > 0 then Ascii(prefix) + part else []
  }

  function RequestLine(url: bytes, fields: Url.Fields): bytes {
    Ascii("GET ") + TextOf(url, fields, Url.Path) + Prefixed("?", TextOf(url, fields, Url.Query))
      + Prefixed("#", TextOf(url, fields, Url.Fragment))
    + Ascii(" HTTP/1.1\r\n")
  }

  function HostLine(url: bytes, fields: Url.Fields, port: nat): bytes {
    Ascii("Host: ") + TextOf(url, fields, Url.Host)
      + (if port != 0 then Ascii(":") + TextOf(url, fields, Url.Port) else []) + Ascii("\r\n")
  }

  function KeyLines(key: bytes): bytes {
    Ascii("Upgrade: websocket\r\n") + Ascii("Connection: upgrade\r\n") + Ascii("Sec-WebSocket-Version: 13\r\n")
    + Ascii("Sec-WebSocket-Key: ") + key + Ascii("\r\n")
  }

  /** The request for the resource `url`, with a key and further headers. */
  function Request(url: bytes, fields: Url.Fields, port: nat, key: bytes, extra: seq<Header>): bytes {
    RequestLine(url, fields) + HostLine(url, fields, port) + KeyLines(key) + HeaderLines(extra) + Ascii("\r\n")
  }

  /** A stream holds `text`, unless it is too much for it. */
  ghost predicate Wrote(tx: Stream, text: bytes)
    reads tx, tx.buf
  {
    tx.Valid() && (tx.error <==> |text| > tx.size) && (!tx.error ==> tx.Contents() == text)
  }

  method Put(tx: Stream, data: bytes, ghost text: bytes)
    requires Wrote(tx, text)
    modifies tx, tx.buf
    ensures Wrote(tx, text + data)
  {
    var _ := tx.Write(data);
  }

  /** One part of the URL in the request line, behind its delimiter. */
  method PutPrefixed(tx: Stream, prefix: string, part: bytes, ghost text: bytes)
    requires Wrote(tx, text)
    modifies tx, tx.buf
    ensures Wrote(tx, text + Prefixed(prefix, part))
  {
    hide Ascii;
    if |part| > 0 {
      Put(tx, Ascii(prefix), text);
      Put(tx, part, text + Ascii(prefix));
      Associative(text, Ascii(prefix), part);
    } else {
      assert text + [] == text;
    }
  }

  method PutHeaders(tx: Stream, hs: seq<Header>, ghost text: bytes)
    requires Wrote(tx, text)
    modifies tx, tx.buf
    ensures Wrote(tx, text + HeaderLines(hs))
  {
    hide Ascii;
    assert text + [] == text;
    for i := 0 to |hs|
      invariant Wrote(tx, text + HeaderLines(hs[..i]))
    {
      ghost var t := text + HeaderLines(hs[..i]);
      Put(tx, hs[i].name, t);
      Put(tx, Ascii(": "), t + hs[i].name);
      Put(tx, hs[i].value, t + hs[i].name + Ascii(": "));
      Put(tx, Ascii("\r\n"), t + hs[i].name + Ascii(": ") + hs[i].value);
      assert hs[..i + 1][..i] == hs[..i];
      LineAdds(text, HeaderLines(hs[..i]), hs[i]);
    }
    assert hs[..|hs|] == hs;
  }

  lemma LineAdds(text: bytes, lines: bytes, h: Header)
    ensures text + lines + h.name + Ascii(": ") + h.value + Ascii("\r\n") == text + (lines + HeaderLine(h))
  {
    hide Ascii;
  }

  /** An instance in the client role: what the handshake needs, around what the open connection needs. */
  class Client {
    const wic: Wic
    const http: HttpExecute.Parser
    const url: bytes
    const extra: seq<Header>
    var hash: bytes
    var redirectUrl: Option<bytes>
    ghost var key: bytes

    // The response so far, whether the connection ended with it, and the headers read back of it.
    ghost var heard: bytes
    ghost var ended: bool
    ghost var stored: seq<Header>

    /** What the octet machine makes of all octets of the response, from its start on. */
    ghost function Response(): H.Machine
      reads `heard, `ended
    {
      var m := H.Run(HttpHeads.START, heard);
      if ended then H.AtEof(m) else m
    }

    /** What it makes of them and a further call. */
    ghost function Hearing(data: bytes): H.Machine
      reads `heard
    {
      if data == [] then H.AtEof(H.Run(HttpHeads.START, heard)) else H.Run(HttpHeads.START, heard + data)
    }

    /** The response so far is not over, and all octets belong to it. */
    ghost predicate Following()
      reads `heard, `ended
    {
      !ended && !H.Stopped(Response()) && Response().taken == |heard|
    }

    /** The parser is where the octet machine is after all octets of the response so far. */
    ghost predicate Tracking()
      reads `heard, `ended, http
    {
      !ended && !H.Stopped(Response()) && Response() == H.Machine(http.core, http.seen, |heard|)
    }

    /** So it is ready for more. */
    ghost predicate Waiting()
      reads `heard, `ended, http, http.headers, http.headers.s, http.headers.s.buf
    {
      Tracking() && http.Valid() && Listening(http.core, http.seen)
    }

    /** A complete response has been received that is accepted with the headers read back of it. */
    ghost predicate Answered()
      reads `heard, `ended, `stored, `key
    {
      var m := Response();
      && m.core.errno.Ok? && H.Over(m.seen) && m.taken == |heard|
      && Knowing(m, stored) && DecidedRight(m, stored) && Accepted(m.core, stored, key)
    }

    /** In every run, the parser follows all octets of the response; an open client has been answered. */
    ghost predicate Valid()
      reads this, wic, wic.rxs, wic.rxs.buf, http, http.headers, http.headers.s, http.headers.s.buf
    {
      && http.headers.s == wic.rxs && wic.Valid() && !wic.state.Ready? && |url| <= 0xffff
      && (wic.state.Init? ==> heard == [])
      && (wic.state.Init? || wic.state.ParseHandshake? ==> Waiting() && Fresh())
      && (wic.state.Open? ==> Answered())
      && (wic.state.ParseHandshake? ==> Lifecycle.Quiet(wic.log) && |hash| == 20 && hash == Sha1.Hash(key + GUID))
    }

    /** No frame has been received. */
    ghost predicate Fresh()
      requires wic.rxs.Valid()
      reads wic, wic.rxs, wic.rxs.buf
    {
      wic.RxView() == R.InitialRx.(buf := wic.rxs.Contents())
    }

    /**
     * A client for `url` that adds the headers `extra` to its request. Nothing is assumed of what
     * memory holds `beyond` the receive buffer.
     */
    constructor (rx: array<byte>, beyond: bytes, host: Host, url: bytes, extra: seq<Header>)
      requires 0 < rx.Length < 0x1_0000 && |url| <= 0xffff
      ensures Valid() && wic.state.Init? && wic.log == [] && wic.sent == []
      ensures this.url == url && this.extra == extra && fresh(wic) && fresh(wic.rxs) && wic.rxs.buf == rx
    {
      hide Frames.EncodeFrame, Sender.Wire, Sender.Legal, Wic.SendValid, Sha1.Hash, Flatten, R.Valid, Answered, Knowing,
           DecidedRight, Store.Valid, H.Valid, Completed, TextSafety.Tracks;
      var w := new Wic(rx, host);
      var headers := new Store(w.rxs, beyond);
      wic := w;
      http := new HttpExecute.Parser(headers);
      this.url, this.extra := url, extra;
      hash, redirectUrl, key := [], None, [];
      heard, ended, stored := [], false, [];
    }

    /** A transmit buffer for the request: of `room` octets, if the host has one. */
    method OnHttpBuffer(room: Option<nat>) returns (buf: array?<byte>, max: nat)
      ensures buf != null <==> room.Some?
      ensures buf != null ==> fresh(buf) && buf.Length >= max == room.value
    {
      buf, max := null, 0;
      if room.Some? {
        max := room.value;
        buf := new byte[max](_ => 0);
      }
    }

    /**
     * Sends the request, with a key of 16 random octets in base64, and remembers the hash that the
     * server must know. If the request does not go out nothing has begun. The host answers with a
     * buffer of `room` octets or with none, and draws the `nonce`.
     */
    method Start(room: Option<nat>, nonce: bytes) returns (r: Status, octets: bytes)
      requires Valid() && |nonce| == 16
      modifies `hash, `key, wic`state
      ensures Valid()
      ensures wic.state == if r.Success? then ParseHandshake else old(wic.state)
      ensures r.BadState? <==> !old(wic.state.Init?)
      ensures r.BadInput? <==> old(wic.state.Init?) && Url.Parsed(url).None?
      ensures r.WouldBlock? <==> old(wic.state.Init?) && Url.Parsed(url).Some? && room.None?
      ensures r.TooLarge? <==>
                && old(wic.state.Init?) && Url.Parsed(url).Some? && room.Some?
                && |Request(url, Url.Parsed(url).value.0, Url.Parsed(url).value.1, Base64.Encode(nonce), extra)|
                   > room.value
      ensures !r.NotOpen?
      ensures r.Success? ==>
                && Url.Parsed(url).Some? && key == Base64.Encode(nonce)
                && octets == Request(url, Url.Parsed(url).value.0, Url.Parsed(url).value.1, key, extra)
    {
      hide Frames.EncodeFrame, Sender.Wire, Sender.Legal, R.Valid, Request, H.Valid, Tidy, Url.Parsed, Sha1.Hash,
           Base64.Encode, TextSafety.Tracks, Ascii, Wic.SendValid, Wic.ReceiveValid, Wic.Valid, Tracking, Answered,
           Listening;
      octets := [];
      if !wic.state.Init? {
        return BadState, octets;
      }
      var ok, fields, port := Url.ParseUrl(url);
      if !ok {
        return BadInput, octets;
      }
      r, octets := WriteRequest(fields, port, room, nonce);
      if r.Success? {
        wic.BeginHandshake();
      }
    }

    /** Fills a buffer of the host with the request, if there is one and the request fits it. */
    method WriteRequest(fields: Url.Fields, port: nat, room: Option<nat>, nonce: bytes)
      returns (r: Status, octets: bytes)
      requires |nonce| == 16
      modifies `hash, `key
      ensures r.WouldBlock? <==> room.None?
      ensures r.TooLarge? <==> room.Some? && |Request(url, fields, port, Base64.Encode(nonce), extra)| > room.value
      ensures r.Success? || r.TooLarge? || r.WouldBlock?
      ensures r.Success? ==> octets == Request(url, fields, port, key, extra) && key == Base64.Encode(nonce)
      ensures r.Success? ==> |hash| == 20 && hash == Sha1.Hash(key + GUID)
    {
      hide Request, Sha1.Hash, Base64.Encode, Ascii;
      octets := [];
      var buf, max := OnHttpBuffer(room);
      if buf == null {
        return WouldBlock, octets;
      }
      var tx := new Stream(buf, max);
      var text := NewKey(nonce);
      PutRequest(tx, fields, port, text);
      if tx.error {
        return TooLarge, octets;
      }
      octets := buf[..tx.pos];
      return Success, octets;
    }

    /** The key that goes out, and the hash for its answer. */
    method NewKey(nonce: bytes) returns (text: bytes)
      requires |nonce| == 16
      modifies `hash, `key
      ensures text == key == Base64.Encode(nonce) && |hash| == 20 && hash == Sha1.Hash(key + GUID)
    {
      hide Sha1.Hash, Ascii;
      var b64 := new byte[24];
      var n := Base64.EncodeInto(nonce, b64);
      text := b64[..24];
      hash := ServerHash(text);
      key := text;
    }

    method PutRequest(tx: Stream, fields: Url.Fields, port: nat, text: bytes)
      requires Wrote(tx, [])
      modifies tx, tx.buf
      ensures Wrote(tx, Request(url, fields, port, text, extra))
    {
      hide Ascii, HeaderLines, RequestLine, HostLine, KeyLines;
      PutRequestLine(tx, fields, []);
      ghost var t := RequestLine(url, fields);
      assert [] + t == t;
      PutHostLine(tx, fields, port, t);
      t := t + HostLine(url, fields, port);
      PutKeyLines(tx, text, t);
      t := t + KeyLines(text);
      PutHeaders(tx, extra, t);
      t := t + HeaderLines(extra);
      Put(tx, Ascii("\r\n"), t);
    }

    method PutRequestLine(tx: Stream, fields: Url.Fields, ghost before: bytes)
      requires Wrote(tx, before)
      modifies tx, tx.buf
      ensures Wrote(tx, before + RequestLine(url, fields))
    {
      hide Ascii, TextOf, Prefixed;
      ghost var t := Ascii("GET ");
      Put(tx, Ascii("GET "), before);
      Put(tx, TextOf(url, fields, Url.Path), before + t);
      Associative(before, t, TextOf(url, fields, Url.Path));
      t := t + TextOf(url, fields, Url.Path);
      PutPrefixed(tx, "?", TextOf(url, fields, Url.Query), before + t);
      Associative(before, t, Prefixed("?", TextOf(url, fields, Url.Query)));
      t := t + Prefixed("?", TextOf(url, fields, Url.Query));
      PutPrefixed(tx, "#", TextOf(url, fields, Url.Fragment), before + t);
      Associative(before, t, Prefixed("#", TextOf(url, fields, Url.Fragment)));
      t := t + Prefixed("#", TextOf(url, fields, Url.Fragment));
      Put(tx, Ascii(" HTTP/1.1\r\n"), before + t);
      Associative(before, t, Ascii(" HTTP/1.1\r\n"));
    }

    method PutHostLine(tx: Stream, fields: Url.Fields, port: nat, ghost before: bytes)
      requires Wrote(tx, before)
      modifies tx, tx.buf
      ensures Wrote(tx, before + HostLine(url, fields, port))
    {
      hide Ascii, TextOf;
      Put(tx, Ascii("Host: "), before);
      Put(tx, TextOf(url, fields, Url.Host), before + Ascii("Host: "));
      ghost var t := Ascii("Host: ") + TextOf(url, fields, Url.Host);
      Associative(before, Ascii("Host: "), TextOf(url, fields, Url.Host));
      ghost var portText := if port != 0 then Ascii(":") + TextOf(url, fields, Url.Port) else [];
      if port != 0 {
        Put(tx, Ascii(":"), before + t);
        Put(tx, TextOf(url, fields, Url.Port), before + t + Ascii(":"));
        Associative(before + t, Ascii(":"), TextOf(url, fields, Url.Port));
      } else {
        assert before + t + [] == before + t;
      }
      Associative(before, t, portText);
      Put(tx, Ascii("\r\n"), before + (t + portText));
      Associative(before, t + portText, Ascii("\r\n"));
    }

    method PutKeyLines(tx: Stream, text: bytes, ghost before: bytes)
      requires Wrote(tx, before)
      modifies tx, tx.buf
      ensures Wrote(tx, before + KeyLines(text))
    {
      hide Ascii;
      ghost var t := Ascii("Upgrade: websocket\r\n");
      Put(tx, Ascii("Upgrade: websocket\r\n"), before);
      Put(tx, Ascii("Connection: upgrade\r\n"), before + t);
      Associative(before, t, Ascii("Connection: upgrade\r\n"));
      t := t + Ascii("Connection: upgrade\r\n");
      Put(tx, Ascii("Sec-WebSocket-Version: 13\r\n"), before + t);
      Associative(before, t, Ascii("Sec-WebSocket-Version: 13\r\n"));
      t := t + Ascii("Sec-WebSocket-Version: 13\r\n");
      Put(tx, Ascii("Sec-WebSocket-Key: "), before + t);
      Associative(before, t, Ascii("Sec-WebSocket-Key: "));
      t := t + Ascii("Sec-WebSocket-Key: ");
      Put(tx, text, before + t);
      Associative(before, t, text);
      t := t + text;
      Put(tx, Ascii("\r\n"), before + t);
      Associative(before, t, Ascii("\r\n"));
    }

    /** What the parser makes of the octets of one call. */
    ghost function Heard(data: bytes): H.Machine
      reads http
    {
      var m := H.Machine(http.core, http.seen, 0);
      if data == [] then H.AtEof(m) else H.Run(m, data)
    }

    /** The response is complete: whether it is to be refused, by the headers as memory holds them. */
    method OnResponseComplete() returns (refused: bool)
      requires http.headers.s == wic.rxs && http.headers.Valid() && !http.headers.state.InField?
      requires |hash| == 20 && hash == Sha1.Hash(key + GUID)
      requires wic.Valid() && wic.state.ParseHandshake? && wic.rxState.OpcodeOctet?
      modifies `redirectUrl, `stored, wic`state, http.headers`writes, wic.rxs, wic.rxs.buf
      ensures wic.Valid() && wic.state.Ready?
      ensures ReadBack(Completed(http.headers.progress), wic.rxs.size, stored)
      ensures refused <==> !Accepted(http.core, stored, key)
      ensures redirectUrl == if http.core.status in {300, 301, 302, 303, 304, 307}
        then Lookup(stored, Ascii("location")) else old(redirectUrl)
    {
      hide Sha1.Hash, Base64.Encode, SameIgnoringCase, Ascii, Flatten, Completed, CString, Lookup, Stored,
           Frames.EncodeFrame, Sender.Wire, Sender.Legal, R.Valid, TextSafety.Tracks, Lifecycle.Quiet, Wic.SendValid,
           Wic.ReceiveValid, Wic.Valid, StringAt;
      http.headers.Finish();
      wic.BufferFree();
      wic.BecomeReady();
      WordsTidy();
      LocationTidy();
      stored := http.headers.Strings();
      refused := true;
      if http.core.status != 101 {
        if http.core.status in {300, 301, 302, 303, 304, 307} {
          redirectUrl := HeaderValue("location");
        }
        return;
      }
      if !http.core.upgrade {
        return;
      }
      var same := UpgradesTo("websocket");
      if !same {
        return;
      }
      var accept := HeaderValue("Sec-WebSocket-Accept");
      if accept.None? {
        return;
      }
      var b64 := new byte[29];
      var n := Base64.EncodeInto(hash, b64);
      b64[28] := 0;
      refused := accept.value != b64[..28];
    }

    lemma LocationTidy()
      ensures NulFree(Ascii("location"))
    {
      AsciiNulFree("location");
    }

    /** The place of a stored value, while headers may be asked for. */
    method GetHeader(name: bytes) returns (at: Option<nat>)
      requires NulFree(name)
      ensures at.Some? <==> wic.state.Ready? && Lookup(http.headers.Strings(), name).Some?
      ensures at.Some? ==> StringAt(http.headers.Memory(), at.value) == Lookup(http.headers.Strings(), name).value
    {
      hide Lookup, Stored, StringAt;
      at := None;
      if wic.state.Ready? {
        at := http.headers.Get(name);
      }
    }

    method HeaderValue(name: string) returns (r: Option<bytes>)
      requires NulFree(Ascii(name)) && wic.state.Ready?
      ensures r == Lookup(http.headers.Strings(), Ascii(name))
    {
      hide Ascii, Lookup, Stored, StringAt;
      var at := GetHeader(Ascii(name));
      r := None;
      if at.Some? {
        var value := http.headers.Read(at.value);
        r := Some(value);
      }
    }

    /** Whether there is an upgrade header with this value, letters without case. */
    method UpgradesTo(protocol: string) returns (same: bool)
      requires NulFree(Ascii(protocol)) && NulFree(Ascii("upgrade")) && wic.state.Ready?
      ensures var u := Lookup(http.headers.Strings(), Ascii("upgrade"));
              same <==> u.Some? && SameIgnoringCase(u.value, Ascii(protocol))
    {
      hide Ascii, Lookup, Stored, StringAt, SameIgnoringCase;
      var at := GetHeader(Ascii("upgrade"));
      same := false;
      if at.Some? {
        same := http.headers.StrEqual(at.value, Ascii(protocol));
      }
    }

    /** The failure that the host is told, if the response is refused. */
    ghost function Failure(m: H.Machine): R.HandshakeFailure {
      if m.core.errno.Ok? then R.Upgrade else R.Protocol
    }

    /** The response is wrong, or is over and not to be accepted with the headers `hs`. */
    ghost predicate Refuses(m: H.Machine, hs: seq<Header>)
      reads `key
    {
      !m.core.errno.Ok? || (H.Over(m.seen) && !Accepted(m.core, hs, key))
    }

    /** What the library knows of the headers of a response that is over. */
    ghost predicate Knowing(m: H.Machine, stored: seq<Header>)
    {
      m.core.errno.Ok? && H.Over(m.seen) ==>
        && ReadBack(Completed(m.seen.head), wic.rxs.size, stored)
        && forall h :: h in Completed(m.seen.head) ==> TidyHeader(h)
    }

    /** A head that settles the decision in time is decided on as its headers say. */
    lemma Decided(m: H.Machine, stored: seq<Header>)
      requires Knowing(m, stored)
      ensures DecidedRight(m, stored)
    {
      hide Flatten, HeaderStrings.Plain, SettledInTime, Accepted, ReadBack, Completed, TidyHeader;
      var hs := Completed(m.seen.head);
      if m.core.errno.Ok? && H.Over(m.seen) && SettledInTime(hs, wic.rxs.size, key) {
        ReadBackRight(hs, wic.rxs.size, stored, key);
      }
    }

    ghost predicate DecidedRight(m: H.Machine, stored: seq<Header>)
      reads `key
    {
      var hs := Completed(m.seen.head);
      SettledInTime(hs, wic.rxs.size, key) ==> (Refuses(m, stored) <==> Refuses(m, hs))
    }

    /** What a call adds to the response: up to the end of it, if it ends in this call. */
    ghost function Added(data: bytes): bytes
      reads `heard
    {
      var m := Hearing(data);
      if m.core.errno.Ok? && H.Over(m.seen) && |heard| <= m.taken <= |heard + data| then data[..m.taken - |heard|]
      else data
    }

    /** One call's octets of the response: how many belong to it, and whether it is complete but not accepted. */
    method Hear(data: bytes) returns (taken: nat, refused: bool)
      requires Valid() && wic.state.ParseHandshake?
      modifies `redirectUrl, `stored, wic`state, wic.rxs, wic.rxs.buf, http, http.headers
      ensures wic.Valid() && (wic.state.ParseHandshake? || wic.state.Ready?) && taken <= |data|
      ensures var m := Hearing(data);
              && Knowing(m, stored)
              && (http.core.errno.Ok? <==> !Refuses(m, stored))
              && (refused <==> m.core.errno.Ok? && Refuses(m, stored))
              && (http.core.errno.Ok? && H.Over(m.seen) ==> wic.state.Ready? && |heard| + taken == m.taken)
              && (http.core.errno.Ok? && !H.Over(m.seen) ==>
                    && wic.state.ParseHandshake? && http.Valid() && Listening(http.core, http.seen)
                    && m == H.Machine(http.core, http.seen, |heard + data|))
      ensures wic.RxView() == old(wic.RxView()).(buf := wic.rxs.Contents())
    {
      hide Frames.EncodeFrame, Sender.Wire, Sender.Legal, R.Valid, H.Valid, Tidy, Sha1.Hash, TextSafety.Tracks, Ascii,
           Accepted, H.Run, H.AtEof, Lifecycle.Quiet, Completed, Flatten, Answered, DecidedRight, ReadBack, TidyHeader;
      HeardTidy(data);
      HeardFrom(data);
      ghost var m := Heard(data);
      refused := false;
      var n, due := http.Execute(data);
      taken := if n <= |data| then n else 0;
      wic.BufferFree();
      if due {
        refused := OnResponseComplete();
        if refused {
          http.core := http.core.(errno := H.MessageCompleteRefused);
        }
      }
    }

    /** The octets of one call become part of the response. */
    ghost method Note(data: bytes)
      requires Following()
      modifies `heard, `ended
      ensures heard == old(heard + Added(data))
      ensures var m := old(Hearing(data));
              && (m.core.errno.Ok? ==> Response() == m)
              && (m.core.errno.Ok? && H.Over(m.seen) ==> |heard| == m.taken)
              && (!H.Stopped(m) ==> !ended && |heard| == |old(heard) + data|)
    {
      hide H.Run, H.AtEof, H.Over;
      HearingLater(data);
      ghost var m := Hearing(data);
      heard, ended := heard + Added(data), data == [] && H.Over(m.seen);
    }

    /** One call's octets of the response; `taken` of them belong to it. No message is offered to the host. */
    method ParseHead(data: bytes, onOpen: Reaction) returns (taken: nat)
      requires Valid() && wic.state.ParseHandshake? && onOpen.Stays?
      modifies `redirectUrl, `stored, `heard, `ended, wic, wic.rxs, wic.rxs.buf, http, http.headers
      ensures Valid() && taken <= |data| && heard == old(heard + Added(data)) && wic.OffersNothing()
      ensures var m := old(Hearing(data));
              && Knowing(m, stored) && DecidedRight(m, stored)
              && if Refuses(m, stored) then
                && wic.state.Closed?
                && wic.log == old(wic.log) + [R.TransportClosed, R.HandshakeFailed(Failure(m))]
              else if H.Over(m.seen) then
                && wic.state.Open? && |heard| == m.taken == |old(heard)| + taken
                && wic.log == old(wic.log) + [R.Opened]
                && wic.RxView() == R.InitialRx.(buf := wic.rxs.Contents())
              else wic.state.ParseHandshake? && wic.log == old(wic.log)
    {
      hide Frames.EncodeFrame, Sender.Wire, Sender.Legal, R.Valid, H.Valid, Tidy, Sha1.Hash, TextSafety.Tracks, Ascii,
           Accepted, H.Run, H.AtEof, Lifecycle.Quiet, Completed, Flatten, Heard, Hearing, Knowing, DecidedRight,
           Wic.SendValid, Wic.ReceiveValid, Wic.Valid, H.Over, Added, Response, Listening, HttpExecute.Parser.Valid,
           Waiting, Answered, R.Run;
      var refused;
      ghost var m := Hearing(data);
      StillWaits();
      taken, refused := Hear(data);
      Decided(m, stored);
      Note(data);
      if m.core.errno.Ok? {
        NowKnown(m);
      }
      Tell(refused, onOpen);
    }

    /** The host is told of a failure, or of the opening. */
    method Tell(refused: bool, onOpen: Reaction)
      requires http.headers.s == wic.rxs && wic.Valid() && (wic.state.ParseHandshake? || wic.state.Ready?)
      requires Lifecycle.Quiet(wic.log) && onOpen.Stays? && |url| <= 0xffff && Fresh()
      requires http.core.errno.Ok? && wic.state.Ready? ==> Answered()
      requires http.core.errno.Ok? && wic.state.ParseHandshake? ==>
                 Waiting() && |hash| == 20 && hash == Sha1.Hash(key + GUID)
      modifies wic
      ensures Valid() && wic.OffersNothing()
      ensures if !http.core.errno.Ok? then
                && wic.state.Closed?
                && wic.log
                == old(wic.log) + [R.TransportClosed, R.HandshakeFailed(if refused then R.Upgrade else R.Protocol)]
              else if old(wic.state.Ready?) then
                && wic.state.Open? && wic.log == old(wic.log) + [R.Opened] && wic.RxView() == old(wic.RxView())
              else unchanged(wic)
    {
      hide Frames.EncodeFrame, Sender.Wire, Sender.Legal, R.Valid, H.Valid, Sha1.Hash, TextSafety.Tracks, Ascii,
           H.Run, Lifecycle.Quiet, Wic.SendValid, Wic.ReceiveValid, Wic.Valid, Waiting, Answered, R.Run;
      if !http.core.errno.Ok? {
        wic.Refuse(if refused then R.Upgrade else R.Protocol);
      } else if wic.state.Ready? {
        wic.Establish(onOpen);
      }
    }

    lemma StillWaits()
      requires Waiting()
      ensures Following()
    {
      hide H.Run;
    }

    /** What the octet machine finds in a response makes of the client. */
    lemma NowKnown(m: H.Machine)
      requires Response() == m && m.core.errno.Ok?
      ensures H.Over(m.seen) ==>
                |heard| == m.taken && Knowing(m, stored) && DecidedRight(m, stored) && !Refuses(m, stored)
                ==> Answered()
      ensures !ended && !H.Over(m.seen) ==>
                m == H.Machine(http.core, http.seen, |heard|) && http.Valid() && Listening(http.core, http.seen) ==>
                Waiting()
    {
      hide H.Run, H.AtEof, Knowing, DecidedRight, Accepted, Listening, HttpExecute.Parser.Valid;
    }

    /** The octets behind the response have been read as frames, by an instance that had received none. */
    ghost predicate OpenedOn(log: seq<R.Event>, data: bytes, r: Reaction)
      reads wic, wic.rxs, wic.rxs.buf
    {
      && wic.rxs.Valid() && (wic.state.Open? || wic.state.Closed?)
      && exists buf :: wic.Reached(R.Conn.Open(R.InitialRx.(buf := buf), log + [R.Opened]), data, r)
    }

    /**
     * What a call has made of the response, of which `start` octets had come before: it has failed,
     * or is over and accepted with frames right behind it, or is not over.
     */
    ghost predicate Outcome(m: H.Machine, start: nat, log: seq<R.Event>, data: bytes, used: nat, r: Reaction)
      requires used <= |data|
      reads `key, `heard, `stored, wic, wic.rxs, wic.rxs.buf
    {
      && Knowing(m, stored) && DecidedRight(m, stored)
      && if Refuses(m, stored) then
        && wic.state.Closed? && r.Stays?
        && wic.log == log + [R.TransportClosed, R.HandshakeFailed(Failure(m))]
      else if H.Over(m.seen) then
        && start <= |heard| == m.taken <= start + used
        && OpenedOn(log, data[m.taken - start..used], r)
      else wic.state.ParseHandshake? && wic.log == log && r.Stays?
    }

    /**
     * Octets received from the transport. Returns how many need not be presented again: all of
     * them, unless the connection is open and something is owed to its host.
     */
    method Parse(data: bytes, onOpen: Reaction) returns (n: nat, ghost used: nat, ghost r: Reaction)
      requires Valid() && onOpen.Stays?
      modifies `redirectUrl, `stored, `heard, `ended, wic, wic.rxs, wic.rxs.buf, http, http.headers
      ensures Valid() && used <= |data| && n == if wic.state.Open? then used else |data|
      ensures wic.rxs.Valid() && wic.Consulted(true, r)
      ensures wic.state.Open? && !R.Pending(wic.Cfg(), wic.Model()) ==> used == |data|
      ensures wic.state.Rank() >= old(wic.state.Rank())
      ensures heard == old(heard) + if old(wic.state.ParseHandshake?) then old(Added(data)) else []
      ensures !old(wic.state.ParseHandshake?) ==> stored == old(stored)
      ensures old(wic.state.Open?) ==> wic.Reached(old(wic.Model()), data[..used], r)
      ensures old(wic.state.ParseHandshake?) ==>
                Outcome(old(Hearing(data)), |old(heard)|, old(wic.log), data, used, r)
      ensures old(wic.state.Init? || wic.state.Closed?) ==> unchanged(wic, wic.rxs, wic.rxs.buf)
    {
      hide Frames.EncodeFrame, Sender.Wire, Sender.Legal, R.Valid, H.Valid, Tidy, Sha1.Hash, TextSafety.Tracks, Ascii,
           Accepted, H.Run, H.AtEof, Lifecycle.Quiet, Completed, Flatten, Heard, Hearing, Refuses, Knowing, Added,
           Wic.SendValid, Wic.ReceiveValid, Wic.Valid, H.Over, Wic.Reached, DecidedRight, Waiting, Answered,
           R.After, R.Run, R.Pending, H.Stopped, Outcome, OpenedOn;
      var s := new Input(data);
      r := Stays;
      if wic.state.ParseHandshake? {
        var taken := ParseHead(data, onOpen);
        var _ := s.Seek(taken);
      } else {
        assert heard + [] == heard;
      }
      if wic.state.Open? {
        WicHolds();
        ghost var buf, at := wic.rxs.Contents(), s.pos;
        ghost var before, asked := wic.Model(), wic.asked;
        r := ReadFrames(s);
        NoPongThen(wic.host, old(wic.asked), asked, wic.asked);
        assert data[..s.pos] == data[0..s.pos];
        if old(wic.state.ParseHandshake?) {
          OpenedBehind(old(Hearing(data)), |old(heard)|, old(wic.log), data, at, s.pos, r, buf);
        }
      } else {
        NothingRead();
        if old(wic.state.ParseHandshake?) {
          NotOpened(old(Hearing(data)), |old(heard)|, old(wic.log), data, s.pos, r);
        }
        NoPongThen(wic.host, old(wic.asked), wic.asked, wic.asked);
      }
      used := s.pos;
      n := if wic.state.Open? then s.pos else |data|;
    }

    lemma OpenedBehind(m: H.Machine, start: nat, log: seq<R.Event>, data: bytes, at: nat, used: nat, r: Reaction,
        buf: bytes)
      requires at <= used <= |data| && Knowing(m, stored) && DecidedRight(m, stored)
      requires !Refuses(m, stored) && H.Over(m.seen) && |heard| == m.taken == start + at
      requires wic.rxs.Valid() && (wic.state.Open? || wic.state.Closed?)
      requires wic.Reached(R.Conn.Open(R.InitialRx.(buf := buf), log + [R.Opened]), data[at..used], r)
      ensures Outcome(m, start, log, data, used, r)
    {
      hide H.Run, Knowing, DecidedRight, Refuses, H.Over, Wic.Reached;
    }

    lemma NotOpened(m: H.Machine, start: nat, log: seq<R.Event>, data: bytes, used: nat, r: Reaction)
      requires used <= |data| && Knowing(m, stored) && DecidedRight(m, stored)
      requires if Refuses(m, stored) then
                 wic.state.Closed? && wic.log == log + [R.TransportClosed, R.HandshakeFailed(Failure(m))]
               else !H.Over(m.seen) && wic.state.ParseHandshake? && wic.log == log
      requires r.Stays?
      ensures Outcome(m, start, log, data, used, r)
    {
      hide H.Run, Knowing, DecidedRight, Refuses, H.Over;
    }

    /** The frames behind the response. */
    method ReadFrames(s: Input) returns (ghost r: Reaction)
      requires Valid() && wic.state.Open? && s.Valid() && !s.error
      modifies wic, wic.rxs, wic.rxs.buf, s
      ensures Valid() && s.Valid() && (wic.state.Open? || wic.state.Closed?) && old(s.pos) <= s.pos
      ensures wic.rxs.Valid() && wic.Consulted(true, r)
      ensures wic.Reached(old(wic.Model()), s.data[old(s.pos)..s.pos], r)
      ensures wic.state.Open? && !R.Pending(wic.Cfg(), wic.Model()) ==> s.pos == |s.data|
    {
      hide Frames.EncodeFrame, Sender.Wire, Sender.Legal, R.Valid, H.Valid, Tidy, Sha1.Hash, TextSafety.Tracks, Ascii,
           Accepted, H.Run, H.AtEof, Lifecycle.Quiet, Completed, Flatten, Wic.SendValid, Wic.ReceiveValid, Wic.Valid,
           H.Over, Wic.Reached, Waiting, Answered;
      WicHolds();
      r := wic.ParseFrames(s);
      WicHolds();
    }

    /** Before the connection is open, and behind its end, no delivery is owed. */
    lemma NothingRead()
      requires Valid() && !wic.state.Open?
      ensures wic.rxs.Valid() && !R.Pending(wic.Cfg(), wic.Model())
    {}

    /** The octets of one call, from where the parser stands, are those of the response from its start on. */
    lemma HeardFrom(data: bytes)
      requires Tracking()
      ensures var h, m := Heard(data), Hearing(data);
              && m == h.(taken := m.taken) && m.taken == |heard| + h.taken
              && (!H.Stopped(m) ==> m.taken == |heard + data|)
    {
      hide H.Run;
      var m := H.Run(HttpHeads.START, heard);
      EofStays(m);
      HttpRuns.RunConcat(HttpHeads.START, heard, data);
      HttpRuns.RunFrom(m, data, 0);
      HttpRuns.RunTaken(m, data);
    }

    /** What the response is known as later on. */
    lemma HearingLater(data: bytes)
      requires Following()
      ensures var m, later := Hearing(data), heard + Added(data);
              && (m.core.errno.Ok? && H.Over(m.seen) ==> |later| == m.taken)
              && (m.core.errno.Ok? && H.Over(m.seen) && data != [] ==> H.Run(HttpHeads.START, later) == m)
              && (m.core.errno.Ok? && H.Over(m.seen) && data == [] ==> H.AtEof(H.Run(HttpHeads.START, later)) == m)
              && (!H.Stopped(m) ==> H.Run(HttpHeads.START, later) == m && Added(data) == data)
    {
      hide H.Run, H.Over, H.AtEof;
      var m := Hearing(data);
      assert heard + [] == heard;
      EofStays(H.Run(HttpHeads.START, heard));
      if data != [] && m.core.errno.Ok? {
        HttpRuns.RunConcat(HttpHeads.START, heard, data);
        HttpRuns.RunTaken(H.Run(HttpHeads.START, heard), data);
        HttpRuns.RunOfTaken(HttpHeads.START, heard + data);
        if H.Over(m.seen) {
          assert (heard + data)[..m.taken] == heard + data[..m.taken - |heard|];
        }
      }
    }

    lemma WicHolds()
      requires wic.Valid()
      ensures wic.rxs.Valid()
    {}

    lemma HeardTidy(data: bytes)
      requires http.Valid() && Listening(http.core, http.seen)
      ensures var m := Heard(data);
              && H.Valid(m) && Tidy(m) && m.taken <= |data|
              && Tidy(H.Machine(m.core, m.seen, 0))
              && (m.core.errno.Ok? && H.Over(m.seen) ==> !m.seen.head.part.Name?)
              && forall h :: h in Completed(m.seen.head) ==> TidyHeader(h)
    {
      hide H.Run, H.Valid, Completed, TidyHeader;
      var start := H.Machine(http.core, http.seen, 0);
      if data == [] {
        EofTidy(start);
      } else {
        RunTidy(start, data);
        HttpRuns.RunTaken(start, data);
      }
      TidyAnywhere(Heard(data));
      CompletedTidy(Heard(data));
    }
  }

  lemma EofStays(m: H.Machine)
    ensures H.AtEof(m).taken == m.taken && (!H.Stopped(H.AtEof(m)) ==> H.AtEof(m) == m)
  {}

  lemma TidyAnywhere(m: H.Machine)
    requires Tidy(m)
    ensures Tidy(H.Machine(m.core, m.seen, 0))
  {}

  /** The response is not over, and has been in order so far. */
  ghost predicate Listening(c: H.Core, s: H.Seen) {
    c.errno.Ok? && !H.Over(s) && Tidy(H.Machine(c, s, 0))
  }
}
