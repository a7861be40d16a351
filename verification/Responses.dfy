// Which responses a client accepts, and what the library makes of a head in which a value begins with NUL.

module Responses {
  import opened Octets
  import opened Options
  import opened Headers
  import H = Http
  import HttpHeads
  import HttpNames
  import HttpAnswers
  import HttpLengths
  import HttpRuns
  import Base64
  import Sha1

  const GUID: bytes := Ascii("258EAFA5-E914-47DA-95CA-C5AB0DC85B11")

  const UPGRADE: bytes := Ascii("upgrade")
  const WEBSOCKET: bytes := Ascii("websocket")
  const ACCEPT: bytes := Ascii("Sec-WebSocket-Accept")

  /** What a server that has read the key answers. */
  function AcceptFor(key: bytes): bytes {
    Base64.Encode(Sha1.Hash(key + GUID))
  }

  predicate Upgrades(hs: seq<Header>) {
    Lookup(hs, UPGRADE).Some? && SameIgnoringCase(Lookup(hs, UPGRADE).value, WEBSOCKET)
  }

  predicate Knows(hs: seq<Header>, key: bytes) {
    Lookup(hs, ACCEPT) == Some(AcceptFor(key))
  }

  /** A response that a client accepts: upgraded, to this protocol, by a server that knows its key. */
  predicate Accepted(c: H.Core, hs: seq<Header>, key: bytes) {
    c.status == 101 && c.upgrade && Upgrades(hs) && Knows(hs, key)
  }

  /** Base64 text is printable. */
  lemma AcceptText(key: bytes)
    ensures |AcceptFor(key)| == 28 && forall i :: 0 <= i < 28 ==> 0x2b <= AcceptFor(key)[i] <= 0x7a
  {
    hide Sha1.Hash, Base64.Sextet;
  }

  lemma Words()
    ensures |UPGRADE| == 7 && |WEBSOCKET| == 9 && |ACCEPT| == 20 && WEBSOCKET[0] == 0x77
  {}

  // ---- The answer of a server that does its part ----

  lemma SameName(n: bytes, word: string)
    requires HttpHeads.IsName(n) && forall i :: 0 <= i < |word| ==> 0x61 <= word[i] as int <= 0x7a
    ensures SameIgnoringCase(n, Ascii(word)) <==> HttpNames.Lowered(n) == Ascii(word)
  {
    var w, l := Ascii(word), HttpNames.Lowered(n);
    forall i | 0 <= i < |n| ensures l[i] == ToLower(n[i]) && (i < |w| ==> ToLower(w[i]) == w[i]) {
      assert n[i] in n;
    }
  }

  /** Which header a lookup has found. */
  lemma Found(hs: seq<Header>, name: bytes) returns (i: nat)
    requires Lookup(hs, name).Some?
    ensures i < |hs| && hs[i] in hs && SameIgnoringCase(hs[i].name, name) && hs[i].value == Lookup(hs, name).value
  {
    LookupFirst(hs, name);
    i :| 0 <= i < |hs| && SameIgnoringCase(hs[i].name, name) && Lookup(hs, name).value == hs[i].value;
  }

  lemma NamedUpgrade(h: Header)
    requires HttpAnswers.Benign(h) && SameIgnoringCase(h.name, UPGRADE) && SameIgnoringCase(h.value, WEBSOCKET)
    ensures HttpAnswers.SaysUpgrade(h)
  {
    SameName(h.name, "upgrade");
    assert HttpNames.UPGRADE[0] != HttpNames.CONNECTION[0] && HttpNames.UPGRADE[0] != HttpNames.PROXY_CONNECTION[0];
  }

  lemma NamedConnection(h: Header)
    requires HttpAnswers.Benign(h) && SameIgnoringCase(h.name, Ascii("connection"))
    ensures HttpAnswers.IsConnection(h)
  {
    SameName(h.name, "connection");
  }

  /**
   * What makes an answer: the status, a Connection header (or Proxy-Connection, which the parser takes
   * for the same), the first Upgrade header, and the first Sec-WebSocket-Accept.
   */
  ghost predicate IsAnswer(l: HttpHeads.StatusLine, hs: seq<Header>, key: bytes)
    requires HttpHeads.IsStatusLine(l)
  {
    var upgrade, accept := Lookup(hs, Ascii("upgrade")), Lookup(hs, Ascii("Sec-WebSocket-Accept"));
    && HttpHeads.Code(l) == 101
    && (exists h :: h in hs && HttpAnswers.IsConnection(h))
    && upgrade.Some? && SameIgnoringCase(upgrade.value, Ascii("websocket"))
    && accept == Some(Base64.Encode(Sha1.Hash(key + Ascii("258EAFA5-E914-47DA-95CA-C5AB0DC85B11"))))
  }

  /** A head in which nothing is about a body is accepted exactly if it is an answer. */
  lemma AcceptedExactly(l: HttpHeads.StatusLine, hs: seq<Header>, key: bytes)
    requires HttpHeads.IsStatusLine(l) && (forall h :: h in hs ==> HttpAnswers.Benign(h))
    requires |HttpHeads.Head(l, hs)| <= H.MAX_HEADER_SIZE
    ensures var r := H.Run(HttpHeads.START, HttpHeads.Head(l, hs));
            && r.core.errno.Ok? && r.taken == |HttpHeads.Head(l, hs)| && Completed(r.seen.head) == hs
            && (HttpHeads.Code(l) == 101 ==> H.Over(r.seen))
            && (Accepted(r.core, hs, key) <==> IsAnswer(l, hs, key))
  {
    hide Ascii, Lookup, SameIgnoringCase, HttpAnswers.Benign, H.Run, Completed, Sha1.Hash, Base64.Encode,
         HttpHeads.IsStatusLine, HttpHeads.Code, HttpAnswers.SaysUpgrade, HttpAnswers.IsConnection, HttpHeads.Head;
    forall h | h in hs ensures HttpLengths.Silent(h) {
      BenignSilent(h);
    }
    HttpLengths.UnsizedResponse(l, hs, []);
    UpgradeFlags(l, hs);
    if Upgrades(hs) {
      var i := Found(hs, UPGRADE);
      NamedUpgrade(hs[i]);
    }
  }

  lemma BenignSilent(h: Header)
    requires HttpAnswers.Benign(h)
    ensures HttpLengths.Silent(h) && HttpHeads.IsHeader(h)
  {}

  /** Whether the parser takes a head for an upgrade. */
  lemma UpgradeFlags(l: HttpHeads.StatusLine, hs: seq<Header>)
    requires HttpHeads.IsStatusLine(l) && (forall h :: h in hs ==> HttpAnswers.Benign(h))
    requires |HttpHeads.Head(l, hs)| <= H.MAX_HEADER_SIZE
    requires H.Run(HttpHeads.START, HttpHeads.Head(l, hs)).core.errno.Ok?
    ensures var r := H.Run(HttpHeads.START, HttpHeads.Head(l, hs));
            && r.core.status == HttpHeads.Code(l)
            && (r.core.upgrade <==>
                  && HttpHeads.Code(l) == 101 && (exists h :: h in hs && HttpAnswers.SaysUpgrade(h))
                  && exists h :: h in hs && HttpAnswers.IsConnection(h))
  {
    hide HttpAnswers.Benign, H.Next, HttpHeads.IsStatusLine, HttpHeads.Code, HttpAnswers.SaysUpgrade,
         HttpAnswers.IsConnection, HttpHeads.Spelled, HttpNames.Ready, HttpNames.LineFlags, HttpAnswers.Effect,
         HttpHeads.IsHeader, Completed;
    forall h | h in hs ensures HttpHeads.IsHeader(h) {
      BenignSilent(h);
    }
    HttpHeads.HeadRoundTrip(l, hs);
    var m := HttpLengths.LinesOf(l, hs);
    HttpAnswers.BenignLines(m, hs);
    var p := H.Run(m, HttpHeads.Lines(hs));
    HttpAnswers.UpgradeSaid(H.NO_FLAGS, hs);
    HttpAnswers.ConnectionSaid(H.NO_FLAGS, hs);
    HttpAnswers.NothingElseSaid(H.NO_FLAGS, hs);
    HttpLengths.ReadyIs(p);
    HttpLengths.HeadDone(p);
    InAndAt(hs);
  }

  lemma InAndAt(hs: seq<Header>)
    ensures (exists h :: h in hs && HttpAnswers.SaysUpgrade(h)) <==>
              exists i :: 0 <= i < |hs| && HttpAnswers.SaysUpgrade(hs[i])
    ensures (exists h :: h in hs && HttpAnswers.IsConnection(h)) <==>
              exists i :: 0 <= i < |hs| && HttpAnswers.IsConnection(hs[i])
  {
    hide HttpAnswers.SaysUpgrade, HttpAnswers.IsConnection;
  }
}
