// A whole connection of a client: the response to its request, in any pieces, and the frames behind it.

module Sessions {
  import opened Decisions
  import opened Decoder
  import Frames
  import opened Handshake
  import opened Headers
  import opened HttpTidy
  import opened Instance
  import opened Misleading
  import opened Octets
  import opened Refinement
  import opened Responses
  import Lifecycle
  import H = Http
  import HttpAnswers
  import HttpHeads
  import HttpLengths
  import HttpRuns
  import R = Receiver
  import TextSafety

  /** An instance that has been told of the opening, and has received no frame. */
  function Opening(log: seq<R.Event>, buf: bytes): R.Conn {
    R.Conn.Open(R.InitialRx.(buf := buf), log + [R.Opened])
  }

  /** The frames in `data` have been received, unless the host has closed. */
  ghost predicate Framed(wic: Wic, log: seq<R.Event>, data: bytes, closed: bool)
    reads wic, wic.rxs, wic.rxs.buf
  {
    && wic.rxs.Valid() && (wic.state.Open? || wic.state.Closed?)
    && if closed then wic.state.Closed? else exists buf :: R.Follows(wic.Cfg(), Opening(log, buf), data, wic.Model())
  }

  /** Where a client is after the octets `all` of its connection. */
  ghost predicate Reacted(client: Client, log: seq<R.Event>, all: bytes, closed: bool)
    reads client, client.wic, client.wic.rxs, client.wic.rxs.buf
  {
    var m := H.Run(HttpHeads.START, all);
    && client.Knowing(m, client.stored) && client.DecidedRight(m, client.stored)
    && if client.Refuses(m, client.stored) then
      && client.wic.state.Closed? && !closed
      && client.wic.log == log + [R.TransportClosed, R.HandshakeFailed(client.Failure(m))]
    else if H.Over(m.seen) then
      && m.taken <= |all| && Framed(client.wic, log, all[m.taken..], closed)
    else client.wic.state.ParseHandshake? && client.wic.log == log && client.heard == all && !closed
  }

  /** The host has closed the connection in answer to the last message it was offered. */
  twostate predicate ByItsHost(client: Client, closed: bool)
    reads client.wic
  {
    && old(client.wic.offered) <= client.wic.offered
    && closed == client.wic.host.Answer(old(client.wic.offered), client.wic.offered).Closes?
  }

  /** A host that is always ready is owed nothing, and all octets up to `end` have been taken. */
  ghost predicate Caught(client: Client, at: nat, end: nat)
    reads client.wic, client.wic.rxs, client.wic.rxs.buf
  {
    client.wic.host.AlwaysReady() && !client.wic.state.Closed? ==>
      at == end && client.wic.rxs.Valid() && !R.Pending(client.wic.Cfg(), client.wic.Model())
  }

  lemma StartsReacted(client: Client)
    requires client.Valid() && client.wic.state.ParseHandshake? && client.heard == []
    ensures Reacted(client, client.wic.log, [], false) && Caught(client, 0, 0)
  {
    hide H.Over, ReadBack, Completed, SettledInTime;
    StartGoing(client);
    client.NothingRead();
  }

  lemma StartGoing(client: Client)
    ensures var m := H.Run(HttpHeads.START, []); m == HttpHeads.START && !H.Stopped(m)
    ensures client.Knowing(HttpHeads.START, client.stored) && client.DecidedRight(HttpHeads.START, client.stored)
  {
    hide ReadBack, Completed, SettledInTime;
  }

  /** What the octet machine makes of the octets of a response does not change with those behind it. */
  lemma ResponseStays(octets: bytes, end: nat, next: nat)
    requires end <= |octets| && next <= |octets|
    requires var m := H.Run(HttpHeads.START, octets[..end]); m.core.errno.Ok? && H.Over(m.seen) && m.taken <= next
    ensures H.Run(HttpHeads.START, octets[..next]) == H.Run(HttpHeads.START, octets[..end])
    ensures H.Run(HttpHeads.START, octets[..end]).taken <= end
  {
    hide H.Run, H.Over;
    var m := H.Run(HttpHeads.START, octets[..end]);
    HttpRuns.RunOfTaken(HttpHeads.START, octets[..end]);
    var head := octets[..m.taken];
    assert octets[..end][..m.taken] == head;
    HttpRuns.NothingAfterTheMessage(HttpHeads.START, head, octets[m.taken..next]);
    assert head + octets[m.taken..next] == octets[..next];
  }

  /** A closed receiver swallows what follows. */
  lemma FollowsShut(cfg: R.Config, before: R.Conn, s: bytes, after: R.Conn, t: bytes)
    requires R.Follows(cfg, before, s, after) && after.Shut?
    ensures R.Follows(cfg, before, s + t, after)
  {
    R.RunShut(cfg, after, t);
    assert R.Follows(cfg, after, t, after);
    R.FollowsOn(cfg, before, s, after, t, after);
  }

  /** Frames up to `used`, and what of the input up to `next` a closed instance has swallowed. */
  lemma FramedOn(wic: Wic, log: seq<R.Event>, start: R.Conn, buf: bytes, data: bytes, used: nat, r: Reaction)
    requires wic.Valid() && used <= |data| && start == Opening(log, buf) && (wic.state.Open? || wic.state.Closed?)
    requires r.Closes? ==> wic.state.Closed?
    requires r.Stays? ==> R.Follows(wic.Cfg(), start, data[..used], wic.Model())
    requires wic.state.Open? ==> used == |data|
    ensures Framed(wic, log, data, r.Closes?)
  {
    hide R.Follows, Wic.SendValid, Lifecycle.Orderly, TextSafety.Tracks, R.Valid;
    if r.Stays? {
      if wic.state.Closed? {
        FollowsShut(wic.Cfg(), start, data[..used], wic.Model(), data[used..]);
      }
      assert data[..used] + data[used..] == data && data[..|data|] == data;
      assert R.Follows(wic.Cfg(), Opening(log, buf), data, wic.Model());
    }
  }

  lemma FirstFrames(client: Client, log: seq<R.Event>, octets: bytes, taken: nat, upTo: nat, next: nat, r: Reaction)
    requires client.wic.Valid() && taken <= upTo <= next <= |octets| && client.OpenedOn(log, octets[taken..upTo], r)
    requires client.wic.state.Open? ==> upTo == next
    ensures Framed(client.wic, log, octets[..next][taken..], r.Closes?)
  {
    hide R.Follows, Wic.SendValid, Wic.ReceiveValid, Wic.Reached;
    var wic, data := client.wic, octets[..next][taken..];
    var buf :| wic.Reached(R.Conn.Open(R.InitialRx.(buf := buf), log + [R.Opened]), octets[taken..upTo], r);
    assert data[..upTo - taken] == octets[taken..upTo];
    if r.Stays? {
      wic.ReachedFollows(Opening(log, buf), octets[taken..upTo], r);
    }
    HostClosed(wic, Opening(log, buf), octets[taken..upTo], r);
    FramedOn(wic, log, Opening(log, buf), buf, data, upTo - taken, r);
  }

  lemma HostClosed(wic: Wic, before: R.Conn, data: bytes, r: Reaction)
    requires wic.rxs.Valid() && wic.Reached(before, data, r)
    ensures r.Closes? ==> wic.state.Closed?
  {}

  /** What a call has made of a piece of the response is what the octet machine makes of all octets so far. */
  lemma OutcomeReacted(client: Client, log: seq<R.Event>, octets: bytes, at: nat, end: nat, used: nat, next: nat,
      r: Reaction)
    requires at <= end <= |octets| && used <= end - at && client.wic.Valid()
    requires var m := H.Run(HttpHeads.START, octets[..end]);
             && client.Outcome(m, at, log, octets[at..end], used, r)
             && (!H.Stopped(m) ==> client.heard == octets[..end])
    requires next == if client.wic.state.Open? then at + used else end
    ensures Reacted(client, log, octets[..next], r.Closes?)
  {
    hide H.Run, H.Over, R.Follows, Client.Knowing, Client.DecidedRight, Client.OpenedOn, Client.Refuses, Framed,
         Wic.Valid;
    var m := H.Run(HttpHeads.START, octets[..end]);
    AcceptedOk(client, m);
    if !client.Refuses(m, client.stored) && H.Over(m.seen) {
      ResponseStays(octets, end, next);
      SliceInside(octets, at, end, m.taken, at + used);
      FirstFrames(client, log, octets, m.taken, at + used, next, r);
    }
  }

  lemma AcceptedOk(client: Client, m: H.Machine)
    ensures !client.Refuses(m, client.stored) ==> m.core.errno.Ok?
  {}

  /** A piece of the response, and perhaps of the frames behind it. */
  method ResponsePiece(client: Client, octets: bytes, at: nat, end: nat, ghost log: seq<R.Event>)
    returns (next: nat, ghost closed: bool)
    requires client.Valid() && client.wic.state.ParseHandshake? && at < end <= |octets|
    requires client.heard == octets[..at] && client.wic.log == log
    modifies client`redirectUrl, client`stored, client`heard, client`ended
    modifies client.wic, client.wic.rxs, client.wic.rxs.buf, client.http, client.http.headers
    ensures client.Valid() && at <= next <= end && Reacted(client, log, octets[..next], closed)
    ensures ByItsHost(client, closed) && Caught(client, next, end)
  {
    hide H.Run, H.Over, H.AtEof, Client.Valid, Client.Outcome, Client.Added, Reacted, Wic.Reached;
    ghost var data := octets[at..end];
    assert octets[..at] + data == octets[..end];
    AddedAll(client, data);
    ghost var r, used;
    var n;
    n, used, r := client.Parse(octets[at..end], Stays);
    next := at + n;
    ClientHolds(client);
    OutcomeReacted(client, log, octets, at, end, used, next, r);
    closed := r.Closes?;
  }

  lemma AddedAll(client: Client, data: bytes)
    ensures var m := client.Hearing(data); !m.core.errno.Ok? || !H.Over(m.seen) ==> client.Added(data) == data
  {
    hide H.Run, H.Over, H.AtEof;
  }

  lemma ClientHolds(client: Client)
    requires client.Valid()
    ensures client.wic.Valid()
  {}

  /** A piece of the frames. */
  method FramesPiece(client: Client, octets: bytes, at: nat, end: nat, ghost log: seq<R.Event>, ghost taken: nat)
    returns (next: nat, ghost closed: bool)
    requires client.Valid() && client.wic.state.Open? && taken <= at < end <= |octets|
    requires Framed(client.wic, log, octets[..at][taken..], false)
    modifies client`redirectUrl, client`stored, client`heard, client`ended
    modifies client.wic, client.wic.rxs, client.wic.rxs.buf, client.http, client.http.headers
    ensures client.Valid() && at <= next <= end && Framed(client.wic, log, octets[..next][taken..], closed)
    ensures client.stored == old(client.stored)
    ensures ByItsHost(client, closed) && Caught(client, next, end)
  {
    hide H.Run, H.Over, R.Follows, Client.Answered, Client.Refuses, Client.Knowing, Client.DecidedRight,
         Wic.SendValid, Wic.ReceiveValid, Wic.Reached;
    ghost var before := client.wic.Model();
    ghost var buf :| R.Follows(client.wic.Cfg(), Opening(log, buf), octets[..at][taken..], before);
    ghost var r, used;
    var n;
    n, used, r := client.Parse(octets[at..end], Stays);
    next := at + n;
    closed := r.Closes?;
    assert octets[at..end][..used] == octets[at..at + used];
    NextFrames(client.wic, log, buf, octets, taken, at, at + used, next, before, r);
  }

  lemma NextFrames(wic: Wic, log: seq<R.Event>, buf: bytes, octets: bytes, taken: nat, at: nat, upTo: nat, next: nat,
      before: R.Conn, r: Reaction)
    requires wic.Valid() && taken <= at <= upTo <= next <= |octets| && (wic.state.Open? || wic.state.Closed?)
    requires R.Follows(wic.Cfg(), Opening(log, buf), octets[..at][taken..], before)
    requires wic.Reached(before, octets[at..upTo], r)
    requires wic.state.Open? ==> upTo == next
    ensures Framed(wic, log, octets[..next][taken..], r.Closes?)
  {
    hide R.Follows, Wic.SendValid, Wic.ReceiveValid, Wic.Reached;
    var data := octets[..next][taken..];
    wic.Running();
    HostClosed(wic, before, octets[at..upTo], r);
    if r.Stays? {
      wic.ReachedFollows(before, octets[at..upTo], r);
      R.FollowsOn(wic.Cfg(), Opening(log, buf), octets[..at][taken..], before, octets[at..upTo], wic.Model());
      assert octets[..at][taken..] + octets[at..upTo] == data[..upTo - taken];
    }
    FramedOn(wic, log, Opening(log, buf), buf, data, upTo - taken, r);
  }

  /** One piece, presented to a client that has not closed. */
  method OnePiece(client: Client, octets: bytes, at: nat, end: nat, ghost log: seq<R.Event>, ghost closed: bool)
    returns (next: nat, ghost nowClosed: bool)
    requires client.Valid() && !client.wic.state.Closed? && at < end <= |octets|
    requires Reacted(client, log, octets[..at], closed)
    modifies client`redirectUrl, client`stored, client`heard, client`ended
    modifies client.wic, client.wic.rxs, client.wic.rxs.buf, client.http, client.http.headers
    ensures client.Valid() && at <= next <= end && Reacted(client, log, octets[..next], nowClosed)
    ensures ByItsHost(client, nowClosed) && Caught(client, next, end)
  {
    hide H.Run, H.Over, R.Follows, Client.Valid, Client.Answered, Client.Knowing, Client.DecidedRight, Framed;
    if client.wic.state.ParseHandshake? {
      NotFramed(client, log, octets[..at], closed);
      next, nowClosed := ResponsePiece(client, octets, at, end, log);
    } else {
      ghost var m := H.Run(HttpHeads.START, octets[..at]);
      OpenFramed(client, log, octets[..at], closed);
      next, nowClosed := FramesPiece(client, octets, at, end, log, m.taken);
      ResponseStays(octets, at, next);
    }
  }

  lemma NotFramed(client: Client, log: seq<R.Event>, all: bytes, closed: bool)
    requires Reacted(client, log, all, closed) && client.wic.state.ParseHandshake?
    ensures client.heard == all && client.wic.log == log
  {
    hide H.Run, H.Over, R.Follows;
  }

  lemma OpenFramed(client: Client, log: seq<R.Event>, all: bytes, closed: bool)
    requires Reacted(client, log, all, closed) && !client.wic.state.ParseHandshake? && !client.wic.state.Closed?
    ensures var m := H.Run(HttpHeads.START, all);
            && m.core.errno.Ok? && H.Over(m.seen) && m.taken <= |all| && client.wic.state.Open?
            && !client.Refuses(m, client.stored) && Framed(client.wic, log, all[m.taken..], false)
  {
    hide H.Run, H.Over, R.Follows;
  }

  /**
   * A transport that presents the octets of a connection in pieces of any sizes, again from where
   * the client stopped. The handshake is not over, has failed, or has succeeded just as the octet
   * machine finds in all octets taken, from the first on; and the frames begin right behind the
   * octets that belong to the response. With a host that is always ready all that is presented is
   * taken, and nothing is owed, unless the connection has ended. A size of 0 would mean that the
   * transport has ended.
   */
  method Converse(client: Client, octets: bytes, sizes: seq<nat>) returns (at: nat)
    requires client.Valid() && client.wic.state.ParseHandshake? && client.heard == []
    requires forall n :: n in sizes ==> n > 0
    modifies client`redirectUrl, client`stored, client`heard, client`ended
    modifies client.wic, client.wic.rxs, client.wic.rxs.buf, client.http, client.http.headers
    ensures client.Valid() && at <= |octets|
    ensures Reacted(client, old(client.wic.log), octets[..at],
                    client.wic.host.Answer(old(client.wic.offered), client.wic.offered).Closes?)
    ensures |octets| <= Total(sizes) ==> Caught(client, at, |octets|)
  {
    hide H.Run, H.Over, R.Follows, R.Pending, Client.Valid, Client.Answered, Client.Refuses, Client.Hearing,
         Client.Knowing, Client.DecidedRight, Client.Added, Reacted, Host.AlwaysReady, Presented;
    at := 0;
    ghost var closed, log := false, client.wic.log;
    StartsReacted(client);
    PresentedMore(octets, sizes, 0);
    assert octets[..0] == [];
    for i := 0 to |sizes|
      invariant client.Valid() && at <= |octets| && Reacted(client, log, octets[..at], closed)
      invariant ByItsHost(client, closed) && Caught(client, at, Presented(octets, sizes[..i]))
    {
      PresentedMore(octets, sizes, i);
      if at < |octets| && !client.wic.state.Closed? {
        assert sizes[i] in sizes;
        ghost var offered := client.wic.offered;
        NotYetClosed(client, log, octets[..at], closed);
        var end := if sizes[i] < |octets| - at then at + sizes[i] else |octets|;
        at, closed := OnePiece(client, octets, at, end, log, closed);
        AnswerInTwo(client.wic.host, old(client.wic.offered), offered, client.wic.offered);
      }
    }
    assert sizes[..|sizes|] == sizes;
  }

  /** How many octets have been presented to a receiver that takes all. */
  function Presented(octets: bytes, sizes: seq<nat>): (n: nat)
    ensures n <= |octets| && (|octets| <= Total(sizes) ==> n == |octets|)
  {
    if Total(sizes) < |octets| then Total(sizes) else |octets|
  }

  lemma PresentedMore(octets: bytes, sizes: seq<nat>, i: nat)
    requires i <= |sizes|
    ensures Presented(octets, []) == 0
    ensures i < |sizes| ==>
              var p := Presented(octets, sizes[..i]);
              Presented(octets, sizes[..i + 1]) == if sizes[i] < |octets| - p then p + sizes[i] else |octets|
  {
    if i < |sizes| {
      TotalSnoc(sizes, i);
    }
  }

  lemma NotYetClosed(client: Client, log: seq<R.Event>, all: bytes, closed: bool)
    requires Reacted(client, log, all, closed) && !client.wic.state.Closed?
    ensures !closed
  {
    hide H.Run, H.Over, R.Follows;
  }

  /**
   * What the host of an accepted client has been told, from the first octet of the connection on:
   * the opening, and then what the whole-buffer decoder reads behind the response.
   */
  lemma SessionDecodes(client: Client, log: seq<R.Event>, all: bytes)
    requires Reacted(client, log, all, false) && client.wic.Valid() && client.wic.rxs.size < 0x1_0000
    requires var m := H.Run(HttpHeads.START, all); !client.Refuses(m, client.stored) && H.Over(m.seen)
    requires !R.Pending(client.wic.Cfg(), client.wic.Model())
    ensures var m := H.Run(HttpHeads.START, all);
            && m.taken <= |all| && Accepted(m.core, client.stored, client.key)
            && Shows(client.wic.Model(), log + [R.Opened], Decode(client.wic.Cfg(), Frames.Continue, 0, all[m.taken..]))
  {
    hide H.Run, H.Over, R.Pending, Client.Knowing, Client.DecidedRight, Wic.Valid, Decode, Shows;
    var wic, m := client.wic, H.Run(HttpHeads.START, all);
    wic.Running();
    var data := all[m.taken..];
    var buf :| R.Follows(wic.Cfg(), Opening(log, buf), data, wic.Model());
    OneCall(wic.Cfg(), Opening(log, buf), data, wic.Model());
  }

  lemma OneCall(cfg: R.Config, before: R.Conn, data: bytes, after: R.Conn)
    requires R.Follows(cfg, before, data, after) && cfg.capacity < 0x1_0000 && !R.Pending(cfg, after)
    requires before.Open? && before.rx.state.OpcodeOctet?
    ensures Shows(after, before.log, Decode(cfg, before.rx.frag, before.rx.saved, data))
  {
    hide R.Run, R.Valid, Decode, R.After;
    var calls := [R.Call(data, after)];
    assert R.Taken(calls) == data by {
      assert calls[1..] == [] && data + [] == data;
    }
    CallsDecode(cfg, before, calls);
  }

  // ---- Whole responses ----

  /**
   * A response with a length that is no upgrade: the client reports a failed handshake with the last
   * octet of the body, and waits for it before.
   */
  lemma FailureIsHeard(client: Client, log: seq<R.Event>, l: HttpHeads.StatusLine, a: seq<Header>, h: Header,
      b: seq<Header>, body: bytes, rest: bytes, closed: bool)
    requires HttpHeads.IsStatusLine(l) && HttpHeads.Code(l) != 101 && (forall x :: x in a + b ==> HttpLengths.Silent(x))
    requires HttpLengths.SaysLength(h, |body|) && |body| < H.Limit(10)
    requires |HttpHeads.Head(l, a + [h] + b)| <= H.MAX_HEADER_SIZE
    ensures Reacted(client, log, HttpHeads.Head(l, a + [h] + b) + body + rest, closed) ==>
              client.wic.state.Closed? && client.wic.log == log + [R.TransportClosed, R.HandshakeFailed(R.Upgrade)]
    ensures var text := HttpHeads.Head(l, a + [h] + b) + body;
            forall k :: 0 <= k < |text| && Reacted(client, log, text[..k], closed) ==>
              client.wic.state.ParseHandshake? && client.wic.log == log
  {
    hide HttpHeads.Head, H.Run, HttpHeads.IsStatusLine, HttpHeads.Code, HttpLengths.Silent, HttpLengths.SaysLength,
         Client.Knowing, Client.DecidedRight, Framed;
    HttpLengths.SizedResponse(l, a, h, b, body, rest);
  }

  /**
   * One without a length: the client reports it with its head exactly if its status stands for no
   * body, and else waits until the transport ends.
   */
  lemma FailureWithoutLength(client: Client, log: seq<R.Event>, l: HttpHeads.StatusLine, hs: seq<Header>, body: bytes,
      closed: bool)
    requires HttpHeads.IsStatusLine(l) && HttpHeads.Code(l) != 101 && forall x :: x in hs ==> HttpLengths.Silent(x)
    requires |HttpHeads.Head(l, hs)| <= H.MAX_HEADER_SIZE
    requires Reacted(client, log, HttpHeads.Head(l, hs) + body, closed)
    ensures if 100 <= HttpHeads.Code(l) <= 199 || HttpHeads.Code(l) == 204 || HttpHeads.Code(l) == 304 then
              client.wic.state.Closed? && client.wic.log == log + [R.TransportClosed, R.HandshakeFailed(R.Upgrade)]
            else client.wic.state.ParseHandshake? && client.wic.log == log
  {
    hide HttpHeads.Head, H.Run, HttpHeads.IsStatusLine, HttpHeads.Code, HttpLengths.Silent, Client.Knowing,
         Client.DecidedRight, Framed, Completed;
    HttpLengths.UnsizedResponse(l, hs, body);
  }

  /**
   * A connection that begins with a head of status 101 in which nothing is about a body, and which
   * settles the decision in time: it is opened exactly if the head is an answer, and what follows is
   * read as frames; otherwise the host is told of a failed handshake.
   */
  lemma AnswerIsHeard(client: Client, log: seq<R.Event>, l: HttpHeads.StatusLine, hs: seq<Header>, rest: bytes,
      closed: bool)
    requires Reacted(client, log, HttpHeads.Head(l, hs) + rest, closed)
    requires HttpHeads.IsStatusLine(l) && HttpHeads.Code(l) == 101 && forall h :: h in hs ==> HttpAnswers.Benign(h)
    requires |HttpHeads.Head(l, hs)| <= H.MAX_HEADER_SIZE && SettledInTime(hs, client.wic.rxs.size, client.key)
    ensures if IsAnswer(l, hs, client.key) then Framed(client.wic, log, rest, closed)
            else client.wic.state.Closed? && client.wic.log == log + [R.TransportClosed, R.HandshakeFailed(R.Upgrade)]
  {
    hide HttpAnswers.Benign, HttpHeads.Head, H.Run, H.Over, IsAnswer, Lookup, Ascii, SettledInTime, Framed,
         Client.Knowing, HttpHeads.IsStatusLine, HttpHeads.Code, Accepted, Completed;
    AcceptedExactly(l, hs, client.key);
    ResponseEnds(HttpHeads.Head(l, hs), rest);
  }

  lemma ResponseEnds(head: bytes, rest: bytes)
    requires H.Over(H.Run(HttpHeads.START, head).seen) && H.Run(HttpHeads.START, head).taken == |head|
    ensures H.Run(HttpHeads.START, head + rest) == H.Run(HttpHeads.START, head)
    ensures (head + rest)[|head|..] == rest
  {
    HttpRuns.NothingAfterTheMessage(HttpHeads.START, head, rest);
  }

  /** So does, in a buffer in which it fits, the response whose strings are shifted, though it is no answer. */
  lemma ShiftedIsHeard(client: Client, log: seq<R.Event>, rest: bytes, closed: bool)
    requires Reacted(client, log, HttpHeads.Head(STATUS, Shifted(client.key)) + rest, closed)
    requires |Flatten(Shifted(client.key))| <= client.wic.rxs.size
    ensures Framed(client.wic, log, rest, closed)
    ensures !Accepted(H.Run(HttpHeads.START, HttpHeads.Head(STATUS, Shifted(client.key))).core, Shifted(client.key),
      client.key)
  {
    hide HttpHeads.Head, H.Run, H.Over, Framed, Accepted, Completed, Shifted, KeptBy, Stored, Flatten, TidyHeader,
         Client.DecidedRight;
    var hs, key := Shifted(client.key), client.key;
    ShiftedParsed(key);
    ResponseEnds(HttpHeads.Head(STATUS, hs), rest);
    var mem: bytes, n: nat :| KeptBy(hs, client.wic.rxs.size, mem, n) && client.stored == Stored(mem, 0, n);
    FitsWhole(hs, client.wic.rxs.size, mem, n);
    KeptWithin(hs, client.wic.rxs.size, mem, n);
    Misled(key, mem, n);
  }
}
