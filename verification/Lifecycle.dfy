// How a connection may end, as its host sees it.

module Lifecycle {
  import opened Octets
  import opened Receiver

  predicate IsEnd(e: Event) {
    e.TransportClosed? || e.Closed? || e.HandshakeFailed?
  }

  predicate Quiet(log: seq<Event>) {
    forall i :: 0 <= i < |log| ==> !IsEnd(log[i])
  }

  lemma QuietSnoc(log: seq<Event>, e: Event)
    requires Quiet(log) && !IsEnd(e)
    ensures Quiet(log + [e])
  {}

  lemma QuietLast(log: seq<Event>)
    requires Quiet(log)
    ensures log != [] ==> !IsEnd(log[|log| - 1])
  {}

  /**
   * The transport is closed at most once, then the end is reported at most once, and nothing
   * follows. While the instance is not closed, nothing of this has happened.
   */
  predicate Orderly(closed: bool, log: seq<Event>) {
    || Quiet(log)
    || (&& closed && |log| >= 2
        && Quiet(log[..|log| - 2])
        && log[|log| - 2].TransportClosed?
        && (log[|log| - 1].Closed? || log[|log| - 1].HandshakeFailed?))
  }

  lemma OrderlyEnd(log: seq<Event>, e: Event)
    requires Quiet(log) && (e.Closed? || e.HandshakeFailed?)
    ensures Orderly(true, log + [TransportClosed, e])
  {
    var l := log + [TransportClosed, e];
    assert l[..|l| - 2] == log;
  }

  lemma NotOrderly(log: seq<Event>)
    requires log != [] && IsEnd(log[|log| - 1])
    ensures !Orderly(false, log)
  {}

  lemma StillOrderly(log: seq<Event>)
    requires Quiet(log)
    ensures forall closed :: Orderly(closed, log)
  {}

  function Count(log: seq<Event>, p: Event -> bool): nat {
    if log == [] then 0 else Count(log[..|log| - 1], p) + if p(log[|log| - 1]) then 1 else 0
  }

  lemma {:induction false} CountQuiet(log: seq<Event>, p: Event -> bool)
    requires Quiet(log) && forall e :: p(e) ==> IsEnd(e)
    ensures Count(log, p) == 0
  {
    if log != [] {
      CountQuiet(log[..|log| - 1], p);
    }
  }

  /** In an orderly log each kind of ending occurs at most once, and no message follows any of them. */
  lemma EndsOnce(closed: bool, log: seq<Event>)
    requires Orderly(closed, log)
    ensures Count(log, (e: Event) => e.TransportClosed?) <= 1
    ensures Count(log, (e: Event) => e.Closed? || e.HandshakeFailed?) <= 1
    ensures forall i, j :: 0 <= i < j < |log| && IsEnd(log[i]) ==> !log[j].Message? && !log[j].Reply?
  {
    var t, c := (e: Event) => e.TransportClosed?, (e: Event) => e.Closed? || e.HandshakeFailed?;
    if Quiet(log) {
      CountQuiet(log, t);
      CountQuiet(log, c);
    } else {
      var before := log[..|log| - 2];
      CountQuiet(before, t);
      CountQuiet(before, c);
      var one := log[..|log| - 1];
      assert one[..|one| - 1] == before;
      assert Count(one, t) == 1 && Count(one, c) == 0;
    }
  }

  /** The connection has just been closed, with a code that may be on the wire (section 7.4.1 of RFC 6455). */
  predicate ClosedRightly(log: seq<Event>) {
    |log| >= 2 && log[|log| - 2].TransportClosed? && log[|log| - 1].Closed? && IsWireCode(log[|log| - 1].code)
  }

  lemma ShutdownRightly(c: Conn, code: nat, reason: bytes)
    requires IsWireCode(code)
    ensures ClosedRightly(Shutdown(c, code, reason).log)
  {}

  lemma ConsumeRightly(cfg: Config, c: Conn, b: byte)
    requires c.Open? && Valid(cfg, c.rx) && !Pending(cfg, c)
    ensures Consume(cfg, c, b).Shut? ==> ClosedRightly(Consume(cfg, c, b).log)
  {
    hide ClosedRightly;
    ShutdownRightly(c, CLOSE_PROTOCOL_ERROR, []);
    ShutdownRightly(c, CLOSE_NORMAL, []);
    ShutdownRightly(c, CLOSE_TOO_BIG, []);
    ShutdownRightly(c, CLOSE_INVALID_DATA, []);
  }

  lemma DeliverRightly(cfg: Config, c: Conn)
    requires Pending(cfg, c) && Valid(cfg, c.rx)
    ensures Deliver(cfg, c).Shut? ==> ClosedRightly(Deliver(cfg, c).log)
  {
    hide ClosedRightly;
    ShutdownRightly(c, CLOSE_INVALID_DATA, []);
    if Kind(c.rx).Close? && c.rx.size == 0 {
      var answer := CloseAnswer(c.rx.buf, c.rx.utf8);
      ShutdownRightly(c, answer.0, answer.1);
    }
  }

  /** Whatever a peer sends, the receiver closes only with codes that may be on the wire. */
  lemma {:induction false} RunClosesRightly(cfg: Config, c: Conn, s: bytes)
    requires cfg.capacity > 0 && c.Open? && Settled(cfg, c)
    ensures Run(cfg, c, s).Shut? ==> ClosedRightly(Run(cfg, c, s).log)
    decreases |s|
  {
    hide ClosedRightly, Consume, Deliver;
    if s != [] {
      ConsumeValid(cfg, c, s[0]);
      ConsumeRightly(cfg, c, s[0]);
      var d := Consume(cfg, c, s[0]);
      if Pending(cfg, d) {
        DeliverRightly(cfg, d);
      }
      var e := Feed(cfg, c, s[0]);
      if e.Shut? {
        RunShut(cfg, e, s[1..]);
      } else {
        RunClosesRightly(cfg, e, s[1..]);
      }
    }
  }
}
