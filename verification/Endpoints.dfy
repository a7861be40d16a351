// Two instances, one after the other's wire.

module Endpoints {
  import opened Octets
  import opened EndToEnd
  import opened Frames
  import opened Instance
  import opened Sender
  import opened Streams
  import R = Receiver

  /** The receiver can take what the sender has sent: no close, and every frame carried. */
  ghost predicate Deliverable(sender: Wic, receiver: Wic)
    reads sender
  {
    && receiver.Cfg().capacity < 0x1_0000 && receiver.Cfg().pongMax >= 131
    && !HasClose(sender.sent) && Carried(receiver.Cfg(), sender.sent, sender.keys)
  }

  /** An open receiver that has not begun a message. */
  ghost predicate Awaiting(cfg: R.Config, c: R.Conn) {
    InStep(cfg, c, []) && PartReceived(c.log) == []
  }

  /**
   * What one instance has sent, in any interleaving of its send calls, has arrived at another when
   * its octets have been taken, in any number of calls, and no delivery is owed: both agree on where
   * they are, and the receiving host has every message, whole and in order, and has answered every ping.
   */
  lemma WireArrives(sender: Wic, receiver: Wic, start: R.Conn, calls: seq<R.Call>)
    requires sender.SendValid() && receiver.rxs.Valid() && Deliverable(sender, receiver)
    requires receiver.Cfg().capacity > 0 && Awaiting(receiver.Cfg(), start)
    requires R.Calls(receiver.Cfg(), start, calls) && R.Last(start, calls) == receiver.Model()
    requires R.Taken(calls) == sender.wire && !R.Pending(receiver.Cfg(), receiver.Model())
    ensures InStep(receiver.Cfg(), receiver.Model(), sender.sent)
    ensures Corresponds(start.log, receiver.log, sender.sent)
  {
    hide R.Run, Wire, Legal, Corresponds;
    var cfg := receiver.Cfg();
    AwaitingSettled(cfg, start);
    R.NothingIsLost(cfg, start, calls);
    RunArrives(cfg, start, sender.sent, sender.keys);
  }

  lemma AwaitingSettled(cfg: R.Config, c: R.Conn)
    requires cfg.capacity > 0 && Awaiting(cfg, c)
    ensures R.Settled(cfg, c)
  {}

  /** Nothing of what was sent closes the receiver. */
  lemma StaysOpen(sender: Wic, receiver: Wic, start: R.Conn, n: nat, c: R.Conn)
    requires sender.SendValid() && Deliverable(sender, receiver) && receiver.rxs.Valid()
    requires receiver.Cfg().capacity > 0 && Awaiting(receiver.Cfg(), start) && n <= |sender.wire|
    requires R.Follows(receiver.Cfg(), start, sender.wire[..n], c)
    ensures c.Open?
  {
    hide R.Run, Wire, Legal, Corresponds, Carried;
    var cfg := receiver.Cfg();
    AwaitingSettled(cfg, start);
    RunArrives(cfg, start, sender.sent, sender.keys);
    if c.Shut? {
      Cut(sender.wire, 0, n);
      R.RunConcat(cfg, start, sender.wire[..n], sender.wire[n..]);
      R.RunShut(cfg, c, []);
      R.RunShut(cfg, c, sender.wire[n..]);
    }
  }

  /** One piece, presented to an open receiver. Only its own host closes it. */
  method Piece(sender: Wic, receiver: Wic, octets: bytes, at: nat, end: nat, ghost start: R.Conn) returns (next: nat)
    requires sender != receiver && sender.SendValid() && octets == sender.wire && at <= end <= |octets|
    requires receiver.Valid() && receiver.state.Open? && Deliverable(sender, receiver)
    requires Awaiting(receiver.Cfg(), start) && R.Follows(receiver.Cfg(), start, octets[..at], receiver.Model())
    modifies receiver, receiver.rxs, receiver.rxs.buf
    ensures receiver.Valid() && at <= next <= end && old(receiver.offered) <= receiver.offered
    ensures if receiver.host.Answer(old(receiver.offered), receiver.offered).Closes? then receiver.state.Closed?
            else receiver.state.Open? && R.Follows(receiver.Cfg(), start, octets[..next], receiver.Model())
    ensures receiver.host.AlwaysReady() && receiver.state.Open? ==>
              next == end && !R.Pending(receiver.Cfg(), receiver.Model())
  {
    hide R.Run, R.After, Wire, Legal, Corresponds, InStep, R.Valid, Carried, HasClose, Wic.SendValid,
         Wic.ReceiveValid, Wic.Reached, Awaiting, R.Follows;
    receiver.Running();
    var s := new Input(octets[at..end]);
    ghost var before := receiver.Model();
    ghost var r := receiver.ParseFrames(s);
    receiver.Running();
    next := at + s.pos;
    ClosesOnly(receiver, before, s.data[0..s.pos], r);
    if r.Stays? {
      receiver.ReachedFollows(before, s.data[0..s.pos], r);
      Splice(octets, 0, at, next);
      SliceOfSlice(octets, at, end, s.pos);
      R.FollowsOn(receiver.Cfg(), start, octets[..at], before, s.data[0..s.pos], receiver.Model());
      StaysOpen(sender, receiver, start, next, receiver.Model());
    }
  }

  /**
   * A transport that presents the sender's octets in pieces of any sizes, again from where the
   * receiver stopped. Unless its host has closed the receiver, it is open; and if all are taken and
   * nothing is owed, what was sent has arrived. With a host that is always ready that is so as soon
   * as all has been presented.
   */
  method Relay(sender: Wic, receiver: Wic, octets: bytes, sizes: seq<nat>) returns (at: nat)
    requires sender != receiver && sender.SendValid() && octets == sender.wire
    requires receiver.Valid() && receiver.state.Open? && Deliverable(sender, receiver)
    requires Awaiting(receiver.Cfg(), receiver.Model())
    modifies receiver, receiver.rxs, receiver.rxs.buf
    ensures receiver.Valid() && at <= |octets|
    ensures var answer := receiver.host.Answer(old(receiver.offered), receiver.offered);
            if answer.Closes? then receiver.state.Closed? else receiver.state.Open?
    ensures receiver.state.Open? && at == |octets| && !R.Pending(receiver.Cfg(), receiver.Model()) ==>
              && InStep(receiver.Cfg(), receiver.Model(), sender.sent)
              && Corresponds(old(receiver.log), receiver.log, sender.sent)
    ensures receiver.state.Open? && receiver.host.AlwaysReady() && |octets| <= Total(sizes) ==>
              at == |octets| && !R.Pending(receiver.Cfg(), receiver.Model())
  {
    hide R.Run, R.After, R.Follows, Wire, Legal, Corresponds, InStep, R.Valid, Carried, HasClose, Wic.SendValid,
         Wic.ReceiveValid, Wic.Reached, R.Pending;
    at := 0;
    receiver.Running();
    Started(receiver);
    ghost var cfg, start, ready := receiver.Cfg(), receiver.Model(), receiver.host.AlwaysReady();
    AwaitingSettled(cfg, start);
    for i := 0 to |sizes|
      invariant receiver.Valid() && at <= |octets| && old(receiver.offered) <= receiver.offered
      invariant if receiver.host.Answer(old(receiver.offered), receiver.offered).Closes? then receiver.state.Closed?
                else receiver.state.Open?
      invariant receiver.state.Open? ==>
                  receiver.rxs.Valid() && R.Follows(cfg, start, octets[..at], receiver.Model())
      invariant receiver.state.Open? && ready ==>
                  !R.Pending(cfg, receiver.Model()) && (at == |octets| || Total(sizes[..i]) <= at)
    {
      TotalSnoc(sizes, i);
      if receiver.state.Open? {
        ghost var offered := receiver.offered;
        var end := if sizes[i] < |octets| - at then at + sizes[i] else |octets|;
        at := Piece(sender, receiver, octets, at, end, start);
        receiver.Running();
        AnswerInTwo(receiver.host, old(receiver.offered), offered, receiver.offered);
      }
    }
    assert sizes[..|sizes|] == sizes;
    if receiver.state.Open? && at == |octets| && !R.Pending(cfg, receiver.Model()) {
      assert octets[..at] == octets && octets + [] == octets;
      WireArrives(sender, receiver, start, [R.Call(octets, receiver.Model())]);
    }
  }

  lemma ClosesOnly(receiver: Wic, before: R.Conn, data: bytes, r: Reaction)
    requires receiver.rxs.Valid() && receiver.Reached(before, data, r)
    ensures r.Closes? ==> receiver.state.Closed?
  {}

  lemma Started(receiver: Wic)
    requires receiver.Valid() && receiver.state.Open?
    ensures receiver.rxs.Valid() && R.Follows(receiver.Cfg(), receiver.Model(), [], receiver.Model())
  {
    hide R.Run, R.Valid;
  }
}
