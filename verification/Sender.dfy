// What a client may put on the wire: the fragmentation rules of section 5.4 of RFC 6455 over
// whole runs, and the octets that the frames of a run occupy.

module Sender {
  import opened Octets
  import opened Frames
  import Utf8

  /** The type of the message that the last frames left unfinished; Continue stands for none. */
  function Unfinished(sent: seq<Frame>): Frag {
    if sent == [] then Continue
    else
      var before, f := sent[..|sent| - 1], sent[|sent| - 1];
      match f.opcode
      case Text => if f.fin then Continue else Text
      case Binary => if f.fin then Continue else Binary
      case Continue => if f.fin then Continue else Unfinished(before)
      case _ => Unfinished(before)
  }

  /** The text of the unfinished message, if that is a text. */
  function UnfinishedText(sent: seq<Frame>): bytes {
    if sent == [] then []
    else
      var before, f := sent[..|sent| - 1], sent[|sent| - 1];
      if IsControl(f.opcode) then UnfinishedText(before)
      else if f.fin || !TypeOf(before, f).Text? then []
      else UnfinishedText(before) + f.payload
  }

  /** The message type of a data frame sent after `before`. */
  function TypeOf(before: seq<Frame>, f: Frame): Opcode {
    if f.opcode.Continue? then Unfinished(before) else f.opcode
  }

  predicate HasClose(sent: seq<Frame>) {
    sent != [] && (sent[|sent| - 1].opcode.Close? || HasClose(sent[..|sent| - 1]))
  }

  /**
   * Whether frame `f` may follow the frames `before`. Three codes of a close frame are for local use
   * only (section 7.4.1 of RFC 6455).
   */
  ghost predicate MayFollow(before: seq<Frame>, f: Frame) {
    && !HasClose(before)
    && match f.opcode
       case Continue => !Unfinished(before).Continue? && TextKept(before, f)
       case Text => Unfinished(before).Continue? && TextKept(before, f)
       case Binary => Unfinished(before).Continue?
       case Close =>
         && f.fin && |f.payload| >= 2 && Utf8.WellFormed(f.payload[2..])
         && f.payload[0] as nat * 256 + f.payload[1] !in {1005, 1006, 1015}
       case Ping => f.fin
       case Pong => f.fin
       case Reserved(_) => false
  }

  /** A finished text is well-formed UTF-8 as a whole; an unfinished one can still become so. */
  ghost predicate TextKept(before: seq<Frame>, f: Frame) {
    TypeOf(before, f).Text? ==>
      var m := UnfinishedText(before) + f.payload;
      if f.fin then Utf8.WellFormed(m) else Utf8.Extendable(m)
  }

  /** The frames of a run obey the rules. */
  ghost predicate Legal(sent: seq<Frame>) {
    sent == [] ||
    var before, f := sent[..|sent| - 1], sent[|sent| - 1];
    Legal(before) && MayFollow(before, f)
  }

  /** The octets of a run of frames. */
  function Wire(sent: seq<Frame>, keys: seq<Key>): bytes
    requires |sent| == |keys|
  {
    if sent == [] then []
    else Wire(sent[..|sent| - 1], keys[..|keys| - 1]) + EncodeFrame(sent[|sent| - 1], keys[|keys| - 1])
  }

  /** The payloads of the pongs among the frames. */
  function Pongs(sent: seq<Frame>): seq<bytes> {
    if sent == [] then []
    else Pongs(sent[..|sent| - 1]) + if sent[|sent| - 1].opcode.Pong? then [sent[|sent| - 1].payload] else []
  }

  lemma SentSnoc(sent: seq<Frame>, f: Frame)
    ensures (sent + [f])[..|sent|] == sent
    ensures HasClose(sent + [f]) <==> HasClose(sent) || f.opcode.Close?
  {
    assert (sent + [f])[..|sent|] == sent;
  }

  /** A run is legal, and the octets `wire` are its frames under its keys. */
  ghost predicate OnWire(sent: seq<Frame>, keys: seq<Key>, wire: bytes) {
    Legal(sent) && |keys| == |sent| && wire == Wire(sent, keys)
  }

  lemma OnWireSnoc(sent: seq<Frame>, keys: seq<Key>, wire: bytes, f: Frame, key: Key, octets: bytes)
    requires OnWire(sent, keys, wire) && MayFollow(sent, f) && octets == EncodeFrame(f, key)
    ensures OnWire(sent + [f], keys + [key], wire + octets)
  {
    SentSnoc(sent, f);
    assert (keys + [key])[..|keys|] == keys;
  }

  /** Sending `f` is legal, and leaves the fragmentation type `next` and, of a text, the validator state `q`. */
  ghost predicate Steps(sent: seq<Frame>, f: Frame, next: Frag, q: Utf8.State) {
    && MayFollow(sent, f)
    && Unfinished(sent + [f]) == next
    && (next.Text? ==> q == Utf8.Run(0, UnfinishedText(sent + [f])))
    && Pongs(sent + [f]) == Pongs(sent) + (if f.opcode.Pong? then [f.payload] else [])
    && (HasClose(sent + [f]) <==> f.opcode.Close?)
  }

  /** The validator state a sender keeps is the one of the unfinished text. */
  lemma TextStep(sent: seq<Frame>, q: Utf8.State, fin: bool, data: bytes)
    requires !Unfinished(sent).Binary? && !HasClose(sent)
    requires q == Utf8.Run(if Unfinished(sent).Text? then Utf8.Run(0, UnfinishedText(sent)) else 0, data)
    requires !Unfinished(sent).Text? ==> UnfinishedText(sent) == []
    requires if fin then q == Utf8.COMPLETE else q != Utf8.INVALID
    ensures Steps(sent, Frame(fin, if Unfinished(sent).Text? then Continue else Text, data),
                  if fin then Continue else Text, q)
  {
    var m := UnfinishedText(sent) + data;
    Utf8.RunConcat(0, UnfinishedText(sent), data);
    Utf8.AcceptsExactlyWellFormed(m);
    Utf8.InvalidExactlyUnrepairable(m);
    SentSnoc(sent, Frame(fin, if Unfinished(sent).Text? then Continue else Text, data));
  }

  /** Text that the validator refuses may not be sent. */
  lemma TextRefused(sent: seq<Frame>, q: Utf8.State, fin: bool, data: bytes)
    requires !Unfinished(sent).Binary?
    requires q == Utf8.Run(if Unfinished(sent).Text? then Utf8.Run(0, UnfinishedText(sent)) else 0, data)
    requires !Unfinished(sent).Text? ==> UnfinishedText(sent) == []
    requires if fin then q != Utf8.COMPLETE else q == Utf8.INVALID
    ensures !MayFollow(sent, Frame(fin, if Unfinished(sent).Text? then Continue else Text, data))
  {
    var m := UnfinishedText(sent) + data;
    Utf8.RunConcat(0, UnfinishedText(sent), data);
    Utf8.AcceptsExactlyWellFormed(m);
    Utf8.InvalidExactlyUnrepairable(m);
  }

  lemma BinaryStep(sent: seq<Frame>, q: Utf8.State, fin: bool, data: bytes)
    requires !Unfinished(sent).Text? && !HasClose(sent)
    ensures Steps(sent, Frame(fin, if Unfinished(sent).Binary? then Continue else Binary, data),
                  if fin then Continue else Binary, q)
  {
    SentSnoc(sent, Frame(fin, if Unfinished(sent).Binary? then Continue else Binary, data));
  }

  lemma ControlStep(sent: seq<Frame>, f: Frame, q: Utf8.State)
    requires IsControl(f.opcode) && MayFollow(sent, f)
    requires Unfinished(sent).Text? ==> q == Utf8.Run(0, UnfinishedText(sent))
    ensures Steps(sent, f, Unfinished(sent), q)
    ensures UnfinishedText(sent + [f]) == UnfinishedText(sent)
  {
    SentSnoc(sent, f);
  }

  lemma CloseStep(sent: seq<Frame>, code: nat, reason: bytes, q: Utf8.State)
    requires !HasClose(sent) && code < 0x1_0000 && code !in {1005, 1006, 1015} && Utf8.WellFormed(reason)
    requires Unfinished(sent).Text? ==> q == Utf8.Run(0, UnfinishedText(sent))
    ensures var f := Frame(true, Close, ClosePayload(code, reason));
            && Steps(sent, f, Unfinished(sent), q)
            && Unfinished(sent + [f]) == Unfinished(sent) && UnfinishedText(sent + [f]) == UnfinishedText(sent)
            && Pongs(sent + [f]) == Pongs(sent)
  {
    hide Utf8.WellFormed, HasClose, Unfinished, UnfinishedText, Pongs;
    var f := Frame(true, Close, ClosePayload(code, reason));
    assert f.payload[2..] == reason;
    assert f.payload[0] as nat * 256 + f.payload[1] == code;
    ControlStep(sent, f, q);
    assert Pongs(sent) + [] == Pongs(sent);
  }

  /** Only a text leaves text unfinished. */
  lemma {:induction false} NoTextUnfinished(sent: seq<Frame>)
    requires Legal(sent)
    ensures !Unfinished(sent).Text? ==> UnfinishedText(sent) == []
  {
    if sent != [] {
      NoTextUnfinished(sent[..|sent| - 1]);
    }
  }
}
