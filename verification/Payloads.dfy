// What reaches the host of a payload: all of it, unmasked, in order; and exactly when the
// receiver's way of choosing key octets is the one of section 5.3 of RFC 6455.

module Payloads {
  import opened Octets
  import opened Frames
  import opened Receiver
  import opened Decoder
  import Utf8

  /** The data of all message deliveries, in order. */
  function DataOf(log: seq<Event>): bytes {
    if log == [] then []
    else (if log[0].Message? then log[0].data else []) + DataOf(log[1..])
  }

  lemma {:induction false} DataOfConcat(a: seq<Event>, b: seq<Event>)
    ensures DataOf(a + b) == DataOf(a) + DataOf(b)
    decreases |a|
  {
    if a == [] {
      assert a + b == b;
    } else {
      assert (a + b)[1..] == a[1..] + b;
      DataOfConcat(a[1..], b);
    }
  }

  lemma {:induction false} FlushedData(k: Opcode, parts: seq<bytes>)
    requires IsType(k)
    ensures DataOf(Flushes(k, parts)) == Concat(parts)
    decreases |parts|
  {
    if parts != [] {
      FlushedData(k, parts[1..]);
      var e := Message(EncodingOf(k), false, parts[0]);
      assert ([e] + Flushes(k, parts[1..]))[1..] == Flushes(k, parts[1..]);
    }
  }

  /** Pieces are passed on with their encoding, each fits the buffer, and only the last can be final. */
  ghost predicate Piecewise(log: seq<Event>, enc: Encoding, fin: bool, cap: nat) {
    && log != []
    && (forall i :: 0 <= i < |log| ==>
          log[i].Message? && log[i].encoding == enc && |log[i].data| <= cap
          && log[i].fin == (fin && i == |log| - 1))
  }

  lemma {:induction false} FlushesPiecewise(k: Opcode, cap: nat, q: bytes, fin: bool, last: bytes)
    requires cap > 0 && IsType(k) && |last| <= cap
    ensures Piecewise(Flushes(k, Chunks(cap, q)) + [Message(EncodingOf(k), fin, last)], EncodingOf(k), fin, cap)
    decreases |q|
  {
    var e := Message(EncodingOf(k), fin, last);
    if |q| >= cap {
      var f := Message(EncodingOf(k), false, q[..cap]);
      var rest := Flushes(k, Chunks(cap, q[cap..])) + [e];
      FlushesPiecewise(k, cap, q[cap..], fin, last);
      assert ([q[..cap]] + Chunks(cap, q[cap..]))[1..] == Chunks(cap, q[cap..]);
      assert Flushes(k, Chunks(cap, q)) + [e] == [f] + rest;
    }
  }

  /** All of a non-empty payload but what earlier buffers took. */
  function LastPiece(cap: nat, p: bytes): bytes
    requires cap > 0 && p != []
  {
    Leftover(cap, p[..|p| - 1]) + [p[|p| - 1]]
  }

  lemma PieceData(cap: nat, k: Opcode, fin: bool, p: bytes)
    requires cap > 0 && IsType(k) && p != []
    ensures DataOf(Flushes(k, Chunks(cap, p[..|p| - 1])) + [Message(EncodingOf(k), fin, LastPiece(cap, p))]) == p
  {
    var body := p[..|p| - 1];
    var c := Chunks(cap, body);
    var log := [Message(EncodingOf(k), fin, LastPiece(cap, p))];
    DataOfConcat(Flushes(k, c), log);
    assert log[1..] == [];
    FlushedData(k, c);
    ChunksComplete(cap, body);
    Around(p, |p| - 1);
    Associative(Concat(c), Leftover(cap, body), [p[|p| - 1]]);
  }

  /**
   * A complete data frame that does not fail is delivered whole: its pieces concatenate to the
   * payload, carry its encoding, fit the buffer, and exactly the last carries its final flag.
   */
  lemma DeliveredWhole(cfg: Config, k: Opcode, fin: bool, frag: Frag, saved: Utf8.State, u: Utf8.State, p: bytes)
    requires cfg.capacity > 0 && IsType(k)
    requires CompleteFrame(cfg, k, fin, frag, saved, u, p).trace.open
    ensures var log := CompleteFrame(cfg, k, fin, frag, saved, u, p).trace.events;
            DataOf(log) == p && Piecewise(log, EncodingOf(k), fin, cfg.capacity)
  {
    InvalidStaysPartial(cfg.capacity, k, u, p);
    if p == [] {
      var log := [Message(EncodingOf(k), fin, [])];
      assert log[1..] == [];
      assert CompleteFrame(cfg, k, fin, frag, saved, u, p).trace.events == log;
    } else {
      PieceData(cfg.capacity, k, fin, p);
      FlushesPiecewise(k, cfg.capacity, p[..|p| - 1], fin, LastPiece(cfg.capacity, p));
    }
  }

  lemma InvalidStaysPartial(cap: nat, k: Opcode, u: Utf8.State, p: bytes)
    requires cap > 0
    ensures p != [] && Validate(k, u, p) == Utf8.INVALID ==> !PartialFrame(cap, k, u, p).open
  {}

  // ---- Key octets ----

  lemma ModMod(i: nat, cap: nat)
    requires cap > 0 && cap % 4 == 0
    ensures i % cap % 4 == i % 4
  {
    var j, q, r := cap / 4, i / cap, i % cap;
    assert i == cap * q + r;
    assert cap * q == 4 * (j * q);
    ModUnique(i, 4, j * q + r / 4, r % 4);
  }

  /** The receiver takes the right key octet for payload octet `i`. */
  predicate KeyRightAt(mask: Mask, cap: nat, i: nat)
    requires cap > 0
  {
    mask[i % cap % 4] == mask[i % 4]
  }

  predicate KeyAgrees(mask: Mask, cap: nat, n: nat)
    requires cap > 0
  {
    forall i :: 0 <= i < n ==> KeyRightAt(mask, cap, i)
  }

  ghost predicate UnmasksRightly(mask: Mask, cap: nat, n: nat)
    requires cap > 0
  {
    forall p: bytes :: |p| == n ==> UnmaskBuffered(Masked(mask), cap, p) == Apply(Masked(mask), p)
  }

  lemma UnmaskAt(mask: Mask, cap: nat, p: bytes, i: nat)
    requires cap > 0 && i < |p|
    ensures UnmaskBuffered(Masked(mask), cap, p)[i] == Xor(p[i], mask[i % cap % 4])
    ensures Apply(Masked(mask), p)[i] == Xor(p[i], mask[i % 4])
  {}

  /** The zeros show which key octets were taken. */
  lemma RightMasksAgree(mask: Mask, cap: nat, n: nat)
    requires cap > 0 && UnmasksRightly(mask, cap, n)
    ensures KeyAgrees(mask, cap, n)
  {
    hide UnmaskBuffered, Apply, Xor;
    var p: bytes := seq(n, _ => 0);
    assert UnmaskBuffered(Masked(mask), cap, p) == Apply(Masked(mask), p);
    forall i | 0 <= i < n ensures KeyRightAt(mask, cap, i) {
      UnmaskAt(mask, cap, p, i);
      XorCancel(0, mask[i % cap % 4], mask[i % 4]);
    }
  }

  lemma AgreeingMasksRight(mask: Mask, cap: nat, n: nat)
    requires cap > 0 && KeyAgrees(mask, cap, n)
    ensures UnmasksRightly(mask, cap, n)
  {
    hide UnmaskBuffered, Apply, KeyAgrees;
    forall p: bytes | |p| == n ensures UnmaskBuffered(Masked(mask), cap, p) == Apply(Masked(mask), p) {
      AgreeingKey(mask, cap, p);
    }
  }

  /** For one key: every payload is unmasked rightly iff the key octets agree where the receiver looks. */
  lemma UnmaskExactForKey(mask: Mask, cap: nat, n: nat)
    requires cap > 0
    ensures UnmasksRightly(mask, cap, n) <==> KeyAgrees(mask, cap, n)
  {
    hide UnmasksRightly, KeyAgrees;
    if UnmasksRightly(mask, cap, n) {
      RightMasksAgree(mask, cap, n);
    }
    if KeyAgrees(mask, cap, n) {
      AgreeingMasksRight(mask, cap, n);
    }
  }

  lemma AgreeingKey(mask: Mask, cap: nat, p: bytes)
    requires cap > 0 && KeyAgrees(mask, cap, |p|)
    ensures UnmaskBuffered(Masked(mask), cap, p) == Apply(Masked(mask), p)
  {
    hide Xor;
    forall i | 0 <= i < |p|
      ensures UnmaskBuffered(Masked(mask), cap, p)[i] == Apply(Masked(mask), p)[i]
    {
      UnmaskAt(mask, cap, p, i);
      assert KeyRightAt(mask, cap, i);
    }
  }

  lemma FittingKeyAgrees(mask: Mask, cap: nat, n: nat)
    requires cap > 0 && (n <= cap || cap % 4 == 0)
    ensures KeyAgrees(mask, cap, n)
  {
    forall i | 0 <= i < n ensures KeyRightAt(mask, cap, i) {
      if n > cap {
        ModMod(i, cap);
      } else {
        ModUnique(i, cap, 0, i);
      }
    }
  }

  /**
   * For all keys: the receiver unmasks payloads of `n` octets as section 5.3 of RFC 6455 says
   * exactly when the payload fits the buffer or the capacity is a multiple of four.
   */
  lemma UnmaskExact(cap: nat, n: nat)
    requires cap > 0
    ensures (forall mask: Mask :: UnmasksRightly(mask, cap, n)) <==> n <= cap || cap % 4 == 0
  {
    if n <= cap || cap % 4 == 0 {
      forall mask: Mask ensures UnmasksRightly(mask, cap, n) {
        FittingKeyAgrees(mask, cap, n);
        UnmaskExactForKey(mask, cap, n);
      }
    } else {
      UnmaskFails([0, 1, 2, 3], cap, n);
    }
  }

  /** A key of four different octets goes wrong, from the first octet past the buffer. */
  lemma UnmaskFails(mask: Mask, cap: nat, n: nat)
    requires 0 < cap < n && cap % 4 != 0 && (forall i, j :: 0 <= i < j < 4 ==> mask[i] != mask[j])
    ensures !UnmasksRightly(mask, cap, n)
  {
    UnmaskExactForKey(mask, cap, n);
    WrongPastBuffer(mask, cap);
  }

  lemma WrongPastBuffer(mask: Mask, cap: nat)
    requires cap > 0 && mask[cap % 4] != mask[0]
    ensures !KeyRightAt(mask, cap, cap)
  {
    ModUnique(cap, cap, 1, 0);
  }

  /** For instance, six masked octets received through a buffer of five. */
  lemma UnmaskFailsForFive()
    ensures !UnmasksRightly([1, 2, 3, 4], 5, 6)
  {
    UnmaskFails([1, 2, 3, 4], 5, 6);
  }
}
