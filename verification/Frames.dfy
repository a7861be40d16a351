// The wire format of a frame (section 5.2 of RFC 6455), as the sender writes it and as a
// whole-buffer reader of the header understands it.

module Frames {
  import opened Octets

  datatype Opcode = Continue | Text | Binary | Close | Ping | Pong | Reserved(n: nat)

  /** The type of the fragmented message in progress; Continue stands for none. */
  type Frag = op: Opcode | op.Continue? || op.Text? || op.Binary? witness Continue

  predicate IsControl(op: Opcode) {
    op.Close? || op.Ping? || op.Pong?
  }

  function OpcodeToByte(op: Opcode): byte {
    match op
    case Continue => 0
    case Text => 1
    case Binary => 2
    case Close => 8
    case Ping => 9
    case Pong => 10
    case Reserved(n) => n % 16
  }

  function ByteToOpcode(b: byte): Opcode {
    match b % 16
    case 0 => Continue
    case 1 => Text
    case 2 => Binary
    case 8 => Close
    case 9 => Ping
    case 10 => Pong
    case n => Reserved(n)
  }

  type Mask = m: bytes | |m| == 4 witness [0, 0, 0, 0]

  /** A masking key, or none (the frames of a server). */
  datatype Key = Unmasked | Masked(mask: Mask)

  /** A frame as the application means it. The payload of a close frame starts with its code. */
  datatype Frame = Frame(fin: bool, opcode: Opcode, payload: bytes)

  /** Masking, or unmasking, of section 5.3 of RFC 6455: octet `i` is combined with key octet `i % 4`. */
  function Apply(key: Key, p: bytes): (r: bytes)
    ensures |r| == |p|
  {
    if key.Unmasked? then p
    else seq(|p|, i requires 0 <= i < |p| => Xor(p[i], key.mask[i % 4]))
  }

  /** A close payload: the status code in network order, then the reason. */
  function ClosePayload(code: nat, reason: bytes): bytes {
    [code / 256 % 256, code % 256] + reason
  }

  /** The octet counts the sender computes before it asks the host for a buffer. */
  function MinFrameSize(op: Opcode, masked: bool, size: nat): nat {
    var n := size + (if op.Close? then 2 else 0);
    n + (if n > 125 then 2 else 0) + 2 + (if masked then 4 else 0)
  }

  /** Seven-bit length, or 126 and a 16-bit length that keeps the low 16 bits only. */
  function EncodeLength(masked: bool, n: nat): bytes {
    var m := if masked then 0x80 else 0;
    if n <= 125 then [Or(m, n)]
    else [Or(m, 126), n / 256 % 256, n % 256]
  }

  function FirstOctet(fin: bool, op: Opcode): byte {
    Or(if fin then 0x80 else 0, OpcodeToByte(op))
  }

  function EncodeFrame(f: Frame, key: Key): bytes {
    [FirstOctet(f.fin, f.opcode)]
    + EncodeLength(key.Masked?, |f.payload|)
    + (if key.Masked? then key.mask else [])
    + Apply(key, f.payload)
  }

  // ---- Reading a header from a whole buffer ----

  function BigEndian(s: bytes): nat {
    if s == [] then 0 else BigEndian(s[..|s| - 1]) * 256 + s[|s| - 1]
  }

  /** How many octets of extended length follow a 7-bit length field. */
  function ExtendedOctets(n: nat): nat {
    if n == 126 then 2 else if n == 127 then 8 else 0
  }

  datatype Header = Header(fin: bool, opcode: Opcode, key: Key, length: nat, size: nat)

  function HeaderSize(b: byte): (r: nat)
    ensures 2 <= r <= 14
  {
    2 + ExtendedOctets(b % 128) + (if b >= 128 then 4 else 0)
  }

  /** The header at the front of `bs`: flags, opcode, declared length, key, and its own size. */
  function ReadHeader(bs: bytes): (h: Header)
    requires |bs| >= 2 && |bs| >= HeaderSize(bs[1])
  {
    var ext := ExtendedOctets(bs[1] % 128);
    var length := if ext == 0 then bs[1] % 128 else BigEndian(bs[2..2 + ext]);
    var key := if bs[1] >= 128 then Masked(bs[2 + ext..6 + ext]) else Unmasked;
    Header(bs[0] >= 128, ByteToOpcode(bs[0]), key, length, HeaderSize(bs[1]))
  }

  // ---- Round trips ----

  lemma OrFlag(flag: byte, b: byte)
    requires (flag == 0 || flag == 0x80) && b < 0x80
    ensures Or(flag, b) == flag + b
  {
    assert Pow2(7) == 128;
    BitOrDisjoint(7, flag / 128, b);
  }

  /** The first octet keeps the final flag and the opcode apart, with the reserved bits clear. */
  lemma FirstOctetReads(fin: bool, op: Opcode)
    requires !op.Reserved?
    ensures var h := FirstOctet(fin, op);
            (h >= 128 <==> fin) && h / 16 % 8 == 0 && ByteToOpcode(h) == op
  {
    OrFlag(if fin then 0x80 else 0, OpcodeToByte(op));
    OpcodeRoundTrip(op);
  }

  /** The opcodes of section 5.2 of RFC 6455, next to the final flag. */
  lemma FirstOctets(fin: bool)
    ensures var flag := if fin then 0x80 else 0;
            && FirstOctet(fin, Continue) == flag && FirstOctet(fin, Text) == flag + 0x1
            && FirstOctet(fin, Binary) == flag + 0x2 && FirstOctet(fin, Close) == flag + 0x8
            && FirstOctet(fin, Ping) == flag + 0x9 && FirstOctet(fin, Pong) == flag + 0xa
  {
    var flag := if fin then 0x80 else 0;
    OrFlag(flag, 0);
    OrFlag(flag, 1);
    OrFlag(flag, 2);
    OrFlag(flag, 8);
    OrFlag(flag, 9);
    OrFlag(flag, 10);
  }

  lemma OpcodeRoundTrip(op: Opcode)
    requires !op.Reserved?
    ensures OpcodeToByte(op) < 16
    ensures OpcodeToByte(op) / 16 % 8 == 0 == (0x80 + OpcodeToByte(op)) / 16 % 8
    ensures ByteToOpcode(OpcodeToByte(op)) == op == ByteToOpcode(0x80 + OpcodeToByte(op))
  {}

  /** Unmasking undoes masking. */
  lemma ApplyInvolution(key: Key, p: bytes)
    ensures Apply(key, Apply(key, p)) == p
  {
    if key.Masked? {
      forall i | 0 <= i < |p| ensures Apply(key, Apply(key, p))[i] == p[i] {
        XorInvolution(p[i], key.mask[i % 4]);
      }
    }
  }

  lemma BigEndian2(a: byte, b: byte)
    ensures BigEndian([a, b]) == a * 256 + b
  {
    assert [a, b][..1] == [a];
    assert BigEndian([a]) == a;
  }

  /** The frame occupies exactly the octets the sender asked a buffer for. */
  lemma EncodedSize(f: Frame, key: Key)
    requires f.opcode.Close? ==> |f.payload| >= 2
    ensures |EncodeFrame(f, key)|
         == MinFrameSize(f.opcode, key.Masked?, |f.payload| - if f.opcode.Close? then 2 else 0)
  {}

  /** The length a reader makes of a length field. */
  function Announced(e: bytes): nat
    requires e != []
  {
    if |e| == 1 then e[0] % 128 else BigEndian(e[1..])
  }

  lemma ShortLength(masked: bool, n: nat)
    requires n <= 125
    ensures var e := EncodeLength(masked, n);
            |e| == 1 && (e[0] >= 128 <==> masked) && e[0] % 128 == n
  {
    OrFlag(if masked then 0x80 else 0, n);
    assert (128 + n) % 128 == n;
  }

  lemma LongLength(masked: bool, n: nat)
    requires n > 125
    ensures var e := EncodeLength(masked, n);
            |e| == 3 && (e[0] >= 128 <==> masked) && e[0] % 128 == 126 && BigEndian(e[1..]) == n % 0x1_0000
  {
    OrFlag(if masked then 0x80 else 0, 126);
    BigEndian2(n / 256 % 256, n % 256);
    LowOctets(n);
    assert EncodeLength(masked, n)[1..] == [n / 256 % 256, n % 256];
  }

  lemma EncodedLength(masked: bool, n: nat, e: bytes)
    requires e == EncodeLength(masked, n)
    ensures |e| == (if n <= 125 then 1 else 3) == 1 + ExtendedOctets(e[0] % 128)
    ensures e[0] >= 128 <==> masked
    ensures Announced(e) == n <==> n < 0x1_0000
  {
    if n <= 125 {
      ShortLength(masked, n);
    } else {
      LongLength(masked, n);
    }
  }

  /** What a reader finds in a header laid out as first octet, length field, key. */
  lemma ReadLayout(h: byte, e: bytes, key: Key, t: bytes)
    requires e != [] && |e| == 1 + ExtendedOctets(e[0] % 128)
    requires e[0] >= 128 <==> key.Masked?
    ensures var k := if key.Masked? then key.mask else [];
            var bs := [h] + e + k + t;
            && bs[0] == h && |bs| >= HeaderSize(bs[1]) == 1 + |e| + |k|
            && bs[1 + |e| + |k|..] == t
            && ReadHeader(bs) == Header(h >= 128, ByteToOpcode(h), key, Announced(e), 1 + |e| + |k|)
  {
    var k := if key.Masked? then key.mask else [];
    var bs := [h] + e + k + t;
    assert bs[1] == e[0];
    assert bs[2..1 + |e|] == e[1..];
    assert bs[1 + |e|..1 + |e| + |k|] == k;
  }

  /**
   * A reader finds in a sent frame the flags, opcode and key it was sent with. It finds the
   * length, and the length form is the shortest, exactly when the payload has fewer than 2^16
   * octets: a close reason of more than 65533 octets is announced modulo 2^16.
   */
  lemma HeaderRoundTrip(f: Frame, key: Key, rest: bytes, bs: bytes)
    requires !f.opcode.Reserved? && bs == EncodeFrame(f, key) + rest
    ensures |bs| >= 2 && |bs| >= HeaderSize(bs[1])
    ensures bs[0] / 16 % 8 == 0
    ensures ReadHeader(bs).(length := |f.payload|)
         == Header(f.fin, f.opcode, key, |f.payload|, |EncodeFrame(f, key)| - |f.payload|)
    ensures ReadHeader(bs).length == |f.payload| <==> |f.payload| < 0x1_0000
    ensures bs[ReadHeader(bs).size..] == Apply(key, f.payload) + rest
  {
    var h := FirstOctet(f.fin, f.opcode);
    FirstOctetReads(f.fin, f.opcode);
    var e := EncodeLength(key.Masked?, |f.payload|);
    EncodedLength(key.Masked?, |f.payload|, e);
    var k := if key.Masked? then key.mask else [];
    var t := Apply(key, f.payload) + rest;
    Associative([h] + e + k, Apply(key, f.payload), rest);
    ReadLayout(h, e, key, t);
  }
}
