// SHA-1 as FIPS 180-4 defines it: section 4.1.1 (functions), 5.1.1 (padding), 6.1.2 (computation).

module Sha1 {
  import opened Octets

  type word = bv32

  function RotL(x: word, n: nat): word
    requires 0 < n < 32
  {
    (x << n) | (x >> (32 - n))
  }

  function Xor4(w: word, x: word, y: word, z: word): word {
    w ^ x ^ y ^ z
  }

  function Sum(r: word, f: word, e: word, k: word, w: word): word {
    r + f + e + k + w
  }

  function Ch(x: word, y: word, z: word): word {
    (x & y) ^ (!x & z)
  }

  function Parity(x: word, y: word, z: word): word {
    x ^ y ^ z
  }

  function Maj(x: word, y: word, z: word): word {
    (x & y) ^ (x & z) ^ (y & z)
  }

  function F(t: nat, x: word, y: word, z: word): word {
    if t < 20 then Ch(x, y, z)
    else if t < 40 then Parity(x, y, z)
    else if t < 60 then Maj(x, y, z)
    else Parity(x, y, z)
  }

  function K(t: nat): word {
    if t < 20 then 0x5a827999
    else if t < 40 then 0x6ed9eba1
    else if t < 60 then 0x8f1bbcdc
    else 0xca62c1d6
  }

  datatype Regs = Regs(a: word, b: word, c: word, d: word, e: word)

  const INITIAL := Regs(0x67452301, 0xefcdab89, 0x98badcfe, 0x10325476, 0xc3d2e1f0)

  type Block = b: seq<word> | |b| == 16 witness seq(16, _ => 0)

  /** The message schedule of 80 words. */
  function Schedule(m: Block, t: nat): word {
    if t < 16 then m[t]
    else RotL(Xor4(Schedule(m, t - 3), Schedule(m, t - 8), Schedule(m, t - 14), Schedule(m, t - 16)), 1)
  }

  function Round(t: nat, r: Regs, w: word): Regs {
    Regs(Sum(RotL(r.a, 5), F(t, r.b, r.c, r.d), r.e, K(t), w), r.a, RotL(r.b, 30), r.c, r.d)
  }

  /** The first `n` rounds. */
  function Rounds(h: Regs, m: Block, n: nat): Regs {
    if n == 0 then h else Round(n - 1, Rounds(h, m, n - 1), Schedule(m, n - 1))
  }

  function Add(h: Regs, r: Regs): Regs {
    Regs(h.a + r.a, h.b + r.b, h.c + r.c, h.d + r.d, h.e + r.e)
  }

  function Compress(h: Regs, m: Block): Regs {
    Add(h, Rounds(h, m, 80))
  }

  /** Four octets as a word, most significant first. */
  function Word(b: bytes, i: nat): word
    requires i + 4 <= |b|
  {
    (b[i] as word << 24) | (b[i + 1] as word << 16) | (b[i + 2] as word << 8) | b[i + 3] as word
  }

  function BlockOf(b: bytes): Block
    requires |b| == 64
  {
    seq(16, i requires 0 <= i < 16 => Word(b, 4 * i))
  }

  /** The hash value after all the 64-octet blocks of `s`. */
  function Digest(h: Regs, s: bytes): Regs
    requires |s| % 64 == 0
    decreases |s|
  {
    if s == [] then h else Digest(Compress(h, BlockOf(s[..64])), s[64..])
  }

  function ToBigEndian(k: nat, v: nat): (r: bytes)
    ensures |r| == k
  {
    if k == 0 then [] else ToBigEndian(k - 1, v / 256) + [v % 256]
  }

  function Zeros(n: nat): (r: bytes)
    ensures |r| == n
  {
    seq(n, _ => 0)
  }

  /** How many zero octets bring a message of `n` octets, its marker and its length to whole blocks. */
  function PadZeros(n: nat): (r: nat)
    ensures (n + 1 + r + 8) % 64 == 0 && r < 64
  {
    (119 - n % 64) % 64
  }

  /** The padded message, if its length is taken to be `n` octets; the length counts bits, in 64 bits. */
  function PadAs(msg: bytes, n: nat): (r: bytes)
    ensures |r| % 64 == 0
  {
    msg + [0x80] + Zeros(PadZeros(|msg|)) + ToBigEndian(8, n * 8 % 0x1_0000_0000_0000_0000)
  }

  function Pad(msg: bytes): (r: bytes)
    ensures |r| % 64 == 0
  {
    PadAs(msg, |msg|)
  }

  function WordOctets(w: word): (r: bytes)
    ensures |r| == 4
  {
    [((w >> 24) & 0xff) as bv8 as byte, ((w >> 16) & 0xff) as bv8 as byte,
     ((w >> 8) & 0xff) as bv8 as byte, (w & 0xff) as bv8 as byte]
  }

  function Output(h: Regs): (r: bytes)
    ensures |r| == 20
  {
    WordOctets(h.a) + WordOctets(h.b) + WordOctets(h.c) + WordOctets(h.d) + WordOctets(h.e)
  }

  function Hash(msg: bytes): (r: bytes)
    ensures |r| == 20
  {
    Output(Digest(INITIAL, Pad(msg)))
  }

  lemma {:induction false} DigestAppend(h: Regs, s: bytes, b: bytes)
    requires |s| % 64 == 0 && |b| == 64
    ensures Digest(h, s + b) == Compress(Digest(h, s), BlockOf(b))
    decreases |s|
  {
    if s == [] {
      assert s + b == b && b[..64] == b && b[64..] == [];
    } else {
      assert (s + b)[..64] == s[..64] && (s + b)[64..] == s[64..] + b;
      DigestAppend(Compress(h, BlockOf(s[..64])), s[64..], b);
    }
  }

  lemma DigestBlock(s: bytes, m: nat)
    requires m % 64 == 0 && m + 64 <= |s|
    ensures Digest(INITIAL, s[..m + 64]) == Compress(Digest(INITIAL, s[..m]), BlockOf(s[m..m + 64]))
  {
    hide Compress, BlockOf, Digest;
    assert s[..m + 64] == s[..m] + s[m..m + 64];
    DigestAppend(INITIAL, s[..m], s[m..m + 64]);
  }

  /** Eight octets are twice four. */
  lemma BigEndianHalves(hi: nat, lo: nat)
    requires lo < 0x1_0000_0000
    ensures ToBigEndian(8, hi * 0x1_0000_0000 + lo) == ToBigEndian(4, hi) + ToBigEndian(4, lo)
  {
    BigEndianSplit(4, 4, hi, lo);
  }

  lemma {:induction false} BigEndianSplit(j: nat, k: nat, hi: nat, lo: nat)
    requires lo < Pow256(k)
    ensures ToBigEndian(j + k, hi * Pow256(k) + lo) == ToBigEndian(j, hi) + ToBigEndian(k, lo)
  {
    if k == 0 {
      assert ToBigEndian(j, hi) + [] == ToBigEndian(j, hi);
    } else {
      var v := hi * Pow256(k) + lo;
      var rest := hi * Pow256(k - 1);
      assert v == 256 * (rest + lo / 256) + lo % 256;
      ModUnique(v, 256, rest + lo / 256, lo % 256);
      BigEndianSplit(j, k - 1, hi, lo / 256);
      Associative(ToBigEndian(j, hi), ToBigEndian(k - 1, lo / 256), [lo % 256]);
    }
  }

  lemma {:induction false} BigEndianInjective(k: nat, v: nat, w: nat)
    requires v < Pow256(k) && w < Pow256(k)
    requires ToBigEndian(k, v) == ToBigEndian(k, w)
    ensures v == w
  {
    if k > 0 {
      var a, b := ToBigEndian(k, v), ToBigEndian(k, w);
      assert a[..k - 1] == ToBigEndian(k - 1, v / 256) && b[..k - 1] == ToBigEndian(k - 1, w / 256);
      assert a[k - 1] == v % 256 && b[k - 1] == w % 256;
      BigEndianInjective(k - 1, v / 256, w / 256);
    }
  }

  /** A message is padded right exactly when its length is counted right modulo 2^61 octets. */
  lemma PadExact(msg: bytes, n: nat)
    ensures PadAs(msg, n) == Pad(msg) <==> n % 0x2000_0000_0000_0000 == |msg| % 0x2000_0000_0000_0000
  {
    hide Zeros;
    BitsOf(n);
    BitsOf(|msg|);
    var v, w := n * 8 % 0x1_0000_0000_0000_0000, |msg| * 8 % 0x1_0000_0000_0000_0000;
    var front := msg + [0x80] + Zeros(PadZeros(|msg|));
    if PadAs(msg, n) == Pad(msg) {
      assert PadAs(msg, n)[|front|..] == ToBigEndian(8, v) && Pad(msg)[|front|..] == ToBigEndian(8, w);
      EightOctets();
      BigEndianInjective(8, v, w);
    }
  }

  lemma EightOctets()
    ensures Pow256(8) == 0x1_0000_0000_0000_0000
  {
    assert Pow256(4) == 0x1_0000_0000;
  }

  lemma BitsOf(n: nat)
    ensures n * 8 % 0x1_0000_0000_0000_0000 == 8 * (n % 0x2000_0000_0000_0000)
  {
    ModUnique(n * 8, 0x1_0000_0000_0000_0000, n / 0x2000_0000_0000_0000, 8 * (n % 0x2000_0000_0000_0000));
  }
}
