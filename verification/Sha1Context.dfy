// The streaming SHA-1 of the library: a 64-octet carry buffer, a split octet count, and a block
// function over a circular schedule of 16 words and registers that trade places.

module Sha1Context {
  import opened Octets
  import opened Sha1

  /** The library's choice function has one operation fewer. */
  function FastCh(x: word, y: word, z: word): word {
    z ^ (x & (y ^ z))
  }

  function FastMaj(x: word, y: word, z: word): word {
    (x & y) | (z & (x | y))
  }

  function Accumulate(e: word, r: word, f: word, k: word, x: word): word {
    e + (r + f + k + x)
  }

  /** The rewritten forms are the functions of section 4.1.1 of FIPS 180-4, and the sum of section 6.1.2. */
  lemma ChForm(x: word, y: word, z: word)
    ensures FastCh(x, y, z) == Ch(x, y, z)
  {
    ChBits(x, y, z);
  }

  lemma ChBits(x: word, y: word, z: word)
    ensures z ^ (x & (y ^ z)) == (x & y) ^ (!x & z)
  {}

  lemma MajForm(x: word, y: word, z: word)
    ensures FastMaj(x, y, z) == Maj(x, y, z)
  {
    MajBits(x, y, z);
  }

  lemma MajBits(x: word, y: word, z: word)
    ensures (x & y) | (z & (x | y)) == (x & y) ^ (x & z) ^ (y & z)
  {}

  lemma SumForm(e: word, r: word, f: word, k: word, x: word)
    ensures Accumulate(e, r, f, k, x) == Sum(r, f, e, k, x)
  {}

  /** One step of the block function: registers `e` and `b` are updated in place. */
  method Step(t: nat, a: word, b: word, c: word, d: word, e: word, x: word) returns (e': word, b': word)
    requires t < 80
    ensures Regs(e', a, b', c, d) == Round(t, Regs(a, b, c, d, e), x)
  {
    hide RotL, Ch, Maj, Parity, FastCh, FastMaj, Accumulate, Sum;
    var f, k: word;
    ChForm(b, c, d);
    MajForm(b, c, d);
    if t < 20 {
      f, k := FastCh(b, c, d), 0x5a827999;
    } else if t < 40 {
      f, k := Parity(b, c, d), 0x6ed9eba1;
    } else if t < 60 {
      f, k := FastMaj(b, c, d), 0x8f1bbcdc;
    } else {
      f, k := Parity(b, c, d), 0xca62c1d6;
    }
    e' := Accumulate(e, RotL(a, 5), f, k, x);
    b' := RotL(b, 30);
    SumForm(e, RotL(a, 5), f, k, x);
  }

  /** The circular schedule holds the 16 words up to the latest one used. */
  ghost predicate Holds(w: seq<word>, m: Block, t: nat) {
    |w| == 16 && forall j :: Oldest(t) <= j < Oldest(t) + 16 ==> w[Slot(j)] == Schedule(m, j)
  }

  function Oldest(t: nat): nat {
    if t < 16 then 0 else t - 16
  }

  function Slot(j: nat): (r: nat)
    ensures r < 16
  {
    j % 16
  }

  lemma SlotsDiffer(i: nat, j: nat)
    requires i < j < i + 16
    ensures Slot(i) != Slot(j)
    ensures Slot(i + 16) == Slot(i)
  {}

  lemma HoldsNext(w: seq<word>, m: Block, t: nat)
    requires t >= 16 && Holds(w, m, t)
    ensures Holds(w[Slot(t) := Schedule(m, t)], m, t + 1)
  {
    var w' := w[Slot(t) := Schedule(m, t)];
    forall j | t - 15 <= j < t + 1 ensures w'[Slot(j)] == Schedule(m, j) {
      if j < t {
        SlotsDiffer(j, t);
        assert w[Slot(j)] == Schedule(m, j);
      }
    }
  }

  /** Word `t` of the schedule, computed over the oldest of the 16 words once all are used. */
  method NextWord(w: array<word>, ghost m: Block, t: nat) returns (x: word)
    requires w.Length == 16 && t < 80 && Holds(w[..], m, t)
    modifies w
    ensures Holds(w[..], m, t + 1)
    ensures x == Schedule(m, t)
  {
    hide RotL, Xor4;
    if t >= 16 {
      HoldsNext(w[..], m, t);
      OldWords(w[..], m, t);
      ghost var before := w[..];
      hide Holds;
      w[Slot(t)] := RotL(Xor4(w[Slot(t - 3)], w[Slot(t - 8)], w[Slot(t - 14)], w[Slot(t)]), 1);
      assert w[..] == before[Slot(t) := Schedule(m, t)];
      x := w[Slot(t)];
    } else {
      assert w[..][Slot(t)] == Schedule(m, t);
      x := w[Slot(t)];
    }
  }

  lemma OldWords(w: seq<word>, m: Block, t: nat)
    requires t >= 16 && Holds(w, m, t)
    ensures w[Slot(t - 3)] == Schedule(m, t - 3) && w[Slot(t - 8)] == Schedule(m, t - 8)
    ensures w[Slot(t - 14)] == Schedule(m, t - 14) && w[Slot(t)] == Schedule(m, t - 16)
  {
    hide Schedule;
    SlotsDiffer(t - 16, t - 1);
  }

  /** All 80 rounds, five at a time: after five the registers are back in their places. */
  method Process(h: Regs, m: Block) returns (r: Regs)
    ensures r == Compress(h, m)
  {
    hide Round, RotL, Schedule, Holds, Add;
    var w := new word[16](i requires 0 <= i < 16 => m[i]);
    assert w[..] == m;
    FirstWords(w[..], m);
    var a, b, c, d, e := h.a, h.b, h.c, h.d, h.e;
    for g := 0 to 16
      invariant Holds(w[..], m, 5 * g)
      invariant Regs(a, b, c, d, e) == Rounds(h, m, 5 * g)
    {
      var t := 5 * g;
      var x := NextWord(w, m, t);
      e, b := Step(t, a, b, c, d, e, x);
      x := NextWord(w, m, t + 1);
      d, a := Step(t + 1, e, a, b, c, d, x);
      x := NextWord(w, m, t + 2);
      c, e := Step(t + 2, d, e, a, b, c, x);
      x := NextWord(w, m, t + 3);
      b, d := Step(t + 3, c, d, e, a, b, x);
      x := NextWord(w, m, t + 4);
      a, c := Step(t + 4, b, c, d, e, a, x);
      FiveRounds(h, m, t);
    }
    r := Add(h, Regs(a, b, c, d, e));
  }

  lemma FirstWords(w: seq<word>, m: Block)
    requires w == m
    ensures Holds(w, m, 0)
  {
    forall j | 0 <= j < 16 ensures w[Slot(j)] == Schedule(m, j) {
      assert Slot(j) == j;
    }
  }

  lemma FiveRounds(h: Regs, m: Block, t: nat)
    ensures Rounds(h, m, t + 5)
         == Round(t + 4, Round(t + 3, Round(t + 2, Round(t + 1, Round(t, Rounds(h, m, t), Schedule(m, t)),
                  Schedule(m, t + 1)), Schedule(m, t + 2)), Schedule(m, t + 3)), Schedule(m, t + 4))
  {
    hide Round, Schedule;
    assert Rounds(h, m, t + 1) == Round(t, Rounds(h, m, t), Schedule(m, t));
    assert Rounds(h, m, t + 2) == Round(t + 1, Rounds(h, m, t + 1), Schedule(m, t + 1));
    assert Rounds(h, m, t + 3) == Round(t + 2, Rounds(h, m, t + 2), Schedule(m, t + 2));
    assert Rounds(h, m, t + 4) == Round(t + 3, Rounds(h, m, t + 3), Schedule(m, t + 3));
  }

  const WORD: nat := 0x1_0000_0000

  /** How much of `n` octets makes whole blocks. */
  function Whole(n: nat): (r: nat)
    ensures r <= n < r + 64 && r % 64 == 0
  {
    n - n % 64
  }

  /** The hash value `h` covers the whole blocks of `s`, and `carry` is the rest. */
  ghost predicate Absorbed(h: Regs, carry: bytes, s: bytes) {
    Hashed(h, s, Whole(|s|)) && carry == s[Whole(|s|)..]
  }

  /** The two counter words hold the count, modulo 2^64. */
  ghost predicate Counts(low: nat, high: nat, count: nat) {
    low < WORD && high < WORD && high * WORD + low == count % 0x1_0000_0000_0000_0000
  }

  /** The two counter words after `n` more octets, with the carry seen by comparison. */
  lemma CounterStep(low: nat, high: nat, count: nat, n: nat)
    requires Counts(low, high, count) && n < WORD
    ensures var low' := (low + n) % WORD;
            Counts(low', if low' < n then (high + 1) % WORD else high, count + n)
  {
    var q := count / 0x1_0000_0000_0000_0000;
    var low' := (low + n) % WORD;
    assert low' == if low + n < WORD then low + n else low + n - WORD;
    var high' := if low' < n then (high + 1) % WORD else high;
    var wraps := high + 1 == WORD && low' < n;
    assert high' == if wraps then 0 else if low' < n then high + 1 else high;
    ModUnique(count + n, 0x1_0000_0000_0000_0000, if wraps then q + 1 else q, high' * WORD + low');
  }

  lemma LowBits(low: nat, high: nat, count: nat)
    requires Counts(low, high, count)
    ensures low % 64 == count % 64
  {
    var q := count / 0x1_0000_0000_0000_0000;
    assert count == 64 * (q * 0x400_0000_0000_0000 + high * 0x400_0000) + low;
    ModUnique(low, 64, low / 64, low % 64);
    ModUnique(count, 64, q * 0x400_0000_0000_0000 + high * 0x400_0000 + low / 64, low % 64);
  }

  /** The two length words are the octet count in bits. */
  lemma LengthWords(low: nat, high: nat, count: nat)
    requires Counts(low, high, count)
    ensures ToBigEndian(4, BitOr(low / 0x2000_0000, high * 8 % WORD)) + ToBigEndian(4, low * 8 % WORD)
         == ToBigEndian(8, count * 8 % 0x1_0000_0000_0000_0000)
  {
    var h, l := high % 0x2000_0000, low % 0x2000_0000;
    var q, c := high / 0x2000_0000, low / 0x2000_0000;
    ModUnique(high * 8, WORD, q, h * 8);
    ModUnique(low * 8, WORD, c, l * 8);
    assert Pow2(3) == 8;
    BitOrDisjoint(3, h, c);
    BitOrSymmetric(c, h * 8);
    BigEndianHalves(h * 8 + c, l * 8);
    var all := count / 0x1_0000_0000_0000_0000;
    ModUnique(count * 8, 0x1_0000_0000_0000_0000, all * 8 + q, (h * 8 + c) * WORD + l * 8);
  }

  class Context {
    var total0: nat
    var total1: nat
    var state: Regs
    const buffer: array<byte>
    ghost var msg: bytes
    ghost var count: nat

    /** `count` is what the counter words hold; it is the length of `msg` unless a piece exceeds 32 bits. */
    ghost predicate Valid()
      reads this, buffer
    {
      && buffer.Length == 64
      && Counts(total0, total1, count)
      && count % 64 == |msg| % 64
      && Absorbed(state, buffer[..|msg| % 64], msg)
    }

    constructor ()
      ensures Valid() && fresh(buffer) && msg == [] && count == 0
    {
      hide Digest, Absorbed;
      NothingYet();
      buffer := new byte[64](_ => 0);
      total0, total1, state := 0, 0, INITIAL;
      msg, count := [], 0;
    }

    method Copy(at: nat, data: bytes)
      requires at + |data| <= buffer.Length
      modifies buffer
      ensures buffer[..at + |data|] == old(buffer[..at]) + data
      ensures buffer[at + |data|..] == old(buffer[at + |data|..])
    {
      forall k | 0 <= k < |data| {
        buffer[at + k] := data[k];
      }
    }

    method Count(n: nat)
      requires Counts(total0, total1, count)
      modifies `total0, `total1, `count
      ensures Counts(total0, total1, count) && count == old(count) + n % WORD
    {
      CounterStep(total0, total1, count, n % WORD);
      total0 := (total0 + n % WORD) % WORD;
      if total0 < n % WORD {
        total1 := (total1 + 1) % WORD;
      }
      count := count + n % WORD;
    }

    /** Takes in a further piece of the message, of any length. */
    method Update(input: bytes)
      requires Valid()
      modifies this, buffer
      ensures Valid() && msg == old(msg) + input
      ensures count == old(count) + |input| % WORD
    {
      hide Compress, Digest, Hashed, Counts, Absorbed;
      if |input| == 0 {
        assert msg == msg + input;
        return;
      }
      ghost var all := msg + input;
      LowBits(total0, total1, count);
      var left := total0 % 64;
      var fill := 64 - left;
      ghost var done := |msg| - left;
      Joined(state, buffer[..left], msg, input);
      Counted(count, |msg|, |input|);
      Count(|input|);
      var i := 0;
      if left != 0 && |input| >= fill {
        Copy(left, input[..fill]);
        FirstBlock(all, done, old(buffer[..left]), input);
        state := ProcessNext(state, buffer[..], all, done);
        i, left, done := fill, 0, done + 64;
      }
      state, i, done := Blocks(state, input, i, left, all, done);
      Keep(left, input[i..], all, done);
    }

    /** Fewer octets than fill the buffer are kept for later. */
    method Keep(left: nat, rest: bytes, ghost all: bytes, ghost done: nat)
      requires buffer.Length == 64 && left + |rest| < 64 && done <= |all| && Hashed(state, all, done)
      requires all[done..] == buffer[..left] + rest
      modifies `msg, buffer
      ensures msg == all && Absorbed(state, buffer[..|msg| % 64], msg)
    {
      hide Digest, Hashed, Absorbed;
      ghost var carry := buffer[..left];
      if |rest| > 0 {
        Copy(left, rest);
      }
      msg := all;
      assert buffer[..left + |rest|] == carry + rest;
      Rest(state, carry + rest, all, done);
    }

    /** Pads the message, with the length as counted, and gives the hash value. */
    method Finish() returns (output: bytes)
      requires Valid()
      modifies `state, buffer
      ensures output == Output(Digest(INITIAL, PadAs(msg, count)))
      ensures count % 0x2000_0000_0000_0000 == |msg| % 0x2000_0000_0000_0000 ==> output == Hash(msg)
    {
      hide Digest, Hashed, Absorbed, Output, Zeros, Counts, PadAs, Pad, ToBigEndian;
      LowBits(total0, total1, count);
      var used := total0 % 64;
      ghost var carry, all := buffer[..used], PadAs(msg, count);
      ghost var done := |msg| - used;
      Padded(state, carry, msg, count);
      Copy(used, [0x80]);
      used := used + 1;
      if used <= 56 {
        Copy(used, Zeros(56 - used));
      } else {
        Copy(used, Zeros(64 - used));
        state := ProcessNext(state, buffer[..], all, done);
        Copy(0, Zeros(56));
        done := done + 64;
      }
      LengthBlock(all, done);
      PadExact(msg, count);
      output := Output(state);
    }

    /** The last block ends in the number of bits. */
    method LengthBlock(ghost all: bytes, ghost done: nat)
      requires buffer.Length == 64 && Counts(total0, total1, count)
      requires Hashed(state, all, done) && |all| == done + 64
      requires all[done..] == buffer[..56] + ToBigEndian(8, count * 8 % 0x1_0000_0000_0000_0000)
      modifies `state, buffer
      ensures state == Digest(INITIAL, all)
    {
      hide Digest, Hashed, Counts;
      var high, low := BitOr(total0 / 0x2000_0000, total1 * 8 % WORD), total0 * 8 % WORD;
      LengthWords(total0, total1, count);
      ghost var front := buffer[..56];
      PutU32(high, 56);
      PutU32(low, 60);
      Associative(front, ToBigEndian(4, high), ToBigEndian(4, low));
      assert buffer[..] == buffer[..64] == all[done..done + 64];
      state := ProcessNext(state, buffer[..], all, done);
      WholeDigest(state, all, done + 64);
    }

    method PutU32(n: nat, at: nat)
      requires at + 4 <= buffer.Length
      modifies buffer
      ensures buffer[..at + 4] == old(buffer[..at]) + ToBigEndian(4, n)
      ensures buffer[at + 4..] == old(buffer[at + 4..])
    {
      FourOctets(n);
      Copy(at, [n / 0x100_0000 % 256, n / 0x1_0000 % 256, n / 256 % 256, n % 256]);
    }

    /** The whole blocks of `input` from `i`; when octets are `left` in the buffer there are none. */
    static method Blocks(h: Regs, input: bytes, i: nat, ghost left: nat, ghost all: bytes, ghost done: nat)
      returns (r: Regs, j: nat, ghost d: nat)
      requires i <= |input| && Hashed(h, all, done)
      requires if left == 0 then all[done..] == input[i..] else |input| - i < 64
      ensures i <= j <= |input| && |input| - j < 64
      ensures Hashed(r, all, d) && d <= |all|
      ensures if left == 0 then all[d..] == input[j..] else j == i && d == done
    {
      hide Compress, Digest;
      r, j, d := h, i, done;
      while |input| - j >= 64
        invariant i <= j <= |input|
        invariant Hashed(r, all, d) && d <= |all|
        invariant if left == 0 then all[d..] == input[j..] else j == i && d == done
      {
        Ahead(all, d, input, j);
        r := ProcessNext(r, input[j..j + 64], all, d);
        j, d := j + 64, d + 64;
      }
    }

    /** The block function applied to the next 64 octets of `all`. */
    static method ProcessNext(h: Regs, block: bytes, ghost all: bytes, ghost done: nat) returns (r: Regs)
      requires |block| == 64 && Hashed(h, all, done) && done + 64 <= |all| && block == all[done..done + 64]
      ensures Hashed(r, all, done + 64)
    {
      hide Compress, BlockOf, Digest;
      DigestBlock(all, done);
      r := Process(h, BlockOf(block));
    }
  }

  lemma NothingYet()
    ensures Absorbed(INITIAL, [], [])
  {}

  /** `h` is the hash value after the first `n` octets, which are whole blocks. */
  ghost predicate Hashed(h: Regs, s: bytes, n: nat) {
    n % 64 == 0 && n <= |s| && h == Digest(INITIAL, s[..n])
  }

  lemma Ahead(all: bytes, d: nat, input: bytes, j: nat)
    requires d <= |all| && j + 64 <= |input| && all[d..] == input[j..]
    ensures d + 64 <= |all| && all[d..d + 64] == input[j..j + 64] && all[d + 64..] == input[j + 64..]
  {
    assert all[d..][..64] == input[j..][..64];
    assert all[d..][64..] == input[j..][64..];
  }

  lemma FirstBlock(all: bytes, done: nat, carry: bytes, t: bytes)
    requires done <= |all| && all[done..] == carry + t && |carry| < 64 <= |carry| + |t|
    ensures done + 64 <= |all| && all[done..done + 64] == carry + t[..64 - |carry|]
    ensures all[done + 64..] == t[64 - |carry|..]
  {
    assert all[done..][..64] == all[done..done + 64];
    assert all[done..][64..] == all[done + 64..];
  }

  lemma Joined(h: Regs, carry: bytes, s: bytes, t: bytes)
    requires Absorbed(h, carry, s) && |carry| == |s| % 64
    ensures Hashed(h, s + t, |s| - |carry|) && (s + t)[|s| - |carry|..] == carry + t
  {
    hide Digest;
    var done := Whole(|s|);
    assert (s + t)[..done] == s[..done];
    assert (s + t)[done..] == s[done..] + t;
  }

  /** Fewer than 64 octets are left beyond the blocks covered by `h`. */
  lemma Rest(h: Regs, carry: bytes, s: bytes, n: nat)
    requires |carry| < 64 && n <= |s| && Hashed(h, s, n) && s[n..] == carry
    ensures Absorbed(h, carry, s) && |carry| == |s| % 64
  {
    hide Digest;
    assert Whole(|s|) == n;
  }

  lemma FourOctets(n: nat)
    ensures ToBigEndian(4, n) == [n / 0x100_0000 % 256, n / 0x1_0000 % 256, n / 256 % 256, n % 256]
  {
    assert n / 256 / 256 == n / 0x1_0000 && n / 256 / 256 / 256 == n / 0x100_0000;
    assert ToBigEndian(1, n / 0x100_0000) == [n / 0x100_0000 % 256];
    assert ToBigEndian(2, n / 0x1_0000) == [n / 0x100_0000 % 256, n / 0x1_0000 % 256];
    assert ToBigEndian(3, n / 256) == [n / 0x100_0000 % 256, n / 0x1_0000 % 256, n / 256 % 256];
  }

  /** What is left to hash when the message ends: one block, or two if the length does not fit the first. */
  lemma Padded(h: Regs, carry: bytes, msg: bytes, n: nat)
    requires Absorbed(h, carry, msg) && |carry| == |msg| % 64
    ensures var all, done := PadAs(msg, n), |msg| - |carry|;
            var len := ToBigEndian(8, n * 8 % 0x1_0000_0000_0000_0000);
            && Hashed(h, all, done)
            && if |carry| <= 55 then |all| == done + 64 && all[done..] == carry + [0x80] + Zeros(55 - |carry|) + len
               else
                 && |all| == done + 128
                 && all[done..done + 64] == carry + [0x80] + Zeros(63 - |carry|)
                 && all[done + 64..] == Zeros(56) + len
  {
    var len := ToBigEndian(8, n * 8 % 0x1_0000_0000_0000_0000);
    var u, z := |carry|, PadZeros(|msg|);
    var all, done := PadAs(msg, n), |msg| - u;
    var pad := [0x80] + Zeros(z) + len;
    assert all == msg + pad;
    Joined(h, carry, msg, pad);
    PadCount(|msg|);
    if u > 55 {
      assert Zeros(z) == Zeros(63 - u) + Zeros(56);
      var first := carry + [0x80] + Zeros(63 - u);
      assert carry + pad == first + (Zeros(56) + len);
      assert all[done..][..64] == all[done..done + 64] && all[done..][64..] == all[done + 64..];
    } else {
      assert carry + pad == carry + [0x80] + Zeros(55 - u) + len;
    }
  }

  lemma PadCount(n: nat)
    ensures PadZeros(n) == if n % 64 <= 55 then 55 - n % 64 else 119 - n % 64
  {}

  lemma WholeDigest(h: Regs, s: bytes, n: nat)
    requires Hashed(h, s, n) && n == |s|
    ensures h == Digest(INITIAL, s)
  {
    hide Digest;
    assert s[..n] == s;
  }

  lemma Counted(count: nat, m: nat, n: nat)
    requires count % 64 == m % 64
    ensures (count + n % WORD) % 64 == (m + n) % 64
  {
    var q := n / WORD;
    assert m + n == m + n % WORD + 64 * (q * 0x400_0000);
  }
}
