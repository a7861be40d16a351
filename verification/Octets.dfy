// Octets, and the bitwise operators of C on unsigned values.

module Octets {

  type byte = b: int | 0 <= b < 256
  type bytes = seq<byte>

  /** The octets of a text. */
  function Ascii(s: string): (r: bytes)
    ensures |r| == |s|
  {
    seq(|s|, i requires 0 <= i < |s| => s[i] as int % 256)
  }

  /** The octets of a sequence of pieces. */
  function Concat(pieces: seq<bytes>): bytes {
    if pieces == [] then [] else pieces[0] + Concat(pieces[1..])
  }

  /** The octets in front of the first `mark`. */
  function UpTo(s: bytes, mark: byte): (r: bytes)
    ensures r <= s && mark !in r && (|r| < |s| ==> s[|r|] == mark)
  {
    if s == [] || s[0] == mark then [] else [s[0]] + UpTo(s[1..], mark)
  }

  lemma {:induction false} UpToMark(a: bytes, mark: byte, b: bytes)
    requires mark !in a
    ensures UpTo(a + [mark] + b, mark) == a
  {
    var s := a + [mark] + b;
    if a == [] {
      assert s[0] == mark;
    } else {
      assert s[0] == a[0] && a[0] in a;
      assert s[1..] == a[1..] + [mark] + b;
      UpToMark(a[1..], mark, b);
    }
  }

  function Total(sizes: seq<nat>): nat {
    if sizes == [] then 0 else Total(sizes[..|sizes| - 1]) + sizes[|sizes| - 1]
  }

  lemma TotalSnoc(sizes: seq<nat>, i: nat)
    requires i < |sizes|
    ensures Total(sizes[..i + 1]) == Total(sizes[..i]) + sizes[i]
  {
    assert sizes[..i + 1][..i] == sizes[..i];
  }

  lemma Associative<T>(a: seq<T>, b: seq<T>, c: seq<T>)
    ensures (a + b) + c == a + (b + c)
  {}

  /** A sequence around its element `n`. */
  lemma Around<T>(s: seq<T>, n: nat)
    requires n < |s|
    ensures s[..n] + [s[n]] == s[..n + 1]
    ensures s[..n] + [s[n]] + s[n + 1..] == s
    ensures n + 1 == |s| ==> s[..n] + [s[n]] == s
  {}

  lemma OneOctet<T>(s: seq<T>, i: nat)
    requires i < |s|
    ensures s[i..i + 1] == [s[i]]
  {}

  lemma Cut<T>(s: seq<T>, i: nat, j: nat)
    requires i <= j <= |s|
    ensures s[i..j] + s[j..] == s[i..]
    ensures s[..j] + s[j..] == s
  {}

  lemma SliceOfSlice<T>(s: seq<T>, i: nat, j: nat, k: nat)
    requires i <= j <= |s| && i + k <= j
    ensures s[i..j][0..k] == s[i..i + k]
    ensures s[0..i] == s[..i] && s[0..i + k] == s[..i + k]
  {}

  lemma SliceInside<T>(s: seq<T>, i: nat, j: nat, lo: nat, hi: nat)
    requires i <= lo <= hi <= j <= |s|
    ensures s[i..j][lo - i..hi - i] == s[lo..hi]
  {
    var t := s[i..j];
    assert forall k :: lo - i <= k < hi - i ==> t[k] == s[i + k];
    assert |t[lo - i..hi - i]| == |s[lo..hi]|;
  }

  lemma Splice<T>(s: seq<T>, i: nat, j: nat, k: nat)
    requires i <= j <= k <= |s|
    ensures s[i..j] + s[j..k] == s[i..k]
  {}

  function Pow2(n: nat): (r: nat)
    ensures r > 0
  {
    if n == 0 then 1 else 2 * Pow2(n - 1)
  }

  /** How many values `n` octets can hold. */
  function Pow256(n: nat): (r: nat)
    ensures r > 0
  {
    if n == 0 then 1 else 256 * Pow256(n - 1)
  }

  lemma {:induction false} Pow256Grows(m: nat, n: nat)
    requires m <= n
    ensures Pow256(m) <= Pow256(n)
  {
    if m < n {
      Pow256Grows(m, n - 1);
    }
  }

  /** Division with remainder is unique. */
  lemma ModUnique(x: nat, m: nat, q: nat, r: nat)
    requires x == m * q + r && r < m
    ensures x % m == r && x / m == q
  {
    var q', r' := x / m, x % m;
    assert x == m * q' + r';
    assert m * (q - q') == m * q - m * q';
    MulGap(m, q - q');
  }

  lemma ModMinus(a: nat, m: nat)
    requires 0 < m <= a
    ensures (a - m) % m == a % m
  {
    var d, r := (a - m) / m, (a - m) % m;
    assert a - m == m * d + r;
    assert m * (d + 1) == m * d + m;
    ModUnique(a, m, d + 1, r);
  }

  lemma MulGap(m: nat, d: int)
    ensures d >= 1 ==> m * d >= m
    ensures d <= -1 ==> m * d + m <= 0
  {
    assert m * d == m + m * (d - 1) == m * (d + 1) - m;
  }

  /** C's `a ^ b`. */
  function BitXor(a: nat, b: nat): nat {
    if a == 0 && b == 0 then 0 else 2 * BitXor(a / 2, b / 2) + (a + b) % 2
  }

  /** C's `a | b`. */
  function BitOr(a: nat, b: nat): nat {
    if a == 0 && b == 0 then 0
    else 2 * BitOr(a / 2, b / 2) + (if a % 2 == 1 || b % 2 == 1 then 1 else 0)
  }

  lemma {:induction false} BitsBounded(n: nat, a: nat, b: nat)
    requires a < Pow2(n) && b < Pow2(n)
    ensures BitXor(a, b) < Pow2(n)
    ensures BitOr(a, b) < Pow2(n)
  {
    if a != 0 || b != 0 {
      BitsBounded(n - 1, a / 2, b / 2);
    }
  }

  function Xor(a: byte, b: byte): byte {
    assert Pow2(8) == 256;
    BitsBounded(8, a, b);
    BitXor(a, b)
  }

  function Or(a: byte, b: byte): byte {
    assert Pow2(8) == 256;
    BitsBounded(8, a, b);
    BitOr(a, b)
  }

  lemma BitXorSplit(h: nat, r: nat, k: nat)
    requires r < 2
    ensures BitXor(2 * h + r, k) == 2 * BitXor(h, k / 2) + (r + k) % 2
  {
    assert (2 * h + r) / 2 == h;
  }

  lemma ParityBack(a: nat, k: nat)
    ensures ((a + k) % 2 + k) % 2 == a % 2
  {}

  lemma {:induction false} BitXorInvolution(a: nat, k: nat)
    ensures BitXor(BitXor(a, k), k) == a
  {
    if a != 0 || k != 0 {
      var h, r := BitXor(a / 2, k / 2), (a + k) % 2;
      BitXorInvolution(a / 2, k / 2);
      BitXorSplit(h, r, k);
      ParityBack(a, k);
      assert BitXor(a, k) == 2 * h + r;
    }
  }

  /** Masking twice with one key octet gives the octet back. */
  lemma XorInvolution(a: byte, k: byte)
    ensures Xor(Xor(a, k), k) == a
  {
    BitXorInvolution(a, k);
  }

  lemma {:induction false} BitXorSymmetric(a: nat, b: nat)
    ensures BitXor(a, b) == BitXor(b, a)
  {
    if a != 0 || b != 0 {
      BitXorSymmetric(a / 2, b / 2);
    }
  }

  /** Two key octets that mask some octet alike are the same. */
  lemma XorCancel(a: byte, j: byte, k: byte)
    requires Xor(a, j) == Xor(a, k)
    ensures j == k
  {
    BitXorSymmetric(a, j);
    BitXorSymmetric(a, k);
    BitXorInvolution(j, a);
    BitXorInvolution(k, a);
  }

  /** The two low octets of a number give its low 16 bits. */
  lemma LowOctets(n: nat)
    ensures n / 256 % 256 * 256 + n % 256 == n % 0x1_0000
  {
    var q, r := n / 0x1_0000, n % 0x1_0000;
    assert n / 256 == 256 * q + r / 256;
    assert n % 256 == r % 256;
  }

  /** `|` is addition where the operands share no bit: `a` is a multiple of 2^shift and `b` is below it. */
  lemma {:induction false} BitOrDisjoint(shift: nat, a: nat, b: nat)
    requires b < Pow2(shift)
    ensures BitOr(a * Pow2(shift), b) == a * Pow2(shift) + b
  {
    if shift == 0 {
      BitOrZero(a);
    } else {
      assert a * Pow2(shift) == 2 * (a * Pow2(shift - 1));
      BitOrDisjoint(shift - 1, a, b / 2);
    }
  }

  lemma {:induction false} BitOrSymmetric(a: nat, b: nat)
    ensures BitOr(a, b) == BitOr(b, a)
  {
    if a != 0 || b != 0 {
      BitOrSymmetric(a / 2, b / 2);
    }
  }

  lemma {:induction false} BitOrZero(a: nat)
    ensures BitOr(a, 0) == a
  {
    if a > 0 {
      BitOrZero(a / 2);
    }
  }
}
