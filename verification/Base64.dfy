// The base64 encoder of the handshake, against section 4 of RFC 4648.

module Base64 {
  import opened Octets

  datatype Decoded = Text(octets: bytes) | Malformed

  const PADDING: byte := 0x3d
  const SIZE_LIMIT: nat := 0x1_0000_0000_0000_0000

  /** The alphabet: letters, digits, `+` and `/`. Only the low six bits select. */
  function Symbol(n: byte): (c: byte)
    ensures c != PADDING
  {
    var v := n % 64;
    if v < 26 then 0x41 + v
    else if v < 52 then 0x61 + v - 26
    else if v < 62 then 0x30 + v - 52
    else if v == 62 then 0x2b
    else 0x2f
  }

  /** The value of a symbol of the alphabet; 64 for any other octet. */
  function Value(c: byte): (v: nat)
    ensures v <= 64
  {
    if 0x41 <= c <= 0x5a then c - 0x41
    else if 0x61 <= c <= 0x7a then c - 0x61 + 26
    else if 0x30 <= c <= 0x39 then c - 0x30 + 52
    else if c == 0x2b then 62
    else if c == 0x2f then 63
    else 64
  }

  function Octet(s: bytes, i: nat): byte {
    if i < |s| then s[i] else 0
  }

  /** Bits 6k to 6k+5 of the octets, zeros following the last. */
  function Sextet(s: bytes, k: nat): (r: nat)
    ensures r < 64
  {
    var j := k / 4 * 3;
    match k % 4
    case 0 => Octet(s, j) / 4
    case 1 => Octet(s, j) % 4 * 16 + Octet(s, j + 1) / 16
    case 2 => Octet(s, j + 1) % 16 * 4 + Octet(s, j + 2) / 64
    case _ => Octet(s, j + 2) % 64
  }

  /** Four symbols for every three octets begun; symbols without any bit of the input are padding. */
  function Encode(s: bytes): (r: bytes)
    ensures |r| == (|s| + 2) / 3 * 4
  {
    seq((|s| + 2) / 3 * 4, k requires 0 <= k => if 6 * k < 8 * |s| then Symbol(Sextet(s, k)) else PADDING)
  }

  function PaddingOf(t: bytes): (r: nat)
    requires |t| >= 2
    ensures r <= 2
  {
    if t[|t| - 1] != PADDING then 0 else if t[|t| - 2] != PADDING then 1 else 2
  }

  /** Bits 8i to 8i+7 of the symbols. */
  function OctetOf(t: bytes, i: nat): byte
    requires |t| % 4 == 0 && i < |t| / 4 * 3
  {
    var j := i / 3 * 4;
    match i % 3
    case 0 => (Value(t[j]) * 4 + Value(t[j + 1]) / 16) % 256
    case 1 => (Value(t[j + 1]) % 16 * 16 + Value(t[j + 2]) / 4) % 256
    case _ => (Value(t[j + 2]) % 4 * 64 + Value(t[j + 3])) % 256
  }

  function Decode(t: bytes): Decoded {
    if |t| % 4 != 0 then Malformed
    else if t == [] then Text([])
    else
      var pad := PaddingOf(t);
      if exists k :: 0 <= k < |t| - pad && Value(t[k]) == 64 then Malformed
      else Text(seq(|t| / 4 * 3 - pad, i requires 0 <= i < |t| / 4 * 3 - pad => OctetOf(t, i)))
  }

  lemma FourSymbols(a: byte, b: byte, c: byte)
    ensures Encode([a, b, c])
         == [Symbol(a / 4), Symbol(a % 4 * 16 + b / 16), Symbol(b % 16 * 4 + c / 64), Symbol(c % 64)]
  {}

  lemma TwoSymbols(a: byte)
    ensures Encode([a]) == [Symbol(a / 4), Symbol(a % 4 * 16), PADDING, PADDING]
  {}

  /** Two of the test vectors in section 10 of RFC 4648, and one with the last two symbols of the alphabet. */
  lemma Vectors()
    ensures Encode(Ascii("f")) == Ascii("Zg==") && Encode(Ascii("foo")) == Ascii("Zm9v")
    ensures Encode([0xfb, 0xff, 0xbf]) == Ascii("+/+/")
  {
    hide Encode;
    assert Ascii("f") == [0x66] && Ascii("foo") == [0x66, 0x6f, 0x6f];
    TwoSymbols(0x66);
    FourSymbols(0x66, 0x6f, 0x6f);
    FourSymbols(0xfb, 0xff, 0xbf);
  }

  lemma SymbolValue(n: byte)
    ensures Value(Symbol(n)) == n % 64
  {}

  lemma EncodedSymbol(s: bytes, k: nat)
    requires 6 * k < 8 * |s|
    ensures k < |Encode(s)| && |Encode(s)| % 4 == 0
    ensures Encode(s)[k] == Symbol(Sextet(s, k)) && Value(Encode(s)[k]) == Sextet(s, k)
  {
    SymbolValue(Sextet(s, k));
  }

  lemma EncodedPadding(s: bytes)
    requires s != []
    ensures PaddingOf(Encode(s)) == |Encode(s)| / 4 * 3 - |s| == (3 - |s| % 3) % 3
  {
    var n, t := |s|, Encode(s);
    assert n == n / 3 * 3 + n % 3;
  }

  /** Three octets from four sextets. */
  lemma Regroup(a: byte, b: byte, c: byte)
    ensures (a / 4 * 4 + (a % 4 * 16 + b / 16) / 16) % 256 == a
    ensures ((a % 4 * 16 + b / 16) % 16 * 16 + (b % 16 * 4 + c / 64) / 4) % 256 == b
    ensures ((b % 16 * 4 + c / 64) % 4 * 64 + c % 64) % 256 == c
  {
    assert (a % 4 * 16 + b / 16) / 16 == a % 4 && (a % 4 * 16 + b / 16) % 16 == b / 16;
    assert (b % 16 * 4 + c / 64) / 4 == b % 16 && (b % 16 * 4 + c / 64) % 4 == c / 64;
  }

  lemma OctetOfGroup(t: bytes, g: nat)
    requires |t| % 4 == 0 && 4 * g < |t|
    ensures OctetOf(t, 3 * g) == (Value(t[4 * g]) * 4 + Value(t[4 * g + 1]) / 16) % 256
    ensures OctetOf(t, 3 * g + 1) == (Value(t[4 * g + 1]) % 16 * 16 + Value(t[4 * g + 2]) / 4) % 256
    ensures OctetOf(t, 3 * g + 2) == (Value(t[4 * g + 2]) % 4 * 64 + Value(t[4 * g + 3])) % 256
  {
    hide Value;
  }

  lemma OctetAt(s: bytes, i: nat)
    requires i < |s|
    ensures Octet(s, i) == s[i]
  {}

  lemma OctetBack(s: bytes, g: nat, r: nat)
    requires r < 3 && 3 * g + r < |s|
    ensures OctetOf(Encode(s), 3 * g + r) == s[3 * g + r]
  {
    hide Encode, Value, Sextet, Octet, OctetOf;
    var a, b, c := Octet(s, 3 * g), Octet(s, 3 * g + 1), Octet(s, 3 * g + 2);
    EncodedSymbol(s, 4 * g + r);
    EncodedSymbol(s, 4 * g + r + 1);
    SextetsOf(s, g);
    if r == 0 {
      OctetOfFirst(Encode(s), g, a, b);
    } else if r == 1 {
      OctetOfSecond(Encode(s), g, a, b, c);
    } else {
      OctetOfThird(Encode(s), g, b, c);
    }
    OctetAt(s, 3 * g + r);
  }

  lemma OctetOfFirst(t: bytes, g: nat, a: byte, b: byte)
    requires |t| % 4 == 0 && 4 * g + 1 < |t|
    requires Value(t[4 * g]) == a / 4 && Value(t[4 * g + 1]) == a % 4 * 16 + b / 16
    ensures OctetOf(t, 3 * g) == a
  {
    hide Value;
    Regroup(a, b, 0);
    OctetOfGroup(t, g);
  }

  lemma OctetOfSecond(t: bytes, g: nat, a: byte, b: byte, c: byte)
    requires |t| % 4 == 0 && 4 * g + 2 < |t|
    requires Value(t[4 * g + 1]) == a % 4 * 16 + b / 16 && Value(t[4 * g + 2]) == b % 16 * 4 + c / 64
    ensures OctetOf(t, 3 * g + 1) == b
  {
    hide Value;
    Regroup(a, b, c);
    OctetOfGroup(t, g);
  }

  lemma OctetOfThird(t: bytes, g: nat, b: byte, c: byte)
    requires |t| % 4 == 0 && 4 * g + 3 < |t|
    requires Value(t[4 * g + 2]) == b % 16 * 4 + c / 64 && Value(t[4 * g + 3]) == c % 64
    ensures OctetOf(t, 3 * g + 2) == c
  {
    hide Value;
    Regroup(0, b, c);
    OctetOfGroup(t, g);
  }

  lemma SextetsOf(s: bytes, g: nat)
    ensures Sextet(s, 4 * g) == Octet(s, 3 * g) / 4
    ensures Sextet(s, 4 * g + 1) == Octet(s, 3 * g) % 4 * 16 + Octet(s, 3 * g + 1) / 16
    ensures Sextet(s, 4 * g + 2) == Octet(s, 3 * g + 1) % 16 * 4 + Octet(s, 3 * g + 2) / 64
    ensures Sextet(s, 4 * g + 3) == Octet(s, 3 * g + 2) % 64
  {}

  /** Decoding undoes encoding, with either padding or none. */
  lemma RoundTrip(s: bytes)
    ensures Decode(Encode(s)) == Text(s)
  {
    hide Encode, OctetOf, Value, Sextet, PaddingOf;
    var t := Encode(s);
    if s != [] {
      EncodedPadding(s);
      forall k | 0 <= k < |t| - PaddingOf(t) ensures Value(t[k]) != 64 {
        EncodedSymbol(s, k);
      }
      forall i | 0 <= i < |s| ensures OctetOf(t, i) == s[i] {
        OctetBack(s, i / 3, i % 3);
      }
      assert Decode(t).octets == s;
    }
  }

  // ---- The encoder ----

  /** The size as computed in machine words, which may wrap around. */
  function EncodedSize(size: nat): nat {
    4 * (size / 3 + if size % 3 != 0 then 1 else 0) % SIZE_LIMIT
  }

  /** The encoder's guard sees any wrap-around: it lets through exactly what fits. */
  lemma GuardExact(n: nat, max: nat)
    requires n < SIZE_LIMIT && max < SIZE_LIMIT
    ensures max >= EncodedSize(n) >= n <==> (n + 2) / 3 * 4 <= max
  {
    var full := 4 * (n / 3 + if n % 3 != 0 then 1 else 0);
    assert full == (n + 2) / 3 * 4;
    if full >= SIZE_LIMIT {
      ModUnique(full, SIZE_LIMIT, 1, full - SIZE_LIMIT);
    }
  }

  /** The octet left over from the group in hand, shifted to where the next symbol takes it. */
  function Carried(s: bytes, i: nat): byte
    requires i <= |s|
  {
    if i % 3 == 1 then s[i - 1] as nat * 16 % 256
    else if i % 3 == 2 then s[i - 1] as nat * 4 % 256
    else 0
  }

  /** How many symbols are written after `i` octets. */
  function Place(i: nat): nat {
    i / 3 * 4 + i % 3
  }

  lemma PlaceNext(i: nat)
    ensures Place(i + 1) == Place(i) + if i % 3 == 2 then 2 else 1
  {}

  lemma SymbolLow(x: byte, v: nat)
    requires x % 64 == v < 64
    ensures Symbol(x) == Symbol(v)
  {}

  /** Shifting within an octet: by four bits and by two. */
  lemma Shifted(a: byte)
    ensures a as nat * 16 % 256 == a % 16 * 16 && a as nat * 4 % 256 == a % 64 * 4
  {
    ModUnique(a as nat * 16, 256, a / 16, a % 16 * 16);
    ModUnique(a as nat * 4, 256, a / 64, a % 64 * 4);
  }

  /** The low six bits of a shifted octet with the next bits below it. */
  lemma LowSixOfFour(a: byte, x: nat)
    requires x < 16
    ensures (a % 16 * 16 + x) % 64 == a % 4 * 16 + x
  {
    var p, m := a as nat / 16, a as nat % 16;
    var q, r := m / 4, m % 4;
    ModUnique(a, 4, 4 * p + q, r);
    ModUnique(m * 16 + x, 64, q, r * 16 + x);
  }

  lemma LowSixOfTwo(a: byte, y: nat)
    requires y < 4
    ensures (a % 64 * 4 + y) % 64 == a % 16 * 4 + y
  {
    var p, m := a as nat / 64, a as nat % 64;
    var q, r := m / 16, m % 16;
    ModUnique(a, 16, 4 * p + q, r);
    ModUnique(m * 4 + y, 64, q, r * 4 + y);
  }

  lemma OrBelow(h: nat, b: nat)
    ensures h < 16 && b < 16 ==> Or(h * 16, b) == h * 16 + b
    ensures h < 64 && b < 4 ==> Or(h * 4, b) == h * 4 + b
  {
    assert Pow2(2) == 4 && Pow2(4) == 16;
    if h < 16 && b < 16 {
      BitOrDisjoint(4, h, b);
    }
    if h < 64 && b < 4 {
      BitOrDisjoint(2, h, b);
    }
  }

  lemma SecondSextet(a: byte, b: byte)
    ensures Or(a as nat * 16 % 256, b / 16) % 64 == a % 4 * 16 + b / 16
  {
    hide Or;
    Shifted(a);
    OrBelow(a % 16, b / 16);
    LowSixOfFour(a, b / 16);
  }

  lemma ThirdSextet(a: byte, b: byte)
    ensures Or(a as nat * 4 % 256, b / 64) % 64 == a % 16 * 4 + b / 64
  {
    hide Or;
    Shifted(a);
    OrBelow(a % 64, b / 64);
    LowSixOfTwo(a, b / 64);
  }

  lemma ShiftedSextet(a: byte)
    ensures a as nat * 16 % 256 % 64 == a % 4 * 16 && a as nat * 4 % 256 % 64 == a % 16 * 4
  {
    Shifted(a);
    LowSixOfFour(a, 0);
    LowSixOfTwo(a, 0);
  }

  /** The symbols that octet `i` completes. */
  lemma SymbolsAt(s: bytes, i: nat)
    requires i < |s|
    ensures i % 3 == 0 ==> Symbol(s[i] / 4) == Symbol(Sextet(s, Place(i)))
    ensures i % 3 == 1 ==> Symbol(Or(Carried(s, i), s[i] / 16)) == Symbol(Sextet(s, Place(i)))
    ensures i % 3 == 2 ==> Symbol(Or(Carried(s, i), s[i] / 64)) == Symbol(Sextet(s, Place(i)))
    ensures i % 3 == 2 ==> Symbol(s[i]) == Symbol(Sextet(s, Place(i) + 1))
  {
    hide Symbol, Sextet, Or;
    SextetsOf(s, i / 3);
    if i % 3 == 1 {
      SecondSextet(s[i - 1], s[i]);
      SymbolLow(Or(Carried(s, i), s[i] / 16), Sextet(s, Place(i)));
    } else if i % 3 == 2 {
      ThirdSextet(s[i - 1], s[i]);
      SymbolLow(Or(Carried(s, i), s[i] / 64), Sextet(s, Place(i)));
      SymbolLow(s[i], Sextet(s, Place(i) + 1));
    }
  }

  lemma LastSymbol(s: bytes)
    requires |s| % 3 != 0
    ensures Symbol(Carried(s, |s|)) == Symbol(Sextet(s, Place(|s|)))
  {
    hide Symbol, Sextet;
    SextetsOf(s, |s| / 3);
    ShiftedSextet(s[|s| - 1]);
    SymbolLow(Carried(s, |s|), Sextet(s, Place(|s|)));
  }

  lemma SymbolsEncode(s: bytes, out: bytes)
    requires |out| == (|s| + 2) / 3 * 4
    requires forall k :: 0 <= k < |out| ==> out[k] == if 6 * k < 8 * |s| then Symbol(Sextet(s, k)) else PADDING
    ensures out == Encode(s)
  {}

  lemma PlaceEnd(n: nat, k: nat)
    ensures n % 3 == 0 ==> Place(n) == (n + 2) / 3 * 4 && (6 * k < 8 * n <==> k < Place(n))
    ensures n % 3 != 0 ==> Place(n) + 4 - n % 3 == (n + 2) / 3 * 4 && (6 * k < 8 * n <==> k <= Place(n))
  {}

  /** Encodes into `out` if the result fits, else writes nothing. */
  method EncodeInto(s: bytes, out: array<byte>) returns (n: nat)
    requires |s| < SIZE_LIMIT && out.Length < SIZE_LIMIT
    modifies out
    ensures n == if |Encode(s)| <= out.Length then |Encode(s)| else 0
    ensures n > 0 ==> out[..n] == Encode(s)
    ensures out[n..] == old(out[n..])
  {
    hide Symbol, Sextet, Or, Encode, Carried, Place;
    n := 0;
    GuardExact(|s|, out.Length);
    if out.Length >= EncodedSize(|s|) && EncodedSize(|s|) >= |s| {
      n := Symbols(s, out);
      if n > 0 {
        forall k | 0 <= k < n ensures out[k] == if 6 * k < 8 * |s| then Symbol(Sextet(s, k)) else PADDING {
          PlaceEnd(|s|, k);
        }
        SymbolsEncode(s, out[..n]);
      }
    }
  }

  /** The loop of the encoder: one octet a round, with a carry over the group of three. */
  method Symbols(s: bytes, out: array<byte>) returns (n: nat)
    requires (|s| + 2) / 3 * 4 <= out.Length
    modifies out
    ensures n == (|s| + 2) / 3 * 4 && out[n..] == old(out[n..])
    ensures forall k :: 0 <= k < n ==>
              out[k] == if k < Place(|s|) || (k == Place(|s|) && |s| % 3 != 0) then Symbol(Sextet(s, k)) else PADDING
  {
    hide Symbol, Sextet, Or, Place;
    n := 0;
    var acc: byte := 0;
    PlaceZero();
    for i := 0 to |s|
      invariant n == Place(i) && Place(i) <= (i + 2) / 3 * 4
      invariant i % 3 != 0 ==> acc == Carried(s, i)
      invariant forall k :: 0 <= k < n ==> out[k] == Symbol(Sextet(s, k))
      invariant forall k :: n <= k < out.Length ==> out[k] == old(out[k])
    {
      PlaceNext(i);
      PlaceBound(i + 1, |s|);
      n, acc := Put(s, i, out, n, acc);
    }
    PlaceEnd(|s|, 0);
    if |s| % 3 > 0 {
      LastSymbol(s);
      out[n], out[n + 1] := Symbol(acc), PADDING;
      n := n + 2;
      if |s| % 3 == 1 {
        out[n] := PADDING;
        n := n + 1;
      }
    }
  }

  /** The symbols that octet `i` completes are written, and its other bits carried over. */
  method Put(s: bytes, i: nat, out: array<byte>, n: nat, acc: byte) returns (n': nat, acc': byte)
    requires i < |s| && n == Place(i) && Place(i + 1) <= out.Length
    requires i % 3 != 0 ==> acc == Carried(s, i)
    modifies out
    ensures n' == Place(i + 1) >= n && (i % 3 != 2 ==> acc' == Carried(s, i + 1))
    ensures forall k :: n <= k < n' ==> out[k] == Symbol(Sextet(s, k))
    ensures forall k :: 0 <= k < n || n' <= k < out.Length ==> out[k] == old(out[k])
  {
    hide Symbol, Sextet, Or, Place;
    var c := s[i];
    n', acc' := n, acc;
    SymbolsAt(s, i);
    PlaceNext(i);
    match i % 3 {
      case 0 =>
        out[n'] := Symbol(c / 4);
        n' := n' + 1;
        acc' := c as nat * 16 % 256;
      case 1 =>
        out[n'] := Symbol(Or(acc', c / 16));
        n' := n' + 1;
        acc' := c as nat * 4 % 256;
      case _ =>
        out[n'], out[n' + 1] := Symbol(Or(acc', c / 64)), Symbol(c);
        n' := n' + 2;
    }
  }

  lemma PlaceZero()
    ensures Place(0) == 0
  {}

  lemma PlaceBound(i: nat, n: nat)
    requires i <= n
    ensures Place(i) <= (i + 2) / 3 * 4 <= (n + 2) / 3 * 4
  {}
}
