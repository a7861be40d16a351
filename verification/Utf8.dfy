// The table-driven UTF-8 validator, and the grammar of section 4 of RFC 3629.

module Utf8 {
  import opened Octets

  const COMPLETE: nat := 0
  const INVALID: nat := 1

  type State = q: nat | q <= 8

  /**
   * The 400-entry table: 256 octet classes, then one row of 16 successor states for each of
   * the nine states.
   */
  function Table(i: nat): (r: nat)
    requires i < 400
    ensures i < 256 ==> r <= 11
    ensures 256 <= i ==> r <= 8
  {
    if i < 256 then
      if i < 0x80 then 0
      else if i < 0x90 then 1
      else if i < 0xa0 then 9
      else if i < 0xc0 then 7
      else if i < 0xc2 then 8
      else if i < 0xe0 then 2
      else if i == 0xe0 then 10
      else if i == 0xed then 4
      else if i < 0xf0 then 3
      else if i == 0xf0 then 11
      else if i < 0xf4 then 6
      else if i == 0xf4 then 5
      else 8
    else Row((i - 256) / 16, (i - 256) % 16)
  }

  function Row(q: State, t: nat): State
    requires t < 16
  {
    match q
    case 0 => (match t
               case 0 => 0 case 2 => 2 case 3 => 3 case 4 => 5 case 5 => 8
               case 6 => 7 case 10 => 4 case 11 => 6 case _ => INVALID)
    case 2 => if t == 1 || t == 7 || t == 9 then 0 else INVALID
    case 3 => if t == 1 || t == 7 || t == 9 then 2 else INVALID
    case 4 => if t == 7 then 2 else INVALID
    case 5 => if t == 1 || t == 9 then 2 else INVALID
    case 6 => if t == 7 || t == 9 then 3 else INVALID
    case 7 => if t == 1 || t == 7 || t == 9 then 3 else INVALID
    case 8 => if t == 1 then 3 else INVALID
    case _ => INVALID
  }

  /** One octet: class lookup, then transition lookup. Both indices are in range for every state. */
  function Parse(q: State, b: byte): State {
    Table(256 + 16 * q + Table(b))
  }

  function Run(q: State, s: bytes): State
    decreases |s|
  {
    if s == [] then q else Run(Parse(q, s[0]), s[1..])
  }

  method ParseString(q: State, s: bytes) returns (r: State)
    ensures r == Run(q, s)
  {
    r := q;
    for i := 0 to |s|
      invariant Run(r, s[i..]) == Run(q, s)
    {
      assert s[i..][1..] == s[i + 1..];
      r := Parse(r, s[i]);
    }
  }

  // ---- The grammar of RFC 3629 ----

  predicate Tail(b: byte) {
    0x80 <= b <= 0xbf
  }

  /** UTF8-char of section 4 of RFC 3629: the production a sequence of one to four octets matches. */
  predicate IsChar(s: bytes) {
    if |s| == 1 then
      s[0] <= 0x7f
    else if |s| == 2 then
      0xc2 <= s[0] <= 0xdf && Tail(s[1])
    else if |s| == 3 then
      && Tail(s[2])
      && (|| (s[0] == 0xe0 && 0xa0 <= s[1] <= 0xbf)
          || (0xe1 <= s[0] <= 0xec && Tail(s[1]))
          || (s[0] == 0xed && 0x80 <= s[1] <= 0x9f)
          || (0xee <= s[0] <= 0xef && Tail(s[1])))
    else if |s| == 4 then
      && Tail(s[2]) && Tail(s[3])
      && (|| (s[0] == 0xf0 && 0x90 <= s[1] <= 0xbf)
          || (0xf1 <= s[0] <= 0xf3 && Tail(s[1]))
          || (s[0] == 0xf4 && 0x80 <= s[1] <= 0x8f))
    else false
  }

  /** UTF8-octets: a concatenation of any number of UTF8-char. */
  ghost predicate WellFormed(s: bytes)
    decreases |s|
  {
    s == [] || exists k :: 1 <= k <= |s| && IsChar(s[..k]) && WellFormed(s[k..])
  }

  ghost predicate Extendable(s: bytes) {
    exists t: bytes :: WellFormed(s + t)
  }

  // ---- The validator agrees with the grammar ----

  lemma {:induction false} RunConcat(q: State, s: bytes, t: bytes)
    ensures Run(q, s + t) == Run(Run(q, s), t)
    decreases |s|
  {
    if s == [] {
      assert s + t == t;
    } else {
      assert (s + t)[1..] == s[1..] + t;
      RunConcat(Parse(q, s[0]), s[1..], t);
    }
  }

  lemma RunSnoc(q: State, s: bytes, b: byte)
    ensures Run(q, s + [b]) == Parse(Run(q, s), b)
  {
    RunConcat(q, s, [b]);
    assert Run(Run(q, s), [b]) == Run(Parse(Run(q, s), b), []);
  }

  /** Nothing leaves the invalid state. */
  lemma {:induction false} InvalidIsTrap(s: bytes)
    ensures Run(INVALID, s) == INVALID
  {
    if s != [] {
      InvalidIsTrap(s[1..]);
    }
  }

  /** The octets that a character begun so far still lacks. */
  function Missing(q: State): nat
    requires q != INVALID
  {
    match q
    case 0 => 0
    case 2 => 1
    case 3 => 2
    case 4 => 2
    case 5 => 2
    case _ => 3
  }

  /** The octet ranges that the grammar allows next inside a character. */
  predicate MayFollow(q: State, b: byte)
    requires q != INVALID && q != COMPLETE
  {
    match q
    case 4 => 0xa0 <= b <= 0xbf
    case 5 => 0x80 <= b <= 0x9f
    case 6 => 0x90 <= b <= 0xbf
    case 8 => 0x80 <= b <= 0x8f
    case _ => Tail(b)
  }

  /** Inside a character the table accepts exactly the octets in range, each filling one gap. */
  lemma TailTransition(q: State, b: byte)
    requires q != INVALID && q != COMPLETE
    ensures Parse(q, b) == INVALID <==> !MayFollow(q, b)
    ensures MayFollow(q, b) ==> Parse(q, b) == (match Missing(q) case 1 => 0 case 2 => 2 case _ => 3)
  {
    assert (256 + 16 * q + Table(b) - 256) / 16 == q;
  }

  /** `c` completes the character that state `q` is inside of. */
  predicate Completes(q: State, c: bytes)
    requires q != INVALID
  {
    && |c| == Missing(q)
    && (c != [] ==> MayFollow(q, c[0]))
    && forall i :: 1 <= i < |c| ==> Tail(c[i])
  }

  /** What brings a state inside a character to complete starts with the missing octets, and these suffice. */
  lemma {:induction false} CompletesExactly(q: State, s: bytes)
    requires q != INVALID
    ensures |s| < Missing(q) ==> Run(q, s) != COMPLETE
    ensures |s| >= Missing(q) && Run(q, s) == COMPLETE ==> Completes(q, s[..Missing(q)])
    ensures Completes(q, s) ==> Run(q, s) == COMPLETE
    decreases |s|
  {
    if q != COMPLETE && s != [] {
      TailTransition(q, s[0]);
      var r := Parse(q, s[0]);
      if r == INVALID {
        InvalidIsTrap(s[1..]);
      } else {
        CompletesExactly(r, s[1..]);
        if |s| >= Missing(q) {
          assert s[..Missing(q)] == [s[0]] + s[1..][..Missing(r)];
        }
      }
    }
  }

  /** The first octet of a character selects the state, hence the ranges of its tail. */
  lemma LeadTransition(b: byte)
    ensures Parse(COMPLETE, b) ==
            if b <= 0x7f then 0
            else if 0xc2 <= b <= 0xdf then 2
            else if b == 0xe0 then 4
            else if b == 0xed then 5
            else if 0xe1 <= b <= 0xef then 3
            else if b == 0xf0 then 6
            else if 0xf1 <= b <= 0xf3 then 7
            else if b == 0xf4 then 8
            else INVALID
  {
    assert (256 + Table(b) - 256) / 16 == 0;
  }

  lemma CharByTail(c: bytes)
    requires c != []
    ensures IsChar(c) <==> Parse(COMPLETE, c[0]) != INVALID && Completes(Parse(COMPLETE, c[0]), c[1..])
  {
    LeadTransition(c[0]);
  }

  /** One production of the grammar takes the validator from complete to complete. */
  lemma CharCompletes(c: bytes)
    requires IsChar(c)
    ensures Run(COMPLETE, c) == COMPLETE
  {
    CharByTail(c);
    CompletesExactly(Parse(COMPLETE, c[0]), c[1..]);
  }

  /** Conversely, a non-empty accepted string starts with a production. */
  lemma AcceptedStartsWithChar(s: bytes) returns (k: nat)
    requires s != [] && Run(COMPLETE, s) == COMPLETE
    ensures 1 <= k <= |s| && IsChar(s[..k])
  {
    var q := Parse(COMPLETE, s[0]);
    InvalidIsTrap(s[1..]);
    CompletesExactly(q, s[1..]);
    k := 1 + Missing(q);
    assert s[..k][1..] == s[1..][..Missing(q)];
    CharByTail(s[..k]);
  }

  /** The validator accepts exactly the strings of the grammar. */
  lemma {:induction false} AcceptsExactlyWellFormed(s: bytes)
    ensures Run(COMPLETE, s) == COMPLETE <==> WellFormed(s)
    decreases |s|
  {
    if s != [] {
      if Run(COMPLETE, s) == COMPLETE {
        var k := AcceptedStartsWithChar(s);
        SplitAtChar(s, k);
        AcceptsExactlyWellFormed(s[k..]);
      }
      if WellFormed(s) {
        var k :| 1 <= k <= |s| && IsChar(s[..k]) && WellFormed(s[k..]);
        SplitAtChar(s, k);
        AcceptsExactlyWellFormed(s[k..]);
      }
    }
  }

  lemma SplitAtChar(s: bytes, k: nat)
    requires 1 <= k <= |s| && IsChar(s[..k])
    ensures Run(COMPLETE, s) == Run(COMPLETE, s[k..])
  {
    CharCompletes(s[..k]);
    RunConcat(COMPLETE, s[..k], s[k..]);
    assert s[..k] + s[k..] == s;
  }

  /** A suffix that brings a live state back to complete. */
  function Completion(q: State): bytes
    requires q != INVALID
  {
    var least: byte := if q == 4 then 0xa0 else if q == 6 then 0x90 else 0x80;
    [least, 0x80, 0x80][..Missing(q)]
  }

  /** The validator is invalid exactly when no continuation can repair the string. */
  lemma InvalidExactlyUnrepairable(s: bytes)
    ensures Run(COMPLETE, s) != INVALID <==> Extendable(s)
  {
    var q := Run(COMPLETE, s);
    if q != INVALID {
      var t := Completion(q);
      CompletesExactly(q, t);
      RunConcat(COMPLETE, s, t);
      AcceptsExactlyWellFormed(s + t);
    }
    if Extendable(s) {
      var t: bytes :| WellFormed(s + t);
      AcceptsExactlyWellFormed(s + t);
      RunConcat(COMPLETE, s, t);
      InvalidIsTrap(t);
    }
  }
}
