// What the library decides about a head, which it asks its memory for, and what the headers say.

module Decisions {
  import opened Octets
  import opened Options
  import opened Headers
  import opened HeaderStrings
  import opened HttpTidy
  import opened Responses
  import H = Http

  /** Memory holds a head that came through the parser, whole. */
  ghost predicate Holding(hs: seq<Header>, mem: bytes, end: nat) {
    end <= |mem| && mem[..end] == Flatten(hs) && forall h :: h in hs ==> TidyHeader(h)
  }

  /** The library, which asks its memory, decides as the headers say. */
  ghost predicate Right(c: H.Core, hs: seq<Header>, mem: bytes, end: nat, key: bytes) {
    Accepted(c, Stored(mem, 0, end), key) <==> Accepted(c, hs, key)
  }

  /** The headers up to the first whose value begins with NUL, this one included. */
  function UpToNul(hs: seq<Header>): seq<Header> {
    if hs == [] then [] else [hs[0]] + if Plain(hs[0]) then UpToNul(hs[1..]) else []
  }

  /** Whether these headers settle the decision, whatever may follow them. */
  predicate Settled(front: seq<Header>, key: bytes) {
    var u, a := Lookup(front, UPGRADE), Lookup(front, ACCEPT);
    || (u.Some? && a.Some?)
    || (u.Some? && !SameIgnoringCase(u.value, WEBSOCKET))
    || (a.Some? && a.value != AcceptFor(key))
  }

  /** The headers of which all octets fit a buffer of `size` octets. */
  function Fitting(hs: seq<Header>, size: nat): seq<Header>
    decreases |hs|
  {
    if hs == [] || |Flat(hs[0])| > size then [] else [hs[0]] + Fitting(hs[1..], size - |Flat(hs[0])|)
  }

  /** All fits and no value begins with NUL, or what fits settles the decision up to the first that does. */
  predicate SettledInTime(hs: seq<Header>, size: nat, key: bytes) {
    || (|Flatten(hs)| <= size && forall h :: h in hs ==> Plain(h))
    || Settled(UpToNul(Fitting(hs, size)), key)
  }

  lemma {:induction false} LookupConcat(a: seq<Header>, b: seq<Header>, name: bytes)
    ensures Lookup(a + b, name) == if Lookup(a, name).Some? then Lookup(a, name) else Lookup(b, name)
    decreases |a|
  {
    hide SameIgnoringCase;
    if a == [] {
      assert a + b == b;
    } else {
      assert (a + b)[1..] == a[1..] + b;
      LookupConcat(a[1..], b, name);
    }
  }

  lemma LookupCons(h: Header, b: seq<Header>, name: bytes)
    ensures Lookup([h] + b, name) == if SameIgnoringCase(h.name, name) then Some(h.value) else Lookup(b, name)
  {
    assert ([h] + b)[1..] == b;
  }

  lemma {:induction false} UpToNulSplits(hs: seq<Header>)
    ensures var f := UpToNul(hs);
            && f <= hs && (forall i :: 0 <= i < |f| - 1 ==> Plain(f[i]))
            && ((exists h :: h in hs && !Plain(h)) ==> Shifts(f))
  {
    hide Plain;
    if hs != [] && Plain(hs[0]) {
      UpToNulSplits(hs[1..]);
      var f := UpToNul(hs[1..]);
      assert UpToNul(hs) == [hs[0]] + f;
      assert hs == [hs[0]] + hs[1..];
      assert forall i :: 1 <= i < |f| + 1 ==> ([hs[0]] + f)[i] == f[i - 1];
    }
  }

  /** What is read back of headers of which only the last has a value that begins with NUL. */
  function ReadFront(front: seq<Header>): seq<Header>
    requires front != []
  {
    front[..|front| - 1] + [front[|front| - 1].(value := [])]
  }

  /** What a NUL in front of the value of the last of `front` leaves for the next place. */
  function Leftover(front: seq<Header>): bytes {
    if front == [] || front[|front| - 1].value == [] then [] else front[|front| - 1].value[1..]
  }

  lemma PairFront(x: bytes, y: bytes, ss: seq<bytes>, tail: bytes)
    ensures Paired([x, y] + ss, tail) == [Header(x, y)] + Paired(ss, tail)
  {
    assert ([x, y] + ss)[2..] == ss;
  }

  /** The first value that begins with NUL shifts the strings. */
  predicate Shifts(front: seq<Header>) {
    front != [] && !Plain(front[|front| - 1]) && forall i :: 0 <= i < |front| - 1 ==> Plain(front[i])
  }

  lemma StringsCons(h: Header, hs: seq<Header>)
    ensures AllStrings([h] + hs) == Strings(h) + AllStrings(hs)
  {
    assert ([h] + hs)[1..] == hs;
  }

  lemma ShiftsTail(front: seq<Header>)
    requires Shifts(front) && |front| > 1
    ensures Shifts(front[1..]) && Leftover(front[1..]) == Leftover(front)
    ensures Plain(front[0]) && ReadFront(front) == [front[0]] + ReadFront(front[1..])
  {
    hide Plain;
    assert front[1..][|front| - 2] == front[|front| - 1];
  }

  /** Behind it the strings go on one place later. */
  lemma {:induction false} ShiftedPairs(front: seq<Header>, more: seq<Header>, tail: bytes)
    requires Shifts(front)
    ensures Paired(AllStrings(front + more), tail)
         == ReadFront(front) + Paired([Leftover(front)] + AllStrings(more), tail)
    decreases |front|
  {
    hide Paired, AllStrings, ReadFront;
    var h := front[0];
    if |front| == 1 {
      ShiftedPair(h, more, tail);
      assert front == [h];
      assert ReadFront(front) == [Header(h.name, [])] by {
        ReadOne(h);
      }
    } else {
      ShiftsTail(front);
      hide Shifts, Leftover;
      ShiftedPairs(front[1..], more, tail);
      var rest := AllStrings(front[1..] + more);
      assert front + more == [h] + (front[1..] + more);
      StringsCons(h, front[1..] + more);
      PairFront(h.name, h.value, rest, tail);
      Associative([h], ReadFront(front[1..]), Paired([Leftover(front)] + AllStrings(more), tail));
    }
  }

  lemma ReadOne(h: Header)
    ensures ReadFront([h]) == [Header(h.name, [])]
  {}

  lemma ShiftedPair(h: Header, more: seq<Header>, tail: bytes)
    requires !Plain(h)
    ensures Paired(AllStrings([h] + more), tail) == [Header(h.name, [])]
      + Paired([h.value[1..]] + AllStrings(more), tail)
  {
    hide AllStrings, Paired;
    StringsCons(h, more);
    assert Strings(h) + AllStrings(more) == [h.name, []] + ([h.value[1..]] + AllStrings(more));
    PairFront(h.name, [], [h.value[1..]] + AllStrings(more), tail);
  }

  /** Reading back changes a lookup only if it finds the last header, whose value then is empty. */
  lemma ReadFrontLookup(front: seq<Header>, name: bytes)
    requires Shifts(front)
    ensures var l, r := Lookup(front, name), Lookup(ReadFront(front), name);
            && (l.Some? <==> r.Some?)
            && (l != r ==> r == Some([]) && l.value != [] && l.value[0] == 0)
  {
    hide SameIgnoringCase;
    var k := |front| - 1;
    assert front == front[..k] + [front[k]];
    LookupConcat(front[..k], [front[k]], name);
    LookupConcat(front[..k], [front[k].(value := [])], name);
  }

  /** Neither an empty value nor one that begins with NUL is what is looked for. */
  lemma NoMatch(v: bytes, key: bytes)
    requires v == [] || v[0] == 0
    ensures !SameIgnoringCase(v, WEBSOCKET) && v != AcceptFor(key)
  {
    AcceptText(key);
    Words();
  }

  /** What was read of a head in which a value begins with NUL. */
  lemma StoredShifted(hs: seq<Header>, front: seq<Header>, more: seq<Header>, mem: bytes, end: nat)
    requires Holding(hs, mem, end) && hs == front + more
    requires Shifts(front)
    ensures Stored(mem, 0, end)
         == ReadFront(front) + Paired([Leftover(front)] + AllStrings(more), StringAt(mem, end))
  {
    hide Stored, Paired, AllStrings, Plain, ReadFront, Flatten, StringAt;
    StoredIs(mem, end, hs);
    ShiftedPairs(front, more, StringAt(mem, end));
  }

  lemma {:induction false} FittingIs(hs: seq<Header>, size: nat)
    ensures Fitting(hs, size) <= hs && |Flatten(Fitting(hs, size))| <= size
    ensures |Flatten(hs)| <= size ==> Fitting(hs, size) == hs
    decreases |hs|
  {
    hide Flat;
    if hs != [] && |Flat(hs[0])| <= size {
      FittingIs(hs[1..], size - |Flat(hs[0])|);
      assert hs == [hs[0]] + hs[1..];
    }
  }

  /** What is read back of headers up to the first value that begins with NUL. */
  function ReadAs(front: seq<Header>): seq<Header> {
    if Shifts(front) then ReadFront(front) else front
  }

  /** The octets of these headers begin with the strings that are read back in pairs. */
  lemma ReadAsPrefix(whole: seq<Header>)
    requires forall h :: h in whole ==> TidyHeader(h)
    ensures var r := ReadAs(UpToNul(whole)); Flatten(r) <= Flatten(whole) && forall h :: h in r ==> Clean(h)
  {
    hide Flatten, TidyHeader, Clean;
    UpToNulSplits(whole);
    var f := UpToNul(whole);
    assert whole == f + whole[|f|..];
    FlattenConcat(f, whole[|f|..]);
    if Shifts(f) {
      var k := |f| - 1;
      assert f[k] in whole;
      var e := f[k].(value := []);
      assert f == f[..k] + [f[k]] && ReadFront(f) == f[..k] + [e];
      FlattenConcat(f[..k], [f[k]]);
      FlattenConcat(f[..k], [e]);
      EmptiedPrefix(f[k]);
      PrefixBehind(Flatten(f[..k]), Flatten([e]), Flatten([f[k]]));
      forall h | h in ReadFront(f) ensures Clean(h) {
        PlainClean(h);
      }
    } else {
      forall h | h in f ensures Clean(h) {
        var i :| 0 <= i < |f| && f[i] == h;
        assert f[i] in whole;
        PlainClean(h);
      }
    }
  }

  lemma PrefixBehind(a: bytes, b: bytes, c: bytes)
    requires b <= c
    ensures a + b <= a + c
  {}

  lemma PlainClean(h: Header)
    requires TidyHeader(h) && Plain(h)
    ensures Clean(h)
  {
    CleanExactly(h);
  }

  /** A NUL in front of a value ends it. */
  lemma EmptiedPrefix(h: Header)
    requires TidyHeader(h) && !Plain(h)
    ensures Flatten([h.(value := [])]) <= Flatten([h]) && TidyHeader(h.(value := [])) && Plain(h.(value := []))
  {
    var e := h.(value := []);
    assert Flatten([h]) == Flat(h) + Flatten([]) == Flat(h);
    assert Flatten([e]) == Flat(e) + Flatten([]) == Flat(e);
    assert h.value == [0] + h.value[1..];
    assert Flat(h) == Flat(e) + (h.value[1..] + [0]);
  }

  /** What is read of a head of which the headers `whole` are held whole. */
  lemma ReadFirst(hs: seq<Header>, whole: seq<Header>, mem: bytes, n: nat) returns (rest: seq<Header>)
    requires n <= |mem| && Flatten(whole) <= mem[..n] && forall h :: h in whole ==> TidyHeader(h)
    ensures Stored(mem, 0, n) == ReadAs(UpToNul(whole)) + rest
  {
    hide Flatten, Stored, ReadAs, UpToNul, TidyHeader, Clean;
    ReadAsPrefix(whole);
    var r := ReadAs(UpToNul(whole));
    assert mem[0..|Flatten(r)|] == Flatten(r);
    StoredFront(mem, 0, n, r);
    rest := Stored(mem, |Flatten(r)|, n);
  }

  /** Reading back changes no lookup, but for finding an empty value instead of one that begins with NUL. */
  lemma ReadAsLookup(front: seq<Header>, name: bytes)
    ensures var l, r := Lookup(front, name), Lookup(ReadAs(front), name);
            && (l.Some? <==> r.Some?)
            && (l != r ==> r == Some([]) && l.value != [] && l.value[0] == 0)
  {
    hide Lookup, Shifts, ReadFront;
    if Shifts(front) {
      ReadFrontLookup(front, name);
    }
  }

  /** Both ways to ask find the same, or values neither of which is what is looked for. */
  lemma AskedFront(hs: seq<Header>, front: seq<Header>, more: seq<Header>, rest: seq<Header>, name: bytes, key: bytes)
    requires hs == front + more && Lookup(front, name).Some?
    ensures var l, r := Lookup(hs, name), Lookup(ReadAs(front) + rest, name);
            && l == Lookup(front, name) && r.Some?
            && (SameIgnoringCase(l.value, WEBSOCKET) <==> SameIgnoringCase(r.value, WEBSOCKET))
            && (l.value == AcceptFor(key) <==> r.value == AcceptFor(key))
  {
    hide Lookup, SameIgnoringCase, ReadAs, AcceptFor, Ascii;
    LookupConcat(front, more, name);
    LookupConcat(ReadAs(front), rest, name);
    ReadAsLookup(front, name);
    if Lookup(front, name) != Lookup(ReadAs(front), name) {
      NoMatch([], key);
      NoMatch(Lookup(front, name).value, key);
    }
  }

  /** Headers that are held whole, and settle the decision before a value begins with NUL, make it right. */
  lemma SettledRight(c: H.Core, hs: seq<Header>, whole: seq<Header>, mem: bytes, n: nat, key: bytes)
    requires whole <= hs && n <= |mem| && Flatten(whole) <= mem[..n] && forall h :: h in hs ==> TidyHeader(h)
    requires Settled(UpToNul(whole), key)
    ensures Right(c, hs, mem, n, key)
  {
    hide Stored, Lookup, SameIgnoringCase, UpToNul, ReadAs, AcceptFor, Ascii, Flatten, TidyHeader;
    UpToNulSplits(whole);
    var rest := ReadFirst(hs, whole, mem, n);
    var front := UpToNul(whole);
    assert hs == front + hs[|front|..];
    if Lookup(front, UPGRADE).Some? {
      AskedFront(hs, front, hs[|front|..], rest, UPGRADE, key);
    }
    if Lookup(front, ACCEPT).Some? {
      AskedFront(hs, front, hs[|front|..], rest, ACCEPT, key);
    }
  }

  /** A head that fits is held whole. */
  lemma FitsWhole(hs: seq<Header>, size: nat, mem: bytes, n: nat)
    requires KeptBy(hs, size, mem, n) && |Flatten(hs)| <= size
    ensures mem[..n] == Flatten(hs)
  {
    hide Flatten;
    assert hs[..|hs|] == hs;
  }

  /** Of any head, what fits is held whole. */
  lemma FittingHeld(hs: seq<Header>, size: nat, mem: bytes, n: nat)
    requires KeptBy(hs, size, mem, n)
    ensures Flatten(Fitting(hs, size)) <= mem[..n] && Fitting(hs, size) <= hs
  {
    hide Flatten, Fitting;
    FittingIs(hs, size);
    var f := Fitting(hs, size);
    assert hs == f + hs[|f|..] && hs[..|f|] == f;
    FlattenConcat(f, hs[|f|..]);
  }

  /**
   * The library decides as the headers say if all fit and no value begins with NUL, or if the
   * decision is settled by those that fit, up to the first value that does. It does not matter
   * what memory holds behind them.
   */
  lemma DecisionRight(c: H.Core, hs: seq<Header>, size: nat, mem: bytes, n: nat, key: bytes)
    requires KeptBy(hs, size, mem, n) && forall h :: h in hs ==> TidyHeader(h)
    requires SettledInTime(hs, size, key)
    ensures Right(c, hs, mem, n, key)
  {
    hide Flatten, Stored, Accepted, Settled, TidyHeader, UpToNul, Plain, Fitting, KeptBy;
    if Settled(UpToNul(Fitting(hs, size)), key) {
      FittingHeld(hs, size, mem, n);
      KeptWithin(hs, size, mem, n);
      SettledRight(c, hs, Fitting(hs, size), mem, n, key);
    } else {
      FitsWhole(hs, size, mem, n);
      KeptWithin(hs, size, mem, n);
      StoredExactly(mem, n, hs);
    }
  }

  lemma KeptWithin(hs: seq<Header>, size: nat, mem: bytes, n: nat)
    requires KeptBy(hs, size, mem, n)
    ensures n <= |mem|
  {}

  /** What was read back of a head, as far as a buffer of `size` octets keeps it. */
  ghost predicate ReadBack(hs: seq<Header>, size: nat, stored: seq<Header>) {
    exists mem: bytes, n: nat :: KeptBy(hs, size, mem, n) && stored == Stored(mem, 0, n)
  }

  /** The decision on a head, by what was read back of it. */
  lemma ReadBackRight(hs: seq<Header>, size: nat, stored: seq<Header>, key: bytes)
    requires ReadBack(hs, size, stored) && forall h :: h in hs ==> TidyHeader(h)
    requires SettledInTime(hs, size, key)
    ensures forall c :: Accepted(c, stored, key) <==> Accepted(c, hs, key)
  {
    hide Flatten, Stored, Accepted, SettledInTime, TidyHeader, KeptBy;
    var mem: bytes, n: nat :| KeptBy(hs, size, mem, n) && stored == Stored(mem, 0, n);
    forall c ensures Accepted(c, stored, key) <==> Accepted(c, hs, key) {
      DecisionRight(c, hs, size, mem, n, key);
    }
  }

  /** However a head goes on behind `front`, the library decides as its headers say. */
  ghost predicate Dependable(front: seq<Header>, key: bytes) {
    forall c, more, mem, end :: Holding(front + more, mem, end) ==> Right(c, front + more, mem, end, key)
  }

  /** The headers that a proper answer still needs behind `front`. */
  function Missing(front: seq<Header>, key: bytes): seq<Header> {
    (if Lookup(front, UPGRADE).None? then [Header(UPGRADE, WEBSOCKET)] else [])
    + (if Lookup(front, ACCEPT).None? then [Header(ACCEPT, AcceptFor(key))] else [])
  }

  lemma MissingAnswers(front: seq<Header>, key: bytes)
    requires !Settled(front, key)
    ensures Upgrades(front + Missing(front, key)) && Knows(front + Missing(front, key), key)
    ensures forall h :: h in Missing(front, key) ==> TidyHeader(h) && Plain(h)
  {
    hide Lookup, AcceptFor, Ascii;
    var more := Missing(front, key);
    Words();
    AcceptText(key);
    LookupConcat(front, more, UPGRADE);
    LookupConcat(front, more, ACCEPT);
    var u, a := Header(UPGRADE, WEBSOCKET), Header(ACCEPT, AcceptFor(key));
    LookupCons(u, [], UPGRADE);
    LookupCons(u, [a], UPGRADE);
    LookupCons(u, [a], ACCEPT);
    LookupCons(a, [], ACCEPT);
    assert [u] + [] == [u] && [a] + [] == [a] && [] + [a] == [a];
    WordsTidy();
    assert TidyHeader(a) && Plain(a);
  }

  lemma WordsTidy()
    ensures NulFree(UPGRADE) && NulFree(ACCEPT) && NulFree(WEBSOCKET)
  {
    AsciiNulFree("upgrade");
    AsciiNulFree("websocket");
    AsciiNulFree("Sec-WebSocket-Accept");
  }

  lemma {:induction false} AsciiNulFree(s: string)
    requires forall i :: 0 <= i < |s| ==> 0 < s[i] as int < 256
    ensures NulFree(Ascii(s))
  {
    forall b | b in Ascii(s) ensures b != 0 {
      var i :| 0 <= i < |s| && Ascii(s)[i] == b;
    }
  }

  /** Names of other lengths are not looked up. */
  lemma PassesBy(h: Header, rest: seq<Header>, name: bytes)
    requires |h.name| != |name|
    ensures Lookup([h] + rest, name) == Lookup(rest, name)
  {
    LookupCons(h, rest, name);
  }

  /** The missing headers, read one place later, are no answer. */
  lemma MissingShifted(front: seq<Header>, key: bytes, x: bytes, tail: bytes)
    requires !Settled(front, key)
    ensures var q := Paired([x] + AllStrings(Missing(front, key)), tail);
            if Lookup(front, UPGRADE).None? then !Upgrades(q) else !Knows(q, key)
  {
    hide Lookup, AcceptFor, Ascii, Paired, AllStrings;
    Words();
    AcceptText(key);
    var more, q := Missing(front, key), Paired([x] + AllStrings(Missing(front, key)), tail);
    if Lookup(front, UPGRADE).Some? {
      OneShifted(ACCEPT, AcceptFor(key), x, tail);
      assert q == [Header(x, ACCEPT)] + ([Header(AcceptFor(key), tail)] + []) by {
        assert more == [Header(ACCEPT, AcceptFor(key))];
      }
      LookupCons(Header(x, ACCEPT), [Header(AcceptFor(key), tail)] + [], ACCEPT);
      PassesBy(Header(AcceptFor(key), tail), [], ACCEPT);
      LookupNothing(ACCEPT);
    } else {
      var rest := if Lookup(front, ACCEPT).None? then [Header(AcceptFor(key), tail)] else [];
      var y := if Lookup(front, ACCEPT).None? then ACCEPT else tail;
      assert q == [Header(x, UPGRADE)] + ([Header(WEBSOCKET, y)] + (rest + [])) by {
        if Lookup(front, ACCEPT).None? {
          TwoShifted(key, x, tail);
          assert more == [Header(UPGRADE, WEBSOCKET), Header(ACCEPT, AcceptFor(key))];
        } else {
          OneShifted(UPGRADE, WEBSOCKET, x, tail);
          assert more == [Header(UPGRADE, WEBSOCKET)];
        }
      }
      LookupCons(Header(x, UPGRADE), [Header(WEBSOCKET, y)] + (rest + []), UPGRADE);
      PassesBy(Header(WEBSOCKET, y), rest + [], UPGRADE);
      if Lookup(front, ACCEPT).None? {
        PassesBy(Header(AcceptFor(key), tail), [], UPGRADE);
      }
      LookupNothing(UPGRADE);
      var none: seq<Header> := [];
      assert none + none == none;
    }
  }

  lemma LookupNothing(name: bytes)
    ensures Lookup([], name).None?
  {}

  lemma OneShifted(n: bytes, v: bytes, x: bytes, tail: bytes)
    requires v != [] && v[0] != 0
    ensures Paired([x] + AllStrings([Header(n, v)]), tail) == [Header(x, n)] + ([Header(v, tail)] + [])
  {
    assert AllStrings([Header(n, v)]) == [n, v] + AllStrings([]);
    assert [x] + AllStrings([Header(n, v)]) == [x, n] + [v];
    PairFront(x, n, [v], tail);
  }

  lemma TwoShifted(key: bytes, x: bytes, tail: bytes)
    ensures var hs := [Header(UPGRADE, WEBSOCKET), Header(ACCEPT, AcceptFor(key))];
            Paired([x] + AllStrings(hs), tail)
            == [Header(x, UPGRADE)] + ([Header(WEBSOCKET, ACCEPT)] + ([Header(AcceptFor(key), tail)] + []))
  {
    hide AcceptFor, Ascii;
    AcceptText(key);
    Words();
    WordsTidy();
    var a := AcceptFor(key);
    var hs := [Header(UPGRADE, WEBSOCKET), Header(ACCEPT, a)];
    assert hs[1..] == [Header(ACCEPT, a)];
    OneShifted(ACCEPT, a, WEBSOCKET, tail);
    assert Strings(hs[0]) == [UPGRADE, WEBSOCKET];
    assert AllStrings(hs) == [UPGRADE, WEBSOCKET] + AllStrings(hs[1..]);
    assert [x] + AllStrings(hs) == [x, UPGRADE] + ([WEBSOCKET] + AllStrings(hs[1..]));
    PairFront(x, UPGRADE, [WEBSOCKET] + AllStrings(hs[1..]), tail);
  }

  /** If the decision is not settled before the strings shift, a proper answer may be refused. */
  lemma Unsettled(front: seq<Header>, key: bytes)
    requires Shifts(front) && (forall h :: h in front ==> TidyHeader(h)) && !Settled(front, key)
    ensures !Dependable(front, key)
  {
    hide Flatten, Stored, Lookup, SameIgnoringCase, Paired, AllStrings, Plain, ReadFront, AcceptFor, Ascii, Leftover,
         TidyHeader, Missing, StringAt;
    var more := Missing(front, key);
    MissingAnswers(front, key);
    var hs := front + more;
    var mem := Flatten(hs);
    assert mem[..|mem|] == mem;
    assert Holding(hs, mem, |mem|);
    StoredShifted(hs, front, more, mem, |mem|);
    var q := Paired([Leftover(front)] + AllStrings(more), StringAt(mem, |mem|));
    MissingShifted(front, key, Leftover(front), StringAt(mem, |mem|));
    LookupConcat(ReadFront(front), q, UPGRADE);
    LookupConcat(ReadFront(front), q, ACCEPT);
    ReadFrontLookup(front, UPGRADE);
    ReadFrontLookup(front, ACCEPT);
    var c := H.INITIAL.(status := 101, upgrade := true);
    assert !Right(c, front + more, mem, |mem|, key);
  }

  /**
   * When a value begins with NUL, the library can be relied on to decide as the headers say,
   * however they go on, exactly if the decision is settled by then.
   */
  lemma DecisionExactly(front: seq<Header>, key: bytes)
    requires Shifts(front) && forall h :: h in front ==> TidyHeader(h)
    ensures Dependable(front, key) <==> Settled(front, key)
  {
    hide Holding, Right, Settled, TidyHeader, Plain, Flatten, UpToNul;
    if Settled(front, key) {
      ShiftsUpTo(front);
      forall c, more, mem, end | Holding(front + more, mem, end) ensures Right(c, front + more, mem, end, key) {
        HoldingFront(front, more, mem, end);
        SettledRight(c, front + more, front, mem, end, key);
      }
    } else {
      Unsettled(front, key);
    }
  }

  lemma HoldingFront(front: seq<Header>, more: seq<Header>, mem: bytes, end: nat)
    requires Holding(front + more, mem, end)
    ensures end <= |mem| && Flatten(front) <= mem[..end] && forall h :: h in front + more ==> TidyHeader(h)
  {
    hide Flatten, TidyHeader;
    FlattenConcat(front, more);
  }

  lemma {:induction false} ShiftsUpTo(front: seq<Header>)
    requires Aligned(front)
    ensures UpToNul(front) == front
    decreases |front|
  {
    hide Plain;
    if front != [] && Plain(front[0]) {
      assert forall i :: 0 <= i < |front| - 2 ==> front[1..][i] == front[i + 1];
      ShiftsUpTo(front[1..]);
    }
  }

  /** At most the last of these values begins with NUL. */
  predicate Aligned(front: seq<Header>) {
    forall i :: 0 <= i < |front| - 1 ==> Plain(front[i])
  }

  // ---- Heads that do not fit ----

  predicate AllTidy(hs: seq<Header>) {
    forall h :: h in hs ==> TidyHeader(h)
  }

  /**
   * However a head goes on behind headers that fit, in a buffer of whatever size, the library decides
   * as its headers say.
   */
  ghost predicate Reliable(whole: seq<Header>, key: bytes) {
    forall c, more, size, mem, n ::
      KeptBy(whole + more, size, mem, n) && |Flatten(whole)| <= size && AllTidy(whole + more) ==>
        Right(c, whole + more, mem, n, key)
  }

  /**
   * Given the headers that are stored whole, the library can be relied on to decide as the head
   * says, however it goes on, how much of that is stored, and whatever memory holds behind it,
   * exactly if these headers settle the decision.
   */
  lemma ReliableExactly(whole: seq<Header>, key: bytes)
    requires Aligned(whole) && forall h :: h in whole ==> TidyHeader(h)
    ensures Reliable(whole, key) <==> Settled(whole, key)
  {
    hide KeptBy, Right, Settled, TidyHeader, Flatten, UpToNul;
    if Settled(whole, key) {
      ShiftsUpTo(whole);
      forall c, more, size, mem, n |
        KeptBy(whole + more, size, mem, n) && |Flatten(whole)| <= size && AllTidy(whole + more)
        ensures Right(c, whole + more, mem, n, key)
      {
        KeptFront(whole, more, size, mem, n);
        SettledRight(c, whole + more, whole, mem, n, key);
      }
    } else {
      Unreliable(whole, key);
    }
  }

  lemma KeptFront(whole: seq<Header>, more: seq<Header>, size: nat, mem: bytes, n: nat)
    requires KeptBy(whole + more, size, mem, n) && |Flatten(whole)| <= size
    ensures n <= |mem| && Flatten(whole) <= mem[..n]
  {
    hide Flatten;
    assert (whole + more)[..|whole|] == whole;
    FlattenConcat(whole, more);
  }

  /** A buffer that is full with `whole` keeps nothing of what follows. */
  lemma FullKeeps(whole: seq<Header>, more: seq<Header>)
    ensures KeptBy(whole + more, |Flatten(whole)|, Flatten(whole), |Flatten(whole)|)
  {
    hide Flatten;
    var hs, mem := whole + more, Flatten(whole);
    FlattenConcat(whole, more);
    assert mem[..|mem|] == mem;
  }

  lemma Unreliable(whole: seq<Header>, key: bytes)
    requires (forall h :: h in whole ==> TidyHeader(h)) && !Settled(whole, key) && Aligned(whole)
    ensures !Reliable(whole, key)
  {
    hide Flatten, Stored, Lookup, SameIgnoringCase, AcceptFor, Ascii, TidyHeader, Missing, KeptBy, Plain;
    if Shifts(whole) {
      UnreliableShift(whole, key);
    } else {
      var more := Missing(whole, key);
      MissingAnswers(whole, key);
      var mem := Flatten(whole);
      FullKeeps(whole, more);
      AllPlain(whole);
      assert mem[..|mem|] == mem;
      StoredExactly(mem, |mem|, whole);
      var c := H.INITIAL.(status := 101, upgrade := true);
      assert !Right(c, whole + more, mem, |mem|, key);
    }
  }

  lemma AllPlain(whole: seq<Header>)
    requires Aligned(whole) && !Shifts(whole)
    ensures forall h :: h in whole ==> Plain(h)
  {
    hide Plain;
    forall h | h in whole ensures Plain(h) {
      var i :| 0 <= i < |whole| && whole[i] == h;
    }
  }

  lemma UnreliableShift(whole: seq<Header>, key: bytes)
    requires Shifts(whole) && (forall h :: h in whole ==> TidyHeader(h)) && !Settled(whole, key)
    ensures !Reliable(whole, key)
  {
    hide Flatten, Right, Settled, TidyHeader, KeptBy, Plain;
    Unsettled(whole, key);
    var c, more, mem, end :| Holding(whole + more, mem, end) && !Right(c, whole + more, mem, end, key);
    HoldingKept(whole + more, mem, end);
    FlattenConcat(whole, more);
    assert KeptBy(whole + more, end, mem, end);
  }

  lemma HoldingKept(hs: seq<Header>, mem: bytes, end: nat)
    requires Holding(hs, mem, end)
    ensures KeptBy(hs, end, mem, end)
  {
    hide Flatten, TidyHeader;
  }
}
