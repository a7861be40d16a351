// What is read back from the header store, for every head that the HTTP parser lets through: also
// for one with a value that begins with NUL, which shifts the strings behind it.

module HeaderStrings {
  import opened Headers
  import opened HttpTidy
  import opened Octets
  import opened Options

  predicate Plain(h: Header) {
    h.value == [] || h.value[0] != 0
  }

  /** A header as strings ended by NUL: a NUL in front of a value makes an empty string of it, and another string. */
  function Strings(h: Header): seq<bytes> {
    if Plain(h) then [h.name, h.value] else [h.name, [], h.value[1..]]
  }

  function AllStrings(hs: seq<Header>): seq<bytes> {
    if hs == [] then [] else Strings(hs[0]) + AllStrings(hs[1..])
  }

  function Terminated(ss: seq<bytes>): bytes {
    if ss == [] then [] else ss[0] + [0] + Terminated(ss[1..])
  }

  /** Strings taken two by two; `tail` goes with the last of an odd number. */
  function Paired(ss: seq<bytes>, tail: bytes): seq<Header>
    decreases |ss|
  {
    if ss == [] then []
    else if |ss| == 1 then [Header(ss[0], tail)]
    else [Header(ss[0], ss[1])] + Paired(ss[2..], tail)
  }

  lemma {:induction false} TerminatedConcat(a: seq<bytes>, b: seq<bytes>)
    ensures Terminated(a + b) == Terminated(a) + Terminated(b)
    decreases |a|
  {
    if a == [] {
      assert a + b == b;
    } else {
      assert (a + b)[1..] == a[1..] + b;
      TerminatedConcat(a[1..], b);
      Associative(a[0] + [0], Terminated(a[1..]), Terminated(b));
    }
  }

  lemma Two(x: bytes, y: bytes)
    ensures Terminated([x, y]) == x + [0] + y + [0]
  {
    assert [x, y][1..] == [y] && [y][1..] == [];
    assert Terminated([y]) == y + [0];
    assert x + [0] + (y + [0]) == x + [0] + y + [0];
  }

  lemma FlatStrings(h: Header)
    requires TidyHeader(h)
    ensures Flat(h) == Terminated(Strings(h)) && forall s :: s in Strings(h) ==> NulFree(s)
  {
    CleanExactly(h);
    if Plain(h) {
      Two(h.name, h.value);
    } else {
      var rest := h.value[1..];
      assert [h.name, [], rest] == [h.name] + [[], rest];
      TerminatedConcat([h.name], [[], rest]);
      Two([], rest);
      assert Terminated([h.name]) == h.name + [0];
      assert h.value == [0] + rest;
      assert h.name + [0] + ([0] + rest) + [0] == h.name + [0] + ([] + [0] + rest + [0]);
    }
  }

  lemma {:induction false} FlattenStrings(hs: seq<Header>)
    requires forall h :: h in hs ==> TidyHeader(h)
    ensures Flatten(hs) == Terminated(AllStrings(hs)) && forall s :: s in AllStrings(hs) ==> NulFree(s)
  {
    if hs != [] {
      hide TidyHeader, Strings, Flat, Terminated;
      assert hs[0] in hs;
      FlatStrings(hs[0]);
      FlattenStrings(hs[1..]);
      TerminatedConcat(Strings(hs[0]), AllStrings(hs[1..]));
    }
  }

  /** The string that begins at `at`, and where the next one does. */
  lemma StringIs(mem: bytes, at: nat, end: nat, s: bytes, rest: bytes)
    requires at <= end <= |mem| && mem[at..end] == s + [0] + rest && NulFree(s)
    ensures at + |s| + 1 <= end && StringAt(mem, at) == s && mem[at + |s| + 1..end] == rest
  {
    var more := mem[end..];
    assert mem[at..] == mem[at..end] + more;
    assert s + [0] + rest + more == s + [0] + (rest + more);
    CStringUnique(s, rest + more);
    assert mem[at..end][|s| + 1..] == mem[at + |s| + 1..end];
  }

  lemma {:induction false} StoredStrings(mem: bytes, at: nat, end: nat, ss: seq<bytes>)
    requires at <= end <= |mem| && mem[at..end] == Terminated(ss) && forall s :: s in ss ==> NulFree(s)
    ensures Stored(mem, at, end) == Paired(ss, StringAt(mem, end))
    decreases |ss|
  {
    hide StringAt;
    if ss != [] {
      assert ss[0] in ss;
      StringIs(mem, at, end, ss[0], Terminated(ss[1..]));
      var value := at + |ss[0]| + 1;
      if |ss| == 1 {
        assert Terminated(ss[1..]) == [];
        assert value == end;
      } else {
        assert ss[1] in ss && ss[1..][0] == ss[1] && ss[1..][1..] == ss[2..];
        StringIs(mem, value, end, ss[1], Terminated(ss[2..]));
        StoredStrings(mem, value + |ss[1]| + 1, end, ss[2..]);
      }
    }
  }

  /** What is read back of any head that fits: its strings in pairs. */
  lemma StoredIs(mem: bytes, end: nat, hs: seq<Header>)
    requires end <= |mem| && mem[..end] == Flatten(hs) && forall h :: h in hs ==> TidyHeader(h)
    ensures Stored(mem, 0, end) == Paired(AllStrings(hs), StringAt(mem, end))
  {
    hide Flatten, Terminated, StringAt;
    FlattenStrings(hs);
    assert mem[0..end] == mem[..end];
    StoredStrings(mem, 0, end, AllStrings(hs));
  }

  lemma {:induction false} FlattenConcat(a: seq<Header>, b: seq<Header>)
    ensures Flatten(a + b) == Flatten(a) + Flatten(b)
    decreases |a|
  {
    hide Flat;
    if a == [] {
      assert a + b == b;
    } else {
      assert (a + b)[1..] == a[1..] + b;
      FlattenConcat(a[1..], b);
      Associative(Flat(a[0]), Flatten(a[1..]), Flatten(b));
    }
  }

  /** Headers that are strings in pairs are read back first, whatever memory holds behind them. */
  lemma {:induction false} StoredFront(mem: bytes, at: nat, end: nat, hs: seq<Header>)
    requires at + |Flatten(hs)| <= end <= |mem| && mem[at..at + |Flatten(hs)|] == Flatten(hs)
    requires forall h :: h in hs ==> Clean(h)
    ensures Stored(mem, at, end) == hs + Stored(mem, at + |Flatten(hs)|, end)
    decreases |hs|
  {
    hide StringAt, Stored, Flat, Clean;
    if hs == [] {
      assert [] + Stored(mem, at, end) == Stored(mem, at, end);
    } else {
      var h, rest := hs[0], Flatten(hs[1..]);
      assert h in hs;
      var next := at + |Flat(h)|;
      StoredOne(mem, at, at + |Flatten(hs)|, end, h, rest);
      StoredFront(mem, next, end, hs[1..]);
      Associative([h], hs[1..], Stored(mem, at + |Flatten(hs)|, end));
    }
  }

  lemma StoredOne(mem: bytes, at: nat, to: nat, end: nat, h: Header, rest: bytes)
    requires at <= to <= end <= |mem| && mem[at..to] == Flat(h) + rest && Clean(h)
    ensures at + |Flat(h)| <= to && mem[at + |Flat(h)|..to] == rest
    ensures Stored(mem, at, end) == [h] + Stored(mem, at + |Flat(h)|, end)
  {
    hide StringAt;
    assert Flat(h) + rest == h.name + [0] + (h.value + [0] + rest);
    StringIs(mem, at, to, h.name, h.value + [0] + rest);
    StringIs(mem, at + |h.name| + 1, to, h.value, rest);
  }

  /** Up to the first value that begins with NUL, the pairs are the headers. */
  lemma {:induction false} PairsBefore(hs: seq<Header>, k: nat, tail: bytes)
    requires k <= |hs| && forall i :: 0 <= i < k ==> Plain(hs[i])
    ensures var p := Paired(AllStrings(hs), tail);
            && k <= |p| && p[..k] == hs[..k]
            && (k == |hs| ==> p == hs)
            && (k < |hs| ==> k < |p| && p[k].name == hs[k].name && (!Plain(hs[k]) ==> p[k].value == []))
    decreases |hs|
  {
    if hs != [] {
      var ss := AllStrings(hs);
      var more := AllStrings(hs[1..]);
      if k > 0 {
        assert ss == [hs[0].name, hs[0].value] + more;
        assert ss[2..] == more;
        forall i | 0 <= i < k - 1 ensures Plain(hs[1..][i]) {
          assert hs[1..][i] == hs[i + 1];
        }
        PairsBefore(hs[1..], k - 1, tail);
        var q := Paired(more, tail);
        assert Paired(ss, tail) == [hs[0]] + q;
        assert hs[..k] == [hs[0]] + hs[1..][..k - 1];
      } else {
        assert ss[0] == hs[0].name && |ss| >= 2;
        assert !Plain(hs[0]) ==> ss[1] == [];
      }
    }
  }

  /** The stored headers are read back as they were received, exactly if no value begins with NUL. */
  lemma StoredExactly(mem: bytes, end: nat, hs: seq<Header>)
    requires end <= |mem| && mem[..end] == Flatten(hs) && forall h :: h in hs ==> TidyHeader(h)
    ensures Stored(mem, 0, end) == hs <==> forall h :: h in hs ==> Plain(h)
  {
    hide TidyHeader, Flatten, Stored, AllStrings, Paired, StringAt;
    StoredIs(mem, end, hs);
    var tail := StringAt(mem, end);
    if forall h :: h in hs ==> Plain(h) {
      PairsBefore(hs, |hs|, tail);
    } else {
      var k := FirstShift(hs);
      PairsBefore(hs, k, tail);
    }
  }

  /** The first header whose value begins with NUL. */
  lemma {:induction false} FirstShift(hs: seq<Header>) returns (k: nat)
    requires exists h :: h in hs && !Plain(h)
    ensures k < |hs| && hs[k] in hs && !Plain(hs[k]) && forall i :: 0 <= i < k ==> Plain(hs[i])
  {
    if !Plain(hs[0]) {
      k := 0;
    } else {
      k := FirstShift(hs[1..]);
      k := k + 1;
      assert hs[1..][k - 1] == hs[k];
      assert forall i :: 1 <= i < k ==> hs[i] == hs[1..][i - 1];
    }
  }

  // ---- Lookups ----

  predicate Named(h: Header, name: bytes) {
    SameIgnoringCase(h.name, name)
  }

  lemma {:induction false} LookupAt(hs: seq<Header>, name: bytes, i: nat)
    requires i < |hs| && Named(hs[i], name) && forall j :: 0 <= j < i ==> !Named(hs[j], name)
    ensures Lookup(hs, name) == Some(hs[i].value)
    decreases |hs|
  {
    hide SameIgnoringCase;
    if i > 0 {
      assert forall j :: 0 <= j < i - 1 ==> hs[1..][j] == hs[j + 1];
      LookupAt(hs[1..], name, i - 1);
    }
  }

  /** A header that comes before any value with NUL in front is found. */
  lemma FoundBefore(hs: seq<Header>, name: bytes, i: nat, tail: bytes)
    requires i < |hs| && Named(hs[i], name) && forall j :: 0 <= j < i ==> !Named(hs[j], name)
    requires forall j :: 0 <= j <= i ==> Plain(hs[j])
    ensures Lookup(Paired(AllStrings(hs), tail), name) == Lookup(hs, name)
  {
    hide Named, AllStrings, Paired;
    var p := Paired(AllStrings(hs), tail);
    PairsBefore(hs, i + 1, tail);
    assert forall j :: 0 <= j <= i ==> p[j] == p[..i + 1][j] == hs[j];
    LookupAt(hs, name, i);
    LookupAt(p, name, i);
  }

  predicate Distinct(hs: seq<Header>) {
    forall i, j :: 0 <= i < j < |hs| ==> !Named(hs[i], hs[j].name)
  }

  /** In a head without repeated names every lookup is right exactly if no value begins with NUL. */
  lemma LookupsExactly(mem: bytes, end: nat, hs: seq<Header>)
    requires end <= |mem| && mem[..end] == Flatten(hs) && (forall h :: h in hs ==> TidyHeader(h)) && Distinct(hs)
    ensures (forall name :: Lookup(Stored(mem, 0, end), name) == Lookup(hs, name)) <==> forall h :: h in hs ==> Plain(h)
  {
    hide TidyHeader, Flatten, Stored, AllStrings, Paired, StringAt, Lookup;
    StoredExactly(mem, end, hs);
    if !forall h :: h in hs ==> Plain(h) {
      var k := FirstShift(hs);
      ShiftMisleads(hs, k, StringAt(mem, end));
      StoredIs(mem, end, hs);
    }
  }

  lemma ShiftMisleads(hs: seq<Header>, k: nat, tail: bytes)
    requires Distinct(hs) && k < |hs| && !Plain(hs[k]) && forall i :: 0 <= i < k ==> Plain(hs[i])
    ensures Lookup(Paired(AllStrings(hs), tail), hs[k].name) != Lookup(hs, hs[k].name)
  {
    hide AllStrings, Paired;
    var p := Paired(AllStrings(hs), tail);
    PairsBefore(hs, k, tail);
    assert forall j :: 0 <= j < k ==> p[j] == p[..k][j] == hs[j];
    assert Named(hs[k], hs[k].name);
    LookupAt(hs, hs[k].name, k);
    LookupAt(p, hs[k].name, k);
  }
}
