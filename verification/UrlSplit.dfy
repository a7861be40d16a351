// URLs as appendix B of RFC 3986 takes them apart, at their first marks, and the proof that the two
// automata of the parser do just that.

module UrlSplit {
  import opened Octets
  import opened Options
  import opened Url
  import opened UrlParts

  /** The place of the first of `marks` from `i` on, or the end. */
  function Until(buf: bytes, i: nat, end: nat, marks: seq<byte>): (n: nat)
    requires i <= end <= |buf|
    ensures i <= n <= end && (n < end ==> buf[n] in marks) && forall k :: i <= k < n ==> buf[k] !in marks
    decreases end - i
  {
    if i == end || buf[i] in marks then i else Until(buf, i + 1, end, marks)
  }

  // ---- Path, query and fragment ----

  const TAIL_MARKS: seq<byte> := [QUESTION, HASH]

  function PathEnd(buf: bytes, b: nat): (c: nat)
    requires b <= |buf|
    ensures b <= c <= |buf|
  {
    Until(buf, b, |buf|, TAIL_MARKS)
  }

  function QueryEnd(buf: bytes, c: nat): (d: nat)
    requires c <= |buf|
    ensures c <= d <= |buf|
  {
    if c < |buf| && buf[c] == QUESTION then Until(buf, c + 1, |buf|, [HASH]) else c
  }

  /** A fragment begins behind all the marks that come in a row. */
  function FragmentBegin(buf: bytes, d: nat): (f: nat)
    requires d <= |buf|
    ensures d <= f <= |buf|
    decreases |buf| - d
  {
    if d < |buf| && buf[d] == HASH then FragmentBegin(buf, d + 1) else d
  }

  /** What may stand behind a server, or alone. */
  predicate IsTail(buf: bytes, b: nat)
    requires b <= |buf|
  {
    var c := PathEnd(buf, b);
    var d := QueryEnd(buf, c);
    && (forall i :: b <= i < c ==> IsUrlChar(buf[i]))
    && (forall i :: c < i < d ==> IsQueryChar(buf[i]))
    && (forall i :: d < i < |buf| ==> IsFragmentChar(buf[i]))
  }

  function TailFields(fields: Fields, buf: bytes, b: nat): Fields
    requires b <= |buf|
  {
    var c := PathEnd(buf, b);
    var d := QueryEnd(buf, c);
    WithFragment(WithQuery(if b < c then fields[Path := Between(b, c)] else fields, c, d), buf, d)
  }

  function WithQuery(fields: Fields, c: nat, d: nat): Fields {
    if c + 1 < d then fields[Query := Between(c + 1, d)] else fields
  }

  function WithFragment(fields: Fields, buf: bytes, d: nat): Fields
    requires d <= |buf|
  {
    var f := FragmentBegin(buf, d);
    if f < |buf| then fields[Fragment := Between(f, |buf|)] else fields
  }

  /** The scan has failed, or has found these fields. */
  predicate Scans(sc: Scan, buf: bytes, p: nat, ok: bool, fields: Fields)
    requires p <= |buf|
  {
    var r := ScanFrom(sc, buf, p);
    (!r.state.Dead? <==> ok) && (ok ==> r.fields == fields && r.foundAt == sc.foundAt)
  }

  lemma {:induction false} DeadScan(sc: Scan, buf: bytes, p: nat)
    requires p <= |buf| && sc.state.Dead?
    ensures ScanFrom(sc, buf, p) == sc
  {}

  /** In the middle of a part, octets either lengthen it or are wrong. */
  lemma {:induction false} AlongOrDead(sc: Scan, buf: bytes, p: nat, q: nat, f: Field)
    requires p <= q <= |buf| && sc.current == Some(f) && f in sc.fields && FieldOf(sc.state) == Some(f)
    requires !sc.state.ServerWithAt? && !sc.state.Dead?
    requires forall i :: p <= i < q ==>
               ParseUrlChar(sc.state, buf[i]) == sc.state || ParseUrlChar(sc.state, buf[i]).Dead?
    ensures if forall i :: p <= i < q ==> ParseUrlChar(sc.state, buf[i]) == sc.state then
              var s := Span(sc.fields[f].off, sc.fields[f].len + (q - p));
              ScanFrom(sc, buf, p) == ScanFrom(sc.(fields := sc.fields[f := s]), buf, q)
            else ScanFrom(sc, buf, p).state.Dead?
    decreases q - p
  {
    hide ParseUrlChar;
    if forall i :: p <= i < q ==> ParseUrlChar(sc.state, buf[i]) == sc.state {
      Along(sc, buf, p, q, f);
    } else {
      var next := Step(sc, buf[p], p);
      if next.state.Dead? {
        DeadScan(next, buf, p + 1);
      } else {
        AlongOrDead(next, buf, p + 1, q, f);
      }
    }
  }

  /** A part that begins at `p`, with an octet that may be wrong, and goes up to `q`. */
  lemma PartOrDead(sc: Scan, buf: bytes, p: nat, q: nat, f: Field, s: UrlState)
    requires p < q <= |buf| && !sc.state.Dead? && sc.current != Some(f) && FieldOf(s) == Some(f) && !s.ServerWithAt?
    requires !s.Dead? && (ParseUrlChar(sc.state, buf[p]) == s || ParseUrlChar(sc.state, buf[p]).Dead?)
    requires forall i :: p < i < q ==> ParseUrlChar(s, buf[i]) == s || ParseUrlChar(s, buf[i]).Dead?
    ensures if ParseUrlChar(sc.state, buf[p]) == s && forall i :: p < i < q ==> ParseUrlChar(s, buf[i]) == s then
              ScanFrom(sc, buf, p) == ScanFrom(Scan(s, sc.fields[f := Between(p, q)], Some(f), sc.foundAt), buf, q)
            else ScanFrom(sc, buf, p).state.Dead?
  {
    hide ParseUrlChar;
    var next := Step(sc, buf[p], p);
    if next.state.Dead? {
      DeadScan(next, buf, p + 1);
    } else {
      AlongOrDead(next, buf, p + 1, q, f);
      if forall i :: p < i < q ==> ParseUrlChar(s, buf[i]) == s {
        PartAlong(sc, buf, p, q, f, s);
      }
    }
  }

  /** From the marks in front of a fragment on. */
  lemma {:induction false} FragmentScan(sc: Scan, buf: bytes, d: nat)
    requires d <= |buf| && sc.state.FragmentStart? && sc.current != Some(Fragment)
    ensures Scans(sc, buf, d, forall i :: d <= i < |buf| ==> IsFragmentChar(buf[i]), WithFragment(sc.fields, buf, d))
    decreases |buf| - d
  {
    hide ParseUrlChar, IsFragmentChar;
    FragmentMoves(buf);
    if d < |buf| {
      if buf[d] == HASH {
        assert Step(sc, buf[d], d) == sc;
        FragmentScan(sc, buf, d + 1);
        assert (forall i :: d <= i < |buf| ==> IsFragmentChar(buf[i])) <==>
          (forall i :: d + 1 <= i < |buf| ==> IsFragmentChar(buf[i]));
      } else {
        PartOrDead(sc, buf, d, |buf|, Fragment, InFragment);
        assert FragmentBegin(buf, d) == d;
        assert (forall i :: d <= i < |buf| ==> IsFragmentChar(buf[i])) <==>
          IsFragmentChar(buf[d]) && forall i :: d < i < |buf| ==> IsFragmentChar(buf[i]);
      }
    }
  }

  lemma FragmentMoves(buf: bytes)
    ensures forall i :: 0 <= i < |buf| ==>
              if IsFragmentChar(buf[i]) then ParseUrlChar(InFragment, buf[i]) == InFragment
              else ParseUrlChar(InFragment, buf[i]).Dead?
    ensures forall i :: 0 <= i < |buf| && buf[i] != HASH ==>
              if IsFragmentChar(buf[i]) then ParseUrlChar(FragmentStart, buf[i]) == InFragment
              else ParseUrlChar(FragmentStart, buf[i]).Dead?
    ensures ParseUrlChar(FragmentStart, HASH) == FragmentStart && IsFragmentChar(HASH)
  {}

  /** Behind a path or a query: the end, or a fragment. */
  lemma EndOrFragment(sc: Scan, buf: bytes, d: nat)
    requires d <= |buf| && (sc.state.InPath? || sc.state.QueryStart? || sc.state.InQuery?)
    requires d < |buf| ==> buf[d] == HASH
    requires sc.current != Some(Fragment)
    ensures Scans(sc, buf, d, forall i :: d < i < |buf| ==> IsFragmentChar(buf[i]), WithFragment(sc.fields, buf, d))
  {
    hide ParseUrlChar, IsFragmentChar;
    if d < |buf| {
      HashMoves(sc.state);
      var next := Step(sc, buf[d], d);
      assert next == sc.(state := FragmentStart);
      FragmentScan(next, buf, d + 1);
      assert (forall i :: d < i < |buf| ==> IsFragmentChar(buf[i])) <==>
        forall i :: d + 1 <= i < |buf| ==> IsFragmentChar(buf[i]);
    }
  }

  lemma HashMoves(s: UrlState)
    requires s.InPath? || s.QueryStart? || s.InQuery?
    ensures ParseUrlChar(s, HASH) == FragmentStart
  {}

  lemma QueryMoves(buf: bytes)
    ensures forall i :: 0 <= i < |buf| && buf[i] != HASH ==>
              if IsQueryChar(buf[i]) then
                ParseUrlChar(InQuery, buf[i]) == InQuery && ParseUrlChar(QueryStart, buf[i]) == InQuery
              else ParseUrlChar(InQuery, buf[i]).Dead? && ParseUrlChar(QueryStart, buf[i]).Dead?
  {}

  /** From behind the mark of a query on. */
  lemma QueryScan(sc: Scan, buf: bytes, c: nat)
    requires c < |buf| && buf[c] == QUESTION && sc.state.QueryStart?
    requires sc.current != Some(Query) && sc.current != Some(Fragment)
    ensures var d := QueryEnd(buf, c);
            Scans(sc, buf, c + 1,
                  (forall i :: c < i < d ==> IsQueryChar(buf[i])) &&
                  forall i :: d < i < |buf| ==> IsFragmentChar(buf[i]),
                  WithFragment(WithQuery(sc.fields, c, d), buf, d))
  {
    hide ParseUrlChar, IsFragmentChar, IsQueryChar, FragmentBegin;
    var d := QueryEnd(buf, c);
    QueryMoves(buf);
    assert forall i :: c < i < d ==> buf[i] != HASH;
    if c + 1 < d {
      PartOrDead(sc, buf, c + 1, d, Query, InQuery);
      if forall i :: c < i < d ==> IsQueryChar(buf[i]) {
        EndOrFragment(Scan(InQuery, sc.fields[Query := Between(c + 1, d)], Some(Query), sc.foundAt), buf, d);
      }
    } else {
      EndOrFragment(sc, buf, d);
    }
  }

  lemma PathMoves(buf: bytes)
    ensures forall i :: 0 <= i < |buf| && buf[i] != HASH && buf[i] != QUESTION ==>
              if IsUrlChar(buf[i]) then ParseUrlChar(InPath, buf[i]) == InPath else ParseUrlChar(InPath, buf[i]).Dead?
    ensures ParseUrlChar(InPath, QUESTION) == QueryStart && IsUrlChar(SLASH) && IsUrlChar(STAR)
  {}

  /** From behind a path on. */
  lemma BehindPath(sc: Scan, buf: bytes, c: nat)
    requires c <= |buf| && sc.state.InPath? && (c < |buf| ==> buf[c] == QUESTION || buf[c] == HASH)
    requires sc.current == Some(Path)
    ensures var d := QueryEnd(buf, c);
            Scans(sc, buf, c,
                  (forall i :: c < i < d ==> IsQueryChar(buf[i])) &&
                  forall i :: d < i < |buf| ==> IsFragmentChar(buf[i]),
                  WithFragment(WithQuery(sc.fields, c, d), buf, d))
  {
    hide ParseUrlChar, IsFragmentChar, IsQueryChar, FragmentBegin;
    PathMoves(buf);
    if c < |buf| && buf[c] == QUESTION {
      assert Step(sc, buf[c], c) == sc.(state := QueryStart);
      QueryScan(sc.(state := QueryStart), buf, c);
    } else {
      EndOrFragment(sc, buf, c);
    }
  }

  /** A tail that begins with a path. */
  lemma PathScan(sc: Scan, buf: bytes, b: nat)
    requires b < |buf| && !sc.state.Dead? && sc.current != Some(Path)
    requires ParseUrlChar(sc.state, buf[b]) == InPath && (buf[b] == SLASH || buf[b] == STAR)
    ensures Scans(sc, buf, b, IsTail(buf, b), TailFields(sc.fields, buf, b))
  {
    hide ParseUrlChar, IsFragmentChar, IsQueryChar, IsUrlChar, FragmentBegin, QueryEnd;
    PathMoves(buf);
    var c := PathEnd(buf, b);
    assert forall i :: b <= i < c ==> buf[i] !in TAIL_MARKS;
    PartOrDead(sc, buf, b, c, Path, InPath);
    if forall i :: b < i < c ==> ParseUrlChar(InPath, buf[i]) == InPath {
      BehindPath(Scan(InPath, sc.fields[Path := Between(b, c)], Some(Path), sc.foundAt), buf, c);
    }
  }

  /** What stands behind a server, or alone, from its first octet on. */
  lemma TailScan(sc: Scan, buf: bytes, b: nat)
    requires b <= |buf| && !sc.state.Dead?
    requires sc.current != Some(Path) && sc.current != Some(Query) && sc.current != Some(Fragment)
    requires b < |buf| ==>
               || (ParseUrlChar(sc.state, buf[b]) == InPath && (buf[b] == SLASH || buf[b] == STAR))
               || (ParseUrlChar(sc.state, buf[b]) == QueryStart && buf[b] == QUESTION)
    ensures Scans(sc, buf, b, IsTail(buf, b), TailFields(sc.fields, buf, b))
  {
    hide ParseUrlChar, IsFragmentChar, IsQueryChar, IsUrlChar;
    if b < |buf| && buf[b] != QUESTION {
      PathScan(sc, buf, b);
    } else if b < |buf| {
      hide FragmentBegin;
      assert Step(sc, buf[b], b) == sc.(state := QueryStart);
      assert PathEnd(buf, b) == b;
      QueryScan(sc.(state := QueryStart), buf, b);
    }
  }

  // ---- The server ----

  /** A host from `x` on, a name or an address in brackets, and where it ends. */
  function HostAt(buf: bytes, x: nat, b: nat): (r: Option<(Span, nat)>)
    requires x <= b <= |buf|
    ensures r.Some? ==> x < r.value.1 <= b
  {
    if x < b && buf[x] == OPENING then
      var e := Until(buf, x + 1, b, [CLOSING]);
      var z := Until(buf, x + 1, e, [PERCENT]);
      if e < b && x + 1 < z && (forall i :: x + 1 <= i < z ==> IsAddressChar(buf[i]))
         && (z < e ==> z + 1 < e && forall i :: z < i < e ==> IsZoneChar(buf[i]))
      then Some((Between(x + 1, e), e + 1)) else None
    else
      var p := Until(buf, x, b, [COLON]);
      if x < p && forall i :: x <= i < p ==> IsHostChar(buf[i]) then Some((Between(x, p), p)) else None
  }

  /** Nothing, or a colon and digits. */
  function PortAt(buf: bytes, p: nat, b: nat): (r: Option<Option<Span>>)
    requires p <= b <= |buf|
    ensures r.Some? && r.value.Some? ==> Digits(buf, r.value.value)
  {
    if p == b then Some(None)
    else if buf[p] == COLON && p + 1 < b && forall i :: p < i < b ==> Url.IsNum(buf[i]) then
      Some(Some(Between(p + 1, b)))
    else None
  }

  /** The parts of a server: its user information up to the first @, if there is one, its host, its port. */
  datatype ServerSplit = ServerSplit(user: Option<Span>, host: Span, port: Option<Span>)

  function ServerAt(buf: bytes, a: nat, b: nat): (r: Option<ServerSplit>)
    requires a <= b <= |buf|
    ensures r.Some? && r.value.port.Some? ==> Digits(buf, r.value.port.value)
  {
    var u := Until(buf, a, b, [AT]);
    var x := if u < b then u + 1 else a;
    var host := HostAt(buf, x, b);
    if host.None? || (u < b && exists i :: a <= i < u && !IsUserInfoChar(buf[i])) then None
    else
      var port := PortAt(buf, host.value.1, b);
      if port.None? then None
      else Some(ServerSplit(if u < b && a < u then Some(Between(a, u)) else None, host.value.0, port.value))
  }

  /** The second automaton has failed, or has found this. */
  predicate Found(h: HostScan, r: Option<ServerSplit>) {
    if r.None? then !EndsWell(h.state)
    else EndsWell(h.state) && h.host == r.value.host && h.port == r.value.port && h.userInfo == r.value.user
  }

  lemma DeadHost(h: HostScan, buf: bytes, p: nat, end: nat)
    requires p <= end <= |buf| && h.state.HostDead?
    ensures HostFrom(h, buf, p, end) == h
  {}

  lemma StateStep(h: HostScan, ch: byte, p: nat)
    ensures HostStep(h, ch, p).state == ParseHostChar(h.state, ch)
  {
    hide ParseHostChar;
  }

  /** In the middle of a part of a server, one wrong octet is the end. */
  lemma {:induction false} WrongInside(h: HostScan, buf: bytes, p: nat, q: nat, end: nat)
    requires p <= q <= end <= |buf| && !h.state.HostDead?
    requires forall i :: p <= i < q ==>
               ParseHostChar(h.state, buf[i]) == h.state || ParseHostChar(h.state, buf[i]).HostDead?
    requires exists i :: p <= i < q && ParseHostChar(h.state, buf[i]).HostDead?
    ensures HostFrom(h, buf, p, end).state.HostDead?
    decreases q - p
  {
    hide ParseHostChar, HostStep;
    var next := HostStep(h, buf[p], p);
    StateStep(h, buf[p], p);
    if next.state.HostDead? {
      DeadHost(next, buf, p + 1, end);
    } else {
      WrongInside(next, buf, p + 1, q, end);
    }
  }

  /** A first octet that leads nowhere. */
  lemma WrongFirst(h: HostScan, buf: bytes, p: nat, end: nat)
    requires p < end <= |buf| && !h.state.HostDead? && ParseHostChar(h.state, buf[p]).HostDead?
    ensures HostFrom(h, buf, p, end).state.HostDead?
  {
    hide ParseHostChar, HostStep;
    StateStep(h, buf[p], p);
    DeadHost(HostStep(h, buf[p], p), buf, p + 1, end);
  }

  /** Behind a host. */
  lemma PortFound(h: HostScan, buf: bytes, p: nat, end: nat)
    requires p <= end <= |buf| && (h.state.InHost? || h.state.V6End?) && h.port.None?
    requires p < end && h.state.InHost? ==> buf[p] == COLON
    ensures Found(HostFrom(h, buf, p, end),
                  if PortAt(buf, p, end).None? then None
                  else Some(ServerSplit(h.userInfo, h.host, PortAt(buf, p, end).value)))
  {
    hide HostFrom, ParseHostChar;
    if p == end {
      HostEnd(h, buf, end);
    } else if buf[p] != COLON {
      AfterBracket(buf[p]);
      WrongFirst(h, buf, p, end);
    } else {
      ColonMoves(h, p);
      HostNext(h, buf, p, end);
      var start := h.(state := PortStart);
      if p + 1 == end {
        HostEnd(start, buf, end);
      } else {
        PortDigits(start, buf, p + 1, end);
      }
    }
  }

  lemma AfterBracket(ch: byte)
    requires ch != COLON
    ensures ParseHostChar(V6End, ch).HostDead?
  {}

  lemma ColonMoves(h: HostScan, p: nat)
    requires h.state.InHost? || h.state.V6End?
    ensures HostStep(h, COLON, p) == h.(state := PortStart)
  {
    assert !IsHostChar(COLON);
  }

  lemma DigitMoves(ch: byte)
    ensures if Url.IsNum(ch) then ParseHostChar(PortStart, ch) == InPort && ParseHostChar(InPort, ch) == InPort
            else ParseHostChar(PortStart, ch).HostDead? && ParseHostChar(InPort, ch).HostDead?
  {}

  lemma PortDigits(h: HostScan, buf: bytes, p: nat, end: nat)
    requires p < end <= |buf| && h.state.PortStart? && h.port.None?
    ensures var r := HostFrom(h, buf, p, end);
            if forall i :: p <= i < end ==> Url.IsNum(buf[i]) then
              r == h.(state := InPort, port := Some(Between(p, end)))
            else r.state.HostDead?
  {
    hide HostFrom, ParseHostChar;
    forall i | p <= i < end
      ensures if Url.IsNum(buf[i]) then
          ParseHostChar(PortStart, buf[i]) == InPort && ParseHostChar(InPort, buf[i]) == InPort
        else ParseHostChar(PortStart, buf[i]).HostDead? && ParseHostChar(InPort, buf[i]).HostDead?
    {
      DigitMoves(buf[i]);
    }
    if !Url.IsNum(buf[p]) {
      WrongFirst(h, buf, p, end);
    } else {
      HostNext(h, buf, p, end);
      var one := h.(state := InPort, port := Some(Span(p, 1)));
      assert HostStep(h, buf[p], p) == one;
      if forall i :: p <= i < end ==> Url.IsNum(buf[i]) {
        PortAlong(one, buf, p + 1, end, end);
        HostEnd(one.(port := Some(Between(p, end))), buf, end);
      } else {
        WrongInside(one, buf, p + 1, end, end);
      }
    }
  }

  /** What the host and the port behind it come to. */
  function HostAndPort(user: Option<Span>, buf: bytes, x: nat, b: nat): Option<ServerSplit>
    requires x <= b <= |buf|
  {
    var host := HostAt(buf, x, b);
    if host.None? then None
    else
      var port := PortAt(buf, host.value.1, b);
      if port.None? then None else Some(ServerSplit(user, host.value.0, port.value))
  }

  lemma NameMoves(ch: byte)
    requires ch != COLON && ch != OPENING
    ensures if IsHostChar(ch) then ParseHostChar(HostStart, ch) == InHost && ParseHostChar(InHost, ch) == InHost
            else ParseHostChar(HostStart, ch).HostDead? && ParseHostChar(InHost, ch).HostDead?
  {}

  lemma NameMovesToo(ch: byte)
    ensures ch != COLON ==>
              if IsHostChar(ch) then ParseHostChar(InHost, ch) == InHost else ParseHostChar(InHost, ch).HostDead?
    ensures ch == COLON ==> ParseHostChar(HostStart, ch).HostDead?
  {}

  lemma NameFound(h: HostScan, buf: bytes, x: nat, end: nat)
    requires x <= end <= |buf| && h.state.HostStart? && h.host.len == 0 && h.port.None?
    requires x < end ==> buf[x] != OPENING
    ensures Found(HostFrom(h, buf, x, end), HostAndPort(h.userInfo, buf, x, end))
  {
    hide HostFrom, ParseHostChar, PortAt, IsHostChar;
    var p := Until(buf, x, end, [COLON]);
    if x == end {
      HostEnd(h, buf, end);
    } else if buf[x] == COLON {
      NameMovesToo(buf[x]);
      WrongFirst(h, buf, x, end);
    } else {
      forall i | x <= i < p
        ensures if IsHostChar(buf[i]) then ParseHostChar(InHost, buf[i]) == InHost
          else ParseHostChar(InHost, buf[i]).HostDead?
      {
        NameMovesToo(buf[i]);
      }
      NameMoves(buf[x]);
      if !IsHostChar(buf[x]) {
        WrongFirst(h, buf, x, end);
      } else if forall i :: x <= i < p ==> IsHostChar(buf[i]) {
        assert IsHostText(buf, x, p, Name);
        NameParsed(h, buf, x, p, end);
        PortFound(h.(state := InHost, host := Between(x, p)), buf, p, end);
      } else {
        HostNext(h, buf, x, end);
        NotOpening(buf[x]);
        var one := h.(state := InHost, host := Span(x, 1));
        assert HostStep(h, buf[x], x) == one;
        WrongInside(one, buf, x + 1, p, end);
      }
    }
  }

  lemma AddressMoves(ch: byte)
    ensures if IsAddressChar(ch) then ParseHostChar(V6Start, ch) == InV6 && ParseHostChar(InV6, ch) == InV6
            else ParseHostChar(V6Start, ch).HostDead?
    ensures !IsAddressChar(ch) && ch != CLOSING && ch != PERCENT ==> ParseHostChar(InV6, ch).HostDead?
    ensures ParseHostChar(InV6, PERCENT) == ZoneStart && ParseHostChar(InV6, CLOSING) == V6End
    ensures ParseHostChar(InZone, CLOSING) == V6End && ParseHostChar(HostStart, OPENING) == V6Start
  {}

  lemma ZoneMoves(ch: byte)
    ensures if IsZoneChar(ch) then ParseHostChar(ZoneStart, ch) == InZone && ParseHostChar(InZone, ch) == InZone
            else ParseHostChar(ZoneStart, ch).HostDead?
    ensures !IsZoneChar(ch) && ch != CLOSING ==> ParseHostChar(InZone, ch).HostDead?
    ensures !IsZoneChar(CLOSING)
  {}

  /** Within a zone, up to the bracket. */
  lemma ZoneFound(h: HostScan, buf: bytes, lo: nat, z: nat, e: nat, end: nat)
    requires lo <= z < e <= end <= |buf| && h.state.InV6? && h.port.None? && h.host == Between(lo, z)
    requires buf[z] == PERCENT
    requires forall i :: z <= i < e ==> buf[i] != CLOSING
    requires e < end ==> buf[e] == CLOSING
    ensures var r := HostFrom(h, buf, z, end);
            if e < end && z + 1 < e && forall i :: z < i < e ==> IsZoneChar(buf[i]) then
              r == HostFrom(h.(state := V6End, host := Between(lo, e)), buf, e + 1, end)
            else !EndsWell(r.state)
  {
    hide HostFrom, ParseHostChar, IsZoneChar, IsAddressChar;
    AddressMoves(PERCENT);
    HostNext(h, buf, z, end);
    var start := h.(state := ZoneStart, host := Between(lo, z + 1));
    assert HostStep(h, buf[z], z) == start;
    if z + 1 == end {
      HostEnd(start, buf, end);
    } else {
      ZoneMoves(buf[z + 1]);
      if z + 1 == e {
        WrongFirst(start, buf, z + 1, end);
      } else {
        ZoneInside(start, buf, lo, z + 1, e, end);
      }
    }
  }

  lemma ZoneInside(h: HostScan, buf: bytes, lo: nat, p: nat, e: nat, end: nat)
    requires lo <= p < e <= end <= |buf| && h.state.ZoneStart? && h.port.None? && h.host == Between(lo, p)
    requires forall i :: p <= i < e ==> buf[i] != CLOSING
    requires e < end ==> buf[e] == CLOSING
    ensures var r := HostFrom(h, buf, p, end);
            if e < end && forall i :: p <= i < e ==> IsZoneChar(buf[i]) then
              r == HostFrom(h.(state := V6End, host := Between(lo, e)), buf, e + 1, end)
            else !EndsWell(r.state)
  {
    hide HostFrom, ParseHostChar, IsZoneChar;
    forall i | p <= i < e
      ensures if IsZoneChar(buf[i]) then ParseHostChar(InZone, buf[i]) == InZone
        else ParseHostChar(InZone, buf[i]).HostDead?
    {
      ZoneMoves(buf[i]);
    }
    ZoneMoves(buf[p]);
    if !IsZoneChar(buf[p]) {
      WrongFirst(h, buf, p, end);
    } else {
      HostNext(h, buf, p, end);
      var one := h.(state := InZone, host := Between(lo, p + 1));
      ZoneGoes(h, buf[p], p);
      if forall i :: p <= i < e ==> IsZoneChar(buf[i]) {
        ZoneAlong(one, buf, p + 1, e, end);
        var all := one.(host := Between(lo, e));
        if e < end {
          AddressMoves(CLOSING);
          HostNext(all, buf, e, end);
        } else {
          HostEnd(all, buf, end);
        }
      } else {
        WrongInside(one, buf, p + 1, e, end);
      }
    }
  }

  /** Behind an opening bracket. */
  lemma AddressFound(h: HostScan, buf: bytes, x: nat, end: nat)
    requires x < end <= |buf| && h.state.HostStart? && h.host.len == 0 && h.port.None? && buf[x] == OPENING
    ensures Found(HostFrom(h, buf, x, end), HostAndPort(h.userInfo, buf, x, end))
  {
    hide HostFrom, ParseHostChar, PortAt, IsAddressChar, IsZoneChar;
    AddressMoves(OPENING);
    HostNext(h, buf, x, end);
    var start := h.(state := V6Start);
    assert HostStep(h, buf[x], x) == start;
    var e := Until(buf, x + 1, end, [CLOSING]);
    var z := Until(buf, x + 1, e, [PERCENT]);
    if x + 1 == end {
      HostEnd(start, buf, end);
    } else {
      AddressMoves(buf[x + 1]);
      MarksNoAddress();
      if !IsAddressChar(buf[x + 1]) {
        WrongFirst(start, buf, x + 1, end);
      } else {
        AddressInside(start, buf, x + 1, z, e, end);
        if HostAt(buf, x, end).Some? {
          var host := h.(state := V6End, host := Between(x + 1, e));
          PortFound(host, buf, e + 1, end);
        }
      }
    }
  }

  lemma MarksNoAddress()
    ensures !IsAddressChar(CLOSING) && !IsAddressChar(PERCENT)
  {}

  lemma AddressInside(h: HostScan, buf: bytes, p: nat, z: nat, e: nat, end: nat)
    requires p < z <= e <= end <= |buf| && h.state.V6Start? && h.port.None? && h.host.len == 0 && IsAddressChar(buf[p])
    requires forall i :: p <= i < e ==> buf[i] != CLOSING
    requires forall i :: p <= i < z ==> buf[i] != PERCENT
    requires (e < end ==> buf[e] == CLOSING) && (z < e ==> buf[z] == PERCENT)
    ensures var r := HostFrom(h, buf, p, end);
            if e < end && (forall i :: p <= i < z ==> IsAddressChar(buf[i]))
               && (z < e ==> z + 1 < e && forall i :: z < i < e ==> IsZoneChar(buf[i]))
            then r == HostFrom(h.(state := V6End, host := Between(p, e)), buf, e + 1, end)
            else !EndsWell(r.state)
  {
    hide HostFrom, ParseHostChar, IsAddressChar, IsZoneChar;
    forall i | p <= i < z
      ensures if IsAddressChar(buf[i]) then ParseHostChar(InV6, buf[i]) == InV6
        else ParseHostChar(InV6, buf[i]).HostDead?
    {
      AddressMoves(buf[i]);
    }
    HostNext(h, buf, p, end);
    AddressStarts(h, buf[p], p);
    var one := h.(state := InV6, host := Span(p, 1));
    if forall i :: p <= i < z ==> IsAddressChar(buf[i]) {
      AddressAlong(one, buf, p + 1, z, end);
      var two := one.(host := Between(p, z));
      if z < e {
        ZoneFound(two, buf, p, z, e, end);
      } else if e < end {
        AddressMoves(CLOSING);
        HostNext(two, buf, e, end);
      } else {
        HostEnd(two, buf, end);
      }
    } else {
      WrongInside(one, buf, p + 1, z, end);
    }
  }

  lemma HostFound(h: HostScan, buf: bytes, x: nat, end: nat)
    requires x <= end <= |buf| && h.state.HostStart? && h.host.len == 0 && h.port.None?
    ensures Found(HostFrom(h, buf, x, end), HostAndPort(h.userInfo, buf, x, end))
  {
    if x < end && buf[x] == OPENING {
      AddressFound(h, buf, x, end);
    } else {
      NameFound(h, buf, x, end);
    }
  }

  lemma UserMoves(ch: byte)
    ensures ch != AT ==>
              if IsUserInfoChar(ch) then
                ParseHostChar(UserInfoStart, ch) == InUserInfo && ParseHostChar(InUserInfo, ch) == InUserInfo
              else ParseHostChar(UserInfoStart, ch).HostDead? && ParseHostChar(InUserInfo, ch).HostDead?
    ensures ParseHostChar(UserInfoStart, AT) == HostStart && ParseHostChar(InUserInfo, AT) == HostStart
  {
    hide IsUserInfoChar;
  }

  /** The user information in front of the first @. */
  lemma UserFound(buf: bytes, a: nat, u: nat, end: nat)
    requires a <= u < end <= |buf| && buf[u] == AT && forall i :: a <= i < u ==> buf[i] != AT
    ensures var r := HostFrom(HostBegin(a, true), buf, a, end);
            if forall i :: a <= i < u ==> IsUserInfoChar(buf[i]) then
              var user := if a < u then Some(Between(a, u)) else None;
              r == HostFrom(HostScan(HostStart, Span(a, 0), None, user), buf, u + 1, end)
            else r.state.HostDead?
  {
    hide HostFrom, ParseHostChar, IsUserInfoChar;
    var h := HostBegin(a, true);
    forall i | a <= i < u
      ensures if IsUserInfoChar(buf[i]) then ParseHostChar(InUserInfo, buf[i]) == InUserInfo
        else ParseHostChar(InUserInfo, buf[i]).HostDead?
    {
      UserMoves(buf[i]);
    }
    UserMoves(AT);
    if a == u {
      HostNext(h, buf, a, end);
    } else {
      UserMoves(buf[a]);
      if !IsUserInfoChar(buf[a]) {
        WrongFirst(h, buf, a, end);
      } else {
        HostNext(h, buf, a, end);
        var one := HostScan(InUserInfo, Span(a, 0), None, Some(Span(a, 1)));
        assert HostStep(h, buf[a], a) == one;
        if forall i :: a <= i < u ==> IsUserInfoChar(buf[i]) {
          UserAlong(one, buf, a + 1, u, end);
          HostNext(one.(userInfo := Some(Between(a, u))), buf, u, end);
        } else {
          WrongInside(one, buf, a + 1, u, end);
        }
      }
    }
  }

  /** The second automaton takes a server apart at its first marks. */
  lemma ServerFoundAt(buf: bytes, a: nat, b: nat)
    requires a <= b <= |buf|
    ensures var found := Until(buf, a, b, [AT]) < b;
            Found(HostFrom(HostBegin(a, found), buf, a, b), ServerAt(buf, a, b))
  {
    hide HostFrom, HostAt, PortAt, IsUserInfoChar;
    var u := Until(buf, a, b, [AT]);
    if u < b {
      UserFound(buf, a, u, b);
      if forall i :: a <= i < u ==> IsUserInfoChar(buf[i]) {
        var user := if a < u then Some(Between(a, u)) else None;
        HostFound(HostScan(HostStart, Span(a, 0), None, user), buf, u + 1, b);
      }
    } else {
      HostFound(HostBegin(a, false), buf, a, b);
    }
  }

  // ---- The whole URL ----

  /** The letters that come first. */
  function AlphaEnd(buf: bytes, i: nat): (n: nat)
    requires i <= |buf|
    ensures i <= n <= |buf| && (n < |buf| ==> !IsAlpha(buf[n])) && forall k :: i <= k < n ==> IsAlpha(buf[k])
    decreases |buf| - i
  {
    if i < |buf| && IsAlpha(buf[i]) then AlphaEnd(buf, i + 1) else i
  }

  function WithServer(fields: Fields, s: ServerSplit): Fields {
    var a := fields[Host := s.host];
    var b := if s.port.Some? then a[Port := s.port.value] else a;
    if s.user.Some? then b[UserInfo := s.user.value] else b
  }

  /** A URL with a server, whose schema ends at `n`. */
  function SplitServer(buf: bytes, n: nat): Option<(Fields, nat)>
    requires n + 3 <= |buf|
  {
    var b := Until(buf, n + 3, |buf|, [SLASH, QUESTION]);
    var s := ServerAt(buf, n + 3, b);
    if s.None? || !IsTail(buf, b) then None
    else
      var port := if s.value.port.Some? then Decimal(buf, s.value.port.value) else 0;
      if port > MAX_PORT then None
      else Some((WithServer(TailFields(map[Schema := Between(0, n)], buf, b), s.value), port))
  }

  /** Letters and two slashes behind a colon, a server up to a slash or a question mark, a tail; or a tail alone. */
  function SplitUrl(buf: bytes): Option<(Fields, nat)> {
    if buf == [] then None
    else if buf[0] == SLASH || buf[0] == STAR then
      if IsTail(buf, 0) then Some((TailFields(map[], buf, 0), 0)) else None
    else
      var n := AlphaEnd(buf, 0);
      if n == 0 || n + 3 > |buf| || buf[n..n + 3] != [COLON, SLASH, SLASH] then None else SplitServer(buf, n)
  }

  /** An octet of a server that goes with the one before. */
  predicate Serves(buf: bytes, i: nat)
    requires 0 < i < |buf|
  {
    if buf[i] == AT then buf[i - 1] != AT else IsServerChar(buf[i])
  }

  predicate HasAt(buf: bytes, p: nat, q: nat)
    requires p <= q <= |buf|
  {
    exists i :: p <= i < q && buf[i] == AT
  }

  lemma ServerMoves(s: UrlState, ch: byte)
    requires s.Server? || s.ServerWithAt? || s.ServerStart?
    requires ch != SLASH && ch != QUESTION
    ensures ch == AT ==> ParseUrlChar(s, ch) == if s.ServerWithAt? then UrlState.Dead else ServerWithAt
    ensures ch != AT ==> ParseUrlChar(s, ch) == if IsServerChar(ch) then Url.Server else UrlState.Dead
  {}

  lemma TailMoves(s: UrlState)
    requires s.Server? || s.ServerWithAt? || s.ServerStart?
    ensures ParseUrlChar(s, SLASH) == InPath && ParseUrlChar(s, QUESTION) == QueryStart
  {}

  /** Along a server, its octets are taken one by one, or one is wrong. */
  lemma {:induction false} ServerRun(sc: Scan, buf: bytes, a: nat, p: nat, b: nat)
    requires a < p <= b <= |buf| && sc.current == Some(Host) && Host in sc.fields && sc.fields[Host] == Between(a, p)
    requires sc.state == if buf[p - 1] == AT then ServerWithAt else Url.Server
    requires forall i :: p <= i < b ==> buf[i] != SLASH && buf[i] != QUESTION
    ensures if forall i :: p <= i < b ==> Serves(buf, i) then
              ScanFrom(sc, buf, p)
              == ScanFrom(Scan(if buf[b - 1] == AT then ServerWithAt else Url.Server, sc.fields[Host := Between(a, b)],
                               Some(Host), sc.foundAt || HasAt(buf, p, b)), buf, b)
            else ScanFrom(sc, buf, p).state.Dead?
    decreases b - p
  {
    hide ParseUrlChar, IsServerChar;
    if p < b {
      ServerMoves(sc.state, buf[p]);
      var next := Step(sc, buf[p], p);
      if Serves(buf, p) {
        ServerRun(next, buf, a, p + 1, b);
        assert next.fields[Host := Between(a, b)] == sc.fields[Host := Between(a, b)];
        assert HasAt(buf, p, b) <==> buf[p] == AT || HasAt(buf, p + 1, b);
      } else {
        DeadScan(next, buf, p + 1);
      }
    } else {
      assert sc.fields[Host := Between(a, b)] == sc.fields;
    }
  }

  predicate IsPlainServerChar(ch: byte) {
    IsServerChar(ch) && ch != AT
  }

  lemma CharsServe(ch: byte)
    ensures IsHostChar(ch) || IsAddressChar(ch) || IsZoneChar(ch) || Url.IsNum(ch) ==> IsPlainServerChar(ch)
    ensures IsUserInfoChar(ch) || ch in [COLON, PERCENT, OPENING, CLOSING] ==> IsPlainServerChar(ch)
  {}

  lemma HostServes(buf: bytes, x: nat, b: nat)
    requires x <= b <= |buf| && HostAt(buf, x, b).Some?
    ensures forall i :: x <= i < HostAt(buf, x, b).value.1 ==> IsPlainServerChar(buf[i])
  {
    hide IsHostChar, IsAddressChar, IsZoneChar, IsPlainServerChar, IsUserInfoChar;
    forall i | x <= i < HostAt(buf, x, b).value.1 ensures IsPlainServerChar(buf[i]) {
      CharsServe(buf[i]);
    }
  }

  lemma PortServes(buf: bytes, p: nat, b: nat)
    requires p <= b <= |buf| && PortAt(buf, p, b).Some?
    ensures forall i :: p <= i < b ==> IsPlainServerChar(buf[i])
  {
    hide IsPlainServerChar;
    forall i | p <= i < b ensures IsPlainServerChar(buf[i]) {
      CharsServe(buf[i]);
    }
  }

  /** What can be taken apart has only octets of a server, and one @ at most. */
  lemma ServerServes(buf: bytes, a: nat, b: nat)
    requires a <= b <= |buf| && ServerAt(buf, a, b).Some?
    ensures a < b && (buf[a] == AT || IsServerChar(buf[a])) && forall i :: a < i < b ==> Serves(buf, i)
  {
    hide HostAt, PortAt, IsServerChar, IsUserInfoChar;
    var u := Until(buf, a, b, [AT]);
    var x := if u < b then u + 1 else a;
    HostServes(buf, x, b);
    PortServes(buf, HostAt(buf, x, b).value.1, b);
    forall i | a <= i < b ensures i == u || IsPlainServerChar(buf[i]) {
      if i < u && u < b {
        CharsServe(buf[i]);
      }
    }
  }

  /** Between the schema and the server. */
  lemma MarkScan(sc: Scan, buf: bytes, p: nat, mark: byte, s: UrlState)
    requires p < |buf| && !sc.state.Dead? && FieldOf(s).None? && !s.Dead?
    requires ParseUrlChar(sc.state, buf[p]) == if buf[p] == mark then s else UrlState.Dead
    ensures if buf[p] == mark then ScanFrom(sc, buf, p) == ScanFrom(sc.(state := s), buf, p + 1)
            else ScanFrom(sc, buf, p).state.Dead?
  {
    hide ParseUrlChar;
    if buf[p] != mark {
      DeadScan(Step(sc, buf[p], p), buf, p + 1);
    }
  }

  lemma MarkMoves(ch: byte)
    ensures !IsAlpha(ch) ==> ParseUrlChar(InSchema, ch) == if ch == COLON then SchemaSlash else UrlState.Dead
    ensures ParseUrlChar(SchemaSlash, ch) == if ch == SLASH then SchemaSlashSlash else UrlState.Dead
    ensures ParseUrlChar(SchemaSlashSlash, ch) == if ch == SLASH then ServerStart else UrlState.Dead
    ensures IsAlpha(ch) ==> ParseUrlChar(InSchema, ch) == InSchema && ParseUrlChar(SpacesBeforeUrl, ch) == InSchema
    ensures !IsAlpha(ch) && ch != SLASH && ch != STAR ==> ParseUrlChar(SpacesBeforeUrl, ch).Dead?
    ensures ch == SLASH || ch == STAR ==> ParseUrlChar(SpacesBeforeUrl, ch) == InPath
  {}

  /** A schema alone, or with marks but no server. */
  predicate Serverless(sc: Scan) {
    sc.state.Dead? || (Schema in sc.fields && Host !in sc.fields)
  }

  function SchemaScan(n: nat): Scan {
    Scan(ServerStart, map[Schema := Between(0, n)], Some(Schema), false)
  }

  /** The schema and the marks behind it. */
  lemma SchemaSplit(buf: bytes, n: nat)
    requires buf != [] && buf[0] != SLASH && buf[0] != STAR && n == AlphaEnd(buf, 0)
    ensures if n > 0 && n + 3 <= |buf| && buf[n..n + 3] == [COLON, SLASH, SLASH] then
              ScanFrom(BEGIN, buf, 0) == ScanFrom(SchemaScan(n), buf, n + 3)
            else Serverless(ScanFrom(BEGIN, buf, 0))
  {
    hide ParseUrlChar, IsAlpha;
    forall i | 0 <= i < |buf|
      ensures IsAlpha(buf[i]) ==>
          ParseUrlChar(InSchema, buf[i]) == InSchema && ParseUrlChar(SpacesBeforeUrl, buf[i]) == InSchema
    {
      MarkMoves(buf[i]);
    }
    if n == 0 {
      MarkMoves(buf[0]);
      DeadScan(Step(BEGIN, buf[0], 0), buf, 1);
    } else {
      PartAlong(BEGIN, buf, 0, n, Schema, InSchema);
      assert map[][Schema := Between(0, n)] == map[Schema := Between(0, n)];
      MarksSplit(buf, n);
    }
  }

  lemma MarksSplit(buf: bytes, n: nat)
    requires 0 < n <= |buf| && (n < |buf| ==> !IsAlpha(buf[n]))
    ensures var r := ScanFrom(SchemaScan(n).(state := InSchema), buf, n);
            if n + 3 <= |buf| && buf[n..n + 3] == [COLON, SLASH, SLASH] then r == ScanFrom(SchemaScan(n), buf, n + 3)
            else Serverless(r)
  {
    hide ParseUrlChar, IsAlpha;
    var sc := SchemaScan(n);
    if n < |buf| {
      MarkMoves(buf[n]);
      MarkScan(sc.(state := InSchema), buf, n, COLON, SchemaSlash);
      if n + 1 < |buf| {
        MarkMoves(buf[n + 1]);
        MarkScan(sc.(state := SchemaSlash), buf, n + 1, SLASH, SchemaSlashSlash);
        if n + 2 < |buf| {
          MarkMoves(buf[n + 2]);
          MarkScan(sc.(state := SchemaSlashSlash), buf, n + 2, SLASH, ServerStart);
          assert buf[n..n + 3] == [buf[n], buf[n + 1], buf[n + 2]];
        }
      }
    }
  }

  lemma TailKeeps(fields: Fields, buf: bytes, b: nat)
    requires b <= |buf|
    ensures var t := TailFields(fields, buf, b);
            && (Host in t <==> Host in fields) && (Host in t ==> t[Host] == fields[Host])
            && (Schema in fields ==> Schema in t)
  {}

  /** The server as a whole is replaced by its host. */
  lemma HostReplaced(n: nat, a: nat, b: nat, buf: bytes, h: HostScan, s: ServerSplit)
    requires a <= b <= |buf| && h.host == s.host && h.port == s.port && h.userInfo == s.user
    ensures Merge(TailFields(map[Schema := Between(0, n), Host := Between(a, b)], buf, b), h)
         == WithServer(TailFields(map[Schema := Between(0, n)], buf, b), s)
  {
    hide Between;
    var f, g := TailFields(map[Schema := Between(0, n), Host := Between(a, b)], buf, b),
      TailFields(map[Schema := Between(0, n)], buf, b);
    assert f[Host := s.host] == g[Host := s.host];
  }

  /** Behind the schema, when there is a server. */
  lemma ServerScanned(buf: bytes, n: nat, b: nat)
    requires n + 3 <= |buf| && b == Until(buf, n + 3, |buf|, [SLASH, QUESTION]) && n + 3 < b
    ensures var a := n + 3;
            var found := Until(buf, a, b, [AT]) < b;
            var sc := ScanFrom(SchemaScan(n), buf, a);
            if (buf[a] == AT || IsServerChar(buf[a])) && (forall i :: a < i < b ==> Serves(buf, i))
              && IsTail(buf, b) then
              && !sc.state.Dead? && sc.foundAt == found
              && sc.fields == TailFields(map[Schema := Between(0, n), Host := Between(a, b)], buf, b)
            else sc.state.Dead?
  {
    hide ParseUrlChar, IsServerChar, IsTail, TailFields, Serves;
    var a, sc := n + 3, SchemaScan(n);
    ServerMoves(ServerStart, buf[a]);
    var one := Step(sc, buf[a], a);
    if one.state.Dead? {
      DeadScan(one, buf, a + 1);
    } else {
      ServerRun(one, buf, a, a + 1, b);
      if forall i :: a < i < b ==> Serves(buf, i) {
        var two := Scan(if buf[b - 1] == AT then ServerWithAt else Url.Server, one.fields[Host := Between(a, b)],
                        Some(Host), one.foundAt || HasAt(buf, a + 1, b));
        assert two.fields == map[Schema := Between(0, n), Host := Between(a, b)];
        AtFound(buf, a, b);
        if b < |buf| {
          TailMoves(two.state);
        }
        TailScan(two, buf, b);
      }
    }
  }

  lemma AtFound(buf: bytes, a: nat, b: nat)
    requires a < b <= |buf|
    ensures Until(buf, a, b, [AT]) < b <==> buf[a] == AT || HasAt(buf, a + 1, b)
  {
    var u := Until(buf, a, b, [AT]);
    if u < b && u > a {
      assert buf[u] == AT;
    }
  }

  lemma NoServer(buf: bytes, n: nat)
    requires n + 3 <= |buf| && Until(buf, n + 3, |buf|, [SLASH, QUESTION]) == n + 3
    ensures Serverless(ScanFrom(SchemaScan(n), buf, n + 3)) && SplitServer(buf, n).None?
  {
    hide ParseUrlChar, IsTail, TailFields;
    var a := n + 3;
    if a < |buf| {
      TailMoves(ServerStart);
    }
    TailScan(SchemaScan(n), buf, a);
    TailKeeps(SchemaScan(n).fields, buf, a);
    assert HostAt(buf, a, a).None?;
  }

  lemma ServerUrl(buf: bytes, n: nat)
    requires n + 3 <= |buf| && ScanFrom(BEGIN, buf, 0) == ScanFrom(SchemaScan(n), buf, n + 3)
    ensures Parsed(buf) == SplitServer(buf, n)
  {
    hide ParseUrlChar, IsServerChar, IsTail, TailFields, Serves, ServerAt, ScanFrom, HostFrom, Merge, WithServer,
         Decimal;
    var a := n + 3;
    var b := Until(buf, a, |buf|, [SLASH, QUESTION]);
    if a == b {
      NoServer(buf, n);
    } else {
      ServerScanned(buf, n, b);
      if ServerAt(buf, a, b).Some? {
        ServerServes(buf, a, b);
      }
      var sc := ScanFrom(BEGIN, buf, 0);
      if !sc.state.Dead? {
        var fields := map[Schema := Between(0, n), Host := Between(a, b)];
        TailKeeps(fields, buf, b);
        ServerFoundAt(buf, a, b);
        var h := HostFrom(HostBegin(a, sc.foundAt), buf, a, b);
        if ServerAt(buf, a, b).Some? {
          HostReplaced(n, a, b, buf, h, ServerAt(buf, a, b).value);
        }
      }
    }
  }

  /**
   * The parser takes every URL apart as it is split at its first marks, with the octets that each part
   * may have; and it accepts no other.
   */
  lemma SplitsExactly(buf: bytes)
    ensures Parsed(buf) == SplitUrl(buf)
  {
    hide ParseUrlChar, IsTail, TailFields, SplitServer;
    if buf != [] {
      if buf[0] == SLASH || buf[0] == STAR {
        MarkMoves(buf[0]);
        TailScan(BEGIN, buf, 0);
        NoServerInTail(buf);
      } else {
        var n := AlphaEnd(buf, 0);
        SchemaSplit(buf, n);
        if n > 0 && n + 3 <= |buf| && buf[n..n + 3] == [COLON, SLASH, SLASH] {
          ServerUrl(buf, n);
        }
      }
    }
  }

  lemma NoServerInTail(buf: bytes)
    ensures Host !in TailFields(map[], buf, 0) && Schema !in TailFields(map[], buf, 0)
  {}
}
