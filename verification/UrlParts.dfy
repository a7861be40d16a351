// What the URL parser finds: of a URL that is written in parts, exactly these parts.

module UrlParts {
  import opened Octets
  import opened Options
  import opened Url

  /** A host is a name, or an address in brackets, perhaps with a zone from some place on. */
  datatype HostKind = Name | Address(zone: Option<nat>)

  /** Where the parts of a server URL end, up to the server; optional parts may be missing. */
  datatype Places = Places(schema: nat, user: Option<nat>, kind: HostKind, host: nat, port: Option<nat>) {
    function Server(): nat {
      schema + 3
    }

    function HostBegin(): nat {
      if user.Some? then user.value + 1 else Server()
    }

    function ServerEnd(): nat {
      if port.Some? then port.value else host
    }
  }

  /** Where a path begins and ends, and the query and the fragment behind it. */
  datatype Rest = Rest(begin: nat, path: nat, query: Option<nat>, fragment: Option<nat>) {
    function QueryEnd(): nat {
      if query.Some? then query.value else path
    }

    function End(): nat {
      if fragment.Some? then fragment.value else QueryEnd()
    }
  }

  predicate Within(buf: bytes, lo: nat, hi: nat, ok: byte -> bool) {
    lo <= hi <= |buf| && forall i :: lo <= i < hi ==> ok(buf[i])
  }

  predicate IsQueryChar(ch: byte) {
    IsUrlChar(ch) || ch == QUESTION
  }

  predicate IsFragmentChar(ch: byte) {
    IsUrlChar(ch) || ch == QUESTION || ch == HASH
  }

  predicate IsAddressChar(ch: byte) {
    IsHex(ch) || ch == COLON || ch == DOT
  }

  /** The text of a host. */
  predicate IsHostText(buf: bytes, lo: nat, hi: nat, kind: HostKind) {
    match kind
    case Name => lo < hi && Within(buf, lo, hi, (ch: byte) => IsHostChar(ch))
    case Address(zone) =>
      var end := if zone.Some? then zone.value else hi - 1;
      && lo + 1 < end < hi <= |buf| && buf[lo] == OPENING && buf[hi - 1] == CLOSING
      && Within(buf, lo + 1, end, (ch: byte) => IsAddressChar(ch))
      && (zone.Some? ==>
            && end + 1 < hi - 1 && buf[end] == PERCENT && Within(buf, end + 1, hi - 1, (ch: byte) => IsZoneChar(ch)))
  }

  /** The part of it that is the host, without brackets. */
  function HostSpan(lo: nat, hi: nat, kind: HostKind): Span
    requires lo <= hi && (kind.Address? ==> lo + 2 <= hi)
  {
    if kind.Name? then Between(lo, hi) else Between(lo + 1, hi - 1)
  }

  /** A name, two slashes, a server, and what may follow. */
  predicate IsServerUrl(buf: bytes, at: Places) {
    && 0 < at.schema && Within(buf, 0, at.schema, (ch: byte) => IsAlpha(ch))
    && at.Server() < |buf| && buf[at.schema] == COLON && buf[at.schema + 1] == SLASH && buf[at.schema + 2] == SLASH
    && (at.user.Some? ==>
          && at.Server() < at.user.value < |buf| && buf[at.user.value] == AT
          && Within(buf, at.Server(), at.user.value, (ch: byte) => IsUserInfoChar(ch)))
    && IsHostText(buf, at.HostBegin(), at.host, at.kind)
    && (at.port.Some? ==>
          && at.host + 1 < at.port.value && Within(buf, at.host + 1, at.port.value, (ch: byte) => IsNum(ch))
          && buf[at.host] == COLON)
  }

  predicate IsRest(buf: bytes, at: Rest) {
    && at.begin <= at.path && Within(buf, at.begin, at.path, (ch: byte) => IsUrlChar(ch))
    && (at.begin < at.path ==> buf[at.begin] == SLASH)
    && (at.query.Some? ==>
          && at.path + 1 < at.query.value && Within(buf, at.path + 1, at.query.value, (ch: byte) => IsQueryChar(ch))
          && buf[at.path] == QUESTION)
    && (at.fragment.Some? ==>
          && at.begin < at.QueryEnd() && at.QueryEnd() + 1 < at.fragment.value
          && Within(buf, at.QueryEnd() + 1, at.fragment.value, (ch: byte) => IsFragmentChar(ch))
          && buf[at.QueryEnd()] == HASH && buf[at.QueryEnd() + 1] != HASH)
    && at.End() == |buf|
  }

  function Between(lo: nat, hi: nat): Span
    requires lo <= hi
  {
    Span(lo, hi - lo)
  }

  // ---- The first automaton ----

  lemma {:induction false} Along(sc: Scan, buf: bytes, p: nat, q: nat, f: Field)
    requires p <= q <= |buf| && sc.current == Some(f) && f in sc.fields && FieldOf(sc.state) == Some(f)
    requires !sc.state.ServerWithAt?
    requires forall i :: p <= i < q ==> ParseUrlChar(sc.state, buf[i]) == sc.state
    ensures var s := Span(sc.fields[f].off, sc.fields[f].len + (q - p));
            ScanFrom(sc, buf, p) == ScanFrom(sc.(fields := sc.fields[f := s]), buf, q)
    decreases q - p
  {
    hide ParseUrlChar;
    var goal := sc.fields[f := Span(sc.fields[f].off, sc.fields[f].len + (q - p))];
    if p < q {
      var next := Step(sc, buf[p], p);
      Along(next, buf, p + 1, q, f);
      assert next.fields[f := Span(next.fields[f].off, next.fields[f].len + (q - (p + 1)))] == goal;
    } else {
      assert Span(sc.fields[f].off, sc.fields[f].len + 0) == sc.fields[f];
      assert goal == sc.fields;
    }
  }

  /** A part that begins at `p` and goes on to `q`. */
  lemma PartAlong(sc: Scan, buf: bytes, p: nat, q: nat, f: Field, s: UrlState)
    requires p < q <= |buf| && !sc.state.Dead? && sc.current != Some(f) && FieldOf(s) == Some(f) && !s.ServerWithAt?
    requires ParseUrlChar(sc.state, buf[p]) == s && forall i :: p < i < q ==> ParseUrlChar(s, buf[i]) == s
    ensures ScanFrom(sc, buf, p) == ScanFrom(Scan(s, sc.fields[f := Between(p, q)], Some(f), sc.foundAt), buf, q)
  {
    hide ParseUrlChar;
    var next := Step(sc, buf[p], p);
    Along(next, buf, p + 1, q, f);
    assert next.fields[f := Between(p, q)] == sc.fields[f := Between(p, q)];
  }

  lemma Delimiter(sc: Scan, buf: bytes, p: nat, s: UrlState)
    requires p < |buf| && !sc.state.Dead? && ParseUrlChar(sc.state, buf[p]) == s && FieldOf(s).None?
    ensures ScanFrom(sc, buf, p) == ScanFrom(sc.(state := s), buf, p + 1)
  {
    hide ParseUrlChar;
  }

  lemma SchemaFound(buf: bytes, at: Places)
    requires IsServerUrl(buf, at)
    ensures ScanFrom(BEGIN, buf, 0)
         == ScanFrom(Scan(ServerStart, map[Schema := Between(0, at.schema)], Some(Schema), false), buf, at.Server())
  {
    hide ScanFrom;
    PartAlong(BEGIN, buf, 0, at.schema, Schema, InSchema);
    var fields := map[Schema := Between(0, at.schema)];
    assert map[][Schema := Between(0, at.schema)] == fields;
    var sc := Scan(InSchema, fields, Some(Schema), false);
    Delimiter(sc, buf, at.schema, SchemaSlash);
    Delimiter(sc.(state := SchemaSlash), buf, at.schema + 1, SchemaSlashSlash);
    Delimiter(sc.(state := SchemaSlashSlash), buf, at.schema + 2, ServerStart);
  }

  lemma ServerChar(s: UrlState, ch: byte)
    requires IsServerChar(ch) && (s == ServerStart || s == Url.Server || s == ServerWithAt)
    ensures ParseUrlChar(s, ch) == Url.Server
  {}

  predicate IsServerChar(ch: byte) {
    IsUserInfoChar(ch) || ch == OPENING || ch == CLOSING
  }

  lemma HostCharsServe(ch: byte)
    ensures IsHostChar(ch) || IsAddressChar(ch) || IsZoneChar(ch) || IsNum(ch) || ch == COLON || ch == PERCENT ==>
              IsServerChar(ch)
  {}

  lemma HostTextServes(buf: bytes, lo: nat, hi: nat, kind: HostKind, i: nat)
    requires IsHostText(buf, lo, hi, kind) && lo <= i < hi
    ensures IsServerChar(buf[i])
  {
    hide IsUserInfoChar, IsHostChar, IsAddressChar, IsZoneChar, IsNum;
    HostCharsServe(buf[i]);
  }

  lemma ServerChars(buf: bytes, at: Places)
    requires IsServerUrl(buf, at)
    ensures forall i, s ::
              at.HostBegin() <= i < at.ServerEnd() && (s == ServerStart || s == Url.Server || s == ServerWithAt) ==>
              ParseUrlChar(s, buf[i]) == Url.Server
    ensures at.user.Some? ==>
              forall i, s :: at.Server() <= i < at.user.value && (s == ServerStart || s == Url.Server)
                ==> ParseUrlChar(s, buf[i]) == Url.Server
  {
    hide ParseUrlChar, IsUserInfoChar, IsNum, IsServerChar;
    forall i, s | at.HostBegin() <= i < at.ServerEnd() && (s == ServerStart || s == Url.Server || s == ServerWithAt)
      ensures ParseUrlChar(s, buf[i]) == Url.Server
    {
      if i < at.host {
        HostTextServes(buf, at.HostBegin(), at.host, at.kind, i);
      } else {
        HostCharsServe(buf[i]);
      }
      ServerChar(s, buf[i]);
    }
    if at.user.Some? {
      forall i, s | at.Server() <= i < at.user.value && (s == ServerStart || s == Url.Server)
        ensures ParseUrlChar(s, buf[i]) == Url.Server
      {
        UserServes(buf[i]);
        ServerChar(s, buf[i]);
      }
    }
  }

  lemma UserServes(ch: byte)
    ensures IsUserInfoChar(ch) ==> IsServerChar(ch)
  {
    hide IsUserInfoChar;
  }

  lemma ServerFound(buf: bytes, at: Places, fields: Fields)
    requires IsServerUrl(buf, at) && Host !in fields
    ensures ScanFrom(Scan(ServerStart, fields, Some(Schema), false), buf, at.Server())
         == ScanFrom(Scan(Url.Server, fields[Host := Between(at.Server(), at.ServerEnd())], Some(Host),
           at.user.Some?), buf, at.ServerEnd())
  {
    hide ScanFrom, ParseUrlChar;
    ServerChars(buf, at);
    var start := Scan(ServerStart, fields, Some(Schema), false);
    if at.user.Some? {
      var u := at.user.value;
      PartAlong(start, buf, at.Server(), u, Host, Url.Server);
      var sc := Scan(Url.Server, fields[Host := Between(at.Server(), u)], Some(Host), false);
      AtSign(sc, buf, u);
      var sc' := Scan(Url.Server, fields[Host := Between(at.Server(), u + 2)], Some(Host), true);
      assert sc.fields[Host := Between(at.Server(), u + 2)] == sc'.fields;
      Along(sc', buf, u + 2, at.ServerEnd(), Host);
      assert sc'.fields[Host := Between(at.Server(), at.ServerEnd())]
        == fields[Host := Between(at.Server(), at.ServerEnd())];
    } else {
      PartAlong(start, buf, at.Server(), at.ServerEnd(), Host, Url.Server);
    }
  }

  /** The sign behind the user information, and the first octet of the host. */
  lemma AtSign(sc: Scan, buf: bytes, u: nat)
    requires u + 1 < |buf| && sc.state.Server? && sc.current == Some(Host) && Host in sc.fields
    requires sc.fields[Host].End() == u
    requires buf[u] == AT && ParseUrlChar(ServerWithAt, buf[u + 1]) == Url.Server
    ensures ScanFrom(sc, buf, u)
         == ScanFrom(Scan(Url.Server, sc.fields[Host := Between(sc.fields[Host].off, u + 2)], Some(Host), true), buf,
           u + 2)
  {
    var one := Step(sc, buf[u], u);
    assert ParseUrlChar(sc.state, AT) == ServerWithAt;
    assert one == Scan(ServerWithAt, sc.fields[Host := Between(sc.fields[Host].off, u + 1)], Some(Host), true);
    hide ParseUrlChar;
    var two := Step(one, buf[u + 1], u + 1);
    assert two.fields == sc.fields[Host := Between(sc.fields[Host].off, u + 2)];
  }

  function RestFields(fields: Fields, at: Rest): Fields
    requires at.begin <= at.path && (at.query.Some? ==> at.path + 1 <= at.query.value)
    requires at.fragment.Some? ==> at.QueryEnd() + 1 <= at.fragment.value
  {
    var a := if at.begin < at.path then fields[Path := Between(at.begin, at.path)] else fields;
    var b := if at.query.Some? then a[Query := Between(at.path + 1, at.query.value)] else a;
    if at.fragment.Some? then b[Fragment := Between(at.QueryEnd() + 1, at.fragment.value)] else b
  }

  lemma InTurnRest(buf: bytes, at: Rest)
    requires IsRest(buf, at)
    ensures at.begin <= at.path && (at.query.Some? ==> at.path + 1 < at.query.value)
    ensures at.fragment.Some? ==> at.QueryEnd() + 1 < at.fragment.value && at.begin < at.QueryEnd()
    ensures at.End() == |buf|
  {
    hide IsUrlChar, IsQueryChar, IsFragmentChar;
  }

  /** Behind a server, or from the front on if there is a path. */
  lemma RestFound(buf: bytes, at: Rest, s: UrlState, fields: Fields, current: Option<Field>, found: bool)
    requires IsRest(buf, at) && (s.Server? || (s.SpacesBeforeUrl? && at.begin < at.path))
    requires current == Some(Host) || current == None
    ensures var r := ScanFrom(Scan(s, fields, current, found), buf, at.begin);
            !r.state.Dead? && r.fields == RestFields(fields, at) && r.foundAt == found
  {
    hide ScanFrom, ParseUrlChar, IsRest, IsUrlChar, IsQueryChar, IsFragmentChar;
    InTurnRest(buf, at);
    var sc := Scan(s, fields, current, found);
    if at.begin < at.path {
      PathChars(buf, at);
      PartAlong(sc, buf, at.begin, at.path, Path, InPath);
      sc := Scan(InPath, sc.fields[Path := Between(at.begin, at.path)], Some(Path), found);
    }
    if at.query.Some? {
      QueryChars(buf, at);
      Delimiter(sc, buf, at.path, QueryStart);
      sc := sc.(state := QueryStart);
      PartAlong(sc, buf, at.path + 1, at.query.value, Query, InQuery);
      sc := Scan(InQuery, sc.fields[Query := Between(at.path + 1, at.query.value)], Some(Query), found);
    }
    if at.fragment.Some? {
      FragmentChars(buf, at);
      Delimiter(sc, buf, at.QueryEnd(), FragmentStart);
      sc := sc.(state := FragmentStart);
      PartAlong(sc, buf, at.QueryEnd() + 1, at.fragment.value, Fragment, InFragment);
      sc := Scan(InFragment, sc.fields[Fragment := Between(at.QueryEnd() + 1, at.fragment.value)], Some(Fragment),
        found);
    }
    AtEnd(sc, buf);
  }

  lemma AtEnd(sc: Scan, buf: bytes)
    ensures ScanFrom(sc, buf, |buf|) == sc
  {}

  lemma PathChars(buf: bytes, at: Rest)
    requires IsRest(buf, at) && at.begin < at.path
    ensures ParseUrlChar(Url.Server, buf[at.begin]) == InPath && ParseUrlChar(SpacesBeforeUrl, buf[at.begin]) == InPath
    ensures forall i :: at.begin < i < at.path ==> ParseUrlChar(InPath, buf[i]) == InPath
  {}

  lemma QueryChars(buf: bytes, at: Rest)
    requires IsRest(buf, at) && at.query.Some?
    ensures ParseUrlChar(Url.Server, buf[at.path]) == QueryStart && ParseUrlChar(InPath, buf[at.path]) == QueryStart
    ensures ParseUrlChar(QueryStart, buf[at.path + 1]) == InQuery
    ensures forall i :: at.path + 1 < i < at.query.value ==> ParseUrlChar(InQuery, buf[i]) == InQuery
  {}

  lemma FragmentChars(buf: bytes, at: Rest)
    requires IsRest(buf, at) && at.fragment.Some?
    ensures ParseUrlChar(InPath, buf[at.QueryEnd()]) == FragmentStart
    ensures ParseUrlChar(InQuery, buf[at.QueryEnd()]) == FragmentStart
    ensures ParseUrlChar(FragmentStart, buf[at.QueryEnd() + 1]) == InFragment
    ensures forall i :: at.QueryEnd() + 1 < i < at.fragment.value ==> ParseUrlChar(InFragment, buf[i]) == InFragment
  {}

  // ---- The second automaton ----

  lemma {:induction false} HostAlong(h: HostScan, buf: bytes, p: nat, q: nat, end: nat)
    requires p <= q <= end <= |buf| && h.state.InHost? && Within(buf, p, q, (ch: byte) => IsHostChar(ch))
    ensures HostFrom(h, buf, p, end) == HostFrom(h.(host := Span(h.host.off, h.host.len + (q - p))), buf, q, end)
    decreases q - p
  {
    if p < q {
      HostAlong(HostStep(h, buf[p], p), buf, p + 1, q, end);
    }
  }

  lemma {:induction false} PortAlong(h: HostScan, buf: bytes, p: nat, q: nat, end: nat)
    requires p <= q <= end <= |buf| && h.state.InPort? && h.port.Some? && Within(buf, p, q, (ch: byte) => IsNum(ch))
    ensures var s := Span(h.port.value.off, h.port.value.len + (q - p));
            HostFrom(h, buf, p, end) == HostFrom(h.(port := Some(s)), buf, q, end)
    decreases q - p
  {
    if p < q {
      PortAlong(HostStep(h, buf[p], p), buf, p + 1, q, end);
    }
  }

  lemma {:induction false} UserAlong(h: HostScan, buf: bytes, p: nat, q: nat, end: nat)
    requires p <= q <= end <= |buf| && h.state.InUserInfo? && h.userInfo.Some?
    requires Within(buf, p, q, (ch: byte) => IsUserInfoChar(ch))
    ensures var s := Span(h.userInfo.value.off, h.userInfo.value.len + (q - p));
            HostFrom(h, buf, p, end) == HostFrom(h.(userInfo := Some(s)), buf, q, end)
    decreases q - p
  {
    hide IsUserInfoChar;
    if p < q {
      UserNotAt(buf[p]);
      UserAlong(HostStep(h, buf[p], p), buf, p + 1, q, end);
    }
  }

  lemma UserNotAt(ch: byte)
    requires IsUserInfoChar(ch)
    ensures ch != AT
  {}

  lemma HostNext(h: HostScan, buf: bytes, p: nat, end: nat)
    requires p < end <= |buf| && !h.state.HostDead?
    ensures HostFrom(h, buf, p, end) == HostFrom(HostStep(h, buf[p], p), buf, p + 1, end)
  {}

  /** The places follow one another. */
  predicate InTurn(at: Places) {
    && at.HostBegin() <= at.host && (at.port.Some? ==> at.host + 1 <= at.port.value)
    && (at.user.Some? ==> at.Server() <= at.user.value) && (at.kind.Address? ==> at.HostBegin() + 2 <= at.host)
  }

  function ServerScan(at: Places): HostScan
    requires InTurn(at)
  {
    HostScan(if at.port.Some? then InPort else if at.kind.Name? then InHost else V6End,
             HostSpan(at.HostBegin(), at.host, at.kind),
             if at.port.Some? then Some(Between(at.host + 1, at.port.value)) else None,
             if at.user.Some? then Some(Between(at.Server(), at.user.value)) else None)
  }

  lemma ServerParsed(buf: bytes, at: Places)
    requires IsServerUrl(buf, at)
    ensures HostFrom(Url.HostBegin(at.Server(), at.user.Some?), buf, at.Server(), at.ServerEnd()) == ServerScan(at)
  {
    hide HostFrom, IsUserInfoChar, IsHostChar;
    var h := Url.HostBegin(at.Server(), at.user.Some?);
    var end := at.ServerEnd();
    if at.user.Some? {
      UserParsed(buf, at);
      h := HostScan(HostStart, Span(at.Server(), 0), None, Some(Between(at.Server(), at.user.value)));
    }
    HostParsed(h, buf, at);
  }

  lemma UserParsed(buf: bytes, at: Places)
    requires IsServerUrl(buf, at) && at.user.Some?
    ensures HostFrom(Url.HostBegin(at.Server(), true), buf, at.Server(), at.ServerEnd())
         == HostFrom(HostScan(HostStart, Span(at.Server(), 0), None, Some(Between(at.Server(), at.user.value))), buf,
           at.HostBegin(), at.ServerEnd())
  {
    hide HostFrom, IsUserInfoChar;
    var h, u, end := Url.HostBegin(at.Server(), true), at.user.value, at.ServerEnd();
    HostNext(h, buf, at.Server(), end);
    UserNotAt(buf[at.Server()]);
    var one := HostStep(h, buf[at.Server()], at.Server());
    assert one == HostScan(InUserInfo, Span(at.Server(), 0), None, Some(Span(at.Server(), 1)));
    UserAlong(one, buf, at.Server() + 1, u, end);
    HostNext(one.(userInfo := Some(Between(at.Server(), u))), buf, u, end);
  }

  lemma HostParsed(h: HostScan, buf: bytes, at: Places)
    requires IsServerUrl(buf, at) && h.state.HostStart? && h.host.len == 0 && h.port.None?
    ensures HostFrom(h, buf, at.HostBegin(), at.ServerEnd())
         == ServerScan(at).(userInfo := h.userInfo)
  {
    hide HostFrom, IsHostChar;
    var b, end := at.HostBegin(), at.ServerEnd();
    var two := h.(state := if at.kind.Name? then InHost else V6End, host := HostSpan(b, at.host, at.kind));
    if at.kind.Name? {
      NameParsed(h, buf, b, at.host, end);
    } else {
      AddressParsed(h, buf, b, at.host, at.kind.zone, end);
    }
    if at.port.Some? {
      HostNext(two, buf, at.host, end);
      NotOpening(COLON);
      var three := two.(state := PortStart);
      HostNext(three, buf, at.host + 1, end);
      var four := three.(state := InPort, port := Some(Span(at.host + 1, 1)));
      PortAlong(four, buf, at.host + 2, end, end);
      HostEnd(four.(port := Some(Between(at.host + 1, end))), buf, end);
    } else {
      HostEnd(two, buf, end);
    }
  }

  lemma NameParsed(h: HostScan, buf: bytes, lo: nat, hi: nat, end: nat)
    requires IsHostText(buf, lo, hi, Name) && hi <= end <= |buf| && h.state.HostStart? && h.host.len == 0
    ensures HostFrom(h, buf, lo, end) == HostFrom(h.(state := InHost, host := Between(lo, hi)), buf, hi, end)
  {
    hide HostFrom, IsHostChar;
    HostNext(h, buf, lo, end);
    NotOpening(buf[lo]);
    var one := h.(state := InHost, host := Span(lo, 1));
    assert HostStep(h, buf[lo], lo) == one;
    HostAlong(one, buf, lo + 1, hi, end);
  }

  lemma {:induction false} AddressAlong(h: HostScan, buf: bytes, p: nat, q: nat, end: nat)
    requires p <= q <= end <= |buf| && h.state.InV6? && Within(buf, p, q, (ch: byte) => IsAddressChar(ch))
    ensures HostFrom(h, buf, p, end) == HostFrom(h.(host := Span(h.host.off, h.host.len + (q - p))), buf, q, end)
    decreases q - p
  {
    if p < q {
      AddressNotClosing(buf[p]);
      AddressAlong(HostStep(h, buf[p], p), buf, p + 1, q, end);
    }
  }

  lemma {:induction false} ZoneAlong(h: HostScan, buf: bytes, p: nat, q: nat, end: nat)
    requires p <= q <= end <= |buf| && h.state.InZone? && Within(buf, p, q, (ch: byte) => IsZoneChar(ch))
    ensures HostFrom(h, buf, p, end) == HostFrom(h.(host := Span(h.host.off, h.host.len + (q - p))), buf, q, end)
    decreases q - p
  {
    if p < q {
      AddressNotClosing(buf[p]);
      ZoneAlong(HostStep(h, buf[p], p), buf, p + 1, q, end);
    }
  }

  lemma AddressNotClosing(ch: byte)
    ensures IsAddressChar(ch) || IsZoneChar(ch) ==> ch != CLOSING
    ensures IsAddressChar(ch) ==> ch != PERCENT
  {}

  lemma AddressParsed(h: HostScan, buf: bytes, lo: nat, hi: nat, zone: Option<nat>, end: nat)
    requires IsHostText(buf, lo, hi, Address(zone)) && hi <= end <= |buf| && h.state.HostStart? && h.host.len == 0
    ensures HostFrom(h, buf, lo, end) == HostFrom(h.(state := V6End, host := Between(lo + 1, hi - 1)), buf, hi, end)
  {
    hide HostFrom, IsHostChar, IsAddressChar, IsZoneChar;
    var z := if zone.Some? then zone.value else hi - 1;
    HostNext(h, buf, lo, end);
    var one := h.(state := V6Start);
    assert HostStep(h, buf[lo], lo) == one;
    HostNext(one, buf, lo + 1, end);
    AddressStarts(one, buf[lo + 1], lo + 1);
    AddressAlong(one.(state := InV6, host := Span(lo + 1, 1)), buf, lo + 2, z, end);
    var two := one.(state := InV6, host := Between(lo + 1, z));
    HostNext(two, buf, z, end);
    if zone.Some? {
      ZoneStarts(two, z);
      var three := two.(state := ZoneStart, host := Between(lo + 1, z + 1));
      HostNext(three, buf, z + 1, end);
      ZoneGoes(three, buf[z + 1], z + 1);
      var four := two.(state := InZone, host := Between(lo + 1, z + 2));
      ZoneAlong(four, buf, z + 2, hi - 1, end);
      HostNext(four.(host := Between(lo + 1, hi - 1)), buf, hi - 1, end);
    }
  }

  lemma AddressStarts(h: HostScan, ch: byte, p: nat)
    requires h.state.V6Start? && h.host.len == 0 && IsAddressChar(ch)
    ensures HostStep(h, ch, p) == h.(state := InV6, host := Span(p, 1))
  {}

  lemma ZoneStarts(h: HostScan, p: nat)
    requires h.state.InV6?
    ensures HostStep(h, PERCENT, p) == h.(state := ZoneStart, host := Longer(h.host))
  {
    assert !IsAddressChar(PERCENT);
  }

  lemma ZoneGoes(h: HostScan, ch: byte, p: nat)
    requires h.state.ZoneStart? && IsZoneChar(ch)
    ensures HostStep(h, ch, p) == h.(state := InZone, host := Longer(h.host))
  {
    hide IsZoneChar;
  }

  lemma NotOpening(ch: byte)
    ensures IsHostChar(ch) ==> ch != OPENING && ch != COLON
  {}

  lemma HostEnd(h: HostScan, buf: bytes, end: nat)
    requires end <= |buf|
    ensures HostFrom(h, buf, end, end) == h
  {}

  // ---- Both ----

  predicate RestInTurn(at: Rest) {
    && at.begin <= at.path && (at.query.Some? ==> at.path + 1 <= at.query.value)
    && (at.fragment.Some? ==> at.QueryEnd() + 1 <= at.fragment.value)
  }

  function FieldsOf(at: Places, rest: Rest): Fields
    requires InTurn(at) && RestInTurn(rest) && at.Server() <= at.ServerEnd()
  {
    Merge(RestFields(map[Schema := Between(0, at.schema), Host := Between(at.Server(), at.ServerEnd())], rest),
      ServerScan(at))
  }

  /** Where the fields are. */
  lemma FieldSpans(at: Places, rest: Rest)
    requires InTurn(at) && RestInTurn(rest) && at.Server() <= at.ServerEnd()
    ensures var f := FieldsOf(at, rest);
            && (Path in f <==> rest.begin < rest.path) && (Path in f ==> f[Path] == Between(rest.begin, rest.path))
            && (Query in f <==> rest.query.Some?)
            && (Query in f ==> f[Query] == Between(rest.path + 1, rest.query.value))
            && (Fragment in f <==> rest.fragment.Some?)
            && (Fragment in f ==> f[Fragment] == Between(rest.QueryEnd() + 1, rest.fragment.value))
            && Host in f && f[Host] == HostSpan(at.HostBegin(), at.host, at.kind)
            && (Port in f <==> at.port.Some?) && (Port in f ==> f[Port] == Between(at.host + 1, at.port.value))
  {
    hide HostSpan, Between;
  }

  /** What is written in parts is in turn. */
  lemma PlacesInTurn(buf: bytes, at: Places, rest: Rest)
    requires IsServerUrl(buf, at) && IsRest(buf, rest) && rest.begin == at.ServerEnd()
    ensures InTurn(at) && RestInTurn(rest) && at.Server() <= at.HostBegin() <= at.host <= at.ServerEnd() <= rest.path
    ensures rest.path <= rest.QueryEnd() <= rest.End() == |buf|
    ensures at.HostBegin() < at.host && (at.kind.Address? ==> at.HostBegin() + 2 < at.host)
    ensures at.port.Some? ==> at.host + 1 < at.port.value && buf[at.host] == COLON
  {
    hide IsUserInfoChar, IsHostChar, IsUrlChar, IsZoneChar, IsAddressChar, IsQueryChar, IsFragmentChar;
  }

  /**
   * Of a URL that is written in parts, with a name or an address in brackets for its host, the parser
   * finds exactly these parts. It is refused only for a port that is too large.
   */
  lemma PartsFound(buf: bytes, at: Places, rest: Rest)
    requires IsServerUrl(buf, at) && IsRest(buf, rest) && rest.begin == at.ServerEnd()
    ensures at.port.Some? ==> Digits(buf, Between(at.host + 1, at.port.value))
    ensures var port := if at.port.Some? then Decimal(buf, Between(at.host + 1, at.port.value)) else 0;
            Parsed(buf) == if port > MAX_PORT then None else Some((FieldsOf(at, rest), port))
  {
    hide ScanFrom, HostFrom, Merge, RestFields, Decimal, IsUserInfoChar, IsHostChar, IsUrlChar, IsZoneChar,
         IsAddressChar;
    SchemaFound(buf, at);
    var one := map[Schema := Between(0, at.schema)];
    ServerFound(buf, at, one);
    var two := one[Host := Between(at.Server(), at.ServerEnd())];
    assert two == map[Schema := Between(0, at.schema), Host := Between(at.Server(), at.ServerEnd())];
    RestFound(buf, rest, Url.Server, two, Some(Host), at.user.Some?);
    RestKeeps(two, rest);
    ServerParsed(buf, at);
  }

  lemma RestKeeps(fields: Fields, at: Rest)
    requires RestInTurn(at) && Host in fields && Schema in fields
    ensures Host in RestFields(fields, at) && RestFields(fields, at)[Host] == fields[Host]
    ensures Schema in RestFields(fields, at)
  {}

  /** Of a path alone, with a query and a fragment, these are found. */
  lemma PathFound(buf: bytes, rest: Rest)
    requires IsRest(buf, rest) && rest.begin == 0 < rest.path
    ensures Parsed(buf) == Some((RestFields(map[], rest), 0))
  {
    hide ScanFrom, HostFrom, Merge, IsUrlChar;
    RestFound(buf, rest, SpacesBeforeUrl, map[], None, false);
  }
}
