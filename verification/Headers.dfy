// The headers of the handshake response, kept in the receive buffer as strings ended by NUL.

module Headers {
  import opened Octets
  import opened Options
  import opened Streams

  datatype Header = Header(name: bytes, value: bytes)

  /** What the HTTP parser reports: pieces of a name, pieces of a value. */
  datatype Callback = Field(data: bytes) | Value(data: bytes)

  datatype HeaderState = Idle | InField | InValue

  predicate NulFree(s: bytes) {
    0 !in s
  }

  predicate Clean(h: Header) {
    NulFree(h.name) && NulFree(h.value)
  }

  function Flat(h: Header): bytes {
    h.name + [0] + h.value + [0]
  }

  function Flatten(hs: seq<Header>): bytes {
    if hs == [] then [] else Flat(hs[0]) + Flatten(hs[1..])
  }

  lemma {:induction false} FlattenSnoc(hs: seq<Header>, h: Header)
    ensures Flatten(hs + [h]) == Flatten(hs) + Flat(h)
  {
    if hs == [] {
      assert hs + [h] == [h];
      assert Flatten([h]) == Flat(h) + Flatten([]) == Flat(h);
    } else {
      assert (hs + [h])[1..] == hs[1..] + [h];
      FlattenSnoc(hs[1..], h);
      Associative(Flat(hs[0]), Flatten(hs[1..]), Flat(h));
    }
  }

  function ToLower(c: byte): byte {
    if 0x41 <= c <= 0x5a then c + 0x20 else c
  }

  predicate SameIgnoringCase(a: bytes, b: bytes) {
    |a| == |b| && forall i :: 0 <= i < |a| ==> ToLower(a[i]) == ToLower(b[i])
  }

  /** The value of the first header of that name. */
  function Lookup(hs: seq<Header>, name: bytes): Option<bytes> {
    if hs == [] then None
    else if SameIgnoringCase(hs[0].name, name) then Some(hs[0].value)
    else Lookup(hs[1..], name)
  }

  lemma {:induction false} LookupFirst(hs: seq<Header>, name: bytes)
    ensures Lookup(hs, name).None? <==> forall i :: 0 <= i < |hs| ==> !SameIgnoringCase(hs[i].name, name)
    ensures Lookup(hs, name).Some? ==>
              exists i :: 0 <= i < |hs| && SameIgnoringCase(hs[i].name, name) && Lookup(hs, name).value == hs[i].value
                && forall j :: 0 <= j < i ==> !SameIgnoringCase(hs[j].name, name)
  {
    if hs != [] && !SameIgnoringCase(hs[0].name, name) {
      LookupFirst(hs[1..], name);
      assert forall i :: 0 < i < |hs| ==> hs[i] == hs[1..][i - 1];
      if Lookup(hs, name).Some? {
        var i :| 0 <= i < |hs[1..]| && SameIgnoringCase(hs[1..][i].name, name)
          && Lookup(hs, name).value == hs[1..][i].value
                && forall j :: 0 <= j < i ==> !SameIgnoringCase(hs[1..][j].name, name);
        assert SameIgnoringCase(hs[i + 1].name, name);
      }
    }
  }

  // ---- Strings in memory ----

  /** The C string at the front of `s`: what precedes the first NUL. */
  function CString(s: bytes): (r: bytes)
    ensures |r| <= |s| && r == s[..|r|] && NulFree(r)
    ensures |r| < |s| ==> s[|r|] == 0
  {
    if s == [] || s[0] == 0 then [] else [s[0]] + CString(s[1..])
  }

  lemma {:induction false} CStringUnique(s: bytes, t: bytes)
    requires NulFree(s)
    ensures CString(s + [0] + t) == s
    ensures (s + [0] + t)[|s| + 1..] == t
  {
    var all := s + [0] + t;
    if s == [] {
      assert all[0] == 0;
    } else {
      assert all[0] == s[0] && s[0] in s;
      assert all[1..] == s[1..] + [0] + t;
      CStringUnique(s[1..], t);
    }
  }

  // ---- Headers as they arrive ----

  /** The header being spelled. */
  datatype Part = Nothing | Name(name: bytes) | Both(name: bytes, value: bytes)

  datatype Progress = Progress(done: seq<Header>, part: Part)

  /** A value may not come before any name. */
  predicate Accepts(p: Progress, c: Callback) {
    c.Value? ==> !p.part.Nothing?
  }

  /** A name piece after a value begins the next header; other pieces extend what is being spelled. */
  function Spell(p: Progress, c: Callback): Progress
    requires Accepts(p, c)
  {
    match (c, p.part)
    case (Field(d), Nothing) => p.(part := Name(d))
    case (Field(d), Name(n)) => p.(part := Name(n + d))
    case (Field(d), Both(n, v)) => Progress(p.done + [Header(n, v)], Name(d))
    case (Value(d), Name(n)) => p.(part := Both(n, d))
    case (Value(d), Both(n, v)) => p.(part := Both(n, v + d))
  }

  function Partial(part: Part): bytes {
    match part
    case Nothing => []
    case Name(n) => n
    case Both(n, v) => n + [0] + v
  }

  function Written(p: Progress): bytes {
    Flatten(p.done) + Partial(p.part)
  }

  function Completed(p: Progress): seq<Header> {
    p.done + if p.part.Both? then [Header(p.part.name, p.part.value)] else []
  }

  /** What a piece adds to the buffer. */
  function Added(p: Progress, c: Callback): bytes {
    (if (c.Field? && p.part.Both?) || (c.Value? && p.part.Name?) then [0] else []) + c.data
  }

  /** The same as the writes that are made of it. */
  function Pieces(p: Progress, c: Callback): seq<bytes> {
    (if (c.Field? && p.part.Both?) || (c.Value? && p.part.Name?) then [[0]] else []) + [c.data]
  }

  lemma WrittenAdds(p: Progress, c: Callback)
    requires Accepts(p, c)
    ensures Written(Spell(p, c)) == Written(p) + Added(p, c)
  {
    hide Flatten;
    var f := Flatten(p.done);
    match (c, p.part)
    case (Field(d), Nothing) => assert f + [] + d == f + d;
    case (Field(d), Name(n)) => Associative(f, n, d);
    case (Field(d), Both(n, v)) =>
      FlattenSnoc(p.done, Header(n, v));
      assert f + (n + [0] + v + [0]) + d == f + (n + [0] + v) + ([0] + d);
    case (Value(d), Name(n)) => assert f + (n + [0] + d) == f + n + ([0] + d);
    case (Value(d), Both(n, v)) => assert f + (n + [0] + (v + d)) == f + (n + [0] + v) + d;
  }

  function SpellAll(p: Progress, cs: seq<Callback>): Option<Progress>
    decreases |cs|
  {
    if cs == [] then Some(p)
    else if !Accepts(p, cs[0]) then None
    else SpellAll(Spell(p, cs[0]), cs[1..])
  }

  /** One header, its name and its value each cut into one or more pieces. */
  datatype Cut = Cut(names: seq<bytes>, values: seq<bytes>)

  predicate Proper(cuts: seq<Cut>) {
    forall c :: c in cuts ==> c.names != [] && c.values != []
  }

  function Whole(cuts: seq<Cut>): seq<Header> {
    if cuts == [] then [] else [Header(Concat(cuts[0].names), Concat(cuts[0].values))] + Whole(cuts[1..])
  }

  function Names(pieces: seq<bytes>): seq<Callback> {
    if pieces == [] then [] else [Field(pieces[0])] + Names(pieces[1..])
  }

  function Values(pieces: seq<bytes>): seq<Callback> {
    if pieces == [] then [] else [Value(pieces[0])] + Values(pieces[1..])
  }

  function Callbacks(cuts: seq<Cut>): seq<Callback> {
    if cuts == [] then [] else Names(cuts[0].names) + Values(cuts[0].values) + Callbacks(cuts[1..])
  }

  lemma {:induction false} SpellAllConcat(p: Progress, a: seq<Callback>, b: seq<Callback>)
    requires SpellAll(p, a).Some?
    ensures SpellAll(p, a + b) == SpellAll(SpellAll(p, a).value, b)
    decreases |a|
  {
    if a == [] {
      assert a + b == b;
    } else {
      assert (a + b)[1..] == a[1..] + b;
      SpellAllConcat(Spell(p, a[0]), a[1..], b);
    }
  }

  lemma {:induction false} NamePieces(done: seq<Header>, n: bytes, pieces: seq<bytes>)
    ensures SpellAll(Progress(done, Name(n)), Names(pieces)) == Some(Progress(done, Name(n + Concat(pieces))))
    decreases |pieces|
  {
    if pieces == [] {
      assert n + [] == n;
    } else {
      NamePieces(done, n + pieces[0], pieces[1..]);
      Associative(n, pieces[0], Concat(pieces[1..]));
    }
  }

  lemma {:induction false} ValuePieces(done: seq<Header>, n: bytes, v: bytes, pieces: seq<bytes>)
    ensures SpellAll(Progress(done, Both(n, v)), Values(pieces)) == Some(Progress(done, Both(n, v + Concat(pieces))))
    decreases |pieces|
  {
    if pieces == [] {
      assert v + [] == v;
    } else {
      ValuePieces(done, n, v + pieces[0], pieces[1..]);
      Associative(v, pieces[0], Concat(pieces[1..]));
    }
  }

  lemma SpellOne(p: Progress, c: Cut)
    requires c.names != [] && c.values != [] && !p.part.Name?
    ensures SpellAll(p, Names(c.names) + Values(c.values))
      == Some(Progress(Completed(p), Both(Concat(c.names), Concat(c.values))))
  {
    var done := Completed(p);
    assert Spell(p, Field(c.names[0])) == Progress(done, Name(c.names[0]));
    NamePieces(done, c.names[0], c.names[1..]);
    assert SpellAll(p, Names(c.names)) == Some(Progress(done, Name(Concat(c.names))));
    SpellAllConcat(p, Names(c.names), Values(c.values));
    ValuePieces(done, Concat(c.names), c.values[0], c.values[1..]);
  }

  /** However the headers are cut into pieces, the same headers are collected. */
  lemma {:induction false} CutsDoNotMatter(p: Progress, cuts: seq<Cut>)
    requires Proper(cuts) && !p.part.Name?
    ensures SpellAll(p, Callbacks(cuts)).Some? && !SpellAll(p, Callbacks(cuts)).value.part.Name?
    ensures Completed(SpellAll(p, Callbacks(cuts)).value) == Completed(p) + Whole(cuts)
    decreases |cuts|
  {
    if cuts == [] {
      assert Completed(p) + [] == Completed(p);
    } else {
      hide SpellAll, Completed;
      var c := cuts[0];
      SpellOne(p, c);
      var q := Progress(Completed(p), Both(Concat(c.names), Concat(c.values)));
      CutsDoNotMatter(q, cuts[1..]);
      SpellAllConcat(p, Names(c.names) + Values(c.values), Callbacks(cuts[1..]));
      CompletedBoth(Completed(p), Header(Concat(c.names), Concat(c.values)));
      Associative(Completed(p), [Header(Concat(c.names), Concat(c.values))], Whole(cuts[1..]));
    }
  }

  lemma CompletedBoth(done: seq<Header>, h: Header)
    ensures Completed(Progress(done, Both(h.name, h.value))) == done + [h]
  {}

  function StateOf(part: Part): HeaderState {
    match part
    case Nothing => Idle
    case Name(_) => InField
    case Both(_, _) => InValue
  }

  lemma CompletedWritten(p: Progress)
    requires !p.part.Name?
    ensures Flatten(Completed(p)) == Written(p) + if p.part.Both? then [0] else []
  {
    hide Flatten;
    if p.part.Both? {
      FlattenSnoc(p.done, Header(p.part.name, p.part.value));
      assert Flatten(p.done) + (p.part.name + [0] + p.part.value + [0]) == Written(p) + [0];
    } else {
      assert p.done + [] == p.done && Written(p) + [] == Flatten(p.done);
    }
  }

  // ---- What a buffer keeps ----

  /**
   * What a stream of `size` octets keeps of some writes: each whole or not at all, and none behind
   * the first that does not fit.
   */
  function Kept(size: nat, writes: seq<bytes>): (r: bytes)
    ensures |r| <= size
    decreases |writes|
  {
    if |Concat(writes)| <= size then Concat(writes) else Kept(size, writes[..|writes| - 1])
  }

  lemma {:induction false} ConcatSnoc(pieces: seq<bytes>, w: bytes)
    ensures Concat(pieces + [w]) == Concat(pieces) + w
  {
    if pieces == [] {
      assert pieces + [w] == [w] && [w][1..] == [];
      assert w + [] == [] + w;
    } else {
      assert (pieces + [w])[1..] == pieces[1..] + [w];
      ConcatSnoc(pieces[1..], w);
      Associative(pieces[0], Concat(pieces[1..]), w);
    }
  }

  lemma KeptSnoc(size: nat, writes: seq<bytes>, w: bytes)
    ensures Kept(size, writes + [w])
         == if |Concat(writes)| + |w| <= size then Concat(writes) + w else Kept(size, writes)
  {
    ConcatSnoc(writes, w);
    assert (writes + [w])[..|writes|] == writes;
  }

  /** Every header of which all octets can be held is kept whole. */
  ghost predicate WholeKept(hs: seq<Header>, size: nat, kept: bytes) {
    forall k :: 0 <= k <= |hs| && |Flatten(hs[..k])| <= size ==> Flatten(hs[..k]) <= kept
  }

  lemma WholeKeptGrows(hs: seq<Header>, size: nat, kept: bytes, more: bytes)
    requires WholeKept(hs, size, kept) && kept <= more
    ensures WholeKept(hs, size, more)
  {
    hide Flatten;
  }

  lemma WholeKeptSnoc(hs: seq<Header>, h: Header, size: nat, kept: bytes)
    requires WholeKept(hs, size, kept) && (|Flatten(hs + [h])| <= size ==> Flatten(hs + [h]) <= kept)
    ensures WholeKept(hs + [h], size, kept)
  {
    hide Flatten;
    forall k | 0 <= k <= |hs| + 1 && |Flatten((hs + [h])[..k])| <= size ensures Flatten((hs + [h])[..k]) <= kept {
      if k <= |hs| {
        assert (hs + [h])[..k] == hs[..k];
      } else {
        assert (hs + [h])[..k] == hs + [h];
      }
    }
  }

  lemma {:induction false} KeptPrefix(size: nat, writes: seq<bytes>)
    ensures Kept(size, writes) <= Concat(writes)
    ensures Kept(size, writes) == Concat(writes) <==> |Concat(writes)| <= size
    decreases |writes|
  {
    if |Concat(writes)| > size {
      var n := |writes| - 1;
      KeptPrefix(size, writes[..n]);
      assert writes == writes[..n] + [writes[n]];
      ConcatSnoc(writes[..n], writes[n]);
    }
  }

  /**
   * Memory begins with `n` octets of a head, in a buffer of `size` octets: with all of it if that
   * fits, and else with every header that can be held, and perhaps a part of the next.
   */
  ghost predicate KeptBy(hs: seq<Header>, size: nat, mem: bytes, n: nat) {
    && n <= |mem| && n <= size && mem[..n] <= Flatten(hs)
    && forall k :: 0 <= k <= |hs| && |Flatten(hs[..k])| <= size ==> |Flatten(hs[..k])| <= n
  }

  lemma Keeping(hs: seq<Header>, size: nat, mem: bytes, n: nat)
    requires n <= |mem| && n <= size && mem[..n] <= Flatten(hs) && WholeKept(hs, size, mem[..n])
    ensures KeptBy(hs, size, mem, n)
  {
    hide Flatten;
  }

  lemma NothingPending(p: Progress)
    requires p.part.Nothing?
    ensures Completed(p) == p.done && Written(p) + [] == Written(p)
  {
    hide Written;
  }

  lemma PiecesWritten(p: Progress, c: Callback, writes: seq<bytes>)
    requires Accepts(p, c) && Concat(writes) == Written(p)
    ensures Concat(writes + Pieces(p, c)) == Written(Spell(p, c))
  {
    hide Written, Spell;
    WrittenAdds(p, c);
    if |Pieces(p, c)| == 2 {
      ConcatSnoc(writes, [0]);
      ConcatSnoc(writes + [[0]], c.data);
      assert writes + [[0]] + [c.data] == writes + Pieces(p, c);
      Associative(Written(p), [0], c.data);
    } else {
      ConcatSnoc(writes, c.data);
      assert Pieces(p, c) == [c.data] && Added(p, c) == c.data;
    }
  }

  /** With the next name a header is complete. */
  lemma SpellDone(p: Progress, c: Callback)
    requires c.Field?
    ensures Spell(p, c).done == Completed(p)
  {
    var none: seq<Header> := [];
    assert p.done + none == p.done;
    match p.part
    case Both(n, v) => assert Completed(p) == p.done + [Header(n, v)];
    case _ => assert Completed(p) == p.done + none;
  }

  /** The string at a place in memory; all that is known of memory ends in NUL. */
  function StringAt(mem: bytes, at: nat): (r: bytes)
    ensures NulFree(r)
  {
    if at < |mem| then CString(mem[at..]) else []
  }

  /** The headers as memory holds them up to `end`: strings in pairs, however they came there. */
  function Stored(mem: bytes, at: nat, end: nat): seq<Header>
    decreases end - at
  {
    if at >= end then []
    else
      var value := at + |StringAt(mem, at)| + 1;
      var next := value + |StringAt(mem, value)| + 1;
      [Header(StringAt(mem, at), StringAt(mem, value))] + Stored(mem, next, end)
  }

  lemma {:induction false} CStringEnd(s: bytes, n: nat)
    requires n <= |CString(s)|
    ensures n < |s| && s[n] == 0 ==> n == |CString(s)|
    ensures n < |CString(s)| ==> CString(s)[n] == s[n] != 0
    decreases n
  {
    if n > 0 {
      CStringEnd(s[1..], n - 1);
    }
  }

  /** Where a string ends there is NUL, or nothing known. */
  lemma StringEnds(mem: bytes, at: nat, n: nat)
    requires n <= |StringAt(mem, at)|
    ensures var o := if at + n < |mem| then mem[at + n] else 0;
            && (o == 0 <==> n == |StringAt(mem, at)|)
            && (n < |StringAt(mem, at)| ==> o == StringAt(mem, at)[n])
  {
    if at < |mem| {
      CStringEnd(mem[at..], n);
    }
  }

  /** The header fields of an instance; the strings are in its receive stream. */
  class Store {
    const s: Stream
    const beyond: bytes
    var state: HeaderState
    var pos: nat
    ghost var progress: Progress
    ghost var writes: seq<bytes>

    /** The buffer holds what was spelled so far, or the front of it if that is too much for the buffer. */
    ghost predicate Valid()
      reads this, s, s.buf
    {
      && s.Valid() && state == StateOf(progress.part)
      && Concat(writes) == Written(progress)
      && Keeps()
      && WholeKept(progress.done, s.size, s.Contents())
    }

    /** What the buffer holds of the writes so far. */
    ghost predicate Keeps()
      requires s.Valid()
      reads this, s, s.buf
    {
      (s.error <==> |Concat(writes)| > s.size) && s.Contents() == Kept(s.size, writes)
    }

    /** A store in the stream `s`. Of what memory holds `beyond` the buffer nothing is assumed. */
    constructor (s: Stream, beyond: bytes)
      requires s.Valid() && !s.error && s.Contents() == []
      ensures Valid() && this.s == s && this.beyond == beyond && progress == Progress([], Nothing) && fresh(this)
    {
      this.s := s;
      this.beyond := beyond;
      state, pos := Idle, 0;
      progress, writes := Progress([], Nothing), [];
    }

    /** Writes to the buffer, which takes the octets or, once something did not fit, nothing more. */
    method Append(w: bytes)
      requires s.Valid() && Keeps()
      modifies `writes, s, s.buf
      ensures s.Valid() && Keeps() && writes == old(writes) + [w]
      ensures old(s.Contents()) <= s.Contents()
      ensures |Concat(writes)| <= s.size ==> s.Contents() == Concat(writes)
    {
      KeptSnoc(s.size, writes, w);
      ConcatSnoc(writes, w);
      var _ := s.Write(w);
      writes := writes + [w];
    }

    /** The NUL behind a value, with which its header is whole. */
    method EndValue()
      requires Valid() && state.InValue?
      modifies `writes, s, s.buf
      ensures s.Valid() && Keeps() && writes == old(writes) + [[0]]
      ensures Concat(writes) == Flatten(Completed(progress)) == Written(progress) + [0]
      ensures WholeKept(Completed(progress), s.size, s.Contents())
    {
      hide Flatten, Written, Kept, WholeKept;
      ghost var before := s.Contents();
      CompletedWritten(progress);
      ConcatSnoc(writes, [0]);
      Append([0]);
      WholeKeptGrows(progress.done, s.size, before, s.Contents());
      WholeKeptSnoc(progress.done, Header(progress.part.name, progress.part.value), s.size, s.Contents());
    }

    method OnHeaderField(at: bytes) returns (refused: bool)
      requires Valid()
      modifies this, s, s.buf
      ensures Valid() && !refused && progress == Spell(old(progress), Field(at))
      ensures writes == old(writes) + Pieces(old(progress), Field(at))
    {
      hide Written, Flatten, Kept, WholeKept, Concat;
      PiecesWritten(progress, Field(at), writes);
      SpellDone(progress, Field(at));
      if state.InValue? {
        EndValue();
      }
      ghost var before := s.Contents();
      Append(at);
      WholeKeptGrows(Spell(progress, Field(at)).done, s.size, before, s.Contents());
      state := InField;
      progress := Spell(progress, Field(at));
      assert writes == old(writes) + Pieces(old(progress), Field(at));
      refused := false;
    }

    method OnHeaderValue(at: bytes) returns (refused: bool)
      requires Valid()
      modifies this, s, s.buf
      ensures Valid() && refused == !Accepts(old(progress), Value(at))
      ensures progress == if refused then old(progress) else Spell(old(progress), Value(at))
      ensures writes == old(writes) + if refused then [] else Pieces(old(progress), Value(at))
    {
      hide Written, Flatten, Kept, WholeKept, Concat;
      if state.Idle? {
        return true;
      }
      PiecesWritten(progress, Value(at), writes);
      ghost var before := s.Contents();
      if state.InField? {
        Append([0]);
      }
      Append(at);
      WholeKeptGrows(progress.done, s.size, before, s.Contents());
      state := InValue;
      progress := Spell(progress, Value(at));
      assert writes == old(writes) + Pieces(old(progress), Value(at));
      refused := false;
    }

    /** What strings are read from: the buffer, and what lies behind it. */
    function Memory(): bytes
      reads s, s.buf
    {
      s.buf[..] + beyond
    }

    function OctetAt(i: nat): (o: byte)
      reads s, s.buf
      ensures o == if i < |Memory()| then Memory()[i] else 0
    {
      if i < s.buf.Length then s.buf[i] else if i - s.buf.Length < |beyond| then beyond[i - s.buf.Length] else 0
    }

    /** At the end of the head the last value is terminated. */
    method Finish()
      requires Valid() && !state.InField?
      modifies `writes, s, s.buf
      ensures s.Valid() && Keeps() && writes == old(writes) + if state.InValue? then [[0]] else []
      ensures Concat(writes) == Flatten(Completed(progress))
      ensures KeptBy(Completed(progress), s.size, Memory(), s.pos)
    {
      hide Flatten, Written, WholeKept, Kept, Concat, Completed;
      if state.InValue? {
        EndValue();
      } else {
        CompletedWritten(progress);
        NothingPending(progress);
      }
      assert Memory()[..s.pos] == s.Contents();
      KeptPrefix(s.size, writes);
      Keeping(Completed(progress), s.size, Memory(), s.pos);
    }

    /** The headers as they are read back. */
    ghost function Strings(): seq<Header>
      reads s, s.buf
    {
      Stored(Memory(), 0, s.pos)
    }

    method StrLen(at: nat) returns (n: nat)
      ensures n == |StringAt(Memory(), at)|
    {
      n := 0;
      StringEnds(Memory(), at, n);
      while OctetAt(at + n) != 0
        invariant n <= |StringAt(Memory(), at)|
        invariant OctetAt(at + n) == 0 <==> n == |StringAt(Memory(), at)|
        decreases |StringAt(Memory(), at)| - n
      {
        n := n + 1;
        StringEnds(Memory(), at, n);
      }
    }

    /** A stored string. */
    method Read(at: nat) returns (x: bytes)
      ensures x == StringAt(Memory(), at)
    {
      x := [];
      StringEnds(Memory(), at, 0);
      while OctetAt(at + |x|) != 0
        invariant |x| <= |StringAt(Memory(), at)| && x == StringAt(Memory(), at)[..|x|]
        invariant OctetAt(at + |x|) == 0 <==> |x| == |StringAt(Memory(), at)|
        decreases |StringAt(Memory(), at)| - |x|
      {
        StringEnds(Memory(), at, |x|);
        Around(StringAt(Memory(), at), |x|);
        x := x + [OctetAt(at + |x|)];
        StringEnds(Memory(), at, |x|);
      }
    }

    /** Compares a stored string with a name, letters without case. */
    method StrEqual(at: nat, name: bytes) returns (same: bool)
      requires NulFree(name)
      ensures same == SameIgnoringCase(StringAt(Memory(), at), name)
    {
      ghost var x := StringAt(Memory(), at);
      var i := 0;
      while true
        invariant i <= |x| && i <= |name|
        invariant forall k :: 0 <= k < i ==> ToLower(x[k]) == ToLower(name[k])
        decreases |x| - i
      {
        StringEnds(Memory(), at, i);
        var c, d := OctetAt(at + i), if i < |name| then name[i] else 0;
        assert i < |name| ==> name[i] in name;
        if ToLower(c) != ToLower(d) {
          return false;
        }
        if c == 0 {
          return true;
        }
        i := i + 1;
      }
    }

    /** Where the value of the first header of that name is, if there is one. */
    method Get(name: bytes) returns (r: Option<nat>)
      requires NulFree(name)
      ensures r.Some? <==> Lookup(Strings(), name).Some?
      ensures r.Some? ==> StringAt(Memory(), r.value) == Lookup(Strings(), name).value
    {
      hide SameIgnoringCase, StringAt;
      var at := 0;
      r := None;
      while at < s.pos
        invariant Lookup(Strings(), name) == Lookup(Stored(Memory(), at, s.pos), name)
        decreases s.pos - at
      {
        StoredFirst(Memory(), at, s.pos, name);
        var same := StrEqual(at, name);
        var n := StrLen(at);
        at := at + n;
        at := at + 1;
        if same {
          return Some(at);
        }
        n := StrLen(at);
        at := at + n;
        at := at + 1;
      }
    }

    method RewindNext()
      modifies `pos
      ensures pos == 0
    {
      pos := 0;
    }

    /** The next header in order, as the places of its name and value. */
    method GetNext() returns (r: Option<(nat, nat)>)
      modifies `pos
      ensures var ahead := Stored(Memory(), old(pos), s.pos);
              && (r.None? <==> ahead == [])
              && Stored(Memory(), pos, s.pos) == (if r.None? then [] else ahead[1..])
              && (r.Some? ==> Header(StringAt(Memory(), r.value.0), StringAt(Memory(), r.value.1)) == ahead[0])
    {
      hide StringAt;
      r := None;
      if pos < s.pos {
        var name := pos;
        var n := StrLen(pos);
        pos := pos + n;
        pos := pos + 1;
        var value := pos;
        n := StrLen(pos);
        pos := pos + n;
        pos := pos + 1;
        r := Some((name, value));
      }
    }
  }

  lemma StoredFirst(mem: bytes, at: nat, end: nat, name: bytes)
    requires at < end
    ensures var value := at + |StringAt(mem, at)| + 1;
            var next := value + |StringAt(mem, value)| + 1;
            Lookup(Stored(mem, at, end), name) ==
            if SameIgnoringCase(StringAt(mem, at), name) then Some(StringAt(mem, value))
              else Lookup(Stored(mem, next, end), name)
  {
    hide StringAt, SameIgnoringCase;
    var value := at + |StringAt(mem, at)| + 1;
    var next := value + |StringAt(mem, value)| + 1;
    var hs := Stored(mem, at, end);
    assert hs[0] == Header(StringAt(mem, at), StringAt(mem, value)) && hs[1..] == Stored(mem, next, end);
  }
}
