// Whole runs of the HTTP response parser: any split of the input, exact lengths, bodies, heads.

module HttpRuns {
  import opened Octets
  import opened Headers
  import opened Http

  lemma {:induction false} RunValid(m: Machine, s: bytes)
    requires Valid(m)
    ensures Valid(Run(m, s))
    decreases |s|
  {
    if s != [] {
      NextValid(m, s[0]);
      RunValid(Next(m, s[0]), s[1..]);
    }
  }

  /** It makes no difference how the input is split. */
  lemma {:induction false} RunConcat(m: Machine, s: bytes, t: bytes)
    ensures Run(m, s + t) == Run(Run(m, s), t)
    decreases |s|
  {
    hide Next;
    if s == [] {
      assert s + t == t;
    } else {
      assert (s + t)[1..] == s[1..] + t;
      RunConcat(Next(m, s[0]), s[1..], t);
    }
  }

  lemma RunSnoc(m: Machine, s: bytes, b: byte)
    ensures Run(m, s + [b]) == Next(Run(m, s), b)
  {
    hide Next;
    RunConcat(m, s, [b]);
    assert Run(Run(m, s), [b]) == Run(Next(Run(m, s), b), []);
  }

  lemma RunTwo(m: Machine, x: byte, y: byte)
    ensures Run(m, [x, y]) == Next(Next(m, x), y)
  {
    hide Next;
    assert Run(m, [x, y]) == Run(Next(m, x), [y]) == Run(Next(Next(m, x), y), []);
  }

  lemma {:induction false} RunStopped(m: Machine, s: bytes)
    requires Stopped(m)
    ensures Run(m, s) == m
    decreases |s|
  {
    if s != [] {
      RunStopped(m, s[1..]);
    }
  }

  /** Octets are taken one by one, up to where the parser stops. */
  lemma {:induction false} RunTaken(m: Machine, s: bytes)
    ensures m.taken <= Run(m, s).taken <= m.taken + |s|
    ensures !Stopped(Run(m, s)) ==> Run(m, s).taken == m.taken + |s|
    ensures Run(m, s).core.errno.Ok? ==> m.core.errno.Ok?
    decreases |s|
  {
    if s != [] {
      if Stopped(m) {
        RunStopped(m, s);
      } else {
        hide Advance;
        RunTaken(Next(m, s[0]), s[1..]);
      }
    }
  }

  /** The count of octets taken may start anywhere. */
  lemma {:induction false} RunFrom(m: Machine, s: bytes, n: nat)
    ensures Run(m, s).taken >= m.taken
    ensures Run(m.(taken := n), s) == Run(m, s).(taken := n + (Run(m, s).taken - m.taken))
    decreases |s|
  {
    RunTaken(m, s);
    if s != [] {
      hide Advance, Report;
      RunFrom(Next(m, s[0]), s[1..], if Stopped(m) then n else Next(m.(taken := n), s[0]).taken);
    }
  }

  /** What is not refused has its result from just the octets that were taken. */
  lemma {:induction false} RunOfTaken(m: Machine, s: bytes)
    requires Run(m, s).core.errno.Ok?
    ensures m.taken <= Run(m, s).taken <= m.taken + |s|
    ensures Run(m, s[..Run(m, s).taken - m.taken]) == Run(m, s)
    decreases |s|
  {
    RunTaken(m, s);
    if s != [] {
      if Stopped(m) {
        RunStopped(m, s);
      } else {
        hide Advance, Report;
        var n := Run(m, s).taken - m.taken;
        RunTaken(Next(m, s[0]), s[1..]);
        RunOfTaken(Next(m, s[0]), s[1..]);
        assert s[..n] == [s[0]] + s[1..][..n - 1];
      }
    }
  }

  /** A message that is over keeps the octets that follow it out: the next protocol begins right there. */
  lemma NothingAfterTheMessage(m: Machine, head: bytes, rest: bytes)
    requires Over(Run(m, head).seen)
    ensures Run(m, head + rest) == Run(m, head)
  {
    RunConcat(m, head, rest);
    RunStopped(Run(m, head), rest);
  }

  // ---- Numbers ----

  predicate IsDigit(base: nat, b: byte) {
    0 <= Unhex(b) < base
  }

  predicate Numeral(base: nat, ds: bytes) {
    forall b :: b in ds ==> IsDigit(base, b)
  }

  /** The value of the digits `ds` after those that made `v`. */
  function ValueFrom(v: nat, base: nat, ds: bytes): nat
    requires Numeral(base, ds)
  {
    if ds == [] then v
    else
      assert ds[|ds| - 1] in ds;
      ValueFrom(v, base, ds[..|ds| - 1]) * base + Unhex(ds[|ds| - 1])
  }

  function ValueOf(base: nat, ds: bytes): nat
    requires Numeral(base, ds)
  {
    ValueFrom(0, base, ds)
  }

  lemma {:induction false} FirstDigit(base: nat, d: byte, ds: bytes)
    requires IsDigit(base, d) && Numeral(base, ds)
    ensures Numeral(base, [d] + ds) && ValueOf(base, [d] + ds) == ValueFrom(Unhex(d), base, ds)
    decreases |ds|
  {
    hide Unhex;
    var all := [d] + ds;
    assert Numeral(base, all) by {
      assert forall b :: b in all ==> b == d || b in ds;
    }
    if ds == [] {
      assert all[..|all| - 1] == [] && ValueFrom(0, base, []) * base == 0;
    } else {
      assert all[..|all| - 1] == [d] + ds[..|ds| - 1];
      assert all[|all| - 1] == ds[|ds| - 1];
      FirstDigit(base, d, ds[..|ds| - 1]);
    }
  }

  predicate CountsDigits(c: Core, base: nat) {
    || (base == 10 && c.state.InText? && (c.header.ContentLengthNum? || c.header.ContentLength?))
    || (base == 16 && c.state.ChunkSize?)
  }

  lemma DigitStep(m: Machine, base: nat, b: byte)
    requires !Stopped(m) && CountsDigits(m.core, base) && IsDigit(base, b) && m.core.nread < MAX_HEADER_SIZE
    requires m.core.length <= UNKNOWN
    ensures var v := m.core.length * base + Unhex(b);
            && (Next(m, b).core.errno.Ok? <==> v < Limit(base))
            && (Next(m, b).core.errno.Ok? ==>
                  && !Stopped(Next(m, b)) && CountsDigits(Next(m, b).core, base)
                  && Next(m, b).core.length == v && Next(m, b).core.nread == m.core.nread + 1)
  {
    DigitExact(m.core.(nread := m.core.nread + 1, header := if base == 10 then ContentLengthNum else m.core.header),
      base, Unhex(b));
  }

  /** Further digits are accepted exactly as long as the number is below the limit, and counted exactly. */
  lemma {:induction false} DigitsExact(m: Machine, base: nat, ds: bytes)
    requires !Stopped(m) && CountsDigits(m.core, base) && Numeral(base, ds)
    requires m.core.nread + |ds| <= MAX_HEADER_SIZE && m.core.length < Limit(base)
    ensures var v, r := ValueFrom(m.core.length, base, ds), Run(m, ds);
            && (r.core.errno.Ok? <==> v < Limit(base))
            && (r.core.errno.Ok? ==>
                  && !Stopped(r) && CountsDigits(r.core, base)
                  && r.core.length == v && r.core.nread == m.core.nread + |ds|)
    decreases |ds|
  {
    if ds != [] {
      hide Next, Stopped, CountsDigits, Unhex;
      var n := |ds| - 1;
      var front, last := ds[..n], ds[n];
      assert front + [last] == ds && last in ds;
      DigitsExact(m, base, front);
      RunSnoc(m, front, last);
      var r, v := Run(m, front), ValueFrom(m.core.length, base, front);
      if r.core.errno.Ok? {
        DigitStep(r, base, last);
      } else {
        Grows(v, base, Unhex(last));
        RunSticks(r, last);
      }
    }
  }

  lemma RunSticks(m: Machine, b: byte)
    ensures Next(m, b).core.errno.Ok? ==> m.core.errno.Ok?
  {}

  lemma Grows(v: nat, base: nat, d: int)
    requires base >= 1 && d >= 0
    ensures v * base + d >= v
  {
    assert v * base == v + v * (base - 1);
  }

  /** A Content-Length is accepted exactly if it is below the limit, and then it is the value of its digits. */
  lemma ContentLengthExact(m: Machine, ds: bytes)
    requires Valid(m) && !Stopped(m) && m.core.state.DiscardWs? && m.core.header.ContentLength?
    requires !m.core.flags.contentLength
    requires ds != [] && Numeral(10, ds) && m.core.nread + |ds| <= MAX_HEADER_SIZE
    ensures Run(m, ds).core.errno.Ok? <==> ValueOf(10, ds) < Limit(10)
    ensures Run(m, ds).core.errno.Ok? ==> Run(m, ds).core.length == ValueOf(10, ds) && Run(m, ds).core.state.InText?
  {
    assert ds == [ds[0]] + ds[1..] && ds[0] in ds;
    assert IsNum(ds[0]) && !IsBlank(ds[0]);
    FirstDigit(10, ds[0], ds[1..]);
    var one := Next(m, ds[0]);
    assert one.core.length == Unhex(ds[0]) && one.core.nread == m.core.nread + 1;
    DigitsExact(one, 10, ds[1..]);
  }

  /** So is the size of a chunk. */
  lemma ChunkSizeExact(m: Machine, ds: bytes)
    requires Valid(m) && !Stopped(m) && m.core.state.ChunkSizeStart?
    requires ds != [] && Numeral(16, ds) && m.core.nread + |ds| <= MAX_HEADER_SIZE
    ensures Run(m, ds).core.errno.Ok? <==> ValueOf(16, ds) < Limit(16)
    ensures Run(m, ds).core.errno.Ok? ==> Run(m, ds).core.length == ValueOf(16, ds) && Run(m, ds).core.state.ChunkSize?
  {
    assert ds == [ds[0]] + ds[1..] && ds[0] in ds;
    FirstDigit(16, ds[0], ds[1..]);
    DigitsExact(Next(m, ds[0]), 16, ds[1..]);
  }
}
