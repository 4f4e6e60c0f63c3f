/** Translation between system and memory cycles, zsim/src/ddr_mem.h. */
module ClockDomains {
  import opened Counting

  const WORD64: nat := 0x1_0000_0000_0000_0000

  /** The two frequencies of a channel, in KHz. */
  datatype Clocks = Clocks(sysKHz: nat, memKHz: nat) {

    /** The constructor of the controller panics unless this holds. */
    predicate Valid() { 0 < memKHz && memKHz < sysKHz / 2 && sysKHz < WORD64 }

    // All arithmetic is on uint64_t: a product wraps around.

    function SysToMem(sysCycle: nat): nat
      requires Valid()
    {
      sysCycle * memKHz % WORD64 / sysKHz + 1
    }

    function MemToSys(memCycle: nat): nat
      requires Valid()
    {
      (memCycle + 1) * sysKHz % WORD64 / memKHz
    }

    function MatchingMemToSys(memCycle: nat): nat
      requires Valid() && memCycle > 0
    {
      (2 * memCycle - 1) * sysKHz % WORD64 / memKHz / 2
    }
  }

  lemma DivBounds(a: nat, b: nat)
    requires b > 0
    ensures a / b * b <= a < a / b * b + b
  {
    assert a == a / b * b + a % b;
  }

  lemma DivUnique(a: nat, b: nat, q: nat)
    requires b > 0 && q * b <= a < q * b + b
    ensures a / b == q
  {
    DivBounds(a, b);
    var d := a / b;
    if d < q {
      assert (d + 1) * b <= q * b by { MulMono(d + 1, q, b); }
    } else if d > q {
      assert (q + 1) * b <= d * b by { MulMono(q + 1, d, b); }
    }
  }

  lemma DivMono(a: nat, a': nat, b: nat)
    requires a <= a' && b > 0
    ensures a / b <= a' / b
  {
    DivBounds(a, b);
    DivBounds(a', b);
    if a / b > a' / b {
      MulMono(a' / b + 1, a / b, b);
    }
  }

  /** Halving the quotient of p by f leaves x with 2 * x * f within 2 * f below p. */
  lemma HalvedQuotient(p: nat, f: nat, x: nat)
    requires f > 0 && x == p / f / 2
    ensures 2 * (x * f) <= p < 2 * (x * f) + 2 * f
  {
    var q := p / f;
    DivBounds(p, f);
    MulMono(2 * x, q, f);
    MulMono(q, 2 * x + 1, f);
    assert 2 * x * f == 2 * (x * f) && (2 * x + 1) * f == 2 * (x * f) + f;
  }

  /** A system cycle belongs to the memory cycle that it falls into, counted from 1. */
  lemma SysToMemMeaning(c: Clocks, s: nat)
    requires c.Valid() && s * c.memKHz < WORD64
    ensures var m := c.SysToMem(s); m > 0 && (m - 1) * c.sysKHz <= s * c.memKHz < m * c.sysKHz
  {
    var p := Product(s, c.memKHz);
    SmallModulus(p);
    DivBounds(p, c.sysKHz);
    assert (p / c.sysKHz + 1) * c.sysKHz == p / c.sysKHz * c.sysKHz + c.sysKHz;
  }

  /** A response comes with the last system cycle that starts by the end of the memory cycle after it. */
  lemma MemToSysMeaning(c: Clocks, m: nat)
    requires c.Valid() && (m + 1) * c.sysKHz < WORD64
    ensures var s := c.MemToSys(m); s * c.memKHz <= (m + 1) * c.sysKHz < (s + 1) * c.memKHz
  {
    var p := Product(m + 1, c.sysKHz);
    SmallModulus(p);
    DivBounds(p, c.memKHz);
    assert (p / c.memKHz + 1) * c.memKHz == p / c.memKHz * c.memKHz + c.memKHz;
  }

  /** An event is set to the last system cycle that starts by the middle of its memory cycle. */
  lemma MatchingMeaning(c: Clocks, m: nat)
    requires c.Valid() && m > 0 && (2 * m - 1) * c.sysKHz < WORD64
    ensures var s := c.MatchingMemToSys(m); 2 * (s * c.memKHz) <= (2 * m - 1) * c.sysKHz < 2 * ((s + 1) * c.memKHz)
  {
    var p := Product(2 * m - 1, c.sysKHz);
    SmallModulus(p);
    var s := c.MatchingMemToSys(m);
    HalvedQuotient(p, c.memKHz, s);
    assert (s + 1) * c.memKHz == s * c.memKHz + c.memKHz;
  }

  /** The round trip of the source's comment: a system cycle produced for memory cycle m is
      translated back to m exactly if the first product does not overflow. */
  lemma RoundTrip(c: Clocks, m: nat)
    requires c.Valid() && m > 0
    ensures c.SysToMem(c.MatchingMemToSys(m)) == m <==> (2 * m - 1) * c.sysKHz < WORD64
    ensures (2 * m - 1) * c.sysKHz < WORD64 ==> c.MatchingMemToSys(m) > 0
    ensures c.MatchingMemToSys(m) * c.memKHz < WORD64
    ensures c.SysToMem(c.MatchingMemToSys(m)) <= m
  {
    var p, ms := Product(2 * m - 1, c.sysKHz), Product(m - 1, c.sysKHz);
    OddMultiple(m, c.sysKHz);
    var x := c.MatchingMemToSys(m);
    var xf := Product(x, c.memKHz);
    HalvedQuotient(p % WORD64, c.memKHz, x);
    SmallModulus(xf);
    if p < WORD64 {
      SmallModulus(p);
      Between(c.sysKHz, c.memKHz, ms, x, xf);
      DivUnique(xf, c.sysKHz, m - 1);
    } else {
      LostWord(p);
      QuotientBelow(xf, c.sysKHz, m - 1, ms);
    }
  }

  lemma LostWord(p: nat)
    requires p >= WORD64
    ensures p % WORD64 <= p - WORD64
  {
  }

  lemma QuotientBelow(a: nat, b: nat, q: nat, qb: nat)
    requires b > 0 && qb == q * b && a < qb
    ensures a / b < q
  {
    DivBounds(a, b);
    if a / b >= q { MulMono(q, a / b, b); }
  }

  function Product(a: nat, b: nat): (p: nat)
    ensures p == a * b
  {
    a * b
  }

  lemma OddMultiple(m: nat, s: nat)
    requires m > 0
    ensures (2 * m - 1) * s == 2 * ((m - 1) * s) + s
  {
  }

  lemma SmallModulus(a: nat)
    requires a < WORD64
    ensures a % WORD64 == a
  {
  }

  lemma Between(s: nat, f: nat, ms: nat, x: nat, xf: nat)
    requires 2 * f < s && xf == x * f
    requires 2 * xf <= 2 * ms + s < 2 * xf + 2 * f
    ensures ms <= xf < ms + s && x > 0
  {
  }

  lemma SysToMemMonotone(c: Clocks, a: nat, b: nat)
    requires c.Valid() && a <= b && b * c.memKHz < WORD64
    ensures c.SysToMem(a) <= c.SysToMem(b)
  {
    MulMono(a, b, c.memKHz);
    DivMono(a * c.memKHz, b * c.memKHz, c.sysKHz);
  }

  /** An event armed at system cycle `now` for memory cycle m, not before the current one, runs at a
      system cycle that is not in the past; it translates back to m exactly if the product does not
      overflow or m is the current cycle. */
  lemma ArmedCycle(c: Clocks, m: nat, now: nat)
    requires c.Valid() && m > 0 && now * c.memKHz < WORD64 && c.SysToMem(now) <= m
    ensures var at := if c.MatchingMemToSys(m) > now then c.MatchingMemToSys(m) else now;
            && at >= now && at * c.memKHz < WORD64
            && (c.SysToMem(at) == m <==> (2 * m - 1) * c.sysKHz < WORD64 || c.SysToMem(now) == m)
            && ((2 * m - 1) * c.sysKHz < WORD64 ==> at > 0)
  {
    RoundTrip(c, m);
    var at := c.MatchingMemToSys(m);
    if at <= now {
      SysToMemMonotone(c, at, now);
    } else {
      SysToMemMonotone(c, now, at);
    }
  }

  /** Up to a horizon whose conversions do not overflow, it does. */
  lemma ArmedWithin(c: Clocks, m: nat, now: nat, horizon: nat)
    requires c.Valid() && 0 < m <= horizon && (2 * horizon + 2) * c.sysKHz < WORD64
    requires now * c.memKHz < WORD64 && c.SysToMem(now) <= m
    ensures var at := if c.MatchingMemToSys(m) > now then c.MatchingMemToSys(m) else now;
            at > 0 && at * c.memKHz < WORD64 && c.SysToMem(at) == m
  {
    MulMono(2 * m - 1, 2 * horizon + 2, c.sysKHz);
    ArmedCycle(c, m, now);
  }

  /** A response at memory cycle m or later, decided at system cycle `now` in memory cycle m, is not in
      the past. */
  lemma AnswerNotInPast(c: Clocks, now: nat, m: nat)
    requires c.Valid() && now * c.memKHz < WORD64 && (m + 1) * c.sysKHz < WORD64 && c.SysToMem(now) <= m
    ensures c.MemToSys(m) >= now
  {
    var q := now * c.memKHz / c.sysKHz;
    DivBounds(now * c.memKHz, c.sysKHz);
    SmallModulus(now * c.memKHz);
    SmallModulus((m + 1) * c.sysKHz);
    MulMono(q + 1, m + 1, c.sysKHz);
    assert (q + 1) * c.sysKHz == q * c.sysKHz + c.sysKHz;
    DivMono(now * c.memKHz, (m + 1) * c.sysKHz, c.memKHz);
    DivUnique(now * c.memKHz, c.memKHz, now);
  }
}
