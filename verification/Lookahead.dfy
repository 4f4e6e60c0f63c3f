/** The lookahead partitioner of zsim/src/lookahead.cpp: hand out cache buckets greedily, each
    time to the partition with the highest marginal utility per bucket. */
module Lookahead {

  const WORD64: nat := 0x1_0000_0000_0000_0000
  const WORD32: nat := 0x1_0000_0000
  const EXACT: nat := 0x20_0000_0000_0000  // every integer up to here is a double

  /** How a double is made of a real number; see IEEE 754-2019, section 4.3. */
  type Rounding = real -> real

  ghost predicate Rounds(fl: Rounding) {
    && (forall x, y :: InOrder(fl, x, y))
    && (forall n: nat :: n <= EXACT ==> Keeps(fl, n))
  }

  ghost predicate InOrder(fl: Rounding, x: real, y: real) { x <= y ==> fl(x) <= fl(y) }

  /** No rounding at all. */
  ghost predicate IsExact(fl: Rounding) { forall x :: Same(fl, x) }

  ghost predicate Same(fl: Rounding, x: real) { fl(x) == x }

  ghost predicate Keeps(fl: Rounding, n: nat) { fl(n as real) == n as real }

  /** Addition of allocations. */
  function Add32(a: nat, b: nat): nat { (a + b) % WORD32 }

  /** What is left of a buckets after b; it wraps. */
  function Sub32(a: nat, b: nat): (d: nat)
    ensures d < WORD32 && (d + b) % WORD32 == a % WORD32
  {
    (a - b) % WORD32
  }

  /** A partition monitor: the misses of partition p with a given number of buckets. */
  type Monitor = (nat, nat) -> nat

  /** Misses saved by i more buckets, as an unsigned 64-bit difference. */
  function ExtraHits(m: Monitor, p: nat, alloc: nat, i: nat): (h: nat)
    ensures h < WORD64 && (m(p, Add32(alloc, i)) + h) % WORD64 == m(p, alloc) % WORD64
  {
    (m(p, alloc) - m(p, Add32(alloc, i))) % WORD64
  }

  /** Both the difference and the quotient are rounded; a 32-bit i is a double. */
  function Utility(fl: Rounding, m: Monitor, p: nat, alloc: nat, i: nat): real
    requires i > 0
  {
    fl(fl(ExtraHits(m, p, alloc, i) as real) / i as real)
  }

  /** No number of buckets up to balance is worth more than top to partition p. */
  ghost predicate AtMost(fl: Rounding, m: Monitor, p: nat, alloc: nat, balance: nat, top: real) {
    forall q :: 1 <= q <= balance ==> Utility(fl, m, p, alloc, q) <= top
  }

  /** Nor as much. */
  ghost predicate Below(fl: Rounding, m: Monitor, p: nat, alloc: nat, balance: nat, top: real) {
    forall q :: 1 <= q <= balance ==> Utility(fl, m, p, alloc, q) < top
  }

  /** The best utility over 1..balance buckets, and the least number of buckets that reaches it. */
  method GetMaxMarginalUtility(part: nat, partAlloc: nat, balance: nat, m: Monitor, fl: Rounding)
    returns (maxMu: real, maxMuAlloc: nat)
    requires Rounds(fl)
    ensures balance == 0 ==> maxMu == -1.0 && maxMuAlloc == 0
    ensures balance > 0 ==> 1 <= maxMuAlloc <= balance && maxMu == Utility(fl, m, part, partAlloc, maxMuAlloc) >= 0.0
    ensures AtMost(fl, m, part, partAlloc, balance, maxMu)
    ensures maxMuAlloc > 0 ==> Below(fl, m, part, partAlloc, maxMuAlloc - 1, maxMu)
  {
    maxMu, maxMuAlloc := -1.0, 0;
    for i := 1 to balance + 1
      invariant i == 1 ==> maxMu == -1.0 && maxMuAlloc == 0
      invariant i > 1 ==> 1 <= maxMuAlloc < i && maxMu == Utility(fl, m, part, partAlloc, maxMuAlloc) >= 0.0
      invariant AtMost(fl, m, part, partAlloc, i - 1, maxMu)
      invariant maxMuAlloc > 0 ==> Below(fl, m, part, partAlloc, maxMuAlloc - 1, maxMu)
    {
      var mu := Utility(fl, m, part, partAlloc, i);
      UtilityNonNegative(fl, m, part, partAlloc, i);
      if mu > maxMu {
        maxMu, maxMuAlloc := mu, i;
      }
    }
  }

  lemma UtilityNonNegative(fl: Rounding, m: Monitor, p: nat, alloc: nat, i: nat)
    requires i > 0 && Rounds(fl)
    ensures Utility(fl, m, p, alloc, i) >= 0.0
  {
    var hits := ExtraHits(m, p, alloc, i) as real;
    assert Keeps(fl, 0) && 0.0 <= hits;
    assert InOrder(fl, 0.0, hits);
    NonNegativeQuotient(fl(hits), i as real);
    assert InOrder(fl, 0.0, fl(hits) / i as real);
  }

  lemma NonNegativeQuotient(x: real, d: real)
    requires x >= 0.0 && d > 0.0
    ensures x / d >= 0.0
  {
  }

  // ----- sums over partitions -----

  function Sum(s: seq<nat>): nat { if s == [] then 0 else Sum(s[..|s| - 1]) + s[|s| - 1] }

  function Misses(m: Monitor, allocs: seq<nat>): nat {
    if allocs == [] then 0
    else Misses(m, allocs[..|allocs| - 1]) + m(|allocs| - 1, allocs[|allocs| - 1])
  }

  lemma {:induction false} SumUpdate(s: seq<nat>, i: nat, x: nat)
    requires i < |s|
    ensures Sum(s[i := x]) == Sum(s) - s[i] + x
  {
    var n := |s| - 1;
    if i < n {
      SumUpdate(s[..n], i, x);
      assert s[i := x][..n] == s[..n][i := x];
    } else {
      assert s[i := x][..n] == s[..n];
    }
  }

  lemma {:induction false} SumOfMins(n: nat, x: nat)
    ensures Sum(seq(n, _ => x)) == n * x
  {
    if n > 0 {
      SumOfMins(n - 1, x);
      assert seq(n, _ => x)[..n - 1] == seq(n - 1, _ => x);
    }
  }

  /** `forbidden` may be absent (a null pointer in the source). */
  predicate Forbidden(forbidden: seq<bool>, i: nat) { i < |forbidden| && forbidden[i] }

  // ----- convex, nonincreasing curves -----

  /** What bucket k + 1 saves partition p. */
  function Gain(m: Monitor, p: nat, k: nat): int { m(p, k) - m(p, k + 1) }

  ghost predicate ConvexAt(m: Monitor, p: nat, k: nat) {
    m(p, k) <= EXACT && 0 <= Gain(m, p, k) && Gain(m, p, k + 1) <= Gain(m, p, k)
  }

  /** Curves whose counts are exact as doubles, never rise, and drop ever more slowly. */
  ghost predicate Convex(m: Monitor, n: nat) {
    forall p: nat, k: nat :: p < n ==> ConvexAt(m, p, k)
  }

  lemma {:induction false} GainsDrop(m: Monitor, n: nat, p: nat, a: nat, i: nat)
    requires Convex(m, n) && p < n
    ensures Gain(m, p, a + i) <= Gain(m, p, a)
  {
    if i > 0 {
      GainsDrop(m, n, p, a, i - 1);
      assert ConvexAt(m, p, a + (i - 1));
    }
  }

  /** i buckets from a on save at most i times the first gain and at least i times the last. */
  lemma {:induction false} SavingBounds(m: Monitor, n: nat, p: nat, a: nat, i: nat)
    requires Convex(m, n) && p < n
    ensures 0 <= m(p, a) - m(p, a + i) <= i * Gain(m, p, a)
    ensures i > 0 ==> i * Gain(m, p, a + i - 1) <= m(p, a) - m(p, a + i)
  {
    if i > 0 {
      SavingBounds(m, n, p, a, i - 1);
      GainsDrop(m, n, p, a, i - 1);
      assert ConvexAt(m, p, a + (i - 1));
      OneMore(i, Gain(m, p, a));
      if i > 1 {
        assert ConvexAt(m, p, a + (i - 2));
        ScaleMono(i - 1, Gain(m, p, a + i - 1), Gain(m, p, a + i - 2));
        OneMore(i, Gain(m, p, a + i - 1));
      }
    }
  }

  lemma OneMore(i: nat, x: int)
    requires i > 0
    ensures i * x == (i - 1) * x + x
  {
  }

  lemma ScaleMono(i: nat, x: int, y: int)
    requires x <= y
    ensures i * x <= i * y
  {
  }

  /** On a convex curve one more bucket is worth the most per bucket, however the quotients are rounded. */
  lemma OneBucketIsBest(fl: Rounding, m: Monitor, n: nat, p: nat, a: nat, i: nat)
    requires Convex(m, n) && Rounds(fl) && p < n && i > 0 && a + i < WORD32
    ensures Utility(fl, m, p, a, i) <= Utility(fl, m, p, a, 1) == Gain(m, p, a) as real
  {
    SavingBounds(m, n, p, a, i);
    SavingBounds(m, n, p, a, 1);
    assert ConvexAt(m, p, a);
    var gain := Gain(m, p, a);
    ExactHits(fl, m, p, a, i);
    ExactHits(fl, m, p, a, 1);
    Quotient(m(p, a) - m(p, a + i), i, gain);
    assert gain as real / 1.0 == gain as real && Keeps(fl, gain);
    assert InOrder(fl, (m(p, a) - m(p, a + i)) as real / i as real, gain as real);
  }

  lemma ExactHits(fl: Rounding, m: Monitor, p: nat, a: nat, i: nat)
    requires Rounds(fl) && m(p, a) <= EXACT && 0 <= m(p, a) - m(p, a + i) && a + i < WORD32
    ensures fl(ExtraHits(m, p, a, i) as real) == (m(p, a) - m(p, a + i)) as real
  {
    assert Add32(a, i) == a + i;
    assert Keeps(fl, m(p, a) - m(p, a + i));
  }

  /** More saved per bucket is never worth less, on any curves and whatever the rounding: what i buckets
      save p is to what j buckets save q as i is to j, or less. */
  lemma UtilityOrder(fl: Rounding, m: Monitor, p: nat, a: nat, i: nat, q: nat, b: nat, j: nat)
    requires Rounds(fl) && i > 0 && j > 0 && a + i < WORD32 && b + j < WORD32
    requires m(p, a + i) <= m(p, a) <= EXACT && m(q, b + j) <= m(q, b) <= EXACT
    requires (m(p, a) - m(p, a + i)) * j <= (m(q, b) - m(q, b + j)) * i
    ensures Utility(fl, m, p, a, i) <= Utility(fl, m, q, b, j)
  {
    var x, y := m(p, a) - m(p, a + i), m(q, b) - m(q, b + j);
    ExactHits(fl, m, p, a, i);
    ExactHits(fl, m, q, b, j);
    CrossMultiply(x, i, y, j);
    assert InOrder(fl, x as real / i as real, y as real / j as real);
  }

  /** Without rounding it is worth more exactly if more is saved per bucket. */
  lemma UtilityOrderIff(fl: Rounding, m: Monitor, p: nat, a: nat, i: nat, q: nat, b: nat, j: nat)
    requires IsExact(fl) && i > 0 && j > 0 && a + i < WORD32 && b + j < WORD32
    requires m(p, a + i) <= m(p, a) <= EXACT && m(q, b + j) <= m(q, b) <= EXACT
    ensures Utility(fl, m, p, a, i) <= Utility(fl, m, q, b, j) <==>
            (m(p, a) - m(p, a + i)) * j <= (m(q, b) - m(q, b + j)) * i
  {
    assert Same(fl, 0.0);
    ExactRounds(fl);
    var x, y := m(p, a) - m(p, a + i), m(q, b) - m(q, b + j);
    ExactHits(fl, m, p, a, i);
    ExactHits(fl, m, q, b, j);
    CrossMultiply(x, i, y, j);
    assert Same(fl, x as real / i as real) && Same(fl, y as real / j as real);
  }

  lemma ExactRounds(fl: Rounding)
    requires IsExact(fl)
    ensures Rounds(fl)
  {
    forall x, y ensures InOrder(fl, x, y) { assert Same(fl, x) && Same(fl, y); }
    forall n: nat | n <= EXACT ensures Keeps(fl, n) { assert Same(fl, n as real); }
  }

  /** The integers around what is saved per bucket bound the utility, whatever the rounding. */
  lemma UtilityBounds(fl: Rounding, m: Monitor, p: nat, a: nat, i: nat, v: nat)
    requires Rounds(fl) && i > 0 && a + i < WORD32 && m(p, a + i) <= m(p, a) <= EXACT && v <= EXACT
    ensures m(p, a) - m(p, a + i) <= v * i ==> Utility(fl, m, p, a, i) <= v as real
    ensures m(p, a) - m(p, a + i) >= v * i ==> Utility(fl, m, p, a, i) >= v as real
  {
    var x := m(p, a) - m(p, a + i);
    ExactHits(fl, m, p, a, i);
    CrossMultiply(x, i, v, 1);
    CrossMultiply(v, 1, x, i);
    assert v as real / 1.0 == v as real && Keeps(fl, v);
    assert InOrder(fl, x as real / i as real, v as real) && InOrder(fl, v as real, x as real / i as real);
  }

  lemma CrossMultiply(x: int, i: nat, y: int, j: nat)
    requires i > 0 && j > 0
    ensures x * j <= y * i <==> x as real / i as real <= y as real / j as real
  {
    var u, v, ri, rj := x as real / i as real, y as real / j as real, i as real, j as real;
    assert u * ri == x as real && v * rj == y as real;
    assert (x * j) as real == x as real * rj && (y * i) as real == y as real * ri;
    Product3(u, ri, rj);
    Product3(v, rj, ri);
    Scaled(u, v, ri * rj);
  }

  lemma Product3(u: real, r: real, s: real)
    ensures u * r * s == u * (r * s) && r * s == s * r
  {
  }

  lemma Scaled(u: real, v: real, d: real)
    requires d > 0.0
    ensures u <= v <==> u * d <= v * d
  {
    if u < v { assert (v - u) * d > 0.0; }
    if v < u { assert (u - v) * d > 0.0; }
  }

  lemma Quotient(x: int, i: nat, g: int)
    requires i > 0 && x <= i * g
    ensures x as real / i as real <= g as real
  {
    assert (i * g) as real == i as real * g as real;
    assert (i * g) as real / i as real == g as real;
    RealDivMono(x as real, (i * g) as real, i as real);
  }

  lemma RealDivMono(x: real, y: real, d: real)
    requires x <= y && d > 0.0
    ensures x / d <= y / d
  {
  }

  /** Every bucket handed out beyond the minimum saved at least as much as any next one would. */
  ghost predicate Exchange(m: Monitor, forbidden: seq<bool>, minAlloc: nat, allocs: seq<nat>) {
    forall i, j :: 0 <= i < |allocs| && 0 <= j < |allocs| && !Forbidden(forbidden, i) && !Forbidden(forbidden, j) &&
                   allocs[i] > minAlloc
      ==> Gain(m, i, allocs[i] - 1) >= Gain(m, j, allocs[j])
  }

  /** An allocation that the partitioner could have given out. */
  ghost predicate Feasible(n: nat, forbidden: seq<bool>, minAlloc: nat, total: int, allocs: seq<nat>) {
    && |allocs| == n && Sum(allocs) == total
    && forall i :: 0 <= i < n ==> allocs[i] >= minAlloc && (Forbidden(forbidden, i) ==> allocs[i] == minAlloc)
  }

  /** The gain that separates the buckets handed out from those that were not. */
  ghost predicate Price(m: Monitor, forbidden: seq<bool>, minAlloc: nat, allocs: seq<nat>, price: int) {
    forall i :: 0 <= i < |allocs| && !Forbidden(forbidden, i) ==>
      Gain(m, i, allocs[i]) <= price && (allocs[i] > minAlloc ==> price <= Gain(m, i, allocs[i] - 1))
  }

  lemma PriceExists(m: Monitor, forbidden: seq<bool>, minAlloc: nat, allocs: seq<nat>) returns (price: int)
    requires Exchange(m, forbidden, minAlloc, allocs)
    ensures Price(m, forbidden, minAlloc, allocs, price)
  {
    price := 0;
    var best: nat := |allocs|;
    for k := 0 to |allocs|
      invariant best <= |allocs|
      invariant best < |allocs| ==> !Forbidden(forbidden, best) && price == Gain(m, best, allocs[best])
      invariant best == |allocs| ==> forall i :: 0 <= i < k ==> Forbidden(forbidden, i)
      invariant forall i :: 0 <= i < k && !Forbidden(forbidden, i) ==> Gain(m, i, allocs[i]) <= price
    {
      if !Forbidden(forbidden, k) && (best == |allocs| || Gain(m, k, allocs[k]) > price) {
        best, price := k, Gain(m, k, allocs[k]);
      }
    }
    forall i | 0 <= i < |allocs| && !Forbidden(forbidden, i) && allocs[i] > minAlloc
      ensures price <= Gain(m, i, allocs[i] - 1)
    {
      assert Gain(m, i, allocs[i] - 1) >= Gain(m, best, allocs[best]);
    }
  }

  /** A convex curve lies above its supporting line. */
  lemma SupportingLine(m: Monitor, n: nat, p: nat, minAlloc: nat, a: nat, b: nat, price: int)
    requires Convex(m, n) && p < n && minAlloc <= b
    requires Gain(m, p, a) <= price && (a > minAlloc ==> price <= Gain(m, p, a - 1))
    ensures m(p, b) >= m(p, a) - price * (b - a)
  {
    if b >= a {
      SavingBounds(m, n, p, a, b - a);
      ScaleMono(b - a, Gain(m, p, a), price);
    } else {
      SavingBounds(m, n, p, b, a - b);
      ScaleMono(a - b, price, Gain(m, p, a - 1));
    }
  }

  /** What the buckets that b has more than a would cost at the given price. */
  ghost function Cost(price: int, a: seq<nat>, b: seq<nat>): int
    requires |a| == |b|
  {
    if a == [] then 0
    else
      var k := |a| - 1;
      Cost(price, a[..k], b[..k]) + price * (b[k] as int - a[k] as int)
  }

  lemma {:induction false} CostOfTotals(price: int, a: seq<nat>, b: seq<nat>)
    requires |a| == |b|
    ensures Cost(price, a, b) == price * (Sum(b) as int - Sum(a) as int)
  {
    if a != [] {
      var k := |a| - 1;
      CostOfTotals(price, a[..k], b[..k]);
      Distribute(price, Sum(b[..k]) as int - Sum(a[..k]) as int, b[k] as int - a[k] as int);
    }
  }

  lemma {:induction false} MissesAbovePrice(m: Monitor, n: nat, forbidden: seq<bool>, minAlloc: nat, a: seq<nat>,
                                            b: seq<nat>, price: int)
    requires Convex(m, n) && |a| == |b| <= n && Price(m, forbidden, minAlloc, a, price)
    requires forall i :: 0 <= i < |a| ==> b[i] >= minAlloc && (Forbidden(forbidden, i) ==> a[i] == b[i])
    ensures Misses(m, b) >= Misses(m, a) - Cost(price, a, b)
  {
    if a != [] {
      var k := |a| - 1;
      MissesAbovePrice(m, n, forbidden, minAlloc, a[..k], b[..k], price);
      AbovePriceAt(m, n, forbidden, minAlloc, a, b, price, k);
    }
  }

  lemma AbovePriceAt(m: Monitor, n: nat, forbidden: seq<bool>, minAlloc: nat, a: seq<nat>, b: seq<nat>, price: int,
                     k: nat)
    requires Convex(m, n) && |a| == |b| <= n && k < |a| && Price(m, forbidden, minAlloc, a, price)
    requires b[k] >= minAlloc && (Forbidden(forbidden, k) ==> a[k] == b[k])
    ensures m(k, b[k]) >= m(k, a[k]) - price * (b[k] as int - a[k] as int)
  {
    if !Forbidden(forbidden, k) {
      SupportingLine(m, n, k, minAlloc, a[k], b[k], price);
    }
  }

  lemma Distribute(x: int, y: int, z: int)
    ensures x * (y + z) == x * y + x * z
  {
  }

  lemma NoCost(price: int, a: seq<nat>, b: seq<nat>)
    requires |a| == |b| && Sum(a) == Sum(b)
    ensures Cost(price, a, b) == 0
  {
    CostOfTotals(price, a, b);
    assert price * 0 == 0;
  }

  /** A greedy allocation on convex curves has the fewest misses of all feasible ones. */
  lemma GreedyIsOptimal(m: Monitor, n: nat, forbidden: seq<bool>, minAlloc: nat, total: int, a: seq<nat>, b: seq<nat>)
    requires Convex(m, n) && Exchange(m, forbidden, minAlloc, a)
    requires Feasible(n, forbidden, minAlloc, total, a) && Feasible(n, forbidden, minAlloc, total, b)
    ensures Misses(m, a) <= Misses(m, b)
  {
    var price := PriceExists(m, forbidden, minAlloc, a);
    MissesAbovePrice(m, n, forbidden, minAlloc, a, b, price);
    NoCost(price, a, b);
  }

  /** No feasible allocation misses less. */
  ghost predicate Optimal(m: Monitor, n: nat, forbidden: seq<bool>, minAlloc: nat, total: int, a: seq<nat>) {
    forall b: seq<nat> :: Feasible(n, forbidden, minAlloc, total, b) ==> Misses(m, a) <= Misses(m, b)
  }

  lemma ExchangeMeansOptimal(m: Monitor, n: nat, forbidden: seq<bool>, minAlloc: nat, total: int, a: seq<nat>)
    requires Convex(m, n) && Exchange(m, forbidden, minAlloc, a) && Feasible(n, forbidden, minAlloc, total, a)
    ensures Optimal(m, n, forbidden, minAlloc, total, a)
  {
    forall b: seq<nat> | Feasible(n, forbidden, minAlloc, total, b) ensures Misses(m, a) <= Misses(m, b) {
      GreedyIsOptimal(m, n, forbidden, minAlloc, total, a, b);
    }
  }

  lemma MinimaAreFeasible(n: nat, forbidden: seq<bool>, minAlloc: nat, m: Monitor, a: seq<nat>)
    requires |a| == n && forall i :: 0 <= i < n ==> a[i] == minAlloc
    ensures Feasible(n, forbidden, minAlloc, n * minAlloc, a) && Exchange(m, forbidden, minAlloc, a)
  {
    assert a == seq(n, _ => minAlloc);
    SumOfMins(n, minAlloc);
  }

  lemma HandOutKeepsFeasible(n: nat, forbidden: seq<bool>, minAlloc: nat, total: int, a: seq<nat>, p: nat, k: nat)
    requires Feasible(n, forbidden, minAlloc, total, a) && p < n && !Forbidden(forbidden, p)
    ensures Feasible(n, forbidden, minAlloc, total + k, a[p := a[p] + k])
  {
    SumUpdate(a, p, a[p] + k);
  }

  /** Giving the best next bucket to its partition keeps the exchange property. */
  lemma BestBucketKeepsExchange(m: Monitor, n: nat, forbidden: seq<bool>, minAlloc: nat, a: seq<nat>, p: nat)
    requires Convex(m, n) && |a| == n && Exchange(m, forbidden, minAlloc, a)
    requires p < n && !Forbidden(forbidden, p) && a[p] >= minAlloc
    requires forall j :: 0 <= j < n && !Forbidden(forbidden, j) ==> Gain(m, j, a[j]) <= Gain(m, p, a[p])
    ensures Exchange(m, forbidden, minAlloc, a[p := a[p] + 1])
  {
    var a' := a[p := a[p] + 1];
    assert ConvexAt(m, p, a[p]);
    forall i, j | 0 <= i < n && 0 <= j < n && !Forbidden(forbidden, i) && !Forbidden(forbidden, j) && a'[i] > minAlloc
      ensures Gain(m, i, a'[i] - 1) >= Gain(m, j, a'[j])
    {
      assert Gain(m, j, a'[j]) <= Gain(m, j, a[j]);
      if i != p {
        assert Gain(m, i, a[i] - 1) >= Gain(m, j, a[j]);
      }
    }
  }

  /** Partition p is allowed, wants k more buckets and gets the most out of each, and no fewer would do, nor
      would an earlier partition. */
  ghost predicate Best(fl: Rounding, m: Monitor, forbidden: seq<bool>, a: seq<nat>, balance: nat, p: nat, k: nat) {
    && p < |a| && !Forbidden(forbidden, p) && 1 <= k <= balance
    && var top := Utility(fl, m, p, a[p], k);
       && (forall i :: 0 <= i < |a| && !Forbidden(forbidden, i) ==> AtMost(fl, m, i, a[i], balance, top))
       && (forall i :: 0 <= i < p && !Forbidden(forbidden, i) ==> Below(fl, m, i, a[i], balance, top))
       && Below(fl, m, p, a[p], k - 1, top)
  }

  /** The scan so far: p leads among the first i partitions, or all of them are forbidden. */
  ghost predicate Leads(fl: Rounding, m: Monitor, forbidden: seq<bool>, a: seq<nat>, balance: nat, i: nat, p: nat,
                        k: nat, top: real) {
    && (forall j :: 0 <= j < i <= |a| && !Forbidden(forbidden, j) ==> AtMost(fl, m, j, a[j], balance, top))
    && (forall j :: 0 <= j < p < i <= |a| && !Forbidden(forbidden, j) ==> Below(fl, m, j, a[j], balance, top))
    && if p == |a| then top == -1.0 && forall j :: 0 <= j < i ==> Forbidden(forbidden, j)
       else p < i <= |a| && !Forbidden(forbidden, p) && 1 <= k <= balance && top == Utility(fl, m, p, a[p], k) &&
            Below(fl, m, p, a[p], k - 1, top)
  }

  /** Partition i does better than the leader. */
  lemma TakesTheLead(fl: Rounding, m: Monitor, forbidden: seq<bool>, a: seq<nat>, balance: nat, i: nat, p: nat, k: nat,
                     top: real, k': nat, mu: real)
    requires i < |a| && Leads(fl, m, forbidden, a, balance, i, p, k, top) && !Forbidden(forbidden, i) && mu > top
    requires 1 <= k' <= balance && mu == Utility(fl, m, i, a[i], k')
    requires AtMost(fl, m, i, a[i], balance, mu) && Below(fl, m, i, a[i], k' - 1, mu)
    ensures Leads(fl, m, forbidden, a, balance, i + 1, i, k', mu)
  {
    forall j | 0 <= j < i && !Forbidden(forbidden, j)
      ensures AtMost(fl, m, j, a[j], balance, mu) && Below(fl, m, j, a[j], balance, mu)
    {
      Raised(fl, m, j, a[j], balance, top, mu);
    }
  }

  lemma Raised(fl: Rounding, m: Monitor, p: nat, alloc: nat, balance: nat, top: real, top': real)
    requires AtMost(fl, m, p, alloc, balance, top) && top < top'
    ensures Below(fl, m, p, alloc, balance, top') && AtMost(fl, m, p, alloc, balance, top')
  {
  }

  /** It does not. */
  lemma KeepsTheLead(fl: Rounding, m: Monitor, forbidden: seq<bool>, a: seq<nat>, balance: nat, i: nat, p: nat, k: nat,
                     top: real, mu: real)
    requires i < |a| && Leads(fl, m, forbidden, a, balance, i, p, k, top) && mu <= top && top >= 0.0
    requires AtMost(fl, m, i, a[i], balance, mu)
    ensures Leads(fl, m, forbidden, a, balance, i + 1, p, k, top)
  {
    if mu < top { Raised(fl, m, i, a[i], balance, mu, top); }
  }

  /** It is not allowed to lead. */
  lemma PassesOver(fl: Rounding, m: Monitor, forbidden: seq<bool>, a: seq<nat>, balance: nat, i: nat, p: nat, k: nat,
                   top: real)
    requires i < |a| && Leads(fl, m, forbidden, a, balance, i, p, k, top) && Forbidden(forbidden, i)
    ensures Leads(fl, m, forbidden, a, balance, i + 1, p, k, top)
  {
  }

  /** One round: the allowed partition with the highest utility, and how much it wants. */
  method BestPartition(forbidden: seq<bool>, allocs: array<nat>, balance: nat, m: Monitor, fl: Rounding)
    returns (maxMuPart: nat, maxMuAlloc: nat)
    requires Rounds(fl) && balance > 0
    requires exists i :: 0 <= i < allocs.Length && !Forbidden(forbidden, i)
    ensures Best(fl, m, forbidden, allocs[..], balance, maxMuPart, maxMuAlloc)
  {
    var maxMu := -1.0;
    maxMuPart, maxMuAlloc := allocs.Length, 0;  // illegal
    for i := 0 to allocs.Length
      invariant Leads(fl, m, forbidden, allocs[..], balance, i, maxMuPart, maxMuAlloc, maxMu)
    {
      if i < |forbidden| && forbidden[i] {  // it keeps its minimum
        PassesOver(fl, m, forbidden, allocs[..], balance, i, maxMuPart, maxMuAlloc, maxMu);
        continue;
      }
      var mu, muAlloc := GetMaxMarginalUtility(i, allocs[i], balance, m, fl);
      if mu > maxMu {
        TakesTheLead(fl, m, forbidden, allocs[..], balance, i, maxMuPart, maxMuAlloc, maxMu, muAlloc, mu);
        maxMu, maxMuPart, maxMuAlloc := mu, i, muAlloc;
      } else {
        KeepsTheLead(fl, m, forbidden, allocs[..], balance, i, maxMuPart, maxMuAlloc, maxMu, mu);
      }
    }
    assert maxMuPart < allocs.Length;
  }

  /** The allocations, and the buckets that are left to hand out. */
  datatype Stage = Stage(allocs: seq<nat>, balance: nat)

  ghost predicate GivenOut(s: Stage, p: nat, k: nat, s': Stage) {
    && p < |s.allocs| && k <= s.balance
    && s' == Stage(s.allocs[p := Add32(s.allocs[p], k)], s.balance - k)
  }

  /** One round leads from one stage to the next. */
  ghost predicate IsRound(fl: Rounding, m: Monitor, forbidden: seq<bool>, s: Stage, s': Stage) {
    exists p: nat, k: nat :: Best(fl, m, forbidden, s.allocs, s.balance, p, k) && GivenOut(s, p, k, s')
  }

  /** Rounds lead from the first stage to the last. */
  ghost predicate RoundsLead(fl: Rounding, m: Monitor, forbidden: seq<bool>, first: Stage, last: Stage,
                             stages: seq<Stage>) {
    && |stages| > 0 && stages[0] == first && stages[|stages| - 1] == last
    && forall i :: 0 <= i < |stages| - 1 ==> IsRound(fl, m, forbidden, stages[i], stages[i + 1])
  }

  lemma OneRoundMore(fl: Rounding, m: Monitor, forbidden: seq<bool>, first: Stage, last: Stage, stages: seq<Stage>,
                     a: seq<nat>, balance: nat, p: nat, k: nat)
    requires RoundsLead(fl, m, forbidden, first, last, stages) &&
             Best(fl, m, forbidden, last.allocs, last.balance, p, k)
    requires a == last.allocs[p := Add32(last.allocs[p], k)] && balance == last.balance - k
    ensures RoundsLead(fl, m, forbidden, first, Stage(a, balance), stages + [Stage(a, balance)])
  {
    assert GivenOut(last, p, k, Stage(a, balance)) && IsRound(fl, m, forbidden, last, Stage(a, balance));
  }

  /** What the partitioner starts with. */
  function Minima(n: nat, buckets: nat, minAlloc: nat): Stage { Stage(seq(n, _ => minAlloc), Sub32(buckets, minAlloc)) }

  /** Hand out the buckets, round by round.  The result is feasible exactly if the minimum does not exceed
      what there is to hand out: the first subtraction wraps otherwise. */
  method ComputeBestPartitioning(buckets: nat, minAlloc: nat, forbidden: seq<bool>, allocs: array<nat>, m: Monitor,
                                 fl: Rounding)
    returns (ghost stages: seq<Stage>)
    requires Rounds(fl) && buckets < WORD32 && minAlloc < WORD32
    requires minAlloc != buckets ==> exists i :: 0 <= i < allocs.Length && !Forbidden(forbidden, i)
    modifies allocs
    ensures RoundsLead(fl, m, forbidden, Minima(allocs.Length, buckets, minAlloc), Stage(allocs[..], 0), stages)
    ensures minAlloc <= buckets <==>
            Feasible(allocs.Length, forbidden, minAlloc, allocs.Length * minAlloc + buckets - minAlloc, allocs[..])
    ensures minAlloc <= buckets && Convex(m, allocs.Length) ==>
              Optimal(m, allocs.Length, forbidden, minAlloc, allocs.Length * minAlloc + buckets - minAlloc, allocs[..])
  {
    var n := allocs.Length;
    var balance: nat := buckets;
    for i := 0 to n
      invariant forall k :: 0 <= k < i ==> allocs[k] == minAlloc
    {
      allocs[i] := minAlloc;
    }
    balance := Sub32(balance, minAlloc);
    MinimaAreFeasible(n, forbidden, minAlloc, m, allocs[..]);
    ghost var total: int := n * minAlloc + buckets - minAlloc;
    ghost var fits := minAlloc <= buckets;
    stages := [Stage(allocs[..], balance)];
    assert allocs[..] == seq(n, _ => minAlloc);
    while balance > 0
      invariant RoundsLead(fl, m, forbidden, Minima(n, buckets, minAlloc), Stage(allocs[..], balance), stages)
      invariant 0 <= balance < WORD32 && (balance > 0 ==> minAlloc != buckets)
      invariant fits ==> Feasible(n, forbidden, minAlloc, total - balance, allocs[..]) && Within(allocs[..], balance)
      invariant fits && Convex(m, n) ==> Exchange(m, forbidden, minAlloc, allocs[..])
    {
      ghost var a, before := allocs[..], balance;
      ghost var p, k;
      balance, p, k := Round(forbidden, allocs, balance, m, fl);
      OneRoundMore(fl, m, forbidden, Minima(n, buckets, minAlloc), Stage(a, before), stages, allocs[..], balance, p, k);
      stages := stages + [Stage(allocs[..], balance)];
      if fits { RoundKeeps(fl, m, n, forbidden, minAlloc, total, a, before, p, k); }
    }
    if fits && Convex(m, n) { ExchangeMeansOptimal(m, n, forbidden, minAlloc, total, allocs[..]); }
    if !fits { TooLittle(n, forbidden, minAlloc, total, allocs[..]); }
  }

  // ----- what the winner of a round saves -----

  /** Curves that never rise, with counts that are exact as doubles; they need not be convex. */
  ghost predicate Falling(m: Monitor, n: nat) { forall p: nat, k: nat :: p < n ==> FallsAt(m, p, k) }

  ghost predicate FallsAt(m: Monitor, p: nat, k: nat) { m(p, k + 1) <= m(p, k) <= EXACT }

  lemma {:induction false} FallsTo(m: Monitor, n: nat, p: nat, a: nat, i: nat)
    requires Falling(m, n) && p < n
    ensures m(p, a + i) <= m(p, a) <= EXACT
  {
    assert FallsAt(m, p, a);
    if i > 0 {
      FallsTo(m, n, p, a, i - 1);
      assert FallsAt(m, p, a + (i - 1));
    }
  }

  /** No allowed partition, with any number of buckets, saves more per bucket than p does with k. */
  ghost predicate MostSaved(m: Monitor, forbidden: seq<bool>, a: seq<nat>, balance: nat, p: nat, k: nat) {
    && p < |a|
    && forall q, i :: 0 <= q < |a| && !Forbidden(forbidden, q) && 1 <= i <= balance ==>
      SavesLess(m, q, a[q], i, p, a[p], k)
  }

  ghost predicate SavesLess(m: Monitor, q: nat, b: nat, i: nat, p: nat, a: nat, k: nat) {
    (m(q, b) - m(q, b + i)) * k <= (m(p, a) - m(p, a + k)) * i
  }

  /** None saves more by as much as rounding could hide: if p saves v per bucket at most, they save less
      than v + 1. */
  ghost predicate NearlyMostSaved(m: Monitor, forbidden: seq<bool>, a: seq<nat>, balance: nat, p: nat, k: nat) {
    && p < |a|
    && forall q, i, v :: 0 <= q < |a| && !Forbidden(forbidden, q) && 1 <= i <= balance && 0 <= v < EXACT ==>
         SavesNearlyLess(m, q, a[q], i, p, a[p], k, v)
  }

  ghost predicate SavesNearlyLess(m: Monitor, q: nat, b: nat, i: nat, p: nat, a: nat, k: nat, v: nat) {
    m(p, a) - m(p, a + k) <= v * k ==> m(q, b) - m(q, b + i) < (v + 1) * i
  }

  lemma BestSaves(fl: Rounding, m: Monitor, n: nat, forbidden: seq<bool>, a: seq<nat>, balance: nat, p: nat, k: nat)
    requires Rounds(fl) && Falling(m, n) && |a| == n && Within(a, balance)
    requires Best(fl, m, forbidden, a, balance, p, k)
    ensures IsExact(fl) ==> MostSaved(m, forbidden, a, balance, p, k)
    ensures NearlyMostSaved(m, forbidden, a, balance, p, k)
  {
    if IsExact(fl) {
      forall q, i | 0 <= q < |a| && !Forbidden(forbidden, q) && 1 <= i <= balance
        ensures SavesLess(m, q, a[q], i, p, a[p], k)
      {
        FallsTo(m, n, p, a[p], k);
        FallsTo(m, n, q, a[q], i);
        UtilityOrderIff(fl, m, q, a[q], i, p, a[p], k);
      }
    }
    forall q, i, v | 0 <= q < |a| && !Forbidden(forbidden, q) && 1 <= i <= balance && 0 <= v < EXACT
      ensures SavesNearlyLess(m, q, a[q], i, p, a[p], k, v)
    {
      assert Utility(fl, m, q, a[q], i) <= Utility(fl, m, p, a[p], k);
      NearlyLess(fl, m, n, q, a[q], i, p, a[p], k, v);
    }
  }

  lemma NearlyLess(fl: Rounding, m: Monitor, n: nat, q: nat, b: nat, i: nat, p: nat, a: nat, k: nat, v: nat)
    requires Rounds(fl) && Falling(m, n) && q < n && p < n && i > 0 && k > 0 && b + i < WORD32 && a + k < WORD32
    requires Utility(fl, m, q, b, i) <= Utility(fl, m, p, a, k) && v < EXACT
    ensures SavesNearlyLess(m, q, b, i, p, a, k, v)
  {
    FallsTo(m, n, p, a, k);
    FallsTo(m, n, q, b, i);
    UtilityBounds(fl, m, p, a, k, v);
    UtilityBounds(fl, m, q, b, i, v + 1);
  }

  /** Nothing that is handed out from here on can wrap. */
  ghost predicate Within(a: seq<nat>, balance: nat) { forall i :: 0 <= i < |a| ==> a[i] + balance < WORD32 }

  /** One iteration of the outer loop: the best partition gets what it wants. */
  method Round(forbidden: seq<bool>, allocs: array<nat>, balance: nat, m: Monitor, fl: Rounding)
    returns (rest: nat, ghost p: nat, ghost k: nat)
    requires Rounds(fl) && balance > 0 && exists i :: 0 <= i < allocs.Length && !Forbidden(forbidden, i)
    modifies allocs
    ensures Best(fl, m, forbidden, old(allocs[..]), balance, p, k) && rest == balance - k
    ensures allocs[..] == old(allocs[..])[p := Add32(old(allocs[..])[p], k)]
    ensures Falling(m, allocs.Length) && Within(old(allocs[..]), balance) ==>
              && NearlyMostSaved(m, forbidden, old(allocs[..]), balance, p, k)
              && (IsExact(fl) ==> MostSaved(m, forbidden, old(allocs[..]), balance, p, k))
  {
    var maxMuPart, maxMuAlloc := BestPartition(forbidden, allocs, balance, m, fl);
    if Falling(m, allocs.Length) && Within(allocs[..], balance) {
      BestSaves(fl, m, allocs.Length, forbidden, allocs[..], balance, maxMuPart, maxMuAlloc);
    }
    p, k := maxMuPart, maxMuAlloc;
    allocs[maxMuPart] := Add32(allocs[maxMuPart], maxMuAlloc);
    rest := balance - maxMuAlloc;
  }

  /** A round keeps what the loop needs. */
  lemma RoundKeeps(fl: Rounding, m: Monitor, n: nat, forbidden: seq<bool>, minAlloc: nat, total: int, a: seq<nat>,
                   balance: nat, p: nat, k: nat)
    requires Rounds(fl) && Feasible(n, forbidden, minAlloc, total - balance, a) && Within(a, balance)
    requires Best(fl, m, forbidden, a, balance, p, k)
    ensures var a' := a[p := Add32(a[p], k)];
            && Feasible(n, forbidden, minAlloc, total - (balance - k), a') && Within(a', balance - k)
            && (Convex(m, n) && Exchange(m, forbidden, minAlloc, a) ==> Exchange(m, forbidden, minAlloc, a'))
  {
    assert Add32(a[p], k) == a[p] + k;
    HandOutKeepsFeasible(n, forbidden, minAlloc, total - balance, a, p, k);
    if Convex(m, n) && Exchange(m, forbidden, minAlloc, a) {
      ConvexRound(fl, m, n, forbidden, minAlloc, a, balance, p, k);
    }
  }

  /** On convex curves a round hands out a single bucket, and the best one. */
  lemma ConvexRound(fl: Rounding, m: Monitor, n: nat, forbidden: seq<bool>, minAlloc: nat, a: seq<nat>, balance: nat,
                    p: nat, k: nat)
    requires Convex(m, n) && Rounds(fl) && |a| == n && Exchange(m, forbidden, minAlloc, a) && Within(a, balance)
    requires Best(fl, m, forbidden, a, balance, p, k) && a[p] >= minAlloc
    ensures k == 1
    ensures Exchange(m, forbidden, minAlloc, a[p := a[p] + k])
  {
    OneBucketIsBest(fl, m, n, p, a[p], k);
    forall j | 0 <= j < n && !Forbidden(forbidden, j) ensures Gain(m, j, a[j]) <= Gain(m, p, a[p]) {
      OneBucketIsBest(fl, m, n, j, a[j], 1);
      assert Utility(fl, m, j, a[j], 1) <= Utility(fl, m, p, a[p], k);
    }
    BestBucketKeepsExchange(m, n, forbidden, minAlloc, a, p);
  }

  /** Two partitions, the first of which saves nothing with its first bucket and all with its second. */
  function Cliff(p: nat, k: nat): nat {
    if k >= 2 then 0 else if p == 0 then 100 else if k == 0 then 60 else 30
  }

  /** It gets both buckets at once. */
  method LooksAhead(fl: Rounding) returns (allocs: array<nat>)
    requires Rounds(fl)
    ensures allocs[..] == [2, 0]
  {
    allocs := new nat[2](_ => 0);
    assert !Forbidden([], 0);
    ghost var stages := ComputeBestPartitioning(2, 0, [], allocs, Cliff, fl);
    CliffStages(fl, stages, allocs[..]);
  }

  lemma CliffStages(fl: Rounding, stages: seq<Stage>, a: seq<nat>)
    requires Rounds(fl) && RoundsLead(fl, Cliff, [], Minima(2, 2, 0), Stage(a, 0), stages)
    ensures a == [2, 0]
  {
    var first := Stage([0, 0], 2);
    assert Minima(2, 2, 0) == first;
    assert IsRound(fl, Cliff, [], first, stages[1]);
    var p: nat, k: nat :| Best(fl, Cliff, [], first.allocs, first.balance, p, k) && GivenOut(first, p, k, stages[1]);
    CliffFirst(fl, p, k);
    assert |stages| > 2 ==> IsRound(fl, Cliff, [], stages[1], stages[2]);
  }

  lemma CliffFirst(fl: Rounding, p: nat, k: nat)
    requires Rounds(fl) && Best(fl, Cliff, [], [0, 0], 2, p, k)
    ensures p == 0 && k == 2
  {
    UtilityBounds(fl, Cliff, 0, 0, 1, 0);
    UtilityBounds(fl, Cliff, 0, 0, 2, 50);
    UtilityBounds(fl, Cliff, 1, 0, 1, 30);
    UtilityBounds(fl, Cliff, 1, 0, 2, 30);
    assert AtMost(fl, Cliff, 0, [0, 0][0], 2, Utility(fl, Cliff, p, [0, 0][p], k));
    assert Utility(fl, Cliff, 0, 0, 2) <= Utility(fl, Cliff, p, [0, 0][p], k);
  }

  /** Two partitions, the second of which has one miss more to save than doubles can tell. */
  function Close(p: nat, k: nat): nat {
    if k > 0 then 0 else if p == 0 then EXACT else EXACT + 1
  }

  lemma CannotTell(fl: Rounding, p: nat, k: nat)
    requires Rounds(fl) && fl((EXACT + 1) as real) == EXACT as real
    requires Best(fl, Close, [], [0, 0], 1, p, k)
    ensures p == 0 && k == 1
  {
    assert Keeps(fl, EXACT) && Add32(0, 1) == 1;
    assert ExtraHits(Close, 0, 0, 1) == EXACT && ExtraHits(Close, 1, 0, 1) == EXACT + 1;
    var top := Utility(fl, Close, 1, 0, 1);
    assert Utility(fl, Close, 0, 0, 1) == top && !Below(fl, Close, 0, [0, 0][0], 1, top);
  }

  lemma WorseOfTwo()
    ensures Feasible(2, [], 0, 1, [1, 0]) && Feasible(2, [], 0, 1, [0, 1])
    ensures Misses(Close, [0, 1]) < Misses(Close, [1, 0])
  {
    SumOfTwo(1, 0);
    SumOfTwo(0, 1);
    MissesOfTwo(1, 0);
    MissesOfTwo(0, 1);
  }

  /** Beyond 2^53 rounding can hide the better partition: the only bucket goes to the worse one. */
  method RoundingHidesTheBest(fl: Rounding) returns (allocs: array<nat>)
    requires Rounds(fl) && fl((EXACT + 1) as real) == EXACT as real
    ensures allocs[..] == [1, 0] && Feasible(2, [], 0, 1, [1, 0]) && Feasible(2, [], 0, 1, [0, 1])
    ensures Misses(Close, [0, 1]) < Misses(Close, [1, 0])
    ensures forall p: nat, k: nat :: Gain(Close, p, k) >= 0 && Gain(Close, p, k + 1) <= Gain(Close, p, k)
  {
    allocs := new nat[2](_ => 0);
    assert !Forbidden([], 0) && allocs[..] == [0, 0];
    var rest, p, k := Round([], allocs, 1, Close, fl);
    CannotTell(fl, p, k);
    WorseOfTwo();
  }

  lemma SumOfTwo(x: nat, y: nat)
    ensures Sum([x, y]) == x + y
  {
    assert [x, y][..1] == [x] && Sum([x]) == x;
  }

  lemma MissesOfTwo(x: nat, y: nat)
    ensures Misses(Close, [x, y]) == Close(0, x) + Close(1, y)
  {
    assert [x, y][..1] == [x] && Misses(Close, [x]) == Close(0, x);
  }

  lemma {:induction false} SumAtLeast(a: seq<nat>, minAlloc: nat)
    requires forall i :: 0 <= i < |a| ==> a[i] >= minAlloc
    ensures Sum(a) >= |a| * minAlloc
  {
    if a != [] { SumAtLeast(a[..|a| - 1], minAlloc); }
  }

  /** There is no feasible way to hand out less than the minima. */
  lemma TooLittle(n: nat, forbidden: seq<bool>, minAlloc: nat, total: int, a: seq<nat>)
    requires total < n * minAlloc
    ensures !Feasible(n, forbidden, minAlloc, total, a)
  {
    if Feasible(n, forbidden, minAlloc, total, a) { SumAtLeast(a, minAlloc); }
  }

  /** How many fewer misses there are than with no buckets at all, as an unsigned 64-bit difference. */
  method ComputePartitioningTotalUtility(parts: seq<nat>, m: Monitor) returns (utility: nat)
    ensures utility == (Misses(m, seq(|parts|, _ => 0)) - Misses(m, parts)) % WORD64
  {
    var noCacheMisses: nat, curPartMisses: nat := 0, 0;
    for p := 0 to |parts|
      invariant noCacheMisses == Misses(m, seq(p, _ => 0)) % WORD64
      invariant curPartMisses == Misses(m, parts[..p]) % WORD64
    {
      assert seq(p + 1, _ => 0)[..p] == seq(p, _ => 0);
      assert parts[..p + 1][..p] == parts[..p];
      AddModulo(Misses(m, seq(p, _ => 0)), m(p, 0));
      AddModulo(Misses(m, parts[..p]), m(p, parts[p]));
      noCacheMisses := (noCacheMisses + m(p, 0)) % WORD64;
      curPartMisses := (curPartMisses + m(p, parts[p])) % WORD64;
    }
    assert parts[..|parts|] == parts;
    SubModulo(Misses(m, seq(|parts|, _ => 0)), Misses(m, parts));
    utility := (noCacheMisses - curPartMisses) % WORD64;
  }

  lemma AddModulo(a: nat, b: nat)
    ensures (a % WORD64 + b) % WORD64 == (a + b) % WORD64
  {
  }

  lemma SubModulo(a: nat, b: nat)
    ensures (a % WORD64 - b % WORD64) % WORD64 == (a - b) % WORD64
  {
  }
}
