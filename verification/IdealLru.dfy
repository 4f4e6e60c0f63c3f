/** The fully associative LRU array of zsim/src/ideal_arrays.h: a hash map plus an intrusive
    list, which together must be true LRU. */
module IdealLru {
  import opened Counting
  import opened IntrusiveList

  type Address = nat  // 0 marks an unused line

  // ----- what true LRU is -----

  function Without(s: seq<Address>, a: Address): (r: seq<Address>)
    ensures a !in r
    ensures forall x :: x in r <==> x in s && x != a
    ensures a !in s ==> r == s
  {
    if s == [] then [] else if s[0] == a then Without(s[1..], a) else [s[0]] + Without(s[1..], a)
  }

  /** The distinct addresses of a trace, most recently used first. */
  function Recency(trace: seq<Address>): seq<Address> {
    if trace == [] then []
    else
      var a := trace[|trace| - 1];
      [a] + Without(Recency(trace[..|trace| - 1]), a)
  }

  /** One more than the index of the last use of a; 0 if a was never used. */
  function LastUse(trace: seq<Address>, a: Address): (k: nat)
    ensures k <= |trace|
    ensures k > 0 <==> a in trace
    ensures k > 0 ==> trace[k - 1] == a && a !in trace[k..]
  {
    if trace == [] then 0
    else if trace[|trace| - 1] == a then |trace|
    else
      var k := LastUse(trace[..|trace| - 1], a);
      assert trace == trace[..|trace| - 1] + [trace[|trace| - 1]];
      assert k > 0 ==> trace[k..] == trace[..|trace| - 1][k..] + [trace[|trace| - 1]];
      k
  }

  /** Each address was last used after all those behind it. */
  ghost predicate LatestFirst(trace: seq<Address>, s: seq<Address>) {
    s == [] ||
    ((forall x :: x in s[1..] ==> LastUse(trace, s[0]) > LastUse(trace, x)) && LatestFirst(trace, s[1..]))
  }

  lemma {:induction false} WithoutKeepsOrder(s: seq<Address>, a: Address, trace: seq<Address>)
    requires LatestFirst(trace, s)
    ensures LatestFirst(trace, Without(s, a))
  {
    if s != [] {
      WithoutKeepsOrder(s[1..], a, trace);
      if s[0] != a {
        assert Without(s, a)[1..] == Without(s[1..], a);
      }
    }
  }

  lemma {:induction false} OneMoreUse(trace: seq<Address>, a: Address, s: seq<Address>)
    requires a !in s && LatestFirst(trace, s)
    ensures LatestFirst(trace + [a], s)
    ensures forall x :: x in s ==> LastUse(trace + [a], x) == LastUse(trace, x)
  {
    assert (trace + [a])[..|trace|] == trace;
    if s != [] {
      OneMoreUse(trace, a, s[1..]);
    }
  }

  /** Recency means what it says: exactly the used addresses, latest use first (so each once). */
  lemma {:induction false} RecencyMeaning(trace: seq<Address>)
    ensures forall a :: a in Recency(trace) <==> a in trace
    ensures LatestFirst(trace, Recency(trace))
  {
    if trace != [] {
      var n := |trace| - 1;
      var a, before := trace[n], trace[..n];
      RecencyMeaning(before);
      var w := Without(Recency(before), a);
      WithoutKeepsOrder(Recency(before), a, before);
      OneMoreUse(before, a, w);
      assert trace == before + [a];
      assert Recency(trace)[1..] == w;
    }
  }

  /** At one place at most. */
  ghost predicate Once(s: seq<Address>, a: Address) {
    forall i, j :: 0 <= i < j < |s| ==> !(s[i] == a && s[j] == a)
  }

  lemma {:induction false} RecencyOnce(trace: seq<Address>, s: seq<Address>, a: Address)
    requires LatestFirst(trace, s)
    ensures Once(s, a)
  {
    if s != [] {
      RecencyOnce(trace, s[1..], a);
      forall j | 0 < j < |s| ensures s[j] != s[0] { assert s[j] in s[1..]; }
      assert forall j :: 0 < j < |s| ==> s[j] == s[1..][j - 1];
    }
  }

  // ----- what the array does to its lines -----

  function RemoveFirst(s: seq<Address>, a: Address): (r: seq<Address>)
    requires a in s
    ensures |r| == |s| - 1
  {
    if s[0] == a then s[1..] else [s[0]] + RemoveFirst(s[1..], a)
  }

  lemma {:induction false} RemoveFirstSplit(p: seq<Address>, x: Address, q: seq<Address>)
    requires x !in p
    ensures x in p + [x] + q && RemoveFirst(p + [x] + q, x) == p + q
  {
    var s := p + [x] + q;
    assert s[|p|] == x;
    if p == [] {
      assert s[1..] == q && p + q == q;
    } else {
      assert s[0] == p[0] && s[0] != x;
      assert s[1..] == p[1..] + [x] + q;
      RemoveFirstSplit(p[1..], x, q);
      assert [p[0]] + (p[1..] + q) == p + q;
    }
  }

  /** The addresses in list order after an access to a: a hit moves to the front, a miss takes
      the line at the back. */
  function Touch(s: seq<Address>, a: Address): (r: seq<Address>)
    requires |s| > 0
    ensures |r| == |s|
  {
    if a in s then [a] + RemoveFirst(s, a) else [a] + s[..|s| - 1]
  }

  /** The first n of r, filled up with unused lines. */
  function Pad(r: seq<Address>, n: nat): (s: seq<Address>)
    ensures |s| == n
  {
    if n == 0 then [] else if r == [] then [0] + Pad([], n - 1) else [r[0]] + Pad(r[1..], n - 1)
  }

  lemma {:induction false} PadIs(r: seq<Address>, n: nat)
    ensures forall i :: 0 <= i < n ==> Pad(r, n)[i] == (if i < |r| then r[i] else 0)
  {
    if n > 0 { PadIs(if r == [] then [] else r[1..], n - 1); }
  }

  lemma Unused(n: nat, s: seq<Address>)
    requires |s| == n && forall i :: 0 <= i < n ==> s[i] == 0
    ensures s == Pad([], n)
  {
    PadIs([], n);
  }

  lemma {:induction false} HitIsRecency(r: seq<Address>, n: nat, a: Address)
    requires a in Pad(r, n) && Once(r, a)
    ensures n > 0 && RemoveFirst(Pad(r, n), a) == Pad(Without(r, a), n - 1)
  {
    if r == [] {
      HitsUnused(n, a);
    } else {
      PushAndDrop(r[0], Pad(r[1..], n - 1));
      OnceInTail(r, a);
      if r[0] != a {
        HitIsRecency(r[1..], n - 1, a);
        HitsLater(r, n, a);
      }
    }
  }

  lemma OnceInTail(r: seq<Address>, a: Address)
    requires r != [] && Once(r, a)
    ensures Once(r[1..], a) && (r[0] == a ==> Without(r, a) == r[1..])
  {
    assert forall j :: 0 < j < |r| ==> r[1..][j - 1] == r[j];
    if r[0] == a {
      assert a !in r[1..];
      assert Without(r, a) == Without(r[1..], a);
    }
  }

  lemma HitsLater(r: seq<Address>, n: nat, a: Address)
    requires r != [] && r[0] != a && n > 1 && a in Pad(r[1..], n - 1)
    requires RemoveFirst(Pad(r[1..], n - 1), a) == Pad(Without(r[1..], a), n - 2)
    ensures a in Pad(r, n) && RemoveFirst(Pad(r, n), a) == Pad(Without(r, a), n - 1)
  {
    PushAndDrop(r[0], Pad(r[1..], n - 1));
    PushAndDrop(r[0], Without(r[1..], a));
  }

  lemma HitsUnused(n: nat, a: Address)
    requires a in Pad([], n)
    ensures n > 0 && RemoveFirst(Pad([], n), a) == Pad([], n - 1)
  {
    PadIs([], n);
    PushAndDrop(0, Pad([], n - 1));
  }

  lemma PushAndDrop(x: Address, s: seq<Address>)
    ensures ([x] + s)[0] == x && ([x] + s)[1..] == s
  {
  }

  lemma {:induction false} MissIsRecency(r: seq<Address>, n: nat, a: Address)
    requires n > 0 && a !in Pad(r, n)
    ensures Pad(r, n)[..n - 1] == Pad(Without(r, a), n - 1)
  {
    if n > 1 {
      var t := if r == [] then [] else r[1..];
      assert Pad(r, n) == [Pad(r, n)[0]] + Pad(t, n - 1);
      MissIsRecency(t, n - 1, a);
      assert Pad(r, n)[..n - 1] == [Pad(r, n)[0]] + Pad(t, n - 1)[..n - 2];
      if r != [] {
        assert r[0] == Pad(r, n)[0];
        assert Without(r, a)[1..] == Without(t, a);
      }
    }
  }

  /** The lines of an n-line array after a trace of accesses. */
  function Lines(n: nat, trace: seq<Address>): (s: seq<Address>)
    requires n > 0
    ensures |s| == n
  {
    if trace == [] then Pad([], n) else Touch(Lines(n, trace[..|trace| - 1]), trace[|trace| - 1])
  }

  lemma OneMoreAccess(n: nat, trace: seq<Address>, a: Address)
    requires n > 0
    ensures Lines(n, trace + [a]) == Touch(Lines(n, trace), a)
  {
    assert (trace + [a])[..|trace|] == trace;
  }

  lemma TouchIsRecency(trace: seq<Address>, r: seq<Address>, n: nat, a: Address)
    requires n > 0 && LatestFirst(trace, r)
    ensures Touch(Pad(r, n), a) == Pad([a] + Without(r, a), n)
  {
    if a in Pad(r, n) {
      RecencyOnce(trace, r, a);
      HitIsRecency(r, n, a);
    } else {
      MissIsRecency(r, n, a);
    }
    assert ([a] + Without(r, a))[1..] == Without(r, a);
  }

  /** After any trace the array holds exactly the n most recently used addresses, in order. */
  lemma {:induction false} LinesAreMostRecent(n: nat, trace: seq<Address>)
    requires n > 0
    ensures Lines(n, trace) == Pad(Recency(trace), n)
  {
    if trace != [] {
      var before, a := trace[..|trace| - 1], trace[|trace| - 1];
      LinesAreMostRecent(n, before);
      RecencyMeaning(before);
      TouchIsRecency(before, Recency(before), n, a);
    }
  }

  /** Inclusion: whatever a smaller array holds, a larger one holds too. */
  lemma LargerArrayHitsMore(n: nat, m: nat, trace: seq<Address>, a: Address)
    requires 0 < n <= m
    requires a in Lines(n, trace)
    ensures a in Lines(m, trace)
  {
    LinesAreMostRecent(n, trace);
    LinesAreMostRecent(m, trace);
    PadIs(Recency(trace), n);
    PadIs(Recency(trace), m);
    var i :| 0 <= i < n && Lines(n, trace)[i] == a;
    assert Lines(m, trace)[i] == a;
  }

  // ----- address 0, which is also how an unused line looks -----

  /** Of the n most recently used addresses. */
  ghost predicate MostRecent(n: nat, trace: seq<Address>, a: Address) { a in Front(n, Recency(trace)) }

  function Front(n: nat, s: seq<Address>): seq<Address> { if |s| <= n then s else s[..n] }

  /** No address is ever forgotten. */
  lemma RecencyGrows(trace: seq<Address>, a: Address)
    ensures |Recency(trace + [a])| == |Recency(trace)| + if a in trace then 0 else 1
  {
    RecencyMeaning(trace);
    RecencyOnce(trace, Recency(trace), a);
    assert (trace + [a])[..|trace|] == trace;
    WithoutLength(Recency(trace), a);
  }

  lemma {:induction false} WithoutLength(s: seq<Address>, a: Address)
    requires Once(s, a)
    ensures |Without(s, a)| == |s| - if a in s then 1 else 0
  {
    if s != [] {
      WithoutLength(s[1..], a);
      if s[0] == a {
        assert forall j :: 0 < j < |s| ==> s[j] != a;
        assert a !in s[1..];
      }
    }
  }

  /** What the lines show of an address: it is recent, or it is 0 and lines are unused. */
  lemma ShownIsRecent(n: nat, trace: seq<Address>, a: Address)
    requires n > 0
    ensures a in Lines(n, trace) <==> MostRecent(n, trace, a) || (a == 0 && |Recency(trace)| < n)
    ensures |Recency(trace)| >= n ==> Once(Lines(n, trace), a)
  {
    LinesAreMostRecent(n, trace);
    PadIs(Recency(trace), n);
    RecencyMeaning(trace);
    RecencyOnce(trace, Recency(trace), a);
    var top := Front(n, Recency(trace));
    assert forall i :: 0 <= i < |top| ==> Lines(n, trace)[i] == top[i];
    if a in Lines(n, trace) {
      var i :| 0 <= i < n && Lines(n, trace)[i] == a;
      assert i < |top| ==> top[i] == a;
    }
    if a == 0 && |Recency(trace)| < n { assert Lines(n, trace)[|Recency(trace)|] == 0; }
  }

  lemma {:induction false} PadPrefix(r: seq<Address>, n: nat)
    requires n > 0
    ensures Pad(r, n)[..n - 1] == Pad(r, n - 1)
  {
    PadIs(r, n);
    PadIs(r, n - 1);
  }

  /** An address that is not in use comes in at the back's expense, also if it is 0 and hits an unused line. */
  lemma MissedTouch(n: nat, trace: seq<Address>, a: Address)
    requires n > 0 && !MostRecent(n, trace, a) && (a == 0 ==> a !in trace || |Recency(trace)| >= n)
    ensures Touch(Lines(n, trace), a) == [a] + Lines(n, trace)[..n - 1]
  {
    ShownIsRecent(n, trace, a);
    if a in Lines(n, trace) {
      var r := Recency(trace);
      RecencyMeaning(trace);
      LinesAreMostRecent(n, trace);
      TouchIsRecency(trace, r, n, a);
      PadPrefix(r, n);
      PushAndDrop(a, r);
    }
  }

  lemma {:induction false} RemoveFirstKeeps(s: seq<Address>, a: Address, b: Address)
    requires a in s && b != a
    ensures b in RemoveFirst(s, a) <==> b in s
  {
    if s[0] != a { RemoveFirstKeeps(s[1..], a, b); }
  }

  /** Address 0 was not used before all other lines were, and is known exactly if one of the lines holds it. */
  ghost predicate ZeroOk(n: nat, trace: seq<Address>, known: bool) {
    (0 in trace ==> |Recency(trace)| >= n) && (known <==> 0 in trace && MostRecent(n, trace, 0))
  }

  /** Whether the map knows address 0, before and after an access. */
  ghost predicate ZeroStep(n: nat, trace: seq<Address>, a: Address, hit: bool, known: bool, known': bool)
    requires n > 0
  {
    known' <==> if hit then known else a == 0 || (known && Lines(n, trace)[n - 1] != 0)
  }

  lemma ZeroKnown(n: nat, trace: seq<Address>, a: Address, hit: bool, known: bool, known': bool)
    requires n > 0 && ZeroOk(n, trace, known) && (hit <==> MostRecent(n, trace, a))
    requires ZeroStep(n, trace, a, hit, known, known')
    ensures a != 0 || |Recency(trace + [a])| >= n ==> ZeroOk(n, trace + [a], known')
  {
    RecencyGrows(trace, a);
    RecencyMeaning(trace);
    assert (trace + [a])[..|trace|] == trace;
    assert a == 0 ==> Recency(trace + [a])[0] == 0;
    if a != 0 && 0 in trace { ZeroStays(n, trace, a); }
  }

  lemma ZeroStays(n: nat, trace: seq<Address>, a: Address)
    requires n > 0 && a != 0 && 0 in trace && |Recency(trace)| >= n
    ensures MostRecent(n, trace + [a], 0) <==>
            MostRecent(n, trace, 0) && (MostRecent(n, trace, a) || Lines(n, trace)[n - 1] != 0)
  {
    var s := Lines(n, trace);
    RecencyGrows(trace, a);
    OneMoreAccess(n, trace, a);
    ShownIsRecent(n, trace, a);
    ShownIsRecent(n, trace, 0);
    ShownIsRecent(n, trace + [a], 0);
    if a in s {
      RemoveFirstKeeps(s, a, 0);
    } else {
      assert s == s[..n - 1] + [s[n - 1]];
      if s[n - 1] == 0 { assert forall i :: 0 <= i < n - 1 ==> s[i] != 0; }
    }
  }

  lemma ZeroThenOther(n: nat, trace: seq<Address>, b: Address)
    requires 0 !in trace && b != 0 && b !in trace && |Recency(trace)| + 2 <= n
    ensures b !in Lines(n, trace + [0]) && MostRecent(n, trace + [0] + [b], 0)
    ensures Lines(n, trace + [0])[n - 1] == 0
  {
    var one, two := trace + [0], trace + [0] + [b];
    assert one[..|trace|] == trace && two[..|one|] == one;
    RecencyGrows(trace, 0);
    RecencyMeaning(one);
    ShownIsRecent(n, one, b);
    assert Recency(two)[1] == Recency(one)[0] == 0;
    LinesAreMostRecent(n, one);
    PadIs(Recency(one), n);
  }

  // ----- the array -----

  type Entry = Node<nat>  // the element is the constant line id

  /** The addresses of the entries on a list, in list order. */
  ghost function AddressesOf(ns: seq<Entry>, lineAddrs: seq<Address>): (s: seq<Address>)
    requires forall n :: n in ns ==> n.elem < |lineAddrs|
    ensures |s| == |ns|
    ensures forall i :: 0 <= i < |s| ==> s[i] == lineAddrs[ns[i].elem]
  {
    seq(|ns|, i requires 0 <= i < |ns| => lineAddrs[ns[i].elem])
  }

  class IdealLruArray {
    const numLines: nat
    var entries: seq<Entry>        // indexed by line
    var lineAddrs: seq<Address>    // the lineAddr of each entry, indexed by line
    var lruList: InList<nat>
    var lineMap: map<Address, nat>
    ghost var trace: seq<Address>  // the accesses so far

    ghost predicate Shape()
      reads `entries, `lineAddrs, `lineMap, `lruList, lruList, lruList.nodes
    {
      numLines > 0 && lruList.Valid() && Listed(lruList.nodes, entries, numLines) && Mapped()
    }

    /** The map finds exactly the lines in use. */
    ghost predicate Mapped()
      reads `lineAddrs, `lineMap
    {
      && |lineAddrs| == numLines
      && (forall a :: a in lineMap ==> lineMap[a] < numLines && lineAddrs[lineMap[a]] == a)
      && (forall i :: 0 <= i < numLines && lineAddrs[i] != 0 ==> lineAddrs[i] in lineMap && lineMap[lineAddrs[i]] == i)
    }

    ghost function Addresses(): (s: seq<Address>)
      reads `entries, `lineAddrs, `lineMap, `lruList, lruList, lruList.nodes
      requires Shape()
      ensures |s| == numLines
    {
      AddressesOf(lruList.nodes, lineAddrs)
    }

    /** The lines are those of true LRU, and the map is right about address 0. */
    ghost predicate Valid()
      reads this, lruList, lruList.nodes
    {
      Shape() && Addresses() == Lines(numLines, trace) && ZeroOk(numLines, trace, 0 in lineMap)
    }

    constructor (numLines: nat)
      requires numLines > 0
      ensures Valid() && trace == [] && this.numLines == numLines
      ensures fresh(lruList) && fresh(lruList.nodes)
    {
      this.numLines := numLines;
      entries, lineMap, trace := [], map[], [];
      lineAddrs := seq(numLines, i => 0);
      lruList := new InList<nat>();
      new;
      for i := 0 to numLines
        invariant lruList.Valid() && Listed(lruList.nodes, entries, i)
        invariant fresh(lruList) && fresh(lruList.nodes)
        invariant lineMap == map[] && trace == [] && lineAddrs == seq(numLines, i => 0)
      {
        var e := new Node<nat>(i);
        ghost var was, es := lruList.nodes, entries;
        lruList.PushFront(e);
        entries := entries + [e];
        OneMoreLine(was, es, i, e);
      }
      assert forall i :: 0 <= i < numLines ==> lineAddrs[i] == 0;
      assert forall i :: 0 <= i < numLines ==> Known(entries, lruList.nodes[i]);
      Unused(numLines, Addresses());
    }

    /** lruList.remove, then lruList.push_front. */
    method MoveToFront(lineId: nat) returns (ghost i: nat)
      requires Shape() && lineId < numLines
      modifies lruList, lruList.nodes
      ensures Shape() && i < numLines && old(lruList.nodes)[i] == entries[lineId]
      ensures lruList.nodes == ToFront(old(lruList.nodes), i)
    {
      ghost var was := lruList.nodes;
      assert InListAt(was, entries, lineId);
      lruList.Remove(entries[lineId]);
      i :| 0 <= i < |was| && was[i] == entries[lineId] && lruList.nodes == was[..i] + was[i + 1..];
      lruList.PushFront(entries[lineId]);
      assert lruList.nodes == ToFront(was, i);
      StillListed(was, entries, numLines, i);
    }

    method Lookup(lineAddr: Address, updateReplacement: bool) returns (lineId: int)
      requires Shape()
      modifies lruList, entries
      ensures Shape()
      ensures lineId == (if lineAddr in lineMap then lineMap[lineAddr] else -1)
      ensures lineAddr != 0 ==> (lineId >= 0 <==> lineAddr in old(Addresses()))
      ensures lineId >= 0 ==> lineId < numLines && lineAddrs[lineId] == lineAddr && lineAddr in old(Addresses())
      ensures lineId < 0 || !updateReplacement ==>
                lruList.nodes == old(lruList.nodes) && Addresses() == old(Addresses())
      ensures lineId >= 0 && updateReplacement && (lineAddr != 0 || Once(old(Addresses()), 0)) ==>
                Addresses() == Touch(old(Addresses()), lineAddr)
    {
      StoredIffMapped(lineAddr);
      if lineAddr !in lineMap { return -1; }
      lineId := lineMap[lineAddr];
      if updateReplacement {
        ghost var ns := lruList.nodes;
        if lineAddr != 0 || Once(Addresses(), 0) { HitsOnce(lineAddr); }
        assert InListAt(ns, entries, lineId);
        NodesAreEntries();
        var i := MoveToFront(lineId);
        if lineAddr != 0 || Once(AddressesOf(ns, lineAddrs), 0) { TouchHit(ns, lineAddrs, lineAddr, i); }
      }
    }

    /** The victim is the line at the back of the list. */
    method Preinsert(lineAddr: Address) returns (lineId: nat, wbLineAddr: Address)
      requires Shape()
      ensures lineId < numLines && entries[lineId] == lruList.nodes[numLines - 1]
      ensures wbLineAddr == lineAddrs[lineId] == Addresses()[numLines - 1]
    {
      var e := lruList.Back();
      assert Known(entries, e);
      return e.elem, lineAddrs[e.elem];
    }

    /** The victim gives up its address in the map, takes the new one, and moves to the front. */
    method Postinsert(lineAddr: Address, lineId: nat)
      requires Shape() && lineId < numLines && (lineAddr in lineMap ==> lineAddr == lineAddrs[lineId])
      requires entries[lineId] == lruList.nodes[numLines - 1]  // the victim that Preinsert chose
      modifies `lineMap, `lineAddrs, lruList, entries
      ensures Shape() && lineAddrs == old(lineAddrs)[lineId := lineAddr]
      ensures lineMap == (old(lineMap) - {old(lineAddrs)[lineId]})[lineAddr := lineId]
      ensures Addresses() == [lineAddr] + old(Addresses())[..numLines - 1]
    {
      ghost var ns, was := lruList.nodes, lineAddrs;
      assert InListAt(ns, entries, lineId);
      lineMap := lineMap - {lineAddrs[lineId]};
      assert lineAddr !in lineMap;
      lineAddrs := lineAddrs[lineId := lineAddr];
      lineMap := lineMap[lineAddr := lineId];
      NodesAreEntries();
      var i := MoveToFront(lineId);
      TouchMiss(ns, entries, was, lineAddr, lineId, i);
    }

    method Insert(lineAddr: Address)
      requires Shape() && lineAddr !in lineMap
      modifies `lineMap, `lineAddrs, lruList, entries
      ensures Shape()
      ensures Addresses() == [lineAddr] + old(Addresses())[..numLines - 1]
      ensures 0 in lineMap <==> lineAddr == 0 || (0 in old(lineMap) && old(Addresses())[numLines - 1] != 0)
    {
      var victim, wbLineAddr := Preinsert(lineAddr);
      Postinsert(lineAddr, victim);
    }

    /** The map and the list agree on what is stored, and no address is stored twice. */
    lemma StoredOnce(i: nat)
      requires Shape() && i < numLines
      ensures Addresses()[i] != 0 ==> Addresses()[i] in lineMap && Addresses()[i] !in Addresses()[..i]
    {
      var s := Addresses();
      assert Known(entries, lruList.nodes[i]);
      forall k | 0 <= k < i && s[i] != 0 ensures s[k] != s[i] {
        assert Known(entries, lruList.nodes[k]);
      }
    }

    lemma StoredIffMapped(a: Address)
      requires Shape()
      ensures a in lineMap ==> a in Addresses()
      ensures a != 0 && a in Addresses() ==> a in lineMap
    {
      if a in lineMap {
        assert InListAt(lruList.nodes, entries, lineMap[a]);
        var k :| 0 <= k < numLines && lruList.nodes[k] == entries[lineMap[a]];
        assert Addresses()[k] == a;
      }
      if a in Addresses() {
        var k :| 0 <= k < numLines && Addresses()[k] == a;
        StoredOnce(k);
      }
    }

    lemma HitsOnce(a: Address)
      requires Shape() && (a != 0 || Once(Addresses(), 0))
      ensures forall i :: 0 <= i < numLines && Addresses()[i] == a ==> a !in Addresses()[..i]
    {
      forall i | 0 <= i < numLines && Addresses()[i] == a ensures a !in Addresses()[..i] { StoredOnce(i); }
    }

    /** An access of the cache: look up, and on a miss insert. */
    method LookupOrInsert(a: Address) returns (hit: bool)
      requires Shape()
      modifies `trace, `lineMap, `lineAddrs, lruList, entries
      ensures Shape() && trace == old(trace) + [a] && (hit <==> a in old(lineMap))
      ensures hit ==> a in old(Addresses()) && (0 in lineMap <==> 0 in old(lineMap))
      ensures hit && (a != 0 || Once(old(Addresses()), 0)) ==> Addresses() == Touch(old(Addresses()), a)
      ensures !hit ==> Addresses() == [a] + old(Addresses())[..numLines - 1]
      ensures !hit ==> (0 in lineMap <==> a == 0 || (0 in old(lineMap) && old(Addresses())[numLines - 1] != 0))
    {
      var lineId := Lookup(a, true);
      hit := lineId >= 0;
      if !hit { Insert(a); }
      Record(a);
    }

    ghost method Record(a: Address)
      requires Shape()
      modifies `trace
      ensures Shape() && Addresses() == old(Addresses()) && trace == old(trace) + [a]
    {
      trace := trace + [a];
    }

    /** The same access, recorded: it hits exactly if the address is one of the most recently used, and
        the lines in use stay those of true LRU, unless it is address 0 while other lines are unused. */
    method Access(a: Address) returns (hit: bool)
      requires Valid()
      modifies `trace, `lineMap, `lineAddrs, lruList, entries
      ensures Shape() && trace == old(trace) + [a] && Addresses() == Lines(numLines, trace)
      ensures hit <==> MostRecent(numLines, old(trace), a)
      ensures a != 0 || |Recency(trace)| >= numLines ==> Valid()
    {
      ghost var known := 0 in lineMap;
      hit := Use(a);
      OneMoreAccess(numLines, old(trace), a);
      ZeroKnown(numLines, old(trace), a, hit, known, 0 in lineMap);
    }

    /** It moves or brings the address to the front. */
    method Use(a: Address) returns (hit: bool)
      requires Valid()
      modifies `trace, `lineMap, `lineAddrs, lruList, entries
      ensures Shape() && trace == old(trace) + [a] && (hit <==> MostRecent(numLines, old(trace), a))
      ensures Addresses() == Touch(Lines(numLines, old(trace)), a)
      ensures ZeroStep(numLines, old(trace), a, hit, 0 in old(lineMap), 0 in lineMap)
    {
      BeforeUse(a);
      hit := LookupOrInsert(a);
    }

    /** Looking up tells recent addresses from others, and true LRU agrees on what follows. */
    lemma BeforeUse(a: Address)
      requires Valid()
      ensures a in lineMap <==> MostRecent(numLines, trace, a)
      ensures a == 0 && a in lineMap ==> Once(Addresses(), 0)
      ensures a !in lineMap ==> Touch(Addresses(), a) == [a] + Addresses()[..numLines - 1]
    {
      StoredIffMapped(a);
      ShownIsRecent(numLines, trace, a);
      RecencyMeaning(trace);
      if !MostRecent(numLines, trace, a) { MissedTouch(numLines, trace, a); }
    }

    lemma NodesAreEntries()
      requires Shape()
      ensures forall k :: 0 <= k < |lruList.nodes| ==> lruList.nodes[k] in entries
    {
      forall k | 0 <= k < |lruList.nodes| ensures lruList.nodes[k] in entries {
        assert Known(entries, lruList.nodes[k]);
      }
    }

    /** That exception is real: address 0 is used while two lines are unused, then another address, and
        address 0 is no longer found though it is the one used before. */
    method ForgetZero(b: Address) returns (lineId: int)
      requires Valid() && 0 !in trace && b != 0 && b !in trace && |Recency(trace)| + 2 <= numLines
      modifies this, lruList, entries
      ensures Shape() && trace == old(trace) + [0] + [b] && lineId == -1
    {
      var hit := Access(0);
      AfterZero(old(trace), b);
      lineId := LoseZero(b);
    }

    /** The back is unused, so that its address 0 leaves the map. */
    method LoseZero(b: Address) returns (lineId: int)
      requires Shape() && b !in lineMap && b != 0 && Addresses()[numLines - 1] == 0
      modifies `trace, `lineMap, `lineAddrs, lruList, entries
      ensures Shape() && lineId == -1 && trace == old(trace) + [b]
    {
      var hit := LookupOrInsert(b);
      lineId := Lookup(0, false);
    }

    lemma AfterZero(before: seq<Address>, b: Address)
      requires Shape() && Addresses() == Lines(numLines, before + [0])
      requires 0 !in before && b != 0 && b !in before && |Recency(before)| + 2 <= numLines
      ensures b !in lineMap && Addresses()[numLines - 1] == 0
    {
      ZeroThenOther(numLines, before, b);
      StoredIffMapped(b);
    }
  }

  ghost predicate InListAt(ns: seq<Entry>, es: seq<Entry>, i: nat)
    requires i < |es|
  {
    es[i] in ns && es[i].elem == i
  }

  ghost predicate Known(es: seq<Entry>, n: Entry) { n.elem < |es| && es[n.elem] == n }

  /** The list holds exactly the n entries, each of which knows its line. */
  ghost predicate Listed(ns: seq<Entry>, es: seq<Entry>, n: nat) {
    && |es| == |ns| == n
    && (forall i :: 0 <= i < n ==> InListAt(ns, es, i))
    && (forall e :: e in ns ==> Known(es, e))
  }

  lemma OneMoreLine(ns: seq<Entry>, es: seq<Entry>, n: nat, e: Entry)
    requires Listed(ns, es, n) && e.elem == n
    ensures Listed([e] + ns, es + [e], n + 1)
  {
    forall i | 0 <= i < n + 1 ensures InListAt([e] + ns, es + [e], i) {
      if i < n { assert InListAt(ns, es, i); }
    }
    forall x | x in [e] + ns ensures Known(es + [e], x) {
      assert x == e || Known(es, x);
    }
  }

  function ToFront<T>(s: seq<T>, i: nat): (r: seq<T>)
    requires i < |s|
    ensures |r| == |s|
  {
    [s[i]] + (s[..i] + s[i + 1..])
  }

  lemma StillListed(ns: seq<Entry>, es: seq<Entry>, n: nat, i: nat)
    requires Listed(ns, es, n) && i < n
    ensures Listed(ToFront(ns, i), es, n)
  {
    forall e ensures e in ns <==> e in ToFront(ns, i) { SameMembers(ns, i, e); }
    forall k | 0 <= k < n ensures InListAt(ToFront(ns, i), es, k) { assert InListAt(ns, es, k); }
  }

  lemma SameMembers<T>(s: seq<T>, i: nat, e: T)
    requires i < |s|
    ensures e in s <==> e in ToFront(s, i)
  {
    assert s == s[..i] + [s[i]] + s[i + 1..];
    assert e in s <==> e in s[..i] || e == s[i] || e in s[i + 1..];
  }

  /** The addresses move with the entries. */
  lemma AddressesToFront(ns: seq<Entry>, lineAddrs: seq<Address>, i: nat)
    requires i < |ns| && forall n :: n in ns ==> n.elem < |lineAddrs|
    ensures forall n :: n in ToFront(ns, i) ==> n in ns
    ensures AddressesOf(ToFront(ns, i), lineAddrs) == ToFront(AddressesOf(ns, lineAddrs), i)
  {
    var s := AddressesOf(ns, lineAddrs);
    assert forall k :: 0 <= k < |ns| ==> ToFront(ns, i)[k] == ns[if k == 0 then i else if k <= i then k - 1 else k];
    assert forall k :: 0 <= k < |ns| ==> ToFront(s, i)[k] == s[if k == 0 then i else if k <= i then k - 1 else k];
  }

  lemma TouchHit(ns: seq<Entry>, lineAddrs: seq<Address>, a: Address, i: nat)
    requires i < |ns| && forall n :: n in ns ==> n.elem < |lineAddrs|
    requires AddressesOf(ns, lineAddrs)[i] == a && a !in AddressesOf(ns, lineAddrs)[..i]
    ensures forall n :: n in ToFront(ns, i) ==> n in ns
    ensures AddressesOf(ToFront(ns, i), lineAddrs) == Touch(AddressesOf(ns, lineAddrs), a)
  {
    var s := AddressesOf(ns, lineAddrs);
    AddressesToFront(ns, lineAddrs, i);
    RemoveFirstSplit(s[..i], a, s[i + 1..]);
    assert s == s[..i] + [a] + s[i + 1..];
  }

  lemma TouchMiss(ns: seq<Entry>, es: seq<Entry>, lineAddrs: seq<Address>, a: Address, lineId: nat, i: nat)
    requires 0 < |es| == |lineAddrs| && Listed(ns, es, |es|) && NoRepeats(ns)
    requires lineId < |es| && i < |ns| && es[lineId] == ns[|ns| - 1] == ns[i]
    ensures forall n :: n in ToFront(ns, i) ==> n in ns && Known(es, n)
    ensures AddressesOf(ToFront(ns, i), lineAddrs[lineId := a]) == [a] + AddressesOf(ns, lineAddrs)[..|ns| - 1]
  {
    assert i == |ns| - 1;
    assert InListAt(ns, es, lineId);
    var lineAddrs' := lineAddrs[lineId := a];
    AddressesToFront(ns, lineAddrs', i);
    forall k | 0 <= k < i ensures AddressesOf(ns, lineAddrs')[k] == AddressesOf(ns, lineAddrs)[k] {
      assert Known(es, ns[k]);
    }
  }
}
