/** The zcache array of zsim/src/cache_arrays.cpp.  A line may live at one position per way; to
    make room, a breadth-first walk looks for lines that could move, and a chain of relocations
    frees a position for the new line.  Seen from outside it is a plain associative map. */
module ZArray {
  import opened Counting

  type Address = nat

  /** The fixed shape: `hash(w, a)` is any family of hash functions. */
  datatype Geometry = Geometry(ways: nat, numSets: nat, hash: (nat, Address) -> nat) {
    predicate Valid() { ways > 1 && numSets > 0 }

    function NumLines(): nat { ways * numSets }

    /** The position of address a in way w; numSets is a power of two, so masking is the remainder. */
    function Pos(w: nat, a: Address): nat
      requires Valid()
    {
      w * numSets + hash(w, a) % numSets
    }

    /** The position is in the way's own part of the table, at the address's set. */
    lemma PosMeaning(w: nat, a: Address)
      requires Valid()
      ensures Pos(w, a) / numSets == w && Pos(w, a) % numSets == hash(w, a) % numSets
    {
      var p := Pos(w, a);
      assert p == p / numSets * numSets + p % numSets;
      if p / numSets < w {
        MulMono(p / numSets + 1, w, numSets);
      } else if p / numSets > w {
        MulMono(w + 1, p / numSets, numSets);
      }
    }

    lemma PosBounds(w: nat, a: Address)
      requires Valid() && w < ways
      ensures Pos(w, a) < NumLines()
    {
      assert (w + 1) * numSets <= ways * numSets by { MulMono(w + 1, ways, numSets); }
    }

    lemma PosWay(w: nat, a: Address, v: nat, b: Address)
      requires Valid() && Pos(w, a) == Pos(v, b)
      ensures w == v
    {
      if w < v {
        MulMono(w + 1, v, numSets);
      } else if v < w {
        MulMono(v + 1, w, numSets);
      }
    }
  }

  // ----- the two tables: position -> line (lk), line -> address (ad) -----

  ghost predicate Permutation(g: Geometry, lk: seq<nat>) {
    && |lk| == g.NumLines()
    && (forall p :: 0 <= p < |lk| ==> lk[p] < |lk|)
    && Counting.Distinct(lk)
  }

  ghost predicate AtOwnPosition(g: Geometry, p: nat, a: Address)
    requires g.Valid()
  {
    exists w :: 0 <= w < g.ways && p == g.Pos(w, a)
  }

  ghost predicate NoDuplicates(ad: seq<Address>) {
    forall i, j :: 0 <= i < j < |ad| && ad[i] != 0 ==> ad[i] != ad[j]
  }

  ghost predicate Tables(g: Geometry, lk: seq<nat>, ad: seq<Address>) {
    && g.Valid()
    && Permutation(g, lk)
    && |ad| == g.NumLines()
    && NoDuplicates(ad)
    && (forall p :: 0 <= p < |lk| && ad[lk[p]] != 0 ==> AtOwnPosition(g, p, ad[lk[p]]))
  }

  /** What the array stores: address -> line. */
  ghost function Contents(ad: seq<Address>): map<Address, nat>
    requires NoDuplicates(ad)
  {
    map a | a in ad && a != 0 :: LineOf(ad, a)
  }

  ghost function LineOf(ad: seq<Address>, a: Address): (i: nat)
    requires a in ad
    ensures i < |ad| && ad[i] == a
  {
    var i :| 0 <= i < |ad| && ad[i] == a;
    i
  }

  lemma ContentsAt(ad: seq<Address>, i: nat)
    requires NoDuplicates(ad) && i < |ad| && ad[i] != 0
    ensures ad[i] in Contents(ad) && Contents(ad)[ad[i]] == i
  {
    assert ad[i] in ad;
  }

  /** A permutation has no gaps: every line is somewhere. */
  lemma LineIsSomewhere(g: Geometry, lk: seq<nat>, line: nat) returns (p: nat)
    requires Permutation(g, lk) && line < |lk|
    ensures p < |lk| && lk[p] == line
  {
    if forall q :: 0 <= q < |lk| ==> lk[q] != line {
      DistinctWithGap(lk, |lk|, line);
      assert false;
    }
    p :| 0 <= p < |lk| && lk[p] == line;
  }

  lemma StoredIsReachable(g: Geometry, lk: seq<nat>, ad: seq<Address>, a: Address)
    requires Tables(g, lk, ad) && a in Contents(ad)
    ensures exists w :: 0 <= w < g.ways && g.Pos(w, a) < |lk| && ad[lk[g.Pos(w, a)]] == a
  {
    var p := LineIsSomewhere(g, lk, LineOf(ad, a));
    assert AtOwnPosition(g, p, a);
    var w :| 0 <= w < g.ways && p == g.Pos(w, a);
  }

  // ----- the walk -----

  /** A candidate for replacement; parentIdx is -1 for the positions of the new line itself. */
  datatype ZWalkInfo = ZWalkInfo(pos: nat, lineId: nat, parentIdx: int)

  ghost predicate Seed(g: Geometry, lk: seq<nat>, newAddr: Address, c: ZWalkInfo)
    requires g.Valid()
  {
    c.parentIdx == -1 && c.pos < |lk| && c.lineId == lk[c.pos] && AtOwnPosition(g, c.pos, newAddr)
  }

  /** The first candidates are the positions of the new address, way by way. */
  ghost predicate AllSeeds(g: Geometry, newAddr: Address, cs: seq<ZWalkInfo>) {
    g.Valid() && g.ways <= |cs| && forall w :: 0 <= w < g.ways ==> InWay(g, newAddr, cs[w], w)
  }

  ghost predicate InWay(g: Geometry, newAddr: Address, c: ZWalkInfo, w: nat)
    requires g.Valid() && w < g.ways
  {
    c.pos == g.Pos(w, newAddr)
  }

  /** c is a position that the line of candidate f could move to. */
  ghost predicate Child(g: Geometry, lk: seq<nat>, ad: seq<Address>, f: ZWalkInfo, c: ZWalkInfo)
    requires g.Valid()
  {
    && c.pos < |lk| && c.lineId == lk[c.pos] && c.lineId != f.lineId
    && f.lineId < |ad| && ad[f.lineId] != 0 && AtOwnPosition(g, c.pos, ad[f.lineId])
  }

  ghost predicate Candidate(g: Geometry, lk: seq<nat>, ad: seq<Address>, newAddr: Address, cs: seq<ZWalkInfo>, k: nat)
    requires g.Valid() && k < |cs|
  {
    var c := cs[k];
    if k < g.ways then Seed(g, lk, newAddr, c)
    else 0 <= c.parentIdx <= k - g.ways && Child(g, lk, ad, cs[c.parentIdx], c)
  }

  /** Candidate f offers position p, other than its own line's, and it is among the candidates. */
  ghost predicate Offered(cs: seq<ZWalkInfo>, f: nat, p: nat) {
    exists k :: 0 <= k < |cs| && cs[k].parentIdx == f && cs[k].pos == p
  }

  /** Every position that candidate f's line could move to has been offered. */
  ghost predicate Expanded(g: Geometry, lk: seq<nat>, ad: seq<Address>, cs: seq<ZWalkInfo>, f: nat)
    requires g.Valid() && f < |cs|
  {
    forall p :: 0 <= p < |lk| && cs[f].lineId < |ad| && AtOwnPosition(g, p, ad[cs[f].lineId]) && lk[p] != cs[f].lineId
      ==> Offered(cs, f, p)
  }

  ghost predicate BreadthFirst(cs: seq<ZWalkInfo>) {
    forall j, k :: 0 <= j <= k < |cs| ==> cs[j].parentIdx <= cs[k].parentIdx
  }

  /** The candidates after expanding the first `fringe` of them. */
  ghost predicate Walk(g: Geometry, lk: seq<nat>, ad: seq<Address>, newAddr: Address, cs: seq<ZWalkInfo>, fringe: nat) {
    && g.Valid() && g.ways <= |cs| && fringe < |cs|
    && (forall k :: 0 <= k < |cs| ==> Candidate(g, lk, ad, newAddr, cs, k))
    && (forall k :: 0 <= k < |cs| ==> cs[k].parentIdx < fringe)
    && BreadthFirst(cs)
    && (forall f :: 0 <= f < fringe ==> Expanded(g, lk, ad, cs, f))
  }

  /** No earlier candidate is the same line. */
  ghost predicate First(cs: seq<ZWalkInfo>, k: int)
    requires 0 <= k < |cs|
  {
    forall j :: 0 <= j < k ==> cs[j].lineId != cs[k].lineId
  }

  /** An earlier duplicate of the parent has offered the same line earlier. */
  lemma EarlierOffer(g: Geometry, lk: seq<nat>, ad: seq<Address>, newAddr: Address, cs: seq<ZWalkInfo>, fringe: nat,
                     j: nat, k: nat) returns (q: nat)
    requires Walk(g, lk, ad, newAddr, cs, fringe) && g.ways <= k < |cs|
    requires j < cs[k].parentIdx && cs[k].parentIdx < |cs| && cs[j].lineId == cs[cs[k].parentIdx].lineId
    ensures q < k && cs[q].lineId == cs[k].lineId
  {
    assert Candidate(g, lk, ad, newAddr, cs, k);
    assert Expanded(g, lk, ad, cs, j);
    assert Offered(cs, j, cs[k].pos);
    q :| 0 <= q < |cs| && cs[q].parentIdx == j && cs[q].pos == cs[k].pos;
    assert Candidate(g, lk, ad, newAddr, cs, q);
    EarlierParent(cs, q, k);
  }

  lemma EarlierParent(cs: seq<ZWalkInfo>, q: nat, k: nat)
    requires BreadthFirst(cs) && q < |cs| && k < |cs| && cs[q].parentIdx < cs[k].parentIdx
    ensures q < k
  {
  }

  lemma ParentIsFirst(g: Geometry, lk: seq<nat>, ad: seq<Address>, newAddr: Address, cs: seq<ZWalkInfo>, fringe: nat,
                      k: nat)
    requires Walk(g, lk, ad, newAddr, cs, fringe) && g.ways <= k < |cs| && First(cs, k)
    ensures 0 <= cs[k].parentIdx < k && First(cs, cs[k].parentIdx)
  {
    assert Candidate(g, lk, ad, newAddr, cs, k);
    var f := cs[k].parentIdx;
    forall j | 0 <= j < f ensures cs[j].lineId != cs[f].lineId {
      if cs[j].lineId == cs[f].lineId {
        var q := EarlierOffer(g, lk, ad, newAddr, cs, fringe, j, k);
      }
    }
  }

  ghost predicate Stored(ad: seq<Address>, line: nat) { line < |ad| && ad[line] != 0 }

  lemma WalkBounds(g: Geometry, lk: seq<nat>, ad: seq<Address>, newAddr: Address, cs: seq<ZWalkInfo>, k: nat)
    requires Permutation(g, lk) && g.Valid() && k < |cs| && Candidate(g, lk, ad, newAddr, cs, k)
    ensures cs[k].pos < |lk| && cs[k].lineId == lk[cs[k].pos] < |lk| && cs[k].parentIdx < k
  {
  }

  /** The candidates while candidate `fringe` is being expanded: ways below w are done. */
  ghost predicate Expanding(g: Geometry, lk: seq<nat>, ad: seq<Address>, newAddr: Address, cs: seq<ZWalkInfo>,
                            fringe: nat, w: nat) {
    && g.Valid() && g.ways <= |cs| && fringe + g.ways <= |cs| && w <= g.ways
    && (forall k :: 0 <= k < |cs| ==> Candidate(g, lk, ad, newAddr, cs, k))
    && (forall k :: 0 <= k < |cs| ==> cs[k].parentIdx <= fringe)
    && BreadthFirst(cs)
    && (forall f :: 0 <= f < fringe ==> Expanded(g, lk, ad, cs, f))
    && cs[fringe].lineId < |ad| && ad[cs[fringe].lineId] != 0
    && (forall v :: 0 <= v < w ==> WayDone(g, lk, ad, cs, fringe, v))
  }

  ghost predicate WayDone(g: Geometry, lk: seq<nat>, ad: seq<Address>, cs: seq<ZWalkInfo>, fringe: nat, v: nat)
    requires g.Valid() && fringe < |cs| && cs[fringe].lineId < |ad|
  {
    var p := g.Pos(v, ad[cs[fringe].lineId]);
    p < |lk| && (lk[p] != cs[fringe].lineId ==> Offered(cs, fringe, p))
  }

  lemma OfferedStays(cs: seq<ZWalkInfo>, c: ZWalkInfo, f: nat, p: nat)
    requires Offered(cs, f, p)
    ensures Offered(cs + [c], f, p)
  {
    var k :| 0 <= k < |cs| && cs[k].parentIdx == f && cs[k].pos == p;
    assert (cs + [c])[k] == cs[k];
  }

  lemma CandidatesStay(g: Geometry, lk: seq<nat>, ad: seq<Address>, newAddr: Address, cs: seq<ZWalkInfo>, c: ZWalkInfo)
    requires g.Valid() && forall k :: 0 <= k < |cs| ==> Candidate(g, lk, ad, newAddr, cs, k)
    ensures forall k :: 0 <= k < |cs| ==> Candidate(g, lk, ad, newAddr, cs + [c], k)
  {
    forall k | 0 <= k < |cs| ensures Candidate(g, lk, ad, newAddr, cs + [c], k) {
      assert Candidate(g, lk, ad, newAddr, cs, k);
    }
  }

  lemma ExpandedStays(g: Geometry, lk: seq<nat>, ad: seq<Address>, cs: seq<ZWalkInfo>, c: ZWalkInfo, f: nat)
    requires g.Valid() && f < |cs| && Expanded(g, lk, ad, cs, f)
    ensures Expanded(g, lk, ad, cs + [c], f)
  {
    var cs' := cs + [c];
    forall p | 0 <= p < |lk| && cs'[f].lineId < |ad| && AtOwnPosition(g, p, ad[cs'[f].lineId]) && lk[p] != cs'[f].lineId
      ensures Offered(cs', f, p)
    {
      OfferedStays(cs, c, f, p);
    }
  }

  lemma AppendOffer(g: Geometry, lk: seq<nat>, ad: seq<Address>, newAddr: Address, cs: seq<ZWalkInfo>, fringe: nat,
                    w: nat)
    requires Expanding(g, lk, ad, newAddr, cs, fringe, w) && w < g.ways
    requires |lk| == g.NumLines()
    requires var p := g.Pos(w, ad[cs[fringe].lineId]); p < |lk| && lk[p] != cs[fringe].lineId
    ensures var p := g.Pos(w, ad[cs[fringe].lineId]);
            Expanding(g, lk, ad, newAddr, cs + [ZWalkInfo(p, lk[p], fringe)], fringe, w + 1)
  {
    var p := g.Pos(w, ad[cs[fringe].lineId]);
    var c := ZWalkInfo(p, lk[p], fringe);
    var cs' := cs + [c];
    CandidatesStay(g, lk, ad, newAddr, cs, c);
    assert AtOwnPosition(g, p, ad[cs[fringe].lineId]);
    assert Candidate(g, lk, ad, newAddr, cs', |cs|);
    forall f | 0 <= f < fringe ensures Expanded(g, lk, ad, cs', f) { ExpandedStays(g, lk, ad, cs, c, f); }
    forall v | 0 <= v < w + 1 ensures WayDone(g, lk, ad, cs', fringe, v) {
      if v < w {
        assert WayDone(g, lk, ad, cs, fringe, v);
        var q := g.Pos(v, ad[cs[fringe].lineId]);
        if lk[q] != cs[fringe].lineId { OfferedStays(cs, c, fringe, q); }
      } else {
        assert cs'[|cs|] == c;
      }
    }
  }

  /** The candidates after looking at one more way of candidate `fringe`. */
  ghost function Offering(g: Geometry, lk: seq<nat>, ad: seq<Address>, cs: seq<ZWalkInfo>, fringe: nat,
                          w: nat): seq<ZWalkInfo>
    requires g.Valid() && fringe < |cs| && cs[fringe].lineId < |ad| && g.Pos(w, ad[cs[fringe].lineId]) < |lk|
  {
    var p := g.Pos(w, ad[cs[fringe].lineId]);
    if lk[p] != cs[fringe].lineId then cs + [ZWalkInfo(p, lk[p], fringe)] else cs
  }

  lemma OfferStep(g: Geometry, lk: seq<nat>, ad: seq<Address>, newAddr: Address, cs: seq<ZWalkInfo>, fringe: nat,
                  w: nat)
    requires Tables(g, lk, ad) && Expanding(g, lk, ad, newAddr, cs, fringe, w) && w < g.ways
    ensures cs[fringe].pos < |lk| && cs[fringe].lineId == lk[cs[fringe].pos] && g.Pos(w, ad[cs[fringe].lineId]) < |lk|
    ensures Expanding(g, lk, ad, newAddr, Offering(g, lk, ad, cs, fringe, w), fringe, w + 1)
  {
    WalkBounds(g, lk, ad, newAddr, cs, fringe);
    g.PosBounds(w, ad[cs[fringe].lineId]);
    if lk[g.Pos(w, ad[cs[fringe].lineId])] != cs[fringe].lineId {
      AppendOffer(g, lk, ad, newAddr, cs, fringe, w);
    } else {
      assert WayDone(g, lk, ad, cs, fringe, w);
    }
  }

  lemma ExpansionDone(g: Geometry, lk: seq<nat>, ad: seq<Address>, newAddr: Address, cs: seq<ZWalkInfo>, fringe: nat)
    requires Expanding(g, lk, ad, newAddr, cs, fringe, g.ways) && fringe + 1 < |cs|
    ensures Walk(g, lk, ad, newAddr, cs, fringe + 1)
  {
    forall p | 0 <= p < |lk| && AtOwnPosition(g, p, ad[cs[fringe].lineId]) && lk[p] != cs[fringe].lineId
      ensures Offered(cs, fringe, p)
    {
      var v :| 0 <= v < g.ways && p == g.Pos(v, ad[cs[fringe].lineId]);
      assert WayDone(g, lk, ad, cs, fringe, v);
    }
  }

  // ----- the relocation chain -----

  /** The positions from candidate k back to a seed, in the order of swapArray. */
  ghost function Path(cs: seq<ZWalkInfo>, k: int): seq<nat>
    requires k < |cs|
    requires forall i :: 0 <= i < |cs| ==> cs[i].parentIdx < i
    decreases k
  {
    if k < 0 then [] else [cs[k].pos] + Path(cs, cs[k].parentIdx)
  }

  /** The line at position `from` may move to position `to`. */
  ghost predicate Shift(g: Geometry, lk: seq<nat>, ad: seq<Address>, to: nat, from: nat)
    requires g.Valid() && from < |lk| && lk[from] < |ad|
  {
    ad[lk[from]] != 0 && AtOwnPosition(g, to, ad[lk[from]])
  }

  /** sw is a chain of positions along which lines can shift to make room for newAddr. */
  ghost predicate Chain(g: Geometry, lk: seq<nat>, ad: seq<Address>, newAddr: Address, sw: seq<nat>) {
    && g.Valid() && |sw| > 0
    && (forall i :: 0 <= i < |sw| ==> sw[i] < |lk| && lk[sw[i]] < |ad|)
    && (forall i, j :: 0 <= i < j < |sw| ==> lk[sw[i]] != lk[sw[j]])
    && (forall i :: 0 <= i < |sw| - 1 ==> Shift(g, lk, ad, sw[i], sw[i + 1]))
    && AtOwnPosition(g, sw[|sw| - 1], newAddr)
  }

  ghost predicate Meets(lk: seq<nat>, sw: seq<nat>, line: nat) {
    exists i :: 0 <= i < |sw| && sw[i] < |lk| && lk[sw[i]] == line
  }

  lemma ExtendChain(g: Geometry, lk: seq<nat>, ad: seq<Address>, newAddr: Address, p: nat, sw: seq<nat>)
    requires Chain(g, lk, ad, newAddr, sw) && p < |lk| && lk[p] < |ad|
    requires Shift(g, lk, ad, p, sw[0]) && !Meets(lk, sw, lk[p])
    ensures Chain(g, lk, ad, newAddr, [p] + sw)
  {
    var sw' := [p] + sw;
    assert forall i :: 0 <= i < |sw| ==> lk[sw[i]] != lk[p];
    forall i | 0 <= i < |sw'| - 1 ensures Shift(g, lk, ad, sw'[i], sw'[i + 1]) {
      if i > 0 { assert Shift(g, lk, ad, sw[i - 1], sw[i - 1 + 1]); }
    }
  }

  /** Because the walk starts from the first candidate for its line, its path never meets the
      same line twice. */
  lemma {:induction false} PathIsChain(g: Geometry, lk: seq<nat>, ad: seq<Address>, newAddr: Address,
                                       cs: seq<ZWalkInfo>, fringe: nat, k: nat)
    requires Permutation(g, lk) && |ad| == |lk|
    requires Walk(g, lk, ad, newAddr, cs, fringe) && k < |cs| && First(cs, k)
    requires forall i :: 0 <= i < |cs| ==> cs[i].parentIdx < i
    ensures Chain(g, lk, ad, newAddr, Path(cs, k)) && Path(cs, k)[0] == cs[k].pos
    ensures forall line :: Meets(lk, Path(cs, k), line) ==> exists j :: 0 <= j <= k && cs[j].lineId == line
    decreases k
  {
    assert Candidate(g, lk, ad, newAddr, cs, k);
    if k < g.ways {
      assert Path(cs, k) == [cs[k].pos];
    } else {
      var f := cs[k].parentIdx;
      ParentIsFirst(g, lk, ad, newAddr, cs, fringe, k);
      PathIsChain(g, lk, ad, newAddr, cs, fringe, f);
      assert Candidate(g, lk, ad, newAddr, cs, f);
      ExtendChain(g, lk, ad, newAddr, cs[k].pos, Path(cs, f));
      MeetsCons(lk, cs[k].pos, Path(cs, f));
    }
  }

  lemma MeetsCons(lk: seq<nat>, p: nat, sw: seq<nat>)
    requires p < |lk|
    ensures forall line :: Meets(lk, [p] + sw, line) ==> line == lk[p] || Meets(lk, sw, line)
  {
    forall line | Meets(lk, [p] + sw, line) ensures line == lk[p] || Meets(lk, sw, line) {
      var i :| 0 <= i < |[p] + sw| && ([p] + sw)[i] < |lk| && lk[([p] + sw)[i]] == line;
      if i > 0 { assert sw[i - 1] == ([p] + sw)[i]; }
    }
  }

  // ----- shifting lines along the chain -----

  /** lookupArray after the relocations of the chain sw and the insertion at its end. */
  ghost predicate Relocated(lk: seq<nat>, lk': seq<nat>, sw: seq<nat>) {
    && |sw| > 0 && |lk'| == |lk|
    && (forall i :: 0 <= i < |sw| ==> sw[i] < |lk|)
    && (forall p :: 0 <= p < |lk| && p !in sw ==> lk'[p] == lk[p])
    && (forall i :: 0 <= i < |sw| - 1 ==> lk'[sw[i]] == lk[sw[i + 1]])
    && lk'[sw[|sw| - 1]] == lk[sw[0]]
  }

  /** The lines before place i of the chain have been shifted. */
  ghost predicate Shifted(lk: seq<nat>, lk': seq<nat>, sw: seq<nat>, i: nat) {
    && i <= |sw| && |lk'| == |lk|
    && (forall k :: 0 <= k < |sw| ==> sw[k] < |lk|)
    && (forall p :: 0 <= p < |lk| && p !in sw[..i] ==> lk'[p] == lk[p])
    && (forall k :: 0 <= k < i && k < |sw| - 1 ==> lk'[sw[k]] == lk[sw[k + 1]])
  }

  lemma ShiftStep(lk: seq<nat>, lk': seq<nat>, sw: seq<nat>, i: nat, line: nat)
    requires Shifted(lk, lk', sw, i) && i < |sw| && Distinct(sw)
    requires i < |sw| - 1 ==> line == lk[sw[i + 1]]
    ensures i < |sw| - 1 ==> lk'[sw[i + 1]] == lk[sw[i + 1]]
    ensures Shifted(lk, lk'[sw[i] := line], sw, i + 1)
  {
    assert sw[..i + 1] == sw[..i] + [sw[i]];
    assert i < |sw| - 1 ==> sw[i + 1] !in sw[..i];
    forall k | 0 <= k < i ensures sw[k] != sw[i] {}
  }

  /** Where the line now at position p was before. */
  ghost function CameFrom(sw: seq<nat>, p: nat): (q: nat)
    requires |sw| > 0
    ensures p in sw ==> q in sw
    ensures p !in sw ==> q == p
  {
    if p in sw then
      var i :| 0 <= i < |sw| && sw[i] == p;
      if i < |sw| - 1 then sw[i + 1] else sw[0]
    else p
  }

  lemma RelocatedFrom(lk: seq<nat>, lk': seq<nat>, sw: seq<nat>, p: nat)
    requires Relocated(lk, lk', sw) && p < |lk|
    requires forall i, j :: 0 <= i < j < |sw| ==> sw[i] != sw[j]
    ensures CameFrom(sw, p) < |lk| && lk'[p] == lk[CameFrom(sw, p)]
    ensures forall i :: 0 <= i < |sw| && sw[i] == p ==> CameFrom(sw, p) == (if i < |sw| - 1 then sw[i + 1] else sw[0])
  {
  }

  /** The relocations are a rotation of distinct positions: still a permutation. */
  lemma RelocationIsPermutation(g: Geometry, lk: seq<nat>, lk': seq<nat>, sw: seq<nat>)
    requires Permutation(g, lk) && Relocated(lk, lk', sw)
    requires forall i, j :: 0 <= i < j < |sw| ==> sw[i] != sw[j]
    ensures Permutation(g, lk')
  {
    forall p, q | 0 <= p < q < |lk'| ensures lk'[p] != lk'[q] {
      RelocatedFrom(lk, lk', sw, p);
      RelocatedFrom(lk, lk', sw, q);
      if p in sw && q in sw {
        var i :| 0 <= i < |sw| && sw[i] == p;
        var j :| 0 <= j < |sw| && sw[j] == q;
        assert i != j;
      }
    }
    forall p | 0 <= p < |lk'| ensures lk'[p] < |lk'| {
      RelocatedFrom(lk, lk', sw, p);
    }
  }

  /** Insertion keeps the tables consistent. */
  lemma InsertKeepsTables(g: Geometry, lk: seq<nat>, lk': seq<nat>, ad: seq<Address>, sw: seq<nat>, newAddr: Address)
    requires Tables(g, lk, ad) && Chain(g, lk, ad, newAddr, sw) && Relocated(lk, lk', sw)
    requires newAddr != 0 && newAddr !in ad
    ensures Tables(g, lk', ad[lk[sw[0]] := newAddr])
  {
    var ad' := ad[lk[sw[0]] := newAddr];
    RelocationIsPermutation(g, lk, lk', sw);
    forall p | 0 <= p < |lk'| && ad'[lk'[p]] != 0 ensures AtOwnPosition(g, p, ad'[lk'[p]]) {
      RelocatedFrom(lk, lk', sw, p);
      if p in sw {
        var i :| 0 <= i < |sw| && sw[i] == p;
        if i < |sw| - 1 {
          assert Shift(g, lk, ad, sw[i], sw[i + 1]);
          assert lk[sw[i + 1]] != lk[sw[0]];
        }
      } else {
        assert lk[p] != lk[sw[0]] by { assert p != sw[0]; }
      }
    }
  }

  /** Seen as a map: the victim's address goes, the new one comes, nothing else changes. */
  lemma InsertChangesOneLine(ad: seq<Address>, victim: nat, newAddr: Address)
    requires NoDuplicates(ad) && victim < |ad| && newAddr != 0 && newAddr !in ad
    ensures NoDuplicates(ad[victim := newAddr])
    ensures Contents(ad[victim := newAddr]) == (Contents(ad) - {ad[victim]})[newAddr := victim]
  {
    var ad' := ad[victim := newAddr];
    assert NoDuplicates(ad');
    var want := (Contents(ad) - {ad[victim]})[newAddr := victim];
    forall a ensures a in Contents(ad') <==> a in want {
      if a in ad && a != 0 && a != ad[victim] {
        var i := LineOf(ad, a);
        assert ad'[i] == a;
      }
      if a in ad' && a != newAddr {
        var i := LineOf(ad', a);
        assert ad[i] == a && i != victim;
      }
      assert ad'[victim] == newAddr;
    }
    forall a | a in want ensures Contents(ad')[a] == want[a] {
      if a == newAddr {
        ContentsAt(ad', victim);
      } else {
        var i := LineOf(ad, a);
        ContentsAt(ad', i);
        ContentsAt(ad, i);
      }
    }
  }

  // ----- the array -----

  class Array {
    const g: Geometry
    const cands: nat
    var array_: array<Address>        // line -> address
    var lookupArray: array<nat>       // position -> line
    var swapArray: array<nat>         // positions, set by Preinsert and used by Postinsert
    var swapArrayLen: nat
    var lastCandIdx: nat

    ghost predicate Valid()
      reads this, array_, lookupArray
    {
      && Tables(g, lookupArray[..], array_[..])
      && cands >= g.ways
      && swapArray.Length == cands / g.ways + 2
      && array_ != lookupArray && array_ != swapArray && lookupArray != swapArray
    }

    ghost function Map(): map<Address, nat>
      reads this, array_, lookupArray
      requires Valid()
    {
      Contents(array_[..])
    }

    /** Preinsert has found `candidate` for lineAddr and left the way to it in swapArray. */
    ghost predicate Prepared(lineAddr: Address, candidate: nat)
      reads this, array_, lookupArray, swapArray
    {
      && Valid() && 0 < swapArrayLen <= swapArray.Length
      && Chain(g, lookupArray[..], array_[..], lineAddr, swapArray[..swapArrayLen])
      && lookupArray[swapArray[0]] == candidate
    }

    constructor (ways: nat, numSets: nat, cands: nat, hash: (nat, Address) -> nat)
      requires ways > 1 && cands >= ways && numSets > 0
      ensures Valid() && Map() == map[] && g == Geometry(ways, numSets, hash) && this.cands == cands
      ensures fresh(array_) && fresh(lookupArray) && fresh(swapArray)
    {
      g, this.cands := Geometry(ways, numSets, hash), cands;
      array_ := new Address[ways * numSets](i => 0);
      lookupArray := new nat[ways * numSets](i => i);  // a linear mapping, scrambled by the swaps
      swapArray := new nat[cands / ways + 2](i => 0);
      swapArrayLen, lastCandIdx := 0, 0;
    }

    /** The array is a map: lookup finds a stored address at its line, and nothing else. */
    method Lookup(lineAddr: Address) returns (lineId: int)
      requires Valid() && lineAddr != 0  // the source panics on address 0
      ensures lineAddr in Map() ==> lineId == Map()[lineAddr]
      ensures lineAddr !in Map() ==> lineId == -1
    {
      ghost var lk, ad := lookupArray[..], array_[..];
      for w := 0 to g.ways
        invariant forall v :: 0 <= v < w ==> g.Pos(v, lineAddr) < |lk| && ad[lk[g.Pos(v, lineAddr)]] != lineAddr
      {
        g.PosBounds(w, lineAddr);
        var line := lookupArray[g.Pos(w, lineAddr)];
        if array_[line] == lineAddr {
          ContentsAt(ad, line);
          return line;
        }
      }
      if lineAddr in Contents(ad) { StoredIsReachable(g, lk, ad, lineAddr); }
      return -1;
    }

    /** One way of an expansion: write the candidate, and keep it unless it is the line itself. */
    method Offer(candidates: array<ZWalkInfo>, fringeStart: nat, fringeId: nat, w: nat, numCandidates: nat,
                 ghost lineAddr: Address, ghost own: nat) returns (n: nat, valid: bool)
      requires Valid() && w < g.ways && fringeStart < numCandidates < candidates.Length
      requires Expanding(g, lookupArray[..], array_[..], lineAddr, candidates[..numCandidates], fringeStart, w)
      requires fringeId == candidates[fringeStart].lineId && Stored(array_[..], fringeId)
      requires var p := candidates[fringeStart].pos; p < lookupArray.Length && lookupArray[p] == fringeId
      requires own < g.ways && candidates[fringeStart].pos == g.Pos(own, array_[fringeId])
      modifies candidates
      ensures numCandidates <= n <= candidates.Length
      ensures candidates[..numCandidates] == old(candidates[..numCandidates])
      ensures Expanding(g, lookupArray[..], array_[..], lineAddr, candidates[..n], fringeStart, w + 1)
      ensures n == numCandidates + (if w == own then 0 else 1)
      ensures valid <==> forall k :: numCandidates <= k < n ==> Stored(array_[..], candidates[k].lineId)
    {
      ghost var lk, ad, cs := lookupArray[..], array_[..], candidates[..numCandidates];
      assert cs[fringeStart] == candidates[fringeStart];
      OfferStep(g, lk, ad, lineAddr, cs, fringeStart, w);
      OnlyOwnWay(g, lk, ad, cs[fringeStart], own, w);
      var fringeAddr := array_[fringeId];
      var pos := g.Pos(w, fringeAddr);
      var lineId := lookupArray[pos];
      candidates[numCandidates] := ZWalkInfo(pos, lineId, fringeStart);
      valid := array_[lineId] != 0;  // the fringe line itself is in use, so it changes nothing here
      // and its slot goes to the next candidate
      n := numCandidates + (if lineId != fringeId then 1 else 0);
      assert candidates[..n] == Offering(g, lk, ad, cs, fringeStart, w);
    }

    /** The inner loop of the walk: offer the other positions of candidate fringeStart's line.
        Its own position is skipped, so exactly ways - 1 candidates are added. */
    method Expand(candidates: array<ZWalkInfo>, fringeStart: nat, numCandidates: nat, allValid: bool,
                  ghost lineAddr: Address)
      returns (n: nat, valid: bool)
      requires Valid() && fringeStart < numCandidates <= candidates.Length
      requires Walk(g, lookupArray[..], array_[..], lineAddr, candidates[..numCandidates], fringeStart)
      requires numCandidates == g.ways + fringeStart * (g.ways - 1)
      requires numCandidates < cands && candidates.Length == cands + g.ways
      requires Stored(array_[..], candidates[fringeStart].lineId)
      modifies candidates
      ensures n == numCandidates + (g.ways - 1) <= candidates.Length
      ensures candidates[..numCandidates] == old(candidates[..numCandidates])
      ensures Walk(g, lookupArray[..], array_[..], lineAddr, candidates[..n], fringeStart + 1)
      ensures valid <==> allValid && forall k :: numCandidates <= k < n ==> Stored(array_[..], candidates[k].lineId)
    {
      ghost var lk, ad, before := lookupArray[..], array_[..], candidates[..numCandidates];
      n, valid := numCandidates, allValid;
      var fringeId := candidates[fringeStart].lineId;
      assert before[fringeStart] == candidates[fringeStart];
      WalkBounds(g, lk, ad, lineAddr, before, fringeStart);
      ghost var own := OwnWay(g, lk, ad, before[fringeStart]);
      FringeRoom(g.ways, fringeStart);
      for w := 0 to g.ways
        invariant n == numCandidates + w - (if w > own then 1 else 0)
        invariant candidates[..numCandidates] == before
        invariant Expanding(g, lk, ad, lineAddr, candidates[..n], fringeStart, w)
        invariant valid <==> allValid && forall k :: numCandidates <= k < n ==> Stored(ad, candidates[k].lineId)
      {
        ghost var cs := candidates[..n];
        assert candidates[fringeStart] == before[fringeStart];
        var more;
        ghost var m := n;
        n, more := Offer(candidates, fringeStart, fringeId, w, n, lineAddr, own);
        assert candidates[..numCandidates] == candidates[..m][..numCandidates] == cs[..numCandidates];
        assert forall k :: numCandidates <= k < m ==> candidates[k] == candidates[..m][k] == cs[k];
        valid := valid && more;
      }
      ExpansionDone(g, lk, ad, lineAddr, candidates[..n], fringeStart);
    }

    method SeedAt(lineAddr: Address, w: nat) returns (c: ZWalkInfo, valid: bool)
      requires Valid() && w < g.ways
      ensures Seed(g, lookupArray[..], lineAddr, c) && c.pos == g.Pos(w, lineAddr)
      ensures valid <==> Stored(array_[..], c.lineId)
    {
      g.PosBounds(w, lineAddr);
      var pos := g.Pos(w, lineAddr);
      var lineId := lookupArray[pos];
      c := ZWalkInfo(pos, lineId, -1);
      valid := array_[lineId] != 0;
    }

    /** The seeds: the positions of the new line. */
    method Seeds(lineAddr: Address, candidates: array<ZWalkInfo>) returns (allValid: bool)
      requires Valid() && candidates.Length >= g.ways
      modifies candidates
      ensures Walk(g, lookupArray[..], array_[..], lineAddr, candidates[..g.ways], 0)
      ensures AllSeeds(g, lineAddr, candidates[..g.ways])
      ensures allValid <==> forall k :: 0 <= k < g.ways ==> Stored(array_[..], candidates[k].lineId)
    {
      ghost var lk, ad := lookupArray[..], array_[..];
      ghost var free := 0;
      allValid := true;
      for w := 0 to g.ways
        invariant forall k :: 0 <= k < w ==> Seed(g, lk, lineAddr, candidates[k])
        invariant forall k :: 0 <= k < w ==> InWay(g, lineAddr, candidates[k], k)
        invariant allValid ==> forall k :: 0 <= k < w ==> Stored(ad, candidates[k].lineId)
        invariant !allValid ==> 0 <= free < w && !Stored(ad, candidates[free].lineId)
      {
        var c, valid := SeedAt(lineAddr, w);
        candidates[w] := c;
        free := if allValid then w else free;
        allValid := allValid && valid;
      }
      SeedsAreWalk(g, lk, ad, lineAddr, candidates[..g.ways]);
    }

    /** The last expansion was needed: until then there were too few candidates, and none was free. */
    ghost predicate GoneOn(cs: seq<ZWalkInfo>, fringe: nat)
      reads this, array_
    {
      g.Valid() && fringe > 0 ==>
        && g.ways - 1 <= |cs| < cands + (g.ways - 1)
        && forall k :: 0 <= k < |cs| - (g.ways - 1) ==> Stored(array_[..], cs[k].lineId)
    }

    /** The walk begins with every position of the new address, and expands candidate after candidate until
        there are enough or one is free. */
    ghost predicate Explored(lineAddr: Address, cs: seq<ZWalkInfo>, fringe: nat)
      reads this, array_, lookupArray
    {
      && Walk(g, lookupArray[..], array_[..], lineAddr, cs, fringe) && AllSeeds(g, lineAddr, cs)
      && |cs| == g.ways + fringe * (g.ways - 1)
      && (|cs| < cands ==> exists k :: 0 <= k < |cs| && !Stored(array_[..], cs[k].lineId))
      && GoneOn(cs, fringe)
    }

    /** The whole walk: expand the fringe until there are enough candidates or one is free. */
    method Explore(lineAddr: Address, candidates: array<ZWalkInfo>) returns (numCandidates: nat, ghost fringe: nat)
      requires Valid() && candidates.Length == cands + g.ways
      modifies candidates
      ensures 0 < numCandidates <= candidates.Length
      ensures Explored(lineAddr, candidates[..numCandidates], fringe)
    {
      var allValid := Seeds(lineAddr, candidates);
      var fringeStart := 0;
      numCandidates := g.ways;
      while numCandidates < cands && allValid
        invariant g.ways <= numCandidates <= candidates.Length
        invariant numCandidates == g.ways + fringeStart * (g.ways - 1)
        invariant Walk(g, lookupArray[..], array_[..], lineAddr, candidates[..numCandidates], fringeStart)
        invariant AllSeeds(g, lineAddr, candidates[..numCandidates])
        invariant allValid <==> forall k :: 0 <= k < numCandidates ==> Stored(array_[..], candidates[k].lineId)
        invariant GoneOn(candidates[..numCandidates], fringeStart)
        decreases candidates.Length - numCandidates
      {
        ghost var m, was := numCandidates, candidates[..];
        numCandidates, allValid := Expand(candidates, fringeStart, numCandidates, allValid, lineAddr);
        assert forall k :: 0 <= k < m ==> candidates[k] == candidates[..m][k] == was[..m][k] == was[k];
        FringeRoom(g.ways, fringeStart);
        fringeStart := fringeStart + 1;
      }
      fringe := fringeStart;
    }

    /** The *minimum* index of a candidate for the line: there may be duplicates. */
    method FirstCandidate(candidates: array<ZWalkInfo>, bestCandidate: nat, ghost chosen: nat) returns (minIdx: nat)
      requires chosen < candidates.Length && candidates[chosen].lineId == bestCandidate
      ensures minIdx <= chosen && candidates[minIdx].lineId == bestCandidate
      ensures forall j :: 0 <= j < minIdx ==> candidates[j].lineId != bestCandidate
    {
      minIdx := 0;
      while candidates[minIdx].lineId != bestCandidate
        invariant 0 <= minIdx <= chosen
        invariant forall j :: 0 <= j < minIdx ==> candidates[j].lineId != bestCandidate
        decreases chosen - minIdx
      {
        minIdx := minIdx + 1;
      }
    }

    /** Fill in the swap array, from the chosen candidate back to a seed. */
    method FillSwapArray(candidates: array<ZWalkInfo>, minIdx: nat, ghost cs: seq<ZWalkInfo>)
      requires g.Valid() && swapArray.Length == cands / g.ways + 2
      requires |cs| <= candidates.Length && cs == candidates[..|cs|] && minIdx < |cs| && minIdx < cands
      requires forall i :: 0 <= i < |cs| ==> -1 <= cs[i].parentIdx < i
      requires forall i :: g.ways <= i < |cs| ==> 0 <= cs[i].parentIdx <= i - g.ways
      requires forall i :: 0 <= i < g.ways && i < |cs| ==> cs[i].parentIdx == -1
      modifies swapArray, `swapArrayLen
      ensures 0 < swapArrayLen <= cands / g.ways + 1
      ensures swapArray[..swapArrayLen] == Path(cs, minIdx)
    {
      var idx: int, swapIdx: nat := minIdx, 0;
      while idx >= 0
        invariant -1 <= idx < |cs| && 0 <= swapIdx <= cands / g.ways + 1
        invariant idx >= 0 ==> swapIdx * g.ways + idx <= minIdx
        invariant idx < 0 ==> swapIdx > 0
        invariant Path(cs, minIdx) == swapArray[..swapIdx] + Path(cs, idx)
        decreases idx
      {
        Room(swapIdx, idx, minIdx, cands, g.ways);
        ghost var done := swapArray[..swapIdx];
        swapArray[swapIdx] := candidates[idx].pos;
        assert swapArray[..swapIdx + 1] == done + [cs[idx].pos];
        swapIdx := swapIdx + 1;
        idx := candidates[idx].parentIdx;
      }
      swapArrayLen := swapIdx;
    }

    /** Any candidate may be replaced; swapArray gets the way from its position to a seed. */
    method Preinsert(lineAddr: Address)
      returns (bestCandidate: nat, wbLineAddr: Address, ghost cs: seq<ZWalkInfo>, ghost fringe: nat)
      requires Valid()
      modifies swapArray, `swapArrayLen, `lastCandIdx
      ensures Prepared(lineAddr, bestCandidate)
      ensures Explored(lineAddr, cs, fringe) && forall i :: 0 <= i < |cs| ==> cs[i].parentIdx < i
      ensures lastCandIdx < |cs| && lastCandIdx < cands && cs[lastCandIdx].lineId == bestCandidate
      ensures forall j :: 0 <= j < lastCandIdx ==> cs[j].lineId != bestCandidate
      ensures swapArray[..swapArrayLen] == Path(cs, lastCandIdx)
      ensures bestCandidate < array_.Length && wbLineAddr == array_[bestCandidate]
    {
      ghost var lk, ad := lookupArray[..], array_[..];
      // spare entries save a check per expansion
      var candidates := new ZWalkInfo[cands + g.ways](_ => ZWalkInfo(0, 0, 0));
      var numCandidates;
      numCandidates, fringe := Explore(lineAddr, candidates);
      cs := candidates[..numCandidates];
      numCandidates := if numCandidates > cands then cands else numCandidates;
      var chosen: nat :| chosen < numCandidates;  // whatever the replacement policy ranks best
      bestCandidate := candidates[chosen].lineId;
      var minIdx := FirstCandidate(candidates, bestCandidate, chosen);
      lastCandIdx := minIdx;
      Parents(g, lk, ad, lineAddr, cs, fringe);
      WalkBounds(g, lk, ad, lineAddr, cs, minIdx);
      PathIsChain(g, lk, ad, lineAddr, cs, fringe, minIdx);
      FillSwapArray(candidates, minIdx, cs);
      assert swapArray[0] == swapArray[..swapArrayLen][0];
      wbLineAddr := array_[bestCandidate];
    }

    /** Shift the lines along the chain; its last position gets the candidate. */
    method Relocate(candidate: nat)
      requires 0 < swapArrayLen <= swapArray.Length && swapArray != lookupArray
      requires forall i :: 0 <= i < swapArrayLen ==> swapArray[i] < lookupArray.Length
      requires forall i, j :: 0 <= i < j < swapArrayLen ==> swapArray[i] != swapArray[j]
      requires lookupArray[swapArray[0]] == candidate
      modifies lookupArray
      ensures Relocated(old(lookupArray[..]), lookupArray[..], swapArray[..swapArrayLen])
    {
      ghost var lk, sw := lookupArray[..], swapArray[..swapArrayLen];
      for i := 0 to swapArrayLen - 1
        invariant Shifted(lk, lookupArray[..], sw, i)
      {
        ghost var was := lookupArray[..];
        ShiftStep(lk, was, sw, i, lk[sw[i + 1]]);
        lookupArray[swapArray[i]] := lookupArray[swapArray[i + 1]];
        assert lookupArray[..] == was[sw[i] := lk[sw[i + 1]]];
      }
      ShiftStep(lk, lookupArray[..], sw, swapArrayLen - 1, candidate);
      lookupArray[swapArray[swapArrayLen - 1]] := candidate;
    }

    /** Move the lines along the chain, then put the new address on the freed line. */
    method Postinsert(lineAddr: Address, candidate: nat)
      requires Prepared(lineAddr, candidate)
      requires lineAddr != 0 && lineAddr !in Map()
      modifies array_, lookupArray
      ensures Valid()
      ensures Map() == (old(Map()) - {old(array_[candidate])})[lineAddr := candidate]
      ensures array_[..] == old(array_[..])[candidate := lineAddr]
      ensures Relocated(old(lookupArray[..]), lookupArray[..], swapArray[..swapArrayLen])
    {
      ghost var lk, ad, sw := lookupArray[..], array_[..], swapArray[..swapArrayLen];
      assert sw[0] == swapArray[0];
      ChainPositions(g, lk, ad, lineAddr, sw);
      assert forall i :: 0 <= i < swapArrayLen ==> swapArray[i] == sw[i];
      Relocate(candidate);
      array_[candidate] := lineAddr;
      InsertKeepsTables(g, lk, lookupArray[..], ad, sw, lineAddr);
      InsertChangesOneLine(ad, candidate, lineAddr);
      assert array_[..] == ad[candidate := lineAddr];
    }
  }

  lemma ChainPositions(g: Geometry, lk: seq<nat>, ad: seq<Address>, newAddr: Address, sw: seq<nat>)
    requires Chain(g, lk, ad, newAddr, sw)
    ensures forall i :: 0 <= i < |sw| ==> sw[i] < |lk|
    ensures forall i, j :: 0 <= i < j < |sw| ==> sw[i] != sw[j]
  {
  }

  lemma Parents(g: Geometry, lk: seq<nat>, ad: seq<Address>, newAddr: Address, cs: seq<ZWalkInfo>, fringe: nat)
    requires Walk(g, lk, ad, newAddr, cs, fringe)
    ensures forall i :: 0 <= i < |cs| ==> -1 <= cs[i].parentIdx < i
    ensures forall i :: g.ways <= i < |cs| ==> 0 <= cs[i].parentIdx <= i - g.ways
    ensures forall i :: 0 <= i < g.ways ==> cs[i].parentIdx == -1
  {
    forall i | 0 <= i < |cs|
      ensures -1 <= cs[i].parentIdx < i
      ensures if i < g.ways then cs[i].parentIdx == -1 else 0 <= cs[i].parentIdx <= i - g.ways
    {
      assert Candidate(g, lk, ad, newAddr, cs, i);
    }
  }

  lemma SeedsAreWalk(g: Geometry, lk: seq<nat>, ad: seq<Address>, newAddr: Address, cs: seq<ZWalkInfo>)
    requires g.Valid() && |cs| == g.ways && forall k :: 0 <= k < |cs| ==> Seed(g, lk, newAddr, cs[k])
    ensures Walk(g, lk, ad, newAddr, cs, 0)
  {
  }

  /** Parents are at least `ways` places earlier, so the path has at most cands / ways + 1 steps. */
  lemma Room(swapIdx: nat, idx: int, minIdx: nat, cands: nat, ways: nat)
    requires ways > 0 && idx >= 0 && swapIdx * ways + idx <= minIdx < cands
    ensures swapIdx <= cands / ways
    ensures (swapIdx + 1) * ways + (idx - ways) <= minIdx
  {
    assert cands == cands / ways * ways + cands % ways;
    if swapIdx > cands / ways {
      MulMono(cands / ways + 1, swapIdx, ways);
    }
  }

  lemma FringeRoom(ways: nat, fringe: nat)
    requires ways > 1
    ensures fringe + ways <= ways + fringe * (ways - 1)
    ensures ways + (fringe + 1) * (ways - 1) == ways + fringe * (ways - 1) + (ways - 1)
  {
    MulMono(1, ways - 1, fringe);
  }

  /** The way in which a stored line sits now. */
  ghost function OwnWay(g: Geometry, lk: seq<nat>, ad: seq<Address>, f: ZWalkInfo): (w: nat)
    requires Tables(g, lk, ad) && f.pos < |lk| && f.lineId == lk[f.pos] && ad[f.lineId] != 0
    ensures w < g.ways && f.pos == g.Pos(w, ad[f.lineId])
  {
    assert AtOwnPosition(g, f.pos, ad[lk[f.pos]]);
    var w :| 0 <= w < g.ways && f.pos == g.Pos(w, ad[f.lineId]);
    w
  }

  /** Of the positions a line could have, only its present one holds the line itself. */
  lemma OnlyOwnWay(g: Geometry, lk: seq<nat>, ad: seq<Address>, f: ZWalkInfo, own: nat, w: nat)
    requires Tables(g, lk, ad) && f.pos < |lk| && f.lineId == lk[f.pos] && ad[f.lineId] != 0
    requires own < g.ways && f.pos == g.Pos(own, ad[f.lineId]) && w < g.ways
    requires g.Pos(w, ad[f.lineId]) < |lk|
    ensures lk[g.Pos(w, ad[f.lineId])] == f.lineId <==> w == own
  {
    var p := g.Pos(w, ad[f.lineId]);
    if lk[p] == f.lineId {
      assert p == f.pos;
      g.PosWay(w, ad[f.lineId], own, ad[f.lineId]);
    }
  }
}
