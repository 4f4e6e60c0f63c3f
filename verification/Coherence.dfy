/** The MESI controllers of zsim/src/coherence_ctrls.{h,cpp}, for one line in a tree of inclusive
    caches of any depth and any fan-out, above which sits memory.

    Cache 0 is the root and par[i] < i is the parent of cache i.  A cache waits for its parent
    with its own bottom lock free, so invalidations overtake its request. */
module Coherence {

  datatype MESI = I | S | E | M
  datatype AccessType = GETS | GETX | PUTS | PUTX
  datatype InvType = INV | INVX

  predicate Excl(m: MESI) { m == E || m == M }
  predicate IsPut(t: AccessType) { t == PUTS || t == PUTX }

  // ----- the tree -----

  type Parents = par: seq<nat> | |par| > 0 && forall i :: 0 < i < |par| ==> par[i] < i
    witness [0]

  predicate Under(par: Parents, i: nat, n: nat)
    requires i < |par|
  {
    i == n || (i > n && Under(par, par[i], n))
  }

  /** The child of n on the path down to i. */
  function Toward(par: Parents, i: nat, n: nat): (c: nat)
    requires i < |par| && Under(par, i, n) && i != n
    ensures n < c < |par| && par[c] == n && Under(par, i, c)
  {
    if par[i] == n then i else Toward(par, par[i], n)
  }

  lemma {:induction false} OneWayDown(par: Parents, i: nat, n: nat, c: nat)
    requires i < |par| && 0 < c < |par| && par[c] == n && Under(par, i, c)
    ensures Under(par, i, n) && i != n && Toward(par, i, n) == c
  {
    if i != c { OneWayDown(par, par[i], n, c); }
  }

  lemma {:induction false} UnderIsTransitive(par: Parents, i: nat, j: nat, n: nat)
    requires i < |par| && j < |par| && Under(par, i, j) && Under(par, j, n)
    ensures Under(par, i, n)
  {
    if i != j { UnderIsTransitive(par, par[i], j, n); }
  }

  // ----- the line in each cache -----

  /** The bottom controller's state and the top controller's entry. */
  datatype Line = Line(state: MESI, sharers: set<nat>, numSharers: nat, exclusive: bool) {
    predicate IsEmpty() { numSharers == 0 }
    predicate IsExclusive() { numSharers == 1 && exclusive }
  }

  ghost predicate NodeOk(par: Parents, ls: seq<Line>, i: nat)
    requires i < |ls| == |par|
  {
    && ls[i].numSharers == |ls[i].sharers|
    && (ls[i].exclusive ==> |ls[i].sharers| <= 1)
    && forall c :: c in ls[i].sharers ==> 0 < c < |par| && par[c] == i
  }

  /** What a cache's line l and its child i's line have to do with each other. */
  ghost predicate Agree(p: Line, l: Line, i: nat) {
    && (i in p.sharers <==> l.state != I)
    && (l.state != I ==> p.state != I)
    && (Excl(l.state) ==> Excl(p.state))
    && (Excl(l.state) <==> p.sharers == {i} && p.exclusive)
  }

  ghost predicate EdgeOk(par: Parents, ls: seq<Line>, i: nat)
    requires 0 < i < |ls| == |par|
  {
    Agree(ls[par[i]], ls[i], i)
  }

  /** Coherent but for the edge above x, if x > 0. */
  ghost predicate CoherentBut(par: Parents, ls: seq<Line>, x: nat) {
    && |ls| == |par|
    && (forall i :: 0 <= i < |ls| ==> NodeOk(par, ls, i))
    && (forall i :: 0 < i < |ls| && i != x ==> EdgeOk(par, ls, i))
  }

  ghost predicate Coherent(par: Parents, ls: seq<Line>) { CoherentBut(par, ls, 0) }

  ghost predicate SubtreeOk(par: Parents, ls: seq<Line>, n: nat, x: nat) {
    && |ls| == |par|
    && (forall i :: 0 <= i < |ls| && Under(par, i, n) ==> NodeOk(par, ls, i))
    && (forall i :: 0 < i < |ls| && Under(par, i, n) && i != n && i != x ==> EdgeOk(par, ls, i))
  }

  // ----- what coherence means -----

  lemma {:induction false} InvalidBelow(par: Parents, ls: seq<Line>, k: nat, i: nat)
    requires Coherent(par, ls) && k < |par| && i < |par|
    requires ls[k].state == I && Under(par, i, k)
    ensures ls[i].state == I
  {
    if i != k {
      InvalidBelow(par, ls, k, par[i]);
      assert EdgeOk(par, ls, i);
    }
  }

  lemma {:induction false} ExclusiveAbove(par: Parents, ls: seq<Line>, n: nat, i: nat)
    requires Coherent(par, ls) && n < |par| && i < |par|
    requires Excl(ls[i].state) && Under(par, i, n)
    ensures Excl(ls[n].state)
    ensures i != n ==> Excl(ls[Toward(par, i, n)].state) && ls[n].sharers == {Toward(par, i, n)}
  {
    if i != n {
      assert EdgeOk(par, ls, i);
      ExclusiveAbove(par, ls, n, par[i]);
    }
  }

  /** A cache that may write is alone: every cache that is neither above nor below it is invalid. */
  lemma {:induction false} SingleWriter(par: Parents, ls: seq<Line>, i: nat, j: nat)
    requires Coherent(par, ls) && i < |par| && j < |par|
    requires Excl(ls[i].state) && !Under(par, i, j) && !Under(par, j, i)
    ensures ls[j].state == I
    decreases i + j
  {
    if i < j {
      var p := par[j];
      assert EdgeOk(par, ls, j);
      if Under(par, i, p) {
        ExclusiveAbove(par, ls, p, i);
      } else {
        if Under(par, p, i) { UnderIsTransitive(par, j, p, i); }
        SingleWriter(par, ls, i, p);
      }
    } else {
      var p := par[i];
      assert EdgeOk(par, ls, i);
      if Under(par, j, p) {
        var c := Toward(par, j, p);
        assert EdgeOk(par, ls, c);
        InvalidBelow(par, ls, c, j);
      } else {
        if Under(par, p, j) { UnderIsTransitive(par, i, p, j); }
        SingleWriter(par, ls, p, j);
      }
    }
  }

  /** Inclusion: a valid cache has every cache above it valid. */
  lemma {:induction false} Inclusion(par: Parents, ls: seq<Line>, i: nat, n: nat)
    requires Coherent(par, ls) && n < |par| && i < |par| && Under(par, i, n) && ls[i].state != I
    ensures ls[n].state != I
  {
    if i != n {
      assert EdgeOk(par, ls, i);
      Inclusion(par, ls, par[i], n);
    }
  }

  /** The directory is exact: the sharers are the children that hold the line, counted right; and at
      most one child may write, in which case it is the only one. */
  lemma DirectoryIsExact(par: Parents, ls: seq<Line>, p: nat)
    requires Coherent(par, ls) && p < |par|
    ensures ls[p].sharers == set c: nat | 0 < c < |par| && par[c] == p && ls[c].state != I
    ensures ls[p].numSharers == |ls[p].sharers|
    ensures forall c :: 0 < c < |par| && par[c] == p && Excl(ls[c].state) ==> ls[p].sharers == {c} && Excl(ls[p].state)
  {
    assert NodeOk(par, ls, p);
    forall c | 0 < c < |par| && par[c] == p
      ensures (c in ls[p].sharers <==> ls[c].state != I) &&
              (Excl(ls[c].state) ==> ls[p].sharers == {c} && Excl(ls[p].state))
    {
      assert EdgeOk(par, ls, c);
    }
  }

  // ----- invalidations and downgrades -----

  /** What an invalidation or a downgrade leaves of a line it reaches. */
  function Lowered(l: Line, typ: InvType): Line {
    match typ
    case INV => Line(I, {}, 0, l.exclusive)
    case INVX => Line(if Excl(l.state) then S else l.state, l.sharers, l.numSharers, l.exclusive && l.numSharers != 1)
  }

  predicate Spared(l: Line, typ: InvType) { if typ == INV then l.state == I else !Excl(l.state) }

  lemma {:induction false} NothingToLower(par: Parents, ls: seq<Line>, k: nat, i: nat, typ: InvType)
    requires SubtreeOk(par, ls, k, 0) && k < |par| && i < |par|
    requires Spared(ls[k], typ) && Under(par, i, k)
    ensures Spared(ls[i], typ) && Lowered(ls[i], typ) == ls[i]
  {
    if i != k {
      NothingToLower(par, ls, k, par[i], typ);
      assert EdgeOk(par, ls, i);
    }
    assert NodeOk(par, ls, i);
    forall c | c in ls[i].sharers ensures typ == INVX && !(ls[i].sharers == {c} && ls[i].exclusive) {
      OneWayDown(par, c, i, c);
      if i != k { UnderIsTransitive(par, c, i, k); }
      assert EdgeOk(par, ls, c);
    }
    SizeOne(ls[i].sharers);
  }

  lemma SizeOne(s: set<nat>)
    ensures |s| == 1 ==> exists c :: c in s && s == {c}
  {
    if |s| == 1 {
      var c :| c in s;
      assert |s - {c}| == 0;
      assert s == {c};
    }
  }

  /** A line after its cache n was told to send typ to its children, bar child x. */
  function Sent(par: Parents, ls: seq<Line>, n: nat, x: nat, typ: InvType, i: nat): Line
    requires i < |ls| == |par|
  {
    if i == n then Lowered(ls[i], typ).(state := ls[i].state)
    else if Under(par, i, n) && Toward(par, i, n) != x then Lowered(ls[i], typ)
    else ls[i]
  }

  /** The state in which a cache answers a request, if need be with its parent's permission. */
  function Reached(typ: AccessType, state: MESI, noExcl: bool): MESI {
    match typ
    case PUTS => state
    case PUTX => M
    case GETX => M
    case GETS => if state != I then state else if noExcl then S else E
  }

  /** What it does to every line to answer child c. */
  ghost predicate Answered(par: Parents, was: seq<Line>, now: seq<Line>, c: nat, typ: AccessType, noExcl: bool)
    requires |was| == |now| == |par| && 0 < c < |par|
  {
    var p := par[c];
    match typ
    case GETS =>
      && (forall i :: 0 <= i < |par| && i != p && i != c ==> now[i] == Sent(par, was, p, 0, INVX, i))
      && now[p].sharers == was[p].sharers + {c}
      && now[p].state == (if DirtyBelow(par, was, p, 0, |par|) then M else was[p].state)
      && now[c] == was[c].(state := if was[p].sharers == {} && Excl(was[p].state) && !noExcl then E else S)
    case GETX =>
      && (forall i :: 0 <= i < |par| && i != p && i != c ==> now[i] == Sent(par, was, p, c, INV, i))
      && now[p] == Line(if DirtyBelow(par, was, p, c, |par|) then M else was[p].state, {c}, 1, true)
      && now[c] == was[c].(state := M)
    case _ =>
      && (forall i :: 0 <= i < |par| && i != p && i != c ==> now[i] == was[i])
      && now[p].sharers == was[p].sharers - {c} && now[p].state == was[p].state
      && now[c] == was[c].(state := I)
  }

  /** Some cache below n, bar those below x, holds dirty data; upto bounds the children looked at. */
  ghost predicate DirtyBelow(par: Parents, ls: seq<Line>, n: nat, x: nat, upto: nat)
    requires |ls| == |par|
  {
    exists i :: 0 <= i < |ls| && IsDirtyBelow(par, ls, n, x, upto, i)
  }

  ghost predicate IsDirtyBelow(par: Parents, ls: seq<Line>, n: nat, x: nat, upto: nat, i: nat)
    requires i < |ls| == |par|
  {
    Under(par, i, n) && i != n && Toward(par, i, n) != x && Toward(par, i, n) < upto && ls[i].state == M
  }

  ghost predicate DirtyIn(par: Parents, ls: seq<Line>, n: nat)
    requires |ls| == |par|
  {
    exists i :: 0 <= i < |ls| && Under(par, i, n) && ls[i].state == M
  }

  lemma DirtyChild(par: Parents, ls: seq<Line>, n: nat, x: nat, c: nat)
    requires |ls| == |par| && c < |par|
    ensures DirtyBelow(par, ls, n, x, c + 1) <==>
              DirtyBelow(par, ls, n, x, c) || (0 < c != x && par[c] == n && DirtyIn(par, ls, c))
  {
    if DirtyBelow(par, ls, n, x, c + 1) {
      var i :| 0 <= i < |ls| && IsDirtyBelow(par, ls, n, x, c + 1, i);
      assert Toward(par, i, n) == c || IsDirtyBelow(par, ls, n, x, c, i);
    }
    if DirtyBelow(par, ls, n, x, c) {
      var i :| 0 <= i < |ls| && IsDirtyBelow(par, ls, n, x, c, i);
      assert IsDirtyBelow(par, ls, n, x, c + 1, i);
    }
    if 0 < c != x && par[c] == n && DirtyIn(par, ls, c) {
      var i :| 0 <= i < |ls| && Under(par, i, c) && ls[i].state == M;
      OneWayDown(par, i, n, c);
      assert IsDirtyBelow(par, ls, n, x, c + 1, i);
    }
  }

  /** The same when only the children below upto have been told. */
  function Partly(par: Parents, ls: seq<Line>, n: nat, x: nat, typ: InvType, upto: nat, i: nat): Line
    requires i < |ls| == |par|
  {
    if Under(par, i, n) && i != n && Toward(par, i, n) < upto then Sent(par, ls, n, x, typ, i) else ls[i]
  }

  /** What sendInvalidates has done when only the children below upto are left behind it. */
  ghost predicate Telling(par: Parents, was: seq<Line>, ls: seq<Line>, n: nat, x: nat, typ: InvType, upto: nat,
                          wb: bool)
    requires n < |was| == |par|
  {
    && |ls| == |par|
    && ls[n] == was[n].(sharers := if typ == INV then Left(was[n].sharers, upto) else was[n].sharers)
    && OthersPartly(par, was, ls, n, x, typ, upto)
    && (wb <==> DirtyBelow(par, was, n, x, upto))
  }

  ghost predicate OthersPartly(par: Parents, was: seq<Line>, ls: seq<Line>, n: nat, x: nat, typ: InvType, upto: nat)
    requires |ls| == |was| == |par|
  {
    forall i :: 0 <= i < |par| && i != n ==> ls[i] == Partly(par, was, n, x, typ, upto, i)
  }

  lemma ChildTold(par: Parents, was: seq<Line>, ls: seq<Line>, ls': seq<Line>, n: nat, x: nat, typ: InvType, c: nat)
    requires |was| == |ls| == |ls'| == |par| && c < |par| && par[c] == n && 0 < c && c != x
    requires OthersPartly(par, was, ls, n, x, typ, c)
    requires forall i :: 0 <= i < |par| ==> ls'[i] == if Under(par, i, c) then Lowered(ls[i], typ) else ls[i]
    ensures OthersPartly(par, was, ls', n, x, typ, c + 1)
  {
    forall i | 0 <= i < |par| && i != n ensures ls'[i] == Partly(par, was, n, x, typ, c + 1, i) {
      OneMoreTold(par, was, n, x, typ, c, i);
    }
  }

  lemma OneMoreTold(par: Parents, was: seq<Line>, n: nat, x: nat, typ: InvType, c: nat, i: nat)
    requires |was| == |par| && i < |par| && i != n && 0 < c < |par|
    ensures Partly(par, was, n, x, typ, c + 1, i) ==
              if par[c] == n && Under(par, i, c) && c != x then Lowered(Partly(par, was, n, x, typ, c, i), typ)
              else Partly(par, was, n, x, typ, c, i)
  {
    if par[c] == n && Under(par, i, c) {
      OneWayDown(par, i, n, c);
    }
  }

  lemma ChildPassed(par: Parents, was: seq<Line>, ls: seq<Line>, n: nat, x: nat, typ: InvType, c: nat)
    requires |was| == |ls| == |par| && n < |par| && c < |par| && SubtreeOk(par, was, n, x) &&
             (x > 0 ==> x < |par| && par[x] == n)
    requires c !in was[n].sharers
    requires OthersPartly(par, was, ls, n, x, typ, c)
    ensures OthersPartly(par, was, ls, n, x, typ, c + 1)
    ensures 0 < c != x && par[c] == n ==> !DirtyIn(par, was, c)
  {
    if 0 < c != x && par[c] == n {
      ChildSubtree(par, was, n, x, c);
      assert EdgeOk(par, was, c);
      forall i | 0 <= i < |par| && Under(par, i, c)
        ensures Lowered(was[i], typ) == was[i] && was[i].state == I
      {
        NothingToLower(par, was, c, i, typ);
        NothingToLower(par, was, c, i, INV);
      }
    }
    forall i | 0 <= i < |par| && i != n ensures ls[i] == Partly(par, was, n, x, typ, c + 1, i) {
      if c > 0 { OneMoreTold(par, was, n, x, typ, c, i); }
      if c > 0 && par[c] == n && c != x && Under(par, i, c) { OneWayDown(par, i, n, c); }
    }
  }

  lemma ChildSubtree(par: Parents, ls: seq<Line>, n: nat, x: nat, c: nat)
    requires n < |par| && 0 < c < |par| && par[c] == n && c != x && SubtreeOk(par, ls, n, x) &&
             (x > 0 ==> x < |par| && par[x] == n)
    ensures SubtreeOk(par, ls, c, 0) && Under(par, c, n) && EdgeOk(par, ls, c)
  {
    forall i | 0 <= i < |par| && Under(par, i, c)
      ensures Under(par, i, n) && i != n && i != x
    {
      OneWayDown(par, i, n, c);
    }
  }

  lemma NoExclusiveChild(par: Parents, ls: seq<Line>, n: nat)
    requires n < |par| && SubtreeOk(par, ls, n, 0) && !ls[n].IsExclusive()
    ensures forall i :: 0 <= i < |par| ==> Sent(par, ls, n, 0, INVX, i) == ls[i]
    ensures !DirtyBelow(par, ls, n, 0, |par|)
  {
    forall i | 0 <= i < |par| && Under(par, i, n) && i != n
      ensures Spared(ls[i], INVX) && Lowered(ls[i], INVX) == ls[i]
    {
      var c := Toward(par, i, n);
      ChildSubtree(par, ls, n, 0, c);
      assert NodeOk(par, ls, n);
      assert |{c}| == 1;
      NothingToLower(par, ls, c, i, INVX);
    }
  }

  // ----- what each transaction keeps -----

  lemma LoweredAgree(p: Line, l: Line, i: nat, typ: InvType)
    requires Agree(p, l, i) && p.numSharers == |p.sharers|
    ensures Agree(Lowered(p, typ), Lowered(l, typ), i)
  {
    assert |{i}| == 1;
  }

  /** Telling the children of n keeps everything else coherent. */
  lemma SentKeeps(par: Parents, ls: seq<Line>, ls': seq<Line>, n: nat, x: nat, typ: InvType)
    requires CoherentBut(par, ls, x) && n < |par| && |ls'| == |par|
    requires x > 0 ==> x < |par| && par[x] == n && x !in ls[n].sharers && typ == INV
    requires forall i :: 0 <= i < |par| ==> ls'[i] == Sent(par, ls, n, x, typ, i)
    ensures CoherentBut(par, ls', x)
  {
    forall i | 0 <= i < |par| ensures NodeOk(par, ls', i) { assert NodeOk(par, ls, i); }
    forall i | 0 < i < |par| && i != x ensures EdgeOk(par, ls', i) { SentEdge(par, ls, ls', n, x, typ, i); }
  }

  lemma SentEdge(par: Parents, ls: seq<Line>, ls': seq<Line>, n: nat, x: nat, typ: InvType, i: nat)
    requires CoherentBut(par, ls, x) && n < |par| && |ls'| == |par| && 0 < i < |par| && i != x
    requires x > 0 ==> x < |par| && par[x] == n && x !in ls[n].sharers && typ == INV
    requires ls'[i] == Sent(par, ls, n, x, typ, i) && ls'[par[i]] == Sent(par, ls, n, x, typ, par[i])
    ensures EdgeOk(par, ls', i)
  {
    var p := par[i];
    assert EdgeOk(par, ls, i) && NodeOk(par, ls, p) && NodeOk(par, ls, i);
    LoweredAgree(ls[p], ls[i], i, typ);
    assert Under(par, i, n) && i != n <==> Under(par, p, n);
    assert Under(par, p, n) && p != n ==> Toward(par, i, n) == Toward(par, p, n);
  }

  /** A put: child c leaves. */
  lemma PutKeeps(par: Parents, ls: seq<Line>, ls': seq<Line>, c: nat)
    requires Coherent(par, ls) && 0 < c < |par| && ls[c].state != I && ls[c].sharers == {}
    requires var p := par[c]; var l := ls[p];
             ls' == ls[p := l.(sharers := l.sharers - {c}, numSharers := |l.sharers - {c}|)][c := ls[c].(state := I)]
    ensures Coherent(par, ls')
  {
    var p := par[c];
    assert EdgeOk(par, ls, c) && NodeOk(par, ls, p);
    forall i | 0 <= i < |par| ensures NodeOk(par, ls', i) { assert NodeOk(par, ls, i); }
    forall i | 0 < i < |par| ensures EdgeOk(par, ls', i) {
      assert EdgeOk(par, ls, i);
      if par[i] == p && i != c { AloneOrNot(ls[p].sharers, c, i); }
    }
  }

  lemma AloneOrNot(s: set<nat>, c: nat, i: nat)
    requires c in s && i != c
    ensures s != {i}
    ensures s - {c} == {i} ==> |s| == 2
  {
    assert c in s && c !in {i};
    assert s == (s - {c}) + {c};
    assert |{i} + {c}| == 2;
  }

  /** A GETS answered with S. */
  lemma ShareKeeps(par: Parents, ls: seq<Line>, ls': seq<Line>, c: nat)
    requires Coherent(par, ls) && 0 < c < |par| && ls[c].state == I
    requires ls[par[c]].state != I && !ls[par[c]].IsExclusive()
    requires var p := par[c]; var l := ls[p];
             ls' == ls[p := l.(sharers := l.sharers + {c}, numSharers := l.numSharers + 1, exclusive := false)]
                      [c := ls[c].(state := S)]
    ensures Coherent(par, ls')
  {
    var p := par[c];
    assert EdgeOk(par, ls, c) && NodeOk(par, ls, p);
    forall i | 0 <= i < |par| ensures NodeOk(par, ls', i) { assert NodeOk(par, ls, i); }
    forall i | 0 < i < |par| ensures EdgeOk(par, ls', i) {
      assert EdgeOk(par, ls, i) && |{i}| == 1;
    }
  }

  /** A GETS answered with E, or a GETX answered with M: child c becomes the only sharer. */
  lemma GrantKeeps(par: Parents, ls: seq<Line>, ls': seq<Line>, c: nat, m: MESI)
    requires 0 < c < |par| && CoherentBut(par, ls, c) && Excl(m)
    requires !Excl(ls[c].state) && Excl(ls[par[c]].state) && ls[par[c]].sharers == {}
    requires ls' == ls[par[c] := ls[par[c]].(sharers := {c}, numSharers := 1, exclusive := true)]
                      [c := ls[c].(state := m)]
    ensures Coherent(par, ls')
  {
    forall i | 0 <= i < |par| ensures NodeOk(par, ls', i) { assert NodeOk(par, ls, i); }
    forall i | 0 < i < |par| ensures EdgeOk(par, ls', i) {
      if i != c {
        assert EdgeOk(par, ls, i);
        assert {c} != {i} by { assert c in {c}; }
      }
    }
  }

  /** A silent E to M transition, or the root's answer from memory. */
  lemma RaiseKeeps(par: Parents, ls: seq<Line>, n: nat, m: MESI)
    requires Coherent(par, ls) && n < |par| && m != I
    requires Excl(ls[n].state) ==> Excl(m)
    requires n > 0 ==> Excl(ls[n].state)
    ensures Coherent(par, ls[n := ls[n].(state := m)])
  {
    var ls' := ls[n := ls[n].(state := m)];
    forall i | 0 <= i < |par| ensures NodeOk(par, ls', i) { assert NodeOk(par, ls, i); }
    forall i | 0 < i < |par| ensures EdgeOk(par, ls', i) { assert EdgeOk(par, ls, i); }
  }

  /** The root leaves, or a line in no use gets another exclusive bit. */
  lemma UnusedKeeps(par: Parents, ls: seq<Line>, n: nat, exclusive: bool)
    requires Coherent(par, ls) && n < |par| && ls[n].sharers == {} && (n > 0 ==> ls[n].state == I)
    ensures Coherent(par, ls[n := ls[n].(state := I, exclusive := exclusive)])
  {
    var ls' := ls[n := ls[n].(state := I, exclusive := exclusive)];
    forall i | 0 <= i < |par| ensures NodeOk(par, ls', i) { assert NodeOk(par, ls, i); }
    forall i | 0 < i < |par| ensures EdgeOk(par, ls', i) { assert EdgeOk(par, ls, i); }
  }

  lemma InvalidHasNoSharers(par: Parents, ls: seq<Line>, n: nat)
    requires Coherent(par, ls) && n < |par| && ls[n].state == I
    ensures ls[n].sharers == {} && ls[n].numSharers == 0
  {
    assert NodeOk(par, ls, n);
    forall c ensures c !in ls[n].sharers { SharersAreValid(par, ls, n, c); }
    assert ls[n].sharers == {};
  }

  lemma SharersAreValid(par: Parents, ls: seq<Line>, n: nat, c: nat)
    requires Coherent(par, ls) && n < |par|
    ensures c in ls[n].sharers ==> 0 < c < |par| && par[c] == n && ls[c].state != I && ls[n].state != I
  {
    assert NodeOk(par, ls, n);
    assert 0 < c < |par| ==> EdgeOk(par, ls, c);
  }

  // ----- requests on their way up -----

  datatype Requester = Core | Child(id: nat)

  /** A cache's own request to its parent: none, sent and not yet answered (initial is the state it
      was sent in), or answered and not yet acted upon (the cache is locked again). */
  datatype Pending = None | Waiting(typ: AccessType, initial: MESI, noExcl: bool) | Granted

  /** What a cache is busy with. */
  datatype Job = Free | Serving(who: Requester, typ: AccessType, noExcl: bool) | Evicting

  /** The states a request of this type, sent in state initial, may find its line in when it is
      served: invalidations and downgrades may have come first. */
  predicate Raced(typ: AccessType, initial: MESI, state: MESI) {
    match typ
    case GETS => initial == I == state
    case GETX => initial in {I, S} && state in {I, initial}
    case PUTS => initial in {S, E} && state in {I, S, initial}
    case PUTX => initial == M && state in {I, S, M}
  }

  predicate RequestOk(l: Line, q: Pending, j: Job) {
    match q
    case None => j == Free
    case Waiting(typ, initial, _) =>
      Raced(typ, initial, l.state) &&
      if IsPut(typ) then j == Evicting && l.sharers == {} else j.Serving? && j.typ == typ
    case Granted =>
      j.Serving? && if j.typ == GETS then l.state in {S, E} else j.typ == GETX && l.state == M
  }

  /** A cache that serves a child has that child's request. */
  predicate ServesOk(par: Parents, pend: seq<Pending>, jobs: seq<Job>, i: nat)
    requires i < |par| == |pend| == |jobs|
  {
    jobs[i].Serving? && jobs[i].who.Child? ==>
      var c := jobs[i].who.id;
      0 < c < |par| && par[c] == i && pend[c].Waiting? && pend[c].typ == jobs[i].typ && pend[c].noExcl == jobs[i].noExcl
  }

  ghost predicate RequestsOk(par: Parents, ls: seq<Line>, pend: seq<Pending>, jobs: seq<Job>) {
    && |par| == |ls| == |pend| == |jobs| && pend[0] == None
    && (forall i :: 0 <= i < |par| ==> RequestOk(ls[i], pend[i], jobs[i]))
    && (forall i :: 0 <= i < |par| ==> ServesOk(par, pend, jobs, i))
  }

  /** The invalidation or downgrade that n would send reaches cache i while i is locked. */
  predicate Blocks(par: Parents, ls: seq<Line>, pend: seq<Pending>, n: nat, x: nat, typ: InvType, i: nat)
    requires n < |par| && i < |par| == |ls| == |pend|
  {
    pend[i] == Granted && Under(par, i, n) && i != n && Toward(par, i, n) != x && !Spared(ls[i], typ)
  }

  predicate Blocked(par: Parents, ls: seq<Line>, pend: seq<Pending>, n: nat, x: nat, typ: InvType)
    requires n < |par| == |ls| == |pend|
  {
    exists i :: 0 <= i < |par| && Blocks(par, ls, pend, n, x, typ, i)
  }

  lemma LoweredRequest(l: Line, q: Pending, j: Job, typ: InvType)
    requires RequestOk(l, q, j) && (q == Granted ==> Spared(l, typ))
    ensures RequestOk(Lowered(l, typ), q, j)
  {
  }

  /** Pending requests survive the invalidations that overtake them. */
  lemma SentRequests(par: Parents, ls: seq<Line>, ls': seq<Line>, pend: seq<Pending>, jobs: seq<Job>, n: nat, x: nat,
                     typ: InvType, i: nat)
    requires n < |par| && |par| == |ls| == |ls'| == |pend| == |jobs| && i < |par| && i != n
    requires RequestOk(ls[i], pend[i], jobs[i]) && ls'[i] == Sent(par, ls, n, x, typ, i)
    requires !Blocked(par, ls, pend, n, x, typ)
    ensures RequestOk(ls'[i], pend[i], jobs[i])
  {
    assert !Blocks(par, ls, pend, n, x, typ, i);
    if Under(par, i, n) && Toward(par, i, n) != x { LoweredRequest(ls[i], pend[i], jobs[i], typ); }
  }

  ghost predicate HasDirty(ls: seq<Line>) { exists i :: 0 <= i < |ls| && ls[i].state == M }

  /** Cache n is busy with a store of its own core. */
  predicate StoresAt(jobs: seq<Job>, n: nat) {
    n < |jobs| && jobs[n].Serving? && jobs[n].who == Core && jobs[n].typ == GETX
  }

  predicate Storing(jobs: seq<Job>) { exists n :: 0 <= n < |jobs| && StoresAt(jobs, n) }

  /** No line is marked as written without a store that is done, or on its way. */
  ghost predicate Explained(ls: seq<Line>, jobs: seq<Job>, dirty: bool) { HasDirty(ls) ==> dirty || Storing(jobs) }

  /** Who serves a GETX does so, directly or through its children, for a store. */
  lemma {:induction false} StoreBelow(par: Parents, ls: seq<Line>, pend: seq<Pending>, jobs: seq<Job>, c: nat)
    returns (n: nat)
    requires RequestsOk(par, ls, pend, jobs) && c < |par| && jobs[c].Serving? && jobs[c].typ == GETX
    ensures n >= c && StoresAt(jobs, n) && (jobs[c].who.Child? ==> n > c)
    decreases |par| - c
  {
    if jobs[c].who == Core {
      n := c;
    } else {
      assert ServesOk(par, pend, jobs, c);
      assert RequestOk(ls[jobs[c].who.id], pend[jobs[c].who.id], jobs[jobs[c].who.id]);
      n := StoreBelow(par, ls, pend, jobs, jobs[c].who.id);
    }
  }

  /** Jobs that no core's store begins or ends. */
  ghost predicate SameStores(jobs: seq<Job>, jobs': seq<Job>) {
    |jobs'| == |jobs| && forall n: nat :: StoresAt(jobs', n) <==> StoresAt(jobs, n)
  }

  lemma SameStoring(jobs: seq<Job>, jobs': seq<Job>)
    requires SameStores(jobs, jobs')
    ensures Storing(jobs') <==> Storing(jobs)
  {
    if Storing(jobs) {
      var n :| 0 <= n < |jobs| && StoresAt(jobs, n);
      assert StoresAt(jobs', n);
    }
    if Storing(jobs') {
      var n :| 0 <= n < |jobs'| && StoresAt(jobs', n);
      assert StoresAt(jobs, n);
    }
  }

  /** An INV or INVX writes nothing. */
  lemma SentNoNewDirt(par: Parents, ls: seq<Line>, ls': seq<Line>, n: nat, x: nat, typ: InvType, i: nat)
    requires n < |par| == |ls| == |ls'| && i < |par| && ls'[i] == Sent(par, ls, n, x, typ, i)
    ensures ls'[i].state == M ==> ls[i].state == M
  {
  }

  /** Dirty data that an invalidation takes away is reported by it. */
  lemma SentDirt(par: Parents, ls: seq<Line>, ls': seq<Line>, n: nat, x: nat, typ: InvType)
    requires n < |par| == |ls| == |ls'| && HasDirty(ls)
    requires forall i :: 0 <= i < |par| ==> ls'[i] == Sent(par, ls, n, x, typ, i)
    ensures HasDirty(ls') || DirtyBelow(par, ls, n, x, |par|)
  {
    var i :| 0 <= i < |ls| && ls[i].state == M;
    assert ls'[i].state == M || IsDirtyBelow(par, ls, n, x, |par|, i);
  }

  /** Dirty data below n does not depend on n's own line. */
  lemma SameDirtBelow(par: Parents, ls: seq<Line>, ls': seq<Line>, n: nat, x: nat)
    requires n < |par| == |ls| == |ls'| && forall i :: 0 <= i < |par| && i != n ==> ls'[i] == ls[i]
    ensures DirtyBelow(par, ls', n, x, |par|) <==> DirtyBelow(par, ls, n, x, |par|)
  {
    forall i | 0 <= i < |par|
      ensures IsDirtyBelow(par, ls', n, x, |par|, i) <==> IsDirtyBelow(par, ls, n, x, |par|, i)
    {
    }
  }

  lemma DirtMeansExclusive(par: Parents, ls: seq<Line>, n: nat, x: nat)
    requires n < |par| && CoherentBut(par, ls, x) && DirtyBelow(par, ls, n, x, |par|)
    requires x > 0 ==> x < |par| && par[x] == n
    ensures Excl(ls[n].state)
  {
    var i :| 0 <= i < |ls| && IsDirtyBelow(par, ls, n, x, |par|, i);
    DirtAbove(par, ls, n, x, i);
  }

  lemma {:induction false} DirtAbove(par: Parents, ls: seq<Line>, n: nat, x: nat, i: nat)
    requires n < |par| && CoherentBut(par, ls, x) && i < |par| && Under(par, i, n) && Excl(ls[i].state)
    requires x > 0 ==> x < |par| && par[x] == n
    requires i != n ==> Toward(par, i, n) != x
    ensures Excl(ls[n].state)
  {
    if i != n {
      assert EdgeOk(par, ls, i);
      DirtAbove(par, ls, n, x, par[i]);
    }
  }

  /** What memory grants (SimpleMemory::access, DDRMemory::access). */
  function MemoryAnswer(typ: AccessType, noExcl: bool): MESI {
    if IsPut(typ) then I else if typ == GETX then M else if noExcl then S else E
  }

  /** The line's state in a cache that can answer a child. */
  predicate Ready(typ: AccessType, state: MESI) {
    match typ
    case PUTS => state != I
    case PUTX => state == M
    case GETS => state != I
    case GETX => state == M
  }

  /** Child c is taken out of the sharers, to get the line back exclusively. */
  lemma TakenOutKeeps(par: Parents, ls: seq<Line>, ls': seq<Line>, c: nat)
    requires Coherent(par, ls) && 0 < c < |par| && ls[c].state == S
    requires var p := par[c]; var l := ls[p];
             ls' == ls[p := l.(sharers := l.sharers - {c}, numSharers := |l.sharers - {c}|)]
    ensures CoherentBut(par, ls', c)
  {
    var p := par[c];
    assert EdgeOk(par, ls, c) && NodeOk(par, ls, p);
    forall i | 0 <= i < |par| ensures NodeOk(par, ls', i) { assert NodeOk(par, ls, i); }
    forall i | 0 < i < |par| && i != c ensures EdgeOk(par, ls', i) {
      assert EdgeOk(par, ls, i);
      if par[i] == p { AloneOrNot(ls[p].sharers, c, i); }
    }
  }

  /** After parent p has answered child c, and so is done. */
  lemma AnsweredRequests(par: Parents, ls: seq<Line>, pend: seq<Pending>, jobs: seq<Job>, pend': seq<Pending>,
                         jobs': seq<Job>, c: nat, q: Pending, j: Job)
    requires |par| == |ls| == |pend| == |jobs| && 0 < c < |par| && pend[0] == None
    requires forall i :: 0 <= i < |par| && i != par[c] && i != c ==> RequestOk(ls[i], pend[i], jobs[i])
    requires forall i :: 0 <= i < |par| ==> ServesOk(par, pend, jobs, i)
    requires !pend[par[c]].Waiting? && RequestOk(ls[c], q, j) && (j == Free || j == jobs[c])
    requires pend' == pend[par[c] := None][c := q] && jobs' == jobs[par[c] := Free][c := j]
    ensures RequestsOk(par, ls, pend', jobs')
  {
    forall i | 0 <= i < |par| ensures ServesOk(par, pend', jobs', i) { assert ServesOk(par, pend, jobs, i); }
  }

  /** Whether the answer to child c must wait for a locked cache that it would invalidate. */
  predicate AnswerBlocked(par: Parents, ls: seq<Line>, pend: seq<Pending>, p: nat, c: nat, typ: AccessType)
    requires p < |par| == |ls| == |pend|
  {
    match typ
    case GETS => Blocked(par, ls, pend, p, 0, INVX)
    case GETX => Blocked(par, ls, pend, p, c, INV)
    case _ => false
  }

  lemma OnlyBelowBlocks(par: Parents, ls: seq<Line>, p: nat, l: Line, pend: seq<Pending>, c: nat, typ: AccessType)
    requires p < |par| == |ls| == |pend|
    ensures AnswerBlocked(par, ls[p := l], pend, p, c, typ) ==> AnswerBlocked(par, ls, pend, p, c, typ)
  {
    if AnswerBlocked(par, ls[p := l], pend, p, c, typ) {
      var x, inv := if typ == GETS then 0 else c, if typ == GETS then INVX else INV;
      var i :| 0 <= i < |par| && Blocks(par, ls[p := l], pend, p, x, inv, i);
      assert Blocks(par, ls, pend, p, x, inv, i);
    }
  }

  /** The state in which parent p may answer child c's request, which the race check made typ. */
  ghost predicate Answerable(par: Parents, ls: seq<Line>, pend: seq<Pending>, jobs: seq<Job>, c: nat, typ: AccessType) {
    && Coherent(par, ls) && |par| == |pend| == |jobs| && 0 < c < |par| && pend[0] == None
    && (forall i :: 0 <= i < |par| && i != par[c] ==> RequestOk(ls[i], pend[i], jobs[i]))
    && (forall i :: 0 <= i < |par| ==> ServesOk(par, pend, jobs, i))
    && pend[c].Waiting? && !pend[par[c]].Waiting? && Ready(typ, ls[par[c]].state)
    && (IsPut(typ) ==> IsPut(pend[c].typ) && ls[c].state != I && (typ == PUTX <==> ls[c].state == M))
    && (!IsPut(typ) ==> pend[c].typ == typ)
    && !AnswerBlocked(par, ls, pend, par[c], c, typ)
  }

  /** The parent has answered: pending requests elsewhere are still fine, and so is c's own. */
  lemma OthersStillOk(par: Parents, ls: seq<Line>, ls': seq<Line>, pend: seq<Pending>, jobs: seq<Job>, c: nat,
                      typ: AccessType)
    requires Answerable(par, ls, pend, jobs, c, typ) && |ls'| == |par| && !IsPut(typ)
    requires var p := par[c]; forall i :: 0 <= i < |par| && i != p && i != c ==>
               ls'[i] == Sent(par, ls, p, if typ == GETS then 0 else c, if typ == GETS then INVX else INV, i)
    ensures forall i :: 0 <= i < |par| && i != par[c] && i != c ==> RequestOk(ls'[i], pend[i], jobs[i])
  {
    var p, x, inv := par[c], if typ == GETS then 0 else c, if typ == GETS then INVX else INV;
    forall i | 0 <= i < |par| && i != p && i != c ensures RequestOk(ls'[i], pend[i], jobs[i]) {
      SentRequests(par, ls, ls', pend, jobs, p, x, inv, i);
    }
  }

  lemma DirtAfterGets(par: Parents, ls: seq<Line>, ls': seq<Line>, p: nat, c: nat)
    requires p < |par| == |ls| == |ls'| && c < |par| && HasDirty(ls) && ls[c].state == I && ls'[p].state == ls[p].state
    requires forall i :: 0 <= i < |par| && i != p && i != c ==> ls'[i] == Sent(par, ls, p, 0, INVX, i)
    ensures HasDirty(ls') || DirtyBelow(par, ls, p, 0, |par|)
  {
    var i :| 0 <= i < |ls| && ls[i].state == M;
    assert ls'[i].state == M || IsDirtyBelow(par, ls, p, 0, |par|, i);
  }

  lemma NoNewDirtAfterGets(par: Parents, ls: seq<Line>, ls': seq<Line>, p: nat, c: nat, wb: bool)
    requires p < |par| == |ls| == |ls'| && c < |par| && HasDirty(ls') && ls'[c].state in {S, E}
    requires forall i :: 0 <= i < |par| && i != p && i != c ==> ls'[i] == Sent(par, ls, p, 0, INVX, i)
    requires wb <==> DirtyBelow(par, ls, p, 0, |par|)
    requires p != c && (!wb ==> ls'[p].state == ls[p].state)
    ensures HasDirty(ls)
  {
    var i :| 0 <= i < |ls'| && ls'[i].state == M;
    if i != p { SentNoNewDirt(par, ls, ls', p, 0, INVX, i); }
    if wb { var k :| 0 <= k < |ls| && IsDirtyBelow(par, ls, p, 0, |par|, k); }
  }

  lemma DirtAfterPut(ls: seq<Line>, ls': seq<Line>, p: nat, c: nat)
    requires |ls| == |ls'| && p < |ls| && c < |ls| && HasDirty(ls)
    requires forall i :: 0 <= i < |ls| && i != c ==> ls'[i].state == ls[i].state
    requires p != c && (ls[c].state == M ==> ls[p].state == M)
    ensures HasDirty(ls')
  {
    var i :| 0 <= i < |ls| && ls[i].state == M;
    assert ls'[i].state == M || ls'[p].state == M;
  }

  /** Whether the bottom controller of cache n can serve a request without its parent. */
  predicate AtOnce(n: nat, state: MESI, typ: AccessType) {
    n == 0 || IsPut(typ) || Excl(state) || (typ == GETS && state == S)
  }

  /** Child c's request is dropped, as there is nothing left to put. */
  lemma SkippedRequests(par: Parents, ls: seq<Line>, pend: seq<Pending>, jobs: seq<Job>, c: nat)
    requires RequestsOk(par, ls, pend, jobs) && 0 < c < |par| && !jobs[par[c]].Serving?
    ensures RequestsOk(par, ls, pend[c := None], jobs[c := Free])
  {
    var pend', jobs' := pend[c := None], jobs[c := Free];
    forall i | 0 <= i < |par| ensures ServesOk(par, pend', jobs', i) {
      assert ServesOk(par, pend, jobs, i);
    }
  }

  /** Cache n now waits for its own parent, on behalf of who. */
  lemma WaitingRequests(par: Parents, ls: seq<Line>, pend: seq<Pending>, jobs: seq<Job>, n: nat, q: Pending, j: Job)
    requires RequestsOk(par, ls, pend, jobs) && 0 < n < |par| && jobs[n] == Free
    requires q.Waiting? && RequestOk(ls[n], q, j)
    requires j.Serving? && j.who.Child? ==>
               0 < j.who.id < |par| && par[j.who.id] == n && pend[j.who.id].Waiting? &&
               pend[j.who.id].typ == j.typ && pend[j.who.id].noExcl == j.noExcl
    ensures RequestsOk(par, ls, pend[n := q], jobs[n := j])
  {
    var pend', jobs' := pend[n := q], jobs[n := j];
    forall i | 0 <= i < |par| ensures ServesOk(par, pend', jobs', i) {
      assert ServesOk(par, pend, jobs, i) && RequestOk(ls[n], pend[n], jobs[n]);
    }
  }

  /** A step that changes only the line in cache n, which has no request. */
  lemma IdleRequests(par: Parents, ls: seq<Line>, pend: seq<Pending>, jobs: seq<Job>, n: nat, l: Line)
    requires RequestsOk(par, ls, pend, jobs) && n < |par| && jobs[n] == Free
    ensures RequestsOk(par, ls[n := l], pend, jobs)
  {
    assert RequestOk(ls[n], pend[n], jobs[n]);
    forall i | 0 <= i < |par|
      ensures RequestOk(ls[n := l][i], pend[i], jobs[i])
    {
      assert RequestOk(ls[i], pend[i], jobs[i]);
    }
  }

  lemma RaisedDirt(ls: seq<Line>, n: nat, m: MESI)
    requires n < |ls| && (ls[n].state == M ==> m == M)
    ensures HasDirty(ls) ==> HasDirty(ls[n := ls[n].(state := m)])
    ensures m == M ==> HasDirty(ls[n := ls[n].(state := m)])
  {
    var ls' := ls[n := ls[n].(state := m)];
    if HasDirty(ls) {
      var i :| 0 <= i < |ls| && ls[i].state == M;
      assert ls'[i].state == M;
    }
    assert ls'[n].state == m;
  }

  class Hierarchy {
    const par: Parents
    var lines: seq<Line>
    var pend: seq<Pending>
    var jobs: seq<Job>
    ghost var dirty: bool  // memory is out of date

    /** Coherence, with every request in a state it can be in, and dirty data held somewhere. */
    ghost predicate Valid()
      reads this
    {
      && Coherent(par, lines)
      && RequestsOk(par, lines, pend, jobs)
      && (dirty ==> HasDirty(lines))
      && Explained(lines, jobs, dirty)
    }

    /** Nothing has been written that memory does not have, and no store is on its way. */
    ghost predicate Quiet()
      reads this
    {
      !dirty && !Storing(jobs)
    }

    constructor (par: Parents)
      ensures Valid() && !dirty && this.par == par
    {
      this.par := par;
      lines := seq(|par|, i => Line(I, {}, 0, false));
      pend := seq(|par|, i => None);
      jobs := seq(|par|, i => Free);
      dirty := false;
    }

    /** MESITopCC::sendInvalidates; child x, if x > 0, was just taken out of the sharers. */
    method SendInvalidates(n: nat, typ: InvType, ghost x: nat) returns (wb: bool)
      requires n < |par| && SubtreeOk(par, lines, n, x)
      requires x > 0 ==> x < |par| && par[x] == n && x !in lines[n].sharers && typ == INV
      modifies `lines
      ensures |lines| == |par| && forall i :: 0 <= i < |par| ==> lines[i] == Sent(par, old(lines), n, x, typ, i)
      ensures wb <==> DirtyBelow(par, old(lines), n, x, |par|)
      decreases |par| - n, 0, 1
    {
      wb := false;
      ghost var was := lines;
      if typ == INVX && !lines[n].IsExclusive() {
        NoExclusiveChild(par, was, n);
        return;
      }
      assert NodeOk(par, was, n);
      var sentInvs := 0;
      wb, sentInvs := TellSharers(n, typ, x);
      assert Left(was[n].sharers, |par|) == {};
      assert sentInvs == lines[n].numSharers;
      if typ == INV {
        lines := lines[n := lines[n].(numSharers := 0)];
      } else {
        assert lines[n].exclusive && lines[n].numSharers == 1;
        lines := lines[n := lines[n].(exclusive := false)];
      }
    }

    /** The loop over the children. */
    method TellSharers(n: nat, typ: InvType, ghost x: nat) returns (wb: bool, sentInvs: nat)
      requires n < |par| && SubtreeOk(par, lines, n, x) && (typ == INVX ==> lines[n].IsExclusive())
      requires x > 0 ==> x < |par| && par[x] == n && x !in lines[n].sharers && typ == INV
      modifies `lines
      ensures Telling(par, old(lines), lines, n, x, typ, |par|, wb)
      ensures sentInvs == SentSoFar(old(lines)[n].sharers, |par|)
      decreases |par| - n, 0, 0
    {
      ghost var was := lines;
      wb, sentInvs := false, 0;
      NothingSent(was[n].sharers);
      for c := 0 to |par|
        invariant Telling(par, was, lines, n, x, typ, c, wb)
        invariant sentInvs == SentSoFar(was[n].sharers, c)
      {
        if c in lines[n].sharers {
          wb := TellSharer(n, typ, x, c, was, wb);
          sentInvs := sentInvs + 1;
        } else {
          SharerPassed(par, was, lines, n, x, typ, c, wb);
        }
      }
    }

    method TellSharer(n: nat, typ: InvType, ghost x: nat, c: nat, ghost was: seq<Line>, wb: bool) returns (wb': bool)
      requires n < |was| == |par| && SubtreeOk(par, was, n, x) && (typ == INVX ==> was[n].IsExclusive())
      requires x > 0 ==> x < |par| && par[x] == n && x !in was[n].sharers && typ == INV
      requires c < |par| && c in was[n].sharers && Telling(par, was, lines, n, x, typ, c, wb)
      modifies `lines
      ensures Telling(par, was, lines, n, x, typ, c + 1, wb')
      ensures SentSoFar(was[n].sharers, c + 1) == SentSoFar(was[n].sharers, c) + 1
      decreases |par| - n, 0, 0, 0
    {
      ghost var ls := lines;
      ChildNotTold(par, was, ls, n, x, typ, c);
      var w := Invalidate(c, typ);
      wb' := wb || w;
      ghost var told := lines;
      if typ == INV { lines := lines[n := lines[n].(sharers := lines[n].sharers - {c})]; }
      SharerTold(par, was, ls, told, lines, n, x, typ, c, wb, w);
      OneMoreSent(was[n].sharers, c);
    }

    /** Cache::invalidate: MESICC::processInv, of which MESITerminalCC::processInv is the case
        without children. */
    method Invalidate(n: nat, typ: InvType) returns (wb: bool)
      requires n < |par| && SubtreeOk(par, lines, n, 0)
      requires lines[n].state != I && (typ == INVX ==> Excl(lines[n].state))
      modifies `lines
      ensures |lines| == |par|
      ensures forall i :: 0 <= i < |par| ==>
                lines[i] == if Under(par, i, n) then Lowered(old(lines)[i], typ) else old(lines)[i]
      ensures wb <==> DirtyIn(par, old(lines), n)
      decreases |par| - n, 1
    {
      ghost var was := lines;
      wb := SendInvalidates(n, typ, 0);
      // MESIBottomCC::processInval
      if lines[n].state == M { wb := true; }
      lines := lines[n := lines[n].(state := if typ == INV then I else S)];
      assert wb <==> DirtyIn(par, was, n) by { DirtyHereOrBelow(par, was, n); }
    }

    // ----- the bottom controller -----

    /** CheckForMESIRace: what to make of a request whose line changed under it. */
    static method CheckForMESIRace(typ: AccessType, state: MESI, initial: MESI) returns (typ': AccessType, skip: bool)
      requires Raced(typ, initial, state)
      ensures skip <==> state != initial && IsPut(typ) && state == I
      ensures typ' == if state != initial && typ == PUTX && state == S then PUTS else typ
      ensures !skip && IsPut(typ') ==> state != I && (typ' == PUTX <==> state == M)
      ensures !IsPut(typ') ==> state in {I, S} && (typ' == GETS ==> state == I)
    {
      typ', skip := typ, false;
      if state != initial {
        if typ == PUTS || typ == PUTX {
          if state == I {
            skip := true;
          } else {
            assert state == S;
            if typ == PUTX { typ' := PUTS; }
          }
        } else if typ == GETX {
          assert initial == S;
          assert state == I;
        } else {
          assert false;
        }
      }
    }

    /** MESIBottomCC::processAccess, up to the point where it must wait for the parent (done is then
        false); the root has memory for a parent, which answers at once. */
    method BccProcessAccess(n: nat, typ: AccessType, noExcl: bool) returns (done: bool)
      requires |lines| == |pend| == |par| && n < |par| && Coherent(par, lines)
      requires IsPut(typ) ==> lines[n].state != I
      requires typ == PUTX ==> Excl(lines[n].state)
      modifies `lines, `pend
      ensures |lines| == |par| && Coherent(par, lines)
      ensures !done ==> n > 0 && pend == old(pend)[n := Waiting(typ, lines[n].state, noExcl)] && lines == old(lines)
      ensures !done ==> !IsPut(typ) && Raced(typ, lines[n].state, lines[n].state)
      ensures done ==> pend == old(pend) && lines == old(lines)[n := old(lines)[n].(state := lines[n].state)]
      ensures done ==> Ready(typ, lines[n].state)
      ensures typ == PUTS || (typ == GETS && old(lines)[n].state != I) ==> lines == old(lines)
      ensures typ == GETS && old(lines)[n].state == I && done ==> lines[n].state == if noExcl then S else E
      ensures (typ == PUTX || typ == GETX) && done ==> lines[n].state == M
      ensures done <==> n == 0 || IsPut(typ) || Excl(old(lines)[n].state) || (typ == GETS && old(lines)[n].state == S)
      ensures old(lines)[n].state == M ==> lines[n].state == M
    {
      done := true;
      match typ
      case PUTS =>
      case PUTX =>
        if lines[n].state == E { SetState(n, M); }
      case GETS =>
        if lines[n].state == I { done := AccessParent(n, typ, noExcl); }
      case GETX =>
        if lines[n].state == I || lines[n].state == S {
          done := AccessParent(n, typ, noExcl);
        } else if lines[n].state == E {
          SetState(n, M);
        }
    }

    /** Send a GETS or GETX upwards. */
    method AccessParent(n: nat, typ: AccessType, noExcl: bool) returns (done: bool)
      requires |lines| == |pend| == |par| && n < |par| && Coherent(par, lines)
      requires (typ == GETS && lines[n].state == I) || (typ == GETX && lines[n].state in {I, S})
      modifies `lines, `pend
      ensures Coherent(par, lines) && (done <==> n == 0)
      ensures done ==> pend == old(pend) && lines == old(lines)[n := old(lines)[n].(state := MemoryAnswer(typ, noExcl))]
      ensures !done ==> lines == old(lines) && pend == old(pend)[n := Waiting(typ, lines[n].state, noExcl)]
    {
      done := n == 0;
      if done {
        SetState(0, MemoryAnswer(typ, noExcl));
      } else {
        pend := pend[n := Waiting(typ, lines[n].state, noExcl)];
      }
    }

    method SetState(n: nat, m: MESI)
      requires Coherent(par, lines) && n < |par| && m != I
      requires Excl(lines[n].state) ==> Excl(m)
      requires n > 0 ==> Excl(lines[n].state)
      modifies `lines
      ensures Coherent(par, lines) && lines == old(lines)[n := old(lines)[n].(state := m)]
    {
      RaiseKeeps(par, lines, n, m);
      lines := lines[n := lines[n].(state := m)];
    }

    // ----- the top controller -----

    /** MESITopCC::processAccess, PUTS and PUTX. */
    method TccPut(p: nat, c: nat, typ: AccessType)
      requires Coherent(par, lines) && 0 < c < |par| && p == par[c] && IsPut(typ)
      requires lines[c].state != I && lines[c].sharers == {} && (typ == PUTX ==> lines[c].state == M)
      modifies `lines
      ensures Coherent(par, lines) && forall i :: 0 <= i < |par| && i != p && i != c ==> lines[i] == old(lines)[i]
      ensures lines[c] == old(lines)[c].(state := I)
      ensures var s := old(lines)[p].sharers - {c}; lines[p] == old(lines)[p].(sharers := s, numSharers := |s|)
    {
      ghost var was := lines;
      assert EdgeOk(par, was, c) && NodeOk(par, was, p);
      assert typ == PUTX ==> lines[p].IsExclusive();
      assert c in lines[p].sharers;
      lines := lines[p := lines[p].(sharers := lines[p].sharers - {c}, numSharers := lines[p].numSharers - 1)];
      lines := lines[c := lines[c].(state := I)];
      PutKeeps(par, was, lines, c);
    }

    /** MESITopCC::processAccess, GETS: exclusively if nobody shares, and otherwise the exclusive sharer
        is downgraded. */
    method TccGets(p: nat, c: nat, noExcl: bool) returns (wb: bool)
      requires Coherent(par, lines) && 0 < c < |par| && p == par[c]
      requires lines[p].state != I && lines[c].state == I
      modifies `lines
      ensures Coherent(par, lines)
      ensures forall i :: 0 <= i < |par| && i != p && i != c ==> lines[i] == Sent(par, old(lines), p, 0, INVX, i)
      ensures lines[p].state == old(lines)[p].state && lines[p].sharers == old(lines)[p].sharers + {c}
      ensures lines[c] == old(lines)[c].(state := lines[c].state)
      ensures lines[c].state == if old(lines)[p].sharers == {} && Excl(lines[p].state) && !noExcl then E else S
      ensures wb <==> DirtyBelow(par, old(lines), p, 0, |par|)
    {
      ghost var was := lines;
      wb := false;
      if lines[p].IsEmpty() && Excl(lines[p].state) && !noExcl {
        NoExclusiveChild(par, was, p);
        lines := lines[p := lines[p].(exclusive := true, sharers := {c}, numSharers := 1)];
        lines := lines[c := lines[c].(state := E)];
        assert NodeOk(par, was, p) && EdgeOk(par, was, c);
        GrantKeeps(par, was, lines, c, E);
      } else {
        assert NodeOk(par, was, p);
        wb := TccShare(p, c);
      }
    }

    method TccShare(p: nat, c: nat) returns (wb: bool)
      requires Coherent(par, lines) && 0 < c < |par| && p == par[c]
      requires lines[p].state != I && lines[c].state == I
      modifies `lines
      ensures Coherent(par, lines)
      ensures forall i :: 0 <= i < |par| && i != p && i != c ==> lines[i] == Sent(par, old(lines), p, 0, INVX, i)
      ensures lines[p].state == old(lines)[p].state && lines[p].sharers == old(lines)[p].sharers + {c}
      ensures lines[c] == old(lines)[c].(state := S)
      ensures wb <==> DirtyBelow(par, old(lines), p, 0, |par|)
    {
      ghost var was := lines;
      wb := false;
      assert EdgeOk(par, was, c);
      assert c !in lines[p].sharers;
      if lines[p].IsExclusive() {
        wb := SendInvalidates(p, INVX, 0);
        SentKeeps(par, was, lines, p, 0, INVX);
      } else {
        NoExclusiveChild(par, was, p);
      }
      assert !lines[p].IsExclusive();
      ghost var told := lines;
      InvalidHasNoSharers(par, was, c);
      assert told[c] == was[c];
      lines := lines[p := lines[p].(sharers := lines[p].sharers + {c}, numSharers := lines[p].numSharers + 1,
                                    exclusive := false)];
      lines := lines[c := lines[c].(state := S)];
      ShareKeeps(par, told, lines, c);
    }

    /** MESITopCC::processAccess, GETX: everybody else is invalidated. */
    method TccGetx(p: nat, c: nat) returns (wb: bool)
      requires Coherent(par, lines) && 0 < c < |par| && p == par[c]
      requires Excl(lines[p].state) && lines[c].state in {I, S}
      modifies `lines
      ensures Coherent(par, lines)
      ensures forall i :: 0 <= i < |par| && i != p && i != c ==> lines[i] == Sent(par, old(lines), p, c, INV, i)
      ensures lines[p] == Line(old(lines)[p].state, {c}, 1, true)
      ensures lines[c] == old(lines)[c].(state := M)
      ensures wb <==> DirtyBelow(par, old(lines), p, c, |par|)
    {
      ghost var was := lines;
      assert NodeOk(par, was, p) && EdgeOk(par, was, c);
      if c in lines[p].sharers {
        assert !lines[p].IsExclusive();
        lines := lines[p := lines[p].(sharers := lines[p].sharers - {c}, numSharers := lines[p].numSharers - 1)];
        TakenOutKeeps(par, was, lines, c);
      }
      ghost var out := lines;
      assert CoherentBut(par, out, c) && c !in out[p].sharers && out[c] == was[c];
      wb := SendInvalidates(p, INV, c);
      SameDirtBelow(par, was, out, p, c);
      SentKeeps(par, out, lines, p, c, INV);
      ghost var told := lines;
      assert told[c] == was[c];
      lines := lines[p := lines[p].(sharers := lines[p].sharers + {c}, numSharers := lines[p].numSharers + 1,
                                    exclusive := true)];
      assert lines[p].numSharers == 1;
      lines := lines[c := lines[c].(state := M)];
      assert {} + {c} == {c};
      GrantKeeps(par, told, lines, c, M);
    }

    // ----- answering a child: the tail of MESICC::processAccess, and endAccess -----

    method AnswerPut(p: nat, c: nat, typ: AccessType)
      requires IsPut(typ) && Answerable(par, lines, pend, jobs, c, typ) && p == par[c]
      modifies `lines, `pend, `jobs
      ensures Coherent(par, lines) && RequestsOk(par, lines, pend, jobs)
      ensures HasDirty(old(lines)) <==> HasDirty(lines)
      ensures pend == old(pend)[p := None][c := None] && jobs == old(jobs)[p := Free][c := Free]
      ensures Answered(par, old(lines), lines, c, typ, false)
    {
      ghost var was := lines;
      TccPut(p, c, typ);
      assert lines[c].state == I;  // the eviction in the child ends in I
      if HasDirty(was) { DirtAfterPut(was, lines, p, c); }
      if HasDirty(lines) { assert forall i :: 0 <= i < |par| && lines[i].state == M ==> was[i].state == M; }
      ghost var pend0, jobs0 := pend, jobs;
      pend := pend[p := None][c := None];
      jobs := jobs[p := Free][c := Free];
      AnsweredRequests(par, lines, pend0, jobs0, pend, jobs, c, None, Free);
    }

    method AnswerGets(p: nat, c: nat, noExcl: bool)
      requires Answerable(par, lines, pend, jobs, c, GETS) && p == par[c]
      modifies `lines, `pend, `jobs
      ensures Coherent(par, lines) && RequestsOk(par, lines, pend, jobs)
      ensures HasDirty(old(lines)) <==> HasDirty(lines)
      ensures pend == old(pend)[p := None][c := Granted] && jobs == old(jobs)[p := Free]
      ensures Answered(par, old(lines), lines, c, GETS, noExcl)
    {
      ghost var was := lines;
      var wb := TccGets(p, c, noExcl);
      ghost var told := lines;
      OthersStillOk(par, was, told, pend, jobs, c, GETS);
      if HasDirty(was) { DirtAfterGets(par, was, told, p, c); }
      if wb {
        DirtMeansExclusive(par, was, p, 0);
        ProcessWritebackOnAccess(p);
      }
      assert forall i :: 0 <= i < |par| && i != p ==> lines[i] == told[i];
      if HasDirty(lines) { NoNewDirtAfterGets(par, was, lines, p, c, wb); }
      Deliver(p, c);
    }

    method AnswerGetx(p: nat, c: nat)
      requires Answerable(par, lines, pend, jobs, c, GETX) && p == par[c]
      modifies `lines, `pend, `jobs
      ensures Coherent(par, lines) && RequestsOk(par, lines, pend, jobs)
      ensures HasDirty(lines)
      ensures pend == old(pend)[p := None][c := Granted] && jobs == old(jobs)[p := Free]
      ensures Answered(par, old(lines), lines, c, GETX, false)
    {
      ghost var was := lines;
      var wb := TccGetx(p, c);
      OthersStillOk(par, was, lines, pend, jobs, c, GETX);
      if wb { ProcessWritebackOnAccess(p); }
      assert lines[c].state == M;
      Deliver(p, c);
    }

    /** MESIBottomCC::processWritebackOnAccess. */
    method ProcessWritebackOnAccess(n: nat)
      requires Coherent(par, lines) && n < |par| && Excl(lines[n].state)
      modifies `lines
      ensures Coherent(par, lines) && lines == old(lines)[n := old(lines)[n].(state := M)]
      ensures HasDirty(lines)
    {
      if lines[n].state == E { SetState(n, M); }
      assert lines[n].state == M;
    }

    method Deliver(p: nat, c: nat)
      requires |par| == |lines| == |pend| == |jobs| && 0 < c < |par| && p == par[c] && pend[0] == None
      requires forall i :: 0 <= i < |par| && i != p && i != c ==> RequestOk(lines[i], pend[i], jobs[i])
      requires forall i :: 0 <= i < |par| ==> ServesOk(par, pend, jobs, i)
      requires !pend[p].Waiting? && RequestOk(lines[c], Granted, jobs[c])
      modifies `pend, `jobs
      ensures RequestsOk(par, lines, pend, jobs)
      ensures pend == old(pend)[p := None][c := Granted] && jobs == old(jobs)[p := Free]
    {
      ghost var pend0, jobs0 := pend, jobs;
      pend := pend[p := None][c := Granted];
      jobs := jobs[p := Free];
      AnsweredRequests(par, lines, pend0, jobs0, pend, jobs, c, Granted, jobs0[c]);
    }

    // ----- the steps that any cache may take, in any order -----

    /** Cache::access at p, on behalf of its child c, from taking p's locks to answering or to waiting
        for p's own parent.  It starts when p's locks are free. */
    method Begin(p: nat, c: nat)
      requires Valid() && 0 < c < |par| && p == par[c] && pend[c].Waiting? && jobs[p] == Free
      requires AtOnce(p, lines[p].state, pend[c].typ) ==> !AnswerBlocked(par, lines, pend, p, c, pend[c].typ)
      modifies this
      ensures Valid() && dirty == old(dirty) && SameStores(old(jobs), jobs)
      ensures !pend[c].Waiting? <==> AtOnce(p, old(lines)[p].state, old(pend)[c].typ)
      ensures jobs[p] == Free ==> !pend[c].Waiting?
      ensures !pend[c].Waiting? ==> pend[c] == if IsPut(old(pend)[c].typ) then None else Granted
      ensures !pend[c].Waiting? ==>
                var typ, noExcl, state := old(pend)[c].typ, old(pend)[c].noExcl, old(lines)[c].state;
                if IsPut(typ) && state == I then lines == old(lines)
                else
                  var now := if typ == PUTX && state == S then PUTS else typ;  // overtaken by a downgrade
                  var reached := Reached(now, old(lines)[p].state, noExcl);
                  Answered(par, old(lines)[p := old(lines)[p].(state := reached)], lines, c, now, noExcl)
      ensures pend[c].Waiting? ==>
                pend[c] == old(pend)[c] && jobs[p] == Serving(Child(c), pend[c].typ, pend[c].noExcl) &&
                lines == old(lines)
    {
      assert RequestOk(lines[c], pend[c], jobs[c]) && RequestOk(lines[p], pend[p], jobs[p]);
      var typ, skip := CheckForMESIRace(pend[c].typ, lines[c].state, pend[c].initial);
      if skip {
        SkippedRequests(par, lines, pend, jobs, c);
        ghost var jobs0 := jobs;
        pend, jobs := pend[c := None], jobs[c := Free];
        SameStoring(jobs0, jobs);
      } else {
        Serve(p, c, typ);
      }
    }

    /** Serve child c, whose request the race check has made typ. */
    method Serve(p: nat, c: nat, typ: AccessType)
      requires Valid() && 0 < c < |par| && p == par[c] && pend[c].Waiting? && jobs[p] == Free
      requires AtOnce(p, lines[p].state, pend[c].typ) ==> !AnswerBlocked(par, lines, pend, p, c, pend[c].typ)
      requires if IsPut(typ) then IsPut(pend[c].typ) && lines[c].state != I && (typ == PUTX <==> lines[c].state == M)
               else pend[c].typ == typ
      modifies this
      ensures Valid() && dirty == old(dirty) && SameStores(old(jobs), jobs)
      ensures !pend[c].Waiting? <==> AtOnce(p, old(lines)[p].state, old(pend)[c].typ)
      ensures jobs[p] == Free ==> !pend[c].Waiting?
      ensures !pend[c].Waiting? ==> pend[c] == if IsPut(typ) then None else Granted
      ensures !pend[c].Waiting? ==>
                var reached := Reached(typ, old(lines)[p].state, old(pend)[c].noExcl);
                Answered(par, old(lines)[p := old(lines)[p].(state := reached)], lines, c, typ, old(pend)[c].noExcl)
      ensures pend[c].Waiting? ==>
                pend[c] == old(pend)[c] && jobs[p] == Serving(Child(c), pend[c].typ, pend[c].noExcl) &&
                lines == old(lines)
    {
      ghost var was, jobs0 := lines, jobs;
      assert RequestOk(lines[c], pend[c], jobs[c]);
      if typ == GETX { var n := StoreBelow(par, lines, pend, jobs, c); }
      PutMeetsParent(c, typ);
      var done := BccProcessAccess(p, typ, pend[c].noExcl);
      if done {
        AnswerReady(was, c, typ);
        if typ != GETX && HasDirty(lines) { SameDirtBut(was, lines, p, c); }
        Answer(p, c, typ, pend[c].noExcl);
      } else {
        WaitingRequests(par, lines, old(pend), jobs, p, pend[p], Serving(Child(c), typ, pend[c].noExcl));
        jobs := jobs[p := Serving(Child(c), typ, pend[c].noExcl)];
      }
      SameStoring(jobs0, jobs);
    }

    lemma PutMeetsParent(c: nat, typ: AccessType)
      requires Coherent(par, lines) && 0 < c < |par|
      requires (IsPut(typ) ==> lines[c].state != I) && (typ == PUTX ==> lines[c].state == M)
      ensures IsPut(typ) ==> lines[par[c]].state != I
      ensures typ == PUTX ==> Excl(lines[par[c]].state)
    {
      assert EdgeOk(par, lines, c);
    }

    lemma AnswerReady(was: seq<Line>, c: nat, typ: AccessType)
      requires |was| == |par| && 0 < c < |par| && Coherent(par, lines) && RequestsOk(par, was, pend, jobs)
      requires jobs[par[c]] == Free && pend[c].Waiting?
      requires lines == was[par[c] := was[par[c]].(state := lines[par[c]].state)] && Ready(typ, lines[par[c]].state)
      requires IsPut(typ) ==> IsPut(pend[c].typ) && was[c].state != I && (typ == PUTX <==> was[c].state == M)
      requires !IsPut(typ) ==> pend[c].typ == typ && !AnswerBlocked(par, was, pend, par[c], c, typ)
      ensures Answerable(par, lines, pend, jobs, c, typ)
    {
      var p := par[c];
      assert RequestOk(was[p], pend[p], jobs[p]);
      OnlyBelowBlocks(par, was, p, was[p].(state := lines[p].state), pend, c, typ);
    }

    method Answer(p: nat, c: nat, typ: AccessType, noExcl: bool)
      requires Answerable(par, lines, pend, jobs, c, typ) && p == par[c]
      modifies `lines, `pend, `jobs
      ensures Coherent(par, lines) && RequestsOk(par, lines, pend, jobs)
      ensures HasDirty(old(lines)) ==> HasDirty(lines)
      ensures typ != GETX && HasDirty(lines) ==> HasDirty(old(lines))
      ensures !StoresAt(old(jobs), p) ==> SameStores(old(jobs), jobs)
      ensures pend[p] == None && jobs[p] == Free
      ensures pend[c] == if IsPut(typ) then None else Granted
      ensures Answered(par, old(lines), lines, c, typ, noExcl)
    {
      match typ {
        case GETS => AnswerGets(p, c, noExcl);
        case GETX => AnswerGetx(p, c);
        case _ => AnswerPut(p, c, typ);
      }
      assert EdgeOk(par, lines, c) && RequestOk(lines[c], pend[c], jobs[c]);
    }

    /** The parent has answered; carry on with the request that was being served. */
    method Resume(n: nat)
      requires Valid() && n < |par| && pend[n] == Granted
      requires jobs[n].Serving? && jobs[n].who.Child? ==>
                 !AnswerBlocked(par, lines, pend, n, jobs[n].who.id, jobs[n].typ)
      modifies this
      ensures Valid() && pend[n] == None
      ensures dirty == (old(dirty) || (old(jobs)[n].who == Core && old(jobs)[n].typ == GETX))
      ensures match old(jobs)[n].who
              case Core => lines == old(lines)
              case Child(c) => n < c < |par| && n == par[c] && pend[c] == Granted &&
                               Answered(par, old(lines), lines, c, old(jobs)[n].typ, old(jobs)[n].noExcl)
      ensures Storing(jobs) ==> old(Storing(jobs))
    {
      ghost var jobs0 := jobs;
      assert RequestOk(lines[n], pend[n], jobs[n]) && ServesOk(par, pend, jobs, n);
      var typ := jobs[n].typ;
      assert typ == GETS ==> lines[n].state == S || lines[n].state == E;
      assert typ == GETX ==> lines[n].state == M;
      match jobs[n].who
      case Core =>
        CoreDone(n);
      case Child(c) =>
        assert RequestOk(lines[c], pend[c], jobs[c]);
        if typ == GETX { var k := StoreBelow(par, lines, pend, jobs, n); }
        Answer(n, c, typ, jobs[n].noExcl);
        SameStoring(jobs0, jobs);
    }

    /** The access of a core is over; a store has written the line. */
    method CoreDone(n: nat)
      requires Coherent(par, lines) && RequestsOk(par, lines, pend, jobs) && n < |par|
      requires jobs[n].Serving? && jobs[n].who == Core && pend[n] == Granted && (dirty ==> HasDirty(lines))
      requires Explained(lines, jobs, dirty)
      modifies `pend, `jobs, `dirty
      ensures Valid() && pend == old(pend)[n := None] && jobs == old(jobs)[n := Free]
      ensures dirty == (old(dirty) || old(jobs)[n].typ == GETX)
      ensures Storing(jobs) ==> old(Storing(jobs))
    {
      assert RequestOk(lines[n], pend[n], jobs[n]);
      if jobs[n].typ == GETX { dirty := true; }
      ghost var pend0, jobs0 := pend, jobs;
      pend, jobs := pend[n := None], jobs[n := Free];
      forall i | 0 <= i < |par| ensures ServesOk(par, pend, jobs, i) { assert ServesOk(par, pend0, jobs0, i); }
      if Storing(jobs) {
        var k :| 0 <= k < |jobs| && StoresAt(jobs, k);
        assert StoresAt(jobs0, k);
      }
      if jobs0[n].typ != GETX { SameStoring(jobs0, jobs); }
    }

    /** A load or a store of the core at cache n (MESITerminalCC::processAccess). */
    method CoreAccess(n: nat, typ: AccessType, noExcl: bool)
      requires Valid() && n < |par| && jobs[n] == Free && !IsPut(typ)
      modifies this
      ensures Valid()
      ensures jobs[n] == Free ==>
                && dirty == (old(dirty) || typ == GETX)
                && lines == old(lines)[n := old(lines)[n].(state := lines[n].state)]
                && lines[n].state == if typ == GETX then M else if old(lines)[n].state != I then old(lines)[n].state
                                     else if noExcl then S else E
      ensures jobs[n] == Free <==>
                n == 0 || Excl(old(lines)[n].state) || (typ == GETS && old(lines)[n].state == S)
      ensures jobs[n] != Free ==>
                && dirty == old(dirty) && lines == old(lines)
                && pend[n] == Waiting(typ, lines[n].state, noExcl) && jobs[n] == Serving(Core, typ, noExcl)
      ensures typ == GETS && Storing(jobs) ==> old(Storing(jobs))
    {
      ghost var was, jobs0 := lines, jobs;
      var done := BccProcessAccess(n, typ, noExcl);
      if done {
        IdleRequests(par, was, pend, jobs, n, was[n].(state := lines[n].state));
        RaisedDirt(was, n, lines[n].state);
        if typ == GETX { dirty := true; } else if HasDirty(lines) { SameDirtBut(was, lines, n, n); }
      } else {
        WaitingRequests(par, lines, old(pend), jobs, n, pend[n], Serving(Core, typ, noExcl));
        jobs := jobs[n := Serving(Core, typ, noExcl)];
        MoreStores(jobs0, jobs, n);
      }
    }

    lemma MoreStores(jobs0: seq<Job>, jobs: seq<Job>, n: nat)
      requires n < |jobs0| == |jobs| && !StoresAt(jobs0, n) && jobs == jobs0[n := jobs[n]]
      ensures Storing(jobs0) ==> Storing(jobs)
      ensures !StoresAt(jobs, n) && Storing(jobs) ==> Storing(jobs0)
    {
      if Storing(jobs0) {
        var k :| 0 <= k < |jobs0| && StoresAt(jobs0, k);
        assert StoresAt(jobs, k);
      }
      if Storing(jobs) && !StoresAt(jobs, n) {
        var k :| 0 <= k < |jobs| && StoresAt(jobs, k);
        assert StoresAt(jobs0, k);
      }
    }

    /** Cache n evicts the line to make room for another (MESICC::processEviction).  It needs n's
        locks, and waits for every locked cache that it has to invalidate. */
    method Evict(n: nat)
      requires Valid() && n < |par| && jobs[n] == Free && !Blocked(par, lines, pend, n, 0, INV)
      modifies this
      ensures Valid() && lines[n].sharers == {}
      ensures var s := if DirtyBelow(par, old(lines), n, 0, |par|) then M else old(lines)[n].state;
              && lines[n].state == (if n == 0 then I else s)
              && (jobs[n] == Free <==> n == 0 || s == I)
              && (jobs[n] != Free ==>
                    pend[n] == Waiting(if s == M then PUTX else PUTS, s, false) && jobs[n] == Evicting)
      ensures forall i :: 0 <= i < |par| && i != n ==>
                lines[i] == if Under(par, i, n) then Lowered(old(lines)[i], INV) else old(lines)[i]
      ensures if n == 0 then !dirty else dirty == old(dirty)
      ensures Storing(jobs) ==> old(Storing(jobs))
    {
      EvictChildren(n);
      EvictLine(n);
    }

    method EvictChildren(n: nat)
      requires Valid() && n < |par| && jobs[n] == Free && !Blocked(par, lines, pend, n, 0, INV)
      modifies `lines
      ensures Valid() && lines[n].sharers == {}
      ensures lines[n].state == if DirtyBelow(par, old(lines), n, 0, |par|) then M else old(lines)[n].state
      ensures forall i :: 0 <= i < |par| && i != n ==>
                lines[i] == if Under(par, i, n) then Lowered(old(lines)[i], INV) else old(lines)[i]
    {
      ghost var was := lines;
      var wb := SendInvalidates(n, INV, 0);
      SentKeeps(par, was, lines, n, 0, INV);
      assert RequestOk(was[n], pend[n], jobs[n]);
      forall i | 0 <= i < |par| ensures RequestOk(lines[i], pend[i], jobs[i]) {
        if i != n { SentRequests(par, was, lines, pend, jobs, n, 0, INV, i); }
      }
      if HasDirty(was) { SentDirt(par, was, lines, n, 0, INV); }
      NoNewDirt(par, was, lines, n);
      if wb {
        DirtMeansExclusive(par, was, n, 0);
        ghost var told := lines;
        ProcessWritebackOnAccess(n);
        IdleRequests(par, told, pend, jobs, n, told[n].(state := M));
      }
    }

    /** MESIBottomCC::processEviction. */
    method EvictLine(n: nat)
      requires Valid() && n < |par| && jobs[n] == Free && lines[n].sharers == {}
      modifies this
      ensures Valid()
      ensures lines == if n == 0 then old(lines)[0 := old(lines)[0].(state := I)] else old(lines)
      ensures jobs[n] == Free <==> n == 0 || lines[n].state == I
      ensures jobs[n] != Free ==>
                pend[n] == Waiting(if lines[n].state == M then PUTX else PUTS, lines[n].state, false) &&
                  jobs[n] == Evicting
      ensures if n == 0 then !dirty else dirty == old(dirty)
      ensures Storing(jobs) ==> old(Storing(jobs))
    {
      ghost var jobs0 := jobs;
      if n == 0 {
        AloneAtTheRoot(par, lines);
        assert lines[0].state != M ==> !dirty;  // a clean put never drops dirty data
        IdleRequests(par, lines, pend, jobs, 0, lines[0].(state := I));
        UnusedKeeps(par, lines, 0, lines[0].exclusive);
        lines := lines[0 := lines[0].(state := I)];
        dirty := false;
      } else if lines[n].state != I {
        var typ := if lines[n].state == M then PUTX else PUTS;
        WaitingRequests(par, lines, pend, jobs, n, Waiting(typ, lines[n].state, false), Evicting);
        pend, jobs := pend[n := Waiting(typ, lines[n].state, false)], jobs[n := Evicting];
        MoreStores(jobs0, jobs, n);
      }
    }

    /** The array entry is taken for the line, with whatever exclusive bit the last line left there. */
    method Reuse(n: nat, stale: bool)
      requires Valid() && n < |par| && jobs[n] == Free && lines[n].state == I
      modifies `lines
      ensures Valid() && lines == old(lines)[n := old(lines)[n].(exclusive := stale)]
    {
      InvalidHasNoSharers(par, lines, n);
      UnusedKeeps(par, lines, n, stale);
      IdleRequests(par, lines, pend, jobs, n, lines[n].(exclusive := stale));
      SameDirtElsewhere(lines, n, lines[n].(exclusive := stale));
      lines := lines[n := lines[n].(exclusive := stale)];
    }

    // ----- whole runs -----

    /** Any schedule of steps; a step whose locks are taken does not happen.  As long as no core stores,
        no line is marked as written. */
    method Run(schedule: seq<Step>)
      requires Valid()
      modifies this
      ensures Valid()
      ensures old(Quiet()) && (forall k :: 0 <= k < |schedule| ==> !IsStore(schedule[k])) ==>
                Quiet() && forall i :: 0 <= i < |lines| ==> lines[i].state != M
    {
      for k := 0 to |schedule|
        invariant Valid()
        invariant old(Quiet()) && (forall j :: 0 <= j < k ==> !IsStore(schedule[j])) ==> Quiet()
      {
        Take(schedule[k]);
      }
    }

    method Take(step: Step)
      requires Valid()
      modifies this
      ensures Valid() && (old(Quiet()) && !IsStore(step) ==> Quiet())
      ensures if old(Enabled(step)) then Taken(step)
              else lines == old(lines) && pend == old(pend) && jobs == old(jobs) && dirty == old(dirty)
    {
      if Enabled(step) {
        match step
        case CoreStep(n, typ, noExcl) => CoreAccess(n, typ, noExcl);
        case EvictStep(n) => Evict(n);
        case BeginStep(c) => Begin(par[c], c);
        case ResumeStep(n) => Resume(n);
        case ReuseStep(n, stale) => Reuse(n, stale);
      }
    }

    predicate Enabled(step: Step)
      reads this
      requires |par| == |lines| == |pend| == |jobs|
    {
      match step
      case CoreStep(n, typ, noExcl) => n < |par| && jobs[n] == Free && !IsPut(typ)
      case EvictStep(n) => n < |par| && jobs[n] == Free && !Blocked(par, lines, pend, n, 0, INV)
      case BeginStep(c) => CanBegin(c)
      case ResumeStep(n) => CanResume(n)
      case ReuseStep(n, stale) => n < |par| && jobs[n] == Free && lines[n].state == I
    }

    /** What a step does to the cache whose step it is. */
    twostate predicate Taken(step: Step)
      reads this
      requires |par| == |old(lines)| == |old(pend)| == |old(jobs)| && old(Enabled(step))
      requires |par| == |lines| == |pend| == |jobs|
    {
      match step
      case CoreStep(n, typ, noExcl) =>
        if AtOnce(n, old(lines)[n].state, typ)
        then jobs[n] == Free && lines[n].state == Reached(typ, old(lines)[n].state, noExcl)
        else jobs[n] == Serving(Core, typ, noExcl) && pend[n] == Waiting(typ, lines[n].state, noExcl)
      case EvictStep(n) => lines[n].sharers == {} && (jobs[n] == Free <==> lines[n].state == I)
      case BeginStep(c) =>
        if AtOnce(par[c], old(lines)[par[c]].state, old(pend)[c].typ) then !pend[c].Waiting?
        else pend[c] == old(pend)[c] && jobs[par[c]] == Serving(Child(c), old(pend)[c].typ, old(pend)[c].noExcl)
      case ResumeStep(n) => pend[n] == None
      case ReuseStep(n, stale) => lines[n].exclusive == stale
    }

    /** The parent of cache c can serve c's request: its locks are free, and so is every cache that it
        would have to invalidate before it answers. */
    predicate CanBegin(c: nat)
      reads this
      requires |par| == |lines| == |pend| == |jobs|
    {
      && 0 < c < |par| && pend[c].Waiting? && jobs[par[c]] == Free
      && (AtOnce(par[c], lines[par[c]].state, pend[c].typ) ==>
            !AnswerBlocked(par, lines, pend, par[c], c, pend[c].typ))
    }

    /** Cache n has its answer, and can act upon it. */
    predicate CanResume(n: nat)
      reads this
      requires |par| == |lines| == |pend| == |jobs|
    {
      && n < |par| && pend[n] == Granted
      && (jobs[n].Serving? && jobs[n].who.Child? ==>
            !AnswerBlocked(par, lines, pend, n, jobs[n].who.id, jobs[n].typ))
    }

    /** No deadlock: whenever some request is on its way, some cache can serve one or act upon one. */
    lemma NoDeadlock(c: nat) returns (i: nat)
      requires Valid() && c < |par| && pend[c] != None
      ensures CanBegin(i) || CanResume(i)
    {
      if exists n :: 0 <= n < |par| && pend[n] == Granted {
        i := LastGranted(|par|);
        NoneBelowBlocks(i, if jobs[i].who.Child? then jobs[i].who.id else 0, jobs[i].typ);
      } else {
        i := FreeParent(c);
      }
    }

    /** The highest numbered cache that has its answer. */
    lemma {:induction false} LastGranted(n: nat) returns (i: nat)
      requires n <= |par| == |pend| && exists k :: 0 <= k < n && pend[k] == Granted
      ensures i < n && pend[i] == Granted && forall k :: i < k < n ==> pend[k] != Granted
    {
      if pend[n - 1] == Granted { i := n - 1; } else { i := LastGranted(n - 1); }
    }

    /** Only caches below n, which have higher numbers, can keep n from answering. */
    lemma NoneBelowBlocks(n: nat, c: nat, typ: AccessType)
      requires n < |par| == |lines| == |pend| && forall k :: n < k < |par| ==> pend[k] != Granted
      ensures !AnswerBlocked(par, lines, pend, n, c, typ)
    {
    }

    /** Up from a cache that waits, there is one that waits for a parent that is free. */
    lemma {:induction false} FreeParent(c: nat) returns (i: nat)
      requires Valid() && c < |par| && pend[c].Waiting?
      requires forall k :: 0 <= k < |par| ==> pend[k] != Granted
      ensures CanBegin(i)
      decreases c
    {
      var p := par[c];
      assert RequestOk(lines[p], pend[p], jobs[p]);
      if jobs[p] == Free {
        i := c;
      } else {
        i := FreeParent(p);
      }
    }
  }

  datatype Step = CoreStep(n: nat, typ: AccessType, noExcl: bool)
                | EvictStep(n: nat)
                | BeginStep(c: nat)
                | ResumeStep(n: nat)
                | ReuseStep(n: nat, stale: bool)

  predicate IsStore(step: Step) { step.CoreStep? && step.typ == GETX }

  /** When the root has no sharers, no other cache holds dirty data. */
  lemma AloneAtTheRoot(par: Parents, ls: seq<Line>)
    requires Coherent(par, ls) && ls[0].sharers == {}
    ensures forall i :: 0 < i < |par| ==> ls[i].state == I
  {
    forall i | 0 < i < |par| ensures ls[i].state == I { InvalidAtTheTop(par, ls, i); }
  }

  lemma {:induction false} InvalidAtTheTop(par: Parents, ls: seq<Line>, i: nat)
    requires Coherent(par, ls) && ls[0].sharers == {} && 0 < i < |par|
    ensures ls[i].state == I
  {
    assert EdgeOk(par, ls, i);
    if par[i] > 0 { InvalidAtTheTop(par, ls, par[i]); }
  }

  /** A line other than p, or the one at c, is dirty already. */
  lemma SameDirtBut(was: seq<Line>, ls: seq<Line>, p: nat, c: nat)
    requires p < |was| == |ls| && c < |was| && HasDirty(ls)
    requires ls == was[p := was[p].(state := ls[p].state)]
    requires ls[p].state == M ==> was[p].state == M || was[c].state == M
    ensures HasDirty(was)
  {
    var i :| 0 <= i < |ls| && ls[i].state == M;
    assert was[i].state == M || was[c].state == M;
  }

  lemma NoNewDirt(par: Parents, ls: seq<Line>, ls': seq<Line>, n: nat)
    requires n < |par| == |ls| == |ls'| && forall i :: 0 <= i < |par| ==> ls'[i] == Sent(par, ls, n, 0, INV, i)
    ensures HasDirty(ls') || DirtyBelow(par, ls, n, 0, |par|) ==> HasDirty(ls)
  {
    if HasDirty(ls') {
      var i :| 0 <= i < |ls'| && ls'[i].state == M;
      SentNoNewDirt(par, ls, ls', n, 0, INV, i);
    }
    if DirtyBelow(par, ls, n, 0, |par|) { var i :| 0 <= i < |ls| && IsDirtyBelow(par, ls, n, 0, |par|, i); }
  }

  lemma SameDirtElsewhere(ls: seq<Line>, n: nat, l: Line)
    requires n < |ls| && l.state == ls[n].state
    ensures HasDirty(ls) <==> HasDirty(ls[n := l])
  {
    if HasDirty(ls[n := l]) {
      var i :| 0 <= i < |ls| && ls[n := l][i].state == M;
      assert ls[i].state == M;
    }
    if HasDirty(ls) {
      var i :| 0 <= i < |ls| && ls[i].state == M;
      assert ls[n := l][i].state == M;
    }
  }

  lemma SameDirt(par: Parents, was: seq<Line>, ls: seq<Line>, n: nat, x: nat, typ: InvType, c: nat)
    requires |was| == |ls| == |par| && 0 < c < |par| && par[c] == n
    requires OthersPartly(par, was, ls, n, x, typ, c)
    ensures DirtyIn(par, ls, c) <==> DirtyIn(par, was, c)
  {
    forall i | 0 <= i < |par| && Under(par, i, c) ensures ls[i] == was[i] { OneWayDown(par, i, n, c); }
    if DirtyIn(par, was, c) {
      var i :| 0 <= i < |par| && Under(par, i, c) && was[i].state == M;
      assert ls[i].state == M;
    }
  }

  lemma SharerPassed(par: Parents, was: seq<Line>, ls: seq<Line>, n: nat, x: nat, typ: InvType, c: nat, wb: bool)
    requires |was| == |par| && n < |par| && c < |par| && SubtreeOk(par, was, n, x) &&
             (x > 0 ==> x < |par| && par[x] == n)
    requires Telling(par, was, ls, n, x, typ, c, wb) && c !in ls[n].sharers
    ensures Telling(par, was, ls, n, x, typ, c + 1, wb)
    ensures SentSoFar(was[n].sharers, c + 1) == SentSoFar(was[n].sharers, c)
  {
    OneMoreSent(was[n].sharers, c);
    DirtyChild(par, was, n, x, c);
    ChildPassed(par, was, ls, n, x, typ, c);
  }

  lemma SharerTold(par: Parents, was: seq<Line>, ls: seq<Line>, told: seq<Line>, ls': seq<Line>, n: nat, x: nat,
                   typ: InvType, c: nat, wb: bool, w: bool)
    requires |was| == |told| == |par| && n < |par| && 0 < c < |par| && c != x && par[c] == n
    requires Telling(par, was, ls, n, x, typ, c, wb) && (w <==> DirtyIn(par, ls, c))
    requires forall i :: 0 <= i < |par| ==> told[i] == if Under(par, i, c) then Lowered(ls[i], typ) else ls[i]
    requires ls' == if typ == INV then told[n := told[n].(sharers := told[n].sharers - {c})] else told
    ensures Telling(par, was, ls', n, x, typ, c + 1, wb || w)
  {
    assert !Under(par, n, c);
    ChildTold(par, was, ls, told, n, x, typ, c);
    DirtyChild(par, was, n, x, c);
    SameDirt(par, was, ls, n, x, typ, c);
    OneMoreSent(was[n].sharers, c);
  }

  lemma DirtyHereOrBelow(par: Parents, ls: seq<Line>, n: nat)
    requires |ls| == |par| && n < |par|
    ensures DirtyIn(par, ls, n) <==> ls[n].state == M || DirtyBelow(par, ls, n, 0, |par|)
  {
    if ls[n].state == M { assert Under(par, n, n); }
    if DirtyBelow(par, ls, n, 0, |par|) {
      var i :| 0 <= i < |ls| && IsDirtyBelow(par, ls, n, 0, |par|, i);
      assert Under(par, i, n) && ls[i].state == M;
    }
    if DirtyIn(par, ls, n) {
      var i :| 0 <= i < |ls| && Under(par, i, n) && ls[i].state == M;
      assert i == n || IsDirtyBelow(par, ls, n, 0, |par|, i);
    }
  }

  /** The sharers from c on. */
  function Left(s: set<nat>, c: nat): set<nat> { set k | k in s && k >= c }

  /** How many sharers come before c. */
  ghost function SentSoFar(s: set<nat>, c: nat): nat { |s - Left(s, c)| }

  lemma NothingSent(s: set<nat>)
    ensures Left(s, 0) == s && SentSoFar(s, 0) == 0
  {
  }

  lemma OneMoreSent(s: set<nat>, c: nat)
    ensures Left(s, c + 1) == Left(s, c) - {c}
    ensures SentSoFar(s, c + 1) == SentSoFar(s, c) + (if c in s then 1 else 0)
  {
    assert s - Left(s, c + 1) == s - Left(s, c) + (if c in s then {c} else {});
  }

  /** A child still to be told is as it was, with all below it. */
  lemma ChildNotTold(par: Parents, was: seq<Line>, ls: seq<Line>, n: nat, x: nat, typ: InvType, c: nat)
    requires |was| == |ls| == |par| && n < |par| && SubtreeOk(par, was, n, x) &&
             (x > 0 ==> x < |par| && par[x] == n && x !in was[n].sharers)
    requires c in was[n].sharers && (typ == INVX ==> was[n].IsExclusive())
    requires OthersPartly(par, was, ls, n, x, typ, c)
    ensures 0 < c < |par| && par[c] == n && SubtreeOk(par, ls, c, 0) && ls[c] == was[c]
    ensures ls[c].state != I && (typ == INVX ==> Excl(ls[c].state))
  {
    assert NodeOk(par, was, n);
    ChildSubtree(par, was, n, x, c);
    SizeOne(was[n].sharers);
    forall i | 0 <= i < |par| && Under(par, i, c) ensures ls[i] == was[i] { OneWayDown(par, i, n, c); }
    forall i | 0 <= i < |par| && Under(par, i, c) ensures NodeOk(par, ls, i) && (i != c ==> EdgeOk(par, ls, i)) {
      assert NodeOk(par, was, i) && (i != c ==> EdgeOk(par, was, i));
    }
  }
}
