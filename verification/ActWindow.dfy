/** The activation window of zsim/src/ddr_mem.h: a circular buffer of the last activations of a
    rank, used to keep at most `size` of them in any tFAW interval. */
module ActWindow {

  predicate Sorted(s: seq<nat>) { forall i, j :: 0 <= i < j < |s| ==> s[i] <= s[j] }

  /** How many entries of t stay before `act`: the scan goes from the newest entry backwards. */
  function KeepCount(t: seq<nat>, act: nat): (k: nat)
    ensures k <= |t|
    ensures k > 0 ==> t[k - 1] <= act
    ensures forall i :: k <= i < |t| ==> t[i] > act
  {
    if t == [] then 0
    else if t[|t| - 1] <= act then |t|
    else KeepCount(t[..|t| - 1], act)
  }

  /** The entries, oldest first, after recording `act` over the entries `r`. */
  function Added(r: seq<nat>, act: nat): seq<nat>
    requires |r| > 0
  {
    var t := r[1..];
    var k := KeepCount(t, act);
    if k > 0 || t == [] then t[..k] + [act] + t[k..]
    else [t[|t| - 1]] + t[..|t| - 1] + [act]  // the scan wrapped around onto a slot it had overwritten
  }

  /** The oldest entry goes and `act` comes, whatever the order of the activations. */
  lemma AddedMultiset(r: seq<nat>, act: nat)
    requires |r| > 0
    ensures multiset(Added(r, act)) == multiset(r) - multiset{r[0]} + multiset{act}
    ensures |Added(r, act)| == |r|
  {
    var t := r[1..];
    var k := KeepCount(t, act);
    assert r == [r[0]] + t;
    if k > 0 || t == [] {
      InsertMultiset(t, k, act);
    } else {
      var u, last := t[..|t| - 1], t[|t| - 1];
      assert t == u + [last];
      assert Added(r, act) == [last] + u + [act];
    }
  }

  lemma InsertMultiset(t: seq<nat>, k: nat, x: nat)
    requires k <= |t|
    ensures multiset(t[..k] + [x] + t[k..]) == multiset(t) + multiset{x}
  {
    assert t == t[..k] + t[k..];
  }

  /** The window stays sorted exactly when the new activation is not earlier than the second
      oldest entry. */
  lemma AddedSorted(r: seq<nat>, act: nat)
    requires |r| > 0 && Sorted(r) && r[0] <= act
    ensures Sorted(Added(r, act)) <==> |r| == 1 || r[1] <= act
  {
    var t := r[1..];
    var k := KeepCount(t, act);
    var a := Added(r, act);
    assert forall i :: 0 <= i < |t| ==> t[i] == r[i + 1];
    if k == 0 && t != [] {
      assert t[0] > act;
      assert a[0] == t[|t| - 1] && a[|a| - 1] == act;
      assert t[0] <= t[|t| - 1];
    }
  }

  class Window {
    var buf: seq<nat>
    var idx: nat

    ghost predicate Valid() reads this { idx < |buf| }

    /** The entries, oldest first. */
    ghost function Entries(): seq<nat>
      reads this
      requires Valid()
    {
      buf[idx..] + buf[..idx]
    }

    constructor (size: nat)
      requires size > 0
      ensures Valid() && |buf| == size && Entries() == seq(size, i => 0)
    {
      buf := seq(size, i => 0);
      idx := 0;
    }

    function MinActCycle(): (c: nat)
      reads this
      requires Valid()
      ensures c == Entries()[0]
    {
      buf[idx]
    }

    function Inc(i: nat): (r: nat)
      reads this
      requires Valid() && i < |buf|
      ensures r < |buf|
    {
      if i < |buf| - 1 then i + 1 else 0
    }

    function Dec(i: nat): (r: nat)
      reads this
      requires Valid() && i < |buf|
      ensures r < |buf| && Inc(r) == i
    {
      if i > 0 then i - 1 else |buf| - 1
    }

    /** Rotating the buffer: index k of the entries is this slot of the buffer. */
    static function SlotOf(n: nat, start: nat, k: nat): (slot: nat)
      requires start < n && k < n
      ensures slot < n
    {
      if start + k < n then start + k else start + k - n
    }

    /** The i-th entry, still in the old order of slots, once `moved` of them have moved up. */
    static ghost function Moving(r: seq<nat>, moved: nat, i: nat): nat
      requires moved <= |r| && i < |r| && (moved == |r| ==> |r| > 1)
    {
      var n := |r|;
      if moved == 0 then r[i]
      else if i == 0 || (i == 1 && moved == n) then r[n - 1]
      else if i <= n - moved then r[i]
      else r[i - 1]
    }

    static ghost function At(n: nat, moved: nat): nat
      requires moved <= n
    {
      if moved == 0 then 0 else n - moved
    }

    /** The entry that the scan looks at after `moved` moves. */
    static ghost function Source(r: seq<nat>, moved: nat): nat
      requires moved < |r|
    {
      if moved == 0 || moved == |r| - 1 then r[|r| - 1] else r[|r| - moved - 1]
    }

    static function DecOf(n: nat, i: nat): nat requires i < n { if i > 0 then i - 1 else n - 1 }

    /** Where each entry ends up in Added. */
    static lemma AddedAt(r: seq<nat>, act: nat, k: nat)
      requires |r| > 0 && k < |r| && (k == 0 ==> |r| == 1)
      requires k > 0 ==> r[k] <= act
      requires forall i :: k < i < |r| ==> r[i] > act
      ensures |Added(r, act)| == |r|
      ensures forall j :: 0 <= j < |r| ==>
                Added(r, act)[j] == (if j < k then r[j + 1] else if j == k then act else r[j])
    {
      var t := r[1..];
      assert forall i :: 0 <= i < |t| ==> t[i] == r[i + 1];
      assert k > 0 ==> t[k - 1] <= act;
      assert KeepCount(t, act) == k;
    }

    static lemma AddedWrapped(r: seq<nat>, act: nat)
      requires |r| > 1
      requires forall i :: 0 < i < |r| ==> r[i] > act
      ensures |Added(r, act)| == |r|
      ensures forall j :: 0 <= j < |r| ==>
                Added(r, act)[j] == (if j == 0 then r[|r| - 1] else if j < |r| - 1 then r[j] else act)
    {
      var t := r[1..];
      assert forall i :: 0 <= i < |t| ==> t[i] == r[i + 1];
      assert KeepCount(t, act) == 0;
    }

    /** After `moved` moves the scan stands at cur, over entries that were r. */
    static ghost predicate Scanning(b: seq<nat>, start: nat, cur: nat, r: seq<nat>, moved: nat, act: nat) {
      && start < |b| == |r| && moved <= |r|
      && (moved > 0 ==> |r| > 1)
      && (forall i :: 0 <= i < |r| ==> b[SlotOf(|b|, start, i)] == Moving(r, moved, i))
      && cur == SlotOf(|b|, start, At(|r|, moved))
      && (forall i :: 0 < i < |r| && |r| - moved <= i ==> r[i] > act)
    }

    static lemma ReadsSource(b: seq<nat>, start: nat, cur: nat, r: seq<nat>, moved: nat, act: nat)
      requires Scanning(b, start, cur, r, moved, act) && moved < |r|
      ensures b[DecOf(|b|, cur)] == Source(r, moved)
    {
      var n, at := |r|, At(|r|, moved);
      var from := if at == 0 then n - 1 else at - 1;
      assert DecOf(n, cur) == SlotOf(n, start, from);
      assert b[SlotOf(n, start, from)] == Moving(r, moved, from);
    }

    static lemma ScanStep(b: seq<nat>, start: nat, cur: nat, r: seq<nat>, moved: nat, act: nat)
      requires Scanning(b, start, cur, r, moved, act) && moved < |r| && r[0] <= act
      requires b[DecOf(|b|, cur)] > act
      ensures Scanning(b[cur := b[DecOf(|b|, cur)]], start, DecOf(|b|, cur), r, moved + 1, act)
      ensures DecOf(|b|, cur) == start <==> moved + 1 == |r|
    {
      var n, c := |r|, b[cur := b[DecOf(|b|, cur)]];
      ReadsSource(b, start, cur, r, moved, act);
      forall i | 0 <= i < n ensures c[SlotOf(n, start, i)] == Moving(r, moved + 1, i) {
        assert b[SlotOf(n, start, i)] == Moving(r, moved, i);
      }
    }

    /** Entry j, oldest first, once `act` is written and the next slot is the oldest. */
    static ghost function Landed(r: seq<nat>, moved: nat, act: nat, j: nat): nat
      requires moved <= |r| && j < |r| && (moved == |r| ==> |r| > 1)
    {
      var i := if j == |r| - 1 then 0 else j + 1;
      if i == At(|r|, moved) then act else Moving(r, moved, i)
    }

    static lemma LandedIsAdded(r: seq<nat>, moved: nat, act: nat)
      requires |r| > 0 && moved <= |r| && (moved > 0 ==> |r| > 1) && r[0] <= act
      requires forall i :: 0 < i < |r| && |r| - moved <= i ==> r[i] > act
      requires moved < |r| ==> Source(r, moved) <= act
      ensures |Added(r, act)| == |r|
      ensures forall j :: 0 <= j < |r| ==> Added(r, act)[j] == Landed(r, moved, act, j)
    {
      if moved < |r| {
        AddedAt(r, act, |r| - 1 - moved);
      } else {
        AddedWrapped(r, act);
      }
    }

    static lemma LandedIsRead(b: seq<nat>, start: nat, cur: nat, r: seq<nat>, moved: nat, act: nat, j: nat)
      requires Scanning(b, start, cur, r, moved, act) && j < |r|
      ensures var next := if start < |b| - 1 then start + 1 else 0;
              b[cur := act][SlotOf(|b|, next, j)] == Landed(r, moved, act, j)
    {
      var n := |r|;
      var next := if start < n - 1 then start + 1 else 0;
      var i := if j == n - 1 then 0 else j + 1;
      assert SlotOf(n, next, j) == SlotOf(n, start, i);
      assert b[SlotOf(n, start, i)] == Moving(r, moved, i);
    }

    /** Where the scan stops decides where `act` goes. */
    static lemma Land(b: seq<nat>, start: nat, cur: nat, r: seq<nat>, moved: nat, act: nat)
      requires Scanning(b, start, cur, r, moved, act) && r[0] <= act
      requires moved < |r| ==> b[DecOf(|b|, cur)] <= act
      ensures var c := b[cur := act];
              var next := if start < |b| - 1 then start + 1 else 0;
              c[next..] + c[..next] == Added(r, act)
    {
      var n, c := |r|, b[cur := act];
      var next := if start < n - 1 then start + 1 else 0;
      var q := c[next..] + c[..next];
      if moved < n { ReadsSource(b, start, cur, r, moved, act); }
      LandedIsAdded(r, moved, act);
      forall j | 0 <= j < n ensures q[j] == Added(r, act)[j] {
        LandAt(b, start, cur, r, moved, act, j);
      }
    }

    static lemma LandAt(b: seq<nat>, start: nat, cur: nat, r: seq<nat>, moved: nat, act: nat, j: nat)
      requires Scanning(b, start, cur, r, moved, act) && j < |r|
      ensures var c := b[cur := act];
              var next := if start < |b| - 1 then start + 1 else 0;
              (c[next..] + c[..next])[j] == Landed(r, moved, act, j)
    {
      LandedIsRead(b, start, cur, r, moved, act, j);
    }

    /** The scan of addActivation: make room for `act`, moving the later entries up. */
    method Scan(act: nat) returns (cur: nat, ghost moved: nat)
      requires Valid() && buf[idx] <= act
      modifies `buf
      ensures Scanning(buf, idx, cur, old(Entries()), moved, act)
      ensures moved < |buf| ==> buf[Dec(cur)] <= act
    {
      ghost var r := Entries();
      moved, cur := 0, idx;
      while buf[Dec(cur)] > act
        invariant moved < |r| && Scanning(buf, idx, cur, r, moved, act)
        decreases |r| - moved
      {
        ScanStep(buf, idx, cur, r, moved, act);
        buf := buf[cur := buf[Dec(cur)]];
        cur, moved := Dec(cur), moved + 1;
        if cur == idx { break; }  // all the way round
      }
    }

    method AddActivation(act: nat)
      requires Valid() && MinActCycle() <= act  // the rule that the callers keep
      modifies this
      ensures Valid() && |buf| == old(|buf|)
      ensures Entries() == Added(old(Entries()), act)
    {
      ghost var r := Entries();
      var cur, moved := Scan(act);
      Land(buf, idx, cur, r, moved, act);
      buf := buf[cur := act];
      idx := Inc(idx);
    }
  }

  // ----- the tFAW rule over whole runs -----

  /** The entries of a window of size n after the activations `acts`, in the order they were made. */
  function After(n: nat, acts: seq<nat>): (r: seq<nat>)
    requires n > 0
    ensures |r| == n
  {
    if acts == [] then seq(n, i => 0)
    else
      var r := After(n, acts[..|acts| - 1]);
      AddedMultiset(r, acts[|acts| - 1]);
      Added(r, acts[|acts| - 1])
  }

  /** The controller's rule: each activation waits tFAW after the entry the window shows. */
  ghost predicate Spaced(n: nat, tFAW: nat, acts: seq<nat>)
    requires n > 0
  {
    forall i :: 0 <= i < |acts| ==> After(n, acts[..i])[0] + tFAW <= acts[i]
  }

  ghost predicate InLanes(n: nat, tFAW: nat, acts: seq<nat>, lane: seq<nat>, last: seq<nat>) {
    && |lane| == |acts| && |last| == n
    && (forall i :: 0 <= i < |lane| ==> lane[i] < n)
    && (forall i :: 0 <= i < |lane| && lane[i] < n ==> acts[i] <= last[lane[i]])
    && (forall i, j :: 0 <= i < j < |acts| && lane[i] == lane[j] ==> acts[i] + tFAW <= acts[j])
  }

  lemma ExtendLane(n: nat, tFAW: nat, acts: seq<nat>, lane: seq<nat>, last: seq<nat>, l: nat, act: nat)
    requires InLanes(n, tFAW, acts, lane, last) && l < n && last[l] + tFAW <= act
    ensures InLanes(n, tFAW, acts + [act], lane + [l], last[l := act])
  {
    var acts', lane', last' := acts + [act], lane + [l], last[l := act];
    forall i | 0 <= i < |lane'| ensures lane'[i] < n && acts'[i] <= last'[lane'[i]] {
      if i < |lane| { assert acts[i] <= last[lane[i]]; }
    }
    forall i, j | 0 <= i < j < |acts'| && lane'[i] == lane'[j] ensures acts'[i] + tFAW <= acts'[j] {
      assert acts[i] <= last[lane[i]];
    }
  }

  lemma SpacedPrefix(n: nat, tFAW: nat, acts: seq<nat>)
    requires n > 0 && Spaced(n, tFAW, acts) && acts != []
    ensures Spaced(n, tFAW, acts[..|acts| - 1])
    ensures After(n, acts[..|acts| - 1])[0] + tFAW <= acts[|acts| - 1]
  {
    var before := acts[..|acts| - 1];
    assert forall i :: 0 <= i < |before| ==> acts[..i] == before[..i];
  }

  lemma OldestIn(last: seq<nat>, r: seq<nat>) returns (l: nat)
    requires |r| > 0 && multiset(last) == multiset(r)
    ensures l < |last| && last[l] == r[0]
  {
    assert r[0] in multiset(last);
    l :| 0 <= l < |last| && last[l] == r[0];
  }

  lemma ReplaceOldest(last: seq<nat>, r: seq<nat>, l: nat, act: nat)
    requires |r| > 0 && multiset(last) == multiset(r) && l < |last| && last[l] == r[0]
    ensures multiset(last[l := act]) == multiset(Added(r, act))
  {
    AddedMultiset(r, act);
  }

  /** The window may get out of order, but every activation still replaces one that is tFAW
      older: the run splits into n lanes of well-spaced activations. */
  lemma {:induction false} Lanes(n: nat, tFAW: nat, acts: seq<nat>) returns (lane: seq<nat>, last: seq<nat>)
    requires n > 0 && Spaced(n, tFAW, acts)
    ensures InLanes(n, tFAW, acts, lane, last) && multiset(last) == multiset(After(n, acts))
    decreases |acts|
  {
    if acts == [] {
      lane, last := [], seq(n, i => 0);
    } else {
      var before, act := acts[..|acts| - 1], acts[|acts| - 1];
      SpacedPrefix(n, tFAW, acts);
      var lane0, last0 := Lanes(n, tFAW, before);
      var r := After(n, before);
      var l := OldestIn(last0, r);
      ExtendLane(n, tFAW, before, lane0, last0, l, act);
      lane, last := lane0 + [l], last0[l := act];
      assert before + [act] == acts;
      ReplaceOldest(last0, r, l, act);
    }
  }

  /** No more than n activations fall in any interval shorter than tFAW, in every run, however
      out of order the activations are. */
  lemma AtMostNPerWindow(n: nat, tFAW: nat, acts: seq<nat>, picked: set<nat>, from: nat)
    requires n > 0 && Spaced(n, tFAW, acts)
    requires forall i :: i in picked ==> i < |acts| && from <= acts[i] < from + tFAW
    ensures |picked| <= n
  {
    var lane, last := Lanes(n, tFAW, acts);
    var lanes := set i | i in picked :: lane[i];
    assert forall i, j :: i in picked && j in picked && i != j ==> lane[i] != lane[j];
    InjectiveImage(picked, lane, n);
  }

  lemma {:induction false} InjectiveImage(picked: set<nat>, lane: seq<nat>, n: nat)
    requires forall i :: i in picked ==> i < |lane| && lane[i] < n
    requires forall i, j :: i in picked && j in picked && i != j ==> lane[i] != lane[j]
    ensures |picked| <= n
    decreases n
  {
    if n == 0 {
      assert picked == {};
    } else if exists i :: i in picked && lane[i] == n - 1 {
      var i :| i in picked && lane[i] == n - 1;
      InjectiveImage(picked - {i}, lane, n - 1);
    } else {
      InjectiveImage(picked, lane, n - 1);
    }
  }
}
