/** The join/leave barrier with limited parallelism of zsim/src/barrier.h. */
module Barrier {
  import opened Counting

  datatype State = OFFLINE | WAITING | RUNNING | LEFT
  datatype ThreadSyncInfo = ThreadSyncInfo(state: State, futexWord: nat, lastIdx: nat)

  // ----- the run list -----

  /** Thread list[i] is at place i, and nowhere else. */
  ghost predicate At(ts: seq<ThreadSyncInfo>, list: seq<nat>, pos: seq<nat>, i: nat)
    requires i < |list| && |pos| == |ts|
  {
    list[i] < |ts| && pos[list[i]] == i && ts[list[i]].state != OFFLINE
  }

  ghost predicate Placed(list: seq<nat>, size: nat, pos: seq<nat>, t: nat)
    requires t < |pos| && size <= |list|
  {
    pos[t] < size && list[pos[t]] == t
  }

  /** The first size entries of list are exactly the threads that are not OFFLINE, each once. */
  ghost predicate Listed(ts: seq<ThreadSyncInfo>, list: seq<nat>, size: nat, pos: seq<nat>) {
    && |pos| == |ts| == |list| && size <= |list|
    && (forall i :: 0 <= i < size ==> At(ts, list, pos, i))
    && (forall t :: 0 <= t < |ts| && ts[t].state != OFFLINE ==> Placed(list, size, pos, t))
  }

  /** One thread's bookkeeping.  synced holds the threads that have synced in this phase, and woken
      those that were woken since they were put on the list. */
  ghost predicate ThreadOk(th: ThreadSyncInfo, p: nat, cur: nat, synced: bool, woken: bool) {
    match th.state
    case OFFLINE => !synced && !woken
    case WAITING => th.futexWord == 1 && (synced <==> p < cur) && (synced ==> woken) && (woken ==> th.lastIdx == p)
    case RUNNING => !synced && woken && th.lastIdx == p && p < cur
    case LEFT => !synced && th.lastIdx == p
  }

  ghost predicate ThreadsOk(ts: seq<ThreadSyncInfo>, pos: seq<nat>, cur: nat, synced: set<nat>, woken: set<nat>)
    requires |pos| == |ts|
  {
    && (forall t :: 0 <= t < |ts| ==> ThreadOk(ts[t], pos[t], cur, t in synced, t in woken))
    && (forall t: nat :: t in synced || t in woken ==> t < |ts|)
  }

  function InState(ts: seq<ThreadSyncInfo>, s: State): set<nat> { set t: nat | t < |ts| && ts[t].state == s }

  lemma CountWithout(ts: seq<ThreadSyncInfo>, t: nat, s: State)
    requires t < |ts|
    ensures |InState(ts, s)| == |InState(ts, s) - {t}| + if ts[t].state == s then 1 else 0
  {
    if ts[t].state == s {
      assert t in InState(ts, s);
    } else {
      assert InState(ts, s) - {t} == InState(ts, s);
    }
  }

  lemma OthersKeepState(ts: seq<ThreadSyncInfo>, ts': seq<ThreadSyncInfo>, t: nat, s: State)
    requires |ts| == |ts'| && forall u :: 0 <= u < |ts| && u != t ==> ts'[u] == ts[u]
    ensures InState(ts', s) - {t} == InState(ts, s) - {t}
  {
    forall u ensures u in InState(ts', s) - {t} <==> u in InState(ts, s) - {t} {}
  }

  lemma OneChanges(ts: seq<ThreadSyncInfo>, t: nat, th: ThreadSyncInfo, s: State)
    requires t < |ts|
    ensures |InState(ts[t := th], s)| ==
              |InState(ts, s)| - (if ts[t].state == s then 1 else 0) + (if th.state == s then 1 else 0)
  {
    CountWithout(ts, t, s);
    CountWithout(ts[t := th], t, s);
    OthersKeepState(ts, ts[t := th], t, s);
  }

  lemma NoneInState(ts: seq<ThreadSyncInfo>, s: State, t: nat)
    requires |InState(ts, s)| == 0 && t < |ts|
    ensures ts[t].state != s
  {
    assert t in InState(ts, s) <==> ts[t].state == s;
  }

  function OnList(ts: seq<ThreadSyncInfo>): set<nat> { set t: nat | t < |ts| && ts[t].state != OFFLINE }

  lemma ListSize(ts: seq<ThreadSyncInfo>, list: seq<nat>, size: nat, pos: seq<nat>)
    requires Listed(ts, list, size, pos)
    ensures |OnList(ts)| == size
  {
    forall p, q | 0 <= p < q < size ensures list[p] != list[q] { assert At(ts, list, pos, p) && At(ts, list, pos, q); }
    var s := list[..size];
    DistinctSize(s);
    forall t: nat ensures t in s <==> t in OnList(ts) {
      if t in OnList(ts) { assert Placed(list, size, pos, t) && s[pos[t]] == t; }
      if t in s {
        var i :| 0 <= i < size && s[i] == t;
        assert At(ts, list, pos, i);
      }
    }
    assert Elements(s) == OnList(ts);
  }

  /** As many threads have left as are on the list exactly when nobody runs or waits. */
  lemma AllLeft(ts: seq<ThreadSyncInfo>, list: seq<nat>, size: nat, pos: seq<nat>)
    requires Listed(ts, list, size, pos)
    ensures |InState(ts, LEFT)| == size <==> forall t :: 0 <= t < |ts| ==> ts[t].state == OFFLINE || ts[t].state == LEFT
  {
    ListSize(ts, list, size, pos);
    var listed := OnList(ts);
    if |InState(ts, LEFT)| == size {
      SubsetIsWhole(InState(ts, LEFT), listed);
      assert forall t :: 0 <= t < |ts| && ts[t].state != OFFLINE ==> t in listed;
    }
    if forall t :: 0 <= t < |ts| ==> ts[t].state == OFFLINE || ts[t].state == LEFT {
      assert InState(ts, LEFT) == listed;
    }
  }

  /** There is room on the list for a thread that is not on it. */
  lemma RoomFor(ts: seq<ThreadSyncInfo>, list: seq<nat>, size: nat, pos: seq<nat>, tid: nat)
    requires Listed(ts, list, size, pos) && tid < |ts| && ts[tid].state == OFFLINE
    ensures size < |list|
  {
    var s := list[..size];
    forall p | 0 <= p < size ensures s[p] < |ts| && s[p] != tid { assert At(ts, list, pos, p); }
    forall p, q | 0 <= p < q < size ensures s[p] != s[q] { assert At(ts, list, pos, p) && At(ts, list, pos, q); }
    DistinctWithGap(s, |ts|, tid);
  }

  /** The run list names a listed thread at its lastIdx exactly if lastIdx is its place. */
  lemma StampedExactly(ts: seq<ThreadSyncInfo>, list: seq<nat>, size: nat, pos: seq<nat>, t: nat)
    requires Listed(ts, list, size, pos) && t < |ts| && ts[t].state != OFFLINE && ts[t].lastIdx < size
    ensures list[ts[t].lastIdx] == t <==> ts[t].lastIdx == pos[t]
  {
    assert Placed(list, size, pos, t) && At(ts, list, pos, ts[t].lastIdx);
  }

  // ----- rearranging the list -----

  function Swapped<T>(s: seq<T>, i: nat, j: nat): seq<T>
    requires i < |s| && j < |s|
  {
    s[i := s[j]][j := s[i]]
  }

  /** Two listed threads change places. */
  lemma SwapListed(ts: seq<ThreadSyncInfo>, list: seq<nat>, size: nat, pos: seq<nat>, i: nat, j: nat)
    requires Listed(ts, list, size, pos) && i < size && j < size
    ensures list[i] < |pos| && list[j] < |pos|
    ensures Listed(ts, Swapped(list, i, j), size, pos[list[i] := j][list[j] := i])
  {
    assert At(ts, list, pos, i) && At(ts, list, pos, j);
    var list', pos' := Swapped(list, i, j), pos[list[i] := j][list[j] := i];
    forall k | 0 <= k < size ensures At(ts, list', pos', k) { assert At(ts, list, pos, k); }
    forall t | 0 <= t < |ts| && ts[t].state != OFFLINE
      ensures Placed(list', size, pos', t)
    {
      assert Placed(list, size, pos, t);
    }
  }

  /** A change of state of a listed thread. */
  lemma StateListed(ts: seq<ThreadSyncInfo>, list: seq<nat>, size: nat, pos: seq<nat>, t: nat, th: ThreadSyncInfo)
    requires Listed(ts, list, size, pos) && t < |ts|
    requires th.state == OFFLINE <==> ts[t].state == OFFLINE
    ensures Listed(ts[t := th], list, size, pos)
  {
    var ts' := ts[t := th];
    forall k | 0 <= k < size ensures At(ts', list, pos, k) { assert At(ts, list, pos, k); }
    forall u | 0 <= u < |ts| && ts'[u].state != OFFLINE
      ensures Placed(list, size, pos, u)
    {
      assert Placed(list, size, pos, u);
    }
  }

  lemma AppendListed(ts: seq<ThreadSyncInfo>, list: seq<nat>, size: nat, pos: seq<nat>, t: nat, th: ThreadSyncInfo)
    requires Listed(ts, list, size, pos) && t < |ts| && size < |list|
    requires ts[t].state == OFFLINE && th.state != OFFLINE
    ensures Listed(ts[t := th], list[size := t], size + 1, pos[t := size])
  {
    var ts', list', pos' := ts[t := th], list[size := t], pos[t := size];
    forall k | 0 <= k < size + 1 ensures At(ts', list', pos', k) { assert k < size ==> At(ts, list, pos, k); }
    forall u | 0 <= u < |ts| && ts'[u].state != OFFLINE ensures Placed(list', size + 1, pos', u) {
      assert u != t ==> Placed(list, size, pos, u);
    }
  }

  /** The thread at place idx goes OFFLINE, and the last one takes its place. */
  lemma DropListed(ts: seq<ThreadSyncInfo>, list: seq<nat>, size: nat, pos: seq<nat>, idx: nat, th: ThreadSyncInfo)
    requires Listed(ts, list, size, pos) && idx < size && th.state == OFFLINE
    ensures list[idx] < |ts| && list[size - 1] < |pos|
    ensures Listed(ts[list[idx] := th], list[idx := list[size - 1]], size - 1, pos[list[size - 1] := idx])
  {
    assert At(ts, list, pos, idx) && At(ts, list, pos, size - 1);
    var ts', list', pos' := ts[list[idx] := th], list[idx := list[size - 1]], pos[list[size - 1] := idx];
    forall k | 0 <= k < size - 1 ensures At(ts', list', pos', k) { assert At(ts, list, pos, k); }
    forall u | 0 <= u < |ts| && ts'[u].state != OFFLINE
      ensures Placed(list', size - 1, pos', u)
    {
      assert Placed(list, size, pos, u);
    }
  }

  // ----- moving the cursor -----

  /** What a thread's state is after the cursor went from a to b. */
  function Passed(s: State, p: nat, a: nat, b: nat): State { if s == WAITING && a <= p < b then RUNNING else s }

  lemma CursorMoves(ts: seq<ThreadSyncInfo>, list: seq<nat>, size: nat, pos: seq<nat>, cur: nat, synced: set<nat>,
                    woken: set<nat>, ts': seq<ThreadSyncInfo>, woken': set<nat>)
    requires Listed(ts, list, size, pos) && ThreadsOk(ts, pos, cur, synced, woken) && cur < size
    requires list[cur] < |ts| ==> var w := list[cur];
               if ts[w].state == WAITING then ts' == ts[w := ThreadSyncInfo(RUNNING, 0, cur)] && woken' == woken + {w}
               else ts' == ts && woken' == woken
    ensures list[cur] < |ts| == |ts'| && Listed(ts', list, size, pos) && ThreadsOk(ts', pos, cur + 1, synced, woken')
    ensures forall t :: 0 <= t < |ts| ==> ts'[t].state == Passed(ts[t].state, pos[t], cur, cur + 1)
    ensures |InState(ts', RUNNING)| == |InState(ts, RUNNING)| + if ts[list[cur]].state == WAITING then 1 else 0
    ensures |InState(ts', LEFT)| == |InState(ts, LEFT)|
  {
    var w := list[cur];
    assert At(ts, list, pos, cur);
    if ts[w].state == WAITING { StateListed(ts, list, size, pos, w, ts'[w]); }
    forall t | 0 <= t < |ts|
      ensures ThreadOk(ts'[t], pos[t], cur + 1, t in synced, t in woken')
      ensures ts'[t].state == Passed(ts[t].state, pos[t], cur, cur + 1)
    {
      assert ThreadOk(ts[t], pos[t], cur, t in synced, t in woken);
      assert ts[t].state != OFFLINE ==> Placed(list, size, pos, t);
    }
    OneChanges(ts, w, ts'[w], RUNNING);
    OneChanges(ts, w, ts'[w], LEFT);
    assert ts' == ts[w := ts'[w]];
  }

  /** Two threads change places, and their lastIdx with them; the cursor may step back over one that is
      neither running nor waiting. */
  lemma SwapThreads(ts: seq<ThreadSyncInfo>, list: seq<nat>, size: nat, pos: seq<nat>, cur: nat, cur': nat,
                    synced: set<nat>, woken: set<nat>, i: nat, j: nat, ts': seq<ThreadSyncInfo>, pos': seq<nat>)
    requires Listed(ts, list, size, pos) && ThreadsOk(ts, pos, cur, synced, woken) && i < size && j < size
    requires list[i] < |ts| && list[j] < |ts| ==>
               && ts' == ts[list[i] := ts[list[i]].(lastIdx := j)][list[j] := ts[list[j]].(lastIdx := i)]
               && pos' == pos[list[i] := j][list[j] := i]
               && (cur' == cur || (cur' == cur - 1 && cur' == j && i < cur && ts[list[i]].state == LEFT))
    requires cur' == cur ==> (i < cur <==> j < cur)
    ensures Listed(ts', Swapped(list, i, j), size, pos')
    ensures ThreadsOk(ts', pos', cur', synced, woken)
    ensures forall t :: 0 <= t < |ts| ==> ts'[t].state == ts[t].state
    ensures forall s: State :: InState(ts', s) == InState(ts, s)
  {
    assert At(ts, list, pos, i) && At(ts, list, pos, j);
    SwapListed(ts, list, size, pos, i, j);
    var ti, tj := list[i], list[j];
    StateListed(ts, Swapped(list, i, j), size, pos', ti, ts[ti].(lastIdx := j));
    StateListed(ts[ti := ts[ti].(lastIdx := j)], Swapped(list, i, j), size, pos', tj, ts'[tj]);
    assert ts' == ts[ti := ts[ti].(lastIdx := j)][tj := ts'[tj]];
    forall t | 0 <= t < |ts| ensures ThreadOk(ts'[t], pos'[t], cur', t in synced, t in woken) {
      assert ThreadOk(ts[t], pos[t], cur, t in synced, t in woken);
      assert ts[t].state != OFFLINE ==> Placed(list, size, pos, t);
    }
  }

  /** A LEFT thread at place idx goes OFFLINE, at the start of a phase. */
  lemma DropThread(ts: seq<ThreadSyncInfo>, list: seq<nat>, size: nat, pos: seq<nat>, woken: set<nat>, idx: nat,
                   ts': seq<ThreadSyncInfo>, pos': seq<nat>)
    requires Listed(ts, list, size, pos) && ThreadsOk(ts, pos, 0, {}, woken) && idx < size
    requires list[idx] < |ts| && list[size - 1] < |ts| ==>
               var w, st := list[idx], list[size - 1]; var off := ts[w := ts[w].(state := OFFLINE)];
               && ts[w].state == LEFT && ts' == off[st := off[st].(lastIdx := idx)] && pos' == pos[st := idx]
    ensures list[idx] < |ts| == |ts'| && list[size - 1] < |ts|
    ensures Listed(ts', list[idx := list[size - 1]], size - 1, pos') && ThreadsOk(ts', pos', 0, {}, woken - {list[idx]})
    ensures forall t :: 0 <= t < |ts| ==> ts'[t].state == if t == list[idx] then OFFLINE else ts[t].state
    ensures |InState(ts', LEFT)| == |InState(ts, LEFT)| - 1
    ensures |InState(ts', RUNNING)| == |InState(ts, RUNNING)|
  {
    assert At(ts, list, pos, idx) && At(ts, list, pos, size - 1);
    var w, st := list[idx], list[size - 1];
    var off := ts[w := ts[w].(state := OFFLINE)];
    DropListed(ts, list, size, pos, idx, off[w]);
    StateListed(off, list[idx := st], size - 1, pos', st, ts'[st]);
    forall t | 0 <= t < |ts| ensures ThreadOk(ts'[t], pos'[t], 0, false, t in woken - {w}) {
      assert ThreadOk(ts[t], pos[t], 0, t in {}, t in woken);
    }
    OneChanges(ts, w, off[w], LEFT);
    OneChanges(ts, w, off[w], RUNNING);
    OneChanges(off, st, ts'[st], LEFT);
    OneChanges(off, st, ts'[st], RUNNING);
  }

  /** Thread tid changes its state, and perhaps its place, and nothing else does. */
  lemma OneThread(ts: seq<ThreadSyncInfo>, pos: seq<nat>, cur: nat, synced: set<nat>, woken: set<nat>, tid: nat,
                  th: ThreadSyncInfo, p: nat, synced': set<nat>)
    requires |pos| == |ts| && ThreadsOk(ts, pos, cur, synced, woken) && tid < |ts|
    requires synced' - {tid} == synced - {tid}
    requires ThreadOk(th, p, cur, tid in synced', tid in woken)
    ensures ThreadsOk(ts[tid := th], pos[tid := p], cur, synced', woken)
  {
    forall t | 0 <= t < |ts| ensures ThreadOk(ts[tid := th][t], pos[tid := p][t], cur, t in synced', t in woken) {
      assert ThreadOk(ts[t], pos[t], cur, t in synced, t in woken);
      assert t != tid ==> (t in synced' <==> t in synced' - {tid}) && (t in synced <==> t in synced - {tid});
    }
    forall t: nat | t in synced' || t in woken ensures t < |ts| {
      assert t == tid || (t in synced' <==> t in synced' - {tid});
    }
  }

  /** What others may do to a thread within a phase: wake it. */
  predicate Follows(before: State, after: State) { after == before || (before == WAITING && after == RUNNING) }

  /** Unless it was woken, nothing about the thread has changed. */
  predicate Kept(before: ThreadSyncInfo, after: ThreadSyncInfo) { after.state == before.state ==> after == before }

  /** The end of phase number count takes the threads that LEFT off the list, one time out of 32. */
  function Cleaned(count: nat, s: State): State { if s == LEFT && count % 32 == 0 then OFFLINE else s }

  /** What becomes of a thread across the end of phase number count. */
  predicate Succeeds(count: nat, before: State, after: State) {
    match before
    case LEFT => after == if count % 32 == 0 then OFFLINE else LEFT
    case WAITING => after == WAITING || after == RUNNING
    case _ => after == before
  }

  /** A phase is over when nobody runs, whoever waits has synced, and somebody waits. */
  ghost predicate PhaseOver(ts: seq<ThreadSyncInfo>, synced: set<nat>) {
    && (forall t :: 0 <= t < |ts| ==> ts[t].state != RUNNING && (ts[t].state == WAITING ==> t in synced))
    && (exists t :: 0 <= t < |ts| && ts[t].state == WAITING)
  }

  /** Whoever else is in the barrier is not running, and if waiting has synced. */
  ghost predicate DoneBut(ts: seq<ThreadSyncInfo>, synced: set<nat>, tid: nat) {
    forall t :: 0 <= t < |ts| && t != tid ==> ts[t].state != RUNNING && (ts[t].state == WAITING ==> t in synced)
  }

  /** Somebody else waits. */
  ghost predicate WaitsBut(ts: seq<ThreadSyncInfo>, tid: nat) {
    exists t :: 0 <= t < |ts| && t != tid && ts[t].state == WAITING
  }

  // ----- the shuffle -----

  /** The random numbers: draw number k, from 0 to i. */
  type Draws = f: (nat, nat) -> nat | forall k, i :: f(k, i) <= i witness ((k, i) => 0)

  /** The entries up to place i are shuffled, with the draws from number k on. */
  function Shuffled(s: seq<nat>, i: nat, rnd: Draws, k: nat): (r: seq<nat>)
    requires i < |s|
    ensures |r| == |s|
    decreases i
  {
    if i == 0 then s else Shuffled(Swapped(s, i, rnd(k, i)), i - 1, rnd, k + 1)
  }

  /** A new phase has a new order if not all can run at once. */
  function Reordered(s: seq<nat>, size: nat, parallelThreads: nat, rnd: Draws, k: nat): seq<nat>
    requires size <= |s|
  {
    if 0 < size && parallelThreads < size then Shuffled(s, size - 1, rnd, k) else s
  }

  lemma {:induction false} OnlyLaterDraws(s: seq<nat>, i: nat, rnd: Draws, rnd': Draws, k: nat)
    requires i < |s| && forall m, n :: m >= k ==> rnd'(m, n) == rnd(m, n)
    ensures Shuffled(s, i, rnd', k) == Shuffled(s, i, rnd, k)
    decreases i
  {
    if i > 0 { OnlyLaterDraws(Swapped(s, i, rnd(k, i)), i - 1, rnd, rnd', k + 1); }
  }

  /** Draw j at number k, for place i, and then as later says. */
  function FirstDraw(k: nat, i: nat, j: nat, later: Draws): Draws
    requires j <= i
  {
    (m: nat, n: nat) => if m == k && n == i then j else later(m, n)
  }

  /** Some draws lead to any order of the same entries. */
  lemma {:induction false} EveryOrder(s: seq<nat>, i: nat, goal: seq<nat>, k: nat) returns (rnd: Draws)
    requires i < |s| == |goal| && s[i + 1..] == goal[i + 1..] && multiset(s[..i + 1]) == multiset(goal[..i + 1])
    ensures Shuffled(s, i, rnd, k) == goal
    decreases i
  {
    if i == 0 {
      rnd := (m: nat, n: nat) => 0;
      OnlyEntry(s, goal);
    } else {
      var j := SwapMoves(s, i, goal);
      var later := EveryOrder(Swapped(s, i, j), i - 1, goal, k + 1);
      rnd := FirstDraw(k, i, j, later);
      OnlyLaterDraws(Swapped(s, i, j), i - 1, later, rnd, k + 1);
    }
  }

  lemma OnlyEntry(s: seq<nat>, goal: seq<nat>)
    requires 0 < |s| == |goal| && s[1..] == goal[1..] && multiset(s[..1]) == multiset(goal[..1])
    ensures s == goal
  {
    assert s[..1] == [s[0]] && goal[..1] == [goal[0]];
    assert goal[0] in multiset(s[..1]);
    assert s == [s[0]] + s[1..] && goal == [goal[0]] + goal[1..];
  }

  lemma SwapKeeps(s: seq<nat>, i: nat, j: nat)
    requires i < |s| && j < |s|
    ensures multiset(Swapped(s, i, j)) == multiset(s)
  {
    var one := s[i := s[j]];
    assert multiset(one) == multiset(s) - multiset{s[i]} + multiset{s[j]};
    if i != j { assert multiset(one[j := s[i]]) == multiset(one) - multiset{s[j]} + multiset{s[i]}; }
  }

  lemma SameButLast(u: seq<nat>, v: seq<nat>)
    requires 0 < |u| == |v| && multiset(u) == multiset(v) && u[|u| - 1] == v[|v| - 1]
    ensures multiset(u[..|u| - 1]) == multiset(v[..|v| - 1])
  {
    assert u == u[..|u| - 1] + [u[|u| - 1]] && v == v[..|v| - 1] + [v[|v| - 1]];
    assert multiset(u) == multiset(u[..|u| - 1]) + multiset{u[|u| - 1]};
    assert multiset(v) == multiset(v[..|v| - 1]) + multiset{u[|u| - 1]};
    assert multiset(u[..|u| - 1]) == multiset(u) - multiset{u[|u| - 1]};
    assert multiset(v[..|v| - 1]) == multiset(v) - multiset{u[|u| - 1]};
  }

  /** The entry that belongs at place i can be swapped there. */
  lemma SwapMoves(s: seq<nat>, i: nat, goal: seq<nat>) returns (j: nat)
    requires 0 < i < |s| == |goal|
    requires s[i + 1..] == goal[i + 1..] && multiset(s[..i + 1]) == multiset(goal[..i + 1])
    ensures j <= i && Swapped(s, i, j)[i..] == goal[i..]
    ensures multiset(Swapped(s, i, j)[..i]) == multiset(goal[..i])
  {
    var u, v := s[..i + 1], goal[..i + 1];
    assert v[i] in multiset(v);
    j :| 0 <= j < i + 1 && u[j] == v[i];
    SwapPlaces(s, i, j, goal);
    SwapKeeps(u, i, j);
    SameButLast(Swapped(u, i, j), v);
    assert Swapped(s, i, j)[..i] == Swapped(u, i, j)[..i] && goal[..i] == v[..i];
  }

  lemma SwapPlaces(s: seq<nat>, i: nat, j: nat, goal: seq<nat>)
    requires j <= i < |s| == |goal| && s[i + 1..] == goal[i + 1..] && s[j] == goal[i]
    ensures Swapped(s, i, j)[i..] == goal[i..]
  {
    var s' := Swapped(s, i, j);
    assert s'[i..] == [s[j]] + s[i + 1..] && goal[i..] == [goal[i]] + goal[i + 1..];
  }

  class Barrier {
    const parallelThreads: nat
    const rnd: Draws
    const threadList: array<ThreadSyncInfo>
    const runList: array<nat>
    var runListSize: nat
    var curThreadIdx: nat
    var runningThreads: nat
    var leftThreads: nat
    var phaseCount: nat
    var drawn: nat               // how many random numbers have been used
    ghost var pos: seq<nat>      // each listed thread's place
    ghost var synced: set<nat>   // synced in this phase, and neither left nor rejoined since
    ghost var woken: set<nat>    // woken since last put on the list
    ghost var phases: nat        // how often the scheduler was called back

    ghost predicate Core()
      reads this, threadList, runList
    {
      && parallelThreads > 0
      && Listed(threadList[..], runList[..], runListSize, pos)
      && ThreadsOk(threadList[..], pos, curThreadIdx, synced, woken)
      && curThreadIdx <= runListSize
      && runningThreads == |InState(threadList[..], RUNNING)| <= parallelThreads
      && leftThreads == |InState(threadList[..], LEFT)|
    }

    /** Between operations: parallelism is free only if nobody is left to wake, and if anybody waits
        then somebody runs. */
    ghost predicate Valid()
      reads this, threadList, runList
    {
      && Core() && phaseCount == phases
      && (runningThreads < parallelThreads ==> curThreadIdx == runListSize)
      && (runningThreads == 0 ==> forall t :: 0 <= t < threadList.Length ==> threadList[t].state != WAITING)
    }

    constructor (parallelThreads: nat, maxThreads: nat, rnd: Draws)
      requires parallelThreads > 0
      ensures Valid() && phases == 0 && this.parallelThreads == parallelThreads && threadList.Length == maxThreads
      ensures fresh(threadList) && fresh(runList)
      ensures forall t :: 0 <= t < maxThreads ==> threadList[t].state == OFFLINE && threadList[t].lastIdx == 0
    {
      this.parallelThreads, this.rnd, drawn := parallelThreads, rnd, 0;
      threadList := new ThreadSyncInfo[maxThreads](_ => ThreadSyncInfo(OFFLINE, 0, 0));
      runList := new nat[maxThreads](_ => 0);
      runListSize, curThreadIdx, runningThreads, leftThreads, phaseCount := 0, 0, 0, 0, 0;
      pos, synced, woken, phases := seq(maxThreads, _ => 0), {}, {}, 0;
      new;
      assert InState(threadList[..], RUNNING) == {} && InState(threadList[..], LEFT) == {};
    }

    /** Wake threads from the cursor on, while parallelism lasts. */
    method CheckRunList()
      requires Core()
      modifies threadList, `curThreadIdx, `runningThreads, `woken
      ensures Core() && (runningThreads < parallelThreads ==> curThreadIdx == runListSize)
      ensures old(curThreadIdx) <= curThreadIdx
      ensures old(runningThreads) == parallelThreads ==> curThreadIdx == old(curThreadIdx)
      ensures curThreadIdx == old(curThreadIdx) ==>
                threadList[..] == old(threadList[..]) && runningThreads == old(runningThreads)
      ensures forall t :: 0 <= t < threadList.Length ==>
                threadList[t].state == Passed(old(threadList[t].state), pos[t], old(curThreadIdx), curThreadIdx)
      ensures forall t :: 0 <= t < threadList.Length ==> Kept(old(threadList[t]), threadList[t])
      ensures forall t: nat :: t in woken <==>
                t in old(woken) || (t < threadList.Length && threadList[t].state != old(threadList[t].state))
    {
      while runningThreads < parallelThreads && curThreadIdx < runListSize
        invariant Core() && old(curThreadIdx) <= curThreadIdx
        invariant old(runningThreads) == parallelThreads ==> curThreadIdx == old(curThreadIdx)
        invariant curThreadIdx == old(curThreadIdx) ==>
                    threadList[..] == old(threadList[..]) && runningThreads == old(runningThreads)
        invariant forall t :: 0 <= t < threadList.Length ==>
                    threadList[t].state == Passed(old(threadList[t].state), pos[t], old(curThreadIdx), curThreadIdx)
        invariant forall t :: 0 <= t < threadList.Length ==> Kept(old(threadList[t]), threadList[t])
        invariant forall t: nat :: t in woken <==>
                    t in old(woken) || (t < threadList.Length && threadList[t].state != old(threadList[t].state))
        decreases runListSize - curThreadIdx
      {
        CheckNext();
      }
    }

    method CheckNext()
      requires Core() && runningThreads < parallelThreads && curThreadIdx < runListSize
      modifies threadList, `curThreadIdx, `runningThreads, `woken
      ensures Core() && curThreadIdx == old(curThreadIdx) + 1
      ensures forall t :: 0 <= t < threadList.Length ==>
                threadList[t].state == Passed(old(threadList[t].state), pos[t], old(curThreadIdx), curThreadIdx)
      ensures forall t :: 0 <= t < threadList.Length ==> Kept(old(threadList[t]), threadList[t])
      ensures forall t: nat :: t in woken <==>
                t in old(woken) || (t < threadList.Length && threadList[t].state != old(threadList[t].state))
    {
      ghost var ts, was := threadList[..], woken;
      assert At(ts, runList[..], pos, curThreadIdx);
      var idx := curThreadIdx;
      curThreadIdx := curThreadIdx + 1;
      var wtid := runList[idx];
      if threadList[wtid].state == WAITING {
        assert ThreadOk(ts[wtid], pos[wtid], idx, wtid in synced, wtid in woken);
        assert threadList[wtid].futexWord == 1;  // the compare-and-swap succeeds
        threadList[wtid] := ThreadSyncInfo(RUNNING, 0, idx);
        runningThreads := runningThreads + 1;
        woken := woken + {wtid};
      }
      assert threadList[..] == if ts[wtid].state == WAITING then ts[wtid := ThreadSyncInfo(RUNNING, 0, idx)] else ts;
      CursorMoves(ts, runList[..], runListSize, pos, idx, synced, was, threadList[..], woken);
    }

    /** The cleanup pass of checkEndPhase: the threads that LEFT go OFFLINE. */
    method Compact()
      requires Core() && curThreadIdx == 0 && synced == {} && runningThreads == 0 && runListSize > 0
      modifies threadList, runList, `runListSize, `leftThreads, `pos, `woken
      ensures Core() && leftThreads == 0
      ensures forall t :: 0 <= t < threadList.Length ==>
                threadList[t].state == if old(threadList[t].state) == LEFT then OFFLINE else old(threadList[t].state)
    {
      var idx, newSize := 0, runListSize;
      while idx < newSize
        invariant idx <= newSize <= runListSize
        invariant Listed(threadList[..], runList[..], newSize, pos) && ThreadsOk(threadList[..], pos, 0, {}, woken)
        invariant |InState(threadList[..], LEFT)| == leftThreads - (runListSize - newSize) &&
                  |InState(threadList[..], RUNNING)| == 0
        invariant forall t :: 0 <= t < threadList.Length ==>
                    (threadList[t].state == old(threadList[t].state) ||
                     (old(threadList[t].state) == LEFT && threadList[t].state == OFFLINE))
        invariant forall i :: 0 <= i < idx ==> runList[i] < threadList.Length && threadList[runList[i]].state != LEFT
        decreases newSize - idx
      {
        assert At(threadList[..], runList[..], pos, idx);
        if threadList[runList[idx]].state == LEFT {
          DropAt(idx, newSize);
          newSize := newSize - 1;
        } else {
          idx := idx + 1;
        }
      }
      NoneLeft(threadList[..], runList[..], newSize, pos);
      assert runListSize - newSize == leftThreads;
      leftThreads := 0;
      runListSize := newSize;
    }

    method DropAt(idx: nat, newSize: nat)
      requires Listed(threadList[..], runList[..], newSize, pos) && ThreadsOk(threadList[..], pos, 0, {}, woken)
      requires idx < newSize && runList[idx] < threadList.Length && threadList[runList[idx]].state == LEFT
      modifies threadList, runList, `pos, `woken
      ensures Listed(threadList[..], runList[..], newSize - 1, pos) && ThreadsOk(threadList[..], pos, 0, {}, woken)
      ensures |InState(threadList[..], LEFT)| == old(|InState(threadList[..], LEFT)|) - 1
      ensures |InState(threadList[..], RUNNING)| == old(|InState(threadList[..], RUNNING)|)
      ensures forall t :: 0 <= t < threadList.Length ==>
                threadList[t].state == if t == old(runList[idx]) then OFFLINE else old(threadList[t].state)
      ensures forall i :: 0 <= i < idx ==> runList[i] == old(runList[i]) != old(runList[idx])
    {
      ghost var ts, list, was := threadList[..], runList[..], pos;
      assert At(ts, list, pos, idx) && At(ts, list, pos, newSize - 1);
      forall i | 0 <= i < idx ensures list[i] != list[idx] { assert At(ts, list, pos, i); }
      var wtid := runList[idx];
      threadList[wtid] := threadList[wtid].(state := OFFLINE);
      var stid := runList[newSize - 1];
      runList[idx] := stid;
      threadList[stid] := threadList[stid].(lastIdx := idx);
      pos := pos[stid := idx];
      DropThread(ts, list, newSize, was, woken, idx, threadList[..], pos);
      woken := woken - {wtid};
      assert runList[..] == list[idx := stid];
    }

    /** The Fisher-Yates shuffle of checkEndPhase. */
    method Shuffle()
      requires Core() && curThreadIdx == 0 && runListSize > 0
      modifies threadList, runList, `pos, `drawn
      ensures Core() && drawn == old(drawn) + runListSize - 1
      ensures runList[..] == Shuffled(old(runList[..]), runListSize - 1, rnd, old(drawn))
      ensures forall t :: 0 <= t < threadList.Length ==> threadList[t].state == old(threadList[t].state)
    {
      var i := runListSize - 1;
      ghost var goal := Shuffled(runList[..], i, rnd, drawn);
      while i > 0
        invariant Core() && 0 <= i < runListSize && drawn == old(drawn) + (runListSize - 1 - i)
        invariant Shuffled(runList[..], i, rnd, drawn) == goal
        invariant forall t :: 0 <= t < threadList.Length ==> threadList[t].state == old(threadList[t].state)
      {
        ShuffleAt(i);
        i := i - 1;
      }
    }

    method ShuffleAt(i: nat)
      requires Core() && curThreadIdx == 0 && 0 < i < runListSize
      modifies threadList, runList, `pos, `drawn
      ensures Core() && drawn == old(drawn) + 1
      ensures Shuffled(runList[..], i - 1, rnd, drawn) == old(Shuffled(runList[..], i, rnd, drawn))
      ensures forall t :: 0 <= t < threadList.Length ==> threadList[t].state == old(threadList[t].state)
    {
      var j := rnd(drawn, i);
      drawn := drawn + 1;
      Exchange(i, j);
    }

    method Exchange(i: nat, j: nat)
      requires Core() && curThreadIdx == 0 && i < runListSize && j < runListSize
      modifies threadList, runList, `pos
      ensures Core() && runList[..] == Swapped(old(runList[..]), i, j)
      ensures forall t :: 0 <= t < threadList.Length ==> threadList[t].state == old(threadList[t].state)
    {
      ghost var ts, list, was := threadList[..], runList[..], pos;
      assert At(ts, list, pos, i) && At(ts, list, pos, j);
      var itid := runList[i];
      var jtid := runList[j];
      runList[i] := jtid;
      runList[j] := itid;
      threadList[itid] := threadList[itid].(lastIdx := j);
      threadList[jtid] := threadList[jtid].(lastIdx := i);
      pos := pos[itid := j][jtid := i];
      assert runList[..] == Swapped(list, i, j);
      assert threadList[..] == ts[itid := ts[itid].(lastIdx := j)][jtid := ts[jtid].(lastIdx := i)];
      SwapThreads(ts, list, runListSize, was, 0, 0, synced, woken, i, j, threadList[..], pos);
    }

    /** checkEndPhase. */
    method CheckEndPhase()
      requires Core() && phaseCount == phases && (runningThreads < parallelThreads ==> curThreadIdx == runListSize)
      modifies this, threadList, runList
      ensures Core() && phaseCount == phases
      ensures phases == old(phases) + if old(PhaseOver(threadList[..], synced)) then 1 else 0
      ensures phases == old(phases) ==> Unmoved() && synced == old(synced)
      ensures phases != old(phases) ==> NewPhase() && curThreadIdx == 0 && runningThreads == 0
      ensures phases != old(phases) ==>
                forall t :: 0 <= t < threadList.Length ==>
                  threadList[t].state == Cleaned(old(phases), old(threadList[t].state))
      ensures phases == old(phases) && runningThreads == 0 ==>
                forall t :: 0 <= t < threadList.Length ==> threadList[t].state != WAITING
    {
      IsPhaseOver();
      if curThreadIdx == runListSize && runningThreads == 0 {
        if leftThreads == runListSize {
          return;
        }
        phases := phases + 1;  // sched->callback()
        curThreadIdx := 0;
        synced := {};
        assert Core() by { Rewound(threadList[..], runList[..], runListSize, pos, runListSize, old(synced), woken); }
        NextPhase();
      }
    }

    /** A phase has ended: whoever LEFT is taken off the list, one time out of 32, and the list has a new
        order if not all can run at once. */
    twostate predicate NewPhase()
      reads this, threadList, runList
    {
      && synced == {}
      && (if old(phases) % 32 == 0
          then leftThreads == 0 && forall t :: 0 <= t < threadList.Length ==> threadList[t].state != LEFT
          else runListSize == old(runListSize) <= |old(runList[..])| &&
               runList[..] == Reordered(old(runList[..]), runListSize, parallelThreads, rnd, old(drawn)))
      && drawn == old(drawn) + if 0 < runListSize && parallelThreads < runListSize then runListSize - 1 else 0
    }

    twostate predicate Unmoved()
      reads this, threadList, runList
    {
      && drawn == old(drawn)
      && threadList[..] == old(threadList[..]) && runList[..] == old(runList[..])
      && pos == old(pos) && woken == old(woken)
      && curThreadIdx == old(curThreadIdx) && runListSize == old(runListSize) && runningThreads == old(runningThreads)
    }

    method NextPhase()
      requires Core() && curThreadIdx == 0 && synced == {} && runningThreads == 0 && runListSize > 0
      modifies threadList, runList, `runListSize, `leftThreads, `phaseCount, `drawn, `pos, `woken
      ensures Core() && phaseCount == old(phaseCount) + 1
      ensures forall t :: 0 <= t < threadList.Length ==>
                threadList[t].state == Cleaned(old(phaseCount), old(threadList[t].state))
      ensures if old(phaseCount) % 32 == 0 then leftThreads == 0
              else runListSize == old(runListSize) <= runList.Length &&
                   runList[..] == Reordered(old(runList[..]), runListSize, parallelThreads, rnd, old(drawn))
      ensures drawn == old(drawn) + if 0 < runListSize && parallelThreads < runListSize then runListSize - 1 else 0
    {
      var count := phaseCount;
      phaseCount := phaseCount + 1;
      if count % 32 == 0 {
        Compact();
      }
      if parallelThreads < runListSize {
        Shuffle();
      }
    }

    /** When checkEndPhase ends the phase, in terms of the threads. */
    lemma IsPhaseOver()
      requires Core() && (runningThreads < parallelThreads ==> curThreadIdx == runListSize)
      ensures PhaseOver(threadList[..], synced) <==>
                curThreadIdx == runListSize && runningThreads == 0 && leftThreads != runListSize
      ensures runningThreads == 0 && leftThreads == runListSize ==>
                forall t :: 0 <= t < threadList.Length ==> threadList[t].state != WAITING
      ensures leftThreads != runListSize ==> runListSize > 0
    {
      var ts := threadList[..];
      AllLeft(ts, runList[..], runListSize, pos);
      if runningThreads == 0 {
        forall t | 0 <= t < |ts| ensures ts[t].state != RUNNING && (ts[t].state == WAITING ==> t in synced) {
          NoneInState(ts, RUNNING, t);
          assert ThreadOk(ts[t], pos[t], curThreadIdx, t in synced, t in woken);
          assert ts[t].state != OFFLINE ==> Placed(runList[..], runListSize, pos, t);
        }
      }
      if PhaseOver(ts, synced) { assert InState(ts, RUNNING) == {}; }
      ListSize(ts, runList[..], runListSize, pos);
      SubsetSize(InState(ts, LEFT), OnList(ts));
    }

    /** Wake whom we can; if that ends the phase, start the next and wake its first threads. */
    method TryWakeNext()
      requires Core() && phaseCount == phases
      modifies this, threadList, runList
      ensures Valid()
      ensures phases == old(phases) + if old(PhaseOver(threadList[..], synced)) then 1 else 0
      ensures phases == old(phases) ==> WokenOnly()
      ensures phases != old(phases) ==> NewPhase()
      ensures phases != old(phases) ==>
                forall t :: 0 <= t < threadList.Length ==>
                  threadList[t].state ==
                    Passed(Cleaned(old(phases), old(threadList[t].state)), pos[t], 0, curThreadIdx)
    {
      Settle();
      CheckRunList();
      if phases != old(phases) && curThreadIdx == runListSize { AllWoken(); }
    }

    /** Within a phase only the threads that the cursor passes change. */
    twostate predicate WokenOnly()
      reads this, threadList, runList
      requires |old(pos)| == threadList.Length
    {
      && synced == old(synced) && pos == old(pos) && runListSize == old(runListSize)
      && runList[..] == old(runList[..]) && drawn == old(drawn)
      && old(curThreadIdx) <= curThreadIdx
      && (old(runningThreads) == parallelThreads ==> curThreadIdx == old(curThreadIdx))
      && (curThreadIdx == old(curThreadIdx) ==>
            runningThreads == old(runningThreads) && threadList[..] == old(threadList[..]))
      && forall t :: 0 <= t < threadList.Length ==>
           && threadList[t].state == Passed(old(threadList[t].state), pos[t], old(curThreadIdx), curThreadIdx)
           && Kept(old(threadList[t]), threadList[t])
    }

    /** The first wakeups, and the end of the phase if they are the last. */
    method Settle()
      requires Core() && phaseCount == phases
      modifies this, threadList, runList
      ensures Core() && phaseCount == phases
      ensures phases == old(phases) + if old(PhaseOver(threadList[..], synced)) then 1 else 0
      ensures phases == old(phases) ==>
                && WokenOnly() && (runningThreads < parallelThreads ==> curThreadIdx == runListSize)
                && (runningThreads == 0 ==> forall t :: 0 <= t < threadList.Length ==> threadList[t].state != WAITING)
      ensures phases != old(phases) ==> NewPhase() && curThreadIdx == 0 && runningThreads == 0
      ensures phases != old(phases) ==>
                forall t :: 0 <= t < threadList.Length ==>
                  threadList[t].state == Cleaned(old(phases), old(threadList[t].state))
    {
      ghost var ts, a := threadList[..], curThreadIdx;
      CheckRunList();
      SamePhaseOver(ts, threadList[..], pos, a, curThreadIdx, synced, old(woken));
      CheckEndPhase();
    }

    lemma AllWoken()
      requires Core() && curThreadIdx == runListSize && synced == {}
      ensures forall t :: 0 <= t < threadList.Length ==> threadList[t].state != WAITING
    {
      forall t | 0 <= t < threadList.Length ensures threadList[t].state != WAITING {
        assert ThreadOk(threadList[..][t], pos[t], curThreadIdx, t in synced, t in woken);
        assert threadList[t].state != OFFLINE ==> Placed(runList[..], runListSize, pos, t);
      }
    }

    // ----- what the scheduler calls -----

    /** join, up to where the thread starts to wait for being woken.  It never ends a phase. */
    method Join(tid: nat)
      requires Valid() && tid < threadList.Length
      requires threadList[tid].state == LEFT || threadList[tid].state == OFFLINE
      modifies this, threadList, runList
      ensures Valid() && phases == old(phases) && synced == old(synced)
      ensures threadList[tid].state == if old(runningThreads) < parallelThreads then RUNNING else WAITING
      ensures forall t :: 0 <= t < threadList.Length && t != tid ==> threadList[t].state == old(threadList[t].state)
      ensures old(threadList[tid].state) == LEFT && old(threadList[tid].lastIdx) < old(curThreadIdx) ==>
                threadList[tid].state == WAITING ==> pos[tid] == curThreadIdx  // it is woken next
      ensures old(threadList[tid].state) == OFFLINE ==>
                && pos[tid] == old(runListSize) && runListSize == old(runListSize) + 1
                && (threadList[tid].state == WAITING ==> threadList[tid].lastIdx == old(threadList[tid].lastIdx))
                && forall t :: 0 <= t < threadList.Length && t != tid ==> threadList[t] == old(threadList[t])
    {
      if threadList[tid].state == OFFLINE { Enlist(tid); } else { Relist(tid); }
      assert !PhaseOver(threadList[..], synced) by { assert threadList[..][tid].state == WAITING; }
      Unique(tid);
      TryWakeNext();
    }

    /** The place of tid is its own. */
    lemma Unique(tid: nat)
      requires Core() && tid < threadList.Length && threadList[tid].state == WAITING
      ensures pos[tid] < runListSize
      ensures forall t :: 0 <= t < threadList.Length && t != tid && threadList[t].state == WAITING ==>
                pos[t] != pos[tid]
    {
      assert Placed(runList[..], runListSize, pos, tid);
      forall t | 0 <= t < threadList.Length && t != tid && threadList[t].state == WAITING ensures pos[t] != pos[tid] {
        assert Placed(runList[..], runListSize, pos, t);
      }
    }

    method Enlist(tid: nat)
      requires Core() && tid < threadList.Length && threadList[tid].state == OFFLINE
      modifies threadList, runList, `runListSize, `pos
      ensures Core() && tid !in synced && runListSize == old(runListSize) + 1 && pos[tid] == old(runListSize)
      ensures threadList[tid].state == WAITING && threadList[tid].lastIdx == old(threadList[tid].lastIdx)
      ensures forall t :: 0 <= t < threadList.Length && t != tid ==> threadList[t] == old(threadList[t])
    {
      ghost var ts, list, was := threadList[..], runList[..], pos;
      RoomFor(ts, list, runListSize, pos, tid);
      runList[runListSize] := tid;
      pos := pos[tid := runListSize];
      runListSize := runListSize + 1;
      threadList[tid] := threadList[tid].(state := WAITING, futexWord := 1);
      ghost var th := threadList[tid];
      AppendListed(ts, list, runListSize - 1, was, tid, th);
      assert threadList[..] == ts[tid := th] && runList[..] == list[runListSize - 1 := tid];
      OneThread(ts, was, curThreadIdx, synced, woken, tid, th, runListSize - 1, synced);
      OneChanges(ts, tid, th, RUNNING);
      OneChanges(ts, tid, th, LEFT);
    }

    /** A LEFT thread whose turn in this phase is over swaps places so as to get another. */
    method Relist(tid: nat)
      requires Core() && tid < threadList.Length && threadList[tid].state == LEFT
      modifies threadList, runList, `curThreadIdx, `runningThreads, `leftThreads, `pos, `synced
      ensures Core() && tid !in synced && synced == old(synced) && runningThreads == old(runningThreads)
      ensures threadList[tid].state == WAITING && pos[tid] >= curThreadIdx
      ensures if old(threadList[tid].lastIdx) < old(curThreadIdx) then curThreadIdx == old(curThreadIdx) - 1 == pos[tid]
              else curThreadIdx == old(curThreadIdx) && pos == old(pos)
      ensures old(curThreadIdx) == runListSize ==> curThreadIdx == runListSize - 1
      ensures forall t :: 0 <= t < threadList.Length && t != tid ==> threadList[t].state == old(threadList[t].state)
    {
      assert ThreadOk(threadList[..][tid], pos[tid], curThreadIdx, tid in synced, tid in woken);
      assert Placed(runList[..], runListSize, pos, tid);
      var lastIdx := threadList[tid].lastIdx;
      if curThreadIdx > lastIdx {
        Reschedule(tid, lastIdx);
      }
      assert ThreadOk(threadList[..][tid], pos[tid], curThreadIdx, tid in synced, tid in woken);
      Move(tid, threadList[tid].(state := WAITING, futexWord := 1), synced);
    }

    method Reschedule(tid: nat, lastIdx: nat)
      requires Core() && tid < threadList.Length && threadList[tid].state == LEFT
      requires lastIdx == threadList[tid].lastIdx == pos[tid] < curThreadIdx
      modifies threadList, runList, `curThreadIdx, `pos
      ensures Core() && curThreadIdx == old(curThreadIdx) - 1 == pos[tid]
      ensures forall t :: 0 <= t < threadList.Length ==> threadList[t].state == old(threadList[t].state)
    {
      ghost var ts, list, was, cur := threadList[..], runList[..], pos, curThreadIdx;
      assert Placed(list, runListSize, pos, tid);
      curThreadIdx := curThreadIdx - 1;
      assert tid == runList[lastIdx];
      assert At(ts, list, was, curThreadIdx);
      var otherTid := runList[curThreadIdx];
      runList[lastIdx] := otherTid;
      runList[curThreadIdx] := tid;
      threadList[otherTid] := threadList[otherTid].(lastIdx := lastIdx);
      threadList[tid] := threadList[tid].(lastIdx := curThreadIdx);
      pos := pos[tid := curThreadIdx][otherTid := lastIdx];
      assert runList[..] == Swapped(list, lastIdx, curThreadIdx);
      assert threadList[..] ==
             ts[tid := ts[tid].(lastIdx := curThreadIdx)][otherTid := ts[otherTid].(lastIdx := lastIdx)];
      SwapThreads(ts, list, runListSize, was, cur, curThreadIdx, synced, woken, lastIdx, curThreadIdx, threadList[..],
                  pos);
    }

    /** A listed thread stops running, leaves or rejoins, in place. */
    method Move(tid: nat, th: ThreadSyncInfo, ghost synced': set<nat>)
      requires Core() && tid < threadList.Length && threadList[tid].state != OFFLINE
      requires th.state == WAITING || th.state == LEFT
      requires synced' - {tid} == synced - {tid}
      requires ThreadOk(th, pos[tid], curThreadIdx, tid in synced', tid in woken)
      modifies threadList, `runningThreads, `leftThreads, `synced
      ensures Core() && synced == synced' && threadList[..] == old(threadList[..])[tid := th]
      ensures runningThreads == old(runningThreads) - if old(threadList[tid].state) == RUNNING then 1 else 0
    {
      ghost var ts := threadList[..];
      var was := threadList[tid].state;
      threadList[tid] := th;
      StateListed(ts, runList[..], runListSize, pos, tid, th);
      OneThread(ts, pos, curThreadIdx, synced, woken, tid, th, pos[tid], synced');
      OneChanges(ts, tid, th, RUNNING);
      OneChanges(ts, tid, th, LEFT);
      if was == RUNNING { runningThreads := runningThreads - 1; }
      if th.state == LEFT { leftThreads := leftThreads + 1; }
      if was == LEFT { leftThreads := leftThreads - 1; }
      synced := synced';
    }

    /** What becomes of thread t, which has done nothing itself: within a phase it may be woken, and the end
        of a phase may take it off the list if it has left. */
    twostate predicate Carried(t: nat)
      reads this, threadList
      requires t < threadList.Length
    {
      if phases == old(phases) then Follows(old(threadList[t].state), threadList[t].state)
      else Succeeds(old(phases), old(threadList[t].state), threadList[t].state)
    }

    /** leave.  A thread that waits may leave only if lastIdx is its place, which holds once it has been
        woken (WokenMayLeave). */
    method Leave(tid: nat)
      requires Valid() && tid < threadList.Length
      requires threadList[tid].state == RUNNING || (threadList[tid].state == WAITING && MayLeave(tid))
      modifies this, threadList, runList
      ensures Valid()
      ensures phases == old(phases) +
                if old(threadList[tid].state == RUNNING && OthersDone(tid) && OthersWait(tid)) then 1 else 0
      ensures phases == old(phases) ==> threadList[tid].state == LEFT && synced == old(synced) - {tid}
      ensures phases != old(phases) ==> NewPhase() && Succeeds(old(phases), LEFT, threadList[tid].state)
      ensures forall t :: t in synced ==> threadList[t].state == WAITING
      ensures forall t :: 0 <= t < threadList.Length && t != tid ==> Carried(t)
      ensures old(threadList[tid].state) == WAITING ==>
                && phases == old(phases) && curThreadIdx == old(curThreadIdx) && runList[..] == old(runList[..])
                && forall t :: 0 <= t < threadList.Length && t != tid ==> threadList[t] == old(threadList[t])
    {
      if threadList[tid].state == RUNNING { LeaveRunning(tid); } else { LeaveWaiting(tid); }
      forall t | t in synced ensures threadList[t].state == WAITING { SyncedWait(t); }
    }

    method LeaveRunning(tid: nat)
      requires Valid() && tid < threadList.Length && threadList[tid].state == RUNNING
      modifies this, threadList, runList
      ensures Valid()
      ensures phases == old(phases) + if old(OthersDone(tid) && OthersWait(tid)) then 1 else 0
      ensures phases == old(phases) ==> threadList[tid].state == LEFT && synced == old(synced)
      ensures phases != old(phases) ==> NewPhase() && Succeeds(old(phases), LEFT, threadList[tid].state)
      ensures tid !in old(synced)
      ensures forall t :: 0 <= t < threadList.Length && t != tid ==> Carried(t)
    {
      assert ThreadOk(threadList[..][tid], pos[tid], curThreadIdx, tid in synced, tid in woken);
      ghost var ts, th := threadList[..], threadList[tid].(state := LEFT);
      Move(tid, threadList[tid].(state := LEFT), synced);
      OverForTheOthers(ts, tid, th, old(synced), synced);
      TryWakeNext();
    }

    method LeaveWaiting(tid: nat)
      requires Valid() && tid < threadList.Length && threadList[tid].state == WAITING && MayLeave(tid)
      modifies threadList, `runningThreads, `leftThreads, `synced
      ensures Valid() && threadList[tid].state == LEFT && synced == old(synced) - {tid}
      ensures forall t :: 0 <= t < threadList.Length && t != tid ==> threadList[t] == old(threadList[t])
    {
      ghost var ts := threadList[..];
      assert ThreadOk(ts[tid], pos[tid], curThreadIdx, tid in synced, tid in woken);
      StampedExactly(ts, runList[..], runListSize, pos, tid);
      Move(tid, threadList[tid].(state := LEFT), synced - {tid});
    }

    /** The whole of leave for a thread that waits, also where MayLeave does not hold. */
    method MarkLeft(tid: nat)
      requires tid < threadList.Length && threadList[tid].state == WAITING
      modifies threadList, `leftThreads
      ensures threadList[..] == old(threadList[..])[tid := old(threadList[tid]).(state := LEFT)]
      ensures leftThreads == old(leftThreads) + 1
    {
      threadList[tid] := threadList[tid].(state := LEFT);
      leftThreads := leftThreads + 1;
    }

    /** A thread that has synced in this phase is waiting. */
    lemma SyncedWait(t: nat)
      requires Core() && t in synced
      ensures t < threadList.Length && threadList[t].state == WAITING
    {
      assert ThreadOk(threadList[..][t], pos[t], curThreadIdx, t in synced, t in woken);
    }

    predicate MayLeave(tid: nat)
      reads this, threadList, runList
      requires tid < threadList.Length && runListSize <= runList.Length
    {
      threadList[tid].lastIdx < runListSize && runList[threadList[tid].lastIdx] == tid
    }

    ghost predicate OthersDone(tid: nat)
      reads this, threadList
    {
      DoneBut(threadList[..], synced, tid)
    }

    ghost predicate OthersWait(tid: nat)
      reads this, threadList
    {
      WaitsBut(threadList[..], tid)
    }

    /** sync, up to where the thread starts to wait for being woken. */
    method Sync(tid: nat)
      requires Valid() && tid < threadList.Length && threadList[tid].state == RUNNING
      modifies this, threadList, runList
      ensures Valid()
      ensures phases == old(phases) + if old(OthersDone(tid)) then 1 else 0
      ensures phases == old(phases) ==> threadList[tid].state == WAITING && synced == old(synced) + {tid}
      ensures phases != old(phases) ==> NewPhase() && threadList[tid].state in {WAITING, RUNNING}
      ensures forall t :: t in synced ==> threadList[t].state == WAITING
      ensures forall t :: 0 <= t < threadList.Length && t != tid ==> Carried(t)
    {
      assert ThreadOk(threadList[..][tid], pos[tid], curThreadIdx, tid in synced, tid in woken);
      ghost var ts, th := threadList[..], threadList[tid].(futexWord := 1, state := WAITING);
      Move(tid, threadList[tid].(futexWord := 1, state := WAITING), synced + {tid});
      OverForTheOthers(ts, tid, th, old(synced), synced);
      TryWakeNext();
      forall t | t in synced ensures threadList[t].state == WAITING { SyncedWait(t); }
    }

    lemma WokenMayLeave(tid: nat)
      requires Valid() && tid < threadList.Length && threadList[tid].state == WAITING && tid in woken
      ensures MayLeave(tid)
    {
      assert ThreadOk(threadList[..][tid], pos[tid], curThreadIdx, tid in synced, tid in woken);
      assert Placed(runList[..], runListSize, pos, tid);
    }

    lemma RunningIsBehindCursor(tid: nat)
      requires Valid() && tid < threadList.Length && threadList[tid].state == RUNNING
      ensures curThreadIdx > 0 && runningThreads > 0
    {
      assert ThreadOk(threadList[..][tid], pos[tid], curThreadIdx, tid in synced, tid in woken);
      if runningThreads == 0 { NoneInState(threadList[..], RUNNING, tid); }
    }

    /** If a waiting thread left and rejoined at once, join would reach its assertion that runList[lastIdx]
        is the thread exactly if the cursor has passed lastIdx.  It holds then exactly if the thread has
        synced in this phase. */
    lemma RejoinAtOnce(tid: nat)
      requires Valid() && tid < threadList.Length && threadList[tid].state == WAITING
      requires threadList[tid].lastIdx < curThreadIdx
      ensures threadList[tid].lastIdx < runListSize <= runList.Length
      ensures runList[threadList[tid].lastIdx] == tid <==> tid in synced
    {
      var lastIdx := threadList[tid].lastIdx;
      assert ThreadOk(threadList[..][tid], pos[tid], curThreadIdx, tid in synced, tid in woken);
      StampedExactly(threadList[..], runList[..], runListSize, pos, tid);
    }
  }

  /** Waking threads does not change whether the phase is over. */
  lemma SamePhaseOver(ts: seq<ThreadSyncInfo>, ts': seq<ThreadSyncInfo>, pos: seq<nat>, a: nat, b: nat,
                      synced: set<nat>, woken: set<nat>)
    requires |ts| == |ts'| == |pos| && ThreadsOk(ts, pos, a, synced, woken)
    requires forall t :: 0 <= t < |ts| ==> ts'[t].state == Passed(ts[t].state, pos[t], a, b)
    ensures PhaseOver(ts, synced) <==> PhaseOver(ts', synced)
  {
    assert forall t :: 0 <= t < |ts| ==> ThreadOk(ts[t], pos[t], a, t in synced, t in woken);
    if PhaseOver(ts, synced) {
      assert forall t :: 0 <= t < |ts| ==> ts'[t].state == ts[t].state;
    }
    if PhaseOver(ts', synced) {
      assert forall t :: 0 <= t < |ts| ==> ts'[t].state == ts[t].state;
    }
  }

  /** Thread tid has just stopped running. */
  lemma OverForTheOthers(ts: seq<ThreadSyncInfo>, tid: nat, th: ThreadSyncInfo, synced: set<nat>, synced': set<nat>)
    requires tid < |ts| && synced' - {tid} == synced - {tid}
    requires th.state == LEFT || (th.state == WAITING && tid in synced')
    ensures PhaseOver(ts[tid := th], synced') <==>
              DoneBut(ts, synced, tid) && (th.state == WAITING || WaitsBut(ts, tid))
  {
    var ts' := ts[tid := th];
    assert forall t :: 0 <= t < |ts| && t != tid ==> ts'[t] == ts[t] && (t in synced' - {tid} <==> t in synced');
    assert forall t :: 0 <= t < |ts| && t != tid ==> (t in synced - {tid} <==> t in synced);
    assert ts'[tid] == th;
  }

  lemma Rewound(ts: seq<ThreadSyncInfo>, list: seq<nat>, size: nat, pos: seq<nat>, cur: nat, synced: set<nat>,
                woken: set<nat>)
    requires Listed(ts, list, size, pos) && ThreadsOk(ts, pos, cur, synced, woken) && |InState(ts, RUNNING)| == 0
    ensures ThreadsOk(ts, pos, 0, {}, woken)
  {
    forall t | 0 <= t < |ts| ensures ThreadOk(ts[t], pos[t], 0, t in {}, t in woken) {
      NoneInState(ts, RUNNING, t);
      assert ThreadOk(ts[t], pos[t], cur, t in synced, t in woken);
    }
  }

  lemma NoneLeft(ts: seq<ThreadSyncInfo>, list: seq<nat>, size: nat, pos: seq<nat>)
    requires Listed(ts, list, size, pos)
    requires forall i :: 0 <= i < size ==> list[i] < |ts| && ts[list[i]].state != LEFT
    ensures |InState(ts, LEFT)| == 0
    ensures forall t :: 0 <= t < |ts| ==> ts[t].state != LEFT
  {
    forall t | 0 <= t < |ts| ensures ts[t].state != LEFT {
      assert ts[t].state != OFFLINE ==> Placed(list, size, pos, t);
    }
    assert InState(ts, LEFT) == {};
  }

  /** A run in which the assertion fails: with room for one thread to run, 0 joins and runs, 1 joins and
      waits, and 1 leaves without ever having been woken.  When it rejoins, the cursor has passed its
      lastIdx, and the run list has thread 0 there. */
  method LeaveUnwoken() returns (b: Barrier)
    ensures b.threadList.Length == 2 && b.threadList[0].state == RUNNING && b.threadList[1].state == LEFT
    ensures b.threadList[1].lastIdx < b.curThreadIdx && b.threadList[1].lastIdx < b.runList.Length
    ensures b.runList[b.threadList[1].lastIdx] != 1
  {
    b := new Barrier(1, 2, (k, i) => 0);
    b.Join(0);
    b.RunningIsBehindCursor(0);
    b.Join(1);
    b.RunningIsBehindCursor(0);
    b.RejoinAtOnce(1);
    b.MarkLeft(1);
  }
}
