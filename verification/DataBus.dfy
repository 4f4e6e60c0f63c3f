/** The data-bus slot search of zsim/src/detailed_mem.cpp: each access gets the first gap in a
    bounded log of bursts that is long enough. */
module DataBus {

  datatype AccessKind = Read | Write

  /** A burst occupies the bus from `first` up to, but not including, `last`. */
  datatype Burst = Burst(first: nat, last: nat)

  datatype Timing = Timing(tCAS: nat, tCWD: nat, tTrans: nat, tTransCrit: nat, tRTRS: nat) {
    predicate Valid() { 0 < tTrans && tTransCrit <= tTrans }

    function DataLatency(kind: AccessKind): nat { if kind.Read? then tCAS else tCWD }
    function DataDelay(kind: AccessKind): nat { DataLatency(kind) + tTransCrit }
    function DataSlot(): nat { tTrans }
  }

  /** The bus needs tRTRS to turn around between two bursts. */
  predicate Apart(t: Timing, a: Burst, b: Burst) {
    a.last + t.tRTRS <= b.first || b.last + t.tRTRS <= a.first
  }

  /** The test of the search loop, literally. */
  predicate Collides(t: Timing, b: Burst, tStart: nat) {
    var tEnd := tStart + t.DataSlot() + t.tRTRS;
    var busEnd := b.last + t.tRTRS;
    (b.first < tEnd && tEnd <= busEnd) || (b.first <= tStart && tStart < busEnd)
  }

  /** Against a logged burst of at least full length the test means what it should. */
  lemma CollidesMeansNotApart(t: Timing, b: Burst, tStart: nat)
    requires t.Valid() && b.first + t.tTrans <= b.last
    ensures Collides(t, b, tStart) <==> !Apart(t, b, Burst(tStart, tStart + t.tTrans))
  {
  }

  ghost predicate Log(t: Timing, log: seq<Burst>) {
    && (forall i :: 0 <= i < |log| ==> log[i].first + t.tTrans <= log[i].last)
    && (forall i, j :: 0 <= i < j < |log| ==> log[i].last + t.tRTRS <= log[j].first)
  }

  /** A burst starting at s would be too close to a logged one. */
  ghost predicate Blocked(t: Timing, log: seq<Burst>, s: nat) {
    exists i :: 0 <= i < |log| && !Apart(t, log[i], Burst(s, s + t.tTrans))
  }

  predicate Covers(a: Burst, b: Burst) { a.first <= b.first && b.last <= a.last }

  ghost predicate Covered(log: seq<Burst>, p: Burst) { exists i :: 0 <= i < |log| && Covers(log[i], p) }

  /** The log forgets old bursts, but its first entry then covers all the time they took. */
  ghost predicate AllCovered(log: seq<Burst>, placed: seq<Burst>) { forall p :: p in placed ==> Covered(log, p) }

  lemma CoveredAreApart(t: Timing, log: seq<Burst>, placed: seq<Burst>, b: Burst)
    requires AllCovered(log, placed) && forall i :: 0 <= i < |log| ==> Apart(t, log[i], b)
    ensures forall i :: 0 <= i < |placed| ==> Apart(t, placed[i], b)
  {
    forall i | 0 <= i < |placed| ensures Apart(t, placed[i], b) {
      assert placed[i] in placed;
      var k :| 0 <= k < |log| && Covers(log[k], placed[i]);
    }
  }

  lemma InsertedCovers(log: seq<Burst>, placed: seq<Burst>, b: Burst)
    requires AllCovered(log, placed)
    requires forall x :: x in Inserted(log, b) <==> x in log || x == b
    ensures AllCovered(Inserted(log, b), placed + [b])
  {
    var log' := Inserted(log, b);
    forall p | p in placed + [b] ensures Covered(log', p) {
      if p in placed {
        var i :| 0 <= i < |log| && Covers(log[i], p);
        assert log[i] in log';
        var k :| 0 <= k < |log'| && log'[k] == log[i];
      } else {
        assert b in log';
        var k :| 0 <= k < |log'| && log'[k] == b;
      }
    }
  }

  /** The log without its oldest burst, its first entry widened to start at 0. */
  function Dropped(log: seq<Burst>): seq<Burst>
    requires |log| > 1
  {
    log[1..][0 := Burst(0, log[1].last)]
  }

  lemma DroppedCovers(t: Timing, log: seq<Burst>, placed: seq<Burst>)
    requires |log| > 1 && Log(t, log) && AllCovered(log, placed)
    ensures Log(t, Dropped(log)) && AllCovered(Dropped(log), placed)
  {
    var log' := Dropped(log);
    forall p | p in placed ensures Covered(log', p) {
      var i :| 0 <= i < |log| && Covers(log[i], p);
      assert Covers(log'[if i > 0 then i - 1 else 0], p);
    }
  }

  function Before(a: Burst, b: Burst): bool { a.first < b.first || (a.first == b.first && a.last < b.last) }

  /** Sorting a sorted log with one new burst at its end. */
  function Inserted(log: seq<Burst>, b: Burst): seq<Burst> {
    if log == [] || !Before(b, log[|log| - 1]) then log + [b]
    else Inserted(log[..|log| - 1], b) + [log[|log| - 1]]
  }

  lemma {:induction false} InsertedKeepsLog(t: Timing, log: seq<Burst>, b: Burst)
    requires t.Valid() && Log(t, log) && b.first + t.tTrans <= b.last
    requires forall i :: 0 <= i < |log| ==> Apart(t, log[i], b)
    ensures Log(t, Inserted(log, b)) && |Inserted(log, b)| == |log| + 1
    ensures forall x :: x in Inserted(log, b) <==> x in log || x == b
  {
    if log != [] && Before(b, log[|log| - 1]) {
      var rest, top := log[..|log| - 1], log[|log| - 1];
      assert log == rest + [top];
      InsertedKeepsLog(t, rest, b);
      assert Apart(t, top, b);
      AppendKeepsLog(t, Inserted(rest, b), top);
    } else {
      if log != [] { assert Apart(t, log[|log| - 1], b); }
      AppendKeepsLog(t, log, b);
    }
  }

  lemma AppendKeepsLog(t: Timing, log: seq<Burst>, top: Burst)
    requires Log(t, log) && top.first + t.tTrans <= top.last
    requires forall x :: x in log ==> x.last + t.tRTRS <= top.first
    ensures Log(t, log + [top])
  {
  }

  /** A burst that starts here keeps clear of the log, and none does that starts earlier. */
  ghost predicate FirstFit(t: Timing, log: seq<Burst>, earliest: nat, first: nat) {
    && earliest <= first
    && (forall i :: 0 <= i < |log| ==> Apart(t, log[i], Burst(first, first + t.tTrans)))
    && forall s :: earliest <= s < first ==> Blocked(t, log, s)
  }

  class Channel {
    const t: Timing
    const accessLogDepth: nat
    var accessLog: seq<Burst>
    ghost var placed: seq<Burst>  // every burst ever put on the bus

    ghost predicate Valid()
      reads this
    {
      && t.Valid() && 0 < accessLogDepth
      && |accessLog| <= accessLogDepth
      && Log(t, accessLog)
      && AllCovered(accessLog, placed)
      && (forall i, j :: 0 <= i < j < |placed| ==> Apart(t, placed[i], placed[j]))
    }

    constructor (t: Timing, depth: nat)
      requires t.Valid() && 0 < depth
      ensures Valid() && placed == []
    {
      this.t, accessLogDepth, accessLog, placed := t, depth, [], [];
    }

    /** First fit: the earliest command cycle, not before `arrivalCycle`, whose burst keeps clear
        of every logged one. */
    method CalcInterIssueCycle(kind: AccessKind, arrivalCycle: nat) returns (issue: nat)
      requires t.Valid() && Log(t, accessLog)
      ensures arrivalCycle <= issue
      ensures var wait := if kind.Read? then t.tCAS else t.tCWD;
              FirstFit(t, accessLog, arrivalCycle + wait, issue + wait)
    {
      var tWait := t.DataLatency(kind);
      var tSlot := t.DataSlot() + t.tRTRS;
      var tStart := arrivalCycle + tWait;
      var tEnd := tStart + tSlot;
      var i := 0;
      while i < |accessLog|
        invariant 0 <= i <= |accessLog| && arrivalCycle + tWait <= tStart && tEnd == tStart + tSlot
        invariant forall k :: 0 <= k < i ==> Apart(t, accessLog[k], Burst(tStart, tStart + t.tTrans))
        invariant forall s :: arrivalCycle + tWait <= s < tStart ==> Blocked(t, accessLog, s)
      {
        var busStart := accessLog[i].first;
        var busEnd := accessLog[i].last + t.tRTRS;
        CollidesMeansNotApart(t, accessLog[i], tStart);
        if (busStart < tEnd && tEnd <= busEnd) || (busStart <= tStart && tStart < busEnd) {
          forall s | tStart <= s < busEnd ensures Blocked(t, accessLog, s) {
            assert !Apart(t, accessLog[i], Burst(s, s + t.tTrans));
          }
          tStart := busEnd;
          tEnd := tStart + tSlot;
        } else if busStart > tEnd {
          break;
        }
        i := i + 1;
      }
      issue := tStart - tWait;
    }

    /** std::sort on a log that is sorted up to its last entry. */
    method SortLog()
      requires |accessLog| > 0
      modifies `accessLog
      ensures accessLog == Inserted(old(accessLog)[..old(|accessLog|) - 1], old(accessLog)[old(|accessLog|) - 1])
    {
      var k := |accessLog| - 1;
      ghost var log, b := accessLog[..k], accessLog[k];
      while k > 0 && Before(accessLog[k], accessLog[k - 1])
        invariant 0 <= k < |accessLog| == |log| + 1
        invariant accessLog[..k] == log[..k] && accessLog[k] == b
        invariant Inserted(log, b) == Inserted(log[..k], b) + accessLog[k + 1..]
        decreases k
      {
        assert log[..k][..k - 1] == log[..k - 1];
        accessLog := accessLog[k := accessLog[k - 1]][k - 1 := accessLog[k]];
        k := k - 1;
      }
      assert accessLog == log[..k] + [b] + accessLog[k + 1..];
    }

    /** The log with one more burst; it then starts with the oldest but one, widened, if it was full. */
    function Logged(log: seq<Burst>, b: Burst): seq<Burst>
      requires 0 < accessLogDepth
    {
      var all := Inserted(log, b);
      if |all| <= accessLogDepth then all else [Burst(0, all[1].last)] + all[2..]
    }

    method UpdateDataBusCycle(first: nat, last: nat)
      requires Valid() && last == first + t.tTrans
      requires forall i :: 0 <= i < |accessLog| ==> Apart(t, accessLog[i], Burst(first, last))
      modifies this
      ensures Valid() && placed == old(placed) + [Burst(first, last)]
      ensures accessLog == Logged(old(accessLog), Burst(first, last))
    {
      var b := Burst(first, last);
      ghost var log := accessLog;
      accessLog := accessLog + [b];
      assert accessLog[..|accessLog| - 1] == log;
      SortLog();
      InsertedKeepsLog(t, log, b);
      CoveredAreApart(t, log, placed, b);
      InsertedCovers(log, placed, b);
      placed := placed + [b];
      if |accessLog| > accessLogDepth {
        DroppedCovers(t, accessLog, placed);
        accessLog := accessLog[1..];
        accessLog := accessLog[0 := Burst(0, accessLog[0].last)];
      }
    }

    /** The bus part of an access: find a slot for the command that is ready at `rdwrStart`,
        report the latency and book the burst. */
    method LatencySimulate(kind: AccessKind, arrivalCycle: nat, rdwrStart: nat) returns (latency: nat)
      requires Valid() && arrivalCycle <= rdwrStart
      modifies this
      ensures Valid() && |placed| == |old(placed)| + 1 && placed[..|old(placed)|] == old(placed)
      ensures forall i :: 0 <= i < |old(placed)| ==> Apart(t, placed[i], placed[|placed| - 1])
      ensures accessLog == Logged(old(accessLog), placed[|placed| - 1])
      ensures placed[|placed| - 1].last == placed[|placed| - 1].first + t.tTrans
      ensures placed[|placed| - 1].last == arrivalCycle + latency + (t.tTrans - t.tTransCrit)
      ensures var wait := if kind.Read? then t.tCAS else t.tCWD;
              FirstFit(t, old(accessLog), rdwrStart + wait, placed[|placed| - 1].first)
    {
      var rdwrIssueCycle := CalcInterIssueCycle(kind, rdwrStart);
      var issueDelay := rdwrIssueCycle - arrivalCycle;
      latency := issueDelay + t.DataDelay(kind);  // power-down is off: no penalty
      var latencyMem := latency + (t.tTrans - t.tTransCrit);
      var busEndCycle := arrivalCycle + latencyMem;
      var busStartCycle := busEndCycle - t.DataSlot();
      UpdateDataBusCycle(busStartCycle, busEndCycle);
    }
  }
}
