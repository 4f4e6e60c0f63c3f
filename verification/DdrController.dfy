/** The queues and the scheduling event of the DDR controller (enqueue, queue, tick and trySchedule in
    zsim/src/ddr_mem.cpp), on top of the FR-FCFS order and the command timing. */
module DdrController {
  import opened ClockDomains
  import opened Counting
  import opened DdrTiming
  import opened FrFcfs

  // ----- a request queue with the bank lists that its requests are linked into -----

  datatype Side = Side(queue: seq<Request>, banks: seq<seq<Request>>)

  ghost predicate UniqueIds(q: seq<Request>) { forall i, j :: 0 <= i < j < |q| ==> q[i].id != q[j].id }

  /** Each queued request is also in its bank's list, and those lists hold nothing else. */
  ghost predicate Linked(s: Side) {
    && (forall i :: 0 <= i < |s.queue| ==> InItsBank(s, i))
    && (forall b :: 0 <= b < |s.banks| ==> ListedRight(s, b))
    && UniqueIds(s.queue)
  }

  ghost predicate InItsBank(s: Side, i: nat)
    requires i < |s.queue|
  {
    s.queue[i].bank < |s.banks| && s.queue[i] in s.banks[s.queue[i].bank]
  }

  ghost predicate ListedRight(s: Side, b: nat)
    requires b < |s.banks|
  {
    forall j :: 0 <= j < |s.banks[b]| ==> s.banks[b][j].bank == b && s.banks[b][j] in s.queue
  }

  /** Linked, each bank list in FR-FCFS order, and all of it queued before number next. */
  ghost predicate SideOk(s: Side, limit: nat, next: nat) {
    && Linked(s)
    && (forall b :: 0 <= b < |s.banks| ==> QueueOk(s.banks[b], limit) && UniqueIds(s.banks[b]))
    && (forall i :: 0 <= i < |s.queue| ==> s.queue[i].id < next && s.queue[i].rowHitSeq <= limit)
    && (forall i :: 0 <= i < |s.queue| ==> (s.queue[i].answered <==> s.queue[i].write))
  }

  predicate IsHead(s: Side, r: Request) { r.bank < |s.banks| && s.banks[r.bank] != [] && s.banks[r.bank][0] == r }

  /** A side with requests has one that is first in its bank. */
  lemma HeadExists(s: Side) returns (i: nat)
    requires Linked(s) && s.queue != []
    ensures i < |s.queue| && IsHead(s, s.queue[i])
  {
    var r := s.queue[0];
    assert InItsBank(s, 0) && ListedRight(s, r.bank);
    var head := s.banks[r.bank][0];
    i :| 0 <= i < |s.queue| && s.queue[i] == head;
  }

  // ----- queueing -----

  function Queued(s: Side, r: Request, b: RowState, limit: nat): Side
    requires r.bank < |s.banks|
  {
    Side(s.queue + [r.(rowHitSeq := HitSeq(s.banks[r.bank], r, b, limit))],
         s.banks[r.bank := Inserted(s.banks[r.bank], r, b, limit)])
  }

  lemma QueuedOk(s: Side, r: Request, b: RowState, limit: nat, next: nat)
    requires SideOk(s, limit, next) && r.bank < |s.banks| && r.id == next && r.answered == r.write
    ensures SideOk(Queued(s, r, b, limit), limit, next + 1)
  {
    var k, q, s' := r.bank, s.banks[r.bank], Queued(s, r, b, limit);
    var e := r.(rowHitSeq := HitSeq(q, r, b, limit));
    assert ListedRight(s, k);
    OldIds(s, k, limit, next);
    InsertedOk(q, r, b, limit);
    QueuedMembers(q, r, b, limit);
    assert e in s'.banks[k];
    forall i | 0 <= i < |s'.queue| ensures InItsBank(s', i) {
      if i < |s.queue| { assert InItsBank(s, i); }
    }
    forall x | 0 <= x < |s'.banks| ensures ListedRight(s', x) {
      assert ListedRight(s, x);
      forall j | 0 <= j < |s'.banks[x]| ensures s'.banks[x][j].bank == x && s'.banks[x][j] in s'.queue {
        if x == k { assert s'.banks[k][j] == e || s'.banks[k][j] in q; }
        assert e == s'.queue[|s.queue|];
      }
    }
  }

  lemma SameInserted(q: seq<Request>, e: Request, req: Request, b: RowState, limit: nat)
    requires req == e.(rowHitSeq := HitSeq(q, e, b, limit))
    ensures Inserted(q, req, b, limit) == Inserted(q, e, b, limit)
  {
    assert req.(rowHitSeq := HitSeq(q, req, b, limit)) == req;
  }

  lemma OldIds(s: Side, k: nat, limit: nat, next: nat)
    requires SideOk(s, limit, next) && k < |s.banks|
    ensures forall j :: 0 <= j < |s.banks[k]| ==> s.banks[k][j].id < next
  {
    assert ListedRight(s, k);
    forall j | 0 <= j < |s.banks[k]| ensures s.banks[k][j].id < next {
      assert s.banks[k][j] in s.queue;
      var i :| 0 <= i < |s.queue| && s.queue[i] == s.banks[k][j];
    }
  }

  lemma QueuedMembers(q: seq<Request>, r: Request, b: RowState, limit: nat)
    requires UniqueIds(q) && Newest(q, r)
    ensures var e := r.(rowHitSeq := HitSeq(q, r, b, limit)); var q' := Inserted(q, r, b, limit);
            UniqueIds(q') && (forall x :: x in q' <==> x == e || x in q)
  {
    var p, e, q' := Place(q, r, limit), r.(rowHitSeq := HitSeq(q, r, b, limit)), Inserted(q, r, b, limit);
    forall x | x in q ensures x in q' {
      var i :| 0 <= i < |q| && q[i] == x;
      assert q'[if i < p then i else i + 1] == x;
    }
    assert q'[p] == e;
  }

  // ----- serving -----

  function RemoveAt<T>(s: seq<T>, i: nat): seq<T>
    requires i < |s|
  {
    s[..i] + s[i + 1..]
  }

  /** The request at index i, which is first in its bank, is taken out of both lists. */
  function Dequeued(s: Side, i: nat): Side
    requires i < |s.queue| && IsHead(s, s.queue[i])
  {
    Side(RemoveAt(s.queue, i), s.banks[s.queue[i].bank := s.banks[s.queue[i].bank][1..]])
  }

  lemma RemoveAtMembers(q: seq<Request>, i: nat)
    requires i < |q| && UniqueIds(q)
    ensures UniqueIds(RemoveAt(q, i)) && forall x :: x in RemoveAt(q, i) <==> x in q && x != q[i]
    ensures forall j :: 0 <= j < |q| - 1 ==> RemoveAt(q, i)[j] == q[if j < i then j else j + 1]
  {
    var q' := RemoveAt(q, i);
    forall x | x in q && x != q[i] ensures x in q' {
      var j :| 0 <= j < |q| && q[j] == x;
      assert q'[if j < i then j else j - 1] == x;
    }
  }

  lemma DequeuedOk(s: Side, i: nat, limit: nat, next: nat)
    requires SideOk(s, limit, next) && i < |s.queue| && IsHead(s, s.queue[i])
    ensures SideOk(Dequeued(s, i), limit, next)
  {
    var r, s' := s.queue[i], Dequeued(s, i);
    var k, q := r.bank, s.banks[r.bank];
    RemoveAtMembers(s.queue, i);
    ServedOk(q, limit);
    assert q == [r] + q[1..];
    forall j | 0 <= j < |s'.queue| ensures InItsBank(s', j) {
      assert InItsBank(s, if j < i then j else j + 1);
    }
    forall x | 0 <= x < |s'.banks| ensures ListedRight(s', x) {
      assert ListedRight(s, x);
      forall j | 0 <= j < |s'.banks[x]| ensures s'.banks[x][j].bank == x && s'.banks[x][j] in s'.queue {
        if x == k { assert s'.banks[k][j] == q[j + 1] && q[j + 1].id != q[0].id; }
      }
    }
  }

  // ----- the history of each bank list -----

  /** A bank list is what its history of arrivals and services makes it. */
  ghost predicate RecordedAt(q: seq<Request>, history: seq<Event>, limit: nat, next: nat) {
    q == Replayed(history, limit) && InArrivalOrder([], history) && ArrivedBefore(history, next)
  }

  ghost predicate Recorded(banks: seq<seq<Request>>, histories: seq<seq<Event>>, limit: nat, next: nat) {
    |histories| == |banks| && forall b :: 0 <= b < |banks| ==> RecordedAt(banks[b], histories[b], limit, next)
  }

  lemma RecordedArrival(banks: seq<seq<Request>>, histories: seq<seq<Event>>, limit: nat, next: nat, k: nat, r: Request,
                        b: RowState)
    requires Recorded(banks, histories, limit, next) && k < |banks| && r.id == next
    ensures Recorded(banks[k := Inserted(banks[k], r, b, limit)], histories[k := histories[k] + [Arrival(r, b)]],
                     limit, next + 1)
  {
    var banks' := banks[k := Inserted(banks[k], r, b, limit)];
    var histories' := histories[k := histories[k] + [Arrival(r, b)]];
    forall x | 0 <= x < |banks| ensures RecordedAt(banks'[x], histories'[x], limit, next + 1) {
      assert RecordedAt(banks[x], histories[x], limit, next);
      ReplayedOneMore(histories[k], Arrival(r, b), limit);
    }
  }

  lemma RecordedService(banks: seq<seq<Request>>, histories: seq<seq<Event>>, limit: nat, next: nat, k: nat)
    requires Recorded(banks, histories, limit, next) && k < |banks| && banks[k] != []
    ensures Recorded(banks[k := banks[k][1..]], histories[k := histories[k] + [Service]], limit, next)
  {
    var banks', histories' := banks[k := banks[k][1..]], histories[k := histories[k] + [Service]];
    forall x | 0 <= x < |banks| ensures RecordedAt(banks'[x], histories'[x], limit, next) {
      assert RecordedAt(banks[x], histories[x], limit, next);
      ReplayedOneMore(histories[k], Service, limit);
    }
  }

  lemma RecordedLater(banks: seq<seq<Request>>, histories: seq<seq<Event>>, limit: nat, next: nat)
    requires Recorded(banks, histories, limit, next)
    ensures Recorded(banks, histories, limit, next + 1)
  {
    forall x | 0 <= x < |banks| ensures RecordedAt(banks[x], histories[x], limit, next + 1) {
      assert RecordedAt(banks[x], histories[x], limit, next);
    }
  }

  // ----- conservation -----

  function Count(s: seq<nat>, x: nat): nat {
    if s == [] then 0 else Count(s[..|s| - 1], x) + if s[|s| - 1] == x then 1 else 0
  }

  /** How many of these requests are for event x: of all of them, or only of those not yet answered. */
  function Waiting(q: seq<Request>, all: bool, x: nat): nat {
    if q == [] then 0 else Waiting(q[..|q| - 1], all, x) + IsFor(q[|q| - 1], all, x)
  }

  function IsFor(r: Request, all: bool, x: nat): nat { if (all || !r.answered) && r.ev == x then 1 else 0 }

  lemma CountOneMore(s: seq<nat>, e: nat, x: nat)
    ensures Count(s + [e], x) == Count(s, x) + if e == x then 1 else 0
  {
    assert (s + [e])[..|s|] == s;
  }

  lemma WaitingOneMore(q: seq<Request>, r: Request, all: bool, x: nat)
    ensures Waiting(q + [r], all, x) == Waiting(q, all, x) + IsFor(r, all, x)
  {
    assert (q + [r])[..|q|] == q;
  }

  lemma {:induction false} WaitingConcat(a: seq<Request>, b: seq<Request>, all: bool, x: nat)
    ensures Waiting(a + b, all, x) == Waiting(a, all, x) + Waiting(b, all, x)
  {
    if b == [] {
      assert a + b == a;
    } else {
      var n := |b| - 1;
      WaitingConcat(a, b[..n], all, x);
      WaitingOneMore(a + b[..n], b[n], all, x);
      assert a + b == (a + b[..n]) + [b[n]];
    }
  }

  lemma WaitingOneLess(q: seq<Request>, i: nat, all: bool, x: nat)
    requires i < |q|
    ensures Waiting(q, all, x) == Waiting(RemoveAt(q, i), all, x) + IsFor(q[i], all, x)
  {
    assert q == q[..i] + [q[i]] + q[i + 1..];
    WaitingConcat(q[..i] + [q[i]], q[i + 1..], all, x);
    WaitingOneMore(q[..i], q[i], all, x);
    WaitingConcat(q[..i], q[i + 1..], all, x);
  }

  /** Event x has been answered, or waits in the overflow queue or in one of the request queues, exactly
      as often as it arrived. */
  ghost predicate ConservedFor(arrived: seq<nat>, past: seq<nat>, overflow: seq<Request>, rd: seq<Request>,
                               wr: seq<Request>, all: bool, x: nat) {
    Count(arrived, x) == Count(past, x) + Waiting(overflow, all, x) + Waiting(rd, all, x) + Waiting(wr, all, x)
  }

  /** No event is lost and none is dealt with twice. */
  ghost predicate Conserved(arrived: seq<nat>, past: seq<nat>, overflow: seq<Request>, rd: seq<Request>,
                            wr: seq<Request>, all: bool) {
    forall x: nat :: ConservedFor(arrived, past, overflow, rd, wr, all, x)
  }

  ghost predicate OverflowOk(overflow: seq<Request>, banks: nat) {
    forall i :: 0 <= i < |overflow| ==> overflow[i].bank < banks && !overflow[i].answered
  }

  ghost predicate AllStored(limit: nat, queued: nat, rd: Side, wr: Side, overflow: seq<Request>, arrived: seq<nat>,
                            done: seq<nat>, served: seq<nat>) {
    && SideOk(rd, limit, queued) && SideOk(wr, limit, queued) && OverflowOk(overflow, |rd.banks|)
    && Conserved(arrived, done, overflow, rd.queue, wr.queue, false)
    && Conserved(arrived, served, overflow, rd.queue, wr.queue, true)
  }

  /** A request that is served moves from its queue to the past. */
  lemma ServedConserved(arrived: seq<nat>, past: seq<nat>, overflow: seq<Request>, rd: seq<Request>, wr: seq<Request>,
                        all: bool, i: nat, isWriteQueue: bool)
    requires Conserved(arrived, past, overflow, rd, wr, all) && i < |if isWriteQueue then wr else rd|
    ensures var r := (if isWriteQueue then wr else rd)[i];
            Conserved(arrived, if all || !r.answered then past + [r.ev] else past, overflow,
                      if isWriteQueue then rd else RemoveAt(rd, i), if isWriteQueue then RemoveAt(wr, i) else wr, all)
  {
    var q := if isWriteQueue then wr else rd;
    var rd', wr' := if isWriteQueue then rd else RemoveAt(rd, i), if isWriteQueue then RemoveAt(wr, i) else wr;
    var past' := if all || !q[i].answered then past + [q[i].ev] else past;
    forall x: nat ensures ConservedFor(arrived, past', overflow, rd', wr', all, x) {
      assert ConservedFor(arrived, past, overflow, rd, wr, all, x);
      WaitingOneLess(q, i, all, x);
      CountOneMore(past, q[i].ev, x);
    }
  }

  lemma ServedStored(limit: nat, queued: nat, rd: Side, wr: Side, overflow: seq<Request>, arrived: seq<nat>,
                     done: seq<nat>, served: seq<nat>, i: nat, isWriteQueue: bool)
    requires AllStored(limit, queued, rd, wr, overflow, arrived, done, served)
    requires var s := if isWriteQueue then wr else rd; i < |s.queue| && IsHead(s, s.queue[i])
    ensures var s := if isWriteQueue then wr else rd; var r := s.queue[i];
            && r.answered == r.write
            && AllStored(limit, queued, if isWriteQueue then rd else Dequeued(rd, i),
                         if isWriteQueue then Dequeued(wr, i) else wr, overflow,
                         arrived, if r.answered then done else done + [r.ev], served + [r.ev])
  {
    var s := if isWriteQueue then wr else rd;
    DequeuedOk(s, i, limit, queued);
    ServedConserved(arrived, done, overflow, rd.queue, wr.queue, false, i, isWriteQueue);
    ServedConserved(arrived, served, overflow, rd.queue, wr.queue, true, i, isWriteQueue);
  }

  /** A request that joins a queue comes from outside, or from the front of the overflow queue; as far as
      answers go, a write is in the past at once. */
  lemma JoinedConserved(arrived: seq<nat>, past: seq<nat>, overflow: seq<Request>, rd: seq<Request>, wr: seq<Request>,
                        all: bool, e: Request, useWrQueue: bool, fromOverflow: bool)
    requires Conserved(arrived, past, overflow, rd, wr, all)
    requires fromOverflow ==> overflow != [] && overflow[0].ev == e.ev && !overflow[0].answered
    ensures Conserved(if fromOverflow then arrived else arrived + [e.ev],
                      if !all && e.answered then past + [e.ev] else past,
                      if fromOverflow then overflow[1..] else overflow,
                      if useWrQueue then rd else rd + [e], if useWrQueue then wr + [e] else wr, all)
  {
    var arrived' := if fromOverflow then arrived else arrived + [e.ev];
    var past' := if !all && e.answered then past + [e.ev] else past;
    var overflow' := if fromOverflow then overflow[1..] else overflow;
    var rd', wr' := if useWrQueue then rd else rd + [e], if useWrQueue then wr + [e] else wr;
    forall x: nat ensures ConservedFor(arrived', past', overflow', rd', wr', all, x) {
      assert ConservedFor(arrived, past, overflow, rd, wr, all, x);
      WaitingOneMore(if useWrQueue then wr else rd, e, all, x);
      CountOneMore(past, e.ev, x);
      CountOneMore(arrived, e.ev, x);
      if fromOverflow {
        WaitingOneLess(overflow, 0, all, x);
        assert RemoveAt(overflow, 0) == overflow[1..];
      }
    }
  }

  /** A request that has to wait. */
  lemma OverflowConserved(arrived: seq<nat>, past: seq<nat>, overflow: seq<Request>, rd: seq<Request>, wr: seq<Request>,
                          all: bool, e: Request)
    requires Conserved(arrived, past, overflow, rd, wr, all) && !e.answered
    ensures Conserved(arrived + [e.ev], past, overflow + [e], rd, wr, all)
  {
    forall x: nat ensures ConservedFor(arrived + [e.ev], past, overflow + [e], rd, wr, all, x) {
      assert ConservedFor(arrived, past, overflow, rd, wr, all, x);
      WaitingOneMore(overflow, e, all, x);
      CountOneMore(arrived, e.ev, x);
    }
  }

  predicate NotIn(q: seq<Request>, x: nat) { forall i :: 0 <= i < |q| ==> q[i].ev != x }

  predicate OnlyAt(q: seq<Request>, i: nat, x: nat) {
    i < |q| && q[i].ev == x && forall j :: 0 <= j < |q| && j != i ==> q[j].ev != x
  }

  predicate OnceIn(q: seq<Request>, x: nat) { exists i :: 0 <= i < |q| && OnlyAt(q, i, x) }

  /** Event x waits at one place, in just one of these. */
  predicate InOneOf(overflow: seq<Request>, rd: seq<Request>, wr: seq<Request>, x: nat) {
    || (OnceIn(overflow, x) && NotIn(rd, x) && NotIn(wr, x))
    || (NotIn(overflow, x) && OnceIn(rd, x) && NotIn(wr, x))
    || (NotIn(overflow, x) && NotIn(rd, x) && OnceIn(wr, x))
  }

  lemma {:induction false} WaitingMeans(q: seq<Request>, x: nat)
    ensures Waiting(q, true, x) == 0 <==> NotIn(q, x)
    ensures Waiting(q, true, x) == 1 <==> OnceIn(q, x)
  {
    if q != [] {
      var n := |q| - 1;
      WaitingMeans(q[..n], x);
      if q[n].ev == x {
        if NotIn(q[..n], x) { assert OnlyAt(q, n, x); }
        if OnceIn(q, x) {
          var i :| 0 <= i < |q| && OnlyAt(q, i, x);
          assert NotIn(q[..n], x);
        }
      } else {
        if OnceIn(q[..n], x) {
          var i :| 0 <= i < n && OnlyAt(q[..n], i, x);
          assert OnlyAt(q, i, x);
        }
        if OnceIn(q, x) {
          var i :| 0 <= i < |q| && OnlyAt(q, i, x);
          assert OnlyAt(q[..n], i, x);
        }
      }
    }
  }

  // ----- the scheduling event -----

  datatype When = Never | At(cycle: nat)

  predicate After(a: When, cycle: nat) { a.Never? || a.cycle > cycle }

  function Earlier(a: When, cycle: nat): (e: When)
    ensures e.At? && e.cycle <= cycle && (a.At? ==> e.cycle <= a.cycle) && (e == At(cycle) || e == a)
  {
    if After(a, cycle) then At(cycle) else a
  }

  datatype EventState = IDLE | QUEUED | RUNNING | ANNULLED
  datatype SchedEvent = SchedEvent(state: EventState, cycle: nat)

  const NO_EVENT: int := -1

  /** Only the next event may be queued; the idle ones are exactly those on the free list, once each. */
  ghost predicate EventsOk(events: seq<SchedEvent>, next: int, free: seq<nat>) {
    && NO_EVENT <= next < |events|
    && (forall e :: 0 <= e < |events| ==> (events[e].state == QUEUED <==> e == next))
    && (forall e :: 0 <= e < |events| ==> events[e].state != RUNNING)
    && (forall e :: 0 <= e < |events| && events[e].state == IDLE ==> e in free)
    && (forall i :: 0 <= i < |free| ==> free[i] < |events| && events[free[i]].state == IDLE)
    && (forall i, j :: 0 <= i < j < |free| ==> free[i] != free[j])
  }

  ghost predicate ArrivedBy(q: seq<Request>, c: nat) { forall i :: 0 <= i < |q| ==> q[i].arrivalCycle <= c }

  ghost predicate WithinSlack(t: Timing, w: When, c: nat) { w.At? ==> w.cycle <= c + t.Slack() }

  /** The same request, whatever the controller has noted on it. */
  predicate SameRequest(a: Request, b: Request) {
    a.ev == b.ev && a.bank == b.bank && a.row == b.row && a.write == b.write
  }

  /** Request r has come last into a queue. */
  predicate Grown(q: seq<Request>, q': seq<Request>, r: Request) {
    |q'| == |q| + 1 && q'[..|q|] == q && SameRequest(q'[|q|], r)
  }

  /** The requests in the controller, and how many have been served. */
  datatype Load = Load(rd: Side, wr: Side, overflow: seq<Request>, served: nat)

  /** What is left to do: a request in the overflow queue has to be queued and then served. */
  function Left(l: Load): nat { 2 * |l.overflow| + |l.rd.queue| + |l.wr.queue| }

  /** One request is gone from its queue, or nothing is, and the next try comes later. */
  ghost predicate Attempted(before: Load, serves: bool, after: Load, cycle: nat, next: When) {
    && after.overflow == before.overflow
    && if serves then after.served == before.served + 1 &&
                      |after.rd.queue| + |after.wr.queue| == |before.rd.queue| + |before.wr.queue| - 1 &&
                      |after.rd.queue| <= |before.rd.queue| && |after.wr.queue| <= |before.wr.queue|
       else after == before && (next.At? ==> next.cycle > cycle)
  }

  class DDRMemory {
    const clocks: Clocks
    const queueDepth: nat
    const rowHitLimit: nat
    const deferredWrites: bool
    const closedPage: bool
    const channel: Channel
    const horizon: nat              // memory cycles up to here translate without overflow
    var rd: Side                    // rdQueue, and each bank's rdReqs
    var wr: Side                    // wrQueue, and each bank's wrReqs
    var overflowQueue: seq<Request>
    var nextSchedCycle: When
    var nextSchedEvent: int
    var events: seq<SchedEvent>
    var eventFreelist: seq<nat>     // last in, first out
    var queued: nat                 // how many requests have been queued
    ghost var arrived: seq<nat>     // events in the order of enqueue
    ghost var done: seq<nat>        // events answered, in order
    ghost var served: seq<nat>      // events of the requests issued to the devices, in order
    ghost var rdHistory: seq<seq<Event>>  // what came into and left each bank's rdReqs
    ghost var wrHistory: seq<seq<Event>>

    /** Nothing recorded in the channel lies after memory cycle c. */
    ghost predicate ChannelBy(c: nat)
      reads channel
    {
      AllBy(channel.banks, channel.windows, channel.minRespCycle, c)
    }

    /** Nor does the arrival of any queued request. */
    ghost predicate By(c: nat)
      reads `rd, `wr, channel
    {
      ChannelBy(c) && ArrivedBy(rd.queue, c) && ArrivedBy(wr.queue, c)
    }

    /** Nor is the armed cycle more than Slack after it. */
    ghost predicate ReachedBy(c: nat)
      reads `rd, `wr, `nextSchedCycle, channel
    {
      By(c) && WithinSlack(channel.t, nextSchedCycle, c)
    }

    ghost function Now(): Load
      reads `rd, `wr, `overflowQueue, `served
    {
      Load(rd, wr, overflowQueue, |served|)
    }

    /** What is left to do. */
    ghost function Pending(): nat
      reads `rd, `wr, `overflowQueue, `served
    {
      Left(Now())
    }

    /** The requests. */
    ghost predicate Stored()
      reads `rd, `wr, `overflowQueue, `queued, `arrived, `done, `served, `rdHistory, `wrHistory
    {
      queueDepth > 0 && AllStored(rowHitLimit, queued, rd, wr, overflowQueue, arrived, done, served) && Histories()
    }

    ghost predicate Histories()
      reads `rd, `wr, `queued, `rdHistory, `wrHistory
    {
      Recorded(rd.banks, rdHistory, rowHitLimit, queued) && Recorded(wr.banks, wrHistory, rowHitLimit, queued)
    }

    predicate Sized()
      reads `rd, `wr, channel
    {
      |rd.banks| == |wr.banks| == |channel.banks|
    }

    ghost predicate Linkage()
      reads `rd, `wr, channel
    {
      channel.Valid() && Sized() && clocks.Valid()
      && (2 * horizon + 2) * clocks.sysKHz < WORD64
    }

    /** Exactly while requests are queued, one event is armed, at a system cycle that translates back
        to the memory cycle it is meant for. */
    ghost predicate Armed()
      reads this
    {
      && Ordered()
      && (nextSchedCycle == Never <==> rd.queue == [] && wr.queue == [])
      && (overflowQueue != [] ==> nextSchedCycle != Never)
    }

    /** An event at this system cycle runs in memory cycle m. */
    ghost predicate InStep(m: nat, sysCycle: nat)
    {
      m > 0 && (m <= horizon && clocks.Valid() ==>
                clocks.SysToMem(sysCycle) == m && sysCycle > 0 && sysCycle * clocks.memKHz < WORD64)
    }

    ghost predicate Valid()
      reads this, channel
    {
      Stored() && Linkage() && Armed()
    }

    constructor (clocks: Clocks, queueDepth: nat, rowHitLimit: nat, deferredWrites: bool, closedPage: bool,
                 channel: Channel, horizon: nat)
      requires clocks.Valid() && queueDepth > 0 && channel.Valid() && (2 * horizon + 2) * clocks.sysKHz < WORD64
      ensures Valid() && arrived == [] && rd.queue == wr.queue == overflowQueue == [] && nextSchedCycle == Never
      ensures this.clocks == clocks && this.queueDepth == queueDepth && this.rowHitLimit == rowHitLimit
      ensures this.deferredWrites == deferredWrites && this.closedPage == closedPage
      ensures this.channel == channel && this.horizon == horizon
    {
      this.clocks, this.queueDepth, this.rowHitLimit := clocks, queueDepth, rowHitLimit;
      this.deferredWrites, this.closedPage, this.channel, this.horizon := deferredWrites, closedPage, channel, horizon;
      rd, wr := Side([], seq(|channel.banks|, _ => [])), Side([], seq(|channel.banks|, _ => []));
      overflowQueue, nextSchedCycle, nextSchedEvent, events, eventFreelist, queued := [], Never, NO_EVENT, [], [], 0;
      arrived, done, served := [], [], [];
      rdHistory, wrHistory := seq(|channel.banks|, _ => []), seq(|channel.banks|, _ => []);
    }

    function StateOf(bank: nat): RowState
      reads channel
      requires bank < |channel.banks|
    {
      var b := channel.banks[bank];
      RowState(b.open, b.openRow, b.curRowHits)
    }

    /** queue: answer a write at once, and put the request where it belongs in FR-FCFS order. */
    method Queue(r: Request, memCycle: nat) returns (req: Request, first: bool)
      requires Sized() && r.bank < |rd.banks| && !r.answered && |rd.queue| < queueDepth && |wr.queue| < queueDepth
      requires SideOk(rd, rowHitLimit, queued) && SideOk(wr, rowHitLimit, queued) && Histories()
      modifies `rd, `wr, `queued, `done, `rdHistory, `wrHistory
      ensures Sized() && SideOk(rd, rowHitLimit, queued) && SideOk(wr, rowHitLimit, queued) && Histories()
      ensures req.ev == r.ev && req.bank == r.bank && req.row == r.row && req.write == r.write &&
              req.arrivalCycle == memCycle
      ensures if deferredWrites && r.write
              then rd == old(rd) && wr.queue == old(wr).queue + [req] && (first <==> IsHead(wr, req))
              else wr == old(wr) && rd.queue == old(rd).queue + [req] && (first <==> IsHead(rd, req))
      ensures var q := if deferredWrites && r.write then wr else rd;
              var q0 := if deferredWrites && r.write then old(wr) else old(rd);
              var b := channel.banks[r.bank];
              var row := RowState(b.open, b.openRow, b.curRowHits);
              q.banks == q0.banks[r.bank := Inserted(q0.banks[r.bank], req, row, rowHitLimit)]
      ensures req.answered == r.write && done == if r.write then old(done) + [r.ev] else old(done)
    {
      if r.write { done := done + [r.ev]; }
      var e := r.(answered := r.write, arrivalCycle := memCycle, id := queued);
      if deferredWrites && r.write { req, first := QueueWrite(e); } else { req, first := QueueRead(e); }
    }

    method QueueRead(e: Request) returns (req: Request, first: bool)
      requires Sized() && e.bank < |rd.banks| && e.answered == e.write && e.id == queued
      requires SideOk(rd, rowHitLimit, queued) && SideOk(wr, rowHitLimit, queued) && Histories()
      modifies `rd, `queued, `rdHistory
      ensures Sized() && SideOk(rd, rowHitLimit, queued) && SideOk(wr, rowHitLimit, queued) && Histories()
      ensures req == e.(rowHitSeq := req.rowHitSeq) && rd.queue == old(rd).queue + [req] && (first <==> IsHead(rd, req))
      ensures rd.banks == old(rd).banks[e.bank := Inserted(old(rd).banks[e.bank], req, StateOf(e.bank), rowHitLimit)]
    {
      ghost var banks := rd.banks;
      OneLater(wr, rowHitLimit, queued);
      RecordedLater(wr.banks, wrHistory, rowHitLimit, queued);
      rd, req, first := QueueIn(rd, e, StateOf(e.bank));
      RecordedArrival(banks, rdHistory, rowHitLimit, queued, e.bank, req, StateOf(e.bank));
      rdHistory := rdHistory[e.bank := rdHistory[e.bank] + [Arrival(req, StateOf(e.bank))]];
      queued := queued + 1;
    }

    method QueueWrite(e: Request) returns (req: Request, first: bool)
      requires Sized() && e.bank < |wr.banks| && e.answered == e.write && e.id == queued
      requires SideOk(rd, rowHitLimit, queued) && SideOk(wr, rowHitLimit, queued) && Histories()
      modifies `wr, `queued, `wrHistory
      ensures Sized() && SideOk(rd, rowHitLimit, queued) && SideOk(wr, rowHitLimit, queued) && Histories()
      ensures req == e.(rowHitSeq := req.rowHitSeq) && wr.queue == old(wr).queue + [req] && (first <==> IsHead(wr, req))
      ensures wr.banks == old(wr).banks[e.bank := Inserted(old(wr).banks[e.bank], req, StateOf(e.bank), rowHitLimit)]
    {
      ghost var banks := wr.banks;
      OneLater(rd, rowHitLimit, queued);
      RecordedLater(rd.banks, rdHistory, rowHitLimit, queued);
      wr, req, first := QueueIn(wr, e, StateOf(e.bank));
      RecordedArrival(banks, wrHistory, rowHitLimit, queued, e.bank, req, StateOf(e.bank));
      wrHistory := wrHistory[e.bank := wrHistory[e.bank] + [Arrival(req, StateOf(e.bank))]];
      queued := queued + 1;
    }

    method QueueIn(s: Side, e: Request, b: RowState) returns (s': Side, req: Request, first: bool)
      requires SideOk(s, rowHitLimit, e.id) && e.bank < |s.banks| && e.answered == e.write
      ensures SideOk(s', rowHitLimit, e.id + 1) && |s'.banks| == |s.banks|
      ensures req == e.(rowHitSeq := req.rowHitSeq) && s'.queue == s.queue + [req] && (first <==> IsHead(s', req))
      ensures s'.banks == s.banks[e.bank := Inserted(s.banks[e.bank], req, b, rowHitLimit)]
    {
      QueuedOk(s, e, b, rowHitLimit, e.id);
      s' := Queued(s, e, b, rowHitLimit);
      req := s'.queue[|s'.queue| - 1];
      first := s'.banks[e.bank][0] == req;
      SameInserted(s.banks[e.bank], e, req, b, rowHitLimit);
    }

    /** The scan of trySchedule: the first request, in order of arrival, that is first in its bank and
        ready by now (i); else the cycle at which the earliest of them is. */
    method Scan(s: Side, curCycle: nat) returns (i: int, minSchedCycle: When)
      requires channel.Ready() && Linked(s) && |s.banks| == |channel.banks|
      ensures i >= 0 ==> FirstReady(s, i, curCycle)
      ensures i < 0 ==> forall j :: 0 <= j < |s.queue| && IsHead(s, s.queue[j]) ==>
                          channel.FindMinCmdCycle(s.queue[j]) > curCycle &&
                            !After(minSchedCycle, channel.FindMinCmdCycle(s.queue[j]))
      ensures i < 0 && s.queue != [] ==> minSchedCycle.At? && minSchedCycle.cycle > curCycle
      ensures i < 0 && s.queue != [] ==>
                exists j :: 0 <= j < |s.queue| && IsHead(s, s.queue[j]) &&
                  minSchedCycle == At(channel.FindMinCmdCycle(s.queue[j]))
    {
      minSchedCycle := Never;
      for k := 0 to |s.queue|
        invariant forall j :: 0 <= j < k && IsHead(s, s.queue[j]) ==>
                    channel.FindMinCmdCycle(s.queue[j]) > curCycle &&
                      !After(minSchedCycle, channel.FindMinCmdCycle(s.queue[j]))
        invariant After(minSchedCycle, curCycle)
        invariant minSchedCycle == Never ||
                  exists j :: 0 <= j < k && IsHead(s, s.queue[j]) &&
                    minSchedCycle == At(channel.FindMinCmdCycle(s.queue[j]))
      {
        var r := s.queue[k];
        assert InItsBank(s, k);
        if s.banks[r.bank][0] == r {
          var minCmdCycle := channel.FindMinCmdCycle(r);
          minSchedCycle := Earlier(minSchedCycle, minCmdCycle);
          if minCmdCycle <= curCycle { return k, minSchedCycle; }
        }
      }
      i := -1;
      if s.queue != [] { var h := HeadExists(s); }
    }

    /** The request at index i is the first, in order of arrival, that is first in its bank and ready. */
    ghost predicate FirstReady(s: Side, i: nat, curCycle: nat)
      reads channel
      requires channel.Ready() && |s.banks| == |channel.banks|
    {
      && i < |s.queue| && IsHead(s, s.queue[i]) && channel.FindMinCmdCycle(s.queue[i]) <= curCycle
      && forall j :: 0 <= j < i && IsHead(s, s.queue[j]) ==> channel.FindMinCmdCycle(s.queue[j]) > curCycle
    }

    /** The first of the requests that are first in their banks is ready at m. */
    ghost predicate EarliestHead(s: Side, m: nat)
      reads channel
      requires channel.Ready() && |s.banks| == |channel.banks|
    {
      && (exists j :: 0 <= j < |s.queue| && IsHead(s, s.queue[j]) && channel.FindMinCmdCycle(s.queue[j]) == m)
      && (forall j :: 0 <= j < |s.queue| && IsHead(s, s.queue[j]) ==> channel.FindMinCmdCycle(s.queue[j]) >= m)
    }

    /** The earliest of the requests that are first in their banks goes within Slack of what is recorded. */
    lemma ScannedBy(s: Side, m: When, c: nat)
      requires channel.Ready() && |s.banks| == |channel.banks|
      requires exists j :: 0 <= j < |s.queue| && IsHead(s, s.queue[j]) && m == At(channel.FindMinCmdCycle(s.queue[j]))
      ensures ChannelBy(c) && ArrivedBy(s.queue, c) ==> WithinSlack(channel.t, m, c)
    {
      var j :| 0 <= j < |s.queue| && IsHead(s, s.queue[j]) && m == At(channel.FindMinCmdCycle(s.queue[j]));
      var r := s.queue[j];
      if ChannelBy(c) && ArrivedBy(s.queue, c) {
        assert BankBy(channel.banks[r.bank], c) && WindowBy(channel.windows[channel.rankOf[r.bank]], c);
        MinCmdBy(channel.t, channel.banks[r.bank], channel.WindowOf(r), r, c);
      }
    }

    /** The write queue has its turn when it is filling up, and keeps it until it is down to a quarter. */
    predicate PrioWrites()
      reads `wr, channel
    {
      |wr.queue| > 3 * queueDepth / 4 || (channel.lastCmdWasWrite && |wr.queue| > queueDepth / 4)
    }

    predicate UseWrites(): (b: bool)
      reads `rd, `wr, channel
      ensures Turn(rd, wr, channel.lastCmdWasWrite, !b)
    {
      rd.queue == [] || PrioWrites()
    }

    /** The last command is the column command for the first request of this bank list; a closed-page bank
        stays open only for a hit that comes next. */
    ghost predicate JustIssued(list: seq<Request>, curCycle: nat)
      reads channel
      requires list != []
    {
      && channel.log != [] && list[0].bank < |channel.banks| && channel.lastCmdWasWrite == list[0].write
      && var c := channel.log[|channel.log| - 1];
         && c.Col? && c.bank == list[0].bank && c.row == list[0].row && c.write == list[0].write && c.cycle >= curCycle
         && channel.banks[c.bank].open == (!closedPage || (|list| > 1 && list[1].rowHitSeq != 0))
         && channel.minRespCycle == c.cycle + channel.t.tCL + channel.t.tBL
    }

    /** Which queue may be served, a read or a write: beyond three quarters writes go first, and once begun
        they go on exactly until at most a quarter of them is left; otherwise reads go first. */
    ghost predicate Turn(rd0: Side, wr0: Side, afterWrite: bool, isRead: bool) {
      isRead <==>
        rd0.queue != [] && 4 * |wr0.queue| <= 3 * queueDepth && (afterWrite ==> 4 * |wr0.queue| <= queueDepth)
    }

    /** trySchedule: issue the request at index i of the queue whose turn it is, if one is ready; returns
        when to try again.  If nothing was recorded beyond cycle c, nothing now is beyond Stride of it. */
    method TrySchedule(curCycle: nat, sysCycle: nat, ghost c: nat)
      returns (minSchedCycle: When, ghost i: int, ghost c': nat)
      requires Linkage() && Stored() && channel.Ready()
      modifies `rd, `wr, `done, `served, `rdHistory, `wrHistory, channel
      ensures Linkage() && Stored()
      ensures minSchedCycle == Never <==> rd.queue == [] && wr.queue == []
      ensures i < 0 ==> rd == old(rd) && wr == old(wr) && served == old(served) && unchanged(channel)
      ensures i < 0 && minSchedCycle.At? ==> minSchedCycle.cycle > curCycle
      ensures i < 0 && minSchedCycle.At? && !BusBusy(curCycle) ==>
                EarliestHead(if UseWrites() then wr else rd, minSchedCycle.cycle)
      ensures minSchedCycle.At? && (i >= 0 || BusBusy(curCycle)) ==>
                minSchedCycle.cycle + channel.t.tCL == channel.minRespCycle
      ensures i >= 0 ==> !old(BusBusy(curCycle))
      ensures i >= 0 ==> old(FirstReady(if UseWrites() then wr else rd, i, curCycle))
      ensures i >= 0 ==>
                var s := if old(UseWrites()) then old(wr) else old(rd);
                old(channel.log) <= channel.log && JustIssued(s.banks[s.queue[i].bank], curCycle)
      ensures i >= 0 ==> |served| == |old(served)| + 1
      ensures i >= 0 ==> |rd.queue| + |wr.queue| == |old(rd).queue| + |old(wr).queue| - 1
      ensures i >= 0 ==> minSchedCycle.At? ==> minSchedCycle.cycle >= curCycle
      ensures i >= 0 ==>
                if old(UseWrites()) then rd == old(rd) && wr == Dequeued(old(wr), i)
                else wr == old(wr) && rd == Dequeued(old(rd), i)
      ensures i >= 0 ==> Turn(old(rd), old(wr), old(channel.lastCmdWasWrite), rd != old(rd))
      ensures c' == if i < 0 then c else c + channel.t.Stride()
      ensures old(By(c)) && curCycle <= c + channel.t.Slack() ==> By(c') && WithinSlack(channel.t, minSchedCycle, c')
    {
      i, c' := -1, c;
      if rd.queue == [] && wr.queue == [] { return Never, i, c'; }
      if curCycle + channel.t.tCL < channel.minRespCycle { return At(channel.minRespCycle - channel.t.tCL), i, c'; }
      minSchedCycle, i, c' := TryQueue(UseWrites(), curCycle, sysCycle, c);
    }

    /** The same for the queue whose turn it is, with the bus free. */
    method TryQueue(isWriteQueue: bool, curCycle: nat, sysCycle: nat, ghost c: nat)
      returns (minSchedCycle: When, ghost i: int, ghost c': nat)
      requires Linkage() && Stored() && channel.Ready() && !BusBusy(curCycle)
      requires (if isWriteQueue then wr else rd).queue != []
      modifies `rd, `wr, `done, `served, `rdHistory, `wrHistory, channel
      ensures Linkage() && Stored()
      ensures minSchedCycle == Never <==> rd.queue == [] && wr.queue == []
      ensures i < 0 ==> rd == old(rd) && wr == old(wr) && served == old(served) && unchanged(channel)
      ensures i < 0 ==> minSchedCycle.At? && minSchedCycle.cycle > curCycle
      ensures i < 0 ==> EarliestHead(if isWriteQueue then wr else rd, minSchedCycle.cycle)
      ensures i >= 0 && minSchedCycle.At? ==> minSchedCycle.cycle + channel.t.tCL == channel.minRespCycle
      ensures i >= 0 ==> old(FirstReady(if isWriteQueue then wr else rd, i, curCycle))
      ensures i >= 0 ==>
                var s := if isWriteQueue then old(wr) else old(rd);
                old(channel.log) <= channel.log && JustIssued(s.banks[s.queue[i].bank], curCycle)
      ensures i >= 0 ==> |served| == |old(served)| + 1
      ensures i >= 0 ==> |rd.queue| + |wr.queue| == |old(rd).queue| + |old(wr).queue| - 1
      ensures i >= 0 ==> minSchedCycle.At? ==> minSchedCycle.cycle >= curCycle
      ensures i >= 0 ==>
                if isWriteQueue then rd == old(rd) && wr == Dequeued(old(wr), i)
                else wr == old(wr) && rd == Dequeued(old(rd), i)
      ensures c' == if i < 0 then c else c + channel.t.Stride()
      ensures old(By(c)) && curCycle <= c + channel.t.Slack() ==> By(c') && WithinSlack(channel.t, minSchedCycle, c')
    {
      var side := if isWriteQueue then wr else rd;
      c' := c;
      var ir;
      ir, minSchedCycle := Scan(side, curCycle);
      i := ir;
      if ir < 0 {
        ScannedBy(side, minSchedCycle, c);
      } else {
        c' := c + channel.t.Stride();
        Serve(isWriteQueue, ir, curCycle, sysCycle, c);
        minSchedCycle := NextTry();
      }
    }

    /** Too far ahead of the last burst to issue anything. */
    predicate BusBusy(curCycle: nat)
      reads channel
    {
      channel.minRespCycle > curCycle + channel.t.tCL
    }

    function NextTry(): When
      reads `rd, `wr, channel
      requires Linkage()
    {
      if rd.queue == [] && wr.queue == [] then Never else At(channel.minRespCycle - channel.t.tCL)
    }

    /** Issue the request at index i of the read or the write queue, and take it out of the queue and its
        bank list. */
    method Serve(isWriteQueue: bool, i: nat, curCycle: nat, sysCycle: nat, ghost c: nat)
      requires Linkage() && Stored() && channel.Ready() && channel.minRespCycle <= curCycle + channel.t.tCL
      requires var s := if isWriteQueue then wr else rd;
               i < |s.queue| && IsHead(s, s.queue[i]) && channel.FindMinCmdCycle(s.queue[i]) <= curCycle
      modifies `rd, `wr, `done, `served, `rdHistory, `wrHistory, channel
      ensures Linkage() && Stored() && channel.minRespCycle >= curCycle + channel.t.tCL + channel.t.tBL
      ensures if isWriteQueue then rd == old(rd) && wr == Dequeued(old(wr), i)
              else wr == old(wr) && rd == Dequeued(old(rd), i)
      ensures |served| == |old(served)| + 1 && |rd.queue| + |wr.queue| == |old(rd).queue| + |old(wr).queue| - 1
      ensures var s := if isWriteQueue then old(wr) else old(rd);
              old(channel.log) <= channel.log && JustIssued(s.banks[s.queue[i].bank], curCycle)
      ensures old(By(c)) && curCycle <= c + channel.t.Slack() ==> By(c + channel.t.Stride())
    {
      var r := (if isWriteQueue then wr else rd).queue[i];
      IssueWithin((if isWriteQueue then wr else rd).banks[r.bank], curCycle, c);
      if isWriteQueue { ServeWrite(i); } else { ServeRead(i, curCycle, sysCycle); }
    }

    /** The bookkeeping for a request of the read queue: answer it, unless it is a write, which was
        answered when it was queued.  The response is not in the past. */
    method ServeRead(i: nat, curCycle: nat, sysCycle: nat)
      requires Stored() && i < |rd.queue| && IsHead(rd, rd.queue[i]) && clocks.Valid() &&
               curCycle <= channel.minRespCycle
      modifies `rd, `done, `served, `rdHistory
      ensures Stored() && rd == Dequeued(old(rd), i) && served == old(served) + [old(rd).queue[i].ev]
      ensures done == if old(rd).queue[i].write then old(done) else old(done) + [old(rd).queue[i].ev]
    {
      var r := rd.queue[i];
      ServedStored(rowHitLimit, queued, rd, wr, overflowQueue, arrived, done, served, i, false);
      if !r.answered {
        assert !r.write;  // reads only
        AnswersInTime(clocks, sysCycle, curCycle, channel.minRespCycle);
        assert AnswerInTime(clocks, sysCycle, curCycle, channel.minRespCycle);
        done := done + [r.ev];
      }
      served := served + [r.ev];
      RecordedService(rd.banks, rdHistory, rowHitLimit, queued, r.bank);
      rdHistory := rdHistory[r.bank := rdHistory[r.bank] + [Service]];
      rd := Dequeued(rd, i);
    }

    method ServeWrite(i: nat)
      requires Stored() && i < |wr.queue| && IsHead(wr, wr.queue[i])
      modifies `wr, `done, `served, `wrHistory
      ensures Stored() && wr == Dequeued(old(wr), i) && served == old(served) + [old(wr).queue[i].ev]
      ensures done == if old(wr).queue[i].write then old(done) else old(done) + [old(wr).queue[i].ev]
    {
      var r := wr.queue[i];
      ServedStored(rowHitLimit, queued, rd, wr, overflowQueue, arrived, done, served, i, true);
      if !r.answered {
        assert !r.write;
        done := done + [r.ev];
      }
      served := served + [r.ev];
      RecordedService(wr.banks, wrHistory, rowHitLimit, queued, r.bank);
      wrHistory := wrHistory[r.bank := wrHistory[r.bank] + [Service]];
      wr := Dequeued(wr, i);
    }

    /** Issue the first request of a bank list. */
    method IssueFirst(list: seq<Request>, curCycle: nat) returns (ghost hit: bool, ghost act: nat, ghost cmd: nat)
      requires channel.Valid() && channel.Ready() && list != [] && list[0].bank < |channel.banks|
      requires channel.minRespCycle <= curCycle + channel.t.tCL && channel.FindMinCmdCycle(list[0]) <= curCycle
      modifies channel
      ensures channel.Valid() && channel.minRespCycle == cmd + channel.t.tCL + channel.t.tBL && cmd >= curCycle
      ensures old(channel.log) <= channel.log && JustIssued(list, curCycle)
      ensures Stepped(channel.t, channel.rankOf, old(channel.banks), old(channel.windows), old(channel.minRespCycle),
                      channel.banks, channel.windows, channel.minRespCycle, list[0].bank, hit, act, cmd, curCycle)
    {
      var rowHit;
      rowHit, act, cmd := channel.Issue(list[0], curCycle, closedPage, |list| > 1 && list[1].rowHitSeq != 0);
      hit := rowHit;
    }

    /** The same, seen from a bound on what is recorded. */
    method IssueWithin(list: seq<Request>, curCycle: nat, ghost c: nat)
      requires channel.Valid() && channel.Ready() && list != [] && list[0].bank < |channel.banks|
      requires channel.minRespCycle <= curCycle + channel.t.tCL && channel.FindMinCmdCycle(list[0]) <= curCycle
      modifies channel
      ensures channel.Valid() && |channel.banks| == old(|channel.banks|)
      ensures channel.minRespCycle >= curCycle + channel.t.tCL + channel.t.tBL
      ensures old(channel.log) <= channel.log && JustIssued(list, curCycle)
      ensures old(ChannelBy(c)) && curCycle <= c + channel.t.Slack() ==> ChannelBy(c + channel.t.Stride())
    {
      ghost var banks, windows, minRespCycle := channel.banks, channel.windows, channel.minRespCycle;
      ghost var hit, act, cmd := IssueFirst(list, curCycle);
      if AllBy(banks, windows, minRespCycle, c) && curCycle <= c + channel.t.Slack() {
        SteppedBy(channel.t, channel.rankOf, banks, windows, minRespCycle,
                  channel.banks, channel.windows, channel.minRespCycle, list[0].bank, hit, act, cmd, curCycle, c);
      }
    }

    /** enqueue: a new request comes in, or waits in the overflow queue if either queue is full.  It may
        be queued while others wait in the overflow queue.  A bound on what is recorded stays one. */
    method Enqueue(ev: nat, bank: nat, row: nat, write: bool, sysCycle: nat, ghost c: nat)
      returns (ghost req: Request, ghost first: bool, ghost ready: nat)
      requires Valid() && bank < |rd.banks| && sysCycle * clocks.memKHz < WORD64
      modifies this
      ensures Valid() && arrived == old(arrived) + [ev] && served == old(served)
      ensures var r := Request(0, ev, false, bank, row, write, 0, 0);
              if |old(rd).queue| >= queueDepth || |old(wr).queue| >= queueDepth
              then rd == old(rd) && wr == old(wr) && Grown(old(overflowQueue), overflowQueue, r)
              else overflowQueue == old(overflowQueue) && Took(old(rd), old(wr), rd, wr, r)
      ensures if first then nextSchedCycle == Earlier(old(nextSchedCycle), ready) && ReadyAt(req, ready)
              else nextSchedCycle == old(nextSchedCycle)
      ensures if overflowQueue != old(overflowQueue) then !first
              else Newest(req, first) && req.write == write && req.arrivalCycle == clocks.SysToMem(sysCycle)
      ensures old(ReachedBy(c)) && clocks.SysToMem(sysCycle) <= c ==> ReachedBy(c)
    {
      var memCycle := clocks.SysToMem(sysCycle);
      var r := Request(0, ev, false, bank, row, write, 0, memCycle);
      if Full() {
        OverflowConserved(arrived, done, overflowQueue, rd.queue, wr.queue, false, r);
        OverflowConserved(arrived, served, overflowQueue, rd.queue, wr.queue, true, r);
        arrived := arrived + [ev];
        overflowQueue := overflowQueue + [r];
        req, first, ready := r, false, 0;
      } else {
        req, first, ready := EnqueueNow(r, sysCycle, c, ReachedBy(c) && memCycle <= c);
      }
    }

    method EnqueueNow(r: Request, sysCycle: nat, ghost c: nat, ghost reached: bool)
      returns (ghost req: Request, ghost first: bool, ghost ready: nat)
      requires Valid() && !Full() && r.bank < |rd.banks| && !r.answered && sysCycle * clocks.memKHz < WORD64
      requires reached ==> ReachedBy(c) && clocks.SysToMem(sysCycle) <= c
      modifies `rd, `wr, `queued, `done, `arrived, `rdHistory, `wrHistory
      modifies `events, `nextSchedEvent, `nextSchedCycle, `eventFreelist
      ensures Valid() && arrived == old(arrived) + [r.ev]
      ensures Took(old(rd), old(wr), rd, wr, r)
      ensures Newest(req, first) && req.write == r.write && req.arrivalCycle == clocks.SysToMem(sysCycle)
      ensures if first then nextSchedCycle == Earlier(old(nextSchedCycle), ready) && ReadyAt(req, ready)
              else nextSchedCycle == old(nextSchedCycle)
      ensures reached ==> ReachedBy(c)
    {
      var memCycle := clocks.SysToMem(sysCycle);
      var e, isFirst := Admit(r, memCycle, c, reached);
      req, first := e, isFirst;
      ready := RearmFor(e, isFirst, sysCycle, c, reached);
    }

    method RearmFor(req: Request, first: bool, sysCycle: nat, ghost c: nat,
                    ghost known: bool) returns (ghost ready: nat)
      requires Linkage() && req.bank < |channel.banks| && Ordered() && sysCycle * clocks.memKHz < WORD64
      requires req.arrivalCycle == clocks.SysToMem(sysCycle)
      requires Newest(req, first)
      requires !first ==> nextSchedCycle.At?
      requires known ==> By(c) && req.arrivalCycle <= c && WithinSlack(channel.t, nextSchedCycle, c)
      modifies `events, `nextSchedEvent, `nextSchedCycle, `eventFreelist
      ensures Armed()
      ensures nextSchedCycle == if first then Earlier(old(nextSchedCycle), ready) else old(nextSchedCycle)
      ensures first ==> ReadyAt(req, ready)
      ensures known ==> ReachedBy(c)
    {
      ready := 0;
      if first { ready := RearmWithin(req, sysCycle, c, known); }
    }

    /** This request is the last of its queue; first: it is the first of its bank. */
    ghost predicate Newest(req: Request, first: bool)
      reads `rd, `wr
    {
      var s := if deferredWrites && req.write then wr else rd;
      s.queue != [] && req == s.queue[|s.queue| - 1] && (first <==> IsHead(s, req))
    }

    /** It can go from this cycle on: it has arrived, the bus is free and its bank is ready. */
    ghost predicate ReadyAt(req: Request, ready: nat)
      reads `rd, `wr, channel
    {
      && channel.Ready() && req.bank < |channel.banks| && Linkage()
      && ready == Max(Max(req.arrivalCycle, BusFree()), channel.FindMinCmdCycle(req))
    }

    /** Re-arm for a request that has just arrived. */
    method RearmWithin(req: Request, sysCycle: nat, ghost c: nat, ghost known: bool) returns (ghost ready: nat)
      requires Linkage() && req.bank < |channel.banks| && Ordered() && sysCycle * clocks.memKHz < WORD64
      requires req.arrivalCycle == clocks.SysToMem(sysCycle)
      requires Newest(req, true)
      requires known ==> ChannelBy(c) && req.arrivalCycle <= c && WithinSlack(channel.t, nextSchedCycle, c)
      modifies `events, `nextSchedEvent, `nextSchedCycle, `eventFreelist
      ensures Ordered() && nextSchedCycle == Earlier(old(nextSchedCycle), ready)
      ensures ReadyAt(req, ready)
      ensures known ==> WithinSlack(channel.t, nextSchedCycle, c)
    {
      channel.ValidIsReady();
      ready := Max(Max(req.arrivalCycle, BusFree()), channel.FindMinCmdCycle(req));
      RearmedBy(req, req.arrivalCycle, c);
      Rearm(req, req.arrivalCycle, sysCycle);
    }

    /** Request r has joined its queue. */
    ghost predicate Took(rd0: Side, wr0: Side, rd1: Side, wr1: Side, r: Request) {
      if deferredWrites && r.write then rd1 == rd0 && Grown(wr0.queue, wr1.queue, r)
      else wr1 == wr0 && Grown(rd0.queue, rd1.queue, r)
    }

    predicate Full()
      reads `rd, `wr
    {
      |rd.queue| >= queueDepth || |wr.queue| >= queueDepth
    }

    /** Queue a new arrival. */
    method Admit(r: Request, memCycle: nat, ghost c: nat, ghost known: bool) returns (req: Request, first: bool)
      requires Sized() && Stored() && r.bank < |rd.banks| && !r.answered && |rd.queue| < queueDepth &&
               |wr.queue| < queueDepth
      requires known ==> By(c) && memCycle <= c
      modifies `rd, `wr, `queued, `done, `arrived, `rdHistory, `wrHistory
      ensures Sized() && Stored() && arrived == old(arrived) + [r.ev] && req.bank == r.bank &&
              req.arrivalCycle == memCycle && req.write == r.write
      ensures Took(old(rd), old(wr), rd, wr, r)
      ensures Newest(req, first)
      ensures known ==> By(c)
      ensures !first ==> old(rd).queue != [] || old(wr).queue != []
    {
      ghost var rd0, wr0, done0 := rd, wr, done;
      req, first := Queue(r, memCycle);
      JoinedConserved(arrived, done0, overflowQueue, rd0.queue, wr0.queue, false, req,
                      deferredWrites && r.write, false);
      JoinedConserved(arrived, served, overflowQueue, rd0.queue, wr0.queue, true, req,
                      deferredWrites && r.write, false);
      FirstOfAll(req, first, rd0, wr0);
      arrived := arrived + [r.ev];
    }

    /** The only request of all is first in its bank. */
    lemma FirstOfAll(req: Request, first: bool, rd0: Side, wr0: Side)
      requires Linked(rd) && Linked(wr)
      requires (wr == wr0 && rd.queue == rd0.queue + [req] && (first <==> IsHead(rd, req))) ||
               (rd == rd0 && wr.queue == wr0.queue + [req] && (first <==> IsHead(wr, req)))
      ensures !first ==> rd0.queue != [] || wr0.queue != []
    {
      if rd.queue == [req] { var i := HeadExists(rd); }
      if wr.queue == [req] { var i := HeadExists(wr); }
    }

    /** The cycle from which the last command no longer keeps the bus. */
    function BusFree(): (b: nat)
      reads `rd, `wr, channel
      requires Linkage()
      ensures b + channel.t.tCL + channel.t.tBL == channel.minRespCycle
    {
      channel.minRespCycle - channel.t.tCL - channel.t.tBL
    }

    /** Re-arming for a request that has just arrived stays within Slack. */
    lemma RearmedBy(req: Request, memCycle: nat, c: nat)
      requires Linkage() && channel.Ready() && req.bank < |channel.banks| && req.arrivalCycle == memCycle
      ensures ChannelBy(c) && memCycle <= c && WithinSlack(channel.t, nextSchedCycle, c) ==>
                WithinSlack(channel.t, Earlier(nextSchedCycle, Max(Max(memCycle, BusFree()),
                                                                   channel.FindMinCmdCycle(req))), c)
    {
      if ChannelBy(c) && memCycle <= c {
        assert BankBy(channel.banks[req.bank], c) && WindowBy(channel.windows[channel.rankOf[req.bank]], c);
        MinCmdBy(channel.t, channel.banks[req.bank], channel.WindowOf(req), req, c);
      }
    }

    /** Re-arm the scheduling event if this request, first in its bank, can go before it. */
    method Rearm(req: Request, memCycle: nat, sysCycle: nat)
      requires Linkage() && channel.Ready() && req.bank < |channel.banks| && Ordered()
      requires sysCycle * clocks.memKHz < WORD64 && memCycle == clocks.SysToMem(sysCycle)
      modifies `events, `nextSchedEvent, `nextSchedCycle, `eventFreelist
      ensures Ordered()
      ensures nextSchedCycle == Earlier(old(nextSchedCycle),
                                        Max(Max(memCycle, BusFree()), channel.FindMinCmdCycle(req)))
    {
      var minSchedCycle := Max(memCycle, BusFree());
      if After(nextSchedCycle, minSchedCycle) { minSchedCycle := Max(minSchedCycle, channel.FindMinCmdCycle(req)); }
      if After(nextSchedCycle, minSchedCycle) { Arm(minSchedCycle, sysCycle); }
    }

    /** What Armed says about the event itself. */
    ghost predicate Ordered()
      reads `events, `nextSchedEvent, `nextSchedCycle, `eventFreelist
    {
      && EventsOk(events, nextSchedEvent, eventFreelist)
      && (nextSchedEvent == NO_EVENT <==> nextSchedCycle == Never)
      && (0 <= nextSchedEvent < |events| && nextSchedCycle.At? ==>
          InStep(nextSchedCycle.cycle, events[nextSchedEvent].cycle))
    }

    method Arm(minSchedCycle: nat, sysCycle: nat)
      requires Ordered() && clocks.Valid() && (2 * horizon + 2) * clocks.sysKHz < WORD64
      requires sysCycle * clocks.memKHz < WORD64 && clocks.SysToMem(sysCycle) <= minSchedCycle
      modifies `events, `nextSchedEvent, `nextSchedCycle, `eventFreelist
      ensures Ordered() && nextSchedCycle == At(minSchedCycle)
    {
      if nextSchedEvent != NO_EVENT { Annul(); }
      var e := TakeEvent();
      var enqSysCycle := Max(clocks.MatchingMemToSys(minSchedCycle), sysCycle);
      StaysInStep(minSchedCycle, sysCycle);
      assert events[e].state == IDLE;
      events := events[e := SchedEvent(QUEUED, enqSysCycle)];
      nextSchedEvent, nextSchedCycle := e, At(minSchedCycle);
    }

    /** The armed event will be recycled when it comes up. */
    method Annul()
      requires EventsOk(events, nextSchedEvent, eventFreelist) && nextSchedEvent != NO_EVENT
      modifies `events, `nextSchedEvent
      ensures EventsOk(events, NO_EVENT, eventFreelist) && nextSchedEvent == NO_EVENT
    {
      assert events[nextSchedEvent].state == QUEUED;
      events := events[nextSchedEvent := events[nextSchedEvent].(state := ANNULLED)];
      nextSchedEvent := NO_EVENT;
    }

    method TakeEvent() returns (e: nat)
      requires EventsOk(events, NO_EVENT, eventFreelist)
      modifies `events, `eventFreelist
      ensures e < |events| && events[e].state == IDLE
      ensures forall cycle: nat :: EventsOk(events[e := SchedEvent(QUEUED, cycle)], e, eventFreelist)
    {
      if eventFreelist != [] {
        e := eventFreelist[|eventFreelist| - 1];
        eventFreelist := eventFreelist[..|eventFreelist| - 1];
      } else {
        e := |events|;
        events := events + [SchedEvent(IDLE, 0)];
      }
    }

    /** The clamp keeps an event in the memory cycle it is armed for. */
    lemma StaysInStep(m: nat, sysCycle: nat)
      requires clocks.Valid() && (2 * horizon + 2) * clocks.sysKHz < WORD64
      requires sysCycle * clocks.memKHz < WORD64 && clocks.SysToMem(sysCycle) <= m
      ensures InStep(m, Max(clocks.MatchingMemToSys(m), sysCycle))
    {
      if m <= horizon { ArmedWithin(clocks, m, sysCycle, horizon); }
    }

    /** What a tick has done.  If nothing was recorded beyond cycle c, nothing now is beyond Stride of it. */
    ghost predicate Ticked(before: Load, due: When, reached: bool, c: nat)
      reads `rd, `wr, `served, `overflowQueue, `nextSchedCycle, channel
    {
      && due.At? && Progress(before, Now(), due.cycle, nextSchedCycle)
      && (reached ==> ReachedBy(if Pending() == Left(before) then c else c + channel.t.Stride()))
    }

    /** tick: the armed event has come up.  Returns the system cycle of the next one, or 0 if there is
        nothing left to do. */
    method Tick(sysCycle: nat, ghost c: nat, ghost reached: bool)
      returns (nextCycle: nat, ghost serves: bool, ghost m: When)
      requires Linkage() && Stored() && nextSchedCycle.At? && nextSchedCycle.cycle <= horizon
      requires rd.queue != [] || wr.queue != []
      requires InStep(nextSchedCycle.cycle, sysCycle) && (reached ==> ReachedBy(c))
      modifies this, channel
      ensures Linkage() && Stored() && events == old(events) && eventFreelist == old(eventFreelist) &&
              arrived == old(arrived)
      ensures nextSchedEvent == if nextCycle == 0 then NO_EVENT else old(nextSchedEvent)
      ensures nextCycle == 0 <==> nextSchedCycle == Never
      ensures nextSchedCycle == Never <==> rd.queue == [] && wr.queue == []
      ensures overflowQueue != [] ==> nextSchedCycle != Never
      ensures nextSchedCycle.At? ==> InStep(nextSchedCycle.cycle, nextCycle)
      ensures Ticked(old(Now()), old(nextSchedCycle), reached, c)
      ensures serves <==> |served| > |old(served)|
      ensures Tried(old(nextSchedCycle).cycle, serves, m)
      ensures nextSchedCycle == LoweredFor(old(overflowQueue), Now(), Max(old(nextSchedCycle).cycle, BusFree()), m)
    {
      var memCycle := clocks.SysToMem(sysCycle);
      assert At(memCycle) == nextSchedCycle;
      serves, m := TickIn(memCycle, sysCycle, c, reached);
      nextCycle := Continue(sysCycle);
    }

    /** The same, in memory cycles. */
    method TickIn(memCycle: nat, sysCycle: nat, ghost c: nat, ghost reached: bool)
      returns (ghost serves: bool, ghost m: When)
      requires Linkage() && Stored() && (rd.queue != [] || wr.queue != [])
      requires nextSchedCycle == At(memCycle) && (reached ==> ReachedBy(c))
      modifies `rd, `wr, `queued, `done, `served, `overflowQueue, `rdHistory, `wrHistory, `nextSchedCycle, channel
      ensures Linkage() && Stored()
      ensures nextSchedCycle == Never <==> rd.queue == [] && wr.queue == []
      ensures overflowQueue != [] ==> nextSchedCycle != Never
      ensures nextSchedCycle.At? ==> nextSchedCycle.cycle >= memCycle
      ensures Ticked(old(Now()), old(nextSchedCycle), reached, c)
      ensures serves <==> |served| > |old(served)|
      ensures Tried(memCycle, serves, m)
      ensures nextSchedCycle == LoweredFor(old(overflowQueue), Now(), Max(memCycle, BusFree()), m)
    {
      var minSchedCycle;
      ghost var c';
      minSchedCycle, c', serves, m := Work(memCycle, sysCycle, c, reached);
      nextSchedCycle := minSchedCycle;
    }

    /** Try to issue a request, and admit one from the overflow queue if there is room. */
    method Work(memCycle: nat, sysCycle: nat, ghost c: nat, ghost known: bool)
      returns (minSchedCycle: When, ghost c': nat, ghost serves: bool, ghost m: When)
      requires Linkage() && Stored() && (known ==> By(c) && memCycle <= c + channel.t.Slack())
      requires rd.queue != [] || wr.queue != []
      modifies `rd, `wr, `queued, `done, `served, `overflowQueue, `rdHistory, `wrHistory, channel
      ensures Linkage() && Stored()
      ensures minSchedCycle == Never <==> rd.queue == [] && wr.queue == []
      ensures overflowQueue != [] ==> minSchedCycle != Never
      ensures minSchedCycle.At? ==> minSchedCycle.cycle >= memCycle
      ensures Progress(old(Now()), Now(), memCycle, minSchedCycle)
      ensures Tried(memCycle, serves, m) &&
              minSchedCycle == LoweredFor(old(overflowQueue), Now(), Max(memCycle, BusFree()), m)
      ensures serves <==> |served| > |old(served)|
      ensures c' == if Pending() == old(Pending()) then c else c + channel.t.Stride()
      ensures known ==> By(c') && WithinSlack(channel.t, minSchedCycle, c')
    {
      channel.ValidIsReady();
      ghost var before := Now();
      minSchedCycle, serves, c' := ServeOne(memCycle, sysCycle, c, known);
      m := minSchedCycle;
      minSchedCycle, c' := AdmitNext(memCycle, minSchedCycle, c', c + channel.t.Stride(), known, before, serves);
    }

    /** When trySchedule wants to be called again: as soon as the bus is not taken too far ahead, or, if it is
        not and nothing was served, when the first of the requests whose turn it is becomes ready. */
    twostate predicate Tried(memCycle: nat, serves: bool, m: When)
      reads channel
      requires old(channel.Ready()) && old(Sized())
    {
      m.At? ==>
        if serves || old(BusBusy(memCycle)) then m.cycle + channel.t.tCL == channel.minRespCycle
        else m.cycle > memCycle && old(EarliestHead(if UseWrites() then wr else rd, m.cycle))
    }

    /** An overflowed request that has been admitted lowers that to the bus-free cycle if it is first in
        its bank. */
    ghost function LoweredFor(overflow0: seq<Request>, after: Load, busFree: nat, m: When): When {
      if after.overflow == overflow0 || overflow0 == [] then m else Lowered(overflow0[0], after, busFree, m)
    }

    ghost function Lowered(r: Request, after: Load, busFree: nat, m: When): When {
      var s := if deferredWrites && r.write then after.wr else after.rd;
      if s.queue != [] && IsHead(s, s.queue[|s.queue| - 1]) then Earlier(m, busFree) else m
    }

    /** What a call of trySchedule means for the counts. */
    method ServeOne(memCycle: nat, sysCycle: nat, ghost c: nat, ghost known: bool)
      returns (minSchedCycle: When, ghost serves: bool, ghost c': nat)
      requires Linkage() && Stored() && channel.Ready() && (known ==> By(c) && memCycle <= c + channel.t.Slack())
      modifies `rd, `wr, `done, `served, `rdHistory, `wrHistory, channel
      ensures Linkage() && Stored()
      ensures minSchedCycle == Never <==> rd.queue == [] && wr.queue == []
      ensures minSchedCycle.At? ==> minSchedCycle.cycle >= memCycle
      ensures Tried(memCycle, serves, minSchedCycle)
      ensures Attempted(old(Now()), serves, Now(), memCycle, minSchedCycle)
      ensures serves <==> |served| > |old(served)|
      ensures c' == if serves then c + channel.t.Stride() else c
      ensures known ==> By(c') && WithinSlack(channel.t, minSchedCycle, c')
    {
      ghost var i;
      minSchedCycle, i, c' := TrySchedule(memCycle, sysCycle, c);
      serves := i >= 0;
    }

    /** What serving and admitting come to. */
    lemma Progressed(before: Load, serves: bool, between: Load, after: Load, cycle: nat, m: When, next: When)
      requires Attempted(before, serves, between, cycle, m)
      requires before.rd.queue != [] || before.wr.queue != []
      requires m == Never <==> between.rd.queue == [] && between.wr.queue == []
      requires Admitted(between.overflow, |between.rd.queue| < queueDepth && |between.wr.queue| < queueDepth, after)
      requires after.served == between.served
      requires if after.overflow == between.overflow then after == between && next == m
               else Took(between.rd, between.wr, after.rd, after.wr, between.overflow[0])
      ensures Progress(before, after, cycle, next)
    {
    }

    /** The first overflowed request is admitted, unless there is none or no room for it. */
    ghost predicate Admitted(overflow0: seq<Request>, room: bool, after: Load) {
      if after.overflow == overflow0
      then overflow0 == [] || |after.rd.queue| >= queueDepth || |after.wr.queue| >= queueDepth
      else room && overflow0 != [] && after.overflow == overflow0[1..] && LastIn(after, overflow0[0])
    }

    /** Request r is the newest of its queue. */
    ghost predicate LastIn(l: Load, r: Request) {
      var q := if deferredWrites && r.write then l.wr.queue else l.rd.queue;
      q != [] && SameRequest(q[|q| - 1], r)
    }

    /** Whatever the call of trySchedule did, the tick has done something by now. */
    method AdmitNext(memCycle: nat, minSchedCycle: When, ghost c: nat, ghost c': nat, ghost known: bool,
                     ghost before: Load, ghost serves: bool)
      returns (m: When, ghost d: nat)
      requires Linkage() && Stored() && c <= c'
      requires known ==> By(c) && memCycle <= c' && WithinSlack(channel.t, minSchedCycle, c)
      requires minSchedCycle == Never <==> rd.queue == [] && wr.queue == []
      requires minSchedCycle.At? ==> minSchedCycle.cycle >= memCycle
      requires Attempted(before, serves, Now(), memCycle, minSchedCycle)
      requires before.rd.queue != [] || before.wr.queue != []
      modifies `rd, `wr, `queued, `done, `overflowQueue, `rdHistory, `wrHistory
      ensures Linkage() && Stored()
      ensures m == Never <==> rd.queue == [] && wr.queue == []
      ensures overflowQueue != [] ==> m != Never
      ensures m.At? ==> m.cycle >= memCycle
      ensures Progress(before, Now(), memCycle, m)
      ensures m == LoweredFor(old(overflowQueue), Now(), Max(memCycle, BusFree()), minSchedCycle)
      ensures d == if overflowQueue == old(overflowQueue) then c else c'
      ensures known ==> By(d) && WithinSlack(channel.t, m, d)
    {
      ghost var between := Now();
      m, d := AdmitIfRoom(memCycle, minSchedCycle, c, c', known);
      Progressed(before, serves, between, Now(), memCycle, minSchedCycle, m);
    }

    method AdmitIfRoom(memCycle: nat, minSchedCycle: When, ghost c: nat, ghost c': nat, ghost known: bool)
      returns (m: When, ghost d: nat)
      requires Linkage() && Stored() && c <= c'
      requires known ==> By(c) && memCycle <= c' && WithinSlack(channel.t, minSchedCycle, c)
      requires minSchedCycle == Never <==> rd.queue == [] && wr.queue == []
      requires minSchedCycle.At? ==> minSchedCycle.cycle >= memCycle
      modifies `rd, `wr, `queued, `done, `overflowQueue, `rdHistory, `wrHistory
      ensures Linkage() && Stored()
      ensures m == Never <==> rd.queue == [] && wr.queue == []
      ensures overflowQueue != [] ==> m != Never
      ensures Admitted(old(overflowQueue), !old(Full()), Now())
      ensures m.At? ==> m.cycle >= memCycle
      ensures if overflowQueue == old(overflowQueue) then rd == old(rd) && wr == old(wr)
              else Took(old(rd), old(wr), rd, wr, old(overflowQueue)[0])
      ensures m == LoweredFor(old(overflowQueue), Now(), Max(memCycle, BusFree()), minSchedCycle)
      ensures d == if overflowQueue == old(overflowQueue) then c else c'
      ensures known ==> By(d) && WithinSlack(channel.t, m, d)
    {
      m, d := minSchedCycle, c;
      if |rd.queue| < queueDepth && |wr.queue| < queueDepth && overflowQueue != [] {
        d := c';
        ByLater(c, c');
        SlackLater(m, c, c');
        m := AdmitOverflowed(memCycle, m, c', known);
      }
    }

    lemma SlackLater(m: When, c: nat, c': nat)
      requires c <= c'
      ensures WithinSlack(channel.t, m, c) ==> WithinSlack(channel.t, m, c')
    {
    }

    /** A tick serves one request, or admits one that had overflowed, or both, or is done again strictly
        later. */
    ghost predicate Progress(before: Load, after: Load, cycle: nat, next: When) {
      var s, a := after.served - before.served, |before.overflow| - |after.overflow|;
      && 0 <= s <= 1
      && Admitted(before.overflow, s == 1 || (|before.rd.queue| < queueDepth && |before.wr.queue| < queueDepth), after)
      && |after.rd.queue| + |after.wr.queue| == |before.rd.queue| + |before.wr.queue| - s + a
      && |after.rd.queue| <= |before.rd.queue| + a && |after.wr.queue| <= |before.wr.queue| + a
      && (s + a == 0 ==> after == before && next.At? && next.cycle > cycle)
    }

    lemma ByLater(c: nat, c': nat)
      requires c <= c'
      ensures By(c) ==> By(c')
    {
      if By(c) {
        forall b | 0 <= b < |channel.banks| ensures BankBy(channel.banks[b], c') { assert BankBy(channel.banks[b], c); }
        forall k | 0 <= k < |channel.windows|
          ensures WindowBy(channel.windows[k], c')
        {
          assert WindowBy(channel.windows[k], c);
        }
      }
    }

    /** The event goes on to its next cycle, or there is none. */
    method Continue(sysCycle: nat) returns (nextCycle: nat)
      requires clocks.Valid() && (2 * horizon + 2) * clocks.sysKHz < WORD64 && sysCycle > 0
      requires sysCycle * clocks.memKHz < WORD64 &&
               (nextSchedCycle.At? ==> clocks.SysToMem(sysCycle) <= nextSchedCycle.cycle)
      modifies `nextSchedEvent
      ensures nextCycle == 0 <==> nextSchedCycle == Never
      ensures nextSchedEvent == if nextCycle == 0 then NO_EVENT else old(nextSchedEvent)
      ensures nextSchedCycle.At? ==> InStep(nextSchedCycle.cycle, nextCycle)
    {
      match nextSchedCycle
      case Never =>
        nextSchedEvent := NO_EVENT;
        nextCycle := 0;
      case At(m) =>
        StaysInStep(m, sysCycle);
        nextCycle := Max(clocks.MatchingMemToSys(m), sysCycle);
    }

    /** The first overflowed request gets its place; returns the cycle to try next, which it may lower. */
    method AdmitOverflowed(memCycle: nat, minSchedCycle: When, ghost c: nat, ghost known: bool) returns (m: When)
      requires Linkage() && Stored() && overflowQueue != [] && |rd.queue| < queueDepth && |wr.queue| < queueDepth
      requires minSchedCycle == Never <==> rd.queue == [] && wr.queue == []
      requires minSchedCycle.At? ==> minSchedCycle.cycle >= memCycle
      requires known ==> By(c) && memCycle <= c && WithinSlack(channel.t, minSchedCycle, c)
      modifies `rd, `wr, `queued, `done, `overflowQueue, `rdHistory, `wrHistory
      ensures Linkage() && Stored() && overflowQueue == old(overflowQueue)[1..]
      ensures (rd.queue != [] || wr.queue != []) && m.At? && m.cycle >= memCycle
      ensures Took(old(rd), old(wr), rd, wr, old(overflowQueue)[0])
      ensures m == Lowered(old(overflowQueue)[0], Now(), Max(memCycle, BusFree()), minSchedCycle)
      ensures known ==> By(c) && WithinSlack(channel.t, m, c)
    {
      var req, first := QueueOverflowed(memCycle, c, known);
      m := minSchedCycle;
      if first { m := LowerToBusFree(req, memCycle, minSchedCycle); }
    }

    /** The bus-free cycle is what comes out, whether or not the request is ready by then. */
    method LowerToBusFree(req: Request, memCycle: nat, minSchedCycle: When) returns (m: When)
      requires Linkage() && req.bank < |rd.banks| && (minSchedCycle.At? ==> minSchedCycle.cycle >= memCycle)
      ensures m == Earlier(minSchedCycle, Max(memCycle, BusFree())) && m.At? && m.cycle >= memCycle
      ensures forall c: nat :: ChannelBy(c) && memCycle <= c && WithinSlack(channel.t, minSchedCycle, c) ==>
                WithinSlack(channel.t, m, c)
    {
      m := minSchedCycle;
      channel.ValidIsReady();
      var minQueuedSchedCycle := Max(memCycle, BusFree());
      if After(m, minQueuedSchedCycle) { m := At(Max(minQueuedSchedCycle, channel.FindMinCmdCycle(req))); }
      if After(m, minQueuedSchedCycle) { m := At(minQueuedSchedCycle); }
    }

    method QueueOverflowed(memCycle: nat, ghost c: nat, ghost known: bool) returns (req: Request, first: bool)
      requires Sized() && Stored() && overflowQueue != [] && |rd.queue| < queueDepth && |wr.queue| < queueDepth
      requires known ==> By(c) && memCycle <= c
      modifies `rd, `wr, `queued, `done, `overflowQueue, `rdHistory, `wrHistory
      ensures Sized() && Stored() && overflowQueue == old(overflowQueue)[1..] && req.bank < |rd.banks|
      ensures Took(old(rd), old(wr), rd, wr, old(overflowQueue)[0])
      ensures var s := if deferredWrites && old(overflowQueue)[0].write then wr else rd;
              first <==> IsHead(s, s.queue[|s.queue| - 1])
      ensures known ==> By(c)
      ensures !first ==> old(rd).queue != [] || old(wr).queue != []
    {
      ghost var rd0, wr0, done0 := rd, wr, done;
      var r := overflowQueue[0];
      req, first := Queue(r, memCycle);
      JoinedConserved(arrived, done0, overflowQueue, rd0.queue, wr0.queue, false, req, deferredWrites && r.write, true);
      JoinedConserved(arrived, served, overflowQueue, rd0.queue, wr0.queue, true, req, deferredWrites && r.write, true);
      FirstOfAll(req, first, rd0, wr0);
      overflowQueue := overflowQueue[1..];
    }

    /** An arrival, seen without the re-arming. */
    method Comes(ev: nat, bank: nat, row: nat, write: bool, sysCycle: nat, ghost c: nat)
      requires Valid() && bank < |rd.banks| && sysCycle * clocks.memKHz < WORD64
      modifies this
      ensures Valid() && arrived == old(arrived) + [ev]
      ensures var r := Request(0, ev, false, bank, row, write, 0, 0);
              if |old(rd).queue| >= queueDepth || |old(wr).queue| >= queueDepth
              then rd == old(rd) && wr == old(wr) && Grown(old(overflowQueue), overflowQueue, r)
              else overflowQueue == old(overflowQueue) && Took(old(rd), old(wr), rd, wr, r)
      ensures old(ReachedBy(c)) && clocks.SysToMem(sysCycle) <= c ==> ReachedBy(c)
    {
      ghost var _, _, _ := Enqueue(ev, bank, row, write, sysCycle, c);
    }

    // ----- what the event simulation calls -----

    /** SchedEvent::simulate, for an event that was enqueued, at its cycle. */
    method Simulate(e: nat, ghost c: nat)
      requires Valid() && e < |events| && (events[e].state == QUEUED || events[e].state == ANNULLED)
      requires events[e].state == QUEUED ==> nextSchedCycle.At? && nextSchedCycle.cycle <= horizon
      modifies this, channel
      ensures Valid() && arrived == old(arrived)
      ensures e < |events| && events[e].state in {QUEUED, IDLE}
      ensures if old(events)[e].state == QUEUED
              then Ticked(old(Now()), old(nextSchedCycle), old(ReachedBy(c)), c)
              else events[e].state == IDLE && Now() == old(Now()) && nextSchedCycle == old(nextSchedCycle)
    {
      if events[e].state == QUEUED {
        assert e == nextSchedEvent;
        RunTick(e, c);
      } else {
        events := events[e := events[e].(state := IDLE)];
        RecycleEvent(e);
      }
    }

    method RunTick(e: nat, ghost c: nat)
      requires Valid() && e == nextSchedEvent && e < |events| && nextSchedCycle.At? && nextSchedCycle.cycle <= horizon
      modifies this, channel
      ensures Valid() && arrived == old(arrived) && e < |events| && events[e].state in {QUEUED, IDLE}
      ensures Ticked(old(Now()), old(nextSchedCycle), old(ReachedBy(c)), c)
    {
      var sysCycle := events[e].cycle;
      ghost var before, reached := events, ReachedBy(c);
      events := events[e := events[e].(state := RUNNING)];
      assert events[e := events[e].(state := QUEUED)] == before;
      ghost var serves, m;
      var nextCycle;
      nextCycle, serves, m := Tick(sysCycle, c, reached);
      Reschedule(e, nextCycle);
    }

    /** The event that ran is queued again, or recycled. */
    method Reschedule(e: nat, nextCycle: nat)
      requires e < |events| && EventsOk(events[e := events[e].(state := QUEUED)], e, eventFreelist)
      requires nextSchedEvent == if nextCycle == 0 then NO_EVENT else e
      modifies `events, `eventFreelist
      ensures EventsOk(events, nextSchedEvent, eventFreelist) && e < |events|
      ensures if nextCycle == 0 then events[e].state == IDLE else events[e] == SchedEvent(QUEUED, nextCycle)
    {
      ghost var before := events[e := events[e].(state := QUEUED)];
      assert forall x :: 0 <= x < |events| && x != e ==> before[x] == events[x];
      if nextCycle != 0 {
        events := events[e := SchedEvent(QUEUED, nextCycle)];
      } else {
        assert before[e].state == QUEUED;
        events := events[e := events[e].(state := IDLE)];
        assert events[e := events[e].(state := ANNULLED)] == before[e := before[e].(state := ANNULLED)];
        RecycleEvent(e);
      }
    }

    /** recycleEvent. */
    method RecycleEvent(e: nat)
      requires e < |events| && events[e].state == IDLE && e != nextSchedEvent && e !in eventFreelist
      requires EventsOk(events[e := events[e].(state := ANNULLED)], nextSchedEvent, eventFreelist)
      modifies `eventFreelist
      ensures EventsOk(events, nextSchedEvent, eventFreelist)
    {
      ghost var others := events[e := events[e].(state := ANNULLED)];
      assert forall x :: 0 <= x < |events| && x != e ==> others[x] == events[x];
      eventFreelist := eventFreelist + [e];
    }

    /** RefreshEvent::simulate. */
    method Refresh(sysCycle: nat)
      requires Valid()
      modifies channel
      ensures Valid()
      ensures |channel.log| == |old(channel.log)| + 1 && channel.log[|channel.log| - 1].Refresh?
      ensures channel.log[|channel.log| - 1].cycle >= clocks.SysToMem(sysCycle)
    {
      channel.Refresh(clocks.SysToMem(sysCycle));
    }

    // ----- what holds over every run -----

    /** Requests are pending exactly while one, and only one, event is queued. */
    lemma PendingMeansArmed()
      requires Valid()
      ensures rd.queue != [] || wr.queue != [] || overflowQueue != [] <==> nextSchedEvent != NO_EVENT
      ensures (set e: nat | e < |events| && events[e].state == QUEUED) ==
                if nextSchedEvent == NO_EVENT then {} else {nextSchedEvent}
    {
    }

    /** Bounded bypass over every run: since any arrival in a bank's list, at most (chains that stood
        before its place) * (rowHitLimit + 1) requests of that list have been served before it. */
    lemma BypassIsBounded(writes: bool, b: nat, k: nat)
      requires Valid() && b < |rd.banks|
      requires var h := (if writes then wrHistory else rdHistory)[b]; k < |h| && h[k].Arrival?
      ensures var h := (if writes then wrHistory else rdHistory)[b];
              Replayed(h, rowHitLimit) == (if writes then wr else rd).banks[b] && BypassBounded(h, k, rowHitLimit)
    {
      if writes {
        assert RecordedAt(wr.banks[b], wrHistory[b], rowHitLimit, queued);
        BoundedInHistory(wrHistory[b], k, rowHitLimit);
      } else {
        assert RecordedAt(rd.banks[b], rdHistory[b], rowHitLimit, queued);
        BoundedInHistory(rdHistory[b], k, rowHitLimit);
      }
    }

    /** Once nothing is pending, every event that arrived has been answered, and its request served,
        exactly as often as it arrived. */
    lemma IdleMeansDone(x: nat)
      requires Valid() && nextSchedCycle == Never
      ensures Count(done, x) == Count(arrived, x) == Count(served, x)
    {
      assert ConservedFor(arrived, done, overflowQueue, rd.queue, wr.queue, false, x);
      assert ConservedFor(arrived, served, overflowQueue, rd.queue, wr.queue, true, x);
    }

    /** An event that arrived once has been served, or waits at one place in one of the three queues. */
    lemma PendingOnce(x: nat)
      requires Valid() && Count(arrived, x) == 1
      ensures if Count(served, x) == 1 then NotIn(overflowQueue, x) && NotIn(rd.queue, x) && NotIn(wr.queue, x)
              else Count(served, x) == 0 && InOneOf(overflowQueue, rd.queue, wr.queue, x)
    {
      assert ConservedFor(arrived, served, overflowQueue, rd.queue, wr.queue, true, x);
      WaitingMeans(overflowQueue, x);
      WaitingMeans(rd.queue, x);
      WaitingMeans(wr.queue, x);
    }

    /** A queued request stands once in its own bank's list and in no other, of its side or the other. */
    lemma ListedOnce(writes: bool, i: nat)
      requires Valid() && i < |(if writes then wr else rd).queue|
      ensures var s := if writes then wr else rd; var r := s.queue[i];
              exists j :: ListedAt(s, r.bank, j, r) && forall b, k :: ListedAt(s, b, k, r) ==> b == r.bank && k == j
    {
      var s := if writes then wr else rd;
      var r := s.queue[i];
      assert InItsBank(s, i);
      var j :| 0 <= j < |s.banks[r.bank]| && s.banks[r.bank][j] == r;
      assert ListedAt(s, r.bank, j, r);
      forall b: nat, k: nat | ListedAt(s, b, k, r) ensures b == r.bank && k == j { assert ListedRight(s, b); }
    }

    /** Arrivals, events of the simulation and refreshes, in any order. */
    method Drive(schedule: seq<Stimulus>)
      requires Valid()
      modifies this, channel
      ensures Valid()
    {
      for k := 0 to |schedule|
        invariant Valid()
      {
        Take(schedule[k]);
      }
    }

    method Take(s: Stimulus)
      requires Valid()
      modifies this, channel
      ensures Valid() && (old(Possible(s)) ==> Taken(s))
    {
      if Possible(s) {
        match s
        case Arrive(ev, bank, row, write, sysCycle) => Comes(ev, bank, row, write, sysCycle, 0);
        case Fire(e) => Simulate(e, 0);
        case RefreshAt(sysCycle) => Refresh(sysCycle);
      }
    }

    predicate Possible(s: Stimulus)
      reads this, channel
    {
      match s
      case Arrive(_, bank, _, _, sysCycle) => bank < |rd.banks| && sysCycle * clocks.memKHz < WORD64
      case Fire(e) =>
        e < |events| && ((events[e].state == QUEUED && nextSchedCycle.At? && nextSchedCycle.cycle <= horizon) ||
                         events[e].state == ANNULLED)
      case RefreshAt(_) => true
    }

    /** What it brings about. */
    twostate predicate Taken(s: Stimulus)
      reads this, channel
      requires old(Possible(s))
    {
      match s
      case Arrive(ev, _, _, _, _) => arrived == old(arrived) + [ev]
      case Fire(e) =>
        && arrived == old(arrived) && e < |events|
        && if old(events)[e].state == QUEUED then Ticked(old(Now()), old(nextSchedCycle), false, 0)
           else events[e].state == IDLE && Now() == old(Now()) && nextSchedCycle == old(nextSchedCycle)
      case RefreshAt(_) =>
        |channel.log| == |old(channel.log)| + 1 && channel.log[|channel.log| - 1].Refresh? && Now() == old(Now())
    }

    /** With no more arrivals or refreshes, the armed event drains the controller: run it over and over,
        and in the end every event has been answered, and its request served, as often as it arrived; or
        the cycles have left the horizon.  They do not if nothing is recorded beyond cycle c and the
        horizon leaves a Stride for each thing left to do. */
    method Drain(ghost c: nat)
      requires Valid()
      modifies this, channel
      ensures Valid() && arrived == old(arrived)
      ensures nextSchedCycle.At? ==> nextSchedCycle.cycle > horizon
      ensures nextSchedCycle == Never ==> rd.queue == [] && wr.queue == [] && overflowQueue == []
      ensures nextSchedCycle == Never ==> forall x :: Count(done, x) == Count(arrived, x) == Count(served, x)
      ensures old(ReachedBy(c)) && Room(channel.t, c, old(Pending()), horizon) ==> nextSchedCycle == Never
    {
      ghost var reach: nat, room := c, ReachedBy(c) && Room(channel.t, c, Pending(), horizon);
      while nextSchedCycle.At? && nextSchedCycle.cycle <= horizon
        invariant Valid() && arrived == old(arrived)
        invariant room ==> ReachedBy(reach) && Room(channel.t, reach, Pending(), horizon)
        decreases Pending(), if nextSchedCycle.At? then horizon + 1 - nextSchedCycle.cycle else 0
      {
        reach := DrainStep(reach);
      }
      RoomMeans(channel.t, reach, Pending(), horizon);
      if nextSchedCycle == Never {
        forall x: nat ensures Count(done, x) == Count(arrived, x) == Count(served, x) { IdleMeansDone(x); }
      }
    }

    /** Two requests fill the read queue, and a write is the first of two that have overflowed. */
    ghost predicate Crowded()
      reads `rd, `wr, `overflowQueue
    {
      && queueDepth == 2 && deferredWrites && |rd.queue| == 2 && wr.queue == []
      && |overflowQueue| == 2 && overflowQueue[0].write
    }

    /** Two reads, a write and a read come in at once, and another read once the first has been served. */
    method Overtake(ghost c: nat)
      requires Valid() && queueDepth == 2 && deferredWrites && |rd.banks| > 0
      requires rd.queue == wr.queue == overflowQueue == [] && ReachedBy(c) && Room(channel.t, c, 6, horizon)
      modifies this, channel
      ensures Valid() && arrived == old(arrived) + [0, 1, 2, 3, 4]
      ensures |overflowQueue| == 1 && overflowQueue[0].ev == 3
      ensures rd.queue != [] && rd.queue[|rd.queue| - 1].ev == 4
    {
      FillReads(c);
      Crowd(c);
      MakeRoom(c);
      Comes(4, 0, 0, false, 0, c);
    }

    method FillReads(ghost c: nat)
      requires Valid() && queueDepth == 2 && rd.queue == wr.queue == overflowQueue == [] && |rd.banks| > 0
      requires ReachedBy(c)
      modifies this
      ensures Valid() && |rd.queue| == 2 && wr.queue == overflowQueue == [] && |rd.banks| > 0 && ReachedBy(c)
      ensures arrived == old(arrived) + [0, 1]
    {
      AddRead(0, c);
      AddRead(1, c);
    }

    method AddRead(ev: nat, ghost c: nat)
      requires Valid() && queueDepth == 2 && |rd.queue| < 2 && wr.queue == overflowQueue == [] && |rd.banks| > 0
      requires ReachedBy(c)
      modifies this
      ensures Valid() && |rd.queue| == |old(rd).queue| + 1 && wr.queue == overflowQueue == []
      ensures |rd.banks| > 0 && ReachedBy(c) && arrived == old(arrived) + [ev]
    {
      Comes(ev, 0, 0, false, 0, c);
    }

    method Crowd(ghost c: nat)
      requires Valid() && queueDepth == 2 && deferredWrites && |rd.queue| == 2 && wr.queue == overflowQueue == []
      requires |rd.banks| > 0 && ReachedBy(c)
      modifies this
      ensures Valid() && Crowded() && |rd.banks| > 0 && ReachedBy(c)
      ensures arrived == old(arrived) + [2, 3] && overflowQueue[1].ev == 3
    {
      Comes(2, 0, 0, true, 0, c);
      Comes(3, 0, 0, false, 0, c);
    }

    /** Run the event until one of them has been served, and the write admitted in the same tick. */
    method MakeRoom(ghost c: nat)
      requires Valid() && Crowded() && ReachedBy(c) && Room(channel.t, c, 6, horizon)
      modifies this, channel
      ensures Valid() && arrived == old(arrived) && overflowQueue == old(overflowQueue)[1..] && !Full()
    {
      RoomMeans(channel.t, c, 6, horizon);
      while Full()
        invariant Valid() && arrived == old(arrived)
        invariant if Full() then Crowded() && overflowQueue == old(overflowQueue) && ReachedBy(c)
                  else overflowQueue == old(overflowQueue)[1..]
        decreases Full(), if nextSchedCycle.At? then horizon + 1 - nextSchedCycle.cycle else 0
      {
        MakeRoomStep(c);
      }
    }

    method MakeRoomStep(ghost c: nat)
      requires Valid() && Crowded() && ReachedBy(c) && c + channel.t.Slack() <= horizon
      modifies this, channel
      ensures Valid() && arrived == old(arrived)
      ensures if Full() then Crowded() && overflowQueue == old(overflowQueue) && ReachedBy(c)
              else overflowQueue == old(overflowQueue)[1..]
      ensures Full() ==> nextSchedCycle.At? && nextSchedCycle.cycle > old(nextSchedCycle).cycle
    {
      ghost var before, cycle := Now(), nextSchedCycle.cycle;
      Simulate(nextSchedEvent, c);
      StillCrowded(before, cycle);
    }

    lemma StillCrowded(before: Load, cycle: nat)
      requires Progress(before, Now(), cycle, nextSchedCycle)
      requires queueDepth == 2 && deferredWrites && |before.rd.queue| == 2 && before.wr.queue == []
      requires |before.overflow| == 2 && before.overflow[0].write
      ensures if Full() then overflowQueue == before.overflow && rd == before.rd && wr == before.wr &&
                             nextSchedCycle.At? && nextSchedCycle.cycle > cycle
              else overflowQueue == before.overflow[1..]
    {
    }

    method DrainStep(ghost reach: nat) returns (ghost reach': nat)
      requires Valid() && nextSchedCycle.At? && nextSchedCycle.cycle <= horizon
      modifies this, channel
      ensures Valid() && arrived == old(arrived)
      ensures Pending() < old(Pending()) ||
              (Pending() == old(Pending()) && nextSchedCycle.At? && nextSchedCycle.cycle > old(nextSchedCycle).cycle)
      ensures old(ReachedBy(reach) && Room(channel.t, reach, Pending(), horizon)) ==>
                ReachedBy(reach') && Room(channel.t, reach', Pending(), horizon)
    {
      ghost var before := Pending();
      Simulate(nextSchedEvent, reach);
      reach' := if Pending() == before then reach else reach + channel.t.Stride();
      if Pending() < before { RoomAfter(channel.t, reach, before, Pending(), horizon); }
    }
  }

  /** The horizon leaves a Stride for each thing that is left to do, and a Slack. */
  ghost predicate Room(t: Timing, reach: nat, pending: nat, horizon: nat) {
    reach + pending * t.Stride() + t.Slack() <= horizon
  }

  lemma RoomAfter(t: Timing, reach: nat, pending: nat, pending': nat, horizon: nat)
    requires pending' < pending
    ensures Room(t, reach, pending, horizon) ==> Room(t, reach + t.Stride(), pending', horizon)
  {
    MulMono(pending' + 1, pending, t.Stride());
    assert (pending' + 1) * t.Stride() == pending' * t.Stride() + t.Stride();
  }

  lemma RoomMeans(t: Timing, reach: nat, pending: nat, horizon: nat)
    ensures Room(t, reach, pending, horizon) ==> reach + t.Slack() <= horizon
  {
    MulMono(0, pending, t.Stride());
  }

  /** A run in which a request is queued while one that came before it waits in the overflow queue. */
  method LaterGoesFirst(clocks: Clocks, t: Timing, rowHitLimit: nat, horizon: nat) returns (m: DDRMemory)
    requires clocks.Valid() && t.Valid() && (2 * horizon + 2) * clocks.sysKHz < WORD64
    requires Room(t, t.tCL + t.tBL + 1, 6, horizon)
    ensures m.Valid() && m.arrived == [0, 1, 2, 3, 4]
    ensures |m.overflowQueue| == 1 && m.overflowQueue[0].ev == 3
    ensures m.rd.queue != [] && m.rd.queue[|m.rd.queue| - 1].ev == 4
  {
    var channel := new Channel(t, [0], 1);
    ghost var c: nat := t.tCL + t.tBL + 1;
    m := new DDRMemory(clocks, 2, rowHitLimit, true, false, channel, horizon);
    assert m.ReachedBy(c);
    m.Overtake(c);
  }

  predicate ListedAt(s: Side, b: nat, k: nat, r: Request) {
    b < |s.banks| && k < |s.banks[b]| && s.banks[b][k] == r
  }

  datatype Stimulus = Arrive(ev: nat, bank: nat, row: nat, write: bool, sysCycle: nat)
                    | Fire(e: nat)
                    | RefreshAt(sysCycle: nat)

  /** As long as the cycles do not overflow, a response at memory cycle resp comes after the system
      cycle in which it was decided. */
  ghost predicate AnswerInTime(c: Clocks, sysCycle: nat, curCycle: nat, resp: nat)
    requires c.Valid()
  {
    (sysCycle * c.memKHz < WORD64 && c.SysToMem(sysCycle) <= curCycle && (resp + 1) * c.sysKHz < WORD64) ==>
      c.MemToSys(resp) >= sysCycle
  }

  lemma AnswersInTime(c: Clocks, sysCycle: nat, curCycle: nat, resp: nat)
    requires c.Valid() && curCycle <= resp
    ensures AnswerInTime(c, sysCycle, curCycle, resp)
  {
    if sysCycle * c.memKHz < WORD64 && c.SysToMem(sysCycle) <= curCycle && (resp + 1) * c.sysKHz < WORD64 {
      AnswerNotInPast(c, sysCycle, resp);
    }
  }

  lemma OneLater(s: Side, limit: nat, next: nat)
    requires SideOk(s, limit, next)
    ensures SideOk(s, limit, next + 1)
  {
  }
}
