/** The order of a bank queue: first-ready, first-come-first-served, with a cap on row hits
    (DDRMemory::queue in zsim/src/ddr_mem.cpp). */
module FrFcfs {
  import opened IntrusiveList

  /** id numbers the requests in the order in which they are queued; bank counts over all the ranks; ev
      is the access event to answer, and answered tells that it has been (the source's null ev). */
  datatype Request = Request(id: nat, ev: nat, answered: bool, bank: nat, row: nat, write: bool, rowHitSeq: nat,
                             arrivalCycle: nat)

  /** What queueing looks at beside the queue itself. */
  datatype RowState = RowState(open: bool, openRow: nat, curRowHits: nat)

  // ----- where a request goes -----

  /** One more than the index of the last of the first n requests to this row; 0 if there is none. */
  function LastAmong(q: seq<Request>, row: nat, n: nat): (k: nat)
    requires n <= |q|
    ensures k <= n
    ensures k > 0 ==> q[k - 1].row == row
    ensures forall i :: k <= i < n ==> q[i].row != row
  {
    if n == 0 then 0 else if q[n - 1].row == row then n else LastAmong(q, row, n - 1)
  }

  function LastSameRow(q: seq<Request>, row: nat): (k: nat)
    ensures k <= |q|
    ensures k > 0 ==> q[k - 1].row == row
    ensures forall i :: k <= i < |q| ==> q[i].row != row
  {
    LastAmong(q, row, |q|)
  }

  /** The row is open and nobody is ahead: the request counts as one more hit. */
  predicate Bypasses(q: seq<Request>, r: Request, b: RowState, limit: nat) {
    b.open && r.row == b.openRow && b.curRowHits < limit && q == []
  }

  function Place(q: seq<Request>, r: Request, limit: nat): (p: nat)
    ensures p <= |q|
  {
    var k := LastSameRow(q, r.row);
    if k > 0 && q[k - 1].rowHitSeq < limit then k else |q|
  }

  function HitSeq(q: seq<Request>, r: Request, b: RowState, limit: nat): (s: nat)
    ensures s <= limit
  {
    var k := LastSameRow(q, r.row);
    if k > 0 then if q[k - 1].rowHitSeq < limit then q[k - 1].rowHitSeq + 1 else 0
    else if Bypasses(q, r, b, limit) then b.curRowHits + 1
    else 0
  }

  function Splice<T>(q: seq<T>, p: nat, e: T): (q': seq<T>)
    requires p <= |q|
    ensures |q'| == |q| + 1
    ensures forall i :: 0 <= i <= |q| ==> q'[i] == if i < p then q[i] else if i == p then e else q[i - 1]
  {
    q[..p] + [e] + q[p..]
  }

  function Inserted(q: seq<Request>, r: Request, b: RowState, limit: nat): (q': seq<Request>)
    ensures |q'| == |q| + 1
  {
    Splice(q, Place(q, r, limit), r.(rowHitSeq := HitSeq(q, r, b, limit)))
  }

  // ----- chains of row hits -----

  /** Request i starts a chain, or carries on the one of the request before it. */
  ghost predicate Chained(q: seq<Request>, limit: nat, i: nat)
    requires i < |q|
  {
    && q[i].rowHitSeq <= limit
    && (i > 0 && q[i].rowHitSeq > 0 ==> q[i - 1].row == q[i].row && q[i].rowHitSeq == q[i - 1].rowHitSeq + 1)
  }

  /** Same-row requests stand in order of arrival. */
  ghost predicate RowsInOrder(q: seq<Request>) {
    forall i, j :: 0 <= i < j < |q| && q[i].row == q[j].row ==> q[i].id < q[j].id
  }

  ghost predicate QueueOk(q: seq<Request>, limit: nat) {
    && (forall i :: 0 <= i < |q| ==> Chained(q, limit, i))
    && RowsInOrder(q)
  }

  ghost predicate Newest(q: seq<Request>, r: Request) { forall i :: 0 <= i < |q| ==> q[i].id < r.id }

  /** An arrival keeps the chains whole and each row in order of arrival. */
  lemma InsertedOk(q: seq<Request>, r: Request, b: RowState, limit: nat)
    requires QueueOk(q, limit) && Newest(q, r)
    ensures QueueOk(Inserted(q, r, b, limit), limit)
  {
    var p, q' := Place(q, r, limit), Inserted(q, r, b, limit);
    forall i | 0 <= i < |q'| ensures Chained(q', limit, i) {
      assert i < p ==> Chained(q, limit, i);
      assert i > p ==> Chained(q, limit, i - 1);
    }
  }

  /** Which of the queued requests a new one overtakes: those behind the last one to its row, if that one's
      chain of hits is not full; nobody otherwise. */
  lemma Overtakes(q: seq<Request>, r: Request, b: RowState, limit: nat, i: nat)
    requires i < |q|
    ensures Inserted(q, r, b, limit)[i] == q[i] || Inserted(q, r, b, limit)[i + 1] == q[i]
    ensures Place(q, r, limit) <= i <==>
              exists j :: 0 <= j < i && q[j].row == r.row && q[j].rowHitSeq < limit && LastToRow(q, j)
  {
    var k := LastSameRow(q, r.row);
    if Place(q, r, limit) <= i { assert LastToRow(q, k - 1); }
  }

  predicate LastToRow(q: seq<Request>, j: nat)
    requires j < |q|
  {
    forall i :: j < i < |q| ==> q[i].row != q[j].row
  }

  lemma ServedOk(q: seq<Request>, limit: nat)
    requires q != [] && QueueOk(q, limit)
    ensures QueueOk(q[1..], limit)
  {
    forall i | 0 <= i < |q[1..]| ensures Chained(q[1..], limit, i) { assert Chained(q, limit, i + 1); }
  }

  /** Nothing but the new request comes into the queue. */
  lemma InsertedMultiset(q: seq<Request>, r: Request, b: RowState, limit: nat)
    ensures multiset(Inserted(q, r, b, limit)) == multiset(q) + multiset{r.(rowHitSeq := HitSeq(q, r, b, limit))}
  {
    var p := Place(q, r, limit);
    assert q == q[..p] + q[p..];
  }

  // ----- bounded bypass -----

  /** How many chains start in s. */
  function Starts(s: seq<Request>): nat {
    if s == [] then 0 else Starts(s[..|s| - 1]) + if s[|s| - 1].rowHitSeq == 0 then 1 else 0
  }

  /** How many requests can still be served before the one at p, if every chain ahead of it fills up. */
  function Ahead(q: seq<Request>, p: nat, limit: nat): int
    requires p < |q|
  {
    Starts(q[1..p + 1]) * (limit + 1) + q[p].rowHitSeq - q[0].rowHitSeq
  }

  lemma {:induction false} StartsConcat(s: seq<Request>, t: seq<Request>)
    ensures Starts(s + t) == Starts(s) + Starts(t)
  {
    if t == [] {
      assert s + t == s;
    } else {
      StartsConcat(s, t[..|t| - 1]);
      assert (s + t)[..|s + t| - 1] == s + t[..|t| - 1];
    }
  }

  lemma {:induction false} OneChainAlone(q: seq<Request>, p: nat, limit: nat)
    requires QueueOk(q, limit) && p < |q| && Starts(q[1..p + 1]) == 0
    ensures q[p].rowHitSeq == q[0].rowHitSeq + p
  {
    if p > 0 {
      assert q[1..p + 1][..p - 1] == q[1..p];
      assert q[1..p + 1][p - 1] == q[p];
      assert Chained(q, limit, p);
      OneChainAlone(q, p - 1, limit);
    }
  }

  lemma AheadIsNatural(q: seq<Request>, p: nat, limit: nat)
    requires QueueOk(q, limit) && p < |q|
    ensures Ahead(q, p, limit) >= 0
    ensures p > 0 ==> Ahead(q, p, limit) > 0
  {
    assert Chained(q, limit, 0);
    if Starts(q[1..p + 1]) == 0 {
      OneChainAlone(q, p, limit);
    } else {
      assert Starts(q[1..p + 1]) * (limit + 1) >= limit + 1;
    }
  }

  lemma SpliceStarts(q: seq<Request>, k: nat, e: Request, p: nat)
    requires 0 < k <= p < |q| && e.rowHitSeq > 0
    ensures Starts(Splice(q, k, e)[1..p + 2]) == Starts(q[1..p + 1])
  {
    var u, v := q[1..k], q[k..p + 1];
    SpliceSlice(q, k, e, p);
    assert q[1..p + 1] == u + v;
    StartsConcat(u, [e] + v);
    StartsConcat([e], v);
    StartsConcat(u, v);
    assert [e][..0] == [];
  }

  lemma SpliceSlice(q: seq<Request>, k: nat, e: Request, p: nat)
    requires 0 < k <= p < |q|
    ensures Splice(q, k, e)[1..p + 2] == q[1..k] + ([e] + q[k..p + 1])
  {
    var s := Splice(q, k, e)[1..p + 2];
    forall i | 0 <= i < p + 1
      ensures s[i] == (q[1..k] + ([e] + q[k..p + 1]))[i]
    {
      assert s[i] == Splice(q, k, e)[i + 1];
    }
  }

  /** An arrival lets nobody else overtake the request at p. */
  lemma ArrivalKeepsAhead(q: seq<Request>, p: nat, r: Request, b: RowState, limit: nat)
    requires QueueOk(q, limit) && p < |q|
    ensures var p' := if Place(q, r, limit) <= p then p + 1 else p;
            Inserted(q, r, b, limit)[p'] == q[p] && Ahead(Inserted(q, r, b, limit), p', limit) == Ahead(q, p, limit)
  {
    var k, e := Place(q, r, limit), r.(rowHitSeq := HitSeq(q, r, b, limit));
    if k <= p {
      SpliceStarts(q, k, e, p);
    } else {
      assert Splice(q, k, e)[1..p + 1] == q[1..p + 1];
    }
  }

  /** Serving the first request lets one less go before the others. */
  lemma ServiceLowersAhead(q: seq<Request>, p: nat, limit: nat)
    requires QueueOk(q, limit) && 0 < p < |q|
    ensures Ahead(q[1..], p - 1, limit) < Ahead(q, p, limit)
  {
    assert q[1..p + 1] == [q[1]] + q[2..p + 1];
    assert q[1..][1..p] == q[2..p + 1];
    StartsConcat([q[1]], q[2..p + 1]);
    assert [q[1]][..0] == [];
    assert Chained(q, limit, 0) && Chained(q, limit, 1);
    if q[1].rowHitSeq == 0 {
      assert Starts(q[1..p + 1]) * (limit + 1) == Starts(q[2..p + 1]) * (limit + 1) + (limit + 1);
    }
  }

  /** What happens to a bank queue: a request comes, or the first one is served. */
  datatype Event = Arrival(r: Request, b: RowState) | Service

  /** How many requests are served before the one at p in this run. */
  function ServedBefore(q: seq<Request>, p: nat, run: seq<Event>, limit: nat): nat
    requires p < |q|
    decreases |run|
  {
    if run == [] then 0
    else match run[0]
      case Arrival(r, b) =>
        ServedBefore(Inserted(q, r, b, limit), if Place(q, r, limit) <= p then p + 1 else p, run[1..], limit)
      case Service =>
        if p == 0 then 0 else 1 + ServedBefore(q[1..], p - 1, run[1..], limit)
  }

  /** If nothing else arrives, the request at p is served once the p before it are. */
  lemma {:induction false} ServicesOnly(q: seq<Request>, p: nat, run: seq<Event>, limit: nat)
    requires p < |q| && forall i :: 0 <= i < |run| ==> run[i] == Service
    ensures ServedBefore(q, p, run, limit) == if |run| < p then |run| else p
    decreases |run|
  {
    if run != [] && p > 0 {
      assert run[0] == Service;
      ServicesOnly(q[1..], p - 1, run[1..], limit);
    }
  }

  /** Ids grow with arrivals. */
  ghost predicate InArrivalOrder(q: seq<Request>, run: seq<Event>) {
    && (forall i :: 0 <= i < |run| && run[i].Arrival? ==> Newest(q, run[i].r))
    && (forall i, j :: 0 <= i < j < |run| && run[i].Arrival? && run[j].Arrival? ==> run[i].r.id < run[j].r.id)
  }

  lemma ArrivesInOrder(q: seq<Request>, run: seq<Event>, limit: nat)
    requires run != [] && InArrivalOrder(q, run)
    ensures run[0].Arrival? ==> InArrivalOrder(Inserted(q, run[0].r, run[0].b, limit), run[1..])
    ensures run[0].Service? && q != [] ==> InArrivalOrder(q[1..], run[1..])
  {
    var rest := run[1..];
    assert forall i :: 0 <= i < |rest| ==> rest[i] == run[i + 1];
    if run[0].Arrival? {
      var q' := Inserted(q, run[0].r, run[0].b, limit);
      forall i | 0 <= i < |rest| && rest[i].Arrival? ensures Newest(q', rest[i].r) { assert Newest(q, run[i + 1].r); }
    }
  }

  lemma {:induction false} AheadBounds(q: seq<Request>, p: nat, run: seq<Event>, limit: nat)
    requires QueueOk(q, limit) && p < |q| && InArrivalOrder(q, run)
    ensures ServedBefore(q, p, run, limit) <= Ahead(q, p, limit)
    decreases |run|
  {
    AheadIsNatural(q, p, limit);
    if run != [] {
      ArrivesInOrder(q, run, limit);
      match run[0]
      case Arrival(r, b) =>
        var p' := if Place(q, r, limit) <= p then p + 1 else p;
        InsertedOk(q, r, b, limit);
        ArrivalKeepsAhead(q, p, r, b, limit);
        AheadBounds(Inserted(q, r, b, limit), p', run[1..], limit);
      case Service =>
        if p > 0 {
          ServedOk(q, limit);
          ServiceLowersAhead(q, p, limit);
          AheadBounds(q[1..], p - 1, run[1..], limit);
        }
    }
  }

  /** The chains that stand before index p; the first of them may be partly served. */
  function ChainsAhead(q: seq<Request>, p: nat): nat
    requires p <= |q|
  {
    if p == 0 then 0 else 1 + Starts(q[1..p])
  }

  /** Bypass is bounded: whatever comes after it, a request that joins a queue waits for at most
      limit + 1 requests for every chain that stood before it. */
  lemma BoundedBypass(q: seq<Request>, r: Request, b: RowState, run: seq<Event>, limit: nat)
    requires QueueOk(q, limit) && InArrivalOrder(q, [Arrival(r, b)] + run)
    ensures var p := Place(q, r, limit);
            ServedBefore(Inserted(q, r, b, limit), p, run, limit) <= ChainsAhead(q, p) * (limit + 1)
  {
    var p, q' := Place(q, r, limit), Inserted(q, r, b, limit);
    var all := [Arrival(r, b)] + run;
    assert all[0] == Arrival(r, b) && forall i :: 0 <= i < |run| ==> run[i] == all[i + 1];
    InsertedOk(q, r, b, limit);
    AheadBounds(q', p, run, limit);
    AheadAtArrival(q, r, b, limit);
  }

  lemma AheadAtArrival(q: seq<Request>, r: Request, b: RowState, limit: nat)
    ensures var p := Place(q, r, limit); Ahead(Inserted(q, r, b, limit), p, limit) <= ChainsAhead(q, p) * (limit + 1)
  {
    var p, q' := Place(q, r, limit), Inserted(q, r, b, limit);
    if p > 0 {
      var e := q'[p];
      assert q'[1..p + 1] == q[1..p] + [e];
      StartsConcat(q[1..p], [e]);
      assert [e][..0] == [];
      var n := Starts(q[1..p]);
      assert (n + 1) * (limit + 1) == n * (limit + 1) + (limit + 1);
    } else {
      assert q'[1..1] == [];
    }
  }

  /** A bank queue after a history of arrivals and services. */
  function Replayed(history: seq<Event>, limit: nat): seq<Request> {
    if history == [] then []
    else
      var q := Replayed(history[..|history| - 1], limit);
      match history[|history| - 1]
      case Arrival(r, b) => Inserted(q, r, b, limit)
      case Service => if q == [] then [] else q[1..]
  }

  lemma ReplayedOneMore(history: seq<Event>, e: Event, limit: nat)
    ensures Replayed(history + [e], limit) ==
              var q := Replayed(history, limit);
              match e
              case Arrival(r, b) => Inserted(q, r, b, limit)
              case Service => if q == [] then [] else q[1..]
  {
    assert (history + [e])[..|history|] == history;
  }

  /** Requests with numbers below id only. */
  ghost predicate ArrivedBefore(history: seq<Event>, id: nat) {
    forall i :: 0 <= i < |history| && history[i].Arrival? ==> history[i].r.id < id
  }

  lemma {:induction false} ReplayedBefore(history: seq<Event>, limit: nat, r: Request)
    requires ArrivedBefore(history, r.id)
    ensures Newest(Replayed(history, limit), r)
  {
    if history != [] {
      ReplayedBefore(history[..|history| - 1], limit, r);
    }
  }

  lemma {:induction false} ReplayedOk(history: seq<Event>, limit: nat)
    requires InArrivalOrder([], history)
    ensures QueueOk(Replayed(history, limit), limit)
  {
    if history != [] {
      var before, e := history[..|history| - 1], history[|history| - 1];
      ReplayedOk(before, limit);
      if e.Arrival? {
        ReplayedBefore(before, limit, e.r);
        InsertedOk(Replayed(before, limit), e.r, e.b, limit);
      } else if Replayed(before, limit) != [] {
        ServedOk(Replayed(before, limit), limit);
      }
    }
  }

  /** At most (chains ahead of its place) * (limit + 1) requests go before arrival k of this history. */
  ghost predicate BypassBounded(history: seq<Event>, k: nat, limit: nat)
    requires k < |history| && history[k].Arrival?
  {
    var q, r := Replayed(history[..k], limit), history[k].r;
    var p := Place(q, r, limit);
    && Inserted(q, r, history[k].b, limit) == Replayed(history[..k + 1], limit)
    && ServedBefore(Replayed(history[..k + 1], limit), p, history[k + 1..], limit) <= ChainsAhead(q, p) * (limit + 1)
  }

  /** Bounded bypass for any arrival in any history of a bank queue. */
  lemma BoundedInHistory(history: seq<Event>, k: nat, limit: nat)
    requires InArrivalOrder([], history) && k < |history| && history[k].Arrival?
    ensures BypassBounded(history, k, limit)
  {
    var q, r, b, rest := Replayed(history[..k], limit), history[k].r, history[k].b, history[k + 1..];
    ReplayedOk(history[..k], limit);
    var all := [Arrival(r, b)] + rest;
    forall i | 0 <= i < |all| ensures all[i] == history[k + i] {}
    forall i | 0 <= i < |all| && all[i].Arrival? ensures Newest(q, all[i].r) {
      assert all[i] == history[k + i];
      ReplayedBefore(history[..k], limit, all[i].r);
    }
    assert InArrivalOrder(q, all) by {
      forall i, j | 0 <= i < j < |all| && all[i].Arrival? && all[j].Arrival? ensures all[i].r.id < all[j].r.id {
        assert all[i] == history[k + i] && all[j] == history[k + j];
      }
    }
    BoundedBypass(q, r, b, rest, limit);
    assert history[..k + 1][..k] == history[..k];
  }

  // ----- the list -----

  function Elems(ns: seq<Node<Request>>): (s: seq<Request>)
    ensures |s| == |ns| && forall i :: 0 <= i < |s| ==> s[i] == ns[i].elem
  {
    seq(|ns|, i requires 0 <= i < |ns| => ns[i].elem)
  }

  /** The scan of DDRMemory::queue from the back of the list for the last request to the row. */
  method FindSameRow(q: InList<Request>, row: nat) returns (m: Node?<Request>)
    requires q.Valid()
    ensures m == if LastSameRow(Elems(q.nodes), row) == 0 then null else q.nodes[LastSameRow(Elems(q.nodes), row) - 1]
  {
    ghost var s, i := Elems(q.nodes), |q.nodes|;
    m := q.Back();
    while m != null
      invariant 0 <= i <= |s| && m == (if i == 0 then null else q.nodes[i - 1])
      invariant forall j :: i <= j < |s| ==> s[j].row != row
      decreases i
    {
      if m.elem.row == row {
        LastIs(s, row, i);
        return;
      }
      assert q.Linked(q.nodes, i - 1);
      m, i := m.prev, i - 1;
    }
    LastIs(s, row, 0);
  }

  lemma LastIs(s: seq<Request>, row: nat, k: nat)
    requires k <= |s| && (k > 0 ==> s[k - 1].row == row)
    requires forall j :: k <= j < |s| ==> s[j].row != row
    ensures LastSameRow(s, row) == k
  {
  }

  /** DDRMemory::queue, the part that orders. */
  method Queue(q: InList<Request>, r: Request, b: RowState, limit: nat)
    requires q.Valid()
    modifies q, q.nodes`prev, q.nodes`next
    ensures q.Valid() && Elems(q.nodes) == Inserted(Elems(old(q.nodes)), r, b, limit)
  {
    var m := FindSameRow(q, r.row);
    if m != null { QueueHit(q, m, r, b, limit); } else { QueueMiss(q, r, b, limit); }
  }

  /** There is a request to the same row, of which m is the last: queue after it, or last of all to get
      some fairness. */
  method QueueHit(q: InList<Request>, m: Node<Request>, r: Request, ghost b: RowState, limit: nat)
    requires q.Valid() && LastSameRow(Elems(q.nodes), r.row) > 0 && m == q.nodes[LastSameRow(Elems(q.nodes), r.row) - 1]
    modifies q, q.nodes`prev, q.nodes`next
    ensures q.Valid() && Elems(q.nodes) == Inserted(Elems(old(q.nodes)), r, b, limit)
  {
    ghost var s, k := Elems(q.nodes), LastSameRow(Elems(q.nodes), r.row);
    assert s[k - 1] == m.elem;
    if m.elem.rowHitSeq < limit {
      var e := r.(rowHitSeq := m.elem.rowHitSeq + 1);
      InsertedAfterHit(s, r, b, limit, k, e);
      QueueAfter(q, m, e, k);
    } else {
      var e := r.(rowHitSeq := 0);
      InsertedAfterHit(s, r, b, limit, k, e);
      QueueLast(q, e);
    }
  }

  lemma InsertedAfterHit(s: seq<Request>, r: Request, b: RowState, limit: nat, k: nat, e: Request)
    requires k == LastSameRow(s, r.row) && k > 0
    requires e == r.(rowHitSeq := if s[k - 1].rowHitSeq < limit then s[k - 1].rowHitSeq + 1 else 0)
    ensures Inserted(s, r, b, limit) == Splice(s, if s[k - 1].rowHitSeq < limit then k else |s|, e)
  {
    assert e.rowHitSeq == HitSeq(s, r, b, limit);
    assert e == r.(rowHitSeq := HitSeq(s, r, b, limit));
  }

  /** No match: bypass to the front only if the row is open and the queue empty. */
  method QueueMiss(q: InList<Request>, r: Request, b: RowState, limit: nat)
    requires q.Valid() && LastSameRow(Elems(q.nodes), r.row) == 0
    modifies q, q.nodes`prev, q.nodes`next
    ensures q.Valid() && Elems(q.nodes) == Inserted(Elems(old(q.nodes)), r, b, limit)
  {
    ghost var s := Elems(q.nodes);
    assert q.Empty() <==> |s| == 0;
    if b.open && r.row == b.openRow && b.curRowHits < limit && q.Empty() {
      assert s == [] && Bypasses(s, r, b, limit);
      QueueFirst(q, r.(rowHitSeq := b.curRowHits + 1));
    } else {
      assert !Bypasses(s, r, b, limit);
      QueueLast(q, r.(rowHitSeq := 0));
    }
  }

  method QueueFirst(q: InList<Request>, r: Request)
    requires q.Valid()
    modifies q, q.nodes`prev, q.nodes`next
    ensures q.Valid() && Elems(q.nodes) == Splice(Elems(old(q.nodes)), 0, r)
  {
    var e := new Node<Request>(r);
    q.PushFront(e);
  }

  method QueueLast(q: InList<Request>, r: Request)
    requires q.Valid()
    modifies q, q.nodes`prev, q.nodes`next
    ensures q.Valid() && Elems(q.nodes) == Splice(Elems(old(q.nodes)), |old(q.nodes)|, r)
  {
    var e := new Node<Request>(r);
    q.PushBack(e);
  }

  method QueueAfter(q: InList<Request>, m: Node<Request>, r: Request, ghost k: nat)
    requires q.Valid() && 0 < k <= |q.nodes| && q.nodes[k - 1] == m
    modifies q, q.nodes`prev, q.nodes`next
    ensures q.Valid() && Elems(q.nodes) == Splice(Elems(old(q.nodes)), k, r)
  {
    ghost var was := q.nodes;
    var e := new Node<Request>(r);
    q.InsertAfter(m, e);
    InsertedAfter(was, q.nodes, m, e, k);
  }

  lemma InsertedAfter(was: seq<Node<Request>>, ns: seq<Node<Request>>, m: Node<Request>, e: Node<Request>, k: nat)
    requires NoRepeats(was) && 0 < k <= |was| && was[k - 1] == m
    requires exists i :: 0 <= i < |was| && was[i] == m && ns == was[..i + 1] + [e] + was[i + 1..]
    ensures Elems(ns) == Splice(Elems(was), k, e.elem)
  {
    assert ns == was[..k] + [e] + was[k..];
  }
}
