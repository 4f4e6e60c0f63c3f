/** The fair read-write mutex of zsim/src/mutex.h, as a state machine over its atomic steps.

    Each lock, unlock and fetch-and-add of the source is one step.  Any number of threads
    run the operations in any interleaving; a thread that needs a lock somebody holds simply
    cannot take its step. */
module RwMutex {
  import opened Counting

  type Tid = nat

  const WORD: nat := 0x1_0000_0000  // readers is a uint32_t

  /** Where a thread stands inside the operations of the mutex. */
  datatype Pc =
    | Outside
    | RdWaitRb              // rdLock: about to take rb
    | RdXadd                // rdLock: holds rb, about to count itself
    | RdWaitWq              // rdLock: first reader, holds rb, about to take wq
    | RdDropRb              // rdLock: admitted, the end of the scope releases rb
    | Reading
    | RdDropWq(upgrading: bool)  // rdUnlock: last reader, about to release wq
    | WrWaitRb              // wrLock: about to take rb
    | WrWaitWq              // wrLock: holds rb, about to take wq
    | WrDropRb              // wrLock: admitted, the end of the scope releases rb
    | Writing
    | DgDropWq              // downgrade, case 3: about to release wq

  datatype Op = RdLock | RdUnlock | WrLock | WrUnlock | Upgrade | Downgrade | Continue

  datatype Option<+T> = None | Some(value: T)

  /** On whose behalf wq is held. */
  datatype Holder = Nobody | Thread(t: Tid) | Readers

  /** What the steps did so far; no step reads it.  `writes` counts admissions of writers,
      `seen[t]` is its value when t was last admitted as a reader or began to downgrade. */
  datatype History = History(rbBy: Option<Tid>, wqBy: Holder, writes: nat, seen: map<Tid, nat>)

  datatype State = State(wq: bool, rb: bool, readers: nat, pc: map<Tid, Pc>, h: History)

  function Xadd(readers: nat, v: int): nat { (readers + v) % WORD }

  /** Admitted to a read section. */
  predicate InRead(p: Pc) { p.RdDropRb? || p.Reading? }

  /** Admitted to a write section. */
  predicate InWrite(p: Pc) { p.WrDropRb? || p.Writing? }

  /** The step of thread t, or None if t is blocked or `op` is not what t may do now. */
  function Next(s: State, t: Tid, op: Op): (r: Option<State>)
    requires t in s.pc
    ensures r.Some? ==> t in r.value.pc && r.value.pc == s.pc[t := r.value.pc[t]]  // only t moves
  {
    var h := s.h;
    match s.pc[t]
    case Outside =>
      if op.RdLock? then Some(s.(pc := s.pc[t := RdWaitRb]))
      else if op.WrLock? then Some(s.(pc := s.pc[t := WrWaitRb]))
      else None
    case RdWaitRb =>
      if !op.Continue? || s.rb then None
      else Some(s.(rb := true, pc := s.pc[t := RdXadd], h := h.(rbBy := Some(t))))
    case RdXadd =>
      if !op.Continue? then None
      else if s.readers == 0 then Some(s.(readers := Xadd(s.readers, 1), pc := s.pc[t := RdWaitWq]))
      else Some(s.(readers := Xadd(s.readers, 1), pc := s.pc[t := RdDropRb],
                   h := h.(seen := h.seen[t := h.writes])))
    case RdWaitWq =>
      if !op.Continue? || s.wq then None
      else Some(s.(wq := true, pc := s.pc[t := RdDropRb],
                   h := h.(wqBy := Readers, seen := h.seen[t := h.writes])))
    case RdDropRb =>
      if !op.Continue? then None
      else Some(s.(rb := false, pc := s.pc[t := Reading], h := h.(rbBy := None)))
    case Reading =>
      if op.RdUnlock? then Some(LeaveRead(s, t, RdDropWq(false), Outside))
      else if op.Upgrade? then Some(LeaveRead(s, t, RdDropWq(true), WrWaitRb))
      else None
    case RdDropWq(upgrading) =>
      if !op.Continue? then None
      else Some(s.(wq := false, pc := s.pc[t := if upgrading then WrWaitRb else Outside], h := h.(wqBy := Nobody)))
    case WrWaitRb =>
      if !op.Continue? || s.rb then None
      else Some(s.(rb := true, pc := s.pc[t := WrWaitWq], h := h.(rbBy := Some(t))))
    case WrWaitWq =>
      if !op.Continue? || s.wq then None
      else Some(s.(wq := true, pc := s.pc[t := WrDropRb], h := h.(wqBy := Thread(t), writes := h.writes + 1)))
    case WrDropRb =>
      if !op.Continue? then None
      else Some(s.(rb := false, pc := s.pc[t := Writing], h := h.(rbBy := None)))
    case Writing =>
      if op.WrUnlock? then Some(s.(wq := false, pc := s.pc[t := Outside], h := h.(wqBy := Nobody)))
      else if !op.Downgrade? then None
      else if s.readers == 0 then
        Some(s.(readers := Xadd(s.readers, 1), pc := s.pc[t := Reading],
                h := h.(wqBy := Readers, seen := h.seen[t := h.writes])))
      else
        Some(s.(readers := Xadd(s.readers, 1), pc := s.pc[t := DgDropWq],
                h := h.(seen := h.seen[t := h.writes])))
    case DgDropWq =>
      if !op.Continue? then None
      else Some(s.(wq := false, pc := s.pc[t := Reading], h := h.(wqBy := Nobody)))
  }

  /** rdUnlock's fetch-and-add: the last reader goes on to release wq. */
  function LeaveRead(s: State, t: Tid, last: Pc, other: Pc): State {
    if s.readers == 1 then
      s.(readers := Xadd(s.readers, -1), pc := s.pc[t := last], h := s.h.(wqBy := Thread(t)))
    else
      s.(readers := Xadd(s.readers, -1), pc := s.pc[t := other])
  }

  ghost predicate Initial(s: State) {
    && !s.wq && !s.rb && s.readers == 0
    && |s.pc| < WORD
    && (forall t <- s.pc :: s.pc[t] == Outside)
    && s.h == History(None, Nobody, 0, map[])
  }

  /** A run: the state after taking, in order, every step of the schedule that is enabled. */
  function Run(s: State, schedule: seq<(Tid, Op)>): State
    decreases |schedule|
  {
    if schedule == [] then s
    else
      var before := Run(s, schedule[..|schedule| - 1]);
      var (t, op) := schedule[|schedule| - 1];
      if t !in before.pc then before
      else
        match Next(before, t, op)
        case None => before
        case Some(after) => after
  }

  // ----- the invariant -----

  predicate HoldsRb(p: Pc) { p.RdXadd? || p.RdWaitWq? || p.RdDropRb? || p.WrWaitWq? || p.WrDropRb? }

  predicate Counted(p: Pc) { p.RdWaitWq? || p.RdDropRb? || p.Reading? || p.DgDropWq? }

  /** Holds wq on its own behalf. */
  predicate Exclusive(p: Pc) { InWrite(p) || p.DgDropWq? || p.RdDropWq? }

  ghost function CountedSet(pc: map<Tid, Pc>): set<Tid> { set t | t in pc && Counted(pc[t]) }

  /** A reader holds rb and is blocked on wq. */
  predicate ReaderQueued(s: State) {
    s.h.rbBy.Some? && s.h.rbBy.value in s.pc && s.pc[s.h.rbBy.value].RdWaitWq?
  }

  ghost predicate Inv(s: State) {
    && |s.pc| < WORD
    && s.readers == |CountedSet(s.pc)|
    && (s.rb <==> s.h.rbBy.Some?)
    && (s.wq <==> !s.h.wqBy.Nobody?)
    && (s.h.rbBy.Some? ==> s.h.rbBy.value in s.pc)
    && (s.h.wqBy.Thread? ==> s.h.wqBy.t in s.pc)
    && (s.h.wqBy.Readers? ==> s.readers > 0 && !ReaderQueued(s))
    && (forall t :: t in s.pc ==> ThreadInv(s, t, s.pc[t]))
  }

  ghost predicate ThreadInv(s: State, t: Tid, p: Pc) {
    && (HoldsRb(p) <==> s.h.rbBy == Some(t))
    && (Exclusive(p) <==> s.h.wqBy == Thread(t))
    && (InRead(p) ==> s.h.wqBy.Readers? || (s.h.wqBy.Nobody? && ReaderQueued(s)))
    && (p.DgDropWq? ==> ReaderQueued(s))
    && (InRead(p) || p.DgDropWq? ==> t in s.h.seen && s.h.seen[t] == s.h.writes)
  }

  lemma CountedAfter(pc: map<Tid, Pc>, t: Tid, p: Pc)
    requires t in pc
    ensures |CountedSet(pc[t := p])| ==
            |CountedSet(pc)| + (if Counted(p) then 1 else 0) - (if Counted(pc[t]) then 1 else 0)
  {
    var a, b := CountedSet(pc), CountedSet(pc[t := p]);
    if Counted(p) && !Counted(pc[t]) {
      assert b == a + {t};
    } else if !Counted(p) && Counted(pc[t]) {
      assert b == a - {t};
    } else {
      assert b == a;
    }
  }

  lemma CountedBound(pc: map<Tid, Pc>, t: Tid)
    requires t in pc
    ensures |CountedSet(pc)| <= |pc|
    ensures !Counted(pc[t]) ==> |CountedSet(pc)| < |pc|
    ensures |CountedSet(pc)| == 0 ==> CountedSet(pc) == {}
    ensures |CountedSet(pc)| == 1 && Counted(pc[t]) ==> CountedSet(pc) == {t}
    ensures Counted(pc[t]) ==> |CountedSet(pc)| > 0
  {
    var c := CountedSet(pc);
    SubsetSize(c, pc.Keys);
    if Counted(pc[t]) {
      assert c == {t} + (c - {t});
    } else {
      SubsetSize(c, pc.Keys - {t});
    }
  }

  /** readers is always the number of threads that counted themselves: the word never wraps. */
  lemma ReadersStayExact(s: State, t: Tid, op: Op, s': State)
    requires Inv(s) && t in s.pc && Next(s, t, op) == Some(s')
    ensures s'.readers == |CountedSet(s'.pc)|
  {
    CountedAfter(s.pc, t, s'.pc[t]);
    CountedBound(s.pc, t);
  }

  /** Case 3 of downgrade: the source asserts that the count it finds is 0 or 1. */
  lemma DowngradeFindsAtMostOneReader(s: State, t: Tid)
    requires Inv(s) && t in s.pc && s.pc[t].Writing?
    ensures s.readers <= 1
    ensures s.readers == 1 <==> ReaderQueued(s)
  {
    var c := CountedSet(s.pc);
    CountedBound(s.pc, t);
    if ReaderQueued(s) {
      var r := s.h.rbBy.value;
      assert r in c;
    }
    if c != {} {
      var u :| u in c;
      assert ThreadInv(s, u, s.pc[u]) && s.pc[u].RdWaitWq?;
      assert c == {u} by {
        forall v | v in c ensures v == u { assert ThreadInv(s, v, s.pc[v]); }
      }
    }
  }

  /** While somebody has counted itself and no reader is queued, the readers hold wq. */
  lemma CountedMeansReadersHold(s: State, t: Tid)
    requires Inv(s) && t in s.pc && s.pc[t].RdXadd? && s.readers > 0
    ensures s.h.wqBy.Readers?
  {
    var v :| v in CountedSet(s.pc);
    assert ThreadInv(s, v, s.pc[v]) && ThreadInv(s, t, s.pc[t]);
  }

  lemma OthersUnaffected(s: State, t: Tid, op: Op, u: Tid, s': State)
    requires Inv(s) && t in s.pc && u in s.pc && u != t && Next(s, t, op) == Some(s')
    ensures ThreadInv(s', u, s.pc[u])
  {
    assert ThreadInv(s, t, s.pc[t]) && ThreadInv(s, u, s.pc[u]);
    CountedBound(s.pc, t);
    assert Counted(s.pc[u]) ==> u in CountedSet(s.pc);
    if s.pc[t].Writing? {
      DowngradeFindsAtMostOneReader(s, t);
    } else if s.pc[t].RdXadd? && s.readers > 0 {
      CountedMeansReadersHold(s, t);
    }
  }

  /** The operations of a reader, before it is done reading. */
  predicate ReaderSide(p: Pc) { p.RdWaitRb? || p.RdXadd? || p.RdWaitWq? || p.RdDropRb? || p.Reading? || p.RdDropWq? }

  lemma OwnReadStep(s: State, t: Tid, op: Op, s': State)
    requires Inv(s) && t in s.pc && ReaderSide(s.pc[t]) && Next(s, t, op) == Some(s')
    ensures ThreadInv(s', t, s'.pc[t])
  {
    assert ThreadInv(s, t, s.pc[t]);
    if s.pc[t].RdXadd? && s.readers > 0 {
      CountedMeansReadersHold(s, t);
    }
  }

  lemma OwnWriteStep(s: State, t: Tid, op: Op, s': State)
    requires Inv(s) && t in s.pc && !ReaderSide(s.pc[t]) && Next(s, t, op) == Some(s')
    ensures ThreadInv(s', t, s'.pc[t])
  {
    assert ThreadInv(s, t, s.pc[t]);
    if s.pc[t].Writing? {
      DowngradeFindsAtMostOneReader(s, t);
    }
  }

  lemma QueuedReaderIsCounted(s: State, t: Tid)
    requires Inv(s) && t in s.pc && s.pc[t].Reading?
    ensures ReaderQueued(s) ==> s.readers > 1
  {
    if ReaderQueued(s) {
      SubsetSize({t, s.h.rbBy.value}, CountedSet(s.pc));
    }
  }

  /** The locks are held exactly when somebody is recorded as holding them. */
  lemma HoldersStayExact(s: State, t: Tid, op: Op, s': State)
    requires Inv(s) && t in s.pc && Next(s, t, op) == Some(s')
    ensures s'.pc.Keys == s.pc.Keys
    ensures (s'.rb <==> s'.h.rbBy.Some?) && (s'.wq <==> !s'.h.wqBy.Nobody?)
    ensures s'.h.rbBy.Some? ==> s'.h.rbBy.value in s'.pc
    ensures s'.h.wqBy.Thread? ==> s'.h.wqBy.t in s'.pc
  {
    assert ThreadInv(s, t, s.pc[t]);
    if s.pc[t].Reading? { QueuedReaderIsCounted(s, t); }
  }

  lemma ReadersHoldRightly(s: State, t: Tid, op: Op, s': State)
    requires Inv(s) && t in s.pc && Next(s, t, op) == Some(s')
    ensures s'.h.wqBy.Readers? ==> s'.readers > 0 && !ReaderQueued(s')
  {
    assert ThreadInv(s, t, s.pc[t]);
    ReadersStayExact(s, t, op, s');
    CountedBound(s'.pc, t);
    CountedBound(s.pc, t);
    if s.pc[t].Writing? { DowngradeFindsAtMostOneReader(s, t); }
  }

  /** Every atomic step of every thread keeps the invariant. */
  lemma StepKeepsInv(s: State, t: Tid, op: Op)
    requires Inv(s) && t in s.pc && Next(s, t, op).Some?
    ensures Inv(Next(s, t, op).value)
  {
    var s' := Next(s, t, op).value;
    ReadersStayExact(s, t, op, s');
    HoldersStayExact(s, t, op, s');
    ReadersHoldRightly(s, t, op, s');
    if ReaderSide(s.pc[t]) { OwnReadStep(s, t, op, s'); } else { OwnWriteStep(s, t, op, s'); }
    forall u | u in s'.pc ensures ThreadInv(s', u, s'.pc[u]) {
      if u != t {
        OthersUnaffected(s, t, op, u, s');
      }
    }
    assert s'.pc.Keys == s.pc.Keys;
    assert |s'.pc| == |s'.pc.Keys| == |s.pc.Keys| == |s.pc|;
  }

  // ----- the guarantees, over every run -----

  lemma {:induction false} RunKeepsInv(s: State, schedule: seq<(Tid, Op)>)
    requires Initial(s)
    ensures Inv(Run(s, schedule))
    decreases |schedule|
  {
    if schedule == [] {
      assert CountedSet(s.pc) == {};
    } else {
      RunKeepsInv(s, schedule[..|schedule| - 1]);
      var before := Run(s, schedule[..|schedule| - 1]);
      var (t, op) := schedule[|schedule| - 1];
      if t in before.pc && Next(before, t, op).Some? {
        StepKeepsInv(before, t, op);
      }
    }
  }

  /** A writer never shares the mutex: not with a reader, not with another writer. */
  lemma WritersAreAlone(s: State, schedule: seq<(Tid, Op)>, t: Tid, u: Tid)
    requires Initial(s) && t != u
    requires t in Run(s, schedule).pc && u in Run(s, schedule).pc
    requires InWrite(Run(s, schedule).pc[t])
    ensures !InWrite(Run(s, schedule).pc[u]) && !InRead(Run(s, schedule).pc[u])
    ensures !Run(s, schedule).pc[u].DgDropWq?
  {
    var e := Run(s, schedule);
    RunKeepsInv(s, schedule);
    assert ThreadInv(e, t, e.pc[t]) && ThreadInv(e, u, e.pc[u]);
  }

  /** No writer is admitted between the moment a writer begins to downgrade and the end of its
      read section, nor during anybody's read section, even while wq is free in case 3: the
      number of admissions is still the one the thread recorded. */
  lemma DowngradeIsAtomic(s: State, schedule: seq<(Tid, Op)>, t: Tid)
    requires Initial(s) && t in Run(s, schedule).pc
    requires InRead(Run(s, schedule).pc[t]) || Run(s, schedule).pc[t].DgDropWq?
    ensures t in Run(s, schedule).h.seen && Run(s, schedule).h.seen[t] == Run(s, schedule).h.writes
  {
    var e := Run(s, schedule);
    RunKeepsInv(s, schedule);
    assert ThreadInv(e, t, e.pc[t]);
  }

  // ----- where the operations lead -----

  /** Where the operation that a thread is in will leave it. */
  function Goal(p: Pc): Pc {
    match p
    case RdWaitRb | RdXadd | RdWaitWq | RdDropRb | DgDropWq => Reading
    case WrWaitRb | WrWaitWq | WrDropRb => Writing
    case RdDropWq(upgrading) => if upgrading then Writing else Outside
    case Outside | Reading | Writing => p
  }

  /** From where an operation may begin, and where it leads. */
  predicate Leads(op: Op, before: Pc, goal: Pc) {
    match op
    case RdLock => before == Outside && goal == Reading
    case RdUnlock => before == Reading && goal == Outside
    case WrLock => before == Outside && goal == Writing
    case WrUnlock => before == Writing && goal == Outside
    case Upgrade => before == Reading && goal == Writing
    case Downgrade => before == Writing && goal == Reading
    case Continue => Goal(before) != before && goal == Goal(before)
  }

  /** At most this many steps are left of the operation. */
  function StepsLeft(p: Pc): nat {
    match p
    case RdWaitRb => 4
    case RdXadd => 3
    case RdWaitWq => 2
    case RdDropRb | WrDropRb | DgDropWq => 1
    case WrWaitRb => 3
    case WrWaitWq => 2
    case RdDropWq(_) => 4
    case Outside | Reading | Writing => 0
  }

  /** Waiting for a lock that somebody holds. */
  predicate MustWait(s: State, p: Pc) {
    ((p.RdWaitRb? || p.WrWaitRb?) && s.rb) || ((p.RdWaitWq? || p.WrWaitWq?) && s.wq)
  }

  /** A thread may begin or continue an operation exactly where that makes sense, unless it must wait, and
      each step brings the operation nearer to its goal; an upgrade ends only in Writing, and on the way
      there asks for the write lock like any writer. */
  lemma StepLeads(s: State, t: Tid, op: Op)
    requires t in s.pc
    ensures Next(s, t, op).Some? <==> (exists goal :: Leads(op, s.pc[t], goal)) && !MustWait(s, s.pc[t])
    ensures Next(s, t, op).Some? ==>
              && Leads(op, s.pc[t], Goal(Next(s, t, op).value.pc[t]))
              && (op == Continue ==> StepsLeft(Next(s, t, op).value.pc[t]) < StepsLeft(s.pc[t]))
              && (op == Upgrade ==> Next(s, t, op).value.pc[t] in {RdDropWq(true), WrWaitRb})
              && (s.pc[t] == RdDropWq(true) ==> Next(s, t, op).value.pc[t] == WrWaitRb)
  {
    var p := s.pc[t];
    assert op.RdLock? ==> (Leads(op, p, Reading) <==> p == Outside);
    assert op.RdUnlock? ==> (Leads(op, p, Outside) <==> p == Reading);
    assert op.WrLock? ==> (Leads(op, p, Writing) <==> p == Outside);
    assert op.WrUnlock? ==> (Leads(op, p, Outside) <==> p == Writing);
    assert op.Upgrade? ==> (Leads(op, p, Writing) <==> p == Reading);
    assert op.Downgrade? ==> (Leads(op, p, Reading) <==> p == Writing);
    assert op.Continue? ==> (Leads(op, p, Goal(p)) <==> Goal(p) != p);
  }

  /** Whatever the others do meanwhile, a thread that goes on with its operation comes to its goal. */
  lemma {:induction false} OperationLeads(s: State, schedule: seq<(Tid, Op)>, t: Tid)
    requires t in s.pc && forall i :: 0 <= i < |schedule| && schedule[i].0 == t ==> schedule[i].1 == Continue
    ensures t in Run(s, schedule).pc && Goal(Run(s, schedule).pc[t]) == Goal(s.pc[t])
    ensures StepsLeft(Run(s, schedule).pc[t]) <= StepsLeft(s.pc[t])
    decreases |schedule|
  {
    if schedule != [] {
      var n := |schedule| - 1;
      OperationLeads(s, schedule[..n], t);
      var before, u, op := Run(s, schedule[..n]), schedule[n].0, schedule[n].1;
      if u in before.pc { StepLeads(before, u, op); }
    }
  }

  /** The mutex cannot wedge itself: if nobody is in a read or write section, then whenever some
      thread is inside an operation, some thread can take its next step. */
  lemma NoDeadlock(s: State, schedule: seq<(Tid, Op)>, t: Tid) returns (u: Tid)
    requires Initial(s) && t in Run(s, schedule).pc && Run(s, schedule).pc[t] != Outside
    requires forall v <- Run(s, schedule).pc :: !Run(s, schedule).pc[v].Reading? && !Run(s, schedule).pc[v].Writing?
    ensures u in Run(s, schedule).pc && Next(Run(s, schedule), u, Continue).Some?
  {
    var e := Run(s, schedule);
    RunKeepsInv(s, schedule);
    assert ThreadInv(e, t, e.pc[t]);
    u := t;
    if (e.pc[u].RdWaitRb? || e.pc[u].WrWaitRb?) && e.rb {
      u := e.h.rbBy.value;
      assert ThreadInv(e, u, e.pc[u]);
    }
    if (e.pc[u].RdWaitWq? || e.pc[u].WrWaitWq?) && e.wq {
      assert !e.h.wqBy.Readers? by {
        if e.pc[u].WrWaitWq? {
          forall v | v in e.pc ensures !Counted(e.pc[v]) { assert ThreadInv(e, v, e.pc[v]); }
          assert CountedSet(e.pc) == {};
        }
      }
      u := e.h.wqBy.t;
      assert ThreadInv(e, u, e.pc[u]);
    }
  }

  // ----- the object itself -----

  /** The mutex as the source writes it.  A call of one of the six operations performs the next
      atomic step of that operation for thread t; `moved` is false when the thread must wait. */
  class Mutex {
    var wq: bool
    var rb: bool
    var readers: nat
    var pc: map<Tid, Pc>
    ghost var h: History

    ghost function View(): State
      reads this
    {
      State(wq, rb, readers, pc, h)
    }

    constructor (threads: set<Tid>)
      requires |threads| < WORD
      ensures Initial(View()) && pc.Keys == threads
    {
      wq, rb, readers := false, false, 0;
      pc := map t | t in threads :: Outside;
      h := History(None, Nobody, 0, map[]);
      new;
      assert pc.Keys == threads;
      assert |pc| == |pc.Keys|;
    }

    /** The fetch-and-add on readers. */
    method FetchAdd(v: int) returns (before: nat)
      modifies `readers
      ensures before == old(readers) && readers == Xadd(before, v)
    {
      before := readers;
      readers := Xadd(readers, v);
    }

    method RdLock(t: Tid) returns (moved: bool)
      requires Inv(View()) && t in pc
      requires pc[t].Outside? || pc[t].RdWaitRb? || pc[t].RdXadd? || pc[t].RdWaitWq? || pc[t].RdDropRb?
      modifies this
      ensures var next := Next(old(View()), t, if old(pc[t]).Outside? then Op.RdLock else Continue);
              moved == next.Some? && View() == if moved then next.value else old(View())
      ensures Inv(View())
    {
      ghost var was := View();
      ghost var op := if pc[t].Outside? then Op.RdLock else Continue;
      moved := true;
      match pc[t] {
        case Outside => pc := pc[t := RdWaitRb];
        case RdWaitRb =>
          if rb { moved := false; } else { rb, pc := true, pc[t := RdXadd]; h := h.(rbBy := Some(t)); }
        case RdXadd =>
          var before := FetchAdd(1);
          if before == 0 {
            pc := pc[t := RdWaitWq];  // nobody else was reading: shut the writers out
          } else {
            pc := pc[t := RdDropRb];
            h := h.(seen := h.seen[t := h.writes]);
          }
        case RdWaitWq =>
          if wq { moved := false; } else {
            wq, pc := true, pc[t := RdDropRb];
            h := h.(wqBy := Readers, seen := h.seen[t := h.writes]);
          }
        case RdDropRb => rb, pc := false, pc[t := Reading]; h := h.(rbBy := None);
      }
      if moved { StepKeepsInv(was, t, op); }
    }

    method RdUnlock(t: Tid) returns (moved: bool)
      requires Inv(View()) && t in pc && (pc[t].Reading? || pc[t] == RdDropWq(false))
      modifies this
      ensures moved
      ensures Some(View()) == Next(old(View()), t, if old(pc[t]).Reading? then Op.RdUnlock else Continue)
      ensures Inv(View())
    {
      StepKeepsInv(View(), t, if pc[t].Reading? then Op.RdUnlock else Continue);
      moved := true;
      if pc[t].Reading? {
        var before := FetchAdd(-1);
        pc := pc[t := if before == 1 then RdDropWq(false) else Outside];
        h := if before == 1 then h.(wqBy := Thread(t)) else h;
      } else {
        wq, pc := false, pc[t := Outside];  // nobody reads any more: let the writers in
        h := h.(wqBy := Nobody);
      }
    }

    method WrLock(t: Tid) returns (moved: bool)
      requires Inv(View()) && t in pc
      requires pc[t].Outside? || pc[t].WrWaitRb? || pc[t].WrWaitWq? || pc[t].WrDropRb?
      modifies this
      ensures var next := Next(old(View()), t, if old(pc[t]).Outside? then Op.WrLock else Continue);
              moved == next.Some? && View() == if moved then next.value else old(View())
      ensures Inv(View())
    {
      ghost var was := View();
      ghost var op := if pc[t].Outside? then Op.WrLock else Continue;
      moved := true;
      match pc[t] {
        case Outside => pc := pc[t := WrWaitRb];
        case WrWaitRb =>
          if rb { moved := false; } else { rb, pc := true, pc[t := WrWaitWq]; h := h.(rbBy := Some(t)); }
        case WrWaitWq =>
          if wq { moved := false; } else {
            wq, pc := true, pc[t := WrDropRb];
            h := h.(wqBy := Thread(t), writes := h.writes + 1);
          }
        case WrDropRb => rb, pc := false, pc[t := Writing]; h := h.(rbBy := None);
      }
      if moved { StepKeepsInv(was, t, op); }
    }

    method WrUnlock(t: Tid)
      requires Inv(View()) && t in pc && pc[t].Writing?
      modifies this
      ensures Some(View()) == Next(old(View()), t, Op.WrUnlock)
      ensures Inv(View())
    {
      StepKeepsInv(View(), t, Op.WrUnlock);
      wq, pc := false, pc[t := Outside];
      h := h.(wqBy := Nobody);
    }

    /** rdUnlock, then wrLock: the second half is WrLock's. */
    method Upgrade(t: Tid)
      requires Inv(View()) && t in pc && (pc[t].Reading? || pc[t] == RdDropWq(true))
      modifies this
      ensures Some(View()) == Next(old(View()), t, if old(pc[t]).Reading? then Op.Upgrade else Continue)
      ensures Inv(View())
    {
      StepKeepsInv(View(), t, if pc[t].Reading? then Op.Upgrade else Continue);
      if pc[t].Reading? {
        var before := FetchAdd(-1);
        pc := pc[t := if before == 1 then RdDropWq(true) else WrWaitRb];
        h := if before == 1 then h.(wqBy := Thread(t)) else h;
      } else {
        wq, pc := false, pc[t := WrWaitRb];
        h := h.(wqBy := Nobody);
      }
    }

    method Downgrade(t: Tid)
      requires Inv(View()) && t in pc && (pc[t].Writing? || pc[t].DgDropWq?)
      modifies this
      ensures Some(View()) == Next(old(View()), t, if old(pc[t]).Writing? then Op.Downgrade else Continue)
      ensures Inv(View())
    {
      StepKeepsInv(View(), t, if pc[t].Writing? then Op.Downgrade else Continue);
      if pc[t].Writing? {
        DowngradeFindsAtMostOneReader(View(), t);
        var before := FetchAdd(1);
        h := h.(seen := h.seen[t := h.writes]);
        if before == 0 {
          pc := pc[t := Reading];  // cases 1 and 2: keep wq
          h := h.(wqBy := Readers);
        } else {
          assert before == 1;  // case 3
          pc := pc[t := DgDropWq];
        }
      } else {
        wq, pc := false, pc[t := Reading];
        h := h.(wqBy := Nobody);
      }
    }
  }
}
