/** The command timing of the DDR controller (findMinCmdCycle, trySchedule and refresh in
    zsim/src/ddr_mem.cpp), against the device's rules. */
module DdrTiming {
  import opened ActWindow
  import opened FrFcfs

  datatype Timing = Timing(tBL: nat, tCL: nat, tRCD: nat, tRTP: nat, tRP: nat, tRRD: nat, tRAS: nat, tFAW: nat,
                           tWTR: nat, tWR: nat, tRFC: nat) {
    predicate Valid() { tBL > 0 && tRFC >= tRP }

    /** How far ahead of everything recorded a request can be made to wait. */
    function Slack(): nat { tRP + tRRD + tFAW + tRCD + 1 }

    /** How far ahead of everything recorded serving a request can reach. */
    function Stride(): nat { Slack() + tWTR + tCL + tBL + tWR + tRAS + tRTP }
  }

  /** While the bank is closed, minPreCycle is the time of the last PRE. */
  datatype Bank = Bank(open: bool, openRow: nat, minPreCycle: nat, lastActCycle: nat, lastCmdCycle: nat,
                       curRowHits: nat)

  const ACTS_PER_WINDOW := 4

  // ----- the rules -----

  /** What the device is told: to open a row, to read or write a column, to refresh all banks. */
  datatype Command = Act(bank: nat, row: nat, cycle: nat)
                   | Col(bank: nat, row: nat, write: bool, cycle: nat)
                   | Refresh(cycle: nat, done: nat)

  /** The first cycle in which the bank may be precharged after this column command. */
  function Recovery(t: Timing, c: Command): nat
    requires c.Col?
  {
    if c.write then c.cycle + t.tCL + t.tBL + t.tWR else c.cycle + t.tRTP
  }

  /** How a command must be apart from an earlier one. */
  predicate Apart(t: Timing, a: Command, b: Command) {
    match b
    case Act(bank, _, cycle) =>
      (match a
       case Act(bank0, _, cycle0) => bank0 == bank ==> cycle0 + t.tRAS + t.tRP <= cycle && cycle0 + t.tRRD <= cycle
       case Col(bank0, _, _, _) => bank0 == bank ==> Recovery(t, a) + t.tRP <= cycle
       case Refresh(_, done) => done <= cycle)
    case Col(bank, _, write, cycle) =>
      (match a
       case Act(bank0, _, cycle0) => bank0 == bank ==> cycle0 + t.tRCD <= cycle
       case Col(_, _, write0, cycle0) =>
         // the bursts are disjoint, and a read waits for the bus to turn around after a write
         cycle0 + t.tBL <= cycle && (write0 && !write ==> cycle0 + t.tCL + t.tBL + t.tWTR <= cycle)
       case Refresh(_, done) => done + t.tRCD <= cycle)
    case Refresh(cycle, _) =>
      (match a
       case Act(_, _, cycle0) => cycle0 + t.tRAS <= cycle
       case Col(_, _, _, _) => Recovery(t, a) <= cycle && a.cycle <= cycle
       case Refresh(_, _) => true)
  }

  /** The row that these commands leave open in a bank, if any; auto-precharge is not a command. */
  datatype Row = Closed | Open(row: nat)

  function RowAfter(log: seq<Command>, bank: nat): Row {
    if log == [] then Closed
    else match log[|log| - 1]
      case Act(b, row, _) => if b == bank then Open(row) else RowAfter(log[..|log| - 1], bank)
      case Refresh(_, _) => Closed
      case Col(_, _, _, _) => RowAfter(log[..|log| - 1], bank)
  }

  ghost predicate HitsOpenRow(log: seq<Command>, i: nat)
    requires i < |log|
  {
    log[i].Col? ==> RowAfter(log[..i], log[i].bank) == Open(log[i].row)
  }

  /** The activations of one rank, in the order they were decided. */
  function RankActs(rankOf: seq<nat>, log: seq<Command>, k: nat): seq<nat> {
    if log == [] then []
    else
      var c, before := log[|log| - 1], RankActs(rankOf, log[..|log| - 1], k);
      if c.Act? && c.bank < |rankOf| && rankOf[c.bank] == k then before + [c.cycle] else before
  }

  /** All the rules, over a whole run. */
  ghost predicate Obeys(t: Timing, log: seq<Command>) {
    && (forall i, j :: 0 <= i < j < |log| ==> Apart(t, log[i], log[j]))
    && (forall i :: 0 <= i < |log| ==> HitsOpenRow(log, i))
  }

  // ----- what the controller keeps of the past -----

  /** The controller's fields allow for everything this command asks of later ones. */
  ghost predicate Accounted(t: Timing, banks: seq<Bank>, minRespCycle: nat, lastCmdWasWrite: bool, c: Command) {
    match c
    case Act(bank, _, cycle) =>
      bank < |banks| && cycle + t.tRAS <= banks[bank].minPreCycle && cycle <= banks[bank].lastActCycle
    case Col(bank, _, write, cycle) =>
      && bank < |banks| && Recovery(t, c) <= banks[bank].minPreCycle && cycle <= banks[bank].lastCmdCycle
      && cycle + t.tCL + t.tBL <= minRespCycle
      && (write && !lastCmdWasWrite ==> cycle + t.tCL + t.tBL + t.tWTR <= minRespCycle - t.tCL - t.tBL)
    case Refresh(_, done) =>
      forall b :: 0 <= b < |banks| ==> RefreshAccounted(t, banks[b], done)
  }

  ghost predicate RefreshAccounted(t: Timing, b: Bank, done: nat) {
    done <= b.minPreCycle + t.tRP && (b.open ==> done <= b.lastActCycle)
  }

  ghost predicate BankOk(t: Timing, b: Bank, minRespCycle: nat) {
    && b.lastCmdCycle + t.tCL + t.tBL <= minRespCycle
    && (b.open ==> b.lastActCycle + t.tRCD <= b.lastCmdCycle)
  }

  ghost predicate RowOk(log: seq<Command>, banks: seq<Bank>, b: nat)
    requires b < |banks|
  {
    banks[b].open ==> RowAfter(log, b) == Open(banks[b].openRow)
  }

  ghost predicate WindowOk(t: Timing, rankOf: seq<nat>, log: seq<Command>, window: seq<nat>, k: nat) {
    && window == After(ACTS_PER_WINDOW, RankActs(rankOf, log, k))
    && Spaced(ACTS_PER_WINDOW, t.tFAW, RankActs(rankOf, log, k))
  }

  lemma SpacedExtends(n: nat, tFAW: nat, acts: seq<nat>, act: nat)
    requires n > 0 && Spaced(n, tFAW, acts) && After(n, acts)[0] + tFAW <= act
    ensures Spaced(n, tFAW, acts + [act])
    ensures After(n, acts + [act]) == Added(After(n, acts), act)
  {
    var longer := acts + [act];
    assert longer[..|acts|] == acts;
    forall i | 0 <= i < |longer| ensures After(n, longer[..i])[0] + tFAW <= longer[i] {
      assert i < |acts| ==> longer[..i] == acts[..i];
    }
  }

  /** One more command that keeps its distance. */
  lemma ObeysExtends(t: Timing, log: seq<Command>, c: Command)
    requires Obeys(t, log)
    requires forall i :: 0 <= i < |log| ==> Apart(t, log[i], c)
    requires c.Col? ==> RowAfter(log, c.bank) == Open(c.row)
    ensures Obeys(t, log + [c])
  {
    var longer := log + [c];
    forall i | 0 <= i < |longer| ensures HitsOpenRow(longer, i) {
      assert i < |log| ==> longer[..i] == log[..i] && HitsOpenRow(log, i);
      assert longer[..|log|] == log;
    }
  }

  lemma RowAfterOneMore(log: seq<Command>, c: Command, bank: nat)
    ensures RowAfter(log + [c], bank) ==
              match c case Act(b, row, _) => (if b == bank then Open(row) else RowAfter(log, bank))
                      case Refresh(_, _) => Closed case Col(_, _, _, _) => RowAfter(log, bank)
  {
    assert (log + [c])[..|log|] == log;
  }

  lemma RankActsOneMore(rankOf: seq<nat>, log: seq<Command>, c: Command, k: nat)
    ensures RankActs(rankOf, log + [c], k) ==
              RankActs(rankOf, log, k) + if c.Act? && c.bank < |rankOf| && rankOf[c.bank] == k then [c.cycle] else []
  {
    assert (log + [c])[..|log|] == log;
  }

  // ----- one column command, with the activation it may need -----

  /** Bank b takes a column command to this row at cycle cmd, after an activation at cycle act unless it
      is a hit, and becomes b'. */
  ghost predicate Takes(t: Timing, b: Bank, b': Bank, minRespCycle: nat, lastCmdWasWrite: bool, row: nat, write: bool,
                        hit: bool, act: nat, cmd: nat) {
    && minRespCycle <= cmd + t.tCL
    && (lastCmdWasWrite && !write ==> minRespCycle + t.tWTR <= cmd)
    && (if hit then b.open && b.openRow == row && b'.lastActCycle == b.lastActCycle
        else b.minPreCycle + t.tRP <= act && b.lastActCycle + t.tRRD <= act &&
             act + t.tRCD <= cmd && b'.lastActCycle == act)
    && b'.openRow == row && b'.lastCmdCycle == cmd
    && b.minPreCycle <= b'.minPreCycle && b'.lastActCycle + t.tRAS <= b'.minPreCycle
    && Recovery(t, Col(0, row, write, cmd)) <= b'.minPreCycle
  }

  function Taken(bank: nat, row: nat, write: bool, hit: bool, act: nat, cmd: nat): seq<Command> {
    (if hit then [] else [Act(bank, row, act)]) + [Col(bank, row, write, cmd)]
  }

  lemma TakenApart(t: Timing, banks: seq<Bank>, b': Bank, minRespCycle: nat, lastCmdWasWrite: bool, k: nat, row: nat,
                   write: bool, hit: bool, act: nat, cmd: nat, c: Command)
    requires t.Valid() && k < |banks| && BankOk(t, banks[k], minRespCycle)
    requires Accounted(t, banks, minRespCycle, lastCmdWasWrite, c)
    requires Takes(t, banks[k], b', minRespCycle, lastCmdWasWrite, row, write, hit, act, cmd)
    ensures !hit ==> Apart(t, c, Act(k, row, act))
    ensures Apart(t, c, Col(k, row, write, cmd))
  {
    assert c.Refresh? ==> RefreshAccounted(t, banks[k], c.done);
  }

  lemma TakenAccounted(t: Timing, banks: seq<Bank>, b': Bank, minRespCycle: nat, lastCmdWasWrite: bool, k: nat,
                       row: nat, write: bool, hit: bool, act: nat, cmd: nat, c: Command)
    requires t.Valid() && k < |banks| && BankOk(t, banks[k], minRespCycle)
    requires Accounted(t, banks, minRespCycle, lastCmdWasWrite, c)
    requires Takes(t, banks[k], b', minRespCycle, lastCmdWasWrite, row, write, hit, act, cmd)
    ensures Accounted(t, banks[k := b'], cmd + t.tCL + t.tBL, write, c)
  {
    if c.Refresh? {
      assert RefreshAccounted(t, banks[k], c.done);
      var after := banks[k := b'];
      forall b | 0 <= b < |banks| ensures RefreshAccounted(t, after[b], c.done) {
        assert RefreshAccounted(t, banks[b], c.done);
      }
    }
  }

  lemma TakenObeys(t: Timing, log: seq<Command>, banks: seq<Bank>, b': Bank, minRespCycle: nat, lastCmdWasWrite: bool,
                   k: nat, row: nat, write: bool, hit: bool, act: nat, cmd: nat)
    requires t.Valid() && Obeys(t, log) && k < |banks| && BankOk(t, banks[k], minRespCycle) && RowOk(log, banks, k)
    requires forall i :: 0 <= i < |log| ==> Accounted(t, banks, minRespCycle, lastCmdWasWrite, log[i])
    requires Takes(t, banks[k], b', minRespCycle, lastCmdWasWrite, row, write, hit, act, cmd)
    ensures Obeys(t, log + Taken(k, row, write, hit, act, cmd))
    ensures RowAfter(log + Taken(k, row, write, hit, act, cmd), k) == Open(row)
    ensures forall b :: b != k ==> RowAfter(log + Taken(k, row, write, hit, act, cmd), b) == RowAfter(log, b)
  {
    var col, a := Col(k, row, write, cmd), Act(k, row, act);
    forall i | 0 <= i < |log| ensures (!hit ==> Apart(t, log[i], a)) && Apart(t, log[i], col) {
      TakenApart(t, banks, b', minRespCycle, lastCmdWasWrite, k, row, write, hit, act, cmd, log[i]);
    }
    var mid := if hit then log else log + [a];
    if !hit { ObeysExtends(t, log, a); }
    forall b ensures RowAfter(mid, b) == if b == k then Open(row) else RowAfter(log, b) {
      if !hit { RowAfterOneMore(log, a, b); }
    }
    ObeysExtends(t, mid, col);
    forall b ensures RowAfter(mid + [col], b) == RowAfter(mid, b) { RowAfterOneMore(mid, col, b); }
    assert mid + [col] == log + Taken(k, row, write, hit, act, cmd);
  }

  ghost predicate AllAccounted(t: Timing, banks: seq<Bank>, minRespCycle: nat, lastCmdWasWrite: bool,
                               log: seq<Command>) {
    forall i :: 0 <= i < |log| ==> Accounted(t, banks, minRespCycle, lastCmdWasWrite, log[i])
  }

  ghost predicate BanksOk(t: Timing, banks: seq<Bank>, minRespCycle: nat, log: seq<Command>) {
    && t.tCL + t.tBL <= minRespCycle
    && (forall b :: 0 <= b < |banks| ==> BankOk(t, banks[b], minRespCycle) && RowOk(log, banks, b))
  }

  ghost predicate WindowsOk(t: Timing, rankOf: seq<nat>, windows: seq<seq<nat>>, log: seq<Command>) {
    forall k :: 0 <= k < |windows| ==> WindowOk(t, rankOf, log, windows[k], k)
  }

  /** What the controller keeps still covers the whole past after a column command. */
  lemma TakenKeeps(t: Timing, rankOf: seq<nat>, log: seq<Command>, banks: seq<Bank>, b': Bank, minRespCycle: nat,
                   lastCmdWasWrite: bool, k: nat, row: nat, write: bool, hit: bool, act: nat, cmd: nat)
    requires t.Valid() && Obeys(t, log) && k < |banks| && BanksOk(t, banks, minRespCycle, log)
    requires AllAccounted(t, banks, minRespCycle, lastCmdWasWrite, log)
    requires Takes(t, banks[k], b', minRespCycle, lastCmdWasWrite, row, write, hit, act, cmd)
    ensures var log', minResp' := log + Taken(k, row, write, hit, act, cmd), cmd + t.tCL + t.tBL;
            Obeys(t, log') && AllAccounted(t, banks[k := b'], minResp', write, log') &&
              BanksOk(t, banks[k := b'], minResp', log')
  {
    assert BankOk(t, banks[k], minRespCycle) && RowOk(log, banks, k);
    TakenObeys(t, log, banks, b', minRespCycle, lastCmdWasWrite, k, row, write, hit, act, cmd);
    var log', minResp', banks' := log + Taken(k, row, write, hit, act, cmd), cmd + t.tCL + t.tBL, banks[k := b'];
    forall i | 0 <= i < |log'| ensures Accounted(t, banks', minResp', write, log'[i]) {
      if i < |log| {
        TakenAccounted(t, banks, b', minRespCycle, lastCmdWasWrite, k, row, write, hit, act, cmd, log[i]);
      }
    }
    forall b | 0 <= b < |banks| ensures BankOk(t, banks'[b], minResp') && RowOk(log', banks', b) {
      assert BankOk(t, banks[b], minRespCycle) && RowOk(log, banks, b);
    }
  }

  lemma WindowsKept(t: Timing, rankOf: seq<nat>, windows: seq<seq<nat>>, log: seq<Command>, k: nat, row: nat,
                    write: bool, hit: bool, act: nat, cmd: nat)
    requires WindowsOk(t, rankOf, windows, log) && k < |rankOf| && rankOf[k] < |windows| && windows[rankOf[k]] != []
    requires !hit ==> windows[rankOf[k]][0] + t.tFAW <= act
    ensures WindowsOk(t, rankOf, WindowsAfter(rankOf, windows, k, hit, act), log + Taken(k, row, write, hit, act, cmd))
  {
    var after := WindowsAfter(rankOf, windows, k, hit, act);
    var log' := log + Taken(k, row, write, hit, act, cmd);
    assert WindowOk(t, rankOf, log, windows[rankOf[k]], rankOf[k]);
    forall r | 0 <= r < |windows| ensures WindowOk(t, rankOf, log', after[r], r) {
      assert WindowOk(t, rankOf, log, windows[r], r);
      WindowKept(t, rankOf, log, k, row, write, hit, act, cmd, r);
    }
  }

  ghost predicate Sound(t: Timing, rankOf: seq<nat>, banks: seq<Bank>, windows: seq<seq<nat>>, minRespCycle: nat,
                        lastCmdWasWrite: bool, log: seq<Command>) {
    && t.Valid() && |rankOf| == |banks| && (forall b :: 0 <= b < |rankOf| ==> rankOf[b] < |windows|)
    && Obeys(t, log)
    && AllAccounted(t, banks, minRespCycle, lastCmdWasWrite, log)
    && BanksOk(t, banks, minRespCycle, log)
    && WindowsOk(t, rankOf, windows, log)
  }

  function WindowsAfter(rankOf: seq<nat>, windows: seq<seq<nat>>, k: nat, hit: bool, act: nat): seq<seq<nat>>
    requires k < |rankOf| && rankOf[k] < |windows| && windows[rankOf[k]] != []
  {
    if hit then windows else windows[rankOf[k] := Added(windows[rankOf[k]], act)]
  }

  lemma SoundAfter(t: Timing, rankOf: seq<nat>, banks: seq<Bank>, windows: seq<seq<nat>>, minRespCycle: nat,
                   lastCmdWasWrite: bool, log: seq<Command>, b': Bank, k: nat, row: nat, write: bool, hit: bool,
                   act: nat, cmd: nat)
    requires Sound(t, rankOf, banks, windows, minRespCycle, lastCmdWasWrite, log) && k < |banks| &&
             windows[rankOf[k]] != []
    requires Takes(t, banks[k], b', minRespCycle, lastCmdWasWrite, row, write, hit, act, cmd)
    requires !hit ==> windows[rankOf[k]][0] + t.tFAW <= act
    ensures Sound(t, rankOf, banks[k := b'], WindowsAfter(rankOf, windows, k, hit, act), cmd + t.tCL + t.tBL, write,
                  log + Taken(k, row, write, hit, act, cmd))
  {
    TakenKeeps(t, rankOf, log, banks, b', minRespCycle, lastCmdWasWrite, k, row, write, hit, act, cmd);
    WindowsKept(t, rankOf, windows, log, k, row, write, hit, act, cmd);
  }

  function Max(a: nat, b: nat): (m: nat)
    ensures m >= a && m >= b && (m == a || m == b)
  {
    if a > b then a else b
  }

  class Channel {
    const t: Timing
    const rankOf: seq<nat>        // the rank of each bank
    var banks: seq<Bank>
    var windows: seq<seq<nat>>    // each rank's activation window, oldest entry first
    var minRespCycle: nat
    var lastCmdWasWrite: bool
    ghost var log: seq<Command>   // everything the devices have been told

    ghost predicate Valid()
      reads this
    {
      Sound(t, rankOf, banks, windows, minRespCycle, lastCmdWasWrite, log)
    }

    constructor (t: Timing, rankOf: seq<nat>, ranks: nat)
      requires t.Valid() && forall b :: 0 <= b < |rankOf| ==> rankOf[b] < ranks
      ensures Valid() && log == [] && this.t == t && this.rankOf == rankOf && minRespCycle == t.tCL + t.tBL + 1
      ensures banks == seq(|rankOf|, _ => Bank(false, 0, 0, 0, 0, 0)) &&
              windows == seq(ranks, _ => seq(ACTS_PER_WINDOW, i => 0))
      ensures !lastCmdWasWrite
    {
      this.t, this.rankOf := t, rankOf;
      banks := seq(|rankOf|, _ => Bank(false, 0, 0, 0, 0, 0));
      windows := seq(ranks, _ => seq(ACTS_PER_WINDOW, i => 0));
      minRespCycle, lastCmdWasWrite, log := t.tCL + t.tBL + 1, false, [];
    }

    function WindowOf(r: Request): seq<nat>
      reads this
      requires r.bank < |rankOf| && rankOf[r.bank] < |windows|
    {
      windows[rankOf[r.bank]]
    }

    /** What looking at a request needs of the fields. */
    predicate Ready()
      reads this
    {
      && |rankOf| == |banks| && (forall b :: 0 <= b < |rankOf| ==> rankOf[b] < |windows|)
      && (forall k :: 0 <= k < |windows| ==> windows[k] != [])
    }

    lemma ValidIsReady()
      requires Valid()
      ensures Ready()
    {
      forall k | 0 <= k < |windows| ensures windows[k] != [] { assert WindowOk(t, rankOf, log, windows[k], k); }
    }

    function FindMinCmdCycle(r: Request): (c: nat)
      reads this
      requires Ready() && r.bank < |banks|
    {
      MinCmdCycle(t, banks[r.bank], WindowOf(r), r)
    }

    /** The part of trySchedule that issues a request: its activation if the row is not open, and its
        column command.  The bus is not reserved past curCycle, so only turning it around from a write
        to a read can delay the command.  keepOpen: the next in the bank's queue is a hit on this row. */
    method Issue(r: Request, curCycle: nat, closedPage: bool, keepOpen: bool)
      returns (rowHit: bool, ghost act: nat, ghost cmd: nat)
      requires Valid() && Ready() && r.bank < |banks|
      requires FindMinCmdCycle(r) <= curCycle && minRespCycle <= curCycle + t.tCL
      modifies this
      ensures Valid() && rowHit == RowHit(old(banks)[r.bank], r)
      ensures act == ActCycle(t, old(banks)[r.bank], old(WindowOf(r)), r)
      ensures cmd == if old(lastCmdWasWrite) && !r.write then Max(curCycle, old(minRespCycle) + t.tWTR) else curCycle
      ensures cmd >= curCycle && (!rowHit ==> act + t.tRCD <= curCycle)
      ensures log == old(log) + Taken(r.bank, r.row, r.write, rowHit, act, cmd)
      ensures minRespCycle == cmd + t.tCL + t.tBL && lastCmdWasWrite == r.write
      ensures banks == old(banks)[r.bank := banks[r.bank]]
      ensures windows == WindowsAfter(rankOf, old(windows), r.bank, rowHit, act)
      ensures var b := banks[r.bank];
              && b.open == (!closedPage || keepOpen) && b.openRow == r.row && b.curRowHits == r.rowHitSeq
              && Reaches(t, old(banks)[r.bank], b, cmd)
    {
      var bank := banks[r.bank];
      act := ActCycle(t, bank, WindowOf(r), r);
      rowHit := RowHit(bank, r);
      var cmdCycle := CommandCycle(r, curCycle);
      cmd := cmdCycle;
      var close := closedPage && !keepOpen;
      IssuedTakes(t, bank, WindowOf(r), r, minRespCycle, lastCmdWasWrite, cmdCycle, close);
      var actCycle := ActCycle(t, bank, WindowOf(r), r);
      Record(r, IssuedBank(t, bank, r, actCycle, cmdCycle, close), rowHit, actCycle, cmdCycle);
    }

    /** When the column command of a request that is ready is issued. */
    method CommandCycle(r: Request, curCycle: nat) returns (cmdCycle: nat)
      requires Valid() && Ready() && r.bank < |banks|
      requires FindMinCmdCycle(r) <= curCycle && minRespCycle <= curCycle + t.tCL
      ensures cmdCycle == if lastCmdWasWrite && !r.write then Max(curCycle, minRespCycle + t.tWTR) else curCycle
      ensures BankOk(t, banks[r.bank], minRespCycle) && banks[r.bank].lastCmdCycle < cmdCycle
    {
      var bank := banks[r.bank];
      assert BankOk(t, bank, minRespCycle);
      var minCmdCycle := Max(curCycle, minRespCycle - t.tCL);
      if lastCmdWasWrite && !r.write { minCmdCycle := Max(minCmdCycle, minRespCycle + t.tWTR); }
      if !RowHit(bank, r) { minCmdCycle := Max(minCmdCycle, ActCycle(t, bank, WindowOf(r), r) + t.tRCD); }
      cmdCycle := Max(minCmdCycle, minRespCycle - t.tCL);
      assert bank.lastCmdCycle < cmdCycle;
    }

    method Record(r: Request, bank: Bank, hit: bool, act: nat, cmd: nat)
      requires Valid() && r.bank < |banks| && WindowOf(r) != []
      requires Takes(t, banks[r.bank], bank, minRespCycle, lastCmdWasWrite, r.row, r.write, hit, act, cmd)
      requires !hit ==> WindowOf(r)[0] + t.tFAW <= act
      modifies this
      ensures Valid() && log == old(log) + Taken(r.bank, r.row, r.write, hit, act, cmd)
      ensures windows == WindowsAfter(rankOf, old(windows), r.bank, hit, act)
      ensures banks == old(banks)[r.bank := bank] && minRespCycle == cmd + t.tCL + t.tBL && lastCmdWasWrite == r.write
    {
      SoundAfter(t, rankOf, banks, windows, minRespCycle, lastCmdWasWrite, log, bank, r.bank, r.row, r.write, hit, act,
                 cmd);
      windows := WindowsAfter(rankOf, windows, r.bank, hit, act);
      log := log + Taken(r.bank, r.row, r.write, hit, act, cmd);
      banks, minRespCycle, lastCmdWasWrite := banks[r.bank := bank], cmd + t.tCL + t.tBL, r.write;
    }

    /** refresh: all banks at once, as soon as every one of them may be precharged. */
    method Refresh(memCycle: nat)
      requires Valid()
      modifies `banks, `log
      ensures Valid() && |banks| == old(|banks|)
      ensures |log| == old(|log|) + 1 && log[..old(|log|)] == old(log)
      ensures var c := log[|log| - 1];
              && c.Refresh? && c.cycle >= memCycle && c.done == c.cycle + t.tRFC
              && (c.cycle == memCycle || exists b :: 0 <= b < |banks| && Holding(old(banks)[b], c.cycle))
      ensures forall b :: 0 <= b < |banks| ==>  // the next activation may come right at the end
                && !banks[b].open && banks[b].minPreCycle + t.tRP == log[|log| - 1].done
                && banks[b].lastActCycle == old(banks)[b].lastActCycle
                && banks[b].lastCmdCycle == old(banks)[b].lastCmdCycle
    {
      var minRefreshCycle := RefreshCycle(memCycle);
      var refreshDoneCycle := minRefreshCycle + t.tRFC;
      ghost var was := banks;
      for b := 0 to |banks|
        invariant |banks| == |was| && log == old(log)
        invariant forall i :: 0 <= i < |banks| ==>
                    banks[i] == if i < b then Refreshed(t, was[i], refreshDoneCycle) else was[i]
      {
        banks := banks[b := Refreshed(t, banks[b], refreshDoneCycle)];
      }
      SoundRefreshed(t, rankOf, was, windows, minRespCycle, lastCmdWasWrite, log, banks, minRefreshCycle);
      log := log + [Command.Refresh(minRefreshCycle, refreshDoneCycle)];
    }

    /** The first cycle, not before memCycle, in which every bank may be precharged. */
    method RefreshCycle(memCycle: nat) returns (minRefreshCycle: nat)
      ensures minRefreshCycle >= memCycle
      ensures minRefreshCycle == memCycle || exists b :: 0 <= b < |banks| && Holding(banks[b], minRefreshCycle)
      ensures forall b :: 0 <= b < |banks| ==>
                banks[b].minPreCycle <= minRefreshCycle && banks[b].lastCmdCycle <= minRefreshCycle
    {
      minRefreshCycle := memCycle;
      for b := 0 to |banks|
        invariant minRefreshCycle >= memCycle
        invariant minRefreshCycle == memCycle || exists i :: 0 <= i < b && Holding(banks[i], minRefreshCycle)
        invariant forall i :: 0 <= i < b ==>
                    banks[i].minPreCycle <= minRefreshCycle && banks[i].lastCmdCycle <= minRefreshCycle
      {
        minRefreshCycle := Max(minRefreshCycle, Max(banks[b].minPreCycle, banks[b].lastCmdCycle));
        assert banks[b].minPreCycle == minRefreshCycle || banks[b].lastCmdCycle == minRefreshCycle ==>
                 Holding(banks[b], minRefreshCycle);
      }
    }

    /** No five activations of a rank fall within tFAW, however out of order they were decided. */
    lemma FourActivationWindow(rank: nat, picked: set<nat>, from: nat)
      requires Valid() && rank < |windows|
      requires forall i :: i in picked ==>
                 i < |RankActs(rankOf, log, rank)| && from <= RankActs(rankOf, log, rank)[i] < from + t.tFAW
      ensures |picked| <= 4
    {
      assert WindowOk(t, rankOf, log, windows[rank], rank);
      AtMostNPerWindow(ACTS_PER_WINDOW, t.tFAW, RankActs(rankOf, log, rank), picked, from);
    }

    /** Without a tRRD, or with a rank of its own for each bank, the activations of every rank are tRRD
        apart over every run. */
    lemma RanksKeepRrdIf()
      requires Valid() && (t.tRRD == 0 || SingleBankRanks(rankOf))
      ensures RanksKeepRrd(t, rankOf, log)
    {
      forall i, j | 0 <= i < j < |log| && OneRank(rankOf, log[i], log[j]) ensures RrdApart(t, log[i], log[j]) {
        assert Apart(t, log[i], log[j]);
      }
    }
  }

  /** The bank is what a refresh at this cycle had to wait for. */
  predicate Holding(bank: Bank, cycle: nat) { bank.minPreCycle == cycle || bank.lastCmdCycle == cycle }

  /** Closed, with the next activation no earlier than the end of the refresh. */
  function Refreshed(t: Timing, bank: Bank, done: nat): Bank
    requires t.tRP <= done
  {
    bank.(minPreCycle := done - t.tRP, open := false)
  }

  lemma SoundRefreshed(t: Timing, rankOf: seq<nat>, banks: seq<Bank>, windows: seq<seq<nat>>, minRespCycle: nat,
                       lastCmdWasWrite: bool, log: seq<Command>, banks': seq<Bank>, start: nat)
    requires Sound(t, rankOf, banks, windows, minRespCycle, lastCmdWasWrite, log) && |banks'| == |banks|
    requires forall i :: 0 <= i < |banks| ==> banks'[i] == Refreshed(t, banks[i], start + t.tRFC)
    requires forall i :: 0 <= i < |banks| ==> banks[i].minPreCycle <= start && banks[i].lastCmdCycle <= start
    ensures Sound(t, rankOf, banks', windows, minRespCycle, lastCmdWasWrite, log + [Refresh(start, start + t.tRFC)])
  {
    var c := Refresh(start, start + t.tRFC);
    var log' := log + [c];
    forall i | 0 <= i < |log|
      ensures Apart(t, log[i], c)
    {
      assert Accounted(t, banks, minRespCycle, lastCmdWasWrite, log[i]);
    }
    ObeysExtends(t, log, c);
    forall i | 0 <= i < |log'| ensures Accounted(t, banks', minRespCycle, lastCmdWasWrite, log'[i]) {
      if i < |log| { RefreshedAccounts(t, banks, minRespCycle, lastCmdWasWrite, banks', start, log[i]); }
    }
    forall b | 0 <= b < |banks'| ensures BankOk(t, banks'[b], minRespCycle) && RowOk(log', banks', b) {
      assert BankOk(t, banks[b], minRespCycle);
    }
    forall r | 0 <= r < |windows| ensures WindowOk(t, rankOf, log', windows[r], r) {
      assert WindowOk(t, rankOf, log, windows[r], r);
      RankActsOneMore(rankOf, log, c, r);
      assert RankActs(rankOf, log, r) + [] == RankActs(rankOf, log, r);
    }
  }

  lemma RefreshedAccounts(t: Timing, banks: seq<Bank>, minRespCycle: nat, lastCmdWasWrite: bool, banks': seq<Bank>,
                          start: nat, c: Command)
    requires t.Valid() && |banks'| == |banks| && Accounted(t, banks, minRespCycle, lastCmdWasWrite, c)
    requires forall i :: 0 <= i < |banks| ==> banks'[i] == Refreshed(t, banks[i], start + t.tRFC)
    requires forall i :: 0 <= i < |banks| ==> banks[i].minPreCycle <= start && banks[i].lastCmdCycle <= start
    ensures Accounted(t, banks', minRespCycle, lastCmdWasWrite, c)
  {
    if c.Refresh? {
      forall b | 0 <= b < |banks'|
        ensures RefreshAccounted(t, banks'[b], c.done)
      {
        assert RefreshAccounted(t, banks[b], c.done);
      }
    }
  }

  // ----- how far into the future the fields reach -----

  predicate BankBy(b: Bank, c: nat) { b.minPreCycle <= c && b.lastActCycle <= c && b.lastCmdCycle <= c }

  predicate WindowBy(w: seq<nat>, c: nat) { forall i :: 0 <= i < |w| ==> w[i] <= c }

  /** Nothing that the channel has recorded lies after cycle c. */
  ghost predicate AllBy(banks: seq<Bank>, windows: seq<seq<nat>>, minRespCycle: nat, c: nat) {
    && minRespCycle <= c
    && (forall b :: 0 <= b < |banks| ==> BankBy(banks[b], c))
    && (forall k :: 0 <= k < |windows| ==> WindowBy(windows[k], c))
  }

  /** What a column command at cycle cmd adds to its bank's record. */
  predicate Reaches(t: Timing, b: Bank, b': Bank, cmd: nat) {
    && b'.minPreCycle <= Max(b.minPreCycle, cmd + t.tRAS + t.tCL + t.tBL + t.tWR + t.tRTP)
    && b'.lastActCycle <= Max(b.lastActCycle, cmd) && b'.lastCmdCycle == cmd
  }

  /** A request can go within Slack of all that is recorded. */
  lemma MinCmdBy(t: Timing, bank: Bank, window: seq<nat>, r: Request, c: nat)
    requires window != [] && BankBy(bank, c) && WindowBy(window, c) && r.arrivalCycle <= c
    ensures MinCmdCycle(t, bank, window, r) <= c + t.Slack()
  {
  }

  lemma AddedBy(w: seq<nat>, act: nat, c: nat)
    requires w != [] && WindowBy(w, c) && act <= c
    ensures WindowBy(Added(w, act), c)
  {
    AddedMultiset(w, act);
    var a := Added(w, act);
    forall i | 0 <= i < |a| ensures a[i] <= c {
      assert a[i] in multiset(a);
      assert a[i] in multiset(w) || a[i] == act;
    }
  }

  /** What issuing a request to bank k at cycle cmd, decided at curCycle, does to the record. */
  ghost predicate Stepped(t: Timing, rankOf: seq<nat>, banks: seq<Bank>, windows: seq<seq<nat>>, minRespCycle: nat,
                          banks': seq<Bank>, windows': seq<seq<nat>>, minRespCycle': nat, k: nat, hit: bool, act: nat,
                          cmd: nat, curCycle: nat) {
    && k < |banks| && k < |rankOf| && rankOf[k] < |windows| && windows[rankOf[k]] != []
    && |banks'| == |banks| && banks' == banks[k := banks'[k]] && Reaches(t, banks[k], banks'[k], cmd)
    && windows' == WindowsAfter(rankOf, windows, k, hit, act) && minRespCycle' == cmd + t.tCL + t.tBL
    && cmd <= Max(curCycle, minRespCycle + t.tWTR) && (!hit ==> act <= cmd)
  }

  /** Serving a request reaches no further than Stride. */
  lemma SteppedBy(t: Timing, rankOf: seq<nat>, banks: seq<Bank>, windows: seq<seq<nat>>, minRespCycle: nat,
                  banks': seq<Bank>, windows': seq<seq<nat>>, minRespCycle': nat, k: nat, hit: bool, act: nat, cmd: nat,
                  curCycle: nat, c: nat)
    requires Stepped(t, rankOf, banks, windows, minRespCycle, banks', windows', minRespCycle', k, hit, act, cmd,
                     curCycle)
    requires AllBy(banks, windows, minRespCycle, c) && curCycle <= c + t.Slack()
    ensures AllBy(banks', windows', minRespCycle', c + t.Stride())
  {
    var c' := c + t.Stride();
    forall b | 0 <= b < |banks| ensures BankBy(banks'[b], c') { assert BankBy(banks[b], c); }
    forall r | 0 <= r < |windows| ensures WindowBy(windows'[r], c') {
      assert WindowBy(windows[r], c) && WindowBy(windows[r], c');
      if !hit && r == rankOf[k] { AddedBy(windows[r], act, c'); }
    }
  }

  predicate RowHit(bank: Bank, r: Request) { r.row == bank.openRow && bank.open }

  function PreCycle(bank: Bank, r: Request): (pre: nat)
    ensures pre >= bank.minPreCycle
  {
    if bank.open then Max(r.arrivalCycle, bank.minPreCycle) else bank.minPreCycle
  }

  /** The cycle at which the request's row can be activated. */
  function ActCycle(t: Timing, bank: Bank, window: seq<nat>, r: Request): (act: nat)
    requires window != []
    ensures act >= r.arrivalCycle && act >= bank.minPreCycle + t.tRP && act >= bank.lastActCycle + t.tRRD &&
            act >= window[0] + t.tFAW
  {
    Max(Max(r.arrivalCycle, Max(PreCycle(bank, r) + t.tRP, bank.lastActCycle + t.tRRD)), window[0] + t.tFAW)
  }

  function MinCmdCycle(t: Timing, bank: Bank, window: seq<nat>, r: Request): (c: nat)
    requires window != []
  {
    if RowHit(bank, r) then Max(r.arrivalCycle, bank.lastCmdCycle + 1) else ActCycle(t, bank, window, r) + t.tRCD
  }

  /** The activation waits for its request, for the bank and for the rank, and for nothing else; an open
      row is closed no earlier than the request is there. */
  lemma ActCycleIsEarliest(t: Timing, bank: Bank, window: seq<nat>, r: Request, c: nat)
    requires window != []
    ensures ActCycle(t, bank, window, r) <= c <==>
              && r.arrivalCycle <= c && bank.minPreCycle + t.tRP <= c && bank.lastActCycle + t.tRRD <= c
              && window[0] + t.tFAW <= c && (bank.open ==> r.arrivalCycle + t.tRP <= c)
  {
  }

  /** A request that hits the open row waits for the last command only, any other for its activation. */
  lemma MinCmdCycleIsEarliest(t: Timing, bank: Bank, window: seq<nat>, r: Request, c: nat)
    requires window != []
    ensures MinCmdCycle(t, bank, window, r) <= c <==>
              if bank.open && bank.openRow == r.row then r.arrivalCycle <= c && bank.lastCmdCycle < c
              else ActCycle(t, bank, window, r) + t.tRCD <= c
  {
  }

  function Activated(t: Timing, bank: Bank, r: Request, actCycle: nat): (b: Bank)
    ensures b.open && b.openRow == r.row && b.lastActCycle == actCycle && b.lastCmdCycle == bank.lastCmdCycle
    ensures b.minPreCycle >= bank.minPreCycle
    ensures b.minPreCycle <= Max(bank.minPreCycle, PreCycle(bank, r) + t.tRAS)
  {
    bank.(open := true, openRow := r.row, lastActCycle := actCycle,
          minPreCycle := if bank.open then PreCycle(bank, r) + t.tRAS else bank.minPreCycle)
  }

  /** The bank after a column command; minPreCycle need not grow with each command by itself. */
  function AfterColumn(t: Timing, bank: Bank, r: Request, cmdCycle: nat, close: bool): (b: Bank)
    ensures b.minPreCycle >= bank.minPreCycle && b.minPreCycle >= bank.lastActCycle + t.tRAS
    ensures b.minPreCycle >= Recovery(t, Col(r.bank, r.row, r.write, cmdCycle))
    ensures b.open == (bank.open && !close) && b.lastCmdCycle == cmdCycle && b.curRowHits == r.rowHitSeq
    ensures b.minPreCycle <= Max(Max(bank.minPreCycle, bank.lastActCycle + t.tRAS),
                                 cmdCycle + t.tCL + t.tBL + t.tWR + t.tRTP)
    ensures b.lastActCycle == bank.lastActCycle
  {
    var minRespCycle := cmdCycle + t.tCL + t.tBL;
    var minPreCycle := Max(bank.minPreCycle, Max(bank.lastActCycle + t.tRAS,
                                                 if r.write then minRespCycle + t.tWR else cmdCycle + t.tRTP));
    Bank(bank.open && !close, bank.openRow, minPreCycle, bank.lastActCycle, cmdCycle, r.rowHitSeq)
  }

  /** After a column command the bank may be precharged as soon as the recovery is over, the row has been
      open for tRAS, and it might have been anyway. */
  lemma PrechargeIsEarliest(t: Timing, bank: Bank, r: Request, cmdCycle: nat, close: bool, c: nat)
    ensures AfterColumn(t, bank, r, cmdCycle, close).minPreCycle <= c <==>
              && bank.minPreCycle <= c && bank.lastActCycle + t.tRAS <= c
              && Recovery(t, Col(r.bank, r.row, r.write, cmdCycle)) <= c
  {
  }

  function IssuedBank(t: Timing, bank: Bank, r: Request, act: nat, cmdCycle: nat, close: bool): Bank {
    AfterColumn(t, if RowHit(bank, r) then bank else Activated(t, bank, r, act), r, cmdCycle, close)
  }

  lemma IssuedTakes(t: Timing, bank: Bank, window: seq<nat>, r: Request, minRespCycle: nat, lastCmdWasWrite: bool,
                    cmd: nat, close: bool)
    requires t.Valid() && BankOk(t, bank, minRespCycle) && window != []
    requires minRespCycle <= cmd + t.tCL && (lastCmdWasWrite && !r.write ==> minRespCycle + t.tWTR <= cmd)
    requires MinCmdCycle(t, bank, window, r) <= cmd
    ensures var act := ActCycle(t, bank, window, r);
            var b' := IssuedBank(t, bank, r, act, cmd, close);
            && Takes(t, bank, b', minRespCycle, lastCmdWasWrite, r.row, r.write, RowHit(bank, r), act, cmd)
            && Reaches(t, bank, b', cmd)
            && b'.open == !close && b'.openRow == r.row && b'.curRowHits == r.rowHitSeq
  {
  }

  lemma WindowKept(t: Timing, rankOf: seq<nat>, log: seq<Command>, k: nat, row: nat, write: bool, hit: bool, act: nat,
                   cmd: nat, r: nat)
    requires k < |rankOf| && Spaced(ACTS_PER_WINDOW, t.tFAW, RankActs(rankOf, log, r))
    requires !hit ==> After(ACTS_PER_WINDOW, RankActs(rankOf, log, rankOf[k]))[0] + t.tFAW <= act
    ensures var w := After(ACTS_PER_WINDOW, RankActs(rankOf, log, r));
            WindowOk(t, rankOf, log + Taken(k, row, write, hit, act, cmd),
                     if !hit && r == rankOf[k] then Added(w, act) else w, r)
  {
    var a, col := Act(k, row, act), Col(k, row, write, cmd);
    var mid := if hit then log else log + [a];
    RankActsOneMore(rankOf, log, a, r);
    RankActsOneMore(rankOf, mid, col, r);
    assert mid + [col] == log + Taken(k, row, write, hit, act, cmd);
    var acts := RankActs(rankOf, log, r);
    if !hit && r == rankOf[k] {
      SpacedExtends(ACTS_PER_WINDOW, t.tFAW, acts, act);
    } else {
      assert acts + [] == acts;
    }
  }

  // ----- tRRD -----

  /** Two activations, in whatever order they were decided, are tRRD apart. */
  predicate RrdApart(t: Timing, a: Command, b: Command)
    requires a.Act? && b.Act?
  {
    a.cycle + t.tRRD <= b.cycle || b.cycle + t.tRRD <= a.cycle
  }

  predicate OneRank(rankOf: seq<nat>, a: Command, b: Command) {
    a.Act? && b.Act? && a.bank < |rankOf| && b.bank < |rankOf| && rankOf[a.bank] == rankOf[b.bank]
  }

  /** The activations of each rank are tRRD apart. */
  ghost predicate RanksKeepRrd(t: Timing, rankOf: seq<nat>, log: seq<Command>) {
    forall i, j :: 0 <= i < j < |log| && OneRank(rankOf, log[i], log[j]) ==> RrdApart(t, log[i], log[j])
  }

  ghost predicate SingleBankRanks(rankOf: seq<nat>) {
    forall a, b :: 0 <= a < b < |rankOf| ==> rankOf[a] != rankOf[b]
  }

  /** What the devices are told when two closed banks are read with everything in the past: both are
      activated as soon as the first of them could be. */
  function TwoReads(t: Timing, a: nat, b: nat): seq<Command> {
    var act, cmd := FirstAct(t), FirstAct(t) + t.tRCD + t.tBL + 1;
    Taken(a, 0, false, false, act, cmd) + Taken(b, 0, false, false, act, cmd + t.tBL)
  }

  function FirstAct(t: Timing): nat { Max(Max(t.tRP, t.tRRD), t.tFAW) }

  /** tRRD keeps apart the activations of a bank, not those of a rank: any two banks of any rank can be
      activated in the same cycle, whatever the parameters. */
  method ActivateTogether(t: Timing, rankOf: seq<nat>, ranks: nat, a: nat, b: nat) returns (c: Channel)
    requires t.Valid() && forall k :: 0 <= k < |rankOf| ==> rankOf[k] < ranks
    requires a < b < |rankOf| && rankOf[a] == rankOf[b]
    ensures c.Valid() && c.t == t && c.rankOf == rankOf && c.log == TwoReads(t, a, b)
    ensures t.tRRD > 0 ==> !RanksKeepRrd(t, rankOf, c.log)
  {
    c := OneRead(t, rankOf, ranks, a, b);
    c.ValidIsReady();
    var cycle := FirstAct(t) + t.tRCD + t.tBL + 1;
    var rowHit, act, cmd := c.Issue(Request(1, 1, false, b, 0, false, 0, 0), cycle + t.tBL, false, false);
    if t.tRRD > 0 { BothActivated(t, rankOf, a, b); }
  }

  /** The first of them leaves the other bank, and what the window shows, as they were. */
  method OneRead(t: Timing, rankOf: seq<nat>, ranks: nat, a: nat, b: nat) returns (c: Channel)
    requires t.Valid() && forall k :: 0 <= k < |rankOf| ==> rankOf[k] < ranks
    requires a < b < |rankOf|
    ensures c.Valid() && c.t == t && c.rankOf == rankOf && |c.banks| == |rankOf| && |c.windows| == ranks
    ensures c.log == Taken(a, 0, false, false, FirstAct(t), FirstAct(t) + t.tRCD + t.tBL + 1)
    ensures c.banks[b] == Bank(false, 0, 0, 0, 0, 0) && !c.lastCmdWasWrite
    ensures c.windows[rankOf[a]] != [] && c.windows[rankOf[a]][0] == 0
    ensures c.minRespCycle == FirstAct(t) + t.tRCD + t.tBL + 1 + t.tCL + t.tBL
    ensures fresh(c)
  {
    c := new Channel(t, rankOf, ranks);
    c.ValidIsReady();
    var cycle := FirstAct(t) + t.tRCD + t.tBL + 1;
    var rowHit, act, cmd := c.Issue(Request(0, 0, false, a, 0, false, 0, 0), cycle, false, false);
    StillShowsZero(act);
    assert c.log == [] + Taken(a, 0, false, false, act, cmd);
  }

  lemma StillShowsZero(act: nat)
    ensures Added(seq(ACTS_PER_WINDOW, i => 0), act)[0] == 0
  {
    assert KeepCount(seq(ACTS_PER_WINDOW, i => 0)[1..], act) > 0;
  }

  lemma BothActivated(t: Timing, rankOf: seq<nat>, a: nat, b: nat)
    requires a < b < |rankOf| && rankOf[a] == rankOf[b] && t.tRRD > 0
    ensures !RanksKeepRrd(t, rankOf, TwoReads(t, a, b))
  {
    var log := TwoReads(t, a, b);
    assert OneRank(rankOf, log[0], log[2]) && !RrdApart(t, log[0], log[2]);
  }
}
