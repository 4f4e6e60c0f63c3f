/** The filter in front of an L1 (zsim/src/filter_cache.h): one line a set, read without a lock.
    The L1 is set-associative without hashing, as zsim/src/init.cpp:401-403 insists. */
module FilterCache {
  import opened Coherence
  import opened Counting

  type Address = nat

  const NONE: int := -1  // the all-ones word that no line address equals

  /** rdAddr and wrAddr are virtual line addresses, NONE, or 0 after a clear. */
  datatype FilterEntry = FilterEntry(rdAddr: Tag, wrAddr: Tag, availCycle: nat)

  type Tag = x: int | x >= -1

  const CLEARED := FilterEntry(0, 0, 0)

  datatype L1Line = L1Line(addr: Address, state: MESI)

  /** The access the core is in the middle of: none, waiting for the victim to leave, or waiting for
      the line. */
  datatype Access = Idle
                  | Replacing(vLineAddr: Address, isLoad: bool, lineId: nat)
                  | Fetching(vLineAddr: Address, isLoad: bool, lineId: nat)

  /** The physical address of a virtual line: procMask | vLineAddr, whose bits do not overlap. */
  function Phys(mask: nat, v: Address): Address { mask + v }

  lemma SameIndex(mask: nat, v: Address, numSets: nat)
    requires numSets > 0 && mask % numSets == 0
    ensures Phys(mask, v) % numSets == v % numSets
  {
    AddMultiple(v, mask / numSets, numSets);
    assert mask == mask / numSets * numSets;
  }

  lemma {:induction false} AddMultiple(v: nat, k: nat, n: nat)
    requires n > 0
    ensures (k * n + v) % n == v % n
  {
    if k > 0 {
      AddMultiple(v, k - 1, n);
      OneMore((k - 1) * n + v, n);
      assert (k - 1) * n + n == k * n;
    }
  }

  lemma OneMore(x: nat, n: nat)
    requires n > 0
    ensures (x + n) % n == x % n
  {
    var q, r := (x + n) / n, (x + n) % n;
    Quotient(x, n, q - 1, r);
  }

  lemma Quotient(x: nat, n: nat, q: int, r: nat)
    requires n > 0 && x == q * n + r && r < n
    ensures x % n == r
  {
    var d := q - x / n;
    assert d * n == q * n - x / n * n;
    assert x == x / n * n + x % n;
    if d > 0 { MulMono(1, d, n); }
    if d < 0 { MulMono(1, -d, n); }
  }

  function Later(a: nat, b: nat): (m: nat)
    ensures m >= a && m >= b && (m == a || m == b)
  {
    if a > b then a else b
  }

  // ----- the L1's array -----

  predicate InSet(id: nat, set_: nat, assoc: nat) { set_ * assoc <= id < set_ * assoc + assoc }

  /** Each line sits in its own set, once; the ones with address 0 are empty, but for the first. */
  ghost predicate TagsOk(ls: seq<L1Line>, numSets: nat, assoc: nat)
    requires numSets > 0
  {
    && |ls| == numSets * assoc
    && (forall i :: 0 <= i < |ls| && (ls[i].addr != 0 || ls[i].state != I) ==>
          InSet(i, ls[i].addr % numSets, assoc))
    && (forall i, j :: 0 <= i < |ls| && 0 <= j < |ls| && ls[i].addr != 0 && ls[i].addr == ls[j].addr ==> i == j)
    && (forall i, j :: 0 <= i < j < |ls| && ls[i].addr == 0 && ls[j].addr == 0 ==> ls[j].state == I)
  }

  ghost predicate Holds(ls: seq<L1Line>, addr: Address, m: bool) {
    exists i :: 0 <= i < |ls| && HeldAt(ls, addr, m, i)
  }

  /** Line i holds addr, and in M if m. */
  ghost predicate HeldAt(ls: seq<L1Line>, addr: Address, m: bool, i: nat)
    requires i < |ls|
  {
    ls[i].addr == addr && ls[i].state != I && (m ==> ls[i].state == M)
  }

  /** What entry e claims about the L1, for the process with this mask. */
  ghost predicate EntryOk(e: FilterEntry, idx: nat, numSets: nat, mask: nat, ls: seq<L1Line>)
    requires numSets > 0
  {
    && (e.rdAddr > 0 ==> e.rdAddr % numSets == idx && Holds(ls, Phys(mask, e.rdAddr), false))
    && (e.wrAddr > 0 ==> e.wrAddr == e.rdAddr && Holds(ls, Phys(mask, e.wrAddr), true))
  }

  lemma SetFits(set_: nat, numSets: nat, assoc: nat)
    requires set_ < numSets
    ensures set_ * assoc + assoc <= numSets * assoc
  {
    assert (set_ + 1) * assoc <= numSets * assoc by { MulMono(set_ + 1, numSets, assoc); }
  }

  /** Lines of different sets are different lines. */
  lemma OtherSet(i: nat, a: nat, b: nat, assoc: nat)
    requires InSet(i, a, assoc) && InSet(i, b, assoc)
    ensures a == b
  {
    if a < b { MulMono(a + 1, b, assoc); }
    if b < a { MulMono(b + 1, a, assoc); }
  }

  /** An entry survives what happens to line k, unless it relies on k. */
  lemma EntryKept(e: FilterEntry, idx: nat, numSets: nat, mask: nat, ls: seq<L1Line>, k: nat, l: L1Line)
    requires numSets > 0 && k < |ls| && EntryOk(e, idx, numSets, mask, ls)
    requires e.rdAddr > 0 && ls[k].addr == Phys(mask, e.rdAddr) && ls[k].state != I ==>
               l.addr == ls[k].addr && l.state != I && (ls[k].state == M && e.wrAddr > 0 ==> l.state == M)
    ensures EntryOk(e, idx, numSets, mask, ls[k := l])
  {
    if e.rdAddr > 0 {
      var i :| 0 <= i < |ls| && HeldAt(ls, Phys(mask, e.rdAddr), false, i);
      assert HeldAt(ls[k := l], Phys(mask, e.rdAddr), false, i);
    }
    if e.wrAddr > 0 {
      var i :| 0 <= i < |ls| && HeldAt(ls, Phys(mask, e.wrAddr), true, i);
      assert HeldAt(ls[k := l], Phys(mask, e.wrAddr), true, i);
    }
  }

  /** Whether an invalidation by a process with this mask finds its line in entry e. */
  predicate Sees(mask: nat, e: FilterEntry, lineAddr: Address) { e.rdAddr != NONE && Phys(mask, e.rdAddr) == lineAddr }

  /** The entry promises the core what the invalidation takes away. */
  predicate Relies(mask: nat, e: FilterEntry, lineAddr: Address, typ: InvType) {
    e.rdAddr > 0 && Phys(mask, e.rdAddr) == lineAddr && (typ == INV || e.wrAddr > 0)
  }

  /** Line k is invalidated or downgraded: an entry stays truthful exactly if it did not rely on it. */
  lemma TakenAway(e: FilterEntry, idx: nat, numSets: nat, assoc: nat, mask: nat, ls: seq<L1Line>, k: nat, typ: InvType)
    requires numSets > 0 && TagsOk(ls, numSets, assoc) && k < |ls| && ls[k].state != I
    requires EntryOk(e, idx, numSets, mask, ls)
    ensures EntryOk(e, idx, numSets, mask, ls[k := L1Line(ls[k].addr, if typ == INV then I else S)]) <==>
            !Relies(mask, e, ls[k].addr, typ)
  {
    var ls' := ls[k := L1Line(ls[k].addr, if typ == INV then I else S)];
    if e.rdAddr > 0 && Phys(mask, e.rdAddr) == ls[k].addr {
      var m := typ == INVX;
      forall i | 0 <= i < |ls'| ensures !HeldAt(ls', ls[k].addr, m, i) { assert i != k ==> ls[i].addr != ls[k].addr; }
      assert typ == INVX ==> HeldAt(ls', ls[k].addr, false, k);
    } else {
      EntryKept(e, idx, numSets, mask, ls, k, ls'[k]);
    }
  }

  class FilterCache {
    const numSets: nat
    const assoc: nat
    const filterArray: array<FilterEntry>
    const lines: array<L1Line>
    var procMask: nat
    var access: Access

    ghost predicate Shape()
      reads this, lines
    {
      && numSets > 0 && assoc > 0 && filterArray.Length == numSets && procMask % numSets == 0
      && TagsOk(lines[..], numSets, assoc)
      && match access
         case Idle => true
         case Replacing(v, _, id) => id < lines.Length && InSet(id, v % numSets, assoc) && Absent(Phys(procMask, v))
         case Fetching(v, _, id) => Found(Phys(procMask, v), id)
    }

    /** Looking for this address finds no line; an empty line has address 0. */
    ghost predicate Absent(addr: Address)
      reads this, lines
      requires numSets > 0
    {
      forall i :: 0 <= i < lines.Length && InSet(i, addr % numSets, assoc) ==> lines[i].addr != addr
    }

    /** Or it finds line id. */
    ghost predicate Found(addr: Address, id: nat)
      reads this, lines
      requires numSets > 0
    {
      && id < lines.Length && lines[id].addr == addr && InSet(id, addr % numSets, assoc)
      && forall i :: 0 <= i < id ==> lines[i].addr != addr
    }

    /** The set whose entry the core's current access will overwrite. */
    predicate Busy(idx: nat)
      reads this
      requires numSets > 0
    {
      !access.Idle? && access.vLineAddr % numSets == idx
    }

    /** Every entry that the core may read tells the truth about the L1. */
    ghost predicate Valid()
      reads this, filterArray, lines
    {
      Shape() && forall i :: 0 <= i < numSets && !Busy(i) ==> EntryOk(filterArray[i], i, numSets, procMask, lines[..])
    }

    constructor (numSets: nat, assoc: nat, procMask: nat)
      requires numSets > 0 && assoc > 0 && procMask % numSets == 0
      ensures Valid() && access == Idle && this.numSets == numSets && this.assoc == assoc && this.procMask == procMask
      ensures fresh(filterArray) && fresh(lines) && forall i :: 0 <= i < numSets ==> filterArray[i] == CLEARED
      ensures forall i :: 0 <= i < lines.Length ==> lines[i] == L1Line(0, I)
    {
      this.numSets, this.assoc, this.procMask, access := numSets, assoc, procMask, Idle;
      filterArray := new FilterEntry[numSets](_ => CLEARED);
      lines := new L1Line[numSets * assoc](_ => L1Line(0, I));
    }

    /** SetAssocArray::lookup. */
    method Lookup(lineAddr: Address) returns (lineId: int)
      requires Shape()
      ensures lineId == -1 ==> Absent(lineAddr)
      ensures lineId != -1 ==> 0 <= lineId && Found(lineAddr, lineId)
    {
      var set_ := lineAddr % numSets;
      SetFits(set_, numSets, assoc);
      var first := set_ * assoc;
      for id := first to first + assoc
        invariant forall i :: first <= i < id ==> lines[i].addr != lineAddr
      {
        if lines[id].addr == lineAddr {
          OnlyInItsSet(lineAddr, id);
          return id;
        }
      }
      return -1;
    }

    lemma OnlyInItsSet(lineAddr: Address, id: nat)
      requires numSets > 0 && TagsOk(lines[..], numSets, assoc) && InSet(id, lineAddr % numSets, assoc)
      requires id < lines.Length
      requires forall i :: lineAddr % numSets * assoc <= i < id ==> lines[i].addr != lineAddr
      ensures forall i :: 0 <= i < id ==> lines[i].addr != lineAddr
    {
      forall i | 0 <= i < lineAddr % numSets * assoc ensures lines[i].addr != lineAddr {
        assert lines[..][i].addr != 0 ==> InSet(i, lines[..][i].addr % numSets, assoc);
      }
    }

    /** A load: a hit in the filter means that the L1 holds the line, unless that is line 0. */
    method Load(vLineAddr: Address, curCycle: nat) returns (hit: bool, cycle: nat)
      requires Valid() && access == Idle
      modifies this`access
      ensures Valid()
      ensures hit <==> filterArray[vLineAddr % numSets].rdAddr == vLineAddr
      ensures hit ==> access == Idle && (vLineAddr > 0 ==> Holds(lines[..], Phys(procMask, vLineAddr), false))
      ensures hit ==> var avail := filterArray[vLineAddr % numSets].availCycle;
                      cycle >= curCycle && cycle >= avail && (cycle == curCycle || cycle == avail)
      ensures !hit ==> Started(vLineAddr, true)
    {
      var idx := vLineAddr % numSets;
      var availCycle := filterArray[idx].availCycle;
      if vLineAddr == filterArray[idx].rdAddr {
        return true, Later(curCycle, availCycle);
      }
      Replace(vLineAddr, true);
      return false, 0;
    }

    /** A store: a hit in the filter means that the L1 holds the line in M, unless that is line 0. */
    method Store(vLineAddr: Address, curCycle: nat) returns (hit: bool, cycle: nat)
      requires Valid() && access == Idle
      modifies this`access
      ensures Valid()
      ensures hit <==> filterArray[vLineAddr % numSets].wrAddr == vLineAddr
      ensures hit ==> access == Idle && (vLineAddr > 0 ==> Holds(lines[..], Phys(procMask, vLineAddr), true))
      ensures hit ==> var avail := filterArray[vLineAddr % numSets].availCycle;
                      cycle >= curCycle && cycle >= avail && (cycle == curCycle || cycle == avail)
      ensures !hit ==> Started(vLineAddr, false)
    {
      var idx := vLineAddr % numSets;
      var availCycle := filterArray[idx].availCycle;
      if vLineAddr == filterArray[idx].wrAddr {
        return true, Later(curCycle, availCycle);
      }
      Replace(vLineAddr, false);
      return false, 0;
    }

    predicate Started(v: Address, isLoad: bool)
      reads this
    {
      !access.Idle? && access.vLineAddr == v && access.isLoad == isLoad
    }

    /** replace, up to Cache::access waiting for a parent: for the victim, or for the line itself. */
    method Replace(vLineAddr: Address, isLoad: bool)
      requires Valid() && access == Idle
      modifies this`access
      ensures Valid() && Started(vLineAddr, isLoad)
      ensures access.Replacing? <==> Absent(Phys(procMask, vLineAddr))
    {
      var pLineAddr := Phys(procMask, vLineAddr);
      SameIndex(procMask, vLineAddr, numSets);
      var lineId := Lookup(pLineAddr);
      if lineId == -1 {
        var victim := Preinsert(pLineAddr);
        access := Replacing(vLineAddr, isLoad, victim);
      } else {
        access := Fetching(vLineAddr, isLoad, lineId);
      }
    }

    /** SetAssocArray::preinsert: any line of the set will do, whatever the replacement policy. */
    method Preinsert(lineAddr: Address) returns (lineId: nat)
      requires Shape()
      ensures lineId < lines.Length && InSet(lineId, lineAddr % numSets, assoc)
    {
      SetFits(lineAddr % numSets, numSets, assoc);
      assert 0 < assoc;
      var way :| 0 <= way < assoc;
      lineId := lineAddr % numSets * assoc + way;
    }

    /** The victim is gone (a put, or an invalidation that overtook it): SetAssocArray::postinsert, and
        on to fetching the line. */
    method Insert()
      requires Valid() && access.Replacing?
      modifies this`access, lines
      ensures Valid() && access == Fetching(old(access).vLineAddr, old(access).isLoad, old(access).lineId)
      ensures lines[..] == old(lines[..])[access.lineId := L1Line(Phys(procMask, access.vLineAddr), I)]
    {
      ghost var ls, busy := lines[..], access.vLineAddr % numSets;
      var id, pLineAddr := access.lineId, Phys(procMask, access.vLineAddr);
      SameIndex(procMask, access.vLineAddr, numSets);
      lines[id] := L1Line(pLineAddr, I);
      access := Fetching(access.vLineAddr, access.isLoad, id);
      assert lines[..] == ls[id := L1Line(pLineAddr, I)];
      forall i | 0 <= i < numSets && !Busy(i) ensures EntryOk(filterArray[i], i, numSets, procMask, lines[..]) {
        NotInThatSet(ls, filterArray[i], i, busy, id);
        EntryKept(filterArray[i], i, numSets, procMask, ls, id, L1Line(pLineAddr, I));
      }
    }

    lemma NotInThatSet(ls: seq<L1Line>, e: FilterEntry, i: nat, busy: nat, id: nat)
      requires numSets > 0 && procMask % numSets == 0 && TagsOk(ls, numSets, assoc) && id < |ls| &&
               InSet(id, busy, assoc)
      requires EntryOk(e, i, numSets, procMask, ls) && i != busy
      ensures e.rdAddr > 0 ==> ls[id].addr != Phys(procMask, e.rdAddr)
    {
      if e.rdAddr > 0 && ls[id].addr == Phys(procMask, e.rdAddr) {
        SameIndex(procMask, e.rdAddr, numSets);
        OtherSet(id, ls[id].addr % numSets, busy, assoc);
      }
    }

    /** The access is answered (excl tells whether a GETS got E): the rest of replace. */
    method Finish(excl: bool, respCycle: nat)
      requires Valid() && access.Fetching?
      modifies this`access, lines, filterArray
      ensures Valid() && access == Idle
      ensures var v := old(access).vLineAddr;
              var was := old(filterArray[access.vLineAddr % numSets]);
              var avail := if was.rdAddr == v then was.availCycle else respCycle;
              filterArray[..] ==
                old(filterArray[..])[v % numSets := FilterEntry(v, if old(access).isLoad then NONE else v, avail)]
      ensures var id := old(access).lineId; var was := old(lines[access.lineId]);
              var m := if !old(access).isLoad then M else if was.state != I then was.state else if excl then E else S;
              lines[..] == old(lines[..])[id := L1Line(was.addr, m)]
    {
      ghost var ls, es := lines[..], filterArray[..];
      var id, v, isLoad := access.lineId, access.vLineAddr, access.isLoad;
      var idx := v % numSets;
      var m := if !isLoad then M else if lines[id].state != I then lines[id].state else if excl then E else S;
      lines[id] := lines[id].(state := m);
      var oldAddr := filterArray[idx].rdAddr;
      filterArray[idx] := FilterEntry(v, if isLoad then NONE else v,
                                      if oldAddr != v then respCycle else filterArray[idx].availCycle);
      access := Idle;
      assert lines[..] == ls[id := L1Line(Phys(procMask, v), m)];
      assert HeldAt(lines[..], Phys(procMask, v), !isLoad, id) && HeldAt(lines[..], Phys(procMask, v), false, id);
      forall i | 0 <= i < numSets ensures EntryOk(filterArray[i], i, numSets, procMask, lines[..]) {
        if i != idx { EntryKept(es[i], i, numSets, procMask, ls, id, lines[id]); }
      }
    }

    /** An invalidation or downgrade of a line that the L1 holds, from a thread whose process has mask
        callerMask.  It keeps the filter truthful exactly if the filter does not rely on what is taken
        away, or the mask lets it see that it does; a thread of the same process always does. */
    method Invalidate(callerMask: nat, lineAddr: Address, typ: InvType) returns (writeback: bool)
      requires Valid() && HeldFor(lineAddr, typ)
      modifies lines, filterArray
      ensures Shape()
      ensures Valid() <==>
              (Busy(lineAddr % numSets) || !Relies(procMask, old(filterArray[lineAddr % numSets]), lineAddr, typ)
               || Sees(callerMask, old(filterArray[lineAddr % numSets]), lineAddr))
      ensures callerMask == procMask ==> Valid()
      ensures var idx := lineAddr % numSets; var e := old(filterArray[lineAddr % numSets]);
              filterArray[..] == if Sees(callerMask, e, lineAddr)
                                 then old(filterArray[..])[idx := FilterEntry(NONE, NONE, e.availCycle)]
                                 else old(filterArray[..])
      ensures writeback <==> Holds(old(lines[..]), lineAddr, true)
      ensures !Holds(lines[..], lineAddr, typ == INVX)
      ensures exists id :: 0 <= id < lines.Length && old(lines[id].addr) == lineAddr &&
                lines[..] == old(lines[..])[id := L1Line(lineAddr, if typ == INV then I else S)]
    {
      ghost var ls, es, e := lines[..], filterArray[..], filterArray[lineAddr % numSets];
      var idx := lineAddr % numSets;
      if Sees(callerMask, filterArray[idx], lineAddr) {
        filterArray[idx] := FilterEntry(NONE, NONE, filterArray[idx].availCycle);
      }
      ghost var lineId;
      writeback, lineId := TakeAway(lineAddr, typ);
      Consequences(ls, es, callerMask, lineId, typ);
    }

    /** Cache::finishInvalidate. */
    method TakeAway(lineAddr: Address, typ: InvType) returns (writeback: bool, ghost lineId: nat)
      requires Shape() && HeldFor(lineAddr, typ)
      modifies lines
      ensures Shape() && lineId < lines.Length
      ensures old(lines[lineId].addr) == lineAddr && old(lines[lineId].state) != I
      ensures lines[..] == old(lines[..])[lineId := L1Line(lineAddr, if typ == INV then I else S)]
      ensures writeback <==> Holds(old(lines[..]), lineAddr, true)
      ensures !Holds(lines[..], lineAddr, typ == INVX)
    {
      ghost var ls := lines[..];
      var id := Lookup(lineAddr);
      HeldIsFound(lineAddr, typ);
      assert id != -1;
      HolderIs(ls, lineAddr, id);
      assert Holds(ls, lineAddr, false);
      lineId := id;
      writeback := lines[id].state == M;
      lines[id] := lines[id].(state := if typ == INV then I else S);
      assert lines[..] == ls[id := L1Line(lineAddr, if typ == INV then I else S)];
      HolderIs(lines[..], lineAddr, id);
    }

    lemma Consequences(ls: seq<L1Line>, es: seq<FilterEntry>, callerMask: nat, k: nat, typ: InvType)
      requires Shape() && TagsOk(ls, numSets, assoc) && k < |ls| && ls[k].state != I && |es| == numSets
      requires forall i :: 0 <= i < numSets && !Busy(i) ==> EntryOk(es[i], i, numSets, procMask, ls)
      requires lines[..] == ls[k := L1Line(ls[k].addr, if typ == INV then I else S)]
      requires var idx := ls[k].addr % numSets;
               filterArray[..] == if Sees(callerMask, es[idx], ls[k].addr)
                                  then es[idx := FilterEntry(NONE, NONE, es[idx].availCycle)] else es
      ensures var idx := ls[k].addr % numSets;
              Valid() <==> Busy(idx) || !Relies(procMask, es[idx], ls[k].addr, typ) ||
                           Sees(callerMask, es[idx], ls[k].addr)
    {
      var idx := ls[k].addr % numSets;
      forall i | 0 <= i < numSets && !Busy(i)
        ensures i != idx ==> EntryOk(filterArray[i], i, numSets, procMask, lines[..])
      {
        TakenAway(es[i], i, numSets, assoc, procMask, ls, k, typ);
        if es[i].rdAddr > 0 { SameIndex(procMask, es[i].rdAddr, numSets); }
        assert i != idx ==> filterArray[..][i] == es[i];
      }
      if !Busy(idx) { TakenAway(es[idx], idx, numSets, assoc, procMask, ls, k, typ); }
      assert filterArray[idx] == filterArray[..][idx];
    }

    /** What is held can be looked up. */
    lemma HeldIsFound(lineAddr: Address, typ: InvType)
      requires Shape() && HeldFor(lineAddr, typ)
      ensures !Absent(lineAddr)
    {
      var i :| 0 <= i < lines.Length && lines[i].addr == lineAddr && lines[i].state != I;
      assert lines[..][i].state != I;
    }

    /** Only the first line with this address can hold it, so looking it up finds what does. */
    lemma HolderIs(ls: seq<L1Line>, lineAddr: Address, k: nat)
      requires numSets > 0 && TagsOk(ls, numSets, assoc) && k < |ls| && ls[k].addr == lineAddr
      requires forall i :: 0 <= i < k ==> ls[i].addr != lineAddr
      ensures forall m :: Holds(ls, lineAddr, m) <==> HeldAt(ls, lineAddr, m, k)
    {
    }

    ghost predicate HeldFor(lineAddr: Address, typ: InvType)
      reads this, lines
    {
      exists i :: 0 <= i < lines.Length && lines[i].addr == lineAddr && lines[i].state != I &&
        (typ == INVX ==> Excl(lines[i].state))
    }

    /** The core goes to another process: everything is forgotten. */
    method ContextSwitch(procMask: nat)
      requires Valid() && procMask % numSets == 0 && (procMask == this.procMask || access == Idle)
      modifies this`procMask, filterArray
      ensures Valid() && this.procMask == procMask && forall i :: 0 <= i < numSets ==> filterArray[i] == CLEARED
    {
      for i := 0 to numSets
        invariant forall k :: 0 <= k < i ==> filterArray[k] == CLEARED
      {
        filterArray[i] := CLEARED;
      }
      this.procMask := procMask;
    }

    /** Any schedule of loads, stores, steps of the access in progress, invalidations by threads of the
        same process, and context switches. */
    method Run(schedule: seq<Event>)
      requires Valid()
      modifies this, filterArray, lines
      ensures Valid()
    {
      for k := 0 to |schedule|
        invariant Valid()
      {
        Take(schedule[k]);
      }
    }

    method Take(e: Event)
      requires Valid()
      modifies this, filterArray, lines
      ensures Valid()
      ensures if old(Possible(e)) then Taken(e)
              else filterArray[..] == old(filterArray[..]) && lines[..] == old(lines[..]) && access == old(access)
    {
      if Possible(e) {
        match e
        case LoadOf(v) => var hit, cycle := Load(v, 0);
        case StoreOf(v) => var hit, cycle := Store(v, 0);
        case Inserted => Insert();
        case Answered(excl, respCycle) => Finish(excl, respCycle);
        case Invalidated(id, typ) => var wb := Invalidate(procMask, lines[id].addr, typ);
        case Switched(mask) => ContextSwitch(mask);
      }
    }

    predicate Possible(e: Event)
      reads this, lines
      requires numSets > 0
    {
      match e
      case LoadOf(_) => access == Idle
      case StoreOf(_) => access == Idle
      case Inserted => access.Replacing?
      case Answered(_, _) => access.Fetching?
      case Invalidated(id, typ) => id < lines.Length && lines[id].state != I && (typ == INVX ==> Excl(lines[id].state))
      case Switched(mask) => mask % numSets == 0 && access == Idle
    }

    /** What an event brings about. */
    twostate predicate Taken(e: Event)
      reads this, filterArray, lines
      requires numSets > 0 && filterArray.Length == numSets && old(Possible(e))
    {
      match e
      case LoadOf(v) => if filterArray[v % numSets].rdAddr == v then access == Idle else Started(v, true)
      case StoreOf(v) => if filterArray[v % numSets].wrAddr == v then access == Idle else Started(v, false)
      case Inserted => access == Fetching(old(access).vLineAddr, old(access).isLoad, old(access).lineId)
      case Answered(_, _) =>
        access == Idle && filterArray[old(access).vLineAddr % numSets].rdAddr == old(access).vLineAddr
      case Invalidated(id, typ) => !Holds(lines[..], old(lines[id].addr), typ == INVX)
      case Switched(mask) => procMask == mask && forall i :: 0 <= i < numSets ==> filterArray[i] == CLEARED
    }
  }

  /** A cleared entry looks like one for line 0: the first load and store of line 0 hit, and the L1 does
      not hold it. */
  method ZeroAlwaysHits(numSets: nat, assoc: nat) returns (cache: FilterCache, loadHit: bool, storeHit: bool)
    requires numSets > 0 && assoc > 0
    ensures cache.Valid() && loadHit && storeHit && !Holds(cache.lines[..], Phys(cache.procMask, 0), false)
  {
    cache := new FilterCache(numSets, assoc, 0);
    var cycle;
    assert 0 % numSets == 0;
    loadHit, cycle := cache.Load(0, 0);
    storeHit, cycle := cache.Store(0, 0);
  }

  /** A line is loaded, and a thread of another process invalidates it: the filter still says that the L1
      holds it. */
  method ForeignInvalidation(numSets: nat, assoc: nat, procMask: nat, callerMask: nat, v: Address)
    returns (cache: FilterCache)
    requires numSets > 0 && assoc > 0 && procMask % numSets == 0 && v > 0 && callerMask != procMask
    ensures cache.numSets == numSets && cache.procMask == procMask && cache.access == Idle
    ensures cache.filterArray.Length == numSets && cache.filterArray[v % numSets].rdAddr == v
    ensures !Holds(cache.lines[..], Phys(procMask, v), false) && !cache.Valid()
  {
    cache := new FilterCache(numSets, assoc, procMask);
    var hit, cycle := cache.Load(v, 0);
    if cache.access.Replacing? { cache.Insert(); }
    cache.Finish(false, 0);
    assert EntryOk(cache.filterArray[v % numSets], v % numSets, numSets, procMask, cache.lines[..]);
    ghost var ls := cache.lines[..];
    ghost var i :| 0 <= i < |ls| && HeldAt(ls, Phys(procMask, v), false, i);
    assert cache.HeldFor(Phys(procMask, v), INV);
    SameIndex(procMask, v, numSets);
    var writeback := cache.Invalidate(callerMask, Phys(procMask, v), INV);
  }

  datatype Event = LoadOf(v: Address) | StoreOf(v: Address) | Inserted | Answered(excl: bool, respCycle: nat)
                 | Invalidated(id: nat, typ: InvType) | Switched(mask: nat)
}
