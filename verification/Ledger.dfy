/** The clock and the bus log together: `NClockIIgs::slow_incr_cycles` hands every cycle's
    cost to `a2buslog::note_cycle` (src/NClock.hpp, src/a2gspu_buslog.hpp). Between a mark
    and whatever the log holds later, the records are a ledger of the master clock.
 */
module Ledger {
  import opened Options
  import opened Clock
  import opened BusLog
  import opened Timing

  datatype Machine = Machine(clock: State, log: Log)

  /** The CPU core pends an access only while the log is on; the clock records only then. */
  datatype Event = Clocked(op: Op) | Bus(addr: nat, value: nat, kind: Kind)

  function Step(m: Machine, e: Event): Machine
  {
    match e
    case Bus(addr, value, kind) => if m.log.on then m.(log := Pend(m.log, addr, value, kind)) else m
    case Clocked(op) =>
      var s := m.clock;
      Machine(GsStep(s, op),
              if op.Cycle? && m.log.on
              then NoteCycle(m.log, s.cycles, s.cycleType, ChargedType(s), !Folded(s) && Slow(s), GsCost(s), s.c14M)
              else m.log)
  }

  function Run(m: Machine, es: seq<Event>): Machine
  {
    if es == [] then m else Step(Run(m, es[..|es| - 1]), es[|es| - 1])
  }

  /** One IIgs cycle of the real objects is one step of the pair of values. */
  method CycleIIgs(clock: NClock, log: Recorder)
    requires clock.View().Valid()
    modifies clock, log
    ensures clock.View().Valid()
    ensures Machine(clock.View(), log.View()) == Step(Machine(old(clock.View()), old(log.View())), Clocked(Cycle))
  {
    var n := clock.cycles;
    var requested, charged, slowmode, start, cost := clock.IncrCyclesIIgs();
    if log.on {
      log.RecordCycle(n, requested, charged, slowmode, cost, start);
    }
  }

  /** One cycle of a clock without a bus-side model: an untimed record, and the same count. */
  method CycleII(clock: NClock, log: Recorder)
    requires clock.View().Valid()
    modifies clock, log
    ensures clock.View() == IiCycle(old(clock.View()))
    ensures log.View() == if old(log.on) then EndCycle(old(log.View()), old(clock.cycles)) else old(log.View())
  {
    var n := clock.cycles;
    clock.IncrCyclesII();
    if log.on {
      log.FinishCycle(n);
    }
  }

  // ---------------------------------------------------------------- one cycle's cost

  /** No part of a cost is cut by its 8-bit field, nor the sum by its 16-bit one, and the
      parts add up to what the clock gained. */
  lemma CostIsExact(s: State)
    requires s.refresh < 50
    ensures Narrow(GsCost(s)) && GsCycle(s).c14M == s.c14M + GsCost(s).Total()
  {
    var u, t := Latch(s), ChargedType(s);
    ChargeIsExact(u, t);
    hide Charge, ChargeCost;
    assert u.c14M == s.c14M;
    if Folded(s) {
      assert GsCost(s) == Cost(0, 0, 0, 0);
    } else {
      assert GsCost(s) == ChargeCost(u, t);
      assert GsCycle(s).c14M == Charge(u, t).c14M;
    }
  }

  predicate Narrow(c: Cost) { c.base <= 14 && c.wait <= 13 && c.refresh <= 5 && c.stretch <= 2 }

  lemma ChargeIsExact(s: State, t: CycleType)
    requires s.refresh < 50
    ensures Narrow(ChargeCost(s, t)) && Charge(s, t).c14M == s.c14M + ChargeCost(s, t).Total()
  {
    CostBounds(s, t);
    var before := CostBeforeStretch(s, t);
    var u := s.(refresh := NextRefresh(s, before), c14M := s.c14M + before.Total());
    assert u.c14M <= CatchUp(u).c14M <= u.c14M + 2;
  }

  lemma RefreshStays(s: State)
    requires s.refresh < 50
    ensures GsCycle(s).refresh < 50
  {
    if !Folded(s) {
      CostBounds(Latch(s), ChargedType(s));
    }
  }

  // ---------------------------------------------------------------- the ledger

  predicate Timed(e: Entry) {
    && e.side != NoSide
    && e.c14m == e.base + e.wait + e.refresh + e.stretch
  }

  /** Consecutive cycles, each starting at the tick where the one before it ended. */
  ghost predicate Chain(es: seq<Entry>, cycle: nat, t14m: nat) {
    forall i :: 0 <= i < |es| ==>
      && es[i].cycle == cycle + i && Timed(es[i])
      && es[i].t14m == t14m + TotalC14m(es[..i])
  }

  function HoldsAccess(es: seq<Entry>): nat {
    if es == [] then 0 else HoldsAccess(es[..|es| - 1]) + if es[|es| - 1].kind.Internal? then 0 else 1
  }

  /** What the log says when the mark was set at CPU cycle `cycle0` and tick `t0`, the clock
      now stands at `cycle` and `t`, and the core has pended `accesses` accesses since. */
  ghost predicate LogIsLedger(l: Log, cycle: nat, t: nat, cycle0: nat, t0: nat, accesses: nat) {
    && l.on && l.note.None? && 1 <= l.cap <= MAX_CAP && |l.entries| <= l.cap
    && (l.dropped > 0 ==> |l.entries| == l.cap)
    && |l.entries| + l.dropped == cycle - cycle0
    && Chain(l.entries, cycle0, t0)
    && (l.dropped == 0 ==>
          && t0 + TotalC14m(l.entries) == t
          && accesses == HoldsAccess(l.entries) + l.overlap + Waiting(l))
    && (l.pending.Some? ==> !l.pending.value.kind.Internal?)
  }

  /** The same of a machine whose clock stood at `at` when the mark was set. */
  ghost predicate IsLedger(m: Machine, at: State, accesses: nat) {
    && m.clock.refresh < 50 && m.log.on
    && LogIsLedger(m.log, m.clock.cycles, m.clock.c14M, at.cycles, at.c14M, accesses)
  }

  function Waiting(l: Log): nat { if l.pending.Some? then 1 else 0 }

  lemma AppendEntry(es: seq<Entry>, e: Entry)
    ensures TotalC14m(es + [e]) == TotalC14m(es) + e.c14m
    ensures HoldsAccess(es + [e]) == HoldsAccess(es) + if e.kind.Internal? then 0 else 1
  {
    assert (es + [e])[..|es|] == es;
  }

  lemma ChainGrows(es: seq<Entry>, e: Entry, cycle: nat, t14m: nat)
    requires Chain(es, cycle, t14m) && Timed(e) && e.cycle == cycle + |es| && e.t14m == t14m + TotalC14m(es)
    ensures Chain(es + [e], cycle, t14m)
  {
    var fs := es + [e];
    assert fs[..|es|] == es;
    forall i | 0 <= i < |fs|
      ensures fs[i].cycle == cycle + i && Timed(fs[i]) && fs[i].t14m == t14m + TotalC14m(fs[..i])
    {
      if i < |es| { assert fs[..i] == es[..i]; }
    }
  }

  /** A record carries the numbers the clock handed over. */
  lemma RecordIsFaithful(l: Log, cycle: nat, requested: CycleType, charged: CycleType, slowmode: bool, c: Cost, t: nat)
    requires Narrow(c)
    ensures var e := Record(l.(note := Some(NarrowNote(requested, charged, slowmode, c, t))), cycle);
            && e.cycle == cycle && e.t14m == t && Timed(e) && e.c14m == c.Total()
            && Cost(e.base, e.wait, e.refresh, e.stretch) == c
            && e.side == (if charged.Sync? then SlowSide else FastSide)
            && e.kind == (if l.pending.Some? then l.pending.value.kind else Internal)
  {
    hide Reasons;
    NarrowIsExact(c);
  }

  lemma NarrowIsExact(c: Cost)
    requires Narrow(c)
    ensures c.base % 256 == c.base && c.wait % 256 == c.wait && c.refresh % 256 == c.refresh && c.stretch % 256 == c.stretch
    ensures c.Total() % 0x1_0000 == c.Total()
  {
  }

  /** And its reasons name what its cost shows. */
  lemma ReasonsFollowCost(l: Log, cycle: nat, n: Note)
    requires l.note == Some(n)
    ensures var e := Record(l, cycle);
            && (SlowMode in e.reasons <==> n.slowmode) && (RefreshHit in e.reasons <==> e.refresh > 0)
            && (Stretch in e.reasons <==> e.stretch > 0) && (FastRomType in e.reasons <==> n.charged.FastRom?)
  {
    hide MmuReason;
    if l.pending.Some? { BusReason(l.pending.value.addr, l.pending.value.kind); }
  }

  /** The record a cycle of the IIgs clock leaves. */
  function CycleRecord(m: Machine): Entry {
    var s := m.clock;
    Record(m.log.(note := Some(NarrowNote(s.cycleType, ChargedType(s), !Folded(s) && Slow(s), GsCost(s), s.c14M))), s.cycles)
  }

  /** A record is on the slow side exactly when the machine runs at 1 MHz or the MMU asked for
      it, and it says which, except where the MMU asked without an access to blame. */
  lemma SlowCyclesAreExplained(m: Machine)
    ensures var e := CycleRecord(m);
            && (e.side.SlowSide? <==> Slow(m.clock) || m.clock.cycleType.Sync?)
            && (SlowMode in e.reasons <==> Slow(m.clock))
            && (e.side.SlowSide? ==>
                  ((exists r :: r in e.reasons && (r.MegaII? || r.Io? || r.Shadow? || r.SlowMode?)) <==>
                   Slow(m.clock) || (m.log.pending.Some? && !m.log.pending.value.kind.SkippedRead?)))
  {
    hide GsCost, MmuReason;
    var s := m.clock;
    var n := NarrowNote(s.cycleType, ChargedType(s), !Folded(s) && Slow(s), GsCost(s), s.c14M);
    ReasonsFollowCost(m.log.(note := Some(n)), s.cycles, n);
    var e := CycleRecord(m);
    if Slow(m.clock) {
      assert SlowMode in e.reasons;
    } else if m.clock.cycleType.Sync? && m.log.pending.Some? && !m.log.pending.value.kind.SkippedRead? {
      var a := m.log.pending.value;
      BusReason(a.addr, a.kind);
      assert MmuReason(a.addr, a.kind) in e.reasons;
    }
  }

  lemma BusReason(addr: nat, kind: Kind)
    ensures var r := MmuReason(addr, kind); r.MegaII? || r.Io? || r.Shadow?
    ensures MmuReason(addr, kind).Shadow? ==> kind.Write? || kind.PhantomWrite?
  {
  }

  lemma NoteKeepsLedger(l: Log, cycle: nat, t: nat, cycle0: nat, t0: nat, accesses: nat,
                        requested: CycleType, charged: CycleType, slowmode: bool, c: Cost)
    requires LogIsLedger(l, cycle, t, cycle0, t0, accesses) && Narrow(c)
    ensures LogIsLedger(NoteCycle(l, cycle, requested, charged, slowmode, c, t), cycle + 1, t + c.Total(),
                        cycle0, t0, accesses)
    ensures NoteCycle(l, cycle, requested, charged, slowmode, c, t).on == l.on
  {
    hide Record, Chain, TotalC14m, HoldsAccess, Timed, Narrow, NarrowNote;
    RecordIsFaithful(l, cycle, requested, charged, slowmode, c, t);
    var e := Record(l.(note := Some(NarrowNote(requested, charged, slowmode, c, t))), cycle);
    if |l.entries| < l.cap && l.dropped == 0 {
      AppendEntry(l.entries, e);
      ChainGrows(l.entries, e, cycle0, t0);
    }
  }

  lemma CycleKeepsLedger(m: Machine, at: State, accesses: nat)
    requires IsLedger(m, at, accesses)
    ensures IsLedger(Step(m, Clocked(Cycle)), at, accesses)
  {
    hide LogIsLedger, GsCycle, GsCost, NoteCycle, ChargedType, Folded, Slow, Narrow;
    var s := m.clock;
    CycleFacts(s);
    NoteKeepsLedger(m.log, s.cycles, s.c14M, at.cycles, at.c14M, accesses,
                    s.cycleType, ChargedType(s), !Folded(s) && Slow(s), GsCost(s));
  }

  /** What the ledger needs to know about a cycle. */
  lemma CycleFacts(s: State)
    requires s.refresh < 50
    ensures var t := GsCycle(s);
            t.refresh < 50 && t.cycles == s.cycles + 1 && Narrow(GsCost(s)) && t.c14M == s.c14M + GsCost(s).Total()
  {
    CostIsExact(s);
    RefreshStays(s);
  }

  lemma StepKeepsLedger(m: Machine, e: Event, at: State, accesses: nat)
    requires IsLedger(m, at, accesses) && (e.Bus? ==> !e.kind.Internal?)
    ensures IsLedger(Step(m, e), at, accesses + if e.Bus? then 1 else 0)
  {
    if e == Clocked(Cycle) {
      CycleKeepsLedger(m, at, accesses);
    }
  }

  function Accesses(es: seq<Event>): nat {
    if es == [] then 0 else Accesses(es[..|es| - 1]) + if es[|es| - 1].Bus? then 1 else 0
  }

  /** Set a mark at any moment of any run; after any further cycles, settings and accesses,
      the log is an exact ledger of the clock since the mark. */
  lemma {:induction false} LedgerSinceMark(m: Machine, cap: nat, es: seq<Event>)
    requires m.clock.refresh < 50
    requires forall e <- es :: e.Bus? ==> !e.kind.Internal?
    ensures IsLedger(Run(Machine(m.clock, Mark(m.log, cap)), es), m.clock, Accesses(es))
  {
    if es != [] {
      var before := es[..|es| - 1];
      assert forall e <- before :: e in es;
      LedgerSinceMark(m, cap, before);
      StepKeepsLedger(Run(Machine(m.clock, Mark(m.log, cap)), before), es[|es| - 1], m.clock, Accesses(before));
    }
  }

  /** Fast and slow totals partition a timed log. */
  lemma {:induction false} SidesPartition(es: seq<Entry>)
    requires forall e <- es :: Timed(e)
    ensures TotalC14m(es) == SideC14m(es, FastSide) + SideC14m(es, SlowSide)
    ensures |es| == SideCount(es, FastSide) + SideCount(es, SlowSide)
  {
    if es != [] {
      var before := es[..|es| - 1];
      assert forall e <- before :: e in es;
      assert Timed(es[|es| - 1]);
      SidesPartition(before);
    }
  }

  /** The documentation of the log says a record is on the slow side exactly when its base is
      14. The clock makes that true in every mode but the PAL 1 MHz one, where the 1 MHz
      override (which compares with the US rate) does not apply and a fast cycle costs 14. */
  lemma SlowSideIsBase14(s: State)
    ensures (forall t :: var u := s.(cycleType := t);
                         GsCost(u).base == 14 <==> ChargedType(u).Sync?)
       <==> (s.current.perCpu != 14 || Slow(s) || s.perTick > s.div + 1)
  {
    if s.current.perCpu == 14 && !Slow(s) && s.perTick <= s.div + 1 {
      var u := s.(cycleType := Fast);
      assert GsCost(u).base == 14 && !ChargedType(u).Sync?;
    }
  }

  /** The PAL machine at power-on shows it. */
  lemma Pal1MhzFastCycle()
    ensures var s := Initial(PAL, Mhz1, true); GsCost(s).base == 14 && ChargedType(s) == Fast
  {
    hide Charge, ChargeCost, CatchUp;
    var s := Initial(PAL, Mhz1, true);
    CatchUpKeepsRefresh(Latch(s), Fast);
  }

  /** A slow record without a bus or mode reason: the MMU asks for 1 MHz, the core counts a read
      that it does not perform. */
  lemma UnexplainedSlowCycle()
    ensures var m := Step(Step(Machine(Initial(US, Mhz2_8, true), Mark(INITIAL, 0)), Clocked(NextType(Sync))), Bus(0, 0, SkippedRead));
            var e := CycleRecord(m);
            e.side.SlowSide? && !exists r :: r in e.reasons && (r.MegaII? || r.Io? || r.Shadow? || r.SlowMode?)
  {
    hide CycleRecord, GsCost;
    var m := Step(Step(Machine(Initial(US, Mhz2_8, true), Mark(INITIAL, 0)), Clocked(NextType(Sync))), Bus(0, 0, SkippedRead));
    assert m.clock.cycleType == Sync && m.log.pending == Some(Access(0, 0, SkippedRead));
    assert !Slow(m.clock);
    SlowCyclesAreExplained(m);
  }

  // ---------------------------------------------------------------- what a record holds

  /** The access that the core made in a cycle is the one its record holds. */
  lemma AccessIsRecorded(m: Machine, addr: nat, value: nat, kind: Kind)
    requires m.log.on && |m.log.entries| < m.log.cap
    ensures var es := Step(Step(m, Bus(addr, value, kind)), Clocked(Cycle)).log.entries;
            && |es| == |m.log.entries| + 1 && es[..|es| - 1] == m.log.entries
            && var e := es[|es| - 1]; e.addr == addr % 0x100_0000 && e.value == value && e.kind == kind
    ensures m.log.pending.None? ==>
              var es := Step(m, Clocked(Cycle)).log.entries;
              |es| == |m.log.entries| + 1 && var e := es[|es| - 1]; e.kind == Internal && e.addr == 0 && e.value == 0
  {
    hide GsCycle, GsCost, Reasons, ChargedType, Folded, Slow;
  }

  /** The MMU's reasons, by address ranges: $C000-$C0FF of any bank is I/O; elsewhere a write
      outside banks $E0 and $E1 and outside $C000-$CFFF is a shadowed one; the rest is Mega II. */
  lemma MmuReasonIsExact(bank: nat, offset: nat, kind: Kind)
    requires bank < 0x100 && offset < 0x1_0000
    ensures var r := MmuReason(bank * 0x1_0000 + offset, kind);
            && (r == Io <==> 0xC000 <= offset <= 0xC0FF)
            && (r == Shadow <==> (kind == Write || kind == PhantomWrite) && bank != 0xE0 && bank != 0xE1 && !(0xC000 <= offset <= 0xCFFF))
            && (r == MegaII || r == Io || r == Shadow)
  {
    BankAndOffset(bank, offset);
  }

  lemma BankAndOffset(bank: nat, offset: nat)
    requires bank < 0x100 && offset < 0x1_0000
    ensures (bank * 0x1_0000 + offset) / 0x1_0000 % 0x100 == bank && (bank * 0x1_0000 + offset) % 0x1_0000 == offset
    ensures offset / 0x100 == 0xC0 <==> 0xC000 <= offset <= 0xC0FF
    ensures offset / 0x1000 == 0xC <==> 0xC000 <= offset <= 0xCFFF
  {
    QuotientIs(bank * 0x1_0000 + offset, 0x1_0000, bank, offset);
  }

  /** The log keeps as many records as there were cycles, up to the limit of its mark: a million
      (2^20) when none was given, and never more than 2^24. */
  lemma {:induction false} StoredSinceMark(m: Machine, limit: nat, es: seq<Event>)
    ensures var n := Run(Machine(m.clock, Mark(m.log, limit)), es).clock.cycles - m.clock.cycles;
            var cap := if limit == 0 then 0x10_0000 else if limit <= 0x100_0000 then limit else 0x100_0000;
            var log := Run(Machine(m.clock, Mark(m.log, limit)), es).log;
            && log.on && log.cap == cap && n >= 0 && |log.entries| == (if n <= cap then n else cap) && log.dropped == (if n <= cap then 0 else n - cap)
  {
    if es != [] {
      var before := es[..|es| - 1];
      StoredSinceMark(m, limit, before);
      StepStores(Run(Machine(m.clock, Mark(m.log, limit)), before), es[|es| - 1]);
    }
  }

  lemma StepStores(m: Machine, e: Event)
    requires m.log.on
    ensures var t := Step(m, e);
            var cycle := e.Clocked? && e.op.Cycle?;
            && t.log.on && t.log.cap == m.log.cap
            && t.clock.cycles == m.clock.cycles + (if cycle then 1 else 0)
            && |t.log.entries| == |m.log.entries| + (if cycle && |m.log.entries| < m.log.cap then 1 else 0)
            && t.log.dropped == m.log.dropped + (if cycle && |m.log.entries| >= m.log.cap then 1 else 0)
  {
    hide GsCost, Record, ChargedType, Slow, Reasons;
  }

  /** While it is off the log is left alone by every run of the machine. */
  lemma {:induction false} OffKeepsLog(m: Machine, es: seq<Event>)
    ensures var off := Off(m.log);
            Run(Machine(m.clock, off), es).log == off && !off.on && off.entries == m.log.entries && off.dropped == m.log.dropped
  {
    if es != [] { OffKeepsLog(m, es[..|es| - 1]); }
  }
}
