/** What a cycle costs and who pays for it (src/NClock.hpp), stated without the clock's own cost
    function: by mode, by charged type, and over runs.
 */
module CycleCost {
  import opened Clock
  import opened Timing

  // ---------------------------------------------------------------- the mode in force

  /** Master ticks of a CPU cycle that nothing slows down. */
  function ModeCost(mode: Mode): nat {
    match mode
    case Mhz1 => 14
    case Mhz2_8 => 5
    case Mhz7 => 2
    case Mhz14 => 1
    case FreeRun => 1
  }

  predicate InForce(s: State, clocks: ClockSet) {
    && s.clocks == clocks && s.current.perCpu == ModeCost(s.mode) && s.current.extra == 2
    && (s.current.hzRate == US_1MHZ <==> s.mode.Mhz1? && clocks.US?)
  }

  /** On both clocks, while the clock set stays, the mode that was last chosen is in force. */
  lemma {:induction false} ChosenModeIsInForce(clocks: ClockSet, mode: Mode, scanner: bool, ops: seq<Op>)
    requires forall i :: 0 <= i < |ops| ==> !ops[i].SystemClock?
    ensures InForce(GsRun(Initial(clocks, mode, scanner), ops), clocks) && InForce(IiRun(Initial(clocks, mode, scanner), ops), clocks)
  {
    hide GsStep, IiStep, InForce;
    if ops == [] {
      FirstMode(clocks, mode, scanner);
    } else {
      var before, op := ops[..|ops| - 1], ops[|ops| - 1];
      ChosenModeIsInForce(clocks, mode, scanner, before);
      assert !op.SystemClock?;
      StepKeepsMode(GsRun(Initial(clocks, mode, scanner), before), op, clocks);
      StepKeepsMode(IiRun(Initial(clocks, mode, scanner), before), op, clocks);
    }
  }

  lemma FirstMode(clocks: ClockSet, mode: Mode, scanner: bool)
    ensures InForce(Initial(clocks, mode, scanner), clocks)
  {
  }

  lemma StepKeepsMode(s: State, op: Op, clocks: ClockSet)
    requires InForce(s, clocks) && !op.SystemClock?
    ensures InForce(GsStep(s, op), clocks) && InForce(IiStep(s, op), clocks)
  {
    hide GsCycle, IiCycle;
    CyclesKeepMode(s);
  }

  lemma CyclesKeepMode(s: State)
    ensures var t := GsCycle(s); t.clocks == s.clocks && t.mode == s.mode && t.current == s.current
    ensures var t := IiCycle(s); t.clocks == s.clocks && t.mode == s.mode && t.current == s.current
  {
  }

  /** A cycle is charged at 1 MHz exactly when it was asked for, the machine is in slow mode, or
      the US clock is in its 1 MHz mode; otherwise it is charged as requested. */
  lemma OverrideIsExact(clocks: ClockSet, mode: Mode, scanner: bool, ops: seq<Op>)
    requires forall i :: 0 <= i < |ops| ==> !ops[i].SystemClock?
    ensures var s := GsRun(Initial(clocks, mode, scanner), ops);
            && (ChargedType(s).Sync? <==> s.cycleType.Sync? || s.slowMode || (s.mode.Mhz1? && clocks.US?))
            && (!ChargedType(s).Sync? ==> ChargedType(s) == s.cycleType)
  {
    ChosenModeIsInForce(clocks, mode, scanner, ops);
  }

  // ---------------------------------------------------------------- one cycle

  /** A cycle that shares its tick with the next ones. */
  predicate Shares(s: State) { ChargedType(s) != Sync && s.perTick > 1 && s.div + 1 < s.perTick }

  /** Everything one cycle does to the clock and its cost: a shared cycle is free; a 1 MHz cycle
      waits for the next video edge and takes 14 ticks; the others take the mode's ticks, and only
      a regular fast one pays 5 more when the access debt reaches 50; the stretch is 2 ticks for
      a line that ends. */
  lemma WhatACycleCosts(s: State)
    requires GsInvariant(s)
    ensures var c, t := GsCost(s), GsCycle(s);
            && t.cycles == s.cycles + 1 && t.cycleType == Fast && t.c14M == s.c14M + c.Total()
            && c.stretch == 2 * (t.c14M / LINE - s.c14M / LINE)
            && t.div == if ChargedType(s) == Sync then 0 else if s.perTick <= 1 then s.div else (s.div + 1) % s.perTick
    ensures var c := GsCost(s);
            if Shares(s) then c == Cost(0, 0, 0, 0)
            else match ChargedType(s)
                 case Sync => c.base == 14 && c.refresh == 0 && c.wait < 14 && (s.phase + c.wait) % 14 == 0
                 case FastRom => c.base == s.current.perCpu && c.wait == 0 && c.refresh == 0
                 case _ => c.base == s.current.perCpu && c.wait == 0 && c.refresh == if s.refresh + s.current.perCpu >= 50 then 5 else 0
  {
    hide GsCost, GsCycle;
    CostByType(s);
    AfterCycle(s);
    StretchIsLineEnd(s);
  }

  lemma CostByType(s: State)
    ensures var c := GsCost(s);
            if Shares(s) then c == Cost(0, 0, 0, 0)
            else match ChargedType(s)
                 case Sync => c.base == 14 && c.refresh == 0 && c.wait < 14 && (s.phase + c.wait) % 14 == 0
                 case FastRom => c.base == s.current.perCpu && c.wait == 0 && c.refresh == 0
                 case _ => c.base == s.current.perCpu && c.wait == 0 && c.refresh == if s.refresh + s.current.perCpu >= 50 then 5 else 0
  {
    hide Charge, ChargeCost;
    CatchUpKeepsCost(Latch(s), ChargedType(s));
  }

  lemma AfterCycle(s: State)
    ensures var c, t := GsCost(s), GsCycle(s);
            && t.cycles == s.cycles + 1 && t.cycleType == Fast && t.c14M == s.c14M + c.Total()
            && t.div == if ChargedType(s) == Sync then 0 else if s.perTick <= 1 then s.div else (s.div + 1) % s.perTick
  {
    hide GsCost, GsCycle;
    ClockAfterCycle(s);
    if s.perTick > 1 { RoundDivider(s.div, s.perTick); }
  }

  lemma ClockAfterCycle(s: State)
    ensures var c, t := GsCost(s), GsCycle(s);
            && t.cycles == s.cycles + 1 && t.cycleType == Fast && t.c14M == s.c14M + c.Total()
            && t.div == if ChargedType(s) == Sync then 0 else if s.perTick <= 1 then s.div else if s.div + 1 < s.perTick then s.div + 1 else 0
  {
    hide Charge, ChargeCost;
    CatchUpKeepsCost(Latch(s), ChargedType(s));
  }

  lemma RoundDivider(d: nat, n: nat)
    requires d < n
    ensures (d + 1) % n == if d + 1 == n then 0 else d + 1
  {
    if d + 1 < n { QuotientIs(d + 1, n, 0, d + 1); }
  }

  lemma CatchUpKeepsCost(s: State, t: CycleType)
    ensures var c, b := ChargeCost(s, t), CostBeforeStretch(s, t); c.base == b.base && c.wait == b.wait && c.refresh == b.refresh
    ensures Charge(s, t).cycles == s.cycles && Charge(s, t).div == s.div
    ensures Charge(s, t).c14M == s.c14M + ChargeCost(s, t).Total()
  {
  }

  lemma StretchIsLineEnd(s: State)
    requires GsInvariant(s)
    ensures GsCost(s).stretch == 2 * (GsCycle(s).c14M / LINE - s.c14M / LINE)
  {
    hide CostBeforeStretch, NextRefresh, CatchUp;
    GsCycleKeepsInvariant(s);
    LinesAreVideo(s);
    LinesAreVideo(GsCycle(s));
    if !Folded(s) {
      var u := Latch(s);
      CostBounds(u, ChargedType(s));
      LineEnds(u, ChargedType(s));
    }
  }

  lemma LinesAreVideo(s: State)
    requires GsInvariant(s)
    ensures s.c14M / LINE == s.videoCycles / 65
  {
    LinePosition(s.videoCycles / 65, 14 * s.lineCycles + s.phase);
  }

  lemma LineEnds(s: State, t: CycleType)
    requires GsInvariant(s) && s.phase + CostBeforeStretch(s, t).Total() < 42
    ensures ChargeCost(s, t).stretch == 2 * (Charge(s, t).videoCycles / 65 - s.videoCycles / 65)
  {
    hide CostBeforeStretch, NextRefresh;
    var ticks := s.phase + CostBeforeStretch(s, t).Total();
    assert ticks / 14 < 65;
    LineCount(s.videoCycles, ticks / 14);
    CatchUpStretch(s, t, ticks);
  }

  lemma CatchUpStretch(s: State, t: CycleType, ticks: nat)
    requires s.scanner && s.videoC14m == s.c14M && s.current.extra == 2 && ticks == s.phase + CostBeforeStretch(s, t).Total()
    ensures Charge(s, t).videoCycles == s.videoCycles + ticks / 14
    ensures ChargeCost(s, t).stretch == if s.lineCycles + ticks / 14 >= 65 then 2 else 0
  {
    hide CostBeforeStretch, NextRefresh;
  }

  // ---------------------------------------------------------------- who pays for refresh

  /** Ticks a run spent on refresh. */
  function RefreshTicks(s: State, ops: seq<Op>): nat {
    if ops == [] then 0
    else
      var before := ops[..|ops| - 1];
      RefreshTicks(s, before) + if ops[|ops| - 1].Cycle? then GsCost(GsRun(s, before)).refresh else 0
  }

  /** The last operation is a regular fast cycle that is not shared, and the access time of the
      run passes a multiple of 50 on it. */
  predicate Pays(s: State, ops: seq<Op>)
    requires ops != []
  {
    var before := ops[..|ops| - 1];
    var t := GsRun(s, before);
    && ops[|ops| - 1].Cycle? && !Shares(t) && ChargedType(t) != Sync && ChargedType(t) != FastRom
    && (s.refresh + AccessTicks(s, before)) / 50 < (s.refresh + AccessTicks(s, ops)) / 50
  }

  function Payers(s: State, ops: seq<Op>): nat {
    if ops == [] then 0 else Payers(s, ops[..|ops| - 1]) + if Pays(s, ops) then 1 else 0
  }

  lemma Crosses(a: nat, c: nat)
    requires c <= 14
    ensures a / 50 < (a + c) / 50 <==> a % 50 + c >= 50
  {
  }

  /** Over every run, refresh takes 5 ticks on each regular fast cycle that brings the access time
      past a multiple of 50, and nothing on any other cycle. */
  lemma {:induction false} RefreshIsPaid(s: State, ops: seq<Op>)
    requires s.refresh < 50
    ensures RefreshTicks(s, ops) == 5 * Payers(s, ops)
    ensures ops != [] && ops[|ops| - 1].Cycle? ==>
              GsCost(GsRun(s, ops[..|ops| - 1])).refresh == if Pays(s, ops) then 5 else 0
  {
    hide GsCycle, GsCost, ChargedType, Shares;
    if ops != [] {
      var before := ops[..|ops| - 1];
      RefreshIsPaid(s, before);
      if ops[|ops| - 1].Cycle? {
        var t := GsRun(s, before);
        RefreshIsModular(s, before);
        PayerPays(t, s.refresh + AccessTicks(s, before));
      }
    }
  }

  lemma PayerPays(t: State, a: nat)
    requires t.refresh == a % 50
    ensures var c := GsCost(t);
            c.refresh == if !Shares(t) && ChargedType(t) != Sync && ChargedType(t) != FastRom && a / 50 < (a + (c.base + c.wait)) / 50 then 5 else 0
  {
    hide GsCost, Shares, ChargedType;
    CostByType(t);
    Crosses(a, t.current.perCpu);
  }

  // ---------------------------------------------------------------- the divider

  function GsCycles(s: State, n: nat): State { if n == 0 then s else GsCycle(GsCycles(s, n - 1)) }

  /** The access ticks of `n` cycles. */
  function Accesses(s: State, n: nat): nat {
    if n == 0 then 0 else Accesses(s, n - 1) + var c := GsCost(GsCycles(s, n - 1)); c.base + c.wait
  }

  /** On the IIgs clock too, `n` fast cycles from divider phase d take the ticks of (d + n) / N. */
  lemma {:induction false} FastCyclesShareTicks(s: State, n: nat)
    requires s.cycleType != Sync && !Slow(s)
    ensures var t := GsCycles(s, n);
            && Accesses(s, n) == (s.div + n) / s.perTick * s.current.perCpu && t.div == (s.div + n) % s.perTick
            && t.perTick == s.perTick && t.current == s.current && t.cycleType != Sync && !Slow(t)
  {
    hide GsCost, GsCycle, Slow;
    if n == 0 {
      QuotientIs(s.div, s.perTick, 0, s.div);
    } else {
      FastCyclesShareTicks(s, n - 1);
      var t := GsCycles(s, n - 1);
      OneFastCycle(t);
      DividerStep(s.div + n - 1, s.perTick, s.current.perCpu);
    }
  }

  lemma OneFastCycle(s: State)
    requires s.cycleType != Sync && !Slow(s)
    ensures var c, t := GsCost(s), GsCycle(s);
            && s.perTick >= 1 && s.div < s.perTick
            && c.base + c.wait == (if s.div + 1 == s.perTick then s.current.perCpu else 0)
            && t.div == (if s.div + 1 == s.perTick then 0 else s.div + 1)
            && t.perTick == s.perTick && t.current == s.current && t.cycleType != Sync && !Slow(t)
  {
    hide GsCost, GsCycle;
    CostByType(s);
    AfterCycle(s);
    CyclesKeepSettings(s);
    NotSlowIsNotSync(s);
    SharesByDivider(s);
    RoundDivider(s.div, s.perTick);
  }

  lemma CyclesKeepSettings(s: State)
    ensures var t := GsCycle(s); t.perTick == s.perTick && t.current == s.current && t.slowMode == s.slowMode
  {
  }

  lemma NotSlowIsNotSync(s: State)
    requires s.cycleType != Sync && !Slow(s)
    ensures ChargedType(s) != Sync
  {
  }

  lemma SharesByDivider(s: State)
    requires ChargedType(s) != Sync
    ensures Shares(s) <==> s.div + 1 < s.perTick
    ensures s.perTick >= 1 && s.div < s.perTick
  {
  }

  /** After a mode is chosen, `n` cycles of the II clock take its ticks each, but free running
      keeps sharing them as before; after a divider is set, N (1 to 20) of them share. */
  lemma SettingsCharge(s: State, mode: Mode, k: nat, n: nat)
    ensures Charged(IiCycles(SetMode(s, mode), n))
         == Charged(s) + (if mode.FreeRun? then (s.div + n) / s.perTick else n) * ModeCost(mode)
    ensures Charged(IiCycles(SetPerTick(s, k), n))
         == Charged(s) + n / (if k == 0 then 1 else if k <= 20 then k else 20) * s.current.perCpu
  {
    DividerCharges(SetMode(s, mode), n);
    DividerCharges(SetPerTick(s, k), n);
    QuotientIs(n, 1, n, 0);
  }
}
