/** What whole runs of the clocks keep (src/NClock.hpp): the video position is a function of
    the master clock, 65 video cycles of 14 ticks and 2 ticks of stretch to a 912-tick line.
 */
module Timing {
  import opened Clock

  /** Everything the rest of the machine can do to an IIgs clock between attaching the
      scanner and `adjust_c14m`. */
  datatype Op =
    | Cycle
    | NextType(t: CycleType)
    | SlowSwitch(on: bool)
    | ModeChange(mode: Mode)
    | Divider(n: nat)
    | FrameEnd
    | SystemClock(clocks: ClockSet)

  function Setting(s: State, op: Op): State
    requires !op.Cycle?
  {
    match op
    case NextType(t) => s.(cycleType := t)
    case SlowSwitch(on) => s.(slowMode := on)
    case ModeChange(mode) => SetMode(s, mode)
    case Divider(n) => SetPerTick(s, n)
    case FrameEnd => NextFrame(s)
    case SystemClock(clocks) => s.(clocks := clocks)
  }

  function GsStep(s: State, op: Op): State
  {
    if op.Cycle? then GsCycle(s) else Setting(s, op)
  }

  function GsRun(s: State, ops: seq<Op>): State
  {
    if ops == [] then s else GsStep(GsRun(s, ops[..|ops| - 1]), ops[|ops| - 1])
  }

  function IiStep(s: State, op: Op): State
  {
    if op.Cycle? then IiCycle(s) else Setting(s, op)
  }

  function IiRun(s: State, ops: seq<Op>): State
  {
    if ops == [] then s else IiStep(IiRun(s, ops[..|ops| - 1]), ops[|ops| - 1])
  }

  const LINE := 912

  /** The video counters as functions of the master clock alone. */
  predicate VideoFollows(s: State) {
    && s.videoCycles == 65 * (s.c14M / LINE) + s.c14M % LINE / 14
    && s.phase == s.c14M % LINE % 14
  }

  // ---------------------------------------------------------------- arithmetic

  lemma LinePosition(line: nat, within: nat)
    requires within < LINE
    ensures (LINE * line + within) / LINE == line && (LINE * line + within) % LINE == within
  {
  }

  lemma LineCount(vc: nat, done: nat)
    requires done < 65
    ensures vc % 65 + done < 65 ==> (vc + done) / 65 == vc / 65 && (vc + done) % 65 == vc % 65 + done
    ensures vc % 65 + done >= 65 ==> (vc + done) / 65 == vc / 65 + 1 && (vc + done) % 65 == vc % 65 + done - 65
  {
  }

  lemma DivBounds(a: nat, c: nat)
    requires c > 0
    ensures a / c * c <= a < (a / c + 1) * c
  {
  }

  lemma QuotientIs(a: nat, n: nat, q: nat, r: nat)
    requires n > 0 && r < n && a == q * n + r
    ensures a / n == q && a % n == r
  {
    var d, m := a / n, a % n;
    assert a == d * n + m;
    if d < q {
      Times(d + 1, q, n);
    } else if d > q {
      Times(q + 1, d, n);
    }
  }

  lemma Times(a: nat, b: nat, n: nat)
    requires 1 <= a <= b
    ensures (a - 1) * n + n == a * n <= b * n
  {
    assert b * n == a * n + (b - a) * n;
  }

  lemma NextQuotient(a: nat, n: nat)
    requires n > 0
    ensures a % n + 1 < n ==> (a + 1) / n == a / n && (a + 1) % n == a % n + 1
    ensures a % n + 1 == n ==> (a + 1) / n == a / n + 1 && (a + 1) % n == 0
  {
    var q, r := a / n, a % n;
    if r + 1 < n {
      QuotientIs(a + 1, n, q, r + 1);
    } else {
      assert (q + 1) * n == q * n + n;
      QuotientIs(a + 1, n, q + 1, 0);
    }
  }

  // ---------------------------------------------------------------- IIgs

  /** The inductive form: ticks are 14 per video cycle, the phase, and 2 per finished line. */
  predicate GsInvariant(s: State) {
    && s.scanner && s.videoC14m == s.c14M && s.refresh < 50
    && s.lineCycles == s.videoCycles % 65
    && s.c14M == 14 * s.videoCycles + s.phase + 2 * (s.videoCycles / 65)
  }

  lemma CatchUpKeepsLine(u: State, ticks: nat)
    requires u.current.extra == 2 && u.videoC14m <= u.c14M && u.lineCycles == u.videoCycles % 65
    requires ticks == u.phase + (u.c14M - u.videoC14m) && ticks < 42
    requires u.videoC14m == 14 * u.videoCycles + u.phase + 2 * (u.videoCycles / 65)
    ensures var t := CatchUp(u);
            && t.scanner == u.scanner && t.refresh == u.refresh
            && t.lineCycles == t.videoCycles % 65 && t.videoC14m == t.c14M && t.phase == ticks % 14
            && t.c14M == 14 * t.videoCycles + t.phase + 2 * (t.videoCycles / 65)
  {
    LineCount(u.videoCycles, ticks / 14);
  }

  lemma ChargeKeepsInvariant(s: State, t: CycleType)
    requires GsInvariant(s)
    ensures GsInvariant(Charge(s, t)) && (t.Sync? ==> Charge(s, t).phase == 0)
  {
    hide CostBeforeStretch, NextRefresh, CatchUp;
    var before := CostBeforeStretch(s, t);
    CostBounds(s, t);
    CatchUpKeepsLine(s.(refresh := NextRefresh(s, before), c14M := s.c14M + before.Total()),
                     s.phase + before.Total());
  }

  lemma CostBounds(s: State, t: CycleType)
    requires s.refresh < 50
    ensures var before := CostBeforeStretch(s, t);
            && before.base <= 14 && before.wait <= 13 && before.refresh <= 5 && before.stretch == 0
            && NextRefresh(s, before) < 50
            && s.phase + before.Total() < 42 && (t.Sync? ==> (s.phase + before.Total()) % 14 == 0)
  {
  }

  lemma GsCycleKeepsInvariant(s: State)
    requires GsInvariant(s)
    ensures GsInvariant(GsCycle(s))
    ensures ChargedType(s).Sync? ==> GsCycle(s).phase == 0
  {
    if !Folded(s) {
      ChargeKeepsInvariant(Latch(s), ChargedType(s));
    }
  }

  lemma {:induction false} GsRunKeepsInvariant(s: State, ops: seq<Op>)
    requires GsInvariant(s)
    ensures GsInvariant(GsRun(s, ops))
  {
    if ops != [] {
      GsRunKeepsInvariant(s, ops[..|ops| - 1]);
      var t := GsRun(s, ops[..|ops| - 1]);
      if ops[|ops| - 1].Cycle? {
        GsCycleKeepsInvariant(t);
      }
    }
  }

  /** The 14M ticks a run spent on accesses and their edge waits, without refresh and stretch. */
  function AccessTicks(s: State, ops: seq<Op>): nat {
    if ops == [] then 0
    else
      var before := ops[..|ops| - 1];
      AccessTicks(s, before) + if ops[|ops| - 1].Cycle? then var c := GsCost(GsRun(s, before)); c.base + c.wait else 0
  }

  lemma CycleAddsToRefresh(s: State)
    requires s.refresh < 50
    ensures var c := GsCost(s); GsCycle(s).refresh == (s.refresh + c.base + c.wait) % 50
  {
    hide CatchUp;
    CostBounds(Latch(s), ChargedType(s));
    CatchUpKeepsRefresh(Latch(s), ChargedType(s));
  }

  lemma CatchUpKeepsRefresh(s: State, t: CycleType)
    ensures Charge(s, t).refresh == NextRefresh(s, CostBeforeStretch(s, t))
    ensures ChargeCost(s, t).base == CostBeforeStretch(s, t).base && ChargeCost(s, t).wait == CostBeforeStretch(s, t).wait
  {
  }

  lemma AddMod50(x: nat, y: nat)
    ensures (x % 50 + y) % 50 == (x + y) % 50
  {
  }

  /** Over every run the refresh debt is the access time modulo 50: refresh itself and the
      stretched lines never count towards the next one. */
  lemma {:induction false} RefreshIsModular(s: State, ops: seq<Op>)
    requires s.refresh < 50
    ensures GsRun(s, ops).refresh == (s.refresh + AccessTicks(s, ops)) % 50
  {
    hide GsCycle, GsCost;
    if ops != [] {
      var before := ops[..|ops| - 1];
      RefreshIsModular(s, before);
      if ops[|ops| - 1].Cycle? {
        var t := GsRun(s, before);
        var c := GsCost(t);
        CycleAddsToRefresh(t);
        AddMod50(s.refresh + AccessTicks(s, before), c.base + c.wait);
      }
    }
  }

  lemma InvariantGivesPosition(s: State)
    requires GsInvariant(s)
    ensures VideoFollows(s) && s.lineCycles == s.c14M % LINE / 14
  {
    LinePosition(s.videoCycles / 65, 14 * s.lineCycles + s.phase);
    assert s.c14M == LINE * (s.videoCycles / 65) + (14 * s.lineCycles + s.phase);
  }

  /** For every clock set, starting mode and sequence of cycles and settings, the whole video
      position of an IIgs clock is a function of `c_14M`; its line counter never needs more
      than one subtraction, its refresh counter stays below 50, and a 1 MHz cycle always
      ends on a video-cycle edge. */
  lemma GsClosedForm(clocks: ClockSet, mode: Mode, ops: seq<Op>)
    ensures var s := GsRun(Initial(clocks, mode, true), ops);
            && VideoFollows(s) && s.lineCycles == s.c14M % LINE / 14 && s.lineCycles < 65
            && s.refresh < 50
            && (ChargedType(s).Sync? ==> GsCycle(s).c14M % LINE % 14 == 0)
  {
    var s0 := Initial(clocks, mode, true);
    var s := GsRun(s0, ops);
    GsRunKeepsInvariant(s0, ops);
    InvariantGivesPosition(s);
    GsCycleKeepsInvariant(s);
    InvariantGivesPosition(GsCycle(s));
  }

  // ---------------------------------------------------------------- frames

  predicate OnLines(s: State) {
    && s.frameStart % LINE == 0 && s.frameEnd % LINE == 0 && s.frameStart < s.frameEnd
    && (s.current.perFrame == 262 * LINE || s.current.perFrame == 312 * LINE)
  }

  predicate SteadyFrames(s: State, clocks: ClockSet) {
    && s.clocks == clocks && s.current.perFrame == (if clocks.US? then 262 else 312) * LINE
    && s.frameStart == s.frameCount * s.current.perFrame
    && s.frameEnd == (s.frameCount + 1) * s.current.perFrame
  }

  /** Frame boundaries lie on line boundaries whatever happens, and at exactly 262 (US) or
      312 (PAL) lines to a frame while the clock set stays the same; on either clock. */
  lemma {:induction false} FramesAreWholeLines(clocks: ClockSet, mode: Mode, scanner: bool, ops: seq<Op>)
    ensures var s := GsRun(Initial(clocks, mode, scanner), ops);
            OnLines(s) && ((forall op <- ops :: !op.SystemClock?) ==> SteadyFrames(s, clocks))
    ensures var s := IiRun(Initial(clocks, mode, scanner), ops);
            OnLines(s) && ((forall op <- ops :: !op.SystemClock?) ==> SteadyFrames(s, clocks))
  {
    hide GsStep, IiStep, OnLines, SteadyFrames;
    if ops == [] {
      FirstFrame(clocks, mode, scanner);
    } else {
      var before, op := ops[..|ops| - 1], ops[|ops| - 1];
      FramesAreWholeLines(clocks, mode, scanner, before);
      assert forall x <- before :: x in ops;
      assert op in ops;
      var s, t := GsRun(Initial(clocks, mode, scanner), before), IiRun(Initial(clocks, mode, scanner), before);
      GsStepKeepsFrame(s, op);
      FrameStep(s, GsStep(s, op), op, clocks);
      IiStepKeepsFrame(t, op);
      FrameStep(t, IiStep(t, op), op, clocks);
    }
  }

  lemma FirstFrame(clocks: ClockSet, mode: Mode, scanner: bool)
    ensures OnLines(Initial(clocks, mode, scanner)) && SteadyFrames(Initial(clocks, mode, scanner), clocks)
  {
  }

  /** What an operation may do to the frame. */
  predicate FrameMoves(s: State, t: State, op: Op) {
    && (op.ModeChange? || op.SystemClock? || (t.current == s.current && t.clocks == s.clocks))
    && (op.ModeChange? ==> t.clocks == s.clocks && t.current.perFrame == (if s.clocks.US? then 262 else 312) * LINE)
    && (op.SystemClock? ==> t.current == s.current)
    && (if op.FrameEnd? then
          && t.frameStart == s.frameEnd && t.frameEnd == s.frameEnd + s.current.perFrame
          && t.frameCount == s.frameCount + 1
        else t.frameStart == s.frameStart && t.frameEnd == s.frameEnd && t.frameCount == s.frameCount)
  }

  lemma FrameStep(s: State, t: State, op: Op, clocks: ClockSet)
    requires OnLines(s) && FrameMoves(s, t, op)
    ensures OnLines(t) && (SteadyFrames(s, clocks) && !op.SystemClock? ==> SteadyFrames(t, clocks))
  {
    Multiply(s.frameCount, s.current.perFrame);
  }

  lemma Multiply(n: nat, p: nat)
    ensures (n + 1) * p == n * p + p && (n + 2) * p == (n + 1) * p + p
  {
  }

  lemma GsStepKeepsFrame(s: State, op: Op)
    ensures FrameMoves(s, GsStep(s, op), op)
  {
  }

  lemma IiStepKeepsFrame(s: State, op: Op)
    ensures FrameMoves(s, IiStep(s, op), op)
  {
  }

  // ---------------------------------------------------------------- II

  /** The II clock restarts its line counter instead of subtracting, so its counters follow
      the master clock when the cost of a cycle divides what is left of the line. */
  predicate IiFollows(s: State) {
    VideoFollows(s) && s.scan == s.c14M % LINE && s.scan < 910
  }

  predicate Aligned(s: State, cost: nat)
    requires cost > 0
  {
    s.scan % cost == 0
  }

  lemma IiCycleKeepsPosition(s: State)
    requires s.scanner && IiFollows(s) && Aligned(s, s.current.perCpu)
    ensures IiFollows(IiCycle(s)) && Aligned(IiCycle(s), s.current.perCpu)
  {
    if Charges(s) {
      DividesLine(s.scan, s.current.perCpu);
      IiChargePosition(s);
    }
  }

  /** One charged cycle that does not overshoot the line. */
  lemma IiChargePosition(s: State)
    requires s.scanner && IiFollows(s) && Charges(s) && s.scan + s.current.perCpu <= 910
    ensures IiFollows(IiCycle(s))
    ensures IiCycle(s).scan == if s.scan + s.current.perCpu == 910 then 0 else s.scan + s.current.perCpu
  {
    var c, line := s.current.perCpu, s.c14M / LINE;
    var t := IiCycle(s);
    VideoTick(s.scan, c);
    assert t.scan == if s.scan + c == 910 then 0 else s.scan + c;
    assert t.phase == (s.scan + c) % 14 && t.videoCycles == 65 * line + (s.scan + c) / 14;
    assert t.c14M == LINE * line + if s.scan + c == 910 then LINE else s.scan + c;
    hide IiCycle, Charges;
    if s.scan + c == 910 {
      LinePosition(line + 1, 0);
    } else {
      LinePosition(line, s.scan + c);
    }
  }

  /** Adding a charge to the ticks of a line completes at most one video cycle. */
  lemma VideoTick(scan: nat, c: nat)
    requires 1 <= c <= 14
    ensures scan % 14 + c >= 14 ==> (scan + c) / 14 == scan / 14 + 1 && (scan + c) % 14 == scan % 14 + c - 14
    ensures scan % 14 + c < 14 ==> (scan + c) / 14 == scan / 14 && (scan + c) % 14 == scan % 14 + c
  {
  }

  lemma DividesLine(scan: nat, c: nat)
    requires c == 1 || c == 2 || c == 5 || c == 14
    requires scan < 910 && scan % c == 0
    ensures scan + c <= 910 && (scan + c) % c == 0
  {
  }

  /** A mode change is aligned when the new mode's cost divides the ticks into the line. */
  ghost predicate AlignedRun(s: State, ops: seq<Op>)
  {
    forall i :: 0 <= i < |ops| && ops[i].ModeChange? ==>
      var t := IiRun(s, ops[..i]);
      Aligned(t, SetMode(t, ops[i].mode).current.perCpu)
  }

  lemma {:induction false} IiRunKeepsPosition(s: State, ops: seq<Op>)
    requires s.scanner && IiFollows(s) && Aligned(s, s.current.perCpu) && AlignedRun(s, ops)
    ensures var t := IiRun(s, ops);
            t.scanner && IiFollows(t) && Aligned(t, t.current.perCpu)
  {
    if ops != [] {
      var before := ops[..|ops| - 1];
      assert forall i :: 0 <= i < |before| ==> before[..i] == ops[..i];
      IiRunKeepsPosition(s, before);
      var t := IiRun(s, before);
      IiStepKeepsPosition(t, ops[|ops| - 1]);
    }
  }

  lemma IiStepKeepsPosition(s: State, op: Op)
    requires s.scanner && IiFollows(s) && Aligned(s, s.current.perCpu)
    requires op.ModeChange? ==> Aligned(s, SetMode(s, op.mode).current.perCpu)
    ensures var t := IiStep(s, op);
            t.scanner && IiFollows(t) && Aligned(t, t.current.perCpu)
  {
    if op.Cycle? {
      IiCycleKeepsPosition(s);
    }
  }

  /** From power-on, a II clock whose mode changes are aligned (at the start of a line every
      change is) obeys the same closed form as the IIgs clock. */
  lemma IiClosedForm(clocks: ClockSet, mode: Mode, ops: seq<Op>)
    requires AlignedRun(Initial(clocks, mode, true), ops)
    ensures IiFollows(IiRun(Initial(clocks, mode, true), ops))
  {
    IiRunKeepsPosition(Initial(clocks, mode, true), ops);
  }

  function IiCycles(s: State, n: nat): State
  {
    if n == 0 then s else IiCycle(IiCycles(s, n - 1))
  }

  /** Within a line nothing but the tick counters moves. */
  lemma {:induction false} WithinLine(s: State, n: nat)
    requires s.scanner && IiFollows(s) && s.perTick == 1
    requires s.scan + n * s.current.perCpu < 910
    ensures var t := IiCycles(s, n);
            && t.scan == s.scan + n * s.current.perCpu && t.c14M == s.c14M + n * s.current.perCpu
            && t.scanner && t.perTick == 1 && t.current == s.current && IiFollows(t)
  {
    if n > 0 {
      assert (n - 1) * s.current.perCpu + s.current.perCpu == n * s.current.perCpu;
      WithinLine(s, n - 1);
      IiChargePosition(IiCycles(s, n - 1));
    }
  }

  /** The condition is exact: after a mode change the position follows the master clock for
      every number of further cycles if and only if the new cost divides the ticks into the
      line. */
  lemma ModeChangeExact(s: State, mode: Mode)
    requires s.scanner && IiFollows(s)
    ensures var t := SetMode(s, mode);
            (forall n: nat :: IiFollows(IiCycles(t, n))) <==> Aligned(s, t.current.perCpu)
  {
    var t := SetMode(s, mode);
    var c := t.current.perCpu;
    if Aligned(s, c) {
      forall n: nat ensures IiFollows(IiCycles(t, n)) { AlignedForever(t, n); }
    } else {
      var n := (909 - s.scan) / c;
      LineEndOvershoots(t, n);
      assert !IiFollows(IiCycles(t, n + 1));
    }
  }

  /** The cycle that ends the line overshoots it, and the restarted count has lost the rest. */
  lemma LineEndOvershoots(t: State, n: nat)
    requires t.scanner && IiFollows(t) && t.perTick == 1 && !Aligned(t, t.current.perCpu)
    requires n == (909 - t.scan) / t.current.perCpu
    ensures !IiFollows(IiCycles(t, n + 1))
  {
    hide IiFollows, IiCycle;
    var c := t.current.perCpu;
    DivBounds(909 - t.scan, c);
    Times(n + 1, n + 1, c);
    Position(t);
    WithinLine(t, n);
    var u := IiCycles(t, n);
    Overshoot(t.scan, n + 1, c);
    OvershootIsOff(u);
  }

  lemma Position(s: State)
    requires IiFollows(s)
    ensures s.scan == s.c14M % LINE && s.scan < 910
  {
  }

  /** A cycle that passes the end of the line leaves the counter behind the clock. */
  lemma OvershootIsOff(u: State)
    requires u.scanner && u.perTick == 1 && u.current.extra == 2 && IiFollows(u) && u.scan + u.current.perCpu > 910
    ensures !IiFollows(IiCycle(u))
  {
    var c, line := u.current.perCpu, u.c14M / LINE;
    assert IiCycle(u).scan == 0 && IiCycle(u).c14M == LINE * (line + 1) + (u.scan + c - 910);
    LinePosition(line + 1, u.scan + c - 910);
  }

  /** One cycle at 14 MHz and a change to 1 MHz: one line later the II clock is off the grid. */
  lemma MisalignedModeChange()
    ensures var s := SetMode(IiCycle(Initial(US, Mhz14, true)), Mhz1);
            IiFollows(s) && exists n: nat :: !IiFollows(IiCycles(s, n))
  {
    hide IiCycles;
    var s := AfterOneTick();
    ModeChangeExact(s, Mhz1);
  }

  lemma AfterOneTick() returns (s: State)
    ensures s == IiCycle(Initial(US, Mhz14, true)) && s.scanner && IiFollows(s) && !Aligned(s, SetMode(s, Mhz1).current.perCpu)
    ensures IiFollows(SetMode(s, Mhz1))
  {
    s := IiCycle(Initial(US, Mhz14, true));
    assert s.scan == 1 && s.c14M == 1 && s.videoCycles == 0 && s.phase == 1;
  }

  lemma Overshoot(scan: nat, k: nat, c: nat)
    requires c == 1 || c == 2 || c == 5 || c == 14
    requires scan % c != 0
    ensures scan + k * c != 910
  {
  }

  lemma {:induction false} AlignedForever(t: State, n: nat)
    requires t.scanner && IiFollows(t) && Aligned(t, t.current.perCpu)
    ensures var u := IiCycles(t, n);
            u.scanner && IiFollows(u) && u.current == t.current && Aligned(u, u.current.perCpu)
  {
    if n > 0 {
      AlignedForever(t, n - 1);
      IiCycleKeepsPosition(IiCycles(t, n - 1));
    }
  }

  // ---------------------------------------------------------------- the divider

  /** Ticks charged so far, without the stretches. */
  function Charged(s: State): nat { if s.scanner then 14 * s.videoCycles + s.phase else s.c14M }

  /** With divider N, any n cycles from divider phase d charge exactly (d + n) / N times. */
  lemma {:induction false} DividerCharges(s: State, n: nat)
    ensures var t := IiCycles(s, n);
            && Charged(t) == Charged(s) + (s.div + n) / s.perTick * s.current.perCpu
            && t.div == (s.div + n) % s.perTick
            && t.perTick == s.perTick && t.current == s.current && t.scanner == s.scanner
  {
    if n == 0 {
      QuotientIs(s.div, s.perTick, 0, s.div);
    } else {
      DividerCharges(s, n - 1);
      OneCharge(IiCycles(s, n - 1));
      DividerStep(s.div + n - 1, s.perTick, s.current.perCpu);
    }
  }

  lemma DividerStep(a: nat, n: nat, c: nat)
    requires n > 0
    ensures if a % n + 1 == n then (a + 1) / n * c == a / n * c + c && (a + 1) % n == 0
            else (a + 1) / n * c == a / n * c && (a + 1) % n == a % n + 1
  {
    NextQuotient(a, n);
  }

  lemma OneCharge(s: State)
    ensures var t := IiCycle(s);
            && t.perTick == s.perTick && t.current == s.current && t.scanner == s.scanner
            && (if s.div + 1 == s.perTick then Charged(t) == Charged(s) + s.current.perCpu && t.div == 0
                else Charged(t) == Charged(s) && t.div == s.div + 1)
  {
  }
}
