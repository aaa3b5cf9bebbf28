/** The 14M clocks: `NClock`, the Apple II clock `NClockII` and the Apple IIgs clock
    `NClockIIgs` (src/NClock.hpp).

    `State` is the value of one clock object, with the bounds every clock keeps. The C++ hierarchy only adds fields and
    overrides one method, so it is flattened here: the class `NClock` has every field and
    one method per override. Every cycle is specified by division (how many video cycles a
    charge completes); the method of the class gets there with the source's loop.
 */
module Clock {

  datatype CycleType = Sync | FastRom | Fast | Refresh

  datatype Mode = FreeRun | Mhz1 | Mhz2_8 | Mhz7 | Mhz14

  datatype ClockSet = US | PAL

  /** One row of the clock-mode tables, without the informational columns. */
  datatype ModeInfo = ModeInfo(hzRate: nat, perCpu: nat, extra: nat, perFrame: nat)

  const US_1MHZ := 1020484
  const MAX_PER_TICK := 20

  /** `us_clock_mode_info` and `pal_clock_mode_info`. */
  function TableRow(clocks: ClockSet, mode: Mode): ModeInfo {
    var perFrame := if clocks.US? then 238944 else 284544;
    match mode
    case FreeRun => ModeInfo(if clocks.US? then 14318180 else 14250450, 1, 0, perFrame)
    case Mhz1 => ModeInfo(if clocks.US? then US_1MHZ else 1015657, 14, 2, perFrame)
    case Mhz2_8 => ModeInfo(2857370, 5, 2, perFrame)
    case Mhz7 => ModeInfo(7143390, 2, 2, perFrame)
    case Mhz14 => ModeInfo(if clocks.US? then 14286780 else 14250450, 1, 2, perFrame)
  }

  datatype Counters = Counters(
    clocks: ClockSet, mode: Mode, current: ModeInfo,
    cycles: nat, c14M: nat, videoCycles: nat,
    phase: nat,        // video_cycle_14M_count
    scan: nat,         // scanline_14M_count
    frameStart: nat, frameEnd: nat, frameCount: nat,
    perTick: nat,      // cpu_per_14m
    div: nat,          // cpu_div
    scanner: bool, slowMode: bool,
    refresh: nat,      // ram_refresh_cycles
    lineCycles: nat,   // vidlinecycles
    videoC14m: nat, cycleType: CycleType)
  {
    /** What every clock keeps, scanner or not. The 14M side of the video position never
        passes the master clock, so the unsigned subtractions of the source do not wrap. */
    predicate Valid() {
      && phase < 14 && videoC14m <= c14M
      && 1 <= perTick <= MAX_PER_TICK && div < perTick
      && current.extra == 2 && (current.perCpu == 1 || current.perCpu == 2 || current.perCpu == 5 || current.perCpu == 14)
    }
  }

  type State = s: Counters | s.Valid()
    witness Counters(US, Mhz1, ModeInfo(US_1MHZ, 14, 2, 238944), 0, 0, 0, 0, 0, 0, 238944, 0, 1, 0, false, false, 0, 0, 0, Fast)

  // ---------------------------------------------------------------- settings

  function SetMode(s: State, mode: Mode): State {
    if mode.FreeRun? then s.(mode := mode, current := TableRow(s.clocks, Mhz14))
    else s.(mode := mode, current := TableRow(s.clocks, mode), perTick := 1, div := 0)
  }

  function SetPerTick(s: State, n: nat): State {
    s.(perTick := if n < 1 then 1 else if n > MAX_PER_TICK then MAX_PER_TICK else n, div := 0)
  }

  function NextFrame(s: State): State {
    s.(frameStart := s.frameEnd, frameEnd := s.frameEnd + s.current.perFrame, frameCount := s.frameCount + 1)
  }

  function Initial(clocks: ClockSet, mode: Mode, scanner: bool): State {
    var row := TableRow(clocks, if mode.FreeRun? then Mhz14 else mode);
    Counters(clocks, mode, row, 0, 0, 0, 0, 0, 0, row.perFrame, 0, 1, 0, scanner, false, 0, 0, 0, Fast)
  }

  // ---------------------------------------------------------------- the II clock

  /** A cycle is charged when the divider comes round. */
  predicate Charges(s: State) { s.perTick <= 1 || s.div + 1 >= s.perTick }

  /** The scanner's share of one charged cycle: at most one video cycle, and a line that
      restarts from zero after 910 ticks. */
  function IiScan(s: State): State {
    var ph := s.phase + s.current.perCpu;
    var sc := s.scan + s.current.perCpu;
    s.(phase := if ph >= 14 then ph - 14 else ph,
       videoCycles := s.videoCycles + if ph >= 14 then 1 else 0,
       scan := if sc >= 910 then 0 else sc,
       c14M := s.c14M + if sc >= 910 then s.current.extra else 0)
  }

  function IiCycle(s: State): State {
    var t := s.(cycles := s.cycles + 1);
    if !Charges(s) then t.(div := s.div + 1)
    else
      var t := t.(div := if s.perTick > 1 then 0 else s.div, c14M := s.c14M + s.current.perCpu);
      if s.scanner then IiScan(t) else t
  }

  // ---------------------------------------------------------------- the IIgs clock

  /** The cycle type that is charged: the machine-wide 1 MHz override wins. */
  predicate Slow(s: State) { s.slowMode || s.current.hzRate == US_1MHZ }

  function ChargedType(s: State): CycleType { if Slow(s) then Sync else s.cycleType }

  /** The divider folds a fast cycle into a 14M tick that another cycle pays for. */
  predicate Folded(s: State) { !ChargedType(s).Sync? && s.perTick > 1 && s.div + 1 < s.perTick }

  /** The parts a cycle's cost splits into, as the bus log records them. */
  datatype Cost = Cost(base: nat, wait: nat, refresh: nat, stretch: nat)
  {
    function Total(): nat { base + wait + refresh + stretch }
  }

  /** Waiting out the video cycle in progress comes before a 1 MHz access; the refresh is
      paid only by a regular fast cycle. */
  function CostBeforeStretch(s: State, t: CycleType): Cost
  {
    match t
    case Sync => Cost(14, if s.phase == 0 then 0 else 14 - s.phase, 0, 0)
    case FastRom => Cost(s.current.perCpu, 0, 0, 0)
    case _ => Cost(s.current.perCpu, 0, if s.refresh + s.current.perCpu >= 50 then 5 else 0, 0)
  }

  /** The refresh counter gains the ticks of the access itself and drops by 50 when due. */
  function NextRefresh(s: State, before: Cost): nat {
    var r := s.refresh + before.base + before.wait;
    if r >= 50 then r - 50 else r
  }

  /** The video clock catches up with the master clock: every 14 ticks complete a video
      cycle, and the 65th of a line stretches the line by `extra`. */
  function CatchUp(s: State): State
  {
    var ticks := s.phase + (s.c14M - s.videoC14m);
    var line := s.lineCycles + ticks / 14;
    var c := s.c14M + if line >= 65 then s.current.extra else 0;
    s.(phase := ticks % 14, videoCycles := s.videoCycles + ticks / 14,
       lineCycles := if line >= 65 then line - 65 else line, c14M := c, videoC14m := c)
  }

  /** A cycle of type `t` that pays for itself. */
  function Charge(s: State, t: CycleType): State
  {
    var before := CostBeforeStretch(s, t);
    var u := s.(refresh := NextRefresh(s, before), c14M := s.c14M + before.Total());
    if s.scanner then CatchUp(u) else u
  }

  /** Whatever the clock gained beyond the cost of the access is the line's stretch. */
  function ChargeCost(s: State, t: CycleType): Cost
  {
    var before := CostBeforeStretch(s, t);
    before.(stretch := Charge(s, t).c14M - s.c14M - before.Total())
  }

  /** The cycle counter, the charged type and the divider, before anything is paid. */
  function Latch(s: State): State {
    var t := ChargedType(s);
    s.(cycles := s.cycles + 1, cycleType := t,
       div := if t.Sync? then 0 else if Folded(s) then s.div + 1 else if s.perTick > 1 then 0 else s.div)
  }

  function GsCost(s: State): Cost
  {
    if Folded(s) then Cost(0, 0, 0, 0) else ChargeCost(Latch(s), ChargedType(s))
  }

  function GsCycle(s: State): State
  {
    (if Folded(s) then Latch(s) else Charge(Latch(s), ChargedType(s))).(cycleType := Fast)
  }

  // ---------------------------------------------------------------- the objects

  class NClock {
    var clocks: ClockSet
    var mode: Mode
    var current: ModeInfo
    var cycles: nat
    var c14M: nat
    var videoCycles: nat
    var phase: nat
    var scan: nat
    var frameStart: nat
    var frameEnd: nat
    var frameCount: nat
    var perTick: nat
    var div: nat
    var scanner: bool
    var slowMode: bool
    var refresh: nat
    var lineCycles: nat
    var videoC14m: nat
    var cycleType: CycleType

    ghost function View(): Counters
      reads this
    {
      Counters(clocks, mode, current, cycles, c14M, videoCycles, phase, scan, frameStart, frameEnd, frameCount,
            perTick, div, scanner, slowMode, refresh, lineCycles, videoC14m, cycleType)
    }

    constructor (clockSet: ClockSet, clockMode: Mode)
      ensures View() == Initial(clockSet, clockMode, false) && View().Valid()
    {
      clocks, mode := clockSet, clockMode;
      var row := TableRow(clockSet, if clockMode.FreeRun? then Mhz14 else clockMode);
      current := row;
      cycles, c14M, videoCycles, phase, scan := 0, 0, 0, 0, 0;
      frameStart, frameEnd, frameCount := 0, row.perFrame, 0;
      perTick, div := 1, 0;
      scanner, slowMode := false, false;
      refresh, lineCycles, videoC14m := 0, 0, 0;
      cycleType := Fast;
    }

    method SetVideoScanner()
      modifies this
      ensures View() == old(View()).(scanner := true)
    {
      scanner := true;
    }

    method SetClockMode(m: Mode)
      requires View().Valid()
      modifies this
      ensures View() == SetMode(old(View()), m) && View().Valid()
    {
      mode := m;
      if m == FreeRun {
        current := TableRow(clocks, Mhz14);
      } else {
        current := TableRow(clocks, m);
        perTick := 1;
        div := 0;
      }
    }

    method SetCpuPer14m(n: nat)
      requires View().Valid()
      modifies this
      ensures View() == SetPerTick(old(View()), n) && View().Valid()
    {
      var k := n;
      if k < 1 { k := 1; }
      if k > MAX_PER_TICK { k := MAX_PER_TICK; }
      perTick := k;
      div := 0;
    }

    method AdvanceFrame()
      requires View().Valid()
      modifies this
      ensures View() == NextFrame(old(View())) && View().Valid()
    {
      frameStart := frameEnd;
      frameEnd := frameEnd + current.perFrame;
      frameCount := frameCount + 1;
    }

    /** The divider shared by both clocks: true when this cycle rides on another one's tick. */
    method StepDivider() returns (folded: bool)
      requires 1 <= perTick && div < perTick
      modifies `div
      ensures folded == (perTick > 1 && old(div) + 1 < perTick)
      ensures div == if folded then old(div) + 1 else if perTick > 1 then 0 else old(div)
    {
      folded := false;
      if perTick > 1 {
        div := div + 1;
        if div < perTick {
          folded := true;
        } else {
          div := 0;
        }
      }
    }

    /** `NClockII::slow_incr_cycles`. */
    method IncrCyclesII()
      requires View().Valid()
      modifies this
      ensures View() == IiCycle(old(View())) && View().Valid()
    {
      cycles := cycles + 1;
      var folded := StepDivider();
      if !folded {
        c14M := c14M + current.perCpu;
        if scanner {
          StepScanner();
        }
      }
    }

    method StepScanner()
      requires View().Valid()
      modifies `phase, `scan, `videoCycles, `c14M
      ensures View() == IiScan(old(View()))
    {
      phase := phase + current.perCpu;
      scan := scan + current.perCpu;
      if phase >= 14 {
        phase := phase - 14;
        videoCycles := videoCycles + 1;
      }
      if scan >= 910 {
        c14M := c14M + current.extra;
        scan := 0;
      }
    }

    /** `NClockIIgs::slow_incr_cycles`. The cost that the source hands to the bus log is the
        result: `requested` is the type the MMU asked for, `charged` the one in force. */
    method IncrCyclesIIgs() returns (requested: CycleType, charged: CycleType, slowmode: bool, start: nat, cost: Cost)
      requires View().Valid()
      modifies this
      ensures View() == GsCycle(old(View())) && View().Valid()
      ensures requested == old(cycleType) && charged == ChargedType(old(View())) && start == old(c14M)
      ensures slowmode == (!Folded(old(View())) && Slow(old(View())))
      ensures cost == GsCost(old(View()))
    {
      ghost var s := View();
      requested, start, slowmode := cycleType, c14M, false;
      var folded;
      charged, folded := LatchCycle();
      if folded {
        cost := Cost(0, 0, 0, 0);
      } else {
        cost := ChargeCycle(charged);
        slowmode := slowMode || current.hzRate == US_1MHZ;
      }
      cycleType := Fast;
    }

    /** The start of a cycle: count it, settle its type, step the divider. */
    method LatchCycle() returns (charged: CycleType, folded: bool)
      requires View().Valid()
      modifies `cycles, `cycleType, `div
      ensures View() == Latch(old(View())) && View().Valid()
      ensures charged == ChargedType(old(View())) && folded == Folded(old(View()))
    {
      cycles := cycles + 1;
      charged := OverrideType();
      folded := false;
      if charged == Sync {
        div := 0;
      } else {
        folded := StepDivider();
      }
    }

    /** The rest of a cycle that is not folded: its ticks, the video clock, its cost parts. */
    method ChargeCycle(charged: CycleType) returns (cost: Cost)
      requires View().Valid()
      modifies `refresh, `c14M, `phase, `videoCycles, `lineCycles, `videoC14m
      ensures View() == Charge(old(View()), charged) && cost == ChargeCost(old(View()), charged)
    {
      hide CatchUp, NextRefresh;
      ghost var s := View();
      var start := c14M;
      var ticks := ChargeTicks(charged);
      c14M := c14M + ticks;
      if scanner {
        CatchUpVideo();
      }
      var stretch := (c14M - start) - ticks;
      cost := if charged == Sync then Cost(14, ticks - 14, 0, stretch)
              else Cost(current.perCpu, 0, ticks - current.perCpu, stretch);
    }

    /** The machine-wide 1 MHz override. */
    method OverrideType() returns (charged: CycleType)
      modifies `cycleType
      ensures charged == cycleType
      ensures cycleType == if slowMode || current.hzRate == US_1MHZ then Sync else old(cycleType)
    {
      if slowMode { cycleType := Sync; }
      if current.hzRate == US_1MHZ { cycleType := Sync; }
      charged := cycleType;
    }

    /** What an unfolded cycle costs before the scan-line stretch, and its refresh debt. */
    method ChargeTicks(charged: CycleType) returns (ticks: nat)
      requires View().Valid()
      modifies `refresh
      ensures var before := CostBeforeStretch(old(View()), charged);
              && ticks == before.Total()
              && refresh == NextRefresh(old(View()), before)
    {
      if charged == Sync {
        ticks := 14;
        if phase != 0 { ticks := ticks + (14 - phase); }
        refresh := refresh + ticks;
        if refresh >= 50 { refresh := refresh - 50; }
      } else if charged == FastRom {
        ticks := current.perCpu;
        refresh := refresh + ticks;
        if refresh >= 50 { refresh := refresh - 50; }
      } else {
        ticks := current.perCpu;
        refresh := refresh + ticks;
        if refresh >= 50 {
          refresh := refresh - 50;
          ticks := ticks + 5;
        }
      }
    }

    /** Catches the video clock up with the CPU clock, and ends the line that is full. */
    method CatchUpVideo()
      requires View().Valid()
      modifies `phase, `videoCycles, `lineCycles, `videoC14m, `c14M
      ensures View() == CatchUp(old(View())) && c14M >= old(c14M)
    {
      DrainVideo();
      if lineCycles >= 65 {
        lineCycles := lineCycles - 65;
        c14M := c14M + current.extra;
        videoC14m := videoC14m + current.extra;
      }
    }

    /** One video cycle at a time. */
    method DrainVideo()
      requires videoC14m <= c14M
      modifies `phase, `videoCycles, `lineCycles, `videoC14m
      ensures var ticks := old(phase + (c14M - videoC14m));
              && phase == ticks % 14
              && videoCycles == old(videoCycles) + ticks / 14
              && lineCycles == old(lineCycles) + ticks / 14
              && videoC14m == c14M
    {
      ghost var ticks := phase + (c14M - videoC14m);
      phase := phase + (c14M - videoC14m);
      videoC14m := c14M;
      while phase >= 14
        invariant videoCycles - old(videoCycles) == lineCycles - old(lineCycles)
        invariant phase + 14 * (videoCycles - old(videoCycles)) == ticks
        invariant videoC14m == c14M
      {
        phase := phase - 14;
        videoCycles := videoCycles + 1;
        lineCycles := lineCycles + 1;
      }
    }
  }
}
