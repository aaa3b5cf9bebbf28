/** The bus access log (src/a2gspu_buslog.hpp): one record per counted CPU cycle, holding
    the access the core pended and what the clock charged for the cycle.
 */
module BusLog {
  import opened Options
  import opened Clock

  datatype Kind = Read | Write | Fetch | Vector | PhantomRead | PhantomWrite | SkippedRead | Internal

  datatype Side = NoSide | FastSide | SlowSide

  datatype Reason = MegaII | Io | Shadow | SlowMode | RefreshHit | Stretch | FastRomType

  datatype Entry = Entry(
    cycle: nat, t14m: nat, addr: nat, value: nat, kind: Kind, side: Side, reasons: set<Reason>,
    c14m: nat, base: nat, wait: nat, refresh: nat, stretch: nat)

  const DEFAULT_CAP := 0x10_0000
  const MAX_CAP := 0x100_0000

  /** The access in flight, and what the clock noted about the cycle now ending. */
  datatype Access = Access(addr: nat, value: nat, kind: Kind)
  datatype Note = Note(requested: CycleType, charged: CycleType, slowmode: bool,
                       base: nat, wait: nat, refresh: nat, stretch: nat, t14m: nat)
  datatype Log = Log(on: bool, entries: seq<Entry>, cap: nat, dropped: nat, overlap: nat,
                     pending: Option<Access>, note: Option<Note>)

  function Pend(l: Log, addr: nat, value: nat, kind: Kind): Log {
    l.(overlap := if l.pending.Some? then l.overlap + 1 else l.overlap,
       pending := Some(Access(addr % 0x100_0000, value, kind)))
  }

  /** The MMU's reason for a 1 MHz cycle, from the address and the access kind. */
  function MmuReason(addr: nat, kind: Kind): Reason {
    var bank := addr / 0x1_0000 % 0x100;
    var a16 := addr % 0x1_0000;
    if a16 / 0x100 == 0xC0 then Io
    else if bank == 0xE0 || bank == 0xE1 then MegaII
    else if a16 / 0x1000 == 0xC then MegaII
    else if kind.Write? || kind.PhantomWrite? then Shadow
    else MegaII
  }

  function Reasons(n: Note, pending: Option<Access>): set<Reason> {
    (if n.requested.Sync? && pending.Some? && !pending.value.kind.SkippedRead?
     then {MmuReason(pending.value.addr, pending.value.kind)} else {})
    + (if n.slowmode then {SlowMode} else {})
    + (if n.refresh != 0 then {RefreshHit} else {})
    + (if n.stretch != 0 then {Stretch} else {})
    + (if n.charged.FastRom? then {FastRomType} else {})
  }

  /** The record `end_cycle` builds; a clock without a bus-side model leaves no note. */
  function Record(l: Log, cycle: nat): Entry {
    var a := if l.pending.Some? then l.pending.value else Access(0, 0, Internal);
    match l.note
    case Some(n) =>
      Entry(cycle, n.t14m, a.addr, a.value, a.kind, if n.charged.Sync? then SlowSide else FastSide,
            Reasons(n, l.pending),
            (n.base + n.wait + n.refresh + n.stretch) % 0x1_0000, n.base, n.wait, n.refresh, n.stretch)
    case None => Entry(cycle, 0, a.addr, a.value, a.kind, NoSide, {}, 0, 0, 0, 0, 0)
  }

  function EndCycle(l: Log, cycle: nat): Log {
    var l' := l.(pending := None, note := None);
    if |l.entries| < l.cap then l'.(entries := l.entries + [Record(l, cycle)])
    else l'.(dropped := l.dropped + 1)
  }

  /** The parts of a cost pass through `uint8_t` fields. */
  function NarrowNote(requested: CycleType, charged: CycleType, slowmode: bool, c: Cost, t14m: nat): Note {
    Note(requested, charged, slowmode, c.base % 256, c.wait % 256, c.refresh % 256, c.stretch % 256, t14m)
  }

  function NoteCycle(l: Log, cycle: nat, requested: CycleType, charged: CycleType, slowmode: bool,
                     cost: Cost, t14m: nat): Log {
    EndCycle(l.(note := Some(NarrowNote(requested, charged, slowmode, cost, t14m))), cycle)
  }

  function Mark(l: Log, cap: nat): Log {
    Log(true, [], if cap == 0 then DEFAULT_CAP else if cap > MAX_CAP then MAX_CAP else cap, 0, 0, None, None)
  }

  function Off(l: Log): Log { l.(on := false, pending := None, note := None) }

  const INITIAL := Log(false, [], DEFAULT_CAP, 0, 0, None, None)

  class Recorder {
    var on: bool
    var entries: seq<Entry>
    var cap: nat
    var dropped: nat
    var overlap: nat
    var pending: Option<Access>
    var note: Option<Note>

    ghost function View(): Log
      reads this
    {
      Log(on, entries, cap, dropped, overlap, pending, note)
    }

    constructor ()
      ensures View() == INITIAL
    {
      on, entries, cap, dropped, overlap, pending, note := false, [], DEFAULT_CAP, 0, 0, None, None;
    }

    method PendAccess(addr: nat, value: nat, kind: Kind)
      modifies this
      ensures View() == Pend(old(View()), addr, value, kind)
    {
      if pending.Some? {
        overlap := overlap + 1;
      }
      pending := Some(Access(addr % 0x100_0000, value, kind));
    }

    /** The first half of `end_cycle`: the record for the cycle now ending. */
    method BuildEntry(cycle: nat) returns (e: Entry)
      ensures e == Record(View(), cycle)
    {
      var a := if pending.Some? then pending.value else Access(0, 0, Internal);
      if note.None? {
        return Entry(cycle, 0, a.addr, a.value, a.kind, NoSide, {}, 0, 0, 0, 0, 0);
      }
      var n := note.value;
      e := Entry(cycle, n.t14m, a.addr, a.value, a.kind, if n.charged == Sync then SlowSide else FastSide,
                 Reasons(n, pending),
                 (n.base + n.wait + n.refresh + n.stretch) % 0x1_0000, n.base, n.wait, n.refresh, n.stretch);
    }

    method FinishCycle(cycle: nat)
      modifies this
      ensures View() == EndCycle(old(View()), cycle)
    {
      var e := BuildEntry(cycle);
      pending := None;
      note := None;
      if |entries| < cap {
        entries := entries + [e];
      } else {
        dropped := dropped + 1;
      }
    }

    method RecordCycle(cycle: nat, requested: CycleType, charged: CycleType, slowmode: bool, cost: Cost, t14m: nat)
      modifies this
      ensures View() == NoteCycle(old(View()), cycle, requested, charged, slowmode, cost, t14m)
    {
      note := Some(NarrowNote(requested, charged, slowmode, cost, t14m));
      FinishCycle(cycle);
    }

    method StartAt(limit: nat)
      modifies this
      ensures View() == Mark(old(View()), limit)
    {
      entries, dropped, overlap := [], 0, 0;
      cap := if limit != 0 then (if limit > MAX_CAP then MAX_CAP else limit) else DEFAULT_CAP;
      pending, note, on := None, None, true;
    }

    method Stop()
      modifies this
      ensures View() == Off(old(View()))
    {
      on, pending, note := false, None, None;
    }
  }

  // ---------------------------------------------------------------- totals

  function TotalC14m(es: seq<Entry>): nat { if es == [] then 0 else TotalC14m(es[..|es| - 1]) + es[|es| - 1].c14m }

  function SideC14m(es: seq<Entry>, side: Side): nat {
    if es == [] then 0
    else SideC14m(es[..|es| - 1], side) + if es[|es| - 1].side == side then es[|es| - 1].c14m else 0
  }

  function SideCount(es: seq<Entry>, side: Side): nat {
    if es == [] then 0 else SideCount(es[..|es| - 1], side) + if es[|es| - 1].side == side then 1 else 0
  }

  function ReasonCount(es: seq<Entry>, r: Reason): nat {
    if es == [] then 0 else ReasonCount(es[..|es| - 1], r) + if r in es[|es| - 1].reasons then 1 else 0
  }

  datatype Summary = Summary(n: nat, c14m: nat, fast: nat, slow: nat, fastC14m: nat, slowC14m: nat, timed: nat,
                             reason: map<Reason, nat>)

  const ALL_REASONS := {MegaII, Io, Shadow, SlowMode, RefreshHit, Stretch, FastRomType}

  ghost predicate Sums(s: Summary, w: seq<Entry>) {
    && s.n == |w| && s.c14m == TotalC14m(w)
    && s.fast == SideCount(w, FastSide) && s.slow == SideCount(w, SlowSide)
    && s.fastC14m == SideC14m(w, FastSide) && s.slowC14m == SideC14m(w, SlowSide)
    && s.timed == |w| - SideCount(w, NoSide)
    && s.reason.Keys == ALL_REASONS && forall r <- ALL_REASONS :: s.reason[r] == ReasonCount(w, r)
  }

  /** `summarize`: a window past the end is cut, an empty one sums to nothing. */
  method Summarize(log: seq<Entry>, from: nat, to: nat) returns (s: Summary)
    ensures var hi := if to > |log| then |log| else to;
            Sums(s, if from < hi then log[from..hi] else [])
  {
    var hi := if to > |log| then |log| else to;
    s := Summary(0, 0, 0, 0, 0, 0, 0, map r <- ALL_REASONS :: 0);
    var i := from;
    while i < hi
      invariant from <= i && (from < hi ==> i <= hi) && (from >= hi ==> i == from)
      invariant Sums(s, if from < hi then log[from..i] else [])
    {
      s := AddEntry(s, log[from..i], log[i]);
      assert log[from..i + 1] == log[from..i] + [log[i]];
      i := i + 1;
    }
  }

  /** One round of the summing loop. */
  method AddEntry(s0: Summary, ghost w: seq<Entry>, e: Entry) returns (s: Summary)
    requires Sums(s0, w)
    ensures Sums(s, w + [e])
  {
    assert (w + [e])[..|w|] == w;
    s := s0.(n := s0.n + 1, c14m := s0.c14m + e.c14m,
             reason := map r <- ALL_REASONS :: s0.reason[r] + if r in e.reasons then 1 else 0);
    if e.side != NoSide { s := s.(timed := s.timed + 1); }
    if e.side == FastSide { s := s.(fast := s.fast + 1, fastC14m := s.fastC14m + e.c14m); }
    if e.side == SlowSide { s := s.(slow := s.slow + 1, slowC14m := s.slowC14m + e.c14m); }
  }
}
