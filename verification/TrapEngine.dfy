/** The trap state machine (src/a2gspu_trap.hpp): `fire`, `check`, `store_check` and
    `read_check` for one trap, and the ring of recent PCs.
 */
module TrapEngine {
  import opened Options

  datatype Policy = Once | Every | First(n: nat, keyed: bool)

  /** A PC or address window; without a bank only the low 16 bits are compared. */
  datatype Window = Window(anyBank: bool, lo: nat, hi: nat)
  {
    predicate Matches(addr: nat) {
      var v := if anyBank then addr % 0x1_0000 else addr;
      lo <= v <= hi
    }
  }

  datatype Trigger = AtPc(at: Window, exit: Option<Window>) | AtStore(at: Window) | AtRead(at: Window) | AtStack(lo: nat, hi: nat)

  datatype Config = Config(trigger: Trigger, policy: Policy, cap: nat)

  /** What the CPU core reports, with the trap's own conditions and key as they evaluate at
      that moment. */
  datatype Event =
    | Instruction(pc: nat, stack: nat, holds: bool, key: nat)
    | Store(addr: nat, holds: bool, key: nat)
    | Load(addr: nat, holds: bool, key: nat)

  datatype Record = Entry(n: nat, heavy: bool, key: nat) | Exit(n: nat, heavy: bool)

  // ---------------------------------------------------------------- the machine

  datatype State = State(
    n: nat, entries: nat, exits: nat, hits: nat, fired: bool, capped: bool, open: Option<nat>, openHeavy: bool,
    keycount: map<nat, nat>, spInside: bool, out: seq<Record>)

  const INITIAL := State(0, 0, 0, 0, false, false, None, false, map[], false, [])

  function Counted(m: map<nat, nat>, k: nat): nat { if k in m then m[k] else 0 }

  function KeyOf(policy: Policy, key: nat): nat { if policy.First? && policy.keyed then key else 0 }

  function HasExit(cfg: Config): bool { cfg.trigger.AtPc? && cfg.trigger.exit.Some? }

  /** A record goes out, and may open a pair or reach the cap. */
  function AddEntry(cfg: Config, s: State, heavy: bool, k: nat): State {
    s.(n := s.n + 1, entries := s.entries + 1, fired := true,
       out := s.out + [Entry(s.n, heavy, k)],
       open := if HasExit(cfg) then Some(s.n) else s.open,
       openHeavy := if HasExit(cfg) then heavy else s.openHeavy,
       capped := s.n + 1 >= cfg.cap)
  }

  /** `fire`. */
  function Fire(cfg: Config, s0: State, holds: bool, key: nat): State {
    var s := s0.(hits := s0.hits + 1);
    if s.capped || (cfg.policy.Once? && s.fired) || !holds then s
    else
      var k := KeyOf(cfg.policy, key);
      var cnt := Counted(s.keycount, k);
      var heavy := cfg.policy.First? ==> cnt < cfg.policy.n;
      var keycount := if cfg.policy.First? then s.keycount[k := if heavy then cnt + 1 else cnt] else s.keycount;
      AddEntry(cfg, s.(keycount := keycount), heavy, k)
  }

  function TakeExit(cfg: Config, s: State, pc: nat): State {
    if HasExit(cfg) && s.open.Some? && cfg.trigger.exit.value.Matches(pc)
    then s.(exits := s.exits + 1, out := s.out + [Exit(s.open.value, s.openHeavy)], open := None)
    else s
  }

  /** One event; an exit is looked for before an entry. */
  function Step(cfg: Config, s: State, e: Event): State {
    match e
    case Instruction(pc, stack, holds, key) =>
      (match cfg.trigger
       case AtStack(lo, hi) =>
         var inside := lo <= stack <= hi;
         (if inside && !s.spInside then Fire(cfg, s, holds, key) else s).(spInside := inside)
       case AtPc(at, _) =>
         var t := TakeExit(cfg, s, pc);
         if at.Matches(pc) then Fire(cfg, t, holds, key) else t
       case _ => s)
    case Store(addr, holds, key) =>
      if cfg.trigger.AtStore? && cfg.trigger.at.Matches(addr) then Fire(cfg, s, holds, key) else s
    case Load(addr, holds, key) =>
      if cfg.trigger.AtRead? && cfg.trigger.at.Matches(addr) then Fire(cfg, s, holds, key) else s
  }

  function Run(cfg: Config, es: seq<Event>): State {
    if es == [] then INITIAL else Step(cfg, Run(cfg, es[..|es| - 1]), es[|es| - 1])
  }

  /** The trap object. */
  class Trap {
    const cfg: Config
    var n: nat
    var entries: nat
    var exits: nat
    var hits: nat
    var fired: bool
    var capped: bool
    var open: Option<nat>
    var openHeavy: bool
    var keycount: map<nat, nat>
    var spInside: bool
    var out: seq<Record>

    ghost function View(): State
      reads this
    {
      State(n, entries, exits, hits, fired, capped, open, openHeavy, keycount, spInside, out)
    }

    constructor (c: Config)
      ensures View() == INITIAL && cfg == c
    {
      cfg := c;
      n, entries, exits, hits, fired, capped := 0, 0, 0, 0, false, false;
      open, openHeavy, keycount, spInside, out := None, false, map[], false, [];
    }

    method FireTrap(holds: bool, key: nat)
      modifies this
      ensures View() == Fire(cfg, old(View()), holds, key)
    {
      hide AddEntry, KeyOf, HasExit;
      hits := hits + 1;
      if capped { return; }
      if cfg.policy.Once? && fired { return; }
      if !holds { return; }
      var k := KeyOf(cfg.policy, key);
      var heavy := CountHeavy(k);
      RecordEntry(heavy, k);
    }

    method RecordEntry(heavy: bool, k: nat)
      requires !capped
      modifies this
      ensures View() == AddEntry(cfg, old(View()), heavy, k)
    {
      var number := n;
      n := n + 1;
      entries, fired := entries + 1, true;
      out := out + [Entry(number, heavy, k)];
      if HasExit(cfg) {
        open, openHeavy := Some(number), heavy;
      }
      if n >= cfg.cap {
        capped := true;
      }
    }

    /** The FIRST policy: the heavy payload goes to the first N records of a key. */
    method CountHeavy(k: nat) returns (heavy: bool)
      modifies `keycount
      ensures heavy == (cfg.policy.First? ==> Counted(old(keycount), k) < cfg.policy.n)
      ensures keycount == if cfg.policy.First?
                          then old(keycount)[k := if heavy then Counted(old(keycount), k) + 1 else Counted(old(keycount), k)]
                          else old(keycount)
    {
      heavy := true;
      if cfg.policy.First? {
        var cnt := Counted(keycount, k);
        heavy := cnt < cfg.policy.n;
        keycount := keycount[k := if heavy then cnt + 1 else cnt];
      }
    }

    method Check(pc: nat, stack: nat, holds: bool, key: nat)
      modifies this
      ensures View() == Step(cfg, old(View()), Instruction(pc, stack, holds, key))
    {
      hide Fire;
      match cfg.trigger {
        case AtStack(lo, hi) =>
          var inside := lo <= stack <= hi;
          if inside && !spInside { FireTrap(holds, key); }
          spInside := inside;
        case AtPc(at, exit) =>
          if exit.Some? && open.Some? && exit.value.Matches(pc) {
            exits := exits + 1;
            out := out + [Exit(open.value, openHeavy)];
            open := None;
          }
          if at.Matches(pc) { FireTrap(holds, key); }
        case _ =>
      }
    }

    method CheckStore(addr: nat, holds: bool, key: nat)
      modifies this
      ensures View() == Step(cfg, old(View()), Store(addr, holds, key))
    {
      if cfg.trigger.AtStore? && cfg.trigger.at.Matches(addr) { FireTrap(holds, key); }
    }

    method CheckRead(addr: nat, holds: bool, key: nat)
      modifies this
      ensures View() == Step(cfg, old(View()), Load(addr, holds, key))
    {
      if cfg.trigger.AtRead? && cfg.trigger.at.Matches(addr) { FireTrap(holds, key); }
    }
  }

  // ---------------------------------------------------------------- the history

  /** An address is in a window, or, when the window has no bank, in its copy in the address's
      own bank. */
  predicate Within(w: Window, addr: nat) {
    var bank := if w.anyBank then addr / 0x1_0000 * 0x1_0000 else 0;
    bank + w.lo <= addr <= bank + w.hi
  }

  lemma MatchesIsWithin(w: Window, addr: nat)
    ensures w.Matches(addr) <==> Within(w, addr)
  {
  }

  /** Does event `i` of a history trigger? A stack trap triggers on the way into its range. */
  predicate Hits(cfg: Config, es: seq<Event>, i: nat)
    requires i < |es|
  {
    match cfg.trigger
    case AtStack(lo, hi) => es[i].Instruction? && lo <= es[i].stack <= hi && !WasInside(cfg, es, i)
    case AtPc(at, _) => es[i].Instruction? && Within(at, es[i].pc)
    case AtStore(at) => es[i].Store? && Within(at, es[i].addr)
    case AtRead(at) => es[i].Load? && Within(at, es[i].addr)
  }

  /** Whether the stack was inside the range at the last instruction before event `i`. */
  predicate WasInside(cfg: Config, es: seq<Event>, i: nat)
    requires i <= |es| && cfg.trigger.AtStack?
  {
    i > 0 && if es[i - 1].Instruction? then cfg.trigger.lo <= es[i - 1].stack <= cfg.trigger.hi else WasInside(cfg, es, i - 1)
  }

  function EntryCount(rs: seq<Record>): nat {
    if rs == [] then 0 else EntryCount(rs[..|rs| - 1]) + if rs[|rs| - 1].Entry? then 1 else 0
  }

  function ExitCount(rs: seq<Record>): nat {
    if rs == [] then 0 else ExitCount(rs[..|rs| - 1]) + if rs[|rs| - 1].Exit? then 1 else 0
  }

  function KeyEntries(rs: seq<Record>, k: nat): nat {
    if rs == [] then 0
    else KeyEntries(rs[..|rs| - 1], k) + if rs[|rs| - 1].Entry? && rs[|rs| - 1].key == k then 1 else 0
  }

  /** An exit answers the last record when that is an entry. */
  function WithExit(cfg: Config, pc: nat, rs: seq<Record>): seq<Record> {
    if cfg.trigger.AtPc? && cfg.trigger.exit.Some? && rs != [] && rs[|rs| - 1].Entry? && Within(cfg.trigger.exit.value, pc)
    then rs + [Exit(rs[|rs| - 1].n, rs[|rs| - 1].heavy)] else rs
  }

  /** A hit is recorded under the cap, once only if so asked, and when its conditions hold;
      its payload is heavy for the first N of its key. */
  function WithEntry(cfg: Config, holds: bool, key: nat, rs: seq<Record>): seq<Record> {
    if holds && EntryCount(rs) < cfg.cap && (cfg.policy.Once? ==> EntryCount(rs) == 0) then
      var k := match cfg.policy case First(_, true) => key case _ => 0;
      rs + [Entry(EntryCount(rs), cfg.policy.First? ==> KeyEntries(rs, k) < cfg.policy.n, k)]
    else rs
  }

  /** The records a history calls for, from the records before it. */
  function Expected(cfg: Config, es: seq<Event>): seq<Record> {
    if es == [] then []
    else
      var i := |es| - 1;
      var e := es[i];
      var rs := Expected(cfg, es[..i]);
      var rs := if e.Instruction? then WithExit(cfg, e.pc, rs) else rs;
      if Hits(cfg, es, i) then WithEntry(cfg, e.holds, e.key, rs) else rs
  }

  function HitCount(cfg: Config, es: seq<Event>): nat {
    if es == [] then 0 else HitCount(cfg, es[..|es| - 1]) + if Hits(cfg, es, |es| - 1) then 1 else 0
  }

  function Min(a: nat, b: nat): nat { if a < b then a else b }

  /** How the machine's counters summarise the records. */
  ghost predicate Summarises(cfg: Config, s: State) {
    && s.n == s.entries == EntryCount(s.out) && s.exits == ExitCount(s.out)
    && s.fired == (s.n > 0) && s.capped == (s.n >= cfg.cap)
    && (HasExit(cfg) ==>
          if s.out != [] && s.out[|s.out| - 1].Entry?
          then s.open == Some(s.out[|s.out| - 1].n) && s.openHeavy == s.out[|s.out| - 1].heavy
          else s.open == None)
    && (cfg.policy.First? ==> forall k: nat :: Counted(s.keycount, k) == Min(cfg.policy.n, KeyEntries(s.out, k)))
  }

  // ---------------------------------------------------------------- the machine follows the history

  lemma AppendRecord(rs: seq<Record>, r: Record)
    ensures EntryCount(rs + [r]) == EntryCount(rs) + if r.Entry? then 1 else 0
    ensures ExitCount(rs + [r]) == ExitCount(rs) + if r.Exit? then 1 else 0
    ensures forall k :: KeyEntries(rs + [r], k) == KeyEntries(rs, k) + if r.Entry? && r.key == k then 1 else 0
  {
    assert (rs + [r])[..|rs|] == rs;
  }

  lemma FireFollows(cfg: Config, s: State, holds: bool, key: nat)
    requires cfg.cap > 0 && Summarises(cfg, s)
    ensures var t := Fire(cfg, s, holds, key);
            Summarises(cfg, t) && t.spInside == s.spInside && t.hits == s.hits + 1 && t.out == WithEntry(cfg, holds, key, s.out)
  {
    hide EntryCount, ExitCount, KeyEntries;
    var k := KeyOf(cfg.policy, key);
    if holds && EntryCount(s.out) < cfg.cap && (cfg.policy.Once? ==> EntryCount(s.out) == 0) {
      if cfg.policy.First? {
        assert Counted(s.keycount, k) == Min(cfg.policy.n, KeyEntries(s.out, k));
      }
      AppendRecord(s.out, Entry(s.n, cfg.policy.First? ==> Counted(s.keycount, k) < cfg.policy.n, k));
    }
  }

  lemma ExitFollows(cfg: Config, s: State, pc: nat)
    requires Summarises(cfg, s)
    ensures var t := TakeExit(cfg, s, pc);
            Summarises(cfg, t) && t.spInside == s.spInside && t.hits == s.hits && t.out == WithExit(cfg, pc, s.out)
  {
    hide EntryCount, ExitCount, KeyEntries;
    if s.open.Some? { AppendRecord(s.out, Exit(s.open.value, s.openHeavy)); }
  }

  /** For every configuration and history: the records are the expected ones, the counters
      count them, and hits are the events that trigger. */
  lemma {:induction false} MachineFollowsHistory(cfg: Config, es: seq<Event>)
    requires cfg.cap > 0
    ensures var s := Run(cfg, es);
            && s.out == Expected(cfg, es) && s.hits == HitCount(cfg, es) && Summarises(cfg, s)
            && (cfg.trigger.AtStack? ==> s.spInside == WasInside(cfg, es, |es|))
  {
    if es == [] {
      NothingYet(cfg);
    } else {
      var i := |es| - 1;
      var before := es[..i];
      MachineFollowsHistory(cfg, before);
      if cfg.trigger.AtStack? { SamePast(cfg, before, es, i); }
      StepFollows(cfg, es, Run(cfg, before));
    }
  }

  lemma NothingYet(cfg: Config)
    requires cfg.cap > 0
    ensures Summarises(cfg, INITIAL)
  {
    assert forall k: nat :: KeyEntries([], k) == 0;
  }

  lemma {:induction false} SamePast(cfg: Config, before: seq<Event>, es: seq<Event>, i: nat)
    requires before <= es && i <= |before| && cfg.trigger.AtStack?
    ensures WasInside(cfg, before, i) == WasInside(cfg, es, i)
    decreases i
  {
    if i > 0 { SamePast(cfg, before, es, i - 1); }
  }

  lemma StepFollows(cfg: Config, es: seq<Event>, s: State)
    requires cfg.cap > 0 && es != [] && Summarises(cfg, s) && s.out == Expected(cfg, es[..|es| - 1])
    requires cfg.trigger.AtStack? ==> s.spInside == WasInside(cfg, es, |es| - 1)
    ensures var t := Step(cfg, s, es[|es| - 1]);
            && t.out == Expected(cfg, es) && t.hits == s.hits + (if Hits(cfg, es, |es| - 1) then 1 else 0) && Summarises(cfg, t)
            && (cfg.trigger.AtStack? ==> t.spInside == WasInside(cfg, es, |es|))
  {
    hide Fire, TakeExit, WithEntry, Summarises;
    var e := es[|es| - 1];
    if e.Instruction? && cfg.trigger.AtPc? {
      ExitFollows(cfg, s, e.pc);
      FireFollows(cfg, TakeExit(cfg, s, e.pc), e.holds, e.key);
    } else {
      FireFollows(cfg, s, e.holds, e.key);
      if cfg.trigger.AtStack? { SpSummary(cfg, s, e); }
    }
  }

  /** The stack flag is no part of the summary. */
  lemma SpSummary(cfg: Config, s: State, e: Event)
    requires Summarises(cfg, s) && Summarises(cfg, Fire(cfg, s, e.holds, e.key))
    ensures forall b :: Summarises(cfg, s.(spInside := b)) && Summarises(cfg, Fire(cfg, s, e.holds, e.key).(spInside := b))
  {
    hide Fire, EntryCount, ExitCount, KeyEntries;
  }

  // ---------------------------------------------------------------- banks

  /** No window of the trap names a bank. */
  predicate Bankless(cfg: Config) {
    match cfg.trigger
    case AtPc(at, exit) => at.anyBank && (exit.Some? ==> exit.value.anyBank)
    case AtStore(at) => at.anyBank
    case AtRead(at) => at.anyBank
    case AtStack(_, _) => true
  }

  /** Two events that differ at most in the bank of their address. */
  predicate SameOffset(e: Event, f: Event) {
    match (e, f)
    case (Instruction(pc, stack, holds, key), Instruction(pc', stack', holds', key')) =>
      pc % 0x1_0000 == pc' % 0x1_0000 && stack == stack' && holds == holds' && key == key'
    case (Store(addr, holds, key), Store(addr', holds', key')) => addr % 0x1_0000 == addr' % 0x1_0000 && holds == holds' && key == key'
    case (Load(addr, holds, key), Load(addr', holds', key')) => addr % 0x1_0000 == addr' % 0x1_0000 && holds == holds' && key == key'
    case (_, _) => false
  }

  /** A trap without banks does not see the banks of a history. */
  lemma {:induction false} BanksDoNotMatter(cfg: Config, es: seq<Event>, fs: seq<Event>)
    requires Bankless(cfg) && |es| == |fs| && forall i :: 0 <= i < |es| ==> SameOffset(es[i], fs[i])
    ensures Run(cfg, es) == Run(cfg, fs)
  {
    if es != [] {
      var n := |es| - 1;
      BanksDoNotMatter(cfg, es[..n], fs[..n]);
      SameStep(cfg, Run(cfg, es[..n]), es[n], fs[n]);
    }
  }

  lemma SameStep(cfg: Config, s: State, e: Event, f: Event)
    requires Bankless(cfg) && SameOffset(e, f)
    ensures Step(cfg, s, e) == Step(cfg, s, f)
  {
    hide Fire;
  }

  /** After any history, an event is a hit exactly when it is of the trap's kind and its address
      lies between the ends of the window: the full address when the window has a bank, the low
      16 bits when it has none. */
  lemma HitsByAddress(cfg: Config, es: seq<Event>, e: Event)
    requires cfg.cap > 0 && !cfg.trigger.AtStack?
    ensures var w := cfg.trigger.at;
            var kind := match cfg.trigger case AtPc(_, _) => e.Instruction? case AtStore(_) => e.Store? case _ => e.Load?;
            var addr := if e.Instruction? then e.pc else e.addr;
            var hit := kind && w.lo <= (if w.anyBank then addr % 0x1_0000 else addr) <= w.hi;
            Run(cfg, es + [e]).hits == Run(cfg, es).hits + if hit then 1 else 0
  {
    hide Expected, Run, Summarises;
    assert (es + [e])[..|es|] == es;
    MachineFollowsHistory(cfg, es);
    MachineFollowsHistory(cfg, es + [e]);
  }

  /** A recorded hit of a keyed trap carries its event's key. */
  lemma RecordsCarryKeys(cfg: Config, es: seq<Event>, e: Event)
    requires cfg.cap > 0 && |Run(cfg, es + [e]).out| > 0 && EntryCount(Run(cfg, es + [e]).out) > EntryCount(Run(cfg, es).out)
    ensures var out := Run(cfg, es + [e]).out;
            var r := out[|out| - 1];
            && r.Entry? && r.key == (if cfg.policy.First? && cfg.policy.keyed then e.key else 0) && e.holds
            && r.n == EntryCount(Run(cfg, es).out)
  {
    hide Run, Summarises;
    assert (es + [e])[..|es|] == es;
    MachineFollowsHistory(cfg, es);
    MachineFollowsHistory(cfg, es + [e]);
    var rs := Expected(cfg, es);
    if e.Instruction? {
      if rs != [] { AppendRecord(rs, Exit(rs[|rs| - 1].n, rs[|rs| - 1].heavy)); }
    }
  }

  // ---------------------------------------------------------------- what the history promises

  /** Entries are numbered from 0, exits carry the number of the entry right before them, and
      there are never more entries than the cap (or one, under `once`). */
  ghost predicate WellPaired(cfg: Config, rs: seq<Record>) {
    && (forall i :: 0 <= i < |rs| ==> Follows(cfg, rs[..i], rs[i]))
    && EntryCount(rs) <= cfg.cap && (cfg.policy.Once? ==> EntryCount(rs) <= 1)
  }

  /** A record is right after the ones before it. */
  ghost predicate Follows(cfg: Config, before: seq<Record>, r: Record) {
    && (r.Entry? ==>
          && r.n == EntryCount(before)
          && (cfg.policy.First? ==> (r.heavy <==> KeyEntries(before, r.key) < cfg.policy.n)))
    && (r.Exit? ==> before != [] && var last := before[|before| - 1]; last.Entry? && r.n == last.n && r.heavy == last.heavy)
  }

  lemma GrowPaired(cfg: Config, rs: seq<Record>, r: Record)
    requires WellPaired(cfg, rs) && Follows(cfg, rs, r)
    requires r.Entry? ==> EntryCount(rs) < cfg.cap && (cfg.policy.Once? ==> EntryCount(rs) == 0)
    ensures WellPaired(cfg, rs + [r])
  {
    hide EntryCount, KeyEntries, Follows;
    AppendRecord(rs, r);
    var all := rs + [r];
    forall i | 0 <= i < |all| ensures Follows(cfg, all[..i], all[i]) {
      if i == |rs| {
        assert all[..i] == rs;
      } else {
        assert all[..i] == rs[..i] && all[i] == rs[i];
      }
    }
  }

  lemma {:induction false} RecordsAreWellPaired(cfg: Config, es: seq<Event>)
    requires cfg.cap > 0
    ensures WellPaired(cfg, Expected(cfg, es))
  {
    hide WellPaired, WithExit, WithEntry, Hits;
    if es == [] {
      EmptyPaired(cfg);
    } else {
      var i := |es| - 1;
      RecordsAreWellPaired(cfg, es[..i]);
      var e, rs := es[i], Expected(cfg, es[..i]);
      if e.Instruction? {
        ExitKeepsPaired(cfg, e.pc, rs);
        EntryKeepsPaired(cfg, e.holds, e.key, WithExit(cfg, e.pc, rs));
      } else {
        EntryKeepsPaired(cfg, e.holds, e.key, rs);
      }
    }
  }

  lemma ExitKeepsPaired(cfg: Config, pc: nat, rs: seq<Record>)
    requires WellPaired(cfg, rs)
    ensures WellPaired(cfg, WithExit(cfg, pc, rs))
  {
    hide WellPaired;
    if rs != [] && rs[|rs| - 1].Entry? { GrowPaired(cfg, rs, Exit(rs[|rs| - 1].n, rs[|rs| - 1].heavy)); }
  }

  lemma EntryKeepsPaired(cfg: Config, holds: bool, key: nat, rs: seq<Record>)
    requires WellPaired(cfg, rs)
    ensures WellPaired(cfg, WithEntry(cfg, holds, key, rs))
  {
    hide WellPaired, EntryCount, KeyEntries;
    if EntryCount(rs) < cfg.cap && (cfg.policy.Once? ==> EntryCount(rs) == 0) {
      var k := KeyOf(cfg.policy, key);
      GrowPaired(cfg, rs, Entry(EntryCount(rs), cfg.policy.First? ==> KeyEntries(rs, k) < cfg.policy.n, k));
    }
  }

  lemma EmptyPaired(cfg: Config)
    requires cfg.cap > 0
    ensures WellPaired(cfg, [])
  {
  }

  lemma {:induction false} CountGrows(rs: seq<Record>, i: nat, j: nat)
    requires i <= j <= |rs|
    ensures EntryCount(rs[..i]) <= EntryCount(rs[..j])
    ensures i < j && rs[i].Entry? ==> EntryCount(rs[..i]) < EntryCount(rs[..j])
    decreases j - i
  {
    if i < j {
      assert rs[..i + 1][..i] == rs[..i];
      CountGrows(rs, i + 1, j);
    }
  }

  lemma ExitMeans(cfg: Config, rs: seq<Record>, i: nat)
    requires WellPaired(cfg, rs) && i < |rs| && rs[i].Exit?
    ensures i > 0 && rs[i - 1].Entry? && rs[i].n == EntryCount(rs[..i - 1])
  {
    hide EntryCount, KeyEntries;
    assert Follows(cfg, rs[..i], rs[i]);
    assert rs[..i][i - 1] == rs[i - 1];
    assert Follows(cfg, rs[..i - 1], rs[i - 1]);
  }

  /** Exit numbers are strictly increasing over a whole run. */
  lemma ExitsIncrease(cfg: Config, es: seq<Event>, i: nat, j: nat)
    requires cfg.cap > 0
    requires var rs := Expected(cfg, es); i < j < |rs| && rs[i].Exit? && rs[j].Exit?
    ensures var rs := Expected(cfg, es); rs[i].n < rs[j].n
  {
    hide Expected, EntryCount, WellPaired, Follows;
    RecordsAreWellPaired(cfg, es);
    var rs := Expected(cfg, es);
    ExitMeans(cfg, rs, i);
    ExitMeans(cfg, rs, j);
    assert i < j - 1;
    CountGrows(rs, i - 1, j - 1);
  }

  // ---------------------------------------------------------------- the PC ring

  const RING := 256

  /** The ring of the last 256 PCs, and the history it stands for. */
  class PcRing {
    const slots: array<nat>
    var count: nat
    ghost var history: seq<nat>

    ghost predicate Valid()
      reads this, slots
    {
      && slots.Length == RING && count == |history|
      && forall k :: 0 <= k < count && count - RING <= k ==> slots[k % RING] == history[k]
    }

    constructor ()
      ensures Valid() && history == [] && fresh(slots)
    {
      slots, count, history := new nat[RING], 0, [];
    }

    method Note(pc: nat)
      requires Valid()
      modifies this, slots
      ensures Valid() && history == old(history) + [pc]
    {
      slots[count % RING] := pc;
      assert forall k :: count + 1 - RING <= k < count && 0 <= k ==> k % RING != count % RING;
      count := count + 1;
      history := history + [pc];
    }

    /** The ring payload: the last `n` PCs, oldest first; `n` is at most 256. */
    method Last(n: nat) returns (pcs: seq<nat>)
      requires Valid() && n <= RING
      ensures pcs == if n <= |history| then history[|history| - n..] else history
    {
      var c := if n > count then count else n;
      pcs := [];
      for k := count - c to count
        invariant pcs == history[count - c..k]
      {
        pcs := pcs + [slots[k % RING]];
      }
    }
  }
}
