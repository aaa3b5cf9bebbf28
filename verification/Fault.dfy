/** The fault injector (src/a2gspu_fault.hpp): faults wait in a queue sorted by deadline and
    are delivered at instruction boundaries by `poll`.
 */
module Fault {

  datatype Kind = Nmi | Abort | IrqOn | IrqOff | Unknown

  datatype Item = Item(id: nat, due: nat, kind: Kind)

  datatype Refusal =
    | LimitReached | UnknownKind | Needs65816 | AlreadyLatched | AlreadyQueued | NoTransition | OutOfOrder

  datatype Outcome = Accepted | Refused(why: Refusal)

  const QUEUE_LIMIT := 128
  const MAX_U64 := 0xFFFF_FFFF_FFFF_FFFF

  /** The injector together with the CPU it owns: its two latches, and the agent's own line
      of the interrupt controller. */
  datatype Injector = Injector(
    queue: seq<Item>, nextId: nat, delivered: nat, lastDue: nat, lastActual: nat, irqOn: bool,
    line: bool, nmi: bool, abort: bool, is65816: bool)

  predicate Edge(k: Kind) { k.IrqOn? || k.IrqOff? }

  // ---------------------------------------------------------------- the queue

  /** A stable insertion: after every item that is due no later. */
  function Insert(q: seq<Item>, x: Item): seq<Item> {
    if q == [] || q[|q| - 1].due <= x.due then q + [x]
    else Insert(q[..|q| - 1], x) + [q[|q| - 1]]
  }

  /** What `std::stable_sort` by deadline computes. */
  function StableSort(q: seq<Item>): seq<Item> {
    if q == [] then [] else Insert(StableSort(q[..|q| - 1]), q[|q| - 1])
  }

  predicate Before(x: Item, y: Item) { x.due < y.due || (x.due == y.due && x.id < y.id) }

  predicate Ordered(q: seq<Item>) { forall i, j :: 0 <= i < j < |q| ==> Before(q[i], q[j]) }

  /** The line's level after the queued edges that are due by `t`. */
  function Projected(on: bool, q: seq<Item>, t: nat): bool {
    if q == [] then on
    else
      var last := q[|q| - 1];
      if last.due <= t && last.kind.IrqOn? then true
      else if last.due <= t && last.kind.IrqOff? then false
      else Projected(on, q[..|q| - 1], t)
  }

  predicate Queued(q: seq<Item>, k: Kind) { exists i :: 0 <= i < |q| && q[i].kind == k }

  /** Every check of `schedule`, in its order. */
  function Admit(s: Injector, kind: Kind, delay: nat, now: nat): Outcome {
    if |s.queue| >= QUEUE_LIMIT || now + delay > MAX_U64 then Refused(LimitReached)
    else if kind.Unknown? then Refused(UnknownKind)
    else if kind.Abort? && !s.is65816 then Refused(Needs65816)
    else if (kind.Nmi? && s.nmi) || (kind.Abort? && s.abort) then Refused(AlreadyLatched)
    else if !Edge(kind) && Queued(s.queue, kind) then Refused(AlreadyQueued)
    else if Edge(kind) && Projected(s.irqOn, s.queue, now + delay) == kind.IrqOn? then Refused(NoTransition)
    else if Edge(kind) && s.queue != [] && s.queue[|s.queue| - 1].due > now + delay then Refused(OutOfOrder)
    else Accepted
  }

  function Schedule(s: Injector, kind: Kind, delay: nat, now: nat): Injector {
    if Admit(s, kind, delay, now).Refused? then s
    else s.(queue := StableSort(s.queue + [Item(s.nextId, now + delay, kind)]), nextId := s.nextId + 1)
  }

  function Deliver(s: Injector, now: nat): Injector
    requires s.queue != []
  {
    var x := s.queue[0];
    var t := s.(queue := s.queue[1..], lastDue := x.due, lastActual := now, delivered := s.delivered + 1);
    match x.kind
    case Nmi => t.(nmi := true)
    case Abort => t.(abort := true)
    case IrqOn => t.(line := true, irqOn := true)
    case _ => t.(line := false, irqOn := false)
  }

  predicate Due(q: seq<Item>, now: nat) { q != [] && q[0].due <= now }

  function Poll(s: Injector, now: nat): Injector
    decreases |s.queue|
  {
    if Due(s.queue, now) then Poll(Deliver(s, now), now) else s
  }

  lemma PollUnfolds(s: Injector, now: nat)
    ensures Poll(s, now) == if Due(s.queue, now) then Poll(Deliver(s, now), now) else s
  {
  }

  function Clear(s: Injector): Injector {
    s.(queue := [], line := if s.irqOn then false else s.line, irqOn := false, nmi := false, abort := false)
  }

  // ---------------------------------------------------------------- the objects

  class Cpu {
    var nmiPending: bool
    var abortPending: bool
    const is65816: bool

    constructor (is816: bool)
      ensures !nmiPending && !abortPending && is65816 == is816
    {
      nmiPending, abortPending, is65816 := false, false, is816;
    }
  }

  class FaultQueue {
    var queue: seq<Item>
    var owner: Cpu?
    var nextId: nat
    var delivered: nat
    var lastDue: nat
    var lastActual: nat
    var irqOn: bool
    var line: bool

    /** The injector as the given CPU sees it. */
    ghost function View(cpu: Cpu): Injector
      reads this, cpu
    {
      Injector(queue, nextId, delivered, lastDue, lastActual, irqOn, line,
               cpu.nmiPending, cpu.abortPending, cpu.is65816)
    }

    constructor (cpu: Cpu)
      ensures View(cpu) == Injector([], 1, 0, 0, 0, false, false, cpu.nmiPending, cpu.abortPending, cpu.is65816)
      ensures owner == null
    {
      queue, owner, nextId, delivered, lastDue, lastActual := [], null, 1, 0, 0, 0;
      irqOn, line := false, false;
    }

    method Busy(cpu: Cpu) returns (busy: bool)
      ensures busy == IsBusy(View(cpu))
    {
      busy := queue != [] || irqOn || cpu.nmiPending || cpu.abortPending;
    }

    method ClearAll(cpu: Cpu)
      modifies this, cpu
      ensures View(cpu) == Clear(old(View(cpu))) && owner == old(owner)
    {
      queue := [];
      if irqOn {
        line := false;
      }
      irqOn := false;
      cpu.nmiPending := false;
      cpu.abortPending := false;
    }

    /** The level the line will have at `t`, by a loop over the queue. */
    method ProjectLevel(t: nat) returns (level: bool)
      ensures level == Projected(irqOn, queue, t)
    {
      level := irqOn;
      for i := 0 to |queue|
        invariant level == Projected(irqOn, queue[..i], t)
      {
        assert queue[..i + 1][..i] == queue[..i];
        if queue[i].due <= t {
          if queue[i].kind == IrqOn { level := true; }
          if queue[i].kind == IrqOff { level := false; }
        }
      }
      assert queue[..|queue|] == queue;
    }

    /** The refusals of `schedule`. */
    method CheckFault(cpu: Cpu, kind: Kind, delay: nat, now: nat) returns (r: Outcome)
      ensures r == Admit(View(cpu), kind, delay, now)
    {
      if |queue| >= QUEUE_LIMIT || delay > MAX_U64 - now { return Refused(LimitReached); }
      if kind == Unknown { return Refused(UnknownKind); }
      if kind == Abort && !cpu.is65816 { return Refused(Needs65816); }
      if (kind == Nmi && cpu.nmiPending) || (kind == Abort && cpu.abortPending) { return Refused(AlreadyLatched); }
      if !Edge(kind) && Queued(queue, kind) { return Refused(AlreadyQueued); }
      if Edge(kind) {
        var projected := ProjectLevel(now + delay);
        if projected == (kind == IrqOn) { return Refused(NoTransition); }
        if queue != [] && queue[|queue| - 1].due > now + delay { return Refused(OutOfOrder); }
      }
      r := Accepted;
    }

    method ScheduleFault(cpu: Cpu, kind: Kind, delay: nat, now: nat) returns (r: Outcome)
      modifies this
      ensures r == Admit(old(View(cpu)), kind, delay, now)
      ensures View(cpu) == Schedule(old(View(cpu)), kind, delay, now)
      ensures owner == if r.Accepted? then cpu else old(owner)
    {
      r := CheckFault(cpu, kind, delay, now);
      if r == Accepted {
        owner := cpu;
        queue := StableSort(queue + [Item(nextId, now + delay, kind)]);
        nextId := nextId + 1;
      }
    }

    /** Delivers what is due, to the CPU that scheduled last; another CPU polls in vain. */
    method PollFaults(cpu: Cpu, now: nat)
      modifies this, cpu
      ensures View(cpu) == if cpu == old(owner) then Poll(old(View(cpu)), now) else old(View(cpu))
      ensures owner == old(owner)
    {
      if cpu != owner {
        return;
      }
      hide Deliver, Poll;
      while queue != [] && queue[0].due <= now
        invariant Poll(View(cpu), now) == Poll(old(View(cpu)), now) && owner == old(owner)
        decreases |queue|
      {
        PollUnfolds(View(cpu), now);
        DeliverOne(cpu, now);
      }
      PollUnfolds(View(cpu), now);
    }

    method DeliverOne(cpu: Cpu, now: nat)
      requires queue != []
      modifies this, cpu
      ensures View(cpu) == Deliver(old(View(cpu)), now) && owner == old(owner) && |queue| < |old(queue)|
    {
      var item := queue[0];
      queue := queue[1..];
      lastDue, lastActual, delivered := item.due, now, delivered + 1;
      if item.kind == Nmi { cpu.nmiPending := true; }
      else if item.kind == Abort { cpu.abortPending := true; }
      else if item.kind == IrqOn { line := true; irqOn := true; }
      else { line := false; irqOn := false; }
    }
  }

  // ---------------------------------------------------------------- runs

  /** A delivery, and the level of the injected line just before it. */
  datatype Delivery = Delivery(item: Item, before: bool)

  /** A run remembers what it delivered and how much it threw away. */
  datatype Trace = Trace(s: Injector, out: seq<Delivery>, cleared: nat, clock: nat)

  datatype Op =
    | Ask(kind: Kind, delay: nat)   // schedule
    | Boundary                      // poll
    | ClearFaults
    | TakeNmi | TakeAbort           // the CPU consumes a latch

  function DeliverTrace(t: Trace): Trace
    requires t.s.queue != []
  {
    t.(s := Deliver(t.s, t.clock), out := t.out + [Delivery(t.s.queue[0], t.s.irqOn)])
  }

  function PollTrace(t: Trace): Trace
    decreases |t.s.queue|
  {
    if Due(t.s.queue, t.clock) then PollTrace(DeliverTrace(t)) else t
  }

  /** `gap` is how far the clock has moved since the previous operation. */
  function StepTrace(t0: Trace, gap: nat, op: Op): Trace {
    var t := t0.(clock := t0.clock + gap);
    match op
    case Ask(kind, delay) => t.(s := Schedule(t.s, kind, delay, t.clock))
    case Boundary => PollTrace(t)
    case ClearFaults => t.(s := Clear(t.s), cleared := t.cleared + |t.s.queue|)
    case TakeNmi => t.(s := t.s.(nmi := false))
    case TakeAbort => t.(s := t.s.(abort := false))
  }

  function RunTrace(t: Trace, ops: seq<(nat, Op)>): Trace {
    if ops == [] then t
    else var last := ops[|ops| - 1]; StepTrace(RunTrace(t, ops[..|ops| - 1]), last.0, last.1)
  }

  function Start(is65816: bool, clock: nat): Trace {
    Trace(Injector([], 1, 0, 0, 0, false, false, false, false, is65816), [], 0, clock)
  }

  function Items(out: seq<Delivery>): seq<Item> {
    if out == [] then [] else Items(out[..|out| - 1]) + [out[|out| - 1].item]
  }

  /** The level after one item. */
  function Next(on: bool, x: Item): bool { if x.kind.IrqOn? then true else if x.kind.IrqOff? then false else on }

  /** Queued edges take turns, the first one opposite to the level now held. */
  predicate Alternates(on: bool, q: seq<Item>)
    decreases q
  {
    q == [] || ((Edge(q[0].kind) ==> on != q[0].kind.IrqOn?) && Alternates(Next(on, q[0]), q[1..]))
  }

  function CountKind(q: seq<Item>, k: Kind): nat {
    if q == [] then 0 else CountKind(q[1..], k) + if q[0].kind == k then 1 else 0
  }

  predicate RealTransitions(out: seq<Delivery>) {
    forall d <- out :: (d.item.kind.IrqOn? ==> !d.before) && (d.item.kind.IrqOff? ==> d.before)
  }

  /** What was delivered, then what is queued: one list in (deadline, id) order. */
  predicate InOrder(done: seq<Item>, q: seq<Item>, clock: nat, nextId: nat) {
    && Ordered(done + q)
    && (forall x <- done :: x.due <= clock)
    && (forall x <- done + q :: x.id < nextId)
  }

  predicate KindsFit(s: Injector) {
    && Alternates(s.irqOn, s.queue) && s.line == s.irqOn && !Queued(s.queue, Unknown)
    && CountKind(s.queue, Nmi) + (if s.nmi then 1 else 0) <= 1
    && CountKind(s.queue, Abort) + (if s.abort then 1 else 0) <= 1
  }

  predicate Tallies(t: Trace) {
    |t.out| == t.s.delivered && t.s.nextId == 1 + t.s.delivered + |t.s.queue| + t.cleared && |t.s.queue| <= QUEUE_LIMIT
  }

  predicate Consistent(t: Trace) {
    && InOrder(Items(t.out), t.s.queue, t.clock, t.s.nextId)
    && KindsFit(t.s) && RealTransitions(t.out) && Tallies(t)
  }

  // ---------------------------------------------------------------- the sort

  lemma {:induction false} SortedIsFixed(q: seq<Item>)
    requires forall i, j :: 0 <= i < j < |q| ==> q[i].due <= q[j].due
    ensures StableSort(q) == q
  {
    hide Insert;
    if q != [] {
      var before, x := q[..|q| - 1], q[|q| - 1];
      assert q == before + [x];
      SortedIsFixed(before);
      assert forall i :: 0 <= i < |before| ==> before[i].due <= x.due;
      InsertLast(before, x);
    }
  }

  lemma InsertLast(q: seq<Item>, x: Item)
    requires q == [] || q[|q| - 1].due <= x.due
    ensures Insert(q, x) == q + [x]
  {
  }

  /** Where a new item lands: everything before it is due no later, everything after it is
      due later, and the queue is otherwise untouched. */
  lemma {:induction false} InsertSplits(q: seq<Item>, x: Item) returns (k: nat)
    requires forall i, j :: 0 <= i < j < |q| ==> q[i].due <= q[j].due
    ensures k <= |q| && Insert(q, x) == q[..k] + [x] + q[k..]
    ensures (forall i :: 0 <= i < k ==> q[i].due <= x.due) && (forall i :: k <= i < |q| ==> x.due < q[i].due)
  {
    if q == [] || q[|q| - 1].due <= x.due {
      k := |q|;
      assert q[..k] + [x] + q[k..] == q + [x];
    } else {
      k := InsertSplits(q[..|q| - 1], x);
      assert q[..|q| - 1][..k] == q[..k] && q[k..] == q[..|q| - 1][k..] + [q[|q| - 1]];
    }
  }

  lemma SortInserts(q: seq<Item>, x: Item) returns (k: nat)
    requires Ordered(q)
    ensures k <= |q| && StableSort(q + [x]) == q[..k] + [x] + q[k..]
    ensures (forall i :: 0 <= i < k ==> q[i].due <= x.due) && (forall i :: k <= i < |q| ==> x.due < q[i].due)
  {
    assert (q + [x])[..|q|] == q;
    SortedIsFixed(q);
    k := InsertSplits(q, x);
  }

  // ---------------------------------------------------------------- counting and alternation

  lemma {:induction false} CountAppend(a: seq<Item>, b: seq<Item>, k: Kind)
    ensures CountKind(a + b, k) == CountKind(a, k) + CountKind(b, k)
  {
    if a == [] {
      assert a + b == b;
    } else {
      assert (a + b)[1..] == a[1..] + b;
      CountAppend(a[1..], b, k);
    }
  }

  lemma CountInsert(q: seq<Item>, k: nat, x: Item, c: Kind)
    requires k <= |q|
    ensures CountKind(q[..k] + [x] + q[k..], c) == CountKind(q, c) + if c == x.kind then 1 else 0
  {
    CountAppend(q[..k] + [x], q[k..], c);
    CountAppend(q[..k], [x], c);
    CountAppend(q[..k], q[k..], c);
    assert q == q[..k] + q[k..];
  }

  lemma {:induction false} NotQueuedCount(q: seq<Item>, k: Kind)
    ensures !Queued(q, k) ==> CountKind(q, k) == 0
  {
    if q != [] && !Queued(q, k) {
      assert q[0].kind != k;
      assert !Queued(q[1..], k);
      NotQueuedCount(q[1..], k);
    }
  }

  /** The level after a whole sequence of edges. */
  function Level(on: bool, q: seq<Item>): bool
    decreases q
  {
    if q == [] then on else Level(Next(on, q[0]), q[1..])
  }

  lemma {:induction false} LevelAppend(on: bool, q: seq<Item>, x: Item)
    ensures Level(on, q + [x]) == Next(Level(on, q), x)
    ensures Alternates(on, q + [x]) <==> Alternates(on, q) && (Edge(x.kind) ==> Level(on, q) != x.kind.IrqOn?)
    decreases q
  {
    if q == [] {
      assert (q + [x])[1..] == [] && (q + [x])[0] == x;
    } else {
      assert (q + [x])[1..] == q[1..] + [x];
      LevelAppend(Next(on, q[0]), q[1..], x);
    }
  }

  lemma {:induction false} ProjectedIsLevel(on: bool, q: seq<Item>, t: nat)
    requires forall x <- q :: x.due <= t
    ensures Projected(on, q, t) == Level(on, q)
  {
    if q != [] {
      ProjectedIsLevel(on, q[..|q| - 1], t);
      LevelAppend(on, q[..|q| - 1], q[|q| - 1]);
      assert q == q[..|q| - 1] + [q[|q| - 1]];
    }
  }

  lemma {:induction false} InsertKeepsAlternation(on: bool, a: seq<Item>, x: Item, b: seq<Item>)
    requires Alternates(on, a + b) && !Edge(x.kind)
    ensures Alternates(on, a + [x] + b)
    decreases a
  {
    if a == [] {
      assert a + b == b && (a + [x] + b)[1..] == b && (a + [x] + b)[0] == x;
    } else {
      assert (a + b)[1..] == a[1..] + b && (a + [x] + b)[1..] == a[1..] + [x] + b;
      InsertKeepsAlternation(Next(on, a[0]), a[1..], x, b);
    }
  }

  // ---------------------------------------------------------------- each operation

  lemma InsertKeepsOrder(done: seq<Item>, q: seq<Item>, x: Item, k: nat, clock: nat)
    requires InOrder(done, q, clock, x.id) && k <= |q| && clock <= x.due
    requires (forall i :: 0 <= i < k ==> q[i].due <= x.due) && (forall i :: k <= i < |q| ==> x.due < q[i].due)
    ensures InOrder(done, q[..k] + [x] + q[k..], clock, x.id + 1)
  {
    var all, longer := done + q, done + (q[..k] + [x] + q[k..]);
    forall i | 0 <= i < |all| ensures if i < |done| + k then Before(all[i], x) else Before(x, all[i]) {
      assert all[i] in all;
      assert all[i] == if i < |done| then done[i] else q[i - |done|];
    }
    InsertedOrder(all, x, |done| + k);
    assert longer == all[..|done| + k] + [x] + all[|done| + k..];
    forall y | y in longer ensures y.id < x.id + 1 { assert y == x || y in all; }
  }

  lemma InsertedOrder(all: seq<Item>, x: Item, at: nat)
    requires Ordered(all) && at <= |all|
    requires forall i :: 0 <= i < at ==> Before(all[i], x)
    requires forall i :: at <= i < |all| ==> Before(x, all[i])
    ensures Ordered(all[..at] + [x] + all[at..])
  {
    var longer := all[..at] + [x] + all[at..];
    forall i, j | 0 <= i < j < |longer|
      ensures Before(longer[i], longer[j])
    {
      var i', j' := if i < at then i else i - 1, if j < at then j else j - 1;
      if i != at && j != at {
        assert Before(all[i'], all[j']);
      }
    }
  }

  lemma ScheduleKeepsConsistent(t: Trace, kind: Kind, delay: nat)
    requires Consistent(t)
    ensures Consistent(t.(s := Schedule(t.s, kind, delay, t.clock)))
  {
    hide Admit, StableSort, InOrder, KindsFit, RealTransitions, Items;
    var s := t.s;
    if Admit(s, kind, delay, t.clock).Accepted? {
      var x := Item(s.nextId, t.clock + delay, kind);
      QueueIsOrdered(Items(t.out), s.queue, t.clock, s.nextId);
      var k := SortInserts(s.queue, x);
      InsertKeepsOrder(Items(t.out), s.queue, x, k, t.clock);
      ScheduleKeepsKinds(s, kind, delay, t.clock, k);
      RoomInQueue(s, kind, delay, t.clock);
    }
  }

  lemma RoomInQueue(s: Injector, kind: Kind, delay: nat, now: nat)
    requires Admit(s, kind, delay, now).Accepted?
    ensures |s.queue| < QUEUE_LIMIT
  {
  }

  lemma QueueIsOrdered(done: seq<Item>, q: seq<Item>, clock: nat, nextId: nat)
    requires InOrder(done, q, clock, nextId)
    ensures Ordered(q)
  {
    forall i, j | 0 <= i < j < |q| ensures Before(q[i], q[j]) {
      assert (done + q)[|done| + i] == q[i] && (done + q)[|done| + j] == q[j];
    }
  }

  lemma ScheduleKeepsKinds(s: Injector, kind: Kind, delay: nat, now: nat, k: nat)
    requires k <= |s.queue| && KindsFit(s) && Ordered(s.queue) && Admit(s, kind, delay, now).Accepted?
    requires forall i :: k <= i < |s.queue| ==> now + delay < s.queue[i].due
    ensures var x := Item(s.nextId, now + delay, kind);
            KindsFit(s.(queue := s.queue[..k] + [x] + s.queue[k..], nextId := s.nextId + 1))
  {
    hide Alternates, CountKind, Projected, Ordered;
    var x := Item(s.nextId, now + delay, kind);
    var q, q' := s.queue, s.queue[..k] + [x] + s.queue[k..];
    InsertAlternates(s, kind, delay, now, k);
    CountInsert(q, k, x, Nmi);
    CountInsert(q, k, x, Abort);
    NotQueuedCount(q, kind);
    assert forall i :: 0 <= i < |q'| ==> q'[i] == if i < k then q[i] else if i == k then x else q[i - 1];
  }

  lemma InsertAlternates(s: Injector, kind: Kind, delay: nat, now: nat, k: nat)
    requires k <= |s.queue| && Alternates(s.irqOn, s.queue) && Ordered(s.queue)
    requires Admit(s, kind, delay, now).Accepted?
    requires forall i :: k <= i < |s.queue| ==> now + delay < s.queue[i].due
    ensures Alternates(s.irqOn, s.queue[..k] + [Item(s.nextId, now + delay, kind)] + s.queue[k..])
  {
    hide Alternates, Projected, Level;
    var q, x := s.queue, Item(s.nextId, now + delay, kind);
    if Edge(kind) {
      assert k == |q| && q[..k] + [x] + q[k..] == q + [x];
      ProjectedIsLevel(s.irqOn, q, now + delay);
      LevelAppend(s.irqOn, q, x);
    } else {
      assert q == q[..k] + q[k..];
      InsertKeepsAlternation(s.irqOn, q[..k], x, q[k..]);
    }
  }

  lemma DeliverKeepsOrder(done: seq<Item>, q: seq<Item>, clock: nat, nextId: nat)
    requires InOrder(done, q, clock, nextId) && Due(q, clock)
    ensures InOrder(done + [q[0]], q[1..], clock, nextId)
  {
    assert (done + [q[0]]) + q[1..] == done + q;
  }

  lemma DeliverKeepsKinds(s: Injector, now: nat)
    requires KindsFit(s) && s.queue != []
    ensures KindsFit(Deliver(s, now))
  {
    var q := s.queue;
    assert forall i :: 0 <= i < |q[1..]| ==> q[1..][i] == q[i + 1];
    assert q[0].kind != Unknown;
  }

  lemma DeliverKeepsConsistent(t: Trace)
    requires Consistent(t) && Due(t.s.queue, t.clock)
    ensures Consistent(DeliverTrace(t))
  {
    DeliverKeepsOrder(Items(t.out), t.s.queue, t.clock, t.s.nextId);
    DeliverKeepsKinds(t.s, t.clock);
    var u := DeliverTrace(t);
    assert u.out[..|t.out|] == t.out;
    assert Items(u.out) == Items(t.out) + [t.s.queue[0]];
    assert Alternates(t.s.irqOn, t.s.queue);
    hide InOrder, KindsFit, Alternates;
  }

  lemma {:induction false} PollKeepsConsistent(t: Trace)
    requires Consistent(t)
    ensures Consistent(PollTrace(t))
    decreases |t.s.queue|
  {
    if Due(t.s.queue, t.clock) {
      DeliverKeepsConsistent(t);
      PollKeepsConsistent(DeliverTrace(t));
    }
  }

  // ---------------------------------------------------------------- the theorems

  lemma ClearKeepsOrder(done: seq<Item>, q: seq<Item>, clock: nat, nextId: nat)
    requires InOrder(done, q, clock, nextId)
    ensures InOrder(done, [], clock, nextId)
  {
    assert done + [] == done;
    forall i, j | 0 <= i < j < |done| ensures Before(done[i], done[j]) {
      assert (done + q)[i] == done[i] && (done + q)[j] == done[j];
    }
    assert forall x <- done :: x in done + q;
  }

  lemma ClearKeepsKinds(s: Injector)
    requires KindsFit(s)
    ensures KindsFit(Clear(s))
  {
  }

  lemma WaitKeepsConsistent(t: Trace, gap: nat)
    requires Consistent(t)
    ensures Consistent(t.(clock := t.clock + gap))
  {
    hide KindsFit, RealTransitions, Items;
  }

  lemma ClearKeepsConsistent(t: Trace)
    requires Consistent(t)
    ensures Consistent(t.(s := Clear(t.s), cleared := t.cleared + |t.s.queue|))
  {
    hide InOrder, KindsFit, RealTransitions, Items;
    ClearKeepsOrder(Items(t.out), t.s.queue, t.clock, t.s.nextId);
    ClearKeepsKinds(t.s);
  }

  lemma TakeKeepsConsistent(t: Trace)
    requires Consistent(t)
    ensures Consistent(t.(s := t.s.(nmi := false))) && Consistent(t.(s := t.s.(abort := false)))
  {
    hide InOrder, RealTransitions, Items;
  }

  lemma StepKeepsConsistent(t: Trace, gap: nat, op: Op)
    requires Consistent(t)
    ensures Consistent(StepTrace(t, gap, op))
  {
    hide Consistent;
    WaitKeepsConsistent(t, gap);
    var u := t.(clock := t.clock + gap);
    match op
    case Ask(kind, delay) => ScheduleKeepsConsistent(u, kind, delay);
    case Boundary => PollKeepsConsistent(u);
    case ClearFaults => ClearKeepsConsistent(u);
    case TakeNmi => TakeKeepsConsistent(u);
    case TakeAbort => TakeKeepsConsistent(u);
  }

  /** Over every run with a clock that does not go back: deliveries come in (deadline, id)
      order and never ahead of what is still queued, every delivered IRQ edge changes the
      line, at most one NMI and one ABORT exist across queue and latch, and everything
      scheduled was delivered, is queued, or was cleared. */
  lemma {:induction false} RunsAreConsistent(is65816: bool, clock: nat, ops: seq<(nat, Op)>)
    ensures Consistent(RunTrace(Start(is65816, clock), ops))
  {
    if ops != [] {
      RunsAreConsistent(is65816, clock, ops[..|ops| - 1]);
      var last := ops[|ops| - 1];
      StepKeepsConsistent(RunTrace(Start(is65816, clock), ops[..|ops| - 1]), last.0, last.1);
    }
  }

  // ---------------------------------------------------------------- what is accepted and what a delivery does

  /** The edge would be a real one, behind everything that is queued. */
  predicate RealEdge(s: Injector, x: Item) {
    (s.queue == [] || s.queue[|s.queue| - 1].due <= x.due) && Alternates(s.irqOn, s.queue + [x])
  }

  /** A request is accepted exactly when it is a known fault with room and a deadline, an ABORT has
      a 65816, an NMI or ABORT is neither latched nor queued, and an IRQ edge comes last and is a
      real one. */
  lemma AcceptedIsExact(s: Injector, kind: Kind, delay: nat, now: nat)
    requires Ordered(s.queue) && Alternates(s.irqOn, s.queue)
    ensures Admit(s, kind, delay, now).Accepted? <==>
              && |s.queue| < 128 && now + delay <= 0xFFFF_FFFF_FFFF_FFFF
              && match kind
                 case Nmi => !s.nmi && forall x <- s.queue :: x.kind != Nmi
                 case Abort => s.is65816 && !s.abort && forall x <- s.queue :: x.kind != Abort
                 case IrqOn => RealEdge(s, Item(s.nextId, now + delay, kind))
                 case IrqOff => RealEdge(s, Item(s.nextId, now + delay, kind))
                 case Unknown => false
  {
    hide Alternates;
    LevelAppend(s.irqOn, s.queue, Item(s.nextId, now + delay, kind));
    if Edge(kind) && (s.queue == [] || s.queue[|s.queue| - 1].due <= now + delay) {
      ProjectedIsLevel(s.irqOn, s.queue, now + delay);
    }
  }

  /** What a poll leaves of the latches and the line: an NMI or ABORT is latched if it was or if
      one was due; the line is at the last edge that was due, or where it was; and the report of
      the last delivery is that of the last item that was due. */
  lemma {:induction false} PollLatches(s: Injector, now: nat)
    requires forall x <- s.queue :: x.kind != Unknown
    ensures var t := Poll(s, now);
            var d := |s.queue| - |t.queue|;
            && d >= 0 && t.queue == s.queue[d..] && t.delivered == s.delivered + d && t.nextId == s.nextId
            && (t.nmi <==> s.nmi || Queued(s.queue[..d], Nmi))
            && (t.abort <==> s.abort || Queued(s.queue[..d], Abort))
            && t.irqOn == Level(s.irqOn, s.queue[..d]) && (s.line == s.irqOn ==> t.line == t.irqOn)
            && (if d == 0 then t.lastDue == s.lastDue && t.lastActual == s.lastActual
                else t.lastDue == s.queue[d - 1].due && t.lastActual == now)
    decreases |s.queue|
  {
    hide Deliver, Queued, Level;
    if Due(s.queue, now) {
      var u := Deliver(s, now);
      OneDelivery(s, now);
      PollLatches(u, now);
      var d := |s.queue| - |Poll(s, now).queue|;
      assert u.queue[d - 1..] == s.queue[d..];
      FirstThen(s, d);
    } else {
      NoneDue(s);
    }
  }

  lemma NoneDue(s: Injector)
    ensures s.queue[0..] == s.queue && Level(s.irqOn, s.queue[..0]) == s.irqOn
    ensures forall k :: !Queued(s.queue[..0], k)
  {
  }

  lemma FirstThen(s: Injector, d: nat)
    requires 1 <= d <= |s.queue|
    ensures var x, rest := s.queue[0], s.queue[1..][..d - 1];
            && Level(s.irqOn, s.queue[..d]) == Level(Next(s.irqOn, x), rest)
            && (forall k :: Queued(s.queue[..d], k) <==> x.kind == k || Queued(rest, k))
  {
    assert s.queue[..d][1..] == s.queue[1..][..d - 1];
    assert s.queue[..d] == [s.queue[0]] + s.queue[1..][..d - 1];
    forall k ensures Queued(s.queue[..d], k) <==> s.queue[0].kind == k || Queued(s.queue[1..][..d - 1], k) {
      ExistsFirst(s.queue[0], s.queue[1..][..d - 1], k);
    }
  }

  lemma OneDelivery(s: Injector, now: nat)
    requires s.queue != [] && s.queue[0].kind != Unknown
    ensures var t, k := Deliver(s, now), s.queue[0].kind;
            && t.queue == s.queue[1..] && t.delivered == s.delivered + 1 && t.nextId == s.nextId
            && t.nmi == (s.nmi || k == Nmi) && t.abort == (s.abort || k == Abort)
            && t.irqOn == Next(s.irqOn, s.queue[0]) && (s.line == s.irqOn ==> t.line == t.irqOn)
            && t.lastDue == s.queue[0].due && t.lastActual == now
  {
  }

  lemma ExistsFirst(x: Item, q: seq<Item>, k: Kind)
    ensures Queued([x] + q, k) <==> x.kind == k || Queued(q, k)
  {
    var all := [x] + q;
    if i :| 0 <= i < |q| && q[i].kind == k { assert all[i + 1].kind == k; }
    if x.kind == k { assert all[0].kind == k; }
  }

  /** Something is queued, held or latched. */
  predicate IsBusy(s: Injector) { s.queue != [] || s.irqOn || s.nmi || s.abort }

  /** Busy is exactly the state in which something can still happen without a new request: an
      idle injector is left alone by every run of polls, clearings and latch reads, and a busy
      one is changed by clearing it, which leaves it idle. */
  lemma BusyIsExact(t: Trace)
    ensures (forall ops: seq<(nat, Op)> :: NoRequest(ops) ==> RunTrace(t, ops).s == t.s && RunTrace(t, ops).out == t.out)
       <==> !IsBusy(t.s)
    ensures !IsBusy(Clear(t.s))
  {
    if IsBusy(t.s) {
      var ops := [(0, ClearFaults)];
      assert ops[..0] == [] && RunTrace(t, []) == t;
      assert RunTrace(t, ops).s == Clear(t.s);
      assert NoRequest(ops) && RunTrace(t, ops).s != t.s;
    } else {
      forall ops: seq<(nat, Op)> | NoRequest(ops) ensures RunTrace(t, ops).s == t.s && RunTrace(t, ops).out == t.out {
        IdleStaysIdle(t, ops);
      }
    }
  }

  predicate NoRequest(ops: seq<(nat, Op)>) { forall i :: 0 <= i < |ops| ==> !ops[i].1.Ask? }

  lemma {:induction false} IdleStaysIdle(t: Trace, ops: seq<(nat, Op)>)
    requires !IsBusy(t.s) && NoRequest(ops)
    ensures RunTrace(t, ops).s == t.s && RunTrace(t, ops).out == t.out
  {
    if ops != [] {
      var before, last := ops[..|ops| - 1], ops[|ops| - 1];
      IdleStaysIdle(t, before);
      assert !last.1.Ask?;
    }
  }

  /** What a poll leaves of a queue. */
  function Rest(q: seq<Item>, now: nat): seq<Item> { if Due(q, now) then Rest(q[1..], now) else q }

  lemma {:induction false} PollLeavesRest(t: Trace)
    ensures var u := PollTrace(t);
            u.s == Poll(t.s, t.clock) && u.s.queue == Rest(t.s.queue, t.clock) && u.clock == t.clock
    decreases |t.s.queue|
  {
    if Due(t.s.queue, t.clock) {
      PollLeavesRest(DeliverTrace(t));
    }
  }

  /** Nothing due survives a poll, and nothing else is delivered by one. */
  lemma {:induction false} PollDeliversExactlyTheDue(q: seq<Item>, now: nat)
    requires Ordered(q)
    ensures var rest := Rest(q, now);
            && |rest| <= |q| && rest == q[|q| - |rest|..]
            && (forall x <- rest :: x.due > now) && (forall i :: 0 <= i < |q| - |rest| ==> q[i].due <= now)
  {
    if Due(q, now) {
      assert Ordered(q[1..]);
      PollDeliversExactlyTheDue(q[1..], now);
    } else if q != [] {
      assert forall i :: 0 < i < |q| ==> Before(q[0], q[i]);
    }
  }
}
