/** Execution coverage (src/a2gspu_coverage.hpp): which addresses ran, kept once for the whole
    range and once per mapped segment, and a counter, which have to tell the same story.

    Here the bitmaps are sets of addresses; `CovTracker` holds the packed bits.
 */
module Coverage {

  import opened Options
  import opened Bytes

  /** A mapped segment: the bytes that should be at `base`. */
  datatype Segment = Segment(index: nat, base: nat, expected: seq<byte>)
  {
    predicate Contains(a: nat) { base <= a < base + |expected| }

    function Planned(a: nat): byte
      requires Contains(a)
    {
      expected[a - base]
    }
  }

  /** The armed range and, for a mapped run, its segments. */
  datatype Plan = Plan(lo: nat, hi: nat, segs: seq<Segment>)

  ghost predicate ValidPlan(p: Plan) {
    && p.lo <= p.hi && Apart(p.segs)
    && forall k :: 0 <= k < |p.segs| ==> Inside(p, p.segs[k])
  }

  ghost predicate Inside(p: Plan, m: Segment) { |m.expected| > 0 && p.lo <= m.base && m.base + |m.expected| <= p.hi + 1 }

  ghost predicate Apart(segs: seq<Segment>) {
    forall j, k, a: nat :: 0 <= j < |segs| && 0 <= k < |segs| && segs[j].Contains(a) && segs[k].Contains(a) ==> j == k
  }

  /** What has been marked, and the instruction being fetched. */
  datatype State = State(
    global: set<nat>, count: nat, hit: seq<set<nat>>, starts: seq<seq<nat>>, error: bool,
    startPc: nat, startMode: nat, current: Option<nat>, offset: nat, consumed: nat)

  predicate Shaped(p: Plan, s: State) {
    && |s.hit| == |p.segs| == |s.starts|
    && (forall k :: 0 <= k < |p.segs| ==> |s.starts[k]| == |p.segs[k].expected|)
    && (s.current.Some? ==> s.current.value < |p.segs|)
  }

  // ---------------------------------------------------------------- the steps

  /** The first segment that holds an address. */
  function Owner(segs: seq<Segment>, a: nat): (r: Option<nat>)
    ensures r.Some? ==> r.value < |segs| && segs[r.value].Contains(a)
    ensures r.None? ==> forall k :: 0 <= k < |segs| ==> !segs[k].Contains(a)
  {
    if segs == [] then None
    else
      var n := |segs| - 1;
      var r := Owner(segs[..n], a);
      if r.Some? then r
      else if segs[n].Contains(a) then Some(n)
      else None
  }

  /** `a2gspu_cov_begin`: an instruction starts. The offset is kept when no segment holds it. */
  function Begin(p: Plan, s: State, pc: nat, mode: nat): State {
    var o := Owner(p.segs, pc);
    s.(startPc := pc, startMode := mode, current := o, consumed := 0,
       offset := if o.Some? then pc - p.segs[o.value].base else s.offset)
  }

  /** `a2gspu_cov_mark`. */
  function Mark(p: Plan, s: State, a: nat): State {
    if a < p.lo || a > p.hi || a in s.global then s else s.(global := s.global + {a}, count := s.count + 1)
  }

  /** Why a byte cannot belong to the plan: it leaves the segment its instruction began in, it
      is not the planned byte, or its start ran before in another mode. */
  predicate Refused(p: Plan, s: State, pc: nat, value: byte)
    requires Shaped(p, s) && s.current.Some?
  {
    var m, off := p.segs[s.current.value], s.offset + s.consumed;
    || off >= |m.expected| || pc != m.base + off || value != m.expected[off]
    || (pc == s.startPc && s.starts[s.current.value][off] != 0 && s.starts[s.current.value][off] != s.startMode)
  }

  /** `a2gspu_cov_mapped_byte`: the new state, and whether the byte counts. */
  function MappedByte(p: Plan, s: State, pc: nat, value: byte): (r: (State, bool))
    requires Shaped(p, s)
    ensures Shaped(p, r.0)
  {
    if s.error || s.current.None? then (s, false)
    else if Refused(p, s, pc, value) then (s.(consumed := s.consumed + 1, error := true), false)
    else
      var c, off := s.current.value, s.offset + s.consumed;
      var starts: seq<nat> := if pc == s.startPc then s.starts[c][off := s.startMode] else s.starts[c];
      (s.(consumed := s.consumed + 1, starts := s.starts[c := starts], hit := s.hit[c := s.hit[c] + {pc}]), true)
  }

  /** One byte of `a2gspu_cov_fetch`; a mapped run ignores bytes whose value is not known. */
  function FetchByte(p: Plan, s: State, a: nat, value: Option<byte>): (r: State)
    requires Shaped(p, s)
    ensures Shaped(p, r)
  {
    if p.segs == [] then Mark(p, s, a)
    else if value.None? then s
    else
      var (t, counts) := MappedByte(p, s, a, value.value);
      if counts then Mark(p, t, a) else t
  }

  /** Program addresses wrap within their bank. */
  function Wrapped(pc: nat, k: nat): nat { pc / 0x1_0000 % 0x100 * 0x1_0000 + (pc + k) % 0x1_0000 }

  /** The first `n` bytes of a fetch. */
  function Fetch(p: Plan, s: State, pc: nat, values: seq<Option<byte>>, n: nat): (r: State)
    requires Shaped(p, s) && n <= |values|
    ensures Shaped(p, r)
  {
    if n == 0 then s else FetchByte(p, Fetch(p, s, pc, values, n - 1), Wrapped(pc, n - 1), values[n - 1])
  }

  /** Nothing has run. */
  function Blank(p: Plan, s: State): (r: State)
    ensures |r.hit| == |r.starts| == |p.segs|
    ensures forall k :: 0 <= k < |p.segs| ==> r.hit[k] == {} && r.starts[k] == seq(|p.segs[k].expected|, _ => 0)
  {
    s.(global := {}, count := 0, error := false, hit := seq(|p.segs|, _ => {}),
       starts := seq(|p.segs|, k requires 0 <= k < |p.segs| => seq(|p.segs[k].expected|, _ => 0)))
  }

  lemma IsBlank(p: Plan, s: State, r: State)
    requires r.global == {} && r.count == 0 && !r.error && |r.hit| == |p.segs| == |r.starts|
    requires forall k :: 0 <= k < |p.segs| ==> r.hit[k] == {} && r.starts[k] == seq(|p.segs[k].expected|, _ => 0)
    requires r.startPc == s.startPc && r.startMode == s.startMode && r.current == s.current
    requires r.offset == s.offset && r.consumed == s.consumed
    ensures r == Blank(p, s)
  {
    var b := Blank(p, s);
    assert r.hit == b.hit && r.starts == b.starts;
  }

  datatype Event = Start(pc: nat, mode: nat) | Bytes(at: nat, values: seq<Option<byte>>) | Clear

  function Step(p: Plan, s: State, e: Event): (r: State)
    requires Shaped(p, s)
    ensures Shaped(p, r)
  {
    match e
    case Start(pc, mode) => Begin(p, s, pc, mode)
    case Bytes(at, values) => Fetch(p, s, at, values, |values|)
    case Clear => Blank(p, s)
  }

  function Run(p: Plan, s: State, es: seq<Event>): (r: State)
    requires Shaped(p, s)
    ensures Shaped(p, r)
  {
    if es == [] then s else Step(p, Run(p, s, es[..|es| - 1]), es[|es| - 1])
  }

  // ---------------------------------------------------------------- what should have been marked

  /** Bytes that ran since the last clearing, with their values. A mapped run listens only to
      instructions that began inside a segment. */
  type History = set<(nat, Option<byte>)>

  ghost function Heard(p: Plan, listening: bool, at: nat, values: seq<Option<byte>>, n: nat): History
    requires n <= |values|
  {
    if n == 0 then {}
    else if p.segs == [] || (listening && values[n - 1].Some?) then
      Heard(p, listening, at, values, n - 1) + {(Wrapped(at, n - 1), values[n - 1])}
    else Heard(p, listening, at, values, n - 1)
  }

  /** The history of a run, from the events alone: the last start decides whether the mapped run
      is listening. */
  ghost function HistoryOf(p: Plan, listening: bool, es: seq<Event>): (History, bool) {
    if es == [] then ({}, listening)
    else
      var (h, on) := HistoryOf(p, listening, es[..|es| - 1]);
      match es[|es| - 1]
      case Start(pc, _) => (h, exists k :: 0 <= k < |p.segs| && p.segs[k].Contains(pc))
      case Bytes(at, values) => (h + Heard(p, on, at, values, |values|), on)
      case Clear => ({}, on)
  }

  /** The three accounts agree, everything marked ran with its planned byte, and while there is
      no error everything in range that ran is marked. */
  ghost predicate InStep(p: Plan, s: State, h: History) {
    && Shaped(p, s) && s.count == |s.global|
    && (forall a :: a in s.global ==> p.lo <= a <= p.hi)
    && Agree(p, s) && Sound(p, s, h)
    && (!s.error ==> Complete(p, s, h))
  }

  ghost predicate Agree(p: Plan, s: State) { p.segs != [] ==> forall a :: a in s.global <==> SomeHit(s.hit, a) }

  ghost predicate SomeHit(hit: seq<set<nat>>, a: nat) { exists k :: 0 <= k < |hit| && a in hit[k] }

  ghost predicate Sound(p: Plan, s: State, h: History)
    requires |s.hit| == |p.segs|
  {
    && (forall k, a :: 0 <= k < |p.segs| && a in s.hit[k] ==> p.segs[k].Contains(a) && (a, Some(p.segs[k].Planned(a))) in h)
    && (forall a :: a in s.global ==> exists v :: (a, v) in h)
  }

  ghost predicate Complete(p: Plan, s: State, h: History) {
    forall a, v :: (a, v) in h && p.lo <= a <= p.hi ==> a in s.global
  }

  // ---------------------------------------------------------------- every step keeps it

  lemma MarkKeepsStep(p: Plan, s: State, a: nat, v: Option<byte>, h: History)
    requires p.segs == [] && InStep(p, s, h)
    ensures InStep(p, Mark(p, s, a), h + {(a, v)})
  {
    var h' := h + {(a, v)};
    var t := Mark(p, s, a);
    forall b | b in t.global ensures exists w :: (b, w) in h' {
      if b in s.global {
        var w :| (b, w) in h;
        assert (b, w) in h';
      } else {
        assert (b, v) in h';
      }
    }
  }

  lemma SoundGrows(p: Plan, s: State, h: History, more: History)
    requires |s.hit| == |p.segs| && Sound(p, s, h)
    ensures Sound(p, s, h + more)
  {
    forall b | b in s.global ensures exists w :: (b, w) in h + more {
      var w :| (b, w) in h;
      assert (b, w) in h + more;
    }
  }

  /** An accepted byte is in its instruction's segment, and is the planned one. */
  lemma AcceptedIsPlanned(p: Plan, s: State, pc: nat, value: byte)
    requires ValidPlan(p) && Shaped(p, s) && MappedByte(p, s, pc, value).1
    ensures var c := s.current; c.Some? && c.value < |p.segs| && p.segs[c.value].Contains(pc)
    ensures p.segs[s.current.value].Planned(pc) == value && p.lo <= pc <= p.hi
    ensures MappedByte(p, s, pc, value).0.hit == s.hit[s.current.value := s.hit[s.current.value] + {pc}]
  {
    assert Inside(p, p.segs[s.current.value]);
  }

  lemma AcceptedKeepsStep(p: Plan, s: State, pc: nat, value: byte, h: History)
    requires ValidPlan(p) && InStep(p, s, h) && MappedByte(p, s, pc, value).1
    ensures InStep(p, Mark(p, MappedByte(p, s, pc, value).0, pc), h + {(pc, Some(value))})
  {
    hide ValidPlan, Agree, Sound, Complete;
    var t := MappedByte(p, s, pc, value).0;
    AcceptedIsPlanned(p, s, pc, value);
    assert t.global == s.global && t.count == s.count && !t.error && Shaped(p, t) && !s.error;
    hide MappedByte;
    MarkedTogether(p, s, Mark(p, t, pc), s.current.value, pc, value, h);
  }

  lemma MarkedTogether(p: Plan, s: State, u: State, c: nat, pc: nat, value: byte, h: History)
    requires InStep(p, s, h) && Shaped(p, u) && !s.error && c < |p.segs| && p.segs[c].Contains(pc)
    requires p.segs[c].Planned(pc) == value && p.lo <= pc <= p.hi
    requires u.global == s.global + {pc} && u.count == |u.global| && u.hit == s.hit[c := s.hit[c] + {pc}]
    ensures InStep(p, u, h + {(pc, Some(value))})
  {
    hide Shaped, Agree, Sound, Complete;
    ShapeOf(p, s, h);
    SizeOf(p, s);
    SizeOf(p, u);
    MarkedAgrees(p, s, u, c, pc);
    MarkedIsSound(p, s, u, c, pc, value, h);
    MarkedIsComplete(p, s, u, pc, value, h);
  }

  lemma SizeOf(p: Plan, s: State)
    requires Shaped(p, s)
    ensures |s.hit| == |p.segs|
  {
  }

  lemma MarkedAgrees(p: Plan, s: State, u: State, c: nat, pc: nat)
    requires p.segs != [] && Agree(p, s) && c < |s.hit|
    requires u.global == s.global + {pc} && u.hit == s.hit[c := s.hit[c] + {pc}]
    ensures Agree(p, u)
  {
    HitGrows(s.hit, c, pc);
    hide SomeHit;
  }

  lemma MarkedIsComplete(p: Plan, s: State, u: State, pc: nat, value: byte, h: History)
    requires Complete(p, s, h) && u.global == s.global + {pc}
    ensures Complete(p, u, h + {(pc, Some(value))})
  {
  }

  lemma MarkedIsSound(p: Plan, s: State, u: State, c: nat, pc: nat, value: byte, h: History)
    requires |s.hit| == |p.segs| && Sound(p, s, h) && c < |p.segs| && p.segs[c].Contains(pc)
    requires p.segs[c].Planned(pc) == value
    requires u.global == s.global + {pc} && u.hit == s.hit[c := s.hit[c] + {pc}]
    ensures Sound(p, u, h + {(pc, Some(value))})
  {
    SoundGrows(p, s, h, {(pc, Some(value))});
    assert (pc, Some(value)) in h + {(pc, Some(value))};
  }

  lemma HitGrows(hit: seq<set<nat>>, c: nat, pc: nat)
    requires c < |hit|
    ensures forall a :: SomeHit(hit[c := hit[c] + {pc}], a) <==> (a == pc || SomeHit(hit, a))
  {
    var t := hit[c := hit[c] + {pc}];
    forall a ensures SomeHit(t, a) <==> (a == pc || SomeHit(hit, a)) {
      if a == pc { assert a in t[c]; }
      if SomeHit(hit, a) {
        var k :| 0 <= k < |hit| && a in hit[k];
        assert a in t[k];
      }
      if SomeHit(t, a) && a != pc {
        var k :| 0 <= k < |t| && a in t[k];
        assert a in hit[k];
      }
    }
  }

  lemma ByteKeepsStep(p: Plan, s: State, a: nat, value: Option<byte>, h: History)
    requires ValidPlan(p) && InStep(p, s, h)
    ensures var more: History := if p.segs == [] || (s.current.Some? && value.Some?) then {(a, value)} else {};
            InStep(p, FetchByte(p, s, a, value), h + more)
    ensures FetchByte(p, s, a, value).current == s.current
    ensures p.segs != [] && s.error ==> FetchByte(p, s, a, value) == s
  {
    if p.segs == [] {
      MarkKeepsStep(p, s, a, value, h);
    } else if value.Some? {
      if MappedByte(p, s, a, value.value).1 {
        AcceptedKeepsStep(p, s, a, value.value, h);
      } else {
        SoundGrows(p, s, h, {(a, value)});
        assert s.current.None? ==> h + {} == h;
      }
    } else {
      assert h + {} == h;
    }
  }

  lemma {:induction false} FetchKeepsStep(p: Plan, s: State, at: nat, values: seq<Option<byte>>, n: nat, h: History)
    requires ValidPlan(p) && InStep(p, s, h) && n <= |values|
    ensures InStep(p, Fetch(p, s, at, values, n), h + Heard(p, s.current.Some?, at, values, n))
    ensures Fetch(p, s, at, values, n).current == s.current
    ensures p.segs != [] && s.error ==> Fetch(p, s, at, values, n) == s
  {
    hide InStep, ValidPlan, FetchByte;
    ShapeOf(p, s, h);
    if n == 0 {
      assert h + {} == h;
    } else {
      var before := Heard(p, s.current.Some?, at, values, n - 1);
      FetchKeepsStep(p, s, at, values, n - 1, h);
      ByteKeepsStep(p, Fetch(p, s, at, values, n - 1), Wrapped(at, n - 1), values[n - 1], h + before);
      var a := (Wrapped(at, n - 1), values[n - 1]);
      assert (h + before) + {a} == h + (before + {a});
      assert (h + before) + {} == h + before;
    }
  }

  lemma ShapeOf(p: Plan, s: State, h: History)
    requires InStep(p, s, h)
    ensures Shaped(p, s)
  {
  }

  lemma BlankIsInStep(p: Plan, s: State)
    requires Shaped(p, s)
    ensures InStep(p, Blank(p, s), {})
  {
    hide ValidPlan;
    var t := Blank(p, s);
    assert forall k :: 0 <= k < |p.segs| ==> t.hit[k] == {};
    assert Shaped(p, t);
  }

  /** Binding leaves the cursor of an earlier plan, which the next instruction replaces. */
  lemma FirstStartIsInStep(p: Plan, s: State, pc: nat, mode: nat)
    ensures InStep(p, Begin(p, Blank(p, s), pc, mode), {})
  {
    var t := Blank(p, s);
    assert forall k :: 0 <= k < |p.segs| ==> t.hit[k] == {};
    assert Shaped(p, Begin(p, t, pc, mode));
  }

  /** On every run from a cleared state, whatever the CPU fetches, the three accounts agree with
      each other and with the history. */
  lemma {:induction false} EveryRunIsInStep(p: Plan, s: State, es: seq<Event>)
    requires ValidPlan(p) && InStep(p, s, {})
    ensures var (h, on) := HistoryOf(p, s.current.Some?, es); InStep(p, Run(p, s, es), h) && Run(p, s, es).current.Some? == on
  {
    hide InStep, ValidPlan, Shaped;
    ShapeOf(p, s, {});
    if es != [] {
      var before, e := es[..|es| - 1], es[|es| - 1];
      EveryRunIsInStep(p, s, before);
      var t := Run(p, s, before);
      var (h, on) := HistoryOf(p, s.current.Some?, before);
      match e
      case Start(pc, mode) => StartKeepsStep(p, t, pc, mode, h);
      case Bytes(at, values) => FetchKeepsStep(p, t, at, values, |values|, h);
      case Clear => BlankIsInStep(p, t);
    }
  }

  lemma StartKeepsStep(p: Plan, s: State, pc: nat, mode: nat, h: History)
    requires InStep(p, s, h)
    ensures InStep(p, Begin(p, s, pc, mode), h)
    ensures Begin(p, s, pc, mode).current.Some? <==> exists k :: 0 <= k < |p.segs| && p.segs[k].Contains(pc)
  {
    hide Segment.Contains;
  }

  // ---------------------------------------------------------------- what that means

  /** A mapped address is marked in the range exactly when its own segment has it marked. */
  lemma OwnerAgrees(p: Plan, s: State, h: History, k: nat, a: nat)
    requires ValidPlan(p) && InStep(p, s, h) && k < |p.segs| && p.segs[k].Contains(a)
    ensures a in s.global <==> a in s.hit[k]
  {
    if a in s.global {
      assert SomeHit(s.hit, a);
      var j :| 0 <= j < |s.hit| && a in s.hit[j];
      assert p.segs[j].Contains(a);
    } else {
      assert !SomeHit(s.hit, a);
    }
  }

  /** A mapped run without an error has marked exactly the bytes of the instructions that began
      in a segment, and each of them held its planned value. */
  lemma CleanRunIsExact(p: Plan, s: State, h: History, a: nat)
    requires ValidPlan(p) && InStep(p, s, h) && !s.error && p.lo <= a <= p.hi
    ensures a in s.global <==> exists v :: (a, v) in h
    ensures a in s.global && p.segs != [] ==> var o := Owner(p.segs, a); o.Some? && (a, Some(p.segs[o.value].Planned(a))) in h
  {
    if a in s.global && p.segs != [] {
      assert SomeHit(s.hit, a);
      var j :| 0 <= j < |s.hit| && a in s.hit[j];
      assert p.segs[j].Contains(a);
      var o := Owner(p.segs, a);
      assert o.Some? && o.value == j;
    }
  }

  /** After a mapping error nothing changes, until a clearing. */
  lemma {:induction false} ErrorFreezes(p: Plan, s: State, es: seq<Event>)
    requires ValidPlan(p) && p.segs != [] && Shaped(p, s) && s.error && forall i :: 0 <= i < |es| ==> !es[i].Clear?
    ensures var t := Run(p, s, es); t.global == s.global && t.count == s.count && t.hit == s.hit && t.starts == s.starts && t.error
  {
    if es != [] {
      var before, e := es[..|es| - 1], es[|es| - 1];
      ErrorFreezes(p, s, before);
      if e.Bytes? {
        FetchFrozen(p, Run(p, s, before), e.at, e.values, |e.values|);
      }
    }
  }

  /** Evidence may be written: always for a plain range, without an error for a mapped one. */
  predicate Writable(p: Plan, s: State) { p.segs == [] || !s.error }

  /** A byte that contradicts the plan blocks writing for every run until a clearing, which
      gives it back; and nothing else in a run blocks it. */
  lemma RefusalBlocksWriting(p: Plan, s: State, pc: nat, value: byte, es: seq<Event>)
    requires ValidPlan(p) && p.segs != [] && Shaped(p, s) && s.current.Some? && !s.error
    requires forall i :: 0 <= i < |es| ==> !es[i].Clear?
    ensures Writable(p, FetchByte(p, s, pc, Some(value))) <==> !Refused(p, s, pc, value)
    ensures Refused(p, s, pc, value) ==> !Writable(p, Run(p, FetchByte(p, s, pc, Some(value)), es))
    ensures Writable(p, Blank(p, Run(p, FetchByte(p, s, pc, Some(value)), es)))
  {
    hide Refused;
    if Refused(p, s, pc, value) {
      ErrorFreezes(p, FetchByte(p, s, pc, Some(value)), es);
    }
  }

  lemma {:induction false} FetchFrozen(p: Plan, s: State, at: nat, values: seq<Option<byte>>, n: nat)
    requires p.segs != [] && Shaped(p, s) && s.error && n <= |values|
    ensures Fetch(p, s, at, values, n) == s
  {
    if n > 0 { FetchFrozen(p, s, at, values, n - 1); }
  }

  // ---------------------------------------------------------------- one instruction

  /** Bytes fetched one after the other, each with its address. */
  function FetchEach(p: Plan, s: State, bytes: seq<(nat, byte)>): (r: State)
    requires Shaped(p, s)
    ensures Shaped(p, r)
  {
    if bytes == [] then s
    else
      var last := bytes[|bytes| - 1];
      FetchByte(p, FetchEach(p, s, bytes[..|bytes| - 1]), last.0, Some(last.1))
  }

  /** The bytes of one fetch, at the addresses they have in their bank. */
  function Placed(at: nat, values: seq<byte>): (r: seq<(nat, byte)>)
    ensures |r| == |values| && forall i :: 0 <= i < |values| ==> r[i] == (Wrapped(at, i), values[i])
  {
    seq(|values|, i requires 0 <= i < |values| => (Wrapped(at, i), values[i]))
  }

  /** A fetch of several bytes is their fetches one after the other; and addresses stay in the
      bank of the first, counting on modulo 2^16. */
  lemma {:induction false} FetchIsEach(p: Plan, s: State, at: nat, values: seq<byte>, known: seq<Option<byte>>, n: nat)
    requires Shaped(p, s) && |known| == |values| && n <= |values|
    requires forall i :: 0 <= i < |values| ==> known[i] == Some(values[i])
    ensures Fetch(p, s, at, known, n) == FetchEach(p, s, Placed(at, values)[..n])
    ensures Wrapped(at, n) / 0x1_0000 == at / 0x1_0000 % 0x100 && Wrapped(at, n) % 0x1_0000 == (at + n) % 0x1_0000
  {
    hide FetchByte, Wrapped;
    WrapsInBank(at, n);
    if n > 0 {
      FetchIsEach(p, s, at, values, known, n - 1);
      assert Placed(at, values)[..n][..n - 1] == Placed(at, values)[..n - 1];
    }
  }

  lemma WrapsInBank(at: nat, n: nat)
    ensures Wrapped(at, n) / 0x1_0000 == at / 0x1_0000 % 0x100 && Wrapped(at, n) % 0x1_0000 == (at + n) % 0x1_0000
  {
  }

  /** The bytes are the planned ones of segment `k` from `pc` on, and no other mode is on record
      for the start. */
  ghost predicate AsPlanned(p: Plan, s: State, pc: nat, mode: nat, k: nat, bytes: seq<(nat, byte)>)
    requires Shaped(p, s) && k < |p.segs| && p.segs[k].Contains(pc)
  {
    && (forall i: nat :: i < |bytes| ==> PlannedAt(p.segs[k], pc, i, bytes[i]))
    && (bytes != [] ==> s.starts[k][pc - p.segs[k].base] == 0 || s.starts[k][pc - p.segs[k].base] == mode)
  }

  predicate PlannedAt(m: Segment, pc: nat, i: nat, b: (nat, byte)) {
    b.0 == pc + i && m.Contains(pc + i) && b.1 == m.Planned(pc + i)
  }

  /** What an instruction in segment `k` has come to after `n` bytes as planned. */
  ghost predicate Underway(p: Plan, s: State, pc: nat, mode: nat, k: nat, t: State, n: nat)
    requires Shaped(p, s) && k < |p.segs| && p.segs[k].Contains(pc)
  {
    && Shaped(p, t) && !t.error && t.current == Some(k) && t.offset == pc - p.segs[k].base && t.consumed == n
    && t.startPc == pc && t.startMode == mode
    && t.starts[k] == (if n == 0 then s.starts[k] else s.starts[k][pc - p.segs[k].base := mode])
    && forall a: nat :: pc <= a < pc + n ==> a in t.global && a in t.hit[k]
  }

  lemma StartsUnderway(p: Plan, s: State, pc: nat, mode: nat, k: nat)
    requires ValidPlan(p) && Shaped(p, s) && !s.error && k < |p.segs| && p.segs[k].Contains(pc)
    ensures Underway(p, s, pc, mode, k, Begin(p, s, pc, mode), 0)
  {
    hide Inside;
    var o := Owner(p.segs, pc);
    assert o.Some? && o.value == k;
  }

  lemma OneMorePlanned(p: Plan, s: State, pc: nat, mode: nat, k: nat, t: State, n: nat, b: (nat, byte))
    requires ValidPlan(p) && Shaped(p, s) && k < |p.segs| && p.segs[k].Contains(pc) && Underway(p, s, pc, mode, k, t, n)
    requires n == 0 ==> s.starts[k][pc - p.segs[k].base] == 0 || s.starts[k][pc - p.segs[k].base] == mode
    ensures var u := FetchByte(p, t, b.0, Some(b.1));
            if PlannedAt(p.segs[k], pc, n, b) then Underway(p, s, pc, mode, k, u, n + 1) else u.error
  {
    hide Apart;
    assert Inside(p, p.segs[k]);
  }

  lemma ModeConflict(p: Plan, s: State, pc: nat, mode: nat, k: nat, t: State, b: (nat, byte))
    requires Shaped(p, s) && k < |p.segs| && p.segs[k].Contains(pc) && Underway(p, s, pc, mode, k, t, 0)
    requires s.starts[k][pc - p.segs[k].base] != 0 && s.starts[k][pc - p.segs[k].base] != mode
    ensures FetchByte(p, t, b.0, Some(b.1)).error
  {
  }

  /** Planned code is accepted, and nothing else is: after an instruction that starts in segment
      `k` there is an error exactly when a byte is not the planned one at the next address of the
      segment, or the start is on record in another mode; and without an error every byte is
      marked in the range and in the segment, and the start has its mode. */
  lemma {:induction false} InstructionIsExact(p: Plan, s: State, pc: nat, mode: nat, k: nat, bytes: seq<(nat, byte)>)
    requires ValidPlan(p) && Shaped(p, s) && !s.error && k < |p.segs| && p.segs[k].Contains(pc)
    ensures var t := FetchEach(p, Begin(p, s, pc, mode), bytes);
            && (t.error <==> !AsPlanned(p, s, pc, mode, k, bytes))
            && (!t.error ==> Underway(p, s, pc, mode, k, t, |bytes|))
  {
    hide ValidPlan, Underway, Begin, FetchByte, PlannedAt, Segment.Contains;
    var s0 := Begin(p, s, pc, mode);
    StartsUnderway(p, s, pc, mode, k);
    UnderwayMeans(p, s, pc, mode, k, s0, 0);
    if bytes != [] {
      var n, b := |bytes| - 1, bytes[|bytes| - 1];
      InstructionIsExact(p, s, pc, mode, k, bytes[..n]);
      var t := FetchEach(p, s0, bytes[..n]);
      AsPlannedGrows(p, s, pc, mode, k, bytes);
      if t.error {
        ErrorStays(p, t, b.0, b.1);
      } else if n == 0 && s.starts[k][pc - p.segs[k].base] != 0 && s.starts[k][pc - p.segs[k].base] != mode {
        ModeConflict(p, s, pc, mode, k, t, b);
      } else {
        OneMorePlanned(p, s, pc, mode, k, t, n, b);
        if PlannedAt(p.segs[k], pc, n, b) { UnderwayMeans(p, s, pc, mode, k, FetchByte(p, t, b.0, Some(b.1)), n + 1); }
      }
    }
  }

  lemma UnderwayMeans(p: Plan, s: State, pc: nat, mode: nat, k: nat, t: State, n: nat)
    requires Shaped(p, s) && k < |p.segs| && p.segs[k].Contains(pc) && Underway(p, s, pc, mode, k, t, n)
    ensures Shaped(p, t) && !t.error && p.segs[k].base <= pc < p.segs[k].base + |s.starts[k]|
  {
  }

  lemma ErrorStays(p: Plan, s: State, a: nat, v: byte)
    requires Shaped(p, s) && s.error && p.segs != []
    ensures FetchByte(p, s, a, Some(v)).error
  {
  }

  lemma AsPlannedGrows(p: Plan, s: State, pc: nat, mode: nat, k: nat, bytes: seq<(nat, byte)>)
    requires Shaped(p, s) && k < |p.segs| && p.segs[k].Contains(pc) && bytes != []
    ensures var n := |bytes| - 1;
            AsPlanned(p, s, pc, mode, k, bytes) <==>
              && AsPlanned(p, s, pc, mode, k, bytes[..n]) && PlannedAt(p.segs[k], pc, n, bytes[n])
              && (n == 0 ==> s.starts[k][pc - p.segs[k].base] == 0 || s.starts[k][pc - p.segs[k].base] == mode)
  {
    hide PlannedAt;
    var n := |bytes| - 1;
    if AsPlanned(p, s, pc, mode, k, bytes[..n]) && PlannedAt(p.segs[k], pc, n, bytes[n]) {
      forall i: nat | i < |bytes| ensures PlannedAt(p.segs[k], pc, i, bytes[i]) {
        if i < n { assert bytes[..n][i] == bytes[i]; }
      }
    }
    if AsPlanned(p, s, pc, mode, k, bytes) {
      forall i: nat | i < n ensures PlannedAt(p.segs[k], pc, i, bytes[..n][i]) { assert bytes[..n][i] == bytes[i]; }
    }
  }

  /** An instruction that starts outside every segment is ignored, whatever it fetches. */
  lemma {:induction false} UnplannedCodeIsIgnored(p: Plan, s: State, pc: nat, mode: nat, bytes: seq<(nat, byte)>)
    requires Shaped(p, s) && p.segs != [] && forall k :: 0 <= k < |p.segs| ==> !p.segs[k].Contains(pc)
    ensures FetchEach(p, Begin(p, s, pc, mode), bytes) == Begin(p, s, pc, mode)
    ensures var t := Begin(p, s, pc, mode);
            t.global == s.global && t.count == s.count && t.hit == s.hit && t.starts == s.starts && t.error == s.error
  {
    if bytes != [] { UnplannedCodeIsIgnored(p, s, pc, mode, bytes[..|bytes| - 1]); }
  }

  // ---------------------------------------------------------------- start modes

  /** Every recorded start is still recorded, in the same mode. */
  ghost predicate ModesKept(s: State, t: State) {
    && |t.starts| == |s.starts|
    && forall k :: 0 <= k < |s.starts| ==> Kept(s.starts[k], t.starts[k])
  }

  ghost predicate Kept(x: seq<nat>, y: seq<nat>) {
    |y| == |x| && forall i :: 0 <= i < |x| && x[i] != 0 ==> y[i] == x[i]
  }

  lemma ByteKeepsModes(p: Plan, s: State, a: nat, value: Option<byte>)
    requires Shaped(p, s)
    ensures ModesKept(s, FetchByte(p, s, a, value))
  {
  }

  lemma ModesFollow(s: State, t: State, u: State)
    ensures ModesKept(s, s)
    ensures ModesKept(s, t) && ModesKept(t, u) ==> ModesKept(s, u)
  {
  }

  lemma {:induction false} FetchKeepsModes(p: Plan, s: State, at: nat, values: seq<Option<byte>>, n: nat)
    requires Shaped(p, s) && n <= |values|
    ensures ModesKept(s, Fetch(p, s, at, values, n))
  {
    hide FetchByte, Shaped, ModesKept;
    if n == 0 {
      ModesFollow(s, s, s);
    } else {
      FetchKeepsModes(p, s, at, values, n - 1);
      var t := Fetch(p, s, at, values, n - 1);
      ByteKeepsModes(p, t, Wrapped(at, n - 1), values[n - 1]);
      ModesFollow(s, t, FetchByte(p, t, Wrapped(at, n - 1), values[n - 1]));
    }
  }

  /** Between clearings a start never changes its mode: a conflict is an error instead. */
  lemma {:induction false} ModesNeverChange(p: Plan, s: State, es: seq<Event>)
    requires Shaped(p, s) && forall i :: 0 <= i < |es| ==> !es[i].Clear?
    ensures ModesKept(s, Run(p, s, es))
  {
    if es != [] {
      var before, e := es[..|es| - 1], es[|es| - 1];
      ModesNeverChange(p, s, before);
      if e.Bytes? {
        FetchKeepsModes(p, Run(p, s, before), e.at, e.values, |e.values|);
      }
    }
  }

  /** An instruction that starts in a segment and is fetched there without an error has its mode
      on record. */
  lemma StartIsRecorded(p: Plan, s: State, pc: nat, mode: nat, value: byte)
    requires ValidPlan(p) && Shaped(p, s) && Owner(p.segs, pc).Some?
    ensures var k := Owner(p.segs, pc).value;
            var t := FetchByte(p, Begin(p, s, pc, mode), pc, Some(value));
            t.error || (t.starts[k][pc - p.segs[k].base] == mode && pc in t.hit[k])
  {
  }

  // ---------------------------------------------------------------- the span

  /** `a2gspu_cov_span` of a mapped run: source bytes, without the gaps. */
  function Span(segs: seq<Segment>): nat { if segs == [] then 0 else |segs[0].expected| + Span(segs[1..]) }

  function Interval(lo: nat, n: nat): (s: set<nat>)
    ensures |s| == n && forall a :: a in s <==> lo <= a < lo + n
  {
    if n == 0 then {} else Interval(lo, n - 1) + {lo + n - 1}
  }

  ghost function Owned(segs: seq<Segment>): set<nat> {
    if segs == [] then {} else Interval(segs[0].base, |segs[0].expected|) + Owned(segs[1..])
  }

  lemma SubsetSize(x: set<nat>, y: set<nat>)
    requires x <= y
    ensures |x| <= |y|
  {
    assert y == x + (y - x);
  }

  lemma UnionSize(x: set<nat>, y: set<nat>)
    ensures |x + y| <= |x| + |y|
  {
    SubsetSize(y - x, y);
    assert x + y == x + (y - x);
  }

  lemma {:induction false} OwnedFits(segs: seq<Segment>)
    ensures |Owned(segs)| <= Span(segs)
    ensures forall k, a: nat :: 0 <= k < |segs| && segs[k].Contains(a) ==> a in Owned(segs)
  {
    hide Interval;
    if segs != [] {
      OwnedFits(segs[1..]);
      UnionSize(Interval(segs[0].base, |segs[0].expected|), Owned(segs[1..]));
      forall k, a: nat | 0 <= k < |segs| && segs[k].Contains(a) ensures a in Owned(segs) {
        if k > 0 {
          assert segs[1..][k - 1] == segs[k];
        }
      }
    }
  }

  /** The counter never exceeds the span. */
  lemma CountWithinSpan(p: Plan, s: State, h: History)
    requires ValidPlan(p) && InStep(p, s, h)
    ensures s.count <= if p.segs == [] then p.hi - p.lo + 1 else Span(p.segs)
  {
    if p.segs == [] {
      SubsetSize(s.global, Interval(p.lo, p.hi - p.lo + 1));
    } else {
      OwnedFits(p.segs);
      forall a | a in s.global ensures a in Owned(p.segs) {
        assert SomeHit(s.hit, a);
        var k :| 0 <= k < |s.hit| && a in s.hit[k];
        assert p.segs[k].Contains(a);
      }
      SubsetSize(s.global, Owned(p.segs));
    }
  }
}
