/** Comparing two parsed snapshots: `a2snapdiff::compare` (src/a2gspu_snapdiff.hpp). */
module SnapDiff {
  import opened Options
  import opened Bytes
  import opened Snapshot
  import opened SnapLayout

  const MAX_RANGES := 128

  datatype Run = Run(begin: nat, end: nat)

  /** A place past the end of either side counts as different. */
  predicate Different(x: seq<byte>, y: seq<byte>, j: nat) { j >= |x| || j >= |y| || x[j] != y[j] }

  function Longest(x: seq<byte>, y: seq<byte>): nat { if |x| > |y| then |x| else |y| }

  predicate Inside(r: Run, j: nat) { r.begin <= j < r.end }

  ghost predicate Covered(runs: seq<Run>, j: nat) { exists i :: 0 <= i < |runs| && Inside(runs[i], j) }

  /** Non-empty runs in order, with at least one equal place between two of them. */
  ghost predicate Separate(runs: seq<Run>) {
    && (forall i :: 0 <= i < |runs| ==> runs[i].begin < runs[i].end)
    && (forall i, j :: 0 <= i < j < |runs| ==> runs[i].end < runs[j].begin)
  }

  /** The runs cover exactly the differing places below `limit`. */
  ghost predicate ExactBelow(runs: seq<Run>, x: seq<byte>, y: seq<byte>, limit: nat) {
    && Separate(runs)
    && (forall i :: 0 <= i < |runs| ==> runs[i].end <= limit)
    && (forall j: nat :: j < limit ==> (Different(x, y, j) <==> Covered(runs, j)))
  }

  ghost predicate Exact(runs: seq<Run>, x: seq<byte>, y: seq<byte>) { ExactBelow(runs, x, y, Longest(x, y)) }

  function Total(runs: seq<Run>): int {
    if runs == [] then 0 else Total(runs[..|runs| - 1]) + runs[|runs| - 1].end - runs[|runs| - 1].begin
  }

  /** How many places below `limit` differ. */
  function DifferentBelow(x: seq<byte>, y: seq<byte>, limit: nat): nat {
    if limit == 0 then 0 else DifferentBelow(x, y, limit - 1) + if Different(x, y, limit - 1) then 1 else 0
  }

  function DifferentBytes(x: seq<byte>, y: seq<byte>): nat { DifferentBelow(x, y, Longest(x, y)) }

  function First(runs: seq<Run>): seq<Run> { if |runs| <= MAX_RANGES then runs else runs[..MAX_RANGES] }

  /** The scan of one section: `changed` places in `count` runs, of which the first 128 are
      kept. `runs` is the whole list. */
  method FindRuns(x: seq<byte>, y: seq<byte>) returns (changed: nat, count: nat, stored: seq<Run>, ghost runs: seq<Run>)
    ensures Exact(runs, x, y) && changed == Total(runs) && count == |runs| && stored == First(runs)
    ensures changed == DifferentBytes(x, y)
  {
    hide ExactBelow, Total, First, Different;
    var n := Longest(x, y);
    var i := 0;
    changed, count, stored, runs := 0, 0, [], [];
    Nothing(x, y);
    while i < n
      invariant i <= n && ExactBelow(runs, x, y, i)
      invariant runs != [] && runs[|runs| - 1].end >= i ==> runs[|runs| - 1].end == i && (i < n ==> !Different(x, y, i))
      invariant changed == Total(runs) && count == |runs| && stored == First(runs)
      invariant changed == DifferentBelow(x, y, i)
    {
      if !Different(x, y, i) {
        SkipEqual(runs, x, y, i);
        i := i + 1;
      } else {
        var start := i;
        while i < n && Different(x, y, i)
          invariant start <= i <= n && forall j: nat :: start <= j < i ==> Different(x, y, j)
          invariant DifferentBelow(x, y, i) == changed + (i - start)
        {
          i := i + 1;
        }
        AddRun(runs, x, y, start, i);
        FirstGrows(runs, Run(start, i));
        changed, count := changed + (i - start), count + 1;
        if |stored| < MAX_RANGES {
          stored := stored + [Run(start, i)];
        }
        runs := runs + [Run(start, i)];
      }
    }
  }

  lemma Nothing(x: seq<byte>, y: seq<byte>)
    ensures ExactBelow([], x, y, 0) && Total([]) == 0 && First([]) == []
  {
  }

  lemma FirstGrows(runs: seq<Run>, r: Run)
    ensures First(runs + [r]) == if |First(runs)| < MAX_RANGES then First(runs) + [r] else First(runs)
  {
  }

  lemma SkipEqual(runs: seq<Run>, x: seq<byte>, y: seq<byte>, i: nat)
    requires ExactBelow(runs, x, y, i) && !Different(x, y, i)
    ensures ExactBelow(runs, x, y, i + 1)
    ensures runs != [] ==> runs[|runs| - 1].end < i + 1
  {
  }

  lemma AddRun(runs: seq<Run>, x: seq<byte>, y: seq<byte>, start: nat, end: nat)
    requires ExactBelow(runs, x, y, start) && start < end
    requires runs != [] ==> runs[|runs| - 1].end < start
    requires forall j: nat :: start <= j < end ==> Different(x, y, j)
    ensures ExactBelow(runs + [Run(start, end)], x, y, end)
    ensures Total(runs + [Run(start, end)]) == Total(runs) + (end - start)
  {
    hide Covered, Inside, Different;
    var all := runs + [Run(start, end)];
    assert all[..|runs|] == runs;
    forall i | 0 <= i < |runs| ensures runs[i].end < start {
      if i < |runs| - 1 { assert runs[i].end < runs[|runs| - 1].begin; }
    }
    forall j: nat | j < end ensures Different(x, y, j) <==> Covered(all, j) {
      CoverGrows(runs, Run(start, end), j);
      InsideIs(Run(start, end), j);
    }
  }

  lemma InsideIs(r: Run, j: nat)
    ensures Inside(r, j) <==> r.begin <= j < r.end
  {
  }

  lemma CoverGrows(runs: seq<Run>, r: Run, j: nat)
    ensures Covered(runs + [r], j) <==> Covered(runs, j) || Inside(r, j)
  {
    var all := runs + [r];
    assert all[|runs|] == r;
    if Covered(runs, j) {
      var i :| 0 <= i < |runs| && Inside(runs[i], j);
      assert Inside(all[i], j);
    }
  }

  // ---------------------------------------------------------------- what a run list means

  /** Runs that cover exactly the differences are as long as they can be. */
  lemma RunsAreMaximal(runs: seq<Run>, x: seq<byte>, y: seq<byte>, i: nat)
    requires Exact(runs, x, y) && i < |runs|
    ensures forall j: nat :: runs[i].begin <= j < runs[i].end ==> Different(x, y, j)
    ensures runs[i].begin > 0 ==> !Different(x, y, runs[i].begin - 1)
    ensures runs[i].end < Longest(x, y) ==> !Different(x, y, runs[i].end)
  {
    var r := runs[i];
    forall j: nat | r.begin <= j < r.end ensures Different(x, y, j) { assert Inside(runs[i], j); }
    forall k | 0 <= k < |runs| ensures !Inside(runs[k], r.end) && (r.begin > 0 ==> !Inside(runs[k], r.begin - 1)) {
      if k < i {
        assert runs[k].end < runs[i].begin;
      } else if k > i {
        assert runs[i].end < runs[k].begin;
      }
    }
  }

  /** The differences determine the runs. */
  lemma RunsAreUnique(a: seq<Run>, b: seq<Run>, x: seq<byte>, y: seq<byte>)
    requires Exact(a, x, y) && Exact(b, x, y)
    ensures a == b
  {
    SameStart(a, b, x, y);
    NoMore(a, b, x, y);
    NoMore(b, a, x, y);
  }

  lemma SameCover(a: seq<Run>, b: seq<Run>, x: seq<byte>, y: seq<byte>, j: nat)
    requires Exact(a, x, y) && Exact(b, x, y) && j < Longest(x, y)
    ensures Covered(a, j) <==> Covered(b, j)
  {
    hide Covered;
    assert Different(x, y, j) <==> Covered(a, j);
  }

  /** A list that agrees with another as far as it goes is not the shorter one. */
  lemma NoMore(a: seq<Run>, b: seq<Run>, x: seq<byte>, y: seq<byte>)
    requires Exact(a, x, y) && Exact(b, x, y)
    requires forall i :: 0 <= i < |a| && i < |b| ==> a[i] == b[i]
    ensures |b| <= |a|
  {
    hide Different;
    if |a| < |b| {
      var j := b[|a|].begin;
      assert Inside(b[|a|], j);
      assert Covered(b, j);
      forall i | 0 <= i < |a| ensures !Inside(a[i], j) { assert b[i].end < b[|a|].begin; }
      SameCover(a, b, x, y, j);
    }
  }

  lemma SameStart(a: seq<Run>, b: seq<Run>, x: seq<byte>, y: seq<byte>)
    requires Exact(a, x, y) && Exact(b, x, y)
    ensures forall i :: 0 <= i < |a| && i < |b| ==> a[i] == b[i]
  {
    hide Exact, Different;
    var n := if |a| < |b| then |a| else |b|;
    for i := 0 to n
      invariant forall k :: 0 <= k < i ==> a[k] == b[k]
    {
      SameNext(a, b, x, y, i);
    }
  }

  lemma SameNext(a: seq<Run>, b: seq<Run>, x: seq<byte>, y: seq<byte>, i: nat)
    requires Exact(a, x, y) && Exact(b, x, y) && i < |a| && i < |b|
    requires forall k :: 0 <= k < i ==> a[k] == b[k]
    ensures a[i] == b[i]
  {
    NotLater(a, b, x, y, i);
    NotLater(b, a, x, y, i);
    RunsAreMaximal(a, x, y, i);
    RunsAreMaximal(b, x, y, i);
    assert a[i].begin == b[i].begin;
    assert b[i].end <= a[i].end;
    assert a[i].end <= b[i].end;
  }

  lemma NotLater(a: seq<Run>, b: seq<Run>, x: seq<byte>, y: seq<byte>, i: nat)
    requires Exact(a, x, y) && Exact(b, x, y) && i < |a| && i < |b|
    requires forall k :: 0 <= k < i ==> a[k] == b[k]
    ensures b[i].begin <= a[i].begin
  {
    hide Different;
    var j := a[i].begin;
    assert Inside(a[i], j);
    assert Covered(a, j);
    SameCover(a, b, x, y, j);
    forall k | 0 <= k < i ensures !Inside(b[k], j) { assert a[k].end < a[i].begin; }
    var k :| 0 <= k < |b| && Inside(b[k], j);
    if k > i { assert b[i].end < b[k].begin; }
  }

  lemma DifferenceIsSymmetric(x: seq<byte>, y: seq<byte>, runs: seq<Run>)
    ensures Exact(runs, x, y) <==> Exact(runs, y, x)
  {
    hide Covered, Separate;
    assert forall j: nat :: Different(x, y, j) <==> Different(y, x, j);
    assert Longest(x, y) == Longest(y, x);
  }

  /** Equal contents are exactly those without a run. */
  lemma NoRunsMeansEqual(runs: seq<Run>, x: seq<byte>, y: seq<byte>)
    requires Exact(runs, x, y)
    ensures runs == [] <==> x == y
    ensures Total(runs) == 0 <==> runs == []
  {
    TotalIsPositive(runs);
    if runs == [] {
      assert forall j: nat :: j < Longest(x, y) ==> !Different(x, y, j);
      assert |x| < |y| ==> Different(x, y, |x|);
      assert |y| < |x| ==> Different(x, y, |y|);
      assert |x| == |y|;
      forall j: nat | j < |x| ensures x[j] == y[j] { assert !Different(x, y, j); }
    } else {
      assert Inside(runs[0], runs[0].begin);
      assert Different(x, y, runs[0].begin);
    }
  }

  lemma {:induction false} TotalIsPositive(runs: seq<Run>)
    requires Separate(runs)
    ensures Total(runs) >= |runs|
  {
    if runs != [] {
      assert Separate(runs[..|runs| - 1]);
      TotalIsPositive(runs[..|runs| - 1]);
    }
  }

  // ---------------------------------------------------------------- whole snapshots

  datatype Snap = Snap(bytes: seq<byte>, gs: bool, layout: Layout)

  /** What the parser guarantees: sections lie inside the file, and there are 15 registers. */
  ghost predicate ValidSnap(s: Snap) {
    && |s.layout.registers| == |CPU_WIDTHS|
    && forall n <- s.layout.sections :: s.layout.sections[n].begin + s.layout.sections[n].size <= |s.bytes|
  }

  ghost predicate Within(sections: Sections, size: nat) {
    forall n <- sections :: sections[n].begin + sections[n].size <= size
  }

  lemma {:induction false} PartsStayWithin(data: seq<byte>, pos: nat, parts: seq<Part>, sections: Sections)
    requires Within(sections, |data|) && ParseParts(data, pos, parts, sections).At?
    ensures Within(ParseParts(data, pos, parts, sections).value, |data|)
    decreases |parts|
  {
    hide RefsOk, Word;
    if parts != [] {
      var r := ParsePart(data, pos, parts[0], sections);
      assert Within(r.value, |data|);
      PartsStayWithin(data, r.pos, parts[1..], r.value);
    }
  }

  lemma {:induction false} DevicesStayWithin(data: seq<byte>, pos: nat, count: nat, sections: Sections)
    requires Within(sections, |data|) && ParseDevices(data, pos, count, sections).At?
    ensures Within(ParseDevices(data, pos, count, sections).value, |data|)
    decreases |data| - pos
  {
    hide NameField, Word;
    if Word(data, pos, 4) != END {
      var version, length := Word(data, pos + 12, 4), Word(data, pos + 16, 4);
      var name := NameField(data[pos + 4..pos + 12]).value;
      DevicesStayWithin(data, pos + 20 + length, count + 1,
                        sections[DeviceSection(name) := Section(pos + 20, length, version)]);
    }
  }

  /** Whatever the layout reader accepts can be compared. */
  lemma ParsedIsValid(data: seq<byte>, gs: bool)
    requires ParseLayout(data, gs).At?
    ensures ValidSnap(Snap(data, gs, ParseLayout(data, gs).value))
  {
    hide ParseParts, ParseDevices, ParseTrailer, GsParts, IieParts, Word, Size;
    var at := 8 + Size(CPU_WIDTHS);
    if gs {
      var parts := GsParts(Word(data, at, 4), Word(data, at + 4, 4));
      PartsStayWithin(data, at + 8, parts, map[]);
      var mmu := ParseParts(data, at + 8, parts, map[]);
      DevicesStayWithin(data, mmu.pos, 0, mmu.value);
    } else {
      PartsStayWithin(data, at, IieParts("iie"), map[]);
      var mmu := ParseParts(data, at, IieParts("iie"), map[]);
      DevicesStayWithin(data, mmu.pos, 0, mmu.value);
    }
  }

  function Content(s: Snap, n: SectionName): seq<byte>
    requires ValidSnap(s)
  {
    if n in s.layout.sections then
      var sec := s.layout.sections[n]; s.bytes[sec.begin..sec.begin + sec.size]
    else []
  }

  function VersionOf(s: Snap, n: SectionName): nat { if n in s.layout.sections then s.layout.sections[n].version else 0 }

  datatype Change = Change(name: SectionName, before: bool, after: bool, versionBefore: nat, versionAfter: nat,
                           changed: nat, count: nat, ranges: seq<Run>)

  datatype Report = Report(equal: bool, changed: nat, registers: seq<nat>, changes: seq<Change>)

  /** A section agrees: present on both sides or neither, with one version and the same bytes. */
  predicate Agrees(a: Snap, b: Snap, n: SectionName)
    requires ValidSnap(a) && ValidSnap(b)
  {
    && (n in a.layout.sections <==> n in b.layout.sections)
    && VersionOf(a, n) == VersionOf(b, n) && Content(a, n) == Content(b, n)
  }

  /** A change says exactly how a section differs. */
  ghost predicate Tells(c: Change, a: Snap, b: Snap)
    requires ValidSnap(a) && ValidSnap(b)
  {
    && c.before == (c.name in a.layout.sections) && c.after == (c.name in b.layout.sections)
    && c.versionBefore == VersionOf(a, c.name) && c.versionAfter == VersionOf(b, c.name)
    && c.changed == DifferentBytes(Content(a, c.name), Content(b, c.name))
    && exists runs :: Exact(runs, Content(a, c.name), Content(b, c.name))
                      && c.changed == Total(runs) && c.count == |runs| && c.ranges == First(runs)
  }

  function ChangedBytes(cs: seq<Change>): nat { if cs == [] then 0 else ChangedBytes(cs[..|cs| - 1]) + cs[|cs| - 1].changed }

  /** The names whose sections disagree, in order. */
  function Disagreeing(a: Snap, b: Snap, names: seq<SectionName>): seq<SectionName>
    requires ValidSnap(a) && ValidSnap(b)
  {
    if names == [] then []
    else
      var n := names[|names| - 1];
      Disagreeing(a, b, names[..|names| - 1]) + if Agrees(a, b, n) then [] else [n]
  }

  /** How many bytes differ over some sections. */
  function DifferentIn(a: Snap, b: Snap, names: seq<SectionName>): nat
    requires ValidSnap(a) && ValidSnap(b)
  {
    if names == [] then 0
    else
      var n := names[|names| - 1];
      DifferentIn(a, b, names[..|names| - 1]) + DifferentBytes(Content(a, n), Content(b, n))
  }

  function NamesOf(cs: seq<Change>): (r: seq<SectionName>)
    ensures |r| == |cs| && forall i :: 0 <= i < |cs| ==> r[i] == cs[i].name
  {
    seq(|cs|, i requires 0 <= i < |cs| => cs[i].name)
  }

  lemma {:induction false} SameIsZero(x: seq<byte>, limit: nat)
    requires limit <= |x|
    ensures DifferentBelow(x, x, limit) == 0
  {
    if limit > 0 { SameIsZero(x, limit - 1); }
  }

  lemma AgreeingIsZero(a: Snap, b: Snap, n: SectionName)
    requires ValidSnap(a) && ValidSnap(b) && Agrees(a, b, n)
    ensures DifferentBytes(Content(a, n), Content(b, n)) == 0
  {
    hide Content;
    SameIsZero(Content(a, n), |Content(a, n)|);
  }

  lemma DisagreeingStep(a: Snap, b: Snap, names: seq<SectionName>, i: nat)
    requires ValidSnap(a) && ValidSnap(b) && i < |names|
    ensures Disagreeing(a, b, names[..i + 1]) == Disagreeing(a, b, names[..i]) + (if Agrees(a, b, names[i]) then [] else [names[i]])
    ensures DifferentIn(a, b, names[..i + 1])
         == DifferentIn(a, b, names[..i]) + DifferentBytes(Content(a, names[i]), Content(b, names[i]))
  {
    assert names[..i + 1][..i] == names[..i];
  }

  lemma {:induction false} DisagreeingMeans(a: Snap, b: Snap, names: seq<SectionName>)
    requires ValidSnap(a) && ValidSnap(b)
    ensures forall n :: n in Disagreeing(a, b, names) <==> n in names && !Agrees(a, b, n)
    ensures |Disagreeing(a, b, names)| <= |names|
  {
    hide Agrees;
    if names != [] {
      DisagreeingMeans(a, b, names[..|names| - 1]);
      assert names == names[..|names| - 1] + [names[|names| - 1]];
    }
  }

  predicate SameGeometry(a: Snap, b: Snap) {
    a.gs == b.gs && a.layout.ramBanks == b.layout.ramBanks && a.layout.romBanks == b.layout.romBanks
  }

  /** `compare`. `names` is the union of the section names in the order of the source's set. */
  method Compare(a: Snap, b: Snap, names: seq<SectionName>) returns (r: Option<Report>)
    requires ValidSnap(a) && ValidSnap(b)
    requires forall n :: n in names <==> n in a.layout.sections || n in b.layout.sections
    requires forall i, j :: 0 <= i < j < |names| ==> names[i] != names[j]
    ensures r.Some? <==> a.gs == b.gs && a.layout.ramBanks == b.layout.ramBanks && a.layout.romBanks == b.layout.romBanks
    ensures r.Some? ==>
              && (r.value.equal <==> a.layout.registers == b.layout.registers && forall n :: Agrees(a, b, n))
              && r.value.changed == ChangedBytes(r.value.changes) == DifferentIn(a, b, names)
              && NamesOf(r.value.changes) == Disagreeing(a, b, names)
              && (forall i, j :: 0 <= i < j < |r.value.registers| ==> r.value.registers[i] < r.value.registers[j])
              && (forall i <- r.value.registers :: i < |a.layout.registers| && a.layout.registers[i] != b.layout.registers[i])
              && (forall i: nat :: i < |a.layout.registers| && a.layout.registers[i] != b.layout.registers[i] ==> i in r.value.registers)
              && (forall c <- r.value.changes :: Tells(c, a, b) && !Agrees(a, b, c.name))
              && (forall n :: !Agrees(a, b, n) ==> exists c :: c in r.value.changes && c.name == n)
  {
    hide Tells, Agrees, DifferentIn, Disagreeing, NamesOf, ValidSnap;
    if !SameGeometry(a, b) {
      return None;
    }
    SameRegisters(a, b);
    var registers := CompareRegisters(a.layout.registers, b.layout.registers);
    var changes, changed := CompareSections(a, b, names);
    DisagreeingMeans(a, b, names);
    forall n | !Agrees(a, b, n) ensures exists c :: c in changes && c.name == n {
      NamesCover(a, b, n);
      assert n in names;
      assert n in Disagreeing(a, b, names);
      var i :| 0 <= i < |NamesOf(changes)| && NamesOf(changes)[i] == n;
      assert changes[i] in changes;
    }
    if changes != [] { assert changes[0] in changes; }
    r := Some(Report(registers == [] && changes == [], changed, registers, changes));
  }

  lemma SameRegisters(a: Snap, b: Snap)
    requires ValidSnap(a) && ValidSnap(b)
    ensures |a.layout.registers| == |b.layout.registers|
  {
  }

  method CompareSections(a: Snap, b: Snap, names: seq<SectionName>) returns (changes: seq<Change>, changed: nat)
    requires ValidSnap(a) && ValidSnap(b)
    ensures changed == ChangedBytes(changes) == DifferentIn(a, b, names)
    ensures NamesOf(changes) == Disagreeing(a, b, names)
    ensures forall c <- changes :: Tells(c, a, b) && !Agrees(a, b, c.name)
  {
    hide Tells, Agrees, ValidSnap, DifferentIn, Disagreeing, Content, DifferentBytes;
    changes, changed := [], 0;
    NothingCompared(a, b, names);
    for i := 0 to |names|
      invariant changed == ChangedBytes(changes) == DifferentIn(a, b, names[..i])
      invariant NamesOf(changes) == Disagreeing(a, b, names[..i])
      invariant forall c <- changes :: Tells(c, a, b) && !Agrees(a, b, c.name)
    {
      var c := CompareSection(a, b, names[i]);
      DisagreeingStep(a, b, names, i);
      if c.Some? {
        TellsCount(c.value, a, b);
        assert (changes + [c.value])[..|changes|] == changes;
        assert NamesOf(changes + [c.value]) == NamesOf(changes) + [names[i]];
        changes, changed := changes + [c.value], changed + c.value.changed;
      } else {
        AgreeingIsZero(a, b, names[i]);
      }
    }
    assert names[..|names|] == names;
  }

  lemma NothingCompared(a: Snap, b: Snap, names: seq<SectionName>)
    requires ValidSnap(a) && ValidSnap(b)
    ensures DifferentIn(a, b, names[..0]) == 0 && Disagreeing(a, b, names[..0]) == []
  {
  }

  lemma TellsCount(c: Change, a: Snap, b: Snap)
    requires ValidSnap(a) && ValidSnap(b) && Tells(c, a, b)
    ensures c.changed == DifferentBytes(Content(a, c.name), Content(b, c.name))
  {
  }

  lemma NamesCover(a: Snap, b: Snap, n: SectionName)
    requires ValidSnap(a) && ValidSnap(b) && !Agrees(a, b, n)
    ensures n in a.layout.sections || n in b.layout.sections
  {
  }

  method CompareRegisters(x: seq<nat>, y: seq<nat>) returns (diffs: seq<nat>)
    requires |x| == |y|
    ensures forall i <- diffs :: i < |x| && x[i] != y[i]
    ensures forall i: nat :: i < |x| && x[i] != y[i] ==> i in diffs
    ensures forall i, j :: 0 <= i < j < |diffs| ==> diffs[i] < diffs[j]
    ensures diffs == [] <==> x == y
  {
    diffs := [];
    for i := 0 to |x|
      invariant forall j :: 0 <= j < |diffs| ==> diffs[j] < i
      invariant forall j, k :: 0 <= j < k < |diffs| ==> diffs[j] < diffs[k]
      invariant forall k <- diffs :: k < i && x[k] != y[k]
      invariant forall k: nat :: k < i && x[k] != y[k] ==> k in diffs
    {
      if x[i] != y[i] { diffs := diffs + [i]; }
    }
    if diffs != [] { assert diffs[0] in diffs; }
  }

  /** One section: a change is reported exactly when the sides do not agree. */
  method CompareSection(a: Snap, b: Snap, n: SectionName) returns (c: Option<Change>)
    requires ValidSnap(a) && ValidSnap(b)
    ensures c.Some? <==> !Agrees(a, b, n)
    ensures c.Some? ==> c.value.name == n && Tells(c.value, a, b)
  {
    var before, after := n in a.layout.sections, n in b.layout.sections;
    var x, y := Content(a, n), Content(b, n);
    var va, vb := VersionOf(a, n), VersionOf(b, n);
    hide Exact, Content, Total, DifferentBytes;
    var changed, count, stored, runs := FindRuns(x, y);
    NoRunsMeansEqual(runs, x, y);
    if changed != 0 || before != after || va != vb {
      c := Some(Change(n, before, after, va, vb, changed, count, stored));
    } else {
      c := None;
    }
  }
}
