/** Coverage plans (src/a2gspu_coverage.hpp, `a2gspu_cov_map_load`): a header and segment
    records, accepted exactly when the records fill the file and the segments can be told apart.
 */
module CovPlan {

  import opened Options
  import opened Bytes
  import opened Coverage
  import opened CovTracker

  // ---------------------------------------------------------------- what a plan file is

  const MAGIC: seq<byte> := [0x41, 0x32, 0x4D, 0x41, 0x50, 0x31, 0, 0]
  const SPACE := 0x100_0000

  function Record(m: Segment): (bs: seq<byte>)
    ensures |bs| == 12 + |m.expected|
  {
    LE(4, m.index) + LE(4, m.base) + LE(4, |m.expected|) + m.expected
  }

  function Records(segs: seq<Segment>): seq<byte> { if segs == [] then [] else Record(segs[0]) + Records(segs[1..]) }

  /** The file: its header's last 40 bytes are for other readers. */
  function PlanFile(form: nat, other: seq<byte>, segs: seq<Segment>): seq<byte> {
    MAGIC + LE(4, |segs|) + LE(4, form) + other + Records(segs)
  }

  predicate Good(form: nat, count: nat, m: Segment) {
    && |m.expected| > 0 && m.index < 0x1_0000_0000 && m.base + |m.expected| <= SPACE
    && (form == 1 ==> count == 1 && m.index == 0)
    && (form == 2 ==> m.index != 0)
  }

  ghost predicate Distinct(segs: seq<Segment>) {
    forall j, k :: 0 <= j < k < |segs| ==> segs[j].index != segs[k].index
  }

  /** Segments that can be bound together. */
  ghost predicate Bindable(form: nat, segs: seq<Segment>) {
    && 1 <= |segs| <= 65536 && (form == 1 || form == 2)
    && (forall k :: 0 <= k < |segs| ==> Good(form, |segs|, segs[k]))
    && Distinct(segs) && Apart(segs)
  }

  /** The file holds these segments and nothing else. */
  ghost predicate Holds(file: seq<byte>, form: nat, segs: seq<Segment>) {
    Bindable(form, segs) && exists other: seq<byte> :: |other| == 40 && file == PlanFile(form, other, segs)
  }

  // ---------------------------------------------------------------- reading the records

  /** One record at the front; `total` bytes have been planned so far. */
  function Take(form: nat, count: nat, data: seq<byte>, total: nat): Option<Segment> {
    if |data| < 12 then None
    else
      var index, base, len := Word(data, 0, 4), Word(data, 4, 4), Word(data, 8, 4);
      if len == 0 || base >= SPACE || len > SPACE - base || len > |data| - 12 || total > SPACE - len
         || (form == 1 && (count != 1 || index != 0)) || (form == 2 && index == 0) then None
      else Some(Segment(index, base, data[12..12 + len]))
  }

  function ParseSegs(form: nat, count: nat, left: nat, data: seq<byte>, total: nat): Option<seq<Segment>> {
    if left == 0 then if data == [] then Some([]) else None
    else
      var m := Take(form, count, data, total);
      if m.None? then None
      else
        var rest := ParseSegs(form, count, left - 1, data[12 + |m.value.expected|..], total + |m.value.expected|);
        if rest.None? then None else Some([m.value] + rest.value)
  }

  /** A record is taken exactly when it is there, is good and fits. */
  lemma TakeIsExact(form: nat, count: nat, data: seq<byte>, total: nat)
    ensures var m := Take(form, count, data, total);
            m.Some? ==> && Good(form, count, m.value) && total + |m.value.expected| <= SPACE
                        && data == Record(m.value) + data[12 + |m.value.expected|..]
  {
    hide LE, FromLE, Pow256;
    var m := Take(form, count, data, total);
    if m.Some? {
      Pow256Values();
      WordIsExact(data[0..4]);
      WordIsExact(data[4..8]);
      WordIsExact(data[8..12]);
      CutRecord(data, |m.value.expected|);
    }
  }

  lemma CutRecord(data: seq<byte>, n: nat)
    requires 12 + n <= |data|
    ensures data == data[0..4] + data[4..8] + data[8..12] + data[12..12 + n] + data[12 + n..]
  {
  }

  lemma RecordIsTaken(form: nat, count: nat, m: Segment, tail: seq<byte>, total: nat)
    requires Good(form, count, m) && total + |m.expected| <= SPACE
    ensures Take(form, count, Record(m) + tail, total) == Some(m)
  {
    var data := Record(m) + tail;
    Pow256Values();
    WordAt([], 4, m.index, data[4..]);
    WordAt(LE(4, m.index), 4, m.base, data[8..]);
    WordAt(LE(4, m.index) + LE(4, m.base), 4, |m.expected|, data[12..]);
    hide LE, FromLE, Pow256, Word;
    assert data == [] + LE(4, m.index) + data[4..];
    assert data == LE(4, m.index) + LE(4, m.base) + data[8..];
    assert data == LE(4, m.index) + LE(4, m.base) + LE(4, |m.expected|) + data[12..];
    assert data[12..12 + |m.expected|] == m.expected;
  }

  lemma {:induction false} ParsedAreRecords(form: nat, count: nat, left: nat, data: seq<byte>, total: nat)
    ensures var r := ParseSegs(form, count, left, data, total);
            r.Some? ==> |r.value| == left && data == Records(r.value) && forall k :: 0 <= k < left ==> Good(form, count, r.value[k])
  {
    hide Take, Record, Good;
    var r := ParseSegs(form, count, left, data, total);
    if r.Some? && left > 0 {
      TakeIsExact(form, count, data, total);
      var m := Take(form, count, data, total).value;
      ParsedAreRecords(form, count, left - 1, data[12 + |m.expected|..], total + |m.expected|);
      assert r.value[1..] == ParseSegs(form, count, left - 1, data[12 + |m.expected|..], total + |m.expected|).value;
    }
  }

  lemma {:induction false} RecordsParse(form: nat, count: nat, segs: seq<Segment>, total: nat)
    requires total + Span(segs) <= SPACE && forall k :: 0 <= k < |segs| ==> Good(form, count, segs[k])
    ensures ParseSegs(form, count, |segs|, Records(segs), total) == Some(segs)
  {
    hide Take, Record, Good;
    if segs == [] {
      assert Records(segs) == [];
    } else {
      var m := segs[0];
      assert Records(segs) == Record(m) + Records(segs[1..]);
      RecordIsTaken(form, count, m, Records(segs[1..]), total);
      RecordsParse(form, count, segs[1..], total + |m.expected|);
      assert Records(segs)[12 + |m.expected|..] == Records(segs[1..]);
      assert segs == [m] + segs[1..];
    }
  }

  // ---------------------------------------------------------------- the total is no extra demand

  lemma ApartTail(segs: seq<Segment>)
    requires segs != [] && Apart(segs)
    ensures Apart(segs[1..])
  {
    var tail := segs[1..];
    forall j, k, a: nat | 0 <= j < |tail| && 0 <= k < |tail| && tail[j].Contains(a) && tail[k].Contains(a) ensures j == k {
      assert segs[j + 1].Contains(a) && segs[k + 1].Contains(a);
    }
  }

  lemma {:induction false} OwnedBySome(segs: seq<Segment>, a: nat)
    requires a in Owned(segs)
    ensures exists k :: 0 <= k < |segs| && segs[k].Contains(a)
  {
    hide Interval;
    if a in Interval(segs[0].base, |segs[0].expected|) {
      assert segs[0].Contains(a);
    } else {
      OwnedBySome(segs[1..], a);
      var k :| 0 <= k < |segs[1..]| && segs[1..][k].Contains(a);
      assert segs[k + 1].Contains(a);
    }
  }

  lemma {:induction false} ApartAddUp(segs: seq<Segment>)
    requires Apart(segs)
    ensures |Owned(segs)| == Span(segs)
  {
    hide Interval;
    if segs != [] {
      ApartTail(segs);
      ApartAddUp(segs[1..]);
      var first := Interval(segs[0].base, |segs[0].expected|);
      forall a | a in first ensures a !in Owned(segs[1..]) {
        if a in Owned(segs[1..]) {
          OwnedBySome(segs[1..], a);
        }
        assert segs[0].Contains(a);
      }
      assert first !! Owned(segs[1..]);
    }
  }

  /** Segments that do not overlap cannot outgrow the address space. */
  lemma ApartFits(form: nat, segs: seq<Segment>)
    requires Apart(segs) && forall k :: 0 <= k < |segs| ==> Good(form, |segs|, segs[k])
    ensures Span(segs) <= SPACE
  {
    hide Interval;
    ApartAddUp(segs);
    forall a | a in Owned(segs) ensures a in Interval(0, SPACE) {
      OwnedBySome(segs, a);
    }
    SubsetSize(Owned(segs), Interval(0, SPACE));
  }

  // ---------------------------------------------------------------- sorting

  function Key(keys: seq<nat>, i: nat): nat { if i < |keys| then keys[i] else 0 }

  predicate Sorted(keys: seq<nat>, order: seq<nat>) {
    |order| < 2 || (Key(keys, order[0]) <= Key(keys, order[1]) && Sorted(keys, order[1..]))
  }

  predicate NoRepeat(order: seq<nat>) { order == [] || (order[0] !in order[1..] && NoRepeat(order[1..])) }

  /** Insertion into a sorted order; the library's sort may place equal keys differently. */
  function Insert(keys: seq<nat>, x: nat, order: seq<nat>): (r: seq<nat>)
    requires Sorted(keys, order)
    ensures Sorted(keys, r)
    ensures forall y :: y in r <==> y == x || y in order
    ensures x !in order && NoRepeat(order) ==> NoRepeat(r)
  {
    if order == [] || Key(keys, x) <= Key(keys, order[0]) then
      assert ([x] + order)[1..] == order;
      [x] + order
    else
      var tail := Insert(keys, x, order[1..]);
      assert ([order[0]] + tail)[1..] == tail;
      assert order[1..] != [] ==> tail[0] == x || tail[0] == order[1];
      [order[0]] + tail
  }

  function Sort(keys: seq<nat>, order: seq<nat>): (r: seq<nat>)
    ensures Sorted(keys, r)
    ensures forall y :: y in r <==> y in order
    ensures NoRepeat(order) ==> NoRepeat(r)
  {
    if order == [] then [] else Insert(keys, order[0], Sort(keys, order[1..]))
  }

  lemma {:induction false} SortedPair(keys: seq<nat>, order: seq<nat>, i: nat, j: nat)
    requires Sorted(keys, order) && NoRepeat(order) && i < j < |order|
    ensures Key(keys, order[i]) <= Key(keys, order[j]) && order[i] != order[j]
  {
    if i > 0 {
      SortedPair(keys, order[1..], i - 1, j - 1);
    } else if j > 1 {
      SortedPair(keys, order[1..], 0, j - 1);
    }
  }

  ghost predicate Arranges(order: seq<nat>, n: nat) { NoRepeat(order) && forall x: nat :: x in order <==> x < n }

  function Indices(segs: seq<Segment>): (r: seq<nat>)
    ensures |r| == |segs| && forall k :: 0 <= k < |segs| ==> r[k] == segs[k].index
  {
    seq(|segs|, k requires 0 <= k < |segs| => segs[k].index)
  }

  function Bases(segs: seq<Segment>): (r: seq<nat>)
    ensures |r| == |segs| && forall k :: 0 <= k < |segs| ==> r[k] == segs[k].base
  {
    seq(|segs|, k requires 0 <= k < |segs| => segs[k].base)
  }

  function Identity(n: nat): (r: seq<nat>)
    ensures |r| == n && NoRepeat(r) && forall x: nat :: x in r <==> x < n
  {
    if n == 0 then [] else
      var r := Identity(n - 1);
      AppendNew(r, n - 1);
      r + [n - 1]
  }

  lemma {:induction false} AppendNew(r: seq<nat>, x: nat)
    requires NoRepeat(r) && x !in r
    ensures NoRepeat(r + [x])
  {
    if r != [] {
      AppendNew(r[1..], x);
      assert (r + [x])[1..] == r[1..] + [x];
    }
  }

  /** Two neighbours with one index. */
  method HasTwin(segs: seq<Segment>, order: seq<nat>) returns (found: bool)
    requires forall i :: 0 <= i < |order| ==> order[i] < |segs|
    ensures found <==> exists i :: 1 <= i < |order| && Twin(segs, order, i)
  {
    found := false;
    var i := 1;
    while i < |order|
      invariant 1 <= i <= |order| || (i == 1 && |order| == 0)
      invariant forall j :: 1 <= j < i ==> !Twin(segs, order, j)
    {
      if segs[order[i]].index == segs[order[i - 1]].index {
        assert Twin(segs, order, i);
        return true;
      }
      i := i + 1;
    }
  }

  predicate Twin(segs: seq<Segment>, order: seq<nat>, i: int)
    requires 1 <= i < |order| && forall i :: 0 <= i < |order| ==> order[i] < |segs|
  {
    segs[order[i]].index == segs[order[i - 1]].index
  }

  /** Two neighbours that overlap. */
  method HasOverlap(segs: seq<Segment>, order: seq<nat>) returns (found: bool)
    requires forall i :: 0 <= i < |order| ==> order[i] < |segs|
    ensures found <==> exists i :: 1 <= i < |order| && Overlaps(segs, order, i)
  {
    found := false;
    var i := 1;
    while i < |order|
      invariant 1 <= i <= |order| || (i == 1 && |order| == 0)
      invariant forall j :: 1 <= j < i ==> !Overlaps(segs, order, j)
    {
      if segs[order[i]].base < segs[order[i - 1]].base + |segs[order[i - 1]].expected| {
        assert Overlaps(segs, order, i);
        return true;
      }
      i := i + 1;
    }
  }

  predicate Overlaps(segs: seq<Segment>, order: seq<nat>, i: int)
    requires 1 <= i < |order| && forall i :: 0 <= i < |order| ==> order[i] < |segs|
  {
    segs[order[i]].base < segs[order[i - 1]].base + |segs[order[i - 1]].expected|
  }

  /** Looking at neighbours is enough to find a repeated index. */
  lemma NeighboursDecideTwins(segs: seq<Segment>, order: seq<nat>)
    requires Arranges(order, |segs|) && Sorted(Indices(segs), order)
    requires forall i :: 0 <= i < |order| ==> order[i] < |segs|
    ensures Distinct(segs) <==> forall i :: 1 <= i < |order| ==> !Twin(segs, order, i)
  {
    hide Sorted, NoRepeat, Indices;
    var keys := Indices(segs);
    if Distinct(segs) {
      forall i | 1 <= i < |order| ensures !Twin(segs, order, i) {
        SortedPair(keys, order, i - 1, i);
      }
    }
    if forall i :: 1 <= i < |order| ==> !Twin(segs, order, i) {
      forall i, j | 0 <= i < j < |order| ensures segs[order[i]].index < segs[order[j]].index {
        SortedPair(keys, order, i, i + 1);
        assert !Twin(segs, order, i + 1);
        if i + 1 < j { SortedPair(keys, order, i + 1, j); }
      }
      forall j, k | 0 <= j < k < |segs| ensures segs[j].index != segs[k].index {
        assert j in order && k in order;
      }
    }
  }

  /** Looking at neighbours is enough to find an address in two segments. */
  lemma NeighboursDecideOverlaps(segs: seq<Segment>, order: seq<nat>)
    requires Arranges(order, |segs|) && Sorted(Bases(segs), order)
    requires forall i :: 0 <= i < |order| ==> order[i] < |segs|
    requires forall k :: 0 <= k < |segs| ==> |segs[k].expected| > 0
    ensures Apart(segs) <==> forall i :: 1 <= i < |order| ==> !Overlaps(segs, order, i)
    ensures Apart(segs) ==> Ordered(segs, order)
  {
    hide Sorted, NoRepeat, Bases;
    if Apart(segs) {
      forall i | 1 <= i < |order| ensures !Overlaps(segs, order, i) {
        SortedPair(Bases(segs), order, i - 1, i);
        var m, n := segs[order[i - 1]], segs[order[i]];
        assert n.Contains(n.base) && !m.Contains(n.base);
      }
    }
    if forall i :: 1 <= i < |order| ==> !Overlaps(segs, order, i) {
      OrderedByNeighbours(segs, order);
      OrderedIsApart(segs, order);
    }
  }

  lemma OrderedByNeighbours(segs: seq<Segment>, order: seq<nat>)
    requires Arranges(order, |segs|) && Sorted(Bases(segs), order)
    requires forall i :: 0 <= i < |order| ==> order[i] < |segs|
    requires forall i :: 1 <= i < |order| ==> !Overlaps(segs, order, i)
    ensures Ordered(segs, order)
  {
    hide Sorted, NoRepeat, Bases, Overlaps;
    forall i, j | 0 <= i < j < |order| ensures segs[order[i]].base + |segs[order[i]].expected| <= segs[order[j]].base {
      assert !Overlaps(segs, order, i + 1);
      BeforePair(segs, order, i, j);
    }
  }

  lemma BeforePair(segs: seq<Segment>, order: seq<nat>, i: nat, j: nat)
    requires NoRepeat(order) && Sorted(Bases(segs), order)
    requires (forall i :: 0 <= i < |order| ==> order[i] < |segs|) && i < j < |order| && !Overlaps(segs, order, i + 1)
    ensures segs[order[i]].base + |segs[order[i]].expected| <= segs[order[j]].base
  {
    hide Sorted, NoRepeat;
    if i + 1 < j { SortedPair(Bases(segs), order, i + 1, j); }
  }

  lemma OrderedIsApart(segs: seq<Segment>, order: seq<nat>)
    requires Ordered(segs, order)
    ensures Apart(segs)
  {
    forall j, k, a: nat | 0 <= j < |segs| && 0 <= k < |segs| && segs[j].Contains(a) && segs[k].Contains(a) ensures j == k {
      assert j in order && k in order;
    }
  }

  // ---------------------------------------------------------------- the loader

  /** The range runs from the lowest byte to the highest. */
  ghost predicate Tight(segs: seq<Segment>, lo: nat, hi: nat) {
    && (forall k :: 0 <= k < |segs| ==> lo <= segs[k].base && segs[k].base + |segs[k].expected| <= hi + 1)
    && (exists k :: 0 <= k < |segs| && segs[k].base == lo)
    && (exists k :: 0 <= k < |segs| && segs[k].base + |segs[k].expected| == hi + 1)
  }

  function Unmarked(m: Segment): Map { Map(m, Zeros((|m.expected| + 7) / 8), seq(|m.expected|, _ => 0)) }

  function Prepend(segs: seq<Segment>, rest: Option<seq<Segment>>): Option<seq<Segment>> {
    if rest.None? then None else Some(segs + rest.value)
  }

  method ReadSegments(form: nat, count: nat, plan: seq<byte>) returns (segs: Option<seq<Segment>>, lo: nat, hi: nat)
    requires |plan| >= 56
    ensures segs == ParseSegs(form, count, count, plan[56..], 0)
    ensures segs.Some? && count > 0 ==> Tight(segs.value, lo, hi)
  {
    hide Take, Good, Segment.Contains, Prepend, ParseSegs, Tight, Record;
    var done: seq<Segment> := [];
    var p: nat, total: nat := 56, 0;
    lo, hi := 0xFFFFFF, 0;
    PrependNone(ParseSegs(form, count, count, plan[56..], 0));
    while |done| < count
      invariant |done| <= count && 56 <= p <= |plan|
      invariant ParseSegs(form, count, count, plan[56..], 0) == Prepend(done, ParseSegs(form, count, count - |done|, plan[p..], total))
      invariant done == [] ==> lo == 0xFFFFFF && hi == 0
      invariant done != [] ==> Tight(done, lo, hi)
    {
      var m := Take(form, count, plan[p..], total);
      if m.None? {
        StopsAt(done, form, count, count - |done|, plan[p..], total);
        return None, lo, hi;
      }
      TakeIsExact(form, count, plan[p..], total);
      TakenFits(form, count, plan[p..], total);
      var n := |m.value.expected|;
      assert plan[p..][12 + n..] == plan[p + 12 + n..];
      StepsOn(done, m.value, form, count, count - |done|, plan[p..], total);
      Widen(done, m.value, lo, hi);
      p, total := p + 12 + n, total + n;
      if m.value.base < lo { lo := m.value.base; }
      if m.value.base + n - 1 > hi { hi := m.value.base + n - 1; }
      done := done + [m.value];
    }
    EndsAt(done, form, count, plan[p..], total);
    if p != |plan| { return None, lo, hi; }
    return Some(done), lo, hi;
  }

  lemma PrependNone(rest: Option<seq<Segment>>)
    ensures Prepend([], rest) == rest
  {
    if rest.Some? { assert [] + rest.value == rest.value; }
  }

  lemma StopsAt(done: seq<Segment>, form: nat, count: nat, left: nat, data: seq<byte>, total: nat)
    requires left > 0 && Take(form, count, data, total).None?
    ensures Prepend(done, ParseSegs(form, count, left, data, total)) == None
  {
  }

  lemma EndsAt(done: seq<Segment>, form: nat, count: nat, data: seq<byte>, total: nat)
    ensures Prepend(done, ParseSegs(form, count, 0, data, total)) == if data == [] then Some(done) else None
  {
    assert done + [] == done;
  }

  lemma TakenFits(form: nat, count: nat, data: seq<byte>, total: nat)
    ensures var m := Take(form, count, data, total);
            m.Some? ==> 0 < |m.value.expected| && 12 + |m.value.expected| <= |data| && m.value.base < SPACE
  {
  }

  lemma StepsOn(done: seq<Segment>, m: Segment, form: nat, count: nat, left: nat, data: seq<byte>, total: nat)
    requires left > 0 && Take(form, count, data, total) == Some(m) && 12 + |m.expected| <= |data|
    ensures Prepend(done, ParseSegs(form, count, left, data, total))
            == Prepend(done + [m], ParseSegs(form, count, left - 1, data[12 + |m.expected|..], total + |m.expected|))
  {
    hide Take;
    var rest := ParseSegs(form, count, left - 1, data[12 + |m.expected|..], total + |m.expected|);
    if rest.Some? {
      assert done + ([m] + rest.value) == (done + [m]) + rest.value;
    }
  }

  lemma Widen(done: seq<Segment>, m: Segment, lo: nat, hi: nat)
    requires |m.expected| > 0 && m.base < SPACE
    requires done == [] ==> lo == 0xFFFFFF && hi == 0
    requires done != [] ==> Tight(done, lo, hi)
    ensures Tight(done + [m], if m.base < lo then m.base else lo,
                  if m.base + |m.expected| - 1 > hi then m.base + |m.expected| - 1 else hi)
  {
    var all := done + [m];
    assert all[|done|] == m;
    assert forall k :: 0 <= k < |done| ==> all[k] == done[k];
  }

  /** What the header checks see of a plan. */
  lemma PlanReads(file: seq<byte>, form: nat, segs: seq<Segment>)
    requires Holds(file, form, segs)
    ensures 56 <= |file| <= SPACE + 12 * 65536 + 56 && file[..8] == MAGIC
    ensures Word(file, 8, 4) == |segs| && Word(file, 12, 4) == form
    ensures ParseSegs(form, |segs|, |segs|, file[56..], 0) == Some(segs)
  {
    hide LE, FromLE, Pow256, Records, Apart, Good, Distinct, ParseSegs;
    Pow256Values();
    var other: seq<byte> :| |other| == 40 && file == PlanFile(form, other, segs);
    PlanParts(file, form, other, segs);
    WordRoundTrip(4, |segs|);
    WordRoundTrip(4, form);
    ApartFits(form, segs);
    RecordsParse(form, |segs|, segs, 0);
    RecordsSize(segs);
  }

  lemma PlanParts(file: seq<byte>, form: nat, other: seq<byte>, segs: seq<Segment>)
    requires |other| == 40 && file == PlanFile(form, other, segs)
    ensures |file| == 56 + |Records(segs)| && file[..8] == MAGIC && file[8..12] == LE(4, |segs|) && file[12..16] == LE(4, form)
    ensures file[56..] == Records(segs)
  {
    hide LE, Records;
  }

  lemma {:induction false} RecordsSize(segs: seq<Segment>)
    ensures |Records(segs)| == 12 * |segs| + Span(segs)
  {
    if segs != [] { RecordsSize(segs[1..]); }
  }

  /** And a file that passes them is that plan. */
  lemma ReadIsPlan(file: seq<byte>, form: nat, segs: seq<Segment>)
    requires |file| >= 56 && file[..8] == MAGIC && Word(file, 8, 4) == |segs| && Word(file, 12, 4) == form
    requires ParseSegs(form, |segs|, |segs|, file[56..], 0) == Some(segs)
    ensures file == PlanFile(form, file[16..56], segs)
    ensures forall k :: 0 <= k < |segs| ==> Good(form, |segs|, segs[k])
  {
    hide LE, FromLE, Records, ParseSegs, Good, Pow256;
    ParsedAreRecords(form, |segs|, |segs|, file[56..], 0);
    WordIsExact(file[8..12]);
    WordIsExact(file[12..16]);
    Cut56(file);
  }

  lemma Cut56(file: seq<byte>)
    requires |file| >= 56
    ensures file == file[..8] + file[8..12] + file[12..16] + file[16..56] + file[56..]
  {
  }

  /** The lookup order of a plan that passed both neighbour checks. */
  method Arrange(segs: seq<Segment>) returns (order: Option<seq<nat>>)
    requires forall k :: 0 <= k < |segs| ==> |segs[k].expected| > 0
    ensures order.Some? <==> Distinct(segs) && Apart(segs)
    ensures order.Some? ==> Ordered(segs, order.value)
  {
    hide Sorted, NoRepeat, Sort, Identity, Indices, Bases, Apart, Distinct, Ordered, Twin, Overlaps;
    var byIndex := Sort(Indices(segs), Identity(|segs|));
    InRange(byIndex, |segs|);
    NeighboursDecideTwins(segs, byIndex);
    var twin := HasTwin(segs, byIndex);
    if twin { return None; }
    var byBase := Sort(Bases(segs), byIndex);
    InRange(byBase, |segs|);
    NeighboursDecideOverlaps(segs, byBase);
    var overlap := HasOverlap(segs, byBase);
    return if overlap then None else Some(byBase);
  }

  lemma InRange(order: seq<nat>, n: nat)
    requires forall x: nat :: x in order <==> x < n
    ensures forall i :: 0 <= i < |order| ==> order[i] < n
  {
    forall i | 0 <= i < |order| ensures order[i] < n { assert order[i] in order; }
  }

  function Unmarkeds(segs: seq<Segment>): (r: seq<Map>)
    ensures |r| == |segs| && Segs(r) == segs
    ensures forall k :: 0 <= k < |segs| ==> r[k] == Unmarked(segs[k])
  {
    var r := seq(|segs|, k requires 0 <= k < |segs| => Unmarked(segs[k]));
    assert Segs(r) == segs;
    r
  }

  /** The header and the records, or why not. */
  method Load(file: Option<seq<byte>>) returns (segs: Option<seq<Segment>>, lo: nat, hi: nat, order: seq<nat>)
    ensures segs.Some? <==> file.Some? && exists form, all :: Holds(file.value, form, all)
    ensures segs.Some? ==> && (exists form :: Holds(file.value, form, segs.value))
                           && Tight(segs.value, lo, hi) && Ordered(segs.value, order)
  {
    hide LE, FromLE, Records, ParseSegs, Good, Pow256, Apart, Distinct, Ordered, Tight, Bindable, PlanFile;
    segs, lo, hi, order := None, 0, 0, [];
    if file.None? { return; }
    var plan := file.value;
    forall form, all | Holds(plan, form, all)
      ensures 56 <= |plan| <= SPACE + 12 * 65536 + 56 && plan[..8] == MAGIC && 1 <= |all| <= 65536 && (form == 1 || form == 2)
      ensures Word(plan, 8, 4) == |all| && Word(plan, 12, 4) == form
      ensures ParseSegs(form, |all|, |all|, plan[56..], 0) == Some(all) && Distinct(all) && Apart(all)
    {
      PlanReads(plan, form, all);
      BindableMeans(form, all);
    }
    if |plan| < 56 || |plan| > SPACE + 12 * 65536 + 56 { return; }
    var count, form := Word(plan, 8, 4), Word(plan, 12, 4);
    if plan[..8] != MAGIC || count == 0 || count > 65536 || (form != 1 && form != 2) { return; }
    var all, from, to := ReadSegments(form, count, plan);
    if all.None? { return; }
    ParsedAreRecords(form, count, count, plan[56..], 0);
    AllGood(form, count, all.value);
    var arranged := Arrange(all.value);
    if arranged.None? { return; }
    ReadIsPlan(plan, form, all.value);
    IsHeld(plan, form, all.value);
    segs, lo, hi, order := all, from, to, arranged.value;
  }

  lemma BindableMeans(form: nat, segs: seq<Segment>)
    requires Bindable(form, segs)
    ensures 1 <= |segs| <= 65536 && (form == 1 || form == 2) && Distinct(segs) && Apart(segs)
  {
  }

  lemma AllGood(form: nat, count: nat, segs: seq<Segment>)
    requires forall k :: 0 <= k < |segs| ==> Good(form, count, segs[k])
    ensures forall k :: 0 <= k < |segs| ==> |segs[k].expected| > 0
  {
  }

  lemma IsHeld(file: seq<byte>, form: nat, segs: seq<Segment>)
    requires |file| >= 56 && file == PlanFile(form, file[16..56], segs)
    requires forall k :: 0 <= k < |segs| ==> Good(form, |segs|, segs[k])
    requires 1 <= |segs| <= 65536 && (form == 1 || form == 2) && Distinct(segs) && Apart(segs)
    ensures Holds(file, form, segs)
  {
    hide PlanFile, Good, Distinct, Apart;
    assert |file[16..56]| == 40;
  }

  lemma TightIsValid(segs: seq<Segment>, lo: nat, hi: nat)
    requires Tight(segs, lo, hi) && Apart(segs) && forall k :: 0 <= k < |segs| ==> |segs[k].expected| > 0
    ensures lo <= hi && ValidPlan(Plan(lo, hi, segs))
  {
    hide Apart;
  }

  lemma HeldMeans(file: seq<byte>, segs: seq<Segment>, lo: nat, hi: nat)
    requires (exists form :: Holds(file, form, segs)) && Tight(segs, lo, hi)
    ensures lo <= hi && ValidPlan(Plan(lo, hi, segs))
  {
    hide Apart, ValidPlan;
    var form :| Holds(file, form, segs);
    BindableMeans(form, segs);
    AllGood(form, |segs|, segs);
    TightIsValid(segs, lo, hi);
  }

  lemma BlankMeans(p: Plan, s: State)
    ensures var r := Blank(p, s); r.global == {} && r.count == 0 && !r.error
    ensures var r := Blank(p, s);
            && r.startPc == s.startPc && r.startMode == s.startMode && r.current == s.current
            && r.offset == s.offset && r.consumed == s.consumed
  {
  }

  lemma UnmarkedHits(segs: seq<Segment>)
    ensures forall k :: 0 <= k < |segs| ==> var m := Unmarked(segs[k]); m.Sized() && m.Hits() == {}
  {
    hide Zeros, Bit, Marked, Interval;
    forall k | 0 <= k < |segs| ensures var m := Unmarked(segs[k]); m.Sized() && m.Hits() == {} {
      var m := segs[k];
      ZeroIsUnmarked(m.base, |m.expected|, (|m.expected| + 7) / 8);
    }
  }

  /** `a2gspu_cov_map_load`: the plan is armed, with nothing marked, exactly when the file is a
      plan of segments that can be bound together; otherwise nothing is armed. */
  method MapLoad(t: Tracker, file: Option<seq<byte>>) returns (ok: bool)
    modifies t
    ensures ok <==> file.Some? && exists form, segs :: Holds(file.value, form, segs)
    ensures ok ==> t.Valid() && exists form :: Holds(file.value, form, t.Geometry().segs)
    ensures ok ==> Tight(t.Geometry().segs, t.lo, t.hi) && t.View() == Blank(t.Geometry(), old(Cursor(t)))
    ensures !ok ==> !t.on && t.maps == [] && t.error
  {
    hide Holds, Tight, Ordered, ValidPlan, Blank, Marked, Zeros, Interval, Bit;
    t.Off();
    var segs, lo, hi, order := Load(file);
    if segs.None? {
      t.error := true;
      return false;
    }
    HeldMeans(file.value, segs.value, lo, hi);
    t.Init(lo, hi);
    ghost var g := t.View();
    BlankMeans(Plan(lo, hi, []), old(Cursor(t)));
    t.maps, t.order := Unmarkeds(segs.value), order;
    UnmarkedHits(segs.value);
    assert t.View().global == g.global;
    IsBlank(t.Geometry(), old(Cursor(t)), t.View());
    return true;
  }
}
