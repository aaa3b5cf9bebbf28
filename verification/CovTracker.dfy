/** The coverage state as the program keeps it (src/a2gspu_coverage.hpp): packed bitmaps, a
    table of segments sorted for lookup, and the methods that change them in place. Each method
    is proved against the step on sets in `Coverage`.
 */
module CovTracker {

  import opened Options
  import opened Bytes
  import opened Coverage

  // ---------------------------------------------------------------- packed bits

  function Mask(k: nat): bv8
    requires k < 8
  {
    match k
    case 0 => 1
    case 1 => 2
    case 2 => 4
    case 3 => 8
    case 4 => 16
    case 5 => 32
    case 6 => 64
    case _ => 128
  }

  predicate Lit(b: bv8, k: nat)
    requires k < 8
  {
    b & Mask(k) != 0
  }

  function Light(b: bv8, k: nat): bv8
    requires k < 8
  {
    b | Mask(k)
  }

  lemma LightIsExact(b: bv8, j: nat, k: nat)
    requires j < 8 && k < 8
    ensures Lit(Light(b, j), k) <==> (j == k || Lit(b, k))
    ensures !Lit(0, k)
  {
  }

  /** Bit `i` of a packed bitmap. */
  predicate Bit(bs: seq<bv8>, i: nat) { i / 8 < |bs| && Lit(bs[i / 8], i % 8) }

  function SetBit(bs: seq<bv8>, i: nat): (r: seq<bv8>)
    requires i / 8 < |bs|
    ensures |r| == |bs|
  {
    bs[i / 8 := Light(bs[i / 8], i % 8)]
  }

  lemma SameBit(i: nat, j: nat)
    ensures i == j <==> i / 8 == j / 8 && i % 8 == j % 8
  {
  }

  /** Setting a bit sets that bit and no other. */
  lemma SetBitIsExact(bs: seq<bv8>, i: nat, j: nat)
    requires i / 8 < |bs|
    ensures Bit(SetBit(bs, i), j) <==> (i == j || Bit(bs, j))
  {
    hide Lit, Light;
    SameBit(i, j);
    LightIsExact(bs[i / 8], i % 8, j % 8);
  }

  function Zeros(n: nat): (bs: seq<bv8>)
    ensures |bs| == n
  {
    seq(n, _ => 0)
  }

  lemma ZerosAreClear(n: nat, i: nat)
    ensures !Bit(Zeros(n), i)
  {
    hide Lit, Light;
    LightIsExact(0, 0, i % 8);
  }

  /** The addresses whose bits are set in a bitmap of `n` addresses from `lo`. */
  ghost function Marked(lo: nat, n: nat, bs: seq<bv8>): set<nat> { set a | a in Interval(lo, n) && Bit(bs, a - lo) }

  lemma MarkedOne(lo: nat, n: nat, bs: seq<bv8>, i: nat)
    requires i < n <= 8 * |bs|
    ensures Marked(lo, n, SetBit(bs, i)) == Marked(lo, n, bs) + {lo + i}
  {
    hide SetBit, Bit, Interval;
    forall a | a in Interval(lo, n) ensures a in Marked(lo, n, SetBit(bs, i)) <==> a in Marked(lo, n, bs) + {lo + i} {
      SetBitIsExact(bs, i, a - lo);
    }
    assert lo + i in Interval(lo, n);
  }

  // ---------------------------------------------------------------- state

  /** `a2cov_map`. */
  datatype Map = Map(seg: Segment, bits: seq<bv8>, starts: seq<nat>)
  {
    ghost predicate Sized() { |bits| == (|seg.expected| + 7) / 8 && |starts| == |seg.expected| }
    ghost function Hits(): set<nat> { Marked(seg.base, |seg.expected|, bits) }
  }

  function Segs(maps: seq<Map>): (r: seq<Segment>)
    ensures |r| == |maps| && forall k :: 0 <= k < |maps| ==> r[k] == maps[k].seg
  {
    seq(|maps|, k requires 0 <= k < |maps| => maps[k].seg)
  }

  ghost function AllHits(maps: seq<Map>): (r: seq<set<nat>>)
    ensures |r| == |maps| && forall k :: 0 <= k < |maps| ==> r[k] == maps[k].Hits()
  {
    seq(|maps|, k requires 0 <= k < |maps| => maps[k].Hits())
  }

  ghost function AllStarts(maps: seq<Map>): (r: seq<seq<nat>>)
    ensures |r| == |maps| && forall k :: 0 <= k < |maps| ==> r[k] == maps[k].starts
  {
    seq(|maps|, k requires 0 <= k < |maps| => maps[k].starts)
  }

  /** The lookup order names every segment once, by rising base. */
  ghost predicate Ordered(segs: seq<Segment>, order: seq<nat>) {
    && (forall i :: 0 <= i < |order| ==> order[i] < |segs|)
    && (forall k :: 0 <= k < |segs| ==> k in order)
    && (forall i, j :: 0 <= i < j < |order| ==> segs[order[i]].base + |segs[order[i]].expected| <= segs[order[j]].base)
  }

  class Tracker {
    var on: bool
    var lo: nat
    var hi: nat
    var bits: seq<bv8>
    var marked: nat
    var maps: seq<Map>
    var order: seq<nat>
    var error: bool
    var startPc: nat
    var startMode: nat
    var current: Option<nat>
    var offset: nat
    var consumed: nat

    ghost function Geometry(): Plan
      reads this
    {
      Plan(lo, hi, Segs(maps))
    }

    ghost function View(): State
      reads this
      requires lo <= hi
    {
      State(Marked(lo, hi - lo + 1, bits), marked, AllHits(maps), AllStarts(maps), error,
            startPc, startMode, current, offset, consumed)
    }

    /** Armed over a valid plan, with bitmaps of the right size. */
    ghost predicate Valid()
      reads this
    {
      && on && lo <= hi && ValidPlan(Geometry()) && |bits| == (hi - lo) / 8 + 1
      && Ordered(Segs(maps), order)
      && forall k :: 0 <= k < |maps| ==> maps[k].Sized()
    }

    /** Since the maps were bound, an instruction has started (src/a2gspu_coverage.hpp:98-109 runs
        at every instruction; binding itself does not reset the cursor). */
    ghost predicate Ready()
      reads this
    {
      current.Some? ==> current.value < |maps|
    }

    constructor ()
      ensures !on && !error && current.None? && maps == []
    {
      on, lo, hi, bits, marked, maps, order, error := false, 0, 0, [], 0, [], [], false;
      startPc, startMode, current, offset, consumed := 0, 0, None, 0, 0;
    }

    method Off()
      modifies this
      ensures !on && maps == [] && order == [] && bits == [] && marked == 0 && !error
      ensures Cursor(this) == old(Cursor(this))
    {
      maps, order, error, bits, marked, on := [], [], false, [], 0, false;
    }

    /** `a2gspu_cov_init` for a range that has been read. */
    method Init(from: nat, to: nat)
      requires from <= to
      modifies this
      ensures Valid() && Geometry() == Plan(from, to, []) && View() == Blank(Geometry(), old(Cursor(this)))
    {
      hide Bit, SetBit, Marked, Zeros, Blank, Interval, ValidPlan, Ordered;
      EmptyPlanIsValid(from, to);
      maps, order, error := [], [], false;
      lo, hi := from, to;
      bits := Zeros((to - from) / 8 + 1);
      marked, on := 0, true;
      ZeroIsUnmarked(lo, hi - lo + 1, |bits|);
      IsBlank(Geometry(), old(Cursor(this)), View());
    }

    method Reset()
      requires Valid() && Ready()
      modifies this
      ensures Valid() && Ready() && Geometry() == old(Geometry())
      ensures View() == Blank(Geometry(), old(View()))
    {
      hide Bit, SetBit, Marked, Zeros, ValidPlan, Ordered, Map.Hits, Blank, Interval;
      bits, marked := Zeros(|bits|), 0;
      maps := ClearMaps(maps);
      error := false;
      ZeroIsUnmarked(lo, hi - lo + 1, |bits|);
      assert Segs(maps) == old(Segs(maps));
      IsBlank(Geometry(), old(View()), View());
    }

    method Mark(a: nat)
      requires Valid()
      modifies this`bits, this`marked
      ensures Valid() && View() == Coverage.Mark(Geometry(), old(View()), a)
    {
      hide Bit, SetBit, ValidPlan, Ordered, Marked, Segs, AllHits, AllStarts, Map.Sized;
      if a < lo || a > hi { return; }
      MarkedMeans(lo, hi - lo + 1, bits, a);
      if !Bit(bits, a - lo) {
        MarkedOne(lo, hi - lo + 1, bits, a - lo);
        bits := SetBit(bits, a - lo);
        marked := marked + 1;
      }
    }

    method Begin(pc: nat, mode: nat)
      requires Valid()
      modifies this`startPc, this`startMode, this`current, this`offset, this`consumed
      ensures Valid() && Ready() && View() == Coverage.Begin(Geometry(), old(View()), pc, mode)
    {
      hide Bit, SetBit, ValidPlan, Ordered, Marked, AllHits, AllStarts, Map.Sized, Owner;
      ghost var segs := Segs(maps);
      PlanIsApart(Geometry());
      startPc, startMode, current, consumed := pc, mode, None, 0;
      var at := UpperBound(maps, order, pc);
      LookupIsOwner(segs, order, at, pc);
      if at != 0 {
        var index := order[at - 1];
        if maps[index].seg.Contains(pc) {
          current, offset := Some(index), pc - maps[index].seg.base;
        }
      }
    }

    method MappedByte(pc: nat, value: byte) returns (counts: bool)
      requires Valid() && Ready()
      modifies this`maps, this`error, this`consumed
      ensures Valid() && Ready() && Geometry() == old(Geometry())
      ensures (View(), counts) == Coverage.MappedByte(Geometry(), old(View()), pc, value)
    {
      hide Bit, SetBit, ValidPlan, Ordered, Marked, Segs, AllHits, AllStarts, Interval;
      if error || current.None? { return false; }
      var c := current.value;
      var m := maps[c];
      var off := offset + consumed;
      consumed := consumed + 1;
      if off >= |m.seg.expected| || pc != m.seg.base + off {
        error := true;
        return false;
      }
      if value != m.seg.expected[off] {
        error := true;
        return false;
      }
      var starts := m.starts;
      if pc == startPc {
        if starts[off] != 0 && starts[off] != startMode {
          error := true;
          return false;
        }
        starts := starts[off := startMode];
      }
      HitOne(maps, c, off, starts);
      maps := maps[c := Map(m.seg, SetBit(m.bits, off), starts)];
      return true;
    }

    method Fetch(pc: nat, values: seq<Option<byte>>)
      requires Valid() && Ready()
      modifies this
      ensures Valid() && Ready() && Geometry() == old(Geometry())
      ensures View() == Coverage.Fetch(Geometry(), old(View()), pc, values, |values|)
    {
      hide Bit, SetBit, ValidPlan, Ordered, Marked, Segs, AllHits, AllStarts, Interval, Coverage.Mark, Coverage.MappedByte, Wrapped;
      var k := 0;
      while k < |values|
        invariant 0 <= k <= |values| && Valid() && Ready() && Geometry() == old(Geometry())
        invariant View() == Coverage.Fetch(Geometry(), old(View()), pc, values, k)
      {
        var a := Wrapped(pc, k);
        var skip := false;
        if maps != [] {
          if values[k].None? {
            skip := true;
          } else {
            var counts := MappedByte(a, values[k].value);
            skip := !counts;
          }
        }
        if !skip { Mark(a); }
        k := k + 1;
      }
    }

    /** `a2gspu_cov_write`: evidence with a mapping error behind it is not written. */
    method MayWrite() returns (ok: bool)
      ensures on && lo <= hi ==> ok == Writable(Geometry(), View())
      ensures !on ==> !ok
    {
      return on && !(maps != [] && error);
    }
  }

  /** Binary search for the first segment that begins past `pc`. */
  method UpperBound(maps: seq<Map>, order: seq<nat>, pc: nat) returns (at: nat)
    requires Ordered(Segs(maps), order)
    ensures Splits(Segs(maps), order, at, pc)
  {
    hide Segs;
    var end := |order|;
    at := 0;
    while at < end
      invariant 0 <= at <= end <= |order|
      invariant forall i :: 0 <= i < at ==> maps[order[i]].seg.base <= pc
      invariant forall i :: end <= i < |order| ==> pc < maps[order[i]].seg.base
    {
      var mid := (at + end) / 2;
      if pc < maps[order[mid]].seg.base { end := mid; } else { at := mid + 1; }
    }
  }

  ghost predicate Splits(segs: seq<Segment>, order: seq<nat>, at: nat, pc: nat)
    requires Ordered(segs, order)
  {
    && at <= |order| && (forall i :: 0 <= i < at ==> segs[order[i]].base <= pc)
    && forall i :: at <= i < |order| ==> pc < segs[order[i]].base
  }

  lemma PlanIsApart(p: Plan)
    requires ValidPlan(p)
    ensures Apart(p.segs)
  {
  }

  /** The segment before that place is the only one that can hold the address. */
  lemma LookupIsOwner(segs: seq<Segment>, order: seq<nat>, at: nat, pc: nat)
    requires Ordered(segs, order) && Splits(segs, order, at, pc) && Apart(segs)
    ensures at != 0 ==> at <= |order| && order[at - 1] < |segs|
    ensures Owner(segs, pc) == if at != 0 && segs[order[at - 1]].Contains(pc) then Some(order[at - 1]) else None
  {
    hide Owner, Ordered, Apart;
    OrderedMeans(segs, order);
    var o := Owner(segs, pc);
    if o.Some? {
      assert o.value in order;
      var i :| 0 <= i < |order| && order[i] == o.value;
      assert i < at;
      if i < at - 1 { OrderedPair(segs, order, i, at - 1); }
    }
    if at != 0 && segs[order[at - 1]].Contains(pc) && o.Some? { ApartMeans(segs, o.value, order[at - 1], pc); }
  }

  lemma OrderedMeans(segs: seq<Segment>, order: seq<nat>)
    requires Ordered(segs, order)
    ensures forall i :: 0 <= i < |order| ==> order[i] < |segs|
    ensures forall k :: 0 <= k < |segs| ==> k in order
  {
  }

  lemma OrderedPair(segs: seq<Segment>, order: seq<nat>, i: nat, j: nat)
    requires Ordered(segs, order) && i < j < |order|
    ensures segs[order[i]].base + |segs[order[i]].expected| <= segs[order[j]].base
  {
  }

  lemma ApartMeans(segs: seq<Segment>, j: nat, k: nat, a: nat)
    requires Apart(segs) && j < |segs| && k < |segs| && segs[j].Contains(a) && segs[k].Contains(a)
    ensures j == k
  {
  }

  lemma MarkedMeans(lo: nat, n: nat, bs: seq<bv8>, a: nat)
    requires lo <= a < lo + n
    ensures a in Marked(lo, n, bs) <==> Bit(bs, a - lo)
  {
    hide Bit, Interval;
    assert a in Interval(lo, n);
  }

  /** The cursor fields, which arming leaves as they are. */
  ghost function Cursor(t: Tracker): State
    reads t
  {
    State({}, 0, [], [], false, t.startPc, t.startMode, t.current, t.offset, t.consumed)
  }

  lemma ZeroIsUnmarked(lo: nat, n: nat, size: nat)
    ensures Marked(lo, n, Zeros(size)) == {}
  {
    hide Zeros, Bit, Interval;
    forall a | a in Interval(lo, n) ensures a !in Marked(lo, n, Zeros(size)) { ZerosAreClear(size, a - lo); }
  }

  lemma EmptyPlanIsValid(lo: nat, hi: nat)
    requires lo <= hi
    ensures ValidPlan(Plan(lo, hi, [])) && Ordered([], []) && Segs([]) == []
  {
  }

  method ClearMaps(maps: seq<Map>) returns (r: seq<Map>)
    requires forall k :: 0 <= k < |maps| ==> maps[k].Sized()
    ensures |r| == |maps|
    ensures forall k :: 0 <= k < |maps| ==> r[k].seg == maps[k].seg && r[k].Sized() && r[k].Hits() == {}
    ensures forall k :: 0 <= k < |maps| ==> r[k].starts == seq(|maps[k].seg.expected|, _ => 0)
  {
    hide Bit, Zeros, Marked;
    r := [];
    while |r| < |maps|
      invariant |r| <= |maps|
      invariant forall k :: 0 <= k < |r| ==> r[k].seg == maps[k].seg && r[k].Sized() && r[k].Hits() == {}
      invariant forall k :: 0 <= k < |r| ==> r[k].starts == seq(|maps[k].seg.expected|, _ => 0)
    {
      var m := maps[|r|];
      ZeroIsUnmarked(m.seg.base, |m.seg.expected|, |m.bits|);
      r := r + [Map(m.seg, Zeros(|m.bits|), seq(|m.starts|, _ => 0))];
    }
  }

  /** One more bit in one segment. */
  lemma HitOne(maps: seq<Map>, c: nat, off: nat, starts: seq<nat>)
    requires c < |maps| && maps[c].Sized() && off < |maps[c].seg.expected| && |starts| == |maps[c].starts|
    ensures var m := maps[c];
            var after := maps[c := Map(m.seg, SetBit(m.bits, off), starts)];
            && Segs(after) == Segs(maps) && after[c].Sized()
            && AllHits(after) == AllHits(maps)[c := AllHits(maps)[c] + {m.seg.base + off}]
            && AllStarts(after) == AllStarts(maps)[c := starts]
  {
    hide Bit, SetBit, Marked;
    var m := maps[c];
    MarkedOne(m.seg.base, |m.seg.expected|, m.bits, off);
  }
}
