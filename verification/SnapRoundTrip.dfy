/** The snapshot writer against the layout reader: what `a2gspu_snapshot.cpp` writes,
    `a2gspu_snapdiff.hpp` finds, at the offsets where the bytes are; and device framing is
    accepted only when it is what the writer would have written.
 */
module SnapRoundTrip {
  import opened Options
  import opened Bytes
  import opened Snapshot
  import opened SnapLayout

  // ---------------------------------------------------------------- names

  lemma {:induction false} NulIsAt(n: seq<byte>, tail: seq<byte>)
    requires (forall i :: 0 <= i < |n| ==> n[i] != 0) && (tail == [] || tail[0] == 0)
    ensures NulAt(n + tail) == |n|
  {
    if n == [] {
      assert n + tail == tail;
    } else {
      assert (n + tail)[1..] == n[1..] + tail;
      NulIsAt(n[1..], tail);
    }
  }

  /** The padded field and the checks on it are inverse to each other. */
  lemma NameRoundTrip(n: seq<byte>)
    requires ValidName(n)
    ensures NameField(Padded(n)) == Some(n)
  {
    var zeros: seq<byte> := seq(8 - |n|, _ => 0);
    NulIsAt(n, zeros);
    hide NulAt;
    var p := Padded(n);
    assert p == n + zeros && p[..|n|] == n;
    assert forall i :: 0 <= i < |n| ==> p[i] == n[i];
  }

  lemma NameIsExact(p: seq<byte>)
    requires |p| == 8 && NameField(p).Some?
    ensures ValidName(NameField(p).value) && Padded(NameField(p).value) == p
  {
    hide NulAt;
    var n := NameField(p).value;
    assert forall i :: 0 <= i < |n| ==> n[i] == p[i];
    assert |n| <= 7;
    assert p == n + seq(8 - |n|, _ => 0);
  }

  // ---------------------------------------------------------------- one device block

  predicate DeviceFits(d: Device) { ValidName(d.name) && 1 <= d.version < U32 && |Flat(d.payload)| < U32 }

  function Placed(d: Device, at: nat): Section { Section(at + 20, |Flat(d.payload)|, d.version) }

  lemma OneBlockParses(front: seq<byte>, d: Device, tail: seq<byte>, count: nat, sections: Sections)
    requires DeviceFits(d) && count < MAX_DEVICES && DeviceSection(d.name) !in sections
    ensures var data := front + Block(d) + tail;
            ParseDevices(data, |front|, count, sections) ==
            ParseDevices(data, |front + Block(d)|, count + 1, sections[DeviceSection(d.name) := Placed(d, |front|)])
  {
    hide Flat, Block, NameField, Word, Padded;
    BlockShape(front, d, tail);
    NameRoundTrip(d.name);
  }

  // ---------------------------------------------------------------- all device blocks

  ghost predicate DevicesFit(ds: seq<Device>, sections: Sections) {
    && (forall i :: 0 <= i < |ds| ==> DeviceFits(ds[i]) && DeviceSection(ds[i].name) !in sections)
    && (forall i, j :: 0 <= i < j < |ds| ==> ds[i].name != ds[j].name)
  }

  function Place(ds: seq<Device>, at: nat, sections: Sections): Sections
    decreases |ds|
  {
    if ds == [] then sections
    else Place(ds[1..], at + |Block(ds[0])|, sections[DeviceSection(ds[0].name) := Placed(ds[0], at)])
  }

  lemma {:induction false} BlocksParse(front: seq<byte>, ds: seq<Device>, more: seq<byte>, count: nat, sections: Sections)
    requires DevicesFit(ds, sections) && count + |ds| <= MAX_DEVICES
    ensures var data := front + Blocks(ds) + (LE(4, END) + more);
            ParseDevices(data, |front|, count, sections) == At(|front + Blocks(ds)| + 4, Place(ds, |front|, sections))
    decreases |ds|
  {
    hide LE, Block, DeviceFits, ParseDevices;
    var data := front + Blocks(ds) + (LE(4, END) + more);
    if ds == [] {
      SentinelParses(front, more, count, sections);
      assert data == front + LE(4, END) + more;
    } else {
      var d, rest := ds[0], Blocks(ds[1..]);
      assert data == front + Block(d) + (rest + (LE(4, END) + more));
      OneBlockParses(front, d, rest + (LE(4, END) + more), count, sections);
      assert data == (front + Block(d)) + rest + (LE(4, END) + more);
      var sections' := sections[DeviceSection(d.name) := Placed(d, |front|)];
      assert DevicesFit(ds[1..], sections');
      BlocksParse(front + Block(d), ds[1..], more, count + 1, sections');
    }
  }

  lemma SentinelParses(front: seq<byte>, more: seq<byte>, count: nat, sections: Sections)
    ensures var data := front + LE(4, END) + more;
            ParseDevices(data, |front|, count, sections) == At(|front| + 4, sections)
  {
    hide LE;
    Pow256Values();
    WordAt(front, 4, END, more);
  }

  function DeviceNames(ds: seq<Device>): set<SectionName> { set j | 0 <= j < |ds| :: DeviceSection(ds[j].name) }

  /** Where every section ends up: device `i` begins 20 bytes into its block, and nothing that
      was there before moves. */
  lemma {:induction false} PlaceIsExact(ds: seq<Device>, at: nat, sections: Sections, i: nat)
    requires DevicesFit(ds, sections) && i < |ds|
    ensures var r := Place(ds, at, sections);
            DeviceSection(ds[i].name) in r && r[DeviceSection(ds[i].name)] == Placed(ds[i], at + |Blocks(ds[..i])|)
    decreases |ds|
  {
    hide Block, DeviceFits, Placed;
    var sections' := sections[DeviceSection(ds[0].name) := Placed(ds[0], at)];
    assert DevicesFit(ds[1..], sections');
    if i == 0 {
      PlaceKeeps(ds[1..], at + |Block(ds[0])|, sections');
    } else {
      PlaceIsExact(ds[1..], at + |Block(ds[0])|, sections', i - 1);
      assert ds[..i][1..] == ds[1..][..i - 1];
    }
  }

  lemma {:induction false} PlaceKeeps(ds: seq<Device>, at: nat, sections: Sections)
    requires DevicesFit(ds, sections)
    ensures var r := Place(ds, at, sections);
            r.Keys == sections.Keys + DeviceNames(ds) && forall k <- sections :: r[k] == sections[k]
    decreases |ds|
  {
    hide Block, DeviceFits, Placed;
    if ds != [] {
      var sections' := sections[DeviceSection(ds[0].name) := Placed(ds[0], at)];
      assert DevicesFit(ds[1..], sections');
      PlaceKeeps(ds[1..], at + |Block(ds[0])|, sections');
      NamesSplit(ds);
      hide DeviceNames;
      assert forall k <- sections :: k in sections';
    }
  }

  lemma NamesSplit(ds: seq<Device>)
    requires ds != []
    ensures DeviceNames(ds) == {DeviceSection(ds[0].name)} + DeviceNames(ds[1..])
  {
    forall j | 0 < j < |ds| ensures ds[j] == ds[1..][j - 1] {}
  }

  // ---------------------------------------------------------------- the MMU block

  function PartSize(p: Part): nat {
    match p
    case Plain(_, size) => size
    case Pages(_, counted, n, _) => (if counted then 4 else 0) + 10 * n
  }

  predicate PartOk(bs: seq<byte>, p: Part)
    requires |bs| == PartSize(p)
  {
    match p
    case Plain(_, _) => true
    case Pages(_, counted, n, regions) =>
      && (counted ==> Word(bs, 0, 4) == n)
      && RefsOk(bs, if counted then 4 else 0, 2 * n, regions)
  }

  /** An MMU block of the given geometry: its sections end to end, page maps valid. */
  predicate MmuFits(mmu: seq<byte>, parts: seq<Part>)
    decreases |parts|
  {
    if parts == [] then mmu == []
    else
      var n := PartSize(parts[0]);
      n <= |mmu| && PartOk(mmu[..n], parts[0]) && MmuFits(mmu[n..], parts[1..])
  }

  function PartBegin(p: Part, at: nat): nat { if p.Pages? && p.counted then at + 4 else at }

  function PlaceParts(parts: seq<Part>, at: nat, sections: Sections): Sections
    decreases |parts|
  {
    if parts == [] then sections
    else
      var p := parts[0];
      var size := if p.Plain? then p.size else 10 * p.n;
      PlaceParts(parts[1..], at + PartSize(p), sections[Fixed(p.name) := Section(PartBegin(p, at), size, 0)])
  }

  ghost predicate FreshNames(parts: seq<Part>, sections: Sections) {
    && (forall i :: 0 <= i < |parts| ==> Fixed(parts[i].name) !in sections)
    && (forall i, j :: 0 <= i < j < |parts| ==> parts[i].name != parts[j].name)
  }

  lemma PartParses(front: seq<byte>, bs: seq<byte>, tail: seq<byte>, p: Part, sections: Sections)
    requires |bs| == PartSize(p) && PartOk(bs, p) && Fixed(p.name) !in sections
    ensures var size := if p.Plain? then p.size else 10 * p.n;
            ParsePart(front + bs + tail, |front|, p, sections) ==
            At(|front + bs|, sections[Fixed(p.name) := Section(PartBegin(p, |front|), size, 0)])
  {
    hide FromLE, PageRefOk;
    var data := front + bs + tail;
    if p.Pages? {
      var k := if p.counted then 4 else 0;
      if p.counted { assert data[|front|..|front| + 4] == bs[0..4]; }
      RefsShift(front, bs, tail, k, 2 * p.n, p.regions);
    }
  }

  lemma RefsShift(front: seq<byte>, bs: seq<byte>, tail: seq<byte>, k: nat, count: nat, regions: seq<nat>)
    requires Has(bs, k, 5 * count) && RefsOk(bs, k, count, regions)
    ensures RefsOk(front + bs + tail, |front| + k, count, regions)
  {
    hide FromLE, PageRefOk;
    var data, at := front + bs + tail, |front| + k;
    forall i | 0 <= i < count
      ensures PageRefOk(data[at + 5 * i], FromLE(data[at + 5 * i + 1..at + 5 * i + 5]), regions)
    {
      SliceShift(front, bs, tail, k + 5 * i);
      assert PageRefOk(bs[k + 5 * i], FromLE(bs[k + 5 * i + 1..k + 5 * i + 5]), regions);
    }
  }

  lemma SliceShift(front: seq<byte>, bs: seq<byte>, tail: seq<byte>, j: nat)
    requires j + 5 <= |bs|
    ensures var data := front + bs + tail;
            data[|front| + j] == bs[j] && data[|front| + j + 1..|front| + j + 5] == bs[j + 1..j + 5]
  {
  }

  lemma {:induction false} PartsParse(front: seq<byte>, mmu: seq<byte>, tail: seq<byte>, parts: seq<Part>, sections: Sections)
    requires MmuFits(mmu, parts) && FreshNames(parts, sections)
    ensures ParseParts(front + mmu + tail, |front|, parts, sections) ==
            At(|front + mmu|, PlaceParts(parts, |front|, sections))
    decreases |parts|
  {
    hide PartOk, ParsePart;
    var data := front + mmu + tail;
    if parts != [] {
      var p := parts[0];
      var n := PartSize(p);
      var bs, rest := mmu[..n], mmu[n..];
      assert data == front + bs + (rest + tail);
      PartParses(front, bs, rest + tail, p, sections);
      assert data == (front + bs) + rest + tail;
      var size := if p.Plain? then p.size else 10 * p.n;
      var sections' := sections[Fixed(p.name) := Section(PartBegin(p, |front|), size, 0)];
      assert FreshNames(parts[1..], sections');
      PartsParse(front + bs, rest, tail, parts[1..], sections');
    }
  }

  // ---------------------------------------------------------------- the trailer

  lemma TrailerParses(front: seq<byte>, manifest: seq<byte>, gs: bool)
    requires ManifestOk(manifest, gs)
    ensures var data := front + Trailer(manifest);
            ParseTrailer(data, |front|, gs) == At(|data|, Some(manifest))
  {
    hide LE, Word, Trailer, Disagrees;
    TrailerShape(front, manifest);
  }

  // ---------------------------------------------------------------- the whole file

  lemma IieNamesAreFresh(prefix: string)
    requires prefix == "iie" || prefix == "megaii"
    ensures FreshNames(IieParts(prefix), map[])
  {
    var ps := IieParts(prefix);
    assert |ps[0].name| == |prefix| + 9 && |ps[1].name| == |prefix| + 4 && |ps[2].name| == |prefix| + 6;
    assert |ps[3].name| == |prefix| + 19 && |ps[4].name| == |prefix| + 15;
  }

  lemma GsNamesAreFresh(ram: nat, rom: nat)
    ensures FreshNames(GsParts(ram, rom), map[])
  {
    IieNamesAreFresh("megaii");
    var ps, qs := GsParts(ram, rom), IieParts("megaii");
    assert forall i :: 0 <= i < |qs| ==> qs[i].name[0] == 'm';
    assert ps[0].name[0] == ps[1].name[0] == ps[2].name[0] == 'i';
    assert |ps[0].name| == 13 && |ps[1].name| == 8 && |ps[2].name| == 10;
    hide IieParts;
    forall i, j | 0 <= i < j < |ps| ensures ps[i].name != ps[j].name {
      if j >= 3 {
        assert ps[j] == qs[j - 3];
        if i >= 3 { assert ps[i] == qs[i - 3]; }
      }
    }
  }

  /** A snapshot's memory: for the IIgs, the bank counts and then the sections. */
  datatype Memory = Iie(mmu: seq<byte>) | Gs(ram: nat, rom: nat, body: seq<byte>)

  predicate MemoryFits(m: Memory) {
    match m
    case Iie(mmu) => MmuFits(mmu, IieParts("iie"))
    case Gs(ram, rom, body) => 1 <= ram <= 256 && 1 <= rom <= 4 && MmuFits(body, GsParts(ram, rom))
  }

  function MemoryHead(m: Memory): seq<byte> { if m.Iie? then [] else LE(4, m.ram) + LE(4, m.rom) }

  function MemoryBody(m: Memory): seq<byte> { if m.Iie? then m.mmu else m.body }

  function MemoryBytes(m: Memory): seq<byte> { MemoryHead(m) + MemoryBody(m) }

  function MemoryParts(m: Memory): seq<Part> { if m.Iie? then IieParts("iie") else GsParts(m.ram, m.rom) }

  /** The sections of a written file: memory right after the CPU block, then the devices. */
  function WrittenSections(c: Cpu, m: Memory, ds: seq<Device>): Sections {
    var at := |CpuBlock(c) + MemoryHead(m)|;
    Place(ds, |CpuBlock(c) + MemoryBytes(m)|, PlaceParts(MemoryParts(m), at, map[]))
  }

  lemma {:induction false} PartsHoldNoDevice(parts: seq<Part>, at: nat, sections: Sections)
    requires forall k <- sections :: k.Fixed?
    ensures forall k <- PlaceParts(parts, at, sections) :: k.Fixed?
    decreases |parts|
  {
    if parts != [] {
      var p := parts[0];
      var size := if p.Plain? then p.size else 10 * p.n;
      PartsHoldNoDevice(parts[1..], at + PartSize(p), sections[Fixed(p.name) := Section(PartBegin(p, at), size, 0)]);
    }
  }

  /** Everything after the memory of a written file. */
  lemma TailParses(front: seq<byte>, gs: bool, ds: seq<Device>, manifest: seq<byte>, mmu: Sections, ram: nat, rom: nat)
    requires Has(front, 8, Size(CPU_WIDTHS)) && DevicesFit(ds, mmu) && |ds| <= MAX_DEVICES && ManifestOk(manifest, gs)
    ensures var data := front + Blocks(ds) + (LE(4, END) + Trailer(manifest));
            AfterMmu(data, gs, |front|, mmu, ram, rom) ==
            At(|data|, Layout(Place(ds, |front|, mmu), ReadFields(data, 8, CPU_WIDTHS), ram, rom, Some(manifest)))
  {
    hide LE, Blocks, Place, ParseDevices, ParseTrailer, Trailer, ManifestOk, ReadFields, Size, DevicesFit;
    var data := front + Blocks(ds) + (LE(4, END) + Trailer(manifest));
    BlocksParse(front, ds, Trailer(manifest), 0, mmu);
    assert data == (front + Blocks(ds) + LE(4, END)) + Trailer(manifest);
    TrailerParses(front + Blocks(ds) + LE(4, END), manifest, gs);
  }

  /** Every file the writer produces, of either layout, with any device payloads, parses to
      its end and to exactly its registers, bank counts, sections and manifest. */
  lemma WrittenFileParses(c: Cpu, m: Memory, ds: seq<Device>, manifest: seq<byte>)
    requires CpuFits(c) && MemoryFits(m) && DevicesFit(ds, map[]) && |ds| <= MAX_DEVICES && ManifestOk(manifest, m.Gs?)
    ensures var data := FileBytes(c, MemoryBytes(m), ds, manifest);
            ParseLayout(data, m.Gs?) ==
            At(|data|, Layout(WrittenSections(c, m, ds), Values(CpuFields(c)),
                              if m.Gs? then m.ram else 0, if m.Gs? then m.rom else 0, Some(manifest)))
  {
    hide LE, Blocks, Trailer, CpuBlock, CpuFits, ManifestOk, MemoryFits, DevicesFit, IieParts, GsParts, Place, PlaceParts,
         ParseParts, AfterMmu, ReadFields, Size, Word, CpuFields, Values, FileBytes, MemoryHead, MemoryBody, MemoryBytes;
    var cpu, head, body := CpuBlock(c), MemoryHead(m), MemoryBody(m);
    var end := LE(4, END) + Trailer(manifest);
    var data := FileBytes(c, MemoryBytes(m), ds, manifest);
    FileRegroups(c, m, ds, manifest);
    RegistersReadBack(c, head + body + (Blocks(ds) + end));
    MemoryParses(cpu, m, Blocks(ds) + end);
    MemoryBanks(m);
    var mmu := PlaceParts(MemoryParts(m), |cpu + head|, map[]);
    DevicesStillFit(ds, MemoryParts(m), |cpu + head|);
    TailParses(cpu + head + body, m.Gs?, ds, manifest, mmu, if m.Gs? then m.ram else 0, if m.Gs? then m.rom else 0);
  }

  lemma MemoryBanks(m: Memory)
    requires MemoryFits(m)
    ensures m.Iie? ==> MemoryHead(m) == []
    ensures m.Gs? ==> |MemoryHead(m)| == 8 && 1 <= m.ram <= 256 && 1 <= m.rom <= 4
  {
    hide MmuFits;
  }

  lemma FileRegroups(c: Cpu, m: Memory, ds: seq<Device>, manifest: seq<byte>)
    ensures var cpu, head, body := CpuBlock(c), MemoryHead(m), MemoryBody(m);
            var end := LE(4, END) + Trailer(manifest);
            var data := FileBytes(c, MemoryBytes(m), ds, manifest);
            && data == cpu + (head + body + (Blocks(ds) + end))
            && data == (cpu + head) + body + (Blocks(ds) + end)
            && data == (cpu + head + body) + Blocks(ds) + end
            && cpu + head + body == cpu + MemoryBytes(m) && |cpu + head| == |cpu| + |head| <= |cpu + head + body|
  {
    hide CpuBlock, MemoryHead, MemoryBody, Blocks, LE, Trailer;
  }

  lemma DevicesStillFit(ds: seq<Device>, parts: seq<Part>, at: nat)
    requires DevicesFit(ds, map[])
    ensures DevicesFit(ds, PlaceParts(parts, at, map[]))
  {
    hide DeviceFits;
    PartsHoldNoDevice(parts, at, map[]);
  }

  lemma MemoryParses(cpu: seq<byte>, m: Memory, tail: seq<byte>)
    requires MemoryFits(m)
    ensures var head := MemoryHead(m);
            var data := (cpu + head) + MemoryBody(m) + tail;
            && ParseParts(data, |cpu + head|, MemoryParts(m), map[]) ==
               At(|cpu + head + MemoryBody(m)|, PlaceParts(MemoryParts(m), |cpu + head|, map[]))
            && (m.Gs? ==> Has(data, |cpu|, 8) && Word(data, |cpu|, 4) == m.ram && Word(data, |cpu| + 4, 4) == m.rom)
  {
    hide LE, MmuFits, IieParts, GsParts, FreshNames, PlaceParts, ParseParts, Word;
    var head, body := MemoryHead(m), MemoryBody(m);
    var data := (cpu + head) + body + tail;
    if m.Gs? {
      GsNamesAreFresh(m.ram, m.rom);
      BanksParse(cpu, m.ram, m.rom, body + tail);
      assert data == cpu + LE(4, m.ram) + LE(4, m.rom) + (body + tail);
    } else {
      IieNamesAreFresh("iie");
    }
    PartsParse(cpu + head, body, tail, MemoryParts(m), map[]);
  }

  lemma BanksParse(cpu: seq<byte>, ram: nat, rom: nat, rest: seq<byte>)
    requires ram < U32 && rom < U32
    ensures var data := cpu + LE(4, ram) + LE(4, rom) + rest;
            Has(data, |cpu|, 8) && Word(data, |cpu|, 4) == ram && Word(data, |cpu| + 4, 4) == rom
  {
    hide LE, Word;
    var a, b := LE(4, ram), LE(4, rom);
    Pow256Values();
    assert cpu + a + b + rest == cpu + a + (b + rest);
    WordAt(cpu, 4, ram, b + rest);
    WordAt(cpu + a, 4, rom, rest);
  }

  /** The section of each device lies where its payload's bytes are. */
  lemma SectionsHoldPayloads(c: Cpu, m: Memory, ds: seq<Device>, manifest: seq<byte>, i: nat)
    requires DevicesFit(ds, map[]) && i < |ds|
    ensures var data := FileBytes(c, MemoryBytes(m), ds, manifest);
            var sections := WrittenSections(c, m, ds);
            && DeviceSection(ds[i].name) in sections
            && var sec := sections[DeviceSection(ds[i].name)];
               && sec.version == ds[i].version && sec.begin + sec.size <= |data|
               && data[sec.begin..sec.begin + sec.size] == Flat(ds[i].payload)
  {
    hide LE, CpuBlock, MemoryBytes, MemoryHead, MemoryParts, PlaceParts, Block, Blocks, Trailer, Place, Flat, Word,
         DevicesFit, DeviceFits, Padded;
    var front := CpuBlock(c) + MemoryBytes(m);
    var at := |CpuBlock(c) + MemoryHead(m)|;
    DevicesStillFit(ds, MemoryParts(m), at);
    PlaceIsExact(ds, |front|, PlaceParts(MemoryParts(m), at, map[]), i);
    BlocksSplit(ds, i);
    var before, after := Blocks(ds[..i]), Blocks(ds[i + 1..]) + LE(4, END) + Trailer(manifest);
    Around(front, before, Block(ds[i]), Blocks(ds[i + 1..]), LE(4, END), Trailer(manifest));
    FitsAt(ds, i);
    BlockShape(front + before, ds[i], after);
  }

  lemma FitsAt(ds: seq<Device>, i: nat)
    requires DevicesFit(ds, map[]) && i < |ds|
    ensures DeviceFits(ds[i]) && ds[i].version < U32 && |Flat(ds[i].payload)| < U32
  {
    hide Flat;
  }

  lemma Around(front: seq<byte>, a: seq<byte>, b: seq<byte>, c: seq<byte>, d: seq<byte>, e: seq<byte>)
    ensures front + (a + b + c) + d + e == (front + a) + b + (c + d + e)
  {
  }

  lemma {:induction false} BlocksSplit(ds: seq<Device>, i: nat)
    requires i < |ds|
    ensures Blocks(ds) == Blocks(ds[..i]) + Block(ds[i]) + Blocks(ds[i + 1..])
  {
    hide Block;
    if i > 0 {
      BlocksSplit(ds[1..], i - 1);
      assert ds[..i][1..] == ds[1..][..i - 1] && ds[1..][i..] == ds[i + 1..];
    }
  }

  // ---------------------------------------------------------------- only what was written

  /** The converse for device framing: bytes that are accepted are the blocks of some devices
      that the writer could have been given, followed by the sentinel. */
  lemma {:induction false} AcceptedFramingIsWritten(data: seq<byte>, pos: nat, count: nat, sections: Sections)
    returns (ds: seq<Device>)
    requires ParseDevices(data, pos, count, sections).At?
    ensures var r := ParseDevices(data, pos, count, sections);
            && pos <= r.pos <= |data| && data[pos..r.pos] == Blocks(ds) + LE(4, END)
            && DevicesFit(ds, sections) && (count <= MAX_DEVICES ==> count + |ds| <= MAX_DEVICES)
            && r.value == Place(ds, pos, sections)
    decreases |data| - pos
  {
    hide Block, DeviceFits, NameField, LE, ParseDevices, Placed, FromLE;
    AcceptedHasWord(data, pos, count, sections);
    if Word(data, pos, 4) == END {
      AcceptedEnd(data, pos, count, sections);
      ds := [];
    } else {
      var d := AcceptedBlock(data, pos, count, sections);
      var next := pos + |Block(d)|;
      var s := Placed(d, pos);
      var rest := AcceptedFramingIsWritten(data, next, count + 1, sections[DeviceSection(d.name) := s]);
      ds := [d] + rest;
      assert ds[1..] == rest && ds[0] == d;
      var end := ParseDevices(data, pos, count, sections).pos;
      assert data[pos..end] == data[pos..next] + data[next..end];
      OneMoreFits(d, rest, sections, s);
    }
  }

  lemma AcceptedHasWord(data: seq<byte>, pos: nat, count: nat, sections: Sections)
    requires ParseDevices(data, pos, count, sections).At?
    ensures Has(data, pos, 4)
  {
  }

  lemma AcceptedEnd(data: seq<byte>, pos: nat, count: nat, sections: Sections)
    requires Has(data, pos, 4) && Word(data, pos, 4) == END
    ensures ParseDevices(data, pos, count, sections) == At(pos + 4, sections) && data[pos..pos + 4] == LE(4, END)
  {
    hide LE;
    WordIsExact(data[pos..pos + 4]);
  }

  lemma OneMoreFits(d: Device, rest: seq<Device>, sections: Sections, s: Section)
    requires DeviceFits(d) && DeviceSection(d.name) !in sections
    requires DevicesFit(rest, sections[DeviceSection(d.name) := s])
    ensures DevicesFit([d] + rest, sections)
  {
    hide DeviceFits;
    var ds := [d] + rest;
    forall i, j | 0 <= i < j < |ds| ensures ds[i].name != ds[j].name {
      if i == 0 { assert DeviceSection(rest[j - 1].name) !in sections[DeviceSection(d.name) := s]; }
    }
  }

  lemma AcceptedBlock(data: seq<byte>, pos: nat, count: nat, sections: Sections) returns (d: Device)
    requires ParseDevices(data, pos, count, sections).At? && Has(data, pos, 4) && Word(data, pos, 4) != END
    ensures DeviceFits(d) && DeviceSection(d.name) !in sections && count < MAX_DEVICES && |Block(d)| >= 20
    ensures pos + |Block(d)| <= |data| && data[pos..pos + |Block(d)|] == Block(d)
    ensures ParseDevices(data, pos, count, sections) ==
            ParseDevices(data, pos + |Block(d)|, count + 1, sections[DeviceSection(d.name) := Placed(d, pos)])
  {
    hide NameField, Word;
    var padded := data[pos + 4..pos + 12];
    var name := NameField(padded).value;
    var version, length := Word(data, pos + 12, 4), Word(data, pos + 16, 4);
    var body := data[pos + 20..pos + 20 + length];
    d := Device(name, version, [Raw(body)]);
    var next := sections[DeviceSection(name) := Section(pos + 20, length, version)];
    assert ParseDevices(data, pos, count, sections) == ParseDevices(data, pos + 20 + length, count + 1, next);
    assert version != 0 && Word(data, pos, 4) == DEV;
    hide ParseDevices;
    BlockOfBytes(data, pos, name, version, length);
  }

  lemma BlockOfBytes(data: seq<byte>, pos: nat, name: seq<byte>, version: nat, length: nat)
    requires Has(data, pos, 20) && Has(data, pos + 20, length) && Word(data, pos, 4) == DEV
    requires NameField(data[pos + 4..pos + 12]) == Some(name)
    requires version == Word(data, pos + 12, 4) && length == Word(data, pos + 16, 4)
    ensures var d := Device(name, version, [Raw(data[pos + 20..pos + 20 + length])]);
            && Block(d) == data[pos..pos + 20 + length] && |Flat(d.payload)| == length
            && ValidName(name) && version < U32 && length < U32
  {
    hide LE, Word, Padded, Flat, NameField, ValidName;
    var padded, body := data[pos + 4..pos + 12], data[pos + 20..pos + 20 + length];
    NameIsExact(padded);
    FlatRaw(body);
    ExactWords(data, pos);
    var d := Device(name, version, [Raw(body)]);
    assert Block(d) == LE(4, DEV) + padded + LE(4, version) + LE(4, length) + body;
    SplitBlock(data, pos, length);
  }

  lemma SplitBlock(data: seq<byte>, pos: nat, length: nat)
    requires Has(data, pos, 20 + length)
    ensures data[pos..pos + 20 + length] == data[pos..pos + 4] + data[pos + 4..pos + 12] + data[pos + 12..pos + 16]
                                          + data[pos + 16..pos + 20] + data[pos + 20..pos + 20 + length]
  {
  }

  lemma FlatRaw(bs: seq<byte>)
    ensures Flat([Raw(bs)]) == bs
  {
    assert [Raw(bs)][1..] == [];
  }

  lemma ExactWords(data: seq<byte>, pos: nat)
    requires Has(data, pos, 20)
    ensures LE(4, Word(data, pos, 4)) == data[pos..pos + 4] && LE(4, Word(data, pos + 12, 4)) == data[pos + 12..pos + 16]
    ensures LE(4, Word(data, pos + 16, 4)) == data[pos + 16..pos + 20]
    ensures Word(data, pos + 12, 4) < U32 && Word(data, pos + 16, 4) < U32
  {
    hide LE, FromLE;
    WordIsExact(data[pos..pos + 4]);
    WordIsExact(data[pos + 12..pos + 16]);
    WordIsExact(data[pos + 16..pos + 20]);
    Pow256Values();
  }
}
