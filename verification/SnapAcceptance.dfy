/** Which files the comparison's reader accepts, by their bytes (src/a2gspu_snapdiff.hpp): the page
    references, the words of a manifest, the places of the memory sections, and the whole file.
 */
module SnapAcceptance {
  import opened Options
  import opened Bytes
  import opened Snapshot
  import opened SnapLayout
  import opened SnapRoundTrip
  import Acceptance

  // ---------------------------------------------------------------- page references

  /** A page reference is a region with an offset inside it, or one of the two marks -1 and -2
      without an offset. */
  lemma PageRefIsExact(region: byte, off: nat, regions: seq<nat>)
    requires |regions| <= 128
    ensures PageRefOk(region, off, regions) <==>
              || (region < |regions| && off < regions[region])
              || ((region == 0xFF || region == 0xFE) && off == 0)
  {
  }

  /** The places that page maps may name: on a IIgs the banks of RAM, the Mega II's 128K and the
      banks of ROM; on a IIe and in the Mega II 128K of RAM and 16K of ROM. */
  lemma PageMapsNameMemory(region: byte, off: nat, ram: nat, rom: nat, prefix: string, i: nat)
    requires i < |GsParts(ram, rom)| && GsParts(ram, rom)[i].Pages?
    ensures PageRefOk(region, off, GsParts(ram, rom)[i].regions) <==>
              || (i == 2 && region == 0 && off < ram * 0x1_0000) || (i == 2 && region == 1 && off < 0x2_0000)
              || (i == 2 && region == 2 && off < rom * 0x1_0000)
              || (i > 2 && region == 0 && off < 0x2_0000) || (i > 2 && region == 1 && off < 0x4000)
              || ((region == 0xFF || region == 0xFE) && off == 0)
    ensures forall k :: 0 <= k < |IieParts(prefix)| && IieParts(prefix)[k].Pages? ==>
              IieParts(prefix)[k].regions == [0x2_0000, 0x4000]
  {
  }

  // ---------------------------------------------------------------- manifests

  predicate SlashP(d: seq<byte>, i: nat) { i + 1 < |d| && d[i] == 47 && d[i + 1] == 112 }

  predicate NoSlashP(d: seq<byte>) { forall i :: 0 <= i < |d| - 1 ==> !SlashP(d, i) }

  /** The text after the last "/p". */
  lemma {:induction false} PlatformIsLast(a: seq<byte>, d: seq<byte>)
    requires NoSlashP(d)
    ensures Platform(a + [47, 112] + d) == Some(d)
  {
    var s := a + [47, 112] + d;
    if a == [] {
      NoPlatform(d);
      PlatformInD(d);
      assert s[1..] == [112] + d && s[2..] == d;
    } else {
      assert s[1..] == a[1..] + [47, 112] + d;
      PlatformIsLast(a[1..], d);
    }
  }

  lemma {:induction false} NoPlatform(d: seq<byte>)
    requires NoSlashP(d)
    ensures Platform(d) == None
  {
    if |d| >= 2 {
      assert !SlashP(d, 0);
      forall i | 0 <= i < |d[1..]| - 1 ensures !SlashP(d[1..], i) { assert !SlashP(d, i + 1); }
      NoPlatform(d[1..]);
    }
  }

  lemma PlatformInD(d: seq<byte>)
    requires Platform(d) == None
    ensures Platform([112] + d) == None
  {
    assert ([112] + d)[1..] == d;
  }

  /** Words with single spaces between them. */
  function Joined(ws: seq<seq<byte>>): seq<byte> {
    if ws == [] then [] else if |ws| == 1 then ws[0] else ws[0] + [32] + Joined(ws[1..])
  }

  predicate AreWords(ws: seq<seq<byte>>) { forall i :: 0 <= i < |ws| ==> ws[i] != [] && 32 !in ws[i] }

  /** The value of the first word that starts with the key. */
  function FirstWith(ws: seq<seq<byte>>, key: seq<byte>): seq<byte> {
    if ws == [] then [] else if key <= ws[0] then ws[0][|key|..] else FirstWith(ws[1..], key)
  }

  lemma {:induction false} WordEndIs(m: seq<byte>, i: nat, e: nat)
    requires i <= e <= |m| && (forall j :: i <= j < e ==> m[j] != 32) && (e == |m| || m[e] == 32)
    ensures WordEnd(m, i) == e
    decreases e - i
  {
    if i < e { WordEndIs(m, i + 1, e); }
  }

  /** A field is looked up among the words. */
  lemma {:induction false} FieldOfWords(front: seq<byte>, ws: seq<seq<byte>>, key: seq<byte>)
    requires AreWords(ws)
    ensures FieldFrom(front + Joined(ws), |front|, key) == FirstWith(ws, key)
    decreases |ws|
  {
    hide FieldFrom, WordEnd;
    var m, i := front + Joined(ws), |front|;
    if ws == [] {
      NoField(m, key);
    } else {
      var w := ws[0];
      var e := i + |w|;
      WordInFront(front, ws);
      WordEndIs(m, i + 1, e);
      assert w != [];
      OneWord(m, i, e, w, key);
      if !(key <= w) {
        if |ws| == 1 {
          assert ws[1..] == [];
          NoField(m, key);
        } else {
          NextWord(front, ws);
          FieldOfWords(front + w + [32], ws[1..], key);
          OneSpace(m, e, key);
        }
      }
    }
  }

  lemma NoField(m: seq<byte>, key: seq<byte>)
    ensures FieldFrom(m, |m|, key) == []
  {
  }

  lemma OneWord(m: seq<byte>, i: nat, e: nat, w: seq<byte>, key: seq<byte>)
    requires i < e <= |m| && m[i..e] == w && m[i] != 32 && WordEnd(m, i + 1) == e
    ensures FieldFrom(m, i, key) == if key <= w then w[|key|..] else FieldFrom(m, e, key)
  {
    hide WordEnd;
    if key <= w { assert m[i + |key|..e] == w[|key|..]; }
  }

  lemma OneSpace(m: seq<byte>, e: nat, key: seq<byte>)
    requires e < |m| && m[e] == 32
    ensures FieldFrom(m, e, key) == FieldFrom(m, e + 1, key)
  {
  }

  lemma NextWord(front: seq<byte>, ws: seq<seq<byte>>)
    requires AreWords(ws) && |ws| > 1
    ensures front + Joined(ws) == (front + ws[0] + [32]) + Joined(ws[1..]) && AreWords(ws[1..])
  {
    JoinedTwo(ws);
    hide Joined;
    Spaced(front, ws[0], Joined(ws[1..]));
    forall i | 0 <= i < |ws[1..]| ensures ws[1..][i] != [] && 32 !in ws[1..][i] { assert ws[1..][i] == ws[i + 1]; }
  }

  lemma JoinedTwo(ws: seq<seq<byte>>)
    requires |ws| > 1
    ensures Joined(ws) == ws[0] + [32] + Joined(ws[1..])
  {
  }

  lemma Spaced(front: seq<byte>, w: seq<byte>, j: seq<byte>)
    ensures front + (w + [32] + j) == (front + w + [32]) + j
  {
  }

  lemma WordInFront(front: seq<byte>, ws: seq<seq<byte>>)
    requires AreWords(ws) && ws != []
    ensures var m, i, w := front + Joined(ws), |front|, ws[0];
            && i + |w| <= |m| && m[i..i + |w|] == w && (forall j :: i <= j < i + |w| ==> m[j] != 32)
            && (i + |w| == |m| || m[i + |w|] == 32) && (|ws| == 1 ==> i + |w| == |m|)
  {
    var m, i, w := front + Joined(ws), |front|, ws[0];
    assert m[i..i + |w|] == w;
    forall j | i <= j < i + |w| ensures m[j] != 32 { assert m[j] == w[j - i] && w[j - i] in w; }
  }

  /** A manifest whose `machine=` word ends in "/p" and a platform fits the layout exactly when
      that platform is 5 for the IIgs layout and anything else for the other; one without such a
      word fits both. */
  lemma PlatformDecides(ws: seq<seq<byte>>, a: seq<byte>, d: seq<byte>, gs: bool)
    requires AreWords(ws)
    ensures FirstWith(ws, MACHINE_KEY) == a + [47, 112] + d && NoSlashP(d) ==>
              (!Disagrees(Joined(ws), gs) <==> if gs then d == [0x35] else d != [0x35])
    ensures NoSlashP(FirstWith(ws, MACHINE_KEY)) ==>
              !Disagrees(Joined(ws), gs)
  {
    hide Platform, FieldFrom, FirstWith;
    FieldOfWords([], ws, MACHINE_KEY);
    assert [] + Joined(ws) == Joined(ws);
    var v := FirstWith(ws, MACHINE_KEY);
    if v == a + [47, 112] + d && NoSlashP(d) { PlatformIsLast(a, d); }
    if NoSlashP(v) { NoPlatform(v); }
  }

  // ---------------------------------------------------------------- device names

  const NAME_CHARS: set<char> := {
    'a', 'b', 'c', 'd', 'e', 'f', 'g', 'h', 'i', 'j', 'k', 'l', 'm', 'n', 'o', 'p', 'q', 'r',
    's', 't', 'u', 'v', 'w', 'x', 'y', 'z', '0', '1', '2', '3', '4', '5', '6', '7', '8', '9', '_'}

  /** A device's name is of small letters, digits and underscores. */
  lemma NameCharIsExact(b: byte)
    ensures NameChar(b) <==> b as char in NAME_CHARS
  {
  }

  // ---------------------------------------------------------------- where memory is

  /** How far the parts before `i` reach. */
  function Offset(parts: seq<Part>, i: nat): nat
    requires i <= |parts|
  {
    if i == 0 then 0 else PartSize(parts[0]) + Offset(parts[1..], i - 1)
  }

  lemma {:induction false} PlacedAtOffset(parts: seq<Part>, at: nat, s: Sections, i: nat)
    requires FreshNames(parts, s) && i < |parts|
    ensures var r, p := PlaceParts(parts, at, s), parts[i];
            && Fixed(p.name) in r
            && r[Fixed(p.name)] == Section(PartBegin(p, at + Offset(parts, i)), if p.Plain? then p.size else 10 * p.n, 0)
    ensures forall n <- s :: n in PlaceParts(parts, at, s) && PlaceParts(parts, at, s)[n] == s[n]
    decreases |parts|
  {
    var p := parts[0];
    var next := s[Fixed(p.name) := Section(PartBegin(p, at), if p.Plain? then p.size else 10 * p.n, 0)];
    FreshTail(parts, s, next);
    if i > 0 {
      PlacedAtOffset(parts[1..], at + PartSize(p), next, i - 1);
    } else if |parts| > 1 {
      PlacedAtOffset(parts[1..], at + PartSize(p), next, 0);
    }
  }

  lemma FreshTail(parts: seq<Part>, s: Sections, next: Sections)
    requires FreshNames(parts, s) && parts != [] && next.Keys == s.Keys + {Fixed(parts[0].name)}
    ensures FreshNames(parts[1..], next)
  {
    forall j | 0 <= j < |parts[1..]| ensures Fixed(parts[1..][j].name) !in next { assert parts[1..][j] == parts[j + 1]; }
  }

  predicate SectionAt(s: Sections, name: string, begin: nat, size: nat) {
    Fixed(name) in s && s[Fixed(name)] == Section(begin, size, 0)
  }

  lemma IieOffsets(prefix: string)
    ensures var p := IieParts(prefix);
            && Offset(p, 0) == 0 && Offset(p, 1) == 4 && Offset(p, 2) == 131076 && Offset(p, 3) == 133640 && Offset(p, 4) == 133790
            && Offset(p, 5) == 133940
  {
    var p := IieParts(prefix);
    var p1, p2, p3, p4 := p[1..], p[2..], p[3..], p[4..];
    assert p1[1..] == p2 && p2[1..] == p3 && p3[1..] == p4 && p4[1..] == [];
    assert Offset(p4, 1) == 150;
    assert Offset(p3, 1) == 150 && Offset(p3, 2) == 300;
    assert Offset(p2, 1) == 2564 && Offset(p2, 2) == 2714 && Offset(p2, 3) == 2864;
    assert Offset(p1, 1) == 131072 && Offset(p1, 2) == 133636 && Offset(p1, 3) == 133786 && Offset(p1, 4) == 133936;
  }

  /** The memory sections of a IIe file, from the end of the registers on: names, places, sizes. */
  lemma IieSections()
    ensures var s := PlaceParts(IieParts("iie"), 41, map[]);
            && SectionAt(s, "iie" + ".switches", 41, 4) && SectionAt(s, "iie" + ".ram", 45, 0x2_0000)
            && SectionAt(s, "iie" + ".pages", 131121, 2560) && SectionAt(s, "iie" + ".internal-rom-pages", 133681, 150)
            && SectionAt(s, "iie" + ".slot-rom-pages", 133831, 150)
  {
    IieNamesAreFresh("iie");
    IieOffsets("iie");
    var p := IieParts("iie");
    PlacedAtOffset(p, 41, map[], 0);
    PlacedAtOffset(p, 41, map[], 1);
    PlacedAtOffset(p, 41, map[], 2);
    PlacedAtOffset(p, 41, map[], 3);
    PlacedAtOffset(p, 41, map[], 4);
    hide PlaceParts, Offset, FreshNames;
  }

  lemma {:induction false} OffsetAfter(front: seq<Part>, parts: seq<Part>, i: nat)
    requires i <= |parts|
    ensures Offset(front + parts, |front| + i) == Offset(front + parts, |front|) + Offset(parts, i)
    decreases |front|
  {
    if front == [] {
      assert front + parts == parts;
    } else {
      assert (front + parts)[1..] == front[1..] + parts;
      OffsetAfter(front[1..], parts, i);
    }
  }

  /** And of a IIgs file with `ram` and `rom` banks, whose counts take 8 bytes more; the Mega II's
      memory comes behind the FPI's. */
  lemma GsSections(ram: nat, rom: nat)
    ensures var s := PlaceParts(GsParts(ram, rom), 49, map[]);
            var m := 2639 + ram * 0x1_0000;
            && SectionAt(s, "iigs.switches", 49, 26) && SectionAt(s, "iigs.ram", 75, ram * 0x1_0000)
            && SectionAt(s, "iigs.pages", 79 + ram * 0x1_0000, 2560)
            && SectionAt(s, "megaii" + ".switches", m, 4) && SectionAt(s, "megaii" + ".ram", m + 4, 0x2_0000)
            && SectionAt(s, "megaii" + ".pages", m + 131080, 2560)
            && SectionAt(s, "megaii" + ".internal-rom-pages", m + 133640, 150) && SectionAt(s, "megaii" + ".slot-rom-pages", m + 133790, 150)
  {
    GsNamesAreFresh(ram, rom);
    IieOffsets("megaii");
    var p, mega := GsParts(ram, rom), IieParts("megaii");
    var front := p[..3];
    GsOffsets(ram, rom);
    assert p == front + mega;
    OffsetAfter(front, mega, 0); OffsetAfter(front, mega, 1); OffsetAfter(front, mega, 2); OffsetAfter(front, mega, 3); OffsetAfter(front, mega, 4);
    hide PlaceParts, Offset, FreshNames;
    GsPlaced(p, 0); GsPlaced(p, 1); GsPlaced(p, 2); GsPlaced(p, 3); GsPlaced(p, 4); GsPlaced(p, 5); GsPlaced(p, 6); GsPlaced(p, 7);
    assert p[3] == mega[0] && p[4] == mega[1] && p[5] == mega[2] && p[6] == mega[3] && p[7] == mega[4];
  }

  lemma GsOffsets(ram: nat, rom: nat)
    ensures var p := GsParts(ram, rom); Offset(p, 0) == 0 && Offset(p, 1) == 26 && Offset(p, 2) == 26 + ram * 65536 && Offset(p, 3) == 2590 + ram * 65536
  {
    var p := GsParts(ram, rom);
    var p1, p2, p3 := p[1..], p[2..], p[3..];
    assert p1[1..] == p2 && p2[1..] == p3;
    assert Offset(p2, 1) == 2564;
    assert Offset(p1, 1) == ram * 65536 && Offset(p1, 2) == ram * 65536 + 2564;
  }

  lemma GsPlaced(p: seq<Part>, i: nat)
    requires FreshNames(p, map[]) && i < |p|
    ensures SectionAt(PlaceParts(p, 49, map[]), p[i].name, PartBegin(p[i], 49 + Offset(p, i)), if p[i].Plain? then p[i].size else 10 * p[i].n)
  {
    PlacedAtOffset(p, 49, map[], i);
  }

  // ---------------------------------------------------------------- the whole file

  /** Memory that was accepted fits the geometry. */
  lemma {:induction false} AcceptedPartsFit(data: seq<byte>, pos: nat, parts: seq<Part>, sections: Sections)
    requires FreshNames(parts, sections) && pos <= |data| && ParseParts(data, pos, parts, sections).At?
    ensures var r := ParseParts(data, pos, parts, sections);
            && pos <= r.pos <= |data| && MmuFits(data[pos..r.pos], parts) && r.value == PlaceParts(parts, pos, sections)
    decreases |parts|
  {
    hide ParsePart, PartOk, PartSize;
    if parts != [] {
      var p := parts[0];
      AcceptedPartFits(data, pos, p, sections);
      var first := ParsePart(data, pos, p, sections);
      FreshTail(parts, sections, first.value);
      AcceptedPartsFit(data, first.pos, parts[1..], first.value);
      var mmu := data[pos..ParseParts(data, pos, parts, sections).pos];
      assert mmu[..PartSize(p)] == data[pos..first.pos] && mmu[PartSize(p)..] == data[first.pos..ParseParts(data, pos, parts, sections).pos];
    }
  }

  lemma AcceptedPartFits(data: seq<byte>, pos: nat, p: Part, sections: Sections)
    requires Fixed(p.name) !in sections && pos <= |data| && ParsePart(data, pos, p, sections).At?
    ensures var r := ParsePart(data, pos, p, sections);
            && r.pos == pos + PartSize(p) <= |data| && PartOk(data[pos..r.pos], p)
            && r.value == sections[Fixed(p.name) := Section(PartBegin(p, pos), if p.Plain? then p.size else 10 * p.n, 0)]
            && r.value.Keys == sections.Keys + {Fixed(p.name)}
  {
    hide FromLE, PageRefOk;
    if p.Pages? {
      var bs := data[pos..pos + PartSize(p)];
      var k := if p.counted then 4 else 0;
      if p.counted { assert bs[0..4] == data[pos..pos + 4]; }
      RefsInside(data, pos, bs, k, 2 * p.n, p.regions);
    }
  }

  lemma RefsInside(data: seq<byte>, pos: nat, bs: seq<byte>, k: nat, count: nat, regions: seq<nat>)
    requires pos + |bs| <= |data| && data[pos..pos + |bs|] == bs && k + 5 * count <= |bs|
    requires RefsOk(data, pos + k, count, regions)
    ensures RefsOk(bs, k, count, regions)
  {
    hide FromLE, PageRefOk;
    forall i | 0 <= i < count ensures PageRefOk(bs[k + 5 * i], FromLE(bs[k + 5 * i + 1..k + 5 * i + 5]), regions) {
      var j := k + 5 * i;
      InsideSlice(data, pos, bs, j);
      assert PageRefOk(data[pos + k + 5 * i], FromLE(data[pos + k + 5 * i + 1..pos + k + 5 * i + 5]), regions);
      assert pos + k + 5 * i == pos + j;
    }
  }

  lemma InsideSlice(data: seq<byte>, pos: nat, bs: seq<byte>, j: nat)
    requires pos + |bs| <= |data| && data[pos..pos + |bs|] == bs && j + 5 <= |bs|
    ensures bs[j] == data[pos + j] && bs[j + 1..j + 5] == data[pos + j + 1..pos + j + 5]
  {
    assert data[pos..pos + |bs|][j] == data[pos + j];
    var x, y := bs[j + 1..j + 5], data[pos + j + 1..pos + j + 5];
    forall k | 0 <= k < 4 ensures x[k] == y[k] {
      assert x[k] == bs[j + 1 + k] == data[pos..pos + |bs|][j + 1 + k] == data[pos + j + 1 + k];
    }
  }

  /** A trailer, by its bytes: nothing, or "GSPM", a length of 1 to 4096 and as many printable
      characters that do not name the other platform. */
  predicate IsTrailer(bs: seq<byte>, gs: bool, manifest: Option<seq<byte>>) {
    match manifest
    case None => bs == []
    case Some(m) =>
      && 1 <= |m| <= 4096 && (forall i :: 0 <= i < |m| ==> 0x20 <= m[i] <= 0x7E) && !Disagrees(m, gs)
      && bs == Acceptance.MANIFEST_START + LE(4, |m|) + m
  }

  lemma TrailerIsExact(data: seq<byte>, pos: nat, gs: bool)
    requires pos <= |data|
    ensures match ParseTrailer(data, pos, gs)
            case At(end, m) => end == |data| && IsTrailer(data[pos..], gs, m)
            case Bad => forall m :: !IsTrailer(data[pos..], gs, m)
  {
    hide Disagrees, LE, FromLE, Word;
    Acceptance.Words();
    forall m | IsTrailer(data[pos..], gs, m) ensures ParseTrailer(data, pos, gs) == At(|data|, m) {
      assert data == data[..pos] + data[pos..];
      if m.Some? { TrailerShape(data[..pos], m.value); }
    }
    if ParseTrailer(data, pos, gs).At? && pos < |data| {
      var m := ParseTrailer(data, pos, gs).value.value;
      Acceptance.WordIsBytes(data, pos, MANIFEST);
      Acceptance.WordIsBytes(data, pos + 4, |m|);
      EightAndRest(data, pos);
    }
  }

  lemma EightAndRest(data: seq<byte>, pos: nat)
    requires pos + 8 <= |data|
    ensures data[pos..] == data[pos..pos + 4] + data[pos + 4..pos + 8] + data[pos + 8..]
    ensures data[pos + 8..|data|] == data[pos + 8..]
  {
  }

  /** A snapshot file, by its parts: header and 33 bytes of registers, memory of the layout's
      geometry, at most 64 distinct named device blocks, the sentinel, and the trailer. */
  ghost predicate IsFile(data: seq<byte>, regs: seq<byte>, m: Memory, ds: seq<Device>, trailer: seq<byte>, manifest: Option<seq<byte>>) {
    && |regs| == 33 && MemoryFits(m) && DevicesFit(ds, map[]) && |ds| <= 64 && IsTrailer(trailer, m.Gs?, manifest)
    && data == Acceptance.FILE_START + regs + MemoryBytes(m) + Blocks(ds) + (Acceptance.SENTINEL + trailer)
  }

  lemma {:induction false} DevicesFitAnywhere(ds: seq<Device>, s: Sections)
    requires DevicesFit(ds, s)
    ensures DevicesFit(ds, map[])
  {
    hide DeviceFits;
  }

  /** What is accepted behind the memory. */
  lemma AcceptedTail(data: seq<byte>, gs: bool, pos: nat, mmu: Sections, ram: nat, rom: nat) returns (ds: seq<Device>, trailer: seq<byte>)
    requires Has(data, 8, Size(CPU_WIDTHS)) && pos <= |data| && AfterMmu(data, gs, pos, mmu, ram, rom).At?
    ensures var l := AfterMmu(data, gs, pos, mmu, ram, rom).value;
            && DevicesFit(ds, map[]) && |ds| <= 64 && IsTrailer(trailer, gs, l.manifest) && l.sections == Place(ds, pos, mmu)
            && l.ramBanks == ram && l.romBanks == rom && l.registers == ReadFields(data, 8, CPU_WIDTHS)
            && data[pos..] == Blocks(ds) + (Acceptance.SENTINEL + trailer)
  {
    hide ParseDevices, ParseTrailer, IsTrailer, Blocks, LE, Place, Size, ReadFields, DevicesFit;
    Acceptance.Words();
    ds := AcceptedFramingIsWritten(data, pos, 0, mmu);
    var end := ParseDevices(data, pos, 0, mmu).pos;
    trailer := data[end..];
    TrailerIsExact(data, end, gs);
    DevicesFitAnywhere(ds, mmu);
    assert data[pos..] == data[pos..end] + trailer;
  }

  /** Every accepted file is made of these parts. */
  lemma AcceptedIsFile(data: seq<byte>, gs: bool) returns (regs: seq<byte>, m: Memory, ds: seq<Device>, trailer: seq<byte>)
    requires ParseLayout(data, gs).At?
    ensures m.Gs? == gs && IsFile(data, regs, m, ds, trailer, ParseLayout(data, gs).value.manifest)
  {
    hide ParseParts, AfterMmu, ReadFields, Word, LE, MmuFits, Blocks, IsTrailer, DevicesFit, IsFile, Place, MemoryFits, GsParts, IieParts, Size;
    var ram, rom, pos, mmu := AcceptedMemory(data, gs);
    m := if gs then Gs(ram, rom, data[49..pos]) else Iie(data[41..pos]);
    ds, trailer := AcceptedTail(data, gs, pos, mmu, ram, rom);
    regs := data[8..41];
    Assemble(data, pos, m, ds, trailer, ParseLayout(data, gs).value.manifest);
  }

  lemma AcceptedMemory(data: seq<byte>, gs: bool) returns (ram: nat, rom: nat, pos: nat, mmu: Sections)
    requires ParseLayout(data, gs).At?
    ensures Acceptance.Starts(data) && Has(data, 8, Size(CPU_WIDTHS)) && 41 <= pos <= |data| && (gs ==> 49 <= pos)
    ensures AfterMmu(data, gs, pos, mmu, ram, rom) == ParseLayout(data, gs)
    ensures var m := if gs then Gs(ram, rom, data[49..pos]) else Iie(data[41..pos]);
            MemoryFits(m) && MemoryBytes(m) == data[41..pos]
  {
    hide ParseParts, AfterMmu, Word, LE, MmuFits, FreshNames, GsParts, IieParts, PlaceParts;
    Acceptance.StartIsReadable(data);
    hide Size;
    ram, rom := if gs then Word(data, 41, 4) else 0, if gs then Word(data, 45, 4) else 0;
    var at, parts := if gs then 49 else 41, if gs then GsParts(ram, rom) else IieParts("iie");
    if gs { GsNamesAreFresh(ram, rom); } else { IieNamesAreFresh("iie"); }
    AcceptedPartsFit(data, at, parts, map[]);
    pos, mmu := ParseParts(data, at, parts, map[]).pos, ParseParts(data, at, parts, map[]).value;
    if gs { BankWords(data, ram, rom, pos); }
  }

  lemma BankWords(data: seq<byte>, ram: nat, rom: nat, pos: nat)
    requires 49 <= pos <= |data| && ram < U32 && rom < U32 && Word(data, 41, 4) == ram && Word(data, 45, 4) == rom
    ensures LE(4, ram) + LE(4, rom) + data[49..pos] == data[41..pos]
  {
    hide LE, FromLE, Word;
    Acceptance.WordIsBytes(data, 41, ram);
    Acceptance.WordIsBytes(data, 45, rom);
    assert data[41..pos] == data[41..45] + data[45..49] + data[49..pos];
  }

  lemma Assemble(data: seq<byte>, pos: nat, m: Memory, ds: seq<Device>, trailer: seq<byte>, manifest: Option<seq<byte>>)
    requires Acceptance.Starts(data) && 41 <= pos <= |data| && MemoryFits(m) && MemoryBytes(m) == data[41..pos]
    requires DevicesFit(ds, map[]) && |ds| <= 64 && IsTrailer(trailer, m.Gs?, manifest)
    requires data[pos..] == Blocks(ds) + (Acceptance.SENTINEL + trailer)
    ensures IsFile(data, data[8..41], m, ds, trailer, manifest)
  {
    hide MemoryFits, MemoryBytes, Blocks, DevicesFit, IsTrailer;
    var tail := Acceptance.SENTINEL + trailer;
    assert data == data[..8] + data[8..41] + data[41..pos] + data[pos..];
    assert data == data[..8] + data[8..41] + data[41..pos] + Blocks(ds) + tail;
  }

  /** And every file made of them is accepted, to its end, with its sections, banks, registers and
      manifest. */
  lemma FileIsAccepted(data: seq<byte>, regs: seq<byte>, m: Memory, ds: seq<Device>, trailer: seq<byte>, manifest: Option<seq<byte>>)
    requires IsFile(data, regs, m, ds, trailer, manifest)
    ensures var at := if m.Gs? then 49 else 41;
            var mmu := PlaceParts(MemoryParts(m), at, map[]);
            && Has(data, 8, Size(CPU_WIDTHS))
            && ParseLayout(data, m.Gs?) ==
               At(|data|, Layout(Place(ds, at + |MemoryBody(m)|, mmu), ReadFields(data, 8, CPU_WIDTHS),
                                 if m.Gs? then m.ram else 0, if m.Gs? then m.rom else 0, manifest))
  {
    hide ReadFields, Word, LE, MmuFits, Blocks, IsTrailer, DevicesFit, Place, PlaceParts, ParseParts, AfterMmu, FreshNames, GsParts, IieParts, Size;
    Acceptance.Words();
    var start := Acceptance.FILE_START + regs;
    var tail := Blocks(ds) + (Acceptance.SENTINEL + trailer);
    Regrouped(data, start, m, Blocks(ds), Acceptance.SENTINEL + trailer);
    assert data[..8] == Acceptance.FILE_START;
    Acceptance.StartIsReadable(data);
    MemoryParses(start, m, tail);
    MemoryBanks(m);
    var at := if m.Gs? then 49 else 41;
    var mmu := PlaceParts(MemoryParts(m), at, map[]);
    DevicesStillFit(ds, MemoryParts(m), at);
    TailAccepted(data, m.Gs?, start + MemoryBytes(m), ds, trailer, manifest, mmu, if m.Gs? then m.ram else 0, if m.Gs? then m.rom else 0);
  }

  lemma Regrouped(data: seq<byte>, start: seq<byte>, m: Memory, blocks: seq<byte>, end: seq<byte>)
    requires data == start + MemoryBytes(m) + blocks + end
    ensures data == (start + MemoryHead(m)) + MemoryBody(m) + (blocks + end) && start + MemoryHead(m) + MemoryBody(m) == start + MemoryBytes(m)
    ensures data == start + (MemoryBytes(m) + blocks + end)
  {
    hide MemoryHead, MemoryBody;
    var h, b := MemoryHead(m), MemoryBody(m);
    assert start + (h + b) == (start + h) + b;
  }

  lemma TailAccepted(data: seq<byte>, gs: bool, front: seq<byte>, ds: seq<Device>, trailer: seq<byte>, manifest: Option<seq<byte>>,
                     mmu: Sections, ram: nat, rom: nat)
    requires Has(data, 8, Size(CPU_WIDTHS)) && data == front + Blocks(ds) + (Acceptance.SENTINEL + trailer)
    requires DevicesFit(ds, mmu) && |ds| <= MAX_DEVICES && IsTrailer(trailer, gs, manifest)
    ensures AfterMmu(data, gs, |front|, mmu, ram, rom) ==
            At(|data|, Layout(Place(ds, |front|, mmu), ReadFields(data, 8, CPU_WIDTHS), ram, rom, manifest))
  {
    hide LE, Blocks, Place, ParseDevices, ParseTrailer, IsTrailer, ReadFields, Size, DevicesFit;
    var end := |front + Blocks(ds)| + 4;
    BlocksThenTrailer(data, front, ds, trailer, mmu);
    TrailerIsExact(data, end, gs);
    OneTrailer(trailer, gs, manifest, ParseTrailer(data, end, gs));
  }

  lemma BlocksThenTrailer(data: seq<byte>, front: seq<byte>, ds: seq<Device>, trailer: seq<byte>, mmu: Sections)
    requires data == front + Blocks(ds) + (Acceptance.SENTINEL + trailer) && DevicesFit(ds, mmu) && |ds| <= MAX_DEVICES
    ensures var end := |front + Blocks(ds)| + 4;
            end <= |data| && data[end..] == trailer && ParseDevices(data, |front|, 0, mmu) == At(end, Place(ds, |front|, mmu))
  {
    hide LE, Blocks, Place, ParseDevices, DevicesFit;
    Acceptance.Words();
    BlocksParse(front, ds, trailer, 0, mmu);
  }

  lemma OneTrailer(trailer: seq<byte>, gs: bool, manifest: Option<seq<byte>>, r: Parse<Option<seq<byte>>>)
    requires IsTrailer(trailer, gs, manifest)
    requires match r case At(end, m) => IsTrailer(trailer, gs, m) case Bad => forall m :: !IsTrailer(trailer, gs, m)
    ensures r.At? && r.value == manifest
  {
    hide Disagrees, LE;
    if r.At? && r.value.Some? && manifest.Some? {
      var a, b := r.value.value, manifest.value;
      assert |a| == |b|;
      assert trailer[8..] == a && trailer[8..] == b;
    }
  }
}
