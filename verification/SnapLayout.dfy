/** The second reader of snapshot files: `a2snapdiff::parse_layout` (src/a2gspu_snapdiff.hpp),
    which never touches a machine and names every section by offset and size.
 */
module SnapLayout {
  import opened Options
  import opened Bytes
  import opened Snapshot

  datatype SectionName = Fixed(name: string) | DeviceSection(id: seq<byte>)

  datatype Section = Section(begin: nat, size: nat, version: nat)

  type Sections = map<SectionName, Section>

  datatype Layout = Layout(sections: Sections, registers: seq<nat>, ramBanks: nat, romBanks: nat, manifest: Option<seq<byte>>)

  /** A parse that got somewhere, or the exception. */
  datatype Parse<+T> = Bad | At(pos: nat, value: T)

  // ---------------------------------------------------------------- the cursor

  class Cursor {
    const bytes: seq<byte>
    var pos: nat

    constructor (bs: seq<byte>)
      ensures bytes == bs && pos == 0
    {
      bytes, pos := bs, 0;
    }

    /** `Cursor::get`: a little-endian word, shifted together byte by byte. */
    method Get(n: nat) returns (v: Option<nat>)
      requires pos <= |bytes|
      modifies this
      ensures pos <= |bytes|
      ensures if Has(bytes, old(pos), n) then v == Some(Word(bytes, old(pos), n)) && pos == old(pos) + n
              else v == None
    {
      if pos + n > |bytes| {
        return None;
      }
      var value: nat, scale: nat := 0, 1;
      ghost var start := pos;
      for i := 0 to n
        invariant pos == start + i && pos <= |bytes| && scale == Pow256(i)
        invariant value == FromLE(bytes[start..pos])
      {
        AppendByte(bytes[start..pos], bytes[pos]);
        assert bytes[start..pos + 1] == bytes[start..pos] + [bytes[pos]];
        value := value + bytes[pos] * scale;
        scale := 256 * scale;
        pos := pos + 1;
      }
      v := Some(value);
    }

    /** `Cursor::text`; `Cursor::skip` is the same without the bytes. */
    method Text(n: nat) returns (bs: Option<seq<byte>>)
      requires pos <= |bytes|
      modifies this
      ensures pos <= |bytes|
      ensures if Has(bytes, old(pos), n) then bs == Some(bytes[old(pos)..old(pos) + n]) && pos == old(pos) + n
              else bs == None
    {
      if pos + n > |bytes| {
        return None;
      }
      bs := Some(bytes[pos..pos + n]);
      pos := pos + n;
    }
  }

  // ---------------------------------------------------------------- the MMU block

  /** A section of the MMU block: plain bytes, or a page map, counted or of known length. */
  datatype Part =
    | Plain(name: string, size: nat)
    | Pages(name: string, counted: bool, n: nat, regions: seq<nat>)

  /** A page reference: a signed region number and an offset into that region. */
  predicate PageRefOk(region: nat, off: nat, regions: seq<nat>)
    requires region < 256
  {
    var r := if region < 128 then region else region - 256;
    && -2 <= r < |regions|
    && (r >= 0 ==> off < regions[r])
    && (r < 0 ==> off == 0)
  }

  predicate RefsOk(data: seq<byte>, at: nat, count: nat, regions: seq<nat>)
    requires Has(data, at, 5 * count)
  {
    forall i :: 0 <= i < count ==> PageRefOk(data[at + 5 * i], FromLE(data[at + 5 * i + 1..at + 5 * i + 5]), regions)
  }

  function ParsePart(data: seq<byte>, pos: nat, part: Part, sections: Sections): Parse<Sections> {
    match part
    case Plain(name, size) =>
      if Fixed(name) in sections || !Has(data, pos, size) then Bad
      else At(pos + size, sections[Fixed(name) := Section(pos, size, 0)])
    case Pages(name, counted, n, regions) =>
      if counted && (!Has(data, pos, 4) || Word(data, pos, 4) != n) then Bad
      else
        var start := if counted then pos + 4 else pos;
        if !Has(data, start, 10 * n) || !RefsOk(data, start, 2 * n, regions) then Bad
        else At(start + 10 * n, if Fixed(name) in sections then sections else sections[Fixed(name) := Section(start, 10 * n, 0)])
  }

  function ParseParts(data: seq<byte>, pos: nat, parts: seq<Part>, sections: Sections): Parse<Sections>
    decreases |parts|
  {
    if parts == [] then At(pos, sections)
    else
      match ParsePart(data, pos, parts[0], sections)
      case Bad => Bad
      case At(pos', sections') => ParseParts(data, pos', parts[1..], sections')
  }

  function IieParts(prefix: string): seq<Part> {
    [Plain(prefix + ".switches", 4), Plain(prefix + ".ram", 131072), Pages(prefix + ".pages", true, 256, [131072, 16384]),
     Pages(prefix + ".internal-rom-pages", false, 15, [131072, 16384]),
     Pages(prefix + ".slot-rom-pages", false, 15, [131072, 16384])]
  }

  function GsParts(ram: nat, rom: nat): seq<Part> {
    [Plain("iigs.switches", 26), Plain("iigs.ram", ram * 65536),
     Pages("iigs.pages", true, 256, [ram * 65536, 131072, rom * 65536])] + IieParts("megaii")
  }

  /** The page map loop of `pages`. */
  method ReadRefs(c: Cursor, count: nat, regions: seq<nat>) returns (ok: bool)
    requires c.pos <= |c.bytes|
    modifies c
    ensures c.pos <= |c.bytes|
    ensures ok <==> Has(c.bytes, old(c.pos), 5 * count) && RefsOk(c.bytes, old(c.pos), count, regions)
    ensures ok ==> c.pos == old(c.pos) + 5 * count
  {
    var start := c.pos;
    for i := 0 to count
      invariant c.pos == start + 5 * i <= |c.bytes|
      invariant RefsOk(c.bytes, start, i, regions)
    {
      var region := c.Get(1);
      if region.None? { return false; }
      var off := c.Get(4);
      if off.None? { return false; }
      OneByte(c.bytes, start + 5 * i);
      if !PageRefOk(region.value, off.value, regions) { return false; }
    }
    ok := true;
  }

  lemma OneByte(data: seq<byte>, at: nat)
    requires Has(data, at, 1)
    ensures Word(data, at, 1) == data[at]
  {
    var b := data[at..at + 1];
    assert b == [data[at]] && b[1..] == [];
    assert FromLE(b) == b[0] + 256 * FromLE(b[1..]);
  }

  method ReadPart(c: Cursor, part: Part, sections: Sections) returns (r: Option<Sections>)
    requires c.pos <= |c.bytes|
    modifies c
    ensures c.pos <= |c.bytes|
    ensures match ParsePart(c.bytes, old(c.pos), part, sections)
            case Bad => r == None
            case At(pos, s) => r == Some(s) && c.pos == pos
  {
    match part {
      case Plain(name, size) =>
        var begin := c.pos;
        if Fixed(name) in sections { return None; }
        var skipped := c.Text(size);
        if skipped.None? { return None; }
        r := Some(sections[Fixed(name) := Section(begin, size, 0)]);
      case Pages(name, counted, n, regions) =>
        if counted {
          var count := c.Get(4);
          if count != Some(n) { return None; }
        }
        var start := c.pos;
        assert 5 * (2 * n) == 10 * n;
        var ok := ReadRefs(c, 2 * n, regions);
        if !ok { return None; }
        r := Some(if Fixed(name) in sections then sections else sections[Fixed(name) := Section(start, 10 * n, 0)]);
    }
  }

  method ReadParts(c: Cursor, parts: seq<Part>, sections: Sections) returns (r: Option<Sections>)
    requires c.pos <= |c.bytes|
    modifies c
    ensures c.pos <= |c.bytes|
    ensures match ParseParts(c.bytes, old(c.pos), parts, sections)
            case Bad => r == None
            case At(pos, s) => r == Some(s) && c.pos == pos
    decreases |parts|
  {
    hide ParsePart;
    if parts == [] { return Some(sections); }
    var first := ReadPart(c, parts[0], sections);
    if first.None? { return None; }
    r := ReadParts(c, parts[1..], first.value);
  }

  // ---------------------------------------------------------------- device blocks

  predicate NameChar(b: byte) { 97 <= b <= 122 || 48 <= b <= 57 || b == 95 }

  predicate ValidName(n: seq<byte>) { 1 <= |n| <= 7 && forall i :: 0 <= i < |n| ==> NameChar(n[i]) }

  /** Where the first NUL of a name field is, or the field's length. */
  function NulAt(p: seq<byte>): (n: nat)
    ensures n <= |p| && (n < |p| ==> p[n] == 0) && forall i :: 0 <= i < n ==> p[i] != 0
  {
    if p == [] || p[0] == 0 then 0 else 1 + NulAt(p[1..])
  }

  /** The checks on a name field: terminated, not empty, padded with NULs, plain characters. */
  function NameField(p: seq<byte>): Option<seq<byte>> {
    var end := NulAt(p);
    if end == |p| || end == 0 then None
    else if !(forall i :: end <= i < |p| ==> p[i] == 0) then None
    else if !(forall i :: 0 <= i < end ==> NameChar(p[i])) then None
    else Some(p[..end])
  }

  const MAX_DEVICES := 64

  function ParseDevices(data: seq<byte>, pos: nat, count: nat, sections: Sections): (r: Parse<Sections>)
    ensures r.At? ==> r.pos <= |data|
    decreases |data| - pos
  {
    if !Has(data, pos, 4) then Bad
    else if Word(data, pos, 4) == END then At(pos + 4, sections)
    else if Word(data, pos, 4) != DEV || count + 1 > MAX_DEVICES || !Has(data, pos, 20) then Bad
    else
      var version, length := Word(data, pos + 12, 4), Word(data, pos + 16, 4);
      match NameField(data[pos + 4..pos + 12])
      case None => Bad
      case Some(name) =>
        if version == 0 || DeviceSection(name) in sections || !Has(data, pos + 20, length) then Bad
        else ParseDevices(data, pos + 20 + length, count + 1,
                          sections[DeviceSection(name) := Section(pos + 20, length, version)])
  }

  method ReadDevices(c: Cursor, sections: Sections) returns (r: Option<Sections>)
    requires c.pos <= |c.bytes|
    modifies c
    ensures c.pos <= |c.bytes|
    ensures match ParseDevices(c.bytes, old(c.pos), 0, sections)
            case Bad => r == None
            case At(pos, s) => r == Some(s) && c.pos == pos
  {
    hide NameField, Word;
    var found, devices := sections, 0;
    ghost var whole := ParseDevices(c.bytes, c.pos, 0, sections);
    while true
      invariant c.pos <= |c.bytes|
      invariant whole == ParseDevices(c.bytes, c.pos, devices, found)
      decreases |c.bytes| - c.pos
    {
      var magic := c.Get(4);
      if magic.None? { return None; }
      if magic.value == END { return Some(found); }
      devices := devices + 1;
      if magic.value != DEV || devices > MAX_DEVICES { return None; }
      var next := ReadDevice(c, found);
      if next.None? { return None; }
      found := next.value;
    }
  }

  /** One device block after its magic word. */
  method ReadDevice(c: Cursor, sections: Sections) returns (r: Option<Sections>)
    requires 4 <= c.pos <= |c.bytes|
    modifies c
    ensures c.pos <= |c.bytes|
    ensures var at := old(c.pos) - 4;
            if !Has(c.bytes, at, 20) then r == None
            else
              var name := NameField(c.bytes[at + 4..at + 12]);
              var version, length := Word(c.bytes, at + 12, 4), Word(c.bytes, at + 16, 4);
              if name.None? || version == 0 || DeviceSection(name.value) in sections || !Has(c.bytes, at + 20, length)
              then r == None
              else
                && r == Some(sections[DeviceSection(name.value) := Section(at + 20, length, version)])
                && c.pos == at + 20 + length
  {
    hide NameField, FromLE;
    var padded := c.Text(8);
    if padded.None? { return None; }
    var name := NameField(padded.value);
    if name.None? { return None; }
    var version := c.Get(4);
    if version.None? { return None; }
    var length := c.Get(4);
    if length.None? || version.value == 0 { return None; }
    var begin := c.pos;
    if DeviceSection(name.value) in sections { return None; }
    var skipped := c.Text(length.value);
    if skipped.None? { return None; }
    r := Some(sections[DeviceSection(name.value) := Section(begin, length.value, version.value)]);
  }

  // ---------------------------------------------------------------- the manifest

  predicate Printable(m: seq<byte>) { forall i :: 0 <= i < |m| ==> 32 <= m[i] <= 126 }

  /** The first word of the text from `i` on: words are separated by spaces. */
  function WordEnd(m: seq<byte>, i: nat): (e: nat)
    requires i <= |m|
    ensures i <= e <= |m|
    decreases |m| - i
  {
    if i == |m| || m[i] == 32 then i else WordEnd(m, i + 1)
  }

  /** `field`: what follows `key=` in the first word that starts so, or nothing. */
  function FieldFrom(m: seq<byte>, i: nat, prefix: seq<byte>): seq<byte>
    requires i <= |m|
    decreases |m| - i
  {
    if i == |m| then []
    else if m[i] == 32 then FieldFrom(m, i + 1, prefix)
    else
      var e := WordEnd(m, i + 1);
      if prefix <= m[i..e] then m[i + |prefix|..e] else FieldFrom(m, e, prefix)
  }

  /** The text after the last `/p`, if there is one. */
  function Platform(s: seq<byte>): Option<seq<byte>> {
    if |s| < 2 then None
    else
      var rest := Platform(s[1..]);
      if rest.Some? then rest
      else if s[0] == 47 && s[1] == 112 then Some(s[2..])
      else None
  }

  const MACHINE_KEY: seq<byte> := [109, 97, 99, 104, 105, 110, 101, 61]   // "machine="

  /** A manifest must not name the other platform; 5 is the IIgs. */
  predicate Disagrees(m: seq<byte>, gs: bool) {
    var p := Platform(FieldFrom(m, 0, MACHINE_KEY));
    p.Some? && (p.value == [53]) != gs
  }

  predicate ManifestOk(m: seq<byte>, gs: bool) { 1 <= |m| <= 4096 && Printable(m) && !Disagrees(m, gs) }

  /** The optional trailer; nothing may follow it. */
  function ParseTrailer(data: seq<byte>, pos: nat, gs: bool): Parse<Option<seq<byte>>>
    requires pos <= |data|
  {
    if pos == |data| then At(pos, None)
    else if !Has(data, pos, 8) || Word(data, pos, 4) != MANIFEST then Bad
    else
      var n := Word(data, pos + 4, 4);
      if n == 0 || n > 4096 || !Has(data, pos + 8, n) then Bad
      else
        var m := data[pos + 8..pos + 8 + n];
        if !ManifestOk(m, gs) || pos + 8 + n != |data| then Bad else At(|data|, Some(m))
  }

  method ReadTrailer(c: Cursor, gs: bool) returns (r: Option<Option<seq<byte>>>)
    requires c.pos <= |c.bytes|
    modifies c
    ensures match ParseTrailer(c.bytes, old(c.pos), gs)
            case Bad => r == None
            case At(_, m) => r == Some(m)
  {
    hide FromLE, Disagrees;
    if c.pos == |c.bytes| { return Some(None); }
    var magic := c.Get(4);
    if magic != Some(MANIFEST) { return None; }
    var n := c.Get(4);
    if n.None? || n.value == 0 || n.value > 4096 { return None; }
    var m := c.Text(n.value);
    if m.None? || !Printable(m.value) || Disagrees(m.value, gs) || c.pos != |c.bytes| { return None; }
    r := Some(m);
  }

  // ---------------------------------------------------------------- the whole file

  function AfterMmu(data: seq<byte>, gs: bool, pos: nat, mmu: Sections, ram: nat, rom: nat): Parse<Layout>
    requires Has(data, 8, Size(CPU_WIDTHS))
  {
    match ParseDevices(data, pos, 0, mmu)
    case Bad => Bad
    case At(pos', sections) =>
      match ParseTrailer(data, pos', gs)
      case Bad => Bad
      case At(end, m) => At(end, Layout(sections, ReadFields(data, 8, CPU_WIDTHS), ram, rom, m))
  }

  function ParseLayout(data: seq<byte>, gs: bool): Parse<Layout> {
    var at := 8 + Size(CPU_WIDTHS);
    if !Has(data, 0, 8) || Word(data, 0, 4) != MAGIC || Word(data, 4, 4) != 1 || !Has(data, 8, Size(CPU_WIDTHS)) then Bad
    else if gs then
      if !Has(data, at, 8) then Bad
      else
        var ram, rom := Word(data, at, 4), Word(data, at + 4, 4);
        if ram == 0 || ram > 256 || rom == 0 || rom > 4 then Bad
        else
          match ParseParts(data, at + 8, GsParts(ram, rom), map[])
          case Bad => Bad
          case At(pos, mmu) => AfterMmu(data, gs, pos, mmu, ram, rom)
    else
      match ParseParts(data, at, IieParts("iie"), map[])
      case Bad => Bad
      case At(pos, mmu) => AfterMmu(data, gs, pos, mmu, 0, 0)
  }

  /** `parse_layout`. */
  method ReadLayout(data: seq<byte>, gs: bool) returns (r: Option<Layout>)
    ensures match ParseLayout(data, gs)
            case Bad => r == None
            case At(_, l) => r == Some(l)
  {
    hide FromLE, ParseParts, AfterMmu, GsParts, IieParts, Size, ReadFields;
    var c := new Cursor(data);
    var magic := c.Get(4);
    if magic != Some(MAGIC) { return None; }
    var version := c.Get(4);
    if version != Some(1) { return None; }
    var registers := ReadRegisters(c, CPU_WIDTHS);
    if registers.None? { return None; }
    var ram, rom := Some(0), Some(0);
    if gs {
      ram := c.Get(4);
      if ram.None? { return None; }
      rom := c.Get(4);
      if rom.None? || ram.value == 0 || ram.value > 256 || rom.value == 0 || rom.value > 4 { return None; }
    }
    var mmu := ReadParts(c, if gs then GsParts(ram.value, rom.value) else IieParts("iie"), map[]);
    if mmu.None? { return None; }
    r := ReadAfterMmu(c, gs, mmu.value, registers.value, ram.value, rom.value);
  }

  method ReadAfterMmu(c: Cursor, gs: bool, mmu: Sections, registers: seq<nat>, ram: nat, rom: nat) returns (r: Option<Layout>)
    requires c.pos <= |c.bytes| && Has(c.bytes, 8, Size(CPU_WIDTHS)) && registers == ReadFields(c.bytes, 8, CPU_WIDTHS)
    modifies c
    ensures match AfterMmu(c.bytes, gs, old(c.pos), mmu, ram, rom)
            case Bad => r == None
            case At(_, l) => r == Some(l)
  {
    hide ParseDevices, ParseTrailer, Size, ReadFields;
    var sections := ReadDevices(c, mmu);
    if sections.None? { return None; }
    var manifest := ReadTrailer(c, gs);
    if manifest.None? { return None; }
    r := Some(Layout(sections.value, registers, ram, rom, manifest.value));
  }

  method ReadRegisters(c: Cursor, w: seq<nat>) returns (vs: Option<seq<nat>>)
    requires c.pos <= |c.bytes|
    modifies c
    ensures c.pos <= |c.bytes|
    ensures if Has(c.bytes, old(c.pos), Size(w)) then
              vs == Some(ReadFields(c.bytes, old(c.pos), w)) && c.pos == old(c.pos) + Size(w)
            else vs == None
  {
    hide FromLE;
    var values, at := [], c.pos;
    for k := 0 to |w|
      invariant c.pos == at + Size(w[..k]) <= |c.bytes|
      invariant values == ReadFields(c.bytes, at, w[..k])
    {
      assert w[..k + 1][..k] == w[..k];
      PrefixSize(w, k + 1);
      var v := c.Get(w[k]);
      if v.None? { return None; }
      values := values + [v.value];
    }
    assert w[..|w|] == w;
    vs := Some(values);
  }

  lemma {:induction false} PrefixSize(w: seq<nat>, k: nat)
    requires k <= |w|
    ensures Size(w[..k]) <= Size(w)
    decreases |w| - k
  {
    if k == |w| {
      assert w[..k] == w;
    } else {
      assert w[..k + 1][..k] == w[..k];
      PrefixSize(w, k + 1);
    }
  }
}
