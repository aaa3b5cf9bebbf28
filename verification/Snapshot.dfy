/** Writing a snapshot (src/a2gspu_snapshot.cpp): the CPU block, device blocks whose lengths
    are patched in after their payload, the sentinel and the manifest.
 */
module Snapshot {
  import opened Options
  import opened Bytes

  const MAGIC := 0x47535053
  const VERSION := 1
  const MANIFEST := 0x4D505347
  const DEV := 0x56445347
  const END := 0x444E4553

  // ---------------------------------------------------------------- files

  function Overwrite(data: seq<byte>, at: nat, bs: seq<byte>): seq<byte>
    requires at <= |data|
  {
    data[..at] + bs + if at + |bs| <= |data| then data[at + |bs|..] else []
  }

  /** A stdio file: its bytes and its position. */
  class File {
    var data: seq<byte>
    var pos: nat

    predicate AtEnd()
      reads this
    {
      pos == |data|
    }

    constructor (bs: seq<byte>)
      ensures data == bs && pos == 0
    {
      data, pos := bs, 0;
    }

    method Write(bs: seq<byte>)
      requires pos <= |data|
      modifies this
      ensures data == Overwrite(old(data), old(pos), bs) && pos == old(pos) + |bs|
    {
      data := Overwrite(data, pos, bs);
      pos := pos + |bs|;
    }

    /** A write at the end of the file. */
    method Append(bs: seq<byte>)
      requires AtEnd()
      modifies this
      ensures data == old(data) + bs && AtEnd()
    {
      Write(bs);
    }

    method Seek(at: nat)
      modifies this
      ensures pos == at && data == old(data)
    {
      pos := at;
    }

    /** `fread` of one item of `n` bytes. */
    method Read(n: nat) returns (bs: Option<seq<byte>>)
      modifies this
      ensures data == old(data)
      ensures if Has(data, old(pos), n) then bs == Some(data[old(pos)..old(pos) + n]) && pos == old(pos) + n
              else bs == None
    {
      if pos + n <= |data| {
        bs := Some(data[pos..pos + n]);
        pos := pos + n;
      } else {
        bs := None;
        if pos < |data| { pos := |data|; }
      }
    }
  }

  // ---------------------------------------------------------------- fixed-width fields

  datatype Field = Field(width: nat, value: nat)

  function EncodeFields(fs: seq<Field>): seq<byte> {
    if fs == [] then [] else EncodeFields(fs[..|fs| - 1]) + LE(fs[|fs| - 1].width, fs[|fs| - 1].value)
  }

  function Size(widths: seq<nat>): nat {
    if widths == [] then 0 else Size(widths[..|widths| - 1]) + widths[|widths| - 1]
  }

  /** The values of consecutive fields of the given widths. */
  function ReadFields(data: seq<byte>, at: nat, widths: seq<nat>): (vs: seq<nat>)
    requires Has(data, at, Size(widths))
    ensures |vs| == |widths|
  {
    if widths == [] then []
    else
      var w := widths[|widths| - 1];
      var before := widths[..|widths| - 1];
      ReadFields(data, at, before) + [Word(data, at + Size(before), w)]
  }

  function Widths(fs: seq<Field>): seq<nat> { if fs == [] then [] else Widths(fs[..|fs| - 1]) + [fs[|fs| - 1].width] }

  function Values(fs: seq<Field>): seq<nat> { if fs == [] then [] else Values(fs[..|fs| - 1]) + [fs[|fs| - 1].value] }

  predicate Fit(fs: seq<Field>) { forall f <- fs :: f.value < Pow256(f.width) }

  lemma {:induction false} FieldsRoundTrip(front: seq<byte>, fs: seq<Field>, tail: seq<byte>)
    requires Fit(fs)
    ensures |EncodeFields(fs)| == Size(Widths(fs))
    ensures ReadFields(front + EncodeFields(fs) + tail, |front|, Widths(fs)) == Values(fs)
  {
    hide LE, Word, Pow256;
    if fs != [] {
      var last, before := fs[|fs| - 1], fs[..|fs| - 1];
      var word, done := LE(last.width, last.value), EncodeFields(fs[..|fs| - 1]);
      assert Widths(fs)[..|Widths(fs)| - 1] == Widths(before);
      FieldsRoundTrip(front, before, word + tail);
      assert front + (done + word) + tail == front + done + (word + tail) == (front + done) + word + tail;
      WordAt(front + done, last.width, last.value, tail);
    }
  }

  // ---------------------------------------------------------------- the CPU block

  datatype Cpu = Cpu(
    pc: nat, db: nat, sp: nat, a: nat, x: nat, y: nat, d: nat, p: nat, e: bool, stopped: bool,
    halt: nat, irq: bool, pipe: nat, reset: nat, rdy: bool)

  function Bit(b: bool): nat { if b then 1 else 0 }

  function CpuFields(c: Cpu): seq<Field> {
    [Field(4, c.pc), Field(4, c.db), Field(2, c.sp), Field(2, c.a), Field(2, c.x), Field(2, c.y), Field(2, c.d),
     Field(1, c.p), Field(1, Bit(c.e)), Field(1, Bit(c.stopped)), Field(1, c.halt), Field(1, Bit(c.irq)),
     Field(1, c.pipe), Field(8, c.reset), Field(1, Bit(c.rdy))]
  }

  /** Registers have the widths they are saved with. */
  predicate CpuFits(c: Cpu) { Fit(CpuFields(c)) }

  const CPU_WIDTHS: seq<nat> := [4, 4, 2, 2, 2, 2, 2, 1, 1, 1, 1, 1, 1, 8, 1]

  function CpuBlock(c: Cpu): seq<byte> { LE(4, MAGIC) + LE(4, VERSION) + EncodeFields(CpuFields(c)) }

  /** How the loader stores a field: single bits are masked or compared with zero. */
  function SetField(c: Cpu, k: nat, v: nat): Cpu {
    match k
    case 0 => c.(pc := v)
    case 1 => c.(db := v)
    case 2 => c.(sp := v)
    case 3 => c.(a := v)
    case 4 => c.(x := v)
    case 5 => c.(y := v)
    case 6 => c.(d := v)
    case 7 => c.(p := v)
    case 8 => c.(e := v % 2 == 1)
    case 9 => c.(stopped := v != 0)
    case 10 => c.(halt := v)
    case 11 => c.(irq := v != 0)
    case 12 => c.(pipe := v)
    case 13 => c.(reset := v)
    case _ => c.(rdy := v != 0)
  }

  function SetFields(c: Cpu, vs: seq<nat>): Cpu {
    if vs == [] then c else SetField(SetFields(c, vs[..|vs| - 1]), |vs| - 1, vs[|vs| - 1])
  }

  /** Field `k` of a register file, as it is saved. */
  function GetField(c: Cpu, k: nat): nat {
    match k
    case 0 => c.pc
    case 1 => c.db
    case 2 => c.sp
    case 3 => c.a
    case 4 => c.x
    case 5 => c.y
    case 6 => c.d
    case 7 => c.p
    case 8 => Bit(c.e)
    case 9 => Bit(c.stopped)
    case 10 => c.halt
    case 11 => Bit(c.irq)
    case 12 => c.pipe
    case 13 => c.reset
    case _ => Bit(c.rdy)
  }

  lemma FieldsInOrder(c: Cpu, k: nat)
    requires k < 15
    ensures CpuFields(c)[k] == Field(CPU_WIDTHS[k], GetField(c, k))
  {
  }

  /** What a stored value reads back as. */
  function Stored(k: nat, v: nat): nat {
    if k == 8 then v % 2 else if k == 9 || k == 11 || k == 14 then (if v == 0 then 0 else 1) else v
  }

  lemma SetThenGet(c: Cpu, k: nat, v: nat, j: nat)
    requires k < 15 && j < 15
    ensures GetField(SetField(c, k, v), j) == if j == k then Stored(k, v) else GetField(c, j)
  {
    hide SetField, GetField, Stored;
    if k < 5 { SetThenGetLow(c, k, v, j); } else if k < 10 { SetThenGetMid(c, k, v, j); } else { SetThenGetHigh(c, k, v, j); }
  }

  lemma SetThenGetLow(c: Cpu, k: nat, v: nat, j: nat)
    requires k < 5 && j < 15
    ensures GetField(SetField(c, k, v), j) == if j == k then Stored(k, v) else GetField(c, j)
  {
  }

  lemma SetThenGetHigh(c: Cpu, k: nat, v: nat, j: nat)
    requires 10 <= k < 15 && j < 15
    ensures GetField(SetField(c, k, v), j) == if j == k then Stored(k, v) else GetField(c, j)
  {
    match k
    case 10 =>
    case 11 =>
    case 12 =>
    case 13 =>
    case _ =>
  }

  lemma SetThenGetMid(c: Cpu, k: nat, v: nat, j: nat)
    requires 5 <= k < 10 && j < 15
    ensures GetField(SetField(c, k, v), j) == if j == k then Stored(k, v) else GetField(c, j)
  {
  }

  lemma {:induction false} SetFieldsThenGet(c: Cpu, vs: seq<nat>, j: nat)
    requires |vs| <= 15 && j < 15
    ensures GetField(SetFields(c, vs), j) == if j < |vs| then Stored(j, vs[j]) else GetField(c, j)
  {
    if vs != [] {
      SetFieldsThenGet(c, vs[..|vs| - 1], j);
      SetThenGet(SetFields(c, vs[..|vs| - 1]), |vs| - 1, vs[|vs| - 1], j);
    }
  }

  lemma SameFieldsSameCpu(a: Cpu, b: Cpu)
    requires forall k: nat | k < 15 :: GetField(a, k) == GetField(b, k)
    ensures a == b
  {
    assert GetField(a, 0) == GetField(b, 0) && GetField(a, 1) == GetField(b, 1) && GetField(a, 2) == GetField(b, 2);
    assert GetField(a, 3) == GetField(b, 3) && GetField(a, 4) == GetField(b, 4) && GetField(a, 5) == GetField(b, 5);
    assert GetField(a, 6) == GetField(b, 6) && GetField(a, 7) == GetField(b, 7) && GetField(a, 8) == GetField(b, 8);
    assert GetField(a, 9) == GetField(b, 9) && GetField(a, 10) == GetField(b, 10) && GetField(a, 11) == GetField(b, 11);
    assert GetField(a, 12) == GetField(b, 12) && GetField(a, 13) == GetField(b, 13) && GetField(a, 14) == GetField(b, 14);
  }

  lemma {:induction false} WidthsAre(fs: seq<Field>)
    ensures |Widths(fs)| == |fs| == |Values(fs)|
    ensures forall i :: 0 <= i < |fs| ==> Widths(fs)[i] == fs[i].width && Values(fs)[i] == fs[i].value
  {
    if fs != [] { WidthsAre(fs[..|fs| - 1]); }
  }

  /** Storing all fifteen saved fields leaves nothing of the register file they go into. */
  lemma StoringReplaces(c: Cpu, saved: Cpu)
    ensures Widths(CpuFields(saved)) == CPU_WIDTHS
    ensures SetFields(c, Values(CpuFields(saved))) == saved
  {
    var fs := CpuFields(saved);
    WidthsAre(fs);
    forall j: nat | j < 15
      ensures GetField(SetFields(c, Values(fs)), j) == GetField(saved, j) && Widths(fs)[j] == CPU_WIDTHS[j]
    {
      FieldsInOrder(saved, j);
      SetFieldsThenGet(c, Values(fs), j);
    }
    SameFieldsSameCpu(SetFields(c, Values(fs)), saved);
  }

  /** `a2gspu_cpu_save`. */
  method SaveCpu(f: File, c: Cpu)
    requires f.AtEnd()
    modifies f
    ensures f.data == old(f.data) + CpuBlock(c) && f.AtEnd()
  {
    var magic, version := LE(4, MAGIC), LE(4, VERSION);
    f.Append(magic);
    f.Append(version);
    WriteFields(f, CpuFields(c));
    Regroup4(old(f.data), magic, version, EncodeFields(CpuFields(c)));
  }

  method WriteFields(f: File, fs: seq<Field>)
    requires f.AtEnd()
    modifies f
    ensures f.data == old(f.data) + EncodeFields(fs) && f.AtEnd()
  {
    for k := 0 to |fs|
      invariant f.AtEnd() && f.data == old(f.data) + EncodeFields(fs[..k])
    {
      assert fs[..k + 1][..k] == fs[..k];
      var word := LE(fs[k].width, fs[k].value);
      f.Append(word);
      Regroup(old(f.data), EncodeFields(fs[..k]), word);
    }
    assert fs[..|fs|] == fs;
  }

  lemma Regroup(a: seq<byte>, b: seq<byte>, c: seq<byte>)
    ensures a + b + c == a + (b + c)
  {
  }

  lemma Regroup4(a: seq<byte>, b: seq<byte>, c: seq<byte>, d: seq<byte>)
    ensures a + b + c + d == a + (b + c + d)
  {
  }

  // ---------------------------------------------------------------- device blocks

  /** A payload: plain bytes, and records that carry their own length. */
  datatype Piece = Raw(bs: seq<byte>) | Sized(body: seq<Piece>)

  const U32 := 0x1_0000_0000

  function Flat(ps: seq<Piece>): seq<byte>
    decreases ps, 0
  {
    if ps == [] then [] else FlatPiece(ps[0]) + Flat(ps[1..])
  }

  function FlatPiece(p: Piece): seq<byte>
    decreases p, 1
  {
    match p
    case Raw(bs) => bs
    case Sized(body) => LE(4, |Flat(body)| % U32) + Flat(body)
  }

  datatype Device = Device(name: seq<byte>, version: nat, payload: seq<Piece>)

  /** An 8-byte field holding at most 7 bytes of the name. */
  function Padded(name: seq<byte>): (p: seq<byte>)
    ensures |p| == 8
  {
    var n := if |name| <= 7 then name else name[..7];
    n + seq(8 - |n|, _ => 0)
  }

  function BlockHead(name: seq<byte>, version: nat): seq<byte> { LE(4, DEV) + Padded(name) + LE(4, version % U32) }

  function Block(d: Device): seq<byte> {
    BlockHead(d.name, d.version) + LE(4, |Flat(d.payload)| % U32) + Flat(d.payload)
  }

  function Blocks(ds: seq<Device>): seq<byte> { if ds == [] then [] else Block(ds[0]) + Blocks(ds[1..]) }

  /** `a2gspu_snap_len_begin`: a length that is not known yet. */
  method LenBegin(f: File) returns (at: nat)
    requires f.AtEnd()
    modifies f
    ensures at == |old(f.data)| && f.data == old(f.data) + LE(4, 0) && f.AtEnd()
  {
    at := f.pos;
    f.Append(LE(4, 0));
  }

  /** `a2gspu_snap_len_end`: patch the length, then come back to the end. */
  method LenEnd(f: File, at: nat)
    requires f.AtEnd() && at + 4 <= |f.data|
    modifies f
    ensures f.data == old(f.data)[..at] + LE(4, (|old(f.data)| - at - 4) % U32) + old(f.data)[at + 4..]
    ensures f.AtEnd()
  {
    var end := f.pos;
    var len := (end - at - 4) % U32;
    f.Seek(at);
    f.Write(LE(4, len));
    f.Seek(end);
  }

  /** A patched record is the record with its length in front. */
  lemma Patched(front: seq<byte>, body: seq<byte>)
    ensures var data := front + LE(4, 0) + body; var at := |front|;
            data[..at] + LE(4, (|data| - at - 4) % U32) + data[at + 4..] == front + (LE(4, |body| % U32) + body)
  {
  }

  method WritePieces(f: File, ps: seq<Piece>)
    requires f.AtEnd()
    modifies f
    ensures f.data == old(f.data) + Flat(ps) && f.AtEnd()
    decreases ps
  {
    if ps == [] {
      return;
    }
    match ps[0] {
      case Raw(bs) => f.Append(bs);
      case Sized(body) =>
        var at := LenBegin(f);
        WritePieces(f, body);
        LenEnd(f, at);
        Patched(old(f.data), Flat(body));
    }
    assert f.data == old(f.data) + FlatPiece(ps[0]);
    WritePieces(f, ps[1..]);
    Regroup(old(f.data), FlatPiece(ps[0]), Flat(ps[1..]));
  }

  method WriteDevice(f: File, d: Device)
    requires f.AtEnd()
    modifies f
    ensures f.data == old(f.data) + Block(d) && f.AtEnd()
  {
    f.Append(LE(4, DEV));
    f.Append(Padded(d.name));
    f.Append(LE(4, d.version % U32));
    Regroup4(old(f.data), LE(4, DEV), Padded(d.name), LE(4, d.version % U32));
    ghost var head := BlockHead(d.name, d.version);
    ghost var front := old(f.data) + head;
    var at := LenBegin(f);
    WritePieces(f, d.payload);
    LenEnd(f, at);
    Patched(front, Flat(d.payload));
    Regroup4(old(f.data), head, LE(4, |Flat(d.payload)| % U32), Flat(d.payload));
  }

  method WriteDevices(f: File, ds: seq<Device>)
    requires f.AtEnd()
    modifies f
    ensures f.data == old(f.data) + Blocks(ds) && f.AtEnd()
    decreases |ds|
  {
    if ds != [] {
      WriteDevice(f, ds[0]);
      WriteDevices(f, ds[1..]);
      Regroup(old(f.data), Block(ds[0]), Blocks(ds[1..]));
    }
  }

  function Trailer(manifest: seq<byte>): seq<byte> { LE(4, MANIFEST) + LE(4, |manifest| % U32) + manifest }

  /** A whole snapshot file. */
  function FileBytes(c: Cpu, mmu: seq<byte>, ds: seq<Device>, manifest: seq<byte>): seq<byte> {
    CpuBlock(c) + mmu + Blocks(ds) + LE(4, END) + Trailer(manifest)
  }

  method WriteSnapshot(c: Cpu, mmu: seq<byte>, ds: seq<Device>, manifest: seq<byte>) returns (f: File)
    ensures fresh(f) && f.data == FileBytes(c, mmu, ds, manifest)
  {
    f := new File([]);
    SaveCpu(f, c);
    assert f.data == CpuBlock(c);
    f.Append(mmu);
    WriteDevices(f, ds);
    WriteSentinel(f);
    WriteManifest(f, manifest);
  }

  method WriteSentinel(f: File)
    requires f.AtEnd()
    modifies f
    ensures f.data == old(f.data) + LE(4, END) && f.AtEnd()
  {
    f.Append(LE(4, END));
  }

  method WriteManifest(f: File, manifest: seq<byte>)
    requires f.AtEnd()
    modifies f
    ensures f.data == old(f.data) + Trailer(manifest) && f.AtEnd()
  {
    f.Append(LE(4, MANIFEST));
    f.Append(LE(4, |manifest| % U32));
    f.Append(manifest);
    Regroup4(old(f.data), LE(4, MANIFEST), LE(4, |manifest| % U32), manifest);
  }

  // ---------------------------------------------------------------- where the words are

  /** The header and the fields of a written CPU block, in front of any other bytes. */
  lemma RegistersReadBack(c: Cpu, tail: seq<byte>)
    requires CpuFits(c)
    ensures var data := CpuBlock(c) + tail;
            && |CpuBlock(c)| == 8 + Size(CPU_WIDTHS) && Has(data, 8, Size(CPU_WIDTHS))
            && Word(data, 0, 4) == MAGIC && Word(data, 4, 4) == VERSION
            && ReadFields(data, 8, CPU_WIDTHS) == Values(CpuFields(c))
  {
    hide LE, Word, CpuFields, EncodeFields, Fit, ReadFields, Size;
    var fs, m, v := CpuFields(c), LE(4, MAGIC), LE(4, VERSION);
    var data := CpuBlock(c) + tail;
    StoringReplaces(c, c);
    assert data == (m + v) + EncodeFields(fs) + tail;
    FieldsRoundTrip(m + v, fs, tail);
    Pow256Values();
    assert data == [] + m + (v + EncodeFields(fs) + tail);
    WordAt([], 4, MAGIC, v + EncodeFields(fs) + tail);
    assert data == m + v + (EncodeFields(fs) + tail);
    WordAt(m, 4, VERSION, EncodeFields(fs) + tail);
  }

  /** Where the parts of a written block are, between any other bytes. */
  lemma BlockShape(front: seq<byte>, d: Device, tail: seq<byte>)
    requires d.version < U32 && |Flat(d.payload)| < U32
    ensures var data := front + Block(d) + tail; var at := |front|;
            && |Block(d)| == 20 + |Flat(d.payload)| && Has(data, at, 20)
            && Word(data, at, 4) == DEV && data[at + 4..at + 12] == Padded(d.name)
            && Word(data, at + 12, 4) == d.version && Word(data, at + 16, 4) == |Flat(d.payload)|
            && data[at + 20..at + 20 + |Flat(d.payload)|] == Flat(d.payload)
  {
    hide LE, Word, Flat, Padded;
    var data := front + Block(d) + tail;
    var body := Flat(d.payload);
    var w0, w1, w2, w3 := LE(4, DEV), Padded(d.name), LE(4, d.version), LE(4, |body|);
    assert Block(d) == w0 + w1 + w2 + w3 + body;
    hide Block;
    FourWords(front, w0, w1, w2, w3, body, tail);
    Pow256Values();
    WordAt(front, 4, DEV, w1 + w2 + w3 + body + tail);
    WordAt(front + w0 + w1, 4, d.version, w3 + body + tail);
    WordAt(front + w0 + w1 + w2, 4, |body|, body + tail);
  }

  lemma FourWords(front: seq<byte>, w0: seq<byte>, w1: seq<byte>, w2: seq<byte>, w3: seq<byte>, body: seq<byte>, tail: seq<byte>)
    requires |w0| == |w2| == |w3| == 4 && |w1| == 8
    ensures var data := front + (w0 + w1 + w2 + w3 + body) + tail; var at := |front|;
            && data == front + w0 + (w1 + w2 + w3 + body + tail)
            && data == (front + w0 + w1) + w2 + (w3 + body + tail)
            && data == (front + w0 + w1 + w2) + w3 + (body + tail)
            && data[at + 4..at + 12] == w1 && data[at + 20..at + 20 + |body|] == body
  {
  }

  /** The words and the text of a written trailer. */
  lemma TrailerShape(front: seq<byte>, manifest: seq<byte>)
    requires |manifest| < U32
    ensures var data := front + Trailer(manifest); var at := |front|;
            && |data| == at + 8 + |manifest| && Word(data, at, 4) == MANIFEST && Word(data, at + 4, 4) == |manifest|
            && data[at + 8..at + 8 + |manifest|] == manifest
  {
    hide LE, Word;
    var a, b := LE(4, MANIFEST), LE(4, |manifest|);
    var data := front + Trailer(manifest);
    Pow256Values();
    assert data == front + a + (b + manifest);
    WordAt(front, 4, MANIFEST, b + manifest);
    assert data == (front + a) + b + manifest;
    WordAt(front + a, 4, |manifest|, manifest);
  }
}
