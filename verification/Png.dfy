/** The image writer (src/a2gspu_png.hpp): chunks with a checksum each, around the compressed
    scan lines, against a reader written from sections 3.2 and 4.1 of RFC 2083.
 */
module Png {

  import opened Options
  import opened Bytes
  import opened Zlib
  import opened Crc

  const SIGNATURE: seq<byte> := [0x89, 0x50, 0x4E, 0x47, 0x0D, 0x0A, 0x1A, 0x0A]
  const IHDR: seq<byte> := [0x49, 0x48, 0x44, 0x52]
  const IDAT: seq<byte> := [0x49, 0x44, 0x41, 0x54]
  const IEND: seq<byte> := [0x49, 0x45, 0x4E, 0x44]
  const MODULUS := 0x1_0000_0000

  // ---------------------------------------------------------------- chunks

  function Inverted(c: word): word { c ^ 0xFFFF_FFFF }

  /** The checksum of a chunk's type and data: bitwise division, started from all ones and
      inverted at the end. */
  function CrcValue(bs: seq<byte>): (r: nat)
    ensures r < MODULUS
  {
    Inverted(Serial(0xFFFF_FFFF, BitsOf(bs))) as nat
  }

  /** The length is cast to 32 bits. */
  function Chunk(kind: seq<byte>, data: seq<byte>): seq<byte>
    requires |kind| == 4
  {
    BE32(|data| % MODULUS) + kind + data + BE32(CrcValue(kind + data))
  }

  method AppendChunk(table: Table, out: seq<byte>, kind: seq<byte>, data: seq<byte>) returns (r: seq<byte>)
    requires table.Valid() && |kind| == 4
    modifies table`filled, table.entries
    ensures table.Valid() && r == out + Chunk(kind, data)
  {
    hide BE32, Serial, BitsOf;
    r := out + BE32(|data| % MODULUS);
    var start := |r|;
    r := r + kind;
    if |data| > 0 { r := r + data; }
    assert data == [] ==> kind + data == kind;
    assert r[start..] == kind + data;
    var c := table.Of(r[start..], 0xFFFF_FFFF);
    r := r + BE32(Inverted(c) as nat);
    assert r == out + Chunk(kind, data);
  }

  datatype Piece = Piece(kind: seq<byte>, data: seq<byte>)

  /** Every chunk is whole and its checksum is right. */
  function ReadChunks(file: seq<byte>): Option<seq<Piece>> {
    if file == [] then Some([])
    else if |file| < 12 then None
    else
      var n := FromBE32(file[0..4]);
      if |file| < 12 + n || FromBE32(file[8 + n..12 + n]) != CrcValue(file[4..8 + n]) then None
      else
        var rest := ReadChunks(file[12 + n..]);
        if rest.None? then None else Some([Piece(file[4..8], file[8..8 + n])] + rest.value)
  }

  lemma ChunkShape(kind: seq<byte>, data: seq<byte>, tail: seq<byte>)
    requires |kind| == 4 && |data| < MODULUS
    ensures var f, n := Chunk(kind, data) + tail, |data|;
            && |f| == 12 + n + |tail| && f[0..4] == BE32(n) && f[4..8] == kind && f[8..8 + n] == data
            && f[4..8 + n] == kind + data && f[8 + n..12 + n] == BE32(CrcValue(kind + data)) && f[12 + n..] == tail
  {
    hide BE32, CrcValue;
  }

  lemma ChunkIsRead(kind: seq<byte>, data: seq<byte>, tail: seq<byte>)
    requires |kind| == 4 && |data| < MODULUS
    ensures var rest := ReadChunks(tail);
            ReadChunks(Chunk(kind, data) + tail) == if rest.None? then None else Some([Piece(kind, data)] + rest.value)
  {
    hide BE32, FromBE32, CrcValue, Chunk;
    ChunkShape(kind, data, tail);
    BigEndianRoundTrip(|data|);
    BigEndianRoundTrip(CrcValue(kind + data));
  }

  // ---------------------------------------------------------------- scan lines

  /** Each line of `stride` bytes behind a filter byte 0. */
  function Lines(pix: seq<byte>, stride: nat, h: nat): seq<byte> {
    if h == 0 || |pix| < stride then [] else [0] + pix[..stride] + Lines(pix[stride..], stride, h - 1)
  }

  function Unfilter(raw: seq<byte>, stride: nat, h: nat): Option<seq<byte>> {
    if h == 0 then if raw == [] then Some([]) else None
    else if |raw| < 1 + stride || raw[0] != 0 then None
    else
      var rest := Unfilter(raw[1 + stride..], stride, h - 1);
      if rest.None? then None else Some(raw[1..1 + stride] + rest.value)
  }

  lemma {:induction false} LinesUnfilter(pix: seq<byte>, stride: nat, h: nat)
    requires |pix| == h * stride
    ensures Unfilter(Lines(pix, stride, h), stride, h) == Some(pix)
    ensures h > 0 ==> Lines(pix, stride, h) != []
  {
    hide Lines, Unfilter;
    if h == 0 {
      NoLine(pix, stride);
    } else {
      NextMultiple(stride, h - 1);
      LinesUnfilter(pix[stride..], stride, h - 1);
      FirstLine(pix, stride, 0, h);
      assert pix[0..] == pix;
      OneLine(pix[..stride], Lines(pix[stride..], stride, h - 1), h);
      assert pix[..stride] + pix[stride..] == pix;
    }
  }

  lemma NoLine(pix: seq<byte>, stride: nat)
    requires pix == []
    ensures Lines(pix, stride, 0) == [] && Unfilter([], stride, 0) == Some(pix)
  {
  }

  lemma OneLine(line: seq<byte>, rest: seq<byte>, h: nat)
    requires h > 0
    ensures var tail := Unfilter(rest, |line|, h - 1);
            Unfilter([0] + line + rest, |line|, h) == if tail.None? then None else Some(line + tail.value)
  {
    var raw := [0] + line + rest;
    assert raw[1..1 + |line|] == line && raw[1 + |line|..] == rest;
  }

  // ---------------------------------------------------------------- the file

  /** Grey (one channel) or RGB (three); eight bits each. */
  datatype Image = Image(w: nat, h: nat, channels: nat, pix: seq<byte>)
  {
    predicate Sized() {
      && w < 0x8000_0000 && h < 0x8000_0000 && (channels == 1 || channels == 3)
      && |pix| == h * (w * channels)
    }
    function Raw(): seq<byte> { Lines(pix, w * channels, h) }
  }

  function Header(i: Image): seq<byte> { BE32(i.w) + BE32(i.h) + [8, if i.channels == 1 then 0 else 2, 0, 0, 0] }

  function File(i: Image): seq<byte> {
    SIGNATURE + Chunk(IHDR, Header(i)) + Chunk(IDAT, Stream(i.Raw())) + Chunk(IEND, [])
  }

  /** `write_gray` and `write_rgb`, up to the file itself. */
  method WriteImage(table: Table, i: Image) returns (png: seq<byte>)
    requires table.Valid() && i.Sized()
    modifies table`filled, table.entries
    ensures table.Valid() && png == File(i)
  {
    hide BE32, Chunk, Stream;
    png := SIGNATURE;
    png := AppendChunk(table, png, IHDR, BE32(i.w) + BE32(i.h) + [8, if i.channels == 1 then 0 else 2, 0, 0, 0]);
    var raw := Scan(i);
    var z := Compress(raw);
    png := AppendChunk(table, png, IDAT, z);
    png := AppendChunk(table, png, IEND, []);
  }

  method Scan(i: Image) returns (raw: seq<byte>)
    requires i.Sized()
    ensures raw == i.Raw()
  {
    hide Lines;
    var stride := i.w * i.channels;
    raw := [];
    assert i.pix[0..] == i.pix;
    NoLines(stride);
    for y := 0 to i.h
      invariant 0 <= y * stride <= |i.pix| && raw + Lines(i.pix[y * stride..], stride, i.h - y) == i.Raw()
    {
      LineAt(i.pix, stride, i.h, y);
      var at := y * stride;
      raw := raw + ([0] + i.pix[at..at + stride]);
    }
    NoLines(stride);
    assert raw + [] == raw;
  }

  lemma NoLines(stride: nat)
    ensures forall pix: seq<byte> :: Lines(pix, stride, 0) == []
    ensures 0 * stride == 0
  {
  }

  lemma LineAt(pix: seq<byte>, stride: nat, h: nat, y: nat)
    requires y < h && |pix| == h * stride
    ensures 0 <= y * stride <= y * stride + stride <= |pix| && y * stride + stride == (y + 1) * stride
    ensures Lines(pix[y * stride..], stride, h - y)
            == [0] + pix[y * stride..y * stride + stride] + Lines(pix[(y + 1) * stride..], stride, h - (y + 1))
  {
    hide Lines;
    LineEnds(stride, h, y);
    FirstLine(pix, stride, y * stride, h - y);
  }

  lemma LineEnds(stride: nat, h: nat, y: nat)
    requires y < h
    ensures 0 <= y * stride && y * stride + stride == (y + 1) * stride <= h * stride
  {
    NextMultiple(stride, y);
    MultiplesGrow(stride, y + 1, h);
  }

  lemma NextMultiple(stride: nat, y: nat)
    ensures (y + 1) * stride == y * stride + stride && y * stride >= 0
  {
  }

  lemma {:induction false} MultiplesGrow(stride: nat, a: nat, b: nat)
    requires a <= b
    ensures a * stride <= b * stride
  {
    if a < b {
      MultiplesGrow(stride, a, b - 1);
      NextMultiple(stride, b - 1);
    }
  }

  lemma FirstLine(pix: seq<byte>, stride: nat, at: nat, n: nat)
    requires n > 0 && at + stride <= |pix|
    ensures Lines(pix[at..], stride, n) == [0] + pix[at..at + stride] + Lines(pix[at + stride..], stride, n - 1)
  {
    var left := pix[at..];
    assert left[..stride] == pix[at..at + stride] && left[stride..] == pix[at + stride..];
  }

  /** The data of a run of IDAT chunks. */
  function Joined(pieces: seq<Piece>): Option<seq<byte>> {
    if pieces == [] then Some([])
    else if pieces[0].kind != IDAT then None
    else
      var rest := Joined(pieces[1..]);
      if rest.None? then None else Some(pieces[0].data + rest.value)
  }

  function ReadHeader(data: seq<byte>): Option<(nat, nat, nat)> {
    if |data| != 13 || data[8] != 8 || (data[9] != 0 && data[9] != 2) || data[10..] != [0, 0, 0] then None
    else
      var w, h := FromBE32(data[0..4]), FromBE32(data[4..8]);
      if w == 0 || h == 0 || w >= 0x8000_0000 || h >= 0x8000_0000 then None
      else Some((w, h, if data[9] == 0 then 1 else 3))
  }

  /** A reader of 8-bit grey and RGB images without interlacing, with filter 0 on every line. */
  function Read(file: seq<byte>): Option<Image> {
    if |file| < 8 || file[..8] != SIGNATURE then None
    else
      var pieces := ReadChunks(file[8..]);
      if pieces.None? then None else ReadPieces(pieces.value)
  }

  function ReadPieces(ps: seq<Piece>): Option<Image> {
    var n := |ps|;
    if n < 3 || ps[0].kind != IHDR || ps[n - 1] != Piece(IEND, []) then None
    else
      var header, z := ReadHeader(ps[0].data), Joined(ps[1..n - 1]);
      if header.None? || z.None? then None
      else
        var raw := Decode(z.value);
        if raw.None? then None else ReadPixels(header.value.0, header.value.1, header.value.2, raw.value)
  }

  function ReadPixels(w: nat, h: nat, channels: nat, raw: seq<byte>): Option<Image> {
    var pix := Unfilter(raw, w * channels, h);
    if pix.None? then None else Some(Image(w, h, channels, pix.value))
  }

  lemma HeaderReads(i: Image)
    requires i.Sized()
    ensures ReadHeader(Header(i)) == if i.w > 0 && i.h > 0 then Some((i.w, i.h, i.channels)) else None
    ensures |Header(i)| == 13
  {
    hide BE32, FromBE32;
    BigEndianRoundTrip(i.w);
    BigEndianRoundTrip(i.h);
    var d := Header(i);
    assert d[0..4] == BE32(i.w) && d[4..8] == BE32(i.h) && d[8] == 8 && d[10..] == [0, 0, 0];
  }

  lemma FileChunks(i: Image)
    requires i.Sized() && |Stream(i.Raw())| < MODULUS
    ensures ReadChunks(File(i)[8..]) == Some([Piece(IHDR, Header(i)), Piece(IDAT, Stream(i.Raw())), Piece(IEND, [])])
    ensures |File(i)| >= 8 && File(i)[..8] == SIGNATURE
  {
    hide ReadChunks, Chunk, Stream, Header;
    HeaderReads(i);
    ThreeChunks(Header(i), Stream(i.Raw()));
    var a, b, c := Chunk(IHDR, Header(i)), Chunk(IDAT, Stream(i.Raw())), Chunk(IEND, []);
    assert File(i) == SIGNATURE + (a + (b + c));
  }

  lemma ThreeChunks(header: seq<byte>, z: seq<byte>)
    requires |header| < MODULUS && |z| < MODULUS
    ensures ReadChunks(Chunk(IHDR, header) + (Chunk(IDAT, z) + Chunk(IEND, []))) == Some([Piece(IHDR, header), Piece(IDAT, z), Piece(IEND, [])])
  {
    hide ReadChunks, Chunk;
    NoChunks();
    var e := Chunk(IEND, []);
    assert e + [] == e;
    ChunkIsRead(IEND, [], []);
    var end: seq<Piece> := [Piece(IEND, [])];
    assert [Piece(IEND, [])] + [] == end;
    ChunkIsRead(IDAT, z, e);
    assert [Piece(IDAT, z)] + end == [Piece(IDAT, z), Piece(IEND, [])];
    ChunkIsRead(IHDR, header, Chunk(IDAT, z) + e);
    assert [Piece(IHDR, header)] + [Piece(IDAT, z), Piece(IEND, [])] == [Piece(IHDR, header), Piece(IDAT, z), Piece(IEND, [])];
  }

  lemma NoChunks()
    ensures ReadChunks([]) == Some([])
  {
  }

  lemma JoinOne(data: seq<byte>)
    ensures Joined([Piece(IDAT, data)]) == Some(data)
  {
    assert [Piece(IDAT, data)][1..] == [];
    assert data + [] == data;
  }

  /** A written image reads back as itself; one without a pixel is not an image at all. */
  lemma ImageRoundTrip(i: Image)
    requires i.Sized() && |Stream(i.Raw())| < MODULUS
    ensures Read(File(i)) == if i.w > 0 && i.h > 0 then Some(i) else None
  {
    hide ReadChunks, Chunk, Stream, File, Header, Decode, ReadHeader, Unfilter, Joined, Lines, ReadPixels;
    FileChunks(i);
    HeaderReads(i);
    JoinOne(Stream(i.Raw()));
    PiecesRead(i);
  }

  lemma PiecesRead(i: Image)
    requires i.Sized()
    ensures ReadPieces([Piece(IHDR, Header(i)), Piece(IDAT, Stream(i.Raw())), Piece(IEND, [])])
            == if i.w > 0 && i.h > 0 then Some(i) else None
  {
    hide Stream, Header, Decode, ReadHeader, Unfilter, Joined, Lines;
    HeaderReads(i);
    var z := Stream(i.Raw());
    JoinOne(z);
    var ps := [Piece(IHDR, Header(i)), Piece(IDAT, z), Piece(IEND, [])];
    assert ps[1..2] == [Piece(IDAT, z)];
    LinesUnfilter(i.pix, i.w * i.channels, i.h);
    StreamDecodes(i.Raw());
  }

  /** The last chunk of every file, byte by byte. */
  lemma EndChunkIsKnown()
    ensures Chunk(IEND, []) == [0, 0, 0, 0, 0x49, 0x45, 0x4E, 0x44, 0xAE, 0x42, 0x60, 0x82]
  {
    hide Serial, BitsOf, BE32, Inverted;
    assert IEND + [] == IEND;
    EndIsKnown(IEND);
    EndInverted();
    FourBytes();
  }

  lemma EndInverted()
    ensures Inverted(0x51BD_9F7D) as nat == 0xAE42_6082
  {
    assert Inverted(0x51BD_9F7D) == 0xAE42_6082;
  }

  lemma FourBytes()
    ensures BE32(0) == [0, 0, 0, 0] && BE32(0xAE42_6082) == [0xAE, 0x42, 0x60, 0x82]
  {
  }
}
