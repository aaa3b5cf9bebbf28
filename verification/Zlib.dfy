/** The zlib stream of the image writer (src/a2gspu_png.hpp): stored blocks and an incremental
    Adler-32, against a decoder written from section 2.2 of RFC 1950 and section 3.2.4 of RFC 1951.
 */
module Zlib {

  import opened Options
  import opened Bytes

  /** Big-endian, as `be32` pushes it. */
  function BE32(x: nat): (bs: seq<byte>)
    ensures |bs| == 4
  {
    [x / 0x100_0000 % 256, x / 0x1_0000 % 256, x / 0x100 % 256, x % 256]
  }

  function Two(low: byte, high: byte): nat { low as int + 256 * (high as int) }

  function FromBE32(bs: seq<byte>): nat
    requires |bs| == 4
  {
    Two(bs[3], bs[2]) + 0x1_0000 * Two(bs[1], bs[0])
  }

  lemma BigEndianRoundTrip(x: nat)
    requires x < 0x1_0000_0000
    ensures FromBE32(BE32(x)) == x
  {
    var a := x / 0x100;
    var b := a / 0x100;
    TopDigit(x);
    DivideTwice(x);
    DivideThrice(x);
    OneDigit(x);
    OneDigit(a);
    OneDigit(b);
    FromDigits(x % 0x100, a % 0x100, b % 0x100, b / 0x100);
  }

  lemma FromDigits(a: byte, b: byte, c: byte, d: byte)
    ensures FromBE32([d, c, b, a]) == ((d as int * 0x100 + c) * 0x100 + b) * 0x100 + a
  {
  }

  lemma OneDigit(x: nat)
    ensures x == x / 0x100 * 0x100 + x % 0x100
  {
  }

  lemma DivideTwice(x: nat)
    ensures x / 0x1_0000 == x / 0x100 / 0x100
  {
  }

  lemma DivideThrice(x: nat)
    ensures x / 0x100_0000 == x / 0x100 / 0x100 / 0x100
  {
  }

  lemma TopDigit(x: nat)
    requires x < 0x1_0000_0000
    ensures x / 0x100 / 0x100 / 0x100 < 0x100 && x / 0x100_0000 % 0x100 == x / 0x100_0000
  {
  }

  // ---------------------------------------------------------------- Adler-32

  const BASE := 65521

  /** One plus the sum of the bytes. */
  function SumA(raw: seq<byte>): nat { if raw == [] then 1 else SumA(raw[..|raw| - 1]) + raw[|raw| - 1] }

  /** The sum of the first sum after every byte. */
  function SumB(raw: seq<byte>): nat { if raw == [] then 0 else SumB(raw[..|raw| - 1]) + SumA(raw) }

  function Adler(raw: seq<byte>): (r: nat)
    ensures r < 0x1_0000_0000
  {
    SumB(raw) % BASE * 0x1_0000 + SumA(raw) % BASE
  }

  lemma AddModBase(x: nat, y: nat)
    ensures (x % BASE + y) % BASE == (x + y) % BASE
  {
    var q := x / BASE;
    assert x + y == x % BASE + y + BASE * q;
    MultiplesVanish(x % BASE + y, q);
  }

  lemma {:induction false} MultiplesVanish(x: nat, q: nat)
    ensures (x + BASE * q) % BASE == x % BASE
  {
    if q > 0 {
      MultiplesVanish(x, q - 1);
      assert x + BASE * q == x + BASE * (q - 1) + BASE;
    }
  }

  /** A checksum from the literature: that of "Wikipedia". */
  lemma AdlerIsKnown(w: seq<byte>)
    requires w == [0x57, 0x69, 0x6B, 0x69, 0x70, 0x65, 0x64, 0x69, 0x61]
    ensures Adler(w) == 0x11E6_0398
  {
    hide SumA, SumB;
    SumsOfHalf(w);
    SumsGrow(w, 5); SumsGrow(w, 6); SumsGrow(w, 7); SumsGrow(w, 8);
    assert w[..9] == w;
  }

  lemma SumsOfHalf(w: seq<byte>)
    requires |w| == 9 && w[0] == 0x57 && w[1] == 0x69 && w[2] == 0x6B && w[3] == 0x69 && w[4] == 0x70
    ensures SumA(w[..5]) == 517 && SumB(w[..5]) == 1503
  {
    assert SumA(w[..0]) == 1 && SumB(w[..0]) == 0;
    hide SumA, SumB;
    SumsGrow(w, 0); SumsGrow(w, 1); SumsGrow(w, 2); SumsGrow(w, 3); SumsGrow(w, 4);
  }

  /** Reducing at every step changes nothing. */
  method Checksum(raw: seq<byte>) returns (a: nat, b: nat)
    ensures a == SumA(raw) % BASE && b == SumB(raw) % BASE
  {
    a, b := 1, 0;
    assert raw[..0] == [];
    for i := 0 to |raw|
      invariant a == SumA(raw[..i]) % BASE && b == SumB(raw[..i]) % BASE
    {
      SumsGrow(raw, i);
      AddModBase(SumA(raw[..i]), raw[i]);
      AddModBase(SumB(raw[..i]), a + raw[i]);
      a := (a + raw[i]) % BASE;
      AddMod2(SumB(raw[..i]), SumA(raw[..i + 1]));
      b := (b + a) % BASE;
    }
    assert raw[..|raw|] == raw;
  }

  lemma SumsGrow(raw: seq<byte>, i: nat)
    requires i < |raw|
    ensures SumA(raw[..i + 1]) == SumA(raw[..i]) + raw[i] && SumB(raw[..i + 1]) == SumB(raw[..i]) + SumA(raw[..i + 1])
  {
    assert raw[..i + 1][..i] == raw[..i];
  }

  lemma AddMod2(x: nat, y: nat)
    ensures (x % BASE + y % BASE) % BASE == (x + y) % BASE
  {
    AddModBase(x, y);
    AddModBase(y, x % BASE);
  }

  // ---------------------------------------------------------------- stored blocks

  const LARGEST := 65535

  function Block(last: bool, data: seq<byte>): seq<byte>
    requires |data| <= LARGEST
  {
    var n := |data|;
    var nl := LARGEST - n;
    [if last then 1 else 0, n % 256, n / 256, nl % 256, nl / 256] + data
  }

  /** The blocks of a byte string: full ones, then the rest; none for the empty string. */
  function Blocks(raw: seq<byte>): seq<byte> {
    if raw == [] then []
    else if |raw| <= LARGEST then Block(true, raw)
    else Block(false, raw[..LARGEST]) + Blocks(raw[LARGEST..])
  }

  function Stream(raw: seq<byte>): seq<byte> { [0x78, 0x01] + Blocks(raw) + BE32(Adler(raw)) }

  method Compress(raw: seq<byte>) returns (z: seq<byte>)
    ensures z == Stream(raw)
  {
    hide Block, SumA, SumB;
    z := [0x78, 0x01];
    var off := 0;
    assert raw[0..] == raw;
    while off < |raw|
      invariant 0 <= off <= |raw|
      invariant z + Blocks(raw[off..]) == [0x78, 0x01] + Blocks(raw)
    {
      var n := |raw| - off;
      if n > LARGEST { n := LARGEST; }
      var last := off + n >= |raw|;
      var nl := LARGEST - n;
      NextBlock(z, raw, off, n);
      var block: seq<byte> := [if last then 1 else 0, n % 256, n / 256, nl % 256, nl / 256] + raw[off..off + n];
      z := z + block;
      off := off + n;
    }
    assert z == [0x78, 0x01] + Blocks(raw) by { assert raw[off..] == [] && z + [] == z; }
    var a, b := Checksum(raw);
    z := z + BE32(b * 0x1_0000 + a);
  }

  lemma BlockMeans(last: bool, data: seq<byte>)
    requires |data| <= LARGEST
    ensures var n, nl := |data|, LARGEST - |data|;
            Block(last, data) == [if last then 1 else 0, n % 256, n / 256, nl % 256, nl / 256] + data
  {
  }

  lemma NextBlock(z: seq<byte>, raw: seq<byte>, off: nat, n: nat)
    requires off < |raw| && n == if |raw| - off > LARGEST then LARGEST else |raw| - off
    ensures var nl := LARGEST - n;
            var b: seq<byte> := [if off + n >= |raw| then 1 else 0, n % 256, n / 256, nl % 256, nl / 256] + raw[off..off + n];
            z + Blocks(raw[off..]) == z + b + Blocks(raw[off + n..])
  {
    BlockMeans(off + n >= |raw|, raw[off..off + n]);
    hide Block;
    var left := raw[off..];
    assert left[n..] == raw[off + n..] && left[..n] == raw[off..off + n];
    var b := Block(off + n >= |raw|, left[..n]);
    assert Blocks(left) == b + Blocks(left[n..]) by {
      if n == |left| { assert left[..n] == left && b + [] == b; }
    }
    assert z + (b + Blocks(left[n..])) == z + b + Blocks(left[n..]);
  }

  // ---------------------------------------------------------------- the decoder

  /** Stored blocks up to the final one, and what follows them. */
  function ReadBlocks(z: seq<byte>): Option<(seq<byte>, seq<byte>)> {
    if |z| < 5 || z[0] / 2 % 4 != 0 then None
    else
      var n := Two(z[1], z[2]);
      if n + Two(z[3], z[4]) != LARGEST || |z| < 5 + n then None
      else if z[0] % 2 == 1 then Some((z[5..5 + n], z[5 + n..]))
      else
        var rest := ReadBlocks(z[5 + n..]);
        if rest.None? then None else Some((z[5..5 + n] + rest.value.0, rest.value.1))
  }

  /** The whole stream: header, blocks, checksum, and nothing more. */
  function Decode(z: seq<byte>): Option<seq<byte>> {
    if |z| < 2 || !GoodHeader(z[0], z[1]) then None else DecodeBody(z[2..])
  }

  /** Method 8, a window of at most 32K, no dictionary, and a check modulo 31. */
  predicate GoodHeader(cmf: byte, flg: byte) {
    cmf % 16 == 8 && cmf / 16 <= 7 && Two(flg, cmf) % 31 == 0 && flg / 32 % 2 == 0
  }

  function DecodeBody(z: seq<byte>): Option<seq<byte>> {
    var r := ReadBlocks(z);
    if r.None? || |r.value.1| != 4 || FromBE32(r.value.1) != Adler(r.value.0) then None else Some(r.value.0)
  }

  lemma LengthBytes(n: nat)
    requires n <= LARGEST
    ensures n / 256 < 256 && Two(n % 256, n / 256) == n
  {
  }

  lemma BlockIsRead(last: bool, data: seq<byte>, tail: seq<byte>)
    requires |data| <= LARGEST
    ensures var r := ReadBlocks(Block(last, data) + tail);
            if last then r == Some((data, tail))
            else var rest := ReadBlocks(tail); r == if rest.None? then None else Some((data + rest.value.0, rest.value.1))
  {
    hide Two, Block, ReadBlocks;
    LengthBytes(|data|);
    LengthBytes(LARGEST - |data|);
    BlockShape(last, data, tail);
    ReadOne(Block(last, data) + tail, last, |data|);
  }

  lemma ReadOne(z: seq<byte>, last: bool, n: nat)
    requires n <= LARGEST && |z| >= 5 + n && z[0] == (if last then 1 else 0)
    requires Two(z[1], z[2]) == n && Two(z[3], z[4]) == LARGEST - n
    ensures ReadBlocks(z) == if last then Some((z[5..5 + n], z[5 + n..]))
                             else var rest := ReadBlocks(z[5 + n..]); if rest.None? then None else Some((z[5..5 + n] + rest.value.0, rest.value.1))
  {
    hide Two;
  }

  lemma BlockShape(last: bool, data: seq<byte>, tail: seq<byte>)
    requires |data| <= LARGEST
    ensures var n, nl, z := |data|, LARGEST - |data|, Block(last, data) + tail;
            && |z| == 5 + n + |tail| && z[5..5 + n] == data && z[5 + n..] == tail
            && z[0] == (if last then 1 else 0) && z[1] == n % 256 && z[2] == n / 256 && z[3] == nl % 256 && z[4] == nl / 256
  {
    LengthBytes(|data|);
    LengthBytes(LARGEST - |data|);
  }

  lemma {:induction false} BlocksDecode(raw: seq<byte>, tail: seq<byte>)
    requires raw != []
    ensures ReadBlocks(Blocks(raw) + tail) == Some((raw, tail))
  {
    hide Block, ReadBlocks;
    if |raw| <= LARGEST {
      BlockIsRead(true, raw, tail);
    } else {
      var first, rest := raw[..LARGEST], raw[LARGEST..];
      BlockIsRead(false, first, Blocks(rest) + tail);
      BlocksDecode(rest, tail);
      assert Blocks(raw) + tail == Block(false, first) + (Blocks(rest) + tail);
      assert first + rest == raw;
    }
  }

  /** The stream decodes to exactly what was compressed, unless that was nothing: then there is
      no block at all, and no decoder can accept it. */
  lemma StreamDecodes(raw: seq<byte>)
    ensures Decode(Stream(raw)) == if raw != [] then Some(raw) else None
  {
    hide Adler, BE32, FromBE32, ReadBlocks, Blocks, GoodHeader, DecodeBody;
    var z := Stream(raw);
    HeaderIsGood();
    assert z[0] == 0x78 && z[1] == 0x01 && z[2..] == Blocks(raw) + BE32(Adler(raw));
    BodyDecodes(raw);
  }

  lemma HeaderIsGood()
    ensures GoodHeader(0x78, 0x01)
  {
  }

  lemma BodyDecodes(raw: seq<byte>)
    ensures DecodeBody(Blocks(raw) + BE32(Adler(raw))) == if raw != [] then Some(raw) else None
  {
    hide Adler, BE32, FromBE32, ReadBlocks, Blocks;
    var sum := BE32(Adler(raw));
    BigEndianRoundTrip(Adler(raw));
    if raw == [] {
      NothingIsNoBlock(sum);
    } else {
      BlocksDecode(raw, sum);
    }
  }

  lemma NothingIsNoBlock(sum: seq<byte>)
    requires |sum| == 4
    ensures ReadBlocks(Blocks([]) + sum) == None
  {
    assert |Blocks([]) + sum| == 4;
  }
}
