/** Little-endian words, as `fwrite` of a value and `a2snapdiff::Cursor::get` see them. */
module Bytes {

  type byte = n: int | 0 <= n < 256

  function Pow256(n: nat): (p: nat)
    ensures p > 0
  {
    if n == 0 then 1 else 256 * Pow256(n - 1)
  }

  function LE(n: nat, v: nat): (bs: seq<byte>)
    ensures |bs| == n
  {
    if n == 0 then [] else [v % 256] + LE(n - 1, v / 256)
  }

  function FromLE(bs: seq<byte>): nat {
    if bs == [] then 0 else bs[0] + 256 * FromLE(bs[1..])
  }

  /** A value that fits its width survives the file. */
  lemma {:induction false} WordRoundTrip(n: nat, v: nat)
    requires v < Pow256(n)
    ensures FromLE(LE(n, v)) == v
  {
    if n > 0 {
      assert LE(n, v)[1..] == LE(n - 1, v / 256);
      WordRoundTrip(n - 1, v / 256);
    }
  }

  /** Every byte string is the word of exactly one value of its width. */
  lemma {:induction false} WordIsExact(bs: seq<byte>)
    ensures FromLE(bs) < Pow256(|bs|) && LE(|bs|, FromLE(bs)) == bs
  {
    if bs != [] {
      WordIsExact(bs[1..]);
      var rest := FromLE(bs[1..]);
      LowAndRest(bs[0], rest, Pow256(|bs| - 1));
      assert bs == [bs[0]] + bs[1..];
    }
  }

  lemma LowAndRest(b: byte, rest: nat, p: nat)
    ensures (b + 256 * rest) % 256 == b && (b + 256 * rest) / 256 == rest
    ensures rest < p ==> b + 256 * rest < 256 * p
  {
  }

  lemma {:induction false} AppendByte(bs: seq<byte>, b: byte)
    ensures FromLE(bs + [b]) == FromLE(bs) + b * Pow256(|bs|)
  {
    if bs == [] {
      assert bs + [b] == [b] && [b][1..] == [];
    } else {
      assert (bs + [b])[1..] == bs[1..] + [b];
      AppendByte(bs[1..], b);
      assert 256 * (b * Pow256(|bs| - 1)) == b * (256 * Pow256(|bs| - 1));
    }
  }

  /** The word of width `n` at `at`, when the bytes are there. */
  predicate Has(data: seq<byte>, at: nat, n: nat) { at + n <= |data| }

  function Word(data: seq<byte>, at: nat, n: nat): nat
    requires Has(data, at, n)
  {
    FromLE(data[at..at + n])
  }

  /** Reading back what was written in front of anything else. */
  lemma WordAt(front: seq<byte>, n: nat, v: nat, tail: seq<byte>)
    requires v < Pow256(n)
    ensures var data := front + LE(n, v) + tail; Has(data, |front|, n) && Word(data, |front|, n) == v
  {
    var data := front + LE(n, v) + tail;
    assert data[|front|..|front| + n] == LE(n, v);
    WordRoundTrip(n, v);
  }

  lemma Pow256Values()
    ensures Pow256(1) == 0x100 && Pow256(2) == 0x1_0000 && Pow256(4) == 0x1_0000_0000
    ensures Pow256(8) == 0x1_0000_0000_0000_0000
  {
    assert Pow256(3) == 0x100_0000;
    assert Pow256(6) == 0x1_0000 * Pow256(4);
  }
}
