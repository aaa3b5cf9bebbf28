/** Double hi-res colour (src/a2gspu_dhgr.hpp): a window of the last four dots and the phase
    pick a colour, through a table that is built by rotating one base palette.
 */
module Dhgr {

  datatype Rgb = Rgb(r: int, g: int, b: int)

  /** The sixteen lo-res colours in hardware order. */
  const LORES: seq<Rgb> := [
    Rgb(0x00, 0x00, 0x00), Rgb(0xB0, 0x02, 0x58), Rgb(0x1E, 0x2B, 0xFF), Rgb(0xCE, 0x2D, 0xFF),
    Rgb(0x00, 0x7E, 0x28), Rgb(0x80, 0x80, 0x80), Rgb(0x00, 0xA9, 0xFF), Rgb(0x9E, 0xAB, 0xFF),
    Rgb(0x61, 0x54, 0x00), Rgb(0xFF, 0x56, 0x00), Rgb(0xA2, 0xA9, 0xB1), Rgb(0xFF, 0x81, 0xD7),
    Rgb(0x31, 0xD2, 0x00), Rgb(0xE1, 0xD4, 0x00), Rgb(0x4F, 0xFD, 0xA7), Rgb(0xFF, 0xFF, 0xFF)]

  /** Four bits: a window of dots, or a lo-res colour. */
  type nibble = n: int | 0 <= n < 16

  /** One bit to the right, the lowest bit coming in at the top. */
  function Ror(v: nibble): nibble { if v % 2 == 0 then v / 2 else v / 2 + 8 }

  /** One bit to the left, the highest bit coming in at the bottom. */
  function Rol(v: nibble): nibble { if v < 8 then 2 * v else 2 * v - 15 }

  /** `v` rotated left `k` times. */
  function RolBy(v: nibble, k: nat): nibble { if k == 0 then v else Rol(RolBy(v, k - 1)) }

  lemma RotationsCancel(v: nibble)
    ensures Ror(Rol(v)) == v && Rol(Ror(v)) == v
  {
  }

  lemma FourRols(v: nibble)
    ensures Rol(Rol(Rol(Rol(v)))) == v
  {
  }

  lemma {:induction false} RolByAdds(v: nibble, j: nat, k: nat)
    ensures RolBy(RolBy(v, j), k) == RolBy(v, j + k)
  {
    hide Rol;
    if k > 0 { RolByAdds(v, j, k - 1); }
  }

  lemma FirstRols(v: nibble)
    ensures RolBy(v, 0) == v && RolBy(v, 1) == Rol(v) && RolBy(v, 4) == v && RolBy(v, 5) == Rol(v)
  {
    hide Rol;
    FourRols(v);
    assert RolBy(v, 1) == Rol(v);
    assert RolBy(v, 2) == Rol(RolBy(v, 1));
    assert RolBy(v, 3) == Rol(RolBy(v, 2));
    assert RolBy(v, 4) == Rol(RolBy(v, 3));
  }

  /** Only the count modulo four matters. */
  lemma {:induction false} RolByFours(v: nibble, k: nat)
    ensures RolBy(v, k) == RolBy(v, k % 4)
  {
    hide Rol;
    if k >= 4 {
      RolByAdds(v, k - 4, 4);
      FirstRols(RolBy(v, k - 4));
      hide RolBy;
      RolByFours(v, k - 4);
    }
  }

  // ---------------------------------------------------------------- the palette table

  /** What a table entry should be: the colour of its window, rotated to its phase. */
  function Entry(w: nibble, phase: nat): Rgb { LORES[RolBy(w, phase + 2)] }

  /** The base pattern from which the table entry is filled. */
  function Home(w: nibble, phase: nat): nibble { RolBy(w, phase + 1) }

  lemma HomeMeans(w: nibble, phase: nat)
    ensures Entry(w, phase) == LORES[Rol(Home(w, phase))] && Home(w, 0) == Rol(w) && Home(w, 3) == w
    ensures Home(Ror(w), phase + 1) == Home(w, phase)
  {
    hide Rol, Ror;
    FirstRols(w);
    assert RolBy(w, phase + 2) == Rol(RolBy(w, phase + 1));
    RotationsCancel(w);
    FirstRols(Ror(w));
    RolByAdds(Ror(w), 1, phase + 1);
  }

  lemma {:induction false} HomeIsOne(v: nibble, w: nibble, phase: nat)
    requires Home(v, phase) == Home(w, phase)
    ensures v == w
  {
    hide Rol, Ror;
    RotationsCancel(RolBy(v, phase));
    RotationsCancel(RolBy(w, phase));
    if phase > 0 {
      HomeIsOne(v, w, phase - 1);
    }
  }

  /** `Discrete4::build`. */
  method Build() returns (lut: array2<Rgb>)
    ensures fresh(lut) && lut.Length0 == 16 && lut.Length1 == 4
    ensures forall w: nibble, p: nat :: p < 4 ==> lut[w, p] == Entry(w, p)
  {
    hide Rol, Ror, RolBy, Entry, Home;
    var phase3 := BuildBase();
    lut := new Rgb[16, 4]((_, _) => Rgb(0, 0, 0));
    for pattern := 0 to 16
      invariant forall w: nibble, p: nat :: p < 4 && Home(w, p) < pattern ==> lut[w, p] == Entry(w, p)
    {
      var value: nibble := pattern;
      lut[value, 3] := phase3[pattern];
      forall w: nibble ensures Home(w, 3) == w { HomeMeans(w, 3); }
      HomeMeans(value, 3);
      HomeMeans(Ror(value), 0);
      RotationsCancel(value);
      for phase := 0 to 3
        invariant Home(Ror(value), phase) == pattern
        invariant lut[pattern, 3] == Entry(pattern, 3)
        invariant forall w: nibble, p: nat :: p < 4 && Home(w, p) < pattern ==> lut[w, p] == Entry(w, p)
        invariant forall w: nibble, p: nat :: p < phase && Home(w, p) == pattern ==> lut[w, p] == Entry(w, p)
      {
        value := Ror(value);
        HomeMeans(value, phase);
        forall w: nibble | Home(w, phase) == pattern ensures w == value { HomeIsOne(w, value, phase); }
        lut[value, phase] := phase3[pattern];
      }
    }
  }

  /** The base palette: where each lo-res colour's dot sequence lands. */
  method BuildBase() returns (base: seq<Rgb>)
    ensures |base| == 16 && forall v: nibble :: base[v] == LORES[Rol(v)]
  {
    hide Rol, Ror;
    var phase3 := new Rgb[16](_ => Rgb(0, 0, 0));
    for lores := 0 to 16
      invariant forall v: nibble :: Rol(v) < lores ==> phase3[v] == LORES[Rol(v)]
    {
      forall v: nibble ensures Rol(Ror(v)) == v && Ror(Rol(v)) == v { RotationsCancel(v); }
      phase3[Ror(lores)] := LORES[lores];
    }
    base := phase3[..];
  }

  // ---------------------------------------------------------------- the decoder

  /** The dot `k` places before the end of a line that is blank to the left. */
  function Back(dots: seq<bool>, k: nat): nat { if k < |dots| && dots[|dots| - 1 - k] then 1 else 0 }

  /** The last four dots, the current one on top. */
  function Window(dots: seq<bool>): nibble {
    Back(dots, 3) + 2 * Back(dots, 2) + 4 * Back(dots, 1) + 8 * Back(dots, 0)
  }

  /** What the decoder should show for the last dot of a line so far. */
  function Shown(dots: seq<bool>, offset: int): Rgb
    requires dots != []
  {
    Entry(Window(dots), (offset + |dots| - 1) % 4)
  }

  lemma WindowSlides(dots: seq<bool>, dot: bool)
    ensures Window(dots + [dot]) == Window(dots) / 2 + (if dot then 8 else 0)
  {
    var all := dots + [dot];
    assert Back(all, 0) == if dot then 1 else 0;
    assert Back(all, 1) == Back(dots, 0) && Back(all, 2) == Back(dots, 1) && Back(all, 3) == Back(dots, 2);
  }

  /** One scan line: `line` is the dots pushed since the last reset. */
  class Decoder {
    var state: nat
    var x: nat
    var offset: int
    const lut: array2<Rgb>
    ghost var line: seq<bool>

    ghost predicate Valid()
      reads this, lut
    {
      && lut.Length0 == 16 && lut.Length1 == 4
      && (forall w: nibble, p: nat :: p < 4 ==> lut[w, p] == Entry(w, p))
      && state == Window(line) / 2 && x == |line|
    }

    constructor (lut: array2<Rgb>, offset: int)
      requires lut.Length0 == 16 && lut.Length1 == 4
      requires forall w: nibble, p: nat :: p < 4 ==> lut[w, p] == Entry(w, p)
      ensures Valid() && line == [] && this.offset == offset && this.lut == lut
    {
      this.lut, this.offset, state, x, line := lut, offset, 0, 0, [];
    }

    method Reset(offset: int)
      requires Valid()
      modifies this
      ensures Valid() && line == [] && this.offset == offset
    {
      state, x, line, this.offset := 0, 0, [], offset;
    }

    /** Every dot gets the colour of the last four dots at its phase. */
    method Push(dot: bool) returns (c: Rgb)
      requires Valid()
      modifies this
      ensures Valid() && line == old(line) + [dot] && offset == old(offset)
      ensures c == Shown(line, offset)
    {
      hide Entry, Window;
      WindowSlides(line, dot);
      var window := state + if dot then 8 else 0;
      var phase := (offset + x) % 4;
      c := lut[window, phase];
      state := window / 2;
      x := x + 1;
      line := line + [dot];
    }
  }

  // ---------------------------------------------------------------- a solid colour

  function DotOf(c: nibble, i: nat): bool { BitAt(Ror(c), i % 4) == 1 }

  /** Bit `k`: take away the powers of two above it. */
  function BitAt(v: nibble, k: nat): nat {
    var low3 := if v >= 8 then v - 8 else v;
    var low2 := if low3 >= 4 then low3 - 4 else low3;
    if k == 0 then if low2 >= 2 then low2 - 2 else low2
    else if k == 1 then if low2 >= 2 then 1 else 0
    else if k == 2 then if low3 >= 4 then 1 else 0
    else if v >= 8 then 1 else 0
  }

  function Solid(c: nibble, n: nat): (dots: seq<bool>)
    ensures |dots| == n && forall i :: 0 <= i < n ==> dots[i] == DotOf(c, i)
  {
    seq(n, i requires 0 <= i < n => DotOf(c, i))
  }

  /** `solid_dots`. */
  method SolidDots(c: nibble, dots: array<bool>)
    modifies dots
    ensures dots[..] == Solid(c, dots.Length)
  {
    hide DotOf;
    for i := 0 to dots.Length
      invariant forall k :: 0 <= k < i ==> dots[k] == DotOf(c, k)
    {
      dots[i] := DotOf(c, i);
    }
  }

  lemma IsItsBits(v: nibble)
    ensures v == BitAt(v, 0) + 2 * BitAt(v, 1) + 4 * BitAt(v, 2) + 8 * BitAt(v, 3)
  {
  }

  lemma RolMovesBits(v: nibble)
    ensures BitAt(Rol(v), 0) == BitAt(v, 3) && BitAt(Rol(v), 1) == BitAt(v, 0)
    ensures BitAt(Rol(v), 2) == BitAt(v, 1) && BitAt(Rol(v), 3) == BitAt(v, 2)
  {
  }

  /** Four dots in a row are the pattern rotated to where they end. */
  lemma WindowOfRotation(v: nibble, k: nat)
    requires k < 4
    ensures BitAt(v, (k + 1) % 4) + 2 * BitAt(v, (k + 2) % 4) + 4 * BitAt(v, (k + 3) % 4) + 8 * BitAt(v, k) == RolBy(v, 3 - k)
  {
    hide Rol, BitAt, RolBy;
    RolBitsMove(v);
    IsItsBits(RolBy(v, 3 - k));
    if k == 0 {
      assert RolBy(v, 3 - k) == RolBy(v, 3);
    } else if k == 1 {
      assert RolBy(v, 3 - k) == RolBy(v, 2);
    } else if k == 2 {
      assert RolBy(v, 3 - k) == RolBy(v, 1);
    } else {
      assert RolBy(v, 3 - k) == RolBy(v, 0);
    }
  }

  lemma RolBitsMove(v: nibble)
    ensures RolBy(v, 0) == v
    ensures var w := RolBy(v, 1); BitAt(w, 0) == BitAt(v, 3) && BitAt(w, 1) == BitAt(v, 0) && BitAt(w, 2) == BitAt(v, 1) && BitAt(w, 3) == BitAt(v, 2)
    ensures var w := RolBy(v, 2); BitAt(w, 0) == BitAt(v, 2) && BitAt(w, 1) == BitAt(v, 3) && BitAt(w, 2) == BitAt(v, 0) && BitAt(w, 3) == BitAt(v, 1)
    ensures var w := RolBy(v, 3); BitAt(w, 0) == BitAt(v, 1) && BitAt(w, 1) == BitAt(v, 2) && BitAt(w, 2) == BitAt(v, 3) && BitAt(w, 3) == BitAt(v, 0)
  {
    hide Rol, BitAt;
    FirstRols(v);
    RolMovesBits(v);
    RolMovesBits(Rol(v));
    RolMovesBits(Rol(Rol(v)));
    assert RolBy(v, 2) == Rol(RolBy(v, 1));
    assert RolBy(v, 3) == Rol(RolBy(v, 2));
  }

  lemma BitAtIsBit(v: nibble, k: nat)
    requires k < 4
    ensures BitAt(v, k) < 2
  {
  }

  /** The window after `n` dots of a solid colour, once four have been seen. */
  lemma SolidWindow(c: nibble, n: nat)
    requires n >= 4
    ensures Window(Solid(c, n)) == RolBy(Ror(c), 3 - (n - 1) % 4)
  {
    hide Rol, Ror, BitAt, RolBy;
    var v, k := Ror(c), (n - 1) % 4;
    forall j: nat | j < 4 ensures BitAt(v, j) < 2 { BitAtIsBit(v, j); }
    LastFour(n);
    WindowOfRotation(v, k);
  }

  lemma LastFour(n: nat)
    requires n >= 4
    ensures var k := (n - 1) % 4; (n - 2) % 4 == (k + 3) % 4 && (n - 3) % 4 == (k + 2) % 4 && (n - 4) % 4 == (k + 1) % 4
  {
  }

  /** A solid lo-res colour shows as that colour rotated by the phase offset, at every dot from
      the fourth on, whatever the length of the line. */
  lemma SolidIsOneColour(c: nibble, n: nat, offset: nat)
    requires n >= 4
    ensures Shown(Solid(c, n), offset) == LORES[RolBy(c, offset)]
  {
    hide Rol, Ror, Window, Solid, RolBy;
    SolidWindow(c, n);
    SamePhase(n, offset);
    RotatedBack(c, 3 - (n - 1) % 4, (offset + n - 1) % 4 + 2, offset);
  }

  lemma RotatedBack(c: nibble, a: nat, b: nat, offset: nat)
    requires (a + b) % 4 == (1 + offset) % 4
    ensures RolBy(RolBy(Ror(c), a), b) == RolBy(c, offset)
  {
    hide Rol, Ror, RolBy;
    RolByAdds(Ror(c), a, b);
    RolByFours(Ror(c), a + b);
    RolByFours(Ror(c), 1 + offset);
    RolByAdds(Ror(c), 1, offset);
    FirstRols(Ror(c));
    RotationsCancel(c);
  }

  lemma SamePhase(n: nat, offset: nat)
    requires n >= 1
    ensures (3 - (n - 1) % 4 + ((offset + n - 1) % 4 + 2)) % 4 == (1 + offset) % 4
  {
  }
}
