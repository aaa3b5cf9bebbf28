/** Which files a restore accepts, by their bytes (src/a2gspu_snapshot.cpp): the header, the MMU's
    verdict, the blocks one after the other, and the sentinel.
 */
module Acceptance {
  import opened Options
  import opened Bytes
  import opened Snapshot
  import opened Restore
  import opened Transaction

  // ---------------------------------------------------------------- words as they stand in a file

  /** "SPSG" and version 1, "GSDV", "SEND", "GSPM". */
  const FILE_START: seq<byte> := [0x53, 0x50, 0x53, 0x47, 1, 0, 0, 0]
  const BLOCK_START: seq<byte> := [0x47, 0x53, 0x44, 0x56]
  const SENTINEL: seq<byte> := [0x53, 0x45, 0x4E, 0x44]
  const MANIFEST_START: seq<byte> := [0x47, 0x53, 0x50, 0x4D]

  lemma Words()
    ensures LE(4, MAGIC) + LE(4, VERSION) == FILE_START && LE(4, DEV) == BLOCK_START && LE(4, END) == SENTINEL && LE(4, MANIFEST) == MANIFEST_START
  {
    FourBytes(0x53, 0x50, 0x53, 0x47);
    FourBytes(1, 0, 0, 0);
    FourBytes(0x47, 0x53, 0x44, 0x56);
    FourBytes(0x53, 0x45, 0x4E, 0x44);
    FourBytes(0x47, 0x53, 0x50, 0x4D);
  }

  lemma FourBytes(a: byte, b: byte, c: byte, d: byte)
    ensures LE(4, a + 256 * (b + 256 * (c + 256 * (d as int)))) == [a, b, c, d]
  {
    var z: nat := d;
    var y: nat := c + 256 * z;
    var x: nat := b + 256 * y;
    var w: nat := a + 256 * x;
    Digit(a, x);
    Digit(b, y);
    Digit(c, z);
    assert LE(1, z) == [d] + LE(0, 0);
    assert LE(2, y) == [c] + LE(1, z);
    assert LE(3, x) == [b] + LE(2, y);
    assert LE(4, w) == [a] + LE(3, x);
  }

  lemma Digit(a: byte, rest: nat)
    ensures (a + 256 * rest) % 256 == a && (a + 256 * rest) / 256 == rest
  {
  }

  /** Reading a word and comparing it is comparing the bytes. */
  lemma WordIsBytes(data: seq<byte>, p: nat, v: nat)
    requires Has(data, p, 4) && v < U32
    ensures Word(data, p, 4) == v <==> data[p..p + 4] == LE(4, v)
  {
    Pow256Values();
    WordIsExact(data[p..p + 4]);
    WordRoundTrip(4, v);
    hide LE, FromLE, Pow256;
  }

  /** A block header, by its bytes: 20 of them, from "GSDV" on; the name stops at the first NUL. */
  lemma HeaderIsExact(data: seq<byte>, p: nat)
    ensures HeaderAt(data, p).Header? <==> p + 20 <= |data| && data[p..p + 4] == BLOCK_START
    ensures HeaderAt(data, p).Short? <==> |data| < p + 4 || (|data| < p + 20 && data[p..p + 4] == BLOCK_START)
    ensures HeaderAt(data, p).Header? ==>
              var h := HeaderAt(data, p);
              && h.version == FromLE(data[p + 12..p + 16]) && h.length == FromLE(data[p + 16..p + 20])
              && |h.name| <= 8 && h.name <= data[p + 4..p + 12] && (|h.name| < 8 ==> data[p + 4 + |h.name|] == 0)
              && forall i :: 0 <= i < |h.name| ==> h.name[i] != 0
  {
    hide LE, FromLE, CStr;
    Words();
    if |data| >= p + 4 { WordIsBytes(data, p, DEV); }
    if |data| >= p + 20 { CStrIsExact(data[p + 4..p + 12]); }
  }

  lemma {:induction false} CStrIsExact(bs: seq<byte>)
    ensures var n := CStr(bs); n <= bs && (|n| < |bs| ==> bs[|n|] == 0) && forall i :: 0 <= i < |n| ==> n[i] != 0
  {
    if bs != [] && bs[0] != 0 { CStrIsExact(bs[1..]); }
  }

  /** "GSPM", the length and the text, with a text of 1 to 4096 bytes. */
  ghost predicate HoldsManifest(data: seq<byte>, pos: nat, m: seq<byte>) {
    1 <= |m| <= 4096 && pos <= |data| && MANIFEST_START + LE(4, |m|) + m <= data[pos..]
  }

  /** The manifest a restore reports is the one the bytes after the sentinel hold, if any. */
  lemma ManifestIsExact(data: seq<byte>, pos: nat)
    ensures var r := ReadManifest(data, pos);
            && (r != [] ==> HoldsManifest(data, pos, r))
            && forall m :: HoldsManifest(data, pos, m) ==> r == m
  {
    hide ReadManifest, HoldsManifest;
    if ReadManifest(data, pos) != [] { ManifestThere(data, pos); }
    forall m | HoldsManifest(data, pos, m) ensures ReadManifest(data, pos) == m {
      ManifestRead(data, pos, m);
    }
  }

  lemma ManifestThere(data: seq<byte>, pos: nat)
    requires ReadManifest(data, pos) != []
    ensures HoldsManifest(data, pos, ReadManifest(data, pos))
  {
    hide LE, FromLE;
    Words();
    var r := ReadManifest(data, pos);
    WordIsBytes(data, pos, MANIFEST);
    WordIsBytes(data, pos + 4, |r|);
    assert data[pos..pos + 8 + |r|] == data[pos..pos + 4] + data[pos + 4..pos + 8] + data[pos + 8..pos + 8 + |r|];
  }

  lemma ManifestRead(data: seq<byte>, pos: nat, m: seq<byte>)
    requires HoldsManifest(data, pos, m)
    ensures ReadManifest(data, pos) == m
  {
    hide LE, Word;
    Words();
    var t := MANIFEST_START + LE(4, |m|) + m;
    var front, tail := data[..pos], data[pos..][|t|..];
    Pow256Values();
    ThreeParts(data, front, MANIFEST_START, LE(4, |m|), m, tail);
    WordAt(front, 4, MANIFEST, LE(4, |m|) + m + tail);
    WordAt(front + MANIFEST_START, 4, |m|, m + tail);
  }

  lemma ThreeParts(data: seq<byte>, front: seq<byte>, a: seq<byte>, b: seq<byte>, m: seq<byte>, tail: seq<byte>)
    requires |a| == |b| == 4 && |front| <= |data| && data[..|front|] == front
    requires a + b + m <= data[|front|..] && tail == data[|front|..][8 + |m|..]
    ensures data == front + a + (b + m + tail) == (front + a) + b + (m + tail)
    ensures |front| + 8 + |m| <= |data| && data[|front| + 8..|front| + 8 + |m|] == m
  {
    assert data == front + data[|front|..];
    assert data[|front|..] == (a + b + m) + tail;
  }

  // ---------------------------------------------------------------- the blocks

  /** Where the walk over the blocks stops. */
  function End(data: seq<byte>, pos: nat): nat
    decreases |data| - pos
  {
    var h := HeaderAt(data, pos);
    if h.Header? then HeaderFits(data, pos); End(data, pos + HEAD + h.length) else pos
  }

  /** What block `i` of the walk does, to the device it names as the earlier blocks left it. */
  function EffectOf<S>(env: Env<S>, ours: map<nat, S>, data: seq<byte>, ps: seq<nat>, i: nat): Effect<S>
    requires i < |ps|
  {
    var h := HeaderAt(data, ps[i]);
    if !h.Header? || ps[i] + HEAD > |data| then Skipped
    else
      var j := Lookup(env.table, h.name, h.version);
      if j >= |env.table| then Skipped
      else env.load(j, h.version, if j in ours then Some(AfterBlocks(env, data, j, ours[j], ps[..i])) else None,
                    data[ps[i] + HEAD..], h.length)
  }

  ghost predicate NoneBroken<S>(env: Env<S>, ours: map<nat, S>, data: seq<byte>, ps: seq<nat>) {
    forall i: nat :: i < |ps| ==> !EffectOf(env, ours, data, ps, i).Broken?
  }

  /** The device blocks are accepted exactly when none of them breaks its device and the walk is
      not cut short; and reading stops where the walk ends. */
  lemma {:induction false} BlocksAccepted<S(!new)>(
    env: Env<S>, ours: map<nat, S>, data: seq<byte>, pos: nat, restored: seq<seq<byte>>, skipped: seq<seq<byte>>)
    requires InTable(env, ours)
    ensures var r := ReadBlocks(env, ours, data, pos, restored, skipped);
            && (r.Done? <==> NoneBroken(env, ours, data, Walk(data, pos)) && !HeaderAt(data, End(data, pos)).Short?)
            && (r.Done? ==> r.pos == End(data, pos))
    decreases |data| - pos
  {
    hide HeaderAt, ApplyBlock, Lookup, After, EffectOf, NoneBroken;
    var h := HeaderAt(data, pos);
    if !h.Header? {
      NoBlockBreaks(env, ours, data);
    } else {
      HeaderFits(data, pos);
      var effect := ApplyBlock(env, ours, h.name, h.version, data[pos + HEAD..], h.length);
      var next := pos + HEAD + h.length;
      FirstEffect(env, ours, data, pos, Walk(data, next));
      if effect.Broken? {
        BrokenFirst(env, ours, data, [pos] + Walk(data, next));
      } else {
        var d := After(ours, Lookup(env.table, h.name, h.version), effect);
        OneBlock(env, ours, data, pos);
        TailBreaks(env, ours, d, data, pos, Walk(data, next));
        if effect.Applied? {
          BlocksAccepted(env, d, data, next, restored + [h.name], skipped);
        } else {
          BlocksAccepted(env, d, data, next, restored, skipped + [h.name]);
        }
      }
    }
  }

  lemma NoBlockBreaks<S>(env: Env<S>, ours: map<nat, S>, data: seq<byte>)
    ensures NoneBroken(env, ours, data, [])
  {
  }

  lemma BrokenFirst<S>(env: Env<S>, ours: map<nat, S>, data: seq<byte>, ps: seq<nat>)
    requires ps != [] && EffectOf(env, ours, data, ps, 0).Broken?
    ensures !NoneBroken(env, ours, data, ps)
  {
    hide EffectOf;
  }

  lemma FirstEffect<S>(env: Env<S>, ours: map<nat, S>, data: seq<byte>, pos: nat, ps: seq<nat>)
    requires HeaderAt(data, pos).Header? && pos + HEAD <= |data|
    ensures var h := HeaderAt(data, pos);
            EffectOf(env, ours, data, [pos] + ps, 0) == ApplyBlock(env, ours, h.name, h.version, data[pos + HEAD..], h.length)
  {
    hide HeaderAt, Lookup;
    assert ([pos] + ps)[..0] == [];
  }

  /** The blocks after the first see what the first has left. */
  lemma TailBreaks<S(!new)>(env: Env<S>, ours: map<nat, S>, d: map<nat, S>, data: seq<byte>, pos: nat, ps: seq<nat>)
    requires !EffectOf(env, ours, data, [pos] + ps, 0).Broken? && d.Keys == ours.Keys
    requires forall j <- ours :: var m := Meets(env, data, j, ours[j], pos); d[j] == (if m.Applied? then m.state else ours[j])
    ensures NoneBroken(env, ours, data, [pos] + ps) <==> NoneBroken(env, d, data, ps)
  {
    hide EffectOf;
    var all := [pos] + ps;
    forall i: nat | i < |ps| ensures EffectOf(env, ours, data, all, i + 1) == EffectOf(env, d, data, ps, i) {
      LaterEffect(env, ours, d, data, pos, ps, i);
    }
    if NoneBroken(env, ours, data, all) {
      forall i: nat | i < |ps| ensures !EffectOf(env, d, data, ps, i).Broken? {
        assert !EffectOf(env, ours, data, all, i + 1).Broken?;
      }
    }
    if NoneBroken(env, d, data, ps) {
      forall i: nat | i < |all| ensures !EffectOf(env, ours, data, all, i).Broken? {
        if i > 0 { assert !EffectOf(env, d, data, ps, i - 1).Broken?; }
      }
    }
  }

  lemma LaterEffect<S(!new)>(env: Env<S>, ours: map<nat, S>, d: map<nat, S>, data: seq<byte>, pos: nat, ps: seq<nat>, i: nat)
    requires i < |ps| && d.Keys == ours.Keys
    requires forall j <- ours :: var m := Meets(env, data, j, ours[j], pos); d[j] == (if m.Applied? then m.state else ours[j])
    ensures EffectOf(env, ours, data, [pos] + ps, i + 1) == EffectOf(env, d, data, ps, i)
  {
    hide HeaderAt, Lookup, Meets, AfterBlocks;
    var all := [pos] + ps;
    assert all[i + 1] == ps[i] && all[..i + 1] == [pos] + ps[..i];
    var h := HeaderAt(data, ps[i]);
    if h.Header? {
      var j := Lookup(env.table, h.name, h.version);
      if j in ours { FirstBlock(env, data, j, ours[j], pos, ps[..i]); }
    }
  }

  // ---------------------------------------------------------------- the whole file

  /** The file begins with the magic word, version 1 and 33 bytes of registers. */
  predicate Starts(data: seq<byte>) { |data| >= 41 && data[..8] == FILE_START }

  /** The blocks from `pos` on are accepted one after the other, up to a word that starts none. */
  ghost predicate BlocksHold<S>(env: Env<S>, ours: map<nat, S>, data: seq<byte>, pos: nat) {
    var p := End(data, pos);
    && NoneBroken(env, ours, data, Walk(data, pos))
    && p + 4 <= |data| && data[p..p + 4] != BLOCK_START
  }

  lemma EndIsNoBlock(data: seq<byte>, pos: nat)
    ensures !HeaderAt(data, End(data, pos)).Header?
    decreases |data| - pos
  {
    hide HeaderAt;
    var h := HeaderAt(data, pos);
    if h.Header? {
      HeaderFits(data, pos);
      EndIsNoBlock(data, pos + HEAD + h.length);
    }
  }

  lemma StartIsReadable(data: seq<byte>)
    ensures CpuReadable(data) <==> Starts(data)
    ensures 8 + Size(CPU_WIDTHS) == 41
  {
    hide LE, FromLE;
    RegisterBytes();
    hide Size;
    Words();
    if |data| >= 41 {
      WordIsBytes(data, 0, MAGIC);
      WordIsBytes(data, 4, VERSION);
      assert data[..8] == data[0..4] + data[4..8];
      assert FILE_START[..4] == LE(4, MAGIC) && FILE_START[4..] == LE(4, VERSION);
    }
  }

  /** Where each register stands in the block, and where the block ends. */
  const PLACES: seq<nat> := [0, 4, 8, 10, 12, 14, 16, 18, 19, 20, 21, 22, 23, 24, 32, 33]

  lemma {:induction false} PlaceOf(k: nat)
    requires k <= 15
    ensures Size(CPU_WIDTHS[..k]) == PLACES[k]
  {
    hide Size;
    if k == 0 {
      NoSize(CPU_WIDTHS);
    } else {
      PlaceOf(k - 1);
      SizeStep(CPU_WIDTHS, k);
    }
  }

  lemma RegisterBytes()
    ensures Size(CPU_WIDTHS) == 33
  {
    hide Size;
    PlaceOf(15);
    assert CPU_WIDTHS[..15] == CPU_WIDTHS;
  }

  lemma {:induction false} FieldAt(data: seq<byte>, at: nat, widths: seq<nat>, k: nat)
    requires Has(data, at, Size(widths)) && k < |widths|
    ensures Has(data, at + Size(widths[..k]), widths[k])
    ensures ReadFields(data, at, widths)[k] == Word(data, at + Size(widths[..k]), widths[k])
  {
    var n := |widths| - 1;
    if k < n {
      FieldAt(data, at, widths[..n], k);
      assert widths[..n][..k] == widths[..k];
    }
  }

  lemma OneByteWord(data: seq<byte>, p: nat)
    requires p < |data|
    ensures Word(data, p, 1) == data[p] as nat
  {
    var w := data[p..p + 1];
    assert w[1..] == [];
    assert FromLE([]) == 0;
  }

  /** The value of a register that a file brings. */
  lemma RegisterAt(c: Cpu, data: seq<byte>, k: nat)
    requires |data| >= 41 && k < 15 && Size(CPU_WIDTHS) == 33
    ensures GetField(SetFields(c, ReadFields(data, 8, CPU_WIDTHS)), k)
         == Snapshot.Stored(k, Word(data, 8 + PLACES[k], CPU_WIDTHS[k]))
  {
    hide ReadFields, SetFields, Word, GetField, Snapshot.Stored, Size;
    PlaceOf(k);
    FieldAt(data, 8, CPU_WIDTHS, k);
    SetFieldsThenGet(c, ReadFields(data, 8, CPU_WIDTHS), k);
  }

  /** Where the registers of an accepted file come from: every one, with its flags. */
  lemma RegistersHaveTheirPlaces(c: Cpu, data: seq<byte>)
    requires |data| >= 41 && Size(CPU_WIDTHS) == 33
    ensures var r := SetFields(c, ReadFields(data, 8, CPU_WIDTHS));
            && r.pc == Word(data, 8, 4) && r.db == Word(data, 12, 4) && r.sp == Word(data, 16, 2)
            && r.a == Word(data, 18, 2) && r.x == Word(data, 20, 2) && r.y == Word(data, 22, 2) && r.d == Word(data, 24, 2)
            && r.p == data[26] as nat && (r.e <==> data[27] % 2 == 1) && (r.stopped <==> data[28] != 0)
            && r.halt == data[29] as nat && (r.irq <==> data[30] != 0) && r.pipe == data[31] as nat
            && r.reset == Word(data, 32, 8) && (r.rdy <==> data[40] != 0)
  {
    hide ReadFields, SetFields, Word, Size;
    WideRegisters(c, data);
    NarrowRegisters(c, data);
  }

  lemma WideRegisters(c: Cpu, data: seq<byte>)
    requires |data| >= 41 && Size(CPU_WIDTHS) == 33
    ensures var r := SetFields(c, ReadFields(data, 8, CPU_WIDTHS));
            && r.pc == Word(data, 8, 4) && r.db == Word(data, 12, 4) && r.sp == Word(data, 16, 2)
            && r.a == Word(data, 18, 2) && r.x == Word(data, 20, 2) && r.y == Word(data, 22, 2) && r.d == Word(data, 24, 2)
            && r.reset == Word(data, 32, 8)
  {
    hide ReadFields, SetFields, Word, Size;
    RegisterAt(c, data, 0); RegisterAt(c, data, 1); RegisterAt(c, data, 2); RegisterAt(c, data, 3);
    RegisterAt(c, data, 4); RegisterAt(c, data, 5); RegisterAt(c, data, 6); RegisterAt(c, data, 13);
  }

  lemma NarrowRegisters(c: Cpu, data: seq<byte>)
    requires |data| >= 41 && Size(CPU_WIDTHS) == 33
    ensures var r := SetFields(c, ReadFields(data, 8, CPU_WIDTHS));
            && r.p == data[26] as nat && (r.e <==> data[27] % 2 == 1) && (r.stopped <==> data[28] != 0)
            && r.halt == data[29] as nat && (r.irq <==> data[30] != 0) && r.pipe == data[31] as nat && (r.rdy <==> data[40] != 0)
  {
    hide ReadFields, SetFields, Word, Size;
    RegisterAt(c, data, 7); RegisterAt(c, data, 8); RegisterAt(c, data, 9); RegisterAt(c, data, 10);
    RegisterAt(c, data, 11); RegisterAt(c, data, 12); RegisterAt(c, data, 14);
    OneByteWord(data, 26); OneByteWord(data, 27); OneByteWord(data, 28); OneByteWord(data, 29);
    OneByteWord(data, 30); OneByteWord(data, 31); OneByteWord(data, 40);
  }

  lemma NoSize(w: seq<nat>)
    ensures Size(w[..0]) == 0
  {
  }

  lemma SizeStep(w: seq<nat>, k: nat)
    requires 1 <= k <= |w|
    ensures Size(w[..k]) == Size(w[..k - 1]) + w[k - 1]
  {
    assert w[..k][..k - 1] == w[..k - 1];
  }

  /** Acceptance, by the bytes of the file: it begins with the header and a register block; the
      MMU takes what follows; no block breaks its device or is cut short; and the bytes after the
      last block are the sentinel. The stage of a refusal is the first of these that fails. */
  lemma AcceptedByItsBytes<S(!new)>(env: Env<S>, m: Machine<S>, data: seq<byte>)
    requires InTable(env, m.devices)
    ensures var r := Attempted(env, m, data);
            if !Starts(data) then r == Bad(CpuStage)
            else
              match env.mmuLoad(m.mmu, data[41..])
              case Refused(_) => r == Bad(MmuStage)
              case Loaded(mmu, used) =>
                var p := End(data, 41 + used);
                if !BlocksHold(env, m.devices, data, 41 + used) then r == Bad(DeviceStage)
                else if data[p..p + 4] != SENTINEL then r == Bad(SentinelStage)
                else
                  && r.Good? && r.value.machine.mmu == mmu
                  && r.value.manifest == ReadManifest(data, p + 4)
                  && r.value.machine.cpu == SetFields(m.cpu, ReadFields(data, 8, CPU_WIDTHS))
  {
    hide CpuReadable, ReadFields, SetFields, Size, ReadBlocks, NoneBroken, Walk, End, HeaderAt, Word, LE, ReadManifest;
    StartIsReadable(data);
    if Starts(data) {
      var loaded := env.mmuLoad(m.mmu, data[41..]);
      if loaded.Loaded? {
        var pos := 41 + loaded.used;
        BlocksAccepted(env, m.devices, data, pos, [], []);
        EndIsNoBlock(data, pos);
        var p := End(data, pos);
        HeaderIsExact(data, p);
        Words();
        if p + 4 <= |data| { WordIsBytes(data, p, END); }
      }
    }
  }
}
