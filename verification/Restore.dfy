/** Reading a snapshot back into a live machine (src/a2gspu_snapshot.cpp).

    The MMU and the devices are opaque: a state of type `S`, the bytes it saves, and a load
    that may accept, refuse, or leave anything behind.
 */
module Restore {
  import opened Options
  import opened Bytes
  import opened Snapshot

  // ---------------------------------------------------------------- the device table

  /** A device this binary knows: the version it writes and the versions it reads. */
  datatype Known = Known(name: seq<byte>, version: nat, oldest: nat, newest: nat)

  function Ascii(s: string): seq<byte> { if s == "" then [] else [s[0] as int % 256] + Ascii(s[1..]) }

  predicate PlainName(n: seq<byte>) { 1 <= |n| <= 7 && forall i :: 0 <= i < |n| ==> n[i] != 0 }

  ghost predicate ValidTable(t: seq<Known>) {
    && (forall k :: 0 <= k < |t| ==> PlainName(t[k].name) && t[k].oldest <= t[k].version <= t[k].newest < U32)
    && (forall j, k :: 0 <= j < k < |t| ==> t[j].name != t[k].name)
  }

  /** A name as `strcmp` sees it: up to the first NUL. */
  function CStr(bs: seq<byte>): seq<byte> { if bs == [] || bs[0] == 0 then [] else [bs[0]] + CStr(bs[1..]) }

  /** The first entry that answers to a name and reads a version. */
  function Lookup(t: seq<Known>, name: seq<byte>, version: nat): (k: nat)
    ensures k <= |t|
    ensures k < |t| ==> t[k].name == name && t[k].oldest <= version <= t[k].newest
    ensures forall j :: 0 <= j < k ==> !(t[j].name == name && t[j].oldest <= version <= t[j].newest)
  {
    if t == [] then 0
    else if t[0].name == name && t[0].oldest <= version <= t[0].newest then 0
    else 1 + Lookup(t[1..], name, version)
  }

  // ---------------------------------------------------------------- machines

  datatype Machine<+S> = Machine(cpu: Cpu, mmu: S, devices: map<nat, S>)

  datatype Effect<+S> = Skipped | Applied(state: S) | Broken(state: S)
  datatype MmuEffect<+S> = Loaded(state: S, used: nat) | Refused(state: S)

  /** How states become bytes and back. `load` sees the device's present state, if the
      machine has it, the rest of the file, and the length in the block's header. The hardware
      of a state is what a snapshot does not carry: RAM geometry, slots, mounted images.
      `kept(k, prior, s)` is what is left of `s` when its own bytes are loaded over `prior`: a
      network card comes back without its connections, a clock chip with its host's time. */
  datatype Env<!S> = Env(
    table: seq<Known>,
    save: (nat, S) -> seq<Piece>,
    load: (nat, nat, Option<S>, seq<byte>, nat) -> Effect<S>,
    kept: (nat, S, S) -> S,
    mmuSave: S -> seq<byte>,
    mmuLoad: (S, seq<byte>) -> MmuEffect<S>,
    mmuKept: (S, S) -> S,
    hardware: (nat, S) -> nat,
    mmuHardware: S -> nat)

  /** No load, even one that fails, changes the hardware. */
  ghost predicate KeepsHardware<S(!new)>(env: Env<S>) {
    && (forall k, v, prior, rest, n ::
          var e := env.load(k, v, Some(prior), rest, n);
          e.Skipped? || env.hardware(k, e.state) == env.hardware(k, prior))
    && (forall prior, rest :: env.mmuHardware(env.mmuLoad(prior, rest).state) == env.mmuHardware(prior))
  }

  /** What the codecs promise: saved bytes are accepted by the same hardware, whatever state it
      was in and whatever follows, and leave what is kept of the saved state; a saved block for
      a device the machine lacks is stepped over. */
  ghost predicate Sane<S(!new)>(env: Env<S>) {
    && ValidTable(env.table) && KeepsHardware(env)
    && (forall k: nat, s: S, prior: S, tail: seq<byte> ::
          k < |env.table| && env.hardware(k, prior) == env.hardware(k, s) ==>
            var bs := Flat(env.save(k, s));
            env.load(k, env.table[k].version, Some(prior), bs + tail, |bs|) == Applied(env.kept(k, prior, s)))
    && (forall k: nat, s: S, tail: seq<byte> ::
          k < |env.table| ==>
            var bs := Flat(env.save(k, s));
            env.load(k, env.table[k].version, None, bs + tail, |bs|) == Skipped)
    && (forall k: nat, s: S :: |Flat(env.save(k, s))| < U32)
    && (forall s: S, prior: S, tail: seq<byte> ::
          env.mmuHardware(prior) == env.mmuHardware(s) ==>
            env.mmuLoad(prior, env.mmuSave(s) + tail) == Loaded(env.mmuKept(prior, s), |env.mmuSave(s)|))
  }

  /** Devices that two machines both have are the same hardware. */
  ghost predicate Alike<S>(env: Env<S>, a: map<nat, S>, b: map<nat, S>) {
    forall k :: k in a && k in b ==> env.hardware(k, a[k]) == env.hardware(k, b[k])
  }

  function DevicesFrom<S>(env: Env<S>, devices: map<nat, S>, k: nat): seq<Device>
    decreases |env.table| - k
  {
    if k >= |env.table| then []
    else
      var rest := DevicesFrom(env, devices, k + 1);
      if k in devices then [Device(env.table[k].name, env.table[k].version, env.save(k, devices[k]))] + rest else rest
  }

  function SaveBytes<S>(env: Env<S>, m: Machine<S>, manifest: seq<byte>): seq<byte> {
    FileBytes(m.cpu, env.mmuSave(m.mmu), DevicesFrom(env, m.devices, 0), manifest)
  }

  // ---------------------------------------------------------------- reading

  datatype Devices<+S> =
    | Done(devices: map<nat, S>, pos: nat, restored: seq<seq<byte>>, skipped: seq<seq<byte>>)
    | Stopped(devices: map<nat, S>)

  function Present<S>(devices: map<nat, S>, k: nat): Option<S> { if k in devices then Some(devices[k]) else None }

  /** One block against the machine: unknown names and versions are stepped over. */
  function ApplyBlock<S>(env: Env<S>, devices: map<nat, S>, name: seq<byte>, version: nat,
                         rest: seq<byte>, length: nat): Effect<S> {
    var k := Lookup(env.table, name, version);
    if k < |env.table| then env.load(k, version, Present(devices, k), rest, length) else Skipped
  }

  /** A failed load leaves what it wrote; a load for an absent device has nowhere to write. */
  function After<S>(devices: map<nat, S>, k: nat, effect: Effect<S>): map<nat, S> {
    if effect.Skipped? || k !in devices then devices else devices[k := effect.state]
  }

  const HEAD := 20

  datatype Header = Short | NotABlock | Header(name: seq<byte>, version: nat, length: nat)

  function HeaderAt(data: seq<byte>, pos: nat): Header {
    if !Has(data, pos, 4) then Short
    else if Word(data, pos, 4) != DEV then NotABlock
    else if !Has(data, pos, HEAD) then Short
    else Header(CStr(data[pos + 4..pos + 12]), Word(data, pos + 12, 4), Word(data, pos + 16, 4))
  }

  /** `a2gspu_snap_read_devices`: blocks up to the first word that is not a block's magic. */
  function ReadBlocks<S>(env: Env<S>, devices: map<nat, S>, data: seq<byte>, pos: nat,
                         restored: seq<seq<byte>>, skipped: seq<seq<byte>>): Devices<S>
    decreases |data| - pos
  {
    match HeaderAt(data, pos)
    case Short => Stopped(devices)
    case NotABlock => Done(devices, pos, restored, skipped)
    case Header(name, version, length) =>
      var effect := ApplyBlock(env, devices, name, version, data[pos + HEAD..], length);
      var devices' := After(devices, Lookup(env.table, name, version), effect);
      var next := pos + HEAD + length;
      match effect
      case Broken(_) => Stopped(devices')
      case Applied(_) => ReadBlocks(env, devices', data, next, restored + [name], skipped)
      case Skipped => ReadBlocks(env, devices', data, next, restored, skipped + [name])
  }

  lemma BlockKeepsHardware<S(!new)>(env: Env<S>, devices: map<nat, S>, name: seq<byte>, version: nat, rest: seq<byte>, length: nat)
    requires KeepsHardware(env)
    ensures var d := After(devices, Lookup(env.table, name, version), ApplyBlock(env, devices, name, version, rest, length));
            d.Keys == devices.Keys && Alike(env, devices, d)
  {
    hide Lookup;
    var k := Lookup(env.table, name, version);
    var effect := ApplyBlock(env, devices, name, version, rest, length);
    if k < |env.table| && k in devices {
      assert effect == env.load(k, version, Some(devices[k]), rest, length);
    }
  }

  lemma {:induction false} BlocksKeepHardware<S(!new)>(env: Env<S>, devices: map<nat, S>, data: seq<byte>, pos: nat,
                                                       restored: seq<seq<byte>>, skipped: seq<seq<byte>>)
    requires KeepsHardware(env)
    ensures var d := ReadBlocks(env, devices, data, pos, restored, skipped).devices;
            d.Keys == devices.Keys && Alike(env, devices, d)
    decreases |data| - pos
  {
    hide KeepsHardware, HeaderAt, ApplyBlock, Lookup, After;
    var h := HeaderAt(data, pos);
    if h.Header? {
      HeaderFits(data, pos);
      var rest := data[pos + HEAD..];
      var effect := ApplyBlock(env, devices, h.name, h.version, rest, h.length);
      var d := After(devices, Lookup(env.table, h.name, h.version), effect);
      BlockKeepsHardware(env, devices, h.name, h.version, rest, h.length);
      if effect.Applied? {
        BlocksKeepHardware(env, d, data, pos + HEAD + h.length, restored + [h.name], skipped);
      } else if effect.Skipped? {
        BlocksKeepHardware(env, d, data, pos + HEAD + h.length, restored, skipped + [h.name]);
      }
    }
  }

  lemma HeaderFits(data: seq<byte>, pos: nat)
    ensures HeaderAt(data, pos).Header? ==> pos + HEAD <= |data|
  {
  }

  function ReadManifest(data: seq<byte>, pos: nat): seq<byte> {
    if !Has(data, pos, 8) || Word(data, pos, 4) != MANIFEST then []
    else
      var n := Word(data, pos + 4, 4);
      if n == 0 || n > 4096 || !Has(data, pos + 8, n) then [] else data[pos + 8..pos + 8 + n]
  }

  predicate CpuReadable(data: seq<byte>) {
    Has(data, 0, 8 + Size(CPU_WIDTHS)) && Word(data, 0, 4) == MAGIC && Word(data, 4, 4) == VERSION
  }

  datatype Restored<+S> = Restored(machine: Machine<S>, restored: seq<seq<byte>>, skipped: seq<seq<byte>>, manifest: seq<byte>)

  datatype Stage = Preflight | Open | RollbackSave | CpuStage | MmuStage | DeviceStage | SentinelStage

  datatype Attempt<+S> = Good(value: Restored<S>) | Bad(stage: Stage)

  /** The steps after the CPU block, from `at` on. */
  function AfterCpu<S>(env: Env<S>, m: Machine<S>, data: seq<byte>, at: nat): Attempt<S>
    requires at <= |data|
  {
    match env.mmuLoad(m.mmu, data[at..])
    case Refused(_) => Bad(MmuStage)
    case Loaded(mmu, used) =>
      match ReadBlocks(env, m.devices, data, at + used, [], [])
      case Stopped(_) => Bad(DeviceStage)
      case Done(devices, pos, restored, skipped) =>
        if !Has(data, pos, 4) || Word(data, pos, 4) != END then Bad(SentinelStage)
        else Good(Restored(Machine(m.cpu, mmu, devices), restored, skipped, ReadManifest(data, pos + 4)))
  }

  /** What a file does to a machine, when it is accepted; otherwise the step that refused. */
  function Attempted<S>(env: Env<S>, m: Machine<S>, data: seq<byte>): Attempt<S> {
    if !CpuReadable(data) then Bad(CpuStage)
    else AfterCpu(env, m.(cpu := SetFields(m.cpu, ReadFields(data, 8, CPU_WIDTHS))), data, 8 + Size(CPU_WIDTHS))
  }

  /** The MMU and the devices after an attempt, accepted or not. */
  function Left<S>(env: Env<S>, m: Machine<S>, data: seq<byte>): (S, map<nat, S>) {
    if !CpuReadable(data) then (m.mmu, m.devices) else LeftAfterCpu(env, m.mmu, m.devices, data, 8 + Size(CPU_WIDTHS))
  }

  function LeftAfterCpu<S>(env: Env<S>, mmu: S, devices: map<nat, S>, data: seq<byte>, at: nat): (S, map<nat, S>)
    requires at <= |data|
  {
    match env.mmuLoad(mmu, data[at..])
    case Refused(left) => (left, devices)
    case Loaded(left, used) => (left, ReadBlocks(env, devices, data, at + used, [], []).devices)
  }

  /** Whatever the file, the same devices are there, on the same hardware. */
  lemma LeftIsSameHardware<S(!new)>(env: Env<S>, m: Machine<S>, data: seq<byte>)
    requires KeepsHardware(env)
    ensures var (mmu, devices) := Left(env, m, data);
            && devices.Keys == m.devices.Keys && Alike(env, m.devices, devices)
            && env.mmuHardware(mmu) == env.mmuHardware(m.mmu)
  {
    hide KeepsHardware, ReadBlocks, Size, Word, CpuReadable;
    if CpuReadable(data) {
      var at := ReadableSize(data);
      MmuKeepsHardware(env, m.mmu, data[at..]);
      var loaded := env.mmuLoad(m.mmu, data[at..]);
      if loaded.Loaded? { BlocksKeepHardware(env, m.devices, data, at + loaded.used, [], []); }
    }
  }

  lemma ReadableSize(data: seq<byte>) returns (at: nat)
    requires CpuReadable(data)
    ensures at == 8 + Size(CPU_WIDTHS) <= |data|
  {
    at := 8 + Size(CPU_WIDTHS);
  }

  // ---------------------------------------------------------------- the live machine

  /** The start of a block; a word that is none is left for the caller. */
  method ReadHeader(f: File) returns (h: Header)
    modifies f
    ensures f.data == old(f.data) && h == HeaderAt(f.data, old(f.pos))
    ensures h.NotABlock? ==> f.pos == old(f.pos)
    ensures h.Header? ==> f.pos == old(f.pos) + HEAD <= |f.data|
  {
    var magic := f.Read(4);
    if magic.None? { return Short; }
    if FromLE(magic.value) != DEV {
      f.Seek(f.pos - 4);
      return NotABlock;
    }
    var name := f.Read(8);
    if name.None? { return Short; }
    var version := f.Read(4);
    if version.None? { return Short; }
    var length := f.Read(4);
    if length.None? { return Short; }
    h := Header(CStr(name.value), FromLE(version.value), FromLE(length.value));
  }

  class Rig<S(!new)> {
    var cpu: Cpu
    var mmu: S
    var devices: map<nat, S>

    ghost function View(): Machine<S>
      reads this
    {
      Machine(cpu, mmu, devices)
    }

    constructor (m: Machine<S>)
      ensures View() == m
    {
      cpu, mmu, devices := m.cpu, m.mmu, m.devices;
    }

    /** `a2gspu_cpu_load`: stores field by field and stops at the first short read. */
    method LoadCpu(f: File) returns (ok: bool)
      requires f.pos == 0
      modifies f, `cpu
      ensures f.data == old(f.data) && ok == CpuReadable(f.data)
      ensures ok ==> f.pos == 8 + Size(CPU_WIDTHS) <= |f.data| && cpu == SetFields(old(cpu), ReadFields(f.data, 8, CPU_WIDTHS))
    {
      var magic := f.Read(4);
      if magic.None? { return false; }
      var version := f.Read(4);
      if version.None? { return false; }
      if FromLE(magic.value) != MAGIC || FromLE(version.value) != VERSION { return false; }
      ok := LoadFields(f, 8, CPU_WIDTHS);
    }

    method LoadFields(f: File, at: nat, w: seq<nat>) returns (ok: bool)
      requires f.pos == at <= |f.data|
      modifies f, `cpu
      ensures f.data == old(f.data) && ok == Has(f.data, at, Size(w))
      ensures ok ==> f.pos == at + Size(w) && cpu == SetFields(old(cpu), ReadFields(f.data, at, w))
    {
      hide SetField, SetFields, ReadFields, FromLE, Size;
      SizeGrows(w, 0);
      NoFields(cpu, f.data, at, w);
      for k := 0 to |w|
        invariant f.data == old(f.data) && f.pos == at + Size(w[..k]) && Has(f.data, at, Size(w[..k]))
        invariant cpu == SetFields(old(cpu), ReadFields(f.data, at, w[..k]))
      {
        SizeGrows(w, k);
        var word := f.Read(w[k]);
        if word.None? { return false; }
        OneMoreField(old(cpu), f.data, at, w, k);
        cpu := SetField(cpu, k, FromLE(word.value));
      }
      assert w[..|w|] == w;
      ok := true;
    }

    /** `a2gspu_snap_read_devices`, into the live devices. */
    method LoadDevices(env: Env<S>, f: File) returns (ok: bool, restored: seq<seq<byte>>, skipped: seq<seq<byte>>)
      modifies f, `devices
      ensures f.data == old(f.data) && devices.Keys == old(devices).Keys
      ensures var r := ReadBlocks(env, old(devices), f.data, old(f.pos), [], []);
              && ok == r.Done? && devices == r.devices
              && (ok ==> f.pos == r.pos && restored == r.restored && skipped == r.skipped)
    {
      restored, skipped := [], [];
      hide HeaderAt, ApplyBlock, Lookup;
      ghost var whole := ReadBlocks(env, devices, f.data, f.pos, [], []);
      while true
        invariant f.data == old(f.data) && devices.Keys == old(devices).Keys
        invariant whole == ReadBlocks(env, devices, f.data, f.pos, restored, skipped)
        decreases |f.data| - f.pos
      {
        var head := ReadHeader(f);
        if head.Short? { return false, restored, skipped; }
        if head.NotABlock? { return true, restored, skipped; }
        var effect := ApplyBlock(env, devices, head.name, head.version, f.data[f.pos..], head.length);
        devices := After(devices, Lookup(env.table, head.name, head.version), effect);
        if effect.Broken? { return false, restored, skipped; }
        if effect.Applied? { restored := restored + [head.name]; } else { skipped := skipped + [head.name]; }
        f.Seek(f.pos + head.length);
      }
    }

    /** `a2gspu_ctrl_snap_restore`: on refusal the machine may be partly overwritten. */
    method SnapRestore(env: Env<S>, data: seq<byte>)
      returns (ok: bool, stage: Stage, restored: seq<seq<byte>>, skipped: seq<seq<byte>>, manifest: seq<byte>)
      modifies this
      ensures (mmu, devices) == Left(env, old(View()), data)
      ensures match Attempted(env, old(View()), data)
              case Bad(s) => !ok && stage == s
              case Good(r) => ok && View() == r.machine && restored == r.restored && skipped == r.skipped && manifest == r.manifest
    {
      hide AfterCpu, LeftAfterCpu, CpuReadable, Size, ReadFields, SetFields;
      var f := new File(data);
      var cpuOk := LoadCpu(f);
      if cpuOk {
        ok, stage, restored, skipped, manifest := RestoreRest(env, f);
      } else {
        ok, stage, restored, skipped, manifest := false, CpuStage, [], [], [];
      }
    }

    method RestoreRest(env: Env<S>, f: File)
      returns (ok: bool, stage: Stage, restored: seq<seq<byte>>, skipped: seq<seq<byte>>, manifest: seq<byte>)
      requires f.pos <= |f.data|
      modifies f, `mmu, `devices
      ensures (mmu, devices) == LeftAfterCpu(env, old(mmu), old(devices), old(f.data), old(f.pos))
      ensures match AfterCpu(env, old(View()), old(f.data), old(f.pos))
              case Bad(s) => !ok && stage == s
              case Good(r) => ok && View() == r.machine && restored == r.restored && skipped == r.skipped && manifest == r.manifest
    {
      hide ReadBlocks, ReadManifest, FromLE;
      ok, stage, restored, skipped, manifest := false, MmuStage, [], [], [];
      var loaded := env.mmuLoad(mmu, f.data[f.pos..]);
      mmu := loaded.state;
      if loaded.Refused? { return; }
      f.Seek(f.pos + loaded.used);
      stage := DeviceStage;
      var devicesOk;
      devicesOk, restored, skipped := LoadDevices(env, f);
      if !devicesOk { return; }
      stage := SentinelStage;
      var sentinel := f.Read(4);
      if sentinel.None? || FromLE(sentinel.value) != END { return; }
      ok, manifest := true, ReadManifest(f.data, f.pos);
    }

    method SnapSave(env: Env<S>, manifest: seq<byte>) returns (data: seq<byte>)
      ensures data == SaveBytes(env, View(), manifest)
    {
      var ds := DevicesFrom(env, devices, 0);
      var f := WriteSnapshot(cpu, env.mmuSave(mmu), ds, manifest);
      data := f.data;
    }
  }

  lemma MmuKeepsHardware<S(!new)>(env: Env<S>, prior: S, rest: seq<byte>)
    requires KeepsHardware(env)
    ensures env.mmuHardware(env.mmuLoad(prior, rest).state) == env.mmuHardware(prior)
  {
  }

  lemma FieldsGrow(data: seq<byte>, at: nat, w: seq<nat>, k: nat)
    requires k < |w| && Has(data, at, Size(w[..k + 1]))
    ensures Size(w[..k + 1]) == Size(w[..k]) + w[k] && Has(data, at, Size(w[..k]))
    ensures var vs := ReadFields(data, at, w[..k + 1]);
            vs[..k] == ReadFields(data, at, w[..k]) && vs[k] == FromLE(data[at + Size(w[..k])..at + Size(w[..k]) + w[k]])
  {
    hide FromLE;
    assert w[..k + 1][..k] == w[..k];
  }

  lemma NoFields(c: Cpu, data: seq<byte>, at: nat, w: seq<nat>)
    requires Has(data, at, Size(w[..0]))
    ensures SetFields(c, ReadFields(data, at, w[..0])) == c
  {
    assert w[..0] == [];
  }

  lemma OneMoreField(c: Cpu, data: seq<byte>, at: nat, w: seq<nat>, k: nat)
    requires k < |w| && Has(data, at, Size(w[..k])) && Has(data, at, Size(w[..k + 1]))
    ensures Size(w[..k + 1]) == Size(w[..k]) + w[k]
    ensures SetFields(c, ReadFields(data, at, w[..k + 1]))
         == SetField(SetFields(c, ReadFields(data, at, w[..k])), k, FromLE(data[at + Size(w[..k])..at + Size(w[..k]) + w[k]]))
  {
    hide SetField, FromLE, Size, ReadFields;
    FieldsGrow(data, at, w, k);
  }

  lemma {:induction false} SizeGrows(w: seq<nat>, k: nat)
    requires k <= |w|
    ensures Size(w[..k]) <= Size(w) && (k == 0 ==> Size(w[..k]) == 0)
    ensures k < |w| ==> Size(w[..k + 1]) == Size(w[..k]) + w[k] <= Size(w)
    decreases |w| - k
  {
    if k == |w| {
      assert w[..k] == w;
    } else {
      assert w[..k + 1][..k] == w[..k];
      SizeGrows(w, k + 1);
    }
  }
}
