/** What a restore does, proved about the readers of `Restore`: files written by any machine
    read back exactly, and the CTRL `restore` verb is all or nothing
    (src/a2gspu_ctrl.cpp, src/a2gspu_snapshot.cpp).
 */
module Transaction {
  import opened Options
  import opened Bytes
  import opened Snapshot
  import opened Restore

  // ---------------------------------------------------------------- names and the table

  lemma {:induction false} CStrStops(n: seq<byte>, tail: seq<byte>)
    requires (forall i :: 0 <= i < |n| ==> n[i] != 0) && (tail == [] || tail[0] == 0)
    ensures CStr(n + tail) == n
  {
    if n == [] {
      assert n + tail == tail;
    } else {
      assert (n + tail)[1..] == n[1..] + tail;
      CStrStops(n[1..], tail);
    }
  }

  lemma {:induction false} LookupFinds(t: seq<Known>, k: nat)
    requires ValidTable(t) && k < |t|
    ensures Lookup(t, t[k].name, t[k].version) == k
  {
    if k > 0 {
      assert t[0].name != t[k].name;
      assert ValidTable(t[1..]) by {
        assert forall i :: 0 <= i < |t[1..]| ==> t[1..][i] == t[i + 1];
      }
      LookupFinds(t[1..], k - 1);
    }
  }

  // ---------------------------------------------------------------- one block

  lemma BlockReadsBack(front: seq<byte>, d: Device, tail: seq<byte>)
    requires PlainName(d.name) && d.version < U32 && |Flat(d.payload)| < U32
    ensures var data := front + Block(d) + tail;
            && HeaderAt(data, |front|) == Header(d.name, d.version, |Flat(d.payload)|)
            && |front| + HEAD <= |data| && data[|front| + HEAD..] == Flat(d.payload) + tail
  {
    hide LE, Word, Flat, CStr, Block;
    BlockShape(front, d, tail);
    CStrStops(d.name, seq(8 - |d.name|, _ => 0));
    assert (front + Block(d) + tail)[|front| + HEAD..] == Flat(d.payload) + tail;
  }

  // ---------------------------------------------------------------- a list of blocks

  /** The devices of `ours` after every block of a machine with devices `theirs`, from the
      table's entry `k` on. */
  function MergeFrom<S>(env: Env<S>, theirs: map<nat, S>, ours: map<nat, S>, k: nat): map<nat, S>
    decreases |env.table| - k
  {
    if k >= |env.table| then ours
    else MergeFrom(env, theirs, if k in theirs && k in ours then ours[k := env.kept(k, ours[k], theirs[k])] else ours, k + 1)
  }

  lemma {:induction false} MergeIsOverride<S>(env: Env<S>, theirs: map<nat, S>, ours: map<nat, S>, k: nat)
    ensures var r := MergeFrom(env, theirs, ours, k);
            && r.Keys == ours.Keys
            && forall j <- ours :: r[j] == if k <= j < |env.table| && j in theirs then env.kept(j, ours[j], theirs[j]) else ours[j]
    decreases |env.table| - k
  {
    if k < |env.table| {
      MergeIsOverride(env, theirs, if k in theirs && k in ours then ours[k := env.kept(k, ours[k], theirs[k])] else ours, k + 1);
    }
  }

  /** Names of the devices in `theirs` that the machine has (or lacks), in table order. */
  function NamesFrom<S>(t: seq<Known>, theirs: map<nat, S>, present: set<nat>, k: nat, want: bool): seq<seq<byte>>
    decreases |t| - k
  {
    if k >= |t| then []
    else
      var rest := NamesFrom(t, theirs, present, k + 1, want);
      if k in theirs && (k in present) == want then [t[k].name] + rest else rest
  }

  /** One saved device read into a machine that has it, or not. */
  lemma OneDevice<S(!new)>(env: Env<S>, ours: map<nat, S>, k: nat, s: S, front: seq<byte>, tail: seq<byte>,
                           restored: seq<seq<byte>>, skipped: seq<seq<byte>>)
    requires Sane(env) && k < |env.table| && (k in ours ==> env.hardware(k, ours[k]) == env.hardware(k, s))
    ensures var d := Device(env.table[k].name, env.table[k].version, env.save(k, s));
            var data := front + Block(d) + tail;
            ReadBlocks(env, ours, data, |front|, restored, skipped) ==
            (if k in ours then ReadBlocks(env, ours[k := env.kept(k, ours[k], s)], data, |front + Block(d)|, restored + [d.name], skipped)
             else ReadBlocks(env, ours, data, |front + Block(d)|, restored, skipped + [d.name]))
  {
    hide Flat, CStr, LE, HeaderAt, Sane, Block, Lookup, ValidTable;
    SaneTable(env);
    BlockSize(Device(env.table[k].name, env.table[k].version, env.save(k, s)));
    var d := Device(env.table[k].name, env.table[k].version, env.save(k, s));
    var data, body := front + Block(d) + tail, Flat(d.payload);
    LoadsItself(env, k, s, tail);
    BlockReadsBack(front, d, tail);
    LookupFinds(env.table, k);
    assert |front + Block(d)| == |front| + HEAD + |body|;
    assert ApplyBlock(env, ours, d.name, d.version, data[|front| + HEAD..], |body|)
        == if k in ours then Applied(env.kept(k, ours[k], s)) else Skipped;
  }

  lemma SaneTable<S(!new)>(env: Env<S>)
    requires Sane(env)
    ensures ValidTable(env.table) && forall k :: 0 <= k < |env.table| ==> PlainName(env.table[k].name) && env.table[k].version < U32
  {
  }

  lemma BlockSize(d: Device)
    ensures |Block(d)| == HEAD + |Flat(d.payload)|
  {
    hide Flat;
  }

  lemma LoadsItself<S(!new)>(env: Env<S>, k: nat, s: S, tail: seq<byte>)
    requires Sane(env) && k < |env.table|
    ensures var bs := Flat(env.save(k, s));
            && |bs| < U32
            && (forall prior :: env.hardware(k, prior) == env.hardware(k, s) ==>
                  env.load(k, env.table[k].version, Some(prior), bs + tail, |bs|) == Applied(env.kept(k, prior, s)))
            && env.load(k, env.table[k].version, None, bs + tail, |bs|) == Skipped
  {
  }

  lemma KeptIsSameHardware<S(!new)>(env: Env<S>, k: nat, prior: S, s: S)
    requires Sane(env) && k < |env.table| && env.hardware(k, prior) == env.hardware(k, s)
    ensures env.hardware(k, env.kept(k, prior, s)) == env.hardware(k, prior)
  {
    LoadsItself(env, k, s, []);
    var bs := Flat(env.save(k, s));
    assert env.load(k, env.table[k].version, Some(prior), bs + [], |bs|) == Applied(env.kept(k, prior, s));
  }

  /** Reading the blocks of one machine into another: what both have is taken over (as far as
      the device keeps it), what only
      the file has is named as skipped, and reading stops at the sentinel. */
  lemma {:induction false} SavedBlocksReadBack<S(!new)>(
    env: Env<S>, theirs: map<nat, S>, ours: map<nat, S>, k: nat, front: seq<byte>, more: seq<byte>,
    restored: seq<seq<byte>>, skipped: seq<seq<byte>>)
    requires Sane(env) && Alike(env, ours, theirs)
    ensures var blocks := Blocks(DevicesFrom(env, theirs, k));
            var data := front + blocks + (LE(4, END) + more);
            ReadBlocks(env, ours, data, |front|, restored, skipped) ==
            Done(MergeFrom(env, theirs, ours, k), |front + blocks|,
                 restored + NamesFrom(env.table, theirs, ours.Keys, k, true),
                 skipped + NamesFrom(env.table, theirs, ours.Keys, k, false))
    decreases |env.table| - k
  {
    hide Sane, ReadBlocks, Block, LE;
    if k >= |env.table| {
      SentinelStops(env, ours, front, more, restored, skipped);
    } else if k !in theirs {
      SavedBlocksReadBack(env, theirs, ours, k + 1, front, more, restored, skipped);
    } else {
      var d := Device(env.table[k].name, env.table[k].version, env.save(k, theirs[k]));
      var rest, end := Blocks(DevicesFrom(env, theirs, k + 1)), LE(4, END) + more;
      BlocksStep(env, theirs, k, front, end);
      NamesStep(env.table, theirs, ours.Keys, k, restored, skipped);
      hide DevicesFrom, Blocks, NamesFrom;
      OneDevice(env, ours, k, theirs[k], front, rest + end, restored, skipped);
      if k in ours {
        var next := ours[k := env.kept(k, ours[k], theirs[k])];
        KeptIsSameHardware(env, k, ours[k], theirs[k]);
        assert next.Keys == ours.Keys && Alike(env, next, theirs);
        SavedBlocksReadBack(env, theirs, next, k + 1, front + Block(d), more, restored + [d.name], skipped);
      } else {
        SavedBlocksReadBack(env, theirs, ours, k + 1, front + Block(d), more, restored, skipped + [d.name]);
      }
    }
  }

  lemma BlocksStep<S>(env: Env<S>, theirs: map<nat, S>, k: nat, front: seq<byte>, end: seq<byte>)
    requires k < |env.table| && k in theirs
    ensures var d := Device(env.table[k].name, env.table[k].version, env.save(k, theirs[k]));
            var rest := Blocks(DevicesFrom(env, theirs, k + 1));
            && Blocks(DevicesFrom(env, theirs, k)) == Block(d) + rest
            && front + (Block(d) + rest) + end == front + Block(d) + (rest + end) == (front + Block(d)) + rest + end
            && front + (Block(d) + rest) == (front + Block(d)) + rest
  {
    hide Block;
    assert DevicesFrom(env, theirs, k)[1..] == DevicesFrom(env, theirs, k + 1);
  }

  lemma NamesStep<S>(t: seq<Known>, theirs: map<nat, S>, present: set<nat>, k: nat,
                     restored: seq<seq<byte>>, skipped: seq<seq<byte>>)
    requires k < |t| && k in theirs
    ensures restored + NamesFrom(t, theirs, present, k, true)
         == (if k in present then restored + [t[k].name] else restored) + NamesFrom(t, theirs, present, k + 1, true)
    ensures skipped + NamesFrom(t, theirs, present, k, false)
         == (if k in present then skipped else skipped + [t[k].name]) + NamesFrom(t, theirs, present, k + 1, false)
  {
  }

  lemma SentinelStops<S(!new)>(env: Env<S>, ours: map<nat, S>, front: seq<byte>, more: seq<byte>,
                               restored: seq<seq<byte>>, skipped: seq<seq<byte>>)
    ensures var data := front + [] + (LE(4, END) + more);
            ReadBlocks(env, ours, data, |front|, restored, skipped) == Done(ours, |front|, restored, skipped)
  {
    hide LE;
    var data := front + [] + (LE(4, END) + more);
    assert data == front + LE(4, END) + more;
    Pow256Values();
    WordAt(front, 4, END, more);
  }

  // ---------------------------------------------------------------- a whole file

  lemma CpuReadsBack(c: Cpu, saved: Cpu, tail: seq<byte>)
    requires CpuFits(saved)
    ensures var data := CpuBlock(saved) + tail;
            && CpuReadable(data) && |CpuBlock(saved)| == 8 + Size(CPU_WIDTHS)
            && SetFields(c, ReadFields(data, 8, CPU_WIDTHS)) == saved
  {
    hide Word, Size, ReadFields, SetFields, CpuFields, Values, CpuBlock, Fit;
    StoringReplaces(c, saved);
    RegistersReadBack(saved, tail);
  }

  lemma ManifestReadsBack(front: seq<byte>, manifest: seq<byte>)
    requires |manifest| < U32
    ensures ReadManifest(front + Trailer(manifest), |front|) == if 1 <= |manifest| <= 4096 then manifest else []
  {
    hide LE, Word, Trailer;
    TrailerShape(front, manifest);
  }

  /** What is kept of the file's states where both machines have the device, ours elsewhere. */
  function Override<S>(env: Env<S>, ours: map<nat, S>, theirs: map<nat, S>): map<nat, S> {
    map k | k in ours :: if k in theirs then env.kept(k, ours[k], theirs[k]) else ours[k]
  }

  predicate InTable<S>(env: Env<S>, devices: map<nat, S>) { forall k <- devices :: k < |env.table| }

  /** A file saved by any machine restores into any other with the same hardware behind the
      devices they share: the CPU becomes the file's, the MMU and the devices both machines have
      become what is kept of the file's, every other device is untouched, and the two lists
      split the names that were written. */
  lemma SavedFileRestores<S(!new)>(env: Env<S>, theirs: Machine<S>, ours: Machine<S>, manifest: seq<byte>)
    requires Sane(env) && CpuFits(theirs.cpu) && InTable(env, theirs.devices) && |manifest| < U32
    requires Alike(env, ours.devices, theirs.devices) && env.mmuHardware(ours.mmu) == env.mmuHardware(theirs.mmu)
    ensures Attempted(env, ours, SaveBytes(env, theirs, manifest))
         == Good(Restored(Machine(theirs.cpu, env.mmuKept(ours.mmu, theirs.mmu), Override(env, ours.devices, theirs.devices)),
                          NamesFrom(env.table, theirs.devices, ours.devices.Keys, 0, true),
                          NamesFrom(env.table, theirs.devices, ours.devices.Keys, 0, false),
                          if 1 <= |manifest| <= 4096 then manifest else []))
  {
    hide Sane, LE, Trailer, CpuBlock, CpuFits, ReadFields, SetFields, CpuReadable, ReadBlocks, Blocks, NamesFrom, ReadManifest;
    var cpu, mmu := CpuBlock(theirs.cpu), env.mmuSave(theirs.mmu);
    var blocks := Blocks(DevicesFrom(env, theirs.devices, 0));
    var tail := LE(4, END) + Trailer(manifest);
    var data := SaveBytes(env, theirs, manifest);
    assert data == cpu + (mmu + blocks + tail);
    CpuReadsBack(ours.cpu, theirs.cpu, mmu + blocks + tail);
    assert data[|cpu|..] == mmu + (blocks + tail);
    MmuLoadsItself(env, theirs.mmu, ours.mmu, blocks + tail);
    assert data == (cpu + mmu) + blocks + tail;
    RestAfterMmu(env, theirs, ours.(cpu := theirs.cpu), cpu + mmu, manifest);
  }

  lemma MmuLoadsItself<S(!new)>(env: Env<S>, s: S, prior: S, tail: seq<byte>)
    requires Sane(env) && env.mmuHardware(prior) == env.mmuHardware(s)
    ensures env.mmuLoad(prior, env.mmuSave(s) + tail) == Loaded(env.mmuKept(prior, s), |env.mmuSave(s)|)
  {
  }

  lemma RestAfterMmu<S(!new)>(env: Env<S>, theirs: Machine<S>, ours: Machine<S>, front: seq<byte>, manifest: seq<byte>)
    requires Sane(env) && InTable(env, theirs.devices) && |manifest| < U32 && Alike(env, ours.devices, theirs.devices)
    ensures var blocks := Blocks(DevicesFrom(env, theirs.devices, 0));
            var data := front + blocks + (LE(4, END) + Trailer(manifest));
            && ReadBlocks(env, ours.devices, data, |front|, [], [])
               == Done(Override(env, ours.devices, theirs.devices), |front + blocks|,
                       NamesFrom(env.table, theirs.devices, ours.devices.Keys, 0, true),
                       NamesFrom(env.table, theirs.devices, ours.devices.Keys, 0, false))
            && Has(data, |front + blocks|, 4) && Word(data, |front + blocks|, 4) == END
            && ReadManifest(data, |front + blocks| + 4) == if 1 <= |manifest| <= 4096 then manifest else []
  {
    hide LE, Trailer, Blocks, ReadBlocks, NamesFrom, Sane;
    var blocks := Blocks(DevicesFrom(env, theirs.devices, 0));
    var data := front + blocks + (LE(4, END) + Trailer(manifest));
    SavedBlocksReadBack(env, theirs.devices, ours.devices, 0, front, Trailer(manifest), [], []);
    MergeIsOverride(env, theirs.devices, ours.devices, 0);
    assert MergeFrom(env, theirs.devices, ours.devices, 0) == Override(env, ours.devices, theirs.devices);
    Pow256Values();
    assert data == (front + blocks) + LE(4, END) + Trailer(manifest);
    WordAt(front + blocks, 4, END, Trailer(manifest));
    assert data == (front + blocks + LE(4, END)) + Trailer(manifest);
    ManifestReadsBack(front + blocks + LE(4, END), manifest);
  }

  // ---------------------------------------------------------------- any file at all

  /** The places of the blocks that a reader comes by, from the headers alone. */
  function Walk(data: seq<byte>, pos: nat): seq<nat>
    decreases |data| - pos
  {
    var h := HeaderAt(data, pos);
    if h.Header? then HeaderFits(data, pos); [pos] + Walk(data, pos + HEAD + h.length) else []
  }

  /** What a block does to device `j` when the device is in state `s`: nothing, unless the block
      has its name and a version it reads. */
  function Meets<S>(env: Env<S>, data: seq<byte>, j: nat, s: S, p: nat): Effect<S> {
    var h := HeaderAt(data, p);
    if p + HEAD <= |data| && h.Header? && Lookup(env.table, h.name, h.version) == j
    then env.load(j, h.version, Some(s), data[p + HEAD..], h.length) else Skipped
  }

  /** The device after the blocks at these places, one after the other. */
  function AfterBlocks<S>(env: Env<S>, data: seq<byte>, j: nat, s: S, ps: seq<nat>): S {
    if ps == [] then s
    else
      var t := AfterBlocks(env, data, j, s, ps[..|ps| - 1]);
      var effect := Meets(env, data, j, t, ps[|ps| - 1]);
      if effect.Applied? then effect.state else t
  }

  /** Block `i` of the walk was accepted by device `j`, in the state the walk had reached. */
  predicate AcceptedAt<S>(env: Env<S>, data: seq<byte>, j: nat, s: S, ps: seq<nat>, i: nat)
    requires i < |ps|
  {
    Meets(env, data, j, AfterBlocks(env, data, j, s, ps[..i]), ps[i]).Applied?
  }

  /** Block `i` is the last accepted one and left state `t`, from what the walk had reached. */
  ghost predicate LastIs<S>(env: Env<S>, data: seq<byte>, j: nat, s: S, ps: seq<nat>, t: S, i: nat) {
    && i < |ps| && Meets(env, data, j, AfterBlocks(env, data, j, s, ps[..i]), ps[i]) == Applied(t)
    && forall k: nat :: i < k < |ps| ==> !AcceptedAt(env, data, j, s, ps, k)
  }

  ghost predicate InForce<S>(env: Env<S>, data: seq<byte>, j: nat, s: S, ps: seq<nat>, t: S) {
    exists i: nat :: LastIs(env, data, j, s, ps, t, i)
  }

  ghost predicate NeverAccepted<S>(env: Env<S>, data: seq<byte>, j: nat, s: S, ps: seq<nat>) {
    forall k: nat :: k < |ps| ==> !AcceptedAt(env, data, j, s, ps, k)
  }

  /** Whatever the file and whatever the codecs: each device is as the blocks of its own name
      left it, one after the other in file order, and no other block matters to it. */
  lemma {:induction false} EachDeviceSeesItsBlocks<S(!new)>(
    env: Env<S>, ours: map<nat, S>, data: seq<byte>, pos: nat, restored: seq<seq<byte>>, skipped: seq<seq<byte>>)
    requires InTable(env, ours) && ReadBlocks(env, ours, data, pos, restored, skipped).Done?
    ensures var r := ReadBlocks(env, ours, data, pos, restored, skipped);
            && r.devices.Keys == ours.Keys && restored <= r.restored
            && forall j <- ours :: r.devices[j] == AfterBlocks(env, data, j, ours[j], Walk(data, pos))
    decreases |data| - pos
  {
    hide HeaderAt, ApplyBlock, Lookup, After, AfterBlocks, Meets;
    var r := ReadBlocks(env, ours, data, pos, restored, skipped);
    var h := HeaderAt(data, pos);
    if !h.Header? {
      forall j | j in ours ensures AfterBlocks(env, data, j, ours[j], []) == ours[j] { NoBlocks(env, data, j, ours[j]); }
    } else {
      HeaderFits(data, pos);
      var effect := ApplyBlock(env, ours, h.name, h.version, data[pos + HEAD..], h.length);
      var next := pos + HEAD + h.length;
      var d := After(ours, Lookup(env.table, h.name, h.version), effect);
      OneBlock(env, ours, data, pos);
      if effect.Skipped? {
        EachDeviceSeesItsBlocks(env, d, data, next, restored, skipped + [h.name]);
      } else {
        EachDeviceSeesItsBlocks(env, d, data, next, restored + [h.name], skipped);
      }
      forall j | j in ours ensures r.devices[j] == AfterBlocks(env, data, j, ours[j], [pos] + Walk(data, next)) {
        FirstBlock(env, data, j, ours[j], pos, Walk(data, next));
      }
    }
  }

  lemma NoBlocks<S>(env: Env<S>, data: seq<byte>, j: nat, s: S)
    ensures AfterBlocks(env, data, j, s, []) == s
  {
  }

  /** One block of the walk, device by device. */
  lemma OneBlock<S(!new)>(env: Env<S>, ours: map<nat, S>, data: seq<byte>, pos: nat)
    requires InTable(env, ours) && HeaderAt(data, pos).Header? && pos + HEAD <= |data|
    requires var h := HeaderAt(data, pos); !ApplyBlock(env, ours, h.name, h.version, data[pos + HEAD..], h.length).Broken?
    ensures var h := HeaderAt(data, pos);
            var effect := ApplyBlock(env, ours, h.name, h.version, data[pos + HEAD..], h.length);
            var d := After(ours, Lookup(env.table, h.name, h.version), effect);
            && d.Keys == ours.Keys
            && forall j <- ours ::
                 var m := Meets(env, data, j, ours[j], pos);
                 d[j] == (if m.Applied? then m.state else ours[j])
  {
    hide HeaderAt, Lookup;
  }

  lemma {:induction false} FirstBlock<S>(env: Env<S>, data: seq<byte>, j: nat, s: S, p: nat, ps: seq<nat>)
    ensures var m := Meets(env, data, j, s, p);
            AfterBlocks(env, data, j, s, [p] + ps) == AfterBlocks(env, data, j, if m.Applied? then m.state else s, ps)
  {
    hide Meets;
    if ps == [] {
      assert [p] + ps == [p] && [p][..0] == [];
      NoBlocks(env, data, j, s);
    } else {
      assert ([p] + ps)[..|ps|] == [p] + ps[..|ps| - 1];
      FirstBlock(env, data, j, s, p, ps[..|ps| - 1]);
    }
  }

  /** A device's final state is that of the last block it accepted, if any. */
  lemma {:induction false} LastAccepted<S(!new)>(env: Env<S>, data: seq<byte>, j: nat, s: S, ps: seq<nat>)
    ensures var t := AfterBlocks(env, data, j, s, ps);
            if NeverAccepted(env, data, j, s, ps) then t == s else InForce(env, data, j, s, ps, t)
  {
    hide Meets, AfterBlocks, LastIs, AcceptedAt;
    if ps == [] {
      NoBlocks(env, data, j, s);
    } else {
      var before, n := ps[..|ps| - 1], |ps| - 1;
      LastAccepted(env, data, j, s, before);
      SameBefore(env, data, j, s, ps);
      LastBlock(env, data, j, s, ps);
      var t := AfterBlocks(env, data, j, s, ps);
      if AcceptedAt(env, data, j, s, ps, n) {
        assert LastIs(env, data, j, s, ps, t, n);
      } else if !NeverAccepted(env, data, j, s, before) {
        var i: nat :| LastIs(env, data, j, s, before, t, i);
        StillLast(env, data, j, s, ps, t, i);
      }
    }
  }

  lemma LastBlock<S>(env: Env<S>, data: seq<byte>, j: nat, s: S, ps: seq<nat>)
    requires ps != []
    ensures var n := |ps| - 1;
            if AcceptedAt(env, data, j, s, ps, n) then LastIs(env, data, j, s, ps, AfterBlocks(env, data, j, s, ps), n)
            else AfterBlocks(env, data, j, s, ps) == AfterBlocks(env, data, j, s, ps[..n])
  {
    hide Meets;
  }

  lemma StillLast<S>(env: Env<S>, data: seq<byte>, j: nat, s: S, ps: seq<nat>, t: S, i: nat)
    requires ps != [] && LastIs(env, data, j, s, ps[..|ps| - 1], t, i) && !AcceptedAt(env, data, j, s, ps, |ps| - 1)
    ensures LastIs(env, data, j, s, ps, t, i) && i < |ps| && AcceptedAt(env, data, j, s, ps, i)
  {
    hide Meets, AfterBlocks;
    SameBefore(env, data, j, s, ps);
    assert ps[..|ps| - 1][..i] == ps[..i];
  }

  lemma SameBefore<S>(env: Env<S>, data: seq<byte>, j: nat, s: S, ps: seq<nat>)
    requires ps != []
    ensures forall k: nat :: k < |ps| - 1 ==> (AcceptedAt(env, data, j, s, ps, k) <==> AcceptedAt(env, data, j, s, ps[..|ps| - 1], k))
  {
    hide Meets, AfterBlocks;
    forall k: nat | k < |ps| - 1
      ensures AcceptedAt(env, data, j, s, ps, k) <==> AcceptedAt(env, data, j, s, ps[..|ps| - 1], k)
    {
      assert ps[..|ps| - 1][..k] == ps[..k];
    }
  }

  /** A device that did not accept the first block has accepted none exactly when it accepts none
      of the others. */
  lemma NeverAcceptedTail<S>(env: Env<S>, data: seq<byte>, j: nat, s: S, p: nat, ps: seq<nat>)
    ensures Meets(env, data, j, s, p).Applied? ==> !NeverAccepted(env, data, j, s, [p] + ps)
    ensures !Meets(env, data, j, s, p).Applied? ==> (NeverAccepted(env, data, j, s, [p] + ps) <==> NeverAccepted(env, data, j, s, ps))
  {
    hide Meets, AfterBlocks;
    var all := [p] + ps;
    NoBlocks(env, data, j, s);
    assert all[..0] == [];
    assert AcceptedAt(env, data, j, s, all, 0) <==> Meets(env, data, j, s, p).Applied?;
    if !Meets(env, data, j, s, p).Applied? {
      forall k: nat | k < |ps| ensures AcceptedAt(env, data, j, s, all, k + 1) <==> AcceptedAt(env, data, j, s, ps, k) {
        assert all[..k + 1] == [p] + ps[..k];
        FirstBlock(env, data, j, s, p, ps[..k]);
      }
      if NeverAccepted(env, data, j, s, ps) {
        forall k: nat | k < |all| ensures !AcceptedAt(env, data, j, s, all, k) {
          if k > 0 { assert !AcceptedAt(env, data, j, s, ps, k - 1); }
        }
      } else {
        var k: nat :| k < |ps| && AcceptedAt(env, data, j, s, ps, k);
        assert AcceptedAt(env, data, j, s, all, k + 1);
      }
    }
  }

  /** A device of the machine is named as restored exactly when it accepted some block. */
  lemma {:induction false} NamedIsAccepted<S(!new)>(
    env: Env<S>, ours: map<nat, S>, data: seq<byte>, pos: nat, restored: seq<seq<byte>>, skipped: seq<seq<byte>>, j: nat)
    requires ValidTable(env.table) && InTable(env, ours) && ReadBlocks(env, ours, data, pos, restored, skipped).Done? && j in ours
    ensures var r := ReadBlocks(env, ours, data, pos, restored, skipped);
            && restored <= r.restored
            && (env.table[j].name in r.restored[|restored|..] <==> !NeverAccepted(env, data, j, ours[j], Walk(data, pos)))
    decreases |data| - pos
  {
    hide ValidTable, HeaderAt, ApplyBlock, Lookup, After, AfterBlocks, Meets, NeverAccepted;
    var r := ReadBlocks(env, ours, data, pos, restored, skipped);
    var h := HeaderAt(data, pos);
    if !h.Header? {
      NoneToAccept(env, data, j, ours[j]);
    } else {
      HeaderFits(data, pos);
      var effect := ApplyBlock(env, ours, h.name, h.version, data[pos + HEAD..], h.length);
      var next := pos + HEAD + h.length;
      var d := After(ours, Lookup(env.table, h.name, h.version), effect);
      OneBlock(env, ours, data, pos);
      NameOfBlock(env, ours, data, pos, j);
      NeverAcceptedTail(env, data, j, ours[j], pos, Walk(data, next));
      if effect.Skipped? {
        NamedIsAccepted(env, d, data, next, restored, skipped + [h.name], j);
      } else {
        NamedIsAccepted(env, d, data, next, restored + [h.name], skipped, j);
        assert r.restored[|restored|..] == [h.name] + r.restored[|restored| + 1..];
      }
    }
  }

  lemma NoneToAccept<S>(env: Env<S>, data: seq<byte>, j: nat, s: S)
    ensures NeverAccepted(env, data, j, s, [])
  {
  }

  /** The device a block is for, by its name. */
  lemma NameOfBlock<S(!new)>(env: Env<S>, ours: map<nat, S>, data: seq<byte>, pos: nat, j: nat)
    requires ValidTable(env.table) && InTable(env, ours) && HeaderAt(data, pos).Header? && pos + HEAD <= |data| && j in ours
    ensures var h := HeaderAt(data, pos);
            var effect := ApplyBlock(env, ours, h.name, h.version, data[pos + HEAD..], h.length);
            Meets(env, data, j, ours[j], pos).Applied? <==> effect.Applied? && h.name == env.table[j].name
  {
    hide HeaderAt;
    var h := HeaderAt(data, pos);
    var k := Lookup(env.table, h.name, h.version);
    if k < |env.table| && h.name == env.table[j].name { NameIsUnique(env.table, j, k); }
  }

  lemma NameIsUnique(t: seq<Known>, j: nat, k: nat)
    requires ValidTable(t) && j < |t| && k < |t| && t[j].name == t[k].name
    ensures j == k
  {
  }

  /** Whatever the file and whatever the codecs: a device named as restored is in the state of
      the last block it accepted, applied to what the blocks before had made of it, and every
      other device is as it was. */
  lemma OnlyNamedDevicesChange<S(!new)>(
    env: Env<S>, ours: map<nat, S>, data: seq<byte>, pos: nat, restored: seq<seq<byte>>, skipped: seq<seq<byte>>)
    requires ValidTable(env.table) && InTable(env, ours) && ReadBlocks(env, ours, data, pos, restored, skipped).Done?
    ensures var r := ReadBlocks(env, ours, data, pos, restored, skipped);
            && r.devices.Keys == ours.Keys && restored <= r.restored
            && forall j <- ours ::
                 if env.table[j].name in r.restored[|restored|..] then InForce(env, data, j, ours[j], Walk(data, pos), r.devices[j])
                 else r.devices[j] == ours[j]
  {
    hide ReadBlocks, Walk, AfterBlocks, InForce, NeverAccepted, ValidTable;
    EachDeviceSeesItsBlocks(env, ours, data, pos, restored, skipped);
    var r := ReadBlocks(env, ours, data, pos, restored, skipped);
    forall j | j in ours
      ensures if env.table[j].name in r.restored[|restored|..] then InForce(env, data, j, ours[j], Walk(data, pos), r.devices[j])
              else r.devices[j] == ours[j]
    {
      NamedIsAccepted(env, ours, data, pos, restored, skipped, j);
      LastAccepted(env, data, j, ours[j], Walk(data, pos));
    }
  }

  // ---------------------------------------------------------------- the verb

  /** What the host makes of the command: whether an injector is busy, whether the path is
      well formed, the file behind it, and how the checkpoint's own file fares. */
  datatype Host = Host(busy: bool, validPath: bool, file: Option<seq<byte>>, tempDir: bool, saves: bool,
                       manifest: seq<byte>, reopens: bool)

  datatype Rollback = NotApplicable | RolledBack | RollbackFailed

  datatype Reply =
    | Ok(restored: seq<seq<byte>>, skipped: seq<seq<byte>>, manifest: seq<byte>)
    | Fail(stage: Stage, rollback: Rollback)

  /** The machine after a rollback: the checkpoint of `before`, loaded over what the attempt
      left behind. */
  function RolledBackTo<S>(env: Env<S>, before: Machine<S>, file: seq<byte>): Machine<S> {
    var (mmu, devices) := Left(env, before, file);
    Machine(before.cpu, env.mmuKept(mmu, before.mmu), Override(env, devices, before.devices))
  }

  /** Nothing of the saved machine is lost when it is loaded over what the attempt left. */
  ghost predicate Recovers<S>(env: Env<S>, before: Machine<S>, file: seq<byte>) {
    var (mmu, devices) := Left(env, before, file);
    && env.mmuKept(mmu, before.mmu) == before.mmu
    && forall k <- before.devices :: k in devices ==> env.kept(k, devices[k], before.devices[k]) == before.devices[k]
  }

  lemma RollbackIsExact<S(!new)>(env: Env<S>, before: Machine<S>, file: seq<byte>)
    requires KeepsHardware(env)
    ensures RolledBackTo(env, before, file) == before <==> Recovers(env, before, file)
  {
    hide Left, KeepsHardware;
    LeftIsSameHardware(env, before, file);
    var (mmu, devices) := Left(env, before, file);
    assert Override(env, devices, before.devices).Keys == before.devices.Keys;
    if Recovers(env, before, file) {
      assert Override(env, devices, before.devices) == before.devices;
    }
  }

  /** The machine survives its own checkpoint, over itself. */
  ghost predicate SelfKept<S>(env: Env<S>, m: Machine<S>) {
    env.mmuKept(m.mmu, m.mmu) == m.mmu && forall k <- m.devices :: env.kept(k, m.devices[k], m.devices[k]) == m.devices[k]
  }

  /** And over any state of the same hardware. */
  ghost predicate Lossless<S(!new)>(env: Env<S>, m: Machine<S>) {
    && (forall prior :: env.mmuHardware(prior) == env.mmuHardware(m.mmu) ==> env.mmuKept(prior, m.mmu) == m.mmu)
    && (forall k, prior :: k in m.devices && env.hardware(k, prior) == env.hardware(k, m.devices[k]) ==>
          env.kept(k, prior, m.devices[k]) == m.devices[k])
  }

  /** What is kept does not depend on what it is loaded over. */
  ghost predicate Indifferent<S(!new)>(env: Env<S>) {
    && (forall p, q, s :: env.mmuHardware(p) == env.mmuHardware(q) ==> env.mmuKept(p, s) == env.mmuKept(q, s))
    && (forall k, p, q, s :: env.hardware(k, p) == env.hardware(k, q) ==> env.kept(k, p, s) == env.kept(k, q, s))
  }

  /** Which machines every rollback gives back: those that lose nothing to a checkpoint, and of
      the others at most those that survive their own; an empty file already shows the rest. Where
      a checkpoint means the same over every state, that is an exact condition. */
  lemma MachinesThatRecover<S(!new)>(env: Env<S>, m: Machine<S>)
    requires KeepsHardware(env)
    ensures Lossless(env, m) ==> forall file :: Recovers(env, m, file)
    ensures Recovers(env, m, []) <==> SelfKept(env, m)
    ensures Indifferent(env) ==> forall file :: Recovers(env, m, file) <==> SelfKept(env, m)
  {
    hide KeepsHardware, Left, Alike;
    NothingLeft(env, m);
    if Lossless(env, m) {
      forall file ensures Recovers(env, m, file) { LosslessRecovers(env, m, file); }
    }
    if Indifferent(env) {
      forall file ensures Recovers(env, m, file) <==> SelfKept(env, m) { RecoversIsSelfKept(env, m, file); }
    }
  }

  lemma RecoversIsSelfKept<S(!new)>(env: Env<S>, m: Machine<S>, file: seq<byte>)
    requires KeepsHardware(env) && Indifferent(env)
    ensures Recovers(env, m, file) <==> SelfKept(env, m)
  {
    hide KeepsHardware, Left;
    LeftIsSameHardware(env, m, file);
    var (mmu, devices) := Left(env, m, file);
    forall k | k in m.devices
      ensures k in devices && env.kept(k, devices[k], m.devices[k]) == env.kept(k, m.devices[k], m.devices[k])
    {
      assert env.hardware(k, devices[k]) == env.hardware(k, m.devices[k]);
    }
    assert env.mmuKept(mmu, m.mmu) == env.mmuKept(m.mmu, m.mmu);
  }

  lemma NothingLeft<S>(env: Env<S>, m: Machine<S>)
    ensures Left(env, m, []) == (m.mmu, m.devices)
  {
  }

  lemma LosslessRecovers<S(!new)>(env: Env<S>, m: Machine<S>, file: seq<byte>)
    requires KeepsHardware(env) && Lossless(env, m)
    ensures Recovers(env, m, file)
  {
    hide KeepsHardware, Left;
    LeftIsSameHardware(env, m, file);
    var (mmu, devices) := Left(env, m, file);
    forall k | k in m.devices && k in devices ensures env.kept(k, devices[k], m.devices[k]) == m.devices[k] {
      assert env.hardware(k, devices[k]) == env.hardware(k, m.devices[k]);
    }
  }

  /** The first step that refuses the command. */
  predicate RefusedAt<S>(env: Env<S>, host: Host, m: Machine<S>, stage: Stage) {
    if host.busy || !host.validPath then stage == Preflight
    else if host.file.None? then stage == Open
    else if !host.tempDir || !host.saves then stage == RollbackSave
    else Attempted(env, m, host.file.value) == Bad(stage)
  }

  /** CTRL `restore`. OK means exactly what the file does to the machine, with the CPU running
      again. A refusal before the attempt leaves the machine untouched; one after it gives back
      what the checkpoint keeps, however far the attempt had got and whatever it had overwritten.
      A rollback fails only if the host cannot open the checkpoint it has just written. */
  method RestoreVerb<S(!new)>(env: Env<S>, rig: Rig<S>, host: Host) returns (reply: Reply)
    requires Sane(env) && CpuFits(rig.cpu) && InTable(env, rig.devices) && |host.manifest| < U32
    modifies rig
    ensures reply.Fail? && reply.rollback.RolledBack? ==> host.file.Some?
    ensures reply.Fail? ==> RefusedAt(env, host, old(rig.View()), reply.stage)
    ensures reply.Ok? <==>
              && !host.busy && host.validPath && host.file.Some? && host.tempDir && host.saves
              && Attempted(env, old(rig.View()), host.file.value).Good?
    ensures reply.Ok? ==>
              var r := Attempted(env, old(rig.View()), host.file.value).value;
              && rig.View() == r.machine.(cpu := r.machine.cpu.(halt := 0))
              && reply == Ok(r.restored, r.skipped, r.manifest)
    ensures reply.Fail? && reply.rollback.NotApplicable? ==> rig.View() == old(rig.View())
    ensures reply.Fail? && reply.rollback.RolledBack? ==>
              && rig.View() == RolledBackTo(env, old(rig.View()), host.file.value)
              && (rig.View() == old(rig.View()) <==> Recovers(env, old(rig.View()), host.file.value))
    ensures reply.Fail? && reply.rollback.RollbackFailed? ==> !host.reopens
    ensures reply.Fail? && reply.rollback.NotApplicable? <==>
              host.busy || !host.validPath || host.file.None? || !host.tempDir || !host.saves
  {
    hide Sane, CpuFits, Attempted, SaveBytes, RolledBackTo, Recovers;
    if host.busy || !host.validPath { return Fail(Preflight, NotApplicable); }
    if host.file.None? { return Fail(Open, NotApplicable); }
    var checkpoint: seq<byte> := [];
    if host.tempDir { checkpoint := rig.SnapSave(env, host.manifest); }
    if !host.tempDir || !host.saves { return Fail(RollbackSave, NotApplicable); }
    reply := RestoreOrRollBack(env, rig, host.file.value, checkpoint, host.manifest, host.reopens);
  }

  /** The part of the verb that touches the machine. */
  method RestoreOrRollBack<S(!new)>(env: Env<S>, rig: Rig<S>, file: seq<byte>, checkpoint: seq<byte>,
                                    ghost manifest: seq<byte>, reopens: bool) returns (reply: Reply)
    requires Sane(env) && CpuFits(rig.cpu) && InTable(env, rig.devices) && |manifest| < U32
    requires checkpoint == SaveBytes(env, rig.View(), manifest)
    modifies rig
    ensures match Attempted(env, old(rig.View()), file)
            case Good(r) =>
              && rig.View() == r.machine.(cpu := r.machine.cpu.(halt := 0))
              && reply == Ok(r.restored, r.skipped, r.manifest)
            case Bad(stage) =>
              && reply == Fail(stage, if reopens then RolledBack else RollbackFailed)
              && (reopens ==>
                    && rig.View() == RolledBackTo(env, old(rig.View()), file)
                    && (rig.View() == old(rig.View()) <==> Recovers(env, old(rig.View()), file)))
  {
    hide Sane, KeepsHardware, CpuFits, Attempted, SaveBytes, NamesFrom, Left, Recovers, Override;
    SaneKeepsHardware(env);
    ghost var before := rig.View();
    var ok, stage, restored, skipped, m := rig.SnapRestore(env, file);
    if ok {
      rig.cpu := rig.cpu.(halt := 0);
      return Ok(restored, skipped, m);
    }
    if !reopens { return Fail(stage, RollbackFailed); }
    LeftIsSameHardware(env, before, file);
    SavedFileRestores(env, before, rig.View(), manifest);
    RollbackIsExact(env, before, file);
    var rolled, _, _, _, _ := rig.SnapRestore(env, checkpoint);
    reply := Fail(stage, if rolled then RolledBack else RollbackFailed);
  }

  lemma SaneKeepsHardware<S(!new)>(env: Env<S>)
    requires Sane(env)
    ensures KeepsHardware(env)
  {
  }

  // ---------------------------------------------------------------- the real table

  datatype Row = Row(name: string, version: nat, oldest: nat, newest: nat)

  /** The blocks this binary writes, in order, with the versions it accepts back. */
  const ROWS: seq<Row> := [
    Row("adb", 1, 1, 1), Row("ensoniq", 2, 2, 2), Row("vgcint", 2, 1, 2), Row("scanner", 1, 1, 1),
    Row("iwm", 4, 2, 4), Row("diskii", 2, 1, 2), Row("media", 2, 1, 2), Row("pdblock", 2, 1, 2),
    Row("u2", 1, 1, 1), Row("tclock", 1, 1, 1), Row("mousecd", 1, 1, 1), Row("voc", 1, 1, 1),
    Row("motor", 1, 1, 1), Row("scc", 1, 1, 1), Row("rtc", 1, 1, 1), Row("a2gspu", 1, 1, 1),
    Row("mb", 1, 1, 1), Row("ssc", 2, 1, 2), Row("ssight", 1, 1, 1)]

  function Table(rows: seq<Row>): (t: seq<Known>)
    ensures |t| == |rows|
    ensures forall i :: 0 <= i < |rows| ==> t[i] == Known(Ascii(rows[i].name), rows[i].version, rows[i].oldest, rows[i].newest)
  {
    if rows == [] then []
    else [Known(Ascii(rows[0].name), rows[0].version, rows[0].oldest, rows[0].newest)] + Table(rows[1..])
  }

  /** A number that tells the names apart: length, first and second character. */
  function Tag(n: string): nat {
    if |n| < 2 then 0 else |n| + 10 * (n[0] as int) + 10000 * (n[1] as int)
  }

  predicate PlainRow(r: Row) {
    && 1 <= |r.name| <= 7 && r.oldest <= r.version <= r.newest < U32
    && forall i :: 0 <= i < |r.name| ==> 0 < r.name[i] as int < 256
  }

  ghost predicate GoodRows(rows: seq<Row>) {
    && (forall i :: 0 <= i < |rows| ==> PlainRow(rows[i]))
    && (forall j, k :: 0 <= j < k < |rows| ==> Tag(rows[j].name) != Tag(rows[k].name))
  }

  const TAGS := [
    1000973, 1101017, 1031186, 991157, 1191053, 1051006, 1011095,
    1001127, 501172, 991166, 1111097, 1111183, 1111095, 991153,
    1161143, 500976, 981092, 1151153, 1151156]

  lemma RealRow(i: nat)
    requires i < |ROWS|
    ensures PlainRow(ROWS[i]) && Tag(ROWS[i].name) == TAGS[i]
  {
    hide Tag, PlainRow;
    if i < 6 { RealRow0(i); } else if i < 12 { RealRow6(i); } else { RealRow12(i); }
  }

  lemma RealRow0(i: nat)
    requires i < 6
    ensures PlainRow(ROWS[i]) && Tag(ROWS[i].name) == TAGS[i]
  {
  }

  lemma RealRow6(i: nat)
    requires 6 <= i < 12
    ensures PlainRow(ROWS[i]) && Tag(ROWS[i].name) == TAGS[i]
  {
  }

  lemma RealRow12(i: nat)
    requires 12 <= i < 19
    ensures PlainRow(ROWS[i]) && Tag(ROWS[i].name) == TAGS[i]
  {
  }

  lemma TagsDiffer(j: nat, k: nat)
    requires j < k < 19
    ensures TAGS[j] != TAGS[k]
  {
  }

  lemma RealRowsAreGood(rows: seq<Row>)
    requires rows == ROWS
    ensures GoodRows(rows)
  {
    hide Tag, PlainRow;
    forall i | 0 <= i < |rows| ensures PlainRow(rows[i]) && Tag(rows[i].name) == TAGS[i] { RealRow(i); }
    forall j, k | 0 <= j < k < |rows| ensures Tag(rows[j].name) != Tag(rows[k].name) { TagsDiffer(j, k); }
  }

  lemma {:induction false} AsciiKeeps(n: string)
    requires forall i :: 0 <= i < |n| ==> 0 < n[i] as int < 256
    ensures |Ascii(n)| == |n| && forall i :: 0 <= i < |n| ==> Ascii(n)[i] == n[i] as int
  {
    if n != "" { AsciiKeeps(n[1..]); }
  }

  lemma GoodRowsGiveTable(rows: seq<Row>)
    requires GoodRows(rows)
    ensures ValidTable(Table(rows))
  {
    hide Ascii;
    var t := Table(rows);
    forall i | 0 <= i < |rows| ensures PlainName(t[i].name) { AsciiKeeps(rows[i].name); }
    forall j, k | 0 <= j < k < |rows| ensures t[j].name != t[k].name {
      AsciiKeeps(rows[j].name);
      AsciiKeeps(rows[k].name);
    }
  }

  /** The table of this binary meets what the theorems above ask of a table. */
  lemma RealTableIsValid()
    ensures ValidTable(Table(ROWS))
  {
    RealRowsAreGood(ROWS);
    hide GoodRows, Table;
    GoodRowsGiveTable(ROWS);
  }

  // ---------------------------------------------------------------- the laws can be met

  /** Codecs of one byte in a length-prefixed record. The top bit is hardware: a byte of the
      other kind does not load. The lowest bit is a live connection, which is saved but never
      comes back. An empty block is accepted even where there is no device, as the `diskii` and
      `media` blocks of the program are (src/a2gspu_snapshot.cpp:359-387). */
  function ByteEnv(t: seq<Known>): Env<byte> {
    Env(t, ByteSave, ByteLoad, (_, _, s: byte) => Dropped(s), ByteMmuSave, ByteMmuLoad, (_, s) => s, (_, s: byte) => Top(s), Top)
  }

  function Top(s: byte): nat { s / 128 }

  function Dropped(s: byte): (r: byte)
    ensures Top(r) == Top(s)
  {
    s / 2 * 2
  }

  function ByteSave(k: nat, s: byte): seq<Piece> { [Sized([Raw([s])])] }

  function ByteLoad(k: nat, version: nat, prior: Option<byte>, rest: seq<byte>, n: nat): Effect<byte> {
    if prior.None? then if n == 0 then Applied(0) else Skipped
    else if n == 5 && |rest| >= 5 && Top(rest[4]) == Top(prior.value) then Applied(Dropped(rest[4]))
    else Broken(Top(prior.value) * 128)
  }

  function ByteMmuSave(s: byte): seq<byte> { [s] }

  function ByteMmuLoad(prior: byte, rest: seq<byte>): MmuEffect<byte> {
    if rest == [] || Top(rest[0]) != Top(prior) then Refused(Top(prior) * 128) else Loaded(rest[0], 1)
  }

  lemma ByteIsFlat(k: nat, s: byte)
    ensures Flat(ByteSave(k, s)) == LE(4, 1) + [s] && |Flat(ByteSave(k, s))| == 5
  {
    hide LE;
    assert Flat([]) == [];
    assert [s] + [] == [s];
    assert [Raw([s])][1..] == [];
    assert Flat([Raw([s])]) == [s];
    var p := Sized([Raw([s])]);
    assert [p][1..] == [];
    assert FlatPiece(p) == LE(4, 1) + [s];
    assert FlatPiece(p) + [] == FlatPiece(p);
  }

  lemma ByteCodecsAreSane(t: seq<Known>)
    requires ValidTable(t)
    ensures Sane(ByteEnv(t))
  {
    hide LE, Flat, ValidTable, ByteSave;
    forall k: nat, s: byte ensures |Flat(ByteSave(k, s))| == 5 && forall tail: seq<byte> :: (Flat(ByteSave(k, s)) + tail)[4] == s {
      ByteIsFlat(k, s);
    }
  }

  /** With the device table of this binary, the assumptions about codecs are satisfiable. */
  lemma CodecLawsAreSatisfiable()
    ensures Sane(ByteEnv(Table(ROWS)))
  {
    hide Table, Sane, ByteEnv;
    RealTableIsValid();
    ByteCodecsAreSane(Table(ROWS));
  }

  /** A machine with a live connection does not get it back: an empty file is refused before it
      changes anything, and the rollback drops the connection. */
  lemma RollbackMayLose(t: seq<Known>, k: nat, cpu: Cpu)
    requires ValidTable(t) && k < |t|
    ensures var env, m := ByteEnv(t), Machine(cpu, 0, map[k := 1]);
            && Sane(env) && InTable(env, m.devices) && Attempted(env, m, []) == Bad(CpuStage)
            && RolledBackTo(env, m, []) == m.(devices := map[k := 0])
  {
    hide Sane;
    ByteCodecsAreSane(t);
    var m := Machine(cpu, 0, map[k := 1]);
    NothingLeft(ByteEnv(t), m);
    assert Override(ByteEnv(t), m.devices, m.devices) == map[k := 0];
  }
}
