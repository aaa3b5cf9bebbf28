/** What trap expressions mean (src/a2gspu_trap.hpp): the 32-bit evaluator over the arena
    agrees with plain arithmetic modulo 2^24.
 */
module TrapMeaning {
  import opened Bytes
  import opened TrapExpr

  const MOD24 := 0x100_0000

  /** The registers an expression can name, and memory as the MMU probe shows it. */
  datatype Cpu = Cpu(a: nat, x: nat, y: nat, sp: nat, d: nat, db: nat, fullPc: nat, p: nat, e: bool, mem: nat -> byte)
  {
    predicate Valid() { a < 0x1_0000 && x < 0x1_0000 && y < 0x1_0000 && sp < 0x1_0000 && d < 0x1_0000 && db < 256 && fullPc < U32 && p < 256 }
  }

  function RegValue(r: Reg, c: Cpu): nat {
    match r
    case A => c.a
    case X => c.x
    case Y => c.y
    case S => c.sp
    case D => c.d
    case Dbr => c.db
    case Pbr => c.fullPc / 0x1_0000 % 0x100
    case Pc => c.fullPc % 0x1_0000
    case Fpc => c.fullPc % MOD24
    case P => c.p
    case E => if c.e then 1 else 0
  }

  // ---------------------------------------------------------------- the evaluator

  function PeekMem(c: Cpu, addr: nat): nat { c.mem(addr % MOD24) }

  /** The stack rule: page 1 in emulation mode or with an 8-bit S, in 32-bit arithmetic. */
  function StackAddr(c: Cpu, k: nat): nat {
    if c.e || c.sp < 0x100 then 0x100 + (c.sp + k) % U32 % 0x100 else (c.sp + k) % U32 % 0x1_0000
  }

  function Call32(f: Fn, v: nat, c: Cpu): nat {
    match f
    case M8 => PeekMem(c, v)
    case M16 => PeekMem(c, v) + 0x100 * PeekMem(c, (v + 1) % U32)
    case M24 => PeekMem(c, v) + 0x100 * PeekMem(c, (v + 1) % U32) + 0x1_0000 * PeekMem(c, (v + 2) % U32)
    case Z8 => PeekMem(c, v % 0x1_0000)
    case Z16 => PeekMem(c, v % 0x1_0000) + 0x100 * PeekMem(c, (v + 1) % U32 % 0x1_0000)
    case S8 => PeekMem(c, StackAddr(c, v))
    case S16 => PeekMem(c, StackAddr(c, v)) + 0x100 * PeekMem(c, StackAddr(c, (v + 1) % U32))
  }

  /** `eval` over the arena; it terminates because children come first. */
  function Eval(nodes: seq<Node>, i: nat, c: Cpu): nat
    requires ChildrenFirst(nodes) && i < |nodes|
    decreases i
  {
    match nodes[i]
    case NumNode(v) => v
    case RegNode(r) => RegValue(r, c)
    case FnNode(f, a) => Call32(f, Eval(nodes, a, c), c)
    case AddNode(a, b) => (Eval(nodes, a, c) + Eval(nodes, b, c)) % U32 % MOD24
    case SubNode(a, b) => (Eval(nodes, a, c) - Eval(nodes, b, c)) % U32 % MOD24
  }

  // ---------------------------------------------------------------- the meaning

  /** Memory is 2^24 bytes, addressed modulo its size; nothing here knows of 32 bits. */
  function Mem(c: Cpu, addr: int): nat { c.mem(addr % MOD24) }

  function Slot(c: Cpu, k: int): int { if c.e || c.sp < 0x100 then 0x100 + (c.sp + k) % 0x100 else (c.sp + k) % 0x1_0000 }

  function CallMeans(f: Fn, v: int, c: Cpu): nat {
    match f
    case M8 => Mem(c, v)
    case M16 => Mem(c, v) + 0x100 * Mem(c, v + 1)
    case M24 => Mem(c, v) + 0x100 * Mem(c, v + 1) + 0x1_0000 * Mem(c, v + 2)
    case Z8 => Mem(c, v % 0x1_0000)
    case Z16 => Mem(c, v % 0x1_0000) + 0x100 * Mem(c, (v + 1) % 0x1_0000)
    case S8 => Mem(c, Slot(c, v))
    case S16 => Mem(c, Slot(c, v)) + 0x100 * Mem(c, Slot(c, v + 1))
  }

  function Means(t: Tree, c: Cpu): nat {
    match t
    case Num(v) => v
    case Register(r) => RegValue(r, c)
    case Apply(f, arg) => CallMeans(f, Means(arg, c), c)
    case Add(lhs, r) => (Means(lhs, c) + Means(r, c)) % MOD24
    case Sub(lhs, r) => (Means(lhs, c) - Means(r, c)) % MOD24
  }

  lemma CallsAgree(f: Fn, v: nat, c: Cpu)
    requires v < U32
    ensures Call32(f, v, c) == CallMeans(f, v, c)
  {
    WrapVanishes(v + 1);
    WrapVanishes(v + 2);
    WrapVanishes(c.sp + v);
    WrapVanishes(c.sp + (v + 1) % U32);
    WrapVanishes(c.sp + (v + 1));
    StackWrap(c.sp, v + 1);
  }

  lemma StackWrap(sp: nat, k: nat)
    ensures (sp + k % U32) % 0x100 == (sp + k) % 0x100 && (sp + k % U32) % 0x1_0000 == (sp + k) % 0x1_0000
  {
    var q := k / U32;
    assert k == U32 * q + k % U32;
    assert sp + k == (sp + k % U32) + 0x1_0000 * (0x1_0000 * q);
    assert sp + k == (sp + k % U32) + 0x100 * (0x100_0000 * q);
  }

  /** 2^24, 2^16 and 2^8 divide 2^32, so the wrap-around of C never shows. */
  lemma WrapVanishes(n: int)
    ensures n % U32 % MOD24 == n % MOD24 && n % U32 % 0x1_0000 == n % 0x1_0000 && n % U32 % 0x100 == n % 0x100
  {
    Wrap24(n);
    Wrap16(n);
    Wrap8(n);
  }

  lemma Wrap24(n: int)
    ensures n % U32 % MOD24 == n % MOD24
  {
    assert n == MOD24 * (0x100 * (n / U32)) + n % U32;
  }

  lemma Wrap16(n: int)
    ensures n % U32 % 0x1_0000 == n % 0x1_0000
  {
    assert n == 0x1_0000 * (0x1_0000 * (n / U32)) + n % U32;
  }

  lemma Wrap8(n: int)
    ensures n % U32 % 0x100 == n % 0x100
  {
    assert n == 0x100 * (0x100_0000 * (n / U32)) + n % U32;
  }

  predicate NumbersFit(t: Tree) {
    match t
    case Num(v) => v < U32
    case Register(_) => true
    case Apply(_, arg) => NumbersFit(arg)
    case Add(lhs, r) => NumbersFit(lhs) && NumbersFit(r)
    case Sub(lhs, r) => NumbersFit(lhs) && NumbersFit(r)
  }

  lemma MeaningFits(t: Tree, c: Cpu)
    requires c.Valid() && NumbersFit(t)
    ensures Means(t, c) < U32
  {
  }

  /** The value of an index is the meaning of the tree it holds. */
  lemma {:induction false} EvalIsMeaning(nodes: seq<Node>, i: nat, t: Tree, c: Cpu)
    requires ChildrenFirst(nodes) && Holds(nodes, i, t) && c.Valid() && NumbersFit(t)
    ensures Eval(nodes, i, c) == Means(t, c)
    decreases t
  {
    hide ChildrenFirst, Call32, CallMeans;
    match t
    case Num(_) =>
    case Register(_) =>
    case Apply(f, arg) =>
      EvalIsMeaning(nodes, nodes[i].a, arg, c);
      MeaningFits(arg, c);
      CallsAgree(f, Means(arg, c), c);
    case Add(lhs, r) =>
      EvalIsMeaning(nodes, nodes[i].a, lhs, c);
      EvalIsMeaning(nodes, nodes[i].b, r, c);
      WrapVanishes(Means(lhs, c) + Means(r, c));
    case Sub(lhs, r) =>
      EvalIsMeaning(nodes, nodes[i].a, lhs, c);
      EvalIsMeaning(nodes, nodes[i].b, r, c);
      WrapVanishes(Means(lhs, c) - Means(r, c));
  }

  // ---------------------------------------------------------------- chains

  /** t0 +- t1 +- t2 ..., grouped to the left as the parser groups it. */
  function Chain(first: Tree, rest: seq<(bool, Tree)>): Tree {
    if rest == [] then first
    else
      var last := rest[|rest| - 1];
      var before := Chain(first, rest[..|rest| - 1]);
      if last.0 then Add(before, last.1) else Sub(before, last.1)
  }

  /** The plain integer sum of a chain. */
  function Sum(first: Tree, rest: seq<(bool, Tree)>, c: Cpu): int {
    if rest == [] then Means(first, c)
    else
      var last := rest[|rest| - 1];
      Sum(first, rest[..|rest| - 1], c) + if last.0 then Means(last.1, c) else 0 - Means(last.1, c)
  }

  /** Masking at every step is masking once at the end: a chain is its integer sum modulo
      2^24 exactly when it has an operator, or its one operand is not a number of 2^24 or more.
      A lone number is not masked; registers and memory never reach 2^24. */
  lemma ChainIsSum(first: Tree, rest: seq<(bool, Tree)>, c: Cpu)
    requires c.Valid()
    ensures Means(Chain(first, rest), c) == Sum(first, rest, c) % MOD24 <==> (rest != [] || !first.Num? || first.v < MOD24)
    ensures Means(Chain(first, rest), c) % MOD24 == Sum(first, rest, c) % MOD24
  {
    ChainCongruent(first, rest, c);
    OnlyNumbersAreLarge(first, c);
  }

  lemma {:induction false} ChainCongruent(first: Tree, rest: seq<(bool, Tree)>, c: Cpu)
    ensures Means(Chain(first, rest), c) % MOD24 == Sum(first, rest, c) % MOD24
    ensures rest != [] ==> Means(Chain(first, rest), c) == Sum(first, rest, c) % MOD24
  {
    if rest != [] {
      var last, before := rest[|rest| - 1], rest[..|rest| - 1];
      ChainCongruent(first, before, c);
      var delta: int := if last.0 then Means(last.1, c) else 0 - Means(last.1, c);
      ModAdd(Means(Chain(first, before), c), Sum(first, before, c), delta);
    }
  }

  lemma OnlyNumbersAreLarge(t: Tree, c: Cpu)
    requires c.Valid()
    ensures Means(t, c) < MOD24 <==> !t.Num? || t.v < MOD24
  {
  }

  lemma ModAdd(m: int, s: int, v: int)
    requires m % MOD24 == s % MOD24
    ensures (m + v) % MOD24 == (s + v) % MOD24 && (m + v) % MOD24 % MOD24 == (s + v) % MOD24
  {
    assert m - s == MOD24 * (m / MOD24 - s / MOD24);
    assert m + v == (s + v) + MOD24 * (m / MOD24 - s / MOD24);
  }

  lemma LoneNumberIsNotMasked(c: Cpu)
    ensures Means(Chain(Num(MOD24), []), c) != Sum(Num(MOD24), [], c) % MOD24
  {
  }
}
