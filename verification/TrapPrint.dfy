/** Printing trap expressions and reading them back (src/a2gspu_trap.hpp). */
module TrapPrint {
  import opened Options
  import opened TrapExpr
  import opened TrapMeaning
  import opened TrapSpelling

  // ---------------------------------------------------------------- printing

  function HexDigit(n: nat): char
    requires n < 16
  {
    if n < 10 then '0' + n as char else 'a' + (n - 10) as char
  }

  function Hex(v: nat): string { if v < 16 then [HexDigit(v)] else Hex(v / 16) + [HexDigit(v % 16)] }

  function FnName(f: Fn): string {
    match f
    case M8 => "m8"
    case M16 => "m16"
    case M24 => "m24"
    case Z8 => "z8"
    case Z16 => "z16"
    case S8 => "s8"
    case S16 => "s16"
  }

  function RegName(r: Reg): string {
    match r
    case A => "a"
    case X => "x"
    case Y => "y"
    case S => "s"
    case D => "d"
    case Dbr => "dbr"
    case Pbr => "pbr"
    case Pc => "pc"
    case Fpc => "fpc"
    case P => "p"
    case E => "e"
  }

  /** Numbers get a $, right operands get parentheses. */
  function Show(t: Tree): string {
    match t
    case Num(v) => "$" + Hex(v)
    case Register(r) => RegName(r)
    case Apply(f, arg) => FnName(f) + "(" + Show(arg) + ")"
    case Add(lhs, r) => Show(lhs) + "+" + ("(" + Show(r) + ")")
    case Sub(lhs, r) => Show(lhs) + "-" + ("(" + Show(r) + ")")
  }

  // ---------------------------------------------------------------- reading it back

  lemma {:induction false} HexReadsBack(v: nat)
    ensures |Hex(v)| >= 1 && (forall i :: 0 <= i < |Hex(v)| ==> IsHex(Hex(v)[i]))
    ensures HexValue(Hex(v)) == v
  {
    var last := HexDigit(v % 16);
    assert IsHex(last) && DigitValue(last) == v % 16;
    if v < 16 {
      assert Hex(v)[..0] == "";
    } else {
      HexReadsBack(v / 16);
      assert Hex(v)[..|Hex(v)| - 1] == Hex(v / 16);
    }
  }

  /** Printed text is one of the spellings. */
  function SpellingOf(t: Tree): Chain {
    match t
    case Num(v) => One(Numeral(0, "$", "", Hex(v)))
    case Register(r) => One(Named(0, RegName(r)))
    case Apply(f, arg) => One(Called(0, FnName(f), SpellingOf(arg), 0))
    case Add(lhs, rhs) => More(SpellingOf(lhs), 0, true, Bracket(0, SpellingOf(rhs), 0))
    case Sub(lhs, rhs) => More(SpellingOf(lhs), 0, false, Bracket(0, SpellingOf(rhs), 0))
  }

  lemma RegNames(r: Reg)
    ensures IsName(RegName(r)) && LowerAll(RegName(r)) == RegName(r) && RegOf(RegName(r)) == Some(r)
  {
    LowerKeeps(RegName(r));
  }

  lemma FnNames(f: Fn)
    ensures IsName(FnName(f)) && LowerAll(FnName(f)) == FnName(f) && FnOf(FnName(f)) == Some(f)
  {
    LowerKeeps(FnName(f));
  }

  lemma {:induction false} LowerKeeps(id: string)
    requires forall i :: 0 <= i < |id| ==> !('A' <= id[i] <= 'Z')
    ensures LowerAll(id) == id
  {
    if id != "" {
      LowerKeeps(id[1..]);
    }
  }

  lemma {:induction false} ShowIsSpelling(t: Tree)
    requires NumbersFit(t)
    ensures ChainText(SpellingOf(t)) == Show(t) && ChainSpelled(SpellingOf(t)) && ChainTree(SpellingOf(t)) == t
  {
    hide RegOf, FnOf, LowerAll, Hex, HexValue, RegName, FnName, IsName, AllHex, ChainText;
    match t
    case Num(v) =>
      NumText(Hex(v));
      HexReadsBack(v);
      HexIsHex(v);
    case Register(r) =>
      NameText(RegName(r));
      RegNames(r);
    case Apply(f, arg) =>
      ShowIsSpelling(arg);
      CallText(FnName(f), SpellingOf(arg));
      FnNames(f);
    case Add(lhs, rhs) =>
      ShowIsSpelling(lhs);
      ShowIsSpelling(rhs);
      PairText(SpellingOf(lhs), true, SpellingOf(rhs));
    case Sub(lhs, rhs) =>
      ShowIsSpelling(lhs);
      ShowIsSpelling(rhs);
      PairText(SpellingOf(lhs), false, SpellingOf(rhs));
  }

  lemma NumText(h: string)
    ensures ChainText(One(Numeral(0, "$", "", h))) == "$" + h
  {
  }

  lemma NameText(name: string)
    ensures ChainText(One(Named(0, name))) == name
  {
  }

  lemma CallText(name: string, e: Chain)
    ensures ChainText(One(Called(0, name, e, 0))) == name + "(" + ChainText(e) + ")"
  {
  }

  lemma PairText(l: Chain, plus: bool, r: Chain)
    ensures ChainText(More(l, 0, plus, Bracket(0, r, 0))) == ChainText(l) + (if plus then "+" else "-") + ("(" + ChainText(r) + ")")
  {
    var op := if plus then "+" else "-";
    assert Text(Bracket(0, r, 0)) == "(" + ChainText(r) + ")";
    assert Pad(0) + op == op;
  }

  lemma Unpadded()
    ensures Pad(0) == ""
  {
  }

  lemma HexIsHex(v: nat)
    ensures Hex(v) != "" && AllHex(Hex(v))
  {
    HexReadsBack(v);
  }

  lemma PrintedReadsBack(t: Tree)
    requires NumbersFit(t)
    ensures ParseAll(Show(t)) == Some(t)
  {
    hide Show, ChainText, ChainSpelled, ChainTree;
    ShowIsSpelling(t);
    Unpadded();
    var s := ChainText(SpellingOf(t));
    assert s + Pad(0) + "" == s;
    EverySpellingReads(SpellingOf(t), 0, "");
  }

  // ---------------------------------------------------------------- what names denote

  /** The value of a text on a CPU, if it is an expression. */
  function ValueOf(s: string, c: Cpu): Option<nat> {
    var t := ParseAll(s);
    if t.None? then None else Some(Means(t.value, c))
  }

  /** Every register name has that register's value. The program counter is the low 16 bits of
      the full one, the program bank the 8 above. */
  lemma NamesDenote(c: Cpu)
    ensures ValueOf("a", c) == Some(c.a) && ValueOf("x", c) == Some(c.x) && ValueOf("y", c) == Some(c.y)
    ensures ValueOf("s", c) == Some(c.sp) && ValueOf("d", c) == Some(c.d) && ValueOf("dbr", c) == Some(c.db)
    ensures ValueOf("p", c) == Some(c.p) && ValueOf("e", c) == Some(if c.e then 1 else 0)
    ensures var pc, pbr, fpc := ValueOf("pc", c), ValueOf("pbr", c), ValueOf("fpc", c);
            && pc.Some? && pbr.Some? && fpc.Some? && pc.value < 0x1_0000 && pbr.value < 0x100
            && fpc.value == pbr.value * 0x1_0000 + pc.value && (c.fullPc - fpc.value) % 0x100_0000 == 0
  {
    hide ValueOf;
    NameDenotes(A, c); NameDenotes(X, c); NameDenotes(Y, c); NameDenotes(S, c); NameDenotes(D, c); NameDenotes(Dbr, c);
    NameDenotes(P, c); NameDenotes(E, c); NameDenotes(Pc, c); NameDenotes(Pbr, c); NameDenotes(Fpc, c);
    BankAndOffset(c.fullPc);
  }

  lemma NameDenotes(r: Reg, c: Cpu)
    ensures ValueOf(RegName(r), c) == Some(RegValue(r, c))
  {
    hide ParseAll, RegName, RegValue;
    PrintedReadsBack(Register(r));
  }

  lemma BankAndOffset(v: nat)
    ensures v % 0x100_0000 == v / 0x1_0000 % 0x100 * 0x1_0000 + v % 0x1_0000 && (v - v % 0x100_0000) % 0x100_0000 == 0
  {
    var hi := v / 0x1_0000;
    assert v == hi / 0x100 * 0x100_0000 + (hi % 0x100 * 0x1_0000 + v % 0x1_0000);
  }

  /** The functions of memory read it at their argument, in little-endian order: anywhere, or in
      bank 0. */
  lemma CallsDenote(t: Tree, c: Cpu)
    requires NumbersFit(t)
    ensures var v, x := Means(t, c), "(" + Show(t) + ")";
            var b := (addr: int) => c.mem(addr % 0x100_0000) as int;
            && ValueOf("m8" + x, c) == Some(b(v)) && ValueOf("m16" + x, c) == Some(b(v) + 256 * b(v + 1))
            && ValueOf("m24" + x, c) == Some(b(v) + 256 * b(v + 1) + 65536 * b(v + 2))
            && ValueOf("z8" + x, c) == Some(b(v % 0x1_0000))
            && ValueOf("z16" + x, c) == Some(b(v % 0x1_0000) + 256 * b((v + 1) % 0x1_0000))
  {
    hide ValueOf, Show, Means;
    CallDenotes(M8, t, c); CallDenotes(M16, t, c); CallDenotes(M24, t, c); CallDenotes(Z8, t, c); CallDenotes(Z16, t, c);
  }

  /** Place `k` from the stack pointer: in page 1 in emulation mode or with a stack pointer below
      $100, and else in bank 0. */
  function StackPlace(c: Cpu, k: nat): nat {
    if c.e || c.sp < 0x100 then 0x100 + (c.sp + k) % 0x100 else (c.sp + k) % 0x1_0000
  }

  /** The others read the stack. */
  lemma StackCallsDenote(t: Tree, c: Cpu)
    requires NumbersFit(t)
    ensures var v, x := Means(t, c), "(" + Show(t) + ")";
            && ValueOf("s8" + x, c) == Some(c.mem(StackPlace(c, v)) as int)
            && ValueOf("s16" + x, c) == Some(c.mem(StackPlace(c, v)) as int + 256 * c.mem(StackPlace(c, v + 1)) as int)
  {
    hide ValueOf, Show, Means, CallMeans, StackPlace;
    CallDenotes(S8, t, c); CallDenotes(S16, t, c);
    StackReads(Means(t, c), c);
  }

  lemma StackReads(v: nat, c: Cpu)
    ensures CallMeans(S8, v, c) == c.mem(StackPlace(c, v)) as int
    ensures CallMeans(S16, v, c) == c.mem(StackPlace(c, v)) as int + 256 * c.mem(StackPlace(c, v + 1)) as int
  {
    assert StackPlace(c, v) == Slot(c, v) && StackPlace(c, v + 1) == Slot(c, v + 1);
  }

  lemma CallDenotes(f: Fn, t: Tree, c: Cpu)
    requires NumbersFit(t)
    ensures ValueOf(FnName(f) + ("(" + Show(t) + ")"), c) == Some(CallMeans(f, Means(t, c), c))
  {
    hide ParseAll, FnName, CallMeans;
    PrintedReadsBack(Apply(f, t));
    assert FnName(f) + "(" + Show(t) + ")" == FnName(f) + ("(" + Show(t) + ")");
  }

  // ---------------------------------------------------------------- any text

  lemma {:induction false} TermNumbersFit(s: string, i: nat)
    requires i <= |s| && ParseTerm(s, i).Got?
    ensures NumbersFit(ParseTerm(s, i).tree)
    decreases |s| - i, 0
  {
    hide StartAt, ReadNumber, SkipSpaces;
    match StartAt(s, i)
    case Number(at) => NumberFits(s, at);
    case Name(_, _) =>
    case Paren(at) => ExprNumbersFit(s, at);
    case Call(_, at) => ExprNumbersFit(s, at);
  }

  lemma NumberFits(s: string, i: nat)
    requires i < |s| && IsHex(s[i])
    ensures ReadNumber(s, i).0 < U32
  {
  }

  lemma {:induction false} ExprNumbersFit(s: string, i: nat)
    requires i <= |s| && ParseExpr(s, i).Got?
    ensures NumbersFit(ParseExpr(s, i).tree)
    decreases |s| - i, 2
  {
    hide ParseTerm, ParseMore;
    TermNumbersFit(s, i);
    MoreNumbersFit(s, ParseTerm(s, i).next, ParseTerm(s, i).tree);
  }

  lemma {:induction false} MoreNumbersFit(s: string, i: nat, left: Tree)
    requires i <= |s| && NumbersFit(left) && ParseMore(s, i, left).Got?
    ensures NumbersFit(ParseMore(s, i, left).tree)
    decreases |s| - i, 1
  {
    hide ParseTerm;
    var k := SkipSpaces(s, i);
    if Peek(s, k) == '+' || Peek(s, k) == '-' {
      TermNumbersFit(s, k + 1);
      var t := ParseTerm(s, k + 1);
      MoreNumbersFit(s, t.next, if Peek(s, k) == '+' then Add(left, t.tree) else Sub(left, t.tree));
    }
  }

  /** `parse_expr`, on any text: it fails exactly when the grammar does, and otherwise leaves
      an arena with children first whose root evaluates, in every machine state, to the
      meaning of what the grammar reads. */
  method ParseText(s: string) returns (r: Option<(seq<Node>, nat)>)
    ensures r.None? <==> ParseAll(s).None?
    ensures r.Some? ==>
              var (nodes, root) := r.value;
              && ChildrenFirst(nodes) && root < |nodes| && Holds(nodes, root, ParseAll(s).value)
              && forall c: Cpu :: c.Valid() ==> Eval(nodes, root, c) == Means(ParseAll(s).value, c)
  {
    hide ParseExpr, Holds, Eval, Means, ChildrenFirst, NumbersFit;
    var parser := new Parser(s);
    assert parser.Valid() by { NoNodes(); }
    var root := parser.Expr();
    if root.None? { return None; }
    if Peek(s, SkipSpaces(s, parser.p)) != '\0' { return None; }
    var nodes, t := parser.nodes, ParseAll(s).value;
    HoldsInside(nodes, root.value, t);
    ExprNumbersFit(s, 0);
    forall c: Cpu | c.Valid() ensures Eval(nodes, root.value, c) == Means(t, c) {
      EvalIsMeaning(nodes, root.value, t, c);
    }
    r := Some((nodes, root.value));
  }

  lemma NoNodes()
    ensures ChildrenFirst([])
  {
  }

  lemma HoldsInside(nodes: seq<Node>, i: nat, t: Tree)
    requires Holds(nodes, i, t)
    ensures i < |nodes|
  {
  }
}
