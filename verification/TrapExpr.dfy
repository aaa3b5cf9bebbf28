/** Trap expressions (src/a2gspu_trap.hpp): the grammar, and the recursive-descent parser that
    fills an arena of nodes.
 */
module TrapExpr {
  import opened Options

  datatype Reg = A | X | Y | S | D | Dbr | Pbr | Pc | Fpc | P | E

  datatype Fn = M8 | M16 | M24 | Z8 | Z16 | S8 | S16

  /** An expression, as a tree; the parser never builds one. */
  datatype Tree = Num(v: nat) | Register(r: Reg) | Apply(f: Fn, arg: Tree) | Add(lhs: Tree, rhs: Tree) | Sub(lhs: Tree, rhs: Tree)

  /** A node of the arena, with children by index. */
  datatype Node = NumNode(v: nat) | RegNode(r: Reg) | FnNode(f: Fn, a: nat) | AddNode(a: nat, b: nat) | SubNode(a: nat, b: nat)

  const U32 := 0x1_0000_0000
  const U64_MAX := 0xFFFF_FFFF_FFFF_FFFF

  // ---------------------------------------------------------------- characters

  /** C strings end in NUL. */
  function Peek(s: string, i: nat): char { if i < |s| then s[i] else '\0' }

  predicate IsLetter(c: char) { 'a' <= c <= 'z' || 'A' <= c <= 'Z' }
  predicate IsDigit(c: char) { '0' <= c <= '9' }
  predicate IsHex(c: char) { IsDigit(c) || 'a' <= c <= 'f' || 'A' <= c <= 'F' }
  predicate IsIdChar(c: char) { IsLetter(c) || IsDigit(c) }

  function Lower(c: char): char { if 'A' <= c <= 'Z' then c + ' ' else c }

  function LowerAll(s: string): (t: string)
    ensures |t| == |s|
  {
    if s == "" then "" else [Lower(s[0])] + LowerAll(s[1..])
  }

  predicate AllHex(s: string) { forall i :: 0 <= i < |s| ==> IsHex(s[i]) }

  function DigitValue(c: char): nat
    requires IsHex(c)
  {
    if IsDigit(c) then c as int - '0' as int
    else if 'a' <= c <= 'f' then c as int - 'a' as int + 10
    else c as int - 'A' as int + 10
  }

  function SkipSpaces(s: string, i: nat): (j: nat)
    requires i <= |s|
    ensures i <= j <= |s| && Peek(s, j) != ' '
    decreases |s| - i
  {
    if i < |s| && s[i] == ' ' then SkipSpaces(s, i + 1) else i
  }

  function IdEnd(s: string, i: nat): (j: nat)
    requires i <= |s|
    ensures i <= j <= |s|
    decreases |s| - i
  {
    if i < |s| && IsIdChar(s[i]) then IdEnd(s, i + 1) else i
  }

  function HexEnd(s: string, i: nat): (j: nat)
    requires i <= |s|
    ensures i <= j <= |s| && forall k :: i <= k < j ==> IsHex(s[k])
    decreases |s| - i
  {
    if i < |s| && IsHex(s[i]) then HexEnd(s, i + 1) else i
  }

  function HexValue(s: string): nat
    requires forall i :: 0 <= i < |s| ==> IsHex(s[i])
  {
    if s == "" then 0 else 16 * HexValue(s[..|s| - 1]) + DigitValue(s[|s| - 1])
  }

  /** `(uint32_t)strtoul(p, &end, 16)`: an optional 0x, saturation at 64 bits, then the cast. */
  function ReadNumber(s: string, i: nat): (r: (nat, nat))
    requires i < |s| && IsHex(s[i])
    ensures i < r.1 <= |s|
  {
    var prefixed := s[i] == '0' && (Peek(s, i + 1) == 'x' || Peek(s, i + 1) == 'X') && IsHex(Peek(s, i + 2));
    var from := if prefixed then i + 2 else i;
    var end := HexEnd(s, from);
    var v := HexValue(s[from..end]);
    ((if v > U64_MAX then U64_MAX else v) % U32, end)
  }

  function FnOf(id: string): Option<Fn> {
    if id == "m8" then Some(M8) else if id == "m16" then Some(M16) else if id == "m24" then Some(M24)
    else if id == "z8" then Some(Z8) else if id == "z16" then Some(Z16)
    else if id == "s8" then Some(S8) else if id == "s16" then Some(S16) else None
  }

  function RegOf(id: string): Option<Reg> {
    if id == "a" then Some(A) else if id == "x" then Some(X) else if id == "y" then Some(Y)
    else if id == "s" then Some(S) else if id == "d" then Some(D) else if id == "dbr" then Some(Dbr)
    else if id == "pbr" then Some(Pbr) else if id == "pc" then Some(Pc) else if id == "fpc" then Some(Fpc)
    else if id == "p" then Some(P) else if id == "e" then Some(E) else None
  }

  // ---------------------------------------------------------------- the grammar

  /** What a parse yields: where it stopped and the tree it read, or the spec error. */
  datatype Parse = Bad | Got(tree: Tree, next: nat)

  /** What stands at the start of a term, after spaces. */
  datatype Start = Paren(at: nat) | Call(f: Fn, at: nat) | Name(r: Reg, at: nat) | Number(at: nat) | Nothing

  function StartAt(s: string, i0: nat): (r: Start)
    requires i0 <= |s|
    ensures r.Paren? || r.Call? || r.Name? ==> i0 < r.at <= |s|
    ensures r.Number? ==> i0 <= r.at < |s| && IsHex(s[r.at])
  {
    StartFrom(s, SkipSpaces(s, i0))
  }

  function StartFrom(s: string, i: nat): (r: Start)
    requires i <= |s|
    ensures r.Paren? || r.Call? || r.Name? ==> i < r.at <= |s|
    ensures r.Number? ==> i <= r.at < |s| && IsHex(s[r.at])
  {
    if Peek(s, i) == '(' then Paren(i + 1)
    else
      var zeroX := Peek(s, i) == '0' && (Peek(s, i + 1) == 'x' || Peek(s, i + 1) == 'X');
      var forced := Peek(s, i) == '$' || zeroX;
      var j := if Peek(s, i) == '$' then i + 1 else if zeroX then i + 2 else i;
      if !forced && IsLetter(Peek(s, j)) then
        var q := IdEnd(s, j);
        var id := LowerAll(s[j..q]);
        if Peek(s, q) == '(' then (if FnOf(id).Some? then Call(FnOf(id).value, q + 1) else Nothing)
        else if RegOf(id).Some? then Name(RegOf(id).value, q)
        else if AllHex(id) then (if IsHex(Peek(s, j)) then Number(j) else Nothing)
        else Nothing
      else if IsHex(Peek(s, j)) then Number(j)
      else Nothing
  }

  function ParseTerm(s: string, i: nat): (r: Parse)
    requires i <= |s|
    ensures r.Got? ==> i < r.next <= |s|
    decreases |s| - i, 0
  {
    match StartAt(s, i)
    case Nothing => Bad
    case Number(at) => var (v, end) := ReadNumber(s, at); Got(Num(v), end)
    case Name(r, at) => Got(Register(r), at)
    case Paren(at) => Close(s, ParseExpr(s, at))
    case Call(f, at) =>
      match Close(s, ParseExpr(s, at))
      case Bad => Bad
      case Got(t, next) => Got(Apply(f, t), next)
  }

  /** The closing parenthesis after an inner expression. */
  function Close(s: string, inner: Parse): (r: Parse)
    requires inner.Got? ==> inner.next <= |s|
    ensures r.Got? ==> inner.Got? && inner.next < r.next <= |s|
  {
    if inner.Bad? then Bad
    else
      var k := SkipSpaces(s, inner.next);
      if Peek(s, k) == ')' then Got(inner.tree, k + 1) else Bad
  }

  function ParseExpr(s: string, i: nat): (r: Parse)
    requires i <= |s|
    ensures r.Got? ==> i < r.next <= |s|
    decreases |s| - i, 2
  {
    match ParseTerm(s, i)
    case Bad => Bad
    case Got(t, next) => ParseMore(s, next, t)
  }

  /** The loop over + and -, with what has been read so far on the left. */
  function ParseMore(s: string, i: nat, left: Tree): (r: Parse)
    requires i <= |s|
    ensures r.Got? ==> i <= r.next <= |s|
    decreases |s| - i, 1
  {
    var k := SkipSpaces(s, i);
    if Peek(s, k) == '+' || Peek(s, k) == '-' then
      match ParseTerm(s, k + 1)
      case Bad => Bad
      case Got(t, next) => ParseMore(s, next, if Peek(s, k) == '+' then Add(left, t) else Sub(left, t))
    else Got(left, k)
  }

  /** `parse_expr`: nothing but spaces may follow. */
  function ParseAll(s: string): Option<Tree> {
    match ParseExpr(s, 0)
    case Bad => None
    case Got(t, next) => if Peek(s, SkipSpaces(s, next)) == '\0' then Some(t) else None
  }

  // ---------------------------------------------------------------- the arena

  /** Children come before their parents. */
  predicate ChildrenFirst(nodes: seq<Node>) {
    forall i :: 0 <= i < |nodes| ==>
      && (nodes[i].FnNode? || nodes[i].AddNode? || nodes[i].SubNode? ==> nodes[i].a < i)
      && (nodes[i].AddNode? || nodes[i].SubNode? ==> nodes[i].b < i)
  }

  predicate Holds(nodes: seq<Node>, i: nat, t: Tree)
    decreases t
  {
    i < |nodes| &&
    match t
    case Num(v) => nodes[i] == NumNode(v)
    case Register(r) => nodes[i] == RegNode(r)
    case Apply(f, arg) => nodes[i].FnNode? && nodes[i].f == f && nodes[i].a < i && Holds(nodes, nodes[i].a, arg)
    case Add(lhs, r) => nodes[i].AddNode? && nodes[i].a < i && nodes[i].b < i && Holds(nodes, nodes[i].a, lhs) && Holds(nodes, nodes[i].b, r)
    case Sub(lhs, r) => nodes[i].SubNode? && nodes[i].a < i && nodes[i].b < i && Holds(nodes, nodes[i].a, lhs) && Holds(nodes, nodes[i].b, r)
  }

  lemma {:induction false} HoldsLonger(nodes: seq<Node>, more: seq<Node>, i: nat, t: Tree)
    requires Holds(nodes, i, t) && nodes <= more
    ensures Holds(more, i, t)
    decreases t
  {
    assert more[i] == nodes[i];
    match t
    case Num(_) =>
    case Register(_) =>
    case Apply(_, arg) => HoldsLonger(nodes, more, nodes[i].a, arg);
    case Add(lhs, r) =>
      HoldsLonger(nodes, more, nodes[i].a, lhs);
      HoldsLonger(nodes, more, nodes[i].b, r);
    case Sub(lhs, r) =>
      HoldsLonger(nodes, more, nodes[i].a, lhs);
      HoldsLonger(nodes, more, nodes[i].b, r);
  }

  /** The parser object: a pointer into the text and the growing arena. */
  class Parser {
    const text: string
    var p: nat
    var nodes: seq<Node>

    constructor (s: string)
      ensures text == s && p == 0 && nodes == []
    {
      text, p, nodes := s, 0, [];
    }

    predicate Valid()
      reads this
    {
      p <= |text| && ChildrenFirst(nodes)
    }

    /** An index that holds the tree the grammar reads, in an arena that only grew. */
    ghost predicate Reads(r: Option<nat>, spec: Parse)
      reads this
    {
      match spec
      case Bad => r == None
      case Got(t, next) => r.Some? && p == next && Holds(nodes, r.value, t)
    }

    method Push(n: Node) returns (i: nat)
      requires Valid() && ChildrenFirst(nodes + [n])
      modifies `nodes
      ensures Valid() && nodes == old(nodes) + [n] && i == |old(nodes)|
    {
      i := |nodes|;
      nodes := nodes + [n];
    }

    method Term() returns (r: Option<nat>)
      requires Valid()
      modifies `p, `nodes
      ensures Valid() && old(nodes) <= nodes && Reads(r, ParseTerm(text, old(p)))
      decreases |text| - p, 0
    {
      hide Holds, StartAt, ReadNumber, SkipSpaces, ChildrenFirst;
      var start := StartAt(text, p);
      match start {
        case Nothing => return None;
        case Number(at) =>
          var (v, end) := ReadNumber(text, at);
          p := end;
          r := PushLeaf(NumNode(v), Num(v));
        case Name(reg, at) =>
          p := at;
          r := PushLeaf(RegNode(reg), Register(reg));
        case Paren(at) =>
          p := at;
          ghost var inner := ParseExpr(text, at);
          r := Expr();
          if r.None? { return None; }
          var closed := CloseParen();
          if !closed { return None; }
        case Call(f, at) =>
          p := at;
          ghost var inner := ParseExpr(text, at);
          r := Expr();
          if r.None? { return None; }
          var closed := CloseParen();
          if !closed { return None; }
          r := PushFn(f, r.value, inner.tree);
      }
    }

    method PushLeaf(n: Node, ghost t: Tree) returns (r: Option<nat>)
      requires Valid() && ((n.NumNode? && t == Num(n.v)) || (n.RegNode? && t == Register(n.r)))
      modifies `nodes
      ensures Valid() && old(nodes) <= nodes && r.Some? && Holds(nodes, r.value, t)
    {
      var i := Push(n);
      r := Some(i);
    }

    method PushFn(f: Fn, a: nat, ghost t: Tree) returns (r: Option<nat>)
      requires Valid() && Holds(nodes, a, t)
      modifies `nodes
      ensures Valid() && old(nodes) <= nodes && r.Some? && Holds(nodes, r.value, Apply(f, t))
    {
      var i := Push(FnNode(f, a));
      HoldsLonger(old(nodes), nodes, a, t);
      r := Some(i);
    }

    method PushPair(plus: bool, a: nat, b: nat, ghost lhs: Tree, ghost t: Tree) returns (i: nat)
      requires Valid() && Holds(nodes, a, lhs) && Holds(nodes, b, t)
      modifies `nodes
      ensures Valid() && old(nodes) <= nodes && Holds(nodes, i, if plus then Add(lhs, t) else Sub(lhs, t))
    {
      i := Push(if plus then AddNode(a, b) else SubNode(a, b));
      HoldsLonger(old(nodes), nodes, a, lhs);
      HoldsLonger(old(nodes), nodes, b, t);
    }

    method CloseParen() returns (ok: bool)
      requires Valid()
      modifies `p
      ensures Valid()
      ensures forall t :: var c := Close(text, Got(t, old(p))); ok == c.Got? && (ok ==> p == c.next)
    {
      p := SkipSpaces(text, p);
      ok := Peek(text, p) == ')';
      if ok { p := p + 1; }
    }

    method Expr() returns (r: Option<nat>)
      requires Valid()
      modifies `p, `nodes
      ensures Valid() && old(nodes) <= nodes && Reads(r, ParseExpr(text, old(p)))
      decreases |text| - p, 1
    {
      hide Holds, ParseTerm, SkipSpaces, ChildrenFirst;
      ghost var whole := ParseExpr(text, p);
      ghost var first := ParseTerm(text, p);
      var p0 := p;
      r := Term();
      if r.None? { return None; }
      ghost var left := first.tree;
      while true
        invariant Valid() && old(nodes) <= nodes && p0 < p
        invariant r.Some? && Holds(nodes, r.value, left)
        invariant whole == ParseMore(text, p, left)
        decreases |text| - p
      {
        p := SkipSpaces(text, p);
        if Peek(text, p) != '+' && Peek(text, p) != '-' { return; }
        var plus := Peek(text, p) == '+';
        p := p + 1;
        ghost var before, rhs := nodes, ParseTerm(text, p);
        var b := Term();
        if b.None? { return None; }
        HoldsLonger(before, nodes, r.value, left);
        var i := PushPair(plus, r.value, b.value, left, rhs.tree);
        r, left := Some(i), if plus then Add(left, rhs.tree) else Sub(left, rhs.tree);
      }
    }
  }
}
