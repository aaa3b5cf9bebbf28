/** Every spelling of a trap expression (src/a2gspu_trap.hpp): spaces, letter case, number prefixes
    and parentheses as a user may write them. The parser reads each as its tree, and accepts no
    other text.
 */
module TrapSpelling {
  import opened Options
  import opened TrapExpr

  // ---------------------------------------------------------------- spellings

  /** A term behind some spaces. Digits may stand alone or behind "$", "0x" or "0X", and a
      second "0x" or "0X" may follow such a prefix. */
  datatype Term =
    | Numeral(pad: nat, outer: string, inner: string, digits: string)
    | Named(pad: nat, name: string)
    | Bracket(pad: nat, e: Chain, close: nat)
    | Called(pad: nat, name: string, e: Chain, close: nat)

  /** Terms joined by + and -, grouped to the left. */
  datatype Chain = One(t: Term) | More(before: Chain, pad: nat, plus: bool, t: Term)

  function Pad(n: nat): (s: string)
    ensures |s| == n && forall i :: 0 <= i < n ==> s[i] == ' '
  {
    seq(n, _ => ' ')
  }

  function Text(x: Term): string {
    match x
    case Numeral(pad, outer, inner, digits) => Pad(pad) + (outer + inner + digits)
    case Named(pad, name) => Pad(pad) + name
    case Bracket(pad, e, close) => Pad(pad) + ("(" + ChainText(e) + (Pad(close) + ")"))
    case Called(pad, name, e, close) => Pad(pad) + (name + "(" + ChainText(e) + (Pad(close) + ")"))
  }

  function ChainText(x: Chain): string {
    match x
    case One(t) => Text(t)
    case More(before, pad, plus, t) => ChainText(before) + (Pad(pad) + (if plus then "+" else "-")) + Text(t)
  }

  predicate IsName(s: string) { s != "" && IsLetter(s[0]) && forall i :: 0 <= i < |s| ==> IsIdChar(s[i]) }

  /** Words are known names in any case; digits that stand alone are no register's name. */
  predicate Spelled(x: Term) {
    match x
    case Numeral(_, outer, inner, digits) =>
      && digits != "" && AllHex(digits)
      && (outer == "" || outer == "$" || outer == "0x" || outer == "0X")
      && (inner == "" || (outer != "" && (inner == "0x" || inner == "0X")))
      && (outer == "" && IsLetter(digits[0]) ==> AllHex(LowerAll(digits)) && IsNoRegister(digits))
    case Named(_, name) => IsName(name) && RegOf(LowerAll(name)).Some?
    case Bracket(_, e, _) => ChainSpelled(e)
    case Called(_, name, e, _) => IsName(name) && FnOf(LowerAll(name)).Some? && ChainSpelled(e)
  }

  predicate IsNoRegister(s: string) { (forall i :: 0 <= i < |s| ==> IsHex(s[i])) && RegOf(LowerAll(s)).None? }

  predicate ChainSpelled(x: Chain) {
    match x
    case One(t) => Spelled(t)
    case More(before, _, _, t) => ChainSpelled(before) && Spelled(t)
  }

  /** The number a string of hexadecimal digits stands for: saturated at 64 bits, cut to 32. */
  function NumberOf(digits: string): nat
    requires AllHex(digits)
  {
    var v := HexValue(digits);
    (if v > 0xFFFF_FFFF_FFFF_FFFF then 0xFFFF_FFFF_FFFF_FFFF else v) % 0x1_0000_0000
  }

  function TreeOf(x: Term): Tree
    requires Spelled(x)
  {
    match x
    case Numeral(_, _, _, digits) => Num(NumberOf(digits))
    case Named(_, name) => Register(RegOf(LowerAll(name)).value)
    case Bracket(_, e, _) => ChainTree(e)
    case Called(_, name, e, _) => Apply(FnOf(LowerAll(name)).value, ChainTree(e))
  }

  function ChainTree(x: Chain): Tree
    requires ChainSpelled(x)
  {
    match x
    case One(t) => TreeOf(t)
    case More(before, _, plus, t) => if plus then Add(ChainTree(before), TreeOf(t)) else Sub(ChainTree(before), TreeOf(t))
  }

  // ---------------------------------------------------------------- places in a text

  /** `w` stands at `i`. */
  predicate At(s: string, i: nat, w: string) { i + |w| <= |s| && s[i..i + |w|] == w }

  /** What may come after a term. */
  predicate EndsTerm(s: string, e: nat) {
    e >= |s| || s[e] == ' ' || s[e] == '+' || s[e] == '-' || s[e] == ')' || s[e] == '\0'
  }

  lemma SplitAt(s: string, i: nat, a: string, b: string)
    ensures At(s, i, a + b) <==> At(s, i, a) && At(s, i + |a|, b)
  {
    var w := a + b;
    if i + |w| <= |s| {
      assert s[i..i + |w|] == s[i..i + |a|] + s[i + |a|..i + |a| + |b|];
      if At(s, i, w) {
        assert s[i..i + |a|] == w[..|a|] == a;
        assert s[i + |a|..i + |a| + |b|] == w[|a|..] == b;
      }
    }
  }

  lemma CharAt(s: string, i: nat, w: string, k: nat)
    requires At(s, i, w) && k < |w|
    ensures i + k < |s| && s[i + k] == w[k]
  {
    assert s[i..i + |w|][k] == s[i + k];
  }

  lemma {:induction false} SpacesAt(s: string, i: nat, k: nat)
    requires i <= k <= |s| && (forall j :: i <= j < k ==> s[j] == ' ') && Peek(s, k) != ' '
    ensures SkipSpaces(s, i) == k
    decreases k - i
  {
    if i < k { SpacesAt(s, i + 1, k); }
  }

  lemma {:induction false} HexRunAt(s: string, i: nat, q: nat)
    requires i <= q <= |s| && (forall j :: i <= j < q ==> IsHex(s[j])) && (q == |s| || !IsHex(s[q]))
    ensures HexEnd(s, i) == q
    decreases q - i
  {
    hide IsHex;
    if i < q { HexRunAt(s, i + 1, q); }
  }

  lemma {:induction false} IdRunAt(s: string, i: nat, q: nat)
    requires i <= q <= |s| && (forall j :: i <= j < q ==> IsIdChar(s[j])) && (q == |s| || !IsIdChar(s[q]))
    ensures IdEnd(s, i) == q
    decreases q - i
  {
    hide IsIdChar;
    if i < q { IdRunAt(s, i + 1, q); }
  }

  lemma {:induction false} LowerHex(s: string)
    ensures AllHex(LowerAll(s)) <==> AllHex(s)
  {
    if s != "" {
      LowerHex(s[1..]);
      assert LowerAll(s) == [Lower(s[0])] + LowerAll(s[1..]);
      CutHex(s);
      CutHex(LowerAll(s));
      assert LowerAll(s)[1..] == LowerAll(s[1..]);
    }
  }

  lemma CutHex(s: string)
    requires s != ""
    ensures AllHex(s) <==> IsHex(s[0]) && AllHex(s[1..])
  {
    hide IsHex;
    if IsHex(s[0]) && AllHex(s[1..]) {
      forall i | 0 <= i < |s| ensures IsHex(s[i]) { if i > 0 { assert s[i] == s[1..][i - 1]; } }
    }
    if AllHex(s) {
      forall i | 0 <= i < |s[1..]| ensures IsHex(s[1..][i]) { assert s[1..][i] == s[i + 1]; }
    }
  }

  lemma HexAt(s: string, i: nat, h: string)
    requires AllHex(h) && At(s, i, h)
    ensures forall j :: i <= j < i + |h| ==> IsHex(s[j])
  {
    hide IsHex;
    forall j | i <= j < i + |h| ensures IsHex(s[j]) {
      CharAt(s, i, h, j - i);
      assert IsHex(h[j - i]);
    }
  }

  lemma EndIsPlain(s: string, e: nat)
    requires EndsTerm(s, e) && e < |s|
    ensures !IsHex(s[e]) && !IsIdChar(s[e]) && s[e] != '(' && s[e] != 'x' && s[e] != 'X'
  {
  }

  // ---------------------------------------------------------------- every spelling is read

  /** `strtoul` on digits, behind a prefix of its own or not. */
  lemma NumberIsRead(s: string, i: nat, inner: string, digits: string)
    requires digits != "" && AllHex(digits) && (inner == "" || inner == "0x" || inner == "0X")
    requires At(s, i, inner) && At(s, i + |inner|, digits) && EndsTerm(s, i + |inner| + |digits|)
    ensures i < |s| && IsHex(s[i]) && ReadNumber(s, i) == (NumberOf(digits), i + |inner| + |digits|)
  {
    hide HexValue, HexEnd, EndsTerm;
    var d, e := i + |inner|, i + |inner| + |digits|;
    HexAt(s, d, digits);
    if e < |s| { EndIsPlain(s, e); }
    HexRunAt(s, d, e);
    if inner == "" {
      PlainStart(s, i, e);
    } else {
      CharAt(s, i, inner, 0);
      CharAt(s, i, inner, 1);
    }
  }

  lemma PlainStart(s: string, i: nat, e: nat)
    requires i < e <= |s| && (forall j :: i <= j < e ==> IsHex(s[j])) && EndsTerm(s, e)
    ensures Peek(s, i + 1) != 'x' && Peek(s, i + 1) != 'X'
  {
    if i + 1 < e { assert IsHex(s[i + 1]); }
  }

  lemma NumeralStart(s: string, i: nat, outer: string, inner: string, digits: string)
    requires Spelled(Numeral(0, outer, inner, digits))
    requires At(s, i, outer) && At(s, i + |outer|, inner) && At(s, i + |outer| + |inner|, digits)
    requires EndsTerm(s, i + |outer| + |inner| + |digits|)
    ensures StartFrom(s, i) == Number(i + |outer|)
  {
    hide RegOf, FnOf, HexValue, LowerAll, EndsTerm, AllHex, StartFrom;
    NumberIsRead(s, i + |outer|, inner, digits);
    if outer == "" {
      BareStart(s, i, digits);
    } else {
      CharAt(s, i, outer, 0);
      if |outer| == 2 { CharAt(s, i, outer, 1); }
      PrefixStart(s, i, |outer|);
    }
  }

  lemma PrefixStart(s: string, i: nat, n: nat)
    requires i + n < |s| && IsHex(s[i + n])
    requires (n == 1 && s[i] == '$') || (n == 2 && s[i] == '0' && (s[i + 1] == 'x' || s[i + 1] == 'X'))
    ensures StartFrom(s, i) == Number(i + n)
  {
    hide RegOf, FnOf, LowerAll;
  }

  lemma BareStart(s: string, i: nat, digits: string)
    requires Spelled(Numeral(0, "", "", digits)) && At(s, i, digits) && EndsTerm(s, i + |digits|)
    ensures StartFrom(s, i) == Number(i)
  {
    hide RegOf, FnOf, HexValue, EndsTerm;
    var e := i + |digits|;
    HexAt(s, i, digits);
    CharAt(s, i, digits, 0);
    PlainStart(s, i, e);
    if e < |s| { EndIsPlain(s, e); }
    if IsLetter(s[i]) {
      assert forall j :: i <= j < e ==> IsIdChar(s[j]);
      IdRunAt(s, i, e);
      LetterDigits(s, i, e, digits);
    }
  }

  lemma LetterDigits(s: string, i: nat, q: nat, digits: string)
    requires i < q <= |s| && IsLetter(s[i]) && IsHex(s[i]) && IdEnd(s, i) == q && s[i..q] == digits && Peek(s, q) != '('
    requires AllHex(LowerAll(digits)) && RegOf(LowerAll(digits)).None?
    ensures StartFrom(s, i) == Number(i)
  {
    hide RegOf, FnOf, LowerAll, IdEnd;
  }

  /** What stands at a letter, from the word that starts there. */
  lemma WordStart(s: string, i: nat, name: string)
    requires IsName(name) && At(s, i, name) && (i + |name| == |s| || !IsIdChar(s[i + |name|]))
    ensures var q := i + |name|;
            && (Peek(s, q) == '(' && FnOf(LowerAll(name)).Some? ==> StartFrom(s, i) == Call(FnOf(LowerAll(name)).value, q + 1))
            && (Peek(s, q) != '(' && RegOf(LowerAll(name)).Some? ==> StartFrom(s, i) == Name(RegOf(LowerAll(name)).value, q))
  {
    hide RegOf, FnOf, LowerAll, IsHex, IsIdChar, StartFrom;
    var q := i + |name|;
    forall j | i <= j < q ensures IsIdChar(s[j]) {
      CharAt(s, i, name, j - i);
      assert IsIdChar(name[j - i]);
    }
    IdRunAt(s, i, q);
    CharAt(s, i, name, 0);
    LetterStart(s, i, q, name);
  }

  lemma LetterStart(s: string, i: nat, q: nat, name: string)
    requires i < q <= |s| && IsLetter(s[i]) && IdEnd(s, i) == q && s[i..q] == name
    ensures Peek(s, q) == '(' && FnOf(LowerAll(name)).Some? ==> StartFrom(s, i) == Call(FnOf(LowerAll(name)).value, q + 1)
    ensures Peek(s, q) != '(' && RegOf(LowerAll(name)).Some? ==> StartFrom(s, i) == Name(RegOf(LowerAll(name)).value, q)
  {
    hide RegOf, FnOf, LowerAll, IsHex, IdEnd;
  }

  /** A term without the spaces in front. */
  function Bare(x: Term): string {
    match x
    case Numeral(_, outer, inner, digits) => outer + inner + digits
    case Named(_, name) => name
    case Bracket(_, e, close) => "(" + ChainText(e) + (Pad(close) + ")")
    case Called(_, name, e, close) => name + "(" + ChainText(e) + (Pad(close) + ")")
  }

  lemma TextIsBare(x: Term)
    requires Spelled(x)
    ensures Text(x) == Pad(x.pad) + Bare(x) && Bare(x) != "" && Bare(x)[0] != ' '
  {
    hide ChainText, ChainTree, ChainSpelled, RegOf, FnOf, LowerAll;
    if x.Numeral? { assert IsHex(x.digits[0]); }
  }

  lemma PaddedStart(s: string, i: nat, pad: nat, w: string)
    requires At(s, i, Pad(pad) + w) && w != "" && w[0] != ' '
    ensures At(s, i + pad, w) && StartAt(s, i) == StartFrom(s, i + pad)
  {
    hide StartFrom;
    SplitAt(s, i, Pad(pad), w);
    CharAt(s, i + pad, w, 0);
    forall j | i <= j < i + pad ensures s[j] == ' ' { CharAt(s, i, Pad(pad), j - i); }
    SpacesAt(s, i, i + pad);
  }

  /** The parser reads every spelling of a term as its tree, and stops behind it. */
  lemma {:induction false} TermReads(s: string, i: nat, x: Term)
    requires Spelled(x) && At(s, i, Text(x)) && EndsTerm(s, i + |Text(x)|)
    ensures ParseTerm(s, i) == Got(TreeOf(x), i + |Text(x)|)
    decreases x, 0
  {
    hide ParseTerm, ChainText, ChainTree, ChainSpelled, RegOf, FnOf, LowerAll, AllHex, IsNoRegister, NumberOf, StartAt, At, Text;
    TextIsBare(x);
    PaddedStart(s, i, x.pad, Bare(x));
    var k := i + x.pad;
    match x
    case Numeral(_, outer, inner, digits) => NumeralReads(s, i, k, outer, inner, digits);
    case Named(_, name) => NamedReads(s, i, k, name);
    case Bracket(_, e, close) => BracketReads(s, i, k, e, close);
    case Called(_, name, e, close) => CalledReads(s, i, k, name, e, close);
  }

  lemma NumeralReads(s: string, i: nat, k: nat, outer: string, inner: string, digits: string)
    requires i <= k && Spelled(Numeral(0, outer, inner, digits)) && At(s, k, outer + inner + digits)
    requires EndsTerm(s, k + |outer + inner + digits|) && StartAt(s, i) == StartFrom(s, k)
    ensures ParseTerm(s, i) == Got(Num(NumberOf(digits)), k + |outer + inner + digits|)
  {
    hide StartAt, StartFrom, ReadNumber, AllHex, IsHex, NumberOf, EndsTerm, At, IsNoRegister, LowerAll;
    SplitAt(s, k, outer + inner, digits);
    SplitAt(s, k, outer, inner);
    NumeralStart(s, k, outer, inner, digits);
    NumberIsRead(s, k + |outer|, inner, digits);
  }

  lemma NamedReads(s: string, i: nat, k: nat, name: string)
    requires i <= k && Spelled(Named(0, name)) && At(s, k, name) && EndsTerm(s, k + |name|) && StartAt(s, i) == StartFrom(s, k)
    ensures ParseTerm(s, i) == Got(Register(RegOf(LowerAll(name)).value), k + |name|)
  {
    hide StartAt, StartFrom, RegOf, FnOf, LowerAll, EndsTerm, IsName;
    if k + |name| < |s| { EndIsPlain(s, k + |name|); }
    WordStart(s, k, name);
  }

  /** A chain in brackets: what is inside, spaces, and the closing one. */
  lemma {:induction false} InsideReads(s: string, i: nat, e: Chain, close: nat)
    requires ChainSpelled(e) && At(s, i, ChainText(e)) && At(s, i + |ChainText(e)|, Pad(close) + ")")
    ensures Close(s, ParseExpr(s, i)) == Got(ChainTree(e), i + |ChainText(e)| + close + 1)
    decreases e, 2
  {
    hide ParseExpr, ParseMore, ChainText, ChainTree, ChainSpelled, At;
    var m := i + |ChainText(e)|;
    ClosingAt(s, m, close);
    ChainReads(s, i, e);
    MoreEnds(s, m, m + close, ChainTree(e));
  }

  lemma ClosingAt(s: string, m: nat, close: nat)
    requires At(s, m, Pad(close) + ")")
    ensures EndsTerm(s, m) && m + close < |s| && s[m + close] == ')' && SkipSpaces(s, m) == m + close == SkipSpaces(s, m + close)
  {
    PaddedSign(s, m, close, ")");
  }

  lemma PaddedSign(s: string, m: nat, pad: nat, sign: string)
    requires At(s, m, Pad(pad) + sign) && |sign| == 1 && sign[0] != ' '
    ensures m + pad < |s| && s[m + pad] == sign[0] && SkipSpaces(s, m) == m + pad == SkipSpaces(s, m + pad)
    ensures s[m] == if pad > 0 then ' ' else sign[0]
  {
    SplitAt(s, m, Pad(pad), sign);
    CharAt(s, m + pad, sign, 0);
    forall j | m <= j < m + pad ensures s[j] == ' ' { CharAt(s, m, Pad(pad), j - m); }
    SpacesAt(s, m, m + pad);
    SpacesAt(s, m + pad, m + pad);
  }

  lemma MoreEnds(s: string, i: nat, k: nat, left: Tree)
    requires i <= |s| && SkipSpaces(s, i) == k && Peek(s, k) != '+' && Peek(s, k) != '-'
    ensures ParseMore(s, i, left) == Got(left, k)
  {
  }

  lemma {:induction false} BracketReads(s: string, i: nat, k: nat, e: Chain, close: nat)
    requires ChainSpelled(e) && i <= k && At(s, k, Bare(Bracket(0, e, close))) && StartAt(s, i) == StartFrom(s, k)
    ensures ParseTerm(s, i) == Got(ChainTree(e), k + |Bare(Bracket(0, e, close))|)
    decreases e, 3
  {
    hide ParseExpr, ChainText, ChainTree, ChainSpelled, Close, At, StartAt;
    SplitAt(s, k, "(" + ChainText(e), Pad(close) + ")");
    SplitAt(s, k, "(", ChainText(e));
    InsideReads(s, k + 1, e, close);
    CharAt(s, k, "(", 0);
    OpenStart(s, k);
    hide StartFrom;
  }

  lemma OpenStart(s: string, k: nat)
    requires k < |s| && s[k] == '('
    ensures StartFrom(s, k) == TrapExpr.Paren(k + 1)
  {
  }

  lemma {:induction false} CalledReads(s: string, i: nat, k: nat, name: string, e: Chain, close: nat)
    requires ChainSpelled(e) && IsName(name) && FnOf(LowerAll(name)).Some?
    requires i <= k && At(s, k, Bare(Called(0, name, e, close))) && StartAt(s, i) == StartFrom(s, k)
    ensures ParseTerm(s, i) == Got(Apply(FnOf(LowerAll(name)).value, ChainTree(e)), k + |Bare(Called(0, name, e, close))|)
    decreases e, 3
  {
    hide ParseExpr, ChainText, ChainTree, ChainSpelled, StartAt, StartFrom, RegOf, FnOf, LowerAll, Close, IsName, At;
    SplitAt(s, k, name + "(" + ChainText(e), Pad(close) + ")");
    SplitAt(s, k, name + "(", ChainText(e));
    SplitAt(s, k, name, "(");
    InsideReads(s, k + |name| + 1, e, close);
    CharAt(s, k + |name|, "(", 0);
    assert !IsIdChar('(');
    WordStart(s, k, name);
  }

  /** And every spelling of a chain, up to what the loop finds behind it. */
  lemma {:induction false} ChainReads(s: string, i: nat, x: Chain)
    requires ChainSpelled(x) && At(s, i, ChainText(x)) && EndsTerm(s, i + |ChainText(x)|)
    ensures ParseExpr(s, i) == ParseMore(s, i + |ChainText(x)|, ChainTree(x))
    decreases x, 1
  {
    hide Text, ParseTerm, ParseMore, TreeOf, Spelled, At, EndsTerm;
    match x
    case One(t) => TermReads(s, i, t);
    case More(before, pad, plus, t) =>
      var op := if plus then "+" else "-";
      var m := i + |ChainText(before)|;
      SplitAt(s, i, ChainText(before) + (Pad(pad) + op), Text(t));
      SplitAt(s, i, ChainText(before), Pad(pad) + op);
      SignEnds(s, m, pad, op);
      ChainReads(s, i, before);
      TermReads(s, m + pad + 1, t);
      OneMore(s, m, m + pad, ChainTree(before), TreeOf(t), m + pad + 1 + |Text(t)|);
  }

  lemma SignEnds(s: string, m: nat, pad: nat, op: string)
    requires (op == "+" || op == "-") && At(s, m, Pad(pad) + op)
    ensures EndsTerm(s, m) && m + pad < |s| && s[m + pad] == op[0] && SkipSpaces(s, m) == m + pad
  {
    PaddedSign(s, m, pad, op);
  }

  lemma OneMore(s: string, i: nat, k: nat, left: Tree, t: Tree, end: nat)
    requires i <= |s| && SkipSpaces(s, i) == k && k < |s| && (s[k] == '+' || s[k] == '-') && ParseTerm(s, k + 1) == Got(t, end)
    ensures end <= |s| && ParseMore(s, i, left) == ParseMore(s, end, if s[k] == '+' then Add(left, t) else Sub(left, t))
  {
    hide ParseTerm;
  }

  /** A whole text: any spelling, spaces behind it, and whatever a NUL cuts off. */
  lemma EverySpellingReads(x: Chain, n: nat, rest: string)
    requires ChainSpelled(x) && (rest == "" || rest[0] == '\0')
    ensures ParseAll(ChainText(x) + Pad(n) + rest) == Some(ChainTree(x))
  {
    hide ChainText, ChainTree, ParseExpr, ParseMore, ChainSpelled;
    var s := ChainText(x) + Pad(n) + rest;
    var m := |ChainText(x)|;
    assert s[0..m] == ChainText(x);
    assert forall j :: m <= j < m + n ==> s[j] == ' ';
    if rest != "" { assert s[m + n] == '\0'; }
    SpacesAt(s, m, m + n);
    SpacesAt(s, m + n, m + n);
    ChainReads(s, 0, x);
    MoreEnds(s, m, m + n, ChainTree(x));
  }

  // ---------------------------------------------------------------- nothing else is accepted

  lemma {:induction false} SpacesArePad(s: string, i: nat)
    requires i <= |s|
    ensures At(s, i, Pad(SkipSpaces(s, i) - i))
    decreases |s| - i
  {
    if i < |s| && s[i] == ' ' {
      SpacesArePad(s, i + 1);
      var n := SkipSpaces(s, i) - i;
      assert s[i..i + n] == [s[i]] + s[i + 1..i + n];
      assert Pad(n) == [' '] + Pad(n - 1);
    } else {
      assert s[i..i] == Pad(0);
    }
  }

  lemma {:induction false} IdEndStops(s: string, i: nat)
    requires i <= |s|
    ensures var q := IdEnd(s, i); (forall j :: i <= j < q ==> IsIdChar(s[j])) && (q == |s| || !IsIdChar(s[q]))
    decreases |s| - i
  {
    hide IsIdChar;
    if i < |s| && IsIdChar(s[i]) { IdEndStops(s, i + 1); }
  }

  /** Where a number starts, and what stands in front of it. */
  lemma NumberStarts(s: string, k: nat)
    requires k <= |s| && StartFrom(s, k).Number?
    ensures var at := StartFrom(s, k).at;
            && k <= at < |s| && IsHex(s[at])
            && (s[k..at] == "" || s[k..at] == "$" || s[k..at] == "0x" || s[k..at] == "0X")
            && (at == k && s[k] == '0' ==> Peek(s, k + 1) != 'x' && Peek(s, k + 1) != 'X')
            && (at == k && IsLetter(s[k]) ==> var id := s[k..IdEnd(s, k)]; AllHex(LowerAll(id)) && RegOf(LowerAll(id)).None?)
  {
    hide RegOf, FnOf, LowerAll, IdEnd, AllHex;
    var at := StartFrom(s, k).at;
    if at == k + 2 { assert s[k..at] == [s[k]] + [s[k + 1]]; }
    if at == k && IsLetter(s[k]) { LetterNumber(s, k); }
  }

  lemma LetterNumber(s: string, k: nat)
    requires k < |s| && IsLetter(s[k]) && StartFrom(s, k).Number?
    ensures var id := s[k..IdEnd(s, k)]; AllHex(LowerAll(id)) && RegOf(LowerAll(id)).None?
  {
    hide RegOf, FnOf, LowerAll, IdEnd, IsHex, AllHex;
  }

  /** The digits of a number that was read, and its own prefix. */
  lemma NumberParts(s: string, at: nat) returns (inner: string, digits: string)
    requires at < |s| && IsHex(s[at])
    ensures digits != "" && AllHex(digits) && (inner == "" || inner == "0x" || inner == "0X")
    ensures At(s, at, inner) && At(s, at + |inner|, digits) && ReadNumber(s, at) == (NumberOf(digits), at + |inner| + |digits|)
    ensures inner == "" ==> |digits| == HexEnd(s, at) - at
    ensures inner != "" ==> s[at] == '0' && (Peek(s, at + 1) == 'x' || Peek(s, at + 1) == 'X')
  {
    hide HexValue, HexEnd;
    var own := s[at] == '0' && (Peek(s, at + 1) == 'x' || Peek(s, at + 1) == 'X') && IsHex(Peek(s, at + 2));
    var from := if own then at + 2 else at;
    var end := HexEnd(s, from);
    inner, digits := s[at..from], s[from..end];
    HexEndGrows(s, from);
    WordAt(s, at, from);
    WordAt(s, from, end);
    if own { assert inner == [s[at]] + [s[at + 1]]; }
  }

  /** A number that was read is a spelled numeral. */
  lemma NumberSpelled(s: string, k: nat) returns (outer: string, inner: string, digits: string)
    requires k <= |s| && StartFrom(s, k).Number?
    ensures Spelled(Numeral(0, outer, inner, digits))
    ensures var r := ReadNumber(s, StartFrom(s, k).at);
            r.0 == NumberOf(digits) && At(s, k, outer + inner + digits) && r.1 == k + |outer + inner + digits|
  {
    hide StartFrom, RegOf, FnOf, LowerAll, Spelled, ReadNumber, NumberOf, AllHex, IsHex, HexEnd, IdEnd, At, IsNoRegister;
    NumberStarts(s, k);
    var at := StartFrom(s, k).at;
    outer := s[k..at];
    inner, digits := NumberParts(s, at);
    WordAt(s, k, at);
    SplitAt(s, k, outer, inner);
    SplitAt(s, k, outer + inner, digits);
    if outer == "" { BareWord(s, k, digits); }
    SpelledNumeral(outer, inner, digits);
  }

  lemma BareWord(s: string, k: nat, digits: string)
    requires k < |s| && digits != "" && At(s, k, digits) && |digits| == HexEnd(s, k) - k
    requires IsLetter(s[k]) ==> var id := s[k..IdEnd(s, k)]; AllHex(LowerAll(id)) && RegOf(LowerAll(id)).None?
    ensures IsLetter(digits[0]) ==> AllHex(LowerAll(digits)) && IsNoRegister(digits)
  {
    hide RegOf, LowerAll, AllHex, IsNoRegister, HexEnd, IdEnd;
    CharAt(s, k, digits, 0);
    if IsLetter(digits[0]) { WordIsDigits(s, k, HexEnd(s, k)); }
  }

  lemma SpelledNumeral(outer: string, inner: string, digits: string)
    requires digits != "" && AllHex(digits)
    requires outer == "" || outer == "$" || outer == "0x" || outer == "0X"
    requires inner == "" || (outer != "" && (inner == "0x" || inner == "0X"))
    requires outer == "" && IsLetter(digits[0]) ==> AllHex(LowerAll(digits)) && IsNoRegister(digits)
    ensures Spelled(Numeral(0, outer, inner, digits))
  {
  }

  lemma HexEndGrows(s: string, i: nat)
    requires i < |s| && IsHex(s[i])
    ensures HexEnd(s, i) > i && AllHex(s[i..HexEnd(s, i)])
  {
    hide IsHex;
    var e := HexEnd(s, i);
    forall j | 0 <= j < e - i ensures IsHex(s[i..e][j]) { assert s[i..e][j] == s[i + j]; }
  }

  lemma WordIsDigits(s: string, k: nat, end: nat)
    requires k < |s| && HexEnd(s, k) == end && var id := s[k..IdEnd(s, k)]; AllHex(LowerAll(id)) && RegOf(LowerAll(id)).None?
    ensures s[k..end] == s[k..IdEnd(s, k)] && AllHex(LowerAll(s[k..end])) && IsNoRegister(s[k..end])
  {
    hide RegOf, LowerAll;
    var q := IdEnd(s, k);
    IdEndStops(s, k);
    LowerHex(s[k..q]);
    forall j | k <= j < q ensures IsHex(s[j]) { assert s[k..q][j - k] == s[j]; }
    HexRunAt(s, k, q);
  }

  /** A word that was read. */
  lemma WordStarts(s: string, k: nat)
    requires k <= |s| && (StartFrom(s, k).Name? || StartFrom(s, k).Call?)
    ensures var q := IdEnd(s, k); var name := s[k..q];
            && k < q && IsName(name)
            && (StartFrom(s, k).Name? ==> RegOf(LowerAll(name)).Some? && StartFrom(s, k) == Name(RegOf(LowerAll(name)).value, q))
            && (StartFrom(s, k).Call? ==> FnOf(LowerAll(name)).Some? && StartFrom(s, k) == Call(FnOf(LowerAll(name)).value, q + 1)
                                          && q < |s| && s[q] == '(')
  {
    hide RegOf, FnOf, LowerAll, IdEnd;
    IdEndStops(s, k);
    LettersAreIds(s, k);
    var q := IdEnd(s, k);
    assert s[k..q][0] == s[k];
    forall j | 0 <= j < q - k ensures IsIdChar(s[k..q][j]) { assert s[k..q][j] == s[k + j]; }
  }

  lemma LettersAreIds(s: string, k: nat)
    requires k < |s| && IsLetter(s[k])
    ensures IdEnd(s, k) > k
  {
  }

  /** Every term the parser accepts is a spelling of its tree. */
  lemma {:induction false} TermSpelled(s: string, i: nat) returns (x: Term)
    requires i <= |s| && ParseTerm(s, i).Got?
    ensures Spelled(x) && TreeOf(x) == ParseTerm(s, i).tree
    ensures At(s, i, Text(x)) && ParseTerm(s, i).next == i + |Text(x)|
    decreases |s| - i, 1
  {
    hide StartFrom, ReadNumber, RegOf, FnOf, LowerAll, ParseExpr, ChainText, ChainTree, ChainSpelled, NumberOf, AllHex, IsName, At,
         IsNoRegister, Close, IdEnd;
    SpacesArePad(s, i);
    var k := SkipSpaces(s, i);
    var pad := k - i;
    match StartFrom(s, k)
    case Number(at) =>
      var outer, inner, digits := NumberSpelled(s, k);
      x := Numeral(pad, outer, inner, digits);
      SplitAt(s, i, Pad(pad), outer + inner + digits);
    case Name(r, at) =>
      WordStarts(s, k);
      WordAt(s, k, IdEnd(s, k));
      x := Named(pad, s[k..IdEnd(s, k)]);
      SplitAt(s, i, Pad(pad), s[k..IdEnd(s, k)]);
    case Paren(at) =>
      OpensAt(s, k);
      var e, close := InsideSpelled(s, k + 1);
      x := Bracket(pad, e, close);
      JoinBracket(s, i, pad, "(", e, close);
    case Call(f, at) => x := CallSpelled(s, i, k);
  }

  lemma {:induction false} CallSpelled(s: string, i: nat, k: nat) returns (x: Term)
    requires i <= k <= |s| && At(s, i, Pad(k - i)) && StartFrom(s, k).Call? && Close(s, ParseExpr(s, StartFrom(s, k).at)).Got?
    ensures Spelled(x)
    ensures var f, r := StartFrom(s, k).f, Close(s, ParseExpr(s, StartFrom(s, k).at));
            TreeOf(x) == Apply(f, r.tree) && At(s, i, Text(x)) && r.next == i + |Text(x)|
    decreases |s| - k, 0
  {
    hide StartFrom, RegOf, FnOf, LowerAll, ParseExpr, ChainText, ChainTree, ChainSpelled, IsName, At, Close, IdEnd;
    WordStarts(s, k);
    var q := IdEnd(s, k);
    var name := s[k..q];
    WordAt(s, k, q);
    CharIsAt(s, q, '(');
    SplitAt(s, k, name, "(");
    var e, close := InsideSpelled(s, q + 1);
    x := Called(k - i, name, e, close);
    JoinBracket(s, i, k - i, name + "(", e, close);
  }

  lemma WordAt(s: string, k: nat, q: nat)
    requires k <= q <= |s|
    ensures At(s, k, s[k..q])
  {
  }

  lemma CharIsAt(s: string, k: nat, c: char)
    requires k < |s| && s[k] == c
    ensures At(s, k, [c])
  {
    assert s[k..k + 1] == [c];
  }

  lemma OpensAt(s: string, k: nat)
    requires k <= |s| && StartFrom(s, k).Paren?
    ensures k < |s| && s[k] == '(' && StartFrom(s, k).at == k + 1 && At(s, k, "(")
  {
    hide RegOf, FnOf, LowerAll, IdEnd;
    if k < |s| && s[k] == '(' { CharIsAt(s, k, '('); }
  }

  lemma JoinBracket(s: string, i: nat, pad: nat, open: string, e: Chain, close: nat)
    requires At(s, i, Pad(pad)) && At(s, i + pad, open) && At(s, i + pad + |open|, ChainText(e))
    requires At(s, i + pad + |open| + |ChainText(e)|, Pad(close) + ")")
    ensures At(s, i, Pad(pad) + (open + ChainText(e) + (Pad(close) + ")")))
  {
    hide At, ChainText;
    SplitAt(s, i + pad, open, ChainText(e));
    SplitAt(s, i + pad, open + ChainText(e), Pad(close) + ")");
    SplitAt(s, i, Pad(pad), open + ChainText(e) + (Pad(close) + ")"));
  }

  lemma {:induction false} InsideSpelled(s: string, i: nat) returns (e: Chain, close: nat)
    requires i <= |s| && Close(s, ParseExpr(s, i)).Got?
    ensures var r := Close(s, ParseExpr(s, i));
            ChainSpelled(e) && ChainTree(e) == r.tree && r.next == i + |ChainText(e)| + close + 1
    ensures At(s, i, ChainText(e)) && At(s, i + |ChainText(e)|, Pad(close) + ")")
    decreases |s| - i, 4
  {
    hide ParseExpr, ChainText, ChainTree, ChainSpelled, At;
    e, close := ExprSpelled(s, i);
    var k := ParseExpr(s, i).next;
    ExprStops(s, i);
    CharIsAt(s, k, ')');
    SplitAt(s, i + |ChainText(e)|, Pad(close), ")");
  }

  /** After an expression there are no more spaces to skip. */
  lemma {:induction false} ExprStops(s: string, i: nat)
    requires i <= |s| && ParseExpr(s, i).Got?
    ensures SkipSpaces(s, ParseExpr(s, i).next) == ParseExpr(s, i).next
  {
    hide ParseTerm, ParseMore;
    MoreStops(s, ParseTerm(s, i).next, ParseTerm(s, i).tree);
  }

  lemma {:induction false} MoreStops(s: string, i: nat, left: Tree)
    requires i <= |s| && ParseMore(s, i, left).Got?
    ensures SkipSpaces(s, ParseMore(s, i, left).next) == ParseMore(s, i, left).next
    decreases |s| - i
  {
    hide ParseTerm;
    var k := SkipSpaces(s, i);
    SpacesAt(s, k, k);
    if Peek(s, k) == '+' || Peek(s, k) == '-' {
      var t := ParseTerm(s, k + 1);
      MoreStops(s, t.next, if Peek(s, k) == '+' then Add(left, t.tree) else Sub(left, t.tree));
    }
  }

  lemma {:induction false} ExprSpelled(s: string, i: nat) returns (x: Chain, n: nat)
    requires i <= |s| && ParseExpr(s, i).Got?
    ensures ChainSpelled(x) && ChainTree(x) == ParseExpr(s, i).tree && ParseExpr(s, i).next == i + |ChainText(x)| + n
    ensures At(s, i, ChainText(x)) && At(s, i + |ChainText(x)|, Pad(n))
    decreases |s| - i, 2
  {
    hide ParseTerm, ParseMore, Text, TreeOf, Spelled, At;
    var t := TermSpelled(s, i);
    x, n := MoreSpelled(s, i, One(t));
  }

  lemma {:induction false} MoreSpelled(s: string, i: nat, left: Chain) returns (x: Chain, n: nat)
    requires i <= |s| && ChainSpelled(left) && At(s, i, ChainText(left)) && ChainText(left) != ""
    requires i + |ChainText(left)| <= |s| && ParseMore(s, i + |ChainText(left)|, ChainTree(left)).Got?
    ensures var r := ParseMore(s, i + |ChainText(left)|, ChainTree(left));
            ChainSpelled(x) && ChainTree(x) == r.tree && r.next == i + |ChainText(x)| + n
    ensures At(s, i, ChainText(x)) && At(s, i + |ChainText(x)|, Pad(n))
    decreases |s| - i, 1, |s| - i - |ChainText(left)|
  {
    hide ParseTerm, Text, TreeOf, Spelled, At;
    var m := i + |ChainText(left)|;
    var k := SkipSpaces(s, m);
    SpacesArePad(s, m);
    if Peek(s, k) == '+' || Peek(s, k) == '-' {
      var t := TermSpelled(s, k + 1);
      var plus := Peek(s, k) == '+';
      var next := More(left, k - m, plus, t);
      CharIsAt(s, k, s[k]);
      JoinMore(s, i, ChainText(left), k - m, if plus then "+" else "-", Text(t));
      x, n := MoreSpelled(s, i, next);
    } else {
      x, n := left, k - m;
    }
  }

  lemma JoinMore(s: string, i: nat, left: string, pad: nat, op: string, t: string)
    requires At(s, i, left) && At(s, i + |left|, Pad(pad)) && At(s, i + |left| + pad, op) && At(s, i + |left| + pad + |op|, t)
    ensures At(s, i, left + (Pad(pad) + op) + t)
  {
    hide At;
    SplitAt(s, i + |left|, Pad(pad), op);
    SplitAt(s, i, left, Pad(pad) + op);
    SplitAt(s, i, left + (Pad(pad) + op), t);
  }

  /** A spelling with spaces behind it, up to a NUL. */
  predicate SpelledAs(s: string, x: Chain, n: nat, rest: string) {
    ChainSpelled(x) && (rest == "" || rest[0] == '\0') && s == ChainText(x) + Pad(n) + rest
  }

  /** A text is accepted exactly when it is a spelling; and then its tree is the spelling's. */
  lemma AcceptedIsSpelled(s: string)
    ensures ParseAll(s).Some? <==> exists x, n, rest :: SpelledAs(s, x, n, rest)
    ensures forall x, n, rest :: SpelledAs(s, x, n, rest) ==> ParseAll(s) == Some(ChainTree(x))
  {
    hide ChainText, ChainTree, ChainSpelled, ParseExpr, Pad, SkipSpaces;
    forall x, n, rest | SpelledAs(s, x, n, rest) ensures ParseAll(s) == Some(ChainTree(x)) {
      EverySpellingReads(x, n, rest);
    }
    if ParseAll(s).Some? {
      var x, n := ExprSpelled(s, 0);
      ExprStops(s, 0);
      var k := ParseExpr(s, 0).next;
      var rest := s[k..];
      assert s == s[0..|ChainText(x)|] + s[|ChainText(x)|..k] + rest;
      assert SpelledAs(s, x, n, rest);
    }
  }

  // ---------------------------------------------------------------- characters

  const SMALL := {'a', 'b', 'c', 'd', 'e', 'f', 'g', 'h', 'i', 'j', 'k', 'l', 'm',
                  'n', 'o', 'p', 'q', 'r', 's', 't', 'u', 'v', 'w', 'x', 'y', 'z'}
  const CAPITAL := {'A', 'B', 'C', 'D', 'E', 'F', 'G', 'H', 'I', 'J', 'K', 'L', 'M',
                    'N', 'O', 'P', 'Q', 'R', 'S', 'T', 'U', 'V', 'W', 'X', 'Y', 'Z'}

  /** The letters of names, and how case is folded. */
  lemma LettersAre(c: char)
    ensures IsLetter(c) <==> c in SMALL || c in CAPITAL
    ensures c !in CAPITAL ==> Lower(c) == c
    ensures Lower('A') == 'a' && Lower('B') == 'b' && Lower('C') == 'c' && Lower('D') == 'd' && Lower('E') == 'e'
    ensures Lower('F') == 'f' && Lower('G') == 'g' && Lower('H') == 'h' && Lower('I') == 'i' && Lower('J') == 'j'
    ensures Lower('K') == 'k' && Lower('L') == 'l' && Lower('M') == 'm' && Lower('N') == 'n' && Lower('O') == 'o'
    ensures Lower('P') == 'p' && Lower('Q') == 'q' && Lower('R') == 'r' && Lower('S') == 's' && Lower('T') == 't'
    ensures Lower('U') == 'u' && Lower('V') == 'v' && Lower('W') == 'w' && Lower('X') == 'x' && Lower('Y') == 'y'
    ensures Lower('Z') == 'z'
  {
  }

  /** The digits of numbers, and their values. */
  lemma DigitsAre(c: char)
    ensures IsDigit(c) <==> c in {'0', '1', '2', '3', '4', '5', '6', '7', '8', '9'}
    ensures IsHex(c) <==> IsDigit(c) || c in {'a', 'b', 'c', 'd', 'e', 'f', 'A', 'B', 'C', 'D', 'E', 'F'}
    ensures DigitValue('0') == 0 && DigitValue('1') == 1 && DigitValue('2') == 2 && DigitValue('3') == 3
    ensures DigitValue('4') == 4 && DigitValue('5') == 5 && DigitValue('6') == 6 && DigitValue('7') == 7
    ensures DigitValue('8') == 8 && DigitValue('9') == 9 && DigitValue('a') == 10 && DigitValue('b') == 11
    ensures DigitValue('c') == 12 && DigitValue('d') == 13 && DigitValue('e') == 14 && DigitValue('f') == 15
    ensures DigitValue('A') == 10 && DigitValue('B') == 11 && DigitValue('C') == 12 && DigitValue('D') == 13
    ensures DigitValue('E') == 14 && DigitValue('F') == 15
  {
  }
}
