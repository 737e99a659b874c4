/** How recipe expressions group, said about token lists alone: which operator of a list of
    operands is applied last, how signs and powers bind, and what calls and parentheses give. */
module RecipePrecedence {
  import opened Wrappers
  import opened RecipeTree
  import opened RecipeGrammar
  import opened RecipeParser
  import opened RecipeText

  // ------------------------------------------------------------------ the groups

  predicate IsOperator(kind: Kind) {
    kind in {TLor, TLand, TEq, TNe, TLt, TLe, TGt, TGe, TPlus, TMinus, TMul, TDiv, TMod}
  }

  /** The six groups of infix operators, the loosest first. */
  function Tightness(kind: Kind): nat
    requires IsOperator(kind)
  {
    if kind == TLor then 0
    else if kind == TLand then 1
    else if kind in {TEq, TNe} then 2
    else if kind in {TLt, TLe, TGt, TGe} then 3
    else if kind in {TPlus, TMinus} then 4
    else 5
  }

  function Operator(kind: Kind): BinOp
    requires IsOperator(kind)
  {
    match kind
    case TLor => LOr
    case TLand => LAnd
    case TEq => Eq
    case TNe => Ne
    case TLt => Lt
    case TLe => Le
    case TGt => Gt
    case TGe => Ge
    case TPlus => Add
    case TMinus => Sub
    case TMul => Mult
    case TDiv => Div
    case TMod => Mod
  }

  /** A number or a name. */
  predicate IsOperand(t: Token) {
    t.kind == TNumber || t.kind == TName
  }

  /** The tree of an operand. */
  function Operand(t: Token, scope: Scope): Result<Expr, Error>
    requires IsOperand(t)
  {
    if t.kind == TNumber then Ok(Num(Decimal(t.text))) else Lookup(scope, t.text)
  }

  /** Operands with infix operators between them. */
  function Chain(operands: seq<Token>, kinds: seq<Kind>): seq<Token>
    requires |operands| == |kinds| + 1
  {
    if kinds == [] then [operands[0]]
    else Chain(operands[..|kinds|], kinds[..|kinds| - 1]) + [Symbol(kinds[|kinds| - 1]), operands[|kinds|]]
  }

  predicate IsChain(operands: seq<Token>, kinds: seq<Kind>) {
    |operands| == |kinds| + 1 && (forall i :: 0 <= i < |operands| ==> IsOperand(operands[i])) &&
    forall i :: 0 <= i < |kinds| ==> IsOperator(kinds[i])
  }

  /** i is the last of the loosest operators. */
  predicate LastLoosest(kinds: seq<Kind>, i: nat)
    requires forall j :: 0 <= j < |kinds| ==> IsOperator(kinds[j])
  {
    i < |kinds| &&
    (forall j :: 0 <= j < i ==> Tightness(kinds[i]) <= Tightness(kinds[j])) &&
    forall j :: i < j < |kinds| ==> Tightness(kinds[i]) < Tightness(kinds[j])
  }

  /** Both sides, then the operation; the error met first in reading order. */
  function Combined(l: Result<Expr, Error>, op: BinOp, r: Result<Expr, Error>): Result<Expr, Error> {
    var a :- l;
    var b :- r;
    MakeOp(a, op, b)
  }

  // ------------------------------------------------------------------ chains

  lemma {:induction false} ChainSplits(operands: seq<Token>, kinds: seq<Kind>, i: nat)
    requires |operands| == |kinds| + 1 && i < |kinds|
    ensures Chain(operands, kinds) ==
            Chain(operands[..i + 1], kinds[..i]) + [Symbol(kinds[i])] + Chain(operands[i + 1..], kinds[i + 1..])
    decreases |kinds|
  {
    hide Symbol;
    var n := |kinds| - 1;
    if i == n {
      assert operands[i + 1..] == [operands[n + 1]] && kinds[i + 1..] == [];
    } else {
      ChainSplits(operands[..n + 1], kinds[..n], i);
      assert operands[..n + 1][..i + 1] == operands[..i + 1] && kinds[..n][..i] == kinds[..i];
      var (rest, more) := (operands[i + 1..], kinds[i + 1..]);
      assert operands[..n + 1][i + 1..] == rest[..|more|] && kinds[..n][i + 1..] == more[..|more| - 1];
    }
  }

  lemma {:induction false} Loosest(kinds: seq<Kind>) returns (i: nat)
    requires kinds != [] && forall j :: 0 <= j < |kinds| ==> IsOperator(kinds[j])
    ensures LastLoosest(kinds, i)
  {
    hide Tightness;
    i := 0;
    for n := 1 to |kinds|
      invariant i < n
      invariant forall j :: 0 <= j < i ==> Tightness(kinds[i]) <= Tightness(kinds[j])
      invariant forall j :: i < j < n ==> Tightness(kinds[i]) < Tightness(kinds[j])
    {
      if Tightness(kinds[n]) <= Tightness(kinds[i]) {
        i := n;
      }
    }
  }

  lemma {:induction false} TableIs(kind: Kind)
    requires IsOperator(kind)
    ensures Infix(kind) == Some((Tightness(kind), Operator(kind))) && Tightness(kind) < UNARY
  {
  }

  /** The concrete syntax of a chain. */
  lemma {:induction false} ChainTree(operands: seq<Token>, kinds: seq<Kind>, lvl: nat) returns (c: Cst)
    requires IsChain(operands, kinds) && lvl <= UNARY
    requires forall j :: 0 <= j < |kinds| ==> lvl <= Tightness(kinds[j])
    ensures At(c, lvl) && TokensOf(c) == Chain(operands, kinds)
    decreases |kinds|
  {
    hide Tightness, Operator, Infix, At, TokensOf, Chain, Symbol, IsOperator;
    if kinds == [] {
      c := OperandTree(operands, lvl);
    } else {
      var i := Loosest(kinds);
      TableIs(kinds[i]);
      var l := ChainTree(operands[..i + 1], kinds[..i], Tightness(kinds[i]));
      var r := ChainTree(operands[i + 1..], kinds[i + 1..], Tightness(kinds[i]) + 1);
      c := Binary(l, kinds[i], r);
      ChainSplits(operands, kinds, i);
      BinaryTree(l, kinds[i], r, lvl);
    }
  }

  lemma {:induction false} OperandTree(operands: seq<Token>, lvl: nat) returns (c: Cst)
    requires |operands| == 1 && IsOperand(operands[0]) && lvl <= UNARY
    ensures At(c, lvl) && TokensOf(c) == Chain(operands, [])
  {
    var t := operands[0];
    c := if t.kind == TNumber then Literal(t.text) else Ident(t.text);
  }

  lemma {:induction false} BinaryTree(l: Cst, kind: Kind, r: Cst, lvl: nat)
    requires IsOperator(kind) && lvl <= Tightness(kind) && At(l, Tightness(kind)) && At(r, Tightness(kind) + 1)
    ensures At(Binary(l, kind, r), lvl)
    ensures TokensOf(Binary(l, kind, r)) == TokensOf(l) + [Symbol(kind)] + TokensOf(r)
  {
    hide Tightness, Operator, Infix;
    TableIs(kind);
  }

  /** Main result: in a list of operands the last of the loosest operators is applied last, to
      what the operands on its two sides give. The six groups, loosest first, are `||`, `&&`,
      `== !=`, `< <= > >=`, `+ -` and `* / %`. */
  lemma {:induction false} SplitsAtLastLoosest(operands: seq<Token>, kinds: seq<Kind>, i: nat, scope: Scope)
    requires IsChain(operands, kinds) && LastLoosest(kinds, i)
    ensures Parse(Chain(operands, kinds), scope) ==
            Combined(Parse(Chain(operands[..i + 1], kinds[..i]), scope), Operator(kinds[i]),
                     Parse(Chain(operands[i + 1..], kinds[i + 1..]), scope))
  {
    hide Tightness, Operator, Infix, At, TokensOf, Chain, Symbol, IsOperator, Parse, Denote;
    var kind := kinds[i];
    TableIs(kind);
    var l := ChainTree(operands[..i + 1], kinds[..i], Tightness(kind));
    var r := ChainTree(operands[i + 1..], kinds[i + 1..], Tightness(kind) + 1);
    ChainSplits(operands, kinds, i);
    BinaryTree(l, kind, r, 0);
    AtZero(l, Tightness(kind));
    AtZero(r, Tightness(kind) + 1);
    ParseFollowsGrammar(l, scope);
    ParseFollowsGrammar(r, scope);
    ParseFollowsGrammar(Binary(l, kind, r), scope);
    BinaryMeans(l, kind, r, scope);
  }

  lemma {:induction false} BinaryMeans(l: Cst, kind: Kind, r: Cst, scope: Scope)
    requires IsOperator(kind)
    ensures Denote(Binary(l, kind, r), scope) == Combined(Denote(l, scope), Operator(kind), Denote(r, scope))
  {
    hide MakeOp, Infix, Operator, Tightness;
    TableIs(kind);
  }

  lemma {:induction false} AtZero(c: Cst, lvl: nat)
    requires At(c, lvl)
    ensures At(c, 0)
  {
  }

  lemma {:induction false} OneOperand(t: Token, scope: Scope)
    requires IsOperand(t)
    ensures Chain([t], []) == [t] && Parse([t], scope) == Operand(t, scope)
  {
    hide Lookup, Decimal;
    var c := if t.kind == TNumber then Literal(t.text) else Ident(t.text);
    assert TokensOf(c) == [t];
    ParseFollowsGrammar(c, scope);
  }

  lemma {:induction false} TwoOperands(a: Token, kind: Kind, b: Token, scope: Scope)
    requires IsOperand(a) && IsOperand(b) && IsOperator(kind)
    ensures Chain([a, b], [kind]) == [a, Symbol(kind), b]
    ensures Parse([a, Symbol(kind), b], scope) == Combined(Operand(a, scope), Operator(kind), Operand(b, scope))
  {
    hide Tightness, Operator, Parse, Lookup, Decimal, Combined, Symbol;
    var (operands, kinds) := ([a, b], [kind]);
    assert operands[..1] == [a] && operands[1..] == [b] && kinds[..0] == [] && kinds[1..] == [];
    OneOperand(a, scope);
    OneOperand(b, scope);
    SplitsAtLastLoosest(operands, kinds, 0, scope);
  }

  /** Main result, written out for three operands: the left operator first in one group or when
      it binds tighter, the right one first when that binds tighter. */
  lemma {:induction false} ThreeOperands(a: Token, k1: Kind, b: Token, k2: Kind, c: Token, scope: Scope)
    requires IsOperand(a) && IsOperand(b) && IsOperand(c) && IsOperator(k1) && IsOperator(k2)
    ensures var (x, y, z) := (Operand(a, scope), Operand(b, scope), Operand(c, scope));
            Parse([a, Symbol(k1), b, Symbol(k2), c], scope) ==
              if Tightness(k1) >= Tightness(k2) then Combined(Combined(x, Operator(k1), y), Operator(k2), z)
              else Combined(x, Operator(k1), Combined(y, Operator(k2), z))
  {
    hide Tightness, Operator, Parse, Lookup, Decimal, Combined, Symbol;
    var (operands, kinds) := ([a, b, c], [k1, k2]);
    assert operands[..1] == [a] && operands[1..] == [b, c] && operands[..2] == [a, b] && operands[2..] == [c];
    assert kinds[..0] == [] && kinds[1..] == [k2] && kinds[..1] == [k1] && kinds[2..] == [];
    OneOperand(a, scope);
    OneOperand(c, scope);
    TwoOperands(a, k1, b, scope);
    TwoOperands(b, k2, c, scope);
    assert Chain(operands, kinds) == [a, Symbol(k1), b, Symbol(k2), c];
    SplitsAtLastLoosest(operands, kinds, if Tightness(k1) >= Tightness(k2) then 1 else 0, scope);
  }

  // ------------------------------------------------------------------ signs and powers

  function Negated(r: Result<Expr, Error>): Result<Expr, Error> {
    Combined(Ok(Num(0)), Sub, r)
  }

  function OperandCst(t: Token): (c: Cst)
    requires IsOperand(t)
    ensures TokensOf(c) == [t] && At(c, ATOM) && At(c, UNARY)
  {
    if t.kind == TNumber then Literal(t.text) else Ident(t.text)
  }

  lemma {:induction false} OperandMeans(t: Token, scope: Scope)
    requires IsOperand(t)
    ensures Denote(OperandCst(t), scope) == Operand(t, scope)
  {
  }

  /** Main result: a sign takes a whole power, and less than a product; so does the sign of an
      exponent or of a right factor. */
  lemma {:induction false} SignsBind(a: Token, b: Token, scope: Scope)
    requires IsOperand(a) && IsOperand(b)
    ensures var (x, y) := (Operand(a, scope), Operand(b, scope));
            var (minus, power, times) := (Token(TMinus, "-"), Token(TPower, "**"), Token(TMul, "*"));
            Parse([minus, a], scope) == Negated(x) && Parse([Token(TPlus, "+"), a], scope) == x &&
            Parse([minus, a, power, b], scope) == Negated(Combined(x, Power, y)) &&
            Parse([minus, a, times, b], scope) == Combined(Negated(x), Mult, y) &&
            Parse([a, times, minus, b], scope) == Combined(x, Mult, Negated(y)) &&
            Parse([a, power, minus, b], scope) == Combined(x, Power, Negated(y))
  {
    hide *;
    OperandMeans(a, scope);
    OperandMeans(b, scope);
    var (p, q) := (OperandCst(a), OperandCst(b));
    var (minus, power, times) := (Token(TMinus, "-"), Token(TPower, "**"), Token(TMul, "*"));
    assert [minus] + [a] == [minus, a] && [minus] + [b] == [minus, b] &&
      [Token(TPlus, "+")] + [a] == [Token(TPlus, "+"), a];
    MinusReads(p, [a], scope);
    PlusReads(p, [a], scope);
    MinusReads(q, [b], scope);
    assert [a] + [power] + [b] == [a, power, b] && [minus] + [a, power, b] == [minus, a, power, b];
    PowerReads(p, [a], q, [b], scope);
    MinusReads(Raise(p, q), [a, power, b], scope);
    assert [minus, a] + [times] + [b] == [minus, a, times, b] && [a] + [times] + [minus, b] == [a, times, minus, b];
    TimesReads(Prefix(Minus, p), [minus, a], q, [b], scope);
    TimesReads(p, [a], Prefix(Minus, q), [minus, b], scope);
    assert [a] + [power] + [minus, b] == [a, power, minus, b];
    PowerReads(p, [a], Prefix(Minus, q), [minus, b], scope);
  }

  /** Powers group to the right and bind tighter than products on either side. */
  lemma {:induction false} PowersBind(a: Token, b: Token, c: Token, scope: Scope)
    requires IsOperand(a) && IsOperand(b) && IsOperand(c)
    ensures var (x, y, z) := (Operand(a, scope), Operand(b, scope), Operand(c, scope));
            var (power, times) := (Token(TPower, "**"), Token(TMul, "*"));
            Parse([a, power, b, power, c], scope) == Combined(x, Power, Combined(y, Power, z)) &&
            Parse([a, times, b, power, c], scope) == Combined(x, Mult, Combined(y, Power, z)) &&
            Parse([a, power, b, times, c], scope) == Combined(Combined(x, Power, y), Mult, z)
  {
    hide *;
    OperandMeans(a, scope);
    OperandMeans(b, scope);
    OperandMeans(c, scope);
    var (p, q, r) := (OperandCst(a), OperandCst(b), OperandCst(c));
    var (power, times) := (Token(TPower, "**"), Token(TMul, "*"));
    assert [a] + [power] + [b] == [a, power, b] && [b] + [power] + [c] == [b, power, c];
    PowerReads(p, [a], q, [b], scope);
    PowerReads(q, [b], r, [c], scope);
    assert [a] + [power] + [b, power, c] == [a, power, b, power, c];
    PowerReads(p, [a], Raise(q, r), [b, power, c], scope);
    assert [a] + [times] + [b, power, c] == [a, times, b, power, c];
    TimesReads(p, [a], Raise(q, r), [b, power, c], scope);
    assert [a, power, b] + [times] + [c] == [a, power, b, times, c];
    TimesReads(Raise(p, q), [a, power, b], r, [c], scope);
  }

  lemma {:induction false} MinusReads(c: Cst, ts: seq<Token>, scope: Scope)
    requires At(c, UNARY) && TokensOf(c) == ts
    ensures At(Prefix(Minus, c), UNARY) && TokensOf(Prefix(Minus, c)) == [Token(TMinus, "-")] + ts
    ensures Denote(Prefix(Minus, c), scope) == Negated(Denote(c, scope))
    ensures Parse([Token(TMinus, "-")] + ts, scope) == Negated(Denote(c, scope))
  {
    hide Parse, MakeOp;
    ParseFollowsGrammar(Prefix(Minus, c), scope);
  }

  lemma {:induction false} PlusReads(c: Cst, ts: seq<Token>, scope: Scope)
    requires At(c, UNARY) && TokensOf(c) == ts
    ensures Parse([Token(TPlus, "+")] + ts, scope) == Denote(c, scope)
  {
    hide Parse, MakeOp;
    ParseFollowsGrammar(Prefix(Plus, c), scope);
  }

  lemma {:induction false} PowerReads(b: Cst, bs: seq<Token>, x: Cst, xs: seq<Token>, scope: Scope)
    requires At(b, ATOM) && At(x, UNARY) && TokensOf(b) == bs && TokensOf(x) == xs
    ensures var c := Raise(b, x);
            At(c, UNARY) && TokensOf(c) == bs + [Token(TPower, "**")] + xs &&
            Denote(c, scope) == Combined(Denote(b, scope), Power, Denote(x, scope)) &&
            Parse(bs + [Token(TPower, "**")] + xs, scope) == Combined(Denote(b, scope), Power, Denote(x, scope))
  {
    hide Parse, MakeOp;
    ParseFollowsGrammar(Raise(b, x), scope);
  }

  lemma {:induction false} TimesReads(l: Cst, ls: seq<Token>, r: Cst, rs: seq<Token>, scope: Scope)
    requires At(l, UNARY) && At(r, UNARY) && TokensOf(l) == ls && TokensOf(r) == rs
    ensures Parse(ls + [Token(TMul, "*")] + rs, scope) == Combined(Denote(l, scope), Mult, Denote(r, scope))
  {
    hide Parse, MakeOp;
    AtLower(l, UNARY, 5);
    assert At(Binary(l, TMul, r), 0);
    ParseFollowsGrammar(Binary(l, TMul, r), scope);
  }

  /** `!` takes less than a comparison. */
  lemma {:induction false} NotReads(a: Token, b: Token, scope: Scope)
    requires IsOperand(a) && IsOperand(b) && Operand(a, scope).Ok?
    ensures Parse([Token(TNot, "!"), a, Token(TEq, "=="), b], scope) ==
            Combined(Ok(Not(Operand(a, scope).value)), Eq, Operand(b, scope))
  {
    hide Parse, MakeOp, Operand, OperandCst;
    OperandMeans(a, scope);
    OperandMeans(b, scope);
    var (l, r) := (Prefix(LogicNot, OperandCst(a)), OperandCst(b));
    AtLower(l, UNARY, 2);
    AtLower(r, UNARY, 3);
    assert At(Binary(l, TEq, r), 0);
    assert TokensOf(l) == [Token(TNot, "!"), a];
    assert TokensOf(Binary(l, TEq, r)) == [Token(TNot, "!"), a, Token(TEq, "=="), b];
    ParseFollowsGrammar(Binary(l, TEq, r), scope);
  }

  // ------------------------------------------------------------------ parentheses and calls

  /** Parentheses around an expression leave its tree as it is. */
  lemma {:induction false} ParensKeep(ts: seq<Token>, scope: Scope)
    requires Spelled(ts) && Parse(ts, scope).Ok?
    ensures Parse([Token(TLparen, "(")] + ts + [Token(TRparen, ")")], scope) == Parse(ts, scope)
  {
    hide Parse, At, Denote, TokensOf;
    var e := Parse(ts, scope).value;
    ParseIffDerivable(ts, e, scope);
    var c :| Derives(c, ts, e, scope);
    ParenMeans(c, scope);
    ParseFollowsGrammar(Paren(c), scope);
    assert Denote(c, scope) == Ok(e) && TokensOf(c) == ts;
  }

  lemma {:induction false} ParenMeans(c: Cst, scope: Scope)
    requires At(c, 0)
    ensures At(Paren(c), 0) && Denote(Paren(c), scope) == Denote(c, scope)
    ensures TokensOf(Paren(c)) == [Token(TLparen, "(")] + TokensOf(c) + [Token(TRparen, ")")]
  {
  }

  /** Main result: `$clog2`, `$round`, `$ceil`, `$floor` and `$float` take one argument, `$cdiv`
      takes two, in order; any other number is refused. */
  lemma {:induction false} CallsParse(name: string, a: Token, b: Token, scope: Scope)
    requires name in {"clog2", "cdiv", "round", "ceil", "floor", "float"} && IsOperand(a) && IsOperand(b)
    requires Operand(a, scope).Ok? && Operand(b, scope).Ok?
    ensures var f := if name == "clog2" then Clog2 else if name == "cdiv" then Cdiv else if name == "round" then Round
                     else if name == "ceil" then Ceil else if name == "floor" then Floor else ToFloat;
            var (x, y) := (Operand(a, scope).value, Operand(b, scope).value);
            var (open, comma, close) := (Token(TLparen, "("), Token(TComma, ","), Token(TRparen, ")"));
            Parse([Token(TFunc, "$" + name), open, a, close], scope) ==
              (if name == "cdiv" then Err(WrongArity) else Ok(Call(f, [x]))) &&
            Parse([Token(TFunc, "$" + name), open, a, comma, b, close], scope) ==
              (if name == "cdiv" then Ok(Call(f, [x, y])) else Err(WrongArity))
  {
    hide *;
    OperandMeans(a, scope);
    OperandMeans(b, scope);
    var f := FuncNamed(name);
    var (func, open, comma, close) :=
      (Token(TFunc, "$" + name), Token(TLparen, "("), Token(TComma, ","), Token(TRparen, ")"));
    OneArgument(OperandCst(a), a, Operand(a, scope).value, scope);
    CallMeans(name, f, [OperandCst(a)], [a], [Operand(a, scope).value], scope);
    assert [func, open] + [a] + [close] == [func, open, a, close];
    TwoArguments(OperandCst(a), a, Operand(a, scope).value, OperandCst(b), b, Operand(b, scope).value, scope);
    CallMeans(name, f, [OperandCst(a), OperandCst(b)], [a, comma, b],
              [Operand(a, scope).value, Operand(b, scope).value], scope);
    assert [func, open] + [a, comma, b] + [close] == [func, open, a, comma, b, close];
  }

  lemma {:induction false} OneArgument(c: Cst, t: Token, e: Expr, scope: Scope)
    requires TokensOf(c) == [t] && Denote(c, scope) == Ok(e) && At(c, UNARY)
    ensures TokensOfArgs([c]) == [t] && DenoteAll([c], scope) == Ok([e]) && At(c, 0)
  {
    OneArgDenotes(c, e, scope);
    AtLower(c, UNARY, 0);
  }

  lemma {:induction false} TwoArguments(c: Cst, t: Token, e: Expr, d: Cst, u: Token, x: Expr, scope: Scope)
    requires TokensOf(c) == [t] && Denote(c, scope) == Ok(e) && At(c, UNARY)
    requires TokensOf(d) == [u] && Denote(d, scope) == Ok(x) && At(d, UNARY)
    ensures TokensOfArgs([c, d]) == [t, Token(TComma, ","), u] && DenoteAll([c, d], scope) == Ok([e, x])
    ensures At(c, 0) && At(d, 0)
  {
    hide TokensOf, Denote;
    var cs := [c, d];
    assert cs[1..] == [d];
    OneArgument(c, t, e, scope);
    OneArgument(d, u, x, scope);
    assert [e] + [x] == [e, x];
    assert [t] + [Symbol(TComma)] + [u] == [t, Token(TComma, ","), u];
  }

  /** Any other function is unknown. */
  lemma {:induction false} OtherFunctions(name: string, a: Token, scope: Scope)
    requires name !in {"clog2", "cdiv", "round", "ceil", "floor", "float"} && IsOperand(a)
    ensures Parse([Token(TFunc, "$" + name), Token(TLparen, "("), a, Token(TRparen, ")")], scope) ==
              Err(UnknownFunction)
  {
    hide Parse, OperandCst, TokensOf, At;
    var c := Apply(name, [OperandCst(a)]);
    AtLower(OperandCst(a), UNARY, 0);
    OtherCall(name, OperandCst(a), a);
    ParseFollowsGrammar(c, scope);
  }

  lemma {:induction false} OtherCall(name: string, c: Cst, t: Token)
    requires TokensOf(c) == [t] && At(c, 0)
    ensures At(Apply(name, [c]), 0)
    ensures TokensOf(Apply(name, [c])) == [Token(TFunc, "$" + name), Token(TLparen, "("), t, Token(TRparen, ")")]
  {
    assert TokensOfArgs([c]) == [t];
  }

  lemma {:induction false} FuncNamed(name: string) returns (f: Func)
    requires name in {"clog2", "cdiv", "round", "ceil", "floor", "float"}
    ensures FuncOf(name) == Some(f) && Arity(f) == if name == "cdiv" then 2 else 1
    ensures f == if name == "clog2" then Clog2 else if name == "cdiv" then Cdiv else if name == "round" then Round
                 else if name == "ceil" then Ceil else if name == "floor" then Floor else ToFloat
  {
    f := FuncOf(name).value;
  }

  lemma {:induction false} CallMeans(name: string, f: Func, args: seq<Cst>, ts: seq<Token>, es: seq<Expr>, scope: Scope)
    requires args != [] && (forall i :: 0 <= i < |args| ==> At(args[i], 0))
    requires TokensOfArgs(args) == ts && DenoteAll(args, scope) == Ok(es) && FuncOf(name) == Some(f)
    ensures Parse([Token(TFunc, "$" + name), Token(TLparen, "(")] + ts + [Token(TRparen, ")")], scope) ==
            if |es| == Arity(f) then Ok(Call(f, es)) else Err(WrongArity)
  {
    hide Parse, Arity, FuncOf;
    ParseFollowsGrammar(Apply(name, args), scope);
  }

  // ------------------------------------------------------------------ the text of tokens

  /** Main result: each symbol is read as its token, the two-character ones whole. */
  lemma {:induction false} SymbolsLex(text: string, kind: Kind)
    requires IsShort(text, kind) || IsLong(text, kind)
    ensures Lex(text) == Ok([Token(kind, text)])
  {
    hide Lex, IsShort, IsLong, LongSymbol, ShortSymbol, OpenSymbol, MatchToken;
    if IsLong(text, kind) {
      LongIs(text, kind);
    } else {
      ShortIs(text, kind);
    }
    OnlySymbol(text);
    AloneLexes(text, kind);
  }

  predicate IsShort(text: string, kind: Kind) {
    match kind
    case TPlus => text == "+" case TMinus => text == "-" case TMul => text == "*" case TDiv => text == "/"
    case TMod => text == "%" case TLt => text == "<" case TGt => text == ">" case TNot => text == "!"
    case TLparen => text == "(" case TRparen => text == ")" case TComma => text == ","
    case _ => false
  }

  predicate IsLong(text: string, kind: Kind) {
    match kind
    case TPower => text == "**" case TEq => text == "==" case TNe => text == "!=" case TLe => text == "<="
    case TGe => text == ">=" case TLand => text == "&&" case TLor => text == "||"
    case _ => false
  }

  lemma {:induction false} ShortIs(text: string, kind: Kind)
    requires IsShort(text, kind)
    ensures |text| == 1 && ShortSymbol(text[0]) == Some(kind) && OpenSymbol(text[0])
  {
  }

  lemma {:induction false} LongIs(text: string, kind: Kind)
    requires IsLong(text, kind)
    ensures |text| == 2 && LongSymbol(text) == Some(kind) && OpenSymbol(text[0])
  {
    assert text[..2] == text;
  }

  lemma {:induction false} AloneLexes(text: string, kind: Kind)
    requires text != [] && !kind.TSkip? && MatchToken(text) == Some((kind, |text|))
    ensures Lex(text) == Ok([Token(kind, text)])
  {
    hide MatchToken;
    assert text + [] == text;
    LexStep(text, kind, []);
    LexEnd([], []);
    PrependNothing(Lex([]));
    assert [Token(kind, text)] + [] == [Token(kind, text)];
  }

  /** Main result: letters, digits and underscores that do not start with a digit are one name,
      a `$` in front makes it a function, digits are one number, and blanks, tabs and line
      ends nothing at all. */
  lemma {:induction false} WordsLex(s: string)
    requires s != []
    ensures (forall i :: 0 <= i < |s| ==> 'A' <= s[i] <= 'Z' || 'a' <= s[i] <= 'z' || s[i] == '_' ||
                                          (i > 0 && '0' <= s[i] <= '9')) ==>
              Lex(s) == Ok([Token(TName, s)]) && Lex("$" + s) == Ok([Token(TFunc, "$" + s)])
    ensures (forall i :: 0 <= i < |s| ==> '0' <= s[i] <= '9') ==> Lex(s) == Ok([Token(TNumber, s)])
    ensures (forall i :: 0 <= i < |s| ==> s[i] in {' ', '\t', '\n', '\r'}) ==> Lex(s) == Ok([])
  {
    hide Lex, Run, SymbolKind;
    if forall i :: 0 <= i < |s| ==> 'A' <= s[i] <= 'Z' || 'a' <= s[i] <= 'z' || s[i] == '_' ||
                                    (i > 0 && '0' <= s[i] <= '9') {
      WholeRun(s, IsNameChar);
      AloneLexes(s, TName);
      assert ("$" + s)[1..] == s;
      AloneLexes("$" + s, TFunc);
    } else if forall i :: 0 <= i < |s| ==> '0' <= s[i] <= '9' {
      WholeRun(s, IsDigit);
      AloneLexes(s, TNumber);
    } else if forall i :: 0 <= i < |s| ==> s[i] in {' ', '\t', '\n', '\r'} {
      WholeRun(s, IsSpace);
      NoRun(s, IsDigit);
      BlankLexes(s);
    }
  }

  /** A name ends at the first character that is no letter, digit or underscore, a number at the
      first that is no digit, unless that is a point. */
  lemma {:induction false} WordsEnd(s: string, c: char, more: string)
    requires s != [] && !('A' <= c <= 'Z' || 'a' <= c <= 'z' || c == '_' || '0' <= c <= '9')
    ensures (forall i :: 0 <= i < |s| ==> 'A' <= s[i] <= 'Z' || 'a' <= s[i] <= 'z' || s[i] == '_' ||
                                          (i > 0 && '0' <= s[i] <= '9')) ==>
              Lex(s + ([c] + more)) == Prepend([Token(TName, s)], Lex([c] + more))
    ensures (forall i :: 0 <= i < |s| ==> '0' <= s[i] <= '9') && c != '.' ==>
              Lex(s + ([c] + more)) == Prepend([Token(TNumber, s)], Lex([c] + more))
  {
    hide Lex, Run, SymbolKind;
    if forall i :: 0 <= i < |s| ==> 'A' <= s[i] <= 'Z' || 'a' <= s[i] <= 'z' || s[i] == '_' ||
                                    (i > 0 && '0' <= s[i] <= '9') {
      RunOf(s, [c] + more, IsNameChar);
      LexStep(s, TName, [c] + more);
    } else if (forall i :: 0 <= i < |s| ==> '0' <= s[i] <= '9') && c != '.' {
      RunOf(s, [c] + more, IsDigit);
      LexStep(s, TNumber, [c] + more);
    }
  }

  /** Any other character is refused; `=`, `&` and `|` need their double. */
  lemma {:induction false} StrayCharacters(c: char, s: string)
    requires !('A' <= c <= 'Z' || 'a' <= c <= 'z' || c == '_' || '0' <= c <= '9')
    requires c !in {'+', '-', '*', '/', '%', '<', '>', '!', '(', ')', ',', '$', '.', ' ', '\t', '\n', '\r'}
    ensures !(c in {'=', '&', '|'} && s != [] && s[0] == c) ==> Lex([c] + s) == Err(UnexpectedChar)
  {
    hide Run;
    var t := [c] + s;
    NoRun(t, IsDigit);
    if s != [] {
      assert t[..2] == [c, s[0]];
    }
    assert !(c in {'=', '&', '|'} && s != [] && s[0] == c) ==> SymbolKind(t).None?;
  }

  /** Digits around a point are one float, with none on at most one side; a float is no int. */
  lemma {:induction false} FloatsLex(a: string, b: string, scope: Scope)
    requires forall i :: 0 <= i < |a| ==> '0' <= a[i] <= '9'
    requires forall i :: 0 <= i < |b| ==> '0' <= b[i] <= '9'
    requires a != [] || b != []
    ensures Lex(a + ("." + b)) == Ok([Token(TFloat, a + ("." + b))])
    ensures ParseText(a + ("." + b), scope) == Err(FloatValue)
  {
    hide Lex, Run, SymbolKind, Parse;
    var s := a + ("." + b);
    RunOf(a, "." + b, IsDigit);
    assert s[|a| + 1..] == b;
    WholeRun(b, IsDigit);
    AloneLexes(s, TFloat);
    FloatParses(s, scope);
  }

  lemma {:induction false} FloatParses(s: string, scope: Scope)
    ensures Parse([Token(TFloat, s)], scope) == Err(FloatValue)
  {
    var ts := [Token(TFloat, s)];
    FloatFactor(ts, scope);
    hide ParseLevel, ParseLoop, ParseFactor;
    LevelSteps(ts, UNARY, scope);
    LevelSteps(ts, 5, scope);
    LevelSteps(ts, 4, scope);
    LevelSteps(ts, 3, scope);
    LevelSteps(ts, 2, scope);
    LevelSteps(ts, 1, scope);
    LevelSteps(ts, 0, scope);
  }

  lemma {:induction false} FloatFactor(ts: seq<Token>, scope: Scope)
    requires ts != [] && ts[0].kind == TFloat
    ensures ParseFactor(ts, scope) == Err(FloatValue)
  {
    assert ParseAtom(ts, scope) == Err(FloatValue);
    assert ParsePower(ts, scope) == Err(FloatValue);
  }

  lemma {:induction false} WholeRun(s: string, p: char -> bool)
    requires forall i :: 0 <= i < |s| ==> p(s[i])
    ensures Run(s, p) == |s|
  {
    RunOf(s, [], p);
    assert s + [] == s;
  }

  lemma {:induction false} NoRun(s: string, p: char -> bool)
    requires s != [] && !p(s[0])
    ensures Run(s, p) == 0
  {
  }

  lemma {:induction false} BlankLexes(s: string)
    requires s != [] && MatchToken(s) == Some((TSkip, |s|))
    ensures Lex(s) == Ok([])
  {
    hide MatchToken;
    LexEnd(s[|s|..], []);
    PrependNothing(Lex(s[|s|..]));
  }

  /** A decimal literal: the last digit is worth its distance from `0`, every other place ten
      times the place behind it. */
  lemma {:induction false} DecimalDigits(s: string, d: char)
    ensures Decimal([]) == 0 && Decimal(s + [d]) == 10 * Decimal(s) + (d as int - 48)
  {
    assert (s + [d])[..|s|] == s;
  }

  /** A name stands for the register value, for its entry in the table, or for nothing. */
  lemma {:induction false} NamesLookUp(name: string, scope: Scope)
    ensures Parse([Token(TName, name)], scope) ==
            if name == "v" && scope.hasV then Ok(V)
            else if name in scope.table then Ok(scope.table[name]) else Err(UnknownName)
  {
    hide Parse;
    OneOperand(Token(TName, name), scope);
  }

  /** `v` is the register value wherever there is one, whatever the table has under that name. */
  lemma {:induction false} ValueComesFirst(table: map<string, Expr>)
    ensures ParseText("v", Scope(table, true)) == Ok(V)
    ensures ParseText("v", Scope(table, false)) == if "v" in table then Ok(table["v"]) else Err(UnknownName)
  {
    hide Lex, Parse, Spelling;
    WordsLex("v");
    OneOperand(Token(TName, "v"), Scope(table, true));
    OneOperand(Token(TName, "v"), Scope(table, false));
  }

  /** 1+2*v is 1 plus a product. */
  lemma {:induction false} SumOfProduct()
    ensures ParseText("1+2*v", Scope(map[], true)) == Ok(Op(Num(1), Add, Op(Num(2), Mult, V)))
  {
    hide *;
    var scope := Scope(map[], true);
    var (one, two, v) := (Token(TNumber, "1"), Token(TNumber, "2"), Token(TName, "v"));
    SumLexes();
    SumOperands();
    SumMeans();
    ThreeOperands(one, TPlus, two, TMul, v, scope);
  }

  lemma {:induction false} SumLexes()
    ensures Lex("1+2*v") ==
              Ok([Token(TNumber, "1"), Symbol(TPlus), Token(TNumber, "2"), Symbol(TMul), Token(TName, "v")])
    ensures ParseText("1+2*v", Scope(map[], true)) ==
            Parse([Token(TNumber, "1"), Symbol(TPlus), Token(TNumber, "2"), Symbol(TMul), Token(TName, "v")],
                  Scope(map[], true))
  {
    hide Lex, Parse, MatchToken;
    var (one, two, v) := (Token(TNumber, "1"), Token(TNumber, "2"), Token(TName, "v"));
    assert "1+2*v" == "1" + ("+" + ("2" + ("*" + "v")));
    DigitLexes("1", "+" + ("2" + ("*" + "v")));
    ShortLexes("+", TPlus, "2" + ("*" + "v"));
    DigitLexes("2", "*" + "v");
    ShortLexes("*", TMul, "v");
    WordsLex("v");
    FiveTokens(one, Token(TPlus, "+"), two, Token(TMul, "*"), v);
    assert Symbol(TPlus) == Token(TPlus, "+") && Symbol(TMul) == Token(TMul, "*");
  }

  lemma {:induction false} SumOperands()
    ensures Operand(Token(TNumber, "1"), Scope(map[], true)) == Ok(Num(1))
    ensures Operand(Token(TNumber, "2"), Scope(map[], true)) == Ok(Num(2))
    ensures Operand(Token(TName, "v"), Scope(map[], true)) == Ok(V)
  {
    DecimalDigits([], '1');
    DecimalDigits([], '2');
    assert [] + ['1'] == "1" && [] + ['2'] == "2";
  }

  lemma {:induction false} SumMeans()
    ensures IsOperator(TPlus) && IsOperator(TMul) && Tightness(TPlus) < Tightness(TMul)
    ensures Combined(Ok(Num(1)), Operator(TPlus), Combined(Ok(Num(2)), Operator(TMul), Ok(V))) ==
            Ok(Op(Num(1), Add, Op(Num(2), Mult, V)))
    ensures IsOperand(Token(TNumber, "1")) && IsOperand(Token(TNumber, "2")) && IsOperand(Token(TName, "v"))
  {
  }

  lemma {:induction false} DigitLexes(d: string, s: string)
    requires |d| == 1 && IsDigit(d[0]) && s != [] && !IsDigit(s[0]) && s[0] != '.'
    ensures Lex(d + s) == Prepend([Token(TNumber, d)], Lex(s))
  {
    hide Lex, SymbolKind;
    RunOf(d, s, IsDigit);
    LexStep(d, TNumber, s);
  }

  lemma {:induction false} ShortLexes(text: string, kind: Kind, s: string)
    requires (text, kind) in {("+", TPlus), ("*", TMul)} && s != [] && s[0] != '*'
    ensures Lex(text + s) == Prepend([Token(kind, text)], Lex(s))
  {
    hide Lex;
    OnlySymbol(text + s);
    assert (text + s)[..2] == [text[0], s[0]];
    assert (text + s)[0] == text[0];
    LexStep(text, kind, s);
  }

  lemma {:induction false} FiveTokens(a: Token, b: Token, c: Token, d: Token, e: Token)
    ensures Prepend([a], Prepend([b], Prepend([c], Prepend([d], Ok([e]))))) == Ok([a, b, c, d, e])
  {
    assert [d] + [e] == [d, e] && [c] + [d, e] == [c, d, e];
    assert [b] + [c, d, e] == [b, c, d, e] && [a] + [b, c, d, e] == [a, b, c, d, e];
  }
}
