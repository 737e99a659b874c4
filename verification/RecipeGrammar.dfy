/** The grammar of recipe expressions: tokens, concrete syntax trees with their precedence
    levels, and what a concrete syntax tree denotes. It is the reference the parser is
    proved against, and it says nothing about cursors or loops. */
module RecipeGrammar {
  import opened Wrappers
  import opened RecipeTree

  datatype Kind =
    | TName | TFunc | TFloat | TNumber
    | TPower | TEq | TNe | TLe | TGe | TLand | TLor
    | TPlus | TMinus | TMul | TDiv | TMod | TLt | TGt | TNot
    | TLparen | TRparen | TComma
    | TSkip

  datatype Token = Token(kind: Kind, text: string)

  /** The names an expression may use: a table of recipe values, and whether the register
      value `v` is a parameter. */
  datatype Scope = Scope(table: map<string, Expr>, hasV: bool)

  const VALUE_PARAM: string := "v"

  function Lookup(scope: Scope, name: string): Result<Expr, Error> {
    if scope.hasV && name == VALUE_PARAM then Ok(V)
    else if name in scope.table then Ok(scope.table[name])
    else Err(UnknownName)
  }

  function FuncOf(name: string): Option<Func> {
    if name == "clog2" then Some(Clog2)
    else if name == "cdiv" then Some(Cdiv)
    else if name == "round" then Some(Round)
    else if name == "ceil" then Some(Ceil)
    else if name == "floor" then Some(Floor)
    else if name == "float" then Some(ToFloat)
    else None
  }

  /** The value of a decimal literal. */
  function Decimal(digits: string): int {
    if digits == [] then 0 else 10 * Decimal(digits[..|digits| - 1]) + (digits[|digits| - 1] as int - '0' as int)
  }

  predicate IsDigit(c: char) {
    '0' <= c <= '9'
  }

  predicate IsNameStart(c: char) {
    'A' <= c <= 'Z' || 'a' <= c <= 'z' || c == '_'
  }

  predicate IsNameChar(c: char) {
    IsNameStart(c) || IsDigit(c)
  }

  predicate ValidName(name: string) {
    name != [] && IsNameStart(name[0]) && forall i :: 0 <= i < |name| ==> IsNameChar(name[i])
  }

  /** The operator of an infix token with its precedence level: 0 binds weakest. Power is
      not here, it binds tighter than the unary operators. */
  function Infix(kind: Kind): Option<(nat, BinOp)> {
    match kind
    case TLor => Some((0, LOr))
    case TLand => Some((1, LAnd))
    case TEq => Some((2, Eq))
    case TNe => Some((2, Ne))
    case TLt => Some((3, Lt))
    case TLe => Some((3, Le))
    case TGt => Some((3, Gt))
    case TGe => Some((3, Ge))
    case TPlus => Some((4, Add))
    case TMinus => Some((4, Sub))
    case TMul => Some((5, Mult))
    case TDiv => Some((5, Div))
    case TMod => Some((5, Mod))
    case _ => None
  }

  const UNARY: nat := 6
  const POWER: nat := 7
  const ATOM: nat := 8

  datatype Unary = Minus | Plus | LogicNot

  datatype Cst =
    | Literal(digits: string)
    | Ident(name: string)
    | Paren(inner: Cst)
    | Apply(func: string, args: seq<Cst>)
    | Raise(base: Cst, exp: Cst)
    | Prefix(sign: Unary, arg: Cst)
    | Binary(lhs: Cst, kind: Kind, rhs: Cst)

  /** c may stand where the grammar asks for precedence level lvl. Infix operators group to
      the left; the exponent of a power may carry a sign, its base may not. */
  predicate At(c: Cst, lvl: nat)
    decreases c
  {
    match c
    case Literal(_) => lvl <= ATOM
    case Ident(_) => lvl <= ATOM
    case Paren(inner) => lvl <= ATOM && At(inner, 0)
    case Apply(_, args) => lvl <= ATOM && args != [] && forall i :: 0 <= i < |args| ==> At(args[i], 0)
    case Raise(base, exp) => lvl <= POWER && At(base, ATOM) && At(exp, UNARY)
    case Prefix(_, arg) => lvl <= UNARY && At(arg, UNARY)
    case Binary(l, kind, r) =>
      Infix(kind).Some? && lvl <= Infix(kind).value.0 &&
      At(l, Infix(kind).value.0) && At(r, Infix(kind).value.0 + 1)
  }

  /** The tokens of one symbol, with its spelling. */
  function Symbol(kind: Kind): Token {
    Token(kind, Spelling(kind))
  }

  function Spelling(kind: Kind): string {
    match kind
    case TPower => "**" case TEq => "==" case TNe => "!=" case TLe => "<=" case TGe => ">="
    case TLand => "&&" case TLor => "||" case TPlus => "+" case TMinus => "-"
    case TMul => "*" case TDiv => "/" case TMod => "%" case TLt => "<" case TGt => ">"
    case TNot => "!" case TLparen => "(" case TRparen => ")" case TComma => ","
    case _ => ""
  }

  function SignKind(u: Unary): Kind {
    match u
    case Minus => TMinus
    case Plus => TPlus
    case LogicNot => TNot
  }

  function TokensOf(c: Cst): (ts: seq<Token>)
    ensures ts != []
    decreases c
  {
    match c
    case Literal(digits) => [Token(TNumber, digits)]
    case Ident(name) => [Token(TName, name)]
    case Paren(inner) => [Symbol(TLparen)] + TokensOf(inner) + [Symbol(TRparen)]
    case Apply(func, args) => [Token(TFunc, "$" + func), Symbol(TLparen)] + TokensOfArgs(args) + [Symbol(TRparen)]
    case Raise(base, exp) => TokensOf(base) + [Symbol(TPower)] + TokensOf(exp)
    case Prefix(sign, arg) => [Symbol(SignKind(sign))] + TokensOf(arg)
    case Binary(l, kind, r) => TokensOf(l) + [Symbol(kind)] + TokensOf(r)
  }

  function TokensOfArgs(args: seq<Cst>): seq<Token>
    decreases args
  {
    if args == [] then []
    else if |args| == 1 then TokensOf(args[0])
    else TokensOf(args[0]) + [Symbol(TComma)] + TokensOfArgs(args[1..])
  }

  /** The tree a concrete syntax tree stands for, errors in reading order. */
  function Denote(c: Cst, scope: Scope): Result<Expr, Error>
    decreases c
  {
    match c
    case Literal(digits) => Ok(Num(Decimal(digits)))
    case Ident(name) => Lookup(scope, name)
    case Paren(inner) => Denote(inner, scope)
    case Apply(func, args) =>
      var f := FuncOf(func);
      if f.None? then Err(UnknownFunction)
      else
        var es :- DenoteAll(args, scope);
        if |es| != Arity(f.value) then Err(WrongArity) else Ok(Call(f.value, es))
    case Raise(base, exp) =>
      var b :- Denote(base, scope);
      var e :- Denote(exp, scope);
      MakeOp(b, Power, e)
    case Prefix(sign, arg) =>
      var a :- Denote(arg, scope);
      (match sign
       case Minus => MakeOp(Num(0), Sub, a)
       case Plus => Ok(a)
       case LogicNot => Ok(Not(a)))
    case Binary(l, kind, r) =>
      var a :- Denote(l, scope);
      var b :- Denote(r, scope);
      if Infix(kind).None? then Err(UnexpectedToken) else MakeOp(a, Infix(kind).value.1, b)
  }

  function DenoteAll(cs: seq<Cst>, scope: Scope): (r: Result<seq<Expr>, Error>)
    ensures r.Ok? ==> |r.value| == |cs|
    decreases cs
  {
    if cs == [] then Ok([])
    else
      var e :- Denote(cs[0], scope);
      var es :- DenoteAll(cs[1..], scope);
      Ok([e] + es)
  }

  /** The value of a concrete syntax tree, read off the text with no folding anywhere. */
  function Value(c: Cst, scope: Scope, env: Env): Option<int>
    decreases c
  {
    match c
    case Literal(digits) => Some(Decimal(digits))
    case Ident(name) => if Lookup(scope, name).Ok? then Eval(Lookup(scope, name).value, env) else None
    case Paren(inner) => Value(inner, scope, env)
    case Apply(func, args) => if FuncOf(func).None? then None
      else EvalCall(FuncOf(func).value, ValueAll(args, scope, env))
    case Raise(base, exp) => EvalOp(Power, Value(base, scope, env), Value(exp, scope, env))
    case Prefix(sign, arg) =>
      (match sign
       case Minus => EvalOp(Sub, Some(0), Value(arg, scope, env))
       case Plus => Value(arg, scope, env)
       case LogicNot => EvalNot(Value(arg, scope, env)))
    case Binary(l, kind, r) =>
      if Infix(kind).None? then None
      else EvalOp(Infix(kind).value.1, Value(l, scope, env), Value(r, scope, env))
  }

  function ValueAll(cs: seq<Cst>, scope: Scope, env: Env): (vs: seq<Option<int>>)
    ensures |vs| == |cs|
    decreases cs
  {
    if cs == [] then [] else [Value(cs[0], scope, env)] + ValueAll(cs[1..], scope, env)
  }

  /** Folding never changes what an expression means: the tree has the value of the text,
      for every register value and every assignment of the recipe names. */
  lemma {:induction false} DenoteKeepsValue(c: Cst, scope: Scope, env: Env)
    requires Denote(c, scope).Ok?
    ensures Eval(Denote(c, scope).value, env) == Value(c, scope, env)
    decreases c
  {
    match c
    case Literal(_) =>
    case Ident(_) =>
    case Paren(inner) => DenoteKeepsValue(inner, scope, env);
    case Apply(func, args) => DenoteAllKeepsValues(args, scope, env);
    case Raise(base, exp) =>
      DenoteKeepsValue(base, scope, env);
      DenoteKeepsValue(exp, scope, env);
      FoldKeepsValue(Denote(base, scope).value, Power, Denote(exp, scope).value, env);
    case Prefix(sign, arg) =>
      DenoteKeepsValue(arg, scope, env);
      if sign.Minus? {
        FoldKeepsValue(Num(0), Sub, Denote(arg, scope).value, env);
      }
    case Binary(l, kind, r) =>
      DenoteKeepsValue(l, scope, env);
      DenoteKeepsValue(r, scope, env);
      FoldKeepsValue(Denote(l, scope).value, Infix(kind).value.1, Denote(r, scope).value, env);
  }

  lemma {:induction false} DenoteAllKeepsValues(cs: seq<Cst>, scope: Scope, env: Env)
    requires DenoteAll(cs, scope).Ok?
    ensures EvalAll(DenoteAll(cs, scope).value, env) == ValueAll(cs, scope, env)
    decreases cs
  {
    if cs != [] {
      DenoteKeepsValue(cs[0], scope, env);
      DenoteAllKeepsValues(cs[1..], scope, env);
    }
  }

  /** A scope whose names stand for ints or for themselves, so that no lookup brings in an
      operation. */
  predicate LeafScope(scope: Scope) {
    forall name :: name in scope.table ==> scope.table[name].Num? || scope.table[name] == K(name)
  }

  /** What is parsed is in normal form. */
  lemma {:induction false} DenoteIsNormal(c: Cst, scope: Scope)
    requires LeafScope(scope) && Denote(c, scope).Ok?
    ensures Normal(Denote(c, scope).value)
    decreases c
  {
    match c
    case Literal(_) =>
    case Ident(_) =>
    case Paren(inner) => DenoteIsNormal(inner, scope);
    case Apply(func, args) => DenoteAllIsNormal(args, scope);
    case Raise(base, exp) =>
      DenoteIsNormal(base, scope);
      DenoteIsNormal(exp, scope);
      FoldIsNormal(Denote(base, scope).value, Power, Denote(exp, scope).value);
    case Prefix(sign, arg) =>
      DenoteIsNormal(arg, scope);
      if sign.Minus? {
        FoldIsNormal(Num(0), Sub, Denote(arg, scope).value);
      }
    case Binary(l, kind, r) =>
      DenoteIsNormal(l, scope);
      DenoteIsNormal(r, scope);
      FoldIsNormal(Denote(l, scope).value, Infix(kind).value.1, Denote(r, scope).value);
  }

  lemma {:induction false} DenoteAllIsNormal(cs: seq<Cst>, scope: Scope)
    requires LeafScope(scope) && DenoteAll(cs, scope).Ok?
    ensures forall i :: 0 <= i < |cs| ==> Normal(DenoteAll(cs, scope).value[i])
    decreases cs
  {
    if cs != [] {
      DenoteIsNormal(cs[0], scope);
      DenoteAllIsNormal(cs[1..], scope);
    }
  }
}
