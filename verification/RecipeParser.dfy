/** The recursive-descent parser of recipe expressions: the cursor-moving class, the
    function it computes, and the proof that it accepts exactly the grammar. */
module RecipeParser {
  import opened Wrappers
  import opened RecipeTree
  import opened RecipeGrammar

  /** A parsed tree with the tokens after it. */
  type Parsed = Result<(Expr, seq<Token>), Error>

  predicate Infixed(ts: seq<Token>, lvl: nat) {
    ts != [] && Infix(ts[0].kind).Some? && Infix(ts[0].kind).value.0 == lvl
  }

  function ParseLevel(ts: seq<Token>, lvl: nat, scope: Scope): (r: Parsed)
    requires lvl <= UNARY
    ensures r.Ok? ==> |r.value.1| < |ts|
    decreases |ts|, 12 - lvl
  {
    if lvl == UNARY then ParseFactor(ts, scope)
    else
      var (node, rest) :- ParseLevel(ts, lvl + 1, scope);
      ParseLoop(node, rest, lvl, scope)
  }

  /** The loop of one infix level: `node` is what the level has parsed so far. */
  function ParseLoop(node: Expr, ts: seq<Token>, lvl: nat, scope: Scope): (r: Parsed)
    requires lvl < UNARY
    ensures r.Ok? ==> |r.value.1| <= |ts|
    decreases |ts|, 12
  {
    if !Infixed(ts, lvl) then Ok((node, ts))
    else
      var (rhs, rest) :- ParseLevel(ts[1..], lvl + 1, scope);
      var joined :- MakeOp(node, Infix(ts[0].kind).value.1, rhs);
      ParseLoop(joined, rest, lvl, scope)
  }

  function ParseFactor(ts: seq<Token>, scope: Scope): (r: Parsed)
    ensures r.Ok? ==> |r.value.1| < |ts|
    decreases |ts|, 5
  {
    if ts != [] && ts[0].kind.TMinus? then
      var (a, rest) :- ParseFactor(ts[1..], scope);
      var e :- MakeOp(Num(0), Sub, a);
      Ok((e, rest))
    else if ts != [] && ts[0].kind.TPlus? then
      ParseFactor(ts[1..], scope)
    else if ts != [] && ts[0].kind.TNot? then
      var (a, rest) :- ParseFactor(ts[1..], scope);
      Ok((Not(a), rest))
    else
      ParsePower(ts, scope)
  }

  function ParsePower(ts: seq<Token>, scope: Scope): (r: Parsed)
    ensures r.Ok? ==> |r.value.1| < |ts|
    decreases |ts|, 4
  {
    var (base, rest) :- ParseAtom(ts, scope);
    if rest != [] && rest[0].kind.TPower? then
      var (exp, rest') :- ParseFactor(rest[1..], scope);
      var e :- MakeOp(base, Power, exp);
      Ok((e, rest'))
    else
      Ok((base, rest))
  }

  function Expect(ts: seq<Token>, kind: Kind): (r: Result<seq<Token>, Error>)
    ensures r.Ok? ==> |r.value| < |ts|
  {
    if ts != [] && ts[0].kind == kind then Ok(ts[1..]) else Err(Expected)
  }

  function ParseAtom(ts: seq<Token>, scope: Scope): (r: Parsed)
    ensures r.Ok? ==> |r.value.1| < |ts|
    decreases |ts|, 3
  {
    if ts == [] then Err(UnexpectedEnd)
    else
      match ts[0].kind
      case TNumber => Ok((Num(Decimal(ts[0].text)), ts[1..]))
      case TFloat => Err(FloatValue)
      case TName =>
        var e :- Lookup(scope, ts[0].text);
        Ok((e, ts[1..]))
      case TLparen =>
        var (e, rest) :- ParseLevel(ts[1..], 0, scope);
        var rest' :- Expect(rest, TRparen);
        Ok((e, rest'))
      case TFunc =>
        var f := FuncOf(FuncName(ts[0].text));
        if f.None? then Err(UnknownFunction)
        else
          var open :- Expect(ts[1..], TLparen);
          var (args, rest) :- ParseArgs(open, scope);
          var rest' :- Expect(rest, TRparen);
          if |args| != Arity(f.value) then Err(WrongArity) else Ok((Call(f.value, args), rest'))
      case _ => Err(UnexpectedToken)
  }

  function FuncName(text: string): string {
    if text == [] then [] else text[1..]
  }

  function ParseArgs(ts: seq<Token>, scope: Scope): (r: Result<(seq<Expr>, seq<Token>), Error>)
    ensures r.Ok? ==> |r.value.1| < |ts|
    decreases |ts|, 13
  {
    var (e, rest) :- ParseLevel(ts, 0, scope);
    if rest != [] && rest[0].kind.TComma? then
      var (es, rest') :- ParseArgs(rest[1..], scope);
      Ok(([e] + es, rest'))
    else
      Ok(([e], rest))
  }

  /** The tree of a whole token list. */
  function Parse(ts: seq<Token>, scope: Scope): Result<Expr, Error> {
    var (e, rest) :- ParseLevel(ts, 0, scope);
    if rest != [] then Err(Trailing) else Ok(e)
  }

  // ------------------------------------------------------------------ completeness

  /** No token at the head of ts would be taken into an operand of level lvl. */
  predicate Stops(ts: seq<Token>, lvl: nat) {
    ts == [] ||
    (!ts[0].kind.TPower? && (Infix(ts[0].kind).Some? ==> Infix(ts[0].kind).value.0 < lvl))
  }

  predicate Carries(r: Parsed, d: Result<Expr, Error>, rest: seq<Token>) {
    match d
    case Ok(e) => r == Ok((e, rest))
    case Err(x) => r == Err(x)
  }

  /** What ParseLevel gives on the tokens of c once they are read: the loop goes on after
      them. */
  function After(d: Result<Expr, Error>, rest: seq<Token>, lvl: nat, scope: Scope): Parsed
    requires lvl <= UNARY
  {
    var e :- d;
    if lvl == UNARY then Ok((e, rest)) else ParseLoop(e, rest, lvl, scope)
  }

  lemma {:induction false} LevelReads(c: Cst, rest: seq<Token>, lvl: nat, scope: Scope)
    requires lvl <= UNARY && At(c, lvl) && Stops(rest, lvl + 1)
    ensures ParseLevel(TokensOf(c) + rest, lvl, scope) == After(Denote(c, scope), rest, lvl, scope)
    decreases c, 12 - lvl
  {
    hide ParseLevel, ParseLoop, ParseFactor, TokensOf, Denote, After;
    if lvl == UNARY {
      FactorReads(c, rest, scope);
      UnaryOver(TokensOf(c) + rest, Denote(c, scope), rest, scope);
    } else if c.Binary? && Infix(c.kind).value.0 == lvl {
      LevelReads(c.lhs, [Symbol(c.kind)] + (TokensOf(c.rhs) + rest), lvl, scope);
      LevelReads(c.rhs, rest, lvl + 1, scope);
      LoopEnds(c.rhs, rest, lvl + 1, scope);
      BinaryReads(c, rest, lvl, scope);
    } else {
      LevelReads(c, rest, lvl + 1, scope);
      LoopEnds(c, rest, lvl + 1, scope);
      LevelOver(TokensOf(c) + rest, lvl, Denote(c, scope), rest, scope);
    }
  }

  lemma {:induction false} UnaryOver(ts: seq<Token>, d: Result<Expr, Error>, rest: seq<Token>, scope: Scope)
    requires Carries(ParseFactor(ts, scope), d, rest)
    ensures ParseLevel(ts, UNARY, scope) == After(d, rest, UNARY, scope)
  {
  }

  lemma {:induction false} BinaryReads(c: Cst, rest: seq<Token>, lvl: nat, scope: Scope)
    requires c.Binary? && lvl < UNARY && Infix(c.kind).Some? && Infix(c.kind).value.0 == lvl
    requires var tail := [Symbol(c.kind)] + (TokensOf(c.rhs) + rest);
             ParseLevel(TokensOf(c.lhs) + tail, lvl, scope) == After(Denote(c.lhs, scope), tail, lvl, scope)
    requires Carries(ParseLevel(TokensOf(c.rhs) + rest, lvl + 1, scope), Denote(c.rhs, scope), rest)
    ensures ParseLevel(TokensOf(c) + rest, lvl, scope) == After(Denote(c, scope), rest, lvl, scope)
  {
    Regroup(TokensOf(c.lhs), Symbol(c.kind), TokensOf(c.rhs), rest);
    if Denote(c.lhs, scope).Ok? {
      LoopStep(Denote(c.lhs, scope).value, c.kind, TokensOf(c.rhs) + rest, rest, lvl, Denote(c.rhs, scope), scope);
    }
  }

  lemma {:induction false} Regroup(a: seq<Token>, t: Token, b: seq<Token>, rest: seq<Token>)
    ensures a + [t] + b + rest == a + ([t] + (b + rest))
    ensures ([t] + (b + rest))[1..] == b + rest
  {
  }

  /** A level that starts with a whole operand goes on with its loop. */
  lemma {:induction false} LevelOver(ts: seq<Token>, lvl: nat, d: Result<Expr, Error>, rest: seq<Token>, scope: Scope)
    requires lvl < UNARY && Carries(ParseLevel(ts, lvl + 1, scope), d, rest)
    ensures ParseLevel(ts, lvl, scope) == After(d, rest, lvl, scope)
  {
  }

  /** One round of the loop of a level. */
  lemma {:induction false} LoopStep(node: Expr, kind: Kind, after: seq<Token>, rest: seq<Token>, lvl: nat,
                                    d: Result<Expr, Error>, scope: Scope)
    requires lvl < UNARY && Infix(kind).Some? && Infix(kind).value.0 == lvl
    requires Carries(ParseLevel(after, lvl + 1, scope), d, rest)
    ensures ParseLoop(node, [Symbol(kind)] + after, lvl, scope) ==
            if d.Err? then Err(d.error) else After(MakeOp(node, Infix(kind).value.1, d.value), rest, lvl, scope)
  {
    var ts := [Symbol(kind)] + after;
    assert ts[1..] == after;
  }

  /** At a token the level does not take, the loop of a tighter level ends. */
  lemma {:induction false} LoopEnds(c: Cst, rest: seq<Token>, lvl: nat, scope: Scope)
    requires lvl <= UNARY && Stops(rest, lvl)
    ensures Carries(After(Denote(c, scope), rest, lvl, scope), Denote(c, scope), rest)
  {
  }

  lemma {:induction false} FactorReads(c: Cst, rest: seq<Token>, scope: Scope)
    requires At(c, UNARY) && Stops(rest, POWER)
    ensures Carries(ParseFactor(TokensOf(c) + rest, scope), Denote(c, scope), rest)
    decreases c, 5
  {
    if c.Prefix? {
      FactorReads(c.arg, rest, scope);
      PrefixReads(c, rest, scope);
    } else if c.Raise? {
      AtomReads(c.base, [Symbol(TPower)] + (TokensOf(c.exp) + rest), scope);
      FactorReads(c.exp, rest, scope);
      RaiseReads(c, rest, scope);
    } else {
      AtomReads(c, rest, scope);
      PlainFactor(c, rest, scope);
    }
  }

  lemma {:induction false} PlainFactor(c: Cst, rest: seq<Token>, scope: Scope)
    requires At(c, ATOM) && Stops(rest, POWER)
    requires Carries(ParseAtom(TokensOf(c) + rest, scope), Denote(c, scope), rest)
    ensures Carries(ParseFactor(TokensOf(c) + rest, scope), Denote(c, scope), rest)
  {
    hide ParseAtom;
    AtomStarts(c, rest);
  }

  lemma {:induction false} RaiseReads(c: Cst, rest: seq<Token>, scope: Scope)
    requires c.Raise? && At(c.base, ATOM)
    requires var tail := [Symbol(TPower)] + (TokensOf(c.exp) + rest);
             Carries(ParseAtom(TokensOf(c.base) + tail, scope), Denote(c.base, scope), tail)
    requires Carries(ParseFactor(TokensOf(c.exp) + rest, scope), Denote(c.exp, scope), rest)
    ensures Carries(ParseFactor(TokensOf(c) + rest, scope), Denote(c, scope), rest)
  {
    hide ParseAtom;
    AtomStarts(c.base, [Symbol(TPower)] + (TokensOf(c.exp) + rest));
    Regroup(TokensOf(c.base), Symbol(TPower), TokensOf(c.exp), rest);
  }

  lemma {:induction false} PrefixReads(c: Cst, rest: seq<Token>, scope: Scope)
    requires c.Prefix?
    requires Carries(ParseFactor(TokensOf(c.arg) + rest, scope), Denote(c.arg, scope), rest)
    ensures Carries(ParseFactor(TokensOf(c) + rest, scope), Denote(c, scope), rest)
  {
    PrefixStep(c.sign, TokensOf(c.arg) + rest, Denote(c.arg, scope), rest, scope);
    assert TokensOf(c) + rest == [Symbol(SignKind(c.sign))] + (TokensOf(c.arg) + rest);
  }

  function Signed(sign: Unary, d: Result<Expr, Error>): Result<Expr, Error> {
    var a :- d;
    match sign
    case Minus => MakeOp(Num(0), Sub, a)
    case Plus => Ok(a)
    case LogicNot => Ok(Not(a))
  }

  lemma {:induction false} PrefixStep(sign: Unary, after: seq<Token>, d: Result<Expr, Error>, rest: seq<Token>,
                                      scope: Scope)
    requires Carries(ParseFactor(after, scope), d, rest)
    ensures Carries(ParseFactor([Symbol(SignKind(sign))] + after, scope), Signed(sign, d), rest)
  {
    var ts := [Symbol(SignKind(sign))] + after;
    assert ts[1..] == after;
  }

  lemma {:induction false} AtomStarts(c: Cst, rest: seq<Token>)
    requires At(c, ATOM)
    ensures var k := (TokensOf(c) + rest)[0].kind; !k.TMinus? && !k.TPlus? && !k.TNot?
  {
  }

  lemma {:induction false} AtomReads(c: Cst, rest: seq<Token>, scope: Scope)
    requires At(c, ATOM)
    ensures Carries(ParseAtom(TokensOf(c) + rest, scope), Denote(c, scope), rest)
    decreases c, 3
  {
    var ts := TokensOf(c) + rest;
    match c
    case Literal(_) =>
      assert ts[1..] == rest;
    case Ident(_) =>
      assert ts[1..] == rest;
    case Paren(inner) =>
      LevelReads(inner, [Symbol(TRparen)] + rest, 0, scope);
      LoopEnds(inner, [Symbol(TRparen)] + rest, 0, scope);
      ParenReads(inner, rest, scope);
    case Apply(func, args) =>
      ArgsRead(args, [Symbol(TRparen)] + rest, scope);
      ApplyReads(func, args, rest, scope);
  }

  lemma {:induction false} ParenReads(inner: Cst, rest: seq<Token>, scope: Scope)
    requires Carries(ParseLevel(TokensOf(inner) + ([Symbol(TRparen)] + rest), 0, scope), Denote(inner, scope),
               [Symbol(TRparen)] + rest)
    ensures Carries(ParseAtom(TokensOf(Paren(inner)) + rest, scope), Denote(inner, scope), rest)
  {
    hide ParseLevel, Lookup, FuncOf, Decimal, Denote;
    var ts := TokensOf(Paren(inner)) + rest;
    assert ts[1..] == TokensOf(inner) + ([Symbol(TRparen)] + rest);
    assert ([Symbol(TRparen)] + rest)[1..] == rest;
  }

  lemma {:induction false} ApplyReads(func: string, args: seq<Cst>, rest: seq<Token>, scope: Scope)
    requires ArgsCarry(ParseArgs(TokensOfArgs(args) + ([Symbol(TRparen)] + rest), scope), DenoteAll(args, scope),
               [Symbol(TRparen)] + rest)
    ensures Carries(ParseAtom(TokensOf(Apply(func, args)) + rest, scope), Denote(Apply(func, args), scope), rest)
  {
    var after := TokensOfArgs(args) + ([Symbol(TRparen)] + rest);
    var ts := [Token(TFunc, "$" + func), Symbol(TLparen)] + after;
    assert TokensOf(Apply(func, args)) + rest == ts;
    ApplyParses(func, after, DenoteAll(args, scope), rest, scope);
  }

  lemma {:induction false} ApplyParses(func: string, after: seq<Token>, ds: Result<seq<Expr>, Error>,
                                       rest: seq<Token>, scope: Scope)
    requires ArgsCarry(ParseArgs(after, scope), ds, [Symbol(TRparen)] + rest)
    ensures var d := if FuncOf(func).None? then Err(UnknownFunction) else if ds.Err? then Err(ds.error)
                     else if |ds.value| != Arity(FuncOf(func).value) then Err(WrongArity)
                     else Ok(Call(FuncOf(func).value, ds.value));
            Carries(ParseAtom([Token(TFunc, "$" + func), Symbol(TLparen)] + after, scope), d, rest)
  {
    var ts := [Token(TFunc, "$" + func), Symbol(TLparen)] + after;
    assert FuncName(ts[0].text) == func;
    assert ts[1..][0] == Symbol(TLparen) && ts[1..][1..] == after;
    assert ([Symbol(TRparen)] + rest)[1..] == rest;
  }

  lemma {:induction false} ArgsRead(args: seq<Cst>, rest: seq<Token>, scope: Scope)
    requires args != [] && forall i :: 0 <= i < |args| ==> At(args[i], 0)
    requires rest != [] && rest[0].kind == TRparen
    ensures ArgsCarry(ParseArgs(TokensOfArgs(args) + rest, scope), DenoteAll(args, scope), rest)
    decreases args
  {
    if |args| == 1 {
      LevelReads(args[0], rest, 0, scope);
      LoopEnds(args[0], rest, 0, scope);
      OneArg(args, rest, scope);
    } else {
      LevelReads(args[0], [Symbol(TComma)] + (TokensOfArgs(args[1..]) + rest), 0, scope);
      LoopEnds(args[0], [Symbol(TComma)] + (TokensOfArgs(args[1..]) + rest), 0, scope);
      ArgsRead(args[1..], rest, scope);
      MoreArgs(args, rest, scope);
    }
  }

  lemma {:induction false} OneArg(args: seq<Cst>, rest: seq<Token>, scope: Scope)
    requires |args| == 1 && rest != [] && !rest[0].kind.TComma?
    requires Carries(ParseLevel(TokensOf(args[0]) + rest, 0, scope), Denote(args[0], scope), rest)
    ensures ArgsCarry(ParseArgs(TokensOfArgs(args) + rest, scope), DenoteAll(args, scope), rest)
  {
    assert args[1..] == [];
    if Denote(args[0], scope).Ok? {
      var e := Denote(args[0], scope).value;
      assert [e] + [] == [e];
    }
    LastArg(TokensOf(args[0]) + rest, Denote(args[0], scope), rest, scope);
  }

  lemma {:induction false} MoreArgs(args: seq<Cst>, rest: seq<Token>, scope: Scope)
    requires |args| > 1
    requires var tail := [Symbol(TComma)] + (TokensOfArgs(args[1..]) + rest);
             Carries(ParseLevel(TokensOf(args[0]) + tail, 0, scope), Denote(args[0], scope), tail)
    requires ArgsCarry(ParseArgs(TokensOfArgs(args[1..]) + rest, scope), DenoteAll(args[1..], scope), rest)
    ensures ArgsCarry(ParseArgs(TokensOfArgs(args) + rest, scope), DenoteAll(args, scope), rest)
  {
    var more := TokensOfArgs(args[1..]);
    Regroup(TokensOf(args[0]), Symbol(TComma), more, rest);
    CommaArg(TokensOf(args[0]) + ([Symbol(TComma)] + (more + rest)), Denote(args[0], scope),
             more + rest, DenoteAll(args[1..], scope), rest, scope);
  }

  predicate ArgsCarry(r: Result<(seq<Expr>, seq<Token>), Error>, ds: Result<seq<Expr>, Error>, rest: seq<Token>) {
    match ds
    case Ok(es) => r == Ok((es, rest))
    case Err(x) => r == Err(x)
  }

  lemma {:induction false} LastArg(ts: seq<Token>, d: Result<Expr, Error>, rest: seq<Token>, scope: Scope)
    requires Carries(ParseLevel(ts, 0, scope), d, rest) && rest != [] && !rest[0].kind.TComma?
    ensures ArgsCarry(ParseArgs(ts, scope), if d.Err? then Err(d.error) else Ok([d.value]), rest)
  {
  }

  lemma {:induction false} CommaArg(ts: seq<Token>, d: Result<Expr, Error>, after: seq<Token>,
                                    ds: Result<seq<Expr>, Error>, rest: seq<Token>, scope: Scope)
    requires Carries(ParseLevel(ts, 0, scope), d, [Symbol(TComma)] + after)
    requires ArgsCarry(ParseArgs(after, scope), ds, rest)
    ensures ArgsCarry(ParseArgs(ts, scope),
                      if d.Err? then Err(d.error) else if ds.Err? then ds else Ok([d.value] + ds.value), rest)
  {
    assert ([Symbol(TComma)] + after)[1..] == after;
  }

  // ------------------------------------------------------------------ soundness

  /** Tokens whose text belongs to their kind, as the tokenizer makes them. */
  predicate Spelled(ts: seq<Token>) {
    forall i :: 0 <= i < |ts| ==> WellSpelled(ts[i])
  }

  predicate WellSpelled(t: Token) {
    match t.kind
    case TName => ValidName(t.text)
    case TNumber => true
    case TFloat => true
    case TSkip => true
    case TFunc => t.text != [] && t.text[0] == '$'
    case _ => t == Symbol(t.kind)
  }

  /** A concrete syntax tree for the tokens a parse has read. */
  ghost predicate Reads(c: Cst, ts: seq<Token>, rest: seq<Token>, lvl: nat, e: Expr, scope: Scope) {
    At(c, lvl) && ts == TokensOf(c) + rest && Denote(c, scope) == Ok(e)
  }

  lemma {:induction false} LevelSteps(ts: seq<Token>, lvl: nat, scope: Scope)
    requires lvl <= UNARY
    ensures lvl == UNARY ==> ParseLevel(ts, lvl, scope) == ParseFactor(ts, scope)
    ensures lvl < UNARY ==>
      var r := ParseLevel(ts, lvl + 1, scope);
      ParseLevel(ts, lvl, scope) == if r.Err? then Err(r.error) else ParseLoop(r.value.0, r.value.1, lvl, scope)
  {
    hide ParseFactor, ParseLoop;
  }

  lemma {:induction false} LoopSteps(node: Expr, ts: seq<Token>, lvl: nat, scope: Scope)
    requires lvl < UNARY
    ensures !Infixed(ts, lvl) ==> ParseLoop(node, ts, lvl, scope) == Ok((node, ts))
    ensures Infixed(ts, lvl) ==>
      var r := ParseLevel(ts[1..], lvl + 1, scope);
      ParseLoop(node, ts, lvl, scope) ==
        if r.Err? then Err(r.error)
        else
          var joined := MakeOp(node, Infix(ts[0].kind).value.1, r.value.0);
          if joined.Err? then Err(joined.error) else ParseLoop(joined.value, r.value.1, lvl, scope)
  {
    hide ParseLevel, MakeOp;
  }

  lemma {:induction false} LevelSound(ts: seq<Token>, lvl: nat, scope: Scope) returns (c: Cst)
    requires lvl <= UNARY && Spelled(ts) && ParseLevel(ts, lvl, scope).Ok?
    ensures var (e, rest) := ParseLevel(ts, lvl, scope).value;
            Reads(c, ts, rest, lvl, e, scope) && Spelled(rest)
    decreases |ts|, 12 - lvl
  {
    hide ParseFactor, ParseLoop, TokensOf, Denote;
    if lvl == UNARY {
      c := FactorSound(ts, scope);
    } else {
      var (node, rest) := ParseLevel(ts, lvl + 1, scope).value;
      c := LevelSound(ts, lvl + 1, scope);
      AtWeaker(c, lvl);
      c := LoopSound(c, ts, node, rest, lvl, scope);
    }
  }

  lemma {:induction false} AtWeaker(c: Cst, lvl: nat)
    requires At(c, lvl + 1)
    ensures At(c, lvl)
  {
  }

  lemma {:induction false} LoopSound(c0: Cst, ts: seq<Token>, node: Expr, rest: seq<Token>, lvl: nat,
                                     scope: Scope) returns (c: Cst)
    requires lvl < UNARY && Reads(c0, ts, rest, lvl, node, scope) && Spelled(rest)
    requires |rest| < |ts| && ParseLoop(node, rest, lvl, scope).Ok?
    ensures var (e, rest') := ParseLoop(node, rest, lvl, scope).value;
            Reads(c, ts, rest', lvl, e, scope) && Spelled(rest')
    decreases |rest|, 12
  {
    hide ParseLoop, ParseLevel, MakeOp, Reads;
    LoopSteps(node, rest, lvl, scope);
    if !Infixed(rest, lvl) {
      c := c0;
    } else {
      var (rhs, rest') := ParseLevel(rest[1..], lvl + 1, scope).value;
      var r := LevelSound(rest[1..], lvl + 1, scope);
      BinaryRead(c0, ts, node, rest, r, rhs, rest', lvl, scope);
      var joined := MakeOp(node, Infix(rest[0].kind).value.1, rhs).value;
      c := LoopSound(Binary(c0, rest[0].kind, r), ts, joined, rest', lvl, scope);
    }
  }

  lemma {:induction false} BinaryRead(c: Cst, ts: seq<Token>, node: Expr, rest: seq<Token>, r: Cst, rhs: Expr,
                                      rest': seq<Token>, lvl: nat, scope: Scope)
    requires Infixed(rest, lvl) && WellSpelled(rest[0])
    requires Reads(c, ts, rest, lvl, node, scope) && Reads(r, rest[1..], rest', lvl + 1, rhs, scope)
    requires MakeOp(node, Infix(rest[0].kind).value.1, rhs).Ok?
    ensures Reads(Binary(c, rest[0].kind, r), ts, rest', lvl, MakeOp(node, Infix(rest[0].kind).value.1, rhs).value,
              scope)
  {
    assert rest == [Symbol(rest[0].kind)] + rest[1..];
    hide MakeOp, TokensOf, Symbol, At, Denote;
    BinaryTokens(c, rest[0].kind, r, rest');
    BinaryDenotes(c, rest[0].kind, r, lvl, node, rhs, scope);
  }

  lemma {:induction false} BinaryDenotes(c: Cst, kind: Kind, r: Cst, lvl: nat, node: Expr, rhs: Expr, scope: Scope)
    requires Infix(kind).Some? && Infix(kind).value.0 == lvl && At(c, lvl) && At(r, lvl + 1)
    requires Denote(c, scope) == Ok(node) && Denote(r, scope) == Ok(rhs)
    ensures At(Binary(c, kind, r), lvl)
    ensures Denote(Binary(c, kind, r), scope) == MakeOp(node, Infix(kind).value.1, rhs)
  {
    hide MakeOp;
  }

  lemma {:induction false} BinaryTokens(c: Cst, kind: Kind, r: Cst, rest: seq<Token>)
    ensures TokensOf(Binary(c, kind, r)) + rest == TokensOf(c) + ([Symbol(kind)] + (TokensOf(r) + rest))
  {
    hide Symbol;
    assert TokensOf(Binary(c, kind, r)) == TokensOf(c) + [Symbol(kind)] + TokensOf(r);
    Regroup(TokensOf(c), Symbol(kind), TokensOf(r), rest);
  }

  lemma {:induction false} FactorSound(ts: seq<Token>, scope: Scope) returns (c: Cst)
    requires Spelled(ts) && ParseFactor(ts, scope).Ok?
    ensures var (e, rest) := ParseFactor(ts, scope).value;
            Reads(c, ts, rest, UNARY, e, scope) && Spelled(rest)
    decreases |ts|, 5
  {
    if ts != [] && (ts[0].kind.TMinus? || ts[0].kind.TPlus? || ts[0].kind.TNot?) {
      var arg := FactorSound(ts[1..], scope);
      assert WellSpelled(ts[0]);
      var (a, rest) := ParseFactor(ts[1..], scope).value;
      PrefixRead(ts, SignOf(ts[0].kind), arg, a, rest, scope);
      c := Prefix(SignOf(ts[0].kind), arg);
    } else {
      c := PowerSound(ts, scope);
    }
  }

  function SignOf(kind: Kind): Unary {
    if kind.TMinus? then Minus else if kind.TPlus? then Plus else LogicNot
  }

  lemma {:induction false} PrefixRead(ts: seq<Token>, sign: Unary, arg: Cst, a: Expr, rest: seq<Token>, scope: Scope)
    requires ts != [] && ts[0] == Symbol(SignKind(sign)) && Signed(sign, Ok(a)).Ok?
    requires Reads(arg, ts[1..], rest, UNARY, a, scope)
    ensures Reads(Prefix(sign, arg), ts, rest, UNARY, Signed(sign, Ok(a)).value, scope)
  {
    hide MakeOp;
    assert ts == [Symbol(SignKind(sign))] + ts[1..];
    assert [Symbol(SignKind(sign))] + (TokensOf(arg) + rest) == TokensOf(Prefix(sign, arg)) + rest;
  }

  lemma {:induction false} PowerSound(ts: seq<Token>, scope: Scope) returns (c: Cst)
    requires Spelled(ts) && ParsePower(ts, scope).Ok?
    ensures var (e, rest) := ParsePower(ts, scope).value;
            Reads(c, ts, rest, UNARY, e, scope) && Spelled(rest)
    decreases |ts|, 4
  {
    c := AtomSound(ts, scope);
    var (b, rest) := ParseAtom(ts, scope).value;
    if rest != [] && rest[0].kind.TPower? {
      var exp := FactorSound(rest[1..], scope);
      RaiseRead(c, ts, b, rest, exp, scope);
      c := Raise(c, exp);
    } else {
      AtWeaker(c, POWER);
      AtWeaker(c, UNARY);
    }
  }

  lemma {:induction false} RaiseRead(base: Cst, ts: seq<Token>, b: Expr, rest: seq<Token>, exp: Cst, scope: Scope)
    requires rest != [] && rest[0].kind.TPower? && WellSpelled(rest[0])
    requires Reads(base, ts, rest, ATOM, b, scope)
    requires ParseFactor(rest[1..], scope).Ok?
    requires var (x, rest') := ParseFactor(rest[1..], scope).value;
             Reads(exp, rest[1..], rest', UNARY, x, scope) && MakeOp(b, Power, x).Ok?
    ensures var (x, rest') := ParseFactor(rest[1..], scope).value;
            Reads(Raise(base, exp), ts, rest', UNARY, MakeOp(b, Power, x).value, scope)
  {
    hide ParseFactor;
    assert rest == [Symbol(TPower)] + rest[1..];
    Regroup(TokensOf(base), Symbol(TPower), TokensOf(exp), ParseFactor(rest[1..], scope).value.1);
  }

  lemma {:induction false} AtomSound(ts: seq<Token>, scope: Scope) returns (c: Cst)
    requires Spelled(ts) && ParseAtom(ts, scope).Ok?
    ensures var (e, rest) := ParseAtom(ts, scope).value;
            Reads(c, ts, rest, ATOM, e, scope) && Spelled(rest)
    decreases |ts|, 3
  {
    assert WellSpelled(ts[0]);
    assert ts == [ts[0]] + ts[1..];
    match ts[0].kind
    case TNumber => c := Literal(ts[0].text);
    case TName => c := Ident(ts[0].text);
    case TLparen =>
      var inner := LevelSound(ts[1..], 0, scope);
      ParenRead(ts, inner, scope);
      c := Paren(inner);
    case TFunc =>
      var open := ts[1..][1..];
      var args := ArgsSound(open, scope);
      ApplyRead(ts, args, scope);
      c := Apply(FuncName(ts[0].text), args);
  }

  lemma {:induction false} ParenRead(ts: seq<Token>, inner: Cst, scope: Scope)
    requires Spelled(ts) && ts != [] && ts[0].kind == TLparen && ParseAtom(ts, scope).Ok?
    requires var (e, rest) := ParseLevel(ts[1..], 0, scope).value;
             Reads(inner, ts[1..], rest, 0, e, scope) && Spelled(rest)
    ensures var (e, rest) := ParseAtom(ts, scope).value;
            Reads(Paren(inner), ts, rest, ATOM, e, scope) && Spelled(rest)
  {
    hide ParseLevel, Lookup, FuncOf, Decimal, TokensOf;
    assert WellSpelled(ts[0]);
    assert ts == [Symbol(TLparen)] + ts[1..];
    var rest := ParseLevel(ts[1..], 0, scope).value.1;
    Closes(rest);
    ParenTokens(inner, rest[1..]);
  }

  lemma {:induction false} ParenTokens(inner: Cst, rest: seq<Token>)
    ensures [Symbol(TLparen)] + (TokensOf(inner) + ([Symbol(TRparen)] + rest)) == TokensOf(Paren(inner)) + rest
  {
    hide Symbol;
    var ts := TokensOf(inner);
    assert TokensOf(Paren(inner)) == [Symbol(TLparen)] + ts + [Symbol(TRparen)];
  }

  lemma {:induction false} ApplyRead(ts: seq<Token>, args: seq<Cst>, scope: Scope)
    requires Spelled(ts) && ts != [] && ts[0].kind == TFunc && ParseAtom(ts, scope).Ok?
    requires var (es, rest) := ParseArgs(ts[1..][1..], scope).value;
             ArgsReads(args, ts[1..][1..], rest, es, scope) && Spelled(rest)
    ensures var (e, rest) := ParseAtom(ts, scope).value;
            Reads(Apply(FuncName(ts[0].text), args), ts, rest, ATOM, e, scope) && Spelled(rest)
  {
    hide ParseLevel, ParseArgs, Lookup, Decimal;
    assert WellSpelled(ts[0]) && WellSpelled(ts[1]);
    var rest := ParseArgs(ts[1..][1..], scope).value.1;
    Closes(rest);
    CallTokens(ts, TokensOfArgs(args), rest);
  }

  lemma {:induction false} Closes(rest: seq<Token>)
    requires Spelled(rest) && rest != [] && rest[0].kind == TRparen
    ensures rest == [Symbol(TRparen)] + rest[1..] && Spelled(rest[1..])
  {
    assert WellSpelled(rest[0]);
  }

  lemma {:induction false} CallTokens(ts: seq<Token>, args: seq<Token>, rest: seq<Token>)
    requires |ts| > 1 && ts[0].kind == TFunc && WellSpelled(ts[0]) && ts[1] == Symbol(TLparen)
    requires rest != [] && rest[0] == Symbol(TRparen) && ts[1..][1..] == args + rest
    ensures ts == [Token(TFunc, "$" + FuncName(ts[0].text)), Symbol(TLparen)] + args + [Symbol(TRparen)] + rest[1..]
  {
    var head := [Token(TFunc, "$" + FuncName(ts[0].text)), Symbol(TLparen)];
    assert ts[0].text == "$" + ts[0].text[1..];
    assert ts[1..] == [ts[1]] + ts[1..][1..];
    assert ts == [ts[0]] + ts[1..];
    assert rest == [Symbol(TRparen)] + rest[1..];
    assert head + (args + ([Symbol(TRparen)] + rest[1..])) == head + args + [Symbol(TRparen)] + rest[1..];
  }

  lemma {:induction false} ArgsSound(ts: seq<Token>, scope: Scope) returns (cs: seq<Cst>)
    requires Spelled(ts) && ParseArgs(ts, scope).Ok?
    ensures var (es, rest) := ParseArgs(ts, scope).value;
            ArgsReads(cs, ts, rest, es, scope) && Spelled(rest)
    decreases |ts|, 13
  {
    var c := LevelSound(ts, 0, scope);
    var (e, rest) := ParseLevel(ts, 0, scope).value;
    if rest != [] && rest[0].kind.TComma? {
      var more := ArgsSound(rest[1..], scope);
      var (es, rest') := ParseArgs(rest[1..], scope).value;
      assert WellSpelled(rest[0]);
      ConsArg(c, ts, rest, e, more, rest', es, scope);
      cs := [c] + more;
    } else {
      cs := [c];
      OneArgDenotes(c, e, scope);
    }
  }

  lemma {:induction false} OneArgDenotes(c: Cst, e: Expr, scope: Scope)
    requires Denote(c, scope) == Ok(e)
    ensures DenoteAll([c], scope) == Ok([e])
  {
    assert [c][1..] == [];
    assert [e] + [] == [e];
  }

  ghost predicate ArgsReads(cs: seq<Cst>, ts: seq<Token>, rest: seq<Token>, es: seq<Expr>, scope: Scope) {
    cs != [] && (forall i :: 0 <= i < |cs| ==> At(cs[i], 0)) &&
    ts == TokensOfArgs(cs) + rest && DenoteAll(cs, scope) == Ok(es)
  }

  lemma {:induction false} ConsArg(c: Cst, ts: seq<Token>, rest: seq<Token>, e: Expr, more: seq<Cst>,
                                   rest': seq<Token>, es: seq<Expr>, scope: Scope)
    requires Reads(c, ts, rest, 0, e, scope) && rest != [] && rest[0] == Symbol(TComma)
    requires ArgsReads(more, rest[1..], rest', es, scope)
    ensures ArgsReads([c] + more, ts, rest', [e] + es, scope)
  {
    var cs := [c] + more;
    assert cs[1..] == more;
    assert rest == [Symbol(TComma)] + rest[1..];
    Regroup(TokensOf(c), Symbol(TComma), TokensOfArgs(more), rest');
  }

  // ------------------------------------------------------------------ main results

  /** c is a derivation of ts with the tree e. */
  ghost predicate Derives(c: Cst, ts: seq<Token>, e: Expr, scope: Scope) {
    At(c, 0) && TokensOf(c) == ts && Denote(c, scope) == Ok(e)
  }

  /** On the tokens of any expression of the grammar the parser gives what the expression
      denotes, or the error met first in reading order. */
  lemma {:induction false} ParseFollowsGrammar(c: Cst, scope: Scope)
    requires At(c, 0)
    ensures Parse(TokensOf(c), scope) == Denote(c, scope)
  {
    LevelReads(c, [], 0, scope);
    LoopEnds(c, [], 0, scope);
    assert TokensOf(c) + [] == TokensOf(c);
  }

  /** The parser accepts exactly the grammar, with exactly the grammar's trees. */
  lemma {:induction false} ParseIffDerivable(ts: seq<Token>, e: Expr, scope: Scope)
    requires Spelled(ts)
    ensures Parse(ts, scope) == Ok(e) <==> exists c :: Derives(c, ts, e, scope)
  {
    if Parse(ts, scope) == Ok(e) {
      var c := LevelSound(ts, 0, scope);
      assert TokensOf(c) + [] == TokensOf(c);
      assert Derives(c, ts, e, scope);
    }
    forall c | Derives(c, ts, e, scope)
      ensures Parse(ts, scope) == Ok(e)
    {
      ParseFollowsGrammar(c, scope);
    }
  }

  /** A parsed tree has, for every register value and every assignment of the names, the
      value of the text it was parsed from. */
  lemma {:induction false} ParseKeepsValue(ts: seq<Token>, scope: Scope) returns (c: Cst)
    requires Spelled(ts) && Parse(ts, scope).Ok?
    ensures Derives(c, ts, Parse(ts, scope).value, scope)
    ensures forall env :: Eval(Parse(ts, scope).value, env) == Value(c, scope, env)
  {
    ParseIffDerivable(ts, Parse(ts, scope).value, scope);
    c :| Derives(c, ts, Parse(ts, scope).value, scope);
    forall env ensures Eval(Parse(ts, scope).value, env) == Value(c, scope, env) {
      DenoteKeepsValue(c, scope, env);
    }
  }

  /** What the parser returns never folds further. */
  lemma {:induction false} ParseIsNormal(ts: seq<Token>, scope: Scope)
    requires Spelled(ts) && LeafScope(scope) && Parse(ts, scope).Ok?
    ensures Normal(Parse(ts, scope).value)
  {
    var c := ParseKeepsValue(ts, scope);
    DenoteIsNormal(c, scope);
  }

  // ------------------------------------------------------------------ the parser

  class RecipeExprParser {
    const tokens: seq<Token>
    const scope: Scope
    var i: nat

    ghost predicate Valid()
      reads this
    {
      i <= |tokens|
    }

    /** The tokens not read yet. */
    ghost function Left(): seq<Token>
      requires Valid()
      reads this
    {
      tokens[i..]
    }

    /** A method result agrees with the parse of the tokens that were left before it. */
    ghost predicate Agrees(r: Result<Expr, Error>, spec: Parsed)
      requires Valid()
      reads this
    {
      Carries(spec, r, Left()) && (spec.Ok? ==> r.Ok?)
    }

    constructor (tokens: seq<Token>, scope: Scope)
      ensures Valid() && this.tokens == tokens && this.scope == scope && Left() == tokens
    {
      this.tokens, this.scope, this.i := tokens, scope, 0;
    }

    function Peek(): (t: Option<Token>)
      requires Valid()
      reads this
      ensures t == if Left() == [] then None else Some(Left()[0])
    {
      if i < |tokens| then Some(tokens[i]) else None
    }

    method Advance() returns (t: Token)
      requires Valid() && Left() != []
      modifies this
      ensures Valid() && t == old(Left()[0]) && Left() == old(Left()[1..])
      ensures i == old(i) + 1
    {
      t := tokens[i];
      i := i + 1;
    }

    method ExpectKind(kind: Kind) returns (r: Result<Token, Error>)
      requires Valid()
      modifies this
      ensures Valid() && i >= old(i)
      ensures match Expect(old(Left()), kind)
              case Ok(rest) => r.Ok? && Left() == rest
              case Err(x) => r == Err(x)
    {
      var tok := Peek();
      if tok.None? || tok.value.kind != kind {
        return Err(Expected);
      }
      var t := Advance();
      return Ok(t);
    }

    method ParseAll() returns (r: Result<Expr, Error>)
      requires Valid() && i == 0
      modifies this
      ensures r == Parse(tokens, scope)
    {
      r := ParseBinary(0);
      if r.Err? {
        return;
      }
      if Peek().Some? {
        return Err(Trailing);
      }
    }

    /** One precedence level; level 6 is the factor below the infix operators. */
    method ParseBinary(lvl: nat) returns (r: Result<Expr, Error>)
      requires Valid() && lvl <= UNARY
      modifies this
      ensures Valid() && i >= old(i)
      ensures Agrees(r, ParseLevel(old(Left()), lvl, scope))
      decreases |tokens| - i, 12 - lvl
    {
      hide ParseLevel, ParseLoop, ParseFactor, MakeOp, Infix;
      ghost var spec := ParseLevel(Left(), lvl, scope);
      LevelSteps(Left(), lvl, scope);
      if lvl == UNARY {
        r := ParseSigned();
        return;
      }
      var node :- ParseBinary(lvl + 1);
      var tok := Peek();
      while tok.Some? && Infix(tok.value.kind).Some? && Infix(tok.value.kind).value.0 == lvl
        invariant Valid() && i > old(i) && tok == Peek()
        invariant spec == ParseLoop(node, Left(), lvl, scope)
        decreases |tokens| - i
      {
        LoopSteps(node, Left(), lvl, scope);
        var t := Advance();
        var rhs :- ParseBinary(lvl + 1);
        node :- MakeOp(node, Infix(t.kind).value.1, rhs);
        tok := Peek();
      }
      LoopSteps(node, Left(), lvl, scope);
      return Ok(node);
    }

    method ParseSigned() returns (r: Result<Expr, Error>)
      requires Valid()
      modifies this
      ensures Valid() && i >= old(i)
      ensures Agrees(r, ParseFactor(old(Left()), scope))
      decreases |tokens| - i, 5
    {
      var tok := Peek();
      if tok.Some? && tok.value.kind.TMinus? {
        var t := Advance();
        var a :- ParseSigned();
        return MakeOp(Num(0), Sub, a);
      }
      if tok.Some? && tok.value.kind.TPlus? {
        var t := Advance();
        r := ParseSigned();
        return;
      }
      if tok.Some? && tok.value.kind.TNot? {
        var t := Advance();
        var a :- ParseSigned();
        return Ok(Not(a));
      }
      r := ParseRaised();
    }

    method ParseRaised() returns (r: Result<Expr, Error>)
      requires Valid()
      modifies this
      ensures Valid() && i >= old(i)
      ensures Agrees(r, ParsePower(old(Left()), scope))
      decreases |tokens| - i, 4
    {
      var base :- ParseOperand();
      var tok := Peek();
      if tok.Some? && tok.value.kind.TPower? {
        var t := Advance();
        var exp :- ParseSigned();
        return MakeOp(base, Power, exp);
      }
      return Ok(base);
    }

    method ParseOperand() returns (r: Result<Expr, Error>)
      requires Valid()
      modifies this
      ensures Valid() && i >= old(i) && (r.Ok? ==> i > old(i))
      ensures Agrees(r, ParseAtom(old(Left()), scope))
      decreases |tokens| - i, 3
    {
      var tok := Peek();
      if tok.None? {
        return Err(UnexpectedEnd);
      }
      match tok.value.kind {
        case TNumber =>
          var t := Advance();
          return Ok(Num(Decimal(t.text)));
        case TFloat =>
          return Err(FloatValue);
        case TName =>
          var t := Advance();
          return Lookup(scope, t.text);
        case TLparen =>
          var t := Advance();
          var node :- ParseBinary(0);
          var close :- ExpectKind(TRparen);
          return Ok(node);
        case TFunc =>
          r := ParseCall();
        case _ =>
          return Err(UnexpectedToken);
      }
    }

    method ParseCall() returns (r: Result<Expr, Error>)
      requires Valid() && Left() != [] && Left()[0].kind.TFunc?
      modifies this
      ensures Valid() && i > old(i)
      ensures Agrees(r, ParseAtom(old(Left()), scope))
      decreases |tokens| - i, 2
    {
      var t := Advance();
      var func := FuncOf(FuncName(t.text));
      if func.None? {
        return Err(UnknownFunction);
      }
      var open :- ExpectKind(TLparen);
      var params :- ParseParams();
      var close :- ExpectKind(TRparen);
      if |params| != Arity(func.value) {
        return Err(WrongArity);
      }
      return Ok(Call(func.value, params));
    }

    /** The comma separated arguments between the parentheses of a call. */
    method ParseParams() returns (r: Result<seq<Expr>, Error>)
      requires Valid()
      modifies this
      ensures Valid() && i >= old(i)
      ensures ArgsCarry(ParseArgs(old(Left()), scope), r, Left())
      decreases |tokens| - i, 13
    {
      ghost var whole := ParseArgs(Left(), scope);
      var param :- ParseBinary(0);
      var params := [param];
      while Peek().Some? && Peek().value.kind.TComma?
        invariant Valid() && i > old(i)
        invariant ArgsGoOn(whole, params, Left(), scope)
        decreases |tokens| - i
      {
        ArgsGoOnStep(whole, params, Left(), scope);
        var comma := Advance();
        param :- ParseBinary(0);
        params := params + [param];
      }
      return Ok(params);
    }
  }

  /** `whole` is the argument list that starts with `params` and goes on at ts. */
  ghost predicate ArgsGoOn(whole: Result<(seq<Expr>, seq<Token>), Error>, params: seq<Expr>, ts: seq<Token>,
                           scope: Scope) {
    if ts != [] && ts[0].kind.TComma? then
      match ParseArgs(ts[1..], scope)
      case Ok((es, rest)) => whole == Ok((params + es, rest))
      case Err(x) => whole == Err(x)
    else
      whole == Ok((params, ts))
  }

  lemma {:induction false} ArgsGoOnStep(whole: Result<(seq<Expr>, seq<Token>), Error>, params: seq<Expr>,
                                        ts: seq<Token>, scope: Scope)
    requires ts != [] && ts[0].kind.TComma? && ArgsGoOn(whole, params, ts, scope)
    ensures var r := ParseLevel(ts[1..], 0, scope);
            if r.Err? then whole == Err(r.error)
            else ArgsGoOn(whole, params + [r.value.0], r.value.1, scope)
  {
    if ParseLevel(ts[1..], 0, scope).Ok? {
      var (e, rest) := ParseLevel(ts[1..], 0, scope).value;
      if rest != [] && rest[0].kind.TComma? && ParseArgs(rest[1..], scope).Ok? {
        var es := ParseArgs(rest[1..], scope).value.0;
        assert params + ([e] + es) == params + [e] + es;
      }
    }
  }
}
