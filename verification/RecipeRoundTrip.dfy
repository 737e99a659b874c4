/** How far printing and parsing undo each other: exactly on the trees in which no negative
    number is raised to a power. */
module RecipeRoundTrip {
  import opened Wrappers
  import opened RecipeTree
  import opened RecipeGrammar
  import opened RecipeParser
  import opened RecipeText

  /** The tree the printed form of e is read as. */
  function Reread(e: Expr, scope: Scope): Result<Expr, Error> {
    Denote(CstOf(e), scope)
  }

  predicate NegativeBase(e: Expr) {
    e.Op? && e.op.Power? && e.lhs.Num? && e.lhs.n < 0
  }

  /** A negative base is read as a negation. */
  lemma {:induction false} NegativeBaseRereads(e: Expr, scope: Scope)
    requires NegativeBase(e)
    ensures var r := Reread(e.rhs, scope);
            Reread(e, scope) == Joined(Ok(Num(0)), Sub, Joined(Ok(Num(-e.lhs.n)), Power, r))
  {
    hide MakeOp;
    PrintNatDigits(-e.lhs.n);
    var raised := Raise(Literal(PrintNat(-e.lhs.n)), CstOf(e.rhs));
    assert Denote(Literal(PrintNat(-e.lhs.n)), scope) == Ok(Num(-e.lhs.n));
    assert Denote(raised, scope) == Joined(Ok(Num(-e.lhs.n)), Power, Reread(e.rhs, scope));
    assert Denote(Prefix(Minus, raised), scope) == Joined(Ok(Num(0)), Sub, Denote(raised, scope));
  }

  /** Only a number is read back as a number. */
  lemma {:induction false} RereadNumber(e: Expr, n: int, scope: Scope)
    requires Printable(e, scope) && Normal(e) && Reread(e, scope) == Ok(Num(n))
    ensures e == Num(n)
    decreases e
  {
    match e
    case Num(m) => SignedDenotes(m, scope);
    case V =>
    case K(_) =>
    case Op(l, op, r) =>
      if NegativeBase(e) {
        NegativeBaseRereads(e, scope);
        var x := Reread(r, scope).value;
        assert x.Num?;
        RereadNumber(r, x.n, scope);
      } else {
        OpDenotes(e, scope);
        var a, b := Reread(l, scope).value, Reread(r, scope).value;
        assert a.Num? && b.Num?;
        RereadNumber(l, a.n, scope);
        RereadNumber(r, b.n, scope);
      }
    case Not(a) => NotRereads(a, scope);
    case Call(_, _) => CallRereads(e, scope);
  }

  lemma {:induction false} NotRereads(a: Expr, scope: Scope)
    ensures var r := Reread(a, scope); Reread(Not(a), scope) == if r.Err? then r else Ok(Not(r.value))
  {
    var sign := Prefix(LogicNot, CstOf(a));
    assert CstOf(Not(a)) == Paren(sign);
    assert Denote(Paren(sign), scope) == Denote(sign, scope);
  }

  /** A call is read back as a call with each argument read back. */
  lemma {:induction false} CallRereads(e: Expr, scope: Scope)
    requires e.Call? && Reread(e, scope).Ok?
    ensures var r := Reread(e, scope).value;
            r.Call? && DenoteAll(CstsOf(e.args), scope) == Ok(r.args)
  {
    hide DenoteAll, CstsOf;
    assert CstOf(e) == Apply(FuncText(e.func), CstsOf(e.args));
  }

  /** Nothing is read back as itself plus a constant. */
  lemma {:induction false} NeverExtended(x: Expr, c: int, scope: Scope)
    requires Printable(x, scope) && Normal(x) && LeafScope(scope)
    ensures Reread(x, scope) != Ok(Op(x, Add, Num(c)))
  {
    var longer := Op(x, Add, Num(c));
    if Reread(x, scope) == Ok(longer) {
      DenoteIsNormal(CstOf(x), scope);
      assert MakeOp(x, Add, Num(c)) == Ok(longer);
      LongerIsOp(x, longer, scope);
      if NegativeBase(x) {
        NegativeBaseRereads(x, scope);
        assert false;
      } else {
        OpDenotes(x, scope);
        var b := Reread(x.rhs, scope).value;
        assert b.Num? && x.op.Add?;
        RereadNumber(x.rhs, b.n, scope);
        SumHasNoConstant(x, c);
      }
    }
  }

  /** A sum that ends in a constant takes a further constant into it. */
  lemma {:induction false} SumHasNoConstant(x: Expr, c: int)
    requires x.Op? && x.op.Add? && x.rhs.Num?
    ensures MakeOp(x, Add, Num(c)) != Ok(Op(x, Add, Num(c)))
  {
    assert x.lhs < x;
  }

  lemma {:induction false} LongerIsOp(x: Expr, longer: Expr, scope: Scope)
    requires Printable(x, scope) && longer.Op? && Reread(x, scope) == Ok(longer)
    ensures x.Op?
  {
    match x
    case Num(n) => SignedDenotes(n, scope);
    case Not(a) => NotRereads(a, scope);
    case Call(_, _) => CallRereads(x, scope);
    case _ =>
  }

  /** A tree with a negative base anywhere in it is not read back. */
  lemma {:induction false} NegativeBaseIsLost(e: Expr, scope: Scope)
    requires Printable(e, scope) && Normal(e) && LeafScope(scope) && !NoNegativeBase(e)
    ensures Reread(e, scope) != Ok(e)
    decreases e
  {
    match e
    case Op(l, op, r) =>
      if NegativeBase(e) {
        NegativeBaseRereads(e, scope);
      } else if Reread(e, scope) == Ok(e) {
        OperandsReread(e, scope);
        if !NoNegativeBase(l) { NegativeBaseIsLost(l, scope); } else { NegativeBaseIsLost(r, scope); }
      }
    case Not(a) =>
      NotRereads(a, scope);
      NegativeBaseIsLost(a, scope);
    case Call(f, args) =>
      var i :| 0 <= i < |args| && !NoNegativeBase(args[i]);
      NegativeBaseIsLost(args[i], scope);
      if Reread(e, scope) == Ok(e) {
        CallRereads(e, scope);
        DenoteAllAt(CstsOf(args), args, i, scope);
      }
  }

  /** When an operation is read back, so are its operands. */
  lemma {:induction false} OperandsReread(e: Expr, scope: Scope)
    requires e.Op? && !NegativeBase(e) && Printable(e, scope) && Normal(e) && LeafScope(scope)
    requires Reread(e, scope) == Ok(e)
    ensures Reread(e.lhs, scope) == Ok(e.lhs) && Reread(e.rhs, scope) == Ok(e.rhs)
  {
    assert Printable(e.lhs, scope) && Printable(e.rhs, scope) && Normal(e.lhs) && Normal(e.rhs);
    OpDenotes(e, scope);
    hide Denote, CstOf, Printable, Normal;
    var a, b := Reread(e.lhs, scope).value, Reread(e.rhs, scope).value;
    if b.Num? {
      RereadNumber(e.rhs, b.n, scope);
      NeverExtended(e.lhs, if a.Op? && a.rhs.Num? then a.rhs.n else 0, scope);
    }
    OnlyExtended(a, e.op, b, e.lhs, e.rhs);
  }

  /** An operation comes from its operands, or from a sum that took a constant in. */
  lemma {:induction false} OnlyExtended(a: Expr, op: BinOp, b: Expr, l: Expr, r: Expr)
    requires MakeOp(a, op, b) == Ok(Op(l, op, r))
    ensures (a == l && b == r) || (b.Num? && a.Op? && a.rhs.Num? && a == Op(l, Add, a.rhs))
  {
  }

  lemma {:induction false} DenoteAllAt(cs: seq<Cst>, es: seq<Expr>, i: nat, scope: Scope)
    requires DenoteAll(cs, scope) == Ok(es) && i < |cs|
    ensures Denote(cs[i], scope) == Ok(es[i])
    decreases cs
  {
    if i > 0 {
      DenoteAllAt(cs[1..], es[1..], i - 1, scope);
    }
  }

  // ------------------------------------------------------------------ parsed trees are printable

  lemma {:induction false} MakeOpPrintable(l: Expr, op: BinOp, r: Expr, scope: Scope)
    requires Printable(l, scope) && Printable(r, scope) && MakeOp(l, op, r).Ok?
    ensures Printable(MakeOp(l, op, r).value, scope)
  {
  }

  lemma {:induction false} SpelledParts(a: seq<Token>, b: seq<Token>)
    requires Spelled(a + b)
    ensures Spelled(a) && Spelled(b)
  {
    forall i | 0 <= i < |a| ensures WellSpelled(a[i]) { assert a[i] == (a + b)[i]; }
    forall i | 0 <= i < |b| ensures WellSpelled(b[i]) { assert b[i] == (a + b)[|a| + i]; }
  }

  lemma {:induction false} DenotePrintable(c: Cst, scope: Scope)
    requires LeafScope(scope) && Spelled(TokensOf(c)) && Denote(c, scope).Ok?
    ensures Printable(Denote(c, scope).value, scope)
    decreases c
  {
    match c
    case Literal(_) =>
    case Ident(name) => assert WellSpelled(TokensOf(c)[0]);
    case Paren(inner) =>
      SpelledParts([Symbol(TLparen)] + TokensOf(inner), [Symbol(TRparen)]);
      SpelledParts([Symbol(TLparen)], TokensOf(inner));
      DenotePrintable(inner, scope);
    case Apply(func, args) =>
      SpelledParts([Token(TFunc, "$" + func), Symbol(TLparen)] + TokensOfArgs(args), [Symbol(TRparen)]);
      SpelledParts([Token(TFunc, "$" + func), Symbol(TLparen)], TokensOfArgs(args));
      DenoteAllPrintable(args, scope);
    case Raise(base, exp) =>
      SpelledParts(TokensOf(base) + [Symbol(TPower)], TokensOf(exp));
      SpelledParts(TokensOf(base), [Symbol(TPower)]);
      DenotePrintable(base, scope);
      DenotePrintable(exp, scope);
      MakeOpPrintable(Denote(base, scope).value, Power, Denote(exp, scope).value, scope);
    case Prefix(sign, arg) =>
      SpelledParts([Symbol(SignKind(sign))], TokensOf(arg));
      DenotePrintable(arg, scope);
      if sign.Minus? {
        MakeOpPrintable(Num(0), Sub, Denote(arg, scope).value, scope);
      }
    case Binary(l, kind, r) =>
      SpelledParts(TokensOf(l) + [Symbol(kind)], TokensOf(r));
      SpelledParts(TokensOf(l), [Symbol(kind)]);
      DenotePrintable(l, scope);
      DenotePrintable(r, scope);
      MakeOpPrintable(Denote(l, scope).value, Infix(kind).value.1, Denote(r, scope).value, scope);
  }

  lemma {:induction false} DenoteAllPrintable(cs: seq<Cst>, scope: Scope)
    requires LeafScope(scope) && Spelled(TokensOfArgs(cs)) && DenoteAll(cs, scope).Ok?
    ensures forall i :: 0 <= i < |cs| ==> Printable(DenoteAll(cs, scope).value[i], scope)
    decreases cs
  {
    if |cs| == 1 {
      DenotePrintable(cs[0], scope);
    } else if |cs| > 1 {
      SpelledParts(TokensOf(cs[0]) + [Symbol(TComma)], TokensOfArgs(cs[1..]));
      SpelledParts(TokensOf(cs[0]), [Symbol(TComma)]);
      DenotePrintable(cs[0], scope);
      DenoteAllPrintable(cs[1..], scope);
    }
  }

  // ------------------------------------------------------------------ main results

  /** A printed tree parses back to itself exactly when no negative number in it is raised
      to a power. */
  lemma {:induction false} RoundTripIff(e: Expr, scope: Scope)
    requires Printable(e, scope) && Normal(e) && LeafScope(scope)
    ensures ParseText(Print(e), scope) == Ok(e) <==> NoNegativeBase(e)
  {
    PrintedTextParses(e, scope);
    if NoNegativeBase(e) {
      ReadsBack(e, scope);
    } else {
      NegativeBaseIsLost(e, scope);
    }
  }

  /** The same for every tree the parser can make: printing it and parsing the text again
      gives it back, unless a negative number in it is raised to a power. */
  lemma {:induction false} ReparseIff(s: string, scope: Scope)
    requires LeafScope(scope) && ParseText(s, scope).Ok?
    ensures var e := ParseText(s, scope).value;
            ParseText(Print(e), scope) == Ok(e) <==> NoNegativeBase(e)
  {
    var e := ParseText(s, scope).value;
    var ts := Lex(s).value;
    LexSpelled(s);
    ParseIsNormal(ts, scope);
    var c := ParseKeepsValue(ts, scope);
    DenotePrintable(c, scope);
    RoundTripIff(e, scope);
  }

  /** The negative base is a real case: "(-2)**v" prints as "(-2 ** v)", which reads as
      -(2 ** v), and that has another value. */
  lemma {:induction false} NegativeBaseExample()
    ensures var scope := Scope(map[], true);
            var e := Op(Num(-2), Power, V);
            var back := Op(Num(0), Sub, Op(Num(2), Power, V));
            ParseText("(-2)**v", scope) == Ok(e) && Print(e) == "(-2 ** v)" && ParseText(Print(e), scope) == Ok(back) &&
            Eval(e, Env(2, _ => 0)) == Some(4) && Eval(back, Env(2, _ => 0)) == Some(-4)
  {
    ExampleParses();
    ExampleRereads();
    ExampleValues();
  }

  function NegativeBaseTokens(): seq<Token> {
    [Symbol(TLparen), Symbol(TMinus), Token(TNumber, "2"), Symbol(TRparen), Symbol(TPower), Token(TName, "v")]
  }

  lemma {:induction false} DecimalTwo()
    ensures Decimal("2") == 2 && PrintNat(2) == "2"
  {
    assert "2"[..0] == "";
    assert Decimal("") == 0;
  }

  lemma {:induction false} ExampleDerives()
    ensures Derives(Raise(Paren(Prefix(Minus, Literal("2"))), Ident("v")), NegativeBaseTokens(),
                    Op(Num(-2), Power, V), Scope(map[], true))
  {
    DecimalTwo();
    var scope := Scope(map[], true);
    var sign := Prefix(Minus, Literal("2"));
    assert Denote(sign, scope) == Ok(Num(-2));
    assert TokensOf(sign) == [Symbol(TMinus), Token(TNumber, "2")];
    assert TokensOf(Paren(sign)) == [Symbol(TLparen), Symbol(TMinus), Token(TNumber, "2"), Symbol(TRparen)];
  }

  lemma {:induction false} ExampleLexes()
    ensures Lex("(-2)**v") == Ok(NegativeBaseTokens())
  {
    hide Lex, MatchToken, PrintNat;
    DecimalTwo();
    assert Spelling(TLparen) == "(" && Spelling(TMinus) == "-" && Spelling(TRparen) == ")" && Spelling(TPower) == "**";
    assert "(-2)**v" == "(" + "-2)**v" && "-2)**v" == "-" + "2)**v" && "2)**v" == "2" + ")**v";
    LexPlain(TLparen, "-2)**v");
    LexPlain(TMinus, "2)**v");
    LexNumber(2, ")**v");
    assert ")**v" == ")" + "**v" && "**v" == "**" + "v" && "v" == "v" + "";
    LexPlain(TRparen, "**v");
    PowerLexes("v");
    LexName("v", "");
    LexEnd("", []);
    PrependNothing(Lex(""));
    SixTokens();
  }

  lemma {:induction false} SixTokens()
    ensures Prepend([Symbol(TLparen)], Prepend([Symbol(TMinus)], Prepend([Token(TNumber, "2")],
              Prepend([Symbol(TRparen)], Prepend([Token(TPower, "**")], Prepend([Token(TName, "v")], Ok([]))))))) ==
            Ok(NegativeBaseTokens())
  {
    var (number, power, name) := (Token(TNumber, "2"), Token(TPower, "**"), Token(TName, "v"));
    assert Symbol(TPower) == power;
    assert [name] + [] == [name] && [power] + [name] == [power, name];
    assert [Symbol(TRparen)] + [power, name] == [Symbol(TRparen), power, name];
    assert [number] + [Symbol(TRparen), power, name] == [number, Symbol(TRparen), power, name];
    var rest := [Symbol(TMinus), number, Symbol(TRparen), power, name];
    assert [Symbol(TMinus)] + [number, Symbol(TRparen), power, name] == rest;
    assert [Symbol(TLparen)] + rest == NegativeBaseTokens();
  }

  lemma {:induction false} PowerLexes(s: string)
    ensures Lex("**" + s) == Prepend([Token(TPower, "**")], Lex(s))
  {
    hide Lex, MatchToken;
    OnlySymbol("**" + s);
    LongOp(Power, "**" + s);
    LexStep("**", TPower, s);
  }

  lemma {:induction false} ExampleParses()
    ensures ParseText("(-2)**v", Scope(map[], true)) == Ok(Op(Num(-2), Power, V))
  {
    hide Lex, Parse, Derives;
    ExampleLexes();
    ExampleDerives();
    LexSpelled("(-2)**v");
    ParseIffDerivable(NegativeBaseTokens(), Op(Num(-2), Power, V), Scope(map[], true));
  }

  lemma {:induction false} ExampleRereads()
    ensures var scope := Scope(map[], true);
            var e := Op(Num(-2), Power, V);
            Print(e) == "(-2 ** v)" && ParseText(Print(e), scope) == Ok(Op(Num(0), Sub, Op(Num(2), Power, V)))
  {
    hide ParseText, Denote;
    var scope := Scope(map[], true);
    var e := Op(Num(-2), Power, V);
    DecimalTwo();
    assert Print(e) == "(-2 ** v)";
    PrintedTextParses(e, scope);
    NegativeBaseRereads(e, scope);
    VRereads(scope);
  }

  lemma {:induction false} VRereads(scope: Scope)
    requires scope.hasV
    ensures Reread(V, scope) == Ok(V)
  {
  }

  lemma {:induction false} ExampleValues()
    ensures Eval(Op(Num(-2), Power, V), Env(2, _ => 0)) == Some(4)
    ensures Eval(Op(Num(0), Sub, Op(Num(2), Power, V)), Env(2, _ => 0)) == Some(-4)
  {
    assert Pow(-2, 2) == -2 * Pow(-2, 1) && Pow(-2, 1) == -2 * Pow(-2, 0);
    assert Pow(2, 2) == 2 * Pow(2, 1) && Pow(2, 1) == 2 * Pow(2, 0);
  }
}
