/** Recipe expressions as text: the tokenizer, the printer, and how far the parser reads
    back what the printer writes. */
module RecipeText {
  import opened Wrappers
  import opened RecipeTree
  import opened RecipeGrammar
  import opened RecipeParser

  // ------------------------------------------------------------------ tokenizer

  predicate IsSpace(c: char) {
    c == ' ' || c == '\t' || c == '\n' || c == '\r'
  }

  /** The length of the longest prefix of s whose characters all satisfy p. */
  function Run(s: string, p: char -> bool): (n: nat)
    ensures n <= |s|
    ensures forall i :: 0 <= i < n ==> p(s[i])
  {
    if s == [] || !p(s[0]) then 0 else 1 + Run(s[1..], p)
  }

  /** The two-character symbol a text starts with. */
  function LongSymbol(s: string): (r: Option<Kind>)
    requires |s| > 1
    ensures r.Some? ==> s[..2] == Spelling(r.value)
  {
    if s[..2] == "**" then Some(TPower)
    else if s[..2] == "==" then Some(TEq)
    else if s[..2] == "!=" then Some(TNe)
    else if s[..2] == "<=" then Some(TLe)
    else if s[..2] == ">=" then Some(TGe)
    else if s[..2] == "&&" then Some(TLand)
    else if s[..2] == "||" then Some(TLor)
    else None
  }

  function ShortSymbol(c: char): (r: Option<Kind>)
    ensures r.Some? ==> [c] == Spelling(r.value)
  {
    match c
    case '+' => Some(TPlus)
    case '-' => Some(TMinus)
    case '*' => Some(TMul)
    case '/' => Some(TDiv)
    case '%' => Some(TMod)
    case '<' => Some(TLt)
    case '>' => Some(TGt)
    case '!' => Some(TNot)
    case '(' => Some(TLparen)
    case ')' => Some(TRparen)
    case ',' => Some(TComma)
    case _ => None
  }

  /** The first symbol of a text, the two-character ones before their one-character prefix. */
  function SymbolKind(s: string): (r: Option<(Kind, nat)>)
    requires s != []
    ensures r.Some? ==> 0 < r.value.1 <= |s| && s[..r.value.1] == Spelling(r.value.0)
  {
    if |s| > 1 && LongSymbol(s).Some? then Some((LongSymbol(s).value, 2))
    else if ShortSymbol(s[0]).Some? then Some((ShortSymbol(s[0]).value, 1))
    else None
  }

  /** One match of the token pattern at the head of s: its kind and length. */
  function MatchToken(s: string): (r: Option<(Kind, nat)>)
    requires s != []
    ensures r.Some? ==> 0 < r.value.1 <= |s|
  {
    var digits := Run(s, IsDigit);
    if IsNameStart(s[0]) then Some((TName, Run(s, IsNameChar)))
    else if s[0] == '$' && |s| > 1 && IsNameStart(s[1]) then Some((TFunc, 1 + Run(s[1..], IsNameChar)))
    else if digits > 0 && |s| > digits && s[digits] == '.'
      then Some((TFloat, digits + 1 + Run(s[digits + 1..], IsDigit)))
    else if s[0] == '.' && Run(s[1..], IsDigit) > 0 then Some((TFloat, 1 + Run(s[1..], IsDigit)))
    else if digits > 0 then Some((TNumber, digits))
    else if IsSpace(s[0]) then Some((TSkip, Run(s, IsSpace)))
    else SymbolKind(s)
  }

  lemma {:induction false} MatchWellSpelled(s: string)
    requires s != [] && MatchToken(s).Some?
    ensures var (kind, len) := MatchToken(s).value; kind.TSkip? || WellSpelled(Token(kind, s[..len]))
  {
    hide SymbolKind;
    var (kind, len) := MatchToken(s).value;
    if IsNameStart(s[0]) {
      assert IsNameChar(s[0]);
      assert ValidName(s[..len]);
    } else if s[0] == '$' {
      assert s[..len][0] == '$';
    }
  }

  /** The tokens of a text. */
  function Lex(s: string): (r: Result<seq<Token>, Error>)
    decreases |s|
  {
    if s == [] then Ok([])
    else
      var m := MatchToken(s);
      if m.None? then Err(UnexpectedChar)
      else
        var (kind, len) := m.value;
        var rest :- Lex(s[len..]);
        Ok(if kind.TSkip? then rest else [Token(kind, s[..len])] + rest)
  }

  /** Every token has the text of its kind. */
  lemma {:induction false} LexSpelled(s: string)
    requires Lex(s).Ok?
    ensures Spelled(Lex(s).value)
    decreases |s|
  {
    hide MatchToken;
    if s != [] {
      LexSpelled(s[MatchToken(s).value.1..]);
      MatchWellSpelled(s);
    }
  }

  function Prepend(ts: seq<Token>, r: Result<seq<Token>, Error>): Result<seq<Token>, Error> {
    var rest :- r;
    Ok(ts + rest)
  }

  lemma {:induction false} PrependNothing(r: Result<seq<Token>, Error>)
    ensures Prepend([], r) == r
  {
    if r.Ok? {
      assert [] + r.value == r.value;
    }
  }

  lemma {:induction false} PrependTwice(a: seq<Token>, b: seq<Token>, r: Result<seq<Token>, Error>)
    ensures Prepend(a, Prepend(b, r)) == Prepend(a + b, r)
  {
    if r.Ok? {
      assert a + (b + r.value) == a + b + r.value;
    }
  }

  /** One turn of the tokenizer. */
  lemma {:induction false} LexTurn(s: string, pos: nat)
    requires pos < |s|
    ensures var m := MatchToken(s[pos..]);
            if m.None? then Lex(s[pos..]) == Err(UnexpectedChar)
            else
              var (kind, len) := m.value;
              pos + len <= |s| &&
              Lex(s[pos..]) == Prepend(if kind.TSkip? then []
                else [Token(kind, s[pos..pos + len])], Lex(s[pos + len..]))
  {
    hide MatchToken;
    var m := MatchToken(s[pos..]);
    if m.Some? {
      var len := m.value.1;
      assert s[pos..][len..] == s[pos + len..];
      assert s[pos..][..len] == s[pos..pos + len];
      PrependNothing(Lex(s[pos + len..]));
    }
  }

  method Tokenize(s: string) returns (r: Result<seq<Token>, Error>)
    ensures r == Lex(s)
  {
    hide Lex, MatchToken;
    var tokens, pos := [], 0;
    assert s[0..] == s;
    PrependNothing(Lex(s));
    while pos < |s|
      invariant pos <= |s|
      invariant Lex(s) == Prepend(tokens, Lex(s[pos..]))
    {
      LexTurn(s, pos);
      var m := MatchToken(s[pos..]);
      if m.None? {
        return Err(UnexpectedChar);
      }
      var (kind, len) := m.value;
      if kind.TSkip? {
        PrependNothing(Lex(s[pos + len..]));
      } else {
        PrependTwice(tokens, [Token(kind, s[pos..pos + len])], Lex(s[pos + len..]));
        tokens := tokens + [Token(kind, s[pos..pos + len])];
      }
      pos := pos + len;
    }
    LexEnd(s[pos..], tokens);
    return Ok(tokens);
  }

  lemma {:induction false} LexEnd(s: string, ts: seq<Token>)
    requires s == []
    ensures Prepend(ts, Lex(s)) == Ok(ts)
  {
    assert ts + [] == ts;
  }

  function ParseText(s: string, scope: Scope): Result<Expr, Error> {
    var ts :- Lex(s);
    Parse(ts, scope)
  }

  method ParseResolvable(s: string, scope: Scope) returns (r: Result<Expr, Error>)
    ensures r == ParseText(s, scope)
  {
    var tokens :- Tokenize(s);
    var parser := new RecipeExprParser(tokens, scope);
    r := parser.ParseAll();
  }

  // ------------------------------------------------------------------ printer

  const DIGITS: string := "0123456789"

  function PrintNat(n: nat): string {
    if n < 10 then [DIGITS[n]] else PrintNat(n / 10) + [DIGITS[n % 10]]
  }

  function PrintInt(n: int): string {
    if n < 0 then "-" + PrintNat(-n) else PrintNat(n)
  }

  function OpKind(op: BinOp): Kind {
    match op
    case Add => TPlus case Sub => TMinus case Mult => TMul case Div => TDiv
    case Power => TPower case Mod => TMod
    case Eq => TEq case Ne => TNe case Lt => TLt case Le => TLe case Gt => TGt case Ge => TGe
    case LAnd => TLand case LOr => TLor
  }

  function FuncText(f: Func): string {
    match f
    case Clog2 => "clog2" case Cdiv => "cdiv" case Round => "round"
    case Ceil => "ceil" case Floor => "floor" case ToFloat => "float"
  }

  /** resolvable_print_source: every operation in parentheses. */
  function Print(e: Expr): string
    decreases e
  {
    match e
    case Num(n) => PrintInt(n)
    case Frac(q) => PrintInt(q.num) + "/" + PrintInt(q.den)
    case V => VALUE_PARAM
    case K(name) => name
    case Op(l, op, r) => "(" + Print(l) + " " + Spelling(OpKind(op)) + " " + Print(r) + ")"
    case Not(a) => "(!" + Print(a) + ")"
    case Call(f, args) => "$" + FuncText(f) + "(" + PrintArgs(args) + ")"
  }

  function PrintArgs(args: seq<Expr>): string
    decreases args
  {
    if args == [] then ""
    else if |args| == 1 then Print(args[0])
    else Print(args[0]) + ", " + PrintArgs(args[1..])
  }

  /** A tree whose leaves the scope knows and whose calls are complete. */
  predicate Printable(e: Expr, scope: Scope)
    decreases e
  {
    match e
    case Num(_) => true
    case Frac(_) => false
    case V => scope.hasV
    case K(name) => ValidName(name) && Lookup(scope, name) == Ok(e)
    case Op(l, _, r) => Printable(l, scope) && Printable(r, scope)
    case Not(a) => Printable(a, scope)
    case Call(f, args) => |args| == Arity(f) && forall i :: 0 <= i < |args| ==> Printable(args[i], scope)
  }

  function SignedLiteral(n: int): Cst {
    if n < 0 then Prefix(Minus, Literal(PrintNat(-n))) else Literal(PrintNat(n))
  }

  /** The concrete syntax of the printed text. A negative number printed as the base of a
      power is read as the negation of the power. */
  function CstOf(e: Expr): (c: Cst)
    decreases e
  {
    match e
    case Num(n) => SignedLiteral(n)
    case Frac(q) => Binary(SignedLiteral(q.num), TDiv, SignedLiteral(q.den))
    case V => Ident(VALUE_PARAM)
    case K(name) => Ident(name)
    case Op(l, op, r) =>
      if !op.Power? then Paren(Binary(CstOf(l), OpKind(op), CstOf(r)))
      else if l.Num? && l.n < 0 then Paren(Prefix(Minus, Raise(Literal(PrintNat(-l.n)), CstOf(r))))
      else Paren(Raise(CstOf(l), CstOf(r)))
    case Not(a) => Paren(Prefix(LogicNot, CstOf(a)))
    case Call(f, args) => Apply(FuncText(f), CstsOf(args))
  }

  function CstsOf(es: seq<Expr>): (cs: seq<Cst>)
    ensures |cs| == |es|
    ensures forall i :: 0 <= i < |es| ==> cs[i] == CstOf(es[i])
    decreases es
  {
    if es == [] then [] else [CstOf(es[0])] + CstsOf(es[1..])
  }

  lemma {:induction false} CstIsGrammatical(e: Expr, scope: Scope)
    requires Printable(e, scope)
    ensures At(CstOf(e), UNARY)
    ensures !(e.Num? && e.n < 0) ==> At(CstOf(e), ATOM)
    decreases e
  {
    match e
    case Num(_) =>
    case V =>
    case K(_) =>
    case Op(l, op, r) =>
      CstIsGrammatical(l, scope);
      CstIsGrammatical(r, scope);
      OpIsGrammatical(e);
    case Not(a) => CstIsGrammatical(a, scope);
    case Call(f, args) =>
      forall i | 0 <= i < |args| ensures At(CstOf(args[i]), 0) {
        CstIsGrammatical(args[i], scope);
        AtLower(CstOf(args[i]), UNARY, 0);
      }
  }

  lemma {:induction false} OpIsGrammatical(e: Expr)
    requires e.Op? && At(CstOf(e.lhs), UNARY) && At(CstOf(e.rhs), UNARY)
    requires !(e.lhs.Num? && e.lhs.n < 0) ==> At(CstOf(e.lhs), ATOM)
    ensures At(CstOf(e), UNARY) && At(CstOf(e), ATOM)
  {
    var l, r := CstOf(e.lhs), CstOf(e.rhs);
    if !e.op.Power? {
      BinaryIsGrammatical(l, e.op, r);
    } else if e.lhs.Num? && e.lhs.n < 0 {
      assert At(Raise(Literal(PrintNat(-e.lhs.n)), r), UNARY);
    } else {
      assert At(Raise(l, r), 0);
    }
  }

  lemma {:induction false} BinaryIsGrammatical(l: Cst, op: BinOp, r: Cst)
    requires At(l, UNARY) && At(r, UNARY) && !op.Power?
    ensures Infix(OpKind(op)).Some? && At(Binary(l, OpKind(op), r), 0)
  {
    var level := Infix(OpKind(op)).value.0;
    AtLower(l, UNARY, level);
    AtLower(r, UNARY, level + 1);
  }

  lemma {:induction false} AtLower(c: Cst, hi: nat, lo: nat)
    requires At(c, hi) && lo <= hi
    ensures At(c, lo)
  {
  }

  // ------------------------------------------------------------------ reading printed text

  /** A character that ends any number or name and starts a symbol of its own. */
  predicate Boundary(s: string) {
    s == [] || s[0] == ' ' || s[0] == ')' || s[0] == ',' || s[0] == '('
  }

  lemma {:induction false} RunOf(a: string, s: string, p: char -> bool)
    requires forall i :: 0 <= i < |a| ==> p(a[i])
    requires s == [] || !p(s[0])
    ensures Run(a + s, p) == |a|
  {
    if a == [] {
      assert a + s == s;
    } else {
      assert (a + s)[1..] == a[1..] + s;
      RunOf(a[1..], s, p);
    }
  }

  lemma {:induction false} PrintNatDigits(n: nat)
    ensures PrintNat(n) != [] && forall i :: 0 <= i < |PrintNat(n)| ==> IsDigit(PrintNat(n)[i])
    ensures Decimal(PrintNat(n)) == n
  {
    if n >= 10 {
      PrintNatDigits(n / 10);
      assert PrintNat(n)[..|PrintNat(n)| - 1] == PrintNat(n / 10);
    } else {
      assert PrintNat(n)[..0] == [];
      assert Decimal([]) == 0;
    }
  }

  lemma {:induction false} LexStep(text: string, kind: Kind, s: string)
    requires text != [] && !kind.TSkip? && MatchToken(text + s) == Some((kind, |text|))
    ensures Lex(text + s) == Prepend([Token(kind, text)], Lex(s))
  {
    assert (text + s)[|text|..] == s;
    assert (text + s)[..|text|] == text;
  }

  lemma {:induction false} LexNumber(n: nat, s: string)
    requires Boundary(s)
    ensures Lex(PrintNat(n) + s) == Prepend([Token(TNumber, PrintNat(n))], Lex(s))
  {
    PrintNatDigits(n);
    RunOf(PrintNat(n), s, IsDigit);
    LexStep(PrintNat(n), TNumber, s);
  }

  lemma {:induction false} LexName(name: string, s: string)
    requires ValidName(name) && Boundary(s)
    ensures Lex(name + s) == Prepend([Token(TName, name)], Lex(s))
  {
    RunOf(name, s, IsNameChar);
    LexStep(name, TName, s);
  }

  lemma {:induction false} LexFunc(f: Func, s: string)
    requires Boundary(s)
    ensures Lex("$" + FuncText(f) + s) == Prepend([Token(TFunc, "$" + FuncText(f))], Lex(s))
  {
    var text := "$" + FuncText(f);
    RunOf(FuncText(f), s, IsNameChar);
    assert (text + s)[1..] == FuncText(f) + s;
    LexStep(text, TFunc, s);
  }

  /** One-character symbols that never start a longer one. */
  lemma {:induction false} LexPlain(kind: Kind, s: string)
    requires kind.TLparen? || kind.TRparen? || kind.TComma? || kind.TMinus?
    ensures Lex(Spelling(kind) + s) == Prepend([Symbol(kind)], Lex(s))
  {
    hide Lex, Prepend, MatchToken;
    PlainMatches(kind, s);
    LexStep(Spelling(kind), kind, s);
  }

  lemma {:induction false} PlainMatches(kind: Kind, s: string)
    requires kind.TLparen? || kind.TRparen? || kind.TComma? || kind.TMinus?
    ensures MatchToken(Spelling(kind) + s) == Some((kind, |Spelling(kind)|))
  {
    hide MatchToken;
    var text := Spelling(kind) + s;
    PlainSymbol(kind, s);
    OnlySymbol(text);
  }

  lemma {:induction false} PlainSymbol(kind: Kind, s: string)
    requires kind.TLparen? || kind.TRparen? || kind.TComma? || kind.TMinus?
    ensures SymbolKind(Spelling(kind) + s) == Some((kind, |Spelling(kind)|)) && OpenSymbol(Spelling(kind)[0])
  {
    var text := Spelling(kind) + s;
    assert text[0] == Spelling(kind)[0];
    hide LongSymbol;
    if |text| > 1 {
      NoLongSymbol(text);
    }
  }

  lemma {:induction false} NoLongSymbol(text: string)
    requires |text| > 1 && (text[0] == '(' || text[0] == ')' || text[0] == ',' || text[0] == '-')
    ensures LongSymbol(text).None?
  {
    var two := text[..2];
    assert two[0] == text[0];
  }

  lemma {:induction false} LexNot(s: string)
    requires s != [] && s[0] != '='
    ensures Lex("!" + s) == Prepend([Symbol(TNot)], Lex(s))
  {
    LexStep("!", TNot, s);
  }

  /** A single space in front of text that is not itself a space adds no token. */
  lemma {:induction false} LexSpace(s: string)
    requires s == [] || !IsSpace(s[0])
    ensures Lex(" " + s) == Lex(s)
  {
    RunOf(" ", s, IsSpace);
    assert (" " + s)[1..] == s;
  }

  lemma {:induction false} LexOp(op: BinOp, s: string)
    requires s != [] && !IsSpace(s[0])
    ensures Lex(Spelling(OpKind(op)) + (" " + s)) == Prepend([Symbol(OpKind(op))], Lex(s))
  {
    hide Lex;
    MatchOp(op, " " + s);
    LexStep(Spelling(OpKind(op)), OpKind(op), " " + s);
    LexSpace(s);
  }

  lemma {:induction false} MatchOp(op: BinOp, s: string)
    requires s != [] && s[0] == ' '
    ensures MatchToken(Spelling(OpKind(op)) + s) == Some((OpKind(op), |Spelling(OpKind(op))|))
  {
    var text := Spelling(OpKind(op));
    var t := text + s;
    assert t[0] == text[0];
    OpStarts(op);
    OnlySymbol(t);
    if |text| == 2 {
      assert t[..2] == text;
      LongOp(op, t);
    } else {
      assert t[..2] == [text[0], ' '];
      ShortOp(op, t);
    }
  }

  predicate OpenSymbol(c: char) {
    !IsNameStart(c) && !IsDigit(c) && !IsSpace(c) && c != '$' && c != '.'
  }

  lemma {:induction false} OpStarts(op: BinOp)
    ensures 1 <= |Spelling(OpKind(op))| <= 2 && OpenSymbol(Spelling(OpKind(op))[0])
  {
  }

  lemma {:induction false} OnlySymbol(t: string)
    requires t != [] && OpenSymbol(t[0])
    ensures MatchToken(t) == SymbolKind(t)
  {
    hide SymbolKind;
    assert Run(t, IsDigit) == 0;
  }

  lemma {:induction false} LongOp(op: BinOp, t: string)
    requires |t| > 1 && t[..2] == Spelling(OpKind(op))
    ensures SymbolKind(t) == Some((OpKind(op), 2))
  {
  }

  lemma {:induction false} ShortOp(op: BinOp, t: string)
    requires |t| > 1 && [t[0]] == Spelling(OpKind(op)) && t[1] == ' '
    ensures SymbolKind(t) == Some((OpKind(op), 1))
  {
    assert LongSymbol(t).None? by {
      if LongSymbol(t).Some? {
        assert t[..2][1] == ' ';
      }
    }
    hide LongSymbol;
  }

  /** Printed text starts with a character of its own, never a space or an '='. */
  lemma {:induction false} PrintStarts(e: Expr, scope: Scope)
    requires Printable(e, scope)
    ensures Print(e) != [] && !IsSpace(Print(e)[0]) && Print(e)[0] != '='
  {
    match e
    case Num(n) => PrintNatDigits(if n < 0 then -n else n);
    case _ =>
  }

  /** The tokens of printed text are those of its concrete syntax. */
  lemma {:induction false} PrintLexes(e: Expr, s: string, scope: Scope)
    requires Printable(e, scope) && Boundary(s)
    ensures Lex(Print(e) + s) == Prepend(TokensOf(CstOf(e)), Lex(s))
    decreases e
  {
    match e
    case Num(n) => SignedLexes(n, s);
    case V => LexName(VALUE_PARAM, s);
    case K(name) => LexName(name, s);
    case Op(l, op, r) =>
      var closed := ")" + s;
      PrintLexes(r, closed, scope);
      PrintStarts(r, scope);
      var right := Spelling(OpKind(op)) + (" " + (Print(r) + closed));
      PrintLexes(l, " " + right, scope);
      OpLexes(e, s, scope);
    case Not(a) =>
      PrintLexes(a, ")" + s, scope);
      NotLexes(a, s, scope);
    case Call(f, args) =>
      ArgsLex(args, ")" + s, scope);
      CallLexes(f, args, s);
  }

  lemma {:induction false} SignedLexes(n: int, s: string)
    requires Boundary(s)
    ensures Lex(PrintInt(n) + s) == Prepend(TokensOf(SignedLiteral(n)), Lex(s))
  {
    hide Lex, PrintNat;
    if n < 0 {
      LexNumber(-n, s);
      LexPlain(TMinus, PrintNat(-n) + s);
      assert PrintInt(n) + s == "-" + (PrintNat(-n) + s);
      PrependTwice([Symbol(TMinus)], [Token(TNumber, PrintNat(-n))], Lex(s));
      assert TokensOf(SignedLiteral(n)) == [Symbol(TMinus)] + [Token(TNumber, PrintNat(-n))];
    } else {
      LexNumber(n, s);
    }
  }

  lemma {:induction false} OpLexes(e: Expr, s: string, scope: Scope)
    requires e.Op? && Printable(e, scope)
    requires Lex(Print(e.rhs) + (")" + s)) == Prepend(TokensOf(CstOf(e.rhs)), Lex(")" + s))
    requires var tail := " " + (Spelling(OpKind(e.op)) + (" " + (Print(e.rhs) + (")" + s))));
             Lex(Print(e.lhs) + tail) == Prepend(TokensOf(CstOf(e.lhs)), Lex(tail))
    ensures Lex(Print(e) + s) == Prepend(TokensOf(CstOf(e)), Lex(s))
  {
    hide Lex, TokensOf, CstOf, Prepend, Symbol, Print, Spelling, OpKind, Printable;
    OpStarts(e.op);
    ParenSpelling();
    RightPrintable(e, scope);
    var right := Print(e.rhs) + (")" + s);
    var middle := Spelling(OpKind(e.op)) + (" " + right);
    var left := Print(e.lhs) + (" " + middle);
    PrintStarts(e.rhs, scope);
    LexPlain(TRparen, s);
    LexOp(e.op, right);
    LexSpace(middle);
    LexPlain(TLparen, left);
    OpText(e, s);
    PrependFive([Symbol(TLparen)], TokensOf(CstOf(e.lhs)), [Symbol(OpKind(e.op))], TokensOf(CstOf(e.rhs)),
      [Symbol(TRparen)], Lex(s));
    OpTokens(e);
  }

  lemma {:induction false} ParenSpelling()
    ensures Spelling(TLparen) == "(" && Spelling(TRparen) == ")"
  {
  }

  lemma {:induction false} RightPrintable(e: Expr, scope: Scope)
    requires e.Op? && Printable(e, scope)
    ensures Printable(e.rhs, scope)
  {
  }

  lemma {:induction false} OpText(e: Expr, s: string)
    requires e.Op?
    ensures Print(e) + s ==
            "(" + (Print(e.lhs) + (" " + (Spelling(OpKind(e.op)) + (" " + (Print(e.rhs) + (")" + s))))))
  {
    hide OpKind, Spelling;
  }

  lemma {:induction false} PrependFive(a: seq<Token>, b: seq<Token>, c: seq<Token>, d: seq<Token>, e: seq<Token>,
                                       r: Result<seq<Token>, Error>)
    ensures Prepend(a, Prepend(b, Prepend(c, Prepend(d, Prepend(e, r))))) == Prepend(a + (b + (c + (d + e))), r)
  {
    hide Prepend;
    PrependTwice(d, e, r);
    PrependTwice(c, d + e, r);
    PrependTwice(b, c + (d + e), r);
    PrependTwice(a, b + (c + (d + e)), r);
  }

  lemma {:induction false} OpTokens(e: Expr)
    requires e.Op?
    ensures TokensOf(CstOf(e)) ==
            [Symbol(TLparen)] + (TokensOf(CstOf(e.lhs)) +
              ([Symbol(OpKind(e.op))] + (TokensOf(CstOf(e.rhs)) + [Symbol(TRparen)])))
  {
    hide PrintNat, Symbol;
    var l, k, r := TokensOf(CstOf(e.lhs)), Symbol(OpKind(e.op)), TokensOf(CstOf(e.rhs));
    InParens(l, k, r);
    if e.op.Power? {
      if e.lhs.Num? && e.lhs.n < 0 {
        SignMovesOut(e.lhs.n, CstOf(e.rhs));
      }
    }
  }

  lemma {:induction false} SignMovesOut(n: int, exp: Cst)
    requires n < 0
    ensures TokensOf(Prefix(Minus, Raise(Literal(PrintNat(-n)), exp))) ==
            TokensOf(SignedLiteral(n)) + [Symbol(TPower)] + TokensOf(exp)
  {
    hide PrintNat;
    var base := Literal(PrintNat(-n));
    assert TokensOf(Raise(base, exp)) == TokensOf(base) + [Symbol(TPower)] + TokensOf(exp);
  }

  lemma {:induction false} InParens(l: seq<Token>, k: Token, r: seq<Token>)
    ensures [Symbol(TLparen)] + (l + [k] + r) + [Symbol(TRparen)] ==
            [Symbol(TLparen)] + (l + ([k] + (r + [Symbol(TRparen)])))
  {
  }

  lemma {:induction false} NotLexes(a: Expr, s: string, scope: Scope)
    requires Printable(a, scope)
    requires Lex(Print(a) + (")" + s)) == Prepend(TokensOf(CstOf(a)), Lex(")" + s))
    ensures Lex(Print(Not(a)) + s) == Prepend(TokensOf(CstOf(Not(a))), Lex(s))
  {
    hide Lex, Prepend, Symbol, Print, TokensOf, CstOf;
    var ts := TokensOf(CstOf(a));
    var inner := Print(a) + (")" + s);
    PrintStarts(a, scope);
    LexPlain(TRparen, s);
    LexNot(inner);
    LexPlain(TLparen, "!" + inner);
    NotText(a, s);
    PrependFour([Symbol(TLparen)], [Symbol(TNot)], ts, [Symbol(TRparen)], Lex(s));
    NotTokens(a);
  }

  lemma {:induction false} NotText(a: Expr, s: string)
    ensures Print(Not(a)) + s == "(" + ("!" + (Print(a) + (")" + s)))
  {
    hide Print;
    BangParens(Print(a), s);
    NotPrint(a);
  }

  lemma {:induction false} NotPrint(a: Expr)
    ensures Print(Not(a)) == "(!" + Print(a) + ")"
  {
  }

  lemma {:induction false} BangParens(p: string, s: string)
    ensures "(!" + p + ")" + s == "(" + ("!" + (p + (")" + s)))
  {
  }

  lemma {:induction false} NotTokens(a: Expr)
    ensures TokensOf(CstOf(Not(a))) == [Symbol(TLparen)] + ([Symbol(TNot)] + (TokensOf(CstOf(a)) + [Symbol(TRparen)]))
  {
    hide Symbol;
  }

  lemma {:induction false} PrependFour(a: seq<Token>, b: seq<Token>, c: seq<Token>, d: seq<Token>,
                                       r: Result<seq<Token>, Error>)
    ensures Prepend(a, Prepend(b, Prepend(c, Prepend(d, r)))) == Prepend(a + (b + (c + d)), r)
  {
    hide Prepend;
    PrependTwice(c, d, r);
    PrependTwice(b, c + d, r);
    PrependTwice(a, b + (c + d), r);
  }

  lemma {:induction false} ArgsLex(args: seq<Expr>, s: string, scope: Scope)
    requires args != [] && Boundary(s) && forall i :: 0 <= i < |args| ==> Printable(args[i], scope)
    ensures Lex(PrintArgs(args) + s) == Prepend(TokensOfArgs(CstsOf(args)), Lex(s))
    decreases args
  {
    if |args| == 1 {
      PrintLexes(args[0], s, scope);
    } else {
      PrintLexes(args[0], "," + (" " + (PrintArgs(args[1..]) + s)), scope);
      ArgsLex(args[1..], s, scope);
      PrintStarts(args[1], scope);
      MoreArgsLex(args, s);
    }
  }

  lemma {:induction false} MoreArgsLex(args: seq<Expr>, s: string)
    requires |args| > 1 && Print(args[1]) != [] && !IsSpace(Print(args[1])[0])
    requires var tail := "," + (" " + (PrintArgs(args[1..]) + s));
             Lex(Print(args[0]) + tail) == Prepend(TokensOf(CstOf(args[0])), Lex(tail))
    requires Lex(PrintArgs(args[1..]) + s) == Prepend(TokensOfArgs(CstsOf(args[1..])), Lex(s))
    ensures Lex(PrintArgs(args) + s) == Prepend(TokensOfArgs(CstsOf(args)), Lex(s))
  {
    hide Lex, Prepend, Symbol, Print, PrintArgs, TokensOf, TokensOfArgs, CstOf, CstsOf;
    var more := PrintArgs(args[1..]) + s;
    ArgsStart(args[1..]);
    LexSpace(more);
    LexPlain(TComma, " " + more);
    ArgsText(args, s);
    var ts := TokensOfArgs(CstsOf(args[1..]));
    PrependTwice([Symbol(TComma)], ts, Lex(s));
    PrependTwice(TokensOf(CstOf(args[0])), [Symbol(TComma)] + ts, Lex(s));
    ArgsTokens(args);
  }

  lemma {:induction false} ArgsStart(args: seq<Expr>)
    requires args != [] && Print(args[0]) != []
    ensures PrintArgs(args) != [] && PrintArgs(args)[0] == Print(args[0])[0]
  {
    hide Print;
  }

  lemma {:induction false} ArgsText(args: seq<Expr>, s: string)
    requires |args| > 1
    ensures PrintArgs(args) + s == Print(args[0]) + ("," + (" " + (PrintArgs(args[1..]) + s)))
  {
    hide Print;
  }

  lemma {:induction false} ArgsTokens(args: seq<Expr>)
    requires |args| > 1
    ensures TokensOfArgs(CstsOf(args)) ==
              TokensOf(CstOf(args[0])) + ([Symbol(TComma)] + TokensOfArgs(CstsOf(args[1..])))
  {
    hide Symbol, TokensOf, CstOf;
    assert CstsOf(args)[1..] == CstsOf(args[1..]);
  }

  lemma {:induction false} CallLexes(f: Func, args: seq<Expr>, s: string)
    requires Lex(PrintArgs(args) + (")" + s)) == Prepend(TokensOfArgs(CstsOf(args)), Lex(")" + s))
    ensures Lex(Print(Call(f, args)) + s) == Prepend(TokensOf(CstOf(Call(f, args))), Lex(s))
  {
    hide Lex, Prepend, Symbol, FuncText, PrintArgs, CstsOf, TokensOfArgs;
    var ts := TokensOfArgs(CstsOf(args));
    var inner := PrintArgs(args) + (")" + s);
    LexPlain(TRparen, s);
    LexPlain(TLparen, inner);
    LexFunc(f, "(" + inner);
    assert Print(Call(f, args)) + s == "$" + FuncText(f) + ("(" + inner);
    PrependFour([Token(TFunc, "$" + FuncText(f))], [Symbol(TLparen)], ts, [Symbol(TRparen)], Lex(s));
    assert TokensOf(CstOf(Call(f, args))) ==
           [Token(TFunc, "$" + FuncText(f))] + ([Symbol(TLparen)] + (ts + [Symbol(TRparen)]));
  }

  /** The printer writes grammatical text, and the parser reads it as its concrete syntax. */
  lemma {:induction false} PrintedTextParses(e: Expr, scope: Scope)
    requires Printable(e, scope)
    ensures ParseText(Print(e), scope) == Denote(CstOf(e), scope)
  {
    PrintLexes(e, "", scope);
    assert Print(e) + "" == Print(e);
    assert TokensOf(CstOf(e)) + [] == TokensOf(CstOf(e));
    CstIsGrammatical(e, scope);
    AtLower(CstOf(e), UNARY, 0);
    ParseFollowsGrammar(CstOf(e), scope);
  }

  // ------------------------------------------------------------------ round trip

  /** No negative number is raised to a power. */
  predicate NoNegativeBase(e: Expr)
    decreases e
  {
    match e
    case Op(l, op, r) => NoNegativeBase(l) && NoNegativeBase(r) && !(op.Power? && l.Num? && l.n < 0)
    case Not(a) => NoNegativeBase(a)
    case Call(_, args) => forall i :: 0 <= i < |args| ==> NoNegativeBase(args[i])
    case _ => true
  }

  lemma {:induction false} SignedDenotes(n: int, scope: Scope)
    ensures Denote(SignedLiteral(n), scope) == Ok(Num(n))
  {
    PrintNatDigits(if n < 0 then -n else n);
  }

  lemma {:induction false} DenoteEach(es: seq<Expr>, scope: Scope)
    requires forall i :: 0 <= i < |es| ==> Denote(CstOf(es[i]), scope) == Ok(es[i])
    ensures DenoteAll(CstsOf(es), scope) == Ok(es)
    decreases es
  {
    if es != [] {
      assert CstsOf(es)[1..] == CstsOf(es[1..]);
      DenoteEach(es[1..], scope);
      assert [es[0]] + es[1..] == es;
    }
  }

  lemma {:induction false} FuncOfText(f: Func)
    ensures FuncOf(FuncText(f)) == Some(f)
  {
    assert FuncText(f)[0] == "clog2"[0] || FuncText(f)[0] == "round"[0] || FuncText(f)[0] == "float"[0];
  }

  lemma {:induction false} ReadsBack(e: Expr, scope: Scope)
    requires Printable(e, scope) && Normal(e) && NoNegativeBase(e)
    ensures Denote(CstOf(e), scope) == Ok(e)
    decreases e
  {
    match e
    case Num(n) => SignedDenotes(n, scope);
    case V =>
    case K(_) =>
    case Op(l, op, r) =>
      ReadsBack(l, scope);
      ReadsBack(r, scope);
      OpDenotes(e, scope);
    case Not(a) => ReadsBack(a, scope);
    case Call(f, args) =>
      forall i | 0 <= i < |args| ensures Denote(CstOf(args[i]), scope) == Ok(args[i]) {
        ReadsBack(args[i], scope);
      }
      DenoteEach(args, scope);
      FuncOfText(f);
  }

  /** Away from negative bases, a printed operation denotes the operation of what its
      printed operands denote. */
  lemma {:induction false} OpDenotes(e: Expr, scope: Scope)
    requires e.Op? && !(e.op.Power? && e.lhs.Num? && e.lhs.n < 0)
    ensures Denote(CstOf(e), scope) == Joined(Denote(CstOf(e.lhs), scope), e.op, Denote(CstOf(e.rhs), scope))
  {
    hide MakeOp, OpKind, Infix;
    InfixOfOp(e.op);
    var inner := CstOf(e).inner;
    assert Denote(CstOf(e), scope) == Denote(inner, scope);
  }

  lemma {:induction false} InfixOfOp(op: BinOp)
    ensures !op.Power? ==> Infix(OpKind(op)).Some? && Infix(OpKind(op)).value.1 == op
  {
  }

  function Joined(l: Result<Expr, Error>, op: BinOp, r: Result<Expr, Error>): Result<Expr, Error> {
    var a :- l;
    var b :- r;
    MakeOp(a, op, b)
  }
}
