/** The expression trees of a recipe, the constant folding that builds them, and their
    value as the generated Python source computes it. */
module RecipeTree {
  import opened Wrappers
  import opened Rational
  import Bits

  datatype BinOp =
    | Add | Sub | Mult | Div | Power | Mod
    | Eq | Ne | Lt | Le | Gt | Ge
    | LAnd | LOr

  datatype Func = Clog2 | Cdiv | Round | Ceil | Floor | ToFloat

  /** A recipe tree. V is the register value parameter, K a recipe name known only at run
      time. Frac is the exact fraction the inverter uses for its coefficients; the parser
      never makes one. */
  datatype Expr =
    | Num(n: int)
    | Frac(q: Fraction)
    | V
    | K(name: string)
    | Op(lhs: Expr, op: BinOp, rhs: Expr)
    | Not(arg: Expr)
    | Call(func: Func, args: seq<Expr>)

  /** Why a recipe expression is refused. FloatValue marks the places where the code would
      go on with a float, which this model does not follow. */
  datatype Error =
    | UnexpectedChar | UnexpectedEnd | UnexpectedToken | Expected | Trailing
    | UnknownName | UnknownFunction | WrongArity
    | ZeroDivision | FloatValue

  function Arity(f: Func): nat {
    if f.Cdiv? then 2 else 1
  }

  function Pow(b: int, e: nat): int {
    if e == 0 then 1 else b * Pow(b, e - 1)
  }

  /** make_resolvable_function: builds an operation, folding int constants and moving the
      constant of (x + c1) + c2 together. */
  function MakeOp(l: Expr, op: BinOp, r: Expr): Result<Expr, Error> {
    if r.Num? then
      if l.Num? then
        match op
        case Add => Ok(Num(l.n + r.n))
        case Sub => Ok(Num(l.n - r.n))
        case Mult => Ok(Num(l.n * r.n))
        case Div => if r.n == 0 then Err(ZeroDivision) else Ok(Num(FloorDiv(l.n, r.n)))
        case Power =>
          if r.n >= 0 then Ok(Num(Pow(l.n, r.n)))
          else if l.n == 0 then Err(ZeroDivision) else Err(FloatValue)
        case _ => Ok(Op(l, op, r))
      else if l.Op? && l.rhs.Num? && op.Add? && l.op.Add? then
        Ok(Op(l.lhs, Add, Num(l.rhs.n + r.n)))
      else
        Ok(Op(l, op, r))
    else
      Ok(Op(l, op, r))
  }

  // ------------------------------------------------------------------ values

  datatype Env = Env(v: int, k: string -> int)

  function Truth(b: bool): int {
    if b then 1 else 0
  }

  /** The generated Python operators on ints: `/` is `//`, the logic operators give one of
      their operands and skip the right one. None stands for a run-time error or a float. */
  function EvalOp(op: BinOp, l: Option<int>, r: Option<int>): Option<int> {
    if l.None? then None
    else if op.LAnd? && l.value == 0 then l
    else if op.LOr? && l.value != 0 then l
    else if r.None? then None
    else
      var a, b := l.value, r.value;
      match op
      case Add => Some(a + b)
      case Sub => Some(a - b)
      case Mult => Some(a * b)
      case Div => if b == 0 then None else Some(FloorDiv(a, b))
      case Power => if b < 0 then None else Some(Pow(a, b))
      case Mod => if b == 0 then None else Some(FloorMod(a, b))
      case Eq => Some(Truth(a == b))
      case Ne => Some(Truth(a != b))
      case Lt => Some(Truth(a < b))
      case Le => Some(Truth(a <= b))
      case Gt => Some(Truth(a > b))
      case Ge => Some(Truth(a >= b))
      case LAnd => r
      case LOr => r
  }

  function EvalNot(a: Option<int>): Option<int> {
    if a.None? then None else Some(Truth(a.value == 0))
  }

  function EvalCall(f: Func, args: seq<Option<int>>): Option<int> {
    if |args| != Arity(f) || exists i :: 0 <= i < |args| && args[i].None? then None
    else
      match f
      case Clog2 => Some(Bits.BitLength(Abs(args[0].value - 1)))
      case Cdiv => if args[1].value == 0 then None else Some(CeilDiv(args[0].value, args[1].value))
      case Round => args[0]
      case Ceil => args[0]
      case Floor => args[0]
      case ToFloat => None
  }

  function Eval(e: Expr, env: Env): Option<int>
    decreases e
  {
    match e
    case Num(n) => Some(n)
    case Frac(_) => None
    case V => Some(env.v)
    case K(name) => Some(env.k(name))
    case Op(l, op, r) => EvalOp(op, Eval(l, env), Eval(r, env))
    case Not(a) => EvalNot(Eval(a, env))
    case Call(f, args) => EvalCall(f, EvalAll(args, env))
  }

  function EvalAll(es: seq<Expr>, env: Env): (vs: seq<Option<int>>)
    ensures |vs| == |es|
    decreases es
  {
    if es == [] then [] else [Eval(es[0], env)] + EvalAll(es[1..], env)
  }

  /** Folding keeps the value, and keeps an undefined value undefined. */
  lemma {:induction false} FoldKeepsValue(l: Expr, op: BinOp, r: Expr, env: Env)
    requires MakeOp(l, op, r).Ok?
    ensures Eval(MakeOp(l, op, r).value, env) == EvalOp(op, Eval(l, env), Eval(r, env))
  {
    if r.Num? && l.Op? && l.rhs.Num? && op.Add? && l.op.Add? {
      var x := Eval(l.lhs, env);
      assert Eval(l, env) == EvalOp(Add, x, Some(l.rhs.n));
    }
  }

  /** When folding is refused, the operation has no int value at all. */
  lemma {:induction false} RefusedFoldHasNoValue(l: Expr, op: BinOp, r: Expr, env: Env)
    requires MakeOp(l, op, r).Err?
    ensures EvalOp(op, Eval(l, env), Eval(r, env)).None?
  {
  }

  // ------------------------------------------------------------------ normal form

  /** A tree as the parser leaves it: no operation in it would fold further, calls have the
      number of arguments their function takes, and there is no fraction. */
  predicate Normal(e: Expr)
    decreases e
  {
    match e
    case Num(_) => true
    case Frac(_) => false
    case V => true
    case K(_) => true
    case Op(l, op, r) => Normal(l) && Normal(r) && MakeOp(l, op, r) == Ok(e)
    case Not(a) => Normal(a)
    case Call(f, args) => |args| == Arity(f) && forall i :: 0 <= i < |args| ==> Normal(args[i])
  }

  /** Folding gives a normal form: one pass is enough. */
  lemma {:induction false} FoldIsNormal(l: Expr, op: BinOp, r: Expr)
    requires Normal(l) && Normal(r) && MakeOp(l, op, r).Ok?
    ensures Normal(MakeOp(l, op, r).value)
  {
    if r.Num? && l.Op? && l.rhs.Num? && op.Add? && l.op.Add? {
      assert MakeOp(l.lhs, Add, l.rhs) == Ok(l);
      if l.lhs.Op? {
        assert l.lhs.lhs < l.lhs;
      }
      assert !l.lhs.Num? && !(l.lhs.Op? && l.lhs.rhs.Num? && l.lhs.op.Add?);
    }
  }

  // ------------------------------------------------------------------ what the operators mean

  /** Powers: exponents add up. */
  lemma {:induction false} PowLaws(b: int, m: nat, n: nat)
    ensures Pow(b, 0) == 1 && Pow(b, 1) == b && Pow(b, m + n) == Pow(b, m) * Pow(b, n)
    decreases m
  {
    if m > 0 {
      PowLaws(b, m - 1, n);
      Regroup(b, Pow(b, m - 1), Pow(b, n));
      assert Pow(b, m + n) == b * Pow(b, m - 1 + n);
    } else {
      assert Pow(b, 1) == b * Pow(b, 0);
    }
  }

  lemma {:induction false} Regroup(a: int, b: int, c: int)
    ensures (a * b) * c == a * (b * c)
  {
  }

  /** Comparisons are 0 or 1, of `<`, `==` and `>` exactly one is 1, and the others follow. */
  lemma {:induction false} ComparisonLaws(a: int, b: int)
    ensures var (x, y) := (Some(a), Some(b));
            EvalOp(Lt, x, y) == Some(if a < b then 1 else 0) && EvalOp(Gt, x, y) == EvalOp(Lt, y, x) &&
            EvalOp(Eq, x, y) == Some(if a == b then 1 else 0) && EvalOp(Ne, x, y) == EvalNot(EvalOp(Eq, x, y)) &&
            EvalOp(Le, x, y) == EvalNot(EvalOp(Gt, x, y)) && EvalOp(Ge, x, y) == EvalNot(EvalOp(Lt, x, y))
  {
  }

  /** The logic operators give the operand that decides, and look at the right one only when the
      left one does not. */
  lemma {:induction false} LogicLaws(a: int, r: Option<int>)
    ensures EvalOp(LAnd, Some(a), r) == if a == 0 then Some(0) else r
    ensures EvalOp(LOr, Some(a), r) == if a != 0 then Some(a) else r
    ensures EvalNot(Some(a)) == Some(if a == 0 then 1 else 0)
    ensures EvalOp(LAnd, None, r) == None && EvalOp(LOr, None, r) == None
  {
  }

  /** `/` and `%` in generated Python: the quotient rounded down and the remainder it leaves, which
      lies between 0 and the divisor. */
  lemma {:induction false} DivisionLaws(a: int, b: int, q: int, m: int)
    requires EvalOp(Div, Some(a), Some(b)) == Some(q) && EvalOp(Mod, Some(a), Some(b)) == Some(m)
    ensures b != 0 && a == b * q + m && (b > 0 ==> 0 <= m < b) && (b < 0 ==> b < m <= 0)
  {
  }

  lemma {:induction false} ZeroDivides(a: int)
    ensures EvalOp(Div, Some(a), Some(0)) == None && EvalOp(Mod, Some(a), Some(0)) == None
  {
  }

  /** Main result: what is folded: every operation of + - * / ** on two ints, to its value, and a
      constant added to a sum that ends in one; nothing else. */
  lemma {:induction false} FoldsExactly(a: int, op: BinOp, b: int, x: Expr, y: Expr)
    ensures op in {Add, Sub, Mult, Div, Power} ==>
              var folded := MakeOp(Num(a), op, Num(b));
              if folded.Ok? then folded.value.Num? && Some(folded.value.n) == EvalOp(op, Some(a), Some(b))
              else (op == Div && b == 0) || (op == Power && b < 0)
    ensures op !in {Add, Sub, Mult, Div, Power} ==> MakeOp(Num(a), op, Num(b)) == Ok(Op(Num(a), op, Num(b)))
    ensures MakeOp(Op(x, Add, Num(a)), Add, Num(b)) == Ok(Op(x, Add, Num(a + b)))
    ensures !(x.Num? && y.Num?) && !(op == Add && x.Op? && x.op == Add && x.rhs.Num? && y.Num?) ==>
              MakeOp(x, op, y) == Ok(Op(x, op, y))
  {
  }

  lemma {:induction false} EvalAllAt(es: seq<Expr>, env: Env, i: nat)
    requires i < |es|
    ensures EvalAll(es, env)[i] == Eval(es[i], env)
    decreases es
  {
    hide Eval;
    if i > 0 {
      EvalAllAt(es[1..], env, i - 1);
    }
  }
}
