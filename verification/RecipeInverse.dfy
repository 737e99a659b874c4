/** The inverter of value conversions: reads a tree as coef * v + offset with exact
    rational coefficients, and builds v -> (v - offset) / coef. */
module RecipeInverse {
  import opened Division
  import opened Wrappers
  import opened Rational
  import opened RecipeTree
  import Bits
  import Widths

  datatype InvertError = NotInvertible | DivideByZero

  // ------------------------------------------------------------------ numbers in trees

  predicate IsNum(e: Expr) {
    e.Num? || e.Frac?
  }

  predicate IsInt(e: Expr, n: int) {
    e == Num(n)
  }

  function NumValue(e: Expr): Fraction
    requires IsNum(e)
  {
    if e.Num? then Whole(e.n) else e.q
  }

  /** A fraction with denominator 1 is written as an int. */
  function Norm(q: Fraction): Expr {
    if q.den == 1 then Num(q.num) else Frac(q)
  }

  predicate ContainsV(e: Expr)
    decreases e
  {
    match e
    case V => true
    case Op(l, _, r) => ContainsV(l) || ContainsV(r)
    case Not(a) => ContainsV(a)
    case Call(_, args) => exists i :: 0 <= i < |args| && ContainsV(args[i])
    case _ => false
  }

  /** resolvable_to_int: the number a tree without names stands for, with the recipe's
      ceiling `/` on ints; None when it raises or leaves the numbers modelled here. */
  function Resolve(e: Expr): (r: Option<Expr>)
    ensures r.Some? ==> IsNum(r.value)
    decreases e
  {
    match e
    case Num(_) => Some(e)
    case Frac(_) => Some(e)
    case V => None
    case K(_) => None
    case Op(l, op, r) =>
      var a :- Resolve(l);
      var b :- Resolve(r);
      ResolveOp(a, op, b)
    case Not(a) =>
      var x :- Resolve(a);
      Some(Num(Truth(NumValue(x).num == 0)))
    case Call(f, args) =>
      var xs :- ResolveAll(args);
      ResolveCall(f, xs)
  }

  function ResolveAll(es: seq<Expr>): (r: Option<seq<Expr>>)
    decreases es
  {
    if es == [] then Some([])
    else
      var x :- Resolve(es[0]);
      var xs :- ResolveAll(es[1..]);
      Some([x] + xs)
  }

  function ResolveOp(a: Expr, op: BinOp, b: Expr): (r: Option<Expr>)
    requires IsNum(a) && IsNum(b)
    ensures r.Some? ==> IsNum(r.value)
  {
    if a.Num? && b.Num? then
      match op
      case Add => Some(Num(a.n + b.n))
      case Sub => Some(Num(a.n - b.n))
      case Mult => Some(Num(a.n * b.n))
      case Div => if b.n == 0 then None else Some(Num(CeilDiv(a.n, b.n)))
      case Power => if b.n < 0 then None else Some(Num(Pow(a.n, b.n)))
      case Mod => if b.n == 0 then None else Some(Num(FloorMod(a.n, b.n)))
      case Eq => Some(Num(Truth(a.n == b.n)))
      case Ne => Some(Num(Truth(a.n != b.n)))
      case Lt => Some(Num(Truth(a.n < b.n)))
      case Le => Some(Num(Truth(a.n <= b.n)))
      case Gt => Some(Num(Truth(a.n > b.n)))
      case Ge => Some(Num(Truth(a.n >= b.n)))
      case LAnd => Some(Num(Truth(a.n != 0 && b.n != 0)))
      case LOr => Some(Num(Truth(a.n != 0 || b.n != 0)))
    else
      var x, y := NumValue(a), NumValue(b);
      match op
      case Add => Some(Frac(FracAdd(x, y)))
      case Sub => Some(Frac(FracSub(x, y)))
      case Mult => Some(Frac(FracMul(x, y)))
      case Div => if y.num == 0 then None else Some(Frac(FracDiv(x, y)))
      case _ => None
  }

  function ResolveCall(f: Func, xs: seq<Expr>): (r: Option<Expr>)
    ensures r.Some? ==> IsNum(r.value)
  {
    if |xs| != Arity(f) || exists i :: 0 <= i < |xs| && !xs[i].Num? then None
    else
      match f
      case Clog2 => Some(Num(if xs[0].n <= 1 then 0 else Bits.BitLength(xs[0].n - 1)))
      case Cdiv => if xs[1].n == 0 then None else Some(Num(CeilDiv(xs[0].n, xs[1].n)))
      case Round => Some(xs[0])
      case Ceil => Some(xs[0])
      case Floor => Some(xs[0])
      case ToFloat => None
  }

  /** _try_int: the number a tree resolves to, or the tree itself. */
  function TryInt(e: Expr): Expr {
    if IsNum(e) || Resolve(e).None? then e else Resolve(e).value
  }

  /** Exactly the trees the resolver has a number for are replaced, by that number. */
  lemma {:induction false} TryIntIff(e: Expr)
    ensures IsNum(TryInt(e)) <==> Resolve(e).Some?
    ensures Resolve(e).Some? ==> TryInt(e) == Resolve(e).value
    ensures Resolve(e).None? ==> TryInt(e) == e
  {
    if IsNum(e) {
      assert Resolve(e) == Some(e);
    }
  }

  // ------------------------------------------------------------------ simplifying operations

  function ExprAdd(l: Expr, r: Expr): Expr
    decreases IsNum(r) && NumValue(r).num < 0
  {
    if IsInt(l, 0) then r
    else if IsInt(r, 0) then l
    else if IsNum(l) && IsNum(r) then Norm(FracAdd(NumValue(l), NumValue(r)))
    else if IsNum(r) && NumValue(r).num < 0 then ExprSub(l, Norm(FracNeg(NumValue(r))))
    else Op(l, Add, r)
  }

  function ExprSub(l: Expr, r: Expr): Expr
    decreases IsNum(r) && NumValue(r).num < 0
  {
    if IsInt(r, 0) then l
    else if IsNum(l) && IsNum(r) then Norm(FracSub(NumValue(l), NumValue(r)))
    else if IsNum(r) && NumValue(r).num < 0 then ExprAdd(l, Norm(FracNeg(NumValue(r))))
    else Op(l, Sub, r)
  }

  function ExprMult(l: Expr, r: Expr): Expr {
    if IsInt(l, 0) || IsInt(r, 0) then Num(0)
    else if IsInt(l, 1) then r
    else if IsInt(r, 1) then l
    else if IsNum(l) && IsNum(r) then Norm(FracMul(NumValue(l), NumValue(r)))
    else Op(l, Mult, r)
  }

  function ExprDiv(l: Expr, r: Expr): Result<Expr, InvertError> {
    if IsInt(l, 0) then Ok(Num(0))
    else if IsInt(r, 1) then Ok(l)
    else if IsNum(l) && IsNum(r) then
      if NumValue(r).num == 0 then Err(DivideByZero) else Ok(Norm(FracDiv(NumValue(l), NumValue(r))))
    else Ok(Op(l, Div, r))
  }

  // ------------------------------------------------------------------ the inverter

  /** affine_in_v: coefficients of e as coef * v + offset. */
  function AffineInV(e: Expr): Result<(Expr, Expr), InvertError>
    decreases e
  {
    if e.V? then Ok((Num(1), Num(0)))
    else if !ContainsV(e) then Ok((Num(0), e))
    else if !e.Op? then Err(NotInvertible)
    else
      var (cl, ol) :- AffineInV(e.lhs);
      match e.op
      case Add =>
        var (cr, or) :- AffineInV(e.rhs);
        Ok((ExprAdd(cl, cr), ExprAdd(ol, or)))
      case Sub =>
        var (cr, or) :- AffineInV(e.rhs);
        Ok((ExprSub(cl, cr), ExprSub(ol, or)))
      case Mult =>
        var (cr, or) :- AffineInV(e.rhs);
        if !IsInt(cr, 0) then Err(NotInvertible)
        else Ok((ExprMult(cl, e.rhs), ExprMult(ol, e.rhs)))
      case Div =>
        var (cr, or) :- AffineInV(e.rhs);
        if !IsInt(cr, 0) then Err(NotInvertible)
        else
          var d := TryInt(e.rhs);
          var c :- ExprDiv(cl, d);
          var o :- ExprDiv(ol, d);
          Ok((c, o))
      case _ => Err(NotInvertible)
  }

  predicate NoFraction(e: Expr)
    decreases e
  {
    match e
    case Frac(_) => false
    case Op(l, _, r) => NoFraction(l) && NoFraction(r)
    case Not(a) => NoFraction(a)
    case Call(_, args) => forall i :: 0 <= i < |args| ==> NoFraction(args[i])
    case _ => true
  }

  /** (v * lhs - off) / rhs with whole coefficients that have no common factor. */
  datatype Scaled = Scaled(lhs: int, off: int, rhs: int)

  /** (v - a/b) / (n/d) over whole numbers. */
  function ScaledInverse(coef: Fraction, offset: Fraction): Scaled {
    var lhs := offset.den * coef.den;
    var off := offset.num * coef.den;
    var rhs := offset.den * coef.num;
    var g := Gcd(Gcd(Abs(lhs), Abs(off)), Abs(rhs));
    if g == 0 then Scaled(lhs, off, rhs)
    else
      var s := Scaled(SignedQuotient(lhs, g), SignedQuotient(off, g), SignedQuotient(rhs, g));
      if s.rhs < 0 then Scaled(-s.lhs, -s.off, -s.rhs) else s
  }

  function ScaledTree(s: Scaled): Result<Expr, InvertError> {
    ExprDiv(ExprSub(ExprMult(V, Num(s.lhs)), Num(s.off)), Num(s.rhs))
  }

  function InverseAffine(coef: Expr, offset: Expr): Result<Expr, InvertError> {
    var c, o := TryInt(coef), TryInt(offset);
    if IsNum(c) && IsNum(o) then ScaledTree(ScaledInverse(NumValue(c), NumValue(o)))
    else if !NoFraction(c) || !NoFraction(o) then Err(NotInvertible)
    else ExprDiv(ExprSub(V, o), c)
  }

  /** The tree under an outer rounding call, which is dropped before the inversion. */
  function Unwrap(e: Expr): Expr {
    if e.Call? && (e.func.Round? || e.func.Ceil? || e.func.Floor? || e.func.ToFloat?) && |e.args| == 1
    then e.args[0] else e
  }

  function Invert(e: Expr): Result<Expr, InvertError> {
    var (coef, offset) :- AffineInV(Unwrap(e));
    if IsNum(coef) && NumValue(coef).num == 0 then Err(NotInvertible)
    else InverseAffine(coef, offset)
  }

  // ------------------------------------------------------------------ exact values

  /** What the names, and every sub-expression that is not one of + - * /, stand for. */
  type Atoms = Expr -> real

  function ExactOp(op: BinOp, a: real, b: real): Option<real> {
    match op
    case Add => Some(a + b)
    case Sub => Some(a - b)
    case Mult => Some(Times(a, b))
    case Div => if b == 0.0 then None else Some(Over(a, b))
    case _ => None
  }

  /** Product and quotient under names of their own, so that proofs can keep them folded. */
  function Times(a: real, b: real): real {
    a * b
  }

  function Over(a: real, b: real): real
    requires b != 0.0
  {
    a / b
  }

  lemma {:induction false} ExactOps(a: real, b: real)
    ensures ExactOp(Add, a, b) == Some(a + b) && ExactOp(Sub, a, b) == Some(a - b) &&
              ExactOp(Mult, a, b) == Some(Times(a, b))
    ensures b != 0.0 ==> ExactOp(Div, a, b) == Some(Over(a, b))
    ensures b == 0.0 ==> ExactOp(Div, a, b) == None
  {
  }

  /** The exact rational value of a tree with v standing for x. */
  function ValueAt(e: Expr, atoms: Atoms, x: real): Option<real>
    decreases e
  {
    match e
    case Num(n) => Some(n as real)
    case Frac(q) => Some(ToReal(q))
    case V => Some(x)
    case Op(l, op, r) =>
      if op.Add? || op.Sub? || op.Mult? || op.Div? then
        var a :- ValueAt(l, atoms, x);
        var b :- ValueAt(r, atoms, x);
        ExactOp(op, a, b)
      else Some(atoms(e))
    case _ => Some(atoms(e))
  }

  /** A number, or a tree with a name in it that only run time knows. Such a coefficient is
      never evaluated by the inverter, so its `/` keeps the exact value. */
  predicate Exact(e: Expr) {
    IsNum(e) || Resolve(e).None?
  }

  /** Every operand that does not use v is exact. */
  predicate ExactOperands(e: Expr)
    decreases e
  {
    if !ContainsV(e) then Exact(e)
    else match e
         case Op(l, _, r) => ExactOperands(l) && ExactOperands(r)
         case _ => true
  }

  /** What the resolver makes of e, if anything, has the exact value of e: it rounds no quotient,
      and takes the sub-expressions it computes for what they stand for. */
  ghost predicate Kept(e: Expr, atoms: Atoms) {
    forall x :: ValueAt(TryInt(e), atoms, x) == ValueAt(e, atoms, x)
  }

  /** The resolver keeps every divisor. */
  ghost predicate DivisorsKept(e: Expr, atoms: Atoms)
    decreases e
  {
    ContainsV(e) && e.Op? ==>
      DivisorsKept(e.lhs, atoms) && DivisorsKept(e.rhs, atoms) && (e.op.Div? ==> Kept(e.rhs, atoms))
  }

  /** The value of t does not depend on v. */
  ghost predicate Fixed(t: Expr, atoms: Atoms) {
    forall x :: ValueAt(t, atoms, x) == ValueAt(t, atoms, 0.0)
  }

  /** No factor and no divisor depends on v; one without v never does. */
  ghost predicate FactorsFixed(e: Expr, atoms: Atoms)
    decreases e
  {
    ContainsV(e) && e.Op? ==>
      FactorsFixed(e.lhs, atoms) &&
      if e.op.Mult? || e.op.Div? then Fixed(e.rhs, atoms) else FactorsFixed(e.rhs, atoms)
  }

  lemma {:induction false} NumValueAt(e: Expr, atoms: Atoms, x: real)
    requires IsNum(e)
    ensures ValueAt(e, atoms, x) == Some(ToReal(NumValue(e)))
  {
    hide Gcd;
    if e.Num? {
      QuotientFrom(e.n as real, 1.0, e.n as real);
    }
  }

  lemma {:induction false} NormValueAt(q: Fraction, atoms: Atoms, x: real)
    ensures ValueAt(Norm(q), atoms, x) == Some(ToReal(q)) && IsNum(Norm(q))
  {
    hide Gcd;
    if q.den == 1 {
      QuotientFrom(q.num as real, 1.0, q.num as real);
    }
  }

  lemma {:induction false} SumOfNumbers(l: Expr, r: Expr, atoms: Atoms, x: real)
    requires IsNum(l) && IsNum(r)
    ensures ValueAt(l, atoms, x).Some? && ValueAt(r, atoms, x).Some?
    ensures ValueAt(Norm(FracAdd(NumValue(l), NumValue(r))), atoms, x) ==
              Some(ValueAt(l, atoms, x).value + ValueAt(r, atoms, x).value)
    ensures ValueAt(Norm(FracSub(NumValue(l), NumValue(r))), atoms, x) ==
              Some(ValueAt(l, atoms, x).value - ValueAt(r, atoms, x).value)
  {
    hide *;
    NumValueAt(l, atoms, x);
    NumValueAt(r, atoms, x);
    AddIsSum(NumValue(l), NumValue(r));
    SubIsDifference(NumValue(l), NumValue(r));
    NormValueAt(FracAdd(NumValue(l), NumValue(r)), atoms, x);
    NormValueAt(FracSub(NumValue(l), NumValue(r)), atoms, x);
  }

  lemma {:induction false} NegatedNumber(r: Expr, atoms: Atoms, x: real)
    requires IsNum(r) && NumValue(r).num < 0
    ensures var n := Norm(FracNeg(NumValue(r)));
            ValueAt(r, atoms, x).Some? && ValueAt(n, atoms, x) == Some(-ValueAt(r, atoms, x).value) &&
            IsNum(n) && NumValue(n).num > 0
  {
    hide *;
    NumValueAt(r, atoms, x);
    NormValueAt(FracNeg(NumValue(r)), atoms, x);
    NegIsNegative(NumValue(r));
    NegIsPositive(NumValue(r));
  }

  lemma {:induction false} ZeroAdds(l: Expr, r: Expr, atoms: Atoms, x: real)
    requires ValueAt(l, atoms, x).Some? && ValueAt(r, atoms, x).Some?
    ensures IsInt(l, 0) ==> ValueAt(l, atoms, x).value == 0.0
    ensures ValueAt(Op(l, Add, r), atoms, x) == Some(ValueAt(l, atoms, x).value + ValueAt(r, atoms, x).value)
    ensures ValueAt(Op(l, Sub, r), atoms, x) == Some(ValueAt(l, atoms, x).value - ValueAt(r, atoms, x).value)
  {
    hide ToReal;
  }

  /** One step of the mutual recursion of sums and differences. */
  lemma {:induction false} SumCases(l: Expr, r: Expr)
    ensures ExprAdd(l, r) ==
              if IsInt(l, 0) then r
              else if IsInt(r, 0) then l
              else if IsNum(l) && IsNum(r) then Norm(FracAdd(NumValue(l), NumValue(r)))
              else if IsNum(r) && NumValue(r).num < 0 then ExprSub(l, Norm(FracNeg(NumValue(r))))
              else Op(l, Add, r)
    ensures ExprSub(l, r) ==
              if IsInt(r, 0) then l
              else if IsNum(l) && IsNum(r) then Norm(FracSub(NumValue(l), NumValue(r)))
              else if IsNum(r) && NumValue(r).num < 0 then ExprAdd(l, Norm(FracNeg(NumValue(r))))
              else Op(l, Sub, r)
  {
    hide FracAdd, FracSub, FracNeg, Norm, NumValue, IsNum, IsInt;
  }

  lemma {:induction false} ExprAddValue(l: Expr, r: Expr, atoms: Atoms, x: real)
    requires ValueAt(l, atoms, x).Some? && ValueAt(r, atoms, x).Some?
    ensures ValueAt(ExprAdd(l, r), atoms, x) == Some(ValueAt(l, atoms, x).value + ValueAt(r, atoms, x).value)
    decreases IsNum(r) && NumValue(r).num < 0
  {
    hide ValueAt, FracAdd, FracSub, FracNeg, Norm, NumValue, IsNum, IsInt, ExprAdd, ExprSub;
    SumCases(l, r);
    ZeroAdds(l, r, atoms, x);
    ZeroAdds(r, l, atoms, x);
    if IsNum(l) && IsNum(r) {
      SumOfNumbers(l, r, atoms, x);
    } else if IsNum(r) && NumValue(r).num < 0 {
      NegatedNumber(r, atoms, x);
      ExprSubValue(l, Norm(FracNeg(NumValue(r))), atoms, x);
    }
  }

  lemma {:induction false} ExprSubValue(l: Expr, r: Expr, atoms: Atoms, x: real)
    requires ValueAt(l, atoms, x).Some? && ValueAt(r, atoms, x).Some?
    ensures ValueAt(ExprSub(l, r), atoms, x) == Some(ValueAt(l, atoms, x).value - ValueAt(r, atoms, x).value)
    decreases IsNum(r) && NumValue(r).num < 0
  {
    hide ValueAt, FracAdd, FracSub, FracNeg, Norm, NumValue, IsNum, IsInt, ExprAdd, ExprSub;
    SumCases(l, r);
    ZeroAdds(l, r, atoms, x);
    ZeroAdds(r, l, atoms, x);
    if IsNum(l) && IsNum(r) {
      SumOfNumbers(l, r, atoms, x);
    } else if IsNum(r) && NumValue(r).num < 0 {
      NegatedNumber(r, atoms, x);
      ExprAddValue(l, Norm(FracNeg(NumValue(r))), atoms, x);
    }
  }

  lemma {:induction false} NegIsNegative(q: Fraction)
    ensures ToReal(FracNeg(q)) == -ToReal(q)
  {
    RealNegate(q.num as real, q.den as real);
  }

  lemma {:induction false} NegIsPositive(q: Fraction)
    requires q.num < 0
    ensures IsNum(Norm(FracNeg(q))) && NumValue(Norm(FracNeg(q))).num > 0
  {
  }

  lemma {:induction false} TimesUnits(x: real)
    ensures Times(0.0, x) == 0.0 && Times(x, 0.0) == 0.0 && Times(1.0, x) == x && Times(x, 1.0) == x
  {
  }

  lemma {:induction false} OverUnits(x: real)
    ensures Over(x, 1.0) == x && (x != 0.0 ==> Over(0.0, x) == 0.0)
  {
  }

  lemma {:induction false} TimesFractions(a: Fraction, b: Fraction)
    ensures ToReal(FracMul(a, b)) == Times(ToReal(a), ToReal(b))
    ensures b.num != 0 ==> ToReal(b) != 0.0 && ToReal(FracDiv(a, b)) == Over(ToReal(a), ToReal(b))
  {
    hide FracMul, FracDiv, ToReal, Gcd;
    MulIsProduct(a, b);
    if b.num != 0 {
      DivIsQuotient(a, b);
    }
  }

  lemma {:induction false} ExprMultValue(l: Expr, r: Expr, atoms: Atoms, x: real)
    requires ValueAt(l, atoms, x).Some? && ValueAt(r, atoms, x).Some?
    ensures ValueAt(ExprMult(l, r), atoms, x) == Some(Times(ValueAt(l, atoms, x).value, ValueAt(r, atoms, x).value))
  {
    hide FracAdd, FracSub, FracMul, FracDiv, FracNeg, MakeFraction, ToReal, Norm, Whole, Gcd, ExactOp, Times, Over;
    ExactOps(ValueAt(l, atoms, x).value, ValueAt(r, atoms, x).value);
    TimesUnits(ValueAt(l, atoms, x).value);
    TimesUnits(ValueAt(r, atoms, x).value);
    if IsNum(l) && IsNum(r) {
      NumValueAt(l, atoms, x);
      NumValueAt(r, atoms, x);
      TimesFractions(NumValue(l), NumValue(r));
      NormValueAt(FracMul(NumValue(l), NumValue(r)), atoms, x);
    }
  }

  lemma {:induction false} ExprDivValue(l: Expr, r: Expr, atoms: Atoms, x: real)
    requires ValueAt(l, atoms, x).Some? && ValueAt(r, atoms, x).Some? && ValueAt(r, atoms, x).value != 0.0
    ensures ExprDiv(l, r).Ok?
    ensures ValueAt(ExprDiv(l, r).value, atoms, x) == Some(Over(ValueAt(l, atoms, x).value, ValueAt(r, atoms, x).value))
  {
    hide FracAdd, FracSub, FracMul, FracDiv, FracNeg, MakeFraction, ToReal, Norm, Whole, Gcd, ExactOp, Times, Over;
    ExactOps(ValueAt(l, atoms, x).value, ValueAt(r, atoms, x).value);
    OverUnits(ValueAt(l, atoms, x).value);
    OverUnits(ValueAt(r, atoms, x).value);
    if IsNum(l) && IsNum(r) {
      NumValueAt(l, atoms, x);
      NumValueAt(r, atoms, x);
      ZeroFraction(NumValue(r));
      TimesFractions(NumValue(l), NumValue(r));
      NormValueAt(FracDiv(NumValue(l), NumValue(r)), atoms, x);
    }
  }

  lemma {:induction false} ZeroFraction(q: Fraction)
    ensures ToReal(q) == 0.0 <==> q.num == 0
  {
  }

  // Exactness is kept by the simplifying operations.

  lemma {:induction false} ExprSumExact(l: Expr, r: Expr)
    requires Exact(l) && Exact(r)
    ensures Exact(ExprAdd(l, r)) && Exact(ExprSub(l, r))
  {
    hide FracAdd, FracSub, FracNeg, MakeFraction, Whole, Gcd;
    if IsNum(r) && NumValue(r).num < 0 {
      NegIsPositive(NumValue(r));
      var m := Norm(FracNeg(NumValue(r)));
      assert Exact(ExprAdd(l, m)) && Exact(ExprSub(l, m));
    }
  }

  lemma {:induction false} ExprProductExact(l: Expr, r: Expr)
    requires Exact(l) && Exact(r)
    ensures Exact(ExprMult(l, r)) && (ExprDiv(l, r).Ok? ==> Exact(ExprDiv(l, r).value))
  {
  }

  lemma {:induction false} ContainsVUnresolved(e: Expr)
    requires ContainsV(e)
    ensures Resolve(e).None?
    decreases e
  {
    match e
    case V =>
    case Op(l, _, r) => if ContainsV(l) { ContainsVUnresolved(l); } else { ContainsVUnresolved(r); }
    case Not(a) => ContainsVUnresolved(a);
    case Call(_, args) =>
      var i :| 0 <= i < |args| && ContainsV(args[i]);
      ContainsVUnresolved(args[i]);
      ArgUnresolved(args, i);
  }

  lemma {:induction false} ArgUnresolved(args: seq<Expr>, i: nat)
    requires i < |args| && Resolve(args[i]).None?
    ensures ResolveAll(args).None?
    decreases args
  {
    if i > 0 {
      ArgUnresolved(args[1..], i - 1);
    }
  }

  lemma {:induction false} ExactOperandExact(e: Expr)
    requires ExactOperands(e)
    ensures Exact(e)
  {
    if ContainsV(e) {
      ContainsVUnresolved(e);
    }
  }

  lemma {:induction false} AffineExact(e: Expr)
    requires ExactOperands(e) && AffineInV(e).Ok?
    ensures Exact(AffineInV(e).value.0) && Exact(AffineInV(e).value.1)
    decreases e
  {
    hide ExprAdd, ExprSub, ExprMult, ExprDiv;
    if e.V? || !ContainsV(e) {
      assert Exact(Num(0)) && Exact(Num(1));
    } else {
      var (cl, ol) := AffineInV(e.lhs).value;
      AffineExact(e.lhs);
      if e.op.Add? || e.op.Sub? {
        var (cr, or) := AffineInV(e.rhs).value;
        AffineExact(e.rhs);
        ExprSumExact(cl, cr);
        ExprSumExact(ol, or);
      } else {
        ExactOperandExact(e.rhs);
        ExactTryInt(e.rhs);
        ExprProductExact(cl, e.rhs);
        ExprProductExact(ol, e.rhs);
      }
    }
  }

  lemma {:induction false} ExactTryInt(e: Expr)
    requires Exact(e)
    ensures TryInt(e) == e
  {
  }

  /** Exact operands are kept, whatever the names stand for. */
  lemma {:induction false} ExactIsKept(e: Expr, atoms: Atoms)
    requires ExactOperands(e)
    ensures DivisorsKept(e, atoms)
    ensures AffineInV(e).Ok? ==> Kept(AffineInV(e).value.0, atoms) && Kept(AffineInV(e).value.1, atoms)
  {
    hide AffineInV, ValueAt;
    ExactDivisors(e, atoms);
    if AffineInV(e).Ok? {
      AffineExact(e);
      ExactTryInt(AffineInV(e).value.0);
      ExactTryInt(AffineInV(e).value.1);
    }
  }

  lemma {:induction false} ExactDivisors(e: Expr, atoms: Atoms)
    requires ExactOperands(e)
    ensures DivisorsKept(e, atoms)
    decreases e
  {
    hide ValueAt;
    if ContainsV(e) && e.Op? {
      ExactDivisors(e.lhs, atoms);
      ExactDivisors(e.rhs, atoms);
      ExactOperandExact(e.rhs);
      ExactTryInt(e.rhs);
    }
  }

  // ------------------------------------------------------------------ the affine form is right

  /** At x and at y, e has the value cv * v + ov, and its coefficients c and o have the
      values cv and ov whatever v is. */
  ghost predicate Line(e: Expr, c: Expr, o: Expr, atoms: Atoms, x: real, y: real, cv: real, ov: real) {
    ValueAt(c, atoms, x) == ValueAt(c, atoms, y) == Some(cv) &&
    ValueAt(o, atoms, x) == ValueAt(o, atoms, y) == Some(ov) &&
    ValueAt(e, atoms, x) == Some(OnLine(cv, x, ov)) && ValueAt(e, atoms, y) == Some(OnLine(cv, y, ov))
  }

  function OnLine(c: real, x: real, o: real): real {
    Times(c, x) + o
  }

  lemma {:induction false} ConstantWithoutV(e: Expr, atoms: Atoms, x: real, y: real)
    requires !ContainsV(e)
    ensures ValueAt(e, atoms, x) == ValueAt(e, atoms, y)
    decreases e
  {
    hide ExactOp;
    if e.Op? {
      ConstantWithoutV(e.lhs, atoms, x, y);
      ConstantWithoutV(e.rhs, atoms, x, y);
    }
  }

  /** AffineInV is right: wherever all divisors of an accepted tree are non-zero for one v,
      they are for every v, and its value is coef * v + offset. */
  lemma {:induction false} AffineSound(e: Expr, atoms: Atoms, x: real, y: real) returns (cv: real, ov: real)
    requires AffineInV(e).Ok? && DivisorsKept(e, atoms) && ValueAt(e, atoms, x).Some?
    ensures Line(e, AffineInV(e).value.0, AffineInV(e).value.1, atoms, x, y, cv, ov)
    decreases e
  {
    hide Line, ExprAdd, ExprSub, ExprMult, ExprDiv, TryInt;
    if e.V? {
      cv, ov := 1.0, 0.0;
      LineOfV(atoms, x, y);
    } else if !ContainsV(e) {
      cv, ov := 0.0, ValueAt(e, atoms, x).value;
      LineWithoutV(e, atoms, x, y);
    } else {
      OperandsDefined(e, atoms, x);
      var (cl, ol) := AffineInV(e.lhs).value;
      var (cr, or) := AffineInV(e.rhs).value;
      var clv, olv := AffineSound(e.lhs, atoms, x, y);
      var crv, orv := AffineSound(e.rhs, atoms, x, y);
      match e.op
      case Add =>
        cv, ov := clv + crv, olv + orv;
        LineOfSum(e, cl, ol, cr, or, atoms, x, y, clv, olv, crv, orv);
      case Sub =>
        cv, ov := clv - crv, olv - orv;
        LineOfDifference(e, cl, ol, cr, or, atoms, x, y, clv, olv, crv, orv);
      case Mult =>
        cv, ov := Times(clv, orv), Times(olv, orv);
        LineOfProduct(e, cl, ol, or, atoms, x, y, clv, olv, crv, orv);
      case Div =>
        DivisorValue(e, or, atoms, x, y, crv, orv);
        cv, ov := Over(clv, orv), Over(olv, orv);
        LineOfQuotient(e, TryInt(e.rhs), cl, ol, atoms, x, y, clv, olv, orv);
    }
  }

  lemma {:induction false} OperandsDefined(e: Expr, atoms: Atoms, x: real)
    requires AffineInV(e).Ok? && !e.V? && ContainsV(e) && ValueAt(e, atoms, x).Some?
    ensures e.Op? && ValueAt(e.lhs, atoms, x).Some? && ValueAt(e.rhs, atoms, x).Some?
    ensures AffineInV(e.lhs).Ok? && AffineInV(e.rhs).Ok?
    ensures e.op.Add? || e.op.Sub? || ((e.op.Mult? || e.op.Div?) && AffineInV(e.rhs).value.0 == Num(0))
  {
  }

  lemma {:induction false} LineOfV(atoms: Atoms, x: real, y: real)
    ensures Line(V, Num(1), Num(0), atoms, x, y, 1.0, 0.0)
  {
  }

  lemma {:induction false} LineWithoutV(e: Expr, atoms: Atoms, x: real, y: real)
    requires !ContainsV(e) && ValueAt(e, atoms, x).Some?
    ensures Line(e, Num(0), e, atoms, x, y, 0.0, ValueAt(e, atoms, x).value)
  {
    ConstantWithoutV(e, atoms, x, y);
  }

  lemma {:induction false} LineOfSum(e: Expr, cl: Expr, ol: Expr, cr: Expr, or: Expr, atoms: Atoms, x: real, y: real,
                                     clv: real, olv: real, crv: real, orv: real)
    requires e.Op? && e.op.Add?
    requires Line(e.lhs, cl, ol, atoms, x, y, clv, olv) && Line(e.rhs, cr, or, atoms, x, y, crv, orv)
    ensures Line(e, ExprAdd(cl, cr), ExprAdd(ol, or), atoms, x, y, clv + crv, olv + orv)
  {
    hide OnLine, Times, ExprAdd;
    forall z | z == x || z == y
      ensures ValueAt(ExprAdd(cl, cr), atoms, z) == Some(clv + crv)
      ensures ValueAt(ExprAdd(ol, or), atoms, z) == Some(olv + orv)
      ensures OnLine(clv, z, olv) + OnLine(crv, z, orv) == OnLine(clv + crv, z, olv + orv)
    {
      ExprAddValue(cl, cr, atoms, z);
      ExprAddValue(ol, or, atoms, z);
      AddLines(clv, z, olv, crv, orv);
    }
  }

  lemma {:induction false} LineOfDifference(e: Expr, cl: Expr, ol: Expr, cr: Expr, or: Expr, atoms: Atoms, x: real,
                                            y: real, clv: real, olv: real, crv: real, orv: real)
    requires e.Op? && e.op.Sub?
    requires Line(e.lhs, cl, ol, atoms, x, y, clv, olv) && Line(e.rhs, cr, or, atoms, x, y, crv, orv)
    ensures Line(e, ExprSub(cl, cr), ExprSub(ol, or), atoms, x, y, clv - crv, olv - orv)
  {
    hide OnLine, Times, ExprSub;
    forall z | z == x || z == y
      ensures ValueAt(ExprSub(cl, cr), atoms, z) == Some(clv - crv)
      ensures ValueAt(ExprSub(ol, or), atoms, z) == Some(olv - orv)
      ensures OnLine(clv, z, olv) - OnLine(crv, z, orv) == OnLine(clv - crv, z, olv - orv)
    {
      ExprSubValue(cl, cr, atoms, z);
      ExprSubValue(ol, or, atoms, z);
      AddLines(clv, z, olv, crv, orv);
    }
  }

  lemma {:induction false} LineOfProduct(e: Expr, cl: Expr, ol: Expr, or: Expr, atoms: Atoms, x: real, y: real,
                                         clv: real, olv: real, crv: real, orv: real)
    requires e.Op? && e.op.Mult?
    requires Line(e.lhs, cl, ol, atoms, x, y, clv, olv) && Line(e.rhs, Num(0), or, atoms, x, y, crv, orv)
    ensures Line(e, ExprMult(cl, e.rhs), ExprMult(ol, e.rhs), atoms, x, y, Times(clv, orv), Times(olv, orv))
  {
    hide OnLine, Times, Over, ExprMult;
    forall z | z == x || z == y
      ensures ValueAt(e.rhs, atoms, z) == Some(orv)
      ensures ValueAt(ExprMult(cl, e.rhs), atoms, z) == Some(Times(clv, orv))
      ensures ValueAt(ExprMult(ol, e.rhs), atoms, z) == Some(Times(olv, orv))
      ensures Times(OnLine(clv, z, olv), orv) == OnLine(Times(clv, orv), z, Times(olv, orv))
    {
      FlatLine(crv, z, orv);
      ZeroCoefficient(crv, atoms, z);
      ExprMultValue(cl, e.rhs, atoms, z);
      ExprMultValue(ol, e.rhs, atoms, z);
      ScaleLine(clv, z, olv, orv);
    }
  }

  lemma {:induction false} FlatLine(c: real, z: real, o: real)
    ensures c == 0.0 ==> OnLine(c, z, o) == o
  {
  }

  lemma {:induction false} ZeroCoefficient(c: real, atoms: Atoms, z: real)
    ensures ValueAt(Num(0), atoms, z) == Some(c) ==> c == 0.0
  {
  }

  lemma {:induction false} AddLines(c: real, z: real, o: real, c': real, o': real)
    ensures OnLine(c, z, o) + OnLine(c', z, o') == OnLine(c + c', z, o + o')
    ensures OnLine(c, z, o) - OnLine(c', z, o') == OnLine(c - c', z, o - o')
  {
  }

  lemma {:induction false} ScaleLine(c: real, z: real, o: real, k: real)
    ensures Times(OnLine(c, z, o), k) == OnLine(Times(c, k), z, Times(o, k))
  {
    assert (c * z) * k == (c * k) * z;
  }

  lemma {:induction false} DivideLine(c: real, z: real, o: real, k: real)
    requires k != 0.0
    ensures Over(OnLine(c, z, o), k) == OnLine(Over(c, k), z, Over(o, k))
  {
    var c', o' := c / k, o / k;
    assert c' * k == c && o' * k == o;
    ScaleLine(c', z, o', k);
    QuotientFrom(OnLine(c, z, o), k, OnLine(c', z, o'));
  }

  lemma {:induction false} DivisorValue(e: Expr, or: Expr, atoms: Atoms, x: real, y: real, crv: real, orv: real)
    requires e.Op? && e.op.Div? && ValueAt(e, atoms, x).Some?
    requires Line(e.rhs, Num(0), or, atoms, x, y, crv, orv)
    ensures orv != 0.0 && ValueAt(e.rhs, atoms, x) == ValueAt(e.rhs, atoms, y) == Some(orv)
  {
    hide OnLine, Times, Over;
    FlatLine(crv, x, orv);
    FlatLine(crv, y, orv);
    ZeroCoefficient(crv, atoms, x);
  }

  /** The quotient by d, the resolved divisor. */
  lemma {:induction false} LineOfQuotient(e: Expr, d: Expr, cl: Expr, ol: Expr, atoms: Atoms, x: real, y: real,
                                          clv: real, olv: real, orv: real)
    requires e.Op? && e.op.Div? && orv != 0.0
    requires ValueAt(e.rhs, atoms, x) == ValueAt(e.rhs, atoms, y) == Some(orv)
    requires ValueAt(d, atoms, x) == ValueAt(d, atoms, y) == Some(orv)
    requires Line(e.lhs, cl, ol, atoms, x, y, clv, olv)
    ensures ExprDiv(cl, d).Ok? && ExprDiv(ol, d).Ok?
    ensures Line(e, ExprDiv(cl, d).value, ExprDiv(ol, d).value, atoms, x, y, Over(clv, orv), Over(olv, orv))
  {
    hide OnLine, Times, Over, ExprDiv;
    forall z | z == x || z == y
      ensures ExprDiv(cl, d).Ok? && ValueAt(ExprDiv(cl, d).value, atoms, z) == Some(Over(clv, orv))
      ensures ExprDiv(ol, d).Ok? && ValueAt(ExprDiv(ol, d).value, atoms, z) == Some(Over(olv, orv))
      ensures Over(OnLine(clv, z, olv), orv) == OnLine(Over(clv, orv), z, Over(olv, orv))
    {
      ExprDivValue(cl, d, atoms, z);
      ExprDivValue(ol, d, atoms, z);
      DivideLine(clv, z, olv, orv);
    }
  }

  // ------------------------------------------------------------------ the derived inverse

  /** The whole coefficients before they are reduced. */
  function Unreduced(coef: Fraction, offset: Fraction): Scaled {
    Scaled(offset.den * coef.den, offset.num * coef.den, offset.den * coef.num)
  }

  ghost predicate ScaledBy(g: int, s: Scaled, t: Scaled) {
    t.lhs == g * s.lhs && t.off == g * s.off && t.rhs == g * s.rhs
  }

  function CommonFactor(s: Scaled): nat {
    Gcd(Gcd(Abs(s.lhs), Abs(s.off)), Abs(s.rhs))
  }

  /** The reduced coefficients are in lowest terms with a positive divisor, and stand in the
      same proportion as the unreduced ones. */
  lemma {:induction false} ScaledIsReduced(coef: Fraction, offset: Fraction) returns (g: int)
    requires coef.num != 0
    ensures var s := ScaledInverse(coef, offset);
            g != 0 && s.rhs > 0 && CommonFactor(s) == 1 && ScaledBy(g, s, Unreduced(coef, offset))
  {
    hide Gcd;
    var t := Unreduced(coef, offset);
    assert t.lhs > 0 && t.rhs != 0;
    var g1 := Gcd(Abs(t.lhs), Abs(t.off));
    var d: int := Gcd(g1, Abs(t.rhs));
    assert g1 > 0 && d > 0 by { GcdPositive(Abs(t.lhs), Abs(t.off)); GcdPositive(g1, Abs(t.rhs)); }
    ReduceThree(Abs(t.lhs), Abs(t.off), Abs(t.rhs));
    var s := Scaled(SignedQuotient(t.lhs, d), SignedQuotient(t.off, d), SignedQuotient(t.rhs, d));
    SignedExact(t.lhs, d);
    SignedExact(t.off, d);
    SignedExact(t.rhs, d);
    g := if s.rhs < 0 then -d else d;
    NegateTwice(d, s.lhs);
    NegateTwice(d, s.off);
    NegateTwice(d, s.rhs);
  }

  lemma {:induction false} GcdPositive(a: nat, b: nat)
    requires a > 0 || b > 0
    ensures Gcd(a, b) > 0
  {
  }

  lemma {:induction false} NegateTwice(a: int, b: int)
    ensures (-a) * (-b) == a * b
  {
  }

  lemma {:induction false} SignedExact(a: int, g: int)
    requires g > 0 && Abs(a) == g * (Abs(a) / g)
    ensures a == g * SignedQuotient(a, g) && Abs(SignedQuotient(a, g)) == Abs(a) / g
    ensures a != 0 ==> SignedQuotient(a, g) != 0
  {
  }

  lemma {:induction false} ReduceThree(a: nat, b: nat, c: nat)
    requires a > 0
    ensures var d := Gcd(Gcd(a, b), c);
            d > 0 && a == d * (a / d) && b == d * (b / d) && c == d * (c / d) &&
            Gcd(Gcd(a / d, b / d), c / d) == 1
  {
    hide Gcd;
    GcdPositive(a, b);
    var g := Gcd(a, b);
    GcdPositive(g, c);
    var d := Gcd(g, c);
    GcdQuotients(a, b);
    GcdQuotients(g, c);
    var k := g / d;
    FactorThrough(a, d, k, a / g);
    FactorThrough(b, d, k, b / g);
    QuotientsPositive(d, 0, k, g);
    GcdScale(k, a / g, b / g);
  }

  lemma {:induction false} FactorThrough(a: nat, d: nat, k: nat, q: nat)
    requires d > 0 && a == (d * k) * q
    ensures a / d == k * q && a == d * (a / d)
  {
    assert a == d * (k * q);
    DivModUnique(a, d, k * q, 0);
  }

  lemma {:induction false} ScaledTreeValue(s: Scaled, atoms: Atoms, y: real)
    requires s.rhs > 0
    ensures ScaledTree(s).Ok?
    ensures ValueAt(ScaledTree(s).value, atoms, y) == Some(Over(Times(y, s.lhs as real) - s.off as real, s.rhs as real))
  {
    hide ExprMult, ExprSub, ExprDiv, Times, Over;
    ExprMultValue(V, Num(s.lhs), atoms, y);
    var m := ExprMult(V, Num(s.lhs));
    ExprSubValue(m, Num(s.off), atoms, y);
    ExprDivValue(ExprSub(m, Num(s.off)), Num(s.rhs), atoms, y);
  }

  /** y -> (y - ov) / cv, the inverse of x -> cv * x + ov. */
  function BackOnLine(cv: real, ov: real, y: real): real
    requires cv != 0.0
  {
    Over(y - ov, cv)
  }

  /** The reduced whole coefficients compute (y - offset) / coef. */
  lemma {:induction false} ScaledComputes(coef: Fraction, offset: Fraction, y: real)
    requires coef.num != 0
    ensures ToReal(coef) != 0.0 && ScaledInverse(coef, offset).rhs > 0
    ensures var s := ScaledInverse(coef, offset);
            Over(Times(y, s.lhs as real) - s.off as real, s.rhs as real) == BackOnLine(ToReal(coef), ToReal(offset), y)
  {
    hide ScaledInverse, Gcd, Over, Times, ToReal;
    var s := ScaledInverse(coef, offset);
    var g := ScaledIsReduced(coef, offset);
    ZeroFraction(coef);
    var t := Unreduced(coef, offset);
    ReducedComputes(g, s, t, y);
    UnreducedComputes(coef, offset, y);
  }

  lemma {:induction false} ReducedComputes(g: int, s: Scaled, t: Scaled, y: real)
    requires g != 0 && s.rhs > 0 && t.rhs != 0 && ScaledBy(g, s, t)
    ensures Over(Times(y, s.lhs as real) - s.off as real, s.rhs as real) ==
            Over(Times(y, t.lhs as real) - t.off as real, t.rhs as real)
  {
    hide Over, Times, ScaledBy;
    ScaledCasts(g, s, t);
    CancelScale(g as real, s.lhs as real, s.off as real, s.rhs as real, y);
  }

  lemma {:induction false} ScaledCasts(g: int, s: Scaled, t: Scaled)
    requires ScaledBy(g, s, t)
    ensures t.lhs as real == Times(g as real, s.lhs as real)
    ensures t.off as real == Times(g as real, s.off as real)
    ensures t.rhs as real == Times(g as real, s.rhs as real)
  {
    CastMul(g, s.lhs);
    CastMul(g, s.off);
    CastMul(g, s.rhs);
  }

  lemma {:induction false} UnreducedComputes(coef: Fraction, offset: Fraction, y: real)
    requires coef.num != 0
    ensures ToReal(coef) != 0.0 && Unreduced(coef, offset).rhs != 0
    ensures var t := Unreduced(coef, offset);
            Over(Times(y, t.lhs as real) - t.off as real, t.rhs as real) == BackOnLine(ToReal(coef), ToReal(offset), y)
  {
    hide Over, Times, Gcd;
    var n, d, a, b := coef.num as real, coef.den as real, offset.num as real, offset.den as real;
    var t := Unreduced(coef, offset);
    CastMul(offset.den, coef.den);
    CastMul(offset.num, coef.den);
    CastMul(offset.den, coef.num);
    assert t.lhs as real == b * d;
    assert t.off as real == a * d;
    assert t.rhs as real == b * n;
    ClearDenominators(n, d, a, b, y);
    assert ToReal(coef) == n / d;
    assert ToReal(offset) == a / b;
    assert Over(Times(y, t.lhs as real) - t.off as real, t.rhs as real) == Over(y - a / b, n / d);
  }

  lemma {:induction false} CancelScale(g: real, l: real, f: real, r: real, y: real)
    requires g != 0.0 && r != 0.0
    ensures Times(g, r) != 0.0
    ensures Over(Times(y, l) - f, r) == Over(Times(y, Times(g, l)) - Times(g, f), Times(g, r))
  {
    var q := (y * l - f) / r;
    assert q * r == y * l - f;
    assert q * (g * r) == g * (q * r) == y * (g * l) - g * f;
    QuotientFrom(y * (g * l) - g * f, g * r, q);
  }

  lemma {:induction false} ClearDenominators(n: real, d: real, a: real, b: real, y: real)
    requires n != 0.0 && d != 0.0 && b != 0.0
    ensures b * n != 0.0 && n / d != 0.0
    ensures Over(Times(y, b * d) - a * d, b * n) == Over(y - a / b, n / d)
  {
    var c, o := n / d, a / b;
    assert c * d == n && o * b == a;
    assert c != 0.0;
    var q := (y - o) / c;
    assert q * c == y - o;
    assert q * (b * n) == (q * c) * (b * d) == (y - o) * (b * d);
    assert (y - o) * (b * d) == y * (b * d) - a * d by {
      assert o * (b * d) == (o * b) * d;
    }
    QuotientFrom(y * (b * d) - a * d, b * n, q);
  }

  /** Whatever branch builds it, the inverse computes (y - ov) / cv with the values cv and ov the
      coefficient and the offset resolve to, and nothing when that coefficient is zero. */
  lemma {:induction false} InverseAffineValue(c: Expr, o: Expr, atoms: Atoms, y: real, cv: real, ov: real)
    requires ValueAt(TryInt(c), atoms, y) == Some(cv) && ValueAt(TryInt(o), atoms, y) == Some(ov)
    requires InverseAffine(c, o).Ok?
    ensures ValueAt(InverseAffine(c, o).value, atoms, y) == if cv == 0.0 then None else Some(BackOnLine(cv, ov, y))
  {
    hide ExprSub, ExprDiv, TryInt, ScaledTree, ScaledInverse, Whole, ToReal, Over;
    var (c', o') := (TryInt(c), TryInt(o));
    if IsNum(c') && IsNum(o') {
      NumValueAt(c', atoms, y);
      NumValueAt(o', atoms, y);
      ZeroFraction(NumValue(c'));
      if cv == 0.0 {
        ScaledByZero(NumValue(c'), NumValue(o'), atoms, y);
      } else {
        ScaledComputes(NumValue(c'), NumValue(o'), y);
        ScaledTreeValue(ScaledInverse(NumValue(c'), NumValue(o')), atoms, y);
      }
    } else {
      ExprSubValue(V, o', atoms, y);
      if cv == 0.0 {
        VMinus(o');
        DivisionByZero(ExprSub(V, o'), c', atoms, y);
      } else {
        ExprDivValue(ExprSub(V, o'), c', atoms, y);
      }
    }
  }

  lemma {:induction false} DivisionByZero(l: Expr, r: Expr, atoms: Atoms, y: real)
    requires ValueAt(r, atoms, y) == Some(0.0) && !IsNum(l)
    ensures ExprDiv(l, r).Ok? ==> ValueAt(ExprDiv(l, r).value, atoms, y).None?
  {
  }

  lemma {:induction false} VMinus(o: Expr)
    ensures !IsNum(ExprSub(V, o))
  {
    hide Gcd, FracNeg, FracAdd, FracSub;
    if IsNum(o) && NumValue(o).num < 0 {
      SumCases(V, o);
      SumCases(V, Norm(FracNeg(NumValue(o))));
      NegIsPositive(NumValue(o));
    }
  }

  lemma {:induction false} ScaledByZero(coef: Fraction, offset: Fraction, atoms: Atoms, y: real)
    requires coef.num == 0
    ensures ScaledTree(ScaledInverse(coef, offset)).Ok? ==>
              ValueAt(ScaledTree(ScaledInverse(coef, offset)).value, atoms, y).None?
  {
    var s := ScaledInverse(coef, offset);
    ZeroRhs(coef, offset);
    ScaledKeepsV(coef, offset);
    hide ScaledInverse;
    var m := ExprMult(V, Num(s.lhs));
    assert !IsNum(m) && NoFraction(m);
    ExprSubPlain(m, s.off);
    hide ExprMult, ExprSub, ExprDiv;
    DivisionByZero(ExprSub(m, Num(s.off)), Num(0), atoms, y);
  }

  lemma {:induction false} ZeroRhs(coef: Fraction, offset: Fraction)
    requires coef.num == 0
    ensures ScaledInverse(coef, offset).rhs == 0
  {
    hide Gcd;
    assert offset.den * coef.num == 0;
  }

  /** All divisors of e are non-zero, and its value really depends on v. */
  ghost predicate Slanted(e: Expr, atoms: Atoms) {
    ValueAt(e, atoms, 0.0).Some? && ValueAt(e, atoms, 1.0).Some? &&
    ValueAt(e, atoms, 0.0) != ValueAt(e, atoms, 1.0)
  }

  lemma {:induction false} LineBothWays(cv: real, ov: real, x: real)
    ensures cv != 0.0 ==> BackOnLine(cv, ov, OnLine(cv, x, ov)) == x
    ensures cv != 0.0 ==> OnLine(cv, BackOnLine(cv, ov, x), ov) == x
    ensures OnLine(cv, 0.0, ov) == ov && OnLine(cv, 1.0, ov) == cv + ov
  {
    if cv != 0.0 {
      QuotientFrom(cv * x, cv, x);
    }
  }

  /** An accepted tree is a line with a non-zero slope wherever it is slanted. */
  lemma {:induction false} SlantedLine(e: Expr, atoms: Atoms, x: real) returns (cv: real, ov: real)
    requires AffineInV(e).Ok? && DivisorsKept(e, atoms) && Slanted(e, atoms)
    ensures cv != 0.0
    ensures Line(e, AffineInV(e).value.0, AffineInV(e).value.1, atoms, 0.0, x, cv, ov)
  {
    cv, ov := AffineSound(e, atoms, 0.0, x);
    var cv', ov' := AffineSound(e, atoms, 0.0, 1.0);
    hide OnLine;
    LineBothWays(cv, ov, 0.0);
  }

  /** f and the derived inverse undo each other at x, both ways. */
  ghost predicate TwoSidedAt(e: Expr, inv: Expr, atoms: Atoms, x: real) {
    ValueAt(e, atoms, x).Some? && ValueAt(inv, atoms, x).Some? &&
    ValueAt(inv, atoms, ValueAt(e, atoms, x).value) == Some(x) &&
    ValueAt(e, atoms, ValueAt(inv, atoms, x).value) == Some(x)
  }

  /** The derived conversion is a two-sided inverse over the exact rationals, for every v and
      every assignment of the names that keeps the divisors and the slope non-zero. */
  lemma {:induction false} InverseIsTwoSided(e: Expr, atoms: Atoms, x: real)
    requires Invert(e).Ok? && ExactOperands(Unwrap(e)) && Slanted(Unwrap(e), atoms)
    ensures TwoSidedAt(Unwrap(e), Invert(e).value, atoms, x)
  {
    hide AffineInV, InverseAffine, ExactOperands, Unwrap, TwoSidedAt, Kept, DivisorsKept, Slanted;
    ExactIsKept(Unwrap(e), atoms);
    KeptInverseIff(e, atoms);
  }

  /** Where the divisors are kept, also those the resolver computes, the derived conversion is a
      two-sided inverse everywhere exactly when the resolver keeps the coefficient and the
      offset of v. */
  lemma {:induction false} KeptInverseIff(e: Expr, atoms: Atoms)
    requires Invert(e).Ok? && DivisorsKept(Unwrap(e), atoms) && Slanted(Unwrap(e), atoms)
    ensures AffineInV(Unwrap(e)).Ok?
    ensures var (coef, offset) := AffineInV(Unwrap(e)).value;
            (forall x :: TwoSidedAt(Unwrap(e), Invert(e).value, atoms, x)) <==>
            Kept(coef, atoms) && Kept(offset, atoms)
  {
    hide AffineInV, InverseAffine, Unwrap, OnLine, TwoSidedAt, DivisorsKept, FactorsFixed, Slanted, TryInt, ValueAt;
    var f := Unwrap(e);
    var (c, o) := AffineInV(f).value;
    KeptFactors(f, atoms);
    FixedCoefficients(f, atoms);
    FixedTried(c, atoms);
    FixedTried(o, atoms);
    var cv, ov := SlantedLine(f, atoms, 1.0);
    LineBothWays(cv, ov, 0.0);
    InverseIsTwoSidedIff(e, atoms);
    assert Kept(c, atoms) <==> ValueAt(TryInt(c), atoms, 0.0) == ValueAt(c, atoms, 0.0);
    assert Kept(o, atoms) <==> ValueAt(TryInt(o), atoms, 0.0) == ValueAt(o, atoms, 0.0);
  }

  lemma {:induction false} KeptFactors(e: Expr, atoms: Atoms)
    requires DivisorsKept(e, atoms) && AffineInV(e).Ok?
    ensures FactorsFixed(e, atoms)
    decreases e
  {
    hide Kept, Fixed;
    if ContainsV(e) && e.Op? {
      KeptFactors(e.lhs, atoms);
      if e.op.Mult? || e.op.Div? {
        FixedFactor(e.rhs, atoms);
      } else {
        KeptFactors(e.rhs, atoms);
      }
    }
  }

  /** The numbers, or trees, the coefficient and the offset resolve to are the slope and the
      value at 0 of f. */
  ghost predicate ResolvesToLine(f: Expr, c: Expr, o: Expr, atoms: Atoms) {
    var (y0, y1) := (ValueAt(f, atoms, 0.0), ValueAt(f, atoms, 1.0));
    y0.Some? && y1.Some? && ValueAt(TryInt(o), atoms, 0.0) == y0 &&
    ValueAt(TryInt(c), atoms, 0.0) == Some(y1.value - y0.value)
  }

  /** Main result: whatever the resolver rounds, in coefficients, offsets and divisors, the
      derived conversion is a two-sided inverse everywhere exactly when the coefficient and the
      offset resolve to the slope of the conversion and its value at 0. */
  lemma {:induction false} InverseIsTwoSidedIff(e: Expr, atoms: Atoms)
    requires Invert(e).Ok? && FactorsFixed(Unwrap(e), atoms) && Slanted(Unwrap(e), atoms)
    ensures AffineInV(Unwrap(e)).Ok?
    ensures var (coef, offset) := AffineInV(Unwrap(e)).value;
            (forall x :: TwoSidedAt(Unwrap(e), Invert(e).value, atoms, x)) <==>
            ResolvesToLine(Unwrap(e), coef, offset, atoms)
  {
    hide AffineInV, InverseAffine, Unwrap, OnLine, BackOnLine, TwoSidedAt, FactorsFixed, TryInt, ValueAt;
    var f := Unwrap(e);
    var (c, o) := AffineInV(f).value;
    var s, i := TrueLine(f, atoms);
    LineBothWays(s, i, 0.0);
    FixedCoefficients(f, atoms);
    FixedTried(c, atoms);
    FixedTried(o, atoms);
    if ResolvesToLine(f, c, o, atoms) {
      forall x ensures TwoSidedAt(f, Invert(e).value, atoms, x) {
        BothWays(f, c, o, atoms, x, s, i);
      }
    }
    if forall x :: TwoSidedAt(f, Invert(e).value, atoms, x) {
      assert TwoSidedAt(f, Invert(e).value, atoms, 0.0) && TwoSidedAt(f, Invert(e).value, atoms, 1.0);
      BothWaysFix(f, c, o, atoms, s, i);
    }
  }

  // ------------------------------------------------------------------ what the inverter reads off a line

  lemma {:induction false} FixedNumber(t: Expr, atoms: Atoms)
    requires IsNum(t)
    ensures Fixed(t, atoms)
  {
    hide ValueAt, ToReal;
    forall x ensures ValueAt(t, atoms, x) == Some(ToReal(NumValue(t))) {
      NumValueAt(t, atoms, x);
    }
  }

  lemma {:induction false} FixedTried(t: Expr, atoms: Atoms)
    requires Fixed(t, atoms)
    ensures Fixed(TryInt(t), atoms)
  {
    hide Resolve, Fixed;
    if IsNum(TryInt(t)) {
      FixedNumber(TryInt(t), atoms);
    }
  }

  lemma {:induction false} FixedOp(l: Expr, op: BinOp, r: Expr, atoms: Atoms)
    requires Fixed(l, atoms) && Fixed(r, atoms)
    ensures Fixed(Op(l, op, r), atoms)
  {
    hide ExactOp;
    forall x ensures ValueAt(Op(l, op, r), atoms, x) == ValueAt(Op(l, op, r), atoms, 0.0) {
      assert ValueAt(l, atoms, x) == ValueAt(l, atoms, 0.0) && ValueAt(r, atoms, x) == ValueAt(r, atoms, 0.0);
    }
  }

  lemma {:induction false} FixedSum(l: Expr, r: Expr, atoms: Atoms)
    requires Fixed(l, atoms) && Fixed(r, atoms)
    ensures Fixed(ExprAdd(l, r), atoms) && Fixed(ExprSub(l, r), atoms)
    decreases IsNum(r) && NumValue(r).num < 0
  {
    hide *;
    SumCases(l, r);
    FixedOp(l, Add, r, atoms);
    FixedOp(l, Sub, r, atoms);
    if IsNum(l) && IsNum(r) {
      NormIsNum(FracAdd(NumValue(l), NumValue(r)));
      NormIsNum(FracSub(NumValue(l), NumValue(r)));
      FixedNumber(Norm(FracAdd(NumValue(l), NumValue(r))), atoms);
      FixedNumber(Norm(FracSub(NumValue(l), NumValue(r))), atoms);
    } else if IsNum(r) && NumValue(r).num < 0 {
      NegIsPositive(NumValue(r));
      NormIsNum(FracNeg(NumValue(r)));
      FixedNumber(Norm(FracNeg(NumValue(r))), atoms);
      FixedSum(l, Norm(FracNeg(NumValue(r))), atoms);
    }
  }

  lemma {:induction false} NormIsNum(q: Fraction)
    ensures IsNum(Norm(q))
  {
  }

  lemma {:induction false} FixedProduct(l: Expr, r: Expr, atoms: Atoms)
    requires Fixed(l, atoms) && Fixed(r, atoms)
    ensures Fixed(ExprMult(l, r), atoms)
    ensures ExprDiv(l, r).Ok? ==> Fixed(ExprDiv(l, r).value, atoms)
  {
    hide Fixed, FracMul, FracDiv;
    FixedNumber(Num(0), atoms);
    FixedOp(l, Mult, r, atoms);
    FixedOp(l, Div, r, atoms);
    if IsNum(l) && IsNum(r) {
      FixedNumber(Norm(FracMul(NumValue(l), NumValue(r))), atoms);
      if NumValue(r).num != 0 {
        FixedNumber(Norm(FracDiv(NumValue(l), NumValue(r))), atoms);
      }
    }
  }

  /** A factor whose coefficient is zero does not depend on v. */
  lemma {:induction false} FixedFactor(e: Expr, atoms: Atoms)
    requires AffineInV(e).Ok? && AffineInV(e).value.0 == Num(0) && DivisorsKept(e, atoms)
    ensures Fixed(e, atoms)
  {
    hide AffineInV, DivisorsKept, OnLine, ValueAt;
    forall x ensures ValueAt(e, atoms, x) == ValueAt(e, atoms, 0.0) {
      if ValueAt(e, atoms, x).Some? {
        var cv, ov := AffineSound(e, atoms, x, 0.0);
        ZeroCoefficient(cv, atoms, x);
        FlatLine(cv, x, ov);
        FlatLine(cv, 0.0, ov);
      } else if ValueAt(e, atoms, 0.0).Some? {
        var cv, ov := AffineSound(e, atoms, 0.0, x);
        ZeroCoefficient(cv, atoms, x);
      }
    }
  }

  lemma {:induction false} FixedCoefficients(e: Expr, atoms: Atoms)
    requires AffineInV(e).Ok? && FactorsFixed(e, atoms)
    ensures Fixed(AffineInV(e).value.0, atoms) && Fixed(AffineInV(e).value.1, atoms)
    decreases e
  {
    hide Fixed, ExprAdd, ExprSub, ExprMult, ExprDiv, TryInt;
    FixedNumber(Num(0), atoms);
    FixedNumber(Num(1), atoms);
    if e.V? {
    } else if !ContainsV(e) {
      WithoutVFixed(e, atoms);
    } else {
      var (cl, ol) := AffineInV(e.lhs).value;
      FixedCoefficients(e.lhs, atoms);
      if e.op.Add? || e.op.Sub? {
        var (cr, or) := AffineInV(e.rhs).value;
        FixedCoefficients(e.rhs, atoms);
        FixedSum(cl, cr, atoms);
        FixedSum(ol, or, atoms);
      } else {
        FixedTried(e.rhs, atoms);
        FixedProduct(cl, e.rhs, atoms);
        FixedProduct(ol, e.rhs, atoms);
        FixedProduct(cl, TryInt(e.rhs), atoms);
        FixedProduct(ol, TryInt(e.rhs), atoms);
      }
    }
  }

  lemma {:induction false} WithoutVFixed(e: Expr, atoms: Atoms)
    requires !ContainsV(e)
    ensures Fixed(e, atoms)
  {
    hide ValueAt;
    forall x ensures ValueAt(e, atoms, x) == ValueAt(e, atoms, 0.0) {
      ConstantWithoutV(e, atoms, x, 0.0);
    }
  }

  /** e is s * v + i at every v. */
  ghost predicate IsLine(e: Expr, atoms: Atoms, s: real, i: real) {
    forall x :: ValueAt(e, atoms, x) == Some(OnLine(s, x, i))
  }

  /** An accepted tree is a line, whatever the inverter makes of its divisors. */
  lemma {:induction false} TrueLine(e: Expr, atoms: Atoms) returns (s: real, i: real)
    requires AffineInV(e).Ok? && FactorsFixed(e, atoms) && ValueAt(e, atoms, 0.0).Some?
    ensures IsLine(e, atoms, s, i)
    decreases e
  {
    hide OnLine, IsLine, Times, Over, ExprAdd, ExprSub, ExprMult, ExprDiv, TryInt, Fixed;
    if e.V? {
      s, i := 1.0, 0.0;
      LineV(atoms);
    } else if !ContainsV(e) {
      s, i := 0.0, ValueAt(e, atoms, 0.0).value;
      WithoutVFixed(e, atoms);
      FixedIsLine(e, atoms, i);
    } else {
      OperandsDefined(e, atoms, 0.0);
      var sl, il := TrueLine(e.lhs, atoms);
      if e.op.Add? || e.op.Sub? {
        var sr, ir := TrueLine(e.rhs, atoms);
        s, i := if e.op.Add? then sl + sr else sl - sr, if e.op.Add? then il + ir else il - ir;
        SumOfLines(e, atoms, sl, il, sr, ir);
      } else {
        var k := ValueAt(e.rhs, atoms, 0.0).value;
        assert e.op.Div? ==> k != 0.0;
        s, i := if e.op.Mult? then Times(sl, k) else Over(sl, k), if e.op.Mult? then Times(il, k) else Over(il, k);
        LineByFactor(e, atoms, sl, il, k);
      }
    }
  }

  lemma {:induction false} LineV(atoms: Atoms)
    ensures IsLine(V, atoms, 1.0, 0.0)
  {
  }

  lemma {:induction false} FixedIsLine(e: Expr, atoms: Atoms, i: real)
    requires Fixed(e, atoms) && ValueAt(e, atoms, 0.0) == Some(i)
    ensures IsLine(e, atoms, 0.0, i)
  {
    hide ValueAt;
  }

  lemma {:induction false} SumOfLines(e: Expr, atoms: Atoms, sl: real, il: real, sr: real, ir: real)
    requires e.Op? && IsLine(e.lhs, atoms, sl, il) && IsLine(e.rhs, atoms, sr, ir)
    ensures e.op.Add? ==> IsLine(e, atoms, sl + sr, il + ir)
    ensures e.op.Sub? ==> IsLine(e, atoms, sl - sr, il - ir)
  {
    hide OnLine;
    forall x
      ensures e.op.Add? ==> ValueAt(e, atoms, x) == Some(OnLine(sl + sr, x, il + ir))
      ensures e.op.Sub? ==> ValueAt(e, atoms, x) == Some(OnLine(sl - sr, x, il - ir))
    {
      AddLines(sl, x, il, sr, ir);
    }
  }

  lemma {:induction false} LineByFactor(e: Expr, atoms: Atoms, sl: real, il: real, k: real)
    requires e.Op? && IsLine(e.lhs, atoms, sl, il) && Fixed(e.rhs, atoms) && ValueAt(e.rhs, atoms, 0.0) == Some(k)
    ensures e.op.Mult? ==> IsLine(e, atoms, Times(sl, k), Times(il, k))
    ensures e.op.Div? && k != 0.0 ==> IsLine(e, atoms, Over(sl, k), Over(il, k))
  {
    hide OnLine, Times, Over;
    forall x
      ensures e.op.Mult? ==> ValueAt(e, atoms, x) == Some(OnLine(Times(sl, k), x, Times(il, k)))
      ensures e.op.Div? && k != 0.0 ==> ValueAt(e, atoms, x) == Some(OnLine(Over(sl, k), x, Over(il, k)))
    {
      ScaleLine(sl, x, il, k);
      if k != 0.0 {
        DivideLine(sl, x, il, k);
      }
    }
  }

  /** With an undefined coefficient or offset the derived side has no value. */
  lemma {:induction false} InverseNeedsBoth(c: Expr, o: Expr, atoms: Atoms, y: real)
    requires InverseAffine(c, o).Ok? && ValueAt(InverseAffine(c, o).value, atoms, y).Some?
    ensures ValueAt(TryInt(c), atoms, y).Some? && ValueAt(TryInt(o), atoms, y).Some?
  {
    hide ExprSub, TryInt, ScaledTree, ScaledInverse, Whole, ToReal, NumValue, ExactOp;
    var (c', o') := (TryInt(c), TryInt(o));
    if IsNum(c') {
      NumValueAt(c', atoms, y);
    }
    if IsNum(o') {
      NumValueAt(o', atoms, y);
    }
    VMinus(o');
    if !IsNum(o') {
      SumCases(V, o');
    }
  }

  lemma {:induction false} BothWays(f: Expr, c: Expr, o: Expr, atoms: Atoms, x: real, s: real, i: real)
    requires InverseAffine(c, o).Ok? && s != 0.0 && IsLine(f, atoms, s, i)
    requires Fixed(TryInt(c), atoms) && Fixed(TryInt(o), atoms)
    requires ValueAt(TryInt(c), atoms, 0.0) == Some(s) && ValueAt(TryInt(o), atoms, 0.0) == Some(i)
    ensures TwoSidedAt(f, InverseAffine(c, o).value, atoms, x)
  {
    hide InverseAffine, OnLine, BackOnLine, TryInt, ValueAt;
    LineBothWays(s, i, x);
    InverseAffineValue(c, o, atoms, x, s, i);
    InverseAffineValue(c, o, atoms, OnLine(s, x, i), s, i);
  }

  /** Undoing the line at 0 and at 1 fixes the coefficient and the offset. */
  lemma {:induction false} BothWaysFix(f: Expr, c: Expr, o: Expr, atoms: Atoms, s: real, i: real)
    requires InverseAffine(c, o).Ok? && IsLine(f, atoms, s, i)
    requires Fixed(TryInt(c), atoms) && Fixed(TryInt(o), atoms)
    requires TwoSidedAt(f, InverseAffine(c, o).value, atoms, 0.0)
    requires TwoSidedAt(f, InverseAffine(c, o).value, atoms, 1.0)
    ensures ValueAt(TryInt(c), atoms, 0.0) == Some(s) && ValueAt(TryInt(o), atoms, 0.0) == Some(i)
  {
    hide InverseAffine, OnLine, BackOnLine, TryInt, ValueAt;
    LineBothWays(s, i, 0.0);
    InverseNeedsBoth(c, o, atoms, i);
    var (cv, ov) := (ValueAt(TryInt(c), atoms, i).value, ValueAt(TryInt(o), atoms, i).value);
    InverseAffineValue(c, o, atoms, i, cv, ov);
    InverseAffineValue(c, o, atoms, s + i, cv, ov);
    LineFixed(cv, ov, i, s + i);
  }

  lemma {:induction false} LineFixed(cv: real, ov: real, y0: real, y1: real)
    requires cv != 0.0 && BackOnLine(cv, ov, y0) == 0.0 && BackOnLine(cv, ov, y1) == 1.0
    ensures y0 == ov && y1 == cv + ov
  {
    var (a, b) := ((y0 - ov) / cv, (y1 - ov) / cv);
    assert a * cv == y0 - ov && b * cv == y1 - ov;
  }

  /** A divisor the resolver rounds: in v / ($cdiv(7, 2) / 3) the divisor 4/3 resolves to 2, and the
      derived v * 2 is no inverse of v * 3/4. */
  lemma {:induction false} RoundedDivisorExample(atoms: Atoms)
    requires atoms(FourthOf7()) == 4.0
    ensures var e := RoundedDivisor();
            Unwrap(e) == e && Invert(e) == Ok(Op(V, Mult, Num(2))) && FactorsFixed(e, atoms) && Slanted(e, atoms) &&
            AffineInV(e) == Ok((Frac(Half()), Num(0))) && !ResolvesToLine(e, Frac(Half()), Num(0), atoms) &&
            !TwoSidedAt(e, Op(V, Mult, Num(2)), atoms, 4.0)
  {
    hide Half, FourthOf7, AffineInV, InverseAffine, TwoSidedAt;
    RoundedAffine();
    RoundedInverse();
    RoundedValues(atoms);
  }

  function RoundedDivisor(): Expr {
    Op(V, Div, Op(FourthOf7(), Div, Num(3)))
  }

  function Half(): (q: Fraction)
    ensures q == MakeFraction(1, 2) && q.num == 1 && q.den == 2
  {
    assert Gcd(1, 2) == 1;
    Rat(1, 2)
  }

  lemma {:induction false} RoundedAffine()
    ensures AffineInV(RoundedDivisor()) == Ok((Frac(Half()), Num(0)))
  {
    hide Gcd, MakeFraction, TryInt;
    ExampleResolves();
    var d := RoundedDivisor().rhs;
    assert !ContainsV(FourthOf7());
    assert AffineInV(d) == Ok((Num(0), d));
    assert ExprDiv(Num(1), Num(2)) == Ok(Frac(Half()));
  }

  lemma {:induction false} RoundedInverse()
    ensures InverseAffine(Frac(Half()), Num(0)) == Ok(Op(V, Mult, Num(2)))
  {
    assert Gcd(2, 0) == 2 && Gcd(2, 1) == 1;
    assert ScaledInverse(Half(), Whole(0)) == Scaled(2, 0, 1);
    hide Gcd, ScaledInverse;
    assert ExprSub(Op(V, Mult, Num(2)), Num(0)) == Op(V, Mult, Num(2));
  }

  lemma {:induction false} RoundedValues(atoms: Atoms)
    requires atoms(FourthOf7()) == 4.0
    ensures var e := RoundedDivisor();
            FactorsFixed(e, atoms) && Slanted(e, atoms) && !ResolvesToLine(e, Frac(Half()), Num(0), atoms) &&
            !TwoSidedAt(e, Op(V, Mult, Num(2)), atoms, 4.0)
  {
    hide TryInt;
    var e := RoundedDivisor();
    forall x ensures ValueAt(e, atoms, x) == Some(x * 3.0 / 4.0) {
      assert ValueAt(e.rhs, atoms, x) == Some(4.0 / 3.0);
    }
    NumValueAt(Frac(Half()), atoms, 0.0);
    assert ToReal(Half()) == 0.5;
    ExactTryInt(Frac(Half()));
    assert ValueAt(Op(V, Mult, Num(2)), atoms, 3.0) == Some(6.0);
  }

  /** The condition is needed: for (v * $cdiv(7, 2)) / 3 the coefficient 4/3 resolves to its
      ceiling 2, and the derived v / 2 is no inverse. */
  lemma {:induction false} ClosedOperandExample(atoms: Atoms)
    requires atoms(FourthOf7()) == 4.0
    ensures var e := ClosedOperand();
            Unwrap(e) == e && Invert(e) == Ok(Op(V, Div, Num(2))) && DivisorsKept(e, atoms) && Slanted(e, atoms) &&
            !TwoSidedAt(e, Op(V, Div, Num(2)), atoms, 3.0)
  {
    hide Invert, DivisorsKept, Slanted, TwoSidedAt;
    ExampleInverts();
    ExampleKept(atoms);
    ExampleValues(atoms);
  }

  function FourthOf7(): Expr {
    Call(Cdiv, [Num(7), Num(2)])
  }

  function ClosedOperand(): Expr {
    Op(Op(V, Mult, FourthOf7()), Div, Num(3))
  }

  lemma {:induction false} ExampleKept(atoms: Atoms)
    ensures DivisorsKept(ClosedOperand(), atoms)
  {
    assert TryInt(Num(3)) == Num(3);
    assert DivisorsKept(Op(V, Mult, FourthOf7()), atoms);
    hide TryInt;
  }

  lemma {:induction false} ExampleValues(atoms: Atoms)
    requires atoms(FourthOf7()) == 4.0
    ensures Slanted(ClosedOperand(), atoms) && !TwoSidedAt(ClosedOperand(), Op(V, Div, Num(2)), atoms, 3.0)
  {
    var (e, inv) := (ClosedOperand(), Op(V, Div, Num(2)));
    forall x ensures ValueAt(e, atoms, x) == Some(x * 4.0 / 3.0) {
      assert ValueAt(Op(V, Mult, FourthOf7()), atoms, x) == Some(x * 4.0);
    }
    assert ValueAt(inv, atoms, 4.0) == Some(2.0);
  }

  lemma {:induction false} ExampleInverts()
    ensures Unwrap(ClosedOperand()) == ClosedOperand() && Invert(ClosedOperand()) == Ok(Op(V, Div, Num(2)))
  {
    hide ScaledInverse, ScaledTree, TryInt;
    ExampleAffine();
    ExampleResolves();
    ExampleScaled();
  }

  lemma {:induction false} ExampleAffine()
    ensures AffineInV(ClosedOperand()) == Ok((Op(FourthOf7(), Div, Num(3)), Num(0)))
  {
    hide Gcd;
    assert !ContainsV(FourthOf7());
    assert AffineInV(FourthOf7()) == Ok((Num(0), FourthOf7()));
    assert AffineInV(Op(V, Mult, FourthOf7())) == Ok((FourthOf7(), Num(0)));
    assert AffineInV(Num(3)) == Ok((Num(0), Num(3))) && TryInt(Num(3)) == Num(3);
  }

  lemma {:induction false} ExampleResolves()
    ensures TryInt(Op(FourthOf7(), Div, Num(3))) == Num(2) && TryInt(Num(0)) == Num(0)
  {
    var (args, last) := ([Num(7), Num(2)], [Num(2)]);
    assert args[1..] == last && last[1..] == [];
    assert ResolveAll([]) == Some([]);
    assert [Num(2)] + [] == last && [Num(7)] + last == args;
    assert ResolveAll(last) == Some(last);
    assert ResolveAll(args) == Some(args);
    assert CeilDiv(7, 2) == 4 && CeilDiv(4, 3) == 2;
    assert Resolve(FourthOf7()) == Some(Num(4));
  }

  lemma {:induction false} ExampleScaled()
    ensures InverseAffine(Num(2), Num(0)) == ScaledTree(ScaledInverse(Whole(2), Whole(0)))
    ensures ScaledTree(ScaledInverse(Whole(2), Whole(0))) == Ok(Op(V, Div, Num(2)))
  {
    assert Gcd(1, 0) == 1 && Gcd(1, 2) == 1;
    assert ScaledInverse(Whole(2), Whole(0)) == Scaled(1, 0, 2);
    hide Gcd, ScaledInverse;
    assert ExprMult(V, Num(1)) == V && ExprSub(V, Num(0)) == V;
  }

  /** What an outer rounding call makes of a number. */
  function RoundReal(f: Func, r: real): real {
    match f
    case Round => if r >= 0.0 then (r + 0.5).Floor as real else -((-r + 0.5).Floor as real)
    case Ceil => -((-r).Floor as real)
    case Floor => r.Floor as real
    case _ => r
  }

  /** Dropping an outer rounding call is harmless on the register side: converting back the
      derived value of a whole raw value and rounding it gives that raw value. */
  lemma {:induction false} WrappedConversionReturns(e: Expr, atoms: Atoms, raw: int)
    requires Unwrap(e) != e && Invert(e).Ok? && ExactOperands(Unwrap(e)) && Slanted(Unwrap(e), atoms)
    ensures var user := ValueAt(Invert(e).value, atoms, raw as real);
            user.Some? && ValueAt(Unwrap(e), atoms, user.value).Some? &&
            RoundReal(e.func, ValueAt(Unwrap(e), atoms, user.value).value) == raw as real
  {
    InverseIsTwoSided(e, atoms, raw as real);
    assert TwoSidedAt(Unwrap(e), Invert(e).value, atoms, raw as real);
    hide Invert, Slanted, ExactOperands, ValueAt, RoundReal;
    RoundWhole(e.func, raw);
  }

  lemma {:induction false} RoundWhole(f: Func, raw: int)
    ensures f.Round? || f.Ceil? || f.Floor? || f.ToFloat? ==> RoundReal(f, raw as real) == raw as real
  {
    FloorBetween(raw as real + 0.5, raw);
    FloorBetween(-(raw as real) + 0.5, -raw);
    FloorBetween(raw as real, raw);
    FloorBetween(-(raw as real), -raw);
  }

  lemma {:induction false} FloorBetween(r: real, n: int)
    requires n as real <= r < n as real + 1.0
    ensures r.Floor == n
  {
  }

  // ------------------------------------------------------------------ no fractions left over

  /** Subtracting an int from a tree that is no number. */
  lemma {:induction false} ExprSubInt(l: Expr, n: int)
    requires !IsNum(l)
    ensures ExprSub(l, Num(n)) == if n == 0 then l else if n < 0 then Op(l, Add, Num(-n)) else Op(l, Sub, Num(n))
  {
    hide Gcd, FracSub, FracAdd;
    assert Norm(FracNeg(Whole(n))) == Num(-n);
    if n < 0 {
      assert ExprSub(l, Num(n)) == ExprAdd(l, Num(-n));
    }
  }

  lemma {:induction false} ExprSubPlain(l: Expr, n: int)
    requires !IsNum(l) && NoFraction(l)
    ensures NoFraction(ExprSub(l, Num(n))) && !IsNum(ExprSub(l, Num(n)))
  {
    hide ExprSub;
    ExprSubInt(l, n);
  }

  /** The derived side prints and generates without fractions. */
  lemma {:induction false} InverseHasNoFraction(e: Expr)
    requires Invert(e).Ok?
    ensures NoFraction(Invert(e).value)
  {
    hide AffineInV, Unwrap, Resolve, Gcd, Whole;
    var (coef, offset) := AffineInV(Unwrap(e)).value;
    var c, o := TryInt(coef), TryInt(offset);
    if IsNum(c) && IsNum(o) {
      ScaledKeepsV(NumValue(c), NumValue(o));
      PlainScaled(ScaledInverse(NumValue(c), NumValue(o)));
    } else {
      PlainQuotient(o, c);
    }
  }

  lemma {:induction false} ScaledKeepsV(coef: Fraction, offset: Fraction)
    ensures ScaledInverse(coef, offset).lhs != 0
  {
    hide Gcd;
    var t := Unreduced(coef, offset);
    assert t.lhs > 0;
    ReduceThree(Abs(t.lhs), Abs(t.off), Abs(t.rhs));
    SignedExact(t.lhs, CommonFactor(t));
  }

  lemma {:induction false} PlainScaled(s: Scaled)
    requires s.lhs != 0 && ScaledTree(s).Ok?
    ensures NoFraction(ScaledTree(s).value)
  {
    var m := ExprMult(V, Num(s.lhs));
    assert !IsNum(m) && NoFraction(m);
    ExprSubPlain(m, s.off);
    hide ExprMult, ExprSub;
    assert NoFraction(Num(s.rhs));
  }

  lemma {:induction false} PlainQuotient(o: Expr, c: Expr)
    requires !(IsNum(o) && IsNum(c)) && NoFraction(o) && NoFraction(c) && ExprDiv(ExprSub(V, o), c).Ok?
    ensures NoFraction(ExprDiv(ExprSub(V, o), c).value)
  {
    if o.Num? {
      ExprSubPlain(V, o.n);
    }
  }

  // ------------------------------------------------------------------ what the resolver computes

  function AsNumber(v: Option<int>): Option<Expr> {
    if v.Some? then Some(Num(v.value)) else None
  }

  /** Main result: on ints the resolver computes what generated Python does, but for `/`, which it
      rounds up; `&&` and `||` give 0 or 1 where Python gives an operand, with the same truth. */
  lemma {:induction false} ResolveIsPython(op: BinOp, a: int, b: int)
    ensures var (x, y) := (ResolveOp(Num(a), op, Num(b)), EvalOp(op, Some(a), Some(b)));
            (!op.Div? && !op.LAnd? && !op.LOr? ==> x == AsNumber(y)) &&
            (op.LAnd? || op.LOr? ==> y.Some? && x == Some(Num(if y.value != 0 then 1 else 0)))
    ensures ResolveOp(Num(a), Div, Num(0)) == None
  {
  }

  /** The resolver's quotient is the least int that is not below the exact one. */
  lemma {:induction false} ResolveRoundsUp(a: int, b: int)
    requires b != 0
    ensures ResolveOp(Num(a), Div, Num(b)).Some? && ResolveOp(Num(a), Div, Num(b)).value.Num?
    ensures var k := ResolveOp(Num(a), Div, Num(b)).value.n;
            (b > 0 ==> b * k - b < a <= b * k) && (b < 0 ==> b * k <= a < b * k - b)
    ensures ResolveCall(Cdiv, [Num(a), Num(b)]) == ResolveOp(Num(a), Div, Num(b))
    ensures EvalCall(Cdiv, [Some(a), Some(b)]) == Some(ResolveOp(Num(a), Div, Num(b)).value.n)
  {
  }

  /** Main result: $clog2 is the least k with x <= 2^k, in the resolver and, for positive x, in
      generated Python; there $clog2(0) is 1. */
  lemma {:induction false} Clog2IsLeast(x: int, k: nat)
    ensures ResolveCall(Clog2, [Num(x)]).Some? && ResolveCall(Clog2, [Num(x)]).value.Num?
    ensures var c := ResolveCall(Clog2, [Num(x)]).value.n;
            c >= 0 && (c <= k <==> x <= Bits.Pow2(k)) &&
            (x >= 1 ==> EvalCall(Clog2, [Some(x)]) == Some(c)) && (x == 0 ==> EvalCall(Clog2, [Some(x)]) == Some(1))
  {
    if x > 1 {
      Widths.BitLengthIsLeast(x - 1, k);
    }
    assert Bits.BitLength(1) == 1;
  }

  /** On ints $round, $ceil and $floor change nothing, and $float leaves the ints. */
  lemma {:induction false} RoundingCalls(x: int)
    ensures ResolveCall(Round, [Num(x)]) == ResolveCall(Ceil, [Num(x)]) == ResolveCall(Floor, [Num(x)]) == Some(Num(x))
    ensures EvalCall(Round, [Some(x)]) == EvalCall(Ceil, [Some(x)]) == EvalCall(Floor, [Some(x)]) == Some(x)
    ensures ResolveCall(ToFloat, [Num(x)]) == None && EvalCall(ToFloat, [Some(x)]) == None
  {
  }

  // ------------------------------------------------------------------ what is accepted

  /** Sums and differences of `v` and constants, multiplied from the right and divided by
      constants other than zero. */
  predicate Linear(e: Expr)
    decreases e
  {
    e.V? || !ContainsV(e) ||
    (e.Op? && Linear(e.lhs) &&
     match e.op
     case Add => Linear(e.rhs)
     case Sub => Linear(e.rhs)
     case Mult => !ContainsV(e.rhs)
     case Div => !ContainsV(e.rhs) && !(IsNum(TryInt(e.rhs)) && NumValue(TryInt(e.rhs)).num == 0)
     case _ => false)
  }

  /** Main result: every such conversion is accepted by the affine analysis. */
  lemma {:induction false} LinearIsAccepted(e: Expr)
    requires Linear(e)
    ensures AffineInV(e).Ok?
    decreases e
  {
    hide TryInt, ExprAdd, ExprSub, ExprMult;
    if !e.V? && ContainsV(e) {
      LinearIsAccepted(e.lhs);
      if e.op.Add? || e.op.Sub? {
        LinearIsAccepted(e.rhs);
      }
    }
  }

  /** Main result: nothing else than + - * / of `v` is, nor a constant times or over `v`, nor a
      conversion without `v`. */
  lemma {:induction false} OthersAreRefused(e: Expr, x: Expr)
    ensures ContainsV(e) && !e.V? && !(e.Op? && (e.op.Add? || e.op.Sub? || e.op.Mult? || e.op.Div?)) ==>
              AffineInV(e).Err?
    ensures !ContainsV(x) ==> AffineInV(Op(x, Mult, V)).Err? && AffineInV(Op(x, Div, V)).Err?
    ensures !ContainsV(Unwrap(e)) ==> Invert(e) == Err(NotInvertible)
  {
    assert AffineInV(V) == Ok((Num(1), Num(0)));
    if !ContainsV(x) {
      assert AffineInV(x) == Ok((Num(0), x));
      assert ContainsV(Op(x, Mult, V)) && ContainsV(Op(x, Div, V));
    }
  }

  /** One outer rounding call is dropped, and no more: a call under it is refused, and so are other
      calls of `v`. */
  lemma {:induction false} RoundingIsDropped(f: Func, a: Expr)
    ensures (f.Round? || f.Ceil? || f.Floor? || f.ToFloat?) && !a.Call? ==> Invert(Call(f, [a])) == Invert(a)
    ensures a.Call? ==> Invert(Call(f, [a])).Err?
    ensures (f.Clog2? || f.Cdiv?) && ContainsV(a) ==> Invert(Call(f, [a])).Err?
  {
    hide AffineInV, InverseAffine;
    if a.Call? {
      CallIsNoLine(a);
    }
    CallIsNoLine(Call(f, [a]));
    if ContainsV(a) {
      assert [a][0] == a && ContainsV(Call(f, [a]));
    }
  }

  lemma {:induction false} CallIsNoLine(e: Expr)
    requires e.Call?
    ensures AffineInV(e) == if ContainsV(e) then Err(NotInvertible) else Ok((Num(0), e))
  {
  }

  /** Rounding of an exact value: down, up, or to the nearest int with halves away from zero. */
  lemma {:induction false} RoundRealIs(r: real)
    ensures RoundReal(Floor, r) <= r < RoundReal(Floor, r) + 1.0 && RoundReal(Ceil, r) - 1.0 < r <= RoundReal(Ceil, r)
    ensures RoundReal(Round, r) - 0.5 <= r <= RoundReal(Round, r) + 0.5
    ensures r >= 0.0 ==> r < RoundReal(Round, r) + 0.5
    ensures r < 0.0 ==> RoundReal(Round, r) - 0.5 < r
    ensures forall f: Func :: f.Floor? || f.Ceil? || f.Round? ==> RoundReal(f, RoundReal(f, r)) == RoundReal(f, r)
  {
    RoundWhole(Floor, r.Floor);
    RoundWhole(Ceil, -((-r).Floor));
    RoundWhole(Round, (r + 0.5).Floor);
    RoundWhole(Round, -((-r + 0.5).Floor));
  }

  /** On exact numbers that are not both ints the resolver is exact. */
  lemma {:induction false} ResolveFractions(a: Expr, op: BinOp, b: Expr)
    requires IsNum(a) && IsNum(b) && (a.Frac? || b.Frac?) && ResolveOp(a, op, b).Some?
    ensures op.Add? || op.Sub? || op.Mult? || op.Div?
    ensures var (x, y) := (ToReal(NumValue(a)), ToReal(NumValue(b)));
            ToReal(NumValue(ResolveOp(a, op, b).value)) ==
              if op.Add? then x + y else if op.Sub? then x - y else if op.Mult? then x * y
              else if y != 0.0 then x / y else 0.0
    ensures op.Div? ==> ToReal(NumValue(b)) != 0.0
  {
    hide ToReal, FracAdd, FracSub, FracMul, FracDiv, Gcd;
    var (x, y) := (NumValue(a), NumValue(b));
    AddIsSum(x, y);
    SubIsDifference(x, y);
    MulIsProduct(x, y);
    if op.Div? {
      ZeroFraction(y);
      DivIsQuotient(x, y);
    }
  }

  lemma {:induction false} ResolveNot(a: Expr)
    requires Resolve(a).Some? && Resolve(a).value.Num?
    ensures Resolve(Not(a)) == Some(Num(if Resolve(a).value.n == 0 then 1 else 0))
  {
  }

  /** Arguments are resolved one by one, in order. */
  lemma {:induction false} ResolveAllAt(es: seq<Expr>, i: nat)
    requires ResolveAll(es).Some?
    ensures |ResolveAll(es).value| == |es|
    ensures i < |es| ==> Resolve(es[i]) == Some(ResolveAll(es).value[i])
    decreases es
  {
    hide Resolve;
    if es != [] {
      ResolveAllAt(es[1..], if i > 0 then i - 1 else 0);
    }
  }

  // ------------------------------------------------------------------ where v occurs

  /** e with x in place of `v`. */
  function Substituted(e: Expr, x: Expr): Expr
    decreases e
  {
    match e
    case V => x
    case Op(l, op, r) => Op(Substituted(l, x), op, Substituted(r, x))
    case Not(a) => Not(Substituted(a, x))
    case Call(f, args) => Call(f, SubstitutedAll(args, x))
    case _ => e
  }

  function SubstitutedAll(es: seq<Expr>, x: Expr): (r: seq<Expr>)
    ensures |r| == |es|
    decreases es
  {
    if es == [] then [] else [Substituted(es[0], x)] + SubstitutedAll(es[1..], x)
  }

  /** Main result: a tree uses `v` exactly when putting another tree in its place changes it. */
  lemma {:induction false} ContainsVIff(e: Expr, x: Expr)
    requires !x.V?
    ensures ContainsV(e) <==> Substituted(e, x) != e
    decreases e
  {
    match e
    case V =>
    case Op(l, _, r) =>
      ContainsVIff(l, x);
      ContainsVIff(r, x);
    case Not(a) => ContainsVIff(a, x);
    case Call(_, args) => SomeContainsVIff(args, x);
    case _ =>
  }

  lemma {:induction false} SomeContainsVIff(es: seq<Expr>, x: Expr)
    requires !x.V?
    ensures (exists i :: 0 <= i < |es| && ContainsV(es[i])) <==> SubstitutedAll(es, x) != es
    decreases es
  {
    if es != [] {
      ContainsVIff(es[0], x);
      SomeContainsVIff(es[1..], x);
      assert es == [es[0]] + es[1..];
      hide ContainsV, Substituted;
      assert forall i :: 0 <= i < |es[1..]| ==> es[1..][i] == es[i + 1];
      if i :| 0 <= i < |es| && ContainsV(es[i]) {
        assert i > 0 ==> es[1..][i - 1] == es[i];
      }
      assert SubstitutedAll(es, x)[0] == Substituted(es[0], x);
      assert SubstitutedAll(es, x)[1..] == SubstitutedAll(es[1..], x);
    }
  }

  /** ... and without it the value does not depend on it. */
  lemma {:induction false} WithoutVSameValue(e: Expr, env: Env, v: int)
    requires !ContainsV(e)
    ensures Eval(e, env) == Eval(e, env.(v := v))
    decreases e
  {
    match e
    case Op(l, _, r) =>
      WithoutVSameValue(l, env, v);
      WithoutVSameValue(r, env, v);
    case Not(a) => WithoutVSameValue(a, env, v);
    case Call(_, args) => WithoutVSameValues(args, env, v);
    case _ =>
  }

  lemma {:induction false} WithoutVSameValues(es: seq<Expr>, env: Env, v: int)
    requires forall i :: 0 <= i < |es| ==> !ContainsV(es[i])
    ensures EvalAll(es, env) == EvalAll(es, env.(v := v))
    decreases es
  {
    if es != [] {
      WithoutVSameValue(es[0], env, v);
      WithoutVSameValues(es[1..], env, v);
    }
  }
}
