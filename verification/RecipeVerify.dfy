/** The sample check of a derived conversion: what six register values say about all of
    them, for integer conversions with at most one, outermost, division. */
module RecipeVerify {
  import opened Division
  import opened Wrappers
  import opened Rational
  import opened RecipeTree
  import opened RecipeInverse

  /** How `/` rounds: up in the recipe parser's evaluators, down in generated Python,
      towards zero in C++. */
  datatype Rounding = Up | Down | TowardZero

  function DivBy(mode: Rounding, a: int, b: int): int
    requires b != 0
  {
    match mode
    case Up => CeilDiv(a, b)
    case Down => FloorDiv(a, b)
    case TowardZero => TruncDiv(a, b)
  }

  function IntOp(mode: Rounding, op: BinOp, a: int, b: int): Option<int> {
    match op
    case Add => Some(a + b)
    case Sub => Some(a - b)
    case Mult => Some(a * b)
    case Div => if b == 0 then None else Some(DivBy(mode, a, b))
    case Power => if b < 0 then None else Some(Pow(a, b))
    case Mod => if b == 0 then None else Some(FloorMod(a, b))
    case _ => None
  }

  /** _eval_with on ints: the value of a tree with v bound, None when it raises. */
  function EvalWith(e: Expr, mode: Rounding, v: int): Option<int>
    decreases e
  {
    match e
    case V => Some(v)
    case Op(l, op, r) =>
      var a :- EvalWith(l, mode, v);
      var b :- EvalWith(r, mode, v);
      IntOp(mode, op, a, b)
    case Not(_) => None
    case Call(f, args) =>
      var xs :- BindAll(args, mode, v);
      OnlyInt(ResolveCall(f, xs))
    case _ => OnlyInt(Resolve(e))
  }

  function BindAll(es: seq<Expr>, mode: Rounding, v: int): Option<seq<Expr>>
    decreases es
  {
    if es == [] then Some([])
    else
      var x :- if ContainsV(es[0]) then ToNum(EvalWith(es[0], mode, v)) else Resolve(es[0]);
      var xs :- BindAll(es[1..], mode, v);
      Some([x] + xs)
  }

  function ToNum(n: Option<int>): Option<Expr> {
    if n.Some? then Some(Num(n.value)) else None
  }

  function OnlyInt(r: Option<Expr>): Option<int> {
    if r.Some? && r.value.Num? then Some(r.value.n) else None
  }

  /** What a register value becomes when it is converted to a user value and back. */
  function ThereAndBack(e: Expr, inv: Expr, mode: Rounding, raw: int): Option<int> {
    var user :- EvalWith(inv, mode, raw);
    EvalWith(e, mode, user)
  }

  const SAMPLES: seq<int> := [0, 1, 3, -3, 100, -100]

  /** _verify_inverse accepts: the samples come back, as far as they can be evaluated. */
  predicate Passes(e: Expr, inv: Expr, raws: seq<int>) {
    raws == [] ||
    ThereAndBack(e, inv, Up, raws[0]).None? ||
    (ThereAndBack(e, inv, Up, raws[0]) == Some(raws[0]) && Passes(e, inv, raws[1..]))
  }

  /** Sample k can be evaluated and comes back as another value, all samples before it come back
      as they are. */
  predicate FirstWrong(e: Expr, inv: Expr, raws: seq<int>, k: int) {
    0 <= k < |raws| &&
    ThereAndBack(e, inv, Up, raws[k]).Some? && ThereAndBack(e, inv, Up, raws[k]) != Some(raws[k]) &&
    forall j :: 0 <= j < k ==> ThereAndBack(e, inv, Up, raws[j]) == Some(raws[j])
  }

  /** Main result: the check refuses a conversion exactly when some sample comes back wrong after
      all the samples before it came back right; one that cannot be evaluated ends the check,
      and the conversion is taken as given. */
  method VerifyInverse(e: Expr, inv: Expr) returns (ok: bool)
    ensures ok == Passes(e, inv, SAMPLES)
    ensures !ok <==> exists k :: FirstWrong(e, inv, [0, 1, 3, -3, 100, -100], k)
  {
    hide ThereAndBack, FirstWrong;
    PassesIff(e, inv, SAMPLES);
    for i := 0 to |SAMPLES|
      invariant Passes(e, inv, SAMPLES) == Passes(e, inv, SAMPLES[i..])
    {
      var back := ThereAndBack(e, inv, Up, SAMPLES[i]);
      if back.None? {
        return true;
      }
      if back != Some(SAMPLES[i]) {
        return false;
      }
    }
    return true;
  }

  /** The same of any list of samples. */
  lemma {:induction false} PassesIff(e: Expr, inv: Expr, raws: seq<int>)
    ensures !Passes(e, inv, raws) <==> exists k :: FirstWrong(e, inv, raws, k)
    decreases |raws|
  {
    hide ThereAndBack, FirstWrong;
    if raws != [] {
      PassesIff(e, inv, raws[1..]);
      FirstAtHead(e, inv, raws);
      forall k | FirstWrong(e, inv, raws, k) ensures !Passes(e, inv, raws) {
        OneLater(e, inv, raws, k - 1);
      }
      if k :| FirstWrong(e, inv, raws[1..], k) {
        NotNegative(e, inv, raws[1..], k);
        OneLater(e, inv, raws, k);
      }
    } else {
      NoneWrong(e, inv);
    }
  }

  lemma {:induction false} NotNegative(e: Expr, inv: Expr, raws: seq<int>, k: int)
    requires FirstWrong(e, inv, raws, k)
    ensures k >= 0
  {
  }

  lemma {:induction false} NoneWrong(e: Expr, inv: Expr)
    ensures forall k :: !FirstWrong(e, inv, [], k)
  {
  }

  lemma {:induction false} FirstAtHead(e: Expr, inv: Expr, raws: seq<int>)
    requires raws != []
    ensures var back := ThereAndBack(e, inv, Up, raws[0]);
            (FirstWrong(e, inv, raws, 0) <==> back.Some? && back != Some(raws[0])) &&
            forall k :: FirstWrong(e, inv, raws, k) ==> k >= 0 && (k > 0 ==> back == Some(raws[0]))
  {
    hide ThereAndBack;
  }

  lemma {:induction false} OneLater(e: Expr, inv: Expr, raws: seq<int>, k: int)
    requires raws != []
    ensures ThereAndBack(e, inv, Up, raws[0]) == Some(raws[0]) && k >= 0 ==>
              (FirstWrong(e, inv, raws, k + 1) <==> FirstWrong(e, inv, raws[1..], k))
  {
    hide ThereAndBack;
    if FirstWrong(e, inv, raws, k + 1) && k >= 0 {
      forall j | 0 <= j < k ensures ThereAndBack(e, inv, Up, raws[1..][j]) == Some(raws[1..][j]) {
        assert raws[1..][j] == raws[j + 1];
      }
    }
    if FirstWrong(e, inv, raws[1..], k) && ThereAndBack(e, inv, Up, raws[0]) == Some(raws[0]) {
      forall j | 0 <= j < k + 1 ensures ThereAndBack(e, inv, Up, raws[j]) == Some(raws[j]) {
        assert j > 0 ==> raws[j] == raws[1..][j - 1];
      }
    }
  }

  // ------------------------------------------------------------------ names known at run time only

  /** Some name of e is known at run time only. */
  predicate HasName(e: Expr)
    decreases e
  {
    match e
    case K(_) => true
    case Op(l, _, r) => HasName(l) || HasName(r)
    case Not(a) => HasName(a)
    case Call(_, args) => exists i :: 0 <= i < |args| && HasName(args[i])
    case _ => false
  }

  lemma {:induction false} NameUnresolved(e: Expr)
    requires HasName(e)
    ensures Resolve(e).None?
    decreases e
  {
    match e
    case K(_) =>
    case Op(l, _, r) => if HasName(l) { NameUnresolved(l); } else { NameUnresolved(r); }
    case Not(a) => NameUnresolved(a);
    case Call(_, args) =>
      var i :| 0 <= i < |args| && HasName(args[i]);
      NameUnresolved(args[i]);
      ArgUnresolved(args, i);
  }

  /** A tree with a run-time name cannot be evaluated. */
  lemma {:induction false} NameRaises(e: Expr, mode: Rounding, v: int)
    requires HasName(e)
    ensures EvalWith(e, mode, v).None?
    decreases e
  {
    match e
    case K(_) =>
    case Op(l, _, r) => if HasName(l) { NameRaises(l, mode, v); } else { NameRaises(r, mode, v); }
    case Not(a) =>
    case Call(_, args) =>
      var i :| 0 <= i < |args| && HasName(args[i]);
      if ContainsV(args[i]) {
        NameRaises(args[i], mode, v);
      } else {
        NameUnresolved(args[i]);
      }
      BoundNone(args, mode, v, i);
  }

  lemma {:induction false} BoundNone(es: seq<Expr>, mode: Rounding, v: int, i: nat)
    requires i < |es| && if ContainsV(es[i]) then EvalWith(es[i], mode, v).None? else Resolve(es[i]).None?
    ensures BindAll(es, mode, v).None?
    decreases es
  {
    hide EvalWith, Resolve;
    if i > 0 {
      BoundNone(es[1..], mode, v, i - 1);
    }
  }

  /** Main result: a conversion with a run-time name on either side is never refused. */
  lemma {:induction false} NamesAreTakenAsGiven(e: Expr, inv: Expr, raws: seq<int>)
    requires HasName(e) || HasName(inv)
    ensures Passes(e, inv, raws)
  {
    hide EvalWith, HasName;
    if raws != [] {
      if HasName(inv) {
        NameRaises(inv, Up, raws[0]);
      } else if EvalWith(inv, Up, raws[0]).Some? {
        NameRaises(e, Up, EvalWith(inv, Up, raws[0]).value);
      }
    }
  }

  /** v * g with a run-time g derives v / g, and is accepted. */
  lemma {:induction false} NameExample(g: string)
    ensures var (e, inv) := (Op(V, Mult, K(g)), Op(V, Div, K(g)));
            Invert(e) == Ok(inv) && Passes(e, inv, SAMPLES)
  {
    var (e, inv) := (Op(V, Mult, K(g)), Op(V, Div, K(g)));
    NameAffine(g);
    assert TryInt(K(g)) == K(g) && TryInt(Num(0)) == Num(0);
    NamesAreTakenAsGiven(e, inv, SAMPLES);
    hide Passes, AffineInV, ScaledTree, ScaledInverse;
  }

  lemma {:induction false} NameAffine(g: string)
    ensures AffineInV(Op(V, Mult, K(g))) == Ok((K(g), Num(0)))
  {
    hide Gcd;
    OneTimes(K(g));
    var e := Op(V, Mult, K(g));
    assert ContainsV(e.lhs) && AffineInV(e.lhs) == Ok((Num(1), Num(0)));
    assert AffineInV(e.rhs) == Ok((Num(0), K(g)));
  }

  lemma {:induction false} OneTimes(x: Expr)
    requires !IsNum(x)
    ensures ExprMult(Num(1), x) == x && ExprMult(Num(0), x) == Num(0)
  {
  }

  // ------------------------------------------------------------------ integer conversions

  /** A tree over v and int literals with + - * only, constants folded. */
  predicate IntTree(e: Expr)
    decreases e
  {
    match e
    case V => true
    case Num(_) => true
    case Op(l, op, r) =>
      (op.Add? || op.Sub? || op.Mult?) && IntTree(l) && IntTree(r) && (ContainsV(l) || ContainsV(r))
    case _ => false
  }

  /** An integer conversion (p * v + q) / r: an integer tree, or one under a single outermost
      division by a literal. */
  predicate IntConversion(e: Expr, p: int, q: int, r: int) {
    r != 0 &&
    if e.Op? && e.op.Div? then
      IntTree(e.lhs) && e.rhs == Num(r) && AffineInV(e.lhs) == Ok((Num(p), Num(q)))
    else
      r == 1 && IntTree(e) && AffineInV(e) == Ok((Num(p), Num(q)))
  }

  lemma {:induction false} IntTreeValue(e: Expr, mode: Rounding, v: int, atoms: Atoms)
    requires IntTree(e)
    ensures EvalWith(e, mode, v).Some?
    ensures ValueAt(e, atoms, v as real) == Some(EvalWith(e, mode, v).value as real)
    decreases e
  {
    hide Times;
    if e.Op? {
      IntTreeValue(e.lhs, mode, v, atoms);
      IntTreeValue(e.rhs, mode, v, atoms);
      var a, b := EvalWith(e.lhs, mode, v).value, EvalWith(e.rhs, mode, v).value;
      CastTimes(a, b);
    }
  }

  lemma {:induction false} CastTimes(a: int, b: int)
    ensures Times(a as real, b as real) == (a * b) as real
  {
  }

  lemma {:induction false} IntTreeExact(e: Expr)
    requires IntTree(e)
    ensures ExactOperands(e)
    decreases e
  {
    if e.Op? {
      IntTreeExact(e.lhs);
      IntTreeExact(e.rhs);
    }
  }

  /** An integer tree has the value p * v + q. */
  lemma {:induction false} IntTreeIsLine(e: Expr, p: int, q: int, mode: Rounding, v: int)
    requires IntTree(e) && AffineInV(e) == Ok((Num(p), Num(q)))
    ensures EvalWith(e, mode, v) == Some(p * v + q)
  {
    hide EvalWith, AffineInV, Times, ExactOperands, IntTree, DivisorsKept, Kept;
    var atoms: Atoms := _ => 0.0;
    IntTreeValue(e, mode, v, atoms);
    IntTreeExact(e);
    ExactIsKept(e, atoms);
    var cv, ov := AffineSound(e, atoms, v as real, v as real);
    CastTimes(p, v);
    assert cv == p as real && ov == q as real;
  }

  lemma {:induction false} ConversionValue(e: Expr, p: int, q: int, r: int, mode: Rounding, v: int)
    requires IntConversion(e, p, q, r)
    ensures EvalWith(e, mode, v) == Some(DivBy(mode, p * v + q, r))
  {
    hide DivBy, AffineInV, IntTree;
    if e.Op? && e.op.Div? {
      IntTreeIsLine(e.lhs, p, q, mode, v);
    } else {
      IntTreeIsLine(e, p, q, mode, v);
      DivByOne(mode, p * v + q);
    }
  }

  lemma {:induction false} DivByOne(mode: Rounding, a: int)
    ensures DivBy(mode, a, 1) == a
  {
  }

  // ------------------------------------------------------------------ the derived side

  /** The derived side of an integer conversion: (v * lhs - off) / rhs with
      rhs : lhs : off standing as p : r : q. */
  ghost predicate DerivedScale(s: Scaled, p: int, q: int, r: int) {
    s.rhs > 0 && s.lhs * p == s.rhs * r && s.off * p == s.rhs * q
  }

  lemma {:induction false} RatioOf(p: int, r: int)
    requires r != 0
    ensures ExprDiv(Num(p), Num(r)).Ok?
    ensures var c := ExprDiv(Num(p), Num(r)).value; IsNum(c) && NumValue(c).num * r == p * NumValue(c).den
  {
    hide Gcd, MakeFraction;
    var w := FracDiv(Whole(p), Whole(r));
    assert w.num * r == p * w.den;
  }

  lemma {:induction false} ConversionAffine(e: Expr, p: int, q: int, r: int)
    requires IntConversion(e, p, q, r) && ContainsV(e) && p != 0
    ensures AffineInV(e).Ok?
    ensures var (c, o) := AffineInV(e).value;
            IsNum(c) && IsNum(o) && NumValue(c).num * r == p * NumValue(c).den &&
              NumValue(o).num * r == q * NumValue(o).den
  {
    hide Gcd, ExprDiv;
    if e.Op? && e.op.Div? {
      RatioOf(p, r);
      RatioOf(q, r);
      assert TryInt(e.rhs) == Num(r);
    }
  }

  lemma {:induction false} ProportionKept(c: Fraction, o: Fraction, p: int, q: int, r: int)
    requires c.num != 0 && r != 0 && c.num * r == p * c.den && o.num * r == q * o.den
    ensures DerivedScale(ScaledInverse(c, o), p, q, r)
  {
    hide ScaledInverse, Gcd;
    var s := ScaledInverse(c, o);
    var g := ScaledIsReduced(c, o);
    Proportion(g, s.lhs, s.rhs, p, r, o.den, c.den, c.num);
    OffsetProportion(g, s.off, s.rhs, p, q, r, o.num, o.den, c.num, c.den);
  }

  lemma {:induction false} OffsetProportion(g: int, f: int, h: int, p: int, q: int, r: int, on: int, od: int, cn: int,
                                            cd: int)
    requires g != 0 && on * cd == g * f && od * cn == g * h && cn * r == p * cd && on * r == q * od
    ensures f * p == h * q
  {
    calc {
      g * (f * p);
      (on * cd) * p;
      on * (p * cd);
      on * (cn * r);
      (on * r) * cn;
      (q * od) * cn;
      q * (od * cn);
      g * (h * q);
    }
    CancelFactor(g, f * p, h * q);
  }

  lemma {:induction false} Proportion(g: int, l: int, h: int, p: int, r: int, od: int, cd: int, cn: int)
    requires g != 0 && od * cd == g * l && od * cn == g * h && cn * r == p * cd
    ensures l * p == h * r
  {
    calc {
      g * (l * p);
      (od * cd) * p;
      od * (p * cd);
      od * (cn * r);
      (od * cn) * r;
      g * (h * r);
    }
    CancelFactor(g, l * p, h * r);
  }

  lemma {:induction false} ScaledTreeEval(s: Scaled, mode: Rounding, v: int)
    requires s.rhs > 0 && s.lhs != 0
    ensures ScaledTree(s).Ok?
    ensures EvalWith(ScaledTree(s).value, mode, v) == Some(DivBy(mode, v * s.lhs - s.off, s.rhs))
  {
    hide ExprSub, ExprMult, DivBy;
    var m := ExprMult(V, Num(s.lhs));
    MultiplyV(s.lhs, mode, v);
    SubtractInt(m, s.off, mode, v);
    DivByOne(mode, v * s.lhs - s.off);
  }

  lemma {:induction false} SubtractInt(m: Expr, n: int, mode: Rounding, v: int)
    requires !IsNum(m) && EvalWith(m, mode, v).Some?
    ensures !IsNum(ExprSub(m, Num(n)))
    ensures EvalWith(ExprSub(m, Num(n)), mode, v) == Some(EvalWith(m, mode, v).value - n)
  {
    hide ExprSub, IntOp;
    ExprSubInt(m, n);
    IntSums(mode, EvalWith(m, mode, v).value, n);
  }

  lemma {:induction false} IntSums(mode: Rounding, a: int, n: int)
    ensures IntOp(mode, Sub, a, n) == IntOp(mode, Add, a, -n) == Some(a - n)
  {
  }

  lemma {:induction false} MultiplyV(n: int, mode: Rounding, v: int)
    requires n != 0
    ensures !IsNum(ExprMult(V, Num(n))) && EvalWith(ExprMult(V, Num(n)), mode, v) == Some(v * n)
  {
  }

  lemma {:induction false} DerivedTree(e: Expr, p: int, q: int, r: int) returns (s: Scaled)
    requires IntConversion(e, p, q, r) && ContainsV(e) && p != 0
    ensures s.lhs != 0 && DerivedScale(s, p, q, r) && Invert(e) == ScaledTree(s)
  {
    assert Unwrap(e) == e;
    hide ScaledInverse, ScaledTree, Gcd, AffineInV, Resolve, IntTree, Whole;
    ConversionAffine(e, p, q, r);
    var (c, o) := AffineInV(e).value;
    CoefficientNonZero(NumValue(c), p, r);
    ProportionKept(NumValue(c), NumValue(o), p, q, r);
    s := ScaledInverse(NumValue(c), NumValue(o));
    ScaledKeepsV(NumValue(c), NumValue(o));
    hide DerivedScale;
  }

  /** The derived side computes (raw * lhs - off) / rhs. */
  lemma {:induction false} DerivedSide(e: Expr, p: int, q: int, r: int) returns (s: Scaled)
    requires IntConversion(e, p, q, r) && ContainsV(e) && p != 0
    ensures DerivedScale(s, p, q, r) && Invert(e).Ok?
    ensures forall mode, raw :: EvalWith(Invert(e).value, mode, raw) == Some(DivBy(mode, raw * s.lhs - s.off, s.rhs))
  {
    hide IntConversion, Invert, ScaledTree, EvalWith, DivBy;
    s := DerivedTree(e, p, q, r);
    ScaledTreeEval(s, Up, 0);
    forall mode, raw ensures EvalWith(Invert(e).value, mode, raw) == Some(DivBy(mode, raw * s.lhs - s.off, s.rhs)) {
      ScaledTreeEval(s, mode, raw);
    }
  }

  lemma {:induction false} CoefficientNonZero(c: Fraction, p: int, r: int)
    requires p != 0 && c.num * r == p * c.den
    ensures c.num != 0
  {
    var n := NonZero(p, c.den);
  }

  // ------------------------------------------------------------------ rounding errors

  lemma {:induction false} CeilUnique(a: int, b: int, k: int)
    requires b > 0 && b * k - b < a <= b * k
    ensures CeilDiv(a, b) == k
  {
    var d := CeilDiv(a, b) - k;
    assert b * d == b * CeilDiv(a, b) - b * k;
    NoMultipleBetween(b, d);
  }

  lemma {:induction false} CeilUniqueNeg(a: int, b: int, k: int)
    requires b < 0 && b * k <= a < b * k - b
    ensures CeilDiv(a, b) == k
  {
    var d := CeilDiv(a, b) - k;
    assert b * d == b * CeilDiv(a, b) - b * k;
    NegateFactor(b, d, b, d);
    NoMultipleBetween(-b, d);
  }

  /** Equal fractions have equal ceilings. */
  lemma {:induction false} CeilSame(a: int, b: int, c: int, d: int)
    requires b > 0 && d != 0 && a * d == c * b
    ensures CeilDiv(a, b) == CeilDiv(c, d)
  {
    var k := CeilDiv(c, d);
    var s := d * k - c;
    assert (b * k - a) * d == b * s by {
      assert (b * k) * d == b * (d * k);
    }
    if d > 0 {
      Between(b * k - a, d, b, s);
    } else {
      assert (b * k - a) * (-d) == b * (-s) by { SignsCross(b * k - a, d, b, s); }
      Between(b * k - a, -d, b, -s);
    }
    CeilUnique(a, b, k);
  }

  lemma {:induction false} Between(x: int, d: int, b: int, s: int)
    requires d > 0 && b > 0 && x * d == b * s && 0 <= s < d
    ensures 0 <= x < b
  {
    ProductOrder(x, 0, d);
    ProductOrder(b, x, d);
    ProductOrder(s, d, b);
  }

  lemma {:induction false} ProductOrder(a: int, b: int, k: int)
    ensures a < b && k > 0 ==> a * k < b * k
    ensures a <= b && k >= 0 ==> a * k <= b * k
    ensures a <= b && k <= 0 ==> a * k >= b * k
  {
  }

  lemma {:induction false} CeilShift(k: int, s: int, r: int)
    requires r != 0
    ensures CeilDiv(k * r + s, r) == k + CeilDiv(s, r)
  {
    var c := CeilDiv(s, r);
    assert r * (k + c) == k * r + r * c;
    if r > 0 { CeilUnique(k * r + s, r, k + c); } else { CeilUniqueNeg(k * r + s, r, k + c); }
  }

  /** How far the derived side rounds up at raw, in steps of the forward side's numerator:
      p times the derived value is raw * r - q + Slack. */
  function Slack(p: int, q: int, r: int, raw: int): int
    requires p != 0
  {
    p * CeilDiv(raw * r - q, p) - (raw * r - q)
  }

  lemma {:induction false} SlackBounds(p: int, q: int, r: int, raw: int)
    requires p != 0
    ensures p > 0 ==> 0 <= Slack(p, q, r, raw) < p
    ensures p < 0 ==> p < Slack(p, q, r, raw) <= 0
  {
  }

  /** A register value comes back moved by its rounding error, rounded up. */
  lemma {:induction false} BackMoves(e: Expr, p: int, q: int, r: int, raw: int)
    requires IntConversion(e, p, q, r) && ContainsV(e) && p != 0
    ensures Invert(e).Ok?
    ensures ThereAndBack(e, Invert(e).value, Up, raw) == Some(raw + CeilDiv(Slack(p, q, r, raw), r))
  {
    hide IntConversion, Invert, EvalWith;
    var s := DerivedSide(e, p, q, r);
    assert DivBy(Up, raw * s.lhs - s.off, s.rhs) == CeilDiv(raw * s.lhs - s.off, s.rhs);
    DerivedCeil(s, p, q, r, raw);
    var u := CeilDiv(raw * r - q, p);
    ConversionDivisor(e, p, q, r);
    ConversionValue(e, p, q, r, Up, u);
    assert p * u + q == raw * r + Slack(p, q, r, raw);
    CeilShift(raw, Slack(p, q, r, raw), r);
  }

  lemma {:induction false} ConversionDivisor(e: Expr, p: int, q: int, r: int)
    requires IntConversion(e, p, q, r)
    ensures r != 0
  {
  }

  lemma {:induction false} DerivedCeil(s: Scaled, p: int, q: int, r: int, raw: int)
    requires p != 0 && DerivedScale(s, p, q, r)
    ensures CeilDiv(raw * s.lhs - s.off, s.rhs) == CeilDiv(raw * r - q, p)
  {
    DerivedCross(s, p, q, r, raw);
    CeilSame(raw * s.lhs - s.off, s.rhs, raw * r - q, p);
  }

  lemma {:induction false} DerivedCross(s: Scaled, p: int, q: int, r: int, raw: int)
    requires DerivedScale(s, p, q, r)
    ensures (raw * s.lhs - s.off) * p == (raw * r - q) * s.rhs
  {
    calc {
      (raw * s.lhs - s.off) * p;
      raw * (s.lhs * p) - s.off * p;
      raw * (s.rhs * r) - s.rhs * q;
      (raw * r - q) * s.rhs;
    }
  }

  /** A register value comes back exactly when: for a rising conversion the derived side
      did not round at all, for a falling one it rounded by less than one step. */
  ghost predicate ComesBack(p: int, q: int, r: int, raw: int)
    requires p != 0 && r != 0
  {
    if (p > 0) == (r > 0) then Slack(p, q, r, raw) == 0 else Abs(Slack(p, q, r, raw)) < Abs(r)
  }

  lemma {:induction false} BackIff(e: Expr, p: int, q: int, r: int, raw: int)
    requires IntConversion(e, p, q, r) && ContainsV(e) && p != 0
    ensures r != 0 && Invert(e).Ok?
    ensures ThereAndBack(e, Invert(e).value, Up, raw) == Some(raw) <==> ComesBack(p, q, r, raw)
  {
    hide IntConversion, Invert, ThereAndBack, Slack;
    ConversionDivisor(e, p, q, r);
    BackMoves(e, p, q, r, raw);
    SlackBounds(p, q, r, raw);
    CeilZero(Slack(p, q, r, raw), r);
  }

  lemma {:induction false} CeilZero(s: int, r: int)
    requires r != 0
    ensures CeilDiv(s, r) == 0 <==> (if r > 0 then -r < s <= 0 else 0 <= s < -r)
  {
    if r > 0 && -r < s <= 0 { CeilUnique(s, r, 0); }
    if r < 0 && 0 <= s < -r { CeilUniqueNeg(s, r, 0); }
  }

  // ------------------------------------------------------------------ all register values

  /** Whether every register value comes back, read off the coefficients. */
  ghost predicate AllComeBack(p: int, q: int, r: int) {
    if (p > 0) == (r > 0) then Divides(p, q) && Divides(p, r) else Abs(p) <= Abs(r)
  }

  lemma {:induction false} NoSlackIff(p: int, q: int, r: int, raw: int)
    requires p != 0
    ensures Slack(p, q, r, raw) == 0 <==> Divides(p, raw * r - q)
  {
    var n := raw * r - q;
    if Slack(p, q, r, raw) == 0 {
      DividesWitness(p, n, CeilDiv(n, p));
    }
    if Divides(p, n) {
      var k: int :| n == Mul(p, k);
      if p > 0 { CeilUnique(n, p, k); } else { CeilUniqueNeg(n, p, k); }
    }
  }

  /** The samples 0 and 1 settle a rising conversion. */
  lemma {:induction false} TwoSamplesSettle(p: int, q: int, r: int)
    requires p != 0 && Slack(p, q, r, 0) == 0 && Slack(p, q, r, 1) == 0
    ensures Divides(p, q) && Divides(p, r)
  {
    hide Slack;
    NoSlackIff(p, q, r, 0);
    NoSlackIff(p, q, r, 1);
    var a: int :| 0 * r - q == Mul(p, a);
    var b: int :| 1 * r - q == Mul(p, b);
    DividesDifference(p, q, r, a, b);
  }

  lemma {:induction false} DividesDifference(p: int, q: int, r: int, a: int, b: int)
    requires -q == p * a && r - q == p * b
    ensures Divides(p, q) && Divides(p, r)
  {
    assert q == p * (-a);
    assert r == p * (b - a);
    DividesWitness(p, q, -a);
    DividesWitness(p, r, b - a);
  }

  lemma {:induction false} ExactHasNoSlack(p: int, q: int, r: int, raw: int)
    requires p != 0 && Divides(p, q) && Divides(p, r)
    ensures Slack(p, q, r, raw) == 0
  {
    var a: int :| q == Mul(p, a);
    var b: int :| r == Mul(p, b);
    assert raw * r - q == p * (raw * b - a) by {
      assert raw * (p * b) == p * (raw * b);
    }
    DividesWitness(p, raw * r - q, raw * b - a);
    NoSlackIff(p, q, r, raw);
  }

  /** A falling conversion that is steeper than one step loses some register value: walking
      one register value at a time in the direction `dir`, the rounding error grows by |r|
      until it passes |r|, or wraps round and has become smaller. */
  lemma {:induction false} SteepLosesOne(p: int, q: int, r: int, raw: int) returns (lost: int)
    requires p != 0 && r != 0 && Abs(p) > Abs(r)
    ensures Abs(Slack(p, q, r, lost)) >= Abs(r)
    decreases Abs(Slack(p, q, r, raw))
  {
    if Abs(Slack(p, q, r, raw)) >= Abs(r) {
      lost := raw;
    } else {
      var dir := if (p > 0) == (r > 0) then -1 else 1;
      SlackStep(p, q, r, raw, dir);
      if Abs(Slack(p, q, r, raw + dir)) >= Abs(r) {
        lost := raw + dir;
      } else {
        lost := SteepLosesOne(p, q, r, raw + dir);
      }
    }
  }

  lemma {:induction false} SlackStep(p: int, q: int, r: int, raw: int, dir: int)
    requires p != 0 && r != 0 && Abs(p) > Abs(r)
    requires dir == if (p > 0) == (r > 0) then -1 else 1
    ensures var t, t' := Abs(Slack(p, q, r, raw)), Abs(Slack(p, q, r, raw + dir));
            t' == t + Abs(r) || t' + Abs(p) == t + Abs(r)
  {
    hide CeilDiv, Slack;
    SlackBounds(p, q, r, raw);
    SlackBounds(p, q, r, raw + dir);
    var d := CeilDiv((raw + dir) * r - q, p) - CeilDiv(raw * r - q, p);
    SlackDifference(p, q, r, raw, dir);
    UnitTimes(dir, r);
    SmallMultiple(p, d);
    StepCases(p, r, dir * r, p * d, Slack(p, q, r, raw), Slack(p, q, r, raw + dir));
  }

  lemma {:induction false} UnitTimes(dir: int, r: int)
    ensures (dir == 1 ==> dir * r == r) && (dir == -1 ==> dir * r == -r)
  {
  }

  lemma {:induction false} StepCases(p: int, r: int, step: int, m: int, s: int, s': int)
    requires Abs(p) > Abs(r) && (p > 0 ==> step + Abs(r) == 0) && (p <= 0 ==> step == Abs(r)) && m == s' - s + step
    requires m == -p || m == 0 || m == p
    requires if p > 0 then 0 <= s < p && 0 <= s' < p else p < s <= 0 && p < s' <= 0
    ensures Abs(s') == Abs(s) + Abs(r) || Abs(s') + Abs(p) == Abs(s) + Abs(r)
  {
  }

  lemma {:induction false} SlackDifference(p: int, q: int, r: int, raw: int, dir: int)
    requires p != 0
    ensures p * (CeilDiv((raw + dir) * r - q, p) - CeilDiv(raw * r - q, p)) ==
            Slack(p, q, r, raw + dir) - Slack(p, q, r, raw) + dir * r
  {
    var k, k' := CeilDiv(raw * r - q, p), CeilDiv((raw + dir) * r - q, p);
    assert p * (k' - k) == p * k' - p * k;
    assert (raw + dir) * r == raw * r + dir * r;
  }

  /** A multiple of p of size less than twice |p| is -p, 0 or p. */
  lemma {:induction false} SmallMultiple(p: int, d: int)
    requires p != 0 && -2 * Abs(p) < p * d < 2 * Abs(p)
    ensures p * d == -p || p * d == 0 || p * d == p
  {
    ProductOrder(2, d, p);
    ProductOrder(d, -2, p);
    assert d != 2 && d != -2;
  }

  /** Main result: every register value comes back exactly when the conversion is rising and
      p divides q and r, or falling and no steeper than one. */
  lemma {:induction false} EveryRawComesBackIff(e: Expr, p: int, q: int, r: int)
    requires IntConversion(e, p, q, r) && ContainsV(e) && p != 0
    ensures Invert(e).Ok?
    ensures (forall raw :: ThereAndBack(e, Invert(e).value, Up, raw) == Some(raw)) <==> AllComeBack(p, q, r)
  {
    hide IntConversion, Invert, ThereAndBack, Slack, Divides;
    BackIff(e, p, q, r, 0);
    var inv := Invert(e).value;
    forall raw ensures ThereAndBack(e, inv, Up, raw) == Some(raw) <==> ComesBack(p, q, r, raw) {
      BackIff(e, p, q, r, raw);
    }
    if (p > 0) == (r > 0) {
      RisingIff(p, q, r);
    } else {
      FallingIff(p, q, r);
    }
  }

  lemma {:induction false} RisingIff(p: int, q: int, r: int)
    requires p != 0 && r != 0 && (p > 0) == (r > 0)
    ensures (forall raw :: ComesBack(p, q, r, raw)) <==> AllComeBack(p, q, r)
    ensures ComesBack(p, q, r, 0) && ComesBack(p, q, r, 1) <==> AllComeBack(p, q, r)
  {
    hide Slack, Divides;
    if ComesBack(p, q, r, 0) && ComesBack(p, q, r, 1) {
      TwoSamplesSettle(p, q, r);
    }
    if AllComeBack(p, q, r) {
      forall raw ensures ComesBack(p, q, r, raw) {
        ExactHasNoSlack(p, q, r, raw);
      }
    }
  }

  lemma {:induction false} FallingIff(p: int, q: int, r: int)
    requires p != 0 && r != 0 && (p > 0) != (r > 0)
    ensures (forall raw :: ComesBack(p, q, r, raw)) <==> AllComeBack(p, q, r)
  {
    hide Slack;
    if AllComeBack(p, q, r) {
      forall raw ensures ComesBack(p, q, r, raw) {
        SlackBounds(p, q, r, raw);
      }
    } else {
      var lost := SteepLosesOne(p, q, r, 0);
      assert !ComesBack(p, q, r, lost);
    }
  }

  /** Main result: for a rising conversion the sample check decides all register values, and
      the samples 0 and 1 alone would. */
  lemma {:induction false} SamplesDecideRising(e: Expr, p: int, q: int, r: int)
    requires IntConversion(e, p, q, r) && ContainsV(e) && p != 0 && (p > 0) == (r > 0)
    ensures Invert(e).Ok?
    ensures var inv := Invert(e).value;
            var all := forall raw :: ThereAndBack(e, inv, Up, raw) == Some(raw);
            (Passes(e, inv, SAMPLES) <==> all) && (Passes(e, inv, [0, 1]) <==> all)
  {
    hide IntConversion, Invert, Slack, ThereAndBack, AllComeBack;
    EveryRawComesBackIff(e, p, q, r);
    var inv := Invert(e).value;
    ConversionDivisor(e, p, q, r);
    RisingIff(p, q, r);
    BackIff(e, p, q, r, 0);
    BackIff(e, p, q, r, 1);
    BackMoves(e, p, q, r, 0);
    BackMoves(e, p, q, r, 1);
    if Passes(e, inv, SAMPLES) {
      SampleHead(e, inv, SAMPLES);
    }
    if Passes(e, inv, [0, 1]) {
      SampleHead(e, inv, [0, 1]);
    }
    if AllComeBack(p, q, r) {
      AllPass(e, inv, SAMPLES);
      AllPass(e, inv, [0, 1]);
    }
  }

  lemma {:induction false} SampleHead(e: Expr, inv: Expr, raws: seq<int>)
    requires |raws| >= 2 && raws[0] == 0 && raws[1] == 1 && Passes(e, inv, raws)
    requires ThereAndBack(e, inv, Up, 0).Some? && ThereAndBack(e, inv, Up, 1).Some?
    ensures ThereAndBack(e, inv, Up, 0) == Some(0) && ThereAndBack(e, inv, Up, 1) == Some(1)
  {
    hide ThereAndBack;
    assert raws[1..][0] == 1;
  }

  lemma {:induction false} AllPass(e: Expr, inv: Expr, raws: seq<int>)
    requires forall raw :: ThereAndBack(e, inv, Up, raw) == Some(raw)
    ensures Passes(e, inv, raws)
    decreases raws
  {
    hide ThereAndBack;
    if raws != [] {
      AllPass(e, inv, raws[1..]);
    }
  }

  // ------------------------------------------------------------------ rounding does not matter

  lemma {:induction false} DivByExact(mode: Rounding, b: int, k: int)
    requires b != 0
    ensures DivBy(mode, b * k, b) == k
  {
    FloorExact(b, k);
    FloorExact(b, -k);
    NegateFactor(b, k, b, k);
    assert -(b * k) == b * (-k);
    if mode.TowardZero? {
      TruncExact(b, k);
    }
  }

  lemma {:induction false} FloorExact(b: int, k: int)
    requires b != 0
    ensures FloorDiv(b * k, b) == k
  {
    if b > 0 {
      DivModUnique(b * k, b, k, 0);
    } else {
      assert -(b * k) == (-b) * k;
      DivModUnique((-b) * k, -b, k, 0);
    }
  }

  lemma {:induction false} TruncExact(b: int, k: int)
    requires b != 0
    ensures TruncDiv(b * k, b) == k
  {
    AbsProduct(b, k);
    DivModUnique(Abs(b) * Abs(k), Abs(b), Abs(k), 0);
  }

  lemma {:induction false} AbsProduct(b: int, k: int)
    ensures Abs(b * k) == Abs(b) * Abs(k)
    ensures b != 0 && k != 0 ==> ((b * k >= 0) == ((b > 0) == (k > 0)))
  {
    ProductOrder(0, b, k);
    ProductOrder(b, 0, k);
    ProductOrder(0, k, b);
    ProductOrder(k, 0, b);
    SignsCross(b, k, b, k);
  }

  /** Main result: once a rising conversion passes the sample check, it makes no difference
      how a generated language rounds its `/`: every register value comes back, and every
      way of rounding derives the same user value. */
  lemma {:induction false} CheckedConversionIgnoresRounding(e: Expr, p: int, q: int, r: int, mode: Rounding, raw: int)
    requires IntConversion(e, p, q, r) && ContainsV(e) && p != 0 && (p > 0) == (r > 0)
    requires Invert(e).Ok? && Passes(e, Invert(e).value, SAMPLES)
    ensures EvalWith(Invert(e).value, mode, raw) == EvalWith(Invert(e).value, Up, raw)
    ensures ThereAndBack(e, Invert(e).value, mode, raw) == Some(raw)
  {
    hide IntConversion, Invert, EvalWith, Passes;
    SamplesDecideRising(e, p, q, r);
    EveryRawComesBackIff(e, p, q, r);
    var k := UserIsExact(e, p, q, r, mode, raw);
    BackIsExact(e, p, q, r, mode, raw, k);
  }

  /** Where p divides q and r every rounding derives the same, exact user value. */
  lemma {:induction false} UserIsExact(e: Expr, p: int, q: int, r: int, mode: Rounding, raw: int) returns (k: int)
    requires IntConversion(e, p, q, r) && ContainsV(e) && p != 0 && Divides(p, q) && Divides(p, r)
    ensures Invert(e).Ok?
    ensures EvalWith(Invert(e).value, mode, raw) == Some(k) && EvalWith(Invert(e).value, Up, raw) == Some(k)
    ensures p * k + q == r * raw
  {
    hide IntConversion, Invert, EvalWith, DivBy, Divides;
    var s := DerivedSide(e, p, q, r);
    k := ExactUserValue(s, p, q, r, raw);
    DivByExact(mode, s.rhs, k);
    DivByExact(Up, s.rhs, k);
  }

  lemma {:induction false} BackIsExact(e: Expr, p: int, q: int, r: int, mode: Rounding, raw: int, k: int)
    requires IntConversion(e, p, q, r) && p * k + q == r * raw
    ensures EvalWith(e, mode, k) == Some(raw)
  {
    hide IntConversion, EvalWith, DivBy;
    ConversionDivisor(e, p, q, r);
    ConversionValue(e, p, q, r, mode, k);
    DivByExact(mode, r, raw);
  }

  lemma {:induction false} ExactUserValue(s: Scaled, p: int, q: int, r: int, raw: int) returns (k: int)
    requires p != 0 && Divides(p, q) && Divides(p, r) && DerivedScale(s, p, q, r)
    ensures raw * r - q == p * k && raw * s.lhs - s.off == s.rhs * k
  {
    ExactHasNoSlack(p, q, r, raw);
    NoSlackIff(p, q, r, raw);
    k :| raw * r - q == Mul(p, k);
    DerivedCross(s, p, q, r, raw);
    ExactCross(p, raw * r - q, raw * s.lhs - s.off, s.rhs, k);
  }

  lemma {:induction false} ExactCross(p: int, x: int, y: int, d: int, k: int)
    requires p != 0 && x == p * k && y * p == x * d
    ensures y == d * k
  {
    assert (p * k) * d == p * (d * k);
    CancelFactor(p, y, d * k);
  }

  /** The rising slope is needed: this falling conversion passes all six samples and still
      turns the register value -1 into -2. */
  lemma {:induction false} FallingExample()
    ensures var e := Falling();
            Normal(e) && IntConversion(e, -1001, 2, 1000) && Invert(e).Ok? &&
            Passes(e, Invert(e).value, SAMPLES) && ThereAndBack(e, Invert(e).value, Up, -1) == Some(-2)
  {
    hide Invert, ThereAndBack, IntConversion, CeilDiv, Normal;
    var e := Falling();
    FallingIsConversion();
    SlackBack(e, -1, 2, -1);
    SlackBack(e, 0, 1, 0);
    SlackBack(e, 1, 0, 0);
    SlackBack(e, 3, -2, 0);
    SlackBack(e, -3, 3, 0);
    SlackBack(e, 100, -99, 0);
    SlackBack(e, -100, 100, 0);
    SamplesPass(e, Invert(e).value, SAMPLES);
  }

  /** (v * -1001 + 2) / 1000 */
  function Falling(): Expr {
    Op(Op(Op(V, Mult, Num(-1001)), Add, Num(2)), Div, Num(1000))
  }

  lemma {:induction false} FallingIsConversion()
    ensures Normal(Falling()) && IntConversion(Falling(), -1001, 2, 1000) && ContainsV(Falling())
  {
    hide Gcd, MakeFraction;
    var product := Op(V, Mult, Num(-1001));
    assert AffineInV(product) == Ok((Num(-1001), Num(0)));
    assert AffineInV(Op(product, Add, Num(2))) == Ok((Num(-1001), Num(2)));
  }

  /** raw goes to the user value u and comes back moved by m. */
  lemma {:induction false} SlackBack(e: Expr, raw: int, u: int, m: int)
    requires e == Falling() && IntConversion(e, -1001, 2, 1000) && ContainsV(e)
    requires -1001 * u <= raw * 1000 - 2 < -1001 * u + 1001
    requires 1000 * m - 1000 < -1001 * u - (raw * 1000 - 2) <= 1000 * m
    ensures Invert(e).Ok? && ThereAndBack(e, Invert(e).value, Up, raw) == Some(raw + m)
  {
    hide Invert, ThereAndBack, IntConversion, Falling, CeilDiv, Slack;
    SlackOf(raw, u, m);
    BackMoves(e, -1001, 2, 1000, raw);
  }

  lemma {:induction false} SlackOf(raw: int, u: int, m: int)
    requires -1001 * u <= raw * 1000 - 2 < -1001 * u + 1001
    requires 1000 * m - 1000 < -1001 * u - (raw * 1000 - 2) <= 1000 * m
    ensures CeilDiv(Slack(-1001, 2, 1000, raw), 1000) == m
  {
    hide CeilDiv;
    CeilUniqueNeg(raw * 1000 - 2, -1001, u);
    var slack := -1001 * u - (raw * 1000 - 2);
    CeilUnique(slack, 1000, m);
    assert Slack(-1001, 2, 1000, raw) == slack;
  }

  lemma {:induction false} SamplesPass(e: Expr, inv: Expr, raws: seq<int>)
    requires forall i :: 0 <= i < |raws| ==> ThereAndBack(e, inv, Up, raws[i]) == Some(raws[i])
    ensures Passes(e, inv, raws)
    decreases raws
  {
    hide ThereAndBack;
    if raws != [] {
      SamplesPass(e, inv, raws[1..]);
    }
  }

  // ------------------------------------------------------------------ conversions given by their read side

  /** For a conversion given by its read side (p * v + q) / r the write side is derived, and a
      register value comes back moved by the slack of the read side: the same as before with p
      and r in each other's place and q negated. */
  lemma {:induction false} ReadBackMoves(e: Expr, p: int, q: int, r: int, raw: int)
    requires IntConversion(e, p, q, r) && ContainsV(e) && p != 0
    ensures r != 0 && Invert(e).Ok?
    ensures ThereAndBack(Invert(e).value, e, Up, raw) == Some(raw + CeilDiv(Slack(r, -q, p, raw), p))
  {
    hide IntConversion, Invert, EvalWith;
    var s := DerivedSide(e, p, q, r);
    ConversionDivisor(e, p, q, r);
    ConversionValue(e, p, q, r, Up, raw);
    var u := CeilDiv(raw * p - (-q), r);
    assert DivBy(Up, p * raw + q, r) == u;
    assert DivBy(Up, u * s.lhs - s.off, s.rhs) == CeilDiv(u * s.lhs - s.off, s.rhs);
    DerivedCeil(s, p, q, r, u);
    assert u * r - q == raw * p + Slack(r, -q, p, raw);
    CeilShift(raw, Slack(r, -q, p, raw), p);
  }

  lemma {:induction false} ReadBackIff(e: Expr, p: int, q: int, r: int, raw: int)
    requires IntConversion(e, p, q, r) && ContainsV(e) && p != 0
    ensures r != 0 && Invert(e).Ok?
    ensures ThereAndBack(Invert(e).value, e, Up, raw) == Some(raw) <==> ComesBack(r, -q, p, raw)
  {
    hide IntConversion, Invert, ThereAndBack, Slack;
    ReadBackMoves(e, p, q, r, raw);
    SlackBounds(r, -q, p, raw);
    CeilZero(Slack(r, -q, p, raw), p);
  }

  /** Main result: read and written back, every register value comes back exactly when the
      conversion is rising and r divides p and q, or falling and at least one step steep. */
  lemma {:induction false} EveryRawReadComesBackIff(e: Expr, p: int, q: int, r: int)
    requires IntConversion(e, p, q, r) && ContainsV(e) && p != 0
    ensures Invert(e).Ok?
    ensures (forall raw :: ThereAndBack(Invert(e).value, e, Up, raw) == Some(raw)) <==>
            if (p > 0) == (r > 0) then Divides(r, q) && Divides(r, p) else Abs(r) <= Abs(p)
  {
    hide IntConversion, Invert, ThereAndBack, Slack, Divides;
    ReadBackIff(e, p, q, r, 0);
    var (wr, q') := (Invert(e).value, -q);
    forall raw ensures ThereAndBack(wr, e, Up, raw) == Some(raw) <==> ComesBack(r, q', p, raw) {
      ReadBackIff(e, p, q, r, raw);
    }
    DividesNegated(r, q);
    if (p > 0) == (r > 0) {
      RisingIff(r, q', p);
    } else {
      FallingIff(r, q', p);
    }
  }

  lemma {:induction false} DividesNegated(d: int, n: int)
    ensures Divides(d, -n) <==> Divides(d, n)
  {
    if Divides(d, n) {
      var k: int :| n == Mul(d, k);
      assert -n == d * (-k);
      DividesWitness(d, -n, -k);
    }
    if Divides(d, -n) {
      var k: int :| -n == Mul(d, k);
      assert n == d * (-k);
      DividesWitness(d, n, -k);
    }
  }

  /** Main result: the samples decide every register value of a rising conversion given by its
      read side too, and once they pass every way of rounding brings every value back. */
  lemma {:induction false} ReadSamplesDecideRising(e: Expr, p: int, q: int, r: int, mode: Rounding)
    requires IntConversion(e, p, q, r) && ContainsV(e) && p != 0 && (p > 0) == (r > 0)
    ensures Invert(e).Ok?
    ensures var wr := Invert(e).value;
            var all := forall raw :: ThereAndBack(wr, e, Up, raw) == Some(raw);
            (Passes(wr, e, SAMPLES) <==> all) && (Passes(wr, e, [0, 1]) <==> all) &&
            (all ==> forall raw :: ThereAndBack(wr, e, mode, raw) == Some(raw))
  {
    hide IntConversion, Invert, Slack, ThereAndBack, Divides;
    EveryRawReadComesBackIff(e, p, q, r);
    var wr := Invert(e).value;
    ReadBackIff(e, p, q, r, 0);
    ReadBackIff(e, p, q, r, 1);
    ReadBackMoves(e, p, q, r, 0);
    ReadBackMoves(e, p, q, r, 1);
    DividesNegated(r, q);
    RisingIff(r, -q, p);
    if Passes(wr, e, SAMPLES) {
      SampleHead(wr, e, SAMPLES);
    }
    if Passes(wr, e, [0, 1]) {
      SampleHead(wr, e, [0, 1]);
    }
    if AllComeBack(r, -q, p) {
      AllPass(wr, e, SAMPLES);
      AllPass(wr, e, [0, 1]);
      forall raw ensures ThereAndBack(wr, e, mode, raw) == Some(raw) {
        ReadIsExact(e, p, q, r, mode, raw);
      }
    }
  }

  /** Where r divides p and q no side rounds. */
  lemma {:induction false} ReadIsExact(e: Expr, p: int, q: int, r: int, mode: Rounding, raw: int)
    requires IntConversion(e, p, q, r) && ContainsV(e) && p != 0 && Divides(r, q) && Divides(r, p)
    ensures Invert(e).Ok? && ThereAndBack(Invert(e).value, e, mode, raw) == Some(raw)
  {
    hide IntConversion, Invert, EvalWith, DivBy, Divides;
    var s := DerivedSide(e, p, q, r);
    ConversionDivisor(e, p, q, r);
    var k := ReadUserValue(s, p, q, r, raw);
    ConversionValue(e, p, q, r, mode, raw);
    DivByExact(mode, r, k);
    DivByExact(mode, s.rhs, raw);
  }

  lemma {:induction false} ReadUserValue(s: Scaled, p: int, q: int, r: int, raw: int) returns (k: int)
    requires p != 0 && r != 0 && Divides(r, q) && Divides(r, p) && DerivedScale(s, p, q, r)
    ensures p * raw + q == r * k && k * s.lhs - s.off == s.rhs * raw
  {
    DividesNegated(r, q);
    ExactHasNoSlack(r, -q, p, raw);
    NoSlackIff(r, -q, p, raw);
    k :| raw * p - (-q) == Mul(r, k);
    DerivedCross(s, p, q, r, k);
    ExactCross(p, k * r - q, k * s.lhs - s.off, s.rhs, raw);
  }

  /** The rising slope is needed here too: read by (v * 1000 - 2) / -1001, all six samples come
      back and the register value -1 is written back as -2. */
  lemma {:induction false} ReadFallingExample()
    ensures var e := ReadFalling();
            Normal(e) && IntConversion(e, 1000, -2, -1001) && Invert(e).Ok? &&
            Passes(Invert(e).value, e, SAMPLES) && ThereAndBack(Invert(e).value, e, Up, -1) == Some(-2)
  {
    hide Invert, ThereAndBack, IntConversion, CeilDiv, Normal;
    var e := ReadFalling();
    ReadFallingIsConversion();
    ReadSlackBack(e, -1, 2, -1);
    ReadSlackBack(e, 0, 1, 0);
    ReadSlackBack(e, 1, 0, 0);
    ReadSlackBack(e, 3, -2, 0);
    ReadSlackBack(e, -3, 3, 0);
    ReadSlackBack(e, 100, -99, 0);
    ReadSlackBack(e, -100, 100, 0);
    SamplesPass(Invert(e).value, e, SAMPLES);
  }

  function ReadFalling(): Expr {
    Op(Op(Op(V, Mult, Num(1000)), Add, Num(-2)), Div, Num(-1001))
  }

  lemma {:induction false} ReadFallingIsConversion()
    ensures Normal(ReadFalling()) && IntConversion(ReadFalling(), 1000, -2, -1001) && ContainsV(ReadFalling())
  {
    hide Gcd, MakeFraction;
    var product := Op(V, Mult, Num(1000));
    assert AffineInV(product) == Ok((Num(1000), Num(0)));
    assert AffineInV(Op(product, Add, Num(-2))) == Ok((Num(1000), Num(-2)));
  }

  lemma {:induction false} ReadSlackBack(e: Expr, raw: int, u: int, m: int)
    requires e == ReadFalling() && IntConversion(e, 1000, -2, -1001) && ContainsV(e)
    requires -1001 * u <= raw * 1000 - 2 < -1001 * u + 1001
    requires 1000 * m - 1000 < -1001 * u - (raw * 1000 - 2) <= 1000 * m
    ensures Invert(e).Ok? && ThereAndBack(Invert(e).value, e, Up, raw) == Some(raw + m)
  {
    hide Invert, ThereAndBack, IntConversion, ReadFalling, CeilDiv, Slack;
    SlackOf(raw, u, m);
    ReadBackMoves(e, 1000, -2, -1001, raw);
  }

  // ------------------------------------------------------------------ how trees are sampled

  /** Main result: the three roundings, by the remainder they leave. */
  lemma {:induction false} RoundingsAre(a: int, b: int)
    requires b != 0
    ensures var q := DivBy(Up, a, b); (b > 0 ==> b * q - b < a <= b * q) && (b < 0 ==> b * q <= a < b * q - b)
    ensures var q := DivBy(Down, a, b); (b > 0 ==> b * q <= a < b * q + b) && (b < 0 ==> b * q + b < a <= b * q)
    ensures DivBy(TowardZero, a, b) == if (a >= 0) == (b > 0) then DivBy(Down, a, b) else DivBy(Up, a, b)
  {
    if a < 0 && b > 0 {
      assert -FloorDiv(-a, b) == -(Abs(a) / Abs(b));
    }
    if a >= 0 && b < 0 {
      NegatedQuotient(a, b);
    }
  }

  lemma {:induction false} NegatedQuotient(a: int, b: int)
    requires a >= 0 && b < 0
    ensures CeilDiv(a, b) == -(Abs(a) / Abs(b))
  {
    assert FloorDiv(-a, b) == a / (-b);
  }

  /** A tree of ints, `v` and arithmetic. */
  predicate Arithmetic(e: Expr)
    decreases e
  {
    match e
    case V => true
    case Num(_) => true
    case Op(l, op, r) =>
      (op.Add? || op.Sub? || op.Mult? || op.Div? || op.Power? || op.Mod?) && Arithmetic(l) && Arithmetic(r)
    case _ => false
  }

  /** Main result: with `/` rounding down the sampler computes what generated Python does, with `/`
      rounding up it computes constants as the resolver does. */
  lemma {:induction false} SamplerIsPython(e: Expr, env: Env)
    requires Arithmetic(e)
    ensures EvalWith(e, Down, env.v) == Eval(e, env)
    ensures !ContainsV(e) ==> AsNumber(EvalWith(e, Up, env.v)) == Resolve(e)
    decreases e
  {
    if e.Op? {
      SamplerIsPython(e.lhs, env);
      SamplerIsPython(e.rhs, env);
      hide EvalWith, Eval, Resolve;
      SampledDown(e, env);
      if !ContainsV(e) {
        SampledUp(e, env.v);
      }
    }
  }

  lemma {:induction false} SampledDown(e: Expr, env: Env)
    requires e.Op? && Arithmetic(e)
    requires EvalWith(e.lhs, Down, env.v) == Eval(e.lhs, env) && EvalWith(e.rhs, Down, env.v) == Eval(e.rhs, env)
    ensures EvalWith(e, Down, env.v) == Eval(e, env)
  {
    hide FloorDiv, FloorMod, CeilDiv, Pow;
  }

  lemma {:induction false} SampledUp(e: Expr, v: int)
    requires e.Op? && Arithmetic(e)
    requires AsNumber(EvalWith(e.lhs, Up, v)) == Resolve(e.lhs) && AsNumber(EvalWith(e.rhs, Up, v)) == Resolve(e.rhs)
    ensures AsNumber(EvalWith(e, Up, v)) == Resolve(e)
  {
    hide FloorDiv, FloorMod, CeilDiv, Pow;
    var (a, b) := (EvalWith(e.lhs, Up, v), EvalWith(e.rhs, Up, v));
    if a.Some? && b.Some? {
      SampledNumbers(e.op, a.value, b.value);
    }
  }

  lemma {:induction false} SampledNumbers(op: BinOp, a: int, b: int)
    requires op.Add? || op.Sub? || op.Mult? || op.Div? || op.Power? || op.Mod?
    ensures AsNumber(IntOp(Up, op, a, b)) == ResolveOp(Num(a), op, Num(b))
  {
    hide FloorDiv, FloorMod, CeilDiv, Pow;
  }

  /** Comparisons, logic operators and `!` cannot be sampled; a call takes the sampled value of an
      argument with `v` in it. */
  lemma {:induction false} SamplerRaises(l: Expr, op: BinOp, r: Expr, f: Func, mode: Rounding, v: int)
    ensures op !in {Add, Sub, Mult, Div, Power, Mod} ==> EvalWith(Op(l, op, r), mode, v) == None
    ensures EvalWith(Not(l), mode, v) == None
    ensures ContainsV(l) && EvalWith(l, mode, v).Some? ==>
              EvalWith(Call(f, [l]), mode, v) == OnlyInt(ResolveCall(f, [Num(EvalWith(l, mode, v).value)]))
  {
    hide ResolveCall, ContainsV, IntOp;
    if ContainsV(l) && EvalWith(l, mode, v).Some? {
      OneBound(l, mode, v);
    }
    NotSampled(op);
  }

  lemma {:induction false} NotSampled(op: BinOp)
    ensures op !in {Add, Sub, Mult, Div, Power, Mod} ==>
              forall mode, a, b :: IntOp(mode, op, a, b) == None
  {
  }

  lemma {:induction false} OneBound(x: Expr, mode: Rounding, v: int)
    requires ContainsV(x) && EvalWith(x, mode, v).Some?
    ensures BindAll([x], mode, v) == Some([Num(EvalWith(x, mode, v).value)])
  {
    hide ContainsV;
    var n := Num(EvalWith(x, mode, v).value);
    assert [x][1..] == [] && BindAll([], mode, v) == Some([]);
    assert [n] + [] == [n];
  }

  /** Arguments are bound one by one, in order. */
  lemma {:induction false} BindAllAt(es: seq<Expr>, mode: Rounding, v: int, i: nat)
    requires BindAll(es, mode, v).Some?
    ensures |BindAll(es, mode, v).value| == |es|
    ensures i < |es| ==> Some(BindAll(es, mode, v).value[i]) ==
                         if ContainsV(es[i]) then ToNum(EvalWith(es[i], mode, v)) else Resolve(es[i])
    decreases es
  {
    hide EvalWith, Resolve, ContainsV;
    if es != [] {
      BindAllAt(es[1..], mode, v, if i > 0 then i - 1 else 0);
    }
  }
}
