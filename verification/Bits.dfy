/** Shifts, masks and bitwise or of unsigned integers, by powers of two. */
module Bits {
  import opened Division

  function Pow2(n: nat): (p: nat)
    ensures p > 0
  {
    if n == 0 then 1 else 2 * Pow2(n - 1)
  }

  function Shl(v: nat, k: nat): nat {
    v * Pow2(k)
  }

  function Shr(v: nat, k: nat): nat {
    if k == 0 then v else Shr(v / 2, k - 1)
  }

  predicate Bit(v: nat, i: nat) {
    Shr(v, i) % 2 == 1
  }

  function Or(a: nat, b: nat): nat
    decreases a + b
  {
    if a + b == 0 then 0 else (if a % 2 == 1 || b % 2 == 1 then 1 else 0) + 2 * Or(a / 2, b / 2)
  }

  function And(a: nat, b: nat): nat {
    if a == 0 then 0 else (if a % 2 == 1 && b % 2 == 1 then 1 else 0) + 2 * And(a / 2, b / 2)
  }

  /** int.bit_length() of a non-negative int. */
  function BitLength(x: nat): nat {
    if x == 0 then 0 else 1 + BitLength(x / 2)
  }

  /** (v >> k) & ((1 << w) - 1) */
  function Field(v: nat, k: nat, w: nat): nat {
    Shr(v, k) % Pow2(w)
  }

  // ------------------------------------------------------------------ products and quotients

  lemma {:induction false} Distribute(x: nat, y: nat, z: nat)
    ensures (x + y) * z == x * z + y * z
  {
  }

  lemma {:induction false} Associate(x: nat, y: nat, z: nat)
    ensures x * y * z == x * (y * z)
  {
  }

  lemma {:induction false} MulMono(x: nat, y: nat, z: nat)
    requires x <= y
    ensures x * z <= y * z
  {
  }

  lemma {:induction false} DivAddMul(x: nat, q: nat, d: nat)
    requires d > 0
    ensures (x + q * d) / d == x / d + q && (x + q * d) % d == x % d
  {
    Distribute(x / d, q, d);
    DivModUnique(x + q * d, d, x / d + q, x % d);
  }

  lemma {:induction false} Pow2Add(a: nat, b: nat)
    ensures Pow2(a + b) == Pow2(a) * Pow2(b)
    decreases a
  {
    if a > 0 {
      Pow2Add(a - 1, b);
      assert Pow2(a + b) == 2 * Pow2(a - 1 + b);
      Associate(2, Pow2(a - 1), Pow2(b));
    }
  }

  lemma {:induction false} Pow2Mono(a: nat, b: nat)
    requires a <= b
    ensures Pow2(a) <= Pow2(b)
    decreases b
  {
    if a < b {
      Pow2Mono(a, b - 1);
    }
  }

  // ------------------------------------------------------------------ or, masks and fields

  lemma {:induction false} OrZero(b: nat)
    ensures Or(0, b) == b
    decreases b
  {
    if b > 0 {
      OrZero(b / 2);
    }
  }

  lemma {:induction false} HalfShl(x: nat, k: nat)
    requires k > 0
    ensures Shl(x, k) % 2 == 0 && Shl(x, k) / 2 == Shl(x, k - 1)
  {
    assert Shl(x, k) == x * (2 * Pow2(k - 1)) == 2 * (x * Pow2(k - 1));
  }

  /** Or-ing in a value above all bits of d adds it. */
  lemma {:induction false} OrAbove(d: nat, x: nat, k: nat)
    requires d < Pow2(k)
    ensures Or(d, Shl(x, k)) == d + Shl(x, k)
    decreases k
  {
    if k == 0 {
      OrZero(x);
    } else {
      HalfShl(x, k);
      OrAbove(d / 2, x, k - 1);
      OrHalves(d, Shl(x, k));
    }
  }

  lemma {:induction false} OrHalves(d: nat, y: nat)
    requires y % 2 == 0 && Or(d / 2, y / 2) == d / 2 + y / 2
    ensures Or(d, y) == d + y
  {
  }

  /** The bits of ((1 << l) - 1) << s are those from s up to s + l. */
  lemma {:induction false} MaskBits(l: nat, s: nat, i: nat)
    ensures Bit(Shl(Pow2(l) - 1, s), i) <==> s <= i < s + l
    decreases s, l
  {
    var m := Shl(Pow2(l) - 1, s);
    if s > 0 {
      HalfShl(Pow2(l) - 1, s);
      if i > 0 {
        MaskBits(l, s - 1, i - 1);
      }
    } else if l > 0 {
      assert m == 2 * (Pow2(l - 1) - 1) + 1;
      assert Shl(Pow2(l - 1) - 1, 0) == Pow2(l - 1) - 1;
      if i > 0 {
        MaskBits(l - 1, 0, i - 1);
      }
    } else {
      assert m == 0;
      ZeroBits(i);
    }
  }

  lemma {:induction false} ZeroBits(i: nat)
    ensures !Bit(0, i)
    decreases i
  {
    if i > 0 {
      ZeroBits(i - 1);
    }
  }

  /** A right shift is the quotient by a power of two. */
  lemma {:induction false} ShrIs(v: nat, k: nat, q: nat, r: nat)
    requires v == Shl(q, k) + r && r < Pow2(k)
    ensures Shr(v, k) == q
    decreases k
  {
    if k > 0 {
      HalfShl(q, k);
      ShrIs(v / 2, k - 1, q, r / 2);
    }
  }

  lemma {:induction false} ShrSplit(v: nat, k: nat) returns (r: nat)
    ensures v == Shl(Shr(v, k), k) + r && r < Pow2(k)
    decreases k
  {
    r := 0;
    if k > 0 {
      var half := ShrSplit(v / 2, k - 1);
      HalfShl(Shr(v, k), k);
      r := 2 * half + v % 2;
    }
  }

  /** Putting an item that fits w bits above the first k fields of w bits leaves those as they
      are and makes the item field k. */
  lemma {:induction false} FieldAbove(d: nat, k: nat, x: nat, w: nat, i: nat)
    requires d < Pow2(k * w) && x < Pow2(w) && i <= k
    ensures 0 <= i * w
    ensures Field(d + Shl(x, k * w), i * w, w) == if i == k then x else Field(d, i * w, w)
  {
    hide Pow2;
    if i == k {
      ShrIs(d + Shl(x, k * w), k * w, x, d);
      DivModUnique(x, Pow2(w), 0, x);
    } else {
      FieldBelow(d, k, x, w, i, k - 1 - i);
    }
  }

  lemma {:induction false} ShlAdd(x: nat, a: nat, b: nat)
    ensures Shl(x, a + b) == Shl(Shl(x, a), b)
  {
    Pow2Add(a, b);
    Associate(x, Pow2(a), Pow2(b));
  }

  lemma {:induction false} FieldBelow(d: nat, k: nat, x: nat, w: nat, i: nat, rest: nat)
    requires k == rest + 1 + i
    ensures 0 <= i * w && 0 <= k * w
    ensures Field(d + Shl(x, k * w), i * w, w) == Field(d, i * w, w)
  {
    hide Pow2, Shl, Shr;
    Distribute(rest + 1, i, w);
    Distribute(rest, 1, w);
    var y := Shl(x, rest * w);
    ShlAdd(x, rest * w, w);
    ShlAdd(x, rest * w + w, i * w);
    ShrOfSum(d, Shl(y, w), i * w);
    ModOfSum(Shr(d, i * w), y, w);
  }

  lemma {:induction false} ShrOfSum(d: nat, y: nat, k: nat)
    ensures Shr(d + Shl(y, k), k) == Shr(d, k) + y
  {
    var r := ShrSplit(d, k);
    Distribute(Shr(d, k), y, Pow2(k));
    ShrIs(d + Shl(y, k), k, Shr(d, k) + y, r);
  }

  lemma {:induction false} ModOfSum(d: nat, y: nat, w: nat)
    ensures (d + Shl(y, w)) % Pow2(w) == d % Pow2(w)
  {
    DivAddMul(d, y, Pow2(w));
  }

  lemma {:induction false} StaysBelow(d: nat, k: nat, x: nat, w: nat)
    requires d < Pow2(k * w) && x < Pow2(w)
    ensures 0 <= (k + 1) * w && d + Shl(x, k * w) < Pow2((k + 1) * w)
  {
    hide Pow2;
    Distribute(k, 1, w);
    Pow2Add(w, k * w);
    MulMono(x + 1, Pow2(w), Pow2(k * w));
    Distribute(x, 1, Pow2(k * w));
  }
}
