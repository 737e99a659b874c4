/** The widths of values in the software view of a register map, and reading a bit field as a
    two's complement number - in their Python and in their C++ form. */
module Widths {
  import opened Division
  import opened Bits

  // ------------------------------------------------------------------ Python

  function CeilLog2(x: nat): nat {
    if x > 0 then BitLength(x - 1) else 0
  }

  function CeilDiv(n: nat, d: nat): nat
    requires d > 0
  {
    (n + d - 1) / d
  }

  function CeilMultiple(n: nat, d: nat): nat
    requires d > 0
  {
    CeilDiv(n, d) * d
  }

  function PromoteToSwW(w: nat): nat {
    Pow2(CeilLog2(CeilMultiple(w, 8)))
  }

  function CastUintToSint(v: nat, width: nat): int
    requires width > 0
  {
    if v >= Pow2(width - 1) then v - Pow2(width - 1) * 2 else v
  }

  /** The unsigned reading of v.to_bytes(signed=True) with `bits` bits in all. */
  function TwosComplement(v: int, bits: nat): nat
    requires 0 <= v + Pow2(bits)
  {
    if v < 0 then v + Pow2(bits) else v
  }

  // ------------------------------------------------------------------ C++

  const WORD64: nat := 0x1_0000_0000_0000_0000
  const WIDTH_MAX: nat := 0x4000_0000

  /** Unsigned 32-bit ceil_log2, with its shifting loop. */
  method CeilLog2Cpp(x: nat) returns (r: nat)
    ensures r == CeilLog2(x)
  {
    if x == 0 {
      return 0;
    }
    var msb := 0;
    var tmp := x;
    while tmp / 2 != 0
      invariant tmp > 0 && msb + BitLength(tmp) == BitLength(x)
    {
      tmp := tmp / 2;
      msb := msb + 1;
    }
    Logarithm(x);
    return if And(x, x - 1) != 0 then msb + 1 else msb;
  }

  method PromoteToSwWCpp(w: nat) returns (r: nat)
    requires w <= WIDTH_MAX
    ensures r == PromoteCpp(w) && r <= WIDTH_MAX
  {
    Pow2Of30();
    var n := CeilLog2Cpp(w);
    if w > 0 {
      Log2IsLeast(w, 30);
      Pow2Mono(n, 30);
    }
    var p := Shl(1, n);
    r := if p < 8 then 8 else p;
  }

  function PromoteCpp(w: nat): nat {
    if Pow2(CeilLog2(w)) < 8 then 8 else Pow2(CeilLog2(w))
  }

  function MaskToWidth(v: nat, width: nat): nat {
    if width >= 64 then v else v % Pow2(width)
  }

  /** (v & bit) for a single bit. */
  function BitAt(v: nat, i: nat): nat {
    if Bit(v, i) then Pow2(i) else 0
  }

  /** A 64-bit unsigned value as a signed one. */
  function AsInt64(v: int): int {
    var m := v % WORD64;
    if m >= WORD64 / 2 then m - WORD64 else m
  }

  function SintSignExtend(v: nat, width: nat): int {
    if width == 0 || width >= 64 then AsInt64(v)
    else AsInt64(MaskToWidth(v, width) % Pow2(width - 1) - BitAt(v, width - 1))
  }

  // ------------------------------------------------------------------ logarithms

  lemma {:induction false} BitLengthIsLeast(x: nat, k: nat)
    ensures BitLength(x) <= k <==> x < Pow2(k)
    decreases k
  {
    if k > 0 {
      BitLengthIsLeast(x / 2, k - 1);
    }
  }

  lemma {:induction false} Log2IsLeast(x: nat, k: nat)
    requires x > 0
    ensures CeilLog2(x) <= k <==> x <= Pow2(k)
  {
    BitLengthIsLeast(x - 1, k);
  }

  lemma {:induction false} AndSelf(x: nat)
    ensures And(x, x) == x
    decreases x
  {
    if x > 0 {
      AndSelf(x / 2);
    }
  }

  lemma {:induction false} SameLength(x: nat)
    requires x > 0
    ensures x % 2 == 1 ==> BitLength(x - 1) == if x == 1 then 0 else BitLength(x)
    ensures x % 2 == 0 ==> BitLength(x - 1) == 1 + BitLength(x / 2 - 1)
  {
    if x % 2 == 1 {
      assert (x - 1) / 2 == x / 2;
    } else {
      assert (x - 1) / 2 == x / 2 - 1;
    }
  }

  /** The ceiling is one more than the position of the top bit, unless that is the only bit. */
  lemma {:induction false} Logarithm(x: nat)
    requires x > 0
    ensures CeilLog2(x) == if And(x, x - 1) != 0 then BitLength(x) else BitLength(x) - 1
    decreases x
  {
    SameLength(x);
    if x % 2 == 1 {
      assert (x - 1) / 2 == x / 2;
      AndSelf(x / 2);
    } else {
      assert (x - 1) / 2 == x / 2 - 1;
      Logarithm(x / 2);
    }
  }

  lemma {:induction false} Pow2Of30()
    ensures Pow2(3) == 8 && Pow2(30) == WIDTH_MAX && Pow2(64) == WORD64 && Pow2(63) == WORD64 / 2
  {
    SmallPowers();
    hide Pow2;
    Pow2Add(8, 8);
    Pow2Add(8, 6);
    Pow2Add(16, 14);
    Pow2Add(16, 16);
    Pow2Add(32, 32);
    Pow2Add(32, 30);
    Pow2Add(62, 1);
  }

  lemma {:induction false} SmallPowers()
    ensures Pow2(1) == 2 && Pow2(3) == 8 && Pow2(6) == 64 && Pow2(8) == 256
  {
    assert Pow2(3) == 8;
    assert Pow2(6) == 8 * Pow2(3);
    assert Pow2(8) == 4 * Pow2(6);
  }

  // ------------------------------------------------------------------ promoted widths

  lemma {:induction false} CeilMultipleIs(n: nat, d: nat)
    requires d > 0
    ensures n <= CeilMultiple(n, d) < n + d && CeilMultiple(n, d) % d == 0
  {
    var x := n + d - 1;
    assert x == (x / d) * d + x % d;
    DivModUnique(CeilMultiple(n, d), d, x / d, 0);
  }

  /** The least multiple of d that is not below n. */
  lemma {:induction false} CeilMultipleIsLeast(n: nat, d: nat, m: nat)
    requires d > 0 && m % d == 0
    ensures CeilMultiple(n, d) <= m <==> n <= m
  {
    CeilMultipleIs(n, d);
    if n <= m && m < CeilMultiple(n, d) {
      var (p, q) := (m / d, CeilDiv(n, d));
      assert m == p * d;
      if q <= p {
        MulMono(q, p, d);
      } else {
        MulMono(p + 1, q, d);
        Distribute(p, 1, d);
      }
    }
  }

  /** A power of two divides every larger one. */
  lemma {:induction false} Pow2Divides(a: nat, b: nat)
    requires a <= b
    ensures Pow2(b) % Pow2(a) == 0
  {
    Pow2Add(b - a, a);
    DivModUnique(Pow2(b), Pow2(a), Pow2(b - a), 0);
  }

  /** Main result: the promoted width is the least power of two that is at least 8 and w. */
  lemma {:induction false} PromoteIsLeast(w: nat, k: nat)
    requires w > 0
    ensures PromoteToSwW(w) <= Pow2(k) <==> 8 <= Pow2(k) && w <= Pow2(k)
  {
    hide CeilMultiple, CeilLog2;
    Pow2Of30();
    var m := CeilMultiple(w, 8);
    CeilMultipleIs(w, 8);
    Log2IsLeast(m, k);
    if k >= 3 {
      Pow2Divides(3, k);
      CeilMultipleIsLeast(w, 8, Pow2(k));
      Pow2Mono(3, k);
    } else {
      Pow2Mono(k, 2);
      assert Pow2(2) == 4;
    }
    Pow2Order(CeilLog2(m), k);
  }

  lemma {:induction false} Pow2Order(a: nat, b: nat)
    ensures Pow2(a) <= Pow2(b) <==> a <= b
  {
    if a <= b {
      Pow2Mono(a, b);
    } else {
      Pow2Mono(b + 1, a);
    }
  }

  /** Main result: up to the largest width C++ can promote, its width is the Python one exactly for
      the widths a value can have. */
  lemma {:induction false} PromotesAgreeIff(w: nat)
    requires w <= WIDTH_MAX
    ensures PromoteCpp(w) == PromoteToSwW(w) <==> w > 0
  {
    hide CeilMultiple, CeilLog2;
    Pow2Of30();
    if w == 0 {
      assert CeilLog2(0) == 0 && CeilMultiple(0, 8) == 0 by { ZeroWidth(); }
    } else {
      var n := CeilLog2(CeilMultiple(w, 8));
      var k := CeilLog2(w);
      PromoteIsLeast(w, n);
      Log2IsLeast(w, n);
      Log2IsLeast(w, k);
      Pow2Order(k, n);
      PromoteIsLeast(w, if k < 3 then 3 else k);
      Pow2Order(k, 3);
    }
  }

  lemma {:induction false} ZeroWidth()
    ensures CeilLog2(0) == 0 && CeilMultiple(0, 8) == 0
  {
  }

  // ------------------------------------------------------------------ signed values

  predicate FitsSigned(v: int, width: nat) {
    width > 0 && 0 <= v + Pow2(width - 1) && v < Pow2(width - 1)
  }

  /** Main result: masking and sign-extending a value stored in two's complement, in any
      storage at least as wide, gives the value back. */
  lemma {:induction false} SignedReadsBack(v: int, width: nat, bits: nat)
    requires FitsSigned(v, width) && width <= bits
    ensures 0 <= v + Pow2(bits) && TwosComplement(v, bits) < Pow2(bits)
    ensures CastUintToSint(TwosComplement(v, bits) % Pow2(width), width) == v
  {
    Pow2Mono(width, bits);
    Pow2Add(bits - width, width);
    var p := Pow2(width);
    assert p == 2 * Pow2(width - 1);
    if v < 0 {
      Distribute(Pow2(bits - width) - 1, 1, p);
      DivModUnique(v + Pow2(bits), p, Pow2(bits - width) - 1, v + p);
    } else {
      DivModUnique(v, p, 0, v);
    }
  }

  /** Main result: the C++ sign extension of a 64-bit value is the Python one of its low bits. */
  lemma {:induction false} SignExtendsAgree(v: nat, width: nat)
    requires v < WORD64 && 1 <= width <= 64
    ensures SintSignExtend(v, width) == CastUintToSint(v % Pow2(width), width)
  {
    hide Bit, Pow2, AsInt64;
    Pow2Of30();
    Pow2Mono(width - 1, 63);
    var half := Pow2(width - 1);
    if width == 64 {
      DivModUnique(v, WORD64, 0, v);
      SignedWord(v);
    } else {
      TopBit(v, width);
      Small64(v % Pow2(width) % half - BitAt(v, width - 1));
    }
  }

  lemma {:induction false} SignedWord(v: nat)
    requires v < WORD64
    ensures AsInt64(v) == if v >= WORD64 / 2 then v - WORD64 / 2 * 2 else v
  {
  }

  lemma {:induction false} Small64(x: int)
    requires -(WORD64 / 2) <= x < WORD64 / 2
    ensures AsInt64(x) == x
  {
  }

  lemma {:induction false} TopBit(v: nat, width: nat)
    requires width > 0
    ensures v % Pow2(width) == v % Pow2(width) % Pow2(width - 1) + BitAt(v, width - 1)
    ensures v % Pow2(width) % Pow2(width - 1) < Pow2(width - 1)
    ensures Bit(v, width - 1) <==> v % Pow2(width) >= Pow2(width - 1)
  {
    var half := Pow2(width - 1);
    var r := ShrSplit(v, width - 1);
    TopDigit(v, half, Shr(v, width - 1), r);
  }

  lemma {:induction false} TopDigit(v: nat, half: nat, q: nat, r: nat)
    requires v == q * half + r && r < half
    ensures v % (2 * half) == (if q % 2 == 1 then half else 0) + r
    ensures v % (2 * half) % half == r
  {
    var rest := (if q % 2 == 1 then half else 0) + r;
    Associate(q / 2, 2, half);
    Distribute(q / 2 * 2, q % 2, half);
    DivModUnique(v, 2 * half, q / 2, rest);
    DivModUnique(rest, half, q % 2, r);
  }
}
