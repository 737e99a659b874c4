/** Single flags of a flags register: bit writes through one byte or through the whole integer
    set the same flags and leave the others. */
module Flags {
  import opened Division
  import opened Wrappers
  import opened Bytes
  import opened Bits
  import opened Widths
  import opened RegCodec
  import opened RegModule
  import opened Registers

  // ------------------------------------------------------------------ bitwise operators, bit by bit

  /** a & ~b */
  function AndNot(a: nat, b: nat): nat {
    if a == 0 then 0 else (if a % 2 == 1 && b % 2 == 0 then 1 else 0) + 2 * AndNot(a / 2, b / 2)
  }

  function SetBits(v: nat, mask: nat, vals: nat): nat {
    Or(AndNot(v, mask), And(mask, vals))
  }

  function SetBit(v: nat, pos: nat, val: bool): nat {
    SetBits(v, Shl(1, pos), Shl(if val then 1 else 0, pos))
  }

  lemma {:induction false} OrBits(a: nat, b: nat, i: nat)
    ensures Bit(Or(a, b), i) <==> Bit(a, i) || Bit(b, i)
    decreases i
  {
    if a + b == 0 {
      ZeroBits(i);
    } else if i > 0 {
      OrBits(a / 2, b / 2, i - 1);
    }
  }

  lemma {:induction false} AndBits(a: nat, b: nat, i: nat)
    ensures Bit(And(a, b), i) <==> Bit(a, i) && Bit(b, i)
    decreases i
  {
    if a == 0 {
      ZeroBits(i);
    } else if i > 0 {
      AndBits(a / 2, b / 2, i - 1);
    }
  }

  lemma {:induction false} AndNotBits(a: nat, b: nat, i: nat)
    ensures Bit(AndNot(a, b), i) <==> Bit(a, i) && !Bit(b, i)
    decreases i
  {
    if a == 0 {
      ZeroBits(i);
    } else if i > 0 {
      AndNotBits(a / 2, b / 2, i - 1);
    }
  }

  /** Where the mask is set the new bits are taken, elsewhere the old ones. */
  lemma {:induction false} SetBitsBits(v: nat, mask: nat, vals: nat, i: nat)
    ensures Bit(SetBits(v, mask, vals), i) <==> if Bit(mask, i) then Bit(vals, i) else Bit(v, i)
  {
    OrBits(AndNot(v, mask), And(mask, vals), i);
    AndNotBits(v, mask, i);
    AndBits(mask, vals, i);
  }

  /** A number is its bits. */
  lemma {:induction false} SameBits(a: nat, b: nat)
    requires forall i: nat :: Bit(a, i) == Bit(b, i)
    ensures a == b
    decreases a
  {
    assert Bit(a, 0) == (a % 2 == 1) && Bit(b, 0) == (b % 2 == 1);
    if a == 0 {
      NoBitsIsZero(b);
    } else if b == 0 {
      NoBitsIsZero(a);
    } else {
      forall i: nat ensures Bit(a / 2, i) == Bit(b / 2, i) {
        assert Bit(a, i + 1) == Bit(b, i + 1);
      }
      SameBits(a / 2, b / 2);
    }
  }

  lemma {:induction false} NoBitsIsZero(b: nat)
    requires forall i: nat :: Bit(b, i) == Bit(0, i)
    ensures b == 0
    decreases b
  {
    assert Bit(b, 0) == Bit(0, 0);
    if b > 0 {
      forall i: nat ensures Bit(b / 2, i) == Bit(0, i) {
        assert Bit(b, i + 1) == Bit(0, i + 1);
      }
      NoBitsIsZero(b / 2);
    }
  }

  lemma {:induction false} BitsAbove(v: nat, k: nat, i: nat)
    requires v < Pow2(k) && i >= k
    ensures !Bit(v, i)
    decreases i
  {
    if v == 0 {
      ZeroBits(i);
    } else {
      BitsAbove(v / 2, k - 1, i - 1);
    }
  }

  lemma {:induction false} BelowIff(v: nat, k: nat)
    ensures v < Pow2(k) <==> forall i: nat :: i >= k ==> !Bit(v, i)
    decreases k
  {
    if v < Pow2(k) {
      forall i: nat | i >= k ensures !Bit(v, i) {
        BitsAbove(v, k, i);
      }
    }
    if forall i: nat :: i >= k ==> !Bit(v, i) {
      if k == 0 {
        forall i: nat ensures Bit(v, i) == Bit(0, i) {
          ZeroBits(i);
        }
        NoBitsIsZero(v);
      } else {
        forall i: nat | i >= k - 1 ensures !Bit(v / 2, i) {
          assert !Bit(v, i + 1);
        }
        BelowIff(v / 2, k - 1);
      }
    }
  }

  lemma {:induction false} BitsOfSum(x: nat, y: nat, k: nat, i: nat)
    requires x < Pow2(k)
    ensures Bit(x + Shl(y, k), i) <==> if i < k then Bit(x, i) else Bit(y, i - k)
    decreases k
  {
    if k == 0 {
      assert x == 0 && Shl(y, 0) == y;
    } else {
      HalfSum(x, y, k);
      hide Shl;
      if i > 0 {
        BitsOfSum(x / 2, y, k - 1, i - 1);
      }
    }
  }

  lemma {:induction false} HalfSum(x: nat, y: nat, k: nat)
    requires k > 0
    ensures (x + Shl(y, k)) / 2 == x / 2 + Shl(y, k - 1) && (x + Shl(y, k)) % 2 == x % 2
  {
    HalfShl(y, k);
    hide Shl;
  }

  lemma {:induction false} ModBits(v: nat, k: nat, i: nat)
    ensures Bit(v % Pow2(k), i) <==> i < k && Bit(v, i)
  {
    var r := ShrSplit(v, k);
    DivModUnique(v, Pow2(k), Shr(v, k), r);
    BitsOfSum(r, Shr(v, k), k, i);
    if i >= k {
      BitsAbove(r, k, i);
    }
  }

  /** Main result: bit i of a little-endian integer is bit i % 8 of its byte i / 8. */
  lemma {:induction false} ByteBits(b: seq<Byte>, i: nat)
    ensures Bit(FromLE(b), i) <==> i < 8 * |b| && Bit(b[i / 8], i % 8)
    decreases |b|
  {
    if b == [] {
      ZeroBits(i);
    } else {
      SmallPowers();
      assert FromLE(b) == b[0] + Shl(FromLE(b[1..]), 8);
      BitsOfSum(b[0], FromLE(b[1..]), 8, i);
      if i >= 8 {
        ByteBits(b[1..], i - 8);
      }
    }
  }

  // ------------------------------------------------------------------ flags of a register

  /** Setting one bit in the byte that holds it is setting it in the integer. */
  lemma {:induction false} ByteSetIsIntegerSet(b: seq<Byte>, bit: nat, val: bool)
    requires bit < 8 * |b|
    ensures SetBit(b[bit / 8], bit % 8, val) < 256
    ensures FromLE(b[bit / 8 := SetBit(b[bit / 8], bit % 8, val)]) == SetBit(FromLE(b), bit, val)
  {
    hide SetBit, Bit, FromLE;
    var (k, pos) := (bit / 8, bit % 8);
    ByteStays(b[k], pos, val);
    var b' := b[k := SetBit(b[k], pos, val)];
    forall i: nat ensures Bit(FromLE(b'), i) == Bit(SetBit(FromLE(b), bit, val), i) {
      ByteBits(b', i);
      ByteBits(b, i);
      SetBitBits(FromLE(b), bit, val, i);
      SetBitBits(b[k], pos, val, i % 8);
    }
    SameBits(FromLE(b'), SetBit(FromLE(b), bit, val));
  }

  lemma {:induction false} SetBitBits(v: nat, pos: nat, val: bool, i: nat)
    ensures Bit(SetBit(v, pos, val), i) <==> if i == pos then val else Bit(v, i)
  {
    hide SetBits, Bit, Shl;
    SetBitsBits(v, Shl(1, pos), Shl(if val then 1 else 0, pos), i);
    OneBit(pos, i);
    if !val {
      NoBit(pos, i);
    }
  }

  lemma {:induction false} OneBit(pos: nat, i: nat)
    ensures Bit(Shl(1, pos), i) <==> i == pos
  {
    assert Pow2(1) == 2;
    MaskBits(1, pos, i);
  }

  lemma {:induction false} NoBit(pos: nat, i: nat)
    ensures !Bit(Shl(0, pos), i)
  {
    ZeroBits(i);
  }

  lemma {:induction false} ByteStays(v: nat, pos: nat, val: bool)
    requires v < 256 && pos < 8
    ensures SetBit(v, pos, val) < 256
  {
    hide SetBit, Bit;
    SmallPowers();
    forall i: nat | i >= 8 ensures !Bit(SetBit(v, pos, val), i) {
      SetBitBits(v, pos, val, i);
      BitsAbove(v, 8, i);
    }
    BelowIff(SetBit(v, pos, val), 8);
  }

  /** The flag values or-ed together at their bits. */
  function ListBits(values: seq<bool>, bit: nat): nat {
    if values == [] then 0
    else Or(ListBits(values[..|values| - 1], bit), Shl(if values[|values| - 1] then 1 else 0, bit + |values| - 1))
  }

  lemma {:induction false} ListBitsBits(values: seq<bool>, bit: nat, i: nat)
    ensures Bit(ListBits(values, bit), i) <==> bit <= i < bit + |values| && values[i - bit]
    decreases |values|
  {
    hide Bit, Or, Shl;
    if values == [] {
      ZeroBits(i);
    } else {
      var n := |values| - 1;
      ListBitsBits(values[..n], bit, i);
      OrBits(ListBits(values[..n], bit), Shl(if values[n] then 1 else 0, bit + n), i);
      OneBit(bit + n, i);
      NoBit(bit + n, i);
    }
  }

  lemma {:induction false} ListBitsStep(values: seq<bool>, ii: nat, bit: nat)
    requires ii <= |values|
    ensures ListBits(values[..0], bit) == 0
    ensures ii < |values| ==>
              ListBits(values[..ii + 1], bit) ==
                Or(ListBits(values[..ii], bit), Shl(if values[ii] then 1 else 0, bit + ii))
  {
    hide Or, Shl;
    if ii < |values| {
      assert values[..ii + 1][..ii] == values[..ii];
    }
  }

  /** Flag i after a list write. */
  predicate NewFlag(values: seq<bool>, bit: nat, was: nat, i: nat) {
    if bit <= i < bit + |values| then values[i - bit] else Bit(was, i)
  }

  /** The integer a list write stores: the new flags, inside the register width. */
  lemma {:induction false} NewFlags(values: seq<bool>, bit: nat, was: nat, width: nat)
    requires bit + |values| <= width
    ensures var now := SetBits(was % Pow2(width), Shl(Pow2(|values|) - 1, bit), ListBits(values, bit));
            now < Pow2(width) && (forall i: nat :: Bit(now, i) <==> i < width && NewFlag(values, bit, was, i)) &&
            (now == 0 <==> forall i :: 0 <= i < width ==> !NewFlag(values, bit, was, i))
  {
    hide Bit, SetBits, ListBits, Pow2, Shl;
    var (low, mask) := (was % Pow2(width), Shl(Pow2(|values|) - 1, bit));
    var now := SetBits(low, mask, ListBits(values, bit));
    forall i: nat
      ensures Bit(now, i) <==> i < width && NewFlag(values, bit, was, i)
    {
      SetBitsBits(low, mask, ListBits(values, bit), i);
      MaskBits(|values|, bit, i);
      ListBitsBits(values, bit, i);
      ModBits(was, width, i);
    }
    BelowIff(now, width);
    if now == 0 {
      forall i | 0 <= i < width ensures !NewFlag(values, bit, was, i) {
        ZeroBits(i);
        assert !Bit(now, i);
      }
    }
    if forall i :: 0 <= i < width ==> !NewFlag(values, bit, was, i) {
      forall i: nat ensures Bit(now, i) == Bit(0, i) {
        ZeroBits(i);
      }
      SameBits(now, 0);
    }
  }

  /** Flags inside the vector are the new ones, the others the old ones. */
  lemma {:induction false} FlagsSplit(now: nat, width: nat, values: seq<bool>, bit: nat, was: nat)
    requires bit + |values| <= width
    requires forall i: nat :: Bit(now, i) == (i < width && NewFlag(values, bit, was, i))
    ensures forall k :: 0 <= k < |values| ==> Bit(now, bit + k) == values[k]
    ensures forall i: nat :: !(bit <= i < bit + |values|) ==> Bit(now, i) == (i < width && Bit(was, i))
  {
    hide Bit;
  }

  /** u & (1 << bit) is non-zero exactly when the bit is set. */
  lemma {:induction false} SelectsBit(u: nat, bit: nat)
    ensures And(u, Shl(1, bit)) != 0 <==> Bit(u, bit)
  {
    hide Bit, And, Shl;
    var x := And(u, Shl(1, bit));
    AndBits(u, Shl(1, bit), bit);
    OneBit(bit, bit);
    ZeroBits(bit);
    if !Bit(u, bit) {
      forall i: nat ensures Bit(x, i) == Bit(0, i) {
        AndBits(u, Shl(1, bit), i);
        OneBit(bit, i);
        ZeroBits(i);
      }
      SameBits(x, 0);
    }
  }

  lemma {:induction false} CanWriteFlags(kind: Kind, width: nat, rejected: int -> bool, acc: Access, v: nat, size: nat)
    requires kind.Flag? && 0 < width <= 8 * size && v < Pow2(width) && !rejected(v)
    ensures Fits(kind, width, v)
    ensures CanWrite(kind, width, rejected, acc, v, size, false) <==> acc.Rw? || acc.Wt? || (acc.Rc? && v == 0)
  {
    hide Pow2;
  }

  method OrFlags(values: seq<bool>, bit: nat) returns (wr: nat)
    ensures wr == ListBits(values, bit)
  {
    hide ListBits, Or, Shl;
    wr := 0;
    ListBitsStep(values, 0, bit);
    for ii := 0 to |values|
      invariant wr == ListBits(values[..ii], bit)
    {
      ListBitsStep(values, ii, bit);
      wr := Or(wr, Shl(if values[ii] then 1 else 0, bit + ii));
    }
    assert values[..|values|] == values;
  }

  class RFlag {
    const reg: Reg
    const bit: nat
    const vecLen: nat

    ghost predicate Valid()
      reads reg.mod
    {
      reg.Valid() && reg.kind.Flag? && bit + vecLen <= reg.width && forall v :: !reg.rejected(v)
    }

    constructor (reg: Reg, bit: nat, vecLen: nat)
      requires reg.Valid() && reg.kind.Flag? && bit + vecLen <= reg.width && forall v :: !reg.rejected(v)
      ensures Valid() && this.reg == reg && this.bit == bit && this.vecLen == vecLen
    {
      this.reg, this.bit, this.vecLen := reg, bit, vecLen;
    }

    /** Flag i of the register. */
    predicate FlagAt(i: nat)
      requires reg.mod.InImage(reg.addr, reg.size)
      reads reg.mod
    {
      Bit(FromLE(reg.Stored()), i)
    }

    method ReadBoolCached() returns (v: bool)
      requires Valid() && vecLen == 1
      ensures v == FlagAt(bit)
    {
      hide Bit, And, FromLE;
      var u := reg.ReadUintCached();
      ModBits(FromLE(reg.Stored()), reg.width, bit);
      SelectsBit(u, bit);
      v := And(u, Shl(1, bit)) != 0;
    }

    method ReadListBoolCached() returns (vs: seq<bool>)
      requires Valid()
      ensures |vs| == vecLen && forall i :: 0 <= i < vecLen ==> vs[i] == FlagAt(bit + i)
    {
      hide Bit, And, FromLE;
      var u := reg.ReadUintCached();
      vs := [];
      for ii := 0 to vecLen
        invariant |vs| == ii && forall i :: 0 <= i < ii ==> vs[i] == FlagAt(bit + i)
      {
        ModBits(FromLE(reg.Stored()), reg.width, bit + ii);
        SelectsBit(u, bit + ii);
        vs := vs + [And(u, Shl(1, bit + ii)) != 0];
      }
    }

    /** Sets one flag, through the byte that holds it; the integer changes in this bit only. */
    method WriteBoolCached(v: bool) returns (r: Result<(), WriteError>)
      requires Valid() && vecLen == 1
      modifies reg.mod`cache
      ensures Valid()
      ensures r.Ok? <==> reg.acc.Rw? || reg.acc.Wt? || (reg.acc.Rc? && SetBit(old(FromLE(reg.Stored())), bit, v) == 0)
      ensures r.Ok? ==> FromLE(reg.Stored()) == SetBit(old(FromLE(reg.Stored())), bit, v)
      ensures r.Ok? ==> forall i: nat :: FlagAt(i) == if i == bit then v else old(FlagAt(i))
      ensures r.Ok? ==> SameOutside(old(reg.mod.cache), reg.mod.cache, reg.addr - reg.mod.baseAddr, reg.size)
      ensures r.Err? ==> reg.mod.cache == old(reg.mod.cache)
    {
      hide FromLE, SetBit, Bit;
      var b := reg.Stored();
      ByteSetIsIntegerSet(b, bit, v);
      var b' := b[bit / 8 := SetBit(b[bit / 8], bit % 8, v)];
      ZeroIff(b');
      forall i: nat ensures Bit(SetBit(FromLE(b), bit, v), i) == if i == bit then v else Bit(FromLE(b), i) {
        SetBitBits(FromLE(b), bit, v, i);
      }
      r := reg.WriteBytesCached(b');
    }

    /** Sets the flags of a vector, through the whole integer; the other flags of the register
        stay, bits behind its width are cleared. */
    method WriteListBoolCached(values: seq<bool>) returns (r: Result<(), WriteError>)
      requires Valid() && |values| == vecLen
      modifies reg.mod`cache
      ensures Valid()
      ensures r.Ok? <==> reg.acc.Rw? || reg.acc.Wt? ||
                         (reg.acc.Rc? &&
                          forall i :: 0 <= i < reg.width ==> !NewFlag(values, bit, old(FromLE(reg.Stored())), i))
      ensures r.Ok? ==>
                forall i: nat :: FlagAt(i) == (i < reg.width && NewFlag(values, bit, old(FromLE(reg.Stored())), i))
      ensures r.Ok? ==> forall k :: 0 <= k < vecLen ==> FlagAt(bit + k) == values[k]
      ensures r.Ok? ==> forall i: nat :: !(bit <= i < bit + vecLen) ==> FlagAt(i) == (i < reg.width && old(FlagAt(i)))
      ensures r.Ok? ==> SameOutside(old(reg.mod.cache), reg.mod.cache, reg.addr - reg.mod.baseAddr, reg.size)
      ensures r.Err? ==> reg.mod.cache == old(reg.mod.cache)
    {
      hide FromLE, SetBits, Bit, ListBits, Or, Shl, Pow2, NewFlag, Decode, Fits, CanWrite, SameOutside;
      ghost var was := FromLE(reg.Stored());
      var wr := OrFlags(values, bit);
      var mask := Shl(Pow2(vecLen) - 1, bit);
      var rd := reg.ReadUintCached();
      NewFlags(values, bit, was, reg.width);
      var now := SetBits(rd, mask, wr);
      CanWriteFlags(reg.kind, reg.width, reg.rejected, reg.acc, now, reg.size);
      r := reg.WriteIntCached(now, false);
      if r.Ok? {
        FlagsSplit(FromLE(reg.Stored()), reg.width, values, bit, was);
      }
    }
  }
}
