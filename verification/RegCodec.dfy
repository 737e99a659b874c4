/** How register values are stored in bytes: range checks, two's complement, strided vector
    elements. */
module RegCodec {
  import opened Division
  import opened Wrappers
  import opened Bytes
  import opened Bits
  import opened Widths
  import opened Layout
  import opened RegModule

  datatype Kind = Uint | Sint | Raw | Flag | Char

  /** check_value_fits_reg. */
  predicate Fits(kind: Kind, width: nat, v: int)
    requires width > 0
  {
    if kind.Sint? then FitsSigned(v, width) else 0 <= v < Pow2(width)
  }

  /** v.to_bytes(size, 'little', signed), None for its OverflowError. */
  function ToBytes(v: int, size: nat, signed: bool): (b: Option<seq<Byte>>)
    ensures b.Some? ==> |b.value| == size
  {
    if signed && FitsSigned(v, 8 * size) then Some(ToLE(if v < 0 then v + Pow2(8 * size) else v, size))
    else if !signed && 0 <= v < Pow2(8 * size) then Some(ToLE(v, size))
    else None
  }

  /** What stored bytes are read as: their low bits, sign-extended for a signed register. */
  function Decode(kind: Kind, width: nat, b: seq<Byte>): int
    requires width > 0
  {
    var u := FromLE(b) % Pow2(width);
    if kind.Sint? then CastUintToSint(u, width) else u
  }

  lemma {:induction false} BaseIsPow2(n: nat)
    ensures Base(n) == Pow2(8 * n)
    decreases n
  {
    SmallPowers();
    if n > 0 {
      BaseIsPow2(n - 1);
      Pow2Add(8, 8 * (n - 1));
    }
  }

  /** Where the storage is as wide as the value no mask is needed. */
  lemma {:induction false} FullWidth(b: seq<Byte>)
    ensures FromLE(b) % Pow2(8 * |b|) == FromLE(b)
  {
    BaseIsPow2(|b|);
    FromLEBound(b);
    DivModUnique(FromLE(b), Pow2(8 * |b|), 0, FromLE(b));
  }

  /** Main result: every value that fits the register and can be stored reads back, whether it
      was stored by the signed or by the unsigned write, in storage at least as wide. */
  lemma {:induction false} StoredReadsBack(kind: Kind, width: nat, v: int, size: nat, signed: bool)
    requires width > 0 && width <= 8 * size && Fits(kind, width, v) && ToBytes(v, size, signed).Some?
    ensures Decode(kind, width, ToBytes(v, size, signed).value) == v
  {
    hide ToLE, FromLE, CastUintToSint;
    BaseIsPow2(size);
    Pow2Double(8 * size);
    ReadsBackLE(if v < 0 then v + Pow2(8 * size) else v, size);
    if kind.Sint? {
      SignedReadsBack(v, width, 8 * size);
    } else {
      DivModUnique(v, Pow2(width), 0, v);
    }
  }

  /** Main result: a value fits exactly when some stored bytes decode to it. */
  lemma {:induction false} FitsIff(kind: Kind, width: nat, v: int, size: nat)
    requires 0 < width <= 8 * size
    ensures Fits(kind, width, v) <==> exists b: seq<Byte> :: |b| == size && Decode(kind, width, b) == v
  {
    hide ToBytes, Decode, Fits;
    if Fits(kind, width, v) {
      FittingIsStored(kind, width, v, size);
      StoredReadsBack(kind, width, v, size, v < 0);
      var b := ToBytes(v, size, v < 0).value;
      assert |b| == size && Decode(kind, width, b) == v;
    }
    forall b: seq<Byte> | |b| == size && Decode(kind, width, b) == v ensures Fits(kind, width, v) {
      DecodedFits(kind, width, b);
    }
  }

  lemma {:induction false} FittingIsStored(kind: Kind, width: nat, v: int, size: nat)
    requires 0 < width <= 8 * size && Fits(kind, width, v)
    ensures ToBytes(v, size, v < 0).Some?
  {
    hide ToLE;
    Pow2Mono(width, 8 * size);
    Pow2Mono(width - 1, 8 * size - 1);
    Pow2Double(8 * size);
  }

  lemma {:induction false} DecodedFits(kind: Kind, width: nat, b: seq<Byte>)
    requires width > 0
    ensures Fits(kind, width, Decode(kind, width, b))
  {
    hide FromLE;
    Pow2Double(width);
    ModBelow(FromLE(b), Pow2(width));
  }

  lemma {:induction false} ModBelow(x: nat, d: nat)
    requires d > 0
    ensures x % d < d
  {
  }

  /** Which values fit: all numbers of `width` bits, two's complement for signed registers. */
  lemma {:induction false} FitsRange(kind: Kind, v: int)
    ensures Fits(kind, 8, v) <==> if kind.Sint? then -128 <= v <= 127 else 0 <= v <= 255
  {
    SmallPowers();
    Pow2Double(8);
  }

  lemma {:induction false} UnsignedBytes(v: int, size: nat)
    ensures ToBytes(v, size, false).Some? ==> FromLE(ToBytes(v, size, false).value) == v
  {
    hide ToLE, FromLE;
    BaseIsPow2(size);
    if 0 <= v < Pow2(8 * size) {
      ReadsBackLE(v, size);
    }
  }

  lemma {:induction false} Pow2Double(n: nat)
    requires n > 0
    ensures Pow2(n) == 2 * Pow2(n - 1)
  {
  }

  /** Of the values that fit the register, the unsigned write cannot store the negative ones, and
      the signed write not those in the upper half of full-width unsigned storage. */
  lemma {:induction false} CanBeStoredIff(kind: Kind, width: nat, v: int, size: nat, signed: bool)
    requires width > 0 && width <= 8 * size && Fits(kind, width, v)
    ensures ToBytes(v, size, signed).Some? <==> if signed then v < Pow2(8 * size - 1) else v >= 0
  {
    hide ToLE;
    Pow2Mono(width, 8 * size);
    Pow2Mono(width - 1, 8 * size - 1);
    Pow2Double(8 * size);
  }

  lemma {:induction false} ZeroBytes(v: int, size: nat, signed: bool)
    requires ToBytes(v, size, signed).Some?
    ensures v == 0 <==> forall i :: 0 <= i < size ==> ToBytes(v, size, signed).value[i] == 0
  {
    hide FromLE, ToLE;
    BaseIsPow2(size);
    var u := if v < 0 then v + Pow2(8 * size) else v;
    var b := ToBytes(v, size, signed).value;
    if size > 0 {
      Pow2Double(8 * size);
    }
    ReadsBackLE(u, size);
    if v == 0 {
      ZeroLE(size);
    } else {
      if forall i :: 0 <= i < size ==> b[i] == 0 {
        AllZero(b);
      }
    }
  }

  lemma {:induction false} ZeroLE(n: nat)
    ensures forall i :: 0 <= i < n ==> ToLE(0, n)[i] == 0
    decreases n
  {
    if n > 0 {
      ZeroLE(n - 1);
    }
  }

  lemma {:induction false} AllZero(b: seq<Byte>)
    requires forall i :: 0 <= i < |b| ==> b[i] == 0
    ensures FromLE(b) == 0
    decreases |b|
  {
    if b != [] {
      AllZero(b[1..]);
    }
  }

  // ------------------------------------------------------------------ strided elements

  /** The bytes of element i of a vector that starts at `at` in c. */
  function ElemBytes(c: seq<Byte>, at: nat, stride: nat, size: nat, i: nat): (b: seq<Byte>)
    requires at + Span(stride, i) + size <= |c|
    ensures |b| == size
  {
    c[at + Span(stride, i)..at + Span(stride, i) + size]
  }

  lemma {:induction false} SpanOrder(stride: nat, i: nat, j: nat)
    ensures Span(stride, i + 1) == Span(stride, i) + stride && Span(stride, 0) == 0
    ensures i < j ==> Span(stride, i) + stride <= Span(stride, j)
  {
    Distribute(i, 1, stride);
    if i < j {
      MulMono(i + 1, j, stride);
    }
  }

  lemma {:induction false} ElemInside(stride: nat, size: nat, n: nat, i: nat)
    requires size <= stride && i < n
    ensures Span(stride, i) + size <= Span(stride, n)
  {
    SpanOrder(stride, i, n);
  }

  /** Writing element i changes element i only. */
  lemma {:induction false} PatchElem(c: seq<Byte>, at: nat, stride: nat, size: nat, n: nat, i: nat, b: seq<Byte>,
                                     j: nat)
    requires size <= stride && |b| == size && i < n && j < n && at + Span(stride, n) <= |c|
    ensures Span(stride, i) + size <= Span(stride, n) && Span(stride, j) + size <= Span(stride, n)
    ensures ElemBytes(Patch(c, at + Span(stride, i), b), at, stride, size, j) ==
            if i == j then b else ElemBytes(c, at, stride, size, j)
  {
    hide Span;
    SpanOrder(stride, i, j);
    SpanOrder(stride, j, i);
    ElemInside(stride, size, n, i);
    ElemInside(stride, size, n, j);
  }

  // ------------------------------------------------------------------ whole-list reads

  /** One chunk of a whole-list read: elem_offset bytes, masked only when the value is narrower
      than its element. */
  function ChunkUint(chunk: seq<Byte>, width: nat, size: nat): nat {
    if 8 * size != width then FromLE(chunk) % Pow2(width) else FromLE(chunk)
  }

  lemma {:induction false} SplitLE(a: seq<Byte>, b: seq<Byte>)
    ensures FromLE(a + b) == FromLE(a) + Shl(FromLE(b), 8 * |a|)
    decreases |a|
  {
    SmallPowers();
    if a == [] {
      assert a + b == b;
    } else {
      assert (a + b)[1..] == a[1..] + b;
      SplitLE(a[1..], b);
      ShlAdd(FromLE(b), 8 * (|a| - 1), 8);
    }
  }

  lemma {:induction false} ZeroIff(b: seq<Byte>)
    ensures FromLE(b) == 0 <==> forall i :: 0 <= i < |b| ==> b[i] == 0
    decreases |b|
  {
    if b != [] {
      ZeroIff(b[1..]);
      assert forall i :: 1 <= i < |b| ==> b[i] == b[1..][i - 1];
    }
  }

  /** Main result: a whole-list read gives the value an element read gives, exactly when the
      value is masked or the padding bytes behind the element are zero. */
  lemma {:induction false} ListReadAgreesIff(chunk: seq<Byte>, width: nat, size: nat)
    requires 0 < width <= 8 * size && size <= |chunk|
    ensures ChunkUint(chunk, width, size) == FromLE(chunk[..size]) % Pow2(width) <==>
            8 * size != width || forall k :: size <= k < |chunk| ==> chunk[k] == 0
  {
    hide FromLE;
    var (elem, pad) := (chunk[..size], chunk[size..]);
    assert chunk == elem + pad;
    SplitLE(elem, pad);
    ZeroIff(pad);
    assert (forall k :: size <= k < |chunk| ==> chunk[k] == 0) <==> (forall k :: 0 <= k < |pad| ==> pad[k] == 0) by {
      PadIndices(chunk, size);
    }
    if 8 * size == width {
      FullWidth(elem);
      ShlZero(FromLE(pad), width);
    } else {
      Pow2Add(8 * size - width, width);
      ShlAdd(FromLE(pad), 8 * size - width, width);
      ModOfSum(FromLE(elem), Shl(FromLE(pad), 8 * size - width), width);
    }
  }

  /** Main result: the signed whole-list read agrees with the signed element read exactly when
      the value is masked, or the padding is zero, or the padding reads as 1 behind a
      non-negative element - the missing mask and the sign extension then cancel out. */
  lemma {:induction false} SignedListReadAgreesIff(chunk: seq<Byte>, width: nat, size: nat)
    requires 0 < width <= 8 * size && size <= |chunk|
    ensures CastUintToSint(ChunkUint(chunk, width, size), width) == Decode(Sint, width, chunk[..size]) <==>
            8 * size != width || SignedPadding(chunk, width, size)
  {
    hide FromLE, Pow2;
    var (elem, pad) := (chunk[..size], chunk[size..]);
    assert chunk == elem + pad;
    SplitLE(elem, pad);
    if 8 * size == width {
      FullWidth(elem);
      FromLEBound(elem);
      BaseIsPow2(size);
      Pow2Double(width);
      Overflowed(FromLE(elem), FromLE(pad), Pow2(width - 1));
    } else {
      Pow2Add(8 * size - width, width);
      ShlAdd(FromLE(pad), 8 * size - width, width);
      ModOfSum(FromLE(elem), Shl(FromLE(pad), 8 * size - width), width);
    }
  }

  /** The padding of a chunk that the signed whole-list read does not notice. */
  predicate SignedPadding(chunk: seq<Byte>, width: nat, size: nat)
    requires width > 0 && size <= |chunk|
  {
    var pad := FromLE(chunk[size..]);
    pad == 0 || (pad == 1 && FromLE(chunk[..size]) < Pow2(width - 1))
  }

  /** Taking 2 * half off x + p * (2 * half) once, when it is at least half, gives what it gives
      for x alone only if p is 0, or 1 with x below half. */
  lemma {:induction false} Overflowed(x: nat, p: nat, half: nat)
    requires half > 0 && x < 2 * half
    ensures var v := x + p * (2 * half);
            (if v >= half then v - 2 * half else v) == (if x >= half then x - 2 * half else x) <==>
            p == 0 || (p == 1 && x < half)
  {
    if p >= 2 {
      MulMono(2, p, 2 * half);
    }
  }

  /** Chunks where the reads differ: unsigned 5 with padding 2 is read as 517, signed 5 with
      padding 2 as 261, signed -123 with padding 1 as 133. The signed read of 5 with padding 1
      happens to agree. */
  lemma {:induction false} PaddingExample()
    ensures ChunkUint([5, 2], 8, 1) == 517 && Decode(Uint, 8, [5]) == 5
    ensures CastUintToSint(ChunkUint([5, 2], 8, 1), 8) == 261 && Decode(Sint, 8, [5]) == 5
    ensures CastUintToSint(ChunkUint([133, 1], 8, 1), 8) == 133 && Decode(Sint, 8, [133]) == -123
    ensures CastUintToSint(ChunkUint([5, 1], 8, 1), 8) == 5
  {
    SmallPowers();
    Pow2Double(8);
    TwoBytes(5, 1);
    TwoBytes(5, 2);
    TwoBytes(133, 1);
    OneByte(5);
    OneByte(133);
  }

  lemma {:induction false} OneByte(a: Byte)
    ensures FromLE([a]) == a
  {
    assert [a][1..] == [];
  }

  lemma {:induction false} TwoBytes(a: Byte, b: Byte)
    ensures FromLE([a, b]) == a + 256 * b
  {
    assert [a, b][1..] == [b];
    OneByte(b);
  }

  lemma {:induction false} PadIndices(chunk: seq<Byte>, size: nat)
    requires size <= |chunk|
    ensures (forall k :: size <= k < |chunk| ==> chunk[k] == 0) <==>
              (forall k :: 0 <= k < |chunk| - size ==> chunk[size..][k] == 0)
  {
    if forall k :: 0 <= k < |chunk| - size ==> chunk[size..][k] == 0 {
      forall k | size <= k < |chunk| ensures chunk[k] == 0 {
        assert chunk[size..][k - size] == 0;
      }
    }
  }

  lemma {:induction false} ShlZero(x: nat, k: nat)
    ensures Shl(x, k) == 0 <==> x == 0
  {
    if x > 0 {
      MulMono(1, x, Pow2(k));
    }
  }
}
