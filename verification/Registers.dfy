/** Registers on the byte image of their module: checked writes, and reads that give back what
    was written. */
module Registers {
  import opened Division
  import opened Wrappers
  import opened Bytes
  import opened Bits
  import opened Widths
  import opened Layout
  import opened RegModule
  import opened RegCodec
  import opened Regions

  datatype WriteError = DoesNotFit | CheckFails | Overflows | NotWritable | WrongLength | Misaligned

  datatype Access = K | Ro | Rc | Rw | Wt | Na

  /** The bytes b may be written: freely, or zeros to clear. */
  predicate MayWrite(acc: Access, b: seq<Byte>) {
    acc.Rw? || acc.Wt? || (acc.Rc? && forall i :: 0 <= i < |b| ==> b[i] == 0)
  }

  /** What a write of v does short of the access rights: the checks in their order, then the
      bytes. */
  function Checked(kind: Kind, width: nat, rejected: int -> bool, v: int, size: nat, signed: bool)
    : Result<seq<Byte>, WriteError>
    requires width > 0
  {
    if !Fits(kind, width, v) then Err(DoesNotFit)
    else if rejected(v) then Err(CheckFails)
    else
      var b := ToBytes(v, size, signed);
      if b.None? then Err(Overflows) else Ok(b.value)
  }

  /** A value can be written: it fits, its limit check does not reject it, it can be stored, and
      the register takes it. */
  predicate CanWrite(kind: Kind, width: nat, rejected: int -> bool, acc: Access, v: int, size: nat, signed: bool)
    requires 0 < width <= 8 * size
  {
    Fits(kind, width, v) && !rejected(v) && (if signed then v < Pow2(8 * size - 1) else v >= 0) &&
    (acc.Rw? || acc.Wt? || (acc.Rc? && v == 0))
  }

  lemma {:induction false} CheckedIff(kind: Kind, width: nat, rejected: int -> bool, acc: Access, v: int, size: nat,
                                      signed: bool)
    requires 0 < width <= 8 * size
    ensures var c := Checked(kind, width, rejected, v, size, signed);
            (CanWrite(kind, width, rejected, acc, v, size, signed) <==> c.Ok? && MayWrite(acc, c.value)) &&
            (c.Ok? ==> |c.value| == size && Decode(kind, width, c.value) == v && (!signed ==> FromLE(c.value) == v))
  {
    hide Decode, ToBytes, Pow2, FromLE;
    if Fits(kind, width, v) && !rejected(v) {
      CanBeStoredIff(kind, width, v, size, signed);
      if ToBytes(v, size, signed).Some? {
        StoredReadsBack(kind, width, v, size, signed);
        ZeroBytes(v, size, signed);
        UnsignedBytes(v, size);
      }
    }
  }

  /** Which registers take which bytes: `rw` and `wt` any, `rc` zeros only, `k`, `ro` and `na` none -
      not even zeros. */
  lemma {:induction false} AccessRights(b: seq<Byte>)
    ensures MayWrite(Rw, b) && MayWrite(Wt, b)
    ensures !MayWrite(K, b) && !MayWrite(Ro, b) && !MayWrite(Na, b)
    ensures MayWrite(Rc, b) <==> FromLE(b) == 0
  {
    ZeroIff(b);
  }

  /** Nothing outside n bytes from lo on differs. */
  predicate SameOutside(was: seq<Byte>, now: seq<Byte>, lo: int, n: nat) {
    |was| == |now| && forall k :: 0 <= k < |now| && !(lo <= k < lo + n) ==> now[k] == was[k]
  }

  lemma {:induction false} PatchInside(c: seq<Byte>, off: nat, b: seq<Byte>, at: nat, n: nat)
    requires off + |b| <= |c| && at <= off && off + |b| <= at + n <= |c|
    ensures SameOutside(c, Patch(c, off, b), off, |b|)
    ensures Patch(c, off, b)[at..at + n] == Patch(c[at..at + n], off - at, b)
  {
    hide Patch;
    forall k | 0 <= k < |c| ensures Patch(c, off, b)[k] == if off <= k < off + |b| then b[k - off] else c[k] {
      PatchAt(c, off, b, k);
    }
    var (x, y) := (Patch(c, off, b)[at..at + n], Patch(c[at..at + n], off - at, b));
    forall k | 0 <= k < n ensures x[k] == y[k] {
      PatchAt(c[at..at + n], off - at, b, k);
    }
  }

  lemma {:induction false} PatchElsewhere(c: seq<Byte>, off: nat, b: seq<Byte>, at: nat, n: nat)
    requires off + |b| <= |c| && at + n <= |c| && (at + n <= off || off + |b| <= at)
    ensures Patch(c, off, b)[at..at + n] == c[at..at + n]
  {
    hide Patch;
    var (x, y) := (Patch(c, off, b)[at..at + n], c[at..at + n]);
    forall k | 0 <= k < n ensures x[k] == y[k] {
      PatchAt(c, off, b, at + k);
    }
  }

  // ------------------------------------------------------------------ scalar registers

  class Reg {
    const mod: Module
    const addr: nat
    const kind: Kind
    const width: nat
    const acc: Access
    /** The register values that fail the value check with an error. */
    const rejected: int -> bool
    const size: nat

    ghost predicate Valid()
      reads mod
    {
      0 < width <= 8 * size && mod.InImage(addr, size)
    }

    constructor (mod: Module, slot: Slot, kind: Kind, acc: Access, rejected: int -> bool)
      requires slot.shape.width > 0 && mod.InImage(slot.addr, ElemSize(slot.shape.width))
      ensures Valid() && this.mod == mod && addr == slot.addr && width == slot.shape.width
      ensures this.kind == kind && this.acc == acc && this.rejected == rejected && size == ElemSize(width)
      ensures slot.shape.vecLen.None? && mod.byteAlign > 0 && mod.SlotInImage(slot, mod.byteAlign) ==> Reachable()
    {
      this.mod, addr, this.kind, width, this.acc, this.rejected :=
        mod, slot.addr, kind, slot.shape.width, acc, rejected;
      size := ElemSize(slot.shape.width);
      new;
      ElemSizes(width, 1);
    }

    /** The bytes of the register in the image. */
    function Stored(): (b: seq<Byte>)
      requires mod.InImage(addr, size)
      reads mod
      ensures |b| == size
    {
      mod.cache[addr - mod.baseAddr..addr - mod.baseAddr + size]
    }

    method ReadUintCached() returns (v: nat)
      requires Valid()
      ensures v == FromLE(Stored()) % Pow2(width)
    {
      hide FromLE, Pow2, StaleIn, Addresses, Covers, Slice;
      var b := mod.ReadCached(addr, size);
      v := FromLE(b);
      if width != size * 8 {
        v := v % Pow2(width);
      } else {
        FullWidth(b);
      }
    }

    method ReadSintCached() returns (v: int)
      requires Valid()
      ensures v == CastUintToSint(FromLE(Stored()) % Pow2(width), width)
    {
      var u := ReadUintCached();
      v := CastUintToSint(u, width);
    }

    /** Writes v unsigned or signed. It goes through exactly when the register can take it, and
        then reads back as v; all other bytes of the image, and all bytes if it fails, stay. */
    method WriteIntCached(v: int, signed: bool) returns (r: Result<(), WriteError>)
      requires Valid()
      modifies mod`cache
      ensures Valid()
      ensures r.Ok? <==> CanWrite(kind, width, rejected, acc, v, size, signed)
      ensures r.Ok? ==>
                Decode(kind, width, Stored()) == v &&
                SameOutside(old(mod.cache), mod.cache, addr - mod.baseAddr, size)
      ensures r.Err? ==> mod.cache == old(mod.cache)
      ensures r.Ok? && !signed ==> FromLE(Stored()) == v
      ensures r.Ok? ==> MayWrite(acc, Stored())
      ensures r.Err? ==> (r.error == DoesNotFit <==> !Fits(kind, width, v))
      ensures r.Err? && r.error == CheckFails <==> Fits(kind, width, v) && rejected(v)
    {
      hide Decode, ToBytes, CanWrite, MayWrite, Fits, SameOutside, FromLE;
      CheckedIff(kind, width, rejected, acc, v, size, signed);
      var b := Checked(kind, width, rejected, v, size, signed);
      if b.Err? {
        return Err(b.error);
      }
      r := WriteBytesCached(b.value);
    }

    method WriteBytesCached(b: seq<Byte>) returns (r: Result<(), WriteError>)
      requires Valid()
      modifies mod`cache
      ensures Valid()
      ensures r == if !MayWrite(acc, b) then Err(NotWritable) else if |b| != size then Err(WrongLength) else Ok(())
      ensures r.Ok? ==> Stored() == b && SameOutside(old(mod.cache), mod.cache, addr - mod.baseAddr, size)
      ensures r.Err? ==> mod.cache == old(mod.cache)
    {
      if !MayWrite(acc, b) {
        return Err(NotWritable);
      }
      if |b| != size {
        return Err(WrongLength);
      }
      PatchInside(mod.cache, addr - mod.baseAddr, b, addr - mod.baseAddr, size);
      mod.WriteBytesCached(addr, b);
      return Ok(());
    }

    /** The device access to this register lies in the module image. */
    predicate Reachable()
      requires mod.byteAlign > 0
      reads mod
    {
      mod.useCache || addr % mod.byteAlign != 0 || mod.InImage(addr, mod.OpSize(size))
    }

    /** Writes the bytes in the image to the device. */
    method WriteCache() returns (r: Result<(), WriteError>)
      requires Valid() && mod.Valid() && Reachable()
      modifies mod`cache, mod.regio.device
      ensures mod.cache == old(mod.cache)
      ensures r == if !MayWrite(acc, Stored()) then Err(NotWritable)
                   else if mod.useCache || addr % mod.byteAlign == 0 then Ok(()) else Err(Misaligned)
      ensures mod.useCache || r.Err? ==> mod.regio.device.mem == old(mod.regio.device.mem)
      ensures !mod.useCache && r.Ok? ==>
        mod.regio.device.mem == old(mod.regio.device.mem) +
          Written(addr, mod.cache[addr - mod.baseAddr..addr - mod.baseAddr + mod.OpSize(size)]) &&
        mod.Stale() == old(mod.Stale()) - Addresses(addr, mod.OpSize(size))
    {
      hide CeilMultiple, Patch, Written, StaleIn, Addresses, MayWrite;
      var b := mod.ReadCached(addr, size);
      if !MayWrite(acc, b) {
        return Err(NotWritable);
      }
      SliceAssigned(mod.cache, addr - mod.baseAddr, size);
      var w := mod.WriteBytes(addr, b);
      return if w.Ok? then Ok(()) else Err(Misaligned);
    }

    /** Writes v to the image and the device. Afterwards the device holds v too; where image and
        device agreed before, the device changes in this register only. */
    method WriteInt(v: int, signed: bool) returns (r: Result<(), WriteError>)
      requires Valid() && mod.Valid() && Reachable()
      modifies mod`cache, mod.regio.device
      ensures Valid() && mod.Valid()
      ensures r.Ok? <==> CanWrite(kind, width, rejected, acc, v, size, signed) &&
                         (mod.useCache || addr % mod.byteAlign == 0)
      ensures SameOutside(old(mod.cache), mod.cache, addr - mod.baseAddr, size)
      ensures CanWrite(kind, width, rejected, acc, v, size, signed) ==> Decode(kind, width, Stored()) == v
      ensures !CanWrite(kind, width, rejected, acc, v, size, signed) ==> mod.cache == old(mod.cache)
      ensures r.Ok? && !mod.useCache ==>
        mod.Stale() == old(mod.Stale()) - Addresses(addr, mod.OpSize(size)) &&
        Covers(mod.regio.device.mem, addr, size) && Decode(kind, width, Slice(mod.regio.device.mem, addr, size)) == v
      ensures r.Ok? && !mod.useCache && old(mod.Stale()) !! Addresses(addr, mod.OpSize(size)) ==>
        mod.regio.device.mem == old(mod.regio.device.mem) + Written(addr, Stored())
      ensures mod.useCache || r.Err? ==> mod.regio.device.mem == old(mod.regio.device.mem)
    {
      hide CeilMultiple, Patch, Written, StaleIn, Addresses, MayWrite, CanWrite, Decode, Fits, SameOutside, FromLE;
      hide IsPow2, Covers, Slice;
      ghost var (was, mem, off) := (mod.cache, mod.regio.device.mem, addr - mod.baseAddr);
      AllSame(mod.cache, off, size);
      r := WriteIntCached(v, signed);
      if r.Err? {
        return;
      }
      InsideIsPatch(was, mod.cache, off, size);
      r := WriteCache();
      if r.Ok? && !mod.useCache {
        PaddedWrite(mem, mod.baseAddr, was, off, Stored(), mod.OpSize(size));
        NarrowRange(mod.Stale(), old(mod.Stale()), addr, size, mod.OpSize(size));
        FreshIsStored(mod.regio.device.mem, mod.baseAddr, mod.cache, off, size);
      }
    }

    /** Reads the register: from the device through the image, unless it is a constant or only
        the cache is used. */
    method ReadInt() returns (r: Result<int, Error>)
      requires Valid() && mod.Valid() && (acc.K? || Reachable())
      modifies mod`cache, mod.regio.device`log
      ensures Valid() && mod.Valid()
      ensures r.Ok? ==> r.value == Decode(kind, width, Stored())
      ensures r.Ok? && !acc.K? && !mod.useCache ==>
        Covers(mod.regio.device.mem, addr, size) &&
        r.value == Decode(kind, width, Slice(mod.regio.device.mem, addr, size)) &&
        mod.Stale() == old(mod.Stale()) - Addresses(addr, mod.OpSize(size))
      ensures r.Err? ==> mod.cache == old(mod.cache)
      ensures acc.K? || mod.useCache ==> r.Ok? && mod.cache == old(mod.cache)
    {
      hide CeilMultiple, StaleIn, Addresses, FromLE, IsPow2, Slice, CastUintToSint, Pow2;
      if !acc.K? {
        var b :- mod.ReadBytes(addr, size);
        if !mod.useCache {
          ReadPrefix(mod.regio.device.mem, old(mod.cache), addr, addr - mod.baseAddr, size, mod.OpSize(size));
        }
      }
      if kind.Sint? {
        var v := ReadSintCached();
        return Ok(v);
      }
      var u := ReadUintCached();
      return Ok(u);
    }
  }

  lemma {:induction false} InsideIsPatch(was: seq<Byte>, now: seq<Byte>, off: nat, n: nat)
    requires SameOutside(was, now, off, n) && off + n <= |now|
    ensures now == Patch(was, off, now[off..off + n])
  {
  }

  lemma {:induction false} NarrowRange(now: set<int>, was: set<int>, addr: int, n: nat, wide: nat)
    requires now == was - Addresses(addr, wide) && n <= wide
    ensures now !! Addresses(addr, n)
  {
    hide Addresses;
  }

  lemma {:induction false} ReadPrefix(mem: ByteMap, c: seq<Byte>, addr: int, off: nat, n: nat, wide: nat)
    requires n <= wide && off + wide <= |c| && Covers(mem, addr, wide)
    ensures Covers(mem, addr, n) && Patch(c, off, Slice(mem, addr, wide))[off..off + n] == Slice(mem, addr, n)
  {
  }

  // ------------------------------------------------------------------ vector registers

  function Zeros(n: nat): (z: seq<Byte>)
    ensures |z| == n && forall i :: 0 <= i < n ==> z[i] == 0
  {
    seq(n, i => 0)
  }

  /** The bytes of element i of a list; zeros behind its end. */
  function ElemOf(values: seq<int>, size: nat, signed: bool, i: nat): (b: seq<Byte>)
    ensures |b| == size
  {
    if i < |values| && ToBytes(values[i], size, signed).Some? then ToBytes(values[i], size, signed).value
      else Zeros(size)
  }

  /** Element i of b with the padding behind it. */
  function Chunk(b: seq<Byte>, stride: nat, i: nat): seq<Byte>
    requires Span(stride, i) + stride <= |b|
  {
    ElemBytes(b, 0, stride, stride, i)
  }

  ghost predicate ChunkIs(b: seq<Byte>, stride: nat, i: nat, c: seq<Byte>) {
    Span(stride, i) + stride <= |b| && Chunk(b, stride, i) == c
  }

  /** b is n elements a stride apart that hold the list, then zeros, all with zero padding. */
  ghost predicate Packed(b: seq<Byte>, stride: nat, size: nat, n: nat, values: seq<int>, signed: bool) {
    |b| == Span(stride, n) && |values| <= n && size <= stride &&
    forall i :: 0 <= i < n ==> ChunkIs(b, stride, i, ElemOf(values, size, signed, i) + Zeros(stride - size))
  }

  lemma {:induction false} PackOne(b: seq<Byte>, stride: nat, size: nat, n: nat, values: seq<int>, v: int, signed: bool)
    requires Packed(b, stride, size, n, values, signed) && |values| < n && ToBytes(v, size, signed).Some?
    ensures Packed(SliceAssign(b, Span(stride, |values|), ToBytes(v, size, signed).value),
                   stride, size, n, values + [v], signed)
  {
    hide Span, ToBytes, ElemOf, Zeros, Patch;
    var (i, x) := (|values|, ToBytes(v, size, signed).value);
    ElemInside(stride, stride, n, i);
    assert ChunkIs(b, stride, i, ElemOf(values, size, signed, i) + Zeros(stride - size));
    BehindList(values, size, signed, i);
    PatchPadded(b, Span(stride, i), x, stride);
    hide Chunk, ChunkIs;
    forall j | 0 <= j < n
      ensures ChunkIs(Patch(b, Span(stride, i), x + Zeros(stride - size)), stride, j,
                ElemOf(values + [v], size, signed, j) + Zeros(stride - size))
    {
      PackChunk(b, stride, size, n, values, v, signed, j);
    }
  }

  lemma {:induction false} BehindList(values: seq<int>, size: nat, signed: bool, i: nat)
    requires i >= |values|
    ensures ElemOf(values, size, signed, i) == Zeros(size)
  {
  }

  lemma {:induction false} PackChunk(b: seq<Byte>, stride: nat, size: nat, n: nat, values: seq<int>, v: int,
                                     signed: bool, j: nat)
    requires Packed(b, stride, size, n, values, signed) && |values| < n && ToBytes(v, size, signed).Some? && j < n
    ensures Span(stride, |values|) + stride <= |b|
    ensures ChunkIs(Patch(b, Span(stride, |values|), ToBytes(v, size, signed).value + Zeros(stride - size)), stride, j,
                    ElemOf(values + [v], size, signed, j) + Zeros(stride - size))
  {
    hide Span, ToBytes, Zeros, ElemBytes, Patch;
    ElemInside(stride, stride, n, |values|);
    PatchElem(b, 0, stride, stride, n, |values|, ToBytes(v, size, signed).value + Zeros(stride - size), j);
    assert ChunkIs(b, stride, j, ElemOf(values, size, signed, j) + Zeros(stride - size));
  }

  /** Over a zero chunk, writing an element is writing the element with zero padding. */
  lemma {:induction false} PatchPadded(b: seq<Byte>, off: nat, x: seq<Byte>, stride: nat)
    requires |x| <= stride && off + stride <= |b| && b[off..off + stride] == Zeros(|x|) + Zeros(stride - |x|)
    ensures Patch(b, off, x) == Patch(b, off, x + Zeros(stride - |x|))
  {
    var (p, q) := (Patch(b, off, x), Patch(b, off, x + Zeros(stride - |x|)));
    forall k | 0 <= k < |b| ensures p[k] == q[k] {
      if off + |x| <= k < off + stride {
        assert b[off..off + stride][k - off] == 0;
      }
    }
  }

  /** _list_int_to_bytes, into a zeroed buffer of n elements; None when a value cannot be
      stored. A list that is too long makes the buffer longer. */
  method ListIntToBytes(stride: nat, size: nat, n: nat, values: seq<int>, signed: bool) returns (r: Option<seq<Byte>>)
    requires 0 < size <= stride
    ensures r.Some? <==> Storables(values, size, signed)
    ensures r.Some? && |values| <= n ==> Packed(r.value, stride, size, n, values, signed)
    ensures r.Some? && |values| > n ==> |r.value| > Span(stride, n)
  {
    hide ToBytes, Span, Packed, SliceAssign;
    var b: seq<Byte> := Zeros(Span(stride, n));
    NothingPacked(stride, size, n, signed);
    for i := 0 to |values|
      invariant forall k :: 0 <= k < i ==> ToBytes(values[k], size, signed).Some?
      invariant i <= n ==> Packed(b, stride, size, n, values[..i], signed)
      invariant i > n ==> |b| > Span(stride, n)
    {
      var x := ToBytes(values[i], size, signed);
      if x.None? {
        return None;
      }
      if i < n {
        PackOne(b, stride, size, n, values[..i], values[i], signed);
        assert values[..i] + [values[i]] == values[..i + 1];
      } else {
        Overrun(b, stride, size, n, i, values[..i], x.value, signed);
      }
      b := SliceAssign(b, Span(stride, i), x.value);
    }
    assert values[..|values|] == values;
    return Some(b);
  }

  predicate Storables(values: seq<int>, size: nat, signed: bool) {
    forall i :: 0 <= i < |values| ==> ToBytes(values[i], size, signed).Some?
  }

  lemma {:induction false} NothingPacked(stride: nat, size: nat, n: nat, signed: bool)
    requires size <= stride
    ensures Packed(Zeros(Span(stride, n)), stride, size, n, [], signed)
  {
    hide Span;
    forall i | 0 <= i < n
      ensures ChunkIs(Zeros(Span(stride, n)), stride, i, ElemOf([], size, signed, i) + Zeros(stride - size))
    {
      ElemInside(stride, stride, n, i);
    }
  }

  /** One element too many makes the buffer longer than the register. */
  lemma {:induction false} Overrun(b: seq<Byte>, stride: nat, size: nat, n: nat, i: nat, values: seq<int>,
                                   x: seq<Byte>, signed: bool)
    requires i >= n && |x| == size > 0
    requires if i == n then Packed(b, stride, size, n, values, signed) else |b| > Span(stride, n)
    ensures |SliceAssign(b, Span(stride, i), x)| > Span(stride, n)
  {
    hide Span;
    SpanOrder(stride, n, i);
  }

  /** The values of n elements a stride apart. */
  ghost function ElemValues(b: seq<Byte>, kind: Kind, width: nat, stride: nat, size: nat, n: nat): (vs: seq<int>)
    requires width > 0 && size <= stride && Span(stride, n) <= |b|
    ensures |vs| == n
  {
    if n == 0 then []
    else
      SpanOrder(stride, n - 1, n);
      ElemValues(b, kind, width, stride, size, n - 1) + [Decode(kind, width, ElemBytes(b, 0, stride, size, n - 1))]
  }

  lemma {:induction false} ElemValueAt(b: seq<Byte>, kind: Kind, width: nat, stride: nat, size: nat, n: nat, i: nat)
    requires width > 0 && size <= stride && Span(stride, n) <= |b| && i < n
    ensures Span(stride, i) + size <= |b|
    ensures ElemValues(b, kind, width, stride, size, n)[i] == Decode(kind, width, ElemBytes(b, 0, stride, size, i))
    decreases n
  {
    hide Span, Decode;
    ElemInside(stride, size, n, i);
    SpanOrder(stride, n - 1, n);
    if i < n - 1 {
      ElemValueAt(b, kind, width, stride, size, n - 1, i);
    }
  }

  lemma {:induction false} PatchValues(b: seq<Byte>, kind: Kind, width: nat, stride: nat, size: nat, n: nat, idx: nat,
                                       x: seq<Byte>, v: int)
    requires width > 0 && size <= stride && Span(stride, n) == |b| && idx < n && |x| == size &&
               Decode(kind, width, x) == v
    ensures Span(stride, idx) + size <= |b|
    ensures ElemValues(Patch(b, Span(stride, idx), x), kind, width, stride, size, n) ==
              ElemValues(b, kind, width, stride, size, n)[idx := v]
  {
    hide Span, Decode, ElemValues, Patch;
    ElemInside(stride, size, n, idx);
    var b' := Patch(b, Span(stride, idx), x);
    forall j | 0 <= j < n
      ensures ElemValues(b', kind, width, stride, size, n)[j] ==
                ElemValues(b, kind, width, stride, size, n)[idx := v][j]
    {
      PatchElem(b, 0, stride, size, n, idx, x, j);
      ElemValueAt(b', kind, width, stride, size, n, j);
      ElemValueAt(b, kind, width, stride, size, n, j);
    }
  }

  // ------------------------------------------------------------------ lists

  ghost predicate PaddingIsZero(b: seq<Byte>, stride: nat, size: nat, n: nat)
    requires Span(stride, n) <= |b|
  {
    forall i :: 0 <= i < n ==> ZeroFrom(b, stride, i, size)
  }

  ghost predicate ZeroFrom(b: seq<Byte>, stride: nat, i: nat, size: nat) {
    Span(stride, i) + stride <= |b| ==> forall k :: size <= k < stride ==> Chunk(b, stride, i)[k] == 0
  }

  /** The padding that a signed whole-list read does not notice. */
  ghost predicate PaddingIsSigned(b: seq<Byte>, width: nat, stride: nat, size: nat, n: nat)
    requires width > 0 && size <= stride && Span(stride, n) <= |b|
  {
    forall i :: 0 <= i < n ==> SignedFrom(b, width, stride, i, size)
  }

  ghost predicate SignedFrom(b: seq<Byte>, width: nat, stride: nat, i: nat, size: nat)
    requires width > 0 && size <= stride
  {
    Span(stride, i) + stride <= |b| ==> SignedPadding(Chunk(b, stride, i), width, size)
  }

  /** Where a whole-list read may leave the mask out. */
  ghost predicate ListAgrees(b: seq<Byte>, kind: Kind, width: nat, stride: nat, size: nat, n: nat)
    requires width > 0 && size <= stride && Span(stride, n) <= |b|
  {
    8 * size != width || if kind.Sint? then PaddingIsSigned(b, width, stride, size, n)
      else PaddingIsZero(b, stride, size, n)
  }

  /** A chunk-wise read returns the element values exactly when no padding gets in their way. */
  lemma {:induction false} ListIsValuesIff(r: seq<int>, b: seq<Byte>, kind: Kind, width: nat, stride: nat, size: nat,
                                           n: nat)
    requires 0 < width <= 8 * size && size <= stride && |b| == Span(stride, n) && |r| == n
    requires forall i :: 0 <= i < n ==> ReadsValue(r[i], b, kind, stride, i, width, size)
    ensures r == ElemValues(b, kind, width, stride, size, n) <==> ListAgrees(b, kind, width, stride, size, n)
  {
    hide Span, ElemValues, ReadsValue, ZeroFrom, SignedFrom;
    var vs := ElemValues(b, kind, width, stride, size, n);
    forall i | 0 <= i < n
      ensures r[i] == vs[i] <==>
                8 * size != width || if kind.Sint? then SignedFrom(b, width, stride, i, size)
                  else ZeroFrom(b, stride, i, size)
    {
      ChunkIsValueIff(r[i], b, kind, width, stride, size, n, i);
    }
    if ListAgrees(b, kind, width, stride, size, n) {
      assert forall i :: 0 <= i < n ==> r[i] == vs[i];
    } else if kind.Sint? {
      var i :| 0 <= i < n && !SignedFrom(b, width, stride, i, size);
      assert r[i] != vs[i];
    } else {
      var i :| 0 <= i < n && !ZeroFrom(b, stride, i, size);
      assert r[i] != vs[i];
    }
  }

  lemma {:induction false} ChunkIsValueIff(v: int, b: seq<Byte>, kind: Kind, width: nat, stride: nat, size: nat,
                                           n: nat, i: nat)
    requires 0 < width <= 8 * size && size <= stride && |b| == Span(stride, n) && i < n
    requires ReadsValue(v, b, kind, stride, i, width, size)
    ensures v == ElemValues(b, kind, width, stride, size, n)[i] <==>
            8 * size != width || if kind.Sint? then SignedFrom(b, width, stride, i, size)
              else ZeroFrom(b, stride, i, size)
  {
    hide Span, ChunkUint, FromLE, Pow2, CastUintToSint, ElemValues, SignedPadding;
    ElemInside(stride, size, n, i);
    ElemValueAt(b, kind, width, stride, size, n, i);
    var chunk := Chunk(b, stride, i);
    assert chunk[..size] == ElemBytes(b, 0, stride, size, i);
    if kind.Sint? {
      SignedListReadAgreesIff(chunk, width, size);
    } else {
      ListReadAgreesIff(chunk, width, size);
    }
  }

  /** A device read of a whole register takes the padding over: after one that found 5 and 2 at
      the two bytes of a one-element vector of 8-bit values, the element is 5, while the list
      read gives 517 unsigned and 261 signed. */
  lemma {:induction false} PaddingFromDevice(c: seq<Byte>)
    requires |c| == 2
    ensures var mem: ByteMap := map[0 := 5, 1 := 2];
            Covers(mem, 0, 2) && Patch(c, 0, Slice(mem, 0, 2)) == [5, 2]
    ensures Span(2, 1) == 2 && ElemValues([5, 2], Uint, 8, 2, 1, 1) == [5] &&
              ElemValues([5, 2], Sint, 8, 2, 1, 1) == [5]
    ensures ReadsValue(517, [5, 2], Uint, 2, 0, 8, 1) && ReadsValue(261, [5, 2], Sint, 2, 0, 8, 1)
  {
    hide FromLE;
    SpanOrder(2, 0, 1);
    PaddingExample();
    TwoBytes(5, 2);
    var b: seq<Byte> := [5, 2];
    assert ElemBytes(b, 0, 2, 1, 0) == [5] && Chunk(b, 2, 0) == b;
    OneElem(b, Uint);
    OneElem(b, Sint);
  }

  lemma {:induction false} OneElem(b: seq<Byte>, kind: Kind)
    requires |b| == 2
    ensures Span(2, 1) == 2 && Span(2, 0) == 0
    ensures ElemValues(b, kind, 8, 2, 1, 1) == [Decode(kind, 8, ElemBytes(b, 0, 2, 1, 0))]
  {
    hide Decode;
    SpanOrder(2, 0, 1);
    ElemValueAt(b, kind, 8, 2, 1, 1, 0);
  }

  ghost predicate ReadsValue(v: int, b: seq<Byte>, kind: Kind, stride: nat, i: nat, width: nat, size: nat)
    requires width > 0
  {
    Span(stride, i) + stride <= |b| &&
    v == if kind.Sint? then CastUintToSint(ChunkUint(Chunk(b, stride, i), width, size), width)
      else ChunkUint(Chunk(b, stride, i), width, size)
  }

  ghost predicate ReadsChunk(v: nat, b: seq<Byte>, stride: nat, i: nat, width: nat, size: nat)
    requires width > 0
  {
    Span(stride, i) + stride <= |b| && v == ChunkUint(Chunk(b, stride, i), width, size)
  }

  /** Exactly the lists a register can take: every value writable, and some write allowed. */
  ghost predicate ListWritable(kind: Kind, width: nat, rejected: int -> bool, acc: Access, values: seq<int>,
                               size: nat, signed: bool)
    requires 0 < width <= 8 * size
  {
    (acc.Rw? || acc.Wt? || acc.Rc?) &&
    forall i :: 0 <= i < |values| ==> CanWrite(kind, width, rejected, acc, values[i], size, signed)
  }

  lemma {:induction false} ListWritableIff(kind: Kind, width: nat, rejected: int -> bool, acc: Access,
                                           values: seq<int>, size: nat, signed: bool, stride: nat, n: nat,
                                           b: Option<seq<Byte>>)
    requires 0 < width <= 8 * size && size <= stride
    requires forall i :: 0 <= i < |values| ==> !rejected(values[i])
    requires forall i :: 0 <= i < |values| ==> Fits(kind, width, values[i])
    requires b.Some? <==> Storables(values, size, signed)
    requires b.Some? && |values| <= n ==> Packed(b.value, stride, size, n, values, signed)
    requires b.Some? && |values| > n ==> |b.value| > Span(stride, n)
    ensures ListWritable(kind, width, rejected, acc, values, size, signed) && |values| <= n <==>
            b.Some? && MayWrite(acc, b.value) && |b.value| == Span(stride, n)
  {
    hide Span, ToBytes, Fits, Packed, MayWrite, Pow2;
    if b.Some? && |values| <= n {
      PackedMayWrite(acc, b.value, stride, size, n, values, signed);
      PackedLength(b.value, stride, size, n, values, signed);
    }
    forall i | 0 <= i < |values|
      ensures CanWrite(kind, width, rejected, acc, values[i], size, signed) <==>
              ToBytes(values[i], size, signed).Some? && (acc.Rw? || acc.Wt? || (acc.Rc? && values[i] == 0))
    {
      CanBeStoredIff(kind, width, values[i], size, signed);
    }
  }

  lemma {:induction false} PackedLength(b: seq<Byte>, stride: nat, size: nat, n: nat, values: seq<int>, signed: bool)
    requires Packed(b, stride, size, n, values, signed)
    ensures |b| == Span(stride, n)
  {
  }

  /** A packed list is all zero bytes exactly when all its values are zero. */
  lemma {:induction false} PackedMayWrite(acc: Access, b: seq<Byte>, stride: nat, size: nat, n: nat, values: seq<int>,
                                          signed: bool)
    requires Packed(b, stride, size, n, values, signed) && Storables(values, size, signed)
    ensures MayWrite(acc, b) <==> acc.Rw? || acc.Wt? || (acc.Rc? && forall i :: 0 <= i < |values| ==> values[i] == 0)
  {
    hide Span, ToBytes;
    if acc.Rc? {
      if MayWrite(acc, b) {
        forall i | 0 <= i < |values| ensures values[i] == 0 {
          ZeroBytes(values[i], size, signed);
          assert ChunkIs(b, stride, i, ElemOf(values, size, signed, i) + Zeros(stride - size));
          forall k | 0 <= k < size ensures ToBytes(values[i], size, signed).value[k] == 0 {
            assert Chunk(b, stride, i)[k] == b[Span(stride, i) + k];
          }
        }
      }
      if forall i :: 0 <= i < |values| ==> values[i] == 0 {
        forall k | 0 <= k < |b| ensures b[k] == 0 {
          var i := ChunkAt(k, stride, n);
          assert ChunkIs(b, stride, i, ElemOf(values, size, signed, i) + Zeros(stride - size));
          if i < |values| {
            ZeroBytes(values[i], size, signed);
          }
          assert b[k] == Chunk(b, stride, i)[k - Span(stride, i)];
        }
      }
    }
  }

  lemma {:induction false} ChunkAt(k: nat, stride: nat, n: nat) returns (i: nat)
    requires k < Span(stride, n)
    ensures i < n && Span(stride, i) <= k < Span(stride, i) + stride
    decreases n
  {
    hide Span;
    SpanOrder(stride, n, n);
    assert n > 0;
    SpanOrder(stride, n - 1, n);
    if Span(stride, n - 1) <= k {
      i := n - 1;
    } else {
      i := ChunkAt(k, stride, n - 1);
    }
  }

  /** A packed list reads back, followed by zeros, and its padding is zero. */
  lemma {:induction false} PackedValues(b: seq<Byte>, kind: Kind, width: nat, stride: nat, size: nat, n: nat,
                                        values: seq<int>, signed: bool)
    requires 0 < width <= 8 * size && Packed(b, stride, size, n, values, signed) && Storables(values, size, signed)
    requires forall i :: 0 <= i < |values| ==> Fits(kind, width, values[i])
    ensures PaddingIsZero(b, stride, size, n)
    ensures ElemValues(b, kind, width, stride, size, n) == values + Zeros(n - |values|)
  {
    hide Span, ToBytes, Fits, Decode, ElemValues;
    forall i | 0 <= i < n
      ensures ZeroFrom(b, stride, i, size)
      ensures ElemValues(b, kind, width, stride, size, n)[i] == (values + Zeros(n - |values|))[i]
    {
      assert ChunkIs(b, stride, i, ElemOf(values, size, signed, i) + Zeros(stride - size));
      ElemInside(stride, size, n, i);
      ElemValueAt(b, kind, width, stride, size, n, i);
      assert Chunk(b, stride, i)[..size] == ElemBytes(b, 0, stride, size, i) == ElemOf(values, size, signed, i);
      if i < |values| {
        StoredReadsBack(kind, width, values[i], size, signed);
      } else {
        ZeroDecodes(Zeros(size), kind, width);
      }
    }
  }

  lemma {:induction false} ZeroDecodes(b: seq<Byte>, kind: Kind, width: nat)
    requires width > 0 && forall i :: 0 <= i < |b| ==> b[i] == 0
    ensures Decode(kind, width, b) == 0
  {
    AllZero(b);
    DivModUnique(0, Pow2(width), 0, 0);
  }

  lemma {:induction false} AllSame(c: seq<Byte>, lo: int, n: nat)
    ensures SameOutside(c, c, lo, n)
  {
  }

  lemma {:induction false} SubSlice(c: seq<Byte>, at: nat, n: nat, off: nat, k: nat)
    requires at + n <= |c| && off + k <= n
    ensures c[at..at + n][off..off + k] == c[at + off..at + off + k]
  {
    var (x, y) := (c[at..at + n][off..off + k], c[at + off..at + off + k]);
    assert |x| == |y| && forall i :: 0 <= i < k ==> x[i] == y[i];
  }

  /** Where element idx of a vector would start, also for an index that is no element. */
  function ElemOff(stride: nat, idx: int): int {
    (if idx >= 0 then 1 else -1) * Span(stride, if idx >= 0 then idx else -idx)
  }

  /** A negative index counts backwards from the register: the offset is always the index times the
      distance of the elements. */
  lemma {:induction false} ElemOffIs(stride: nat, idx: int)
    ensures ElemOff(stride, 0) == 0 && ElemOff(stride, idx + 1) == ElemOff(stride, idx) + stride
  {
    hide Span;
    if idx >= 0 {
      SpanOrder(stride, idx, idx);
    } else {
      SpanOrder(stride, -idx - 1, -idx - 1);
    }
    SpanOrder(stride, 0, 0);
  }

  /** Bytes were appended, or written over the end: below lo the old ones stay. */
  predicate IsLonger(was: seq<Byte>, now: seq<Byte>, lo: int) {
    |was| < |now| && forall k :: 0 <= k < |was| && k < lo ==> now[k] == was[k]
  }

  /** Writing behind the end of an image keeps a vector in it. */
  lemma {:induction false} AppendedElems(c: seq<Byte>, off: nat, x: seq<Byte>, at: nat, n: nat)
    requires |c| < off + |x| && |x| > 0 && at + n <= |c| && at + n <= off
    ensures IsLonger(c, SliceAssign(c, off, x), off)
    ensures at + n <= |SliceAssign(c, off, x)| && SliceAssign(c, off, x)[at..at + n] == c[at..at + n]
  {
    var c' := SliceAssign(c, off, x);
    assert forall k :: 0 <= k < |c| && k < off ==> c'[k] == c[k];
  }

  /** An index that is no element leads outside the vector. */
  lemma {:induction false} ElemOutside(stride: nat, size: nat, n: nat, idx: int)
    requires size <= stride
    ensures idx < 0 ==> ElemOff(stride, idx) + size <= 0
    ensures idx >= n ==> ElemOff(stride, idx) >= Span(stride, n)
    ensures 0 <= idx < n ==> 0 <= ElemOff(stride, idx) && ElemOff(stride, idx) + size <= Span(stride, n)
  {
    hide Span;
    SpanOrder(stride, 0, 0);
    if idx < 0 {
      SpanOrder(stride, 0, -idx);
    } else if idx >= n {
      SpanOrder(stride, n, idx);
    } else {
      ElemInside(stride, size, n, idx);
    }
  }

  /** Writing element idx of a vector at `at` in an image; the vector stays as it is when idx is no
      element of it. */
  lemma {:induction false} PatchedElems(c: seq<Byte>, at: nat, kind: Kind, width: nat, stride: nat, size: nat, n: nat,
                                        idx: int, off: nat, x: seq<Byte>, v: int)
    requires width > 0 && size <= stride && |x| == size && Decode(kind, width, x) == v
    requires off == at + ElemOff(stride, idx) && at + Span(stride, n) <= |c| && off + size <= |c|
    ensures var c' := Patch(c, off, x);
            var (was, now) := (c[at..at + Span(stride, n)], c'[at..at + Span(stride, n)]);
            SameOutside(c, c', off, size) && c'[off..off + size] == x &&
            ElemValues(now, kind, width, stride, size, n) ==
              if 0 <= idx < n then ElemValues(was, kind, width, stride, size, n)[idx := v]
              else ElemValues(was, kind, width, stride, size, n)
  {
    hide Span, ElemValues, Decode, SameOutside, Patch;
    PatchInside(c, off, x, off, size);
    WholePatch(c, off, x);
    ElemOutside(stride, size, n, idx);
    if 0 <= idx < n {
      PatchInside(c, off, x, at, Span(stride, n));
      PatchValues(c[at..at + Span(stride, n)], kind, width, stride, size, n, idx, x, v);
    } else {
      PatchElsewhere(c, off, x, at, Span(stride, n));
    }
  }

  /** The same for Python's slice assignment, which may reach behind the end of the image. */
  lemma {:induction false} AssignedElems(c: seq<Byte>, at: nat, kind: Kind, width: nat, stride: nat, size: nat, n: nat,
                                         idx: int, off: nat, x: seq<Byte>, v: int)
    requires width > 0 && 0 < size <= stride && |x| == size && Decode(kind, width, x) == v
    requires off == at + ElemOff(stride, idx) && at + Span(stride, n) <= |c|
    ensures var c' := SliceAssign(c, off, x);
            at + Span(stride, n) <= |c'| &&
            (if off + size <= |c| then |c'| == |c| && SameOutside(c, c', off, size) && SliceOf(c', off, size) == x
             else IsLonger(c, c', off)) &&
            var (was, now) := (c[at..at + Span(stride, n)], c'[at..at + Span(stride, n)]);
            ElemValues(now, kind, width, stride, size, n) ==
              if 0 <= idx < n then ElemValues(was, kind, width, stride, size, n)[idx := v]
              else ElemValues(was, kind, width, stride, size, n)
  {
    hide Span, ElemValues, Decode, SameOutside, ElemOff, IsLonger;
    if off + size <= |c| {
      PatchedElems(c, at, kind, width, stride, size, n, idx, off, x, v);
    } else {
      ElemOutside(stride, size, n, idx);
      AppendedElems(c, off, x, at, Span(stride, n));
    }
  }

  class RegVec {
    const mod: Module
    const addr: nat
    const kind: Kind
    const width: nat
    const acc: Access
    const rejected: int -> bool
    const vecLen: nat
    const elemSize: nat
    const elemOffset: nat

    ghost predicate Valid()
      reads mod
    {
      0 < width <= 8 * elemSize && elemSize <= elemOffset && mod.InImage(addr, Span(elemOffset, vecLen))
    }

    constructor (mod: Module, slot: Slot, kind: Kind, acc: Access, rejected: int -> bool)
      requires slot.shape.width > 0 && slot.shape.vecLen.Some?
      requires mod.InImage(slot.addr, Size(slot.shape, mod.byteAlign))
      ensures Valid() && this.mod == mod && addr == slot.addr && width == slot.shape.width &&
                vecLen == slot.shape.vecLen.value
      ensures this.kind == kind && this.acc == acc && this.rejected == rejected
      ensures elemSize == ElemSize(width) && elemOffset == ElemOffset(width, mod.byteAlign)
      ensures mod.byteAlign > 0 && mod.SlotInImage(slot, mod.byteAlign) ==>
                forall e :: 0 <= e < vecLen ==> ElemReachable(e)
    {
      this.mod, addr, this.kind, width, this.acc, this.rejected :=
        mod, slot.addr, kind, slot.shape.width, acc, rejected;
      vecLen, elemSize, elemOffset :=
        slot.shape.vecLen.value, ElemSize(slot.shape.width), ElemOffset(slot.shape.width, mod.byteAlign);
      new;
      hide Span, CeilMultiple, ElemSize, ElemOffset;
      if mod.byteAlign > 0 && mod.SlotInImage(slot, mod.byteAlign) {
        forall e | 0 <= e < vecLen ensures ElemReachable(e) {
          assert mod.ElemInImage(slot, e, mod.byteAlign);
        }
      }
      ElemSizes(width, mod.byteAlign);
      AtLeastElem(width, mod.byteAlign);
    }

    /** The bytes of the whole register in the image. */
    function Stored(): (b: seq<Byte>)
      requires mod.InImage(addr, Span(elemOffset, vecLen))
      reads mod
      ensures |b| == Span(elemOffset, vecLen)
    {
      mod.cache[addr - mod.baseAddr..addr - mod.baseAddr + Span(elemOffset, vecLen)]
    }

    /** The values of the elements. */
    ghost function Values(): (vs: seq<int>)
      requires Valid()
      reads mod
      ensures |vs| == vecLen
    {
      ElemValues(Stored(), kind, width, elemOffset, elemSize, vecLen)
    }

    /** Where element idx starts; the index is not checked. */
    function ElemAddr(idx: int): int {
      addr + ElemOff(elemOffset, idx)
    }

    /** The bytes of element idx in the image: fewer, or none, behind the end of the image. */
    function ElemStored(idx: int): seq<Byte>
      requires mod.baseAddr <= ElemAddr(idx)
      reads mod
    {
      SliceOf(mod.cache, ElemAddr(idx) - mod.baseAddr, elemSize)
    }

    lemma {:induction false} StoredValue(idx: int)
      requires Valid() && 0 <= idx < vecLen
      ensures mod.InImage(ElemAddr(idx), elemSize) && Values()[idx] == Decode(kind, width, ElemStored(idx))
    {
      hide Span, ElemValues, Decode;
      ElemInside(elemOffset, elemSize, vecLen, idx);
      ElemValueAt(Stored(), kind, width, elemOffset, elemSize, vecLen, idx);
      SubSlice(mod.cache, addr - mod.baseAddr, Span(elemOffset, vecLen), Span(elemOffset, idx), elemSize);
    }

    /** The value of an element; an index that is no element is not refused and gives what the
        bytes there hold. */
    method ReadIdxUintCached(idx: int) returns (v: nat)
      requires Valid() && mod.baseAddr <= ElemAddr(idx)
      ensures Decode(kind, width, ElemStored(idx)) == if kind.Sint? then CastUintToSint(v, width) else v
      ensures 0 <= idx < vecLen ==> Values()[idx] == if kind.Sint? then CastUintToSint(v, width) else v
    {
      hide Span, Pow2, CastUintToSint, FromLE, ElemValues;
      var b := mod.ReadCached(ElemAddr(idx), elemSize);
      if 0 <= idx < vecLen {
        StoredValue(idx);
      }
      v := FromLE(b) % Pow2(width);
    }

    method ReadIdxSintCached(idx: int) returns (v: int)
      requires Valid() && mod.baseAddr <= ElemAddr(idx)
      ensures kind.Sint? ==> v == Decode(kind, width, ElemStored(idx)) && (0 <= idx < vecLen ==> v == Values()[idx])
    {
      hide Span, Pow2, CastUintToSint, Decode, ElemValues;
      var u := ReadIdxUintCached(idx);
      v := CastUintToSint(u, width);
    }

    /** Writes element idx: exactly the writable values go through, the element then has the
        new value and every other one its old value; no byte outside the element changes, and
        none at all when the write fails. The index is not checked: for one that is no element
        the write goes to bytes around the register, and behind the end of the image it makes
        the image longer. */
    method WriteIdxIntCached(idx: int, v: int, signed: bool) returns (r: Result<(), WriteError>)
      requires Valid() && mod.baseAddr <= ElemAddr(idx)
      modifies mod`cache
      ensures Valid()
      ensures r.Ok? <==> CanWrite(kind, width, rejected, acc, v, elemSize, signed)
      ensures r.Ok? ==> Values() == if 0 <= idx < vecLen then old(Values())[idx := v] else old(Values())
      ensures old(mod.InImage(ElemAddr(idx), elemSize)) ==>
                |mod.cache| == |old(mod.cache)| &&
                SameOutside(old(mod.cache), mod.cache, ElemAddr(idx) - mod.baseAddr, elemSize) &&
                (r.Ok? ==> Decode(kind, width, ElemStored(idx)) == v)
      ensures r.Ok? && !old(mod.InImage(ElemAddr(idx), elemSize)) ==>
                IsLonger(old(mod.cache), mod.cache, ElemAddr(idx) - mod.baseAddr)
      ensures r == Err(DoesNotFit) <==> !Fits(kind, width, v)
      ensures r == Err(CheckFails) <==> Fits(kind, width, v) && rejected(v)
      ensures r.Err? ==> mod.cache == old(mod.cache)
    {
      hide Decode, ToBytes, CanWrite, MayWrite, Fits, Span, SameOutside, ElemValues, Patch, IsLonger, ElemOff;
      hide FromLE, SliceAssign, SliceOf, StaleIn, Addresses;
      CheckedIff(kind, width, rejected, acc, v, elemSize, signed);
      AllSame(mod.cache, ElemAddr(idx) - mod.baseAddr, elemSize);
      var b := Checked(kind, width, rejected, v, elemSize, signed);
      if b.Err? {
        return Err(b.error);
      }
      if !MayWrite(acc, b.value) {
        return Err(NotWritable);
      }
      ghost var (at, off) := (addr - mod.baseAddr, ElemAddr(idx) - mod.baseAddr);
      AssignedElems(mod.cache, at, kind, width, elemOffset, elemSize, vecLen, idx, off, b.value, v);
      mod.WriteBytesCached(ElemAddr(idx), b.value);
      return Ok(());
    }

    /** The device access to element idx lies in the module image. */
    predicate ElemReachable(idx: int)
      requires mod.byteAlign > 0
      reads mod
    {
      mod.useCache || ElemAddr(idx) % mod.byteAlign != 0 || mod.InImage(ElemAddr(idx), mod.OpSize(elemSize))
    }

    /** Writes the bytes of element idx in the image to the device. */
    method WriteIdxCache(idx: int) returns (r: Result<(), WriteError>)
      requires Valid() && mod.Valid() && mod.InImage(ElemAddr(idx), elemSize) && ElemReachable(idx)
      modifies mod`cache, mod.regio.device
      ensures mod.cache == old(mod.cache)
      ensures r.Ok? <==> mod.useCache || ElemAddr(idx) % mod.byteAlign == 0
      ensures mod.useCache || r.Err? ==> mod.regio.device.mem == old(mod.regio.device.mem)
      ensures !mod.useCache && r.Ok? ==>
        mod.regio.device.mem == old(mod.regio.device.mem) +
          Written(ElemAddr(idx),
            mod.cache[ElemAddr(idx) - mod.baseAddr..ElemAddr(idx) - mod.baseAddr + mod.OpSize(elemSize)]) &&
        mod.Stale() == old(mod.Stale()) - Addresses(ElemAddr(idx), mod.OpSize(elemSize))
    {
      hide CeilMultiple, Patch, Written, StaleIn, Addresses, Span, IsPow2;
      var b := mod.ReadCached(ElemAddr(idx), elemSize);
      SliceAssigned(mod.cache, ElemAddr(idx) - mod.baseAddr, elemSize);
      var w := mod.WriteBytes(ElemAddr(idx), b);
      return if w.Ok? then Ok(()) else Err(Misaligned);
    }

    /** Writes element idx to the image and, padded, to the device: the device then holds the
        image bytes there, and where both agreed before it changes in this element only. */
    method WriteIdxInt(idx: int, v: int, signed: bool) returns (r: Result<(), WriteError>)
      requires Valid() && mod.Valid() && mod.InImage(ElemAddr(idx), elemSize) && ElemReachable(idx)
      modifies mod`cache, mod.regio.device
      ensures Valid() && mod.Valid() && |mod.cache| == |old(mod.cache)|
      ensures r.Ok? <==> CanWrite(kind, width, rejected, acc, v, elemSize, signed) &&
                         (mod.useCache || ElemAddr(idx) % mod.byteAlign == 0)
      ensures CanWrite(kind, width, rejected, acc, v, elemSize, signed) ==>
                Decode(kind, width, ElemStored(idx)) == v &&
                Values() == if 0 <= idx < vecLen then old(Values())[idx := v] else old(Values())
      ensures !CanWrite(kind, width, rejected, acc, v, elemSize, signed) ==> mod.cache == old(mod.cache)
      ensures SameOutside(old(mod.cache), mod.cache, ElemAddr(idx) - mod.baseAddr, elemSize)
      ensures r.Ok? && !mod.useCache ==>
                mod.Stale() == old(mod.Stale()) - Addresses(ElemAddr(idx), mod.OpSize(elemSize))
      ensures r.Ok? && !mod.useCache && old(mod.Stale()) !! Addresses(ElemAddr(idx), mod.OpSize(elemSize)) ==>
        mod.regio.device.mem == old(mod.regio.device.mem) + Written(ElemAddr(idx), ElemStored(idx))
      ensures mod.useCache || r.Err? ==> mod.regio.device.mem == old(mod.regio.device.mem)
    {
      hide CeilMultiple, Patch, Written, StaleIn, Addresses, CanWrite, SameOutside, IsPow2, Span, ElemValues;
      ghost var (was, mem, off) := (mod.cache, mod.regio.device.mem, ElemAddr(idx) - mod.baseAddr);
      r := WriteIdxIntCached(idx, v, signed);
      if r.Err? {
        return;
      }
      InsideIsPatch(was, mod.cache, off, elemSize);
      r := WriteIdxCache(idx);
      if r.Ok? && !mod.useCache {
        PaddedWrite(mem, mod.baseAddr, was, off, ElemStored(idx), mod.OpSize(elemSize));
      }
    }

    /** All elements, read in chunks of the element distance: the values of the elements exactly
        when they are narrower than their storage or the padding is zero. */
    method ReadListUintCached() returns (r: seq<nat>)
      requires Valid()
      ensures |r| == vecLen
      ensures forall i :: 0 <= i < vecLen ==> ReadsChunk(r[i], Stored(), elemOffset, i, width, elemSize)
      ensures !kind.Sint? ==>
                (r == Values() <==> 8 * elemSize != width || PaddingIsZero(Stored(), elemOffset, elemSize, vecLen))
    {
      hide ChunkUint, Span, ElemValues, PaddingIsZero;
      var b := mod.ReadCached(addr, Span(elemOffset, vecLen));
      r := [];
      for i := 0 to vecLen
        invariant |r| == i
        invariant forall k :: 0 <= k < i ==> ReadsChunk(r[k], b, elemOffset, k, width, elemSize)
      {
        SpanOrder(elemOffset, i, vecLen);
        r := r + [ChunkUint(b[Span(elemOffset, i)..Span(elemOffset, i) + elemOffset], width, elemSize)];
      }
      if !kind.Sint? {
        ListIsValuesIff(r, b, kind, width, elemOffset, elemSize, vecLen);
      }
    }

    /** All elements, signed: the values of the elements exactly when they are narrower than their
        storage or the padding is zero, or 1 behind a non-negative element. */
    method ReadListSintCached() returns (r: seq<int>)
      requires Valid()
      ensures |r| == vecLen
      ensures kind.Sint? ==>
                (r == Values() <==>
                  8 * elemSize != width || PaddingIsSigned(Stored(), width, elemOffset, elemSize, vecLen))
    {
      hide ChunkUint, Span, ElemValues, PaddingIsSigned;
      var u := ReadListUintCached();
      r := [];
      for i := 0 to vecLen
        invariant |r| == i
        invariant forall k :: 0 <= k < i ==> r[k] == CastUintToSint(u[k], width)
      {
        r := r + [CastUintToSint(u[i], width)];
      }
      if kind.Sint? {
        forall i | 0 <= i < vecLen ensures ReadsValue(r[i], Stored(), kind, elemOffset, i, width, elemSize) {
          assert ReadsChunk(u[i], Stored(), elemOffset, i, width, elemSize);
        }
        ListIsValuesIff(r, Stored(), kind, width, elemOffset, elemSize, vecLen);
      }
    }

    /** Writes a list from element 0 on. Exactly the lists of writable values that are no longer
        than the register go through; the other elements and all padding become zero. A
        rejected list changes nothing. */
    method WriteListIntCached(values: seq<int>, signed: bool) returns (r: Result<(), WriteError>)
      requires Valid()
      modifies mod`cache
      ensures Valid()
      ensures r.Ok? <==> ListWritable(kind, width, rejected, acc, values, elemSize, signed) && |values| <= vecLen
      ensures r == Err(CheckFails) <==> exists i :: 0 <= i < |values| && rejected(values[i])
      ensures r == Err(DoesNotFit) <==>
                r != Err(CheckFails) && exists i :: 0 <= i < |values| && !Fits(kind, width, values[i])
      ensures r.Ok? ==>
                Values() == values + Zeros(vecLen - |values|) &&
                PaddingIsZero(Stored(), elemOffset, elemSize, vecLen)
      ensures SameOutside(old(mod.cache), mod.cache, addr - mod.baseAddr, Span(elemOffset, vecLen))
      ensures r.Err? ==> mod.cache == old(mod.cache)
    {
      hide Decode, ToBytes, MayWrite, Fits, Span, SameOutside, ElemValues, Packed, PaddingIsZero;
      AllSame(mod.cache, addr - mod.baseAddr, Span(elemOffset, vecLen));
      for i := 0 to |values|
        invariant forall k :: 0 <= k < i ==> !rejected(values[k])
      {
        if rejected(values[i]) {
          return Err(CheckFails);
        }
      }
      for i := 0 to |values|
        invariant forall k :: 0 <= k < i ==> Fits(kind, width, values[k])
      {
        if !Fits(kind, width, values[i]) {
          return Err(DoesNotFit);
        }
      }
      var b := ListIntToBytes(elemOffset, elemSize, vecLen, values, signed);
      ListWritableIff(kind, width, rejected, acc, values, elemSize, signed, elemOffset, vecLen, b);
      if b.None? {
        return Err(Overflows);
      }
      if !MayWrite(acc, b.value) {
        return Err(NotWritable);
      }
      if |b.value| != Span(elemOffset, vecLen) {
        return Err(WrongLength);
      }
      PackedValues(b.value, kind, width, elemOffset, elemSize, vecLen, values, signed);
      PatchInside(mod.cache, addr - mod.baseAddr, b.value, addr - mod.baseAddr, Span(elemOffset, vecLen));
      WholePatch(mod.cache, addr - mod.baseAddr, b.value);
      mod.WriteBytesCached(addr, b.value);
      return Ok(());
    }
  }
}
