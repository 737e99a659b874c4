/** A memory outside the register area, with a write-through cache of all its bytes. */
module ExternalMem {
  import opened Wrappers
  import opened Bytes
  import opened Bits
  import opened Widths
  import opened Layout
  import opened Regions
  import opened RegModule
  import opened RegCodec
  import Regio

  datatype MemError = SizeAssertion | DeviceError | OverflowError | LengthAssertion

  /** How element reads turn stored bytes into a value: without masking. */
  function ReadElem(kind: Kind, width: nat, b: seq<Byte>): int
    requires width > 0
  {
    if kind.Sint? then CastUintToSint(FromLE(b), width) else FromLE(b)
  }

  /** An unsigned element always reads back. */
  lemma {:induction false} UnsignedElemReadsBack(kind: Kind, width: nat, v: int, size: nat)
    requires width > 0 && !kind.Sint? && ToBytes(v, size, false).Some?
    ensures ReadElem(kind, width, ToBytes(v, size, false).value) == v
  {
    UnsignedBytes(v, size);
  }

  /** Main result: a signed element reads back exactly when its width fills the storage or the
      value is in the non-negative half of the width - the read extends the sign of bit
      width - 1 without masking the sign bits stored above it. */
  lemma {:induction false} SignedElemReadsBackIff(width: nat, v: int, size: nat)
    requires 0 < width <= 8 * size && ToBytes(v, size, true).Some?
    ensures ReadElem(Sint, width, ToBytes(v, size, true).value) == v <==> width == 8 * size || 0 <= v < Pow2(width - 1)
  {
    hide ToLE, FromLE;
    BaseIsPow2(size);
    Pow2Double(8 * size);
    Pow2Double(width);
    ReadsBackLE(if v < 0 then v + Pow2(8 * size) else v, size);
    Pow2Mono(width, 8 * size);
    Pow2Order(8 * size, width);
  }

  /** -1 in a 12-bit element of two bytes reads as 61439. */
  lemma {:induction false} NarrowSignExample()
    ensures ToBytes(-1, 2, true).Some? && ReadElem(Sint, 12, ToBytes(-1, 2, true).value) == 61439
  {
    assert Pow2(4) == 16;
    SmallPowers();
    Pow2Add(8, 4);
    Pow2Add(8, 3);
    Pow2Add(8, 8);
    Pow2Double(16);
    WordSizes();
    ReadsBackLE(65535, 2);
  }

  class ExternalMemCached {
    const device: Regio.Device
    const baseAddr: nat
    const size: nat
    var cache: seq<Byte>

    ghost predicate Valid()
      reads this
    {
      |cache| == size
    }

    /** Where cache and device differ. */
    ghost function Stale(): set<int>
      reads this, device
    {
      StaleIn(device.mem, baseAddr, cache)
    }

    constructor (device: Regio.Device, baseAddr: nat, size: nat)
      ensures Valid() && this.device == device && this.baseAddr == baseAddr && this.size == size
      ensures forall i :: 0 <= i < size ==> cache[i] == 0
    {
      this.device, this.baseAddr, this.size := device, baseAddr, size;
      cache := seq(size, i => 0);
    }

    method WriteCached(addr: nat, data: seq<Byte>) returns (r: Result<(), MemError>)
      requires Valid()
      modifies this`cache
      ensures Valid()
      ensures r.Ok? <==> addr + |data| <= size
      ensures r.Ok? ==> cache == Patch(old(cache), addr, data)
      ensures r.Err? ==> cache == old(cache) && r.error == SizeAssertion
      ensures Stale() <= old(Stale()) + Addresses(baseAddr + addr, |data|)
    {
      if addr + |data| > size {
        return Err(SizeAssertion);
      }
      PatchStales(device.mem, baseAddr, cache, addr, data);
      cache := Patch(cache, addr, data);
      return Ok(());
    }

    /** Reads the cache; where nothing is stale these are the bytes the device holds. */
    method ReadCached(addr: nat, n: nat) returns (r: Result<seq<Byte>, MemError>)
      requires Valid()
      ensures r == if addr + n <= size then Ok(cache[addr..addr + n]) else Err(SizeAssertion)
      ensures r.Ok? && Stale() !! Addresses(baseAddr + addr, n) ==>
        Covers(device.mem, baseAddr + addr, n) && r.value == Slice(device.mem, baseAddr + addr, n)
    {
      hide StaleIn, Addresses, Covers, Slice;
      if addr + n > size {
        return Err(SizeAssertion);
      }
      if Stale() !! Addresses(baseAddr + addr, n) {
        FreshIsStored(device.mem, baseAddr, cache, addr, n);
      }
      return Ok(cache[addr..addr + n]);
    }

    /** Writes to the device and through to the cache: the range is fresh afterwards, and no
        other byte becomes stale. */
    method DevWrite(addr: nat, data: seq<Byte>) returns (r: Result<(), MemError>)
      requires Valid()
      modifies this`cache, device
      ensures Valid()
      ensures r.Ok? <==> addr + |data| <= size
      ensures r.Ok? ==>
                device.mem == old(device.mem) + Written(baseAddr + addr, data) &&
                cache == Patch(old(cache), addr, data)
      ensures r.Ok? ==> Stale() == old(Stale()) - Addresses(baseAddr + addr, |data|)
      ensures r.Err? ==> device.mem == old(device.mem) && cache == old(cache)
    {
      hide StaleIn, Written, Addresses;
      if addr + |data| > size {
        return Err(SizeAssertion);
      }
      PaddedWrite(device.mem, baseAddr, cache, addr, data, |data|);
      WholePatch(cache, addr, data);
      device.DevWrite(baseAddr + addr, data);
      r := WriteCached(addr, data);
    }

    /** Reads from the device into the cache. */
    method DevRead(addr: nat, n: nat) returns (r: Result<seq<Byte>, MemError>)
      requires Valid()
      modifies this`cache, device`log
      ensures Valid()
      ensures r.Ok? <==> addr + n <= size && Covers(device.mem, baseAddr + addr, n)
      ensures r.Ok? ==> r.value == Slice(device.mem, baseAddr + addr, n) && cache == Patch(old(cache), addr, r.value)
      ensures r.Ok? ==> Stale() == old(Stale()) - Addresses(baseAddr + addr, n)
      ensures r.Err? ==> cache == old(cache)
    {
      hide StaleIn, Slice, Covers, Addresses;
      if addr + n > size {
        return Err(SizeAssertion);
      }
      var data := device.DevRead(baseAddr + addr, n);
      if data.None? {
        return Err(DeviceError);
      }
      ReadRefreshes(device.mem, baseAddr, cache, addr, n);
      var w := WriteCached(addr, data.value);
      return Ok(data.value);
    }
  }

  // ------------------------------------------------------------------ runs of accesses

  /** What may be stale after an access: one that fails changes nothing. */
  function MemStaleAfter(stale: set<int>, base: nat, a: RegAccess, ok: bool): set<int> {
    if !ok then stale
    else if a.CachedWrite? then stale + Addresses(base + a.addr, Length(a))
    else stale - Addresses(base + a.addr, Length(a))
  }

  function MemStaleAfterAll(stale: set<int>, base: nat, accesses: seq<RegAccess>, oks: seq<bool>): set<int>
    requires |oks| == |accesses|
  {
    if accesses == [] then stale
    else
      var n := |accesses| - 1;
      MemStaleAfter(MemStaleAfterAll(stale, base, accesses[..n], oks[..n]), base, accesses[n], oks[n])
  }

  /** A write that stays in the cache leaves x stale. */
  predicate MemLeaves(base: nat, a: RegAccess, ok: bool, x: int) {
    a.CachedWrite? && ok && base + a.addr <= x < base + a.addr + |a.data|
  }

  /** A device access comes over x. */
  predicate MemClears(base: nat, a: RegAccess, ok: bool, x: int) {
    !a.CachedWrite? && ok && base + a.addr <= x < base + a.addr + Length(a)
  }

  predicate NoneMemClears(base: nat, accesses: seq<RegAccess>, oks: seq<bool>, i: nat, x: int)
    requires |oks| == |accesses|
  {
    forall j :: i <= j < |accesses| ==> !MemClears(base, accesses[j], oks[j], x)
  }

  /** Main result: what may be stale after a run is exactly what was before it, or what some write
      left in the cache, and no device access came over since. */
  lemma {:induction false} MemStaleIff(stale: set<int>, base: nat, accesses: seq<RegAccess>, oks: seq<bool>, x: int)
    requires |oks| == |accesses|
    ensures x in MemStaleAfterAll(stale, base, accesses, oks) <==>
            (x in stale && NoneMemClears(base, accesses, oks, 0, x)) ||
            exists i :: 0 <= i < |accesses| && MemLeaves(base, accesses[i], oks[i], x) &&
                        NoneMemClears(base, accesses, oks, i + 1, x)
    decreases |accesses|
  {
    if accesses != [] {
      var n := |accesses| - 1;
      var (init, done) := (accesses[..n], oks[..n]);
      MemStaleIff(stale, base, init, done, x);
      forall i | 0 <= i <= n
        ensures NoneMemClears(base, accesses, oks, i, x) <==>
                NoneMemClears(base, init, done, i, x) && !MemClears(base, accesses[n], oks[n], x)
      {
        NoneMemClearsStep(base, accesses, oks, i, x);
      }
      LastMemStale(MemStaleAfterAll(stale, base, init, done), base, accesses[n], oks[n], x);
      hide MemStaleAfter, MemLeaves, MemClears, NoneMemClears;
      NoMemBehind(base, accesses, oks, x);
    }
  }

  lemma {:induction false} NoMemBehind(base: nat, accesses: seq<RegAccess>, oks: seq<bool>, x: int)
    requires |oks| == |accesses|
    ensures NoneMemClears(base, accesses, oks, |accesses|, x)
  {
  }

  lemma {:induction false} NoneMemClearsStep(base: nat, accesses: seq<RegAccess>, oks: seq<bool>, i: nat, x: int)
    requires |oks| == |accesses| > 0 && i < |accesses|
    ensures var n := |accesses| - 1;
            NoneMemClears(base, accesses, oks, i, x) <==>
            NoneMemClears(base, accesses[..n], oks[..n], i, x) && !MemClears(base, accesses[n], oks[n], x)
  {
    hide MemClears;
    var n := |accesses| - 1;
    if NoneMemClears(base, accesses[..n], oks[..n], i, x) && !MemClears(base, accesses[n], oks[n], x) {
      forall j | i <= j < |accesses| ensures !MemClears(base, accesses[j], oks[j], x) {
        assert j < n ==> accesses[..n][j] == accesses[j] && oks[..n][j] == oks[j];
      }
    }
    if NoneMemClears(base, accesses, oks, i, x) {
      forall j | i <= j < n ensures !MemClears(base, accesses[..n][j], oks[..n][j], x) {
        assert !MemClears(base, accesses[j], oks[j], x);
      }
    }
  }

  lemma {:induction false} LastMemStale(stale: set<int>, base: nat, a: RegAccess, ok: bool, x: int)
    ensures x in MemStaleAfter(stale, base, a, ok) <==>
            MemLeaves(base, a, ok, x) || (x in stale && !MemClears(base, a, ok, x))
  {
  }

  method MemAccess(m: ExternalMemCached, a: RegAccess) returns (ok: bool)
    requires m.Valid()
    modifies m`cache, m.device
    ensures m.Valid()
    ensures m.Stale() <= MemStaleAfter(old(m.Stale()), m.baseAddr, a, ok)
    ensures ok <==> a.addr + Length(a) <= m.size &&
                    (a.DeviceRead? ==> Covers(old(m.device.mem), m.baseAddr + a.addr, Length(a)))
    ensures a.DeviceRead? || a.CachedWrite? ==> m.device.mem == old(m.device.mem)
  {
    hide StaleIn, Addresses, Covers, Slice, Written, Patch;
    match a {
      case DeviceRead(addr, size) =>
        var r := m.DevRead(addr, size);
        ok := r.Ok?;
      case DeviceWrite(addr, data) =>
        var r := m.DevWrite(addr, data);
        ok := r.Ok?;
      case CachedWrite(addr, data) =>
        var r := m.WriteCached(addr, data);
        ok := r.Ok?;
    }
  }

  /** Main result, for every run of accesses to a cached memory: cache and device differ at most
      where a write stayed in the cache and no device access came over it since. Without such
      writes they never differ more than before, whatever failed. */
  method RunMemAccesses(m: ExternalMemCached, accesses: seq<RegAccess>) returns (oks: seq<bool>)
    requires m.Valid()
    modifies m`cache, m.device
    ensures m.Valid() && |oks| == |accesses|
    ensures m.Stale() <= MemStaleAfterAll(old(m.Stale()), m.baseAddr, accesses, oks)
    ensures (forall i :: 0 <= i < |accesses| ==> !accesses[i].CachedWrite?) ==> m.Stale() <= old(m.Stale())
    ensures forall i :: 0 <= i < |accesses| && !accesses[i].DeviceRead? ==>
              (oks[i] <==> accesses[i].addr + Length(accesses[i]) <= m.size)
  {
    hide StaleIn, MemStaleAfter, MemStaleAfterAll, Covers;
    oks := [];
    NoMemAccesses(m.Stale(), m.baseAddr, accesses, oks);
    for i := 0 to |accesses|
      invariant m.Valid() && |oks| == i
      invariant m.Stale() <= MemStaleAfterAll(old(m.Stale()), m.baseAddr, accesses[..i], oks)
      invariant forall j :: 0 <= j < i && !accesses[j].DeviceRead? ==>
                  (oks[j] <==> accesses[j].addr + Length(accesses[j]) <= m.size)
    {
      ghost var stale := m.Stale();
      var ok := MemAccess(m, accesses[i]);
      MemStaleStep(old(m.Stale()), stale, m.baseAddr, accesses, i, oks, ok);
      oks := oks + [ok];
    }
    assert accesses[..|accesses|] == accesses;
    if forall i :: 0 <= i < |accesses| ==> !accesses[i].CachedWrite? {
      NeverStaler(old(m.Stale()), m.baseAddr, accesses, oks);
    }
  }

  lemma {:induction false} NoMemAccesses(stale: set<int>, base: nat, accesses: seq<RegAccess>, oks: seq<bool>)
    requires oks == []
    ensures MemStaleAfterAll(stale, base, accesses[..0], oks) == stale
  {
  }

  lemma {:induction false} MemStaleStep(stale0: set<int>, stale: set<int>, base: nat, accesses: seq<RegAccess>,
                                        i: nat, oks: seq<bool>, ok: bool)
    requires i < |accesses| && |oks| == i
    requires stale <= MemStaleAfterAll(stale0, base, accesses[..i], oks)
    ensures MemStaleAfter(stale, base, accesses[i], ok) <=
            MemStaleAfterAll(stale0, base, accesses[..i + 1], oks + [ok])
  {
    hide Addresses;
    assert accesses[..i + 1][..i] == accesses[..i] && (oks + [ok])[..i] == oks;
  }

  lemma {:induction false} NeverStaler(stale: set<int>, base: nat, accesses: seq<RegAccess>, oks: seq<bool>)
    requires |oks| == |accesses| && forall i :: 0 <= i < |accesses| ==> !accesses[i].CachedWrite?
    ensures MemStaleAfterAll(stale, base, accesses, oks) <= stale
    decreases |accesses|
  {
    hide Addresses;
    if accesses != [] {
      NeverStaler(stale, base, accesses[..|accesses| - 1], oks[..|oks| - 1]);
    }
  }

  /** A cached memory of n values of one type, packed without padding. */
  class ExternalMemVec {
    const mem: ExternalMemCached
    const kind: Kind
    const width: nat
    const vecLen: nat
    const elemSize: nat

    ghost predicate Valid()
      reads mem
    {
      mem.Valid() && 0 < width <= 8 * elemSize && mem.size == Span(elemSize, vecLen)
    }

    constructor (mem: ExternalMemCached, kind: Kind, width: nat, vecLen: nat)
      requires mem.Valid() && width > 0 && mem.size == Span(ElemSize(width), vecLen)
      ensures Valid() && this.mem == mem && this.kind == kind && this.width == width && this.vecLen == vecLen
    {
      this.mem, this.kind, this.width, this.vecLen, elemSize := mem, kind, width, vecLen, ElemSize(width);
      new;
      ElemSizes(width, 1);
    }

    /** The bytes of the elements. */
    ghost function Elems(): (es: seq<seq<Byte>>)
      requires Valid()
      reads mem
      ensures |es| == vecLen
    {
      ElemsOf(mem.cache, elemSize, vecLen)
    }

    method ReadIdxCached(idx: nat) returns (r: Result<int, MemError>)
      requires Valid()
      ensures r == if idx < vecLen then Ok(ReadElem(kind, width, Elems()[idx])) else Err(SizeAssertion)
    {
      hide ReadElem, Span;
      BehindElems(elemSize, vecLen, idx);
      var b := mem.ReadCached(Span(elemSize, idx), elemSize);
      if b.Err? {
        return Err(b.error);
      }
      return Ok(ReadElem(kind, width, b.value));
    }

    /** Writes element idx in the cache: exactly the values that can be stored go through, for the
        elements there are, and the other elements keep their bytes. */
    method WriteIdxCached(idx: nat, v: int, signed: bool) returns (r: Result<(), MemError>)
      requires Valid()
      modifies mem`cache
      ensures Valid()
      ensures r.Ok? <==> ToBytes(v, elemSize, signed).Some? && idx < vecLen
      ensures r == Err(OverflowError) <==> ToBytes(v, elemSize, signed).None?
      ensures r == Err(SizeAssertion) <==> ToBytes(v, elemSize, signed).Some? && idx >= vecLen
      ensures r.Ok? ==> Elems() == old(Elems())[idx := ToBytes(v, elemSize, signed).value]
      ensures r.Err? ==> mem.cache == old(mem.cache)
    {
      hide ToBytes, ElemsOf, Span;
      var b := ToBytes(v, elemSize, signed);
      if b.None? {
        return Err(OverflowError);
      }
      BehindElems(elemSize, vecLen, idx);
      if idx < vecLen {
        PatchElems(mem.cache, elemSize, vecLen, idx, b.value);
      }
      r := mem.WriteCached(Span(elemSize, idx), b.value);
    }
  }

  lemma {:induction false} BehindElems(size: nat, n: nat, idx: nat)
    requires size > 0
    ensures Span(size, idx) + size <= Span(size, n) <==> idx < n
  {
    hide Span;
    SpanOrder(size, idx, n);
    SpanOrder(size, n, idx);
  }

  function ElemsOf(b: seq<Byte>, size: nat, n: nat): (es: seq<seq<Byte>>)
    ensures |es| == n
  {
    seq(n, i requires 0 <= i => ElemOrNone(b, size, i))
  }

  function ElemOrNone(b: seq<Byte>, size: nat, i: nat): seq<Byte> {
    if Span(size, i) + size <= |b| then ElemBytes(b, 0, size, size, i) else []
  }

  lemma {:induction false} PatchElems(b: seq<Byte>, size: nat, n: nat, idx: nat, x: seq<Byte>)
    requires |b| == Span(size, n) && idx < n && |x| == size
    ensures Span(size, idx) + size <= |b|
    ensures ElemsOf(Patch(b, Span(size, idx), x), size, n) == ElemsOf(b, size, n)[idx := x]
  {
    hide Span, Patch;
    ElemInside(size, size, n, idx);
    forall j | 0 <= j < n
      ensures ElemsOf(Patch(b, Span(size, idx), x), size, n)[j] == ElemsOf(b, size, n)[idx := x][j]
    {
      PatchElem(b, 0, size, size, n, idx, x, j);
    }
  }
}
