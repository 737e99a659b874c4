/** A module of a register map: its byte image, its registers laid out in it, and the device
    accesses that keep image and device in step. */
module RegModule {
  import opened Wrappers
  import opened Bytes
  import opened Regions
  import opened Widths
  import opened Layout
  import Bits
  import Regio

  datatype Error = AssertionFails | DeviceFails

  const SIZE_WORD: nat := 4

  /** c with b written over it at off. */
  function Patch(c: seq<Byte>, off: nat, b: seq<Byte>): (r: seq<Byte>)
    requires off + |b| <= |c|
    ensures |r| == |c|
  {
    c[..off] + b + c[off + |b|..]
  }

  lemma {:induction false} PatchAt(c: seq<Byte>, off: nat, b: seq<Byte>, k: nat)
    requires off + |b| <= |c| && k < |c|
    ensures Patch(c, off, b)[k] == if off <= k < off + |b| then b[k - off] else c[k]
  {
  }

  /** Python's c[off:off + n]. */
  function SliceOf(c: seq<Byte>, off: nat, n: nat): seq<Byte> {
    if off + n <= |c| then c[off..off + n]
    else if off <= |c| then c[off..]
    else []
  }

  /** Python's c[off:off + |b|] = b. */
  function SliceAssign(c: seq<Byte>, off: nat, b: seq<Byte>): seq<Byte> {
    if off + |b| <= |c| then Patch(c, off, b)
    else if off <= |c| then c[..off] + b
    else c + b
  }

  /** Python slices: what was assigned reads back, bytes around it stay, and a slice that reaches
      behind the end makes the bytes longer by what does not fit. */
  lemma {:induction false} SliceLaws(c: seq<Byte>, off: nat, b: seq<Byte>, k: nat)
    ensures off <= |c| ==> SliceOf(SliceAssign(c, off, b), off, |b|) == b
    ensures off <= |c| ==> |SliceAssign(c, off, b)| == if off + |b| <= |c| then |c| else off + |b|
    ensures off > |c| ==> SliceAssign(c, off, b) == c + b && SliceOf(c, off, |b|) == []
    ensures k < |c| && !(off <= k < off + |b|) ==>
              k < |SliceAssign(c, off, b)| && SliceAssign(c, off, b)[k] == c[k]
    ensures |SliceOf(c, off, k)| == if off + k <= |c| then k else if off <= |c| then |c| - off else 0
  {
  }

  /** The addresses of an image at base whose byte is not the one the device holds. */
  function StaleIn(mem: ByteMap, base: nat, image: seq<Byte>): set<int> {
    set a | a in Addresses(base, |image|) && !(a in mem && mem[a] == image[a - base])
  }

  // ------------------------------------------------------------------ image and device

  /** A change of the image alone can only make the bytes it writes stale. */
  lemma {:induction false} PatchStales(mem: ByteMap, base: nat, c: seq<Byte>, off: nat, b: seq<Byte>)
    requires off + |b| <= |c|
    ensures StaleIn(mem, base, Patch(c, off, b)) <= StaleIn(mem, base, c) + Addresses(base + off, |b|)
    ensures StaleIn(mem, base, c) <= StaleIn(mem, base, Patch(c, off, b)) + Addresses(base + off, |b|)
  {
  }

  /** Taking a range over from the device refreshes exactly that range. */
  lemma {:induction false} ReadRefreshes(mem: ByteMap, base: nat, c: seq<Byte>, off: nat, n: nat)
    requires off + n <= |c| && Covers(mem, base + off, n)
    ensures StaleIn(mem, base, Patch(c, off, Slice(mem, base + off, n))) ==
              StaleIn(mem, base, c) - Addresses(base + off, n)
  {
    var b := Slice(mem, base + off, n);
    forall a | a in Addresses(base + off, n) ensures Patch(c, off, b)[a - base] == mem[a] {
      assert b[a - base - off] == mem[base + off + (a - base - off)];
    }
  }

  /** ... and so does writing a range of the image to the device. */
  lemma {:induction false} WriteRefreshes(mem: ByteMap, base: nat, c: seq<Byte>, off: nat, n: nat)
    requires off + n <= |c|
    ensures StaleIn(mem + Written(base + off, c[off..off + n]), base, c) ==
              StaleIn(mem, base, c) - Addresses(base + off, n)
  {
  }

  /** Padding a write with image bytes that are not stale changes nothing else on the device. */
  lemma {:induction false} PaddingIsKept(mem: ByteMap, base: nat, c: seq<Byte>, off: nat, b: seq<Byte>, n: nat)
    requires |b| <= n && off + n <= |c| && StaleIn(mem, base, c) !! Addresses(base + off, n)
    ensures mem + Written(base + off, Patch(c, off, b)[off..off + n]) == mem + Written(base + off, b)
  {
    hide Patch, Written;
    var (with, only) := (Written(base + off, Patch(c, off, b)[off..off + n]), Written(base + off, b));
    PatchedBytes(base, c, off, b, n);
    forall a | a in with && a !in only ensures a in mem && mem[a] == with[a] {
      NotStale(mem, base, c, a);
    }
    SameOverride(mem, with, only);
  }

  /** A padded write: only the bytes in the padded range stop being stale, and nothing becomes
      stale. */
  lemma {:induction false} PaddedWrite(mem: ByteMap, base: nat, c: seq<Byte>, off: nat, b: seq<Byte>, n: nat)
    requires |b| <= n && off + n <= |c|
    ensures var c' := Patch(c, off, b);
            var mem' := mem + Written(base + off, c'[off..off + n]);
            StaleIn(mem', base, c') == StaleIn(mem, base, c) - Addresses(base + off, n) &&
            (StaleIn(mem, base, c) !! Addresses(base + off, n) ==> mem' == mem + Written(base + off, b))
  {
    hide Patch, Written, StaleIn;
    WriteRefreshes(mem, base, Patch(c, off, b), off, n);
    PatchStales(mem, base, c, off, b);
    assert Addresses(base + off, |b|) <= Addresses(base + off, n);
    if StaleIn(mem, base, c) !! Addresses(base + off, n) {
      PaddingIsKept(mem, base, c, off, b, n);
    }
  }

  /** Where nothing is stale the device holds the image bytes. */
  lemma {:induction false} FreshIsStored(mem: ByteMap, base: nat, c: seq<Byte>, off: nat, n: nat)
    requires off + n <= |c| && StaleIn(mem, base, c) !! Addresses(base + off, n)
    ensures Covers(mem, base + off, n) && Slice(mem, base + off, n) == c[off..off + n]
  {
    forall a | base + off <= a < base + off + n ensures a in mem && mem[a] == c[a - base] {
      NotStale(mem, base, c, a);
    }
  }

  lemma {:induction false} SameOverride(m: ByteMap, x: ByteMap, y: ByteMap)
    requires forall a :: a in y ==> a in x && x[a] == y[a]
    requires forall a :: a in x && a !in y ==> a in m && m[a] == x[a]
    ensures m + x == m + y
  {
    forall a | a in m + x || a in m + y ensures a in m + x && a in m + y && (m + x)[a] == (m + y)[a] {
    }
  }

  lemma {:induction false} NotStale(mem: ByteMap, base: nat, c: seq<Byte>, a: int)
    requires a !in StaleIn(mem, base, c) && base <= a < base + |c|
    ensures a in mem && mem[a] == c[a - base]
  {
  }

  lemma {:induction false} PatchedBytes(base: nat, c: seq<Byte>, off: nat, b: seq<Byte>, n: nat)
    requires |b| <= n && off + n <= |c|
    ensures var (with, only) := (Written(base + off, Patch(c, off, b)[off..off + n]), Written(base + off, b));
            (forall a :: a in with <==> base + off <= a < base + off + n) &&
            (forall a :: a in only <==> base + off <= a < base + off + |b|) &&
            (forall a :: a in with ==> with[a] == if a in only then only[a] else c[a - base])
  {
  }

  lemma {:induction false} LaterEnd(slots: seq<Slot>, base: nat, first: nat, last: nat, end: nat, byteAlign: nat)
    requires byteAlign > 0 && Laid(slots, base, first, last, byteAlign) && last <= end
    ensures Laid(slots, base, first, end, byteAlign)
  {
    hide PaddedEnd, ValueAlign;
    forall i | 0 <= i < |slots| ensures InPlace(slots[i], base, first, end, byteAlign) {
    }
  }

  ghost predicate HasShapes(slots: seq<Slot>, shapes: seq<Shape>) {
    |slots| == |shapes| && forall i :: 0 <= i < |slots| ==> slots[i].shape == shapes[i]
  }

  class Module {
    const regio: Regio.Regio
    const baseAddr: nat
    var cache: seq<Byte>
    var byteIdx: nat
    var byteAlign: nat
    var useCache: bool
    var arrRegK: seq<Slot>
    var arrRegVar: seq<Slot>
    var baseAddrVar: nat
    var sizeVar: nat

    ghost predicate Valid()
      reads this, regio
    {
      regio.Valid() && IsPow2(byteAlign) && byteAlign > 0
    }

    predicate InImage(addr: int, n: nat)
      reads this
    {
      baseAddr <= addr && addr + n <= baseAddr + |cache|
    }

    /** Where image and device differ. */
    function Stale(): set<int>
      reads this, regio.device
    {
      StaleIn(regio.device.mem, baseAddr, cache)
    }

    /** The module whose constants start at byte index first of its image. */
    constructor (regio: Regio.Regio, addr: nat, image: seq<Byte>, first: nat)
      requires regio.Valid()
      ensures Valid() && this.regio == regio && baseAddr == addr && cache == image && byteIdx == first
      ensures byteAlign == 1 && !useCache && arrRegK == [] && arrRegVar == []
    {
      this.regio, baseAddr, cache, byteIdx := regio, addr, image, first;
      byteAlign, useCache, arrRegK, arrRegVar := 1, false, [], [];
      baseAddrVar, sizeVar := 0, 0;
      new;
      OneIsPow2();
    }

    // ---------------------------------------------------------------- allocation

    method ByteIdxAlignAddrWidth(width: nat)
      requires ValueAlign(width, byteAlign) > 0
      modifies `byteIdx
      ensures byteIdx == CeilMultiple(old(byteIdx), ValueAlign(width, byteAlign))
    {
      byteIdx := CeilMultiple(byteIdx, ValueAlign(width, byteAlign));
    }

    method AddRegK(s: Shape)
      requires Valid() && s.width > 0 && ValueAlign(s.width, byteAlign) > 0
      modifies `byteIdx, `arrRegK
      ensures arrRegK == old(arrRegK) + [Slot(baseAddr + PlaceAt(old(byteIdx), s, byteAlign), s)]
      ensures byteIdx == NextIdx(old(byteIdx), s, byteAlign)
    {
      hide ValueAlign, CeilMultiple, Size;
      ByteIdxAlignAddrWidth(s.width);
      arrRegK := arrRegK + [Slot(byteIdx + baseAddr, s)];
      byteIdx := byteIdx + Size(s, byteAlign);
      ByteIdxAlignAddrWidth(s.width);
    }

    method AddRegVar(s: Shape)
      requires Valid() && s.width > 0 && ValueAlign(s.width, byteAlign) > 0
      modifies `byteIdx, `arrRegVar
      ensures arrRegVar == old(arrRegVar) + [Slot(baseAddr + PlaceAt(old(byteIdx), s, byteAlign), s)]
      ensures byteIdx == NextIdx(old(byteIdx), s, byteAlign)
    {
      hide ValueAlign, CeilMultiple, Size;
      ByteIdxAlignAddrWidth(s.width);
      arrRegVar := arrRegVar + [Slot(byteIdx + baseAddr, s)];
      byteIdx := byteIdx + Size(s, byteAlign);
      ByteIdxAlignAddrWidth(s.width);
    }

    method InitRegMapK(k: seq<Shape>)
      requires Valid() && byteAlign == 1 && arrRegK == [] && Storable(k)
      modifies `byteIdx, `arrRegK
      ensures HasShapes(arrRegK, k) && Laid(arrRegK, baseAddr, old(byteIdx), byteIdx, 1)
      ensures byteIdx == EndIdx(k, old(byteIdx), 1)
    {
      hide Laid, ValueAlign, CeilMultiple, IsPow2, NextIdx, PlaceAt, Storable, EndIdx;
      ghost var first := byteIdx;
      NoneLaid(baseAddr, first, 1);
      EndIdxStep(k, 0, first, 1);
      for i := 0 to |k|
        invariant HasShapes(arrRegK, k[..i]) && Laid(arrRegK, baseAddr, first, byteIdx, 1)
        invariant byteIdx == EndIdx(k[..i], first, 1)
      {
        EndIdxStep(k, i, first, 1);
        AppendKeepsLaid(arrRegK, baseAddr, first, byteIdx, k[i], 1);
        AddRegK(k[i]);
      }
      assert k[..|k|] == k;
    }

    method InitRegMapVar(vars: seq<Shape>)
      requires Valid() && arrRegVar == [] && Storable(vars)
      modifies `byteIdx, `arrRegVar
      ensures HasShapes(arrRegVar, vars) && Laid(arrRegVar, baseAddr, old(byteIdx), byteIdx, byteAlign)
      ensures byteIdx == EndIdx(vars, old(byteIdx), byteAlign)
    {
      hide Laid, ValueAlign, CeilMultiple, IsPow2, NextIdx, PlaceAt, Storable, EndIdx;
      ghost var first := byteIdx;
      NoneLaid(baseAddr, first, byteAlign);
      EndIdxStep(vars, 0, first, byteAlign);
      for i := 0 to |vars|
        invariant HasShapes(arrRegVar, vars[..i]) && Laid(arrRegVar, baseAddr, first, byteIdx, byteAlign)
        invariant byteIdx == EndIdx(vars[..i], first, byteAlign)
      {
        EndIdxStep(vars, i, first, byteAlign);
        AppendKeepsLaid(arrRegVar, baseAddr, first, byteIdx, vars[i], byteAlign);
        AddRegVar(vars[i]);
      }
      assert vars[..|vars|] == vars;
    }

    /** Lays out the constants, then the variables under the byte alignment of the module; fails
        when either area does not end where its word count says. */
    method InitRegMap(k: seq<Shape>, vars: seq<Shape>, lenK: nat, lenVar: nat, subByteAlign: nat) returns (ok: bool)
      requires Valid() && byteAlign == 1 && arrRegK == [] && arrRegVar == [] && IsPow2(subByteAlign)
      requires Storable(k) && Storable(vars) && byteIdx % SIZE_WORD == 0
      modifies this
      ensures ok <==> CeilMultiple(EndIdx(k, old(byteIdx), 1), SIZE_WORD) == old(byteIdx) + lenK * SIZE_WORD &&
                      subByteAlign > 0 &&
                      CeilMultiple(EndIdx(vars, old(byteIdx) + lenK * SIZE_WORD, subByteAlign), SIZE_WORD) ==
                        old(byteIdx) + (lenK + lenVar) * SIZE_WORD
      ensures ok ==> Valid() && byteAlign == subByteAlign && cache == old(cache) && useCache == old(useCache)
      ensures ok ==> HasShapes(arrRegK, k) && HasShapes(arrRegVar, vars)
      ensures ok ==> baseAddrVar == baseAddr + old(byteIdx) + lenK * SIZE_WORD && sizeVar == lenVar * SIZE_WORD
      ensures ok && baseAddrVar % byteAlign == 0 && baseAddr % byteAlign == 0 ==> sizeVar % byteAlign == 0
      ensures ok ==> Laid(arrRegK, baseAddr, old(byteIdx), baseAddrVar - baseAddr, 1)
      ensures ok ==> Laid(arrRegVar, baseAddr, baseAddrVar - baseAddr, baseAddrVar - baseAddr + sizeVar, byteAlign)
      ensures ok && IsImage(old(byteIdx), lenK, lenVar) ==>
        SlotsInImage(arrRegK, 1) && SlotsInImage(arrRegVar, byteAlign) && (baseAddr % byteAlign == 0 ==> VarArea())
    {
      hide Laid, ValueAlign, CeilMultiple, IsPow2, Storable, EndIdx, HasShapes, SlotsInImage;
      ghost var first := byteIdx;
      var expected := byteIdx + lenK * SIZE_WORD;
      SomeAlign(subByteAlign);
      InitRegMapK(k);
      AreaEnd(arrRegK, k, baseAddr, first, 1);
      byteIdx := CeilMultiple(byteIdx, SIZE_WORD);
      if expected != byteIdx {
        return false;
      }
      baseAddrVar, sizeVar := byteIdx + baseAddr, lenVar * SIZE_WORD;
      ghost var firstVar := byteIdx;
      expected := byteIdx + sizeVar;
      byteAlign := subByteAlign;
      InitRegMapVar(vars);
      AreaEnd(arrRegVar, vars, baseAddr, firstVar, byteAlign);
      byteIdx := CeilMultiple(byteIdx, SIZE_WORD);
      ok := expected == byteIdx;
      if ok && IsImage(first, lenK, lenVar) {
        LaidInImage(arrRegK, first, firstVar, 1);
        LaidInImage(arrRegVar, firstVar, byteIdx, byteAlign);
      }
    }

    /** The image is as long as the word counts of the module head say, with `first` bytes in
        front of the constants: what is read when a module is made. */
    predicate IsImage(first: nat, lenK: nat, lenVar: nat)
      reads this
    {
      |cache| == first + (lenK + lenVar) * SIZE_WORD
    }

    /** Every device access to a whole register, and to every element of a vector, padded, lies in
        the image. */
    ghost predicate SlotsInImage(slots: seq<Slot>, align: nat)
      requires align > 0
      reads this
    {
      forall i :: 0 <= i < |slots| ==> SlotInImage(slots[i], align)
    }

    ghost predicate SlotInImage(slot: Slot, align: nat)
      requires align > 0
      reads this
    {
      InImage(slot.addr, CeilMultiple(Size(slot.shape, align), align)) &&
      (slot.shape.vecLen.Some? ==> forall e :: 0 <= e < slot.shape.vecLen.value ==> ElemInImage(slot, e, align))
    }

    predicate ElemInImage(slot: Slot, e: nat, align: nat)
      requires align > 0
      reads this
    {
      InImage(slot.addr + Span(ElemOffset(slot.shape.width, align), e), CeilMultiple(ElemSize(slot.shape.width), align))
    }

    lemma {:induction false} LaidInImage(slots: seq<Slot>, first: nat, last: nat, align: nat)
      requires align > 0 && IsPow2(align) && Laid(slots, baseAddr, first, last, align) && last <= |cache|
      ensures SlotsInImage(slots, align)
    {
      hide CeilMultiple, ElemOffset, ElemSize, Size, IsPow2, ValueAlign, Laid, ElemInImage;
      forall i | 0 <= i < |slots| ensures SlotInImage(slots[i], align) {
        WholeInImage(slots, first, last, align, i);
        if slots[i].shape.vecLen.Some? {
          forall e | 0 <= e < slots[i].shape.vecLen.value ensures ElemInImage(slots[i], e, align) {
            ElemIsInImage(slots, first, last, align, i, e);
          }
        }
      }
    }

    lemma {:induction false} WholeInImage(slots: seq<Slot>, first: nat, last: nat, align: nat, i: nat)
      requires align > 0 && IsPow2(align) && Laid(slots, baseAddr, first, last, align) && last <= |cache| && i < |slots|
      ensures InImage(slots[i].addr, CeilMultiple(Size(slots[i].shape, align), align))
    {
      hide CeilMultiple, Size, IsPow2, ValueAlign;
      assert InPlace(slots[i], baseAddr, first, last, align);
    }

    lemma {:induction false} ElemIsInImage(slots: seq<Slot>, first: nat, last: nat, align: nat, i: nat, e: nat)
      requires align > 0 && IsPow2(align) && Laid(slots, baseAddr, first, last, align) && last <= |cache|
      requires i < |slots| && slots[i].shape.vecLen.Some? && e < slots[i].shape.vecLen.value
      ensures ElemInImage(slots[i], e, align)
    {
      hide CeilMultiple, ElemOffset, ElemSize, Size, IsPow2, ValueAlign, Span;
      assert InPlace(slots[i], baseAddr, first, last, align);
      ElemAccess(slots, baseAddr, first, last, align, i, e);
    }

    // ---------------------------------------------------------------- accesses

    /** The size of a device access, padded up to the byte alignment. */
    function OpSize(size: nat): (n: nat)
      requires byteAlign > 0
      reads this
      ensures size <= n && n == CeilMultiple(size, byteAlign)
    {
      CeilMultipleIs(size, byteAlign);
      CeilMultiple(size, byteAlign)
    }

    /** Reads the image; where nothing is stale these are the bytes the device holds. Behind the
        end of the image there is nothing to read. */
    method ReadCached(addr: nat, size: nat) returns (b: seq<Byte>)
      requires baseAddr <= addr
      ensures b == SliceOf(cache, addr - baseAddr, size)
      ensures InImage(addr, size) && Stale() !! Addresses(addr, size) ==>
                Covers(regio.device.mem, addr, size) && b == Slice(regio.device.mem, addr, size)
    {
      hide StaleIn, Addresses, Covers, Slice;
      if InImage(addr, size) && Stale() !! Addresses(addr, size) {
        FreshIsStored(regio.device.mem, baseAddr, cache, addr - baseAddr, size);
      }
      b := SliceOf(cache, addr - baseAddr, size);
    }

    /** Writes the image; a write that reaches behind its end makes it longer. */
    method WriteBytesCached(addr: nat, b: seq<Byte>)
      requires baseAddr <= addr
      modifies `cache
      ensures cache == SliceAssign(old(cache), addr - baseAddr, b)
      ensures old(InImage(addr, |b|)) ==> Stale() <= old(Stale()) + Addresses(addr, |b|)
      ensures old(InImage(addr, |b|)) ==> old(Stale()) <= Stale() + Addresses(addr, |b|)
    {
      if InImage(addr, |b|) {
        PatchStales(regio.device.mem, baseAddr, cache, addr - baseAddr, b);
      }
      cache := SliceAssign(cache, addr - baseAddr, b);
    }

    /** Reads a register from the device into the image, padded up to the byte alignment. */
    method ReadBytes(addr: nat, size: nat) returns (r: Result<seq<Byte>, Error>)
      requires Valid() && baseAddr <= addr
      modifies `cache, regio.device`log
      ensures useCache ==> r == Ok(SliceOf(old(cache), addr - baseAddr, size)) && cache == old(cache)
      ensures !useCache ==> (r.Ok? <==> addr % byteAlign == 0 && Covers(regio.device.mem, addr, OpSize(size)))
      ensures r == Err(AssertionFails) <==> !useCache && addr % byteAlign != 0
      ensures !useCache && r.Ok? ==>
                r.value == Slice(regio.device.mem, addr, OpSize(size))[..size] &&
                cache == SliceAssign(old(cache), addr - baseAddr, Slice(regio.device.mem, addr, OpSize(size)))
      ensures !useCache && r.Ok? && old(InImage(addr, OpSize(size))) ==>
                Stale() == old(Stale()) - Addresses(addr, OpSize(size))
      ensures r.Err? ==> cache == old(cache)
    {
      hide IsPow2, CeilMultiple, StaleIn, Slice, Covers, SliceOf, Patch;
      if useCache {
        var c := ReadCached(addr, size);
        return Ok(c);
      }
      if addr % byteAlign != 0 {
        return Err(AssertionFails);
      }
      var opSize := OpSize(size);
      var b := regio.Read(addr, opSize);
      if b.None? {
        return Err(DeviceFails);
      }
      if InImage(addr, opSize) {
        ReadRefreshes(regio.device.mem, baseAddr, cache, addr - baseAddr, opSize);
      }
      WriteBytesCached(addr, b.value);
      return Ok(b.value[..size]);
    }

    /** Writes a register to the image and, padded with the image bytes behind it, to the
        device. */
    method WriteBytes(addr: nat, b: seq<Byte>) returns (r: Result<(), Error>)
      requires Valid() && baseAddr <= addr
      modifies `cache, regio.device
      ensures cache == SliceAssign(old(cache), addr - baseAddr, b)
      ensures r.Ok? <==> useCache || addr % byteAlign == 0
      ensures useCache || r.Err? ==> regio.device.mem == old(regio.device.mem)
      ensures (useCache || r.Err?) && old(InImage(addr, |b|)) ==> Stale() <= old(Stale()) + Addresses(addr, |b|)
      ensures !useCache && r.Ok? ==>
                regio.device.mem ==
                old(regio.device.mem) + Written(addr, SliceOf(cache, addr - baseAddr, OpSize(|b|)))
      ensures !useCache && r.Ok? && old(InImage(addr, OpSize(|b|))) ==>
                Stale() == old(Stale()) - Addresses(addr, OpSize(|b|)) &&
                (old(Stale()) !! Addresses(addr, OpSize(|b|)) ==>
                  regio.device.mem == old(regio.device.mem) + Written(addr, b))
    {
      hide IsPow2, CeilMultiple, StaleIn, Written, Patch, Addresses;
      ghost var was := cache;
      WriteBytesCached(addr, b);
      if useCache {
        return Ok(());
      }
      if addr % byteAlign != 0 {
        return Err(AssertionFails);
      }
      var opSize := OpSize(|b|);
      var padded := ReadCached(addr, opSize);
      if addr + opSize <= baseAddr + |was| {
        PaddedWrite(regio.device.mem, baseAddr, was, addr - baseAddr, b, opSize);
      }
      regio.Write(addr, padded);
      return Ok(());
    }

    /** The variable area as InitRegMap leaves it. */
    predicate VarArea()
      requires byteAlign > 0
      reads this
    {
      InImage(baseAddrVar, sizeVar) && (baseAddrVar % byteAlign == 0 ==> sizeVar % byteAlign == 0)
    }

    /** Reads all variables, padded up to the byte alignment; from then on image and device agree
        on them. */
    method ReadAll() returns (r: Result<(), Error>)
      requires Valid() && !useCache && baseAddr <= baseAddrVar
      modifies `cache, regio.device`log
      ensures r.Ok? <==> baseAddrVar % byteAlign == 0 && Covers(regio.device.mem, baseAddrVar, OpSize(sizeVar))
      ensures r == Err(AssertionFails) <==> baseAddrVar % byteAlign != 0
      ensures r.Ok? ==> cache == SliceAssign(old(cache), baseAddrVar - baseAddr,
                                             Slice(regio.device.mem, baseAddrVar, OpSize(sizeVar)))
      ensures old(VarArea()) && r.Ok? ==>
                OpSize(sizeVar) == sizeVar && Stale() == old(Stale()) - Addresses(baseAddrVar, sizeVar)
      ensures r.Err? ==> cache == old(cache)
    {
      hide IsPow2, CeilMultiple, Covers, SliceAssign, Slice, StaleIn, Addresses;
      WholeArea(sizeVar, byteAlign);
      var b := ReadBytes(baseAddrVar, sizeVar);
      r := if b.Ok? then Ok(()) else Err(b.error);
    }

    /** Writes all variables from the image to the device, padded up to the byte alignment: what
        was stale there is flushed. */
    method WriteCache() returns (r: Result<(), Error>)
      requires Valid() && !useCache && baseAddr <= baseAddrVar
      modifies `cache, regio.device
      ensures cache == old(cache)
      ensures r.Ok? <==> baseAddrVar % byteAlign == 0
      ensures r.Ok? ==>
                var area := SliceOf(cache, baseAddrVar - baseAddr, sizeVar);
                regio.device.mem == old(regio.device.mem) +
                                    Written(baseAddrVar, SliceOf(cache, baseAddrVar - baseAddr, OpSize(|area|)))
      ensures r.Ok? && VarArea() ==> Stale() == old(Stale()) - Addresses(baseAddrVar, sizeVar)
      ensures r.Err? ==> regio.device.mem == old(regio.device.mem)
    {
      hide IsPow2, CeilMultiple, Patch, StaleIn, Addresses, Written;
      WholeArea(sizeVar, byteAlign);
      var b := ReadCached(baseAddrVar, sizeVar);
      SliceAssigned(cache, baseAddrVar - baseAddr, sizeVar);
      r := WriteBytes(baseAddrVar, b);
    }
  }

  // ------------------------------------------------------------------ runs of accesses

  /** A read or write of a register, or a write that stays in the image. */
  datatype RegAccess =
    | DeviceRead(addr: nat, size: nat)
    | DeviceWrite(addr: nat, data: seq<Byte>)
    | CachedWrite(addr: nat, data: seq<Byte>)

  /** How many bytes an access is about. */
  function Length(a: RegAccess): nat {
    if a.DeviceRead? then a.size else |a.data|
  }

  /** What may be stale after an access: a device access that went through takes its padded range
      out, a write that stayed in the image - also because the device access failed - puts its
      bytes in. */
  function StaleAfter(stale: set<int>, a: RegAccess, ok: bool, byteAlign: nat): set<int>
    requires byteAlign > 0
  {
    if !a.CachedWrite? && ok then stale - Addresses(a.addr, CeilMultiple(Length(a), byteAlign))
    else if a.DeviceRead? then stale
    else stale + Addresses(a.addr, Length(a))
  }

  function StaleAfterAll(stale: set<int>, accesses: seq<RegAccess>, oks: seq<bool>, byteAlign: nat): set<int>
    requires |oks| == |accesses| && byteAlign > 0
  {
    if accesses == [] then stale
    else
      var n := |accesses| - 1;
      StaleAfter(StaleAfterAll(stale, accesses[..n], oks[..n], byteAlign), accesses[n], oks[n], byteAlign)
  }

  /** A write that stays in the image leaves x stale. */
  predicate Leaves(a: RegAccess, ok: bool, x: int) {
    (a.CachedWrite? || (a.DeviceWrite? && !ok)) && a.addr <= x < a.addr + |a.data|
  }

  /** A device access that went through comes over x, padded. */
  predicate Clears(a: RegAccess, ok: bool, byteAlign: nat, x: int)
    requires byteAlign > 0
  {
    !a.CachedWrite? && ok && a.addr <= x < a.addr + CeilMultiple(Length(a), byteAlign)
  }

  /** No access from i on comes over x. */
  predicate NoneClears(accesses: seq<RegAccess>, oks: seq<bool>, i: nat, byteAlign: nat, x: int)
    requires |oks| == |accesses| && byteAlign > 0
  {
    forall j :: i <= j < |accesses| ==> !Clears(accesses[j], oks[j], byteAlign, x)
  }

  /** Main result: what may be stale after a run is exactly what was before it, or what some write
      left in the image, and no device access came over since. */
  lemma {:induction false} StaleIff(stale: set<int>, accesses: seq<RegAccess>, oks: seq<bool>, byteAlign: nat, x: int)
    requires |oks| == |accesses| && byteAlign > 0
    ensures x in StaleAfterAll(stale, accesses, oks, byteAlign) <==>
            (x in stale && NoneClears(accesses, oks, 0, byteAlign, x)) ||
            exists i :: 0 <= i < |accesses| && Leaves(accesses[i], oks[i], x) &&
                        NoneClears(accesses, oks, i + 1, byteAlign, x)
    decreases |accesses|
  {
    hide CeilMultiple;
    if accesses != [] {
      var n := |accesses| - 1;
      var (init, done) := (accesses[..n], oks[..n]);
      StaleIff(stale, init, done, byteAlign, x);
      PaddedLonger(Length(accesses[n]), byteAlign);
      forall i | 0 <= i <= n
        ensures NoneClears(accesses, oks, i, byteAlign, x) <==>
                NoneClears(init, done, i, byteAlign, x) && !Clears(accesses[n], oks[n], byteAlign, x)
      {
        NoneClearsStep(accesses, oks, i, byteAlign, x);
      }
      LastStale(StaleAfterAll(stale, init, done, byteAlign), accesses[n], oks[n], byteAlign, x);
      hide StaleAfter, Leaves, Clears, NoneClears;
      NothingBehind(accesses, oks, byteAlign, x);
    }
  }

  lemma {:induction false} PaddedLonger(n: nat, byteAlign: nat)
    requires byteAlign > 0
    ensures n <= CeilMultiple(n, byteAlign)
  {
    hide CeilMultiple;
    CeilMultipleIs(n, byteAlign);
  }

  lemma {:induction false} NothingBehind(accesses: seq<RegAccess>, oks: seq<bool>, byteAlign: nat, x: int)
    requires |oks| == |accesses| && byteAlign > 0
    ensures NoneClears(accesses, oks, |accesses|, byteAlign, x)
  {
  }

  lemma {:induction false} NoneClearsStep(accesses: seq<RegAccess>, oks: seq<bool>, i: nat, byteAlign: nat, x: int)
    requires |oks| == |accesses| > 0 && byteAlign > 0 && i < |accesses|
    ensures var n := |accesses| - 1;
            NoneClears(accesses, oks, i, byteAlign, x) <==>
            NoneClears(accesses[..n], oks[..n], i, byteAlign, x) && !Clears(accesses[n], oks[n], byteAlign, x)
  {
    hide Clears;
    var n := |accesses| - 1;
    if NoneClears(accesses[..n], oks[..n], i, byteAlign, x) && !Clears(accesses[n], oks[n], byteAlign, x) {
      forall j | i <= j < |accesses| ensures !Clears(accesses[j], oks[j], byteAlign, x) {
        assert j < n ==> accesses[..n][j] == accesses[j] && oks[..n][j] == oks[j];
      }
    }
    if NoneClears(accesses, oks, i, byteAlign, x) {
      forall j | i <= j < n ensures !Clears(accesses[..n][j], oks[..n][j], byteAlign, x) {
        assert !Clears(accesses[j], oks[j], byteAlign, x);
      }
    }
  }

  lemma {:induction false} LastStale(stale: set<int>, a: RegAccess, ok: bool, byteAlign: nat, x: int)
    requires byteAlign > 0
    ensures x in StaleAfter(stale, a, ok, byteAlign) <==>
            Leaves(a, ok, x) || (x in stale && !Clears(a, ok, byteAlign, x))
  {
    hide CeilMultiple;
  }

  /** The access, padded, lies in the image. */
  predicate InReach(m: Module, a: RegAccess)
    requires m.byteAlign > 0
    reads m
  {
    m.InImage(a.addr, Length(a)) && (a.CachedWrite? || m.InImage(a.addr, m.OpSize(Length(a))))
  }

  method AccessOnce(m: Module, a: RegAccess) returns (ok: bool)
    requires m.Valid() && !m.useCache && InReach(m, a)
    modifies m`cache, m.regio.device
    ensures |m.cache| == |old(m.cache)|
    ensures m.Stale() <= StaleAfter(old(m.Stale()), a, ok, m.byteAlign)
    ensures (a.CachedWrite? ==> ok) && (a.DeviceWrite? ==> (ok <==> a.addr % m.byteAlign == 0))
    ensures a.DeviceRead? ==>
              (ok <==> a.addr % m.byteAlign == 0 && Covers(m.regio.device.mem, a.addr, m.OpSize(a.size)))
  {
    hide CeilMultiple, StaleIn, Addresses, IsPow2, Patch, Written, Covers, Slice;
    match a {
      case DeviceRead(addr, size) =>
        var r := m.ReadBytes(addr, size);
        ok := r.Ok?;
      case DeviceWrite(addr, data) =>
        var r := m.WriteBytes(addr, data);
        ok := r.Ok?;
      case CachedWrite(addr, data) =>
        m.WriteBytesCached(addr, data);
        ok := true;
    }
  }

  /** Main result, for every run of accesses: the image differs from the device at most where a
      write stayed in the image and no device access came over it since. */
  method RunAccesses(m: Module, accesses: seq<RegAccess>) returns (oks: seq<bool>)
    requires m.Valid() && !m.useCache
    requires forall i :: 0 <= i < |accesses| ==> InReach(m, accesses[i])
    modifies m`cache, m.regio.device
    ensures m.Valid() && |oks| == |accesses|
    ensures m.Stale() <= StaleAfterAll(old(m.Stale()), accesses, oks, m.byteAlign)
    ensures AllThrough(accesses, oks) ==> m.Stale() <= old(m.Stale())
    ensures forall i :: 0 <= i < |accesses| && !accesses[i].DeviceRead? ==>
      (oks[i] <==> accesses[i].CachedWrite? || accesses[i].addr % m.byteAlign == 0)
  {
    hide CeilMultiple, StaleIn, IsPow2, StaleAfter, StaleAfterAll, Covers;
    oks := [];
    NoAccesses(m.Stale(), accesses, oks, m.byteAlign);
    for i := 0 to |accesses|
      invariant m.Valid() && |oks| == i && |m.cache| == |old(m.cache)|
      invariant m.Stale() <= StaleAfterAll(old(m.Stale()), accesses[..i], oks, m.byteAlign)
      invariant forall j :: 0 <= j < i && !accesses[j].DeviceRead? ==>
        (oks[j] <==> accesses[j].CachedWrite? || accesses[j].addr % m.byteAlign == 0)
    {
      assert InReach(m, accesses[i]);
      ghost var stale := m.Stale();
      var ok := AccessOnce(m, accesses[i]);
      StaleStep(old(m.Stale()), stale, accesses, i, oks, ok, m.byteAlign);
      oks := oks + [ok];
    }
    assert accesses[..|accesses|] == accesses;
    if AllThrough(accesses, oks) {
      NothingNewlyStale(old(m.Stale()), accesses, oks, m.byteAlign);
    }
  }

  /** Only device accesses, and none failed. */
  predicate AllThrough(accesses: seq<RegAccess>, oks: seq<bool>)
    requires |oks| == |accesses|
  {
    forall i :: 0 <= i < |accesses| ==> !accesses[i].CachedWrite? && oks[i]
  }

  lemma {:induction false} NoAccesses(stale: set<int>, accesses: seq<RegAccess>, oks: seq<bool>, byteAlign: nat)
    requires oks == [] && byteAlign > 0
    ensures StaleAfterAll(stale, accesses[..0], oks, byteAlign) == stale
  {
  }

  lemma {:induction false} StaleStep(stale0: set<int>, stale: set<int>, accesses: seq<RegAccess>, i: nat,
                                     oks: seq<bool>, ok: bool, byteAlign: nat)
    requires i < |accesses| && |oks| == i && byteAlign > 0
    requires stale <= StaleAfterAll(stale0, accesses[..i], oks, byteAlign)
    ensures StaleAfter(stale, accesses[i], ok, byteAlign) <=
              StaleAfterAll(stale0, accesses[..i + 1], oks + [ok], byteAlign)
  {
    hide CeilMultiple, Addresses;
    assert accesses[..i + 1][..i] == accesses[..i] && (oks + [ok])[..i] == oks;
  }

  lemma {:induction false} NothingNewlyStale(stale: set<int>, accesses: seq<RegAccess>, oks: seq<bool>, byteAlign: nat)
    requires |oks| == |accesses| && byteAlign > 0
    requires AllThrough(accesses, oks)
    ensures StaleAfterAll(stale, accesses, oks, byteAlign) <= stale
    decreases |accesses|
  {
    hide CeilMultiple, Addresses;
    if accesses != [] {
      NothingNewlyStale(stale, accesses[..|accesses| - 1], oks[..|oks| - 1], byteAlign);
    }
  }

  lemma {:induction false} EndIdxStep(shapes: seq<Shape>, i: nat, byteIdx: nat, byteAlign: nat)
    requires byteAlign > 0 && Storable(shapes) && i <= |shapes|
    ensures EndIdx(shapes[..0], byteIdx, byteAlign) == byteIdx
    ensures i < |shapes| ==> shapes[i].width > 0 && ValueAlign(shapes[i].width, byteAlign) > 0 &&
                             EndIdx(shapes[..i + 1], byteIdx, byteAlign) ==
                               NextIdx(EndIdx(shapes[..i], byteIdx, byteAlign), shapes[i], byteAlign)
  {
    hide NextIdx;
    if i < |shapes| {
      assert shapes[..i + 1][..i] == shapes[..i];
    }
  }

  /** Rounding the end of an area up to words keeps its slots inside, and an aligned area has a
      size that needs no padding. */
  lemma {:induction false} AreaEnd(slots: seq<Slot>, shapes: seq<Shape>, base: nat, first: nat, byteAlign: nat)
    requires Storable(shapes) && IsPow2(byteAlign) && byteAlign > 0 && first % SIZE_WORD == 0
    requires Laid(slots, base, first, EndIdx(shapes, first, byteAlign), byteAlign)
    ensures var end := CeilMultiple(EndIdx(shapes, first, byteAlign), SIZE_WORD);
            first <= end && end % SIZE_WORD == 0 && Laid(slots, base, first, end, byteAlign) &&
            ((first + base) % byteAlign == 0 && base % byteAlign == 0 ==> (end - first) % byteAlign == 0)
  {
    hide CeilMultiple, EndIdx;
    var end := CeilMultiple(EndIdx(shapes, first, byteAlign), SIZE_WORD);
    CeilMultipleIs(EndIdx(shapes, first, byteAlign), SIZE_WORD);
    LaterEnd(slots, base, first, EndIdx(shapes, first, byteAlign), end, byteAlign);
    if (first + base) % byteAlign == 0 && base % byteAlign == 0 {
      SumOfMultiples(first, base, byteAlign);
      AreaIsAligned(shapes, first, byteAlign, end);
      SumOfMultiples(end - first, first, byteAlign);
    }
  }

  /** A layout that InitRegMap accepts and whose whole variable area never meets the alignment it
      asks for: behind a head of 16 bytes and one constant, one 32-bit variable under a byte
      alignment of 8 makes an area of three words at byte index 20. Reading it whole fails for
      every module base on the alignment; at a base 4 above it goes through and makes the image
      longer than the module. */
  method UnalignedArea(regio: Regio.Regio, base: nat, image: seq<Byte>) returns (m: Module, r: Result<(), Error>)
    requires regio.Valid() && |image| == 16 + (1 + 3) * SIZE_WORD
    modifies regio.device`log
    ensures fresh(m) && m.regio == regio && m.baseAddr == base && HasShapes(m.arrRegVar, [Shape(32, None)])
    ensures m.byteAlign == 8 && m.baseAddrVar == base + 20 && m.sizeVar == 3 * SIZE_WORD
    ensures r.Ok? <==> base % 8 == 4 && Covers(regio.device.mem, base + 20, 16)
    ensures r == Err(AssertionFails) <==> base % 8 != 4
    ensures r.Ok? ==> |m.cache| == |image| + 4
  {
    hide CeilMultiple, IsPow2, EndIdx, HasShapes, Laid, Covers, Slice, StaleIn, ElemSize, SliceAssign, Addresses;
    hide SliceOf, NextIdx, ValueAlign, PlaceAt, Size, Patch;
    UnalignedEnds();
    EightIsPow2();
    var shapes := [Shape(32, None)];
    m := new Module(regio, base, image, 16);
    var ok := m.InitRegMap(shapes, shapes, 1, 3, 8);
    assert ok;
    r := m.ReadAll();
    if r.Ok? {
      SliceLaws(image, 20, Slice(regio.device.mem, base + 20, 16), 0);
    }
  }

  lemma {:induction false} UnalignedEnds()
    ensures CeilMultiple(EndIdx([Shape(32, None)], 16, 1), SIZE_WORD) == 16 + 1 * SIZE_WORD
    ensures CeilMultiple(EndIdx([Shape(32, None)], 20, 8), SIZE_WORD) == 20 + 3 * SIZE_WORD
  {
    assert Bits.BitLength(31) == 1 + Bits.BitLength(15) && Bits.BitLength(15) == 4;
    assert Bits.Pow2(5) == 32;
    assert ElemSize(32) == 4;
    var shapes := [Shape(32, None)];
    assert shapes[..0] == [];
    hide ElemSize;
    assert EndIdx(shapes, 16, 1) == NextIdx(16, Shape(32, None), 1) == 20;
    assert EndIdx(shapes, 20, 8) == NextIdx(20, Shape(32, None), 8) == 32;
  }

  lemma {:induction false} EightIsPow2()
    ensures IsPow2(8) && CeilMultiple(12, 8) == 16
  {
    assert Bits.Pow2(3) == 8;
  }

  lemma {:induction false} WholeArea(size: nat, byteAlign: nat)
    requires byteAlign > 0
    ensures size % byteAlign == 0 ==> CeilMultiple(size, byteAlign) == size
  {
    hide CeilMultiple;
    CeilMultipleIs(size, byteAlign);
    if size % byteAlign == 0 {
      CeilMultipleIsLeast(size, byteAlign, size);
    }
  }

  lemma {:induction false} WholePatch(c: seq<Byte>, off: nat, b: seq<Byte>)
    requires off + |b| <= |c|
    ensures Patch(c, off, b)[off..off + |b|] == b
  {
  }

  lemma {:induction false} SliceAssigned(c: seq<Byte>, off: nat, n: nat)
    ensures SliceAssign(c, off, SliceOf(c, off, n)) == c
    ensures off + n <= |c| ==> |SliceOf(c, off, n)| == n
  {
  }

  lemma {:induction false} OneIsPow2()
    ensures IsPow2(1)
  {
    assert Bits.Pow2(0) == 1;
  }

  lemma {:induction false} SomeAlign(n: nat)
    requires IsPow2(n)
    ensures n > 0
  {
  }

  lemma {:induction false} NoneLaid(base: nat, first: nat, byteAlign: nat)
    requires byteAlign > 0
    ensures Laid([], base, first, first, byteAlign)
  {
  }
}
