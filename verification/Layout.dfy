/** Where the registers of a module lie: aligned slots, handed out in order. */
module Layout {
  import opened Division
  import opened Wrappers
  import opened Bits
  import opened Widths

  /** A scalar or vector register of values of `width` bits. */
  datatype Shape = Shape(width: nat, vecLen: Option<nat>)

  datatype Slot = Slot(addr: nat, shape: Shape)

  function Max(a: nat, b: nat): nat {
    if a < b then b else a
  }

  /** The bytes of one value, and of one vector element. */
  function ElemSize(width: nat): nat {
    PromoteToSwW(width) / 8
  }

  function ValueAlign(width: nat, byteAlign: nat): nat {
    Max(byteAlign, ElemSize(width))
  }

  /** The distance between two vector elements. */
  function ElemOffset(width: nat, byteAlign: nat): nat {
    ValueAlign(ElemSize(width) * 8, byteAlign)
  }

  /** The bytes of n elements a stride apart. */
  function Span(stride: nat, n: nat): nat {
    stride * n
  }

  function Size(s: Shape, byteAlign: nat): nat {
    if s.vecLen.Some? then Span(ElemOffset(s.width, byteAlign), s.vecLen.value) else ElemSize(s.width)
  }

  // ------------------------------------------------------------------ sizes and alignments

  ghost predicate IsPow2(n: nat) {
    exists k: nat :: n == Pow2(k)
  }

  /** Element sizes are powers of two, wide enough for the value; a vector packs its elements at
      the alignment of one element. */
  lemma {:induction false} ElemSizes(width: nat, byteAlign: nat)
    requires width > 0
    ensures IsPow2(ElemSize(width)) && ElemSize(width) * 8 >= width && ElemSize(width) > 0
    ensures ElemOffset(width, byteAlign) == ValueAlign(width, byteAlign)
  {
    hide CeilMultiple, CeilLog2;
    hide Pow2;
    SmallPowers();
    var n := CeilLog2(CeilMultiple(width, 8));
    PromoteIsLeast(width, n);
    Pow2Order(3, n);
    Pow2Add(n - 3, 3);
    assert PromoteToSwW(width) == 8 * Pow2(n - 3);
    hide PromoteToSwW;
    PromotedStays(width);
  }

  lemma {:induction false} PromotedStays(width: nat)
    requires width > 0
    ensures PromoteToSwW(PromoteToSwW(width)) == PromoteToSwW(width)
  {
    hide CeilMultiple, CeilLog2;
    var n := CeilLog2(CeilMultiple(width, 8));
    var p := PromoteToSwW(width);
    PromoteIsLeast(width, n);
    PromoteIsLeast(p, n);
    PromoteIsLeast(p, CeilLog2(CeilMultiple(p, 8)));
  }

  /** The alignment of a value is a multiple of the byte alignment and of its size. */
  lemma {:induction false} AlignDivides(width: nat, byteAlign: nat)
    requires width > 0 && IsPow2(byteAlign)
    ensures byteAlign > 0 && ElemSize(width) > 0 && ValueAlign(width, byteAlign) > 0
    ensures ValueAlign(width, byteAlign) % byteAlign == 0 && ValueAlign(width, byteAlign) % ElemSize(width) == 0
  {
    hide ElemSize;
    ElemSizes(width, byteAlign);
    var a: nat :| byteAlign == Pow2(a);
    var b: nat :| ElemSize(width) == Pow2(b);
    if a <= b {
      Pow2Divides(a, b);
      Pow2Mono(a, b);
      DivModUnique(Pow2(b), Pow2(b), 1, 0);
    } else {
      Pow2Divides(b, a);
      Pow2Mono(b, a);
      DivModUnique(Pow2(a), Pow2(a), 1, 0);
    }
  }

  lemma {:induction false} MultipleOfMultiple(x: nat, c: nat, d: nat)
    requires c > 0 && d > 0 && x % c == 0 && c % d == 0
    ensures x % d == 0
  {
    assert x == (x / c) * c && c == (c / d) * d;
    Associate(x / c, c / d, d);
    DivModUnique(x, d, (x / c) * (c / d), 0);
  }

  lemma {:induction false} SumOfMultiples(x: nat, y: nat, d: nat)
    requires d > 0 && y % d == 0
    ensures (x + y) % d == x % d
  {
    DivAddMul(x, y / d, d);
  }

  /** Main result: an element has the least power of two of bytes that holds the value. */
  lemma {:induction false} ElemSizeIsLeast(width: nat, k: nat)
    requires width > 0
    ensures ElemSize(width) <= Pow2(k) <==> width <= 8 * Pow2(k)
  {
    hide CeilMultiple, CeilLog2, Pow2;
    SmallPowers();
    var n := CeilLog2(CeilMultiple(width, 8));
    PromoteIsLeast(width, n);
    Pow2Order(3, n);
    Pow2Add(n - 3, 3);
    PromoteIsLeast(width, k + 3);
    Pow2Add(k, 3);
    Pow2Order(3, k + 3);
  }

  /** Main result: the alignment of a value, which is also the distance of vector elements, is the
      least number that the byte alignment and the size of the value both divide. */
  lemma {:induction false} AlignIsLeast(width: nat, byteAlign: nat, m: nat)
    requires width > 0 && IsPow2(byteAlign) && m > 0
    ensures byteAlign > 0 && ElemSize(width) > 0
    ensures ElemOffset(width, byteAlign) == ValueAlign(width, byteAlign)
    ensures m % byteAlign == 0 && m % ElemSize(width) == 0 ==> ValueAlign(width, byteAlign) <= m
  {
    hide ElemSize;
    ElemSizes(width, byteAlign);
    AlignDivides(width, byteAlign);
    if m % byteAlign == 0 && m % ElemSize(width) == 0 {
      DivisorBelow(m, byteAlign);
      DivisorBelow(m, ElemSize(width));
    }
  }

  lemma {:induction false} DivisorBelow(m: nat, d: nat)
    requires m > 0 && d > 0 && m % d == 0
    ensures d <= m
  {
  }

  /** Aligned for a value is aligned for the module and for the value. */
  lemma {:induction false} AlignedIff(width: nat, byteAlign: nat, idx: nat)
    requires width > 0 && IsPow2(byteAlign)
    ensures byteAlign > 0 && ElemSize(width) > 0 && ValueAlign(width, byteAlign) > 0
    ensures idx % ValueAlign(width, byteAlign) == 0 <==> idx % byteAlign == 0 && idx % ElemSize(width) == 0
  {
    hide ElemSize;
    AlignDivides(width, byteAlign);
    if idx % ValueAlign(width, byteAlign) == 0 {
      MultipleOfMultiple(idx, ValueAlign(width, byteAlign), byteAlign);
      MultipleOfMultiple(idx, ValueAlign(width, byteAlign), ElemSize(width));
    }
  }

  // ------------------------------------------------------------------ placing a register

  function PlaceAt(byteIdx: nat, s: Shape, byteAlign: nat): nat
    requires ValueAlign(s.width, byteAlign) > 0
  {
    CeilMultiple(byteIdx, ValueAlign(s.width, byteAlign))
  }

  function NextIdx(byteIdx: nat, s: Shape, byteAlign: nat): nat
    requires ValueAlign(s.width, byteAlign) > 0
  {
    CeilMultiple(PlaceAt(byteIdx, s, byteAlign) + Size(s, byteAlign), ValueAlign(s.width, byteAlign))
  }

  ghost predicate Storable(shapes: seq<Shape>) {
    forall i :: 0 <= i < |shapes| ==> shapes[i].width > 0
  }

  /** The byte index after a list of registers. */
  function EndIdx(shapes: seq<Shape>, byteIdx: nat, byteAlign: nat): nat
    requires byteAlign > 0
  {
    if shapes == [] then byteIdx
    else NextIdx(EndIdx(shapes[..|shapes| - 1], byteIdx, byteAlign), shapes[|shapes| - 1], byteAlign)
  }

  /** An area that starts aligned ends aligned, also after rounding its end up to words. */
  lemma {:induction false} AreaIsAligned(shapes: seq<Shape>, byteIdx: nat, byteAlign: nat, end: nat)
    requires Storable(shapes) && IsPow2(byteAlign) && byteAlign > 0 && byteIdx % byteAlign == 0
    requires end == CeilMultiple(EndIdx(shapes, byteIdx, byteAlign), 4) && byteIdx % 4 == 0
    ensures end % byteAlign == 0
  {
    hide CeilMultiple, NextIdx;
    var last := EndIdx(shapes, byteIdx, byteAlign);
    if shapes != [] {
      var s := shapes[|shapes| - 1];
      var prior := EndIdx(shapes[..|shapes| - 1], byteIdx, byteAlign);
      NextIsAligned(prior, s, byteAlign);
    }
    WordAligned(last, byteAlign, end);
  }

  lemma {:induction false} NextIsAligned(byteIdx: nat, s: Shape, byteAlign: nat)
    requires s.width > 0 && IsPow2(byteAlign)
    ensures ValueAlign(s.width, byteAlign) > 0 && byteAlign > 0 && NextIdx(byteIdx, s, byteAlign) % byteAlign == 0
  {
    hide CeilMultiple, ValueAlign, Size;
    AlignDivides(s.width, byteAlign);
    var al := ValueAlign(s.width, byteAlign);
    CeilMultipleIs(PlaceAt(byteIdx, s, byteAlign) + Size(s, byteAlign), al);
    MultipleOfMultiple(NextIdx(byteIdx, s, byteAlign), al, byteAlign);
  }

  lemma {:induction false} WordAligned(last: nat, byteAlign: nat, end: nat)
    requires IsPow2(byteAlign) && byteAlign > 0 && last % byteAlign == 0 && end == CeilMultiple(last, 4)
    ensures end % byteAlign == 0
  {
    hide CeilMultiple;
    CeilMultipleIs(last, 4);
    assert Pow2(2) == 4;
    var a: nat :| byteAlign == Pow2(a);
    if a <= 2 {
      Pow2Divides(a, 2);
      MultipleOfMultiple(end, 4, byteAlign);
    } else {
      Pow2Divides(2, a);
      MultipleOfMultiple(last, byteAlign, 4);
      CeilMultipleIsLeast(last, 4, last);
    }
  }

  /** Where the last device access to a whole register may end: its size padded up to the byte
      alignment. */
  function PaddedEnd(slot: Slot, byteAlign: nat): nat
    requires byteAlign > 0
  {
    slot.addr + CeilMultiple(Size(slot.shape, byteAlign), byteAlign)
  }

  /** Slots between two byte indices of a module, each aligned, in order and apart even when
      padded. */
  ghost predicate Laid(slots: seq<Slot>, base: nat, first: nat, last: nat, byteAlign: nat)
    requires byteAlign > 0
  {
    first <= last &&
    (forall i :: 0 <= i < |slots| ==> InPlace(slots[i], base, first, last, byteAlign)) &&
    (forall i, j :: 0 <= i < j < |slots| ==> PaddedEnd(slots[i], byteAlign) <= slots[j].addr)
  }

  ghost predicate InPlace(slot: Slot, base: nat, first: nat, last: nat, byteAlign: nat)
    requires byteAlign > 0
  {
    slot.shape.width > 0 && ValueAlign(slot.shape.width, byteAlign) > 0 &&
    base + first <= slot.addr && PaddedEnd(slot, byteAlign) <= base + last &&
    (slot.addr - base) % ValueAlign(slot.shape.width, byteAlign) == 0
  }

  lemma {:induction false} PlacedSlot(byteIdx: nat, s: Shape, byteAlign: nat, base: nat)
    requires s.width > 0 && IsPow2(byteAlign)
    ensures byteAlign > 0 && ValueAlign(s.width, byteAlign) > 0
    ensures byteIdx <= PlaceAt(byteIdx, s, byteAlign) <= NextIdx(byteIdx, s, byteAlign)
    ensures InPlace(Slot(base + PlaceAt(byteIdx, s, byteAlign), s),
                    base, byteIdx, NextIdx(byteIdx, s, byteAlign), byteAlign)
  {
    hide CeilMultiple, ValueAlign, Size;
    AlignDivides(s.width, byteAlign);
    var al := ValueAlign(s.width, byteAlign);
    var (at, next, size) := (PlaceAt(byteIdx, s, byteAlign), NextIdx(byteIdx, s, byteAlign), Size(s, byteAlign));
    CeilMultipleIs(byteIdx, al);
    CeilMultipleIs(at + size, al);
    MultipleOfMultiple(at, al, byteAlign);
    MultipleOfMultiple(next, al, byteAlign);
    var gap := next - at;
    SumOfMultiples(gap, at, byteAlign);
    CeilMultipleIsLeast(size, byteAlign, gap);
  }

  /** A register is placed at the first aligned index that is free. */
  lemma {:induction false} PlacedFirst(byteIdx: nat, s: Shape, byteAlign: nat, idx: nat)
    requires ValueAlign(s.width, byteAlign) > 0 && idx % ValueAlign(s.width, byteAlign) == 0
    ensures PlaceAt(byteIdx, s, byteAlign) <= idx <==> byteIdx <= idx
  {
    hide CeilMultiple, ValueAlign;
    CeilMultipleIsLeast(byteIdx, ValueAlign(s.width, byteAlign), idx);
  }

  /** How far a register reaches: one value, or its elements at their distance. */
  function EndOf(at: nat, s: Shape, stride: nat): nat {
    if s.vecLen.Some? then at + s.vecLen.value * stride else at + ElemSize(s.width)
  }

  /** Main result, without the alignment of the code: a register is put at the first free index
      that the byte alignment and the size of its value both divide, and the next free index is
      the first such one behind its end - no index is left out between registers. */
  lemma {:induction false} PlacedTight(byteIdx: nat, s: Shape, byteAlign: nat, idx: nat)
    requires s.width > 0 && IsPow2(byteAlign)
    ensures byteAlign > 0 && ElemSize(s.width) > 0 && ValueAlign(s.width, byteAlign) > 0
    ensures var (at, next) := (PlaceAt(byteIdx, s, byteAlign), NextIdx(byteIdx, s, byteAlign));
            at % byteAlign == 0 && at % ElemSize(s.width) == 0 &&
            next % byteAlign == 0 && next % ElemSize(s.width) == 0 &&
            (idx % byteAlign == 0 && idx % ElemSize(s.width) == 0 ==>
              (at <= idx <==> byteIdx <= idx) &&
              (next <= idx <==> EndOf(at, s, ElemOffset(s.width, byteAlign)) <= idx))
  {
    hide CeilMultiple, ValueAlign, ElemSize;
    AlignDivides(s.width, byteAlign);
    var al := ValueAlign(s.width, byteAlign);
    var (at, end) := (PlaceAt(byteIdx, s, byteAlign), PlaceAt(byteIdx, s, byteAlign) + Size(s, byteAlign));
    CeilMultipleIs(byteIdx, al);
    CeilMultipleIs(end, al);
    AlignedIff(s.width, byteAlign, at);
    AlignedIff(s.width, byteAlign, NextIdx(byteIdx, s, byteAlign));
    AlignedIff(s.width, byteAlign, idx);
    if idx % al == 0 {
      CeilMultipleIsLeast(byteIdx, al, idx);
      CeilMultipleIsLeast(end, al, idx);
    }
    if s.vecLen.Some? {
      Commutes(s.vecLen.value, ElemOffset(s.width, byteAlign));
    }
  }

  lemma {:induction false} Commutes(a: nat, b: nat)
    ensures a * b == b * a
  {
  }

  /** Two 8-bit registers under byte alignment 1 lie one byte apart. */
  lemma {:induction false} BytesApart()
    ensures var s := Shape(8, None);
            ValueAlign(8, 1) == 1 && PlaceAt(0, s, 1) == 0 && NextIdx(0, s, 1) == 1 && PlaceAt(1, s, 1) == 1
  {
    assert Pow2(3) == 8;
    assert BitLength(7) == 3;
    assert ElemSize(8) == 1;
  }

  /** Placing one more register keeps the slots in order, aligned and apart. */
  lemma {:induction false} AppendKeepsLaid(slots: seq<Slot>, base: nat, first: nat, last: nat, s: Shape, byteAlign: nat)
    requires s.width > 0 && IsPow2(byteAlign) && byteAlign > 0 && Laid(slots, base, first, last, byteAlign)
    ensures ValueAlign(s.width, byteAlign) > 0
    ensures Laid(slots + [Slot(base + PlaceAt(last, s, byteAlign), s)],
                 base, first, NextIdx(last, s, byteAlign), byteAlign)
  {
    hide PlaceAt, NextIdx, ValueAlign, PaddedEnd;
    PlacedSlot(last, s, byteAlign, base);
    var after := slots + [Slot(base + PlaceAt(last, s, byteAlign), s)];
    forall i | 0 <= i < |after|
      ensures InPlace(after[i], base, first, NextIdx(last, s, byteAlign), byteAlign)
    {
      if i < |slots| {
        assert after[i] == slots[i];
      }
    }
  }

  // ------------------------------------------------------------------ what accesses touch

  /** Main result: a whole-register access, padded, starts at an address of the byte alignment
      exactly when the module does, and ends before the next slot. */
  lemma {:induction false} WholeAccess(slots: seq<Slot>, base: nat, first: nat, last: nat, byteAlign: nat, i: nat)
    requires IsPow2(byteAlign) && byteAlign > 0 && Laid(slots, base, first, last, byteAlign) && i < |slots|
    ensures slots[i].addr % byteAlign == 0 <==> base % byteAlign == 0
    ensures PaddedEnd(slots[i], byteAlign) <= if i + 1 < |slots| then slots[i + 1].addr else base + last
  {
    hide PaddedEnd, ValueAlign;
    var s := slots[i];
    assert InPlace(s, base, first, last, byteAlign);
    AlignDivides(s.shape.width, byteAlign);
    var off := s.addr - base;
    MultipleOfMultiple(off, ValueAlign(s.shape.width, byteAlign), byteAlign);
    SumOfMultiples(base, off, byteAlign);
  }

  /** Main result: an access to one vector element, padded, stays inside that element's own
      part of the slot, and elements are aligned like their module. */
  lemma {:induction false} ElemAccess(slots: seq<Slot>, base: nat, first: nat, last: nat, byteAlign: nat, i: nat,
                                      e: nat)
    requires IsPow2(byteAlign) && byteAlign > 0 && Laid(slots, base, first, last, byteAlign) && i < |slots|
    requires slots[i].shape.vecLen.Some? && e < slots[i].shape.vecLen.value
    ensures var (width, stride) := (slots[i].shape.width, ElemOffset(slots[i].shape.width, byteAlign));
            var at := slots[i].addr + Span(stride, e);
            (at % byteAlign == 0 <==> base % byteAlign == 0) &&
            at + CeilMultiple(ElemSize(width), byteAlign) <= at + stride <= PaddedEnd(slots[i], byteAlign)
  {
    hide ValueAlign, CeilMultiple, ElemSize, ElemOffset;
    var s := slots[i];
    var (width, stride) := (s.shape.width, ElemOffset(s.shape.width, byteAlign));
    var n := s.shape.vecLen.value;
    assert InPlace(s, base, first, last, byteAlign);
    WholeAccess(slots, base, first, last, byteAlign, i);
    ElemSizes(width, byteAlign);
    AlignDivides(width, byteAlign);
    AtLeastElem(width, byteAlign);
    CeilMultipleIsLeast(ElemSize(width), byteAlign, stride);
    MulMono(e + 1, n, stride);
    Distribute(e, 1, stride);
    assert stride * n == n * stride;
    CeilMultipleIs(stride * n, byteAlign);
    DivModUnique(e * stride, stride, e, 0);
    MultipleOfMultiple(e * stride, stride, byteAlign);
    SumOfMultiples(s.addr, e * stride, byteAlign);
  }

  lemma {:induction false} AtLeastElem(width: nat, byteAlign: nat)
    ensures ElemSize(width) <= ValueAlign(width, byteAlign)
  {
  }
}
