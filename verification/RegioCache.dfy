/** The sparse memory cache: merge-on-write regions and single-region reads. */
module RegioCache {
  import opened Wrappers
  import opened Bytes
  import opened Regions
  import CacheFile

  datatype Error = ValueError

  /** _validate_addr_size. */
  predicate InRange(addr: int, size: int) {
    addr >= 0 && size >= 0 && addr <= UINT32_MAX && addr + size <= UINT32_MAX + 1
  }

  predicate IsAddress(a: int) {
    0 <= a < 0x1_0000_0000
  }

  /** Main result: exactly the ranges all of whose bytes lie below 2^32, an empty one at such an
      address. */
  lemma {:induction false} InRangeIff(addr: int, size: int)
    ensures size > 0 ==> (InRange(addr, size) <==> forall a :: addr <= a < addr + size ==> IsAddress(a))
    ensures size == 0 ==> (InRange(addr, size) <==> 0 <= addr < 0x1_0000_0000)
    ensures size < 0 ==> !InRange(addr, size)
  {
    if size > 0 && (forall a :: addr <= a < addr + size ==> IsAddress(a)) {
      assert IsAddress(addr) && IsAddress(addr + size - 1);
    }
  }

  /** r overlaps or touches the range from lo to hi. */
  predicate Touches(r: Region, lo: int, hi: int) {
    lo <= r.End() && r.start <= hi
  }

  /** One region that takes in `data` at addr and every region of `over`, all of which touch
      the new range. */
  ghost predicate Absorbs(m: Region, over: seq<Region>, addr: nat, data: seq<Byte>) {
    m.start <= addr && addr + |data| <= m.End() &&
    (forall r :: r in over ==> m.start <= r.start && r.End() <= m.End()) &&
    (m.start == addr || exists r :: r in over && r.start == m.start) &&
    (m.End() == addr + |data| || exists r :: r in over && r.End() == m.End()) &&
    (forall k :: 0 <= k < |data| ==> m.At(addr + k) == data[k]) &&
    (forall r, a :: r in over && r.Has(a) && !(addr <= a < addr + |data|) ==> m.At(a) == r.At(a))
  }

  /** rs split into the regions a new range touches and the others, both in order. */
  ghost predicate Split(rs: seq<Region>, lo: int, hi: int, over: seq<Region>, rest: seq<Region>) {
    (forall r :: r in over <==> r in rs && Touches(r, lo, hi)) &&
    (forall r :: r in rest <==> r in rs && !Touches(r, lo, hi)) &&
    Gapped(over) && Gapped(rest)
  }

  /** Every byte of an absorbing region is new or from a region it absorbed: nothing of the
      zeros the buffer starts with is left. */
  lemma {:induction false} NoZeroFillLeft(m: Region, over: seq<Region>, addr: nat, data: seq<Byte>, a: int)
    requires Absorbs(m, over, addr, data) && m.Has(a) && !(addr <= a < addr + |data|)
    requires forall r :: r in over ==> Touches(r, addr, addr + |data|)
    ensures exists r :: r in over && r.Has(a)
  {
    if a < addr {
      var r :| r in over && r.start == m.start;
      assert r.Has(a);
    } else {
      var r :| r in over && r.End() == m.End();
      assert r.Has(a);
    }
  }

  /** A region the new range does not touch stays clear of the absorbing region. */
  lemma {:induction false} StaysApart(rs: seq<Region>, over: seq<Region>, rest: seq<Region>, m: Region, addr: nat,
                                      data: seq<Byte>, r: Region)
    requires Gapped(rs) && Split(rs, addr, addr + |data|, over, rest) && Absorbs(m, over, addr, data) && r in rest
    ensures r.End() < m.start || m.End() < r.start
  {
    if r.End() < addr {
      if m.start != addr {
        var o :| o in over && o.start == m.start;
        Ordered(rs, r, o);
      }
    } else {
      if m.End() != addr + |data| {
        var o :| o in over && o.End() == m.End();
        Ordered(rs, o, r);
      }
    }
  }

  lemma {:induction false} Ordered(rs: seq<Region>, r: Region, o: Region)
    requires Gapped(rs) && r in rs && o in rs
    ensures r == o || r.End() < o.start || o.End() < r.start
  {
    var i :| 0 <= i < |rs| && rs[i] == r;
    var j :| 0 <= j < |rs| && rs[j] == o;
    if i < j {
      assert rs[i].End() < rs[j].start;
    } else if j < i {
      assert rs[j].End() < rs[i].start;
    }
  }

  /** m placed in rest at position p, in address order. */
  predicate Placed(rest: seq<Region>, m: Region, p: nat) {
    p <= |rest| &&
    (forall i :: 0 <= i < p ==> rest[i].start <= m.start) &&
    (forall i :: p <= i < |rest| ==> m.start < rest[i].start)
  }

  function Insert(rest: seq<Region>, m: Region, p: nat): seq<Region>
    requires p <= |rest|
  {
    rest[..p] + [m] + rest[p..]
  }

  /** The list after a merge: the untouched regions with the absorbing one in its place. */
  ghost predicate Merged(rs': seq<Region>, rest: seq<Region>, m: Region) {
    exists p :: Placed(rest, m, p) && rs' == Insert(rest, m, p)
  }

  lemma {:induction false} MergedIsGapped(rs': seq<Region>, rest: seq<Region>, m: Region)
    requires Gapped(rest) && Merged(rs', rest, m)
    requires forall r :: r in rest ==> r.End() < m.start || m.End() < r.start
    ensures Gapped(rs') && (forall r :: r in rs' <==> r in rest || r == m)
  {
    hide Gapped;
    var p :| Placed(rest, m, p) && rs' == Insert(rest, m, p);
    InsertIsGapped(rest, m, p);
    InsertMembers(rest, m, p);
  }

  lemma {:induction false} InsertMembers(rest: seq<Region>, m: Region, p: nat)
    requires p <= |rest|
    ensures forall r :: r in Insert(rest, m, p) <==> r in rest || r == m
  {
    assert rest == rest[..p] + rest[p..];
  }

  lemma {:induction false} InsertIsGapped(rest: seq<Region>, m: Region, p: nat)
    requires Gapped(rest) && Placed(rest, m, p)
    requires forall r :: r in rest ==> r.End() < m.start || m.End() < r.start
    ensures Gapped(Insert(rest, m, p))
  {
    var before, after := rest[..p], rest[p..];
    forall i | 0 <= i < |before| ensures before[i].End() < m.start {
      assert before[i] == rest[i] && rest[i] in rest;
    }
    forall i | 0 <= i < |after| ensures m.End() < after[i].start {
      assert after[i] == rest[p + i] && rest[p + i] in rest;
    }
    forall i, j | 0 <= i < |before| && 0 <= j < |after| ensures before[i].End() < after[j].start {
      assert before[i] == rest[i] && after[j] == rest[p + j];
    }
    GappedConcat(before, [m]);
    GappedConcat(before + [m], after);
  }

  lemma {:induction false} GappedConcat(a: seq<Region>, b: seq<Region>)
    requires Gapped(a) && Gapped(b)
    requires forall i, j :: 0 <= i < |a| && 0 <= j < |b| ==> a[i].End() < b[j].start
    ensures Gapped(a + b)
  {
  }

  /** Main result: merging a write gives the map overridden by the write, as a gapped list. */
  lemma {:induction false} MergeOverrides(rs: seq<Region>, over: seq<Region>, rest: seq<Region>, m: Region,
                                          rs': seq<Region>, addr: nat, data: seq<Byte>)
    requires Gapped(rs) && Split(rs, addr, addr + |data|, over, rest) && Absorbs(m, over, addr, data) &&
               Merged(rs', rest, m)
    ensures Gapped(rs') && Contents(rs') == Contents(rs) + Written(addr, data)
    ensures NonEmpty(rs) && data != [] ==> NonEmpty(rs')
  {
    hide Contents;
    forall r | r in rest ensures r.End() < m.start || m.End() < r.start {
      StaysApart(rs, over, rest, m, addr, data, r);
    }
    MergedIsGapped(rs', rest, m);
    var target := Contents(rs) + Written(addr, data);
    forall a | a in Contents(rs') || a in target
      ensures a in Contents(rs') && a in target && Contents(rs')[a] == target[a]
    {
      MergedByte(rs, over, rest, m, rs', addr, data, a);
    }
    if NonEmpty(rs) && data != [] {
      forall i | 0 <= i < |rs'| ensures rs'[i].data != [] {
        assert rs'[i] in rs';
      }
    }
  }

  lemma {:induction false} MergedByte(rs: seq<Region>, over: seq<Region>, rest: seq<Region>, m: Region,
                                      rs': seq<Region>, addr: nat, data: seq<Byte>, a: int)
    requires Gapped(rs) && Split(rs, addr, addr + |data|, over, rest) && Absorbs(m, over, addr, data)
    requires Gapped(rs') && forall r :: r in rs' <==> r in rest || r == m
    requires a in Contents(rs') || a in Contents(rs) + Written(addr, data)
    ensures a in Contents(rs') && a in Contents(rs) + Written(addr, data)
    ensures Contents(rs')[a] == (Contents(rs) + Written(addr, data))[a]
  {
    hide Contents;
    if addr <= a < addr + |data| {
      ContentsAt(rs', m, a);
      assert m.At(addr + (a - addr)) == data[a - addr];
    } else if a in Contents(rs) {
      var r := ContentsFrom(rs, a);
      ContentsAt(rs, r, a);
      ContentsAt(rs', if r in over then m else r, a);
    } else {
      var r := ContentsFrom(rs', a);
      if r == m {
        NoZeroFillLeft(m, over, addr, data, a);
        var o :| o in over && o.Has(a);
        ContentsAt(rs, o, a);
      } else {
        ContentsAt(rs, r, a);
      }
      assert false;
    }
  }

  // ------------------------------------------------------------------ reading

  /** A range is covered exactly when it lies in the region with the greatest start that is
      not behind it. */
  lemma {:induction false} CoveredInOne(rs: seq<Region>, i: int, addr: nat, size: nat)
    requires Gapped(rs) && size > 0 && -1 <= i < |rs|
    requires forall k :: 0 <= k <= i ==> rs[k].start <= addr
    requires forall k :: i < k < |rs| ==> addr < rs[k].start
    ensures Covers(Contents(rs), addr, size) <==> i >= 0 && addr + size <= rs[i].End()
  {
    hide Contents;
    if i >= 0 && addr + size <= rs[i].End() {
      forall a | addr <= a < addr + size ensures a in Contents(rs) {
        ContentsAt(rs, rs[i], a);
      }
    }
    if Covers(Contents(rs), addr, size) {
      HeldByPredecessor(rs, i, addr);
      if addr + size > rs[i].End() {
        HoleBehind(rs, i, rs[i].End());
      }
    }
  }

  lemma {:induction false} RegionSlice(rs: seq<Region>, r: Region, addr: nat, size: nat)
    requires Gapped(rs) && r in rs && r.start <= addr && addr + size <= r.End()
    ensures Covers(Contents(rs), addr, size)
    ensures r.data[addr - r.start..addr + size - r.start] == Slice(Contents(rs), addr, size)
  {
    hide Contents;
    forall a | addr <= a < addr + size ensures a in Contents(rs) && Contents(rs)[a] == r.At(a) {
      ContentsAt(rs, r, a);
    }
  }

  lemma {:induction false} HeldByPredecessor(rs: seq<Region>, i: int, addr: nat)
    requires Gapped(rs) && -1 <= i < |rs| && addr in Contents(rs)
    requires forall k :: 0 <= k <= i ==> rs[k].start <= addr
    requires forall k :: i < k < |rs| ==> addr < rs[k].start
    ensures i >= 0 && rs[i].Has(addr)
  {
    hide Contents;
    var r := ContentsFrom(rs, addr);
    var j :| 0 <= j < |rs| && rs[j] == r;
    Ordered(rs, r, rs[i]);
    StartsAscend(rs, i);
  }

  // ------------------------------------------------------------------ the cache

  class Cache {
    var regions: seq<Region>

    ghost predicate Valid()
      reads this
    {
      Gapped(regions)
    }

    ghost function Map(): ByteMap
      reads this
    {
      Contents(regions)
    }

    constructor ()
      ensures Valid() && Map() == map[] && regions == []
    {
      regions := [];
    }

    method Clear()
      modifies this
      ensures Valid() && Map() == map[] && regions == []
    {
      regions := [];
    }

    /** Writes data at addr; outside the 32-bit space it raises and changes nothing. */
    method CacheWrite(addr: int, data: seq<Byte>) returns (r: Result<(), Error>)
      requires Valid()
      modifies this
      ensures Valid()
      ensures r.Ok? <==> InRange(addr, |data|)
      ensures r.Ok? ==> Map() == old(Map()) + Written(addr, data)
      ensures r.Err? ==> regions == old(regions)
      ensures old(Canonical(regions)) ==> Canonical(regions)
    {
      if !InRange(addr, |data|) {
        return Err(ValueError);
      }
      if data == [] {
        assert Written(addr, data) == map[];
        return Ok(());
      }
      MergeWrite(addr, data);
      return Ok(());
    }

    /** Merges a write into the regions it overlaps or touches. */
    method MergeWrite(addr: nat, data: seq<Byte>)
      requires Valid()
      modifies this
      ensures Valid() && Map() == old(Map()) + Written(addr, data)
      ensures old(NonEmpty(regions)) && data != [] ==> NonEmpty(regions)
    {
      hide Contents, Written, Merged, Absorbs, NonEmpty, Gapped;
      var newStart, newEnd := addr, addr + |data|;
      var mergedStart, mergedEnd, over, rest := SplitRegions(newStart, newEnd);
      var m := BuildRegion(mergedStart, mergedEnd, over, addr, data);
      ghost var was := regions;
      regions := InsertRegion(rest, m);
      MergeOverrides(was, over, rest, m, regions, addr, data);
    }

    method SplitRegions(newStart: nat, newEnd: nat)
        returns (mergedStart: nat, mergedEnd: nat, over: seq<Region>, rest: seq<Region>)
      requires Valid() && newStart <= newEnd
      ensures Split(regions, newStart, newEnd, over, rest)
      ensures mergedStart <= newStart && newEnd <= mergedEnd
      ensures forall r :: r in over ==> mergedStart <= r.start && r.End() <= mergedEnd
      ensures mergedStart == newStart || exists r :: r in over && r.start == mergedStart
      ensures mergedEnd == newEnd || exists r :: r in over && r.End() == mergedEnd
    {
      mergedStart, mergedEnd, over, rest := newStart, newEnd, [], [];
      for i := 0 to |regions|
        invariant Split(regions[..i], newStart, newEnd, over, rest)
        invariant mergedStart <= newStart && newEnd <= mergedEnd
        invariant forall r :: r in over ==> mergedStart <= r.start && r.End() <= mergedEnd
        invariant mergedStart == newStart || exists r :: r in over && r.start == mergedStart
        invariant mergedEnd == newEnd || exists r :: r in over && r.End() == mergedEnd
      {
        var r := regions[i];
        SplitStep(regions, i, newStart, newEnd, over, rest);
        if r.End() < newStart || r.start > newEnd {
          rest := rest + [r];
        } else {
          over := over + [r];
          mergedStart := if r.start < mergedStart then r.start else mergedStart;
          mergedEnd := if r.End() > mergedEnd then r.End() else mergedEnd;
        }
      }
      assert regions[..|regions|] == regions;
    }

    /** Reads size bytes at addr; raises outside the 32-bit space and when a byte of the range
        was never written. */
    method CacheRead(addr: int, size: int) returns (r: Result<seq<Byte>, Error>)
      requires Valid()
      ensures r.Ok? <==> InRange(addr, size) && Covers(Map(), addr, size)
      ensures r.Ok? ==> r.value == Slice(Map(), addr, size)
    {
      if !InRange(addr, size) {
        return Err(ValueError);
      }
      hide Contents;
      if size == 0 {
        return Ok([]);
      }
      var idx: int := BisectLeft(addr);
      if idx == |regions| || regions[idx].start != addr {
        idx := idx - 1;
      }
      CoveredInOne(regions, idx, addr, size);
      if idx < 0 {
        return Err(ValueError);
      }
      var region := regions[idx];
      if addr + size > region.End() || addr < region.start {
        return Err(ValueError);
      }
      RegionSlice(regions, region, addr, size);
      return Ok(region.data[addr - region.start..addr + size - region.start]);
    }

    /** The first region that does not start before addr. */
    method BisectLeft(addr: nat) returns (idx: nat)
      requires Valid()
      ensures idx <= |regions|
      ensures forall k :: 0 <= k < idx ==> regions[k].start < addr
      ensures forall k :: idx <= k < |regions| ==> addr <= regions[k].start
    {
      idx := 0;
      var hi := |regions|;
      while idx < hi
        invariant idx <= hi <= |regions|
        invariant forall k :: 0 <= k < idx ==> regions[k].start < addr
        invariant forall k :: hi <= k < |regions| ==> addr <= regions[k].start
      {
        var mid := (idx + hi) / 2;
        StartsAscend(regions, mid);
        if regions[mid].start < addr {
          idx := mid + 1;
        } else {
          hi := mid;
        }
      }
    }

    /** The file of the current regions; a region of 4 GiB or more has no size word. */
    method SaveToFile() returns (r: Result<seq<Byte>, CacheFile.Error>)
      ensures r.Ok? ==> r.value == CacheFile.Encode(regions)
      ensures r.Ok? <==> CacheFile.Saveable(regions)
    {
      var body := [];
      for i := 0 to |regions|
        invariant CacheFile.Saveable(regions[..i])
        invariant CacheFile.EncodeBody(regions) == body + CacheFile.EncodeBody(regions[i..])
      {
        var region := regions[i];
        if |region.data| > UINT32_MAX || region.start > UINT32_MAX {
          return Err(CacheFile.TooLarge);
        }
        SaveStep(regions, i, body);
        body := body + CacheFile.EncodeRegion(region);
      }
      assert regions[..|regions|] == regions;
      return Ok(CacheFile.FILE_HEADER + body);
    }

    /** Loads a file in place of the regions, or merges it into them region by region. A file
        that does not decode changes nothing. */
    method LoadFromFile(file: seq<Byte>, replace: bool) returns (r: Result<(), CacheFile.Error>)
      requires Valid()
      modifies this
      ensures r.Ok? <==> CacheFile.Decode(file).Ok?
      ensures r.Err? ==> regions == old(regions)
      ensures r.Ok? && replace ==> regions == CacheFile.Decode(file).value
      ensures r.Ok? && !replace ==> Valid() && Map() == old(Map()) + Contents(CacheFile.Decode(file).value)
      ensures r.Ok? && !replace && NonEmpty(CacheFile.Decode(file).value) && old(NonEmpty(regions)) ==>
                NonEmpty(regions)
    {
      var loaded :- ReadRegions(file);
      if replace {
        regions := loaded;
      } else {
        MergeAll(loaded);
      }
      return Ok(());
    }

    method MergeAll(loaded: seq<Region>)
      requires Valid()
      modifies this
      ensures Valid() && Map() == old(Map()) + Contents(loaded)
      ensures NonEmpty(loaded) && old(NonEmpty(regions)) ==> NonEmpty(regions)
    {
      hide Contents;
      NoContents(regions);
      for i := 0 to |loaded|
        invariant Valid() && Map() == old(Map()) + Contents(loaded[..i])
        invariant NonEmpty(loaded) && old(NonEmpty(regions)) ==> NonEmpty(regions)
      {
        MergeWrite(loaded[i].start, loaded[i].data);
        ContentsStep(loaded, i);
        OverrideTwice(old(Map()), Contents(loaded[..i]), Written(loaded[i].start, loaded[i].data));
      }
      assert loaded[..|loaded|] == loaded;
    }
  }

  lemma {:induction false} NoContents(rs: seq<Region>)
    ensures Contents(rs) + Contents([]) == Contents(rs)
  {
  }

  lemma {:induction false} OverrideTwice(a: ByteMap, b: ByteMap, c: ByteMap)
    ensures a + b + c == a + (b + c)
  {
  }

  lemma {:induction false} ContentsStep(rs: seq<Region>, i: nat)
    requires i < |rs|
    ensures Contents(rs[..i + 1]) == Contents(rs[..i]) + Written(rs[i].start, rs[i].data)
  {
    assert rs[..i + 1][..i] == rs[..i];
  }

  /** The reading loop of a load. */
  method ReadRegions(file: seq<Byte>) returns (r: Result<seq<Region>, CacheFile.Error>)
    ensures r == CacheFile.Decode(file)
  {
    if CacheFile.Read(file, |CacheFile.FILE_HEADER|) != CacheFile.FILE_HEADER {
      return Err(CacheFile.BadHeader);
    }
    var loaded, left := [], file[|CacheFile.FILE_HEADER|..];
    JoinNothing(CacheFile.DecodeBody(left));
    while left != []
      invariant CacheFile.Decode(file) == Joined(loaded, CacheFile.DecodeBody(left))
      decreases |left|
    {
      var region :- CacheFile.DecodeRegion(left);
      LoadStep(loaded, left);
      loaded := loaded + [region];
      left := left[|CacheFile.EncodeRegion(region)|..];
    }
    assert loaded + [] == loaded;
    return Ok(loaded);
  }

  lemma {:induction false} JoinNothing(r: Result<seq<Region>, CacheFile.Error>)
    ensures Joined([], r) == r
  {
    if r.Ok? {
      assert [] + r.value == r.value;
    }
  }

  lemma {:induction false} SaveStep(rs: seq<Region>, i: nat, body: seq<Byte>)
    requires i < |rs|
    ensures body + CacheFile.EncodeBody(rs[i..]) ==
              body + CacheFile.EncodeRegion(rs[i]) + CacheFile.EncodeBody(rs[i + 1..])
  {
    assert rs[i..][1..] == rs[i + 1..];
  }

  function Joined(rs: seq<Region>, r: Result<seq<Region>, CacheFile.Error>): Result<seq<Region>, CacheFile.Error> {
    var rest :- r;
    Ok(rs + rest)
  }

  lemma {:induction false} LoadStep(loaded: seq<Region>, left: seq<Byte>)
    requires left != [] && CacheFile.DecodeRegion(left).Ok?
    ensures var r := CacheFile.DecodeRegion(left).value;
            Joined(loaded, CacheFile.DecodeBody(left)) ==
            Joined(loaded + [r], CacheFile.DecodeBody(left[|CacheFile.EncodeRegion(r)|..]))
  {
    var r := CacheFile.DecodeRegion(left).value;
    var rest := CacheFile.DecodeBody(left[|CacheFile.EncodeRegion(r)|..]);
    if rest.Ok? {
      assert loaded + ([r] + rest.value) == loaded + [r] + rest.value;
    }
  }

  lemma {:induction false} StartsAscend(rs: seq<Region>, mid: nat)
    requires Gapped(rs) && mid < |rs|
    ensures forall k :: 0 <= k < mid ==> rs[k].start <= rs[mid].start
    ensures forall k :: mid < k < |rs| ==> rs[mid].start <= rs[k].start
  {
    forall k | 0 <= k < |rs| ensures k < mid ==> rs[k].start <= rs[mid].start {
      if k < mid { assert rs[k].End() < rs[mid].start; }
    }
    forall k | 0 <= k < |rs| ensures mid < k ==> rs[mid].start <= rs[k].start {
      if mid < k { assert rs[mid].End() < rs[k].start; }
    }
  }

  lemma {:induction false} OverlapsNone(over: seq<Region>, i: nat)
    requires Gapped(over) && i < |over|
    ensures forall r :: r in over[..i] ==> r.End() < over[i].start
  {
    forall r | r in over[..i] ensures r.End() < over[i].start {
      var j :| 0 <= j < i && over[j] == r;
    }
  }

  lemma {:induction false} SplitStep(rs: seq<Region>, i: nat, lo: int, hi: int, over: seq<Region>, rest: seq<Region>)
    requires Gapped(rs) && i < |rs| && Split(rs[..i], lo, hi, over, rest)
    ensures Touches(rs[i], lo, hi) ==> Split(rs[..i + 1], lo, hi, over + [rs[i]], rest)
    ensures !Touches(rs[i], lo, hi) ==> Split(rs[..i + 1], lo, hi, over, rest + [rs[i]])
  {
    assert rs[..i + 1] == rs[..i] + [rs[i]];
    OverlapsNone(rs, i);
    Extends(over, rs[i]);
    Extends(rest, rs[i]);
  }

  lemma {:induction false} Extends(rs: seq<Region>, r: Region)
    requires Gapped(rs)
    ensures (forall x :: x in rs ==> x.End() < r.start) ==> Gapped(rs + [r])
  {
    if forall x :: x in rs ==> x.End() < r.start {
      forall i, j | 0 <= i < j < |rs + [r]| ensures (rs + [r])[i].End() < (rs + [r])[j].start {
        assert rs[i] in rs;
      }
    }
  }

  /** Lays the old regions, then the new bytes, into one zeroed buffer. */
  method BuildRegion(mergedStart: nat, mergedEnd: nat, over: seq<Region>, addr: nat, data: seq<Byte>)
      returns (m: Region)
    requires Gapped(over) && mergedStart <= addr && addr + |data| <= mergedEnd
    requires forall r :: r in over ==> mergedStart <= r.start && r.End() <= mergedEnd
    requires mergedStart == addr || exists r :: r in over && r.start == mergedStart
    requires mergedEnd == addr + |data| || exists r :: r in over && r.End() == mergedEnd
    ensures Absorbs(m, over, addr, data)
  {
    var buf := new Byte[mergedEnd - mergedStart](_ => 0);
    for i := 0 to |over|
      invariant forall j, a :: 0 <= j < i && over[j].Has(a) ==> buf[a - mergedStart] == over[j].At(a)
    {
      Blit(buf, over[i].start - mergedStart, over[i].data);
    }
    ghost var laid := Region(mergedStart, buf[..]);
    Blit(buf, addr - mergedStart, data);
    m := Region(mergedStart, buf[..]);
    Overlaid(laid, m, over, addr, data);
  }

  /** Old regions laid first and the new bytes over them make an absorbing region. */
  lemma {:induction false} Overlaid(laid: Region, m: Region, over: seq<Region>, addr: nat, data: seq<Byte>)
    requires laid.start == m.start <= addr && addr + |data| <= m.End() == laid.End()
    requires forall r :: r in over ==> m.start <= r.start && r.End() <= m.End()
    requires m.start == addr || exists r :: r in over && r.start == m.start
    requires m.End() == addr + |data| || exists r :: r in over && r.End() == m.End()
    requires forall j, a :: 0 <= j < |over| && over[j].Has(a) ==> laid.data[a - m.start] == over[j].At(a)
    requires forall k :: 0 <= k < |m.data| ==>
               m.data[k] == if addr - m.start <= k < addr - m.start + |data| then data[k - (addr - m.start)]
                 else laid.data[k]
    ensures Absorbs(m, over, addr, data)
  {
  }

  /** Slice assignment into a buffer. */
  method Blit(buf: array<Byte>, off: nat, data: seq<Byte>)
    requires off + |data| <= buf.Length
    modifies buf
    ensures forall k :: 0 <= k < buf.Length ==>
              buf[k] == if off <= k < off + |data| then data[k - off] else old(buf[k])
  {
    for i := 0 to |data|
      invariant forall k :: 0 <= k < buf.Length ==>
                  buf[k] == if off <= k < off + i then data[k - off] else old(buf[k])
    {
      buf[off + i] := data[i];
    }
  }

  /** Sorting the regions by address after one was appended: it moves to its place. */
  method InsertRegion(rest: seq<Region>, m: Region) returns (rs: seq<Region>)
    requires Gapped(rest)
    ensures Merged(rs, rest, m)
  {
    var p := |rest|;
    while p > 0 && m.start < rest[p - 1].start
      invariant 0 <= p <= |rest|
      invariant forall i :: p <= i < |rest| ==> m.start < rest[i].start
    {
      p := p - 1;
    }
    if p > 0 {
      StartsAscend(rest, p - 1);
    }
    assert Placed(rest, m, p);
    rs := Insert(rest, m, p);
  }
}
