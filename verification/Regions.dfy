/** Lists of (address, bytes) regions and the partial byte map they stand for. */
module Regions {
  import opened Bytes

  datatype Region = Region(start: nat, data: seq<Byte>) {
    function End(): nat {
      start + |data|
    }

    predicate Has(a: int) {
      start <= a < End()
    }

    function At(a: int): Byte
      requires Has(a)
    {
      data[a - start]
    }
  }

  /** Addresses mapped to bytes. */
  type ByteMap = map<int, Byte>

  function Addresses(addr: int, size: nat): (s: set<int>)
    ensures forall a :: a in s <==> addr <= a < addr + size
  {
    if size == 0 then {} else Addresses(addr, size - 1) + {addr + size - 1}
  }

  /** The bytes of one write. */
  function Written(addr: int, data: seq<Byte>): ByteMap {
    map a | a in Addresses(addr, |data|) :: data[a - addr]
  }

  /** The byte map of a region list, later regions on top. */
  function Contents(rs: seq<Region>): ByteMap {
    if rs == [] then map[] else Contents(rs[..|rs| - 1]) + Written(rs[|rs| - 1].start, rs[|rs| - 1].data)
  }

  /** In order, and separated by at least one byte that no region holds. */
  predicate Gapped(rs: seq<Region>) {
    forall i, j :: 0 <= i < j < |rs| ==> rs[i].End() < rs[j].start
  }

  predicate NonEmpty(rs: seq<Region>) {
    forall i :: 0 <= i < |rs| ==> rs[i].data != []
  }

  /** The form the cache promises: sorted, non-empty regions with a hole between any two. */
  predicate Canonical(rs: seq<Region>) {
    Gapped(rs) && NonEmpty(rs)
  }

  /** In a gapped list an address lies in at most one region, so the map can be read off any
      region that has it. */
  lemma {:induction false} ContentsAt(rs: seq<Region>, r: Region, a: int)
    requires Gapped(rs) && r in rs && r.Has(a)
    ensures a in Contents(rs) && Contents(rs)[a] == r.At(a)
    decreases |rs|
  {
    var last := rs[|rs| - 1];
    var init := rs[..|rs| - 1];
    if r in init {
      ContentsAt(init, r, a);
      var i :| 0 <= i < |init| && init[i] == r;
      assert rs[i].End() < rs[|rs| - 1].start;
    }
  }

  lemma {:induction false} ContentsFrom(rs: seq<Region>, a: int) returns (r: Region)
    requires a in Contents(rs)
    ensures r in rs && r.Has(a)
    decreases |rs|
  {
    var last := rs[|rs| - 1];
    if last.Has(a) {
      r := last;
    } else {
      r := ContentsFrom(rs[..|rs| - 1], a);
    }
  }

  /** The byte right behind a region of a gapped list is not held. */
  lemma {:induction false} HoleBehind(rs: seq<Region>, i: nat, a: int)
    requires Gapped(rs) && i < |rs| && a in Contents(rs)
    ensures a != rs[i].End()
  {
    hide Contents;
    var r := ContentsFrom(rs, a);
    var j :| 0 <= j < |rs| && rs[j] == r;
    if j < i {
      assert rs[j].End() < rs[i].start;
    } else if i < j {
      assert rs[i].End() < rs[j].start;
    }
  }

  /** All of [addr, addr + size) is mapped. */
  predicate Covers(m: ByteMap, addr: int, size: int) {
    forall a :: addr <= a < addr + size ==> a in m
  }

  lemma {:induction false} CoversAddresses(m: ByteMap, addr: int, size: nat)
    ensures Covers(m, addr, size) <==> Addresses(addr, size) <= m.Keys
  {
    if Addresses(addr, size) <= m.Keys {
      forall a | addr <= a < addr + size ensures a in m {
        assert a in Addresses(addr, size);
      }
    }
  }

  /** The bytes of a covered range. */
  function Slice(m: ByteMap, addr: int, size: nat): (bs: seq<Byte>)
    requires Covers(m, addr, size)
    ensures |bs| == size && forall k :: 0 <= k < size ==> bs[k] == m[addr + k]
  {
    seq(size, k requires 0 <= k < size => m[addr + k])
  }

  // ------------------------------------------------------------------ canonical lists

  lemma {:induction false} HeadOrTail(rs: seq<Region>, a: int)
    requires rs != [] && Gapped(rs)
    requires a in Contents(rs) || rs[0].Has(a) || a in Contents(rs[1..])
    ensures a in Contents(rs)
    ensures (rs[0].Has(a) && Contents(rs)[a] == rs[0].At(a) && a !in Contents(rs[1..])) ||
            (!rs[0].Has(a) && a in Contents(rs[1..]) && Contents(rs)[a] == Contents(rs[1..])[a])
  {
    hide Contents;
    var tail := rs[1..];
    if a in Contents(tail) {
      var r := ContentsFrom(tail, a);
      ContentsAt(tail, r, a);
      ContentsAt(rs, r, a);
      var j :| 0 <= j < |tail| && tail[j] == r;
      assert rs[j + 1] == r && rs[0].End() < rs[j + 1].start;
    } else {
      if a in Contents(rs) && !rs[0].Has(a) {
        var r := ContentsFrom(rs, a);
        assert r in tail;
        ContentsAt(tail, r, a);
      }
      ContentsAt(rs, rs[0], a);
    }
  }

  /** A canonical list is determined by its byte map: the regions are its maximal runs. */
  lemma {:induction false} CanonicalUnique(rs: seq<Region>, ts: seq<Region>)
    requires Canonical(rs) && Canonical(ts) && Contents(rs) == Contents(ts)
    ensures rs == ts
    decreases |rs|
  {
    if rs == [] || ts == [] {
      EmptyContents(rs);
      EmptyContents(ts);
    } else {
      SameHead(rs, ts);
      SameHead(ts, rs);
      TailContents(rs, ts);
      CanonicalUnique(rs[1..], ts[1..]);
    }
  }

  lemma {:induction false} EmptyContents(rs: seq<Region>)
    requires Canonical(rs)
    ensures rs == [] <==> Contents(rs) == map[]
  {
    if rs != [] {
      ContentsAt(rs, rs[0], rs[0].start);
    }
  }

  /** The first region of rs starts and ends no later than that of ts, with the same bytes. */
  lemma {:induction false} SameHead(rs: seq<Region>, ts: seq<Region>)
    requires rs != [] && ts != [] && Canonical(rs) && Canonical(ts) && Contents(rs) == Contents(ts)
    ensures rs[0].start <= ts[0].start
    ensures rs[0].start == ts[0].start ==> rs[0].End() <= ts[0].End()
    ensures rs[0] == ts[0] || rs[0].start < ts[0].start || rs[0].End() < ts[0].End()
  {
    hide Contents;
    ContentsAt(ts, ts[0], ts[0].start);
    FirstIsLeast(rs, ts[0].start);
    if rs[0].start == ts[0].start {
      if ts[0].End() < rs[0].End() {
        ContentsAt(rs, rs[0], ts[0].End());
        HoleBehind(ts, 0, ts[0].End());
      }
      if rs[0].End() == ts[0].End() {
        SameBytes(rs, ts);
      }
    }
  }

  lemma {:induction false} SameBytes(rs: seq<Region>, ts: seq<Region>)
    requires rs != [] && ts != [] && Gapped(rs) && Gapped(ts) && Contents(rs) == Contents(ts)
    requires rs[0].start == ts[0].start && rs[0].End() == ts[0].End()
    ensures rs[0] == ts[0]
  {
    hide Contents;
    forall k | 0 <= k < |rs[0].data| ensures rs[0].data[k] == ts[0].data[k] {
      ContentsAt(rs, rs[0], rs[0].start + k);
      ContentsAt(ts, ts[0], rs[0].start + k);
    }
    assert rs[0].data == ts[0].data;
  }

  lemma {:induction false} FirstIsLeast(rs: seq<Region>, a: int)
    requires rs != [] && Canonical(rs) && a in Contents(rs)
    ensures rs[0].start <= a
  {
    var r := ContentsFrom(rs, a);
    var i :| 0 <= i < |rs| && rs[i] == r;
    if i > 0 { assert rs[0].End() < rs[i].start; }
  }

  lemma {:induction false} TailContents(rs: seq<Region>, ts: seq<Region>)
    requires rs != [] && ts != [] && Canonical(rs) && Canonical(ts) && Contents(rs) == Contents(ts) && rs[0] == ts[0]
    ensures Contents(rs[1..]) == Contents(ts[1..])
  {
    forall a | a in Contents(rs[1..]) || a in Contents(ts[1..])
      ensures a in Contents(rs[1..]) && a in Contents(ts[1..]) && Contents(rs[1..])[a] == Contents(ts[1..])[a]
    {
      if a in Contents(rs[1..]) {
        HeadOrTail(rs, a);
        HeadOrTail(ts, a);
      } else {
        HeadOrTail(ts, a);
        HeadOrTail(rs, a);
      }
    }
  }
}
