/** The binary file format of a saved cache: an 8-byte header, then per region its address and
    size as little-endian 32-bit words and its bytes. */
module CacheFile {
  import opened Wrappers
  import opened Bytes
  import opened Regions

  datatype Error = BadHeader | Truncated | TooLarge

  /** ascii "skelregi" */
  const FILE_HEADER: seq<Byte> := [0x73, 0x6B, 0x65, 0x6C, 0x72, 0x65, 0x67, 0x69]

  const REGION_HEAD: nat := 8

  /** The address and the size fit the words of a region header. */
  predicate Saveable(rs: seq<Region>) {
    forall i :: 0 <= i < |rs| ==> rs[i].start <= UINT32_MAX && |rs[i].data| <= UINT32_MAX
  }

  function EncodeRegion(r: Region): seq<Byte> {
    ToLE(r.start, 4) + ToLE(|r.data|, 4) + r.data
  }

  function EncodeBody(rs: seq<Region>): seq<Byte> {
    if rs == [] then [] else EncodeRegion(rs[0]) + EncodeBody(rs[1..])
  }

  function Encode(rs: seq<Region>): seq<Byte> {
    FILE_HEADER + EncodeBody(rs)
  }

  /** f.read(n) with `left` still unread. */
  function Read(left: seq<Byte>, n: nat): (bs: seq<Byte>)
    ensures |bs| <= n && bs <= left
  {
    if n <= |left| then left[..n] else left
  }

  /** One region record at the head of the unread bytes. */
  function DecodeRegion(left: seq<Byte>): (r: Result<Region, Error>)
    ensures r.Ok? ==> |EncodeRegion(r.value)| <= |left| && |EncodeRegion(r.value)| >= REGION_HEAD
  {
    var head := Read(left, REGION_HEAD);
    if |head| != REGION_HEAD then Err(Truncated)
    else
      var size := FromLE(head[4..]);
      var data := Read(left[REGION_HEAD..], size);
      if |data| != size then Err(Truncated) else Ok(Region(FromLE(head[..4]), data))
  }

  function DecodeBody(left: seq<Byte>): Result<seq<Region>, Error>
    decreases |left|
  {
    if left == [] then Ok([])
    else
      var r :- DecodeRegion(left);
      var rest :- DecodeBody(left[|EncodeRegion(r)|..]);
      Ok([r] + rest)
  }

  function Decode(file: seq<Byte>): Result<seq<Region>, Error> {
    if Read(file, |FILE_HEADER|) != FILE_HEADER then Err(BadHeader) else DecodeBody(file[|FILE_HEADER|..])
  }

  lemma {:induction false} RegionReadsBack(r: Region, rest: seq<Byte>)
    requires r.start <= UINT32_MAX && |r.data| <= UINT32_MAX
    ensures DecodeRegion(EncodeRegion(r) + rest) == Ok(r)
  {
    hide FromLE, ToLE;
    var left := EncodeRegion(r) + rest;
    Word32(r.start);
    Word32(|r.data|);
    var head := Read(left, REGION_HEAD);
    assert head[..4] == ToLE(r.start, 4);
    assert head[4..] == ToLE(|r.data|, 4);
    assert left[REGION_HEAD..][..|r.data|] == r.data;
  }

  lemma {:induction false} RegionWritesBack(left: seq<Byte>)
    requires DecodeRegion(left).Ok?
    ensures var r := DecodeRegion(left).value;
            r.start <= UINT32_MAX && |r.data| <= UINT32_MAX && EncodeRegion(r) == left[..|EncodeRegion(r)|]
  {
    hide FromLE, ToLE;
    var head := left[..REGION_HEAD];
    var r := DecodeRegion(left).value;
    Word32Back(head[..4]);
    Word32Back(head[4..]);
    assert head == head[..4] + head[4..];
    assert r.data == left[REGION_HEAD..][..|r.data|] == left[REGION_HEAD..REGION_HEAD + |r.data|];
    assert left[..REGION_HEAD + |r.data|] == head + left[REGION_HEAD..REGION_HEAD + |r.data|];
  }

  lemma {:induction false} BodyReadsBack(rs: seq<Region>)
    requires Saveable(rs)
    ensures DecodeBody(EncodeBody(rs)) == Ok(rs)
    decreases |rs|
  {
    hide EncodeRegion, DecodeRegion;
    if rs != [] {
      var rest := EncodeBody(rs[1..]);
      RegionReadsBack(rs[0], rest);
      assert (EncodeRegion(rs[0]) + rest)[|EncodeRegion(rs[0])|..] == rest;
      BodyReadsBack(rs[1..]);
      assert [rs[0]] + rs[1..] == rs;
      NonEmptyRecord(rs[0]);
    }
  }

  lemma {:induction false} NonEmptyRecord(r: Region)
    ensures |EncodeRegion(r)| == REGION_HEAD + |r.data|
  {
  }

  lemma {:induction false} BodyWritesBack(left: seq<Byte>)
    requires DecodeBody(left).Ok?
    ensures Saveable(DecodeBody(left).value) && EncodeBody(DecodeBody(left).value) == left
    decreases |left|
  {
    hide EncodeRegion, DecodeRegion;
    if left != [] {
      var r := DecodeRegion(left).value;
      RegionWritesBack(left);
      NonEmptyRecord(r);
      var n := |EncodeRegion(r)|;
      BodyWritesBack(left[n..]);
      var rest := DecodeBody(left[n..]).value;
      assert ([r] + rest)[1..] == rest;
      assert left == left[..n] + left[n..];
    }
  }

  /** Main result: the loader accepts exactly the files the saver writes, and reads from each
      exactly the regions it was written from. */
  lemma {:induction false} DecodeIffEncoded(file: seq<Byte>, rs: seq<Region>)
    ensures Decode(file) == Ok(rs) <==> Saveable(rs) && file == Encode(rs)
  {
    hide DecodeBody, EncodeBody;
    var n := |FILE_HEADER|;
    if Decode(file) == Ok(rs) {
      BodyWritesBack(file[n..]);
      assert file == file[..n] + file[n..];
    }
    if Saveable(rs) && file == Encode(rs) {
      BodyReadsBack(rs);
      assert file[..n] == FILE_HEADER && file[n..] == EncodeBody(rs);
    }
  }

  /** Main result: of the prefixes of a saved file, only those that end on a record boundary
      load, and they load the regions before it. */
  lemma {:induction false} PrefixLoadsIff(rs: seq<Region>, cut: nat)
    requires Saveable(rs) && cut <= |Encode(rs)|
    ensures Decode(Encode(rs)[..cut]).Ok? <==> exists k :: 0 <= k <= |rs| && Encode(rs)[..cut] == Encode(rs[..k])
  {
    hide Decode, Encode;
    var file := Encode(rs)[..cut];
    if Decode(file).Ok? {
      var ts := Decode(file).value;
      DecodeIffEncoded(file, ts);
      PrefixRegions(rs, ts, cut);
      assert ts == rs[..|ts|];
    }
    forall k | 0 <= k <= |rs| && file == Encode(rs[..k]) ensures Decode(file).Ok? {
      DecodeIffEncoded(file, rs[..k]);
    }
  }

  lemma {:induction false} PrefixRegions(rs: seq<Region>, ts: seq<Region>, cut: nat)
    requires Saveable(rs) && Saveable(ts) && cut <= |Encode(rs)| && Encode(ts) == Encode(rs)[..cut]
    ensures ts <= rs
  {
    hide EncodeBody;
    var n := |FILE_HEADER|;
    PrefixDrop(FILE_HEADER, EncodeBody(rs), EncodeBody(ts), cut);
    BodyPrefix(rs, ts, cut - n);
  }

  lemma {:induction false} BodyPrefix(rs: seq<Region>, ts: seq<Region>, cut: nat)
    requires Saveable(rs) && Saveable(ts) && cut <= |EncodeBody(rs)| && EncodeBody(ts) == EncodeBody(rs)[..cut]
    ensures ts <= rs
    decreases |ts|
  {
    hide EncodeRegion;
    if ts != [] {
      NonEmptyRecord(ts[0]);
      assert rs != [];
      var rest := EncodeBody(rs)[cut..];
      assert EncodeBody(rs) == EncodeRegion(ts[0]) + (EncodeBody(ts[1..]) + rest);
      RegionReadsBack(ts[0], EncodeBody(ts[1..]) + rest);
      RegionReadsBack(rs[0], EncodeBody(rs[1..]));
      PrefixDrop(EncodeRegion(rs[0]), EncodeBody(rs[1..]), EncodeBody(ts[1..]), cut);
      BodyPrefix(rs[1..], ts[1..], cut - |EncodeRegion(rs[0])|);
      assert ts == [ts[0]] + ts[1..] && rs == [rs[0]] + rs[1..];
    }
  }

  lemma {:induction false} PrefixDrop(e: seq<Byte>, x: seq<Byte>, y: seq<Byte>, cut: nat)
    requires cut <= |e + x| && e + y == (e + x)[..cut]
    ensures |e| <= cut && y == x[..cut - |e|]
  {
    assert (e + y)[|e|..] == y;
    assert (e + x)[..cut] == e + x[..cut - |e|];
    assert (e + x[..cut - |e|])[|e|..] == x[..cut - |e|];
  }

  // ------------------------------------------------------------------ byte by byte

  /** Main result: a record is the address in four bytes, the size in four, low bytes first, and
      the bytes of the region. */
  lemma {:induction false} RecordBytes(r: Region)
    requires r.start <= UINT32_MAX && |r.data| <= UINT32_MAX
    ensures var b := EncodeRegion(r);
            |b| == 8 + |r.data| && Value32(b[0], b[1], b[2], b[3]) == r.start &&
            Value32(b[4], b[5], b[6], b[7]) == |r.data| && b[8..] == r.data
  {
    hide ToLE, FromLE;
    Word32(r.start);
    Word32(|r.data|);
    Weights(ToLE(r.start, 4));
    Weights(ToLE(|r.data|, 4));
    var b := EncodeRegion(r);
    assert b[..4] == ToLE(r.start, 4) && b[4..8] == ToLE(|r.data|, 4);
    assert b[0] == b[..4][0] && b[1] == b[..4][1] && b[2] == b[..4][2] && b[3] == b[..4][3];
    assert b[4] == b[4..8][0] && b[5] == b[4..8][1] && b[6] == b[4..8][2] && b[7] == b[4..8][3];
  }

  /** The header spells "skelregi". */
  lemma {:induction false} HeaderText()
    ensures |FILE_HEADER| == 8 && forall i :: 0 <= i < 8 ==> FILE_HEADER[i] == "skelregi"[i] as int
  {
    assert FILE_HEADER[0] == 's' as int && FILE_HEADER[1] == 'k' as int && FILE_HEADER[2] == 'e' as int;
    assert FILE_HEADER[3] == 'l' as int && FILE_HEADER[4] == 'r' as int && FILE_HEADER[5] == 'e' as int;
    assert FILE_HEADER[6] == 'g' as int && FILE_HEADER[7] == 'i' as int;
  }

  /** The file of one region of two bytes at 0x1000. */
  lemma {:induction false} FileExample()
    ensures Decode(['s' as int, 'k' as int, 'e' as int, 'l' as int, 'r' as int, 'e' as int, 'g' as int, 'i' as int] +
                   [0, 0x10, 0, 0, 2, 0, 0, 0, 7, 9]) == Ok([Region(0x1000, [7, 9])])
  {
    hide Decode, EncodeRegion;
    var r := Region(0x1000, [7, 9]);
    var b := EncodeRegion(r);
    RecordBytes(r);
    assert b == b[..8] + b[8..];
    assert b[0] == 0 && b[1] == 0x10 && b[2] == 0 && b[3] == 0;
    assert b[4] == 2 && b[5] == 0 && b[6] == 0 && b[7] == 0;
    assert b == [0, 0x10, 0, 0, 2, 0, 0, 0, 7, 9];
    assert [r][1..] == [] && EncodeBody([r]) == b + [];
    DecodeIffEncoded(FILE_HEADER + b, [r]);
  }
}
