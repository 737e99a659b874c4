/** The wire format of the regio protocol and the requests a byte stream spells. */
module TcpWire {
  import opened Wrappers
  import opened Bytes

  const RQST_SYNC: Byte := 0x9A
  const RPLY_SYNC: Byte := 0x9B
  const HEAD_SIZE: nat := 8
  const SIZE_MAX: nat := 0xFFFF
  const ADDR_MAX: nat := 0xFFFF_FFFF

  /** A request or reply header: its flag byte, 16-bit size and 32-bit address. */
  datatype Head = Head(flag: Byte, size: nat, addr: nat)

  predicate Fits(h: Head) {
    h.size <= SIZE_MAX && h.addr <= ADDR_MAX
  }

  /** struct.pack("<BBHI", ...) */
  function PackHead(sync: Byte, h: Head): (bs: seq<Byte>)
    ensures |bs| == HEAD_SIZE
  {
    [sync, h.flag] + ToLE(h.size, 2) + ToLE(h.addr, 4)
  }

  /** struct.unpack of one header; None when the sync byte is wrong. */
  function UnpackHead(sync: Byte, bs: seq<Byte>): Option<Head>
    requires |bs| == HEAD_SIZE
  {
    if bs[0] != sync then None else Some(Head(bs[1], FromLE(bs[2..4]), FromLE(bs[4..8])))
  }

  /** Main result: exactly the packed headers unpack, each to the header it was packed from. */
  lemma {:induction false} UnpackIffPacked(sync: Byte, bs: seq<Byte>, h: Head)
    requires |bs| == HEAD_SIZE
    ensures UnpackHead(sync, bs) == Some(h) <==> Fits(h) && bs == PackHead(sync, h)
  {
    hide ToLE, FromLE;
    WordSizes();
    if UnpackHead(sync, bs) == Some(h) {
      FromLEBound(bs[2..4]);
      FromLEBound(bs[4..8]);
      WritesBackLE(bs[2..4]);
      WritesBackLE(bs[4..8]);
      assert bs == bs[..2] + bs[2..4] + bs[4..8];
      assert bs[..2] == [sync, h.flag];
    }
    if Fits(h) && bs == PackHead(sync, h) {
      ReadsBackLE(h.size, 2);
      ReadsBackLE(h.addr, 4);
      assert bs[2..4] == ToLE(h.size, 2) && bs[4..8] == ToLE(h.addr, 4);
    }
  }

  // ------------------------------------------------------------------ requests

  datatype Request = Write(addr: nat, data: seq<Byte>) | Read(addr: nat, size: nat)

  /** What the head of a buffer holds. */
  datatype Next = Incomplete | Malformed | Complete(rqst: Request, len: nat)

  /** The payload a request header announces: the flag byte times the size. */
  function PayloadSize(h: Head): nat {
    h.flag * h.size
  }

  function NextRequest(buf: seq<Byte>): (n: Next)
    ensures n.Complete? ==> HEAD_SIZE <= n.len <= |buf|
  {
    if |buf| < HEAD_SIZE then Incomplete
    else
      var h := UnpackHead(RQST_SYNC, buf[..HEAD_SIZE]);
      if h.None? then Malformed
      else
        var total := HEAD_SIZE + PayloadSize(h.value);
        if |buf| < total then Incomplete
        else if h.value.flag != 0 then Complete(Write(h.value.addr, buf[HEAD_SIZE..total]), total)
        else Complete(Read(h.value.addr, h.value.size), total)
  }

  /** The requests of a byte stream in order, and the bytes left over: the start of a request
      that is not complete yet, or nothing once a header was malformed. */
  datatype Decoded = Decoded(requests: seq<Request>, rest: seq<Byte>, wellFormed: bool)

  function Decode(buf: seq<Byte>): Decoded
    decreases |buf|
  {
    match NextRequest(buf)
    case Incomplete => Decoded([], buf, true)
    case Malformed => Decoded([], [], false)
    case Complete(rqst, len) => After([rqst], Decode(buf[len..]))
  }

  function After(first: seq<Request>, d: Decoded): Decoded {
    d.(requests := first + d.requests)
  }

  lemma {:induction false} AfterTwice(a: seq<Request>, b: seq<Request>, d: Decoded)
    ensures After(a, After(b, d)) == After(a + b, d)
  {
    assert a + (b + d.requests) == a + b + d.requests;
  }

  lemma {:induction false} AfterNothing(d: Decoded)
    ensures After([], d) == d
  {
    assert [] + d.requests == d.requests;
  }

  /** A request that is complete stays the same when more bytes arrive. */
  lemma {:induction false} NextExtends(a: seq<Byte>, b: seq<Byte>)
    ensures !NextRequest(a).Incomplete? ==> NextRequest(a + b) == NextRequest(a)
  {
    if |a| >= HEAD_SIZE {
      assert (a + b)[..HEAD_SIZE] == a[..HEAD_SIZE];
      if NextRequest(a).Complete? {
        var len := NextRequest(a).len;
        assert (a + b)[HEAD_SIZE..len] == a[HEAD_SIZE..len];
      }
    }
  }

  /** Main result: how a stream is cut into chunks does not matter. Decoding a first part,
      keeping its left-over bytes and decoding on with the next part gives the decoding of
      the whole; a malformed header ends it for good. */
  lemma {:induction false} DecodeInParts(a: seq<Byte>, b: seq<Byte>)
    ensures Decode(a + b) ==
              if Decode(a).wellFormed then After(Decode(a).requests, Decode(Decode(a).rest + b)) else Decode(a)
    decreases |a|
  {
    hide NextRequest;
    NextExtends(a, b);
    match NextRequest(a)
    case Incomplete => AfterNothing(Decode(a + b));
    case Malformed =>
    case Complete(rqst, len) =>
      assert (a + b)[len..] == a[len..] + b;
      DecodeInParts(a[len..], b);
      var d := Decode(a[len..]);
      if d.wellFormed {
        AfterTwice([rqst], d.requests, Decode(d.rest + b));
      }
  }

  /** Nothing complete is ever left over. */
  lemma {:induction false} RestIsIncomplete(buf: seq<Byte>)
    ensures Decode(buf).wellFormed ==> NextRequest(Decode(buf).rest).Incomplete?
    ensures Decode(Decode(buf).rest) == Decoded([], Decode(buf).rest, true)
    decreases |buf|
  {
    hide NextRequest;
    match NextRequest(buf)
    case Incomplete =>
    case Malformed => EmptyIsIncomplete();
    case Complete(rqst, len) => RestIsIncomplete(buf[len..]);
  }

  lemma {:induction false} EmptyIsIncomplete()
    ensures NextRequest([]).Incomplete?
  {
  }

  // ------------------------------------------------------------------ byte by byte

  /** Main result: a header is its sync byte, its flag byte, the size in two bytes and the address
      in four, low bytes first. */
  lemma {:induction false} HeadBytes(sync: Byte, h: Head)
    requires Fits(h)
    ensures var b := PackHead(sync, h);
            |b| == 8 && b[0] == sync && b[1] == h.flag && Value16(b[2], b[3]) == h.size &&
            Value32(b[4], b[5], b[6], b[7]) == h.addr
  {
    hide ToLE, FromLE;
    WordSizes();
    var b := PackHead(sync, h);
    ReadsBackLE(h.size, 2);
    ReadsBackLE(h.addr, 4);
    Weights(ToLE(h.size, 2));
    Weights(ToLE(h.addr, 4));
    assert b[2..4] == ToLE(h.size, 2) && b[4..8] == ToLE(h.addr, 4);
    assert b[2] == b[2..4][0] && b[3] == b[2..4][1];
    assert b[4] == b[4..8][0] && b[5] == b[4..8][1] && b[6] == b[4..8][2] && b[7] == b[4..8][3];
  }

  function Product(a: nat, b: nat): nat {
    a * b
  }

  /** A request of `flag` times `size` payload bytes: a read when the flag is 0. */
  function RequestOf(buf: seq<Byte>, flag: nat, size: nat, addr: nat): Next {
    var total := 8 + Product(flag, size);
    if |buf| < total then Incomplete
    else if flag == 0 then Complete(Read(addr, size), 8)
    else Complete(Write(addr, buf[8..total]), total)
  }

  /** Main result: what the servers make of the bytes at the head of a buffer. */
  lemma {:induction false} RequestBytes(buf: seq<Byte>)
    ensures |buf| < 8 ==> NextRequest(buf) == Incomplete
    ensures |buf| >= 8 && buf[0] != 0x9A ==> NextRequest(buf) == Malformed
    ensures |buf| >= 8 && buf[0] == 0x9A ==>
              NextRequest(buf) == RequestOf(buf, buf[1], Value16(buf[2], buf[3]),
                Value32(buf[4], buf[5], buf[6], buf[7]))
  {
    hide FromLE, PayloadSize, Product, Value16, Value32;
    if |buf| >= 8 {
      var head := buf[..8];
      Weights(head[2..4]);
      Weights(head[4..8]);
      assert head[2..4][0] == buf[2] && head[2..4][1] == buf[3];
      assert head[4..8][0] == buf[4] && head[4..8][1] == buf[5] && head[4..8][2] == buf[6] && head[4..8][3] == buf[7];
      PayloadIs(Head(buf[1], Value16(buf[2], buf[3]), Value32(buf[4], buf[5], buf[6], buf[7])));
    }
  }

  lemma {:induction false} PayloadIs(h: Head)
    ensures PayloadSize(h) == Product(h.flag, h.size) && (h.flag == 0 ==> PayloadSize(h) == 0)
  {
  }

  /** Main result: what is sent back, byte by byte: nothing for a write or when the device raised,
      else the size and address of the request, with the data, or with the flag set and no data
      when the data has another size. */
  lemma {:induction false} ReplyBytes(r: Request, answer: Answer)
    requires r.Read? ==> r.size < 0x1_0000 && r.addr < 0x1_0000_0000
    ensures r.Write? || answer.Raised? ==> ReplyTo(r, answer) == []
    ensures r.Read? && answer.Done? ==>
              var (b, right) := (ReplyTo(r, answer), |answer.data| == r.size);
              |b| >= 8 && b[0] == 0x9B && b[1] == (if right then 0 else 1) && Value16(b[2], b[3]) == r.size &&
              Value32(b[4], b[5], b[6], b[7]) == r.addr &&
              b[8..] == if right then answer.data else []
  {
    hide PackHead;
    if r.Read? && answer.Done? {
      HeadBytes(RPLY_SYNC, Head(if |answer.data| == r.size then 0 else 1, r.size, r.addr));
    }
  }

  /** A read of 4 bytes at 0x1000, a write of two bytes there, and the reply to a read of two. */
  lemma {:induction false} ByteExamples()
    ensures NextRequest([0x9A, 0, 4, 0, 0, 0x10, 0, 0]) == Complete(Read(0x1000, 4), 8)
    ensures NextRequest([0x9A, 1, 2, 0, 0, 0x10, 0, 0, 7, 9]) == Complete(Write(0x1000, [7, 9]), 10)
    ensures ReplyTo(Read(0x1000, 2), Done([7, 9])) == [0x9B, 0, 2, 0, 0, 0x10, 0, 0, 7, 9]
  {
    hide NextRequest, ReplyTo;
    RequestBytes([0x9A, 0, 4, 0, 0, 0x10, 0, 0]);
    var write: seq<Byte> := [0x9A, 1, 2, 0, 0, 0x10, 0, 0, 7, 9];
    assert write[8..10] == [7, 9];
    RequestBytes(write);
    ReplyBytes(Read(0x1000, 2), Done([7, 9]));
    var b := ReplyTo(Read(0x1000, 2), Done([7, 9]));
    assert b == b[..8] + b[8..];
    assert b[2] == 2 && b[3] == 0;
    assert b[4] == 0 && b[5] == 0x10 && b[6] == 0 && b[7] == 0;
    assert b[..8] == [0x9B, 0, 2, 0, 0, 0x10, 0, 0];
  }

  // ------------------------------------------------------------------ encoding requests

  /** A request the client may send: its size and address fit the header. */
  predicate Sendable(r: Request) {
    match r
    case Write(addr, data) => addr <= ADDR_MAX && |data| <= SIZE_MAX
    case Read(addr, size) => addr <= ADDR_MAX && size <= SIZE_MAX
  }

  /** The bytes the client sends for a request. */
  function Encode(r: Request): seq<Byte> {
    match r
    case Write(addr, data) => PackHead(RQST_SYNC, Head(1, |data|, addr)) + data
    case Read(addr, size) => PackHead(RQST_SYNC, Head(0, size, addr))
  }

  function EncodeAll(rs: seq<Request>): seq<Byte> {
    if rs == [] then [] else Encode(rs[0]) + EncodeAll(rs[1..])
  }

  lemma {:induction false} EncodedIsNext(r: Request, more: seq<Byte>)
    requires Sendable(r)
    ensures NextRequest(Encode(r) + more) == Complete(r, |Encode(r)|)
  {
    hide ToLE, FromLE, PackHead, UnpackHead;
    var h := if r.Write? then Head(1, |r.data|, r.addr) else Head(0, r.size, r.addr);
    var buf := Encode(r) + more;
    assert buf[..HEAD_SIZE] == PackHead(RQST_SYNC, h);
    UnpackIffPacked(RQST_SYNC, buf[..HEAD_SIZE], h);
    if r.Write? {
      assert buf[HEAD_SIZE..HEAD_SIZE + |r.data|] == r.data;
    }
  }

  /** Main result: a server reads back exactly the requests a client sent. */
  lemma {:induction false} DecodeEncoded(rs: seq<Request>)
    requires forall i :: 0 <= i < |rs| ==> Sendable(rs[i])
    ensures Decode(EncodeAll(rs)) == Decoded(rs, [], true)
    decreases |rs|
  {
    hide NextRequest, Encode;
    if rs == [] {
      EmptyIsIncomplete();
    } else {
      var more := EncodeAll(rs[1..]);
      EncodedIsNext(rs[0], more);
      assert (Encode(rs[0]) + more)[|Encode(rs[0])|..] == more;
      DecodeEncoded(rs[1..]);
      assert [rs[0]] + rs[1..] == rs;
    }
  }

  // ------------------------------------------------------------------ the device behind a server

  /** What a device makes of an operation: data for a read, nothing of use for a write, or an
      exception. */
  datatype Answer = Done(data: seq<Byte>) | Raised

  /** A device whose answer to the last operation of a history may depend on all of it. */
  type Device = seq<Request> -> Answer

  /** The reply bytes to a request. A read of the wrong length is answered with the error flag
      and no data; writes are not answered. */
  function ReplyTo(r: Request, answer: Answer): seq<Byte> {
    if r.Write? || answer.Raised? then []
    else if |answer.data| == r.size then PackHead(RPLY_SYNC, Head(0, r.size, r.addr)) + answer.data
    else PackHead(RPLY_SYNC, Head(1, r.size, r.addr))
  }

  /** The operations a stream of requests leads to when it is served alone from an empty
      history: all of them, or up to the first one that raises. */
  datatype Service = Service(operations: seq<Request>, replies: seq<Byte>, raised: bool)

  function Serve(requests: seq<Request>, dev: Device): Service {
    if requests == [] then Service([], [], false)
    else
      var s := Serve(requests[..|requests| - 1], dev);
      var r := requests[|requests| - 1];
      if s.raised then s
      else
        var ops := s.operations + [r];
        Service(ops, s.replies + ReplyTo(r, dev(ops)), dev(ops).Raised?)
  }

  /** Served alone, the requests up to the first one that raises reach the device: all of them
      when none does. */
  lemma {:induction false} ServeUntilRaise(requests: seq<Request>, dev: Device)
    ensures var s := Serve(requests, dev);
            s.operations <= requests && (s.operations == requests || s.raised) &&
            (s.raised <==> s.operations != [] && dev(s.operations).Raised?) &&
            forall k :: 0 < k < |s.operations| ==> !dev(s.operations[..k]).Raised?
    decreases |requests|
  {
    hide ReplyTo;
    if requests != [] {
      var init := requests[..|requests| - 1];
      ServeUntilRaise(init, dev);
      var s := Serve(init, dev);
      if !s.raised {
        var ops := Serve(requests, dev).operations;
        assert ops == requests;
        forall k | 0 < k < |ops| ensures !dev(ops[..k]).Raised? {
          assert ops[..k] == s.operations[..k];
          if k == |ops| - 1 {
            assert ops[..k] == s.operations;
          }
        }
      }
    }
  }

  /** What was sent stays sent. */
  lemma {:induction false} RepliesGrow(a: seq<Request>, b: seq<Request>, dev: Device)
    ensures Serve(a, dev).replies <= Serve(a + b, dev).replies
    ensures Serve(a, dev).operations <= Serve(a + b, dev).operations
    decreases |b|
  {
    hide ReplyTo;
    if b == [] {
      assert a + b == a;
    } else {
      assert (a + b)[..|a + b| - 1] == a + b[..|b| - 1];
      RepliesGrow(a, b[..|b| - 1], dev);
    }
  }

  lemma {:induction false} ServeOneMore(done: seq<Request>, r: Request, dev: Device)
    requires !Serve(done, dev).raised
    ensures var s, ops := Serve(done, dev), Serve(done, dev).operations + [r];
            Serve(done + [r], dev) == Service(ops, s.replies + ReplyTo(r, dev(ops)), dev(ops).Raised?)
  {
    assert (done + [r])[..|done|] == done;
  }

  /** Requests after one that raised are not served. */
  lemma {:induction false} ServeStops(a: seq<Request>, b: seq<Request>, dev: Device)
    requires Serve(a, dev).raised
    ensures Serve(a + b, dev) == Serve(a, dev)
    decreases |b|
  {
    if b == [] {
      assert a + b == a;
    } else {
      assert (a + b)[..|a + b| - 1] == a + b[..|b| - 1];
      ServeStops(a, b[..|b| - 1], dev);
    }
  }
}
