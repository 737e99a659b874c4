/** The single-client server: a blocking decoder of the same byte stream. */
module TcpServerSingle {
  import opened Wrappers
  import opened Bytes
  import opened TcpWire

  /** The receiving side of a socket whose peer sends `left` and then closes. A receive gives
      as many of the next bytes as the network likes, at least one while there are any. */
  class Socket {
    var left: seq<Byte>

    constructor (stream: seq<Byte>)
      ensures left == stream
    {
      left := stream;
    }

    method Recv(max: nat) returns (chunk: seq<Byte>)
      modifies this
      ensures |chunk| <= max && chunk + left == old(left)
      ensures chunk == [] <==> max == 0 || old(left) == []
    {
      if max == 0 || left == [] {
        return [];
      }
      var n :| 1 <= n <= max && n <= |left|;
      chunk := left[..n];
      left := left[n..];
    }
  }

  /** Exactly n bytes, however they arrive; None when the stream ends first. */
  method RecvExact(conn: Socket, n: nat) returns (r: Option<seq<Byte>>)
    modifies conn
    ensures r.Some? <==> n <= |old(conn.left)|
    ensures r.Some? ==> r.value == old(conn.left)[..n] && conn.left == old(conn.left)[n..]
  {
    var buf := [];
    while |buf| < n
      invariant |buf| <= n && buf + conn.left == old(conn.left)
    {
      var chunk := conn.Recv(n - |buf|);
      if chunk == [] {
        assert buf == old(conn.left);
        return None;
      }
      assert buf + (chunk + conn.left) == buf + chunk + conn.left;
      buf := buf + chunk;
    }
    assert (buf + conn.left)[..n] == buf && (buf + conn.left)[n..] == conn.left;
    return Some(buf);
  }

  /** Serves one connection until it ends, a header is malformed or the device raises: main
      result, the operations and replies are those of the decoded stream, however the network
      cuts it. */
  method HandleClient(conn: Socket, dev: Device) returns (operations: seq<Request>, replies: seq<Byte>)
    modifies conn
    ensures var s := Serve(Decode(old(conn.left)).requests, dev);
            operations == s.operations && replies == s.replies
  {
    hide Serve, Decode, ReplyTo;
    operations, replies := [], [];
    ServeNothing(dev);
    AfterNothing(Decode(conn.left));
    while true
      invariant Serve(operations, dev) == Service(operations, replies, false)
      invariant Decode(old(conn.left)) == After(operations, Decode(conn.left))
      decreases |conn.left|
    {
      ghost var stream := conn.left;
      var head := RecvExact(conn, HEAD_SIZE);
      if head.None? {
        DecodeEnds(stream, operations);
        return;
      }
      var h := UnpackHead(RQST_SYNC, head.value);
      if h.None? {
        DecodeEnds(stream, operations);
        return;
      }
      var rqst;
      if h.value.flag != 0 {
        var data := RecvExact(conn, PayloadSize(h.value));
        if data.None? {
          DecodeEnds(stream, operations);
          return;
        }
        rqst := Write(h.value.addr, data.value);
      } else {
        rqst := Read(h.value.addr, h.value.size);
      }
      DecodeGoesOn(stream, rqst, conn.left, operations);
      ServeOneMore(operations, rqst, dev);
      operations := operations + [rqst];
      var answer := dev(operations);
      if answer.Raised? {
        replies := replies + ReplyTo(rqst, answer);
        ServeStops(operations, Decode(conn.left).requests, dev);
        return;
      }
      replies := replies + ReplyTo(rqst, answer);
    }
  }

  lemma {:induction false} ServeNothing(dev: Device)
    ensures Serve([], dev) == Service([], [], false)
  {
  }

  /** No complete request at the head of the stream: what was decoded before it is all. */
  lemma {:induction false} DecodeEnds(stream: seq<Byte>, done: seq<Request>)
    requires !NextRequest(stream).Complete?
    ensures After(done, Decode(stream)).requests == done
  {
    assert done + [] == done;
  }

  lemma {:induction false} DecodeGoesOn(stream: seq<Byte>, rqst: Request, left: seq<Byte>, done: seq<Request>)
    requires NextRequest(stream).Complete? && NextRequest(stream).rqst == rqst &&
               left == stream[NextRequest(stream).len..]
    ensures After(done, Decode(stream)) == After(done + [rqst], Decode(left))
  {
    hide NextRequest;
    AfterTwice(done, [rqst], Decode(left));
  }
}
