/** The multi-client server: one select loop, a byte buffer per connection, and device
    operations one at a time. */
module TcpServerMulti {
  import opened Wrappers
  import opened Bytes
  import opened TcpWire
  import TcpServerSingle

  /** An operation the device was given, with the connection it came from. */
  type Entry = (nat, Request)

  function Requests(log: seq<Entry>): (rs: seq<Request>)
    ensures |rs| == |log| && forall i :: 0 <= i < |log| ==> rs[i] == log[i].1
  {
    if log == [] then [] else Requests(log[..|log| - 1]) + [log[|log| - 1].1]
  }

  /** The operations of one connection, in order. */
  function Of(log: seq<Entry>, c: nat): seq<Request> {
    if log == [] then []
    else
      var e := log[|log| - 1];
      Of(log[..|log| - 1], c) + (if e.0 == c then [e.1] else [])
  }

  /** The bytes sent back to one connection. The answers depend on the whole history of the
      device, whoever made it. */
  function RepliesTo(log: seq<Entry>, c: nat, dev: Device): seq<Byte> {
    if log == [] then []
    else
      var e := log[|log| - 1];
      RepliesTo(log[..|log| - 1], c, dev) + (if e.0 == c then ReplyTo(e.1, dev(Requests(log))) else [])
  }

  /** Some operation of the connection raised. */
  predicate AnyRaised(log: seq<Entry>, c: nat, dev: Device) {
    log != [] &&
    (AnyRaised(log[..|log| - 1], c, dev) || (log[|log| - 1].0 == c && dev(Requests(log)).Raised?))
  }

  /** No operation of the connection came after one that raised. */
  predicate StopsAtRaise(log: seq<Entry>, c: nat, dev: Device) {
    log == [] ||
    (StopsAtRaise(log[..|log| - 1], c, dev) && (log[|log| - 1].0 == c ==> !AnyRaised(log[..|log| - 1], c, dev)))
  }

  lemma {:induction false} LogGrows(log: seq<Entry>, c: nat, r: Request, dev: Device)
    ensures var log' := log + [(c, r)];
            Requests(log') == Requests(log) + [r] &&
            forall d :: Of(log', d) == Of(log, d) + (if d == c then [r] else []) &&
                        RepliesTo(log', d, dev) == RepliesTo(log, d, dev) +
                          (if d == c then ReplyTo(r, dev(Requests(log'))) else []) &&
                        (AnyRaised(log', d, dev) <==>
                          AnyRaised(log, d, dev) || (d == c && dev(Requests(log')).Raised?)) &&
                        (StopsAtRaise(log', d, dev) <==>
                          StopsAtRaise(log, d, dev) && (d == c ==> !AnyRaised(log, c, dev)))
  {
    assert (log + [(c, r)])[..|log|] == log;
  }

  /** How a connection stands. Closed: the peer closed it. BadHeader: a malformed header. Failed: the
      device raised. */
  datatype Fate = Open | Closed | BadHeader | Failed

  /** What a connection has received, what came of it and what it was sent. */
  datatype History = History(received: seq<Byte>, operations: seq<Request>, replies: seq<Byte>, fate: Fate)

  type Histories = map<nat, History>
  type Buffers = map<nat, seq<Byte>>

  /** The server itself has ended the connection. */
  ghost predicate Ended(h: History) {
    h.fate.BadHeader? || h.fate.Failed?
  }

  /** The operations of a connection are the requests its received bytes spell, in order. An
      open connection may have more of them waiting in its buffer, a failed one has stopped
      at the operation that failed. */
  predicate Faithful(h: History, buf: Option<seq<Byte>>) {
    var d := Decode(h.received);
    match h.fate
    case Open => buf.Some? && d == After(h.operations, Decode(buf.value))
    case Closed => buf.None? && d.wellFormed && d.requests == h.operations
    case BadHeader => buf.None? && !d.wellFormed && d.requests == h.operations
    case Failed => buf.None? && h.operations != [] && h.operations <= d.requests
  }

  datatype Event = Accept(conn: nat) | Recv(conn: nat, data: seq<Byte>)

  /** The history of a connection is what its bytes and the log of the device say. */
  ghost predicate Accounted(h: History, buf: Option<seq<Byte>>, log: seq<Entry>, c: nat, dev: Device) {
    Faithful(h, buf) && h.operations == Of(log, c) && h.replies == RepliesTo(log, c, dev) &&
    (h.fate.Failed? <==> AnyRaised(log, c, dev)) && StopsAtRaise(log, c, dev)
  }

  /** Serving the next request of c keeps its account. */
  lemma {:induction false} AccountedOnce(h: History, buf: seq<Byte>, log: seq<Entry>, c: nat, r: Request, len: nat,
                                         dev: Device)
    requires Accounted(h, Some(buf), log, c, dev) && NextRequest(buf) == Complete(r, len)
    ensures var (log', answer) := (log + [(c, r)], dev(Requests(log + [(c, r)])));
            var h' := h.(operations := h.operations + [r], replies := h.replies + ReplyTo(r, answer),
                         fate := if answer.Raised? then Failed else Open);
            Accounted(h', if answer.Raised? then None else Some(buf[len..]), log', c, dev) && h.fate.Open?
  {
    hide Faithful, NextRequest, Of, RepliesTo, AnyRaised, StopsAtRaise, Requests;
    OneServed(h, buf, r, len);
    LogGrows(log, c, r, dev);
  }

  lemma {:induction false} OtherAccounted(h: History, buf: Option<seq<Byte>>, log: seq<Entry>, c: nat, r: Request,
                                          d: nat, dev: Device)
    requires Accounted(h, buf, log, d, dev) && d != c
    ensures Accounted(h, buf, log + [(c, r)], d, dev)
  {
    hide Faithful, Of, RepliesTo, AnyRaised, StopsAtRaise, Requests;
    LogGrows(log, c, r, dev);
    assert Of(log, d) + [] == Of(log, d) && RepliesTo(log, d, dev) + [] == RepliesTo(log, d, dev);
  }

  /** Nothing but the buffer, the operations, the replies and the fate of c may have changed, and c
      is still there unless the server had a reason to end it. */
  ghost predicate OnlyServed(h0: Histories, h1: Histories, b0: Buffers, b1: Buffers, c: nat) {
    h1.Keys == h0.Keys && c in h0 && h1[c].received == h0[c].received && (c in b1 || Ended(h1[c])) &&
    (forall d :: d in h0 && d != c ==> h1[d] == h0[d]) &&
    (forall d :: d != c ==> (d in b1 <==> d in b0) && (d in b0 ==> b1[d] == b0[d]))
  }

  lemma {:induction false} NotServed(h: Histories, b: Buffers, c: nat)
    requires c in h && c in b
    ensures OnlyServed(h, h, b, b, c)
  {
  }

  lemma {:induction false} ServedOnce(h0: Histories, h1: Histories, b0: Buffers, b1: Buffers, c: nat,
                                          conn: History, buf: seq<Byte>)
    requires OnlyServed(h0, h1, b0, b1, c) && c in h1 && conn.received == h1[c].received
    ensures OnlyServed(h0, h1[c := conn], b0, b1[c := buf], c)
    ensures Ended(conn) ==> OnlyServed(h0, h1[c := conn], b0, b1 - {c}, c)
  {
  }

  /** Serving only works on open connections, and ends some of them for a reason. */
  ghost predicate OnlyServing(h0: Histories, h1: Histories, b0: Buffers, b1: Buffers) {
    h1.Keys == h0.Keys && b1.Keys <= b0.Keys &&
    (forall c :: c in h0 ==> h1[c].received == h0[c].received) &&
    (forall c :: c in h0 && c in b0 && c !in b1 ==> Ended(h1[c])) &&
    (forall c :: c in h0 && c !in b0 ==> h1[c] == h0[c])
  }

  lemma {:induction false} ServingStep(h0: Histories, h1: Histories, h2: Histories, b0: Buffers, b1: Buffers,
                                       b2: Buffers, c: nat)
    requires OnlyServing(h0, h1, b0, b1) && OnlyServed(h1, h2, b1, b2, c) && c in b1
    ensures OnlyServing(h0, h2, b0, b2)
  {
  }

  /** The bytes of the events of one connection. */
  function DataFor(events: seq<Event>, c: nat): seq<Byte> {
    if events == [] then []
    else
      var (init, last) := (events[..|events| - 1], events[|events| - 1]);
      DataFor(init, c) + if last.Recv? && last.conn == c then last.data else []
  }

  /** The events reached their connections, and nothing else happened. */
  ghost predicate Heard(h0: Histories, h1: Histories, b0: Buffers, b1: Buffers, events: seq<Event>) {
    forall c: nat :: HeardBy(c, h0, h1, b0, b1, events)
  }

  ghost predicate HeardBy(c: nat, h0: Histories, h1: Histories, b0: Buffers, b1: Buffers, events: seq<Event>) {
    (c in h1 <==> c in h0 || Accept(c) in events) &&
    (c in h1 && c !in h0 ==> h1[c] == History([], [], [], Open)) &&
    (c in h0 && c !in b0 ==> h1[c] == h0[c]) &&
    (c in h0 && c in b0 ==>
      h1[c] == h0[c].(received := h0[c].received + DataFor(events, c),
                      fate := if Recv(c, []) in events then Closed else h0[c].fate)) &&
    (c in b1 <==> (c in b0 && Recv(c, []) !in events) || Accept(c) in events)
  }

  /** What one event does to the histories and the open connections. */
  ghost predicate Reaches(e: Event, h1: Histories, h2: Histories, b1: Buffers, b2: Buffers) {
    match e
    case Accept(c) => h2 == h1[c := History([], [], [], Open)] && b2.Keys == b1.Keys + {c}
    case Recv(c, data) =>
      if c !in b1 || c !in h1 then h2 == h1 && b2.Keys == b1.Keys
      else if data == [] then h2 == h1[c := h1[c].(fate := Closed)] && b2.Keys == b1.Keys - {c}
      else h2 == h1[c := h1[c].(received := h1[c].received + data)] && b2.Keys == b1.Keys
  }

  lemma {:induction false} HeardStep(h0: Histories, h1: Histories, h2: Histories, b0: Buffers, b1: Buffers,
                                     b2: Buffers, events: seq<Event>, e: Event)
    requires Heard(h0, h1, b0, b1, events) && Reaches(e, h1, h2, b1, b2) && b0.Keys <= h0.Keys && b1.Keys <= h1.Keys
    requires forall d :: d in events ==> d.conn != e.conn
    requires e.Accept? ==> e.conn !in h1
    ensures Heard(h0, h2, b0, b2, events + [e])
  {
    hide HeardBy, Reaches;
    forall c: nat
      ensures HeardBy(c, h0, h2, b0, b2, events + [e])
    {
      assert HeardBy(c, h0, h1, b0, b1, events);
      HeardByStep(c, h0, h1, h2, b0, b1, b2, events, e);
    }
  }

  lemma {:induction false} HeardByStep(c: nat, h0: Histories, h1: Histories, h2: Histories, b0: Buffers, b1: Buffers,
                                       b2: Buffers, events: seq<Event>, e: Event)
    requires HeardBy(c, h0, h1, b0, b1, events) && Reaches(e, h1, h2, b1, b2)
    requires b0.Keys <= h0.Keys && b1.Keys <= h1.Keys
    requires forall d :: d in events ==> d.conn != e.conn
    requires e.Accept? ==> e.conn !in h1
    ensures HeardBy(c, h0, h2, b0, b2, events + [e])
  {
    hide DataFor;
    EventAppends(events, e, c);
    if e.conn == c {
      NoDataFor(events, c);
      assert Accept(c) !in events && Recv(c, []) !in events;
    }
  }

  lemma {:induction false} EventAppends(events: seq<Event>, e: Event, c: nat)
    ensures DataFor(events + [e], c) == DataFor(events, c) + if e.Recv? && e.conn == c then e.data else []
    ensures Accept(c) in events + [e] <==> Accept(c) in events || e == Accept(c)
    ensures Recv(c, []) in events + [e] <==> Recv(c, []) in events || e == Recv(c, [])
  {
    var all := events + [e];
    assert all[..|all| - 1] == events;
    assert forall d :: d in all <==> d in events || d == e;
  }

  lemma {:induction false} NoDataFor(events: seq<Event>, c: nat)
    requires forall d :: d in events ==> d.conn != c
    ensures DataFor(events, c) == []
    decreases |events|
  {
    if events != [] {
      NoDataFor(events[..|events| - 1], c);
    }
  }

  /** A whole turn: connections accepted, bytes appended, closed ones gone, and apart from that
      only requests served: a connection that its peer has not closed is still there unless the
      server had a reason to end it. */
  ghost predicate Turned(h0: Histories, h1: Histories, b0: Buffers, b1: Buffers, events: seq<Event>) {
    forall c: nat :: TurnedFor(c, h0, h1, b0, b1, events)
  }

  ghost predicate TurnedFor(c: nat, h0: Histories, h1: Histories, b0: Buffers, b1: Buffers, events: seq<Event>) {
    (c in h1 <==> c in h0 || Accept(c) in events) &&
    (c in h1 && c !in h0 ==> h1[c].received == []) &&
    (c in h0 && c !in b0 ==> h1[c] == h0[c]) &&
    (c in h0 && c in b0 ==> h1[c].received == h0[c].received + DataFor(events, c)) &&
    (c in h0 && c in b0 && Recv(c, []) in events ==> h1[c].fate == Closed) &&
    (c in b1 ==> (c in b0 && Recv(c, []) !in events) || Accept(c) in events) &&
    (c in h1 && ((c in b0 && Recv(c, []) !in events) || Accept(c) in events) ==> c in b1 || Ended(h1[c]))
  }

  lemma {:induction false} HeardAndServed(h0: Histories, h1: Histories, h2: Histories, b0: Buffers, b1: Buffers,
                                          b2: Buffers, events: seq<Event>)
    requires Heard(h0, h1, b0, b1, events) && OnlyServing(h1, h2, b1, b2)
    requires forall e :: e in events && e.Accept? ==> e.conn !in h0
    ensures Turned(h0, h2, b0, b2, events)
  {
    hide DataFor;
    forall c: nat
      ensures TurnedFor(c, h0, h2, b0, b2, events)
    {
      assert HeardBy(c, h0, h1, b0, b1, events);
      assert Accept(c) in events ==> c !in h0;
    }
  }

  lemma {:induction false} NothingServed(h: Histories, b: Buffers)
    ensures OnlyServing(h, h, b, b)
  {
  }

  lemma {:induction false} NothingHeard(h: Histories, b: Buffers)
    ensures Heard(h, h, b, b, [])
  {
  }

  lemma {:induction false} OthersKept(h0: Histories, h1: Histories, b0: Buffers, b1: Buffers, c: nat)
    requires OnlyServed(h0, h1, b0, b1, c)
    ensures forall d :: d != c ==> (d in b1 <==> d in b0) && (d in b0 ==> b1[d] == b0[d])
  {
  }

  lemma {:induction false} OneEach(events: seq<Event>, i: nat)
    requires i < |events|
    requires forall i, j :: 0 <= i < j < |events| ==> events[i].conn != events[j].conn
    ensures forall d :: d in events[..i] ==> d.conn != events[i].conn
  {
  }

  /** A connection about to be accepted is not known yet. */
  lemma {:induction false} NotYet(h0: Histories, h1: Histories, b0: Buffers, b1: Buffers, events: seq<Event>, i: nat)
    requires i < |events| && Heard(h0, h1, b0, b1, events[..i])
    requires forall d :: d in events[..i] ==> d.conn != events[i].conn
    requires forall e :: e in events && e.Accept? ==> e.conn !in h0
    ensures events[i].Accept? ==> events[i].conn !in h1
  {
    assert events[i] in events;
    assert HeardBy(events[i].conn, h0, h1, b0, b1, events[..i]);
  }

  class RegioTcpServer {
    const dev: Device
    /** The clients dict: connections in insertion order, and their unprocessed bytes. */
    var order: seq<nat>
    var bufs: Buffers
    ghost var history: Histories
    /** The operations the device has been given so far. */
    var log: seq<Entry>

    function Buf(c: nat): Option<seq<Byte>>
      reads this
    {
      if c in bufs then Some(bufs[c]) else None
    }

    ghost predicate ConnValid(c: nat)
      requires c in history
      reads this
    {
      Accounted(history[c], Buf(c), log, c, dev)
    }

    ghost predicate Valid()
      reads this
    {
      bufs.Keys <= history.Keys &&
      (forall c :: c in order <==> c in bufs) &&
      Distinct(order) &&
      (forall c :: c in history ==> ConnValid(c)) &&
      (forall i :: 0 <= i < |log| ==> log[i].0 in history)
    }

    /** No buffer of these connections holds a complete request. */
    ghost predicate Drained(cs: set<nat>)
      reads this
    {
      forall c :: c in cs && c in bufs ==> NextRequest(bufs[c]).Incomplete?
    }

    /** Where the loop waits in select. */
    ghost predicate Settled()
      reads this
    {
      Valid() && Drained(bufs.Keys)
    }

    constructor (dev: Device)
      ensures Settled() && history == map[] && bufs == map[] && log == [] && this.dev == dev
    {
      this.dev := dev;
      order, bufs, history, log := [], map[], map[], [];
    }

    /** A new connection; every connection has a number of its own, also when the socket
        number is used again. */
    method AcceptConn(c: nat)
      requires Valid() && c !in history
      modifies this
      ensures Valid() && log == old(log)
      ensures history == old(history)[c := History([], [], [], Open)]
      ensures bufs == old(bufs)[c := []] && order == old(order) + [c]
    {
      hide Faithful, Decode, NextRequest, Of, RepliesTo, AnyRaised, StopsAtRaise, Requests, After, Without;
      FreshConn(c);
      FreshIsFaithful();
      order := order + [c];
      bufs := bufs[c := []];
      history := history[c := History([], [], [], Open)];
    }

    lemma {:induction false} FreshConn(c: nat)
      requires Valid() && c !in history
      ensures Of(log, c) == [] && RepliesTo(log, c, dev) == [] && !AnyRaised(log, c, dev) && StopsAtRaise(log, c, dev)
    {
      Unlogged(log, c, dev);
    }

    /** Received bytes, or the end of the stream. */
    method OnData(c: nat, data: seq<Byte>)
      requires Valid() && Drained({c})
      modifies this
      ensures Valid() && log == old(log)
      ensures order == if data == [] then Without(old(order), c) else old(order)
      ensures c !in old(bufs) ==> history == old(history) && bufs == old(bufs)
      ensures c in old(bufs) && data == [] ==>
                history == old(history)[c := old(history[c]).(fate := Closed)] && bufs == old(bufs) - {c}
      ensures c in old(bufs) && data != [] ==>
                history == old(history)[c := old(history[c]).(received := old(history[c]).received + data)] &&
                bufs == old(bufs)[c := old(bufs[c]) + data]
    {
      hide Faithful, Decode, NextRequest, Of, RepliesTo, AnyRaised, StopsAtRaise, Requests, After, Without;
      if c !in bufs {
        NotThere(order, c);
        return;
      }
      if data == [] {
        ClosingLosesNothing(history[c], bufs[c]);
        DropClient(c, Closed);
        return;
      }
      MoreArrives(history[c], bufs[c], data);
      bufs := bufs[c := bufs[c] + data];
      history := history[c := history[c].(received := history[c].received + data)];
    }

    /** Removes a connection from the clients. */
    method DropClient(c: nat, ghost fate: Fate)
      requires Valid() && c in bufs && !fate.Failed? && Faithful(history[c].(fate := fate), None)
      requires !history[c].fate.Failed?
      modifies this
      ensures Valid() && log == old(log)
      ensures history == old(history)[c := old(history[c]).(fate := fate)] && bufs == old(bufs) - {c}
      ensures order == Without(old(order), c)
    {
      hide Faithful, Decode, NextRequest, Of, RepliesTo, AnyRaised, StopsAtRaise, Requests, After, Without;
      WithoutMembers(order, c);
      order := Without(order, c);
      bufs := bufs - {c};
      history := history[c := history[c].(fate := fate)];
    }

    /** Serves every complete request in the buffer of c. */
    method ProcessRequests(c: nat)
      requires Valid() && c in bufs
      modifies this
      ensures Valid() && Drained({c})
      ensures OnlyServed(old(history), history, old(bufs), bufs, c) && old(log) <= log
      ensures order == old(order) || order == Without(old(order), c)
      ensures forall i :: |old(log)| <= i < |log| ==> log[i].0 == c
    {
      hide ConnValid, Faithful, Decode, NextRequest, Of, RepliesTo, AnyRaised, StopsAtRaise, Requests, After;
      hide Without, OnlyServed;
      NotServed(history, bufs, c);
      while |bufs[c]| >= HEAD_SIZE
        invariant Valid() && c in bufs && order == old(order)
        invariant OnlyServed(old(history), history, old(bufs), bufs, c) && old(log) <= log
        invariant forall i :: |old(log)| <= i < |log| ==> log[i].0 == c
        decreases |bufs[c]|
      {
        var next := NextRequest(bufs[c]);
        match next {
          case Malformed =>
            MalformedMayClose(c);
            ServedOnce(old(history), history, old(bufs), bufs, c, history[c].(fate := BadHeader), []);
            DropClient(c, BadHeader);
            return;
          case Incomplete =>
            return;
          case Complete(rqst, len) =>
            ghost var (was, buf) := (history, bufs);
            var answer := Perform(c, rqst, len);
            ServedOnce(old(history), was, old(bufs), buf, c, history[c], buf[c][len..]);
            if answer.Raised? {
              return;
            }
        }
      }
      ShortIsIncomplete(bufs[c]);
    }

    lemma {:induction false} MalformedMayClose(c: nat)
      requires Valid() && c in bufs && NextRequest(bufs[c]).Malformed?
      ensures c in history && history[c].fate.Open? && Faithful(history[c].(fate := BadHeader), None)
    {
      MalformedEnds(history[c], bufs[c]);
    }

    /** Takes one request out of the buffer, gives it to the device, waits for the answer and
        replies. When the device raises, the handler in the loop drops the connection. */
    method Perform(c: nat, rqst: Request, len: nat) returns (answer: Answer)
      requires Valid() && c in bufs && NextRequest(bufs[c]) == Complete(rqst, len)
      modifies this
      ensures Valid()
      ensures log == old(log) + [(c, rqst)] && answer == dev(Requests(log))
      ensures !answer.Raised? ==> order == old(order) && bufs == old(bufs)[c := old(bufs[c])[len..]]
      ensures answer.Raised? ==> order == Without(old(order), c) && bufs == old(bufs) - {c}
      ensures history == old(history)[c := old(history[c]).(
                operations := old(history[c]).operations + [rqst],
                replies := old(history[c]).replies + ReplyTo(rqst, answer),
                fate := if answer.Raised? then Failed else Open)]
    {
      hide Accounted, NextRequest, Requests, Without;
      AccountedOnce(history[c], bufs[c], log, c, rqst, len, dev);
      forall d | d in history && d != c
        ensures Accounted(history[d], Buf(d), log + [(c, rqst)], d, dev)
      {
        assert ConnValid(d);
        OtherAccounted(history[d], Buf(d), log, c, rqst, d, dev);
      }
      WithoutMembers(order, c);
      log := log + [(c, rqst)];
      answer := dev(Requests(log));
      history := history[c := history[c].(operations := history[c].operations + [rqst],
                                          replies := history[c].replies + ReplyTo(rqst, answer),
                                          fate := if answer.Raised? then Failed else Open)];
      if answer.Raised? {
        order := Without(order, c);
        bufs := bufs - {c};
      } else {
        bufs := bufs[c := bufs[c][len..]];
      }
    }

    /** One turn of the select loop: the events of this select, then the requests of every
        client in turn. A connection has at most one event per select. */
    method Turn(events: seq<Event>)
      requires Settled()
      requires forall i, j :: 0 <= i < j < |events| ==> events[i].conn != events[j].conn
      requires forall e :: e in events && e.Accept? ==> e.conn !in history
      modifies this
      ensures Settled() && old(log) <= log
      ensures Turned(old(history), history, old(bufs), bufs, events)
      ensures InTurn(log, |old(log)|, OrderAfter(old(order), events))
    {
      hide Faithful, Decode, NextRequest, Of, RepliesTo, AnyRaised, StopsAtRaise, Requests, After, ConnValid;
      hide Without, Heard, Turned, OnlyServing, Waiting, OrderAfter, InTurn;
      NothingHeard(history, bufs);
      OrderStep(order, events, 0);
      for i := 0 to |events|
        invariant Valid() && log == old(log)
        invariant Drained(Waiting(events[i..]))
        invariant Heard(old(history), history, old(bufs), bufs, events[..i])
        invariant order == OrderAfter(old(order), events[..i])
      {
        OrderStep(old(order), events, i);
        WaitingStep(events, i);
        OneEach(events, i);
        NotYet(old(history), history, old(bufs), bufs, events, i);
        ghost var (h, b) := (history, bufs);
        match events[i] {
          case Accept(c) => AcceptConn(c);
          case Recv(c, data) => OnData(c, data);
        }
        HeardStep(old(history), h, history, old(bufs), b, bufs, events[..i], events[i]);
        assert events[..i] + [events[i]] == events[..i + 1];
      }
      assert events[..|events|] == events;
      ghost var (h, b) := (history, bufs);
      ServeAll();
      HeardAndServed(old(history), h, history, old(bufs), b, bufs, events);
    }

    /** Serves every client in the order of a snapshot of the dict. */
    method ServeAll()
      requires Valid()
      modifies this
      ensures Settled() && OnlyServing(old(history), history, old(bufs), bufs) && old(log) <= log
      ensures InTurn(log, |old(log)|, old(order))
    {
      hide Faithful, NextRequest, ConnValid, Valid, OnlyServed, OnlyServing, InTurn;
      var snapshot := order;
      OrderIsKeys();
      NothingServed(history, bufs);
      NoTurnYet(log);
      for i := 0 to |snapshot|
        invariant Valid() && OnlyServing(old(history), history, old(bufs), bufs) && old(log) <= log
        invariant forall c :: Buf(c).Some? ==> c in snapshot
        invariant forall j :: i <= j < |snapshot| ==> Buf(snapshot[j]).Some?
        invariant forall j :: 0 <= j < i ==> Idle(Buf(snapshot[j]))
        invariant InTurn(log, |old(log)|, snapshot[..i])
      {
        ghost var (h, b, l) := (history, bufs, log);
        ProcessRequests(snapshot[i]);
        OneMoreTurn(l, log, |old(log)|, snapshot, i);
        ServingStep(old(history), h, history, old(bufs), b, bufs, snapshot[i]);
        OthersKept(h, history, b, bufs, snapshot[i]);
        assert Idle(Buf(snapshot[i]));
      }
      assert snapshot[..|snapshot|] == snapshot;
      forall c | c in bufs ensures NextRequest(bufs[c]).Incomplete? {
        assert Buf(c).Some?;
        var j :| 0 <= j < |snapshot| && snapshot[j] == c;
        assert Idle(Buf(snapshot[j]));
      }
    }

    /** What holds at every select point: the operations of a connection are the decoding of
        all it has received - up to the one that raised, if one did - its buffer is the bytes
        of a request still incomplete, and it has been sent the replies to those operations. */
    lemma {:induction false} AtSelect(c: nat)
      requires Settled() && c in history
      ensures var h, d := history[c], Decode(history[c].received);
              h.operations == Of(log, c) && h.replies == RepliesTo(log, c, dev) && h.operations <= d.requests &&
              (h.operations == d.requests || AnyRaised(log, c, dev)) &&
              (c in bufs ==> d.wellFormed && bufs[c] == d.rest && NextRequest(bufs[c]).Incomplete?) &&
              (d.wellFormed || Ended(h))
    {
      if c in bufs {
        AfterNothing(Decode(bufs[c]));
        assert history[c].operations + [] == history[c].operations;
      }
    }

    /** With one client the server does to the device, and sends back, exactly what the
        blocking single-client server would on the same bytes, however they arrived - and when
        a malformed header or the device ended the connection, also on all bytes that `more`
        of the stream would have brought. */
    lemma {:induction false} SameAsSingleClient(c: nat, more: seq<Byte>)
      requires Settled() && c in history && forall i :: 0 <= i < |log| ==> log[i].0 == c
      requires more == [] || history[c].fate.BadHeader? || history[c].fate.Failed?
      ensures var s := Serve(Decode(history[c].received + more).requests, dev);
              Requests(log) == history[c].operations == s.operations && history[c].replies == s.replies
    {
      hide Serve, Decode, NextRequest, Of, RepliesTo, AnyRaised, StopsAtRaise, Requests, After, Drained;
      AtSelect(c);
      StopsThere(c);
      AloneIsServe(log, c, dev);
      var (ops, all) := (history[c].operations, Decode(history[c].received + more).requests);
      MoreRequests(history[c].received, more);
      if AnyRaised(log, c, dev) {
        ServeStops(ops, all[|ops|..], dev);
        assert ops + all[|ops|..] == all;
      }
    }

    lemma {:induction false} RightAtSelect(c: nat, life: Life)
      requires Settled() && c in history && Follows(c, life, history, bufs)
      ensures ServedRight(c, life, history[c], c in bufs, log, dev)
      ensures history.Keys == {c} ==> ServedAlone(life.sent, history[c], log, dev)
    {
      hide Decode, Serve, NextRequest, Of, RepliesTo, AnyRaised, StopsAtRaise, Requests, Drained;
      AtSelect(c);
      StopsThere(c);
      var more := life.sent[|history[c].received|..];
      assert life.sent == history[c].received + more;
      MoreRequests(history[c].received, more);
      if history.Keys == {c} {
        assert forall i :: 0 <= i < |log| ==> log[i].0 in history.Keys;
        SameAsSingleClient(c, more);
      }
    }

    lemma {:induction false} AllRight(turns: seq<seq<Event>>)
      requires Settled() && AllFollow(turns, history, bufs)
      ensures forall c: nat :: c in history <==> !LifeOf(turns, c).Unknown?
      ensures forall c :: c in history ==>
                ServedRight(c, LifeOf(turns, c), history[c], c in bufs, log, dev) &&
                (history.Keys == {c} ==> ServedAlone(LifeOf(turns, c).sent, history[c], log, dev))
    {
      hide Settled, LifeOf, ServedRight, ServedAlone;
      assert forall c: nat :: Follows(c, LifeOf(turns, c), history, bufs);
      forall c | c in history
        ensures ServedRight(c, LifeOf(turns, c), history[c], c in bufs, log, dev)
        ensures history.Keys == {c} ==> ServedAlone(LifeOf(turns, c).sent, history[c], log, dev)
      {
        assert Follows(c, LifeOf(turns, c), history, bufs);
        RightAtSelect(c, LifeOf(turns, c));
      }
    }

    lemma {:induction false} StopsThere(c: nat)
      requires Valid() && c in history
      ensures StopsAtRaise(log, c, dev) && (history[c].fate.Failed? <==> AnyRaised(log, c, dev))
      ensures history[c].fate.BadHeader? ==> !Decode(history[c].received).wellFormed
    {
      hide Decode, NextRequest, Of, RepliesTo, AnyRaised, StopsAtRaise, Requests, After;
      assert ConnValid(c);
    }

    lemma {:induction false} OrderIsKeys()
      requires Valid()
      ensures Distinct(order) && forall c :: c in order <==> Buf(c).Some?
    {
    }
  }

  /** Later bytes bring later requests, or none at all behind a malformed header. */
  lemma {:induction false} MoreRequests(a: seq<Byte>, b: seq<Byte>)
    ensures Decode(a).requests <= Decode(a + b).requests
    ensures b == [] || !Decode(a).wellFormed ==> Decode(a + b).requests == Decode(a).requests
    ensures !Decode(a).wellFormed ==> !Decode(a + b).wellFormed
  {
    hide Decode;
    DecodeInParts(a, b);
    if b == [] {
      assert a + b == a;
    }
  }

  /** The entries of the log from n on are of these connections, those of an earlier one first. */
  ghost predicate InTurn(log: seq<Entry>, n: nat, order: seq<nat>) {
    (forall i :: n <= i < |log| ==> log[i].0 in order) &&
    forall i, j :: n <= i < j < |log| ==> NotAfter(order, log[i].0, log[j].0)
  }

  ghost predicate NotAfter(order: seq<nat>, a: nat, b: nat) {
    forall p, q :: 0 <= p < |order| && 0 <= q < |order| && order[p] == a && order[q] == b ==> p <= q
  }

  lemma {:induction false} NoTurnYet(log: seq<Entry>)
    ensures InTurn(log, |log|, [])
  {
  }

  lemma {:induction false} OneMoreTurn(was: seq<Entry>, now: seq<Entry>, n: nat, order: seq<nat>, i: nat)
    requires n <= |was| && was <= now && i < |order| && Distinct(order) && InTurn(was, n, order[..i])
    requires forall k :: |was| <= k < |now| ==> now[k].0 == order[i]
    ensures InTurn(now, n, order[..i + 1])
  {
    var later := order[..i + 1];
    assert later == order[..i] + [order[i]];
    forall k | n <= k < |now| ensures now[k].0 in later {
      if k < |was| {
        assert now[k] == was[k];
      }
    }
    forall k, j | n <= k < j < |now| ensures NotAfter(later, now[k].0, now[j].0) {
      forall p, q | 0 <= p < |later| && 0 <= q < |later| && later[p] == now[k].0 && later[q] == now[j].0
        ensures p <= q
      {
        if j < |was| {
          assert now[k] == was[k] && now[j] == was[j] && NotAfter(order[..i], was[k].0, was[j].0);
          InEarlier(was, n, order, i, k, p);
          InEarlier(was, n, order, i, j, q);
          assert order[..i][p] == was[k].0 && order[..i][q] == was[j].0;
        } else {
          assert q == i;
        }
      }
    }
  }

  lemma {:induction false} InEarlier(was: seq<Entry>, n: nat, order: seq<nat>, i: nat, k: nat, p: nat)
    requires i < |order| && Distinct(order) && InTurn(was, n, order[..i]) && n <= k < |was|
    requires p <= i && order[p] == was[k].0
    ensures p < i
  {
    var e := was[k].0;
    assert e in order[..i];
    var m :| 0 <= m < i && order[..i][m] == e;
    assert order[m] == e;
  }

  /** The clients in the order they were accepted, closed ones gone. */
  function OrderAfter(order: seq<nat>, events: seq<Event>): seq<nat> {
    if events == [] then order
    else
      var (was, last) := (OrderAfter(order, events[..|events| - 1]), events[|events| - 1]);
      match last
      case Accept(c) => was + [c]
      case Recv(c, data) => if data == [] then Without(was, c) else was
  }

  lemma {:induction false} OrderStep(order: seq<nat>, events: seq<Event>, i: nat)
    requires i <= |events|
    ensures OrderAfter(order, events[..0]) == order
    ensures i < |events| ==>
              var (was, now) := (OrderAfter(order, events[..i]), OrderAfter(order, events[..i + 1]));
              now == if events[i].Accept? then was + [events[i].conn]
                     else if events[i].data == [] then Without(was, events[i].conn) else was
  {
    hide Without;
    if i < |events| {
      assert events[..i + 1][..i] == events[..i];
    }
  }

  lemma {:induction false} NotThere(s: seq<nat>, c: nat)
    requires c !in s
    ensures Without(s, c) == s
    decreases |s|
  {
    if s != [] {
      NotThere(s[1..], c);
      assert s == [s[0]] + s[1..];
    }
  }

  /** A buffer with no complete request in it, or none at all. */
  predicate Idle(buf: Option<seq<Byte>>) {
    buf.Some? ==> NextRequest(buf.value).Incomplete?
  }

  /** The connections that still have an event to come. */
  function Waiting(events: seq<Event>): set<nat> {
    set e | e in events :: e.conn
  }

  lemma {:induction false} WaitingStep(events: seq<Event>, i: nat)
    requires i < |events|
    requires forall i, j :: 0 <= i < j < |events| ==> events[i].conn != events[j].conn
    ensures events[i].conn in Waiting(events[i..])
    ensures Waiting(events[i + 1..]) == Waiting(events[i..]) - {events[i].conn}
  {
    assert events[i..] == [events[i]] + events[i + 1..];
    forall e | e in events[i + 1..] ensures e.conn != events[i].conn {
      var j :| i + 1 <= j < |events| && events[j] == e;
    }
  }

  function Without(s: seq<nat>, c: nat): seq<nat> {
    if s == [] then [] else (if s[0] == c then [] else [s[0]]) + Without(s[1..], c)
  }

  predicate Distinct(s: seq<nat>) {
    forall i, j :: 0 <= i < j < |s| ==> s[i] != s[j]
  }

  lemma {:induction false} WithoutMembers(s: seq<nat>, c: nat)
    ensures forall d :: d in Without(s, c) <==> d in s && d != c
    ensures Distinct(s) ==> Distinct(Without(s, c))
    decreases |s|
  {
    if s != [] {
      WithoutMembers(s[1..], c);
      var rest := Without(s[1..], c);
      assert s == [s[0]] + s[1..];
      assert s[0] != c ==> Without(s, c) == [s[0]] + rest;
      assert s[0] == c ==> Without(s, c) == rest;
      if Distinct(s) {
        assert Distinct(s[1..]);
        forall i | 0 <= i < |rest| ensures rest[i] != s[0] {
          assert rest[i] in rest;
        }
      }
    }
  }

  lemma {:induction false} Unlogged(log: seq<Entry>, c: nat, dev: Device)
    requires forall i :: 0 <= i < |log| ==> log[i].0 != c
    ensures Of(log, c) == [] && RepliesTo(log, c, dev) == [] && !AnyRaised(log, c, dev) && StopsAtRaise(log, c, dev)
    decreases |log|
  {
    if log != [] {
      Unlogged(log[..|log| - 1], c, dev);
    }
  }

  // ------------------------------------------------------------------ one connection

  lemma {:induction false} FreshIsFaithful()
    ensures Faithful(History([], [], [], Open), Some([]))
  {
    AfterNothing(Decode([]));
  }

  lemma {:induction false} ShortIsIncomplete(buf: seq<Byte>)
    ensures |buf| < HEAD_SIZE ==> NextRequest(buf).Incomplete?
  {
  }

  /** At a select point closing a connection loses no complete request. */
  lemma {:induction false} ClosingLosesNothing(h: History, buf: seq<Byte>)
    requires Faithful(h, Some(buf)) && NextRequest(buf).Incomplete?
    ensures h.fate.Open? && Faithful(h.(fate := Closed), None)
  {
    assert h.operations + [] == h.operations;
  }

  lemma {:induction false} MoreArrives(h: History, buf: seq<Byte>, data: seq<Byte>)
    requires Faithful(h, Some(buf)) && NextRequest(buf).Incomplete?
    ensures Faithful(h.(received := h.received + data), Some(buf + data))
  {
    DecodeInParts(h.received, data);
    assert h.operations + [] == h.operations;
  }

  lemma {:induction false} MalformedEnds(h: History, buf: seq<Byte>)
    requires Faithful(h, Some(buf)) && NextRequest(buf).Malformed?
    ensures h.fate.Open? && Faithful(h.(fate := BadHeader), None)
  {
    assert h.operations + [] == h.operations;
  }

  lemma {:induction false} OneServed(h: History, buf: seq<Byte>, rqst: Request, len: nat)
    requires Faithful(h, Some(buf)) && NextRequest(buf) == Complete(rqst, len)
    ensures h.fate.Open?
    ensures forall replies :: Faithful(h.(operations := h.operations + [rqst], replies := replies), Some(buf[len..]))
    ensures forall replies ::
              Faithful(h.(operations := h.operations + [rqst], replies := replies, fate := Failed), None)
  {
    hide NextRequest;
    AfterTwice(h.operations, [rqst], Decode(buf[len..]));
  }

  // ------------------------------------------------------------------ whole runs

  /** What the peer of a connection has done: nothing yet, or connected and sent these bytes,
      or closed the connection behind them. */
  datatype Life = Unknown | Up(sent: seq<Byte>) | Shut(sent: seq<Byte>)

  function LifeOf(turns: seq<seq<Event>>, c: nat): Life {
    if turns == [] then Unknown
    else
      var (was, events) := (LifeOf(turns[..|turns| - 1], c), turns[|turns| - 1]);
      match was
      case Unknown => if Accept(c) in events then Up([]) else Unknown
      case Up(sent) =>
        if Recv(c, []) in events then Shut(sent + DataFor(events, c)) else Up(sent + DataFor(events, c))
      case Shut(sent) => was
  }

  /** What select may report: one event per connection and turn, and no connection is accepted
      twice. */
  ghost predicate Possible(turns: seq<seq<Event>>) {
    forall k :: 0 <= k < |turns| ==> PossibleTurn(turns[..k], turns[k])
  }

  ghost predicate PossibleTurn(before: seq<seq<Event>>, events: seq<Event>) {
    (forall i, j :: 0 <= i < j < |events| ==> events[i].conn != events[j].conn) &&
    (forall e :: e in events && e.Accept? ==> LifeOf(before, e.conn).Unknown?)
  }

  /** A connected peer is served, and all it has sent has been received, unless the server has
      ended its connection; then the bytes behind are ignored. */
  ghost predicate Follows(c: nat, life: Life, h: Histories, b: Buffers) {
    (c in h <==> !life.Unknown?) &&
    (c in h ==> h[c].received <= life.sent && (h[c].received == life.sent || Ended(h[c]))) &&
    (c in b ==> c in h && life.Up? && h[c].received == life.sent) &&
    (c in h && life.Up? ==> c in b || Ended(h[c]))
  }

  lemma {:induction false} FollowsOn(c: nat, turns: seq<seq<Event>>, events: seq<Event>,
                                     h0: Histories, h1: Histories, b0: Buffers, b1: Buffers)
    requires Follows(c, LifeOf(turns, c), h0, b0) && TurnedFor(c, h0, h1, b0, b1, events)
    requires Accept(c) in events ==> LifeOf(turns, c).Unknown?
    ensures Follows(c, LifeOf(turns + [events], c), h1, b1)
  {
    hide DataFor;
    assert (turns + [events])[..|turns + [events]| - 1] == turns;
  }

  ghost predicate AllFollow(turns: seq<seq<Event>>, h: Histories, b: Buffers) {
    forall c: nat :: Follows(c, LifeOf(turns, c), h, b)
  }

  lemma {:induction false} AllFollowOn(turns: seq<seq<Event>>, events: seq<Event>,
                                       h0: Histories, h1: Histories, b0: Buffers, b1: Buffers)
    requires AllFollow(turns, h0, b0) && PossibleTurn(turns, events) && Turned(h0, h1, b0, b1, events)
    ensures AllFollow(turns + [events], h1, b1)
  {
    hide DataFor, LifeOf, Follows, TurnedFor;
    forall c: nat ensures Follows(c, LifeOf(turns + [events], c), h1, b1) {
      assert Follows(c, LifeOf(turns, c), h0, b0) && TurnedFor(c, h0, h1, b0, b1, events);
      FollowsOn(c, turns, events, h0, h1, b0, b1);
    }
  }

  lemma {:induction false} AcceptedIsNew(turns: seq<seq<Event>>, events: seq<Event>, h: Histories, b: Buffers)
    requires AllFollow(turns, h, b) && PossibleTurn(turns, events)
    ensures forall e :: e in events && e.Accept? ==> e.conn !in h
  {
    hide LifeOf;
    forall e | e in events && e.Accept? ensures e.conn !in h {
      assert Follows(e.conn, LifeOf(turns, e.conn), h, b);
    }
  }

  /** What a connection gets out of a run: its requests are those its peer spelled, all of them
      unless one raised, and it is sent the replies to them. It stays until its peer closes it,
      unless a malformed header or the device ends it. */
  ghost predicate ServedRight(c: nat, life: Life, h: History, open: bool, log: seq<Entry>, dev: Device) {
    !life.Unknown? &&
    var d := Decode(life.sent);
    h.operations == Of(log, c) && h.replies == RepliesTo(log, c, dev) && h.operations <= d.requests &&
    (h.operations == d.requests || AnyRaised(log, c, dev)) &&
    (h.fate.Failed? <==> AnyRaised(log, c, dev)) &&
    (h.fate.BadHeader? <==> !d.wellFormed && !AnyRaised(log, c, dev)) &&
    (life.Up? ==> open || Ended(h))
  }

  /** A server alone with one client does and replies what the blocking server would. */
  ghost predicate ServedAlone(sent: seq<Byte>, h: History, log: seq<Entry>, dev: Device) {
    var s := Serve(Decode(sent).requests, dev);
    Requests(log) == h.operations == s.operations && h.replies == s.replies
  }

  /** Main result: a run of the server over any turns. Every connected client has its whole
      stream served in order, however it was cut up and whatever the others sent, and a client
      that is alone is served as by the blocking server. */
  method RunTurns(dev: Device, turns: seq<seq<Event>>) returns (server: RegioTcpServer)
    requires Possible(turns)
    ensures server.Settled() && server.dev == dev
    ensures forall c: nat :: c in server.history <==> !LifeOf(turns, c).Unknown?
    ensures forall c :: c in server.history ==>
              ServedRight(c, LifeOf(turns, c), server.history[c], c in server.bufs, server.log, dev) &&
              (server.history.Keys == {c} ==>
                ServedAlone(LifeOf(turns, c).sent, server.history[c], server.log, dev))
  {
    hide *;
    server := new RegioTcpServer(dev);
    NoneFollow();
    for k := 0 to |turns|
      invariant server.Settled() && server.dev == dev && fresh(server)
      invariant AllFollow(turns[..k], server.history, server.bufs)
    {
      ghost var (h, b) := (server.history, server.bufs);
      MayTurn(turns, k);
      AcceptedIsNew(turns[..k], turns[k], h, b);
      server.Turn(turns[k]);
      AllFollowOn(turns[..k], turns[k], h, server.history, b, server.bufs);
      assert turns[..k] + [turns[k]] == turns[..k + 1];
    }
    assert turns[..|turns|] == turns;
    server.AllRight(turns);
  }

  lemma {:induction false} NoneFollow()
    ensures AllFollow([], map[], map[])
  {
  }

  lemma {:induction false} MayTurn(turns: seq<seq<Event>>, k: nat)
    requires Possible(turns) && k < |turns|
    ensures PossibleTurn(turns[..k], turns[k])
    ensures forall i, j :: 0 <= i < j < |turns[k]| ==> turns[k][i].conn != turns[k][j].conn
  {
  }

  // ------------------------------------------------------------------ a server with one client

  /** With one client the device and the client see what serving its requests alone gives. */
  lemma {:induction false} AloneIsServe(log: seq<Entry>, c: nat, dev: Device)
    requires forall i :: 0 <= i < |log| ==> log[i].0 == c
    requires StopsAtRaise(log, c, dev)
    ensures Of(log, c) == Requests(log)
    ensures Serve(Requests(log), dev) == Service(Requests(log), RepliesTo(log, c, dev), AnyRaised(log, c, dev))
    decreases |log|
  {
    if log != [] {
      var init := log[..|log| - 1];
      AloneIsServe(init, c, dev);
      assert Requests(log)[..|log| - 1] == Requests(init);
    }
  }

  function Joined(chunks: seq<seq<Byte>>): seq<Byte> {
    if chunks == [] then [] else Joined(chunks[..|chunks| - 1]) + chunks[|chunks| - 1]
  }

  /** The turns of a server whose only client connects and sends these chunks. */
  function Feed(chunks: seq<seq<Byte>>): seq<seq<Event>> {
    if chunks == [] then [[Accept(0)]] else Feed(chunks[..|chunks| - 1]) + [[Recv(0, chunks[|chunks| - 1])]]
  }

  lemma {:induction false} FeedLife(chunks: seq<seq<Byte>>, c: nat)
    requires [] !in chunks
    ensures LifeOf(Feed(chunks), c) == if c == 0 then Up(Joined(chunks)) else Unknown
    decreases |chunks|
  {
    if chunks == [] {
      assert Feed(chunks)[..0] == [] && Accept(c) in [Accept(0)] <==> c == 0;
    } else {
      var (init, last) := (chunks[..|chunks| - 1], chunks[|chunks| - 1]);
      FeedLife(init, c);
      assert Feed(chunks)[..|Feed(chunks)| - 1] == Feed(init);
      assert last in chunks;
      assert [Recv(0, last)][..0] == [] && DataFor([], c) == [];
      assert [] + last == last && Joined(init) + [] == Joined(init);
    }
  }

  lemma {:induction false} FeedIsPossible(chunks: seq<seq<Byte>>)
    ensures Possible(Feed(chunks))
    decreases |chunks|
  {
    hide LifeOf;
    if chunks == [] {
      assert LifeOf([], 0).Unknown? by {
        NoTurns(0);
      }
      assert Feed(chunks)[..0] == [];
    } else {
      var init := Feed(chunks[..|chunks| - 1]);
      FeedIsPossible(chunks[..|chunks| - 1]);
      forall k | 0 <= k < |Feed(chunks)| ensures PossibleTurn(Feed(chunks)[..k], Feed(chunks)[k]) {
        if k < |init| {
          assert Feed(chunks)[..k] == init[..k] && PossibleTurn(init[..k], init[k]);
        }
      }
    }
  }

  lemma {:induction false} NoTurns(c: nat)
    ensures LifeOf([], c).Unknown?
  {
  }

  /** Main result: on every byte stream, however it arrives in chunks, the two servers do the same
      to the device and send the same replies. */
  method BothServers(dev: Device, chunks: seq<seq<Byte>>)
      returns (multi: RegioTcpServer, operations: seq<Request>, replies: seq<Byte>)
    requires [] !in chunks
    ensures 0 in multi.history && Requests(multi.log) == operations && multi.history[0].replies == replies
    ensures Of(multi.log, 0) == operations && RepliesTo(multi.log, 0, dev) == replies
  {
    hide *;
    FeedIsPossible(chunks);
    multi := RunTurns(dev, Feed(chunks));
    forall c: nat ensures LifeOf(Feed(chunks), c) == if c == 0 then Up(Joined(chunks)) else Unknown {
      FeedLife(chunks, c);
    }
    assert multi.history.Keys == {0};
    var conn := new TcpServerSingle.Socket(Joined(chunks));
    operations, replies := TcpServerSingle.HandleClient(conn, dev);
    AloneIsBlocking(multi, Joined(chunks), operations, replies);
  }

  lemma {:induction false} AloneIsBlocking(multi: RegioTcpServer, sent: seq<Byte>,
                                           operations: seq<Request>, replies: seq<Byte>)
    requires 0 in multi.history
    requires ServedRight(0, Up(sent), multi.history[0], 0 in multi.bufs, multi.log, multi.dev)
    requires ServedAlone(sent, multi.history[0], multi.log, multi.dev)
    requires Serve(Decode(sent).requests, multi.dev).operations == operations
    requires Serve(Decode(sent).requests, multi.dev).replies == replies
    ensures Requests(multi.log) == operations && multi.history[0].replies == replies
    ensures Of(multi.log, 0) == operations && RepliesTo(multi.log, 0, multi.dev) == replies
  {
    hide Serve, Decode, Of, RepliesTo, AnyRaised, Requests;
  }
}
