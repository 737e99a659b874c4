/** A locked client and a server over two FIFO byte channels: every read gets the reply to its
    own request, with what a flat memory holds after all earlier writes. */
module TcpEndToEnd {
  import opened Wrappers
  import opened Bytes
  import opened Regions
  import opened TcpWire

  // ------------------------------------------------------------------ the flat memory

  /** A memory cell; what was never written reads as zero. */
  function Cell(m: ByteMap, a: int): Byte {
    if a in m then m[a] else 0
  }

  function Fetch(m: ByteMap, addr: nat, size: nat): (bs: seq<Byte>)
    ensures |bs| == size
  {
    if size == 0 then [] else Fetch(m, addr, size - 1) + [Cell(m, addr + size - 1)]
  }

  lemma {:induction false} FetchedCells(m: ByteMap, addr: nat, size: nat, k: nat)
    requires k < size
    ensures Fetch(m, addr, size)[k] == Cell(m, addr + k)
    decreases size
  {
    if k < size - 1 {
      FetchedCells(m, addr, size - 1, k);
    }
  }

  function Apply(m: ByteMap, r: Request): ByteMap {
    if r.Write? then m + Written(r.addr, r.data) else m
  }

  /** The memory after a list of requests. */
  function ApplyAll(m: ByteMap, rs: seq<Request>): ByteMap {
    if rs == [] then m else Apply(ApplyAll(m, rs[..|rs| - 1]), rs[|rs| - 1])
  }

  // ------------------------------------------------------------------ states and steps

  /** Where the lock holder stands. A writer lets go of the lock as soon as its bytes are
      sent; a reader keeps it until its data has arrived. Broken: it raised an error. */
  datatype Client = Unlocked | AwaitHead(addr: nat, size: nat) | AwaitData(addr: nat, size: nat) | Broken

  /** toServer and toClient are the bytes under way; issued is every request sent so far,
      results what the finished reads returned. */
  datatype State = State(
    client: Client, toServer: seq<Byte>, buf: seq<Byte>, mem: ByteMap, toClient: seq<Byte>,
    issued: seq<Request>, results: seq<seq<Byte>>)

  /** A task writes or reads, the server receives some bytes or serves a complete request, the
      reader takes a reply header or its data. */
  datatype Action = StartWrite(data: seq<Byte>, addr: nat) | StartRead(addr: nat, size: nat)
                  | Receive(count: nat) | ServeNext | TakeHead | TakeData

  predicate CheckArgs(addr: nat, size: nat) {
    addr <= ADDR_MAX && 0 < size <= SIZE_MAX
  }

  /** The state after an action, None when it cannot happen now. */
  function Step(s: State, a: Action): Option<State> {
    match a
    case StartWrite(data, addr) =>
      if s.client.Unlocked? && CheckArgs(addr, |data|) then
        var r := Write(addr, data);
        Some(s.(toServer := s.toServer + Encode(r), issued := s.issued + [r]))
      else None
    case StartRead(addr, size) =>
      if s.client.Unlocked? && CheckArgs(addr, size) then
        var r := Read(addr, size);
        Some(s.(client := AwaitHead(addr, size), toServer := s.toServer + Encode(r), issued := s.issued + [r]))
      else None
    case Receive(count) =>
      if count <= |s.toServer| then Some(s.(buf := s.buf + s.toServer[..count], toServer := s.toServer[count..]))
        else None
    case ServeNext =>
      var next := NextRequest(s.buf);
      if next.Complete? then
        var answer := Done(if next.rqst.Read? then Fetch(s.mem, next.rqst.addr, next.rqst.size) else []);
        Some(s.(buf := s.buf[next.len..], mem := Apply(s.mem, next.rqst),
                toClient := s.toClient + ReplyTo(next.rqst, answer)))
      else None
    case TakeHead =>
      if s.client.AwaitHead? && |s.toClient| >= HEAD_SIZE then
        var h := UnpackHead(RPLY_SYNC, s.toClient[..HEAD_SIZE]);
        var rest := s.toClient[HEAD_SIZE..];
        if h.None? || h.value.flag != 0 || h.value.size != s.client.size
          then Some(s.(client := Broken, toClient := rest))
        else Some(s.(client := AwaitData(s.client.addr, s.client.size), toClient := rest))
      else None
    case TakeData =>
      if s.client.AwaitData? && |s.toClient| >= s.client.size then
        Some(s.(client := Unlocked, toClient := s.toClient[s.client.size..],
                results := s.results + [s.toClient[..s.client.size]]))
      else None
  }

  function Run(s: State, actions: seq<Action>): Option<State> {
    if actions == [] then Some(s)
    else
      var s' :- Run(s, actions[..|actions| - 1]);
      Step(s', actions[|actions| - 1])
  }

  function Start(mem: ByteMap): State {
    State(Unlocked, [], [], mem, [], [], [])
  }

  // ------------------------------------------------------------------ the invariant

  /** What a flat memory gives for the reads of a request list, in order. */
  function Expected(mem: ByteMap, rs: seq<Request>): seq<seq<Byte>> {
    if rs == [] then []
    else
      var init, r := rs[..|rs| - 1], rs[|rs| - 1];
      Expected(mem, init) + (if r.Read? then [Fetch(ApplyAll(mem, init), r.addr, r.size)] else [])
  }

  predicate OnlyWrites(rs: seq<Request>) {
    forall i :: 0 <= i < |rs| ==> rs[i].Write?
  }

  /** The requests under way are the last of the issued ones; `done` of them are served. */
  ghost predicate InTransit(s: State, mem0: ByteMap, done: nat) {
    done <= |s.issued| && (forall i :: 0 <= i < |s.issued| ==> Sendable(s.issued[i])) &&
    s.buf + s.toServer == EncodeAll(s.issued[done..]) &&
    s.mem == ApplyAll(mem0, s.issued[..done])
  }

  /** No reply is under way unless a reader waits for it, and then it is the one to its own
      request. */
  ghost predicate Matched(s: State, mem0: ByteMap, done: nat)
    requires done <= |s.issued|
  {
    match s.client
    case Unlocked =>
      s.toClient == [] && OnlyWrites(s.issued[done..]) && s.results == Expected(mem0, s.issued)
    case AwaitHead(addr, size) =>
      LastIsRead(s, addr, size) && s.results == Expected(mem0, Earlier(s)) &&
      (if done < |s.issued| then s.toClient == [] && OnlyWrites(s.issued[done..|s.issued| - 1])
       else s.toClient == PackHead(RPLY_SYNC, Head(0, size, addr)) + Fetch(ApplyAll(mem0, Earlier(s)), addr, size))
    case AwaitData(addr, size) =>
      LastIsRead(s, addr, size) && s.results == Expected(mem0, Earlier(s)) && done == |s.issued| &&
      s.toClient == Fetch(ApplyAll(mem0, Earlier(s)), addr, size)
    case Broken => false
  }

  predicate LastIsRead(s: State, addr: nat, size: nat) {
    s.issued != [] && s.issued[|s.issued| - 1] == Read(addr, size)
  }

  function Earlier(s: State): seq<Request>
    requires s.issued != []
  {
    s.issued[..|s.issued| - 1]
  }

  ghost predicate Invariant(s: State, mem0: ByteMap) {
    exists done: nat :: InTransit(s, mem0, done) && Matched(s, mem0, done)
  }

  // ------------------------------------------------------------------ every step keeps it

  lemma {:induction false} EncodeAppends(rs: seq<Request>, r: Request)
    ensures EncodeAll(rs + [r]) == EncodeAll(rs) + Encode(r)
    decreases |rs|
  {
    hide Encode;
    if rs == [] {
      assert [r][1..] == [] && EncodeAll([r]) == Encode(r) + [];
      assert [] + [r] == [r] && [] + Encode(r) == Encode(r);
    } else {
      assert (rs + [r])[1..] == rs[1..] + [r];
      EncodeAppends(rs[1..], r);
      assert Encode(rs[0]) + (EncodeAll(rs[1..]) + Encode(r)) == Encode(rs[0]) + EncodeAll(rs[1..]) + Encode(r);
    }
  }

  lemma {:induction false} IssueKeepsTransit(s: State, r: Request, mem0: ByteMap, done: nat)
    requires InTransit(s, mem0, done) && Sendable(r)
    ensures forall client ::
              InTransit(s.(client := client, toServer := s.toServer + Encode(r), issued := s.issued + [r]), mem0, done)
  {
    hide Encode, EncodeAll, ApplyAll;
    EncodeAppends(s.issued[done..], r);
    assert (s.issued + [r])[done..] == s.issued[done..] + [r];
    assert (s.issued + [r])[..done] == s.issued[..done];
    assert s.buf + (s.toServer + Encode(r)) == s.buf + s.toServer + Encode(r);
  }

  lemma {:induction false} ReceiveKeepsTransit(s: State, count: nat, mem0: ByteMap, done: nat)
    requires InTransit(s, mem0, done) && count <= |s.toServer|
    ensures InTransit(s.(buf := s.buf + s.toServer[..count], toServer := s.toServer[count..]), mem0, done)
  {
    hide EncodeAll, ApplyAll;
    assert s.toServer == s.toServer[..count] + s.toServer[count..];
    assert s.buf + s.toServer[..count] + s.toServer[count..] == s.buf + s.toServer;
  }

  /** The server can only take the next issued request that is not served yet. */
  lemma {:induction false} NextIsNextIssued(s: State, mem0: ByteMap, done: nat)
    requires InTransit(s, mem0, done) && NextRequest(s.buf).Complete?
    ensures done < |s.issued|
    ensures NextRequest(s.buf) == Complete(s.issued[done], |Encode(s.issued[done])|)
    ensures s.buf[NextRequest(s.buf).len..] + s.toServer == EncodeAll(s.issued[done + 1..])
  {
    hide NextRequest, Encode;
    NextExtends(s.buf, s.toServer);
    var left := s.issued[done..];
    EmptyIsIncomplete();
    assert left != [];
    EncodedIsNext(left[0], EncodeAll(left[1..]));
    assert left[1..] == s.issued[done + 1..];
    var len := |Encode(left[0])|;
    assert (s.buf + s.toServer)[len..] == s.buf[len..] + s.toServer;
    assert (Encode(left[0]) + EncodeAll(left[1..]))[len..] == EncodeAll(left[1..]);
  }

  lemma {:induction false} ServeKeepsTransit(s: State, mem0: ByteMap, done: nat)
    requires InTransit(s, mem0, done) && NextRequest(s.buf).Complete?
    ensures Step(s, ServeNext).Some? && InTransit(Step(s, ServeNext).value, mem0, done + 1)
  {
    hide NextRequest, EncodeAll, Encode, Apply;
    NextIsNextIssued(s, mem0, done);
    assert s.issued[..done + 1][..done] == s.issued[..done];
  }

  lemma {:induction false} ServeKeepsMatch(s: State, mem0: ByteMap, done: nat)
    requires InTransit(s, mem0, done) && Matched(s, mem0, done) && NextRequest(s.buf).Complete?
    ensures Step(s, ServeNext).Some? && Matched(Step(s, ServeNext).value, mem0, done + 1)
  {
    hide NextRequest, EncodeAll, Encode, Apply, ApplyAll, Fetch, PackHead, Expected;
    NextIsNextIssued(s, mem0, done);
    var s' := Step(s, ServeNext).value;
    assert s.toClient == [];
    var r := s.issued[done];
    if r.Read? {
      assert done == |s.issued| - 1;
    } else {
      assert s'.toClient == [] + [];
      assert s.issued[done..][1..] == s.issued[done + 1..];
      if s.client.AwaitHead? {
        assert done + 1 < |s.issued|;
      }
    }
  }

  lemma {:induction false} OneMoreWrite(mem0: ByteMap, rs: seq<Request>, r: Request)
    requires r.Write?
    ensures Expected(mem0, rs + [r]) == Expected(mem0, rs)
  {
    assert (rs + [r])[..|rs|] == rs;
    assert Expected(mem0, rs) + [] == Expected(mem0, rs);
  }

  lemma {:induction false} StartKeepsMatch(s: State, a: Action, mem0: ByteMap, done: nat)
    requires InTransit(s, mem0, done) && Matched(s, mem0, done) && Step(s, a).Some? && (a.StartWrite? || a.StartRead?)
    ensures Matched(Step(s, a).value, mem0, done)
  {
    hide EncodeAll, Encode, ApplyAll, Fetch, PackHead, Expected;
    var s' := Step(s, a).value;
    var r := s'.issued[|s.issued|];
    assert s'.issued == s.issued + [r];
    assert s'.issued[done..] == s.issued[done..] + [r];
    assert s'.issued[..|s.issued|] == s.issued;
    if a.StartWrite? {
      OneMoreWrite(mem0, s.issued, r);
    } else {
      assert s'.issued[done..|s.issued|] == s.issued[done..];
    }
  }

  lemma {:induction false} TakeHeadKeepsMatch(s: State, mem0: ByteMap, done: nat)
    requires InTransit(s, mem0, done) && Matched(s, mem0, done) && Step(s, TakeHead).Some?
    ensures Matched(Step(s, TakeHead).value, mem0, done) && done == |s.issued|
  {
    hide EncodeAll, Encode, ApplyAll, Fetch, PackHead, UnpackHead, Expected;
    var (addr, size) := (s.client.addr, s.client.size);
    assert s.toClient[..HEAD_SIZE] == PackHead(RPLY_SYNC, Head(0, size, addr));
    assert Sendable(s.issued[|s.issued| - 1]);
    UnpackIffPacked(RPLY_SYNC, s.toClient[..HEAD_SIZE], Head(0, size, addr));
  }

  /** A finished read returns what a flat memory holds after everything issued before it. */
  lemma {:induction false} TakeDataIsRight(s: State, mem0: ByteMap, done: nat)
    requires InTransit(s, mem0, done) && Matched(s, mem0, done) && Step(s, TakeData).Some?
    ensures Matched(Step(s, TakeData).value, mem0, done)
    ensures s.toClient[..s.client.size] == Fetch(ApplyAll(mem0, Earlier(s)), s.client.addr, s.client.size)
  {
    hide EncodeAll, Encode, ApplyAll, Fetch, PackHead;
    assert s.toClient[..s.client.size] == s.toClient && s.toClient[s.client.size..] == [];
    assert s.issued[done..] == [];
  }

  lemma {:induction false} StepKeepsInvariant(s: State, a: Action, mem0: ByteMap)
    requires Invariant(s, mem0) && Step(s, a).Some?
    ensures Invariant(Step(s, a).value, mem0)
  {
    hide NextRequest, EncodeAll, Encode, ApplyAll, Fetch, PackHead, UnpackHead, Expected;
    var done: nat :| InTransit(s, mem0, done) && Matched(s, mem0, done);
    var s' := Step(s, a).value;
    match a
    case StartWrite(data, addr) =>
      IssueKeepsTransit(s, Write(addr, data), mem0, done);
      StartKeepsMatch(s, a, mem0, done);
      assert InTransit(s', mem0, done) && Matched(s', mem0, done);
    case StartRead(addr, size) =>
      IssueKeepsTransit(s, Read(addr, size), mem0, done);
      StartKeepsMatch(s, a, mem0, done);
      assert InTransit(s', mem0, done) && Matched(s', mem0, done);
    case Receive(count) =>
      ReceiveKeepsTransit(s, count, mem0, done);
      assert InTransit(s', mem0, done) && Matched(s', mem0, done);
    case ServeNext =>
      ServeKeepsTransit(s, mem0, done);
      ServeKeepsMatch(s, mem0, done);
      assert InTransit(s', mem0, done + 1) && Matched(s', mem0, done + 1);
    case TakeHead =>
      TakeHeadKeepsMatch(s, mem0, done);
      assert InTransit(s', mem0, done) && Matched(s', mem0, done);
    case TakeData =>
      TakeDataIsRight(s, mem0, done);
      assert InTransit(s', mem0, done) && Matched(s', mem0, done);
  }

  lemma {:induction false} RunKeepsInvariant(actions: seq<Action>, mem0: ByteMap)
    requires Run(Start(mem0), actions).Some?
    ensures Invariant(Run(Start(mem0), actions).value, mem0)
    decreases |actions|
  {
    hide Step, Invariant;
    if actions == [] {
      StartHolds(mem0);
    } else {
      RunKeepsInvariant(actions[..|actions| - 1], mem0);
      StepKeepsInvariant(Run(Start(mem0), actions[..|actions| - 1]).value, actions[|actions| - 1], mem0);
    }
  }

  lemma {:induction false} StartHolds(mem0: ByteMap)
    ensures Invariant(Start(mem0), mem0)
  {
    assert InTransit(Start(mem0), mem0, 0) && Matched(Start(mem0), mem0, 0);
  }

  /** Main result: in every run no client ever sees an error or a foreign reply; while nobody
      holds the lock no reply is under way, and the finished reads have returned, in order,
      exactly what one flat memory gives for the issued requests - although no write is ever
      acknowledged. */
  lemma {:induction false} EveryReadIsOfFlatMemory(actions: seq<Action>, mem0: ByteMap)
    requires Run(Start(mem0), actions).Some?
    ensures var s := Run(Start(mem0), actions).value;
            !s.client.Broken? &&
            (s.client.Unlocked? ==> s.toClient == [] && s.results == Expected(mem0, s.issued)) &&
            (!s.client.Unlocked? ==> s.issued != [] && s.results == Expected(mem0, Earlier(s)))
  {
    hide Run, ApplyAll, Fetch, Expected, EncodeAll;
    RunKeepsInvariant(actions, mem0);
  }

  // ------------------------------------------------------------------ what the memory holds, and progress

  /** r writes the cell a. */
  predicate Sets(r: Request, a: int) {
    r.Write? && r.addr <= a < r.addr + |r.data|
  }

  /** A cell holds what the last write that sets it put there, or what it held at the start, zero if
      nothing. */
  lemma {:induction false} LastWriteWins(m: ByteMap, rs: seq<Request>, a: int, i: nat)
    requires i <= |rs| && forall j :: i <= j < |rs| ==> !Sets(rs[j], a)
    ensures i == 0 ==> Cell(ApplyAll(m, rs), a) == if a in m then m[a] else 0
    ensures i > 0 && Sets(rs[i - 1], a) ==> Cell(ApplyAll(m, rs), a) == rs[i - 1].data[a - rs[i - 1].addr]
    decreases |rs|
  {
    if rs != [] {
      var init := rs[..|rs| - 1];
      if i < |rs| {
        LastWriteWins(m, init, a, i);
      }
    }
  }

  /** Main result: exactly the transfers of 1 to 65535 bytes at a 32-bit address can be started, by
      a client that holds no lock. */
  lemma {:induction false} StartsIff(s: State, addr: nat, size: nat, data: seq<Byte>)
    ensures Step(s, StartRead(addr, size)).Some? <==> s.client.Unlocked? && addr < 0x1_0000_0000 && 1 <= size <= 65535
    ensures Step(s, StartWrite(data, addr)).Some? <==>
              s.client.Unlocked? && addr < 0x1_0000_0000 && 1 <= |data| <= 65535
  {
  }

  /** Which reply headers a waiting reader takes: the sync byte 0x9B, no error flag, and the size it
      asked for, in two bytes; the address in the others is not looked at. Any other one breaks it. */
  lemma {:induction false} HeadIsTaken(s: State, addr: nat, size: nat)
    requires s.client == AwaitHead(addr, size)
    ensures Step(s, TakeHead).Some? <==> |s.toClient| >= 8
    ensures |s.toClient| >= 8 ==>
              var (b, now) := (s.toClient, Step(s, TakeHead).value);
              now.toClient == b[8..] && now.results == s.results &&
              now.client == if b[0] == 0x9B && b[1] == 0 && Value16(b[2], b[3]) == size then AwaitData(addr, size)
                            else Broken
  {
    hide FromLE;
    if |s.toClient| >= 8 {
      var head := s.toClient[..8];
      Weights(head[2..4]);
      assert head[2..4] == [s.toClient[2], s.toClient[3]];
    }
  }

  /** Main result: no deadlock. In every run a reader that waits can take its reply, or the server
      can serve a request, or has bytes to receive. */
  lemma {:induction false} NeverStuck(actions: seq<Action>, mem0: ByteMap)
    requires Run(Start(mem0), actions).Some?
    ensures var s := Run(Start(mem0), actions).value;
            !s.client.Unlocked? ==>
              Step(s, TakeHead).Some? || Step(s, TakeData).Some? || Step(s, ServeNext).Some? || s.toServer != []
  {
    hide Run, NextRequest, EncodeAll, ApplyAll, Fetch, Expected, PackHead, Encode;
    RunKeepsInvariant(actions, mem0);
    var s := Run(Start(mem0), actions).value;
    var done: nat :| InTransit(s, mem0, done) && Matched(s, mem0, done);
    if s.client.AwaitHead? && done < |s.issued| && s.toServer == [] {
      BufferedIsComplete(s, mem0, done);
    }
  }

  lemma {:induction false} BufferedIsComplete(s: State, mem0: ByteMap, done: nat)
    requires InTransit(s, mem0, done) && done < |s.issued| && s.toServer == []
    ensures NextRequest(s.buf).Complete?
  {
    hide NextRequest, Encode, ApplyAll;
    var left := s.issued[done..];
    assert s.buf + [] == s.buf;
    assert Sendable(left[0]);
    EncodedIsNext(left[0], EncodeAll(left[1..]));
  }
}
