/** The testbench driver of the ramface bus: byte-enable word writes and pipelined reads,
    against a device that answers a read a fixed number of clock edges later. */
module Ramface {
  import opened Division
  import opened Wrappers
  import opened Bits

  datatype Rqst = Rqst(en: bool, addr: nat, wren: nat, data: nat)
  datatype Rply = Rply(en: bool, fail: bool, data: nat)

  const IDLE := Rqst(false, 0, 0, 0)
  const NO_RPLY := Rply(false, false, 0)

  /** The lanes (the items of WORD_W bits) of the device, by lane address. */
  type Lanes = int -> nat

  /** The first n lanes from base on, as one bus word. */
  function Join(m: Lanes, base: nat, n: nat, w: nat): nat {
    if n == 0 then 0 else Join(m, base, n - 1, w) + Shl(m(base + n - 1), (n - 1) * w)
  }

  ghost predicate LanesFit(m: Lanes, w: nat) {
    forall x :: m(x) < Pow2(w)
  }

  ghost predicate ItemsFit(data: seq<nat>, w: nat) {
    forall i :: 0 <= i < |data| ==> data[i] < Pow2(w)
  }

  /** One flat write of a list of items. */
  ghost predicate IsWritten(m: Lanes, was: Lanes, addr: nat, data: seq<nat>) {
    forall x :: m(x) == if addr <= x < addr + |data| then data[x - addr] else was(x)
  }

  lemma {:induction false} JoinedLane(m: Lanes, base: nat, n: nat, w: nat, i: nat)
    requires LanesFit(m, w)
    ensures Join(m, base, n, w) < Pow2(n * w)
    ensures i < n ==> Field(Join(m, base, n, w), i * w, w) == m(base + i)
    decreases n
  {
    hide Pow2, Shl, Field;
    if n > 0 {
      JoinedLane(m, base, n - 1, w, i);
      var below := Join(m, base, n - 1, w);
      StaysBelow(below, n - 1, m(base + n - 1), w);
      if i < n {
        FieldAbove(below, n - 1, m(base + n - 1), w, i);
      }
    } else {
      NoBits(w);
    }
  }

  lemma {:induction false} NoBits(w: nat)
    ensures 0 < Pow2(0 * w)
  {
  }

  /** The first lane of a word. */
  function Base(word: nat, wrenW: nat): nat {
    word * wrenW
  }

  /** What the device sees of a request at a clock edge: it writes the enabled lanes of the
      addressed word. */
  function Wrote(m: Lanes, r: Rqst, wrenW: nat, w: nat): Lanes {
    var base := Base(r.addr, wrenW);
    if !r.en || r.wren == 0 then m
    else (x: int) => if base <= x < base + wrenW && Bit(r.wren, x - base) then Field(r.data, (x - base) * w, w)
      else m(x)
  }

  /** ... and a request without enabled lanes is a read of the whole word. */
  function ReplyOf(m: Lanes, r: Rqst, wrenW: nat, w: nat): Rply {
    if r.en && r.wren == 0 then Rply(true, false, Join(m, Base(r.addr, wrenW), wrenW, w)) else NO_RPLY
  }

  lemma {:induction false} WroteFits(m: Lanes, r: Rqst, wrenW: nat, w: nat)
    requires LanesFit(m, w)
    ensures LanesFit(Wrote(m, r, wrenW, w), w)
  {
    hide Field, Pow2, Bit;
    var m' := Wrote(m, r, wrenW, w);
    forall x: int
      ensures m'(x) < Pow2(w)
    {
      var base := Base(r.addr, wrenW);
      assert m(x) < Pow2(w);
      if base <= x < base + wrenW {
        FieldFits(r.data, (x - base) * w, w);
      }
    }
  }

  lemma {:induction false} FieldFits(v: nat, k: nat, w: nat)
    ensures Field(v, k, w) < Pow2(w)
  {
  }

  /** No reply is still to come after the current one. */
  predicate Settled(pipe: seq<Rply>) {
    forall j :: 1 <= j < |pipe| ==> !pipe[j].en
  }

  lemma {:induction false} SettledStep(pipe: seq<Rply>, next: Rply)
    requires |pipe| > 0
    ensures Settled(pipe[1..] + [next]) ==> !next.en || |pipe| == 1
    ensures Settled(pipe) && (!next.en || |pipe| == 1) ==> Settled(pipe[1..] + [next])
  {
    var after := pipe[1..] + [next];
    assert after[|pipe| - 1] == next;
    assert forall j :: 1 <= j < |pipe| - 1 ==> after[j] == pipe[j + 1];
  }

  /** The bus signals and the device behind them. */
  class Bus {
    const wrenW: nat
    const wordW: nat
    const latency: nat
    var rqst: Rqst
    var mem: Lanes
    /** The replies under way; the first is the one on rply_o. */
    var pipe: seq<Rply>

    ghost predicate Valid()
      reads this
    {
      wrenW > 0 && |pipe| == latency + 1 && LanesFit(mem, wordW)
    }

    constructor (wrenW: nat, wordW: nat, latency: nat)
      requires wrenW > 0
      ensures Valid() && Settled(pipe)
      ensures this.wrenW == wrenW && this.wordW == wordW && this.latency == latency
    {
      this.wrenW, this.wordW, this.latency := wrenW, wordW, latency;
      rqst, mem := IDLE, (x: int) => 0;
      pipe := seq(latency + 1, i => NO_RPLY);
    }

    method RisingEdge()
      requires Valid()
      modifies `mem, `pipe
      ensures Valid()
      ensures mem == Wrote(old(mem), rqst, wrenW, wordW)
      ensures pipe == old(pipe)[1..] + [ReplyOf(old(mem), rqst, wrenW, wordW)]
    {
      hide Join, Wrote, LanesFit;
      WroteFits(mem, rqst, wrenW, wordW);
      pipe := pipe[1..] + [ReplyOf(mem, rqst, wrenW, wordW)];
      mem := Wrote(mem, rqst, wrenW, wordW);
    }
  }

  /** How many items the first c cycles transfer. */
  function Done(c: nat, addr: nat, length: nat, wrenW: nat): nat
    requires wrenW > 0
  {
    if c == 0 then 0 else if c * wrenW <= addr % wrenW then 0
    else if length <= c * wrenW - addr % wrenW then length else c * wrenW - addr % wrenW
  }

  function CycleCount(addr: nat, length: nat, wrenW: nat): nat
    requires wrenW > 0
  {
    (length + addr % wrenW + wrenW - 1) / wrenW
  }

  /** Cycle c starts where the earlier cycles stopped, and transfers as much as fits its word. */
  lemma {:induction false} DoneStep(c: nat, addr: nat, length: nat, wrenW: nat)
    requires wrenW > 0
    ensures var start := if c == 0 then addr % wrenW else 0;
            var (now, left) := (Done(c, addr, length, wrenW), length - Done(c, addr, length, wrenW));
            now <= length && start < wrenW &&
            Done(c + 1, addr, length, wrenW) == now + (if left < wrenW - start then left else wrenW - start) &&
            (left > 0 ==> Base(addr / wrenW + c, wrenW) + start == addr + now)
  {
    Distribute(c, 1, wrenW);
    Distribute(addr / wrenW, c, wrenW);
    MulMono(1, c + 1, wrenW);
    if c > 0 {
      MulMono(1, c, wrenW);
    }
  }

  /** The cycles transfer the whole list, and none of them is idle unless the list is empty. */
  lemma {:induction false} DoneAll(addr: nat, length: nat, wrenW: nat)
    requires wrenW > 0
    ensures Done(CycleCount(addr, length, wrenW), addr, length, wrenW) == length
    ensures forall c :: 0 <= c < CycleCount(addr, length, wrenW) && length > 0 ==> Done(c, addr, length, wrenW) < length
  {
    var total := CycleCount(addr, length, wrenW);
    var sum := length + addr % wrenW + wrenW - 1;
    assert sum == total * wrenW + sum % wrenW;
    forall c | 0 <= c < total && length > 0
      ensures Done(c, addr, length, wrenW) < length
    {
      MulMono(c + 1, total, wrenW);
      Distribute(c, 1, wrenW);
    }
  }

  /** The l items from first on, or-ed together on the lanes from start on. */
  method PackWord(data: seq<nat>, first: nat, start: nat, l: nat, w: nat) returns (d: nat)
    requires first + l <= |data| && ItemsFit(data, w)
    ensures forall i :: start <= i < start + l ==> Field(d, i * w, w) == data[first + i - start]
  {
    hide Pow2, Shl, Field, Or;
    d := 0;
    Pow2Above(start * w);
    for ii := start to start + l
      invariant d < Pow2(ii * w)
      invariant forall i :: start <= i < ii ==> Field(d, i * w, w) == data[first + i - start]
    {
      var item := data[first + ii - start];
      OrAbove(d, item, ii * w);
      StaysBelow(d, ii, item, w);
      forall i | start <= i < ii + 1
        ensures Field(d + Shl(item, ii * w), i * w, w) == data[first + i - start]
      {
        FieldAbove(d, ii, item, w, i);
      }
      d := Or(d, Shl(item, ii * w));
    }
  }

  lemma {:induction false} Pow2Above(k: nat)
    ensures 0 < Pow2(k)
  {
  }

  lemma {:induction false} MaskIsZero(l: nat, s: nat)
    ensures Shl(Pow2(l) - 1, s) == 0 <==> l == 0
  {
    if l > 0 {
      MulMono(1, Pow2(l) - 1, Pow2(s));
    }
  }

  lemma {:induction false} NothingDone(addr: nat, length: nat, wrenW: nat)
    requires wrenW > 0
    ensures Done(0, addr, length, wrenW) == 0
  {
  }

  /** An empty list at an unaligned address still drives one cycle. */
  lemma {:induction false} EmptyWrite(addr: nat, wrenW: nat)
    requires wrenW > 0
    ensures CycleCount(addr, 0, wrenW) == if addr % wrenW == 0 then 0 else 1
  {
    if addr % wrenW == 0 {
      DivModUnique(wrenW - 1, wrenW, 0, wrenW - 1);
    } else {
      DivModUnique(addr % wrenW + wrenW - 1, wrenW, 1, addr % wrenW - 1);
    }
  }

  /** One clock edge with the items done .. done + l packed on their lanes extends the flat
      write by those items. */
  lemma {:induction false} EdgeWrites(m: Lanes, was: Lanes, addr: nat, data: seq<nat>, done: nat, l: nat, start: nat,
                                      r: Rqst, wrenW: nat, w: nat)
    requires done + l <= |data| && start + l <= wrenW && IsWritten(m, was, addr, data[..done])
    requires r.en && r.wren == Shl(Pow2(l) - 1, start) && (l > 0 ==> Base(r.addr, wrenW) + start == addr + done)
    requires forall i :: start <= i < start + l ==> Field(r.data, i * w, w) == data[done + i - start]
    ensures IsWritten(Wrote(m, r, wrenW, w), was, addr, data[..done + l])
  {
    hide Pow2, Shl, Field, Bit;
    var m' := Wrote(m, r, wrenW, w);
    var base := Base(r.addr, wrenW);
    MaskIsZero(l, start);
    forall x: int
      ensures m'(x) == if addr <= x < addr + done + l then data[x - addr] else was(x)
    {
      if base <= x < base + wrenW {
        MaskBits(l, start, x - base);
      }
    }
  }

  lemma {:induction false} NothingWritten(m: Lanes, addr: nat, data: seq<nat>)
    ensures IsWritten(m, m, addr, data[..0])
  {
  }

  /** The reply on the bus t cycles after a read of `count` words from word a on has started:
      first what was under way, then one reply per read request, latency + 1 cycles later. */
  function Due(pipe: seq<Rply>, m: Lanes, a: nat, count: nat, wrenW: nat, w: nat, t: nat): Rply {
    if t < |pipe| then pipe[t]
    else if t - |pipe| < count then Rply(true, false, Join(m, Base(a + t - |pipe|, wrenW), wrenW, w))
    else NO_RPLY
  }

  /** The replies under way in cycle t of such a read. */
  ghost predicate Flowing(now: seq<Rply>, pipe: seq<Rply>, m: Lanes, a: nat, count: nat, wrenW: nat, w: nat, t: nat) {
    |now| == |pipe| && forall j :: 0 <= j < |now| ==> now[j] == Due(pipe, m, a, count, wrenW, w, t + j)
  }

  lemma {:induction false} FlowStep(now: seq<Rply>, pipe: seq<Rply>, m: Lanes, a: nat, count: nat, wrenW: nat, w: nat,
                                    t: nat, r: Rqst)
    requires Flowing(now, pipe, m, a, count, wrenW, w, t) && |pipe| > 0
    requires r == if t < count then Rqst(true, a + t, 0, 0) else IDLE
    ensures Flowing(now[1..] + [ReplyOf(m, r, wrenW, w)], pipe, m, a, count, wrenW, w, t + 1)
    ensures Wrote(m, r, wrenW, w) == m
  {
    hide Join;
    var next := now[1..] + [ReplyOf(m, r, wrenW, w)];
    forall j | 0 <= j < |next|
      ensures next[j] == Due(pipe, m, a, count, wrenW, w, t + 1 + j)
    {
      if j < |now| - 1 {
        assert next[j] == now[j + 1];
      }
    }
  }

  /** After count + |pipe| cycles the last reply has been on the bus. */
  lemma {:induction false} FlowEnds(now: seq<Rply>, pipe: seq<Rply>, m: Lanes, a: nat, count: nat, wrenW: nat, w: nat)
    requires Flowing(now, pipe, m, a, count, wrenW, w, count + |pipe|)
    ensures Settled(now)
  {
    hide Join;
  }

  ghost predicate Fetched(data: seq<nat>, m: Lanes, addr: nat, n: nat) {
    n <= |data| && forall k :: 0 <= k < n ==> data[k] == m(addr + k)
  }

  /** The word that arrives in a cycle. */
  function Word(cycIdx: nat, latency: nat): nat {
    if cycIdx <= latency then 0 else cycIdx - latency - 1
  }

  /** Takes the lanes start .. start + l of a reply into the list. */
  method UnpackWord(data: seq<nat>, first: nat, start: nat, l: nat, w: nat, word: nat, ghost m: Lanes,
                    ghost addr: nat, ghost base: nat, ghost wrenW: nat) returns (r: seq<nat>)
    requires first + l <= |data| && start + l <= wrenW && LanesFit(m, w)
    requires word == Join(m, base, wrenW, w) && (l > 0 ==> base + start == addr + first)
    requires Fetched(data, m, addr, first)
    ensures |r| == |data| && Fetched(r, m, addr, first + l)
  {
    hide Pow2, Field, Join, LanesFit;
    r := data;
    for i := 0 to l
      invariant |r| == |data|
      invariant forall k :: 0 <= k < first + i ==> r[k] == m(addr + k)
    {
      JoinedLane(m, base, wrenW, w, start + i);
      r := r[first + i := Field(word, (start + i) * w, w)];
    }
  }

  lemma {:induction false} FlowStarts(pipe: seq<Rply>, m: Lanes, a: nat, count: nat, wrenW: nat, w: nat,
                                      data: seq<nat>, addr: nat)
    ensures Flowing(pipe, pipe, m, a, count, wrenW, w, 0) && Fetched(data, m, addr, 0)
  {
  }

  lemma {:induction false} FirstIsDue(now: seq<Rply>, pipe: seq<Rply>, m: Lanes, a: nat, count: nat, wrenW: nat,
                                      w: nat, t: nat)
    requires Flowing(now, pipe, m, a, count, wrenW, w, t) && |pipe| > 0
    ensures |now| == |pipe|
    ensures t < |pipe| ==> now[0] == pipe[t]
    ensures |pipe| <= t < |pipe| + count ==> now[0] == Rply(true, false, Join(m, Base(a + t - |pipe|, wrenW), wrenW, w))
  {
    hide Join;
  }

  ghost predicate QuietUntil(pipe: seq<Rply>, n: nat) {
    forall j :: 1 <= j < n && j < |pipe| ==> !pipe[j].en
  }

  lemma {:induction false} QuietStep(pipe: seq<Rply>, n: nat)
    ensures QuietUntil(pipe, 0)
    ensures 0 < n < |pipe| && pipe[n].en ==> !Settled(pipe)
    ensures QuietUntil(pipe, n) && (n == 0 || n >= |pipe| || !pipe[n].en) ==> QuietUntil(pipe, n + 1)
    ensures QuietUntil(pipe, n) && n >= |pipe| ==> Settled(pipe)
  {
  }

  lemma {:induction false} AllFetched(data: seq<nat>, m: Lanes, addr: nat, n: nat)
    requires Fetched(data, m, addr, n)
    ensures n <= |data| && forall k :: 0 <= k < n ==> data[k] == m(addr + k)
  {
  }

  class RamfaceCtrl {
    const bus: Bus

    constructor (bus: Bus)
      ensures this.bus == bus
    {
      this.bus := bus;
    }

    method WriteList(addr: nat, data: seq<nat>)
      requires bus.Valid() && ItemsFit(data, bus.wordW)
      modifies bus
      ensures bus.Valid()
      ensures IsWritten(bus.mem, old(bus.mem), addr, data)
      ensures !bus.rqst.en
      ensures old(Settled(bus.pipe)) ==>
                (Settled(bus.pipe) <==> data != [] || addr % bus.wrenW == 0 || bus.latency == 0)
    {
      hide Base, Pow2, Shl, Field, IsWritten, ItemsFit, LanesFit, CycleCount, Done, Wrote, Join, Settled;
      var W := bus.wrenW;
      var a := addr / W;
      var start := addr % W;
      var lenLeft, dataIdx := |data|, 0;
      var cycles := CycleCount(addr, |data|, W);
      DoneAll(addr, |data|, W);
      if data == [] {
        EmptyWrite(addr, W);
      }
      assert Done(0, addr, |data|, W) == 0 by { NothingDone(addr, |data|, W); }
      NothingWritten(bus.mem, addr, data);
      for c := 0 to cycles
        invariant bus.Valid()
        invariant a == addr / W + c && start == if c == 0 then addr % W else 0
        invariant dataIdx == Done(c, addr, |data|, W) && dataIdx + lenLeft == |data|
        invariant IsWritten(bus.mem, old(bus.mem), addr, data[..dataIdx])
        invariant old(Settled(bus.pipe)) ==> (Settled(bus.pipe) <==> data != [] || c == 0 || bus.latency == 0)
      {
        DoneStep(c, addr, |data|, W);
        var l := if lenLeft < W - start then lenLeft else W - start;
        var d := PackWord(data, dataIdx, start, l, bus.wordW);
        bus.rqst := Rqst(true, a, Shl(Pow2(l) - 1, start), d);
        MaskIsZero(l, start);
        EdgeWrites(bus.mem, old(bus.mem), addr, data, dataIdx, l, start, bus.rqst, W, bus.wordW);
        SettledStep(bus.pipe, ReplyOf(bus.mem, bus.rqst, W, bus.wordW));
        bus.RisingEdge();
        a, lenLeft, dataIdx, start := a + 1, lenLeft - l, dataIdx + l, 0;
      }
      assert data[..|data|] == data;
      bus.rqst := IDLE;
    }

    method ReadList(addr: nat, length: nat) returns (r: Option<seq<nat>>)
      requires bus.Valid()
      modifies bus
      ensures bus.Valid() && bus.mem == old(bus.mem)
      ensures r.Some? <==> old(Settled(bus.pipe))
      ensures r.Some? ==> |r.value| == length && Settled(bus.pipe) && !bus.rqst.en
      ensures r.Some? ==> forall k :: 0 <= k < length ==> r.value[k] == old(bus.mem)(addr + k)
    {
      hide Base, Pow2, Shl, Field, CycleCount, Done, Join, LanesFit, Flowing, Wrote, ReplyOf, Fetched, Due;
      hide QuietUntil, Settled;
      var W, latency := bus.wrenW, bus.latency;
      var a := addr / W;
      var readCycles := CycleCount(addr, length, W);
      var cyclesTotal := readCycles + latency + 1;
      var start := addr % W;
      var data: seq<nat> := seq(length, i => 0);
      var lenLeft, dataIdx := length, 0;
      ghost var (pipe, mem) := (bus.pipe, bus.mem);
      DoneAll(addr, length, W);
      NothingDone(addr, length, W);
      FlowStarts(pipe, mem, a, readCycles, W, bus.wordW, data, addr);
      QuietStep(pipe, 0);
      for cycIdx := 0 to cyclesTotal
        invariant bus.Valid() && bus.mem == mem
        invariant a == addr / W + if cycIdx < readCycles then cycIdx else readCycles
        invariant cycIdx > readCycles ==> bus.rqst == IDLE
        invariant Flowing(bus.pipe, pipe, mem, addr / W, readCycles, W, bus.wordW, cycIdx)
        invariant QuietUntil(pipe, cycIdx)
        invariant start == if Word(cycIdx, latency) == 0 then addr % W else 0
        invariant dataIdx == Done(Word(cycIdx, latency), addr, length, W) && dataIdx + lenLeft == length == |data|
        invariant Fetched(data, mem, addr, dataIdx)
      {
        if cycIdx < readCycles {
          bus.rqst := Rqst(true, a, 0, 0);
          a := a + 1;
        } else if cycIdx == readCycles {
          bus.rqst := IDLE;
        }
        var rply := bus.pipe[0];
        QuietStep(pipe, cycIdx);
        FirstIsDue(bus.pipe, pipe, mem, addr / W, readCycles, W, bus.wordW, cycIdx);
        if cycIdx > latency {
          if !rply.en || rply.fail {
            return None;
          }
          DoneStep(Word(cycIdx, latency), addr, length, W);
          var l := if lenLeft < W - start then lenLeft else W - start;
          data := UnpackWord(data, dataIdx, start, l, bus.wordW, rply.data, mem, addr,
            Base(addr / W + cycIdx - |pipe|, W), W);
          dataIdx, lenLeft, start := dataIdx + l, lenLeft - l, 0;
        } else if cycIdx > 0 {
          if rply.en {
            return None;
          }
        }
        FlowStep(bus.pipe, pipe, mem, addr / W, readCycles, W, bus.wordW, cycIdx, bus.rqst);
        bus.RisingEdge();
      }
      QuietStep(pipe, cyclesTotal);
      FlowEnds(bus.pipe, pipe, mem, addr / W, readCycles, W, bus.wordW);
      assert forall k :: 0 <= k < length ==> data[k] == mem(addr + k) by { AllFetched(data, mem, addr, length); }
      return Some(data);
    }
  }
}
