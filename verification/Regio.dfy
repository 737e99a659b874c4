/** Splitting of reads and writes into device operations that stay inside MTU blocks. */
module Regio {
  import opened Division
  import opened Wrappers
  import opened Bytes
  import opened Regions

  /** A run of addresses handled by one device operation. */
  datatype Chunk = Chunk(addr: nat, size: nat) {
    function End(): nat {
      addr + size
    }
  }

  /** How far an operation at addr may go before the next MTU boundary. */
  function FirstChunkSize(addr: nat, mtu: nat): (n: nat)
    requires mtu > 0
    ensures 0 < n <= mtu
  {
    if addr % mtu != 0 then mtu - addr % mtu else mtu
  }

  function Min(a: int, b: int): int {
    if a < b then a else b
  }

  /** The device operations of one transfer. */
  function Chunks(addr: nat, size: nat, mtu: nat): seq<Chunk>
    requires mtu > 0
    decreases size
  {
    if size == 0 then []
    else
      var c := Min(FirstChunkSize(addr, mtu), size);
      [Chunk(addr, c)] + Chunks(addr + c, size - c, mtu)
  }

  // ------------------------------------------------------------------ properties of the split

  /** cs covers [addr, addr + size) once, in order, with no empty chunk. */
  predicate Tiles(cs: seq<Chunk>, addr: nat, size: nat) {
    if cs == [] then size == 0
    else cs[0].addr == addr && 0 < cs[0].size <= size && Tiles(cs[1..], addr + cs[0].size, size - cs[0].size)
  }

  predicate InOneBlock(c: Chunk, mtu: nat)
    requires mtu > 0
  {
    c.size > 0 && c.addr / mtu == (c.End() - 1) / mtu
  }

  lemma {:induction false} FirstStaysInBlock(addr: nat, c: nat, mtu: nat)
    requires mtu > 0 && 0 < c <= FirstChunkSize(addr, mtu)
    ensures InOneBlock(Chunk(addr, c), mtu)
    ensures c < FirstChunkSize(addr, mtu) || (addr + c) % mtu == 0
    ensures c == FirstChunkSize(addr, mtu) ==> (addr + c) / mtu == addr / mtu + 1
  {
    var q, r := addr / mtu, addr % mtu;
    assert addr + c - 1 == mtu * q + (r + c - 1);
    DivModUnique(addr + c - 1, mtu, q, r + c - 1);
    if c == FirstChunkSize(addr, mtu) {
      assert addr + c == mtu * (q + 1) + 0;
      DivModUnique(addr + c, mtu, q + 1, 0);
    }
  }

  /** Main result: the chunks tile the range in order, none crosses an MTU boundary, and there
      is one per MTU block the range meets - no split could do with fewer. */
  lemma {:induction false} ChunksTile(addr: nat, size: nat, mtu: nat)
    requires mtu > 0
    ensures Tiles(Chunks(addr, size, mtu), addr, size)
    ensures forall c :: c in Chunks(addr, size, mtu) ==> InOneBlock(c, mtu)
    ensures size > 0 ==> |Chunks(addr, size, mtu)| == (addr + size - 1) / mtu - addr / mtu + 1
    decreases size
  {
    if size > 0 {
      var c := Min(FirstChunkSize(addr, mtu), size);
      FirstStaysInBlock(addr, c, mtu);
      ChunksTile(addr + c, size - c, mtu);
      assert Chunks(addr, size, mtu)[1..] == Chunks(addr + c, size - c, mtu);
    }
  }

  /** After the first chunk the rest is aligned: the loops may go on with whole MTUs. */
  lemma {:induction false} RestIsAligned(addr: nat, size: nat, mtu: nat)
    requires mtu > 0 && size > 0
    ensures var c := Min(FirstChunkSize(addr, mtu), size);
            size - c > 0 ==> FirstChunkSize(addr + c, mtu) == mtu
  {
    FirstStaysInBlock(addr, Min(FirstChunkSize(addr, mtu), size), mtu);
  }

  // ------------------------------------------------------------------ the device

  datatype Op = WriteOp(addr: int, data: seq<Byte>) | ReadOp(addr: int, size: int)

  function ReadOps(cs: seq<Chunk>): seq<Op> {
    if cs == [] then [] else [ReadOp(cs[0].addr, cs[0].size)] + ReadOps(cs[1..])
  }

  /** A device that is a flat memory: bytes that were never set cannot be read. The log
      records the operations it saw. */
  class Device {
    var mem: ByteMap
    var log: seq<Op>

    constructor (mem: ByteMap)
      ensures this.mem == mem && log == []
    {
      this.mem, this.log := mem, [];
    }

    method DevWrite(addr: int, data: seq<Byte>)
      modifies this
      ensures mem == old(mem) + Written(addr, data) && log == old(log) + [WriteOp(addr, data)]
    {
      mem := mem + Written(addr, data);
      log := log + [WriteOp(addr, data)];
    }

    method DevRead(addr: int, size: nat) returns (r: Option<seq<Byte>>)
      modifies this`log
      ensures log == old(log) + [ReadOp(addr, size)]
      ensures r == if Covers(mem, addr, size) then Some(Slice(mem, addr, size)) else None
    {
      log := log + [ReadOp(addr, size)];
      r := if Covers(mem, addr, size) then Some(Slice(mem, addr, size)) else None;
    }
  }

  // ------------------------------------------------------------------ net effect of a split

  /** Two adjoining writes are one. */
  lemma {:induction false} AdjoiningWrites(m: ByteMap, addr: int, a: seq<Byte>, b: seq<Byte>)
    ensures m + Written(addr, a) + Written(addr + |a|, b) == m + Written(addr, a + b)
  {
  }

  lemma {:induction false} AdjoiningReads(m: ByteMap, addr: int, a: nat, b: nat)
    ensures Covers(m, addr, a + b) <==> Covers(m, addr, a) && Covers(m, addr + a, b)
    ensures Covers(m, addr, a + b) ==> Slice(m, addr, a) + Slice(m, addr + a, b) == Slice(m, addr, a + b)
  {
    if Covers(m, addr, a) && Covers(m, addr + a, b) {
      assert Covers(m, addr, a + b);
    }
  }

  class Regio {
    const device: Device
    var mtu: nat

    ghost predicate Valid()
      reads this
    {
      mtu > 0
    }

    constructor (device: Device)
      ensures Valid() && this.device == device && mtu == 4096
    {
      this.device, this.mtu := device, 4096;
    }

    /** Writes data as one flat write, in MTU chunks. */
    method Write(addr: nat, data: seq<Byte>)
      requires Valid()
      modifies device
      ensures device.mem == old(device.mem) + Written(addr, data)
      ensures device.log == old(device.log) + SplitWrite(addr, data, mtu)
    {
      hide FirstChunkSize, SplitWrite, Written;
      var chunkSize := FirstChunkSize(addr, mtu);
      var done := 0;
      WriteStart(device.mem, addr, data);
      while done < |data|
        invariant done <= |data|
        invariant done < |data| ==> chunkSize == FirstChunkSize(addr + done, mtu)
        invariant device.mem == old(device.mem) + Written(addr, data[..done])
        invariant device.log + SplitWrite(addr + done, data[done..], mtu) ==
                    old(device.log) + SplitWrite(addr, data, mtu)
      {
        WriteStep(old(device.mem), device.log, addr, data, mtu, done);
        chunkSize := Min(chunkSize, |data| - done);
        device.DevWrite(addr + done, data[done..done + chunkSize]);
        done := done + chunkSize;
        chunkSize := mtu;
      }
      WriteEnd(device.log, addr, data, mtu);
    }

    /** Reads a flat range, in MTU chunks; None when some byte cannot be read. */
    method Read(addr: nat, size: nat) returns (r: Option<seq<Byte>>)
      requires Valid()
      modifies device`log
      ensures r == if Covers(device.mem, addr, size) then Some(Slice(device.mem, addr, size)) else None
      ensures r.Some? ==> device.log == old(device.log) + ReadOps(Chunks(addr, size, mtu))
    {
      hide FirstChunkSize, Chunks, ReadOps, Slice, Covers;
      var collected := [];
      var chunkSize := FirstChunkSize(addr, mtu);
      var done := 0;
      ReadStart(device.mem, addr);
      while done < size
        invariant done <= size
        invariant done < size ==> chunkSize == FirstChunkSize(addr + done, mtu)
        invariant Covers(device.mem, addr, done) && collected == Slice(device.mem, addr, done)
        invariant device.log + ReadOps(Chunks(addr + done, size - done, mtu)) ==
                    old(device.log) + ReadOps(Chunks(addr, size, mtu))
      {
        ReadStep(device.mem, device.log, addr, size, mtu, done);
        chunkSize := Min(chunkSize, size - done);
        var chunk := device.DevRead(addr + done, chunkSize);
        if chunk.None? {
          return None;
        }
        collected := collected + chunk.value;
        done := done + chunkSize;
        chunkSize := mtu;
      }
      ReadEnd(device.log, addr, size, mtu);
      return Some(collected);
    }

    /** Writes the bytes of a file at addr, up to `size` of them when it is given. Fails, after
        writing what there was, when the file is shorter than `size`. The device sees the same
        operations as for Write of those bytes. */
    method WriteFromReadFile(addr: nat, file: seq<Byte>, size: Option<nat>) returns (ok: bool)
      requires Valid()
      modifies device
      ensures var data := FileData(file, size);
              device.mem == old(device.mem) + Written(addr, data) &&
              device.log == old(device.log) + SplitWrite(addr, data, mtu)
      ensures size.None? ==> device.mem == old(device.mem) + Written(addr, file)
      ensures size.Some? && size.value <= |file| ==>
                device.mem == old(device.mem) + Written(addr, file[..size.value])
      ensures ok <==> size.None? || size.value <= |file|
      ensures !ok ==> device.mem == old(device.mem) + Written(addr, file)
    {
      hide FirstChunkSize, SplitWrite, Written;
      ghost var data := FileData(file, size);
      var at, done, chunkSize := addr, 0, FirstChunkSize(addr, mtu);
      WriteStart(device.mem, addr, data);
      while size.None? || done < size.value
        invariant done <= |data| && at == addr + done
        invariant done < |data| ==> chunkSize == FirstChunkSize(at, mtu)
        invariant chunkSize > 0
        invariant device.mem == old(device.mem) + Written(addr, data[..done])
        invariant device.log + SplitWrite(at, data[done..], mtu) == old(device.log) + SplitWrite(addr, data, mtu)
        decreases |data| - done
      {
        if size.Some? {
          chunkSize := Min(chunkSize, size.value - done);
        }
        var chunk := file[done..Min(done + chunkSize, |file|)];
        if chunk == [] {
          break;
        }
        WriteStep(old(device.mem), device.log, addr, data, mtu, done);
        assert chunk == data[done..done + |chunk|];
        device.DevWrite(at, chunk);
        at := at + |chunk|;
        done := done + |chunk|;
        if chunkSize != |chunk| {
          break;
        }
        chunkSize := mtu;
      }
      assert done == |data|;
      WriteEnd(device.log, addr, data, mtu);
      ok := size.None? || done == size.value;
    }

    /** Reads a flat range into a file, in the same chunks as Read; None when a read fails. */
    method ReadToWriteFile(addr: nat, size: nat) returns (file: Option<seq<Byte>>)
      requires Valid()
      modifies device`log
      ensures file == if Covers(device.mem, addr, size) then Some(Slice(device.mem, addr, size)) else None
      ensures file.Some? ==> device.log == old(device.log) + ReadOps(Chunks(addr, size, mtu))
    {
      hide FirstChunkSize, Chunks, ReadOps, Slice, Covers;
      var out, at, done, chunkSize := [], addr, 0, FirstChunkSize(addr, mtu);
      ReadStart(device.mem, addr);
      while done < size
        invariant done <= size && at == addr + done
        invariant done < size ==> chunkSize == FirstChunkSize(at, mtu)
        invariant Covers(device.mem, addr, done) && out == Slice(device.mem, addr, done)
        invariant device.log + ReadOps(Chunks(at, size - done, mtu)) ==
                    old(device.log) + ReadOps(Chunks(addr, size, mtu))
      {
        ReadStep(device.mem, device.log, addr, size, mtu, done);
        if chunkSize > size - done {
          chunkSize := size - done;
        }
        var chunk := device.DevRead(at, chunkSize);
        if chunk.None? {
          return None;
        }
        out := out + chunk.value;
        at := at + chunkSize;
        done := done + chunkSize;
        chunkSize := mtu;
      }
      ReadEnd(device.log, addr, size, mtu);
      return Some(out);
    }
  }

  /** The bytes of a file that a transfer of `size` takes. */
  function FileData(file: seq<Byte>, size: Option<nat>): seq<Byte> {
    if size.Some? && size.value < |file| then file[..size.value] else file
  }

  /** The device operations of a write of data at addr. */
  function SplitWrite(addr: nat, data: seq<Byte>, mtu: nat): seq<Op>
    requires mtu > 0
    decreases |data|
  {
    if data == [] then []
    else
      var c := Min(FirstChunkSize(addr, mtu), |data|);
      [WriteOp(addr, data[..c])] + SplitWrite(addr + c, data[c..], mtu)
  }

  lemma {:induction false} WriteStart(m: ByteMap, addr: nat, data: seq<Byte>)
    ensures m + Written(addr, data[..0]) == m && data[0..] == data
  {
  }

  /** One round of a write loop. */
  lemma {:induction false} WriteStep(m: ByteMap, log: seq<Op>, addr: nat, data: seq<Byte>, mtu: nat, done: nat)
    requires mtu > 0 && done < |data|
    ensures var c := Min(FirstChunkSize(addr + done, mtu), |data| - done);
            var chunk := data[done..done + c];
            c > 0 &&
            log + SplitWrite(addr + done, data[done..], mtu) ==
              log + [WriteOp(addr + done, chunk)] + SplitWrite(addr + done + c, data[done + c..], mtu) &&
            m + Written(addr, data[..done]) + Written(addr + done, chunk) == m + Written(addr, data[..done + c]) &&
            (done + c < |data| ==> FirstChunkSize(addr + done + c, mtu) == mtu)
  {
    hide FirstChunkSize, Written, SplitWrite;
    var c := Min(FirstChunkSize(addr + done, mtu), |data| - done);
    RestIsAligned(addr + done, |data| - done, mtu);
    WriteLogStep(log, addr, data, mtu, done, c);
    WriteMapStep(m, addr, data, done, c);
  }

  lemma {:induction false} WriteLogStep(log: seq<Op>, addr: nat, data: seq<Byte>, mtu: nat, done: nat, c: nat)
    requires mtu > 0 && done < |data| && c == Min(FirstChunkSize(addr + done, mtu), |data| - done)
    ensures log + SplitWrite(addr + done, data[done..], mtu) ==
              log + [WriteOp(addr + done, data[done..done + c])] + SplitWrite(addr + done + c, data[done + c..], mtu)
  {
    hide FirstChunkSize, SplitWrite;
    SliceSteps(data, done, c);
    SplitWriteStep(log, addr + done, data[done..], mtu);
  }

  lemma {:induction false} WriteMapStep(m: ByteMap, addr: nat, data: seq<Byte>, done: nat, c: nat)
    requires done + c <= |data|
    ensures m + Written(addr, data[..done]) + Written(addr + done, data[done..done + c]) ==
              m + Written(addr, data[..done + c])
  {
    hide Written;
    SliceSteps(data, done, c);
    AdjoiningWrites(m, addr, data[..done], data[done..done + c]);
  }

  lemma {:induction false} SliceSteps(data: seq<Byte>, done: nat, c: nat)
    requires done + c <= |data|
    ensures data[done..][..c] == data[done..done + c]
    ensures data[done..][c..] == data[done + c..]
    ensures data[..done] + data[done..done + c] == data[..done + c]
  {
  }

  lemma {:induction false} SplitWriteStep(log: seq<Op>, addr: nat, data: seq<Byte>, mtu: nat)
    requires mtu > 0 && data != []
    ensures var c := Min(FirstChunkSize(addr, mtu), |data|);
            log + SplitWrite(addr, data, mtu) == log + [WriteOp(addr, data[..c])] + SplitWrite(addr + c, data[c..], mtu)
  {
    hide FirstChunkSize;
    var c := Min(FirstChunkSize(addr, mtu), |data|);
    LogStep(log, WriteOp(addr, data[..c]), SplitWrite(addr + c, data[c..], mtu));
  }

  lemma {:induction false} WriteEnd(log: seq<Op>, addr: nat, data: seq<Byte>, mtu: nat)
    requires mtu > 0
    ensures data[..|data|] == data && log + SplitWrite(addr + |data|, data[|data|..], mtu) == log
  {
  }

  lemma {:induction false} LogStep(log: seq<Op>, op: Op, rest: seq<Op>)
    ensures log + ([op] + rest) == log + [op] + rest
  {
  }

  lemma {:induction false} ReadStart(m: ByteMap, addr: nat)
    ensures Covers(m, addr, 0) && Slice(m, addr, 0) == []
  {
  }

  /** One round of a read loop. */
  lemma {:induction false} ReadStep(m: ByteMap, log: seq<Op>, addr: nat, size: nat, mtu: nat, done: nat)
    requires mtu > 0 && done < size && Covers(m, addr, done)
    ensures var c := Min(FirstChunkSize(addr + done, mtu), size - done);
            c > 0 &&
            log + ReadOps(Chunks(addr + done, size - done, mtu)) ==
              log + [ReadOp(addr + done, c)] + ReadOps(Chunks(addr + done + c, size - done - c, mtu)) &&
            (Covers(m, addr, size) ==> Covers(m, addr + done, c)) &&
            (Covers(m, addr + done, c) ==>
               Covers(m, addr, done + c) &&
                 Slice(m, addr, done) + Slice(m, addr + done, c) == Slice(m, addr, done + c)) &&
            (done + c < size ==> FirstChunkSize(addr + done + c, mtu) == mtu)
  {
    hide FirstChunkSize, Chunks, ReadOps, Slice, Covers;
    var c := Min(FirstChunkSize(addr + done, mtu), size - done);
    RestIsAligned(addr + done, size - done, mtu);
    ReadOpsStep(log, addr + done, size - done, mtu);
    AdjoiningReads(m, addr, done, c);
    AdjoiningReads(m, addr, done, size - done);
    AdjoiningReads(m, addr + done, c, size - done - c);
  }

  lemma {:induction false} ReadEnd(log: seq<Op>, addr: nat, size: nat, mtu: nat)
    requires mtu > 0
    ensures log + ReadOps(Chunks(addr + size, 0, mtu)) == log
  {
  }

  lemma {:induction false} ReadOpsStep(log: seq<Op>, addr: nat, size: nat, mtu: nat)
    requires mtu > 0 && size > 0
    ensures var c := Min(FirstChunkSize(addr, mtu), size);
            log + ReadOps(Chunks(addr, size, mtu)) == log + [ReadOp(addr, c)] + ReadOps(Chunks(addr + c, size - c, mtu))
  {
    hide FirstChunkSize;
    var c := Min(FirstChunkSize(addr, mtu), size);
    assert Chunks(addr, size, mtu)[1..] == Chunks(addr + c, size - c, mtu);
    LogStep(log, ReadOp(addr, c), ReadOps(Chunks(addr + c, size - c, mtu)));
  }

  /** The writes of a transfer are its chunks, in order, with the bytes that belong to them. */
  lemma {:induction false} SplitWriteIsChunks(addr: nat, data: seq<Byte>, mtu: nat)
    requires mtu > 0
    ensures ChunkWrites(SplitWrite(addr, data, mtu), Chunks(addr, |data|, mtu), addr, data)
    decreases |data|
  {
    if data != [] {
      hide FirstChunkSize;
      var c := Min(FirstChunkSize(addr, mtu), |data|);
      SplitWriteIsChunks(addr + c, data[c..], mtu);
      var ops, cs := SplitWrite(addr + c, data[c..], mtu), Chunks(addr + c, |data| - c, mtu);
      LaterChunks(addr, data, c, ops, cs);
      FirstChunk(addr, data, c, ops, cs);
    }
  }

  /** ops write, chunk by chunk, the bytes of a transfer of data at addr. */
  predicate ChunkWrites(ops: seq<Op>, cs: seq<Chunk>, addr: nat, data: seq<Byte>) {
    |ops| == |cs| && forall i :: 0 <= i < |cs| ==>
      addr <= cs[i].addr && cs[i].End() <= addr + |data| &&
      ops[i] == WriteOp(cs[i].addr, data[cs[i].addr - addr..cs[i].End() - addr])
  }

  lemma {:induction false} FirstChunk(addr: nat, data: seq<Byte>, c: nat, ops: seq<Op>, cs: seq<Chunk>)
    requires 0 < c <= |data| && ChunkWrites(ops, cs, addr, data)
    ensures ChunkWrites([WriteOp(addr, data[..c])] + ops, [Chunk(addr, c)] + cs, addr, data)
  {
  }

  lemma {:induction false} LaterChunks(addr: nat, data: seq<Byte>, c: nat, ops: seq<Op>, cs: seq<Chunk>)
    requires c <= |data| && ChunkWrites(ops, cs, addr + c, data[c..])
    ensures ChunkWrites(ops, cs, addr, data)
  {
    forall i | 0 <= i < |cs|
      ensures ops[i] == WriteOp(cs[i].addr, data[cs[i].addr - addr..cs[i].End() - addr])
    {
      var lo, hi := cs[i].addr - addr - c, cs[i].End() - addr - c;
      assert data[c..][lo..hi] == data[c + lo..c + hi];
    }
  }
}
