/** Bytes and their little-endian reading as unsigned integers. */
module Bytes {

  type Byte = b: int | 0 <= b < 256

  /** 256 to the power n. */
  function Base(n: nat): (b: nat)
    ensures b > 0
  {
    if n == 0 then 1 else 256 * Base(n - 1)
  }

  /** int.to_bytes(n, 'little') of a value that fits. */
  function ToLE(v: nat, n: nat): (bs: seq<Byte>)
    ensures |bs| == n
  {
    if n == 0 then [] else [v % 256] + ToLE(v / 256, n - 1)
  }

  /** int.from_bytes(bs, 'little'). */
  function FromLE(bs: seq<Byte>): nat {
    if bs == [] then 0 else bs[0] + 256 * FromLE(bs[1..])
  }

  lemma {:induction false} FromLEBound(bs: seq<Byte>)
    ensures FromLE(bs) < Base(|bs|)
    decreases |bs|
  {
    if bs != [] {
      FromLEBound(bs[1..]);
    }
  }

  lemma {:induction false} ReadsBackLE(v: nat, n: nat)
    requires v < Base(n)
    ensures FromLE(ToLE(v, n)) == v
    decreases n
  {
    if n > 0 {
      ReadsBackLE(v / 256, n - 1);
      assert ToLE(v, n)[1..] == ToLE(v / 256, n - 1);
    }
  }

  lemma {:induction false} WritesBackLE(bs: seq<Byte>)
    ensures ToLE(FromLE(bs), |bs|) == bs
    decreases |bs|
  {
    if bs != [] {
      WritesBackLE(bs[1..]);
      var v := FromLE(bs);
      assert v % 256 == bs[0] && v / 256 == FromLE(bs[1..]);
      assert [bs[0]] + bs[1..] == bs;
    }
  }

  const UINT32_MAX: nat := 0xFFFF_FFFF

  lemma {:induction false} WordSizes()
    ensures Base(1) == 0x100 && Base(2) == 0x1_0000 && Base(4) == 0x1_0000_0000
  {
    assert Base(3) == 256 * Base(2);
  }

  /** The bytes of a word that is known to fit. */
  lemma {:induction false} Word32(v: nat)
    requires v <= UINT32_MAX
    ensures FromLE(ToLE(v, 4)) == v
  {
    WordSizes();
    ReadsBackLE(v, 4);
  }

  lemma {:induction false} Word32Back(bs: seq<Byte>)
    requires |bs| == 4
    ensures FromLE(bs) <= UINT32_MAX && ToLE(FromLE(bs), 4) == bs
  {
    WordSizes();
    FromLEBound(bs);
    WritesBackLE(bs);
  }

  /** Two and four bytes as a number: the first weighs 1, each further one 256 times the one before. */
  function Value16(b0: nat, b1: nat): nat {
    b0 + 0x100 * b1
  }

  function Value32(b0: nat, b1: nat, b2: nat, b3: nat): nat {
    b0 + 0x100 * b1 + 0x1_0000 * b2 + 0x100_0000 * b3
  }

  lemma {:induction false} Weights(bs: seq<Byte>)
    ensures |bs| == 2 ==> FromLE(bs) == Value16(bs[0], bs[1])
    ensures |bs| == 4 ==> FromLE(bs) == Value32(bs[0], bs[1], bs[2], bs[3])
  {
    if |bs| == 2 {
      TwoWeights(bs);
    } else if |bs| == 4 {
      assert bs[1..][1..] == bs[2..];
      TwoWeights(bs[2..]);
    }
  }

  lemma {:induction false} TwoWeights(bs: seq<Byte>)
    requires |bs| == 2
    ensures FromLE(bs) == Value16(bs[0], bs[1])
  {
    assert bs[1..] == [bs[1]] && [bs[1]][1..] == [];
    assert FromLE([bs[1]]) == bs[1];
  }
}
