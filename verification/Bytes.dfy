/** Bytes, big-endian integers and the growable buffer the codecs write to and read from. */
module Bytes {

  type byte = x: int | 0 <= x < 256
  type u32 = x: int | 0 <= x < 0x1_0000_0000

  datatype Result<+T, +E> = Ok(value: T) | Err(error: E) {
    predicate IsFailure() {
      Err?
    }

    function PropagateFailure<U>(): Result<U, E>
      requires Err?
    {
      Err(error)
    }

    function Extract(): T
      requires Ok?
    {
      value
    }
  }

  datatype Option<+T> = None | Some(value: T)

  lemma Associative<T>(a: seq<T>, b: seq<T>, c: seq<T>)
    ensures a + b + c == a + (b + c)
  {
  }

  /** 256 to the power n: the number of values n bytes can hold. */
  function Pow256(n: nat): nat {
    if n == 0 then 1 else 256 * Pow256(n - 1)
  }

  /** The n low-order bytes of v, most significant first. */
  function ToBigEndian(v: nat, n: nat): (bs: seq<byte>)
    ensures |bs| == n
  {
    if n == 0 then [] else ToBigEndian(v / 256, n - 1) + [v % 256]
  }

  lemma ToBigEndianStep(a: nat, n: nat)
    ensures ToBigEndian(a, n + 1) == ToBigEndian(a / 0x100, n) + [a % 0x100]
    ensures ToBigEndian(a, 0) == []
  {
  }

  lemma FourBytes(a: nat)
    ensures ToBigEndian(a, 4)
         == [a / 0x100 / 0x100 / 0x100 % 0x100, a / 0x100 / 0x100 % 0x100, a / 0x100 % 0x100, a % 0x100]
  {
    hide ToBigEndian;
    var b := a / 0x100;
    var c := b / 0x100;
    var d := c / 0x100;
    ToBigEndianStep(a, 3);
    ToBigEndianStep(b, 2);
    ToBigEndianStep(c, 1);
    ToBigEndianStep(d, 0);
    ToBigEndianStep(d / 0x100, 0);
  }

  /** The number a big-endian byte string stands for. */
  function FromBigEndian(bs: seq<byte>): nat {
    if bs == [] then 0 else FromBigEndian(bs[..|bs| - 1]) * 256 + bs[|bs| - 1]
  }

  lemma {:induction false} BigEndianBound(bs: seq<byte>)
    ensures FromBigEndian(bs) < Pow256(|bs|)
  {
    if bs == [] {
    } else {
      BigEndianBound(bs[..|bs| - 1]);
    }
  }

  /** Reading back what was written gives the number reduced to n bytes. */
  lemma {:induction false} BigEndianRoundTrip(v: nat, n: nat)
    requires v < Pow256(n)
    ensures FromBigEndian(ToBigEndian(v, n)) == v
  {
    if n == 0 {
    } else {
      BigEndianRoundTrip(v / 256, n - 1);
      assert ToBigEndian(v, n)[..n - 1] == ToBigEndian(v / 256, n - 1);
    }
  }

  /** Writing back what was read gives the same bytes. */
  lemma {:induction false} BigEndianInverse(bs: seq<byte>)
    ensures ToBigEndian(FromBigEndian(bs), |bs|) == bs
  {
    if bs == [] {
    } else {
      var init := bs[..|bs| - 1];
      BigEndianInverse(init);
      assert FromBigEndian(bs) / 256 == FromBigEndian(init);
      assert bs == init + [bs[|bs| - 1]];
    }
  }

  lemma WordSizes()
    ensures Pow256(1) == 0x100
    ensures Pow256(2) == 0x1_0000
    ensures Pow256(4) == 0x1_0000_0000
    ensures Pow256(8) == 0x1_0000_0000_0000_0000
  {
    assert Pow256(3) == 256 * Pow256(2);
    assert Pow256(5) == 256 * Pow256(4);
    assert Pow256(6) == 256 * Pow256(5);
    assert Pow256(7) == 256 * Pow256(6);
  }

  function U32ToBytes(v: u32): (bs: seq<byte>)
    ensures |bs| == 4
  {
    ToBigEndian(v, 4)
  }

  function U32FromBytes(bs: seq<byte>): (v: u32)
    requires |bs| == 4
  {
    BigEndianBound(bs);
    WordSizes();
    FromBigEndian(bs)
  }

  lemma U32RoundTrip(v: u32)
    ensures U32FromBytes(U32ToBytes(v)) == v
  {
    WordSizes();
    BigEndianRoundTrip(v, 4);
  }

  lemma U32Inverse(bs: seq<byte>)
    requires |bs| == 4
    ensures U32ToBytes(U32FromBytes(bs)) == bs
  {
    BigEndianInverse(bs);
  }

  /** The four flag bits of a packet header, as masks. */
  type mask = m: byte | m == 0x10 || m == 0x20 || m == 0x40 || m == 0x80 witness 0x10

  /** Whether the bit `m` is set in b, the source's `b & m != 0`, read off the upper four bits. */
  predicate HasBit(b: byte, m: mask) {
    var q := b / 0x10;
    if m == 0x80 then q >= 8
    else if m == 0x40 then 4 <= q < 8 || 12 <= q
    else if m == 0x20 then 2 <= q < 4 || 6 <= q < 8 || 10 <= q < 12 || 14 <= q
    else q == 1 || q == 3 || q == 5 || q == 7 || q == 9 || q == 11 || q == 13 || q == 15
  }

  /** b with the bit `m` set: the source's `b |= m`. */
  function SetBit(b: byte, m: mask): (r: byte)
    ensures HasBit(r, m)
  {
    if HasBit(b, m) then b else b + m
  }

  lemma SetBitKeepsOthers(b: byte, m: mask, k: mask)
    requires k != m
    ensures HasBit(SetBit(b, m), k) == HasBit(b, k)
    ensures SetBit(b, m) % 0x10 == b % 0x10
  {
    assert (b + m) / 0x10 == b / 0x10 + m / 0x10;
  }

  /** The source's `Vec<u8>`, `BytesMut` and `Bytes`: written at the end, consumed at the front. */
  class ByteBuffer {
    var data: seq<byte>

    constructor (initial: seq<byte>)
      ensures data == initial
    {
      data := initial;
    }

    method PutU8(b: byte)
      modifies this
      ensures data == old(data) + [b]
    {
      data := data + [b];
    }

    method PutSlice(bs: seq<byte>)
      modifies this
      ensures data == old(data) + bs
    {
      data := data + bs;
    }

    method GetU8() returns (b: byte)
      requires data != []
      modifies this
      ensures [b] + data == old(data)
    {
      b := data[0];
      data := data[1..];
    }

    method Advance(n: nat)
      requires n <= |data|
      modifies this
      ensures data == old(data)[n..]
    {
      data := data[n..];
    }

    /** Keeps the first `at` bytes and returns the others. */
    method SplitOff(at: nat) returns (tail: seq<byte>)
      requires at <= |data|
      modifies this
      ensures data + tail == old(data) && |data| == at
    {
      tail := data[at..];
      data := data[..at];
    }
  }
}
