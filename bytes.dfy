/**
 * Byte sequences, fixed-width unsigned integers and their little-endian
 * encoding, as used by the container format. The source writes integers in
 * host byte order; this model fixes that order to little-endian.
 */
module Bytes {

  type byte = x: int | 0 <= x < 256

  const TWO_TO_THE_32: nat := 0x1_0000_0000
  const TWO_TO_THE_64: nat := 0x1_0000_0000_0000_0000

  type u32 = x: int | 0 <= x < TWO_TO_THE_32
  type u64 = x: int | 0 <= x < TWO_TO_THE_64

  datatype Option<+T> = None | Some(value: T)

  /** 256 to the power `width`: the number of values `width` bytes can hold. */
  function Capacity(width: nat): (c: nat)
    ensures c > 0
  {
    if width == 0 then 1 else 256 * Capacity(width - 1)
  }

  /** The `width` little-endian bytes of `x`, least significant byte first. */
  function LittleEndian(x: nat, width: nat): (s: seq<byte>)
    requires x < Capacity(width)
    ensures |s| == width
  {
    if width == 0 then [] else [x % 256] + LittleEndian(x / 256, width - 1)
  }

  /** The number that the little-endian bytes `s` stand for. */
  function FromLittleEndian(s: seq<byte>): (x: nat)
    ensures x < Capacity(|s|)
  {
    if s == [] then 0 else s[0] + 256 * FromLittleEndian(s[1..])
  }

  /** Decoding the encoding of `x` gives back `x`. */
  lemma {:induction false} FromLittleEndianInverse(x: nat, width: nat)
    requires x < Capacity(width)
    ensures FromLittleEndian(LittleEndian(x, width)) == x
  {
    if width > 0 {
      var s := LittleEndian(x, width);
      assert s[1..] == LittleEndian(x / 256, width - 1);
      FromLittleEndianInverse(x / 256, width - 1);
    }
  }

  /** Encoding the number that `s` stands for, at the width of `s`, gives `s` back. */
  lemma {:induction false} LittleEndianInverse(s: seq<byte>)
    ensures LittleEndian(FromLittleEndian(s), |s|) == s
  {
    if s != [] {
      LittleEndianInverse(s[1..]);
      var x := FromLittleEndian(s);
      assert x % 256 == s[0] && x / 256 == FromLittleEndian(s[1..]);
    }
  }

  /** Encoding is injective: different values of one width have different bytes. */
  lemma LittleEndianInjective(x: nat, y: nat, width: nat)
    requires x < Capacity(width) && y < Capacity(width)
    requires LittleEndian(x, width) == LittleEndian(y, width)
    ensures x == y
  {
    FromLittleEndianInverse(x, width);
    FromLittleEndianInverse(y, width);
  }

  lemma CapacityOf4And8()
    ensures Capacity(4) == TWO_TO_THE_32 && Capacity(8) == TWO_TO_THE_64
  {
    assert Capacity(4) == 256 * 256 * 256 * 256;
    assert Capacity(8) == 256 * 256 * 256 * 256 * Capacity(4);
  }

  /** A 32-bit unsigned integer as 4 little-endian bytes. */
  function U32Bytes(x: u32): (s: seq<byte>)
    ensures |s| == 4
  {
    CapacityOf4And8();
    LittleEndian(x, 4)
  }

  /** A 64-bit unsigned integer as 8 little-endian bytes. */
  function U64Bytes(x: u64): (s: seq<byte>)
    ensures |s| == 8
  {
    CapacityOf4And8();
    LittleEndian(x, 8)
  }

  /** Reading 8 little-endian bytes back gives a 64-bit value. */
  function ReadU64(s: seq<byte>): (x: u64)
    requires |s| == 8
  {
    CapacityOf4And8();
    FromLittleEndian(s)
  }

  /** Reading 4 little-endian bytes back gives a 32-bit value. */
  function ReadU32(s: seq<byte>): (x: u32)
    requires |s| == 4
  {
    CapacityOf4And8();
    FromLittleEndian(s)
  }

  lemma U64RoundTrip(x: u64)
    ensures ReadU64(U64Bytes(x)) == x
  {
    CapacityOf4And8();
    FromLittleEndianInverse(x, 8);
  }

  lemma U32RoundTrip(x: u32)
    ensures ReadU32(U32Bytes(x)) == x
  {
    CapacityOf4And8();
    FromLittleEndianInverse(x, 4);
  }

  /** Every 8 bytes are the encoding of the 64-bit value they stand for. */
  lemma U64BytesOfRead(s: seq<byte>)
    requires |s| == 8
    ensures U64Bytes(ReadU64(s)) == s
  {
    LittleEndianInverse(s);
  }

  /** Every 4 bytes are the encoding of the 32-bit value they stand for. */
  lemma U32BytesOfRead(s: seq<byte>)
    requires |s| == 4
    ensures U32Bytes(ReadU32(s)) == s
  {
    LittleEndianInverse(s);
  }

  /** The first `j` bytes are the first `i` followed by those from `i` to `j`. */
  lemma TakeSplit(s: seq<byte>, i: nat, j: nat)
    requires i <= j <= |s|
    ensures s[..j] == s[..i] + s[i..j]
  {
    assert forall t :: 0 <= t < j ==> s[..j][t] == (s[..i] + s[i..j])[t];
  }

  /** Bytes that begin with fields of 4, 4 and 8 bytes are those fields followed by the rest. */
  lemma Reassemble(s: seq<byte>, a: seq<byte>, b: seq<byte>, c: seq<byte>, d: seq<byte>)
    requires |s| >= 16 && s[..4] == a && s[4..8] == b && s[8..16] == c && s[16..] == d
    ensures s == a + b + c + d
  {
    TakeSplit(s, 4, 8);
    TakeSplit(s, 8, 16);
    assert s == s[..16] + s[16..];
  }

  /** `n` zero bytes: what a freshly resized buffer holds. */
  function Zeros(n: nat): (s: seq<byte>)
    ensures |s| == n && forall i :: 0 <= i < n ==> s[i] == 0
  {
    seq(n, _ => 0)
  }

  /** The buffers of `ss` one after another. */
  function Flatten(ss: seq<seq<byte>>): seq<byte>
  {
    if ss == [] then [] else ss[0] + Flatten(ss[1..])
  }

  /** The total of the lengths of `ss`. */
  function TotalLength(ss: seq<seq<byte>>): nat
  {
    if ss == [] then 0 else |ss[0]| + TotalLength(ss[1..])
  }

  /** Putting one buffer in front of a list puts its bytes in front of the flattening. */
  lemma FlattenCons(s: seq<byte>, ss: seq<seq<byte>>)
    ensures Flatten([s] + ss) == s + Flatten(ss)
  {
    assert ([s] + ss)[1..] == ss;
  }

  /** Appending one buffer to a list appends its bytes to the flattening. */
  lemma {:induction false} FlattenSnoc(ss: seq<seq<byte>>, s: seq<byte>)
    ensures Flatten(ss + [s]) == Flatten(ss) + s
  {
    if ss != [] {
      assert (ss + [s])[1..] == ss[1..] + [s];
      FlattenSnoc(ss[1..], s);
    }
  }

  /** Flattening splits over concatenation of lists. */
  lemma {:induction false} FlattenAppend(ss: seq<seq<byte>>, tt: seq<seq<byte>>)
    ensures Flatten(ss + tt) == Flatten(ss) + Flatten(tt)
  {
    if ss != [] {
      assert (ss + tt)[1..] == ss[1..] + tt;
      FlattenAppend(ss[1..], tt);
      assert Flatten(ss + tt) == ss[0] + Flatten(ss[1..] + tt);
    } else {
      assert ss + tt == tt;
    }
  }

  /** The flattening is as long as the buffers put together. */
  lemma {:induction false} FlattenLength(ss: seq<seq<byte>>)
    ensures |Flatten(ss)| == TotalLength(ss)
  {
    if ss != [] {
      FlattenLength(ss[1..]);
    }
  }
}
