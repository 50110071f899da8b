/** Bit-level view of bytes shared by the bit writer and the bit reader.
    Bytes travel most-significant bit first: position 0 of a byte is its
    bit 7, position 7 is its bit 0. */
module Bits {

  /** The value of position p (0 = most significant) in a byte. */
  function Mask(p: nat): bv8
    requires p < 8
  {
    match p
    case 0 => 0x80
    case 1 => 0x40
    case 2 => 0x20
    case 3 => 0x10
    case 4 => 0x08
    case 5 => 0x04
    case 6 => 0x02
    case _ => 0x01
  }

  /** `bit << (7 - p)`: the contribution of one bit stored at position p. */
  function Place(bit: bool, p: nat): bv8
    requires p < 8
  {
    if bit then Mask(p) else 0
  }

  /** The eight bits of a byte, most significant first. */
  function ByteBits(b: bv8): (r: seq<bool>)
    ensures |r| == 8
  {
    seq(8, p requires 0 <= p < 8 => b & Mask(p) != 0)
  }

  /** Bit streams are regrouped freely: appending is associative. */
  lemma Regroup(a: seq<bool>, b: seq<bool>, c: seq<bool>)
    ensures a + (b + c) == (a + b) + c
  {
  }

  /** The OR of the contributions of bits[from..], each at its own position. */
  function Weigh(bits: seq<bool>, from: nat): bv8
    requires |bits| <= 8 && from <= |bits|
    decreases |bits| - from
  {
    if from == |bits| then 0 else Place(bits[from], from) | Weigh(bits, from + 1)
  }

  /** The byte whose leading bits are `bits` and whose remaining low bits are zero. */
  function ByteOf(bits: seq<bool>): bv8
    requires |bits| <= 8
  {
    Weigh(bits, 0)
  }

  function Zeros(n: nat): (r: seq<bool>)
    ensures |r| == n && forall k :: 0 <= k < n ==> !r[k]
  {
    seq(n, k => false)
  }

  /** A bit sequence whose length is a multiple of 8, cut into bytes. */
  function Pack(bits: seq<bool>): (r: seq<bv8>)
    requires |bits| % 8 == 0
    ensures |r| * 8 == |bits|
    decreases |bits|
  {
    if bits == [] then [] else [ByteOf(bits[..8])] + Pack(bits[8..])
  }

  /** The bits of a byte sequence, each byte most significant bit first. */
  function Unpack(bytes: seq<bv8>): (r: seq<bool>)
    ensures |r| == 8 * |bytes|
  {
    if bytes == [] then [] else ByteBits(bytes[0]) + Unpack(bytes[1..])
  }

  /** `s` read from its last element to its first. */
  function Reversed(s: seq<bool>): (r: seq<bool>)
    ensures |r| == |s|
  {
    seq(|s|, k requires 0 <= k < |s| => s[|s| - 1 - k])
  }

  /** What `read_bit` yields from the remaining bit stream (a caller's bit
      initialised to false stays false at end of input) and the stream after it. */
  function TakeBit(bits: seq<bool>): (bool, seq<bool>)
  {
    if bits == [] then (false, []) else (bits[0], bits[1..])
  }

  /** What `read_byte` yields from the remaining bit stream: eight bits most
      significant first, or, at end of input, the bits that were left with
      zeros below them; and the stream after it. */
  function TakeByte(bits: seq<bool>): (bv8, seq<bool>)
  {
    if |bits| >= 8 then (ByteOf(bits[..8]), bits[8..]) else (ByteOf(bits), [])
  }

  lemma Unfold8(s: seq<bool>)
    requires |s| == 8
    ensures ByteOf(s) == Place(s[0], 0) | Place(s[1], 1) | Place(s[2], 2) | Place(s[3], 3)
                       | Place(s[4], 4) | Place(s[5], 5) | Place(s[6], 6) | Place(s[7], 7)
  {
    assert Weigh(s, 7) == Place(s[7], 7);
    assert Weigh(s, 6) == Place(s[6], 6) | Place(s[7], 7);
    assert Weigh(s, 5) == Place(s[5], 5) | Weigh(s, 6);
    assert Weigh(s, 4) == Place(s[4], 4) | Weigh(s, 5);
    assert Weigh(s, 3) == Place(s[3], 3) | Weigh(s, 4);
    assert Weigh(s, 2) == Place(s[2], 2) | Weigh(s, 3);
    assert Weigh(s, 1) == Place(s[1], 1) | Weigh(s, 2);
  }

  lemma EightPlaces(b0: bool, b1: bool, b2: bool, b3: bool, b4: bool, b5: bool, b6: bool, b7: bool)
    ensures ByteBits(Place(b0, 0) | Place(b1, 1) | Place(b2, 2) | Place(b3, 3)
                   | Place(b4, 4) | Place(b5, 5) | Place(b6, 6) | Place(b7, 7))
         == [b0, b1, b2, b3, b4, b5, b6, b7]
  {
  }

  lemma PlacesBits(s: seq<bool>, v: bv8)
    requires |s| == 8
    requires v == Place(s[0], 0) | Place(s[1], 1) | Place(s[2], 2) | Place(s[3], 3)
                | Place(s[4], 4) | Place(s[5], 5) | Place(s[6], 6) | Place(s[7], 7)
    ensures ByteBits(v) == s
  {
    assert s == [s[0], s[1], s[2], s[3], s[4], s[5], s[6], s[7]];
    EightPlaces(s[0], s[1], s[2], s[3], s[4], s[5], s[6], s[7]);
  }

  /** Splitting a byte into bits and reassembling it gives the byte back. */
  lemma ByteOfByteBits(b: bv8)
    ensures ByteOf(ByteBits(b)) == b
  {
    Unfold8(ByteBits(b));
  }

  /** Assembling eight bits into a byte and splitting it gives the bits back. */
  lemma ByteBitsByteOf(s: seq<bool>)
    requires |s| == 8
    ensures ByteBits(ByteOf(s)) == s
  {
    Unfold8(s);
    PlacesBits(s, ByteOf(s));
  }

  /** Adding one more bit at the next position ORs in its contribution. */
  lemma {:induction false} WeighSnoc(bits: seq<bool>, b: bool, from: nat)
    requires |bits| < 8 && from <= |bits|
    ensures Weigh(bits + [b], from) == Weigh(bits, from) | Place(b, |bits|)
    decreases |bits| - from
  {
    if from < |bits| {
      WeighSnoc(bits, b, from + 1);
      assert (bits + [b])[from] == bits[from];
    }
  }

  /** Appending zero bits leaves the assembled byte unchanged: flush pads
      with zeros without changing the high bits. */
  lemma {:induction false} ByteOfZeros(bits: seq<bool>, n: nat)
    requires |bits| + n <= 8
    ensures ByteOf(bits + Zeros(n)) == ByteOf(bits)
    decreases n
  {
    if n > 0 {
      assert bits + Zeros(n) == (bits + Zeros(n - 1)) + [false];
      WeighSnoc(bits + Zeros(n - 1), false, 0);
      ByteOfZeros(bits, n - 1);
    } else {
      assert bits + Zeros(n) == bits;
    }
  }

  lemma PackOne(s: seq<bool>)
    requires |s| == 8
    ensures Pack(s) == [ByteOf(s)]
  {
    assert s[..8] == s;
    assert s[8..] == [];
  }

  lemma {:induction false} PackAppend(a: seq<bool>, b: seq<bool>)
    requires |a| % 8 == 0 && |b| % 8 == 0
    ensures Pack(a + b) == Pack(a) + Pack(b)
    decreases |a|
  {
    if a != [] {
      assert (a + b)[..8] == a[..8];
      assert (a + b)[8..] == a[8..] + b;
      PackAppend(a[8..], b);
    } else {
      assert a + b == b;
    }
  }

  lemma {:induction false} UnpackAppend(a: seq<bv8>, b: seq<bv8>)
    ensures Unpack(a + b) == Unpack(a) + Unpack(b)
    decreases |a|
  {
    if a != [] {
      assert (a + b)[0] == a[0];
      assert (a + b)[1..] == a[1..] + b;
      UnpackAppend(a[1..], b);
    } else {
      assert a + b == b;
    }
  }

  /** The reader recovers exactly the bits the writer packed. */
  lemma {:induction false} UnpackPack(bits: seq<bool>)
    requires |bits| % 8 == 0
    ensures Unpack(Pack(bits)) == bits
    decreases |bits|
  {
    if bits != [] {
      ByteBitsByteOf(bits[..8]);
      UnpackPack(bits[8..]);
      assert bits == bits[..8] + bits[8..];
    }
  }

  /** Packing the bits of a byte sequence gives the byte sequence back. */
  lemma {:induction false} PackUnpack(bytes: seq<bv8>)
    ensures Pack(Unpack(bytes)) == bytes
    decreases |bytes|
  {
    if bytes != [] {
      var u := Unpack(bytes);
      assert u[..8] == ByteBits(bytes[0]);
      assert u[8..] == Unpack(bytes[1..]);
      ByteOfByteBits(bytes[0]);
      PackUnpack(bytes[1..]);
    }
  }

  /** A byte written bit by bit is read back whole. */
  lemma TakeByteBits(b: bv8, rest: seq<bool>)
    ensures TakeByte(ByteBits(b) + rest) == (b, rest)
  {
    var s := ByteBits(b) + rest;
    assert s[..8] == ByteBits(b);
    assert s[8..] == rest;
    ByteOfByteBits(b);
  }
}
