/** The bit reader of bit_reader.h: one byte of the input is fetched at a
    time, spread over an eight-entry buffer, and handed out most significant
    bit first. The FILE* behind it is the byte sequence `source`, read from
    position `pos` on; fgetc returning EOF is `pos == |source|`. */
module BitReader {
  import opened Bits

  class Reader {
    var buffer: array<bool>
    var cursor: nat
    const source: seq<bv8>
    var pos: nat

    /** The bits still to be handed out: the buffered ones (buffer[cursor-1]
        first) and then every bit of the unread input. */
    ghost var Remaining: seq<bool>

    ghost predicate Valid()
      reads this, buffer
    {
      && buffer.Length == 8 && cursor <= 7 && pos <= |source|
      && Remaining == Reversed(buffer[..cursor]) + Unpack(source[pos..])
    }

    constructor (source: seq<bv8>)
      ensures Valid() && fresh(buffer)
      ensures this.source == source && cursor == 0 && pos == 0
      ensures Remaining == Unpack(source)
    {
      buffer := new bool[8];
      cursor := 0;
      this.source := source;
      pos := 0;
      Remaining := Unpack(source);
      new;
      assert buffer[..0] == [];
      assert source[0..] == source;
    }

    /** read_bit: the next bit of the stream; false when the input is
        exhausted, and `bit` is then left as the caller had it. */
    method ReadBit(bit0: bool) returns (ok: bool, bit: bool)
      requires Valid()
      modifies this, buffer
      ensures Valid() && buffer == old(buffer)
      ensures ok == (old(Remaining) != [])
      ensures ok ==> bit == old(Remaining)[0] && Remaining == old(Remaining)[1..]
      ensures !ok ==> bit == bit0 && Remaining == old(Remaining)
    {
      if cursor > 0 {
        ghost var rest := Unpack(source[pos..]);
        ghost var held := buffer[..cursor];
        cursor := cursor - 1;
        bit := buffer[cursor];
        assert buffer[..cursor] == held[..cursor];
        assert Reversed(held) == [bit] + Reversed(held[..cursor]);
        Remaining := Remaining[1..];
        ok := true;
      } else if pos == |source| {
        assert Remaining == [];
        ok, bit := false, bit0;
      } else {
        var byte := source[pos];
        pos := pos + 1;
        Refill(byte);
        bit := buffer[7];
        cursor := 7;
        BufferOrder(buffer[..], byte);
        assert source[pos - 1..] == [byte] + source[pos..];
        Remaining := Remaining[1..];
        ok := true;
      }
    }

    /** The loop of read_bit that spreads a fetched byte over the buffer:
        entry i is the bit of weight 2^i. */
    method Refill(byte: bv8)
      requires buffer.Length == 8
      modifies buffer
      ensures forall k :: 0 <= k < 8 ==> buffer[k] == ByteBits(byte)[7 - k]
    {
      for i := 0 to 8
        invariant forall k :: 0 <= k < i ==> buffer[k] == ByteBits(byte)[7 - k]
      {
        buffer[i] := byte & Mask(7 - i) != 0;
      }
    }

    /** read_byte: eight bits, the first one read most significant. At end
        of input it stops early with false; the byte then holds the bits
        read so far. */
    method ReadByte() returns (ok: bool, byte: bv8)
      requires Valid()
      modifies this, buffer
      ensures Valid() && buffer == old(buffer)
      ensures ok == (|old(Remaining)| >= 8)
      ensures (byte, Remaining) == TakeByte(old(Remaining))
    {
      byte := 0;
      ghost var got: seq<bool> := [];
      for i := 0 to 8
        invariant Valid() && buffer == old(buffer)
        invariant |got| == i
        invariant old(Remaining) == got + Remaining
        invariant byte == ByteOf(got)
      {
        ghost var before := Remaining;
        var r, bit := ReadBit(false);
        if !r {
          assert old(Remaining) == got;
          return false, byte;
        }
        assert before == [bit] + Remaining;
        Regroup(got, [bit], Remaining);
        WeighSnoc(got, bit, 0);
        byte := byte | Place(bit, i);
        got := got + [bit];
      }
      assert old(Remaining)[..8] == got && old(Remaining)[8..] == Remaining;
      ok := true;
    }
  }

  /** A buffer filled by the refill loop, read from entry 6 down to entry 0,
      gives the byte's bits after its most significant one. */
  lemma BufferOrder(buf: seq<bool>, byte: bv8)
    requires |buf| == 8
    requires forall k :: 0 <= k < 8 ==> buf[k] == ByteBits(byte)[7 - k]
    ensures buf[7] == ByteBits(byte)[0]
    ensures Reversed(buf[..7]) == ByteBits(byte)[1..]
  {
  }
}
