/** The bit writer of bit_writer.h: bits are buffered eight at a time and
    each full buffer leaves as one byte, most significant bit first. The
    FILE* behind it is a byte sequence that accepts at most `limit` bytes;
    once it is full every further put fails, as fputc returning EOF. */
module BitWriter {
  import opened Bits

  /** What a sink that accepts at most `limit` bytes keeps of `s`. */
  function Truncate(s: seq<bv8>, limit: nat): (r: seq<bv8>)
    ensures r <= s
    ensures |r| == if |s| <= limit then |s| else limit
  {
    if |s| <= limit then s else s[..limit]
  }

  /** One more byte reaches the sink exactly when the sink still has room. */
  lemma TruncateSnoc(s: seq<bv8>, x: bv8, limit: nat)
    ensures |Truncate(s, limit)| < limit ==> Truncate(s + [x], limit) == Truncate(s, limit) + [x]
    ensures |Truncate(s, limit)| >= limit ==> Truncate(s + [x], limit) == Truncate(s, limit)
  {
    if |s| > limit {
      assert (s + [x])[..limit] == s[..limit];
    } else if |s| == limit {
      assert (s + [x])[..limit] == s;
    }
  }

  /** Completing one more byte of bits adds that byte to what the sink keeps,
      when it has room. */
  lemma SinkAfterByte(done: seq<bool>, full: seq<bool>, limit: nat)
    requires |done| % 8 == 0 && |full| == 8
    ensures var kept := Truncate(Pack(done), limit);
      Truncate(Pack(done + full), limit) == if |kept| < limit then kept + [ByteOf(full)] else kept
  {
    PackAppend(done, full);
    PackOne(full);
    TruncateSnoc(Pack(done), ByteOf(full), limit);
  }

  /** Flushing a partly filled byte: the padded byte is what the sink keeps
      next, when it has room, and it carries the pending bits. */
  lemma SinkAfterFlush(done: seq<bool>, pending: seq<bool>, limit: nat)
    requires |done| % 8 == 0 && |pending| < 8
    ensures var full := pending + Zeros(8 - |pending|);
      var kept := Truncate(Pack(done), limit);
      && |full| == 8
      && done + full == (done + pending) + Zeros(8 - |pending|)
      && Truncate(Pack(done + full), limit) == if |kept| < limit then kept + [ByteOf(pending)] else kept
  {
    var full := pending + Zeros(8 - |pending|);
    ByteOfZeros(pending, 8 - |pending|);
    SinkAfterByte(done, full, limit);
    Regroup(done, pending, Zeros(8 - |pending|));
  }

  class Writer {
    const buffer: array<bool>
    var cursor: nat
    var sink: seq<bv8>
    const limit: nat

    /** The bits of every byte already handed to the sink (or refused by it). */
    ghost var Done: seq<bool>

    /** Every bit accepted so far, with the flush padding. */
    ghost var Written: seq<bool>

    ghost predicate Valid()
      reads this, buffer
    {
      && buffer.Length == 8
      && cursor < 8
      && |Done| % 8 == 0
      && Written == Done + buffer[..cursor]
      && sink == Truncate(Pack(Done), limit)
    }

    constructor (limit: nat)
      ensures Valid() && fresh(buffer)
      ensures Written == [] && sink == [] && cursor == 0 && this.limit == limit
    {
      buffer := new bool[8];
      cursor := 0;
      sink := [];
      this.limit := limit;
      Done := [];
      Written := [];
    }

    /** fputc: the byte is kept when the sink has room. */
    method Put(b: bv8) returns (ok: bool)
      modifies this`sink
      ensures ok == (|old(sink)| < limit)
      ensures sink == if ok then old(sink) + [b] else old(sink)
    {
      ok := |sink| < limit;
      if ok {
        sink := sink + [b];
      }
    }

    /** The byte made of the first n buffered bits, the rest zero
        (the assembly loop of write_bit and flush). */
    method Assemble(n: nat) returns (byte: bv8)
      requires buffer.Length == 8 && n <= 8
      ensures byte == ByteOf(buffer[..n])
    {
      byte := 0;
      var i := n;
      while i > 0
        invariant 0 <= i <= n
        invariant byte == Weigh(buffer[..n], i)
      {
        i := i - 1;
        byte := byte | Place(buffer[i], i);
      }
    }

    method WriteBit(bit: bool) returns (ok: bool)
      requires Valid()
      modifies this, buffer
      ensures Valid()
      ensures Written == old(Written) + [bit]
      ensures cursor == if old(cursor) < 7 then old(cursor) + 1 else 0
      ensures ok == (old(cursor) < 7 || |old(sink)| < limit)
      ensures old(cursor) < 7 ==> sink == old(sink)
      ensures old(cursor) == 7 ==> sink == Truncate(Pack(Written), limit)
    {
      buffer[cursor] := bit;
      if cursor < 7 {
        cursor := cursor + 1;
        assert buffer[..cursor] == old(buffer[..cursor]) + [bit];
        Written := Written + [bit];
        ok := true;
      } else {
        ghost var full := buffer[..8];
        assert full == old(buffer[..7]) + [bit];
        var byte := Assemble(8);
        SinkAfterByte(Done, full, limit);
        Done := Done + full;
        Written := Done;
        cursor := 0;
        ok := Put(byte);
      }
    }

    /** Pushes out a partly filled buffer with zeros in the unused low bits. */
    method Flush() returns (ok: bool)
      requires Valid()
      modifies this
      ensures Valid() && cursor == 0 && sink == Truncate(Pack(Written), limit) && |Written| % 8 == 0
      ensures Written == old(Written) + if old(cursor) == 0 then [] else Zeros(8 - old(cursor))
      ensures old(cursor) == 0 ==> ok && sink == old(sink)
      ensures old(cursor) > 0 ==>
        && ok == (|old(sink)| < limit)
        && sink == if ok then old(sink) + [ByteOf(old(buffer[..cursor]))] else old(sink)
    {
      if cursor != 0 {
        ghost var pending := buffer[..cursor];
        var byte := Assemble(cursor);
        SinkAfterFlush(Done, pending, limit);
        Done := Done + (pending + Zeros(8 - cursor));
        Written := Done;
        cursor := 0;
        ok := Put(byte);
        assert buffer[..cursor] == [];
      } else {
        ok := true;
        assert Written + [] == Written;
        assert Written == Done + buffer[..0] == Done;
      }
    }

    /** Eight write_bit calls, bit 7 first (written out one by one in the
        source, here as a loop over the bit positions); true when all eight
        succeeded. */
    method WriteByte(byte: bv8) returns (ok: bool)
      requires Valid()
      modifies this, buffer
      ensures Valid()
      ensures Written == old(Written) + ByteBits(byte)
      ensures cursor == old(cursor)
      ensures ok == (|old(sink)| < limit)
    {
      var bits := ByteBits(byte);
      var result := 0;
      for i := 0 to 8
        invariant Valid()
        invariant Written == old(Written) + bits[..i]
        invariant cursor == if old(cursor) + i < 8 then old(cursor) + i else old(cursor) + i - 8
        invariant old(cursor) + i < 8 ==> sink == old(sink)
        invariant result <= i
        invariant result == i <==> (old(cursor) + i < 8 || |old(sink)| < limit)
      {
        var r := WriteBit(bits[i]);
        assert bits[..i + 1] == bits[..i] + [bits[i]];
        Regroup(old(Written), bits[..i], [bits[i]]);
        if r {
          result := result + 1;
        }
      }
      assert bits[..8] == bits;
      ok := result == 8;
    }
  }
}
