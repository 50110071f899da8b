/** The bit layout huffman.h writes and reads, as functions on bit
    sequences: the table header of write_huffman_table, the four-byte length
    and the code bits of write_encoded_message, the 0xFF trailer of
    huffman_write, and what read_huffman_table, read_encoded_message_length
    and read_encoded_message_byte make of a bit stream. The round-trip
    lemmas state when reading gives back what was written. */
module HuffmanFormat {
  import opened Bits
  import opened Optional
  import opened HuffmanTree
  import opened Arenas

  // ---------------------------------------------------------------------
  // Numbers written as bits

  function Pow2(k: nat): (r: nat)
    ensures r > 0
  {
    if k == 0 then 1 else 2 * Pow2(k - 1)
  }

  /** The number of bits needed for m: the smallest n with 2^n > m. */
  function BitLength(m: nat): (n: nat)
    ensures Pow2(n) > m
    ensures n == 0 || Pow2(n - 1) <= m
  {
    if m == 0 then 0 else 1 + BitLength(m / 2)
  }

  /** A value below 2^k needs at most k bits. */
  lemma {:induction false} BitLengthAtMost(m: nat, k: nat)
    requires m < Pow2(k)
    ensures BitLength(m) <= k
  {
    if m > 0 {
      BitLengthAtMost(m / 2, k - 1);
    }
  }

  /** The loop `while ((1 << nobfel) <= maximum_entry_len) nobfel += 1`
      stops at the bit length: 2^n above m and 2^(n-1) not. */
  lemma {:induction false} BitLengthUnique(m: nat, n: nat)
    requires Pow2(n) > m && (n == 0 || Pow2(n - 1) <= m)
    ensures n == BitLength(m)
  {
    if m > 0 {
      BitLengthUnique(m / 2, n - 1);
    }
  }

  /** `n & (1 << i)` is set. */
  predicate Bit(n: nat, i: nat)
  {
    (n / Pow2(i)) % 2 == 1
  }

  /** The `count` lowest bits of n, bit count-1 first: the order of the
      loop `for (i = nobfel-1; i < nobfel; i--)` of write_huffman_table. */
  function Binary(n: nat, count: nat): (r: seq<bool>)
    ensures |r| == count
  {
    if count == 0 then [] else [Bit(n, count - 1)] + Binary(n, count - 1)
  }

  /** What the loop `length |= bit << (nobfel-1-biti)` of read_huffman_table
      accumulates from the bits it reads: the first bit weighs most. */
  function Value(bits: seq<bool>): nat
  {
    if bits == [] then 0 else (if bits[0] then Pow2(|bits| - 1) else 0) + Value(bits[1..])
  }

  /** Reading back the bits written for n gives n, cut to `count` bits. */
  lemma {:induction false} ValueBinary(n: nat, count: nat)
    ensures Value(Binary(n, count)) == n % Pow2(count)
  {
    if count > 0 {
      ValueBinary(n, count - 1);
      assert Binary(n, count)[1..] == Binary(n, count - 1);
      HalfStep(n, Pow2(count - 1));
    }
  }

  /** Splitting n by 2p: its remainder is the remainder by p, plus p when
      bit p of n is set. */
  lemma HalfStep(n: nat, p: nat)
    requires p > 0
    ensures n % (2 * p) == (if (n / p) % 2 == 1 then p else 0) + n % p
  {
    var q, r := n / p, n % p;
    var h := q / 2;
    assert q == 2 * h + q % 2;
    DoubleTimes(h, p);
    if q % 2 == 0 {
      DivisionIsUnique(n, 2 * p, h, r);
    } else {
      DivisionIsUnique(n, 2 * p, h, p + r);
    }
  }

  lemma DoubleTimes(h: int, p: int)
    ensures (2 * h) * p == h * (2 * p) && (2 * h + 1) * p == h * (2 * p) + p
  {
  }

  /** n successive read_bit calls, each into a bit that starts false. */
  function TakeBits(n: nat, bits: seq<bool>): (r: (seq<bool>, seq<bool>))
    ensures |r.0| == n
  {
    if n == 0 then ([], bits)
    else
      var first := TakeBit(bits);
      var more := TakeBits(n - 1, first.1);
      ([first.0] + more.0, more.1)
  }

  lemma {:induction false} TakeBitsPrefix(p: seq<bool>, rest: seq<bool>)
    ensures TakeBits(|p|, p + rest) == (p, rest)
    decreases |p|
  {
    if p != [] {
      assert (p + rest)[0] == p[0] && (p + rest)[1..] == p[1..] + rest;
      TakeBitsPrefix(p[1..], rest);
      assert [p[0]] + p[1..] == p;
    } else {
      assert p + rest == rest;
    }
  }

  // ---------------------------------------------------------------------
  // The table header: write_huffman_table and read_huffman_table

  /** The longest code among entries 0 .. n-1 (maximum_entry_len). */
  function MaxLen(table: seq<Code>, n: nat): (r: nat)
    requires IsTable(table) && n <= 256
    ensures forall k :: 0 <= k < n ==> |table[k]| <= r
    ensures n > 0 ==> exists k :: 0 <= k < n && |table[k]| == r
    ensures n == 0 ==> r == 0
  {
    if n == 0 then 0 else Max(MaxLen(table, n - 1), |table[n - 1]|)
  }

  /** The number of present entries among i .. 255 (entry_count for i = 0). */
  function CountFrom(table: seq<Code>, i: nat): (r: nat)
    requires IsTable(table) && i <= 256
    ensures r <= 256 - i
    decreases 256 - i
  {
    if i == 256 then 0 else (if |table[i]| > 0 then 1 else 0) + CountFrom(table, i + 1)
  }

  /** nobfel: the bits that carry one entry length. */
  function Nobfel(table: seq<Code>): nat
    requires IsTable(table)
  {
    BitLength(MaxLen(table, 256))
  }

  /** One present entry on the wire: the symbol byte, nobfel length bits
      and the code itself. */
  function EntryBits(table: seq<Code>, nob: nat, i: nat): seq<bool>
    requires IsTable(table) && i < 256
  {
    ByteBits(ToByte(i)) + (Binary(|table[i]|, nob) + table[i])
  }

  /** The present entries among i .. 255, in ascending symbol order. */
  function EntriesFrom(table: seq<Code>, nob: nat, i: nat): seq<bool>
    requires IsTable(table) && i <= 256
    decreases 256 - i
  {
    if i == 256 then []
    else (if |table[i]| > 0 then EntryBits(table, nob, i) else []) + EntriesFrom(table, nob, i + 1)
  }

  /** What write_huffman_table writes: the nobfel byte, the entry count
      truncated to a byte, then the present entries. */
  function HeaderBits(table: seq<Code>): seq<bool>
    requires IsTable(table)
  {
    var nob := Nobfel(table);
    ByteBits(ToByte(nob % 256)) + (ByteBits(ToByte(CountFrom(table, 0) % 256)) + EntriesFrom(table, nob, 0))
  }

  /** One iteration of read_huffman_table's entry loop: the symbol byte,
      the length from nobfel bits, then that many code bits. */
  function ParseEntry(nob: nat, bits: seq<bool>): (bv8, Code, seq<bool>)
  {
    var symbol := TakeByte(bits);
    var length := TakeBits(nob, symbol.1);
    var code := TakeBits(Value(length.0), length.1);
    (symbol.0, code.0, code.1)
  }

  /** k iterations of the entry loop, each storing its entry over the old one. */
  function ParseEntries(k: nat, nob: nat, table: seq<Code>, bits: seq<bool>): (r: (seq<Code>, seq<bool>))
    requires IsTable(table)
    ensures IsTable(r.0)
  {
    if k == 0 then (table, bits)
    else
      var entry := ParseEntry(nob, bits);
      ParseEntries(k - 1, nob, table[entry.0 as int := entry.1], entry.2)
  }

  /** What read_huffman_table leaves in `table` and in the stream. */
  function ParseTable(table: seq<Code>, bits: seq<bool>): (r: (seq<Code>, seq<bool>))
    requires IsTable(table)
    ensures IsTable(r.0)
  {
    var nob := TakeByte(bits);
    var count := TakeByte(nob.1);
    ParseEntries(count.0 as int, nob.0 as int, table, count.1)
  }

  /** acc with entries i .. 255 replaced by table's present ones. */
  function Overlay(acc: seq<Code>, table: seq<Code>, i: nat): (r: seq<Code>)
    requires IsTable(acc) && IsTable(table)
    ensures IsTable(r)
  {
    seq(256, k requires 0 <= k < 256 => if k >= i && |table[k]| > 0 then table[k] else acc[k])
  }

  /** One entry written is one entry read. */
  lemma ParseEntryBits(table: seq<Code>, nob: nat, i: nat, rest: seq<bool>)
    requires IsTable(table) && i < 256 && |table[i]| < Pow2(nob)
    ensures ParseEntry(nob, EntryBits(table, nob, i) + rest) == (ToByte(i), table[i], rest)
  {
    var code := table[i];
    var b := Binary(|code|, nob);
    Regroup(ByteBits(ToByte(i)), b + code, rest);
    Regroup(b, code, rest);
    var bits := EntryBits(table, nob, i) + rest;
    assert bits == ByteBits(ToByte(i)) + (b + (code + rest));
    TakeByteBits(ToByte(i), b + (code + rest));
    var symbol := TakeByte(bits);
    assert symbol == (ToByte(i), b + (code + rest));
    TakeBitsPrefix(b, code + rest);
    var length := TakeBits(nob, symbol.1);
    assert length == (b, code + rest);
    ValueBinary(|code|, nob);
    DivisionIsUnique(|code|, Pow2(nob), 0, |code|);
    assert Value(length.0) == |code|;
    TakeBitsPrefix(code, rest);
    assert TakeBits(Value(length.0), length.1) == (code, rest);
  }

  /** One iteration of the entry loop over a written entry stores it at
      its symbol and moves past it. */
  lemma ParseEntriesStep(table: seq<Code>, nob: nat, i: nat, k: nat, acc: seq<Code>, rest: seq<bool>)
    requires IsTable(table) && IsTable(acc) && i < 256 && |table[i]| < Pow2(nob)
    ensures ParseEntries(k + 1, nob, acc, EntryBits(table, nob, i) + rest)
         == ParseEntries(k, nob, acc[i := table[i]], rest)
  {
    ParseEntryBits(table, nob, i, rest);
  }

  /** The entry loop reads back the present entries among i .. 255, each
      stored at its own symbol. */
  lemma {:induction false} EntriesRoundTrip(table: seq<Code>, nob: nat, i: nat, acc: seq<Code>, rest: seq<bool>)
    requires IsTable(table) && IsTable(acc) && i <= 256
    requires forall k :: 0 <= k < 256 ==> |table[k]| < Pow2(nob)
    ensures ParseEntries(CountFrom(table, i), nob, acc, EntriesFrom(table, nob, i) + rest)
         == (Overlay(acc, table, i), rest)
    decreases 256 - i, 1
  {
    if i == 256 {
      assert Overlay(acc, table, i) == acc;
      assert EntriesFrom(table, nob, i) + rest == rest;
    } else if |table[i]| == 0 {
      SkipAbsent(table, nob, i, acc, rest);
    } else {
      ReadPresent(table, nob, i, acc, rest);
    }
  }

  lemma {:induction false} SkipAbsent(table: seq<Code>, nob: nat, i: nat, acc: seq<Code>, rest: seq<bool>)
    requires IsTable(table) && IsTable(acc) && i < 256 && |table[i]| == 0
    requires forall k :: 0 <= k < 256 ==> |table[k]| < Pow2(nob)
    ensures ParseEntries(CountFrom(table, i), nob, acc, EntriesFrom(table, nob, i) + rest)
         == (Overlay(acc, table, i), rest)
    decreases 256 - i, 0
  {
    EntriesRoundTrip(table, nob, i + 1, acc, rest);
    assert Overlay(acc, table, i + 1) == Overlay(acc, table, i);
    assert CountFrom(table, i) == CountFrom(table, i + 1);
    assert EntriesFrom(table, nob, i) == EntriesFrom(table, nob, i + 1);
  }

  lemma {:induction false} ReadPresent(table: seq<Code>, nob: nat, i: nat, acc: seq<Code>, rest: seq<bool>)
    requires IsTable(table) && IsTable(acc) && i < 256 && |table[i]| > 0
    requires forall k :: 0 <= k < 256 ==> |table[k]| < Pow2(nob)
    ensures ParseEntries(CountFrom(table, i), nob, acc, EntriesFrom(table, nob, i) + rest)
         == (Overlay(acc, table, i), rest)
    decreases 256 - i, 0
  {
    var later := EntriesFrom(table, nob, i + 1);
    assert EntriesFrom(table, nob, i) == EntryBits(table, nob, i) + later;
    Regroup(EntryBits(table, nob, i), later, rest);
    assert CountFrom(table, i) == CountFrom(table, i + 1) + 1;
    ParseEntriesStep(table, nob, i, CountFrom(table, i + 1), acc, later + rest);
    EntriesRoundTrip(table, nob, i + 1, acc[i := table[i]], rest);
    OverlayStep(acc, table, i);
  }

  lemma OverlayStep(acc: seq<Code>, table: seq<Code>, i: nat)
    requires IsTable(acc) && IsTable(table) && i < 256 && |table[i]| > 0
    ensures Overlay(acc[i := table[i]], table, i + 1) == Overlay(acc, table, i)
  {
    var u, v := Overlay(acc[i := table[i]], table, i + 1), Overlay(acc, table, i);
    forall k | 0 <= k < 256
      ensures u[k] == v[k]
    {
    }
  }

  /** read_huffman_table on a zeroed table gives back the table
      write_huffman_table wrote, when fewer than 256 entries are present
      and nobfel fits its byte. */
  lemma HeaderRoundTrip(table: seq<Code>, rest: seq<bool>)
    requires IsTable(table) && CountFrom(table, 0) < 256 && Nobfel(table) < 256
    ensures ParseTable(Zeroed(), HeaderBits(table) + rest) == (table, rest)
  {
    var nob, count := Nobfel(table), CountFrom(table, 0);
    var entries := EntriesFrom(table, nob, 0);
    DivisionIsUnique(nob, 256, 0, nob);
    DivisionIsUnique(count, 256, 0, count);
    Regroup(ByteBits(ToByte(count)), entries, rest);
    Regroup(ByteBits(ToByte(nob)), ByteBits(ToByte(count)) + entries, rest);
    var bits := HeaderBits(table) + rest;
    assert bits == ByteBits(ToByte(nob)) + (ByteBits(ToByte(count)) + (entries + rest));
    ParseTableStep(ToByte(nob), ToByte(count), Zeroed(), entries + rest);
    NobfelFits(table);
    EntriesRoundTrip(table, nob, 0, Zeroed(), rest);
    OverlayZeroed(table);
  }

  /** nobfel bits hold the length of every entry. */
  lemma NobfelFits(table: seq<Code>)
    requires IsTable(table)
    ensures forall k :: 0 <= k < 256 ==> |table[k]| < Pow2(Nobfel(table))
  {
    var m := MaxLen(table, 256);
    assert Pow2(Nobfel(table)) > m;
  }

  /** Overlaying every present entry on a zeroed table gives the table. */
  lemma OverlayZeroed(table: seq<Code>)
    requires IsTable(table)
    ensures Overlay(Zeroed(), table, 0) == table
  {
    var o := Overlay(Zeroed(), table, 0);
    forall k | 0 <= k < 256
      ensures o[k] == table[k]
    {
    }
  }

  /** The two header bytes are read as nobfel and the entry count. */
  lemma ParseTableStep(nob: bv8, count: bv8, table: seq<Code>, rest: seq<bool>)
    requires IsTable(table)
    ensures ParseTable(table, ByteBits(nob) + (ByteBits(count) + rest))
         == ParseEntries(count as int, nob as int, table, rest)
  {
    TakeByteBits(nob, ByteBits(count) + rest);
    TakeByteBits(count, rest);
  }

  // ---------------------------------------------------------------------
  // The message: write_encoded_message and read_encoded_message_length

  /** Base-256 digits of n, most significant first, `count` of them
      (`(msg_len & 0xFF000000) >> 24` and so on for count = 4). */
  function Digits(n: nat, count: nat): (r: seq<bv8>)
    ensures |r| == count
  {
    if count == 0 then [] else Digits(n / 0x100, count - 1) + [ToByte(n % 0x100)]
  }

  /** The number whose base-256 digits are `bytes`, most significant first. */
  function Number(bytes: seq<bv8>): nat
  {
    if bytes == [] then 0 else Number(bytes[..|bytes| - 1]) * 0x100 + bytes[|bytes| - 1] as int
  }

  function Pow256(k: nat): nat
  {
    if k == 0 then 1 else 0x100 * Pow256(k - 1)
  }

  lemma {:induction false} NumberDigits(n: nat, count: nat)
    requires n < Pow256(count)
    ensures Number(Digits(n, count)) == n
  {
    if count > 0 {
      var d := Digits(n, count);
      assert d[..|d| - 1] == Digits(n / 0x100, count - 1);
      NumberDigits(n / 0x100, count - 1);
    }
  }

  /** Dividing by a and then by b is dividing by a * b. */
  lemma DivDiv(n: nat, a: nat, b: nat)
    requires a > 0 && b > 0
    ensures n / a / b == n / (a * b)
  {
    var q, r := n / a, n % a;
    var q2, r2 := q / b, q % b;
    assert n == q2 * (a * b) + (r2 * a + r) by {
      assert n == q * a + r && q == q2 * b + r2;
      assert q * a == q2 * (a * b) + r2 * a;
    }
    assert r2 * a + r < a * b by {
      MultiplyMonotone(r2, b - 1, a);
      assert (b - 1) * a == a * b - a;
    }
    DivisionIsUnique(n, a * b, q2, r2 * a + r);
  }

  /** The four length bytes, most significant first. */
  function LengthBits(n: nat): seq<bool>
  {
    Unpack(Digits(n, 4))
  }

  /** The four bytes write_encoded_message writes: `(msg_len & 0xFF000000)
      >> 24`, then the next lower byte, and so on. */
  lemma LengthBytes(n: nat)
    ensures LengthBits(n)
         == ByteBits(ToByte(n / 0x100_0000 % 0x100)) + (ByteBits(ToByte(n / 0x1_0000 % 0x100))
            + (ByteBits(ToByte(n / 0x100 % 0x100)) + ByteBits(ToByte(n % 0x100))))
  {
    DigitsFour(n);
    UnpackFour(ToByte(n / 0x100_0000 % 0x100), ToByte(n / 0x1_0000 % 0x100), ToByte(n / 0x100 % 0x100), ToByte(n % 0x100));
  }

  lemma DigitsFour(n: nat)
    ensures Digits(n, 4)
         == [ToByte(n / 0x100_0000 % 0x100), ToByte(n / 0x1_0000 % 0x100), ToByte(n / 0x100 % 0x100), ToByte(n % 0x100)]
  {
    DivDiv(n, 0x100, 0x100);
    DivDiv(n, 0x1_0000, 0x100);
    DivDiv(n / 0x100, 0x100, 0x100);
    assert Digits(n / 0x100_0000, 1) == [ToByte(n / 0x100_0000 % 0x100)];
  }

  lemma UnpackFour(b0: bv8, b1: bv8, b2: bv8, b3: bv8)
    ensures Unpack([b0, b1, b2, b3]) == ByteBits(b0) + (ByteBits(b1) + (ByteBits(b2) + ByteBits(b3)))
  {
    var d := [b0, b1, b2, b3];
    assert d[1..] == [b1, b2, b3] && d[1..][1..] == [b2, b3] && d[1..][1..][1..] == [b3] && [b3][1..] == [];
    assert Unpack([b3]) == ByteBits(b3) + [];
    assert ByteBits(b3) + [] == ByteBits(b3);
    assert Unpack([b2, b3]) == ByteBits(b2) + ByteBits(b3);
    assert Unpack([b1, b2, b3]) == ByteBits(b1) + (ByteBits(b2) + ByteBits(b3));
  }

  /** The value read_encoded_message_length assembles from its four bytes,
      `byte << 24 | ... | byte`, is the number they spell. */
  lemma NumberFour(b0: bv8, b1: bv8, b2: bv8, b3: bv8)
    ensures Number([b0, b1, b2, b3])
         == b0 as int * 0x100_0000 + b1 as int * 0x1_0000 + b2 as int * 0x100 + b3 as int
  {
    var d := [b0, b1, b2, b3];
    assert d[..3] == [b0, b1, b2] && [b0, b1, b2][..2] == [b0, b1] && [b0, b1][..1] == [b0] && [b0][..0] == [];
    assert Number([b0]) == b0 as int;
    assert Number([b0, b1]) == b0 as int * 0x100 + b1 as int;
    assert Number([b0, b1, b2]) == (b0 as int * 0x100 + b1 as int) * 0x100 + b2 as int;
  }

  /** read_encoded_message_length: four read_byte calls, the first one the
      most significant. */
  function ParseLength(bits: seq<bool>): (nat, seq<bool>)
  {
    var b0 := TakeByte(bits);
    var b1 := TakeByte(b0.1);
    var b2 := TakeByte(b1.1);
    var b3 := TakeByte(b2.1);
    (Number([b0.0, b1.0, b2.0, b3.0]), b3.1)
  }

  /** Every length below 2^32 is read back as written. */
  lemma LengthRoundTrip(n: nat, rest: seq<bool>)
    requires n < 0x1_0000_0000
    ensures ParseLength(LengthBits(n) + rest) == (n, rest)
  {
    var d := Digits(n, 4);
    var u3 := ByteBits(d[3]) + Unpack(d[4..]);
    var u2 := ByteBits(d[2]) + Unpack(d[3..]);
    var u1 := ByteBits(d[1]) + Unpack(d[2..]);
    assert Unpack(d[4..]) == [];
    assert Unpack(d[3..]) == ByteBits(d[3]);
    assert Unpack(d[2..]) == ByteBits(d[2]) + ByteBits(d[3]);
    assert Unpack(d[1..]) == ByteBits(d[1]) + Unpack(d[2..]);
    assert Unpack(d) == ByteBits(d[0]) + Unpack(d[1..]);
    Regroup(ByteBits(d[0]), Unpack(d[1..]), rest);
    Regroup(ByteBits(d[1]), Unpack(d[2..]), rest);
    Regroup(ByteBits(d[2]), ByteBits(d[3]), rest);
    TakeByteBits(d[0], Unpack(d[1..]) + rest);
    TakeByteBits(d[1], Unpack(d[2..]) + rest);
    TakeByteBits(d[2], ByteBits(d[3]) + rest);
    TakeByteBits(d[3], rest);
    assert [d[0], d[1], d[2], d[3]] == d;
    NumberDigits(n, 4);
  }

  /** The code bits write_encoded_message writes for msg, symbol by symbol. */
  function MessageBits(table: seq<Code>, msg: seq<bv8>): seq<bool>
    requires IsTable(table)
  {
    if msg == [] then [] else table[msg[0] as int] + MessageBits(table, msg[1..])
  }

  /** `got` in front of a decoding result. */
  function Prepend(got: seq<bv8>, r: (Option<seq<bv8>>, seq<bool>)): (Option<seq<bv8>>, seq<bool>)
  {
    (if r.0.Some? then Some(got + r.0.value) else None, r.1)
  }

  lemma PrependTwice(a: seq<bv8>, b: seq<bv8>, r: (Option<seq<bv8>>, seq<bool>))
    ensures Prepend(a, Prepend(b, r)) == Prepend(a + b, r)
  {
    if r.0.Some? {
      assert a + (b + r.0.value) == (a + b) + r.0.value;
    }
  }

  lemma PrependNothing(r: (Option<seq<bv8>>, seq<bool>))
    ensures Prepend([], r) == r
  {
    if r.0.Some? {
      assert [] + r.0.value == r.0.value;
    }
  }

  /** The decoding loop of huffman_read: n symbols, each by
      read_encoded_message_byte; None once a walk is rejected. */
  function DecodeMessage(t: Tree, n: nat, bits: seq<bool>): (Option<seq<bv8>>, seq<bool>)
  {
    if n == 0 then (Some([]), bits)
    else
      var first := DecodeSymbol(t, bits);
      if first.0.None? then (None, first.1) else Prepend([first.0.value], DecodeMessage(t, n - 1, first.1))
  }

  /** A message encoded with a prefix-free table whose entries cover it
      (none of its bytes 0) is decoded by the tree rebuilt from that table. */
  lemma {:induction false} MessageRoundTrip(table: seq<Code>, msg: seq<bv8>, rest: seq<bool>)
    requires IsTable(table) && PrefixFree(table)
    requires forall k :: 0 <= k < |msg| ==> msg[k] != 0 && |table[msg[k] as int]| > 0
    ensures DecodeMessage(Grow(table, 256), |msg|, MessageBits(table, msg) + rest) == (Some(msg), rest)
    decreases |msg|
  {
    if msg == [] {
      assert MessageBits(table, msg) + rest == rest;
    } else {
      var s := msg[0];
      var later := MessageBits(table, msg[1..]);
      Regroup(table[s as int], later, rest);
      assert s as int != 0;
      DecodeEntry(table, s as int, later + rest);
      ToByteOf(s);
      MessageRoundTrip(table, msg[1..], rest);
      assert [s] + msg[1..] == msg;
    }
  }

  // ---------------------------------------------------------------------
  // The whole stream

  /** What huffman_write writes before its flush: the table, the length,
      the code bits and the 0xFF trailer byte. */
  function Compressed(table: seq<Code>, msg: seq<bv8>): seq<bool>
    requires IsTable(table)
  {
    HeaderBits(table) + (LengthBits(|msg|) + (MessageBits(table, msg) + ByteBits(0xFF)))
  }

  /** What huffman_read returns for the stream `bits`: the table read into
      a zeroed table, the length, then that many symbols decoded with the
      tree rebuilt from the table; None when a decoding walk is rejected. */
  function Decompress(bits: seq<bool>): Option<seq<bv8>>
  {
    var table := ParseTable(Zeroed(), bits);
    var length := ParseLength(table.1);
    DecodeMessage(Grow(table.0, 256), length.0, length.1).0
  }

  /** What huffman_write's table must be for its output to decode: no entry
      for symbol 0, codes of at most 255 bits that are prefix-free, and a
      code for every byte of the message. */
  ghost predicate Proper(table: seq<Code>, msg: seq<bv8>)
  {
    && IsTable(table)
    && table[0] == []
    && (forall k :: 0 <= k < 256 ==> |table[k]| <= 255)
    && PrefixFree(table)
    && (forall k :: 0 <= k < |msg| ==> |table[msg[k] as int]| > 0)
  }

  /** Round trip: what is read back from a stream that starts with
      Compressed(table, msg) is msg, whatever follows it. */
  lemma RoundTrip(table: seq<Code>, msg: seq<bv8>, rest: seq<bool>)
    requires Proper(table, msg) && |msg| < 0xFFFF_FFFF
    ensures Decompress(Compressed(table, msg) + rest) == Some(msg)
  {
    var header, length, body := HeaderBits(table), LengthBits(|msg|), MessageBits(table, msg);
    var tail := ByteBits(0xFF) + rest;
    assert CountFrom(table, 0) == CountFrom(table, 1);
    assert MaxLen(table, 256) < Pow2(8);
    BitLengthAtMost(MaxLen(table, 256), 8);
    Regroup(header, length + (body + ByteBits(0xFF)), rest);
    Regroup(length, body + ByteBits(0xFF), rest);
    Regroup(body, ByteBits(0xFF), rest);
    HeaderRoundTrip(table, length + (body + tail));
    LengthRoundTrip(|msg|, body + tail);
    MessageRoundTrip(table, msg, tail);
  }

  /** The message has two different bytes. */
  predicate TwoSymbols(msg: seq<bv8>)
  {
    exists i, j :: 0 <= i < |msg| && 0 <= j < |msg| && msg[i] != msg[j]
  }

  /** No node counts as holding symbol 0. */
  lemma {:induction false} HasNoZero(t: Tree)
    ensures !Has(t, 0)
  {
    if t.Node? {
      HasNoZero(t.left);
      HasNoZero(t.right);
    }
  }

  /** A childless node holds one symbol only. */
  lemma LeafHoldsOne(t: Tree, a: bv8, b: bv8)
    requires IsLeaf(t) && Has(t, a) && Has(t, b)
    ensures a == b
  {
  }

  /** The table huffman_table_from_tree derives from a full tree of depth at
      most 255 that is more than a leaf is proper for every message whose
      bytes the tree holds. */
  lemma TreeTableProper(root: Tree, msg: seq<bv8>)
    requires Full(root) && Depth(root) <= 255 && !IsLeaf(root)
    requires forall k :: 0 <= k < |msg| ==> Has(root, msg[k])
    ensures Proper(TableOf(root, Zeroed(), []), msg)
  {
    var table := TableOf(root, Zeroed(), []);
    forall i | 0 <= i < 256
      ensures |table[i]| <= 255
      ensures |table[i]| > 0 ==> LeafWith(root, table[i], ToByte(i))
    {
      TableOfFull(root, Zeroed(), [], ToByte(i));
      assert table[i][0..] == table[i];
    }
    HasNoZero(root);
    TableOfFull(root, Zeroed(), [], 0);
    LeafRoutesPrefixFree(root, table);
    forall k | 0 <= k < |msg|
      ensures |table[msg[k] as int]| > 0
    {
      TableOfFull(root, Zeroed(), [], msg[k]);
      assert At(root, []) == root;
      assert table[msg[k] as int][0..] == table[msg[k] as int];
    }
  }

  // ---------------------------------------------------------------------
  // A message of a single byte value

  /** With no entry present, huffmantree_from_table leaves the blank root alone. */
  lemma {:induction false} GrowZeroed(n: nat)
    requires n <= 256
    ensures Grow(Zeroed(), n) == Blank
  {
    if n > 0 {
      GrowZeroed(n - 1);
    }
  }

  /** With no entry present, write_encoded_message writes no code bits. */
  lemma {:induction false} NoCodeBits(msg: seq<bv8>)
    ensures MessageBits(Zeroed(), msg) == []
    decreases |msg|
  {
    if msg != [] {
      NoCodeBits(msg[1..]);
    }
  }

  /** A message of one byte value s, repeated, is not read back. The tree
      huffman_write builds for it is a single leaf; huffman_table_from_tree
      gives that leaf the empty code, which counts as no entry, so the table
      written is empty. huffman_read then rebuilds the blank root, whose
      walk reads one bit and reaches a null child. */
  lemma SingleSymbolLost(s: bv8, f: int, msg: seq<bv8>, rest: seq<bool>)
    requires s != 0 && 0 < |msg| < 0xFFFF_FFFF
    requires forall k :: 0 <= k < |msg| ==> msg[k] == s
    ensures TableOf(Node(s, Nil, Nil, f), Zeroed(), []) == Zeroed()
    ensures Decompress(Compressed(Zeroed(), msg) + rest) == None
  {
    LeafTableEmpty(s, f);
    var header, length := HeaderBits(Zeroed()), LengthBits(|msg|);
    var tail := ByteBits(0xFF) + rest;
    EmptyCompressed(msg);
    Regroup(header, length + ByteBits(0xFF), rest);
    Regroup(length, ByteBits(0xFF), rest);
    EmptyHeaderRead(length + tail);
    LengthRoundTrip(|msg|, tail);
    GrowZeroed(256);
    DecodeBlank(|msg|, tail);
  }

  /** huffman_table_from_tree on a single leaf stores the empty code. */
  lemma LeafTableEmpty(s: bv8, f: int)
    ensures TableOf(Node(s, Nil, Nil, f), Zeroed(), []) == Zeroed()
  {
    var z := Zeroed();
    if s != 0 {
      assert TableOf(Node(s, Nil, Nil, f), z, []) == z[s as int := []];
      assert z[s as int := []] == z;
    }
  }

  /** With the empty table, huffman_write writes the header, the length and
      the trailer byte only. */
  lemma EmptyCompressed(msg: seq<bv8>)
    ensures Compressed(Zeroed(), msg) == HeaderBits(Zeroed()) + (LengthBits(|msg|) + ByteBits(0xFF))
  {
    NoCodeBits(msg);
    assert [] + ByteBits(0xFF) == ByteBits(0xFF);
  }

  /** The header of the empty table is read back as the empty table. */
  lemma EmptyHeaderRead(rest: seq<bool>)
    ensures ParseTable(Zeroed(), HeaderBits(Zeroed()) + rest) == (Zeroed(), rest)
  {
    var z := Zeroed();
    assert CountFrom(z, 0) == CountFrom(z, 1);
    assert MaxLen(z, 256) < Pow2(8);
    BitLengthAtMost(MaxLen(z, 256), 8);
    HeaderRoundTrip(z, rest);
  }

  /** The blank root alone rejects the first walk, whatever the bits. */
  lemma DecodeBlank(n: nat, bits: seq<bool>)
    requires n > 0
    ensures DecodeMessage(Blank, n, bits).0 == None
  {
    assert DecodeSymbol(Blank, bits).0 == None;
  }

  // ---------------------------------------------------------------------
  // A message holding the byte 0

  /** No message huffman_read decodes holds the byte 0. */
  lemma {:induction false} DecodedHasNoZero(t: Tree, n: nat, bits: seq<bool>)
    ensures var r := DecodeMessage(t, n, bits).0;
      r.Some? ==> forall k :: 0 <= k < |r.value| ==> r.value[k] != 0
    decreases n
  {
    if n > 0 {
      var first := DecodeSymbol(t, bits);
      DecodeNeverZero(t, bits);
      if first.0.Some? {
        var later := DecodeMessage(t, n - 1, first.1);
        DecodedHasNoZero(t, n - 1, first.1);
        if later.0.Some? {
          var v := [first.0.value] + later.0.value;
          assert DecodeMessage(t, n, bits).0 == Some(v);
          forall k | 0 <= k < |v|
            ensures v[k] != 0
          {
            if k > 0 {
              assert v[k] == later.0.value[k - 1];
            }
          }
        }
      }
    }
  }

  /** A message holding the byte 0 is never read back, whatever the stream:
      0 marks the inner nodes of the tree, so no walk returns it. */
  lemma ZeroByteLost(msg: seq<bv8>, k: nat, bits: seq<bool>)
    requires k < |msg| && msg[k] == 0
    ensures Decompress(bits) != Some(msg)
  {
    var table := ParseTable(Zeroed(), bits);
    var length := ParseLength(table.1);
    DecodedHasNoZero(Grow(table.0, 256), length.0, length.1);
  }
}
