/** The codec of huffman.h as methods: the writer side drives a bit
    writer, the reader side a bit reader, and each is proved against the
    layout functions of HuffmanFormat (whose round trips are proved there).
    Trees are values; the heap of huffman_write is the HeapQueue class. */
module Huffman {
  import opened Bits
  import opened Optional
  import opened HeapQ
  import opened HuffmanTree
  import opened HuffmanFormat
  import opened BitWriter
  import opened BitReader

  // ---------------------------------------------------------------------
  // Writing

  /** `for (i = 0; i < entry->len; i++) write_bit(entry->code[i])`. */
  method WriteCode(w: Writer, code: Code)
    requires w.Valid()
    modifies w, w.buffer
    ensures w.Valid() && w.Written == old(w.Written) + code
  {
    for i := 0 to |code|
      invariant w.Valid()
      invariant w.Written == old(w.Written) + code[..i]
    {
      var ok := w.WriteBit(code[i]);
      assert code[..i + 1] == code[..i] + [code[i]];
      Regroup(old(w.Written), code[..i], [code[i]]);
    }
    assert code[..|code|] == code;
  }

  /** `for (i = nobfel-1; i < nobfel; i--) write_bit(len & (1 << i))`: the
      loop ends when i wraps around below 0. */
  method WriteLengthBits(w: Writer, length: nat, nobfel: nat)
    requires w.Valid()
    modifies w, w.buffer
    ensures w.Valid() && w.Written == old(w.Written) + Binary(length, nobfel)
  {
    for i := nobfel downto 0
      invariant w.Valid()
      invariant old(w.Written) + Binary(length, nobfel) == w.Written + Binary(length, i)
    {
      ghost var before := w.Written;
      var ok := w.WriteBit(Bit(length, i));
      Regroup(before, [Bit(length, i)], Binary(length, i));
    }
    assert w.Written + [] == w.Written;
  }

  /** The first loop of write_huffman_table: the number of present entries
      and the longest code. */
  method ScanTable(table: seq<Code>) returns (maximumEntryLen: nat, entryCount: nat)
    requires IsTable(table)
    ensures maximumEntryLen == MaxLen(table, 256) && entryCount == CountFrom(table, 0)
  {
    maximumEntryLen, entryCount := 0, 0;
    for i := 0 to 256
      invariant maximumEntryLen == MaxLen(table, i)
      invariant entryCount + CountFrom(table, i) == CountFrom(table, 0)
    {
      if |table[i]| > 0 {
        entryCount := entryCount + 1;
      }
      if |table[i]| > maximumEntryLen {
        maximumEntryLen := |table[i]|;
      }
    }
  }

  /** `while ((1 << nobfel) <= maximum_entry_len) nobfel++`: the bit length
      of the longest code. */
  method LengthBitsFor(maximumEntryLen: nat) returns (nobfel: nat)
    ensures nobfel == BitLength(maximumEntryLen)
  {
    nobfel := 0;
    while Pow2(nobfel) <= maximumEntryLen
      invariant nobfel == 0 || Pow2(nobfel - 1) <= maximumEntryLen
      decreases maximumEntryLen - Pow2(nobfel)
    {
      nobfel := nobfel + 1;
    }
    BitLengthUnique(maximumEntryLen, nobfel);
  }

  /** write_huffman_table: counts the present entries and finds the longest,
      takes nobfel as its bit length, and writes the header. */
  method WriteHuffmanTable(table: seq<Code>, w: Writer)
    requires IsTable(table) && w.Valid()
    modifies w, w.buffer
    ensures w.Valid() && w.Written == old(w.Written) + HeaderBits(table)
  {
    var maximumEntryLen, entryCount := ScanTable(table);
    var nobfel := LengthBitsFor(maximumEntryLen);
    ghost var start := w.Written;
    var ok := w.WriteByte(ToByte(nobfel % 256));
    ok := w.WriteByte(ToByte(entryCount % 256));
    WriteEntries(table, nobfel, w);
    HeaderStart(start, table);
  }

  /** The two header bytes come first. */
  lemma HeaderStart(start: seq<bool>, table: seq<Code>)
    requires IsTable(table)
    ensures var nob := Nobfel(table);
      start + HeaderBits(table)
      == start + ByteBits(ToByte(nob % 256)) + ByteBits(ToByte(CountFrom(table, 0) % 256)) + EntriesFrom(table, nob, 0)
  {
    var nob := Nobfel(table);
    var a, b, c := ByteBits(ToByte(nob % 256)), ByteBits(ToByte(CountFrom(table, 0) % 256)), EntriesFrom(table, nob, 0);
    Regroup(a, b, c);
    Regroup(start, a + b, c);
    Regroup(start, a, b);
  }

  /** The entry loop of write_huffman_table: every present entry, in
      ascending symbol order. */
  method WriteEntries(table: seq<Code>, nobfel: nat, w: Writer)
    requires IsTable(table) && w.Valid()
    modifies w, w.buffer
    ensures w.Valid() && w.Written == old(w.Written) + EntriesFrom(table, nobfel, 0)
  {
    ghost var start, all := w.Written, EntriesFrom(table, nobfel, 0);
    for i := 0 to 256
      invariant w.Valid()
      invariant w.Written + EntriesFrom(table, nobfel, i) == start + all
    {
      if |table[i]| > 0 {
        ghost var before := w.Written;
        WriteEntry(table, nobfel, i, w);
        EntriesStep(before, table, nobfel, i);
        assert w.Written == before + EntryBits(table, nobfel, i);
      } else {
        EntriesSkip(table, nobfel, i);
      }
    }
    assert w.Written + [] == w.Written;
  }

  lemma EntriesSkip(table: seq<Code>, nob: nat, i: nat)
    requires IsTable(table) && i < 256 && |table[i]| == 0
    ensures EntriesFrom(table, nob, i) == EntriesFrom(table, nob, i + 1)
  {
    assert [] + EntriesFrom(table, nob, i + 1) == EntriesFrom(table, nob, i + 1);
  }

  lemma EntriesStep(start: seq<bool>, table: seq<Code>, nob: nat, i: nat)
    requires IsTable(table) && i < 256 && |table[i]| > 0
    ensures start + EntriesFrom(table, nob, i) == start + EntryBits(table, nob, i) + EntriesFrom(table, nob, i + 1)
  {
    Regroup(start, EntryBits(table, nob, i), EntriesFrom(table, nob, i + 1));
  }

  /** One present entry: its symbol byte, its length in nobfel bits, the
      most significant first, and its code. */
  method WriteEntry(table: seq<Code>, nobfel: nat, i: nat, w: Writer)
    requires IsTable(table) && i < 256 && w.Valid()
    modifies w, w.buffer
    ensures w.Valid() && w.Written == old(w.Written) + EntryBits(table, nobfel, i)
  {
    ghost var start := w.Written;
    var ok := w.WriteByte(ToByte(i));
    WriteLengthBits(w, |table[i]|, nobfel);
    WriteCode(w, table[i]);
    EntryWritten(start, table, nobfel, i);
  }

  lemma EntryWritten(start: seq<bool>, table: seq<Code>, nob: nat, i: nat)
    requires IsTable(table) && i < 256
    ensures start + EntryBits(table, nob, i)
         == start + ByteBits(ToByte(i)) + Binary(|table[i]|, nob) + table[i]
  {
    var a, b, c := ByteBits(ToByte(i)), Binary(|table[i]|, nob), table[i];
    Regroup(a, b, c);
    Regroup(start, a + b, c);
    Regroup(start, a, b);
  }

  /** write_encoded_message: the four length bytes, most significant first,
      then the code of every byte of the message. */
  method WriteEncodedMessage(table: seq<Code>, w: Writer, msg: seq<bv8>)
    requires IsTable(table) && w.Valid() && |msg| < 0xFFFF_FFFF
    modifies w, w.buffer
    ensures w.Valid() && w.Written == old(w.Written) + (LengthBits(|msg|) + MessageBits(table, msg))
  {
    var n := |msg|;
    var ok := w.WriteByte(ToByte(n / 0x100_0000 % 0x100));
    ok := w.WriteByte(ToByte(n / 0x1_0000 % 0x100));
    ok := w.WriteByte(ToByte(n / 0x100 % 0x100));
    ok := w.WriteByte(ToByte(n % 0x100));
    LengthWritten(old(w.Written), n, MessageBits(table, msg));
    for i := 0 to |msg|
      invariant w.Valid()
      invariant old(w.Written) + (LengthBits(n) + MessageBits(table, msg)) == w.Written + MessageBits(table, msg[i..])
    {
      ghost var before := w.Written;
      WriteCode(w, table[msg[i] as int]);
      assert msg[i..][1..] == msg[i + 1..];
      Regroup(before, table[msg[i] as int], MessageBits(table, msg[i + 1..]));
    }
    assert w.Written + [] == w.Written;
  }

  lemma LengthWritten(start: seq<bool>, n: nat, body: seq<bool>)
    ensures start + (LengthBits(n) + body)
         == start + ByteBits(ToByte(n / 0x100_0000 % 0x100)) + ByteBits(ToByte(n / 0x1_0000 % 0x100))
            + ByteBits(ToByte(n / 0x100 % 0x100)) + ByteBits(ToByte(n % 0x100)) + body
  {
    LengthBytes(n);
    var a, b, c, d := ByteBits(ToByte(n / 0x100_0000 % 0x100)), ByteBits(ToByte(n / 0x1_0000 % 0x100)),
      ByteBits(ToByte(n / 0x100 % 0x100)), ByteBits(ToByte(n % 0x100));
    Regroup(c, d, body);
    Regroup(b, c + d, body);
    Regroup(a, b + (c + d), body);
    Regroup(start, a, b + (c + (d + body)));
    Regroup(start + a, b, c + (d + body));
    Regroup(start + a + b, c, d + body);
    Regroup(start + a + b + c, d, body);
  }

  // ---------------------------------------------------------------------
  // Reading

  /** n read_bit calls, each into a bit that starts false. */
  method ReadBits(r: Reader, n: nat) returns (bits: seq<bool>)
    requires r.Valid()
    modifies r, r.buffer
    ensures r.Valid() && r.buffer == old(r.buffer)
    ensures (bits, r.Remaining) == TakeBits(n, old(r.Remaining))
  {
    bits := [];
    assert [] + TakeBits(n, r.Remaining).0 == TakeBits(n, r.Remaining).0;
    for i := 0 to n
      invariant r.Valid() && r.buffer == old(r.buffer)
      invariant TakeBits(n, old(r.Remaining)) == (bits + TakeBits(n - i, r.Remaining).0, TakeBits(n - i, r.Remaining).1)
    {
      ghost var rest := TakeBits(n - i - 1, TakeBit(r.Remaining).1);
      var ok, bit := r.ReadBit(false);
      Regroup(bits, [bit], rest.0);
      bits := bits + [bit];
    }
    assert bits + [] == bits;
  }

  /** The length loop of read_huffman_table: nobfel bits, the first one
      the most significant, `length |= bit << (nobfel-1-biti)`. */
  method ReadLength(r: Reader, nobfel: nat) returns (length: nat)
    requires r.Valid()
    modifies r, r.buffer
    ensures r.Valid() && r.buffer == old(r.buffer)
    ensures length == Value(TakeBits(nobfel, old(r.Remaining)).0)
    ensures r.Remaining == TakeBits(nobfel, old(r.Remaining)).1
  {
    ghost var all := TakeBits(nobfel, r.Remaining);
    length := 0;
    for b := 0 to nobfel
      invariant r.Valid() && r.buffer == old(r.buffer)
      invariant TakeBits(nobfel - b, r.Remaining) == (all.0[b..], all.1)
      invariant length + Value(all.0[b..]) == Value(all.0)
    {
      var ok, bit := r.ReadBit(false);
      assert all.0[b..][1..] == all.0[b + 1..];
      if bit {
        length := length + Pow2(nobfel - 1 - b);
      }
    }
  }

  /** One entry of read_huffman_table: its symbol byte, length and code. */
  method ReadEntry(r: Reader, nobfel: nat) returns (symbol: bv8, code: Code)
    requires r.Valid()
    modifies r, r.buffer
    ensures r.Valid() && r.buffer == old(r.buffer)
    ensures (symbol, code, r.Remaining) == ParseEntry(nobfel, old(r.Remaining))
  {
    var ok;
    ok, symbol := r.ReadByte();
    var length := ReadLength(r, nobfel);
    code := ReadBits(r, length);
  }

  /** read_huffman_table: nobfel and the entry count, then each entry is
      read and stored over the table's entry for its symbol. */
  method ReadHuffmanTable(table: array<Code>, r: Reader)
    requires table.Length == 256 && r.Valid()
    modifies table, r, r.buffer
    ensures r.Valid() && r.buffer == old(r.buffer)
    ensures (table[..], r.Remaining) == ParseTable(old(table[..]), old(r.Remaining))
  {
    var ok, nobfel := r.ReadByte();
    var ok2, entryCount := r.ReadByte();
    ReadEntries(table, r, nobfel as int, entryCount as int);
  }

  /** The entry loop of read_huffman_table. */
  method ReadEntries(table: array<Code>, r: Reader, nobfel: nat, entryCount: nat)
    requires table.Length == 256 && r.Valid()
    modifies table, r, r.buffer
    ensures r.Valid() && r.buffer == old(r.buffer)
    ensures (table[..], r.Remaining) == ParseEntries(entryCount, nobfel, old(table[..]), old(r.Remaining))
  {
    ghost var goal := ParseEntries(entryCount, nobfel, table[..], r.Remaining);
    for e := 0 to entryCount
      invariant r.Valid() && r.buffer == old(r.buffer)
      invariant goal == ParseEntries(entryCount - e, nobfel, table[..], r.Remaining)
    {
      ghost var before := table[..];
      var symbol, code := ReadEntry(r, nobfel);
      table[symbol as int] := code;
      assert table[..] == before[symbol as int := code];
    }
  }

  /** read_encoded_message_length: four bytes, `byte << 24 | ... | byte`. */
  method ReadEncodedMessageLength(r: Reader) returns (length: nat)
    requires r.Valid()
    modifies r, r.buffer
    ensures r.Valid() && r.buffer == old(r.buffer)
    ensures (length, r.Remaining) == ParseLength(old(r.Remaining))
  {
    var ok, b0 := r.ReadByte();
    var ok1, b1 := r.ReadByte();
    var ok2, b2 := r.ReadByte();
    var ok3, b3 := r.ReadByte();
    length := b0 as int * 0x100_0000 + b1 as int * 0x1_0000 + b2 as int * 0x100 + b3 as int;
    NumberFour(b0, b1, b2, b3);
  }

  /** read_encoded_message_byte: a node with a symbol other than 0 is the
      answer; otherwise one bit picks the child (1 left, 0 right). None
      where the walk reaches a null node, which assert(root) rejects. */
  method ReadEncodedMessageByte(root: Tree, r: Reader) returns (s: Option<bv8>)
    requires r.Valid()
    modifies r, r.buffer
    ensures r.Valid() && r.buffer == old(r.buffer)
    ensures s == DecodeSymbol(root, old(r.Remaining)).0 && r.Remaining == DecodeSymbol(root, old(r.Remaining)).1
    decreases root
  {
    if root == Nil {
      return None;
    }
    if root.symbol != 0 {
      return Some(root.symbol);
    }
    var ok, bit := r.ReadBit(false);
    if bit {
      s := ReadEncodedMessageByte(root.left, r);
    } else {
      s := ReadEncodedMessageByte(root.right, r);
    }
  }

  // ---------------------------------------------------------------------
  // Tree and table

  /** huffmantree_from_table: starting from a blank root, every present
      entry's code is walked from the root, creating blank nodes where a
      child is missing, and the node at its end gets the entry's symbol. */
  method TreeFromTable(table: seq<Code>) returns (root: Tree)
    requires IsTable(table)
    ensures root == Grow(table, 256)
  {
    root := Blank;
    for i := 0 to 256
      invariant root == Grow(table, i)
    {
      if |table[i]| > 0 {
        root := Insert(root, table[i], ToByte(i));
      }
    }
  }

  /** huffman_table_from_tree: the left subtree with bit 1 appended to the
      current code, the right one with bit 0, then the node's own entry
      when its symbol is not 0. The code buffer holds 256 bits. */
  method TableFromTree(root: Tree, table: array<Code>, code: array<bool>, entryLen: nat)
    requires table.Length == 256 && code.Length == 256 && entryLen + Depth(root) <= 256
    modifies table, code
    ensures table[..] == TableOf(root, old(table[..]), old(code[..entryLen]))
    ensures code[..entryLen] == old(code[..entryLen])
    decreases root, 0
  {
    if root == Nil {
      return;
    }
    ghost var path, start := code[..entryLen], table[..];
    ghost var afterLeft := if root.left != Nil then TableOf(root.left, start, path + [true]) else start;
    if root.left != Nil {
      VisitChild(root.left, table, code, entryLen, true);
    }
    ghost var afterRight := if root.right != Nil then TableOf(root.right, afterLeft, path + [false]) else afterLeft;
    if root.right != Nil {
      VisitChild(root.right, table, code, entryLen, false);
    }
    if root.symbol != 0 {
      table[root.symbol as int] := code[..entryLen];
    }
  }

  /** One recursive call of huffman_table_from_tree: `bit` is stored at
      code[entryLen] and the child's entries are filled in below it. */
  method VisitChild(child: Tree, table: array<Code>, code: array<bool>, entryLen: nat, bit: bool)
    requires table.Length == 256 && code.Length == 256 && entryLen + 1 + Depth(child) <= 256
    modifies table, code
    ensures table[..] == TableOf(child, old(table[..]), old(code[..entryLen]) + [bit])
    ensures code[..entryLen] == old(code[..entryLen])
    decreases child, 1
  {
    ghost var path := code[..entryLen];
    code[entryLen] := bit;
    assert code[..entryLen + 1] == path + [bit];
    TableFromTree(child, table, code, entryLen + 1);
    assert code[..entryLen] == code[..entryLen + 1][..entryLen];
  }

  // ---------------------------------------------------------------------
  // huffman_write and huffman_read

  /** How many times b occurs in msg, counted from the front as the
      counting loop of huffman_write does. */
  function Occurrences(msg: seq<bv8>, b: bv8): (n: nat)
    ensures n <= |msg|
    ensures n > 0 <==> b in msg
  {
    if msg == [] then 0
    else
      assert msg == msg[..|msg| - 1] + [msg[|msg| - 1]];
      Occurrences(msg[..|msg| - 1], b) + if msg[|msg| - 1] == b then 1 else 0
  }

  /** The counting loop of huffman_write: one count per byte value. */
  method CountFrequencies(msg: seq<bv8>) returns (freq: seq<int>)
    ensures |freq| == 256
    ensures forall i :: 0 <= i < 256 ==> freq[i] == Occurrences(msg, ToByte(i))
  {
    var frequencies := new int[256](k => 0);
    for k := 0 to |msg|
      invariant forall i :: 0 <= i < 256 ==> frequencies[i] == Occurrences(msg[..k], ToByte(i))
    {
      frequencies[msg[k] as int] := frequencies[msg[k] as int] + 1;
      assert msg[..k + 1][..k] == msg[..k];
      ToByteOf(msg[k]);
    }
    assert msg[..|msg|] == msg;
    freq := frequencies[..];
  }

  /** Every tree in the heap is a node; with no count for 0 every one is
      full; none is deeper than `depth`; and each holds counted symbols only. */
  ghost predicate Forest(m: multiset<Tree>, freq: seq<int>, depth: int)
    requires |freq| == 256
  {
    forall x :: x in m ==> x.Node? && Depth(x) <= depth && (freq[0] == 0 ==> Full(x)) && Counted(x, freq)
  }

  /** Every symbol the tree holds has a count that is not 0. */
  ghost predicate Counted(t: Tree, freq: seq<int>)
    requires |freq| == 256
  {
    forall i :: 0 <= i < 256 && Has(t, ToByte(i)) ==> freq[i] != 0
  }

  /** Every symbol other than 0 whose count is not 0, among the first n,
      is held by some tree in the heap. */
  ghost predicate Covers(m: multiset<Tree>, freq: seq<int>, n: nat)
    requires |freq| == 256 && n <= 256
  {
    forall i :: 0 < i < n && freq[i] != 0 ==> exists x :: x in m && Has(x, ToByte(i))
  }

  function Leaf(freq: seq<int>, i: nat): Tree
    requires |freq| == 256 && i < 256
  {
    Node(ToByte(i), Nil, Nil, freq[i])
  }

  /** The leaves the first heap loop pushes for the symbols below n. */
  function Leaves(freq: seq<int>, n: nat): multiset<Tree>
    requires |freq| == 256 && n <= 256
  {
    if n == 0 then multiset{}
    else Leaves(freq, n - 1) + if freq[n - 1] != 0 then multiset{Leaf(freq, n - 1)} else multiset{}
  }

  /** Leaves holds, once each, the leaf of every symbol below n whose count
      is not 0, carrying that count, and nothing else. */
  lemma {:induction false} LeavesExactly(freq: seq<int>, n: nat)
    requires |freq| == 256 && n <= 256
    ensures forall i :: 0 <= i < 256 ==>
      Leaves(freq, n)[Leaf(freq, i)] == if i < n && freq[i] != 0 then 1 else 0
    ensures forall x :: x in Leaves(freq, n) ==>
      x.Node? && x == Leaf(freq, x.symbol as int) && x.symbol as int < n && freq[x.symbol as int] != 0
  {
    if n > 0 {
      LeavesExactly(freq, n - 1);
      forall i | 0 <= i < 256 && i != n - 1
        ensures Leaf(freq, i) != Leaf(freq, n - 1)
      {
        assert Leaf(freq, i).symbol as int == i;
      }
    }
  }

  /** Pushing the leaf for symbol i extends the forest and the coverage. */
  lemma PushLeaf(m: multiset<Tree>, freq: seq<int>, i: nat)
    requires |freq| == 256 && i < 256 && freq[i] != 0
    requires Forest(m, freq, 0) && Covers(m, freq, i)
    ensures Forest(m + multiset{Leaf(freq, i)}, freq, 0)
    ensures Covers(m + multiset{Leaf(freq, i)}, freq, i + 1)
  {
    var leaf := Leaf(freq, i);
    var m' := m + multiset{leaf};
    forall j | 0 <= j < 256 && Has(leaf, ToByte(j))
      ensures freq[j] != 0
    {
      assert !Has(leaf.left, ToByte(j)) && !Has(leaf.right, ToByte(j));
      assert ToByte(j) as int == leaf.symbol as int == i;
    }
    forall j | 0 < j < i + 1 && freq[j] != 0
      ensures exists x :: x in m' && Has(x, ToByte(j))
    {
      if j == i {
        assert leaf in m' && Has(leaf, ToByte(j));
      } else {
        var x :| x in m && Has(x, ToByte(j));
        assert x in m';
      }
    }
  }

  /** Skipping a symbol whose count is 0 keeps the coverage. */
  lemma SkipLeaf(m: multiset<Tree>, freq: seq<int>, i: nat)
    requires |freq| == 256 && i < 256 && freq[i] == 0
    requires Covers(m, freq, i)
    ensures Covers(m, freq, i + 1)
  {
    forall j | 0 < j < i + 1 && freq[j] != 0
      ensures exists x :: x in m && Has(x, ToByte(j))
    {
    }
  }

  /** Replacing the two popped trees by their merge keeps the forest one
      level deeper and the coverage. */
  lemma Merge(m0: multiset<Tree>, m1: multiset<Tree>, m2: multiset<Tree>, a: Tree, b: Tree, freq: seq<int>, depth: int)
    requires |freq| == 256
    requires m1 + multiset{a} == m0 && m2 + multiset{b} == m1
    requires Forest(m0, freq, depth) && Covers(m0, freq, 256)
    ensures Forest(m2 + multiset{Node(0, a, b, Freq(a) + Freq(b))}, freq, depth + 1)
    ensures Covers(m2 + multiset{Node(0, a, b, Freq(a) + Freq(b))}, freq, 256)
  {
    var merged := Node(0, a, b, Freq(a) + Freq(b));
    var m3 := m2 + multiset{merged};
    assert a in m0 && b in m0;
    forall x | x in m3
      ensures x.Node? && Depth(x) <= depth + 1 && (freq[0] == 0 ==> Full(x)) && Counted(x, freq)
    {
      if x != merged {
        assert x in m0;
      } else {
        forall i | 0 <= i < 256 && Has(merged, ToByte(i))
          ensures freq[i] != 0
        {
          assert Has(a, ToByte(i)) || Has(b, ToByte(i));
        }
      }
    }
    forall j | 0 < j < 256 && freq[j] != 0
      ensures exists x :: x in m3 && Has(x, ToByte(j))
    {
      var y :| y in m0 && Has(y, ToByte(j));
      if y == a || y == b {
        assert merged in m3 && Has(merged, ToByte(j));
      } else {
        assert y in m3;
      }
    }
  }

  /** The first heap loop of huffman_write: a leaf per symbol whose count
      is not 0, pushed in ascending symbol order. */
  method PushLeaves(freq: seq<int>) returns (heapq: HeapQueue<Tree>)
    requires |freq| == 256
    ensures fresh(heapq) && fresh(heapq.data)
    ensures heapq.Valid() && heapq.key == Freq && heapq.len <= 256
    ensures heapq.len == 0 <==> forall i :: 0 <= i < 256 ==> freq[i] == 0
    ensures heapq.Contents() == Leaves(freq, 256)
    ensures Forest(heapq.Contents(), freq, 0) && Covers(heapq.Contents(), freq, 256)
  {
    heapq := new HeapQueue<Tree>.Empty(Freq);
    for i := 0 to 256
      invariant fresh(heapq) && fresh(heapq.data)
      invariant heapq.Valid() && heapq.key == Freq && heapq.len <= i
      invariant heapq.Contents() == Leaves(freq, i)
    {
      if freq[i] != 0 {
        PushTree(heapq, Leaf(freq, i));
      }
    }
    assert |heapq.Contents()| == heapq.len;
    LeavesNone(freq, 256);
    LeavesForest(freq, 256);
  }

  /** There are no leaves exactly when no symbol below n is counted. */
  lemma {:induction false} LeavesNone(freq: seq<int>, n: nat)
    requires |freq| == 256 && n <= 256
    ensures |Leaves(freq, n)| == 0 <==> forall j :: 0 <= j < n ==> freq[j] == 0
  {
    if n > 0 {
      LeavesNone(freq, n - 1);
    }
  }

  /** The leaves form a forest of depth 0 that covers every counted symbol
      below n. */
  lemma {:induction false} LeavesForest(freq: seq<int>, n: nat)
    requires |freq| == 256 && n <= 256
    ensures Forest(Leaves(freq, n), freq, 0) && Covers(Leaves(freq, n), freq, n)
  {
    if n > 0 {
      LeavesForest(freq, n - 1);
      if freq[n - 1] != 0 {
        PushLeaf(Leaves(freq, n - 1), freq, n - 1);
      } else {
        SkipLeaf(Leaves(freq, n - 1), freq, n - 1);
      }
    }
  }

  /** The second heap loop of huffman_write: while more than one tree is
      left, the two smallest are popped and their merge (symbol 0, counts
      added) is pushed. Each round adds at most one level. */
  method MergeAll(heapq: HeapQueue<Tree>, freq: seq<int>)
    requires |freq| == 256
    requires heapq.Valid() && heapq.key == Freq && heapq.len <= 256
    requires Forest(heapq.Contents(), freq, 0) && Covers(heapq.Contents(), freq, 256)
    modifies heapq, heapq.data
    ensures heapq.Valid() && heapq.key == Freq
    ensures heapq.data == old(heapq.data) || fresh(heapq.data)
    ensures heapq.len == if old(heapq.len) == 0 then 0 else 1
    ensures old(heapq.len) <= 1 ==> heapq.Contents() == old(heapq.Contents())
    ensures Forest(heapq.Contents(), freq, 255) && Covers(heapq.Contents(), freq, 256)
  {
    ghost var leaves := heapq.len;
    while heapq.len > 1
      invariant heapq.Valid() && heapq.key == Freq
      invariant fresh(heapq.data) || heapq.data == old(heapq.data)
      invariant heapq.len <= leaves <= 256 && (heapq.len == 0 <==> leaves == 0)
      invariant leaves <= 1 ==> heapq.Contents() == old(heapq.Contents())
      invariant Forest(heapq.Contents(), freq, leaves - heapq.len) && Covers(heapq.Contents(), freq, 256)
      decreases heapq.len
    {
      var _, _ := MergeTwo(heapq, freq, leaves - heapq.len);
    }
    Deeper(heapq.Contents(), freq, leaves - heapq.len, 255);
  }

  /** One round of the second heap loop: node1 is a tree of least count,
      node2 one of least count among the rest, and both are replaced by
      their merge. */
  method MergeTwo(heapq: HeapQueue<Tree>, freq: seq<int>, ghost depth: int) returns (node1: Tree, node2: Tree)
    requires |freq| == 256
    requires heapq.Valid() && heapq.key == Freq && heapq.len > 1
    requires Forest(heapq.Contents(), freq, depth) && Covers(heapq.Contents(), freq, 256)
    modifies heapq, heapq.data
    ensures heapq.Valid() && heapq.key == Freq && heapq.len == old(heapq.len) - 1
    ensures heapq.data == old(heapq.data) || fresh(heapq.data)
    ensures heapq.Contents() + multiset{node1, node2}
         == old(heapq.Contents()) + multiset{Node(0, node1, node2, Freq(node1) + Freq(node2))}
    ensures forall x :: x in old(heapq.Contents()) ==> Freq(node1) <= Freq(x)
    ensures forall x :: x in old(heapq.Contents()) - multiset{node1} ==> Freq(node2) <= Freq(x)
    ensures Forest(heapq.Contents(), freq, depth + 1) && Covers(heapq.Contents(), freq, 256)
  {
    ghost var m0 := heapq.Contents();
    node1 := PopTree(heapq);
    ghost var m1 := heapq.Contents();
    node2 := PopTree(heapq);
    ghost var m2 := heapq.Contents();
    var newNode := Node(0, node1, node2, Freq(node1) + Freq(node2));
    Merge(m0, m1, m2, node1, node2, freq, depth);
    PushTree(heapq, newNode);
    MergeCounts(m0, m1, m2, node1, node2, newNode);
  }

  /** The multiset bookkeeping of one round: two trees out, their merge in. */
  lemma MergeCounts(m0: multiset<Tree>, m1: multiset<Tree>, m2: multiset<Tree>, a: Tree, b: Tree, merged: Tree)
    requires m1 + multiset{a} == m0 && m2 + multiset{b} == m1
    ensures m1 == m0 - multiset{a}
    ensures m2 + multiset{merged} + multiset{a, b} == m0 + multiset{merged}
  {
  }

  /** hq_push, seen through the queue's contents. */
  method PushTree(heapq: HeapQueue<Tree>, t: Tree)
    requires heapq.Valid()
    modifies heapq, heapq.data
    ensures heapq.Valid() && (heapq.data == old(heapq.data) || fresh(heapq.data))
    ensures heapq.len == old(heapq.len) + 1
    ensures heapq.Contents() == old(heapq.Contents()) + multiset{t}
  {
    heapq.Push(t);
  }

  /** hq_pop on a queue known not to be empty, seen through its contents. */
  method PopTree(heapq: HeapQueue<Tree>) returns (t: Tree)
    requires heapq.Valid() && heapq.len > 0
    modifies heapq, heapq.data
    ensures heapq.Valid() && heapq.data == old(heapq.data)
    ensures heapq.len == old(heapq.len) - 1
    ensures heapq.Contents() + multiset{t} == old(heapq.Contents())
    ensures forall x :: x in old(heapq.Contents()) ==> heapq.key(t) <= heapq.key(x)
  {
    ghost var m0 := heapq.Contents();
    var r := heapq.Pop();
    t := r.value;
    LeastOf(m0, heapq.data[..heapq.len], heapq.key, t);
  }

  /** A tree no heavier than any of s is no heavier than any of s and itself. */
  lemma LeastOf(m: multiset<Tree>, s: seq<Tree>, key: Tree -> int, t: Tree)
    requires m == multiset(s) + multiset{t}
    requires forall k :: 0 <= k < |s| ==> key(t) <= key(s[k])
    ensures forall x :: x in m ==> key(t) <= key(x)
  {
    forall x | x in m
      ensures key(t) <= key(x)
    {
      if x != t {
        assert x in s;
      }
    }
  }

  lemma Deeper(m: multiset<Tree>, freq: seq<int>, depth: int, depth': int)
    requires |freq| == 256 && depth <= depth' && Forest(m, freq, depth)
    ensures Forest(m, freq, depth')
  {
  }

  /** The heap part of huffman_write: the leaves are pushed, merged down to
      one tree, and that tree is popped as the root (Nil for an empty heap). */
  method BuildTree(freq: seq<int>) returns (root: Tree)
    requires |freq| == 256
    ensures root == Nil <==> forall i :: 0 <= i < 256 ==> freq[i] == 0
    ensures Depth(root) <= 255
    ensures freq[0] == 0 && root != Nil ==> Full(root)
    ensures forall i :: 0 < i < 256 && freq[i] != 0 ==> Has(root, ToByte(i))
    ensures forall i :: 0 <= i < 256 && Has(root, ToByte(i)) ==> freq[i] != 0
    ensures forall i :: 0 <= i < 256 && OnlyCounted(freq, i) ==> root == Leaf(freq, i)
  {
    var heapq := PushLeaves(freq);
    ghost var m0, len0 := heapq.Contents(), heapq.len;
    assert |m0| == len0;
    MergeAll(heapq, freq);
    ghost var m := heapq.Contents();
    var last := heapq.Pop();
    root := if last.Some? then last.value else Nil;
    if last.Some? {
      OnlyTree(m, heapq.Contents(), root, freq);
      forall i | 0 <= i < 256 && OnlyCounted(freq, i)
        ensures root == Leaf(freq, i)
      {
        SingleLeaf(freq, i);
        assert root in m;
      }
    }
  }

  /** Exactly one symbol, i, is counted. */
  predicate OnlyCounted(freq: seq<int>, i: int)
    requires |freq| == 256
  {
    0 <= i < 256 && freq[i] != 0 && forall j :: 0 <= j < 256 && j != i ==> freq[j] == 0
  }

  /** With one counted symbol the first heap loop pushes its leaf alone. */
  lemma SingleLeaf(freq: seq<int>, i: int)
    requires |freq| == 256 && OnlyCounted(freq, i)
    ensures Leaves(freq, 256) == multiset{Leaf(freq, i)}
  {
    LeavesExactly(freq, 256);
    forall x
      ensures Leaves(freq, 256)[x] == multiset{Leaf(freq, i)}[x]
    {
      if x in Leaves(freq, 256) {
        assert x.symbol as int == i;
      }
    }
  }

  /** The one tree left holds every counted symbol. */
  lemma OnlyTree(m: multiset<Tree>, rest: multiset<Tree>, root: Tree, freq: seq<int>)
    requires |freq| == 256 && |m| == 1 && rest + multiset{root} == m
    requires Forest(m, freq, 255) && Covers(m, freq, 256)
    ensures root.Node? && Depth(root) <= 255 && (freq[0] == 0 ==> Full(root))
    ensures forall i :: 0 < i < 256 && freq[i] != 0 ==> Has(root, ToByte(i))
    ensures Counted(root, freq)
  {
    assert rest == multiset{};
    assert m == multiset{root};
    forall i | 0 < i < 256 && freq[i] != 0
      ensures Has(root, ToByte(i))
    {
      var x :| x in m && Has(x, ToByte(i));
    }
  }

  /** huffman_write: counts, builds the tree, derives the table, writes the
      table, the message and the 0xFF trailer, and flushes; it always
      reports success. `table` is the table it wrote, `pad` the zero bits
      of the flush. When the message has two different bytes and no 0 byte
      the table is proper, so the output decodes (HuffmanFormat.RoundTrip). */
  method HuffmanWrite(w: Writer, msg: seq<bv8>) returns (ok: bool, ghost table: seq<Code>, ghost pad: nat)
    requires w.Valid() && |msg| < 0xFFFF_FFFF
    modifies w, w.buffer
    ensures ok && w.Valid() && w.cursor == 0
    ensures w.sink == Truncate(Pack(w.Written), w.limit) && |w.Written| % 8 == 0
    ensures IsTable(table) && pad < 8
    ensures w.Written == old(w.Written) + Compressed(table, msg) + Zeros(pad)
    ensures table[0] == [] && forall i :: 0 <= i < 256 && table[i] != [] ==> ToByte(i) in msg
    ensures msg == [] ==> table == Zeroed()
    ensures OneSymbol(msg) ==> table == Zeroed()
    ensures (forall k :: 0 <= k < |msg| ==> msg[k] != 0) && TwoSymbols(msg) ==> Proper(table, msg)
  {
    var freq := CountFrequencies(msg);
    var root := BuildTree(freq);
    var codes := DeriveTable(root);
    table := codes;
    pad := WriteStream(w, codes, msg);
    ok := true;
    WrittenTableCounted(msg, freq, root);
    if OneSymbol(msg) {
      SingleByteTable(msg, freq, root);
    }
    if (forall k :: 0 <= k < |msg| ==> msg[k] != 0) && TwoSymbols(msg) {
      WrittenTableProper(msg, freq, root);
    }
  }

  /** The table step of huffman_write: a zeroed table filled in by
      huffman_table_from_tree from the root with an empty path. */
  method DeriveTable(root: Tree) returns (codes: seq<Code>)
    requires Depth(root) <= 256
    ensures codes == TableOf(root, Zeroed(), [])
  {
    var huffmanTable := new Code[256](k => []);
    var code := new bool[256];
    assert huffmanTable[..] == Zeroed() && code[..0] == [];
    TableFromTree(root, huffmanTable, code, 0);
    codes := huffmanTable[..];
  }

  /** The writing steps of huffman_write: the table, the length and the
      codes, the 0xFF trailer and the flush. */
  method WriteStream(w: Writer, table: seq<Code>, msg: seq<bv8>) returns (ghost pad: nat)
    requires w.Valid() && IsTable(table) && |msg| < 0xFFFF_FFFF
    modifies w, w.buffer
    ensures w.Valid() && w.cursor == 0
    ensures w.sink == Truncate(Pack(w.Written), w.limit) && |w.Written| % 8 == 0
    ensures pad < 8 && w.Written == old(w.Written) + Compressed(table, msg) + Zeros(pad)
  {
    ghost var start := w.Written;
    WriteHuffmanTable(table, w);
    WriteEncodedMessage(table, w, msg);
    var ok := w.WriteByte(0xFF);
    pad := if w.cursor == 0 then 0 else 8 - w.cursor;
    ok := w.Flush();
    StreamWritten(start, table, msg, pad);
  }

  lemma StreamWritten(start: seq<bool>, table: seq<Code>, msg: seq<bv8>, pad: nat)
    requires IsTable(table)
    ensures start + HeaderBits(table) + (LengthBits(|msg|) + MessageBits(table, msg)) + ByteBits(0xFF) + Zeros(pad)
         == start + Compressed(table, msg) + Zeros(pad)
  {
    var h, l, m, f := HeaderBits(table), LengthBits(|msg|), MessageBits(table, msg), ByteBits(0xFF);
    Regroup(l, m, f);
    Regroup(h, l + m, f);
    Regroup(start, h, l + m);
    Regroup(start + h, l + m, f);
    Regroup(start, h + (l + m), f);
    Regroup(h, l, m + f);
    assert h + (l + (m + f)) == h + ((l + m) + f);
  }

  /** The table huffman_write derives has no code for 0 and codes only the
      bytes of the message; for the empty message it stays all zero. */
  lemma WrittenTableCounted(msg: seq<bv8>, freq: seq<int>, root: Tree)
    requires |freq| == 256 && forall i :: 0 <= i < 256 ==> freq[i] == Occurrences(msg, ToByte(i))
    requires forall i :: 0 <= i < 256 && Has(root, ToByte(i)) ==> freq[i] != 0
    ensures var table := TableOf(root, Zeroed(), []);
      table[0] == [] && forall i :: 0 <= i < 256 && table[i] != [] ==> ToByte(i) in msg
    ensures msg == [] ==> TableOf(root, Zeroed(), []) == Zeroed()
  {
    var table := TableOf(root, Zeroed(), []);
    TableOfElsewhere(root, Zeroed(), [], 0);
    forall i | 0 <= i < 256 && ToByte(i) !in msg
      ensures table[i] == []
    {
      TableOfElsewhere(root, Zeroed(), [], ToByte(i));
    }
    if msg == [] {
      assert forall i :: 0 <= i < 256 ==> table[i] == [];
    }
  }

  /** The message is one byte value, repeated at least once. */
  predicate OneSymbol(msg: seq<bv8>)
  {
    msg != [] && forall k :: 0 <= k < |msg| ==> msg[k] == msg[0]
  }

  /** For a message of one repeated byte the counts single out that byte,
      the tree is its lone leaf, and the derived table stays all empty. */
  lemma SingleByteTable(msg: seq<bv8>, freq: seq<int>, root: Tree)
    requires |freq| == 256 && forall i :: 0 <= i < 256 ==> freq[i] == Occurrences(msg, ToByte(i))
    requires forall i :: 0 <= i < 256 && OnlyCounted(freq, i) ==> root == Leaf(freq, i)
    requires OneSymbol(msg)
    ensures TableOf(root, Zeroed(), []) == Zeroed()
  {
    var s := msg[0];
    ToByteOf(s);
    assert Occurrences(msg, s) > 0;
    forall j | 0 <= j < 256 && j != s as int
      ensures freq[j] == 0
    {
      assert ToByte(j) != s;
      assert ToByte(j) !in msg;
    }
    assert OnlyCounted(freq, s as int);
    LeafTableEmpty(s, freq[s as int]);
  }

  /** The counts and tree huffman_write builds for a message of two
      different bytes and no 0 byte give a proper table. */
  lemma WrittenTableProper(msg: seq<bv8>, freq: seq<int>, root: Tree)
    requires |freq| == 256 && forall i :: 0 <= i < 256 ==> freq[i] == Occurrences(msg, ToByte(i))
    requires (forall k :: 0 <= k < |msg| ==> msg[k] != 0) && TwoSymbols(msg)
    requires root == Nil <==> forall i :: 0 <= i < 256 ==> freq[i] == 0
    requires Depth(root) <= 255
    requires freq[0] == 0 && root != Nil ==> Full(root)
    requires forall i :: 0 < i < 256 && freq[i] != 0 ==> Has(root, ToByte(i))
    ensures Proper(TableOf(root, Zeroed(), []), msg)
  {
    var i, j :| 0 <= i < |msg| && 0 <= j < |msg| && msg[i] != msg[j];
    assert ToByte(0) == 0 && 0 !in msg;
    assert freq[0] == 0;
    forall k | 0 <= k < |msg|
      ensures Has(root, msg[k])
    {
      var n := msg[k] as int;
      ToByteOf(msg[k]);
      assert msg[k] in msg;
      assert Has(root, ToByte(n));
    }
    assert Has(root, msg[i]) && Has(root, msg[j]);
    if IsLeaf(root) {
      LeafHoldsOne(root, msg[i], msg[j]);
    }
    TreeTableProper(root, msg);
  }

  /** huffman_read: the table is read into a zeroed table, then the length,
      the tree is rebuilt, and that many symbols are decoded into the
      buffer. None when a decoding walk reaches a null node. */
  method HuffmanRead(r: Reader) returns (msg: Option<seq<bv8>>)
    requires r.Valid()
    modifies r, r.buffer
    ensures r.Valid()
    ensures msg == Decompress(old(r.Remaining))
  {
    var readTable := new Code[256](k => []);
    assert readTable[..] == Zeroed();
    ReadHuffmanTable(readTable, r);
    var length := ReadEncodedMessageLength(r);
    var rroot := TreeFromTable(readTable[..]);
    msg := ReadMessage(rroot, length, r);
  }

  /** The decoding loop of huffman_read: length symbols into a buffer of
      that many bytes. */
  method ReadMessage(root: Tree, length: nat, r: Reader) returns (msg: Option<seq<bv8>>)
    requires r.Valid()
    modifies r, r.buffer
    ensures r.Valid() && r.buffer == old(r.buffer)
    ensures msg == DecodeMessage(root, length, old(r.Remaining)).0
  {
    var buffer := new bv8[length];
    ghost var goal := DecodeMessage(root, length, r.Remaining);
    PrependNothing(goal);
    assert buffer[..0] == [];
    for i := 0 to length
      invariant r.Valid() && r.buffer == old(r.buffer)
      invariant goal == Prepend(buffer[..i], DecodeMessage(root, length - i, r.Remaining))
    {
      ghost var got, before := buffer[..i], r.Remaining;
      var s := ReadEncodedMessageByte(root, r);
      if s.None? {
        assert DecodeMessage(root, length - i, before).0 == None;
        return None;
      }
      assert DecodeMessage(root, length - i, before) == Prepend([s.value], DecodeMessage(root, length - i - 1, r.Remaining));
      PrependTwice(got, [s.value], DecodeMessage(root, length - i - 1, r.Remaining));
      buffer[i] := s.value;
      assert buffer[..i + 1] == got + [s.value];
    }
    assert buffer[..length] + [] == buffer[..];
    msg := Some(buffer[..]);
  }

  /** huffman_write into a sink, then huffman_read from what the sink
      kept: a message of fewer than 0xFFFFFFFF bytes, two of them
      different and none 0, comes back unchanged unless the sink filled up. */
  method WriteThenRead(msg: seq<bv8>, limit: nat) returns (sink: seq<bv8>, decoded: Option<seq<bv8>>)
    requires |msg| < 0xFFFF_FFFF
    ensures (forall k :: 0 <= k < |msg| ==> msg[k] != 0) && TwoSymbols(msg) && |sink| < limit ==> decoded == Some(msg)
    ensures OneSymbol(msg) && msg[0] != 0 && |sink| < limit ==> decoded == None
  {
    var w := new Writer(limit);
    var ok, table, pad := HuffmanWrite(w, msg);
    sink := w.sink;
    WrittenDecodes(w.Written, limit, sink, table, msg, pad);
    var r := new Reader(sink);
    decoded := HuffmanRead(r);
  }

  /** What the reader makes of the whole output of huffman_write: the
      message for a proper table, nothing for a one-byte message whose
      table stayed empty. */
  lemma WrittenDecodes(written: seq<bool>, limit: nat, sink: seq<bv8>, table: seq<Code>, msg: seq<bv8>, pad: nat)
    requires IsTable(table) && |msg| < 0xFFFF_FFFF
    requires written == [] + Compressed(table, msg) + Zeros(pad) && |written| % 8 == 0
    requires sink == Truncate(Pack(written), limit)
    requires (forall k :: 0 <= k < |msg| ==> msg[k] != 0) && TwoSymbols(msg) ==> Proper(table, msg)
    requires OneSymbol(msg) ==> table == Zeroed()
    ensures (forall k :: 0 <= k < |msg| ==> msg[k] != 0) && TwoSymbols(msg) && |sink| < limit ==>
      Decompress(Unpack(sink)) == Some(msg)
    ensures OneSymbol(msg) && msg[0] != 0 && |sink| < limit ==> Decompress(Unpack(sink)) == None
  {
    if |sink| < limit {
      SinkKeepsAll(written, limit, sink);
      NothingBefore(Compressed(table, msg), Zeros(pad));
      if (forall k :: 0 <= k < |msg| ==> msg[k] != 0) && TwoSymbols(msg) {
        RoundTrip(table, msg, Zeros(pad));
      }
      if OneSymbol(msg) && msg[0] != 0 {
        SingleSymbolLost(msg[0], 0, msg, Zeros(pad));
      }
    }
  }

  lemma NothingBefore(a: seq<bool>, b: seq<bool>)
    ensures [] + a + b == a + b
  {
    assert [] + a == a;
  }

  /** A sink that did not fill up holds every written bit. */
  lemma SinkKeepsAll(written: seq<bool>, limit: nat, sink: seq<bv8>)
    requires |written| % 8 == 0 && sink == Truncate(Pack(written), limit) && |sink| < limit
    ensures Unpack(sink) == written
  {
    UnpackPack(written);
  }
}
