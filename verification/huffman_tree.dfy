/** The code tree of huffman.h and the two walks over it that do not touch
    a bit stream: deriving the code table from a tree (the table walk of
    huffman_table_from_tree) and rebuilding a tree from a table (the
    insertion loop of huffmantree_from_table). A C `Node*` is a Tree: the
    null pointer is Nil. Wherever huffman.h asks whether a node is a leaf
    it tests `symbol != 0`, so a node carrying symbol 0 is an inner node. */
module HuffmanTree {
  import opened Heaps
  import opened Optional
  import opened Bits

  datatype Tree = Nil | Node(symbol: bv8, left: Tree, right: Tree, freq: int)

  /** A code: the path from the root, true for a step to the left child. */
  type Code = seq<bool>

  /** A HuffmanTable value: 256 entries, entry s holding symbol s's code
      (`len` is the length of the sequence; length 0 is an absent entry). */
  predicate IsTable(table: seq<Code>)
  {
    |table| == 256
  }

  /** The zero-initialised table `HuffmanTable huffman_table = {0}`. */
  function Zeroed(): (table: seq<Code>)
    ensures IsTable(table) && forall k :: 0 <= k < 256 ==> table[k] == []
  {
    seq(256, k => [])
  }

  /** A byte whose unsigned value is i (the implicit conversion of a
      size_t symbol index to unsigned char). */
  function ToByte(i: int): (b: bv8)
    requires 0 <= i < 256
    ensures b as int == i
  {
    if i == 0 then 0 else Successor(ToByte(i - 1)); ToByte(i - 1) + 1
  }

  lemma Successor(b: bv8)
    requires b < 255
    ensures (b + 1) as int == b as int + 1
  {
  }

  /** A byte's index converted back is the byte. */
  lemma ToByteOf(b: bv8)
    ensures ToByte(b as int) == b
  {
    var c := ToByte(b as int);
    assert (c as int) as bv8 == c;
  }

  /** The frequency the heap orders nodes by. */
  function Freq(t: Tree): int
  {
    if t.Node? then t.freq else 0
  }

  /** cmp_nodes: nodes compare by frequency alone, which is the comparison
      the heap applies to the key Freq. */
  function CmpNodes(a: Tree, b: Tree): (r: Ordering)
    ensures r == LessThan <==> Freq(a) < Freq(b)
    ensures r == Equal <==> Freq(a) == Freq(b)
    ensures r == GreaterThan <==> Freq(a) > Freq(b)
    ensures r == Compare(Freq(a), Freq(b))
  {
    if Freq(a) == Freq(b) then Equal
    else if Freq(a) < Freq(b) then LessThan
    else GreaterThan
  }

  predicate IsLeaf(t: Tree)
  {
    t.Node? && t.left == Nil && t.right == Nil
  }

  /** Number of edges on the longest path from t down to a childless node. */
  function Depth(t: Tree): nat
  {
    if t == Nil || (t.left == Nil && t.right == Nil) then 0
    else 1 + Max(Depth(t.left), Depth(t.right))
  }

  function Max(a: nat, b: nat): nat
  {
    if a < b then b else a
  }

  /** The shape huffman_write builds: every leaf carries a symbol other than
      0, every inner node carries 0 and has both children. */
  predicate Full(t: Tree)
  {
    t.Node? &&
    if t.left == Nil && t.right == Nil then t.symbol != 0
    else t.left != Nil && t.right != Nil && t.symbol == 0 && Full(t.left) && Full(t.right)
  }

  /** Some node of t carries the (non-zero) symbol s. */
  predicate Has(t: Tree, s: bv8)
  {
    t.Node? && ((s != 0 && t.symbol == s) || Has(t.left, s) || Has(t.right, s))
  }

  /** The node reached from t by following `path`; Nil once it leaves the tree. */
  function At(t: Tree, path: Code): Tree
    decreases |path|
  {
    if t == Nil || path == [] then t
    else At(if path[0] then t.left else t.right, path[1..])
  }

  /** The symbol of the node at `path`, 0 where there is none. */
  function SymbolAt(t: Tree, path: Code): bv8
  {
    var n := At(t, path);
    if n.Node? then n.symbol else 0
  }

  lemma {:induction false} AtAppend(t: Tree, p: Code, q: Code)
    ensures At(t, p + q) == At(At(t, p), q)
    decreases |p|
  {
    if t != Nil && p != [] {
      assert (p + q)[0] == p[0] && (p + q)[1..] == p[1..] + q;
      AtAppend(if p[0] then t.left else t.right, p[1..], q);
    } else if p == [] {
      assert p + q == q;
    } else {
      AtNil(q);
    }
  }

  lemma {:induction false} AtNil(q: Code)
    ensures At(Nil, q) == Nil
  {
  }

  // ---------------------------------------------------------------------
  // huffman_table_from_tree

  /** The table huffman_table_from_tree leaves behind when called on t with
      the current code `path` (code[..entry_len]): first the left subtree
      with a 1 appended, then the right subtree with a 0 appended, then, when
      t's own symbol is not 0, t's entry. */
  function TableOf(t: Tree, table: seq<Code>, path: Code): (r: seq<Code>)
    requires IsTable(table)
    ensures IsTable(r)
  {
    if t == Nil then table
    else
      var afterLeft := if t.left != Nil then TableOf(t.left, table, path + [true]) else table;
      var afterRight := if t.right != Nil then TableOf(t.right, afterLeft, path + [false]) else afterLeft;
      if t.symbol != 0 then afterRight[t.symbol as int := path] else afterRight
  }

  /** The leaf at `path` below t carries symbol s. */
  predicate LeafWith(t: Tree, path: Code, s: bv8)
  {
    IsLeaf(At(t, path)) && At(t, path).symbol == s
  }

  /** On a Full tree, the walk gives every symbol of the tree an entry that
      extends `path` by the route to that symbol's leaf, no longer than the
      tree is deep, and leaves every other entry alone. */
  lemma {:induction false} TableOfFull(t: Tree, table: seq<Code>, path: Code, s: bv8)
    requires Full(t) && IsTable(table)
    ensures var c := TableOf(t, table, path)[s as int];
      Has(t, s) ==>
        && |path| <= |c| <= |path| + Depth(t)
        && c[..|path|] == path
        && LeafWith(t, c[|path|..], s)
    ensures !Has(t, s) ==> TableOf(t, table, path)[s as int] == table[s as int]
    decreases t, 1
  {
    if t.left == Nil && t.right == Nil {
      TableOfLeaf(t, table, path, s);
    } else {
      TableOfInner(t, table, path, s);
    }
  }

  /** TableOfFull at a leaf: its one entry is the current path. */
  lemma {:induction false} TableOfLeaf(t: Tree, table: seq<Code>, path: Code, s: bv8)
    requires Full(t) && IsTable(table) && t.left == Nil && t.right == Nil
    ensures var c := TableOf(t, table, path)[s as int];
      Has(t, s) ==>
        && |path| <= |c| <= |path| + Depth(t)
        && c[..|path|] == path
        && LeafWith(t, c[|path|..], s)
    ensures !Has(t, s) ==> TableOf(t, table, path)[s as int] == table[s as int]
  {
    var r := TableOf(t, table, path);
    assert r == table[t.symbol as int := path];
    if s == t.symbol {
      assert r[s as int] == path && path[..|path|] == path && path[|path|..] == [];
    } else {
      assert !Has(t.left, s) && !Has(t.right, s);
    }
  }

  /** TableOfFull at an inner node: the entries come from the subtrees. */
  lemma {:induction false} TableOfInner(t: Tree, table: seq<Code>, path: Code, s: bv8)
    requires Full(t) && IsTable(table) && (t.left != Nil || t.right != Nil)
    ensures var c := TableOf(t, table, path)[s as int];
      Has(t, s) ==>
        && |path| <= |c| <= |path| + Depth(t)
        && c[..|path|] == path
        && LeafWith(t, c[|path|..], s)
    ensures !Has(t, s) ==> TableOf(t, table, path)[s as int] == table[s as int]
    decreases t, 0
  {
    var r := TableOf(t, table, path);
    var pl, pr := path + [true], path + [false];
    var afterLeft := TableOf(t.left, table, pl);
    TableOfFull(t.left, table, pl, s);
    TableOfFull(t.right, afterLeft, pr, s);
    assert r == TableOf(t.right, afterLeft, pr);
    if Has(t.right, s) {
      ChildRoute(t, path, false, r[s as int], s);
    } else if Has(t.left, s) {
      ChildRoute(t, path, true, r[s as int], s);
    }
  }

  /** One step of TableOfFull: an entry that runs through the child on side
      `bit` runs through t. */
  lemma ChildRoute(t: Tree, path: Code, bit: bool, c: Code, s: bv8)
    requires t.Node?
    requires var child := if bit then t.left else t.right;
      && |path| + 1 <= |c| <= |path| + 1 + Depth(child)
      && c[..|path| + 1] == path + [bit]
      && LeafWith(child, c[|path| + 1..], s)
    requires t.left != Nil && t.right != Nil
    ensures |path| <= |c| <= |path| + Depth(t)
    ensures c[..|path|] == path
    ensures LeafWith(t, c[|path|..], s)
  {
    assert c[..|path|] == c[..|path| + 1][..|path|];
    var tail := c[|path|..];
    assert tail[0] == bit && tail[1..] == c[|path| + 1..];
  }

  // ---------------------------------------------------------------------
  // Codes that can be told apart

  /** No present entry is a prefix of (or equal to) another present entry. */
  ghost predicate PrefixFree(table: seq<Code>)
    requires IsTable(table)
  {
    forall i, j :: 0 <= i < 256 && 0 <= j < 256 && i != j && |table[i]| > 0 && |table[j]| > 0 ==>
      !(table[i] <= table[j])
  }

  /** Entries that each lead to a leaf carrying their own symbol are
      prefix-free: a route cannot continue below a leaf, and one leaf carries
      one symbol. */
  lemma LeafRoutesPrefixFree(t: Tree, table: seq<Code>)
    requires IsTable(table)
    requires forall i :: 0 <= i < 256 && |table[i]| > 0 ==> LeafWith(t, table[i], ToByte(i))
    ensures PrefixFree(table)
  {
    forall i, j | 0 <= i < 256 && 0 <= j < 256 && i != j && |table[i]| > 0 && |table[j]| > 0
      ensures !(table[i] <= table[j])
    {
      var p, q := table[i], table[j];
      if p <= q {
        var d := q[|p|..];
        assert p + d == q;
        AtAppend(t, p, d);
      }
    }
  }

  // ---------------------------------------------------------------------
  // huffmantree_from_table

  /** The zeroed node `arena_new(arena, Node, 1)` allocates. */
  const Blank: Tree := Node(0, Nil, Nil, 0)

  /** The insertion loop of huffmantree_from_table for one entry: walk the
      code from the root, allocating a blank child wherever one is missing
      (1 = left), and store the symbol in the node reached. */
  function Insert(t: Tree, code: Code, s: bv8): (r: Tree)
    ensures r.Node?
    decreases |code|
  {
    var n := if t == Nil then Blank else t;
    if code == [] then n.(symbol := s)
    else if code[0] then n.(left := Insert(n.left, code[1..], s))
    else n.(right := Insert(n.right, code[1..], s))
  }

  /** Inserting at `code` stores s there, keeps every node that existed, and
      changes no other symbol (new nodes carry 0). */
  lemma {:induction false} InsertAt(t: Tree, code: Code, s: bv8, d: Code)
    ensures SymbolAt(Insert(t, code, s), code) == s && At(Insert(t, code, s), code).Node?
    ensures d != code && At(t, d).Node? ==> At(Insert(t, code, s), d).Node?
    ensures d != code ==> SymbolAt(Insert(t, code, s), d) == SymbolAt(t, d)
    decreases |code|
  {
    var n := if t == Nil then Blank else t;
    var r := Insert(t, code, s);
    if code != [] {
      var child := if code[0] then n.left else n.right;
      if d != [] && d[0] == code[0] {
        assert d[1..] != code[1..] || d == code by {
          if d[1..] == code[1..] {
            assert d == [d[0]] + d[1..] && code == [code[0]] + code[1..];
          }
        }
        InsertAt(child, code[1..], s, d[1..]);
        if t == Nil {
          AtNil(d[1..]);
        }
      } else {
        InsertAt(child, code[1..], s, []);
        if t == Nil && d != [] {
          AtNil(d[1..]);
        }
      }
    } else if d != [] && t == Nil {
      AtNil(d[1..]);
    }
  }

  /** The tree huffmantree_from_table has built after entries 0 .. n-1. */
  function Grow(table: seq<Code>, n: nat): (r: Tree)
    requires IsTable(table) && n <= 256
    ensures r.Node?
  {
    if n == 0 then Blank
    else
      var t := Grow(table, n - 1);
      if |table[n - 1]| > 0 then Insert(t, table[n - 1], ToByte(n - 1)) else t
  }

  /** In the rebuilt tree a symbol x other than 0 sits only at the end of
      x's own code, which is present: nodes made on the way carry 0. */
  lemma {:induction false} GrowPlaces(table: seq<Code>, n: nat)
    requires IsTable(table) && n <= 256
    ensures forall d: Code :: SymbolAt(Grow(table, n), d) != 0 ==>
      var x := SymbolAt(Grow(table, n), d) as int;
      x < n && |table[x]| > 0 && table[x] == d
  {
    if n == 0 {
      forall d: Code
        ensures SymbolAt(Grow(table, 0), d) == 0
      {
        BlankSymbols(d);
      }
    } else {
      GrowPlaces(table, n - 1);
      GrowPlacesStep(table, n - 1, n);
    }
  }

  /** A blank node and everything below it carry symbol 0. */
  lemma BlankSymbols(d: Code)
    ensures SymbolAt(Blank, d) == 0
  {
    if d != [] {
      AtNil(d[1..]);
    }
  }

  lemma {:induction false} GrowPlacesStep(table: seq<Code>, m: nat, n: nat)
    requires IsTable(table) && n == m + 1 <= 256
    requires forall d: Code :: SymbolAt(Grow(table, m), d) != 0 ==>
      var x := SymbolAt(Grow(table, m), d) as int;
      x < m && |table[x]| > 0 && table[x] == d
    ensures forall d: Code :: SymbolAt(Grow(table, n), d) != 0 ==>
      var x := SymbolAt(Grow(table, n), d) as int;
      x < n && |table[x]| > 0 && table[x] == d
  {
    var t := Grow(table, m);
    if |table[m]| == 0 {
      assert Grow(table, n) == t;
    } else {
      var g := Insert(t, table[m], ToByte(m));
      assert Grow(table, n) == g;
      forall d: Code | SymbolAt(g, d) != 0
        ensures var x := SymbolAt(g, d) as int;
          x < n && |table[x]| > 0 && table[x] == d
      {
        InsertAt(t, table[m], ToByte(m), d);
      }
    }
  }

  /** With prefix-free codes, every present entry i other than 0 among the
      first n is found at the end of its code in the rebuilt tree. */
  lemma {:induction false} GrowFinds(table: seq<Code>, n: nat)
    requires IsTable(table) && n <= 256 && PrefixFree(table)
    ensures forall i :: 0 < i < n && |table[i]| > 0 ==> SymbolAt(Grow(table, n), table[i]) == ToByte(i)
  {
    if n > 0 {
      GrowFinds(table, n - 1);
      var t := Grow(table, n - 1);
      var c := table[n - 1];
      if |c| > 0 {
        forall i | 0 < i < n && |table[i]| > 0
          ensures SymbolAt(Grow(table, n), table[i]) == ToByte(i)
        {
          InsertAt(t, c, ToByte(n - 1), table[i]);
          if i < n - 1 {
            assert !(table[i] <= c);
          }
        }
      }
    }
  }

  // ---------------------------------------------------------------------
  // read_encoded_message_byte

  /** What read_encoded_message_byte returns when the bits still to be read
      are `bits`, and the bits left after it: a node with a symbol other
      than 0 is returned at once; otherwise one bit is read (into a bit that
      starts false, so at end of input the walk goes right) and the walk
      goes on left for 1, right for 0. None where the walk reaches a null
      node, which the source's assert(root) rejects. */
  function DecodeSymbol(t: Tree, bits: seq<bool>): (Option<bv8>, seq<bool>)
    decreases t
  {
    if t == Nil then (None, bits)
    else if t.symbol != 0 then (Some(t.symbol), bits)
    else
      var (b, rest) := TakeBit(bits);
      DecodeSymbol(if b then t.left else t.right, rest)
  }

  /** Walking a code whose end carries symbol s and whose proper prefixes
      all carry 0 consumes exactly that code and returns s. */
  lemma {:induction false} DecodeAlong(t: Tree, d: Code, s: bv8, rest: seq<bool>)
    requires SymbolAt(t, d) == s && s != 0
    requires forall k :: 0 <= k < |d| ==> SymbolAt(t, d[..k]) == 0
    ensures DecodeSymbol(t, d + rest) == (Some(s), rest)
    decreases |d|
  {
    if d != [] {
      assert d[..0] == [];
      if t == Nil {
        AtNil(d);
      }
      var child := if d[0] then t.left else t.right;
      assert (d + rest)[0] == d[0] && (d + rest)[1..] == d[1..] + rest;
      forall k | 0 <= k < |d[1..]|
        ensures SymbolAt(child, d[1..][..k]) == 0
      {
        assert d[..k + 1][1..] == d[1..][..k];
        assert SymbolAt(t, d[..k + 1]) == 0;
      }
      assert t.symbol == 0 && SymbolAt(child, d[1..]) == s;
      DecodeAlong(child, d[1..], s, rest);
      assert TakeBit(d + rest) == (d[0], d[1..] + rest);
    } else {
      assert d + rest == rest;
    }
  }

  /** The tree huffmantree_from_table rebuilds from a prefix-free table
      decodes each present entry other than 0: the walk reads exactly that
      entry's code and returns its symbol. */
  lemma DecodeEntry(table: seq<Code>, i: int, rest: seq<bool>)
    requires IsTable(table) && PrefixFree(table)
    requires 0 < i < 256 && |table[i]| > 0
    ensures DecodeSymbol(Grow(table, 256), table[i] + rest) == (Some(ToByte(i)), rest)
  {
    var g, c := Grow(table, 256), table[i];
    GrowFinds(table, 256);
    GrowPlaces(table, 256);
    forall k | 0 <= k < |c|
      ensures SymbolAt(g, c[..k]) == 0
    {
      var x := SymbolAt(g, c[..k]) as int;
      if x != 0 {
        assert false;
      }
    }
    DecodeAlong(g, c, ToByte(i), rest);
  }

  /** The walk never returns symbol 0: a node carrying 0 is one to walk
      past, so byte 0 has no leaf a walk can stop at. */
  lemma {:induction false} DecodeNeverZero(t: Tree, bits: seq<bool>)
    ensures DecodeSymbol(t, bits).0 != Some(0)
    decreases t
  {
    if t != Nil && t.symbol == 0 {
      var (b, rest) := TakeBit(bits);
      DecodeNeverZero(if b then t.left else t.right, rest);
    }
  }

  /** huffman_table_from_tree leaves an entry alone unless its symbol is in
      the tree; in particular it never writes the entry for 0. */
  lemma {:induction false} TableOfElsewhere(t: Tree, table: seq<Code>, path: Code, s: bv8)
    requires IsTable(table) && (s == 0 || !Has(t, s))
    ensures TableOf(t, table, path)[s as int] == table[s as int]
    decreases t
  {
    if t != Nil {
      var afterLeft := if t.left != Nil then TableOf(t.left, table, path + [true]) else table;
      var afterRight := if t.right != Nil then TableOf(t.right, afterLeft, path + [false]) else afterLeft;
      if t.left != Nil {
        TableOfElsewhere(t.left, table, path + [true], s);
      }
      if t.right != Nil {
        TableOfElsewhere(t.right, afterLeft, path + [false], s);
      }
      KeepOther(afterRight, t.symbol, path, s);
    }
  }

  /** Storing the entry of a symbol other than s (or of no symbol) keeps
      the entry of s. */
  lemma KeepOther(table: seq<Code>, symbol: bv8, path: Code, s: bv8)
    requires IsTable(table) && (symbol == 0 || symbol != s)
    ensures (if symbol != 0 then table[symbol as int := path] else table)[s as int] == table[s as int]
  {
  }


}
