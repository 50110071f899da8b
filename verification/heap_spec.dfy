/** The binary-heap vocabulary shared by heapq.h, s.h and hs.h: the array
    layout (children of i at 2i+1 and 2i+2), the comparison callback, the
    one-step sift-down and sift-up as functions on sequences, and what they
    promise. The C callbacks compare untyped elements; here an element is
    compared through an integer key, and a max-heap is a min-heap under the
    negated key. */
module Heaps {

  /** The Ordering enum returned by every comparison callback. */
  datatype Ordering = LessThan | Equal | GreaterThan

  /** A three-way comparison of two keys, the shape of cmp_nodes and cmp_int. */
  function Compare(x: int, y: int): (r: Ordering)
    ensures r == LessThan <==> x < y
    ensures r == Equal <==> x == y
    ensures r == GreaterThan <==> x > y
  {
    if x == y then Equal else if x < y then LessThan else GreaterThan
  }

  /** The key that turns a max-heap into a min-heap. */
  function Neg<T>(key: T -> int): T -> int
  {
    x => -key(x)
  }

  function Parent(c: nat): nat
    requires c > 0
  {
    (c - 1) / 2
  }

  predicate IsChild(p: nat, c: nat)
  {
    c == 2 * p + 1 || c == 2 * p + 2
  }

  /** Exchanges two elements (mem_swap, hq_impl_swap). */
  function Swap<T>(s: seq<T>, i: nat, j: nat): (r: seq<T>)
    requires i < |s| && j < |s|
    ensures |r| == |s|
  {
    s[i := s[j]][j := s[i]]
  }

  /** A swap exchanges the two slots, keeps every other one and the
      multiset of elements. */
  lemma SwapFacts<T>(s: seq<T>, i: nat, j: nat)
    requires i < |s| && j < |s|
    ensures var r := Swap(s, i, j);
      && r[i] == s[j] && r[j] == s[i]
      && (forall k :: 0 <= k < |s| && k != i && k != j ==> r[k] == s[k])
      && multiset(r) == multiset(s)
  {
  }

  /** Every parent at or after `lo` among the first n slots is no greater
      than its children: the subtrees rooted at lo, lo+1, ... are min-heaps. */
  ghost predicate HeapFrom<T>(s: seq<T>, key: T -> int, n: nat, lo: nat)
    requires n <= |s|
  {
    forall c :: 0 < c < n && lo <= Parent(c) ==> key(s[Parent(c)]) <= key(s[c])
  }

  ghost predicate IsHeap<T>(s: seq<T>, key: T -> int, n: nat)
    requires n <= |s|
  {
    HeapFrom(s, key, n, 0)
  }

  /** HeapFrom, except that slot i may be greater than its children; its
      parent (when that counts) is still no greater than them. */
  ghost predicate HeapExcept<T>(s: seq<T>, key: T -> int, n: nat, lo: nat, i: nat)
    requires n <= |s|
  {
    && (forall c :: 0 < c < n && lo <= Parent(c) && Parent(c) != i ==> key(s[Parent(c)]) <= key(s[c]))
    && (forall c :: 0 < c < n && Parent(c) == i && 0 < i && lo <= Parent(i) ==> key(s[Parent(i)]) <= key(s[c]))
  }

  /** A heap, except that slot pos may be smaller than its parent; the
      parent of pos is still no greater than the children of pos. */
  ghost predicate HeapExceptUp<T>(s: seq<T>, key: T -> int, n: nat, pos: nat)
    requires n <= |s|
  {
    && (forall c :: 0 < c < n && c != pos ==> key(s[Parent(c)]) <= key(s[c]))
    && (forall c :: 0 < c < n && Parent(c) == pos && 0 < pos ==> key(s[Parent(pos)]) <= key(s[c]))
  }

  ghost predicate SortedBy<T>(s: seq<T>, key: T -> int)
  {
    forall i, j :: 0 <= i < j < |s| ==> key(s[i]) <= key(s[j])
  }

  /** The `minimum` chosen by heapify_min: slot i, unless a child within the
      first n is strictly smaller, the left child tried first and the right
      one taken only when strictly smaller than that choice. */
  function MinChild<T>(s: seq<T>, key: T -> int, n: nat, i: nat): (m: nat)
    requires n <= |s| && i < |s|
    ensures m == i || (IsChild(i, m) && m < n)
  {
    var left := 2 * i + 1;
    var right := 2 * i + 2;
    var m0 := if left < n && key(s[left]) < key(s[i]) then left else i;
    if right < n && key(s[right]) < key(s[m0]) then right else m0
  }

  /** The chosen slot is the smallest of i and its children within n, and
      differs from i only when strictly smaller; on a tie between the two
      children the left one wins. */
  lemma MinChildSmallest<T>(s: seq<T>, key: T -> int, n: nat, i: nat)
    requires n <= |s| && i < |s|
    ensures var m := MinChild(s, key, n, i);
      && (m != i ==> key(s[m]) < key(s[i]))
      && key(s[m]) <= key(s[i])
      && (2 * i + 1 < n ==> key(s[m]) <= key(s[2 * i + 1]))
      && (2 * i + 2 < n ==> key(s[m]) <= key(s[2 * i + 2]))
      && (m == 2 * i + 2 && 2 * i + 1 < n ==> key(s[m]) < key(s[2 * i + 1]))
  {
  }

  /** The recursive sift-down of heapify_min within the first n slots. */
  function SiftDown<T>(s: seq<T>, key: T -> int, n: nat, i: nat): (r: seq<T>)
    requires n <= |s| && i < |s|
    ensures |r| == |s|
    decreases |s| - i
  {
    var m := MinChild(s, key, n, i);
    if m == i then s else SiftDown(Swap(s, i, m), key, n, m)
  }

  /** The sift-down permutes the elements and only touches slots from i
      up to n. */
  lemma {:induction false} SiftDownKeeps<T>(s: seq<T>, key: T -> int, n: nat, i: nat)
    requires n <= |s| && i < |s|
    ensures var r := SiftDown(s, key, n, i);
      && multiset(r) == multiset(s)
      && (forall k :: 0 <= k < |s| && (k < i || n <= k) ==> r[k] == s[k])
    decreases |s| - i
  {
    var m := MinChild(s, key, n, i);
    if m != i {
      SwapFacts(s, i, m);
      SiftDownKeeps(Swap(s, i, m), key, n, m);
    }
  }

  /** A write_cb log made of (parent, child) pairs of slots below n, each
      pair starting where the previous one ended: one path down the heap. */
  ghost predicate TracesPath(log: seq<int>, n: nat)
    decreases |log|
  {
    || log == []
    || (&& |log| >= 2
        && 0 <= log[0] && 0 <= log[1] && IsChild(log[0], log[1]) && log[1] < n
        && (|log| > 2 ==> log[2] == log[1])
        && TracesPath(log[2..], n))
  }

  /** The indices the sift-down reports through write_cb: for every swap,
      the parent and then the child it was exchanged with. */
  function SiftLog<T>(s: seq<T>, key: T -> int, n: nat, i: nat): seq<int>
    requires n <= |s| && i < |s|
    decreases |s| - i
  {
    var m := MinChild(s, key, n, i);
    if m == i then [] else [i, m] + SiftLog(Swap(s, i, m), key, n, m)
  }

  /** The sift-down reports one path down the heap from i: nothing exactly
      when i is already no greater than its children, and otherwise i and
      the child it was swapped with first. */
  lemma {:induction false} SiftLogPath<T>(s: seq<T>, key: T -> int, n: nat, i: nat)
    requires n <= |s| && i < |s|
    ensures var log := SiftLog(s, key, n, i);
      && TracesPath(log, n)
      && (log == [] <==> MinChild(s, key, n, i) == i)
      && (log != [] ==> log[0] == i && log[1] == MinChild(s, key, n, i))
    decreases |s| - i
  {
    var m := MinChild(s, key, n, i);
    if m != i {
      var rest := SiftLog(Swap(s, i, m), key, n, m);
      SiftLogPath(Swap(s, i, m), key, n, m);
      assert ([i, m] + rest)[2..] == rest;
    }
  }

  /** k is pos or one of its ancestors. */
  predicate OnPath(k: nat, pos: nat)
    decreases pos
  {
    k == pos || (pos > 0 && OnPath(k, Parent(pos)))
  }

  /** The sift-up of hq_impl_siftdown written as swaps: the item at pos moves
      toward the root while it is strictly smaller than its parent. */
  function SiftUp<T>(s: seq<T>, key: T -> int, pos: nat): (r: seq<T>)
    requires pos < |s|
    ensures |r| == |s|
    decreases pos
  {
    if pos > 0 && Compare(key(s[pos]), key(s[Parent(pos)])) == LessThan then
      SiftUp(Swap(s, pos, Parent(pos)), key, Parent(pos))
    else
      s
  }

  /** The sift-up permutes the elements and only touches the slots on the
      path from pos to the root. */
  lemma {:induction false} SiftUpKeeps<T>(s: seq<T>, key: T -> int, pos: nat)
    requires pos < |s|
    ensures var r := SiftUp(s, key, pos);
      && multiset(r) == multiset(s)
      && (forall k :: 0 <= k < |s| && !OnPath(k, pos) ==> r[k] == s[k])
    decreases pos
  {
    if pos > 0 && key(s[pos]) < key(s[Parent(pos)]) {
      var p := Parent(pos);
      var t := Swap(s, pos, p);
      SwapFacts(s, pos, p);
      SiftUpKeeps(t, key, p);
      var r := SiftUp(t, key, p);
      assert SiftUp(s, key, pos) == r;
      forall k | 0 <= k < |s| && !OnPath(k, pos)
        ensures r[k] == s[k]
      {
        assert !OnPath(k, p) && k != pos && k != p;
      }
    }
  }

  /** The bottom-up build loop after its calls for slots i-1, ..., 0 (the
      highest first), each sifting down within the first n slots. */
  function BuildFrom<T>(s: seq<T>, key: T -> int, n: nat, i: nat): (r: seq<T>)
    requires n <= |s| && i <= n
    ensures |r| == |s|
    decreases i
  {
    if i == 0 then s else BuildFrom(SiftDown(s, key, n, i - 1), key, n, i - 1)
  }

  /** The build loop permutes the elements and leaves the slots from n on
      alone. */
  lemma {:induction false} BuildFromKeeps<T>(s: seq<T>, key: T -> int, n: nat, i: nat)
    requires n <= |s| && i <= n
    ensures var r := BuildFrom(s, key, n, i);
      && multiset(r) == multiset(s)
      && (forall k :: n <= k < |s| ==> r[k] == s[k])
    decreases i
  {
    if i > 0 {
      SiftDownKeeps(s, key, n, i - 1);
      BuildFromKeeps(SiftDown(s, key, n, i - 1), key, n, i - 1);
    }
  }

  /** The whole build loop: slots n/2 - 1 down to 0; nothing when n < 2. */
  function Build<T>(s: seq<T>, key: T -> int, n: nat): seq<T>
    requires n <= |s|
  {
    BuildFrom(s, key, n, n / 2)
  }

  /** The indices the build loop's sift-downs report, in order. */
  function BuildLog<T>(s: seq<T>, key: T -> int, n: nat, i: nat): seq<int>
    requires n <= |s| && i <= n
    decreases i
  {
    if i == 0 then [] else SiftLog(s, key, n, i - 1) + BuildLog(SiftDown(s, key, n, i - 1), key, n, i - 1)
  }

  /** Sifting down slots i-1, ..., 0 after the subtrees from i on are heaps
      gives a heap. */
  lemma {:induction false} BuildFromHeap<T>(s: seq<T>, key: T -> int, n: nat, i: nat)
    requires n <= |s| && i <= n && HeapFrom(s, key, n, i)
    ensures IsHeap(BuildFrom(s, key, n, i), key, n)
    decreases i
  {
    if i > 0 {
      SiftDownMends(s, key, n, i - 1);
      BuildFromHeap(SiftDown(s, key, n, i - 1), key, n, i - 1);
    }
  }

  /** The build loop turns the first n slots into a heap of the same
      elements and leaves the rest alone. */
  lemma BuildHeap<T>(s: seq<T>, key: T -> int, n: nat)
    requires n <= |s|
    ensures var r := Build(s, key, n);
      && IsHeap(r, key, n)
      && multiset(r[..n]) == multiset(s[..n])
      && r[n..] == s[n..]
  {
    var r := Build(s, key, n);
    HeapFromLeaves(s, key, n, n / 2);
    BuildFromHeap(s, key, n, n / 2);
    BuildFromKeeps(s, key, n, n / 2);
    PrefixMultiset(r, s, n);
  }

  /** One swap of the sift-down moves the one defect HeapExcept allows
      from i down to the chosen child. */
  lemma SwapMovesDefect<T>(s: seq<T>, key: T -> int, n: nat, lo: nat, i: nat)
    requires n <= |s| && i < |s| && lo <= i
    requires HeapExcept(s, key, n, lo, i)
    ensures var m := MinChild(s, key, n, i);
      m != i ==> HeapExcept(Swap(s, i, m), key, n, lo, m)
  {
    var m := MinChild(s, key, n, i);
    if m != i {
      var t := Swap(s, i, m);
      MinChildSmallest(s, key, n, i);
      SwapFacts(s, i, m);
      forall c | 0 < c < n && lo <= Parent(c) && Parent(c) != m
        ensures key(t[Parent(c)]) <= key(t[c])
      {
        var p := Parent(c);
        if p == i {
          assert IsChild(i, c);
          assert t[p] == s[m];
        } else if c == i {
          assert Parent(m) == i && p != m;
          assert t[p] == s[p] && t[c] == s[m];
        } else {
          assert c != m && p != m;
          assert t[p] == s[p] && t[c] == s[c];
        }
      }
      forall c | 0 < c < n && Parent(c) == m && 0 < m && lo <= Parent(m)
        ensures key(t[Parent(m)]) <= key(t[c])
      {
        assert Parent(m) == i;
      }
    }
  }

  /** Sifting down at i mends the one defect HeapExcept allows. */
  lemma {:induction false} SiftDownHeap<T>(s: seq<T>, key: T -> int, n: nat, lo: nat, i: nat)
    requires n <= |s| && i < |s| && lo <= i
    requires HeapExcept(s, key, n, lo, i)
    ensures HeapFrom(SiftDown(s, key, n, i), key, n, lo)
    decreases |s| - i
  {
    var m := MinChild(s, key, n, i);
    if m == i {
      MinChildSmallest(s, key, n, i);
      forall c | 0 < c < n && lo <= Parent(c)
        ensures key(s[Parent(c)]) <= key(s[c])
      {
        if Parent(c) == i {
          assert IsChild(i, c);
        }
      }
    } else {
      SwapMovesDefect(s, key, n, lo, i);
      SiftDownHeap(Swap(s, i, m), key, n, lo, m);
    }
  }

  /** The first step of a build loop or a heapify call: subtrees after i are
      heaps, so only slot i is out of place. */
  lemma HeapFromNext<T>(s: seq<T>, key: T -> int, n: nat, i: nat)
    requires n <= |s| && HeapFrom(s, key, n, i + 1)
    ensures HeapExcept(s, key, n, i, i)
  {
    forall c | 0 < c < n && Parent(c) == i && 0 < i && i <= Parent(i)
      ensures false
    {
    }
  }

  /** heapify_min's promise: when the subtrees at i's children are heaps,
      afterwards the subtree at i is one too. */
  lemma SiftDownMends<T>(s: seq<T>, key: T -> int, n: nat, i: nat)
    requires n <= |s| && i < |s| && HeapFrom(s, key, n, i + 1)
    ensures HeapFrom(SiftDown(s, key, n, i), key, n, i)
  {
    HeapFromNext(s, key, n, i);
    SiftDownHeap(s, key, n, i, i);
  }

  /** Slots from n/2 on have no children below n. */
  lemma HeapFromLeaves<T>(s: seq<T>, key: T -> int, n: nat, lo: nat)
    requires n <= |s| && n / 2 <= lo
    ensures HeapFrom(s, key, n, lo)
  {
  }

  /** The root of a heap is no greater than any element of it. */
  lemma {:induction false} RootIsMin<T>(s: seq<T>, key: T -> int, n: nat, k: nat)
    requires n <= |s| && k < n && IsHeap(s, key, n)
    ensures key(s[0]) <= key(s[k])
    decreases k
  {
    if k > 0 {
      RootIsMin(s, key, n, Parent(k));
    }
  }

  /** One swap of the sift-up moves the one defect HeapExceptUp allows from
      pos up to its parent. */
  lemma SwapUpMovesDefect<T>(s: seq<T>, key: T -> int, n: nat, pos: nat)
    requires pos < n <= |s| && HeapExceptUp(s, key, n, pos)
    requires pos > 0 && key(s[pos]) < key(s[Parent(pos)])
    ensures HeapExceptUp(Swap(s, pos, Parent(pos)), key, n, Parent(pos))
  {
    var p := Parent(pos);
    var t := Swap(s, pos, p);
    SwapFacts(s, pos, p);
    forall c | 0 < c < n && c != p
      ensures key(t[Parent(c)]) <= key(t[c])
    {
      if c == pos {
        assert t[p] == s[pos] && t[c] == s[p];
      } else if Parent(c) == p {
        assert t[p] == s[pos] && t[c] == s[c];
      } else if Parent(c) == pos {
        assert t[pos] == s[p] && t[c] == s[c];
      } else {
        assert t[Parent(c)] == s[Parent(c)] && t[c] == s[c];
      }
    }
    forall c | 0 < c < n && Parent(c) == p && 0 < p
      ensures key(t[Parent(p)]) <= key(t[c])
    {
      assert t[Parent(p)] == s[Parent(p)];
    }
  }

  /** Sifting up from pos mends the one defect HeapExceptUp allows. */
  lemma {:induction false} SiftUpHeap<T>(s: seq<T>, key: T -> int, n: nat, pos: nat)
    requires pos < n <= |s| && HeapExceptUp(s, key, n, pos)
    ensures IsHeap(SiftUp(s, key, pos), key, n)
    decreases pos
  {
    if pos > 0 && key(s[pos]) < key(s[Parent(pos)]) {
      SwapUpMovesDefect(s, key, n, pos);
      SiftUpHeap(Swap(s, pos, Parent(pos)), key, n, Parent(pos));
    } else {
      forall c | 0 < c < n
        ensures key(s[Parent(c)]) <= key(s[c])
      {
        if c == pos {
          assert pos > 0;
        } else if 0 < pos && Parent(c) == pos {
          assert key(s[Parent(pos)]) <= key(s[c]);
        }
      }
    }
  }

  /** Appending one element to a heap leaves only the new last slot out of
      place. */
  lemma AppendedHeap<T>(s: seq<T>, key: T -> int, n: nat)
    requires n < |s| && IsHeap(s, key, n)
    ensures HeapExceptUp(s, key, n + 1, n)
  {
  }

  /** Swapping the root with the last slot of a heap and dropping that slot
      leaves only the root out of place. */
  lemma SwapLastHeap<T>(s: seq<T>, key: T -> int, n: nat)
    requires 0 < n <= |s| && IsHeap(s, key, n)
    ensures HeapExcept(Swap(s, 0, n - 1), key, n - 1, 0, 0)
  {
  }

  /** Two sequences that agree from n on and have the same elements have the
      same elements before n. */
  lemma PrefixMultiset<T>(r: seq<T>, s: seq<T>, n: nat)
    requires n <= |r| == |s| && multiset(r) == multiset(s)
    requires forall k :: n <= k < |s| ==> r[k] == s[k]
    ensures multiset(r[..n]) == multiset(s[..n])
  {
    var tail := s[n..];
    assert r[n..] == tail by {
      forall k | 0 <= k < |tail|
        ensures r[n..][k] == tail[k]
      {
        assert r[n..][k] == r[n + k];
      }
    }
    assert r == r[..n] + tail;
    assert s == s[..n] + tail;
    assert multiset(r[..n]) == multiset(r) - multiset(tail);
    assert multiset(s[..n]) == multiset(s) - multiset(tail);
  }

  /** Sifting up from pos < n only looks at the first n slots. */
  lemma {:induction false} SiftUpPrefix<T>(s: seq<T>, key: T -> int, pos: nat, n: nat)
    requires pos < n <= |s|
    ensures SiftUp(s, key, pos)[..n] == SiftUp(s[..n], key, pos)
    decreases pos
  {
    if pos > 0 && key(s[pos]) < key(s[Parent(pos)]) {
      var p := Parent(pos);
      assert Swap(s, pos, p)[..n] == Swap(s[..n], pos, p);
      SiftUpPrefix(Swap(s, pos, p), key, p, n);
    }
  }
}
