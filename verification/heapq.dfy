/** The array-backed priority queue of heapq.h. The queue keeps its
    elements in `data[0..len)` as a binary min-heap under the comparison
    callback; `capacity` is the length of the storage, which grows 0, 1, 2,
    4, ... as elements are pushed. */
module HeapQ {
  import opened Heaps
  import opened SizeT
  import opened Optional

  /** hq_impl_swap: exchanges two elements. */
  method SwapElems<T>(a: array<T>, i: nat, j: nat)
    requires i < a.Length && j < a.Length
    modifies a
    ensures a[..] == Swap(old(a[..]), i, j)
  {
    a[i], a[j] := a[j], a[i];
  }

  /** hq_impl_heapify_min: the recursive sift-down of slot i within the
      first n slots. */
  method HeapifyMin<T>(a: array<T>, key: T -> int, n: nat, i: nat)
    requires n <= a.Length && i < a.Length
    modifies a
    ensures a[..] == SiftDown(old(a[..]), key, n, i)
    decreases a.Length - i
  {
    ghost var s := a[..];
    var minimum := i;
    var right := 2 * i + 2;
    var left := 2 * i + 1;
    if left < n && Compare(key(a[left]), key(a[minimum])) == LessThan {
      minimum := left;
    }
    if right < n && Compare(key(a[right]), key(a[minimum])) == LessThan {
      minimum := right;
    }
    assert minimum == MinChild(s, key, n, i);
    if minimum != i {
      SwapElems(a, i, minimum);
      HeapifyMin(a, key, n, minimum);
    }
  }

  /** hq_impl_siftdown: the item at pos is lifted out, parents that are
      greater than it move down one level into the hole, and the item is
      stored where the hole stops. */
  method SiftUpHole<T>(a: array<T>, key: T -> int, n: nat, pos: nat)
    requires pos < n <= a.Length
    modifies a
    ensures a[..] == SiftUp(old(a[..]), key, pos)
  {
    var newitem := a[pos];
    var hole := pos;
    assert old(a[..]) == a[..][hole := newitem];
    while hole > 0
      invariant hole <= pos
      invariant SiftUp(a[..][hole := newitem], key, hole) == SiftUp(old(a[..]), key, pos)
    {
      var parentpos := (hole - 1) / 2;
      var parent := a[parentpos];
      if Compare(key(newitem), key(parent)) == LessThan {
        ghost var cur := a[..];
        a[hole] := parent;
        assert a[..] == cur[hole := parent];
        HoleMove(cur, hole, parentpos, newitem);
        hole := parentpos;
        continue;
      }
      break;
    }
    a[hole] := newitem;
  }

  /** The store and sift-up of hq_push: elem goes to slot n, just past a
      heap of n elements, and is sifted up, giving a heap of n + 1. */
  method AppendSiftUp<T>(a: array<T>, key: T -> int, n: nat, elem: T)
    requires n < a.Length && IsHeap(a[..n], key, n)
    modifies a
    ensures a[..n + 1] == SiftUp(old(a[..n]) + [elem], key, n)
    ensures IsHeap(a[..], key, n + 1)
    ensures multiset(a[..n + 1]) == multiset(old(a[..n])) + multiset{elem}
  {
    ghost var s := a[..n];
    a[n] := elem;
    ghost var t := a[..];
    assert t[..n + 1] == s + [elem];
    SiftUpHole(a, key, n + 1, n);
    PushFacts(t, s, elem, key, n);
  }

  /** Moving the parent into the hole is the swap of the hole's item (the
      one lifted out) with its parent. */
  lemma HoleMove<T>(c: seq<T>, hole: nat, p: nat, x: T)
    requires hole < |c| && p < |c| && p != hole
    ensures c[hole := c[p]][p := x] == Swap(c[hole := x], hole, p)
  {
  }

  /** The body of hq_pop on a non-empty queue of n elements: the root is
      exchanged with the last element through a temporary and the first
      n - 1 elements are sifted down from the root. */
  method SwapRootDown<T>(a: array<T>, key: T -> int, n: nat)
    requires 0 < n <= a.Length
    modifies a
    ensures a[..] == SiftDown(Swap(old(a[..]), 0, n - 1), key, n - 1, 0)
  {
    var tmp := a[n - 1];
    a[n - 1] := a[0];
    a[0] := tmp;
    assert a[..] == Swap(old(a[..]), 0, n - 1);
    HeapifyMin(a, key, n - 1, 0);
  }

  /** The capacity after hq_push's growth loop: doubled (or set to 1 when 0)
      until it exceeds len + 1. */
  function GrownCapacity(len: nat, capacity: nat): (r: nat)
    ensures r > len + 1 && r >= capacity
    ensures len + 1 < capacity ==> r == capacity
    ensures r <= if capacity > len + 1 then capacity else 2 * (len + 1)
    decreases len + 2 - capacity
  {
    if len + 1 >= capacity then GrownCapacity(len, if capacity != 0 then capacity * 2 else 1) else capacity
  }

  /** arena_realloc of the storage: fresh storage of the new size whose
      first old_size elements are copied from the old storage. */
  method Realloc<T(0)>(old_data: array<T>, old_size: nat, new_size: nat) returns (r: array<T>)
    requires old_size <= old_data.Length && old_size <= new_size
    ensures fresh(r) && r.Length == new_size
    ensures r[..old_size] == old_data[..old_size]
  {
    r := new T[new_size];
    forall k | 0 <= k < old_size {
      r[k] := old_data[k];
    }
  }

  class HeapQueue<T(0)> {
    var data: array<T>
    var len: nat
    var capacity: nat
    const key: T -> int

    ghost predicate Valid()
      reads this, data
    {
      && capacity == data.Length
      && len <= capacity
      && IsHeap(data[..], key, len)
    }

    ghost function Contents(): multiset<T>
      requires len <= data.Length
      reads this, data
    {
      multiset(data[..len])
    }

    /** The queue huffman_write starts from: no storage, no elements. */
    constructor Empty(key: T -> int)
      ensures Valid() && fresh(data) && len == 0 && capacity == 0 && this.key == key
    {
      data := new T[0];
      len := 0;
      capacity := 0;
      this.key := key;
    }

    /** hq_from_array: copies the elements and builds the heap bottom-up,
        calling heapify on n/2 - 1, ..., 0 (no call for fewer than two
        elements, where the start index wraps around). */
    constructor FromArray(elems: seq<T>, key: T -> int)
      requires 0 < |elems| < SIZE_MODULUS
      ensures Valid() && fresh(data)
      ensures len == capacity == |elems| && this.key == key
      ensures Contents() == multiset(elems)
    {
      data := new T[|elems|](k requires 0 <= k < |elems| => elems[k]);
      len := |elems|;
      capacity := |elems|;
      this.key := key;
      new;
      var n := |elems|;
      assert data[..] == elems;
      var half := n / 2;
      HeapFromLeaves(data[..], key, n, half);
      var i: nat := Sub(half, 1);
      ghost var j: nat := half;
      while i < half
        invariant j <= half && i == Sub(j, 1)
        invariant fresh(data) && data.Length == n == len == capacity
        invariant multiset(data[..]) == multiset(elems)
        invariant HeapFrom(data[..], key, n, j)
        decreases j
      {
        SiftDownMends(data[..], key, n, i);
        SiftDownKeeps(data[..], key, n, i);
        HeapifyMin(data, key, n, i);
        j := i;
        i := Sub(i, 1);
      }
      assert data[..len] == data[..];
    }

    /** hq_pop: on an empty queue nothing; otherwise the root is swapped with
        the last element, the rest is sifted down from the root, and the old
        root, now just past the end, is returned. */
    method Pop() returns (r: Option<T>)
      requires Valid()
      modifies this, data
      ensures Valid() && data == old(data) && capacity == old(capacity)
      ensures old(len) == 0 ==> r == None && len == 0 && data[..] == old(data[..])
      ensures old(len) > 0 ==>
        && len == old(len) - 1
        && r == Some(old(data[0]))
        && data[len] == old(data[0])
        && data[..] == SiftDown(Swap(old(data[..]), 0, len), key, len, 0)
        && Contents() + multiset{r.value} == old(Contents())
        && (forall k :: 0 <= k < len ==> key(r.value) <= key(data[k]))
    {
      if len == 0 {
        return None;
      }
      ghost var s := data[..];
      SwapRootDown(data, key, len);
      PopFacts(s, key, len);
      ghost var t := data[..];
      len := len - 1;
      r := Some(data[len]);
      assert IsHeap(t, key, len) && data[..] == t;
      assert multiset(t[..len]) + multiset{s[0]} == multiset(s[..len + 1]);
    }

    /** hq_push: grows the storage until it exceeds len + 1, stores the new
        element after the last one and sifts it up. */
    method Push(elem: T)
      requires Valid()
      modifies this, data
      ensures Valid() && len == old(len) + 1 && len < capacity
      ensures capacity == GrownCapacity(old(len), old(capacity))
      ensures capacity == old(capacity) ==> data == old(data)
      ensures capacity != old(capacity) ==> fresh(data)
      ensures data[..len] == SiftUp(old(data[..len]) + [elem], key, old(len))
      ensures Contents() == old(Contents()) + multiset{elem}
    {
      HeapPrefix(data[..], key, len);
      Grow();
      AppendSiftUp(data, key, len, elem);
      len := len + 1;
    }

    /** The growth loop of hq_push: the capacity is doubled (or set to 1
        when 0) and the storage reallocated until it exceeds len + 1; the
        elements are kept. */
    method Grow()
      requires Valid()
      modifies this
      ensures capacity == data.Length && len == old(len) && len + 1 < capacity
      ensures capacity == GrownCapacity(old(len), old(capacity))
      ensures capacity == old(capacity) ==> data == old(data)
      ensures capacity != old(capacity) ==> fresh(data)
      ensures data[..len] == old(data[..len])
    {
      while len + 1 >= capacity
        invariant capacity == data.Length && len <= capacity
        invariant data[..len] == old(data[..len])
        invariant GrownCapacity(len, capacity) == GrownCapacity(old(len), old(capacity))
        invariant capacity == old(capacity) ==> data == old(data)
        invariant capacity != old(capacity) ==> fresh(data)
        invariant capacity >= old(capacity)
        decreases len + 2 - capacity
      {
        var old_capacity := capacity;
        if capacity != 0 {
          capacity := capacity * 2;
        } else {
          capacity := 1;
        }
        data := Realloc(data, old_capacity, capacity);
      }
    }
  }

  /** What hq_pop's swap and sift-down do to a heap of L elements: the rest
      is a heap again, the old root sits just past it, and the old root is
      no greater than anything left. */
  lemma PopFacts<T>(s: seq<T>, key: T -> int, L: nat)
    requires 0 < L <= |s| && IsHeap(s, key, L)
    ensures var t := SiftDown(Swap(s, 0, L - 1), key, L - 1, 0);
      && IsHeap(t, key, L - 1)
      && t[L - 1] == s[0]
      && multiset(t[..L - 1]) + multiset{s[0]} == multiset(s[..L])
      && (forall k :: 0 <= k < L - 1 ==> key(s[0]) <= key(t[k]))
  {
    var n := L - 1;
    var w := Swap(s, 0, n);
    var t := SiftDown(w, key, n, 0);
    SwapLastHeap(s, key, L);
    SiftDownHeap(w, key, n, 0, 0);
    SiftDownKeeps(w, key, n, 0);
    PrefixMultiset(t, w, n);
    PopMultiset(s, L, w, t);
    forall k | 0 <= k < n
      ensures key(s[0]) <= key(t[k])
    {
      assert t[k] == t[..n][k];
      RootBelowMember(s, key, L, t[k]);
    }
  }

  /** The swap moves the root just past the first L - 1 elements and the
      sift-down only permutes those. */
  lemma PopMultiset<T>(s: seq<T>, L: nat, w: seq<T>, t: seq<T>)
    requires 0 < L <= |s| && w == Swap(s, 0, L - 1)
    requires |t| == |w| && multiset(t[..L - 1]) == multiset(w[..L - 1])
    requires forall k :: L - 1 <= k < |w| ==> t[k] == w[k]
    ensures t[L - 1] == s[0]
    ensures multiset(t[..L - 1]) + multiset{s[0]} == multiset(s[..L])
  {
    var n := L - 1;
    SwapFacts(s, 0, n);
    SwapFacts(s[..n + 1], 0, n);
    assert w[..n + 1] == Swap(s[..n + 1], 0, n);
    assert w[..n + 1] == w[..n] + [s[0]];
  }

  /** The root of a heap is no greater than any element of it, named by value. */
  lemma RootBelowMember<T>(s: seq<T>, key: T -> int, L: nat, x: T)
    requires 0 < L <= |s| && IsHeap(s, key, L) && x in multiset(s[..L])
    ensures key(s[0]) <= key(x)
  {
    assert x in s[..L];
    var j :| 0 <= j < L && s[..L][j] == x;
    RootIsMin(s, key, L, j);
  }

  /** What hq_push's store and sift-up do: with the old heap s in the first
      n slots of t and the new element at slot n, the first n + 1 slots
      after the sift-up are a heap with one more element. */
  lemma PushFacts<T>(t: seq<T>, s: seq<T>, elem: T, key: T -> int, n: nat)
    requires n < |t| && t[..n + 1] == s + [elem] && IsHeap(s, key, n)
    ensures var u := SiftUp(t, key, n);
      && u[..n + 1] == SiftUp(s + [elem], key, n)
      && IsHeap(u, key, n + 1)
      && multiset(u[..n + 1]) == multiset(s) + multiset{elem}
  {
    var u := SiftUp(t, key, n);
    var e := s + [elem];
    SiftUpPrefix(t, key, n, n + 1);
    assert t[..n + 1] == e;
    var v := SiftUp(e, key, n);
    assert u[..n + 1] == v;
    assert IsHeap(e, key, n) by {
      forall c | 0 < c < n
        ensures key(e[Parent(c)]) <= key(e[c])
      {
      }
    }
    AppendedHeap(e, key, n);
    SiftUpHeap(e, key, n + 1, n);
    SiftUpKeeps(e, key, n);
    assert IsHeap(u[..n + 1], key, n + 1);
    HeapPrefix(u, key, n + 1);
    assert multiset(e) == multiset(s) + multiset{elem};
  }

  /** The heap property of the first n slots depends on them alone. */
  lemma HeapPrefix<T>(s: seq<T>, key: T -> int, n: nat)
    requires n <= |s|
    ensures IsHeap(s[..n], key, n) <==> IsHeap(s, key, n)
  {
    forall c | 0 < c < n
      ensures s[..n][c] == s[c] && s[..n][Parent(c)] == s[Parent(c)]
    {
    }
  }
}
