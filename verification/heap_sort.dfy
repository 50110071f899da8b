/** The sorts of hs.h. heapsort is the classic in-place heap sort on a
    max-heap built by heapify, a max sift-down; heapifysort2 and
    heapifysort_impl are built from the min-heap routines of s.h. As in s.h,
    every write_cb(i) call is one entry of the returned log, and a max-heap
    under key is a min-heap under Neg(key). */
module HeapSort {
  import opened Heaps
  import opened SizeT
  import opened MinHeapify

  /** heapify: the max sift-down. The child that compares GreaterThan the
      choice so far (left first) becomes the new maximum; on a swap slot i
      and the maximum are reported and the sift goes on from there. This is
      the sift-down of a min-heap under the negated key. */
  method Heapify<T>(a: array<T>, key: T -> int, n: nat, i: nat) returns (log: seq<int>)
    requires n <= a.Length && i < n
    modifies a
    ensures a[..] == SiftDown(old(a[..]), Neg(key), n, i)
    ensures log == SiftLog(old(a[..]), Neg(key), n, i)
    decreases n - i
  {
    ghost var s := a[..];
    var maximum := i;
    var right := 2 * i + 2;
    var left := 2 * i + 1;
    if left < n && Compare(key(a[left]), key(a[maximum])) == GreaterThan {
      maximum := left;
    }
    if right < n && Compare(key(a[right]), key(a[maximum])) == GreaterThan {
      maximum := right;
    }
    assert maximum == MinChild(s, Neg(key), n, i);
    if maximum != i {
      MemSwap(a, i, maximum);
      ghost var t := a[..];
      assert t == Swap(s, i, maximum);
      var rest := Heapify(a, key, n, maximum);
      SiftStep(s, Neg(key), n, i);
      log := [i, maximum] + rest;
    } else {
      log := [];
    }
  }

  /** The extraction loop of heapsort from slot i down to slot 1: the root
      (the maximum of the first i + 1 slots) is swapped to slot i and the new
      root is sifted down within the first i slots. */
  function Extract<T>(s: seq<T>, key: T -> int, i: nat): (r: seq<T>)
    requires i < |s|
    ensures |r| == |s|
    decreases i
  {
    if i == 0 then s else Extract(SiftDown(Swap(s, 0, i), Neg(key), i, 0), key, i - 1)
  }

  /** The reports of the extraction loop: 0 and i for the swap, then those
      of the sift-down. */
  function ExtractLog<T>(s: seq<T>, key: T -> int, i: nat): seq<int>
    requires i < |s|
    decreases i
  {
    if i == 0 then []
    else [0, i] + SiftLog(Swap(s, 0, i), Neg(key), i, 0) + ExtractLog(SiftDown(Swap(s, 0, i), Neg(key), i, 0), key, i - 1)
  }

  /** What heapsort leaves in the array: the build loop of heapify calls,
      then the extraction loop from the last slot. */
  function HeapSorted<T>(s: seq<T>, key: T -> int): (r: seq<T>)
    requires |s| >= 1
    ensures |r| == |s|
  {
    Extract(Build(s, Neg(key), |s|), key, |s| - 1)
  }

  /** What heapsort reports, build loop first. */
  function HeapSortLog<T>(s: seq<T>, key: T -> int): seq<int>
    requires |s| >= 1
  {
    BuildLog(s, Neg(key), |s|, |s| / 2) + ExtractLog(Build(s, Neg(key), |s|), key, |s| - 1)
  }

  /** One turn of a build loop over a sequence of its own keeps the loop's
      remaining-work invariant. */
  lemma BuildTurnSeq<T>(s0: seq<T>, s: seq<T>, key: T -> int, n: nat, i: nat, done: seq<int>)
    requires n <= |s0| && |s| == |s0| && i < n / 2
    requires BuildFrom(s, key, n, i + 1) == BuildFrom(s0, key, n, n / 2)
    requires done + BuildLog(s, key, n, i + 1) == BuildLog(s0, key, n, n / 2)
    ensures BuildFrom(SiftDown(s, key, n, i), key, n, i) == BuildFrom(s0, key, n, n / 2)
    ensures (done + SiftLog(s, key, n, i)) + BuildLog(SiftDown(s, key, n, i), key, n, i)
         == BuildLog(s0, key, n, n / 2)
  {
    var t := SiftDown(s, key, n, i);
    assert BuildFrom(s, key, n, i + 1) == BuildFrom(t, key, n, i);
    assert BuildLog(s, key, n, i + 1) == SiftLog(s, key, n, i) + BuildLog(t, key, n, i);
    Assoc(done, SiftLog(s, key, n, i), BuildLog(t, key, n, i));
  }

  /** One turn of the extraction loop keeps its remaining-work invariant. */
  lemma ExtractTurn<T>(s: seq<T>, key: T -> int, i: nat, done: seq<int>, want: seq<T>, wantLog: seq<int>)
    requires 0 < i < |s|
    requires Extract(s, key, i) == want && done + ExtractLog(s, key, i) == wantLog
    ensures var w := Swap(s, 0, i);
      && Extract(SiftDown(w, Neg(key), i, 0), key, i - 1) == want
      && ((done + [0, i]) + SiftLog(w, Neg(key), i, 0)) + ExtractLog(SiftDown(w, Neg(key), i, 0), key, i - 1) == wantLog
  {
    var w := Swap(s, 0, i);
    var x := SiftLog(w, Neg(key), i, 0);
    var y := ExtractLog(SiftDown(w, Neg(key), i, 0), key, i - 1);
    assert ExtractLog(s, key, i) == [0, i] + x + y;
    Assoc(done, [0, i], x);
    Assoc(done + [0, i], x, y);
    Assoc(done, [0, i] + x, y);
  }

  /** heapsort: builds a max-heap with heapify on slots n/2 - 1 down to 0,
      then for i from n - 1 down to 1 swaps the root into slot i, reports 0
      and i, and sifts the new root down within the first i slots. The
      count-down of the second loop starts at n - 1 on size_t, which wraps
      around for an empty array, so the array must not be empty. */
  method HeapSort<T>(a: array<T>, key: T -> int) returns (log: seq<int>)
    requires 1 <= a.Length < SIZE_MODULUS
    modifies a
    ensures a[..] == HeapSorted(old(a[..]), key)
    ensures log == HeapSortLog(old(a[..]), key)
  {
    ghost var s0 := a[..];
    var n := a.Length;
    log := [];
    var half := n / 2;
    var i: nat := Sub(half, 1);
    ghost var j: nat := half;
    while i < half
      invariant j <= half && i == Sub(j, 1)
      invariant BuildFrom(a[..], Neg(key), n, j) == BuildFrom(s0, Neg(key), n, half)
      invariant log + BuildLog(a[..], Neg(key), n, j) == BuildLog(s0, Neg(key), n, half)
      decreases j
    {
      assert j == i + 1;
      BuildTurnSeq(s0, a[..], Neg(key), n, i, log);
      var step := Heapify(a, key, n, i);
      log := log + step;
      j := i;
      i := Sub(i, 1);
    }
    assert j == 0;
    assert a[..] == Build(s0, Neg(key), n);
    assert log == BuildLog(s0, Neg(key), n, half);
    ghost var want := HeapSorted(s0, key);
    ghost var wantLog := HeapSortLog(s0, key);
    var k: nat := Sub(n, 1);
    while k > 0
      invariant k < n == a.Length
      invariant Extract(a[..], key, k) == want
      invariant log + ExtractLog(a[..], key, k) == wantLog
      decreases k
    {
      ghost var s := a[..];
      ExtractTurn(s, key, k, log, want, wantLog);
      MemSwap(a, 0, k);
      log := log + [0, k];
      var step := Heapify(a, key, k, 0);
      log := log + step;
      k := k - 1;
    }
  }

  /** Slots from lo on are in ascending key order. */
  ghost predicate SortedFrom<T>(s: seq<T>, key: T -> int, lo: nat)
  {
    forall p, q :: lo <= p < q < |s| ==> key(s[p]) <= key(s[q])
  }

  /** No slot up to k has a greater key than a slot after k. */
  ghost predicate Below<T>(s: seq<T>, key: T -> int, k: nat)
  {
    forall p, q :: 0 <= p <= k < q < |s| ==> key(s[p]) <= key(s[q])
  }

  /** The invariant of the extraction loop at i: a max-heap in the first
      i + 1 slots, sorted slots after i, none of them smaller than a slot of
      the heap. */
  ghost predicate ExtractInv<T>(s: seq<T>, key: T -> int, i: nat)
  {
    i < |s| && IsHeap(s, Neg(key), i + 1) && SortedFrom(s, key, i + 1) && Below(s, key, i)
  }

  /** The root of a max-heap has the greatest key. */
  lemma RootIsMax<T>(s: seq<T>, key: T -> int, n: nat, k: nat)
    requires n <= |s| && k < n && IsHeap(s, Neg(key), n)
    ensures key(s[k]) <= key(s[0])
  {
    RootIsMin(s, Neg(key), n, k);
  }

  /** A value no smaller than every slot of v is no smaller than anything
      v holds. */
  lemma MemberBelow<T>(v: seq<T>, key: T -> int, x: T, bound: int)
    requires forall j :: 0 <= j < |v| ==> key(v[j]) <= bound
    requires x in multiset(v)
    ensures key(x) <= bound
  {
    assert x in v;
  }

  /** A value no greater than every slot of v is no greater than anything v
      holds. */
  lemma MemberAbove<T>(v: seq<T>, key: T -> int, x: T, bound: int)
    requires forall j :: 0 <= j < |v| ==> bound <= key(v[j])
    requires x in multiset(v)
    ensures bound <= key(x)
  {
    assert x in v;
  }

  /** The swap and sift-down of one extraction turn leave a max-heap one
      slot shorter. */
  lemma ExtractHeap<T>(s: seq<T>, key: T -> int, i: nat)
    requires 0 < i < |s| && IsHeap(s, Neg(key), i + 1)
    ensures IsHeap(SiftDown(Swap(s, 0, i), Neg(key), i, 0), Neg(key), i)
  {
    SwapLastHeap(s, Neg(key), i + 1);
    SiftDownHeap(Swap(s, 0, i), Neg(key), i, 0, 0);
  }

  /** Swapping the root of the heap into slot i puts the greatest key of
      the heap there: the first i slots are below it and everything from i
      on, and the slots from i on are sorted. */
  lemma SwapRootBelow<T>(s: seq<T>, key: T -> int, i: nat)
    requires 0 < i && ExtractInv(s, key, i)
    ensures var w := Swap(s, 0, i);
      Below(w, key, i - 1) && SortedFrom(w, key, i)
  {
    var w := Swap(s, 0, i);
    SwapFacts(s, 0, i);
    forall p, q | 0 <= p <= i - 1 < q < |s|
      ensures key(w[p]) <= key(w[q])
    {
      var x := if p == 0 then i else p;
      assert w[p] == s[x];
      RootIsMax(s, key, i + 1, x);
      if q > i {
        assert w[q] == s[q];
      }
    }
    forall p, q | i <= p < q < |s|
      ensures key(w[p]) <= key(w[q])
    {
      assert w[q] == s[q];
    }
  }

  /** Permuting the first i slots keeps them below the rest and keeps the
      rest sorted. */
  lemma PermPrefix<T>(w: seq<T>, t: seq<T>, key: T -> int, i: nat)
    requires 0 < i <= |w| == |t| && multiset(t[..i]) == multiset(w[..i])
    requires forall q :: i <= q < |w| ==> t[q] == w[q]
    requires Below(w, key, i - 1) && SortedFrom(w, key, i)
    ensures Below(t, key, i - 1) && SortedFrom(t, key, i)
  {
    forall p, q | 0 <= p <= i - 1 < q < |t|
      ensures key(t[p]) <= key(t[q])
    {
      assert t[p] == t[..i][p];
      forall x | 0 <= x < i
        ensures key(w[..i][x]) <= key(t[q])
      {
        assert w[..i][x] == w[x] && t[q] == w[q];
      }
      MemberBelow(w[..i], key, t[p], key(t[q]));
    }
    forall p, q | i <= p < q < |t|
      ensures key(t[p]) <= key(t[q])
    {
      assert t[p] == w[p] && t[q] == w[q];
    }
  }

  /** One turn of the extraction loop keeps its invariant and the elements. */
  lemma ExtractStep<T>(s: seq<T>, key: T -> int, i: nat)
    requires 0 < i && ExtractInv(s, key, i)
    ensures var t := SiftDown(Swap(s, 0, i), Neg(key), i, 0);
      ExtractInv(t, key, i - 1) && multiset(t) == multiset(s)
  {
    var w := Swap(s, 0, i);
    var t := SiftDown(w, Neg(key), i, 0);
    ExtractHeap(s, key, i);
    SwapRootBelow(s, key, i);
    SwapFacts(s, 0, i);
    SiftDownKeeps(w, Neg(key), i, 0);
    PrefixMultiset(t, w, i);
    PermPrefix(w, t, key, i);
  }

  /** The extraction loop from an invariant state sorts the elements. */
  lemma {:induction false} ExtractSorts<T>(s: seq<T>, key: T -> int, i: nat)
    requires ExtractInv(s, key, i)
    ensures SortedBy(Extract(s, key, i), key) && multiset(Extract(s, key, i)) == multiset(s)
    decreases i
  {
    if i > 0 {
      ExtractStep(s, key, i);
      ExtractSorts(SiftDown(Swap(s, 0, i), Neg(key), i, 0), key, i - 1);
    }
  }

  /** After its build loop heapsort holds a max-heap of the same elements:
      no slot has a greater key than its parent. */
  lemma BuildMaxHeap<T>(s: seq<T>, key: T -> int)
    ensures var b := Build(s, Neg(key), |s|);
      && (forall c :: 0 < c < |s| ==> key(b[c]) <= key(b[Parent(c)]))
      && multiset(b) == multiset(s)
  {
    var n := |s|;
    var b := Build(s, Neg(key), n);
    BuildHeap(s, Neg(key), n);
    assert b[..n] == b && s[..n] == s;
    forall c | 0 < c < n
      ensures key(b[c]) <= key(b[Parent(c)])
    {
      assert Neg(key)(b[Parent(c)]) <= Neg(key)(b[c]);
    }
  }

  /** heapsort leaves an ascending permutation of its input. */
  lemma HeapSortSorts<T>(s: seq<T>, key: T -> int)
    requires |s| >= 1
    ensures SortedBy(HeapSorted(s, key), key)
    ensures multiset(HeapSorted(s, key)) == multiset(s)
  {
    var n := |s|;
    var b := Build(s, Neg(key), n);
    BuildHeap(s, Neg(key), n);
    assert b[..n] == b && s[..n] == s;
    assert ExtractInv(b, key, n - 1);
    ExtractSorts(b, key, n - 1);
  }

  /** The loop of heapifysort2 from slot i on: heapify_min_all on the
      window of slots i, ..., n - 1, then on the window one slot shorter. */
  function MinSelect<T>(s: seq<T>, key: T -> int, i: nat): (r: seq<T>)
    requires i <= |s|
    ensures |r| == |s|
    decreases |s| - i
  {
    if i == |s| then s
    else MinSelect(BuildFromAt(s, key, i, |s| - i, (|s| - i) / 2), key, i + 1)
  }

  /** What heapifysort2 reports: the reports of each heapify_min_all call,
      counted from the start of its window. */
  function MinSelectLog<T>(s: seq<T>, key: T -> int, i: nat): seq<int>
    requires i <= |s|
    decreases |s| - i
  {
    if i == |s| then [] else
      var t := BuildFromAt(s, key, i, |s| - i, (|s| - i) / 2);
      BuildLogAt(s, key, i, |s| - i, (|s| - i) / 2) + MinSelectLog(t, key, i + 1)
  }

  /** heapifysort2: for i from 0 up to n - 1, heapify_min_all on the
      elements from slot i on. */
  method HeapifySort2<T>(a: array<T>, key: T -> int) returns (log: seq<int>)
    requires a.Length < SIZE_MODULUS
    modifies a
    ensures a[..] == MinSelect(old(a[..]), key, 0)
    ensures log == MinSelectLog(old(a[..]), key, 0)
  {
    ghost var want := MinSelect(a[..], key, 0);
    ghost var wantLog := MinSelectLog(a[..], key, 0);
    var n := a.Length;
    log := [];
    var i := 0;
    while i < n
      invariant i <= n == a.Length
      invariant MinSelect(a[..], key, i) == want
      invariant log + MinSelectLog(a[..], key, i) == wantLog
    {
      ghost var s := a[..];
      SelectTurn(s, key, i, log);
      var step := HeapifyMinAll(a, key, i, n - i);
      log := log + step;
      i := i + 1;
    }
  }

  /** One turn of heapifysort2's loop keeps its remaining-work invariant. */
  lemma SelectTurn<T>(s: seq<T>, key: T -> int, i: nat, done: seq<int>)
    requires i < |s|
    ensures var t := BuildFromAt(s, key, i, |s| - i, (|s| - i) / 2);
      && MinSelect(t, key, i + 1) == MinSelect(s, key, i)
      && (done + BuildLogAt(s, key, i, |s| - i, (|s| - i) / 2)) + MinSelectLog(t, key, i + 1)
         == done + MinSelectLog(s, key, i)
  {
    var t := BuildFromAt(s, key, i, |s| - i, (|s| - i) / 2);
    var x := BuildLogAt(s, key, i, |s| - i, (|s| - i) / 2);
    var y := MinSelectLog(t, key, i + 1);
    assert MinSelectLog(s, key, i) == x + y;
    Assoc(done, x, y);
  }

  /** The invariant of heapifysort2's loop at i: the first i slots are
      sorted and none of them has a greater key than a later slot. */
  ghost predicate SelectInv<T>(s: seq<T>, key: T -> int, i: nat)
  {
    i <= |s| && SortedBy(s[..i], key) && (forall p, q :: 0 <= p < i <= q < |s| ==> key(s[p]) <= key(s[q]))
  }

  /** After the call for slot i, slot i holds the smallest key of slots i
      to n - 1, the first i slots are unchanged and the elements are kept. */
  lemma SelectStepMin<T>(s: seq<T>, key: T -> int, i: nat)
    requires i < |s|
    ensures var t := BuildFromAt(s, key, i, |s| - i, (|s| - i) / 2);
      && (forall q :: i <= q < |s| ==> key(t[i]) <= key(t[q]))
      && t[..i] == s[..i]
      && multiset(t[i..]) == multiset(s[i..])
  {
    var n := |s| - i;
    var t := BuildFromAt(s, key, i, n, n / 2);
    BuildInHeap(s, key, i, n);
    var w := Window(t, i, n);
    assert w == t[i..] && Window(s, i, n) == s[i..];
    forall q | i <= q < |s|
      ensures key(t[i]) <= key(t[q])
    {
      RootIsMin(w, key, n, q - i);
    }
  }

  /** After the call for slot i the first i slots are still below every
      later slot: those now hold the same elements as before. */
  lemma SelectBelow<T>(s: seq<T>, key: T -> int, i: nat)
    requires i < |s| && SelectInv(s, key, i)
    ensures var t := BuildFromAt(s, key, i, |s| - i, (|s| - i) / 2);
      forall p, q :: 0 <= p < i <= q < |s| ==> key(t[p]) <= key(t[q])
  {
    var t := BuildFromAt(s, key, i, |s| - i, (|s| - i) / 2);
    SelectStepMin(s, key, i);
    forall p, q | 0 <= p < i <= q < |s|
      ensures key(t[p]) <= key(t[q])
    {
      assert t[p] == s[..i][p] == s[p];
      assert t[q] == t[i..][q - i];
      forall x | 0 <= x < |s| - i
        ensures key(s[p]) <= key(s[i..][x])
      {
        assert s[i..][x] == s[i + x];
      }
      MemberAbove(s[i..], key, t[q], key(s[p]));
    }
  }

  /** A sorted prefix followed by a slot no smaller than any of it is a
      sorted prefix one longer. */
  lemma SortedExtend<T>(t: seq<T>, key: T -> int, i: nat)
    requires i < |t| && SortedBy(t[..i], key)
    requires forall p :: 0 <= p < i ==> key(t[p]) <= key(t[i])
    ensures SortedBy(t[..i + 1], key)
  {
    var u := t[..i + 1];
    forall p, q | 0 <= p < q < |u|
      ensures key(u[p]) <= key(u[q])
    {
      if q < i {
        assert u[p] == t[..i][p] && u[q] == t[..i][q];
      } else {
        assert u[p] == t[p] && u[q] == t[i];
      }
    }
  }

  /** Sequences with the same first i slots and the same elements after
      them have the same elements. */
  lemma SameHeadMultiset<T>(s: seq<T>, t: seq<T>, i: nat)
    requires i <= |s| && i <= |t| && t[..i] == s[..i] && multiset(t[i..]) == multiset(s[i..])
    ensures multiset(t) == multiset(s)
  {
    assert s == s[..i] + s[i..] && t == t[..i] + t[i..];
  }

  /** One turn of heapifysort2's loop keeps its invariant and the elements. */
  lemma SelectStep<T>(s: seq<T>, key: T -> int, i: nat)
    requires i < |s| && SelectInv(s, key, i)
    ensures var t := BuildFromAt(s, key, i, |s| - i, (|s| - i) / 2);
      SelectInv(t, key, i + 1) && multiset(t) == multiset(s)
  {
    var t := BuildFromAt(s, key, i, |s| - i, (|s| - i) / 2);
    SelectStepMin(s, key, i);
    SelectBelow(s, key, i);
    SameHeadMultiset(s, t, i);
    SortedExtend(t, key, i);
  }

  /** heapifysort2's loop from an invariant state sorts the elements. */
  lemma {:induction false} MinSelectSorts<T>(s: seq<T>, key: T -> int, i: nat)
    requires SelectInv(s, key, i)
    ensures SortedBy(MinSelect(s, key, i), key) && multiset(MinSelect(s, key, i)) == multiset(s)
    decreases |s| - i
  {
    if i < |s| {
      SelectStep(s, key, i);
      MinSelectSorts(BuildFromAt(s, key, i, |s| - i, (|s| - i) / 2), key, i + 1);
    } else {
      assert s[..i] == s;
    }
  }

  /** heapifysort2 leaves an ascending permutation of its input. */
  lemma HeapifySort2Sorts<T>(s: seq<T>, key: T -> int)
    ensures SortedBy(MinSelect(s, key, 0), key)
    ensures multiset(MinSelect(s, key, 0)) == multiset(s)
  {
    MinSelectSorts(s, key, 0);
  }

  /** A window of a heapifysort_impl call: len slots starting at slot off
      of the array whose slot 0 is base. */
  datatype Span = Span(off: nat, len: nat)

  /** The first half of a window: elem_len / 2 slots at elems. */
  function Lower(w: Span): (r: Span)
    ensures r.off == w.off && r.len <= w.len && (w.len > 1 ==> r.len < w.len)
  {
    Span(w.off, w.len / 2)
  }

  /** The rest of a window, after its first half. */
  function Upper(w: Span): (r: Span)
    ensures r.off == w.off + Lower(w).len && r.off + r.len == w.off + w.len
    ensures w.len > 1 ==> r.len < w.len
  {
    Span(w.off + w.len / 2, w.len - w.len / 2)
  }

  /** What heapifysort_impl does to the window w: nothing when it holds at
      most one slot; otherwise heapify_min_all2 on the window, the same on
      its first half and on the rest, and heapify_min_all2 on the window
      again. */
  function SplitSort<T>(s: seq<T>, key: T -> int, w: Span): (r: seq<T>)
    requires w.off + w.len <= |s|
    ensures |r| == |s|
    decreases w.len
  {
    if w.len <= 1 then s else
      var s1 := BuildFromAt(s, key, w.off, w.len, w.len / 2);
      var s2 := SplitSort(s1, key, Lower(w));
      var s3 := SplitSort(s2, key, Upper(w));
      BuildFromAt(s3, key, w.off, w.len, w.len / 2)
  }

  /** What heapifysort_impl reports, indices counted from base. */
  function SplitSortLog<T>(s: seq<T>, key: T -> int, w: Span): seq<int>
    requires w.off + w.len <= |s|
    decreases w.len
  {
    if w.len <= 1 then [] else
      var s1 := BuildFromAt(s, key, w.off, w.len, w.len / 2);
      var s2 := SplitSort(s1, key, Lower(w));
      var s3 := SplitSort(s2, key, Upper(w));
      Shift(BuildLogAt(s, key, w.off, w.len, w.len / 2), w.off) + SplitSortLog(s1, key, Lower(w))
        + SplitSortLog(s2, key, Upper(w)) + Shift(BuildLogAt(s3, key, w.off, w.len, w.len / 2), w.off)
  }

  /** One level of SplitSort and SplitSortLog on the window of n slots at
      off, spelled out: the window splits into middle slots at off and rest
      slots at upper; s1 is the first heapify_min_all2, s2 and s3 the two
      halves sorted in turn. */
  lemma SplitSortStep<T>(s: seq<T>, key: T -> int, off: nat, n: nat, middle: nat, upper: nat, rest: nat,
                         s1: seq<T>, s2: seq<T>, s3: seq<T>)
    requires off + n <= |s| && n > 1
    requires middle == n / 2 && upper == off + middle && rest == n - middle
    requires s1 == BuildFromAt(s, key, off, n, n / 2)
    requires s2 == SplitSort(s1, key, Span(off, middle))
    requires s3 == SplitSort(s2, key, Span(upper, rest))
    ensures SplitSort(s, key, Span(off, n)) == BuildFromAt(s3, key, off, n, n / 2)
    ensures SplitSortLog(s, key, Span(off, n))
         == Shift(BuildLogAt(s, key, off, n, n / 2), off) + SplitSortLog(s1, key, Span(off, middle))
            + SplitSortLog(s2, key, Span(upper, rest)) + Shift(BuildLogAt(s3, key, off, n, n / 2), off)
  {
    var w := Span(off, n);
    assert Lower(w) == Span(off, middle) && Upper(w) == Span(upper, rest);
  }

  /** heapifysort_impl on the elem_len elements at elems, slot off of the
      array whose slot 0 is base. */
  method HeapifySortImpl<T>(a: array<T>, key: T -> int, off: nat, n: nat) returns (log: seq<int>)
    requires off + n <= a.Length && n < SIZE_MODULUS
    modifies a
    ensures a[..] == SplitSort(old(a[..]), key, Span(off, n))
    ensures log == SplitSortLog(old(a[..]), key, Span(off, n))
    decreases n
  {
    if n <= 1 {
      return [];
    }
    ghost var s := a[..];
    var l1 := HeapifyMinAll2(a, key, off, n);
    ghost var s1 := a[..];
    var middle := n / 2;
    var l2 := HeapifySortImpl(a, key, off, middle);
    ghost var s2 := a[..];
    var upper, rest := off + middle, n - middle;
    var l3 := HeapifySortImpl(a, key, upper, rest);
    ghost var s3 := a[..];
    var l4 := HeapifyMinAll2(a, key, off, n);
    log := l1 + l2 + l3 + l4;
    SplitSortStep(s, key, off, n, middle, upper, rest, s1, s2, s3);
  }

  /** Two sequences that agree outside a window have the same elements
      exactly when their windows do. */
  lemma OutsideMultiset<T>(s: seq<T>, t: seq<T>, off: nat, n: nat)
    requires off + n <= |s| == |t| && t[..off] == s[..off] && t[off + n..] == s[off + n..]
    ensures multiset(t) == multiset(s) <==> multiset(Window(t, off, n)) == multiset(Window(s, off, n))
  {
    var head, tail := s[..off], s[off + n..];
    var ws, wt := Window(s, off, n), Window(t, off, n);
    assert s == head + ws + tail;
    assert t == head + wt + tail;
    var ms, mt := multiset(s), multiset(t);
    assert ms == multiset(head) + multiset(ws) + multiset(tail);
    assert mt == multiset(head) + multiset(wt) + multiset(tail);
    if mt == ms {
      forall e
        ensures multiset(wt)[e] == multiset(ws)[e]
      {
        assert mt[e] == ms[e];
      }
    }
  }

  /** The slots outside the window of n slots at off are the same in s
      and t. */
  ghost predicate SameOutside<T>(s: seq<T>, t: seq<T>, off: nat, n: nat)
  {
    |t| == |s| && forall k :: 0 <= k < |s| && (k < off || off + n <= k) ==> t[k] == s[k]
  }

  /** Two steps that each keep the slots outside a window inside the
      window of n slots at off keep the slots outside it. */
  lemma SameOutsideTrans<T>(s: seq<T>, t: seq<T>, u: seq<T>, off: nat, n: nat, o1: nat, n1: nat, o2: nat, n2: nat)
    requires off <= o1 && o1 + n1 <= off + n && off <= o2 && o2 + n2 <= off + n
    requires SameOutside(s, t, o1, n1) && SameOutside(t, u, o2, n2)
    ensures SameOutside(s, u, off, n)
  {
  }

  /** Agreeing outside the window in slices is agreeing slot by slot. */
  lemma SameOutsideSlices<T>(s: seq<T>, t: seq<T>, off: nat, n: nat)
    requires off + n <= |s| == |t|
    ensures SameOutside(s, t, off, n) <==> t[..off] == s[..off] && t[off + n..] == s[off + n..]
  {
    if t[..off] == s[..off] && t[off + n..] == s[off + n..] {
      forall k | 0 <= k < |s| && (k < off || off + n <= k)
        ensures t[k] == s[k]
      {
        if k < off {
          assert t[k] == t[..off][k];
        } else {
          assert t[k] == t[off + n..][k - off - n];
        }
      }
    }
  }

  /** heapify_min_all2 on a window keeps the elements and the slots outside
      the window. */
  lemma BuildKeeps<T>(s: seq<T>, key: T -> int, off: nat, n: nat)
    requires off + n <= |s|
    ensures var r := BuildFromAt(s, key, off, n, n / 2);
      multiset(r) == multiset(s) && SameOutside(s, r, off, n)
  {
    var r := BuildFromAt(s, key, off, n, n / 2);
    BuildInHeap(s, key, off, n);
    OutsideMultiset(s, r, off, n);
    SameOutsideSlices(s, r, off, n);
  }

  /** The four steps of heapifysort_impl, each keeping the elements and the
      slots outside its window, keep them together. */
  lemma KeepsChain<T>(s: seq<T>, s1: seq<T>, s2: seq<T>, s3: seq<T>, r: seq<T>, w: Span)
    requires multiset(s1) == multiset(s) && SameOutside(s, s1, w.off, w.len)
    requires multiset(s2) == multiset(s1) && SameOutside(s1, s2, Lower(w).off, Lower(w).len)
    requires multiset(s3) == multiset(s2) && SameOutside(s2, s3, Upper(w).off, Upper(w).len)
    requires multiset(r) == multiset(s3) && SameOutside(s3, r, w.off, w.len)
    ensures multiset(r) == multiset(s) && SameOutside(s, r, w.off, w.len)
  {
    var lo, hi := Lower(w), Upper(w);
    SameOutsideTrans(s, s1, s2, w.off, w.len, w.off, w.len, lo.off, lo.len);
    SameOutsideTrans(s, s2, s3, w.off, w.len, w.off, w.len, hi.off, hi.len);
    SameOutsideTrans(s, s3, r, w.off, w.len, w.off, w.len, w.off, w.len);
  }

  /** heapifysort_impl keeps the elements and the slots outside its window. */
  lemma {:induction false} SplitSortKeeps<T>(s: seq<T>, key: T -> int, w: Span)
    requires w.off + w.len <= |s|
    ensures var r := SplitSort(s, key, w);
      multiset(r) == multiset(s) && SameOutside(s, r, w.off, w.len)
    decreases w.len
  {
    if w.len > 1 {
      var s1 := BuildFromAt(s, key, w.off, w.len, w.len / 2);
      var s2 := SplitSort(s1, key, Lower(w));
      var s3 := SplitSort(s2, key, Upper(w));
      var r := BuildFromAt(s3, key, w.off, w.len, w.len / 2);
      BuildKeeps(s, key, w.off, w.len);
      SplitSortKeeps(s1, key, Lower(w));
      SplitSortKeeps(s2, key, Upper(w));
      BuildKeeps(s3, key, w.off, w.len);
      KeepsChain(s, s1, s2, s3, r, w);
    }
  }

  /** heapifysort_impl leaves its window alone when it holds at most one
      element, and otherwise a min-heap of the window's elements; the slots
      outside the window are unchanged. */
  lemma SplitSortHeap<T>(s: seq<T>, key: T -> int, off: nat, n: nat)
    requires off + n <= |s|
    ensures var r := SplitSort(s, key, Span(off, n));
      && (n <= 1 ==> r == s)
      && (n > 1 ==> IsHeap(Window(r, off, n), key, n))
      && multiset(Window(r, off, n)) == multiset(Window(s, off, n))
      && r[..off] == s[..off] && r[off + n..] == s[off + n..]
  {
    var w := Span(off, n);
    var r := SplitSort(s, key, w);
    if n > 1 {
      var s1 := BuildFromAt(s, key, off, n, n / 2);
      var s2 := SplitSort(s1, key, Lower(w));
      var s3 := SplitSort(s2, key, Upper(w));
      assert r == BuildFromAt(s3, key, off, n, n / 2);
      BuildInHeap(s3, key, off, n);
    }
    SplitSortKeeps(s, key, w);
    SameOutsideSlices(s, r, off, n);
    OutsideMultiset(s, r, off, n);
  }
}
