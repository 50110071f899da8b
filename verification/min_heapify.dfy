/** The in-place min-heap routines of s.h. They work on the elem_len
    elements that start at `elems`; here that range is the window of n
    slots starting at `off` in the array a, whose slot 0 is the `base`
    pointer of the "2" variants. Each write_cb(i) call is one entry of the
    returned log. The routines are specified by in-place functions on the
    whole array (SiftDownAt, BuildFromAt), which are then shown to do to
    the window exactly what SiftDown and BuildFrom of the Heaps module do
    to a sequence of its own, and nothing outside it. */
module MinHeapify {
  import opened Heaps
  import opened SizeT

  /** mem_swap: exchanges elements i and j through the temporary. */
  method MemSwap<T>(a: array<T>, i: nat, j: nat)
    requires i < a.Length && j < a.Length
    modifies a
    ensures a[..] == Swap(old(a[..]), i, j)
  {
    var tmp := a[i];
    a[i] := a[j];
    a[j] := tmp;
  }

  /** heapify_min's choice on the window: slot i, unless a child within the
      window is strictly smaller; the right child is compared with the
      choice so far. Indices are counted from off. */
  function MinChildAt<T>(s: seq<T>, key: T -> int, off: nat, n: nat, i: nat): (m: nat)
    requires off + n <= |s| && i < n
    ensures m == i || (IsChild(i, m) && m < n)
  {
    var left := 2 * i + 1;
    var right := 2 * i + 2;
    var m0 := if left < n && key(s[off + left]) < key(s[off + i]) then left else i;
    if right < n && key(s[off + right]) < key(s[off + m0]) then right else m0
  }

  /** The sift-down of heapify_min applied in place to the window. */
  function SiftDownAt<T>(s: seq<T>, key: T -> int, off: nat, n: nat, i: nat): (r: seq<T>)
    requires off + n <= |s| && i < n
    ensures |r| == |s|
    decreases n - i
  {
    var m := MinChildAt(s, key, off, n, i);
    if m == i then s else SiftDownAt(Swap(s, off + i, off + m), key, off, n, m)
  }

  /** The write_cb reports of that sift-down, counted from off. */
  function SiftLogAt<T>(s: seq<T>, key: T -> int, off: nat, n: nat, i: nat): seq<int>
    requires off + n <= |s| && i < n
    decreases n - i
  {
    var m := MinChildAt(s, key, off, n, i);
    if m == i then [] else [i, m] + SiftLogAt(Swap(s, off + i, off + m), key, off, n, m)
  }

  /** One swap of the in-place sift-down: after exchanging slot i with the
      chosen child m, the rest of the sift-down and of its reports starts
      at m. */
  lemma SiftDownAtStep<T>(s: seq<T>, t: seq<T>, key: T -> int, off: nat, n: nat, i: nat, m: nat)
    requires off + n <= |s| && i < n && m == MinChildAt(s, key, off, n, i) && m != i
    requires t == Swap(s, off + i, off + m)
    ensures SiftDownAt(s, key, off, n, i) == SiftDownAt(t, key, off, n, m)
    ensures SiftLogAt(s, key, off, n, i) == [i, m] + SiftLogAt(t, key, off, n, m)
  {
    var rest := SiftLogAt(t, key, off, n, m);
    assert SiftLogAt(s, key, off, n, i) == [i, m] + rest;
  }

  /** The build loop after its calls for slots j-1, ..., 0 of the window. */
  function BuildFromAt<T>(s: seq<T>, key: T -> int, off: nat, n: nat, j: nat): (r: seq<T>)
    requires off + n <= |s| && j <= n
    ensures |r| == |s|
    decreases j
  {
    if j == 0 then s else BuildFromAt(SiftDownAt(s, key, off, n, j - 1), key, off, n, j - 1)
  }

  /** The write_cb reports of those calls, in order. */
  function BuildLogAt<T>(s: seq<T>, key: T -> int, off: nat, n: nat, j: nat): seq<int>
    requires off + n <= |s| && j <= n
    decreases j
  {
    if j == 0 then [] else SiftLogAt(s, key, off, n, j - 1) + BuildLogAt(SiftDownAt(s, key, off, n, j - 1), key, off, n, j - 1)
  }

  /** heapify_min: sifts slot i of the window down, reporting i and the
      smaller child for every swap, indices counted from elems. */
  method HeapifyMin<T>(a: array<T>, key: T -> int, off: nat, n: nat, i: nat) returns (log: seq<int>)
    requires off + n <= a.Length && i < n
    modifies a
    ensures a[..] == SiftDownAt(old(a[..]), key, off, n, i)
    ensures log == SiftLogAt(old(a[..]), key, off, n, i)
    decreases n - i
  {
    ghost var s := a[..];
    var minimum := i;
    var right := 2 * i + 2;
    var left := 2 * i + 1;
    if left < n && Compare(key(a[off + left]), key(a[off + minimum])) == LessThan {
      minimum := left;
    }
    if right < n && Compare(key(a[off + right]), key(a[off + minimum])) == LessThan {
      minimum := right;
    }
    assert minimum == MinChildAt(s, key, off, n, i);
    if minimum != i {
      MemSwap(a, off + i, off + minimum);
      ghost var t := a[..];
      assert t == Swap(s, off + i, off + minimum);
      var rest := HeapifyMin(a, key, off, n, minimum);
      SiftDownAtStep(s, t, key, off, n, i, minimum);
      log := [i, minimum] + rest;
    } else {
      log := [];
    }
  }

  lemma Assoc(x: seq<int>, y: seq<int>, z: seq<int>)
    ensures x + (y + z) == (x + y) + z
  {
  }

  /** One turn of the build loop, for slot i, keeps its remaining-work
      invariant: the slots still to do, after the array and the log so
      far, give the whole build and its whole log. */
  lemma BuildTurn<T>(s0: seq<T>, s: seq<T>, key: T -> int, off: nat, n: nat, i: nat, done: seq<int>)
    requires off + n <= |s0| && |s| == |s0| && i < n / 2
    requires BuildFromAt(s, key, off, n, i + 1) == BuildFromAt(s0, key, off, n, n / 2)
    requires done + BuildLogAt(s, key, off, n, i + 1) == BuildLogAt(s0, key, off, n, n / 2)
    ensures BuildFromAt(SiftDownAt(s, key, off, n, i), key, off, n, i) == BuildFromAt(s0, key, off, n, n / 2)
    ensures (done + SiftLogAt(s, key, off, n, i)) + BuildLogAt(SiftDownAt(s, key, off, n, i), key, off, n, i)
         == BuildLogAt(s0, key, off, n, n / 2)
  {
    var t := SiftDownAt(s, key, off, n, i);
    assert BuildFromAt(s, key, off, n, i + 1) == BuildFromAt(t, key, off, n, i);
    assert BuildLogAt(s, key, off, n, i + 1) == SiftLogAt(s, key, off, n, i) + BuildLogAt(t, key, off, n, i);
    Assoc(done, SiftLogAt(s, key, off, n, i), BuildLogAt(t, key, off, n, i));
  }

  /** heapify_min_all: the build loop over slots n/2 - 1 down to 0, whose
      size_t counter stops by wrapping around below 0. */
  method HeapifyMinAll<T>(a: array<T>, key: T -> int, off: nat, n: nat) returns (log: seq<int>)
    requires off + n <= a.Length && n < SIZE_MODULUS
    modifies a
    ensures a[..] == BuildFromAt(old(a[..]), key, off, n, n / 2)
    ensures log == BuildLogAt(old(a[..]), key, off, n, n / 2)
  {
    ghost var s0 := a[..];
    log := [];
    var half := n / 2;
    var i: nat := Sub(half, 1);
    ghost var j: nat := half;
    while i < half
      invariant j <= half && i == Sub(j, 1)
      invariant BuildFromAt(a[..], key, off, n, j) == BuildFromAt(s0, key, off, n, n / 2)
      invariant log + BuildLogAt(a[..], key, off, n, j) == BuildLogAt(s0, key, off, n, n / 2)
      decreases j
    {
      assert j == i + 1;
      ghost var s := a[..];
      BuildTurn(s0, s, key, off, n, i, log);
      var step := HeapifyMin(a, key, off, n, i);
      log := log + step;
      j := i;
      i := Sub(i, 1);
    }
    assert j == 0;
    assert BuildLogAt(a[..], key, off, n, 0) == [];
  }

  /** Every index of a log moved up by d. */
  function Shift(log: seq<int>, d: nat): (r: seq<int>)
    ensures |r| == |log|
  {
    if log == [] then [] else [log[0] + d] + Shift(log[1..], d)
  }

  /** Shifting commutes with appending logs. */
  lemma {:induction false} ShiftAppend(x: seq<int>, y: seq<int>, d: nat)
    ensures Shift(x + y, d) == Shift(x, d) + Shift(y, d)
  {
    if x != [] {
      assert (x + y)[1..] == x[1..] + y;
      ShiftAppend(x[1..], y, d);
    } else {
      assert x + y == y;
    }
  }

  /** The two indices of one swap report, shifted. */
  lemma ShiftPair(x: int, y: int, d: nat)
    ensures Shift([x, y], d) == [x + d, y + d]
  {
    assert [x, y][1..] == [y];
    assert [y][1..] == [];
  }

  /** heapify_min2: heapify_min with every reported index counted from base
      instead of from elems. */
  method HeapifyMin2<T>(a: array<T>, key: T -> int, off: nat, n: nat, i: nat) returns (log: seq<int>)
    requires off + n <= a.Length && i < n
    modifies a
    ensures a[..] == SiftDownAt(old(a[..]), key, off, n, i)
    ensures log == Shift(SiftLogAt(old(a[..]), key, off, n, i), off)
    decreases n - i
  {
    ghost var s := a[..];
    var minimum := i;
    var right := 2 * i + 2;
    var left := 2 * i + 1;
    if left < n && Compare(key(a[off + left]), key(a[off + minimum])) == LessThan {
      minimum := left;
    }
    if right < n && Compare(key(a[off + right]), key(a[off + minimum])) == LessThan {
      minimum := right;
    }
    assert minimum == MinChildAt(s, key, off, n, i);
    if minimum != i {
      MemSwap(a, off + i, off + minimum);
      ghost var t := a[..];
      assert t == Swap(s, off + i, off + minimum);
      var rest := HeapifyMin2(a, key, off, n, minimum);
      SiftDownAtStep(s, t, key, off, n, i, minimum);
      log := [off + i, off + minimum] + rest;
      ShiftAppend([i, minimum], SiftLogAt(t, key, off, n, minimum), off);
      ShiftPair(i, minimum, off);
    } else {
      log := [];
    }
  }

  /** heapify_min_all2: the build loop of heapify_min_all over heapify_min2. */
  method HeapifyMinAll2<T>(a: array<T>, key: T -> int, off: nat, n: nat) returns (log: seq<int>)
    requires off + n <= a.Length && n < SIZE_MODULUS
    modifies a
    ensures a[..] == BuildFromAt(old(a[..]), key, off, n, n / 2)
    ensures log == Shift(BuildLogAt(old(a[..]), key, off, n, n / 2), off)
  {
    ghost var s0 := a[..];
    log := [];
    ghost var done: seq<int> := [];
    var half := n / 2;
    var i: nat := Sub(half, 1);
    ghost var j: nat := half;
    while i < half
      invariant j <= half && i == Sub(j, 1)
      invariant BuildFromAt(a[..], key, off, n, j) == BuildFromAt(s0, key, off, n, n / 2)
      invariant done + BuildLogAt(a[..], key, off, n, j) == BuildLogAt(s0, key, off, n, n / 2)
      invariant log == Shift(done, off)
      decreases j
    {
      assert j == i + 1;
      ghost var s := a[..];
      BuildTurn(s0, s, key, off, n, i, done);
      ShiftAppend(done, SiftLogAt(s, key, off, n, i), off);
      var step := HeapifyMin2(a, key, off, n, i);
      log := log + step;
      done := done + SiftLogAt(s, key, off, n, i);
      j := i;
      i := Sub(i, 1);
    }
    assert j == 0;
    assert BuildLogAt(a[..], key, off, n, 0) == [];
    assert done == BuildLogAt(s0, key, off, n, n / 2);
  }

  /** The n slots starting at off. */
  function Window<T>(s: seq<T>, off: nat, n: nat): (w: seq<T>)
    requires off + n <= |s|
    ensures |w| == n
  {
    s[off..off + n]
  }

  /** s with the slots starting at off replaced by w. */
  function Splice<T>(s: seq<T>, off: nat, w: seq<T>): (r: seq<T>)
    requires off + |w| <= |s|
    ensures |r| == |s|
  {
    s[..off] + w + s[off + |w|..]
  }

  /** Putting a window back where it came from changes nothing. */
  lemma SpliceWindow<T>(s: seq<T>, off: nat, n: nat)
    requires off + n <= |s|
    ensures Splice(s, off, Window(s, off, n)) == s
  {
  }

  /** A spliced window reads back as what was put there. */
  lemma WindowSplice<T>(s: seq<T>, off: nat, w: seq<T>)
    requires off + |w| <= |s|
    ensures Window(Splice(s, off, w), off, |w|) == w
  {
    var r := Splice(s, off, w);
    assert r[off..off + |w|] == w;
  }

  /** A second splice at the same place overwrites the first. */
  lemma SpliceTwice<T>(s: seq<T>, off: nat, v: seq<T>, w: seq<T>)
    requires off + |w| <= |s| && |v| == |w|
    ensures Splice(Splice(s, off, v), off, w) == Splice(s, off, w)
  {
    var r := Splice(s, off, v);
    assert r[..off] == s[..off];
    assert r[off + |w|..] == s[off + |w|..];
  }

  /** Swapping two slots of the window is splicing in the swapped window. */
  lemma SwapInWindow<T>(s: seq<T>, off: nat, w: seq<T>, i: nat, j: nat)
    requires off + |w| <= |s| && w == Window(s, off, |w|) && i < |w| && j < |w|
    ensures Swap(s, off + i, off + j) == Splice(s, off, Swap(w, i, j))
  {
    var n := |w|;
    SwapFacts(s, off + i, off + j);
    SwapFacts(w, i, j);
    var l, r := Swap(s, off + i, off + j), Splice(s, off, Swap(w, i, j));
    forall k | 0 <= k < |s|
      ensures l[k] == r[k]
    {
      if k < off {
        assert r[k] == s[k];
      } else if k < off + n {
        assert r[k] == Swap(w, i, j)[k - off];
      } else {
        assert r[k] == s[k];
      }
    }
  }

  /** The in-place choice is the choice on the window as a sequence of its own. */
  lemma MinChildWindow<T>(s: seq<T>, key: T -> int, off: nat, n: nat, i: nat)
    requires off + n <= |s| && i < n
    ensures MinChildAt(s, key, off, n, i) == MinChild(Window(s, off, n), key, n, i)
  {
  }

  /** The in-place sift-down changes the window exactly as SiftDown changes
      it as a sequence of its own, reports the same indices, and leaves
      every slot outside the window alone. */
  lemma {:induction false} SiftDownWindow<T>(s: seq<T>, key: T -> int, off: nat, n: nat, i: nat)
    requires off + n <= |s| && i < n
    ensures SiftDownAt(s, key, off, n, i) == Splice(s, off, SiftDown(Window(s, off, n), key, n, i))
    ensures SiftLogAt(s, key, off, n, i) == SiftLog(Window(s, off, n), key, n, i)
    decreases n - i
  {
    var w := Window(s, off, n);
    var m := MinChildAt(s, key, off, n, i);
    MinChildWindow(s, key, off, n, i);
    if m == i {
      SpliceWindow(s, off, n);
    } else {
      var v := Swap(w, i, m);
      var t := Swap(s, off + i, off + m);
      SwapInWindow(s, off, w, i, m);
      WindowSplice(s, off, v);
      assert Window(t, off, n) == v;
      SiftDownWindow(t, key, off, n, m);
      SpliceTwice(s, off, v, SiftDown(v, key, n, m));
      SiftStep(w, key, n, i);
      SiftDownAtStep(s, t, key, off, n, i, m);
      var rest := SiftLog(v, key, n, m);
      assert SiftLogAt(t, key, off, n, m) == rest;
      assert SiftLog(w, key, n, i) == [i, m] + rest;
    }
  }

  /** One swap of the sift-down on a sequence of its own. */
  lemma SiftStep<T>(w: seq<T>, key: T -> int, n: nat, i: nat)
    requires n <= |w| && i < n
    ensures var m := MinChild(w, key, n, i);
      m != i ==>
        && SiftDown(w, key, n, i) == SiftDown(Swap(w, i, m), key, n, m)
        && SiftLog(w, key, n, i) == [i, m] + SiftLog(Swap(w, i, m), key, n, m)
  {
  }

  /** The same for the whole build loop: the window changes as BuildFrom
      changes it, and nothing outside it changes. */
  lemma {:induction false} BuildWindow<T>(s: seq<T>, key: T -> int, off: nat, n: nat, j: nat)
    requires off + n <= |s| && j <= n
    ensures BuildFromAt(s, key, off, n, j) == Splice(s, off, BuildFrom(Window(s, off, n), key, n, j))
    decreases j
  {
    var w := Window(s, off, n);
    if j == 0 {
      SpliceWindow(s, off, n);
    } else {
      var t := SiftDownAt(s, key, off, n, j - 1);
      var u := SiftDown(w, key, n, j - 1);
      var x := BuildFrom(u, key, n, j - 1);
      SiftDownWindow(s, key, off, n, j - 1);
      assert t == Splice(s, off, u);
      WindowSplice(s, off, u);
      assert Window(t, off, n) == u;
      BuildWindow(t, key, off, n, j - 1);
      assert BuildFromAt(t, key, off, n, j - 1) == Splice(t, off, x);
      SpliceTwice(s, off, u, x);
      assert BuildFromAt(s, key, off, n, j) == BuildFromAt(t, key, off, n, j - 1);
      assert BuildFrom(w, key, n, j) == x;
    }
  }

  /** What the build loop leaves in the array: a min-heap of the window's
      elements in the window, every slot outside it unchanged. */
  lemma BuildInHeap<T>(s: seq<T>, key: T -> int, off: nat, n: nat)
    requires off + n <= |s|
    ensures var r := BuildFromAt(s, key, off, n, n / 2);
      && IsHeap(Window(r, off, n), key, n)
      && multiset(Window(r, off, n)) == multiset(Window(s, off, n))
      && r[..off] == s[..off] && r[off + n..] == s[off + n..]
  {
    var w := Window(s, off, n);
    var b := Build(w, key, n);
    BuildWindow(s, key, off, n, n / 2);
    BuildHeap(w, key, n);
    WindowSplice(s, off, b);
    assert b[..n] == b;
    assert w[..n] == w;
  }
}
