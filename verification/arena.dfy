/** The bump allocator of arena.h, with address sanitising switched off and
    the backend's page commit a no-op. The memory behind an arena is a byte
    array together with the address it starts at (0 standing for a null
    `memory` pointer); `offset`, `length`, `reserved_length` and `page_size`
    are the arena's bookkeeping. An ARENA_OOM abort is a None result. */
module Arenas {
  import opened Optional

  /** The ArenaFlags bits. */
  const FLAG_ZEROED: bv8 := 1
  const FLAG_ASAN_SEPARATION: bv8 := 2
  const FLAG_ASAN_POISON: bv8 := 4

  /** `2*sizeof(void*)` on a 64-bit target: the alignment arena_alloc asks for. */
  const ALLOC_ALIGN: nat := 16

  /** The page size arena_from_alloc_memory records. */
  const DEFAULT_PAGE_SIZE: nat := 4096

  /** One more than PTRDIFF_MAX. */
  const PTRDIFF_LIMIT: nat := 0x8000_0000_0000_0000

  /** arena_impl_is_power_of_two: clearing the lowest set bit leaves nothing
      (zero passes the test as well). */
  function IsPowerOfTwo(x: bv64): bool
  {
    x & (x - 1) == 0
  }

  /** What arena_alloc_ex asserts of an alignment: a non-zero ptrdiff_t
      that passes the power-of-two test. */
  predicate ValidAlignment(align: nat)
  {
    0 < align < PTRDIFF_LIMIT && IsPowerOfTwo(align as bv64)
  }

  /** The word with only bit k set. */
  function Bit(k: bv64): bv64
    requires k < 64
  {
    1 << k
  }

  /** Zero and every single-bit word pass the power-of-two test ... */
  lemma SingleBitIsPowerOfTwo(k: bv64)
    requires k < 64
    ensures IsPowerOfTwo(0)
    ensures Bit(k) != 0 && IsPowerOfTwo(Bit(k))
  {
  }

  /** ... and no word with two set bits does. */
  lemma TwoBitsAreNotPowerOfTwo(x: bv64, i: bv64, j: bv64)
    requires i < j < 64
    requires x & Bit(i) != 0 && x & Bit(j) != 0
    ensures !IsPowerOfTwo(x)
  {
  }

  /** `a / b` on signed C integers: the quotient is truncated toward zero. */
  function CDiv(a: int, b: nat): (r: int)
    requires b > 0
    ensures a >= 0 ==> r >= 0 && r * b <= a < r * b + b
    ensures a < 0 ==> r <= 0 && r * b - b < a <= r * b
  {
    if a >= 0 then a / b else -((-a) / b)
  }

  /** The guard `count >= avail / size` lets a request through exactly when
      one element more than the request would still fit in `avail`. */
  lemma GuardPasses(avail: int, size: nat, count: nat)
    requires size > 0
    ensures count < CDiv(avail, size) <==> count * size + size <= avail
  {
    var q := CDiv(avail, size);
    assert (count + 1) * size == count * size + size;
    if count < q {
      MultiplyMonotone(count + 1, q, size);
    } else if avail >= 0 {
      MultiplyMonotone(q + 1, count + 1, size);
      assert (q + 1) * size == q * size + size;
    }
  }

  lemma MultiplyMonotone(a: int, b: int, c: nat)
    requires a <= b
    ensures a * c <= b * c
  {
    assert b * c - a * c == (b - a) * c;
  }

  /** Euclidean division has one quotient and one remainder. */
  lemma DivisionIsUnique(a: int, d: nat, q: int, r: int)
    requires d > 0 && 0 <= r < d && a == q * d + r
    ensures a / d == q && a % d == r
  {
    var q', r' := a / d, a % d;
    assert (q - q') * d == r' - r;
    if q - q' >= 1 {
      assert false;
    } else if q - q' <= -1 {
      assert false;
    }
  }

  /** `-(uintptr_t)address & (align - 1)`: the bytes to skip from `address`
      to the next multiple of `align`. For a power-of-two alignment the mask
      keeps the remainder of the negated address, which is what Dafny's
      Euclidean `%` yields. */
  function Padding(address: int, align: nat): (r: nat)
    requires align > 0
    ensures r < align && (address + r) % align == 0
  {
    var r := (-address) % align;
    DivisionIsUnique(address + r, align, -((-address) / align), 0);
    r
  }

  /** No shorter skip reaches a multiple of the alignment. */
  lemma PaddingIsLeast(address: int, align: nat, skip: nat)
    requires align > 0 && skip < align && (address + skip) % align == 0
    ensures Padding(address, align) == skip
  {
    var b := (address + skip) / align;
    assert -address == (-b) * align + skip;
    DivisionIsUnique(-address, align, -b, skip);
  }

  /** `(n + page) & ~(page - 1)`: n rounded past the next page boundary. For
      a power-of-two page the mask clears the remainder. */
  function PageRound(n: nat, page: nat): (r: nat)
    requires page > 0
    ensures r % page == 0 && n < r <= n + page
  {
    var r := (n + page) - (n + page) % page;
    DivisionIsUnique(r, page, (n + page) / page, 0);
    r
  }

  /** `count*size`: the bytes a request asks for. */
  function Bytes(count: nat, size: nat): nat
  {
    count * size
  }

  /** The fields of an Arena: `memory` as an address (0 for null),
      `offset`, `length`, `reserved_length` and `page_size`. */
  datatype Books = Books(base: nat, offset: nat, length: nat, reserved: nat, pageSize: nat)

  /** The bookkeeping holds together: the used part never exceeds the
      committed part nor the reservation. */
  predicate Sound(b: Books)
  {
    b.offset <= b.length && b.offset <= b.reserved && b.pageSize > 0
  }

  /** arena_report_allocated_size: the bytes handed out since the last reset,
      padding counted in. */
  function ReportAllocatedSize(b: Books): nat
  {
    b.offset
  }

  /** The bookkeeping of arena_alloc_ex as the source writes it: the
      committed part is grown when the request does not fit in it, and the
      reservation test on that path leaves out the offset already used. */
  function AllocStepAsWritten(b: Books, size: nat, align: nat, count: nat): Option<Books>
    requires size > 0 && align > 0 && b.pageSize > 0
  {
    if b.base == 0 then None
    else
      var pad := Padding(b.base + b.offset, align);
      var grow := pad + Bytes(count, size);
      if count >= CDiv(b.length - b.offset - pad, size) then
        if count >= CDiv(b.reserved - pad, size) then None
        else Some(b.(offset := b.offset + grow, length := PageRound(b.length + grow, b.pageSize)))
      else Some(b.(offset := b.offset + grow))
  }

  /** The bookkeeping of arena_alloc_ex with the reservation compared with
      the space it has left, on every allocation. */
  function AllocStep(b: Books, size: nat, align: nat, count: nat): Option<Books>
    requires size > 0 && align > 0 && b.pageSize > 0
  {
    if b.base == 0 then None
    else
      var pad := Padding(b.base + b.offset, align);
      var grow := pad + Bytes(count, size);
      if count >= CDiv(b.reserved - b.offset - pad, size) then None
      else if count >= CDiv(b.length - b.offset - pad, size) then
        Some(b.(offset := b.offset + grow, length := PageRound(b.length + grow, b.pageSize)))
      else Some(b.(offset := b.offset + grow))
  }

  /** A request that passes the reservation test moves the offset past the
      padding and the request, committing more pages when needed. */
  lemma AllocStepTaken(b: Books, size: nat, align: nat, count: nat, pad: nat, grow: nat, length: nat)
    requires size > 0 && align > 0 && b.pageSize > 0 && b.base != 0
    requires pad == Padding(b.base + b.offset, align) && grow == pad + Bytes(count, size)
    requires count < CDiv(b.reserved - b.offset - pad, size)
    requires length == if count >= CDiv(b.length - b.offset - pad, size) then PageRound(b.length + grow, b.pageSize) else b.length
    ensures AllocStep(b, size, align, count) == Some(b.(offset := b.offset + grow, length := length))
  {
  }

  /** When the source's allocation fails: a null arena, or a request that
      fits neither the committed part nor the reservation counted from its
      start. What it does otherwise: the offset moves past the padding and
      the request, the committed length only grows (to a page multiple
      past its old value), and the offset stays within it. */
  lemma AsWrittenFacts(b: Books, size: nat, align: nat, count: nat)
    requires size > 0 && align > 0 && b.offset <= b.length && b.pageSize > 0
    ensures var pad := Padding(b.base + b.offset, align);
      var r := AllocStepAsWritten(b, size, align, count);
      && (r.None? <==> b.base == 0 || (count * size + size > b.length - b.offset - pad
                                       && count * size + size > b.reserved - pad))
      && (r.Some? ==>
        && r.value.offset == b.offset + pad + count * size
        && r.value.offset <= r.value.length
        && (r.value.base, r.value.reserved, r.value.pageSize) == (b.base, b.reserved, b.pageSize)
        && (r.value.length == b.length || (r.value.length > b.length && r.value.length % b.pageSize == 0)))
  {
    if b.base != 0 {
      var pad := Padding(b.base + b.offset, align);
      var grow := pad + Bytes(count, size);
      GuardPasses(b.length - b.offset - pad, size, count);
      if count >= CDiv(b.length - b.offset - pad, size) {
        GuardPasses(b.reserved - pad, size, count);
        if count < CDiv(b.reserved - pad, size) {
          var length := PageRound(b.length + grow, b.pageSize);
          assert AllocStepAsWritten(b, size, align, count) == Some(b.(offset := b.offset + grow, length := length));
        }
      } else {
        assert AllocStepAsWritten(b, size, align, count) == Some(b.(offset := b.offset + grow));
      }
    }
  }

  /** The source's allocation can run past the reservation: an arena over
      100 bytes at address 4096 (as arena_from_alloc_memory sets it up)
      hands out 60 bytes and then 60 more, ending at offset 120. The
      corrected step refuses the second request. */
  lemma AsWrittenOverruns()
    ensures var b0 := Books(4096, 0, 100, 100, DEFAULT_PAGE_SIZE);
      var b1 := AllocStepAsWritten(b0, 1, 1, 60);
      && b1 == Some(b0.(offset := 60))
      && AllocStepAsWritten(b1.value, 1, 1, 60).Some?
      && AllocStepAsWritten(b1.value, 1, 1, 60).value.offset == 120 > b0.reserved
      && AllocStep(b1.value, 1, 1, 60) == None
  {
    var b0 := Books(4096, 0, 100, 100, DEFAULT_PAGE_SIZE);
    assert Padding(4096, 1) == 0 && Padding(4156, 1) == 0;
    assert CDiv(100, 1) == 100 && CDiv(40, 1) == 40;
  }

  /** When the corrected allocation fails, and what it does otherwise: as
      AsWrittenFacts, and moreover the request plus one more element fits in
      the reservation, so the new offset stays inside it and the returned
      address is aligned. */
  lemma AllocStepFacts(b: Books, size: nat, align: nat, count: nat)
    requires size > 0 && align > 0 && Sound(b)
    ensures var pad := Padding(b.base + b.offset, align);
      var r := AllocStep(b, size, align, count);
      && (r.None? <==> b.base == 0 || count * size + size > b.reserved - b.offset - pad)
      && (r.Some? ==>
        && Sound(r.value)
        && r.value.offset + size <= r.value.reserved
        && r.value.offset == b.offset + pad + count * size
        && (b.base + b.offset + pad) % align == 0
        && (r.value.base, r.value.reserved, r.value.pageSize) == (b.base, b.reserved, b.pageSize)
        && (r.value.length == b.length || (r.value.length > b.length && r.value.length % b.pageSize == 0)))
  {
    if b.base != 0 {
      var pad := Padding(b.base + b.offset, align);
      var grow := pad + Bytes(count, size);
      GuardPasses(b.reserved - b.offset - pad, size, count);
      if count < CDiv(b.reserved - b.offset - pad, size) {
        GuardPasses(b.length - b.offset - pad, size, count);
        if count >= CDiv(b.length - b.offset - pad, size) {
          var length := PageRound(b.length + grow, b.pageSize);
          assert AllocStep(b, size, align, count) == Some(b.(offset := b.offset + grow, length := length));
        } else {
          assert AllocStep(b, size, align, count) == Some(b.(offset := b.offset + grow));
        }
      }
    }
  }

  /** The corrected step does what the source does whenever the request
      fits in the reservation, and refuses it otherwise. */
  lemma AllocStepRefines(b: Books, size: nat, align: nat, count: nat)
    requires size > 0 && align > 0 && b.pageSize > 0
    ensures var pad := Padding(b.base + b.offset, align);
      AllocStep(b, size, align, count)
        == if count * size + size <= b.reserved - b.offset - pad then AllocStepAsWritten(b, size, align, count) else None
  {
    if b.base != 0 {
      var pad := Padding(b.base + b.offset, align);
      GuardPasses(b.reserved - b.offset - pad, size, count);
      if count * size + size <= b.reserved - b.offset - pad {
        GuardPasses(b.reserved - pad, size, count);
        assert count < CDiv(b.reserved - pad, size);
      } else {
        assert AllocStep(b, size, align, count) == None;
      }
    }
  }

  /** The allocated size grows by exactly the padding and the request. */
  lemma AllocatedSizeGrows(b: Books, size: nat, align: nat, count: nat)
    requires size > 0 && align > 0 && Sound(b) && AllocStep(b, size, align, count).Some?
    ensures ReportAllocatedSize(AllocStep(b, size, align, count).value)
         == ReportAllocatedSize(b) + Padding(b.base + b.offset, align) + count * size
  {
    AllocStepFacts(b, size, align, count);
  }

  /** Two byte sequences that agree below m agree on every window below m. */
  lemma SameBelow(s: seq<bv8>, t: seq<bv8>, m: nat, i: nat, j: nat)
    requires m <= |s| && m <= |t| && s[..m] == t[..m] && i <= j <= m
    ensures s[i..j] == t[i..j]
  {
    forall k | i <= k < j
      ensures s[k] == t[k]
    {
      assert s[k] == s[..m][k] && t[k] == t[..m][k];
    }
  }

  class Arena {
    const base: nat
    const memory: array<bv8>
    var offset: nat
    var length: nat
    const reserved: nat
    const pageSize: nat

    ghost function State(): Books
      reads this
    {
      Books(base, offset, length, reserved, pageSize)
    }

    ghost predicate Valid()
      reads this
    {
      memory.Length == reserved && Sound(State())
    }

    /** arena_from_alloc_memory: an arena over caller-provided memory found
        at `address`, all of it committed and reserved, nothing used. */
    constructor FromAllocMemory(memory: array<bv8>, address: nat)
      ensures Valid() && this.memory == memory
      ensures State() == Books(address, 0, memory.Length, memory.Length, DEFAULT_PAGE_SIZE)
    {
      base := address;
      this.memory := memory;
      offset := 0;
      length := memory.Length;
      reserved := memory.Length;
      pageSize := DEFAULT_PAGE_SIZE;
    }

    /** arena_reset: everything handed out is given back at once. */
    method Reset()
      requires Valid()
      modifies this`offset
      ensures Valid() && offset == 0
    {
      offset := 0;
    }

    /** The bookkeeping half of arena_alloc_ex with the corrected
        reservation test: the address of `count * size` bytes aligned to
        `align`, or None for ARENA_OOM. */
    method Bump(size: nat, align: nat, count: nat) returns (r: Option<nat>)
      requires Valid() && align > 0 && size != 0 && count != 0
      modifies this`offset, this`length
      ensures Valid()
      ensures AllocStep(old(State()), size, align, count) == if r.Some? then Some(State()) else None
      ensures r.None? ==> State() == old(State())
      ensures r.Some? ==> base <= r.value && r.value - base + Bytes(count, size) == offset && r.value % align == 0
    {
      ghost var b := State();
      if base == 0 {
        return None;
      }
      var pad := Padding(base + offset, align);
      if count >= CDiv(reserved - offset - pad, size) {
        return None;
      }
      var grow := pad + Bytes(count, size);
      if count >= CDiv(length - offset - pad, size) {
        length := PageRound(length + grow, pageSize);
      }
      AllocStepTaken(b, size, align, count, pad, grow, length);
      AllocStepFacts(b, size, align, count);
      r := Some(base + offset + pad);
      offset := offset + grow;
    }

    /** arena_alloc_ex with the corrected reservation test: returns the
        address of `count * size` bytes aligned to `align`, zeroed when
        FLAG_ZEROED is set, or None for ARENA_OOM. */
    method AllocEx(size: nat, flags: bv8, align: nat, count: nat) returns (r: Option<nat>)
      requires Valid()
      requires ValidAlignment(align)
      requires size != 0 && count != 0
      modifies this, memory
      ensures Valid()
      ensures AllocStep(old(State()), size, align, count) == if r.Some? then Some(State()) else None
      ensures r.None? ==> State() == old(State())
      ensures r.Some? ==> base <= r.value && r.value - base + Bytes(count, size) == offset && r.value % align == 0
      ensures r.None? || flags & FLAG_ZEROED == 0 ==> memory[..] == old(memory[..])
      ensures r.Some? ==> memory[..r.value - base] == old(memory[..r.value - base]) && memory[offset..] == old(memory[..])[offset..]
      ensures r.Some? && flags & FLAG_ZEROED != 0 ==> forall k :: r.value - base <= k < offset ==> memory[k] == 0
    {
      r := Bump(size, align, count);
      if r.Some? && flags & FLAG_ZEROED != 0 {
        Memset(r.value - base, offset);
      }
    }

    /** memset(memory + start, 0, end - start). */
    method Memset(start: nat, end: nat)
      requires start <= end <= memory.Length
      modifies memory
      ensures memory[..start] == old(memory[..start]) && memory[end..] == old(memory[end..])
      ensures forall k :: start <= k < end ==> memory[k] == 0
    {
      forall k | start <= k < end {
        memory[k] := 0;
      }
    }

    /** memcpy(memory + dst, memory + src, n) between two regions that do
        not overlap. */
    method Memcpy(dst: nat, src: nat, n: nat)
      requires dst + n <= memory.Length && src + n <= memory.Length
      requires src + n <= dst || dst + n <= src
      modifies memory
      ensures memory[dst..dst + n] == old(memory[src..src + n])
      ensures memory[..dst] == old(memory[..dst]) && memory[dst + n..] == old(memory[dst + n..])
      ensures forall k :: dst + n <= k < memory.Length ==> memory[k] == old(memory[k])
    {
      forall k | 0 <= k < n {
        memory[dst + k] := memory[src + k];
      }
    }

    /** arena_alloc: one zeroed, 16-byte aligned block of `size` bytes. */
    method Alloc(size: nat) returns (r: Option<nat>)
      requires Valid() && size != 0
      modifies this, memory
      ensures Valid()
      ensures AllocStep(old(State()), size, ALLOC_ALIGN, 1) == if r.Some? then Some(State()) else None
      ensures r.None? ==> State() == old(State())
      ensures r.Some? ==> base <= r.value && r.value - base + size == offset && r.value % ALLOC_ALIGN == 0
      ensures r.None? ==> memory[..] == old(memory[..])
      ensures r.Some? ==> memory[..r.value - base] == old(memory[..r.value - base]) && memory[offset..] == old(memory[..])[offset..]
      ensures r.Some? ==> forall k :: r.value - base <= k < offset ==> memory[k] == 0
    {
      r := AllocEx(size, FLAG_ZEROED | FLAG_ASAN_SEPARATION, ALLOC_ALIGN, 1);
    }

    /** arena_dup: a fresh block holding a copy of `data`. */
    method Dup(data: seq<bv8>) returns (r: Option<nat>)
      requires Valid() && |data| != 0
      modifies this, memory
      ensures Valid()
      ensures AllocStep(old(State()), |data|, ALLOC_ALIGN, 1) == if r.Some? then Some(State()) else None
      ensures r.None? ==> State() == old(State()) && memory[..] == old(memory[..])
      ensures r.Some? ==> base <= r.value && r.value - base + |data| == offset
      ensures r.Some? ==> memory[r.value - base..offset] == data
      ensures r.Some? ==> memory[..r.value - base] == old(memory[..r.value - base])
      ensures r.Some? ==> memory[offset..] == old(memory[..])[offset..]
    {
      r := Alloc(|data|);
      if r.Some? {
        var start := r.value - base;
        forall k | 0 <= k < |data| {
          memory[start + k] := data[k];
        }
        assert memory[start..offset] == data;
      }
    }

    /** arena_realloc: a fresh block of `newSize` bytes whose first
        `oldSize` bytes copy the block at address `from` (an earlier
        allocation, untouched) and whose remaining bytes are zero. */
    method Realloc(from: nat, oldSize: nat, newSize: nat) returns (r: Option<nat>)
      requires Valid() && newSize != 0 && oldSize <= newSize
      requires oldSize == 0 || (base <= from && from - base + oldSize <= offset)
      modifies this, memory
      ensures Valid()
      ensures AllocStep(old(State()), newSize, ALLOC_ALIGN, 1) == if r.Some? then Some(State()) else None
      ensures r.None? ==> State() == old(State()) && memory[..] == old(memory[..])
      ensures r.Some? ==> base <= r.value && r.value - base + newSize == offset
      ensures r.Some? && oldSize > 0 ==>
        memory[r.value - base..r.value - base + oldSize] == old(memory[from - base..from - base + oldSize])
      ensures r.Some? ==> forall k :: r.value - base + oldSize <= k < offset ==> memory[k] == 0
      ensures r.Some? ==> memory[..r.value - base] == old(memory[..r.value - base])
      ensures r.Some? ==> memory[offset..] == old(memory[..])[offset..]
    {
      r := Alloc(newSize);
      if r.Some? && oldSize > 0 {
        var dst, src := r.value - base, from - base;
        ghost var source := old(memory[..]);
        ghost var copied := source[src..src + oldSize];
        assert copied == old(memory[from - base..from - base + oldSize]);
        SameBelow(memory[..], source, dst, src, src + oldSize);
        assert memory[src..src + oldSize] == copied;
        ghost var zeroed := memory[..];
        Memcpy(dst, src, oldSize);
        assert memory[dst..dst + oldSize] == copied;
        assert memory[offset..] == zeroed[offset..];
      }
    }
  }
}
