/** The bump allocator: what one call gives, in arithmetic and in place. */
module Allocator {
  import opened Bits

  /** `align` is always a power of two; `alignLog` is its logarithm. */
  datatype Layout = Layout(size: nat, alignLog: nat) {
    ghost predicate Valid() {
      size < WORD && alignLog < 64
    }
  }

  datatype Heap = Heap(start: nat, end: nat, next: nat)

  /** A null pointer is address 0.  `Overflow` is the panic of the unchecked sum. */
  datatype Answer = Ptr(addr: nat) | Overflow

  /** What one call does, in arithmetic: the block starts at the least aligned
      address from `next` on, if it ends by the end of the heap. */
  function Serve(h: Heap, l: Layout): (Answer, Heap) {
    var align := Pow2(l.alignLog);
    if h.next + align >= WORD then (Overflow, h)
    else
      var at := RoundUp(h.next, align);
      if at + l.size >= WORD || at + l.size > h.end then (Ptr(0), h)
      else (Ptr(at), h.(next := at + l.size))
  }

  lemma WordIsPow2()
    ensures Pow2(64) == WORD
  {
    Pow2Values();
  }

  /** The mask form rounds up, for every power of two. */
  lemma MaskRoundsUp(x: nat, k: nat)
    requires k <= 64 && x + Pow2(k) <= WORD
    ensures Pow2(k) - 1 < Pow2(64)
    ensures And(x + Pow2(k) - 1, Not(64, Pow2(k) - 1)) == RoundUp(x, Pow2(k))
  {
    WordIsPow2();
    AndClears(x + Pow2(k) - 1, k, 64);
  }

  class LinerAllocator {
    var start: nat
    var end: nat
    var next: nat

    constructor ()
      ensures start == end == next == 0
    {
      start, end, next := 0, 0, 0;
    }

    ghost function Value(): Heap
      reads this
    {
      Heap(start, end, next)
    }

    method Init(start: nat, size: nat)
      requires start + size < WORD
      modifies this
      ensures Value() == Heap(start, start + size, start)
    {
      this.start := start;
      end := start + size;
      next := start;
    }

    method Alloc(layout: Layout) returns (r: Answer)
      requires layout.Valid() && next < WORD
      modifies this
      ensures (r, Value()) == Serve(old(Value()), layout) && next < WORD
    {
      hide And, Pow2, RoundUp;
      var align := Pow2(layout.alignLog);
      var current := next;
      if current + align >= WORD {
        return Overflow;
      }
      MaskRoundsUp(current, layout.alignLog);
      var allocStart := And(current + align - 1, Not(64, align - 1));
      var allocEnd := allocStart + layout.size;
      if allocEnd >= WORD {
        return Ptr(0);
      }
      if allocEnd > end {
        return Ptr(0);
      }
      next := allocEnd;
      return Ptr(allocStart);
    }
  }

  /** Some aligned block of that size fits above `next`. */
  ghost predicate Fits(h: Heap, l: Layout) {
    exists a :: h.next <= a && a % Pow2(l.alignLog) == 0 && a + l.size <= h.end
  }

  /** The call panics exactly when the sum of `next` and the alignment overflows.  Otherwise
      null means that no aligned block of that size fits above `next`, and a block that
      is given starts at the least aligned address from there on. */
  lemma ServeMeaning(h: Heap, l: Layout)
    requires 0 < h.start <= h.next <= h.end < WORD
    ensures var (r, h') := Serve(h, l);
      && (r.Overflow? <==> h.next + Pow2(l.alignLog) >= WORD)
      && (r.Overflow? ==> h' == h)
      && (r.Ptr? ==>
            && h'.start == h.start && h'.end == h.end && h.next <= h'.next <= h.end
            && (r.addr == 0 <==> !Fits(h, l))
            && (r.addr == 0 ==> h' == h)
            && (r.addr != 0 ==> IsLeast(h.next, l, r.addr) && h'.next == r.addr + l.size))
  {
    hide RoundUp, Pow2;
    RoundUpIsLeast(h.next, Pow2(l.alignLog));
    var at := RoundUp(h.next, Pow2(l.alignLog));
    if Serve(h, l).0.Ptr? {
      if Serve(h, l).0.addr != 0 {
        assert h.next <= at && at % Pow2(l.alignLog) == 0 && at + l.size <= h.end;
      } else {
        forall a | h.next <= a && a % Pow2(l.alignLog) == 0
          ensures a + l.size > h.end
        {
          assert at <= a;
        }
      }
    }
  }

  /** The least address from `next` on that has the alignment. */
  ghost predicate IsLeast(next: nat, l: Layout, a: nat) {
    && next <= a && a % Pow2(l.alignLog) == 0
    && forall b :: next <= b && b % Pow2(l.alignLog) == 0 ==> a <= b
  }
}
