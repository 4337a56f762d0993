/** Addresses: table indices, spans, and the fixed regions of the kernel's virtual
    address space. */
module MemLayout {
  import opened Bits
  import opened Wrappers

  const PAGE_SIZE := 0x1000
  const ADDRESSES := 0x1_0000_0000_0000        // 2^48, what four levels distinguish
  const KERNEL_CODE_BASE := 0xFFFF_FFFF_8000_0000
  const LINEAR_BASE := 0xFFFF_8880_0000_0000
  const LINEAR_SIZE := 0x80_0000_0000          // 512 GiB
  const MAX_PHYS := 0xFF_FFFF_FFFF_FFFF
  const FRAMES_END := 0x10_0000_0000_0000      // 2^52, where physical addresses end
  const APIC_START := 0xFEE0_0000
  const APIC_SIZE := 0x1000

  /** `None` is the panic for an address out of range, or of the overflowing sum. */
  function PhysToVirt(p: nat): Option<nat> {
    if p < MAX_PHYS && p + LINEAR_BASE < WORD then Some(p + LINEAR_BASE) else None
  }

  function VirtToPhys(v: nat): Option<nat> {
    if v < LINEAR_BASE then None
    else if v <= LINEAR_BASE + LINEAR_SIZE then Some(v - LINEAR_BASE)
    else if v >= KERNEL_CODE_BASE then Some(v - KERNEL_CODE_BASE)
    else None
  }

  /** How much address space one entry of a table at `level` covers; level 5 stands
      for the whole. */
  function Span(level: nat): (s: nat)
    requires level <= 5
    ensures 0 < s
  {
    if level == 0 then 1
    else if level == 1 then PAGE_SIZE
    else if level == 2 then 0x20_0000
    else if level == 3 then 0x4000_0000
    else if level == 4 then 0x80_0000_0000
    else ADDRESSES
  }

  /** The index of `v` in its table at `level`. */
  function Idx(v: nat, level: nat): (i: nat)
    requires 1 <= level <= 4
    ensures i < 512
  {
    v / Span(level) % 512
  }

  /** The indices of `v` above `level`, as one number: it names the table at `level`
      that a walk for `v` goes through.  `Prefix(v, 0)` is the page number. */
  function Prefix(v: nat, level: nat): nat
    requires level <= 4
  {
    v % ADDRESSES / Span(level + 1)
  }

  lemma PrefixStep(v: nat, level: nat)
    requires 1 <= level <= 4
    ensures Prefix(v, level - 1) == Prefix(v, level) * 512 + Idx(v, level)
    ensures Prefix(v, 4) == 0
  {
    var w := v % ADDRESSES;
    if level == 1 {
      IndexOfLow(v, 0x1000, 0x10_0000_0000);
    } else if level == 2 {
      IndexOfLow(v, 0x20_0000, 0x800_0000);
    } else if level == 3 {
      IndexOfLow(v, 0x4000_0000, 0x4_0000);
    } else {
      IndexOfLow(v, 0x80_0000_0000, 0x200);
    }
  }

  /** Addresses that agree above a level agree in every index above it. */
  lemma SameIndices(u: nat, v: nat, k: nat, level: nat)
    requires k < level <= 4 && Prefix(u, k) == Prefix(v, k)
    ensures Prefix(u, level) == Prefix(v, level) && Idx(u, level) == Idx(v, level)
    decreases level
  {
    hide Prefix, Idx;
    if level > k + 1 {
      SameIndices(u, v, k, level - 1);
    }
    PrefixStep(u, level);
    PrefixStep(v, level);
    OneRepresentation(512, Prefix(u, level), Idx(u, level), Prefix(v, level), Idx(v, level));
  }

  lemma IndexOfLow(v: nat, span: nat, count: nat)
    requires 0 < span && 0 < count && span * count == ADDRESSES && count % 512 == 0
    ensures v / span % 512 == v % ADDRESSES / span % 512
    ensures v % ADDRESSES / span == v % ADDRESSES / (512 * span) * 512 + v % ADDRESSES / span % 512
  {
    var q, w := v / ADDRESSES, v % ADDRESSES;
    DivBySpan(q, w, span, count);
    MultipleOf512(q, count, w / span);
    DivTwice(w, span);
  }

  lemma DivBySpan(q: nat, w: nat, span: nat, count: nat)
    requires 0 < span && 0 < count
    ensures (q * (span * count) + w) / span == q * count + w / span
  {
    var a, r := w / span, w % span;
    SpanTimesCount(q, span, count, a);
    DivModUnique(q * (span * count) + w, span, q * count + a, r);
  }

  lemma SpanTimesCount(q: nat, span: nat, count: nat, a: nat)
    ensures q * (span * count) + a * span == (q * count + a) * span
  {
    calc {
      (q * count + a) * span;
      q * count * span + a * span;
      q * (count * span) + a * span;
    }
  }

  lemma MultipleOf512(q: nat, count: nat, x: nat)
    requires count % 512 == 0
    ensures (q * count + x) % 512 == x % 512
  {
    var c := count / 512;
    assert q * count == 512 * (q * c);
  }

  lemma DivTwice(w: nat, span: nat)
    requires 0 < span
    ensures w / (512 * span) == w / span / 512
  {
    var a, r := w / span, w % span;
    var b, i := a / 512, a % 512;
    assert w == a * span + r;
    assert a == 512 * b + i;
    assert a * span == b * (512 * span) + i * span;
    MulStep(i, 512, span);
    DivModUnique(w, 512 * span, b, i * span + r);
  }

  /** The shift-and-mask form of the index. */
  function NthLevelTableIndex(v: nat, level: nat): nat
    requires 1 <= level <= 4
  {
    And(High(v, 12 + (level - 1) * 9), 0x1FF)
  }

  lemma IndexIs(v: nat, level: nat)
    requires 1 <= level <= 4
    ensures NthLevelTableIndex(v, level) == Idx(v, level)
  {
    hide And, High, Pow2;
    Pow2Values();
    HighIs(v, 12 + (level - 1) * 9);
    AndKeeps(High(v, 12 + (level - 1) * 9), 9);
  }

  /** The addresses that `virt_to_phys` takes, and what it gives for them: both regions of
      the kernel, and the panic everywhere else. */
  lemma VirtToPhysExactlyWhen(v: nat, p: nat)
    ensures VirtToPhys(v) == Some(p) <==>
      (v == LINEAR_BASE + p && p <= LINEAR_SIZE) || v == KERNEL_CODE_BASE + p
  {
  }

  lemma PhysToVirtExactlyWhen(p: nat, v: nat)
    ensures PhysToVirt(p) == Some(v) <==> v == LINEAR_BASE + p && v < WORD && p < MAX_PHYS
  {
  }

  /** `phys_to_virt` takes more than the linear map holds: the way back leads to the same
      address exactly for what lies in it. */
  lemma RoundTripExactlyWhen(p: nat)
    requires PhysToVirt(p).Some?
    ensures VirtToPhys(PhysToVirt(p).value) == Some(p) <==> p <= LINEAR_SIZE
  {
    VirtToPhysExactlyWhen(PhysToVirt(p).value, p);
  }

  /** One byte further there is no way back. */
  lemma PastTheLinearMap()
    ensures PhysToVirt(LINEAR_SIZE + 1).Some? && VirtToPhys(PhysToVirt(LINEAR_SIZE + 1).value) == None
  {
  }
}
