/** Page table entries as 64-bit words. */
module PageEntry {
  import opened Bits
  import opened Wrappers
  import opened MemLayout

  const ATTR_MASK := 0x7FFF_FFFF_FFFF_F000
  const NX := 0x8000_0000_0000_0000

  datatype Attr =
    | NotPresent
    | ReadExecuteKernel
    | ReadKernel
    | ReadWriteExecuteKernel
    | ReadWriteKernel
    | ReadWriteKernel1GiB
    | ReadWriteKernelIO

  function AttrBits(a: Attr): nat {
    match a
    case NotPresent => 0
    case ReadExecuteKernel => 0x1
    case ReadKernel => 0x1 + NX
    case ReadWriteExecuteKernel => 0x3
    case ReadWriteKernel => 0x3 + NX
    case ReadWriteKernel1GiB => 0x83 + NX
    case ReadWriteKernelIO => 0x1B + NX
  }

  predicate GetBit(v: nat, bit: nat) {
    And(v, Pow2(bit)) != 0
  }

  predicate Present(v: nat) { GetBit(v, 0) }
  predicate Writable(v: nat) { GetBit(v, 1) }
  predicate User(v: nat) { GetBit(v, 2) }
  predicate WriteThrough(v: nat) { GetBit(v, 3) }
  predicate CacheDisabled(v: nat) { GetBit(v, 4) }
  predicate Huge(v: nat) { GetBit(v, 7) }
  predicate Executable(v: nat) { !GetBit(v, 63) }

  function Paddr(v: nat): nat {
    And(v, ATTR_MASK)
  }

  /** `None` is the error for an address that is not page-aligned. */
  function SetEntry(paddr: nat, attr: Attr): Option<nat> {
    if And(paddr, Not64Mask()) != 0 then None else Some(Or(paddr, AttrBits(attr)))
  }

  function Not64Mask(): nat {
    0xFFFF_FFFF_FFFF_FFFF - ATTR_MASK
  }

  /** An entry for a freshly allocated lower table. */
  function TableEntry(paddr: nat): nat {
    Or(paddr, AttrBits(ReadWriteExecuteKernel))
  }

  /** The address field is everything between bits 12 and 62. */
  lemma PaddrIs(v: nat)
    ensures Paddr(v) == v % NX - v % PAGE_SIZE
  {
    hide And;
    Pow2Values();
    AndMask(v, 12, 63);
  }

  /** What the processor takes for the address: bits 12 to 51. */
  function FrameOf(v: nat): nat {
    v % FRAMES_END / PAGE_SIZE * PAGE_SIZE
  }

  /** The code and the processor read the same address if and only if bits 52 to 62
      are clear. */
  lemma PaddrIsFrameExactlyWhen(v: nat)
    ensures Paddr(v) == FrameOf(v) <==> v % NX < FRAMES_END
  {
    hide Paddr;
    PaddrIs(v);
    var q, r := v / NX, v % NX;
    var j, k := r / FRAMES_END, r % FRAMES_END;
    DivModUnique(v, FRAMES_END, 2048 * q + j, k);
    var x, l := k / PAGE_SIZE, k % PAGE_SIZE;
    DivModUnique(v, PAGE_SIZE, 0x100_0000_0000 * (2048 * q + j) + x, l);
  }

  lemma RejectsExactly(p: nat)
    requires p < Pow2(64)
    ensures And(p, Not64Mask()) == 0 <==> p % PAGE_SIZE == 0 && p < NX
  {
    hide And, Pow2;
    Pow2Values();
    AndComplement(64, p, ATTR_MASK);
    PaddrIs(p);
  }

  lemma AndSplits(p: nat, b: nat)
    requires p % PAGE_SIZE == 0 && p < NX
    requires b < PAGE_SIZE || NX <= b < NX + PAGE_SIZE
    ensures And(p, b) == 0
  {
    hide And, Pow2, High;
    Pow2Values();
    AndStep(p / PAGE_SIZE, 0);
    AndAbove(p / PAGE_SIZE, 51);
    HighIs(p, 12);
    HighIs(b, 12);
    AndMissesLow(12, p, b);
  }

  /** Address and attribute bits never overlap, so `Or` adds them. */
  lemma AddressPlusBits(p: nat, low: nat, high: bool)
    requires p % PAGE_SIZE == 0 && p < NX && low < PAGE_SIZE
    ensures Or(p, low + if high then NX else 0) == p + low + if high then NX else 0
  {
    hide And, Or, Pow2;
    var b := low + if high then NX else 0;
    AndSplits(p, b);
    OrDisjoint(p, b);
  }

  /** An entry word: a page address, twelve low bits and the top bit. */
  function Word(p: nat, low: nat, high: bool): nat {
    p + low + if high then NX else 0
  }

  ghost predicate Parts(p: nat, low: nat) {
    p % PAGE_SIZE == 0 && p < NX && low < PAGE_SIZE
  }

  lemma WordPages(p: nat, low: nat, high: bool)
    requires Parts(p, low)
    ensures Word(p, low, high) == PAGE_SIZE * (p / PAGE_SIZE + if high then NX / PAGE_SIZE else 0) + low
  {
  }

  lemma DigitPlus(x: nat, y: nat, d: nat)
    requires 0 < d
    ensures (2 * d * y + x) / d % 2 == x / d % 2
  {
    var a, r := x / d, x % d;
    SumOfMultiples(y, a, d);
    DivModUnique(2 * d * y + x, d, 2 * y + a, r);
  }

  lemma SumOfMultiples(y: nat, a: nat, d: nat)
    ensures 2 * d * y + a * d == (2 * y + a) * d
  {
  }

  /** A digit of the low part, where a page is `m` times two of that digit. */
  lemma DigitOfWord(p: nat, low: nat, high: bool, bit: nat, d: nat, m: nat)
    requires Parts(p, low) && Pow2(bit) == d && 2 * d * m == PAGE_SIZE
    ensures GetBit(Word(p, low, high), bit) <==> low / d % 2 == 1
  {
    hide And, Pow2, High, Word;
    var v := Word(p, low, high);
    AndBit(v, bit);
    HighIs(v, bit);
    WordPages(p, low, high);
    var q := p / PAGE_SIZE + if high then NX / PAGE_SIZE else 0;
    PagesInDigits(d, m, q);
    DigitPlus(low, m * q, d);
  }

  lemma PagesInDigits(d: nat, m: nat, q: nat)
    requires 2 * d * m == PAGE_SIZE
    ensures PAGE_SIZE * q == 2 * d * (m * q)
  {
  }

  lemma LowDigits(p: nat, low: nat, high: bool)
    requires Parts(p, low)
    ensures var v := Word(p, low, high);
      && (Present(v) <==> low / 1 % 2 == 1) && (Writable(v) <==> low / 2 % 2 == 1) && (User(v) <==> low / 4 % 2 == 1)
      && (WriteThrough(v) <==> low / 8 % 2 == 1) && (CacheDisabled(v) <==> low / 16 % 2 == 1)
      && (Huge(v) <==> low / 0x80 % 2 == 1)
  {
    hide Pow2, GetBit, Word, Parts;
    Pow2Values();
    DigitOfWord(p, low, high, 0, 1, 2048);
    DigitOfWord(p, low, high, 1, 2, 1024);
    DigitOfWord(p, low, high, 2, 4, 512);
    DigitOfWord(p, low, high, 3, 8, 256);
    DigitOfWord(p, low, high, 4, 16, 128);
    DigitOfWord(p, low, high, 7, 0x80, 16);
  }

  lemma ExecutableDigit(p: nat, low: nat, high: bool)
    requires Parts(p, low)
    ensures Executable(Word(p, low, high)) <==> !high
  {
    hide And, Pow2, High;
    var v := Word(p, low, high);
    Pow2Values();
    AndBit(v, 63);
    HighIs(v, 63);
  }

  lemma PaddrDigits(p: nat, low: nat, high: bool)
    requires Parts(p, low)
    ensures Paddr(Word(p, low, high)) == p
  {
    hide Paddr;
    var v := Word(p, low, high);
    PaddrIs(v);
    WordPages(p, low, high);
    assert v % PAGE_SIZE == low;
    assert v % NX == p + low;
  }

  /** What an entry says about the page or table it points at. */
  datatype View = View(
    present: bool, paddr: nat, writable: bool, executable: bool, user: bool,
    writeThrough: bool, cacheDisabled: bool, huge: bool)

  function ViewOf(v: nat): View {
    View(Present(v), Paddr(v), Writable(v), Executable(v), User(v), WriteThrough(v), CacheDisabled(v), Huge(v))
  }

  /** What the attribute names promise: none of them opens a page to user mode. */
  function Promise(p: nat, a: Attr): View {
    View(
      a != NotPresent, p,
      a == ReadWriteExecuteKernel || a == ReadWriteKernel || a == ReadWriteKernel1GiB || a == ReadWriteKernelIO,
      a == NotPresent || a == ReadExecuteKernel || a == ReadWriteExecuteKernel,
      false, a == ReadWriteKernelIO, a == ReadWriteKernelIO, a == ReadWriteKernel1GiB)
  }

  lemma WordDecodes(p: nat, low: nat, high: bool)
    requires Parts(p, low)
    ensures ViewOf(Word(p, low, high)) ==
      View(low % 2 == 1, p, low / 2 % 2 == 1, !high, low / 4 % 2 == 1, low / 8 % 2 == 1, low / 16 % 2 == 1,
           low / 0x80 % 2 == 1)
  {
    hide Present, Writable, WriteThrough, CacheDisabled, Huge, Executable, User, Paddr, Word, Parts;
    LowDigits(p, low, high);
    ExecutableDigit(p, low, high);
    PaddrDigits(p, low, high);
  }

  lemma OrDecodes(p: nat, a: Attr)
    requires p % PAGE_SIZE == 0 && p < NX
    ensures ViewOf(Or(p, AttrBits(a))) == Promise(p, a)
  {
    hide Or, ViewOf;
    var bits := AttrBits(a);
    var high := bits >= NX;
    var low := if high then bits - NX else bits;
    AddressPlusBits(p, low, high);
    WordDecodes(p, low, high);
  }

  /** An entry is written exactly for page-aligned addresses below bit 63, and
      reading it gives back the address and what its attribute promises. */
  lemma SetEntryDecodes(p: nat, a: Attr)
    requires p < Pow2(64)
    ensures SetEntry(p, a).Some? <==> p % PAGE_SIZE == 0 && p < NX
    ensures SetEntry(p, a).Some? ==> ViewOf(SetEntry(p, a).value) == Promise(p, a)
  {
    hide And, Or, ViewOf, Promise, Pow2;
    RejectsExactly(p);
    if SetEntry(p, a).Some? {
      OrDecodes(p, a);
    }
  }

  const PRESENT := 0x1
  const WRITABLE := 0x2
  const WRITE_THROUGH := 0x8
  const CACHE_DISABLED := 0x10
  const HUGE_PAGE := 0x80

  function Flag(on: bool, bit: nat): nat {
    if on then bit else 0
  }

  /** Besides the address the entry has exactly the bits of what its attribute promises;
      all others, that of user access among them, are zero. */
  lemma SetEntryBits(p: nat, a: Attr)
    requires p < Pow2(64) && SetEntry(p, a).Some?
    ensures var v := Promise(p, a);
      SetEntry(p, a).value == p + Flag(v.present, PRESENT) + Flag(v.writable, WRITABLE)
        + Flag(v.writeThrough, WRITE_THROUGH) + Flag(v.cacheDisabled, CACHE_DISABLED) + Flag(v.huge, HUGE_PAGE)
        + Flag(!v.executable, NX)
  {
    hide And, Or, Pow2;
    RejectsExactly(p);
    var bits := AttrBits(a);
    var high := bits >= NX;
    AddressPlusBits(p, if high then bits - NX else bits, high);
  }

  /** An entry that the code writes leads the processor to the address asked for if and
      only if that address is a physical one; the code accepts more. */
  lemma SetEntryReachesExactlyWhen(p: nat, a: Attr)
    requires p < Pow2(64) && SetEntry(p, a).Some?
    ensures FrameOf(SetEntry(p, a).value) == p <==> p < FRAMES_END
  {
    hide SetEntry, Paddr, Pow2, Present, Writable, Executable, User, WriteThrough, CacheDisabled, Huge;
    var e := SetEntry(p, a).value;
    SetEntryDecodes(p, a);
    assert ViewOf(e).paddr == p;
    PaddrIs(e);
    PaddrIsFrameExactlyWhen(e);
  }

  /** Frame 2^60 is accepted, and the processor reads frame 0. */
  lemma HighFrameIsLost()
    ensures var p := 0x1000_0000_0000_0000;
      SetEntry(p, ReadWriteKernel).Some? && FrameOf(SetEntry(p, ReadWriteKernel).value) == 0
  {
    hide And, Or, Pow2;
    var p := 0x1000_0000_0000_0000;
    Pow2Values();
    RejectsExactly(p);
    AddressPlusBits(p, 3, true);
  }

  const ACCESSED := 0x20
  const DIRTY := 0x40

  /** Setting the accessed or the dirty bit changes nothing that an entry says. */
  lemma AccessKeepsView(e: nat, bit: nat)
    requires e < Pow2(64) && (bit == ACCESSED || bit == DIRTY) && e / bit % 2 == 0
    ensures ViewOf(e + bit) == ViewOf(e) && FrameOf(e + bit) == FrameOf(e)
  {
    hide ViewOf, Pow2;
    Pow2Values();
    var low, high := e % PAGE_SIZE, NX <= e;
    var p := PartsOf(e);
    LowBitFits(e, bit);
    WordDecodes(p, low, high);
    WordDecodes(p, low + bit, high);
    FrameOfSum(e, bit);
  }

  lemma PartsOf(e: nat) returns (p: nat)
    requires e < Pow2(64)
    ensures Parts(p, e % PAGE_SIZE) && e == Word(p, e % PAGE_SIZE, NX <= e)
  {
    Pow2Values();
    p := (if NX <= e then e - NX else e) - e % PAGE_SIZE;
    DivModUnique(p, PAGE_SIZE, e / PAGE_SIZE - (if NX <= e then NX / PAGE_SIZE else 0), 0);
  }

  /** The digits of the low part that an entry is read by. */
  ghost predicate SameDigits(a: nat, b: nat) {
    && a % 2 == b % 2 && a / 2 % 2 == b / 2 % 2 && a / 4 % 2 == b / 4 % 2 && a / 8 % 2 == b / 8 % 2
    && a / 16 % 2 == b / 16 % 2 && a / 0x80 == b / 0x80
  }

  lemma LowBitFits(e: nat, bit: nat)
    requires (bit == ACCESSED || bit == DIRTY) && e / bit % 2 == 0
    ensures var low := e % PAGE_SIZE; low + bit < PAGE_SIZE && SameDigits(low + bit, low)
  {
    var low := e % PAGE_SIZE;
    LowBitClear(e, bit);
    if bit == ACCESSED {
      var a, b := low / 0x40, low % 0x40;
      BitInBlock(low, 0x20);
      AddsDigit5(a, b);
    } else {
      var a, b := low / 0x80, low % 0x80;
      BitInBlock(low, 0x40);
      AddsDigit6(a, b);
    }
  }

  lemma LowBitClear(e: nat, bit: nat)
    requires (bit == ACCESSED || bit == DIRTY) && e / bit % 2 == 0
    ensures e % PAGE_SIZE / bit % 2 == 0
  {
    var low, q := e % PAGE_SIZE, e / PAGE_SIZE;
    DigitPlus(low, (if bit == ACCESSED then 64 else 32) * q, bit);
  }

  lemma BitInBlock(low: nat, bit: nat)
    requires 0 < bit && low / bit % 2 == 0
    ensures low % (2 * bit) < bit && low == low / (2 * bit) * (2 * bit) + low % (2 * bit)
  {
    var x, r := low / bit, low % bit;
    assert low == x * bit + r && x == 2 * (x / 2);
    assert x * bit == x / 2 * (2 * bit);
    DivModUnique(low, 2 * bit, x / 2, r);
  }

  lemma AddsDigit5(a: nat, b: nat)
    requires b < 0x20 && 0x40 * a + b < PAGE_SIZE
    ensures 0x40 * a + b + 0x20 < PAGE_SIZE && SameDigits(0x40 * a + b + 0x20, 0x40 * a + b)
  {
    Halves(0x40 * a + b, 0x20);
    DivModUnique(0x40 * a + b, 0x80, a / 2, 0x40 * (a % 2) + b);
    DivModUnique(0x40 * a + b + 0x20, 0x80, a / 2, 0x40 * (a % 2) + b + 0x20);
  }

  lemma AddsDigit6(a: nat, b: nat)
    requires b < 0x40 && 0x80 * a + b < PAGE_SIZE
    ensures 0x80 * a + b + 0x40 < PAGE_SIZE && SameDigits(0x80 * a + b + 0x40, 0x80 * a + b)
  {
    Halves(0x80 * a + b, 0x40);
    DivModUnique(0x80 * a + b, 0x80, a, b);
    DivModUnique(0x80 * a + b + 0x40, 0x80, a, b + 0x40);
  }

  lemma Halves(x: nat, bit: nat)
    requires bit == 0x20 || bit == 0x40
    ensures (x + bit) % 2 == x % 2 && (x + bit) / 2 % 2 == x / 2 % 2 && (x + bit) / 4 % 2 == x / 4 % 2
    ensures (x + bit) / 8 % 2 == x / 8 % 2 && (x + bit) / 16 % 2 == x / 16 % 2
  {
    var y := if bit == 0x20 then 1 else 2;
    DigitPlus(x, 8 * y, 2);
    DigitPlus(x, 4 * y, 4);
    DigitPlus(x, 2 * y, 8);
    DigitPlus(x, y, 16);
  }

  lemma FrameOfSum(e: nat, bit: nat)
    requires e % PAGE_SIZE + bit < PAGE_SIZE
    ensures FrameOf(e + bit) == FrameOf(e)
  {
    var q, w := e / FRAMES_END, e % FRAMES_END;
    var x, l := w / PAGE_SIZE, w % PAGE_SIZE;
    DivModUnique(e, PAGE_SIZE, 0x100_0000_0000 * q + x, l);
    DivModUnique(e + bit, FRAMES_END, q, w + bit);
    DivModUnique(w + bit, PAGE_SIZE, x, l + bit);
  }

  lemma ZeroIsAbsent()
    ensures !Present(0)
  {
    LowDigits(0, 0, false);
  }
}
