/** Bitwise operations on natural numbers, and the arithmetic forms of the masks
    that the kernel uses. */
module Bits {

  const WORD := 0x1_0000_0000_0000_0000  // 2^64

  function Pow2(k: nat): (p: nat)
    ensures 0 < p
  {
    if k == 0 then 1 else 2 * Pow2(k - 1)
  }

  lemma Pow2Next(k: nat)
    ensures Pow2(k + 1) == 2 * Pow2(k)
  {
  }

  lemma Pow2Plus3(k: nat)
    ensures Pow2(k + 3) == 8 * Pow2(k)
  {
    assert Pow2(k + 3) == 2 * Pow2(k + 2);
    assert Pow2(k + 2) == 2 * Pow2(k + 1);
  }

  lemma Pow2Plus9(k: nat)
    ensures Pow2(k + 9) == 512 * Pow2(k)
  {
    Pow2Plus3(k);
    Pow2Plus3(k + 3);
    Pow2Plus3(k + 6);
  }

  lemma Pow2Small()
    ensures Pow2(0) == 1 && Pow2(1) == 2
  {
  }

  /** The powers that occur in addresses and masks. */
  lemma Pow2Values()
    ensures Pow2(0) == 1 && Pow2(1) == 2 && Pow2(2) == 4 && Pow2(3) == 8 && Pow2(4) == 16 && Pow2(7) == 0x80 && Pow2(9) == 0x200 && Pow2(12) == 0x1000
    ensures Pow2(21) == 0x20_0000 && Pow2(30) == 0x4000_0000 && Pow2(39) == 0x80_0000_0000
    ensures Pow2(48) == 0x1_0000_0000_0000 && Pow2(51) == 0x8_0000_0000_0000 && Pow2(63) == 0x8000_0000_0000_0000
    ensures Pow2(64) == 0x1_0000_0000_0000_0000
  {
    hide Pow2;
    Pow2Small();
    Pow2Next(1);
    Pow2Plus3(0);
    Pow2Plus3(1);
    Pow2Plus3(4);
    Pow2Plus9(0);
    Pow2Plus3(9);
    Pow2Plus9(12);
    Pow2Plus9(21);
    Pow2Plus9(30);
    Pow2Plus9(39);
    Pow2Plus3(48);
    Pow2Plus9(48);
    Pow2Plus3(57);
    Pow2Plus3(60);
    Pow2Next(63);
  }

  /** Bitwise and, digit by digit. */
  function And(a: nat, b: nat): nat {
    if a == 0 || b == 0 then 0
    else 2 * And(a / 2, b / 2) + if a % 2 == 1 && b % 2 == 1 then 1 else 0
  }

  /** Bitwise or, digit by digit. */
  function Or(a: nat, b: nat): nat {
    if a == 0 then b else if b == 0 then a
    else 2 * Or(a / 2, b / 2) + if a % 2 == 1 || b % 2 == 1 then 1 else 0
  }

  /** Bitwise complement in `width` bits. */
  function Not(width: nat, a: nat): nat
    requires a < Pow2(width)
  {
    Pow2(width) - 1 - a
  }

  lemma {:induction false} MulStep(a: nat, b: nat, d: nat)
    requires a < b
    ensures a * d + d <= b * d
    decreases b
  {
    if a + 1 < b {
      MulStep(a, b - 1, d);
    }
    assert b * d == (b - 1) * d + d;
  }

  lemma OneRepresentation(d: nat, q: nat, r: nat, q': nat, r': nat)
    requires r < d && r' < d && q * d + r == q' * d + r'
    ensures q == q' && r == r'
  {
    if q < q' {
      MulStep(q, q', d);
    } else if q' < q {
      MulStep(q', q, d);
    }
  }

  lemma DivModUnique(x: nat, d: nat, q: nat, r: nat)
    requires r < d && x == q * d + r
    ensures x / d == q && x % d == r
  {
    OneRepresentation(d, q, r, x / d, x % d);
  }

  /** The low digit of a remainder by a power of two. */
  lemma ModPow2(x: nat, k: nat)
    requires 0 < k
    ensures x % Pow2(k) == 2 * ((x / 2) % Pow2(k - 1)) + x % 2
    ensures x / Pow2(k) == x / 2 / Pow2(k - 1)
  {
    var p := Pow2(k - 1);
    var q, r := x / 2 / p, (x / 2) % p;
    assert x / 2 == q * p + r;
    assert x == q * (2 * p) + (2 * r + x % 2);
    DivModUnique(x, 2 * p, q, 2 * r + x % 2);
  }

  lemma {:induction false} Pow2Monotone(j: nat, k: nat)
    requires j <= k
    ensures Pow2(j) <= Pow2(k)
  {
    if j < k {
      Pow2Monotone(j, k - 1);
    }
  }

  lemma AndStep(a: nat, b: nat)
    ensures And(a, b) == 2 * And(a / 2, b / 2) + if a % 2 == 1 && b % 2 == 1 then 1 else 0
    ensures And(a, 0) == 0
  {
  }

  /** The low `k` digits. */
  function Low(x: nat, k: nat): nat {
    x % Pow2(k)
  }

  lemma LowStep(x: nat, k: nat)
    ensures Low(x, 0) == 0
    ensures 0 < k ==> Low(x, k) == 2 * Low(x / 2, k - 1) + x % 2
  {
    if 0 < k {
      ModPow2(x, k);
    }
  }

  lemma MaskHalf(k: nat, m: nat)
    requires k < m
    ensures var k' := if k == 0 then 0 else k - 1;
      && Pow2(k) <= Pow2(m) && Pow2(k') <= Pow2(m - 1)
      && var mask := Pow2(m) - Pow2(k);
         mask / 2 == Pow2(m - 1) - Pow2(k') && mask % 2 == (if k == 0 then 1 else 0)
  {
    Pow2Monotone(k, m - 1);
    Pow2Monotone(0, m - 1);
    if k > 0 {
      Pow2Monotone(k - 1, m - 1);
    }
  }

  /** A mask of the digits from `k` up to `m` keeps exactly those digits. */
  lemma {:induction false} AndMask(x: nat, k: nat, m: nat)
    requires k <= m
    ensures Pow2(k) <= Pow2(m)
    ensures And(x, Pow2(m) - Pow2(k)) == Low(x, m) - Low(x, k)
    decreases m
  {
    hide And, Low, Pow2;
    if k == m {
      AndStep(x, 0);
    } else {
      MaskHalf(k, m);
      AndStep(x, Pow2(m) - Pow2(k));
      LowStep(x, m);
      LowStep(x, k);
      var k' := if k == 0 then 0 else k - 1;
      LowStep(x / 2, k');
      AndMask(x / 2, k', m - 1);
    }
  }

  lemma LowFits(x: nat, k: nat)
    requires x < Pow2(k)
    ensures Low(x, k) == x
  {
    DivModUnique(x, Pow2(k), 0, x);
  }

  /** Clearing the low `k` bits of a word. */
  lemma AndClears(x: nat, k: nat, width: nat)
    requires k <= width && x < Pow2(width)
    ensures Pow2(k) - 1 < Pow2(width)
    ensures And(x, Not(width, Pow2(k) - 1)) == x - x % Pow2(k)
  {
    hide And;
    AndMask(x, k, width);
    LowFits(x, width);
  }

  /** Keeping the low `k` bits. */
  lemma AndKeeps(x: nat, k: nat)
    ensures And(x, Pow2(k) - 1) == x % Pow2(k)
  {
    hide And;
    AndMask(x, 0, k);
  }

  /** Or of numbers without a common digit is their sum. */
  lemma {:induction false} OrDisjoint(a: nat, b: nat)
    requires And(a, b) == 0
    ensures Or(a, b) == a + b
    decreases a
  {
    if a != 0 && b != 0 {
      OrDisjoint(a / 2, b / 2);
    }
  }

  lemma OrStep(a: nat, b: nat)
    ensures Or(a, b) == 2 * Or(a / 2, b / 2) + if a % 2 == 1 || b % 2 == 1 then 1 else 0
    ensures Or(a, 0) == a && Or(0, b) == b
  {
  }

  /** Setting the digits from `k` up to `m` keeps the digits below. */
  lemma {:induction false} OrMask(x: nat, k: nat, m: nat)
    requires k <= m && x < Pow2(m)
    ensures Pow2(k) <= Pow2(m)
    ensures Or(x, Pow2(m) - Pow2(k)) == Low(x, k) + (Pow2(m) - Pow2(k))
    decreases m
  {
    hide Or, Low;
    if k == m {
      OrStep(x, 0);
      LowFits(x, m);
    } else {
      MaskHalf(k, m);
      OrStep(x, Pow2(m) - Pow2(k));
      LowStep(x, k);
      var k' := if k == 0 then 0 else k - 1;
      LowStep(x / 2, k');
      OrMask(x / 2, k', m - 1);
    }
  }

  /** The digits outside a mask are the rest of the number. */
  lemma {:induction false} AndComplement(width: nat, x: nat, mask: nat)
    requires x < Pow2(width) && mask < Pow2(width)
    ensures And(x, Not(width, mask)) + And(x, mask) == x
    decreases width
  {
    if width > 0 {
      AndStep(x, mask);
      AndStep(x, Not(width, mask));
      AndComplement(width - 1, x / 2, mask / 2);
      assert Not(width, mask) / 2 == Not(width - 1, mask / 2);
    }
  }

  /** The digits from `k` on. */
  function High(x: nat, k: nat): nat {
    if k == 0 then x else High(x / 2, k - 1)
  }

  lemma {:induction false} HighIs(x: nat, k: nat)
    ensures High(x, k) == x / Pow2(k)
    decreases k
  {
    if 0 < k {
      ModPow2(x, k);
      HighIs(x / 2, k - 1);
    }
  }

  /** A number with `k` zero digits at the low end meets only the higher digits. */
  lemma {:induction false} AndMissesLow(k: nat, x: nat, b: nat)
    requires Low(x, k) == 0 && And(High(x, k), High(b, k)) == 0
    ensures And(x, b) == 0
    decreases k
  {
    hide And, Low;
    if k > 0 {
      LowStep(x, k);
      AndStep(x, b);
      AndMissesLow(k - 1, x / 2, b / 2);
    }
  }

  /** A mask of one bit tests one digit. */
  lemma {:induction false} AndBit(x: nat, k: nat)
    ensures And(x, Pow2(k)) != 0 <==> High(x, k) % 2 == 1
    decreases k
  {
    hide And;
    AndStep(x, Pow2(k));
    if k > 0 {
      AndBit(x / 2, k - 1);
    } else {
      AndStep(x / 2, 0);
    }
  }

  /** A single high digit misses every smaller number. */
  lemma AndAbove(q: nat, k: nat)
    requires q < Pow2(k)
    ensures And(q, Pow2(k)) == 0
  {
    hide And, Low;
    AndMask(q, k, k + 1);
    Pow2Next(k);
    LowFits(q, k);
    LowFits(q, k + 1);
  }

  // ----- rounding up -----

  function RoundUp(x: nat, align: nat): nat
    requires 0 < align
  {
    x + align - 1 - (x + align - 1) % align
  }

  lemma MultipleSteps(a: nat, r: nat, r': nat)
    requires 0 < a && r % a == 0 && r' % a == 0 && r < r'
    ensures r + a <= r'
  {
    var q, q' := r / a, r' / a;
    assert r == q * a && r' == q' * a;
    if q' <= q {
      if q' < q {
        MulStep(q', q, a);
      }
      assert false;
    }
    MulStep(q, q', a);
  }

  lemma {:induction false} SubModIsMultiple(y: nat, a: nat)
    requires 0 < a
    ensures (y - y % a) % a == 0
  {
    var q := y / a;
    assert y == q * a + y % a;
    DivModUnique(q * a, a, q, 0);
  }

  /** The least multiple of `align` that is not below `x`. */
  lemma RoundUpIsLeast(x: nat, align: nat)
    requires 0 < align
    ensures var r := RoundUp(x, align);
      && r % align == 0 && x <= r < x + align
      && forall r' :: x <= r' && r' % align == 0 ==> r <= r'
  {
    var r := RoundUp(x, align);
    SubModIsMultiple(x + align - 1, align);
    forall r' | x <= r' && r' % align == 0
      ensures r <= r'
    {
      if r' < r {
        MultipleSteps(align, r', r);
      }
    }
  }
}
