/** Machine words as bounded integers, with C's bitwise operators defined bit by bit.

    Each operator is the recursion on the binary expansion; the lemmas give the arithmetic meaning
    (mask, set a bit, clear a bit, align) that the kernel's allocators and page tables rely on. */
module Bits {

  const TWO_TO_32 := 0x1_0000_0000

  type Byte = x: int | 0 <= x < 0x100
  type Word = x: int | 0 <= x < 0x1_0000_0000

  /** The value a C `uint32_t` expression takes when the exact result is `x`. */
  function Wrap(x: int): Word {
    x % TWO_TO_32
  }

  function Pow2(k: nat): (p: nat)
    ensures p > 0
  {
    if k == 0 then 1 else 2 * Pow2(k - 1)
  }

  function And(x: nat, y: nat): nat {
    if x == 0 || y == 0 then 0
    else 2 * And(x / 2, y / 2) + (if x % 2 == 1 && y % 2 == 1 then 1 else 0)
  }

  function Or(x: nat, y: nat): nat {
    if x == 0 then y else if y == 0 then x
    else 2 * Or(x / 2, y / 2) + (if x % 2 == 1 || y % 2 == 1 then 1 else 0)
  }

  /** `~x` on 32 bits. */
  function Not(x: Word): Word {
    TWO_TO_32 - 1 - x
  }

  /** Bit `k` of the binary expansion of `x`. */
  predicate Bit(x: nat, k: nat) {
    if k == 0 then x % 2 == 1 else Bit(x / 2, k - 1)
  }

  lemma Pow2At32()
    ensures Pow2(5) == 32 && Pow2(12) == 4096 && Pow2(32) == TWO_TO_32
  {
    assert Pow2(4) == 16;
    assert Pow2(8) == 256;
    assert Pow2(12) == 4096;
    assert Pow2(16) == 0x1_0000;
    assert Pow2(20) == 0x10_0000;
    assert Pow2(24) == 0x100_0000;
    assert Pow2(28) == 0x1000_0000;
  }

  lemma {:induction false} Pow2Monotone(j: nat, k: nat)
    requires j < k
    ensures 2 * Pow2(j) <= Pow2(k)
  {
    if j + 1 < k { Pow2Monotone(j, k - 1); }
  }

  lemma {:induction false} BitOfZero(k: nat)
    ensures !Bit(0, k)
  {
    if k > 0 { BitOfZero(k - 1); }
  }

  lemma {:induction false} BitOfPow2(j: nat, k: nat)
    ensures Bit(Pow2(j), k) <==> j == k
  {
    if j == 0 && k > 0 {
      BitOfZero(k - 1);
    } else if j > 0 && k > 0 {
      BitOfPow2(j - 1, k - 1);
    }
  }

  lemma {:induction false} BitOfAnd(x: nat, y: nat, k: nat)
    ensures Bit(And(x, y), k) <==> Bit(x, k) && Bit(y, k)
  {
    if x == 0 || y == 0 {
      BitOfZero(k);
    } else if k > 0 {
      BitOfAnd(x / 2, y / 2, k - 1);
    }
  }

  lemma {:induction false} BitOfOr(x: nat, y: nat, k: nat)
    ensures Bit(Or(x, y), k) <==> Bit(x, k) || Bit(y, k)
  {
    BitOfZero(k);
    if x != 0 && y != 0 && k > 0 {
      BitOfOr(x / 2, y / 2, k - 1);
    }
  }

  lemma {:induction false} BitOfComplement(n: nat, x: nat, k: nat)
    requires x < Pow2(n) && k < n
    ensures Bit(Pow2(n) - 1 - x, k) <==> !Bit(x, k)
  {
    if k > 0 {
      assert (Pow2(n) - 1 - x) / 2 == Pow2(n - 1) - 1 - x / 2;
      BitOfComplement(n - 1, x / 2, k - 1);
    }
  }

  /** `x & (1 << k)` is non-zero exactly when bit `k` is set. */
  lemma {:induction false} AndPow2(x: nat, k: nat)
    ensures And(x, Pow2(k)) != 0 <==> Bit(x, k)
  {
    if x == 0 {
      BitOfZero(k);
    } else if k > 0 {
      AndPow2(x / 2, k - 1);
    }
  }

  lemma {:induction false} AndBound(x: nat, y: nat)
    ensures And(x, y) <= x && And(x, y) <= y
  {
    if x != 0 && y != 0 { AndBound(x / 2, y / 2); }
  }

  lemma {:induction false} OrBound(n: nat, x: nat, y: nat)
    requires x < Pow2(n) && y < Pow2(n)
    ensures Or(x, y) < Pow2(n)
  {
    if x != 0 && y != 0 { OrBound(n - 1, x / 2, y / 2); }
  }

  lemma {:induction false} AndComplement(n: nat, x: nat, y: nat)
    requires x < Pow2(n) && y < Pow2(n)
    ensures And(x, Pow2(n) - 1 - y) == x - And(x, y)
  {
    if n > 0 && x != 0 {
      assert (Pow2(n) - 1 - y) / 2 == Pow2(n - 1) - 1 - y / 2;
      AndComplement(n - 1, x / 2, y / 2);
      if y == 0 { AndFull(n, x); }
    }
  }

  lemma {:induction false} AndFull(n: nat, x: nat)
    requires x < Pow2(n)
    ensures And(x, Pow2(n) - 1) == x
  {
    if n > 0 && x != 0 {
      assert (Pow2(n) - 1) / 2 == Pow2(n - 1) - 1;
      AndFull(n - 1, x / 2);
    }
  }

  /** Clearing the bits of `m` subtracts `x & m`: what `x & ~m` means for any mask. */
  lemma ClearMask(x: Word, m: Word)
    ensures And(x, Not(m)) == x - And(x, m)
    ensures And(x, m) <= m
  {
    Pow2At32();
    AndComplement(32, x, m);
    AndBound(x, m);
  }

  /** `x & (2^k - 1)` is the remainder by `2^k`. */
  lemma {:induction false} LowBits(x: nat, k: nat, p: nat)
    requires p == Pow2(k)
    ensures And(x, p - 1) == x % p
  {
    if k > 0 {
      var m := Pow2(k - 1);
      LowBits(x / 2, k - 1, m);
      AndOdd(x, m - 1);
      ModDouble(x, m);
    }
  }

  lemma AndOdd(x: nat, h: nat)
    ensures And(x, 2 * h + 1) == 2 * And(x / 2, h) + x % 2
  {
    assert (2 * h + 1) / 2 == h && (2 * h + 1) % 2 == 1;
  }

  lemma ModDouble(x: nat, m: nat)
    requires m > 0
    ensures x % (2 * m) == 2 * ((x / 2) % m) + x % 2
  {
    var h := x / 2;
    var q, r := h / m, h % m;
    assert h == m * q + r;
    RemainderIs(x, 2 * m, q, 2 * r + x % 2);
  }

  lemma RemainderIs(x: int, d: nat, q: int, r: int)
    requires d > 0 && 0 <= r < d && x == d * q + r
    ensures x % d == r && x / d == q
  {
    var e, s := x / d, x % d;
    assert d * (e - q) == r - s;
    if e > q {
      AtLeast(d, e - q);
    } else if e < q {
      AtLeast(d, q - e);
    }
  }

  lemma AtLeast(d: nat, k: nat)
    requires k > 0
    ensures d * k >= d
  {
  }

  /** `(x | y) & z` is `(x & z) | (y & z)`. */
  lemma {:induction false} AndOverOr(x: nat, y: nat, z: nat)
    ensures And(Or(x, y), z) == Or(And(x, z), And(y, z))
  {
    if x != 0 && y != 0 && z != 0 {
      AndOverOr(x / 2, y / 2, z / 2);
      var o, a, b := Or(x, y), And(x, z), And(y, z);
      assert o / 2 == Or(x / 2, y / 2) && (o % 2 == 1 <==> x % 2 == 1 || y % 2 == 1) by { OrStep(x, y); }
      assert a / 2 == And(x / 2, z / 2) && (a % 2 == 1 <==> x % 2 == 1 && z % 2 == 1) by { AndStep(x, z); }
      assert b / 2 == And(y / 2, z / 2) && (b % 2 == 1 <==> y % 2 == 1 && z % 2 == 1) by { AndStep(y, z); }
      AndStep(o, z);
      OrStep(a, b);
    }
  }

  lemma AndStep(x: nat, y: nat)
    ensures And(x, y) == 2 * And(x / 2, y / 2) + (if x % 2 == 1 && y % 2 == 1 then 1 else 0)
  {
  }

  lemma OrStep(x: nat, y: nat)
    ensures Or(x, y) == 2 * Or(x / 2, y / 2) + (if x % 2 == 1 || y % 2 == 1 then 1 else 0)
  {
  }

  /** Setting bits below `2^k` in a multiple of `2^k` is an addition. */
  lemma {:induction false} OrDisjoint(x: nat, f: nat, k: nat)
    requires x % Pow2(k) == 0 && f < Pow2(k)
    ensures Or(x, f) == x + f
  {
    if x != 0 && f != 0 {
      ModDouble(x, Pow2(k - 1));
      OrDisjoint(x / 2, f / 2, k - 1);
    }
  }

  /** `w | (1 << k)`: bit `k` becomes set, every other bit keeps its value. */
  lemma SetBit(w: Word, k: nat, j: nat)
    requires k < 32 && j < 32
    ensures 0 <= Or(w, Pow2(k)) < TWO_TO_32
    ensures Bit(Or(w, Pow2(k)), j) <==> j == k || Bit(w, j)
  {
    Pow2At32();
    Pow2Monotone(k, 32);
    OrBound(32, w, Pow2(k));
    BitOfOr(w, Pow2(k), j);
    BitOfPow2(k, j);
  }

  /** `w & ~(1 << k)`: bit `k` becomes clear, every other bit keeps its value. */
  lemma ClearBit(w: Word, k: nat, j: nat)
    requires k < 32 && j < 32
    ensures Pow2(k) < TWO_TO_32 && And(w, Not(Pow2(k))) <= w
    ensures Bit(And(w, Not(Pow2(k))), j) <==> j != k && Bit(w, j)
  {
    Pow2At32();
    Pow2Monotone(k, 32);
    AndBound(w, Not(Pow2(k)));
    BitOfAnd(w, Not(Pow2(k)), j);
    BitOfComplement(32, Pow2(k), j);
    BitOfPow2(k, j);
  }

  /** `(x + a - 1) & ~(a - 1)` as the C code computes it. */
  function AlignUp(x: Word, a: Word): Word {
    var y, m := Wrap(x + a - 1), Wrap(a - 1);
    AndBound(y, Not(m));
    And(y, Not(m))
  }

  lemma WrapSmall(x: int)
    requires 0 <= x < TWO_TO_32
    ensures Wrap(x) == x
  {
  }

  /** Rounding never moves down nor beyond `a - 1` when the sum does not wrap, whatever `a` is. */
  lemma AlignUpBounds(x: Word, a: Word)
    requires a > 0 && x + a - 1 < TWO_TO_32
    ensures x <= AlignUp(x, a) <= x + a - 1
  {
    AlignUpIs(x, a);
    ClearMask(x + a - 1, a - 1);
  }

  /** For a power of two the result is a multiple of it. */
  lemma AlignUpAligned(x: Word, a: Word, k: nat)
    requires a == Pow2(k) && x + a - 1 < TWO_TO_32
    ensures AlignUp(x, a) % a == 0
  {
    var y, u := x + a - 1, AlignUp(x, a);
    assert u == y - And(y, a - 1) by { AlignUpIs(x, a); }
    var z := And(y, a - 1);
    assert z == y % a by { LowBits(y, k, a); }
    AlignedDown(y, a, u);
  }

  lemma {:induction false} AndSelf(x: nat)
    ensures And(x, x) == x
  {
    if x != 0 { AndSelf(x / 2); }
  }

  /** `a & (a - 1)` is zero for powers of two only. */
  lemma {:induction false} PowerOfTwo(a: nat) returns (k: nat)
    requires a > 0 && And(a, a - 1) == 0
    ensures a == Pow2(k)
  {
    if a == 1 {
      return 0;
    }
    AndStep(a, a - 1);
    AndSelf(a / 2);
    k := PowerOfTwo(a / 2);
    k := k + 1;
  }

  /** Rounding up reaches a multiple from everywhere exactly for powers of two; 1 is where the others
      fail. */
  lemma AlignsExactly(a: Word)
    requires a > 0
    ensures (forall x: Word :: x + a - 1 < TWO_TO_32 ==> AlignUp(x, a) % a == 0) <==> And(a, a - 1) == 0
  {
    AndBound(a, a - 1);
    if And(a, a - 1) == 0 {
      var k := PowerOfTwo(a);
      forall x: Word | x + a - 1 < TWO_TO_32 ensures AlignUp(x, a) % a == 0 {
        AlignUpAligned(x, a, k);
      }
    } else {
      AlignUpIs(1, a);
      RemainderIs(AlignUp(1, a), a, 0, AlignUp(1, a));
    }
  }

  lemma AlignUpIs(x: Word, a: Word)
    requires a > 0 && x + a - 1 < TWO_TO_32
    ensures AlignUp(x, a) == x + a - 1 - And(x + a - 1, a - 1)
  {
    WrapSmall(x + a - 1);
    WrapSmall(a - 1);
    ClearMask(x + a - 1, a - 1);
  }

  lemma AlignedDown(y: nat, d: nat, u: nat)
    requires d > 0 && u == y - y % d
    ensures u % d == 0
  {
    RemainderIs(u, d, y / d, 0);
  }
}
