/** The bit operations of the C code on unsigned integers, and 32-bit keys as bit
    strings. */
module Bits {
  import opened Codes

  const TWO32 := 0x1_0000_0000

  /** x >> i */
  function Shr(x: nat, i: nat): nat {
    if i == 0 then x else Shr(x / 2, i - 1)
  }

  /** x ^ y */
  function Xor(x: nat, y: nat): nat {
    if x == 0 && y == 0 then 0 else 2 * Xor(x / 2, y / 2) + (x + y) % 2
  }

  /** flsnz(x): the position of the highest bit set, counted from 1. */
  function Fls(x: nat): (r: nat)
    requires x > 0
    ensures r >= 1
  {
    if x == 1 then 1 else 1 + Fls(x / 2)
  }

  lemma {:induction false} ShrTwice(x: nat, i: nat, j: nat)
    ensures Shr(Shr(x, i), j) == Shr(x, i + j)
    decreases i
  {
    if i > 0 {
      ShrTwice(x / 2, i - 1, j);
    }
  }

  lemma ShrNext(x: nat, i: nat)
    ensures Shr(x, i + 1) == Shr(x, i) / 2
  {
    ShrTwice(x, i, 1);
    assert Shr(Shr(x, i), 1) == Shr(Shr(x, i) / 2, 0);
  }

  lemma {:induction false} ShrXor(x: nat, y: nat, i: nat)
    ensures Shr(Xor(x, y), i) == Xor(Shr(x, i), Shr(y, i))
    decreases i
  {
    if i > 0 {
      assert Xor(x, y) / 2 == Xor(x / 2, y / 2);
      ShrXor(x / 2, y / 2, i - 1);
    }
  }

  lemma {:induction false} XorZero(x: nat, y: nat)
    ensures Xor(x, y) == 0 <==> x == y
    decreases x + y
  {
    if x != 0 || y != 0 {
      XorZero(x / 2, y / 2);
    }
  }

  lemma XorSmall(x: nat, y: nat)
    ensures Xor(x, y) < 2 <==> x / 2 == y / 2
  {
    XorZero(x / 2, y / 2);
    if x == 0 && y == 0 {
    } else {
      assert Xor(x, y) == 2 * Xor(x / 2, y / 2) + (x + y) % 2;
    }
  }

  /** The highest set bit: everything above it is clear. */
  lemma {:induction false} FlsIs(x: nat)
    requires x > 0
    ensures Shr(x, Fls(x) - 1) == 1 && Shr(x, Fls(x)) == 0
  {
    if x > 1 {
      FlsIs(x / 2);
    }
  }

  // ----- 32-bit keys

  /** The bits of a 32-bit key, highest first. */
  ghost function Code32(k: nat): (c: Code)
    ensures |c| == 32 && forall i | 0 <= i < 32 :: c[i] == (Shr(k, 31 - i) % 2 == 1)
  {
    seq(32, i requires 0 <= i < 32 => Shr(k, 31 - i) % 2 == 1)
  }

  lemma {:induction false} ShrZero(k: nat, i: nat, b: nat)
    requires k < b && b == Pow2(i)
    ensures Shr(k, i) == 0
    decreases i
  {
    if i > 0 {
      assert b == 2 * Pow2(i - 1);
      assert k / 2 < b / 2 == Pow2(i - 1);
      ShrZero(k / 2, i - 1, b / 2);
    }
  }

  ghost function Pow2(i: nat): (r: nat)
    ensures r >= 1
  {
    if i == 0 then 1 else 2 * Pow2(i - 1)
  }

  /** Two keys agree on their n highest bits exactly if those are the same number. */
  lemma {:induction false} AgreeIffShr(a: nat, b: nat, n: nat)
    requires a < TWO32 && b < TWO32 && n <= 32
    ensures Agree(Code32(a), Code32(b), n) <==> Shr(a, 32 - n) == Shr(b, 32 - n)
  {
    if n == 0 {
      assert Pow2(8) == 0x100;
      assert Pow2(16) == 0x1_0000;
      assert Pow2(24) == 0x100_0000;
      assert Pow2(32) == TWO32;
      ShrZero(a, 32, TWO32);
      ShrZero(b, 32, TWO32);
    } else {
      AgreeIffShr(a, b, n - 1);
      ShrNext(a, 32 - n);
      ShrNext(b, 32 - n);
      assert Code32(a)[n - 1] == (Shr(a, 32 - n) % 2 == 1);
      assert Code32(b)[n - 1] == (Shr(b, 32 - n) % 2 == 1);
    }
  }

  /** ((a ^ b) >> i) >= 2: the keys differ above bit i. */
  lemma DiffersAbove(a: nat, b: nat, i: nat)
    requires a < TWO32 && b < TWO32 && i <= 31
    ensures Shr(Xor(a, b), i) >= 2 <==> Diff(Code32(a), Code32(b)) < 31 - i
  {
    ShrXor(a, b, i);
    XorSmall(Shr(a, i), Shr(b, i));
    ShrNext(a, i);
    ShrNext(b, i);
    AgreeIffShr(a, b, 31 - i);
    if Agree(Code32(a), Code32(b), 31 - i) {
      DiffAtLeast(Code32(a), Code32(b), 31 - i);
    }
  }

  lemma SameCode32(a: nat, b: nat)
    requires a < TWO32 && b < TWO32
    ensures Code32(a) == Code32(b) <==> a == b
  {
    AgreeIffShr(a, b, 32);
  }

  /** flsnz(a ^ b) - 1 is the highest bit on which the keys differ. */
  lemma HighestDifference(a: nat, b: nat)
    requires a < TWO32 && b < TWO32 && a != b
    ensures Xor(a, b) > 0 && Diff(Code32(a), Code32(b)) < 32
    ensures Fls(Xor(a, b)) - 1 == 31 - Diff(Code32(a), Code32(b))
  {
    hide Xor, Fls, Shr, Diff, Code32;
    TopDifference(a, b);
    var c, d, f := Code32(a), Code32(b), Fls(Xor(a, b));
    AgreeIffShr(a, b, 32 - f);
    AgreeIffShr(a, b, 33 - f);
    assert Agree(c, d, 32 - f) && !Agree(c, d, 33 - f);
    assert c[32 - f] != d[32 - f];
    DiffIs(c, d, 32 - f);
  }

  /** fls() finds the highest bit on which two keys differ. */
  lemma TopDifference(a: nat, b: nat)
    requires a < TWO32 && b < TWO32 && a != b
    ensures Xor(a, b) > 0
    ensures var f := Fls(Xor(a, b)); 1 <= f <= 32 && Shr(a, f) == Shr(b, f) && Shr(a, f - 1) != Shr(b, f - 1)
  {
    hide Xor, Fls, Shr, Code32;
    XorZero(a, b);
    var f := Fls(Xor(a, b));
    FlsIs(Xor(a, b));
    ShrXor(a, b, f - 1);
    ShrXor(a, b, f);
    XorZero(Shr(a, f), Shr(b, f));
    XorZero(Shr(a, f - 1), Shr(b, f - 1));
    if f > 32 {
      AgreeIffShr(a, b, 0);
      ShrTwice(a, 32, f - 33);
      ShrTwice(b, 32, f - 33);
      assert false;
    }
  }

  /** The order of the bit strings is the order of the numbers. */
  lemma Order32(a: nat, b: nat)
    requires a < TWO32 && b < TWO32
    ensures Before(Code32(a), Code32(b)) <==> a < b
    ensures Comparable(Code32(a), Code32(b))
  {
    SameCode32(a, b);
    if a == b {
      DiffSame(Code32(a));
    } else {
      HighestDifference(a, b);
      var p := Diff(Code32(a), Code32(b));
      AgreeIffShr(a, b, p);
      ShrNext(a, 31 - p);
      ShrNext(b, 31 - p);
      ShrOrder(a, b, 31 - p);
    }
  }

  lemma {:induction false} ShrOrder(a: nat, b: nat, i: nat)
    ensures Shr(a, i) < Shr(b, i) ==> a < b
    ensures Shr(b, i) < Shr(a, i) ==> b < a
    decreases i
  {
    if i > 0 {
      ShrOrder(a / 2, b / 2, i - 1);
    }
  }
}
