/** Bits of byte strings, highest bit of the first byte first, and the comparison
    loops of ebtree.h on them. */
module ByteBits {
  import opened Bits

  type Bytes = seq<int>

  ghost predicate IsBytes(s: Bytes) {
    forall i | 0 <= i < |s| :: 0 <= s[i] < 256
  }

  /** Bit k of a byte, the highest one being bit 0. */
  predicate ByteBit(u: nat, k: nat)
    requires k < 8
  {
    Shr(u, 7 - k) % 2 == 1
  }

  /** get_bit() */
  predicate BitAt(s: Bytes, i: nat)
    requires i / 8 < |s| && s[i / 8] >= 0
  {
    ByteBit(s[i / 8], i % 8)
  }

  /** The two blocks agree on their first n bits. */
  ghost predicate AgreeBits(a: Bytes, b: Bytes, n: nat)
    requires IsBytes(a) && IsBytes(b) && n <= 8 * |a| && n <= 8 * |b|
  {
    forall i | 0 <= i < n :: BitAt(a, i) == BitAt(b, i)
  }

  /** 8 - flsnz8(u ^ v) is the first bit on which two bytes differ. */
  lemma FirstDifference(u: nat, v: nat)
    requires u < 256 && v < 256 && u != v
    ensures Xor(u, v) > 0 && 1 <= Fls(Xor(u, v)) <= 8
    ensures var d := 8 - Fls(Xor(u, v));
            && (forall k | 0 <= k < d :: ByteBit(u, k) == ByteBit(v, k))
            && ByteBit(u, d) != ByteBit(v, d)
  {
    hide Xor, Fls, ByteBit;
    HighestBit(u, v);
    var f := Fls(Xor(u, v));
    forall k | 0 <= k < 8 - f
      ensures ByteBit(u, k) == ByteBit(v, k)
    {
      BitsAbove(u, v, f, k);
    }
  }

  lemma HighestBit(u: nat, v: nat)
    requires u < 256 && v < 256 && u != v
    ensures Xor(u, v) > 0
    ensures var f := Fls(Xor(u, v));
            1 <= f <= 8 && Shr(u, f) == Shr(v, f) && ByteBit(u, 8 - f) != ByteBit(v, 8 - f)
  {
    hide Xor, Fls, Shr;
    XorZero(u, v);
    var f := Fls(Xor(u, v));
    FlsIs(Xor(u, v));
    ShrXor(u, v, f);
    ShrXor(u, v, f - 1);
    XorZero(Shr(u, f), Shr(v, f));
    XorZero(Shr(u, f - 1), Shr(v, f - 1));
    ShrNext(u, f - 1);
    ShrNext(v, f - 1);
    ByteEnds(u);
    ByteEnds(v);
    if f > 8 {
      ShrTwice(u, 8, f - 9);
      ShrTwice(v, 8, f - 9);
      assert false;
    }
  }

  lemma BitsAbove(u: nat, v: nat, f: nat, k: nat)
    requires k + f < 8 && Shr(u, f) == Shr(v, f)
    ensures ByteBit(u, k) == ByteBit(v, k)
  {
    hide Shr;
    ShrTwice(u, f, 7 - k - f);
    ShrTwice(v, f, 7 - k - f);
  }

  lemma ByteEnds(u: nat)
    requires u < 256
    ensures Shr(u, 8) == 0
  {
    assert Pow2(8) == 256;
    ShrZero(u, 8, 256);
  }

  /** Bytes are their eight bits. */
  lemma SameByte(u: nat, v: nat)
    requires u < 256 && v < 256 && forall k | 0 <= k < 8 :: ByteBit(u, k) == ByteBit(v, k)
    ensures u == v
  {
    if u != v {
      FirstDifference(u, v);
      assert false;
    }
  }

  /** One more equal byte. */
  lemma AgreeByte(a: Bytes, b: Bytes, i: nat)
    requires IsBytes(a) && IsBytes(b) && i < |a| && i < |b| && AgreeBits(a, b, 8 * i) && a[i] == b[i]
    ensures AgreeBits(a, b, 8 * (i + 1))
  {
    forall j | 0 <= j < 8 * (i + 1)
      ensures BitAt(a, j) == BitAt(b, j)
    {
      if j >= 8 * i {
        assert j / 8 == i;
      }
    }
  }

  /** Up to the first differing bit of a byte. */
  lemma AgreePartByte(a: Bytes, b: Bytes, i: nat, d: nat)
    requires IsBytes(a) && IsBytes(b) && i < |a| && i < |b| && AgreeBits(a, b, 8 * i) && d < 8
    requires forall k | 0 <= k < d :: ByteBit(a[i], k) == ByteBit(b[i], k)
    ensures AgreeBits(a, b, 8 * i + d)
  {
    forall j | 0 <= j < 8 * i + d
      ensures BitAt(a, j) == BitAt(b, j)
    {
      if j >= 8 * i {
        assert j / 8 == i && j % 8 == j - 8 * i;
      }
    }
  }

  /** equal_bits(): the number of equal bits, exact below len. */
  method EqualBits(a: Bytes, b: Bytes, ignore: nat, len: nat) returns (r: nat)
    requires IsBytes(a) && IsBytes(b) && len <= 8 * |a| && len <= 8 * |b|
    requires AgreeBits(a, b, if 8 * (ignore / 8) < len then 8 * (ignore / 8) else len)
    ensures r < len ==> AgreeBits(a, b, r) && BitAt(a, r) != BitAt(b, r)
    ensures r >= len ==> AgreeBits(a, b, len)
  {
    var i := ignore / 8;
    r := 8 * i;
    while r < len
      invariant r == 8 * i
      invariant AgreeBits(a, b, if r < len then r else len)
      decreases 8 * |a| - 8 * i
    {
      var c := Xor(b[i], a[i]);
      XorZero(b[i], a[i]);
      if c != 0 {
        FirstDifference(b[i], a[i]);
        AgreePartByte(a, b, i, 8 - Fls(c));
        r := r + 8 - Fls(c);
        assert r / 8 == i && r % 8 == 8 - Fls(c);
        return;
      }
      AgreeByte(a, b, i);
      i := i + 1;
      r := r + 8;
    }
  }

  /** cmp_bits() */
  function CmpBits(a: Bytes, b: Bytes, pos: nat): (r: int)
    requires pos / 8 < |a| && pos / 8 < |b| && a[pos / 8] >= 0 && b[pos / 8] >= 0
    ensures -1 <= r <= 1 && (r == 0 <==> BitAt(a, pos) == BitAt(b, pos)) && (r < 0 ==> !BitAt(a, pos)) && (r > 0 ==> BitAt(a, pos))
  {
    (if BitAt(a, pos) then 1 else 0) - (if BitAt(b, pos) then 1 else 0)
  }

  /** What is left of a difference after shifting out the low bits tells whether
      the bytes differ on their first bits. */
  lemma ShiftedDifference(u: nat, v: nat, n: nat)
    requires u < 256 && v < 256 && n <= 8
    ensures Shr(Xor(u, v), 8 - n) == 0 <==> forall k | 0 <= k < n :: ByteBit(u, k) == ByteBit(v, k)
  {
    ShrXor(u, v, 8 - n);
    XorZero(Shr(u, 8 - n), Shr(v, 8 - n));
    ByteEnds(u);
    ByteEnds(v);
    FirstBits(u, v, n);
  }

  lemma {:induction false} FirstBits(u: nat, v: nat, n: nat)
    requires u < 256 && v < 256 && n <= 8
    ensures Shr(u, 8 - n) == Shr(v, 8 - n) <==> forall k | 0 <= k < n :: ByteBit(u, k) == ByteBit(v, k)
  {
    ByteEnds(u);
    ByteEnds(v);
    if n > 0 {
      FirstBits(u, v, n - 1);
      ShrNext(u, 8 - n);
      ShrNext(v, 8 - n);
      assert ByteBit(u, n - 1) == (Shr(u, 8 - n) % 2 == 1);
      assert ByteBit(v, n - 1) == (Shr(v, 8 - n) % 2 == 1);
    }
  }

  /** check_bits(): zero iff the blocks agree on len bits, the first skip bytes
      being known to. */
  method CheckBits(a: Bytes, b: Bytes, skip: nat, len: nat) returns (r: nat)
    requires IsBytes(a) && IsBytes(b) && skip < |a| && skip < |b| && len <= 8 * |a| && len <= 8 * |b|
    requires 8 * skip <= len && AgreeBits(a, b, 8 * skip)
    ensures r == 0 <==> AgreeBits(a, b, len)
  {
    var i, bit := skip, 8 * skip + 8 - len;
    r := Xor(a[i], b[i]);
    while bit < 0
      invariant 0 <= i < |a| && i < |b| && bit == 8 * i + 8 - len <= 8
      invariant r == Xor(a[i], b[i]) && AgreeBits(a, b, 8 * i)
      decreases -bit
    {
      XorZero(a[i], b[i]);
      i := i + 1;
      if r != 0 {
        FirstDifference(a[i - 1], b[i - 1]);
        var d := 8 - Fls(r);
        assert (8 * (i - 1) + d) / 8 == i - 1 && (8 * (i - 1) + d) % 8 == d;
        assert BitAt(a, 8 * (i - 1) + d) != BitAt(b, 8 * (i - 1) + d);
        return;
      }
      AgreeByte(a, b, i - 1);
      r := Xor(a[i], b[i]);
      bit := bit + 8;
    }
    ShiftedDifference(a[i], b[i], 8 - bit);
    LastByte(a, b, i, 8 - bit);
    r := Shr(r, bit);
  }

  lemma LastByte(a: Bytes, b: Bytes, i: nat, d: nat)
    requires IsBytes(a) && IsBytes(b) && i < |a| && i < |b| && AgreeBits(a, b, 8 * i) && d <= 8
    ensures AgreeBits(a, b, 8 * i + d) <==> forall k | 0 <= k < d :: ByteBit(a[i], k) == ByteBit(b[i], k)
  {
    if AgreeBits(a, b, 8 * i + d) {
      forall k | 0 <= k < d
        ensures ByteBit(a[i], k) == ByteBit(b[i], k)
      {
        assert (8 * i + k) / 8 == i && (8 * i + k) % 8 == k;
        assert BitAt(a, 8 * i + k) == BitAt(b, 8 * i + k);
      }
    } else if d < 8 && forall k | 0 <= k < d :: ByteBit(a[i], k) == ByteBit(b[i], k) {
      AgreePartByte(a, b, i, d);
    } else if forall k | 0 <= k < d :: ByteBit(a[i], k) == ByteBit(b[i], k) {
      SameByte(a[i], b[i]);
      AgreeByte(a, b, i);
    }
  }
}
