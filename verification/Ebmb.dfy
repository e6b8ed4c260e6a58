/** Prefix trees: the prefix part of ebmbtree.h.

    A prefix is sorted by a code of half-bits: half-bit 2N tells whether the prefix
    goes on after N bits, half-bit 2N+1 is its bit N. A cover node branches on a
    half-bit 2N, with the prefixes of exactly N bits on its left. */
module Ebmb {
  import opened Options
  import opened Numbers
  import opened Codes
  import opened Bits
  import opened ByteBits
  import opened EbNodes
  import opened EbTrees
  import opened EbMemory
  import opened EbLists
  import opened EbRadix
  import opened EbInsert
  import opened EbLinking
  import opened EbDupTree
  import opened EbTree
  import opened EbWalk

  ghost function PfxCode(s: Bytes, pfx: nat): (c: Code)
    requires IsBytes(s) && pfx <= 8 * |s|
    ensures |c| == 2 * pfx + 1
    ensures forall j | 0 <= j < |c| :: c[j] == if j == 2 * pfx then false else if j % 2 == 0 then true else BitAt(s, j / 2)
  {
    seq(2 * pfx + 1, j requires 0 <= j < 2 * pfx + 1 =>
      if j == 2 * pfx then false else if j % 2 == 0 then true else BitAt(s, j / 2))
  }

  /** An entity with a prefix of a block of len bytes as its key. */
  ghost predicate IsPfx(n: Node, len: nat) {
    && n.key.Pfx? && |n.key.bytes| == len && IsBytes(n.key.bytes) && n.key.pfx <= 8 * len
    && n.code == PfxCode(n.key.bytes, n.key.pfx)
  }

  ghost predicate AllPfx(tt: Top, len: nat) {
    forall e | e in Members(tt) :: IsPfx(e, len)
  }

  // ----- codes of prefixes

  lemma CodeBits(a: Bytes, p: nat, b: Bytes, q: nat, n: nat)
    requires IsBytes(a) && IsBytes(b) && p <= 8 * |a| && q <= 8 * |b| && n <= p && n <= q && AgreeBits(a, b, n)
    ensures Agree(PfxCode(a, p), PfxCode(b, q), 2 * n)
  {
    forall j | 0 <= j < 2 * n
      ensures PfxCode(a, p)[j] == PfxCode(b, q)[j]
    {
      if j % 2 == 1 {
        assert BitAt(a, j / 2) == BitAt(b, j / 2);
      }
    }
  }

  /** Two prefixes which agree as far as both go: the same, or one covers the other. */
  lemma CoverDiff(a: Bytes, p: nat, b: Bytes, q: nat)
    requires IsBytes(a) && IsBytes(b) && p <= 8 * |a| && q <= 8 * |b| && AgreeBits(a, b, Min(p, q))
    ensures p == q ==> PfxCode(a, p) == PfxCode(b, q)
    ensures p != q ==>
              && Diff(PfxCode(a, p), PfxCode(b, q)) == 2 * Min(p, q) && PfxCode(a, p) != PfxCode(b, q)
              && PfxCode(a, p)[2 * Min(p, q)] == (p > q)
  {
    var m := Min(p, q);
    CodeBits(a, p, b, q, m);
    if p != q {
      DiffIs(PfxCode(a, p), PfxCode(b, q), 2 * m);
    }
  }

  /** Two prefixes which differ on bit e. */
  lemma BitDiff(a: Bytes, p: nat, b: Bytes, q: nat, e: nat)
    requires IsBytes(a) && IsBytes(b) && p <= 8 * |a| && q <= 8 * |b| && e < p && e < q
    requires AgreeBits(a, b, e) && BitAt(a, e) != BitAt(b, e)
    ensures Diff(PfxCode(a, p), PfxCode(b, q)) == 2 * e + 1 && PfxCode(a, p) != PfxCode(b, q)
    ensures PfxCode(a, p)[2 * e + 1] == BitAt(a, e)
  {
    CodeBits(a, p, b, q, e);
    DiffIs(PfxCode(a, p), PfxCode(b, q), 2 * e + 1);
  }

  lemma {:induction false} AgreeOrDiffer(a: Bytes, b: Bytes, n: nat) returns (e: nat)
    requires IsBytes(a) && IsBytes(b) && n <= 8 * |a| && n <= 8 * |b|
    ensures e <= n && AgreeBits(a, b, e) && (e < n ==> BitAt(a, e) != BitAt(b, e))
  {
    if n == 0 {
      e := 0;
    } else {
      e := AgreeOrDiffer(a, b, n - 1);
      if e == n - 1 && BitAt(a, n - 1) == BitAt(b, n - 1) {
        e := n;
      }
    }
  }

  lemma PfxComparable(a: Bytes, p: nat, b: Bytes, q: nat)
    requires IsBytes(a) && IsBytes(b) && p <= 8 * |a| && q <= 8 * |b|
    ensures Comparable(PfxCode(a, p), PfxCode(b, q))
  {
    var e := AgreeOrDiffer(a, b, Min(p, q));
    if e < Min(p, q) {
      BitDiff(a, p, b, q, e);
    } else {
      CoverDiff(a, p, b, q);
    }
  }

  /** A prefix sorts before the longer ones which it covers, and otherwise by the first
      bit on which two prefixes differ. */
  ghost predicate PfxLess(a: Bytes, p: nat, b: Bytes, q: nat)
    requires IsBytes(a) && IsBytes(b) && p <= 8 * |a| && q <= 8 * |b|
  {
    || (p < q && AgreeBits(a, b, p))
    || exists e | 0 <= e < p && e < q :: AgreeBits(a, b, e) && !BitAt(a, e) && BitAt(b, e)
  }

  lemma PfxOrder(a: Bytes, p: nat, b: Bytes, q: nat)
    requires IsBytes(a) && IsBytes(b) && p <= 8 * |a| && q <= 8 * |b|
    ensures Before(PfxCode(a, p), PfxCode(b, q)) <==> PfxLess(a, p, b, q)
  {
    hide PfxCode, PfxLess, Before, AgreeBits;
    var e := AgreeOrDiffer(a, b, Min(p, q));
    if e < Min(p, q) {
      OrderAtBit(a, p, b, q, e);
    } else {
      OrderOfCover(a, p, b, q);
    }
  }

  lemma OrderAtBit(a: Bytes, p: nat, b: Bytes, q: nat, e: nat)
    requires IsBytes(a) && IsBytes(b) && p <= 8 * |a| && q <= 8 * |b| && e < p && e < q
    requires AgreeBits(a, b, e) && BitAt(a, e) != BitAt(b, e)
    ensures Before(PfxCode(a, p), PfxCode(b, q)) <==> PfxLess(a, p, b, q)
  {
    BitDiff(a, p, b, q, e);
    assert PfxCode(b, q)[2 * e + 1] == BitAt(b, e);
    hide PfxCode, BitAt, IsBytes;
    if PfxLess(a, p, b, q) {
      assert !(p < q && AgreeBits(a, b, p));
      var d :| 0 <= d < p && d < q && AgreeBits(a, b, d) && !BitAt(a, d) && BitAt(b, d);
      assert d == e;
    }
  }

  lemma OrderOfCover(a: Bytes, p: nat, b: Bytes, q: nat)
    requires IsBytes(a) && IsBytes(b) && p <= 8 * |a| && q <= 8 * |b| && AgreeBits(a, b, Min(p, q))
    ensures Before(PfxCode(a, p), PfxCode(b, q)) <==> PfxLess(a, p, b, q)
  {
    CoverDiff(a, p, b, q);
    if p == q {
      DiffSame(PfxCode(a, p));
    } else {
      assert PfxCode(b, q)[2 * Min(p, q)] == (q > p);
    }
  }

  /** Codes which agree on 2n half-bits come from prefixes which agree on n bits. */
  lemma CodeAgrees(a: Bytes, p: nat, b: Bytes, q: nat, n: nat)
    requires IsBytes(a) && IsBytes(b) && p <= 8 * |a| && q <= 8 * |b|
    requires Agree(PfxCode(a, p), PfxCode(b, q), 2 * n)
    ensures n <= p && n <= q && AgreeBits(a, b, n)
  {
    forall i | 0 <= i < n
      ensures BitAt(a, i) == BitAt(b, i)
    {
      assert PfxCode(a, p)[2 * i + 1] == PfxCode(b, q)[2 * i + 1];
      assert (2 * i + 1) / 2 == i;
    }
  }

  lemma InsertablePfx(t: Tree, n: Node, len: nat)
    requires AllPfx(Full(t), len) && IsPfx(n, len) && n !in LeafSet(t)
    ensures Insertable(t, n)
  {
    hide PfxCode;
    forall e | e in LeafSet(t)
      ensures !e.key.U32? && Comparable(n.code, e.code)
    {
      assert e in Members(Full(t));
      PfxComparable(n.key.bytes, n.key.pfx, e.key.bytes, e.key.pfx);
    }
  }

  // ----- insertion

  /** What stopping with a difference at half-bit d means. */
  lemma PlacingAt(s: Tree, n: Node, d: nat)
    requires WF(s) && Insertable(s, n) && !n.key.U32? && d < |n.code|
    requires Head(s).code != n.code && Diff(n.code, Head(s).code) == d && Stops(s, n.code)
    ensures Placing(s, n, false, d, n.code[d])
  {
  }

  /** The tests at a link of half-bit s.bit, after b equal bits were counted up to it. */
  lemma LinkTests(s: Tree, n: Node, len: nat, b: nat)
    requires WF(s) && Insertable(s, n) && s.Link? && s.bit >= 0 && IsPfx(n, len) && IsPfx(s.o, len)
    requires s.bit / 2 <= 8 * len
    requires b < s.bit / 2 ==> AgreeBits(n.key.bytes, s.o.key.bytes, b) && BitAt(n.key.bytes, b) != BitAt(s.o.key.bytes, b)
    requires b >= s.bit / 2 ==> AgreeBits(n.key.bytes, s.o.key.bytes, s.bit / 2)
    ensures var p := n.key.pfx;
            && (2 * b + 1 >= 2 * p && 2 * p < s.bit ==> Placing(s, n, false, 2 * p, LEFT))
            && (!(2 * b + 1 >= 2 * p && 2 * p < s.bit) && 2 * b + 1 < s.bit ==>
                  Placing(s, n, false, 2 * b + 1, CmpBits(n.key.bytes, s.o.key.bytes, b) >= 0))
            && (!(2 * b + 1 >= 2 * p && 2 * p < s.bit) && 2 * b + 1 >= s.bit ==> !Stops(s, n.code) && s.bit <= 2 * p)
  {
    hide PfxCode, Radix, Insert, Placing;
    HeadIsLeaf(s);
    var p, q := n.key.pfx, s.o.key.pfx;
    var x, y := n.key.bytes, s.o.key.bytes;
    assert s.bit <= 2 * q;
    if 2 * b + 1 >= 2 * p && 2 * p < s.bit {
      CoverDiff(x, p, y, q);
      PlacingAt(s, n, 2 * p);
    } else if 2 * b + 1 < s.bit {
      BitDiff(x, p, y, q, b);
      PlacingAt(s, n, 2 * b + 1);
    } else {
      CodeBits(x, p, y, q, s.bit / 2);
      HalfBitAgrees(x, p, y, q, s.bit);
      DiffAtLeast(n.code, s.o.code, s.bit);
    }
  }

  lemma HalfBitAgrees(a: Bytes, p: nat, b: Bytes, q: nat, h: nat)
    requires IsBytes(a) && IsBytes(b) && p <= 8 * |a| && q <= 8 * |b| && h <= 2 * p && h <= 2 * q
    requires AgreeBits(a, b, h / 2)
    ensures Agree(PfxCode(a, p), PfxCode(b, q), h)
  {
    CodeBits(a, p, b, q, h / 2);
  }

  /** The tests at a leaf or above a duplicate tree. */
  lemma EndTests(s: Tree, n: Node, len: nat, b: nat)
    requires WF(s) && Insertable(s, n) && (s.Leaf? || s.bit < 0) && IsPfx(n, len) && IsPfx(Head(s), len)
    requires var m := Min(n.key.pfx, Head(s).key.pfx);
             && (b < m ==> AgreeBits(n.key.bytes, Head(s).key.bytes, b) && BitAt(n.key.bytes, b) != BitAt(Head(s).key.bytes, b))
             && (b >= m ==> AgreeBits(n.key.bytes, Head(s).key.bytes, m))
    ensures var p, q := n.key.pfx, Head(s).key.pfx;
            && (b < Min(p, q) ==> Placing(s, n, false, 2 * b + 1, CmpBits(n.key.bytes, Head(s).key.bytes, b) >= 0))
            && (b >= Min(p, q) && p != q ==> Placing(s, n, false, 2 * Min(p, q), p > q))
            && (b >= Min(p, q) && p == q ==> Placing(s, n, true, -1, RIGHT))
            && ((b >= Min(p, q) && p == q) == (n.code == Head(s).code))
  {
    hide PfxCode, Radix, Insert;
    HeadIsLeaf(s);
    var p, q := n.key.pfx, Head(s).key.pfx;
    var x, y := n.key.bytes, Head(s).key.bytes;
    if b < Min(p, q) {
      BitDiff(x, p, y, q, b);
      PlacingAt(s, n, 2 * b + 1);
    } else {
      CoverDiff(x, p, y, q);
      if p != q {
        PlacingAt(s, n, 2 * Min(p, q));
      }
    }
  }

  /** The number of bits which the descent for n need not compare again. */
  ghost predicate Hint(s: Tree, n: Node, bit: nat) {
    || AllCode(s, n.code)
    || (&& n.key.Pfx? && IsBytes(n.key.bytes) && bit <= n.key.pfx && n.key.pfx <= 8 * |n.key.bytes|
        && forall e | e in LeafSet(s) ::
             && e.key.Pfx? && IsBytes(e.key.bytes) && bit <= e.key.pfx <= 8 * |e.key.bytes|
             && AgreeBits(n.key.bytes, e.key.bytes, bit))
  }

  lemma HintBelow(s: Tree, n: Node, len: nat, bit: nat)
    requires WF(s) && s.Link? && s.bit >= 0 && IsPfx(n, len) && AllPfx(Full(s), len)
    requires s.bit < |n.code| && Agree(n.code, s.o.code, s.bit) && 2 * bit <= s.bit + 1
    ensures Hint(s.Child(n.code[s.bit]), n, bit)
  {
    hide PfxCode;
    HeadIsLeaf(s);
    var c := s.Child(n.code[s.bit]);
    assert IsPfx(s.o, len);
    forall e | e in LeafSet(c)
      ensures e.key.Pfx? && IsBytes(e.key.bytes) && bit <= e.key.pfx <= 8 * |e.key.bytes|
      ensures bit <= n.key.pfx && AgreeBits(n.key.bytes, e.key.bytes, bit)
    {
      assert e in Members(Full(s));
      assert Agree(n.code, e.code, s.bit + 1);
      CodeAgrees(n.key.bytes, n.key.pfx, e.key.bytes, e.key.pfx, bit);
    }
    FirstLast(c);
  }

  /** Left of a cover node are exactly the prefixes of its length. */
  lemma CoverLeft(s: Tree, len: nat)
    requires WF(s) && s.Link? && s.bit >= 0 && s.bit % 2 == 0 && AllPfx(Full(s), len)
    ensures forall e | e in LeafSet(s.l) :: e.key.Pfx? && 2 * e.key.pfx == s.bit
    ensures forall e | e in LeafSet(s.r) :: e.key.Pfx? && 2 * e.key.pfx > s.bit
  {
    HeadIsLeaf(s);
    forall e | e in LeafSet(s.l)
      ensures e.key.Pfx? && 2 * e.key.pfx == s.bit
    {
      assert e in Members(Full(s)) && IsPfx(e, len);
      assert IsPfx(s.o, len);
    }
    forall e | e in LeafSet(s.r)
      ensures e.key.Pfx? && 2 * e.key.pfx > s.bit
    {
      assert e in Members(Full(s)) && IsPfx(e, len);
      assert IsPfx(s.o, len);
    }
  }

  /** At a cover node of its own length, a prefix meets its duplicates. */
  lemma HintCover(s: Tree, n: Node, len: nat, bit: nat)
    requires WF(s) && s.Link? && s.bit >= 0 && IsPfx(n, len) && AllPfx(Full(s), len)
    requires s.bit == 2 * n.key.pfx && Agree(n.code, s.o.code, s.bit)
    ensures n.code[s.bit] == LEFT && Hint(s.l, n, bit)
  {
    CoverLeft(s, len);
    HeadIsLeaf(s);
    forall e | e in LeafSet(s.l)
      ensures e.code == n.code
    {
      assert e in Members(Full(s)) && IsPfx(e, len);
      CodeAgrees(n.key.bytes, n.key.pfx, e.key.bytes, e.key.pfx, n.key.pfx);
      CoverDiff(n.key.bytes, n.key.pfx, e.key.bytes, e.key.pfx);
    }
  }

  lemma HintAtLink(s: Tree, n: Node, len: nat, bit: nat)
    requires WF(s) && s.Link? && s.bit >= 0 && IsPfx(n, len) && AllPfx(Full(s), len) && Hint(s, n, bit)
    ensures s.bit / 2 <= 8 * len && IsPfx(s.o, len) && 8 * (bit / 8) <= 8 * len && AgreeBits(n.key.bytes, s.o.key.bytes, 8 * (bit / 8))
  {
    HeadIsLeaf(s);
    assert s.o in Members(Full(s)) && IsPfx(s.o, len);
    SeveralCodes(s, n.code);
    assert 8 * (bit / 8) <= bit;
  }

  lemma SeveralCodes(s: Tree, c: Code)
    requires WF(s) && s.Link? && s.bit >= 0
    ensures !AllCode(s, c)
  {
    FirstLast(s.l);
    FirstLast(s.r);
    SidesOrdered(s, First(s.l), First(s.r));
    assert First(s.l) in LeafSet(s) && First(s.r) in LeafSet(s);
  }

  lemma HintAtEnd(s: Tree, n: Node, len: nat, bit: nat)
    requires WF(s) && IsPfx(n, len) && AllPfx(Full(s), len) && Hint(s, n, bit)
    ensures IsPfx(Head(s), len)
    ensures var m := Min(n.key.pfx, Head(s).key.pfx);
            AgreeBits(n.key.bytes, Head(s).key.bytes, if 8 * (bit / 8) < m then 8 * (bit / 8) else m)
  {
    HeadIsLeaf(s);
    assert Head(s) in Members(Full(s)) && IsPfx(Head(s), len);
    var x, y := n.key, Head(s).key;
    if AllCode(s, n.code) {
      assert x.pfx == y.pfx;
      CodeAgrees(x.bytes, x.pfx, y.bytes, y.pfx, x.pfx);
    }
    assert 8 * (bit / 8) <= bit;
  }

  /** The comparisons of ebmb_insert_prefix() at the link of cur, of half-bit h: they
      either stop with the new link's bit, or choose a side. */
  method LevelPfx(n: Node, cur: Node, h: nat, len: nat, b0: nat, ghost s: Tree)
    returns (stop: bool, bit: int, side: bool, b: nat)
    requires WF(s) && Insertable(s, n) && s.Link? && s.bit == h && s.o == cur
    requires IsPfx(n, len) && AllPfx(Full(s), len) && Hint(s, n, b0)
    ensures stop ==> Placing(s, n, false, bit, side)
    ensures !stop ==> !Stops(s, n.code) && Pos(cur, h) == h < |n.code| && side == n.code[h] && Hint(s.Child(side), n, b)
  {
    hide WF, PfxCode, Placing, Insert, Hint, AgreeBits, Diff, LeafSet, Insertable, Links;
    var p := n.key.pfx;
    HintAtLink(s, n, len, b0);
    b := EqualBits(n.key.bytes, cur.key.bytes, b0, h / 2);
    LinkTests(s, n, len, b);
    b := 2 * b + 1;
    if b >= 2 * p && 2 * p < h {
      return true, 2 * p, LEFT, b;
    }
    if b < h {
      return true, b, CmpBits(n.key.bytes, cur.key.bytes, b / 2) >= 0, b;
    }
    DescentSide(s, n);
    CodeSide(n, len, h);
    if h % 2 == 0 {
      if 2 * p == h {
        HintCover(s, n, len, b);
        return false, 0, LEFT, b;
      }
      HintBelow(s, n, len, h / 2);
      return false, 0, RIGHT, h / 2;
    }
    HintBelow(s, n, len, h / 2 + 1);
    return false, 0, BitAt(n.key.bytes, h / 2), h / 2 + 1;
  }

  /** The comparisons at a leaf or above a duplicate tree. */
  method EndPfx(n: Node, cur: Node, len: nat, b0: nat, ghost s: Tree) returns (same: bool, bit: int, right: bool)
    requires WF(s) && Insertable(s, n) && (s.Leaf? || s.bit < 0) && Head(s) == cur
    requires IsPfx(n, len) && AllPfx(Full(s), len) && Hint(s, n, b0)
    ensures Placing(s, n, same, bit, right)
  {
    hide Radix, Shape, PfxCode, Placing, Insert, Hint;
    HintAtEnd(s, n, len, b0);
    var p, q := n.key.pfx, cur.key.pfx;
    var b := EqualBits(n.key.bytes, cur.key.bytes, b0, Min(p, q));
    EndTests(s, n, len, b);
    b := Min(b, Min(p, q));
    if b < q && b < p {
      return false, 2 * b + 1, CmpBits(n.key.bytes, cur.key.bytes, b) >= 0;
    }
    if p == q {
      return true, -1, RIGHT;
    }
    return false, 2 * b, p > q;
  }

  /** The descent of ebmb_insert_prefix(): where n goes, and how. */
  method DescendPfx(tree: EbRoot, n: Node, len: nat)
    returns (at: Node, side: bool, troot: Branch, same: bool, bit: int, right: bool, ghost path: Path)
    requires tree.Valid() && AllPfx(tree.T, len) && IsPfx(n, len) && n !in tree.Repr() && tree.T.Full?
    ensures tree.Valid() && Snap(tree.Repr()) == old(Snap(tree.Repr()))
    ensures Descending(tree.T.t, path, n) && Placing(At(tree.T.t, path), n, same, bit, right)
    ensures troot == Ref(At(tree.T.t, path)) && Up(at, side) == Anchor(tree.T.t, Up(tree.root, LEFT), path)
    ensures troot.n == Head(At(tree.T.t, path))
  {
    hide Rep, Radix, Shape, RepTop, Links, PfxCode, Placing, Insert, Route, Hint, Stops, IsPfx, Insertable;
    ghost var t, root, m := tree.T.t, tree.root, Snap(tree.Repr());
    InsertablePfx(t, n, len);
    DescendingStart(t, n);
    Reads(m, root, t, []);
    at, side, path := tree.root, LEFT, [];
    troot := at.b.At(side);
    var b: nat := 0;
    HintStart(t, n, len);
    while troot.LinkOf?
      invariant tree.Valid() && Descending(t, path, n) && AllPfx(Full(At(t, path)), len)
      invariant troot == Ref(At(t, path)) && Up(at, side) == Anchor(t, Up(root, LEFT), path)
      invariant Hint(At(t, path), n, b)
      decreases At(t, path)
    {
      var cur := troot.n;
      ghost var s := At(t, path);
      Reads(m, root, t, path);
      if cur.bit < 0 {
        break;
      }
      var stop, sd;
      stop, bit, sd, b := LevelPfx(n, cur, cur.bit, len, b, s);
      if stop {
        same, right := false, sd;
        return;
      }
      DescendingStep(t, path, n);
      at, side := cur, sd;
      troot := at.b.At(side);
      PathDown(t, Up(root, LEFT), path, side);
      path := path + [side];
    }
    Reads(m, root, t, path);
    same, bit, right := EndPfx(n, troot.n, len, b, At(t, path));
  }

  lemma CodeSide(n: Node, len: nat, h: nat)
    requires IsPfx(n, len) && h < |n.code|
    ensures h % 2 == 0 ==> n.code[h] == (2 * n.key.pfx != h)
    ensures h % 2 == 1 ==> h / 2 < 8 * len && n.code[h] == BitAt(n.key.bytes, h / 2)
  {
  }

  lemma HintStart(t: Tree, n: Node, len: nat)
    requires IsPfx(n, len) && AllPfx(Full(t), len)
    ensures Hint(t, n, 0) && AllPfx(Full(At(t, [])), len)
  {
    forall e | e in LeafSet(t)
      ensures e.key.Pfx? && IsBytes(e.key.bytes) && 0 <= e.key.pfx <= 8 * |e.key.bytes|
    {
      assert e in Members(Full(t)) && IsPfx(e, len);
    }
  }

  /** ebmb_insert_prefix() */
  method InsertPfx(tree: EbRoot, n: Node, len: nat) returns (r: Node)
    requires tree.Valid() && AllPfx(tree.T, len) && IsPfx(n, len) && n !in tree.Repr()
    modifies tree`T, tree.Repr()`b, tree.Repr()`nodeP, tree.Repr()`leafP, n`b, n`nodeP, n`leafP, n`bit
    ensures tree.Valid() && AllPfx(tree.T, len) && tree.root.b.r == old(tree.root.b.r)
    ensures if old(Refused(tree.Unique(), tree.T, n)) then
              && FirstWith(tree.Contents(), n.code) == Some(r)
              && tree.T == old(tree.T) && Snap(tree.Repr()) == old(Snap(tree.Repr())) && n.leafP == old(n.leafP)
            else r == n && WFInsert(old(tree.T), tree.T, n)
  {
    hide Rep, Radix, Shape, Links, PfxCode;
    if tree.root.b.l.Null? {
      InsertFirst(tree, n);
      r := n;
    } else {
      FullTree(tree);
      r := InsertPfxBelowRoot(tree, n, len);
    }
  }

  method InsertPfxBelowRoot(tree: EbRoot, n: Node, len: nat) returns (r: Node)
    requires tree.Valid() && AllPfx(tree.T, len) && IsPfx(n, len) && n !in tree.Repr() && tree.T.Full?
    modifies tree`T, tree.Repr()`b, tree.Repr()`nodeP, tree.Repr()`leafP, n`b, n`nodeP, n`leafP, n`bit
    ensures tree.Valid() && AllPfx(tree.T, len) && tree.root.b.r == old(tree.root.b.r)
    ensures if old(Refused(tree.Unique(), tree.T, n)) then
              && FirstWith(tree.Contents(), n.code) == Some(r)
              && tree.T == old(tree.T) && Snap(tree.Repr()) == old(Snap(tree.Repr())) && n.leafP == old(n.leafP)
            else r == n && WFInsert(old(tree.T), tree.T, n)
  {
    hide Rep, Radix, Shape, Links, PfxCode, Leaves, FirstWith, Insert, Ins, Placing, Route, Diff, LeafSet, RepTop, WF;
    ghost var t := tree.T.t;
    var at, side, troot, same, bit, right, path := DescendPfx(tree, n, len);
    PlacingMeans(At(t, path), n, same, bit, right);
    if same && tree.Unique() {
      FoundUnique(t, path, n);
      return troot.n;
    }
    PlaceInTree(tree, at, side, troot, n, same, bit, right, path);
    r := n;
  }

  // ----- longest match

  /** The prefix of e matches the block x. */
  ghost predicate Matches(e: Node, x: Bytes, len: nat)
    requires IsPfx(e, len) && IsBytes(x) && |x| >= len
  {
    AgreeBits(x, e.key.bytes, e.key.pfx)
  }

  ghost predicate AllPfxSeq(s: seq<Node>, len: nat) {
    forall i | 0 <= i < |s| :: IsPfx(s[i], len)
  }

  /** Every match in s is at most k bits long. */
  ghost predicate NoLonger(s: seq<Node>, x: Bytes, len: nat, k: int)
    requires AllPfxSeq(s, len) && IsBytes(x) && |x| >= len
  {
    forall i | 0 <= i < |s| :: Matches(s[i], x, len) ==> s[i].key.pfx <= k
  }

  /** r is the first entity of the longest prefix in s which matches x. */
  ghost predicate IsLongest(s: seq<Node>, x: Bytes, len: nat, r: Option<Node>)
    requires AllPfxSeq(s, len) && IsBytes(x) && |x| >= len
  {
    match r
    case None => NoLonger(s, x, len, -1)
    case Some(e) =>
      && IsPfx(e, len) && Matches(e, x, len) && FirstWith(s, e.code) == Some(e)
      && NoLonger(s, x, len, e.key.pfx)
  }

  /** The linear scan which the lookup replaces. */
  ghost function ScanLongest(s: seq<Node>, x: Bytes, len: nat): (r: Option<Node>)
    requires AllPfxSeq(s, len) && IsBytes(x) && |x| >= len
    ensures r.Some? ==> IsPfx(r.value, len)
  {
    if s == [] then None
    else
      var best, e := ScanLongest(s[..|s| - 1], x, len), s[|s| - 1];
      if Matches(e, x, len) && (best.None? || e.key.pfx > best.value.key.pfx) then Some(e) else best
  }

  /** Matching prefixes of the same length are the same key. */
  lemma MatchingCodes(e: Node, f: Node, x: Bytes, len: nat)
    requires IsPfx(e, len) && IsPfx(f, len) && IsBytes(x) && |x| >= len
    requires Matches(e, x, len) && Matches(f, x, len)
    ensures e.code == f.code <==> e.key.pfx == f.key.pfx
  {
    if e.key.pfx == f.key.pfx {
      CoverDiff(e.key.bytes, e.key.pfx, f.key.bytes, f.key.pfx);
    }
  }

  lemma {:induction false} ScanIsLongest(s: seq<Node>, x: Bytes, len: nat)
    requires AllPfxSeq(s, len) && IsBytes(x) && |x| >= len
    ensures IsLongest(s, x, len, ScanLongest(s, x, len))
  {
    hide PfxCode;
    if s != [] {
      var a, e := s[..|s| - 1], s[|s| - 1];
      ScanIsLongest(a, x, len);
      assert s == a + [e];
      var best := ScanLongest(a, x, len);
      if Matches(e, x, len) && (best.None? || e.key.pfx > best.value.key.pfx) {
        forall i | 0 <= i < |a|
          ensures a[i].code != e.code
        {
          assert IsPfx(a[i], len);
          if a[i].code == e.code {
            SameCodeSame(a[i], e, len);
            MatchSame(a[i], e, x, len);
          }
        }
        FirstWithNone(a, e.code);
        FirstWithConcat(a, [e], e.code);
      } else if best.Some? {
        FirstWithConcat(a, [e], best.value.code);
      }
    }
  }

  lemma SameCodeSame(e: Node, f: Node, len: nat)
    requires IsPfx(e, len) && IsPfx(f, len) && e.code == f.code
    ensures e.key.pfx == f.key.pfx && AgreeBits(e.key.bytes, f.key.bytes, e.key.pfx)
  {
    CodeAgrees(e.key.bytes, e.key.pfx, f.key.bytes, f.key.pfx, e.key.pfx);
  }

  lemma MatchSame(e: Node, f: Node, x: Bytes, len: nat)
    requires IsPfx(e, len) && IsPfx(f, len) && e.code == f.code && IsBytes(x) && |x| >= len
    ensures Matches(e, x, len) <==> Matches(f, x, len)
  {
    SameCodeSame(e, f, len);
  }

  /** There is only one such entity, so the lookup returns what the scan returns. */
  lemma LongestUnique(s: seq<Node>, x: Bytes, len: nat, r: Option<Node>)
    requires AllPfxSeq(s, len) && IsBytes(x) && |x| >= len && IsLongest(s, x, len, r)
    ensures r == ScanLongest(s, x, len)
  {
    hide PfxCode;
    ScanIsLongest(s, x, len);
    var q := ScanLongest(s, x, len);
    if r.Some? {
      FirstWithIn(s, r.value.code);
    }
    if q.Some? {
      FirstWithIn(s, q.value.code);
    }
    if r.Some? && q.Some? {
      MatchingCodes(r.value, q.value, x, len);
    }
  }

  lemma AgreeMore(a: Bytes, b: Bytes, c: Bytes, n: nat)
    requires IsBytes(a) && IsBytes(b) && IsBytes(c) && n <= 8 * |a| && n <= 8 * |b| && n <= 8 * |c|
    requires AgreeBits(a, b, n)
    ensures AgreeBits(a, c, n) <==> AgreeBits(b, c, n)
  {
  }

  /** The comparison of the lookups at a link on bit n: bytes before pos are known
      to be equal. */
  method MatchUpTo(x: Bytes, key: Bytes, pos: nat, n: nat) returns (ok: bool, pos': nat)
    requires IsBytes(x) && IsBytes(key) && |x| >= |key| && 8 * pos <= n < 8 * |key| && AgreeBits(x, key, 8 * pos)
    ensures ok <==> AgreeBits(x, key, n)
    ensures ok ==> pos' == n / 8
  {
    pos' := pos;
    var nodeBit := 8 * pos + 7 - n;
    while nodeBit < 0
      invariant pos <= pos' && nodeBit == 8 * pos' + 7 - n <= 7 && AgreeBits(x, key, 8 * pos')
      decreases -nodeBit
    {
      pos' := pos' + 1;
      if key[pos' - 1] != x[pos' - 1] {
        DifferentByte(x, key, pos' - 1, n);
        return false, pos';
      }
      AgreeByte(x, key, pos' - 1);
      nodeBit := nodeBit + 8;
    }
    ok := Xor(Shr(key[pos'], nodeBit), Shr(x[pos'], nodeBit)) <= 1;
    XorSmall(Shr(key[pos'], nodeBit), Shr(x[pos'], nodeBit));
    ShrNext(key[pos'], nodeBit);
    ShrNext(x[pos'], nodeBit);
    FirstBits(x[pos'], key[pos'], 7 - nodeBit);
    LastByte(x, key, pos', 7 - nodeBit);
  }

  lemma DifferentByte(a: Bytes, b: Bytes, i: nat, n: nat)
    requires IsBytes(a) && IsBytes(b) && i < |b| <= |a| && a[i] != b[i] && 8 * i + 8 <= n <= 8 * |b|
    ensures !AgreeBits(a, b, n)
  {
    FirstDifference(a[i], b[i]);
    var d := 8 - Fls(Xor(a[i], b[i]));
    assert (8 * i + d) / 8 == i && (8 * i + d) % 8 == d;
    assert BitAt(a, 8 * i + d) != BitAt(b, 8 * i + d);
  }

  /** The state of the search for the longest match: below path every prefix is
      longer than k bits and agrees with x on the first pos bytes; elsewhere no
      match is longer than k bits. */
  ghost predicate Seeking(t: Tree, path: Path, x: Bytes, len: nat, pos: nat, k: int) {
    && IsBytes(x) && |x| >= len && ValidPath(t, path) && RadixAbove(t, path)
    && AllPfxSeq(Pre(t, path), len) && AllPfxSeq(Post(t, path), len)
    && NoLonger(Pre(t, path), x, len, k) && NoLonger(Post(t, path), x, len, k)
    && BelowSeek(At(t, path), x, len, pos, k)
  }

  ghost predicate BelowSeek(s: Tree, x: Bytes, len: nat, pos: nat, k: int)
    requires IsBytes(x) && |x| >= len
  {
    && pos < len && (s.Link? && s.bit >= 0 ==> 8 * pos <= s.bit / 2)
    && forall e | e in LeafSet(s) ::
         IsPfx(e, len) && e.key.pfx > k && 8 * pos <= e.key.pfx && AgreeBits(x, e.key.bytes, 8 * pos)
  }

  lemma SeekStart(t: Tree, x: Bytes, len: nat)
    requires IsBytes(x) && |x| >= len && len > 0 && AllPfx(Full(t), len)
    ensures Seeking(t, [], x, len, 0, -1)
  {
    assert Pre(t, []) == [] && Post(t, []) == [];
    forall e | e in LeafSet(t)
      ensures IsPfx(e, len)
    {
      assert e in Members(Full(t));
    }
  }

  /** What agreeing with the owner of a link tells about its leaves. */
  lemma LinkMatch(s: Tree, x: Bytes, len: nat, pos: nat, k: int)
    requires WF(s) && s.Link? && s.bit >= 0 && IsBytes(x) && |x| >= len && BelowSeek(s, x, len, pos, k)
    ensures s.bit / 2 < 8 * len && IsPfx(s.o, len)
    ensures forall e | e in LeafSet(s) :: IsPfx(e, len) && s.bit / 2 <= e.key.pfx && AgreeBits(s.o.key.bytes, e.key.bytes, s.bit / 2)
  {
    HeadIsLeaf(s);
    assert IsPfx(s.o, len);
    forall e | e in LeafSet(s)
      ensures IsPfx(e, len) && s.bit / 2 <= e.key.pfx && AgreeBits(s.o.key.bytes, e.key.bytes, s.bit / 2)
    {
      assert e in LeafSet(s.l) || e in LeafSet(s.r);
      assert Agree(e.code, s.o.code, s.bit);
      CodeAgrees(s.o.key.bytes, s.o.key.pfx, e.key.bytes, e.key.pfx, s.bit / 2);
    }
    FirstLast(s.r);
    assert First(s.r) in LeafSet(s) && IsPfx(First(s.r), len);
    assert s.bit < 2 * First(s.r).key.pfx + 1 && First(s.r).code[s.bit];
  }

  lemma NoLongerConcat(a: seq<Node>, b: seq<Node>, x: Bytes, len: nat, k: int)
    requires AllPfxSeq(a, len) && AllPfxSeq(b, len) && IsBytes(x) && |x| >= len
    requires NoLonger(a, x, len, k) && NoLonger(b, x, len, k)
    ensures AllPfxSeq(a + b, len) && NoLonger(a + b, x, len, k)
  {
    hide PfxCode, Matches;
    forall i | 0 <= i < |a + b|
      ensures IsPfx((a + b)[i], len) && (Matches((a + b)[i], x, len) ==> (a + b)[i].key.pfx <= k)
    {
      if i >= |a| {
        assert (a + b)[i] == b[i - |a|];
      }
    }
  }

  lemma LeavesNoLonger(s: Tree, x: Bytes, len: nat, k: int)
    requires IsBytes(x) && |x| >= len
    requires forall e | e in LeafSet(s) :: IsPfx(e, len) && (Matches(e, x, len) ==> e.key.pfx <= k)
    ensures AllPfxSeq(Leaves(s), len) && NoLonger(Leaves(s), x, len, k)
  {
    hide PfxCode, Matches;
    forall i | 0 <= i < |Leaves(s)|
      ensures IsPfx(Leaves(s)[i], len) && (Matches(Leaves(s)[i], x, len) ==> Leaves(s)[i].key.pfx <= k)
    {
      LeafIndex(s, i);
    }
  }

  /** Leaves below a link which x does not reach do not match. */
  lemma NoMatchBelow(s: Tree, x: Bytes, len: nat, pos: nat, k: int, k': int)
    requires WF(s) && s.Link? && s.bit >= 0 && IsBytes(x) && |x| >= len && BelowSeek(s, x, len, pos, k)
    requires IsPfx(s.o, len) && s.bit / 2 <= 8 * len && !AgreeBits(x, s.o.key.bytes, s.bit / 2)
    ensures AllPfxSeq(Leaves(s), len) && NoLonger(Leaves(s), x, len, k')
  {
    hide PfxCode, Radix;
    LinkMatch(s, x, len, pos, k);
    forall e | e in LeafSet(s)
      ensures IsPfx(e, len) && !Matches(e, x, len)
    {
      AgreeMore(s.o.key.bytes, e.key.bytes, x, s.bit / 2);
    }
    LeavesNoLonger(s, x, len, k');
  }

  /** At a leaf or a duplicate tree, the head speaks for all. */
  lemma NoMatchAtEnd(s: Tree, x: Bytes, len: nat, pos: nat, k: int, k': int)
    requires WF(s) && (s.Leaf? || s.bit < 0) && IsBytes(x) && |x| >= len && BelowSeek(s, x, len, pos, k)
    requires IsPfx(Head(s), len) && !Matches(Head(s), x, len)
    ensures AllPfxSeq(Leaves(s), len) && NoLonger(Leaves(s), x, len, k')
  {
    hide PfxCode;
    HeadIsLeaf(s);
    forall e | e in LeafSet(s)
      ensures IsPfx(e, len) && !Matches(e, x, len)
    {
      assert e.code == Head(s).code;
      MatchSame(e, Head(s), x, len);
    }
    LeavesNoLonger(s, x, len, k');
  }

  /** One level down at a normal node. */
  lemma SeekNormal(t: Tree, path: Path, x: Bytes, len: nat, pos: nat, k: int)
    requires WF(t) && Seeking(t, path, x, len, pos, k)
    requires var s := At(t, path);
             && s.Link? && s.bit >= 0 && s.bit % 2 == 1 && s.bit / 2 < 8 * len && IsPfx(s.o, len)
             && AgreeBits(x, s.o.key.bytes, s.bit / 2)
    ensures var s := At(t, path); Seeking(t, path + [BitAt(x, s.bit / 2)], x, len, s.bit / 2 / 8, k)
  {
    hide PfxCode, NoLonger, Matches, Radix, RadixAbove, Shape;
    var s := At(t, path);
    var n := s.bit / 2;
    var side := BitAt(x, n);
    RadixAt(t, path);
    PathDown(t, NoParent, path, side);
    RadixAboveDown(t, path, side);
    NormalOther(s, x, len, pos, k);
    NormalBelow(s, x, len, pos, k);
    if side {
      NoLongerConcat(Pre(t, path), Leaves(s.l), x, len, k);
      assert Post(t, path + [side]) == Post(t, path);
    } else {
      NoLongerConcat(Leaves(s.r), Post(t, path), x, len, k);
      assert Pre(t, path + [side]) == Pre(t, path);
    }
  }

  lemma NormalOther(s: Tree, x: Bytes, len: nat, pos: nat, k: int)
    requires WF(s) && s.Link? && s.bit >= 0 && s.bit % 2 == 1 && IsBytes(x) && |x| >= len && BelowSeek(s, x, len, pos, k)
    requires s.bit / 2 < 8 * len
    ensures AllPfxSeq(Leaves(s.Child(!BitAt(x, s.bit / 2))), len)
    ensures NoLonger(Leaves(s.Child(!BitAt(x, s.bit / 2))), x, len, k)
  {
    hide PfxCode, Matches, NoLonger, BelowSeek;
    var c := s.Child(!BitAt(x, s.bit / 2));
    forall e | e in LeafSet(c)
      ensures IsPfx(e, len) && !Matches(e, x, len)
    {
      OtherSide(s, x, len, pos, k, e);
    }
    LeavesNoLonger(c, x, len, k);
  }

  /** A leaf on the side which x does not take does not match x. */
  lemma OtherSide(s: Tree, x: Bytes, len: nat, pos: nat, k: int, e: Node)
    requires WF(s) && s.Link? && s.bit >= 0 && s.bit % 2 == 1 && IsBytes(x) && |x| >= len && BelowSeek(s, x, len, pos, k)
    requires s.bit / 2 < 8 * len && e in LeafSet(s.Child(!BitAt(x, s.bit / 2)))
    ensures IsPfx(e, len) && !Matches(e, x, len)
  {
    hide Radix, Shape;
    var n := s.bit / 2;
    assert e in LeafSet(s) && IsPfx(e, len);
    assert s.bit < |e.code| && e.code[s.bit] == !BitAt(x, n) by { LeafSide(s, !BitAt(x, n), e); }
    assert e.code[s.bit] == BitAt(e.key.bytes, n);
  }

  lemma LeafSide(s: Tree, side: bool, e: Node)
    requires WF(s) && s.Link? && s.bit >= 0 && e in LeafSet(s.Child(side)) && !e.key.U32?
    ensures s.bit < |e.code| && e.code[s.bit] == side
  {
    HeadIsLeaf(s);
  }

  lemma NormalBelow(s: Tree, x: Bytes, len: nat, pos: nat, k: int)
    requires WF(s) && s.Link? && s.bit >= 0 && s.bit % 2 == 1 && IsBytes(x) && |x| >= len && BelowSeek(s, x, len, pos, k)
    requires s.bit / 2 < 8 * len && IsPfx(s.o, len) && AgreeBits(x, s.o.key.bytes, s.bit / 2)
    ensures BelowSeek(s.Child(BitAt(x, s.bit / 2)), x, len, s.bit / 2 / 8, k)
  {
    hide PfxCode, Radix, Shape;
    var n := s.bit / 2;
    var c := s.Child(BitAt(x, n));
    AgreeAll(s, x, len, pos, k);
    if c.Link? && c.bit >= 0 {
      DeeperBit(s, BitAt(x, n), len);
    }
    assert 8 * (n / 8) <= n;
    forall e | e in LeafSet(c)
      ensures e in LeafSet(s) && AgreeBits(x, e.key.bytes, 8 * (n / 8))
    {
    }
  }

  /** One level down at a cover node, which becomes the best match so far. */
  lemma SeekCover(t: Tree, path: Path, x: Bytes, len: nat, pos: nat, k: int)
    requires WF(t) && Seeking(t, path, x, len, pos, k)
    requires var s := At(t, path);
             && s.Link? && s.bit >= 0 && s.bit % 2 == 0 && s.bit / 2 < 8 * len && IsPfx(s.o, len)
             && AgreeBits(x, s.o.key.bytes, s.bit / 2)
    ensures var n := At(t, path).bit / 2;
            Seeking(t, path + [RIGHT], x, len, n / 8, n) && Covering(t, path + [LEFT], x, len, n)
  {
    hide PfxCode, NoLonger, Matches, Radix, RadixAbove, Shape;
    var s := At(t, path);
    var n := s.bit / 2;
    RadixAt(t, path);
    PathDown(t, NoParent, path, RIGHT);
    PathDown(t, NoParent, path, LEFT);
    RadixAboveDown(t, path, RIGHT);
    RadixAboveDown(t, path, LEFT);
    CoverBelow(s, x, len, pos, k);
    NoLongerMore(Pre(t, path), x, len, k, n);
    NoLongerMore(Post(t, path), x, len, k, n);
    NoLongerConcat(Pre(t, path), Leaves(s.l), x, len, n);
    assert Post(t, path + [RIGHT]) == Post(t, path);
  }

  /** The subtree at cp holds prefixes of k bits which match x, and nothing else. */
  ghost predicate Covering(t: Tree, cp: Path, x: Bytes, len: nat, k: int) {
    && IsBytes(x) && |x| >= len && ValidPath(t, cp) && RadixAbove(t, cp)
    && forall e | e in LeafSet(At(t, cp)) :: IsPfx(e, len) && e.key.pfx == k && Matches(e, x, len)
  }

  lemma NoLongerMore(s: seq<Node>, x: Bytes, len: nat, k: int, k': int)
    requires AllPfxSeq(s, len) && IsBytes(x) && |x| >= len && k <= k' && NoLonger(s, x, len, k)
    ensures NoLonger(s, x, len, k')
  {
  }

  lemma CoverBelow(s: Tree, x: Bytes, len: nat, pos: nat, k: int)
    requires WF(s) && s.Link? && s.bit >= 0 && s.bit % 2 == 0 && IsBytes(x) && |x| >= len && BelowSeek(s, x, len, pos, k)
    requires s.bit / 2 < 8 * len && IsPfx(s.o, len) && AgreeBits(x, s.o.key.bytes, s.bit / 2)
    ensures BelowSeek(s.r, x, len, s.bit / 2 / 8, s.bit / 2) && k <= s.bit / 2
    ensures forall e | e in LeafSet(s.l) :: IsPfx(e, len) && e.key.pfx == s.bit / 2 && Matches(e, x, len)
    ensures AllPfxSeq(Leaves(s.l), len) && NoLonger(Leaves(s.l), x, len, s.bit / 2)
  {
    hide PfxCode, Radix, Shape, BelowSeek, AgreeBits, NoLonger;
    AgreeAll(s, x, len, pos, k);
    CoverSides(s, len);
    CoverRight(s, x, len);
    assert k <= s.bit / 2 by { CoverLonger(s, x, len, pos, k); }
    LeavesNoLonger(s.l, x, len, s.bit / 2);
  }

  /** Below a link whose owner agrees with x up to it, all leaves do. */
  lemma AgreeAll(s: Tree, x: Bytes, len: nat, pos: nat, k: int)
    requires WF(s) && s.Link? && s.bit >= 0 && IsBytes(x) && |x| >= len && BelowSeek(s, x, len, pos, k)
    requires s.bit / 2 < 8 * len && IsPfx(s.o, len) && AgreeBits(x, s.o.key.bytes, s.bit / 2)
    ensures forall e | e in LeafSet(s) :: IsPfx(e, len) && s.bit / 2 <= e.key.pfx && AgreeBits(x, e.key.bytes, s.bit / 2)
  {
    hide PfxCode, Radix, Shape;
    LinkMatch(s, x, len, pos, k);
    forall e | e in LeafSet(s)
      ensures AgreeBits(x, e.key.bytes, s.bit / 2)
    {
      AgreeMore(s.o.key.bytes, e.key.bytes, x, s.bit / 2);
    }
  }

  lemma CoverLonger(s: Tree, x: Bytes, len: nat, pos: nat, k: int)
    requires WF(s) && s.Link? && s.bit >= 0 && s.bit % 2 == 0 && IsBytes(x) && |x| >= len && BelowSeek(s, x, len, pos, k)
    requires forall e | e in LeafSet(s.l) :: IsPfx(e, len) && 2 * e.key.pfx == s.bit
    ensures k <= s.bit / 2
  {
    hide PfxCode, Radix, Shape, AgreeBits;
    FirstLast(s.l);
    assert First(s.l) in LeafSet(s);
  }

  lemma CoverRight(s: Tree, x: Bytes, len: nat)
    requires WF(s) && s.Link? && s.bit >= 0 && s.bit % 2 == 0 && IsBytes(x) && |x| >= len && s.bit / 2 < 8 * len
    requires forall e | e in LeafSet(s) :: IsPfx(e, len) && s.bit / 2 <= e.key.pfx && AgreeBits(x, e.key.bytes, s.bit / 2)
    requires forall e | e in LeafSet(s.r) :: IsPfx(e, len) && 2 * e.key.pfx > s.bit
    ensures BelowSeek(s.r, x, len, s.bit / 2 / 8, s.bit / 2)
  {
    hide PfxCode, Radix, Shape;
    var n := s.bit / 2;
    if s.r.Link? && s.r.bit >= 0 {
      DeeperBit(s, RIGHT, len);
    }
    assert 8 * (n / 8) <= n;
    forall e | e in LeafSet(s.r)
      ensures e in LeafSet(s) && AgreeBits(x, e.key.bytes, 8 * (n / 8))
    {
    }
  }

  lemma DeeperBit(s: Tree, side: bool, len: nat)
    requires WF(s) && s.Link? && s.bit >= 0 && s.Child(side).Link? && s.Child(side).bit >= 0
    requires forall e | e in LeafSet(s) :: IsPfx(e, len)
    ensures s.bit < s.Child(side).bit
  {
    hide PfxCode;
    PositionsDeepen(s, side);
    HeadIsLeaf(s);
    HeadIsLeaf(s.Child(side));
    assert IsPfx(s.Child(side).o, len) && IsPfx(s.o, len);
  }

  lemma CoverSides(s: Tree, len: nat)
    requires WF(s) && s.Link? && s.bit >= 0 && s.bit % 2 == 0
    requires forall e | e in LeafSet(s) :: IsPfx(e, len)
    ensures forall e | e in LeafSet(s.l) :: IsPfx(e, len) && 2 * e.key.pfx == s.bit
    ensures forall e | e in LeafSet(s.r) :: IsPfx(e, len) && 2 * e.key.pfx > s.bit
  {
    HeadIsLeaf(s);
    CoverLeft(s, len);
  }

  lemma SplitLongest(t: Tree, path: Path, x: Bytes, len: nat, k: int)
    requires IsBytes(x) && |x| >= len && ValidPath(t, path)
    requires AllPfxSeq(Pre(t, path), len) && AllPfxSeq(Post(t, path), len) && AllPfxSeq(Leaves(At(t, path)), len)
    requires NoLonger(Pre(t, path), x, len, k) && NoLonger(Post(t, path), x, len, k)
    requires NoLonger(Leaves(At(t, path)), x, len, k)
    ensures AllPfxSeq(Leaves(t), len) && NoLonger(Leaves(t), x, len, k)
  {
    LeavesAt(t, path);
    NoLongerConcat(Pre(t, path), Leaves(At(t, path)), x, len, k);
    NoLongerConcat(Pre(t, path) + Leaves(At(t, path)), Post(t, path), x, len, k);
  }

  /** The first leaf of a subtree of one key is the first of that key. */
  lemma FirstOfKey(t: Tree, path: Path, c: Code)
    requires WF(t) && ValidPath(t, path) && RadixAbove(t, path) && AllCode(At(t, path), c)
    ensures First(At(t, path)).code == c && FirstWith(Leaves(t), c) == Some(First(At(t, path)))
  {
    var s := At(t, path);
    FirstLast(s);
    RouteOfLeaf(t, path, First(s));
    RouteFirst(t, path, c);
  }

  /** The search ends on a match... */
  lemma LongestHere(t: Tree, path: Path, x: Bytes, len: nat, pos: nat, k: int)
    requires WF(t) && Seeking(t, path, x, len, pos, k)
    requires var s := At(t, path); (s.Leaf? || s.bit < 0) && IsPfx(Head(s), len) && Matches(Head(s), x, len)
    ensures AllPfxSeq(Leaves(t), len) && IsLongest(Leaves(t), x, len, Some(First(At(t, path))))
  {
    hide PfxCode, Shape, RadixAbove;
    var s := At(t, path);
    RadixAt(t, path);
    HeadIsLeaf(s);
    assert AllCode(s, Head(s).code);
    FirstLast(s);
    FirstOfKey(t, path, Head(s).code);
    var e := First(s);
    MatchSame(e, Head(s), x, len);
    forall f | f in LeafSet(s)
      ensures f.key.pfx <= e.key.pfx
    {
      SameCodeSame(f, e, len);
    }
    LeavesNoLonger(s, x, len, e.key.pfx);
    NoLongerMore(Pre(t, path), x, len, k, e.key.pfx);
    NoLongerMore(Post(t, path), x, len, k, e.key.pfx);
    SplitLongest(t, path, x, len, e.key.pfx);
  }

  /** ... or on the last cover node... */
  lemma LongestCovering(t: Tree, path: Path, cp: Path, x: Bytes, len: nat, pos: nat, k: int)
    requires WF(t) && Seeking(t, path, x, len, pos, k) && Covering(t, cp, x, len, k)
    requires AllPfxSeq(Leaves(At(t, path)), len) && NoLonger(Leaves(At(t, path)), x, len, k)
    ensures AllPfxSeq(Leaves(t), len) && IsLongest(Leaves(t), x, len, Some(First(At(t, cp))))
  {
    hide PfxCode, Shape, RadixAbove;
    var s := At(t, cp);
    FirstLast(s);
    forall e | e in LeafSet(s)
      ensures e.code == First(s).code
    {
      MatchingCodes(e, First(s), x, len);
    }
    FirstOfKey(t, cp, First(s).code);
    SplitLongest(t, path, x, len, k);
  }

  /** The last cover node seen, if any, as the search carries it. */
  ghost predicate CoverIs(t: Tree, cover: Branch, cp: Path, x: Bytes, len: nat, k: int) {
    if cover.Null? then k == -1
    else Covering(t, cp, x, len, k) && cover == Ref(At(t, cp))
  }

  /** What the search sees at its end. */
  lemma SeekEnd(s: Tree, x: Bytes, len: nat, pos: nat, k: int)
    requires WF(s) && IsBytes(x) && |x| >= len && BelowSeek(s, x, len, pos, k)
    ensures IsPfx(Head(s), len) && 8 * pos <= Head(s).key.pfx && AgreeBits(x, Head(s).key.bytes, 8 * pos)
    ensures First(s) in LeafSet(s)
  {
    HeadIsLeaf(s);
    FirstLast(s);
  }

  /** The end of the lookup: down the last cover node, if any. */
  method FromCover(tree: EbRoot, x: Bytes, len: nat, cover: Branch, ghost path: Path, ghost cp: Path, ghost pos: nat, ghost k: int)
    returns (r: Node?)
    requires tree.Valid() && tree.T.Full? && Seeking(tree.T.t, path, x, len, pos, k)
    requires CoverIs(tree.T.t, cover, cp, x, len, k)
    requires AllPfxSeq(Leaves(At(tree.T.t, path)), len) && NoLonger(Leaves(At(tree.T.t, path)), x, len, k)
    ensures tree.Valid() && AllPfxSeq(tree.Contents(), len) && IsLongest(tree.Contents(), x, len, Opt(r))
  {
    hide Rep, Radix, Shape, RepTop, Links, PfxCode, NoLonger, Matches, LeafSet, Leaves, RadixAbove, BelowSeek;
    ghost var t := tree.T.t;
    if cover.Null? {
      SplitLongest(t, path, x, len, -1);
      return null;
    }
    LongestCovering(t, path, cp, x, len, pos, k);
    r := WalkDown(tree, cover, LEFT, cp);
  }

  /** ebmb_lookup_longest(): the first entity of the longest prefix matching x. */
  method LookupLongest(tree: EbRoot, x: Bytes, len: nat) returns (r: Node?)
    requires tree.Valid() && AllPfx(tree.T, len) && IsBytes(x) && |x| >= len && len > 0
    ensures tree.Valid() && AllPfxSeq(tree.Contents(), len) && IsLongest(tree.Contents(), x, len, Opt(r))
  {
    hide Rep, Radix, Shape, RepTop, Links, PfxCode, NoLonger, Matches, LeafSet, Leaves, RadixAbove, BelowSeek, Covering, EbRoot.Valid, WF, NoDups;
    var troot := tree.root.b.l;
    if troot.Null? {
      EmptyTree(tree);
      NoEntities(x, len);
      return null;
    }
    FullTree(tree);
    ghost var t, m, path, cp, k := tree.T.t, Snap(tree.Repr()), [], [], -1;
    var cover, pos := Null(false), 0;
    SeekStart(t, x, len);
    while true
      invariant tree.Valid() && Seeking(t, path, x, len, pos, k) && troot == Ref(At(t, path))
      invariant CoverIs(t, cover, cp, x, len, k)
      decreases At(t, path)
    {
      Reads(m, tree.root, t, path);
      RadixAt(t, path);
      ghost var s := At(t, path);
      SeekEnd(s, x, len, pos, k);
      var node := troot.n;
      if troot.LeafOf? || node.bit < 0 {
        var diff := CheckNode(x, node, pos, len, k, s);
        if diff {
          NoMatchAtEnd(s, x, len, pos, k, k);
          r := FromCover(tree, x, len, cover, path, cp, pos, k);
          return;
        }
        LongestHere(t, path, x, len, pos, k);
        r := WalkDown(tree, troot, LEFT, path);
        return;
      }
      LinkMatch(s, x, len, pos, k);
      LinkPos(s, x, len, pos, k);
      var ok, pos' := MatchUpTo(x, node.key.bytes, pos, node.bit / 2);
      if !ok {
        NoMatchBelow(s, x, len, pos, k, k);
        r := FromCover(tree, x, len, cover, path, cp, pos, k);
        return;
      }
      if node.bit % 2 == 0 {
        SeekCover(t, path, x, len, pos, k);
        PathDown(t, NoParent, path, LEFT);
        PathDown(t, NoParent, path, RIGHT);
        cover, troot := node.b.l, node.b.r;
        cp, k, path := path + [LEFT], node.bit / 2, path + [RIGHT];
      } else {
        var side := BitAt(x, node.bit / 2);
        SeekNormal(t, path, x, len, pos, k);
        PathDown(t, NoParent, path, side);
        troot := node.b.At(side);
        path := path + [side];
      }
      pos := pos';
    }
  }

  lemma NoEntities(x: Bytes, len: nat)
    requires IsBytes(x) && |x| >= len
    ensures AllPfxSeq([], len) && IsLongest([], x, len, None)
  {
  }

  lemma LinkPos(s: Tree, x: Bytes, len: nat, pos: nat, k: int)
    requires s.Link? && s.bit >= 0 && IsBytes(x) && |x| >= len && BelowSeek(s, x, len, pos, k)
    ensures 8 * pos <= s.bit / 2 && pos < len
  {
  }

  /** check_bits() of x against the prefix of a node. */
  method CheckNode(x: Bytes, node: Node, pos: nat, len: nat, ghost k: int, ghost s: Tree) returns (diff: bool)
    requires WF(s) && IsBytes(x) && |x| >= len && BelowSeek(s, x, len, pos, k) && Head(s) == node
    ensures IsPfx(node, len) && (diff <==> !Matches(node, x, len))
  {
    hide PfxCode, Radix;
    SeekEnd(s, x, len, pos, k);
    var d := CheckBits(x, node.key.bytes, pos, node.key.pfx);
    diff := d != 0;
  }

  // ----- exact match

  /** No entity of s has the first pfx bits of x as its key. */
  ghost predicate NoExact(s: seq<Node>, x: Bytes, len: nat, pfx: nat)
    requires AllPfxSeq(s, len) && IsBytes(x) && |x| >= len
  {
    forall i | 0 <= i < |s| :: s[i].key.pfx == pfx ==> !Matches(s[i], x, len)
  }

  /** r is the first entity of s whose key is the first pfx bits of x. */
  ghost predicate IsExact(s: seq<Node>, x: Bytes, len: nat, pfx: nat, r: Option<Node>)
    requires AllPfxSeq(s, len) && IsBytes(x) && |x| >= len
  {
    match r
    case None => NoExact(s, x, len, pfx)
    case Some(e) => IsPfx(e, len) && e.key.pfx == pfx && Matches(e, x, len) && FirstWith(s, e.code) == Some(e)
  }

  ghost predicate Finding(t: Tree, path: Path, x: Bytes, len: nat, pos: nat, pfx: nat) {
    && IsBytes(x) && |x| >= len && ValidPath(t, path) && RadixAbove(t, path)
    && AllPfxSeq(Pre(t, path), len) && AllPfxSeq(Post(t, path), len)
    && NoExact(Pre(t, path), x, len, pfx) && NoExact(Post(t, path), x, len, pfx)
    && BelowSeek(At(t, path), x, len, pos, -1)
  }

  lemma NoExactConcat(a: seq<Node>, b: seq<Node>, x: Bytes, len: nat, pfx: nat)
    requires AllPfxSeq(a, len) && AllPfxSeq(b, len) && IsBytes(x) && |x| >= len
    requires NoExact(a, x, len, pfx) && NoExact(b, x, len, pfx)
    ensures AllPfxSeq(a + b, len) && NoExact(a + b, x, len, pfx)
  {
    hide PfxCode, Matches;
    forall i | 0 <= i < |a + b|
      ensures IsPfx((a + b)[i], len) && ((a + b)[i].key.pfx == pfx ==> !Matches((a + b)[i], x, len))
    {
      if i >= |a| {
        assert (a + b)[i] == b[i - |a|];
      }
    }
  }

  lemma NoExactLeaves(s: Tree, x: Bytes, len: nat, pfx: nat)
    requires IsBytes(x) && |x| >= len
    requires forall e | e in LeafSet(s) :: IsPfx(e, len) && (e.key.pfx == pfx ==> !Matches(e, x, len))
    ensures AllPfxSeq(Leaves(s), len) && NoExact(Leaves(s), x, len, pfx)
  {
    hide PfxCode, Matches;
    forall i | 0 <= i < |Leaves(s)|
      ensures IsPfx(Leaves(s)[i], len) && (Leaves(s)[i].key.pfx == pfx ==> !Matches(Leaves(s)[i], x, len))
    {
      LeafIndex(s, i);
    }
  }

  lemma NoneIsNoExact(s: seq<Node>, x: Bytes, len: nat, pfx: nat)
    requires AllPfxSeq(s, len) && IsBytes(x) && |x| >= len && NoLonger(s, x, len, -1)
    ensures NoExact(s, x, len, pfx)
  {
  }

  lemma SplitExact(t: Tree, path: Path, x: Bytes, len: nat, pfx: nat)
    requires IsBytes(x) && |x| >= len && ValidPath(t, path)
    requires AllPfxSeq(Pre(t, path), len) && AllPfxSeq(Post(t, path), len) && AllPfxSeq(Leaves(At(t, path)), len)
    requires NoExact(Pre(t, path), x, len, pfx) && NoExact(Post(t, path), x, len, pfx)
    requires NoExact(Leaves(At(t, path)), x, len, pfx)
    ensures AllPfxSeq(Leaves(t), len) && NoExact(Leaves(t), x, len, pfx)
  {
    LeavesAt(t, path);
    NoExactConcat(Pre(t, path), Leaves(At(t, path)), x, len, pfx);
    NoExactConcat(Pre(t, path) + Leaves(At(t, path)), Post(t, path), x, len, pfx);
  }

  /** The side on which the lookup goes on below a link which x reaches. */
  ghost function ExactSide(s: Tree, x: Bytes, len: nat, pfx: nat): bool
    requires s.Link? && s.bit >= 0 && IsBytes(x) && |x| >= len && s.bit / 2 < 8 * len
  {
    if s.bit % 2 == 0 then s.bit / 2 != pfx else BitAt(x, s.bit / 2)
  }

  lemma CoverLeftBelow(s: Tree, x: Bytes, len: nat, pos: nat)
    requires WF(s) && s.Link? && s.bit >= 0 && s.bit % 2 == 0 && IsBytes(x) && |x| >= len && BelowSeek(s, x, len, pos, -1)
    requires s.bit / 2 < 8 * len && IsPfx(s.o, len) && AgreeBits(x, s.o.key.bytes, s.bit / 2)
    ensures BelowSeek(s.l, x, len, s.bit / 2 / 8, -1)
  {
    hide PfxCode;
    var n := s.bit / 2;
    CoverBelow(s, x, len, pos, -1);
    if s.l.Link? && s.l.bit >= 0 {
      PositionsDeepen(s, LEFT);
      HeadIsLeaf(s.l);
      HeadIsLeaf(s);
    }
    assert 8 * (n / 8) <= n;
  }

  lemma ExactOther(s: Tree, x: Bytes, len: nat, pos: nat, pfx: nat)
    requires WF(s) && s.Link? && s.bit >= 0 && IsBytes(x) && |x| >= len && BelowSeek(s, x, len, pos, -1)
    requires s.bit / 2 < 8 * len && IsPfx(s.o, len) && AgreeBits(x, s.o.key.bytes, s.bit / 2)
    ensures var c := s.Child(!ExactSide(s, x, len, pfx));
            AllPfxSeq(Leaves(c), len) && NoExact(Leaves(c), x, len, pfx)
    ensures BelowSeek(s.Child(ExactSide(s, x, len, pfx)), x, len, s.bit / 2 / 8, -1)
  {
    hide PfxCode, Radix, NoLonger, Matches;
    var c := s.Child(!ExactSide(s, x, len, pfx));
    if s.bit % 2 == 1 {
      NormalOther(s, x, len, pos, -1);
      NormalBelow(s, x, len, pos, -1);
      NoneIsNoExact(Leaves(c), x, len, pfx);
    } else {
      CoverSides(s, len);
      NoExactLeaves(c, x, len, pfx);
      if s.bit / 2 == pfx {
        CoverLeftBelow(s, x, len, pos);
      } else {
        CoverBelow(s, x, len, pos, -1);
        BelowWeaker(s.r, x, len, s.bit / 2 / 8, s.bit / 2, -1);
      }
    }
  }

  lemma BelowWeaker(s: Tree, x: Bytes, len: nat, pos: nat, k: int, k': int)
    requires IsBytes(x) && |x| >= len && BelowSeek(s, x, len, pos, k) && k' <= k
    ensures BelowSeek(s, x, len, pos, k')
  {
  }

  lemma FindDown(t: Tree, path: Path, x: Bytes, len: nat, pos: nat, pfx: nat)
    requires WF(t) && Finding(t, path, x, len, pos, pfx)
    requires var s := At(t, path);
             && s.Link? && s.bit >= 0 && s.bit / 2 < 8 * len && IsPfx(s.o, len) && AgreeBits(x, s.o.key.bytes, s.bit / 2)
    ensures var s := At(t, path); Finding(t, path + [ExactSide(s, x, len, pfx)], x, len, s.bit / 2 / 8, pfx)
  {
    hide PfxCode, NoExact, Matches, Radix, RadixAbove, Shape, BelowSeek;
    var s := At(t, path);
    var side := ExactSide(s, x, len, pfx);
    RadixAt(t, path);
    PathDown(t, NoParent, path, side);
    RadixAboveDown(t, path, side);
    ExactOther(s, x, len, pos, pfx);
    if side {
      NoExactConcat(Pre(t, path), Leaves(s.l), x, len, pfx);
      assert Post(t, path + [side]) == Post(t, path);
    } else {
      NoExactConcat(Leaves(s.r), Post(t, path), x, len, pfx);
      assert Pre(t, path + [side]) == Pre(t, path);
    }
  }

  lemma FindStart(t: Tree, x: Bytes, len: nat, pfx: nat)
    requires IsBytes(x) && |x| >= len && len > 0 && AllPfx(Full(t), len)
    ensures Finding(t, [], x, len, 0, pfx)
  {
    SeekStart(t, x, len);
  }

  /** At a leaf or a duplicate tree, the head decides. */
  lemma FindEnd(t: Tree, path: Path, x: Bytes, len: nat, pos: nat, pfx: nat)
    requires WF(t) && Finding(t, path, x, len, pos, pfx)
    requires var s := At(t, path); (s.Leaf? || s.bit < 0) && IsPfx(Head(s), len)
    ensures AllPfxSeq(Leaves(t), len)
    ensures var s := At(t, path);
            IsExact(Leaves(t), x, len, pfx,
                    if Head(s).key.pfx == pfx && Matches(Head(s), x, len) then Some(First(s)) else None)
  {
    hide PfxCode, Shape, RadixAbove;
    var s := At(t, path);
    RadixAt(t, path);
    HeadIsLeaf(s);
    FirstLast(s);
    assert AllCode(s, Head(s).code);
    FirstOfKey(t, path, Head(s).code);
    forall e | e in LeafSet(s)
      ensures IsPfx(e, len) && e.key.pfx == Head(s).key.pfx && (Matches(e, x, len) <==> Matches(Head(s), x, len))
    {
      SameCodeSame(e, Head(s), len);
      MatchSame(e, Head(s), x, len);
    }
    AllPfxLeaves(t, path, x, len, pos, pfx);
    if !(Head(s).key.pfx == pfx && Matches(Head(s), x, len)) {
      NoExactLeaves(s, x, len, pfx);
      SplitExact(t, path, x, len, pfx);
    }
  }

  lemma AllPfxLeaves(t: Tree, path: Path, x: Bytes, len: nat, pos: nat, pfx: nat)
    requires Finding(t, path, x, len, pos, pfx)
    ensures AllPfxSeq(Leaves(t), len)
  {
    hide PfxCode, RadixAbove, NoExact;
    var s := At(t, path);
    LeavesAt(t, path);
    forall i | 0 <= i < |Leaves(s)|
      ensures IsPfx(Leaves(s)[i], len)
    {
      LeafIndex(s, i);
    }
  }

  /** ebmb_lookup_prefix(): the first entity whose key is the first pfx bits of x. */
  method LookupPfx(tree: EbRoot, x: Bytes, pfx: nat, len: nat) returns (r: Node?)
    requires tree.Valid() && AllPfx(tree.T, len) && IsBytes(x) && |x| >= len && len > 0
    ensures tree.Valid() && AllPfxSeq(tree.Contents(), len) && IsExact(tree.Contents(), x, len, pfx, Opt(r))
  {
    hide Rep, Radix, Shape, RepTop, Links, PfxCode, NoExact, Matches, LeafSet, Leaves, RadixAbove, BelowSeek, EbRoot.Valid, WF, NoDups;
    var troot := tree.root.b.l;
    if troot.Null? {
      EmptyTree(tree);
      NoneExact(x, len, pfx);
      return null;
    }
    FullTree(tree);
    ghost var t, m, path := tree.T.t, Snap(tree.Repr()), [];
    var pos := 0;
    FindStart(t, x, len, pfx);
    while true
      invariant tree.Valid() && Finding(t, path, x, len, pos, pfx) && troot == Ref(At(t, path))
      decreases At(t, path)
    {
      Reads(m, tree.root, t, path);
      RadixAt(t, path);
      ghost var s := At(t, path);
      SeekEnd(s, x, len, pos, -1);
      var node := troot.n;
      if troot.LeafOf? || node.bit < 0 {
        FindEnd(t, path, x, len, pos, pfx);
        if node.key.pfx != pfx {
          return null;
        }
        var diff := CheckNode(x, node, pos, len, -1, s);
        if diff {
          return null;
        }
        r := WalkDown(tree, troot, LEFT, path);
        return;
      }
      LinkMatch(s, x, len, pos, -1);
      LinkPos(s, x, len, pos, -1);
      var ok, pos' := MatchUpTo(x, node.key.bytes, pos, node.bit / 2);
      if !ok {
        NoMatchBelow(s, x, len, pos, -1, -1);
        NoneIsNoExact(Leaves(s), x, len, pfx);
        SplitExact(t, path, x, len, pfx);
        return null;
      }
      FindDown(t, path, x, len, pos, pfx);
      var side;
      if node.bit % 2 == 0 {
        side := node.bit / 2 != pfx;
      } else {
        side := BitAt(x, node.bit / 2);
      }
      PathDown(t, NoParent, path, side);
      troot := node.b.At(side);
      path := path + [side];
      pos := pos';
    }
  }

  lemma NoneExact(x: Bytes, len: nat, pfx: nat)
    requires IsBytes(x) && |x| >= len
    ensures AllPfxSeq([], len) && IsExact([], x, len, pfx, None)
  {
  }
}
