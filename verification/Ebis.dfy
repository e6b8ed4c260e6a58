/** Trees of zero-terminated strings: ebistree.h. */
module Ebis {
  import opened Options
  import opened Codes
  import opened Bits
  import opened ByteBits
  import opened EbNodes
  import opened EbTrees
  import opened EbMemory
  import opened EbLists
  import opened EbRadix
  import opened EbInsert
  import opened EbLinking
  import opened EbDupTree
  import opened EbTree
  import opened EbWalk

  /** A string in memory: its bytes up to and including the only zero. */
  ghost predicate IsString(z: Bytes) {
    IsBytes(z) && |z| > 0 && z[|z| - 1] == 0 && forall i | 0 <= i < |z| - 1 :: z[i] != 0
  }

  /** All the bits of a block. */
  ghost function BlockCode(z: Bytes): (c: Code)
    requires IsBytes(z)
    ensures |c| == 8 * |z| && forall j | 0 <= j < |c| :: c[j] == BitAt(z, j)
  {
    seq(8 * |z|, j requires 0 <= j < 8 * |z| => BitAt(z, j))
  }

  ghost predicate IsStr(n: Node) {
    n.key.Str? && IsString(n.key.z) && n.code == BlockCode(n.key.z)
  }

  ghost predicate AllStr(tt: Top) {
    forall e | e in Members(tt) :: IsStr(e)
  }

  /** The order of strcmp(). */
  ghost predicate StrLess(a: Bytes, b: Bytes) {
    a != [] && b != [] && (a[0] < b[0] || (a[0] == b[0] && StrLess(a[1..], b[1..])))
  }

  // ----- codes of strings

  lemma AgreeBlocks(a: Bytes, b: Bytes, n: nat)
    requires IsBytes(a) && IsBytes(b) && n <= 8 * |a| && n <= 8 * |b|
    ensures AgreeBits(a, b, n) <==> Agree(BlockCode(a), BlockCode(b), n)
  {
    if Agree(BlockCode(a), BlockCode(b), n) {
      forall i | 0 <= i < n
        ensures BitAt(a, i) == BitAt(b, i)
      {
        assert BlockCode(a)[i] == BlockCode(b)[i];
      }
    }
  }

  lemma BlockDiff(a: Bytes, b: Bytes, d: nat)
    requires IsBytes(a) && IsBytes(b) && d < 8 * |a| && d < 8 * |b|
    requires AgreeBits(a, b, d) && BitAt(a, d) != BitAt(b, d)
    ensures Diff(BlockCode(a), BlockCode(b)) == d && BlockCode(a) != BlockCode(b) && a != b
  {
    AgreeBlocks(a, b, d);
    DiffIs(BlockCode(a), BlockCode(b), d);
  }

  /** Two strings which agree on their first n bytes either end together or go on. */
  lemma StringsGoOn(a: Bytes, b: Bytes, n: nat)
    requires IsString(a) && IsString(b) && n <= |a| && n <= |b| && AgreeBits(a, b, 8 * n)
    ensures forall i | 0 <= i < n :: a[i] == b[i]
    ensures n == |a| <==> n == |b|
  {
    forall i | 0 <= i < n
      ensures a[i] == b[i]
    {
      forall k | 0 <= k < 8
        ensures ByteBit(a[i], k) == ByteBit(b[i], k)
      {
        assert (8 * i + k) / 8 == i && (8 * i + k) % 8 == k;
        assert BitAt(a, 8 * i + k) == BitAt(b, 8 * i + k);
      }
      SameByte(a[i], b[i]);
    }
    if n > 0 {
      assert a[n - 1] == b[n - 1];
    }
  }

  /** string_equal_bits(): the first differing bit, or a negative number for equal
      strings. */
  method StringEqualBits(a: Bytes, b: Bytes, ignore: nat) returns (r: int)
    requires IsString(a) && IsString(b) && ignore / 8 < |a| && ignore / 8 < |b| && AgreeBits(a, b, 8 * (ignore / 8))
    ensures r < 0 ==> a == b
    ensures r >= 0 ==> r < 8 * |a| && r < 8 * |b| && AgreeBits(a, b, r) && BitAt(a, r) != BitAt(b, r)
  {
    var beg := ignore / 8;
    while true
      invariant 0 <= beg < |a| && beg < |b| && AgreeBits(a, b, 8 * beg)
      decreases |a| - beg
    {
      var c, d := a[beg], b[beg];
      beg := beg + 1;
      XorZero(c, d);
      if Xor(c, d) != 0 {
        FirstDifference(c, d);
        AgreePartByte(a, b, beg - 1, 8 - Fls(Xor(c, d)));
        r := 8 * beg - Fls(Xor(c, d));
        assert r / 8 == beg - 1 && r % 8 == 8 - Fls(Xor(c, d));
        return;
      }
      AgreeByte(a, b, beg - 1);
      if d == 0 {
        StringsGoOn(a, b, beg);
        assert a == b;
        return -1;
      }
    }
  }

  lemma StrComparable(a: Bytes, b: Bytes)
    requires IsString(a) && IsString(b)
    ensures Comparable(BlockCode(a), BlockCode(b))
    ensures BlockCode(a) == BlockCode(b) <==> a == b
  {
    var d := FirstDiff(a, b);
    if d < 8 * |a| && d < 8 * |b| {
      BlockDiff(a, b, d);
    } else {
      StringsGoOn(a, b, d / 8);
      assert a == b;
    }
  }

  lemma FirstDiff(a: Bytes, b: Bytes) returns (d: nat)
    requires IsBytes(a) && IsBytes(b)
    ensures d <= 8 * |a| && d <= 8 * |b| && AgreeBits(a, b, d)
    ensures d < 8 * |a| && d < 8 * |b| ==> BitAt(a, d) != BitAt(b, d)
  {
    AgreeBlocks(a, b, Diff(BlockCode(a), BlockCode(b)));
    d := Diff(BlockCode(a), BlockCode(b));
  }

  /** The first differing bit of two bytes orders them. */
  lemma ByteOrder(u: nat, v: nat)
    requires u < 256 && v < 256 && u != v
    ensures Xor(u, v) > 0 && 1 <= Fls(Xor(u, v)) <= 8 && (u < v <==> ByteBit(v, 8 - Fls(Xor(u, v))))
  {
    FirstDifference(u, v);
    var d := 8 - Fls(Xor(u, v));
    FirstBits(u, v, d);
    ShrNext(u, 7 - d);
    ShrNext(v, 7 - d);
    ShrOrder(u, v, 7 - d);
  }

  lemma {:induction false} StrLessAt(a: Bytes, b: Bytes, i: nat)
    requires i < |a| && i < |b| && a[i] != b[i] && forall j | 0 <= j < i :: a[j] == b[j]
    ensures StrLess(a, b) <==> a[i] < b[i]
  {
    if i > 0 {
      StrLessAt(a[1..], b[1..], i - 1);
    }
  }

  lemma {:induction false} StrLessSame(a: Bytes)
    ensures !StrLess(a, a)
  {
    if a != [] {
      StrLessSame(a[1..]);
    }
  }

  /** The order of the codes is the order of strcmp() on unsigned bytes. */
  lemma StringOrder(a: Bytes, b: Bytes)
    requires IsString(a) && IsString(b)
    ensures Before(BlockCode(a), BlockCode(b)) <==> StrLess(a, b)
  {
    StrComparable(a, b);
    if a == b {
      DiffSame(BlockCode(a));
      StrLessSame(a);
    } else {
      var d := Diff(BlockCode(a), BlockCode(b));
      AgreeBlocks(a, b, d);
      var i := d / 8;
      assert AgreeBits(a, b, 8 * i);
      StringsGoOn(a, b, i);
      FirstBitOfByte(a, b, i, d);
      ByteOrder(a[i], b[i]);
      StrLessAt(a, b, i);
    }
  }

  lemma FirstBitOfByte(a: Bytes, b: Bytes, i: nat, d: nat)
    requires IsBytes(a) && IsBytes(b) && d < 8 * |a| && d < 8 * |b| && i == d / 8
    requires AgreeBits(a, b, d) && BitAt(a, d) != BitAt(b, d)
    ensures a[i] != b[i] && Xor(a[i], b[i]) > 0 && 8 - Fls(Xor(a[i], b[i])) == d % 8
  {
    FirstDifference(a[i], b[i]);
    var e := 8 - Fls(Xor(a[i], b[i]));
    assert (8 * i + e) / 8 == i && (8 * i + e) % 8 == e;
    assert BitAt(a, 8 * i + e) != BitAt(b, 8 * i + e);
  }

  lemma InsertableStr(t: Tree, n: Node)
    requires AllStr(Full(t)) && IsStr(n) && n !in LeafSet(t)
    ensures Insertable(t, n)
  {
    hide BlockCode;
    forall e | e in LeafSet(t)
      ensures !e.key.U32? && Comparable(n.code, e.code)
    {
      assert e in Members(Full(t));
      StrComparable(n.key.z, e.key.z);
    }
  }

  // ----- the offset which the descents carry

  /** What offset bit tells about the string with code c at subtree s: some leaf
      below has the string, or differs from it exactly at bit, or all leaves below
      agree with it up to bit. */
  ghost predicate Offset(s: Tree, c: Code, bit: int) {
    if bit < 0 then exists e | e in LeafSet(s) :: e.code == c
    else
      || (exists e | e in LeafSet(s) :: e.code != c && Diff(c, e.code) == bit)
      || (forall e | e in LeafSet(s) :: bit < |e.code| && Agree(c, e.code, bit))
  }

  /** So bytes before the offset need not be compared with the head again. */
  lemma OffsetAtHead(s: Tree, c: Code, bit: int)
    requires WF(s) && Offset(s, c, bit) && bit >= 0 && (s.Leaf? || s.bit < 0 || bit < Pos(s.o, s.bit))
    requires forall e | e in LeafSet(s) :: Comparable(c, e.code)
    ensures bit < |Head(s).code| && Agree(c, Head(s).code, bit) && bit <= |c|
  {
    HeadIsLeaf(s);
    if exists e | e in LeafSet(s) :: e.code != c && Diff(c, e.code) == bit {
      var e :| e in LeafSet(s) && e.code != c && Diff(c, e.code) == bit;
      if s.Link? && s.bit >= 0 {
        assert Agree(e.code, s.o.code, Pos(s.o, s.bit));
      }
    }
  }

  /** An offset at or beyond the link's bit means that the code passes the link. */
  lemma OffsetPasses(s: Tree, c: Code, bit: int)
    requires WF(s) && s.Link? && s.bit >= 0 && Offset(s, c, bit) && (bit < 0 || bit >= Pos(s.o, s.bit))
    requires forall e | e in LeafSet(s) :: Comparable(c, e.code)
    ensures Pos(s.o, s.bit) < |c| && Agree(c, s.o.code, Pos(s.o, s.bit))
    ensures Offset(s.Child(c[Pos(s.o, s.bit)]), c, bit)
  {
    HeadIsLeaf(s);
    var p := Pos(s.o, s.bit);
    if bit < 0 {
      var e :| e in LeafSet(s) && e.code == c;
      assert e in LeafSet(s.Child(c[p]));
    } else if exists e | e in LeafSet(s) :: e.code != c && Diff(c, e.code) == bit {
      var e :| e in LeafSet(s) && e.code != c && Diff(c, e.code) == bit;
      assert Agree(c, s.o.code, p);
      OffsetBelow(s, c, bit, e);
    } else {
      FirstLast(s.l);
      FirstLast(s.r);
      var a, b := First(s.l), First(s.r);
      assert a in LeafSet(s) && b in LeafSet(s) && a.code[p] != b.code[p];
      assert bit == p;
      AgreeBelow(s, c);
    }
  }

  lemma AgreeBelow(s: Tree, c: Code)
    requires WF(s) && s.Link? && s.bit >= 0 && 0 <= Pos(s.o, s.bit) < |c| && Agree(c, s.o.code, Pos(s.o, s.bit))
    ensures forall e | e in LeafSet(s.Child(c[Pos(s.o, s.bit)])) :: Pos(s.o, s.bit) < |e.code| && Agree(c, e.code, Pos(s.o, s.bit))
  {
  }

  lemma OffsetBelow(s: Tree, c: Code, bit: int, e: Node)
    requires WF(s) && s.Link? && s.bit >= 0 && e in LeafSet(s) && e.code != c && Diff(c, e.code) == bit >= Pos(s.o, s.bit)
    requires 0 <= Pos(s.o, s.bit) < |c| && Agree(c, s.o.code, Pos(s.o, s.bit)) && Comparable(c, e.code)
    ensures Offset(s.Child(c[Pos(s.o, s.bit)]), c, bit)
  {
    var p := Pos(s.o, s.bit);
    if bit > p {
      assert e.code[p] == c[p];
      assert e in LeafSet(s.Child(c[p]));
    } else {
      AgreeBelow(s, c);
    }
  }

  /** A comparison with the head of a subtree, of which the bytes before the offset
      are skipped. */
  method CompareHead(x: Bytes, cur: Node, bit: nat) returns (r: int)
    requires IsString(x) && IsStr(cur) && bit < |cur.code| && Agree(BlockCode(x), cur.code, bit)
    ensures (r < 0 <==> cur.code == BlockCode(x)) && (r < 0 <==> cur.key.z == x)
    ensures r >= 0 ==> r == Diff(BlockCode(x), cur.code) && r < |BlockCode(x)| && r < |cur.code|
  {
    hide BlockCode;
    CodeLength(x);
    CodeLength(cur.key.z);
    OffsetBytes(x, cur.key.z, bit);
    r := StringEqualBits(x, cur.key.z, bit);
    StrComparable(x, cur.key.z);
    if r >= 0 {
      BlockDiff(x, cur.key.z, r);
    }
  }

  lemma OffsetFresh(s: Tree, c: Code, r: int)
    requires WF(s) && (r < 0 <==> Head(s).code == c) && (r >= 0 ==> r == Diff(c, Head(s).code))
    ensures Offset(s, c, r)
  {
    HeadIsLeaf(s);
  }

  lemma CodeLength(z: Bytes)
    requires IsBytes(z)
    ensures |BlockCode(z)| == 8 * |z|
  {
  }

  lemma OffsetBytes(a: Bytes, b: Bytes, bit: nat)
    requires IsString(a) && IsString(b) && bit < 8 * |b| && Agree(BlockCode(a), BlockCode(b), bit)
    ensures bit / 8 < |a| && bit / 8 < |b| && AgreeBits(a, b, 8 * (bit / 8))
  {
    CodeLength(a);
    AgreeBlocks(a, b, bit);
    assert AgreeBits(a, b, 8 * (bit / 8));
    StringsGoOn(a, b, bit / 8);
  }

  /** What a comparison at the end of the descent means for insertion. */
  lemma PlacingStr(s: Tree, n: Node, r: int)
    requires WF(s) && Insertable(s, n) && IsStr(n) && IsStr(Head(s))
    requires (r < 0 <==> Head(s).code == n.code) && (r >= 0 ==> r == Diff(n.code, Head(s).code) < |n.code| && r < |Head(s).code|)
    requires r < |n.code| && Stops(s, n.code)
    ensures r < 0 ==> Placing(s, n, true, -1, RIGHT)
    ensures r >= 0 ==> r < 8 * |n.key.z| && r < 8 * |Head(s).key.z| && Placing(s, n, false, r, CmpBits(n.key.z, Head(s).key.z, r) >= 0)
  {
    hide Radix, Shape;
    HeadIsLeaf(s);
    if r >= 0 {
      assert n.code[r] == BitAt(n.key.z, r) && Head(s).code[r] == BitAt(Head(s).key.z, r);
    }
  }

  /** The descent of ebis_insert(): where n goes, and how. */
  method DescendStr(tree: EbRoot, n: Node)
    returns (at: Node, side: bool, troot: Branch, same: bool, bit: int, right: bool, ghost path: Path)
    requires tree.Valid() && AllStr(tree.T) && IsStr(n) && n !in tree.Repr() && tree.T.Full?
    ensures tree.Valid() && Snap(tree.Repr()) == old(Snap(tree.Repr()))
    ensures Descending(tree.T.t, path, n) && Placing(At(tree.T.t, path), n, same, bit, right)
    ensures troot == Ref(At(tree.T.t, path)) && Up(at, side) == Anchor(tree.T.t, Up(tree.root, LEFT), path)
    ensures troot.n == Head(At(tree.T.t, path))
  {
    hide Rep, Radix, Shape, RepTop, Links, BlockCode, Placing, Insert, Route, Offset, Stops, Insertable, EbRoot.Valid, WF, Diff;
    ghost var t, root, m := tree.T.t, tree.root, Snap(tree.Repr());
    ValidTree(tree);
    InsertableStr(t, n);
    DescendingStart(t, n);
    Reads(m, root, t, []);
    at, side, path := tree.root, LEFT, [];
    troot := at.b.At(side);
    bit := 0;
    OffsetStart(t, n);
    while troot.LinkOf?
      invariant tree.Valid() && Descending(t, path, n) && AllStr(Full(At(t, path)))
      invariant troot == Ref(At(t, path)) && Up(at, side) == Anchor(t, Up(root, LEFT), path)
      invariant Offset(At(t, path), n.code, bit)
      decreases At(t, path)
    {
      var cur := troot.n;
      ghost var s := At(t, path);
      Reads(m, root, t, path);
      var stop, sd;
      stop, same, bit, sd := LevelStr(n, cur, cur.bit, bit, s);
      if stop {
        right := sd;
        return;
      }
      DescendingStep(t, path, n);
      at, side := cur, sd;
      troot := at.b.At(side);
      PathDown(t, Up(root, LEFT), path, side);
      path := path + [side];
    }
    Reads(m, root, t, path);
    same, bit, right := EndStr(n, troot.n, bit, At(t, path));
  }

  lemma OffsetStart(t: Tree, n: Node)
    requires AllStr(Full(t)) && IsStr(n)
    ensures Offset(t, n.code, 0) && AllStr(Full(At(t, [])))
  {
    forall e | e in LeafSet(t)
      ensures 0 < |e.code|
    {
      assert e in Members(Full(t));
    }
  }

  /** One level of the descent: the comparison is only made when the offset does not
      reach the link's bit. */
  method LevelStr(n: Node, cur: Node, h: int, bit0: int, ghost s: Tree) returns (stop: bool, same: bool, bit: int, side: bool)
    requires WF(s) && Insertable(s, n) && s.Link? && s.bit == h && s.o == cur
    requires IsStr(n) && AllStr(Full(s)) && Offset(s, n.code, bit0)
    ensures stop ==> Placing(s, n, same, bit, side)
    ensures !stop ==> !Stops(s, n.code) && Pos(cur, h) == h < |n.code| && side == n.code[h] && Offset(s.Child(side), n.code, bit)
  {
    hide Radix, Shape, BlockCode, Placing, Insert, Offset;
    HeadIsLeaf(s);
    assert cur in Members(Full(s)) && IsStr(cur);
    bit := bit0;
    if bit >= 0 && (bit < h || h < 0) {
      OffsetAtHead(s, n.code, bit);
      bit := CompareHead(n.key.z, cur, bit);
      OffsetFresh(s, n.code, bit);
      if 0 <= bit && (bit < h || h < 0) {
        PlacingStr(s, n, bit);
        return true, false, bit, CmpBits(n.key.z, cur.key.z, bit) >= 0;
      }
    }
    if h < 0 {
      DupHasCode(s, n.code, bit);
      PlacingStr(s, n, -1);
      return true, true, -1, RIGHT;
    }
    OffsetPasses(s, n.code, bit);
    DiffAtLeast(n.code, cur.code, h);
    CodeLength(n.key.z);
    CodeBit(n, h);
    return false, false, bit, BitAt(n.key.z, h);
  }

  lemma CodeBit(n: Node, h: nat)
    requires IsStr(n) && h < |n.code|
    ensures h < 8 * |n.key.z| && n.code[h] == BitAt(n.key.z, h)
  {
  }

  lemma DupHasCode(s: Tree, c: Code, bit: int)
    requires WF(s) && s.Link? && s.bit < 0 && Offset(s, c, bit) && bit < 0
    ensures s.o.code == c
  {
  }

  method EndStr(n: Node, cur: Node, bit0: int, ghost s: Tree) returns (same: bool, bit: int, right: bool)
    requires WF(s) && Insertable(s, n) && s == Leaf(cur)
    requires IsStr(n) && AllStr(Full(s)) && Offset(s, n.code, bit0)
    ensures Placing(s, n, same, bit, right)
  {
    hide Radix, Shape, BlockCode, Placing, Insert, Offset;
    assert cur in Members(Full(s)) && IsStr(cur);
    bit := bit0;
    if bit >= 0 {
      OffsetAtHead(s, n.code, bit);
      bit := CompareHead(n.key.z, cur, bit);
    } else {
      LeafHasCode(cur, n.code, bit);
    }
    if bit < 0 {
      PlacingStr(s, n, -1);
      return true, -1, RIGHT;
    }
    PlacingStr(s, n, bit);
    return false, bit, CmpBits(n.key.z, cur.key.z, bit) >= 0;
  }

  lemma LeafHasCode(e: Node, c: Code, bit: int)
    requires Offset(Leaf(e), c, bit) && bit < 0
    ensures e.code == c
  {
  }

  /** ebis_insert() */
  method InsertStr(tree: EbRoot, n: Node) returns (r: Node)
    requires tree.Valid() && AllStr(tree.T) && IsStr(n) && n !in tree.Repr()
    modifies tree`T, tree.Repr()`b, tree.Repr()`nodeP, tree.Repr()`leafP, n`b, n`nodeP, n`leafP, n`bit
    ensures tree.Valid() && AllStr(tree.T) && tree.root.b.r == old(tree.root.b.r)
    ensures if old(Refused(tree.Unique(), tree.T, n)) then
              && FirstWith(tree.Contents(), n.code) == Some(r)
              && tree.T == old(tree.T) && Snap(tree.Repr()) == old(Snap(tree.Repr())) && n.leafP == old(n.leafP)
            else r == n && WFInsert(old(tree.T), tree.T, n)
  {
    hide Rep, Radix, Shape, Links, BlockCode;
    if tree.root.b.l.Null? {
      InsertFirst(tree, n);
      r := n;
    } else {
      FullTree(tree);
      r := InsertStrBelowRoot(tree, n);
    }
  }

  method InsertStrBelowRoot(tree: EbRoot, n: Node) returns (r: Node)
    requires tree.Valid() && AllStr(tree.T) && IsStr(n) && n !in tree.Repr() && tree.T.Full?
    modifies tree`T, tree.Repr()`b, tree.Repr()`nodeP, tree.Repr()`leafP, n`b, n`nodeP, n`leafP, n`bit
    ensures tree.Valid() && AllStr(tree.T) && tree.root.b.r == old(tree.root.b.r)
    ensures if old(Refused(tree.Unique(), tree.T, n)) then
              && FirstWith(tree.Contents(), n.code) == Some(r)
              && tree.T == old(tree.T) && Snap(tree.Repr()) == old(Snap(tree.Repr())) && n.leafP == old(n.leafP)
            else r == n && WFInsert(old(tree.T), tree.T, n)
  {
    hide Rep, Radix, Shape, Links, BlockCode, Leaves, FirstWith, Insert, Ins, Placing, Route, Diff, LeafSet, RepTop, WF;
    ghost var t := tree.T.t;
    var at, side, troot, same, bit, right, path := DescendStr(tree, n);
    PlacingMeans(At(t, path), n, same, bit, right);
    if same && tree.Unique() {
      FoundUnique(t, path, n);
      return troot.n;
    }
    PlaceInTree(tree, at, side, troot, n, same, bit, right, path);
    r := n;
  }

  // ----- lookup

  /** Where the lookup of c stands: on its route, and the offset, which it bounds by
      the bits of the links passed, holds for every leaf below. */
  ghost predicate Seeking(t: Tree, path: Path, c: Code, bit: int) {
    ValidPath(t, path) && Route(t, path, c) && Bounded(At(t, path), c, bit)
  }

  ghost predicate Bounded(s: Tree, c: Code, bit: int) {
    if bit < 0 then exists e | e in LeafSet(s) :: e.code == c
    else forall e | e in LeafSet(s) :: bit < |e.code| && Agree(c, e.code, bit)
  }

  lemma SeekStart(t: Tree, x: Bytes)
    requires AllStr(Full(t)) && IsString(x)
    ensures Seeking(t, [], BlockCode(x), 0) && AllStr(Full(At(t, [])))
  {
    forall e | e in LeafSet(t)
      ensures 0 < |e.code|
    {
      assert e in Members(Full(t));
    }
  }

  lemma HeadIsString(s: Tree, x: Bytes)
    requires WF(s) && AllStr(Full(s)) && IsString(x)
    ensures IsStr(Head(s)) && (Head(s).code == BlockCode(x) <==> Head(s).key.z == x)
    ensures Comparable(BlockCode(x), Head(s).code)
  {
    HeadIsLeaf(s);
    assert Head(s) in Members(Full(s));
    StrComparable(x, Head(s).key.z);
  }

  /** A leaf, or a duplicate tree, has the key of its head and no other. */
  lemma EndFirst(s: Tree, c: Code)
    requires WF(s) && (s.Leaf? || s.bit < 0)
    ensures FirstWith(Leaves(s), c) == if Head(s).code == c then Some(First(s)) else None
  {
    HeadIsLeaf(s);
    assert AllCode(s, Head(s).code);
    AllCodeLeaves(s, Head(s).code);
    FirstLast(s);
    if Head(s).code != c {
      FirstWithNone(Leaves(s), c);
    }
  }

  lemma NotBelowStr(s: Tree, c: Code)
    requires WF(s) && s.Link? && s.bit >= 0 && Head(s).code != c && Comparable(c, Head(s).code)
    requires Diff(c, s.o.code) < Pos(s.o, s.bit)
    ensures FirstWith(Leaves(s), c).None?
  {
    HeadIsLeaf(s);
    StopAgrees(s, c);
    forall i | 0 <= i < |Leaves(s)|
      ensures Leaves(s)[i].code != c
    {
      LeafIndex(s, i);
    }
    FirstWithNone(Leaves(s), c);
  }

  /** One level down, once the link's bit is known to be reached. */
  lemma SeekDown(t: Tree, path: Path, c: Code, bit: int)
    requires WF(t) && Seeking(t, path, c, bit)
    requires var s := At(t, path);
             && s.Link? && s.bit >= 0 && !s.o.key.U32?
             && (bit >= 0 ==> bit == s.bit < |c| && Agree(c, s.o.code, s.bit))
    ensures var s := At(t, path); s.bit < |c| && Seeking(t, path + [c[s.bit]], c, bit)
  {
    var s := At(t, path);
    RadixAt(t, path);
    HeadIsLeaf(s);
    if bit < 0 {
      var e :| e in LeafSet(s) && e.code == c;
      assert e in LeafSet(s.Child(c[s.bit]));
    } else {
      AgreeBelow(s, c);
    }
    RouteDown(t, path, c);
    PathDown(t, NoParent, path, c[s.bit]);
  }

  lemma BoundedAt(s: Tree, c: Code, bit: int)
    requires WF(s) && Bounded(s, c, bit) && bit >= 0
    ensures bit < |Head(s).code| && Agree(c, Head(s).code, bit)
  {
    HeadIsLeaf(s);
  }

  /** ebis_lookup(): the first entity whose key is the string x, if any. */
  method LookupStr(tree: EbRoot, x: Bytes) returns (r: Node?)
    requires tree.Valid() && AllStr(tree.T) && IsString(x)
    ensures tree.Valid()
    ensures Opt(r) == FirstWith(tree.Contents(), BlockCode(x))
  {
    hide Rep, Radix, Shape, RepTop, Links, BlockCode, Route, Bounded, FirstWith, Leaves, Diff, EbRoot.Valid, NoDups, IsStr, AllStr;
    var troot := tree.root.b.l;
    if troot.Null? {
      EmptyTree(tree);
      NothingThere(BlockCode(x));
      return null;
    }
    FullTree(tree);
    ghost var t, m, c, path := tree.T.t, Snap(tree.Repr()), BlockCode(x), [];
    var bit := 0;
    SeekStart(t, x);
    while true
      invariant tree.Valid() && Seeking(t, path, c, bit) && AllStr(Full(At(t, path))) && troot == Ref(At(t, path))
      decreases At(t, path)
    {
      Reads(m, tree.root, t, path);
      RadixAt(t, path);
      ghost var s := At(t, path);
      RouteFirst(t, path, c);
      HeadIsString(s, x);
      var node := troot.n;
      if troot.LeafOf? || node.bit < 0 {
        EndFirst(s, c);
        if node.key.z != x {
          return null;
        }
        r := WalkDown(tree, troot, LEFT, path);
        return;
      }
      if bit >= 0 {
        BoundedAt(s, c, bit);
        bit := CompareHead(x, node, bit);
        if bit < node.bit {
          if bit >= 0 {
            NotBelowStr(s, c);
            return null;
          }
          if tree.Unique() {
            FoundOwner(s);
            return node;
          }
          OwnerBounds(s, bit);
        } else {
          bit := node.bit;
          ReachedBit(s, c);
        }
      }
      SeekDown(t, path, c, bit);
      StrBit(x, node.bit);
      var side := BitAt(x, node.bit);
      PathDown(t, NoParent, path, side);
      AllStrBelow(s, side);
      troot := node.b.At(side);
      path := path + [side];
    }
  }

  lemma NothingThere(c: Code)
    ensures FirstWith([], c) == None
  {
  }

  lemma FoundOwner(s: Tree)
    requires WF(s) && s.Link? && s.bit >= 0
    ensures FirstWith(Leaves(s), s.o.code) == Some(s.o)
  {
  }

  lemma OwnerBounds(s: Tree, bit: int)
    requires WF(s) && s.Link? && bit < 0
    ensures Bounded(s, s.o.code, bit)
  {
    HeadIsLeaf(s);
  }

  lemma ReachedBit(s: Tree, c: Code)
    requires WF(s) && s.Link? && s.bit >= 0 && !s.o.key.U32? && Head(s).code != c && Diff(c, s.o.code) >= s.bit
    requires Diff(c, s.o.code) < |c|
    ensures s.bit < |c| && Agree(c, s.o.code, s.bit) && Bounded(s, c, s.bit)
  {
    HeadIsLeaf(s);
    forall e | e in LeafSet(s)
      ensures s.bit < |e.code| && Agree(c, e.code, s.bit)
    {
      assert e in LeafSet(s.l) || e in LeafSet(s.r);
    }
  }

  lemma StrBit(x: Bytes, h: nat)
    requires IsString(x) && h < |BlockCode(x)|
    ensures h < 8 * |x| && BlockCode(x)[h] == BitAt(x, h)
  {
  }

  lemma AllStrBelow(s: Tree, side: bool)
    requires s.Link? && AllStr(Full(s))
    ensures AllStr(Full(s.Child(side)))
  {
    hide IsStr;
    assert Members(Full(s.Child(side))) <= Members(Full(s));
  }
}
