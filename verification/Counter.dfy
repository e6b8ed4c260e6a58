/** The right spine of a duplicate tree is a binary counter: a link of bit -n on
    it stands for 2^(n-1). */
module EbCounter {
  import opened Codes
  import opened Bits
  import opened EbNodes
  import opened EbTrees
  import opened EbRadix
  import opened EbInsert
  import opened EbDelete

  ghost function Weight(bit: int): nat
    requires bit < 0
  {
    Pow2(-bit - 1)
  }

  /** All links of t are duplicate links whose bits increase downwards. */
  ghost predicate DupBits(t: Tree) {
    t.Link? ==>
      && t.bit < 0 && DupBits(t.l) && DupBits(t.r)
      && (t.l.Link? ==> t.bit < t.l.bit) && (t.r.Link? ==> t.bit < t.r.bit)
  }

  ghost function Counter(t: Tree): nat
    requires DupBits(t)
  {
    if t.Leaf? then 0 else Weight(t.bit) + Counter(t.r)
  }

  ghost function Depth(t: Tree): nat {
    if t.Leaf? then 0 else 1 + (if Depth(t.l) > Depth(t.r) then Depth(t.l) else Depth(t.r))
  }

  lemma {:induction false} DupTreeBits(t: Tree)
    requires WF(t) && (t.Link? ==> t.bit < 0)
    ensures DupBits(t)
  {
    if t.Link? {
      DupTreeBits(t.l);
      DupTreeBits(t.r);
    }
  }

  lemma {:induction false} WeightGrows(a: int, b: int)
    requires a < b < 0
    ensures Weight(a) >= 2 * Weight(b)
    decreases b - a
  {
    assert Weight(a) == 2 * Weight(a + 1);
    if a + 1 < b {
      WeightGrows(a + 1, b);
    }
  }

  lemma {:induction false} CounterBound(t: Tree)
    requires DupBits(t) && t.Link?
    ensures Weight(t.bit) <= Counter(t) < 2 * Weight(t.bit)
  {
    if t.r.Link? {
      CounterBound(t.r);
      WeightGrows(t.bit, t.r.bit);
    }
  }

  // ----- insertion adds exactly one

  lemma CapCounts(t: Tree, n: Node, bit: int)
    requires DupBits(t) && bit < 0 && (t.Link? ==> bit < t.bit)
    ensures DupBits(Cap(t, n, bit, RIGHT)) && Counter(Cap(t, n, bit, RIGHT)) == Weight(bit)
  {
    assert Counter(Leaf(n)) == 0;
  }

  lemma {:induction false} FillCounts(t: Tree, n: Node)
    requires DupBits(t) && t.Link?
    ensures match Fill(t, n)
            case Some(u) => DupBits(u) && u.Link? && u.bit == t.bit && Counter(u) == Counter(t) + 1
            case None => Counter(t) + 1 == 2 * Weight(t.bit)
  {
    if t.r.Link? {
      FillCounts(t.r, n);
      CapCounts(t.r, n, t.r.bit - 1);
      assert 2 * Weight(t.r.bit) == Weight(t.r.bit - 1);
    } else {
      CapCounts(t.r, n, -1);
    }
  }

  lemma InsertDupCounts(t: Tree, n: Node)
    requires DupBits(t) && t.Link?
    ensures DupBits(InsertDup(t, n)) && Counter(InsertDup(t, n)) == Counter(t) + 1
  {
    FillCounts(t, n);
    CapCounts(t, n, t.bit - 1);
    assert 2 * Weight(t.bit) == Weight(t.bit - 1);
  }

  // ----- deletion never adds

  lemma {:induction false} DelCounts(t: Tree, e: Node, q: Node)
    requires DupBits(t) && t.Link? && e in LeafSet(t)
    ensures var u := Del(t, e, q);
            DupBits(u) && (u.Link? ==> t.bit <= u.bit) && Counter(u) <= Counter(t)
  {
    if t.l == Leaf(e) {
    } else if t.r == Leaf(e) {
      if t.l.Link? {
        CounterBound(t.l);
        WeightGrows(t.bit, t.l.bit);
      }
    } else if e in LeafSet(t.l) {
      DelCounts(t.l, e, q);
    } else {
      DelCounts(t.r, e, q);
    }
  }

  // ----- size and depth

  lemma {:induction false} DupSize(t: Tree)
    requires DupBits(t) && t.Link?
    ensures |Leaves(t)| <= 2 * Weight(t.bit) && Depth(t) <= -t.bit
  {
    if t.l.Link? {
      DupSize(t.l);
      WeightGrows(t.bit, t.l.bit);
    }
    if t.r.Link? {
      DupSize(t.r);
      WeightGrows(t.bit, t.r.bit);
    }
  }

  /** A duplicate tree never holds more entities than its counter says. */
  lemma {:induction false} CountersCover(t: Tree)
    requires DupBits(t)
    ensures |Leaves(t)| <= Counter(t) + 1
  {
    if t.Link? {
      CountersCover(t.r);
      if t.l.Link? {
        DupSize(t.l);
        WeightGrows(t.bit, t.l.bit);
      }
    }
  }

  // ----- the counter of a key in a whole tree

  ghost function KeyCounter(t: Tree, c: Code): nat
    requires WF(t)
  {
    DupTreeBitsIf(t);
    if t.Leaf? then 0
    else if t.bit < 0 then (if t.o.code == c then Counter(t) else 0)
    else KeyCounter(t.l, c) + KeyCounter(t.r, c)
  }

  lemma DupTreeBitsIf(t: Tree)
    requires WF(t)
    ensures t.Link? && t.bit < 0 ==> DupBits(t)
  {
    if t.Link? && t.bit < 0 {
      DupTreeBits(t);
    }
  }

  lemma {:induction false} NoKeyNoCounter(t: Tree, c: Code)
    requires WF(t) && forall e | e in LeafSet(t) :: e.code != c
    ensures KeyCounter(t, c) == 0
  {
    HeadIsLeaf(t);
    if t.Link? && t.bit >= 0 {
      NoKeyNoCounter(t.l, c);
      NoKeyNoCounter(t.r, c);
    }
  }

  ghost predicate HasKey(t: Tree, c: Code) {
    exists e | e in LeafSet(t) :: e.code == c
  }

  lemma AboveKeyCounts(t: Tree, n: Node, c: Code)
    requires WF(t) && Insertable(t, n) && Stops(t, n.code) && Head(t).code != n.code
    ensures WF(Insert(t, n)) && KeyCounter(Insert(t, n), c) == KeyCounter(t, c) && !HasKey(t, n.code)
  {
    HeadIsLeaf(t);
    StopAgrees(t, n.code);
    StopInserts(t, n);
    assert WF(Leaf(n)) && KeyCounter(Leaf(n), c) == 0;
  }

  lemma DupKeyCounts(t: Tree, n: Node, c: Code)
    requires WF(t) && Insertable(t, n) && Stops(t, n.code) && Head(t).code == n.code
    ensures WF(Insert(t, n)) && KeyCounter(Insert(t, n), c) == KeyCounter(t, c) + if c == n.code then 1 else 0
    ensures HasKey(t, n.code)
  {
    HeadIsLeaf(t);
    StopInserts(t, n);
    if t.Link? {
      StopSameIsDup(t, n.code);
      DupTreeBits(t);
      InsertDupCounts(t, n);
      InsertDupAppends(t, n);
    } else {
      CapCounts(t, n, -1);
    }
    DupTreeBitsIf(Insert(t, n));
    HeadIsLeaf(Insert(t, n));
  }

  /** Each insertion of a key which is already there adds exactly one. */
  lemma {:induction false} InsertKeyCounts(t: Tree, n: Node, c: Code)
    requires WF(t) && Insertable(t, n)
    ensures WF(Insert(t, n))
    ensures KeyCounter(Insert(t, n), c) == KeyCounter(t, c) + if c == n.code && HasKey(t, c) then 1 else 0
    decreases t
  {
    if Stops(t, n.code) {
      if Head(t).code != n.code {
        AboveKeyCounts(t, n, c);
      } else {
        DupKeyCounts(t, n, c);
      }
    } else {
      DescentSide(t, n);
      var side := n.code[Pos(t.o, t.bit)];
      InsertKeyCounts(t.Child(side), n, c);
      KeyBelow(t, n.code, side);
      InsertInserts(t, n);
    }
  }

  lemma KeyBelow(t: Tree, c: Code, side: bool)
    requires WF(t) && t.Link? && t.bit >= 0 && Pos(t.o, t.bit) < |c| && c[Pos(t.o, t.bit)] == side
    ensures HasKey(t, c) <==> HasKey(t.Child(side), c)
  {
    if HasKey(t, c) {
      var e :| e in LeafSet(t) && e.code == c;
      assert e in LeafSet(t.Child(side));
    }
  }

  lemma {:induction false} DeleteKeyCounts(t: Tree, e: Node, c: Code)
    requires WF(t) && t.Link? && e in LeafSet(t)
    ensures WF(Del(t, e, ParentOwner(t, e)))
    ensures KeyCounter(Del(t, e, ParentOwner(t, e)), c) <= KeyCounter(t, c)
  {
    var q := ParentOwner(t, e);
    DelRadix(t, e);
    DupTreeBitsIf(t);
    if t.bit < 0 {
      DelCounts(t, e, q);
      DelLeaves(t, e, q);
      HeadIsLeaf(Del(t, e, q));
      HeadIsLeaf(t);
      DupTreeBitsIf(Del(t, e, q));
    } else if t.l == Leaf(e) || t.r == Leaf(e) {
    } else if e in LeafSet(t.l) {
      DeleteKeyCounts(t.l, e, c);
    } else {
      DeleteKeyCounts(t.r, e, c);
    }
  }

  /** Every link of a duplicate tree is accounted for by the counter of its key. */
  lemma {:induction false} BitWithinCounter(t: Tree, path: Path)
    requires WF(t) && ValidPath(t, path) && At(t, path).Link? && At(t, path).bit < 0
    ensures Weight(At(t, path).bit) <= KeyCounter(t, At(t, path).o.code)
  {
    if t.bit < 0 {
      DupTreeBits(t);
      BitAtLeast(t, path);
      CounterBound(t);
      RadixAt(t, path);
      SetsAt(t, path);
      HeadIsLeaf(At(t, path));
      if t.bit < At(t, path).bit {
        WeightGrows(t.bit, At(t, path).bit);
      }
    } else {
      BitWithinCounter(t.Child(path[0]), path[1..]);
    }
  }

  lemma {:induction false} BitAtLeast(t: Tree, path: Path)
    requires DupBits(t) && ValidPath(t, path) && At(t, path).Link?
    ensures t.bit <= At(t, path).bit < 0
  {
    if path != [] {
      BitAtLeast(t.Child(path[0]), path[1..]);
    }
  }
}
