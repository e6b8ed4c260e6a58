/** Insertion, on trees: one function which every insertion of the library
    refines, whatever the kind of key. */
module EbInsert {
  import opened Options
  import opened Codes
  import opened EbNodes
  import opened EbTrees
  import opened EbLists
  import opened EbRadix

  // ----- duplicate trees

  /** Fills the deepest hole of the right spine of duplicate tree t, if any. */
  ghost function Fill(t: Tree, n: Node): Option<Tree>
    requires t.Link?
  {
    if t.r.Leaf? then
      if t.bit < -1 then Some(t.(r := Cap(t.r, n, -1, RIGHT))) else None
    else
      match Fill(t.r, n)
      case Some(u) => Some(t.(r := u))
      case None =>
        if t.r.bit > t.bit + 1 then Some(t.(r := Cap(t.r, n, t.r.bit - 1, RIGHT))) else None
  }

  ghost function InsertDup(t: Tree, n: Node): Tree
    requires t.Link?
  {
    match Fill(t, n)
    case Some(u) => u
    case None => Cap(t, n, t.bit - 1, RIGHT)
  }

  /** u is duplicate tree t with new as its last leaf. */
  ghost predicate Appended(t: Tree, u: Tree, n: Node) {
    && WF(u) && u.Link? && u.bit < 0 && u.o.code == n.code
    && Leaves(u) == Leaves(t) + [n] && LeafSet(u) == LeafSet(t) + {n}
    && Links(u) == Links(t) + {n}
  }

  lemma CapDup(t: Tree, n: Node, bit: int)
    requires WF(t) && (t.Leaf? || bit < t.bit < 0) && bit < 0 && n !in LeafSet(t)
    requires AllCode(t, n.code) && SameKind(t, n)
    ensures Appended(t, Link(n, bit, t, Leaf(n)), n)
  {
    var u := Link(n, bit, t, Leaf(n));
    LinksAreLeaves(t);
    assert Shape(u);
    assert Radix(Leaf(n)) && SameKind(u, n) && DupLink(u);
    assert Radix(u);
  }

  lemma DupAllCode(t: Tree, n: Node)
    requires WF(t) && t.Link? && t.bit < 0 && t.o.code == n.code
    ensures AllCode(t.l, n.code) && AllCode(t.r, n.code) && First(t.r) == t.o
  {
  }

  lemma {:induction false} FillAppends(t: Tree, n: Node)
    requires WF(t) && t.Link? && t.bit < 0 && n !in LeafSet(t)
    requires t.o.code == n.code && SameKind(t, n)
    ensures match Fill(t, n)
            case Some(u) => Appended(t, u, n) && u.o == t.o && u.bit == t.bit
            case None => true
  {
    if Fill(t, n).Some? {
      var u := Fill(t, n).value;
      DupAllCode(t, n);
      if t.r.Leaf? {
        CapDup(t.r, n, -1);
      } else if Fill(t.r, n).Some? {
        HeadIsLeaf(t.r);
        FillAppends(t.r, n);
      } else {
        CapDup(t.r, n, t.r.bit - 1);
      }
      assert Appended(t.r, u.r, n);
      GrowRight(t, u, n);
    }
  }

  lemma GrowRight(t: Tree, u: Tree, n: Node)
    requires WF(t) && t.Link? && t.bit < 0 && n !in LeafSet(t)
    requires t.o.code == n.code && SameKind(t, n)
    requires u.Link? && u == t.(r := u.r) && Appended(t.r, u.r, n) && t.bit < u.r.bit
    ensures Appended(t, u, n)
  {
    FirstLast(t.r);
    FirstLast(u.r);
    LinksAreLeaves(t);
    assert Leaves(u) == Leaves(t) + [n];
    assert LeafSet(u) == LeafSet(t) + {n};
  }

  lemma InsertDupAppends(t: Tree, n: Node)
    requires WF(t) && t.Link? && t.bit < 0 && n !in LeafSet(t)
    requires t.o.code == n.code && SameKind(t, n)
    ensures Appended(t, InsertDup(t, n), n)
  {
    FillAppends(t, n);
    if Fill(t, n).None? {
      CapDup(t, n, t.bit - 1);
    }
  }

  // ----- insertion by key

  /** new above t, which it leaves at position pos of its code. */
  ghost function Above(t: Tree, n: Node, pos: nat): Tree
    requires pos < |n.code|
  {
    Cap(t, n, BitOf(n, pos), n.code[pos])
  }

  /** What insertion asks of a new entity. */
  ghost predicate Insertable(t: Tree, n: Node) {
    && n !in LeafSet(t) && SameKind(t, n)
    && (n.key.U32? ==> |n.code| == 32)
    && forall e | e in LeafSet(t) :: Comparable(n.code, e.code)
  }

  /** The entity at the top of t, as the descent sees it. */
  ghost function Head(t: Tree): Node {
    if t.Leaf? then t.e else t.o
  }

  lemma HeadInside(t: Tree)
    ensures t.Leaf? ==> Head(t) in LeafSet(t)
    ensures t.Link? ==> Head(t) in Links(t)
  {
  }

  /** The descent stops above t: at a leaf, above a duplicate tree, or when the
      key no longer shares the bits above the link. */
  ghost predicate Stops(t: Tree, c: Code) {
    t.Leaf? || t.bit < 0 || Diff(c, t.o.code) < Pos(t.o, t.bit)
  }

  ghost function Insert(t: Tree, n: Node): Tree
    requires WF(t) && Insertable(t, n)
    decreases t
  {
    HeadIsLeaf(t);
    if Stops(t, n.code) then
      if Head(t).code != n.code then Above(t, n, Diff(n.code, Head(t).code))
      else if t.Leaf? then Cap(t, n, -1, RIGHT)
      else InsertDup(t, n)
    else
      assert Pos(t.o, t.bit) < |n.code|;
      if n.code[Pos(t.o, t.bit)] then t.(r := Insert(t.r, n)) else t.(l := Insert(t.l, n))
  }

  ghost function InsertTop(tt: Top, n: Node): Top
    requires WFTop(tt) && (tt.Full? ==> Insertable(tt.t, n))
  {
    if tt.Empty? then Full(Leaf(n)) else Full(Insert(tt.t, n))
  }

  lemma HeadIsLeaf(t: Tree)
    requires WF(t)
    ensures Head(t) in LeafSet(t)
    ensures t.Link? && t.bit >= 0 ==> 0 <= Pos(t.o, t.bit) < |t.o.code|
  {
    if t.Link? && t.bit >= 0 {
      assert t.o in LeafSet(t.l) || t.o in LeafSet(t.r);
    }
  }

  /** Every leaf below a stopping point shares the head's bits up to the branching. */
  lemma StopAgrees(t: Tree, c: Code)
    requires WF(t) && Stops(t, c) && Comparable(c, Head(t).code) && Head(t).code != c
    ensures SplitsAt(t, c, Diff(c, Head(t).code))
  {
    HeadIsLeaf(t);
    var d := Diff(c, Head(t).code);
    forall e | e in LeafSet(t)
      ensures d < |e.code| && Agree(e.code, c, d) && e.code[d] != c[d]
    {
      if t.Link? && t.bit >= 0 {
        assert e in LeafSet(t.l) || e in LeafSet(t.r);
        assert Agree(e.code, t.o.code, Pos(t.o, t.bit));
      }
    }
  }

  /** u is t with new inserted in order. */
  ghost predicate Inserted(t: Tree, u: Tree, n: Node) {
    && WF(u) && u.Link?
    && Leaves(u) == Ins(Leaves(t), n) && LeafSet(u) == LeafSet(t) + {n}
    && Links(u) == Links(t) + {n}
  }

  /** Every leaf of t agrees with c on d bits and then differs. */
  ghost predicate SplitsAt(t: Tree, c: Code, d: nat) {
    d < |c| && forall e | e in LeafSet(t) :: d < |e.code| && Agree(e.code, c, d) && e.code[d] != c[d]
  }

  lemma AboveLeaves(t: Tree, n: Node, d: nat)
    requires SplitsAt(t, n.code, d)
    ensures Leaves(Above(t, n, d)) == Ins(Leaves(t), n)
    ensures FirstWith(Leaves(Above(t, n, d)), n.code) == Some(n)
  {
    forall i | 0 <= i < |Leaves(t)|
      ensures Leaves(t)[i].code != n.code
      ensures Before(n.code, Leaves(t)[i].code) == !n.code[d]
    {
      LeafIndex(t, i);
      DiffIs(n.code, Leaves(t)[i].code, d);
    }
    if n.code[d] {
      InsLast(Leaves(t), n);
      FirstWithNone(Leaves(t), n.code);
      FirstWithConcat(Leaves(t), [n], n.code);
    } else {
      assert Ins(Leaves(t), n) == [n] + Leaves(t);
    }
  }

  lemma AboveLink(t: Tree, n: Node, d: nat)
    requires WF(t) && Insertable(t, n) && SplitsAt(t, n.code, d)
    ensures RadixLink(Above(t, n, d))
  {
    AboveLeaves(t, n, d);
    assert Under(Leaf(n), n.code, d, n.code[d]);
    assert Under(t, n.code, d, !n.code[d]);
  }

  lemma AboveInserts(t: Tree, n: Node, d: nat)
    requires WF(t) && Insertable(t, n) && SplitsAt(t, n.code, d)
    ensures Inserted(t, Above(t, n, d), n)
  {
    var u := Above(t, n, d);
    LinksAreLeaves(t);
    AboveLeaves(t, n, d);
    AboveLink(t, n, d);
    assert Links(Leaf(n)) == {} && LeafSet(Leaf(n)) == {n};
    assert Shape(u);
    assert Radix(Leaf(n)) && SameKind(u, n);
    assert Radix(u);
  }

  lemma AppendIsInsert(t: Tree, u: Tree, n: Node)
    requires AllCode(t, n.code) && Appended(t, u, n)
    ensures Inserted(t, u, n)
  {
    AllCodeLeaves(t, n.code);
    DiffSame(n.code);
    InsLast(Leaves(t), n);
  }

  lemma StopInserts(t: Tree, n: Node)
    requires WF(t) && Insertable(t, n) && Stops(t, n.code)
    ensures Inserted(t, Insert(t, n), n)
  {
    HeadIsLeaf(t);
    if Head(t).code != n.code {
      StopAgrees(t, n.code);
      AboveInserts(t, n, Diff(n.code, Head(t).code));
    } else if t.Leaf? {
      CapDup(t, n, -1);
      AppendIsInsert(t, Insert(t, n), n);
    } else {
      StopSameIsDup(t, n.code);
      InsertDupAppends(t, n);
      AppendIsInsert(t, InsertDup(t, n), n);
    }
  }

  lemma StopSameIsDup(t: Tree, c: Code)
    requires WF(t) && t.Link? && Stops(t, c) && t.o.code == c
    ensures t.bit < 0
  {
    HeadIsLeaf(t);
    DiffSame(c);
  }

  /** The side the descent takes below a link it does not stop at. */
  lemma DescentSide(t: Tree, n: Node)
    requires WF(t) && Insertable(t, n) && !Stops(t, n.code)
    ensures var p := Pos(t.o, t.bit);
            && 0 <= p < |n.code| && Agree(n.code, t.o.code, p)
            && Insertable(t.Child(n.code[p]), n)
  {
    HeadIsLeaf(t);
    DiffSame(n.code);
  }

  lemma {:induction false} InsertInserts(t: Tree, n: Node)
    requires WF(t) && Insertable(t, n)
    ensures Inserted(t, Insert(t, n), n)
    decreases t
  {
    if Stops(t, n.code) {
      StopInserts(t, n);
    } else {
      DescentSide(t, n);
      var side := n.code[Pos(t.o, t.bit)];
      InsertInserts(t.Child(side), n);
      GrowChild(t, side, Insert(t.Child(side), n), n);
    }
  }

  lemma GrowLeaves(t: Tree, side: bool, c: Tree, n: Node)
    requires t.Link? && RadixLink(t) && Inserted(t.Child(side), c, n)
    requires var p := Pos(t.o, t.bit); p < |n.code| && Agree(n.code, t.o.code, p) && n.code[p] == side
    ensures Leaves(if side then t.(r := c) else t.(l := c)) == Ins(Leaves(t), n)
  {
    var p := Pos(t.o, t.bit);
    LeavesSide(t);
    if side {
      forall i | 0 <= i < |Leaves(t.l)|
        ensures !Before(n.code, Leaves(t.l)[i].code)
      {
        BeforeIs(Leaves(t.l)[i].code, n.code, p);
      }
      InsRight(Leaves(t.l), Leaves(t.r), n);
    } else {
      BeforeIs(n.code, Leaves(t.r)[0].code, p);
      InsLeft(Leaves(t.l), Leaves(t.r), n);
    }
  }

  lemma GrowSets(t: Tree, side: bool, c: Tree, n: Node)
    requires Shape(t) && t.Link? && n !in LeafSet(t) && Inserted(t.Child(side), c, n)
    ensures var u := if side then t.(r := c) else t.(l := c);
            Shape(u) && LeafSet(u) == LeafSet(t) + {n} && Links(u) == Links(t) + {n}
  {
    LinksAreLeaves(t);
    if side {
      assert LeafSet(t.l) !! LeafSet(c);
    } else {
      assert LeafSet(c) !! LeafSet(t.r);
    }
  }

  lemma GrowLink(t: Tree, side: bool, c: Tree, n: Node)
    requires WF(t) && Insertable(t, n) && t.Link? && t.bit >= 0 && Inserted(t.Child(side), c, n)
    requires var p := Pos(t.o, t.bit); 0 <= p < |n.code| && Agree(n.code, t.o.code, p) && n.code[p] == side
    ensures RadixLink(if side then t.(r := c) else t.(l := c))
  {
    GrowLeaves(t, side, c, n);
    RadixSorted(t);
    FirstWithIns(Leaves(t), n, t.o.code);
    if side {
      assert Under(c, t.o.code, Pos(t.o, t.bit), RIGHT);
    } else {
      assert Under(c, t.o.code, Pos(t.o, t.bit), LEFT);
    }
  }

  lemma GrowChild(t: Tree, side: bool, c: Tree, n: Node)
    requires WF(t) && Insertable(t, n) && t.Link? && t.bit >= 0 && Inserted(t.Child(side), c, n)
    requires var p := Pos(t.o, t.bit); 0 <= p < |n.code| && Agree(n.code, t.o.code, p) && n.code[p] == side
    ensures Inserted(t, if side then t.(r := c) else t.(l := c), n)
  {
    GrowSets(t, side, c, n);
    GrowLeaves(t, side, c, n);
    GrowLink(t, side, c, n);
    HeadIsLeaf(t);
  }

  /** Insertion is refused in a tree of unique keys which has this one. */
  ghost predicate Refused(unique: bool, tt: Top, n: Node) {
    unique && FirstWith(Entities(tt), n.code).Some?
  }

  /** tt' is tt after n was inserted. */
  ghost predicate WFInsert(tt: Top, tt': Top, n: Node) {
    && WFTop(tt) && (tt.Full? ==> Insertable(tt.t, n))
    && tt' == InsertTop(tt, n)
  }

  /** Insertion keeps every invariant and refines stable insertion into a list. */
  lemma InsertCorrect(tt: Top, n: Node)
    requires WFTop(tt) && (tt.Full? ==> Insertable(tt.t, n))
    ensures WFTop(InsertTop(tt, n)) && Entities(InsertTop(tt, n)) == Ins(Entities(tt), n)
    ensures LeafSet(InsertTop(tt, n).t) == (if tt.Full? then LeafSet(tt.t) else {}) + {n}
    ensures FirstWith(Entities(tt), n.code).None? && (tt.Full? ==> NoDups(tt.t)) ==> NoDups(InsertTop(tt, n).t)
  {
    if tt.Full? {
      InsertInserts(tt.t, n);
      if FirstWith(Entities(tt), n.code).None? && NoDups(tt.t) {
        FirstWithNone(Leaves(tt.t), n.code);
        LeavesAreLeafSet(tt.t);
        forall e | e in LeafSet(tt.t)
          ensures e.code != n.code
        {
          assert e in Leaves(tt.t);
        }
        InsertKeepsNoDups(tt.t, n);
      }
    }
  }

  // ----- the descent, level by level

  /** The descent for n has reached path. */
  ghost predicate Descending(t: Tree, path: Path, n: Node) {
    && WF(t) && Insertable(t, n) && ValidPath(t, path) && Route(t, path, n.code)
    && WF(At(t, path)) && Insertable(At(t, path), n)
  }

  /** Insertion then happens below path. */
  lemma {:induction false} InsertBelow(t: Tree, path: Path, n: Node)
    requires Descending(t, path, n)
    ensures Insert(t, n) == Put(t, path, Insert(At(t, path), n))
  {
    if path != [] {
      HeadIsLeaf(t);
      DiffAtLeast(n.code, t.o.code, Pos(t.o, t.bit));
      DescentSide(t, n);
      InsertBelow(t.Child(path[0]), path[1..], n);
    }
  }

  lemma {:induction false} PutChild(t: Tree, path: Path, side: bool, u: Tree)
    requires ValidPath(t, path) && At(t, path).Link?
    ensures ValidPath(t, path + [side])
    ensures var s := At(t, path); Put(t, path, if side then s.(r := u) else s.(l := u)) == Put(t, path + [side], u)
  {
    if path == [] {
      assert (path + [side])[1..] == [];
    } else {
      assert (path + [side])[1..] == path[1..] + [side];
      PutChild(t.Child(path[0]), path[1..], side, u);
    }
  }

  lemma DescendingStart(t: Tree, n: Node)
    requires WF(t) && Insertable(t, n)
    ensures Descending(t, [], n)
  {
  }

  lemma DescendingStep(t: Tree, path: Path, n: Node)
    requires Descending(t, path, n) && !Stops(At(t, path), n.code)
    ensures var s := At(t, path);
            && s.Link? && s.bit >= 0 && 0 <= Pos(s.o, s.bit) < |n.code|
            && ValidPath(t, path + [n.code[Pos(s.o, s.bit)]])
            && At(t, path + [n.code[Pos(s.o, s.bit)]]) == s.Child(n.code[Pos(s.o, s.bit)])
            && Descending(t, path + [n.code[Pos(s.o, s.bit)]], n)
  {
    var s := At(t, path);
    DescentSide(s, n);
    var side := n.code[Pos(s.o, s.bit)];
    PathDown(t, NoParent, path, side);
    RouteDown(t, path, n.code);
  }

  // ----- trees with unique keys

  ghost predicate NoDups(t: Tree) {
    t.Leaf? || (t.bit >= 0 && NoDups(t.l) && NoDups(t.r))
  }

  /** In a tree without duplicates every entity is the first of its key. */
  lemma {:induction false} UniqueIsFirst(t: Tree, e: Node)
    requires WF(t) && NoDups(t) && e in LeafSet(t)
    ensures FirstWith(Leaves(t), e.code) == Some(e)
  {
    if t.Link? {
      FirstWithConcat(Leaves(t.l), Leaves(t.r), e.code);
      if e in LeafSet(t.l) {
        UniqueIsFirst(t.l, e);
      } else {
        UniqueIsFirst(t.r, e);
        forall i | 0 <= i < |Leaves(t.l)|
          ensures Leaves(t.l)[i].code != e.code
        {
          LeafIndex(t.l, i);
          SidesOrdered(t, Leaves(t.l)[i], e);
        }
        FirstWithNone(Leaves(t.l), e.code);
      }
    }
  }

  lemma {:induction false} NoDupsAt(t: Tree, path: Path)
    requires NoDups(t) && ValidPath(t, path)
    ensures NoDups(At(t, path))
  {
    if path != [] {
      NoDupsAt(t.Child(path[0]), path[1..]);
    }
  }

  /** Inserting a new key creates no duplicates. */
  lemma {:induction false} InsertKeepsNoDups(t: Tree, n: Node)
    requires WF(t) && Insertable(t, n) && NoDups(t)
    requires forall e | e in LeafSet(t) :: e.code != n.code
    ensures NoDups(Insert(t, n))
    decreases t
  {
    HeadIsLeaf(t);
    if !Stops(t, n.code) {
      DescentSide(t, n);
      InsertKeepsNoDups(t.Child(n.code[Pos(t.o, t.bit)]), n);
    }
  }
}
