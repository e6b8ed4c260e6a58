/** Deletion of a leaf, on trees: the parent link goes with the leaf, and takes
    over the link of the deleted entity when that one is in use elsewhere. */
module EbDelete {
  import opened Options
  import opened Codes
  import opened EbNodes
  import opened EbTrees
  import opened EbLists
  import opened EbRadix

  /** The owner of the link right above the leaf of e. */
  ghost function ParentOwner(t: Tree, e: Node): Node
    requires t.Link? && e in LeafSet(t)
  {
    if t.l == Leaf(e) || t.r == Leaf(e) then t.o
    else if e in LeafSet(t.l) then ParentOwner(t.l, e)
    else assert e in LeafSet(t.r); ParentOwner(t.r, e)
  }

  /** The tree without the leaf of e and its parent, with q owning e's link. */
  ghost function Del(t: Tree, e: Node, q: Node): Tree
    requires t.Link? && e in LeafSet(t)
  {
    if t.l == Leaf(e) then t.r
    else if t.r == Leaf(e) then t.l
    else
      var o := if t.o == e then q else t.o;
      if e in LeafSet(t.l) then Link(o, t.bit, Del(t.l, e, q), t.r)
      else assert e in LeafSet(t.r); Link(o, t.bit, t.l, Del(t.r, e, q))
  }

  ghost function Deleted(tt: Top, e: Node): Top
    requires tt.Full? && e in LeafSet(tt.t)
  {
    if tt.t.Leaf? then Empty else Full(Del(tt.t, e, ParentOwner(tt.t, e)))
  }

  lemma InLeaves(t: Tree, e: Node)
    ensures e in Leaves(t) <==> e in LeafSet(t)
  {
    LeavesAreLeafSet(t);
    if e in Leaves(t) {
      assert e in (set x | x in Leaves(t));
    }
  }

  lemma {:induction false} DelLeaves(t: Tree, e: Node, q: Node)
    requires t.Link? && e in LeafSet(t) && Shape(t)
    ensures Leaves(Del(t, e, q)) == Remove(Leaves(t), e)
    ensures LeafSet(Del(t, e, q)) == LeafSet(t) - {e}
  {
    InLeaves(t.l, e);
    RemoveConcat(Leaves(t.l), Leaves(t.r), e);
    if t.l == Leaf(e) {
    } else if t.r == Leaf(e) {
    } else if e in LeafSet(t.l) {
      DelLeaves(t.l, e, q);
    } else {
      DelLeaves(t.r, e, q);
    }
  }

  lemma {:induction false} ParentOwnerIs(t: Tree, e: Node)
    requires t.Link? && e in LeafSet(t) && Shape(t)
    ensures ParentOwner(t, e) in Links(t) && ParentOwner(t, e) in LeafSet(t)
  {
    if t.l == Leaf(e) || t.r == Leaf(e) {
    } else if e in LeafSet(t.l) {
      ParentOwnerIs(t.l, e);
    } else {
      ParentOwnerIs(t.r, e);
    }
  }

  /** One link part is released: the parent's, or else the deleted entity's own. */
  lemma {:induction false} DelLinks(t: Tree, e: Node)
    requires t.Link? && e in LeafSet(t) && Shape(t)
    ensures var q := ParentOwner(t, e);
            Links(Del(t, e, q)) == Links(t) - {if e in Links(t) then e else q}
  {
    LinksAreLeaves(t.l);
    LinksAreLeaves(t.r);
    if t.l == Leaf(e) || t.r == Leaf(e) {
    } else if e in LeafSet(t.l) {
      DelLinks(t.l, e);
      ParentOwnerIs(t.l, e);
    } else {
      DelLinks(t.r, e);
      ParentOwnerIs(t.r, e);
    }
  }

  lemma {:induction false} DelShape(t: Tree, e: Node)
    requires t.Link? && e in LeafSet(t) && Shape(t)
    ensures Shape(Del(t, e, ParentOwner(t, e)))
  {
    LinksAreLeaves(t.l);
    LinksAreLeaves(t.r);
    var q := ParentOwner(t, e);
    if t.l == Leaf(e) || t.r == Leaf(e) {
    } else if e in LeafSet(t.l) {
      DelShape(t.l, e);
      DelLeaves(t.l, e, q);
      DelLinks(t.l, e);
      ParentOwnerIs(t.l, e);
    } else {
      DelShape(t.r, e);
      DelLeaves(t.r, e, q);
      DelLinks(t.r, e);
      ParentOwnerIs(t.r, e);
    }
  }

  /** Why the parent's link may take over: when e comes first among the leaves of
      its key, then without e the owner of its parent comes first among its own. */
  lemma {:induction false} HeirComesFirst(t: Tree, e: Node)
    requires t.Link? && e in LeafSet(t) && WF(t) && ParentOwner(t, e) != e
    requires FirstWith(Leaves(t), e.code) == Some(e)
    ensures var q := ParentOwner(t, e); FirstWith(Remove(Leaves(t), e), q.code) == Some(q)
  {
    var q := ParentOwner(t, e);
    InLeaves(t.l, e);
    RemoveConcat(Leaves(t.l), Leaves(t.r), e);
    FirstWithConcat(Leaves(t.l), Leaves(t.r), e.code);
    if t.l == Leaf(e) || t.r == Leaf(e) {
      if t.bit < 0 {
        FirstLast(t.r);
      } else {
        FirstWithRemove(Leaves(t), e, q.code);
      }
    } else if e in LeafSet(t.l) {
      FirstWithNone(Leaves(t.l), e.code);
      HeirComesFirst(t.l, e);
      FirstWithConcat(Remove(Leaves(t.l), e), Leaves(t.r), q.code);
    } else {
      if FirstWith(Leaves(t.l), e.code).Some? {
        FirstWithIn(Leaves(t.l), e.code);
      }
      HeirComesFirst(t.r, e);
      ParentOwnerIs(t.r, e);
      LeftHasNone(t, e, q);
      FirstWithNone(Leaves(t.l), q.code);
      FirstWithConcat(Leaves(t.l), Remove(Leaves(t.r), e), q.code);
    }
  }

  /** No leaf on the left carries the key of a leaf q on the right, provided
      none carries the key of e on the right either. */
  lemma LeftHasNone(t: Tree, e: Node, q: Node)
    requires WF(t) && t.Link? && e in LeafSet(t.r) && q in LeafSet(t.r)
    requires FirstWith(Leaves(t.l), e.code).None?
    ensures NoneWith(Leaves(t.l), q.code)
  {
    FirstWithNone(Leaves(t.l), e.code);
    forall i | 0 <= i < |Leaves(t.l)|
      ensures Leaves(t.l)[i].code != q.code
    {
      LeafIndex(t.l, i);
      if t.bit >= 0 {
        SidesOrdered(t, Leaves(t.l)[i], q);
      }
    }
  }

  lemma {:induction false} DelBits(t: Tree, e: Node, q: Node)
    requires t.Link? && e in LeafSet(t) && Radix(t) && t.bit < 0
    ensures var u := Del(t, e, q); u.Link? ==> t.bit <= u.bit < 0
  {
  }

  /** The heir of e's duplicate link is the new first leaf on its right. */
  lemma HeirOfDup(t: Tree, e: Node)
    requires t.Link? && WF(t) && t.bit < 0 && First(t) == e && e in LeafSet(t) && ParentOwner(t, e) != e
    ensures First(Del(t, e, ParentOwner(t, e))) == ParentOwner(t, e)
  {
    var q := ParentOwner(t, e);
    FirstLast(t);
    HeirComesFirst(t, e);
    DelLeaves(t, e, q);
    ParentOwnerIs(t, e);
    FirstLast(Del(t, e, q));
    AllCodeLeaves(Del(t, e, q), t.o.code);
  }

  lemma DelDup(t: Tree, e: Node)
    requires t.Link? && e in LeafSet(t) && WF(t) && t.bit < 0
    requires t.l != Leaf(e) && t.r != Leaf(e)
    ensures DupLink(Del(t, e, ParentOwner(t, e)))
  {
    var q := ParentOwner(t, e);
    DelLeaves(t, e, q);
    ParentOwnerIs(t, e);
    if e in LeafSet(t.l) {
      DelBits(t.l, e, q);
      FirstLast(t.r);
    } else {
      DelBits(t.r, e, q);
      DelLeaves(t.r, e, q);
      ParentOwnerIs(t.r, e);
      if t.o == e {
        HeirOfDup(t.r, e);
      } else {
        FirstLast(t.r);
        FirstLast(Del(t.r, e, q));
      }
    }
  }

  lemma UnderSubset(t: Tree, t': Tree, c: Code, c': Code, pos: nat, side: bool)
    requires Under(t, c, pos, side) && LeafSet(t') <= LeafSet(t) && Agree(c', c, pos)
    ensures Under(t', c', pos, side)
  {
    forall e | e in LeafSet(t')
      ensures pos < |e.code| && Agree(e.code, c', pos) && e.code[pos] == side
    {
      assert e in LeafSet(t);
    }
  }

  lemma DelFirst(t: Tree, e: Node)
    requires t.Link? && e in LeafSet(t) && WF(t) && t.bit >= 0
    requires t.l != Leaf(e) && t.r != Leaf(e)
    ensures var q := ParentOwner(t, e);
            var o := if t.o == e then q else t.o;
            FirstWith(Remove(Leaves(t), e), o.code) == Some(o)
  {
    if t.o == e {
      if e in LeafSet(t.l) {
        ParentOwnerIs(t.l, e);
      } else {
        ParentOwnerIs(t.r, e);
      }
      HeirComesFirst(t, e);
    } else {
      FirstWithRemove(Leaves(t), e, t.o.code);
    }
  }

  lemma DelRadixLink(t: Tree, e: Node)
    requires t.Link? && e in LeafSet(t) && WF(t) && t.bit >= 0
    requires t.l != Leaf(e) && t.r != Leaf(e)
    ensures RadixLink(Del(t, e, ParentOwner(t, e)))
  {
    var q := ParentOwner(t, e);
    var u := Del(t, e, q);
    var p := Pos(t.o, t.bit);
    DelLeaves(t, e, q);
    ParentOwnerIs(t, e);
    DelFirst(t, e);
    assert u.o in LeafSet(t) && Agree(u.o.code, t.o.code, p);
    if e in LeafSet(t.l) {
      DelLeaves(t.l, e, q);
    } else {
      DelLeaves(t.r, e, q);
    }
    UnderSubset(t.l, u.l, t.o.code, u.o.code, p, LEFT);
    UnderSubset(t.r, u.r, t.o.code, u.o.code, p, RIGHT);
  }

  /** Deletion keeps every invariant. */
  lemma {:induction false} DelRadix(t: Tree, e: Node)
    requires t.Link? && e in LeafSet(t) && WF(t)
    ensures WF(Del(t, e, ParentOwner(t, e)))
  {
    DelShape(t, e);
    var q := ParentOwner(t, e);
    if t.l == Leaf(e) || t.r == Leaf(e) {
    } else {
      if e in LeafSet(t.l) {
        DelRadix(t.l, e);
      } else {
        DelRadix(t.r, e);
      }
      DelLeaves(t, e, q);
      ParentOwnerIs(t, e);
      if t.bit < 0 {
        DelDup(t, e);
      } else {
        DelRadixLink(t, e);
      }
    }
  }

  /** Deleting any leaf of any well-formed tree gives a well-formed tree with the
      other leaves in the same order, and frees the link part of the entity. */
  lemma DeleteCorrect(tt: Top, e: Node)
    requires tt.Full? && e in LeafSet(tt.t) && WFTop(tt)
    ensures WFTop(Deleted(tt, e))
    ensures Entities(Deleted(tt, e)) == Remove(Entities(tt), e)
    ensures Deleted(tt, e).Full? ==>
              e !in LeafSet(Deleted(tt, e).t) && e !in Links(Deleted(tt, e).t)
  {
    if tt.t.Link? {
      DelRadix(tt.t, e);
      DelLeaves(tt.t, e, ParentOwner(tt.t, e));
      LinksAreLeaves(Deleted(tt, e).t);
    }
  }

  // ----- deletion as two replacements of subtrees

  /** The path to the link right above the leaf of e. */
  ghost function ParentPath(t: Tree, e: Node): (pp: Path)
    requires t.Link? && e in LeafSet(t)
    ensures ValidPath(t, pp) && At(t, pp).Link? && At(t, pp).o == ParentOwner(t, e)
    ensures At(t, pp).l == Leaf(e) || At(t, pp).r == Leaf(e)
  {
    if t.l == Leaf(e) || t.r == Leaf(e) then []
    else if e in LeafSet(t.l) then [LEFT] + ParentPath(t.l, e)
    else assert e in LeafSet(t.r); [RIGHT] + ParentPath(t.r, e)
  }

  /** The tree with the sibling of the leaf of e in place of its parent. */
  ghost function Splice(t: Tree, e: Node): Tree
    requires t.Link? && e in LeafSet(t)
  {
    var pp := ParentPath(t, e);
    Put(t, pp, if At(t, pp).l == Leaf(e) then At(t, pp).r else At(t, pp).l)
  }

  lemma SpliceDown(t: Tree, e: Node)
    requires t.Link? && e in LeafSet(t)
    ensures Splice(t, e) ==
            if t.l == Leaf(e) then t.r
            else if t.r == Leaf(e) then t.l
            else if e in LeafSet(t.l) then t.(l := Splice(t.l, e))
            else assert e in LeafSet(t.r); t.(r := Splice(t.r, e))
  {
    if t.l != Leaf(e) && t.r != Leaf(e) {
      var pp := ParentPath(t, e);
      assert pp[1..] == ParentPath(t.Child(pp[0]), e);
    }
  }

  /** The path to the link of e, which lies above the leaf of e. */
  ghost function LinkPath(t: Tree, e: Node): (lp: Path)
    requires Shape(t) && e in Links(t) && e in LeafSet(t)
    ensures ValidPath(t, lp) && At(t, lp).Link? && At(t, lp).o == e
  {
    LinksAreLeaves(t.l);
    LinksAreLeaves(t.r);
    if t.o == e then []
    else if e in LeafSet(t.l) then [LEFT] + LinkPath(t.l, e)
    else [RIGHT] + LinkPath(t.r, e)
  }

  /** Without a link of its own elsewhere, deleting e is one replacement. */
  lemma {:induction false} DelIsSplice(t: Tree, e: Node, q: Node)
    requires t.Link? && e in LeafSet(t) && Shape(t) && (e in Links(t) ==> e == ParentOwner(t, e))
    ensures Del(t, e, q) == Splice(t, e)
  {
    SpliceDown(t, e);
    if t.l != Leaf(e) && t.r != Leaf(e) {
      LinksAreLeaves(t.l);
      LinksAreLeaves(t.r);
      var c := if e in LeafSet(t.l) then t.l else t.r;
      ParentOwnerIs(c, e);
      DelIsSplice(c, e, q);
    }
  }

  /** With a link of its own elsewhere, the parent's link then replaces that one. */
  lemma {:induction false} DelIsTakeOver(t: Tree, e: Node, q: Node)
    requires t.Link? && e in LeafSet(t) && Shape(t) && e in Links(t) && e != ParentOwner(t, e)
    ensures var t1, lp := Splice(t, e), LinkPath(t, e);
            && ValidPath(t1, lp) && At(t1, lp).Link? && At(t1, lp).o == e
            && Del(t, e, q) == Put(t1, lp, At(t1, lp).(o := q))
  {
    SpliceDown(t, e);
    LinksAreLeaves(t.l);
    LinksAreLeaves(t.r);
    var c := if e in LeafSet(t.l) then t.l else t.r;
    if t.o == e {
      DelIsSplice(c, e, q);
    } else {
      DelIsTakeOver(c, e, q);
      assert LinkPath(t, e)[1..] == LinkPath(c, e);
    }
  }

  lemma SiblingSets(s: Tree, e: Node)
    requires s.Link? && Separate(s) && (s.l == Leaf(e) || s.r == Leaf(e))
    ensures var sb := if s.l == Leaf(e) then s.r else s.l;
            && Separate(sb) && LeafSet(sb) == LeafSet(s) - {e} && Links(sb) == Links(s) - {s.o}
            && e in LeafSet(s) && s.o in Links(s)
  {
    assert LeafSet(Leaf(e)) == {e} && Links(Leaf(e)) == {};
    var sb := if s.l == Leaf(e) then s.r else s.l;
    assert LeafSet(s) == LeafSet(sb) + {e} && Links(s) == Links(sb) + {s.o};
  }

  lemma CutSets(t: Tree, pp: Path, sb: Tree, e: Node, q: Node)
    requires Separate(t) && ValidPath(t, pp) && Separate(sb)
    requires LeafSet(sb) == LeafSet(At(t, pp)) - {e} && e in LeafSet(At(t, pp))
    requires Links(sb) == Links(At(t, pp)) - {q} && q in Links(At(t, pp))
    ensures Separate(Put(t, pp, sb))
    ensures Links(Put(t, pp, sb)) == Links(t) - {q} && LeafSet(Put(t, pp, sb)) == LeafSet(t) - {e}
  {
    SeparateAt(t, pp);
    SetsAt(t, pp);
    SetsPut(t, pp, sb);
    SeparatePut(t, pp, sb);
  }

  lemma SpliceSets(t: Tree, e: Node)
    requires t.Link? && e in LeafSet(t) && Shape(t)
    ensures Separate(t) && Separate(Splice(t, e))
    ensures Links(Splice(t, e)) == Links(t) - {ParentOwner(t, e)}
    ensures LeafSet(Splice(t, e)) == LeafSet(t) - {e}
  {
    var pp := ParentPath(t, e);
    var s := At(t, pp);
    ShapeSeparate(t);
    SeparateAt(t, pp);
    SiblingSets(s, e);
    CutSets(t, pp, if s.l == Leaf(e) then s.r else s.l, e, s.o);
  }
}
