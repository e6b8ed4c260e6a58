/** Insertion into a tree of duplicates: the code of eb_insert_dup(). */
module EbDupTree {
  import opened Options
  import opened EbNodes
  import opened EbTrees
  import opened EbLists
  import opened EbMemory
  import opened EbRadix
  import opened EbInsert
  import opened EbLinking
  import opened EbTree

  /** The search stands at hp on the right spine, with the deepest hole at sp. */
  ghost predicate DupSearch(t: Tree, p0: Path, hp: Path, sp: Path, n: Node) {
    && ValidPath(t, p0) && ValidPath(t, hp) && ValidPath(t, sp)
    && At(t, p0).Link? && At(t, hp).Link? && At(t, sp).Link?
    && Put(t, p0, InsertDup(At(t, p0), n)) ==
       match Fill(At(t, hp), n)
       case Some(u) => Put(t, hp, u)
       case None => Put(t, sp, Cap(At(t, sp), n, At(t, sp).bit - 1, RIGHT))
  }

  lemma DupSearchStep(t: Tree, p0: Path, hp: Path, sp: Path, n: Node)
    requires DupSearch(t, p0, hp, sp, n) && At(t, hp).r.Link?
    ensures var hp' := hp + [RIGHT];
            && ValidPath(t, hp') && At(t, hp') == At(t, hp).r
            && DupSearch(t, p0, hp', if At(t, hp').bit > At(t, hp).bit + 1 then hp' else sp, n)
  {
    var h := At(t, hp);
    PathDown(t, NoParent, hp, RIGHT);
    match Fill(h.r, n)
    case Some(u) => PutChild(t, hp, RIGHT, u);
    case None => PutChild(t, hp, RIGHT, Cap(h.r, n, h.r.bit - 1, RIGHT));
  }

  lemma DupSearchEnd(t: Tree, up: Parent, p0: Path, hp: Path, sp: Path, n: Node)
    requires DupSearch(t, p0, hp, sp, n) && At(t, hp).r.Leaf?
    ensures ValidPath(t, hp + [RIGHT]) && At(t, hp + [RIGHT]) == At(t, hp).r
    ensures Anchor(t, up, hp + [RIGHT]) == Up(At(t, hp).o, RIGHT)
    ensures Put(t, p0, InsertDup(At(t, p0), n)) ==
            if At(t, hp).bit < -1 then Put(t, hp + [RIGHT], Cap(At(t, hp).r, n, -1, RIGHT))
            else Put(t, sp, Cap(At(t, sp), n, At(t, sp).bit - 1, RIGHT))
  {
    PathDown(t, up, hp, RIGHT);
    PutChild(t, hp, RIGHT, Cap(At(t, hp).r, n, -1, RIGHT));
  }

  /** eb_insert_dup(): adds n to the duplicate tree below the link of sub0, which
      is at path p0 of the tree. */
  method InsertDuplicate(sub0: Node, n: Node, ghost root: Node, ghost t: Tree, ghost p0: Path, ghost S: set<Node>)
    returns (r: Node)
    requires S == {root} + LeafSet(t) && n !in S
    requires RepTop(Snap(S), root, Full(t)) && WF(t)
    requires ValidPath(t, p0) && At(t, p0).Link? && At(t, p0).o == sub0
    modifies S`b, S`nodeP, S`leafP, n`b, n`nodeP, n`leafP, n`bit
    ensures r == n
    ensures RepTop(Snap(S + {n}), root, Full(Put(t, p0, InsertDup(At(t, p0), n))))
    ensures root.b.r == old(root.b.r)
  {
    hide Rep, Radix, Shape, RepTop, InsertDup, Fill, Links;
    var head, sub := sub0, sub0;
    ghost var hp, sp, m := p0, p0, Snap(S);
    DupSearchStart(t, p0, n);
    Reads(m, root, t, p0);
    while head.b.r.LinkOf?
      invariant DupSearch(t, p0, hp, sp, n) && m == Snap(S)
      invariant head in S && sub in S && At(t, hp).o == head && At(t, sp).o == sub
      invariant head.bit == At(t, hp).bit && head.b.r == Ref(At(t, hp).r)
      decreases At(t, hp)
    {
      var last := head;
      head := head.b.r.n;
      DupSearchStep(t, p0, hp, sp, n);
      hp := hp + [RIGHT];
      Reads(m, root, t, hp);
      assert m[head].b == head.b && m[head].bit == head.bit;
      if head.bit > last.bit + 1 {
        sub, sp := head, hp;
      }
    }
    DupSearchEnd(t, Up(root, LEFT), p0, hp, sp, n);
    ghost var t' := Put(t, p0, InsertDup(At(t, p0), n));
    if head.bit < -1 {
      Reads(m, root, t, hp + [RIGHT]);
      InsertAbove(head, RIGHT, head.b.r, n, -1, RIGHT, root, t, hp + [RIGHT], S);
      assert RepTop(Snap(S + {n}), root, Full(t'));
    } else {
      Reads(m, root, t, sp);
      InsertAbove(sub.nodeP.n, sub.nodeP.side, LinkOf(sub), n, sub.bit - 1, RIGHT, root, t, sp, S);
      assert RepTop(Snap(S + {n}), root, Full(t'));
    }
    return n;
  }

  lemma DupSearchStart(t: Tree, p0: Path, n: Node)
    requires ValidPath(t, p0) && At(t, p0).Link?
    ensures DupSearch(t, p0, p0, p0, n)
  {
  }

  /** What insertion means where the descent stops: above the subtree, or as a
      duplicate if the key is the same. */
  ghost predicate Placing(s: Tree, n: Node, same: bool, bit: int, right: bool) {
    && WF(s) && Insertable(s, n) && Stops(s, n.code) && same == (Head(s).code == n.code)
    && (!same ==> Insert(s, n) == Cap(s, n, bit, right))
  }

  /** The end of every insertion: n is put where the descent stopped. */
  method Place(at: Node, side: bool, troot: Branch, n: Node, same: bool, bit: int, right: bool,
               ghost root: Node, ghost t: Tree, ghost path: Path, ghost S: set<Node>)
    requires S == {root} + LeafSet(t) && n !in S && RepTop(Snap(S), root, Full(t))
    requires Descending(t, path, n) && Placing(At(t, path), n, same, bit, right)
    requires troot == Ref(At(t, path)) && Up(at, side) == Anchor(t, Up(root, LEFT), path)
    modifies S`b, S`nodeP, S`leafP, n`b, n`nodeP, n`leafP, n`bit
    ensures RepTop(Snap(S + {n}), root, Full(Insert(t, n)))
    ensures root.b.r == old(root.b.r)
  {
    hide Rep, Radix, Shape, Links, RepTop, InsertDup, Fill;
    InsertBelow(t, path, n);
    if same && troot.LinkOf? {
      var _ := InsertDuplicate(troot.n, n, root, t, path, S);
    } else if same {
      InsertAbove(at, side, troot, n, -1, RIGHT, root, t, path, S);
    } else {
      InsertAbove(at, side, troot, n, bit, right, root, t, path, S);
    }
  }

  /** In a tree without duplicates the descent for an existing key ends on it. */
  lemma FoundUnique(t: Tree, path: Path, n: Node)
    requires Descending(t, path, n) && Stops(At(t, path), n.code) && Head(At(t, path)).code == n.code && NoDups(t)
    ensures FirstWith(Leaves(t), n.code) == Some(Head(At(t, path)))
  {
    var s := At(t, path);
    HeadIsLeaf(s);
    NoDupsAt(t, path);
    SetsAt(t, path);
    UniqueIsFirst(t, Head(s));
  }

  /** The descent finds every key there is. */
  lemma FoundIfThere(t: Tree, path: Path, n: Node)
    requires Descending(t, path, n) && Stops(At(t, path), n.code) && Head(At(t, path)).code != n.code
    ensures FirstWith(Leaves(t), n.code).None?
  {
    var s := At(t, path);
    RouteFirst(t, path, n.code);
    HeadIsLeaf(s);
    StopAgrees(s, n.code);
    forall i | 0 <= i < |Leaves(s)|
      ensures Leaves(s)[i].code != n.code
    {
      LeafIndex(s, i);
    }
    FirstWithNone(Leaves(s), n.code);
  }

  /** The same for a whole tree, which keeps its invariants. */
  method PlaceInTree(tree: EbRoot, at: Node, side: bool, troot: Branch, n: Node, same: bool, bit: int, right: bool,
                     ghost path: Path)
    requires tree.Valid() && tree.T.Full? && n !in tree.Repr() && (same ==> !tree.Unique())
    requires Descending(tree.T.t, path, n) && Placing(At(tree.T.t, path), n, same, bit, right)
    requires troot == Ref(At(tree.T.t, path)) && Up(at, side) == Anchor(tree.T.t, Up(tree.root, LEFT), path)
    modifies tree`T, tree.Repr()`b, tree.Repr()`nodeP, tree.Repr()`leafP, n`b, n`nodeP, n`leafP, n`bit
    ensures tree.Valid() && tree.root.b.r == old(tree.root.b.r)
    ensures WFInsert(old(tree.T), tree.T, n) && Members(tree.T) == old(Members(tree.T)) + {n}
    ensures !old(Refused(tree.Unique(), tree.T, n))
  {
    hide Rep, Radix, Shape, Links, Leaves, FirstWith, Insert, Ins, Placing, Route, LeafSet, RepTop, NoDups;
    ghost var S, t, root := tree.Repr(), tree.T.t, tree.root;
    assert tree.T == Full(t) && RepTop(Snap(S), root, Full(t));
    if !same {
      assert Head(At(t, path)).code != n.code && Stops(At(t, path), n.code) by { PlacingMeans(At(t, path), n, same, bit, right); }
      FoundIfThere(t, path, n);
    }
    Place(at, side, troot, n, same, bit, right, root, t, path, S);
    tree.T := Full(Insert(t, n));
    InsertCorrect(Full(t), n);
    assert tree.Repr() == S + {n};
  }

  lemma PlacingMeans(s: Tree, n: Node, same: bool, bit: int, right: bool)
    requires Placing(s, n, same, bit, right)
    ensures Stops(s, n.code) && same == (Head(s).code == n.code)
  {
  }
}
