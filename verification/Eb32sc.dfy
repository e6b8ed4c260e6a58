/** Trees of 32-bit keys with scopes: eb32sctree.h and eb32sctree.c. */
module Eb32sc {
  import opened Codes
  import opened Bits
  import opened EbNodes
  import opened EbTrees
  import opened EbMemory
  import opened EbLists
  import opened EbRadix
  import opened EbInsert
  import opened EbDelete
  import opened EbLinking
  import opened EbDupTree
  import opened EbTree
  import opened Eb32

  /** The visibility masks of an entity. */
  datatype Mask = Mask(link: Scope, leaf: Scope)

  type Masks = map<Node, Mask>

  ghost function SnapMasks(s: set<Node>): (m: Masks)
    reads s
    ensures m.Keys == s
  {
    map n | n in s :: Mask(n.nodeS, n.leafS)
  }

  // ----- coverage

  ghost predicate Masked(m: Masks, t: Tree) {
    Links(t) <= m.Keys && LeafSet(t) <= m.Keys
  }

  /** The mask which stands for t in its parent. */
  ghost function TopMask(m: Masks, t: Tree): Scope
    requires Masked(m, t)
  {
    match t
    case Leaf(e) => m[e].leaf
    case Link(o, _, _, _) => m[o].link
  }

  /** If e is a leaf of t, then every link of t above it has its scope. */
  ghost predicate Covered(m: Masks, t: Tree, e: Node)
    requires Masked(m, t)
  {
    t.Link? && e in LeafSet(t) ==> m[e].leaf <= m[t.o].link && Covered(m, t.l, e) && Covered(m, t.r, e)
  }

  /** All leaves of t are covered. */
  ghost predicate Covers(m: Masks, t: Tree)
    requires Masked(m, t)
  {
    forall e | e in LeafSet(t) :: Covered(m, t, e)
  }

  /** A leaf stays covered when masks only grow on links. */
  lemma {:induction false} CoveredFrame(m: Masks, m': Masks, t: Tree, e: Node)
    requires Masked(m, t) && Masked(m', t) && Covered(m, t, e)
    requires e in LeafSet(t) ==> m'[e].leaf == m[e].leaf
    requires forall o | o in Links(t) :: m[o].link <= m'[o].link
    ensures Covered(m', t, e)
  {
    if t.Link? && e in LeafSet(t) {
      assert t.o in Links(t);
      CoveredFrame(m, m', t.l, e);
      CoveredFrame(m, m', t.r, e);
    }
  }

  lemma CoveredByTop(m: Masks, t: Tree, e: Node)
    requires Masked(m, t) && Covered(m, t, e) && e in LeafSet(t)
    ensures m[e].leaf <= TopMask(m, t)
  {
  }

  lemma NotThere(m: Masks, t: Tree, e: Node)
    requires Masked(m, t) && e !in LeafSet(t)
    ensures Covered(m, t, e)
  {
  }

  // ----- deletion

  /** Wherever q owns a link of t, its mask covers those of the two branches. */
  ghost predicate HeirCovers(m: Masks, t: Tree, q: Node)
    requires Masked(m, t)
  {
    t.Link? ==>
      && HeirCovers(m, t.l, q) && HeirCovers(m, t.r, q)
      && (t.o == q ==> TopMask(m, t.l) + TopMask(m, t.r) <= m[q].link)
  }

  /** m' is m except for the link mask of q. */
  ghost predicate OnlyLinkOf(m: Masks, m': Masks, q: Node) {
    m'.Keys <= m.Keys && forall x | x in m' :: m'[x].leaf == m[x].leaf && (x != q ==> m'[x].link == m[x].link)
  }

  lemma DelMasked(m: Masks, t: Tree, e: Node)
    requires t.Link? && e in LeafSet(t) && Shape(t) && Masked(m, t)
    ensures Masked(m, Del(t, e, ParentOwner(t, e)))
  {
    DelLeaves(t, e, ParentOwner(t, e));
    DelLinks(t, e);
  }

  lemma UnchangedCovered(m: Masks, m': Masks, t: Tree, q: Node, x: Node)
    requires Masked(m, t) && Masked(m', t) && Covered(m, t, x) && OnlyLinkOf(m, m', q) && q !in Links(t)
    ensures Covered(m', t, x)
  {
    CoveredFrame(m, m', t, x);
  }

  /** Deletion keeps any other leaf x covered, if the heir of a link covers its new
      branches. */
  lemma {:induction false} DelCovered(m: Masks, m': Masks, t: Tree, e: Node, x: Node)
    requires t.Link? && e in LeafSet(t) && Shape(t) && Masked(m, t) && x in LeafSet(t) && x != e && Covered(m, t, x)
    requires OnlyLinkOf(m, m', ParentOwner(t, e)) && Masked(m', Del(t, e, ParentOwner(t, e)))
    requires HeirCovers(m', Del(t, e, ParentOwner(t, e)), ParentOwner(t, e))
    ensures Covered(m', Del(t, e, ParentOwner(t, e)), x)
  {
    var q := ParentOwner(t, e);
    LinksAreLeaves(t.l);
    LinksAreLeaves(t.r);
    if t.l == Leaf(e) {
      UnchangedCovered(m, m', t.r, q, x);
    } else if t.r == Leaf(e) {
      UnchangedCovered(m, m', t.l, q, x);
    } else {
      var side := e !in LeafSet(t.l);
      var c, d := t.Child(side), t.Child(!side);
      ParentOwnerIs(c, e);
      DelMasked(m, c, e);
      DelLeaves(c, e, q);
      UnchangedCovered(m, m', d, q, x);
      if x in LeafSet(c) {
        DelCovered(m, m', c, e, x);
        CoveredByTop(m', Del(c, e, q), x);
      } else {
        NotThere(m', Del(c, e, q), x);
        CoveredByTop(m', d, x);
      }
    }
  }

  lemma {:induction false} HeirAt(m: Masks, t: Tree, path: Path, q: Node)
    requires Separate(t) && Masked(m, t) && ValidPath(t, path) && At(t, path).Link? && At(t, path).o == q
    requires Masked(m, At(t, path)) && TopMask(m, At(t, path).l) + TopMask(m, At(t, path).r) <= m[q].link
    ensures HeirCovers(m, t, q)
  {
    if path == [] {
      HeirAbsent(m, t.l, q);
      HeirAbsent(m, t.r, q);
    } else {
      SetsAt(t.Child(path[0]), path[1..]);
      HeirAt(m, t.Child(path[0]), path[1..], q);
      HeirAbsent(m, t.Child(!path[0]), q);
    }
  }

  lemma {:induction false} HeirAbsent(m: Masks, t: Tree, q: Node)
    requires Masked(m, t) && q !in Links(t)
    ensures HeirCovers(m, t, q)
  {
    if t.Link? {
      HeirAbsent(m, t.l, q);
      HeirAbsent(m, t.r, q);
    }
  }

  // ----- coverage of whole trees

  ghost predicate CoveredIn(m: Masks, tt: Top, e: Node) {
    tt.Full? && e in LeafSet(tt.t) && Masked(m, tt.t) && Covered(m, tt.t, e)
  }

  ghost predicate CoversAll(m: Masks, tt: Top) {
    tt.Full? ==> Masked(m, tt.t) && Covers(m, tt.t)
  }

  /** Whatever is covered in tt and still in tt' is covered there. */
  ghost predicate KeepsCovered(m: Masks, tt: Top, m': Masks, tt': Top) {
    forall e | e in Members(tt) && e in Members(tt') && CoveredIn(m, tt, e) :: CoveredIn(m', tt', e)
  }

  /** So if all leaves were covered, those which are still there are. */
  lemma AllStayCovered(m: Masks, tt: Top, m': Masks, tt': Top)
    requires KeepsCovered(m, tt, m', tt') && CoversAll(m, tt) && Members(tt') <= Members(tt)
    requires tt'.Full? ==> Masked(m', tt'.t)
    ensures CoversAll(m', tt')
  {
    if tt'.Full? {
      forall e | e in LeafSet(tt'.t)
        ensures Covered(m', tt'.t, e)
      {
        assert e in Members(tt') && CoveredIn(m, tt, e);
      }
    }
  }

  lemma TreeMasked(tree: EbRoot)
    requires tree.Valid() && tree.T.Full?
    ensures Masked(SnapMasks(tree.Repr()), tree.T.t)
  {
    LinksAreLeaves(tree.T.t);
  }

  /** The mask of what a branch points to. */
  method BranchMask(b: Branch) returns (r: Scope)
    requires !b.Null?
    ensures r == MaskOf(b)
  {
    r := if b.LinkOf? then b.n.nodeS else b.n.leafS;
  }

  /** Where the heir of a link stands. */
  lemma HeirPlace(t: Tree, e: Node)
    requires WF(t) && LinkElsewhere(t, e)
    ensures var q, lp := ParentOwner(t, e), LinkPath(t, e);
            var u := Del(t, e, q);
            && ValidPath(u, lp) && At(u, lp).Link? && At(u, lp).o == q && q in LeafSet(t) && q != e && Separate(u)
            && LeafSet(At(u, lp)) <= LeafSet(u) && Links(At(u, lp)) <= Links(u) && Links(u) <= LeafSet(u)
            && LeafSet(u) == LeafSet(t) - {e} && WF(u)
  {
    hide Radix;
    var q, lp := ParentOwner(t, e), LinkPath(t, e);
    DelIsTakeOver(t, e, q);
    PutAt(Splice(t, e), lp, At(Splice(t, e), lp).(o := q));
    DelShape(t, e);
    DelRadix(t, e);
    ShapeSeparate(Del(t, e, q));
    SetsAt(Del(t, e, q), lp);
    LinksAreLeaves(Del(t, e, q));
    DelLeaves(t, e, q);
    ParentOwnerIs(t, e);
    LinksAreLeaves(t);
  }

  /** What the heir of a link finds below it. */
  lemma HeirReads(tree: EbRoot, t: Tree, e: Node, q: Node)
    requires tree.Valid() && WF(t) && LinkElsewhere(t, e) && q == ParentOwner(t, e)
    requires tree.T == Full(Del(t, e, q))
    ensures var u, lp := tree.T.t, LinkPath(t, e);
            && ValidPath(u, lp) && At(u, lp).Link? && At(u, lp).o == q && q in tree.Repr()
            && q.b == Branches(Ref(At(u, lp).l), Ref(At(u, lp).r))
  {
    hide Radix, Rep, Del;
    HeirPlace(t, e);
    Reads(Snap(tree.Repr()), tree.root, tree.T.t, LinkPath(t, e));
  }

  // ----- the masks after a deletion

  /** The two branches below the heir of a link. */
  ghost function HeirBranches(t: Tree, e: Node): (b: (Tree, Tree))
    requires WF(t) && LinkElsewhere(t, e)
    ensures Links(b.0) + Links(b.1) <= LeafSet(t) - {e} && LeafSet(b.0) + LeafSet(b.1) <= LeafSet(t) - {e}
    ensures ParentOwner(t, e) !in Links(b.0) && ParentOwner(t, e) !in Links(b.1) && ParentOwner(t, e) in LeafSet(t) - {e}
  {
    HeirPlace(t, e);
    var u := Del(t, e, ParentOwner(t, e));
    SeparateAt(u, LinkPath(t, e));
    var s := At(u, LinkPath(t, e));
    (s.l, s.r)
  }

  /** eb32sc_delete() only changes the mask of the heir of a link, if there is one: it
      becomes the union of those of the branches it absorbs. */
  ghost function DeleteMasks(m: Masks, t: Tree, e: Node): (m': Masks)
    requires WF(t) && e in LeafSet(t) && LeafSet(t) <= m.Keys
    ensures m'.Keys == m.Keys - {e}
  {
    var base := map x | x in m && x != e :: m[x];
    if LinkElsewhere(t, e) then
      var q, b := ParentOwner(t, e), HeirBranches(t, e);
      base[q := Mask(TopMask(base, b.0) + TopMask(base, b.1), m[q].leaf)]
    else base
  }

  lemma DeleteMasksMean(m: Masks, t: Tree, e: Node)
    requires WF(t) && t.Link? && e in LeafSet(t) && LeafSet(t) <= m.Keys
    ensures var q, m' := ParentOwner(t, e), DeleteMasks(m, t, e);
            && OnlyLinkOf(m, m', q) && Masked(m', Del(t, e, q)) && Masked(m, t)
            && (LinkElsewhere(t, e) ==> HeirCovers(m', Del(t, e, q), q))
  {
    hide Radix, Shape, HeirCovers;
    var q, m' := ParentOwner(t, e), DeleteMasks(m, t, e);
    LinksAreLeaves(t);
    DelMasked(m, t, e);
    DelLeaves(t, e, q);
    DelShape(t, e);
    LinksAreLeaves(Del(t, e, q));
    if LinkElsewhere(t, e) {
      HeirPlace(t, e);
      var b := HeirBranches(t, e);
      HeirTop(m, m', b.0, e, q);
      HeirTop(m, m', b.1, e, q);
      HeirAt(m', Del(t, e, q), LinkPath(t, e), q);
    }
  }

  lemma HeirTop(m: Masks, m': Masks, s: Tree, e: Node, q: Node)
    requires Masked(map x | x in m && x != e :: m[x], s) && q !in Links(s) && e !in LeafSet(s) && e !in Links(s)
    requires Masked(m', s) && forall x | x in m' :: x in m && m'[x].leaf == m[x].leaf && (x != q ==> m'[x] == m[x])
    ensures TopMask(m', s) == TopMask(map x | x in m && x != e :: m[x], s)
  {
  }

  /** Deletion keeps every covered leaf covered. */
  lemma DeleteCovers(m: Masks, tt: Top, e: Node)
    requires tt.Full? && WF(tt.t) && e in LeafSet(tt.t) && LeafSet(tt.t) <= m.Keys
    ensures KeepsCovered(m, tt, DeleteMasks(m, tt.t, e), Deleted(tt, e))
    ensures Deleted(tt, e).Full? ==> Masked(DeleteMasks(m, tt.t, e), Deleted(tt, e).t)
    ensures CoversAll(m, tt) ==> CoversAll(DeleteMasks(m, tt.t, e), Deleted(tt, e))
  {
    hide Radix, Shape, Covered, HeirCovers, DeleteMasks, Masked, Covers, Del, WF;
    var t, m' := tt.t, DeleteMasks(m, tt.t, e);
    assert WFTop(tt);
    MembersDeleted(tt, e);
    if t.Link? {
      DeleteMasksMean(m, t, e);
      forall x | x in LeafSet(t) && x in Members(Deleted(tt, e)) && CoveredIn(m, tt, x)
        ensures CoveredIn(m', Deleted(tt, e), x)
      {
        DeletedCovered(m, m', t, e, x);
      }
      if CoversAll(m, tt) {
        AllStayCovered(m, tt, m', Deleted(tt, e));
      }
    }
  }

  /** What remains of the masks of a tree after a deletion. */
  lemma DeletedCovered(m: Masks, m': Masks, t: Tree, e: Node, x: Node)
    requires WF(t) && t.Link? && e in LeafSet(t) && Masked(m, t) && x in LeafSet(t) && x != e && Covered(m, t, x)
    requires Masked(m', Del(t, e, ParentOwner(t, e))) && OnlyLinkOf(m, m', ParentOwner(t, e))
    requires LinkElsewhere(t, e) ==> HeirCovers(m', Del(t, e, ParentOwner(t, e)), ParentOwner(t, e))
    ensures Covered(m', Del(t, e, ParentOwner(t, e)), x)
  {
    hide Radix, Covered;
    var q := ParentOwner(t, e);
    var u := Del(t, e, q);
    ParentOwnerIs(t, e);
    DelLinks(t, e);
    if !LinkElsewhere(t, e) {
      assert q !in Links(u);
      HeirAbsent(m', u, q);
    }
    DelCovered(m, m', t, e, x);
  }

  ghost function MaskOf(b: Branch): Scope
    reads if b.Null? then {} else {b.n}
  {
    if b.Null? then {} else if b.LinkOf? then b.n.nodeS else b.n.leafS
  }

  /** The heir of a link takes the masks of the branches it finds there. */
  method CoverBranches(ghost tree: EbRoot, heir: Node, ghost t: Tree, ghost e: Node)
    requires tree.Valid() && WF(t) && LinkElsewhere(t, e) && heir == ParentOwner(t, e) && tree.T == Full(Del(t, e, heir))
    modifies heir`nodeS
    ensures tree.Valid() && Snap(tree.Repr()) == old(Snap(tree.Repr()))
    ensures heir.nodeS == MaskOf(Ref(HeirBranches(t, e).0)) + MaskOf(Ref(HeirBranches(t, e).1))
  {
    hide Radix, Rep, Shape, Links, LeafSet, RepTop, WF, Del, ParentOwner, NoDups, Separate;
    HeirReads(tree, t, e, heir);
    ghost var before, b := Snap(tree.Repr()), HeirBranches(t, e);
    HeirApart(b.0, heir);
    HeirApart(b.1, heir);
    var l := BranchMask(heir.b.l);
    var r := BranchMask(heir.b.r);
    heir.nodeS := l + r;
    assert Snap(tree.Repr()) == before;
  }

  lemma HeirApart(s: Tree, q: Node)
    requires q !in Links(s)
    ensures Ref(s) != LinkOf(q)
  {
  }

  /** The masks which a deletion leaves, given what it does to each. */
  lemma MasksDeleted(m: Masks, m': Masks, t: Tree, e: Node)
    requires WF(t) && e in LeafSet(t) && LeafSet(t) <= m.Keys && m'.Keys == m.Keys - {e}
    requires LinkElsewhere(t, e) ==>
               var q, b := ParentOwner(t, e), HeirBranches(t, e);
               && (forall x | x in m' :: m'[x].leaf == m[x].leaf && (x != q ==> m'[x] == m[x]))
               && m'[q].link == TopMask(m', b.0) + TopMask(m', b.1)
    requires !LinkElsewhere(t, e) ==> forall x | x in m' :: m'[x] == m[x]
    ensures m' == DeleteMasks(m, t, e)
  {
    hide WF, LinkElsewhere, ParentOwner;
    if LinkElsewhere(t, e) {
      var q, b := ParentOwner(t, e), HeirBranches(t, e);
      HeirTop(m, m', b.0, e, q);
      HeirTop(m, m', b.1, e, q);
    }
  }

  /** eb32sc_delete() */
  method DeleteSc(ghost tree: EbRoot, node: Node) returns (ghost heir: Node?)
    requires tree.Valid() && AllU32(tree.T)
    requires node.leafP != NoParent ==> node in Members(tree.T)
    modifies tree`T, tree.Repr()`b, tree.Repr()`nodeP, tree.Repr()`leafP, tree.Repr()`bit, tree.Repr()`nodeS
    ensures tree.Valid() && AllU32(tree.T) && node.leafP == NoParent && tree.root.b.r == old(tree.root.b.r)
    ensures heir == if old(node.leafP) != NoParent && LinkElsewhere(old(tree.T).t, node)
                    then ParentOwner(old(tree.T).t, node) else null
    ensures old(node.leafP) == NoParent ==> tree.T == old(tree.T) && SnapMasks(tree.Repr()) == old(SnapMasks(tree.Repr()))
    ensures old(node.leafP) != NoParent ==>
              tree.T == Deleted(old(tree.T), node) && WFTop(old(tree.T))
              && SnapMasks(tree.Repr()) == DeleteMasks(old(SnapMasks(tree.Repr())), old(tree.T).t, node)
    ensures KeepsCovered(old(SnapMasks(tree.Repr())), old(tree.T), SnapMasks(tree.Repr()), tree.T)
    ensures old(CoversAll(SnapMasks(tree.Repr()), tree.T)) ==> CoversAll(SnapMasks(tree.Repr()), tree.T)
  {
    hide Radix, Rep, Shape, Links, LeafSet, RepTop, WF, Covered, Covers, Masked, Del, ParentOwner, NoDups, IsU32, DeleteMasks, EbRoot.Valid, LinkElsewhere;
    ghost var tt, m := tree.T, SnapMasks(tree.Repr());
    if node.leafP == NoParent {
      heir := Unlink(tree, node);
      assert SnapMasks(tree.Repr()) == m;
      return;
    }
    assert WFTop(tt) by { ValidTree(tree); }
    MembersDeleted(tree.T, node);
    MemberIsLinked(tree, node);
    var q := Unlink(tree, node);
    heir := q;
    if q != null {
      HeirTree(tt.t, node);
      CoverBranches(tree, q, tt.t, node);
    }
    HeapMasks(tree, tt.t, node, m);
    DeleteCovers(m, tt, node);
  }

  lemma HeirTree(t: Tree, e: Node)
    requires WF(t) && LinkElsewhere(t, e)
    ensures t.Link? && Deleted(Full(t), e) == Full(Del(t, e, ParentOwner(t, e))) && ParentOwner(t, e) in LeafSet(t)
  {
    HeirPlace(t, e);
  }

  /** The memory after a deletion holds the masks which it leaves. */
  lemma HeapMasks(tree: EbRoot, t: Tree, e: Node, m: Masks)
    requires WF(t) && e in LeafSet(t) && LeafSet(t) <= m.Keys && tree.Repr() == m.Keys - {e}
    requires LinkElsewhere(t, e) ==>
               var q, b := ParentOwner(t, e), HeirBranches(t, e);
               && (forall x | x in tree.Repr() :: x.leafS == m[x].leaf && (x != q ==> x.nodeS == m[x].link))
               && q.nodeS == MaskOf(Ref(b.0)) + MaskOf(Ref(b.1))
    requires !LinkElsewhere(t, e) ==> forall x | x in tree.Repr() :: x.leafS == m[x].leaf && x.nodeS == m[x].link
    ensures SnapMasks(tree.Repr()) == DeleteMasks(m, t, e)
  {
    hide WF, LinkElsewhere, ParentOwner, DeleteMasks;
    MasksDeleted(m, SnapMasks(tree.Repr()), t, e);
  }

  // ----- insertion: what it does to coverage

  /** A new entity above s takes the mask of s and its own, so that both stay covered. */
  lemma CapCovered(m: Masks, s: Tree, n: Node, bit: int, right: bool, x: Node)
    requires Masked(m, s) && n in m && n !in LeafSet(s) && TopMask(m, s) + m[n].leaf <= m[n].link
    ensures Masked(m, Cap(s, n, bit, right)) && Covered(m, Cap(s, n, bit, right), n)
    ensures Covered(m, s, x) ==> Covered(m, Cap(s, n, bit, right), x)
  {
    assert Links(Leaf(n)) == {} && LeafSet(Leaf(n)) == {n};
    NotThere(m, s, n);
    assert Covered(m, Leaf(n), n) && Covered(m, Leaf(n), x);
    if x in LeafSet(s) && Covered(m, s, x) {
      CoveredByTop(m, s, x);
    }
  }

  // ----- insertion into a duplicate tree

  /** The marking of eb32sc_insert_dup(): a mask is only extended when it has nothing
      in common with the scope. */
  function Mark(mask: Scope, scope: Scope): Scope {
    if mask * scope == {} then mask + scope else mask
  }

  /** The owners of the links of the right spine, below the top. */
  ghost function Spine(t: Tree): set<Node>
    requires t.Link?
  {
    if t.r.Leaf? then {} else {t.r.o} + Spine(t.r)
  }

  /** Every link of the spine above the place of n, t included, has the scope. */
  ghost predicate SpineHas(m: Masks, t: Tree, n: Node, scope: Scope)
    requires t.Link? && Masked(m, t)
  {
    scope <= m[t.o].link && (t.r.Link? && Fill(t.r, n).Some? ==> SpineHas(m, t.r, n, scope))
  }

  /** The subtree above which n is inserted. */
  ghost function FillPlace(t: Tree, n: Node): Tree
    requires t.Link? && Fill(t, n).Some?
  {
    if t.r.Link? && Fill(t.r, n).Some? then FillPlace(t.r, n) else t.r
  }

  ghost function DupPlace(t: Tree, n: Node): Tree
    requires t.Link?
  {
    if Fill(t, n).Some? then FillPlace(t, n) else t
  }

  lemma {:induction false} FillCovered(m: Masks, t: Tree, n: Node, x: Node)
    requires t.Link? && Fill(t, n).Some? && Masked(m, t) && n in m && n !in LeafSet(t) && x != n
    requires Masked(m, FillPlace(t, n)) && TopMask(m, FillPlace(t, n)) + m[n].leaf <= m[n].link
    ensures var u := Fill(t, n).value;
            && Masked(m, u) && LeafSet(u) == LeafSet(t) + {n}
            && (Covered(m, u, n) <==> SpineHas(m, t, n, m[n].leaf))
            && (Covered(m, t, x) ==> Covered(m, u, x))
  {
    var u := Fill(t, n).value;
    NotThere(m, t.l, n);
    if t.r.Link? && Fill(t.r, n).Some? {
      FillCovered(m, t.r, n, x);
    } else {
      CapCovered(m, t.r, n, if t.r.Leaf? then -1 else t.r.bit - 1, RIGHT, x);
      assert LeafSet(Leaf(n)) == {n};
    }
    assert Covered(m, u, n) <==> m[n].leaf <= m[t.o].link && Covered(m, u.r, n);
    if x !in LeafSet(t.r) {
      NotThere(m, u.r, x);
    }
  }

  /** Inserting into a duplicate tree keeps other leaves covered, and covers the new
      one exactly if every link above it ends up with its scope. */
  lemma InsertDupCovered(m: Masks, t: Tree, n: Node, x: Node)
    requires t.Link? && Masked(m, t) && n in m && n !in LeafSet(t) && x != n
    requires Masked(m, DupPlace(t, n)) && TopMask(m, DupPlace(t, n)) + m[n].leaf <= m[n].link
    ensures var u := InsertDup(t, n);
            && Masked(m, u)
            && (Covered(m, u, n) <==> (Fill(t, n).Some? ==> SpineHas(m, t, n, m[n].leaf)))
            && (Covered(m, t, x) ==> Covered(m, u, x))
  {
    if Fill(t, n).Some? {
      FillCovered(m, t, n, x);
    } else {
      CapCovered(m, t, n, t.bit - 1, RIGHT, x);
    }
  }

  // ----- when insertion covers the new leaf

  /** The condition on the masks before the insertion: every link of the spine
      above the place of n, t included, either has the scope or has nothing of it. */
  ghost predicate SpineFits(m: Masks, t: Tree, n: Node, scope: Scope)
    requires t.Link? && Masked(m, t)
  {
    && (m[t.o].link * scope == {} || scope <= m[t.o].link)
    && (t.r.Link? && Fill(t.r, n).Some? ==> SpineFits(m, t.r, n, scope))
  }

  /** The same for a whole tree: only the links of a duplicate tree of the key, below
      its top, are concerned. */
  ghost predicate Fits(m: Masks, t: Tree, n: Node, scope: Scope)
    requires WF(t) && Insertable(t, n) && Masked(m, t)
    decreases t
  {
    if Stops(t, n.code) then
      t.Link? && t.bit < 0 && t.o.code == n.code && t.r.Link? && Fill(t.r, n).Some? ==> SpineFits(m, t.r, n, scope)
    else
      DescentSide(t, n);
      Fits(m, t.Child(n.code[Pos(t.o, t.bit)]), n, scope)
  }

  /** A scope of a single bit always fits. */
  lemma {:induction false} SingleBitFits(m: Masks, t: Tree, n: Node, scope: Scope)
    requires WF(t) && Insertable(t, n) && Masked(m, t) && |scope| <= 1
    ensures Fits(m, t, n, scope)
    decreases t
  {
    if Stops(t, n.code) {
      if t.Link? && t.bit < 0 && t.r.Link? {
        SingleBitSpine(m, t.r, n, scope);
      }
    } else {
      DescentSide(t, n);
      SingleBitFits(m, t.Child(n.code[Pos(t.o, t.bit)]), n, scope);
    }
  }

  lemma {:induction false} SingleBitSpine(m: Masks, t: Tree, n: Node, scope: Scope)
    requires t.Link? && Masked(m, t) && |scope| <= 1
    ensures SpineFits(m, t, n, scope)
  {
    SingleBit(m[t.o].link, scope);
    if t.r.Link? {
      SingleBitSpine(m, t.r, n, scope);
    }
  }

  lemma SingleBit(mask: Scope, scope: Scope)
    requires |scope| <= 1
    ensures mask * scope == {} || scope <= mask
  {
    if b :| b in mask * scope {
      assert |scope - {b}| == |scope| - 1;
      assert scope == {b};
    }
  }

  // ----- what insertion does to the masks

  /** The links which the descent for n goes through, the one it stops at included. */
  ghost function DescentLinks(t: Tree, n: Node): set<Node>
    requires WF(t) && Insertable(t, n)
    decreases t
  {
    if t.Leaf? then {}
    else if Stops(t, n.code) then {t.o}
    else
      DescentSide(t, n);
      {t.o} + DescentLinks(t.Child(n.code[Pos(t.o, t.bit)]), n)
  }

  /** The links which the search for a hole goes through. */
  ghost function SpineLinks(t: Tree, n: Node): set<Node>
    requires WF(t) && Insertable(t, n)
    decreases t
  {
    if Stops(t, n.code) then
      if t.Link? && t.o.code == n.code then Spine(t) else {}
    else
      DescentSide(t, n);
      SpineLinks(t.Child(n.code[Pos(t.o, t.bit)]), n)
  }

  /** The subtree above which n is inserted. */
  ghost function PlaceOf(t: Tree, n: Node): Tree
    requires WF(t) && Insertable(t, n)
    decreases t
  {
    if Stops(t, n.code) then
      if t.Link? && t.o.code == n.code then DupPlace(t, n) else t
    else
      DescentSide(t, n);
      PlaceOf(t.Child(n.code[Pos(t.o, t.bit)]), n)
  }

  lemma {:induction false} FillPlaceInside(t: Tree, n: Node)
    requires t.Link? && Fill(t, n).Some?
    ensures Links(FillPlace(t, n)) <= Links(t) && LeafSet(FillPlace(t, n)) <= LeafSet(t)
  {
    if t.r.Link? && Fill(t.r, n).Some? {
      FillPlaceInside(t.r, n);
    }
  }

  lemma {:induction false} PlaceInside(t: Tree, n: Node)
    requires WF(t) && Insertable(t, n)
    ensures Links(PlaceOf(t, n)) <= Links(t) && LeafSet(PlaceOf(t, n)) <= LeafSet(t)
    decreases t
  {
    if Stops(t, n.code) {
      if t.Link? && Fill(t, n).Some? {
        FillPlaceInside(t, n);
      }
    } else {
      DescentSide(t, n);
      PlaceInside(t.Child(n.code[Pos(t.o, t.bit)]), n);
    }
  }

  /** The masks after the insertion of n: of the links on its way, and its own. */
  ghost function InsertMasks(m: Masks, t: Tree, n: Node, scope: Scope): (m': Masks)
    requires WF(t) && Insertable(t, n) && Masked(m, t) && n !in m
    ensures m'.Keys == m.Keys + {n}
  {
    var m1 := WayMasks(m, t, n, scope);
    PlaceInside(t, n);
    m1[n := Mask(TopMask(m1, PlaceOf(t, n)) + scope, scope)]
  }

  ghost function WayMasks(m: Masks, t: Tree, n: Node, scope: Scope): (m': Masks)
    requires WF(t) && Insertable(t, n)
    ensures m'.Keys == m.Keys
  {
    map x | x in m ::
      Mask(if x in DescentLinks(t, n) then m[x].link + scope
           else if x in SpineLinks(t, n) then Mark(m[x].link, scope)
           else m[x].link, m[x].leaf)
  }

  /** How the masks of the links of t change when n is inserted. */
  ghost predicate LinkMasks(m: Masks, m': Masks, t: Tree, n: Node, scope: Scope)
    requires WF(t) && Insertable(t, n)
  {
    forall o | o in Links(t) ::
      o in m && o in m' && m'[o].link ==
        if o in DescentLinks(t, n) then m[o].link + scope
        else if o in SpineLinks(t, n) then Mark(m[o].link, scope)
        else m[o].link
  }

  ghost predicate LeafMasks(m: Masks, m': Masks, t: Tree) {
    forall e | e in LeafSet(t) :: e in m && e in m' && m'[e].leaf == m[e].leaf
  }

  ghost predicate NewMasks(m': Masks, t: Tree, n: Node, scope: Scope)
    requires WF(t) && Insertable(t, n)
  {
    && n in m' && m'[n].leaf == scope
    && Masked(m', PlaceOf(t, n)) && m'[n].link == TopMask(m', PlaceOf(t, n)) + scope
  }

  lemma {:induction false} SpineInside(t: Tree)
    requires t.Link?
    ensures Spine(t) <= Links(t.r)
  {
    if t.r.Link? {
      SpineInside(t.r);
    }
  }

  /** On a spine whose masks were marked, having the scope now is having fitted. */
  lemma {:induction false} SpineMarked(m: Masks, m': Masks, t: Tree, n: Node, scope: Scope)
    requires t.Link? && Masked(m, t) && Masked(m', t) && t.o in m && m'[t.o].link == Mark(m[t.o].link, scope)
    requires forall o | o in Spine(t) :: o in m && o in m' && m'[o].link == Mark(m[o].link, scope)
    ensures SpineHas(m', t, n, scope) <==> SpineFits(m, t, n, scope)
  {
    if t.r.Link? {
      assert t.r.o in Spine(t);
      SpineMarked(m, m', t.r, n, scope);
    }
  }

  lemma LinkMasksGrow(m: Masks, m': Masks, t: Tree, n: Node, scope: Scope)
    requires WF(t) && Insertable(t, n) && LinkMasks(m, m', t, n, scope)
    ensures forall o | o in Links(t) :: m[o].link <= m'[o].link
  {
  }

  /** Insertion where the descent stops. */
  lemma StopCovered(m: Masks, m': Masks, t: Tree, n: Node, scope: Scope, x: Node)
    requires Inserting(m, m', t, n, scope) && Stops(t, n.code) && x != n
    ensures InsertCovering(m, m', t, n, scope, x)
  {
    hide Radix, Pos, Covered;
    LinkMasksGrow(m, m', t, n, scope);
    if Covered(m, t, x) {
      CoveredFrame(m, m', t, x);
    }
    HeadIsLeaf(t);
    if t.Link? && t.o.code == n.code {
      StopSameIsDup(t, n.code);
      InsertDupCovered(m', t, n, x);
      SpineInside(t);
      assert t.o in DescentLinks(t, n) && t.o !in Links(t.r);
      if t.r.Link? {
        assert t.r.o in Spine(t);
        SpineMarked(m, m', t.r, n, scope);
      }
    } else if t.Leaf? && Head(t).code == n.code {
      CapCovered(m', t, n, -1, RIGHT, x);
    } else {
      var pos := Diff(n.code, Head(t).code);
      CapCovered(m', t, n, BitOf(n, pos), n.code[pos], x);
    }
  }

  /** The side below t which the descent for n takes. */
  ghost function Below(t: Tree, n: Node): (c: Tree)
    requires WF(t) && Insertable(t, n) && !Stops(t, n.code)
    ensures WF(c) && Insertable(c, n) && (c == t.l || c == t.r)
  {
    DescentSide(t, n);
    t.Child(n.code[Pos(t.o, t.bit)])
  }

  lemma DescentOnce(t: Tree, n: Node)
    requires WF(t) && Insertable(t, n) && !Stops(t, n.code)
    ensures t.Link? && 0 <= Pos(t.o, t.bit) < |n.code|
    ensures DescentLinks(t, n) == {t.o} + DescentLinks(Below(t, n), n)
    ensures SpineLinks(t, n) == SpineLinks(Below(t, n), n) && PlaceOf(t, n) == PlaceOf(Below(t, n), n)
    ensures var side := n.code[Pos(t.o, t.bit)];
            && Below(t, n) == t.Child(side)
            && Insert(t, n) == if side then t.(r := Insert(Below(t, n), n)) else t.(l := Insert(Below(t, n), n))
    ensures forall m, scope | Masked(m, t) :: Fits(m, t, n, scope) == Fits(m, Below(t, n), n, scope)
  {
    hide Radix, Shape;
    DescentSide(t, n);
  }

  lemma OnceMasks(m: Masks, m': Masks, t: Tree, n: Node, scope: Scope)
    requires WF(t) && Insertable(t, n) && !Stops(t, n.code) && LinkMasks(m, m', t, n, scope)
    ensures LinkMasks(m, m', Below(t, n), n, scope) && t.o in m && t.o in m' && m'[t.o].link == m[t.o].link + scope
  {
    hide Radix, Stops, Insertable;
    DescentOnce(t, n);
    var c := Below(t, n);
    assert t.o in Links(t) && t.o !in Links(c);
    assert Links(c) <= Links(t);
    forall o | o in Links(c)
      ensures o in m && o in m' && m'[o].link ==
                if o in DescentLinks(c, n) then m[o].link + scope
                else if o in SpineLinks(c, n) then Mark(m[o].link, scope)
                else m[o].link
    {
    }
  }

  /** What is known of the masks before and after an insertion. */
  ghost predicate Inserting(m: Masks, m': Masks, t: Tree, n: Node, scope: Scope) {
    && WF(t) && Insertable(t, n) && Masked(m, t) && Masked(m', t)
    && LinkMasks(m, m', t, n, scope) && LeafMasks(m, m', t) && NewMasks(m', t, n, scope)
  }

  lemma InsertingBelow(m: Masks, m': Masks, t: Tree, n: Node, scope: Scope)
    requires Inserting(m, m', t, n, scope) && !Stops(t, n.code)
    ensures t.Link? && Inserting(m, m', Below(t, n), n, scope) && m'[t.o].link == m[t.o].link + scope
  {
    hide Radix, Insert, DescentLinks, SpineLinks, PlaceOf, Fits, Stops, LinkMasks, Shape, Insertable;
    DescentOnce(t, n);
    OnceMasks(m, m', t, n, scope);
  }

  /** What insertion does to the coverage of the new leaf, and of another one. */
  ghost predicate InsertCovering(m: Masks, m': Masks, t: Tree, n: Node, scope: Scope, x: Node)
    requires Inserting(m, m', t, n, scope)
  {
    && Masked(m', Insert(t, n))
    && (Covered(m', Insert(t, n), n) <==> Fits(m, t, n, scope))
    && (Covered(m, t, x) ==> Covered(m', Insert(t, n), x))
  }

  lemma CoveringAbove(m: Masks, m': Masks, t: Tree, n: Node, scope: Scope, x: Node)
    requires Inserting(m, m', t, n, scope) && !Stops(t, n.code) && x != n
    requires Inserting(m, m', Below(t, n), n, scope) && InsertCovering(m, m', Below(t, n), n, scope, x)
    requires m'[t.o].link == m[t.o].link + scope
    ensures InsertCovering(m, m', t, n, scope, x)
  {
    hide Radix, Pos, Insert, DescentLinks, SpineLinks, PlaceOf, Fits, Stops, LinkMasks, Shape, Covered;
    DescentOnce(t, n);
    LinkMasksGrow(m, m', t, n, scope);
    InsertInserts(Below(t, n), n);
    GrowCovered(m, m', t, n.code[Pos(t.o, t.bit)], Insert(Below(t, n), n), n, x);
  }

  /** A branch of t grew by the leaf of n, with whose scope t was marked. */
  lemma GrowCovered(m: Masks, m': Masks, t: Tree, side: bool, c: Tree, n: Node, x: Node)
    requires t.Link? && Masked(m, t) && Masked(m', t) && LeafMasks(m, m', t) && n !in LeafSet(t) && n in m' && x != n
    requires forall o | o in Links(t) :: m[o].link <= m'[o].link
    requires m'[t.o].link == m[t.o].link + m'[n].leaf
    requires Masked(m', c) && LeafSet(c) == LeafSet(t.Child(side)) + {n}
    requires Covered(m, t.Child(side), x) ==> Covered(m', c, x)
    ensures var u := if side then t.(r := c) else t.(l := c);
            && Masked(m', u)
            && (Covered(m', u, n) <==> Covered(m', c, n))
            && (Covered(m, t, x) ==> Covered(m', u, x))
  {
    var d := t.Child(!side);
    NotThere(m', d, n);
    if Covered(m, t, x) {
      if x in LeafSet(t) {
        CoveredFrame(m, m', d, x);
      }
    }
  }

  /** Insertion keeps every covered leaf covered, and covers the new one exactly if
      its scope fits, whatever else is covered. */
  lemma {:induction false} InsertCovers(m: Masks, m': Masks, t: Tree, n: Node, scope: Scope, x: Node)
    requires Inserting(m, m', t, n, scope) && x != n
    ensures Masked(m', Insert(t, n))
    ensures Covered(m', Insert(t, n), n) <==> Fits(m, t, n, scope)
    ensures Covered(m, t, x) ==> Covered(m', Insert(t, n), x)
    decreases t
  {
    hide Radix, Pos, Insert, DescentLinks, SpineLinks, PlaceOf, Fits, Stops, LinkMasks, Shape, Insertable, Covered, NewMasks;
    if Stops(t, n.code) {
      StopCovered(m, m', t, n, scope, x);
    } else {
      InsertingBelow(m, m', t, n, scope);
      InsertCovers(m, m', Below(t, n), n, scope, x);
      CoveringAbove(m, m', t, n, scope, x);
    }
  }

  // ----- the code of the descent

  /** What the descent marks, level by level. */
  ghost function PathLinks(t: Tree, path: Path): set<Node>
    requires ValidPath(t, path)
  {
    if path == [] then {} else {t.o} + PathLinks(t.Child(path[0]), path[1..])
  }

  lemma {:induction false} PathLinksDown(t: Tree, path: Path, side: bool)
    requires ValidPath(t, path) && At(t, path).Link? && ValidPath(t, path + [side])
    ensures PathLinks(t, path + [side]) == PathLinks(t, path) + {At(t, path).o}
  {
    if path == [] {
      assert (path + [side])[1..] == [];
    } else {
      assert (path + [side])[1..] == path[1..] + [side];
      PathLinksDown(t.Child(path[0]), path[1..], side);
    }
  }

  lemma DescendingOnce(t: Tree, path: Path, n: Node)
    requires Descending(t, path, n) && path != []
    ensures !Stops(t, n.code) && Below(t, n) == t.Child(path[0]) && Descending(Below(t, n), path[1..], n)
  {
    HeadIsLeaf(t);
    DiffAtLeast(n.code, t.o.code, Pos(t.o, t.bit));
    DescentSide(t, n);
  }

  /** Where the descent ends, in terms of the tree. */
  lemma {:induction false} DescentEnds(t: Tree, path: Path, n: Node)
    requires Descending(t, path, n) && Stops(At(t, path), n.code)
    ensures var s := At(t, path);
            && DescentLinks(t, n) == PathLinks(t, path) + (if s.Link? then {s.o} else {})
            && SpineLinks(t, n) == (if s.Link? && s.o.code == n.code then Spine(s) else {})
            && PlaceOf(t, n) == (if s.Link? && s.o.code == n.code then DupPlace(s, n) else s)
  {
    if path != [] {
      hide Radix, Shape, DescentLinks, SpineLinks, PlaceOf, Insert;
      DescendingOnce(t, path, n);
      DescentOnce(t, n);
      DescentEnds(t.Child(path[0]), path[1..], n);
    }
  }

  /** Extends the mask of a link, which no tree pointer depends on. */
  method MarkLink(cur: Node, scope: Scope, ghost S: set<Node>)
    modifies cur`nodeS
    ensures cur.nodeS == old(cur.nodeS) + scope && Snap(S) == old(Snap(S))
  {
    cur.nodeS := cur.nodeS + scope;
  }

  /** What the descent does to the masks. */
  ghost predicate Descended(m: Masks, m1: Masks, t: Tree, n: Node, scope: Scope) {
    && WF(t) && Insertable(t, n) && m1.Keys == m.Keys
    && forall x | x in m ::
         m1[x] == Mask(if x in DescentLinks(t, n) then m[x].link + scope else m[x].link, m[x].leaf)
  }

  /** The descent of eb32sc_insert(), which marks every link it sees. */
  method DescendSc(tree: EbRoot, n: Node, scope: Scope) returns (at: Node, side: bool, troot: Branch, ghost path: Path)
    requires tree.Valid() && AllU32(tree.T) && IsU32(n) && n !in tree.Repr() && tree.T.Full?
    modifies tree.Repr()`nodeS
    ensures Snap(tree.Repr()) == old(Snap(tree.Repr()))
    ensures DescentAt(tree.root, tree.T.t, path, n, at, side, troot) && Stops(At(tree.T.t, path), n.code)
    ensures Descended(old(SnapMasks(tree.Repr())), SnapMasks(tree.Repr()), tree.T.t, n, scope)
  {
    hide Rep, Radix, Shape, RepTop, Links, LeafSet, Route, Code32, DescentLinks, Insertable, Diff, Anchor, Stops, Descending, WF, NoDups, EbRoot.Valid, Descended;
    ghost var S := tree.Repr();
    ghost var masks, seen := SnapMasks(S), {};
    DescentBegins(tree, n);
    at, side, troot, path, seen := DescendMarking(tree.root, tree.root.b.l, n, scope, tree.T.t, S);
    DescentEnds(tree.T.t, path, n);
    DescentIsFor(tree.T.t, path, n);
    DescentMarked(masks, SnapMasks(S), tree.T.t, n, scope, seen);
  }

  method DescendMarking(root: Node, top: Branch, n: Node, scope: Scope, ghost t: Tree, ghost S: set<Node>)
    returns (at: Node, side: bool, troot: Branch, ghost path: Path, ghost seen: set<Node>)
    requires RepTop(Snap(S), root, Full(t)) && LeafSet(t) <= S && AllU32(Full(t)) && IsU32(n)
    requires DescentAt(root, t, [], n, root, LEFT, top)
    modifies S`nodeS
    ensures Snap(S) == old(Snap(S))
    ensures DescentAt(root, t, path, n, at, side, troot) && Stops(At(t, path), n.code)
    ensures seen == PathLinks(t, path) + (if At(t, path).Link? then {At(t, path).o} else {})
    ensures forall x | x in S :: x.nodeS == if x in seen then old(x.nodeS) + scope else old(x.nodeS)
  {
    hide Rep, Radix, Shape, RepTop, Links, LeafSet, Route, Code32, Insertable, Diff, Anchor, Stops, PathLinks, Descending, WF, NoDups;
    ghost var m := Snap(S);
    at, side, path, troot, seen := root, LEFT, [], top, {};
    NoLinksAbove(t);
    while true
      invariant Snap(S) == m && DescentAt(root, t, path, n, at, side, troot) && seen == PathLinks(t, path)
      invariant forall x | x in S :: x.nodeS == if x in seen then old(x.nodeS) + scope else old(x.nodeS)
      decreases At(t, path)
    {
      DescentReads(m, root, t, path, n, at, side, troot);
      StopsAt(At(t, path), n.code);
      if troot.LeafOf? {
        return;
      }
      var cur := troot.n;
      assert m[cur].bit == cur.bit && m[cur].b == cur.b;
      MarkLink(cur, scope, S);
      seen := seen + {cur};
      if cur.bit < 0 || Shr(Xor(n.key.k, cur.key.k), cur.bit) >= 2 {
        return;
      }
      DescentDown(root, t, path, n, at, side, troot);
      PathLinksDown(t, path, Shr(n.key.k, cur.bit) % 2 == 1);
      at := cur;
      side := Shr(n.key.k, cur.bit) % 2 == 1;
      troot := at.b.At(side);
      path := path + [side];
    }
  }

  lemma DescentMarked(m: Masks, m1: Masks, t: Tree, n: Node, scope: Scope, seen: set<Node>)
    requires WF(t) && Insertable(t, n) && seen == DescentLinks(t, n) && m1.Keys == m.Keys
    requires forall x | x in m :: m1[x].link == if x in seen then m[x].link + scope else m[x].link
    requires forall x | x in m :: m1[x].leaf == m[x].leaf
    ensures Descended(m, m1, t, n, scope)
  {
    hide WF, Insertable, DescentLinks;
  }

  lemma DescentIsFor(t: Tree, path: Path, n: Node)
    requires Descending(t, path, n)
    ensures WF(t) && Insertable(t, n)
  {
  }

  lemma NoLinksAbove(t: Tree)
    ensures PathLinks(t, []) == {}
  {
  }

  // ----- the code of insertion into a duplicate tree

  /** From u down to h along right branches, every link is owned by one of w. */
  ghost predicate Chain(u: Tree, h: Tree, w: set<Node>) {
    u == h || (u.Link? && u.o in w && Chain(u.r, h, w))
  }

  lemma {:induction false} ChainDown(u: Tree, h: Tree, w: set<Node>, w': set<Node>)
    requires Chain(u, h, w) && h.Link? && w <= w' && h.o in w'
    ensures Chain(u, h.r, w')
  {
    if u != h {
      ChainDown(u.r, h, w, w');
    }
  }

  /** Two links of a chain have different owners. */
  lemma {:induction false} ChainOwner(u: Tree, h: Tree, w: set<Node>)
    requires Chain(u, h, w) && h.Link? && Shape(u)
    ensures u.Link? && h.o in Links(u) && (u.o == h.o <==> u == h)
  {
    if u != h {
      ChainOwner(u.r, h, w);
    }
  }

  /** The search of eb32sc_insert_dup() stands at hp, with the deepest hole at sp. */
  ghost predicate HoleSearch(t: Tree, p0: Path, hp: Path, sp: Path, n: Node, seen: set<Node>) {
    && DupSearch(t, p0, hp, sp, n)
    && DupPlace(At(t, p0), n) == (if Fill(At(t, hp), n).Some? then FillPlace(At(t, hp), n) else At(t, sp))
    && Spine(At(t, p0)) == seen + Spine(At(t, hp)) && seen !! Spine(At(t, hp))
    && Chain(At(t, sp), At(t, hp), seen + {At(t, p0).o}) && At(t, hp).o in seen + {At(t, p0).o}
    && Shape(At(t, sp)) && Shape(At(t, hp))
  }

  lemma HoleSearchStart(t: Tree, p0: Path, n: Node)
    requires ValidPath(t, p0) && At(t, p0).Link? && Shape(At(t, p0))
    ensures HoleSearch(t, p0, p0, p0, n, {})
  {
    DupSearchStart(t, p0, n);
  }

  lemma HoleSearchStep(t: Tree, p0: Path, hp: Path, sp: Path, n: Node, seen: set<Node>)
    requires HoleSearch(t, p0, hp, sp, n, seen) && At(t, hp).r.Link?
    ensures var h, hp' := At(t, hp), hp + [RIGHT];
            && ValidPath(t, hp') && At(t, hp') == h.r && h.r.o !in seen && Shape(At(t, sp))
            && Chain(At(t, sp), h.r, seen + {At(t, p0).o}) && At(t, sp) != h.r
            && HoleSearch(t, p0, hp', if h.r.bit > h.bit + 1 then hp' else sp, n, seen + {h.r.o})
  {
    hide Fill, InsertDup;
    var h := At(t, hp);
    DupSearchStep(t, p0, hp, sp, n);
    ChainOwner(At(t, sp), h, seen + {At(t, p0).o});
    ChainDown(At(t, sp), h, seen + {At(t, p0).o}, seen + {At(t, p0).o});
    ChainDown(At(t, sp), h, seen + {At(t, p0).o}, seen + {h.r.o} + {At(t, p0).o});
    SpineInside(h.r);
    HolePlace(h, n);
    assert Shape(h.r) && h.r.o !in Links(h.r.r);
    assert Spine(h) == {h.r.o} + Spine(h.r);
  }

  lemma HolePlace(h: Tree, n: Node)
    requires h.Link? && h.r.Link?
    ensures Fill(h.r, n).Some? ==> Fill(h, n).Some? && FillPlace(h, n) == FillPlace(h.r, n)
    ensures Fill(h.r, n).None? ==> (Fill(h, n).Some? <==> h.r.bit > h.bit + 1)
    ensures Fill(h.r, n).None? && Fill(h, n).Some? ==> FillPlace(h, n) == h.r
  {
  }

  method MarkIfApart(cur: Node, scope: Scope, ghost S: set<Node>)
    modifies cur`nodeS
    ensures cur.nodeS == Mark(old(cur.nodeS), scope) && Snap(S) == old(Snap(S))
  {
    if cur.nodeS * scope == {} {
      cur.nodeS := cur.nodeS + scope;
    }
  }

  /** The inner loop, which goes from sub down to head again. The links on its way
      have been marked already, so that it changes nothing. */
  method MarkAgain(sub0: Node, head: Node, scope: Scope,
                   ghost root: Node, ghost t: Tree, ghost sp: Path, ghost h: Tree, ghost w: set<Node>, ghost S: set<Node>)
    returns (sub: Node)
    requires S == {root} + LeafSet(t) && RepTop(Snap(S), root, Full(t)) && Shape(t)
    requires ValidPath(t, sp) && At(t, sp).Link? && At(t, sp).o == sub0 && h.Link? && h.o == head && At(t, sp) != h
    requires Chain(At(t, sp), h, w) && Shape(At(t, sp))
    requires forall x | x in w && x in S :: Mark(x.nodeS, scope) == x.nodeS
    modifies S`nodeS
    ensures Snap(S) == old(Snap(S)) && forall x | x in S :: x.nodeS == old(x.nodeS)
    ensures sub == head
  {
    hide Rep, Shape, RepTop, Links, LeafSet, Chain, Mark;
    sub := sub0;
    ghost var p, m := sp, Snap(S);
    while true
      invariant Snap(S) == m && (forall x | x in S :: x.nodeS == old(x.nodeS))
      invariant ValidPath(t, p) && At(t, p).Link? && At(t, p).o == sub && Shape(At(t, p))
      invariant Chain(At(t, p), h, w) && At(t, p) != h
      decreases At(t, p)
    {
      Reads(m, root, t, p);
      assert m[sub].b == sub.b;
      PathDown(t, NoParent, p, RIGHT);
      ChainNext(At(t, p), h, w);
      MarkIfApart(sub, scope, S);
      sub := sub.b.r.n;
      p := p + [RIGHT];
      if sub == head {
        break;
      }
    }
  }

  lemma ChainNext(u: Tree, h: Tree, w: set<Node>)
    requires Chain(u, h, w) && u != h && h.Link? && Shape(u)
    ensures u.Link? && u.o in w && u.r.Link? && Chain(u.r, h, w) && Shape(u.r) && (u.r.o == h.o <==> u.r == h)
  {
    ChainOwner(u.r, h, w);
  }

  lemma MarkTwice(mask: Scope, scope: Scope)
    ensures Mark(Mark(mask, scope), scope) == Mark(mask, scope)
    ensures scope <= mask ==> Mark(mask, scope) == mask
  {
  }

  /** The search for the deepest hole, which marks the links it sees. */
  method SearchHole(sub0: Node, n: Node, scope: Scope, ghost root: Node, ghost t: Tree, ghost p0: Path, ghost S: set<Node>)
    returns (head: Node, sub: Node, ghost hp: Path, ghost sp: Path, ghost seen: set<Node>)
    requires S == {root} + LeafSet(t) && RepTop(Snap(S), root, Full(t)) && Shape(t)
    requires ValidPath(t, p0) && At(t, p0).Link? && At(t, p0).o == sub0 && Shape(At(t, p0)) && scope <= sub0.nodeS
    modifies S`nodeS
    ensures Snap(S) == old(Snap(S)) && head in S && sub in S
    ensures HoleSearch(t, p0, hp, sp, n, seen) && At(t, hp).r.Leaf? && At(t, hp).o == head && At(t, sp).o == sub
    ensures forall x | x in S :: x.nodeS == if x in Spine(At(t, p0)) then Mark(old(x.nodeS), scope) else old(x.nodeS)
  {
    hide Rep, Shape, RepTop, InsertDup, Fill, Links, LeafSet, Chain, Spine, Mark, DupPlace;
    head, sub, hp, sp, seen := sub0, sub0, p0, p0, {};
    ghost var m := Snap(S);
    HoleSearchStart(t, p0, n);
    Reads(m, root, t, p0);
    TopNotOnSpine(At(t, p0));
    while head.b.r.LinkOf?
      invariant Snap(S) == m && HoleSearch(t, p0, hp, sp, n, seen)
      invariant head in S && sub in S && At(t, hp).o == head && At(t, sp).o == sub
      invariant head.bit == At(t, hp).bit && head.b.r == Ref(At(t, hp).r)
      invariant forall x | x in S :: x.nodeS == if x in seen then Mark(old(x.nodeS), scope) else old(x.nodeS)
      decreases At(t, hp)
    {
      var last := head;
      head := head.b.r.n;
      HoleSearchStep(t, p0, hp, sp, n, seen);
      ghost var h := At(t, hp).r;
      hp := hp + [RIGHT];
      Reads(m, root, t, hp);
      assert m[head].b == head.b && m[head].bit == head.bit;
      if head.bit > last.bit + 1 {
        forall x | x in seen + {sub0} && x in S
          ensures Mark(x.nodeS, scope) == x.nodeS
        {
          MarkTwice(old(x.nodeS), scope);
        }
        sub := MarkAgain(sub, head, scope, root, t, sp, h, seen + {sub0}, S);
        sp := hp;
      }
      MarkIfApart(head, scope, S);
      seen := seen + {h.o};
    }
    SpineEnds(At(t, hp));
  }

  lemma SpineEnds(h: Tree)
    requires h.Link? && h.r.Leaf?
    ensures Spine(h) == {}
  {
  }

  lemma TopNotOnSpine(s: Tree)
    requires s.Link? && Shape(s)
    ensures s.o !in Spine(s)
  {
    SpineInside(s);
  }

  /** Where the search ends. */
  lemma HoleSearchEnd(t: Tree, up: Parent, p0: Path, hp: Path, sp: Path, n: Node, seen: set<Node>)
    requires HoleSearch(t, p0, hp, sp, n, seen) && At(t, hp).r.Leaf?
    ensures var h, dup := At(t, hp), Put(t, p0, InsertDup(At(t, p0), n));
            && ValidPath(t, hp + [RIGHT]) && At(t, hp + [RIGHT]) == h.r && Anchor(t, up, hp + [RIGHT]) == Up(h.o, RIGHT)
            && (h.bit < -1 ==> DupPlace(At(t, p0), n) == h.r && dup == Put(t, hp + [RIGHT], Cap(h.r, n, -1, RIGHT)))
            && (h.bit >= -1 ==>
                  DupPlace(At(t, p0), n) == At(t, sp) && dup == Put(t, sp, Cap(At(t, sp), n, At(t, sp).bit - 1, RIGHT)))
  {
    DupSearchEnd(t, up, p0, hp, sp, n);
  }

  /** The mask of a subtree, as the code reads it. */
  lemma TopMaskIs(m: Masks, s: Tree)
    requires Masked(m, s) && Head(s) in m
    ensures TopMask(m, s) == if s.Leaf? then m[Head(s)].leaf else m[Head(s)].link
  {
  }

  lemma MaskedAt(t: Tree, path: Path, S: set<Node>)
    requires Shape(t) && ValidPath(t, path) && LeafSet(t) <= S
    ensures LeafSet(At(t, path)) <= S && Links(At(t, path)) <= S && Head(At(t, path)) in S
  {
    LinksAreLeaves(t);
    SetsAt(t, path);
    HeadInside(At(t, path));
  }

  /** n is linked above the subtree at path, whose mask it takes with its own scope. */
  method InsertAboveSc(parent: Node, side: bool, below: Branch, n: Node, bit: int, right: bool, scope: Scope,
                       ghost root: Node, ghost t: Tree, ghost path: Path, ghost S: set<Node>)
    requires S == {root} + LeafSet(t) && n !in S && RepTop(Snap(S), root, Full(t)) && Shape(t)
    requires ValidPath(t, path) && below == Ref(At(t, path)) && Up(parent, side) == Anchor(t, Up(root, LEFT), path)
    modifies S`b, S`nodeP, S`leafP, n`b, n`nodeP, n`leafP, n`bit, n`nodeS
    ensures RepTop(Snap(S + {n}), root, Full(Put(t, path, Cap(At(t, path), n, bit, right))))
    ensures root.b.r == old(root.b.r) && SnapMasks(S) == old(SnapMasks(S))
    ensures LeafSet(At(t, path)) <= S && Links(At(t, path)) <= S
    ensures n.nodeS == TopMask(SnapMasks(S), At(t, path)) + scope
  {
    hide Rep, Shape, Links, LeafSet, RepTop, Anchor;
    ghost var s, m, masks := At(t, path), Snap(S), SnapMasks(S);
    MaskedAt(t, path, S);
    TopMaskIs(masks, s);
    var mask := BranchMask(below);
    assert mask == TopMask(masks, s);
    n.nodeS := mask + scope;
    assert Snap(S) == m;
    InsertAbove(parent, side, below, n, bit, right, root, t, path, S);
    assert SnapMasks(S) == masks;
  }

  /** eb32sc_insert_dup(): adds n to the duplicate tree below the link of sub0. */
  method InsertDupSc(sub0: Node, n: Node, scope: Scope, ghost root: Node, ghost t: Tree, ghost p0: Path, ghost S: set<Node>)
    requires S == {root} + LeafSet(t) && n !in S && RepTop(Snap(S), root, Full(t)) && WF(t)
    requires ValidPath(t, p0) && At(t, p0).Link? && At(t, p0).o == sub0 && scope <= sub0.nodeS
    modifies S`b, S`nodeP, S`leafP, S`nodeS, n`b, n`nodeP, n`leafP, n`bit, n`nodeS
    ensures RepTop(Snap(S + {n}), root, Full(Put(t, p0, InsertDup(At(t, p0), n)))) && root.b.r == old(root.b.r)
    ensures forall x | x in S :: x.nodeS == if x in Spine(At(t, p0)) then Mark(old(x.nodeS), scope) else old(x.nodeS)
    ensures var s := DupPlace(At(t, p0), n);
            LeafSet(s) <= S && Links(s) <= S && n.nodeS == TopMask(SnapMasks(S), s) + scope
  {
    hide Rep, Radix, Shape, RepTop, InsertDup, Fill, Links, LeafSet, Spine, Mark, DupPlace, HoleSearch, DupSearch, WF, TopMask;
    RadixAt(t, p0);
    BothHold(t, At(t, p0));
    var head, sub, hp, sp, seen := SearchHole(sub0, n, scope, root, t, p0, S);
    ghost var m := Snap(S);
    HoleReads(m, root, t, p0, hp, sp, n, seen);
    ghost var masks := SnapMasks(S);
    if head.bit < -1 {
      InsertAboveSc(head, RIGHT, head.b.r, n, -1, RIGHT, scope, root, t, hp + [RIGHT], S);
    } else {
      InsertAboveSc(sub.nodeP.n, sub.nodeP.side, LinkOf(sub), n, sub.bit - 1, RIGHT, scope, root, t, sp, S);
    }
    assert forall x | x in S :: masks[x].link == SnapMasks(S)[x].link;
  }

  lemma BothHold(t: Tree, s: Tree)
    requires WF(t) && WF(s)
    ensures Shape(t) && Shape(s)
  {
  }

  lemma HoleReads(m: Memory, root: Node, t: Tree, p0: Path, hp: Path, sp: Path, n: Node, seen: set<Node>)
    requires RepTop(m, root, Full(t)) && Shape(t) && HoleSearch(t, p0, hp, sp, n, seen) && At(t, hp).r.Leaf?
    ensures ValidPath(t, sp)
    ensures var h, s, dup := At(t, hp), At(t, sp), Put(t, p0, InsertDup(At(t, p0), n));
            && ValidPath(t, hp + [RIGHT]) && At(t, hp + [RIGHT]) == h.r && Anchor(t, Up(root, LEFT), hp + [RIGHT]) == Up(h.o, RIGHT)
            && h.o in m && m[h.o].bit == h.bit && m[h.o].b.r == Ref(h.r) && Ref(h.r) == LeafOf(Head(h.r))
            && s.o in m && m[s.o].bit == s.bit && m[s.o].nodeP == Anchor(t, Up(root, LEFT), sp) && m[s.o].nodeP.Up?
            && Ref(s) == LinkOf(s.o) && Head(s) == s.o
            && (h.bit < -1 ==> DupPlace(At(t, p0), n) == h.r && dup == Put(t, hp + [RIGHT], Cap(h.r, n, -1, RIGHT)))
            && (h.bit >= -1 ==> DupPlace(At(t, p0), n) == s && dup == Put(t, sp, Cap(s, n, s.bit - 1, RIGHT)))
  {
    hide Rep, RepTop, InsertDup, Fill, Spine, Shape;
    HoleSearchEnd(t, Up(root, LEFT), p0, hp, sp, n, seen);
    Reads(m, root, t, hp);
    Reads(m, root, t, sp);
  }

  // ----- the code of insertion

  /** What the rest of the insertion does to the masks. */
  ghost predicate Placed(m1: Masks, m': Masks, t: Tree, n: Node, scope: Scope) {
    && WF(t) && Insertable(t, n) && n !in m1 && m'.Keys == m1.Keys + {n}
    && (forall x | x in m1 ::
          m'[x] == Mask(if x in SpineLinks(t, n) then Mark(m1[x].link, scope) else m1[x].link, m1[x].leaf))
    && LeafSet(PlaceOf(t, n)) <= m1.Keys && Links(PlaceOf(t, n)) <= m1.Keys
    && m'[n] == Mask(TopMask(m', PlaceOf(t, n)) + scope, scope)
  }

  lemma PlacedFrom(m1: Masks, m: Masks, m': Masks, t: Tree, n: Node, scope: Scope)
    requires WF(t) && Insertable(t, n) && n !in m1 && m.Keys == m1.Keys && m'.Keys == m1.Keys + {n}
    requires forall x | x in m1 :: m'[x] == m[x] && m[x].leaf == m1[x].leaf
    requires forall x | x in m1 :: m[x].link == if x in SpineLinks(t, n) then Mark(m1[x].link, scope) else m1[x].link
    requires LeafSet(PlaceOf(t, n)) <= m1.Keys && Links(PlaceOf(t, n)) <= m1.Keys
    requires m'[n] == Mask(TopMask(m, PlaceOf(t, n)) + scope, scope)
    ensures Placed(m1, m', t, n, scope)
  {
    hide WF, Insertable, SpineLinks, PlaceOf, Mark;
    assert TopMask(m', PlaceOf(t, n)) == TopMask(m, PlaceOf(t, n));
  }

  method PlaceLink(at: Node, side: bool, troot: Branch, n: Node, same: bool, bit: int, right: bool, scope: Scope,
                   ghost root: Node, ghost t: Tree, ghost path: Path, ghost S: set<Node>)
    requires S == {root} + LeafSet(t) && n !in S && RepTop(Snap(S), root, Full(t))
    requires DescentAt(root, t, path, n, at, side, troot) && Placing(At(t, path), n, same, bit, right)
    requires At(t, path).Link? ==> At(t, path).o in S && scope <= At(t, path).o.nodeS
    modifies S`b, S`nodeP, S`leafP, S`nodeS, n`b, n`nodeP, n`leafP, n`bit, n`nodeS
    ensures RepTop(Snap(S + {n}), root, Full(Insert(t, n))) && root.b.r == old(root.b.r)
    ensures forall x | x in S :: x.nodeS == if x in SpineLinks(t, n) then Mark(old(x.nodeS), scope) else old(x.nodeS)
    ensures LeafSet(PlaceOf(t, n)) <= S && Links(PlaceOf(t, n)) <= S
    ensures n.nodeS == TopMask(SnapMasks(S), PlaceOf(t, n)) + scope
  {
    hide Rep, Radix, Shape, Links, LeafSet, RepTop, InsertDup, Fill, Route, Anchor, Insertable, SpineLinks, PlaceOf, DescentLinks, Mark, TopMask, Spine, PathLinks;
    InsertBelow(t, path, n);
    DescentEnds(t, path, n);
    ghost var masks := SnapMasks(S);
    if same && troot.LinkOf? {
      InsertDupSc(troot.n, n, scope, root, t, path, S);
    } else {
      InsertAboveSc(at, side, troot, n, if same then -1 else bit, if same then RIGHT else right, scope, root, t, path, S);
      assert forall x | x in S :: masks[x].link == SnapMasks(S)[x].link;
    }
  }

  /** The end of eb32sc_insert(): n is put where the descent stopped. */
  method PlaceSc(at: Node, side: bool, troot: Branch, n: Node, same: bool, bit: int, right: bool, scope: Scope,
                 ghost root: Node, ghost t: Tree, ghost path: Path, ghost S: set<Node>)
    requires S == {root} + LeafSet(t) && n !in S && RepTop(Snap(S), root, Full(t))
    requires DescentAt(root, t, path, n, at, side, troot) && Placing(At(t, path), n, same, bit, right)
    requires At(t, path).Link? ==> At(t, path).o in S && scope <= At(t, path).o.nodeS
    modifies S`b, S`nodeP, S`leafP, S`nodeS, n`b, n`nodeP, n`leafP, n`bit, n`nodeS, n`leafS
    ensures RepTop(Snap(S + {n}), root, Full(Insert(t, n))) && root.b.r == old(root.b.r)
    ensures Placed(old(SnapMasks(S)), SnapMasks(S + {n}), t, n, scope)
  {
    hide Rep, Radix, Shape, Links, LeafSet, RepTop, Route, Anchor, Insertable, SpineLinks, PlaceOf, Mark, TopMask, Placed, Placing, Insert, Stops, WF;
    DescentIsFor(t, path, n);
    ghost var m, m1 := Snap(S), SnapMasks(S);
    n.leafS := scope;
    assert Snap(S) == m;
    PlaceLink(at, side, troot, n, same, bit, right, scope, root, t, path, S);
    PlacedFrom(m1, SnapMasks(S), SnapMasks(S + {n}), t, n, scope);
  }

  /** When n is covered once it is inserted with the given scope. */
  ghost predicate FitsTop(m: Masks, tt: Top, n: Node, scope: Scope) {
    tt.Full? ==> WF(tt.t) && Insertable(tt.t, n) && Masked(m, tt.t) && Fits(m, tt.t, n, scope)
  }

  /** What an insertion does to the coverage of a whole tree. */
  ghost predicate InsertCoversTop(m: Masks, tt: Top, m': Masks, tt': Top, n: Node, scope: Scope) {
    && KeepsCovered(m, tt, m', tt')
    && (CoveredIn(m', tt', n) <==> FitsTop(m, tt, n, scope))
    && (CoversAll(m, tt) ==> (CoversAll(m', tt') <==> FitsTop(m, tt, n, scope)))
    && (|scope| <= 1 ==> FitsTop(m, tt, n, scope))
  }

  lemma InsertCoversAll(m: Masks, m': Masks, t: Tree, n: Node, scope: Scope)
    requires Inserting(m, m', t, n, scope)
    ensures Masked(m', Insert(t, n)) && InsertCoversTop(m, Full(t), m', Full(Insert(t, n)), n, scope)
  {
    hide Radix, Shape, Insert, Fits, Covered, Inserting, Links, LeafSet, Masked, WF, Insertable;
    InsertingMeans(m, m', t, n, scope);
    InsertInserts(t, n);
    var u := Insert(t, n);
    forall x | x in LeafSet(t)
      ensures Masked(m', u) && (Covered(m', u, n) <==> Fits(m, t, n, scope)) && (Covered(m, t, x) ==> Covered(m', u, x))
    {
      assert x != n by { NotItself(t, n, x); }
      InsertCovers(m, m', t, n, scope, x);
    }
    if |scope| <= 1 {
      SingleBitFits(m, t, n, scope);
    }
    var y :| y in LeafSet(t);
  }

  lemma NotItself(t: Tree, n: Node, x: Node)
    requires Insertable(t, n) && x in LeafSet(t)
    ensures x != n
  {
  }

  /** What insertion leaves behind. */
  lemma AfterInsert(tree: EbRoot, t: Tree, n: Node, m: Masks, m': Masks, scope: Scope, S: set<Node>)
    requires AllU32(Full(t)) && IsU32(n) && S == {tree.root} + LeafSet(t) && m.Keys == S && n !in S
    requires WF(t) && Insertable(t, n) && Masked(m, t) && m' == InsertMasks(m, t, n, scope)
    requires m' == SnapMasks(S + {n}) && tree.T == Full(Insert(t, n)) && !tree.Unique()
    requires RepTop(Snap(S + {n}), tree.root, Full(Insert(t, n)))
    ensures tree.Valid() && AllU32(tree.T) && n.leafS == scope && SnapMasks(tree.Repr()) == m'
    ensures InsertCoversTop(m, Full(t), m', tree.T, n, scope)
  {
    hide Radix, Shape, Insert, Rep, RepTop, Covered, Code32, Inserting, NoDups, Links, LeafSet, InsertCoversTop, InsertMasks, Insertable;
    MasksInserted(m, t, n, scope);
    InsertingMeans(m, m', t, n, scope);
    InsertInserts(t, n);
    InsertCoversAll(m, m', t, n, scope);
    assert tree.Repr() == S + {n};
    assert m'[n].leaf == n.leafS;
  }

  lemma InsertingMeans(m: Masks, m': Masks, t: Tree, n: Node, scope: Scope)
    requires Inserting(m, m', t, n, scope)
    ensures WF(t) && Insertable(t, n) && Masked(m, t) && n in m' && m'[n].leaf == scope
  {
  }

  /** The masks which the descent and the search for a hole leave behind. */
  lemma InsertedMasks(m: Masks, m1: Masks, m': Masks, t: Tree, n: Node, scope: Scope)
    requires Masked(m, t) && Descended(m, m1, t, n, scope) && Placed(m1, m', t, n, scope)
    ensures m' == InsertMasks(m, t, n, scope)
  {
    hide Radix, DescentLinks, SpineLinks, PlaceOf, Insertable, Mark, Links, LeafSet, Shape;
    var w := WayMasks(m, t, n, scope);
    forall x | x in m
      ensures m'[x] == w[x]
    {
      if x in DescentLinks(t, n) {
        MarkTwice(m1[x].link, scope);
      }
    }
    PlaceInside(t, n);
    TopMaskKept(w, m', PlaceOf(t, n));
  }

  lemma TopMaskKept(m: Masks, m': Masks, s: Tree)
    requires Masked(m, s) && Masked(m', s) && forall x | x in m :: x in m' && m'[x] == m[x]
    ensures TopMask(m', s) == TopMask(m, s)
  {
  }

  /** The masks after an insertion are as they must be for it. */
  lemma MasksInserted(m: Masks, t: Tree, n: Node, scope: Scope)
    requires WF(t) && Insertable(t, n) && Masked(m, t) && n !in m
    ensures Inserting(m, InsertMasks(m, t, n, scope), t, n, scope)
  {
    hide Radix, DescentLinks, SpineLinks, PlaceOf, Insertable, Mark, Shape;
    PlaceInside(t, n);
    TopMaskKept(WayMasks(m, t, n, scope), InsertMasks(m, t, n, scope), PlaceOf(t, n));
  }

  /** The descent and the linking of eb32sc_insert(). */
  method LinkSc(tree: EbRoot, n: Node, scope: Scope)
    requires tree.Valid() && AllU32(tree.T) && IsU32(n) && n !in tree.Repr() && tree.T.Full?
    modifies tree.Repr()`b, tree.Repr()`nodeP, tree.Repr()`leafP, tree.Repr()`nodeS
    modifies n`b, n`nodeP, n`leafP, n`bit, n`nodeS, n`leafS
    ensures WFInsert(tree.T, Full(Insert(tree.T.t, n)), n)
    ensures RepTop(Snap(tree.Repr() + {n}), tree.root, Full(Insert(tree.T.t, n))) && tree.root.b.r == old(tree.root.b.r)
    ensures Masked(old(SnapMasks(tree.Repr())), tree.T.t)
    ensures SnapMasks(tree.Repr() + {n}) == InsertMasks(old(SnapMasks(tree.Repr())), tree.T.t, n, scope)
  {
    hide Rep, Radix, Shape, Links, LeafSet, RepTop, Code32, Insert, Placing, Route, Diff, Anchor, DescentLinks, Insertable, Leaves, FirstWith, NoDups, InsertMasks, Stops, Placed;
    ghost var t, root, S, m := tree.T.t, tree.root, tree.Repr(), SnapMasks(tree.Repr());
    TreeMasked(tree);
    var at, side, troot, path := DescendSc(tree, n, scope);
    ghost var m1 := SnapMasks(S);
    DescentReads(Snap(S), root, t, path, n, at, side, troot);
    StopInsert32(At(t, path), n);
    var cur := troot.n;
    var same := n.key.k == cur.key.k;
    var bit := if same then -1 else Fls(Xor(n.key.k, cur.key.k)) - 1;
    if troot.LinkOf? {
      StopMarked(m, m1, t, path, n, scope);
      assert m1[cur].link == cur.nodeS;
    }
    PlaceSc(at, side, troot, n, same, bit, n.key.k >= cur.key.k, scope, root, t, path, S);
    InsertedMasks(m, m1, SnapMasks(S + {n}), t, n, scope);
  }

  lemma StopMarked(m: Masks, m1: Masks, t: Tree, path: Path, n: Node, scope: Scope)
    requires Descended(m, m1, t, n, scope) && Descending(t, path, n) && Stops(At(t, path), n.code) && At(t, path).Link?
    requires At(t, path).o in m
    ensures scope <= m1[At(t, path).o].link
  {
    DescentEnds(t, path, n);
  }

  method InsertBelowRootSc(tree: EbRoot, n: Node, scope: Scope)
    requires tree.Valid() && AllU32(tree.T) && IsU32(n) && n !in tree.Repr() && tree.T.Full? && !tree.Unique()
    modifies tree`T, tree.Repr()`b, tree.Repr()`nodeP, tree.Repr()`leafP, tree.Repr()`nodeS
    modifies n`b, n`nodeP, n`leafP, n`bit, n`nodeS, n`leafS
    ensures tree.Valid() && AllU32(tree.T) && tree.root.b.r == old(tree.root.b.r)
    ensures WFInsert(old(tree.T), tree.T, n) && n.leafS == scope
    ensures Masked(old(SnapMasks(tree.Repr())), old(tree.T.t))
    ensures SnapMasks(tree.Repr()) == InsertMasks(old(SnapMasks(tree.Repr())), old(tree.T.t), n, scope)
    ensures InsertCoversTop(old(SnapMasks(tree.Repr())), old(tree.T), SnapMasks(tree.Repr()), tree.T, n, scope)
  {
    hide Rep, Radix, Shape, Links, LeafSet, RepTop, Covers, Code32, Insert, Ins, WF, Fits, Insertable, Leaves, FirstWith, NoDups, InsertMasks, EbRoot.Valid, InsertCoversTop;
    ghost var t, S, m := tree.T.t, tree.Repr(), SnapMasks(tree.Repr());
    LinkSc(tree, n, scope);
    tree.T := Full(Insert(t, n));
    AfterInsert(tree, t, n, m, SnapMasks(S + {n}), scope, S);
  }

  /** eb32sc_insert() */
  method InsertSc(tree: EbRoot, n: Node, scope: Scope) returns (r: Node)
    requires tree.Valid() && AllU32(tree.T) && IsU32(n) && n !in tree.Repr() && !tree.Unique()
    modifies tree`T, tree.Repr()`b, tree.Repr()`nodeP, tree.Repr()`leafP, tree.Repr()`nodeS
    modifies n`b, n`nodeP, n`leafP, n`bit, n`nodeS, n`leafS
    ensures r == n && tree.Valid() && AllU32(tree.T) && tree.root.b.r == old(tree.root.b.r)
    ensures WFInsert(old(tree.T), tree.T, n) && n.leafS == scope
    ensures old(tree.T.Full?) ==> Masked(old(SnapMasks(tree.Repr())), old(tree.T).t)
    ensures SnapMasks(tree.Repr()) ==
            if old(tree.T.Full?) then InsertMasks(old(SnapMasks(tree.Repr())), old(tree.T).t, n, scope)
            else old(SnapMasks(tree.Repr()))[n := Mask(scope, scope)]
    ensures InsertCoversTop(old(SnapMasks(tree.Repr())), old(tree.T), SnapMasks(tree.Repr()), tree.T, n, scope)
  {
    hide Rep, Radix, Shape, Code32, InsertMasks;
    if tree.root.b.l.Null? {
      EmptyTree(tree);
      n.nodeS, n.leafS := scope, scope;
      assert tree.Valid() by { ghost var m := Snap(tree.Repr()); assert m == old(Snap(tree.Repr())); }
      InsertFirst(tree, n);
    } else {
      FullTree(tree);
      InsertBelowRootSc(tree, n, scope);
    }
    r := n;
  }
}
