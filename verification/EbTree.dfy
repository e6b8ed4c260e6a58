/** The operations of ebtree.h which need no key, on real memory. */
module EbTree {
  import opened EbNodes
  import opened EbTrees
  import opened EbMemory
  import opened EbLists
  import opened EbRadix
  import opened EbDelete
  import opened EbDeleteMemory
  import opened EbInsert

  ghost function Members(tt: Top): set<Node> {
    if tt.Empty? then {} else LeafSet(tt.t)
  }

  /** A root together with the tree which the memory below it represents. */
  class EbRoot {
    const root: Node
    ghost var T: Top

    ghost function Repr(): set<Node>
      reads this
    {
      {root} + Members(T)
    }

    ghost predicate Valid()
      reads this, Repr()
    {
      WFTop(T) && RepTop(Snap(Repr()), root, T) && (Unique() && T.Full? ==> NoDups(T.t))
    }

    /** The entities in order. */
    ghost function Contents(): seq<Node>
      reads this
    {
      Entities(T)
    }

    predicate Unique()
      reads root
    {
      root.b.r == Null(true)
    }

    constructor (unique: bool)
      ensures Valid() && fresh(root) && T == Empty && Unique() == unique
    {
      var r := new Node(U32(0), []);
      r.b := Branches(Null(false), Null(unique));
      root := r;
      T := Empty;
    }
  }

  /** The first insertion: the leaf hangs on the root, its link part is unused. */
  method InsertFirst(tree: EbRoot, n: Node)
    requires tree.Valid() && tree.T.Empty? && n != tree.root
    modifies tree`T, tree.root`b, n`leafP, n`nodeP
    ensures tree.Valid() && tree.T == Full(Leaf(n)) && tree.root.b.r == old(tree.root.b.r)
  {
    tree.root.b := tree.root.b.With(LEFT, LeafOf(n));
    n.leafP := Up(tree.root, LEFT);
    n.nodeP := NoParent;
    tree.T := Full(Leaf(n));
    assert Snap(tree.Repr())[n].leafP == n.leafP;
  }

  lemma EmptyTree(tree: EbRoot)
    requires tree.Valid() && tree.root.b.l.Null?
    ensures tree.T == Empty && tree.Contents() == []
  {
    assert Snap(tree.Repr())[tree.root].b == tree.root.b;
  }

  lemma FullTree(tree: EbRoot)
    requires tree.Valid() && !tree.root.b.l.Null?
    ensures tree.T.Full? && tree.root.b.l == Ref(tree.T.t) && WF(tree.T.t)
    ensures RepTop(Snap(tree.Repr()), tree.root, Full(tree.T.t))
  {
    assert Snap(tree.Repr())[tree.root].b == tree.root.b;
  }

  /** What a valid tree which is not empty satisfies. */
  lemma ValidTree(tree: EbRoot)
    requires tree.Valid() && tree.T.Full?
    ensures WF(tree.T.t) && Shape(tree.T.t) && RepTop(Snap(tree.Repr()), tree.root, Full(tree.T.t))
  {
  }

  /** The leaf of a member has a parent. */
  lemma MemberIsLinked(tree: EbRoot, n: Node)
    requires tree.Valid() && n in Members(tree.T)
    ensures n.leafP.Up? && n != tree.root
  {
    var t := tree.T.t;
    RepAt(Snap(tree.Repr()), t, Up(tree.root, LEFT), LeafPath(t, n));
    var m := Snap(tree.Repr());
    assert m[n].leafP == n.leafP;
    AnchorUp(t, Up(tree.root, LEFT), LeafPath(t, n));
  }

  lemma {:induction false} AnchorUp(t: Tree, up: Parent, path: Path)
    requires ValidPath(t, path) && up.Up?
    ensures Anchor(t, up, path).Up?
  {
    if path != [] {
      AnchorUp(t.Child(path[0]), Up(t.o, path[0]), path[1..]);
    }
  }

  /** What deletion reads first: the leaf hangs on its parent, or on the root. */
  lemma DeleteReads(m: Memory, root: Node, t: Tree, e: Node)
    requires RepTop(m, root, Full(t)) && Shape(t) && e in LeafSet(t)
    ensures Hangs(m, t, Up(root, LEFT))
    ensures t.Leaf? ==> e in m && m[e].leafP == Up(root, LEFT)
    ensures t.Link? ==>
              var s, g := At(t, ParentPath(t, e)), Anchor(t, Up(root, LEFT), ParentPath(t, e));
              && s.o in m && m[s.o].nodeP == g && g.Up? && g.n in m && g.n != s.o
              && m[s.o].b == Branches(Ref(s.l), Ref(s.r)) && s.l != s.r
              && e in m && m[e].leafP == Up(s.o, s.r == Leaf(e))
              && s.o in LeafSet(t) && (g.n in LeafSet(t) || g.n == root)
              && Head(s.l) in LeafSet(t) && Head(s.r) in LeafSet(t)
              && LinkOf(s.o) != Ref(s.l) && LinkOf(s.o) != Ref(s.r)
  {
    LinksAreLeaves(t);
    if t.Link? {
      var pp := ParentPath(t, e);
      ShapeSeparate(t);
      AnchorFacts(m, t, Up(root, LEFT), pp);
      SiblingSets(At(t, pp), e);
      LinksAreLeaves(t);
      HeadInside(At(t, pp).l);
      HeadInside(At(t, pp).r);
    }
  }

  /** First half of eb_delete(): the sibling takes the place of the parent link. */
  method ReplaceParent(parent: Node, pside: bool, ghost S: set<Node>, ghost sb: Tree)
    requires parent in S && parent.nodeP.Up? && parent.nodeP.n in S && parent.nodeP.n != parent
    requires parent.b.At(!pside) == Ref(sb) && Head(sb) in S && LinkOf(parent) != Ref(sb)
    modifies S`b, S`nodeP, S`leafP
    ensures Spliced(old(Snap(S)), Snap(S), parent, sb, old(parent.nodeP))
  {
    ghost var m := Snap(S);
    var gpside, gparent := parent.nodeP.side, parent.nodeP.n;
    gparent.b := gparent.b.With(gpside, parent.b.At(!pside));
    var sib := gparent.b.At(gpside);
    if sib.LeafOf? {
      sib.n.leafP := Up(gparent, gpside);
    } else {
      sib.n.nodeP := Up(gparent, gpside);
    }
    parent.nodeP := NoParent;
    assert forall n | n in S :: m[n] == old(Cell(n.b, n.nodeP, n.leafP, n.bit));
  }

  /** The freed parent link replaces the one of node. */
  method TakeOver(node: Node, parent: Node, ghost S: set<Node>, ghost s: Tree)
    requires node in S && parent in S && node != parent && s.Link? && s.o == node
    requires node.nodeP.Up? && node.nodeP.n in S && node.nodeP.n != parent && node.nodeP.n != node
    requires node.b == Branches(Ref(s.l), Ref(s.r)) && Ref(s.l) != Ref(s.r)
    requires Head(s.l) in S && Head(s.r) in S && LinkOf(parent) != Ref(s.l) && LinkOf(parent) != Ref(s.r)
    modifies S`b, S`nodeP, S`leafP, S`bit
    ensures TakenOver(old(Snap(S)), Snap(S), s, parent, old(node.nodeP))
  {
    ghost var m := Snap(S);
    parent.nodeP := node.nodeP;
    parent.b := node.b;
    parent.bit := node.bit;
    var gpside, gparent := parent.nodeP.side, parent.nodeP.n;
    gparent.b := gparent.b.With(gpside, LinkOf(parent));
    Reparent(parent, LEFT, S);
    Reparent(parent, RIGHT, S);
    assert forall n | n in S :: m[n] == old(Cell(n.b, n.nodeP, n.leafP, n.bit));
  }

  /** Tells the branch of parent on the given side who its parent is. */
  method Reparent(parent: Node, side: bool, ghost S: set<Node>)
    requires !parent.b.At(side).Null? && parent.b.At(side).n in S
    modifies S`nodeP, S`leafP
    ensures forall n | n in S :: n.nodeP == if parent.b.At(side) == LinkOf(n) then Up(parent, side) else old(n.nodeP)
    ensures forall n | n in S :: n.leafP == if parent.b.At(side) == LeafOf(n) then Up(parent, side) else old(n.leafP)
  {
    var br := parent.b.At(side);
    if br.LinkOf? {
      br.n.nodeP := Up(parent, side);
    } else {
      br.n.leafP := Up(parent, side);
    }
  }

  // ----- what the two halves amount to

  /** m' is m without the leaf of e. */
  ghost predicate Dropped(m: Memory, m': Memory, e: Node) {
    m'.Keys == m.Keys - {e} && forall n | n in m' :: m'[n] == m[n]
  }

  ghost predicate Deleting(m: Memory, root: Node, t: Tree, e: Node) {
    RepTop(m, root, Full(t)) && WF(t) && e in LeafSet(t) && t.Link? && e != root
  }

  /** m' is m after the first half of the deletion of e. */
  ghost predicate ParentReplaced(m: Memory, m': Memory, root: Node, t: Tree, e: Node)
    requires t.Link? && e in LeafSet(t)
  {
    var s := At(t, ParentPath(t, e));
    Spliced(m, m', s.o, s.Child(s.l == Leaf(e)), Anchor(t, Up(root, LEFT), ParentPath(t, e)))
  }

  /** The link part of e is in use, and not right above its leaf. */
  ghost predicate LinkElsewhere(t: Tree, e: Node) {
    t.Link? && Shape(t) && e in LeafSet(t) && e in Links(t) && e != ParentOwner(t, e)
  }

  /** m' is m after the parent's link took over the one of e. */
  ghost predicate LinkTakenOver(m: Memory, m': Memory, root: Node, t: Tree, e: Node)
    requires LinkElsewhere(t, e)
  {
    var t1, lp := Splice(t, e), LinkPath(t, e);
    ValidPath(t1, lp) && TakenOver(m, m', At(t1, lp), ParentOwner(t, e), Anchor(t1, Up(root, LEFT), lp))
  }

  lemma SpliceHangs(m: Memory, m': Memory, root: Node, t: Tree, e: Node)
    requires Deleting(m, root, t, e) && ParentReplaced(m, m', root, t, e)
    ensures Hangs(m', Splice(t, e), Up(root, LEFT)) && m'[root].b.r == m[root].b.r
  {
    var pp, up := ParentPath(t, e), Up(root, LEFT);
    DeleteReads(m, root, t, e);
    ShapeSeparate(t);
    SpliceStep(m, m', t, up, pp, At(t, pp).r == Leaf(e));
    AnchorFacts(m, t, up, pp);
  }

  lemma SpliceSpares(m: Memory, m': Memory, root: Node, t: Tree, e: Node, z: Node)
    requires Deleting(m, root, t, e) && ParentReplaced(m, m', root, t, e)
    requires z in LeafSet(t) && (z !in Links(t) || z == ParentOwner(t, e))
    ensures z in m' && m'[z].nodeP == NoParent
  {
    var pp := ParentPath(t, e);
    if z !in Links(t) {
      var sb := At(t, pp).Child(At(t, pp).l == Leaf(e));
      SetsAt(t, pp);
      HeadInside(sb);
      ParentOwnerIs(t, e);
      assert m[z].nodeP == NoParent && LinkOf(z) != Ref(sb);
    }
  }

  lemma AfterSplice(m: Memory, m': Memory, root: Node, t: Tree, e: Node)
    requires Deleting(m, root, t, e) && ParentReplaced(m, m', root, t, e)
    ensures Hangs(m', Splice(t, e), Up(root, LEFT)) && m'[root].b.r == m[root].b.r
    ensures e in m' && (m'[e].nodeP == NoParent <==> !LinkElsewhere(t, e))
    ensures forall z | z in LeafSet(t) && (z !in Links(t) || z == ParentOwner(t, e)) :: z in m' && m'[z].nodeP == NoParent
  {
    hide Radix, Rep, Spliced;
    SpliceHangs(m, m', root, t, e);
    forall z | z in LeafSet(t) && (z !in Links(t) || z == ParentOwner(t, e))
      ensures z in m' && m'[z].nodeP == NoParent
    {
      SpliceSpares(m, m', root, t, e, z);
    }
    if LinkElsewhere(t, e) {
      TakeOverReads(m', root, t, e);
    }
  }

  lemma DroppedRep(m: Memory, m': Memory, root: Node, t: Tree, e: Node)
    requires Hangs(m, t, Up(root, LEFT)) && Shape(t) && Dropped(m, m', e) && m[root].b.r.Null?
    requires e !in LeafSet(t) && e != root
    requires forall z | z in LeafSet(t) && z !in Links(t) :: z in m && m[z].nodeP == NoParent
    ensures RepTop(m', root, Full(t))
  {
    LinksAreLeaves(t);
    RepFrame(m, m', t, Up(root, LEFT));
  }

  /** Deletion when the entity has no link elsewhere. */
  lemma DeleteOne(m: Memory, m1: Memory, m': Memory, root: Node, t: Tree, e: Node)
    requires Deleting(m, root, t, e) && ParentReplaced(m, m1, root, t, e)
    requires e in m1 && m1[e].nodeP == NoParent && Dropped(m1, m', e)
    ensures RepTop(m', root, Deleted(Full(t), e)) && m'[root].b.r == m[root].b.r
  {
    var q := ParentOwner(t, e);
    AfterSplice(m, m1, root, t, e);
    DelIsSplice(t, e, q);
    DelShape(t, e);
    SpliceSets(t, e);
    DroppedRep(m1, m', root, Splice(t, e), e);
  }

  /** What the second half finds: the link of the entity, somewhere above. */
  lemma TakeOverReads(m: Memory, root: Node, t: Tree, e: Node)
    requires WF(t) && e in LeafSet(t) && t.Link? && e != root && root !in LeafSet(t)
    requires LinkElsewhere(t, e) && Hangs(m, Splice(t, e), Up(root, LEFT))
    ensures var t1, lp := Splice(t, e), LinkPath(t, e);
            && ValidPath(t1, lp) && At(t1, lp).Link?
            && var s, g, q := At(t1, lp), Anchor(t1, Up(root, LEFT), lp), ParentOwner(t, e);
               && s.o == e && e in m && m[e].nodeP == g && g.Up? && g.n != q && g.n != e
               && (g.n == root || g.n in LeafSet(t))
               && m[e].b == Branches(Ref(s.l), Ref(s.r)) && Ref(s.l) != Ref(s.r)
               && Head(s.l) in LeafSet(t) && Head(s.r) in LeafSet(t)
               && LinkOf(q) != Ref(s.l) && LinkOf(q) != Ref(s.r)
  {
    var t1, lp := Splice(t, e), LinkPath(t, e);
    DelIsTakeOver(t, e, e);
    SpliceSets(t, e);
    LinksAreLeaves(t);
    ParentOwnerIs(t, e);
    AnchorFacts(m, t1, Up(root, LEFT), lp);
    HeadInside(At(t1, lp).l);
    HeadInside(At(t1, lp).r);
    assert LeafSet(At(t1, lp).l) !! LeafSet(At(t1, lp).r);
  }

  lemma TakeOverSpares(m: Memory, m': Memory, t1: Tree, lp: Path, q: Node, g: Parent, z: Node)
    requires ValidPath(t1, lp) && At(t1, lp).Link? && TakenOver(m, m', At(t1, lp), q, g)
    requires z in m && m[z].nodeP == NoParent && z !in Links(t1) && z != q
    ensures m'[z].nodeP == NoParent
  {
    SetsAt(t1, lp);
    HeadInside(At(t1, lp).l);
    HeadInside(At(t1, lp).r);
  }

  lemma TakeOverRoot(m: Memory, m': Memory, root: Node, t1: Tree, lp: Path, q: Node)
    requires Separate(t1) && Hangs(m, t1, Up(root, LEFT)) && ValidPath(t1, lp) && At(t1, lp).Link?
    requires TakenOver(m, m', At(t1, lp), q, Anchor(t1, Up(root, LEFT), lp))
    requires q !in Links(t1) && q != root
    ensures Hangs(m', Put(t1, lp, At(t1, lp).(o := q)), Up(root, LEFT)) && m'[root].b.r == m[root].b.r
  {
    TakeOverStep(m, m', t1, Up(root, LEFT), lp, q);
    AnchorFacts(m, t1, Up(root, LEFT), lp);
    if lp == [] {
      assert Anchor(t1, Up(root, LEFT), lp) == Up(root, LEFT);
    }
  }

  lemma TakeOverHangs(m: Memory, m': Memory, root: Node, t: Tree, e: Node)
    requires WF(t) && e in LeafSet(t) && t.Link? && e != root && root !in LeafSet(t)
    requires LinkElsewhere(t, e) && Hangs(m, Splice(t, e), Up(root, LEFT)) && LinkTakenOver(m, m', root, t, e)
    ensures Hangs(m', Del(t, e, ParentOwner(t, e)), Up(root, LEFT)) && m'[root].b.r == m[root].b.r
  {
    SpliceSets(t, e);
    ParentOwnerIs(t, e);
    DelIsTakeOver(t, e, ParentOwner(t, e));
    TakeOverRoot(m, m', root, Splice(t, e), LinkPath(t, e), ParentOwner(t, e));
  }

  /** Deletion when the parent's link takes over. */
  lemma DeleteTwo(m: Memory, m1: Memory, m2: Memory, m': Memory, root: Node, t: Tree, e: Node)
    requires Deleting(m, root, t, e) && ParentReplaced(m, m1, root, t, e)
    requires LinkElsewhere(t, e) && LinkTakenOver(m1, m2, root, t, e)
    requires Dropped(m2, m', e)
    ensures RepTop(m', root, Deleted(Full(t), e)) && m'[root].b.r == m[root].b.r
  {
    var q, t1, lp := ParentOwner(t, e), Splice(t, e), LinkPath(t, e);
    var t2 := Del(t, e, q);
    AfterSplice(m, m1, root, t, e);
    TakeOverHangs(m1, m2, root, t, e);
    SpliceSets(t, e);
    ParentOwnerIs(t, e);
    DelShape(t, e);
    DelLeaves(t, e, q);
    DelLinks(t, e);
    DelIsTakeOver(t, e, q);
    forall z | z in LeafSet(t2) && z !in Links(t2)
      ensures z in m2 && m2[z].nodeP == NoParent
    {
      assert z in LeafSet(t) && z !in Links(t);
      TakeOverSpares(m1, m2, t1, lp, q, Anchor(t1, Up(root, LEFT), lp), z);
    }
    DroppedRep(m2, m', root, t2, e);
  }

  lemma RootApart(m: Memory, root: Node, t: Tree, e: Node)
    requires Deleting(m, root, t, e)
    ensures root !in LeafSet(t)
  {
  }

  /** Second half of eb_delete(): releases the link part of node, if used. */
  method ReleaseLink(node: Node, parent: Node, ghost S: set<Node>, ghost root: Node, ghost t: Tree, ghost m: Memory)
    returns (heir: Node?)
    requires Deleting(m, root, t, node) && ParentReplaced(m, Snap(S), root, t, node)
    requires S == {root} + LeafSet(t) && parent == ParentOwner(t, node)
    modifies S`b, S`nodeP, S`leafP, S`bit
    ensures node.leafP == NoParent
    ensures RepTop(Snap(S - {node}), root, Deleted(Full(t), node)) && root.b.r == m[root].b.r
    ensures heir == if LinkElsewhere(t, node) then parent else null
  {
    hide Radix, Rep, Shape, Links, Spliced, TakenOver, Separate, ParentOwner, Del, RepTop, LeafSet, WF;
    ghost var m1, S' := Snap(S), S - {node};
    AfterSplice(m, m1, root, t, node);
    assert m1[node].nodeP == node.nodeP;
    if node.nodeP == NoParent {
      node.leafP := NoParent;
      assert Dropped(m1, Snap(S'), node);
      DeleteOne(m, m1, Snap(S'), root, t, node);
      assert root.b.r == Snap(S')[root].b.r;
      return null;
    }
    RootApart(m, root, t, node);
    TakeOverReads(m1, root, t, node);
    ParentOwnerIs(t, node);
    TakeOver(node, parent, S, At(Splice(t, node), LinkPath(t, node)));
    ghost var m2 := Snap(S);
    node.leafP := NoParent;
    assert Dropped(m2, Snap(S'), node);
    DeleteTwo(m, m1, m2, Snap(S'), root, t, node);
    assert root.b.r == Snap(S')[root].b.r;
    return parent;
  }

  lemma MembersDeleted(tt: Top, e: Node)
    requires tt.Full? && WFTop(tt) && e in LeafSet(tt.t)
    ensures Members(Deleted(tt, e)) == Members(tt) - {e} && WFTop(Deleted(tt, e))
    ensures NoDups(tt.t) && Deleted(tt, e).Full? ==> NoDups(Deleted(tt, e).t)
  {
    DeleteCorrect(tt, e);
    if tt.t.Link? {
      DelLeaves(tt.t, e, ParentOwner(tt.t, e));
      if NoDups(tt.t) {
        DelNoDups(tt.t, e, ParentOwner(tt.t, e));
      }
    }
  }

  lemma {:induction false} DelNoDups(t: Tree, e: Node, q: Node)
    requires t.Link? && e in LeafSet(t) && NoDups(t)
    ensures NoDups(Del(t, e, q))
  {
    if t.l == Leaf(e) || t.r == Leaf(e) {
    } else if e in LeafSet(t.l) {
      DelNoDups(t.l, e, q);
    } else {
      DelNoDups(t.r, e, q);
    }
  }

  /** The whole of eb_delete(), which also tells the entity whose link part took
      over the one of node, if any. The tree is only named for the specification. */
  method Unlink(ghost tree: EbRoot, node: Node) returns (heir: Node?)
    requires tree.Valid()
    requires node.leafP != NoParent ==> node in Members(tree.T)
    modifies tree`T, tree.Repr()`b, tree.Repr()`nodeP, tree.Repr()`leafP, tree.Repr()`bit
    ensures tree.Valid() && node.leafP == NoParent
    ensures tree.T == if old(node.leafP) == NoParent then old(tree.T) else Deleted(old(tree.T), node)
    ensures tree.root.b.r == old(tree.root.b.r)
    ensures heir == if old(node.leafP) != NoParent && LinkElsewhere(old(tree.T).t, node)
                    then ParentOwner(old(tree.T).t, node) else null
  {
    hide Radix, Rep, Shape, Links, Spliced, TakenOver, Separate, ParentOwner, Del, NoDups, WF, LeafSet;
    if node.leafP == NoParent {
      return null;
    }
    ValidTree(tree);
    ghost var S, t, root := tree.Repr(), tree.T.t, tree.root;
    ghost var m, S' := Snap(S), S - {node};
    MemberIsLinked(tree, node);
    DeleteReads(m, root, t, node);
    MembersDeleted(tree.T, node);
    tree.T := Deleted(tree.T, node);
    assert tree.Repr() == S';

    var pside, parent := node.leafP.side, node.leafP.n;
    if parent.b.r.Null? {
      parent.b := parent.b.With(LEFT, Null(false));
      node.leafP := NoParent;
      return null;
    }
    ReplaceParent(parent, pside, S, At(t, ParentPath(t, node)).Child(!pside));
    heir := ReleaseLink(node, parent, S, root, t, m);
  }

  /** eb_delete() */
  method Delete(ghost tree: EbRoot, node: Node)
    requires tree.Valid()
    requires node.leafP != NoParent ==> node in Members(tree.T)
    modifies tree`T, tree.Repr()`b, tree.Repr()`nodeP, tree.Repr()`leafP, tree.Repr()`bit
    ensures tree.Valid() && node.leafP == NoParent
    ensures tree.T == if old(node.leafP) == NoParent then old(tree.T) else Deleted(old(tree.T), node)
    ensures tree.Contents() == if old(node.leafP) == NoParent then old(tree.Contents()) else Remove(old(tree.Contents()), node)
    ensures tree.root.b.r == old(tree.root.b.r)
  {
    if node.leafP != NoParent {
      DeleteCorrect(tree.T, node);
    }
    var _ := Unlink(tree, node);
  }

  // ----- what is left of a deleted entity

  ghost predicate Avoids(p: Parent, e: Node) { p.Up? ==> p.n != e }

  ghost predicate BranchAvoids(b: Branch, e: Node) { !b.Null? ==> b.n != e }

  /** No pointer which is in use leads to e: neither those of the leaves, nor those
      of the links. */
  ghost predicate Untouched(m: Memory, t: Tree, e: Node) {
    && (forall x | x in LeafSet(t) :: x in m && Avoids(m[x].leafP, e))
    && (forall o | o in Links(t) :: o in m && Avoids(m[o].nodeP, e) && BranchAvoids(m[o].b.l, e) && BranchAvoids(m[o].b.r, e))
  }

  lemma {:induction false} RepAvoids(m: Memory, t: Tree, up: Parent, e: Node)
    requires Rep(m, t, up) && Avoids(up, e) && e !in LeafSet(t) && e !in Links(t)
    ensures Untouched(m, t, e) && BranchAvoids(Ref(t), e)
  {
    if t.Link? {
      RepAvoids(m, t.l, Up(t.o, LEFT), e);
      RepAvoids(m, t.r, Up(t.o, RIGHT), e);
    }
  }

  /** In a valid tree, no pointer in use leads to an entity which is not in it. */
  lemma NoPointerLeft(tree: EbRoot, e: Node)
    requires tree.Valid() && e !in tree.Repr()
    ensures BranchAvoids(tree.root.b.l, e)
    ensures tree.T.Full? ==> Untouched(Snap(tree.Repr()), tree.T.t, e)
    ensures forall x | x in Members(tree.T) && x !in Links(tree.T.t) :: x.nodeP == NoParent
  {
    hide Radix, Rep;
    var m := Snap(tree.Repr());
    assert m[tree.root].b == tree.root.b;
    if tree.T.Full? {
      LinksAreLeaves(tree.T.t);
      RepAvoids(m, tree.T.t, Up(tree.root, LEFT), e);
      forall x | x in LeafSet(tree.T.t) && x !in Links(tree.T.t)
        ensures x.nodeP == NoParent
      {
        assert m[x].nodeP == x.nodeP;
      }
    }
  }
}
