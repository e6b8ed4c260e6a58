/** When a memory represents a tree, and what a local change of pointers does to
    the represented tree. */
module EbMemory {
  import opened EbNodes
  import opened EbTrees

  /** The tagged pointer to a subtree. */
  ghost function Ref(t: Tree): Branch {
    match t
    case Leaf(e) => LeafOf(e)
    case Link(o, _, _, _) => LinkOf(o)
  }

  /** Memory m represents t, attached below up. */
  ghost predicate Rep(m: Memory, t: Tree, up: Parent) {
    match t
    case Leaf(e) => e in m && m[e].leafP == up
    case Link(o, bit, l, r) =>
      && o in m && m[o].nodeP == up && m[o].bit == bit
      && m[o].b == Branches(Ref(l), Ref(r))
      && Rep(m, l, Up(o, LEFT)) && Rep(m, r, Up(o, RIGHT))
  }

  /** The entities of t which do not use their link part say so. */
  ghost predicate SparesMarked(m: Memory, t: Tree) {
    forall e | e in LeafSet(t) && e !in Links(t) :: e in m && m[e].nodeP == NoParent
  }

  /** Memory m represents a whole tree below root. The null right branch is
      what tells the root from a link. */
  ghost predicate RepTop(m: Memory, root: Node, tt: Top) {
    && root in m && m[root].b.r.Null?
    && match tt
       case Empty => m[root].b.l == Null(false)
       case Full(t) =>
         && root !in LeafSet(t)
         && m[root].b.l == Ref(t)
         && Rep(m, t, Up(root, LEFT))
         && SparesMarked(m, t)
  }

  /** The up pointer of the top of t, whichever part it is. */
  ghost predicate TopUp(m: Memory, t: Tree, up: Parent) {
    match t
    case Leaf(e) => e in m && m[e].leafP == up
    case Link(o, _, _, _) => o in m && m[o].nodeP == up
  }

  ghost predicate SameLink(m: Memory, m': Memory, o: Node) {
    o in m ==> o in m' && m'[o].b == m[o].b && m'[o].nodeP == m[o].nodeP && m'[o].bit == m[o].bit
  }

  ghost predicate SameLeaf(m: Memory, m': Memory, e: Node) {
    e in m ==> e in m' && m'[e].leafP == m[e].leafP
  }

  /** Memory which does not touch a tree's parts still represents it. */
  lemma {:induction false} RepFrame(m: Memory, m': Memory, t: Tree, up: Parent)
    requires Rep(m, t, up)
    requires forall o | o in Links(t) :: SameLink(m, m', o)
    requires forall e | e in LeafSet(t) :: SameLeaf(m, m', e)
    ensures Rep(m', t, up)
  {
    match t
    case Leaf(e) => assert e in LeafSet(t);
    case Link(o, _, l, r) =>
      assert o in Links(t);
      RepFrame(m, m', l, Up(o, LEFT));
      RepFrame(m, m', r, Up(o, RIGHT));
  }

  /** Reattaching a subtree elsewhere only takes its top's up pointer. */
  lemma RepMove(m: Memory, m': Memory, t: Tree, up: Parent, up': Parent)
    requires Separate(t) && Rep(m, t, up) && TopUp(m', t, up')
    requires t.Link? ==> m'[t.o].b == m[t.o].b && m'[t.o].bit == m[t.o].bit
    requires forall o | o in Links(t) && (t.Leaf? || o != t.o) :: SameLink(m, m', o)
    requires forall e | e in LeafSet(t) && (t.Link? || e != t.e) :: SameLeaf(m, m', e)
    ensures Rep(m', t, up')
  {
    match t
    case Leaf(_) =>
    case Link(o, _, l, r) =>
      RepFrame(m, m', l, Up(o, LEFT));
      RepFrame(m, m', r, Up(o, RIGHT));
  }

  /** The subtree at path is represented below its anchor. */
  lemma {:induction false} RepAt(m: Memory, t: Tree, up: Parent, path: Path)
    requires Rep(m, t, up) && ValidPath(t, path)
    ensures Rep(m, At(t, path), Anchor(t, up, path))
    ensures path != [] ==>
              && Anchor(t, up, path).Up? && Anchor(t, up, path).n in m
              && m[Anchor(t, up, path).n].b.At(Anchor(t, up, path).side) == Ref(At(t, path))
              && !m[Anchor(t, up, path).n].b.r.Null?
  {
    if path != [] {
      RepAt(m, t.Child(path[0]), Up(t.o, path[0]), path[1..]);
    }
  }

  /** m' leaves the context of path alone, except that the anchor a now points to u. */
  ghost predicate ContextKept(m: Memory, m': Memory, t: Tree, path: Path, a: Parent, u: Tree)
    requires ValidPath(t, path) && a.Up?
  {
    && (forall e | e in OuterLeaves(t, path) :: SameLeaf(m, m', e))
    && (forall o | o in OuterLinks(t, path) && o != a.n :: SameLink(m, m', o))
    && (path != [] ==>
          && a.n in m && a.n in m'
          && m'[a.n].b == m[a.n].b.With(a.side, Ref(u))
          && m'[a.n].nodeP == m[a.n].nodeP && m'[a.n].bit == m[a.n].bit)
  }

  /** The one lemma behind every change of the tree: if u is represented at the
      anchor of path and the context is left alone, then the memory represents
      the tree with u put at path. */
  lemma {:induction false} RepPut(m: Memory, m': Memory, t: Tree, up: Parent, path: Path, u: Tree)
    requires Rep(m, t, up) && ValidPath(t, path) && Separate(t) && Anchor(t, up, path).Up?
    requires ContextKept(m, m', t, path, Anchor(t, up, path), u)
    requires Rep(m', u, Anchor(t, up, path))
    ensures Rep(m', Put(t, path, u), up)
  {
    if path != [] {
      var side, rest := path[0], path[1..];
      var c, d := t.Child(side), t.Child(!side);
      SetsAt(c, rest);
      if rest == [] {
        assert Anchor(t, up, path) == Up(t.o, side);
        RepFrame(m, m', d, Up(t.o, !side));
      } else {
        AnchorIsOuter(c, Up(t.o, side), rest);
        assert Anchor(t, up, path).n in Links(c);
        assert t.o in OuterLinks(t, path) && SameLink(m, m', t.o);
        RepFrame(m, m', d, Up(t.o, !side));
        RepPut(m, m', c, Up(t.o, side), rest, u);
      }
    }
  }
}
