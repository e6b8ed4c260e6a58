/** What attaching a new entity above a subtree does to the represented tree. */
module EbAttach {
  import opened EbNodes
  import opened EbTrees
  import opened EbMemory
  import opened EbDeleteMemory

  /** m' is m after n was attached above s, at g. */
  ghost predicate Attached(m: Memory, m': Memory, s: Tree, n: Node, bit: int, right: bool, g: Parent) {
    && m'.Keys == m.Keys + {n} && g.Up? && g.n in m && g.n != n
    && m'[n] == Cell(if right then Branches(Ref(s), LeafOf(n)) else Branches(LeafOf(n), Ref(s)), g, Up(n, right), bit)
    && (forall x | x in m && x != n :: m'[x].bit == m[x].bit)
    && (forall x | x in m && x != n && x != g.n :: m'[x].b == m[x].b)
    && m'[g.n].b == m[g.n].b.With(g.side, LinkOf(n))
    && (forall x | x in m && x != n && LinkOf(x) != Ref(s) :: m'[x].nodeP == m[x].nodeP)
    && (forall x | x in m && x != n && LeafOf(x) != Ref(s) :: m'[x].leafP == m[x].leafP)
    && TopUp(m', s, Up(n, !right))
  }

  lemma AttachMoves(m: Memory, m': Memory, s: Tree, n: Node, bit: int, right: bool, g: Parent)
    requires Separate(s) && Rep(m, s, g) && Attached(m, m', s, n, bit, right, g)
    requires n !in Links(s) && n !in LeafSet(s) && g.n !in Links(s)
    ensures Rep(m', Cap(s, n, bit, right), g)
  {
    RepMove(m, m', s, g, Up(n, !right));
    assert Rep(m', Leaf(n), Up(n, right));
  }

  lemma AttachContext(m: Memory, m': Memory, t: Tree, path: Path, n: Node, bit: int, right: bool, g: Parent)
    requires Separate(t) && ValidPath(t, path) && Attached(m, m', At(t, path), n, bit, right, g)
    requires n !in Links(t) && n !in LeafSet(t) && g.n !in Links(At(t, path))
    ensures ContextKept(m, m', t, path, g, Cap(At(t, path), n, bit, right))
  {
    var s := At(t, path);
    SeparateAt(t, path);
    SetsAt(t, path);
    forall e | e in OuterLeaves(t, path)
      ensures SameLeaf(m, m', e)
    {
      assert LeafOf(e) != Ref(s) && e != n;
    }
    forall o | o in OuterLinks(t, path) && o != g.n
      ensures SameLink(m, m', o)
    {
      assert LinkOf(o) != Ref(s) && o != n;
    }
    assert LinkOf(g.n) != Ref(s);
  }

  /** Attaching n above the subtree at path puts the pair there. */
  lemma AttachStep(m: Memory, m': Memory, t: Tree, up: Parent, path: Path, n: Node, bit: int, right: bool)
    requires Separate(t) && Hangs(m, t, up) && ValidPath(t, path)
    requires Attached(m, m', At(t, path), n, bit, right, Anchor(t, up, path))
    requires n !in Links(t) && n !in LeafSet(t) && n != up.n
    ensures Hangs(m', Put(t, path, Cap(At(t, path), n, bit, right)), up)
  {
    var s, g := At(t, path), Anchor(t, up, path);
    AnchorFacts(m, t, up, path);
    AttachMoves(m, m', s, n, bit, right, g);
    AttachContext(m, m', t, path, n, bit, right, g);
    RepPut(m, m', t, up, path, Cap(s, n, bit, right));
    HangsPut(m, m', t, up, path, Cap(s, n, bit, right));
  }

  /** A whole tree stays represented, with n above the subtree at path. */
  lemma AttachTop(m: Memory, m': Memory, root: Node, t: Tree, path: Path, n: Node, bit: int, right: bool)
    requires RepTop(m, root, Full(t)) && Shape(t) && ValidPath(t, path)
    requires Attached(m, m', At(t, path), n, bit, right, Anchor(t, Up(root, LEFT), path))
    requires n !in LeafSet(t) && n != root
    ensures RepTop(m', root, Full(Put(t, path, Cap(At(t, path), n, bit, right)))) && m'[root].b.r == m[root].b.r
  {
    hide Rep, Attached;
    var up, u := Up(root, LEFT), Cap(At(t, path), n, bit, right);
    ShapeSeparate(t);
    LinksAreLeaves(t);
    AttachStep(m, m', t, up, path, n, bit, right);
    AttachRoot(m, m', root, t, path, n, bit, right);
    SetsAt(t, path);
    SetsPut(t, path, u);
    forall z | z in LeafSet(Put(t, path, u)) && z !in Links(Put(t, path, u))
      ensures z in m' && m'[z].nodeP == NoParent
    {
      AttachSpare(m, m', t, path, n, bit, right, Anchor(t, up, path), z);
    }
  }

  lemma AttachSpare(m: Memory, m': Memory, t: Tree, path: Path, n: Node, bit: int, right: bool, g: Parent, z: Node)
    requires ValidPath(t, path) && Attached(m, m', At(t, path), n, bit, right, g)
    requires z in m && z != n && z !in Links(t)
    ensures z in m' && m'[z].nodeP == m[z].nodeP
  {
    SetsAt(t, path);
  }

  lemma AttachRoot(m: Memory, m': Memory, root: Node, t: Tree, path: Path, n: Node, bit: int, right: bool)
    requires ValidPath(t, path) && Separate(t) && Hangs(m, t, Up(root, LEFT)) && n != root
    requires Attached(m, m', At(t, path), n, bit, right, Anchor(t, Up(root, LEFT), path))
    ensures m'[root].b.r == m[root].b.r
  {
    AnchorFacts(m, t, Up(root, LEFT), path);
    if path == [] {
      assert Anchor(t, Up(root, LEFT), path) == Up(root, LEFT);
    }
  }
}
