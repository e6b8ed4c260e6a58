/** What the pointer updates of a deletion do to the represented tree. */
module EbDeleteMemory {
  import opened EbNodes
  import opened EbTrees
  import opened EbMemory

  /** What the whole of t hangs on is outside t and points to it. */
  ghost predicate Hangs(m: Memory, t: Tree, up: Parent) {
    && up.Up? && up.n in m && m[up.n].b.At(up.side) == Ref(t)
    && up.n !in Links(t) && up.n !in LeafSet(t) && Rep(m, t, up)
  }

  /** The root only changes when the whole tree is replaced. */
  lemma HangsPut(m: Memory, m': Memory, t: Tree, up: Parent, path: Path, u: Tree)
    requires Hangs(m, t, up) && ValidPath(t, path) && up.n in m' && Rep(m', Put(t, path, u), up)
    requires Anchor(t, up, path).Up?
    requires up.n !in Links(u) && up.n !in LeafSet(u)
    requires var g := Anchor(t, up, path);
             m'[up.n].b == if g.n == up.n then m[up.n].b.With(g.side, Ref(u)) else m[up.n].b
    ensures Hangs(m', Put(t, path, u), up)
  {
    SetsAt(t, path);
    SetsPut(t, path, u);
    if path != [] {
      AnchorIsOuter(t, up, path);
    }
  }

  /** Where a subtree hangs, and what it hangs on is not part of it. */
  lemma AnchorFacts(m: Memory, t: Tree, up: Parent, path: Path)
    requires Separate(t) && Hangs(m, t, up) && ValidPath(t, path)
    ensures var s, g := At(t, path), Anchor(t, up, path);
            && Separate(s) && Rep(m, s, g)
            && g.Up? && g.n in m && g.n !in Links(s) && m[g.n].b.At(g.side) == Ref(s)
            && Links(s) <= Links(t) && LeafSet(s) <= LeafSet(t)
            && (g.n == up.n || g.n in Links(t)) && (g.n == up.n <==> path == [])
  {
    RepAt(m, t, up, path);
    SeparateAt(t, path);
    SetsAt(t, path);
    if path != [] {
      AnchorIsOuter(t, up, path);
    }
  }

  // ----- first step: the sibling replaces the parent

  /** m' is m after sb has been attached in place of its parent q, at g. */
  ghost predicate Spliced(m: Memory, m': Memory, q: Node, sb: Tree, g: Parent) {
    && m'.Keys == m.Keys && g.Up? && g.n in m && q in m
    && (forall n | n in m :: m'[n].bit == m[n].bit)
    && (forall n | n in m && n != g.n :: m'[n].b == m[n].b)
    && m'[g.n].b == m[g.n].b.With(g.side, Ref(sb))
    && (forall n | n in m && n != q && LinkOf(n) != Ref(sb) :: m'[n].nodeP == m[n].nodeP)
    && (forall n | n in m && LeafOf(n) != Ref(sb) :: m'[n].leafP == m[n].leafP)
    && m'[q].nodeP == NoParent && TopUp(m', sb, g)
  }

  lemma SpliceContext(m: Memory, m': Memory, t: Tree, pp: Path, q: Node, sb: Tree, g: Parent)
    requires Separate(t) && ValidPath(t, pp) && Links(sb) <= Links(At(t, pp)) && LeafSet(sb) <= LeafSet(At(t, pp))
    requires q in Links(At(t, pp)) && Spliced(m, m', q, sb, g) && g.n !in Links(At(t, pp))
    ensures ContextKept(m, m', t, pp, g, sb)
  {
    SeparateAt(t, pp);
    forall e | e in OuterLeaves(t, pp)
      ensures SameLeaf(m, m', e)
    {
      assert LeafOf(e) != Ref(sb);
    }
    forall o | o in OuterLinks(t, pp) && o != g.n
      ensures SameLink(m, m', o)
    {
      assert LinkOf(o) != Ref(sb) && o != q;
    }
    assert LinkOf(g.n) != Ref(sb) && g.n != q;
  }

  /** Attaching the sibling in place of the parent puts it at the parent's path. */
  lemma SpliceStep(m: Memory, m': Memory, t: Tree, up: Parent, pp: Path, pside: bool)
    requires Separate(t) && Hangs(m, t, up) && ValidPath(t, pp) && At(t, pp).Link?
    requires Spliced(m, m', At(t, pp).o, At(t, pp).Child(!pside), Anchor(t, up, pp))
    ensures Hangs(m', Put(t, pp, At(t, pp).Child(!pside)), up)
  {
    var q, sb, g := At(t, pp).o, At(t, pp).Child(!pside), Anchor(t, up, pp);
    AnchorFacts(m, t, up, pp);
    assert Rep(m, sb, Up(q, !pside)) && q !in Links(sb);
    RepMove(m, m', sb, Up(q, !pside), g);
    SpliceContext(m, m', t, pp, q, sb, g);
    RepPut(m, m', t, up, pp, sb);
    HangsPut(m, m', t, up, pp, sb);
  }

  // ----- second step: the parent's link takes over the link of the entity

  /** m' is m after the link part of q took over the top link of s, at g. */
  ghost predicate TakenOver(m: Memory, m': Memory, s: Tree, q: Node, g: Parent) {
    && m'.Keys == m.Keys && g.Up? && g.n in m && q in m && s.Link? && s.o in m
    && (forall n | n in m && n != q :: m'[n].bit == m[n].bit)
    && (forall n | n in m && n != q && n != g.n :: m'[n].b == m[n].b)
    && m'[g.n].b == m[g.n].b.With(g.side, LinkOf(q))
    && (forall n | n in m && n != q && LinkOf(n) != Ref(s.l) && LinkOf(n) != Ref(s.r) :: m'[n].nodeP == m[n].nodeP)
    && (forall n | n in m && LeafOf(n) != Ref(s.l) && LeafOf(n) != Ref(s.r) :: m'[n].leafP == m[n].leafP)
    && m'[q].b == m[s.o].b && m'[q].bit == m[s.o].bit && m'[q].nodeP == g
    && TopUp(m', s.l, Up(q, LEFT)) && TopUp(m', s.r, Up(q, RIGHT))
  }

  lemma TakeOverContext(m: Memory, m': Memory, t: Tree, lp: Path, q: Node, g: Parent)
    requires Separate(t) && ValidPath(t, lp) && At(t, lp).Link? && TakenOver(m, m', At(t, lp), q, g)
    requires g.n !in Links(At(t, lp)) && q !in Links(t) && g.n != q
    ensures ContextKept(m, m', t, lp, g, Link(q, At(t, lp).bit, At(t, lp).l, At(t, lp).r))
  {
    var s := At(t, lp);
    SeparateAt(t, lp);
    SetsAt(t, lp);
    forall e | e in OuterLeaves(t, lp)
      ensures SameLeaf(m, m', e)
    {
      assert LeafOf(e) != Ref(s.l) && LeafOf(e) != Ref(s.r);
    }
    forall o | o in OuterLinks(t, lp) && o != g.n
      ensures SameLink(m, m', o)
    {
      assert LinkOf(o) != Ref(s.l) && LinkOf(o) != Ref(s.r) && o != q;
    }
    assert LinkOf(g.n) != Ref(s.l) && LinkOf(g.n) != Ref(s.r);
  }

  lemma TakeOverMoves(m: Memory, m': Memory, s: Tree, q: Node, g: Parent)
    requires Separate(s) && s.Link? && Rep(m, s, g) && TakenOver(m, m', s, q, g)
    requires q !in Links(s) && g.n !in Links(s)
    ensures Rep(m', Link(q, s.bit, s.l, s.r), g)
  {
    RepMove(m, m', s.l, Up(s.o, LEFT), Up(q, LEFT));
    RepMove(m, m', s.r, Up(s.o, RIGHT), Up(q, RIGHT));
  }

  lemma TakeOverStep(m: Memory, m': Memory, t: Tree, up: Parent, lp: Path, q: Node)
    requires Separate(t) && Hangs(m, t, up) && ValidPath(t, lp) && At(t, lp).Link?
    requires TakenOver(m, m', At(t, lp), q, Anchor(t, up, lp))
    requires q !in Links(t) && q != up.n
    ensures var s := At(t, lp); Hangs(m', Put(t, lp, Link(q, s.bit, s.l, s.r)), up)
  {
    var s, g := At(t, lp), Anchor(t, up, lp);
    var u := Link(q, s.bit, s.l, s.r);
    AnchorFacts(m, t, up, lp);
    TakeOverMoves(m, m', s, q, g);
    TakeOverContext(m, m', t, lp, q, g);
    RepPut(m, m', t, up, lp, u);
    HangsPut(m, m', t, up, lp, u);
  }
}
