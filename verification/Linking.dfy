/** Reading a represented tree, and the pointer updates which every insertion
    ends with. */
module EbLinking {
  import opened EbNodes
  import opened EbTrees
  import opened EbMemory
  import opened EbInsert
  import opened EbDeleteMemory
  import opened EbAttach

  /** What memory holds for the subtree at path. */
  lemma Reads(m: Memory, root: Node, t: Tree, path: Path)
    requires RepTop(m, root, Full(t)) && Shape(t) && ValidPath(t, path)
    ensures var s, g := At(t, path), Anchor(t, Up(root, LEFT), path);
            && g.Up? && g.n in m && (g.n == root || g.n in LeafSet(t)) && (path != [] ==> g.n in LeafSet(t))
            && m[g.n].b.At(g.side) == Ref(s) && Head(s) in LeafSet(t) && Head(s) in m
            && g.n !in Links(s) && (g.n == root <==> path == [])
            && (s.Leaf? ==> m[s.e].leafP == g)
            && (s.Link? ==> m[s.o].nodeP == g && m[s.o].bit == s.bit && m[s.o].b == Branches(Ref(s.l), Ref(s.r)))
  {
    ShapeSeparate(t);
    LinksAreLeaves(t);
    AnchorFacts(m, t, Up(root, LEFT), path);
    HeadInside(At(t, path));
    SetsAt(t, path);
  }

  /** The new link itself. */
  method SetUp(n: Node, bit: int, up: Parent, b: Branches, right: bool, ghost S: set<Node>)
    requires n !in S
    modifies n`b, n`nodeP, n`leafP, n`bit
    ensures n.bit == bit && n.nodeP == up && n.b == b && n.leafP == Up(n, right) && Snap(S) == old(Snap(S))
  {
    n.bit := bit;
    n.nodeP := up;
    n.b := b;
    n.leafP := Up(n, right);
  }

  /** The pointer updates which every insertion ends with: n takes the place of
      below, on the given side of parent, and below hangs on n. */
  method LinkAbove(parent: Node, side: bool, below: Branch, n: Node, bit: int, right: bool, ghost S: set<Node>, ghost s: Tree)
    requires parent in S && n !in S && below == Ref(s) && below.n in S
    modifies S`b, S`nodeP, S`leafP, n`b, n`nodeP, n`leafP, n`bit
    ensures Attached(old(Snap(S)), Snap(S + {n}), s, n, bit, right, Up(parent, side))
  {
    ghost var m := Snap(S);
    SetUp(n, bit, Up(parent, side), if right then Branches(below, LeafOf(n)) else Branches(LeafOf(n), below), right, S);
    if below.LeafOf? {
      below.n.leafP := Up(n, !right);
    } else {
      below.n.nodeP := Up(n, !right);
    }
    parent.b := parent.b.With(side, LinkOf(n));
    assert forall x | x in S :: m[x] == old(Cell(x.b, x.nodeP, x.leafP, x.bit));
  }

  /** The same for a subtree of a represented tree. */
  method InsertAbove(parent: Node, side: bool, below: Branch, n: Node, bit: int, right: bool,
                     ghost root: Node, ghost t: Tree, ghost path: Path, ghost S: set<Node>)
    requires S == {root} + LeafSet(t) && n !in S && RepTop(Snap(S), root, Full(t)) && Shape(t)
    requires ValidPath(t, path) && below == Ref(At(t, path)) && Up(parent, side) == Anchor(t, Up(root, LEFT), path)
    modifies S`b, S`nodeP, S`leafP, n`b, n`nodeP, n`leafP, n`bit
    ensures RepTop(Snap(S + {n}), root, Full(Put(t, path, Cap(At(t, path), n, bit, right))))
    ensures root.b.r == old(root.b.r)
  {
    hide Rep, Shape, Attached, Links, RepTop;
    ghost var m := Snap(S);
    Reads(m, root, t, path);
    LinkAbove(parent, side, below, n, bit, right, S, At(t, path));
    AttachTop(m, Snap(S + {n}), root, t, path, n, bit, right);
    assert Snap(S + {n})[root].b.r == root.b.r;
  }
}
