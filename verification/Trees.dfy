/** The tree a memory represents, as a value: leaves, and links named after the
    entity whose link part they are. Subtrees are addressed by paths. */
module EbTrees {
  import opened EbNodes

  datatype Tree = Leaf(e: Node) | Link(o: Node, bit: int, l: Tree, r: Tree) {
    ghost function Child(side: bool): Tree
      requires Link?
    {
      if side then r else l
    }
  }

  /** A whole tree, which may be empty. */
  datatype Top = Empty | Full(t: Tree)

  /** The path from the top of a tree to one of its subtrees. */
  type Path = seq<bool>

  // ----- leaves and links

  /** The leaves in order. */
  ghost function Leaves(t: Tree): (s: seq<Node>)
    ensures |s| > 0
  {
    match t
    case Leaf(e) => [e]
    case Link(_, _, l, r) => Leaves(l) + Leaves(r)
  }

  ghost function LeafSet(t: Tree): (s: set<Node>)
    ensures s != {}
  {
    match t
    case Leaf(e) => {e}
    case Link(_, _, l, r) => assert LeafSet(l) != {}; LeafSet(l) + LeafSet(r)
  }

  /** The entities whose link part is in use. */
  ghost function Links(t: Tree): set<Node> {
    match t
    case Leaf(_) => {}
    case Link(o, _, l, r) => {o} + Links(l) + Links(r)
  }

  ghost function First(t: Tree): Node {
    match t
    case Leaf(e) => e
    case Link(_, _, l, _) => First(l)
  }

  ghost function Last(t: Tree): Node {
    match t
    case Leaf(e) => e
    case Link(_, _, _, r) => Last(r)
  }

  /** Elastic ownership: every entity has one leaf, uses its link part at most
      once, and only above its own leaf. */
  ghost predicate Shape(t: Tree) {
    match t
    case Leaf(_) => true
    case Link(o, _, l, r) =>
      && Shape(l) && Shape(r)
      && LeafSet(l) !! LeafSet(r)
      && o in LeafSet(l) + LeafSet(r)
      && o !in Links(l) && o !in Links(r)
  }

  /** No leaf and no link occurs twice. */
  ghost predicate Separate(t: Tree) {
    match t
    case Leaf(_) => true
    case Link(o, _, l, r) =>
      && Separate(l) && Separate(r)
      && LeafSet(l) !! LeafSet(r) && Links(l) !! Links(r)
      && o !in Links(l) && o !in Links(r)
  }

  lemma {:induction false} ShapeSeparate(t: Tree)
    requires Shape(t)
    ensures Separate(t)
  {
    match t
    case Leaf(_) =>
    case Link(_, _, l, r) =>
      ShapeSeparate(l);
      ShapeSeparate(r);
      LinksAreLeaves(l);
      LinksAreLeaves(r);
  }

  lemma {:induction false} LeavesAreLeafSet(t: Tree)
    ensures (set e | e in Leaves(t)) == LeafSet(t)
  {
    match t
    case Leaf(_) =>
    case Link(_, _, l, r) =>
      LeavesAreLeafSet(l);
      LeavesAreLeafSet(r);
  }

  lemma {:induction false} FirstLast(t: Tree)
    ensures First(t) == Leaves(t)[0] && Last(t) == Leaves(t)[|Leaves(t)| - 1]
    ensures First(t) in LeafSet(t) && Last(t) in LeafSet(t)
  {
    match t
    case Leaf(_) =>
    case Link(_, _, l, r) =>
      FirstLast(l);
      FirstLast(r);
  }

  lemma {:induction false} LinksAreLeaves(t: Tree)
    requires Shape(t)
    ensures Links(t) <= LeafSet(t)
  {
    match t
    case Leaf(_) =>
    case Link(_, _, l, r) =>
      LinksAreLeaves(l);
      LinksAreLeaves(r);
  }

  /** There is exactly one link less than there are leaves... */
  lemma {:induction false} LinkCount(t: Tree)
    requires Shape(t)
    ensures |LeafSet(t)| == |Links(t)| + 1 == |Leaves(t)|
  {
    match t
    case Leaf(_) =>
    case Link(o, _, l, r) =>
      LinkCount(l);
      LinkCount(r);
      LinksAreLeaves(l);
      LinksAreLeaves(r);
      assert Links(l) !! Links(r);
      assert |{o} + (Links(l) + Links(r))| == 1 + |Links(l)| + |Links(r)|;
      assert Links(t) == {o} + (Links(l) + Links(r));
  }

  /** ... so exactly one linked entity has a spare link part. */
  lemma SpareLink(t: Tree) returns (z: Node)
    requires Shape(t)
    ensures z in LeafSet(t) && LeafSet(t) - Links(t) == {z}
  {
    LinkCount(t);
    LinksAreLeaves(t);
    var s := LeafSet(t) - Links(t);
    assert LeafSet(t) == Links(t) + s;
    assert |s| == 1;
    z :| z in s;
    assert |s - {z}| == 0;
    assert s == {z};
  }

  ghost predicate Distinct<T>(s: seq<T>) {
    forall i, j :: 0 <= i < j < |s| ==> s[i] != s[j]
  }

  lemma DistinctConcat<T>(a: seq<T>, b: seq<T>)
    requires Distinct(a) && Distinct(b)
    requires forall x :: x in a ==> x !in b
    ensures Distinct(a + b)
  {
    forall i, j | 0 <= i < j < |a + b|
      ensures (a + b)[i] != (a + b)[j]
    {
      if i < |a| <= j {
        assert a[i] in a && b[j - |a|] in b;
      }
    }
  }

  lemma {:induction false} LeavesDistinct(t: Tree)
    requires Shape(t)
    ensures Distinct(Leaves(t))
  {
    match t
    case Leaf(_) =>
    case Link(_, _, l, r) =>
      LeavesDistinct(l);
      LeavesDistinct(r);
      LeavesAreLeafSet(l);
      LeavesAreLeafSet(r);
      forall x | x in Leaves(l)
        ensures x !in Leaves(r)
      {
        assert x in LeafSet(l);
      }
      DistinctConcat(Leaves(l), Leaves(r));
  }

  /** n linked above s, with its own leaf on the given side. */
  ghost function Cap(s: Tree, n: Node, bit: int, right: bool): Tree {
    if right then Link(n, bit, s, Leaf(n)) else Link(n, bit, Leaf(n), s)
  }

  // ----- paths

  ghost predicate ValidPath(t: Tree, path: Path) {
    path == [] || (t.Link? && ValidPath(t.Child(path[0]), path[1..]))
  }

  ghost function At(t: Tree, path: Path): Tree
    requires ValidPath(t, path)
  {
    if path == [] then t else At(t.Child(path[0]), path[1..])
  }

  /** The tree with the subtree at path replaced by u. */
  ghost function Put(t: Tree, path: Path, u: Tree): Tree
    requires ValidPath(t, path)
  {
    if path == [] then u
    else if path[0] then t.(r := Put(t.r, path[1..], u))
    else t.(l := Put(t.l, path[1..], u))
  }

  /** Where the subtree at path hangs, given where the whole tree hangs. */
  ghost function Anchor(t: Tree, up: Parent, path: Path): Parent
    requires ValidPath(t, path)
  {
    if path == [] then up else Anchor(t.Child(path[0]), Up(t.o, path[0]), path[1..])
  }

  /** The links, and the leaves, outside the subtree at path. */
  ghost function OuterLinks(t: Tree, path: Path): set<Node>
    requires ValidPath(t, path)
  {
    if path == [] then {}
    else {t.o} + Links(t.Child(!path[0])) + OuterLinks(t.Child(path[0]), path[1..])
  }

  ghost function OuterLeaves(t: Tree, path: Path): set<Node>
    requires ValidPath(t, path)
  {
    if path == [] then {}
    else LeafSet(t.Child(!path[0])) + OuterLeaves(t.Child(path[0]), path[1..])
  }

  /** The leaves before, and after, the subtree at path, in order. */
  ghost function Pre(t: Tree, path: Path): seq<Node>
    requires ValidPath(t, path)
  {
    if path == [] then []
    else (if path[0] then Leaves(t.l) else []) + Pre(t.Child(path[0]), path[1..])
  }

  ghost function Post(t: Tree, path: Path): seq<Node>
    requires ValidPath(t, path)
  {
    if path == [] then []
    else Post(t.Child(path[0]), path[1..]) + (if path[0] then [] else Leaves(t.r))
  }

  lemma {:induction false} LeavesAt(t: Tree, path: Path)
    requires ValidPath(t, path)
    ensures Leaves(t) == Pre(t, path) + Leaves(At(t, path)) + Post(t, path)
  {
    if path != [] {
      LeavesAt(t.Child(path[0]), path[1..]);
    }
  }

  lemma {:induction false} PutAt(t: Tree, path: Path, u: Tree)
    requires ValidPath(t, path)
    ensures ValidPath(Put(t, path, u), path) && At(Put(t, path, u), path) == u
  {
    if path != [] {
      PutAt(t.Child(path[0]), path[1..], u);
    }
  }

  lemma {:induction false} SetsAt(t: Tree, path: Path)
    requires ValidPath(t, path)
    ensures LeafSet(t) == OuterLeaves(t, path) + LeafSet(At(t, path))
    ensures Links(t) == OuterLinks(t, path) + Links(At(t, path))
  {
    if path != [] {
      SetsAt(t.Child(path[0]), path[1..]);
    }
  }

  lemma {:induction false} SetsPut(t: Tree, path: Path, u: Tree)
    requires ValidPath(t, path)
    ensures LeafSet(Put(t, path, u)) == OuterLeaves(t, path) + LeafSet(u)
    ensures Links(Put(t, path, u)) == OuterLinks(t, path) + Links(u)
  {
    if path != [] {
      SetsPut(t.Child(path[0]), path[1..], u);
    }
  }

  lemma {:induction false} SeparateAt(t: Tree, path: Path)
    requires ValidPath(t, path) && Separate(t)
    ensures Separate(At(t, path))
    ensures OuterLeaves(t, path) !! LeafSet(At(t, path))
    ensures OuterLinks(t, path) !! Links(At(t, path))
  {
    if path != [] {
      SeparateAt(t.Child(path[0]), path[1..]);
      SetsAt(t.Child(path[0]), path[1..]);
    }
  }

  lemma {:induction false} SeparatePut(t: Tree, path: Path, u: Tree)
    requires ValidPath(t, path) && Separate(t) && Separate(u)
    requires LeafSet(u) !! OuterLeaves(t, path) && Links(u) !! OuterLinks(t, path)
    ensures Separate(Put(t, path, u))
  {
    if path != [] {
      var c, rest := t.Child(path[0]), path[1..];
      SeparatePut(c, rest, u);
      SetsPut(c, rest, u);
      SetsAt(c, rest);
    }
  }

  /** Stepping one level down from path. */
  lemma {:induction false} PathDown(t: Tree, up: Parent, path: Path, side: bool)
    requires ValidPath(t, path) && At(t, path).Link?
    ensures ValidPath(t, path + [side])
    ensures At(t, path + [side]) == At(t, path).Child(side)
    ensures Anchor(t, up, path + [side]) == Up(At(t, path).o, side)
    ensures Pre(t, path + [side]) == Pre(t, path) + (if side then Leaves(At(t, path).l) else [])
    ensures Post(t, path + [side]) == (if side then [] else Leaves(At(t, path).r)) + Post(t, path)
  {
    if path == [] {
      assert (path + [side])[1..] == [];
    } else {
      assert (path + [side])[1..] == path[1..] + [side];
      PathDown(t.Child(path[0]), Up(t.o, path[0]), path[1..], side);
    }
  }

  /** Stepping one level up from path. */
  lemma PathUp(t: Tree, up: Parent, path: Path)
    requires ValidPath(t, path) && path != []
    ensures var p, side := path[..|path| - 1], path[|path| - 1];
            && ValidPath(t, p) && At(t, p).Link?
            && At(t, path) == At(t, p).Child(side)
            && Anchor(t, up, path) == Up(At(t, p).o, side)
            && Pre(t, path) == Pre(t, p) + (if side then Leaves(At(t, p).l) else [])
            && Post(t, path) == (if side then [] else Leaves(At(t, p).r)) + Post(t, p)
  {
    var p, side := path[..|path| - 1], path[|path| - 1];
    PrefixPath(t, path, |path| - 1);
    assert path == p + [side];
    PathDown(t, up, p, side);
  }

  lemma {:induction false} PrefixPath(t: Tree, path: Path, n: nat)
    requires ValidPath(t, path) && n <= |path|
    ensures ValidPath(t, path[..n])
    ensures n < |path| ==> At(t, path[..n]).Link?
  {
    if n > 0 {
      assert path[..n][1..] == path[1..][..n - 1];
      PrefixPath(t.Child(path[0]), path[1..], n - 1);
    }
  }

  /** The path to the leaf of e. */
  ghost function LeafPath(t: Tree, e: Node): (path: Path)
    requires e in LeafSet(t)
    ensures ValidPath(t, path) && At(t, path) == Leaf(e)
  {
    match t
    case Leaf(_) => []
    case Link(_, _, l, r) =>
      if e in LeafSet(l) then [LEFT] + LeafPath(l, e) else [RIGHT] + LeafPath(r, e)
  }

  /** The anchor of a path other than the empty one is a link outside the subtree. */
  lemma {:induction false} AnchorIsOuter(t: Tree, up: Parent, path: Path)
    requires ValidPath(t, path) && path != []
    ensures Anchor(t, up, path).Up? && Anchor(t, up, path).n in OuterLinks(t, path)
    ensures Anchor(t, up, path).side == path[|path| - 1]
  {
    if |path| > 1 {
      AnchorIsOuter(t.Child(path[0]), Up(t.o, path[0]), path[1..]);
    }
  }
}
