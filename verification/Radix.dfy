/** The radix tree invariants, and what they say about the order of the leaves. */
module EbRadix {
  import opened Options
  import opened Codes
  import opened EbNodes
  import opened EbTrees
  import opened EbLists

  /** The position in the code which a link owned by o branches on. Integer keys
      number their bits from the lowest one, byte strings from the highest one. */
  ghost function Pos(o: Node, bit: int): int {
    if o.key.U32? then 31 - bit else bit
  }

  ghost function BitOf(o: Node, pos: int): int {
    if o.key.U32? then 31 - pos else pos
  }

  /** Every leaf of t agrees with c on pos bits and then takes the given side. */
  ghost predicate Under(t: Tree, c: Code, pos: nat, side: bool) {
    forall e | e in LeafSet(t) :: pos < |e.code| && Agree(e.code, c, pos) && e.code[pos] == side
  }

  ghost predicate AllCode(t: Tree, c: Code) {
    forall e | e in LeafSet(t) :: e.code == c
  }

  ghost predicate SameKind(t: Tree, n: Node) {
    forall e | e in LeafSet(t) :: e.key.U32? == n.key.U32?
  }

  /** What the top link of a duplicate tree satisfies: one key only, negative
      bits which strictly increase downwards, and a link which owns the first
      leaf of its right branch. */
  ghost predicate DupLink(t: Tree)
    requires t.Link?
  {
    && t.bit < 0 && AllCode(t, t.o.code)
    && (t.l.Link? ==> t.bit < t.l.bit < 0)
    && (t.r.Link? ==> t.bit < t.r.bit < 0)
    && First(t.r) == t.o
  }

  /** What the top link of a radix tree satisfies: its leaves share the bits above
      it with the owner's key and split on its own bit; the owner is the first
      leaf carrying its key. */
  ghost predicate RadixLink(t: Tree)
    requires t.Link?
  {
    && t.bit >= 0 && Pos(t.o, t.bit) >= 0
    && Under(t.l, t.o.code, Pos(t.o, t.bit), LEFT)
    && Under(t.r, t.o.code, Pos(t.o, t.bit), RIGHT)
    && FirstWith(Leaves(t), t.o.code) == Some(t.o)
  }

  ghost predicate Radix(t: Tree) {
    match t
    case Leaf(_) => true
    case Link(o, bit, l, r) =>
      && Radix(l) && Radix(r) && SameKind(t, o)
      && if bit < 0 then DupLink(t) else RadixLink(t)
  }

  /** A well-formed tree. */
  ghost predicate WF(t: Tree) {
    Shape(t) && Radix(t)
  }

  ghost predicate WFTop(tt: Top) {
    tt.Full? ==> WF(tt.t)
  }

  ghost function Entities(tt: Top): seq<Node> {
    if tt.Empty? then [] else Leaves(tt.t)
  }

  lemma {:induction false} RadixAt(t: Tree, path: Path)
    requires ValidPath(t, path) && WF(t)
    ensures WF(At(t, path))
  {
    if path != [] {
      RadixAt(t.Child(path[0]), path[1..]);
    }
  }

  lemma LeafIndex(t: Tree, i: nat)
    requires i < |Leaves(t)|
    ensures Leaves(t)[i] in LeafSet(t)
  {
    LeavesAreLeafSet(t);
    assert Leaves(t)[i] in (set e | e in Leaves(t));
  }

  lemma LeavesSide(t: Tree)
    requires t.Link? && RadixLink(t)
    ensures var p := Pos(t.o, t.bit);
            && (forall i | 0 <= i < |Leaves(t.l)| ::
                  var c := Leaves(t.l)[i].code; p < |c| && Agree(c, t.o.code, p) && !c[p])
            && (forall i | 0 <= i < |Leaves(t.r)| ::
                  var c := Leaves(t.r)[i].code; p < |c| && Agree(c, t.o.code, p) && c[p])
  {
    forall i | 0 <= i < |Leaves(t.l)|
      ensures var p, c := Pos(t.o, t.bit), Leaves(t.l)[i].code; p < |c| && Agree(c, t.o.code, p) && !c[p]
    {
      LeafIndex(t.l, i);
    }
    forall i | 0 <= i < |Leaves(t.r)|
      ensures var p, c := Pos(t.o, t.bit), Leaves(t.r)[i].code; p < |c| && Agree(c, t.o.code, p) && c[p]
    {
      LeafIndex(t.r, i);
    }
  }

  /** Everything left of a link sorts before everything right of it. */
  lemma SidesOrdered(t: Tree, a: Node, b: Node)
    requires t.Link? && RadixLink(t) && a in LeafSet(t.l) && b in LeafSet(t.r)
    ensures Before(a.code, b.code) && !Before(b.code, a.code) && a.code != b.code
  {
    BeforeIs(a.code, b.code, Pos(t.o, t.bit));
  }

  lemma AllCodeLeaves(t: Tree, c: Code)
    requires AllCode(t, c)
    ensures forall i | 0 <= i < |Leaves(t)| :: Leaves(t)[i].code == c
  {
    forall i | 0 <= i < |Leaves(t)|
      ensures Leaves(t)[i].code == c
    {
      LeafIndex(t, i);
    }
  }

  /** The leaves of a radix tree are in order. */
  lemma {:induction false} RadixSorted(t: Tree)
    requires Radix(t)
    ensures Sorted(Leaves(t))
  {
    if t.Link? {
      RadixSorted(t.l);
      RadixSorted(t.r);
      forall i, j | 0 <= i < j < |Leaves(t)|
        ensures !Before(Leaves(t)[j].code, Leaves(t)[i].code)
      {
        var n := |Leaves(t.l)|;
        if t.bit < 0 {
          AllCodeLeaves(t, t.o.code);
          DiffSame(t.o.code);
        } else if j < n {
          assert Leaves(t)[i] == Leaves(t.l)[i] && Leaves(t)[j] == Leaves(t.l)[j];
        } else if i < n {
          LeafIndex(t.l, i);
          LeafIndex(t.r, j - n);
          SidesOrdered(t, Leaves(t.l)[i], Leaves(t.r)[j - n]);
        } else {
          assert Leaves(t)[i] == Leaves(t.r)[i - n] && Leaves(t)[j] == Leaves(t.r)[j - n];
        }
      }
    }
  }

  /** Positions strictly increase downwards, so the bits of an integer tree
      strictly decrease. */
  lemma PositionsDeepen(t: Tree, side: bool)
    requires WF(t) && t.Link? && t.bit >= 0 && t.Child(side).Link?
    ensures var c := t.Child(side);
            c.bit >= 0 ==> Pos(c.o, c.bit) > Pos(t.o, t.bit) && (t.o.key.U32? ==> c.bit < t.bit)
  {
    var c := t.Child(side);
    if c.bit >= 0 {
      FirstLast(c.l);
      FirstLast(c.r);
      assert Shape(c) && Radix(c);
      var a, b := First(c.l), First(c.r);
      assert a in LeafSet(c) && b in LeafSet(c) && c.o in LeafSet(c);
      assert c.o in LeafSet(t);
      assert a.code[Pos(c.o, c.bit)] != b.code[Pos(c.o, c.bit)];
    }
  }

  // ----- following a code down the tree

  /** From the top of t down to path, every link is one that code c passes, and
      the path takes the side which c takes there. */
  ghost predicate Route(t: Tree, path: Path, c: Code) {
    path == [] ||
    (&& t.Link? && t.bit >= 0 && 0 <= Pos(t.o, t.bit) < |c| && Agree(c, t.o.code, Pos(t.o, t.bit))
     && c[Pos(t.o, t.bit)] == path[0] && Route(t.Child(path[0]), path[1..], c))
  }

  lemma {:induction false} RouteDown(t: Tree, path: Path, c: Code)
    requires Route(t, path, c) && ValidPath(t, path)
    requires var s := At(t, path);
             s.Link? && s.bit >= 0 && 0 <= Pos(s.o, s.bit) < |c| && Agree(c, s.o.code, Pos(s.o, s.bit))
    ensures Route(t, path + [c[Pos(At(t, path).o, At(t, path).bit)]], c)
  {
    var side := c[Pos(At(t, path).o, At(t, path).bit)];
    if path == [] {
      assert (path + [side])[1..] == [];
    } else {
      assert (path + [side])[1..] == path[1..] + [side];
      RouteDown(t.Child(path[0]), path[1..], c);
    }
  }

  /** Leaves off the route sort strictly before or after the code. */
  lemma RouteOrder(t: Tree, path: Path, c: Code)
    requires WF(t) && Route(t, path, c) && ValidPath(t, path)
    ensures forall i | 0 <= i < |Pre(t, path)| :: Before(Pre(t, path)[i].code, c)
    ensures forall i | 0 <= i < |Post(t, path)| :: Before(c, Post(t, path)[i].code)
  {
    RouteBefore(t, path, c);
    RouteAfter(t, path, c);
  }

  lemma {:induction false} RouteBefore(t: Tree, path: Path, c: Code)
    requires WF(t) && Route(t, path, c) && ValidPath(t, path)
    ensures forall i | 0 <= i < |Pre(t, path)| :: Before(Pre(t, path)[i].code, c)
  {
    if path != [] {
      var u, rest := t.Child(path[0]), path[1..];
      RouteBefore(u, rest, c);
      LeavesSide(t);
      forall i | 0 <= i < |Pre(t, path)|
        ensures Before(Pre(t, path)[i].code, c)
      {
        if path[0] && i < |Leaves(t.l)| {
          BeforeIs(Leaves(t.l)[i].code, c, Pos(t.o, t.bit));
        } else {
          assert Pre(t, path)[i] == Pre(u, rest)[if path[0] then i - |Leaves(t.l)| else i];
        }
      }
    }
  }

  lemma {:induction false} RouteAfter(t: Tree, path: Path, c: Code)
    requires WF(t) && Route(t, path, c) && ValidPath(t, path)
    ensures forall i | 0 <= i < |Post(t, path)| :: Before(c, Post(t, path)[i].code)
  {
    if path != [] {
      var u, rest := t.Child(path[0]), path[1..];
      RouteAfter(u, rest, c);
      LeavesSide(t);
      forall i | 0 <= i < |Post(t, path)|
        ensures Before(c, Post(t, path)[i].code)
      {
        if i < |Post(u, rest)| {
          assert Post(t, path)[i] == Post(u, rest)[i];
        } else {
          BeforeIs(c, Leaves(t.r)[i - |Post(u, rest)|].code, Pos(t.o, t.bit));
        }
      }
    }
  }

  /** So the first entity with the code is the first one below the route. */
  lemma RouteFirst(t: Tree, path: Path, c: Code)
    requires WF(t) && Route(t, path, c) && ValidPath(t, path)
    ensures FirstWith(Leaves(t), c) == FirstWith(Leaves(At(t, path)), c)
  {
    RouteOrder(t, path, c);
    DiffSame(c);
    LeavesAt(t, path);
    var a, b, z := Pre(t, path), Leaves(At(t, path)), Post(t, path);
    FirstWithNone(a, c);
    FirstWithNone(z, c);
    FirstWithConcat(a + b, z, c);
    FirstWithConcat(a, b, c);
  }

  /** Every link above path branches on a bit of the key. */
  ghost predicate RadixAbove(t: Tree, path: Path) {
    path == [] || (t.Link? && t.bit >= 0 && RadixAbove(t.Child(path[0]), path[1..]))
  }

  lemma {:induction false} RadixAboveDown(t: Tree, path: Path, side: bool)
    requires ValidPath(t, path) && RadixAbove(t, path) && At(t, path).Link? && At(t, path).bit >= 0
    ensures RadixAbove(t, path + [side])
  {
    if path == [] {
      assert (path + [side])[1..] == [];
    } else {
      assert (path + [side])[1..] == path[1..] + [side];
      RadixAboveDown(t.Child(path[0]), path[1..], side);
    }
  }

  /** Below such a path, the path is the route of every leaf. */
  lemma {:induction false} RouteOfLeaf(t: Tree, path: Path, e: Node)
    requires WF(t) && ValidPath(t, path) && RadixAbove(t, path) && e in LeafSet(At(t, path))
    ensures Route(t, path, e.code)
  {
    if path != [] {
      SetsAt(t.Child(path[0]), path[1..]);
      RouteOfLeaf(t.Child(path[0]), path[1..], e);
    }
  }
}
