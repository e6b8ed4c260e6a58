/** Trees of 32-bit keys: eb32tree.h and eb32tree.c. */
module Eb32 {
  import opened Options
  import opened Codes
  import opened Bits
  import opened EbNodes
  import opened EbTrees
  import opened EbMemory
  import opened EbLists
  import opened EbRadix
  import opened EbInsert
  import opened EbLinking
  import opened EbDupTree
  import opened EbTree
  import opened EbWalk

  ghost predicate IsU32(n: Node) {
    n.key.U32? && 0 <= n.key.k < TWO32 && n.code == Code32(n.key.k)
  }

  ghost predicate AllU32(tt: Top) {
    forall e | e in Members(tt) :: IsU32(e)
  }

  lemma Insertable32(t: Tree, n: Node)
    requires AllU32(Full(t)) && IsU32(n) && n !in LeafSet(t)
    ensures Insertable(t, n)
  {
    forall e | e in LeafSet(t)
      ensures e.key.U32? && Comparable(n.code, e.code)
    {
      assert e in Members(Full(t));
      Order32(n.key.k, e.key.k);
    }
  }

  /** The tests of the descent on integers are the ones on bit strings. */
  lemma DescentTest(s: Tree, n: Node)
    requires WF(s) && IsU32(n) && IsU32(Head(s)) && Insertable(s, n)
    ensures s.Link? && s.bit >= 0 ==>
              && s.bit <= 31
              && (Stops(s, n.code) <==> Shr(Xor(n.key.k, s.o.key.k), s.bit) >= 2)
              && n.code[Pos(s.o, s.bit)] == (Shr(n.key.k, s.bit) % 2 == 1)
  {
    hide Radix, Shape, Diff, Xor, Shr, LeafSet, Links, Agree;
    HeadIsLeaf(s);
    if s.Link? && s.bit >= 0 {
      DiffersAbove(n.key.k, s.o.key.k, s.bit);
    }
  }

  /** What the code does where the descent stops is what insertion means. */
  lemma StopInsert32(s: Tree, n: Node)
    requires WF(s) && Insertable(s, n) && IsU32(n) && IsU32(Head(s)) && Stops(s, n.code)
    ensures var a, b := n.key.k, Head(s).key.k;
            && (a != b ==> Xor(a, b) > 0)
            && (a == b <==> n.code == Head(s).code)
            && Placing(s, n, a == b, if a == b then -1 else Fls(Xor(a, b)) - 1, a >= b)
  {
    var a, b := n.key.k, Head(s).key.k;
    HeadIsLeaf(s);
    SameCode32(a, b);
    if a != b {
      HighestDifference(a, b);
      Order32(a, b);
      Order32(b, a);
      DiffIs(n.code, Head(s).code, Diff(n.code, Head(s).code));
    } else if s.Link? {
      StopSameIsDup(s, n.code);
    }
  }

  /** The descent stands at path. */
  ghost predicate DescentAt(root: Node, t: Tree, path: Path, n: Node, at: Node, side: bool, troot: Branch) {
    && Descending(t, path, n) && ValidPath(t, path)
    && troot == Ref(At(t, path)) && Up(at, side) == Anchor(t, Up(root, LEFT), path)
  }

  lemma DescentReads(m: Memory, root: Node, t: Tree, path: Path, n: Node, at: Node, side: bool, troot: Branch)
    requires RepTop(m, root, Full(t)) && AllU32(Full(t)) && IsU32(n) && DescentAt(root, t, path, n, at, side, troot)
    ensures !troot.Null? && troot.n == Head(At(t, path)) && troot.n in m && IsU32(troot.n) && troot.n in LeafSet(t)
    ensures troot.LinkOf? <==> At(t, path).Link?
    ensures troot.LinkOf? ==>
              var s := At(t, path);
              && m[s.o].bit == s.bit && m[s.o].b == Branches(Ref(s.l), Ref(s.r))
              && (s.bit >= 0 ==>
                    && (Stops(s, n.code) <==> Shr(Xor(n.key.k, s.o.key.k), s.bit) >= 2)
                    && 0 <= Pos(s.o, s.bit) < |n.code| && n.code[Pos(s.o, s.bit)] == (Shr(n.key.k, s.bit) % 2 == 1))
  {
    hide Radix, Rep, Code32;
    Reads(m, root, t, path);
    HeadKey(t, path);
    HeadIsLeaf(At(t, path));
    DescentTest(At(t, path), n);
  }

  lemma DescentDown(root: Node, t: Tree, path: Path, n: Node, at: Node, side: bool, troot: Branch)
    requires DescentAt(root, t, path, n, at, side, troot) && !Stops(At(t, path), n.code)
    ensures var s := At(t, path);
            && 0 <= Pos(s.o, s.bit) < |n.code|
            && var next := n.code[Pos(s.o, s.bit)];
               && DescentAt(root, t, path + [next], n, s.o, next, Ref(s.Child(next)))
               && At(t, path + [next]) == s.Child(next)
  {
    hide Radix;
    DescendingStep(t, path, n);
    PathDown(t, Up(root, LEFT), path, n.code[Pos(At(t, path).o, At(t, path).bit)]);
  }

  lemma StopsAt(s: Tree, c: Code)
    ensures s.Leaf? || s.bit < 0 ==> Stops(s, c)
  {
  }

  lemma DescentBegins(tree: EbRoot, n: Node)
    requires tree.Valid() && AllU32(tree.T) && IsU32(n) && n !in tree.Repr() && tree.T.Full?
    ensures DescentAt(tree.root, tree.T.t, [], n, tree.root, LEFT, tree.root.b.l)
    ensures RepTop(Snap(tree.Repr()), tree.root, Full(tree.T.t)) && LeafSet(tree.T.t) <= tree.Repr()
  {
    Insertable32(tree.T.t, n);
    DescendingStart(tree.T.t, n);
    Reads(Snap(tree.Repr()), tree.root, tree.T.t, []);
  }

  lemma HeadKey(t: Tree, path: Path)
    requires WF(t) && AllU32(Full(t)) && ValidPath(t, path)
    ensures IsU32(Head(At(t, path))) && WF(At(t, path))
  {
    hide Code32;
    RadixAt(t, path);
    SetsAt(t, path);
    HeadIsLeaf(At(t, path));
    assert Head(At(t, path)) in Members(Full(t));
  }

  /** The descent of eb32_insert(): troot is where n goes, on the given side of at. */
  method Descend32(tree: EbRoot, n: Node) returns (at: Node, side: bool, troot: Branch, ghost path: Path)
    requires tree.Valid() && AllU32(tree.T) && IsU32(n) && n !in tree.Repr() && tree.T.Full?
    ensures tree.Valid() && Snap(tree.Repr()) == old(Snap(tree.Repr()))
    ensures DescentAt(tree.root, tree.T.t, path, n, at, side, troot) && Stops(At(tree.T.t, path), n.code)
    ensures IsU32(Head(At(tree.T.t, path))) && !troot.Null? && troot.n == Head(At(tree.T.t, path))
  {
    hide Rep, Radix, Shape, RepTop, Links, LeafSet, Route, Code32, Insertable, Diff, Anchor, Stops, Descending, WF, NoDups;
    ghost var t, root, m := tree.T.t, tree.root, Snap(tree.Repr());
    at, side, path := tree.root, LEFT, [];
    troot := at.b.At(side);
    var newkey := n.key.k;
    DescentBegins(tree, n);
    while true
      invariant tree.Valid() && DescentAt(root, t, path, n, at, side, troot) && Snap(tree.Repr()) == m
      decreases At(t, path)
    {
      DescentReads(m, root, t, path, n, at, side, troot);
      StopsAt(At(t, path), n.code);
      if troot.LeafOf? {
        break;
      }
      var cur := troot.n;
      assert m[cur].bit == cur.bit && m[cur].b == cur.b;
      if cur.bit < 0 || Shr(Xor(newkey, cur.key.k), cur.bit) >= 2 {
        break;
      }
      DescentDown(root, t, path, n, at, side, troot);
      at := cur;
      side := Shr(newkey, cur.bit) % 2 == 1;
      troot := at.b.At(side);
      path := path + [side];
    }
  }

  /** eb32_insert() */
  method Insert32(tree: EbRoot, n: Node) returns (r: Node)
    requires tree.Valid() && AllU32(tree.T) && IsU32(n) && n !in tree.Repr()
    modifies tree`T, tree.Repr()`b, tree.Repr()`nodeP, tree.Repr()`leafP, n`b, n`nodeP, n`leafP, n`bit
    ensures tree.Valid() && AllU32(tree.T) && tree.root.b.r == old(tree.root.b.r)
    ensures if old(Refused(tree.Unique(), tree.T, n)) then
              && FirstWith(tree.Contents(), n.code) == Some(r)
              && tree.T == old(tree.T) && Snap(tree.Repr()) == old(Snap(tree.Repr())) && n.leafP == old(n.leafP)
            else r == n && WFInsert(old(tree.T), tree.T, n)
  {
    hide Rep, Radix, Shape, Links, Code32;
    if tree.root.b.l.Null? {
      InsertFirst(tree, n);
      r := n;
    } else {
      r := InsertBelowRoot(tree, n);
    }
  }

  method InsertBelowRoot(tree: EbRoot, n: Node) returns (r: Node)
    requires tree.Valid() && AllU32(tree.T) && IsU32(n) && n !in tree.Repr() && tree.T.Full?
    modifies tree`T, tree.Repr()`b, tree.Repr()`nodeP, tree.Repr()`leafP, n`b, n`nodeP, n`leafP, n`bit
    ensures tree.Valid() && AllU32(tree.T) && tree.root.b.r == old(tree.root.b.r)
    ensures if old(Refused(tree.Unique(), tree.T, n)) then
              && FirstWith(tree.Contents(), n.code) == Some(r)
              && tree.T == old(tree.T) && Snap(tree.Repr()) == old(Snap(tree.Repr())) && n.leafP == old(n.leafP)
            else r == n && WFInsert(old(tree.T), tree.T, n)
  {
    hide Rep, Radix, Shape, Links, Code32, Leaves, FirstWith, Insert, Ins, Placing, Route, Diff, LeafSet, RepTop, WF;
    ghost var t := tree.T.t;
    var at, side, troot, path := Descend32(tree, n);
    StopInsert32(At(t, path), n);
    var cur := troot.n;
    var same := n.key.k == cur.key.k;
    if same && tree.Unique() {
      FoundUnique(t, path, n);
      return cur;
    }
    var bit := if same then -1 else Fls(Xor(n.key.k, cur.key.k)) - 1;
    PlaceInTree(tree, at, side, troot, n, same, bit, n.key.k >= cur.key.k, path);
    r := n;
  }

  // ----- lookup

  /** Where the lookup of c stands: on the route of c, or lost in a duplicate tree
      of another key when c is not in the tree at all. */
  ghost predicate Searching(t: Tree, path: Path, c: Code) {
    && ValidPath(t, path)
    && (Route(t, path, c) || (FirstWith(Leaves(t), c).None? && forall e | e in LeafSet(At(t, path)) :: e.code != c))
  }

  lemma SearchResult(t: Tree, path: Path, c: Code)
    requires WF(t) && Searching(t, path, c)
    ensures FirstWith(Leaves(t), c) == FirstWith(Leaves(At(t, path)), c)
  {
    if Route(t, path, c) {
      RouteFirst(t, path, c);
    } else {
      var s := At(t, path);
      forall i | 0 <= i < |Leaves(s)|
        ensures Leaves(s)[i].code != c
      {
        LeafIndex(s, i);
      }
      FirstWithNone(Leaves(s), c);
    }
  }

  /** A link which carries the key leads to its first entity. */
  lemma FoundAtLink(s: Tree, c: Code)
    requires WF(s) && s.Link? && s.o.code == c
    ensures FirstWith(Leaves(s), c) == Some(if s.bit < 0 then First(s.l) else s.o)
  {
    if s.bit < 0 {
      AllCodeLeaves(s, c);
      FirstLast(s.l);
    }
  }

  /** A link which does not share the bits above it does not lead to the key, nor
      does a duplicate tree of another key. */
  lemma NotBelow(s: Tree, c: Code)
    requires WF(s) && s.Link? && s.o.code != c
    requires s.bit < 0 || Diff(c, s.o.code) < Pos(s.o, s.bit)
    requires Comparable(c, s.o.code)
    ensures forall e | e in LeafSet(s) :: e.code != c
    ensures FirstWith(Leaves(s), c).None?
  {
    StopAgrees(s, c);
    forall i | 0 <= i < |Leaves(s)|
      ensures Leaves(s)[i].code != c
    {
      LeafIndex(s, i);
    }
    FirstWithNone(Leaves(s), c);
  }

  /** One level of the lookup: inside a duplicate tree of another key, any side
      will do... */
  lemma SearchStepDup(t: Tree, path: Path, side: bool, c: Code)
    requires WF(t) && Searching(t, path, c)
    requires var s := At(t, path); s.Link? && s.bit < 0 && s.o.code != c && Comparable(c, s.o.code)
    ensures Searching(t, path + [side], c)
  {
    RadixAt(t, path);
    PathDown(t, NoParent, path, side);
    SearchResult(t, path, c);
    NotBelow(At(t, path), c);
  }

  /** ... and above, the side which the key takes. */
  lemma SearchStepRadix(t: Tree, path: Path, c: Code)
    requires WF(t) && Searching(t, path, c)
    requires var s := At(t, path);
             s.Link? && s.bit >= 0 && 0 <= Pos(s.o, s.bit) < |c| && Diff(c, s.o.code) >= Pos(s.o, s.bit)
    ensures Searching(t, path + [c[Pos(At(t, path).o, At(t, path).bit)]], c)
  {
    var s := At(t, path);
    PathDown(t, NoParent, path, c[Pos(s.o, s.bit)]);
    if Route(t, path, c) {
      RouteDown(t, path, c);
    }
  }

  lemma SearchStart(t: Tree, c: Code)
    ensures Searching(t, [], c)
  {
  }

  /** What the comparisons of the lookup mean. */
  lemma SameTests(n: Node, x: int)
    requires 0 <= x < TWO32 && IsU32(n)
    ensures Comparable(Code32(x), n.code) && (n.code == Code32(x) <==> n.key.k == x)
    ensures Xor(n.key.k, x) == 0 <==> n.key.k == x
  {
    SameCode32(n.key.k, x);
    Order32(x, n.key.k);
    XorZero(n.key.k, x);
  }

  lemma FarTests(s: Tree, x: int)
    requires WF(s) && 0 <= x < TWO32 && s.Link? && s.bit >= 0 && IsU32(s.o)
    ensures s.bit <= 31 && Pos(s.o, s.bit) == 31 - s.bit
    ensures Shr(Xor(s.o.key.k, x), s.bit) >= 2 <==> Diff(Code32(x), s.o.code) < Pos(s.o, s.bit)
    ensures Code32(x)[Pos(s.o, s.bit)] == (Shr(x, s.bit) % 2 == 1)
  {
    HeadIsLeaf(s);
    XorCommutes(s.o.key.k, x);
    DiffersAbove(x, s.o.key.k, s.bit);
  }

  lemma {:induction false} XorCommutes(a: nat, b: nat)
    ensures Xor(a, b) == Xor(b, a)
    decreases a + b
  {
    if a != 0 || b != 0 {
      XorCommutes(a / 2, b / 2);
    }
  }

  /** eb32_lookup(): the first entity with key x, if any. */
  method Lookup32(tree: EbRoot, x: int) returns (r: Node?)
    requires tree.Valid() && AllU32(tree.T) && 0 <= x < TWO32
    ensures tree.Valid()
    ensures Opt(r) == FirstWith(tree.Contents(), Code32(x))
  {
    hide Rep, Radix, Shape, Links, Code32, Route, RepTop, Diff;
    var troot := tree.root.b.l;
    if troot.Null? {
      EmptyTree(tree);
      return null;
    }
    FullTree(tree);
    ghost var t, m, c, path := tree.T.t, Snap(tree.Repr()), Code32(x), [];
    SearchStart(t, c);
    while true
      invariant tree.Valid() && ValidPath(t, path) && troot == Ref(At(t, path)) && Searching(t, path, c)
      decreases At(t, path)
    {
      Reads(m, tree.root, t, path);
      RadixAt(t, path);
      ghost var s := At(t, path);
      SameTests(Head(s), x);
      SearchResult(t, path, c);
      var node := troot.n;
      if troot.LeafOf? {
        return if node.key.k == x then node else null;
      }
      var y := Xor(node.key.k, x);
      if y == 0 {
        FoundAtLink(s, c);
        if node.bit < 0 {
          PathDown(t, NoParent, path, LEFT);
          r := WalkDown(tree, node.b.l, LEFT, path + [LEFT]);
          return;
        }
        return node;
      }
      var far, side: bool := *, *;  // whatever a shift by a negative count gives
      if node.bit >= 0 {
        FarTests(s, x);
        far, side := Shr(y, node.bit) >= 2, Shr(x, node.bit) % 2 == 1;
      }
      if far {
        NotBelow(s, c);
        return null;
      }
      if node.bit < 0 {
        SearchStepDup(t, path, side, c);
      } else {
        SearchStepRadix(t, path, c);
      }
      PathDown(t, NoParent, path, side);
      troot := node.b.At(side);
      path := path + [side];
    }
  }

  // ----- ordered lookup

  ghost function FirstKey(s: seq<Node>, x: int): Option<Node>
    requires forall i | 0 <= i < |s| :: s[i].key.U32?
  {
    if s == [] then None else if s[0].key.k == x then Some(s[0]) else FirstKey(s[1..], x)
  }

  /** The first entity, in order, whose key is at least x. */
  ghost function FirstGe(s: seq<Node>, x: int): Option<Node>
    requires forall i | 0 <= i < |s| :: s[i].key.U32?
  {
    if s == [] then None else if s[0].key.k >= x then Some(s[0]) else FirstGe(s[1..], x)
  }

  /** The last entity, in order, whose key is at most x. */
  ghost function LastLe(s: seq<Node>, x: int): Option<Node>
    requires forall i | 0 <= i < |s| :: s[i].key.U32?
  {
    if s == [] then None
    else if s[|s| - 1].key.k <= x then Some(s[|s| - 1])
    else LastLe(s[..|s| - 1], x)
  }

  ghost predicate Larger(s: seq<Node>, x: int) { forall i | 0 <= i < |s| :: s[i].key.U32? && s[i].key.k >= x }

  ghost predicate Smaller(s: seq<Node>, x: int) { forall i | 0 <= i < |s| :: s[i].key.U32? && s[i].key.k < x }

  lemma {:induction false} FirstGeSkips(a: seq<Node>, b: seq<Node>, x: int)
    requires Smaller(a, x) && Larger(b, x)
    ensures FirstGe(a + b, x) == FirstOf(b)
  {
    if a == [] {
      assert a + b == b;
    } else {
      assert (a + b)[1..] == a[1..] + b;
      FirstGeSkips(a[1..], b, x);
    }
  }

  lemma {:induction false} LastLeSkips(a: seq<Node>, b: seq<Node>, x: int)
    requires Smaller(a, x + 1) && Larger(b, x + 1)
    ensures LastLe(a + b, x) == LastOf(a)
  {
    if b == [] {
      assert a + b == a;
    } else {
      assert (a + b)[..|a + b| - 1] == a + b[..|b| - 1];
      LastLeSkips(a, b[..|b| - 1], x);
    }
  }

  /** The subtree in the middle lies on one side of x altogether. */
  lemma GeSplit(a: seq<Node>, b: seq<Node>, c: seq<Node>, x: int)
    requires Smaller(a, x) && Larger(c, x + 1) && (Smaller(b, x) || Larger(b, x)) && b != []
    ensures FirstGe(a + b + c, x) == if Larger(b, x) then Some(b[0]) else FirstOf(c)
  {
    if Larger(b, x) {
      assert a + b + c == a + (b + c);
      FirstGeSkips(a, b + c, x);
    } else {
      FirstGeSkips(a + b, c, x);
    }
  }

  lemma LeSplit(a: seq<Node>, b: seq<Node>, c: seq<Node>, x: int)
    requires Smaller(a, x) && Larger(c, x + 1) && (Smaller(b, x + 1) || Larger(b, x + 1)) && b != []
    ensures LastLe(a + b + c, x) == if Smaller(b, x + 1) then Some(b[|b| - 1]) else LastOf(a)
  {
    if Smaller(b, x + 1) {
      LastLeSkips(a + b, c, x);
    } else {
      assert a + b + c == a + (b + c);
      LastLeSkips(a, b + c, x);
    }
  }

  ghost predicate Keyed(s: seq<Node>) {
    forall i | 0 <= i < |s| :: IsU32(s[i])
  }

  lemma KeyedLeaves(t: Tree)
    requires AllU32(Full(t))
    ensures Keyed(Leaves(t))
  {
    hide Code32;
    forall i | 0 <= i < |Leaves(t)|
      ensures IsU32(Leaves(t)[i])
    {
      LeafIndex(t, i);
    }
  }

  lemma KeyedSplit(a: seq<Node>, b: seq<Node>, c: seq<Node>)
    requires Keyed(a + b + c)
    ensures Keyed(a) && Keyed(b) && Keyed(c)
  {
    hide Code32;
    var s := a + b + c;
    assert forall i | 0 <= i < |a| :: a[i] == s[i];
    assert forall i | 0 <= i < |b| :: b[i] == s[|a| + i];
    assert forall i | 0 <= i < |c| :: c[i] == s[|a| + |b| + i];
  }

  lemma BeforeKeys(s: seq<Node>, x: int)
    requires Keyed(s) && 0 <= x < TWO32
    ensures (forall i | 0 <= i < |s| :: Before(s[i].code, Code32(x))) ==> Smaller(s, x)
    ensures (forall i | 0 <= i < |s| :: Before(Code32(x), s[i].code)) ==> Larger(s, x + 1)
  {
    hide Code32;
    forall i | 0 <= i < |s|
      ensures Before(s[i].code, Code32(x)) ==> s[i].key.k < x
      ensures Before(Code32(x), s[i].code) ==> x < s[i].key.k
    {
      Order32(s[i].key.k, x);
      Order32(x, s[i].key.k);
    }
  }

  /** Off the route of x, keys are smaller on the left and larger on the right. */
  lemma RouteKeys(t: Tree, path: Path, x: int)
    requires WF(t) && AllU32(Full(t)) && 0 <= x < TWO32 && ValidPath(t, path) && Route(t, path, Code32(x))
    ensures Keyed(Leaves(t)) && Keyed(Leaves(At(t, path)))
    ensures Smaller(Pre(t, path), x) && Larger(Post(t, path), x + 1)
    ensures Leaves(t) == Pre(t, path) + Leaves(At(t, path)) + Post(t, path)
  {
    hide Code32, Radix, Shape, Leaves, Pre, Post, Diff, Route;
    KeyedLeaves(t);
    LeavesAt(t, path);
    KeyedSplit(Pre(t, path), Leaves(At(t, path)), Post(t, path));
    RouteOrder(t, path, Code32(x));
    BeforeKeys(Pre(t, path), x);
    BeforeKeys(Post(t, path), x);
  }

  lemma GeResult(t: Tree, path: Path, x: int)
    requires WF(t) && AllU32(Full(t)) && 0 <= x < TWO32 && ValidPath(t, path) && Route(t, path, Code32(x))
    requires Smaller(Leaves(At(t, path)), x) || Larger(Leaves(At(t, path)), x)
    ensures Keyed(Leaves(t))
    ensures FirstGe(Leaves(t), x) ==
            if Larger(Leaves(At(t, path)), x) then Some(First(At(t, path))) else FirstOf(Post(t, path))
  {
    hide Code32, Radix, Shape, Leaves, Pre, Post, Route;
    RouteKeys(t, path, x);
    FirstLast(At(t, path));
    GeSplit(Pre(t, path), Leaves(At(t, path)), Post(t, path), x);
  }

  lemma LeResult(t: Tree, path: Path, x: int)
    requires WF(t) && AllU32(Full(t)) && 0 <= x < TWO32 && ValidPath(t, path) && Route(t, path, Code32(x))
    requires Smaller(Leaves(At(t, path)), x + 1) || Larger(Leaves(At(t, path)), x + 1)
    ensures Keyed(Leaves(t))
    ensures LastLe(Leaves(t), x) ==
            if Smaller(Leaves(At(t, path)), x + 1) then Some(Last(At(t, path))) else LastOf(Pre(t, path))
  {
    hide Code32, Radix, Shape, Leaves, Pre, Post, Route;
    RouteKeys(t, path, x);
    FirstLast(At(t, path));
    LeSplit(Pre(t, path), Leaves(At(t, path)), Post(t, path), x);
  }

  /** Where the descent for x stops on a different key, all keys are on the same
      side of x as the one of the link. */
  lemma StopKeys(s: Tree, x: int)
    requires WF(s) && AllU32(Full(s)) && 0 <= x < TWO32 && Stops(s, Code32(x)) && Head(s).key.U32? && Head(s).key.k != x
    ensures Head(s).key.k < x ==> Smaller(Leaves(s), x)
    ensures Head(s).key.k > x ==> Larger(Leaves(s), x + 1)
  {
    hide Code32, Radix, Shape, Stops;
    var c := Code32(x);
    HeadIsLeaf(s);
    assert IsU32(Head(s));
    SameTests(Head(s), x);
    StopAgrees(s, c);
    KeyedLeaves(s);
    forall i | 0 <= i < |Leaves(s)|
      ensures Head(s).key.k < x ==> Leaves(s)[i].key.k < x
      ensures Head(s).key.k > x ==> Leaves(s)[i].key.k > x
    {
      LeafIndex(s, i);
      SameSide(Leaves(s)[i], Head(s), x, Diff(c, Head(s).code));
    }
  }

  lemma SameSide(a: Node, b: Node, x: int, d: nat)
    requires IsU32(a) && IsU32(b) && 0 <= x < TWO32
    requires var c := Code32(x);
             && d < |c| && d < |a.code| && d < |b.code| && Agree(a.code, c, d) && Agree(b.code, c, d)
             && a.code[d] != c[d] && b.code[d] != c[d]
    ensures (a.key.k < x <==> b.key.k < x) && (a.key.k > x <==> b.key.k > x)
  {
    hide Code32;
    DiffIs(a.code, Code32(x), d);
    DiffIs(b.code, Code32(x), d);
    Order32(a.key.k, x);
    Order32(x, a.key.k);
    Order32(b.key.k, x);
    Order32(x, b.key.k);
  }

  lemma SameKeys(s: Tree, x: int)
    requires WF(s) && AllU32(Full(s)) && (s.Leaf? || s.bit < 0) && IsU32(Head(s)) && Head(s).key.k == x
    ensures Larger(Leaves(s), x) && Smaller(Leaves(s), x + 1)
  {
    hide Code32;
    KeyedLeaves(s);
    forall i | 0 <= i < |Leaves(s)|
      ensures Leaves(s)[i].key.k == x
    {
      LeafIndex(s, i);
      HeadIsLeaf(s);
      SameCode32(Leaves(s)[i].key.k, x);
    }
  }

  /** Above a differing bit, comparing the keys is comparing what is left of them. */
  lemma FarCompare(k: int, x: int, i: nat)
    requires 0 <= k && 0 <= x && Shr(Xor(k, x), i) >= 2
    ensures Shr(k, i) > Shr(x, i) <==> k > x
    ensures Shr(k, i) < Shr(x, i) <==> k < x
    ensures k != x
  {
    ShrXor(k, x, i);
    XorSmall(Shr(k, i), Shr(x, i));
    ShrOrder(k, x, i);
  }

  /** The descent of the ordered lookups. */
  ghost predicate Stopped(t: Tree, path: Path, x: int) {
    && 0 <= x < TWO32 && ValidPath(t, path) && Route(t, path, Code32(x))
    && Stops(At(t, path), Code32(x))
  }

  method DescendFor(tree: EbRoot, x: int) returns (node: Node, leaf: bool, ghost path: Path)
    requires tree.Valid() && AllU32(tree.T) && 0 <= x < TWO32 && tree.T.Full?
    ensures tree.Valid()
    ensures Stopped(tree.T.t, path, x)
    ensures Ref(At(tree.T.t, path)) == if leaf then LeafOf(node) else LinkOf(node)
    ensures !leaf ==> node.bit == At(tree.T.t, path).bit
  {
    hide Rep, Radix, Shape, Links, Code32, Route, RepTop, Diff;
    var troot := tree.root.b.l;
    ghost var t, m := tree.T.t, Snap(tree.Repr());
    Reads(m, tree.root, t, []);
    path := [];
    RouteStart(t, Code32(x));
    while troot.LinkOf?
      invariant tree.Valid() && ValidPath(t, path) && troot == Ref(At(t, path)) && Route(t, path, Code32(x))
      decreases At(t, path)
    {
      node := troot.n;
      Reads(m, tree.root, t, path);
      RadixAt(t, path);
      if node.bit < 0 {
        return node, false, path;
      }
      FarTests(At(t, path), x);
      if Shr(Xor(x, node.key.k), node.bit) >= 2 {
        XorCommutes(x, node.key.k);
        return node, false, path;
      }
      XorCommutes(x, node.key.k);
      var side := Shr(x, node.bit) % 2 == 1;
      troot := node.b.At(side);
      RouteDown(t, path, Code32(x));
      PathDown(t, NoParent, path, side);
      path := path + [side];
    }
    node, leaf := troot.n, true;
  }

  lemma RouteStart(t: Tree, c: Code)
    ensures Route(t, [], c)
  {
  }

  /** Where the descent stopped, comparing the head with x decides for the whole
      subtree. */
  lemma StoppedKeys(t: Tree, path: Path, x: int)
    requires WF(t) && AllU32(Full(t)) && Stopped(t, path, x)
    ensures var s := At(t, path);
            && WF(s) && IsU32(Head(s)) && AllU32(Full(s))
            && (Head(s).key.k < x ==> Smaller(Leaves(s), x) && Smaller(Leaves(s), x + 1))
            && (Head(s).key.k > x ==> Larger(Leaves(s), x + 1) && Larger(Leaves(s), x))
            && (Head(s).key.k == x ==> (s.Leaf? || s.bit < 0) && Larger(Leaves(s), x) && Smaller(Leaves(s), x + 1))
  {
    hide Code32, Radix, Shape, Stops, Route;
    var s := At(t, path);
    RadixAt(t, path);
    SetsAt(t, path);
    HeadIsLeaf(s);
    assert Head(s) in Members(Full(t)) && IsU32(Head(s));
    if Head(s).key.k == x {
      if s.Link? {
        StopSameIsDup(s, Code32(x));
      }
      SameKeys(s, x);
    } else {
      StopKeys(s, x);
    }
  }

  /** At a link which is too far from x, its bits above decide. */
  lemma StoppedFar(t: Tree, path: Path, x: int)
    requires WF(t) && AllU32(Full(t)) && Stopped(t, path, x) && At(t, path).Link? && At(t, path).bit >= 0
    ensures var s := At(t, path);
            && s.o.key.U32? && s.o.key.k >= 0
            && (Shr(s.o.key.k, s.bit) > Shr(x, s.bit) <==> s.o.key.k > x)
            && (Shr(s.o.key.k, s.bit) < Shr(x, s.bit) <==> s.o.key.k < x)
            && s.o.key.k != x
  {
    var s := At(t, path);
    StoppedKeys(t, path, x);
    FarTests(s, x);
    FarCompare(s.o.key.k, x, s.bit);
  }

  lemma StoppedGe(t: Tree, path: Path, x: int)
    requires WF(t) && AllU32(Full(t)) && Stopped(t, path, x)
    ensures Keyed(Leaves(t)) && IsU32(Head(At(t, path)))
    ensures FirstGe(Leaves(t), x) ==
            if Head(At(t, path)).key.k >= x then Some(First(At(t, path))) else FirstOf(Post(t, path))
  {
    hide Code32, Radix, Shape, Stops, Route;
    StoppedKeys(t, path, x);
    GeResult(t, path, x);
    if Larger(Leaves(At(t, path)), x) {
      assert Leaves(At(t, path))[0].key.k >= x;
    }
  }

  lemma StoppedLe(t: Tree, path: Path, x: int)
    requires WF(t) && AllU32(Full(t)) && Stopped(t, path, x)
    ensures Keyed(Leaves(t)) && IsU32(Head(At(t, path)))
    ensures LastLe(Leaves(t), x) ==
            if Head(At(t, path)).key.k <= x then Some(Last(At(t, path))) else LastOf(Pre(t, path))
  {
    hide Code32, Radix, Shape, Stops, Route;
    StoppedKeys(t, path, x);
    LeResult(t, path, x);
    if Smaller(Leaves(At(t, path)), x + 1) {
      assert Leaves(At(t, path))[0].key.k <= x;
    }
  }

  lemma StoppedAnchor(tree: EbRoot, path: Path)
    requires tree.Valid() && tree.T.Full? && ValidPath(tree.T.t, path)
    ensures var s := At(tree.T.t, path);
            && Standing(tree, if s.Leaf? then s.e.leafP else s.o.nodeP, path)
            && (s.Link? ==> s.o.b == Branches(Ref(s.l), Ref(s.r)))
  {
    hide Radix;
    Reads(Snap(tree.Repr()), tree.root, tree.T.t, path);
  }

  lemma OuterLeafDown(t: Tree, path: Path, side: bool)
    requires ValidPath(t, path) && At(t, path).Link?
    ensures ValidPath(t, path + [side]) && At(t, path + [side]) == At(t, path).Child(side)
    ensures First(At(t, path)) == First(At(t, path).l) && Last(At(t, path)) == Last(At(t, path).r)
  {
    PathDown(t, NoParent, path, side);
  }

  /** eb32_lookup_ge(): the first entity of the lowest key which is at least x. */
  method LookupGe32(tree: EbRoot, x: int) returns (r: Node?)
    requires tree.Valid() && AllU32(tree.T) && 0 <= x < TWO32
    ensures tree.Valid() && Keyed(tree.Contents())
    ensures Opt(r) == FirstGe(tree.Contents(), x)
  {
    hide Rep, Radix, Shape, Links, Code32, Route, RepTop, Stops, LeafSet, Leaves;
    if tree.root.b.l.Null? {
      EmptyTree(tree);
      return null;
    }
    FullTree(tree);
    var node, leaf, path := DescendFor(tree, x);
    ghost var t := tree.T.t;
    StoppedGe(t, path, x);
    StoppedAnchor(tree, path);
    var troot;
    if leaf {
      if node.key.k >= x {
        return node;
      }
      troot := node.leafP;
    } else if node.bit < 0 {
      if node.key.k >= x {
        OuterLeafDown(t, path, LEFT);
        r := WalkDown(tree, node.b.l, LEFT, path + [LEFT]);
        return;
      }
      troot := node.nodeP;
    } else {
      StoppedFar(t, path, x);
      if Shr(node.key.k, node.bit) > Shr(x, node.bit) {
        OuterLeafDown(t, path, LEFT);
        r := WalkDown(tree, node.b.l, LEFT, path + [LEFT]);
        return;
      }
      troot := node.nodeP;
    }
    r := NextFrom(tree, troot, path);
  }

  /** eb32_lookup_le(): the last entity of the highest key which is at most x. */
  method LookupLe32(tree: EbRoot, x: int) returns (r: Node?)
    requires tree.Valid() && AllU32(tree.T) && 0 <= x < TWO32
    ensures tree.Valid() && Keyed(tree.Contents())
    ensures Opt(r) == LastLe(tree.Contents(), x)
  {
    hide Rep, Radix, Shape, Links, Code32, Route, RepTop, Stops, LeafSet, Leaves;
    if tree.root.b.l.Null? {
      EmptyTree(tree);
      return null;
    }
    FullTree(tree);
    var node, leaf, path := DescendFor(tree, x);
    ghost var t := tree.T.t;
    StoppedLe(t, path, x);
    StoppedAnchor(tree, path);
    var troot;
    if leaf {
      if node.key.k <= x {
        return node;
      }
      troot := node.leafP;
    } else if node.bit < 0 {
      if node.key.k <= x {
        OuterLeafDown(t, path, RIGHT);
        r := WalkDown(tree, node.b.r, RIGHT, path + [RIGHT]);
        return;
      }
      troot := node.nodeP;
    } else {
      StoppedFar(t, path, x);
      if Shr(node.key.k, node.bit) < Shr(x, node.bit) {
        OuterLeafDown(t, path, RIGHT);
        r := WalkDown(tree, node.b.r, RIGHT, path + [RIGHT]);
        return;
      }
      troot := node.nodeP;
    }
    r := PrevFrom(tree, troot, path);
  }

  // ----- the same in terms of integer keys

  /** Looking up the code of x is looking up the key x. */
  lemma {:induction false} FirstByKey(s: seq<Node>, x: int)
    requires Keyed(s) && 0 <= x < TWO32
    ensures FirstWith(s, Code32(x)) == FirstKey(s, x)
  {
    hide Code32;
    if s != [] {
      SameTests(s[0], x);
      assert forall i | 0 <= i < |s[1..]| :: s[1..][i] == s[i + 1];
      FirstByKey(s[1..], x);
    }
  }

  /** Insertion puts n after all keys up to its own and before all larger ones. */
  lemma InsertedByKey(s: seq<Node>, n: Node) returns (k: nat)
    requires Keyed(s) && IsU32(n) && Sorted(s)
    ensures k <= |s| && Ins(s, n) == s[..k] + [n] + s[k..]
    ensures forall i | 0 <= i < k :: s[i].key.k <= n.key.k
    ensures forall i | k <= i < |s| :: s[i].key.k > n.key.k
  {
    hide Code32;
    k := InsIs(s, n);
    forall i | 0 <= i < |s|
      ensures i < k ==> s[i].key.k <= n.key.k
      ensures i >= k ==> s[i].key.k > n.key.k
    {
      Order32(n.key.k, s[i].key.k);
      if i >= k {
        Order32(n.key.k, s[k].key.k);
        Order32(s[i].key.k, s[k].key.k);
      }
    }
  }
}
