/** Walking a tree: eb_walk_down(), eb_first() .. eb_prev_unique(). */
module EbWalk {
  import opened Options
  import opened Codes
  import opened EbNodes
  import opened EbTrees
  import opened EbMemory
  import opened EbLists
  import opened EbRadix
  import opened EbInsert
  import opened EbLinking
  import opened EbTree

  // ----- what the walks mean on the list of entities

  ghost function SuffixAfter(s: seq<Node>, n: Node): seq<Node> {
    if s == [] then [] else if s[0] == n then s[1..] else SuffixAfter(s[1..], n)
  }

  ghost function PrefixBefore(s: seq<Node>, n: Node): seq<Node> {
    if s == [] || s[0] == n then [] else [s[0]] + PrefixBefore(s[1..], n)
  }

  ghost function FirstOf(s: seq<Node>): Option<Node> {
    if s == [] then None else Some(s[0])
  }

  ghost function LastOf(s: seq<Node>): Option<Node> {
    if s == [] then None else Some(s[|s| - 1])
  }

  /** The first, and the last, entity which does not carry code c. */
  ghost function FirstOther(s: seq<Node>, c: Code): Option<Node> {
    if s == [] then None else if s[0].code != c then Some(s[0]) else FirstOther(s[1..], c)
  }

  ghost function LastOther(s: seq<Node>, c: Code): Option<Node> {
    if s == [] then None
    else if s[|s| - 1].code != c then Some(s[|s| - 1])
    else LastOther(s[..|s| - 1], c)
  }

  ghost function IfSame(o: Option<Node>, c: Code): Option<Node> {
    if o.Some? && o.value.code == c then o else None
  }

  ghost function Opt(n: Node?): Option<Node> {
    if n == null then None else Some(n)
  }

  lemma {:induction false} SplitAround(a: seq<Node>, n: Node, b: seq<Node>)
    requires n !in a
    ensures SuffixAfter(a + [n] + b, n) == b && PrefixBefore(a + [n] + b, n) == a
  {
    var s := a + [n] + b;
    if a == [] {
      assert s[1..] == b;
    } else {
      assert s[1..] == a[1..] + [n] + b;
      SplitAround(a[1..], n, b);
    }
  }

  /** Where n is, what comes before and after it. */
  lemma SplitAt(s: seq<Node>, n: Node) returns (i: nat)
    requires Distinct(s) && n in s
    ensures i < |s| && s[i] == n && SuffixAfter(s, n) == s[i + 1..] && PrefixBefore(s, n) == s[..i]
  {
    i :| i < |s| && s[i] == n;
    assert s == s[..i] + [n] + s[i + 1..];
    forall j | 0 <= j < i
      ensures s[..i][j] != n
    {
      assert s[j] != s[i];
    }
    SplitAround(s[..i], n, s[i + 1..]);
  }

  /** Stepping forwards and stepping backwards undo each other. */
  lemma NextPrevInverse(s: seq<Node>, n: Node, k: Node)
    requires Distinct(s) && n in s && k in s
    ensures FirstOf(SuffixAfter(s, n)) == Some(k) <==> LastOf(PrefixBefore(s, k)) == Some(n)
  {
    hide SuffixAfter, PrefixBefore;
    var i := SplitAt(s, n);
    var j := SplitAt(s, k);
  }

  /** The steps by position: to the neighbour, or to the neighbour if it has the same key. */
  lemma NeighboursOf(s: seq<Node>, i: nat)
    requires Distinct(s) && i < |s|
    ensures FirstOf(SuffixAfter(s, s[i])) == if i + 1 < |s| then Some(s[i + 1]) else None
    ensures LastOf(PrefixBefore(s, s[i])) == if i > 0 then Some(s[i - 1]) else None
    ensures IfSame(FirstOf(SuffixAfter(s, s[i])), s[i].code) ==
            if i + 1 < |s| && s[i + 1].code == s[i].code then Some(s[i + 1]) else None
    ensures IfSame(LastOf(PrefixBefore(s, s[i])), s[i].code) ==
            if i > 0 && s[i - 1].code == s[i].code then Some(s[i - 1]) else None
  {
    hide SuffixAfter, PrefixBefore;
    var k := SplitAt(s, s[i]);
    assert k == i;
  }

  lemma {:induction false} FirstOtherAt(z: seq<Node>, c: Code) returns (n: nat)
    ensures n <= |z| && (n < |z| ==> z[n].code != c) && forall k | 0 <= k < n :: z[k].code == c
    ensures FirstOther(z, c) == if n < |z| then Some(z[n]) else None
  {
    if z == [] || z[0].code != c {
      n := 0;
    } else {
      n := FirstOtherAt(z[1..], c);
      assert forall k | 0 < k < n + 1 :: z[k] == z[1..][k - 1];
      n := n + 1;
    }
  }

  lemma {:induction false} LastOtherAt(z: seq<Node>, c: Code) returns (n: nat)
    ensures n <= |z| && (n > 0 ==> z[n - 1].code != c) && forall k | n <= k < |z| :: z[k].code == c
    ensures LastOther(z, c) == if n > 0 then Some(z[n - 1]) else None
  {
    if z == [] || z[|z| - 1].code != c {
      n := |z|;
    } else {
      n := LastOtherAt(z[..|z| - 1], c);
    }
  }

  /** The steps to another key by position: all entities in between have the same key. */
  lemma OthersOf(s: seq<Node>, i: nat) returns (a: nat, z: nat)
    requires Distinct(s) && i < |s|
    ensures a <= i < z <= |s| && forall k | a <= k < z :: s[k].code == s[i].code
    ensures (a > 0 ==> s[a - 1].code != s[i].code) && (z < |s| ==> s[z].code != s[i].code)
    ensures LastOther(PrefixBefore(s, s[i]), s[i].code) == if a > 0 then Some(s[a - 1]) else None
    ensures FirstOther(SuffixAfter(s, s[i]), s[i].code) == if z < |s| then Some(s[z]) else None
  {
    hide SuffixAfter, PrefixBefore, FirstOther, LastOther;
    var p := SplitAt(s, s[i]);
    assert p == i;
    a := LastOtherAt(s[..i], s[i].code);
    var n := FirstOtherAt(s[i + 1..], s[i].code);
    assert forall k | i < k < i + 1 + n :: s[k] == s[i + 1..][k - i - 1];
    z := i + 1 + n;
  }

  lemma {:induction false} FirstOtherSkips(a: seq<Node>, b: seq<Node>, c: Code)
    requires forall i | 0 <= i < |a| :: a[i].code == c
    ensures FirstOther(a + b, c) == FirstOther(b, c)
  {
    if a == [] {
      assert a + b == b;
    } else {
      assert (a + b)[1..] == a[1..] + b;
      FirstOtherSkips(a[1..], b, c);
    }
  }

  lemma {:induction false} LastOtherSkips(a: seq<Node>, b: seq<Node>, c: Code)
    requires forall i | 0 <= i < |b| :: b[i].code == c
    ensures LastOther(a + b, c) == LastOther(a, c)
  {
    if b == [] {
      assert a + b == a;
    } else {
      assert (a + b)[..|a + b| - 1] == a + b[..|b| - 1];
      LastOtherSkips(a, b[..|b| - 1], c);
    }
  }

  lemma FirstOtherIs(a: seq<Node>, b: seq<Node>, c: Code)
    requires a != [] && a[0].code != c
    ensures FirstOther(a + b, c) == Some(a[0])
  {
  }

  lemma LastOtherIs(a: seq<Node>, b: seq<Node>, c: Code)
    requires b != [] && b[|b| - 1].code != c
    ensures LastOther(a + b, c) == Some(b[|b| - 1])
  {
  }

  /** The leaf of e splits the leaves. */
  lemma LeafSplits(t: Tree, e: Node)
    requires Shape(t) && e in LeafSet(t)
    ensures var p := LeafPath(t, e);
            SuffixAfter(Leaves(t), e) == Post(t, p) && PrefixBefore(Leaves(t), e) == Pre(t, p)
  {
    var p := LeafPath(t, e);
    LeavesAt(t, p);
    LeavesDistinct(t);
    var a, b := Pre(t, p), Post(t, p);
    assert Leaves(t) == a + [e] + b;
    forall i | 0 <= i < |a|
      ensures a[i] != e
    {
      assert Leaves(t)[i] == a[i] && Leaves(t)[|a|] == e;
    }
    SplitAround(a, e, b);
  }

  // ----- walking down

  /** eb_walk_down() on a branch of the tree. */
  method WalkDown(ghost tree: EbRoot, start: Branch, side: bool, ghost path: Path) returns (r: Node)
    requires tree.Valid() && tree.T.Full? && ValidPath(tree.T.t, path) && start == Ref(At(tree.T.t, path))
    ensures tree.Valid()
    ensures r == if side then Last(At(tree.T.t, path)) else First(At(tree.T.t, path))
  {
    hide Rep, Radix, Shape, RepTop, Links, LeafSet;
    ghost var t, root, m, p := tree.T.t, tree.root, Snap(tree.Repr()), path;
    var br := start;
    assert RepTop(m, root, Full(t));
    while br.LinkOf?
      invariant ValidPath(t, p) && br == Ref(At(t, p))
      invariant Last(At(t, p)) == Last(At(t, path)) || !side
      invariant First(At(t, p)) == First(At(t, path)) || side
      decreases At(t, p)
    {
      Reads(m, root, t, p);
      PathDown(t, NoParent, p, side);
      br := br.n.b.At(side);
      p := p + [side];
    }
    r := br.n;
  }

  /** eb_first() */
  method FirstEntity(tree: EbRoot) returns (r: Node?)
    requires tree.Valid()
    ensures tree.Valid()
    ensures Opt(r) == FirstOf(tree.Contents())
  {
    hide Rep, Radix, Shape, Links;
    if tree.root.b.l.Null? {
      return null;
    }
    FirstLast(tree.T.t);
    r := WalkDown(tree, tree.root.b.l, LEFT, []);
  }

  /** eb_last() */
  method LastEntity(tree: EbRoot) returns (r: Node?)
    requires tree.Valid()
    ensures tree.Valid()
    ensures Opt(r) == LastOf(tree.Contents())
  {
    hide Rep, Radix, Shape, Links;
    if tree.root.b.l.Null? {
      return null;
    }
    FirstLast(tree.T.t);
    r := WalkDown(tree, tree.root.b.l, RIGHT, []);
  }

  // ----- walking up

  /** t hangs on the link above the subtree at path, or on the root. */
  ghost predicate Standing(tree: EbRoot, t: Parent, path: Path)
    reads tree
  {
    && tree.T.Full? && ValidPath(tree.T.t, path)
    && t == Anchor(tree.T.t, Up(tree.root, LEFT), path)
  }

  lemma StandAtLeaf(tree: EbRoot, e: Node)
    requires tree.Valid() && e in Members(tree.T)
    ensures Standing(tree, e.leafP, LeafPath(tree.T.t, e))
    ensures SuffixAfter(tree.Contents(), e) == Post(tree.T.t, LeafPath(tree.T.t, e))
    ensures PrefixBefore(tree.Contents(), e) == Pre(tree.T.t, LeafPath(tree.T.t, e))
  {
    Reads(Snap(tree.Repr()), tree.root, tree.T.t, LeafPath(tree.T.t, e));
    LeafSplits(tree.T.t, e);
  }

  /** What the code reads at a tagged parent pointer. */
  lemma StandReads(tree: EbRoot, t: Parent, path: Path)
    requires tree.Valid() && Standing(tree, t, path)
    ensures t.Up? && t.n in tree.Repr()
    ensures path == [] ==> t == Up(tree.root, LEFT) && t.n.b.r.Null? && Post(tree.T.t, path) == [] && Pre(tree.T.t, path) == []
    ensures path != [] ==>
              var p := path[..|path| - 1];
              && ValidPath(tree.T.t, p) && At(tree.T.t, p).Link?
              && var s := At(tree.T.t, p);
                 && t.n == s.o && t.side == path[|path| - 1] && At(tree.T.t, path) == s.Child(t.side)
                 && t.n.bit == s.bit && t.n.b == Branches(Ref(s.l), Ref(s.r))
                 && Standing(tree, t.n.nodeP, p)
                 && Pre(tree.T.t, path) == (if t.side then Pre(tree.T.t, p) + Leaves(s.l) else Pre(tree.T.t, p))
                 && Post(tree.T.t, path) == (if t.side then Post(tree.T.t, p) else Leaves(s.r) + Post(tree.T.t, p))
                 && ValidPath(tree.T.t, p + [!t.side]) && At(tree.T.t, p + [!t.side]) == s.Child(!t.side)
  {
    hide Radix, Rep;
    var tt, m := tree.T.t, Snap(tree.Repr());
    Reads(m, tree.root, tt, path);
    if path != [] {
      var p := path[..|path| - 1];
      PathUp(tt, Up(tree.root, LEFT), path);
      Reads(m, tree.root, tt, p);
      PathDown(tt, Up(tree.root, LEFT), p, !path[|path| - 1]);
    }
  }

  /** The walk up and right which eb_next() and the ordered lookups share: from
      tagged parent pointer start to the first leaf after the subtree at path. */
  method NextFrom(ghost tree: EbRoot, start: Parent, ghost path: Path) returns (r: Node?)
    requires tree.Valid() && Standing(tree, start, path)
    ensures tree.Valid()
    ensures Opt(r) == FirstOf(Post(tree.T.t, path))
  {
    hide Rep, Radix, Shape, Links, LeafSet, WF, RepTop;
    ghost var tt, p := tree.T.t, path;
    var t := start;
    StandReads(tree, t, p);
    while t.side != LEFT
      invariant tree.Valid() && Standing(tree, t, p) && t.Up?
      invariant Post(tt, p) == Post(tt, path)
      decreases |p|
    {
      StandReads(tree, t, p);
      t, p := t.n.nodeP, p[..|p| - 1];
      StandReads(tree, t, p);
    }
    StandReads(tree, t, p);
    var br := t.n.b.r;
    if br.Null? {
      return null;
    }
    FirstLast(At(tt, p[..|p| - 1] + [RIGHT]));
    r := WalkDown(tree, br, LEFT, p[..|p| - 1] + [RIGHT]);
  }

  /** The mirror walk of eb_prev(), which must not go beyond the root. */
  method PrevFrom(ghost tree: EbRoot, start: Parent, ghost path: Path) returns (r: Node?)
    requires tree.Valid() && Standing(tree, start, path)
    ensures tree.Valid()
    ensures Opt(r) == LastOf(Pre(tree.T.t, path))
  {
    hide Rep, Radix, Shape, Links, LeafSet, WF, RepTop;
    ghost var tt, p := tree.T.t, path;
    var t := start;
    StandReads(tree, t, p);
    while t.side == LEFT
      invariant tree.Valid() && Standing(tree, t, p) && t.Up?
      invariant Pre(tt, p) == Pre(tt, path)
      decreases |p|
    {
      StandReads(tree, t, p);
      if t.n.b.r.Null? {
        return null;
      }
      t, p := t.n.nodeP, p[..|p| - 1];
      StandReads(tree, t, p);
    }
    StandReads(tree, t, p);
    FirstLast(At(tt, p[..|p| - 1] + [LEFT]));
    r := WalkDown(tree, t.n.b.l, RIGHT, p[..|p| - 1] + [LEFT]);
  }

  /** eb_next() */
  method Next(ghost tree: EbRoot, node: Node) returns (r: Node?)
    requires tree.Valid() && node in Members(tree.T)
    ensures tree.Valid()
    ensures Opt(r) == FirstOf(SuffixAfter(tree.Contents(), node))
  {
    StandAtLeaf(tree, node);
    r := NextFrom(tree, node.leafP, LeafPath(tree.T.t, node));
  }

  /** eb_prev() */
  method Prev(ghost tree: EbRoot, node: Node) returns (r: Node?)
    requires tree.Valid() && node in Members(tree.T)
    ensures tree.Valid()
    ensures Opt(r) == LastOf(PrefixBefore(tree.Contents(), node))
  {
    StandAtLeaf(tree, node);
    r := PrevFrom(tree, node.leafP, LeafPath(tree.T.t, node));
  }

  // ----- walks which look at duplicates

  /** Below a link which is not in a duplicate tree, everything sorts by key. */
  lemma {:induction false} RadixRoute(t: Tree, path: Path)
    requires WF(t) && ValidPath(t, path) && At(t, path).Link? && At(t, path).bit >= 0
    ensures RadixAbove(t, path)
  {
    if path != [] {
      RadixRoute(t.Child(path[0]), path[1..]);
      BitNonNegative(t.Child(path[0]), path[1..]);
    }
  }

  lemma {:induction false} BitNonNegative(t: Tree, path: Path)
    requires WF(t) && ValidPath(t, path) && At(t, path).Link? && At(t, path).bit >= 0
    ensures t.Link? && t.bit >= 0
  {
    if path != [] {
      BitNonNegative(t.Child(path[0]), path[1..]);
    }
  }

  ghost predicate AllWith(s: seq<Node>, c: Code) {
    forall i | 0 <= i < |s| :: s[i].code == c
  }

  /** Leaving the subtree of e at a link outside duplicate trees leaves the key. */
  lemma OtherKeys(t: Tree, path: Path, e: Node)
    requires WF(t) && ValidPath(t, path) && At(t, path).Link? && At(t, path).bit >= 0 && e in LeafSet(At(t, path))
    ensures NoneWith(Pre(t, path), e.code) && NoneWith(Post(t, path), e.code)
  {
    RadixRoute(t, path);
    RouteOfLeaf(t, path, e);
    RouteOrder(t, path, e.code);
    DiffSame(e.code);
  }

  /** The two sides of a link outside duplicate trees carry different keys, those
      of a link in a duplicate tree carry the same one. */
  lemma SideKeys(t: Tree, path: Path, side: bool, e: Node)
    requires WF(t) && ValidPath(t, path) && At(t, path).Link? && e in LeafSet(At(t, path).Child(side))
    ensures At(t, path).bit < 0 ==> AllWith(Leaves(At(t, path).Child(!side)), e.code)
    ensures At(t, path).bit >= 0 ==> NoneWith(Leaves(At(t, path).Child(!side)), e.code)
  {
    RadixAt(t, path);
    var s := At(t, path);
    var other := Leaves(s.Child(!side));
    forall i | 0 <= i < |other|
      ensures (other[i].code == e.code) == (s.bit < 0)
    {
      LeafIndex(s.Child(!side), i);
      assert other[i] in LeafSet(s) && e in LeafSet(s);
      if s.bit >= 0 {
        if side {
          SidesOrdered(s, other[i], e);
        } else {
          SidesOrdered(s, e, other[i]);
        }
      }
    }
  }

  /** Where a walk up from the leaf of e stands: e is below. */
  ghost predicate Above(tree: EbRoot, p: Path, e: Node)
    reads tree
  {
    tree.T.Full? && ValidPath(tree.T.t, p) && e in LeafSet(At(tree.T.t, p))
  }

  lemma AboveUp(tree: EbRoot, p: Path, e: Node)
    requires Above(tree, p, e) && p != []
    ensures Above(tree, p[..|p| - 1], e)
    ensures At(tree.T.t, p[..|p| - 1]).Link? && e in LeafSet(At(tree.T.t, p[..|p| - 1]).Child(p[|p| - 1]))
  {
    PathUp(tree.T.t, NoParent, p);
  }

  /** eb_next_dup() */
  method NextDup(ghost tree: EbRoot, node: Node) returns (r: Node?)
    requires tree.Valid() && node in Members(tree.T)
    ensures tree.Valid()
    ensures Opt(r) == IfSame(FirstOf(SuffixAfter(tree.Contents(), node)), node.code)
  {
    hide Rep, Radix, Shape, Links, LeafSet, RepTop;
    ghost var tt, p := tree.T.t, LeafPath(tree.T.t, node);
    StandAtLeaf(tree, node);
    var t := node.leafP;
    StandReads(tree, t, p);
    AboveLeaf(tree, node);
    while t.side != LEFT
      invariant tree.Valid() && Standing(tree, t, p) && t.Up? && Above(tree, p, node)
      invariant Post(tt, p) == SuffixAfter(tree.Contents(), node)
      decreases |p|
    {
      StandReads(tree, t, p);
      AboveUp(tree, p, node);
      if t.n.bit >= 0 {
        OtherKeys(tt, p[..|p| - 1], node);
        return null;
      }
      t, p := t.n.nodeP, p[..|p| - 1];
      StandReads(tree, t, p);
    }
    StandReads(tree, t, p);
    if p != [] {
      AboveUp(tree, p, node);
      SideKeys(tt, p[..|p| - 1], LEFT, node);
      FirstLast(At(tt, p[..|p| - 1] + [RIGHT]));
    }
    // at the root this reads whatever follows the root in memory
    if t.n.bit >= 0 {
      return null;
    }
    var br := t.n.b.r;
    if br.Null? {
      return null;
    }
    r := WalkDown(tree, br, LEFT, p[..|p| - 1] + [RIGHT]);
  }

  lemma AboveLeaf(tree: EbRoot, e: Node)
    requires tree.T.Full? && e in LeafSet(tree.T.t)
    ensures Above(tree, LeafPath(tree.T.t, e), e)
  {
  }

  /** eb_prev_dup() */
  method PrevDup(ghost tree: EbRoot, node: Node) returns (r: Node?)
    requires tree.Valid() && node in Members(tree.T)
    ensures tree.Valid()
    ensures Opt(r) == IfSame(LastOf(PrefixBefore(tree.Contents(), node)), node.code)
  {
    hide Rep, Radix, Shape, Links, LeafSet, RepTop;
    ghost var tt, p := tree.T.t, LeafPath(tree.T.t, node);
    StandAtLeaf(tree, node);
    var t := node.leafP;
    StandReads(tree, t, p);
    AboveLeaf(tree, node);
    while t.side == LEFT
      invariant tree.Valid() && Standing(tree, t, p) && t.Up? && Above(tree, p, node)
      invariant Pre(tt, p) == PrefixBefore(tree.Contents(), node)
      decreases |p|
    {
      StandReads(tree, t, p);
      if t.n.b.r.Null? {
        return null;
      }
      AboveUp(tree, p, node);
      if t.n.bit >= 0 {
        OtherKeys(tt, p[..|p| - 1], node);
        return null;
      }
      t, p := t.n.nodeP, p[..|p| - 1];
      StandReads(tree, t, p);
    }
    StandReads(tree, t, p);
    AboveUp(tree, p, node);
    SideKeys(tt, p[..|p| - 1], RIGHT, node);
    FirstLast(At(tt, p[..|p| - 1] + [LEFT]));
    if t.n.bit >= 0 {
      return null;
    }
    r := WalkDown(tree, t.n.b.l, RIGHT, p[..|p| - 1] + [LEFT]);
  }

  /** eb_next_unique() */
  method NextUnique(ghost tree: EbRoot, node: Node) returns (r: Node?)
    requires tree.Valid() && node in Members(tree.T)
    ensures tree.Valid()
    ensures Opt(r) == FirstOther(SuffixAfter(tree.Contents(), node), node.code)
  {
    hide Rep, Radix, Shape, Links, LeafSet, RepTop, SuffixAfter, WF, EbRoot.Valid, NoDups, Pre, Post, Leaves, Anchor, At, ValidPath;
    ghost var tt, p := tree.T.t, LeafPath(tree.T.t, node);
    StandAtLeaf(tree, node);
    ValidTree(tree);
    var t := node.leafP;
    StandReads(tree, t, p);
    AboveLeaf(tree, node);
    while true
      invariant tree.Valid() && Standing(tree, t, p) && t.Up? && Above(tree, p, node)
      invariant FirstOther(Post(tt, p), node.code) == FirstOther(SuffixAfter(tree.Contents(), node), node.code)
      decreases |p|
    {
      StandReads(tree, t, p);
      if t.side == LEFT {
        if t.n.b.r.Null? {
          return null;
        }
        AboveUp(tree, p, node);
        SideKeys(tt, p[..|p| - 1], LEFT, node);
        if t.n.bit >= 0 {
          break;
        }
        FirstOtherSkips(Leaves(At(tt, p[..|p| - 1]).r), Post(tt, p[..|p| - 1]), node.code);
      } else {
        AboveUp(tree, p, node);
      }
      t, p := t.n.nodeP, p[..|p| - 1];
      StandReads(tree, t, p);
    }
    FirstLast(At(tt, p[..|p| - 1] + [RIGHT]));
    FirstOtherIs(Leaves(At(tt, p[..|p| - 1]).r), Post(tt, p[..|p| - 1]), node.code);
    r := WalkDown(tree, t.n.b.r, LEFT, p[..|p| - 1] + [RIGHT]);
  }

  /** eb_prev_unique() */
  method PrevUnique(ghost tree: EbRoot, node: Node) returns (r: Node?)
    requires tree.Valid() && node in Members(tree.T)
    ensures tree.Valid()
    ensures Opt(r) == LastOther(PrefixBefore(tree.Contents(), node), node.code)
  {
    hide Rep, Radix, Shape, Links, LeafSet, RepTop, PrefixBefore, WF, EbRoot.Valid, NoDups, Pre, Post, Leaves, Anchor, At, ValidPath;
    ghost var tt, p := tree.T.t, LeafPath(tree.T.t, node);
    StandAtLeaf(tree, node);
    ValidTree(tree);
    var t := node.leafP;
    StandReads(tree, t, p);
    AboveLeaf(tree, node);
    while true
      invariant tree.Valid() && Standing(tree, t, p) && t.Up? && Above(tree, p, node)
      invariant LastOther(Pre(tt, p), node.code) == LastOther(PrefixBefore(tree.Contents(), node), node.code)
      decreases |p|
    {
      StandReads(tree, t, p);
      if t.side != LEFT {
        AboveUp(tree, p, node);
        SideKeys(tt, p[..|p| - 1], RIGHT, node);
        if t.n.bit >= 0 {
          break;
        }
        LastOtherSkips(Pre(tt, p[..|p| - 1]), Leaves(At(tt, p[..|p| - 1]).l), node.code);
      } else {
        if t.n.b.r.Null? {
          return null;
        }
        AboveUp(tree, p, node);
      }
      t, p := t.n.nodeP, p[..|p| - 1];
      StandReads(tree, t, p);
    }
    FirstLast(At(tt, p[..|p| - 1] + [LEFT]));
    LastOtherIs(Pre(tt, p[..|p| - 1]), Leaves(At(tt, p[..|p| - 1]).l), node.code);
    r := WalkDown(tree, t.n.b.l, RIGHT, p[..|p| - 1] + [LEFT]);
  }

  /** eb_first() and repeated eb_next() visit every entity once, in order. */
  method Enumerate(tree: EbRoot) returns (s: seq<Node>)
    requires tree.Valid()
    ensures s == tree.Contents()
  {
    hide Rep, Radix, Shape, Links, RepTop, WF, LeafSet, NoDups;
    ghost var all := tree.Contents();
    s := [];
    var n := FirstEntity(tree);
    EntitiesDistinct(tree);
    while n != null
      invariant tree.Valid() && all == tree.Contents()
      invariant |s| <= |all| && s == all[..|s|]
      invariant Opt(n) == FirstOf(all[|s|..])
      decreases |all| - |s|
    {
      ghost var i := |s|;
      assert all == all[..i] + [n] + all[i + 1..] && n in all;
      NotEarlier(all, i);
      SplitAround(all[..i], n, all[i + 1..]);
      s := s + [n];
      InMembers(tree, n);
      n := Next(tree, n);
    }
  }

  lemma NotEarlier(s: seq<Node>, i: nat)
    requires Distinct(s) && i < |s|
    ensures s[i] !in s[..i]
  {
  }

  lemma EntitiesDistinct(tree: EbRoot)
    requires tree.Valid()
    ensures Distinct(tree.Contents())
  {
    if tree.T.Full? {
      LeavesDistinct(tree.T.t);
    }
  }

  lemma InMembers(tree: EbRoot, n: Node)
    requires n in tree.Contents()
    ensures n in Members(tree.T)
  {
    LeavesAreLeafSet(tree.T.t);
    assert n in (set x | x in Leaves(tree.T.t));
  }
}
