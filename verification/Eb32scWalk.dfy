/** Walking and searching trees with scopes: eb32sctree.h and eb32sctree.c. */
module Eb32scWalk {
  import opened Options
  import opened Codes
  import opened Bits
  import opened EbNodes
  import opened EbTrees
  import opened EbMemory
  import opened EbRadix
  import opened EbInsert
  import opened EbTree
  import opened EbWalk
  import opened Eb32
  import opened Eb32sc

  // ----- what is in scope, and what the walks see of it

  ghost predicate Seen(m: Masks, e: Node, scope: Scope) {
    e in m && m[e].leaf * scope != {}
  }

  /** The entities of s whose leaf is in the scope, in order. */
  ghost function InScope(m: Masks, s: seq<Node>, scope: Scope): seq<Node> {
    if s == [] then [] else (if Seen(m, s[0], scope) then [s[0]] else []) + InScope(m, s[1..], scope)
  }

  lemma {:induction false} InScopeConcat(m: Masks, a: seq<Node>, b: seq<Node>, scope: Scope)
    ensures InScope(m, a + b, scope) == InScope(m, a, scope) + InScope(m, b, scope)
  {
    if a == [] {
      assert a + b == b;
    } else {
      assert (a + b)[1..] == a[1..] + b;
      InScopeConcat(m, a[1..], b, scope);
    }
  }

  /** What a walk into t finds: a link whose mask is apart from the scope hides
      everything below. */
  ghost function Visible(m: Masks, t: Tree, scope: Scope): seq<Node>
    requires Masked(m, t)
  {
    match t
    case Leaf(e) => if Seen(m, e, scope) then [e] else []
    case Link(o, _, l, r) => if m[o].link * scope == {} then [] else Visible(m, l, scope) + Visible(m, r, scope)
  }

  /** What a walk out of the subtree at path finds. */
  ghost function VisibleAfter(m: Masks, t: Tree, path: Path, scope: Scope): seq<Node>
    requires Masked(m, t) && ValidPath(t, path)
  {
    if path == [] then []
    else VisibleAfter(m, t.Child(path[0]), path[1..], scope) + (if path[0] then [] else Visible(m, t.r, scope))
  }

  /** Every link of t above e has something of the scope. */
  ghost predicate Open(m: Masks, t: Tree, e: Node, scope: Scope)
    requires Masked(m, t)
  {
    t.Link? && e in LeafSet(t) ==> m[t.o].link * scope != {} && Open(m, t.l, e, scope) && Open(m, t.r, e, scope)
  }

  /** A walk sees a leaf exactly if it is in scope and no link above it hides it. */
  lemma {:induction false} VisibleIff(m: Masks, t: Tree, e: Node, scope: Scope)
    requires Masked(m, t)
    ensures e in Visible(m, t, scope) ==> e in LeafSet(t)
    ensures Shape(t) && e in LeafSet(t) ==> (e in Visible(m, t, scope) <==> Seen(m, e, scope) && Open(m, t, e, scope))
  {
    if t.Link? {
      VisibleIff(m, t.l, e, scope);
      VisibleIff(m, t.r, e, scope);
      assert e !in LeafSet(t.l) ==> Open(m, t.l, e, scope);
      assert e !in LeafSet(t.r) ==> Open(m, t.r, e, scope);
    }
  }

  /** A covered leaf in scope is never hidden. */
  lemma {:induction false} CoveredOpen(m: Masks, t: Tree, e: Node, scope: Scope)
    requires Masked(m, t) && Covered(m, t, e) && Seen(m, e, scope)
    ensures Open(m, t, e, scope)
  {
    if t.Link? && e in LeafSet(t) {
      var b :| b in m[e].leaf * scope;
      assert b in m[t.o].link * scope;
      CoveredOpen(m, t.l, e, scope);
      CoveredOpen(m, t.r, e, scope);
    }
  }

  /** No leaf of t which is in scope is hidden from a walk. */
  ghost predicate AllOpen(m: Masks, t: Tree, scope: Scope)
    requires Masked(m, t)
  {
    forall e | e in LeafSet(t) && Seen(m, e, scope) :: Open(m, t, e, scope)
  }

  lemma {:induction false} OpenVisible(m: Masks, t: Tree, scope: Scope)
    requires Masked(m, t) && AllOpen(m, t, scope)
    ensures Visible(m, t, scope) == InScope(m, Leaves(t), scope)
  {
    match t
    case Leaf(e) =>
      assert Leaves(t)[1..] == [];
    case Link(o, _, l, r) =>
      assert AllOpen(m, l, scope) && AllOpen(m, r, scope) by { OpenBelow(m, t, scope); }
      OpenVisible(m, l, scope);
      OpenVisible(m, r, scope);
      InScopeConcat(m, Leaves(l), Leaves(r), scope);
      if m[o].link * scope == {} {
        forall i | 0 <= i < |Leaves(t)|
          ensures !Seen(m, Leaves(t)[i], scope)
        {
          LeafIndex(t, i);
        }
        NothingSeen(m, Leaves(t), scope);
      }
  }

  lemma OpenBelow(m: Masks, t: Tree, scope: Scope)
    requires t.Link? && Masked(m, t) && AllOpen(m, t, scope)
    ensures AllOpen(m, t.l, scope) && AllOpen(m, t.r, scope)
  {
    forall e | e in LeafSet(t) && Seen(m, e, scope)
      ensures Open(m, t.l, e, scope) && Open(m, t.r, e, scope)
    {
      assert Open(m, t, e, scope);
    }
  }

  /** A walk sees exactly what is in scope if and only if nothing of that is hidden. */
  lemma VisibleExactly(m: Masks, t: Tree, scope: Scope)
    requires Shape(t) && Masked(m, t)
    ensures Visible(m, t, scope) == InScope(m, Leaves(t), scope) <==> AllOpen(m, t, scope)
  {
    hide Shape, Visible, Open, InScope;
    if AllOpen(m, t, scope) {
      OpenVisible(m, t, scope);
    }
    if Visible(m, t, scope) == InScope(m, Leaves(t), scope) {
      forall e | e in LeafSet(t) && Seen(m, e, scope)
        ensures Open(m, t, e, scope)
      {
        LeavesAreLeafSet(t);
        assert e in Leaves(t);
        InScopeHas(m, Leaves(t), e, scope);
        VisibleIff(m, t, e, scope);
      }
    }
  }

  lemma {:induction false} InScopeHas(m: Masks, s: seq<Node>, e: Node, scope: Scope)
    requires e in s && Seen(m, e, scope)
    ensures e in InScope(m, s, scope)
  {
    if s[0] != e {
      InScopeHas(m, s[1..], e, scope);
    }
  }

  /** What is in scope has some bit of the scope in its leaf mask. */
  lemma InScopeMeans(m: Masks, s: seq<Node>, e: Node, scope: Scope)
    ensures e in InScope(m, s, scope) <==> e in s && e in m && exists b | b in scope :: b in m[e].leaf
  {
    hide InScope;
    InScopeIn(m, s, scope);
    if e in m && exists b | b in scope :: b in m[e].leaf {
      var b :| b in scope && b in m[e].leaf;
      assert b in m[e].leaf * scope;
    }
    if e in s && Seen(m, e, scope) {
      InScopeHas(m, s, e, scope);
    }
  }

  /** With coverage, nothing is hidden, so that a walk sees exactly what is in scope. */
  lemma CoversVisible(m: Masks, t: Tree, scope: Scope)
    requires Masked(m, t) && Covers(m, t)
    ensures AllOpen(m, t, scope) && Visible(m, t, scope) == InScope(m, Leaves(t), scope)
  {
    hide Visible, InScope;
    forall e | e in LeafSet(t) && Seen(m, e, scope)
      ensures Open(m, t, e, scope)
    {
      CoveredOpen(m, t, e, scope);
    }
    OpenVisible(m, t, scope);
  }

  /** What a walk sees around a leaf which it sees. */
  lemma {:induction false} VisibleAround(m: Masks, t: Tree, e: Node, scope: Scope) returns (pre: seq<Node>)
    requires Shape(t) && Masked(m, t) && e in LeafSet(t) && e in Visible(m, t, scope)
    ensures Visible(m, t, scope) == pre + [e] + VisibleAfter(m, t, LeafPath(t, e), scope)
  {
    if t.Leaf? {
      pre := [];
    } else {
      SeenBelow(m, t, e, scope);
      var side := e !in LeafSet(t.l);
      var c := t.Child(side);
      var q := VisibleAround(m, c, e, scope);
      hide Visible, VisibleAfter, Shape, LeafSet, Links;
      AfterBelow(m, t, side, LeafPath(c, e), scope);
      var z := VisibleAfter(m, c, LeafPath(c, e), scope);
      if side {
        pre := Visible(m, t.l, scope) + q;
        Regroup(Visible(m, t.l, scope), q + [e], z);
        Regroup(Visible(m, t.l, scope), q, [e]);
      } else {
        pre := q;
        Regroup(q + [e], z, Visible(m, t.r, scope));
      }
    }
  }

  lemma Regroup(a: seq<Node>, b: seq<Node>, c: seq<Node>)
    ensures a + b + c == a + (b + c)
  {
  }

  lemma SeenBelow(m: Masks, t: Tree, e: Node, scope: Scope)
    requires t.Link? && Shape(t) && Masked(m, t) && e in Visible(m, t, scope)
    ensures Visible(m, t, scope) == Visible(m, t.l, scope) + Visible(m, t.r, scope)
    ensures var c := if e in LeafSet(t.l) then t.l else t.r; Shape(c) && Masked(m, c) && e in LeafSet(c) && e in Visible(m, c, scope)
    ensures LeafPath(t, e) == if e in LeafSet(t.l) then [LEFT] + LeafPath(t.l, e) else [RIGHT] + LeafPath(t.r, e)
  {
    VisibleIff(m, t.l, e, scope);
    VisibleIff(m, t.r, e, scope);
  }

  lemma AfterBelow(m: Masks, t: Tree, side: bool, p: Path, scope: Scope)
    requires t.Link? && Masked(m, t) && ValidPath(t.Child(side), p)
    ensures ValidPath(t, [side] + p)
    ensures VisibleAfter(m, t, [side] + p, scope) ==
            VisibleAfter(m, t.Child(side), p, scope) + (if side then [] else Visible(m, t.r, scope))
  {
    assert ([side] + p)[1..] == p;
  }

  lemma {:induction false} VisibleDistinct(m: Masks, t: Tree, scope: Scope)
    requires Shape(t) && Masked(m, t)
    ensures Distinct(Visible(m, t, scope))
  {
    if t.Link? {
      VisibleDistinct(m, t.l, scope);
      VisibleDistinct(m, t.r, scope);
      var a, b := Visible(m, t.l, scope), Visible(m, t.r, scope);
      forall x | x in a
        ensures x !in b
      {
        VisibleIff(m, t.l, x, scope);
        VisibleIff(m, t.r, x, scope);
      }
      DistinctConcat(a, b);
    }
  }

  lemma {:induction false} NothingSeen(m: Masks, s: seq<Node>, scope: Scope)
    requires forall i | 0 <= i < |s| :: !Seen(m, s[i], scope)
    ensures InScope(m, s, scope) == []
  {
    if s != [] {
      NothingSeen(m, s[1..], scope);
    }
  }

  lemma CoversBelow(m: Masks, t: Tree)
    requires t.Link? && Masked(m, t) && Covers(m, t)
    ensures Covers(m, t.l) && Covers(m, t.r)
  {
    forall e | e in LeafSet(t)
      ensures Covered(m, t.l, e) && Covered(m, t.r, e)
    {
      assert Covered(m, t, e);
    }
  }

  lemma {:induction false} CoversAfter(m: Masks, t: Tree, path: Path, scope: Scope)
    requires Masked(m, t) && Covers(m, t) && ValidPath(t, path)
    ensures VisibleAfter(m, t, path, scope) == InScope(m, Post(t, path), scope)
  {
    if path != [] {
      CoversBelow(m, t);
      CoversAfter(m, t.Child(path[0]), path[1..], scope);
      CoversVisible(m, t.r, scope);
      InScopeConcat(m, Post(t.Child(path[0]), path[1..]), if path[0] then [] else Leaves(t.r), scope);
    }
  }

  lemma {:induction false} VisibleDown(m: Masks, t: Tree, path: Path, side: bool, scope: Scope)
    requires Masked(m, t) && ValidPath(t, path) && At(t, path).Link? && Masked(m, At(t, path)) && ValidPath(t, path + [side])
    ensures VisibleAfter(m, t, path + [side], scope) ==
            (if side then [] else Visible(m, At(t, path).r, scope)) + VisibleAfter(m, t, path, scope)
  {
    if path == [] {
      assert (path + [side])[1..] == [];
    } else {
      assert (path + [side])[1..] == path[1..] + [side];
      VisibleDown(m, t.Child(path[0]), path[1..], side, scope);
    }
  }

  // ----- the walks

  /** m holds the masks of the tree. */
  ghost predicate MasksAre(tree: EbRoot, m: Masks)
    reads tree, tree.Repr()
  {
    m == SnapMasks(tree.Repr())
  }

  ghost predicate MasksOf(tree: EbRoot, m: Masks)
    reads tree, tree.Repr()
  {
    tree.T.Full? && MasksAre(tree, m) && Masked(m, tree.T.t)
  }

  lemma HaveMasks(tree: EbRoot, m: Masks)
    requires tree.Valid() && tree.T.Full? && MasksAre(tree, m)
    ensures MasksOf(tree, m)
  {
    LinksAreLeaves(tree.T.t);
  }

  /** The walk which resumes at a tagged parent pointer: up until it comes from the
      left, and to the right branch there. */
  method StepRight(ghost tree: EbRoot, start: Parent, ghost path: Path, ghost m: Masks, ghost scope: Scope)
    returns (br: Branch, ghost p: Path)
    requires tree.Valid() && Standing(tree, start, path) && MasksOf(tree, m)
    ensures tree.Valid() && MasksOf(tree, m)
    ensures br.Null? ==> VisibleAfter(m, tree.T.t, path, scope) == []
    ensures !br.Null? ==>
              var t := tree.T.t;
              && ValidPath(t, p) && br == Ref(At(t, p)) && Masked(m, At(t, p))
              && Visible(m, At(t, p), scope) + VisibleAfter(m, t, p, scope) == VisibleAfter(m, t, path, scope)
              && |Leaves(At(t, p))| + |Post(t, p)| == |Post(t, path)|
  {
    hide Rep, Radix, Shape, Links, LeafSet, RepTop, WF, VisibleAfter, Visible, Masked;
    ghost var t := tree.T.t;
    var up := start;
    p := path;
    StandReads(tree, up, p);
    while up.side != LEFT
      invariant tree.Valid() && MasksOf(tree, m) && Standing(tree, up, p) && up.Up? && Masked(m, t)
      invariant VisibleAfter(m, t, p, scope) == VisibleAfter(m, t, path, scope) && |Post(t, p)| == |Post(t, path)|
      decreases |p|
    {
      StandReads(tree, up, p);
      ClimbsFrom(t, m, p, scope);
      up, p := up.n.nodeP, p[..|p| - 1];
      StandReads(tree, up, p);
    }
    StandReads(tree, up, p);
    br := up.n.b.r;
    if p == [] {
      NothingAfter(m, t, scope);
    } else {
      ClimbsFrom(t, m, p, scope);
      p := p[..|p| - 1] + [RIGHT];
    }
  }

  lemma NothingAfter(m: Masks, t: Tree, scope: Scope)
    requires Masked(m, t)
    ensures VisibleAfter(m, t, [], scope) == []
  {
  }

  lemma ClimbsFrom(t: Tree, m: Masks, path: Path, scope: Scope)
    requires Masked(m, t) && ValidPath(t, path) && path != []
    ensures var p := path[..|path| - 1];
            && ValidPath(t, p) && At(t, p).Link? && Masked(m, At(t, p).r)
            && ValidPath(t, p + [RIGHT]) && At(t, p + [RIGHT]) == At(t, p).r
            && VisibleAfter(m, t, p + [RIGHT], scope) == VisibleAfter(m, t, p, scope)
            && VisibleAfter(m, t, path, scope) ==
               (if path[|path| - 1] then [] else Visible(m, At(t, p).r, scope)) + VisibleAfter(m, t, p, scope)
            && |Post(t, path)| == (if path[|path| - 1] then 0 else |Leaves(At(t, p).r)|) + |Post(t, p)|
            && |Post(t, p + [RIGHT])| == |Post(t, p)|
  {
    hide VisibleAfter, Visible, Post, Leaves;
    var p := path[..|path| - 1];
    PathUp(t, NoParent, path);
    PathDown(t, NoParent, p, RIGHT);
    SetsAt(t, p);
    assert path == p + [path[|path| - 1]];
    VisibleDown(m, t, p, path[|path| - 1], scope);
    VisibleDown(m, t, p, RIGHT, scope);
  }

  /** eb32sc_walk_down_left(), from a branch which is not null. */
  method WalkDownLeftSc(ghost tree: EbRoot, start: Branch, scope: Scope, ghost path: Path, ghost m: Masks)
    returns (r: Node?)
    requires tree.Valid() && MasksOf(tree, m) && ValidPath(tree.T.t, path) && start == Ref(At(tree.T.t, path))
    requires Masked(m, At(tree.T.t, path))
    ensures tree.Valid() && MasksOf(tree, m)
    ensures Opt(r) == FirstOf(Visible(m, At(tree.T.t, path), scope) + VisibleAfter(m, tree.T.t, path, scope))
  {
    hide Rep, Radix, Shape, Links, LeafSet, RepTop, WF, VisibleAfter, Visible, Masked;
    ghost var t, p := tree.T.t, path;
    var br := start;
    while true
      invariant tree.Valid() && MasksOf(tree, m) && ValidPath(t, p) && br == Ref(At(t, p)) && Masked(m, At(t, p))
      invariant FirstOf(Visible(m, At(t, p), scope) + VisibleAfter(m, t, p, scope)) ==
                FirstOf(Visible(m, At(t, path), scope) + VisibleAfter(m, t, path, scope))
      decreases |Leaves(At(t, p))| + |Post(t, p)|, At(t, p)
    {
      var up: Parent;
      WalkReads(tree, m, p, scope);
      var node := br.n;
      if br.LinkOf? {
        if node.nodeS * scope != {} {
          br, p := node.b.l, p + [LEFT];
          continue;
        }
        up := node.nodeP;
      } else {
        if node.leafS * scope != {} {
          return node;
        }
        up := node.leafP;
      }
      ghost var q;
      br, q := StepRight(tree, up, p, m, scope);
      if br.Null? {
        return null;
      }
      p := q;
    }
  }

  /** What the walk reads at the subtree at path. */
  lemma WalkReads(tree: EbRoot, m: Masks, path: Path, scope: Scope)
    requires tree.Valid() && MasksOf(tree, m) && ValidPath(tree.T.t, path)
    ensures var t, s := tree.T.t, At(tree.T.t, path);
            && Head(s) in tree.Repr() && m[Head(s)] == Mask(Head(s).nodeS, Head(s).leafS)
            && Ref(s) == (if s.Leaf? then LeafOf(Head(s)) else LinkOf(Head(s)))
            && Standing(tree, if s.Leaf? then Head(s).leafP else Head(s).nodeP, path)
            && Masked(m, s)
            && (s.Leaf? ==> Visible(m, s, scope) == if s.e.leafS * scope == {} then [] else [s.e])
            && (s.Link? ==>
                  && ValidPath(t, path + [LEFT]) && At(t, path + [LEFT]) == s.l && s.o.b.l == Ref(s.l) && Masked(m, s.l) && Masked(m, s.r)
                  && Visible(m, s, scope) == (if s.o.nodeS * scope == {} then [] else Visible(m, s.l, scope) + Visible(m, s.r, scope))
                  && VisibleAfter(m, t, path + [LEFT], scope) == Visible(m, s.r, scope) + VisibleAfter(m, t, path, scope)
                  && |Leaves(s.l)| + |Post(t, path + [LEFT])| == |Leaves(s)| + |Post(t, path)|)
            && |Leaves(s)| > 0
  {
    hide Radix, Rep, VisibleAfter;
    var t, s := tree.T.t, At(tree.T.t, path);
    SetsAt(t, path);
    HeadInside(s);
    StoppedAnchor(tree, path);
    if s.Link? {
      PathDown(t, NoParent, path, LEFT);
      VisibleDown(m, t, path, LEFT, scope);
    }
  }

  /** eb32sc_next_with_parent() */
  method NextWithParentSc(ghost tree: EbRoot, start: Parent, scope: Scope, ghost path: Path, ghost m: Masks)
    returns (r: Node?)
    requires tree.Valid() && Standing(tree, start, path) && MasksOf(tree, m)
    ensures tree.Valid() && MasksOf(tree, m)
    ensures Opt(r) == FirstOf(VisibleAfter(m, tree.T.t, path, scope))
  {
    var br, p := StepRight(tree, start, path, m, scope);
    if br.Null? {
      return null;
    }
    r := WalkDownLeftSc(tree, br, scope, p, m);
  }

  /** eb32sc_first() */
  method FirstSc(tree: EbRoot, scope: Scope, ghost m: Masks) returns (r: Node?)
    requires tree.Valid() && MasksAre(tree, m)
    ensures tree.Valid() && MasksAre(tree, m)
    ensures Opt(r) == FirstOf(VisibleTop(m, tree.T, scope))
    ensures CoversAll(m, tree.T) ==> Opt(r) == FirstOf(InScope(m, tree.Contents(), scope))
  {
    hide Rep, Radix, Shape, Links, LeafSet, RepTop, Visible, Covers;
    if tree.root.b.l.Null? {
      EmptyTree(tree);
      return null;
    }
    FullTree(tree);
    HaveMasks(tree, m);
    NothingAfter(m, tree.T.t, scope);
    if CoversAll(m, tree.T) {
      CoversVisible(m, tree.T.t, scope);
    }
    r := WalkDownLeftSc(tree, tree.root.b.l, scope, [], m);
  }

  /** What a walk from the root sees. */
  ghost function VisibleTop(m: Masks, tt: Top, scope: Scope): seq<Node> {
    if tt.Full? && Masked(m, tt.t) then Visible(m, tt.t, scope) else []
  }

  /** eb32sc_next() */
  method NextSc(ghost tree: EbRoot, node: Node, scope: Scope, ghost m: Masks) returns (r: Node?)
    requires tree.Valid() && node in Members(tree.T) && MasksAre(tree, m)
    ensures tree.Valid() && MasksOf(tree, m)
    ensures Opt(r) == FirstOf(VisibleAfter(m, tree.T.t, LeafPath(tree.T.t, node), scope))
    ensures Covers(m, tree.T.t) ==> Opt(r) == FirstOf(InScope(m, SuffixAfter(tree.Contents(), node), scope))
  {
    hide Rep, Radix, Shape, Links, RepTop, Visible, Covers;
    HaveMasks(tree, m);
    StandAtLeaf(tree, node);
    if Covers(m, tree.T.t) {
      CoversAfter(m, tree.T.t, LeafPath(tree.T.t, node), scope);
    }
    r := NextWithParentSc(tree, node.leafP, scope, LeafPath(tree.T.t, node), m);
  }

  /** eb32sc_first() and repeated eb32sc_next() terminate and visit exactly what a walk
      sees from the root, each entity once and in order. That is exactly what is in
      scope if and only if nothing of it is hidden. */
  method EnumerateSc(tree: EbRoot, scope: Scope, ghost m: Masks) returns (s: seq<Node>)
    requires tree.Valid() && MasksAre(tree, m)
    ensures s == VisibleTop(m, tree.T, scope)
    ensures s == InScope(m, tree.Contents(), scope) <==> (tree.T.Full? ==> Masked(m, tree.T.t) && AllOpen(m, tree.T.t, scope))
    ensures CoversAll(m, tree.T) ==> s == InScope(m, tree.Contents(), scope)
  {
    hide Rep, Radix, Shape, Links, RepTop, WF, LeafSet, NoDups, Covers, Visible, InScope, EbRoot.Valid, SuffixAfter, VisibleAfter, LeafPath, Masked, AllOpen;
    SeenFromRoot(tree, m, scope);
    ghost var all, rest := VisibleTop(m, tree.T, scope), VisibleTop(m, tree.T, scope);
    s := [];
    var n := FirstSc(tree, scope, m);
    while n != null
      invariant tree.Valid() && MasksAre(tree, m) && all == s + rest && all == VisibleTop(m, tree.T, scope)
      invariant Opt(n) == FirstOf(rest)
      decreases |rest|
    {
      NextSeen(tree, m, scope, s, n, rest[1..]);
      s := s + [n];
      rest := rest[1..];
      n := NextSc(tree, n, scope, m);
    }
  }

  /** What follows a leaf which a walk sees. */
  lemma NextSeen(tree: EbRoot, m: Masks, scope: Scope, s: seq<Node>, n: Node, rest: seq<Node>)
    requires tree.Valid() && MasksAre(tree, m) && VisibleTop(m, tree.T, scope) == s + [n] + rest
    ensures n in Members(tree.T) && MasksOf(tree, m) && VisibleAfter(m, tree.T.t, LeafPath(tree.T.t, n), scope) == rest
  {
    hide Rep, RepTop, Radix, Visible, VisibleAfter, LeafPath;
    var t := tree.T.t;
    HaveMasks(tree, m);
    var v := Visible(m, t, scope);
    assert v == s + [n] + rest && v[|s|] == n;
    VisibleIff(m, t, n, scope);
    VisibleDistinct(m, t, scope);
    var pre := VisibleAround(m, t, n, scope);
    assert v[|pre|] == n;
    assert |pre| == |s|;
    assert v[|s| + 1..] == rest;
  }

  lemma SeenFromRoot(tree: EbRoot, m: Masks, scope: Scope)
    requires tree.Valid() && MasksAre(tree, m)
    ensures VisibleTop(m, tree.T, scope) == InScope(m, tree.Contents(), scope) <==>
            (tree.T.Full? ==> Masked(m, tree.T.t) && AllOpen(m, tree.T.t, scope))
    ensures CoversAll(m, tree.T) ==> VisibleTop(m, tree.T, scope) == InScope(m, tree.Contents(), scope)
  {
    hide Rep, RepTop, Radix, Visible, AllOpen, Covers;
    if tree.T.Full? {
      HaveMasks(tree, m);
      VisibleExactly(m, tree.T.t, scope);
      if Covers(m, tree.T.t) {
        CoversVisible(m, tree.T.t, scope);
      }
    }
  }

  // ----- ordered lookup

  /** The entities of s whose key is at least x. */
  ghost function AtLeast(s: seq<Node>, x: int): seq<Node>
    requires forall i | 0 <= i < |s| :: s[i].key.U32?
  {
    if s == [] then [] else (if s[0].key.k >= x then [s[0]] else []) + AtLeast(s[1..], x)
  }

  lemma {:induction false} AtLeastSplit(a: seq<Node>, b: seq<Node>, x: int)
    requires Smaller(a, x) && Larger(b, x)
    ensures AtLeast(a + b, x) == b
  {
    if a != [] {
      assert (a + b)[1..] == a[1..] + b;
      AtLeastSplit(a[1..], b, x);
    } else if b != [] {
      assert a + b == b && b[1..] == [] + b[1..];
      AtLeastSplit([], b[1..], x);
    }
  }

  /** v only has entities of s which are in scope. */
  ghost predicate Among(m: Masks, v: seq<Node>, s: seq<Node>, scope: Scope) {
    forall i | 0 <= i < |v| :: v[i] in s && Seen(m, v[i], scope)
  }

  lemma AmongConcat(m: Masks, v: seq<Node>, s: seq<Node>, v': seq<Node>, s': seq<Node>, scope: Scope)
    requires Among(m, v, s, scope) && Among(m, v', s', scope)
    ensures Among(m, v + v', s + s', scope)
  {
  }

  /** Everything a walk sees is in scope. */
  lemma {:induction false} VisibleSeen(m: Masks, t: Tree, scope: Scope)
    requires Masked(m, t)
    ensures Among(m, Visible(m, t, scope), Leaves(t), scope)
  {
    if t.Link? {
      VisibleSeen(m, t.l, scope);
      VisibleSeen(m, t.r, scope);
      AmongConcat(m, Visible(m, t.l, scope), Leaves(t.l), Visible(m, t.r, scope), Leaves(t.r), scope);
    }
  }

  lemma {:induction false} VisibleAfterSeen(m: Masks, t: Tree, path: Path, scope: Scope)
    requires Masked(m, t) && ValidPath(t, path)
    ensures Among(m, VisibleAfter(m, t, path, scope), Post(t, path), scope)
  {
    if path != [] {
      var c, rest := t.Child(path[0]), path[1..];
      VisibleAfterSeen(m, c, rest, scope);
      VisibleSeen(m, t.r, scope);
      AmongConcat(m, VisibleAfter(m, c, rest, scope), Post(c, rest), Visible(m, t.r, scope), Leaves(t.r), scope);
    }
  }

  /** What the lookup should look at, and the part of it which it skips: it resumes
      on the right of a link all of whose keys are large enough. */
  ghost function Skipped(t: Tree, path: Path, x: int): seq<Node>
    requires ValidPath(t, path)
  {
    var s := At(t, path);
    if s.Link? && s.o.key.U32? && s.o.key.k >= x then Leaves(s.l) else []
  }

  ghost function LookedAt(t: Tree, path: Path, x: int): seq<Node>
    requires ValidPath(t, path)
  {
    var s := At(t, path);
    if Head(s).key.U32? && Head(s).key.k >= x then (if s.Leaf? then [s.e] else Leaves(s.r)) + Post(t, path) else Post(t, path)
  }

  lemma LookupSplits(t: Tree, path: Path, x: int) returns (front: seq<Node>)
    requires WF(t) && AllU32(Full(t)) && Stopped(t, path, x)
    ensures Keyed(Leaves(t)) && AtLeast(Leaves(t), x) == Skipped(t, path, x) + LookedAt(t, path, x)
    ensures Larger(LookedAt(t, path, x), x)
    ensures Leaves(t) == front + (Skipped(t, path, x) + LookedAt(t, path, x))
  {
    hide Code32, WF, Stops, Route, Pre, Post, AtLeast, Leaves, At, Skipped, LookedAt, Larger, Smaller;
    var s := At(t, path);
    StoppedKeys(t, path, x);
    RouteKeys(t, path, x);
    LooksAt(t, path, x);
    front := SplitSeq(Pre(t, path), Leaves(s), Post(t, path), x, Head(s).key.k >= x);
    LargerSuffix(Skipped(t, path, x), LookedAt(t, path, x), x);
  }

  lemma SplitSeq(a: seq<Node>, b: seq<Node>, z: seq<Node>, x: int, large: bool) returns (front: seq<Node>)
    requires Smaller(a, x) && Larger(z, x + 1) && (if large then Larger(b, x) else Smaller(b, x))
    ensures var rest := if large then b + z else z;
            AllInt(a + b + z) && AtLeast(a + b + z, x) == rest && Larger(rest, x) && a + b + z == front + rest
  {
    hide AtLeast;
    assert Larger(z, x);
    if large {
      assert Larger(b + z, x);
      AtLeastSplit(a, b + z, x);
      assert a + b + z == a + (b + z);
      front := a;
    } else {
      assert Smaller(a + b, x);
      AtLeastSplit(a + b, z, x);
      front := a + b;
    }
  }

  ghost predicate AllInt(s: seq<Node>) {
    forall i | 0 <= i < |s| :: s[i].key.U32?
  }

  lemma LooksAt(t: Tree, path: Path, x: int)
    requires ValidPath(t, path) && Head(At(t, path)).key.U32?
    ensures Skipped(t, path, x) + LookedAt(t, path, x) ==
            if Head(At(t, path)).key.k >= x then Leaves(At(t, path)) + Post(t, path) else Post(t, path)
  {
    hide At, Post;
  }

  lemma LargerSuffix(a: seq<Node>, b: seq<Node>, x: int)
    requires Larger(a + b, x)
    ensures Larger(b, x)
  {
    forall i | 0 <= i < |b|
      ensures b[i].key.U32? && b[i].key.k >= x
    {
      assert b[i] == (a + b)[|a| + i];
    }
  }

  lemma {:induction false} InScopeIn(m: Masks, s: seq<Node>, scope: Scope)
    ensures Among(m, InScope(m, s, scope), s, scope)
  {
    if s != [] {
      InScopeIn(m, s[1..], scope);
    }
  }

  /** The lookup finds what it should exactly if nothing it skips is in scope. */
  lemma SkipsMatter(m: Masks, a: seq<Node>, skipped: seq<Node>, rest: seq<Node>, scope: Scope)
    requires Distinct(a + (skipped + rest))
    ensures FirstOf(InScope(m, skipped + rest, scope)) == FirstOf(InScope(m, rest, scope))
            <==> InScope(m, skipped, scope) == []
  {
    InScopeConcat(m, skipped, rest, scope);
    InScopeIn(m, skipped, scope);
    InScopeIn(m, rest, scope);
    var u, v, all := InScope(m, skipped, scope), InScope(m, rest, scope), a + (skipped + rest);
    forall i, j | 0 <= i < |skipped| && 0 <= j < |rest|
      ensures skipped[i] != rest[j]
    {
      assert all[|a| + i] == skipped[i] && all[|a| + |skipped| + j] == rest[j];
    }
  }

  /** What the lookup returns where its descent stops. */
  ghost function GeAnswer(m: Masks, t: Tree, path: Path, x: int, scope: Scope): Option<Node>
    requires Masked(m, t) && ValidPath(t, path) && Masked(m, At(t, path))
  {
    var s, after := At(t, path), VisibleAfter(m, t, path, scope);
    if Head(s).key.U32? && Head(s).key.k >= x then
      if s.Leaf? then (if Seen(m, s.e, scope) then Some(s.e) else FirstOf(after))
      else if m[s.o].link * scope != {} then FirstOf(Visible(m, s.r, scope) + after)
      else FirstOf(after)
    else FirstOf(after)
  }

  /** In a covered tree, that is the first of what it looks at. */
  lemma GeAnswerCovered(m: Masks, t: Tree, path: Path, x: int, scope: Scope)
    requires WF(t) && AllU32(Full(t)) && Stopped(t, path, x) && Masked(m, t) && Masked(m, At(t, path))
    requires Covers(m, t)
    ensures GeAnswer(m, t, path, x, scope) == FirstOf(InScope(m, LookedAt(t, path, x), scope))
  {
    hide Radix, Shape, Route, Stops, Code32, VisibleAfter, Visible, Post;
    var s, z := At(t, path), Post(t, path);
    CoversAfter(m, t, path, scope);
    CoversInside(m, t, path);
    if s.Leaf? {
      InScopeConcat(m, [s.e], z, scope);
      assert InScope(m, [s.e][1..], scope) == [];
    } else {
      CoversVisible(m, s.r, scope);
      InScopeConcat(m, Leaves(s.r), z, scope);
      if m[s.o].link * scope == {} {
        HiddenBranch(m, s, scope);
      }
    }
  }

  lemma HiddenBranch(m: Masks, s: Tree, scope: Scope)
    requires s.Link? && Masked(m, s) && Covers(m, s) && m[s.o].link * scope == {}
    ensures InScope(m, Leaves(s.r), scope) == []
  {
    CoversVisible(m, s, scope);
    InScopeConcat(m, Leaves(s.l), Leaves(s.r), scope);
  }

  lemma {:induction false} CoversInside(m: Masks, t: Tree, path: Path)
    requires Masked(m, t) && Covers(m, t) && ValidPath(t, path)
    ensures Masked(m, At(t, path)) && Covers(m, At(t, path))
  {
    if path != [] {
      CoversBelow(m, t);
      CoversInside(m, t.Child(path[0]), path[1..]);
    }
  }

  /** In any tree, it is in scope and large enough. */
  lemma GeAnswerSound(m: Masks, t: Tree, path: Path, x: int, scope: Scope)
    requires WF(t) && AllU32(Full(t)) && Stopped(t, path, x) && Masked(m, t) && Masked(m, At(t, path))
    requires GeAnswer(m, t, path, x, scope).Some?
    ensures var r := GeAnswer(m, t, path, x, scope).value; r in Leaves(t) && Seen(m, r, scope) && r.key.U32? && r.key.k >= x
  {
    hide Radix, Shape, Route, Stops, Code32, VisibleAfter, Visible, Post;
    var s := At(t, path);
    VisibleAfterSeen(m, t, path, scope);
    var front := LookupSplits(t, path, x);
    if s.Link? {
      VisibleSeen(m, s.r, scope);
      AmongConcat(m, Visible(m, s.r, scope), Leaves(s.r), VisibleAfter(m, t, path, scope), Post(t, path), scope);
    }
    var r, looked := GeAnswer(m, t, path, x, scope).value, LookedAt(t, path, x);
    assert r in looked;
    var i :| 0 <= i < |looked| && looked[i] == r;
    assert Leaves(t)[|front| + |Skipped(t, path, x)| + i] == r;
  }

  // ----- what the lookup reaches in any tree

  /** The part of the subtree where its descent stops from which the lookup resumes. */
  ghost function Resumed(s: Tree): Tree {
    if s.Leaf? then s else s.r
  }

  /** What the lookup may return, in order. */
  ghost function Found(m: Masks, t: Tree, path: Path, x: int, scope: Scope): seq<Node>
    requires Masked(m, t) && ValidPath(t, path) && Masked(m, At(t, path))
  {
    var s := At(t, path);
    (if Head(s).key.U32? && Head(s).key.k >= x && (s.Link? ==> m[s.o].link * scope != {}) then Visible(m, Resumed(s), scope) else [])
    + VisibleAfter(m, t, path, scope)
  }

  /** e is in a branch on the right of the path, and no link in that branch hides it. */
  ghost predicate OpenAfter(m: Masks, t: Tree, path: Path, e: Node, scope: Scope)
    requires Masked(m, t) && ValidPath(t, path)
  {
    && path != []
    && (OpenAfter(m, t.Child(path[0]), path[1..], e, scope) || (!path[0] && e in LeafSet(t.r) && Open(m, t.r, e, scope)))
  }

  /** The lookup does not skip e, and no link between the place from which it resumes
      and e hides it. */
  ghost predicate Reached(m: Masks, t: Tree, path: Path, x: int, e: Node, scope: Scope)
    requires Masked(m, t) && ValidPath(t, path) && Masked(m, At(t, path))
  {
    var s := At(t, path);
    || (Head(s).key.U32? && Head(s).key.k >= x && e in LeafSet(Resumed(s)) && Open(m, s, e, scope))
    || OpenAfter(m, t, path, e, scope)
  }

  lemma {:induction false} VisibleAfterIff(m: Masks, t: Tree, path: Path, e: Node, scope: Scope)
    requires Shape(t) && Masked(m, t) && ValidPath(t, path)
    ensures e in VisibleAfter(m, t, path, scope) <==> Seen(m, e, scope) && OpenAfter(m, t, path, e, scope)
  {
    hide Open, Visible;
    if path != [] {
      VisibleAfterIff(m, t.Child(path[0]), path[1..], e, scope);
      VisibleIff(m, t.r, e, scope);
    }
  }

  lemma FoundIff(m: Masks, t: Tree, path: Path, x: int, e: Node, scope: Scope)
    requires Shape(t) && Masked(m, t) && ValidPath(t, path) && Masked(m, At(t, path))
    ensures e in Found(m, t, path, x, scope) <==> Seen(m, e, scope) && Reached(m, t, path, x, e, scope)
  {
    hide At, Visible, OpenAfter, VisibleAfter, Open, Shape, LeafSet;
    ShapeAt(t, path);
    VisibleAfterIff(m, t, path, e, scope);
    ResumedIff(m, At(t, path), e, scope);
  }

  lemma ResumedIff(m: Masks, s: Tree, e: Node, scope: Scope)
    requires Shape(s) && Masked(m, s)
    ensures (s.Link? ==> m[s.o].link * scope != {}) && e in Visible(m, Resumed(s), scope)
            <==> Seen(m, e, scope) && e in LeafSet(Resumed(s)) && Open(m, s, e, scope)
  {
    hide Visible;
    VisibleIff(m, Resumed(s), e, scope);
    if s.Link? && e in LeafSet(s.r) {
      assert Open(m, s.l, e, scope);
    }
  }

  lemma {:induction false} ShapeAt(t: Tree, path: Path)
    requires Shape(t) && ValidPath(t, path)
    ensures Shape(At(t, path))
  {
    if path != [] {
      ShapeAt(t.Child(path[0]), path[1..]);
    }
  }

  /** a is s with some entities left out. */
  ghost predicate Part(a: seq<Node>, s: seq<Node>) {
    || a == []
    || (s != [] && ((a[0] == s[0] && Part(a[1..], s[1..])) || Part(a, s[1..])))
  }

  lemma {:induction false} PartConcat(a: seq<Node>, s: seq<Node>, b: seq<Node>, z: seq<Node>)
    requires Part(a, s) && Part(b, z)
    ensures Part(a + b, s + z)
  {
    if s == [] {
      assert a + b == b && s + z == z;
    } else {
      assert (s + z)[0] == s[0] && (s + z)[1..] == s[1..] + z;
      if a != [] && a[0] == s[0] && Part(a[1..], s[1..]) {
        assert (a + b)[0] == a[0] && (a + b)[1..] == a[1..] + b;
        PartConcat(a[1..], s[1..], b, z);
      } else {
        PartConcat(a, s[1..], b, z);
      }
    }
  }

  lemma {:induction false} PartIn(a: seq<Node>, s: seq<Node>, e: Node)
    requires Part(a, s) && e in a
    ensures e in s
  {
    if a[0] == s[0] && Part(a[1..], s[1..]) {
      if e != a[0] {
        PartIn(a[1..], s[1..], e);
      }
    } else {
      PartIn(a, s[1..], e);
    }
  }

  /** If entities are left out, the first one in scope remains first exactly if it is
      not among those. */
  lemma {:induction false} PartFirst(m: Masks, a: seq<Node>, s: seq<Node>, scope: Scope)
    requires Part(a, s) && Distinct(s) && forall i | 0 <= i < |a| :: Seen(m, a[i], scope)
    ensures var w := FirstOf(InScope(m, s, scope)); FirstOf(a) == w <==> w.None? || w.value in a
  {
    if s != [] {
      if !Seen(m, s[0], scope) {
        PartFirst(m, a, s[1..], scope);
      } else if a != [] && a[0] != s[0] {
        assert forall i | 0 <= i < |s[1..]| :: s[1..][i] != s[0];
        forall j | 0 <= j < |a|
          ensures a[j] != s[0]
        {
          PartIn(a, s[1..], a[j]);
        }
      }
    }
  }

  lemma {:induction false} VisiblePart(m: Masks, t: Tree, scope: Scope)
    requires Masked(m, t)
    ensures Part(Visible(m, t, scope), Leaves(t))
  {
    if t.Link? {
      VisiblePart(m, t.l, scope);
      VisiblePart(m, t.r, scope);
      PartConcat(Visible(m, t.l, scope), Leaves(t.l), Visible(m, t.r, scope), Leaves(t.r));
    }
  }

  lemma {:induction false} VisibleAfterPart(m: Masks, t: Tree, path: Path, scope: Scope)
    requires Masked(m, t) && ValidPath(t, path)
    ensures Part(VisibleAfter(m, t, path, scope), Post(t, path))
  {
    if path != [] {
      var c, rest := t.Child(path[0]), path[1..];
      VisibleAfterPart(m, c, rest, scope);
      VisiblePart(m, t.r, scope);
      PartConcat(VisibleAfter(m, c, rest, scope), Post(c, rest), Visible(m, t.r, scope), Leaves(t.r));
      assert VisibleAfter(m, c, rest, scope) + [] == VisibleAfter(m, c, rest, scope) && Post(c, rest) + [] == Post(c, rest);
    }
  }

  lemma FoundPart(m: Masks, t: Tree, path: Path, x: int, scope: Scope)
    requires Masked(m, t) && ValidPath(t, path) && Masked(m, At(t, path))
    ensures Part(Found(m, t, path, x, scope), LookedAt(t, path, x))
    ensures GeAnswer(m, t, path, x, scope) == FirstOf(Found(m, t, path, x, scope))
  {
    hide At, VisibleAfter, Post;
    var s, after, z := At(t, path), VisibleAfter(m, t, path, scope), Post(t, path);
    VisibleAfterPart(m, t, path, scope);
    VisiblePart(m, Resumed(s), scope);
    PartConcat(Visible(m, Resumed(s), scope), Leaves(Resumed(s)), after, z);
    PartConcat([], Leaves(Resumed(s)), after, z);
    assert [] + after == after;
  }

  lemma PartLater(a: seq<Node>, s: seq<Node>, z: seq<Node>)
    requires Part(a, z)
    ensures Part(a, s + z)
  {
    PartConcat([], s, a, z);
    assert [] + a == a;
  }

  /** In any tree: the lookup returns the first entity in scope whose key is large
      enough exactly if it reaches that one. */
  lemma GeAnswerExactly(m: Masks, t: Tree, path: Path, x: int, scope: Scope)
    requires WF(t) && AllU32(Full(t)) && Stopped(t, path, x) && Masked(m, t) && Masked(m, At(t, path))
    ensures Keyed(Leaves(t))
    ensures var w := FirstOf(InScope(m, AtLeast(Leaves(t), x), scope));
            GeAnswer(m, t, path, x, scope) == w <==> w.None? || Reached(m, t, path, x, w.value, scope)
  {
    hide Radix, Shape, Route, Stops, Code32, Found, Reached, Part, GeAnswer, AtLeast, LookedAt, Skipped, Leaves, At, Post, Pre, InScope, Larger;
    var front := LookupSplits(t, path, x);
    var a, s := Found(m, t, path, x, scope), Skipped(t, path, x) + LookedAt(t, path, x);
    LeavesDistinct(t);
    DistinctSuffix(front, s);
    FoundPart(m, t, path, x, scope);
    PartLater(a, Skipped(t, path, x), LookedAt(t, path, x));
    forall i | 0 <= i < |a|
      ensures Seen(m, a[i], scope)
    {
      FoundIff(m, t, path, x, a[i], scope);
    }
    PartFirst(m, a, s, scope);
    var w := FirstOf(InScope(m, s, scope));
    if w.Some? {
      FoundIff(m, t, path, x, w.value, scope);
      InScopeIn(m, s, scope);
    }
  }

  lemma DistinctSuffix(a: seq<Node>, s: seq<Node>)
    requires Distinct(a + s)
    ensures Distinct(s)
  {
    forall i, j | 0 <= i < j < |s|
      ensures s[i] != s[j]
    {
      assert (a + s)[|a| + i] == s[i] && (a + s)[|a| + j] == s[j];
    }
  }

  method LookupGeFull(tree: EbRoot, x: int, scope: Scope, ghost m: Masks) returns (r: Node?, ghost path: Path)
    requires tree.Valid() && AllU32(tree.T) && MasksOf(tree, m) && 0 <= x < TWO32
    ensures tree.Valid() && MasksOf(tree, m)
    ensures Stopped(tree.T.t, path, x) && Masked(m, At(tree.T.t, path)) && Opt(r) == GeAnswer(m, tree.T.t, path, x, scope)
  {
    hide Rep, Radix, Shape, Links, Code32, Route, RepTop, Stops, LeafSet, Leaves, Visible, VisibleAfter, Covers, WF, Masked;
    var node, leaf;
    node, leaf, path := DescendFor(tree, x);
    ghost var t := tree.T.t;
    LookupReads(tree, m, path, x, scope);
    if leaf {
      if node.leafS * scope != {} && node.key.k >= x {
        return node, path;
      }
      r := NextWithParentSc(tree, node.leafP, scope, path, m);
      return;
    }
    var large;
    if node.bit < 0 {
      large := node.nodeS * scope != {} && node.key.k >= x;
    } else {
      StoppedFar(t, path, x);
      large := node.nodeS * scope != {} && Shr(node.key.k, node.bit) > Shr(x, node.bit);
    }
    if large {
      r := NextWithParentSc(tree, Up(node, LEFT), scope, path + [LEFT], m);
    } else {
      r := NextWithParentSc(tree, node.nodeP, scope, path, m);
    }
  }

  lemma LookupReads(tree: EbRoot, m: Masks, path: Path, x: int, scope: Scope)
    requires tree.Valid() && AllU32(tree.T) && MasksOf(tree, m) && Stopped(tree.T.t, path, x)
    ensures var t, s := tree.T.t, At(tree.T.t, path);
            && Head(s).key.U32? && Head(s) in tree.Repr() && m[Head(s)] == Mask(Head(s).nodeS, Head(s).leafS)
            && Standing(tree, if s.Leaf? then Head(s).leafP else Head(s).nodeP, path)
            && Masked(m, s)
            && (s.Link? ==>
                  && Masked(m, s.r) && Standing(tree, Up(s.o, LEFT), path + [LEFT])
                  && VisibleAfter(m, t, path + [LEFT], scope) == Visible(m, s.r, scope) + VisibleAfter(m, t, path, scope))
  {
    hide Radix, Rep, Shape, Route, Stops, Visible, VisibleAfter, Code32;
    WalkReads(tree, m, path, scope);
    StoppedKeys(tree.T.t, path, x);
    if At(tree.T.t, path).Link? {
      PathDown(tree.T.t, Up(tree.root, LEFT), path, LEFT);
    }
  }

  /** eb32sc_lookup_ge(): what it returns is in scope and large enough, and is the
      first such entity exactly if it reaches that one; in a covered tree, exactly if
      nothing that it skips is in scope. */
  method LookupGeSc(tree: EbRoot, x: int, scope: Scope, ghost m: Masks) returns (r: Node?, ghost path: Path)
    requires tree.Valid() && AllU32(tree.T) && MasksAre(tree, m) && 0 <= x < TWO32
    ensures tree.Valid() && MasksAre(tree, m) && Keyed(tree.Contents())
    ensures r != null ==> r in tree.Contents() && Seen(m, r, scope) && r.key.k >= x
    ensures if tree.T.Empty? then r == null else
              && Stopped(tree.T.t, path, x) && Masked(m, tree.T.t) && Masked(m, At(tree.T.t, path))
              && Opt(r) == GeAnswer(m, tree.T.t, path, x, scope)
              && var w := FirstOf(InScope(m, AtLeast(tree.Contents(), x), scope));
                 Opt(r) == w <==> w.None? || Reached(m, tree.T.t, path, x, w.value, scope)
    ensures tree.T.Full? && CoversAll(m, tree.T) ==>
              && Opt(r) == FirstOf(InScope(m, LookedAt(tree.T.t, path, x), scope))
              && (Opt(r) == FirstOf(InScope(m, AtLeast(tree.Contents(), x), scope))
                  <==> InScope(m, Skipped(tree.T.t, path, x), scope) == [])
  {
    hide Rep, Radix, Shape, Links, Code32, Route, RepTop, Stops, LeafSet, Leaves, Visible, VisibleAfter, Covers, InScope, AtLeast, GeAnswer, LookedAt, Skipped, Distinct;
    if tree.root.b.l.Null? {
      EmptyTree(tree);
      return null, [];
    }
    FullTree(tree);
    HaveMasks(tree, m);
    r, path := LookupGeFull(tree, x, scope, m);
    ghost var t := tree.T.t;
    GeAnswerMeans(m, t, path, x, scope);
    GeAnswerExactly(m, t, path, x, scope);
  }

  lemma GeAnswerMeans(m: Masks, t: Tree, path: Path, x: int, scope: Scope)
    requires WF(t) && AllU32(Full(t)) && Stopped(t, path, x) && Masked(m, t) && Masked(m, At(t, path))
    ensures Keyed(Leaves(t))
    ensures var r := GeAnswer(m, t, path, x, scope);
            && (r.Some? ==> r.value in Leaves(t) && Seen(m, r.value, scope) && r.value.key.U32? && r.value.key.k >= x)
            && (Covers(m, t) ==>
                  && r == FirstOf(InScope(m, LookedAt(t, path, x), scope))
                  && (r == FirstOf(InScope(m, AtLeast(Leaves(t), x), scope)) <==> InScope(m, Skipped(t, path, x), scope) == []))
  {
    hide Radix, Shape, Route, Stops, Code32, VisibleAfter, Visible, Post, Pre, GeAnswer, InScope, AtLeast, LookedAt, Skipped, Distinct, Leaves;
    var front := LookupSplits(t, path, x);
    if GeAnswer(m, t, path, x, scope).Some? {
      GeAnswerSound(m, t, path, x, scope);
    }
    if Covers(m, t) {
      GeAnswerCovered(m, t, path, x, scope);
      LeavesDistinct(t);
      SkipsMatter(m, front, Skipped(t, path, x), LookedAt(t, path, x), scope);
    }
  }

  /** eb32sc_lookup_ge_or_first(): finds nothing exactly if every leaf in scope is out of
      reach of the lookup and hidden from the root, so surely something if any covered
      leaf is in scope. */
  method LookupGeOrFirstSc(tree: EbRoot, x: int, scope: Scope, ghost m: Masks) returns (r: Node?, ghost path: Path)
    requires tree.Valid() && AllU32(tree.T) && MasksAre(tree, m) && 0 <= x < TWO32
    ensures tree.Valid() && MasksAre(tree, m)
    ensures r != null ==> r in tree.Contents() && Seen(m, r, scope)
    ensures if tree.T.Empty? then r == null else
              && Stopped(tree.T.t, path, x) && Masked(m, tree.T.t) && Masked(m, At(tree.T.t, path))
              && Opt(r) == var ge := GeAnswer(m, tree.T.t, path, x, scope);
                           if ge.Some? then ge else FirstOf(Visible(m, tree.T.t, scope))
    ensures tree.T.Full? ==>
              (r == null <==> forall e | e in tree.Contents() && Seen(m, e, scope) ::
                                !Reached(m, tree.T.t, path, x, e, scope) && !Open(m, tree.T.t, e, scope))
    ensures (exists e | e in Members(tree.T) :: CoveredIn(m, tree.T, e) && Seen(m, e, scope)) ==> r != null
    ensures CoversAll(m, tree.T) ==> (r == null <==> forall e | e in tree.Contents() :: !Seen(m, e, scope))
  {
    hide Rep, Radix, Shape, Links, Code32, Route, RepTop, Stops, LeafSet, Leaves, Visible, VisibleAfter, Covers, Covered, InScope, AtLeast, LookedAt, Skipped, Keyed, GeAnswer, EbRoot.Valid, WF;
    path := [];
    if tree.root.b.l.Null? {
      EmptyTree(tree);
      return null, path;
    }
    FullTree(tree);
    HaveMasks(tree, m);
    r, path := LookupGeFull(tree, x, scope, m);
    if r == null {
      r := FirstSc(tree, scope, m);
    }
    ghost var t := tree.T.t;
    OrFirstSound(m, t, path, x, scope);
    OrFirstExactly(m, t, path, x, scope);
  }

  lemma OrFirstExactly(m: Masks, t: Tree, path: Path, x: int, scope: Scope)
    requires WF(t) && AllU32(Full(t)) && Stopped(t, path, x) && Masked(m, t) && Masked(m, At(t, path))
    ensures GeAnswer(m, t, path, x, scope).None? && Visible(m, t, scope) == [] <==>
            forall e | e in Leaves(t) && Seen(m, e, scope) :: !Reached(m, t, path, x, e, scope) && !Open(m, t, e, scope)
  {
    hide Code32, Radix, Route, Stops, Visible, GeAnswer, Reached, Open, Found, Leaves, LeafSet, At, Part;
    var a, v := Found(m, t, path, x, scope), Visible(m, t, scope);
    FoundPart(m, t, path, x, scope);
    LeavesAreLeafSet(t);
    forall e | e in Leaves(t)
      ensures (e in a <==> Seen(m, e, scope) && Reached(m, t, path, x, e, scope)) && (e in v <==> Seen(m, e, scope) && Open(m, t, e, scope))
    {
      FoundIff(m, t, path, x, e, scope);
      VisibleIff(m, t, e, scope);
    }
    if a != [] {
      GeAnswerSound(m, t, path, x, scope);
      assert a[0] in Leaves(t) && a[0] in a;
    } else if v != [] {
      VisibleSeen(m, t, scope);
      assert v[0] in Leaves(t) && v[0] in v;
    }
  }

  lemma OrFirstSound(m: Masks, t: Tree, path: Path, x: int, scope: Scope)
    requires WF(t) && AllU32(Full(t)) && Stopped(t, path, x) && Masked(m, t) && Masked(m, At(t, path))
    ensures var ge, v := GeAnswer(m, t, path, x, scope), Visible(m, t, scope);
            && (ge.Some? ==> ge.value in Leaves(t) && Seen(m, ge.value, scope))
            && (v != [] ==> v[0] in Leaves(t) && Seen(m, v[0], scope))
            && (v == [] ==> forall e | e in LeafSet(t) && Covered(m, t, e) :: !Seen(m, e, scope))
            && (v == [] && Covers(m, t) ==> forall e | e in Leaves(t) :: !Seen(m, e, scope))
  {
    hide Code32, Radix, Route, Stops, Covered, Visible, GeAnswer;
    GeAnswerMeans(m, t, path, x, scope);
    VisibleSeen(m, t, scope);
    if Visible(m, t, scope) == [] {
      forall e | e in LeafSet(t) && Covered(m, t, e)
        ensures !Seen(m, e, scope)
      {
        VisibleIff(m, t, e, scope);
        if Seen(m, e, scope) {
          CoveredOpen(m, t, e, scope);
        }
      }
      LeavesAreLeafSet(t);
    }
  }

  // ----- what goes wrong, and where

  lemma TwoKeys(a: Node, b: Node)
    requires a != b && IsU32(a) && IsU32(b) && a.key.k == 4 && b.key.k == 5
    ensures var t := Link(b, 0, Leaf(a), Leaf(b));
            Insertable(Leaf(a), b) && t == Insert(Leaf(a), b) && WF(t)
  {
    hide Code32, Radix, Insert;
    Insertable32(Leaf(a), b);
    assert WF(Leaf(a)) by { RadixLeaf(a); }
    StopInsert32(Leaf(a), b);
    assert Xor(5, 4) == 1 && Fls(1) == 1;
    SameCode32(5, 4);
    InsertInserts(Leaf(a), b);
  }

  lemma RadixLeaf(a: Node)
    ensures Radix(Leaf(a))
  {
  }

  lemma StopsForZero(a: Node, b: Node)
    requires a != b && IsU32(a) && IsU32(b) && a.key.k == 4 && b.key.k == 5
    ensures Stopped(Link(b, 0, Leaf(a), Leaf(b)), [], 0)
  {
    hide Code32, Radix, Diff, Shr;
    TwoKeys(a, b);
    FarTests(Link(b, 0, Leaf(a), Leaf(b)), 0);
    assert Xor(5, 0) == 5 && Shr(5, 0) == 5 by { ShiftNone(5); }
  }

  lemma ShiftNone(k: nat)
    ensures Shr(k, 0) == k
  {
  }

  /** The lookup for 0 in a tree of keys 4 and 5 skips the first one. */
  lemma LookupSkipsKeys(a: Node, b: Node, m: Masks)
    requires a != b && IsU32(a) && IsU32(b) && a.key.k == 4 && b.key.k == 5 && a in m && b in m
    requires m[a].leaf == {0} && m[b] == Mask({0}, {0})
    ensures var t := Link(b, 0, Leaf(a), Leaf(b));
            && Insertable(Leaf(a), b) && t == Insert(Leaf(a), b) && WF(t) && Masked(m, t) && Covers(m, t)
            && Stopped(t, [], 0) && GeAnswer(m, t, [], 0, {0}) == Some(b) && InScope(m, Leaves(t), {0}) == [a, b]
  {
    hide Code32, Radix, Insert, Insertable, Stopped;
    TwoKeys(a, b);
    StopsForZero(a, b);
    var t := Link(b, 0, Leaf(a), Leaf(b));
    assert Links(t) == {b} && LeafSet(t) == {a, b};
    assert 0 in m[a].leaf * {0} && 0 in m[b].leaf * {0} && 0 in m[b].link * {0};
    assert Covered(m, t, a) && Covered(m, t, b);
    assert Leaves(Leaf(a)) == [a] && Leaves(Leaf(b)) == [b] && Leaves(t) == [a] + [b] && [b] == [b] + [];
    OneInScope(m, b, [], {0});
    OneInScope(m, a, [b], {0});
    assert Visible(m, Leaf(b), {0}) == [b];
    assert VisibleAfter(m, t, [], {0}) == [];
  }

  lemma OneInScope(m: Masks, e: Node, s: seq<Node>, scope: Scope)
    requires Seen(m, e, scope)
    ensures InScope(m, [e] + s, scope) == [e] + InScope(m, s, scope)
  {
    assert ([e] + s)[0] == e && ([e] + s)[1..] == s;
  }
}
