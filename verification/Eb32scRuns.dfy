/** Whole runs of insertions into and deletions from a tree with scopes, starting from
    an empty tree. */
module Eb32scRuns {
  import opened Options
  import opened Bits
  import opened EbNodes
  import opened EbTrees
  import opened EbRadix
  import opened EbInsert
  import opened EbDelete
  import opened EbTree
  import opened EbRuns
  import opened Eb32
  import opened Eb32sc
  import opened Eb32scWalk

  datatype ScOp = ScAdd(n: Node, scope: Scope) | ScDrop(n: Node)

  /** A tree, and the masks of its entities and of its root. */
  datatype ScState = ScState(tt: Top, m: Masks)

  ghost predicate Fine(s: ScState) {
    WFTop(s.tt) && Members(s.tt) <= s.m.Keys
  }

  ghost predicate ScLegal(s: ScState, op: ScOp) {
    match op
    case ScAdd(n, _) => Legal(s.tt, Add(n)) && n !in s.m
    case ScDrop(n) => Legal(s.tt, Drop(n))
  }

  lemma FineMasked(s: ScState)
    requires Fine(s)
    ensures s.tt.Full? ==> Masked(s.m, s.tt.t)
  {
    if s.tt.Full? {
      LinksAreLeaves(s.tt.t);
    }
  }

  /** What eb32sc_insert() and eb32sc_delete() do. */
  ghost function ScApply(s: ScState, op: ScOp): (s': ScState)
    requires Fine(s) && ScLegal(s, op)
    ensures Fine(s')
  {
    FineMasked(s);
    match op
    case ScAdd(n, scope) =>
      InsertCorrect(s.tt, n);
      ScState(InsertTop(s.tt, n), if s.tt.Full? then InsertMasks(s.m, s.tt.t, n, scope) else s.m[n := Mask(scope, scope)])
    case ScDrop(n) =>
      MembersDeleted(s.tt, n);
      ScState(Deleted(s.tt, n), DeleteMasks(s.m, s.tt.t, n))
  }

  /** The state after a run, if every step of the run is legal. m0 holds what is there
      before, the root. */
  ghost function ScRun(m0: Masks, ops: seq<ScOp>): (r: Option<ScState>)
    ensures r.Some? ==> Fine(r.value)
  {
    if ops == [] then Some(ScState(Empty, m0))
    else
      var r := ScRun(m0, ops[..|ops| - 1]);
      var op := ops[|ops| - 1];
      if r.Some? && ScLegal(r.value, op) then Some(ScApply(r.value, op)) else None
  }

  ghost function Plain(op: ScOp): Op {
    match op
    case ScAdd(n, _) => Add(n)
    case ScDrop(n) => Drop(n)
  }

  ghost function PlainOps(ops: seq<ScOp>): (r: seq<Op>)
    ensures |r| == |ops| && forall i | 0 <= i < |ops| :: r[i] == Plain(ops[i])
  {
    seq(|ops|, i requires 0 <= i < |ops| => Plain(ops[i]))
  }

  /** Scopes do not change what happens to the tree. */
  lemma {:induction false} ScRunIsRun(m0: Masks, ops: seq<ScOp>)
    requires ScRun(m0, ops).Some?
    ensures Run(PlainOps(ops)) == Some(ScRun(m0, ops).value.tt)
  {
    if ops != [] {
      var n := |ops| - 1;
      ScRunIsRun(m0, ops[..n]);
      assert PlainOps(ops)[..n] == PlainOps(ops[..n]);
    }
  }

  /** One step keeps covered what it keeps. */
  lemma StepCovers(s: ScState, op: ScOp, e: Node)
    requires Fine(s) && ScLegal(s, op) && CoveredIn(s.m, s.tt, e) && op != ScDrop(e)
    ensures CoveredIn(ScApply(s, op).m, ScApply(s, op).tt, e)
  {
    hide Covered, InsertMasks, DeleteMasks, Insert, Deleted, WF, Insertable, LeafSet, Masked;
    FineMasked(s);
    var s' := ScApply(s, op);
    match op
    case ScAdd(n, scope) =>
      MasksInserted(s.m, s.tt.t, n, scope);
      InsertCoversAll(s.m, s'.m, s.tt.t, n, scope);
      InsertInserts(s.tt.t, n);
      assert e in Members(s'.tt);
    case ScDrop(n) =>
      DeleteCovers(s.m, s.tt, n);
      MembersDeleted(s.tt, n);
      assert e in Members(s'.tt);
  }

  /** Over every run: an entity whose scope fitted when it was inserted is covered for
      as long as it is not deleted, whatever else is inserted and deleted. */
  lemma {:induction false} FittedStaysCovered(m0: Masks, ops: seq<ScOp>, i: nat, n: Node, scope: Scope)
    requires ScRun(m0, ops).Some? && i < |ops| && ops[i] == ScAdd(n, scope) && ScRun(m0, ops[..i]).Some?
    requires FitsTop(ScRun(m0, ops[..i]).value.m, ScRun(m0, ops[..i]).value.tt, n, scope)
    requires forall j | i < j < |ops| :: ops[j] != ScDrop(n)
    ensures CoveredIn(ScRun(m0, ops).value.m, ScRun(m0, ops).value.tt, n)
  {
    var k := |ops| - 1;
    var s := ScRun(m0, ops[..k]).value;
    if i == k {
      AddCovers(s, n, scope);
    } else {
      assert ops[..k][..i] == ops[..i];
      FittedStaysCovered(m0, ops[..k], i, n, scope);
      StepCovers(s, ops[k], n);
    }
  }

  // ----- where the bits of masks come from

  /** The leaf mask of an entity is the scope with which it was inserted. */
  lemma {:induction false} ScopeStays(m0: Masks, ops: seq<ScOp>, i: nat, n: Node, scope: Scope)
    requires ScRun(m0, ops).Some? && i < |ops| && ops[i] == ScAdd(n, scope)
    requires forall j | i < j < |ops| :: ops[j] != ScDrop(n)
    ensures var s := ScRun(m0, ops).value; n in s.m && s.m[n].leaf == scope
  {
    var k := |ops| - 1;
    var s := ScRun(m0, ops[..k]).value;
    if i < k {
      ScopeStays(m0, ops[..k], i, n, scope);
    }
    hide WF, Insertable, Masked, DescentLinks, SpineLinks, PlaceOf, Deleted, HeirBranches, ScRun;
  }

  ghost function Scopes(ops: seq<ScOp>): Scope {
    if ops == [] then {}
    else Scopes(ops[..|ops| - 1]) + if ops[|ops| - 1].ScAdd? then ops[|ops| - 1].scope else {}
  }

  ghost predicate MasksWithin(m: Masks, s: set<Node>, bits: Scope) {
    forall x | x in s :: x in m && m[x].link <= bits && m[x].leaf <= bits
  }

  /** Masks have no bit which was not in the scope of some insertion. */
  lemma {:induction false} MasksFromScopes(m0: Masks, ops: seq<ScOp>)
    requires ScRun(m0, ops).Some?
    ensures var s := ScRun(m0, ops).value; MasksWithin(s.m, Members(s.tt), Scopes(ops))
  {
    if ops != [] {
      var k := |ops| - 1;
      var s := ScRun(m0, ops[..k]).value;
      MasksFromScopes(m0, ops[..k]);
      hide ScRun, MasksWithin;
      match ops[k]
      case ScAdd(n, scope) => AddWithin(s, n, scope, Scopes(ops[..k]));
      case ScDrop(n) => DropWithin(s, n, Scopes(ops[..k]));
    }
  }

  lemma AddWithin(s: ScState, n: Node, scope: Scope, bits: Scope)
    requires Fine(s) && ScLegal(s, ScAdd(n, scope)) && MasksWithin(s.m, Members(s.tt), bits)
    ensures var s' := ScApply(s, ScAdd(n, scope)); MasksWithin(s'.m, Members(s'.tt), bits + scope)
  {
    FineMasked(s);
    if s.tt.Full? {
      var t := s.tt.t;
      hide WF, Insertable, PlaceOf, Insert, Fine, WayMasks, Links, LeafSet, TopMask, Masked;
      InsertInserts(t, n);
      WayWithin(s.m, t, n, scope, LeafSet(t), bits);
      LinksAreLeaves(t);
      PlaceInside(t, n);
      TopWithin(WayMasks(s.m, t, n, scope), PlaceOf(t, n), LeafSet(t), bits + scope);
    }
  }

  lemma WayWithin(m: Masks, t: Tree, n: Node, scope: Scope, s: set<Node>, bits: Scope)
    requires WF(t) && Insertable(t, n) && MasksWithin(m, s, bits)
    ensures MasksWithin(WayMasks(m, t, n, scope), s, bits + scope)
  {
    hide WF, Insertable, DescentLinks, SpineLinks;
  }

  lemma DropWithin(s: ScState, n: Node, bits: Scope)
    requires Fine(s) && ScLegal(s, ScDrop(n)) && MasksWithin(s.m, Members(s.tt), bits)
    ensures var s' := ScApply(s, ScDrop(n)); MasksWithin(s'.m, Members(s'.tt), bits)
  {
    MembersDeleted(s.tt, n);
    var t := s.tt.t;
    hide WF, Deleted, Fine, HeirBranches;
    if LinkElsewhere(t, n) {
      var base := map x | x in s.m && x != n :: s.m[x];
      var b := HeirBranches(t, n);
      TopWithin(base, b.0, LeafSet(t) - {n}, bits);
      TopWithin(base, b.1, LeafSet(t) - {n}, bits);
    }
  }

  lemma TopWithin(m: Masks, t: Tree, s: set<Node>, bits: Scope)
    requires Links(t) <= s && LeafSet(t) <= s && MasksWithin(m, s, bits)
    ensures Masked(m, t) && TopMask(m, t) <= bits
  {
    assert t.Leaf? ==> t.e in LeafSet(t);
    assert t.Link? ==> t.o in Links(t);
  }

  lemma AddCovers(s: ScState, n: Node, scope: Scope)
    requires Fine(s) && ScLegal(s, ScAdd(n, scope))
    ensures var s' := ScApply(s, ScAdd(n, scope));
            && (CoveredIn(s'.m, s'.tt, n) <==> FitsTop(s.m, s.tt, n, scope))
            && (CoversAll(s.m, s.tt) ==> (CoversAll(s'.m, s'.tt) <==> FitsTop(s.m, s.tt, n, scope)))
            && (|scope| <= 1 ==> FitsTop(s.m, s.tt, n, scope))
  {
    hide InsertMasks, Insert;
    FineMasked(s);
    if s.tt.Full? {
      MasksInserted(s.m, s.tt.t, n, scope);
      InsertCoversAll(s.m, ScApply(s, ScAdd(n, scope)).m, s.tt.t, n, scope);
    } else {
      assert Links(Leaf(n)) == {} && LeafSet(Leaf(n)) == {n};
    }
  }

  /** Runs whose scopes have at most one bit keep everything covered, so that walks see
      exactly what is in scope. */
  lemma {:induction false} SingleBitRuns(m0: Masks, ops: seq<ScOp>, scope: Scope)
    requires ScRun(m0, ops).Some? && forall j | 0 <= j < |ops| && ops[j].ScAdd? :: |ops[j].scope| <= 1
    ensures var s := ScRun(m0, ops).value;
            CoversAll(s.m, s.tt) && VisibleTop(s.m, s.tt, scope) == InScope(s.m, ListRun(PlainOps(ops)), scope)
  {
    var s := ScRun(m0, ops).value;
    if ops != [] {
      var k := |ops| - 1;
      SingleBitRuns(m0, ops[..k], scope);
      var s0 := ScRun(m0, ops[..k]).value;
      match ops[k]
      case ScAdd(n, sc) => AddCovers(s0, n, sc);
      case ScDrop(n) => DeleteCovers(s0.m, s0.tt, n);
    }
    hide ScRun, CoversAll, InScope, ListRun;
    SeenInRun(m0, ops, scope);
  }

  lemma SeenInRun(m0: Masks, ops: seq<ScOp>, scope: Scope)
    requires ScRun(m0, ops).Some? && CoversAll(ScRun(m0, ops).value.m, ScRun(m0, ops).value.tt)
    ensures var s := ScRun(m0, ops).value; VisibleTop(s.m, s.tt, scope) == InScope(s.m, ListRun(PlainOps(ops)), scope)
  {
    hide ScRun, ListRun, Run, Visible, Covers, Fine;
    ScRunIsRun(m0, ops);
    RunIsList(PlainOps(ops));
    var s := ScRun(m0, ops).value;
    if s.tt.Full? {
      CoversVisible(s.m, s.tt.t, scope);
    }
  }

  // ----- a run which loses a scope

  /** The tree of seven duplicates. */
  ghost function SevenDuplicates(a: Node, b: Node, c: Node, d: Node, e: Node, f: Node, g: Node): Tree {
    Link(e, -3, Link(c, -2, Link(b, -1, Leaf(a), Leaf(b)), Link(d, -1, Leaf(c), Leaf(d))),
         Link(g, -2, Link(f, -1, Leaf(e), Leaf(f)), Leaf(g)))
  }

  lemma SevenAre(a: Node, b: Node, c: Node, d: Node, e: Node, f: Node, g: Node)
    ensures SevenDuplicates(a, b, c, d, e, f, g) ==
            InsertDup(InsertDup(InsertDup(InsertDup(InsertDup(Cap(Leaf(a), b, -1, RIGHT), c), d), e), f), g)
  {
    var t4 := Link(c, -2, Link(b, -1, Leaf(a), Leaf(b)), Link(d, -1, Leaf(c), Leaf(d)));
    assert InsertDup(InsertDup(Cap(Leaf(a), b, -1, RIGHT), c), d) == t4;
    var t5 := Link(e, -3, t4, Leaf(e));
    assert Fill(t4.r, e).None? && InsertDup(t4, e) == t5;
    var t6 := t5.(r := Link(f, -1, Leaf(e), Leaf(f)));
    assert InsertDup(t5, f) == t6;
    assert Fill(t6.r, g).None? && InsertDup(t6, g) == t6.(r := Link(g, -2, t6.r, Leaf(g)));
  }

  /** Where an eighth duplicate goes, and which links see its scope. */
  lemma EighthGoes(a: Node, b: Node, c: Node, d: Node, e: Node, f: Node, g: Node, h: Node)
    requires var t := SevenDuplicates(a, b, c, d, e, f, g); WF(t) && Insertable(t, h) && e.code == h.code
    ensures var t := SevenDuplicates(a, b, c, d, e, f, g);
            && Stops(t, h.code) && Fill(t.r, h).Some? && Links(t) == {b, c, d, e, f, g}
            && DescentLinks(t, h) == {e} && SpineLinks(t, h) == {g} && PlaceOf(t, h) == Leaf(g)
            && Insert(t, h) == t.(r := t.r.(r := Link(h, -1, Leaf(g), Leaf(h))))
            && Insert(t, h).Link? && Insert(t, h).bit < 0
  {
    hide Radix, Insertable;
    var t := SevenDuplicates(a, b, c, d, e, f, g);
    var tg, tg' := t.r, t.r.(r := Link(h, -1, Leaf(g), Leaf(h)));
    assert Fill(tg, h) == Some(tg') && Fill(t, h) == Some(t.(r := tg'));
    assert Spine(tg) == {} && Spine(t) == {g};
    assert FillPlace(tg, h) == Leaf(g) && FillPlace(t, h) == Leaf(g);
    SevenLinks(a, b, c, d, e, f, g);
  }

  lemma SevenLinks(a: Node, b: Node, c: Node, d: Node, e: Node, f: Node, g: Node)
    ensures Links(SevenDuplicates(a, b, c, d, e, f, g)) == {b, c, d, e, f, g}
  {
    var tb, td, tf := Link(b, -1, Leaf(a), Leaf(b)), Link(d, -1, Leaf(c), Leaf(d)), Link(f, -1, Leaf(e), Leaf(f));
    PairLinks(b, a, b);
    PairLinks(d, c, d);
    PairLinks(f, e, f);
    assert Links(Leaf(g)) == {};
    assert Links(Link(c, -2, tb, td)) == {b, c, d} && Links(Link(g, -2, tf, Leaf(g))) == {f, g};
  }

  lemma PairLinks(o: Node, x: Node, y: Node)
    ensures Links(Link(o, -1, Leaf(x), Leaf(y))) == {o}
  {
    assert Links(Leaf(x)) == {} && Links(Leaf(y)) == {};
  }

  lemma EighthDoesNotFit(a: Node, b: Node, c: Node, d: Node, e: Node, f: Node, g: Node, h: Node, m: Masks)
    requires var t := SevenDuplicates(a, b, c, d, e, f, g);
             && WF(t) && Insertable(t, h) && e.code == h.code && Masked(m, t) && Stops(t, h.code) && Fill(t.r, h).Some?
    requires g in m && m[g].link == {0}
    ensures !Fits(m, SevenDuplicates(a, b, c, d, e, f, g), h, {0, 1})
  {
    hide Radix, Insertable, Fill, Stops, Shape;
    assert 0 in m[g].link * {0, 1} && 1 !in m[g].link && 1 in {0, 1};
  }

  /** The masks of t are the scope, everywhere. */
  ghost predicate Uniform(m: Masks, t: Tree, scope: Scope) {
    && Masked(m, t) && (forall o | o in Links(t) :: m[o].link == scope)
    && forall e | e in LeafSet(t) :: m[e].leaf == scope
  }

  /** Inserting with that scope keeps them so. */
  lemma UniformInsert(m: Masks, t: Tree, n: Node, scope: Scope)
    requires WF(t) && Insertable(t, n) && n !in m && Uniform(m, t, scope)
    ensures Uniform(InsertMasks(m, t, n, scope), Insert(t, n), scope)
  {
    hide WF, InsertMasks, PlaceOf, Insertable, Insert, Inserting;
    var m' := InsertMasks(m, t, n, scope);
    MasksInserted(m, t, n, scope);
    UniformKept(m, m', t, n, scope);
    InsertInserts(t, n);
  }

  lemma UniformKept(m: Masks, m': Masks, t: Tree, n: Node, scope: Scope)
    requires Inserting(m, m', t, n, scope) && Uniform(m, t, scope)
    ensures forall o | o in Links(t) + {n} :: o in m' && m'[o].link == scope
    ensures forall e | e in LeafSet(t) + {n} :: e in m' && m'[e].leaf == scope
  {
    hide WF, DescentLinks, SpineLinks, PlaceOf, Insertable, Links, LeafSet;
    assert Mark(scope, scope) == scope && scope + scope == scope;
    PlaceInside(t, n);
    HeadInside(PlaceOf(t, n));
    assert TopMask(m', PlaceOf(t, n)) == scope;
  }

  lemma {:induction false} UniformCovered(m: Masks, t: Tree, scope: Scope, e: Node)
    requires Uniform(m, t, scope)
    ensures Covered(m, t, e)
  {
    if t.Link? {
      assert t.o in Links(t);
      UniformCovered(m, t.l, scope, e);
      UniformCovered(m, t.r, scope, e);
    }
  }

  /** t and m are what a run of insertions of the key k with the given scope leaves. */
  ghost predicate Built(m0: Masks, ops: seq<ScOp>, t: Tree, m: Masks, k: int, s: set<Node>, scope: Scope) {
    && ScRun(m0, ops) == Some(ScState(Full(t), m)) && WF(t) && LeafSet(t) == s && m.Keys == m0.Keys + s
    && (t.Leaf? || t.bit < 0) && 0 <= k < TWO32 && Uniform(m, t, scope)
    && forall x | x in s :: IsU32(x) && x.key.k == k
  }

  /** One more insertion of that key. */
  lemma BuildOne(m0: Masks, ops: seq<ScOp>, t: Tree, m: Masks, k: int, s: set<Node>, scope: Scope, n: Node) returns (m': Masks)
    requires Built(m0, ops, t, m, k, s, scope) && IsU32(n) && n.key.k == k && n !in s && n !in m0
    ensures Insertable(t, n) && Insert(t, n) == (if t.Leaf? then Cap(t, n, -1, RIGHT) else InsertDup(t, n))
    ensures Built(m0, ops + [ScAdd(n, scope)], Insert(t, n), m', k, s + {n}, scope) && Insert(t, n).Link?
  {
    hide Code32, Radix, Fill, InsertMasks, Uniform, ScRun, Shape;
    Insertable32(t, n);
    DupInsert(t, n, k);
    UniformMasked(m, t, scope);
    m' := InsertMasks(m, t, n, scope);
    UniformInsert(m, t, n, scope);
    RunOneMore(m0, ops, ScState(Full(t), m), ScAdd(n, scope));
  }

  lemma RunOneMore(m0: Masks, ops: seq<ScOp>, s: ScState, op: ScOp)
    requires ScRun(m0, ops) == Some(s) && ScLegal(s, op)
    ensures Fine(s) && ScRun(m0, ops + [op]) == Some(ScApply(s, op))
  {
    hide ScLegal, ScApply, Fine;
    assert (ops + [op])[..|ops|] == ops;
  }

  /** Inserting one more entity of the only key of a tree. */
  lemma DupInsert(t: Tree, n: Node, k: int)
    requires WF(t) && Insertable(t, n) && (t.Leaf? || t.bit < 0) && IsU32(n) && n.key.k == k
    requires forall x | x in LeafSet(t) :: IsU32(x) && x.key.k == k
    ensures Insert(t, n) == (if t.Leaf? then Cap(t, n, -1, RIGHT) else InsertDup(t, n))
    ensures WF(Insert(t, n)) && Insert(t, n).Link? && Insert(t, n).bit < 0 && LeafSet(Insert(t, n)) == LeafSet(t) + {n}
  {
    hide Code32, Radix, Fill;
    HeadIsLeaf(t);
    assert Head(t).code == n.code;
    InsertInserts(t, n);
    if t.Link? {
      InsertDupAppends(t, n);
    }
  }

  lemma UniformMasked(m: Masks, t: Tree, scope: Scope)
    requires Uniform(m, t, scope)
    ensures Masked(m, t)
  {
  }

  lemma BuildFirst(m0: Masks, a: Node, k: int, scope: Scope)
    requires IsU32(a) && a.key.k == k && a !in m0
    ensures Built(m0, [ScAdd(a, scope)], Leaf(a), m0[a := Mask(scope, scope)], k, {a}, scope)
  {
    hide Code32;
    assert [ScAdd(a, scope)][..0] == [];
    assert ScRun(m0, []) == Some(ScState(Empty, m0));
    assert Links(Leaf(a)) == {} && LeafSet(Leaf(a)) == {a};
  }

  /** The run of seven insertions of one key with scope {0}. */
  ghost function SevenAdds(a: Node, b: Node, c: Node, d: Node, e: Node, f: Node, g: Node): seq<ScOp> {
    [ScAdd(a, {0})] + [ScAdd(b, {0})] + [ScAdd(c, {0})] + [ScAdd(d, {0})] + [ScAdd(e, {0})] + [ScAdd(f, {0})] + [ScAdd(g, {0})]
  }

  /** Different entities of the key k. */
  ghost predicate SameKeyed(a: Node, b: Node, c: Node, d: Node, e: Node, f: Node, g: Node, h: Node, k: int, m0: Masks) {
    && b != a && c !in {a, b} && d !in {a, b, c} && e !in {a, b, c, d} && f !in {a, b, c, d, e} && g !in {a, b, c, d, e, f}
    && h !in {a, b, c, d, e, f, g} && 0 <= k < TWO32
    && forall x | x in {a, b, c, d, e, f, g, h} :: IsU32(x) && x.key.k == k && x !in m0
  }

  lemma SevenBuilt(a: Node, b: Node, c: Node, d: Node, e: Node, f: Node, g: Node, h: Node, k: int, m0: Masks) returns (m: Masks)
    requires SameKeyed(a, b, c, d, e, f, g, h, k, m0)
    ensures Built(m0, SevenAdds(a, b, c, d, e, f, g), SevenDuplicates(a, b, c, d, e, f, g), m, k, {a, b, c, d, e, f, g}, {0})
  {
    hide Insert, InsertDup, ScRun, Code32, WF, LeafSet, Built;
    var ops, t := [ScAdd(a, {0})], Leaf(a);
    BuildFirst(m0, a, k, {0});
    m := m0[a := Mask({0}, {0})];
    m := BuildOne(m0, ops, t, m, k, {a}, {0}, b);
    ops, t := ops + [ScAdd(b, {0})], Cap(t, b, -1, RIGHT);
    m := BuildOne(m0, ops, t, m, k, {a} + {b}, {0}, c);
    ops, t := ops + [ScAdd(c, {0})], InsertDup(t, c);
    m := BuildOne(m0, ops, t, m, k, {a} + {b} + {c}, {0}, d);
    ops, t := ops + [ScAdd(d, {0})], InsertDup(t, d);
    m := BuildOne(m0, ops, t, m, k, {a} + {b} + {c} + {d}, {0}, e);
    ops, t := ops + [ScAdd(e, {0})], InsertDup(t, e);
    m := BuildOne(m0, ops, t, m, k, {a} + {b} + {c} + {d} + {e}, {0}, f);
    ops, t := ops + [ScAdd(f, {0})], InsertDup(t, f);
    m := BuildOne(m0, ops, t, m, k, {a} + {b} + {c} + {d} + {e} + {f}, {0}, g);
    SevenAre(a, b, c, d, e, f, g);
    assert {a} + {b} + {c} + {d} + {e} + {f} + {g} == {a, b, c, d, e, f, g};
  }

  /** The eighth insertion. */
  lemma EighthIs(a: Node, b: Node, c: Node, d: Node, e: Node, f: Node, g: Node, h: Node, k: int, m0: Masks, m: Masks)
    requires SameKeyed(a, b, c, d, e, f, g, h, k, m0)
    requires Built(m0, SevenAdds(a, b, c, d, e, f, g), SevenDuplicates(a, b, c, d, e, f, g), m, k, {a, b, c, d, e, f, g}, {0})
    ensures var t, s := SevenDuplicates(a, b, c, d, e, f, g), ScState(Full(SevenDuplicates(a, b, c, d, e, f, g)), m);
            && Insertable(t, h) && e.code == h.code && ScLegal(s, ScAdd(h, {0, 1}))
  {
    hide Code32, Radix, ScRun, SevenDuplicates, Uniform;
    Insertable32(SevenDuplicates(a, b, c, d, e, f, g), h);
    assert e in {a, b, c, d, e, f, g} && IsU32(e);
  }

  /** The masks it leaves. */
  lemma EighthMasks(t: Tree, h: Node, m: Masks, c: Node, e: Node, g: Node)
    requires WF(t) && Insertable(t, h) && h !in m && Uniform(m, t, {0}) && c in Links(t) && e in Links(t) && g in Links(t)
    requires DescentLinks(t, h) == {e} && SpineLinks(t, h) == {g} && c != e && c != g && e != g
    ensures var m' := InsertMasks(m, t, h, {0, 1});
            c in m' && m'[c].link == {0} && g in m' && m'[g].link == {0} && h in m' && m'[h].leaf == {0, 1}
  {
    hide WF, Insertable, DescentLinks, SpineLinks, PlaceOf;
    assert Mark({0}, {0, 1}) == {0} by { assert 0 in {0} * {0, 1}; }
  }

  /** After seven insertions of a key with scope {0}, which leave everything covered,
      an eighth one with scope {0, 1} is linked below a mask which has a part of that
      scope already, and which is not extended. Whoever looks for {1} finds nothing. */
  lemma ScopeIsLost(a: Node, b: Node, c: Node, d: Node, e: Node, f: Node, g: Node, h: Node, k: int, m0: Masks)
    returns (t: Tree, m: Masks)
    requires SameKeyed(a, b, c, d, e, f, g, h, k, m0)
    ensures ScRun(m0, SevenAdds(a, b, c, d, e, f, g)) == Some(ScState(Full(t), m))
    ensures CoversAll(m, Full(t)) && !FitsTop(m, Full(t), h, {0, 1})
    ensures var r := ScRun(m0, SevenAdds(a, b, c, d, e, f, g) + [ScAdd(h, {0, 1})]);
            && r.Some? && r.value.tt.Full? && Masked(r.value.m, r.value.tt.t)
            && h in LeafSet(r.value.tt.t) && Seen(r.value.m, h, {1}) && Visible(r.value.m, r.value.tt.t, {1}) == []
            && (forall path, x | Stopped(r.value.tt.t, path, x) :: path == [])
            && forall x :: GeAnswer(r.value.m, r.value.tt.t, [], x, {1}) == None
  {
    hide Code32, WF, ScRun, Insert, Fill, SevenDuplicates, SevenAdds, Insertable, DescentLinks, SpineLinks, PlaceOf, Covers, Fits, InsertMasks, Visible, Links, LeafSet, Stops, SameKeyed, Built, Uniform;
    t := SevenDuplicates(a, b, c, d, e, f, g);
    m := SevenBuilt(a, b, c, d, e, f, g, h, k, m0);
    EighthIs(a, b, c, d, e, f, g, h, k, m0, m);
    var s := ScState(Full(t), m);
    BuiltMeans(m0, SevenAdds(a, b, c, d, e, f, g), t, m, k, {a, b, c, d, e, f, g}, {0});
    DifferentLinks(a, b, c, d, e, f, g, h, k, m0);
    EighthGoes(a, b, c, d, e, f, g, h);
    EighthMasks(t, h, m, c, e, g);
    RunOneMore(m0, SevenAdds(a, b, c, d, e, f, g), s, ScAdd(h, {0, 1}));
    FineMasked(ScApply(s, ScAdd(h, {0, 1})));
    var m' := InsertMasks(m, t, h, {0, 1});
    InsertInserts(t, h);
    assert ScApply(s, ScAdd(h, {0, 1})) == ScState(Full(Insert(t, h)), m');
    EighthHidden(a, b, c, d, e, f, g, h, m');
    TopDuplicates(Insert(t, h));
    assert 1 in m'[h].leaf * {1};
    EighthDoesNotFit(a, b, c, d, e, f, g, h, m);
  }

  /** A descent does not go into a duplicate tree. */
  lemma TopDuplicates(t: Tree)
    requires t.Link? && t.bit < 0
    ensures forall path, x | Stopped(t, path, x) :: path == []
  {
    hide Code32, Stops, At, ValidPath;
  }

  lemma DifferentLinks(a: Node, b: Node, c: Node, d: Node, e: Node, f: Node, g: Node, h: Node, k: int, m0: Masks)
    requires SameKeyed(a, b, c, d, e, f, g, h, k, m0)
    ensures c != e && c != g && e != g
  {
  }

  lemma BuiltMeans(m0: Masks, ops: seq<ScOp>, t: Tree, m: Masks, k: int, s: set<Node>, scope: Scope)
    requires Built(m0, ops, t, m, k, s, scope)
    ensures ScRun(m0, ops) == Some(ScState(Full(t), m)) && WF(t) && Uniform(m, t, scope) && Masked(m, t) && CoversAll(m, Full(t))
    ensures forall o | o in Links(t) :: o in m && m[o].link == scope
  {
    hide Radix, Covered, ScRun;
    forall e | e in LeafSet(t)
      ensures Covered(m, t, e)
    {
      UniformCovered(m, t, scope, e);
    }
  }

  lemma EighthHidden(a: Node, b: Node, c: Node, d: Node, e: Node, f: Node, g: Node, h: Node, m': Masks)
    requires var t := SevenDuplicates(a, b, c, d, e, f, g); Masked(m', t.(r := t.r.(r := Link(h, -1, Leaf(g), Leaf(h)))))
    requires c in m' && m'[c].link == {0} && g in m' && m'[g].link == {0}
    ensures var t := SevenDuplicates(a, b, c, d, e, f, g);
            var u := t.(r := t.r.(r := Link(h, -1, Leaf(g), Leaf(h))));
            && Visible(m', u, {1}) == []
            && forall x :: GeAnswer(m', u, [], x, {1}) == None
  {
    var t := SevenDuplicates(a, b, c, d, e, f, g);
    var v := t.r.(r := Link(h, -1, Leaf(g), Leaf(h)));
    var u := t.(r := v);
    assert Masked(m', t.l) && Masked(m', v);
    assert Visible(m', v, {1}) == [] && Visible(m', t.l, {1}) == [];
    assert VisibleAfter(m', u, [], {1}) == [];
  }
}
