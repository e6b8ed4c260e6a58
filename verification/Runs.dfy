/** Whole runs of insertions and deletions, starting from an empty tree. */
module EbRuns {
  import opened Options
  import opened Codes
  import opened Bits
  import opened EbNodes
  import opened EbTrees
  import opened EbLists
  import opened EbRadix
  import opened EbInsert
  import opened EbDelete
  import opened EbCounter
  import opened EbWalk

  datatype Op = Add(n: Node) | Drop(n: Node)

  ghost predicate Legal(tt: Top, op: Op) {
    match op
    case Add(n) => (n.key.U32? ==> |n.code| == 32) && (tt.Full? ==> Insertable(tt.t, n))
    case Drop(n) => tt.Full? && n in LeafSet(tt.t)
  }

  ghost function Apply(tt: Top, op: Op): (tt': Top)
    requires WFTop(tt) && Legal(tt, op)
    ensures WFTop(tt')
  {
    match op
    case Add(n) => InsertCorrect(tt, n); InsertTop(tt, n)
    case Drop(n) => DeleteCorrect(tt, n); Deleted(tt, n)
  }

  /** The tree after a run, if every step of the run is legal. */
  ghost function Run(ops: seq<Op>): (r: Option<Top>)
    ensures r.Some? ==> WFTop(r.value)
  {
    if ops == [] then Some(Empty)
    else
      var r := Run(ops[..|ops| - 1]);
      var op := ops[|ops| - 1];
      if r.Some? && Legal(r.value, op) then Some(Apply(r.value, op)) else None
  }

  /** What the run means: a list which is kept in stable order. */
  ghost function ListRun(ops: seq<Op>): seq<Node> {
    if ops == [] then []
    else
      var s := ListRun(ops[..|ops| - 1]);
      match ops[|ops| - 1]
      case Add(n) => Ins(s, n)
      case Drop(n) => Remove(s, n)
  }

  /** In every reachable state the tree holds what the list holds, in that order. */
  lemma {:induction false} RunIsList(ops: seq<Op>)
    requires Run(ops).Some?
    ensures Entities(Run(ops).value) == ListRun(ops) && Sorted(ListRun(ops))
  {
    var tt := Run(ops).value;
    if tt.Full? {
      RadixSorted(tt.t);
    }
    if ops != [] {
      var prev := ops[..|ops| - 1];
      RunIsList(prev);
      match ops[|ops| - 1]
      case Add(n) => InsertCorrect(Run(prev).value, n);
      case Drop(n) => DeleteCorrect(Run(prev).value, n);
    }
  }

  /** In every reachable state a link outside duplicate trees owns the first
      surviving entity of its key. */
  lemma LinksOwnTheFirst(ops: seq<Op>, path: Path)
    requires Run(ops).Some? && Run(ops).value.Full? && ValidPath(Run(ops).value.t, path)
    requires At(Run(ops).value.t, path).Link? && At(Run(ops).value.t, path).bit >= 0
    ensures var s := At(Run(ops).value.t, path); FirstWith(ListRun(ops), s.o.code) == Some(s.o)
  {
    var t := Run(ops).value.t;
    var s := At(t, path);
    RunIsList(ops);
    RadixAt(t, path);
    HeadIsLeaf(s);
    RadixRoute(t, path);
    RouteOfLeaf(t, path, s.o);
    RouteFirst(t, path, s.o.code);
  }

  // ----- duplicate trees over runs

  ghost function Inserts(ops: seq<Op>, c: Code): nat {
    if ops == [] then 0
    else
      var op := ops[|ops| - 1];
      Inserts(ops[..|ops| - 1], c) + if op.Add? && op.n.code == c then 1 else 0
  }

  ghost function TopCounter(tt: Top, c: Code): nat
    requires WFTop(tt)
  {
    if tt.Empty? then 0 else KeyCounter(tt.t, c) + if HasKey(tt.t, c) then 1 else 0
  }

  lemma AddCounts(tt: Top, n: Node, c: Code)
    requires WFTop(tt) && Legal(tt, Add(n))
    ensures TopCounter(Apply(tt, Add(n)), c) == TopCounter(tt, c) + if n.code == c then 1 else 0
  {
    var tt' := Apply(tt, Add(n));
    InsertCorrect(tt, n);
    assert n in LeafSet(tt'.t);
    if tt.Full? {
      InsertKeyCounts(tt.t, n, c);
      if HasKey(tt.t, c) {
        var e :| e in LeafSet(tt.t) && e.code == c;
        assert e in LeafSet(tt'.t);
      } else {
        NoKeyNoCounter(tt.t, c);
      }
    }
  }

  lemma DropCounts(tt: Top, n: Node, c: Code)
    requires WFTop(tt) && Legal(tt, Drop(n))
    ensures TopCounter(Apply(tt, Drop(n)), c) <= TopCounter(tt, c)
  {
    var tt' := Apply(tt, Drop(n));
    if tt.t.Link? {
      DeleteKeyCounts(tt.t, n, c);
      DelLeaves(tt.t, n, ParentOwner(tt.t, n));
      if HasKey(tt'.t, c) {
        var e :| e in LeafSet(tt'.t) && e.code == c;
        assert e in LeafSet(tt.t);
      }
    }
  }

  /** The counter of a key never exceeds the number of its insertions, and counts
      them exactly in a run without deletions. */
  lemma {:induction false} RunCounts(ops: seq<Op>, c: Code)
    requires Run(ops).Some?
    ensures TopCounter(Run(ops).value, c) <= Inserts(ops, c)
    ensures (forall i | 0 <= i < |ops| :: ops[i].Add?) ==> TopCounter(Run(ops).value, c) == Inserts(ops, c)
  {
    if ops != [] {
      var prev, op := ops[..|ops| - 1], ops[|ops| - 1];
      RunCounts(prev, c);
      match op
      case Add(n) => AddCounts(Run(prev).value, n, c);
      case Drop(n) => DropCounts(Run(prev).value, n, c);
    }
  }

  /** No duplicate link of a key inserted k times has a bit below -(1 + log2(k - 1)). */
  lemma BitsOverRuns(ops: seq<Op>, path: Path)
    requires Run(ops).Some? && Run(ops).value.Full? && ValidPath(Run(ops).value.t, path)
    requires At(Run(ops).value.t, path).Link? && At(Run(ops).value.t, path).bit < 0
    ensures var s := At(Run(ops).value.t, path);
            Pow2(-s.bit - 1) < Inserts(ops, s.o.code) && Depth(s) <= -s.bit
  {
    var t := Run(ops).value.t;
    var s := At(t, path);
    BitWithinCounter(t, path);
    RadixAt(t, path);
    SetsAt(t, path);
    HeadIsLeaf(s);
    assert HasKey(t, s.o.code);
    RunCounts(ops, s.o.code);
    DupTreeBits(s);
    DupSize(s);
  }

  ghost function Count(s: seq<Node>, c: Code): nat {
    if s == [] then 0 else Count(s[1..], c) + if s[0].code == c then 1 else 0
  }

  lemma {:induction false} CountIns(s: seq<Node>, n: Node, c: Code)
    ensures Count(Ins(s, n), c) == Count(s, c) + if n.code == c then 1 else 0
  {
    if s == [] || Before(n.code, s[0].code) {
      assert ([n] + s)[1..] == s;
    } else {
      CountIns(s[1..], n, c);
      assert Ins(s, n)[1..] == Ins(s[1..], n);
    }
  }

  lemma {:induction false} CountAdds(ops: seq<Op>, c: Code)
    requires forall i | 0 <= i < |ops| :: ops[i].Add?
    ensures Count(ListRun(ops), c) == Inserts(ops, c)
  {
    if ops != [] {
      CountAdds(ops[..|ops| - 1], c);
      CountIns(ListRun(ops[..|ops| - 1]), ops[|ops| - 1].n, c);
    }
  }

  lemma {:induction false} Pow2Monotone(a: nat, b: nat)
    requires a <= b
    ensures Pow2(a) <= Pow2(b)
    decreases b
  {
    if a < b {
      Pow2Monotone(a, b - 1);
    }
  }

  /** Without deletions, the depth of a duplicate tree is logarithmic in the number
      of entities it holds. */
  lemma InsertOnlyDepth(ops: seq<Op>, path: Path)
    requires Run(ops).Some? && Run(ops).value.Full? && ValidPath(Run(ops).value.t, path)
    requires At(Run(ops).value.t, path).Link? && At(Run(ops).value.t, path).bit < 0
    requires forall i | 0 <= i < |ops| :: ops[i].Add?
    ensures var s := At(Run(ops).value.t, path);
            Pow2(Depth(s) - 1) < Count(Entities(Run(ops).value), s.o.code)
  {
    hide Run, WFTop, ListRun, Inserts, Count, Pow2;
    var s := At(Run(ops).value.t, path);
    BitsOverRuns(ops, path);
    CountAdds(ops, s.o.code);
    RunIsList(ops);
    Pow2Monotone(Depth(s) - 1, -s.bit - 1);
  }
}
