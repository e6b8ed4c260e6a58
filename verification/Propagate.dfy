/** The propagation of process bindings from frontends to backends:
    propagate_processes() in cfgparse.c and the loops around it. */
module Propagate {

  /** A mask of processes, as the set of the bits which are set in it. */
  type Processes = set<nat>

  /** A use_backend rule: its target is known now, or computed for each request. */
  datatype Rule = Dynamic | Static(backend: Proxy)

  class Proxy {
    var bindProc: Processes
    var frontend: bool
    var stopped: bool
    var defaultBackend: Proxy?
    var rules: seq<Rule>
    // the masks of the listeners
    var listeners: seq<Processes>

    constructor (mask: Processes, listeners: seq<Processes>, frontend: bool, stopped: bool)
      ensures bindProc == mask && this.listeners == listeners && this.frontend == frontend && this.stopped == stopped
      ensures defaultBackend == null && rules == []
    {
      bindProc, this.listeners, this.frontend, this.stopped := mask, listeners, frontend, stopped;
      defaultBackend, rules := null, [];
    }

    ghost function Targets(): set<Proxy>
      reads this
    {
      (if defaultBackend == null then {} else {defaultBackend}) +
      (set i | 0 <= i < |rules| && rules[i].Static? :: rules[i].backend)
    }

    /** Only running proxies with the frontend capability pass processes on. */
    ghost predicate Active()
      reads this
    {
      frontend && !stopped
    }
  }

  type Masks = map<Proxy, Processes>

  ghost function Snap(s: set<Proxy>): (m: Masks)
    reads s
    ensures m.Keys == s
  {
    map p | p in s :: p.bindProc
  }

  /** All targets of proxies are proxies: every name is resolved. */
  ghost predicate Resolved(s: set<Proxy>)
    reads s
  {
    forall p | p in s :: p.Targets() <= s
  }

  /** The edges along which masks flow. */
  ghost function Edges(s: set<Proxy>): (e: map<Proxy, set<Proxy>>)
    reads s
    ensures e.Keys == s
  {
    map p | p in s :: if p.Active() then p.Targets() else {}
  }

  // ----- masks over edges

  type Graph = map<Proxy, set<Proxy>>

  ghost predicate IsGraph(e: Graph) {
    forall p | p in e :: e[p] <= e.Keys
  }

  /** Every target of p has all the processes of p. */
  ghost predicate Closed(e: Graph, m: Masks, p: Proxy)
    requires IsGraph(e) && m.Keys == e.Keys && p in e
  {
    forall t | t in e[p] :: m[p] <= m[t]
  }

  ghost predicate AllClosed(e: Graph, m: Masks)
    requires IsGraph(e) && m.Keys == e.Keys
  {
    forall p | p in e :: Closed(e, m, p)
  }

  ghost predicate Below(m: Masks, n: Masks) {
    m.Keys == n.Keys && forall p | p in m :: m[p] <= n[p]
  }

  /** Process b gets to p in at most k steps along the edges. */
  ghost predicate GetsTo(e: Graph, m: Masks, p: Proxy, b: nat, k: nat)
    requires m.Keys == e.Keys && p in e
  {
    b in m[p] || (k > 0 && exists q | q in e :: p in e[q] && GetsTo(e, m, q, b, k - 1))
  }

  ghost predicate Reaches(e: Graph, m: Masks, p: Proxy, b: nat)
    requires m.Keys == e.Keys && p in e
  {
    exists k: nat :: GetsTo(e, m, p, b, k)
  }

  /** The masks m have no process which does not come from the masks m0. */
  ghost predicate Supported(e: Graph, m0: Masks, m: Masks)
    requires m0.Keys == e.Keys && m.Keys == e.Keys
  {
    forall p | p in e :: forall b | b in m[p] :: Reaches(e, m0, p, b)
  }

  lemma ReachesNext(e: Graph, m: Masks, p: Proxy, q: Proxy, b: nat)
    requires IsGraph(e) && m.Keys == e.Keys && p in e && q in e[p] && Reaches(e, m, p, b)
    ensures Reaches(e, m, q, b)
  {
    var k: nat :| GetsTo(e, m, p, b, k);
    assert GetsTo(e, m, q, b, k + 1);
  }

  /** Closed masks contain whatever reaches them. */
  lemma {:induction false} ClosedContains(e: Graph, m0: Masks, m: Masks, p: Proxy, b: nat, k: nat)
    requires IsGraph(e) && m0.Keys == e.Keys && Below(m0, m) && AllClosed(e, m) && p in e && GetsTo(e, m0, p, b, k)
    ensures b in m[p]
  {
    if b !in m0[p] {
      var q :| q in e && p in e[q] && GetsTo(e, m0, q, b, k - 1);
      ClosedContains(e, m0, m, q, b, k - 1);
      assert Closed(e, m, q);
    }
  }

  /** m is the least closed solution above m0: each proxy has exactly the processes
      of all the proxies which lead to it. */
  ghost predicate LeastSolution(e: Graph, m0: Masks, m: Masks) {
    && IsGraph(e) && m0.Keys == e.Keys && Below(m0, m) && AllClosed(e, m)
    && forall p | p in e :: forall b: nat :: b in m[p] <==> Reaches(e, m0, p, b)
  }

  lemma IsLeast(e: Graph, m0: Masks, m: Masks)
    requires IsGraph(e) && m0.Keys == e.Keys && Below(m0, m) && AllClosed(e, m) && Supported(e, m0, m)
    ensures LeastSolution(e, m0, m)
  {
    forall p, b: nat | p in e && Reaches(e, m0, p, b)
      ensures b in m[p]
    {
      var k: nat :| GetsTo(e, m0, p, b, k);
      ClosedContains(e, m0, m, p, b, k);
    }
  }

  /** It is below every other solution. */
  lemma BelowEverySolution(e: Graph, m0: Masks, m: Masks, n: Masks)
    requires LeastSolution(e, m0, m) && Below(m0, n) && AllClosed(e, n)
    ensures Below(m, n)
  {
    forall p, b | p in e && b in m[p]
      ensures b in n[p]
    {
      var k: nat :| GetsTo(e, m0, p, b, k);
      ClosedContains(e, m0, n, p, b, k);
    }
  }

  /** What every step of the propagation keeps: masks only grow, and whatever
      changed is closed. */
  ghost predicate Propagated(e: Graph, m: Masks, m': Masks) {
    && IsGraph(e) && m.Keys == e.Keys && Below(m, m')
    && forall p | p in e :: m'[p] == m[p] || Closed(e, m', p)
  }

  lemma Trans(e: Graph, m: Masks, m': Masks, m'': Masks)
    requires Propagated(e, m, m') && Propagated(e, m', m'')
    ensures Propagated(e, m, m'')
  {
    forall p | p in e
      ensures m''[p] == m[p] || Closed(e, m'', p)
    {
      if m''[p] == m'[p] != m[p] {
        StaysClosed(e, m', m'', p);
      }
    }
  }

  /** A closed proxy stays closed, or is closed again. */
  lemma StaysClosed(e: Graph, m: Masks, m': Masks, p: Proxy)
    requires Propagated(e, m, m') && p in e && Closed(e, m, p)
    ensures Closed(e, m', p)
  {
    if m'[p] == m[p] {
      forall t | t in e[p]
        ensures m'[p] <= m'[t]
      {
        assert m[p] <= m[t] <= m'[t];
      }
    }
  }

  // ----- the measure: how many bits are not set yet

  ghost function Missing(m: Masks, s: set<Proxy>, u: Processes): nat
    requires s <= m.Keys
  {
    if s == {} then 0 else var p :| p in s; |u - m[p]| + Missing(m, s - {p}, u)
  }

  lemma {:induction false} MissingDrops(m: Masks, m': Masks, s: set<Proxy>, u: Processes)
    requires s <= m.Keys && Below(m, m')
    ensures Missing(m', s, u) <= Missing(m, s, u)
    ensures (exists p | p in s :: m'[p] <= u && m[p] != m'[p]) ==> Missing(m', s, u) < Missing(m, s, u)
  {
    if s != {} {
      var p :| p in s && Missing(m, s, u) == |u - m[p]| + Missing(m, s - {p}, u);
      MissingAny(m', s, u, p);
      MissingDrops(m, m', s - {p}, u);
      Subset(u - m'[p], u - m[p]);
    }
  }

  lemma {:induction false} MissingAny(m: Masks, s: set<Proxy>, u: Processes, p: Proxy)
    requires s <= m.Keys && p in s
    ensures Missing(m, s, u) == |u - m[p]| + Missing(m, s - {p}, u)
  {
    var q :| q in s && Missing(m, s, u) == |u - m[q]| + Missing(m, s - {q}, u);
    if q != p {
      MissingAny(m, s - {q}, u, p);
      MissingAny(m, s - {p}, u, q);
      assert s - {q} - {p} == s - {p} - {q};
    }
  }

  lemma Subset(a: Processes, b: Processes)
    requires a <= b
    ensures |a| <= |b| && (a != b ==> |a| < |b|)
  {
    assert |b| == |a| + |b - a| by { assert b == a + (b - a); }
  }

  // ----- the code

  /** What flows along the edges. A proxy with processes adds them to those of its
      targets. A proxy without, which stands for all of them, clears its targets: then
      what flows is the mark of being clear. */
  ghost function Flow(clearing: bool, m: Masks): (v: Masks)
    ensures v.Keys == m.Keys
  {
    if clearing then map p | p in m :: if m[p] == {} then {0} else {} else m
  }

  /** While clearing, a mask is left alone or cleared. */
  ghost predicate OnlyCleared(clearing: bool, m: Masks, m': Masks) {
    m'.Keys == m.Keys && (clearing ==> forall p | p in m :: m'[p] == m[p] || m'[p] == {})
  }

  ghost function FlowIn(s: set<Proxy>, clearing: bool): (v: Masks)
    reads s
    ensures v.Keys == s
  {
    Flow(clearing, Snap(s))
  }

  /** The proxies s form graph e, and what flows in them comes from m0 and u. */
  ghost predicate Ready(s: set<Proxy>, e: Graph, u: Processes, m0: Masks, clearing: bool)
    reads s
  {
    && Resolved(s) && e == Edges(s) && m0.Keys == s
    && (forall p | p in s :: FlowIn(s, clearing)[p] <= u)
    && Supported(e, m0, FlowIn(s, clearing))
  }

  lemma ReadyGraph(s: set<Proxy>, e: Graph, u: Processes, m0: Masks, clearing: bool)
    requires Ready(s, e, u, m0, clearing)
    ensures IsGraph(e) && e.Keys == s
  {
  }

  /** from has passed its processes on to these targets. */
  ghost predicate PassedTo(m: Masks, from: Proxy, seen: set<Proxy>) {
    from in m && seen <= m.Keys && forall t | t in seen :: m[from] <= m[t]
  }

  lemma PassedMore(e: Graph, m: Masks, m': Masks, from: Proxy, seen: set<Proxy>, t: Proxy)
    requires Propagated(e, m, m') && from in e && seen <= e[from] && t in e[from] && PassedTo(m, from, seen)
    requires m'[from] <= m'[t]
    ensures PassedTo(m', from, seen + {t})
  {
    if m'[from] == m[from] {
      forall x | x in seen
        ensures m'[from] <= m'[x]
      {
        assert m[from] <= m[x] <= m'[x];
      }
    }
  }

  /** Setting the mask of to, and passing it on from there. */
  lemma SetAndPassed(e: Graph, m: Masks, m1: Masks, m': Masks, to: Proxy)
    requires IsGraph(e) && m.Keys == e.Keys && to in e && Below(m, m1) && Propagated(e, m1, m') && Closed(e, m', to)
    requires forall p | p in e && p != to :: m1[p] == m[p]
    ensures Propagated(e, m, m')
  {
  }

  lemma SupportedStep(e: Graph, m0: Masks, m: Masks, m': Masks, from: Proxy, to: Proxy)
    requires IsGraph(e) && m0.Keys == e.Keys && m.Keys == e.Keys && m'.Keys == e.Keys && Supported(e, m0, m)
    requires from in e && to in e[from] && m' == m[to := m[to] + m[from]]
    ensures Supported(e, m0, m')
  {
    forall b | b in m'[to]
      ensures Reaches(e, m0, to, b)
    {
      if b in m[from] {
        ReachesNext(e, m0, from, to, b);
      }
    }
  }

  /** propagate_processes(): what the source has flows to the target and on from there. */
  method PropagateProcesses(from: Proxy, to: Proxy?, ghost s: set<Proxy>, ghost e: Graph, ghost u: Processes, ghost m0: Masks,
                            ghost clearing: bool)
    requires Ready(s, e, u, m0, clearing) && from in s && clearing == (from.bindProc == {}) && (to != null ==> to in e[from])
    modifies s`bindProc
    ensures Ready(s, e, u, m0, clearing) && clearing == (from.bindProc == {})
    ensures Propagated(e, old(FlowIn(s, clearing)), FlowIn(s, clearing)) && OnlyCleared(clearing, old(Snap(s)), Snap(s))
    ensures if to == null then Closed(e, FlowIn(s, clearing), from)
            else to in s && FlowIn(s, clearing)[from] <= FlowIn(s, clearing)[to]
                 && if clearing then to.bindProc == {} else from.bindProc <= to.bindProc
    decreases Missing(FlowIn(s, clearing), s, u), if to == null then 4 else 0
  {
    hide Missing, Supported, GetsTo, Resolved, Edges, Flow, OnlyCleared;
    ReadyGraph(s, e, u, m0, clearing);
    ghost var m, raw := FlowIn(s, clearing), Snap(s);
    Unchanged(e, raw, clearing);
    if to == null {
      PassOn(from, s, e, u, m0, clearing);
    } else {
      FlowTests(raw, from, to, clearing);
      var f, t := from.bindProc, to.bindProc;
      if f != {} && f * t == f {
        return;
      }
      if f == {} && t == {} {
        return;
      }
      Extend(from, to, s, e, u, m0, clearing);
      ghost var m1, raw1 := FlowIn(s, clearing), Snap(s);
      assert m[to] != m1[to] && m1[to] <= u;
      MissingDrops(m, m1, s, u);
      PassOn(to, s, e, u, m0, clearing);
      ghost var m2, raw2 := FlowIn(s, clearing), Snap(s);
      SetAndPassed(e, m, m1, m2, to);
      FromToHolds(e, m1, m2, from, to);
      ClearedTwice(clearing, raw, raw1, raw2);
      assert m[from] <= m2[from];
      FlowTests(raw2, from, to, clearing);
    }
  }

  lemma Unchanged(e: Graph, m: Masks, clearing: bool)
    requires IsGraph(e) && m.Keys == e.Keys
    ensures Propagated(e, Flow(clearing, m), Flow(clearing, m)) && OnlyCleared(clearing, m, m)
  {
  }

  lemma ClearedTwice(clearing: bool, m: Masks, m': Masks, m'': Masks)
    requires OnlyCleared(clearing, m, m') && OnlyCleared(clearing, m', m'')
    ensures OnlyCleared(clearing, m, m'')
  {
  }

  lemma FromToHolds(e: Graph, m: Masks, m': Masks, from: Proxy, to: Proxy)
    requires Propagated(e, m, m') && from in e && to in e[from] && (from != to ==> m[from] <= m[to])
    ensures m'[from] <= m'[to]
  {
    if m'[from] == m[from] && from != to {
      assert m[to] <= m'[to];
    }
  }

  /** The mask of to is extended by the one of from, or cleared. */
  method Extend(from: Proxy, to: Proxy, ghost s: set<Proxy>, ghost e: Graph, ghost u: Processes, ghost m0: Masks, ghost clearing: bool)
    requires Ready(s, e, u, m0, clearing) && from in s && IsGraph(e) && to in e[from] && clearing == (from.bindProc == {})
    modifies to`bindProc
    ensures Ready(s, e, u, m0, clearing) && (to.bindProc == {}) == clearing
    ensures var m := old(FlowIn(s, clearing)); FlowIn(s, clearing) == m[to := m[to] + m[from]]
    ensures OnlyCleared(clearing, old(Snap(s)), Snap(s))
  {
    hide Supported, GetsTo, Resolved, Edges, Flow, OnlyCleared;
    ghost var m, raw := FlowIn(s, clearing), Snap(s);
    to.bindProc := if from.bindProc != {} then to.bindProc + from.bindProc else {};
    FlowStep(raw, Snap(s), from, to, clearing);
    EdgesKept(s);
    SupportedStep(e, m0, m, FlowIn(s, clearing), from, to);
  }

  lemma FlowStep(m: Masks, m': Masks, from: Proxy, to: Proxy, clearing: bool)
    requires from in m && to in m && clearing == (m[from] == {})
    requires m' == m[to := if m[from] != {} then m[to] + m[from] else {}]
    ensures var v := Flow(clearing, m); Flow(clearing, m') == v[to := v[to] + v[from]]
    ensures OnlyCleared(clearing, m, m') && (m'[to] == {}) == clearing
  {
    if clearing {
      ClearStep(m, m', from, to);
    } else {
      assert m'[to] == m[to] + m[from];
    }
  }

  lemma ClearStep(m: Masks, m': Masks, from: Proxy, to: Proxy)
    requires from in m && to in m && m[from] == {} && m' == m[to := {}]
    ensures var v := Flow(true, m); Flow(true, m') == v[to := v[to] + v[from]]
  {
    var v, v' := Flow(true, m), Flow(true, m');
    var w := v[to := v[to] + v[from]];
    assert v[from] == {0} && v[to] <= {0} && v'[to] == {0};
    assert w[to] == {0};
    forall p | p in m
      ensures v'[p] == w[p]
    {
    }
  }

  /** What flows from a proxy, and what the tests of the code mean for it. */
  lemma FlowTests(m: Masks, from: Proxy, to: Proxy, clearing: bool)
    requires from in m && to in m
    ensures Flow(clearing, m)[from] != {} <==> clearing == (m[from] == {})
    ensures clearing == (m[from] == {}) ==>
              (Flow(clearing, m)[from] <= Flow(clearing, m)[to] <==>
               (m[from] != {} && m[from] * m[to] == m[from]) || (m[from] == {} && m[to] == {}))
    ensures clearing == (m[from] == {}) && Flow(clearing, m)[from] <= Flow(clearing, m)[to] ==>
              if clearing then m[to] == {} else m[from] <= m[to]
  {
    assert {0} != {};
  }

  twostate lemma EdgesKept(s: set<Proxy>)
    requires forall p | p in s :: p.frontend == old(p.frontend) && p.stopped == old(p.stopped) && p.defaultBackend == old(p.defaultBackend) && p.rules == old(p.rules)
    ensures Edges(s) == old(Edges(s)) && Resolved(s) == old(Resolved(s))
  {
    forall p | p in s
      ensures p.Targets() == old(p.Targets())
    {
    }
  }

  /** from has passed on what it has to the targets seen, since the masks were raw. */
  ghost predicate Passing(s: set<Proxy>, e: Graph, u: Processes, m0: Masks, raw: Masks, from: Proxy, seen: set<Proxy>, clearing: bool)
    reads s
  {
    && Ready(s, e, u, m0, clearing) && from in e && seen <= e[from] && clearing == (from.bindProc == {}) && raw.Keys == s
    && Propagated(e, Flow(clearing, raw), FlowIn(s, clearing)) && PassedTo(FlowIn(s, clearing), from, seen)
    && OnlyCleared(clearing, raw, Snap(s))
    && Missing(FlowIn(s, clearing), s, u) <= Missing(Flow(clearing, raw), s, u)
  }

  method PassOne(from: Proxy, to: Proxy, ghost s: set<Proxy>, ghost e: Graph, ghost u: Processes, ghost m0: Masks,
                 ghost raw: Masks, ghost seen: set<Proxy>, ghost clearing: bool)
    requires Passing(s, e, u, m0, raw, from, seen, clearing) && to in e[from]
    modifies s`bindProc
    ensures Passing(s, e, u, m0, raw, from, seen + {to}, clearing) && from.Targets() == old(from.Targets())
    ensures Missing(FlowIn(s, clearing), s, u) <= old(Missing(FlowIn(s, clearing), s, u))
    decreases Missing(FlowIn(s, clearing), s, u), 1
  {
    hide Missing, Supported, GetsTo, Resolved, Edges, Closed, Flow;
    ghost var m1 := FlowIn(s, clearing);
    PropagateProcesses(from, to, s, e, u, m0, clearing);
    PassedMore(e, m1, FlowIn(s, clearing), from, seen, to);
    Trans(e, Flow(clearing, raw), m1, FlowIn(s, clearing));
    MissingDrops(Flow(clearing, raw), FlowIn(s, clearing), s, u);
    MissingDrops(m1, FlowIn(s, clearing), s, u);
  }

  /** Its second half: from passes on what it has to all its targets. */
  method PassOn(from: Proxy, ghost s: set<Proxy>, ghost e: Graph, ghost u: Processes, ghost m0: Masks, ghost clearing: bool)
    requires Ready(s, e, u, m0, clearing) && from in s && clearing == (from.bindProc == {})
    modifies s`bindProc
    ensures Ready(s, e, u, m0, clearing) && clearing == (from.bindProc == {})
    ensures Propagated(e, old(FlowIn(s, clearing)), FlowIn(s, clearing)) && OnlyCleared(clearing, old(Snap(s)), Snap(s))
    ensures Closed(e, FlowIn(s, clearing), from)
    decreases Missing(FlowIn(s, clearing), s, u), 3
  {
    hide Missing, Supported, GetsTo, Resolved, Propagated, Edges, Flow, OnlyCleared, Ready;
    ReadyGraph(s, e, u, m0, clearing);
    ghost var raw := Snap(s);
    PassingStart(s, e, u, m0, from, clearing);
    if !from.frontend || from.stopped {
      return;
    }
    ghost var seen: set<Proxy> := {};
    if from.defaultBackend != null {
      PassOne(from, from.defaultBackend, s, e, u, m0, raw, seen, clearing);
      seen := seen + {from.defaultBackend};
    }
    ghost var all := PassRules(from, s, e, u, m0, raw, seen, clearing);
    assert from.Targets() <= all;
  }

  /** Its loop over the use_backend rules. */
  method PassRules(from: Proxy, ghost s: set<Proxy>, ghost e: Graph, ghost u: Processes, ghost m0: Masks,
                   ghost raw: Masks, ghost seen0: set<Proxy>, ghost clearing: bool) returns (ghost seen: set<Proxy>)
    requires Passing(s, e, u, m0, raw, from, seen0, clearing) && from in s && from in e && e[from] == from.Targets()
    modifies s`bindProc
    ensures Passing(s, e, u, m0, raw, from, seen, clearing) && seen0 <= seen && e[from] == from.Targets()
    ensures forall j | 0 <= j < |from.rules| && from.rules[j].Static? :: from.rules[j].backend in seen
    decreases Missing(FlowIn(s, clearing), s, u), 2
  {
    hide Missing, Supported, GetsTo, Resolved, Propagated, Edges, Flow, OnlyCleared, Passing;
    seen := seen0;
    ghost var left := Missing(FlowIn(s, clearing), s, u);
    var i := 0;
    while i < |from.rules|
      invariant i <= |from.rules| && Passing(s, e, u, m0, raw, from, seen, clearing) && seen0 <= seen
      invariant from in e && e[from] == from.Targets()
      invariant Missing(FlowIn(s, clearing), s, u) <= left
      invariant forall j | 0 <= j < i && from.rules[j].Static? :: from.rules[j].backend in seen
    {
      if from.rules[i].Static? {
        PassOne(from, from.rules[i].backend, s, e, u, m0, raw, seen, clearing);
        seen := seen + {from.rules[i].backend};
      }
      i := i + 1;
    }
  }

  lemma PassingStart(s: set<Proxy>, e: Graph, u: Processes, m0: Masks, from: Proxy, clearing: bool)
    requires Ready(s, e, u, m0, clearing) && from in s && clearing == (from.bindProc == {})
    ensures Passing(s, e, u, m0, Snap(s), from, {}, clearing)
    ensures Propagated(e, FlowIn(s, clearing), FlowIn(s, clearing)) && OnlyCleared(clearing, Snap(s), Snap(s))
    ensures e[from] == if from.Active() then from.Targets() else {}
  {
  }

  // ----- the loops of check_config_validity() around it

  function ProcMask(mask: Processes, all: Processes): Processes {
    if mask != {} then mask else all
  }

  ghost function Union(listeners: seq<Processes>, all: Processes): Processes {
    if listeners == [] then {} else Union(listeners[..|listeners| - 1], all) + ProcMask(listeners[|listeners| - 1], all)
  }

  /** The mask a proxy starts with: its own, or the ones of its listeners, or all. */
  ghost function StartMask(mask: Processes, listeners: seq<Processes>, all: Processes): Processes {
    if mask != {} then mask else ProcMask(Union(listeners, all), all)
  }

  /** A process which some listener runs in; one without a mask runs in all. */
  ghost predicate Listened(listeners: seq<Processes>, all: Processes, b: nat) {
    exists i | 0 <= i < |listeners| :: b in listeners[i] || (listeners[i] == {} && b in all)
  }

  lemma {:induction false} UnionHas(listeners: seq<Processes>, all: Processes, b: nat)
    ensures b in Union(listeners, all) <==> Listened(listeners, all, b)
  {
    if listeners != [] {
      var n := |listeners| - 1;
      UnionHas(listeners[..n], all, b);
      if Listened(listeners[..n], all, b) {
        var i :| 0 <= i < n && (b in listeners[..n][i] || (listeners[..n][i] == {} && b in all));
        assert b in listeners[i] || (listeners[i] == {} && b in all);
      }
      if Listened(listeners, all, b) {
        var i :| 0 <= i < |listeners| && (b in listeners[i] || (listeners[i] == {} && b in all));
        assert i < n ==> listeners[..n][i] == listeners[i];
      }
    }
  }

  /** Which processes a proxy starts with: those of its own mask; without one, those of
      its listeners; without any, all. */
  lemma StartMaskHas(mask: Processes, listeners: seq<Processes>, all: Processes, b: nat)
    ensures b in StartMask(mask, listeners, all) <==>
            b in mask || (mask == {} && (Listened(listeners, all, b) || (listeners == [] && b in all)))
  {
    hide Union;
    UnionHas(listeners, all, b);
    if listeners != [] {
      forall b' | b' in ProcMask(listeners[0], all)
        ensures b' in Union(listeners, all)
      {
        UnionHas(listeners, all, b');
      }
    } else {
      NoListener(all);
    }
  }

  lemma NoListener(all: Processes)
    ensures Union([], all) == {}
  {
  }

  ghost function StartMasks(s: set<Proxy>, all: Processes): (m: Masks)
    reads s
    ensures m.Keys == s
  {
    map p | p in s :: StartMask(p.bindProc, p.listeners, all)
  }

  /** A frontend without a mask inherits those of its listeners. */
  method Inherit(p: Proxy, all: Processes)
    modifies p`bindProc
    ensures p.bindProc == StartMask(old(p.bindProc), p.listeners, all)
  {
    if p.bindProc != {} {
      return;
    }
    var i := 0;
    while i < |p.listeners|
      invariant i <= |p.listeners| && p.bindProc == Union(p.listeners[..i], all)
      modifies p`bindProc
    {
      assert p.listeners[..i + 1][..i] == p.listeners[..i];
      p.bindProc := p.bindProc + ProcMask(p.listeners[i], all);
      i := i + 1;
    }
    assert p.listeners[..i] == p.listeners;
    p.bindProc := ProcMask(p.bindProc, all);
  }

  method InheritAll(proxies: seq<Proxy>, all: Processes, ghost s: set<Proxy>)
    requires all != {} && (forall p | p in s :: p in proxies) && forall i | 0 <= i < |proxies| :: proxies[i] in s
    modifies s`bindProc
    ensures Snap(s) == old(StartMasks(s, all)) && Edges(s) == old(Edges(s)) && Resolved(s) == old(Resolved(s))
    ensures forall p | p in s :: p.bindProc != {}
  {
    var i := 0;
    while i < |proxies|
      invariant i <= |proxies|
      invariant forall p | p in s ::
                  if p in proxies[..i] then p.bindProc == StartMask(old(p.bindProc), p.listeners, all)
                  else p.bindProc == old(p.bindProc)
    {
      assert proxies[..i + 1] == proxies[..i] + [proxies[i]];
      StartTwice(old(proxies[i].bindProc), proxies[i].listeners, all);
      Inherit(proxies[i], all);
      i := i + 1;
    }
    assert proxies[..i] == proxies;
    EdgesKept(s);
  }

  lemma StartTwice(mask: Processes, listeners: seq<Processes>, all: Processes)
    requires all != {}
    ensures var m := StartMask(mask, listeners, all); m != {} && StartMask(m, listeners, all) == m
  {
  }

  ghost function AllBits(m: Masks): (u: Processes)
    ensures forall p | p in m :: m[p] <= u
  {
    set p, b | p in m && b in m[p] :: b
  }

  lemma ReadyNow(s: set<Proxy>)
    requires Resolved(s)
    ensures Ready(s, Edges(s), AllBits(Snap(s)), Snap(s), false)
  {
    var e, m := Edges(s), Snap(s);
    forall p, b | p in e && b in m[p]
      ensures Reaches(e, m, p, b)
    {
      assert GetsTo(e, m, p, b, 0);
    }
  }

  /** The frontends pass their processes on, one after the other. */
  method PropagateAll(proxies: seq<Proxy>, ghost s: set<Proxy>)
    requires Resolved(s) && (forall p | p in s :: p in proxies && p.bindProc != {}) && forall i | 0 <= i < |proxies| :: proxies[i] in s
    modifies s`bindProc
    ensures Edges(s) == old(Edges(s)) && LeastSolution(old(Edges(s)), old(Snap(s)), Snap(s))
    ensures forall p | p in s :: p.bindProc != {}
  {
    hide Missing, Supported, GetsTo, Resolved, Edges, Propagated, AllBits;
    ghost var m0, e, u := Snap(s), Edges(s), AllBits(Snap(s));
    ReadyNow(s);
    ReadyGraph(s, e, u, m0, false);
    NothingPropagated(e, m0);
    var i := 0;
    while i < |proxies|
      invariant i <= |proxies| && Ready(s, e, u, m0, false) && Propagated(e, m0, Snap(s)) && IsGraph(e)
      invariant forall p | p in s && p.frontend && p in proxies[..i] :: Closed(e, Snap(s), p)
      invariant forall p | p in s :: p.bindProc != {}
    {
      assert proxies[..i + 1] == proxies[..i] + [proxies[i]];
      if proxies[i].frontend {
        ghost var m := Snap(s);
        PropagateProcesses(proxies[i], null, s, e, u, m0, false);
        Trans(e, m0, m, Snap(s));
        StillSet(e, m, Snap(s));
        forall p | p in s && Closed(e, m, p)
          ensures Closed(e, Snap(s), p)
        {
          StaysClosed(e, m, Snap(s), p);
        }
      }
      i := i + 1;
    }
    assert proxies[..i] == proxies;
    OthersPassNothing(s, e);
    assert AllClosed(e, Snap(s));
    assert Below(m0, Snap(s)) by { StillSet(e, m0, Snap(s)); }
    IsLeast(e, m0, Snap(s));
  }

  lemma NothingPropagated(e: Graph, m: Masks)
    requires IsGraph(e) && m.Keys == e.Keys
    ensures Propagated(e, m, m)
  {
  }

  lemma StillSet(e: Graph, m: Masks, m': Masks)
    requires Propagated(e, m, m')
    ensures Below(m, m') && forall p | p in m && m[p] != {} :: m'[p] != {}
  {
  }

  lemma OthersPassNothing(s: set<Proxy>, e: Graph)
    requires e == Edges(s)
    ensures forall p | p in s && !p.frontend :: e[p] == {}
  {
  }

  /** The binding of all proxies to processes: unless the configuration has errors,
      every proxy ends up with exactly the processes of all the running frontends
      which lead to it, and its own. */
  method BindProcesses(proxies: seq<Proxy>, all: Processes, cfgerr: bool, ghost s: set<Proxy>)
    requires all != {} && (!cfgerr ==> Resolved(s))
    requires (forall p | p in s :: p in proxies) && forall i | 0 <= i < |proxies| :: proxies[i] in s
    modifies s`bindProc
    ensures forall p | p in s :: p.bindProc != {}
    ensures if cfgerr then Snap(s) == old(StartMasks(s, all))
            else LeastSolution(old(Edges(s)), old(StartMasks(s, all)), Snap(s))
  {
    hide Resolved, Edges, LeastSolution, StartMasks;
    InheritAll(proxies, all, s);
    if !cfgerr {
      PropagateAll(proxies, s);
    }
    ghost var m := Snap(s);
    var i := 0;
    while i < |proxies|
      invariant i <= |proxies| && Snap(s) == m && forall p | p in s :: p.bindProc != {}
    {
      proxies[i].bindProc := ProcMask(proxies[i].bindProc, all);
      i := i + 1;
    }
  }
}
