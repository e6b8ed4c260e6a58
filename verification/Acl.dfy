/** Conditions on ACLs: acl_exec_cond() in acl.c, which evaluates a disjunction of
    conjunctions in three-valued logic. */
module Acl {

  /** The result of a test, with the numbers of enum acl_test_res: OR and AND are
      bitwise. */
  type Result = bv8

  const FAIL: Result := 0
  const MISS: Result := 1
  const PASS: Result := 3

  ghost predicate IsResult(r: Result) { r == FAIL || r == MISS || r == PASS }

  /** acl_neg() */
  function Neg(r: Result): (s: Result)
    requires IsResult(r)
    ensures s == Not(r)
  {
    3 >> (r as int)
  }

  /** A sample which an expression fetches, and whether it matches the patterns. */
  datatype Sample = Sample(match_: bool, mayChange: bool)

  /** What fetching an expression gives: samples with more to come, and at the end
      a last sample, or none. mayChange is set when data is missing or may change. */
  datatype Expr = Expr(more: seq<Sample>, last: Sample, fetched: bool)

  datatype Term = Term(exprs: seq<Expr>, neg: bool)

  type Suite = seq<Term>

  type Cond = seq<Suite>

  // ----- three-valued logic

  ghost function Or(a: Result, b: Result): Result {
    if a == PASS || b == PASS then PASS else if a == MISS || b == MISS then MISS else FAIL
  }

  ghost function And(a: Result, b: Result): Result {
    if a == FAIL || b == FAIL then FAIL else if a == MISS || b == MISS then MISS else PASS
  }

  ghost function Not(a: Result): Result {
    if a == PASS then FAIL else if a == FAIL then PASS else MISS
  }

  ghost predicate Matches(x: Expr) {
    (exists i | 0 <= i < |x.more| :: x.more[i].match_) || (x.fetched && x.last.match_)
  }

  ghost function ExprValue(x: Expr, final: bool): (r: Result)
    ensures IsResult(r)
  {
    if Matches(x) then PASS else if x.last.mayChange && !final then MISS else FAIL
  }

  ghost function AclValue(xs: seq<Expr>, final: bool): (r: Result)
    ensures IsResult(r)
  {
    if xs == [] then FAIL else Or(AclValue(xs[..|xs| - 1], final), ExprValue(xs[|xs| - 1], final))
  }

  ghost function TermValue(t: Term, final: bool): (r: Result)
    ensures IsResult(r)
  {
    if t.neg then Not(AclValue(t.exprs, final)) else AclValue(t.exprs, final)
  }

  ghost function SuiteValue(s: Suite, final: bool): (r: Result)
    ensures IsResult(r)
  {
    if s == [] then PASS else And(TermValue(s[0], final), SuiteValue(s[1..], final))
  }

  /** The condition as a formula. */
  ghost function CondValue(c: Cond, final: bool): (r: Result)
    ensures IsResult(r)
  {
    if c == [] then FAIL else Or(SuiteValue(c[0], final), CondValue(c[1..], final))
  }

  // ----- what the short-circuits compute

  /** A suite stops at its first term which does not pass, be it a miss. */
  ghost function SuiteResult(s: Suite, final: bool): (r: Result)
    ensures IsResult(r)
  {
    if s == [] then PASS
    else if TermValue(s[0], final) != PASS then TermValue(s[0], final)
    else SuiteResult(s[1..], final)
  }

  ghost function CondResult(c: Cond, final: bool): (r: Result)
    ensures IsResult(r)
  {
    if c == [] then FAIL else Or(SuiteResult(c[0], final), CondResult(c[1..], final))
  }

  lemma {:induction false} SuiteSound(s: Suite, final: bool)
    ensures SuiteResult(s, final) == PASS <==> SuiteValue(s, final) == PASS
    ensures SuiteResult(s, final) == FAIL ==> SuiteValue(s, final) == FAIL
  {
    if s != [] {
      SuiteSound(s[1..], final);
    }
  }

  /** Some term of the suite is false. */
  ghost predicate HasFail(s: Suite, final: bool) {
    exists j | 0 <= j < |s| :: TermValue(s[j], final) == FAIL
  }

  /** Term i misses, and all terms before it pass. */
  ghost predicate MissesAt(s: Suite, i: nat, final: bool) {
    i < |s| && TermValue(s[i], final) == MISS && forall k | 0 <= k < i :: TermValue(s[k], final) == PASS
  }

  /** A miss comes first, and a false term after it. */
  ghost predicate GivesUp(s: Suite, final: bool) {
    exists i | 0 <= i < |s| :: MissesAt(s, i, final) && HasFail(s[i..], final)
  }

  lemma {:induction false} SuiteFails(s: Suite, final: bool)
    ensures SuiteValue(s, final) == FAIL <==> HasFail(s, final)
  {
    if s != [] {
      SuiteFails(s[1..], final);
      FailLater(s, final);
    }
  }

  lemma FailLater(s: Suite, final: bool)
    requires s != []
    ensures HasFail(s, final) <==> TermValue(s[0], final) == FAIL || HasFail(s[1..], final)
  {
    if HasFail(s, final) && TermValue(s[0], final) != FAIL {
      var j :| 0 <= j < |s| && TermValue(s[j], final) == FAIL;
      assert s[1..][j - 1] == s[j];
    }
    if HasFail(s[1..], final) {
      var j :| 0 <= j < |s[1..]| && TermValue(s[1..][j], final) == FAIL;
      assert s[1..][j] == s[j + 1];
    }
  }

  /** Giving up is to miss where the formula is false. */
  lemma {:induction false} GivesUpMeans(s: Suite, final: bool)
    ensures GivesUp(s, final) <==> SuiteResult(s, final) == MISS && SuiteValue(s, final) == FAIL
  {
    if s != [] {
      SuiteFails(s, final);
      if TermValue(s[0], final) == PASS {
        GivesUpMeans(s[1..], final);
        GivesUpNext(s, final);
      } else if TermValue(s[0], final) == MISS {
        assert s[0..] == s;
        assert MissesAt(s, 0, final);
        if GivesUp(s, final) {
          var i :| 0 <= i < |s| && MissesAt(s, i, final) && HasFail(s[i..], final);
          assert i == 0;
        }
      }
    }
  }

  lemma GivesUpNext(s: Suite, final: bool)
    requires s != [] && TermValue(s[0], final) == PASS
    ensures GivesUp(s, final) <==> GivesUp(s[1..], final)
  {
    hide TermValue, HasFail;
    var z := s[1..];
    if GivesUp(z, final) {
      var i :| 0 <= i < |z| && MissesAt(z, i, final) && HasFail(z[i..], final);
      assert z[i..] == s[i + 1..];
      assert forall k | 0 < k < i + 1 :: s[k] == z[k - 1];
      assert MissesAt(s, i + 1, final);
    }
    if GivesUp(s, final) {
      var i :| 0 <= i < |s| && MissesAt(s, i, final) && HasFail(s[i..], final);
      assert z[i - 1..] == s[i..];
      assert MissesAt(z, i - 1, final);
    }
  }

  ghost predicate AllHaveFail(c: Cond, final: bool) {
    forall i | 0 <= i < |c| :: HasFail(c[i], final)
  }

  ghost predicate SomeGivesUp(c: Cond, final: bool) {
    exists i | 0 <= i < |c| :: GivesUp(c[i], final)
  }

  lemma Later(c: Cond, final: bool)
    requires c != []
    ensures SomeGivesUp(c, final) <==> GivesUp(c[0], final) || SomeGivesUp(c[1..], final)
    ensures AllHaveFail(c, final) <==> HasFail(c[0], final) && AllHaveFail(c[1..], final)
  {
    if SomeGivesUp(c[1..], final) {
      var i :| 0 <= i < |c[1..]| && GivesUp(c[1..][i], final);
      assert GivesUp(c[i + 1], final);
    }
    if SomeGivesUp(c, final) && !GivesUp(c[0], final) {
      var i :| 0 <= i < |c| && GivesUp(c[i], final);
      assert GivesUp(c[1..][i - 1], final);
    }
    if HasFail(c[0], final) && AllHaveFail(c[1..], final) {
      forall i | 0 <= i < |c|
        ensures HasFail(c[i], final)
      {
        assert i > 0 ==> c[i] == c[1..][i - 1];
      }
    }
  }

  /** The evaluation passes exactly if the formula does, and only fails if the
      formula does. It differs from the formula exactly if every suite has a false
      term, and some suite has a miss before any false term. */
  lemma {:induction false} CondSound(c: Cond, final: bool)
    ensures CondResult(c, final) == PASS <==> CondValue(c, final) == PASS
    ensures CondResult(c, final) == FAIL ==> CondValue(c, final) == FAIL
    ensures CondValue(c, final) == FAIL <==> AllHaveFail(c, final)
    ensures CondResult(c, final) != CondValue(c, final) <==> AllHaveFail(c, final) && SomeGivesUp(c, final)
  {
    hide SuiteValue, SuiteResult, HasFail, GivesUp;
    if c != [] {
      SuiteSound(c[0], final);
      SuiteFails(c[0], final);
      GivesUpMeans(c[0], final);
      CondSound(c[1..], final);
      Later(c, final);
    }
  }

  /** It does happen: one suite with a miss before a false term. */
  lemma MissBeforeFail(x: Expr, y: Expr)
    requires !Matches(x) && x.last.mayChange && !Matches(y) && !y.last.mayChange
    ensures var c := [[Term([x], false), Term([y], false)]];
            CondResult(c, false) == MISS && CondValue(c, false) == FAIL
  {
    var s := [Term([x], false), Term([y], false)];
    assert [x][..0] == [] && [y][..0] == [] && AclValue([], false) == FAIL;
    assert AclValue([x], false) == MISS && AclValue([y], false) == FAIL;
    assert TermValue(s[0], false) == MISS && TermValue(s[1], false) == FAIL && s[1..] == [s[1]] && s[1..][1..] == [];
    assert SuiteValue(s[1..], false) == FAIL;
    var c: Cond := [s];
    assert c[1..] == [] && SuiteResult(c[0], false) == MISS && SuiteValue(c[0], false) == FAIL;
  }

  // ----- resolving what was missed

  /** y is x once its data is complete: whatever matched still does, and what could
      not change any more did not. */
  ghost predicate Resolves(x: Expr, final: bool, y: Expr, final': bool) {
    ExprValue(x, final) != MISS ==> ExprValue(y, final') == ExprValue(x, final)
  }

  ghost predicate AclResolves(xs: seq<Expr>, final: bool, ys: seq<Expr>, final': bool) {
    |xs| == |ys| && forall i | 0 <= i < |xs| :: Resolves(xs[i], final, ys[i], final')
  }

  ghost predicate TermResolves(t: Term, final: bool, u: Term, final': bool) {
    t.neg == u.neg && AclResolves(t.exprs, final, u.exprs, final')
  }

  ghost predicate SuiteResolves(s: Suite, final: bool, s': Suite, final': bool) {
    |s| == |s'| && forall i | 0 <= i < |s| :: TermResolves(s[i], final, s'[i], final')
  }

  ghost predicate CondResolves(c: Cond, final: bool, c': Cond, final': bool) {
    |c| == |c'| && forall i | 0 <= i < |c| :: SuiteResolves(c[i], final, c'[i], final')
  }

  lemma {:induction false} AclStable(xs: seq<Expr>, final: bool, ys: seq<Expr>, final': bool)
    requires AclResolves(xs, final, ys, final') && AclValue(xs, final) != MISS
    ensures AclValue(ys, final') == AclValue(xs, final)
  {
    if xs != [] {
      var n := |xs| - 1;
      assert Resolves(xs[n], final, ys[n], final');
      if AclValue(xs[..n], final) != MISS {
        AclStable(xs[..n], final, ys[..n], final');
      }
    }
  }

  lemma TermStable(t: Term, final: bool, u: Term, final': bool)
    requires TermResolves(t, final, u, final') && TermValue(t, final) != MISS
    ensures TermValue(u, final') == TermValue(t, final)
  {
    AclStable(t.exprs, final, u.exprs, final');
  }

  lemma {:induction false} SuiteStable(s: Suite, final: bool, s': Suite, final': bool)
    requires SuiteResolves(s, final, s', final') && SuiteResult(s, final) != MISS
    ensures SuiteResult(s', final') == SuiteResult(s, final)
  {
    if s != [] {
      assert TermResolves(s[0], final, s'[0], final');
      TermStable(s[0], final, s'[0], final');
      if TermValue(s[0], final) == PASS {
        SuiteStable(s[1..], final, s'[1..], final');
      }
    }
  }

  /** A verdict is not changed by whatever is still to come. */
  lemma {:induction false} CondStable(c: Cond, final: bool, c': Cond, final': bool)
    requires CondResolves(c, final, c', final') && CondResult(c, final) != MISS
    ensures CondResult(c', final') == CondResult(c, final)
  {
    if c != [] {
      assert SuiteResolves(c[0], final, c'[0], final');
      if SuiteResult(c[0], final) != MISS {
        SuiteStable(c[0], final, c'[0], final');
      }
      if CondResult(c[1..], final) != MISS {
        CondStable(c[1..], final, c'[1..], final');
      }
    }
  }

  // ----- exactly when there is a verdict, and which

  ghost predicate Holds(t: Term) {
    (exists i | 0 <= i < |t.exprs| :: Matches(t.exprs[i])) != t.neg
  }

  /** Nothing matches, and something of it may still change. */
  ghost predicate Unsure(t: Term, final: bool) {
    && !final
    && (forall i | 0 <= i < |t.exprs| :: !Matches(t.exprs[i]))
    && exists i | 0 <= i < |t.exprs| :: t.exprs[i].last.mayChange
  }

  ghost predicate Sure(t: Term, final: bool) { Holds(t) && !Unsure(t, final) }

  ghost predicate AllSure(s: Suite, final: bool) { forall i | 0 <= i < |s| :: Sure(s[i], final) }

  /** The first term which is not surely true is unsure. */
  ghost predicate StopsUnsure(s: Suite, final: bool) {
    exists j | 0 <= j < |s| :: Unsure(s[j], final) && AllSure(s[..j], final)
  }

  lemma {:induction false} AclExactly(xs: seq<Expr>, final: bool)
    ensures AclValue(xs, final) ==
            if exists i | 0 <= i < |xs| :: Matches(xs[i]) then PASS
            else if !final && exists i | 0 <= i < |xs| :: xs[i].last.mayChange then MISS
            else FAIL
  {
    if xs != [] {
      var ys := xs[..|xs| - 1];
      AclExactly(ys, final);
      assert forall i | 0 <= i < |ys| :: ys[i] == xs[i];
      if exists i | 0 <= i < |ys| :: Matches(ys[i]) {
        var i :| 0 <= i < |ys| && Matches(ys[i]);
        assert Matches(xs[i]);
      }
      if exists i | 0 <= i < |ys| :: ys[i].last.mayChange {
        var i :| 0 <= i < |ys| && ys[i].last.mayChange;
        assert xs[i].last.mayChange;
      }
    }
  }

  /** A term misses exactly if none of its expressions matches and the data of some
      may still change; otherwise it is boolean. */
  lemma TermExactly(t: Term, final: bool)
    ensures TermValue(t, final) == if Unsure(t, final) then MISS else if Holds(t) then PASS else FAIL
  {
    hide Matches;
    AclExactly(t.exprs, final);
  }

  lemma {:induction false} SuiteExactly(s: Suite, final: bool)
    ensures SuiteResult(s, final) == if AllSure(s, final) then PASS else if StopsUnsure(s, final) then MISS else FAIL
  {
    hide Holds, Unsure;
    if s != [] {
      TermExactly(s[0], final);
      SuiteExactly(s[1..], final);
      SureLater(s, final);
    }
  }

  lemma SureLater(s: Suite, final: bool)
    requires s != []
    ensures AllSure(s, final) <==> Sure(s[0], final) && AllSure(s[1..], final)
    ensures StopsUnsure(s, final) <==> Unsure(s[0], final) || (Sure(s[0], final) && StopsUnsure(s[1..], final))
  {
    hide Holds, Unsure, Sure;
    var z := s[1..];
    assert forall i | 0 < i < |s| :: s[i] == z[i - 1];
    if Unsure(s[0], final) {
      assert s[..0] == [];
    }
    if StopsUnsure(s, final) && !Unsure(s[0], final) {
      var j :| 0 <= j < |s| && Unsure(s[j], final) && AllSure(s[..j], final);
      assert s[..j][0] == s[0] && z[..j - 1] == s[..j][1..] && Unsure(z[j - 1], final);
    }
    if Sure(s[0], final) && StopsUnsure(z, final) {
      var j :| 0 <= j < |z| && Unsure(z[j], final) && AllSure(z[..j], final);
      assert s[..j + 1] == [s[0]] + z[..j] && Unsure(s[j + 1], final);
    }
  }

  /** The result of a condition, in terms of what matches and what may change. */
  lemma {:induction false} CondExactly(c: Cond, final: bool)
    ensures CondResult(c, final) ==
            if exists i | 0 <= i < |c| :: AllSure(c[i], final) then PASS
            else if exists i | 0 <= i < |c| :: StopsUnsure(c[i], final) then MISS
            else FAIL
  {
    hide AllSure, StopsUnsure;
    if c != [] {
      SuiteExactly(c[0], final);
      CondExactly(c[1..], final);
      assert forall i | 0 < i < |c| :: c[i] == c[1..][i - 1];
      assert forall i | 0 <= i < |c[1..]| :: c[1..][i] == c[i + 1];
    }
  }

  // ----- when nothing may change, logic is two-valued

  ghost predicate AllHold(s: Suite) { forall i | 0 <= i < |s| :: Holds(s[i]) }

  ghost predicate AnyHolds(c: Cond) { exists i | 0 <= i < |c| :: AllHold(c[i]) }

  ghost predicate TermSettled(t: Term) { forall i | 0 <= i < |t.exprs| :: !t.exprs[i].last.mayChange }

  ghost predicate SuiteSettled(s: Suite) { forall i | 0 <= i < |s| :: TermSettled(s[i]) }

  /** If no data may change, or with the final flag, there is always a verdict, which
      is the one of plain boolean logic. */
  lemma SettledCond(c: Cond, final: bool)
    requires final || forall i | 0 <= i < |c| :: SuiteSettled(c[i])
    ensures CondResult(c, final) == if AnyHolds(c) then PASS else FAIL
  {
    hide CondResult, Holds;
    CondExactly(c, final);
    forall i | 0 <= i < |c|
      ensures !StopsUnsure(c[i], final) && (AllSure(c[i], final) <==> AllHold(c[i]))
    {
      forall j | 0 <= j < |c[i]|
        ensures !Unsure(c[i][j], final)
      {
        assert final || TermSettled(c[i][j]);
      }
    }
  }

  // ----- the code

  lemma Tables(a: Result, b: Result)
    requires IsResult(a) && IsResult(b)
    ensures a | b == Or(a, b) && a & b == And(a, b)
  {
  }

  /** All samples of an expression, up to the first which matches. */
  method FetchAll(x: Expr, final: bool, acl: Result) returns (r: Result)
    requires IsResult(acl) && acl != PASS
    ensures r == Or(acl, ExprValue(x, final))
  {
    r := acl;
    var i := 0;
    while true
      invariant i <= |x.more| && r == acl && forall j | 0 <= j < i :: !x.more[j].match_
      decreases |x.more| - i
    {
      var last := i == |x.more|;
      if last && !x.fetched {
        if x.last.mayChange && !final {
          r := r | MISS;
        }
        return;
      }
      var smp := if last then x.last else x.more[i];
      r := r | (if smp.match_ then PASS else FAIL);
      if r == PASS {
        return;
      }
      if !last {
        i := i + 1;
        continue;
      }
      if smp.mayChange && !final {
        r := r | MISS;
      }
      return;
    }
  }

  /** acl_exec_cond() */
  method ExecCond(c: Cond, final: bool) returns (r: Result)
    ensures r == CondResult(c, final)
  {
    r := FAIL;
    var i := 0;
    while i < |c|
      invariant i <= |c| && IsResult(r) && r != PASS && CondResult(c, final) == Or(r, CondResult(c[i..], final))
    {
      var suite := ExecSuite(c[i], final);
      Tables(r, suite);
      assert c[i..][1..] == c[i + 1..];
      r := r | suite;
      if r == PASS {
        break;
      }
      i := i + 1;
    }
  }

  method ExecSuite(s: Suite, final: bool) returns (r: Result)
    ensures r == SuiteResult(s, final)
  {
    r := PASS;
    var i := 0;
    while i < |s|
      invariant i <= |s| && r == PASS && SuiteResult(s, final) == SuiteResult(s[i..], final)
    {
      var acl := FAIL;
      var j := 0;
      var exprs := s[i].exprs;
      while j < |exprs|
        invariant j <= |exprs| && acl == AclValue(exprs[..j], final) && acl != PASS
      {
        assert exprs[..j + 1][..j] == exprs[..j];
        acl := FetchAll(exprs[j], final, acl);
        j := j + 1;
        if acl == PASS {
          PassIsEnough(exprs, j, final);
          break;
        }
      }
      assert acl != PASS ==> exprs[..j] == exprs;
      if s[i].neg {
        acl := Neg(acl);
      }
      assert s[i..][1..] == s[i + 1..];
      assert acl == TermValue(s[i], final);
      Tables(r, acl);
      r := r & acl;
      if r != PASS {
        break;
      }
      i := i + 1;
    }
  }

  lemma {:induction false} PassIsEnough(xs: seq<Expr>, j: nat, final: bool)
    requires j <= |xs| && AclValue(xs[..j], final) == PASS
    ensures AclValue(xs, final) == PASS
  {
    if j == |xs| {
      assert xs[..j] == xs;
    } else {
      assert xs[..|xs| - 1][..j] == xs[..j];
      PassIsEnough(xs[..|xs| - 1], j, final);
    }
  }
}
