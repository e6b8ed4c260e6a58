/** The simple thing a tree stands for: a list of entities in stable order. */
module EbLists {
  import opened Options
  import opened Codes
  import opened EbNodes

  /** No entity sorts before an earlier one. */
  ghost predicate Sorted(s: seq<Node>) {
    forall i, j | 0 <= i < j < |s| :: !Before(s[j].code, s[i].code)
  }

  /** The list with n after every entity which does not sort after it. */
  ghost function Ins(s: seq<Node>, n: Node): seq<Node> {
    if s == [] || Before(n.code, s[0].code) then [n] + s else [s[0]] + Ins(s[1..], n)
  }

  ghost function Remove(s: seq<Node>, n: Node): seq<Node> {
    if s == [] then [] else if s[0] == n then s[1..] else [s[0]] + Remove(s[1..], n)
  }

  /** The first entity carrying code c. */
  ghost function FirstWith(s: seq<Node>, c: Code): Option<Node> {
    if s == [] then None else if s[0].code == c then Some(s[0]) else FirstWith(s[1..], c)
  }

  ghost predicate NoneWith(s: seq<Node>, c: Code) {
    forall i | 0 <= i < |s| :: s[i].code != c
  }

  lemma {:induction false} FirstWithConcat(a: seq<Node>, b: seq<Node>, c: Code)
    ensures FirstWith(a + b, c) == if FirstWith(a, c).Some? then FirstWith(a, c) else FirstWith(b, c)
  {
    if a == [] {
      assert a + b == b;
    } else {
      assert (a + b)[1..] == a[1..] + b;
      FirstWithConcat(a[1..], b, c);
    }
  }

  lemma {:induction false} FirstWithNone(s: seq<Node>, c: Code)
    ensures FirstWith(s, c).None? <==> NoneWith(s, c)
  {
    if s != [] {
      FirstWithNone(s[1..], c);
      if NoneWith(s[1..], c) && s[0].code != c {
        forall i | 0 <= i < |s|
          ensures s[i].code != c
        {
          if i > 0 {
            assert s[i] == s[1..][i - 1];
          }
        }
      }
    }
  }

  lemma {:induction false} FirstWithIn(s: seq<Node>, c: Code)
    requires FirstWith(s, c).Some?
    ensures FirstWith(s, c).value in s && FirstWith(s, c).value.code == c
  {
    if s[0].code != c {
      FirstWithIn(s[1..], c);
    }
  }

  lemma RemoveConcat(a: seq<Node>, b: seq<Node>, n: Node)
    ensures n in a ==> Remove(a + b, n) == Remove(a, n) + b
    ensures n !in a ==> Remove(a + b, n) == a + Remove(b, n)
  {
    if n in a {
      RemoveLeft(a, b, n);
    } else {
      RemoveRight(a, b, n);
    }
  }

  lemma {:induction false} RemoveLeft(a: seq<Node>, b: seq<Node>, n: Node)
    requires n in a
    ensures Remove(a + b, n) == Remove(a, n) + b
  {
    assert (a + b)[0] == a[0] && (a + b)[1..] == a[1..] + b;
    if a[0] != n {
      RemoveLeft(a[1..], b, n);
    }
  }

  lemma {:induction false} RemoveRight(a: seq<Node>, b: seq<Node>, n: Node)
    requires n !in a
    ensures Remove(a + b, n) == a + Remove(b, n)
  {
    if a == [] {
      assert a + b == b;
    } else {
      assert (a + b)[0] == a[0] && (a + b)[1..] == a[1..] + b;
      RemoveRight(a[1..], b, n);
    }
  }

  /** Removing another entity than the first one with c keeps that one first. */
  lemma {:induction false} FirstWithRemove(s: seq<Node>, n: Node, c: Code)
    requires FirstWith(s, c) != Some(n)
    ensures FirstWith(Remove(s, n), c) == FirstWith(s, c)
  {
    if s != [] && s[0] != n && s[0].code != c {
      FirstWithRemove(s[1..], n, c);
    }
  }

  lemma {:induction false} InsLeft(a: seq<Node>, b: seq<Node>, n: Node)
    requires b != [] && Before(n.code, b[0].code)
    ensures Ins(a + b, n) == Ins(a, n) + b
  {
    if a == [] {
      assert a + b == b;
    } else {
      assert (a + b)[1..] == a[1..] + b;
      InsLeft(a[1..], b, n);
    }
  }

  lemma {:induction false} InsRight(a: seq<Node>, b: seq<Node>, n: Node)
    requires forall i | 0 <= i < |a| :: !Before(n.code, a[i].code)
    ensures Ins(a + b, n) == a + Ins(b, n)
  {
    if a == [] {
      assert a + b == b;
    } else {
      assert (a + b)[1..] == a[1..] + b;
      InsRight(a[1..], b, n);
    }
  }

  lemma InsLast(a: seq<Node>, n: Node)
    requires forall i | 0 <= i < |a| :: !Before(n.code, a[i].code)
    ensures Ins(a, n) == a + [n]
  {
    InsRight(a, [], n);
    assert a + [] == a;
  }

  lemma {:induction false} InsIs(s: seq<Node>, n: Node) returns (k: nat)
    ensures k <= |s| && Ins(s, n) == s[..k] + [n] + s[k..]
    ensures forall i | 0 <= i < k :: !Before(n.code, s[i].code)
    ensures k < |s| ==> Before(n.code, s[k].code)
  {
    if s == [] || Before(n.code, s[0].code) {
      k := 0;
    } else {
      var j := InsIs(s[1..], n);
      k := j + 1;
      assert s[..k] == [s[0]] + s[1..][..j];
      assert s[k..] == s[1..][j..];
      forall i | 0 <= i < k
        ensures !Before(n.code, s[i].code)
      {
        if i > 0 {
          assert s[i] == s[1..][i - 1];
        }
      }
    }
  }

  lemma NotAhead(s: seq<Node>, c: Code)
    requires Sorted(s) && FirstWith(s, c).Some?
    ensures !Before(c, s[0].code)
  {
    FirstWithIn(s, c);
    var i :| 0 <= i < |s| && s[i] == FirstWith(s, c).value;
    if i == 0 {
      DiffSame(c);
    }
  }

  /** Stable insertion never comes first among the entities of its code. */
  lemma {:induction false} FirstWithIns(s: seq<Node>, n: Node, c: Code)
    requires Sorted(s) && FirstWith(s, c).Some?
    ensures FirstWith(Ins(s, n), c) == FirstWith(s, c)
  {
    NotAhead(s, c);
    if Before(n.code, s[0].code) {
      assert ([n] + s)[1..] == s;
    } else if s[0].code != c {
      FirstWithIns(s[1..], n, c);
      assert Ins(s, n)[1..] == Ins(s[1..], n);
    }
  }
}
