/** The dictionary of interned strings: dict.c. Every call of dict_insert() runs as
    atomic steps, a lookup under the read lock, an allocation, and an insertion
    under the write lock, which interleave with those of other calls in any order. */
module Dict {
  import opened Options
  import opened ByteBits
  import opened EbNodes
  import opened EbTrees
  import opened EbMemory
  import opened EbLists
  import opened EbRadix
  import opened EbInsert
  import opened EbTree
  import opened EbWalk
  import opened Ebis

  /** How far a call for string s got. */
  datatype Call =
    | Begun(s: Bytes)
    | Missed(s: Bytes)
    | Holding(s: Bytes, de: Node)
    | Done(s: Bytes, r: Node?)

  type Calls = map<nat, Call>

  /** What a call knows: the entry it has allocated is not in the dictionary, the one
      it has returned is. */
  ghost predicate CallOk(c: Call, members: set<Node>, root: Node, freed: set<Node>) {
    && IsString(c.s)
    && (c.Holding? ==> IsStr(c.de) && c.de.key == Str(c.s) && c.de != root && c.de !in members && c.de !in freed)
    && (c.Done? && c.r != null ==> c.r in members && c.r.key == Str(c.s))
  }

  /** The entry an unfinished call has allocated is its own. */
  ghost predicate Private(calls: Calls) {
    forall i, j | i in calls && j in calls && i != j && calls[i].Holding? && calls[j].Holding? :: calls[i].de != calls[j].de
  }

  ghost predicate CallsOk(calls: Calls, members: set<Node>, root: Node, freed: set<Node>) {
    && (forall i | i in calls :: CallOk(calls[i], members, root, freed)) && Private(calls)
    && freed !! members && root !in freed
  }

  ghost function Held(calls: Calls): set<Node> {
    set i | i in calls && calls[i].Holding? :: calls[i].de
  }

  /** A call goes on without an entry of its own. */
  lemma CallGoesOn(calls: Calls, i: nat, c: Call, members: set<Node>, root: Node, freed: set<Node>)
    requires CallsOk(calls, members, root, freed) && CallOk(c, members, root, freed) && !c.Holding?
    ensures CallsOk(calls[i := c], members, root, freed) && Held(calls[i := c]) <= Held(calls)
  {
    hide CallOk;
  }

  /** A call allocates an entry. */
  lemma CallAllocates(calls: Calls, i: nat, s: Bytes, de: Node, members: set<Node>, root: Node, freed: set<Node>)
    requires CallsOk(calls, members, root, freed) && CallOk(Holding(s, de), members, root, freed) && de !in Held(calls)
    ensures CallsOk(calls[i := Holding(s, de)], members, root, freed) && Held(calls[i := Holding(s, de)]) <= Held(calls) + {de}
  {
    hide CallOk;
    assert forall j | j in calls && calls[j].Holding? :: calls[j].de in Held(calls);
  }

  /** A call inserts its entry, or releases it. */
  lemma CallInserts(calls: Calls, i: nat, n: Node, members: set<Node>, members': set<Node>, root: Node, freed: set<Node>, freed': set<Node>)
    requires CallsOk(calls, members, root, freed) && i in calls && calls[i].Holding? && n in members' && n.key == Str(calls[i].s)
    requires if n == calls[i].de then members' == members + {n} && freed' == freed
             else members' == members && freed' == freed + {calls[i].de}
    ensures CallsOk(calls[i := Done(calls[i].s, n)], members', root, freed') && Held(calls[i := Done(calls[i].s, n)]) <= Held(calls)
    ensures n !in freed'
  {
    var c, calls' := calls[i], calls[i := Done(calls[i].s, n)];
    assert CallOk(c, members, root, freed);
    forall j | j in calls && j != i
      ensures CallOk(calls[j], members', root, freed')
    {
      assert CallOk(calls[j], members, root, freed);
      assert calls[j].Holding? ==> calls[j].de != c.de;
    }
  }

  class Dictionary {
    const values: EbRoot
    // the calls which were ever made, by whichever thread
    var calls: Calls
    // the entries which were released
    ghost var freed: set<Node>

    ghost predicate Valid()
      reads this, values, values.Repr()
    {
      && values.Valid() && values.Unique() && AllStr(values.T)
      && CallsOk(calls, Members(values.T), values.root, freed)
    }

    /** All entries, whether in the dictionary or not yet. */
    ghost function Nodes(): set<Node>
      reads this, values
    {
      values.Repr() + Held(calls)
    }

    /** new_dict() */
    constructor ()
      ensures Valid() && values.Contents() == [] && calls == map[] && fresh(values) && fresh(values.root)
    {
      values := new EbRoot(true);
      calls := map[];
      freed := {};
    }

    /** The next state of a call, which leaves the tree alone. */
    method Set(i: nat, c: Call)
      requires values.Valid() && values.Unique() && AllStr(values.T)
      requires CallsOk(calls[i := c], Members(values.T), values.root, freed)
      modifies this`calls
      ensures Valid() && calls == old(calls)[i := c]
    {
      hide EbRoot.Valid, AllStr, CallsOk, Members;
      ghost var repr := values.Repr();
      calls := calls[i := c];
      assert values.Repr() == repr && values.Valid();
    }

    /** A thread calls dict_insert(). */
    method Begin(i: nat, s: Bytes)
      requires Valid() && i !in calls && IsString(s)
      modifies this`calls
      ensures Valid() && calls == old(calls)[i := Begun(s)]
    {
      hide EbRoot.Valid, IsString, AllStr;
      CallGoesOn(calls, i, Begun(s), Members(values.T), values.root, freed);
      Set(i, Begun(s));
    }

    /** The lookup, under the read lock. */
    method LookupStep(i: nat)
      requires Valid() && i in calls && calls[i].Begun?
      modifies this`calls
      ensures Valid() && Nodes() <= old(Nodes()) && i in calls && calls == old(calls)[i := calls[i]] && calls[i].s == old(calls[i]).s
      ensures match FirstWith(values.Contents(), BlockCode(calls[i].s))
              case Some(e) => calls[i] == Done(calls[i].s, e)
              case None => calls[i] == Missed(calls[i].s)
    {
      hide BlockCode, FirstWith, AllStr, IsString, EbRoot.Valid, Members, Held, Private;
      var s := calls[i].s;
      assert CallOk(calls[i], Members(values.T), values.root, freed);
      ghost var repr := values.Repr();
      var r := LookupStr(values, s);
      assert values.Repr() == repr && values.Unique();
      if r != null {
        FoundIsMember(values, s, r);
      }
      var c := if r != null then Done(s, r) else Missed(s);
      CallGoesOn(calls, i, c, Members(values.T), values.root, freed);
      Set(i, c);
    }

    /** The allocation of an entry, which may fail. */
    method AllocateStep(i: nat, success: bool)
      requires Valid() && i in calls && calls[i].Missed?
      modifies this`calls
      ensures Valid() && fresh(Nodes() - old(Nodes())) && i in calls && calls == old(calls)[i := calls[i]] && calls[i].s == old(calls[i]).s
      ensures if success then calls[i].Holding? && fresh(calls[i].de) else calls[i] == Done(calls[i].s, null)
    {
      hide BlockCode, AllStr, EbRoot.Valid, Held, Private;
      var s := calls[i].s;
      assert CallOk(calls[i], Members(values.T), values.root, freed);
      if success {
        ghost var repr, held := values.Repr(), Held(calls);
        assert allocated(values.T) && allocated(repr) && allocated(held) && allocated(freed);
        var de := new Node(Str(s), BlockCode(s));
        assert values.Repr() == repr && de !in repr && de !in freed && de !in held && values.Valid();
        CallAllocates(calls, i, s, de, Members(values.T), values.root, freed);
        Set(i, Holding(s, de));
      } else {
        CallGoesOn(calls, i, Done(s, null), Members(values.T), values.root, freed);
        Set(i, Done(s, null));
      }
    }

    /** The insertion, under the write lock, and the release of the entry if another
        call came first. */
    method InsertStep(i: nat)
      requires Valid() && i in calls && calls[i].Holding?
      modifies this, values`T, values.Repr()`b, values.Repr()`nodeP, values.Repr()`leafP
      modifies calls[i].de`b, calls[i].de`nodeP, calls[i].de`leafP, calls[i].de`bit
      ensures Valid() && Nodes() <= old(Nodes()) && i in calls && calls == old(calls)[i := calls[i]]
      ensures calls[i].Done? && calls[i].s == old(calls[i]).s && calls[i].r != null && calls[i].r !in freed
      ensures Members(values.T) == old(Members(values.T)) + {calls[i].r}
      ensures match old(FirstWith(values.Contents(), calls[i].de.code))
              case Some(e) =>
                calls[i].r == e && values.T == old(values.T) && freed == old(freed) + {old(calls[i].de)}
              case None =>
                && calls[i].r == old(calls[i].de) && freed == old(freed)
                && values.Contents() == Ins(old(values.Contents()), old(calls[i].de))
    {
      hide BlockCode, IsString, Leaves, LeafSet, Ins, FirstWith, NoDups, WF, Insert, EbRoot.Valid, AllStr, Held, Private;
      var s, de := calls[i].s, calls[i].de;
      assert CallOk(calls[i], Members(values.T), values.root, freed);
      ghost var tt, calls0, freed0 := values.T, calls, freed;
      assert de in Held(calls) by { HeldIs(calls, i); }
      var n := InsertStr(values, de);
      InsertedOrFound(values, tt, s, de, n);
      ghost var repr := values.Repr();
      if n != de {
        freed := freed + {de};
      }
      assert values.Repr() == repr && values.Valid();
      CallInserts(calls0, i, n, Members(tt), Members(values.T), values.root, freed0, freed);
      Set(i, Done(s, n));
    }
  }

  lemma HeldIs(calls: Calls, i: nat)
    requires i in calls && calls[i].Holding?
    ensures calls[i].de in Held(calls)
  {
  }

  /** How many steps a call may still need. */
  function StepsLeft(c: Call): nat {
    match c
    case Begun(_) => 3
    case Missed(_) => 2
    case Holding(_, _) => 1
    case Done(_, _) => 0
  }

  /** How often a call has its turn. */
  function Turns(schedule: seq<Turn>, i: nat): nat {
    if schedule == [] then 0
    else Turns(schedule[..|schedule| - 1], i) + if schedule[|schedule| - 1].call == i then 1 else 0
  }

  /** A turn of a call, and whether an allocation succeeds in it. */
  datatype Turn = Turn(call: nat, memory: bool)

  /** All allocations in the turns of a call succeed. */
  ghost predicate HadMemory(schedule: seq<Turn>, i: nat) {
    forall k | 0 <= k < |schedule| && schedule[k].call == i :: schedule[k].memory
  }

  /** One turn of a call: its next step, if it has not returned. */
  method TakeTurn(d: Dictionary, turn: Turn)
    requires d.Valid()
    modifies d, d.values, d.Nodes()
    ensures d.Valid() && d.calls.Keys == old(d.calls.Keys) && fresh(d.Nodes() - old(d.Nodes()))
    ensures forall i | i in d.calls && (i != turn.call || old(d.calls[i]).Done?) :: d.calls[i] == old(d.calls[i])
    ensures turn.call in d.calls ==>
              var c, c' := old(d.calls[turn.call]), d.calls[turn.call];
              && c'.s == c.s && (c'.Done? || StepsLeft(c') < StepsLeft(c))
              && (turn.memory && c'.Done? && !c.Done? ==> c'.r != null)
    ensures old(Members(d.values.T)) <= Members(d.values.T)
  {
    hide IsString, FirstWith, BlockCode, Ins, Rep, Radix, Shape, Links, Leaves, LeafSet, RepTop, WF, NoDups, AllStr, Members, WFTop, Dictionary.Valid;
    var i := turn.call;
    if i in d.calls {
      match d.calls[i]
      case Begun(_) => d.LookupStep(i);
      case Missed(_) => d.AllocateStep(i, turn.memory);
      case Holding(_, _) => d.InsertStep(i);
      case Done(_, _) =>
    }
  }

  /** Any interleaving of any number of calls. The results of the calls which have
      returned stay what they are, and every call returns within three turns. */
  method Run(d: Dictionary, schedule: seq<Turn>)
    requires d.Valid()
    modifies d, d.values, d.Nodes()
    ensures d.Valid() && d.calls.Keys == old(d.calls.Keys)
    ensures forall i | i in d.calls :: d.calls[i].s == old(d.calls[i]).s
    ensures forall i | i in d.calls && old(d.calls[i]).Done? :: d.calls[i] == old(d.calls[i])
    ensures forall i | i in d.calls && Turns(schedule, i) >= 3 :: d.calls[i].Done?
    ensures forall i | i in d.calls && d.calls[i].Done? && !old(d.calls[i]).Done? && HadMemory(schedule, i) ::
              d.calls[i].r != null && d.calls[i].r in Members(d.values.T) && d.calls[i].r.key == Str(d.calls[i].s)
    ensures old(Members(d.values.T)) <= Members(d.values.T)
  {
    hide IsString, Members, Dictionary.Valid, Dictionary.Nodes;
    for k := 0 to |schedule|
      invariant d.Valid() && d.calls.Keys == old(d.calls.Keys) && fresh(d.Nodes() - old(d.Nodes()))
      invariant forall i | i in d.calls :: d.calls[i].s == old(d.calls[i]).s
      invariant forall i | i in d.calls && old(d.calls[i]).Done? :: d.calls[i] == old(d.calls[i])
      invariant forall i | i in d.calls :: d.calls[i].Done? || Turns(schedule[..k], i) + StepsLeft(d.calls[i]) <= 3
      invariant forall i | i in d.calls && d.calls[i].Done? && !old(d.calls[i]).Done? && HadMemory(schedule[..k], i) :: d.calls[i].r != null
      invariant old(Members(d.values.T)) <= Members(d.values.T)
    {
      assert forall i | HadMemory(schedule[..k + 1], i) ::
          HadMemory(schedule[..k], i) && (schedule[k].call == i ==> schedule[k].memory) by { MemoryBefore(schedule, k); }
      ghost var mid, start := d.Nodes(), old(d.Nodes());
      assert schedule[..k + 1][..k] == schedule[..k];
      label L: TakeTurn(d, schedule[k]);
      assert fresh@L(d.Nodes() - mid);
      assert forall x | x in d.Nodes() && x !in mid :: !old(allocated(x));
      assert d.Nodes() - start <= (d.Nodes() - mid) + (mid - start);
    }
    assert schedule[..|schedule|] == schedule;
    EntriesHold(d);
  }

  lemma MemoryBefore(schedule: seq<Turn>, k: nat)
    requires k < |schedule|
    ensures forall i | HadMemory(schedule[..k + 1], i) ::
              HadMemory(schedule[..k], i) && (schedule[k].call == i ==> schedule[k].memory)
  {
    var s, s' := schedule[..k], schedule[..k + 1];
    forall i | HadMemory(s', i)
      ensures HadMemory(s, i) && (schedule[k].call == i ==> schedule[k].memory)
    {
      assert s'[k] == schedule[k];
      assert forall j | 0 <= j < k :: s[j] == s'[j];
    }
  }

  /** What a call has returned is in the dictionary and holds its string. */
  lemma EntriesHold(d: Dictionary)
    requires d.Valid()
    ensures forall i | i in d.calls && d.calls[i].Done? && d.calls[i].r != null ::
              d.calls[i].r in Members(d.values.T) && d.calls[i].r.key == Str(d.calls[i].s)
  {
    hide EbRoot.Valid, IsString, AllStr;
    forall i | i in d.calls && d.calls[i].Done? && d.calls[i].r != null
      ensures d.calls[i].r in Members(d.values.T) && d.calls[i].r.key == Str(d.calls[i].s)
    {
      assert CallOk(d.calls[i], Members(d.values.T), d.values.root, d.freed);
    }
  }

  /** What an insertion does to the members of a tree of strings. */
  lemma InsertedOrFound(tree: EbRoot, tt: Top, s: Bytes, de: Node, n: Node)
    requires tree.Valid() && AllStr(tree.T) && IsStr(de) && de.key == Str(s) && de !in Members(tt) && tree.Unique()
    requires if Refused(true, tt, de) then FirstWith(tree.Contents(), de.code) == Some(n) && tree.T == tt
             else n == de && WFInsert(tt, tree.T, de)
    ensures n in Members(tree.T) && n.key == Str(s)
    ensures FirstWith(Entities(tt), de.code).Some? ==> FirstWith(Entities(tt), de.code) == Some(n) && n != de && tree.T == tt
    ensures FirstWith(Entities(tt), de.code).None? ==>
              n == de && Members(tree.T) == Members(tt) + {de} && tree.Contents() == Ins(Entities(tt), de)
  {
    hide BlockCode, Rep, Radix, Shape, Links, Leaves, Ins, FirstWith, NoDups, RepTop, Insert;
    if Refused(true, tt, de) {
      FoundIsMember(tree, s, n);
    } else {
      InsertCorrect(tt, de);
    }
  }

  /** The dictionary holds one entry for each string. */
  lemma OneEntryPerString(d: Dictionary, a: Node, b: Node)
    requires d.Valid() && a in Members(d.values.T) && b in Members(d.values.T) && a.key == b.key
    ensures a == b
  {
    hide BlockCode, Rep, Radix, Shape, RepTop;
    var t := d.values.T.t;
    UniqueIsFirst(t, a);
    UniqueIsFirst(t, b);
  }

  /** All completed calls for a string return the same entry, which is in the
      dictionary and was not released. */
  lemma SameString(d: Dictionary, i: nat, j: nat)
    requires d.Valid() && i in d.calls && j in d.calls
    requires d.calls[i].Done? && d.calls[j].Done? && d.calls[i].r != null && d.calls[j].r != null
    ensures d.calls[i].r == d.calls[j].r <==> d.calls[i].s == d.calls[j].s
    ensures d.calls[i].r in Members(d.values.T) && d.calls[i].r !in d.freed
  {
    var c, c' := d.calls[i], d.calls[j];
    assert CallOk(c, Members(d.values.T), d.values.root, d.freed) && CallOk(c', Members(d.values.T), d.values.root, d.freed);
    if c.s == c'.s {
      OneEntryPerString(d, c.r, c'.r);
    }
  }

  /** What the lookup found is in the dictionary and holds that string. */
  lemma FoundIsMember(tree: EbRoot, s: Bytes, r: Node)
    requires tree.Valid() && AllStr(tree.T) && IsString(s) && FirstWith(tree.Contents(), BlockCode(s)) == Some(r)
    ensures r in Members(tree.T) && r.key == Str(s)
  {
    hide BlockCode;
    FirstWithIn(tree.Contents(), BlockCode(s));
    InMembers(tree, r);
    StrComparable(r.key.z, s);
  }
}
