/** The index of the cache: the life of its entries in cache.c, on a unique tree of
    32-bit keys. */
module CacheIndex {
  import opened Options
  import opened Bits
  import opened EbNodes
  import opened EbTrees
  import opened EbLists
  import opened EbRadix
  import opened EbInsert
  import opened EbDelete
  import opened EbTree
  import opened EbWalk
  import opened Eb32

  /** What a row of blocks starts with: the node, and its key as the row holds it.
      A row which gets another key gets a node of that key. */
  datatype Entry = Entry(eb: Node, key: nat, hash: seq<int>, expire: int)

  type Entries = map<nat, Entry>

  predicate IsHash(hash: seq<int>) {
    |hash| == 20 && forall i | 0 <= i < 20 :: 0 <= hash[i] < 256
  }

  /** The first four bytes of a hash, low byte first. */
  function ReadU32(hash: seq<int>): (k: nat)
    requires IsHash(hash)
    ensures k < TWO32
  {
    hash[0] + 0x100 * hash[1] + 0x1_0000 * hash[2] + 0x100_0000 * hash[3]
  }

  /** The first four bytes of a hash are all zero. */
  predicate Keyless(hash: seq<int>)
    requires IsHash(hash)
  {
    hash[0] == hash[1] == hash[2] == hash[3] == 0
  }

  lemma Digits(a: int, x: int, b: int, y: int)
    requires 0 <= a < 0x100 && 0 <= b < 0x100
    ensures a + 0x100 * x == b + 0x100 * y <==> a == b && x == y
  {
  }

  /** A key stands for exactly the first four bytes of a hash. */
  lemma KeyIsPrefix(a: seq<int>, b: seq<int>)
    requires IsHash(a) && IsHash(b)
    ensures ReadU32(a) == ReadU32(b) <==> a[..4] == b[..4]
  {
    var x, y := a[2] + 0x100 * a[3], b[2] + 0x100 * b[3];
    assert ReadU32(a) == a[0] + 0x100 * (a[1] + 0x100 * x) && ReadU32(b) == b[0] + 0x100 * (b[1] + 0x100 * y);
    Digits(a[0], a[1] + 0x100 * x, b[0], b[1] + 0x100 * y);
    Digits(a[1], x, b[1], y);
    Digits(a[2], a[3], b[2], b[3]);
    assert a[..4] == [a[0], a[1], a[2], a[3]] && b[..4] == [b[0], b[1], b[2], b[3]];
  }

  /** A hash has no key exactly if its first four bytes are zero. */
  lemma NoKeyIff(hash: seq<int>)
    requires IsHash(hash)
    ensures ReadU32(hash) == 0 <==> Keyless(hash)
  {
  }

  ghost function NodesOf(es: Entries): set<Node> {
    set r | r in es :: es[r].eb
  }

  ghost function Ups(s: set<Node>): map<Node, Parent>
    reads s
  {
    map n | n in s :: n.leafP
  }

  /** A key is that of the hash and that of the node. */
  ghost predicate KeyOk(e: Entry) {
    e.key != 0 ==> IsHash(e.hash) && e.key == ReadU32(e.hash) && IsU32(e.eb) && e.eb.key.k == e.key
  }

  /** The node of an entry is only in the tree if the entry has a key and is not being
      stored, and says so when it is not. An entry which is being stored has a key. An entry whose store was aborted has a key
      and is not in the tree. */
  ghost predicate EntryOk(e: Entry, storing: bool, members: set<Node>, ups: map<Node, Parent>) {
    && KeyOk(e)
    && (e.eb in members ==> e.key != 0 && !storing)
    && (storing ==> e.key != 0)
    && (e.eb !in members ==> e.eb in ups && ups[e.eb] == NoParent)
  }

  ghost predicate IndexOk(es: Entries, rowOf: map<Node, nat>, storing: set<nat>, members: set<Node>, ups: map<Node, Parent>) {
    && storing <= es.Keys && members <= NodesOf(es)
    && forall r | r in es :: es[r].eb in rowOf && rowOf[es[r].eb] == r && EntryOk(es[r], r in storing, members, ups)
  }

  /** ups' is ups, except for members. */
  ghost predicate UpsKept(ups: map<Node, Parent>, ups': map<Node, Parent>, members: set<Node>) {
    forall n | n in ups && n !in members :: n in ups' && ups'[n] == ups[n]
  }

  ghost predicate LinkedIn(es: Entries, members: set<Node>, row: nat) {
    row in es && es[row].eb in members
  }

  /** An entry keeps its node, its key and its hash for as long as it is linked. */
  ghost predicate KeysKept(es: Entries, members: set<Node>, es': Entries, members': set<Node>) {
    forall r | LinkedIn(es, members, r) && LinkedIn(es', members', r) ::
      es'[r].eb == es[r].eb && es'[r].key == es[r].key && es'[r].hash == es[r].hash
  }

  /** The rows, other than row and the linked one of this hash, are left alone. */
  ghost predicate OthersKept(es: Entries, members: set<Node>, es': Entries, members': set<Node>, row: Option<nat>, hash: seq<int>) {
    && es'.Keys == es.Keys
    && forall x | x in es && row != Some(x) && (es[x].hash != hash || !LinkedIn(es, members, x)) ::
         es'[x] == es[x] && (LinkedIn(es', members', x) <==> LinkedIn(es, members, x))
  }

  /** Only this row is concerned. */
  ghost predicate OnlyRow(es: Entries, members: set<Node>, es': Entries, members': set<Node>, row: nat) {
    && es'.Keys == es.Keys && row in es
    && forall x | x in es && x != row :: es'[x] == es[x] && (LinkedIn(es', members', x) <==> LinkedIn(es, members, x))
  }

  /** Some linked entry has this key. */
  ghost predicate Taken(es: Entries, members: set<Node>, key: nat) {
    exists x | x in es :: LinkedIn(es, members, x) && es[x].key == key
  }

  /** Some linked entry has a hash with the same first four bytes. */
  ghost predicate PrefixTaken(es: Entries, members: set<Node>, hash: seq<int>)
    requires IsHash(hash)
  {
    exists x | x in es :: LinkedIn(es, members, x) && IsHash(es[x].hash) && es[x].hash[..4] == hash[..4]
  }

  /** No entry of this hash is linked. */
  ghost predicate NoneOf(es: Entries, members: set<Node>, hash: seq<int>) {
    forall x | LinkedIn(es, members, x) :: es[x].hash != hash
  }

  /** The result of entry_exist(): the linked entry of the hash which has not expired.
      Without one, none of that hash is linked any more. */
  ghost predicate Looked(es: Entries, members: set<Node>, es': Entries, members': set<Node>, hash: seq<int>, now: int, r: Option<nat>) {
    && (forall x | LinkedIn(es, members, x) && es[x].hash == hash && es[x].expire > now :: r == Some(x))
    && (match r
        case Some(x) => LinkedIn(es, members, x) && es[x].hash == hash && es[x].expire > now && es' == es && members' == members
        case None => NoneOf(es', members', hash))
    && OthersKept(es, members, es', members', None, hash) && KeysKept(es, members, es', members')
  }

  // ----- what the operations do to the index

  lemma EntryDropped(es: Entries, rowOf: map<Node, nat>, storing: set<nat>, members: set<Node>, ups: map<Node, Parent>, ups': map<Node, Parent>, row: nat)
    requires IndexOk(es, rowOf, storing, members, ups) && row in es && row !in storing
    requires UpsKept(ups, ups', members) && es[row].eb in ups' && ups'[es[row].eb] == NoParent
    ensures IndexOk(es[row := es[row].(key := 0)], rowOf, storing, members - {es[row].eb}, ups')
  {
    hide KeyOk;
    var es' := es[row := es[row].(key := 0)];
    assert KeyOk(es'[row]) by { NoKey(es'[row]); }
    SameNodes(es, es');
    assert forall r | r in es && r != row :: es[r].eb != es[row].eb;
  }

  lemma NoKey(e: Entry)
    requires e.key == 0
    ensures KeyOk(e)
  {
  }

  lemma SameNodes(es: Entries, es': Entries)
    requires es'.Keys == es.Keys && forall r | r in es :: es'[r].eb == es[r].eb
    ensures NodesOf(es') == NodesOf(es)
  {
    assert forall n | n in NodesOf(es) :: n in NodesOf(es') by {
      forall n | n in NodesOf(es)
        ensures n in NodesOf(es')
      {
        var r :| r in es && es[r].eb == n;
        assert es'[r].eb == n;
      }
    }
  }

  /** A row which is not linked is filled again. */
  lemma EntryClaimed(es: Entries, rowOf: map<Node, nat>, storing: set<nat>, members: set<Node>, ups: map<Node, Parent>, ups': map<Node, Parent>,
                row: nat, e: Entry)
    requires IndexOk(es, rowOf, storing, members, ups) && row in es && es[row].eb !in members && row !in storing
    requires e.eb !in NodesOf(es) && KeyOk(e) && e.key != 0
    requires UpsKept(ups, ups', {}) && e.eb in ups' && ups'[e.eb] == NoParent
    ensures IndexOk(es[row := e], rowOf[e.eb := row], storing + {row}, members, ups')
  {
    hide KeyOk;
    var es' := es[row := e];
    forall n | n in members
      ensures n in NodesOf(es')
    {
      var r :| r in es && es[r].eb == n;
      assert es'[r].eb == n;
    }
    assert forall r | r in es :: es[r].eb in NodesOf(es);
  }

  /** A row which was filled is linked. */
  lemma EntryInserted(es: Entries, rowOf: map<Node, nat>, storing: set<nat>, members: set<Node>, ups: map<Node, Parent>, ups': map<Node, Parent>, row: nat)
    requires IndexOk(es, rowOf, storing, members, ups) && row in storing && es[row].key != 0
    requires UpsKept(ups, ups', members + {es[row].eb})
    ensures IndexOk(es, rowOf, storing - {row}, members + {es[row].eb}, ups')
  {
    hide KeyOk;
    assert forall r | r in es && r != row :: es[r].eb != es[row].eb;
    assert es[row].eb in NodesOf(es);
  }

  /** A row which was being filled is given up. */
  lemma EntryGivenUp(es: Entries, rowOf: map<Node, nat>, storing: set<nat>, members: set<Node>, ups: map<Node, Parent>, row: nat)
    requires IndexOk(es, rowOf, storing, members, ups) && row in es && es[row].eb !in members
    ensures IndexOk(es[row := es[row].(key := 0)], rowOf, storing - {row}, members, ups)
  {
    hide KeyOk;
    var es' := es[row := es[row].(key := 0)];
    assert KeyOk(es'[row]) by { NoKey(es'[row]); }
    SameNodes(es, es');
  }

  /** A row which was filled is refused by the tree. */
  lemma EntryRefused(es: Entries, rowOf: map<Node, nat>, storing: set<nat>, members: set<Node>, ups: map<Node, Parent>, ups': map<Node, Parent>, row: nat)
    requires IndexOk(es, rowOf, storing, members, ups) && row in es && es[row].eb !in members && UpsKept(ups, ups', {})
    ensures IndexOk(es[row := es[row].(key := 0)], rowOf, storing - {row}, members, ups')
  {
    hide KeyOk;
    forall r | r in es
      ensures EntryOk(es[r], r in storing, members, ups')
    {
      assert EntryOk(es[r], r in storing, members, ups);
    }
    EntryGivenUp(es, rowOf, storing, members, ups', row);
  }

  /** A row is no longer being filled, and stays as it is. */
  lemma EntryAborted(es: Entries, rowOf: map<Node, nat>, storing: set<nat>, members: set<Node>, ups: map<Node, Parent>, row: nat)
    requires IndexOk(es, rowOf, storing, members, ups)
    ensures IndexOk(es, rowOf, storing - {row}, members, ups)
  {
  }

  lemma Expires(es: Entries, rowOf: map<Node, nat>, storing: set<nat>, members: set<Node>, ups: map<Node, Parent>, row: nat, expire: int)
    requires IndexOk(es, rowOf, storing, members, ups) && row in es
    ensures IndexOk(es[row := es[row].(expire := expire)], rowOf, storing, members, ups)
  {
    var es' := es[row := es[row].(expire := expire)];
    SameNodes(es, es');
  }

  /** Rows without key, each with a node of its own. */
  method NewRows(rows: nat) returns (es: Entries, of: map<Node, nat>)
    ensures forall r: nat :: r in es <==> r < rows
    ensures forall r | r in es ::
              es[r].eb in of && of[es[r].eb] == r && es[r].key == 0 && es[r].eb.leafP == NoParent && fresh(es[r].eb)
  {
    hide Code32;
    es, of := map[], map[];
    for r := 0 to rows
      invariant forall i: nat :: i in es <==> i < r
      invariant forall i | i in es ::
                  es[i].eb in of && of[es[i].eb] == i && es[i].key == 0 && es[i].eb.leafP == NoParent && fresh(es[i].eb)
    {
      var eb := new Node(U32(0), Code32(0));
      es, of := es[r := Entry(eb, 0, [], 0)], of[eb := r];
    }
  }

  lemma NewIndex(es: Entries, rowOf: map<Node, nat>)
    requires forall r | r in es :: es[r].eb in rowOf && rowOf[es[r].eb] == r && es[r].key == 0 && es[r].eb.leafP == NoParent
    ensures IndexOk(es, rowOf, {}, {}, Ups(NodesOf(es)))
  {
    forall r | r in es
      ensures EntryOk(es[r], false, {}, Ups(NodesOf(es)))
    {
      assert es[r].eb in NodesOf(es);
    }
  }

  // ----- the code

  /** What the lookup of a key finds: the entry which has it, if any. */
  lemma LookupMeans(tree: EbRoot, es: Entries, rowOf: map<Node, nat>, storing: set<nat>, ups: map<Node, Parent>, k: nat, r: Option<Node>)
    requires tree.Valid() && tree.Unique() && AllU32(tree.T) && k < TWO32
    requires IndexOk(es, rowOf, storing, Members(tree.T), ups) && r == FirstWith(tree.Contents(), Code32(k))
    ensures r.Some? ==>
              && r.value in Members(tree.T) && r.value in rowOf && rowOf[r.value] in es
              && es[rowOf[r.value]].eb == r.value && es[rowOf[r.value]].key == k && rowOf[r.value] !in storing
    ensures forall x | x in es && es[x].eb in Members(tree.T) && es[x].key == k :: r == Some(es[x].eb)
  {
    hide Radix, Shape, Code32, LeafSet, ReadU32;
    if r.Some? {
      FirstWithIn(tree.Contents(), Code32(k));
      InMembers(tree, r.value);
      assert r.value in NodesOf(es);
      var x :| x in es && es[x].eb == r.value;
      assert EntryOk(es[x], x in storing, Members(tree.T), ups);
      SameCode32(es[x].key, k);
    }
    forall x | x in es && es[x].eb in Members(tree.T) && es[x].key == k
      ensures r == Some(es[x].eb)
    {
      assert EntryOk(es[x], x in storing, Members(tree.T), ups);
      IsFirst(tree, es[x].eb);
    }
  }

  lemma IsFirst(tree: EbRoot, n: Node)
    requires tree.Valid() && tree.Unique() && n in Members(tree.T)
    ensures FirstWith(tree.Contents(), n.code) == Some(n)
  {
    UniqueIsFirst(tree.T.t, n);
  }

  lemma WellFormed(tree: EbRoot)
    requires tree.Valid()
    ensures WFTop(tree.T)
  {
  }

  class Cache {
    const tree: EbRoot
    // the entries, by row
    var entries: Entries
    // the row a node lies in, as container_of() computes it
    var rowOf: map<Node, nat>
    // the rows which a filter is filling
    var storing: set<nat>

    ghost function Linked(): set<Node>
      reads tree
    {
      Members(tree.T)
    }

    /** The tree is fine, whatever the rows hold. */
    ghost predicate TreeOk()
      reads this, tree, tree.Repr()
    {
      tree.Valid() && tree.Unique() && AllU32(tree.T)
    }

    ghost predicate Valid()
      reads this, tree, tree.Repr(), NodesOf(entries)
    {
      && TreeOk() && tree.root !in NodesOf(entries)
      && IndexOk(entries, rowOf, storing, Linked(), Ups(NodesOf(entries)))
    }

    constructor (rows: nat)
      ensures Valid() && tree.Contents() == [] && storing == {} && forall r: nat :: r in entries <==> r < rows
    {
      var es, of := NewRows(rows);
      tree := new EbRoot(true);
      entries, rowOf, storing := es, of, {};
      new;
      hide EbRoot.Valid, IndexOk, EntryOk, Ups;
      NewIndex(es, of);
    }

    /** eb32_delete(), which leaves alone a node which is not linked. */
    method DeleteNode(eb: Node)
      requires TreeOk() && (eb.leafP != NoParent ==> eb in Linked()) && tree.root !in NodesOf(entries) && eb in NodesOf(entries)
      modifies tree`T, tree.Repr()`b, tree.Repr()`nodeP, tree.Repr()`leafP, tree.Repr()`bit
      ensures TreeOk() && Linked() == old(Linked()) - {eb} && eb.leafP == NoParent
      ensures UpsKept(old(Ups(NodesOf(entries))), Ups(NodesOf(entries)), old(Linked()))
    {
      hide Radix, Shape, Links, Leaves, LeafSet, WF, NoDups, EbRoot.Valid, IsU32, Del;
      ghost var members := Linked();
      assert WFTop(tree.T) by { WellFormed(tree); }
      if eb in members {
        MembersDeleted(tree.T, eb);
        MemberIsLinked(tree, eb);
      }
      Delete(tree, eb);
    }

    /** eb32_delete() of an entry, and what always follows it. */
    method Unlink(row: nat)
      requires Valid() && row in entries && row !in storing
      modifies this`entries, this`storing, tree`T, tree.Repr()`b, tree.Repr()`nodeP, tree.Repr()`leafP, tree.Repr()`bit
      ensures Valid() && Linked() == old(Linked()) - {old(entries[row]).eb}
      ensures entries == old(entries)[row := old(entries[row]).(key := 0)] && storing == old(storing)
    {
      hide EbRoot.Valid, IsU32, IndexOk, AllU32;
      var eb := entries[row].eb;
      ghost var es, members, nodes := entries, Linked(), NodesOf(entries);
      ghost var ups := Ups(nodes);
      assert eb in nodes;
      OtherNodes(es, rowOf, storing, members, ups, row);
      DeleteNode(eb);
      EntryDropped(es, rowOf, storing, members, ups, Ups(nodes), row);
      SetEntry(row, entries[row].(key := 0), storing);
    }

    /** Writes to a row which keep its node do not concern the tree. */
    method SetEntry(row: nat, e: Entry, storing': set<nat>)
      requires TreeOk() && row in entries && e.eb == entries[row].eb && tree.root !in NodesOf(entries)
      requires IndexOk(entries[row := e], rowOf, storing', Linked(), Ups(NodesOf(entries)))
      modifies this`entries, this`storing
      ensures Valid() && entries == old(entries)[row := e] && storing == storing'
    {
      hide EbRoot.Valid, AllU32, IndexOk;
      ghost var es, repr := entries, tree.Repr();
      entries, storing := entries[row := e], storing';
      SameNodes(es, entries);
      assert tree.Repr() == repr && tree.Valid();
    }

    /** entry_exist(): the linked entry of this hash, if it has not expired. */
    method EntryExist(hash: seq<int>, now: int) returns (r: Option<nat>)
      requires Valid() && IsHash(hash)
      modifies this`entries, this`storing, tree`T, tree.Repr()`b, tree.Repr()`nodeP, tree.Repr()`leafP, tree.Repr()`bit
      ensures Valid() && Looked(old(entries), old(Linked()), entries, Linked(), hash, now, r)
      ensures storing == old(storing) && Linked() <= old(Linked())
    {
      hide Radix, Shape, Links, Leaves, LeafSet, WF, NoDups, EbRoot.Valid, IsU32, Code32, ReadU32, FirstWith, IndexOk, Looked;
      var k := ReadU32(hash);
      ghost var es, members, ups := entries, Linked(), Ups(NodesOf(entries));
      var node := Lookup32(tree, k);
      assert Ups(NodesOf(entries)) == ups && Linked() == members;
      LookupMeans(tree, entries, rowOf, storing, ups, k, Opt(node));
      LookedMeans(es, rowOf, storing, members, ups, hash, now, node);
      if node == null {
        return None;
      }
      var row := rowOf[node];
      if entries[row].hash != hash {
        return None;
      }
      if entries[row].expire > now {
        return Some(row);
      }
      Unlink(row);
      return None;
    }

    /** cache_free_blocks(), when the first block of a row is recycled. */
    method FreeBlocks(row: nat)
      requires Valid() && row in entries && row !in storing
      modifies this`entries, this`storing, tree`T, tree.Repr()`b, tree.Repr()`nodeP, tree.Repr()`leafP, tree.Repr()`bit
      ensures Valid() && OnlyRow(old(entries), old(Linked()), entries, Linked(), row)
      ensures row in entries && !LinkedIn(entries, Linked(), row) && entries[row] == old(entries[row]).(key := 0)
      ensures storing == old(storing) && Linked() <= old(Linked())
    {
      hide EbRoot.Valid, AllU32, IndexOk, TreeOk;
      OtherNodes(entries, rowOf, storing, Linked(), Ups(NodesOf(entries)), row);
      if entries[row].key != 0 {
        Unlink(row);
      }
    }

    /** The node of a row which is not linked gets its key. */
    method Claim(row: nat, key: nat, hash: seq<int>)
      requires Valid() && row in entries && row !in storing && !LinkedIn(entries, Linked(), row)
      requires IsHash(hash) && key == ReadU32(hash) != 0
      modifies this
      ensures Valid() && OnlyRow(old(entries), old(Linked()), entries, Linked(), row) && Linked() == old(Linked())
      ensures storing == old(storing) + {row} && !LinkedIn(entries, Linked(), row)
      ensures row in entries && entries[row].key == key && entries[row].hash == hash
    {
      hide EbRoot.Valid, AllU32, ReadU32, IsHash, IndexOk, Code32, LeafSet, OnlyRow;
      ghost var es, nodes, repr := entries, NodesOf(entries), tree.Repr();
      ghost var ups, members := Ups(nodes), Linked();
      assert allocated(nodes) && allocated(repr) && allocated(members);
      var eb := new Node(U32(key), Code32(key));
      var e := Entry(eb, key, hash, entries[row].expire);
      assert KeyOk(e) && eb !in nodes && eb !in repr && eb !in members;
      EntryClaimed(entries, rowOf, storing, members, ups, Ups(nodes + {eb}), row, e);
      entries, rowOf, storing := entries[row := e], rowOf[eb := row], storing + {row};
      RowReplaced(es, members, row, e);
      assert NodesOf(entries) <= nodes + {eb};
      assert tree.Repr() == repr && tree.Valid();
      UpsOnly(entries, rowOf, storing, members, Ups(nodes + {eb}), Ups(NodesOf(entries)));
    }

    /** The previous entry of this hash is unlinked. */
    method DropOld(hash: seq<int>, now: int)
      requires Valid() && IsHash(hash)
      modifies this`entries, this`storing, tree`T, tree.Repr()`b, tree.Repr()`nodeP, tree.Repr()`leafP, tree.Repr()`bit
      ensures Valid() && storing == old(storing)
      ensures OthersKept(old(entries), old(Linked()), entries, Linked(), None, hash)
      ensures NoneOf(entries, Linked(), hash) && KeysKept(old(entries), old(Linked()), entries, Linked())
    {
      hide EbRoot.Valid, AllU32, ReadU32, IsHash, IndexOk, NoneOf, TreeOk, OthersKept, KeysKept;
      var prev := EntryExist(hash, now);
      if prev.Some? {
        LastOfHash(this, prev.value, hash);
        Unlink(prev.value);
      }
    }

    /** http_action_store_cache(), with the row that was recycled for it. appended says
        whether the headers went into the row and a filter is there to go on. */
    method StoreCache(row: nat, hash: seq<int>, now: int, maxage: int, appended: bool) returns (ok: bool)
      requires Valid() && row in entries && row !in storing && IsHash(hash)
      modifies this, tree`T, tree.Repr()`b, tree.Repr()`nodeP, tree.Repr()`leafP, tree.Repr()`bit
      ensures Valid() && (ok <==> !Keyless(hash) && appended)
      ensures KeysKept(old(entries), old(Linked()), entries, Linked())
      ensures ok ==>
                && OthersKept(old(entries), old(Linked()), entries, Linked(), Some(row), hash)
                && NoneOf(entries, Linked(), hash) && !LinkedIn(entries, Linked(), row) && storing == old(storing) + {row}
                && entries[row] == Entry(entries[row].eb, ReadU32(hash), hash, now + maxage)
      ensures !ok ==> storing == old(storing)
      ensures !ok && Keyless(hash) ==> entries == old(entries) && tree.T == old(tree.T)
      ensures !ok && !Keyless(hash) ==>
                && OnlyRow(old(entries), old(Linked()), entries, Linked(), row)
                && !LinkedIn(entries, Linked(), row) && entries[row].key == 0
    {
      hide EbRoot.Valid, AllU32, ReadU32, IsHash, Keyless, IndexOk, TreeOk, OnlyRow, OthersKept, NoneOf, KeysKept, NodesOf, Ups;
      NoKeyIff(hash);
      var key := ReadU32(hash);
      ghost var es0, ms0 := entries, Linked();
      if key == 0 {
        NothingDone(es0, ms0);
        return false;
      }
      FreeBlocks(row);
      RowUnlinked(es0, ms0, entries, Linked(), row);
      if !appended {
        return false;
      }
      ghost var es1, ms1 := entries, Linked();
      Claim(row, key, hash);
      ghost var es2 := entries;
      DropOld(hash, now);
      ghost var es3, ms3 := entries, Linked();
      StoreMeans(es0, ms0, es1, ms1, es2, es3, ms3, row, hash, now + maxage);
      SetExpire(row, now + maxage);
      return true;
    }

    method SetExpire(row: nat, expire: int)
      requires Valid() && row in entries
      modifies this`entries, this`storing
      ensures Valid() && entries == old(entries)[row := old(entries[row]).(expire := expire)] && storing == old(storing)
    {
      hide EbRoot.Valid, AllU32, IndexOk;
      Expires(entries, rowOf, storing, Linked(), Ups(NodesOf(entries)), row, expire);
      SetEntry(row, entries[row].(expire := expire), storing);
    }

    /** eb32_insert() of a node which is not linked: refused if its key is taken. */
    method InsertNode(eb: Node) returns (done: bool)
      requires TreeOk() && eb !in tree.Repr() && eb in NodesOf(entries) && IsU32(eb) && tree.root !in NodesOf(entries)
      modifies tree`T, tree.Repr()`b, tree.Repr()`nodeP, tree.Repr()`leafP, eb`b, eb`nodeP, eb`leafP, eb`bit
      ensures TreeOk() && (done <==> old(FirstWith(tree.Contents(), eb.code)).None?)
      ensures Linked() == if done then old(Linked()) + {eb} else old(Linked())
      ensures UpsKept(old(Ups(NodesOf(entries))), Ups(NodesOf(entries)), if done then old(Linked()) + {eb} else {})
    {
      hide Radix, Shape, Links, Leaves, LeafSet, WF, NoDups, EbRoot.Valid, IsU32, Insert, Ins, FirstWith;
      ghost var tt, ups, m := tree.T, Ups(NodesOf(entries)), Snap(tree.Repr());
      var r := Insert32(tree, eb);
      done := r == eb;
      if Refused(true, tt, eb) {
        RefusedOther(tree, eb, r);
        forall n | n in ups
          ensures n.leafP == ups[n]
        {
          assert n in tree.Repr() ==> n.leafP == m[n].leafP;
        }
      } else {
        InsertCorrect(tt, eb);
      }
    }

    /** The entry of a row as it is once it was stored. */
    ghost function Stored(row: nat, done: bool): Entries
      requires row in entries
      reads this
    {
      entries[row := if done then entries[row] else entries[row].(key := 0)]
    }

    /** Inserts the node of a row which was filled. */
    method InsertRow(row: nat) returns (done: bool)
      requires Valid() && row in storing
      modifies tree`T, tree.Repr()`b, tree.Repr()`nodeP, tree.Repr()`leafP
      modifies entries[row].eb`b, entries[row].eb`nodeP, entries[row].eb`leafP, entries[row].eb`bit
      ensures TreeOk() && row in entries && IndexOk(Stored(row, done), rowOf, storing - {row}, Linked(), Ups(NodesOf(entries)))
      ensures done <==> !Taken(entries, old(Linked()), entries[row].key)
      ensures OnlyRow(entries, old(Linked()), Stored(row, done), Linked(), row) && (LinkedIn(entries, Linked(), row) <==> done)
    {
      assert row in entries;
      hide EbRoot.Valid, AllU32, ReadU32, IsHash, IndexOk, Code32, FirstWith, LeafSet, TreeOk, IsU32, Taken, OnlyRow, NodesOf, UpsKept, Ups, Members, EntryOk;
      var eb := entries[row].eb;
      ghost var members, ups := Linked(), Ups(NodesOf(entries));
      OtherNodes(entries, rowOf, storing, members, ups, row);
      TakenMeans(this, row);
      RowChanges(entries, members, row);
      done := InsertNode(eb);
      assert entries[row := entries[row]] == entries;
      if done {
        EntryInserted(entries, rowOf, storing, members, ups, Ups(NodesOf(entries)), row);
      } else {
        EntryRefused(entries, rowOf, storing, members, ups, Ups(NodesOf(entries)), row);
      }
    }

    /** cache_store_http_end(): links the entry, unless its key is taken. */
    method StoreEnd(row: nat)
      requires Valid() && row in storing
      modifies this, tree`T, tree.Repr()`b, tree.Repr()`nodeP, tree.Repr()`leafP
      modifies entries[row].eb`b, entries[row].eb`nodeP, entries[row].eb`leafP, entries[row].eb`bit
      ensures Valid() && OnlyRow(old(entries), old(Linked()), entries, Linked(), row) && storing == old(storing) - {row}
      ensures IsHash(old(entries[row]).hash)
      ensures if PrefixTaken(old(entries), old(Linked()), old(entries[row]).hash)
              then entries[row] == old(entries[row]).(key := 0) && !LinkedIn(entries, Linked(), row)
              else entries[row] == old(entries[row]) && LinkedIn(entries, Linked(), row)
    {
      assert row in entries;
      hide EbRoot.Valid, IndexOk, TreeOk, Taken, OnlyRow, NodesOf, Ups, Members;
      TakenIffPrefix(this, row);
      var done := InsertRow(row);
      SetEntry(row, if done then entries[row] else entries[row].(key := 0), storing - {row});
    }

    /** cache_store_strm_deinit(): the stream ends while its response is being stored.
        The row is left as it is, with its key and out of the tree. */
    method Abort(row: nat)
      requires Valid() && row in storing
      modifies this`storing, this`entries
      ensures Valid() && entries == old(entries) && Linked() == old(Linked()) && storing == old(storing) - {row}
    {
      assert row in entries;
      hide EbRoot.Valid, AllU32, IndexOk, TreeOk;
      EntryAborted(entries, rowOf, storing, Linked(), Ups(NodesOf(entries)), row);
      assert entries[row := entries[row]] == entries;
      SetEntry(row, entries[row], storing - {row});
    }

    /** disable_cache_entry(): gives up an entry before it was linked. */
    method Disable(row: nat)
      requires Valid() && row in storing
      modifies this
      ensures Valid() && OnlyRow(old(entries), old(Linked()), entries, Linked(), row) && storing == old(storing) - {row}
      ensures entries[row] == old(entries[row]).(key := 0) && !LinkedIn(entries, Linked(), row) && Linked() == old(Linked())
    {
      assert row in entries;
      hide EbRoot.Valid, AllU32, IndexOk, TreeOk, OnlyRow;
      ghost var es, members, ups := entries, Linked(), Ups(NodesOf(entries));
      OtherNodes(es, rowOf, storing, members, ups, row);
      RowChanges(es, members, row);
      EntryGivenUp(es, rowOf, storing, members, ups, row);
      SetEntry(row, entries[row].(key := 0), storing - {row});
    }
  }

  /** What the tests of entry_exist() tell. */
  lemma LookedMeans(es: Entries, rowOf: map<Node, nat>, storing: set<nat>, members: set<Node>, ups: map<Node, Parent>, hash: seq<int>, now: int, node: Node?)
    requires IndexOk(es, rowOf, storing, members, ups) && IsHash(hash)
    requires node != null ==> node in members && node in rowOf && rowOf[node] in es && es[rowOf[node]].eb == node
    requires forall x | x in es && es[x].eb in members && es[x].key == ReadU32(hash) :: node == es[x].eb
    ensures node == null || es[rowOf[node]].hash != hash ==> Looked(es, members, es, members, hash, now, None)
    ensures node != null && es[rowOf[node]].hash == hash ==>
              var row := rowOf[node];
              if es[row].expire > now then Looked(es, members, es, members, hash, now, Some(row))
              else Looked(es, members, es[row := es[row].(key := 0)], members - {node}, hash, now, None)
  {
    hide ReadU32;
    forall x | LinkedIn(es, members, x) && es[x].hash == hash
      ensures node != null && rowOf[node] == x
    {
      assert EntryOk(es[x], x in storing, members, ups);
    }
  }

  lemma OtherNodes(es: Entries, rowOf: map<Node, nat>, storing: set<nat>, members: set<Node>, ups: map<Node, Parent>, row: nat)
    requires IndexOk(es, rowOf, storing, members, ups) && row in es
    ensures forall x | x in es && x != row :: es[x].eb != es[row].eb
    ensures es[row].eb in members ==> es[row].key != 0 && row !in storing
    ensures es[row].eb !in members ==> es[row].eb in ups && ups[es[row].eb] == NoParent
  {
    assert EntryOk(es[row], row in storing, members, ups);
  }

  /** No two linked entries have hashes with the same first four bytes, and so none
      share a hash. */
  lemma OneEntryPerKey(c: Cache, a: nat, b: nat)
    requires c.Valid() && LinkedIn(c.entries, c.Linked(), a) && LinkedIn(c.entries, c.Linked(), b)
    ensures IsHash(c.entries[a].hash) && IsHash(c.entries[b].hash)
    ensures c.entries[a].hash[..4] == c.entries[b].hash[..4] <==> a == b
  {
    hide EbRoot.Valid, AllU32, FirstWith, Code32, ReadU32, IsHash;
    var es, ups := c.entries, Ups(NodesOf(c.entries));
    assert EntryOk(es[a], a in c.storing, c.Linked(), ups) && EntryOk(es[b], b in c.storing, c.Linked(), ups);
    KeyIsPrefix(es[a].hash, es[b].hash);
    if es[a].key == es[b].key {
      var k := es[a].key;
      LookupMeans(c.tree, es, c.rowOf, c.storing, ups, k, FirstWith(c.tree.Contents(), Code32(k)));
    }
  }

  lemma UpsOnly(es: Entries, rowOf: map<Node, nat>, storing: set<nat>, members: set<Node>, ups: map<Node, Parent>, ups': map<Node, Parent>)
    requires IndexOk(es, rowOf, storing, members, ups) && forall n | n in NodesOf(es) :: n in ups && n in ups' && ups'[n] == ups[n]
    ensures IndexOk(es, rowOf, storing, members, ups')
  {
    hide KeyOk;
    forall r | r in es
      ensures EntryOk(es[r], r in storing, members, ups')
    {
      assert es[r].eb in NodesOf(es);
    }
  }

  lemma RefusedOther(tree: EbRoot, eb: Node, r: Node)
    requires FirstWith(tree.Contents(), eb.code) == Some(r) && eb !in Members(tree.T)
    ensures r != eb
  {
    FirstWithIn(tree.Contents(), eb.code);
    InMembers(tree, r);
  }

  lemma TakenIffPrefix(c: Cache, row: nat)
    requires c.Valid() && row in c.entries && c.entries[row].key != 0
    ensures IsHash(c.entries[row].hash)
    ensures PrefixTaken(c.entries, c.Linked(), c.entries[row].hash) <==> Taken(c.entries, c.Linked(), c.entries[row].key)
  {
    hide EbRoot.Valid, AllU32, Code32, ReadU32, IsU32;
    var es, ups := c.entries, Ups(NodesOf(c.entries));
    assert EntryOk(es[row], row in c.storing, c.Linked(), ups);
    forall x | LinkedIn(es, c.Linked(), x)
      ensures IsHash(es[x].hash) && (es[x].key == es[row].key <==> es[x].hash[..4] == es[row].hash[..4])
    {
      assert EntryOk(es[x], x in c.storing, c.Linked(), ups);
      KeyIsPrefix(es[x].hash, es[row].hash);
    }
  }

  /** The key of an entry which is being stored. */
  lemma TakenMeans(c: Cache, row: nat)
    requires c.Valid() && row in c.entries && c.entries[row].key != 0
    ensures IsU32(c.entries[row].eb)
    ensures FirstWith(c.tree.Contents(), c.entries[row].eb.code).Some? <==>
            Taken(c.entries, c.Linked(), c.entries[row].key)
  {
    hide EbRoot.Valid, AllU32, FirstWith, Code32, ReadU32;
    var es, ups := c.entries, Ups(NodesOf(c.entries));
    assert EntryOk(es[row], row in c.storing, c.Linked(), ups);
    var k := es[row].key;
    var r := FirstWith(c.tree.Contents(), Code32(k));
    LookupMeans(c.tree, es, c.rowOf, c.storing, ups, k, r);
    if r.Some? {
      assert LinkedIn(es, c.Linked(), c.rowOf[r.value]);
    }
  }

  lemma NothingDone(es: Entries, members: set<Node>)
    ensures KeysKept(es, members, es, members)
  {
  }

  lemma RowUnlinked(es: Entries, members: set<Node>, es': Entries, members': set<Node>, row: nat)
    requires OnlyRow(es, members, es', members', row) && !LinkedIn(es', members', row)
    ensures KeysKept(es, members, es', members')
  {
  }

  /** Unlinking the linked entry of a hash leaves none of it. */
  lemma LastOfHash(c: Cache, row: nat, hash: seq<int>)
    requires c.Valid() && LinkedIn(c.entries, c.Linked(), row) && c.entries[row].hash == hash
    ensures row !in c.storing
    ensures var es, members := c.entries, c.Linked();
            var es', members' := es[row := es[row].(key := 0)], members - {es[row].eb};
            OthersKept(es, members, es', members', None, hash) && NoneOf(es', members', hash) && KeysKept(es, members, es', members')
  {
    hide EbRoot.Valid, AllU32, ReadU32, IsHash;
    OtherNodes(c.entries, c.rowOf, c.storing, c.Linked(), Ups(NodesOf(c.entries)), row);
    forall x | LinkedIn(c.entries, c.Linked(), x) && c.entries[x].hash == hash
      ensures x == row
    {
      OneEntryPerKey(c, x, row);
    }
  }

  /** The steps of http_action_store_cache() together. */
  lemma StoreMeans(es0: Entries, ms0: set<Node>, es1: Entries, ms1: set<Node>, es2: Entries, es3: Entries, ms3: set<Node>,
                   row: nat, hash: seq<int>, expire: int)
    requires OnlyRow(es0, ms0, es1, ms1, row) && OnlyRow(es1, ms1, es2, ms1, row) && !LinkedIn(es2, ms1, row) && row in es2
    requires OthersKept(es2, ms1, es3, ms3, None, hash) && NoneOf(es3, ms3, hash) && KeysKept(es2, ms1, es3, ms3)
    ensures row in es3 && es3[row] == es2[row] && !LinkedIn(es3, ms3, row)
    ensures var es' := es3[row := es3[row].(expire := expire)];
            && OthersKept(es0, ms0, es', ms3, Some(row), hash) && NoneOf(es', ms3, hash)
            && KeysKept(es0, ms0, es', ms3) && !LinkedIn(es', ms3, row)
  {
    var es' := es3[row := es3[row].(expire := expire)];
    assert row in es3 && es3[row] == es2[row] && !LinkedIn(es3, ms3, row);
    forall r | LinkedIn(es0, ms0, r) && LinkedIn(es', ms3, r)
      ensures es'[r].eb == es0[r].eb && es'[r].key == es0[r].key && es'[r].hash == es0[r].hash
    {
      assert r != row && es2[r] == es0[r] && LinkedIn(es2, ms1, r) && LinkedIn(es3, ms3, r);
    }
  }

  lemma RowChanges(es: Entries, members: set<Node>, row: nat)
    requires row in es && es[row].eb !in members && forall x | x in es && x != row :: es[x].eb != es[row].eb
    ensures es[row].eb in NodesOf(es)
    ensures OnlyRow(es, members, es, members + {es[row].eb}, row)
    ensures OnlyRow(es, members, es[row := es[row].(key := 0)], members, row)
  {
  }

  lemma RowReplaced(es: Entries, members: set<Node>, row: nat, e: Entry)
    requires row in es
    ensures OnlyRow(es, members, es[row := e], members, row)
  {
  }
}
