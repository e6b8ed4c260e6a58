/** The memory of an Elastic Binary Tree: entities, tagged branch pointers and
    tagged parent pointers.

    An entity carries a leaf part (leafP) and a link part (b, nodeP, bit) which
    may sit far apart in the tree. Pointer tags become datatype constructors. */
module EbNodes {

  /** The side of a branch below its parent: EB_LEFT is false, EB_RGHT is true. */
  const LEFT := false
  const RIGHT := true

  /** The keys of the tree variants: a 32-bit integer, a string with its terminating
      zero, or a prefix of pfx bits of a block of bytes. */
  datatype Key = U32(k: int) | Str(z: seq<int>) | Pfx(bytes: seq<int>, pfx: nat)

  /** A branch pointer: null (whose tag tells unique trees apart at the root),
      or the leaf part, or the link part of an entity. */
  datatype Branch = Null(tag: bool) | LeafOf(n: Node) | LinkOf(n: Node)

  /** The two branches of a root or of a link. */
  datatype Branches = Branches(l: Branch, r: Branch) {
    function At(side: bool): Branch { if side then r else l }

    function With(side: bool, v: Branch): Branches {
      if side then Branches(l, v) else Branches(v, r)
    }
  }

  /** A parent pointer: null, or a root or link together with the side on
      which the pointing part is attached. */
  datatype Parent = NoParent | Up(n: Node, side: bool)

  /** A mask, as the set of the bits which are set in it. */
  type Scope = set<nat>

  /** An entity. The root of a tree is an object of the same class of which only
      the branches matter, as eb_root_to_node() views it. */
  class Node {
    var b: Branches
    var nodeP: Parent
    var leafP: Parent
    var bit: int
    // visibility masks, only used by the scoped trees
    var nodeS: Scope
    var leafS: Scope
    const key: Key
    // the bit string which the radix tree sorts this entity by
    ghost const code: seq<bool>

    constructor (key: Key, ghost code: seq<bool>)
      ensures this.key == key && this.code == code
      ensures leafP == NoParent && nodeP == NoParent
    {
      this.key := key;
      this.code := code;
      b := Branches(Null(false), Null(false));
      nodeP, leafP := NoParent, NoParent;
      bit := 0;
      nodeS, leafS := {}, {};
    }
  }

  /** What one entity holds in memory, as a value. */
  datatype Cell = Cell(b: Branches, nodeP: Parent, leafP: Parent, bit: int)

  type Memory = map<Node, Cell>

  /** The memory of the entities in s at this moment. */
  ghost function Snap(s: set<Node>): (m: Memory)
    reads s
    ensures m.Keys == s
  {
    map n | n in s :: Cell(n.b, n.nodeP, n.leafP, n.bit)
  }
}
