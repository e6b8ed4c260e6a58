# Verified models of HAProxy's Elastic Binary Tree and of five other parts of it

This project models the Elastic Binary Tree (`ebtree/`) on real memory, entity by
entity and pointer by pointer, and proves what its operations mean. Around it stand
five smaller models: the dictionary of interned strings, which runs on the string
tree; the HTTP cache, with its resumable dump and its index, which runs on the tree of
integers; the propagation of process bindings; the evaluation of ACL conditions; and
base64.

## How the tree is modelled

An entity is an object of class `Node` with a leaf part (`leafP`) and a link part
(`b`, `nodeP`, `bit`), which may sit far apart in the tree. The tags in the low bits of
pointers are datatype constructors. The ghost value `EbRoot.T` is the tree which the
memory below a root represents (`RepTop`, `Rep`); `EbRoot.Valid()` joins the two with
the invariants:

- *Shape*: every entity has one leaf, and uses its link part at most once, above its leaf.
- *Duplicate trees*: one key, negative bits which strictly increase downwards, and a link
  which owns the first leaf of its right branch.
- *Radix trees*: all leaves below a link share the bits above it with the key of its owner
  and split on its own bit, and the owner is the first leaf of its key.

Every key type is sorted by a prefix-free bit string, its *code*: the 32 bits of an
integer, the bits of a string with its terminating zero, and for a prefix of N bits a
string of half-bits, in which half-bit 2N tells whether the prefix goes on and half-bit
2N+1 is bit N. So one function on trees, `EbInsert.Insert`, specifies the insertions of
all key types, and `Contents()`, the list of leaves, is what a tree means: insertion is
stable insertion into a sorted list, deletion is removal, lookups are scans.

| files | what |
|---|---|
| `Basics`, `Nodes`, `Trees`, `Memory`, `Codes`, `Lists`, `Radix` | entities, trees as values, representation, codes, lists, invariants |
| `Insert`, `Attach`, `Linking`, `DupTree` | insertion on trees and in memory, duplicate trees |
| `Delete`, `DeleteMemory`, `EbTree` | deletion on trees and in memory, roots |
| `Walk`, `Counter`, `Runs` | iterators, the binary counter of duplicate trees, whole runs |
| `Bits`, `Eb32`, `ByteBits`, `Ebmb`, `Ebis` | integer, prefix and string keys |
| `Eb32sc`, `Eb32scWalk`, `Eb32scRuns` | scoped trees, their walks and lookups, whole runs |
| `Dict`, `Propagate`, `CacheDump`, `CacheIndex`, `Acl`, `Base64` | the other models |

## Where the code does less than its comments say

- A scoped insertion among duplicates extends a mask on its way only if the mask has
  nothing of the scope (`ebtree/eb32sctree.c:51`, `ebtree/eb32sctree.c:60`). With scopes of
  several bits `node_s` may then fail to cover the new leaf, which walks for that scope miss.
  `Eb32sc.InsertCovers` gives the exact condition, `Eb32scRuns.ScopeIsLost` an instance, in
  which `eb32sc_lookup_ge_or_first()` returns null although a leaf is in scope.
  `Eb32scWalk.EnumerateSc` says what walks yield in such trees, and exactly when that is
  what is in scope.
- `eb32sc_lookup_ge()` resumes on the right of a link whose keys are all large enough
  (`ebtree/eb32sctree.c:275`, `ebtree/eb32sctree.c:287`), so it may skip the lowest key.
  `Eb32scWalk.LookupGeSc` says exactly when, `Eb32scWalk.LookupSkipsKeys` shows an instance.
- A suite of ACL terms is left at its first miss, even if a later term fails
  (`src/acl.c:1165-1167`), although the comment at its beginning names failures only. `Acl.CondSound`
  says exactly when the result differs from the formula.
- The decoder of base64 stores whole groups of three bytes, and its first tests only ask for
  room for the decoded bytes (`src/base64.c:86-89`), although the comment in the loop
  (`src/base64.c:118-122`) says that they make the extra bytes safe to write.
  `Base64.Base64Dec` and `Base64.StoresWithin` say exactly when it stays below `olen`.
- The comment on padding (`src/base64.c:108`) rules out a single character before three
  padding characters, but the test looks at padding which was read before, so that
  `base64dec()` accepts it (`Base64.OneCharacter`). It also accepts padding inside the input and
  unused bits which are not zero; `Base64.EncodingIff` says which inputs are encodings.
- The prefix lookups do not need the bits beyond the prefix length to be zero.

## Model

| member | source | states |
|---|---|---|
| `EbTrees.LinkCount` | ebtree/ebtree.h:185-191 | A tree has exactly one link part in use less than it has leaves; leaves, as a list and as a set, agree in number. |
| `EbTrees.SpareLink` | ebtree/ebtree.h:185-191 | So exactly one linked entity does not use its link part. |
| `EbTrees.LinksAreLeaves` | ebtree/ebtree.h:185-191 | Every entity whose link part is in use has its leaf in the same subtree: a link lies above its own leaf. |
| `EbTrees.LeavesDistinct` | ebtree/ebtree.h:185-208 | No entity occurs twice among the leaves. |
| `EbMemory.RepPut` | ebtree/ebtree.h:193-208 | The frame rule of all operations: memory which represents a subtree u at the anchor of a path, and leaves the rest alone, represents the tree with u put at that path. |
| `EbTree.EbRoot.constructor` | ebtree/ebtree.h:237-241 | A new root is a valid empty tree, unique or not by the tag of its right branch. |
| `EbTree.MemberIsLinked` | ebtree/ebtree.h:208-208 | A member of a tree has a non-null leaf parent and is not the root. |
| `EbTree.NoPointerLeft` | ebtree/ebtree.h:735-776 | In a valid tree no pointer in use (root, leaf parents, link parents, branches) leads to an entity which is not in it, and unused link parts say so. |
| `EbRadix.RadixSorted` | ebtree/ebtree.h:229-235 | The leaves of every well-formed tree are in the order of their keys. |
| `EbRadix.PositionsDeepen` | ebtree/ebtree.h:218-222 | Branching positions strictly increase downwards, so the bits of integer keys strictly decrease; half-bits of prefixes strictly increase. |
| `EbDelete.HeirComesFirst` | ebtree/ebtree.h:742-752 | Why the link of the parent may take over: if the deleted leaf was the first of its key, then without it the owner of its parent is the first of its own key. |
| `EbDelete.DelRadix` | ebtree/ebtree.h:689-777 | Deleting any leaf of a well-formed tree with at least two keeps all radix and duplicate invariants. |
| `EbDelete.DeleteCorrect` | ebtree/ebtree.h:689-777 | Deleting any leaf of any well-formed tree gives a well-formed tree with the other leaves in the same order, in which the entity is neither a leaf nor a link. |
| `EbDeleteMemory.SpliceStep` | ebtree/ebtree.h:701-733 | After the sibling replaced the parent, memory represents the tree without the leaf. |
| `EbDeleteMemory.TakeOverStep` | ebtree/ebtree.h:749-772 | After the spare parent link took over the link of the deleted entity, memory represents the tree with that one link renamed. |
| `EbTree.ReplaceParent` | ebtree/ebtree.h:710-733 | The pointer writes of the first half of the deletion, field by field. |
| `EbTree.TakeOver` | ebtree/ebtree.h:749-772 | The pointer writes by which the parent takes the place, the branches and the bit of the link of the deleted entity. |
| `EbTree.Unlink` | ebtree/ebtree.h:689-777 | The code of eb_delete(): the tree is the deletion of the leaf, the leaf is marked as not linked, an entity which is not linked is left alone, and the heir of a link part is the parent's owner. |
| `EbTree.Delete` | ebtree/ebtree.h:689-777 | The same, in terms of the list: the contents are the old contents without the entity. |
| `EbInsert.InsertDupAppends` | ebtree/ebtree.h:466-517 | Insertion into a duplicate tree appends the new leaf after all leaves of that key, keeps negative bits strictly increasing downwards, and uses the link of the new entity only. |
| `EbDupTree.InsertDuplicate` | ebtree/ebtree.h:466-517 | The code of eb_insert_dup(): the search for the deepest hole and the pointer writes leave memory which represents that insertion. |
| `EbCounter.InsertDupCounts` | ebtree/ebtree.h:466-517 | The right spine of a duplicate tree read as a binary number (bit -n counts 2^(n-1)) grows by exactly one with each insertion. |
| `EbCounter.DelCounts` | ebtree/ebtree.h:689-777 | No deletion increases that number. |
| `EbCounter.DupSize` | ebtree/ebtree.h:220-229 | A duplicate tree whose top bit is -n has at most 2^n leaves and a depth of at most n. |
| `EbCounter.CountersCover` | ebtree/ebtree.h:220-229 | A duplicate tree has at most as many leaves as its number plus one. |
| `EbRuns.RunCounts` | ebtree/ebtree.h:466-517 | Over every run of insertions and deletions the number of a key is at most the count of its insertions, and equal to it without deletions. |
| `EbRuns.BitsOverRuns` | ebtree/ebtree.h:169-169 | Over every run, a duplicate link of bit -n of a key inserted k times has 2^(n-1) < k, and the depth below it is at most n. |
| `EbRuns.InsertOnlyDepth` | ebtree/ebtree.h:169-169 | Without deletions a duplicate tree of D entities has 2^(depth-1) < D: its depth is logarithmic. |
| `EbInsert.InsertInserts` | ebtree/eb32tree.h:239-365 | Insertion into a well-formed tree, for any key type, is stable insertion into the list of its leaves, keeps all invariants, and adds the new link only. |
| `EbInsert.InsertCorrect` | ebtree/eb32tree.h:239-365 | The same for whole trees, empty ones included; a new key creates no duplicate link. |
| `EbInsert.InsertBelow` | ebtree/eb32tree.h:266-305 | Inserting at the top is inserting into the subtree which the descent has reached. |
| `EbInsert.UniqueIsFirst` | ebtree/ebtree.h:237-241 | In a tree without duplicate links every entity is the first of its key. |
| `EbLinking.InsertAbove` | ebtree/eb32tree.h:333-364 | The pointer writes which every insertion ends with represent the tree with the new link put above the old subtree. |
| `EbDupTree.PlaceInTree` | ebtree/eb32tree.h:307-364 | The end of every insertion, whatever the key type: a valid tree with the new entity inserted. |
| `EbRuns.RunIsList` | ebtree/eb32tree.h:239-365 | After every run of insertions and deletions the tree holds exactly what a stably sorted list holds after the same run. |
| `EbRuns.LinksOwnTheFirst` | ebtree/eb32tree.h:156-174 | After every run, a link outside duplicate trees is owned by the first surviving entity of its key. |
| `Bits.DiffersAbove` | ebtree/eb32tree.h:287-293 | The descent test (a ^ b) >> i >= 2 holds exactly if the keys differ above bit i. |
| `Bits.HighestDifference` | ebtree/eb32tree.h:318-319 | flsnz(a ^ b) - 1 is the first bit, from the top, on which the keys differ. |
| `Bits.Order32` | ebtree/eb32tree.h:337-350 | Comparing two 32-bit keys is comparing their codes. |
| `Eb32.Descend32` | ebtree/eb32tree.h:266-305 | The descent of eb32_insert() ends at the subtree where insertion means to put the new link, and reads its anchor. |
| `Eb32.Insert32` | ebtree/eb32tree.h:239-365 | The code of eb32_insert(): stable insertion, or, in a unique tree which has the key, the existing entity with nothing changed. |
| `Eb32.InsertedByKey` | ebtree/eb32tree.h:239-365 | In terms of integers: the new entity lands after all keys up to its own and before all larger ones. |
| `Eb32.Lookup32` | ebtree/eb32tree.h:136-181 | The code of eb32_lookup(): the first entity of the key, or null if there is none, whatever a shift by a negative count gives inside duplicate trees of other keys. |
| `Eb32.FirstByKey` | ebtree/eb32tree.h:136-181 | The same in terms of integers: the first entity whose key is x. |
| `Eb32.LookupGe32` | ebtree/eb32tree.c:137-218 | The code of eb32_lookup_ge(): the first entity, in order, whose key is at least x, or null if a scan finds none. |
| `Eb32.LookupLe32` | ebtree/eb32tree.c:49-131 | The code of eb32_lookup_le(): the last entity, in order, whose key is at most x, or null if a scan finds none. |
| `EbWalk.WalkDown` | ebtree/ebtree.h:453-460 | The first or the last leaf of the subtree a branch points to. |
| `EbWalk.FirstEntity` | ebtree/ebtree.h:537-540 | The first of the contents, or null. |
| `EbWalk.LastEntity` | ebtree/ebtree.h:543-546 | The last of the contents, or null. |
| `EbWalk.Next` | ebtree/ebtree.h:567-580 | The entity right after this one, or null. |
| `EbWalk.Prev` | ebtree/ebtree.h:549-564 | The entity right before this one, or null. |
| `EbWalk.NextFrom` | ebtree/ebtree.h:567-580 | The walk up and right from a tagged parent: the first leaf after that subtree. |
| `EbWalk.PrevFrom` | ebtree/ebtree.h:549-564 | The walk up and left from a tagged parent: the last leaf before that subtree. |
| `EbWalk.NextDup` | ebtree/ebtree.h:606-625 | The next entity if it has the same key, else null, whatever is read as the bit of the root. |
| `EbWalk.PrevDup` | ebtree/ebtree.h:583-603 | The previous entity if it has the same key, else null. |
| `EbWalk.NextUnique` | ebtree/ebtree.h:658-683 | The first entity after this one with another key, or null. |
| `EbWalk.PrevUnique` | ebtree/ebtree.h:629-653 | The last entity before this one with another key, or null. |
| `EbWalk.Enumerate` | ebtree/ebtree.h:567-580 | eb_first() and repeated eb_next() terminate and yield exactly the contents in order. |
| `EbWalk.NextPrevInverse` | ebtree/ebtree.h:549-580 | k is next to n exactly if n is previous to k. |
| `EbWalk.NeighboursOf` | ebtree/ebtree.h:549-625 | The results of the steps by position: from entry i of the contents to entry i + 1 or i - 1, for duplicates only if that has the same key. |
| `EbWalk.OthersOf` | ebtree/ebtree.h:629-683 | The steps to another key by position: to the entries just around the run of equal keys which holds entry i. |
| `ByteBits.EqualBits` | ebtree/ebtree.h:786-809 | The result is the first differing bit, or at least len if the first len bits are equal. |
| `ByteBits.CheckBits` | ebtree/ebtree.h:815-840 | Zero exactly if the first len bits are equal, given that the skipped bytes are. |
| `Ebis.StringEqualBits` | ebtree/ebtree.h:852-883 | Negative only if the strings are equal, else their first differing bit. |
| `Ebmb.InsertPfx` | ebtree/ebmbtree.h:576-809 | The code of ebmb_insert_prefix(): stable insertion in the order of half-bit codes, or the existing entity in a unique tree which has the prefix. |
| `Ebmb.CoverSides` | ebtree/ebmbtree.h:576-809 | A cover node on half-bit 2N has prefixes of exactly N bits on its left and longer ones on its right. |
| `Ebmb.PfxOrder` | ebtree/ebmbtree.h:576-809 | The order of half-bit codes: a prefix sorts before the longer ones it covers, and any other two sort by the first bit on which they differ. |
| `Ebmb.LookupLongest` | ebtree/ebmbtree.h:385-470 | The code of ebmb_lookup_longest(), for a block at least as long as the keys: the first entity of the longest prefix which matches x, or null if none matches. |
| `Ebmb.ScanIsLongest` | ebtree/ebmbtree.h:378-470 | A linear scan which keeps the first longest match finds such an entity. |
| `Ebmb.LongestUnique` | ebtree/ebmbtree.h:378-470 | There is only one such answer, so the lookup returns what the scan returns. |
| `Ebmb.LookupPfx` | ebtree/ebmbtree.h:479-564 | The code of ebmb_lookup_prefix(), for a block at least as long as the keys: the first entity whose key is the first pfx bits of x, or null if there is none. |
| `Ebis.StringOrder` | ebtree/ebistree.h:139-327 | Codes of strings sort as strcmp() does on unsigned bytes. |
| `Ebis.StrComparable` | ebtree/ebistree.h:139-327 | Codes of strings are prefix-free, and equal exactly for equal strings. |
| `Ebis.LevelStr` | ebtree/ebistree.h:203-296 | One level of the descent, with an offset that may have passed the bit of the link: it stops where insertion stops, or takes the side of the key with an offset that is sound below. |
| `Ebis.InsertStr` | ebtree/ebistree.h:139-327 | The code of ebis_insert(): stable insertion in string order, or the existing entity in a unique tree which has the string. |
| `Ebis.LookupStr` | ebtree/ebistree.h:61-132 | The code of ebis_lookup(): the first entity of the string, or null exactly if it is not stored. |
| `Eb32sc.DelCovered` | ebtree/eb32sctree.c:441-465 | A leaf is covered if every link above it has its scope in node_s. Deletion keeps every other covered leaf covered, whatever else is covered, if the heir of a link covers its new branches. |
| `Eb32sc.CoverBranches` | ebtree/eb32sctree.c:450-465 | The heir gets the union of the masks of the branches it absorbs. |
| `Eb32sc.DeleteCovers` | ebtree/eb32sctree.c:377-472 | For any leaf of any well-formed tree with masks: if the heir of its link, when there is one, gets the union of the masks of the branches it absorbs and nothing else changes, then every leaf which was covered and is still there is covered. |
| `Eb32sc.DeleteSc` | ebtree/eb32sctree.c:377-472 | The code of eb32sc_delete() on any valid tree: the deletion of the leaf; the heir is the parent's owner if the deleted entity has its link part elsewhere, and there is none otherwise; the masks are exactly those of that deletion; every leaf which was covered and is still there is covered. |
| `Eb32sc.SearchHole` | ebtree/eb32sctree.c:39-64 | The search marks the spine below the top only where a mask has nothing in common with the scope; its inner loop changes nothing. |
| `Eb32sc.InsertDupSc` | ebtree/eb32sctree.c:29-101 | The code of eb32sc_insert_dup(): the same tree as eb_insert_dup(), these marks, and a new mask which covers what is below. |
| `Eb32sc.DescendSc` | ebtree/eb32sctree.c:137-176 | The descent marks exactly the links it goes through, the last one included. |
| `Eb32sc.InsertCovers` | ebtree/eb32sctree.c:29-233 | Whatever is covered in the tree before: an insertion keeps every covered leaf covered, and covers the new one if and only if its scope fits, that is, every duplicate link between the top of the duplicate tree and the new link had all of the scope or nothing of it. |
| `Eb32sc.SingleBitFits` | ebtree/eb32sctree.c:29-233 | A scope of a single bit always fits. |
| `Eb32sc.InsertCoversAll` | ebtree/eb32sctree.c:29-233 | The same for whole trees, as a consequence: if all leaves were covered, all are afterwards if and only if the scope fits. |
| `Eb32sc.InsertSc` | ebtree/eb32sctree.c:107-233 | The code of eb32sc_insert() on any valid tree: stable insertion; exactly the masks which the descent and the search leave, and no others; covered leaves stay covered; the new leaf is covered if and only if its scope fitted, so always for a scope of one bit; and a tree with all leaves covered stays so under the same condition. |
| `Eb32scRuns.ScRunIsRun` | ebtree/eb32sctree.c:107-472 | Over every run of scoped insertions and deletions, scopes make no difference to the tree. |
| `Eb32scRuns.FittedStaysCovered` | ebtree/eb32sctree.c:29-472 | Over every run, whatever its scopes: an entity whose scope fitted when it was inserted stays covered until it is deleted. |
| `Eb32scRuns.SingleBitRuns` | ebtree/eb32sctree.c:29-472 | Over every run whose scopes have at most one bit all leaves are covered, and a walk sees exactly the entities in scope of the stably sorted list which the same run leaves, in order. |
| `Eb32scRuns.ScopeStays` | ebtree/eb32sctree.c:107-233 | Over every run, the leaf mask of an entity is the scope with which it was inserted, until it is deleted. |
| `Eb32scRuns.MasksFromScopes` | ebtree/eb32sctree.c:29-472 | Over every run, no mask has a bit which was not in the scope of some insertion. |
| `Eb32scRuns.ScopeIsLost` | ebtree/eb32sctree.c:29-101 | The condition is needed: after a run of seven insertions of one key with scope {0}, which leaves all leaves covered, an eighth insertion with scope {0,1} leaves a tree in which a leaf is in scope {1}, a walk for {1} finds nothing, and so does the lookup of any key, with or without falling back to the first. |
| `Eb32scWalk.VisibleIff` | ebtree/eb32sctree.h:74-116 | In any tree, a pruned walk sees a leaf if and only if it is in scope and every link above it has something of the scope. |
| `Eb32scWalk.CoveredOpen` | ebtree/eb32sctree.h:74-116 | A covered leaf in scope is never hidden from a walk. |
| `Eb32scWalk.VisibleExactly` | ebtree/eb32sctree.h:74-116 | In any tree, a pruned walk sees exactly the leaves in scope, in order, if and only if no link hides one of them. |
| `Eb32scWalk.CoversVisible` | ebtree/eb32sctree.h:74-116 | If all leaves are covered, none in scope is hidden, so a pruned walk sees exactly the leaves in scope, in order. |
| `Eb32scWalk.InScopeMeans` | ebtree/eb32sctree.h:74-116 | An entity is in scope exactly if some bit of the scope is in its leaf mask. |
| `Eb32scWalk.WalkDownLeftSc` | ebtree/eb32sctree.h:74-116 | The first leaf which a pruned walk sees in the subtree or after it, or null. |
| `Eb32scWalk.NextWithParentSc` | ebtree/eb32sctree.h:119-131 | The first leaf which a pruned walk sees after the subtree below a tagged parent, or null. |
| `Eb32scWalk.FirstSc` | ebtree/eb32sctree.h:140-143 | The first visible leaf; in a covered tree the first leaf in scope. |
| `Eb32scWalk.NextSc` | ebtree/eb32sctree.h:134-137 | The next visible leaf; in a covered tree the next leaf in scope. |
| `Eb32scWalk.EnumerateSc` | ebtree/eb32sctree.h:134-143 | In any valid tree eb32sc_first() and repeated eb32sc_next() terminate and yield exactly the leaves visible from the root, each once and in order; these are the leaves in scope if and only if none of them is hidden, so in every covered tree. |
| `Eb32scWalk.GeAnswerExactly` | ebtree/eb32sctree.c:239-300 | In any tree: the lookup returns the first leaf in scope with a key of at least x if and only if there is none or the lookup reaches it, that is, it does not skip it and no link on the way there from the place where it resumes hides it. |
| `Eb32scWalk.LookupGeSc` | ebtree/eb32sctree.c:239-300 | The code of eb32sc_lookup_ge() on any valid tree: any result is in scope with a key of at least x; it is the first such leaf under exactly the condition above; in a covered tree that is, if and only if no leaf of the left branch of the link where the descent stops is in scope (when the keys there are large enough). |
| `Eb32scWalk.SkipsMatter` | ebtree/eb32sctree.c:275-287 | Skipping leaves changes the first leaf in scope exactly if one of them is in scope. |
| `Eb32scWalk.LookupSkipsKeys` | ebtree/eb32sctree.c:282-288 | With keys 4 and 5, both in scope, the lookup for 0 returns 5. |
| `Eb32scWalk.LookupGeOrFirstSc` | ebtree/eb32sctree.c:307-372 | On any valid tree: the result of the lookup, or else the first leaf a walk from the root sees; any result is in scope; it is null if and only if every leaf in scope is out of reach of the lookup and hidden from the root; so it is not null if some covered leaf is in scope, and in a covered tree it is null exactly if no leaf is in scope. |
| `Propagate.MissingDrops` | src/cfgparse.c:2196-2206 | The number of unset bits over all proxies never grows when masks grow, and drops when one of them does: the measure of termination. |
| `Propagate.PropagateProcesses` | src/cfgparse.c:2214-2248 | The code of propagate_processes() on any graph, cycles included, and from any source: it terminates; a source with processes only adds them along the edges, one without clears its targets and theirs; whatever changed is closed under its targets; and the target has what the source has. |
| `Propagate.PassOn` | src/cfgparse.c:2232-2247 | Its second half: afterwards all static targets of a running frontend have its processes, or are cleared if it has none, even if its own mask grew meanwhile. |
| `Propagate.IsLeast` | src/cfgparse.c:2196-2212 | Masks which are closed and only have what flows along the edges are exactly what reaches each proxy. |
| `Propagate.BelowEverySolution` | src/cfgparse.c:2196-2212 | These masks are below every other closed masks above the initial ones. |
| `Propagate.PropagateAll` | src/cfgparse.c:3759-3764 | The calling loop: the masks are the least ones above the initial ones with every running frontend contained in its static targets. |
| `Propagate.Inherit` | src/cfgparse.c:3735-3746 | A proxy without a mask gets those of its listeners, or all processes. |
| `Propagate.StartMaskHas` | src/cfgparse.c:3735-3746 | Which processes that gives: those of its own mask; without one, those in which some listener runs, which is all for a listener without mask; without listeners, all. |
| `Propagate.BindProcesses` | src/cfgparse.c:3735-3768 | All loops together: no mask is empty at the end; without configuration errors the masks are the least solution above the inherited ones, and with errors, when names may be unresolved, the inherited ones. |
| `Dict.Dictionary.Begin` | src/dict.c:82-87 | Any number of calls may begin at any time. |
| `Dict.Dictionary.LookupStep` | src/dict.c:87-91 | The lookup step: done with the entry of the string if there is one, else missed; nothing else changes. |
| `Dict.Dictionary.AllocateStep` | src/dict.c:93-95 | The allocation step: a fresh private entry, or done with null if there is no memory. |
| `Dict.Dictionary.InsertStep` | src/dict.c:97-105 | The insertion step on the string tree: if another call came first, its entry is returned and the own one is released, else the own one is in the dictionary. |
| `Dict.OneEntryPerString` | src/dict.c:82-106 | In every reachable state the dictionary holds one entry per string. |
| `Dict.SameString` | src/dict.c:82-106 | In every reachable state, completed calls returned the same entry if and only if their strings are equal, and that entry is in the dictionary and not released. |
| `Dict.Run` | src/dict.c:82-106 | Any interleaving of any number of calls keeps these invariants and the entries, never changes the result of a completed call, and completes every call within three turns; a call whose allocations succeed returns an entry of the dictionary which holds its string. |
| `CacheDump.WordRoundTrip` | src/cache.c:823-831 | An info word is read back as it was stored. |
| `CacheDump.HeaderInfo` | include/common/htx.h:107-112 | The info word of a header or trailer with a name of n < 256 bytes and a value of v < 2^20 bytes has that type and the size n + v. |
| `CacheDump.BlockInfo` | include/common/htx.h:107-113 | The info word of any other block with a payload of less than 2^28 bytes has that type and size. |
| `CacheDump.Dump.ReadInfo` | src/cache.c:823-831 | The info word of the next block is read, also when it is split on two shared blocks. |
| `CacheDump.Dump.Copy` | src/cache.c:735-746 | Copying across shared blocks yields the bytes at that position of the flat stream, and the position after them. |
| `CacheDump.Dump.DumpBlk` | src/cache.c:710-752 | A whole block goes out if the message has room for it and adds it, else nothing does. |
| `CacheDump.Dump.DumpDataBlk` | src/cache.c:754-802 | Exactly as many bytes of a data block go out as the message takes, and rem_data is what remains; sent is the flat position. |
| `CacheDump.Dump.AddData` | src/cache.c:781-795 | The loop over shared blocks hands on exactly the bytes at that position of the flat stream, as many as the message accepts. |
| `CacheDump.Dump.Step` | src/cache.c:813-846 | One turn of the loop sends exactly what the message takes: of a data block as much as both limits allow, also a part; of any other block all or nothing; and rem_data is what is left. |
| `CacheDump.Dump.DumpMsg` | src/cache.c:804-854 | For all room limits: sent is always the flat position of (next, offset) and what is out is the stored stream up to there. The blocks up to where the dump stops went out completely, each in its turn; it stops after the first block of the marked type, or at the end, or at the first block which the message did not take completely, of which exactly the part which it took is out. It sends something exactly if the message takes something in the first turn. |
| `CacheDump.Dump.DumpCalls` | src/cache.c:922-932 | Progress over calls: if for every block, again and again, some call begins with room for a part of it (data) or for all of it (others), the dump is complete after finitely many calls, whatever happens in other calls, and exactly the stored blocks are out. |
| `CacheDump.OutIsPrefix` | src/cache.c:804-854 | At any time what is out is a prefix of what is stored: no byte is lost, repeated or reordered. |
| `CacheDump.Dump.DumpComplete` | src/cache.c:804-854 | Once all bytes are sent, exactly the stored blocks are out. |
| `CacheIndex.LookupMeans` | src/cache.c:99-107 | What the tree lookup of a key finds is the one entry which is linked under it. |
| `CacheIndex.Cache.EntryExist` | src/cache.c:94-117 | On the unique tree of 32-bit keys: exactly the linked entry of the hash which has not expired; without one, none of that hash is linked any more; other entries are left alone, and linked ones keep their key and hash. |
| `CacheIndex.Cache.FreeBlocks` | src/cache.c:513-520 | Recycling a row, also one left by an aborted store, which has a key and is not linked, leaves its entry out of the tree and without a key, and other rows alone. |
| `CacheIndex.KeyIsPrefix` | src/cache.c:539-539 | Two hashes have the same key exactly if they have the same first four bytes. |
| `CacheIndex.NoKeyIff` | src/cache.c:559-561 | A hash has no key exactly if its first four bytes are zero. |
| `CacheIndex.Cache.StoreCache` | src/cache.c:630-687 | Exactly a hash whose first four bytes are zero is refused; if the headers do not fit, the recycled row stays unlinked and without key; else the row holds the new entry, not linked yet, no entry of that hash is linked, and other entries are left alone. |
| `CacheIndex.Cache.StoreEnd` | src/cache.c:385-420 | The entry is in the tree if no linked entry has a hash with the same first four bytes, else it loses its key. |
| `CacheIndex.Cache.Abort` | src/cache.c:219-238 | A stream which ends while its response is being stored leaves the row out of the tree and with its key; no entry changes. |
| `CacheIndex.Cache.Disable` | src/cache.c:279-291 | An entry given up is unlinked and has no key. |
| `CacheIndex.OneEntryPerKey` | src/cache.c:94-117 | In every reachable state, those after aborted stores included, two linked entries whose hashes have the same first four bytes are the same: from the absence of duplicates in a unique tree. |
| `Acl.FetchAll` | src/acl.c:1115-1152 | All samples of one expression: a match passes, else data which may change counts as a miss unless final. |
| `Acl.ExecCond` | src/acl.c:1078-1176 | The code of acl_exec_cond() computes the short-circuit evaluation. |
| `Acl.GivesUpMeans` | src/acl.c:1096-1168 | A suite is left at a miss although it is false if and only if its first term which does not pass is a miss and a later term is false. |
| `Acl.CondSound` | src/acl.c:1078-1176 | The evaluation passes exactly if the three-valued formula does, and fails only if it does; it differs from the formula if and only if every suite has a false term and in some suite a miss comes first, after terms which pass, with a false term behind it. |
| `Acl.MissBeforeFail` | src/acl.c:1163-1167 | The difference occurs: a term whose data may change and does not match, before one whose data is there and does not match. |
| `Acl.CondStable` | src/acl.c:1066-1069 | A verdict other than a miss is not changed by any resolution of the misses. |
| `Acl.TermExactly` | src/acl.c:1096-1160 | A term misses exactly if, without the final flag, none of its expressions matches and the data of some may still change; otherwise it is true exactly if some expression matches, or none if it is negated. |
| `Acl.CondExactly` | src/acl.c:1078-1176 | The result in these terms: it passes exactly if in some suite all terms are surely true, and misses exactly if none is so and in some suite the first term which is not surely true is unsure. |
| `Acl.SettledCond` | src/acl.c:1066-1069 | With the final flag, or if no data may change, the result is never a miss and is the one of boolean logic. |
| `Acl.Neg` | include/proto/acl.h:36-39 | Negation exchanges pass and fail and keeps a miss. |
| `Base64.TabIs` | src/base64.c:25-25 | The table for encoding is the alphabet: letters, digits, plus and slash. |
| `Base64.RevIs` | src/base64.c:26-26 | The table for decoding is its inverse, with 64 for padding and -1 for all other characters. |
| `Base64.QuadHolds` | src/base64.c:44-66 | The four characters for up to three bytes are letters of the alphabet which hold the 24 bits of these bytes from the top, and padding exactly for missing bytes. |
| `Base64.A2Base64` | src/base64.c:33-69 | Exactly 4*ceil(n/3) characters and a terminating zero, which are the encoding, or -1 with nothing written if there is no room. |
| `Base64.EncodedLength` | src/base64.c:33-69 | The encoding of n bytes has 4*ceil(n/3) characters. |
| `Base64.RoundTrip` | src/base64.c:33-139 | Decoding undoes encoding, for all bytes. |
| `Base64.CanonicalIff` | src/base64.c:33-139 | An accepted input is what the encoder writes for the decoded bytes exactly if padding only comes at the end, after at least two characters, and unused bits are zero. |
| `Base64.EncodingIff` | src/base64.c:33-139 | So an input is an encoding exactly if it is accepted and has that form. |
| `Base64.OneCharacter` | src/base64.c:108-110 | A character with three padding characters is accepted and gives nothing. |
| `Base64.Base64Dec` | src/base64.c:77-139 | Into any buffer of at least olen bytes, for every input: -2 exactly if the expected size is above olen; otherwise exactly the inputs are accepted whose groups consist of characters of the alphabet with padding neither first nor followed by another character, and the result is the bytes of all groups and their number, which is at most olen; -1 for all others; the stored bytes end beyond the result by the padding of the last group, and nothing behind them is written. |
| `Base64.ShortForEncoding` | src/base64.c:86-89 | For an encoding of s, olen is too short exactly if it is less than the length of s. |
| `Base64.StoresWithin` | src/base64.c:115-127 | For an encoding of s, the stored bytes end at the length of s rounded up to a multiple of three, so at or below olen exactly if olen allows for whole groups. |

## Left out

- Tags, alignment and `container_of` arithmetic: pointers and their tags are datatypes, and aliasing between the leaf and the link part of an entity is by object identity.
- The key of an entity is constant; giving another key to an entity which is not linked is modelled as another entity. The `bit` of a link is unbounded, not a short integer.
- `flsnz()` is specified as the highest set bit; its assembly forms, and its value for zero, which the code computes but does not use, are not modelled.
- The insertions write `node_p` and `bit` of the new entity before they know whether a unique tree refuses it; these two writes to an entity which stays unlinked are not modelled.
- The loops which several functions of the library share (walking down, up and right, linking above a subtree, the descent of the ordered lookups) are methods which these functions call here.
- Masks of scopes and processes are finite sets of bit numbers, without a word width.
- `eb32i_*` (signed keys), `eb64*`, `ebpt*`, `ebst*` and fixed-length `ebmb_insert`/`ebmb_lookup`: the same algorithms at another width, order or storage.
- `ebim_insert`: it compares a bit count with a byte index, so its test for equal keys is another one.
- LookupLongest and LookupPfx: all keys of a tree have the same length in bytes, as the insertion function expects of its callers, and are not empty.
- Average costs, and the cost of lookups, are not modelled; only the depth of duplicate trees is.
- The statistics frontend in the loops around the propagation of processes.
- Locks of the dictionary: a lookup and an insertion are each one atomic step. Reference counts of its entries are left out.
- HTX messages and channels: at each step the message reports some room, may refuse a block, and accepts some number of bytes of data; these are inputs. Data goes out as bytes, because HTX may merge data blocks.
- The cache applet around the dump (states, `Age` header, errors), the storing side of payloads, and the computation of the maximum age.
- Rows of the cache are recycled only when no filter is filling them, which is what the hot list is for; their blocks other than the first are left out.
- `parse_acl_cond()` and the fetching and matching of samples: a condition is its disjunction of suites, an expression the samples which it yields.
- Base64Dec: what lies behind the output buffer is not modelled, only that bytes are stored there. In base64, `|` of disjoint bits is addition.
- All other parts of HAProxy.
