# SoupDB: verified model of the storage, index, lock and query core

SoupDB is a database engine written from scratch. This project models its hard parts in Dafny and
proves what they are for. Files are pages in a map from page number to page value; keys, distances
and coordinates are exact (integers or reals); hash functions, entry sizes and metrics are
parameters, so every statement holds for all of them.

## What is modelled

* **B+ tree** (`BPlusPages`, `BPlusInvariant`, `BPlusLemmas`, `BPlusSplit`, `BPlusSteps`,
  `BPlusCascade`, `BPlusPrune`, `BPlusChain`, `BPlusMoves`, `BPlusTree`, `BPlusRuns`). Pages with
  variable-size entries, parent ids and a leaf chain. One invariant says: separators bound their
  subtrees non-strictly, all leaves are equally deep, every stored parent id names the real parent,
  every node fits its page. A cut of one node moves the one page that may be overfull up to its parent,
  until the cascade ends or gets stuck; which of the two is read off the pages before the insert. Where
  it gets stuck, the subtree right of the missing separator is lost to descents (`BPlusPrune`), while
  its leaves stay on the chain (`BPlusChain`): the invariant speaks about the nodes that can be reached
  and the chain about all leaves, so it holds after every operation. Searches, range searches and
  removals speak about the sequence of all entries along the chain; `Replay` is the statement over
  whole runs.
* **Extendible hash** (`HashPages`, `HashTable`, `ExtendibleHash`). Directory slots lie on directory
  pages; a bucket of local depth l belongs to exactly the slots that share its l-bit suffix, holds
  only such keys and has overflow pages only at the maximum depth. The pages refine a multiset, and
  when the directory is full is read off the bucket before the insert.
* **R-tree** (`RTreeNodes`, `RTreeSplit`, `RTree`) with exact boxes, quadratic split and pruning
  removal; its **page store** (`PageStore`) with page numbers reused from one save to the next, and a
  load that is total on any file.
* **Nearest neighbours** (`Knn`, `SpatialScan`, `KnnPlan`, `KnnOperators`, `RadiusPlan`). The
  best-first search equals sort-and-take-k; the plan over the index equals the plan over the full
  scan, first as functions, then for the operators with their cursors.
* **Strict two-phase locking** (`LockTable`, `Serializability`). The lock table as a class, who may lock
  what beside whom mode by mode, then all interleavings of many transactions as a step relation:
  pairwise compatible locks, acyclic conflict graph, reads and final writes as in the serial order of
  finishing, and readers that never wait for readers.
* **Storage** (`SlottedPage`, `Records`, `RidSupply`, `HeapFile`, `SequentialInvariant`,
  `SequentialFile`). The slotted page on its byte array; the heap file with cached capacities and a
  heap of possibly stale claims; the sequential file with buckets in key order, overflow chains,
  metadata in memory and the 30 percent bound on reclaimable space. RIDs keep fetching their record
  through compaction and reorganization. Over any run none is handed out twice, and a scan lists what
  the run means for a map from RIDs to records.
* **Rollback** (`Session`). A journal played backwards over tables and their indexes. An index may
  refuse a key, so a row reaches some of the indexes only; a kind of index says what it refuses, on
  insert and on removal, from its own state. A rollback may itself be refused part-way; the
  transaction it leaves open is one to go on with, commit or roll back again. A run of requests leaves
  a trace of states in which every step is what its request means; that a rollback which goes through
  brings back the rows of its BEGIN is proved of the trace.
* **External algorithms** (`ExternalHash`, `ExternalSort`, `Spimi`). Partitioned join and group-by,
  runs and multi-pass merge, SPIMI block building with spilling; for the join and for SPIMI also that
  what is held in memory keeps to the limit, by the estimate the code uses.

`Common` and `Sequences` hold what several of them share.

Object methods that change state are Dafny methods on classes with the same fields; loops that build
a value are methods with invariants; computations are functions with lemmas about them. A `ghost`
field or parameter names something the code leaves implicit (the shape of the tree, the stored
multiset, the height of a subtree). Where a contract and a body share a function, a clause or a lemma
beside it says what that function is in the plainest terms: counts, places in a sequence, coordinates,
bytes, lock modes.

## Where the code differs from what it says

* **Deadlock check.** The docstring says the transaction "is part of a wait-for cycle"
  (engine/transactions/strategies/strict_2pl.py:62). The code reports a transaction exactly when a
  cycle is reachable from it (`LockTable.DeadlockIffReachableCycle`), which is more:
  `Serializability.RunReportsOffTheCycle` is a run after which a transaction on no cycle is reported.
* **Rollback and refused keys.** The undo takes a row out of the indexes before the table
  (engine/transactions/session.py:203-208) and puts a row back into the table before the indexes
  (:221-223). Both raise where an index refuses the key, and the rest of the journal is then not
  undone. `Session.TransactionalSession.Rollback` says when, for every step of the journal and from
  the state before the rollback: a live row of the transaction that some index refuses to let go of,
  or a removed row that some index refuses to take. A hash refuses to let go of what it cannot encode,
  a B+ tree of NULL while it has anything to compare it with, which depends on what later steps left
  in it; any index refuses a key it cannot encode or has no room for. Rollback succeeds if and only if
  there is no such step, as long as room depends on the key alone (see below). Three runs show the
  cases: an INSERT of NULL (`Session.NullInsertStopsRollback`), the same row committed and then deleted
  (`Session.CommittedNullStopsRollback`: storage is already back when the error comes), and a tree that
  refuses in one order of two inserts only (`Session.TreeRefusesInOneOrder`).
* **A refused rollback leaves its transaction open.** The error comes before the transaction is
  finished (engine/transactions/transaction_manager.py:24-29, engine/transactions/session.py:92-95), so
  it stays active with its whole journal, also when it was begun for a single statement (:108-123).
  BEGIN then raises, statements run in it, and END commits what is there. A second rollback undoes
  steps again that the first one had undone: rows that were put back are put back once more.
  `Session.TransactionalSession.Rollback` says what any rollback leaves: the rows of the start are back
  exactly when the journal, played back over the rows there are, gives those rows. For the first rollback
  of a transaction it does. `Session.RetriedRollbackRepeats` is a run in which the second reports
  success with a row twice.
* **B+ tree with entries over half a page.** Inserts can then fail although every key fits a page.
  `BPlusTreeIndex.BPlusTree.Insert` says exactly when: at the leaf if it overflows and no cut leaves
  both halves fitting, or further up if that is so of an ancestor that the handed-up separators reach.
  In the second case the leaf below was already split and written: the entry is stored, but the new
  leaf has no separator (`BPlusRuns.ThirdInsertGetsStuck`, from an empty tree with three keys).
  Searches still find everything as long as the keys ascend along the chain. A later insert keeps
  that if and only if no smaller key stands behind the leaf that the separators lead it to; after
  `BPlusRuns.FourthInsertHidesAKey` a search misses a stored key. What searches, scans and removals do
  on such a chain is stated too: they see the stretch from where the separators lead up to the first
  larger key.
* **NULL distances.** A comment in the planner says that `distance` raises on a NULL operand
  (engine/query/planner.py:233-235). The evaluator returns NULL and the comparison is then not true;
  the not-null filter is modelled that way.
* **Removal differs by index.** B+ `remove(key, rid)` drops one match, the hash drops all equal pairs,
  the R-tree drops one match per leaf. The contracts say which.
* **External sort is not stable.** Ties follow the order in which records were pushed to the merge
  heap; the result is stated as a sorted permutation.

## Model

| member | source | states |
|---|---|---|
| BPlusPages.ChooseLeafSplit | engine/indexes/bplus_tree.py:432-465 | the cut is admissible, no admissible cut is nearer to the middle or as near and further left, and none is returned only if no admissible cut exists |
| BPlusPages.ChooseInternalSplit | engine/indexes/bplus_tree.py:467-504 | the same for the separators of an internal node, where the middle key moves up |
| BPlusPages.CutExists | engine/indexes/_bplus_page.py:84-109 | weights of at most half a body each that together overflow it by at most half of it can be cut so that both sides fit |
| BPlusPages.LeafCutExists | engine/indexes/bplus_tree.py:432-465 | a leaf that fitted and overflows by one more entry has an admissible cut if no entry takes more than half a page body |
| BPlusPages.InternalCutExists | engine/indexes/bplus_tree.py:467-504 | the same for an internal node that received one more separator |
| BPlusPages.FitsInBytes | engine/indexes/_bplus_page.py:84-109 | when a node encodes into one page, in bytes and with the ranges of the fields; what half a page and a key that fits a page alone are |
| BPlusLemmas.EntriesSorted | engine/indexes/bplus_tree.py:60-79 | in a tree that satisfies the invariant the leaf chain, read left to right, is sorted by key |
| BPlusLemmas.GrowKeepsInv | engine/indexes/bplus_tree.py:386-430 | a new root over the old one keeps the invariant, the new root being the only page that may be unfinished |
| BPlusSplit.Step.CutKeepsInv | engine/indexes/bplus_tree.py:226-263 | cutting any node that is not the root keeps separators bounding their subtrees, equal depth, parent ids, leaf chain and page sizes; only the parent may overflow afterwards |
| BPlusSplit.Step.CutKeepsEntries | engine/indexes/bplus_tree.py:226-263 | such a cut leaves the sequence of all entries as it was |
| BPlusSteps.LeafSplit | engine/indexes/bplus_tree.py:226-263 | the pages written by a leaf split, with the separator put into the parent, satisfy the invariant and hold the old entries plus the new one in place |
| BPlusSteps.RootLeafSplit | engine/indexes/bplus_tree.py:265-309 | the same when the leaf is the root and a root above it is created |
| BPlusSteps.InternalSplit | engine/indexes/bplus_tree.py:346-384 | the same for an overfull internal node and its grandchildren with their parent ids rewritten |
| BPlusSteps.RootInternalSplit | engine/indexes/bplus_tree.py:386-430 | the same for an overfull internal root |
| BPlusSteps.AddEntry | engine/indexes/bplus_tree.py:46-58 | one more entry at its sorted place keeps everything but possibly the size of that one leaf |
| BPlusTreeIndex.BPlusTree.constructor | engine/indexes/bplus_tree.py:158-178 | a new tree satisfies the invariant and is empty |
| BPlusTreeIndex.BPlusTree.FindLeafPageId | engine/indexes/bplus_tree.py:204-224 | the descent ends in the leftmost leaf that can hold the key, or in the one an insert of the key belongs to |
| BPlusTreeIndex.BPlusTree.Search | engine/indexes/bplus_tree.py:60-79 | on any tree, the one a stuck insert leaves behind included: the RIDs under the key along the chain from where the separators lead, up to the first larger key; on an ordered chain these are all stored under the key, each as often as stored, duplicates spread over several leaves included |
| BPlusTreeIndex.BPlusTree.RangeSearch | engine/indexes/bplus_tree.py:81-102 | on any tree, the same for a closed range; on an ordered chain exactly the RIDs whose key lies in the range, in chain order |
| BPlusLemmas.InRangeIsWithin | engine/indexes/bplus_tree.py:81-102 | the RIDs read off for a range are those of the entries the linear filter keeps, in order |
| BPlusLemmas.WithinSorted | engine/indexes/bplus_tree.py:81-102 | so range results come in non-decreasing key order |
| BPlusLemmas.WithinCounts | engine/indexes/bplus_tree.py:81-102 | and each stored entry in the range occurs exactly as often as it is stored |
| BPlusLemmas.MatchingCounts | engine/indexes/bplus_tree.py:60-79 | a search result holds each RID exactly as often as (key, RID) is stored |
| BPlusLemmas.WithoutCounts | engine/indexes/bplus_tree.py:104-149 | removal takes every entry with the key, or one occurrence of the pair when a RID is given, and nothing else |
| BPlusTreeIndex.BPlusTree.Remove | engine/indexes/bplus_tree.py:104-149 | on any tree: the stretch of the chain from where the separators lead up to the first larger key loses what was asked to go, nothing else is lost, and how many went is returned; on an ordered chain exactly the contents without it are left, and the chain stays ordered |
| BPlusTreeIndex.BPlusTree.RemoveInLeaf | engine/indexes/bplus_tree.py:110-149 | one step of the walk along the chain: the leaves up to here are sifted, the rest is untouched |
| BPlusTreeIndex.BPlusTree.Insert | engine/indexes/bplus_tree.py:36-58 | on any tree and for keys of any size: fails at the leaf if and only if the leaf overflows and has no admissible cut, and then changes nothing; fails further up if and only if some ancestor that overflows in turn has none, and then the entry is stored all the same; otherwise exactly one entry more. The tree is valid afterwards in every case. An ordered chain stays ordered if and only if nothing smaller than the key stands behind the leaf the descent chose. With entries of at most half a page it always succeeds |
| BPlusTreeIndex.BPlusTree.SplitLeaf | engine/indexes/bplus_tree.py:226-263 | contract of the recursive part: contents are the old ones with the entry in place, whether the split reaches the root, gets stuck or neither; which of the three outcomes comes is known from the pages before |
| BPlusTreeIndex.BPlusTree.SplitRootLeaf | engine/indexes/bplus_tree.py:265-309 | the same at the root; nothing is written when there is no admissible cut |
| BPlusTreeIndex.BPlusTree.InsertIntoParent | engine/indexes/bplus_tree.py:311-344 | completes a pending split if and only if no ancestor it reaches gets stuck; the contents do not change either way, and where it gets stuck the pages left of the missing separator are a valid tree |
| BPlusTreeIndex.BPlusTree.SplitInternal | engine/indexes/bplus_tree.py:346-384 | cascades upwards and keeps the contents; fails if and only if the node or an ancestor that overflows has no admissible cut, and then what can still be reached is a valid tree |
| BPlusTreeIndex.BPlusTree.SplitRootInternal | engine/indexes/bplus_tree.py:386-430 | the same where the cascade reaches the root |
| BPlusTreeIndex.BPlusTree.UpdateChildrenParent | engine/indexes/bplus_tree.py:506-512 | all children and no other page get the new parent id |
| BPlusTreeIndex.BPlusTree.SetParentPageId | engine/indexes/bplus_tree.py:514-543 | a page keeps everything but its parent id |
| BPlusCascade.StuckFrame | engine/indexes/bplus_tree.py:311-384 | whether the cascade gets stuck depends on the nodes from the parent upwards only |
| BPlusCascade.InternalSplitLeavesAbove | engine/indexes/bplus_tree.py:346-384 | cutting a node, with its grandchildren's parent ids rewritten, leaves open exactly the question it left before |
| BPlusPrune.Loss.RestIsTree | engine/indexes/bplus_tree.py:346-384 | a separator that could not be entered loses a whole subtree: the nodes without it still satisfy the invariant, with the same depth everywhere, parent ids, sizes and bounds |
| BPlusChain.LossView | engine/indexes/bplus_tree.py:346-384 | the leaves of that subtree stay on the chain, behind the last leaf left of them, so no entry leaves the chain, and an ordered chain stays ordered |
| BPlusChain.OrderedIsSorted | engine/indexes/bplus_tree.py:60-79 | where what stands behind a leaf keeps to the interval of that leaf, the keys ascend along the whole chain |
| BPlusChain.AddKeepsOrder | engine/indexes/bplus_tree.py:46-58 | an entry that goes to a leaf with nothing smaller behind it keeps that so |
| BPlusChain.AddBreaksOrder | engine/indexes/bplus_tree.py:46-58 | an entry larger than one that stands behind its leaf leaves a chain that does not ascend |
| BPlusMoves.CannotCut | engine/indexes/bplus_tree.py:467-504 | if an internal node cannot be split, one of its keys or the new one takes more than half a page |
| BPlusMoves.AfterInsert | engine/indexes/bplus_tree.py:36-58 | one entry more in one leaf, however its pages are split then: the chain holds exactly that entry more, and stays ordered if and only if nothing smaller stands behind that leaf |
| BPlusRuns.ThirdInsertGetsStuck | engine/indexes/bplus_tree.py:467-504 | a run from an empty tree: three keys, each of which fits a leaf, and the third insert stores its entry and then fails at the root |
| BPlusRuns.FourthInsertHidesAKey | engine/indexes/bplus_tree.py:60-79 | the same run and a fourth key: the chain now holds 1, 2, 4 and 3, and a search for 3 answers nothing although (3, RID) is stored |
| BPlusTreeIndex.Replay | engine/indexes/bplus_tree.py:36-149 | over any run of inserts, removes, lookups and range scans from any tree, with keys of any size: as long as the chain is ordered, every step does what it means for a multiset: an insert adds its entry or answers that nothing changed, a removal answers how many entries went, a lookup each RID as often as stored, a scan the RIDs in the range by ascending key; no step ever loses or answers anything that was not asked for; from a tree that reaches all its leaves, a new one say, the chain stays ordered at least until an insert after one whose page was left unreached, which never happens with entries of at most half a page |
| LockTable.GrantKeepsWellFormed | engine/transactions/strategies/strict_2pl.py:85-95 | a grant keeps the locks on every resource pairwise compatible, upgrades included |
| LockTable.RefusedMeansConflict | engine/transactions/strategies/strict_2pl.py:85-95 | a refused request really conflicts with a lock held by another transaction |
| LockTable.ReleaseKeepsWellFormed | engine/transactions/strategies/strict_2pl.py:142-150 | releasing everything frees exactly the locks of that transaction and keeps the table consistent |
| LockTable.DeadlockIffReachableCycle | engine/transactions/strategies/strict_2pl.py:61-83 | the check ends and reports a transaction if and only if a wait-for cycle is reachable from it |
| LockTable.EveryMemberReported | engine/transactions/strategies/strict_2pl.py:61-83 | every member of a deadlock is reported |
| LockTable.StandstillIsReported | engine/transactions/strategies/strict_2pl.py:61-83 | when whoever holds up a waiting transaction is waiting too, every waiting transaction is reported |
| LockTable.StrictTwoPhaseLocking.TryAcquire | engine/transactions/strategies/strict_2pl.py:97-116 | one round of the polling loop, in the modes themselves: with the stronger of the held and the requested mode, Shared is granted if and only if no other transaction holds Exclusive there, Update if and only if all others hold Shared, Exclusive if and only if nobody else holds the resource; granted, the lock has that mode and one acquisition more and nothing else changes; refused, only the waiting map does |
| LockTable.GrantedWhen | engine/transactions/strategies/strict_2pl.py:22-38 | who may lock what beside whom, mode by mode, and the grants afterwards |
| LockTable.StrictTwoPhaseLocking.StopWaiting | engine/transactions/strategies/strict_2pl.py:117-127 | a reported or timed out transaction waits for nothing any more, all others as before |
| LockTable.StrictTwoPhaseLocking.IsDeadlocked | engine/transactions/strategies/strict_2pl.py:61-83 | the answer is the existence of a walk along waiting transactions and those that hold what they wait for, which returns to itself |
| LockTable.StrictTwoPhaseLocking.Release | engine/transactions/strategies/strict_2pl.py:129-140 | one acquisition less; a lock is gone afterwards if and only if this was its last acquisition; all other locks stay as they are |
| LockTable.StrictTwoPhaseLocking.ReleaseAll | engine/transactions/strategies/strict_2pl.py:142-150 | exactly the locks and the wait of the transaction are gone; every other lock keeps its mode and count |
| Serializability.InvNext | engine/transactions/strategies/strict_2pl.py:97-150 | every step of any interleaving keeps the invariant of locks and history |
| Serializability.RunInv | engine/transactions/transaction_manager.py:44-68 | so every reachable state of every run satisfies it |
| Serializability.LocksExclude | engine/transactions/strategies/strict_2pl.py:85-95 | two transactions never hold locks that cover conflicting accesses |
| Serializability.AccessAllowed | engine/transactions/strategies/strict_2pl.py:22-38 | the discipline of accesses: any lock allows to read, an Exclusive one to write, and nothing else does |
| Serializability.ReadersPassEachOther | engine/transactions/strategies/strict_2pl.py:85-95 | in any run, a transaction that only ever asked for Shared is refused if and only if someone holds the resource exclusively, and that one has asked for more |
| Serializability.ReadersNeverWait | engine/transactions/strategies/strict_2pl.py:85-95 | so in a run in which everybody asks for Shared only, nobody ever waits |
| Serializability.ConflictGraphAcyclic | engine/transactions/transaction_manager.py:57-68 | in every run in which locks are released only at the end the conflict graph has no cycle |
| Serializability.EdgeFollowsFinish | engine/transactions/transaction_manager.py:57-68 | conflict edges go from the transaction that finishes earlier to the one that finishes later |
| Serializability.SerialOrderIsSerial | engine/transactions/transaction_manager.py:57-68 | ordering events by finish is a strict total order in which transactions do not interleave |
| Serializability.SerialOrderAgrees | engine/transactions/transaction_manager.py:57-68 | conflicting accesses, and those of one transaction, keep their order in it |
| Serializability.ReadsAreSerial | engine/transactions/transaction_manager.py:57-68 | each access sees the same write as in the serial execution |
| Serializability.FinalWritesAreSerial | engine/transactions/transaction_manager.py:57-68 | the last write of every resource is that of the serial execution |
| Serializability.RunReportsOffTheCycle | engine/transactions/strategies/strict_2pl.py:61-83 | a run of three transactions after which the check reports one that is on no cycle, against the docstring |
| HashPages.AddEntry | engine/indexes/_hash_page.py:164-181 | the page keeps its depth and link, has the entry last and its free offset counts it |
| HashPages.WriteEntries | engine/indexes/_hash_page.py:184-191 | rewriting gives exactly these entries with a correct free offset |
| HashPages.RemoveEntries | engine/indexes/_hash_page.py:194-207 | all entries with the key, or the key and the RID when one is given, go, and their number is returned; what is left are exactly the others, each as often as it was and in order |
| HashPages.UnmatchedCounts | engine/indexes/_hash_page.py:194-207 | how often each entry is left, and at which places of the page those that stay were |
| HashPages.OneMoreBit | engine/indexes/extendible_hash.py:233-259 | one more bit of the suffix: a remainder by twice the power is the old one, or that plus the power |
| HashPages.ModMod | engine/indexes/extendible_hash.py:202-217 | a longer suffix determines every shorter one |
| HashTable.SuffixFinds | engine/indexes/extendible_hash.py:202-217 | the directory leads a key to a bucket if and only if its hash ends in that bucket's label |
| HashTable.RewriteKeepsInv | engine/indexes/extendible_hash.py:89-139 | rewriting one page of a chain keeps the invariant, the contents following the page |
| HashTable.DoubleKeepsInv | engine/indexes/extendible_hash.py:261-277 | doubling keeps every bucket reachable from exactly the slots that share its suffix |
| HashTable.SplitKeepsInv | engine/indexes/extendible_hash.py:233-259 | a split keeps directory, labels, local depths, chains and contents |
| HashTable.SplitSorts | engine/indexes/extendible_hash.py:233-259 | each entry of the split bucket goes to the half its next bit names, as often as it was there |
| HashTable.SplitHome | engine/indexes/extendible_hash.py:233-259 | a key is looked up where its entries went; all other keys where they were |
| HashTable.ChainedKeepsInv | engine/indexes/extendible_hash.py:279-296 | a new overflow page, only at the maximum depth, keeps the invariant |
| ExtendibleHashIndex.ExtendibleHash.constructor | engine/indexes/extendible_hash.py:46-63 | a new index is empty with global depth 0 |
| ExtendibleHashIndex.ExtendibleHash.Open | engine/indexes/extendible_hash.py:171-176 | opening the file that an index has left gives the same table, its fields being read from the metadata page |
| ExtendibleHashIndex.ExtendibleHash.DirectorySlot | engine/indexes/extendible_hash.py:202-208 | the slot read from its directory page |
| ExtendibleHashIndex.ExtendibleHash.Chain | engine/indexes/extendible_hash.py:219-231 | the walk ends and visits exactly the pages of the bucket |
| ExtendibleHashIndex.ExtendibleHash.Search | engine/indexes/extendible_hash.py:115-124 | each RID exactly as often as (key, RID) is stored |
| ExtendibleHashIndex.ExtendibleHash.Remove | engine/indexes/extendible_hash.py:131-139 | every pair with the key, or with the key and the RID when one is given, is gone, every other is stored as often as before, and the count is returned |
| ExtendibleHashIndex.ExtendibleHash.RemoveFromPage | engine/indexes/extendible_hash.py:131-139 | one page of the chain loses its matching entries, the others none |
| ExtendibleHashIndex.ExtendibleHash.Insert | engine/indexes/extendible_hash.py:89-113 | one more pair, or no change with the reason, and which it is is known from the table before: too large exactly when header, key and RID take more than a page; directory full exactly when at some depth the directory cannot be doubled for want of room in the metadata page and the entries of the key's bucket that agree with the key on that many bits of the hash leave no room for it; the loop ends because the local depth of the target bucket grows |
| ExtendibleHashIndex.FullWhen | engine/indexes/extendible_hash.py:89-113 | when an insert meets a full directory, in terms of bytes, slots and bits of the hash |
| ExtendibleHashIndex.ExtendibleHash.InsertIntoOverflow | engine/indexes/extendible_hash.py:279-296 | a full bucket at the maximum depth takes the pair on its last page or on a new one |
| ExtendibleHashIndex.ExtendibleHash.DoubleDirectory | engine/indexes/extendible_hash.py:261-277 | the directory twice over, contents and buckets as before, or no change when it does not fit |
| ExtendibleHashIndex.ExtendibleHash.SplitBucket | engine/indexes/extendible_hash.py:233-259 | contents unchanged, the key's bucket one bit deeper and left with exactly the entries that share that bit, or no change when the directory is full |
| HashPages.SharingHalf | engine/indexes/extendible_hash.py:233-259 | splitting on one bit more keeps, of the entries that agree with the key so far, those that agree on that bit too |
| HashPages.SharingShrinks | engine/indexes/extendible_hash.py:89-113 | the longer the suffix, the fewer bytes the entries take that share it with the key |
| HashTable.HomeSharesSuffix | engine/indexes/extendible_hash.py:202-217 | all entries on the first page of a bucket agree with the key looked up there on as many bits as the local depth says |
| ExtendibleHashIndex.ExtendibleHash.DivideBucket | engine/indexes/extendible_hash.py:237-259 | the part after doubling: contents unchanged, local depth plus one |
| ExtendibleHashIndex.ExtendibleHash.SortEntries | engine/indexes/extendible_hash.py:240-244 | entries with next bit 0 stay, those with 1 move, both in order |
| ExtendibleHashIndex.ExtendibleHash.RedirectSlots | engine/indexes/extendible_hash.py:253-259 | exactly the slots that end in the longer suffix point to the new bucket |
| ExtendibleHashIndex.FitsMonotone | engine/indexes/_hash_page.py:75-85 | a directory that fits at some depth fits at every smaller one |
| RTreeNodes.TightUnion | engine/indexes/rtree/mbr.py:27-34 | the union of two least boxes is the least box of all their points |
| RTreeNodes.LeafCover | engine/indexes/rtree/node.py:39-46 | the box computed for a leaf is the least one: it contains all points and each side touches one |
| RTreeNodes.InternalCover | engine/indexes/rtree/node.py:39-46 | the same for an internal node, over every point below it |
| RTreeNodes.GrowthIs | engine/indexes/rtree/mbr.py:27-44 | area, union and enlargement of boxes, written out in their corners |
| RTreeNodes.SearchIsFilter | engine/indexes/rtree/rtree.py:214-223 | point search with pruning is the linear filter over all entries, in order |
| RTreeNodes.RangeIsFilter | engine/indexes/rtree/rtree.py:225-234 | window search with pruning is the linear filter, in order |
| RTreeSplit.FirstMaxIs | engine/indexes/rtree/rtree.py:171-180 | the chosen entry is the first of those with the largest preference |
| RTreeSplit.ChosenIsFirstEqual | engine/indexes/rtree/rtree.py:171-189 | removing the chosen entry by equality removes the chosen position |
| RTreeSplit.DistributeKeeps | engine/indexes/rtree/rtree.py:146-199 | both halves have at least the minimum and together exactly the entries |
| RTreeSplit.PickSeeds | engine/indexes/rtree/rtree.py:201-212 | the first pair that wastes the most area, the waste written out in corners |
| RTreeSplit.SentWhere | engine/indexes/rtree/rtree.py:171-199 | the half that grows less takes an entry, of two that grow alike the smaller one, of two alike the left one |
| RTreeSplit.QuadraticSplit | engine/indexes/rtree/rtree.py:146-199 | the halves come of handing out all other entries to the first pair that wastes most, with their exact boxes, and lose nothing |
| RTreeSplit.PickNext | engine/indexes/rtree/rtree.py:171-180 | the first entry with the greatest difference of enlargements |
| RTreeIndex.ChooseChild | engine/indexes/rtree/rtree.py:133-144 | the first child with least enlargement, smallest area breaking ties, both written out in corners |
| RTreeIndex.SplitLeaf | engine/indexes/rtree/rtree.py:146-199 | two well-formed leaves, each with at least max(1, order/2) entries, that are the quadratic halves of the entries |
| RTreeIndex.SplitInternal | engine/indexes/rtree/rtree.py:146-199 | the same for internal nodes |
| RTreeIndex.InsertInto | engine/indexes/rtree/rtree.py:114-131 | the node, or the two it became, stay well-formed at the same height and hold one more entry; below an internal node only the child that grows least by the point changed |
| RTreeIndex.TakeUp | engine/indexes/rtree/rtree.py:114-131 | a node takes up what a child handed up behind its other children and splits into quadratic halves if that is too much |
| RTreeIndex.RTree.Insert | engine/indexes/rtree/rtree.py:49-60 | keeps exact boxes, equal depth and capacities; exactly one more entry |
| RTreeIndex.RTree.Search | engine/indexes/rtree/rtree.py:62-65 | each RID exactly as often as it is stored at the point, in tree order: the answers stand at increasing places of the contents, which are all that have both coordinates of the point |
| RTreeIndex.RTree.RangeSearch | engine/indexes/rtree/rtree.py:67-77 | the same for the box of two corners given in any order, the four comparisons written out |
| RTreeIndex.RTree.Remove | engine/indexes/rtree/rtree.py:79-85 | without a RID exactly the entries at the point go and the rest keeps its order, at places that are written out; with one the pair goes once from every leaf that holds it; the count is exact and positive if and only if the pair was stored |
| RTreeIndex.RemoveFrom | engine/indexes/rtree/rtree.py:236-264 | emptied children are pruned, boxes are exact again, skipped subtrees had nothing to remove |
| RTreeIndex.StrippedNone | engine/indexes/rtree/rtree.py:236-264 | without a RID removal is the filter of all entries away from the point |
| RTreeIndex.StrippedPair | engine/indexes/rtree/rtree.py:236-264 | with a RID the pair loses one occurrence per leaf that holds it and nothing else is lost |
| RTreeIndex.StrippedLength | engine/indexes/rtree/rtree.py:236-264 | the entries that went are as many as the leaves that hold the pair |
| RTreeIndex.LeavesWithPositive | engine/indexes/rtree/rtree.py:236-264 | some leaf holds the pair if and only if it is stored |
| RTreeIndex.StrippedNothing | engine/indexes/rtree/rtree.py:254-257 | a subtree whose box excludes the point would not change |
| PageStore.GiveOut | engine/indexes/rtree/_page_store.py:143-147 | a page number given out during a save is the node's old one or new, so no node gets the page of another live node |
| PageStore.OkIsFresh | engine/indexes/rtree/_page_store.py:105-118 | every tree the R-tree keeps has the recomputed boxes that loading checks for |
| PageStore.StoredUnique | engine/indexes/rtree/_page_store.py:149-180 | two trees stored at one page are the same tree on the same pages |
| PageStore.StoredFrame | engine/indexes/rtree/_page_store.py:120-141 | a stored tree depends on no pages but those of its own nodes |
| PageStore.RTreePageStore.PageIdFor | engine/indexes/rtree/_page_store.py:143-147 | a known node keeps its page; otherwise a new page is added and no other changes |
| PageStore.RTreePageStore.SaveNode | engine/indexes/rtree/_page_store.py:120-141 | the subtree is stored, page numbers stay distinct, no page of any other node changes |
| PageStore.RTreePageStore.Save | engine/indexes/rtree/_page_store.py:88-103 | refused exactly when the order is below two or a page cannot hold the header and that many entries of either kind; otherwise the file holds the tree and nodes saved before keep their pages |
| PageStore.RTreePageStore.LoadNode | engine/indexes/rtree/_page_store.py:149-180 | for any file: what comes back is what the pages say, with distinct pages and new objects, and the walk ends; a stored tree with exact boxes always comes back |
| PageStore.RTreePageStore.Load | engine/indexes/rtree/_page_store.py:105-118 | what comes back is what the file holds; a saved tree comes back with equal contents, none of the checks refusing it |
| PageStore.RTreePageStore.SaveAndReload | engine/indexes/rtree/_page_store.py:88-118 | over any run of saves of changing trees, loading gives the last one |
| Knn.EuclideanBoundIsAdmissible | engine/algorithms/spatial/bounds.py:15-21 | the distance to the nearest point of a box never exceeds that of a point in it |
| Knn.EuclideanBoundIsTight | engine/algorithms/spatial/bounds.py:15-21 | some point of the box is at exactly that distance |
| Knn.LengthIs | engine/algorithms/spatial/bounds.py:15-21 | what the euclidean distance is, and that it is unique |
| Knn.SortedUnique | engine/algorithms/spatial/knn.py:35-42 | the rank (distance, x, y, page, slot) leaves one sorted order |
| Knn.NearestIsFirst | engine/algorithms/spatial/knn.py:35-42 | sort and take are what they should be: a permutation of all entries ascending by distance, then x, y, page and slot, written out, and of it the first k |
| Knn.FrontOfSorted | engine/algorithms/spatial/knn.py:73-199 | candidates that nothing left out ranks before are the front of the sorted whole |
| Knn.SkippedRankAfter | engine/algorithms/spatial/knn.py:73-199 | whatever is farther than the reach ranks after every candidate |
| Knn.Offer | engine/algorithms/spatial/knn.py:73-199 | a hit is taken while there is room, else only in place of the worst |
| Knn.ScanLeaf | engine/algorithms/spatial/knn.py:73-199 | every entry of a leaf ends up a candidate or ranks after all of them |
| Knn.PushChildren | engine/algorithms/spatial/knn.py:73-199 | every child is pushed or everything below it ranks after the candidates |
| Knn.Visit | engine/algorithms/spatial/knn.py:73-199 | one round keeps: frontier, candidates and discarded hits together are all entries |
| Knn.SearchFrom | engine/algorithms/spatial/knn.py:73-199 | the loop ends with candidates that nothing discarded ranks before |
| Knn.KnnHits | engine/algorithms/spatial/knn.py:73-199 | exactly the first k of all entries, put into ascending order of distance, x, y, page and slot, for every metric with an admissible bound; refused exactly when k is not positive |
| SpatialScan.WindowQuerySound | engine/algorithms/spatial/range_query.py:16-64 | a box that does not meet the window holds no wanted point |
| SpatialScan.RadiusQuerySound | engine/algorithms/spatial/range_query.py:67-121 | a box whose bound exceeds the radius holds no wanted point |
| SpatialScan.PushReversed | engine/algorithms/spatial/range_query.py:53-64 | pushing children in reverse keeps the left-to-right order |
| SpatialScan.StackScan | engine/algorithms/spatial/range_query.py:16-121 | the stack traversal gives the linear filter over all entries, in tree order: what is found stands at increasing places of the contents, which are all whose point is wanted |
| SpatialScan.WantedAt | engine/algorithms/spatial/range_query.py:16-121 | the linear filter written out: the wanted entries and their places |
| KnnPlan.SortRowsStable | engine/query/operators.py:734-753 | rows at one distance keep their input order, so ties follow the scan |
| KnnPlan.SortRanks | engine/query/operators.py:734-753 | the sorted filtered rows are a ranking: each located row once, ascending by distance, rows at one distance in input order |
| KnnPlan.AnswerIsPage | engine/query/operators.py:810-822 | the answer is a page of that ranking: from the offset on, at most limit rows |
| KnnPlan.CandidatesAreLive | engine/query/operators.py:420-443 | every entry of an index that agrees with the table names a live row |
| KnnPlan.IndexedRowsAreFront | engine/query/operators.py:420-443 | when the index settles the answer, its rows sorted are the front of the sorted filtered table |
| KnnPlan.KnnPlanEqualsScan | engine/query/planner.py:476-557 | index plan and scan plan give the same rows in the same order for every limit and offset, ties and fallbacks included |
| KnnOperators.Leaf.IndexedRows | engine/query/operators.py:420-443 | the operator returns the rows of the specification or falls back |
| KnnOperators.Leaf.Open | engine/query/operators.py:445-452 | the cursor stands before all rows of the index answer or of the table |
| KnnOperators.Filter.Next | engine/query/operators.py:553-561 | the next row of the filtered input, nothing skipped |
| KnnOperators.Filter.Open | engine/query/planner.py:236-237 | the rows to come are those of the input with a known distance |
| KnnOperators.Sort.Open | engine/query/operators.py:734-753 | the rows to come are the sorted filtered input |
| KnnOperators.Limit.Open | engine/query/operators.py:805-808 | the rows to come are those of a ranking of the child's rows from the offset on, at most limit of them |
| KnnOperators.Limit.Next | engine/query/operators.py:810-822 | the offset is skipped once, then rows come until the quota is used up |
| KnnOperators.CutIs | engine/query/operators.py:810-822 | the cut is the rows from offset on, at most limit of them |
| KnnOperators.RunPlan | engine/query/planner.py:179-252 | with or without the index, the rows of the full table with a location, each once, ascending by distance and at one distance in table order, from the offset on and at most limit of them |
| RadiusPlan.WindowContainsCircle | engine/query/planner.py:602-668 | no point within the radius lies outside the box the index is asked for |
| RadiusPlan.LeafIsBox | engine/query/operators.py:317-339 | the leaf delivers exactly the rows located in the box, each as often as the table has it |
| RadiusPlan.RadiusPlanEqualsScan | engine/query/planner.py:602-668 | the radius plan returns the rows of the table whose distance is below the radius, or at most the radius when the bound is included, each as often as the table has it |
| SlottedPages.InsertIs | engine/storage/_slotted_page.py:42-54 | a new slot at the end with the record, all other slots alone, capacity less record and slot entry |
| SlottedPages.DeleteIs | engine/storage/_slotted_page.py:110-121 | a tombstone; the slot is never reused and its bytes become reclaimable |
| SlottedPages.CompactIs | engine/storage/_slotted_page.py:76-97 | every slot reads as before and free space grows by exactly the reclaimable space |
| SlottedPages.RoomAfterCompact | engine/storage/_slotted_page.py:70-97 | after compaction a record fits if and only if free and reclaimable space together hold it |
| SlottedPages.CapacityIs | engine/storage/_slotted_page.py:10-40 | in bytes: what a page can still take, what a new one takes, and the largest record |
| SlottedPages.SlottedPage.InsertRecord | engine/storage/_slotted_page.py:42-54 | on the bytes: refused exactly when record and slot do not fit between the slot directory and the free offset, otherwise one more slot holds the record and all others read as before |
| SlottedPages.SlottedPage.ReadRecord | engine/storage/_slotted_page.py:57-67 | the bytes of a live slot, nothing for a tombstone or an unknown slot |
| SlottedPages.SlottedPage.DeleteRecord | engine/storage/_slotted_page.py:110-121 | on the bytes: true exactly for a live slot |
| SlottedPages.SlottedPage.CompactPage | engine/storage/_slotted_page.py:76-97 | repacking in place changes no record |
| RidSupply.GivenIsNew | engine/storage/_slotted_page.py:42-121 | a RID that a run hands out did not exist at its start, as a live slot or a tombstone |
| RidSupply.NeverGivenTwice | engine/storage/_slotted_page.py:42-121 | in no run of a file is a RID given out twice, whatever was removed in between |
| Records.PlacedThere | engine/storage/_slotted_page.py:42-54 | one more slot on one page, which may be new, stores a record under a RID that was never issued and moves no other |
| Records.RunMeans | engine/storage/heap_file.py:30-76 | after a run the pages hold the records of the start with those stored added and those removed gone |
| Records.RunGivesNew | engine/storage/_slotted_page.py:42-121 | no RID of a run is handed out twice, and none that existed at the start |
| HeapFiles.HeapFile.InsertRecord | engine/storage/heap_file.py:30-53 | refused exactly when larger than a page takes; the RID is the next slot of its page and nothing else changes; the page is the preferred one, and one is added exactly when no page of the file has free plus reclaimable space |
| HeapFiles.HeapFile.StoreOn | engine/storage/heap_file.py:43-53 | on a page with enough capacity the insert cannot fail and the noted capacity is the true one |
| HeapFiles.HeapFile.FindPageWithRoomFor | engine/storage/heap_file.py:92-118 | the preferred page: the active one if it is known to have room, else of the known ones the first with most room, else the active one, else any page not measured yet; none exactly when no page has room |
| HeapFiles.HeapFile.BestKnown | engine/storage/heap_file.py:100-107 | dropping stale claims from the heap ends with the page of largest known capacity |
| HeapFiles.HeapFile.SetCapacity | engine/storage/heap_file.py:127-131 | cached capacities stay exact, each has its claim in the heap, and the heap never holds more than two claims a known page |
| HeapFiles.HeapFile.RebuildHeap | engine/storage/heap_file.py:133-138 | one true claim a page |
| HeapFiles.HeapFile.MeasurePage | engine/storage/heap_file.py:120-125 | the capacity of the page as it is |
| HeapFiles.HeapFile.RemoveRecord | engine/storage/heap_file.py:67-76 | true exactly for a live record; it is gone, every other RID fetches what it did, and no page loses a slot |
| HeapFiles.HeapFile.Scan | engine/storage/heap_file.py:78-87 | every live record exactly once in RID order |
| HeapFiles.HeapFile.Reopen | engine/storage/heap_file.py:17-28 | opening an existing file: no capacity is known, every page is still to be measured |
| HeapFiles.Replay | engine/storage/heap_file.py:30-87 | over any run of inserts and removes: every RID handed out differs from all before it, removed ones included, and from all of the start; and a scan afterwards lists, in RID order, each exactly once, the records that the run leaves of those at the start as a map from RID to record |
| SequentialInvariant.MetaUnique | engine/storage/sequential_file.py:313-331 | there is one correct value of the in-memory metadata |
| SequentialInvariant.WasteIs | engine/storage/sequential_file.py:119-150 | the sums taken along the chains are those over all pages of the file, so dead bytes stay within 30 percent of the occupied ones |
| SequentialInvariant.NewBodyKeepsInv | engine/storage/sequential_file.py:47-82 | exchanging the body of one page keeps chains, key order of buckets and the waste bound |
| SequentialInvariant.NewOverflowKeepsInv | engine/storage/sequential_file.py:223-263 | so does an overflow page behind its bucket |
| SequentialInvariant.NewBucketKeepsInv | engine/storage/sequential_file.py:77-80 | so does a new bucket behind the last one |
| SequentialFiles.TryInsert | engine/storage/sequential_file.py:60-77 | the record goes in exactly when free and reclaimable space hold it, and compaction on the way never worsens the ratio |
| SequentialFiles.SequentialFile.TargetMain | engine/storage/sequential_file.py:212-221 | the first bucket whose largest key is not below the key, if some bucket has such a key, else the last; which of the two it was is the second result |
| SequentialFiles.SequentialFile.InsertRecord | engine/storage/sequential_file.py:47-82 | refused exactly for a record larger than a page takes; the RID is the next slot of its page and every other record stays; the page is the first with room in the bucket for the key (the first bucket that reaches it, else the last, of which only the main page is tried), else a new one at the end of that bucket or, for a key above all others, of a new bucket; keys of a bucket stay below those of the next; reclaimable stays within 30 percent of occupied |
| SequentialFiles.SequentialFile.InsertIntoOverflow | engine/storage/sequential_file.py:223-263 | the chain of the bucket takes the record, growing by one page if it must |
| SequentialFiles.SequentialFile.AppendMain | engine/storage/sequential_file.py:77-80 | a key above all others opens a bucket |
| SequentialFiles.SequentialFile.RemoveRecord | engine/storage/sequential_file.py:96-117 | exactly that record is gone, all other RIDs fetch what they did and no page loses a slot; when more than 30 percent of the occupied bytes of the file are then dead, every page is compacted, otherwise no other page changes |
| SequentialFiles.SequentialFile.GlobalWasteStats | engine/storage/sequential_file.py:122-150 | the sums of reclaimable and occupied bytes over all pages |
| SequentialFiles.SequentialFile.ReorganizeGlobally | engine/storage/sequential_file.py:152-180 | no reclaimable byte is left and every slot reads as before |
| SequentialFiles.SequentialFile.BucketMax | engine/storage/sequential_file.py:294-311 | the largest live key of a bucket |
| SequentialFiles.SequentialFile.RebuildChainMetadata | engine/storage/sequential_file.py:313-331 | whatever is in memory, reading the chains of the file gives the one right metadata, which is what the file was closed with |
| SequentialFiles.SequentialFile.Scan | engine/storage/sequential_file.py:186-210 | every live record exactly once in ascending key order |
| SequentialFiles.SequentialFile.ScanBucket | engine/storage/sequential_file.py:189-208 | the live records of one bucket in order of key, page and slot |
| SequentialFiles.BucketBehind | engine/storage/sequential_file.py:186-210 | records of a later bucket belong behind all found before |
| SequentialFiles.Replay | engine/storage/sequential_file.py:47-210 | over any run of inserts and removes: every RID handed out differs from all before it, removed ones included, and from all of the start; and a scan afterwards lists, in ascending key order, each exactly once, the records that the run leaves of those at the start as a map from RID to record |
| Session.TransactionalSession.IndexRow | engine/transactions/session.py:225-246 | the indexes before the first that refuses the key get its entry, those behind it stay as they were, and the refusing one has it only if it is a tree that stores the entry and then raises; it raises exactly when some index refuses: NULL outside a spatial index, a key that cannot be encoded, no room |
| Session.TransactionalSession.UnindexRow | engine/transactions/session.py:248-261 | indexes before the first refusal lose the entry; a hash refuses what it cannot encode, a tree refuses NULL exactly when it has separators or entries to compare it with |
| Session.IndexRules | engine/transactions/session.py:225-261 | what one index does with a row's value, in terms of the row alone: an insert raises for NULL outside a spatial index, for a key that cannot be encoded and for want of room; a removal for what a hash cannot encode, and for NULL in a tree with something to compare it with; the entry that comes or goes is (value, RID) |
| Session.ReachIs | engine/transactions/session.py:225-246 | a row reaches the indexes before the first that raises, and that one too if it keeps the entry all the same |
| Session.TransactionalSession.InsertRow | engine/query/executor.py:160-180 | in any open transaction, one that an earlier refused rollback left open included: the row is stored under a RID never issued before and noted in the journal even when an index refuses its key; which indexes it then reached |
| Session.TransactionalSession.RemoveRow | engine/query/executor.py:183-204 | in any open transaction: the row is gone and noted in the journal before the indexes are told, whether or not one of them raises |
| Session.TransactionalSession.TakeBack | engine/transactions/session.py:203-208 | undo of an insert: the indexes, then the table; a row already gone is skipped; raises exactly when an index refuses to let go, and then the row stays |
| Session.TransactionalSession.PutBack | engine/transactions/session.py:221-223 | undo of a removal under a RID never issued before, indexed as far as the indexes take it; raises exactly when one refuses it, the row then being back |
| Session.TransactionalSession.UndoStep | engine/transactions/session.py:185-223 | one step of the undo: what the steps behind it left is undone by one more, or the step is refused, for the reason foreseen |
| Session.TransactionalSession.Rollback | engine/transactions/session.py:92-95 | in any open transaction: undoes the journal backwards down to the last step whose undo is refused, which is known from the state before: taking an insert back that an index will not let go of, or putting a row back that an index will not take. It succeeds exactly when there is no such step; otherwise the transaction stays open with its whole journal. However it ends, the rows that the remaining steps had left are there, in place if they had not been removed and otherwise at RIDs never issued before; so the rows of the start are back exactly when those are the rows of the start, and always when it succeeds in a transaction none of whose rollbacks was refused; and every index holds exactly (value, RID) of the rows that reached it |
| Session.TransactionalSession.Commit | engine/transactions/session.py:87-90 | an error when none is active; otherwise whatever the statements and refused rollbacks left, rows that an index refused included, is where the next transaction starts |
| Session.TransactionalSession.Begin | engine/transactions/session.py:79-85 | an error while a transaction is active, which it is after a refused rollback; otherwise the rows there are now are those to go back to |
| Session.TransactionalSession.InsertValues | engine/query/executor.py:160-180 | an INSERT of several rows stores them in order at distinct places never used before and journals them, each entering the indexes as far as they take it; all of them, or, when an index raises, a non-empty first part that ends with the row that was refused |
| Session.TransactionalSession.DeleteRows | engine/query/executor.py:183-204 | a DELETE removes rows in order from table and indexes and journals each with its row, all of them or, when an index raises, a first part with at least one row that was there; rows already gone are skipped |
| Session.TransactionalSession.RunStatement | engine/transactions/session.py:103-123 | what one statement does to rows, indexes and journal, whether it succeeds or fails |
| Session.TransactionalSession.Execute | engine/transactions/session.py:103-123 | in an open transaction the statement itself; outside one, the statement and then a commit, or, when it fails, its undo: the rows are then as before, RIDs aside; or that undo is refused and the transaction it began stays open for the next statement |
| Session.TransactionalSession.Handle | engine/transactions/session.py:79-145 | every request, in rows, indexes, journal and start: BEGIN and END leave the rows alone; ROLLBACK in an open transaction undoes its journal, and a RolledBack first one gives the rows of the start, RIDs aside; a refused or repeated one gives them exactly when the steps it left in effect do; an INSERT that is Done added its rows at new places, a DELETE that is Done removed exactly the rows it names; and which of them succeed, fail or leave a transaction open |
| Session.Replay | engine/transactions/session.py:79-223 | over any run of requests, a trace in which every request did what Handle says, from the state before it to that after it; the indexes hold exactly the entries of the rows that reached them; if that was every live row in every index it stays so without a failed statement in an open transaction and without a refused undo |
| Session.RollbackGoesBack | engine/transactions/session.py:79-95 | in any run: BEGIN, any statements, and a rollback that goes through, and the rows are those of the BEGIN, RIDs aside |
| Session.TransactionalSession.StoreRecord | engine/storage/_slotted_page.py:42-54 | a table gives out the next slot of a page and nothing else |
| Session.RefusalForeseen | engine/transactions/session.py:248-261 | whether an index refuses part-way through a rollback is decided by the state before it: what is held by then follows from the journal |
| Session.RestoredTogether | engine/transactions/session.py:185-223 | tables with the same rows, RIDs aside, are restored or not together |
| Session.OwnRowInNet | engine/transactions/session.py:203-208 | a row of the transaction is there until the undo comes to its insert, unless it was removed since |
| Session.TxOkInsert | engine/query/executor.py:160-180 | a journal with one more insert still explains how the rows came from those of the start |
| Session.TxOkRemove | engine/query/executor.py:183-204 | so does one with one more removal, of a row of the start or of an own one; no row is ever removed twice |
| Session.CompleteAgrees | engine/transactions/session.py:225-246 | when every live row reached all indexes, each holds exactly (value, RID) of the rows with a value |
| Session.NullInsertStopsRollback | engine/query/executor.py:160-180 | a run: an INSERT of NULL into a column with a hash index raises, and rollback raises too and leaves the row |
| Session.CommittedNullStopsRollback | engine/transactions/session.py:221-223 | a run: the same row committed, then deleted; rollback raises although the row is back |
| Session.TreeRefusesInOneOrder | engine/indexes/bplus_tree.py:104-149 | a run on a tree: NULL and then 1 inserted, rollback succeeds; 1 and then NULL, it fails |
| Session.RetriedRollbackRepeats | engine/transactions/session.py:185-223 | a run on two tables: a rollback puts a deleted row back and is then refused; after one more DELETE the rollback is tried again, reports success, and the row is there twice |
| Session.AgreesAfterInsert | engine/query/executor.py:160-180 | table and indexes changed together still agree, also when the row got into some of the indexes only |
| Session.AgreesAfterRemove | engine/query/executor.py:183-204 | also when an index stops the removal part-way |
| Session.AgreesWithout | engine/transactions/session.py:248-261 | a row that left the indexes it had reached but stays in the table is known to none of them |
| ExternalHash.PartCount | engine/algorithms/external_hash.py:309-337 | a record is in the partition its key names, as often as in the input, and in no other |
| ExternalHash.FoldPart | engine/algorithms/external_hash.py:118-158 | a partition sees all records of its keys in input order |
| ExternalHash.FoldIs | engine/algorithms/external_hash.py:118-158 | the fold written out: the records with the key in input order, and the aggregate after each of them, the first from none |
| ExternalHash.PartitionRecords | engine/algorithms/external_hash.py:309-337 | each file is its partition in order |
| ExternalHash.GroupPartition | engine/algorithms/external_hash.py:118-158 | correct groups of one partition, in memory or through its own partitions |
| ExternalHash.ExternalHashGroupBy | engine/algorithms/external_hash.py:20-59 | each distinct key exactly once, with the aggregate of its records folded in input order, written out step by step, for every partition count, depth and memory limit; refused exactly for a limit that is not positive, fewer than two partitions or a negative depth |
| ExternalHash.NestedLoopCount | engine/algorithms/external_hash.py:62-115 | the nested loop has each pair with equal keys as often as both sides say |
| ExternalHash.JoinsIsNestedLoop | engine/algorithms/external_hash.py:62-115 | a result with these counts is the nested-loop join as a bag |
| ExternalHash.HashJoin | engine/algorithms/external_hash.py:235-266 | build and probe, whichever side is built, gives the join; what is built must fit the memory limit or be a single record, which every caller has to show |
| ExternalHash.RecordChunks | engine/algorithms/external_hash.py:363-388 | chunks in order, none empty, each within the limit in bytes or of one record |
| ExternalHash.BlockHashJoin | engine/algorithms/external_hash.py:269-306 | chunk against chunk gives the join |
| ExternalHash.JoinOneMore | engine/algorithms/external_hash.py:161-232 | records with equal keys meet in one partition only |
| ExternalHash.JoinPartition | engine/algorithms/external_hash.py:161-232 | the join of one pair of partitions on every path of the recursion |
| ExternalHash.ExternalHashJoin | engine/algorithms/external_hash.py:62-115 | the bag of the nested-loop join: every pair with equal keys once for each pair of occurrences, no other pair, for every partition count, depth and memory limit; refused exactly for invalid parameters |
| ExternalSort.CreateInitialRuns | engine/algorithms/external_sort.py:149-200 | the input cut into chunks within the memory limit or of one record, each turned into the run that is its sorted form |
| ExternalSort.FirstRecords | engine/algorithms/external_sort.py:229-245 | every non-empty run has its first record in the heap, numbered in the order of the runs |
| ExternalSort.PopMin | engine/algorithms/external_sort.py:247-264 | the record taken is a least one, and among equal ones the one pushed first |
| ExternalSort.MergeRuns | engine/algorithms/external_sort.py:221-264 | a sorted sequence with exactly the records of the runs |
| ExternalSort.MergePass | engine/algorithms/external_sort.py:49-86 | each pass leaves strictly fewer runs, as many as groups of fan-in |
| ExternalSort.MergeSortedRuns | engine/algorithms/external_sort.py:49-86 | one sorted sequence with all records for every fan-in of at least two, refused otherwise; the passes end |
| ExternalSort.Sort | engine/algorithms/external_sort.py:89-146 | a sorted permutation of the input at any memory limit and fan-in |
| Spimi.CountTerms | plugins/soupdb-inverted/soupdb_inverted/spimi.py:80-81 | each distinct term of a document with the number of its occurrences |
| Spimi.SpillBlock | plugins/soupdb-inverted/soupdb_inverted/spimi.py:54-65 | the block as one strictly ascending run |
| Spimi.AddDocument | plugins/soupdb-inverted/soupdb_inverted/spimi.py:67-95 | the runs and the block together hold exactly the postings so far; the length is the number of tokens |
| Spimi.AddTerm | plugins/soupdb-inverted/soupdb_inverted/spimi.py:83-91 | the same for one term: it spills before the block would exceed the budget or after it uses it up, and the estimate kept is that of the postings in the block |
| Spimi.SpimiRuns | plugins/soupdb-inverted/soupdb_inverted/spimi.py:30-98 | sorted runs with exactly the postings of the documents at any memory limit; each run was a block within the estimated budget or a single posting, and no block but the last could have taken one posting more |
| Spimi.ValidDocumentsAre | plugins/soupdb-inverted/soupdb_inverted/spimi.py:67-79 | documents are refused for a negative part of a RID or for two equal RIDs |
| Spimi.GroupPostings | plugins/soupdb-inverted/soupdb_inverted/merge.py:31-51 | a sorted stream grouped by term and document |
| Spimi.MergedTerms | plugins/soupdb-inverted/soupdb_inverted/merge.py:31-51 | the merged runs grouped, for every fan-in of at least two |
| Spimi.StreamIsDirect | plugins/soupdb-inverted/soupdb_inverted/spimi.py:30-98 | a stream with exactly the postings gives exactly the per-document counts |
| Spimi.BuildIndex | plugins/soupdb-inverted/soupdb_inverted/merge.py:31-51 | terms strictly ascending, each with its documents strictly ascending; every listed count is the number of times the document holds the term, and every term of every document is listed: the direct inverted index, whatever the limit and fan-in |

## Left out

- Disk files, the buffer manager and its pins, temporary directories, threads and clocks: pages are a map, runs and partitions are sequences, timeouts are steps that give up.
- Byte layouts of index pages, UTF-8, hashing of bytes and JSON: sizes and an abstract hash take their place. The slotted page is modelled on bytes, its header fields as fields.
- Floating-point rounding, haversine distances and polygons.
- Page numbers and RID parts beyond the range of their fields; the B+ tree checks RIDs, the other components have no bound.
- `close` and the errors of closed objects.
- Serializability of the session as a whole: `remove` locks a record while `scan` locks a table, so it does not hold there. It is proved for the lock table under the discipline that every access is made under a lock that covers it and that locks are released at the end.
- The names of the lifecycle states of a transaction and its id counter. That a transaction is active, until its commit or a rollback that went through, is part of `Session`.
- A statement that meets a deadlock or a lock timeout and is rolled back for it (engine/transactions/session.py:158-170): the session is modelled for one thread, with the rows of a statement given.
- Ranked and vector indexes, TF-IDF and BM25, the catalog, the parser, EXPLAIN.
- Aggregates, DISTINCT, projections and joins in query plans; projection is left away above the nearest-neighbour plan because it changes neither the number nor the order of rows.
- BPlusTreeIndex.BPlusTree.Insert: keys are reals under an abstract size, so the error for a key that cannot be encoded is not modelled; the closest cut is found by scanning candidates in order of preference, where the code keeps the best so far.
- ExtendibleHashIndex.ExtendibleHash.Insert: the error for a key of an unsupported type is not modelled.
- LockTable.StrictTwoPhaseLocking.TryAcquire: one round of the loop in `acquire`; sleeping, deadlines and the wake-up order are left to the step relation. The deadlock check reads grants and waits at one moment, while the code reads them outside the mutex.
- RTreeIndex.RTree.Insert: nodes are values, so changing a node in place and the box kept in the parent's entry (which the code never reads) are not modelled.
- PageStore.RTreePageStore.Save: nodes have no order of their own, so the error for a node whose order differs from the tree's is not modelled; neither is the error for an overfull node, which the R-tree never has.
- PageStore.RTreePageStore.Load: magic numbers, versions and reserved fields are reduced to the kind of page.
- Knn.KnnHits: the two heaps are sequences from which the least, or the worst, element is taken; the statistics counters are dropped.
- KnnPlan.KnnPlanEqualsScan: for metrics that are never negative; column resolution and the shape checks of the planner are not modelled.
- KnnOperators.RunPlan: each operator names the class of its child, because operators are not abstracted over.
- SequentialFiles.SequentialFile.Scan: the sort is an insertion sort on the same key; walks along chains are one method each instead of repeated loops.
- SlottedPages.SlottedPage.CompactPage: live records are taken in slot order, which the page's invariant shows to be the order of descending offsets that the code sorts by.
- Session.TransactionalSession.Rollback: whether a row that comes back finds room in an index is foreseen when room depends on the key alone (`ByKeyOnly`). The contracts of the indexes say when that is so: `BPlusTreeIndex.BPlusTree.Insert` succeeds whenever all entries take at most half a page, and `ExtendibleHashIndex.ExtendibleHash.Insert` refuses by the size of the key alone when a directory of the maximum depth fits. Otherwise `held` still says where the undo stopped and what the tables hold, and the refused step of a re-insertion is not predicted. `Session` takes the behaviour of its indexes as a parameter; the two are not joined by a proof.
- Session.TransactionalSession.UnindexRow: pairs (value, RID) occur once in an index, so the different meanings of removal coincide; a removal that misses its entry because the leaf chain of a B+ tree is no longer ordered, ranked indexes and locks are not part of it.
- ExternalHash.ExternalHashGroupBy: the order of the groups, which depends on the hash, and the memory a table of groups takes at the deepest level are not stated.
- ExternalHash.ExternalHashJoin: the order of the pairs is not stated, the code promises none.
- ExternalSort.Sort: the order of records that compare equal is not stated.
- Spimi.BuildIndex: terms are compared as reals in place of strings; the tokenizer is applied beforehand.
