# A verified model of the twlib containers

This project models the five data structures of twlib that are hard to get right, and proves what the
library promises about them:

- **Red-black and splay trees** (`include/TW/provos_rb_tree.h`). `RedBlack` and `Splay` work on nodes with
  real `left`, `right`, `parent` and colour fields, statement by statement as the macros do. A ghost tree
  says what the pointers spell out; a ghost zipper (`Ctx`) names the place in the tree at which a fix-up
  loop stands. The top-down splay works on three ghost pieces, the left spine, the middle and the right
  spine, that hang off the stack-allocated dummy node. `SplayCost` says which tree the loop makes in how many
  turns, and `SplayRun` bounds the turns of any run of operations: the Balance Theorem that the header cites.
- **B-tree** (`include/TW/ktree.h`). Nodes are objects with key and child arrays that are shifted in place;
  insertion splits on the way down, deletion borrows or merges on the way down, in the three modes of
  `__kb_delp_aux`. The readers are the binary search in a node, `kb_getp`, `kb_intervalp` and the
  explicit-stack `__kb_traverse`.
- **Hash tables** (`include/TW/khash.h`, `include/TW/tw_khash.h`, `include/TW/tw_khash2.h`). Flags, keys and
  values are arrays updated in place. Both tables share one theory of probe sequences: khash masks
  hashes to a power of two and steps by an odd number, khash2 reduces them modulo a prime. The rehash
  that keeps old and new layout in one key array is the same in both.
- **Blocking circular buffer** (`include/TW/tw_circular.h`, `include/TW/tw_sema2.h`). `Circular` has the
  lock-protected sections as methods of a class; `CircularSystem` is the transition system of any number of
  threads that run these sections, sleep on the two condition variables, are signalled, time out, also after
  they were signalled, or wake up unsignalled.
- **Reference-counted chained buffers** (`include/TW/tw_bufblk.h`). Chains of windows onto shared memory
  blocks, with duplication, deep copy, contiguous views, cuts, iterators, and runs of all of these.

## How it is built

| files | what they hold |
|---|---|
| `RedBlackTheory.dfy`, `RedBlackResult.dfy`, `RedBlack.dfy`, `RedBlackWalk.dfy` | zippers, links and colour rules; the trees that insertion and removal make, as recursions; the operations; walks |
| `SplayTheory.dfy`, `Splay.dfy` | the torn tree; splay, insert, remove, find, next, min and max |
| `SplayCost.dfy`, `SplayRun.dfy` | the splay as a function, the potential and the access lemma; runs and their cost |
| `Sequences.dfy`, `Powers.dfy`, `Primes.dfy` | adding to, dropping from and joining ordered sequences; powers of two; trial division |
| `BTreeTheory.dfy`, `BTreeNode.dfy`, `BTreeHeap.dfy`, `BTreePair.dfy` | ghost trees and windows of them; node operations; links in the heap; borrow and merge |
| `BTreeResult.dfy`, `BTreeInsert.dfy`, `BTreeDelete.dfy`, `BTreeRead.dfy`, `BTree.dfy` | the trees that insertion and deletion make, as recursions; the recursive operations; the readers; the class of trees |
| `Probing.dfy`, `RoundUp.dfy`, `Bits.dfy`, `KHashTheory.dfy`, `KHashRehash.dfy` | probe sequences; `kroundup32`; the step digit by digit; open addressing; the kick-out process |
| `KHash.dfy`, `TwKHash.dfy`, `KHash2.dfy`, `Options.dfy` | the power-of-two table, its wrapper with iterator, the prime table; optional results |
| `CircularTheory.dfy`, `Circular.dfy`, `CircularSystem.dfy`, `CircularCalls.dfy` | rings and queues; the locked sections; the threads; the sections as steps of the threads |
| `BufBlkTheory.dfy`, `BufBlk.dfy`, `BufBlkIter.dfy` | bytes of a chain; blocks and windows; the iterator |
| `BufBlkPicture.dfy`, `BufBlkRead.dfy`, `BufBlkRun.dfy` | what each operation of a run does to what the handles show; reading windows of memory that has been written; runs |

A method takes the part of the ghost state it works on as ghost parameters (the place in a tree, the windows
of a chain, the set of objects not yet deleted). Methods that a macro or function of the source inlines
are split off where a proof needs it; they keep the order of the source's assignments. `Valid()` and `Good()`
say what the fields mean between operations, and every operation is proved to keep them, so they hold after
any sequence of calls.

Keys are integers and stand for any ordered type (for the hash tables: any type with equality and a hash).

## What the model shows about the code

- **Growth of khash stops at 2^31 buckets.** `kh_put` on a full table of that size asks for 2^31 + 1 buckets,
  the rounding wraps to 0 and the resize is turned down (`KHash.GrowthRefused`). The table then fills beyond
  `upper_bound`, and everything goes on as before until all buckets are live. `kh_put` finds or stores the key if
  and only if the key is present or one of the 2^31 buckets is not live: that is the contract of
  `KHash.KHash.Put`. Otherwise it answers 0 with the bucket of another key, as `KHash.PutOverfull` shows.
- **khash2 cannot use its two largest primes.** `i + inc` wraps for more than 2^31 buckets;
  `KHash2.StepWraps` says for exactly which capacities the 32-bit step is the step modulo the capacity. For all
  others it is not even a permutation of the buckets (`KHash2.StepsCollide`).
- **khash2's `clear` leaves `n_occupied` as it was**, so that it bounds the used buckets but counts them if and only
  if it was 0 (`KHash2.KhMap.Clear`; `KHash2.ClearMiscounts` is a table on which it does not). A resize that goes
  ahead makes the count right again; without one, insertion, `operator[]` and removal keep it as right or wrong as
  it is.
- **khash2's `resize` to fewer buckets reads past its arrays** when a live bucket lies beyond the new end, because the
  arrays are reallocated first. `KHash2.ShrinkTooFar` builds such a table of 11 buckets for the request 1;
  `KHash2.KhMap.Resize` keeps the map whenever there is no such bucket.
- **The blocking removal never resets the indices.** The test for emptiness in `removeOrBlock` after a wait
  (`include/TW/tw_circular.h:642`) comes before the release, so it never holds; the buffer stays sound all the
  same, because an empty ring may begin anywhere.
- **`clear` can strand a sleeping adder.** It frees places without a signal. The sleeping adders stay covered, that is
  have enough woken ones ahead of them for the free places, if and only if none sleeps or the buffer has no more places
  than there are adders woken (`CircularSystem.ClearExactly`). What uncovered means: when the woken adders take
  their places, and nothing else happens, an adder is left asleep beside a free place with nobody on the way
  (`CircularSystem.UncoveredStrands`). A caller can be sure that no adder sleeps when there are more free places than
  woken adders, or as many as threads that add (`CircularSystem.ClearTest`). `CircularSystem.ClearStrands` is a
  run with a clear at whose end an adder and a remover sleep for good.
- **A timed `add` can swallow a signal.** POSIX lets a timed wait report a timeout although the thread was
  signalled; `acquireAndKeepLock` then gives up without another look at the count. While another adder sleeps, the
  sleeping ones stay covered if and only if the woken adders outnumber the free places
  (`CircularSystem.LostSignalExactly`, and `CircularSystem.LostSignalStrands` for a run in which they do not).
  These are the only two steps that uncover an adder (`CircularSystem.RunCovers`); none uncovers a remover.
- **`eatBytes` releases the wrong windows** when a cut begins with the first byte of a window and runs past
  its last: `Buffers.BufBlk.EatBytes` proves that the windows wholly inside the cut are the ones released if
  and only if this is not so; `Buffers.EatTwoBlocks` calls it on such an input. A cut that finishes inside the
  window it begins in is always right.
- **`eatBytes` writes to memory that others may read**, if and only if it leaves something of one window on either
  side of the cut: then the bytes behind the cut move down. Otherwise no byte of any memory changes. What every other
  window reads afterwards, of the same chain, of a duplicate or of an open iterator, is told byte by byte
  (`BufferRuns.DoEat`); `BufferRuns.Unseen` says which handles see nothing.
- **`SPLAY_REMOVE` returns its argument**, not the node it removed. The two are the same if and only if the argument
  is a node of the tree (`Splay.SplayHead.Remove`); `Splay.RemoveByTwin` removes a node by another with an equal key.

## Model

| member | source | states |
|---|---|---|
| RedBlack.RbHead.constructor | include/TW/provos_rb_tree.h:311-313 | an initialised head is a good empty tree |
| RedBlack.RbHead.RotateLeft | include/TW/provos_rb_tree.h:347-365 | the rotation turns exactly the subtree at elm, all links and parent links of the tree stay consistent, and the in-order sequence does not change |
| RedBlack.RbHead.RotateRight | include/TW/provos_rb_tree.h:367-385 | the mirror image |
| RedBlack.RbHead.InsertPassLeft | include/TW/provos_rb_tree.h:425-440 | one pass of the insertion loop, uncle on the right: the only red-red violation moves strictly nearer to the root or is gone, order and nodes unchanged, and the recursion `Recoloured` has the same value as before the pass |
| RedBlack.RbHead.InsertPassRight | include/TW/provos_rb_tree.h:441-457 | the same with the uncle on the left |
| RedBlack.RbHead.InsertColor | include/TW/provos_rb_tree.h:418-460 | from a tree whose only fault is one red node under a red parent, the loop terminates with all red-black rules and a black root, order unchanged; the tree is the one the recursion `Recoloured` makes: recolour under a red uncle and go on two levels up, else rotate and stop |
| RedBlack.RbHead.RemovePassLeft | include/TW/provos_rb_tree.h:466-500 | one pass of the removal loop, short side on the left: the missing black moves towards the root, meets a red node, or is made up for, and the recursion `Refilled` has the same value as before the pass |
| RedBlack.RbHead.RemovePassRight | include/TW/provos_rb_tree.h:501-534 | the same with the short side on the right |
| RedBlack.RbHead.RemoveBlackSiblingLeft | include/TW/provos_rb_tree.h:475-500 | with a black sibling either all rules hold again or the sibling turns red and the missing black is the parent's; which of them, and the tree, are those of `WithBlackSibling` |
| RedBlack.RbHead.RemoveBlackSiblingRight | include/TW/provos_rb_tree.h:508-533 | the mirror image |
| RedBlack.RbHead.RemoveColor | include/TW/provos_rb_tree.h:462-538 | from a tree one black short at one place the loop terminates with all red-black rules, order unchanged; the tree is the one the recursion `Refilled` makes |
| RedBlack.RbHead.Splice | include/TW/provos_rb_tree.h:589-600 | a node with at most one child is taken out and its child put in its place, with all links of the rest consistent |
| RedBlack.RbHead.Substitute | include/TW/provos_rb_tree.h:569-580 | a node takes over the place, colour and neighbours of the removed one |
| RedBlack.RbHead.RemoveBySuccessor | include/TW/provos_rb_tree.h:549-603 | removal of a node with two children through its in-order successor leaves exactly the other nodes in order and all red-black rules; the successor stands in the place of the removed node before the loop (`RemovedAt`) |
| RedBlack.RbHead.Remove | include/TW/provos_rb_tree.h:540-606 | for any good tree and any node of it: the result is that node, the in-order sequence is the old one without exactly that node, and the tree is good again (order, colours, black height, black root, parent links); it is the tree `WithoutNode` makes of the old one |
| RedBlack.RbHead.Insert | include/TW/provos_rb_tree.h:608-637 | if a node with an equal key exists it is returned and nothing changes; otherwise exactly the new node is added in order and the tree is good; it is the tree `WithNode` makes of the old one |
| RedBlack.RbHead.Find | include/TW/provos_rb_tree.h:639-655 | a node with the key if there is one, else null |
| RedBlackTheory.InOrderPlug | include/TW/provos_rb_tree.h:347-385 | the in-order sequence of a tree is that of any subtree between what precedes and what follows it, the fact on which every rotation and splice rests |
| RedBlackTheory.RedUncleLeft | include/TW/provos_rb_tree.h:427-432 | recolouring under a red uncle keeps the black heights and leaves at most the grandparent red under a red parent |
| RedBlackTheory.BlackUncleLeft | include/TW/provos_rb_tree.h:433-440 | under a black uncle recolouring and one or two rotations restore all rules |
| RedBlackTheory.RedSibling | include/TW/provos_rb_tree.h:469-474 | the rotation over a red sibling leaves the same shortage below a black sibling |
| RedBlackTheory.BlackNephews | include/TW/provos_rb_tree.h:475-481 | with black nephews the shortage passes to the parent |
| RedBlackTheory.RedNephewLeft | include/TW/provos_rb_tree.h:493-499 | with a red outer nephew the last rotation makes up for the shortage |
| RedBlackTheory.InnerNephew | include/TW/provos_rb_tree.h:483-492 | a red inner nephew is first turned into an outer one |
| RedBlackTheory.SuccessorInOrder | include/TW/provos_rb_tree.h:549-580 | putting the leftmost node of the right subtree in the place of the removed node drops exactly that node from the order |
| RedBlackTheory.HeightBound | include/TW/provos_rb_tree.h:58-66 | the height h and number n of nodes of any red-black tree satisfy 2^h <= (n + 1)^2, that is h <= 2 lg (n + 1) |
| RedBlackTheory.PrevInvertsNext | include/TW/provos_rb_tree.h:678-719 | on adjacent nodes RB_PREV inverts RB_NEXT |
| RedBlackWalk.MinMax | include/TW/provos_rb_tree.h:721-734 | the first or the last node in order, null for an empty tree |
| RedBlackWalk.Next | include/TW/provos_rb_tree.h:678-698 | the node that follows in order, null after the last |
| RedBlackWalk.Prev | include/TW/provos_rb_tree.h:700-719 | the node that precedes in order, null before the first |
| RedBlackWalk.NFind | include/TW/provos_rb_tree.h:657-676 | the least node whose key is at least the search key, null if there is none |
| RedBlackWalk.Foreach | include/TW/provos_rb_tree.h:748-751 | starting at the minimum and repeating next visits every node once, in order, and terminates |
| Splay.SplayHead.constructor | include/TW/provos_rb_tree.h:77-79 | an initialised head is a good empty tree |
| Splay.SplayHead.RotateRight | include/TW/provos_rb_tree.h:93-97 | the rotation changes the middle piece only and keeps the three pieces linked |
| Splay.SplayHead.RotateLeft | include/TW/provos_rb_tree.h:99-103 | the mirror image |
| Splay.SplayHead.LinkLeft | include/TW/provos_rb_tree.h:105-109 | the root and its right subtree move to the end of the right spine |
| Splay.SplayHead.LinkRight | include/TW/provos_rb_tree.h:111-115 | the root and its left subtree move to the end of the left spine |
| Splay.SplayHead.Assemble | include/TW/provos_rb_tree.h:117-122 | the pieces become one tree whose links are those of the assembled tree |
| SplayTheory.AssembledOrder | include/TW/provos_rb_tree.h:117-122 | the assembled tree has the in-order sequence of the pieces in a row |
| SplayTheory.LinkLeftOrder | include/TW/provos_rb_tree.h:105-109 | linking left does not change the sequence of the pieces in a row |
| SplayTheory.LinkRightOrder | include/TW/provos_rb_tree.h:111-115 | linking right does not either |
| SplayTheory.RotOrder | include/TW/provos_rb_tree.h:93-103 | nor do the rotations |
| Splay.SplayHead.StepLeft | include/TW/provos_rb_tree.h:224-233 | one pass of the loop for a key below the root's: the sequence is kept, and the middle gets smaller or the search is over |
| Splay.SplayHead.StepRight | include/TW/provos_rb_tree.h:234-243 | the mirror image |
| SplayCost.TurnLeft | include/TW/provos_rb_tree.h:224-233 | one pass for a key below the root's leads to the same final tree with exactly one turn less to go |
| SplayCost.TurnRight | include/TW/provos_rb_tree.h:234-243 | the mirror image |
| SplayCost.ZigZig | include/TW/provos_rb_tree.h:228-232 | a pass that rotates and links is paid for: if the rest of the splay meets the bound on its subtree, the whole does on the tree |
| SplayCost.ZigZag | include/TW/provos_rb_tree.h:224-243 | so do two passes that link to one side and then to the other |
| SplayCost.ZigZagZag | include/TW/provos_rb_tree.h:224-243 | and two such passes with a rotation in the second |
| SplayCost.Access | include/TW/provos_rb_tree.h:54-56 | for every tree and key, the passes of a splay and the change of the potential together are at most 6 lg (n + 1) + 2 |
| SplayCost.InsertPaid | include/TW/provos_rb_tree.h:169-191 | a splay with the new node on top costs at most 12 lg (n + 1) + 4, potential included |
| SplayCost.RemovePaid | include/TW/provos_rb_tree.h:193-212 | so do the two splays of a removal with the join |
| SplayCost.PotentialBound | include/TW/provos_rb_tree.h:54-56 | a tree of n nodes has at most 2 n lg (n + 1) in store |
| SplayCost.TurnsDescend | include/TW/provos_rb_tree.h:214-247 | a splay cannot get by with fewer passes: the nodes on the way of a plain search down the tree are at most twice its passes and one |
| Splay.SplayHead.Splay | include/TW/provos_rb_tree.h:214-247 | the tree and the number of passes are those of the functions `Splayed` and `Turns`; on a non-empty tree the splay terminates, never changes the in-order sequence or the nodes, and brings to the root the key, or one of the two nodes between which the key would stand |
| Splay.SplayHead.Insert | include/TW/provos_rb_tree.h:169-191 | set insertion: the node with an equal key is returned, stands at the root and the sequence is unchanged, or exactly the new node is added in order and is the root; tree and passes are those of the one splay; the amortised cost is logarithmic |
| Splay.SplayHead.HangRight | include/TW/provos_rb_tree.h:208 | the right tree goes where the root has no right child, all links consistent |
| Splay.SplayHead.JoinSubtrees | include/TW/provos_rb_tree.h:203-208 | the join after a removal: the splayed left tree's root has no right child, so hanging the right tree there loses nothing |
| Splay.MaxOnTop | include/TW/provos_rb_tree.h:204-207 | splaying a tree for a key above all of its keys leaves a root without right child |
| Splay.SplayHead.Remove | include/TW/provos_rb_tree.h:193-212 | set removal: null, an unchanged sequence and a neighbour of the key at the root if no node has the key, else the argument, and exactly the node with that key is dropped; that is the argument if and only if the argument is in the tree; tree and passes are those of the two splays; the amortised cost is logarithmic |
| Splay.RemoveByTwin | include/TW/provos_rb_tree.h:193-212 | a removal that returns a node which was never in the tree |
| SplayRuns.Step | include/TW/provos_rb_tree.h:132-212 | a find, insert or remove answers and acts as on a plain set of keys, at an amortised cost of 12 lg (n + 1) + 4 passes, and takes at least half as many passes as a plain search for the key goes down |
| SplayRuns.Run | include/TW/provos_rb_tree.h:54-56 | the Balance Theorem: m operations on an initially empty tree with n insertions take at most m (12 lg (n + 1) + 4) passes, and from any tree of n0 nodes at most 2 n0 lg (n0 + 1) more; every answer and the final keys are those of a plain set |
| Splay.SplayHead.Find | include/TW/provos_rb_tree.h:132-142 | a node with the key, then at the root, if there is one, else null with a neighbour of the key at the root; the sequence does not change; tree and passes are those of the splay for the key |
| Splay.SplayHead.Next | include/TW/provos_rb_tree.h:144-157 | the least node above the given one, null if it is the last; the given one is at the root, by the splay for its key |
| Splay.SplayHead.MinMax | include/TW/provos_rb_tree.h:252-283 | the loop terminates with the first or last node at the root and the sequence unchanged; tree and passes are those of a splay for a key beyond all others; a logarithmic amortised cost |
| BTreeNode.Memmove | include/TW/ktree.h:182-184 | overlapping array shifts move exactly the given stretch |
| BTreeNode.GetAux | include/TW/ktree.h:114-127 | the binary search gives the last slot with a key not above k (the first of equal keys) and the sign of the comparison there |
| BTreeInsert.SplitKid | include/TW/ktree.h:172-187 | splitting a full child gives a valid node with two children of t - 1 keys around the middle key, the upper one a new node, and keeps the in-order sequence |
| BTreeInsert.PutAux | include/TW/ktree.h:188-205 | insertion below a node that is not full adds exactly k in order, keeps all leaves at one depth and all occupancy bounds, and descends only into nodes that are not full; the tree is as `PutsInto` says: exactly the full children on the way are split |
| BTree.KbTree.Put | include/TW/ktree.h:206-220 | for any valid tree and any key: valid again, exactly the new key added at its place in the sorted sequence, n_keys one more; root and nodes on the way are split exactly if they are full (`Puts`) |
| BTreeTheory.JoinInOrder | include/TW/ktree.h:172-187 | joining two nodes around a key gives the two sequences around it: the law behind split and merge |
| BTreeTheory.EditInOrder | include/TW/ktree.h:172-306 | replacing a window of children and keys of a node replaces exactly the corresponding stretch of the in-order sequence |
| BTreeTheory.EditGood | include/TW/ktree.h:172-306 | and keeps depth and occupancy if the new children have them |
| BTreePair.BorrowLeft | include/TW/ktree.h:271-277 | the last key of the left sibling goes up and the separator down, the last grandchild moves over: same sequence, the child has one key more, both within bounds |
| BTreePair.BorrowRight | include/TW/ktree.h:278-284 | the mirror image |
| BTreePair.MergeKids | include/TW/ktree.h:256-265 | two children of t - 1 keys and the key between them become one full child: same sequence, valid, parent one key less |
| BTreeDelete.FixKid | include/TW/ktree.h:269-305 | before the descent the child has at least t keys and still carries the same stretch of the sequence; borrow left is tried first, then borrow right, merge left, merge right (`Fixed`) |
| BTreeDelete.DelHere | include/TW/ktree.h:245-268 | a key found in an internal node is replaced by its predecessor if the left child can spare a key, else by its successor if the right one can, else goes down in a merge: exactly it is removed |
| BTreeDelete.DelAux | include/TW/ktree.h:228-307 | terminates; mode 0 removes an occurrence of k, mode 1 the greatest, mode 2 the least key below x, and returns it; all leaves stay at one depth and all nodes below x within bounds; tree and key are those of the recursion `DeletedFrom` |
| BTree.KbTree.Delp | include/TW/ktree.h:308-321 | for any valid tree of minimum degree t >= 2 and any key in it: returns that key, leaves exactly the other keys in sorted order, valid, n_keys one less; the tree is the one `DeletedFrom` makes, without its root if that is empty |
| BTree.KbTree.Getp | include/TW/ktree.h:130-141 | finds a slot holding the key if and only if the key is in the tree |
| BTree.KbTree.Intervalp | include/TW/ktree.h:148-164 | lower is the greatest key not above k and upper the least key not below k, none where there is none, both k when present |
| BTree.KbTree.Traverse | include/TW/ktree.h:332-354 | the explicit-stack walk terminates and visits the keys exactly as the in-order sequence lists them |
| BTree.KbTree.constructor | include/TW/ktree.h:51-66 | a new tree is valid and empty |
| BTreeRead.FloorCeiling | include/TW/ktree.h:148-164 | a sequence split into keys below and above k names the floor and the ceiling of k |
| Probing.OddCovers | include/TW/khash.h:151 | an odd step comes back to its start in a power-of-two table only after a multiple of n steps |
| Probing.PrimeCovers | include/TW/tw_khash2.h:235 | any step below a prime capacity does the same |
| Probing.Coverage | include/TW/khash.h:202-211 | with such a step every bucket is met within n probes |
| Probing.FirstReturn | include/TW/khash.h:208-209 | and the search is back at its first bucket exactly after n probes |
| KHashTheory.StepCovers | include/TW/khash.h:205-206 | both tables choose such a step for every hash |
| Bits.StepBits | include/TW/khash.h:151 | the step of khash, digit by digit: digit 0 is set, and digit i below that of the capacity tells whether digits i + 3 and i - 3 of the hash differ |
| Bits.StepModular | include/TW/tw_khash2.h:235 | the step of khash2 is one more than what the hash leaves when divided by the capacity less one |
| KHashTheory.BucketNext | include/TW/khash.h:208 | the code's own step, masked or by conditional subtraction, is the next bucket of the probe sequence |
| KHashTheory.SearchEnds | include/TW/khash.h:207-211 | a search that meets a never-used bucket, or all buckets, without meeting the key proves the key absent |
| KHashTheory.NoWrap | include/TW/khash.h:245 | while one bucket has never been used, a search over used ones stops before n probes |
| KHashTheory.UpperIs | include/TW/khash.h:221 | the bound is 0.77 n rounded to the nearest integer, upwards from a half, and `size` is below it if and only if one more is not above 0.77 n + 0.5 |
| KHashTheory.TableStore | include/TW/khash.h:294-303 | storing a new key within its reach keeps every other key reachable, also in a place freed by a deletion |
| KHashTheory.TableDelete | include/TW/khash.h:307-313 | a deletion mark hides no other key |
| KHashTheory.LandsThere | include/TW/khash.h:278-293 | the bucket a new key goes into, the last deleted one before the search meets a never-used bucket or its start again, or that never-used bucket, is not live and within the key's reach |
| RoundUp.RoundUpIs | include/TW/khash.h:157 | kroundup32 gives the least power of two not below x for 0 < x <= 2^31, and 0 for all other 32-bit words |
| KHashTheory.WholeRound | include/TW/khash.h:287-290 | a search that went all the way round without a never-used or a deleted bucket has seen only live ones, and so all of them are live |
| KHashTheory.SoundFull | include/TW/khash.h:163 | size equals n_buckets exactly if every bucket is live |
| KHash.GrowthRefused | include/TW/khash.h:219-221 | at 2^31 buckets the request to grow wraps and is refused |
| KHash.CapacityIs | include/TW/khash.h:219-220 | a request above 4 and up to 2^31 leads to the least power of two not below it, every other to 4 |
| KHash.PowerGap | include/TW/khash.h:157 | different powers of two are a factor of two apart, so a request of n - 1 or n + 1 leads to n or 2n |
| KHash.RequestDouble | include/TW/khash.h:273-275 | the request to grow leads to twice the size and to room, or is refused exactly at 2^31 buckets |
| KHash.RequestSame | include/TW/khash.h:274 | the request to rehash at the same size is met, and there is room afterwards, unless `size << 1` has wrapped, which it does only for 2^31 live buckets |
| KHash.KHash.constructor | include/TW/khash.h:182-184 | a new table is empty and has no buckets |
| KHash.KHash.Get | include/TW/khash.h:200-213 | the bucket of the key, or n_buckets if the key is not in the table |
| KHash.KHash.FindSite | include/TW/khash.h:278-293 | for every table with buckets: the key's own bucket; for an absent key the last deleted bucket on its way, or the never-used one at its end if there is none; or, if all buckets are live, the first bucket of the search |
| KHash.Place | include/TW/khash.h:294-305 | the key and the live flag go into a bucket that is not live, and nothing into a live one; the code tells which flag was there |
| KHash.KHash.Store | include/TW/khash.h:294-305 | return code 0 for a present key, 1 or 2 for an absent one by whether its bucket was never used or deleted, the map and both counts extended accordingly; 0 and nothing done if all buckets are live and the key is absent |
| KHash.KHash.MakeRoom | include/TW/khash.h:273-276 | a table with room, or one that cannot grow, is not touched; any other keeps its map and gets as many buckets as it has if more than half hold no key, else twice as many (4 at first), and then has room |
| KHash.KHash.Put | include/TW/khash.h:270-306 | for every table: the bucket handed out has the key if and only if the key was present or not all of 2^31 buckets are live; a present key changes nothing, an absent one is added and no other touched; the code is 0, and for a stored key 1 exactly if its bucket was never used, else 2, and always 1 after a rehash; a table with room keeps its buckets, and n_occupied and the bucket chosen are told exactly; n_occupied exceeds upper_bound only after a refused growth |
| KHash.FullTable | include/TW/khash.h:162-168 | a sound table of 2^31 buckets can be full of keys |
| KHash.PutOverfull | include/TW/khash.h:287-305 | on such a table kh_put reports the bucket of another key |
| KHash.KHash.Del | include/TW/khash.h:307-313 | removes exactly the key of a live bucket, does nothing for another bucket or the end |
| KHash.KHash.Clear | include/TW/khash.h:193-199 | the map is empty, the capacity the same, every flag empty and both counts 0 |
| KHash.KHash.Resize | include/TW/khash.h:214-269 | growing, shrinking or at the same size, if the size is below 0.77 of the rounded request, rounded: the map is exactly the same, capacity the rounded request, n_occupied the size, upper_bound 0.77 of the capacity, rounded; else nothing at all changes |
| KHash.KHash.Seen | include/TW/khash.h:162-168 | size is the number of entries, each key sits in exactly one live bucket, upper_bound is 0.77 n_buckets, rounded, and below n_buckets, and n_occupied <= upper_bound but for 2^31 buckets |
| KHashRehash.FindFree | include/TW/khash.h:241-245 | the inner loop stops at the first bucket of the new layout that is free, which the key reaches |
| KHashRehash.KickOut | include/TW/khash.h:240-256 | one round of the kick-out process: what the old buckets, the new buckets and the hand hold together stays the map; either it ends or fewer old keys wait; the key in hand goes to the first free bucket of its search, and one that waits there is in hand next (`Settled`) |
| KHashRehash.MoveChain | include/TW/khash.h:233-257 | the kick-out process started from a bucket terminates and leaves nothing in hand |
| KHashRehash.Rehash | include/TW/khash.h:232-258 | the outer loop moves every key of the map and leaves exactly as many used buckets as keys; the layout is the one `Rehashed` makes, which takes the old buckets in order |
| KHashRehash.Kick | include/TW/khash.h:247-250 | swapping the key in hand with one that waits in the same slot loses nothing |
| TwKHash.TwKHash.constructor | include/TW/tw_khash.h:516-525 | a new map is empty; its table has the buckets that the given number of items asks for, or none yet |
| TwKHash.TwKHash.AddReplace | include/TW/tw_khash.h:609-625 | the old value is handed out and the new one stored under the key and no other, if and only if the table has a place for the key |
| TwKHash.TwKHash.AddNoreplace | include/TW/tw_khash.h:709-725 | adds if and only if the key is absent; under that key if and only if the table has a place for it |
| TwKHash.TwKHash.FindOrNew | include/TW/tw_khash.h:688-706 | the present value, or a default one that is then in the map, under that key if and only if the table has a place for it |
| TwKHash.TwKHash.Remove | include/TW/tw_khash.h:727-746 | removes exactly the key and hands out its value, or does nothing |
| TwKHash.TwKHash.Find | include/TW/tw_khash.h:767-782 | the value of the key in the map, if any |
| TwKHash.TwKHash.RemoveAll | include/TW/tw_khash.h:564-590 | the map is empty |
| TwKHash.TwKHash.Size | include/TW/tw_khash.h:592-599 | the number of entries |
| TwKHash.HashIterator.constructor | include/TW/tw_khash.h:478-489 | starts at the first live bucket, or the end |
| TwKHash.HashIterator.GetNext | include/TW/tw_khash.h:426-440 | moves to the next live bucket, and tells whether there is one |
| TwKHash.VisitAll | include/TW/tw_khash.h:426-440 | over an unchanged map the iterator visits every entry exactly once, with its value |
| KHash2.StepWraps | include/TW/tw_khash2.h:238-239 | the 32-bit step is the step modulo m for all buckets and steps if and only if m <= 2^31 |
| KHash2.StepsCollide | include/TW/tw_khash2.h:238-239 | for every m above 2^31 some step takes two different buckets to bucket 0 |
| KHash2.KhMap.SearchAux | include/TW/tw_khash2.h:228-243 | the key's bucket if the key is present; else an empty bucket or the capacity |
| KHash2.KhMap.InsertAux | include/TW/tw_khash2.h:246-264 | the key's own bucket; for an absent key the last deleted bucket on its way, or the never-used one at its end |
| KHash2.KhMap.DirectInsert | include/TW/tw_khash2.h:334-345 | 0 for a present key, 1 or 2 for a new key in a never used or a deleted bucket, the last deleted one on its way before the never-used one, with the counts of the caller; an exact count of used buckets stays exact, and no other becomes so |
| KHash2.KhMap.PickPrime | include/TW/tw_khash2.h:346-350 | the least prime of the table above the request |
| KHash2.FirstPrimes | include/TW/tw_khash2.h:195-197 | these constants are 0 followed by odd primes in order |
| KHash2.KhMap.Resize | include/TW/tw_khash2.h:527-564 | growing, shrinking no further than the last live bucket, or at the same size, if n_size is below 0.77 of the prime, rounded: exactly the same map, capacity the least prime above the request, n_occupied the size and the number of used buckets, upper_bound 0.77 of the capacity, rounded; else nothing changes |
| KHash2.ShrinkTooFar | include/TW/tw_khash2.h:346-352 | a table with room for its entries in the prime a request leads to, and a live bucket beyond that prime |
| KHash2.KhMap.MakeRoom | include/TW/tw_khash2.h:501-506 | a table with room is not touched; a full one is rehashed with the same map, at its size if more than half of it holds no key, else into the least prime above the next number, and then has room; afterwards n_occupied counts the used buckets if and only if it did before or the table was full |
| KHash2.KhMap.Insert | include/TW/tw_khash2.h:572-581 | the key maps to the value, no other key changes; tells whether the key is new; the bucket handed out holds it; a table with room keeps its capacity, a full one gets that of `MakeRoom`; n_occupied is exact under the same condition |
| KHash2.KhMap.Index | include/TW/tw_khash2.h:582-591 | the value of the key, a default one, then in the map, if it is new; n_occupied is exact under the same condition |
| KHash2.KhMap.Find | include/TW/tw_khash2.h:566-571 | the bucket of the key with its value, or the end |
| KHash2.KhMap.Erase | include/TW/tw_khash2.h:600-606 | removes exactly the key, or does nothing and returns the end; n_occupied is exact afterwards if and only if it was before |
| KHash2.KhMap.Clear | include/TW/tw_khash2.h:418-425 | the map is empty, no bucket is used, and n_occupied is what it was: it counts the used buckets if and only if it was 0 |
| KHash2.ClearMiscounts | include/TW/tw_khash2.h:418-425 | an insertion and a clear after which n_occupied is positive and no bucket used |
| KHash2.KhMap.Seen | include/TW/tw_khash2.h:327-332 | n_size is the number of entries, each key in exactly one live bucket, upper_bound is 0.77 n_capacity, rounded, and n_occupied <= upper_bound < n_capacity |
| KHash2.AboveNear | include/TW/tw_khash2.h:370-375 | a request of capacity - 1 leads back to the capacity, one of capacity + 1 to a larger prime |
| CircularTheory.PutItems | include/TW/tw_circular.h:158-169 | storing at the next input place appends to the queue the indices describe, in either direction |
| CircularTheory.TakeItems | include/TW/tw_circular.h:171-181 | reading at the output place and moving on takes the head, with or without the reset of an emptied ring |
| CircularTheory.FlipItems | include/TW/tw_circular.h:196-205 | swapping the indices and the direction describes the reversed queue |
| Circular.SemaTwoWay.TryAcquire | include/TW/tw_sema2.h:151-167 | takes one and signals the removers if the count is positive, else does nothing |
| Circular.SemaTwoWay.ReleaseWithoutLock | include/TW/tw_sema2.h:439-452 | gives one back and signals the adders |
| Circular.SafeCircular.AddLocked | include/TW/tw_circular.h:383-397 | appends the item exactly if there is room, sends exactly one signal then, and changes nothing else |
| Circular.SafeCircular.RemoveLocked | include/TW/tw_circular.h:580-597 | takes the head exactly if there is one, sends exactly one signal then, and changes nothing else |
| Circular.SafeCircular.RemoveAfterWait | include/TW/tw_circular.h:638-651 | after the wait: takes the head if there is one, else reports failure |
| Circular.SafeCircular.Reverse | include/TW/tw_circular.h:196-205 | the queue is reversed |
| Circular.SafeCircular.Clear | include/TW/tw_circular.h:777-793 | the queue is empty, all places are free and no signal is sent |
| Circular.SemaTwoWay.ResetNoLock | include/TW/tw_sema2.h:74-76 | the count is the size, no signal is sent |
| Circular.SafeCircular.Remaining | include/TW/tw_circular.h:183-185 | the number of items |
| CircularSystem.StepKeeps | include/TW/tw_circular.h:360-434 | every step of every thread, clear and timeouts of signalled adders among them, is a step of the abstract queue, keeps the indices and 0 <= cnt <= size right and the sleeping removers covered, and keeps the sleeping adders covered if and only if it is harmless; and it honours its call (see StepHonours) |
| CircularSystem.StepHonours | include/TW/tw_circular.h:360-651 | in every step: a call to add with room, or a woken adder with room, adds exactly the item it asked to add; without room it sleeps with that item or gives up, and it gives up only where its call may; a removal succeeds exactly if there is an item; exactly one sleeper of the other side is woken by an add or a removal, none by anything else, and no other thread is touched |
| CircularSystem.StepsOpen | include/TW/tw_sema2.h:135-190 | no step is missing and none is taken out of turn: an idle thread can make any call, a sleeping one wake up unsignalled or, with a time limit, time out, a woken one go on or, with a time limit, time out, and nothing else |
| CircularSystem.ClearExactly | include/TW/tw_circular.h:777-793 | in any state, after a clear the sleeping adders have enough woken ones for the free places if and only if none sleeps or the places are no more than the woken adders |
| CircularSystem.ClearTest | include/TW/tw_circular.h:777-793 | what a holder of the lock can test before a clear: more free places than woken adders, or as many as threads that add, and no adder sleeps |
| CircularSystem.LostSignalExactly | include/TW/tw_sema2.h:169-190 | a signalled adder that reports a timeout leaves the others covered if and only if none sleeps or the remaining woken ones suffice |
| CircularSystem.RunRefines | include/TW/tw_circular.h:581-654 | in every run each removal takes the abstract head, what was added is what was removed or cleared away together with what is there, and a sleeping remover with an item has a woken one on the way |
| CircularSystem.RunAccount | include/TW/tw_circular.h:360-434 | in every run the items that threads asked to add are, counted with repetition, those added, those of the threads still waiting to add, and those given up for a timeout or want of room |
| CircularSystem.RunCovers | include/TW/tw_sema2.h:135-190 | all through a run the sleeping adders are covered if and only if each of its clears and lost signals is harmless |
| CircularSystem.PathCovers | include/TW/tw_sema2.h:135-190 | the same for any sequence of steps from any state in which they are covered |
| CircularSystem.UncoveredStrands | include/TW/tw_sema2.h:135-167 | from every sound state in which the adders are not covered, steps in which woken adders take their places lead to a state with an adder asleep beside a free place and no adder woken |
| CircularSystem.NobodyStranded | include/TW/tw_sema2.h:135-190 | in every run: if a remover sleeps while there is an item, a woken remover is on its way; in every run of harmless steps likewise for adders and room |
| CircularSystem.NoDeadlock | include/TW/tw_sema2.h:266-287 | in every run of harmless steps on a buffer with at least one place, adders and removers never all sleep at once |
| CircularSystem.ClearStrands | include/TW/tw_circular.h:777-793 | a run with a harmful clear, at whose end an adder and a remover sleep, nobody is woken and the buffer is empty |
| CircularSystem.LostSignalStrands | include/TW/tw_sema2.h:169-190 | a run with a harmful lost signal that ends in the same way |
| CircularCalls.AddSection | include/TW/tw_circular.h:360-434 | add, the timed add, addIfRoom and the turn of their loop after a wait, run on the fields of the buffer, are that step of the thread, with one signal sent exactly if the item was added |
| CircularCalls.RemoveSection | include/TW/tw_circular.h:580-637 | remove, and removeOrBlock up to its wait, are that step, with one signal sent exactly if an item was taken |
| CircularCalls.RemoveWokenSection | include/TW/tw_circular.h:638-651 | so is the rest of removeOrBlock after its wait |
| CircularCalls.ReverseSection | include/TW/tw_circular.h:196-205 | so is a reversal |
| CircularCalls.ClearSection | include/TW/tw_circular.h:777-793 | so is a clear, which drops exactly the queue and sends no signal |
| Buffers.MemBlk.Release | include/TW/tw_bufblk.h:250-265 | one count less, and deletion exactly when it was the last |
| Buffers.MemBlk.DeepCopy | include/TW/tw_bufblk.h:268-272 | new memory with the same bytes and a count of one |
| Buffers.AliveWhileHeld | include/TW/tw_bufblk.h:242-265 | a memory block is there exactly as long as some window looks at it |
| Buffers.BufBlk.OnMemory | include/TW/tw_bufblk.h:379-391 | a window onto given memory counts itself in |
| Buffers.BufBlk.Make | include/TW/tw_bufblk.h:626-642 | a window onto new memory, followed by the given chain, keeps every reference count right |
| Buffers.BufBlk.CopyFrom | include/TW/tw_bufblk.h:720-727 | appends as many bytes as there is room for and says how many; exactly the memory behind the readable bytes, up to the new end, holds them, and no other byte changes |
| Buffers.BufBlk.TotalLength | include/TW/tw_bufblk.h:810-818 | the number of readable bytes of the chain |
| Buffers.BufBlk.SetNexblk | include/TW/tw_bufblk.h:695-697 | linking a chain behind the last window of another makes one chain and changes no reference count |
| Buffers.BufBlk.AddToEnd | include/TW/tw_bufblk.h:705-711 | the two chains become one |
| Buffers.BufBlk.Release | include/TW/tw_bufblk.h:667-680 | deletes exactly the windows of the chain, and every reference count is right for those that are left |
| Buffers.BufBlk.AssignFromBlk | include/TW/tw_bufblk.h:432-461 | the chain shows, window by window, the same parts of the same memory, each counted once more |
| Buffers.BufBlk.Duplicate | include/TW/tw_bufblk.h:536-538 | the same as a new chain |
| Buffers.BufBlk.DeepCopy | include/TW/tw_bufblk.h:467-486 | a new chain with the same parts of copied memory, no two of its windows in one memory, none in old memory |
| Buffers.SameBytes | include/TW/tw_bufblk.h:432-461 | a duplicate reads the same bytes |
| Buffers.DeepBytes | include/TW/tw_bufblk.h:467-486 | so does a deep copy |
| Buffers.BufBlk.Gather | include/TW/tw_bufblk.h:1005-1021 | the copying path: succeeds exactly if the chain has enough bytes, and then holds exactly the slice, else all bytes from rd_offset on; in new memory of the size asked for, from its beginning |
| Buffers.BufBlk.GetContigBlock | include/TW/tw_bufblk.h:987-1030 | succeeds if and only if rd_offset lies in the chain and rd_offset + size does not exceed it; the result reads exactly that slice: it is that part of the window that shows all of it, or a copy in new memory if and only if there is no such window; without success the caller is left a copy of the bytes from rd_offset on, or nothing if they all lie in the last window or there are none; the chain is unchanged |
| Buffers.BufBlk.EatInside | include/TW/tw_bufblk.h:1055-1061 | a cut inside a window removes exactly its bytes: at the window's first byte by moving the read pointer, with no memory changed, else by moving the bytes behind the cut down and the write pointer back, with no byte of the memory changed but those from the cut to the new end |
| Buffers.BufBlk.ShiftLeft | include/TW/tw_bufblk.h:1055-1059 | the second of these: the memory is the old one with the bytes behind the cut moved down to it |
| Buffers.BufBlk.EatWithin | include/TW/tw_bufblk.h:1054-1070 | a cut that ends in the window it begins in: the bytes of the cut are gone, the window is released exactly if it is wholly inside, every other window shows what it showed, and memory changes exactly if something is left on either side of the cut |
| Buffers.BufBlk.EatBehind | include/TW/tw_bufblk.h:1071-1113 | a cut that keeps the beginning of a window and runs past it: the bytes of the cut are gone, exactly the windows wholly inside it released, each of the others shows the part of its memory that is not cut, and no memory changes |
| Buffers.BufBlk.EatFromStart | include/TW/tw_bufblk.h:1071-1113 | a cut that begins with a window's first byte and runs past it never releases exactly the windows inside it: that window goes together with all from the one on which the cut does not swallow, or none if it swallows only the first; no memory changes |
| Buffers.BufBlk.EatFound | include/TW/tw_bufblk.h:1054-1113 | the three cases together, from the window in which the first byte cut lies |
| Buffers.BufBlk.EatBytes | include/TW/tw_bufblk.h:1042-1119 | for every chain, the windows released are those wholly inside the cut if and only if the cut does not overrun the window it begins with; in that case the other windows stay linked in order and show their old part of their memory but for what is cut; memory changes if and only if something of one window is left on either side of the cut, and then only from the cut to the new end of that window, which holds what followed the cut; the chain reads as before without the cut (to the end if shorter), unless memory changes and two of its windows look into the same memory; in the other case the windows released instead, and the head, are told exactly |
| BufBlkTheory.CutAcross | include/TW/tw_bufblk.h:1071-1094 | the bytes left by a cut from inside one block to inside a later one |
| BufBlkTheory.EatenAcross | include/TW/tw_bufblk.h:1082-1094 | which blocks lie wholly inside such a cut |
| BufBlkTheory.OverrunsTwoBlocks | include/TW/tw_bufblk.h:1071-1113 | two blocks of two bytes and a cut of three: it overruns its first window, which lies wholly inside |
| BufBlkTheory.MovesOnce | include/TW/tw_bufblk.h:1055-1059 | bytes are moved in one block at most, and then no other block is cut |
| Buffers.EatTwoBlocks | include/TW/tw_bufblk.h:1042-1119 | the call of eatBytes on two such windows does not release exactly those inside the cut |
| BufferIteration.BufBlkIter.constructor | include/TW/tw_bufblk.h:1132-1137 | duplicates the chain, counting every block once more, and stands before its first byte |
| BufferIteration.BufBlkIter.Destroy | include/TW/tw_bufblk.h:1267-1270 | releases the duplicate |
| BufferIteration.BufBlkIter.GetNextChunk | include/TW/tw_bufblk.h:1148-1174 | hands out the bytes in order without gap or repetition, as many as asked for or as are left in the window, and moves on to the next window exactly in the second case |
| BufferRuns.NothingLeaks | include/TW/tw_bufblk.h:649-680 | when all handles are released no window and no memory block is left |
| BufferRuns.DoFill | include/TW/tw_bufblk.h:720-727 | seen from all handles: the first window shows as many more bytes as there was room for, and every other window, of the same chain and of all others, shows the bytes written where it shows that stretch of memory and is unchanged elsewhere |
| BufferPictures.OverwrittenBeside | include/TW/tw_bufblk.h:720-727 | a handle that shows nothing of the stretch of memory that is written is as before, an iterator's place included |
| BufferRuns.DoContig | include/TW/tw_bufblk.h:987-1030 | the view is a new handle: that part of the one window that shows all its bytes, or if there is no such window a copy that shares memory with no handle; a failed call makes the partial copy, or nothing |
| BufferRuns.DoEat | include/TW/tw_bufblk.h:1042-1119 | seen from all handles: exactly the windows inside the cut go, each of the others shows the part of its memory that is not cut; if no bytes are moved their texts are the old ones without the cut and no other handle sees a change; if bytes of one window are moved, every window onto that memory shows them where they are now and is unchanged elsewhere |
| BufferRuns.Unseen | include/TW/tw_bufblk.h:1042-1119 | a handle that shows nothing of the memory to which a cut moves bytes, and any handle if none are moved, is as before, an iterator's place included |
| BufferRuns.DoNextChunk | include/TW/tw_bufblk.h:1148-1174 | the iterator hands out the next part of what it has before it, as much as asked for or as is left of its window, and nothing else changes |
| BufferRuns.Step | include/TW/tw_bufblk.h:360-1270 | any operation on any handles does to what the handles show what that operation should do, with the exact bytes for writes, contiguous views, cuts and chunks; it keeps the chains apart and every reference count right |
| BufferRuns.Run | include/TW/tw_bufblk.h:360-1270 | for every sequence of constructing, writing, duplicating, deep copying, taking contiguous views, cutting, joining, releasing and opening, reading and closing iterators: what the handles show follows the operations one by one, each live memory block counts exactly the windows that look at it, and nothing leaks |

## Left out

- BTree.KbTree.Put: keys only; `n_nodes` is not modelled (the source does not decrement it on merges).
- BTree.KbTree.Delp: requires the key to be present, because the leaf case of the source removes a slot without comparing; of records that compare equal the model does not tell which one goes, and the source's merge path puts the caller's record in the tree.
- KHashTheory.UpperIs: the bound `n * 0.77 + 0.5`, a double cut to an integer, is the integer `(77 n + 50) / 100`; the two agree on all powers of two from 4 to 2^31 and on all primes of the khash2 table.
- KHash2.KhMap.Resize: when the new capacity is taken, requires that no live bucket lies beyond it, since such a key would be read past the end of its array (`KHash2.ShrinkTooFar`), and that it is at most 2^31 (`KHash2.StepsCollide`); and that the request is below the last prime, behind which the source reads past its table.
- KHash2.KhMap.constructor: the table of primes is a parameter, 0 followed by odd primes in increasing order.
- KHash2.FirstPrimes: that the constants of the header are prime is proved for its first three lines, up to 49157; the proof by trial division gets as long as the root of the number.
- KHash2.KhMap.MakeRoom: excludes a full table that must grow and whose next prime is missing, which the source would read past its table, or above 2^31, where its searches go wrong.
- KHash2.KhMap.Insert: the same tables are excluded, by `CanMakeRoom`.
- KHash2.KhMap.Index: likewise.
- SplayRuns.Run: counts the passes of the splay loops, each of which makes two comparisons at most; the walk of `SPLAY_NEXT` down the right subtree after its splay is not counted.
- Splay.SplayHead.MinMax: requires a value other than 0, with which the source's loop does not end.
- Buffers.BufBlk.GetContigBlock: for non-negative arguments.
- Buffers.BufBlk.EatBytes: for non-negative arguments; in the case of an overrun the released windows and the returned head are described, not what the remaining windows show and how they are linked.
- BufferRuns.Step: a cut is taken only where it does not overrun the window it begins with, which a caller can look up (`TestCut`).
- Buffers.BufBlk.AssignFromBlk: requires, as the source does, that the windows behind the first have memory.
- BufferIteration.BufBlkIter.GetNextChunk: for a limit of -1 or more; `previewNextChunk`, `copyNextChunks` and `rewind` are not modelled.
- Circular.SafeCircular.AddLocked: errors of the pthread calls are not modelled; moving variants (`addMv`, `removeMv`) are the same code with a move.
- CircularSystem.StepKeeps: the timed remover really waits without a limit, so nothing is said about its timeout; `clear` is taken on a buffer of plain values, without the rebuilding of objects; a reversal is a step of a thread that holds the lock, although the source's `reverse` takes none.
- Blocks' pointers are offsets from the base of their memory; marks, flags, `resize`, `fillWith`, `rewind`, hex dumps and memory passed in by the caller (`manage`) are not modelled. The assignment operator of `BufBlk` is not either.
- The reference counts' own mutex is not modelled; the source destroys it at every release, also when the block lives on.
- Integers are unbounded where no wrap is mentioned: lengths and offsets of chains are not reduced to 32 bits.
- Allocation failure, logging and destructors of keys and values.
- The lock of `TW_KHash_32`: its methods are modelled as one caller runs them. Values are stored directly, not through pointers; `addReplaceNew` and `addNoreplaceNew` differ from the modelled methods in the value only.
- `get`, `set`, `iter`, `unblockAll`, `cloneFrom` and `transferFrom` of the circular buffer.
- Linear probing (`KHASH_LINEAR`), the hash functions and their quality, `khset_t`, `clone` and iterators of khash2.
- The variants of `RB_FOREACH` and `SPLAY_FOREACH`, and `RB_AUGMENT`, which is empty.
- `__kb_destroy` and `kb_interval` by value; the linear node search `__kb_get_aux`, which the header does not select.
- The simple containers (`tw_fifo`, `tw_list`, `tw_dlist`, `tw_llist`, `tw_stack`, `tw_array`), `tw_ktree.h`, `tw_rbtree.h`, the dense and sparse hash wrappers, tasks and auto pointers: their properties would be easy members, or rest on code that is not part of this model.
