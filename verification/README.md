# Verified model of the ad exchange's core algorithms

Dafny models of the parts of the system that carry the hardest promises, with proofs that the promises hold:

- **`RbTree.dfy`, `Spans.dfy`** - the red-black tree under the consistent-hash ring: nodes with parent links and one
  shared sentinel, rewritten in place. The abstract value of a tree is the sequence of its nodes in key order.
- **`RbExamples.dfy`, `RingExamples.dfy`** - concrete trees, and a run of a ring, on which a promise of that code fails.
- **`Ring.dfy`, `ConHash.dfy`** - the ring as a map from hash to owner, and the code that keeps it in the tree.
- **`Lifecycle.dfy`, `ParaList.dfy`** - a request's way through the adapter: as a system of steps that threads may
  interleave in any order, and as the critical sections of the in-flight list.
- **`Refinement.dfy`** - the critical sections do what runs of those steps do.
- **`DualSvm.dfy`, `DualSolver.dfy`, `Primal.dfy`** - the shrinking dual coordinate descent, over exact reals: its
  objective, its loops against a specification of passes, and the separating plane for the given labels.
- **`Transpose.dfy`, `Grouping.dfy`, `CrossValidation.dfy`** - the array algorithms of the same library, on the shared
  `Sparse.dfy`, `Buckets.dfy` and `Permutations.dfy`.
- **`Md5.dfy`** - the streaming hash; one block's compression is a parameter.
- **`IpTrie.dfy`** - the trie from address prefixes to areas.
- **`Base64.dfy`, `Url.dfy`** - the codecs.
- `Seqs.dfy`, `Bytes.dfy`, `Division.dfy` - what several of them share.

`dafny verify dfyconfig.toml` checks everything.

## What to know when reading

- *Tree.* The operations never write a node's key and data; whoever hands in a node has set them. The model names the
  node that the root's parent link leads to `stale`; it should be the sentinel. The test on line 169 of
  `util_rbtree.c` never holds, because the minimum of a subtree has no left child. Three promises fail:
  - *Insertion keeps a red-black tree.* When the root of two nodes is deleted, deletion returns early and the new root's
    parent link is left at the deleted node (lines 178-183; `Delete` says exactly when). Inserting a node in the same
    memory, under any key, makes the root's parent link lead into the tree. `Insert` keeps validity if and only if the
    tree was empty or the node is another one. What it makes is still a red-black tree but for that link; the
    insertions after it may not. `InsertAgain` says what they keep, `InsertAtSelf` is the exact condition for a root that
    is its own parent, and `RingExamples.ReusedRoot` is a run that ends with different heights.
  - *The self-check tells a red-black tree from any other.* There are two causes. Below a node without a left child
    it does not look right (lines 466-469), and it compares keys of parent and child only (lines 459 and 478).
    `CheckFooled` and `OrderFooled` are a tree for each; `CheckDecides` and `SelfCheck` give the exact condition for
    trees in key order.
  - *The self-check reports the longest road.* `DepthMissed` is a tree where it does not; `DepthExact` is the exact
    condition, and `DepthSeen` bounds what is missed by one.
- *Ring.* The hash and the naming of replicas are arbitrary functions. A server's name and number of replicas do not
  change while it is in the ring, and a server is deleted from the ring that it is in. `conhash_fini` leaves the
  servers' flags and the count as they are, and so does the model. Unsigned counters do not wrap.
  `__conhash_del_rbnode` releases the deleted node, and the next `malloc` may return the same memory for any server
  and key, so the failing insertion above can happen in a ring. That an addition always keeps the ring's tree valid is
  therefore false. The memory handed out for replicas is a parameter (`cells`): any nodes outside the tree, which
  `FillCell` writes the key and the data into. `Anchored` says that no link leads to released memory. The empty ring is
  anchored, additions keep that, and so does every deletion of a server that does not leave exactly one virtual node
  (`ivnodes != 1`). In an anchored ring any memory may come back; in any other the node left behind must not be among
  the new cells. `PutVnode` says that for each replica put in this is exactly what decides. In a ring that is not
  anchored the loop also reads the colour of the released node (`util_rbtree.c:90`). That whoever uses that memory in
  the meantime leaves a black colour there is an assumption: it is part of `Valid`.
- *Lifecycle.* Dispatching (raising the bid session's counter, pushing, sending) is one step, so a teardown between
  fetching the list and pushing is not in the model. The steps allow more interleavings than the lock does. Time,
  sockets and whether a write happens are choices of the step. The remote loop takes a request off before it looks at
  the packet's length (`AdAdapter.cpp:360-363`), so a request can get lost; that is a step of its own (`Drop`).
  "Every request is served" therefore fails: `DropsExactly` says when a request is lost, `LossExample` shows one,
  `DroppedForever` says that nothing later makes up for it and that the bid session stays active, and `Finishes` that
  all others can be served from every reachable state. `pop` reads the front before it removes it.
- *Solver.* Reals are exact. A zero curvature is possible only for a row without non-zero values in the bounded
  problem; the division then gives an infinity, as in IEEE arithmetic, and the projection a bound. Random numbers are
  any numbers; what training draws is a parameter of the learner. The stopping test compares the projected gradients
  with each other, not with zero, so `AgreedMeans` states what it gives as it is; `GapBounds` bounds the distance to
  the optimum by a sum that can be computed from the result.
- *MD5.* `nbytes << 3` is taken modulo 2^32, and an append is short enough for `offset + nbytes` to fit an `int`.
- *Trie.* The parser of addresses is an arbitrary function, and the records of the file are given. Any insertion whose text is `0.0.0.0` writes the root.
- *Codecs.* `isalnum` is that of the C locale. What `FromHex` returns for other characters is a parameter, as the
  variable is not set. The decoder of Base64 does not skip foreign characters: they count as digit 0.

## Model

| member | source | states |
|---|---|---|
| RbTree.Tree.constructor | libconhash/util_rbtree.c:25-33 | an empty tree is valid: a black sentinel as its root, no elements |
| RbTree.Tree.LeftRotate | libconhash/util_rbtree.c:329-359 | a left rotation keeps links and in-order sequences; only the three links of the two nodes change, and the root if it was the upper one |
| RbTree.Tree.RightRotate | libconhash/util_rbtree.c:361-391 | the mirror image of the left rotation |
| RbTree.Tree.FindPlace | libconhash/util_rbtree.c:64-71 | the walk ends at the node below which the key belongs: all nodes before the place have keys up to it, all after it greater ones |
| RbTree.Tree.Attach | libconhash/util_rbtree.c:72-80 | the new red leaf stands next to its parent in the sequence, and the only rule it can break is red under red at itself |
| RbTree.Tree.InsertRecolor | libconhash/util_rbtree.c:96-102 | recolouring under a red uncle moves the one possible violation up to the grandparent |
| RbTree.Tree.InsertStep | libconhash/util_rbtree.c:90-140 | one round of the repair keeps the sequence and either removes the violation or moves it strictly nearer to the root |
| RbTree.Tree.InsertFixup | libconhash/util_rbtree.c:87-143 | the repair loop terminates with every colour and height rule restored, a black root, and the same sequence, also when the inserted node is the one that the root's parent link was left at and hangs as a leaf |
| RbTree.Tree.InsertNode | libconhash/util_rbtree.c:57-82 | the root's parent link leads into the tree afterwards if and only if it was left at the inserted node |
| RbTree.Tree.InsertAgain | libconhash/util_rbtree.c:49-84 | a further insertion into a tree whose root's parent link leads into it keeps the shape, unless recolouring comes to the root while its parent is red |
| RbTree.Tree.RoundAtSelf | libconhash/util_rbtree.c:90-142 | the round at a red root that is its own parent ends the loop and leaves no red-black tree, whatever the tree |
| RbTree.Tree.InsertAtSelf | libconhash/util_rbtree.c:49-84 | a further insertion into a tree whose root is its own parent ends in a red-black tree if and only if recolouring does not come to the root |
| RbTree.Tree.Insert | libconhash/util_rbtree.c:49-84 | inserting any node that is not in the tree, whatever key was written into it, puts it after all keys up to its own and restores all colour, height and order rules; the tree is valid again if and only if it was empty or the node is not the one that an earlier deletion left the root's parent link at |
| RbTree.InsertedSpan | libconhash/util_rbtree.c:62-75 | hanging the leaf below the found parent puts it exactly at its place in the sorted sequence |
| RbTree.InsertedSplits | libconhash/util_rbtree.c:62-75 | in a sorted sequence the new node comes after every key up to its own and before every greater one |
| RbTree.Tree.FindVictim | libconhash/util_rbtree.c:155-177 | which node leaves its position and which replaces it, in all four cases |
| RbTree.Tree.Splice | libconhash/util_rbtree.c:191-241 | the successor takes the place of a node with two children, also when it is that node's own right child: exactly that node leaves the sequence |
| RbTree.Tree.Remove | libconhash/util_rbtree.c:185-206 | a node with at most one child is cut out, its child hung in its place |
| RbTree.Tree.DeleteRoot | libconhash/util_rbtree.c:178-183 | the shortcut for a root with at most one child leaves a valid tree, but the parent link of the new root is left at the deleted node: exactly for the root of two nodes |
| RbTree.Tree.DeleteStep | libconhash/util_rbtree.c:256-325 | one round of the repair after a deletion keeps the sequence and ends the shortage of black or moves it strictly up |
| RbTree.Tree.DeleteFixup | libconhash/util_rbtree.c:252-327 | the repair loop terminates with equal black heights and no red node under a red one |
| RbTree.Tree.DeleteNode | libconhash/util_rbtree.c:155-248 | all cases together: links, order, colours and heights hold again, the nodes are the old ones without the deleted one, whose links are cleared |
| RbTree.Tree.Delete | libconhash/util_rbtree.c:146-249 | deleting any node of a valid tree leaves a valid tree with exactly the other nodes in the same order; size one less; the root's parent link is left at the deleted node if that was the root of two nodes, is the sentinel if the tree is empty now, and as before otherwise |
| RbTree.Tree.ReachDown | libconhash/util_rbtree.c:393-432 | every step down uses up the bound of two for each black node and one for a red one |
| RbTree.Tree.BlackHeightBound | libconhash/util_rbtree.c:393-432 | a subtree of black height b has at least 2^b - 1 nodes |
| RbTree.Tree.Search | libconhash/util_rbtree.c:393-407 | finds a node with the key exactly if there is one; it looks at as many nodes as lie on the way of that key, at most twice the logarithm of size + 1 |
| RbTree.Tree.Lookup | libconhash/util_rbtree.c:409-432 | finds the first node whose key is not smaller than the given one, else the first of all; null only in an empty tree; it looks at the nodes on the way of that key, within the same bound, and if every key is smaller at those on the way to the minimum too |
| RbTree.Tree.DepthSeen | libconhash/util_rbtree.c:434-528 | a valid tree is no deeper than twice its black height, and the self-check sees all of the depth but at most one node |
| RbTree.Tree.LoneRightMissed | libconhash/util_rbtree.c:466-485 | what the self-check misses: the right child of a node that has no left child |
| RbTree.Tree.CheckSubtree | libconhash/util_rbtree.c:434-503 | on any linked search structure the recursive check finds no fault if and only if none is visible below the node and the height agrees with that of the roads before; the depth is the visible one |
| RbTree.Tree.CheckDecides | libconhash/util_rbtree.c:434-528 | of the trees in key order the check accepts exactly the balanced ones and those with more than a red leaf below a node without a left child |
| RbTree.Tree.DepthExact | libconhash/util_rbtree.c:466-503 | the depth that the check sees of a valid tree is the true one if and only if some deepest node is not the right child of a node without a left child |
| RbTree.Tree.NoteHeights | libconhash/util_rbtree.c:434-528 | a linked tree in key order that keeps the colour and height rules is a red-black tree as the operations require it |
| RbTree.Tree.SelfCheck | libconhash/util_rbtree.c:505-528 | 0 if and only if no fault is visible; a tree in key order is balanced if and only if it gets 0 and has at most a red leaf below each node without a left child; the reported depth of a valid tree is true if and only if a deepest node is visible |
| RbExamples.DepthMissed | libconhash/util_rbtree.c:466-503 | a valid tree of depth 2 for which the reported depth is 1 |
| RbExamples.CheckFooled | libconhash/util_rbtree.c:466-503 | an unbalanced tree that the self-check accepts |
| RbExamples.OrderFooled | libconhash/util_rbtree.c:459-478 | a tree of five nodes out of key order, without a lone right child, that the self-check accepts |
| RingExamples.ReusedRoot | libconhash/conhash_inter.c:38-116 | two servers go in, the one whose node is the root goes out, and its released node comes back under another key for a third server: with that server's third key the tree is no red-black tree |
| Spans.MovedSuccessor | libconhash/util_rbtree.c:212-241 | moving the successor into the place of a node only takes that node out of the sequence |
| Ring.Owner | libconhash/util_rbtree.c:409-432 | the owner of a hash is that of the least key not below it, else of the least key of all; none only in an empty ring |
| Ring.ServesExists | libconhash/util_rbtree.c:409-432 | some key of a ring that is not empty serves any hash |
| Ring.AddedWhole | libconhash/conhash_inter.c:38-60 | adding replicas gives the new server all their keys that were free, whatever their order and repetitions |
| Ring.DeletedWhole | libconhash/conhash_inter.c:62-86 | deleting replicas takes away exactly those of their keys that the server owns |
| Ring.AddMonotone | libconhash/conhash_inter.c:38-60 | after adding a server an object stays with its owner or goes to the new server |
| Ring.DeleteMonotone | libconhash/conhash_inter.c:62-86 | after deleting a server only the objects it owned change owner |
| Ring.DeleteLeavesOthers | libconhash/conhash_inter.c:62-86 | deleting the replicas of a server whose keys they cover leaves exactly the other servers' keys |
| Ring.DeleteUndoesAdd | libconhash/conhash_inter.c:38-86 | deleting undoes adding even when replicas collide with each other or with other servers' |
| ConHash.RingInserted | libconhash/conhash_inter.c:52-57 | inserting a virtual node into the tree adds its key to the ring |
| ConHash.RingDeleted | libconhash/conhash_inter.c:78-83 | deleting a virtual node from the tree removes its key from the ring |
| ConHash.RingServes | libconhash/conhash.c:104-110 | the node that the tree's lookup finds belongs to the owner of the hash |
| ConHash.ConHash.constructor | libconhash/conhash.c:7-33 | an empty ring with the given hash function, or the default one if there is none, is valid |
| ConHash.ConHash.FillCell | libconhash/conhash_inter.c:88-109 | a cell becomes the virtual node of that key and server, whatever it held before |
| ConHash.ConHash.PutVnode | libconhash/conhash_inter.c:52-57 | a virtual node for a free key leaves a valid tree if and only if the tree was empty or its memory is not that of the released node that the root's parent link was left at, whichever key and server that had |
| ConHash.ConHash.AddReplica | libconhash/conhash_inter.c:45-58 | a replica goes in unless its key is taken; the first owner keeps it |
| ConHash.ConHash.AddReplicas | libconhash/conhash_inter.c:38-60 | the replicas in turn, in whatever memory the allocator gives but the node left behind, keep the invariant |
| ConHash.ConHash.DelReplica | libconhash/conhash_inter.c:70-84 | a replica comes out only if its key belongs to the server |
| ConHash.ConHash.DelReplicas | libconhash/conhash_inter.c:62-86 | the replicas in turn, keeping the invariant |
| ConHash.ConHash.AddNode | libconhash/conhash.c:58-74 | 0 exactly for an initialised server that is in no ring; then the hash of every replica's name is a key of the ring, the server's own if it was free, and objects only move to it; otherwise -1 and nothing changes; memory may be reused freely as long as the ring is anchored, which an addition keeps |
| ConHash.ConHash.DelNode | libconhash/conhash.c:76-92 | 0 exactly for a server that is in the ring; then no key refers to it and only its objects move; otherwise -1 and nothing changes; an anchored ring stays anchored unless exactly one virtual node is left |
| ConHash.ConHash.LinksInside | libconhash/conhash_inter.c:104-117 | in an anchored ring no link of the tree leads to a released node |
| ConHash.ConHash.Lookup | libconhash/conhash.c:94-112 | the server that owns the hash of the name, and null only if the ring is empty |
| ConHash.ConHash.CountsKeys | libconhash/conhash.c:35-112 | the count of virtual nodes is the tree's size and the number of distinct keys |
| ConHash.ConHash.Fini | libconhash/conhash.c:35-48 | empties any ring by a decreasing size and releases every virtual node exactly once |
| ConHash.ConHash.AddThenDelete | libconhash/conhash.c:58-92 | a server taken in and out again leaves every key with its owner |
| Lifecycle.InvKept | adapter/AdAdapter.cpp:254-833 | every step of every thread keeps the whole invariant |
| Lifecycle.InvRuns | adapter/AdAdapter.cpp:254-833 | the invariant holds after every run, whatever the interleaving |
| Lifecycle.ListsKept | inc/AdParaList.h:28-125 | free blocks are not in use, lists have no repetitions, and a listed block is in use by that list only |
| Lifecycle.PlacedKept | inc/AdParaList.h:28-125 | a block that is in a list is in the list it was dispatched to |
| Lifecycle.TrackedKept | adapter/AdAdapter.cpp:254-493 | each request's history of closings, writes and releases agrees with where its block is |
| Lifecycle.CountedKept | libnet/src/AdSession.cpp:395-431 | each session is held once for every request it still waits for and for every one it lost |
| Lifecycle.LateFirstKept | inc/AdParaList.h:56-84 | no step lets a timed-out request stand behind one in time |
| Lifecycle.PairedKept | adapter/AdAdapter.cpp:353-394 | on a remote session the requests taken off are the first ones sent, in order |
| Lifecycle.ServedOnce | adapter/AdAdapter.cpp:254-833 | a source is written and closed at most once, its block freed at most once and never before; unfinished requests are exactly those with a block, and unclosed ones those whose block is open |
| Lifecycle.ActiveCount | adapter/AdAdapter.cpp:254-833 | a session's active count is its open requests plus the responses being taken in plus the requests dropped on it plus, for a registered bid session, 1 and its list's length |
| Lifecycle.IdleWasActive | libnet/src/AdSession.cpp:424-431 | a session that is set idle was active, so the counter never sticks at zero |
| Lifecycle.Dispatched | adapter/AdAdapter.cpp:681-811 | an accepted request that is dispatched gets a block in no use, goes to the end of the list it is sent to, and its source and the bid session wait for one more |
| Lifecycle.Rejected | adapter/AdAdapter.cpp:681-831 | a request that no engine takes is answered at once, its block given back, and it leaves nothing but its history |
| Lifecycle.ExpiresFirst | inc/AdParaList.h:56-84 | a time-out closes the source of the first request still in time and marks it; nothing else changes |
| Lifecycle.TakesNamed | adapter/AdAdapter.cpp:322-327 | a local response takes off the block it names, wherever that is in the list; every other block and list keeps its place and order |
| Lifecycle.LocalResponse | adapter/AdAdapter.cpp:314-343 | the run of a local response closes, writes and frees exactly the request of the block it names |
| Lifecycle.RemoteResponse | adapter/AdAdapter.cpp:358-386 | the run of a remote response closes, writes and frees exactly the request at the front |
| Lifecycle.FreshBlock | adapter/AdAdapter.cpp:52-69 | the block handed to a new request is in no list and in no other use |
| Lifecycle.ResponsesInOrder | adapter/AdAdapter.cpp:353-394 | the k-th response on a remote session takes off the k-th request sent, however many have timed out |
| Lifecycle.LateAreFirst | inc/AdParaList.h:56-84 | in every reachable list the timed-out requests are exactly a prefix |
| Lifecycle.AllServed | adapter/AdAdapter.cpp:254-833 | once no block is in use every request was closed once, written at most once and freed once, and only registrations hold sessions |
| Lifecycle.CheckIsRun | inc/AdParaList.h:56-84 | a whole check, however far it gets, is a run of single expiries in order that closes exactly the requests it marks |
| Lifecycle.ClearIsRun | inc/AdParaList.h:28-53 | a whole clear is a run that frees every listed block, closes those still open, sets the bid session idle once for each and once for itself, and unregisters it |
| Lifecycle.LostForever | adapter/AdAdapter.cpp:360-392 | a lost block stays as it is in every run, further drops included |
| Lifecycle.DroppedForever | adapter/AdAdapter.cpp:360-392 | a request that is taken off for a packet without a positive length is never freed, if still in time never closed, and its bid session never idle, in any later run |
| Lifecycle.Advanced | adapter/AdAdapter.cpp:254-833 | every step of that kind brings some block strictly further on its way, so no run makes more of them than its start allows |
| Lifecycle.Finishes | adapter/AdAdapter.cpp:254-833 | from every reachable state some run ends with no block in use but those lost before |
| Refinement.CheckRefines | inc/AdParaList.h:56-84 | what the list's check marks and closes, a run of expiries marks and closes in the same order |
| Refinement.ClearRefines | inc/AdParaList.h:28-53 | what the list's clear frees and closes, the run that tears the session down frees and closes in the same order |
| Refinement.DelRefines | inc/AdParaList.h:94-110 | the list's del finds a block exactly if its response can be taken, and leaves the list as that step does |
| ParaList.Adapter.AllocPara | adapter/AdAdapter.cpp:52-69 | a pooled block with its mark cleared, or a new one |
| ParaList.Adapter.Finish | adapter/AdAdapter.cpp:369-386 | the source is closed unless that was done at the time-out; the block is given up |
| ParaList.List.Del | inc/AdParaList.h:94-110 | removes the first occurrence and says whether there was one |
| ParaList.ReachedAt | inc/AdParaList.h:56-84 | a check gets to the first request that is neither marked nor over |
| ParaList.List.Check | inc/AdParaList.h:56-84 | counts and marks exactly the requests up to the first that is neither marked nor over, and closes exactly those not marked before, in order |
| ParaList.List.Clear | inc/AdParaList.h:28-53 | closes exactly the requests still in time, in order, gives up every block, empties the list, and sets the bid session idle once for each |
| ParaList.List.TakeAnswer | adapter/AdAdapter.cpp:360-392 | one turn of the remote loop: the front is off the list whatever the packet's length |
| ParaList.List.Drain | adapter/AdAdapter.cpp:353-394 | the k-th waiting request is answered if and only if all earlier packets are positive and end before the buffer does and its own length is positive; one more is taken off if the loop comes to a length that is not |
| ParaList.AnswersExactly | adapter/AdAdapter.cpp:358-393 | a waiting request is answered if and only if the loop comes to its packet and that has a positive length, also when it fills the buffer |
| ParaList.DropsExactly | adapter/AdAdapter.cpp:360-394 | a request is lost if and only if the loop comes, with a request waiting, to a packet length that is not positive |
| ParaList.LossExample | adapter/AdAdapter.cpp:360-363 | one waiting request and a first length of -1: it is not answered but lost |
| Permutations.Shuffle | ibidding/liblinear-1.96/linear.cpp:849-853 | whatever the random numbers, the first entries are permuted among themselves and the rest stays |
| DualSvm.AddRowAt | ibidding/liblinear-1.96/linear.cpp:908-913 | adding a multiple of a sparse row adds the multiple of each coefficient to its weight |
| DualSvm.DotIsInner | ibidding/liblinear-1.96/linear.cpp:861-866 | the sparse product is the full inner product |
| DualSvm.WeightsUpdate | ibidding/liblinear-1.96/linear.cpp:905-913 | changing one multiplier and adding the difference times its row keeps the weights the sum over all examples |
| DualSvm.DualIsNorm | ibidding/liblinear-1.96/linear.cpp:751-767 | the objective of the header comment, from the matrix Q + D, equals the one computed from the weights |
| DualSvm.DualAlong | ibidding/liblinear-1.96/linear.cpp:858-870 | along one coordinate the dual objective is a parabola with the computed gradient and curvature |
| DualSvm.NewAlphaIsBest | ibidding/liblinear-1.96/linear.cpp:906 | no value in the box does better than the projected step, also for a zero curvature |
| DualSvm.NewAlphaGains | ibidding/liblinear-1.96/linear.cpp:906 | the projected step gains at least half the curvature times its square |
| DualSvm.StepIsMove | ibidding/liblinear-1.96/linear.cpp:903-914 | the step sets one multiplier to its best feasible value |
| DualSvm.StuckIsBest | ibidding/liblinear-1.96/linear.cpp:872-898 | a multiplier whose projected gradient is zero is already best |
| DualSvm.DualConvex | ibidding/liblinear-1.96/linear.cpp:751-767 | the dual objective lies above its tangent at any multipliers |
| DualSvm.BestIsOptimal | ibidding/liblinear-1.96/linear.cpp:844-940 | multipliers in the box that are best in every single coordinate have the least objective of all in the box |
| DualSolver.ExtremesAre | ibidding/liblinear-1.96/linear.cpp:903-904 | the two bounds that a pass computes are attained by projected gradients of the pass and enclose all of them |
| DualSolver.NarrowMeans | ibidding/liblinear-1.96/linear.cpp:922-936 | the stopping test holds if and only if any two projected gradients of the pass differ by at most eps |
| DualSvm.Product | ibidding/liblinear-1.96/linear.cpp:861-866 | the loop computes the product of the weights and a row |
| DualSvm.AddInto | ibidding/liblinear-1.96/linear.cpp:908-913 | the loop adds the multiple of the row to the weights |
| DualSolver.Prepare | ibidding/liblinear-1.96/linear.cpp:784-842 | the start: signs, curvatures, zero multipliers and weights, indices in order |
| DualSolver.Visit | ibidding/liblinear-1.96/linear.cpp:857-914 | one visit shrinks, moves or leaves an example, by the stated tests; the weights stay in step; a moved or stuck multiplier is best |
| DualSolver.Retire | ibidding/liblinear-1.96/linear.cpp:875-893 | a shrunk example moves behind the active ones |
| DualSolver.Turn | ibidding/liblinear-1.96/linear.cpp:857-915 | a turn is exactly that of the specification: the example is shrunk away, or kept with its projected gradient and moved if that is significant |
| DualSolver.TurnLowers | ibidding/liblinear-1.96/linear.cpp:857-914 | a turn stays in the box and never raises the objective |
| DualSolver.Pass | ibidding/liblinear-1.96/linear.cpp:846-915 | a pass visits the active examples in some order, each once, and its multipliers, the examples it keeps and its range of projected gradients are exactly the outcome of the turns in that order |
| DualSolver.FullNotes | ibidding/liblinear-1.96/linear.cpp:872-904 | in a pass without shrinking the k-th projected gradient noted is that of the k-th example at the multipliers of that moment |
| DualSolver.OptimalIff | ibidding/liblinear-1.96/linear.cpp:872-898 | multipliers in the box are a global minimum if and only if every projected gradient is zero there |
| Primal.WeakDuality | ibidding/liblinear-1.96/linear.cpp:751-767 | for the labels, costs and losses as given, no plane has an objective below the negated dual of any feasible multipliers |
| Primal.StrongDuality | ibidding/liblinear-1.96/linear.cpp:751-767 | multipliers are a global minimum if and only if the objective of their weights equals the negated dual, and then no plane is better |
| Primal.GapBounds | ibidding/liblinear-1.96/linear.cpp:751-767 | the sum of the two objectives bounds how far multipliers and weights are from the best |
| Primal.SolvedIsBest | ibidding/liblinear-1.96/linear.cpp:778-965 | weights in step with a run that ends with all projected gradients zero are a best plane for the labels |
| DualSolver.FullPassIsTest | ibidding/liblinear-1.96/linear.cpp:846-915 | a pass over all examples notes zeros only if and only if it starts from a global minimum, and then it stays there |
| DualSolver.VisitsOnce | ibidding/liblinear-1.96/linear.cpp:844-940 | no pass of a run visits an example twice |
| DualSolver.BoundsSensible | ibidding/liblinear-1.96/linear.cpp:934-939 | the bounds handed to any pass leave room on both sides of zero |
| DualSolver.ShrinksExactly | ibidding/liblinear-1.96/linear.cpp:872-898 | an example is shrunk if and only if its multiplier sits at a bound, it could not be moved and its gradient is outside the last range; it is then best where it is |
| DualSolver.PassesLower | ibidding/liblinear-1.96/linear.cpp:844-940 | along a run the objective never rises and the box is never left |
| DualSolver.AgreedMeans | ibidding/liblinear-1.96/linear.cpp:922-936 | a run that ends before the limit ends with a pass that visited every example and shrank none away; any two projected gradients found at its turns differ by at most eps, and they are all zero if and only if the pass started from a global minimum, which is then the result |
| DualSolver.Report | ibidding/liblinear-1.96/linear.cpp:948-958 | the reported value is the dual objective |
| DualSolver.Solve | ibidding/liblinear-1.96/linear.cpp:778-965 | the run is exactly the sequence of passes that the shrinking rules allow, from zero multipliers with all examples active to the first agreement over all examples or the limit; the weights stay in step and the value reported is the objective of the result, at most 0 |
| Transpose.ColumnExact | ibidding/liblinear-1.96/linear.cpp:2084-2095 | column j holds (i + 1, v) if and only if row i holds (j + 1, v) |
| Transpose.ColumnAscending | ibidding/liblinear-1.96/linear.cpp:2084-2095 | each column is strictly ascending in row numbers |
| Transpose.TransposeTwice | ibidding/liblinear-1.96/linear.cpp:2049-2102 | transposing twice gives the rows back |
| Transpose.Layout | ibidding/liblinear-1.96/linear.cpp:2065-2082 | the columns start one after the other, each with room for its features and an end mark |
| Transpose.Place | ibidding/liblinear-1.96/linear.cpp:2084-2095 | every feature goes to the next cell of its column |
| Transpose.Mark | ibidding/liblinear-1.96/linear.cpp:2096-2097 | the end marks overwrite no feature |
| Transpose.ReadsColumn | ibidding/liblinear-1.96/linear.cpp:2096-2097 | a reader that stops at the first end mark reads exactly the column |
| Transpose.Transpose | ibidding/liblinear-1.96/linear.cpp:2049-2102 | the columns with their end marks tile all nnz + n cells, from the first to the last, and reading from each start gives the column |
| Buckets.Put | ibidding/liblinear-1.96/linear.cpp:2089-2092 | appending to one segment leaves all others as they are |
| Grouping.CountClasses | ibidding/liblinear-1.96/linear.cpp:2116-2141 | labels in the order of first occurrence, each example's class, and how many each class has |
| Grouping.SwapClasses | ibidding/liblinear-1.96/linear.cpp:2143-2159 | +1 goes before -1 if those are the two classes in the other order, and the counts and classes follow |
| Grouping.PlaceAll | ibidding/liblinear-1.96/linear.cpp:2161-2169 | each example goes to the next place of its class |
| Grouping.MembersAre | ibidding/liblinear-1.96/linear.cpp:2165-2169 | a class has exactly the examples with its label, in ascending order |
| Grouping.TruncateIs | ibidding/liblinear-1.96/linear.cpp:2118 | labels are cut off towards zero |
| Grouping.ClassesInOrder | ibidding/liblinear-1.96/linear.cpp:2143-2159 | labels -1 and 1 alone come as 1, -1; all others in the order of their first occurrence |
| Grouping.GroupedIsPermutation | ibidding/liblinear-1.96/linear.cpp:2106-2179 | a grouping is a permutation of all examples |
| Grouping.GroupClasses | ibidding/liblinear-1.96/linear.cpp:2106-2179 | distinct labels in the stated order, each class in one segment in ascending order, counts that sum up to all examples |
| CrossValidation.FoldSize | ibidding/liblinear-1.96/linear.cpp:2443-2444 | folds are not empty and their sizes differ by at most one |
| CrossValidation.FoldOf | ibidding/liblinear-1.96/linear.cpp:2443-2444 | every position is in a fold |
| CrossValidation.FoldUnique | ibidding/liblinear-1.96/linear.cpp:2443-2444 | and in only one |
| CrossValidation.OutsideIs | ibidding/liblinear-1.96/linear.cpp:2459-2471 | a training set has every example outside the fold once and none inside |
| CrossValidation.SubProblem | ibidding/liblinear-1.96/linear.cpp:2455-2471 | the two loops collect the rows and labels of those examples in order |
| CrossValidation.TrainFold | ibidding/liblinear-1.96/linear.cpp:2448-2474 | the fold's targets become predictions of one model of the others, whatever random numbers went into it; no other target changes |
| CrossValidation.CrossValidate | ibidding/liblinear-1.96/linear.cpp:2425-2481 | as many folds as asked for, at most one for each example; every target is written exactly once, fold by fold |
| CrossValidation.EveryTarget | ibidding/liblinear-1.96/linear.cpp:2425-2481 | example i is in the fold f from f*l/n to (f+1)*l/n of the order, and its target is what the learner predicts for it after training, with some random numbers, on the rows and labels of all others outside that fold, in order |
| Md5.FoldWaits | libconhash/md5.c:339-345 | bytes that do not fill a block change no compressed state |
| Md5.FoldCompletes | libconhash/md5.c:339-353 | bytes that fill a block have it compressed |
| Md5.CountsGrow | libconhash/md5.c:333-337 | two 32-bit words and a carry count the bits modulo 2^64 |
| Md5.CountsOffset | libconhash/md5.c:327 | the offset in the block comes from the low word alone |
| Md5.LittleEndianWords | libconhash/md5.c:372-374 | eight bytes of a 64-bit number are the low word's, then the high word's |
| Md5.State.constructor | libconhash/md5.c:312-320 | the initial state stands for the empty message |
| Md5.State.Append | libconhash/md5.c:322-358 | any append extends the message by exactly its bytes |
| Md5.State.Finish | libconhash/md5.c:360-381 | the digest is what RFC 1321 computes step by step: from the four initial words through one process call for each block of the message with 0x80, zeros and the bit count, the bytes of the last words, lowest first |
| Md5.DigestIs | libconhash/md5.c:360-381 | the folded specification is that step-by-step computation |
| Md5.HashPieces | libconhash/md5.c:312-381 | however a message is cut, the same holds for the whole |
| Md5.DefaultHash | libconhash/conhash_inter.c:11-27 | the ring's hash is the sum of the four words that the computation ends with, below 2^34 |
| IpTrie.SamePrefix | libcommon/src/AdIpArea.cpp:57-58 | two addresses share k leading bits if and only if they are in the same network of that size |
| IpTrie.IpArea.Descend | libcommon/src/AdIpArea.cpp:56-82 | a missing child is made once and linked in its place |
| IpTrie.IpArea.AddTree | libcommon/src/AdIpArea.cpp:38-102 | an insertion sets the area of exactly one prefix: the root for the text 0.0.0.0 whatever the mask |
| IpTrie.IpArea.Init | libcommon/src/AdIpArea.cpp:104-176 | the records of the file are written in order |
| IpTrie.FillThenGet | libcommon/src/AdIpArea.cpp:104-232 | after the records, an address gets the area of the smallest network, by network number, whose latest record has a city; the given text if there is none; the zero address that of the latest record for it or for no bits |
| IpTrie.AddThenGet | libcommon/src/AdIpArea.cpp:38-232 | one more record with a city changes what an address gets if and only if the address is in its network and no longer stored prefix with a city matches; the zero address if and only if the record is for it or for no bits |
| IpTrie.IpArea.Get | libcommon/src/AdIpArea.cpp:178-232 | the area of the longest stored prefix with a city, the given text if there is none, and the root's area for address 0 |
| IpTrie.IpArea.Clear | libcommon/src/AdIpArea.cpp:27-36 | every node but the root is given back once and nothing is stored any more |
| IpTrie.Longest | libcommon/src/AdIpArea.cpp:196-229 | the longest length from 1 that is stored with a city, and no longer one is |
| IpTrie.LatestWins | libcommon/src/AdIpArea.cpp:84-99 | the latest write at a prefix is the one that counts |
| IpTrie.InsertElsewhere | libcommon/src/AdIpArea.cpp:178-232 | an insertion changes nothing for addresses outside its prefix; one at the root, for none |
| IpTrie.InsertFound | libcommon/src/AdIpArea.cpp:178-232 | under its prefix a new area is found exactly if nothing longer is |
| Base64.FullGroup | inc/AdProtocolBase.h:259-265 | the shifts and masks take the four 6-bit digits of section 4 of RFC 4648 |
| Base64.AlphabetIs | inc/AdProtocolBase.h:246 | the alphabet is the table of section 4 of RFC 4648, character by character |
| Base64.TextIs | inc/AdProtocolBase.h:240-285 | each character of the text is the table's character for its six of the 24 bits of three bytes, or the padding where a byte is missing |
| Base64.SizeTestSuffices | inc/AdProtocolBase.h:248 | what the size test asks for covers the text and its terminating zero |
| Base64.BaseEncode | inc/AdProtocolBase.h:240-285 | -1 and no write if the test fails or there is no buffer; otherwise the text of section 4 of RFC 4648, a zero, and no other write |
| Base64.BuildTable | inc/AdProtocolBase.h:296-302 | only the zero character is marked as none; all others outside the alphabet count as digit 0 |
| Base64.ValueIs | inc/AdProtocolBase.h:296-302 | a character of the table has its position as value, every other character 0 |
| Base64.TripleIs | inc/AdProtocolBase.h:322-329 | four characters, whatever they are, give the three bytes of their 24 bits |
| Base64.BaseDecode | inc/AdProtocolBase.h:287-345 | for any input: -1 and no write, or the bytes the kept characters stand for, within the blocks' cells |
| Base64.RoundTrip | inc/AdProtocolBase.h:240-345 | decoding the encoding of any bytes gives them back, in at most three bytes for every three begun |
| Url.ToHex | inc/AdProtocolBase.h:181-184 | for a digit, the upper-case character that the other function reads back; for any other byte 55 more than it modulo 256 |
| Url.HexIs | inc/AdProtocolBase.h:181-196 | both cases of each hexadecimal digit have its value, and the upper case stands for it |
| Url.EncodeByteIs | inc/AdProtocolBase.h:198-217 | an unreserved character of section 2.3 of RFC 3986 stands for itself, a space becomes a plus sign, every other byte a percent sign and two upper-case digits |
| Url.TripletIs | inc/AdProtocolBase.h:219-238 | a percent sign and two digits in either case stand for their byte |
| Url.UrlEncode | inc/AdProtocolBase.h:198-217 | appends the encoding |
| Url.UrlDecode | inc/AdProtocolBase.h:219-238 | appends the decoding, for any input |
| Url.RoundTrip | inc/AdProtocolBase.h:198-238 | decoding the encoding of any bytes gives them back |
| Url.EncodingWellFormed | inc/AdProtocolBase.h:198-217 | only unreserved characters of section 2.3 of RFC 3986, plus signs, and complete upper-case triplets, none for a byte that has a shorter form |
| Url.ShortestRoundTrip | inc/AdProtocolBase.h:198-238 | every such text is the encoding of what it stands for, so the two functions are inverse bijections |

## Left out

- Sockets, Redis, Kafka, Avro, XML, shared libraries, configuration and `main` functions: input and output.
- `AdExchange/src/AdAdx.cpp`: its answered and redirected paths never release the block or close the session, so the conservation law does not hold there.
- `adapter/AdConHash.cpp`: a locked wrapper of the ring.
- The protocol translators and `baidu_realtime_bidding.pb.*`: field copying and generated code.
- The 64 steps of `md5_process`: any function on four words and a block.
- The other solvers of `linear.cpp` and `tron.cpp`: transcendental functions and floating point.
- Allocation failures, failing address parsers, masks above 32 bits, null handles and null strings: preconditions or not modelled.
- Statistics, debug output, the count of support vectors and the progress dots of the solver.
- RbTree.Tree.SelfCheck: the outputs of an empty tree, which the source does not set, are 0 here.
- ConHash.ConHash.Fini: the handle itself is not released and cannot be used again, so the result says only that the tree is empty and which nodes were released.
- ParaList.List.Drain: packet lengths are given as a sequence, and there are more of them than waiting requests.
- DualSolver.Solve: rounding is not modelled.
- RbTree.Tree.InsertAgain: what the loop does at a red root whose parent is another red node of the tree is not followed further.
- ConHash.ConHash.FillCell: the memory of the virtual node's own record is a new object, because no link to a released one is left.
- IpTrie.IpArea.Init: reading the XML is not modelled; there an attribute that a node lacks keeps the value of the node before.
- Grouping.CountClasses: the label and count arrays that grow by reallocation are sequences.
- Base64.BaseEncode: source and destination do not overlap, and sizes do not overflow an `int`.
- Md5.State.Append: the input is a sequence, so it does not overlap the state.
