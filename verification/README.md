# Models of the algorithms in this repository

This project models the data structures, protocols and codecs of the repository in Dafny and proves what they promise.
Each module follows one of them:

- **RbTree** (with RbShape, RbBalance, RbOrder): the parent-pointer red-black tree behind the coroutine registry. The
  nodes are heap objects that the methods relink in place, statement by statement as in the C code. The class carries,
  as a ghost, the tree its links form; a zipper says where in that tree a loop stands. The shape lemmas show that the
  written links are those of the intended tree, the balance lemmas that every case of the fix-up loops keeps its
  invariant, the order lemmas that nothing gets out of order.
- **CmapBucket**, **CmapRehash**, **CmapReaders**: the concurrent map. Buckets and pairs are heap objects; the rehash is
  proved on chains that temporarily run into each other; lock-free reads are a state machine over atomic steps.
- **SkipList**: towers of forward pointers in arrays, all levels derived from the bottom list.
- **CoSwitch**: coroutines that share one stack region, over byte arrays, with the lazy save and restore, the run queue
  and the registry.
- **Mvcc**: the lock-free versioned cell, a state machine over atomic loads and compare-and-swaps of any number of
  threads.
- **HashRing**: the consistent-hash ring, with its circle, its members and its sorted index.
- **RouteRegex**, **RouteCompiler**, **RouteLanguage**, **RouteReport**, **RoutePattern**: the route compiler. Regular
  expressions are a small syntax tree with a text form and a backtracking matcher that lists all ways to match in the
  order of preference; the first one is what preg_match reports.
- **KernelList**: the circular doubly linked list, each operation a statement about sequences of nodes.
- **TimerList**: the timers of the event loop, with callbacks that add and mark timers during a pass.
- **Sha1** and **Base64**: the streaming digest against a one-shot definition, and the codec with its round trip.

What is outside is arbitrary: hashes and updaters are function parameters, random tower levels are parameters, clocks
and callbacks are arbitrary functions of how often they were asked, thread interleavings are all sequences of enabled
steps.

Where the code and its comments differ, the models follow the code. Redistribe doubles the number of buckets also when
they are underweight, although its comments speak of making them fewer. A route whose tokens are all optional may report
an earlier variable as left off and a later one not, although the optional groups are meant to be left off from the end
(`RoutePattern.CompiledLeavesOff` says exactly for which routes, `RoutePattern.FirstMayBeSkipped` is a concrete one).
Replica keys of the ring put the index directly in front of the name, so that some names always collide
(`HashRing.WhenKeysCoincide` and `HashRing.WhenPointsClash` say exactly which, `HashRing.IndexRunsIntoName` is a pair of
them). The walks of the ring may not end when Count has drifted (`HashRing.WhenWalksEnd` says exactly which do,
`HashRing.Consistent.AddAgain` makes it drift). And list_swap does not swap with an entry that is alone in its list
(`KernelList.ListSwap`).

## Model

| member | source | states |
|---|---|---|
| RbTree.RbTree.RotateLeftLinks | coroutine/coroutine_3/src/rbtree.c:25-44 | the field values after a left rotation, node by node, and that no other node changes |
| RbTree.RbTree.RotateRightLinks | coroutine/coroutine_3/src/rbtree.c:46-65 | the mirror image |
| RbTree.RbTree.RotateLeft | coroutine/coroutine_3/src/rbtree.c:25-44 | anywhere in a linked tree, a left rotation leaves a linked tree with the same nodes in the same in-order sequence |
| RbTree.RbTree.RotateRight | coroutine/coroutine_3/src/rbtree.c:46-65 | the mirror image |
| RbTree.RbTree.SetColor | coroutine/coroutine_3/src/rbtree.h:31-34 | only the colour of one node changes |
| RbTree.RbTree.InsertStepLeft | coroutine/coroutine_3/src/rbtree.c:73-93 | one round under a left parent keeps "red-black but for one red node with a red parent" and moves the violation at least one level up or removes it |
| RbTree.RbTree.InsertStepRight | coroutine/coroutine_3/src/rbtree.c:94-115 | the mirror image |
| RbTree.RbTree.InsertStep | coroutine/coroutine_3/src/rbtree.c:70-116 | a round brings the violation strictly nearer to the root, so the loop ends |
| RbTree.RbTree.InsertColor | coroutine/coroutine_3/src/rbtree.c:67-119 | after the fix-up of a red leaf the tree is red-black, with the same nodes in the same order |
| RbTree.RbTree.LinkNode | coroutine/coroutine_3/src/rbtree.h:66-71 | the new node becomes a red leaf in the empty hole, and nothing else changes shape |
| RbTree.RbTree.Insert | coroutine/coroutine_3/src/rbtree.h:102-129 | a valid tree stays valid and gains exactly the new node, or the node with that key is returned and nothing changes; at most as many comparisons as the tree is high |
| RbTree.RbTree.EraseBlackLeft | coroutine/coroutine_3/src/rbtree.c:133-151 | with a black sibling, a short left subtree is paid for by rotations, or the debt moves to the parent |
| RbTree.RbTree.EraseBlackRight | coroutine/coroutine_3/src/rbtree.c:160-178 | the mirror image |
| RbTree.RbTree.EraseStepLeft | coroutine/coroutine_3/src/rbtree.c:125-151 | one round of the erase fix-up keeps "one black node short below here" with a smaller debt, or ends in a red-black tree |
| RbTree.RbTree.EraseStepRight | coroutine/coroutine_3/src/rbtree.c:152-179 | the mirror image |
| RbTree.RbTree.EraseStep | coroutine/coroutine_3/src/rbtree.c:124-180 | the debt decreases in every round, on either side |
| RbTree.RbTree.EraseColor | coroutine/coroutine_3/src/rbtree.c:121-183 | from a tree that is one black node short at one place, a red-black tree with the same nodes in the same order |
| RbTree.RbTree.SpliceLinks | coroutine/coroutine_3/src/rbtree.c:230-241 | the field values after a node is replaced by its only child |
| RbTree.RbTree.Splice | coroutine/coroutine_3/src/rbtree.c:230-241 | a linked tree without the node, its child in its place |
| RbTree.RbTree.EraseSingle | coroutine/coroutine_3/src/rbtree.c:189-192 | erasing a node with at most one child keeps a valid tree of the other nodes |
| RbTree.RbTree.SucceedLinks | coroutine/coroutine_3/src/rbtree.c:200-225 | the field values after the successor has been put in the place of the erased node, both when it is the right child and when it is deeper |
| RbTree.RbTree.Succeed | coroutine/coroutine_3/src/rbtree.c:200-225 | a linked tree without the erased node, its successor in its place and with its colour |
| RbTree.RbTree.EraseDouble | coroutine/coroutine_3/src/rbtree.c:193-228 | erasing a node with two children keeps a valid tree of the other nodes |
| RbTree.RbTree.Erase | coroutine/coroutine_3/src/rbtree.c:185-246 | erasing any node of a valid tree ends, and leaves a valid tree (sorted, red-black, consistently linked) of exactly the other nodes |
| RbTree.RbTree.Search | coroutine/coroutine_3/src/rbtree.h:77-96 | the node with the key if there is one, after at most as many comparisons as the tree is high |
| RbTree.RbTree.First | coroutine/coroutine_3/src/rbtree.c:249-258 | the first node of the in-order sequence, null for an empty tree |
| RbTree.RbTree.Last | coroutine/coroutine_3/src/rbtree.c:260-269 | the last one |
| RbTree.RbTree.Next | coroutine/coroutine_3/src/rbtree.c:271-300 | the in-order successor, null at the end and for a node that is in no tree |
| RbTree.RbTree.Prev | coroutine/coroutine_3/src/rbtree.c:302-327 | the in-order predecessor, likewise |
| RbTree.RbTree.ForEach | coroutine/coroutine_3/src/rbtree.h:163-166 | the walk visits every node exactly once, in order, also when its body erases the nodes that it visits; what is left are the other nodes |
| RbTree.RbTree.NSearch | coroutine/coroutine_3/src/rbtree.h:138-160 | the least key that is not below the query; when all are below it, the least of all; null only for an empty tree |
| RbShape.Replant | coroutine/coroutine_3/src/rbtree.c:25-44 | putting a relinked subtree back into unchanged surroundings gives a linked tree |
| RbShape.RotLShape | coroutine/coroutine_3/src/rbtree.c:25-44 | the links a left rotation writes are those of the rotated tree |
| RbShape.RotRShape | coroutine/coroutine_3/src/rbtree.c:46-65 | the mirror image |
| RbShape.SplicedShape | coroutine/coroutine_3/src/rbtree.c:230-241 | the links after splicing are those of the tree with the child in place of the node |
| RbShape.SucceededShape | coroutine/coroutine_3/src/rbtree.c:200-225 | the links after the successor moved are those of the tree with the successor in place of the node |
| RbBalance.SplicedRB | coroutine/coroutine_3/src/rbtree.c:230-246 | removing a red node keeps the tree red-black; removing a black one leaves it exactly one black node short there |
| RbBalance.SucceededRB | coroutine/coroutine_3/src/rbtree.c:208-228 | the same at the place where the successor was |
| RbBalance.ShortDone | coroutine/coroutine_3/src/rbtree.c:181-182 | the debt is paid when the short subtree is red or the whole tree: painting it black gives a red-black tree |
| RbBalance.FarRedLeft | coroutine/coroutine_3/src/rbtree.c:145-148 | the last case pays the debt |
| RbBalance.NearRedLeft | coroutine/coroutine_3/src/rbtree.c:139-144 | a red near nephew is turned into the last case |
| RbBalance.PaleSiblingLeft | coroutine/coroutine_3/src/rbtree.c:133-137 | painting the sibling red moves the debt to the parent |
| RbBalance.RedSiblingLeft | coroutine/coroutine_3/src/rbtree.c:127-132 | a red sibling is turned into a black one with a smaller debt |
| RbBalance.EqualBlacks | coroutine/coroutine_3/src/rbtree.c:121-183 | all paths from the root of a red-black tree to a leaf have the same number of black nodes |
| RbBalance.NoRedRed | coroutine/coroutine_3/src/rbtree.c:67-119 | no path has two red nodes in a row |
| RbBalance.LogarithmicHeight | coroutine/coroutine_3/src/rbtree.h:77-96 | 2^height is at most (n+1)^2, that is, a descent takes at most 2 log2(n+1) steps |
| RbOrder.SplicedSorted | coroutine/coroutine_3/src/rbtree.c:230-241 | splicing keeps the order of the other nodes |
| RbOrder.SucceededSorted | coroutine/coroutine_3/src/rbtree.c:200-225 | so does moving the successor |
| RbOrder.DistinctKeys | coroutine/coroutine_3/src/rbtree.h:116-119 | keys of a sorted tree are distinct |
| RbOrder.Neighbours | coroutine/coroutine_3/src/rbtree.c:271-327 | where the in-order neighbours of a node are: in its subtrees, or among its ancestors |
| RbOrder.NeighboursInverse | coroutine/coroutine_3/src/rbtree.c:271-327 | predecessor and successor are inverse to each other |
| RbOrder.NextOfAll | coroutine/coroutine_3/src/rbtree.h:163-166 | after some of the nodes in front have been erased, the successor is still the next of all nodes |
| RbOrder.Ceiling | coroutine/coroutine_3/src/rbtree.h:138-160 | what the search loop has remembered at an empty place is the ceiling of the query |
| CmapBucket.Find | cmap/bucket.go:66-73 | the first pair with the key |
| CmapBucket.Bucket.Put | cmap/bucket.go:49-84 | the first pair with the key gets the element, or the new pair becomes the head; its next link is left alone when the bucket was empty |
| CmapBucket.Bucket.Get | cmap/bucket.go:86-99 | the first pair of the chain with the key |
| CmapBucket.Bucket.Delete | cmap/bucket.go:111-158 | the chain without the pair: fresh copies of the pairs in front of it, and the unchanged rest; no old pair changes; the size goes down by one modulo 2^64, whatever it was |
| CmapBucket.Bucket.Scan | cmap/bucket.go:122-132 | the pairs in front of the target, the target, and what follows |
| CmapBucket.CopyBefore | cmap/bucket.go:138-148 | copies with the same keys and elements, linked in front of the rest |
| CmapBucket.Bucket.Clear | cmap/bucket.go:161-168 | an empty bucket |
| CmapBucket.PutEntry | cmap/bucket.go:49-84 | as a list of keys and elements: the entry is stored in the place of the first one with its key, or in front |
| CmapBucket.DeleteEntry | cmap/bucket.go:111-158 | as a list of keys and elements: the first entry with the key is taken out |
| CmapRehash.BendPath | cmap/bucket.go:80-82 | making one next link lead to another acyclic chain keeps every chain acyclic when the pair is not on that chain |
| CmapRehash.PathDistinct | cmap/redistributor.go:141-143 | a finite walk along next links meets no pair twice |
| CmapRehash.Collect | cmap/redistributor.go:138-144 | the pairs of all buckets, bucket by bucket |
| CmapRehash.Enlarge | cmap/redistributor.go:146-154 | the old buckets, empty, and as many new ones as are missing |
| CmapRehash.PutStep | cmap/redistributor.go:164-169 | re-putting one pair with a stale next link keeps: no chain is cyclic, put pairs are found first in their bucket, waiting pairs still follow their old chain |
| CmapRehash.PutFront | cmap/redistributor.go:164-169 | the case in which the pair becomes the head of a bucket that is not empty |
| CmapRehash.PutEmpty | cmap/redistributor.go:164-169 | the case of an empty bucket, where the stale next link stays |
| CmapRehash.PutFound | cmap/redistributor.go:164-169 | the case in which the walk of the bucket meets the pair already |
| CmapRehash.PutNext | cmap/redistributor.go:164-169 | the loop body does such a step on the heap |
| CmapRehash.PutAll | cmap/redistributor.go:162-169 | the whole loop ends with all pairs put and none changed |
| CmapRehash.LookupsKept | cmap/redistributor.go:162-173 | every lookup, of a present or an absent key, gives the same pair in bucket hash % newNumber as before in bucket hash % currentNumber |
| CmapRehash.Redistributor.NewNumber | cmap/redistributor.go:106-136 | whether there is a redistribution, and that the number of buckets then doubles |
| CmapRehash.Redistributor.Rehash | cmap/redistributor.go:138-173 | from disjoint acyclic chains with unique keys: acyclic chains, the same lookups, the same elements |
| CmapRehash.Redistributor.Redistribe | cmap/redistributor.go:106-174 | exactly when the buckets are redistributed, that their number then doubles, and that no lookup changes |
| CmapReaders.PutStepInv | cmap/bucket.go:59-83 | the linearization step of Put keeps the invariant |
| CmapReaders.DeleteFoundInv | cmap/bucket.go:117-138 | starting to copy the prefix keeps it |
| CmapReaders.CopyInv | cmap/bucket.go:144-148 | copying one more pair keeps it: copies are private and equal to what they replace |
| CmapReaders.CopiedInv | cmap/bucket.go:150-157 | publishing the copies keeps it; the pairs that are left out retire with their links unchanged |
| CmapReaders.ReaderStepInv | cmap/bucket.go:92-96 | a step of a lock-free reader keeps it |
| CmapReaders.StepInv | cmap/segment.go:62-96 | every step of every thread keeps the invariant |
| CmapReaders.RunInv | cmap/segment.go:62-96 | so it holds in every state of every run |
| CmapReaders.WriterDoes | cmap/bucket.go:49-158 | the atomic steps of a writer change the entries of the chain exactly as Put and Delete do on the heap, in the step that ends the operation and in no other |
| CmapReaders.Linearizable | cmap/cmap.go:94-102 | in every run, finished Put and Delete operations take effect one after the other and return what they should, and a finished Get returns what its key had, or its absence, at some point between its load of the head and its end |
| SkipList.LevelSublist | Skiplist_KV/skiplist.h:127-130 | each level is a sublist of the one below: towers are contiguous from level 0 |
| SkipList.LevelSorted | Skiplist_KV/skiplist.h:93-98 | each level is strictly sorted |
| SkipList.LevelMember | Skiplist_KV/skiplist.h:124-130 | a level holds exactly the nodes whose towers reach it |
| SkipList.LevelInserted | Skiplist_KV/skiplist.h:127-130 | the levels of the list with a new node |
| SkipList.LevelRemoved | Skiplist_KV/skiplist.h:240-247 | the levels of the list without a key |
| SkipList.SkipList.constructor | Skiplist_KV/skiplist.h:309-317 | a valid empty list |
| SkipList.SkipList.WalkLevel | Skiplist_KV/skiplist.h:94-97 | the last node of the level with a smaller key |
| SkipList.SkipList.Descend | Skiplist_KV/skiplist.h:85-100 | update[i] is the last node of level i with a smaller key, and the node after update[0] is the first with a key not smaller |
| SkipList.SkipList.Search | Skiplist_KV/skiplist.h:283-306 | true exactly for the keys of the finite map that the list stands for |
| SkipList.SkipList.RandomLevel | Skiplist_KV/skiplist.h:333-345 | 1 plus the number of odd draws before the first even one, at most the maximum level |
| SkipList.AnyHeight | Skiplist_KV/skiplist.h:333-345 | every height from 1 to the maximum level can be drawn |
| SkipList.SkipList.LinkTower | Skiplist_KV/skiplist.h:127-130 | after the loop, exactly the levels of the tower hold the new node |
| SkipList.SkipList.Insert | Skiplist_KV/skiplist.h:82-138 | refines insertion into a finite map, never overwriting a value; the list stays valid for every tower height |
| SkipList.SkipList.UnlinkTower | Skiplist_KV/skiplist.h:240-247 | after the loop, no level holds the key, although it stops at the first level that the tower does not reach |
| SkipList.SkipList.TopLevel | Skiplist_KV/skiplist.h:250-252 | the highest level that is not empty, or 0 |
| SkipList.SkipList.Delete | Skiplist_KV/skiplist.h:221-260 | refines removal from a finite map; the list stays valid |
| SkipList.ContentsInserted | Skiplist_KV/skiplist.h:111-134 | inserting a node updates the finite map at its key |
| SkipList.ContentsRemoved | Skiplist_KV/skiplist.h:238-256 | removing a key removes it from the map |
| CoSwitch.Sched.Run | coroutine/coroutine_3/src/sched.c:281-282 | what a running AUTOSTACK coroutine leaves in the region below its stack pointer is its image |
| CoSwitch.Sched.Create | coroutine/coroutine_3/src/sched.c:289-339 | a new coroutine has the next id, the last place in the run queue, an entry in the registry, and its first frame as its image, at the end of its own buffer |
| CoSwitch.Sched.Finish | coroutine/coroutine_3/src/sched.c:283-284 | an exit only sets the flag |
| CoSwitch.Sched.SaveStack | coroutine/coroutine_3/src/sched.c:78-92 | the bytes of the coroutine are at the end of its buffer, which grows to whole pages when needed |
| CoSwitch.Sched.RestoreStack | coroutine/coroutine_3/src/sched.c:144-152 | the bytes of the coroutine are at the bottom of the shared region |
| CoSwitch.Sched.SwitchStack | coroutine/coroutine_3/src/sched.c:69-92 | after the copying, every AUTOSTACK coroutine has its bytes where they are looked for next, also when non-AUTOSTACK ones ran in between |
| CoSwitch.Sched.Release | coroutine/coroutine_3/src/sched.c:78-92 | once the user of the region has been saved, all AUTOSTACK coroutines are in their own buffers |
| CoSwitch.Sched.Occupy | coroutine/coroutine_3/src/sched.c:144-152 | then the next one may take the region |
| CoSwitch.Sched.SwitchTo | coroutine/coroutine_3/src/sched.c:183-250 | the same after a finished coroutine, possibly the one on the stack, has been taken out of the run queue and the registry |
| CoSwitch.Sched.Switch | coroutine/coroutine_3/src/sched.c:69-250 | an AUTOSTACK coroutine that is switched in finds exactly the bytes of its image, and no image changes |
| CoSwitch.Sched.Schedule | coroutine/coroutine_3/src/sched.c:252-274 | the next coroutine of the ring runs, with its bytes in place; the one that ran leaves the run queue exactly when it waits or has finished, and the registry when it has finished |
| CoSwitch.Sched.Resumed | coroutine/coroutine_3/src/sched.c:273 | whether there are others than the main thread in the run queue |
| CoSwitch.Sched.WakeUp | coroutine/coroutine_3/src/sched.c:367-378 | a registered coroutine that is not in the run queue goes to its end, and nothing else changes |
| CoSwitch.TurnPlace | coroutine/coroutine_3/src/sched.c:261 | after k turns it is the turn of the one k places on in the ring |
| CoSwitch.EachHasItsTurn | coroutine/coroutine_3/src/sched.c:261 | each coroutine of the run queue has its turn within one round |
| Mvcc.StartInv | mvcc/mvcc.hpp:226-229 | starting an operation keeps the invariant |
| Mvcc.OverwriteLoadInv | mvcc/mvcc.hpp:231-233 | the load of an overwrite, with the version it gives to its private snapshot |
| Mvcc.UpdateLoadInv | mvcc/mvcc.hpp:280-286 | the load of an update, with the snapshot it computes |
| Mvcc.Paid | mvcc/mvcc.hpp:235-239 | when a compare-and-swap fails, another thread has committed since the load, and each failure is matched by such a commit |
| Mvcc.FailInv | mvcc/mvcc.hpp:288-294 | a failed attempt keeps the invariant |
| Mvcc.CommitInv | mvcc/mvcc.hpp:235-239 | a successful compare-and-swap keeps it |
| Mvcc.StepInv | mvcc/mvcc.hpp:226-295 | every step of every thread keeps it |
| Mvcc.RunInv | mvcc/mvcc.hpp:226-295 | so it holds in every state of every run |
| Mvcc.PublishedOnce | mvcc/mvcc.hpp:235-239 | a step never changes, removes or reorders published snapshots |
| Mvcc.PublishedForever | mvcc/mvcc.hpp:226-295 | nor does any run |
| Mvcc.NoLostUpdate | mvcc/mvcc.hpp:244-295 | in every run the k-th commit has version k, each committed update is its updater applied to its immediate predecessor, a thread has failed at most as often as others have committed, and what is returned was published |
| HashRing.ClockwiseUnique | Consistent_Hashing/src/consistent.go:178-191 | there is only one first point clockwise from a key |
| HashRing.OwnerUnique | Consistent_Hashing/src/consistent.go:163-176 | so a key has only one owner |
| HashRing.AddMovesToNew | Consistent_Hashing/src/consistent.go:76-83 | adding a member moves keys to that member only, even if points collide |
| HashRing.RemoveMovesOwn | Consistent_Hashing/src/consistent.go:92-101 | removing a member whose points are its own moves only its own keys |
| HashRing.SameMembersSameCircle | Consistent_Hashing/src/consistent.go:76-101 | without collisions the circle is a function of the set of members |
| HashRing.GrownExactly | Consistent_Hashing/src/consistent.go:76-83 | adding keeps the circle exactly that of the members |
| HashRing.ShrunkExactly | Consistent_Hashing/src/consistent.go:92-101 | so does removing |
| HashRing.OwnersAreMembers | Consistent_Hashing/src/consistent.go:76-83 | the owners on the circle are the members |
| HashRing.WhenKeysCoincide | Consistent_Hashing/src/consistent.go:61-65 | two names have a replica key in common exactly when one is the other behind digits that, with a 1 in front, are still a replica index |
| HashRing.WithTwentyReplicas | Consistent_Hashing/src/consistent.go:48-65 | with the twenty replicas of New, that is exactly one digit |
| HashRing.WhenPointsClash | Consistent_Hashing/src/consistent.go:61-83 | no hash keeps the points of the members apart when one is another behind such digits; otherwise every hash does that has no collision among their keys |
| HashRing.IndexRunsIntoName | Consistent_Hashing/src/consistent.go:61-65 | for example, "x" and "1x" of a ring with twenty replicas always share a point |
| HashRing.Consistent.constructor | Consistent_Hashing/src/consistent.go:48-54 | a valid empty ring |
| HashRing.Consistent.UpdateSortedHashes | Consistent_Hashing/src/consistent.go:104-119 | the index is the strictly sorted key set of the circle |
| HashRing.Consistent.AddPoints | Consistent_Hashing/src/consistent.go:76-83 | the circle with all points of the member given to it, and the index, the members and the count brought up to date |
| HashRing.Consistent.Add | Consistent_Hashing/src/consistent.go:68-73 | the member has its points, and the count is one more; without collisions, a valid ring stays valid exactly when the member is new |
| HashRing.Consistent.RemovePoints | Consistent_Hashing/src/consistent.go:92-101 | the circle without the points of the member |
| HashRing.Consistent.Remove | Consistent_Hashing/src/consistent.go:86-90 | the points of the name are gone, and the count is one less; a valid ring stays valid exactly when the name was a member, and then only its own points are gone |
| HashRing.Consistent.Set | Consistent_Hashing/src/consistent.go:123-148 | the members are exactly those listed, whatever the ring was; without collisions a valid ring stays valid |
| HashRing.Consistent.Search | Consistent_Hashing/src/consistent.go:179-191 | the index of the first point clockwise from the key, wrapping |
| HashRing.Consistent.Get | Consistent_Hashing/src/consistent.go:164-176 | the owner of that point, or an error exactly for an empty circle |
| HashRing.WalkMeetsAll | Consistent_Hashing/src/consistent.go:265-279 | going once round meets every owner |
| HashRing.FirstsDistinct | Consistent_Hashing/src/consistent.go:272-274 | first appearances have no repetition and miss nothing |
| HashRing.FirstsOrdered | Consistent_Hashing/src/consistent.go:272-274 | they are in the order of their first positions |
| HashRing.Collect | Consistent_Hashing/src/consistent.go:252-282 | the loop ends with the first distinct owners, also when it starts at index 0 and its guard alone would not stop it; after one round, with all of them |
| HashRing.WhenWalksEnd | Consistent_Hashing/src/consistent.go:265-279 | the walk ends exactly when it begins behind index 0 or as many owners are wanted as there are, and at least one; from index 0 the guard never stops it |
| HashRing.FoundOwners | Consistent_Hashing/src/consistent.go:252-279 | whatever the walk has found, it is without repetition and not more than the owners there are |
| HashRing.Consistent.MayAlwaysWalk | Consistent_Hashing/src/consistent.go:239-282 | when Count is the number of distinct owners and at least one is wanted, the walk ends |
| HashRing.Consistent.DriftedWalks | Consistent_Hashing/src/consistent.go:239-282 | with more owners wanted than there are, the walk ends unless the search gives index 0 |
| HashRing.Consistent.AddAgain | Consistent_Hashing/src/consistent.go:76-83 | after a member has been added again, a walk for as many owners as are counted does not end for exactly those names whose search gives index 0 |
| HashRing.Consistent.GetN | Consistent_Hashing/src/consistent.go:239-282 | exactly min(n, Count) distinct members in the order of first appearance clockwise from the key; all of them when there are not so many, or n is 0, and the walk ends |
| HashRing.Other | Consistent_Hashing/src/consistent.go:210-225 | the first owner that differs from the nearest one |
| HashRing.Consistent.Counted | Consistent_Hashing/src/consistent.go:76-119 | in every valid ring Count is the number of distinct owners on the circle, which is what GetN and GetTwo rely on |
| HashRing.Consistent.GetTwo | Consistent_Hashing/src/consistent.go:194-226 | the first two distinct owners, or one when Count is 1; the only one twice when Count has drifted and the walk ends |
| HashRing.Consistent.BothAgree | Consistent_Hashing/src/consistent.go:194-282 | GetTwo agrees with GetN for 2 |
| RouteRegex.ParseText | MinWebFramework/Core/Routing/BaseRouteCompiler.php:230-258 | the text of an expression reads back as that expression |
| RouteRegex.AcceptedLiteral | MinWebFramework/Core/Routing/BaseRouteCompiler.php:233-235 | what a literal in front accepts |
| RouteRegex.AcceptedVariable | MinWebFramework/Core/Routing/BaseRouteCompiler.php:242 | what a named group in front accepts, end by end in order of preference |
| RouteRegex.AcceptedGroup | MinWebFramework/Core/Routing/BaseRouteCompiler.php:243-253 | what an optional group at the end accepts |
| RouteCompiler.TreeText | MinWebFramework/Core/Routing/BaseRouteCompiler.php:173-177 | the pieces written for the tokens are the text of the nested groups, with the right number of groups closed at the end |
| RouteCompiler.Balanced | MinWebFramework/Core/Routing/BaseRouteCompiler.php:230-258 | the text is balanced: it parses to the nested tree |
| RouteCompiler.Dead | MinWebFramework/Core/Routing/BaseRouteCompiler.php:119-138 | in front of a character that the variable could have matched, nothing behind the variable matches |
| RouteCompiler.GreedyOnly | MinWebFramework/Core/Routing/BaseRouteCompiler.php:132-139 | giving characters back is then in vain |
| RouteCompiler.PossessiveVariable | MinWebFramework/Core/Routing/BaseRouteCompiler.php:132-139 | one variable accepts the same with and without the possessive plus |
| RouteCompiler.PossessiveKeepsMeaning | MinWebFramework/Core/Routing/BaseRouteCompiler.php:117-139 | the whole route accepts the same subjects with the same captures in the same order of preference, with and without the possessive plus |
| RouteLanguage.AcceptedIsCovered | MinWebFramework/Core/Routing/BaseRouteCompiler.php:173-177 | the accepted ways are the coverings by tokens, with their captures |
| RouteLanguage.RouteAccepts | MinWebFramework/Core/Routing/BaseRouteCompiler.php:160-178 | with a required first token: exactly the required tokens followed by some initial run of the optional tail |
| RouteLanguage.OptionalRouteAccepts | MinWebFramework/Core/Routing/BaseRouteCompiler.php:238-240 | when all tokens are optional: the first token and an initial run of the others, or the first separator alone and such a run |
| RouteLanguage.TiledNames | MinWebFramework/Core/Routing/BaseRouteCompiler.php:242 | a covering captures the variables of its tokens and no others |
| RouteLanguage.SecondAlone | MinWebFramework/Core/Routing/BaseRouteCompiler.php:238-240 | with nothing required in front, the two separators and one more character have, among all backtracking ways, one with the second variable captured and the first not, and no initial run of the tokens covers that |
| RouteLanguage.WhenOnlyFromTheEnd | MinWebFramework/Core/Routing/BaseRouteCompiler.php:230-258 | among all backtracking ways, also those that preg_match does not report: optional variables are left off from the end only, exactly when a token in front is required or there is no second token |
| RouteReport.LongestRunFirst | MinWebFramework/Core/Routing/BaseRouteCompiler.php:230-258 | when the first variable can take all of the subject, that is the way that is reported |
| RouteReport.BlockedBehind | MinWebFramework/Core/Routing/BaseRouteCompiler.php:230-258 | when no separator follows and a slash does, nothing matches |
| RouteReport.OneRun | MinWebFramework/Core/Routing/BaseRouteCompiler.php:230-258 | without a separator behind the first token, the reported way never leaves off an earlier variable and keeps a later one |
| RouteReport.ShortMatches | MinWebFramework/Core/Routing/BaseRouteCompiler.php:230-258 | one character for each variable up to the first one with a separator, but not for the first variable, is accepted |
| RouteReport.EveryWaySkips | MinWebFramework/Core/Routing/BaseRouteCompiler.php:230-258 | every way to match that subject leaves the first variable off and keeps a later one |
| RouteReport.WhenReportedFromTheEnd | MinWebFramework/Core/Routing/BaseRouteCompiler.php:230-258 | for variables without requirements, in what is reported the optional ones are left off from the end only, exactly when a token in front is required or no token but the first has a separator |
| RoutePattern.MatchesInOrder | MinWebFramework/Core/Routing/BaseRouteCompiler.php:80-85 | the placeholders found are all there are, in order, without overlap |
| RoutePattern.SourceFrom | MinWebFramework/Core/Routing/BaseRouteCompiler.php:81-158 | written out again, the tokens are the pattern |
| RoutePattern.FirstToken | MinWebFramework/Core/Routing/BaseRouteCompiler.php:110-114 | the next token begins with the next static character |
| RoutePattern.BodyGuarded | MinWebFramework/Core/Routing/BaseRouteCompiler.php:213-228 | a possessive variable is followed by a separator that it excludes, or by nothing |
| RoutePattern.TokensGuarded | MinWebFramework/Core/Routing/BaseRouteCompiler.php:117-139 | so is every one of a compiled pattern |
| RoutePattern.GoodNames | MinWebFramework/Core/Routing/BaseRouteCompiler.php:99-108 | a pattern is accepted exactly when its names are distinct, at most 32 long and do not start with a digit |
| RoutePattern.VariablesFrom | MinWebFramework/Core/Routing/BaseRouteCompiler.php:86-158 | the names of the variable tokens are those of the placeholders, in order |
| RoutePattern.AcceptedNames | MinWebFramework/Core/Routing/BaseRouteCompiler.php:102-104 | the variables of an accepted pattern have different names |
| RoutePattern.FindFirstOptional | MinWebFramework/Core/Routing/BaseRouteCompiler.php:160-171 | the optional tokens are the longest tail of variables with defaults; a host has none |
| RoutePattern.Tokenize | MinWebFramework/Core/Routing/BaseRouteCompiler.php:81-158 | the tokens and variables of the pattern, or the error of its first bad name |
| RoutePattern.JoinRegexp | MinWebFramework/Core/Routing/BaseRouteCompiler.php:174-177 | the text of the expression is the pieces for all tokens in order |
| RoutePattern.PrefixOfAll | MinWebFramework/Core/Routing/BaseRouteCompiler.php:198-211 | every accepted subject begins with the static prefix |
| RoutePattern.CompilePattern | MinWebFramework/Core/Routing/BaseRouteCompiler.php:60-196 | tokens, variables, expression and static prefix as specified, or the error |
| RoutePattern.CompiledMeaning | MinWebFramework/Core/Routing/BaseRouteCompiler.php:60-211 | for every pattern and route: the tokens spell the pattern, the expression is balanced, the possessive plus changes nothing, the accepted subjects are exactly the coverings, with or without a required token in front, and the static prefix is a prefix of all of them |
| RoutePattern.NextStatic | MinWebFramework/Core/Routing/BaseRouteCompiler.php:213-228 | when all tokens are variables, the next separator in the pattern is that of the next token that has one |
| RoutePattern.CompiledPlain | MinWebFramework/Core/Routing/BaseRouteCompiler.php:117-131 | a variable without a requirement matches all but the slash and that separator |
| RoutePattern.CompiledLeavesOff | MinWebFramework/Core/Routing/BaseRouteCompiler.php:117-178 | for every accepted pattern and every route without requirements on its optional variables: in the way to match that preg_match reports, the first one, optional variables are left off from the end only, exactly when a token in front is required or no token but the first has a separator |
| RoutePattern.CompiledWays | MinWebFramework/Core/Routing/BaseRouteCompiler.php:160-178 | among all backtracking ways, also those that are not reported, exactly when a token in front is required or there is no second token |
| RoutePattern.TwoTokens | MinWebFramework/Core/Routing/BaseRouteCompiler.php:80-158 | the tokens of the pattern "/{a}.{b}" |
| RoutePattern.FirstMayBeSkipped | MinWebFramework/Core/Routing/BaseRouteCompiler.php:238-240 | for the pattern "/{a}.{b}" with two defaults, the only way to match "/.x" captures b and leaves a off, which no initial run of the tokens covers |
| KernelList.TurnedRing | KernelLinkedList/src/list.h:42-46 | a ring may be read from any of its nodes |
| KernelList.InitListHead | KernelLinkedList/src/list.h:42-46 | a ring of one node |
| KernelList.ListAddBetween | KernelLinkedList/src/list.h:71-81 | the ring with the new node between two neighbours |
| KernelList.ListAdd | KernelLinkedList/src/list.h:91-94 | the ring with the new node behind the given one; only it and its two neighbours are touched |
| KernelList.ListAddTail | KernelLinkedList/src/list.h:105-108 | the ring with the new node at the end |
| KernelList.ListDelBetween | KernelLinkedList/src/list.h:117-121 | the ring without the node between |
| KernelList.ListDelEntry | KernelLinkedList/src/list.h:137-143 | the ring without the entry; one that is alone stays a ring |
| KernelList.ListDel | KernelLinkedList/src/list.h:151-156 | the same, also for an entry that is alone, and the entry is poisoned |
| KernelList.ListDelInit | KernelLinkedList/src/list.h:209-213 | the same, and the entry is a ring of its own |
| KernelList.ListReplace | KernelLinkedList/src/list.h:165-172 | the ring with the new node in the place of the old one, also when that was alone |
| KernelList.ListReplaceInit | KernelLinkedList/src/list.h:181-186 | the same, and the old node is a ring of its own |
| KernelList.ListSwap | KernelLinkedList/src/list.h:193-203 | two entries change places, neighbours in either order included, in one ring or two; a second entry that is alone in its ring is put in front of the first instead |
| KernelList.ListMove | KernelLinkedList/src/list.h:220-224 | the entry stands behind the head of the other list or of its own |
| KernelList.ListMoveTail | KernelLinkedList/src/list.h:231-236 | the entry stands in front of it |
| KernelList.BlockOut | KernelLinkedList/src/list.h:247-253 | the ring without the block, whose own links stay |
| KernelList.BlockIn | KernelLinkedList/src/list.h:254-259 | the ring with the block at its end |
| KernelList.ListBulkMoveTail | KernelLinkedList/src/list.h:247-259 | the block from first to last goes to the end, also when it is there already |
| KernelList.CloseFront | KernelLinkedList/src/list.h:370-380 | the front part under the new head |
| KernelList.CloseBack | KernelLinkedList/src/list.h:370-380 | the rest under the old head, the front part untouched |
| KernelList.ListCutPositionInner | KernelLinkedList/src/list.h:370-380 | two rings: the front part under the new head, the rest under the old one |
| KernelList.ListCutPosition | KernelLinkedList/src/list.h:396-408 | the same with the cases of an empty list, of the head itself, and of a list of one entry that is to be cut behind something else, where nothing changes |
| KernelList.ListCutBefore | KernelLinkedList/src/list.h:424-438 | two rings cut in front of the entry; everything goes when that is the head |
| KernelList.ListSpliceBetween | KernelLinkedList/src/list.h:440-452 | the entries of one list between two neighbours of another |
| KernelList.ListSplice | KernelLinkedList/src/list.h:459-464 | the entries of one list at the front of another |
| KernelList.ListSpliceTail | KernelLinkedList/src/list.h:471-476 | at its end |
| KernelList.ListSpliceInit | KernelLinkedList/src/list.h:485-492 | at the front, and the emptied head is a ring of its own |
| KernelList.ListSpliceTailInit | KernelLinkedList/src/list.h:502-509 | at the end, and the emptied head is a ring of its own |
| KernelList.CutAndSplice | KernelLinkedList/src/list.h:396-464 | cutting a list in two and splicing the front part back gives the list again, the empty list included |
| TimerList.Unlink | asyn_network/ae.c:363-373 | the list without the timer, wherever it stands, and the timer that followed |
| TimerList.EventLoop.CreateTimeEvent | asyn_network/ae.c:246-276 | the new timer comes first, with the next id and its time |
| TimerList.EventLoop.DeleteTimeEvent | asyn_network/ae.c:281-294 | exactly the timer with the id is marked, and AE_OK says whether there is one |
| TimerList.EventLoop.SearchNearestTimer | asyn_network/ae.c:309-322 | the first of the timers that are due soonest, null only without timers |
| TimerList.EventLoop.Run | asyn_network/ae.c:403-404 | a callback adds timers in front and marks old ones, and nothing else |
| TimerList.EventLoop.ForgetSeconds | asyn_network/ae.c:342-348 | after a clock that went back every timer has second 0 |
| TimerList.EventLoop.Reap | asyn_network/ae.c:363-382 | a marked timer is unlinked and finalised, whatever the finaliser does to the list |
| TimerList.EventLoop.Fire | asyn_network/ae.c:398-413 | a due timer is called and then set again or marked, whatever the callback does to the list |
| TimerList.MarkedVisit | asyn_network/ae.c:363-382 | such a visit keeps the description of the pass so far |
| TimerList.EarlyVisit | asyn_network/ae.c:396-398 | so does passing over a timer that is not due |
| TimerList.DueVisit | asyn_network/ae.c:398-414 | so does firing one |
| TimerList.EventLoop.VisitOne | asyn_network/ae.c:358-415 | one round of the loop visits exactly the next old timer |
| TimerList.EventLoop.Walk | asyn_network/ae.c:353-416 | the loop ends after one visit to each timer that was there when it began |
| TimerList.EventLoop.ProcessTimeEvents | asyn_network/ae.c:326-417 | the whole pass: which timers were found how, which callbacks ran in which order, what is linked and what the timers hold afterwards; each timer that was there is called as it was found, and the timers added are new and not called |
| TimerList.EachOnce | asyn_network/ae.c:358-415 | a timer that was there fires exactly once if live and due when reached and else never, and is finalised exactly once if marked then |
| TimerList.OthersNever | asyn_network/ae.c:384-393 | a timer that is not among those that were there never fires in the pass and is never finalised |
| TimerList.PassCalls | asyn_network/ae.c:326-417 | after a whole pass: each timer that was there fired exactly once if live and due when reached and was finalised exactly once if marked, and no timer added in the pass was called |
| Sha1.CircularShift | WebSocket/WebSocket_2/src/sha1.cpp:587-590 | the operation S^n of FIPS PUB 180-1 |
| Sha1.Expand | WebSocket/WebSocket_2/src/sha1.cpp:424-438 | the words W(t) of a block |
| Sha1.ProcessMessageBlock | WebSocket/WebSocket_2/src/sha1.cpp:411-498 | the 80 steps on one block |
| Sha1.Sha1.constructor | WebSocket/WebSocket_2/src/sha1.cpp:59-62 | an empty message |
| Sha1.Sha1.Reset | WebSocket/WebSocket_2/src/sha1.cpp:100-114 | an empty message, whatever was before |
| Sha1.Sha1.Count | WebSocket/WebSocket_2/src/sha1.cpp:193-203 | the length in bits as two words, corrupted exactly when it would reach 2^64 |
| Sha1.Sha1.Take | WebSocket/WebSocket_2/src/sha1.cpp:189-211 | one more octet of the message |
| Sha1.Sha1.Input | WebSocket/WebSocket_2/src/sha1.cpp:175-212 | the part is appended to the message; corrupted from 2^64 bits on and when the digest was asked for before |
| Sha1.PaddedWhole | WebSocket/WebSocket_2/src/sha1.cpp:521-551 | the padded message consists of whole blocks, one or two more than the message |
| Sha1.DigestTail | WebSocket/WebSocket_2/src/sha1.cpp:521-566 | the digest of the padded message, from the whole blocks and what is left of the message |
| Sha1.Sha1.PadMessage | WebSocket/WebSocket_2/src/sha1.cpp:521-566 | the digest of the message is in H, when one block is padded and when two are |
| Sha1.Sha1.Result | WebSocket/WebSocket_2/src/sha1.cpp:134-155 | the digest of the message taken in so far, the same when asked again; none exactly when corrupted |
| Sha1.DigestOfParts | WebSocket/WebSocket_2/src/sha1.cpp:134-212 | however a message is split into parts, the result is the digest of the whole |
| Base64.FindSextet | WebSocket/WebSocket_2/src/base64.cpp:92 | the search in the alphabet inverts the lookup |
| Base64.JoinSplit | WebSocket/WebSocket_2/src/base64.cpp:44-97 | four sextets give back the three octets |
| Base64.JoinCut | WebSocket/WebSocket_2/src/base64.cpp:106-119 | the octets of a cut-off group do not depend on the missing sextets |
| Base64.EncodedLength | WebSocket/WebSocket_2/src/base64.cpp:33-77 | the encoding has length 4 ceil(n/3) |
| Base64.BarePadded | WebSocket/WebSocket_2/src/base64.cpp:71-73 | it ends in none, two or one padding characters by the residue of n, and has none before |
| Base64.RoundTrip | WebSocket/WebSocket_2/src/base64.cpp:33-123 | decoding the encoding of any octets gives them back |
| Base64.Encode | WebSocket/WebSocket_2/src/base64.cpp:33-77 | the loops compute the encoding |
| Base64.Decode | WebSocket/WebSocket_2/src/base64.cpp:79-123 | the loops compute the decoding of any string, up to its first character that is not base64 |

## Left out

- Red-black tree: colour and parent are separate fields, not bits of one word; keys are integers; rb_replace_node, rb_destroy and rb_copy are not modelled.
- Concurrent map: the placeholder of an empty bucket is null, elements are integers. Bucket sizes after a rehash, several rehashes in a row (a pair stored in an empty bucket keeps its old next link, so chains may then share pairs), readers that race with Redistribe, user-supplied redistributors and the panic recovery are not modelled; nor are the thresholds of UpdateThreshold and CheckBucketStatus, which only decide when a rehash happens, and the choice of the segment.
- CmapRehash.Redistributor.Redistribe: the branch for fewer buckets is never reached by the code and is not part of the body; fewer than 2^63 buckets are required, so that doubling does not wrap.
- CmapReaders.Linearizable: stated for one bucket with fresh pairs and without a rehash; while a writer holds the lock nobody else writes, so its search is one step with its first write.
- Skip list: keys and values are integers; dumping and loading, the mutex, printing and freeing nodes are not modelled; the random draws are a parameter.
- CoSwitch.Sched.Switch: stacks small enough to be copied only; mmap stacks, cocall, cokill, registers, thread-local storage and statistics are not modelled; the registry is a map.
- CoSwitch.Sched.SwitchTo: likewise.
- CoSwitch.Sched.Schedule: what it returns to a coroutine is computed when that one runs again, and is `Resumed`.
- Mvcc: assignment of cells, try_update_until and try_update_for, and back-off sleeps are not modelled; the version is taken modulo 2^64.
- HashRing.Consistent.GetN: the inputs for which the walk does not end, and a negative number wanted, for which the allocation panics, are excluded by the precondition; `HashRing.WhenWalksEnd` says exactly which walks end.
- HashRing.Consistent.GetTwo: likewise.
- HashRing: the library functions for sorting and binary searching are written out as loops; the capacity rule for the index and the lock are not modelled, and the checksums are arbitrary functions.
- Route compiler: characters stand for bytes, so the UTF-8 modes are not modelled; a custom requirement is an arbitrary function from a place of the subject to the ends it offers; a character quoted for the expression is one symbol of its text; compile itself, which calls CompilePattern for host and path, is not modelled. A name has a default when it is in the defaults (hasDefault is called but not defined in BaseRoute).
- RoutePattern.CompilePattern: without the utf8 option, its flag and its exceptions.
- RoutePattern.CompiledLeavesOff: routes in which nothing is required in front and an optional variable has a custom requirement are left open, as a requirement may match anything or nothing.
- KernelList: the poison values of a deleted entry are null; the memory-order variants, predicates, rotations and iteration macros are not modelled. Which ring an operation works on, and where, is said by ghost parameters.
- TimerList.EventLoop.ProcessTimeEvents: callbacks that start another pass are not modelled; ids are unbounded, and allocation does not fail.
- Sha1: the overloads that take characters or strings all come down to Input and are not modelled.
- WebSocket framing, HTTP, FastCGI, the file system, the network wrappers, loggers and the remaining small programs of the repository are not modelled.
