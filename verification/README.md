# Verified models of five algorithmic parts

This project models, in Dafny, the parts of a collection of small C programs that hold real algorithms, and
proves what they promise:

- the JSON engine (`apps/cjson`): parser, growing-buffer printer, items and their child lists, JSON Pointer
  (sections 3 and 4 of RFC 6901), the differ and applier of JSON Patch (section 4 of RFC 6902), JSON Merge
  Patch (section 2 of RFC 7396), the list mergesort and the two equalities;
- the red-black tree (`apps/msg/rbtree.c`, `apps/msg/rbtree.h`): both fix-up loops, traversal, replacement, the
  leftmost cache;
- the overwriting ring queue with a byte arena (`apps/vcar_sys_ringqueue`);
- the single-producer/single-consumer write ring of the I/O multiplexer (`apps/sysbus/lib_src/multiplex_io.c`);
- packet framing and the subscription index of the bus (`apps/sysbus`).

Where the source changes things in place, so does the model: nodes, items, lists, buffers and arenas are objects
and arrays, and methods are proved against functions and predicates on their abstract values. `dafny verify
dfyconfig.toml` checks everything.

How the files hang together:

- `RbTree` has nodes on the heap, the tree they spell out seen from a hole in it (a path and a subtree), and
  rotations. `RbInsert` and `RbErase` are the fix-up loops, `RbTraverse` the rest.
- `RingArena` is where the blocks lie, `RingSpec` what callers see, `RingRound` the write loop round by round on any
  fields, `RingQueue` the queue itself, `RingDelivery` the runs of a reader, `RingReader` the tie between the two,
  `RingRuns` whole runs of calls on a new queue.
- `WriteRing` is the ring, `WriteRingProtocol` its threads step by step, `WriteRingRuns` whole runs of them,
  `WriteRingArming` when they ask to write, `WriteRingSteps` the tie between ring and threads.
- `Framing` is the packet stream; `SysbusList` the intrusive list and `SysbusIndex` the server's lists built on it.
- `Json` and `JsonView` are documents and what they say apart from member order. `JsonText` is the renderer and the
  grammar, `JsonRoundTrip` relates the two, `JsonPrinter` and `JsonParser` are the code. `JsonLayout`, `JsonAround`,
  `JsonStringLaws`, `JsonNumberLaws` and `JsonKeyLaws` say what texts, numbers and keys mean without the code. `JsonChildren` and
  `JsonDuplicate` are items on the heap. `JsonPointer`, `JsonPatch`, `JsonTurns`, `JsonDiff`, `JsonPatchLaws`,
  `JsonPatchFailure`, `JsonPatchOps`, `JsonSort`, `JsonSortList`, `JsonCompare`, `JsonPlain`, `JsonMerge` and `JsonMergeDiff` are the utilities;
  `JsonEndToEnd` composes whole calls.

In contracts and invariants a predicate is often compared with `true`: it is then proved as one fact instead of
conjunct by conjunct.

## Findings

Properties that the code does not meet, each with the input and the exact condition under which it does:

- `decode_pointer_inplace` does not give back every escaped key (apps/cjson/cJSON_Utils.c:359-390): "~a" and "a/b" fail
  (`JsonPatch.PlainKeysSurvive`); it gives back exactly the keys of `JsonPatch.SurvivesExactly`.
- A ring queue write can loop forever (apps/vcar_sys_ringqueue/vcar_sys_ringqueue.c:270-322): `RingRound.FullSizeCanHang`
  reaches such a queue from a new one; `RingRound.ReturnsExactly` says when a write returns, on any fields within the
  arena, and `RingQueue.RingQueue.WriteReturnsExactly` for every queue.
- A merge patch cannot set a member to null, so the generated patch misses such targets
  (apps/cjson/cJSON_Utils.c:1390-1470): `JsonMergeDiff.NullCannotBeSet` has the input, `JsonMergeDiff.GeneratedExactly`
  and `JsonMergeDiff.GenerateMergePatch` the condition.
- A subscribe packet with more than 32765 ids has a size field that wraps (apps/sysbus/lib_src/libsysbus.c:334-335). The
  server then reads packets out of the middle of it and forwards them (apps/sysbus/src/local_server.c:143-156):
  `Framing.ControlRoundTrip` has the condition, `Framing.TooManyIds` what is delivered, `Framing.SubscribeTooMany` an input.
- The server delivers an empty packet only once something follows it (apps/sysbus/src/local_server.c:143):
  `Framing.ServerHoldsBackEmpty`.
- Subscribing to id 0 walks the list of clients as if they were references (apps/sysbus/src/local_server.c:172-176):
  `SysbusIndex.OnlyReferences`.
- Printing with `cJSON_PrintBuffered(item, 0, format)` and no `realloc` reads one byte past an empty buffer
  (apps/cjson/cJSON.c:510): `JsonPrinter.Print`.
- A document nested deeper than 1000 is printed but not parsed back (apps/cjson/cJSON.c:1442-1445):
  `JsonRoundTrip.PrintThenParse`.
- A failed patch can leave the document changed (apps/cjson/cJSON_Utils.c:885-1019): a replacement without a value and a
  move to where nothing can be put have taken their item out already (`JsonPatchFailure.ReplaceCanLose`,
  `JsonPatchFailure.MoveCanLose`, `JsonPatchFailure.MoveBelowItself`). `JsonPatchFailure.FailureExactly` says that these
  are all, up to the order of members, which a test changes by sorting. In a list, the patches before the one that fails stay applied (`JsonPatchFailure.ListFailure`,
  `JsonPatchFailure.ListCanStopHalfway`).

## Model

| member | source | states |
|---|---|---|
| RbTree.InOrderPlug | apps/msg/rbtree.c:14-27 | a tree seen from a hole is what precedes the hole, the subtree in it and what follows, in order |
| RbTree.PlugValid | apps/msg/rbtree.c:14-27 | a valid subtree in a valid path makes a red-black tree (properties 2, 4 and 5) |
| RbTree.PlugValidInverse | apps/msg/rbtree.c:14-27 | every red-black tree comes apart into a valid path and a valid subtree at any hole |
| RbTree.Finished | apps/msg/rbtree.c:89-110 | where a fix-up loop stops, the heap holds a red-black tree with the order of the nodes unchanged |
| RbTree.ChangeChild | apps/msg/rbtree.c:73-81 | the slot that pointed at the old node points at the new one, and nothing else above changes |
| RbTree.RotateSetParents | apps/msg/rbtree.c:73-81 | the new node takes the place, parent and colour of the old one, which becomes its child with the given colour |
| RbTree.RotateLeft | apps/msg/rbtree.c:209-214 | left rotation on the heap: the three subtrees hang where the rotation puts them, all parent links agree, everything above is untouched |
| RbTree.RotateRight | apps/msg/rbtree.c:164-180 | the mirror image of a left rotation |
| RbInsert.FlippedState | apps/msg/rbtree.c:116-136 | colour flip: the loop invariant holds two levels up |
| RbInsert.RotatedFixed | apps/msg/rbtree.c:138-181 | cases 2 and 3: the rotated subtree makes the whole tree valid |
| RbInsert.RotatedOrder | apps/msg/rbtree.c:138-181 | cases 2 and 3 on either side leave the in-order sequence alone |
| RbInsert.FlipColours | apps/msg/rbtree.c:130-135 | case 1 on the heap leads to exactly the flipped tree |
| RbInsert.DoubleLeft | apps/msg/rbtree.c:138-181 | case 2 going on into case 3 on the heap |
| RbInsert.DoubleRight | apps/msg/rbtree.c:193-216 | its mirror image |
| RbInsert.Blackened | apps/msg/rbtree.c:93-101 | a red root turned black is a valid tree |
| RbInsert.RoundKeeps | apps/msg/rbtree.c:103-217 | one round ends with a valid tree or keeps the invariant two levels up; same nodes, same order |
| RbInsert.Round | apps/msg/rbtree.c:109-217 | one round of the loop on the heap |
| RbInsert.InsertColor | apps/msg/rbtree.c:83-219 | insert fix-up from any leaf slot of any red-black tree: terminates, all properties hold, parent links agree, the new node is in its place in the order |
| RbErase.SiblingExists | apps/msg/rbtree.c:239-241 | the sibling of a deficient child exists, and a red one has two black children |
| RbErase.TurnedState | apps/msg/rbtree.c:241-259 | case 1 keeps the deficit where it is and gives it a black sibling |
| RbErase.TurnedOrder | apps/msg/rbtree.c:241-259 | case 1 leaves the order alone |
| RbErase.SettledState | apps/msg/rbtree.c:260-350 | cases 2 to 4 end with a valid tree or move the deficit one level up, both sides |
| RbErase.SettledOrder | apps/msg/rbtree.c:260-350 | cases 2 to 4 leave the order alone, both sides |
| RbErase.TurnKeeps | apps/msg/rbtree.c:241-259 | after case 1 the parent is red, so the loop cannot go round again |
| RbErase.RoundKeeps | apps/msg/rbtree.c:260-405 | one round with a black sibling: valid tree or deficit one level up, same nodes and order |
| RbErase.TurnLeft | apps/msg/rbtree.c:241-259 | case 1 on the heap |
| RbErase.TurnRight | apps/msg/rbtree.c:353-362 | case 1 on the heap, mirrored |
| RbErase.Redden | apps/msg/rbtree.c:263-290 | case 2 on the heap; it goes on exactly when the parent was black |
| RbErase.InnerLeft | apps/msg/rbtree.c:291-326 | case 3 going on into case 4 on the heap |
| RbErase.OuterLeft | apps/msg/rbtree.c:328-350 | case 4 on the heap |
| RbErase.InnerRight | apps/msg/rbtree.c:380-392 | case 3 going on into case 4, mirrored |
| RbErase.OuterRight | apps/msg/rbtree.c:393-404 | case 4, mirrored |
| RbErase.Round | apps/msg/rbtree.c:239-405 | one round of the loop on the heap, both sides |
| RbErase.EraseColor | apps/msg/rbtree.c:226-406 | erase fix-up of any tree that is one black short below an empty slot: terminates in a red-black tree with the same order |
| RbTraverse.HeightBound | apps/msg/rbtree.c:14-27 | no path is longer than twice the black height |
| RbTraverse.LogarithmicDepth | apps/msg/rbtree.c:14-27 | the height is at most twice the logarithm of the number of nodes plus one |
| RbTraverse.First | apps/msg/rbtree.c:464-475 | the first node in order, or null |
| RbTraverse.Last | apps/msg/rbtree.c:477-487 | the last node in order, or null |
| RbTraverse.Next | apps/msg/rbtree.c:490-519 | the in-order successor; null for a cleared node |
| RbTraverse.Prev | apps/msg/rbtree.c:522-549 | the in-order predecessor; null for a cleared node |
| RbTraverse.WalkForward | apps/msg/rbtree.c:464-519 | iterating from the first node yields every node once, in order |
| RbTraverse.WalkBackward | apps/msg/rbtree.c:477-549 | iterating back from the last node yields every node once, in the opposite order |
| RbTraverse.NextThenPrev | apps/msg/rbtree.c:490-549 | going back undoes going on |
| RbTraverse.ReplaceNode | apps/msg/rbtree.c:551-565 | the new node stands where the victim stood, with its links and colour |
| RbTraverse.ReplacedTree | apps/msg/rbtree.c:551-565 | replacing changes one entry of the order and keeps a red-black tree one |
| RbTraverse.DistinctOrder | apps/msg/rbtree.c:490-519 | no node occurs twice in the order |
| RbTraverse.LinkNode | apps/msg/rbtree.h:88-95 | a red leaf is linked at the slot, the rest is untouched |
| RbTraverse.Insert | apps/msg/rbtree.h:88-95 | link and fix-up together: a red-black tree with the node in its place in the order |
| RbTraverse.RbRootCached.InsertColorCached | apps/msg/rbtree.h:154-161 | with a correct flag the cache is the first node after the insertion |
| RbTraverse.RbRootCached.ReplaceNodeCached | apps/msg/rbtree.h:171-178 | the cache is the first node after the replacement, one entry of the order has changed |
| RingArena.LayoutSeparate | apps/vcar_sys_ringqueue/vcar_sys_ringqueue.c:256-326 | live blocks are in bounds and pairwise disjoint, and none of their bytes is in the write window |
| RingArena.EvictedLayout | apps/vcar_sys_ringqueue/vcar_sys_ringqueue.c:246-253 | dropping the oldest block keeps the layout |
| RingArena.ReclaimedLayout | apps/vcar_sys_ringqueue/vcar_sys_ringqueue.c:313-319 | reclaiming while wrapped keeps it |
| RingArena.WrappedLayout | apps/vcar_sys_ringqueue/vcar_sys_ringqueue.c:301-308 | wrapping keeps it |
| RingArena.AppendedLayout | apps/vcar_sys_ringqueue/vcar_sys_ringqueue.c:209-234 | storing a block at the write position keeps it |
| RingArena.WhichLayout | apps/vcar_sys_ringqueue/vcar_sys_ringqueue.c:293-293 | the pointer test of the code tells the two layouts apart |
| RingArena.HalfFits | apps/vcar_sys_ringqueue/vcar_sys_ringqueue.c:270-322 | as long as old items reach past the middle, an item of up to half the arena can always be taken |
| RingArena.WrappedFit | apps/vcar_sys_ringqueue/vcar_sys_ringqueue.c:301-308 | wrapping keeps what the loop relies on: the newest item ends high enough or a reader pins something; with room made, old items reach past the middle |
| RingArena.ReclaimedFit | apps/vcar_sys_ringqueue/vcar_sys_ringqueue.c:313-319 | reclaiming keeps it, down to the last item |
| RingArena.EvictedFit | apps/vcar_sys_ringqueue/vcar_sys_ringqueue.c:273-281 | so does dropping an item for its slot |
| RingSpec.PositionInverse | apps/vcar_sys_ringqueue/vcar_sys_ringqueue.c:171-198 | positions and slots are inverse within one turn of the ring |
| RingSpec.PositionUnique | apps/vcar_sys_ringqueue/vcar_sys_ringqueue.c:171-198 | a position names one slot |
| RingSpec.DroppedTwice | apps/vcar_sys_ringqueue/vcar_sys_ringqueue.c:246-253 | dropping in two goes is dropping at once |
| RingRound.PinnedReturns | apps/vcar_sys_ringqueue/vcar_sys_ringqueue.c:270-322 | with any item pinned the loop comes to an end, whatever the length |
| RingRound.ReturnsExactly | apps/vcar_sys_ringqueue/vcar_sys_ringqueue.c:270-322 | on any fields within the arena a write of any length returns if and only if the window, the end of the arena, some slot or a stray pointer makes room, or some item is pinned |
| RingRound.FreshTakes | apps/vcar_sys_ringqueue/vcar_sys_ringqueue.c:130-207 | a new queue takes an item if and only if it is no larger than the arena or the truncated distance to the NULL of an unused slot passes for room |
| RingRound.FullSizeCanHang | apps/vcar_sys_ringqueue/vcar_sys_ringqueue.c:270-322 | three writes of 3 bytes lead from a new queue with an arena of 4 to one on which a write of 4 bytes never returns |
| RingQueue.RingQueue.constructor | apps/vcar_sys_ringqueue/vcar_sys_ringqueue.c:130-207 | an empty queue with the given mask |
| RingQueue.RingQueue.MoveItemHeader | apps/vcar_sys_ringqueue/vcar_sys_ringqueue.c:246-253 | the oldest block leaves the slots, exactly as the round says |
| RingQueue.RingQueue.SetItemTail | apps/vcar_sys_ringqueue/vcar_sys_ringqueue.c:209-234 | the entry is appended, all live entries keep their bytes, the fields are those of the round |
| RingQueue.RingQueue.DropHead | apps/vcar_sys_ringqueue/vcar_sys_ringqueue.c:273-281 | one unpinned entry goes from the front |
| RingQueue.RingQueue.ReclaimHead | apps/vcar_sys_ringqueue/vcar_sys_ringqueue.c:313-319 | one unpinned entry goes and the window grows to its end |
| RingQueue.RingQueue.WrapAround | apps/vcar_sys_ringqueue/vcar_sys_ringqueue.c:301-308 | one unpinned entry goes and writing starts over |
| RingQueue.RingQueue.CheckSlots | apps/vcar_sys_ringqueue/vcar_sys_ringqueue.c:273-281 | the last free slot is made by dropping the oldest entry, or the write is refused because it is pinned |
| RingQueue.RingQueue.MakeRoom | apps/vcar_sys_ringqueue/vcar_sys_ringqueue.c:293-320 | the window is widened, reclaimed or wrapped, with a measure that decreases |
| RingQueue.RingQueue.Round | apps/vcar_sys_ringqueue/vcar_sys_ringqueue.c:270-322 | one round of the loop does what `RingRound.Round` says, drops only unpinned entries and makes progress |
| RingQueue.RingQueue.Store | apps/vcar_sys_ringqueue/vcar_sys_ringqueue.c:270-322 | the loop terminates: stored behind a suffix of the old queue, or refused because a reader pins the oldest entry |
| RingQueue.RingQueue.Write | apps/vcar_sys_ringqueue/vcar_sys_ringqueue.c:256-326 | for every item that the arena can take or that a reader keeps out. OK: a suffix of the old queue plus the new item; FULL: a suffix whose oldest entry is pinned; INPUT: exactly for bad arguments, nothing changed |
| RingQueue.RingQueue.WriteReturnsExactly | apps/vcar_sys_ringqueue/vcar_sys_ringqueue.c:270-322 | for every queue, of 2 slots or more, exactly when a write of any length returns |
| RingQueue.RingQueue.Read | apps/vcar_sys_ringqueue/vcar_sys_ringqueue.c:327-399 | keeps room for half the arena; the entry at the index, cut to the room of the caller, with the mask cleared; AGAIN at the tail, INVALID at a dead slot |
| RingQueue.RingQueue.ClearMask | apps/vcar_sys_ringqueue/vcar_sys_ringqueue.c:379-382 | the reader's bits leave one mask, nothing else changes; room for half the arena is kept |
| RingQueue.RingQueue.SetMask | apps/vcar_sys_ringqueue/vcar_sys_ringqueue.c:516-526 | later items are pinned by the given bits too |
| RingQueue.RingQueue.ClearUserMask | apps/vcar_sys_ringqueue/vcar_sys_ringqueue.c:527-538 | later items are not pinned by the given bits |
| RingDelivery.OwnReadOutcome | apps/vcar_sys_ringqueue/vcar_sys_ringqueue.c:327-399 | in a reachable state the reader gets the next item in write order or AGAIN, never INVALID |
| RingDelivery.StepKeeps | apps/vcar_sys_ringqueue/vcar_sys_ringqueue.c:209-253 | no step of a writer or another reader passes an item the reader has not read |
| RingDelivery.EveryItemOnceInOrder | apps/vcar_sys_ringqueue/vcar_sys_ringqueue.c:209-399 | over every run the reader's items are a prefix of the items written, in order, and the next one is there to be read |
| RingReader.Write | apps/vcar_sys_ringqueue/vcar_sys_ringqueue.c:256-326 | a write of the queue is a step of the run |
| RingReader.OtherRead | apps/vcar_sys_ringqueue/vcar_sys_ringqueue.c:327-399 | so is a read with another mask |
| RingReader.ReadNext | apps/vcar_sys_ringqueue/vcar_sys_ringqueue.c:327-399 | so is the reader's own read, which returns the bytes of the next item |
| RingRuns.AlwaysTakes | apps/vcar_sys_ringqueue/vcar_sys_ringqueue.c:270-322 | half the arena can be taken in every state that the calls lead to |
| RingRuns.Perform | apps/vcar_sys_ringqueue/vcar_sys_ringqueue.c:256-399 | every call keeps that, is a step of the run, and returns what the run says |
| RingRuns.Run | apps/vcar_sys_ringqueue/vcar_sys_ringqueue.c:130-399 | any sequence of writes of up to half the arena, reads by anybody and mask changes on a new queue goes through: each write is stored or refused, each read of the reader returns the bytes of its next item, and at every point it holds the first items written |
| WriteRing.Published | apps/sysbus/lib_src/multiplex_io.c:174-189 | bytes in the free cells extend the contents when the index moves |
| WriteRing.Advanced | apps/sysbus/lib_src/multiplex_io.c:291-303 | bytes read are the front of the contents |
| WriteRing.Rewound | apps/sysbus/lib_src/multiplex_io.c:297-302 | the index `size` stands for 0 |
| WriteRing.CopyUnseen | apps/sysbus/lib_src/multiplex_io.c:176-186 | copying into free cells changes nothing in view |
| WriteRing.MioRb.WriteData | apps/sysbus/lib_src/multiplex_io.c:158-195 | all of the bytes are appended, or none if they exceed capacity size-1; the cells and the index are given exactly |
| WriteRing.MioRb.GetDataSize | apps/sysbus/lib_src/multiplex_io.c:197-212 | the number of bytes in the ring |
| WriteRingProtocol.StepKeeps | apps/sysbus/lib_src/multiplex_io.c:285-337 | every step of a writer or of the epoll thread keeps the invariant |
| WriteRingProtocol.AllOrNothing | apps/sysbus/lib_src/multiplex_io.c:617-635 | a write is accepted as a whole when its index is stored, or not at all; emitted bytes are never taken back |
| WriteRingProtocol.EveryInterleavingSafe | apps/sysbus/lib_src/multiplex_io.c:285-337 | over every interleaving, emitted bytes and ring contents are the accepted writes in order, and a non-empty ring is armed or about to be |
| WriteRingRuns.WholeWrites | apps/sysbus/lib_src/multiplex_io.c:158-337 | at every point of every run, emitted bytes and ring contents are the stored writes, each whole and in order, each entered as it is when there was room for it |
| WriteRingArming.ArmedExactly | apps/sysbus/lib_src/multiplex_io.c:285-337 | at the end of a round in which the thread could write, EPOLLOUT is asked for if and only if the ring is not empty; after another round also if it was before |
| WriteRingSteps.WriteAsSteps | apps/sysbus/lib_src/multiplex_io.c:158-195 | a call of the write function is a run of those steps |
| Bytes.U16RoundTrip | apps/sysbus/lib_src/libsysbus.c:421-424 | two bytes give back a 16-bit number, and a larger one modulo 65536 |
| Framing.CutAnywhere | apps/sysbus/lib_src/libsysbus.c:104-135 | where the stream is cut does not matter |
| Framing.AnyChunking | apps/sysbus/lib_src/libsysbus.c:104-135 | any sequence of reads delivers the packets of the whole stream and holds its rest |
| Framing.RestIsShort | apps/sysbus/lib_src/libsysbus.c:107-133 | what is held leaves room in the buffer, whatever the bytes |
| Framing.Reassembled | apps/sysbus/lib_src/libsysbus.c:104-135 | sent packets and a proper prefix of the next: exactly those come out, exactly that is held |
| Framing.EverySentPacketArrives | apps/sysbus/lib_src/libsysbus.c:406-449 | every packet sent arrives, in order, under every cut, at the client and at the server |
| Framing.ServerHoldsBackEmpty | apps/sysbus/src/local_server.c:148-153 | the server delivers all packets at once if and only if the last one is not empty |
| Framing.ClientScan | apps/sysbus/lib_src/libsysbus.c:111-128 | the client loop delivers the packets and stops at the rest |
| Framing.ServerScan | apps/sysbus/src/local_server.c:146-221 | so does the server loop |
| Framing.RxBuffer.ClientReceive | apps/sysbus/lib_src/libsysbus.c:107-133 | one pass on the real buffer, compaction included |
| Framing.RxBuffer.ServerReceive | apps/sysbus/src/local_server.c:142-230 | the same for the server |
| Framing.EncodeControl | apps/sysbus/lib_src/libsysbus.c:334-344 | the bytes of a subscribe or unsubscribe packet |
| Framing.DecodeControl | apps/sysbus/src/local_server.c:172-204 | the ids the server reads from one |
| Framing.IdsRoundTrip | apps/sysbus/lib_src/libsysbus.c:340-344 | the server reads back the ids that were written |
| Framing.ControlRoundTrip | apps/sysbus/lib_src/libsysbus.c:334-344 | the server sees one packet with the ids that were written if and only if there are at most 32765 |
| Framing.TooManyIds | apps/sysbus/src/local_server.c:143-211 | what the server makes of 32766 or 32767 ids: empty packets for the topic of the command and for the first id, then whatever the ids spell |
| Framing.SubscribeTooMany | apps/sysbus/src/local_server.c:143-211 | 32766 subscriptions to topic 7 reach the subscribers of topics 1 and 7 as packets |
| SysbusList.InsertAfter | apps/sysbus/src/list.h:29-38 | the new node is first on the circular list |
| SysbusList.InsertBefore | apps/sysbus/src/list.h:46-55 | the new node is last |
| SysbusList.Remove | apps/sysbus/src/list.h:61-67 | the list without the node, and the node as a list of its own |
| SysbusList.IsEmpty | apps/sysbus/src/list.h:73-76 | true exactly for a head alone |
| SysbusList.ContainsNode | apps/sysbus/src/list.h:78-81 | equal head fields mean membership |
| SysbusList.HeadDecides | apps/sysbus/src/list.h:18-24 | a head determines its list |
| SysbusIndex.OnTopic | apps/sysbus/src/local_server.c:51-66 | every node of a topic list is a reference that is on its client's list too |
| SysbusIndex.BothOrNeither | apps/sysbus/src/local_server.c:51-99 | a reference is on the list of its topic exactly together with its place on the list of its client |
| SysbusIndex.OncePerTopic | apps/sysbus/src/local_server.c:51-78 | no client is twice on a topic |
| SysbusIndex.OnlyReferences | apps/sysbus/src/local_server.c:169-185 | walking list t as references meets only references if and only if t is not 0 or nobody is connected |
| SysbusIndex.NewRef | apps/sysbus/src/local_server.c:67-76 | both nodes of a new reference are linked, all other lists are untouched |
| SysbusIndex.Detach | apps/sysbus/src/local_server.c:89-96 | both nodes of a reference leave their lists, all other lists are untouched |
| SysbusIndex.PassAll | apps/sysbus/src/local_server.c:80-99 | removal while walking: the walk reaches the end and removes the client's reference, if there is one |
| SysbusIndex.DropAll | apps/sysbus/src/local_server.c:240-246 | the loop of a closed connection removes every reference of the client and nobody else's |
| SysbusIndex.Dispatch | apps/sysbus/src/local_server.c:101-120 | every subscriber is visited once, and nobody else |
| SysbusIndex.Server.Connect | apps/sysbus/src/local_server.c:287-301 | the client is on list 0 and has an empty list of references |
| SysbusIndex.Server.Subscribe | apps/sysbus/src/local_server.c:51-78 | one subscription more, or none if it was there or memory is out |
| SysbusIndex.Server.SubscribeAll | apps/sysbus/src/local_server.c:169-185 | exactly the ids of the packet are added |
| SysbusIndex.Server.Unsubscribe | apps/sysbus/src/local_server.c:80-99 | the subscription is gone, the result counts it |
| SysbusIndex.Server.UnsubscribeAll | apps/sysbus/src/local_server.c:187-207 | exactly the ids of the packet are taken out, 0 is passed over |
| SysbusIndex.Server.Disconnect | apps/sysbus/src/local_server.c:232-250 | the client is gone with all its subscriptions; the others keep theirs |
| SysbusIndex.Server.Forward | apps/sysbus/src/local_server.c:153-156 | nothing is forwarded for id 0, otherwise every subscriber gets the packet once |
| Json.KeysEqual | apps/cjson/cJSON_Utils.c:83-109 | keys compare equal exactly when their folded forms are equal |
| Json.KeyOrder | apps/cjson/cJSON_Utils.c:83-109 | the comparison is a strict total order on folded keys |
| JsonKeyLaws.CompareSame | apps/cjson/cJSON_Utils.c:83-108 | keys compare equal if and only if they have the same characters, or the same letters in either case if case does not count |
| JsonKeyLaws.CompareOrder | apps/cjson/cJSON_Utils.c:95-98 | keys come in the order of their first different byte, a prefix first |
| JsonKeyLaws.CompareOrderIgnoringCase | apps/cjson/cJSON_Utils.c:100-108 | without regard to case they come in the order of their spellings in small letters |
| JsonKeyLaws.FindSame | apps/cjson/cJSON.c:1876-1909 | a lookup finds the first member with the same key |
| JsonKeyLaws.MatchSpells | apps/cjson/cJSON_Utils.c:120-154 | a key matches a path token if and only if it is the key that the token spells; a token with a stray `~` matches nothing |
| JsonKeyLaws.StepSame | apps/cjson/cJSON_Utils.c:322-330 | a token leads to the first member with the key that it spells |
| JsonKeyLaws.CapitalFound | apps/cjson/cJSON_Utils.c:142-145 | `a` finds `A` when case does not count, and only then |
| JsonKeyLaws.DecimalWraps | apps/cjson/cJSON_Utils.c:274-299 | the decimal text of any number is read modulo 2^64 |
| JsonKeyLaws.OddIndices | apps/cjson/cJSON_Utils.c:278-296 | odd index texts: `1~` is 88, leading zeros and signs are refused |
| JsonView.MapAppend | apps/cjson/cJSON.c:2007-2041 | appending a member with a new key sets that key |
| JsonView.MapRemove | apps/cjson/cJSON.c:2183-2217 | removing a member removes its key |
| JsonView.MapReorder | apps/cjson/cJSON_Utils.c:595-602 | the order of members does not matter |
| JsonView.FindInMap | apps/cjson/cJSON.c:1876-1906 | looking a key up in the list and in the map comes to the same |
| JsonPointer.EncodeStringAsPointer | apps/cjson/cJSON_Utils.c:157-195 | the escaped key, NUL-terminated, in exactly the length computed for it |
| JsonPointer.MatchEncoded | apps/cjson/cJSON_Utils.c:120-154 | a name matches an escaped key if and only if the folded keys are equal |
| JsonPointer.DecodeDecimal | apps/cjson/cJSON_Utils.c:274-299 | the decimal text of an index is read back |
| JsonPointer.TokensOfText | apps/cjson/cJSON_Utils.c:301-346 | the text of some tokens is read back as those tokens |
| JsonPointer.SelectChild | apps/cjson/cJSON_Utils.c:307-335 | the child one token leads to |
| JsonPointer.GetItemFromPointer | apps/cjson/cJSON_Utils.c:301-346 | the node the tokens of the pointer lead to, or none |
| JsonPointer.FindPointerFromObjectTo | apps/cjson/cJSON_Utils.c:198-259 | the search through all children finds the pointer of the target if and only if the target is there |
| JsonPointer.PointerRoundTrip | apps/cjson/cJSON_Utils.c:198-346 | resolving the pointer found for a node gives that very node, for all keys including `~`, `/` and the empty one |
| JsonPatch.DecodePointerInplace | apps/cjson/cJSON_Utils.c:359-390 | the buffer the decoding loop leaves, as written, for every token |
| JsonPatch.SurvivesExactly | apps/cjson/cJSON_Utils.c:359-390 | a key survives escaping and decoding if and only if it has no `/` and every other character than `~` stands unshifted |
| JsonPatch.PlainKeysSurvive | apps/cjson/cJSON_Utils.c:359-390 | keys without `~` and `/` do; `~a` and `a/b` do not |
| JsonPatch.ApplyComposed | apps/cjson/cJSON_Utils.c:1096-1134 | a composed patch is read back as composed |
| JsonPatch.ApplyPatches | apps/cjson/cJSON_Utils.c:1038-1094 | patches in order up to the first failure; 1 for a list that is no array |
| JsonPatch.TakenWhenDetached | apps/cjson/cJSON_Utils.c:430-481 | detaching succeeds exactly when there is something to take |
| JsonPatch.MoveIsRemoveAndAdd | apps/cjson/cJSON_Utils.c:905-941 | a move is a removal and an addition, a copy an addition of the item found at `from` |
| JsonPatchFailure.PutExactly | apps/cjson/cJSON_Utils.c:958-1019 | putting something at a path succeeds if and only if the parent is there and takes the child; otherwise nothing changes |
| JsonPatchFailure.DetachExactly | apps/cjson/cJSON_Utils.c:430-481 | taking something out succeeds if and only if it is there, and if and only if the document changes |
| JsonPatchFailure.TakenIsOpen | apps/cjson/cJSON_Utils.c:885-1019 | where something has just been taken out, something can be put, so a replacement with a value does not fail halfway |
| JsonPatchFailure.ApplyFailure | apps/cjson/cJSON_Utils.c:838-903 | add, remove and replace: the document is left changed by a failure if and only if an existing item is replaced without a value |
| JsonPatchFailure.CarryFailure | apps/cjson/cJSON_Utils.c:905-1019 | move and copy: it is if and only if an existing item is moved to where nothing can be put once it is gone |
| JsonPatchFailure.FailureExactly | apps/cjson/cJSON_Utils.c:807-1036 | a failed patch leaves the document changed if and only if it is one of those, for every patch and every document |
| JsonPatchFailure.MoveCanLose | apps/cjson/cJSON_Utils.c:905-1019 | moving /a to /x/y in {"a": null}: status 9, and the member is gone |
| JsonPatchFailure.ReplaceCanLose | apps/cjson/cJSON_Utils.c:885-951 | replacing /a without a value in {"a": null}: status 7, and the member is gone |
| JsonPatchFailure.MoveBelowItself | apps/cjson/cJSON_Utils.c:905-1019 | a member moved to any place below itself is always lost, with status 9 |
| JsonPatchFailure.ListFailure | apps/cjson/cJSON_Utils.c:1038-1094 | a list fails at one patch: those before it stay applied, and that one changes what they made only if it loses an item |
| JsonPatchFailure.ListCanStopHalfway | apps/cjson/cJSON_Utils.c:1038-1094 | two removals of /a in {"a": null}: status 13, and the first one stays |
| JsonPatchOps.OnlyFourMembers | apps/cjson/cJSON_Utils.c:807-1036 | a patch is the operation, path, value and origin that it names |
| JsonPatchOps.IndexStops | apps/cjson/cJSON_Utils.c:285-292 | an index ends at a `/` that decoding has put into a child |
| JsonPatchOps.PutStatusExactly | apps/cjson/cJSON_Utils.c:958-1023 | putting something returns 9 without a container, 11 for a bad index, 10 past the end, 0 otherwise |
| JsonPatchOps.StatusExactly | apps/cjson/cJSON_Utils.c:807-1036 | the status of every patch on every document, from a table over what it names |
| JsonPatchOps.AddThenRemove | apps/cjson/cJSON_Utils.c:807-1036 | adding at a place that holds nothing, or at an index, and removing again gives back the document |
| JsonPatchOps.CopyApplied | apps/cjson/cJSON_Utils.c:905-1019 | a copy succeeds at every place: the item found at `from` is there, and taking it out again gives back the document |
| JsonPatchOps.CopyOnce | apps/cjson/cJSON_Utils.c:905-1019 | copying /a to /b in {"a": null} gives {"a": null, "b": null} |
| JsonPatchOps.TestApplied | apps/cjson/cJSON_Utils.c:831-836 | a test changes nothing and passes, on plain documents, if and only if the item at the path says the same as the value |
| JsonPatchOps.RootApplied | apps/cjson/cJSON_Utils.c:838-883 | at the path "" the document becomes the value, or invalid; 7 without a value |
| JsonPatchLaws.AddThenTest | apps/cjson/cJSON_Utils.c:807-1036 | what was added at a place is found there by the test operation |
| JsonPatchLaws.CopyThenTest | apps/cjson/cJSON_Utils.c:905-941 | what was copied is found where it was copied to |
| JsonPatchLaws.MoveTakesItem | apps/cjson/cJSON_Utils.c:430-481 | a move takes the very item its pointer names |
| JsonPatchLaws.RunTest | apps/cjson/cJSON_Utils.c:831-836 | test succeeds if and only if both sides exist and compare equal |
| JsonTurns.TurnsThen | apps/cjson/cJSON_Utils.c:1038-1065 | one list of patches after another |
| JsonTurns.TurnsReplace | apps/cjson/cJSON_Utils.c:842-883 | replacing the root |
| JsonTurns.TurnsRemove | apps/cjson/cJSON_Utils.c:885-902 | removing a member by its escaped key |
| JsonTurns.TurnsAdd | apps/cjson/cJSON_Utils.c:1005-1018 | adding or overwriting a member by its escaped key |
| JsonTurns.TurnsPop | apps/cjson/cJSON_Utils.c:885-902 | removing an array item by its index |
| JsonTurns.TurnsPush | apps/cjson/cJSON_Utils.c:984-988 | appending to an array with `-` |
| JsonTurns.TurnsMember | apps/cjson/cJSON_Utils.c:807-1036 | patches of a member's value are patches of the object, with the key in front of every path |
| JsonTurns.TurnsItem | apps/cjson/cJSON_Utils.c:807-1036 | patches of an array item are patches of the array, with the index in front |
| JsonDiff.DiffItems | apps/cjson/cJSON_Utils.c:1176-1224 | the patches for two arrays turn the first into the second; none if they are equal |
| JsonDiff.DiffMembers | apps/cjson/cJSON_Utils.c:1226-1273 | the same for the sorted members of two objects |
| JsonDiff.CreatePatches | apps/cjson/cJSON_Utils.c:1141-1279 | the patches under a path turn every document with the first view into one equal to the second |
| JsonDiff.GeneratePatches | apps/cjson/cJSON_Utils.c:1281-1309 | diff then apply: status 0 and a document that compares equal to `to`, and says just what `to` does if both are made of fractions of some denominator; no patches if and only if the two compared equal |
| JsonSort.MergeSortSorts | apps/cjson/cJSON_Utils.c:484-592 | sorted by key, a permutation of the elements |
| JsonSortList.SortList | apps/cjson/cJSON_Utils.c:484-592 | the same nodes relinked in place into that order, interior links mutual, ended by null |
| JsonSortList.MergeLists | apps/cjson/cJSON_Utils.c:534-590 | merging two lists by relinking |
| JsonSortList.Split | apps/cjson/cJSON_Utils.c:520-531 | cutting a list in two |
| JsonSortList.Middle | apps/cjson/cJSON_Utils.c:509-519 | the cursor at half speed ends in the middle |
| JsonCompare.SortedMembers | apps/cjson/cJSON_Utils.c:595-602 | sorting distinct members gives strictly ascending keys and the same object |
| JsonCompare.CompareMembers | apps/cjson/cJSON_Utils.c:638-683 | the side-by-side walk decides equality of two sorted objects |
| JsonCompare.CompareJson | apps/cjson/cJSON_Utils.c:604-690 | decides equality up to member order and rounding |
| JsonCompare.Included | apps/cjson/cJSON.c:3056-3092 | one pass finds exactly whether every member has an equal counterpart |
| JsonCompare.Compare | apps/cjson/cJSON.c:2977-3100 | decides the other equality by lookups both ways |
| JsonPlain.ScalingKeeps | apps/cjson/cJSON_Utils.c:112-116 | `compare_double` is relative: scaling both numbers by any factor but 0 does not change its answer |
| JsonPlain.IntegersClose | apps/cjson/cJSON_Utils.c:112-116 | integers below 2^52 are told apart, 2^52 is the first that is not told from its neighbour |
| JsonPlain.FractionsClose | apps/cjson/cJSON.c:538-542 | fractions of the same denominator and numerators below 2^52 compare equal if and only if they are equal |
| JsonPlain.EqualitiesAgree | apps/cjson/cJSON_Utils.c:604-690 | on documents of such fractions, without raw and invalid items, both equalities are equality |
| JsonPlain.EqualitiesPart | apps/cjson/cJSON.c:2977-3034 | where they part: `valueint` and raw texts, and nothing equals an invalid item for one of them |
| JsonEndToEnd.CompareBothWays | apps/cjson/cJSON.c:2977-3100 | the two comparisons return the same answer there: whether the documents say the same |
| JsonMerge.MergePatch | apps/cjson/cJSON_Utils.c:1321-1378 | computes the function of section 2 of RFC 7396 |
| JsonMerge.MergeMember | apps/cjson/cJSON_Utils.c:1344-1374 | one member of a patch changes exactly its key |
| JsonMerge.MergeIdempotent | apps/cjson/cJSON_Utils.c:1321-1378 | merging a patch twice is merging it once |
| JsonMergeDiff.GenNone | apps/cjson/cJSON_Utils.c:1461-1467 | no patch is generated for two objects if and only if they are equal |
| JsonMergeDiff.GenerateMembers | apps/cjson/cJSON_Utils.c:1414-1459 | the walk over sorted members collects exactly the changed keys |
| JsonMergeDiff.GenerateMergePatch | apps/cjson/cJSON_Utils.c:1390-1470 | merging the generated patch gives `to` if and only if `to` is expressible; no patch means the two are equal |
| JsonMergeDiff.GeneratedExactly | apps/cjson/cJSON_Utils.c:1390-1470 | the same on views, for every two documents |
| JsonMergeDiff.NullCannotBeSet | apps/cjson/cJSON_Utils.c:1390-1470 | {"a": null} is not reached from {}: the patch is {"a": null} and merging it changes nothing |
| JsonMergeDiff.NullFreeExpressible | apps/cjson/cJSON_Utils.c:1390-1470 | a document without null members reachable through objects is always expressible, and from a non-object only such a one |
| JsonRoundTrip.StringBack | apps/cjson/cJSON.c:769-1017 | a printed string is parsed back |
| JsonRoundTrip.NumberBack | apps/cjson/cJSON.c:305-379 | a number that `sprintf` and `strtod` treat faithfully is parsed back |
| JsonRoundTrip.IntegerFaithful | apps/cjson/cJSON.c:545-608 | integers below 10^15 are such numbers |
| JsonNumberLaws.IntOfInteger | apps/cjson/cJSON.c:361-373 | `valueint` of an integer is the integer, or the nearer bound of `int` |
| JsonNumberLaws.IntOfReal | apps/cjson/cJSON.c:361-373 | of any number it is the number without its fraction, saturated |
| JsonNumberLaws.NumericExactly | apps/cjson/cJSON.c:318-349 | the characters that are copied for `strtod` |
| JsonNumberLaws.IntegersPrintThenParse | apps/cjson/cJSON.c:305-378 | documents of integers below 10^15 come back with every value and the `int` nearest to it, if and only if nested at most 1000 deep |
| JsonRoundTrip.ArrayBack | apps/cjson/cJSON.c:1437-1594 | an array is parsed back if and only if it is not nested too deep |
| JsonRoundTrip.ObjectBack | apps/cjson/cJSON.c:1597-1821 | so is an object |
| JsonRoundTrip.ValueBack | apps/cjson/cJSON.c:1308-1434 | so is any value, wherever its text stands |
| JsonRoundTrip.PrintThenParse | apps/cjson/cJSON.c:1308-1821 | formatted or not, the text of a document is parsed back to it and consumed to the end if and only if it is nested at most 1000 deep |
| JsonAround.SkipsTo | apps/cjson/cJSON.c:1034-1057 | skipping goes to the first character above the space |
| JsonAround.AnythingAround | apps/cjson/cJSON.c:1060-1130 | a mark and blanks before a document are skipped; what follows it is refused if and only if it is not blank and the end is insisted on; where parsing ends |
| JsonLayout.FormattingIsBlank | apps/cjson/cJSON.c:1710-1821 | formatting adds blanks outside strings and nothing else; unformatted text has none there |
| JsonLayout.LaidOut | apps/cjson/cJSON.c:1710-1821 | one member per line, as many tabs as brackets are open, one less before a closing brace, a space behind commas of arrays, a tab behind colons, no other blanks |
| JsonLayout.RawUnchanged | apps/cjson/cJSON.c:1403-1421 | raw text comes out as it is |
| JsonLayout.EscapedExactly | apps/cjson/cJSON.c:924-948 | only quotes, backslashes and control characters are escaped, seven of them in two bytes |
| JsonLayout.ControlsInHex | apps/cjson/cJSON.c:1004-1008 | the other control characters are written with four small hexadecimal digits |
| JsonEndToEnd.PrintAndParse | apps/cjson/cJSON.c:1171-1305 | printing into any buffer and parsing: the items built hold the document if and only if it is nested at most 1000 deep |
| JsonStringLaws.Utf8ReadBack | apps/cjson/cJSON.c:708-755 | a UTF-8 reader gives back the code point from the bytes written for it, of which there are as few as possible |
| JsonStringLaws.PointParsed | apps/cjson/cJSON.c:648-755 | the literal of any code point but 0 and the surrogates, in either case, is parsed to a string from which the reader gives it |
| JsonStringLaws.PiecesParsed | apps/cjson/cJSON.c:769-873 | every string literal is parsed to the bytes its characters stand for, written as they are, by short escapes or by code point |
| JsonStringLaws.NulEnds | apps/cjson/cJSON.c:769-873 | the literal of NUL ends the string |
| JsonStringLaws.LoneSurrogate | apps/cjson/cJSON.c:668-690 | a surrogate by itself is refused |
| JsonStringLaws.BrokenPair | apps/cjson/cJSON.c:675-703 | so is a high surrogate that no low one follows |
| JsonStringLaws.UnknownEscape | apps/cjson/cJSON.c:822-862 | so is a backslash before any other character |
| JsonStringLaws.BadDigit | apps/cjson/cJSON.c:630-633 | a digit that is none makes a literal stand for NUL |
| JsonParser.SizedNext | apps/cjson/cJSON.c:820-869 | bytes written plus escapes passed never exceed bytes read, whatever a `\u` literal overlaps |
| JsonParser.SizedEnough | apps/cjson/cJSON.c:782-816 | so the estimated size suffices for every input |
| JsonParser.ParseBuffer.SizeString | apps/cjson/cJSON.c:782-816 | the closing quote and the number of escapes before it |
| JsonParser.ParseBuffer.ParseHex4 | apps/cjson/cJSON.c:611-645 | the number of four digits, 0 if one is none |
| JsonParser.ParseBuffer.EncodeUtf8 | apps/cjson/cJSON.c:708-755 | the bytes of a code point, the last one first |
| JsonParser.ParseBuffer.DecodeLiteral | apps/cjson/cJSON.c:648-767 | one unit or a pair of surrogates, or failure |
| JsonParser.ParseBuffer.DecodeNext | apps/cjson/cJSON.c:822-862 | one character or escape of a literal |
| JsonParser.ParseBuffer.DecodeInto | apps/cjson/cJSON.c:820-873 | decodes into an array of the estimated size without leaving it |
| JsonParser.ParseBuffer.ParseString | apps/cjson/cJSON.c:769-895 | a string literal and the position after it, or failure, as the grammar says |
| JsonParser.ParseBuffer.ParseNumber | apps/cjson/cJSON.c:305-379 | a number of at most 63 characters, with saturated integer part |
| JsonParser.ParseBuffer.SkipWhitespace | apps/cjson/cJSON.c:1034-1057 | to the next character above the space, or back to the terminator |
| JsonParser.ParseBuffer.ParseValue | apps/cjson/cJSON.c:1308-1360 | accepts exactly the grammar; the item is the top of a tree that holds the value, with proper child lists all the way down |
| JsonParser.ParseBuffer.ParseArray | apps/cjson/cJSON.c:1437-1532 | the same for an array |
| JsonParser.ParseBuffer.ParseItems | apps/cjson/cJSON.c:1468-1505 | the new items are chained behind each other in order |
| JsonParser.ParseBuffer.ParseObject | apps/cjson/cJSON.c:1597-1707 | the same for an object |
| JsonParser.ParseBuffer.ParseMembers | apps/cjson/cJSON.c:1627-1680 | the new members are chained behind each other in order, with their names |
| JsonParser.Parse | apps/cjson/cJSON.c:1091-1168 | the item returned holds the document of the text, and null is returned exactly when there is none |
| JsonPrinter.PrintBuffer.Grow | apps/cjson/cJSON.c:479-515 | text already written is kept; it reads past the end exactly when an empty buffer is copied by hand |
| JsonPrinter.PrintBuffer.Ensure | apps/cjson/cJSON.c:439-522 | succeeds if and only if there can be room, and grants it without changing the text |
| JsonPrinter.PrintBuffer.UpdateOffset | apps/cjson/cJSON.c:525-535 | to the terminator of what was written |
| JsonPrinter.PrintBuffer.EscapeChar | apps/cjson/cJSON.c:976-1009 | what is written for a character |
| JsonPrinter.PrintBuffer.EscapeSize | apps/cjson/cJSON.c:924-948 | how many bytes more than one it takes |
| JsonPrinter.PrintBuffer.PrintString | apps/cjson/cJSON.c:898-1017 | exactly the quoted text, NUL-terminated, if and only if it fits |
| JsonPrinter.PrintBuffer.PrintNumber | apps/cjson/cJSON.c:545-608 | exactly the text of the number, if and only if it has at most 25 characters and fits |
| JsonPrinter.PrintBuffer.PrintValue | apps/cjson/cJSON.c:1363-1434 | exactly the rendered text behind what was there |
| JsonPrinter.PrintBuffer.PrintArray | apps/cjson/cJSON.c:1535-1594 | the same for an array |
| JsonPrinter.PrintBuffer.PrintObject | apps/cjson/cJSON.c:1710-1821 | the same for an object |
| JsonPrinter.Print | apps/cjson/cJSON.c:1183-1305 | the rendered text and its terminator for any starting size and either way of growing, and the exact condition of the one read out of bounds |
| JsonChildren.Item.GetArrayItem | apps/cjson/cJSON.c:1847-1864 | the child at an index, or null |
| JsonChildren.Item.AddItemToArray | apps/cjson/cJSON.c:1952-1983 | appended at the end; refused for null and for the parent itself |
| JsonChildren.Item.InsertItemInArray | apps/cjson/cJSON.c:2259-2286 | inserted before an index, appended past the end, refused for a negative one |
| JsonChildren.Item.DetachItemViaPointer | apps/cjson/cJSON.c:2183-2217 | the children without the item, which points nowhere |
| JsonChildren.Item.ReplaceItemViaPointer | apps/cjson/cJSON.c:2288-2335 | the replacement stands in the place of the item |
| JsonChildren.ChainOn | apps/cjson/cJSON.c:1473-1489 | one more item at the end of a chain |
| JsonChildren.CloseTree | apps/cjson/cJSON.c:1510-1518 | the first child points back at the last, and the list hangs off its parent |
| JsonDuplicate.SameSpells | apps/cjson/cJSON.c:2697-2769 | a copy holds the same document |
| JsonDuplicate.Duplicate | apps/cjson/cJSON.c:2697-2769 | a new tree of new items that says the same, with proper child lists; null for null; the item alone unless recursive |

## Left out

- RingQueue.RingQueue.Write: asks for at least 3 slots, dataLen > 0, and an item that the arena can take (the newest
  item ends high enough or there is enough behind it) or a pinned one; otherwise the loop runs past the live items. Then
  `RingQueue.RingQueue.WriteReturnsExactly` says whether it ends, but not what the queue holds.
- RingQueue.RingQueue.constructor: the NULL of an unused slot is an offset of -1; `RingRound` has it anywhere below the
  arena.
- JsonDiff.GeneratePatches: needs documents whose keys survive `decode_pointer_inplace` and have no upper case when
  case counts, because `detach_path` always ignores case.
- JsonMergeDiff.GenerateMergePatch: needs keys without upper case, because the generator walks with `strcmp` whatever
  the sort flag.
- JsonPatch.ApplyPatches: works on document values; the in-place mutation of the target, the reordering of members
  that the test operation causes by sorting, and a move whose `from` is not a string (the code reads its null text) are not modelled.
- JsonPatchFailure.FailureExactly: like `JsonPatchFailure.ListFailure`, up to the order of members, which a test sorts.
- JsonCompare.CompareJson: works on document values with distinct keys; that it leaves both arguments sorted is not
  modelled.
- JsonSortList.SortList: says nothing of the `prev` of the new head, which need not be the tail.
- JsonMerge.MergePatch: works on document values with distinct keys.
- JsonPointer.FindPointerFromObjectTo: nodes are identified by the child indices that lead to them.
- JsonParser.Parse: NUL-terminated texts only (no explicit length), without the error position; `strtod` is a
  parameter, and so is `sprintf` in the printer. The locale's decimal point, NaN and infinities are not modelled.
- JsonPrinter.PrintBuffer.Grow: what the byte past the end holds is not modelled; it is never part of the text.
- RbErase.EraseColor: the unlinking of a node that comes before it (`__rb_erase_augmented`) is not part of this model,
  nor is the cached erase.
- RbTree.RotateSetParents: the word that packs parent and colour is two fields; write order for lock-free readers and
  the augment callbacks are not modelled.
- WriteRingProtocol.EveryInterleavingSafe: failed `write` calls (-1 added to an index) and the unlocked reset of the
  queue are not modelled.
- SysbusIndex.Server.SubscribeAll: ids other than 0, and allocation that succeeds; `Subscribe` models its failure.
- Framing.RxBuffer.ClientReceive: the overlapping `memcpy` of the compaction is a move.
- Ring queue clean, destroy and find functions, locks and races on them; reader masks are sets of bit positions.
- JSON: allocation failure, null arguments except where a row says so, references, constant-string flags, `cJSON_Minify`.
- `apps/msg/que.c`, UDP, timers, uevents, logging, sockets and epoll themselves, the demo programs.
