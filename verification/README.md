# Verification of the messaging core

This project models the parts of the repository whose correctness rests on many steps or many functions working
together, and proves what they promise. Dafny 4.11 checks all of it with `dafny verify dfyconfig.toml`.

* **Queue and pool.** `MpscQueue` and `ItemPool` are state machines in which every access to a shared word is one
  step and steps of any number of threads interleave in any order, with sequentially consistent memory;
  `QueueTheorems` and `PoolTheorems` say what they promise in every run. `QueueMemory` and `PoolMemory` run the same steps in
  place on mutable words and on the item objects of `ItemMemory`.
* **Red-black tree.** `RedBlack` says what a tree and a position in it are and what the two recolouring loops do to
  them; `RedBlackMemory` says what the assignments of a rotation, a splice or a replacement do to the links of all
  nodes; `RedBlackTree` is the pointer code on node objects. `KeyValue` is the table on top of it and `Properties`
  the layered filters and groups.
* **Wire protocol.** `Wire` has the bytes of headers and packets, `Reassembly` the assembler and delivery as
  functions, `Packing` the batches and fragments as functions. `Batch` and `Publisher` fill byte arrays in place,
  `Handler` takes packets apart and grows the assembly buffers in place, `ByteStream` splits a byte stream.
  `Transfer` puts both ends together. `Dispatch` is the rotation among the subscribers of a topic.
* **Lifecycle.** `Lifecycle` is a state machine of a stream and its publishers or subscribers across application
  threads, the lock, the event thread and the application queues. `LifecycleTheorems` says what holds in every run;
  `LifecycleRuns` has runs that show what can go wrong, and that a stream can always come to rest. `StreamMemory`
  has the member, topic and stream objects with the functions that write them, and `StreamRefinement` proves that
  they follow the state machine. `Weights` has the weights of the threads and `WeightBalance` ties them to the
  lifecycle.
* **Transformations.** `Csv` is the line parser, `Multicast` the map from topics to addresses.

What the proofs found where code and documentation disagree:

* The topic limit is 255 characters, but the header's 8-bit topic size holds only for topics of up to 249
  (`Wire.HeaderRoundTrip`). A message with a longer topic is dropped by the receiver, together with everything behind
  it in its packet (`Wire.LongTopicLost`).
* The comment at the message size limit speaks of about 256 fragments; a message is delivered as sent exactly with
  up to 255, and fragment 256 is taken as a message of its own (`Reassembly.OverlongMessage`). With small packets
  the size limit of 65536 bytes does not exclude this; `Packing.BatchBySize` and `Publisher.SendRoundTrip` say
  which sizes do.
* A create assigns `mTportStream` before it increments the stream's reference count, so an add event can run in
  between and the count is one too low for that time. The assertion of `sbfTport_removeTopic` can fail then
  (`LifecycleRuns.AssertionCanFail`, with the exact condition in `LifecycleTheorems.AssertionFailsExactly`). The check
  that is repeated under the lock still keeps the stream (`LifecycleTheorems.RemovedSafely`).
* A ready or message callback can start, and destroy its member, before the create has returned. Then the count can
  wrap, the member can be freed while its create still holds the lock (`LifecycleRuns.FreedInCreate`) and the stream
  can stay with no member left (`LifecycleRuns.StreamCanStay`); `LifecycleTheorems.GoneWithItsMembers` says exactly
  when it does not.
* `mDestroyed` is checked before a callback is called, not while, so a callback can start after the destroy has
  returned (`LifecycleRuns.CalledAfterDestroy`); `LifecycleTheorems.LateCalls` says exactly which.
* A header with a topic size of 0 passes the check if its flags are 0, and its topic is then read from what follows
  (`Wire.TopicStaysInside`).
* A first fragment that arrives while another run of its topic is under way is taken as out of order, and its whole
  message is lost with the one that it cuts in on (`Reassembly.EndsExactly`).
* An empty field without quotes at the end of a line is not seen behind a field in quotes (`Csv.RoundTrip`).

## Model

| member | source | states |
|---|---|---|
| `QueueTheorems.ReturnedInExchangeOrder` | src/core/sbfQueueLinux.h:47-108 | What `sbfQueueNext` has returned is, in every run, a prefix of the items in the order of their head exchanges: nothing is lost, repeated or reordered. |
| `QueueTheorems.ProducerFifo` | src/core/sbfQueueLinux.h:47-55 | Of each producer, what was returned, what is queued and what is still in its hands is exactly what it has sent, in its order. |
| `QueueTheorems.NullOnlyWhenEmptyOrOverlapped` | src/core/sbfQueueLinux.h:73-108 | In every run, a step that ends a call of `sbfQueueNext` without returning an item finds the queue empty, or an enqueue has overlapped the call. |
| `QueueTheorems.NextReturnsTheFirst` | src/core/sbfQueueLinux.h:82-107 | With an item queued and no producer inside its enqueue, a call of `sbfQueueNext` returns the first item within seven steps, the last item of the queue included. |
| `QueueTheorems.NextIsWaitFree` | src/core/sbfQueueLinux.h:73-108 | Whatever the producers do meanwhile, a call of `sbfQueueNext` ends within seven steps of its own. |
| `QueueTheorems.EmptyGivesNothing` | src/core/sbfQueueLinux.h:110-149 | From an empty queue a dequeue that does not block returns NULL at once, and one that does is asleep four steps later, with the flag up. |
| `QueueTheorems.EnqueueAppends` | src/core/sbfQueueLinux.h:47-71 | An enqueue that nobody interrupts puts exactly its item behind all others. |
| `QueueTheorems.SleeperIsServed` | src/core/sbfQueueLinux.h:57-149 | An enqueue into a queue whose consumer sleeps wakes it, and its call returns that item within seven steps. |
| `QueueTheorems.FlagIsDown` | src/core/sbfQueueLinux.h:132-138 | A consumer that has put up the flag and then got an item has taken the flag down when it leaves. |
| `QueueTheorems.NoLostWakeup` | src/core/sbfQueueLinux.h:110-149 | With the blocking mode fixed: while the consumer sleeps and an item is undelivered, a producer is past its exchange with its wake still to come; once the flag is down its next step wakes the consumer. |
| `QueueTheorems.SafeReuse` | src/core/sbfQueueLinux.h:47-55 | No thread still has a write to the link of a node outside the queue. |
| `QueueTheorems.ReturnedLeavesTheQueue` | src/core/sbfQueueLinux.h:82-107 | A returned item is not the stub and is not in the chain any more; nodes in the chain are distinct. |
| `MpscQueue.RunInv` | src/core/sbfQueueLinux.h:47-149 | The chain, history, wakeup and overlap invariants hold after every interleaving. |
| `QueueMemory.Queue.Produce` | src/core/sbfQueueLinux.h:47-71 | One shared access of a producer, on item objects with their `mNext` fields, is the step of the state machine on what the objects hold. |
| `QueueMemory.Queue.Consume` | src/core/sbfQueueLinux.h:73-149 | The same of one shared access of the consumer. |
| `QueueMemory.Queue.Play` | src/core/sbfQueueLinux.h:23-149 | A whole run of these steps on the objects is a run of the state machine and keeps its invariants. |
| `ItemPool.ExactlyOnePlace` | src/common/sbfPoolInline.h:77-120 | Every item ever created is at exactly one place: held by a caller, on the available chain, on the free chain or carried by one thread. |
| `ItemPool.ChainsAcyclicAndDisjoint` | src/common/sbfPoolInline.h:77-97 | Both chains end, have no item twice and share none; the free chain at every step. |
| `ItemPool.PushPrependsToTheCurrentChain` | src/common/sbfPoolInline.h:141-158 | A compare-and-swap that succeeds puts the item before the chain of that moment, even if the head was taken and came back in between. |
| `ItemPool.OneGetInside` | src/common/sbfPoolInline.h:83-95 | At most one get is between the lock and the unlock. |
| `ItemPool.RunInv` | src/common/sbfPoolInline.h:77-158 | The pool invariant holds after every interleaving of puts and gets. |
| `PoolTheorems.NothingOnlyIfEmpty` | src/common/sbfPoolInline.h:83-96 | In every run a get comes away with nothing only if both lists are empty in that step, while it holds the lock. |
| `PoolTheorems.NewOnlyWhenEmpty` | src/common/sbfPoolInline.h:105-120 | In every run an item is made only by a get that found both lists empty in a step of its own with the lock held. |
| `PoolTheorems.GetAlone` | src/common/sbfPoolInline.h:83-120 | A get that nobody interrupts returns the first item of the available list, else takes over the free list and returns the item put last, else makes a new one. |
| `PoolTheorems.PutAlone` | src/common/sbfPoolInline.h:141-158 | A put that nobody interrupts leaves its item first on the free list. |
| `PoolMemory.Pool.Put` | src/common/sbfPoolInline.h:153-157 | One shared access of a put, on item objects with their `mNext` fields, is the step of the state machine on what the objects hold. |
| `PoolMemory.Pool.Get` | src/common/sbfPoolInline.h:83-118 | The same of one shared access of a get, which may make a new item. |
| `PoolMemory.Pool.Play` | src/common/sbfPoolInline.h:77-158 | A whole run of these steps on the objects is a run of the state machine and keeps its invariant. |
| `RedBlack.HeightBound` | src/common/systree.h:46-54 | A tree of n nodes is at most 2 lg (n + 1) high. |
| `RedBlack.InsertColorBalanced` | src/common/systree.h:400-442 | Whatever the position of the new red node, the insert recolour loop ends in a red-black tree. |
| `RedBlack.InsertColorInorder` | src/common/systree.h:400-442 | It keeps the nodes in their order. |
| `RedBlack.RemoveColorBalanced` | src/common/systree.h:444-518 | Whatever the position of the missing black node, the remove recolour loop ends in a red-black tree. |
| `RedBlack.RemoveColorInorder` | src/common/systree.h:444-518 | It keeps the nodes in their order. |
| `RedBlack.BlackSiblingBalanced` | src/common/systree.h:457-481 | A black sibling either settles the missing black node or passes it up one level. |
| `RedBlack.SortedInsert` | src/common/systree.h:594-604 | A key put where the search ends keeps the keys in order. |
| `RedBlack.SortedRemove` | src/common/systree.h:521-585 | Taking out one node keeps the keys in order. |
| `RedBlack.SpliceBalanced` | src/common/systree.h:569-583 | Taking out a node with at most one child leaves a red-black tree, or one that is a black node short at that place. |
| `RedBlackMemory.RotateLeftAt` | src/common/systree.h:335-353 | The assignments of a left rotation, in any context of a larger tree, rotate exactly that subtree and leave every other link as it is. |
| `RedBlackMemory.RotateRightAt` | src/common/systree.h:355-373 | The same of a right rotation. |
| `RedBlackMemory.ReplaceAt` | src/common/systree.h:549-560 | The successor put in the place of the removed node takes over its links, and the links into it lead to the successor. |
| `RedBlackMemory.SuccessorContents` | src/common/systree.h:529-568 | Replacing a node by its successor takes exactly that node out of the order. |
| `RedBlackTree.RbTree.RotateLeft` | src/common/systree.h:335-353 | The field assignments are those of the rotation as a function of the memory. |
| `RedBlackTree.RbTree.RotateRight` | src/common/systree.h:355-373 | The field assignments are those of the rotation as a function of the memory. |
| `RedBlackTree.RbTree.InsertColor` | src/common/systree.h:400-442 | The pointer loop ends with the memory holding the recoloured tree: parents and children agree and nothing else has changed. |
| `RedBlackTree.RbTree.RemoveColor` | src/common/systree.h:444-518 | The pointer loop ends with the memory holding the recoloured tree. |
| `RedBlackTree.RbTree.Insert` | src/common/systree.h:588-616 | The tree stays a sorted red-black tree; a new key adds exactly this node, an existing key changes nothing and its node is returned. |
| `RedBlackTree.RbTree.Remove` | src/common/systree.h:520-585 | The tree stays a sorted red-black tree and exactly this node leaves it. |
| `RedBlackTree.RbTree.Find` | src/common/systree.h:619-634 | Returns the node with the key, NULL exactly if there is none. |
| `RedBlackTree.RbTree.Descend` | src/common/systree.h:594-604 | The search ends at the node with the key or at the one place where it belongs. |
| `RedBlackTree.RbTree.Successor` | src/common/systree.h:530-533 | The leftmost node of the right subtree, with the way to it. |
| `RedBlackTree.RbTree.Next` | src/common/systree.h:658-677 | Returns the next node in order, NULL behind the last. |
| `RedBlackTree.RbTree.MinMax` | src/common/systree.h:700-716 | Returns the first or the last node in order, NULL of an empty tree. |
| `KeyValue.Table.Put` | src/common/sbfKeyValue.c:83-102 | The map has the key with the value, all other keys as before; the size stays exact. |
| `KeyValue.Table.Remove` | src/common/sbfKeyValue.c:104-118 | The map loses the key, if it has it; the size stays exact. |
| `KeyValue.Table.Get` | src/common/sbfKeyValue.c:54-65 | Finds the value of the key exactly if the map has it. |
| `KeyValue.Table.Size` | src/common/sbfKeyValue.c:48-52 | The number of keys of the map. |
| `KeyValue.Table.First` | src/common/sbfKeyValue.c:120-131 | The first item in key order, NULL of an empty table. |
| `KeyValue.Table.Next` | src/common/sbfKeyValue.c:133-144 | The next item in key order. |
| `KeyValue.Table.Copy` | src/common/sbfKeyValue.c:36-46 | A new table with the same map; the original is not touched. |
| `KeyValue.Table.Destroy` | src/common/sbfKeyValue.c:22-34 | Every item is removed and freed once, in order. |
| `Ordering.LessExactly` | src/common/sbfKeyValuePrivate.h:17 | One key comes before another exactly if it is a proper prefix of it or has the smaller character at the first difference. |
| `Properties.FilteredAt` | src/common/sbfProperties.c:126-149 | Key by key: the value of prefix.K if it is there, else that of K if K is not prefixed. |
| `Properties.FilterLoopMeaning` | src/common/sbfProperties.c:137-146 | In whatever order the items come, the loop yields that table. |
| `Properties.Filter` | src/common/sbfProperties.c:126-149 | The loop over the tree yields that table. |
| `Properties.FilterN` | src/common/sbfProperties.c:168-191 | One filter after the other; the original table is left alone. |
| `Properties.Precedence` | src/common/sbfProperties.c:168-191 | Two filters a and b look for a.b.K, then b.K, then a.K, then K, the later ones only if they are not prefixed. |
| `Properties.GroupNamesMeaning` | src/common/sbfProperties.c:216-236 | The names visited are exactly those of the members of the group. |
| `Properties.GroupNamesDistinct` | src/common/sbfProperties.c:226-236 | No name is visited twice. |
| `Properties.MemberExactly` | src/common/sbfProperties.c:218-224 | A key belongs to a member exactly if it is group.name or begins with group.name and a dot; a name has no dot. |
| `Properties.MemberTableAt` | src/common/sbfProperties.c:238 | What the callback is given, key by key: the value of group.name.K, else name.K, else group.K, else K, the later ones only if they are not prefixed. |
| `Properties.GetGroup` | src/common/sbfProperties.c:193-253 | The callback is called for the names in order, with the filtered table, until it returns an error, which is returned. |
| `Properties.Snapshot` | src/common/sbfKeyValue.c:120-144 | Walking the table with first and next reads the whole map. |
| `Wire.MakeHeader` | src/transport/sbfPub.c:4-19 | The header filled in place is the header that the lemmas below speak of. |
| `Wire.HeaderRoundTrip` | src/transport/sbfPub.c:12-18 | The header is a multiple of 8 and ends in NUL, its topic reads back, and the 8-bit topic size says where it ends exactly for topics of up to 249 characters. |
| `Wire.LongTopic` | src/transport/sbfTopic.h:17 | Every topic of 250 to 255 characters, which the limit admits, has a topic size of 3, and the header check rejects its message whatever follows. |
| `Wire.LongTopicLost` | src/transport/sbfHandler.c:177-208 | For packets of topics within the limit: the receiver reads exactly the pieces in front of the first long topic, so it reads all of them if and only if every topic has at most 249 characters. |
| `Wire.DecodeEncode` | src/transport/sbfHandler.c:10-33 | A message or fragment within the field widths passes the header check and is read back, whatever follows it. |
| `Wire.ParsePacket` | src/transport/sbfHandler.c:177-208 | A packet whose last header alone is marked is read back as exactly its pieces. |
| `Wire.CutShort` | src/transport/sbfHandler.c:177-208 | A packet that is cut short at any byte yields exactly the pieces that lie within what is left. |
| `Wire.NoTopicSize` | src/transport/sbfHandler.c:17-28 | With a topic size of 0 the check takes the flags for the end of the topic and passes exactly if they are 0. |
| `Wire.TopicStaysInside` | src/transport/sbfHandler.c:17-28 | Reading the topic depends on nothing behind the packet exactly if a NUL follows the header, which a topic size other than 0 ensures. |
| `Reassembly.HeldIsARun` | src/transport/sbfTportFragments.c:66-97 | After any fragments, what is held is the concatenation of the run 1, 2, ... of unmarked fragments that they end in. |
| `Reassembly.DeliveredIsARun` | src/transport/sbfTportFragments.c:96-105 | Whatever is delivered is the concatenation of consecutive fragments 1..k of which only the k-th is marked as the last. |
| `Reassembly.DeliveredExactly` | src/transport/sbfHandler.c:142-209 | For any pieces of any topics, whatever is lost or interleaved: what is delivered is exactly the payload of each piece without a number and of each complete run, in order, for topics with subscribers; an assembler holds the run under way in the fragments of its topic. |
| `Reassembly.EndsExactly` | src/transport/sbfTportFragments.c:66-114 | A fragment completes a message exactly if the fragments of its topic end in a run 1, 2, ... of as many as its number says, the last alone marked, that began with no other run under way. |
| `Reassembly.ProgressedIsHeld` | src/transport/sbfTportFragments.c:66-97 | What one assembler holds after any fragments is the run under way in them. |
| `Reassembly.AfterAClosedRun` | src/transport/sbfTportFragments.c:66-114 | From any state, one complete run of fragments leaves the assembler idle. |
| `Reassembly.CarriedMessage` | src/transport/sbfTportFragments.c:59-114 | A message of up to 255 fragments is delivered and nothing is left behind. |
| `Reassembly.OverlongMessage` | src/transport/sbfTportPrivate.h:25 | Of a longer one, fragment 256 has number 0 and is delivered as a message of its own. |
| `Reassembly.DeliveredAsSent` | src/transport/sbfHandler.c:142-209 | Any sequence of messages, fragmented or not, is delivered as it was sent to those topics that have subscribers, if and only if none of these messages takes more than 255 fragments. |
| `Handler.TportTopic.Grow` | src/transport/sbfTportFragments.c:83-89 | The doubling loop ends with room for the fragment and keeps what is held. |
| `Handler.TportTopic.Add` | src/transport/sbfTportFragments.c:59-114 | The assembler in place, with its growing buffer, does what the specification function does. |
| `Handler.Stream.FindTopic` | src/transport/sbfHandler.c:35-47 | Finds the topic exactly if it has subscribers. |
| `Handler.Stream.HandleSingle` | src/transport/sbfHandler.c:152-175 | The fast path delivers what the one message of the packet comes to. |
| `Handler.Stream.GeneralLoop` | src/transport/sbfHandler.c:177-208 | The general loop ends, stays inside the packet and delivers what its pieces come to. |
| `Handler.Stream.Packet` | src/transport/sbfHandler.c:142-209 | Fast path or not, a packet delivers exactly what the general loop would. |
| `Handler.Stream.Arrive` | src/transport/sbfHandler.c:142-209 | Packets one after the other deliver what all their pieces come to. |
| `ByteStream.SplitChunks` | src/transport/sbfHandler.c:127-140 | Splitting what is there and then the rest with what follows gives the same messages. |
| `ByteStream.StreamRoundTrip` | src/transport/sbfHandler.c:127-140 | Encoded messages that arrive in any chunks are taken apart into those messages again. |
| `ByteStream.PacketOverStream` | src/transport/sbfHandler.c:127-209 | A packet sent over a byte stream is taken apart into its messages, each read as the same piece. |
| `Packing.TrainIsTrain` | src/transport/sbfTportFragments.c:30-54 | The fragments are numbered from 1, none is empty, only the last is marked, and together they are the data. |
| `Packing.TrainWithinNumbers` | src/transport/sbfBatch.c:131-143 | There are at most 255 fragments exactly if the first and 254 full ones hold the data. |
| `Packing.PiecesWithinNumbers` | src/transport/sbfBatch.c:126-143 | Whether a message needs too many fragments can be told from the room that is left in its packet. |
| `Packing.AddEmitted` | src/transport/sbfBatch.c:96-149 | An add puts the pieces of the message behind everything that was in the packets. |
| `Packing.AddKeeps` | src/transport/sbfBatch.c:4-52 | No packet is empty or larger than the packet size. |
| `Packing.PacketsCompact` | src/transport/sbfBatch.c:4-30 | Whatever is added, a packet is closed only if the header of the piece that comes next leaves no room for a byte in it, and a fragment that is not the last of its message fills its packet. |
| `Packing.WholeExactly` | src/transport/sbfBatch.c:126-129 | A message goes as a whole exactly if that leaves a byte free in the packet it comes to. |
| `Packing.AcceptedExactly` | src/transport/sbfBatch.c:106-109 | An add puts something into the packets exactly for a message of 1 to 65536 bytes of a publisher that is ready and not destroyed. |
| `Packing.PiecesDeliver` | src/transport/sbfBatch.c:96-149 | The pieces of a batch deliver the accepted messages exactly if none takes too many fragments. |
| `Packing.BatchRoundTrip` | src/transport/sbfBatch.c:96-190 | For any adds with any topics of up to 249 characters: the packets sent are non-empty and within the packet size, and the handler delivers exactly the accepted messages in order if and only if none takes more than 255 fragments; the assemblers are idle again. |
| `Packing.BatchBySize` | src/transport/sbfBatch.c:96-190 | The round trip in terms of sizes: the accepted messages with a subscriber are delivered exactly if each fits what is left of its packet and 254 full ones; with packets of 515 bytes or more always. |
| `Batch.BatchItem.NextBuffer` | src/transport/sbfBatch.c:4-30 | A buffer without room for a header and a byte is closed with its last header marked, and a new one begun. |
| `Batch.BatchItem.UpdateBuffer` | src/transport/sbfBatch.c:32-52 | The bytes put into the buffer are the encoding of the piece. |
| `Batch.BatchItem.AddLoop` | src/transport/sbfBatch.c:131-146 | The fragment loop ends and leaves the packets that the specification function says. |
| `Batch.BatchItem.Add` | src/transport/sbfBatch.c:96-149 | An add in place does what the specification function does, or nothing if the message is dropped. |
| `Batch.BatchItem.Send` | src/transport/sbfBatch.c:161-190 | What is sent is the encoding of all packets with their last headers marked, and the item is empty again. |
| `Transfer.Deliver` | src/transport/sbfBatch.c:96-190 | Both ends in place: a batch object filled and sent and a stream object that receives its packets deliver the messages in order, on the same condition. |
| `Publisher.Fragment` | src/transport/sbfTportFragments.c:10-57 | The loop ends; the packets are the encodings of the fragments. |
| `Publisher.Send` | src/transport/sbfPub.c:350-408 | What is sent for a message: nothing, one packet or its fragments. |
| `Publisher.SentExactly` | src/transport/sbfPub.c:361-370 | Packets are sent exactly for a message of up to 65536 bytes of a publisher that is ready and not destroyed. |
| `Publisher.SentCompact` | src/transport/sbfPub.c:372-378 | A message goes as a whole exactly if it fits a packet; of a longer one all packets but the last are full. |
| `Publisher.SendRoundTrip` | src/transport/sbfPub.c:350-408 | A message sent without a batch is delivered as it was sent if and only if 255 packets hold it; packets are within the packet size. |
| `Dispatch.Topic.DispatchMessage` | src/transport/sbfHandler.c:49-71 | The subscribers are called in turn from the rotation pointer on, each once; the pointer ends behind the one that was first. |
| `Dispatch.RotatedIsAll` | src/transport/sbfHandler.c:61-69 | Each subscriber gets the message exactly once. |
| `Dispatch.Topic.DispatchMessages` | src/transport/sbfHandler.c:49-71 | Messages one after the other with the list unchanged: each dispatch goes once round from one place further, and any n consecutive ones call each of the n subscribers first exactly once. |
| `Dispatch.EachFirstOnce` | src/transport/sbfHandler.c:58-70 | That is so of every window of n dispatches, wherever the rotation started. |
| `Dispatch.Topic.Remove` | src/transport/sbfSub.c:60-62 | The subscriber leaves the list and a rotation pointer at it moves on, so it stays NULL or at a current one. |
| `Dispatch.Topic.Insert` | src/transport/sbfSub.c:102 | A new subscriber comes last. |
| `LifecycleTheorems.RefCountExact` | src/transport/sbfTportPrivate.h:170-203 | The reference count of a stream is its topics plus the members counted and not yet added, less the at most one whose add event ran between the assignment of `mTportStream` and the increment; with the lock free it is exactly topics plus pending adds. It goes below 0 exactly if that one member is all there is, and then the member was destroyed before its create returned. |
| `LifecycleTheorems.AssertionFailsExactly` | src/transport/sbfTportPrivate.h:195-197 | The assertion in `removeTopic` fails exactly if that one member exists, no add is pending and one topic is left. |
| `LifecycleTheorems.RemovedSafely` | src/transport/sbfPub.c:77-88 | A stream is removed only without topics, pending adds and member events, even when a create comes between the decrement and the lock. |
| `LifecycleTheorems.LastTopicSeen` | src/transport/sbfPub.c:77-85 | The removal of the last topic, with no add pending, sees the count at 0 if and only if every added member is counted; one that is not was destroyed by a callback before its create returned. |
| `LifecycleTheorems.GoneWithItsMembers` | src/transport/sbfPub.c:77-91 | With all its members removed and the event thread idle the stream is gone if and only if every added member was counted when the last topic went; so always if no member is destroyed before its create returns. |
| `LifecycleTheorems.AllDone` | src/transport/sbfSub.c:116-175 | On a stream that was added, with nothing left to do, every member is ready, exactly the destroyed ones are released, and these are freed exactly if no callback is left. |
| `LifecycleTheorems.ExactlyOnce` | src/transport/sbfSub.c:28-175 | In every run each member becomes ready, is removed and is freed at most once, and has been so exactly if it happened. |
| `LifecycleTheorems.FreedLast` | src/transport/sbfSub.c:218-258 | A freed member is released and on no list, no callback or event of it is queued or running, and its create has returned unless a callback destroyed it before. |
| `LifecycleTheorems.LateCalls` | src/transport/sbfSub.c:223-240 | After a destroy, in every run, the callbacks that start are exactly those that passed the check of `mDestroyed` before it: each start takes one of them and none is added. |
| `LifecycleTheorems.AtMostTwoLate` | src/transport/sbfSub.c:246-268 | With one thread for the queue of the member at most two callbacks start after its destroy, one from the queue and one that bypasses it. |
| `LifecycleTheorems.CalledOncePerCallback` | src/transport/sbfSub.c:230-275 | In every run each callback queued for a member is still queued or has begun, and each that has begun or bypasses the queue has called the user once or is about to, but for those skipped because the member was destroyed; for a member that is not destroyed none is skipped. |
| `LifecycleTheorems.NotAddedNeverReady` | src/transport/sbfSub.c:127-140 | If the handler reports that the stream could not be added, no member ever becomes ready, whatever happens later. |
| `Lifecycle.RunInv` | src/transport/sbfSub.c:28-340 | The invariants hold after every interleaving of creates, destroys, completion, events and callbacks. |
| `LifecycleRuns.AssertionCanFail` | src/transport/sbfPub.c:226-227 | A run of two well-behaved members in which the assertion fails. |
| `LifecycleRuns.FreedInCreate` | src/transport/sbfSub.c:211-228 | A run in which a member that its ready callback destroys is freed while its create still holds the lock; the count is at -1. |
| `LifecycleRuns.StreamCanStay` | src/transport/sbfSub.c:63-73 | How that run ends: nothing is left to do, the only member is removed, the count is 0 and the stream is still there. |
| `LifecycleRuns.CalledAfterDestroy` | src/transport/sbfSub.c:223-268 | A run in which two callbacks start after the destroy. |
| `LifecycleRuns.MovesForward` | src/transport/sbfSub.c:28-175 | While no create holds the lock the event thread can always go on, and each step leaves it less to do. |
| `LifecycleRuns.CanSettle` | src/transport/sbfSub.c:28-340 | From every state of a run a stream with a member, unless it could not be added, can come to rest without another call of the application; then all its members are ready and exactly those to be removed are released. |
| `LifecycleRuns.CanDestroy` | src/transport/sbfSub.c:325-340 | From every state of a run a created member can be destroyed, and there is a way on to a state in which it is removed, its callbacks have ended and it is freed. |
| `StreamMemory.TportStream.Traverse` | src/transport/sbfSub.c:150-163 | Going through the lists of all topics meets exactly the members on a list, each once. |
| `StreamMemory.TportStream.Remove` | src/transport/sbfSub.c:60-63 | The member leaves the list of its topic with a valid rotation pointer; the list is empty exactly if no other member on a list has that topic. |
| `StreamMemory.TportStream.RemoveEventCb` | src/transport/sbfSub.c:60-73 | On the list, topic and stream objects: the topic goes exactly with its last member, and the second look is taken exactly if the count then is 0. |
| `StreamRefinement.PerformAdd` | src/transport/sbfSub.c:79-114 | The add callback on the objects of a state leaves those of the next state, and what it does next is what the machine says. |
| `StreamRefinement.PerformRemove` | src/transport/sbfSub.c:28-77 | The same of the remove callback, deferred or not. |
| `StreamRefinement.PerformComplete` | src/transport/sbfSub.c:116-163 | The same of the completion callback; its traversal goes exactly over the members that the machine lists. |
| `StreamRefinement.PerformMakeReady` | src/transport/sbfSub.c:230-244 | The same of `sbfSub_ready`: a callback is queued, with a reference, exactly when the machine queues one. |
| `StreamRefinement.Play` | src/transport/sbfSub.c:28-340 | In every run from the start the member, topic and stream objects hold what the state of the machine says. |
| `StreamRefinement.ListsInUse` | src/transport/sbfTportPrivate.h:39-47 | At any time in any run no topic of the stream has an empty list, and its rotation pointer is NULL or on it. |
| `StreamRefinement.FreedObject` | src/transport/sbfSub.c:75-76 | At any time in any run the object of a freed member is destroyed and ready, has no references and is on no list. |
| `Weights.ThreadWeights.AdjustWeight` | src/transport/sbfTportWeight.c:91-108 | The weight of the thread changes in unsigned arithmetic, no other. |
| `Weights.AllowedExactly` | src/transport/sbfTportWeight.c:126-127 | A thread is allowed exactly if each bit of its mask is a bit of the threads of the transport. |
| `Weights.ThreadWeights.NextThread` | src/transport/sbfTportWeight.c:110-138 | The first of the lightest allowed threads; none exactly if no allowed thread has a weight below UINT_MAX. |
| `Weights.RunBalanced` | src/transport/sbfTportWeight.c:91-108 | In every run of placements and removals, in any order, the weight of a thread is the sum over the subscribers placed less those taken off, modulo 2^32. |
| `WeightBalance.AlwaysBalanced` | src/transport/sbfSub.c:58 | In every run of the lifecycle, from no weight at all, each subscriber is placed once and taken off once, modulo 2^32; with no create under way the weight of a thread is the sum over the subscribers created and not yet removed. |
| `Csv.ParseLine` | src/common/sbfCsvParser.c:58-128 | The loops return what the grammar of the line says. |
| `Csv.NextField` | src/common/sbfCsvParser.c:79-111 | The inner loop cuts off one field. |
| `Csv.Next` | src/common/sbfCsvParser.c:36-56 | The first line that is not empty is parsed; the end of the file exactly if there is none. |
| `Csv.RoundTrip` | src/common/sbfCsvParser.c:58-121 | Fields written in quotes or plain are read back exactly if the line does not end with an empty plain field behind a quoted one. |
| `Csv.QuotedRoundTrip` | src/common/sbfCsvParser.c:91-107 | With every field in quotes and inner quotes doubled the fields are always read back. |
| `Csv.RefusedExactly` | src/common/sbfCsvParser.c:91-107 | A line is refused exactly if a field of it goes on behind its closing quote with something other than blanks and a separator. |
| `Csv.PlainField` | src/common/sbfCsvParser.c:84-90 | A field without quotes goes up to the first separator, less the spaces before it, or to the end of the line. |
| `Csv.QuotedField` | src/common/sbfCsvParser.c:91-107 | A field in quotes goes up to its closing quote, or to the end of the line if there is none. |
| `Csv.TrimRightExactly` | src/common/sbfCsvParser.c:86-87 | Exactly the spaces at the end go. |
| `Csv.TrimmedExactly` | src/common/sbfCsvParser.c:48-54 | Of a line of the file the parser sees all but the blanks in front and one newline at the end. |
| `Csv.LineIsTrimmed` | src/common/sbfCsvParser.c:48-54 | A written line comes to the parser as it was written. |
| `Multicast.Hash` | src/common/syshash.h:65-74 | The loop computes the hash. |
| `Multicast.HashExactly` | src/common/syshash.h:41-74 | The hash is 5381 * 33^n and the n characters weighted by the powers of 33, modulo 2^32. |
| `Multicast.MakeAddress` | src/handlers/common/sbfCommonHandler.c:134-152 | The hashes, shifts and ors as written. |
| `Multicast.CreateByNumber` | src/handlers/common/sbfCommonHandler.c:97-118 | The sizes and shifts by number, for every prefix; none exactly for a base of 0 or more than 24 bits. |
| `Multicast.OrExactly` | src/handlers/common/sbfCommonHandler.c:141-149 | A bit is set in the or of two numbers exactly if it is set in one of them. |
| `Multicast.AddressFields` | src/handlers/common/sbfCommonHandler.c:102-118 | For every prefix of up to 24 bits and aligned base the address is the prefix followed by three fields in bits of their own; the lowest is never all zeros or all ones. |
| `Multicast.ReadNumber` | src/handlers/common/sbfCommonHandler.c:117-118 | Each field and the prefix can be read back by shifting. |
| `Multicast.SharedAddress` | src/handlers/common/sbfCommonHandler.c:134-152 | Two topics share an address if and only if their three residues agree. |
| `Multicast.AddressFits` | src/handlers/common/sbfCommonHandler.c:135-151 | The address fits 32 bits. |

## Left out

- Sockets, libevent, futex internals, files, the network handlers and the connection code: foreign calls. The futex
  is a step that sleeps if the flag is 1 and a step that wakes all; an application queue is a multiset of callbacks.
- Weak memory ordering, allocation failure, and a blocking mode that changes while the queue is in use (the
  high-resolution timers do that).
- `sbfQueueDestroy`: it walks from the head, so what is queued before the head is not freed; queues are not
  destroyed in the model.
- A transport that is destroyed with its streams, and streams shared between publishers and subscribers, as the TCP
  mesh does.
- Lifecycle.CompleteStep: the traversal runs over the lists as they are when completion is reported; the source
  follows the links of a list from which members and topics are taken during the traversal.
- Lifecycle.DestroyStep: two application threads that destroy the same member at once are not modelled.
- StreamMemory.Member: a member finds its topic by name instead of by `mTportTopic`, and members are known by numbers.
  The lock, the queues and where each thread is are in the state machine only.
- Batch.BatchItem: one stream; the tree of items by stream and the mutex of the batch are not modelled, and buffers
  that are full are kept as values.
- Publisher.Send: the buffer that `sbfPub_getBuffer` fills and `sbfPub_sendBuffer` sends is one array; a buffer that
  belongs to another publisher is sent by the same path, after a copy, and is not modelled.
- Handler.Stream: the tree of topics is a map, and the list of subscribers a count (the list is in Dispatch).
- Csv.RoundTrip: fields are texts without NUL and newline in the code, where a NUL ends the string and `fgetln` splits
  at a newline; the functions here treat both as characters.
- Properties.GetGroup: the callback is a function of the name and the filtered map.
- Multicast.Create: reading the address range with sscanf; a base with bits below the prefix is outside the claims.
- Weights: the regular expressions that choose the weight of a topic; weights are parameters.
- Byte order: both ends are taken to have the same one, little-endian here.
- The splay tree, RB_NFIND and RB_PREV, logging, paths, time, the deque and buffer wrappers: unused by the modelled
  code, or easy.
