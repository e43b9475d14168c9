# Verified models of the server components

This project models ten self-contained components of the repository in Dafny 4.11 and proves what they are
for. `dafny verify dfyconfig.toml` checks all of it. Components that update objects, arrays or buffers in place
are classes whose methods follow the source's loops and branches; codecs and parsers are methods with the source's
loops, proved against specification functions, about which the laws are then proved as lemmas.

| file | models | main result |
|---|---|---|
| `TimerHeap.dfy` | the array heap of timers in `mytimer/min_heap.c`, and the passing of time in `mytimer/timer.c` | every operation keeps the heap order and each timer's own slot number, the in-place change of all timeouts included; pop returns a least timer; nothing is lost or made up; moves, capacity and copying are bounded |
| `RankModel.dfy`, `RankIndex.dfy` | the three-level rank index of `rank/core.c` | insert and update are assignment to a plain map from uids to scores, and the rank is a count over that map |
| `PoolModel.dfy`, `MemPool.dfy` | the block pool of `mempool/memorypool.cpp` | the links inside the free units name exactly the units that are not handed out; no unit is handed out twice, none is lost |
| `ENetList.dfy`, `ENetPeer.dfy` | intrusive rings and command queues of `cs/my_enet` | reference counts equal outside holds plus queued mentions; reset drops exactly one peer's share; over any run the numbers on channel 0xff are in issue order, and consecutive as long as only resets take commands out of outgoing lists |
| `EvBuffer.dfy` | the sliding byte buffer of `cs/my_event/buffer.c` | it is a byte FIFO on every path, including a failed growth |
| `EpollBook.dfy` | slots and interest set of `cs/my_event/epoll.c` | after any run, who waits and what the kernel watches both follow from the last call about each descriptor and direction |
| `ProtoText.dfy`, `ProtoCodec.dfy`, `ProtoLayout.dfy`, `ProtoRoundTrip.dfy` | the packer and unpacker of `py_proto/proto.py` | packed texts and what is read from any text, separator by separator; unpack inverts pack exactly for the values described by `Clean` |
| `KvParser.dfy` | parser and printer of `cpp/kv_parser.cpp` | which pairs any string stores; parsing inverts printing exactly for the maps described by `Good`, which are all the maps parsing makes |
| `ModeMuncher.dfy` | the symbolic mode parser of `stat/posix/modemuncher.c` | munching changes exactly the bits that the letters of each clause select, composes over commas, inverts modechopper exactly when each set-id bit has its execute bit, and reads past its string exactly for short rwxrwxrwx strings |
| `Renumber.dfy` | the two-phase renumbering of `tools/new_rename.py` | no rename replaces another file; file `i` of the final order is the content that some original name had |
| `Basics.dfy`, `Decimal.dfy`, `Guard.dfy` | shared notions; decimal text; triggers used to unfold invariants on demand | decimal text without leading zeros, and exactly what int() and long() accept |

## Reading the models

- A pointer to an object of the source is a Dafny reference, a counter is an unbounded integer unless the source
  relies on its width, and the answer of an allocator, the kernel, `recv`, `send` or `ioctl` is a parameter.
- `Valid`, `Booked`, `Retired`, `Consistent`, `AllNumbered`, `AllConsecutive` and `Agrees` are the invariants. Constructors establish them and
  every operation keeps them, so they hold over any run. Where a run is also a value (`PoolModel.Run`,
  `EpollBook.Run`), a lemma states the invariant of the whole run.
- Invariants that are expensive to unfold are wrapped as `forall z :: Look(z) ==> P()`, which is just `P()`;
  `Watch` and `Gaze` do the same for invariants that are unfolded on their own.
- `TimerHeap.MinHeap.ProcessTimeout` follows `timer_process_timeout` of `mytimer/timer.c`, lines 230 to 246: it erases
  from the top until a timer is not due, and moves exactly the due timers to the active list, the latest first.
  Before it, lines 217 to 225 take the time that has passed off every timeout in place, which is `Update`; `Elapse` is the
  one after the other, as in lines 166 and 167.
- `ENetPeer.Host.Numbers` says that the commands queued on channel 0xff carry the numbers of their places in the order
  of issue; `Consecutive` adds that the two outgoing lists together hold the last ones issued, without a gap. A single
  `Discard` from an outgoing list keeps the first and may break the second; a reset restores it.
- A mode of `modemuncher.c` is the set of its one bits.
- In the codec, a dict may be met in any order, so packing is a relation between a value and a text and the laws
  are for every text; `d` counts how many nested records the interpreter's stack still allows, on both sides.

## Where the model departs from the code

The code as it stands contains lines that cannot be meant. The model repairs these and nothing else:

- `rank/core.c:178-180`: an absent uid yields no node. `rank/core.c:44-46`: update returns after inserting.
  `rank/core.c:102`: the rank uses the same clamped bucket as lines 197-199. `rank/core.c:221-222`: a new first
  score node is linked to the old first one. `rank/core.c:230`: a bucket counts uids, so its count changes where
  the count of a score node does. `rank/core.c:277-283`: a bound uid always gets its owner.
- `mempool/memorypool.cpp:70`: the parameter is rounded up. `mempool/memorypool.cpp:149`: the block moved to the
  front is linked to the old head. What line 149 does as written is modelled too: `FreeAsWrittenKeeps` says exactly
  when it loses no unit, and `LossReached` with `FreeAsWrittenLoses` shows a run in which it does.
- `cs/my_enet/list.c:40` and `cs/my_enet/peer.c:149`: the size and the command are returned.
- `cs/my_event/epoll.c:243`: `EpollDel` models both the call with `&epev` (line 242) and the call with NULL, and
  says exactly when the latter leaves slots and interest set in disagreement: when both slots are taken and the
  event has one flag. `NullLoses` reaches such a state.
- `tools/new_rename.py:35` calls a function that does not exist, so directories are flat.

Laws that do not hold of the code on all inputs are stated with their exact condition: `ProtoRoundTrip.RoundTrip`,
`KvParser.RoundTrip`, `ModeMuncher.MunchChopped`, `ModeMuncher.MunchOverread` (`ShortOverread` is an input),
`EpollBook.StepAgrees` (`EmptyAddDeafens` shows what follows a call that breaks it), `EpollBook.NullAgrees`,
`PoolModel.FreeAsWrittenKeeps`, `Renumber.Directory.ReallyRename` (the second phase without the first).

## Model

| member | source | states |
|---|---|---|
| TimerHeap.RootIsLeast | mytimer/min_heap.c:41-43 | in a heap-ordered array no element is less than the first, under seconds then microseconds |
| TimerHeap.GreaterIsLater | mytimer/min_heap.c:8-17 | the comparison of two normalised times is that of their microseconds |
| TimerHeap.Log2Is | mytimer/min_heap.c:98-128 | the bound on the moves is the floor of the binary logarithm |
| TimerHeap.UpStep | mytimer/min_heap.c:102-106 | moving the hole to its parent leaves only the pair above the hole possibly out of order |
| TimerHeap.DownStep | mytimer/min_heap.c:115-125 | moving the hole to a least child leaves only the hole's neighbourhood possibly out of order |
| TimerHeap.ChosenChild | mytimer/min_heap.c:116 | the two comparisons choose a least child, also when there is only one |
| TimerHeap.VacatedOrder | mytimer/min_heap.c:69 | the last timer put in a vacated slot disturbs the order only around that slot |
| TimerHeap.MinHeap.constructor | mytimer/min_heap.c:19-24 | an empty heap with empty books |
| TimerHeap.MinHeap.Top | mytimer/min_heap.c:41-43 | null exactly when there are no members, else a member than which none is less |
| TimerHeap.MinHeap.Reserve | mytimer/min_heap.c:77-96 | doubles from 8 or jumps to the request, fails only when refused, and keeps capacity at most max(8, twice the peak) and slots copied under twice the pushes |
| TimerHeap.MinHeap.MoveIntoHole | mytimer/min_heap.c:103 | the hole and the moved timer change places and no other slot does; the moved timer knows its new slot |
| TimerHeap.MinHeap.ShiftUp | mytimer/min_heap.c:98-109 | ends heap-ordered with every slot number right, in at most log2 of the hole's place moves, none if the parent is not greater |
| TimerHeap.MinHeap.DownPass | mytimer/min_heap.c:115-125 | ends where no child is less; if it moved, the parent of the hole is not greater than the timer |
| TimerHeap.MinHeap.ShiftDown | mytimer/min_heap.c:111-128 | ends heap-ordered; at most one of down pass and trailing up pass moves, together at most floor(log2 n) times; a hole just past the end changes nothing |
| TimerHeap.MinHeap.Push | mytimer/min_heap.c:45-53 | members gain exactly the timer and the invariants hold, those about removed timers included, or the push fails and nothing changes |
| TimerHeap.MinHeap.RemoveSlot | mytimer/min_heap.c:69 | removes exactly the timer of the slot, wherever it stands, the last slot included |
| TimerHeap.MinHeap.Pop | mytimer/min_heap.c:55-64 | returns a least member, which leaves with slot number -1; null exactly on the empty heap |
| TimerHeap.MinHeap.Erase | mytimer/min_heap.c:66-75 | removes exactly the given timer, or fails exactly when it is in no heap |
| TimerHeap.MinHeap.Drain | mytimer/min_heap.c:55-64 | repeated pop yields every timer once, in non-decreasing order, and books each as removed |
| TimerHeap.MinusKeepsOrder | mytimer/util.h:6-15 | taking a time off a normalised timeout takes off its microseconds, and keeps the order of two of them |
| TimerHeap.MinHeap.Update | mytimer/util.h:6-15 | `timer_update` of timer.c, lines 217-225, takes the same time off every timeout in place, slot by slot, and leaves the heap valid when the times are normalised |
| TimerHeap.MinHeap.ProcessTimeout | mytimer/util.h:19-34 | `timer_process_timeout` of timer.c, lines 230-246, moves exactly the due timers out of the heap, the latest first, and books them as removed |
| TimerHeap.MinHeap.Elapse | mytimer/util.h:6-34 | lines 166-167 of timer.c: after some time has passed exactly the timers whose timeout it reached become active, in order, and the others keep the rest of theirs |
| TimerHeap.MinHeap.Size | mytimer/min_heap.c:37-40 | the number of members: no timer stands in two slots |
| RankModel.Bucket | rank/core.c:195-199 | the bucket of a score is one of 10000 and spans 1000 scores, the last one being open above |
| RankModel.InsertScore | rank/core.c:204-227 | a score put before the first smaller one keeps the list strictly decreasing and adds only itself |
| RankModel.NewScoreConsistent | rank/core.c:187-232 | a new score node keeps the index consistent |
| RankModel.BindConsistent | rank/core.c:264-284 | binding a uid keeps each uid in exactly one list, the one of its score |
| RankModel.UnbindConsistent | rank/core.c:286-315 | unbinding a uid keeps it too, wherever in the list it stands |
| RankModel.ListCount | rank/core.c:266 | a score's list is as long as the number of uids with that score |
| RankModel.AboveBucketStep | rank/core.c:105-107 | the uids above a bucket are those above the next one and those in it |
| RankModel.AboveFirst | rank/core.c:109-111 | above the first score of a bucket are exactly the uids of higher buckets |
| RankModel.AboveNext | rank/core.c:113-116 | from one listed score to the next, the uids above grow by exactly the first one's list |
| RankModel.BucketTotal | rank/core.c:106 | the uids in a bucket are as many as the lists of its scores hold together |
| RankModel.CountsAfterBind | rank/core.c:266 | binding changes the count of one bucket by one and of no other |
| RankModel.CountsAfterUnbind | rank/core.c:288 | unbinding too |
| RankIndex.LinkFront | rank/core.c:264-284 | the doubly linked list of a score node gains the uid node at its head, with owner, count and all links right; other lists are untouched |
| RankIndex.LinkOut | rank/core.c:286-315 | the uid node leaves its list from any place, with count and all links right; other lists are untouched |
| RankIndex.LinkScore | rank/core.c:221-227 | the chain of a bucket gains the node at the place found, head or middle |
| RankIndex.Rank.constructor | rank/core.c:18-34 | an empty, valid index |
| RankIndex.Rank.BucketCount | rank/core.c:106 | the count kept in a bucket is the sum of the counts kept in its score nodes |
| RankIndex.Rank.BindScoreUid | rank/core.c:264-284 | the abstract index gains the uid in the list of the score, and the pointers still represent it |
| RankIndex.Rank.UnbindScoreUid | rank/core.c:286-315 | the abstract index loses it, and the pointers still represent it |
| RankIndex.Rank.ScoreGet | rank/core.c:237-259 | finds the node of a score exactly when there is one |
| RankIndex.Rank.FindPlace | rank/core.c:204-212 | all scores before the place are greater and all from it on smaller |
| RankIndex.Rank.ScoreNew | rank/core.c:187-232 | the score has a node afterwards; the uid to score map is unchanged |
| RankIndex.Rank.UidNew | rank/core.c:156-174 | the node of a known uid, or a fresh, unbound one |
| RankIndex.Rank.Update | rank/core.c:40-67 | the uid to score map becomes the old one with this uid assigned this score |
| RankIndex.Rank.Insert | rank/core.c:69-89 | the same, for a new uid or a known one |
| RankIndex.Rank.GetRank | rank/core.c:91-119 | the number of uids whose score is strictly greater, or -1 for an unknown uid |
| PoolModel.Capacity | mempool/memorypool.cpp:36 | in each block, free units and units handed out add up to the capacity |
| PoolModel.FindFinds | mempool/memorypool.cpp:127-134 | the search finds the block and the unit of any unit address |
| PoolModel.TakeAgrees | mempool/memorypool.cpp:97-100 | handing out the first free unit hands out one that was not out |
| PoolModel.GiveBackAgrees | mempool/memorypool.cpp:136-138 | taking back a unit makes exactly that unit free |
| PoolModel.DropAgrees | mempool/memorypool.cpp:141-145 | releasing a wholly free block loses no unit |
| PoolModel.FrontAgrees | mempool/memorypool.cpp:147-151 | moving a block to the front loses no unit |
| PoolModel.GrowAgrees | mempool/memorypool.cpp:106-114 | a new block adds its unit 0 to the units out and all others to the free ones |
| PoolModel.AllocAgrees | mempool/memorypool.cpp:78-116 | allocMem never hands out a unit that is out, and fails only when every block is used up and growth is off or refused |
| PoolModel.GrowthServes | mempool/memorypool.cpp:78-116 | when nothing is free, one grant serves exactly initSize requests for the first block and growSize for a later one, at addresses one unit apart, and the request behind them fails |
| PoolModel.AllocServes | mempool/memorypool.cpp:90-100 | a request is served by the first unit of the first block that has one, and no other block changes |
| PoolModel.AllocUnits | mempool/memorypool.cpp:80-116 | the capacity grows only when nothing is free, by initSize units for the first block and by growSize for a later one |
| PoolModel.OutIsFound | mempool/memorypool.cpp:127-138 | every unit that is out is found by freeMem's search, at its own index |
| PoolModel.FreeAgrees | mempool/memorypool.cpp:118-153 | freeMem makes exactly that unit free and keeps all others reachable; a foreign address changes nothing |
| PoolModel.FreeKeepsBlocks | mempool/memorypool.cpp:141-152 | a block leaves the chain exactly when it is not the head and has become wholly free |
| PoolModel.FreeThenAlloc | mempool/memorypool.cpp:140-152 | if freeMem keeps the block, the very next allocMem returns the unit just given back, and the pool is as before with that block in front |
| PoolModel.FreeDropsBlock | mempool/memorypool.cpp:141-145 | if it does not, the other blocks stay as they were, in order |
| PoolModel.AsWrittenDropsHead | mempool/memorypool.cpp:149 | line 149 as written loses the old head from the chain, exactly when it moves a block to the front |
| PoolModel.FreeAsWrittenKeeps | mempool/memorypool.cpp:147-151 | as written, all outstanding units stay reachable if and only if the block is the head, or becomes wholly free, or the head has nothing handed out |
| PoolModel.StepAgrees | mempool/memorypool.cpp:78-153 | one call keeps free chains and units out in agreement |
| PoolModel.RunAgrees | mempool/memorypool.cpp:78-153 | so does any run of calls |
| PoolModel.LossReached | mempool/memorypool.cpp:78-116 | a legal run of three requests reaches a used-up block in front of another |
| PoolModel.LossAgrees | mempool/memorypool.cpp:78-116 | there the free chains and the units out agree |
| PoolModel.FreeAsWrittenLoses | mempool/memorypool.cpp:147-151 | giving back a unit there, as written, loses a block that still holds a unit: chains and units out no longer agree |
| MemPool.WriteLink | mempool/memorypool.cpp:137 | a link written into one unit leaves the links in all other units alone |
| MemPool.ThreadAll | mempool/memorypool.cpp:41-44 | the constructor's loop threads units 1 to n-1 in order |
| MemPool.MemBlock.constructor | mempool/memorypool.cpp:32-45 | a block whose free chain is all units but unit 0 |
| MemPool.MemBlock.Take | mempool/memorypool.cpp:97-100 | hands out the first unit of the chain; what the last unit's link holds does not matter |
| MemPool.MemBlock.Give | mempool/memorypool.cpp:136-138 | the unit given back becomes the first of the chain, linked through its own bytes |
| MemPool.Pool.constructor | mempool/memorypool.cpp:63-76 | an empty pool with the rounded unit size |
| MemPool.Pool.FindFree | mempool/memorypool.cpp:90-94 | the first block with a free unit, or none |
| MemPool.Pool.AllocMem | mempool/memorypool.cpp:78-116 | the pointers and bytes represent what Alloc makes of the abstract pool; a unit handed out was not out; the capacity grows only when nothing is free, by exactly initSize or growSize units |
| MemPool.Pool.Grow | mempool/memorypool.cpp:106-114 | the new block is the head of the chain |
| MemPool.Pool.FindBlock | mempool/memorypool.cpp:120-134 | the block that holds the address and its predecessor, or none |
| MemPool.Pool.FreeMem | mempool/memorypool.cpp:118-153 | the pointers and bytes represent what Free makes of the abstract pool; exactly this unit is no longer out; only its first two bytes are written |
| MemPool.Pool.Drop | mempool/memorypool.cpp:142-145 | exactly this block leaves the chain |
| MemPool.Pool.MoveToFront | mempool/memorypool.cpp:147-151 | exactly this block comes first, the others in their old order |
| MemPool.Pool.Destroy | mempool/memorypool.cpp:155-165 | the destructor meets every block exactly once |
| MemPool.Pool.WriteUnit | mempool/memorypool.cpp:97-100 | the holder of a unit may write any byte of it without harm to the pool |
| MemPool.Rounded | mempool/memorypool.cpp:69-75 | the unit size is even, at least 2, and no smaller than asked |
| ENetList.Clear | cs/my_enet/list.c:3-9 | an empty ring |
| ENetList.Insert | cs/my_enet/list.c:18-28 | the ring's items gain the node before the given position, all links inverse; other rings are untouched |
| ENetList.Remove | cs/my_enet/list.c:11-16 | the ring's items lose exactly the node; other rings are untouched |
| ENetList.Size | cs/my_enet/list.c:30-40 | the loop ends with the number of items |
| ENetPeer.MentioningLess | cs/my_enet/peer.c:18 | a command leaving the queues lowers the mentions of its packet by one and of no other |
| ENetPeer.MentioningMore | cs/my_enet/peer.c:141 | a command entering the queues raises them by one |
| ENetPeer.NumberedAppend | cs/my_enet/peer.c:121-148 | appending a command keeps every number on channel 0xff that of its place, mod 65536, in order within each list and in one list only |
| ENetPeer.GaplessAppend | cs/my_enet/peer.c:121-148 | appending a command leaves no gap between the first and the last one issued that the two lists hold together |
| ENetPeer.OneForEach | cs/my_enet/peer.c:121-148 | numbered without a gap means: each number from the first to the last is carried by exactly one command of the two lists |
| ENetPeer.NumberedLess | cs/my_enet/peer.c:15 | taking commands off the front keeps the order |
| ENetPeer.Host.FreshNumbered | cs/my_enet/host.c:18 | the two empty lists of a peer that has issued nothing are numbered and consecutive |
| ENetPeer.Host.AddPeer | cs/my_enet/host.c:51-61 | a new peer has five different new empty lists, no channels and nothing issued, its numbering is consecutive, and that of all other peers stays as it was |
| ENetPeer.Host.NumbersKept | cs/my_enet/peer.c:14-26 | taking the first command out of any list, or all, leaves every peer's numbering in order |
| ENetPeer.Host.constructor | cs/my_enet/peer.c:52-77 | no lists, no commands, no packets: valid |
| ENetPeer.Host.AddList | cs/my_enet/list.c:3-9 | a cleared list joins the others and leaves every peer's numbering alone |
| ENetPeer.Host.AddPacket | cs/my_enet/peer.c:140-142 | a packet joins with the references held outside the queues |
| ENetPeer.Host.DropReference | cs/my_enet/peer.c:18-22 | the packet is destroyed exactly when its last reference goes |
| ENetPeer.Host.Discard | cs/my_enet/peer.c:14-26 | exactly the first command leaves its queue; every count still equals holds plus mentions; a packet is destroyed at most once and only when no queue mentions it; every peer's numbering stays in order, and consecutive if the queue is no outgoing list |
| ENetPeer.Host.Empty | cs/my_enet/peer.c:14-26 | the loop ends with an empty list and exactly its commands gone |
| ENetPeer.Host.ResetList | cs/my_enet/peer.c:10-50 | emptying a list leaves other lists unchanged and each packet short of exactly the commands dropped; every peer's numbering stays in order |
| ENetPeer.Host.ResetOwn | cs/my_enet/peer.c:56-63 | the five lists of the peer end empty, counts short of exactly their commands |
| ENetPeer.Host.ResetChannels | cs/my_enet/peer.c:67-70 | so do both lists of every channel |
| ENetPeer.Host.ForgetChannels | cs/my_enet/peer.c:75-76 | the peer has no channels |
| ENetPeer.Host.ResetQueues | cs/my_enet/peer.c:52-77 | all lists of this peer and of its channels are empty, all others unchanged, exactly the commands of those lists are gone; each packet has lost one reference for each of them and was destroyed exactly if that was its last; the numbering of this peer is consecutive again and that of the others still is |
| ENetPeer.Host.Number | cs/my_enet/peer.c:118-138 | on channel 0xff the command gets the next number mod 65536, elsewhere what the fresh memory held; offset and length as given, the times zero, the wire's two bytes the number with its high byte first |
| ENetPeer.Host.Append | cs/my_enet/peer.c:140-148 | the command takes a reference and stands at the end of exactly one list; if that is no outgoing list, every peer's numbering is kept |
| ENetPeer.Host.QueueOutgoing | cs/my_enet/peer.c:113-149 | the command is at the end of the list that bit 0x80 selects, with the fields written out: times 0, offset and length, high byte of the number first; the counts agree, and the numbering of all peers stays in order and consecutive |
| ENetPeer.Host.ResetConsecutive | cs/my_enet/peer.c:52-77 | a numbered peer that is reset goes on where it was: its first command left is the next one issued |
| ENetPeer.Host.ResetElsewhere | cs/my_enet/peer.c:52-77 | a peer none of whose outgoing lists a reset empties keeps consecutive numbers |
| ENetPeer.Host.ResetInOrder | cs/my_enet/peer.c:52-77 | after a reset all peers are consecutive if they were, and the lists reset are no outgoing lists of another |
| EvBuffer.PowerIsDoubled | cs/my_event/buffer.c:148-155 | 256 doubled any number of times is a size the buffer can have |
| EvBuffer.DoubledIsPower | cs/my_event/buffer.c:148-155 | the sizes the buffer can have are 0 and 256 times a power of two, and no others |
| EvBuffer.EvBuffer.constructor | cs/my_event/buffer.c:14-18 | an empty buffer |
| EvBuffer.EvBuffer.Drain | cs/my_event/buffer.c:30-50 | the visible bytes lose exactly the drained prefix; buffer and misalign move together; the callback hears of a change and only of one |
| EvBuffer.EvBuffer.Align | cs/my_event/buffer.c:126-131 | the overlapping move puts the same visible bytes at the start of the allocation, where buffer then points |
| EvBuffer.EvBuffer.Expand | cs/my_event/buffer.c:134-170 | on success there is room for the bytes asked; growth is to 256 or less than twice the need; the visible bytes are the same on every path, a refused realloc after the move included |
| EvBuffer.EvBuffer.Add | cs/my_event/buffer.c:175-194 | the visible bytes gain exactly the data at the end, or on failure nothing |
| EvBuffer.EvBuffer.Append | cs/my_event/buffer.c:186-187 | bytes stored behind the window become visible, in order |
| EvBuffer.EvBuffer.Read | cs/my_event/buffer.c:55-99 | what recv stored is appended and counted; a failing recv returns -1 and changes nothing visible |
| EvBuffer.EvBuffer.Write | cs/my_event/buffer.c:102-122 | what send took is consumed from the front and reported to the callback, and nothing on failure |
| EvBuffer.ReadLimit | cs/my_event/buffer.c:59-71 | recv is asked for the smaller of what is pending (4096 if nothing is reported) and what is wanted, and for all that is pending when what is wanted is negative |
| EpollBook.PutAgrees | cs/my_event/epoll.c:152-169 | registering exactly a descriptor's slots keeps slots and interest set in agreement |
| EpollBook.StepAgrees | cs/my_event/epoll.c:100-248 | a call keeps the agreement if and only if it is not an add of an event without flags for a descriptor nobody waits on |
| EpollBook.StepPuts | cs/my_event/epoll.c:126-155 | in agreement, the ADD, MOD or DEL chosen registers exactly the slots left, and only a del for nobody is refused |
| EpollBook.NullAgrees | cs/my_event/epoll.c:243 | with NULL a del is refused unless it empties the slots, and the agreement is kept if and only if not both slots were taken and the event has one flag |
| EpollBook.NullLoses | cs/my_event/epoll.c:243 | adding a read and a write event reaches a state where the del of the first, with NULL, is refused and breaks the agreement |
| EpollBook.EmptyAddDeafens | cs/my_event/epoll.c:126-155 | after an add without flags the next add for the descriptor is refused: its event waits and the kernel watches for nothing |
| EpollBook.Epoll.constructor | cs/my_event/epoll.c:39-92 | all slots empty, nothing watched |
| EpollBook.Epoll.Control | cs/my_event/epoll.c:155 | ADD needs absence, MOD and DEL presence, ADD and MOD an epoll_event |
| EpollBook.Epoll.EpollAdd | cs/my_event/epoll.c:100-172 | slots and interest set become what Step says, in any state; in agreement the operation chosen is never refused; -1 exactly for a descriptor out of range |
| EpollBook.Epoll.EpollDel | cs/my_event/epoll.c:177-248 | slots and interest set become what Step says, in any state, with an epoll_event or with NULL; -1 exactly when the operation is refused; when each form keeps the agreement |
| EpollBook.Epoll.Activate | cs/my_event/epoll.c:290-327 | a report activates the slots it selects, read before write |
| EpollBook.Epoll.EpollDispatch | cs/my_event/epoll.c:271-330 | the loop activates what all reports select, in order; nothing when the wait fails or is interrupted |
| EpollBook.RunIsLastWord | cs/my_event/epoll.c:100-248 | after any run of adds and dels each slot holds what the last call about its descriptor and direction put there |
| EpollBook.RunAgrees | cs/my_event/epoll.c:100-248 | while every event added has a flag, slots and interest set agree after any run |
| EpollBook.KernelIsLastWord | cs/my_event/epoll.c:129-155 | a descriptor is watched if and only if the last word for one of its directions is an event, and for exactly those directions |
| EpollBook.ActivatedIff | cs/my_event/epoll.c:289-328 | an event is activated if and only if it stands in a slot that some report selects |
| EpollBook.ActivationsInOrder | cs/my_event/epoll.c:289-328 | the activations are one for each report and direction that the report's bits ask for and an event waits for, in the order of the reports, read before write |
| EpollBook.NoReportIsLost | cs/my_event/epoll.c:296-314 | while slots and interest set agree, every report for a watched descriptor activates an event, and each reported bit finds its slot taken |
| Decimal.ValueOfNumeral | tools/new_rename.py:41 | the digits of a number have its value |
| Decimal.NumeralInjective | tools/new_rename.py:41 | different numbers have different numerals |
| Decimal.OneDigit | tools/new_rename.py:41 | the numerals of 0 to 9 are these characters |
| Decimal.ValueOfMore | tools/new_rename.py:41 | a digit behind others multiplies their value by ten and adds its own |
| Decimal.NumeralCanonical | tools/new_rename.py:41 | a numeral has no leading zero |
| Decimal.NumeralOfValue | tools/new_rename.py:41 | digits without a leading zero are the numeral of their value |
| Decimal.TextWrites | py_proto/proto.py:90 | '%s' writes exactly the decimal text: a minus sign if negative, and digits of that value without a leading zero |
| Decimal.ParseOfText | py_proto/proto.py:144-145 | int() reads back what '%s' writes, negative numbers included |
| Decimal.ParseIntReads | py_proto/proto.py:145 | int() gives n exactly for white space, a sign or none, digits worth n, and white space |
| Decimal.ParseLongReads | py_proto/proto.py:147 | long() the same, with an L behind the digits or none |
| ProtoText.SplitOfJoin | py_proto/proto.py:134 | splitting a join gives the parts back when none holds the separator |
| ProtoText.SplitLacks | py_proto/proto.py:157 | parts hold no separator, and nothing the string does not hold |
| ProtoText.JoinHolds | py_proto/proto.py:101-105 | which characters a join holds |
| ProtoCodec.StrDict2Str | py_proto/proto.py:97-101 | each key once with its text, in the order the loop met them |
| ProtoCodec.Pack | py_proto/proto.py:51-70 | the result is a text the value packs to; an exception exactly when there is none |
| ProtoCodec.PackFields | py_proto/proto.py:53-68 | undeclared fields are skipped, each declared field is packed by its own format, in any order |
| ProtoCodec.List2Str | py_proto/proto.py:73-83 | each item packed by the format; an exception for data that is no list or an item that does not pack |
| ProtoCodec.Type2Str | py_proto/proto.py:86-94 | the decimal text without leading zeros of an int, a str as it is, the text of a record of a user type; an exception exactly when there is none |
| ProtoCodec.Str2StrDict | py_proto/proto.py:132-140 | a later pair replaces an earlier one; without a colon the key is the text less its last character |
| ProtoCodec.Unpack | py_proto/proto.py:115-130 | the loop, in any order of the keys, yields what ReadRecord describes: declared fields, each read by its format |
| ProtoCodec.UnpackFields | py_proto/proto.py:118-130 | an exception exactly when some declared field does not read |
| ProtoCodec.Str2List | py_proto/proto.py:156-161 | every part read by the format, in order |
| ProtoCodec.Str2Type | py_proto/proto.py:142-154 | int, str, user type by recursion; float read as a long; an unknown type is an exception |
| ProtoLayout.RecordText | py_proto/proto.py:51-105 | a record packs to exactly the texts made of its declared fields in some order, each a key, ':' and the field's text, with ',' between two of them |
| ProtoLayout.ListText | py_proto/proto.py:73-105 | a list field packs to exactly the texts of its items in order, with ';' between two of them |
| ProtoLayout.BasicText | py_proto/proto.py:86-94 | an int is packed to its decimal text, a str to itself, and nothing to a float |
| ProtoLayout.OneValue | py_proto/proto.py:58-66 | any other tuple than (format, 0) means one value; a format that is no basic type is a user type, one record deeper |
| ProtoLayout.NoRecordText | py_proto/proto.py:53-57 | data that is no dict packs to the empty text, exactly if a loop over it meets no declared name and nothing unhashable |
| ProtoLayout.JoinOfSplit | py_proto/proto.py:134 | every text consists of parts without the separator, with separators between them |
| ProtoLayout.JoinIs | py_proto/proto.py:101-105 | what a join looks like: the first part, the separator, and the others joined |
| ProtoLayout.DictIs | py_proto/proto.py:132-140 | the dict of any text: each part is cut at its first ':', and of the parts with one key the last counts; without a ':' the key is the part less its last character |
| ProtoLayout.FieldsOfDict | py_proto/proto.py:115-130 | the record read holds exactly the declared keys of the dict, each with what its text reads as |
| ProtoLayout.ListRead | py_proto/proto.py:156-161 | a list is read exactly part by part between the ';' |
| ProtoLayout.BasicRead | py_proto/proto.py:142-154 | what int, float and str fields read from any text |
| ProtoRoundTrip.TextLacks | py_proto/proto.py:51-70 | whichever text a record packs to, it is free of a character if and only if the value is, as Lacks reads it off the value |
| ProtoRoundTrip.FieldTextLacks | py_proto/proto.py:63-66 | the same for a field |
| ProtoRoundTrip.ReadLacks | py_proto/proto.py:115-130 | a record read from a text without ',' or ';' packs to none |
| ProtoRoundTrip.RestrictLacks | py_proto/proto.py:54-55 | undeclared fields do not matter to the text |
| ProtoRoundTrip.DictLacks | py_proto/proto.py:132-140 | no key that is read holds ':' or ',' |
| ProtoRoundTrip.PairRead | py_proto/proto.py:100 | a pair whose key holds no ':' is cut where it was joined |
| ProtoRoundTrip.PairsRead | py_proto/proto.py:132-140 | the pairs of keys without ':' read back as exactly those keys and texts |
| ProtoRoundTrip.DictOfTidy | py_proto/proto.py:97-101 | a tidy record's text reads back as the dict of its own keys and texts |
| ProtoRoundTrip.FieldsBackRecordBack | py_proto/proto.py:112-130 | a tidy record comes back when each field comes back from its own text |
| ProtoRoundTrip.RecordBackFieldBack | py_proto/proto.py:112-130 | and only then |
| ProtoRoundTrip.RecordBackTidy | py_proto/proto.py:112-130 | a record that comes back is tidy |
| ProtoRoundTrip.ListBackTidy | py_proto/proto.py:156-161 | a list that comes back is not empty and its packed items hold no ';' |
| ProtoRoundTrip.RoundTrip | py_proto/proto.py:47-161 | for every value, every nesting and every order of the dicts, unpack gives back the value restricted to declared fields if and only if the value is Clean |
| ProtoRoundTrip.FieldRoundTrip | py_proto/proto.py:63-66 | the same for one field |
| ProtoRoundTrip.ListRoundTrip | py_proto/proto.py:73-83 | the same for a list: non-empty, and no packed item holds ';' |
| ProtoRoundTrip.TypeRoundTrip | py_proto/proto.py:86-94 | the same for one datum of a format |
| ProtoRoundTrip.DeeperPacks | py_proto/proto.py:92-93 | what packs at some depth of the stack packs to the same text at every deeper one |
| ProtoRoundTrip.DeeperReads | py_proto/proto.py:153 | what reads at some depth reads the same at every deeper one |
| ProtoRoundTrip.RoundTripDeeper | py_proto/proto.py:47-161 | a clean value packed at some depth comes back at that and every deeper one |
| ProtoRoundTrip.MessageSplits | py_proto/proto.py:236 | a message is the id, '@' and the text, and splitting it at '@' gives id and text if and only if neither holds an '@' |
| KvParser.Scan | cpp/kv_parser.cpp:14-31 | a scan passes over exactly the longest run of its characters |
| KvParser.CutsAt | cpp/kv_parser.cpp:12-43 | the four places are in order, and each turn of the outer loop ends strictly further |
| KvParser.Advance | cpp/kv_parser.cpp:14-16 | one scanning loop stops where Scan says |
| KvParser.Cut | cpp/kv_parser.cpp:13-31 | the four loops find the four places |
| KvParser.ParseString | cpp/kv_parser.cpp:3-46 | the result is the given map with all pairs of the text assigned in order; the flag tells whether there was one |
| KvParser.PairsOfText | cpp/kv_parser.cpp:3-46 | for every text of items (';' and ' ', a key, '=' and ' ', a value) the pairs of all items whose key and value are not empty are stored, in order, and nothing else |
| KvParser.AnyText | cpp/kv_parser.cpp:3-46 | every string is such a text, up to a NUL or its end |
| KvParser.FillIs | cpp/kv_parser.cpp:33-40 | a later pair replaces an earlier one of the same key, and a key that no pair names keeps what it had |
| KvParser.MakeStr | cpp/kv_parser.cpp:83-100 | the entries in the iterator's order, the last ';' replaced by NUL |
| KvParser.PrintFirst | cpp/kv_parser.cpp:87-97 | the text is key, '=', value, and then NUL behind the last entry or ';' and the other entries |
| KvParser.PairsAreGood | cpp/kv_parser.cpp:33-40 | every pair parsed has a good key and a good value |
| KvParser.ParseIsGood | cpp/kv_parser.cpp:3-46 | parsing makes only good maps |
| KvParser.PairsOfPrint | cpp/kv_parser.cpp:87-97 | parsing printed entries finds them all, in order |
| KvParser.RoundTrip | cpp/kv_parser.cpp:83-100 | parsing what was printed gives the map back if and only if it is good: no empty key or value, none with space or NUL, no '=' in a key or ';' in a value, no key starting with ';' or value with '=' |
| KvParser.Reparse | cpp/kv_parser.cpp:3-46 | for every string, printing and parsing again changes nothing |
| ModeMuncher.RwxRwxRwx | stat/posix/modemuncher.c:41-72 | the loop computes Rwx, including the read past the end of a short string |
| ModeMuncher.RwxCode | stat/posix/modemuncher.c:60-62 | a failing rwxrwxrwx string leaves the mode alone |
| ModeMuncher.RwxOverread | stat/posix/modemuncher.c:48-69 | the loop reads past the end if and only if more than one place is left over behind the string and no misplaced 's' stops it before |
| ModeMuncher.MunchOverread | stat/posix/modemuncher.c:105-274 | so does mode_munch, if and only if its clauses lead to an rwxrwxrwx string of fewer than eight letters without a misplaced 's' |
| ModeMuncher.ShortOverread | stat/posix/modemuncher.c:48-69 | the string rw is such an input |
| ModeMuncher.ParseTurn | stat/posix/modemuncher.c:126-249 | steps 1 to 3 parse the clause TurnAt describes, or tell which error stands there |
| ModeMuncher.ApplyClause | stat/posix/modemuncher.c:250-270 | bit by bit: a selected bit ends as the operator says, any other stays unless '=' replaces the mode; without permission letters nothing changes |
| ModeMuncher.ClauseLaws | stat/posix/modemuncher.c:251-262 | a clause done twice is done once; '-' undoes '+' on the selected bits and '+' undoes '-'; '=' forgets the mode it meets |
| ModeMuncher.ModeMunch | stat/posix/modemuncher.c:105-274 | the goto-driven loop computes Munch |
| ModeMuncher.TurnAt | stat/posix/modemuncher.c:126-249 | a parsed clause ends at a comma or at the end, strictly behind its start |
| ModeMuncher.MunchIsFold | stat/posix/modemuncher.c:105-274 | munching is the left fold of the clauses parsed, followed by whatever is no clause |
| ModeMuncher.ErrorKeepsFold | stat/posix/modemuncher.c:105-274 | on any error the mode left is the fold of the clauses fully parsed before it, and the code is -1, -2 or -4 |
| ModeMuncher.ClauseKeeps | stat/posix/modemuncher.c:251-258 | '+' and '-' change no bit outside the who mask |
| ModeMuncher.FoldKeeps | stat/posix/modemuncher.c:251-258 | nor does any sequence of such clauses outside all who masks |
| ModeMuncher.MunchKeeps | stat/posix/modemuncher.c:105-274 | nor does munching a string of such clauses |
| ModeMuncher.TurnBefore | stat/posix/modemuncher.c:234-246 | a clause reads the same before a comma as at the end |
| ModeMuncher.MunchBehind | stat/posix/modemuncher.c:105-274 | what stands before the place where parsing begins does not matter |
| ModeMuncher.MunchComposes | stat/posix/modemuncher.c:105-274 | for symbolic s1, munching s1 + "," + s2 is munching s2 on the result of s1 |
| ModeMuncher.LettersAgree | stat/posix/modemuncher.c:26-39 | a who letter and a permission letter together select the very bit of one place of an rwxrwxrwx string, and 's' the set-id bit of that who |
| ModeMuncher.LetterMunch | stat/posix/modemuncher.c:105-274 | for every mode, place and operator, the three-letter clause sets, clears, or leaves as the only one, exactly that bit |
| ModeMuncher.ClauseMunch | stat/posix/modemuncher.c:105-274 | for every string of who letters, operator and string of permission letters, blanks included, a bit is changed exactly if some who letter and some permission letter of it select it |
| ModeMuncher.AllIsUgo | stat/posix/modemuncher.c:137-169 | 'a' selects what "ugo" does, and so does no who letter |
| ModeMuncher.ClausesMunch | stat/posix/modemuncher.c:105-274 | a string of such clauses with commas between them does what they say, one after the other |
| ModeMuncher.NoOperatorMunch | stat/posix/modemuncher.c:177-192 | without an operator behind the who letters the answer is -1 and the mode stays |
| ModeMuncher.BadChangeMunch | stat/posix/modemuncher.c:235-246 | with anything but a comma behind the permission letters the answer is -2 and the mode stays |
| ModeMuncher.MunchPlaces | stat/posix/modemuncher.c:41-72 | what any rwxrwxrwx string does, place by place: its own letter or an 's' sets the bit, '-' clears it, any other letter leaves it; an 's' at place 2 or 5 sets the set-id bit, elsewhere it is an error that leaves the mode |
| ModeMuncher.ModeChopper | stat/posix/modemuncher.c:74-103 | the letter of each place or '-', with 's' or 'S' at places 2 and 5 for the set-id bits, the NUL, and nothing behind it |
| ModeMuncher.RwxReads | stat/posix/modemuncher.c:41-72 | which bits reading a chopped mode sets, bit by bit |
| ModeMuncher.MunchChopped | stat/posix/modemuncher.c:74-103 | munching a chopped mode into any base restores permission and set-id bits and keeps the others, if and only if each set-id bit has its execute bit |
| Renumber.RootAndSuffix | tools/new_rename.py:12 | root and suffix make up the name; a suffix is empty or starts with its only dot |
| Renumber.SuffixIs | tools/new_rename.py:12 | the suffix is what stands from the last dot on if something else than a dot stands before it, else nothing |
| Renumber.RenamedSize | tools/new_rename.py:23 | a rename shrinks the directory exactly when it replaces another file |
| Renumber.Directory.ListDir | tools/new_rename.py:7 | every name once, in any order |
| Renumber.Directory.Rename | tools/new_rename.py:44 | the content moves to the new name, silently replacing what stands there |
| Renumber.Directory.FreeName | tools/new_rename.py:15-22 | the search ends, at the least count whose name is free |
| Renumber.PreNameIs | tools/new_rename.py:16-17 | the name tried is _pre_, the decimal count, an underscore and the whole old name |
| Renumber.PreNamesFit | tools/new_rename.py:19-22 | the pigeonhole: a directory holds no more such names of one file than files |
| Renumber.Directory.PreProc | tools/new_rename.py:6-23 | every content is under _pre_, a decimal count, an underscore and its old name, and no rename replaced a file |
| Renumber.TargetTaken | tools/new_rename.py:41-44 | a numbered name is taken by another file exactly when it is a name still to be renamed |
| Renumber.Directory.NumberOne | tools/new_rename.py:37-45 | one turn: the directory shrinks exactly by an overwrite |
| Renumber.Directory.ReallyRename | tools/new_rename.py:30-45 | on any flat directory, no file is replaced if and only if no target is a name still to be renamed; then every content is under its decimal number without leading zeros and its suffix, else the directory shrinks by the overwrites |
| Renumber.NumeralsApart | tools/new_rename.py:41-42 | numbered names with suffixes are equal only for equal numbers |
| Renumber.SuffixOfPreName | tools/new_rename.py:12-17 | behind pre_proc the suffix is everything from the last dot of the original name, leading-dot names included |
| Renumber.PreNamesAreClear | tools/new_rename.py:26-28 | after the first phase no target is in the way |
| Renumber.MovedTwice | tools/new_rename.py:26-28 | two phases that lose nothing lose nothing together |
| Renumber.Directory.RenameByNum | tools/new_rename.py:26-28 | no rename replaces a file; the final names are the decimal numbers 0 to n-1 without leading zeros, each once, with everything from the last dot on as suffix, and each content is the one its original name had |

## Left out

- `core_get_topn` of rank/core.c: its loop never advances and it writes no output.
- Negative scores in rank/core.c, where a bucket index would be negative.
- `timer_add`, the clock and the callbacks of mytimer/timer.c: the time that has passed is a parameter.
- TimerHeap.MinHeap.Update: keeps the heap for normalised times only, which are all that the clock, `util_timersub` and `multi_call` with a non-negative timeout make.
- Overflow of heap, buffer and pool sizes on a 32-bit or 64-bit machine; pools have at least one unit in their first block and blocks of less than 65536 bytes.
- Address arithmetic of the heap allocator: an address of a block is a number, and new blocks do not overlap old ones.
- The address computed at cs/my_enet/peer.c:115, which the code does not use, and incoming fragments.
- ENetPeer.Host.ResetQueues: memory given back by enet_free is not modelled, so the lists of freed channels remain as empty rings; acknowledgements have no packet in the source, which the shared node type expresses by a null packet.
- enet_peer_reset at cs/my_enet/peer.c:79-109 beyond its call of enet_peer_reset_queues: it assigns constants.
- Sockets, FIONREAD and evbuffer_setcb of cs/my_event/buffer.c, whose body is empty.
- Signal events, the timeout arithmetic and the debug logging of cs/my_event/epoll.c; failures of epoll_ctl other than those caused by absence, presence or a missing epoll_event.
- `float` data in py_proto/proto.py, which the packer takes and the unpacker reads as a long; field names that are no strings, which the packer skips; the loading of type tables with eval.
- get, set and clear of cpp/kv_parser.cpp: map lookup and assignment.
- Bits of a mode beyond the set of bits itself: the width of mode_t.
- The value -3 of mode_munch, which no string reaches.
- Subdirectories, and failures of the file system, in tools/new_rename.py.
- aoi/scene.py, the Lua, MySQL, Django and shell parts, generated files and the remaining plumbing of the repository.
