# rugo, modelled and proved in Dafny

rugo is an in-memory cache that speaks the Redis protocol. This project models the parts of it that
nothing checks at run time and proves what they promise:

* **A shard.** A Swiss table of one control byte and one four-byte reference a slot, over a slab arena
  whose free lists run through the freed bytes, over packed entries whose own header is the only
  record of how long a block is. The table is proved to be a finite map from keys to value, expiry and
  flags; the arena to partition every segment into live blocks, free blocks and reserve; and the two
  together to leak nothing and give nothing back twice.
* **The sharded map.** Threads, a spin lock a shard, counters published beside the lock, eviction that
  spares the key just written, and increments. Every interleaving is proved equal to a sequential
  history.
* **The wire.** The incremental request parser and the encoder, a connection's two buffers under a
  readiness loop and under a completion loop, the completion loop's slots, and the submission and
  completion rings. However a stream is cut into reads and replies into writes, the same commands are
  run once each and in order.

| file | what it holds |
|---|---|
| `Bytes.dfy` | bytes, words, `Option`, `Result` |
| `ArenaLayout.dfy`, `Cursor.dfy`, `Arena.dfy` | the arena: its layout as values, its own fields step for step, then the class whose methods move between them |
| `Entry.dfy` | varints and the entry layout |
| `Group.dfy` | control bytes and the word-at-a-time group |
| `Probe.dfy` | the triangular probe sequence and the remainders it needs |
| `Index.dfy`, `Table.dfy`, `Runs.dfy`, `Expiry.dfy` | the probe invariant and the counters as values, the table class, any run of its operations, and what the clock does to one |
| `Decimal.dfy` | the integers a counter and a length are spelled as |
| `Shard.dfy`, `Sweeping.dfy`, `LateRebuild.dfy` | what one lock holder does: write and evict, sweep in the background, and a shard whose sweeps miss an entry |
| `Sharded.dfy`, `SweepTurns.dfy`, `Counting.dfy` | how lock holders interleave, and sweeps and increments under that |
| `Resp.dfy`, `InlineForm.dfy`, `Parser.dfy` | requests as functions of the buffer; what a typed line is; the loops, the encoder and the wide scan |
| `Serving.dfy`, `Session.dfy`, `Turns.dfy`, `Conn.dfy` | what a whole stream is served, a connection's buffers as values, what a turn comes to, and the connection class |
| `Loop.dfy`, `Completions.dfy`, `Ring.dfy` | the completion loop's slots, what each completion does to whom over a run, and the two shared queues |

The hash of a key is any function; which random slots eviction looks at, which bytes a socket gives or
takes, whether a segment is granted, what the kernel takes and posts, and what the rest of the server
answers a connection's n-th command are parameters, so every claim is for all of them.

`Arena.Valid` is what the allocator keeps up to the first segment that is refused while the newest one
still has an uncut tail; `Arena.Readable`, that every live block reads back as its own bytes, is kept
past that too. `Table.Valid` and `Table.Readable` carry the same distinction up.

## Where the code is not what it might be taken for

* A segment's tail is put on a free list before the next segment is asked for, and stays uncut if that
  is refused. `ArenaModel.Arena.Alloc` states exactly when the arena is in order afterwards;
  `Cursor.TailIsServedTwice` shows what it is not in order for, two live blocks under one reference, and
  `Cursor.OneReferenceTwice` a run from an empty arena that gets there.
* The oversized table hands out its last index, whose reference is the reserved one
  (`ArenaModel.Arena.AllocLarge` says exactly when), and giving that reference back does nothing. Claims
  about what is charged name the reserved reference where they need it not to be held.
* A comment beside the free lists says the smallest class is eight bytes; it is one grain of four, which
  is exactly what a link takes.
* A varint's length is taken to be at most five bytes; `Entry.VarintLenExact` says for which lengths
  that is so.
* A tag comparison a word at a time also reports a lane above a true match that holds the tag with its
  low bit flipped: `Group.MarkedExactly` says exactly which, `Group.BorrowReportsAnotherTag` shows one.
* A line with no newline is refused once more than `MAX_INLINE` bytes of it are there, so whether a long
  line is refused or run depends on how much had arrived: `Resp.LongLineMayYetEnd`, `Resp.ParseIsStable`.
* A length on the wire may be any printed 64-bit integer but the most negative: `Decimal.LenientOfSpell`.
* `peek` does not ask whether a span can say where an argument starts and `parse` does: `Resp.PeekIsParse`
  says exactly when the two part, `Resp.SeenAheadAndRefused` gives a command they part on.
* A turn of the readiness loop may ask to read with a whole command still in the buffer, when the reply
  ceiling stopped it: `Session.TurnMayLeaveACommand`; `Session.TurnLeavesNothingWhole` says exactly when it
  does not.
* Of the two entries an eviction draws, one that expires at the last second there is counts like one that never
  does, so the first drawn goes: `Expiry.EvictsTheSooner`.
* A background sweep that removes anything may rebuild the index, which moves every entry, while the place
  to resume stays as it was, so sweeps that visit every slot once can miss an entry:
  `LateRebuild.RebuildLosesCoverage` and `LateRebuild.Demonstrate` show it. `Sweeping.SweepOnAndOn` says what
  is sure: every slot once is enough with no rebuild, and six times over whatever is rebuilt.

## Model

| member | source | states |
|---|---|---|
| ArenaLayout.Make | crates/rugo-arena/src/lib.rs:281-285 | a segment below 2^10 and an offset below 2^21 make a reference with the top bit clear, and both are read back out of it |
| ArenaLayout.ClassOf | crates/rugo-arena/src/lib.rs:272-279 | a length has a class exactly when it is between one and SMALL_MAX bytes, and the class is the smallest whose blocks hold it |
| ArenaLayout.NextSegmentSize | crates/rugo-arena/src/lib.rs:177-189 | a segment's size lies between the two bounds, holds two of the largest small blocks, and its last unit can be named by a reference |
| ArenaLayout.SegmentCoversShare | crates/rugo-arena/src/lib.rs:177-189 | the size is the least whole number of minimum segments that covers the share of what is held, up to the ceiling |
| ArenaLayout.WriteElsewhere | crates/rugo-arena/src/lib.rs:470-507 | writing inside one tile changes no byte of another, nor the link stored in its first four bytes |
| ArenaLayout.PushSound | crates/rugo-arena/src/lib.rs:407-417 | threading a block onto its list keeps the whole layout: tiling, lists that are acyclic and duplicate-free and hold only their class, and live blocks' bytes |
| ArenaLayout.PopSound | crates/rugo-arena/src/lib.rs:303-311 | following the link out of a list's head keeps the layout, and the block taken has the list's class and is on no list |
| ArenaLayout.CutSound | crates/rugo-arena/src/lib.rs:328-337 | cutting a block off the newest segment keeps the layout, and what is cut overlaps nothing |
| ArenaLayout.GrowSound | crates/rugo-arena/src/lib.rs:340-357 | appending a segment keeps every block and every list as they were |
| ArenaLayout.TilesDisjoint | crates/rugo-arena/src/lib.rs:294-337 | no byte belongs to two blocks, whether live or free |
| ArenaLayout.EveryByteOnce | crates/rugo-arena/src/lib.rs:294-357 | each byte of each segment is in exactly one of a live block, a block a free list reaches, and the uncut reserve |
| ArenaModel.Arena.constructor | crates/rugo-arena/src/lib.rs:254-269 | a new arena is in order and owns nothing |
| ArenaModel.Arena.AllocLarge | crates/rugo-arena/src/lib.rs:360-377 | an oversized block takes the newest hole or a new index and is charged its exact length; nothing else moves; it gets the reserved reference exactly at index 2^31 - 1 |
| ArenaModel.Arena.PushFree | crates/rugo-arena/src/lib.rs:407-417 | a loose block goes to the head of its class's list and is counted dead |
| ArenaModel.Arena.PopFree | crates/rugo-arena/src/lib.rs:303-311 | the head of a class's list becomes a live block of the length asked for |
| ArenaModel.Arena.AddSegment | crates/rugo-arena/src/lib.rs:340-357 | a segment is refused exactly when there are 2^10 or none is granted, nothing then changes, and a new one has room for any small block |
| ArenaModel.Arena.CutBlock | crates/rugo-arena/src/lib.rs:328-337 | a block cut from the newest segment is new, and the rest is as it was |
| ArenaModel.Arena.Alloc | crates/rugo-arena/src/lib.rs:294-337 | a small block comes from where the code takes it, step for step; a block handed out is new, of the length asked for, and changes no live block; exactly which requests are refused, and that refusals change no live block; and the arena is in order afterwards if and only if the call succeeded, was for an oversized block, or found no uncut tail |
| ArenaModel.Arena.AllocSmall | crates/rugo-arena/src/lib.rs:299-337 | a freed block of the class first, then one cut, then one cut from another segment, with the fields left as the code leaves them |
| Cursor.TailIsServedTwice | crates/rugo-arena/src/lib.rs:321-327 | after a refusal over an uncut tail the next two requests of the tail's class get the same reference |
| Cursor.OneReferenceTwice | crates/rugo-arena/src/lib.rs:294-337 | five requests of an empty arena, the third refused, of which the last two get one reference |
| ArenaLayout.ReturnedServesItsOwn | crates/rugo-arena/src/lib.rs:382-401 | giving a block back lets through exactly the requests of its class, or the oversized ones |
| ArenaModel.Arena.NextSegment | crates/rugo-arena/src/lib.rs:319-327 | sealing the tail and growing: refused exactly when the segment is, and in order after a refusal exactly when there was no tail |
| ArenaModel.Arena.ListedTailBreaks | crates/rugo-arena/src/lib.rs:321-327 | an arena whose tail is listed but not cut is not in order |
| ArenaModel.Arena.Free | crates/rugo-arena/src/lib.rs:382-401 | the block given back and no other goes, and its rounded or exact length comes off what is live; the reserved reference is ignored; what there is to hand out afterwards |
| ArenaModel.Arena.Get | crates/rugo-arena/src/lib.rs:459-466 | a live block reads as exactly its own bytes |
| ArenaModel.Arena.Peek | crates/rugo-arena/src/lib.rs:483-491 | a peek begins with the block's bytes, cut short or running past them |
| ArenaModel.Arena.Put | crates/rugo-arena/src/lib.rs:470-478 | writing a live block changes that block and no other |
| ArenaModel.Arena.LiveIsCovered | crates/rugo-arena/src/lib.rs:533-557 | what is live is the slab's blocks at their classes and the oversized at their lengths; live and dead slab bytes are within what is held, which is within what is mapped; live is within resident is within mapped |
| ArenaModel.Arena.HeldToTheGranule | crates/rugo-arena/src/lib.rs:546-557 | where the reserve is free the newest segment is charged for the fewest whole granules that hold what is cut from it, or all of it, and the others whole; elsewhere every segment whole |
| Entry.VarintLenExact | crates/rugo-map/src/entry.rs:31-39 | the length rule is exact if and only if the value is under 2^35 |
| Entry.LebRoundTrip | crates/rugo-map/src/entry.rs:47-76 | a varint reads back as itself and its own length, whatever follows |
| Entry.LebIs | crates/rugo-map/src/entry.rs:47-58 | a varint is its value's base-128 digits, least first, marked on every byte but the last, with no byte more than it needs |
| Entry.PutVarint | crates/rugo-map/src/entry.rs:47-58 | the loop writes exactly the LEB128 bytes and leaves the rest |
| Entry.GetVarint | crates/rugo-map/src/entry.rs:63-76 | the loop reads what LEB128 says |
| Entry.EncodeSize | crates/rugo-map/src/entry.rs:113-125 | an entry is exactly as long as the size rule says, and its header fits the longest peek |
| Entry.HeadOfPeek | crates/rugo-map/src/entry.rs:238-253 | the header decoded from an over-long or clamped peek is the entry's own |
| Entry.HeadSize | crates/rugo-map/src/entry.rs:172-188 | the header gives back the length the entry was allocated with and which trailers it has |
| Entry.EncodeRoundTrip | crates/rugo-map/src/entry.rs:128-153 | key, value, optional expiry and optional flags all read back, for every entry |
| Entry.RetimeInPlace | crates/rugo-map/src/table.rs:437-447 | overwriting the expiry word gives the entry with the other expiry |
| Entry.Write | crates/rugo-map/src/entry.rs:128-153 | the writes fill the block with exactly the encoded entry |
| Group.Lanes | crates/rugo-map/src/group.rs:79-93 | iterating a mask gives each marked lane once, in ascending order |
| Group.Lowest | crates/rugo-map/src/group.rs:68-75 | the lowest marked lane, or none when nothing is marked |
| Group.MarkedExactly | crates/rugo-map/src/group.rs:267-272 | which lanes the word comparison marks, both ways, borrows included |
| Group.MatchTag | crates/rugo-map/src/group.rs:267-272 | every matching lane is marked, and every marked lane is full |
| Group.MatchEmptyExact | crates/rugo-map/src/group.rs:276-279 | over control bytes the search for an empty lane is exact |
| Group.MatchFreeExact | crates/rugo-map/src/group.rs:282-285 | the lanes with no entry are marked, and only those |
| Group.BorrowReportsAnotherTag | crates/rugo-map/src/group.rs:267-272 | a group in which a lane with another tag is reported |
| Group.Match | crates/rugo-map/src/group.rs:269-272 | at either width the lanes reported are ascending, include every match, and are full |
| Group.LowestEmpty | crates/rugo-map/src/group.rs:276-279 | the lowest empty lane |
| Group.LowestFree | crates/rugo-map/src/group.rs:282-285 | the lowest lane with no entry |
| Probe.NextGroup | crates/rugo-map/src/table.rs:208-237 | a turn of the probe loop moves along the triangular sequence |
| Probe.GroupsDiffer | crates/rugo-map/src/table.rs:208-237 | over a power of two, no group is probed twice in a round |
| Probe.EveryGroupOnce | crates/rugo-map/src/table.rs:208-237 | over a power of two, a round probes every group |
| Index.AbsentWhenEmpty | crates/rugo-map/src/table.rs:225-233 | a key not found by the first group with an empty lane is not there |
| Index.InsertKeeps | crates/rugo-map/src/table.rs:375-398 | placing an entry in the first free slot of its sequence keeps the probe invariant for every entry |
| Index.EraseKeeps | crates/rugo-map/src/table.rs:479-497 | emptying a slot whose group has another empty lane, and leaving a tombstone otherwise, keep the probe invariant |
| Index.RoomToStop | crates/rugo-map/src/table.rs:208-237 | at least an eighth of the lanes are empty |
| Index.FillKeeps | crates/rugo-map/src/table.rs:375-398 | an insert keeps the probe invariant, every counter and the bound on the index |
| Index.DropKeeps | crates/rugo-map/src/table.rs:479-497 | an erase keeps them all |
| Index.RebuildPut | crates/rugo-map/src/table.rs:533-565 | carrying one entry into new arrays keeps the invariant of a rebuild |
| Index.WantedHasRoom | crates/rugo-map/src/table.rs:503-517 | the size a spent budget asks for has room for another insert and for as many again as there are entries, and doubling keeps the bound on churn |
| Index.ShrunkHasRoom | crates/rugo-map/src/table.rs:520-530 | the size a shrink asks for has room for another insert |
| Sweeping.ShrunkIsLeast | crates/rugo-map/src/table.rs:520-530 | a shrink asks for the least capacity that would be at most half full |
| TableModel.RefsDiffer | crates/rugo-map/src/table.rs:326-400 | two keys never hold one reference |
| TableModel.ChargedForEntries | crates/rugo-map/src/table.rs:341-400 | the arena is charged for exactly the table's entries |
| TableModel.Table.constructor | crates/rugo-map/src/table.rs:71-82 | a new table is in order, empty, owns nothing, and has never held anything |
| TableModel.Table.HeadAt | crates/rugo-map/src/table.rs:168-179 | a stored entry's header, read through a peek, gives the length its block was allocated with |
| TableModel.Table.Find | crates/rugo-map/src/table.rs:208-237 | a key is found exactly when the map has it, in the slot that holds it; the probe ends |
| TableModel.Table.FreeSlot | crates/rugo-map/src/table.rs:260-272 | the slot found is free and no earlier group of the sequence has an empty lane; the probe ends |
| TableModel.Table.Erase | crates/rugo-map/src/table.rs:479-497 | exactly one key goes, its block alone is given back, no other slot changes, and the slot is empty again exactly when its group had an empty lane |
| TableModel.Table.Rehash | crates/rugo-map/src/table.rs:533-569 | the map is unchanged, tombstones are gone, what is left of the budget is exact, and each entry is where the rebuild's own probe puts it |
| TableModel.Table.EmptySlot | crates/rugo-map/src/table.rs:549-560 | the lowest empty lane of the first group of the probe sequence that has one; the probe ends |
| TableModel.Table.Reserve | crates/rugo-map/src/table.rs:503-517 | the map is unchanged and there is room for as many inserts as there are entries, at the same size or at twice it |
| TableModel.Table.Shrink | crates/rugo-map/src/table.rs:520-530 | whether it rebuilds, to what size, and that the map is unchanged |
| TableModel.Table.Set | crates/rugo-map/src/table.rs:326-400 | the map gains exactly the entry written and says whether the key was there; it is refused if and only if the entry is new or changes size and the arena has no block for it; a refusal leaves the map, and when it leaves everything in order |
| TableModel.Table.Get | crates/rugo-map/src/table.rs:287-295 | the value the map has, while the clock is below its expiry; from the expiry on it is absent and removed |
| TableModel.Table.View | crates/rugo-map/src/table.rs:298-306 | the whole entry the map has, likewise |
| TableModel.Table.Contains | crates/rugo-map/src/table.rs:309-316 | whether the map has the key, likewise |
| TableModel.Table.Remove | crates/rugo-map/src/table.rs:403-411 | exactly that key goes, and whether it was there |
| TableModel.Table.Expire | crates/rugo-map/src/table.rs:418-476 | only the key's expiry changes, in place or in a new block; a key that is absent, or whose expiry the clock has reached, is reported absent and gone; refused if and only if the trailer changes width and the arena has no block for the entry, and a refusal leaves the map |
| TableModel.Table.Clear | crates/rugo-map/src/table.rs:572-586 | nothing is left, every block is given back but one under the reserved reference, and that alone is charged |
| TableModel.Table.Sweep | crates/rugo-map/src/table.rs:591-612 | exactly the expired entries of the slots visited go, how many, and where to resume; the shortcut for a shard with no expiries does what the walk would |
| TableModel.NothingTimed | crates/rugo-map/src/table.rs:591-599 | when nothing is counted as timed, no window of slots holds anything to sweep |
| TableModel.SweepsRemoveAllExpired | crates/rugo-map/src/table.rs:591-612 | sweeps of consecutive windows that cover the table remove every expired entry and no other |
| TableModel.Table.NearestFull | crates/rugo-map/src/table.rs:650-655 | the first full slot from a point on, wrapping once, that is not spared; none exactly when there is none |
| TableModel.Table.EvictOne | crates/rugo-map/src/table.rs:619-639 | an entry goes exactly when one other than the spared is there; it is the one of the two sampled that expires sooner; what is charged falls |
| TableModel.Table.Counters | crates/rugo-map/src/table.rs:479-569 | in every state the entries, tombstones and growth left make up seven eighths of the slots, an eighth of the lanes are empty, the timed count is the number of entries with an expiry, and the index is the smallest size or under 32/7 of the most entries held since it was made |
| TableModel.Table.Ledger | crates/rugo-map/src/table.rs:104-128 | what is charged is five bytes a slot and exactly the entries' sizes, and is within what is resident |
| Runs.RunOne | crates/rugo-map/src/table.rs:287-655 | each operation is refused if and only if it takes a block and the arena has none, and otherwise does to the map exactly what it should and answers as it should; how the most entries ever held moves |
| Runs.Run | crates/rugo-map/src/table.rs:287-655 | in any run each operation has its exact effect on the map and its exact answer, the run stops only at one that takes a block when the arena has none, everything stored can be read throughout, when a stop leaves everything in order, and, from a new table on, no state's index is larger than the smallest or than 32/7 of the entries of some state up to it |
| Expiry.ReadAtTime | crates/rugo-map/src/table.rs:278-316 | by the clock and the expiry alone: until an entry expires every read returns it and leaves it, from that second on every read finds nothing and takes it away, and one with no expiry stays for ever |
| Expiry.WrittenThenRead | crates/rugo-map/src/table.rs:287-400 | what is written is read back at every time before its expiry and at none from it on |
| Expiry.ExpireAtTime | crates/rugo-map/src/table.rs:418-476 | an expiry can be changed until it comes and not after |
| Expiry.SweepAtTime | crates/rugo-map/src/table.rs:591-612 | a sweep takes an entry if and only if it walks past its slot and its expiry has come; one with no expiry is never taken |
| Expiry.EvictsTheSooner | crates/rugo-map/src/table.rs:619-647 | the first of the two entries drawn goes, unless the second has an earlier expiry, none counting as the last second there is |
| Decimal.StrictOfSpell | crates/rugo-map/src/lib.rs:528-575 | every signed 64-bit integer is read back from how it is printed |
| Decimal.SpellOfStrict | crates/rugo-map/src/lib.rs:528-575 | only the printed spelling of an integer is read as it |
| Decimal.ReadStrict | crates/rugo-map/src/lib.rs:528-551 | the loop that accumulates downwards reads exactly the strict spellings, the most negative included |
| Decimal.Print | crates/rugo-map/src/lib.rs:556-575 | the loop prints the spelling within twenty bytes |
| Decimal.ReadLenient | crates/rugo-resp/src/lib.rs:328-349 | the wire's loop reads a sign and digits within range, and nothing else |
| Decimal.LenientIs | crates/rugo-resp/src/lib.rs:328-349 | exactly which bytes the wire reads as which integer: digits worth no more than the greatest, leading noughts allowed, after a plus, a minus or nothing |
| Decimal.LenientOfSpell | crates/rugo-resp/src/lib.rs:338-348 | what is printed is read back from the wire if and only if it is not the most negative integer |
| Shard.EvictToFit | crates/rugo-map/src/lib.rs:586-606 | the written key stays, at most 64 others go and those left are unchanged; each eviction takes one entry and its block from what the table then held, when that was charged over budget; and it stops over budget only at 64 or when the written key is alone |
| Shard.EvictionLowersCharge | crates/rugo-map/src/lib.rs:586-606 | each eviction lowers what is charged, unless of the entry under the reserved reference |
| Sweeping.SweepOnce | crates/rugo-map/src/lib.rs:453-467 | one background sweep: the exact window swept, what went, and exactly when the index is rebuilt after it |
| Sweeping.SweepOnAndOn | crates/rugo-map/src/lib.rs:453-467 | sweeps each resumed where the last left off, the index given back between them: nothing unexpired goes; nothing expired is left once every slot has been visited with no rebuild, or six times as many whatever is rebuilt |
| LateRebuild.RebuildLosesCoverage | crates/rugo-map/src/lib.rs:453-467 | from one consistent index of thirty-two slots, any four sweeps of eight with the rebuild that follows the third leave an expired entry |
| LateRebuild.Demonstrate | crates/rugo-map/src/lib.rs:453-467 | a table in that state, swept |
| Shard.Store | crates/rugo-map/src/lib.rs:271-285 | a write that succeeds leaves its key holding exactly what was written whatever was evicted; exactly when it is refused |
| Shard.SetWhen | crates/rugo-map/src/lib.rs:296-321 | exactly when the condition refuses and when memory does, by the clock; that a success leaves exactly the value and flags written, under the given expiry, none, or the live entry's own as the rule says |
| Shard.Increment | crates/rugo-map/src/lib.rs:349-371 | exactly when it is not a number, out of range or out of memory, and that a success stores the sum's spelling with the expiry and flags it found |
| Shard.IncrementKeeps | crates/rugo-map/src/lib.rs:349-371 | it starts from the number of a live key and from nought otherwise, and what it writes keeps a live key's expiry and flags and has neither otherwise |
| Sharded.FreshIsGood | crates/rugo-map/src/lib.rs:129-151 | a new map is unheld and its counters are right |
| Sharded.StepKeeps | crates/rugo-map/src/lock.rs:62-97 | each step of each thread, spurious failures of the exchange included, keeps one holder a shard, the sequential history and the counters |
| Sharded.EveryRunIsSequential | crates/rugo-map/src/lib.rs:199-206 | over every interleaving: one holder a shard, every caller told and every shard left what the sections give one at a time in an order that respects real time, and a free shard's counters equal to its table's |
| Sharded.CountersAreRecent | crates/rugo-map/src/lib.rs:76-88 | a lock-free read of a counter sees the value before the section in progress or the value now |
| Sharded.QuietLen | crates/rugo-map/src/lib.rs:383-388 | over every run, when no lock is held the sum of the counters is the number of entries |
| Sharded.RealTimeOrder | crates/rugo-map/src/lib.rs:199-206 | what is over keeps its place in the history over every run, and a section asked for then comes after it |
| Sharded.NoIncrementIsLost | crates/rugo-map/src/lib.rs:349-371 | over every interleaving a free shard's count is its first count and all its callers were told was added |
| Sharded.HolderGetsOut | crates/rugo-map/src/lock.rs:128-132 | a lock's holder can always step and releases it after a bounded number of its own steps |
| Sharded.WaiterCanEnter | crates/rugo-map/src/lock.rs:62-84 | no deadlock: from every reachable state a waiting thread can be let in |
| SweepTurns.AimsGoRound | crates/rugo-map/src/lib.rs:453-456 | over every run the k-th sweep asked for is left aimed at the shard that the wrapping counter, k on from its start, has as its remainder |
| SweepTurns.EveryShardHasItsTurn | crates/rugo-map/src/lib.rs:453-456 | over every run, among any sweeps in a row as many as there are shards, each shard is aimed at once, wherever the counter wraps |
| SweepTurns.SweepResumes | crates/rugo-map/src/lib.rs:456-466 | over every run a sweep is of the shard its thread drew and resumes where that shard's last sweep said, over or about to let go |
| Counting.SectionIsIncrement | crates/rugo-map/src/lib.rs:349-371 | the section an increment runs, alone: its answer, a refusal for memory included, and what evicting leaves of what it wrote |
| Counting.IncrementsAddUp | crates/rugo-map/src/lib.rs:349-371 | any threads incrementing keys of a shard, some refused and some evicting others, and doing what they like to other keys, in any order: a key that is not itself evicted ends at its first count and all that was answered for it |
| Counting.OthersSpare | crates/rugo-map/src/lib.rs:249-285 | looking up, writing and removing another key are among what they may do |
| Resp.LineOfPrefix | crates/rugo-resp/src/lib.rs:277-294 | a line is found in a prefix exactly when its newline is in it |
| Resp.BulksOfPrefix | crates/rugo-resp/src/lib.rs:186-204 | what part of an array's elements a prefix shows |
| Resp.WordsAreWords | crates/rugo-resp/src/lib.rs:219-230 | an inline line's arguments are exactly its maximal runs of bytes that are not white |
| InlineForm.OneSetOfWords | crates/rugo-resp/src/lib.rs:219-230 | a line has no other such runs |
| InlineForm.WhiteBytes | crates/rugo-resp/src/lib.rs:221-224 | white is the five ASCII bytes and no other |
| InlineForm.InlineIsItsWords | crates/rugo-resp/src/lib.rs:211-233 | a line with its newline that begins no array parses as all its words in order and takes up the bytes to its newline, or which refusal it is |
| InlineForm.TypedRoundTrip | crates/rugo-resp/src/lib.rs:211-233 | words joined by spaces and ended by a newline, with a return or not, come back as they were typed, whatever follows |
| Resp.ArrayHeaderSays | crates/rugo-resp/src/lib.rs:168-185 | an array's header, whatever is in it: not a number and too many are refused, a negative count is a command of no arguments, any other is that many elements |
| Resp.ElementHeaderSays | crates/rugo-resp/src/lib.rs:186-204 | an element's header, whatever is in it: no dollar, not a number, negative or too long are refused, and otherwise it is there once all of it is |
| Resp.Nulls | crates/rugo-resp/src/lib.rs:168-204 | a null array is a command of no arguments and a null argument is refused |
| Resp.DoneIsInside | crates/rugo-resp/src/lib.rs:155-233 | a whole command takes up at least one byte and no more than there are, and every argument lies inside it |
| Resp.ParseIsStable | crates/rugo-resp/src/lib.rs:155-233 | what is found is not changed by more arriving, except that a line refused as too long is refused still if and only if no newline has come |
| Resp.ShorterIsMore | crates/rugo-resp/src/lib.rs:155-233 | every shorter prefix of a command asks for more, or refuses a line past the limit |
| Resp.EnoughIsDone | crates/rugo-resp/src/lib.rs:155-233 | a command is found as soon as all of it is there |
| Resp.LongLineMayYetEnd | crates/rugo-resp/src/lib.rs:212-217 | a line that is refused before its newline comes and run once it has |
| Resp.PeekIsParse | crates/rugo-resp/src/lib.rs:245-272 | a peek gives a whole command's length and second argument; the parse finds the same if and only if every argument starts below four gibibytes and refuses otherwise; every array of some arguments that parses is seen |
| Resp.SeenAheadAndRefused | crates/rugo-resp/src/lib.rs:245-272 | a command that is seen ahead and refused by the parse |
| Resp.RequestRoundTrip | crates/rugo-resp/src/lib.rs:419-440 | a written command parses back to its own arguments and length whatever follows, if and only if its arguments are few, short and near enough; which refusal otherwise |
| Parser.Command.Push | crates/rugo-resp/src/lib.rs:85-95 | an argument is recorded unless there are too many or a span cannot say where it is |
| Parser.Command.Arg | crates/rugo-resp/src/lib.rs:73-77 | an argument's bytes out of the buffer it was parsed from, or none |
| Parser.ParseInto | crates/rugo-resp/src/lib.rs:155-165 | the parser reports what the specification says and leaves those spans |
| Parser.ParseArray | crates/rugo-resp/src/lib.rs:168-206 | likewise its array loop |
| Parser.ParseInline | crates/rugo-resp/src/lib.rs:211-233 | likewise its inline loop, which by InlineForm.InlineIsItsWords leaves every word of the line |
| Parser.LookAhead | crates/rugo-resp/src/lib.rs:245-272 | likewise the look-ahead loop |
| Parser.Encoder.Bulk | crates/rugo-resp/src/lib.rs:419-425 | a bulk string is appended and nothing before it changes |
| Parser.Encoder.Map | crates/rugo-resp/src/lib.rs:443-452 | a map's header in either dialect |
| Parser.Encoder.Null | crates/rugo-resp/src/lib.rs:428-433 | a null in either dialect |
| Parser.Encoder.Write | crates/rugo-resp/src/lib.rs:419-440 | an array header and its bulk strings make the command that round-trips |
| Parser.LowestMarkMatches | crates/rugo-resp/src/lib.rs:312-317 | the lowest lane marked is a true match whatever borrows did |
| Parser.Scan | crates/rugo-resp/src/lib.rs:300-325 | the word-at-a-time scan finds the first newline, or that there is none |
| Serving.ServeGoesOn | crates/rugo-server/src/conn.rs:340-384 | serving a stream in two parts is serving it whole |
| Serving.ServeHasEnded | crates/rugo-server/src/conn.rs:369-377 | a stream that has ended, but over a long line, is served nothing more |
| Serving.ServedInOrder | crates/rugo-server/src/conn.rs:340-384 | what a stream is served, command by command: one of no arguments comes to nothing, any other is run once as the next and its answer comes first, the stream ends exactly when the answer says so or the framing is wrong |
| Serving.PipelineIsServed | crates/rugo-resp/src/lib.rs:419-440 | commands written end to end are run once each, in order, with their own arguments, up to one that is the last |
| Serving.PipelinePrefix | crates/rugo-resp/src/lib.rs:155-233 | of any first bytes of commands written end to end, the whole commands at the front are run and less than one more is left |
| Session.ArrivedIsGood | crates/rugo-server/src/conn.rs:431-433 | bytes that arrive are kept: those used and those in the buffer are those received |
| Session.WrittenIsGood | crates/rugo-server/src/conn.rs:436-438 | bytes that go out are kept: those written and those owed are the replies, and as many go out as are reported, up to what was owed |
| Session.WithRoomIsGood | crates/rugo-server/src/conn.rs:276-296 | making room keeps the unused bytes and leaves SPARE free, and fails if and only if more than MAX_REQUEST - SPARE are unused |
| Session.RoomIsMade | crates/rugo-server/src/conn.rs:276-296 | nothing moves while there is room, and the buffer doubles exactly when moving the unused bytes to the front is not enough |
| Session.AnsweredIsGood | crates/rugo-server/src/conn.rs:340-384 | answering keeps every byte accounted for and stops only for want of a whole command, at the last, or at the ceiling |
| Session.SteppedIsGood | crates/rugo-server/src/conn.rs:445-480 | a read is asked for only with nothing owed, nothing whole unanswered and SPARE bytes of room; a send only of owed bytes; an end only with nothing owed, and the last reply out or one request, not whole, too large to hold |
| Session.DoneIsServed | crates/rugo-server/src/conn.rs:340-384 | what has been run and replied is the beginning of what the whole stream is served, and all of it once nothing whole is left |
| Session.EveryCuttingServesTheStream | crates/rugo-server/src/conn.rs:431-480 | over every cutting of a stream into reads and of replies into writes: what was run and written is the beginning of what the stream is served, and exactly that when the connection waits or is done, which it is only at the last or over one incomplete request too large to hold; but for a long line |
| Session.EveryCuttingRunsEveryCommand | crates/rugo-server/src/conn.rs:431-480 | commands of at most MAX_REQUEST - SPARE bytes, sent end to end and cut anyhow: those run are the first of them in order; the connection ends only once the last has run and its answer is out; once all have arrived it waits only when all are answered |
| Session.TakingEnds | crates/rugo-server/src/conn.rs:445-480 | from every state some writes lead to a connection that waits or ends |
| Session.EveryTakingEnds | crates/rugo-server/src/conn.rs:445-480 | however the socket takes replies, at least a byte at a time, there are no more takings than bytes of reply yet to be written |
| Session.EveryCommandIsAnswered | crates/rugo-server/src/conn.rs:445-480 | once such commands have all arrived, however the socket takes the replies: something is offered as long as any is owed, and all the answers are out after no more takings than they have bytes |
| Session.FlushedIsGood | crates/rugo-server/src/conn.rs:388-412 | writing in parts, with interruptions, dropping what is out, and a write that fails part way lose and repeat nothing |
| Session.TurnedIsGood | crates/rugo-server/src/conn.rs:226-251 | a turn keeps every byte accounted for, wants to write only when it owes and to read only when it does not |
| Turns.PouredExactly | crates/rugo-server/src/conn.rs:388-400 | exactly how many bytes go out and whether the write broke, told by what each attempt came to |
| Turns.FlushedExactly | crates/rugo-server/src/conn.rs:388-412 | likewise, and when the reply buffer is emptied, cut or left |
| Turns.FilledExactly | crates/rugo-server/src/conn.rs:256-270 | a read goes on exactly when somebody is there, it brought bytes or none yet, and no more than MAX_REQUEST - SPARE are unused; every byte it brought is then after those unused, and nothing else has changed |
| Turns.TurnedExactly | crates/rugo-server/src/conn.rs:226-251 | a turn closes if and only if a write broke while bytes were owed, the read found nobody or no bytes, too much is unused, or the last reply is in and all out; otherwise it waits to write if and only if bytes are owed; and exactly what was read and how much went out |
| Session.TurnLeavesNothingWhole | crates/rugo-server/src/conn.rs:226-251 | a turn that got as far as answering has left nothing whole or answered its last if and only if it was ending, nothing whole was there, or the replies in hand and those to every whole command but the last keep under MAX_REPLY |
| Session.WritingLeavesTheRest | crates/rugo-server/src/conn.rs:226-251 | a turn woken only to write leaves the unused bytes as they were |
| Session.TurnMayLeaveACommand | crates/rugo-server/src/conn.rs:226-251 | a turn that wants to read with a whole command in the buffer |
| Connection.Conn.constructor | crates/rugo-server/src/conn.rs:186-201 | a new connection has received and owes nothing |
| Connection.Conn.MakeRoom | crates/rugo-server/src/conn.rs:276-296 | compaction first, doubling only if that was not enough, as the specification says |
| Connection.Conn.Execute | crates/rugo-server/src/conn.rs:340-384 | the loop runs every whole command as the specification says |
| Connection.Conn.Step | crates/rugo-server/src/conn.rs:445-480 | the loop ends within two passes with the specified state and want |
| Connection.Conn.Flush | crates/rugo-server/src/conn.rs:388-412 | the write loop, emptying and draining as the specification says |
| Connection.Conn.TakeTurn | crates/rugo-server/src/conn.rs:226-251 | a turn as the specification says, whose answer Turns.TurnedExactly gives by what the socket did |
| Connection.Conn.Arrive | crates/rugo-server/src/conn.rs:431-433 | bytes that arrived are counted where the read put them, whatever count is reported, clamped to the buffer |
| Connection.Conn.Wrote | crates/rugo-server/src/conn.rs:436-438 | bytes that went out are counted, clamped to what was owed |
| Connection.Conn.Fill | crates/rugo-server/src/conn.rs:256-270 | one read into room made for it, or that the peer is gone |
| CompletionLoop.CreditedRightly | crates/rugo-server/src/uring.rs:244-250 | a finished operation is counted as what it was, although the token is not asked |
| CompletionLoop.FinishedKeeps | crates/rugo-server/src/uring.rs:228-263 | handling a finished read or write, whether it goes on, fails or ends, keeps the slots in order |
| CompletionLoop.AcceptedKeeps | crates/rugo-server/src/uring.rs:167-225 | handling an accept keeps the slots in order, reusing the slot last freed |
| CompletionLoop.EveryRunIsSound | crates/rugo-server/src/uring.rs:120-163 | over every run: an occupied slot has exactly one operation in flight, a send exactly when it owes; a free slot has none and is once in the free list |
| CompletionLoop.HeardByItsOwner | crates/rugo-server/src/uring.rs:228-250 | what finishes is heard by the connection that asked, never by another in a reused slot, and is the only operation of its slot |
| CompletionLoop.EveryRunServesEveryClient | crates/rugo-server/src/uring.rs:120-163 | over every run each connection in a slot and each that has left has run and been sent the beginning of what its bytes are served, and one that waits or left of its own wish exactly that, but for a long line |
| Completions.FinishedAdvances | crates/rugo-server/src/uring.rs:228-263 | every completion that moved bytes: the connection that asked has exactly those bytes received, or exactly those of its reply written; it is in its slot with its next operation asked for, or left done, or left because nothing could be asked for it; nobody else is touched |
| Completions.FinishedFails | crates/rugo-server/src/uring.rs:237-241 | every completion that moved none: the connection that asked leaves as it was and nobody else is touched |
| Completions.AcceptedSeats | crates/rugo-server/src/uring.rs:167-225 | every accept: when it is armed again, when it ends the loop, and that a connection gets the next number, the slot last freed or a new one, and its first read |
| Completions.EveryRunKeepsEveryone | crates/rugo-server/src/uring.rs:120-163 | over every run each connection accepted is in exactly one slot or left exactly once, and while the loop goes on every listener's accept and the tick stay asked for |
| Completions.LeavesOnlyWhenLost | crates/rugo-server/src/uring.rs:228-263 | over every run a connection that left with more to do did so at a completion of its own that moved nothing or at a refused submission |
| Completions.EveryByteIsInItsAccount | crates/rugo-server/src/uring.rs:228-263 | over every run what a connection has received is all that the kernel read for it, in order, and what it has written is as many bytes as the kernel sent for it |
| Completions.EveryRunServesWhatItRead | crates/rugo-server/src/uring.rs:120-263 | over every run from the start each connection has run, and been sent, the beginning of what is due for the bytes the kernel read for it, and all of it if it waits or left done, but for a long line |
| CompletionLoop.Worker.Discard | crates/rugo-server/src/uring.rs:110-116 | a slot is given up once |
| CompletionLoop.Worker.Carry | crates/rugo-server/src/uring.rs:228-263 | as the specification of a finished operation says, which Completions.FinishedAdvances and FinishedFails give on the connections themselves |
| CompletionLoop.Worker.Take | crates/rugo-server/src/uring.rs:167-225 | as the specification of an accept says, which Completions.AcceptedSeats gives on the slots themselves |
| Ring.ApartIs | crates/rugo-net/src/uring.rs:392-397 | subtracting wrapping words gives how many lie between, however often each has wrapped |
| Ring.PutKeeps | crates/rugo-net/src/uring.rs:392-405 | what is put at the tail of a queue with room overwrites nothing in it |
| Ring.TakeKeeps | crates/rugo-net/src/uring.rs:562-572 | what is at the head of a queue is its oldest |
| Ring.Ring.Next | crates/rugo-net/src/uring.rs:392-405 | a submission is written exactly when fewer than the ring's size are untaken, and pending stays the number untaken |
| Ring.Ring.SubmitAndWait | crates/rugo-net/src/uring.rs:514-547 | the kernel reads exactly the oldest untaken submissions, unharmed and in order, and pending stays the number untaken |
| Ring.Ring.Reap | crates/rugo-net/src/uring.rs:553-577 | every completion posted by the start is handed over once and in order while the kernel posts more |

## Left out

- `crates/rugo-arena/src/segment.rs`: mappings and boxed storage; a segment is zeroed bytes whose creation may be refused.
- `crates/rugo-hash`: how well the hash spreads; it is any function of the key.
- `Map::shard_of`, `Map::with_seed`: which shard a hash goes to is a parameter of each section, so that a key always goes to one shard is taken as given.
- NEON and SSE2 groups: at sixteen lanes a group is what a lane-wise comparison reports; only the eight-lane word arithmetic is proved against it.
- Prefetching, `Map::warm`, `Table::warm_entry` and `Conn::ask_ahead`: hints that change nothing; the look-ahead parse they use is modelled.
- Memory orderings of the lock and of the published counters: steps are sequentially consistent.
- Fairness of the spin lock: that a waiting thread can always be let in is proved, not that a scheduler lets it.
- `Map::clear` across shards: it is one section a shard, so the claims are about each shard's section and not about the whole map at one instant.
- `crates/rugo-server/src/dispatch.rs`: the command table; the answer to a connection's n-th command is any function of that number and the arguments.
- `crates/rugo-server/src/lib.rs`, `config.rs`, `stats.rs`, `crates/rugo/src/main.rs`, `crates/rugo-map/src/clock.rs`: sockets, flags, counters and the wall clock, which is a parameter.
- `crates/rugo-net/src/lib.rs` and the setup half of `crates/rugo-net/src/uring.rs`: system calls and the kernel's binary interface.
- The arena's segments, oversized blocks and a connection's buffers are fields holding sequences, because each is owned by one object and never shared; that two slices of one buffer are borrowed at once is not modelled.
- The first four segments living inside the arena's own struct: all segments are one sequence.
- Capacities of growable lists: what an arena's own lists cost is a parameter of `ArenaModel.Arena.LiveIsCovered`.
- `mix`, `spot` and the stepping of eviction's random numbers: the two slots to look from are parameters.
- Masks by a power of two less one are written as remainders; a reference's fields as quotient and remainder.
- CompletionLoop.Worker.Take: which errors of an accept are retried, and the counting of connections, are not modelled; the outcome is a parameter.
- `Encoder::simple`, `error`, `integer` and `raw`: one-line appends.
