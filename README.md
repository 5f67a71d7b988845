# Virtual-memory translation with CLOCK replacement, in Dafny

This project models the core of a demand-paging simulator written in Rust.
The simulator reads a stream of logical addresses and translates each one to a physical address and the signed byte stored there.

- A logical address splits into an 8-bit page number, `(a >> 8) & 0xFF`, and an 8-bit offset, `a & 0xFF`.
- A 16-entry TLB is searched first. It is filled in FIFO order by a write cursor.
- On a TLB miss, the page table (a hash map plus a 256-entry valid array) is checked.
- A page that is not valid is a page fault. Its 256 bytes are read from the backing store, and the CLOCK (second-chance) engine of `src/clock.rs` is told about it.
  - While fewer than 128 frames have been handed out, the next unused frame is taken.
  - After that, the frame is the one held by the page the CLOCK engine evicts. That page is dropped from the page table.
  - The bytes are copied into the frame, and the page table binds the page to the frame.
- The pair is added to the TLB. The byte at `frame * 256 + offset` is read. The counters of translated addresses, TLB hits and page faults are kept.

Files:

- `wrappers.dfy`: `Option`.
- `ring.dfy` (module `Ring`): positions round a circular buffer, shared by the CLOCK hand and the TLB cursor.
- `clock.dfy` (module `ClockReplacement`): the CLOCK engine. Its behaviour on values (`Sweep`, `Inserted`) comes with a closed form of the second-chance sweep and its consequences. The class `Clock` updates its slot array in place and is proved to agree with `Inserted`.
- `tlb.dfy` (module `Tlb`): the TLB on values (`Lookup`, `Added`), its FIFO cycling (`AddsCycle`), and the class `TLB` over two fixed arrays.
- `translator.dfy` (module `Translation`): one iteration of the translation loop as a function (`Step`) and the whole loop (`RunAll`).
  - The invariant `Inv` states that the page table, its valid flags, the CLOCK slots and physical memory are kept in step.
  - `Inv` is proved to hold at start-up and after every step.
- `simulator.dfy` (module `Simulator`): the class `Translator`, holding the locals of `main` as fields updated in place. Each of its methods is proved to follow the value-level model exactly.

The page table is modelled as the Rust code keeps it: a map, with evicted pages removed, and a separate valid array. A page table with a `frame_number` kept beside each `valid` flag is not used. The TLB is never invalidated when a page is evicted; the model keeps that behaviour (see "Left out").

## Model

| member | source | states |
|---|---|---|
| ClockReplacement.Initial | src/clock.rs:15-22 | `new`: `capacity` empty slots, hand 0, no faults |
| ClockReplacement.Next | src/clock.rs:64-66 | the hand moves one slot on and wraps to 0 after the last slot |
| ClockReplacement.Find | src/clock.rs:25-32 | the residency scan finds the first slot holding the page, or reports that no slot holds it |
| ClockReplacement.Land | src/clock.rs:38-54 | the sweep's stop: the slot gets (p, true) and no other slot changes; the hand moves one slot on, wrapping; a page is reported evicted exactly when the slot held one, and it is that page |
| ClockReplacement.RefCountClear | src/clock.rs:55-58 | clearing a set reference bit lowers the number of set bits by one, so the sweep terminates |
| ClockReplacement.Sweep | src/clock.rs:36-61 | the sweep keeps the number of slots and leaves the hand on a slot |
| ClockReplacement.FirstStop | src/clock.rs:36-61 | the number of slots the sweep passes: every slot passed has a page with its bit set, and the slot where it stops is empty or has a clear bit, unless a full turn is made |
| ClockReplacement.SweepSkip | src/clock.rs:46-58 | passing k slots with set bits is the same as clearing those bits and restarting k slots further on |
| ClockReplacement.SweepClosedForm | src/clock.rs:36-61 | the sweep ends after at most one turn plus one slot: passed slots lose their bits, and the new page lands in a slot that is then stoppable |
| ClockReplacement.SweepOccupants | src/clock.rs:36-61 | after the sweep, the landing slot holds (p, true) and the hand is just past it; the evicted page is the landing slot's old page; every other slot keeps its page |
| ClockReplacement.Inserted | src/clock.rs:24-62 | `insert` counts a fault exactly when the page is not resident, and keeps the number of slots |
| ClockReplacement.InsertResident | src/clock.rs:25-32 | inserting a resident page only sets its bit: no eviction, and hand and fault counter unchanged |
| ClockReplacement.InsertFault | src/clock.rs:34-61 | a fault counts one, puts (p, true) in the landing slot, moves the hand past it, reports that slot's old page, and leaves every other slot's page in place |
| ClockReplacement.InsertFaultSlots | src/clock.rs:36-61 | slot by slot: passed slots had set bits and now have them cleared; the victim slot was empty or had a clear bit (or the hand's own slot after a full turn), so a page with a set bit is never evicted; unreached slots are untouched |
| ClockReplacement.InsertKeepsPagesDistinct | src/clock.rs:24-62 | after `insert` the page is resident and no page occupies two slots |
| ClockReplacement.FullClockEvicts | src/clock.rs:46-54 | with every slot filled, a fault evicts exactly the landing slot's page; that page is no longer resident and every slot stays filled |
| ClockReplacement.WarmInsert | src/clock.rs:38-44 | with slots 0..k-1 filled and the hand at k, a fault fills slot k and evicts nothing |
| ClockReplacement.InsertAll | src/clock.rs:24-62 | a run of inserts keeps the capacity and reports one eviction result per insert |
| ClockReplacement.FaultsNeverDecrease | src/clock.rs:34 | over a run of inserts the fault counter never decreases and grows by at most one per insert |
| ClockReplacement.FillOne | src/clock.rs:38-44 | one more distinct page, while a slot is free, lands in the next slot |
| ClockReplacement.FillsInOrder | src/clock.rs:24-62 | from `new`, the first `capacity` distinct inserts fill slots 0, 1, ... in order, with one fault each and no eviction |
| ClockReplacement.EvictsAfterFill | src/clock.rs:24-62 | one more distinct page after a full fill evicts the page in slot 0 and puts itself there; every other page stays in its slot with its bit cleared; capacity + 1 faults are counted and the hand is `Next(0, capacity)` |
| ClockReplacement.Clock.constructor | src/clock.rs:15-22 | the new engine's state is `Initial(capacity)` |
| ClockReplacement.Clock.Insert | src/clock.rs:24-62 | the in-place scan and sweep produce exactly `Inserted` of the old state, with its eviction report |
| ClockReplacement.Clock.AdvanceHand | src/clock.rs:64-66 | the hand becomes `Next` of the old hand |
| ClockReplacement.Clock.PageFaultCount | src/clock.rs:68-70 | returns the fault counter |
| Tlb.Empty | src/main.rs:25-31 | every slot is (-1, -1) and the cursor is at 0 |
| Tlb.Lookup | src/main.rs:33-39 | the search finds nothing exactly when no slot holds the page; otherwise it returns the frame beside the first matching slot |
| Tlb.Added | src/main.rs:41-45 | `add` keeps the buffer's shape |
| Tlb.AddWritesOneSlot | src/main.rs:41-45 | `add` writes the pair into the cursor's slot only and moves the cursor one slot on, wrapping after slot 15 |
| Tlb.EmptyMisses | src/main.rs:25-39 | a fresh TLB misses every page number 0..255 that the address split produces (any non-negative number) |
| Tlb.LookupAfterAdd | src/main.rs:33-45 | after a miss and an `add`, the next search returns the added frame |
| Tlb.CycledAdd | src/main.rs:41-45 | one more `add` extends a run of FIFO writes by one slot |
| Tlb.AddsCycle | src/main.rs:41-45 | up to 16 adds write consecutive slots round the buffer from the cursor, leave the other slots alone and move the cursor by their number; the (n+16)-th add overwrites the n-th add's slot |
| Tlb.TLB.constructor | src/main.rs:25-31 | the new buffer's state is `Empty()` |
| Tlb.TLB.Search | src/main.rs:33-39 | a miss exactly when no slot holds the page; a hit returns the frame of the first slot holding it |
| Tlb.TLB.Add | src/main.rs:41-45 | the arrays and cursor become `Added` of the old state |
| Translation.PageNumber | src/main.rs:87 | the page number lies in 0..255 for every i32 address |
| Translation.Offset | src/main.rs:88 | the offset lies in 0..255 for every i32 address |
| Translation.AddressSplit | src/main.rs:87-88 | a 16-bit address equals page * 256 + offset |
| Translation.AsSigned | src/main.rs:103-107 | a byte read as u8 and viewed as i8 has the same bits modulo 256 |
| Translation.Startup | src/main.rs:65-73 | at start-up the page table is empty, no page is valid or resident, all counters and `next_free_frame` are 0, and every TLB slot is -1 |
| Translation.StartupInv | src/main.rs:65-73 | the start-up state satisfies the invariant |
| Translation.NotResidentWhenInvalid | src/main.rs:95 | a page that is not valid is in no CLOCK slot, and no page is in two slots |
| Translation.FaultWhenFullEvicts | src/main.rs:114-121 | once all frames are allocated, a fault evicts a page that has a page-table entry mapped to the landing slot, so the panic at line 120 is unreachable |
| Translation.LoadPage | src/main.rs:95-127 | the fault branch maps the page to a frame holding its backing-store bytes, makes it valid, takes the CLOCK engine's state after `insert`, and leaves the TLB and counters alone; `WarmFaultState` and `FullFaultState` give the whole new state |
| Translation.BindKeepsTableMatch | src/main.rs:114-126 | dropping the evicted page and binding the new one keeps the page table and the CLOCK slots in step, and no remaining entry names the reused frame |
| Translation.BindKeepsMemory | src/main.rs:124-126 | copying the page into a frame no other entry names keeps every valid page's bytes |
| Translation.WarmUpAdvances | src/main.rs:111-113 | a warm-up fault fills frame `next_free_frame` and moves the hand to the next one |
| Translation.WarmFaultState | src/main.rs:109-126 | a warm-up fault binds the page to `next_free_frame`, which grows by one; the CLOCK engine evicts nothing |
| Translation.WarmFaultKeepsCoherent | src/main.rs:109-126 | a warm-up fault keeps the tables, CLOCK slots and memory coherent |
| Translation.FullFaultState | src/main.rs:109-126 | after warm-up, a fault removes the evicted page's entry, invalidates it and binds the new page to the evicted page's frame, which is the CLOCK landing slot |
| Translation.FullFaultKeepsCoherent | src/main.rs:109-126 | a fault after warm-up keeps the structures coherent |
| Translation.LoadPageKeepsCoherent | src/main.rs:95-127 | every fault keeps the structures coherent, makes the page valid, counts one fault and leaves TLB and counters alone |
| Translation.HitFrameInRange | src/main.rs:91-93 | a TLB hit names an existing frame, so the read at line 133 is in bounds |
| Translation.Loaded | src/main.rs:95-127 | after the valid check the page is mapped to a frame holding its bytes from the backing store, and a fault is counted exactly when the page was not valid |
| Translation.LoadedCoherent | src/main.rs:95-127 | the state after the valid check is coherent |
| Translation.Step | src/main.rs:87-152 | one iteration counts one translated address; `StepCounts`, `HitReadsFrame`, `MissReadsBackingStore` and `PhysicalAddressInRange` state its result |
| Translation.StepKeepsInv | src/main.rs:87-134 | every translation step keeps the invariant |
| Translation.StepCounts | src/main.rs:87-152 | each step counts one translation; a hit counts one TLB hit and no fault; a miss counts a fault exactly when the page was not valid |
| Translation.HitReadsFrame | src/main.rs:91-93 | a hit reads the hit frame at the offset, gives frame * 256 + offset, changes only the counters, and reads the backing store's byte when the entry agrees with the page table |
| Translation.MissReadsBackingStore | src/main.rs:94-134 | a miss makes the page valid and maps it to a frame below 128, adds (page, frame) to the TLB, where the next search finds it, and reads the backing store's byte at page * 256 + offset |
| Translation.MissExample | src/main.rs:87-134 | worked case: address 19986 is page 78, offset 18, and on a miss reads the value at store byte 78 * 256 + 18 |
| Translation.FrameAddress | src/main.rs:134 | frame * 256 + offset lies in physical memory and keeps the offset |
| Translation.PhysicalAddressInRange | src/main.rs:133-134 | every physical address lies in 0 .. 128 * 256 - 1 and keeps the logical offset |
| Translation.WarmUpFault | src/main.rs:111-113 | a warm-up fault takes frame `next_free_frame`, which grows by one; the CLOCK engine evicts nothing and no entry is dropped |
| Translation.EvictingFault | src/main.rs:114-126 | a fault after warm-up evicts a valid page other than the new one, removes and invalidates its entry, and binds the new page to that frame, which the new page occupies in the CLOCK slots |
| Translation.InjectiveBound | src/main.rs:125 | an injective map into 0..n-1 has at most n keys |
| Translation.InvariantFacts | src/main.rs:109-126 | a page is valid exactly when the CLOCK engine holds it; a valid page's frame is its slot; no two valid pages share a frame; at most 128 pages are valid |
| Translation.Translatable | src/main.rs:83-85 | the number of translated addresses is at most the number of inputs |
| Translation.RunAll | src/main.rs:77-153 | the loop keeps the invariant and yields one output per address other than -1 |
| Translation.RunAllAt | src/main.rs:83-134 | at each position the loop skips -1 and otherwise translates the address and goes on |
| Translation.RunCounts | src/main.rs:77-153 | over a run, the translated count grows by the number of addresses other than -1, the counters never decrease, and hits plus faults never exceed translations |
| Simulator.Translator.constructor | src/main.rs:65-73 | the new simulator's state is the start-up state and satisfies the invariant |
| Simulator.Translator.PageIn | src/main.rs:95-127 | the in-place fault handling yields exactly `LoadPage` of the old state |
| Simulator.Translator.TranslateMiss | src/main.rs:94-131 | the miss path yields the page table's frame for the page and the loaded state with the pair added to the TLB |
| Simulator.Translator.Translate | src/main.rs:87-152 | one in-place iteration yields exactly `Step` of the old state, and keeps the invariant |
| Simulator.Translator.Run | src/main.rs:77-153 | the in-place loop yields exactly `RunAll` of the old state, outputs included |
| Simulator.Translator.Statistics | src/main.rs:155-165 | the closing counters are the kept ones, and hits plus faults never exceed the translated count |

## Left out

- Command-line handling, opening the two files, reading and trimming input lines, and printing (including `atty` and `debug_state`) are not modelled. The loop takes the parsed addresses as a sequence of i32. A line that fails to parse becomes -1, and -1 is skipped as in the source.
- The two f32 rates printed at the end are not modelled; the counters they are computed from are.
- The backing store is a sequence of at least 65536 bytes given to the simulator. The seek and read failures (`expect`) cannot occur for pages 0..255 of a store that size and are not modelled.
- ClockReplacement.Clock.constructor: requires a positive capacity. With capacity 0 the source panics on its first insert, and the simulator always uses 128.
- Translation.HitReadsFrame: states that the value is the backing store's byte only when the TLB entry agrees with the page table. The TLB is not invalidated when a page is evicted (src/main.rs:114-126). A stale entry can therefore name a frame that now holds another page, and the model keeps that behaviour.
- Tlb.Added: its own contract states only the buffer's shape. What it writes is stated by `Tlb.AddWritesOneSlot` and `Tlb.AddsCycle`.
- Translation.RunAll: the counters `translated_count` and `tlb_hits` are i32 in the source (src/main.rs:72-73, untyped literals), and `page_faults` is `usize` (src/clock.rs:11). The model's counters are unbounded `nat`s. After 2^31 - 1 translated addresses the increment at src/main.rs:152 overflows in the source (a panic in a debug build, a wrap in a release build); that overflow is not modelled, so `RunAll` and `Simulator.Translator.Run` accept inputs of any length.
- `page * 256` and `frame * 256 + offset` stay far inside i32 and are computed on unbounded integers.
- `HashMap` iteration order plays no part in the source and is not modelled. The page table is a map.
