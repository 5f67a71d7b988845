/**
 * The per-address translation path of src/main.rs: split the logical
 * address, search the TLB, check the page table, handle a page fault through
 * the CLOCK engine and read the byte from the frame.
 *
 * `Step` states one iteration of the translation loop on values; `Inv` is the
 * invariant tying the page table to the CLOCK engine, which `StepKeepsInv`
 * shows every step preserves; `RunAll` is the whole loop.  The simulator's
 * state as the program keeps it, updated in place, is the class `Translator`
 * of module `Simulator`, proved to follow `Step`.
 */
module Translation {
  import opened Wrappers
  import opened ClockReplacement
  import opened Tlb

  const FrameCount: nat := 128
  const PageTableSize: nat := 256
  const Chunk: nat := 256
  const BackingStoreSize: nat := PageTableSize * Chunk

  type i32 = x: int | -0x8000_0000 <= x < 0x8000_0000
  type byte = x: int | 0 <= x < 256
  type i8 = x: int | -128 <= x < 128

  /**
   * `(logical_address >> 8) & 0xFF`.  An arithmetic shift right by 8 is floor
   * division by 256 and masking with 0xFF keeps the non-negative remainder
   * modulo 256; Dafny's `/` and `%` are exactly these for a positive divisor,
   * so this holds for negative addresses too.
   */
  function PageNumber(address: i32): (p: int)
    ensures 0 <= p < PageTableSize
  {
    (address / 256) % 256
  }

  /** `logical_address & 0xFF`. */
  function Offset(address: i32): (o: int)
    ensures 0 <= o < Chunk
  {
    address % 256
  }

  /** A 16-bit address is its page number times 256 plus its offset. */
  lemma AddressSplit(address: i32)
    requires 0 <= address < BackingStoreSize
    ensures address == PageNumber(address) * Chunk + Offset(address)
  {
  }

  /** A byte read as unsigned and reinterpreted as `i8`: the same bits, two's complement. */
  function AsSigned(b: byte): (v: i8)
    ensures (v - b) % 256 == 0
  {
    if b < 128 then b else b - 256
  }

  /** The 256 bytes of page `p` in the backing store, read into an `i8` buffer. */
  function PageBytes(store: seq<byte>, p: int): seq<i8>
    requires |store| >= BackingStoreSize && 0 <= p < PageTableSize
  {
    seq<i8>(Chunk, k requires 0 <= k < Chunk => AsSigned(store[p * Chunk + k]))
  }

  /** The simulator's state: the locals of `main` that the loop updates. */
  datatype MmuState = MmuState(
    pageTable: map<int, nat>,
    valid: seq<bool>,
    memory: seq<seq<i8>>,
    nextFreeFrame: nat,
    clock: ClockState,
    tlb: TlbState,
    translated: nat,
    tlbHits: nat)

  /** The state before the first address (src/main.rs:65-73). */
  function Startup(): (st: MmuState)
    ensures st.pageTable == map[] && |st.valid| == PageTableSize && |st.clock.frames| == FrameCount
    ensures forall p :: 0 <= p < PageTableSize ==> !st.valid[p] && !Resident(st.clock.frames, p)
    ensures st.nextFreeFrame == 0 && st.clock.faults == 0 && st.translated == 0 && st.tlbHits == 0
    ensures st.tlb.Valid() && forall i :: 0 <= i < TlbSize ==> st.tlb.pages[i] == -1
  {
    MmuState(map[], seq(PageTableSize, _ => false), seq(FrameCount, _ => seq(Chunk, _ => 0)),
             0, Initial(FrameCount), Empty(), 0, 0)
  }

  /** Sizes of the fixed arrays. */
  ghost predicate Shapes(st: MmuState)
  {
    && |st.valid| == PageTableSize
    && |st.memory| == FrameCount
    && (forall f :: 0 <= f < FrameCount ==> |st.memory[f]| == Chunk)
    && st.clock.Valid() && |st.clock.frames| == FrameCount
    && st.tlb.Valid()
    && st.nextFreeFrame <= FrameCount
  }

  /** Every TLB slot is still (-1, -1) or maps a page number to a frame that exists. */
  ghost predicate TlbEntriesInRange(t: TlbState)
    requires t.Valid()
  {
    forall i :: 0 <= i < TlbSize ==>
      t.pages[i] == -1 || (0 <= t.pages[i] < PageTableSize && 0 <= t.frames[i] < FrameCount)
  }

  /**
   * The page table and the CLOCK engine's slots are two views of one
   * mapping: a page is valid exactly when it has an entry, a valid page's
   * frame is the slot that holds it, and every filled slot holds a valid page
   * mapped to it.
   */
  ghost predicate TableMatchesClock(table: map<int, nat>, valid: seq<bool>, frames: seq<Slot>)
  {
    && |valid| == PageTableSize && |frames| == FrameCount
    && (forall p :: 0 <= p < PageTableSize ==> (valid[p] <==> p in table))
    && (forall p :: p in table ==>
          0 <= p < PageTableSize && table[p] < FrameCount && Occupant(frames[table[p]]) == Some(p))
    && (forall i :: 0 <= i < FrameCount && frames[i].Some? ==>
          frames[i].value.number in table && table[frames[i].value.number] == i)
  }

  /**
   * Warm-up: while frames are still unallocated, exactly frames 0 ..
   * next_free_frame-1 are filled and the hand points at the next one; once
   * all are allocated, every slot is filled.
   */
  ghost predicate WarmUp(nextFreeFrame: nat, clock: ClockState)
  {
    if nextFreeFrame < FrameCount then
      FilledUpTo(clock.frames, nextFreeFrame) && clock.hand == nextFreeFrame
    else
      forall i :: 0 <= i < |clock.frames| ==> clock.frames[i].Some?
  }

  /** Each valid page's frame holds that page's bytes from the backing store. */
  ghost predicate MemoryHoldsPages(table: map<int, nat>, memory: seq<seq<i8>>, store: seq<byte>)
    requires |store| >= BackingStoreSize
  {
    forall p :: p in table ==>
      0 <= p < PageTableSize && table[p] < |memory| && memory[table[p]] == PageBytes(store, p)
  }

  /** The invariant of the tables, the CLOCK engine and memory. */
  ghost predicate Coherent(st: MmuState, store: seq<byte>)
  {
    && |store| >= BackingStoreSize
    && Shapes(st)
    && TlbEntriesInRange(st.tlb)
    && TableMatchesClock(st.pageTable, st.valid, st.clock.frames)
    && WarmUp(st.nextFreeFrame, st.clock)
    && MemoryHoldsPages(st.pageTable, st.memory, store)
  }

  /**
   * The whole invariant between two addresses: the structures are coherent,
   * and TLB hits and page faults, which exclude each other, together number
   * at most the addresses translated.
   */
  ghost predicate Inv(st: MmuState, store: seq<byte>)
  {
    Coherent(st, store) && st.tlbHits + st.clock.faults <= st.translated
  }

  lemma StartupInv(store: seq<byte>)
    requires |store| >= BackingStoreSize
    ensures Inv(Startup(), store)
  {
  }

  /** A page that is not valid is in no slot, and no page is in two slots. */
  lemma NotResidentWhenInvalid(table: map<int, nat>, valid: seq<bool>, frames: seq<Slot>, p: int)
    requires TableMatchesClock(table, valid, frames) && 0 <= p < PageTableSize && !valid[p]
    ensures !Resident(frames, p) && NoDuplicates(frames)
  {
    forall i | 0 <= i < |frames|
      ensures Occupant(frames[i]) != Some(p)
    {
      if frames[i].Some? {
        assert frames[i].value.number in table;
      }
    }
  }

  /**
   * Once every frame is allocated, a fault makes the CLOCK engine evict a page
   * that has a page-table entry: the "Frame full but no page to evict!" panic
   * of src/main.rs:120 cannot happen.
   */
  lemma FaultWhenFullEvicts(st: MmuState, store: seq<byte>, p: int)
    requires Inv(st, store) && 0 <= p < PageTableSize && !st.valid[p]
    requires st.nextFreeFrame == FrameCount
    ensures var ins := Inserted(st.clock, p);
            && ins.evicted.Some?
            && ins.evicted.value in st.pageTable
            && st.pageTable[ins.evicted.value] == LandingSlot(st.clock.frames, st.clock.hand)
  {
    NotResidentWhenInvalid(st.pageTable, st.valid, st.clock.frames, p);
    FullClockEvicts(st.clock, p);
  }

  /** Record that page `p` now lives in `frame`, whose bytes become `buffer`. */
  function Bind(st: MmuState, p: int, frame: nat, buffer: seq<i8>): MmuState
    requires 0 <= p < |st.valid| && frame < |st.memory|
  {
    st.(memory := st.memory[frame := buffer], pageTable := st.pageTable[p := frame],
        valid := st.valid[p := true])
  }

  /**
   * The page-fault branch (src/main.rs:95-127): read the page, tell the CLOCK
   * engine, take the next unused frame during warm-up or the evicted page's
   * frame afterwards, copy the bytes in and bind the page table.
   */
  function LoadPage(st: MmuState, store: seq<byte>, p: int): (r: MmuState)
    requires Inv(st, store) && 0 <= p < PageTableSize && !st.valid[p]
    ensures p in r.pageTable && r.pageTable[p] < |r.memory| && r.memory[r.pageTable[p]] == PageBytes(store, p)
    ensures |r.valid| == |st.valid| && r.valid[p]
    ensures r.clock == Inserted(st.clock, p).state
    ensures r.tlb == st.tlb && r.translated == st.translated && r.tlbHits == st.tlbHits
  {
    var buffer := PageBytes(store, p);
    var ins := Inserted(st.clock, p);
    if st.nextFreeFrame < FrameCount then
      Bind(st.(clock := ins.state, nextFreeFrame := st.nextFreeFrame + 1), p, st.nextFreeFrame, buffer)
    else
      FaultWhenFullEvicts(st, store, p);
      match ins.evicted
      case Some(evicted) =>
        var frame := st.pageTable[evicted];
        Bind(st.(clock := ins.state, valid := st.valid[evicted := false],
                 pageTable := st.pageTable - {evicted}),
             p, frame, buffer)
      case None => assert false; st
  }

  /**
   * The table side of a fault: slot `at` now holds `p` and every other slot
   * the page it held.  Dropping whatever page `at` held from the table
   * (`table'`, `valid'`) and binding `p` to `at` keeps table and slots in
   * step, and no remaining entry names frame `at`.
   */
  lemma BindKeepsTableMatch(table: map<int, nat>, valid: seq<bool>, frames: seq<Slot>,
                            table': map<int, nat>, valid': seq<bool>, frames': seq<Slot>, p: int, at: nat)
    requires TableMatchesClock(table, valid, frames)
    requires 0 <= p < PageTableSize && !valid[p] && at < FrameCount
    requires |frames'| == FrameCount && Occupant(frames'[at]) == Some(p)
    requires forall i :: 0 <= i < FrameCount && i != at ==> Occupant(frames'[i]) == Occupant(frames[i])
    requires frames[at].None? ==> table' == table && valid' == valid
    requires frames[at].Some? ==>
               table' == table - {frames[at].value.number} && valid' == valid[frames[at].value.number := false]
    ensures TableMatchesClock(table'[p := at], valid'[p := true], frames')
    ensures forall q :: q in table' ==> q in table && table'[q] == table[q] && table[q] != at
  {
    NotResidentWhenInvalid(table, valid, frames, p);
    var t := table'[p := at];
    var v := valid'[p := true];
    forall q | 0 <= q < PageTableSize
      ensures v[q] <==> q in t
    {
    }
    forall q | q in t
      ensures 0 <= q < PageTableSize && t[q] < FrameCount && Occupant(frames'[t[q]]) == Some(q)
    {
      if q != p {
        assert table[q] != at;
      }
    }
    forall i | 0 <= i < FrameCount && frames'[i].Some?
      ensures frames'[i].value.number in t && t[frames'[i].value.number] == i
    {
      if i != at {
        assert Occupant(frames'[i]) == Occupant(frames[i]);
        assert frames[i].value.number != p;
      }
    }
  }

  /** Loading page `p` into a frame no remaining entry names keeps every valid page's bytes. */
  lemma BindKeepsMemory(table: map<int, nat>, memory: seq<seq<i8>>, store: seq<byte>,
                        table': map<int, nat>, p: int, at: nat)
    requires |store| >= BackingStoreSize && MemoryHoldsPages(table, memory, store)
    requires 0 <= p < PageTableSize && at < |memory|
    requires forall q :: q in table' ==> q in table && table'[q] == table[q] && table[q] != at
    ensures MemoryHoldsPages(table'[p := at], memory[at := PageBytes(store, p)], store)
  {
  }

  /** A warm-up fault fills frame `next_free_frame` and moves the hand to the next one. */
  lemma WarmUpAdvances(clock: ClockState, k: nat, p: int)
    requires |clock.frames| == FrameCount && k < FrameCount && WarmUp(k, clock)
    ensures WarmUp(k + 1, ClockState(clock.frames[k := Some(Page(p, true))], Next(k, FrameCount), clock.faults + 1))
  {
  }

  /** The state a warm-up fault leaves: page `p` in frame `next_free_frame`. */
  lemma WarmFaultState(st: MmuState, store: seq<byte>, p: int)
    requires Inv(st, store) && 0 <= p < PageTableSize && !st.valid[p]
    requires st.nextFreeFrame < FrameCount
    ensures var k := st.nextFreeFrame;
            var c := ClockState(st.clock.frames[k := Some(Page(p, true))], Next(k, FrameCount), st.clock.faults + 1);
            && Inserted(st.clock, p) == InsertResult(c, None)
            && LoadPage(st, store, p) ==
                 MmuState(st.pageTable[p := k], st.valid[p := true], st.memory[k := PageBytes(store, p)], k + 1,
                          c, st.tlb, st.translated, st.tlbHits)
  {
    NotResidentWhenInvalid(st.pageTable, st.valid, st.clock.frames, p);
    WarmInsert(st.clock, p, st.nextFreeFrame);
  }

  /** A warm-up fault keeps the structures coherent. */
  lemma WarmFaultKeepsCoherent(st: MmuState, store: seq<byte>, p: int)
    requires Inv(st, store) && 0 <= p < PageTableSize && !st.valid[p]
    requires st.nextFreeFrame < FrameCount
    ensures Coherent(LoadPage(st, store, p), store)
  {
    var k := st.nextFreeFrame;
    WarmFaultState(st, store, p);
    var frames' := st.clock.frames[k := Some(Page(p, true))];
    BindKeepsTableMatch(st.pageTable, st.valid, st.clock.frames, st.pageTable, st.valid, frames', p, k);
    BindKeepsMemory(st.pageTable, st.memory, store, st.pageTable, p, k);
    WarmUpAdvances(st.clock, k, p);
  }

  /**
   * The state a fault after warm-up leaves: the evicted page's entry is gone
   * and page `p` is bound to the landing slot, which was the evicted page's frame.
   */
  lemma FullFaultState(st: MmuState, store: seq<byte>, p: int)
    requires Inv(st, store) && 0 <= p < PageTableSize && !st.valid[p]
    requires st.nextFreeFrame == FrameCount
    ensures var ins := Inserted(st.clock, p);
            var at := LandingSlot(st.clock.frames, st.clock.hand);
            && ins.evicted.Some? && ins.evicted == Occupant(st.clock.frames[at])
            && st.pageTable[ins.evicted.value] == at
            && LoadPage(st, store, p) ==
                 MmuState((st.pageTable - {ins.evicted.value})[p := at],
                          st.valid[ins.evicted.value := false][p := true],
                          st.memory[at := PageBytes(store, p)], FrameCount, ins.state,
                          st.tlb, st.translated, st.tlbHits)
  {
    NotResidentWhenInvalid(st.pageTable, st.valid, st.clock.frames, p);
    FaultWhenFullEvicts(st, store, p);
    InsertFault(st.clock, p);
  }

  /** A fault after warm-up keeps the structures coherent. */
  lemma FullFaultKeepsCoherent(st: MmuState, store: seq<byte>, p: int)
    requires Inv(st, store) && 0 <= p < PageTableSize && !st.valid[p]
    requires st.nextFreeFrame == FrameCount
    ensures Coherent(LoadPage(st, store, p), store)
  {
    NotResidentWhenInvalid(st.pageTable, st.valid, st.clock.frames, p);
    FullFaultState(st, store, p);
    FullClockEvicts(st.clock, p);
    InsertFault(st.clock, p);
    var ins := Inserted(st.clock, p);
    var e := ins.evicted.value;
    var at := LandingSlot(st.clock.frames, st.clock.hand);
    BindKeepsTableMatch(st.pageTable, st.valid, st.clock.frames,
                        st.pageTable - {e}, st.valid[e := false], ins.state.frames, p, at);
    BindKeepsMemory(st.pageTable, st.memory, store, st.pageTable - {e}, p, at);
  }

  /**
   * Every fault keeps the structures coherent, leaves the page valid and
   * counts exactly one page fault.
   */
  lemma LoadPageKeepsCoherent(st: MmuState, store: seq<byte>, p: int)
    requires Inv(st, store) && 0 <= p < PageTableSize && !st.valid[p]
    ensures var r := LoadPage(st, store, p);
            && Coherent(r, store) && p in r.pageTable
            && r.clock.faults == st.clock.faults + 1
            && r.tlb == st.tlb && r.translated == st.translated && r.tlbHits == st.tlbHits
  {
    if st.nextFreeFrame < FrameCount {
      WarmFaultState(st, store, p);
      WarmFaultKeepsCoherent(st, store, p);
    } else {
      FullFaultState(st, store, p);
      FullFaultKeepsCoherent(st, store, p);
    }
  }

  /** A TLB hit for a real page number names a frame that exists. */
  lemma HitFrameInRange(t: TlbState, p: int)
    requires t.Valid() && TlbEntriesInRange(t) && 0 <= p
    requires Lookup(t.pages, t.frames, p).Some?
    ensures 0 <= Lookup(t.pages, t.frames, p).value < FrameCount
  {
    var i :| 0 <= i < |t.pages| && t.pages[i] == p && Lookup(t.pages, t.frames, p).value == t.frames[i];
  }

  /** What one address produces: the new state, the physical address and the byte. */
  datatype StepResult = StepResult(state: MmuState, physicalAddress: int, value: i8)

  /**
   * One iteration of the translation loop (src/main.rs:87-134 and the count
   * at line 152).  A miss ends by taking the frame from the page table and
   * adding the pair to the TLB (lines 129-130).  The TLB is not invalidated
   * when a page is evicted, so a hit can name a frame that now holds another
   * page; the model keeps that.
   */
  function Step(st: MmuState, store: seq<byte>, address: i32): (r: StepResult)
    requires Inv(st, store)
    ensures r.state.translated == st.translated + 1
  {
    var p := PageNumber(address);
    var offset := Offset(address);
    match Lookup(st.tlb.pages, st.tlb.frames, p)
    case Some(frame) =>
      HitFrameInRange(st.tlb, p);
      StepResult(st.(tlbHits := st.tlbHits + 1, translated := st.translated + 1),
                 frame * Chunk + offset, st.memory[frame][offset])
    case None =>
      var loaded := Loaded(st, store, p);
      var frame := loaded.pageTable[p];
      StepResult(loaded.(tlb := Added(loaded.tlb, p, frame), translated := loaded.translated + 1),
                 frame * Chunk + offset, loaded.memory[frame][offset])
  }

  /**
   * The state after the valid check of a TLB miss (src/main.rs:95-127): the
   * page loaded if it was not valid, and in either case mapped to a frame
   * holding its bytes (`LoadedCoherent` shows the state coherent).
   */
  function Loaded(st: MmuState, store: seq<byte>, p: int): (r: MmuState)
    requires Inv(st, store) && 0 <= p < PageTableSize
    ensures p in r.pageTable && r.pageTable[p] < FrameCount && r.pageTable[p] < |r.memory|
    ensures r.memory[r.pageTable[p]] == PageBytes(store, p)
    ensures r.tlb == st.tlb && r.translated == st.translated && r.tlbHits == st.tlbHits
    ensures r.clock.faults == if st.valid[p] then st.clock.faults else st.clock.faults + 1
  {
    if st.valid[p] then st
    else
      LoadPageKeepsCoherent(st, store, p);
      LoadPage(st, store, p)
  }

  /** The state after the valid check is coherent. */
  lemma LoadedCoherent(st: MmuState, store: seq<byte>, p: int)
    requires Inv(st, store) && 0 <= p < PageTableSize
    ensures Coherent(Loaded(st, store, p), store)
  {
    if !st.valid[p] {
      LoadPageKeepsCoherent(st, store, p);
    }
  }

  /** Every step keeps the invariant. */
  lemma StepKeepsInv(st: MmuState, store: seq<byte>, address: i32)
    requires Inv(st, store)
    ensures Inv(Step(st, store, address).state, store)
  {
    var p := PageNumber(address);
    if Lookup(st.tlb.pages, st.tlb.frames, p).None? {
      LoadedCoherent(st, store, p);
    }
  }

  /**
   * The counters (src/main.rs:91-93, 109, 152): one more address is
   * translated; a TLB hit counts one hit and no fault; a miss counts no hit,
   * and one page fault exactly when the page was not valid.
   */
  lemma StepCounts(st: MmuState, store: seq<byte>, address: i32)
    requires Inv(st, store)
    ensures var r := Step(st, store, address).state;
            var p := PageNumber(address);
            var hit := Lookup(st.tlb.pages, st.tlb.frames, p).Some?;
            && r.translated == st.translated + 1
            && r.tlbHits == (if hit then st.tlbHits + 1 else st.tlbHits)
            && r.clock.faults == (if !hit && !st.valid[p] then st.clock.faults + 1 else st.clock.faults)
  {
    var p := PageNumber(address);
    if Lookup(st.tlb.pages, st.tlb.frames, p).None? && !st.valid[p] {
      LoadPageKeepsCoherent(st, store, p);
    }
  }

  /**
   * A TLB hit (src/main.rs:91-93, 133-134) reads the hit frame at the offset
   * and changes nothing but the two counters.  Only when the entry still
   * agrees with the page table is the byte the backing store's.
   */
  lemma HitReadsFrame(st: MmuState, store: seq<byte>, address: i32)
    requires Inv(st, store) && Lookup(st.tlb.pages, st.tlb.frames, PageNumber(address)).Some?
    ensures var p := PageNumber(address);
            var off := Offset(address);
            var f := Lookup(st.tlb.pages, st.tlb.frames, p).value;
            var r := Step(st, store, address);
            && 0 <= f < FrameCount
            && r.physicalAddress == f * Chunk + off
            && r.value == st.memory[f][off]
            && r.state == st.(tlbHits := st.tlbHits + 1, translated := st.translated + 1)
            && (p in st.pageTable && st.pageTable[p] == f ==> r.value == AsSigned(store[p * Chunk + off]))
  {
    var p := PageNumber(address);
    var off := Offset(address);
    var f := Lookup(st.tlb.pages, st.tlb.frames, p).value;
    HitFrameInRange(st.tlb, p);
    assert Step(st, store, address) ==
           StepResult(st.(tlbHits := st.tlbHits + 1, translated := st.translated + 1),
                      f * Chunk + off, st.memory[f][off]);
    if p in st.pageTable && st.pageTable[p] == f {
      assert st.memory[f] == PageBytes(store, p);
    }
  }

  /**
   * A TLB miss (src/main.rs:94-134) leaves the page valid, adds
   * (page, frame) to the TLB, where the next search finds it, gives the
   * physical address frame * 256 + offset and reads the backing store's byte
   * at page * 256 + offset.
   */
  lemma MissReadsBackingStore(st: MmuState, store: seq<byte>, address: i32)
    requires Inv(st, store) && Lookup(st.tlb.pages, st.tlb.frames, PageNumber(address)).None?
    ensures var p := PageNumber(address);
            var off := Offset(address);
            var r := Step(st, store, address);
            && p in r.state.pageTable && r.state.pageTable[p] < FrameCount
            && r.physicalAddress == r.state.pageTable[p] * Chunk + off
            && r.value == AsSigned(store[p * Chunk + off])
            && r.state.tlb == Added(st.tlb, p, r.state.pageTable[p])
            && Lookup(r.state.tlb.pages, r.state.tlb.frames, p) == Some(r.state.pageTable[p])
  {
    var p := PageNumber(address);
    var off := Offset(address);
    var loaded := Loaded(st, store, p);
    LookupAfterAdd(st.tlb, p, loaded.pageTable[p]);
  }

  /**
   * A worked case: with a backing store whose byte `k` of page 78 is
   * `(78 + k) mod 256`, address 19986 is page 78, offset 18, and on a TLB
   * miss it reads the value 96 from physical address frame * 256 + 18.
   */
  lemma MissExample(st: MmuState, store: seq<byte>)
    requires Inv(st, store)
    requires forall i :: 78 * Chunk <= i < 79 * Chunk ==> store[i] == (i - 78 * Chunk + 78) % 256
    requires Lookup(st.tlb.pages, st.tlb.frames, 78).None?
    ensures PageNumber(19986) == 78 && Offset(19986) == 18
    ensures var r := Step(st, store, 19986);
            r.value == 96 && r.physicalAddress == r.state.pageTable[78] * 256 + 18
  {
    assert PageNumber(19986) == 78 && Offset(19986) == 18;
    MissReadsBackingStore(st, store, 19986);
    assert store[78 * 256 + 18] == 96;
  }

  /** Frame f's byte at an offset lies in physical memory and keeps the offset. */
  lemma FrameAddress(address: int, f: int, offset: int)
    requires 0 <= f < FrameCount && 0 <= offset < Chunk && address == f * Chunk + offset
    ensures 0 <= address < FrameCount * Chunk
    ensures address % Chunk == offset
  {
    assert address / Chunk == f;
  }

  /** Every physical address lies in physical memory and keeps the logical offset. */
  lemma PhysicalAddressInRange(st: MmuState, store: seq<byte>, address: i32)
    requires Inv(st, store)
    ensures var r := Step(st, store, address);
            0 <= r.physicalAddress < FrameCount * Chunk && r.physicalAddress % Chunk == Offset(address)
  {
    var p := PageNumber(address);
    var off := Offset(address);
    var r := Step(st, store, address);
    match Lookup(st.tlb.pages, st.tlb.frames, p)
    case Some(f) =>
      HitReadsFrame(st, store, address);
      FrameAddress(r.physicalAddress, f, off);
    case None =>
      MissReadsBackingStore(st, store, address);
      FrameAddress(r.physicalAddress, r.state.pageTable[p], off);
  }

  /**
   * A fault during warm-up (src/main.rs:111-113) takes frame
   * next_free_frame, which then grows by one; the CLOCK engine reports no
   * eviction and no page-table entry is invalidated.
   */
  lemma WarmUpFault(st: MmuState, store: seq<byte>, address: i32)
    requires Inv(st, store)
    requires Lookup(st.tlb.pages, st.tlb.frames, PageNumber(address)).None?
    requires !st.valid[PageNumber(address)] && st.nextFreeFrame < FrameCount
    ensures var p := PageNumber(address);
            var r := Step(st, store, address).state;
            && r.nextFreeFrame == st.nextFreeFrame + 1
            && Inserted(st.clock, p).evicted == None
            && r.pageTable == st.pageTable[p := st.nextFreeFrame]
            && (forall q :: q in st.pageTable ==> q in r.pageTable)
  {
    var p := PageNumber(address);
    NotResidentWhenInvalid(st.pageTable, st.valid, st.clock.frames, p);
    WarmInsert(st.clock, p, st.nextFreeFrame);
  }

  /**
   * A fault after warm-up (src/main.rs:114-126): the CLOCK engine evicts a
   * valid page other than the new one; its entry is removed and marked
   * invalid, and the new page is bound, valid, to exactly the frame the
   * evicted page had, which is the CLOCK slot the new page now occupies.
   */
  lemma EvictingFault(st: MmuState, store: seq<byte>, address: i32)
    requires Inv(st, store)
    requires Lookup(st.tlb.pages, st.tlb.frames, PageNumber(address)).None?
    requires !st.valid[PageNumber(address)] && st.nextFreeFrame == FrameCount
    ensures var p := PageNumber(address);
            var ins := Inserted(st.clock, p);
            var r := Step(st, store, address).state;
            && ins.evicted.Some?
            && ins.evicted.value in st.pageTable && ins.evicted.value != p
            && r.pageTable == (st.pageTable - {ins.evicted.value})[p := st.pageTable[ins.evicted.value]]
            && r.valid == st.valid[ins.evicted.value := false][p := true]
            && r.clock == ins.state
            && Occupant(ins.state.frames[st.pageTable[ins.evicted.value]]) == Some(p)
            && r.nextFreeFrame == FrameCount
  {
    var p := PageNumber(address);
    NotResidentWhenInvalid(st.pageTable, st.valid, st.clock.frames, p);
    FaultWhenFullEvicts(st, store, p);
    InsertFault(st.clock, p);
  }

  /** An injective map into `0 .. n-1` has at most `n` keys. */
  lemma {:induction false} InjectiveBound(m: map<int, nat>, n: nat)
    requires forall k :: k in m ==> m[k] < n
    requires forall k, l :: k in m && l in m && k != l ==> m[k] != m[l]
    ensures |m| <= n
    decreases |m|
  {
    if m != map[] {
      var keys := m.Keys;
      assert |keys| == |m| && |keys| > 0;
      assert exists k :: k in keys by {
        if forall k :: k !in keys {
          assert false;
        }
      }
      var k :| k in keys;
      var rest := m - {k};
      assert rest.Keys == m.Keys - {k};
      assert |rest| == |m| - 1;
      var last := m[k];
      var squeezed := map l | l in rest :: if rest[l] == n - 1 then last else rest[l];
      assert squeezed.Keys == rest.Keys;
      InjectiveBound(squeezed, n - 1);
    }
  }

  /**
   * What the invariant gives after every step (src/main.rs:109-126): a page
   * is valid exactly when the CLOCK engine holds it, a valid page's frame is
   * the slot holding it, no two valid pages share a frame, at most 128 pages
   * are valid, and no page is in two slots.
   */
  lemma InvariantFacts(st: MmuState, store: seq<byte>)
    requires Inv(st, store)
    ensures forall p :: 0 <= p < PageTableSize ==> (st.valid[p] <==> Resident(st.clock.frames, p))
    ensures forall p :: p in st.pageTable ==> Occupant(st.clock.frames[st.pageTable[p]]) == Some(p)
    ensures forall p, q :: p in st.pageTable && q in st.pageTable && p != q ==> st.pageTable[p] != st.pageTable[q]
    ensures |st.pageTable| <= FrameCount
    ensures NoDuplicates(st.clock.frames)
  {
    forall p | 0 <= p < PageTableSize
      ensures st.valid[p] <==> Resident(st.clock.frames, p)
    {
      if !st.valid[p] {
        NotResidentWhenInvalid(st.pageTable, st.valid, st.clock.frames, p);
      } else {
        assert Occupant(st.clock.frames[st.pageTable[p]]) == Some(p);
      }
    }
    InjectiveBound(st.pageTable, FrameCount);
  }

  /** The number of addresses the loop translates: every one but -1 (src/main.rs:83-85). */
  function Translatable(addresses: seq<i32>): (n: nat)
    ensures n <= |addresses|
  {
    if addresses == [] then 0
    else (if addresses[0] == -1 then 0 else 1) + Translatable(addresses[1..])
  }

  /** What a run of the loop produces: the final state and one (physical address, value) per address. */
  datatype RunResult = RunResult(state: MmuState, outputs: seq<(int, i8)>)

  /** The translation loop (src/main.rs:77-153) over already parsed addresses, -1 skipped. */
  function RunAll(st: MmuState, store: seq<byte>, addresses: seq<i32>): (r: RunResult)
    requires Inv(st, store)
    ensures Inv(r.state, store)
    ensures |r.outputs| == Translatable(addresses)
    decreases |addresses|
  {
    if addresses == [] then RunResult(st, [])
    else if addresses[0] == -1 then RunAll(st, store, addresses[1..])
    else
      var r := Step(st, store, addresses[0]);
      StepKeepsInv(st, store, addresses[0]);
      var rest := RunAll(r.state, store, addresses[1..]);
      RunResult(rest.state, [(r.physicalAddress, r.value)] + rest.outputs)
  }

  /** The loop at position `i`: skip -1, otherwise translate the address and go on. */
  lemma RunAllAt(st: MmuState, store: seq<byte>, addresses: seq<i32>, i: nat)
    requires Inv(st, store) && i < |addresses|
    ensures addresses[i] == -1 ==> RunAll(st, store, addresses[i..]) == RunAll(st, store, addresses[i + 1..])
    ensures addresses[i] != -1 ==>
              (var r := Step(st, store, addresses[i]);
               StepKeepsInv(st, store, addresses[i]);
               var rest := RunAll(r.state, store, addresses[i + 1..]);
               RunAll(st, store, addresses[i..]) == RunResult(rest.state, [(r.physicalAddress, r.value)] + rest.outputs))
  {
    assert addresses[i..][0] == addresses[i] && addresses[i..][1..] == addresses[i + 1..];
  }

  /**
   * Over a whole run, one address is counted per translatable input, the
   * page-fault and TLB-hit counters never decrease, and hits and faults
   * together never outnumber the translated addresses.
   */
  lemma {:induction false} RunCounts(st: MmuState, store: seq<byte>, addresses: seq<i32>)
    requires Inv(st, store)
    ensures var r := RunAll(st, store, addresses).state;
            && r.translated == st.translated + Translatable(addresses)
            && r.clock.faults >= st.clock.faults
            && r.tlbHits >= st.tlbHits
            && r.tlbHits + r.clock.faults <= r.translated
    decreases |addresses|
  {
    if addresses != [] {
      if addresses[0] == -1 {
        RunCounts(st, store, addresses[1..]);
      } else {
        StepCounts(st, store, addresses[0]);
        StepKeepsInv(st, store, addresses[0]);
        RunCounts(Step(st, store, addresses[0]).state, store, addresses[1..]);
      }
    }
  }

}
