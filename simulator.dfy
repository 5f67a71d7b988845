/**
 * The simulator's state as `main` in src/main.rs keeps it, updated in place
 * address by address, and proved to follow the value-level model of module
 * `Translation`.
 */
module Simulator {
  import opened Wrappers
  import opened ClockReplacement
  import opened Tlb
  import opened Translation

  /**
   * The simulator's state as `main` keeps it: the page table, its valid
   * flags and physical memory, the next free frame, the CLOCK engine, the
   * TLB and the two counters of `main`.  The backing store's contents are
   * what `backing_store` reads.
   */
  class Translator {
    const backingStore: seq<byte>
    var pageTable: map<int, nat>
    const pageTableValid: array<bool>
    const physicalMemory: array<seq<i8>>
    var nextFreeFrame: nat
    const lru: Clock
    const tlb: TLB
    var translatedCount: nat
    var tlbHits: nat

    ghost predicate Valid()
      reads this, pageTableValid, physicalMemory, lru, lru.frames, tlb, tlb.pageNumbers, tlb.frameNumbers
    {
      && lru.Valid() && lru.capacity == FrameCount
      && tlb.Valid()
      && Inv(State(), backingStore)
    }

    /** The state as a value. */
    function State(): MmuState
      reads this, pageTableValid, physicalMemory, lru, lru.frames, tlb, tlb.pageNumbers, tlb.frameNumbers
    {
      MmuState(pageTable, pageTableValid[..], physicalMemory[..], nextFreeFrame,
               lru.State(), tlb.State(), translatedCount, tlbHits)
    }

    /** The setup of src/main.rs:65-73. */
    constructor (backingStore: seq<byte>)
      requires |backingStore| >= BackingStoreSize
      ensures Valid() && this.backingStore == backingStore
      ensures fresh(pageTableValid) && fresh(physicalMemory) && fresh(lru) && fresh(lru.frames)
      ensures fresh(tlb) && fresh(tlb.pageNumbers) && fresh(tlb.frameNumbers)
      ensures State() == Startup()
    {
      this.backingStore := backingStore;
      pageTable := map[];
      pageTableValid := new bool[PageTableSize](_ => false);
      physicalMemory := new seq<i8>[FrameCount](_ => seq(Chunk, _ => 0));
      nextFreeFrame := 0;
      lru := new Clock(FrameCount);
      tlb := new TLB();
      translatedCount := 0;
      tlbHits := 0;
      new;
      assert pageTableValid[..] == Startup().valid;
      assert physicalMemory[..] == Startup().memory;
      StartupInv(backingStore);
    }

    /**
     * The page-fault branch (src/main.rs:95-127): follows `LoadPage`.  The
     * panic of line 120 is the `assert false`, which `FullFaultState` (through
     * `FaultWhenFullEvicts`) shows is never reached.
     */
    method PageIn(pageNumber: int)
      requires Valid() && 0 <= pageNumber < PageTableSize && !pageTableValid[pageNumber]
      modifies this, pageTableValid, physicalMemory, lru, lru.frames
      ensures lru.Valid() && lru.capacity == FrameCount
      ensures State() == LoadPage(old(State()), backingStore, pageNumber)
    {
      ghost var st := State();
      var buffer := PageBytes(backingStore, pageNumber);
      var evictedPage := lru.Insert(pageNumber);
      var frameNumber: nat;
      if nextFreeFrame < FrameCount {
        WarmFaultState(st, backingStore, pageNumber);
        frameNumber := nextFreeFrame;
        nextFreeFrame := nextFreeFrame + 1;
      } else {
        FullFaultState(st, backingStore, pageNumber);
        match evictedPage {
          case Some(evicted) =>
            frameNumber := pageTable[evicted];
            pageTableValid[evicted] := false;
            pageTable := pageTable - {evicted};
            assert pageTableValid[..] == st.valid[evicted := false];
          case None =>
            assert false;
        }
      }
      ghost var released := pageTableValid[..];
      physicalMemory[frameNumber] := buffer;
      pageTable := pageTable[pageNumber := frameNumber];
      pageTableValid[pageNumber] := true;
      assert physicalMemory[..] == st.memory[frameNumber := buffer];
      assert pageTableValid[..] == released[pageNumber := true];
    }

    /**
     * A TLB miss (src/main.rs:94-131): load the page if it is not valid,
     * then take its frame from the page table and add the pair to the TLB.
     */
    method TranslateMiss(pageNumber: int) returns (frameNumber: nat)
      requires Valid() && 0 <= pageNumber < PageTableSize
      modifies this, pageTableValid, physicalMemory, lru, lru.frames, tlb, tlb.pageNumbers, tlb.frameNumbers
      ensures lru.Valid() && lru.capacity == FrameCount && tlb.Valid()
      ensures var loaded := Loaded(old(State()), backingStore, pageNumber);
              && frameNumber == loaded.pageTable[pageNumber]
              && State() == loaded.(tlb := Added(loaded.tlb, pageNumber, frameNumber))
    {
      ghost var st := State();
      if !pageTableValid[pageNumber] {
        PageIn(pageNumber);
      }
      assert State() == Loaded(st, backingStore, pageNumber);
      frameNumber := pageTable[pageNumber];
      tlb.Add(pageNumber, frameNumber);
    }

    /**
     * One iteration of the translation loop (src/main.rs:87-134, 152):
     * follows `Step` exactly.
     */
    method Translate(logicalAddress: i32) returns (physicalAddress: int, value: i8)
      requires Valid()
      modifies this, pageTableValid, physicalMemory, lru, lru.frames, tlb, tlb.pageNumbers, tlb.frameNumbers
      ensures Valid()
      ensures StepResult(State(), physicalAddress, value) == Step(old(State()), backingStore, logicalAddress)
    {
      ghost var st := State();
      var pageNumber := PageNumber(logicalAddress);
      var offset := Offset(logicalAddress);
      var frameNumber: int;

      var found := tlb.Search(pageNumber);
      match found {
        case Some(frame) =>
          HitReadsFrame(st, backingStore, logicalAddress);
          tlbHits := tlbHits + 1;
          frameNumber := frame;
        case None =>
          frameNumber := TranslateMiss(pageNumber);
      }
      ghost var step := Step(st, backingStore, logicalAddress);
      assert State().(translated := st.translated + 1) == step.state;
      assert frameNumber * Chunk + offset == step.physicalAddress;

      value := physicalMemory[frameNumber][offset];
      physicalAddress := frameNumber * Chunk + offset;
      translatedCount := translatedCount + 1;
      StepKeepsInv(st, backingStore, logicalAddress);
      assert State() == step.state;
    }

    /**
     * The whole loop (src/main.rs:77-153) over already parsed addresses: an
     * address of -1 is skipped, every other one is translated in order.
     */
    method Run(addresses: seq<i32>) returns (outputs: seq<(int, i8)>)
      requires Valid()
      modifies this, pageTableValid, physicalMemory, lru, lru.frames, tlb, tlb.pageNumbers, tlb.frameNumbers
      ensures Valid()
      ensures RunResult(State(), outputs) == RunAll(old(State()), backingStore, addresses)
    {
      ghost var total := RunAll(State(), backingStore, addresses);
      outputs := [];
      var i := 0;
      while i < |addresses|
        invariant 0 <= i <= |addresses| && Valid()
        invariant var rest := RunAll(State(), backingStore, addresses[i..]);
                  total == RunResult(rest.state, outputs + rest.outputs)
      {
        RunAllAt(State(), backingStore, addresses, i);
        if addresses[i] != -1 {
          var physicalAddress, value := Translate(addresses[i]);
          outputs := outputs + [(physicalAddress, value)];
        }
        i := i + 1;
      }
    }

    /**
     * The closing counters (src/main.rs:155-165): addresses translated, page
     * faults and TLB hits, where hits and faults never outnumber translations.
     */
    method Statistics() returns (translated: nat, faults: nat, hits: nat)
      requires Valid()
      ensures translated == translatedCount && faults == lru.pageFaults && hits == tlbHits
      ensures hits + faults <= translated
    {
      translated := translatedCount;
      faults := lru.PageFaultCount();
      hits := tlbHits;
    }
  }
}
