/**
 * The CLOCK (second-chance) page-replacement engine of src/clock.rs.
 *
 * The engine keeps `capacity` frame slots, each empty or holding a page with a
 * reference bit, a circular hand and a page-fault counter.  The first half of
 * this module states its behaviour on values (`Sweep`, `Inserted`) and proves
 * what the sweep does (`SweepClosedForm`); the class `Clock` at the end is the
 * engine itself, updating its slot array in place, and is proved to agree
 * with `Inserted`.
 */
module ClockReplacement {
  import opened Wrappers
  import opened Ring

  /** A resident page: its number and its reference (second-chance) bit. */
  datatype Page = Page(number: int, reference: bool)

  /** A frame slot: `None` while the frame has never been filled. */
  type Slot = Option<Page>

  /** The page number a slot holds, if any. */
  function Occupant(s: Slot): Option<int>
  {
    match s
    case None => None
    case Some(page) => Some(page.number)
  }

  /** The sweep stops at a slot that is empty or whose reference bit is clear. */
  predicate Stoppable(s: Slot)
  {
    s.None? || !s.value.reference
  }

  /** The slot after the sweep has given it its second chance. */
  function ClearBit(s: Slot): Slot
  {
    match s
    case None => None
    case Some(page) => Some(Page(page.number, false))
  }

  /** Whether some slot holds page `p`. */
  ghost predicate Resident(frames: seq<Slot>, p: int)
  {
    exists i :: 0 <= i < |frames| && Occupant(frames[i]) == Some(p)
  }

  /** No page number is held by two slots. */
  ghost predicate NoDuplicates(frames: seq<Slot>)
  {
    forall i, j :: 0 <= i < |frames| && 0 <= j < |frames| && i != j && frames[i].Some? ==>
      Occupant(frames[i]) != Occupant(frames[j])
  }

  /** The engine's state as a value: slots, hand and fault counter. */
  datatype ClockState = ClockState(frames: seq<Slot>, hand: nat, faults: nat)
  {
    /** The hand points at a slot (so capacity is positive). */
    predicate Valid()
    {
      hand < |frames|
    }
  }

  /** `Clock::new`: every slot empty, hand at 0, no faults. */
  function Initial(capacity: nat): (s: ClockState)
    requires capacity > 0
    ensures s.Valid() && |s.frames| == capacity && s.hand == 0 && s.faults == 0
    ensures forall i :: 0 <= i < capacity ==> s.frames[i] == None
  {
    ClockState(seq(capacity, _ => None), 0, 0)
  }

  /** `advance_hand`: one step clockwise, wrapping to slot 0 after the last. */
  function Next(hand: nat, n: nat): (h: nat)
    requires hand < n
    ensures h < n
    ensures h == if hand + 1 < n then hand + 1 else 0
  {
    (hand + 1) % n
  }

  /** Number of occupied slots whose reference bit is set: the sweep's measure. */
  function RefCount(s: seq<Slot>): nat
  {
    if |s| == 0 then 0
    else (if s[0].Some? && s[0].value.reference then 1 else 0) + RefCount(s[1..])
  }

  /** Giving one set bit its second chance lowers the measure by one. */
  lemma {:induction false} RefCountClear(s: seq<Slot>, i: nat)
    requires i < |s| && s[i].Some? && s[i].value.reference
    ensures RefCount(s[i := ClearBit(s[i])]) == RefCount(s) - 1
  {
    if i == 0 {
      assert s[i := ClearBit(s[i])][1..] == s[1..];
    } else {
      assert s[i := ClearBit(s[i])][1..] == s[1..][i - 1 := ClearBit(s[i])];
      RefCountClear(s[1..], i - 1);
    }
  }

  /**
   * The first index at or after `from` whose slot holds page `p`: the scan of
   * src/clock.rs:25-32 that looks for an already resident page.
   */
  function Find(frames: seq<Slot>, p: int, from: nat): (r: Option<nat>)
    requires from <= |frames|
    ensures r.Some? ==> from <= r.value < |frames| && Occupant(frames[r.value]) == Some(p)
    ensures r.Some? ==> forall j :: from <= j < r.value ==> Occupant(frames[j]) != Some(p)
    ensures r.None? ==> forall j :: from <= j < |frames| ==> Occupant(frames[j]) != Some(p)
    decreases |frames| - from
  {
    if from == |frames| then None
    else if Occupant(frames[from]) == Some(p) then Some(from)
    else Find(frames, p, from + 1)
  }

  /** Where the sweep ends: new slots, new hand and the evicted page, if any. */
  datatype SweepResult = SweepResult(frames: seq<Slot>, hand: nat, evicted: Option<int>)

  /**
   * The sweep stopping at slot `at`: the slot receives `(p, true)`, the hand
   * moves past it, and whatever page the slot held is reported as evicted.
   */
  function Land(frames: seq<Slot>, at: nat, p: int): (r: SweepResult)
    requires at < |frames|
    ensures |r.frames| == |frames| && r.frames[at] == Some(Page(p, true))
    ensures forall i :: 0 <= i < |frames| && i != at ==> r.frames[i] == frames[i]
    ensures r.hand < |frames| && r.hand == if at + 1 < |frames| then at + 1 else 0
    ensures r.evicted.Some? <==> frames[at].Some?
    ensures frames[at].Some? ==> r.evicted.value == frames[at].value.number
  {
    SweepResult(frames[at := Some(Page(p, true))], Next(at, |frames|), Occupant(frames[at]))
  }

  /**
   * The `loop` of src/clock.rs:36-61, one iteration per call: an empty slot or
   * a clear bit ends the sweep; a set bit is cleared and the hand moves on.
   * It terminates because every iteration that goes on clears one set bit.
   */
  function Sweep(frames: seq<Slot>, hand: nat, p: int): (r: SweepResult)
    requires hand < |frames|
    ensures |r.frames| == |frames| && r.hand < |frames|
    decreases RefCount(frames)
  {
    match frames[hand]
    case None => Land(frames, hand, p)
    case Some(page) =>
      if !page.reference then Land(frames, hand, p)
      else
        RefCountClear(frames, hand);
        Sweep(frames[hand := Some(Page(page.number, false))], Next(hand, |frames|), p)
  }

  /**
   * How many slots the sweep passes before it stops, counting clockwise from
   * `hand` starting at `d`: the first stoppable slot, or a full turn when
   * every slot holds a page with its bit set.
   */
  function FirstStop(frames: seq<Slot>, hand: nat, d: nat): (k: nat)
    requires hand < |frames| && d <= |frames|
    ensures d <= k <= |frames|
    ensures k < |frames| ==> Stoppable(frames[Clockwise(hand, k, |frames|)])
    ensures forall e :: d <= e < k ==> !Stoppable(frames[Clockwise(hand, e, |frames|)])
    decreases |frames| - d
  {
    if d == |frames| then d
    else if Stoppable(frames[Clockwise(hand, d, |frames|)]) then d
    else FirstStop(frames, hand, d + 1)
  }

  /** The slots after the first `k` slots clockwise from `hand` had their bits cleared. */
  function ClearPass(frames: seq<Slot>, hand: nat, k: nat): (r: seq<Slot>)
    requires hand < |frames|
    ensures |r| == |frames|
  {
    seq(|frames|, i requires 0 <= i < |frames| =>
      if Distance(hand, i, |frames|) < k then ClearBit(frames[i]) else frames[i])
  }

  /** The slot in which a sweep started at `hand` places the new page. */
  function LandingSlot(frames: seq<Slot>, hand: nat): (at: nat)
    requires hand < |frames|
    ensures at < |frames|
  {
    Clockwise(hand, FirstStop(frames, hand, 0), |frames|)
  }

  /** Passing `k` slots with set bits is the same as clearing them and restarting `k` slots on. */
  lemma {:induction false} SweepSkip(frames: seq<Slot>, hand: nat, p: int, k: nat)
    requires hand < |frames| && k <= |frames|
    requires forall e :: 0 <= e < k ==> !Stoppable(frames[Clockwise(hand, e, |frames|)])
    ensures Sweep(frames, hand, p) == Sweep(ClearPass(frames, hand, k), Clockwise(hand, k, |frames|), p)
  {
    var n := |frames|;
    if k == 0 {
      assert ClearPass(frames, hand, 0) == frames;
    } else {
      SweepSkip(frames, hand, p, k - 1);
      var c := ClearPass(frames, hand, k - 1);
      var at := Clockwise(hand, k - 1, n);
      DistanceOfClockwise(hand, k - 1, n);
      assert c[at] == frames[at];
      var page := frames[at].value;
      assert page.reference;
      assert Sweep(c, at, p) == Sweep(c[at := Some(Page(page.number, false))], Next(at, n), p);
      forall i | 0 <= i < n
        ensures c[at := Some(Page(page.number, false))][i] == ClearPass(frames, hand, k)[i]
      {
        if i != at {
          assert Distance(hand, i, n) != k - 1;
        }
      }
      assert c[at := Some(Page(page.number, false))] == ClearPass(frames, hand, k);
      assert Next(at, n) == Clockwise(hand, k, n);
    }
  }

  /**
   * What the sweep of src/clock.rs:36-61 does, in closed form.  With `k` the
   * distance to the first slot, clockwise from the hand, that is empty or has
   * its bit clear (or a full turn, if there is none): the `k` slots passed have
   * their bits cleared, the new page lands `k` slots on, where the slot is
   * then stoppable, and whatever page it held is the victim.  Since `k` is at
   * most the capacity, the sweep ends within two passes.
   */
  lemma SweepClosedForm(frames: seq<Slot>, hand: nat, p: int)
    requires hand < |frames|
    ensures FirstStop(frames, hand, 0) <= |frames|
    ensures var k := FirstStop(frames, hand, 0);
            var cleared := ClearPass(frames, hand, k);
            var at := Clockwise(hand, k, |frames|);
            Stoppable(cleared[at]) && Sweep(frames, hand, p) == Land(cleared, at, p)
  {
    var n := |frames|;
    var k := FirstStop(frames, hand, 0);
    SweepSkip(frames, hand, p, k);
    var cleared := ClearPass(frames, hand, k);
    var at := Clockwise(hand, k, n);
    if k < n {
      DistanceOfClockwise(hand, k, n);
      assert cleared[at] == frames[at];
    } else {
      assert at == hand && Distance(hand, hand, n) == 0;
      assert !Stoppable(frames[Clockwise(hand, 0, n)]);
    }
  }

  /**
   * The sweep seen through page numbers: the landing slot ends up holding
   * `(p, true)`, the hand stops just past it, the evicted page is the one the
   * landing slot held before, and every other slot holds the page it held.
   */
  lemma SweepOccupants(frames: seq<Slot>, hand: nat, p: int)
    requires hand < |frames|
    ensures var r := Sweep(frames, hand, p);
            var at := LandingSlot(frames, hand);
            && |r.frames| == |frames|
            && r.frames[at] == Some(Page(p, true))
            && r.hand == Next(at, |frames|)
            && r.evicted == Occupant(frames[at])
            && forall i :: 0 <= i < |frames| && i != at ==> Occupant(r.frames[i]) == Occupant(frames[i])
  {
    SweepClosedForm(frames, hand, p);
    var k := FirstStop(frames, hand, 0);
    var cleared := ClearPass(frames, hand, k);
    assert forall i :: 0 <= i < |frames| ==> Occupant(cleared[i]) == Occupant(frames[i]);
  }

  /** What `insert` returns: the new state and the evicted page, if any. */
  datatype InsertResult = InsertResult(state: ClockState, evicted: Option<int>)

  /**
   * `Clock::insert` (src/clock.rs:24-62) on values: a resident page has its
   * reference bit set; any other page is a fault and is placed by the sweep.
   */
  function Inserted(s: ClockState, p: int): (r: InsertResult)
    requires s.Valid()
    ensures r.state.Valid() && |r.state.frames| == |s.frames|
    ensures r.state.faults == if Resident(s.frames, p) then s.faults else s.faults + 1
  {
    match Find(s.frames, p, 0)
    case Some(i) => InsertResult(s.(frames := s.frames[i := Some(Page(p, true))]), None)
    case None =>
      var sw := Sweep(s.frames, s.hand, p);
      InsertResult(ClockState(sw.frames, sw.hand, s.faults + 1), sw.evicted)
  }

  /**
   * Inserting a resident page only sets the reference bit of the slot that
   * holds it: nothing is evicted, and the hand, the fault counter and every
   * other slot stay as they were.
   */
  lemma InsertResident(s: ClockState, p: int, i: nat)
    requires s.Valid() && NoDuplicates(s.frames)
    requires i < |s.frames| && Occupant(s.frames[i]) == Some(p)
    ensures Inserted(s, p) == InsertResult(ClockState(s.frames[i := Some(Page(p, true))], s.hand, s.faults), None)
  {
    var f := Find(s.frames, p, 0);
    assert f.Some? && f.value == i;
  }

  /**
   * Inserting a page that is not resident counts one fault, puts `(p, true)`
   * in the landing slot, leaves the hand just past it, reports whatever page
   * that slot held, and leaves every other slot holding the page it held.
   */
  lemma InsertFault(s: ClockState, p: int)
    requires s.Valid() && !Resident(s.frames, p)
    ensures var r := Inserted(s, p);
            var at := LandingSlot(s.frames, s.hand);
            && r.state.faults == s.faults + 1
            && r.state.frames[at] == Some(Page(p, true))
            && r.state.hand == Next(at, |s.frames|)
            && r.evicted == Occupant(s.frames[at])
            && forall i :: 0 <= i < |s.frames| && i != at ==>
                 Occupant(r.state.frames[i]) == Occupant(s.frames[i])
  {
    SweepOccupants(s.frames, s.hand, p);
  }

  /**
   * The second-chance sweep slot by slot, for a page that is not resident.
   * With `k` the number of slots passed before the sweep stops: each slot
   * passed held a page with its bit set and now holds it with the bit clear;
   * the landing slot is the first slot clockwise from the hand that is empty
   * or has a clear bit (or the hand's own slot, reached again with its bit
   * now clear, when every bit was set), so a page whose bit is set when the
   * hand reaches it is never evicted; slots not reached are untouched.
   */
  lemma InsertFaultSlots(s: ClockState, p: int)
    requires s.Valid() && !Resident(s.frames, p)
    ensures var n := |s.frames|;
            var k := FirstStop(s.frames, s.hand, 0);
            var at := Clockwise(s.hand, k, n);
            var r := Inserted(s, p);
            && k <= n
            && (forall e :: 0 <= e < k ==>
                  s.frames[Clockwise(s.hand, e, n)].Some? && s.frames[Clockwise(s.hand, e, n)].value.reference)
            && (k < n ==> Stoppable(s.frames[at]))
            && (k == n ==> at == s.hand)
            && r.state.frames[at] == Some(Page(p, true))
            && r.evicted == Occupant(s.frames[at])
            && (forall i :: 0 <= i < n && i != at ==>
                  r.state.frames[i] == if Distance(s.hand, i, n) < k then ClearBit(s.frames[i]) else s.frames[i])
  {
    var n := |s.frames|;
    SweepClosedForm(s.frames, s.hand, p);
    var k := FirstStop(s.frames, s.hand, 0);
    var at := Clockwise(s.hand, k, n);
    if k < n {
      DistanceOfClockwise(s.hand, k, n);
    } else {
      assert Distance(s.hand, s.hand, n) == 0;
    }
  }

  /** After `insert`, the page occupies exactly one slot, and no page is held twice. */
  lemma InsertKeepsPagesDistinct(s: ClockState, p: int)
    requires s.Valid() && NoDuplicates(s.frames)
    ensures var r := Inserted(s, p);
            NoDuplicates(r.state.frames) && Resident(r.state.frames, p)
  {
    var r := Inserted(s, p);
    var n := |s.frames|;
    match Find(s.frames, p, 0)
    case Some(i) =>
      assert forall j :: 0 <= j < n ==> Occupant(r.state.frames[j]) == Occupant(s.frames[j]);
      assert Occupant(r.state.frames[i]) == Some(p);
    case None =>
      InsertFault(s, p);
      var at := LandingSlot(s.frames, s.hand);
      assert Occupant(r.state.frames[at]) == Some(p);
      forall i, j | 0 <= i < n && 0 <= j < n && i != j && r.state.frames[i].Some?
        ensures Occupant(r.state.frames[i]) != Occupant(r.state.frames[j])
      {
        if i != at && j != at {
          assert Occupant(r.state.frames[i]) == Occupant(s.frames[i]);
          assert Occupant(r.state.frames[j]) == Occupant(s.frames[j]);
          assert s.frames[i].Some?;
        } else if i == at {
          assert Occupant(r.state.frames[j]) == Occupant(s.frames[j]);
        } else {
          assert Occupant(r.state.frames[i]) == Occupant(s.frames[i]);
        }
      }
  }

  /**
   * When every slot is filled, a fault evicts exactly one page: the one in the
   * landing slot, which is no longer resident afterwards, while every slot
   * stays filled.
   */
  lemma FullClockEvicts(s: ClockState, p: int)
    requires s.Valid() && NoDuplicates(s.frames) && !Resident(s.frames, p)
    requires forall i :: 0 <= i < |s.frames| ==> s.frames[i].Some?
    ensures var r := Inserted(s, p);
            && r.evicted.Some?
            && r.evicted == Occupant(s.frames[LandingSlot(s.frames, s.hand)])
            && !Resident(r.state.frames, r.evicted.value)
            && forall i :: 0 <= i < |s.frames| ==> r.state.frames[i].Some?
  {
    InsertFault(s, p);
    var r := Inserted(s, p);
    var at := LandingSlot(s.frames, s.hand);
    var victim := s.frames[at].value.number;
    forall i | 0 <= i < |s.frames|
      ensures Occupant(r.state.frames[i]) != Some(victim) && r.state.frames[i].Some?
    {
      if i != at {
        assert Occupant(r.state.frames[i]) == Occupant(s.frames[i]);
      } else {
        assert !Resident(s.frames, p);
      }
    }
  }

  /** Slots `0 .. k-1` are filled and the rest are empty. */
  ghost predicate FilledUpTo(frames: seq<Slot>, k: nat)
  {
    forall i :: 0 <= i < |frames| ==> (frames[i].Some? <==> i < k)
  }

  /**
   * While the first `k` slots are filled, the rest empty and the hand at
   * slot `k`, a fault fills slot `k` at once and evicts nothing.
   */
  lemma WarmInsert(s: ClockState, p: int, k: nat)
    requires s.Valid() && k < |s.frames| && s.hand == k
    requires FilledUpTo(s.frames, k) && !Resident(s.frames, p)
    ensures Inserted(s, p) ==
            InsertResult(ClockState(s.frames[k := Some(Page(p, true))], Next(k, |s.frames|), s.faults + 1), None)
  {
  }

  /** The states and eviction reports of a run of inserts. */
  datatype Trace = Trace(state: ClockState, evictions: seq<Option<int>>)

  /** `insert` applied to each page of `ps` in turn. */
  function InsertAll(s: ClockState, ps: seq<int>): (t: Trace)
    requires s.Valid()
    ensures t.state.Valid() && |t.state.frames| == |s.frames| && |t.evictions| == |ps|
  {
    if |ps| == 0 then Trace(s, [])
    else
      var t := InsertAll(s, ps[..|ps| - 1]);
      var r := Inserted(t.state, ps[|ps| - 1]);
      Trace(r.state, t.evictions + [r.evicted])
  }

  /** The fault counter never decreases, and grows by at most one per insert. */
  lemma {:induction false} FaultsNeverDecrease(s: ClockState, ps: seq<int>)
    requires s.Valid()
    ensures s.faults <= InsertAll(s, ps).state.faults <= s.faults + |ps|
  {
    if |ps| > 0 {
      FaultsNeverDecrease(s, ps[..|ps| - 1]);
    }
  }

  /** The state after distinct pages `ps` were inserted one per slot from slot 0. */
  function Filled(capacity: nat, ps: seq<int>): (s: ClockState)
    requires 0 < capacity && |ps| <= capacity
    ensures s.Valid() && |s.frames| == capacity
  {
    ClockState(seq(capacity, i requires 0 <= i < capacity =>
                 if i < |ps| then Some(Page(ps[i], true)) else None),
               |ps| % capacity, |ps|)
  }

  /** One more distinct page after `ps`, while a slot is still empty, lands in slot `|ps|`. */
  lemma FillOne(capacity: nat, ps: seq<int>, q: int)
    requires |ps| < capacity && q !in ps
    ensures Inserted(Filled(capacity, ps), q) == InsertResult(Filled(capacity, ps + [q]), None)
  {
    var s := Filled(capacity, ps);
    var k := |ps|;
    assert !Resident(s.frames, q) by {
      forall i | 0 <= i < capacity ensures Occupant(s.frames[i]) != Some(q) {
        if i < k {
          assert s.frames[i] == Some(Page(ps[i], true));
        }
      }
    }
    WarmInsert(s, q, k);
    assert s.frames[k := Some(Page(q, true))] == Filled(capacity, ps + [q]).frames;
  }

  /**
   * From `Clock::new`, the first `capacity` distinct inserts fill slots 0, 1,
   * ... in order, each with its reference bit set, count one fault each and
   * never report an eviction.
   */
  lemma {:induction false} FillsInOrder(capacity: nat, ps: seq<int>)
    requires 0 < capacity && |ps| <= capacity
    requires forall i, j :: 0 <= i < j < |ps| ==> ps[i] != ps[j]
    ensures InsertAll(Initial(capacity), ps) == Trace(Filled(capacity, ps), seq(|ps|, _ => None))
  {
    if |ps| == 0 {
      assert Filled(capacity, ps).frames == Initial(capacity).frames;
    } else {
      var k := |ps| - 1;
      var prefix := ps[..k];
      FillsInOrder(capacity, prefix);
      assert ps[k] !in prefix;
      FillOne(capacity, prefix, ps[k]);
      assert prefix + [ps[k]] == ps;
      var none: Option<int> := None;
      assert seq(k, _ => none) + [none] == seq(|ps|, _ => none);
    }
  }

  /**
   * Once `capacity` distinct pages have filled every slot from `Clock::new`,
   * one more distinct page is a fault that evicts exactly one of them: the
   * first-chance pass clears every bit, the page in slot 0 is the victim and
   * every other page stays in its slot with its bit clear.
   */
  lemma EvictsAfterFill(capacity: nat, ps: seq<int>, q: int)
    requires 0 < capacity && |ps| == capacity
    requires forall i, j :: 0 <= i < j < |ps| ==> ps[i] != ps[j]
    requires q !in ps
    ensures var s := InsertAll(Initial(capacity), ps).state;
            var r := Inserted(s, q);
            && r.evicted == Some(ps[0])
            && r.state.faults == capacity + 1
            && r.state.frames[0] == Some(Page(q, true))
            && r.state.hand == Next(0, capacity)
            && forall i :: 0 < i < capacity ==> r.state.frames[i] == Some(Page(ps[i], false))
  {
    FillsInOrder(capacity, ps);
    var s := Filled(capacity, ps);
    assert !Resident(s.frames, q) by {
      forall i | 0 <= i < capacity ensures Occupant(s.frames[i]) != Some(q) {
        assert s.frames[i] == Some(Page(ps[i], true));
      }
    }
    forall i | 0 <= i < capacity ensures !Stoppable(s.frames[i]) {
      assert s.frames[i] == Some(Page(ps[i], true));
    }
    InsertFaultSlots(s, q);
    forall i | 0 < i < capacity ensures Inserted(s, q).state.frames[i] == Some(Page(ps[i], false)) {
      assert s.frames[i] == Some(Page(ps[i], true));
    }
    InsertFault(s, q);
  }

  /**
   * The engine of src/clock.rs: a fixed array of slots updated in place, the
   * hand and the fault counter.
   */
  class Clock {
    const capacity: nat
    var hand: nat
    const frames: array<Slot>
    var pageFaults: nat

    ghost predicate Valid()
      reads this
    {
      frames.Length == capacity && hand < capacity
    }

    /** The engine's current state as a value. */
    function State(): ClockState
      reads this, frames
    {
      ClockState(frames[..], hand, pageFaults)
    }

    /** `Clock::new` (src/clock.rs:15-22). */
    constructor (capacity: nat)
      requires capacity > 0
      ensures Valid() && fresh(frames) && this.capacity == capacity
      ensures State() == Initial(capacity)
    {
      this.capacity := capacity;
      hand := 0;
      frames := new Slot[capacity](_ => None);
      pageFaults := 0;
      new;
      assert frames[..] == Initial(capacity).frames;
    }

    /** `Clock::insert` (src/clock.rs:24-62). */
    method Insert(pageNumber: int) returns (evicted: Option<int>)
      requires Valid()
      modifies this, frames
      ensures Valid()
      ensures InsertResult(State(), evicted) == Inserted(old(State()), pageNumber)
    {
      for i := 0 to frames.Length
        invariant unchanged(this) && unchanged(frames)
        invariant forall j :: 0 <= j < i ==> Occupant(frames[j]) != Some(pageNumber)
      {
        match frames[i] {
          case Some(page) =>
            if page.number == pageNumber {
              frames[i] := Some(Page(page.number, true));
              return None;
            }
          case None =>
        }
      }
      assert Find(frames[..], pageNumber, 0).None?;

      pageFaults := pageFaults + 1;

      while true
        invariant Valid() && pageFaults == old(pageFaults) + 1
        invariant Sweep(frames[..], hand, pageNumber) == Sweep(old(frames[..]), old(hand), pageNumber)
        decreases RefCount(frames[..])
      {
        match frames[hand] {
          case None =>
            frames[hand] := Some(Page(pageNumber, true));
            AdvanceHand();
            return None;
          case Some(page) =>
            if !page.reference {
              var victim := page.number;
              frames[hand] := Some(Page(pageNumber, true));
              AdvanceHand();
              return Some(victim);
            } else {
              RefCountClear(frames[..], hand);
              frames[hand] := Some(Page(page.number, false));
              AdvanceHand();
            }
        }
      }
    }

    /** `advance_hand` (src/clock.rs:64-66). */
    method AdvanceHand()
      requires hand < capacity
      modifies this`hand
      ensures hand < capacity && hand == Next(old(hand), capacity)
    {
      hand := (hand + 1) % capacity;
    }

    /** `page_fault_count` (src/clock.rs:68-70). */
    method PageFaultCount() returns (count: nat)
      ensures count == pageFaults
    {
      count := pageFaults;
    }
  }
}
