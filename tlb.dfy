/**
 * The translation lookaside buffer of src/main.rs:18-46: sixteen
 * (page number, frame number) slots filled in FIFO order by a write cursor.
 */
module Tlb {
  import opened Wrappers
  import opened Ring

  const TlbSize: nat := 16

  /** The buffer's contents as a value: both slot arrays and the write cursor. */
  datatype TlbState = TlbState(pages: seq<int>, frames: seq<int>, index: nat)
  {
    predicate Valid()
    {
      |pages| == TlbSize && |frames| == TlbSize && index < TlbSize
    }
  }

  /** `TLB::new`: every slot holds (-1, -1) and the cursor is at slot 0. */
  function Empty(): (t: TlbState)
    ensures t.Valid() && t.index == 0
    ensures forall i :: 0 <= i < TlbSize ==> t.pages[i] == -1 && t.frames[i] == -1
  {
    TlbState(seq(TlbSize, _ => -1), seq(TlbSize, _ => -1), 0)
  }

  /**
   * `TLB::search`: the frame number stored beside the first slot, in index
   * order, whose page number is `p`; `None` when no slot holds `p`.
   */
  function Lookup(pages: seq<int>, frames: seq<int>, p: int): (r: Option<int>)
    requires |pages| == |frames|
    ensures r.None? <==> p !in pages
    ensures r.Some? ==> exists i :: 0 <= i < |pages| && pages[i] == p && r.value == frames[i]
    ensures forall i :: 0 <= i < |pages| && pages[i] == p && p !in pages[..i] ==> r == Some(frames[i])
  {
    if |pages| == 0 then None
    else if pages[0] == p then Some(frames[0])
    else
      assert forall i :: 1 <= i < |pages| ==> pages[1..][..i - 1] == pages[1..i];
      Lookup(pages[1..], frames[1..], p)
  }

  /** `TLB::add`: overwrite the slot under the cursor and advance the cursor modulo 16. */
  function Added(t: TlbState, p: int, f: int): (r: TlbState)
    requires t.Valid()
    ensures r.Valid()
  {
    TlbState(t.pages[t.index := p], t.frames[t.index := f], (t.index + 1) % TlbSize)
  }

  /**
   * An add writes the pair into the slot under the cursor only, leaves every
   * other slot alone and moves the cursor one slot on, wrapping after slot 15.
   */
  lemma AddWritesOneSlot(t: TlbState, p: int, f: int)
    requires t.Valid()
    ensures var r := Added(t, p, f);
            && r.pages[t.index] == p && r.frames[t.index] == f
            && (forall i :: 0 <= i < TlbSize && i != t.index ==> r.pages[i] == t.pages[i] && r.frames[i] == t.frames[i])
            && r.index == if t.index == TlbSize - 1 then 0 else t.index + 1
  {
  }

  /** A fresh buffer misses every page number the simulator can produce. */
  lemma EmptyMisses(p: int)
    requires 0 <= p
    ensures Lookup(Empty().pages, Empty().frames, p) == None
  {
    assert p !in Empty().pages by {
      forall i | 0 <= i < TlbSize ensures Empty().pages[i] != p { }
    }
  }

  /** A page added after a miss is what the next search for it returns. */
  lemma LookupAfterAdd(t: TlbState, p: int, f: int)
    requires t.Valid() && p !in t.pages
    ensures var u := Added(t, p, f); Lookup(u.pages, u.frames, p) == Some(f)
  {
    var u := Added(t, p, f);
    assert u.pages[t.index] == p;
    assert p !in u.pages[..t.index];
  }

  /** `TLB::add` applied to each (page, frame) entry of `es` in turn. */
  function AddAll(t: TlbState, es: seq<(int, int)>): (u: TlbState)
    requires t.Valid()
    ensures u.Valid()
  {
    if |es| == 0 then t
    else Added(AddAll(t, es[..|es| - 1]), es[|es| - 1].0, es[|es| - 1].1)
  }

  /** One more add moves the cursor one slot further round. */
  lemma CursorStep(start: nat, m: nat)
    requires start < TlbSize && m < TlbSize
    ensures Clockwise(start, m + 1, TlbSize) == (Clockwise(start, m, TlbSize) + 1) % TlbSize
  {
  }

  /**
   * `u` is `t` after the adds `es`: entry j sits in the slot j steps round
   * from the cursor, every slot further round than the last add is
   * untouched, and the cursor has moved on by the number of adds.
   */
  ghost predicate Cycled(t: TlbState, es: seq<(int, int)>, u: TlbState)
    requires t.Valid() && u.Valid() && |es| <= TlbSize
  {
    && u.index == Clockwise(t.index, |es|, TlbSize)
    && (forall j :: 0 <= j < |es| ==>
          u.pages[Clockwise(t.index, j, TlbSize)] == es[j].0 && u.frames[Clockwise(t.index, j, TlbSize)] == es[j].1)
    && (forall s :: 0 <= s < TlbSize && Distance(t.index, s, TlbSize) >= |es| ==>
          u.pages[s] == t.pages[s] && u.frames[s] == t.frames[s])
  }

  /** One more add extends the cycle by one slot. */
  lemma CycledAdd(t: TlbState, es: seq<(int, int)>, v: TlbState, e: (int, int))
    requires t.Valid() && v.Valid() && |es| < TlbSize && Cycled(t, es, v)
    ensures Cycled(t, es + [e], Added(v, e.0, e.1))
  {
    var m := |es|;
    var u := Added(v, e.0, e.1);
    var es' := es + [e];
    AddWritesOneSlot(v, e.0, e.1);
    CursorStep(t.index, m);
    forall j | 0 <= j < m + 1
      ensures u.pages[Clockwise(t.index, j, TlbSize)] == es'[j].0 && u.frames[Clockwise(t.index, j, TlbSize)] == es'[j].1
    {
      if j < m {
        ClockwiseInjective(t.index, j, m, TlbSize);
      }
    }
    DistanceOfClockwise(t.index, m, TlbSize);
    forall s | 0 <= s < TlbSize && Distance(t.index, s, TlbSize) >= m + 1
      ensures u.pages[s] == t.pages[s] && u.frames[s] == t.frames[s]
    {
      assert s != v.index;
    }
  }

  /**
   * FIFO replacement: up to 16 consecutive adds write consecutive slots
   * round the buffer from the cursor, entry j into the slot j steps on,
   * leave every other slot alone and move the cursor by their number.  So the
   * slot the (n+16)-th add overwrites is the one the n-th add wrote.
   */
  lemma {:induction false} AddsCycle(t: TlbState, es: seq<(int, int)>)
    requires t.Valid() && |es| <= TlbSize
    ensures Cycled(t, es, AddAll(t, es))
  {
    if |es| == 0 {
      forall s | 0 <= s < TlbSize ensures Distance(t.index, s, TlbSize) >= 0 { }
    } else {
      var m := |es| - 1;
      AddsCycle(t, es[..m]);
      CycledAdd(t, es[..m], AddAll(t, es[..m]), es[m]);
      assert es[..m] + [es[m]] == es;
    }
  }

  /** The buffer itself: two fixed arrays written in place and the cursor. */
  class TLB {
    const pageNumbers: array<int>
    const frameNumbers: array<int>
    var index: nat

    ghost predicate Valid()
      reads this
    {
      pageNumbers.Length == TlbSize && frameNumbers.Length == TlbSize &&
      pageNumbers != frameNumbers && index < TlbSize
    }

    /** The buffer's current contents as a value. */
    function State(): TlbState
      reads this, pageNumbers, frameNumbers
    {
      TlbState(pageNumbers[..], frameNumbers[..], index)
    }

    /** `TLB::new` (src/main.rs:25-31). */
    constructor ()
      ensures Valid() && fresh(pageNumbers) && fresh(frameNumbers)
      ensures State() == Empty()
    {
      pageNumbers := new int[TlbSize](_ => -1);
      frameNumbers := new int[TlbSize](_ => -1);
      index := 0;
      new;
      assert pageNumbers[..] == Empty().pages && frameNumbers[..] == Empty().frames;
    }

    /** `TLB::search` (src/main.rs:33-39): a search of the current slots by `Lookup`. */
    function Search(pageNumber: int): (r: Option<int>)
      reads this, pageNumbers, frameNumbers
      requires Valid()
      ensures r.None? <==> pageNumber !in pageNumbers[..]
      ensures forall i :: 0 <= i < TlbSize && pageNumbers[i] == pageNumber && pageNumber !in pageNumbers[..i] ==>
                r == Some(frameNumbers[i])
    {
      Lookup(pageNumbers[..], frameNumbers[..], pageNumber)
    }

    /** `TLB::add` (src/main.rs:41-45). */
    method Add(pageNumber: int, frameNumber: int)
      requires Valid()
      modifies this`index, pageNumbers, frameNumbers
      ensures Valid()
      ensures State() == Added(old(State()), pageNumber, frameNumber)
    {
      pageNumbers[index] := pageNumber;
      frameNumbers[index] := frameNumber;
      index := (index + 1) % TlbSize;
    }
  }
}
