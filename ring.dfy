/**
 * Positions round a circular buffer of `n` slots: the CLOCK engine's hand and
 * the TLB's write cursor both move this way.
 */
module Ring {
  /** The slot `d` steps on from `start`, going round (for `d` up to one full turn). */
  function Clockwise(start: nat, d: nat, n: nat): (i: nat)
    requires start < n && d <= n
    ensures i < n
  {
    if start + d < n then start + d else start + d - n
  }

  /** How many steps lead from slot `from` round to slot `to`. */
  function Distance(from: nat, to: nat, n: nat): (d: nat)
    requires from < n && to < n
    ensures d < n && Clockwise(from, d, n) == to
  {
    if from <= to then to - from else to + n - from
  }

  /** `Distance` undoes `Clockwise` within one turn. */
  lemma DistanceOfClockwise(start: nat, d: nat, n: nat)
    requires start < n && d < n
    ensures Distance(start, Clockwise(start, d, n), n) == d
  {
  }

  /** Distinct step counts within one turn name distinct slots. */
  lemma ClockwiseInjective(start: nat, j: nat, m: nat, n: nat)
    requires start < n && j < m < n
    ensures Clockwise(start, j, n) != Clockwise(start, m, n)
  {
  }
}
