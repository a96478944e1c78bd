/**
 * The inputs of the Banker's-algorithm safety check, the need matrix derived
 * from them, and the accounting of the work vector: what is available plus what
 * the processes finished so far have handed back.
 */
module BankerState {

  /** The three inputs of `is_safe_state`: P = |allocation| processes, R = |available| resource types. */
  datatype System = System(allocation: seq<seq<int>>, maximum: seq<seq<int>>, available: seq<int>)
  {
    /** Number of processes: the length of the allocation matrix. */
    function P(): nat { |allocation| }

    /** Number of resource types: the length of the available vector. */
    function R(): nat { |available| }

    /**
     * Every entry the safety check reads exists: every allocation row has an entry
     * for every resource type and, when there is at least one resource type,
     * maximum has such a row for every process too. With no resource types the
     * check never reads maximum, so any maximum is accepted.
     */
    predicate WellShaped() {
      && (forall i :: 0 <= i < |allocation| ==> |allocation[i]| >= |available|)
      && (|available| == 0 || |maximum| >= |allocation|)
      && (forall i :: 0 <= i < |allocation| && |available| > 0 ==> |maximum[i]| >= |available|)
    }

    /** No process holds a negative number of units of any resource type. */
    predicate NonNegativeAllocation()
      requires WellShaped()
    {
      forall i, j :: 0 <= i < P() && 0 <= j < R() ==> allocation[i][j] >= 0
    }
  }

  /** The need matrix: what each process may still request, maximum minus allocation, P rows of R entries. */
  function Need(s: System): (need: seq<seq<int>>)
    requires s.WellShaped()
    ensures |need| == s.P()
    ensures forall i :: 0 <= i < s.P() ==> |need[i]| == s.R()
    ensures forall i, j :: 0 <= i < s.P() && 0 <= j < s.R() ==>
      need[i][j] == s.maximum[i][j] - s.allocation[i][j]
  {
    seq(s.P(), i requires 0 <= i < s.P() =>
      seq(s.R(), j requires 0 <= j < s.R() => s.maximum[i][j] - s.allocation[i][j]))
  }

  /** A need row fits in a work vector when it is at most the work in every resource type. */
  predicate Fits(need: seq<int>, work: seq<int>)
    requires |need| == |work|
  {
    forall j :: 0 <= j < |work| ==> need[j] <= work[j]
  }

  /** Process i can run to completion with the resources in `work`. */
  predicate CanFinish(s: System, i: nat, work: seq<int>)
    requires s.WellShaped() && i < s.P() && |work| == s.R()
  {
    Fits(Need(s)[i], work)
  }

  /** Units of resource type j held by the processes among the first n whose index occurs in `done`. */
  function HeldBy(s: System, done: seq<nat>, j: nat, n: nat): int
    requires s.WellShaped() && j < s.R() && n <= s.P()
  {
    if n == 0 then 0
    else HeldBy(s, done, j, n - 1) + (if n - 1 in done then s.allocation[n - 1][j] else 0)
  }

  /** The work vector once the processes in `done` have finished and released what they held. */
  function WorkAfter(s: System, done: seq<nat>): (work: seq<int>)
    requires s.WellShaped()
    ensures |work| == s.R()
  {
    seq(s.R(), j requires 0 <= j < s.R() => s.available[j] + HeldBy(s, done, j, s.P()))
  }

  /** A process can finish exactly when its maximum claim is covered by the work plus what it already holds. */
  lemma CanFinishIffMaximumCovered(s: System, i: nat, work: seq<int>)
    requires s.WellShaped() && i < s.P() && |work| == s.R()
    ensures CanFinish(s, i, work) <==>
      forall j :: 0 <= j < s.R() ==> s.maximum[i][j] <= work[j] + s.allocation[i][j]
  {
  }

  /** When no process holds more than its maximum, no need entry is negative. */
  lemma NeedNonNegative(s: System)
    requires s.WellShaped()
    requires forall i, j :: 0 <= i < s.P() && 0 <= j < s.R() ==> s.allocation[i][j] <= s.maximum[i][j]
    ensures forall i, j :: 0 <= i < s.P() && 0 <= j < s.R() ==> Need(s)[i][j] >= 0
  {
  }

  /** More work never stops a process from finishing. */
  lemma CanFinishMonotone(s: System, i: nat, w1: seq<int>, w2: seq<int>)
    requires s.WellShaped() && i < s.P() && |w1| == |w2| == s.R()
    requires forall j :: 0 <= j < s.R() ==> w1[j] <= w2[j]
    requires CanFinish(s, i, w1)
    ensures CanFinish(s, i, w2)
  {
  }

  /** Nothing is held by an empty set of finished processes. */
  lemma {:induction false} HeldByNone(s: System, j: nat, n: nat)
    requires s.WellShaped() && j < s.R() && n <= s.P()
    ensures HeldBy(s, [], j, n) == 0
  {
    if n > 0 {
      HeldByNone(s, j, n - 1);
    }
  }

  /** Before any process has finished, the work vector is the available vector (`work = available[:]`). */
  lemma WorkAfterNone(s: System)
    requires s.WellShaped()
    ensures WorkAfter(s, []) == s.available
  {
    forall j | 0 <= j < s.R()
      ensures WorkAfter(s, [])[j] == s.available[j]
    {
      HeldByNone(s, j, s.P());
    }
  }

  /** Finishing one more process x adds its allocation to what is held (among the first n). */
  lemma {:induction false} HeldByAppend(s: System, done: seq<nat>, x: nat, j: nat, n: nat)
    requires s.WellShaped() && j < s.R() && n <= s.P() && x < s.P() && x !in done
    ensures HeldBy(s, done + [x], j, n) ==
      HeldBy(s, done, j, n) + (if x < n then s.allocation[x][j] else 0)
  {
    if n > 0 {
      HeldByAppend(s, done, x, j, n - 1);
    }
  }

  /** The work vector after a process hands back its allocation row: `work[j] += row[j]` for every j. */
  function AddRow(work: seq<int>, row: seq<int>): (r: seq<int>)
    requires |row| >= |work|
    ensures |r| == |work|
  {
    seq(|work|, j requires 0 <= j < |work| => work[j] + row[j])
  }

  /** Finishing one more process x adds its allocation row to the work vector. */
  lemma WorkAfterAppend(s: System, done: seq<nat>, x: nat)
    requires s.WellShaped() && x < s.P() && x !in done
    ensures WorkAfter(s, done + [x]) == AddRow(WorkAfter(s, done), s.allocation[x])
  {
    forall j | 0 <= j < s.R()
      ensures WorkAfter(s, done + [x])[j] == WorkAfter(s, done)[j] + s.allocation[x][j]
    {
      HeldByAppend(s, done, x, j, s.P());
    }
  }

  /** With non-negative allocations, finishing a superset of processes never leaves less work. */
  lemma {:induction false} HeldByMonotone(s: System, a: seq<nat>, b: seq<nat>, j: nat, n: nat)
    requires s.WellShaped() && s.NonNegativeAllocation() && j < s.R() && n <= s.P()
    requires forall x :: x in a ==> x in b
    ensures HeldBy(s, a, j, n) <= HeldBy(s, b, j, n)
  {
    if n > 0 {
      HeldByMonotone(s, a, b, j, n - 1);
    }
  }

  /** The work after a set of finished processes is at most the work after any superset of them. */
  lemma WorkAfterMonotone(s: System, a: seq<nat>, b: seq<nat>)
    requires s.WellShaped() && s.NonNegativeAllocation()
    requires forall x :: x in a ==> x in b
    ensures forall j :: 0 <= j < s.R() ==> WorkAfter(s, a)[j] <= WorkAfter(s, b)[j]
  {
    forall j | 0 <= j < s.R()
      ensures WorkAfter(s, a)[j] <= WorkAfter(s, b)[j]
    {
      HeldByMonotone(s, a, b, j, s.P());
    }
  }
}
