/**
 * The safety check measured against the textbook definition of a safe state
 * (some order exists in which every process can obtain its full need and
 * finish), and the system states that pin down concrete answers.
 */
module SafetyTheory {
  import opened BankerState
  import opened SafetySpec

  /** q is a safe sequence: an order of all P processes in which each can finish in turn. */
  predicate IsSafeSequence(s: System, q: seq<nat>)
    requires s.WellShaped()
  {
    |q| == s.P() && CompletionOrder(s, q)
  }

  /** The state is safe when some safe sequence exists. */
  ghost predicate SafeState(s: System)
    requires s.WellShaped()
  {
    exists q :: IsSafeSequence(s, q)
  }

  /** The position of the first entry of q that is not in d. */
  function FirstMissing(q: seq<nat>, d: seq<nat>): (k: nat)
    requires exists x :: x in q && x !in d
    ensures k < |q| && q[k] !in d
    ensures forall m :: 0 <= m < k ==> q[m] in d
  {
    if q[0] !in d then 0
    else
      assert forall x :: x in q && x !in d ==> x in q[1..];
      1 + FirstMissing(q[1..], d)
  }

  /**
   * With non-negative allocations, a stuck scan proves the state unsafe: any safe sequence
   * would have a first process outside the finished ones, and that process would fit the
   * (at least as large) work of the stuck scan.
   */
  lemma StuckMeansNoSafeSequence(s: System, d: seq<nat>)
    requires s.WellShaped() && s.NonNegativeAllocation()
    requires Distinct(d) && |d| < s.P() && Stuck(s, d)
    ensures !SafeState(s)
  {
    if SafeState(s) {
      var q :| IsSafeSequence(s, q);
      Pigeonhole(q, s.P());
      var missing: nat :| missing < s.P() && missing !in d by {
        if forall i :: 0 <= i < s.P() ==> i in d {
          DistinctCardinality(d);
          SubsetCardinality(Below(s.P()), Values(d));
        }
      }
      assert missing in q;
      var k := FirstMissing(q, d);
      var prefix := q[..k];
      assert forall x :: x in prefix ==> x in d;
      WorkAfterMonotone(s, prefix, d);
      CanFinishMonotone(s, q[k], WorkAfter(s, prefix), WorkAfter(s, d));
      assert false;
    }
  }

  /**
   * Banker's theorem for the classical scan: with non-negative allocations it answers safe
   * exactly when a safe sequence exists.
   */
  lemma ClassicalCheckDecidesSafety(s: System)
    requires s.WellShaped() && s.NonNegativeAllocation()
    ensures SafetyCheck(s, false).Safe? <==> SafeState(s)
  {
    var v := SafetyCheck(s, false);
    RunOrder(s, false, []);
    RunOutcome(s, false, []);
    match v
    case Safe(q) =>
      Pigeonhole(q, s.P());
      assert IsSafeSequence(s, q);
    case Unsafe(q) =>
      StuckMeansNoSafeSequence(s, q);
  }

  /** A safe answer is a safe sequence, with or without the debug stop. */
  lemma SafeAnswerIsSafeSequence(s: System, stopAtDebugSequence: bool)
    requires s.WellShaped() && SafetyCheck(s, stopAtDebugSequence).Safe?
    ensures IsSafeSequence(s, SafetyCheck(s, stopAtDebugSequence).sequence)
  {
    RunOrder(s, stopAtDebugSequence, []);
    SafeVerdictIsPermutation(s, stopAtDebugSequence);
  }

  /** Four processes, one resource type: P0 then P3 can finish first, after which P1 and P2 can. */
  function DebugStopWitness(): (s: System)
    ensures s.WellShaped() && s.P() == 4 && s.R() == 1
  {
    System([[1], [0], [0], [3]], [[2], [5], [5], [5]], [1])
  }

  /** The work vectors of the witness after P0, after P0 and P3, and after P0, P3 and P1. */
  lemma WitnessWork()
    ensures WorkAfter(DebugStopWitness(), []) == [1]
    ensures WorkAfter(DebugStopWitness(), [0]) == [2]
    ensures WorkAfter(DebugStopWitness(), [0, 3]) == [5]
    ensures WorkAfter(DebugStopWitness(), [0, 3, 1]) == [5]
  {
    var s := DebugStopWitness();
    WorkAfterNone(s);
    WorkAfterAppend(s, [], 0);
    assert [] + [0] == [0];
    WorkAfterAppend(s, [0], 3);
    assert [0] + [3] == [0, 3];
    WorkAfterAppend(s, [0, 3], 1);
    assert [0, 3] + [1] == [0, 3, 1];
  }

  /** The first two rounds on the witness: P0 fits available = [1], then P3 fits [2]. */
  lemma WitnessFirstRounds(stopAtDebugSequence: bool)
    ensures Run(DebugStopWitness(), stopAtDebugSequence, []) ==
      if stopAtDebugSequence then Unsafe([0, 3]) else Run(DebugStopWitness(), false, [0, 3])
  {
    var s := DebugStopWitness();
    WitnessWork();
    assert FirstFit(s, [1], [], 0) == Some(0);
    assert [] + [0] == [0];
    assert FirstFit(s, [2], [0], 0) == Some(3);
    assert [0] + [3] == [0, 3];
  }

  /** The last two rounds of the classical scan on the witness: P1, then P2, both fitting [5]. */
  lemma WitnessLastRounds()
    ensures Run(DebugStopWitness(), false, [0, 3]) == Safe([0, 3, 1, 2])
  {
    var s := DebugStopWitness();
    WitnessWork();
    assert FirstFit(s, [5], [0, 3], 0) == Some(1);
    assert [0, 3] + [1] == [0, 3, 1];
    assert FirstFit(s, [5], [0, 3, 1], 0) == Some(2);
    assert [0, 3, 1] + [2] == [0, 3, 1, 2];
  }

  /**
   * The debug stop answers unsafe for a safe state: the classical scan finishes all four
   * processes in the order 0, 3, 1, 2, while the source's scan stops at [0, 3].
   */
  lemma DebugStopRejectsSafeState()
    ensures SafetyCheck(DebugStopWitness(), true) == Unsafe([0, 3])
    ensures SafetyCheck(DebugStopWitness(), false) == Safe([0, 3, 1, 2])
    ensures SafeState(DebugStopWitness())
  {
    WitnessFirstRounds(true);
    WitnessFirstRounds(false);
    WitnessLastRounds();
    SafeAnswerIsSafeSequence(DebugStopWitness(), false);
  }

  /** Two processes and no resource types; maximum is empty, as the check never reads it. */
  function NoResourcesState(): (s: System)
    ensures s.WellShaped() && s.P() == 2 && s.R() == 0
  {
    System([[], []], [], [])
  }

  /**
   * With no resource types every need row is empty and fits, so both processes finish in
   * index order and the answer is safe with [0, 1], whatever maximum holds.
   */
  lemma NoResourceTypesIsSafe(stopAtDebugSequence: bool)
    ensures SafetyCheck(NoResourcesState(), stopAtDebugSequence) == Safe([0, 1])
  {
    var s := NoResourcesState();
    assert WorkAfter(s, []) == [] && WorkAfter(s, [0]) == [];
    assert FirstFit(s, [], [], 0) == Some(0);
    assert [] + [0] == [0];
    assert FirstFit(s, [], [0], 0) == Some(1);
    assert [0] + [1] == [0, 1];
  }

  /** The demonstration state: four processes, three resource types, available = [1, 2, 0]. */
  function DemoState(): (s: System)
    ensures s.WellShaped() && s.P() == 4 && s.R() == 3 && s.NonNegativeAllocation()
  {
    System([[0, 1, 0], [2, 0, 0], [3, 0, 1], [0, 1, 1]],
           [[7, 5, 3], [3, 2, 2], [9, 0, 2], [2, 2, 2]], [1, 2, 0])
  }

  /** The need matrix of the demonstration state. */
  lemma DemoNeed()
    ensures Need(DemoState()) == [[7, 4, 3], [1, 2, 2], [6, 0, 1], [2, 1, 1]]
  {
    var need := Need(DemoState());
    assert need[0] == [7, 4, 3];
    assert need[1] == [1, 2, 2];
    assert need[2] == [6, 0, 1];
    assert need[3] == [2, 1, 1];
  }

  /**
   * No need row of the demonstration state fits available = [1, 2, 0], so the check is
   * stuck at once and answers unsafe with [], and indeed no safe sequence exists.
   */
  lemma DemoStateIsStuckAtOnce(stopAtDebugSequence: bool)
    ensures SafetyCheck(DemoState(), stopAtDebugSequence) == Unsafe([])
    ensures !SafeState(DemoState())
  {
    var s := DemoState();
    WorkAfterNone(s);
    DemoNeed();
    assert !CanFinish(s, 0, [1, 2, 0]) by { assert Need(s)[0][0] == 7; }
    assert !CanFinish(s, 1, [1, 2, 0]) by { assert Need(s)[1][2] == 2; }
    assert !CanFinish(s, 2, [1, 2, 0]) by { assert Need(s)[2][0] == 6; }
    assert !CanFinish(s, 3, [1, 2, 0]) by { assert Need(s)[3][0] == 2; }
    assert FirstFit(s, WorkAfter(s, []), [], 0) == None;
    ClassicalCheckDecidesSafety(s);
  }
}
