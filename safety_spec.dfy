/**
 * A functional specification of the safety scan of `is_safe_state`: which
 * process the scan picks next, the run of picks until every process has
 * finished or none can, and the hard-coded stop at the sequence [0, 3].
 */
module SafetySpec {
  import opened BankerState

  datatype Option<T> = None | Some(value: T)

  /** The answer of the safety check: a full completion order, or the part found before it stopped. */
  datatype Verdict = Safe(sequence: seq<nat>) | Unsafe(partialSequence: seq<nat>)
  {
    /** The sequence the verdict carries, whichever kind it is. */
    function Order(): seq<nat> {
      match this
      case Safe(q) => q
      case Unsafe(q) => q
    }
  }

  /** The sequence at which the source stops and answers unsafe (P0 then P3). */
  const DebugStop: seq<nat> := [0, 3]

  /** The short-circuit step: when enabled, an order that has become exactly [0, 3] ends the check. */
  predicate HitsDebugStop(stopAtDebugSequence: bool, order: seq<nat>) {
    stopAtDebugSequence && order == DebugStop
  }

  /** No process occurs twice in q. */
  predicate Distinct(q: seq<nat>) {
    forall k :: 0 <= k < |q| ==> q[k] !in q[..k]
  }

  /**
   * q is an order in which the processes can finish one after the other: every entry is a
   * process index, none repeats, and each can finish with the work its predecessors released.
   */
  predicate CompletionOrder(s: System, q: seq<nat>)
    requires s.WellShaped()
  {
    && (forall k :: 0 <= k < |q| ==> q[k] < s.P())
    && Distinct(q)
    && (forall k :: 0 <= k < |q| ==> CanFinish(s, q[k], WorkAfter(s, q[..k])))
  }

  /** Each entry of q is the lowest-index unfinished process that could finish at that point. */
  predicate LowestFirst(s: System, q: seq<nat>)
    requires s.WellShaped()
  {
    forall k, i :: 0 <= k < |q| && 0 <= i < q[k] && i < s.P() ==>
      i in q[..k] || !CanFinish(s, i, WorkAfter(s, q[..k]))
  }

  /** No unfinished process can finish with the work left after `done`: the scan is stuck. */
  predicate Stuck(s: System, done: seq<nat>)
    requires s.WellShaped()
  {
    forall i :: 0 <= i < s.P() ==> i in done || !CanFinish(s, i, WorkAfter(s, done))
  }

  /** One scan from index `from` up: the first process not in `done` whose need fits in `work`. */
  function FirstFit(s: System, work: seq<int>, done: seq<nat>, from: nat): (r: Option<nat>)
    requires s.WellShaped() && |work| == s.R() && from <= s.P()
    ensures r.Some? ==> from <= r.value < s.P() && r.value !in done && CanFinish(s, r.value, work)
    ensures forall i :: from <= i < s.P() && (r.None? || i < r.value) ==> i in done || !CanFinish(s, i, work)
    decreases s.P() - from
  {
    if from == s.P() then None
    else if from !in done && CanFinish(s, from, work) then Some(from)
    else FirstFit(s, work, done, from + 1)
  }

  /** A scan moves past a process that has finished or does not fit. */
  lemma FirstFitSkip(s: System, work: seq<int>, done: seq<nat>, i: nat)
    requires s.WellShaped() && |work| == s.R() && i < s.P()
    requires i in done || !CanFinish(s, i, work)
    ensures FirstFit(s, work, done, i) == FirstFit(s, work, done, i + 1)
  {
  }

  /**
   * The rest of the check once the processes in `done` have finished: a full sequence is safe;
   * otherwise scan from index 0, answer unsafe if nothing fits, else finish the process found,
   * stop at the debug sequence if enabled, and go on.
   */
  function Run(s: System, stopAtDebugSequence: bool, done: seq<nat>): (v: Verdict)
    requires s.WellShaped()
    ensures done <= v.Order()
    decreases s.P() - |done|
  {
    if |done| >= s.P() then Safe(done)
    else
      match FirstFit(s, WorkAfter(s, done), done, 0)
      case None => Unsafe(done)
      case Some(i) =>
        if HitsDebugStop(stopAtDebugSequence, done + [i]) then Unsafe(done + [i])
        else Run(s, stopAtDebugSequence, done + [i])
  }

  /** The safety check of a whole system: the run from no finished process. */
  function SafetyCheck(s: System, stopAtDebugSequence: bool): Verdict
    requires s.WellShaped()
  {
    Run(s, stopAtDebugSequence, [])
  }

  /** One round of the run: the scan found process i, which finishes unless the debug stop ends the check. */
  lemma RunStep(s: System, stopAtDebugSequence: bool, done: seq<nat>, i: nat)
    requires s.WellShaped() && |done| < s.P()
    requires FirstFit(s, WorkAfter(s, done), done, 0) == Some(i)
    ensures Run(s, stopAtDebugSequence, done) ==
      if HitsDebugStop(stopAtDebugSequence, done + [i]) then Unsafe(done + [i])
      else Run(s, stopAtDebugSequence, done + [i])
  {
  }

  /** Appending the next pick keeps an order a completion order taken lowest index first. */
  lemma ExtendOrder(s: System, done: seq<nat>, i: nat)
    requires s.WellShaped() && CompletionOrder(s, done) && LowestFirst(s, done)
    requires FirstFit(s, WorkAfter(s, done), done, 0) == Some(i)
    ensures CompletionOrder(s, done + [i]) && LowestFirst(s, done + [i])
  {
    var q := done + [i];
    assert q[..|done|] == done;
    forall k | 0 <= k < |done|
      ensures q[k] == done[k] && q[..k] == done[..k]
    {
    }
  }

  /** Every run from a valid prefix yields a completion order, each entry the lowest index that fits. */
  lemma {:induction false} RunOrder(s: System, stopAtDebugSequence: bool, done: seq<nat>)
    requires s.WellShaped() && CompletionOrder(s, done) && LowestFirst(s, done)
    ensures CompletionOrder(s, Run(s, stopAtDebugSequence, done).Order())
    ensures LowestFirst(s, Run(s, stopAtDebugSequence, done).Order())
    decreases s.P() - |done|
  {
    if |done| < s.P() {
      match FirstFit(s, WorkAfter(s, done), done, 0)
      case None =>
      case Some(i) =>
        ExtendOrder(s, done, i);
        if !HitsDebugStop(stopAtDebugSequence, done + [i]) {
          RunOrder(s, stopAtDebugSequence, done + [i]);
        }
    }
  }

  /**
   * How a run ends: a safe verdict carries at least P processes; an unsafe one either is the
   * debug stop or is stuck with fewer than P processes.
   */
  lemma {:induction false} RunOutcome(s: System, stopAtDebugSequence: bool, done: seq<nat>)
    requires s.WellShaped()
    ensures match Run(s, stopAtDebugSequence, done)
      case Safe(q) => |q| >= s.P()
      case Unsafe(q) => HitsDebugStop(stopAtDebugSequence, q) || (|q| < s.P() && Stuck(s, q))
    decreases s.P() - |done|
  {
    if |done| < s.P() {
      match FirstFit(s, WorkAfter(s, done), done, 0)
      case None =>
      case Some(i) =>
        if !HitsDebugStop(stopAtDebugSequence, done + [i]) {
          RunOutcome(s, stopAtDebugSequence, done + [i]);
        }
    }
  }

  /**
   * Every index in the verdict (safe or partial) is a process index, none repeats, and
   * each entry is the lowest-index unfinished process whose need fits the work at that point.
   */
  lemma VerdictIsLowestFirstCompletionOrder(s: System, stopAtDebugSequence: bool)
    requires s.WellShaped()
    ensures CompletionOrder(s, SafetyCheck(s, stopAtDebugSequence).Order())
    ensures LowestFirst(s, SafetyCheck(s, stopAtDebugSequence).Order())
  {
    RunOrder(s, stopAtDebugSequence, []);
  }

  /** The values occurring in q, as a set. */
  function Values(q: seq<nat>): (r: set<nat>)
    ensures forall x :: x in r <==> x in q
  {
    if q == [] then {} else Values(q[..|q| - 1]) + {q[|q| - 1]}
  }

  /** The process indices 0..n-1, as a set of n elements. */
  function Below(n: nat): (r: set<nat>)
    ensures forall i :: i in r <==> 0 <= i < n
    ensures |r| == n
  {
    if n == 0 then {} else Below(n - 1) + {n - 1}
  }

  /** A subset has at most as many elements as its superset, and as many only when they are equal. */
  lemma {:induction false} SubsetCardinality(a: set<nat>, b: set<nat>)
    requires a <= b
    ensures |a| <= |b|
    ensures |a| == |b| ==> a == b
    decreases |a|
  {
    if a != {} {
      var x :| x in a;
      SubsetCardinality(a - {x}, b - {x});
      assert a == (a - {x}) + {x};
      assert b == (b - {x}) + {x};
    } else if |b| == 0 {
      assert b == {};
    }
  }

  /** The values of a distinct sequence are as many as its entries. */
  lemma {:induction false} DistinctCardinality(q: seq<nat>)
    requires Distinct(q)
    ensures |Values(q)| == |q|
  {
    if q != [] {
      var front := q[..|q| - 1];
      assert Distinct(front) by {
        forall k | 0 <= k < |front| ensures front[k] !in front[..k] {
          assert front[..k] == q[..k];
        }
      }
      DistinctCardinality(front);
      assert q[..|q| - 1] == front;
    }
  }

  /** A distinct sequence of indices below n has at most n entries, and with n entries holds every index. */
  lemma Pigeonhole(q: seq<nat>, n: nat)
    requires Distinct(q) && forall k :: 0 <= k < |q| ==> q[k] < n
    ensures |q| <= n
    ensures |q| == n ==> forall i :: 0 <= i < n ==> i in q
  {
    DistinctCardinality(q);
    SubsetCardinality(Values(q), Below(n));
    if |q| == n {
      forall i | 0 <= i < n ensures i in q {
        assert i in Below(n);
      }
    }
  }

  /** A safe verdict carries exactly P processes and every process index: a permutation of 0..P-1. */
  lemma SafeVerdictIsPermutation(s: System, stopAtDebugSequence: bool)
    requires s.WellShaped() && SafetyCheck(s, stopAtDebugSequence).Safe?
    ensures |SafetyCheck(s, stopAtDebugSequence).sequence| == s.P()
    ensures forall i :: 0 <= i < s.P() ==> i in SafetyCheck(s, stopAtDebugSequence).sequence
  {
    var q := SafetyCheck(s, stopAtDebugSequence).sequence;
    RunOrder(s, stopAtDebugSequence, []);
    RunOutcome(s, stopAtDebugSequence, []);
    Pigeonhole(q, s.P());
  }

  /**
   * An unsafe verdict other than the debug stop is a stuck scan: fewer than P processes
   * finished and no unfinished process has need at most the work in every resource type.
   */
  lemma UnsafeVerdictIsStuck(s: System, stopAtDebugSequence: bool)
    requires s.WellShaped() && SafetyCheck(s, stopAtDebugSequence).Unsafe?
    requires !HitsDebugStop(stopAtDebugSequence, SafetyCheck(s, stopAtDebugSequence).partialSequence)
    ensures |SafetyCheck(s, stopAtDebugSequence).partialSequence| < s.P()
    ensures Stuck(s, SafetyCheck(s, stopAtDebugSequence).partialSequence)
  {
    RunOutcome(s, stopAtDebugSequence, []);
  }

  /** With no process at all the check answers safe with the empty sequence. */
  lemma NoProcessesIsSafe(s: System, stopAtDebugSequence: bool)
    requires s.WellShaped() && s.P() == 0
    ensures SafetyCheck(s, stopAtDebugSequence) == Safe([])
  {
  }

  /** A single process whose need fits in the available vector is safe with sequence [0]. */
  lemma SingleFittingProcessIsSafe(s: System, stopAtDebugSequence: bool)
    requires s.WellShaped() && s.P() == 1 && CanFinish(s, 0, s.available)
    ensures SafetyCheck(s, stopAtDebugSequence) == Safe([0])
  {
    WorkAfterNone(s);
    assert FirstFit(s, WorkAfter(s, []), [], 0) == Some(0);
    assert [] + [0] == [0];
    assert Run(s, stopAtDebugSequence, [0]) == Safe([0]);
  }

  /** Once two processes have finished, the debug stop can no longer fire: both runs agree. */
  lemma {:induction false} DebugStopPassed(s: System, done: seq<nat>)
    requires s.WellShaped() && |done| >= 2
    ensures Run(s, true, done) == Run(s, false, done)
    decreases s.P() - |done|
  {
    if |done| < s.P() {
      match FirstFit(s, WorkAfter(s, done), done, 0)
      case None =>
      case Some(i) =>
        DebugStopPassed(s, done + [i]);
    }
  }

  /**
   * The short-circuit changes the classical answer in exactly one way: when the classical
   * order begins with P0 then P3, the check answers unsafe with partial sequence [0, 3];
   * otherwise it answers as the classical check does.
   */
  lemma DebugStopEffect(s: System)
    requires s.WellShaped()
    ensures SafetyCheck(s, true) ==
      if DebugStop <= SafetyCheck(s, false).Order() then Unsafe(DebugStop) else SafetyCheck(s, false)
  {
    if 0 < s.P() {
      match FirstFit(s, WorkAfter(s, []), [], 0)
      case None =>
      case Some(i) =>
        var d1 := [i];
        assert [] + [i] == d1;
        assert !HitsDebugStop(true, d1);
        assert SafetyCheck(s, true) == Run(s, true, d1);
        assert SafetyCheck(s, false) == Run(s, false, d1);
        if 1 < s.P() {
          match FirstFit(s, WorkAfter(s, d1), d1, 0)
          case None =>
          case Some(i2) =>
            var d2 := d1 + [i2];
            if d2 != DebugStop {
              DebugStopPassed(s, d2);
              var q := Run(s, false, d2).Order();
              assert q[..2] == d2;
              assert !(DebugStop <= q);
            }
        }
    }
  }
}
