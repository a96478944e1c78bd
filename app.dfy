/**
 * The safety check as the source runs it: a copy of `available` updated in
 * place as processes finish, a `finish` flag per process, and a sequence that
 * grows by one process per round, each round a scan from index 0 that takes
 * the first unfinished process whose need fits.
 */
module App {
  import opened BankerState
  import opened SafetySpec

  /** Hands a finishing process's allocation back: adds `row` to `work` entry by entry, in place. */
  method Release(work: array<int>, row: seq<int>)
    requires |row| >= work.Length
    modifies work
    ensures work[..] == AddRow(old(work[..]), row)
  {
    for j := 0 to work.Length
      invariant forall jj :: 0 <= jj < j ==> work[jj] == old(work[jj]) + row[jj]
      invariant forall jj :: j <= jj < work.Length ==> work[jj] == old(work[jj])
    {
      work[j] := work[j] + row[j];
    }
  }

  /**
   * One scan from index 0: finds the first process that is not finished and whose need fits
   * in `work` in every resource type, exactly the process FirstFit picks, or reports none.
   */
  method Scan(sys: System, need: seq<seq<int>>, work: array<int>, finish: array<bool>, ghost done: seq<nat>)
    returns (found: bool, i: nat)
    requires sys.WellShaped() && need == Need(sys)
    requires work.Length == sys.R() && finish.Length == sys.P()
    requires forall k :: 0 <= k < sys.P() ==> finish[k] == (k in done)
    ensures found <==> FirstFit(sys, work[..], done, 0).Some?
    ensures found ==> FirstFit(sys, work[..], done, 0) == Some(i)
  {
    found := false;
    i := 0;
    while i < sys.P()
      invariant 0 <= i <= sys.P()
      invariant FirstFit(sys, work[..], done, 0) == FirstFit(sys, work[..], done, i)
    {
      if !finish[i] && Fits(need[i], work[..]) {
        found := true;
        return;
      }
      FirstFitSkip(sys, work[..], done, i);
      i := i + 1;
    }
  }

  /**
   * Banker's-algorithm safety check of `allocation`, `maximum` and `available`. With
   * `stopAtDebugSequence` set it also stops, unsafe, as soon as the sequence is [0, 3],
   * as the source does; cleared, it is the classical algorithm.
   */
  method IsSafeState(allocation: seq<seq<int>>, maximum: seq<seq<int>>, available: seq<int>,
                     stopAtDebugSequence: bool)
    returns (v: Verdict)
    requires System(allocation, maximum, available).WellShaped()
    ensures v == SafetyCheck(System(allocation, maximum, available), stopAtDebugSequence)
    ensures |allocation| == 0 ==> v == Safe([])
  {
    var sys := System(allocation, maximum, available);
    var numProcesses := |allocation|;
    var numResources := |available|;

    var need := Need(sys);
    var work := new int[numResources](j requires 0 <= j < numResources => available[j]);
    var finish := new bool[numProcesses](_ => false);
    var safeSequence: seq<nat> := [];
    WorkAfterNone(sys);
    assert work[..] == available;

    while |safeSequence| < numProcesses
      invariant |safeSequence| <= numProcesses
      invariant work[..] == WorkAfter(sys, safeSequence)
      invariant forall i :: 0 <= i < numProcesses ==> finish[i] == (i in safeSequence)
      invariant SafetyCheck(sys, stopAtDebugSequence) == Run(sys, stopAtDebugSequence, safeSequence)
      decreases numProcesses - |safeSequence|
    {
      var found, i := Scan(sys, need, work, finish, safeSequence);

      if !found {
        return Unsafe(safeSequence);
      }

      // process i finishes: its allocation returns to work, it joins the sequence
      RunStep(sys, stopAtDebugSequence, safeSequence, i);
      ghost var before := work[..];
      Release(work, allocation[i]);
      ghost var released := work[..];
      WorkAfterAppend(sys, safeSequence, i);
      assert released == WorkAfter(sys, safeSequence + [i]) by {
        assert before == WorkAfter(sys, safeSequence);
        assert released == AddRow(before, allocation[i]);
      }
      safeSequence := safeSequence + [i];
      finish[i] := true;
      assert work[..] == released;

      // the hard-coded stop at P0 -> P3
      if stopAtDebugSequence && safeSequence == DebugStop {
        return Unsafe(safeSequence);
      }
    }
    return Safe(safeSequence);
  }
}
