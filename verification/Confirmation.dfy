/** Confirmation by time, from the chain through the tree to the tracker. */
module Confirmation {
  import opened Bits
  import opened Outcomes
  import opened Protocol
  import opened Timers
  import opened TreeIndex
  import opened Ancestors
  import opened PathTimers
  import opened ChallengeTree
  import opened TreeRuns
  import EdgeTracker

  /** What the tracker makes of the watcher's answer: a child still missing on chain is no failure. */
  function Heard(r: Result<(nat, seq<EdgeId>, seq<nat>), TreeError>): EdgeTracker.PathTimer {
    match r
    case Ok((timer, _, _)) => EdgeTracker.TimerKnown(timer)
    case Err(e) => if e == NoLowerChildYet then EdgeTracker.NoLowerChildYet else EdgeTracker.TimerFailed
  }

  /** The tracker's answers carry the timer the tree computes for the edge at a block. */
  ghost predicate TimerFromTree(run: TreeRun, id: EdgeId, unrivaled: nat, block: nat, a: EdgeTracker.Answers)
    requires run.Valid()
  {
    RunIsSearchable(run);
    exists r ::
      TimerAnswer(r, run.OnChain().children, run.Index(), id, Some(unrivaled), block) && a.pathTimer == Heard(r)
  }

  /** On a tracked path whose groups were added, that timer is the sum of the on-chain timers along the path and
      the assertion's unrivaled blocks. */
  lemma {:induction false} TimerIsOnChainSum(
      run: TreeRun, path: seq<EdgeId>, unrivaled: nat, block: nat, a: EdgeTracker.Answers)
    requires run.Valid() && TrackedPath(run.OnChain(), run.Index(), path) && GroupsAdded(run, path)
    requires unrivaled + block < UINT64
    requires TimerFromTree(run, path[0], unrivaled, block, a)
    ensures a.pathTimer == EdgeTracker.TimerKnown(unrivaled + SumTimers(run.OnChain(), path, block))
  {
    hide RunCalls, Exec, GroupsAdded, TimersAlong, TrackedPath, SumTimers, PathTimer, AncestorsOf;
    PathIsNotEmpty(run, path);
    RunIsSearchable(run);
    var c, t := run.OnChain(), run.Index();
    var r :| TimerAnswer(r, c.children, t, path[0], Some(unrivaled), block) && a.pathTimer == Heard(r);
    assert [path[0]] + path[1..] == path;
    AncestorsExact(run, path[0], path[1..]);
    TimersFit(run, path, unrivaled, block);
    PathTimerIsSum(run, path, unrivaled, block);
  }

  lemma {:induction false} PathIsNotEmpty(run: TreeRun, path: seq<EdgeId>)
    requires run.Valid() && TrackedPath(run.OnChain(), run.Index(), path)
    ensures |path| > 0
  {
  }

  /** A failed computation of the timer, for whatever reason, confirms nothing. */
  lemma {:induction false} NoTimerNoConfirmation(
      r: Result<(nat, seq<EdgeId>, seq<nat>), TreeError>, a: EdgeTracker.Answers)
    requires a.pathTimer == Heard(r) && a.childrenConfirmed == Some(false) && !a.confirmedClaimExists
    ensures EdgeTracker.SubmitsConfirmation(a) ==> r.Ok?
    ensures a.pathTimer == EdgeTracker.NoLowerChildYet <==> r == Err(NoLowerChildYet)
  {
  }

  /** Unhindered and with no other ground, the tracker confirms an edge exactly if the assertion's unrivaled
      blocks and the on-chain timers of the edge and its ancestors add up to the challenge period. */
  lemma {:induction false} ConfirmsByTimeIff(
      run: TreeRun, path: seq<EdgeId>, unrivaled: nat, block: nat, a: EdgeTracker.Answers)
    requires run.Valid() && TrackedPath(run.OnChain(), run.Index(), path) && GroupsAdded(run, path)
    requires unrivaled + block < UINT64
    requires TimerFromTree(run, path[0], unrivaled, block, a)
    requires EdgeTracker.Unhindered(a) && a.status == Some(false) && a.confirmedRival == Some(false)
    requires a.childrenConfirmed == Some(false) && !a.confirmedClaimExists
    ensures EdgeTracker.SubmitsConfirmation(a)
       <==> unrivaled + SumTimers(run.OnChain(), path, block) >= a.challengePeriod.value
  {
    hide TimerFromTree, SumTimers, TrackedPath, GroupsAdded;
    TimerIsOnChainSum(run, path, unrivaled, block, a);
    EdgeTracker.ConfirmsIff(a);
  }

  /** No confirmation by time comes early: with neither children nor a claim to go by, the tracker confirms only
      if the assertion's unrivaled blocks and the blocks since the block level root's group began make up the
      challenge period. */
  lemma {:induction false} TimeMustPass(
      run: TreeRun, path: seq<EdgeId>, unrivaled: nat, block: nat, a: EdgeTracker.Answers)
    requires run.Valid() && TrackedPath(run.OnChain(), run.Index(), path) && GroupsAdded(run, path)
    requires unrivaled + block < UINT64
    requires TimerFromTree(run, path[0], unrivaled, block, a)
    requires EdgeTracker.SubmitsConfirmation(a) && a.childrenConfirmed == Some(false) && !a.confirmedClaimExists
    ensures Known(run.OnChain(), path[|path| - 1].mutual) && a.challengePeriod.Some?
    ensures a.challengePeriod.value <= unrivaled + Elapsed(run.OnChain(), path[|path| - 1].mutual, block)
  {
    hide TimerFromTree, SumTimers, GroupsAdded, Elapsed, Known;
    TimerIsOnChainSum(run, path, unrivaled, block, a);
    EdgeTracker.ConfirmsOnGround(a);
    NoDoubleCounting(run.heights, run.steps, path, block);
  }
}
