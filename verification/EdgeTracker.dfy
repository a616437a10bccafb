/** The edge tracker: one round of Act, and what every run of rounds keeps. */
module EdgeTracker {
  import opened Outcomes
  import opened Fsm

  datatype State = Started | AtOneStepProof | AddingSubchallengeLeaf | Bisecting | Confirming | Confirmed

  datatype Action = BackToStart | HandleOneStepProof | OpenSubchallengeLeaf | Bisect | AwaitConfirmation | Confirm

  const TABLE: seq<Event<Action, State>> := [
    Event(BackToStart, [Bisecting, Started, AtOneStepProof, AddingSubchallengeLeaf], Started),
    Event(HandleOneStepProof, [Started], AtOneStepProof),
    Event(OpenSubchallengeLeaf, [Started, AddingSubchallengeLeaf], AddingSubchallengeLeaf),
    Event(Bisect, [Started], Bisecting),
    Event(AwaitConfirmation, [Started, Bisecting, AddingSubchallengeLeaf, Confirming], Confirming),
    Event(Confirm, [Started, Confirming, Confirmed, AtOneStepProof], Confirmed)]

  /** Where an event leads, read off the table. */
  function Goto(event: Action, src: State): Option<State> {
    match event
    case BackToStart =>
      if src in {Bisecting, Started, AtOneStepProof, AddingSubchallengeLeaf} then Some(Started) else None
    case HandleOneStepProof => if src == Started then Some(AtOneStepProof) else None
    case OpenSubchallengeLeaf =>
      if src in {Started, AddingSubchallengeLeaf} then Some(AddingSubchallengeLeaf) else None
    case Bisect => if src == Started then Some(Bisecting) else None
    case AwaitConfirmation =>
      if src in {Started, Bisecting, AddingSubchallengeLeaf, Confirming} then Some(Confirming) else None
    case Confirm =>
      if src in {Started, Confirming, Confirmed, AtOneStepProof} then Some(Confirmed) else None
  }

  lemma {:induction false} TableRow(event: Action, src: State, n: nat)
    requires n < |TABLE|
    ensures Destination(TABLE[..n + 1], event, src) ==
            if TABLE[n].typ == event && src in TABLE[n].from then Some(TABLE[n].to)
            else Destination(TABLE[..n], event, src)
  {
    assert TABLE[..n + 1][..n] == TABLE[..n];
  }

  lemma {:induction false} NoRow(event: Action, src: State)
    ensures Destination([], event, src) == None
  {
  }

  lemma {:induction false} TableLookup(event: Action, src: State)
    ensures Destination(TABLE, event, src) == Goto(event, src)
  {
    hide Destination;
    assert TABLE[..6] == TABLE && TABLE[..0] == [];
    NoRow(event, src);
    TableRow(event, src, 5);
    TableRow(event, src, 4);
    TableRow(event, src, 3);
    TableRow(event, src, 2);
    TableRow(event, src, 1);
    TableRow(event, src, 0);
  }

  datatype EdgeInfo = EdgeInfo(start: nat, end: nat, level: nat, totalLevels: nat, actInterval: nat)

  datatype PathTimer = TimerKnown(blocks: nat) | NoLowerChildYet | TimerFailed

  /** A bisection or the opening of a subchallenge: whether the call returned without an error, and whether it
      sent a transaction that went through. A call that finds its edges on chain already sends none, and one
      that cannot read them back fails after its transaction went through. */
  datatype Move = Move(ok: bool, sent: bool)

  /** What the chain, the watcher and the state provider answer during one round. None is a failed
      call; the boolean of a transaction says whether it went through. */
  datatype Answers = Answers(
    confirmedMeanwhile: bool,
    status: Option<bool>,
    confirmedRival: Option<bool>,
    assertionHashKnown: bool,
    managerKnown: bool,
    childrenConfirmed: Option<bool>,
    confirmByChildren: bool,
    confirmedClaimExists: bool,
    confirmByClaim: bool,
    pathTimer: PathTimer,
    challengePeriod: Option<nat>,
    confirmByTimer: bool,
    hasRival: Option<bool>,
    hasLengthOneRival: Option<bool>,
    oneStepProof: bool,
    openLeaf: Move,
    bisect: Move)

  /** The tracker's state next to the facts on chain it is responsible for: moves counts the calls that
      returned without an error, the next two the transactions that went through. */
  datatype TrackerState = TrackerState(
    fsm: State, confirmed: bool, moves: nat, bisectionsSent: nat, leavesSent: nat, bisectionsTried: nat)

  const START: TrackerState := TrackerState(Started, false, 0, 0, 0, 0)

  /** Answers that report the chain as it is: a status read is current, an edge with a rival has a
      length-one rival exactly if its own length is one, and no transaction goes through that would create
      edges the tracker has created already. */
  predicate Truthful(edge: EdgeInfo, s: TrackerState, a: Answers) {
    && (a.status.Some? ==> a.status.value == (s.confirmed || a.confirmedMeanwhile))
    && (a.hasRival == Some(true) && a.hasLengthOneRival.Some? ==>
          (a.hasLengthOneRival.value <==> edge.end == edge.start + 1))
    && (a.bisect.sent ==> s.bisectionsSent == 0)
    && (a.openLeaf.sent ==> s.leavesSent == 0)
  }

  function CanOneStepProve(edge: EdgeInfo): Option<bool> {
    if edge.start >= edge.end then None
    else Some(edge.end - edge.start == 1 && edge.level == edge.totalLevels - 1)
  }

  /** Whether tryToConfirm ends with the edge confirmed. */
  function Confirms(a: Answers): bool {
    && a.status.Some?
    && (a.status.value ||
        (&& a.confirmedRival == Some(false)
         && a.assertionHashKnown && a.managerKnown
         && a.childrenConfirmed.Some?
         && (if a.childrenConfirmed.value then a.confirmByChildren
             else if a.confirmedClaimExists then a.confirmByClaim
             else
               && a.pathTimer.TimerKnown? && a.challengePeriod.Some?
               && a.pathTimer.blocks >= a.challengePeriod.value && a.confirmByTimer)))
  }

  /** Whether tryToConfirm confirms the edge itself, rather than finding it confirmed. */
  function SubmitsConfirmation(a: Answers): bool {
    Confirms(a) && a.status == Some(false)
  }

  /** The event a round hands to the state machine; none if the round ends with an error before. */
  function Requested(edge: EdgeInfo, state: State, a: Answers): Option<Action> {
    match state
    case Started =>
      if CanOneStepProve(edge).None? then Some(BackToStart)
      else if CanOneStepProve(edge).value then Some(HandleOneStepProof)
      else if Confirms(a) then Some(Confirm)
      else if a.hasRival.None? then None
      else if !a.hasRival.value then Some(BackToStart)
      else if a.hasLengthOneRival.None? then Some(BackToStart)
      else if a.hasLengthOneRival.value then Some(OpenSubchallengeLeaf)
      else Some(Bisect)
    case AtOneStepProof => Some(if a.oneStepProof then Confirm else BackToStart)
    case AddingSubchallengeLeaf =>
      Some(if a.openLeaf.ok && edge.actInterval > 0 then AwaitConfirmation else BackToStart)
    case Bisecting =>
      Some(if a.bisect.ok && edge.actInterval > 0 then AwaitConfirmation else BackToStart)
    case Confirming => Some(if Confirms(a) then Confirm else AwaitConfirmation)
    case Confirmed => Some(Confirm)
  }

  function Count(b: bool): nat {
    if b then 1 else 0
  }

  /** What a round changes on chain. */
  function OnChain(edge: EdgeInfo, s: TrackerState, a: Answers): TrackerState {
    var tries := s.fsm == Confirming || (s.fsm == Started && CanOneStepProve(edge) == Some(false));
    var confirms := (tries && SubmitsConfirmation(a)) || (s.fsm == AtOneStepProof && a.oneStepProof);
    var opens, bisects := s.fsm == AddingSubchallengeLeaf, s.fsm == Bisecting;
    s.(confirmed := s.confirmed || a.confirmedMeanwhile || confirms,
       moves := s.moves + Count((opens && a.openLeaf.ok) || (bisects && a.bisect.ok)),
       bisectionsSent := s.bisectionsSent + Count(bisects && a.bisect.sent),
       leavesSent := s.leavesSent + Count(opens && a.openLeaf.sent),
       bisectionsTried := s.bisectionsTried + Count(bisects))
  }

  function Round(edge: EdgeInfo, s: TrackerState, a: Answers): TrackerState {
    var event := Requested(edge, s.fsm, a);
    var to := if event.None? then None else Goto(event.value, s.fsm);
    OnChain(edge, s, a).(fsm := if to.Some? then to.value else s.fsm)
  }

  function Run(edge: EdgeInfo, rounds: seq<Answers>): TrackerState {
    if rounds == [] then START else Round(edge, Run(edge, rounds[..|rounds| - 1]), rounds[|rounds| - 1])
  }

  ghost predicate TruthfulRun(edge: EdgeInfo, rounds: seq<Answers>) {
    forall i :: 0 <= i < |rounds| ==> Truthful(edge, Run(edge, rounds[..i]), rounds[i])
  }

  // ----- the machine in place -----

  /** The edge on chain: whether it is confirmed, and the challenge moves made on it. */
  class ChainEdge {
    var confirmed: bool
    var moves: nat
    var bisectionsSent: nat
    var leavesSent: nat
    var bisectionsTried: nat

    constructor ()
      ensures !confirmed && moves == bisectionsSent == leavesSent == bisectionsTried == 0
    {
      confirmed, moves, bisectionsSent, leavesSent, bisectionsTried := false, 0, 0, 0, 0;
    }
  }

  datatype ActError = CouldNotCheckPresumptive | Fsm(error: FsmError)

  class Tracker {
    const info: EdgeInfo
    const fsm: Fsm<Action, State>
    const chain: ChainEdge

    ghost predicate Valid()
      reads this, fsm
    {
      fsm.Valid() && fsm.table == TABLE
    }

    ghost function View(): TrackerState
      reads this, fsm, chain
    {
      TrackerState(
        fsm.state, chain.confirmed, chain.moves, chain.bisectionsSent, chain.leavesSent, chain.bisectionsTried)
    }

    constructor (info: EdgeInfo, chain: ChainEdge)
      ensures Valid() && this.info == info && this.chain == chain && fresh(fsm)
      ensures fsm.state == Started
    {
      this.info := info;
      this.chain := chain;
      this.fsm := new Fsm(Started, TABLE, false);
    }

    method TryToConfirm(a: Answers) returns (wasConfirmed: bool)
      modifies chain`confirmed
      ensures wasConfirmed == Confirms(a)
      ensures chain.confirmed == (old(chain.confirmed) || SubmitsConfirmation(a))
    {
      wasConfirmed := false;
      if a.status.None? {
        return;
      }
      if a.status.value {
        return true;
      }
      if a.confirmedRival != Some(false) {
        return;
      }
      if !a.assertionHashKnown || !a.managerKnown {
        return;
      }
      if a.childrenConfirmed.None? {
        return;
      }
      if a.childrenConfirmed.value {
        if !a.confirmByChildren {
          return;
        }
        chain.confirmed := true;
        return true;
      }
      if a.confirmedClaimExists {
        if !a.confirmByClaim {
          return;
        }
        chain.confirmed := true;
        return true;
      }
      if !a.pathTimer.TimerKnown? || a.challengePeriod.None? {
        return;
      }
      if a.pathTimer.blocks >= a.challengePeriod.value {
        if !a.confirmByTimer {
          return;
        }
        chain.confirmed := true;
        return true;
      }
    }

    /** The reads and moves of a round, and the event they lead to. */
    method Decide(a: Answers) returns (event: Option<Action>)
      modifies chain
      ensures event == Requested(info, fsm.state, a)
      ensures View() == OnChain(info, old(View()), a)
    {
      hide Confirms, SubmitsConfirmation, CanOneStepProve;
      if a.confirmedMeanwhile {
        chain.confirmed := true;
      }
      match fsm.state {
      case Started =>
        var canOsp := CanOneStepProve(info);
        if canOsp.None? {
          return Some(BackToStart);
        }
        if canOsp.value {
          return Some(HandleOneStepProof);
        }
        var wasConfirmed := TryToConfirm(a);
        if wasConfirmed {
          return Some(Confirm);
        }
        if a.hasRival.None? {
          return None;
        }
        if !a.hasRival.value {
          return Some(BackToStart);
        }
        if a.hasLengthOneRival.None? {
          return Some(BackToStart);
        }
        return Some(if a.hasLengthOneRival.value then OpenSubchallengeLeaf else Bisect);
      case AtOneStepProof =>
        if !a.oneStepProof {
          return Some(BackToStart);
        }
        chain.confirmed := true;
        return Some(Confirm);
      case AddingSubchallengeLeaf =>
        if a.openLeaf.sent {
          chain.leavesSent := chain.leavesSent + 1;
        }
        if !a.openLeaf.ok {
          return Some(BackToStart);
        }
        chain.moves := chain.moves + 1;
        return Some(if info.actInterval > 0 then AwaitConfirmation else BackToStart);
      case Bisecting =>
        chain.bisectionsTried := chain.bisectionsTried + 1;
        if a.bisect.sent {
          chain.bisectionsSent := chain.bisectionsSent + 1;
        }
        if !a.bisect.ok {
          return Some(BackToStart);
        }
        chain.moves := chain.moves + 1;
        return Some(if info.actInterval > 0 then AwaitConfirmation else BackToStart);
      case Confirming =>
        var wasConfirmed := TryToConfirm(a);
        return Some(if wasConfirmed then Confirm else AwaitConfirmation);
      case Confirmed =>
        return Some(Confirm);
      }
    }

    /** One round: reads and moves on chain, then one event. */
    method Act(a: Answers) returns (r: Option<ActError>)
      requires Valid()
      modifies fsm, chain
      ensures Valid() && View() == Round(info, old(View()), a)
      ensures r == None <==>
                var event := Requested(info, old(fsm.state), a);
                event.Some? && Goto(event.value, old(fsm.state)).Some?
    {
      var event := Decide(a);
      if event.None? {
        return Some(CouldNotCheckPresumptive);
      }
      TableLookup(event.value, fsm.state);
      var failed := fsm.Do(event.value);
      if failed.Some? {
        return Some(ActError.Fsm(failed.value));
      }
      return None;
    }
  }

  // ----- what every run keeps -----

  ghost predicate Safe(edge: EdgeInfo, s: TrackerState) {
    && (s.fsm == Confirmed ==> s.confirmed)
    && s.moves <= 1
    && (s.moves == 1 ==> s.fsm in {Confirming, Confirmed})
    && (s.fsm == Confirming ==> s.moves == 1)
    && (s.fsm == AtOneStepProof ==> OneStepProvable(edge))
    && s.bisectionsSent + s.leavesSent <= 1
    && (s.fsm == Bisecting || s.bisectionsTried > 0 || s.bisectionsSent > 0 ==> edge.start + 2 <= edge.end)
    && (s.fsm == AddingSubchallengeLeaf || s.leavesSent > 0 ==> edge.end == edge.start + 1 && !OneStepProvable(edge))
  }

  /** A single step of the last challenge level. */
  predicate OneStepProvable(edge: EdgeInfo) {
    edge.end == edge.start + 1 && edge.level + 1 == edge.totalLevels
  }

  lemma {:induction false} RoundKeepsSafe(edge: EdgeInfo, s: TrackerState, a: Answers)
    requires edge.actInterval > 0 && Safe(edge, s) && Truthful(edge, s, a)
    ensures Safe(edge, Round(edge, s, a))
    ensures Accepted(edge, s, a)
  {
    hide Destination, Confirms, SubmitsConfirmation;
    if Confirms(a) {
      ConfirmsTruly(edge, s, a);
    }
    if Requested(edge, s.fsm, a).Some? {
      TableLookup(Requested(edge, s.fsm, a).value, s.fsm);
    }
  }

  lemma {:induction false} ConfirmsTruly(edge: EdgeInfo, s: TrackerState, a: Answers)
    requires Truthful(edge, s, a) && Confirms(a)
    ensures s.confirmed || a.confirmedMeanwhile || SubmitsConfirmation(a)
  {
  }

  lemma {:induction false} PrefixSafe(edge: EdgeInfo, rounds: seq<Answers>, k: nat)
    requires edge.actInterval > 0 && TruthfulRun(edge, rounds) && k <= |rounds|
    ensures Safe(edge, Run(edge, rounds[..k]))
    ensures k < |rounds| ==> Accepted(edge, Run(edge, rounds[..k]), rounds[k])
    decreases k
  {
    if k > 0 {
      PrefixSafe(edge, rounds, k - 1);
      RoundKeepsSafe(edge, Run(edge, rounds[..k - 1]), rounds[k - 1]);
      assert rounds[..k][..k - 1] == rounds[..k - 1];
    }
    if k < |rounds| {
      RoundKeepsSafe(edge, Run(edge, rounds[..k]), rounds[k]);
    }
  }

  /** Over every run with truthful answers: the state machine never refuses an event; a tracker in its
      confirmed state has its edge confirmed on chain; at most one challenge move returns without an error and
      none follows it; at most one of its challenge transactions goes through, also when a call fails after
      its transaction; it awaits confirmation only after a move; it bisects only edges of length two or more,
      opens subchallenges only on single steps above the last level and proves only single steps of it. */
  lemma {:induction false} RunSafety(edge: EdgeInfo, rounds: seq<Answers>)
    requires edge.actInterval > 0 && TruthfulRun(edge, rounds)
    ensures Safe(edge, Run(edge, rounds))
    ensures forall i :: 0 <= i < |rounds| ==> Accepted(edge, Run(edge, rounds[..i]), rounds[i])
  {
    PrefixSafe(edge, rounds, |rounds|);
    assert rounds[..|rounds|] == rounds;
    forall i | 0 <= i < |rounds|
      ensures Accepted(edge, Run(edge, rounds[..i]), rounds[i])
    {
      PrefixSafe(edge, rounds, i);
    }
  }

  ghost predicate Accepted(edge: EdgeInfo, s: TrackerState, a: Answers) {
    var event := Requested(edge, s.fsm, a);
    event.Some? ==> Destination(TABLE, event.value, s.fsm).Some?
  }

  /** Confirmed is absorbing, on chain and in the tracker. */
  lemma {:induction false} ConfirmedIsAbsorbing(edge: EdgeInfo, rounds: seq<Answers>, k: nat)
    requires k <= |rounds| && Run(edge, rounds[..k]).fsm == Confirmed
    ensures Run(edge, rounds).fsm == Confirmed
    ensures Run(edge, rounds).moves == Run(edge, rounds[..k]).moves
    ensures Run(edge, rounds).bisectionsTried == Run(edge, rounds[..k]).bisectionsTried
    ensures Run(edge, rounds).leavesSent == Run(edge, rounds[..k]).leavesSent
    decreases |rounds|
  {
    hide Round;
    var n := |rounds| - 1;
    if k == |rounds| {
      assert rounds[..k] == rounds;
    } else {
      assert rounds[..n][..k] == rounds[..k];
      ConfirmedIsAbsorbing(edge, rounds[..n], k);
      ConfirmedStays(edge, Run(edge, rounds[..n]), rounds[n]);
    }
  }

  lemma {:induction false} ConfirmedStays(edge: EdgeInfo, s: TrackerState, a: Answers)
    requires s.fsm == Confirmed
    ensures Round(edge, s, a) == s.(confirmed := s.confirmed || a.confirmedMeanwhile)
  {
  }

  // ----- grounds of a confirmation -----

  /** The children are confirmed, or a confirmed edge claims this one, or the path timer has run for a period. */
  predicate HasGround(a: Answers) {
    || a.childrenConfirmed == Some(true)
    || a.confirmedClaimExists
    || (a.pathTimer.TimerKnown? && a.challengePeriod.Some? && a.pathTimer.blocks >= a.challengePeriod.value)
  }

  /** All reads of tryToConfirm are answered and its transactions go through. */
  predicate Unhindered(a: Answers) {
    && a.status.Some? && a.confirmedRival.Some? && a.assertionHashKnown && a.managerKnown && a.childrenConfirmed.Some?
    && a.pathTimer.TimerKnown? && a.challengePeriod.Some?
    && a.confirmByChildren && a.confirmByClaim && a.confirmByTimer
  }

  /** The tracker confirms an edge only on a ground, never against a confirmed rival, and by time only if neither
      children nor a claim are at hand. */
  lemma {:induction false} ConfirmsOnGround(a: Answers)
    requires SubmitsConfirmation(a)
    ensures HasGround(a) && a.status == Some(false) && a.confirmedRival == Some(false)
    ensures a.childrenConfirmed == Some(false) && !a.confirmedClaimExists ==>
              a.pathTimer.TimerKnown? && a.challengePeriod.Some? && a.pathTimer.blocks >= a.challengePeriod.value
    ensures if a.childrenConfirmed == Some(true) then a.confirmByChildren
            else if a.confirmedClaimExists then a.confirmByClaim else a.confirmByTimer
  {
  }

  /** Unhindered, it confirms exactly if the edge is confirmed already, or has a ground and no confirmed rival. */
  lemma {:induction false} ConfirmsIff(a: Answers)
    requires Unhindered(a)
    ensures Confirms(a) <==> a.status.value || (!a.confirmedRival.value && HasGround(a))
    ensures SubmitsConfirmation(a) <==> !a.status.value && !a.confirmedRival.value && HasGround(a)
  {
  }

  /** What brought about a confirmation in a round: someone else, a one-step proof, or a ground. */
  ghost predicate ConfirmedBecause(s: TrackerState, a: Answers) {
    || a.confirmedMeanwhile
    || (s.fsm == AtOneStepProof && a.oneStepProof)
    || (s.fsm in {Started, Confirming} && a.confirmedRival == Some(false) && HasGround(a))
  }

  lemma {:induction false} RoundConfirms(edge: EdgeInfo, s: TrackerState, a: Answers)
    requires !s.confirmed && Round(edge, s, a).confirmed
    ensures ConfirmedBecause(s, a)
  {
    if SubmitsConfirmation(a) {
      ConfirmsOnGround(a);
    }
  }

  /** Over every run, a confirmed edge was confirmed in some round by someone else, by a one-step proof, or by
      the tracker on a ground. */
  lemma {:induction false} ConfirmedForAReason(edge: EdgeInfo, rounds: seq<Answers>)
    requires Run(edge, rounds).confirmed
    ensures exists i :: 0 <= i < |rounds| && ConfirmedBecause(Run(edge, rounds[..i]), rounds[i])
  {
    var n := |rounds| - 1;
    if Run(edge, rounds[..n]).confirmed {
      ConfirmedForAReason(edge, rounds[..n]);
      var i :| 0 <= i < n && ConfirmedBecause(Run(edge, rounds[..n][..i]), rounds[..n][i]);
      assert rounds[..n][..i] == rounds[..i];
    } else {
      RoundConfirms(edge, Run(edge, rounds[..n]), rounds[n]);
    }
  }

  // ----- progress -----

  /** The reads of a round's decision are answered. */
  predicate Decided(a: Answers) {
    a.hasRival.Some? && a.hasLengthOneRival.Some?
  }

  /** Where a started tracker goes, told by the edge: to the proof of a single last step, else to its
      confirmation if there is one, else nowhere without a rival, else to the subchallenge of a single step or to
      the bisection of a longer edge. Nothing is counted yet. */
  lemma {:induction false} StartedRound(edge: EdgeInfo, s: TrackerState, a: Answers)
    requires s.fsm == Started && edge.start < edge.end && Truthful(edge, s, a) && Decided(a)
    ensures var s' := Round(edge, s, a);
            && s'.fsm == (if OneStepProvable(edge) then AtOneStepProof
                          else if Confirms(a) then Confirmed
                          else if a.hasRival == Some(false) then Started
                          else if edge.end == edge.start + 1 then AddingSubchallengeLeaf
                          else Bisecting)
            && s'.(fsm := Started, confirmed := s.confirmed) == s
            && s'.confirmed == (|| s.confirmed || a.confirmedMeanwhile
                                || (!OneStepProvable(edge) && SubmitsConfirmation(a)))
  {
    hide Confirms, SubmitsConfirmation;
  }

  /** A round gives up exactly if a started tracker that can neither prove nor confirm cannot read its rivals. */
  lemma {:induction false} GivesUpIff(edge: EdgeInfo, s: TrackerState, a: Answers)
    ensures Requested(edge, s.fsm, a).None? <==>
              && s.fsm == Started && edge.start < edge.end && !OneStepProvable(edge) && !Confirms(a) && a.hasRival.None?
  {
    hide Confirms;
  }

  /** A challenge move that returns leads to the wait for confirmation, one that fails back to the start. */
  lemma {:induction false} MoveRound(edge: EdgeInfo, s: TrackerState, a: Answers)
    requires edge.actInterval > 0 && s.fsm in {Bisecting, AddingSubchallengeLeaf}
    ensures var move, s' := if s.fsm == Bisecting then a.bisect else a.openLeaf, Round(edge, s, a);
            && s'.fsm == (if move.ok then Confirming else Started) && s'.moves == s.moves + Count(move.ok)
            && s'.bisectionsSent + s'.leavesSent == s.bisectionsSent + s.leavesSent + Count(move.sent)
            && (s.fsm == Bisecting ==> s'.leavesSent == s.leavesSent && s'.bisectionsTried == s.bisectionsTried + 1)
            && (s.fsm != Bisecting ==>
                  s'.bisectionsSent == s.bisectionsSent && s'.bisectionsTried == s.bisectionsTried)
            && s'.confirmed == (s.confirmed || a.confirmedMeanwhile)
  {
    hide Confirms, SubmitsConfirmation, CanOneStepProve;
  }

  /** Waiting trackers and provers end up confirmed exactly if the attempt succeeds. */
  lemma {:induction false} LastRound(edge: EdgeInfo, s: TrackerState, a: Answers)
    requires s.fsm in {AtOneStepProof, Confirming}
    ensures var succeeds := if s.fsm == Confirming then Confirms(a) else a.oneStepProof;
            && Round(edge, s, a).fsm == (if succeeds then Confirmed
                                         else if s.fsm == Confirming then Confirming else Started)
            && Round(edge, s, a).moves == s.moves
  {
    hide Confirms, SubmitsConfirmation, CanOneStepProve;
  }

  /** Two rounds in which the reads are answered and the moves succeed are enough: from its start a tracker of a
      rivaled edge without a ground for confirmation has proved a single last step, or has bisected a longer edge
      or opened the subchallenge of a single step, and waits. */
  lemma {:induction false} TwoRoundsMove(edge: EdgeInfo, rounds: seq<Answers>, a: Answers, b: Answers)
    requires edge.actInterval > 0 && edge.start < edge.end && TruthfulRun(edge, rounds)
    requires Run(edge, rounds).fsm == Started && Truthful(edge, Run(edge, rounds), a)
    requires Decided(a) && a.hasRival == Some(true) && !Confirms(a)
    requires b.oneStepProof && b.bisect.ok && b.openLeaf.ok
    ensures var s := Run(edge, rounds + [a, b]);
            if OneStepProvable(edge) then s.fsm == Confirmed
            else s.fsm == Confirming && s.moves == 1 && (edge.start + 2 <= edge.end ==> s.bisectionsTried > 0)
  {
    hide Round, Confirms, Truthful;
    var s := Run(edge, rounds);
    RunSafety(edge, rounds);
    RunTwo(edge, rounds, a, b);
    StartedRound(edge, s, a);
    if OneStepProvable(edge) {
      LastRound(edge, Round(edge, s, a), b);
    } else {
      MoveRound(edge, Round(edge, s, a), b);
    }
  }

  /** An unhindered round of a tracker that tries to confirm ends confirmed, in the tracker and on chain, exactly
      if the edge is confirmed already or has a ground and no confirmed rival. */
  lemma {:induction false} UnhinderedRoundConfirmsIff(edge: EdgeInfo, rounds: seq<Answers>, a: Answers)
    requires edge.actInterval > 0 && edge.start < edge.end && !OneStepProvable(edge) && TruthfulRun(edge, rounds)
    requires Run(edge, rounds).fsm in {Started, Confirming} && Truthful(edge, Run(edge, rounds), a)
    requires Unhindered(a) && Decided(a)
    ensures var s := Run(edge, rounds + [a]);
            && (s.fsm == Confirmed <==> a.status.value || (!a.confirmedRival.value && HasGround(a)))
            && (s.fsm == Confirmed ==> s.confirmed)
  {
    hide Round, Confirms, SubmitsConfirmation, Truthful, Unhindered, HasGround;
    var s := Run(edge, rounds);
    assert (rounds + [a])[..|rounds|] == rounds;
    RunSafety(edge, rounds);
    RoundKeepsSafe(edge, s, a);
    ConfirmsIff(a);
    if s.fsm == Started {
      StartedRound(edge, s, a);
    } else {
      LastRound(edge, s, a);
    }
  }

  lemma {:induction false} RunTwo(edge: EdgeInfo, rounds: seq<Answers>, a: Answers, b: Answers)
    ensures Run(edge, rounds + [a, b]) == Round(edge, Round(edge, Run(edge, rounds), a), b)
  {
    var two, n := rounds + [a, b], |rounds|;
    assert two[..n + 1] == rounds + [a] && (rounds + [a])[..n] == rounds;
  }
}
