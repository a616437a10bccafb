/** Confirmation of assertions and the cache of completed challenges. */
module AssertionChain {
  import opened Outcomes

  type AssertionHash = nat

  /** Parents of all assertions (the genesis assertion has none), the confirmed ones and the latest. */
  datatype Ledger = Ledger(
    parents: map<AssertionHash, Option<AssertionHash>>,
    confirmed: set<AssertionHash>,
    latestConfirmed: AssertionHash)

  datatype State = State(ledger: Ledger, cache: set<AssertionHash>)

  /** What the chain answers a confirmation: which reads succeed, whether the inbox count of the parent fits a
      word, whether the transaction goes through and whether its receipt has logs. */
  datatype ConfirmAnswers = ConfirmAnswers(
    assertion: bool, creation: bool, parentCreation: bool, latest: bool, inboxCount: bool, submitted: bool, logs: bool)

  /** Create is a transaction and Confirm may end in one. Ask is IsChallengeComplete; the flags say which of
      its two reads of the chain succeed. */
  datatype Op =
    | Create(hash: AssertionHash, parent: AssertionHash)
    | Confirm(assertion: AssertionHash, answers: ConfirmAnswers)
    | Ask(challengeParent: AssertionHash, statusReadable: bool, latestReadable: bool)

  datatype ConfirmError =
    | ReadFailed | UnknownAssertion | ParentNotLatestConfirmed | InboxCountTooLarge | TransactionFailed | NoLogs

  /** A challenge is complete once its parent is confirmed and no longer the latest. */
  predicate Complete(l: Ledger, h: AssertionHash) {
    h in l.confirmed && h != l.latestConfirmed
  }

  /** A confirmation without logs is reported as an error although it went through. */
  function ConfirmSpec(l: Ledger, h: AssertionHash, a: ConfirmAnswers): (Ledger, Option<ConfirmError>) {
    if !a.assertion then (l, Some(ReadFailed))
    else if h !in l.parents then (l, Some(UnknownAssertion))
    else if h in l.confirmed then (l, None)
    else if !a.creation then (l, Some(ReadFailed))
    else if l.parents[h].None? then (l, None)
    else if !a.parentCreation || !a.latest then (l, Some(ReadFailed))
    else if l.parents[h].value != l.latestConfirmed then (l, Some(ParentNotLatestConfirmed))
    else if !a.inboxCount then (l, Some(InboxCountTooLarge))
    else if !a.submitted then (l, Some(TransactionFailed))
    else (l.(confirmed := l.confirmed + {h}, latestConfirmed := h), if a.logs then None else Some(NoLogs))
  }

  function AskSpec(s: State, h: AssertionHash, statusReadable: bool, latestReadable: bool): (State, Option<bool>) {
    if h in s.cache then (s, Some(true))
    else if !statusReadable then (s, None)
    else if h !in s.ledger.confirmed then (s, Some(false))
    else if !latestReadable then (s, None)
    else if s.ledger.latestConfirmed == h then (s, Some(false))
    else (s.(cache := s.cache + {h}), Some(true))
  }

  function Apply(s: State, op: Op): State {
    match op
    case Create(h, parent) =>
      if h in s.ledger.parents || parent !in s.ledger.parents then s
      else s.(ledger := s.ledger.(parents := s.ledger.parents[h := Some(parent)]))
    case Confirm(h, a) => s.(ledger := ConfirmSpec(s.ledger, h, a).0)
    case Ask(h, statusReadable, latestReadable) => AskSpec(s, h, statusReadable, latestReadable).0
  }

  function Genesis(g: AssertionHash): State {
    State(Ledger(map[g := None], {g}, g), {})
  }

  function Run(g: AssertionHash, ops: seq<Op>): State {
    if ops == [] then Genesis(g) else Apply(Run(g, ops[..|ops| - 1]), ops[|ops| - 1])
  }

  // ----- the wrapper in place -----

  class Wrapper {
    var ledger: Ledger
    var confirmedChallengesByParentAssertionHash: set<AssertionHash>

    ghost function View(): State
      reads this
    {
      State(ledger, confirmedChallengesByParentAssertionHash)
    }

    constructor (g: AssertionHash)
      ensures View() == Genesis(g)
    {
      ledger := Genesis(g).ledger;
      confirmedChallengesByParentAssertionHash := {};
    }

    method IsChallengeComplete(challengeParent: AssertionHash, statusReadable: bool, latestReadable: bool)
        returns (r: Option<bool>)
      modifies this`confirmedChallengesByParentAssertionHash
      ensures (View(), r) == AskSpec(old(View()), challengeParent, statusReadable, latestReadable)
    {
      if challengeParent in confirmedChallengesByParentAssertionHash {
        return Some(true);
      }
      if !statusReadable {
        return None;
      }
      if challengeParent !in ledger.confirmed {
        return Some(false);
      }
      if !latestReadable {
        return None;
      }
      var challengeConfirmed := ledger.latestConfirmed != challengeParent;
      if challengeConfirmed {
        confirmedChallengesByParentAssertionHash := confirmedChallengesByParentAssertionHash + {challengeParent};
      }
      return Some(challengeConfirmed);
    }

    method ConfirmAssertionByChallengeWinner(assertion: AssertionHash, a: ConfirmAnswers)
        returns (r: Option<ConfirmError>)
      modifies this`ledger
      ensures (ledger, r) == ConfirmSpec(old(ledger), assertion, a)
    {
      if !a.assertion {
        return Some(ReadFailed);
      }
      if assertion !in ledger.parents {
        return Some(UnknownAssertion);
      }
      if assertion in ledger.confirmed {
        return None;
      }
      if !a.creation {
        return Some(ReadFailed);
      }
      if ledger.parents[assertion].None? {
        return None;
      }
      if !a.parentCreation {
        return Some(ReadFailed);
      }
      if !a.latest {
        return Some(ReadFailed);
      }
      if ledger.parents[assertion].value != ledger.latestConfirmed {
        return Some(ParentNotLatestConfirmed);
      }
      if !a.inboxCount {
        return Some(InboxCountTooLarge);
      }
      if !a.submitted {
        return Some(TransactionFailed);
      }
      ledger := ledger.(confirmed := ledger.confirmed + {assertion}, latestConfirmed := assertion);
      if !a.logs {
        return Some(NoLogs);
      }
      return None;
    }
  }

  // ----- every run -----

  /** line lists the confirmed assertions from genesis to the latest, each the child of the one before. */
  ghost predicate OneLine(l: Ledger, line: seq<AssertionHash>) {
    && |line| > 0 && line[|line| - 1] == l.latestConfirmed
    && (forall i :: 0 <= i < |line| ==> line[i] in l.confirmed && line[i] in l.parents)
    && (forall h :: h in l.confirmed ==> h in line)
    && (forall i, j :: 0 <= i < j < |line| ==> line[i] != line[j])
    && l.parents[line[0]] == None
    && (forall i :: 0 < i < |line| ==> l.parents[line[i]] == Some(line[i - 1]))
  }

  ghost predicate CacheTrue(s: State) {
    forall h :: h in s.cache ==> Complete(s.ledger, h)
  }

  /** The line of confirmed assertions after a run. */
  ghost function LineOf(g: AssertionHash, ops: seq<Op>): seq<AssertionHash> {
    if ops == [] then [g]
    else
      var n := |ops| - 1;
      var before := Run(g, ops[..n]);
      var after := Apply(before, ops[n]);
      LineOf(g, ops[..n]) +
      if after.ledger.latestConfirmed != before.ledger.latestConfirmed then [after.ledger.latestConfirmed] else []
  }

  lemma {:induction false} ApplyKeepsLine(s: State, op: Op, line: seq<AssertionHash>)
    requires OneLine(s.ledger, line) && CacheTrue(s)
    ensures var s' := Apply(s, op);
            && OneLine(s'.ledger, line +
                 if s'.ledger.latestConfirmed != s.ledger.latestConfirmed then [s'.ledger.latestConfirmed] else [])
            && CacheTrue(s')
  {
    var s' := Apply(s, op);
    assert s.ledger.latestConfirmed in s.ledger.confirmed;
    assert line + [] == line;
    if s'.ledger.latestConfirmed != s.ledger.latestConfirmed {
      var line' := line + [s'.ledger.latestConfirmed];
      assert forall h :: h in s'.ledger.confirmed ==> h in line';
    }
  }

  /** Over every run the confirmed assertions form one line, and every cached answer is true. */
  lemma {:induction false} RunKeepsLine(g: AssertionHash, ops: seq<Op>)
    ensures OneLine(Run(g, ops).ledger, LineOf(g, ops))
    ensures CacheTrue(Run(g, ops))
  {
    if ops != [] {
      RunKeepsLine(g, ops[..|ops| - 1]);
      ApplyKeepsLine(Run(g, ops[..|ops| - 1]), ops[|ops| - 1], LineOf(g, ops[..|ops| - 1]));
    }
  }

  /** No two confirmed assertions share a parent. */
  lemma {:induction false} NoConfirmedSiblings(g: AssertionHash, ops: seq<Op>, a: AssertionHash, b: AssertionHash)
    requires a in Run(g, ops).ledger.confirmed && b in Run(g, ops).ledger.confirmed && a != b
    ensures a in Run(g, ops).ledger.parents && b in Run(g, ops).ledger.parents
    ensures Run(g, ops).ledger.parents[a] != Run(g, ops).ledger.parents[b]
  {
    RunKeepsLine(g, ops);
    var line, l := LineOf(g, ops), Run(g, ops).ledger;
    var i :| 0 <= i < |line| && line[i] == a;
    var j :| 0 <= j < |line| && line[j] == b;
    assert i > 0 ==> l.parents[line[i]] == Some(line[i - 1]);
    assert j > 0 ==> l.parents[line[j]] == Some(line[j - 1]);
  }

  /** Over every run IsChallengeComplete answers, from the cache or not, what the chain would. It has an answer
      for every cached parent, and for any other exactly if the reads it needs succeed. A true answer is kept. */
  lemma {:induction false} CachedAnswerIsTrue(
      g: AssertionHash, ops: seq<Op>, h: AssertionHash, statusReadable: bool, latestReadable: bool)
    ensures var s := Run(g, ops);
            var (s', answer) := AskSpec(s, h, statusReadable, latestReadable);
            && (answer.Some? <==> h in s.cache || (statusReadable && (h in s.ledger.confirmed ==> latestReadable)))
            && (answer.Some? ==> answer.value == Complete(s.ledger, h))
            && s'.ledger == s.ledger && s'.cache == s.cache + (if answer == Some(true) then {h} else {})
  {
    RunKeepsLine(g, ops);
    var s := Run(g, ops);
    if h in s.cache {
      assert s.cache + {h} == s.cache;
    }
    assert s.cache + {} == s.cache;
  }

  // ----- what a confirmation answers -----

  /** Only the genesis assertion has no parent, and it is confirmed. */
  lemma {:induction false} OnlyGenesisIsParentless(g: AssertionHash, ops: seq<Op>)
    ensures var l := Run(g, ops).ledger;
            g in l.confirmed && forall h :: h in l.parents && l.parents[h] == None ==> h == g
  {
    if ops != [] {
      OnlyGenesisIsParentless(g, ops[..|ops| - 1]);
    }
  }

  lemma {:induction false} ConfirmedIsKnown(g: AssertionHash, ops: seq<Op>, h: AssertionHash)
    ensures h in Run(g, ops).ledger.confirmed ==> h in Run(g, ops).ledger.parents
  {
    RunKeepsLine(g, ops);
    var line := LineOf(g, ops);
    if h in Run(g, ops).ledger.confirmed {
      var i :| 0 <= i < |line| && line[i] == h;
    }
  }

  /** Over every run, a confirmation that reports success has its assertion confirmed; one that reports an error
      other than missing logs has changed nothing. */
  lemma {:induction false} SuccessMeansConfirmed(g: AssertionHash, ops: seq<Op>, h: AssertionHash, a: ConfirmAnswers)
    ensures var l := Run(g, ops).ledger;
            var (l', answer) := ConfirmSpec(l, h, a);
            && (answer.None? || answer == Some(NoLogs) ==> h in l'.confirmed)
            && (answer.None? && h !in l.confirmed ==> AllGood(a))
            && (answer.Some? && answer != Some(NoLogs) ==> l' == l && (a.assertion ==> h !in l.confirmed))
  {
    OnlyGenesisIsParentless(g, ops);
    ConfirmedIsKnown(g, ops, h);
  }

  /** An assertion without a parent is left alone, whatever the ledger. */
  lemma {:induction false} ParentlessIsLeftAlone(l: Ledger, h: AssertionHash, a: ConfirmAnswers)
    requires h in l.parents && l.parents[h] == None && a.assertion && a.creation
    ensures ConfirmSpec(l, h, a) == (l, None)
  {
  }

  predicate AllGood(a: ConfirmAnswers) {
    a.assertion && a.creation && a.parentCreation && a.latest && a.inboxCount && a.submitted && a.logs
  }

  /** Over every run, with all reads and the transaction succeeding, a known assertion that is not confirmed yet
      is confirmed, becomes the latest and is reported as success exactly if its parent is the latest confirmed. */
  lemma {:induction false} ConfirmsIffParentIsLatest(
      g: AssertionHash, ops: seq<Op>, h: AssertionHash, a: ConfirmAnswers)
    requires h in Run(g, ops).ledger.parents && h !in Run(g, ops).ledger.confirmed && AllGood(a)
    ensures var l := Run(g, ops).ledger;
            var (l', answer) := ConfirmSpec(l, h, a);
            && (answer.None? <==> l.parents[h] == Some(l.latestConfirmed))
            && (h in l'.confirmed <==> l.parents[h] == Some(l.latestConfirmed))
            && (h in l'.confirmed ==> l'.latestConfirmed == h && l'.confirmed == l.confirmed + {h})
            && (h !in l'.confirmed ==> answer == Some(ParentNotLatestConfirmed))
            && l'.parents == l.parents
  {
    OnlyGenesisIsParentless(g, ops);
  }
}
