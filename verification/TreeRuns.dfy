/** The challenge tree next to the chain: what holds over every run of transactions and every run of calls
    on the tree, for a validator with one local history per challenge. */
module TreeRuns {
  import opened Bits
  import Bisection
  import opened Merkle
  import opened Outcomes
  import opened Protocol
  import opened OriginHeights
  import opened Timers
  import opened TreeIndex
  import opened Ancestors
  import opened PathTimers
  import opened ChallengeTree

  /** The validator's own leaves of a challenge, given by its level and the heights it originates from. */
  type LocalHistory = (nat, seq<nat>) -> seq<Hash>

  function LocalLeaves(local: LocalHistory, m: MutualId): seq<Hash> {
    local(m.level, if m.level == 0 then [] else ClaimHeights(m))
  }

  predicate HonestStart(local: LocalHistory, m: MutualId) {
    m.startHeight < |LocalLeaves(local, m)| && m.startHistory == LocalLeaves(local, m)[..m.startHeight + 1]
  }

  predicate HonestEnd(local: LocalHistory, id: EdgeId) {
    var m := id.mutual;
    m.endHeight < |LocalLeaves(local, m)| && id.endHistory == LocalLeaves(local, m)[..m.endHeight + 1]
  }

  /** Reads of chain and state provider may fail, but what they answer is right. */
  ghost predicate TellsTruth(b: Backend, local: LocalHistory) {
    && (forall m :: b.claimHeights(m).Some? ==> b.claimHeights(m).value == ClaimHeights(m))
    && (forall level: nat, heights, height: nat, history {:trigger b.agrees(level, heights, height, history)} ::
          b.agrees(level, heights, height, history).Some? ==>
            (b.agrees(level, heights, height, history).value <==>
               height < |local(level, heights)| && history == local(level, heights)[..height + 1]))
  }

  /** Edges added without asking the state provider are the validator's own. */
  ghost predicate OwnEdgesHonest(local: LocalHistory, calls: seq<Call>) {
    forall i :: 0 <= i < |calls| && calls[i].AddHonest? ==> HonestEnd(local, calls[i].edge.id)
  }

  /** A run of transactions on chain, and a run of calls on the tree about edges of that chain. */
  datatype TreeRun = TreeRun(
    heights: seq<nat>, steps: seq<Step>, backend: Backend, local: LocalHistory, assertion: nat, calls: seq<Call>)
  {
    ghost predicate Valid() {
      && ValidHeights(heights) && FromChain(Exec(heights, steps).edges, calls)
      && TellsTruth(backend, local) && OwnEdgesHonest(local, calls)
    }

    ghost function OnChain(): Chain
      requires ValidHeights(heights)
    {
      Exec(heights, steps)
    }

    ghost function Log(): Logged {
      RunCalls(backend, assertion, |heights|, calls)
    }

    ghost function Index(): Tree {
      Log().tree
    }
  }

  // ----- honesty -----

  /** The two agreements of AddEdge are about the local history. */
  lemma {:induction false} AgreementsAreTrue(b: Backend, local: LocalHistory, id: EdgeId)
    requires TellsTruth(b, local)
    ensures EndAgreement(b, id).Some? ==> (EndAgreement(b, id).value <==> HonestEnd(local, id))
    ensures var start := StartAgreement(b, id.mutual);
            start.Some? ==> (start.value <==> HonestStart(local, id.mutual))
  {
    hide ClaimHeights;
    var m := id.mutual;
    if b.claimHeights(m).Some? {
      assert b.claimHeights(m).value == ClaimHeights(m);
    }
  }

  /** An edge whose end is honest starts honestly. */
  lemma {:induction false} HonestEndHasHonestStart(heights: seq<nat>, local: LocalHistory, id: EdgeId)
    requires Shaped(heights, id) && HonestEnd(local, id)
    ensures HonestStart(local, id.mutual)
  {
    hide ClaimHeights;
    var leaves, m := LocalLeaves(local, id.mutual), id.mutual;
    assert leaves[..m.endHeight + 1][..m.startHeight + 1] == leaves[..m.startHeight + 1];
  }

  lemma {:induction false} CallsTrackHonest(
      b: Backend, local: LocalHistory, assertion: nat, totalLevels: nat, calls: seq<Call>, id: EdgeId)
    requires TellsTruth(b, local) && OwnEdgesHonest(local, calls)
    requires id in RunCalls(b, assertion, totalLevels, calls).tree.edges
    ensures HonestEnd(local, id)
  {
    hide HonestEnd, TellsTruth, EndAgreement, StartAgreement;
    var n := |calls| - 1;
    var before := RunCalls(b, assertion, totalLevels, calls[..n]);
    if id in before.tree.edges {
      CallsTrackHonest(b, local, assertion, totalLevels, calls[..n], id);
    } else if calls[n].Add? {
      AgreementsAreTrue(b, local, id);
    }
  }

  /** Over every run all tracked edges are honest. */
  lemma {:induction false} TrackedAreHonest(run: TreeRun, id: EdgeId)
    requires run.Valid() && id in run.Index().edges
    ensures HonestEnd(run.local, id)
  {
    CallsTrackHonest(run.backend, run.local, run.assertion, |run.heights|, run.calls, id);
  }

  /** The facts about a run that the rest builds on. */
  lemma {:induction false} RunFacts(run: TreeRun)
    requires run.Valid()
    ensures Inv(run.heights, run.OnChain()) && IndexAgrees(run.OnChain().edges, run.backend, run.Log())
    ensures run.Index().totalLevels == |run.heights|
  {
    ExecInv(run.heights, run.steps);
    RunKeepsIndex(run.OnChain().edges, run.backend, run.assertion, |run.heights|, run.calls);
    LevelsKept(run.backend, run.assertion, |run.heights|, run.calls);
  }

  lemma {:induction false} LevelsKept(b: Backend, assertion: nat, totalLevels: nat, calls: seq<Call>)
    ensures var t := RunCalls(b, assertion, totalLevels, calls).tree;
            t.totalLevels == totalLevels && t.topLevelAssertion == assertion
  {
    hide Judge;
    if calls != [] {
      LevelsKept(b, assertion, totalLevels, calls[..|calls| - 1]);
    }
  }

  // ----- the indexes -----

  /** Over every run the recorded group of a tracked edge is a scan of all edges ever added. */
  lemma {:induction false} TrackedGroupIsScan(run: TreeRun, id: EdgeId)
    requires run.Valid() && id in run.Index().edges
    ensures Mutuals(run.Index(), id.mutual) == Scan(run.Log(), id.mutual)
  {
    hide Inv, MutualsAgree, RootsAgree, StartAgreement, EndAgreement, HonestEnd, HonestStart, Scan, Mutuals, RunCalls;
    RunFacts(run);
    var l, m := run.Log(), id.mutual;
    TrackedAreHonest(run, id);
    assert Shaped(run.heights, id) by { TrackedIsOnChain(run, id); }
    HonestEndHasHonestStart(run.heights, run.local, id);
    AgreementsAreTrue(run.backend, run.local, id);
    GroupIsScanIff(run.OnChain().edges, run.backend, l, m);
  }

  lemma {:induction false} TrackedIsOnChain(run: TreeRun, id: EdgeId)
    requires run.Valid() && id in run.Index().edges
    ensures id in run.OnChain().edges && run.Index().edges[id] == run.OnChain().edges[id]
    ensures run.Index().edges[id].id == id && Shaped(run.heights, id)
  {
    hide MutualsAgree, RootsAgree, RunCalls, Exec, Shaped;
    RunFacts(run);
    assert InWorld(run.OnChain().edges, run.Log().added[id]);
  }

  /** Adding one of the validator's own edges again changes nothing: an honest edge that was added is tracked. */
  lemma {:induction false} RepeatedAddHonestChangesNothing(run: TreeRun, e: Edge)
    requires run.Valid() && HonestEnd(run.local, e.id) && e.id in run.Log().added
    ensures ApplyCall(run.backend, run.Log(), AddHonest(e)) == run.Log()
  {
    hide Inv, MutualsAgree, RootsAgree, EndAgreement, StartAgreement, HonestEnd, RunCalls;
    RunFacts(run);
    AgreementsAreTrue(run.backend, run.local, e.id);
  }

  /** Once all edges a group has on chain were added, the tree knows exactly the chain's group. */
  lemma {:induction false} TrackedGroupIsChains(run: TreeRun, id: EdgeId)
    requires run.Valid() && id in run.Index().edges && GroupAdded(run, id.mutual)
    ensures Mutuals(run.Index(), id.mutual) == GroupOf(run.OnChain(), id.mutual)
  {
    hide Inv, MutualsAgree, RootsAgree, Mutuals, RunCalls, Exec;
    RunFacts(run);
    TrackedGroupIsScan(run, id);
    var c, l := run.OnChain(), run.Log();
    assert forall g :: g in l.added ==> InWorld(c.edges, l.added[g]);
    assert Scan(l, id.mutual) == GroupOf(c, id.mutual);
  }

  ghost predicate GroupAdded(run: TreeRun, m: MutualId)
    requires ValidHeights(run.heights)
  {
    forall g :: g in run.OnChain().edges && g.mutual == m ==> g in run.Log().added
  }

  /** A level has at most one honest level zero edge per origin. */
  lemma {:induction false} HonestRootUnique(heights: seq<nat>, local: LocalHistory, e: Edge, f: Edge)
    requires Shaped(heights, e.id) && Shaped(heights, f.id) && ClaimOk(heights, e) && ClaimOk(heights, f)
    requires e.claim.Some? && f.claim.Some? && HonestEnd(local, e.id) && HonestEnd(local, f.id)
    requires e.id.mutual.level == f.id.mutual.level && e.id.mutual.origin == f.id.mutual.origin
    ensures e.id == f.id
  {
    hide OriginStarts;
    assert LocalLeaves(local, e.id.mutual) == LocalLeaves(local, f.id.mutual);
  }

  /** Over every run each tracked level zero edge is the one its level's root list yields for its origin. */
  lemma {:induction false} TrackedRootIsRegistered(run: TreeRun, id: EdgeId)
    requires run.Valid() && id in run.Index().edges && run.Index().edges[id].claim.Some?
    ensures Registered(run.Index(), run.Index().edges[id])
  {
    hide MutualsAgree, RunCalls, Exec, HonestEnd, ClaimOk, Shaped, Registered;
    RunFacts(run);
    var t := run.Index();
    var e := t.edges[id];
    TrackedIsHonestRoot(run, id);
    forall f | IsRootAt(t, f, ReversedLevel(t, e.id.mutual)) && f.id.mutual.origin == e.id.mutual.origin
      ensures f == e
    {
      TrackedIsHonestRoot(run, f.id);
      HonestRootUnique(run.heights, run.local, e, f);
    }
    OnlyRootIsRegistered(t, e);
  }

  lemma {:induction false} TrackedIsHonestRoot(run: TreeRun, id: EdgeId)
    requires run.Valid() && id in run.Index().edges
    ensures var e := run.Index().edges[id];
            e.id == id && Shaped(run.heights, id) && ClaimOk(run.heights, e) && HonestEnd(run.local, id)
  {
    hide MutualsAgree, RootsAgree, RunCalls, Exec, HonestEnd, ClaimOk, Shaped;
    RunFacts(run);
    TrackedIsOnChain(run, id);
    TrackedAreHonest(run, id);
    assert ClaimOk(run.heights, run.OnChain().edges[id]);
  }

  /** After every run the tree can be searched: its edges are the chain's, its root lists are sound, and each
      tracked level zero edge is found by its origin. */
  lemma {:induction false} RunIsSearchable(run: TreeRun)
    requires run.Valid()
    ensures Mirrors(run.OnChain(), run.Index()) && TreeKeyed(run.Index()) && RootsTracked(run.Index())
    ensures forall id :: id in run.Index().edges && run.Index().edges[id].claim.Some? ==>
              Registered(run.Index(), run.Index().edges[id])
  {
    hide MutualsAgree, RunCalls, Exec, Registered, Shaped, WordHeights;
    RunFacts(run);
    var c, t := run.OnChain(), run.Index();
    InvHalving(run.heights, c);
    forall id | id in t.edges
      ensures id in c.edges && t.edges[id] == c.edges[id] && t.edges[id].id == id && WordHeights(id)
      ensures t.edges[id].claim.Some? ==> Registered(t, t.edges[id])
    {
      TrackedIsOnChain(run, id);
      WordsInChain(run.heights, c, id);
      if t.edges[id].claim.Some? {
        TrackedRootIsRegistered(run, id);
      }
    }
    forall level: int, e | e in Roots(t, level)
      ensures InWorld(t.edges, e) && WordHeights(e.id)
    {
      assert IsRootAt(t, e, level);
    }
  }

  // ----- what AddEdge answers -----

  /** The assertion over whose batches the histories of an edge's challenge are computed: the one the edge claims
      or else the one the only tracked block level root claims. */
  ghost predicate ChallengeClaims(t: Tree, e: Edge, assertion: nat) {
    if e.id.mutual.level == 0 && e.claim.Some? then e.claim == Some(ClaimAssertion(assertion))
    else exists f :: OnlyBlockRoot(t, f) && f.claim == Some(ClaimAssertion(assertion))
  }

  /** What the state provider says about a commitment of the edge's challenge. */
  function Asked(b: Backend, m: MutualId, height: nat, history: seq<Hash>): Option<bool> {
    b.agrees(m.level, if m.level == 0 then [] else ClaimHeights(m), height, history)
  }

  /** Over every run, what a successful AddEdge answers is true of the edge, and the edge is tracked exactly if
      it is honest. */
  lemma {:induction false} AddEdgeAnswersTruly(run: TreeRun, e: Edge)
    requires run.Valid()
    ensures var (t, r) := AddEdge(run.backend, run.Index(), e);
            r.Ok? ==>
              && (r.value.isHonestEdge <==> HonestEnd(run.local, e.id))
              && (r.value.agreesWithStart <==> HonestStart(run.local, e.id.mutual))
              && (e.id in t.edges <==> HonestEnd(run.local, e.id))
              && (HonestEnd(run.local, e.id) || HonestStart(run.local, e.id.mutual) ==>
                    e.id in Mutuals(t, e.id.mutual) && Mutuals(t, e.id.mutual)[e.id] == e.createdAt)
  {
    hide EndAgreement, StartAgreement, HonestEnd, HonestStart, RunCalls, TellsTruth;
    AgreementsAreTrue(run.backend, run.local, e.id);
  }

  /** Over every run AddEdge succeeds exactly if the edge is new, of this challenge, the assertion its challenge
      is about is known, and its heights and both its commitments can be read. */
  lemma {:induction false} AddEdgeOkIff(run: TreeRun, e: Edge)
    requires run.Valid() && InWorld(run.OnChain().edges, e)
    ensures AddEdge(run.backend, run.Index(), e).1.Ok? <==>
              && e.id !in run.Index().edges
              && run.backend.topLevelAssertion(e.id) == Some(run.assertion)
              && (exists a :: ChallengeClaims(run.Index(), e, a) && run.backend.hasCreationInfo(a))
              && run.backend.claimHeights(e.id.mutual).Some?
              && Asked(run.backend, e.id.mutual, e.id.mutual.endHeight, e.id.endHistory).Some?
              && Asked(run.backend, e.id.mutual, e.id.mutual.startHeight, e.id.mutual.startHistory).Some?
  {
    hide Inv, IndexAgrees, RunCalls, Exec, HonestBlockRoot, OnlyBlockRoot;
    RunFacts(run);
    ClaimedIff(run, e);
    HeightsAreRead(run, e.id);
    LevelsKept(run.backend, run.assertion, |run.heights|, run.calls);
  }

  /** Over every run an edge that is tracked, or belongs to another challenge, is refused as such. */
  lemma {:induction false} AddEdgeRefuses(run: TreeRun, e: Edge)
    requires run.Valid()
    ensures var r := AddEdge(run.backend, run.Index(), e).1;
            && (r == Err(AlreadyBeingTracked) <==> e.id in run.Index().edges)
            && (r == Err(MismatchedChallengeAssertion) <==>
                  && e.id !in run.Index().edges && run.backend.topLevelAssertion(e.id).Some?
                  && run.backend.topLevelAssertion(e.id).value != run.assertion)
  {
    hide EndAgreement, StartAgreement, RunCalls;
    LevelsKept(run.backend, run.assertion, |run.heights|, run.calls);
  }

  /** The assertion asked about is the one the challenge claims. */
  lemma {:induction false} ClaimedIff(run: TreeRun, e: Edge)
    requires run.Valid() && InWorld(run.OnChain().edges, e)
    ensures forall a: nat :: ClaimedAssertion(run.Index(), e) == Ok(a) <==> ChallengeClaims(run.Index(), e, a)
  {
    hide RunCalls, Exec, MutualsAgree, HonestBlockRoot, OnlyBlockRoot;
    RunFacts(run);
    var c, t := run.OnChain(), run.Index();
    assert ClaimOk(run.heights, c.edges[e.id]);
    forall f
      ensures HonestBlockRoot(t) == Ok(f) <==> OnlyBlockRoot(t, f)
      ensures OnlyBlockRoot(t, f) ==> f.claim.Some? && f.claim.value.ClaimAssertion?
    {
      BlockRootIff(t, f);
      if OnlyBlockRoot(t, f) {
        BlockRootClaims(run, f);
      }
    }
  }

  lemma {:induction false} BlockRootClaims(run: TreeRun, f: Edge)
    requires run.Valid() && OnlyBlockRoot(run.Index(), f)
    ensures f.claim.Some? && f.claim.value.ClaimAssertion?
  {
    hide RunCalls, Exec, MutualsAgree, RootsAgree;
    RunFacts(run);
    TrackedIsOnChain(run, f.id);
    assert ClaimOk(run.heights, run.OnChain().edges[f.id]);
  }

  /** Below the block level claim heights that can be read are never empty. */
  lemma {:induction false} HeightsAreRead(run: TreeRun, id: EdgeId)
    requires run.Valid() && id in run.OnChain().edges
    ensures run.backend.claimHeights(id.mutual).Some? ==>
              && run.backend.claimHeights(id.mutual).value == ClaimHeights(id.mutual)
              && (id.mutual.level > 0 ==> ClaimHeights(id.mutual) != [])
  {
    hide RunCalls, Exec, OriginStarts;
    ExecInv(run.heights, run.steps);
    ExecKeepsOrigins(run.heights, run.steps);
    StartsLength(run.heights, run.OnChain(), id);
  }

  /** All calls about block level edges are about one challenge. */
  ghost predicate OneChallenge(calls: seq<Call>, origin: OriginId) {
    forall i :: 0 <= i < |calls| && !calls[i].Read? && calls[i].edge.id.mutual.level == 0 ==>
      calls[i].edge.id.mutual.origin == origin
  }

  lemma {:induction false} AddedByCall(
      b: Backend, assertion: nat, totalLevels: nat, calls: seq<Call>, origin: OriginId, id: EdgeId)
    requires OneChallenge(calls, origin) && id in RunCalls(b, assertion, totalLevels, calls).added
    requires id.mutual.level == 0
    ensures id.mutual.origin == origin
  {
    hide AddEdge;
    var n := |calls| - 1;
    if id in RunCalls(b, assertion, totalLevels, calls[..n]).added {
      AddedByCall(b, assertion, totalLevels, calls[..n], origin, id);
    }
  }

  /** Over every run about one challenge, a tracked block level edge with a claim is the honest block root. */
  lemma {:induction false} TrackedBlockRootIsFound(run: TreeRun, e: Edge)
    requires run.Valid() && OneChallenge(run.calls, e.id.mutual.origin) && IsBlockRootIn(run.Index(), e)
    ensures HonestBlockRoot(run.Index()) == Ok(e)
  {
    hide RunCalls, Exec, MutualsAgree, Shaped, ClaimOk, HonestEnd, OneChallenge, HonestBlockRoot;
    RunFacts(run);
    var t := run.Index();
    TrackedIsHonestRoot(run, e.id);
    forall f | IsBlockRootIn(t, f)
      ensures f == e
    {
      TrackedIsHonestRoot(run, f.id);
      AddedByCall(run.backend, run.assertion, |run.heights|, run.calls, e.id.mutual.origin, f.id);
      HonestRootUnique(run.heights, run.local, e, f);
    }
    BlockRootIff(t, e);
  }

  // ----- an edge whose start is not agreed with -----

  const HONEST: seq<Hash> := [Word(0), Word(1), Word(2)]
  const FORGED: seq<Hash> := [Word(0), Word(3), Word(4)]

  /** Two block level edges of length two that part after height 0; the forged one is bisected. */
  const FORK: seq<Step> := [CreateBlockRoot(0, 1, HONEST), CreateBlockRoot(0, 2, FORGED), BisectEdge(FORGED_ROOT.id)]

  const HONEST_ROOT: Edge := Edge(RootId([2], 0, AssertionOrigin(0), HONEST), Some(ClaimAssertion(1)), 0)
  const FORGED_ROOT: Edge := Edge(RootId([2], 0, AssertionOrigin(0), FORGED), Some(ClaimAssertion(2)), 0)
  const FORGED_UPPER: Edge := Edge(UpperChildId(FORGED_ROOT.id), None, 0)

  /** A run with one challenge, in which no read fails. */
  ghost function BlockRun(leaves: seq<Hash>, height: nat, steps: seq<Step>, calls: seq<Call>): TreeRun {
    TreeRun(
      [height], steps,
      Backend(_ => Some(0), _ => true, m => Some(ClaimHeights(m)),
              (level: nat, heights: seq<nat>, height: nat, history: seq<Hash>) =>
                Some(height < |leaves| && history == leaves[..height + 1])),
      (level: nat, heights: seq<nat>) => leaves, 0, calls)
  }

  ghost const FORK_RUN: TreeRun := BlockRun(HONEST, 2, FORK, [Add(HONEST_ROOT), Add(FORGED_UPPER)])

  lemma {:induction false} ForkIsOnChain()
    ensures ValidHeights([2])
    ensures InWorld(Exec([2], FORK).edges, HONEST_ROOT) && InWorld(Exec([2], FORK).edges, FORGED_UPPER)
  {
    var c1 := AddToStore(EMPTY, HONEST_ROOT);
    var c2 := AddToStore(c1, FORGED_ROOT);
    assert FORK[..2][..1] == FORK[..1] && FORK[..1][..0] == [];
    assert Exec([2], FORK[..1]) == Apply([2], EMPTY, FORK[0]) == c1;
    assert Exec([2], FORK[..2]) == Apply([2], c1, FORK[1]) == c2;
    ForgedIsBisected(c2);
  }

  lemma {:induction false} ForgedIsBisected(c: Chain)
    requires ValidHeights([2]) && c == AddToStore(AddToStore(EMPTY, HONEST_ROOT), FORGED_ROOT)
    ensures var c' := Apply([2], c, BisectEdge(FORGED_ROOT.id));
            InWorld(c'.edges, HONEST_ROOT) && InWorld(c'.edges, FORGED_UPPER)
  {
    var root := FORGED_ROOT.id;
    assert HONEST_ROOT.id.mutual == root.mutual && HONEST_ROOT.id != root;
    assert Bisection.Mid(0, 2) == 1;
    assert LowerChildId(root).mutual.endHeight == 1 && UpperChildId(root).mutual.startHeight == 1;
    assert HasRival(c, root) && UpperChildId(root) !in c.edges;
  }

  /** The forged half-edge is added, but not recorded: its group in the index is empty, while a scan of what
      was added has it. */
  lemma {:induction false} DisagreedGroupIsNotScan()
    ensures FORK_RUN.Valid()
    ensures FORGED_UPPER.id in Scan(FORK_RUN.Log(), FORGED_UPPER.id.mutual)
    ensures Mutuals(FORK_RUN.Index(), FORGED_UPPER.id.mutual) == map[]
  {
    hide Exec, AddEdge, TreeRun.Valid;
    ForkRunIsValid();
    var b, calls := FORK_RUN.backend, FORK_RUN.calls;
    var t := Record(Track(EmptyTree(0, 1), HONEST_ROOT), HONEST_ROOT);
    assert calls[..1][..0] == [];
    HonestIsTracked();
    assert RunCalls(b, 0, 1, calls[..1]) == ApplyCall(b, Logged(EmptyTree(0, 1), map[]), calls[0]);
    ForgedIsNotRecorded(t);
    assert FORK_RUN.Log() == ApplyCall(b, RunCalls(b, 0, 1, calls[..1]), calls[1]);
    assert FORGED_UPPER.id.mutual.startHeight == 1;
  }

  lemma {:induction false} ForkRunIsValid()
    ensures FORK_RUN.Valid()
  {
    hide Exec;
    ForkIsOnChain();
  }

  lemma {:induction false} HonestIsTracked()
    ensures AddEdge(FORK_RUN.backend, EmptyTree(0, 1), HONEST_ROOT)
         == (Record(Track(EmptyTree(0, 1), HONEST_ROOT), HONEST_ROOT), Ok(Agreement(true, true)))
  {
    assert HONEST[..3] == HONEST;
  }

  lemma {:induction false} ForgedIsNotRecorded(t: Tree)
    requires t == Record(Track(EmptyTree(0, 1), HONEST_ROOT), HONEST_ROOT)
    ensures AddEdge(FORK_RUN.backend, t, FORGED_UPPER) == (t, Ok(Agreement(false, false)))
  {
    assert Bisection.Mid(0, 2) == 1;
    var id := FORGED_UPPER.id;
    assert id.endHistory[1] != HONEST[..3][1] && id.mutual.startHistory[1] != HONEST[..2][1];
    assert HonestBlockRoot(t) == Ok(HONEST_ROOT);
  }

  // ----- the search -----

  lemma {:induction false} TrackedPathIsRegistered(run: TreeRun, path: seq<EdgeId>)
    requires run.Valid() && TrackedPath(run.OnChain(), run.Index(), path)
    ensures RegisteredPath(run.OnChain(), run.Index(), path)
  {
    hide RunCalls, Exec, Registered, IsPath;
    RunIsSearchable(run);
  }

  /** Over every run the ancestor search is exact: it returns a list exactly if that list leads from the edge
      through tracked parents and claimed edges to a block level root. */
  lemma {:induction false} AncestorsExact(run: TreeRun, id: EdgeId, ids: seq<EdgeId>)
    requires run.Valid()
    ensures Halving(run.OnChain().children) && RootsAreWords(run.Index())
    ensures AncestorsOf(run.OnChain().children, run.Index(), id) == Ok(ids)
       <==> TrackedPath(run.OnChain(), run.Index(), [id] + ids)
  {
    hide Inv, RunCalls, Exec, IndexAgrees, AncestorsOf, TrackedPath;
    var c, t, path := run.OnChain(), run.Index(), [id] + ids;
    RunFacts(run);
    RunIsSearchable(run);
    if TrackedPath(c, t, path) {
      TrackedPathIsRegistered(run, path);
      SearchFollowsPath(run.heights, c, t, path);
      assert path[0] == id && path[1..] == ids;
    }
    if AncestorsOf(c.children, t, id) == Ok(ids) {
      SearchYieldsPath(run.heights, c, t, id, ids);
    }
  }

  /** Over every run, no search follows a child the tree does not have if and only if each tracked edge's way
      down from its level's root is tracked as far as the chain has it. */
  lemma {:induction false} NoMissingChildIff(run: TreeRun)
    requires run.Valid()
    ensures Halving(run.OnChain().children) && RootsAreWords(run.Index())
    ensures (forall id :: AncestorsOf(run.OnChain().children, run.Index(), id) != Err(ChildNotTracked))
       <==> WaysTracked(run.OnChain().children, run.Index())
  {
    hide Inv, IndexAgrees, RunCalls, Exec, AncestorsOf, WayTracked, Registered, RootsAgree;
    RunFacts(run);
    RunIsSearchable(run);
    var c, t := run.OnChain(), run.Index();
    if WaysTracked(c.children, t) {
      forall id
        ensures AncestorsOf(c.children, t, id) != Err(ChildNotTracked)
      {
        SearchMissesNothing(run.heights, c, t, id);
      }
    } else {
      var id :| id in t.edges && !WayTracked(c.children, t, id);
      GapIsReached(c.children, t, id);
    }
  }

  /** It is enough that the halves of the tracked edges are tracked. */
  lemma {:induction false} TrackedHalvesSuffice(run: TreeRun)
    requires run.Valid() && ChildrenTracked(run.OnChain().children, run.Index().edges)
    ensures Halving(run.OnChain().children) && RootsAreWords(run.Index())
    ensures WaysTracked(run.OnChain().children, run.Index())
  {
    hide Inv, IndexAgrees, RunCalls, Exec, Registered, Way, ChildrenTracked;
    RunIsSearchable(run);
    var c, t := run.OnChain(), run.Index();
    forall id | id in t.edges
      ensures WayTracked(c.children, t, id)
    {
      var level := ReversedLevel(t, id.mutual);
      var root := FindOrigin(Roots(t, level), id.mutual.origin);
      FindOriginMember(Roots(t, level), id.mutual.origin);
      if root.Some? {
        assert InWorld(t.edges, root.value);
        ChildrenFillWays(c.children, t.edges, root.value.id, id);
      }
    }
  }

  // ----- a gap in the tracked edges -----

  const LEAVES: seq<Hash> := [Word(0), Word(1), Word(2), Word(3), Word(4)]
  const OTHERS: seq<Hash> := [Word(0), Word(5), Word(6), Word(7), Word(8)]
  const TOP: Edge := Edge(RootId([4], 0, AssertionOrigin(0), LEAVES), Some(ClaimAssertion(1)), 0)
  const RIVAL: Edge := Edge(RootId([4], 0, AssertionOrigin(0), OTHERS), Some(ClaimAssertion(2)), 0)
  const QUARTER: Edge := Edge(EdgeId(MutualId(0, AssertionOrigin(0), 0, LEAVES[..1], 1), LEAVES[..2]), None, 0)
  const HALF: EdgeId := EdgeId(MutualId(0, AssertionOrigin(0), 0, LEAVES[..1], 2), LEAVES[..3])

  /** Two rivals of length four are bisected, and then the honest lower half, which has a rival by now. */
  const SPLITS: seq<Step> := [
    CreateBlockRoot(0, 1, LEAVES), CreateBlockRoot(0, 2, OTHERS),
    BisectEdge(TOP.id), BisectEdge(RIVAL.id), BisectEdge(HALF)]

  /** The tree is given the root and the quarter, but not the half between them. */
  ghost const GAP_RUN: TreeRun := BlockRun(LEAVES, 4, SPLITS, [AddHonest(TOP), AddHonest(QUARTER)])

  lemma {:induction false} SpansOfFour()
    ensures Bisection.Mid(0, 4) == 2 && Bisection.Mid(0, 2) == 1
    ensures LowerChildId(TOP.id) == HALF && LowerChildId(HALF) == QUARTER.id
    ensures UpperChildId(TOP.id).mutual.startHeight == 2 && UpperChildId(RIVAL.id).mutual.startHeight == 2
    ensures UpperChildId(HALF).mutual.startHeight == 1
    ensures LowerChildId(RIVAL.id).mutual == HALF.mutual && LowerChildId(RIVAL.id) != HALF
    ensures UpperChildId(TOP.id) != UpperChildId(RIVAL.id)
    ensures TOP.id.mutual == RIVAL.id.mutual && TOP.id != RIVAL.id
  {
    assert Bisection.Roundest(0, 3) == 2 * Bisection.Roundest(0, 1);
    assert LEAVES[..3][..2] == LEAVES[..2] && LEAVES[..1] == OTHERS[..1];
    assert LEAVES[1] != OTHERS[1];
    assert LowerChildId(RIVAL.id).endHistory[1] != HALF.endHistory[1];
  }

  /** What a bisection adds to the store. */
  lemma {:induction false} BisectionAdds(heights: seq<nat>, c: Chain, p: EdgeId)
    requires ValidHeights(heights) && Enabled(heights, c, BisectEdge(p))
    ensures var c', lower, upper := Apply(heights, c, BisectEdge(p)), LowerChildId(p), UpperChildId(p);
            && c'.edges == c.edges[lower := if lower in c.edges then c.edges[lower] else Edge(lower, None, c.now)]
                                  [upper := Edge(upper, None, c.now)]
            && c'.children == c.children[p := (lower, upper)] && c'.now == c.now
            && (forall m :: m in c.rivalries ==> m in c'.rivalries)
            && (forall m :: m in c.rivalries && c.rivalries[m].Rivaled? ==> c'.rivalries[m].Rivaled?)
            && (lower !in c.edges ==> lower.mutual in c'.rivalries)
            && (lower.mutual in c.rivalries && lower !in c.edges ==> c'.rivalries[lower.mutual].Rivaled?)
  {
    var lower, upper := LowerChildId(p), UpperChildId(p);
    if lower in c.edges {
      assert c.edges[lower := c.edges[lower]] == c.edges;
    }
  }

  lemma {:induction false} ExecSnoc(heights: seq<nat>, steps: seq<Step>, k: nat)
    requires ValidHeights(heights) && k < |steps|
    ensures Exec(heights, steps[..k + 1]) == Apply(heights, Exec(heights, steps[..k]), steps[k])
  {
    assert steps[..k + 1][..k] == steps[..k];
  }

  lemma {:induction false} RootsAreThere()
    ensures ValidHeights([4]) && Exec([4], SPLITS[..2]) == AddToStore(AddToStore(EMPTY, TOP), RIVAL)
  {
    assert SPLITS[..0] == [];
    ExecSnoc([4], SPLITS, 0);
    ExecSnoc([4], SPLITS, 1);
    assert LEAVES[1] != OTHERS[1];
  }

  /** With both roots bisected, the honest lower half has a rival and is not bisected yet. */
  lemma {:induction false} HalfHasRival()
    ensures ValidHeights([4])
    ensures var c := Exec([4], SPLITS[..4]);
            && c.now == 0 && Enabled([4], c, BisectEdge(HALF)) && InWorld(c.edges, TOP) && QUARTER.id !in c.edges
            && TOP.id in c.children && c.children[TOP.id].0 == HALF
  {
    hide Exec, Apply, LowerChildId, UpperChildId, Bisection.Mid;
    RootsAreThere();
    SpansOfFour();
    ExecSnoc([4], SPLITS, 2);
    BisectionAdds([4], Exec([4], SPLITS[..2]), TOP.id);
    ExecSnoc([4], SPLITS, 3);
    BisectionAdds([4], Exec([4], SPLITS[..3]), RIVAL.id);
  }

  lemma {:induction false} GapIsOnChain()
    ensures ValidHeights([4])
    ensures var c := Exec([4], SPLITS);
            && InWorld(c.edges, TOP) && InWorld(c.edges, QUARTER)
            && TOP.id in c.children && c.children[TOP.id].0 == HALF
  {
    hide Exec, Apply, Enabled, LowerChildId, UpperChildId, Bisection.Mid;
    SpansOfFour();
    HalfHasRival();
    ExecSnoc([4], SPLITS, 4);
    BisectionAdds([4], Exec([4], SPLITS[..4]), HALF);
    assert SPLITS[..5] == SPLITS;
  }

  lemma {:induction false} GapRunIsValid()
    ensures GAP_RUN.Valid()
  {
    hide Exec;
    GapIsOnChain();
    assert LEAVES[..5] == LEAVES;
  }

  /** A valid run after which the search for the tracked quarter looks for the half the tree does not have. */
  lemma {:induction false} MissingChildIsReached()
    ensures GAP_RUN.Valid() && QUARTER.id in GAP_RUN.Index().edges
    ensures Halving(GAP_RUN.OnChain().children) && RootsAreWords(GAP_RUN.Index())
    ensures AncestorsOf(GAP_RUN.OnChain().children, GAP_RUN.Index(), QUARTER.id) == Err(ChildNotTracked)
  {
    hide Exec, RunCalls, TreeRun.Valid, Registered;
    GapRunIsValid();
    GapIsOnChain();
    GapIndex();
    RunIsSearchable(GAP_RUN);
    SpansOfFour();
    Bisection.BisectIsMid(0, 4);
    assert ChildTowards(GAP_RUN.OnChain().children, TOP.id, 0) == Ok(HALF);
  }

  lemma {:induction false} GapIndex()
    ensures GAP_RUN.Index().totalLevels == 1
    ensures GAP_RUN.Index().edges == map[TOP.id := TOP, QUARTER.id := QUARTER]
    ensures HALF !in GAP_RUN.Index().edges
    ensures Roots(GAP_RUN.Index(), 0) == [TOP] && FindOrigin([TOP], AssertionOrigin(0)) == Some(TOP)
  {
    hide Exec, RootsAgree;
    var b, calls := GAP_RUN.backend, GAP_RUN.calls;
    assert calls[..1][..0] == [];
    assert RunCalls(b, 0, 1, calls[..1]) == ApplyCall(b, Logged(EmptyTree(0, 1), map[]), calls[0]);
    assert GAP_RUN.Log() == ApplyCall(b, RunCalls(b, 0, 1, calls[..1]), calls[1]);
  }

  // ----- path timers -----

  /** Over every run the scan over an edge's ancestor timers succeeds exactly if some ancestor's own path
      timer, over the ancestor list the search gives for it, reaches the period. */
  lemma {:induction false} ReachesIffAncestorConfirmable(
      run: TreeRun, path: seq<EdgeId>, unrivaled: nat, block: nat, period: nat)
    requires run.Valid() && TrackedPath(run.OnChain(), run.Index(), path)
    requires unrivaled + Sum(TimersAlong(run.Index(), path[1..], block)) < UINT64
    ensures Halving(run.OnChain().children) && RootsAreWords(run.Index())
    ensures ReachesPeriod(unrivaled, TimersAlong(run.Index(), path[1..], block), period)
       <==> SomeAncestorConfirmable(run.OnChain(), run.Index(), path, unrivaled, block, period)
  {
    hide RunCalls, Exec, Inv, IndexAgrees, SomeAncestorConfirmable, ReachesPeriod, Sum, Link;
    RunFacts(run);
    RunIsSearchable(run);
    TrackedPathIsRegistered(run, path);
    ReachesIffOnRegisteredPath(run.heights, run.OnChain(), run.Index(), path, unrivaled, block, period);
  }

  /** All chain edges of the path's groups have been added to the tree. */
  ghost predicate GroupsAdded(run: TreeRun, path: seq<EdgeId>)
    requires ValidHeights(run.heights)
  {
    forall i :: 0 <= i < |path| ==> GroupAdded(run, path[i].mutual)
  }

  /** On a tracked path whose groups were added the tree's path timer is made of the chain's timers. */
  lemma {:induction false} PathTimerIsSum(run: TreeRun, path: seq<EdgeId>, unrivaled: nat, block: nat)
    requires run.Valid() && TrackedPath(run.OnChain(), run.Index(), path) && GroupsAdded(run, path)
    ensures PathTimer(run.Index(), path[0], path[1..], unrivaled, block)
         == unrivaled + SumTimers(run.OnChain(), path, block)
  {
    hide RunCalls, Exec, GroupAdded;
    var c, t := run.OnChain(), run.Index();
    TrackedPathIsRegistered(run, path);
    forall i | 0 <= i < |path|
      ensures Mutuals(t, path[i].mutual) == GroupOf(c, path[i].mutual)
    {
      TrackedGroupIsChains(run, path[i]);
    }
    PathTimerIsSuffix(t, path, 0, unrivaled, block);
    assert TimersAlong(t, path, block)[0..] == TimersAlong(t, path, block);
    SyncedSum(c, t, path, block);
  }

  /** Over every run the path timer of a tracked edge exceeds the assertion's unrivaled blocks by no more than
      the blocks since the first edge that shares the block level root's mutual id. */
  lemma {:induction false} PathTimerBound(run: TreeRun, path: seq<EdgeId>, unrivaled: nat, block: nat)
    requires run.Valid() && TrackedPath(run.OnChain(), run.Index(), path) && GroupsAdded(run, path)
    ensures Known(run.OnChain(), path[|path| - 1].mutual)
    ensures PathTimer(run.Index(), path[0], path[1..], unrivaled, block)
         <= unrivaled + Elapsed(run.OnChain(), path[|path| - 1].mutual, block)
  {
    hide RunCalls, Exec, GroupAdded, Elapsed, Known;
    PathTimerIsSum(run, path, unrivaled, block);
    NoDoubleCounting(run.heights, run.steps, path, block);
  }

  /** So the sums fit a word as soon as the block number and the assertion's blocks together do. */
  lemma {:induction false} TimersFit(run: TreeRun, path: seq<EdgeId>, unrivaled: nat, block: nat)
    requires run.Valid() && TrackedPath(run.OnChain(), run.Index(), path) && GroupsAdded(run, path)
    requires unrivaled + block < UINT64
    ensures unrivaled + Sum(TimersAlong(run.Index(), path[1..], block)) < UINT64
    ensures PathTimer(run.Index(), path[0], path[1..], unrivaled, block) < UINT64
  {
    hide RunCalls, Exec, GroupAdded, IsPath, Known, Since, Sum, TimersAlong;
    PathTimerBound(run, path, unrivaled, block);
  }
}
