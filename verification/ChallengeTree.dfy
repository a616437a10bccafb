/** The honest challenge tree as the validator runs it: three indexes updated in place. */
module ChallengeTree {
  import opened Bits
  import opened Outcomes
  import opened Protocol
  import opened Timers
  import opened TreeIndex
  import opened Ancestors
  import opened PathTimers

  /** Two trees that differ at most in empty entries of the mutual id index. */
  ghost predicate SameView(t: Tree, u: Tree) {
    && t.topLevelAssertion == u.topLevelAssertion && t.totalLevels == u.totalLevels
    && t.edges == u.edges && t.rootsByLevel == u.rootsByLevel
    && forall m {:trigger Mutuals(t, m)} {:trigger Mutuals(u, m)} :: Mutuals(t, m) == Mutuals(u, m)
  }

  datatype Rival = Rival(id: EdgeId, createdAt: nat)

  /** The list holds exactly the other edges of the group, each once, with their creation blocks. */
  ghost predicate Lists(rivals: seq<Rival>, group: Group, id: EdgeId) {
    && (forall i :: 0 <= i < |rivals| ==>
          rivals[i].id in group && rivals[i].id != id && rivals[i].createdAt == group[rivals[i].id])
    && (forall r :: r in group && r != id ==> Rival(r, group[r]) in rivals)
    && (forall i, j :: 0 <= i < j < |rivals| ==> rivals[i].id != rivals[j].id)
  }

  class HonestChallengeTree {
    const topLevelAssertionHash: nat
    const totalChallengeLevels: nat
    var edges: map<EdgeId, Edge>
    var mutualIds: map<MutualId, Group>
    var honestRootEdgesByLevel: map<int, seq<Edge>>

    ghost function Model(): Tree
      reads this
    {
      Tree(topLevelAssertionHash, totalChallengeLevels, edges, mutualIds, honestRootEdgesByLevel)
    }

    constructor (assertionHash: nat, numBigStepLevels: nat)
      ensures Model() == EmptyTree(assertionHash, numBigStepLevels + 2)
    {
      topLevelAssertionHash := assertionHash;
      totalChallengeLevels := numBigStepLevels + 2;
      edges, mutualIds, honestRootEdgesByLevel := map[], map[], map[];
    }

    method HonestBlockChallengeRootEdge() returns (r: Result<Edge, TreeError>)
      ensures r == HonestBlockRoot(Model())
    {
      var blockChallengeLevel := totalChallengeLevels - 1;
      if blockChallengeLevel in honestRootEdgesByLevel {
        var rootEdges := honestRootEdgesByLevel[blockChallengeLevel];
        if |rootEdges| != 1 {
          return Err(NoHonestBlockRoot);
        }
        return Ok(rootEdges[0]);
      }
      return Err(NoHonestBlockRoot);
    }

    /** Puts an edge into the edge index and, if it claims something, into its level's root list. */
    method TrackEdge(eg: Edge)
      modifies this`edges, this`honestRootEdgesByLevel
      ensures Model() == Track(old(Model()), eg)
    {
      edges := edges[eg.id := eg];
      if eg.claim.Some? {
        var level := totalChallengeLevels - 1 - eg.id.mutual.level;
        if level !in honestRootEdgesByLevel {
          assert [] + [eg] == [eg];
          honestRootEdgesByLevel := honestRootEdgesByLevel[level := [eg]];
        } else {
          honestRootEdgesByLevel := honestRootEdgesByLevel[level := honestRootEdgesByLevel[level] + [eg]];
        }
      }
    }

    /** Puts an edge into its mutual id's map, creating the map first if need be. */
    method RecordMutual(eg: Edge)
      modifies this`mutualIds
      ensures Model() == Record(old(Model()), eg)
    {
      var mutualId := eg.id.mutual;
      if mutualId !in mutualIds {
        mutualIds := mutualIds[mutualId := map[]];
      }
      var mutuals: Group := mutualIds[mutualId];
      mutuals := mutuals[eg.id := eg.createdAt];
      mutualIds := mutualIds[mutualId := mutuals];
      assert mutualIds == Record(old(Model()), eg).mutualIds;
    }

    method AddEdge(b: Backend, eg: Edge) returns (r: Result<Agreement, TreeError>)
      modifies this
      ensures (Model(), r) == TreeIndex.AddEdge(b, old(Model()), eg)
    {
      if eg.id in edges {
        return Err(AlreadyBeingTracked);
      }
      var assertionHash := b.topLevelAssertion(eg.id);
      if assertionHash.None? {
        return Err(BackendFailure);
      }
      if topLevelAssertionHash != assertionHash.value {
        return Err(MismatchedChallengeAssertion);
      }
      var claimedAssertion;
      var level := eg.id.mutual.level;
      if level == 0 && eg.claim.Some? {
        if eg.claim.value.ClaimEdge? {
          return Err(NoClaimId);
        }
        claimedAssertion := eg.claim.value.assertion;
      } else {
        var root := HonestBlockChallengeRootEdge();
        if root.Err? {
          return Err(root.error);
        }
        if root.value.claim.None? || root.value.claim.value.ClaimEdge? {
          return Err(NoClaimId);
        }
        claimedAssertion := root.value.claim.value.assertion;
      }
      if !b.hasCreationInfo(claimedAssertion) {
        return Err(BackendFailure);
      }
      var heights := b.claimHeights(eg.id.mutual);
      if heights.None? {
        return Err(BackendFailure);
      }
      var startHeights := heights.value;
      if level == 0 {
        startHeights := [];
      } else if startHeights == [] {
        return Err(StartHeightMissing);
      }
      var isHonestEdge := b.agrees(level, startHeights, eg.id.mutual.endHeight, eg.id.endHistory);
      if isHonestEdge.None? {
        return Err(BackendFailure);
      }
      var agreesWithStart := b.agrees(level, startHeights, eg.id.mutual.startHeight, eg.id.mutual.startHistory);
      if agreesWithStart.None? {
        return Err(BackendFailure);
      }
      if isHonestEdge.value {
        TrackEdge(eg);
      }
      if agreesWithStart.value || isHonestEdge.value {
        RecordMutual(eg);
      }
      return Ok(Agreement(isHonestEdge.value, agreesWithStart.value));
    }

    method AddHonestEdge(eg: Edge)
      modifies this
      ensures Model() == TreeIndex.AddHonestEdge(old(Model()), eg)
    {
      if eg.id in edges {
        return;
      }
      TrackEdge(eg);
      RecordMutual(eg);
    }

    // ----- local timers -----

    /** Reading the rivals of an unknown mutual id leaves an empty entry behind. */
    method RivalsWithCreationTimes(eg: Edge) returns (rivals: seq<Rival>)
      modifies this`mutualIds
      ensures Lists(rivals, Mutuals(old(Model()), eg.id.mutual), eg.id)
      ensures Model() == ReadMutuals(old(Model()), eg.id.mutual)
      ensures SameView(Model(), old(Model()))
    {
      rivals := [];
      var mutualId := eg.id.mutual;
      if mutualId !in mutualIds {
        mutualIds := mutualIds[mutualId := map[]];
        return;
      }
      var mutuals := mutualIds[mutualId];
      var rest := mutuals.Keys;
      while rest != {}
        invariant rest <= mutuals.Keys
        invariant forall i :: 0 <= i < |rivals| ==>
                    rivals[i].id in mutuals && rivals[i].id != eg.id && rivals[i].createdAt == mutuals[rivals[i].id]
        invariant forall r :: r in mutuals && r !in rest && r != eg.id ==> Rival(r, mutuals[r]) in rivals
        invariant forall i :: 0 <= i < |rivals| ==> rivals[i].id !in rest
        invariant forall i, j :: 0 <= i < j < |rivals| ==> rivals[i].id != rivals[j].id
        decreases rest
      {
        var rivalId :| rivalId in rest;
        rest := rest - {rivalId};
        if rivalId != eg.id {
          ghost var before := rivals;
          rivals := rivals + [Rival(rivalId, mutuals[rivalId])];
          assert forall x :: x in before ==> x in rivals;
          assert Rival(rivalId, mutuals[rivalId]) in rivals;
        }
      }
    }

    method EarliestCreatedRivalBlockNumber(eg: Edge) returns (earliest: Option<nat>)
      modifies this`mutualIds
      ensures earliest == EarliestRival(Mutuals(old(Model()), eg.id.mutual), eg.id)
      ensures SameView(Model(), old(Model()))
    {
      var rivals := RivalsWithCreationTimes(eg);
      earliest := None;
      for i := 0 to |rivals|
        invariant earliest.None? <==> i == 0
        invariant earliest.Some? ==> exists j :: 0 <= j < i && rivals[j].createdAt == earliest.value
        invariant earliest.Some? ==> forall j :: 0 <= j < i ==> earliest.value <= rivals[j].createdAt
      {
        if earliest.None? {
          earliest := Some(rivals[i].createdAt);
        } else if rivals[i].createdAt < earliest.value {
          earliest := Some(rivals[i].createdAt);
        }
      }
      EarliestOfList(rivals, Mutuals(old(Model()), eg.id.mutual), eg.id, earliest);
    }

    /** Fails if the edge did not exist at the block. */
    method UnrivaledAtBlockNum(eg: Edge, blockNum: nat) returns (r: Option<bool>)
      modifies this`mutualIds
      ensures r.None? <==> blockNum < eg.createdAt
      ensures r.Some? ==>
                (r.value <==> var e := EarliestRival(Mutuals(old(Model()), eg.id.mutual), eg.id);
                              e.None? || blockNum < e.value)
      ensures SameView(Model(), old(Model()))
    {
      if blockNum < eg.createdAt {
        return None;
      }
      var rivals := RivalsWithCreationTimes(eg);
      ghost var group := Mutuals(old(Model()), eg.id.mutual);
      ghost var e := EarliestRival(group, eg.id);
      if e.Some? {
        var w :| w in group && w != eg.id && group[w] == e.value;
        assert Rival(w, group[w]) in rivals;
      }
      for i := 0 to |rivals|
        invariant forall j :: 0 <= j < i ==> blockNum < rivals[j].createdAt
      {
        if rivals[i].createdAt <= blockNum {
          assert e.Some? && e.value <= rivals[i].createdAt;
          return Some(false);
        }
      }
      return Some(true);
    }

    method LocalTimerAt(eg: Edge, blockNum: nat) returns (r: nat)
      modifies this`mutualIds
      ensures r == LocalTimer(Mutuals(old(Model()), eg.id.mutual), eg.id, eg.createdAt, blockNum)
      ensures SameView(Model(), old(Model()))
    {
      if blockNum <= eg.createdAt {
        return 0;
      }
      var unrivaled := UnrivaledAtBlockNum(eg, blockNum);
      if unrivaled.value {
        return blockNum - eg.createdAt;
      }
      var earliest := EarliestCreatedRivalBlockNumber(eg);
      var tRival := earliest.value;
      if eg.createdAt >= tRival {
        return 0;
      }
      return tRival - eg.createdAt;
    }

    // ----- ancestors -----

    /** Descends from a level's root to an edge of the level; timers and ids of the edges passed, root first. */
    method FindHonestAncestorsWithinChallengeLevel(
        children: Children, rootEdge: Edge, queryingFor: Edge, blockNumber: nat)
        returns (r: Result<(seq<nat>, seq<EdgeId>), TreeError>)
      requires Halving(children) && WordHeights(rootEdge.id) && TreeKeyed(Model()) && InWorld(edges, rootEdge)
      modifies this`mutualIds
      ensures Answers(r, Descend(children, edges, rootEdge.id, queryingFor.id), old(Model()), blockNumber)
      ensures SameView(Model(), old(Model()))
    {
      ghost var t := Model();
      ghost var target := Descend(children, edges, rootEdge.id, queryingFor.id);
      PrependNothing(target);
      var cursor, ancestry, localTimers := rootEdge, [], [];
      while cursor.id != queryingFor.id
        invariant WordHeights(cursor.id) && InWorld(t.edges, cursor)
        invariant SameView(Model(), t)
        invariant AllTracked(t, ancestry) && localTimers == TimersAlong(t, ancestry, blockNumber)
        invariant Prepend(ancestry, Descend(children, t.edges, cursor.id, queryingFor.id)) == target
        decreases Length(cursor.id)
      {
        var timer := LocalTimerAt(cursor, blockNumber);
        var next := ChildTowards(children, cursor.id, queryingFor.id.mutual.startHeight);
        if next.Err? {
          return Err(next.error);
        }
        if next.value !in edges {
          return Err(ChildNotTracked);
        }
        PrependStep(children, t.edges, ancestry, cursor.id, queryingFor.id);
        ChildIsShorter(children, cursor.id, next.value);
        ancestry := ancestry + [cursor.id];
        localTimers := localTimers + [timer];
        cursor := edges[next.value];
      }
      assert target == Ok(ancestry + []) && ancestry + [] == ancestry;
      return Ok((localTimers, ancestry));
    }

    /** One level of the search: the level's root and the edges up to it, child first, with timers. */
    method SearchLevel(children: Children, currentEdge: Edge, level: int, blockNumber: nat)
        returns (r: Result<(Edge, seq<nat>, seq<EdgeId>), TreeError>)
      requires Halving(children) && RootsAreWords(Model()) && TreeKeyed(Model()) && RootsTracked(Model())
      modifies this`mutualIds
      ensures LevelAnswer(r, children, old(Model()), currentEdge.id, level, blockNumber)
      ensures SameView(Model(), old(Model()))
    {
      var roots := if level in honestRootEdgesByLevel then honestRootEdgesByLevel[level] else [];
      assert roots == Roots(Model(), level);
      var rootEdge := FindOrigin(roots, currentEdge.id.mutual.origin);
      if rootEdge.None? {
        return Err(NoHonestRootAtLevel);
      }
      FindOriginMember(roots, currentEdge.id.mutual.origin);
      var within := FindHonestAncestorsWithinChallengeLevel(children, rootEdge.value, currentEdge, blockNumber);
      if within.Err? {
        return Err(within.error);
      }
      TimersReversed(old(Model()), within.value.1, blockNumber);
      return Ok((rootEdge.value, Reverse(within.value.0), Reverse(within.value.1)));
    }

    /** The ancestors of an edge across all levels, child first, with their local timers. */
    method ComputeAncestorsWithTimers(children: Children, edgeId: EdgeId, blockNumber: nat)
        returns (r: Result<(seq<nat>, seq<EdgeId>), TreeError>)
      requires Halving(children) && RootsAreWords(Model()) && TreeKeyed(Model()) && RootsTracked(Model())
      modifies this`mutualIds
      ensures Answers(r, AncestorsOf(children, old(Model()), edgeId), old(Model()), blockNumber)
      ensures SameView(Model(), old(Model()))
    {
      hide Descend, FindOrigin, Reverse, LocalTimer, LevelAnswer;
      ghost var t := Model();
      if edgeId !in edges {
        return Err(NotFound);
      }
      var currentEdge := edges[edgeId];
      var currentLevel := totalChallengeLevels - 1 - edgeId.mutual.level;
      var ancestry, localTimers := [], [];
      ghost var target := AncestorsOf(children, t, edgeId);
      PrependNothing(target);
      while currentLevel < totalChallengeLevels
        invariant SameView(Model(), t)
        invariant Matched(t, ancestry, localTimers, blockNumber)
        invariant Prepend(ancestry, AncestorsFrom(children, t, currentEdge.id, currentLevel)) == target
        decreases totalChallengeLevels - currentLevel
      {
        ghost var u := Model();
        SameViewSearch(u, t);
        var found := SearchLevel(children, currentEdge, currentLevel, blockNumber);
        LevelStep(found, children, u, t, currentEdge.id, currentLevel, blockNumber, ancestry);
        if found.Err? {
          return Err(found.error);
        }
        var (rootEdge, timers, ids) := found.value;
        MatchedConcat(t, ancestry, localTimers, ids, timers, blockNumber);
        ancestry, localTimers := ancestry + ids, localTimers + timers;
        currentLevel := currentLevel + 1;
        if currentLevel == totalChallengeLevels {
          return Ok((localTimers, ancestry));
        }
        var claim := rootEdge.claim;
        if claim.None? {
          return Err(NoClaimId);
        }
        if claim.value.ClaimAssertion? || claim.value.edge !in edges {
          return Err(ClaimedEdgeNotFound);
        }
        currentEdge := edges[claim.value.edge];
        var claimTimer := LocalTimerAt(currentEdge, blockNumber);
        MatchedConcat(t, ancestry, localTimers, [currentEdge.id], [claimTimer], blockNumber);
        ancestry, localTimers := ancestry + [currentEdge.id], localTimers + [claimTimer];
      }
      assert target == Ok(ancestry + []) && ancestry + [] == ancestry;
      return Ok((localTimers, ancestry));
    }

    method ComputeHonestPathTimer(
        edgeId: EdgeId, ancestorLocalTimers: seq<nat>, assertionUnrivaledBlocks: Option<nat>, blockNumber: nat)
        returns (r: Result<nat, TreeError>)
      requires TreeKeyed(Model())
      modifies this`mutualIds
      ensures edgeId !in edges ==> r == Err(NotFound)
      ensures edgeId in edges && assertionUnrivaledBlocks.None? ==> r == Err(BackendFailure)
      ensures edgeId in edges && assertionUnrivaledBlocks.Some? ==>
                r == Ok((TreeTimer(old(Model()), edgeId, blockNumber) + assertionUnrivaledBlocks.value
                         + Sum(ancestorLocalTimers)) % UINT64)
      ensures SameView(Model(), old(Model()))
    {
      if edgeId !in edges {
        return Err(NotFound);
      }
      var edgeLocalTimer := LocalTimerAt(edges[edgeId], blockNumber);
      if assertionUnrivaledBlocks.None? {
        return Err(BackendFailure);
      }
      var total := AddWords(edgeLocalTimer + assertionUnrivaledBlocks.value, ancestorLocalTimers);
      return Ok(total);
    }

    /** An edge's path timer from scratch: its ancestors first, then the sum; with the ancestors and their timers. */
    method ComputeHonestPathTimerByBlockNumber(
        children: Children, edgeId: EdgeId, assertionUnrivaledBlocks: Option<nat>, blockNumber: nat)
        returns (r: Result<(nat, seq<EdgeId>, seq<nat>), TreeError>)
      requires Halving(children) && RootsAreWords(Model()) && TreeKeyed(Model()) && RootsTracked(Model())
      modifies this`mutualIds
      ensures TimerAnswer(r, children, old(Model()), edgeId, assertionUnrivaledBlocks, blockNumber)
      ensures SameView(Model(), old(Model()))
    {
      hide AncestorsFrom, LocalTimer;
      ghost var t := Model();
      var response := ComputeAncestorsWithTimers(children, edgeId, blockNumber);
      if response.Err? {
        return Err(response.error);
      }
      var (timers, ids) := response.value;
      ghost var u := Model();
      SameViewSearch(u, t);
      var pathTimer := ComputeHonestPathTimer(edgeId, timers, assertionUnrivaledBlocks, blockNumber);
      if pathTimer.Err? {
        return Err(pathTimer.error);
      }
      return Ok((pathTimer.value, ids, timers));
    }

    method HasConfirmableAncestor(
        honestAncestorLocalTimers: seq<nat>, assertionUnrivaledBlocks: Option<nat>, challengePeriodBlocks: nat)
        returns (r: Result<bool, TreeError>)
      ensures honestAncestorLocalTimers == [] ==> r == Ok(false)
      ensures honestAncestorLocalTimers != [] && assertionUnrivaledBlocks.None? ==> r == Err(BackendFailure)
      ensures honestAncestorLocalTimers != [] && assertionUnrivaledBlocks.Some? ==>
                r == Ok(ReachesPeriod(assertionUnrivaledBlocks.value, honestAncestorLocalTimers, challengePeriodBlocks))
    {
      if |honestAncestorLocalTimers| == 0 {
        return Ok(false);
      }
      if assertionUnrivaledBlocks.None? {
        return Err(BackendFailure);
      }
      var total: nat := assertionUnrivaledBlocks.value;
      for i := 0 to |honestAncestorLocalTimers|
        invariant ReachesPeriod(total, honestAncestorLocalTimers[i..], challengePeriodBlocks)
               == ReachesPeriod(assertionUnrivaledBlocks.value, honestAncestorLocalTimers, challengePeriodBlocks)
      {
        assert honestAncestorLocalTimers[i..][1..] == honestAncestorLocalTimers[i + 1..];
        total := (total + honestAncestorLocalTimers[i]) % UINT64;
        if total >= challengePeriodBlocks {
          return Ok(true);
        }
      }
      return Ok(false);
    }
  }

  /** Adds timers to a running total, as words. */
  method AddWords(start: nat, timers: seq<nat>) returns (total: nat)
    ensures total == (start + Sum(timers)) % UINT64
  {
    total := start % UINT64;
    for i := 0 to |timers|
      invariant (total + Sum(timers[i..])) % UINT64 == (start + Sum(timers)) % UINT64
      invariant total < UINT64
    {
      WrappedSum(total, timers, i);
      total := (total + timers[i]) % UINT64;
    }
  }

  /** One round of a sum of words. */
  lemma {:induction false} WrappedSum(total: nat, timers: seq<nat>, i: nat)
    requires i < |timers|
    ensures ((total + timers[i]) % UINT64 + Sum(timers[i + 1..])) % UINT64 == (total + Sum(timers[i..])) % UINT64
  {
    assert timers[i..][1..] == timers[i + 1..];
    assert Sum(timers[i..]) == timers[i] + Sum(timers[i + 1..]);
    WrapOnce(total + timers[i], Sum(timers[i + 1..]));
  }

  lemma {:induction false} WrapOnce(x: nat, y: nat)
    ensures (x % UINT64 + y) % UINT64 == (x + y) % UINT64
  {
  }

  ghost predicate TreeKeyed(t: Tree) {
    forall id :: id in t.edges ==> t.edges[id].id == id
  }

  /** r is the wanted answer: the same error, or the wanted ids with their local timers. */
  ghost predicate Answers(
      r: Result<(seq<nat>, seq<EdgeId>), TreeError>, wanted: Result<seq<EdgeId>, TreeError>, t: Tree, block: nat)
  {
    match wanted
    case Err(e) => r == Err(e)
    case Ok(ids) => AllTracked(t, ids) && r == Ok((TimersAlong(t, ids, block), ids))
  }

  /** The edge's path timer over its ancestors, as a word, or the error that kept it from being computed. */
  ghost predicate TimerAnswer(
      r: Result<(nat, seq<EdgeId>, seq<nat>), TreeError>, children: Children, t: Tree, id: EdgeId,
      unrivaled: Option<nat>, block: nat)
    requires Halving(children) && RootsAreWords(t)
  {
    match AncestorsOf(children, t, id)
    case Err(e) => r == Err(e)
    case Ok(ids) =>
      && id in t.edges && AllTracked(t, ids)
      && r == if unrivaled.None? then Err(BackendFailure)
              else Ok((PathTimer(t, id, ids, unrivaled.value, block) % UINT64, ids, TimersAlong(t, ids, block)))
  }

  function Prepend(ids: seq<EdgeId>, r: Result<seq<EdgeId>, TreeError>): Result<seq<EdgeId>, TreeError> {
    if r.Err? then r else Ok(ids + r.value)
  }

  lemma {:induction false} PrependNothing(r: Result<seq<EdgeId>, TreeError>)
    ensures Prepend([], r) == r
  {
    if r.Ok? {
      assert [] + r.value == r.value;
    }
  }

  lemma {:induction false} ChildIsShorter(children: Children, cursor: EdgeId, next: EdgeId)
    requires Halving(children) && WordHeights(cursor) && IsParent(children, cursor, next)
    ensures Length(next) < Length(cursor) && WordHeights(next)
  {
  }

  lemma {:induction false} PrependStep(
      children: Children, edges: map<EdgeId, Edge>, ids: seq<EdgeId>, cursor: EdgeId, target: EdgeId)
    requires Halving(children) && WordHeights(cursor) && cursor != target
    requires ChildTowards(children, cursor, target.mutual.startHeight).Ok?
    requires ChildTowards(children, cursor, target.mutual.startHeight).value in edges
    ensures var next := ChildTowards(children, cursor, target.mutual.startHeight).value;
            && IsParent(children, cursor, next) && WordHeights(next)
            && Prepend(ids, Descend(children, edges, cursor, target))
            == Prepend(ids + [cursor], Descend(children, edges, next, target))
  {
    var next := ChildTowards(children, cursor, target.mutual.startHeight).value;
    ChildIsShorter(children, cursor, next);
    var rest := Descend(children, edges, next, target);
    if rest.Ok? {
      assert ids + ([cursor] + rest.value) == ids + [cursor] + rest.value;
    }
  }

  /** Timers and ids that belong together. */
  ghost predicate Matched(t: Tree, ids: seq<EdgeId>, timers: seq<nat>, block: nat) {
    AllTracked(t, ids) && timers == TimersAlong(t, ids, block)
  }

  /** Reversing ids and timers together keeps them matched. */
  lemma {:induction false} TimersReversed(t: Tree, passed: seq<EdgeId>, block: nat)
    requires AllTracked(t, passed)
    ensures Matched(t, Reverse(passed), Reverse(TimersAlong(t, passed, block)), block)
  {
    var ids, timers := Reverse(passed), Reverse(TimersAlong(t, passed, block));
    forall i | 0 <= i < |passed|
      ensures ids[i] in t.edges && timers[i] == TreeTimer(t, ids[i], block)
    {
      ReverseAt(passed, i);
      ReverseAt(TimersAlong(t, passed, block), i);
    }
  }

  lemma {:induction false} MatchedConcat(
      t: Tree, ids: seq<EdgeId>, timers: seq<nat>, more: seq<EdgeId>, moreTimers: seq<nat>, block: nat)
    requires Matched(t, ids, timers, block) && Matched(t, more, moreTimers, block)
    ensures Matched(t, ids + more, timers + moreTimers, block)
  {
  }

  ghost predicate RootsTracked(t: Tree) {
    forall level: int, e {:trigger e in Roots(t, level)} :: e in Roots(t, level) ==> InWorld(t.edges, e)
  }

  /** What one level of the search answers. */
  ghost predicate LevelAnswer(
      r: Result<(Edge, seq<nat>, seq<EdgeId>), TreeError>, children: Children, t: Tree,
      current: EdgeId, level: int, block: nat)
    requires Halving(children) && RootsAreWords(t)
  {
    var root := FindOrigin(Roots(t, level), current.mutual.origin);
    if root.None? then r == Err(NoHonestRootAtLevel)
    else
      FindOriginMember(Roots(t, level), current.mutual.origin);
      var passed := Descend(children, t.edges, root.value.id, current);
      if passed.Err? then r == Err(passed.error)
      else
        && r.Ok? && r.value.0 == root.value && r.value.2 == Reverse(passed.value)
        && Matched(t, r.value.2, r.value.1, block)
  }

  /** Trees with the same view have the same roots and timers. */
  lemma {:induction false} SameViewSearch(u: Tree, t: Tree)
    requires SameView(u, t)
    ensures RootsAreWords(t) ==> RootsAreWords(u)
    ensures RootsTracked(t) ==> RootsTracked(u)
    ensures TreeKeyed(t) ==> TreeKeyed(u)
  {
    assert forall level: int :: Roots(u, level) == Roots(t, level);
  }

  /** One level of the search, seen from the ids gathered so far. */
  lemma {:induction false} LevelStep(
      r: Result<(Edge, seq<nat>, seq<EdgeId>), TreeError>, children: Children, u: Tree, t: Tree,
      current: EdgeId, level: int, block: nat, ids: seq<EdgeId>)
    requires Halving(children) && RootsAreWords(t) && RootsAreWords(u) && SameView(u, t) && level < t.totalLevels
    requires LevelAnswer(r, children, u, current, level, block)
    ensures var found := Prepend(ids, AncestorsFrom(children, t, current, level));
            match r
            case Err(e) => found == Err(e)
            case Ok((root, timers, more)) =>
              && Matched(t, more, timers, block)
              && (if level + 1 == t.totalLevels then found == Ok(ids + more)
                  else if root.claim.None? then found == Err(NoClaimId)
                  else if root.claim.value.ClaimAssertion? || root.claim.value.edge !in t.edges then
                    found == Err(ClaimedEdgeNotFound)
                  else
                    found == Prepend(ids + more + [root.claim.value.edge],
                                     AncestorsFrom(children, t, root.claim.value.edge, level + 1)))
  {
    assert Roots(u, level) == Roots(t, level);
    if r.Ok? {
      var (root, timers, more) := r.value;
      MatchedSameView(u, t, more, timers, block);
      var claim := root.claim;
      if level + 1 < t.totalLevels && claim.Some? && claim.value.ClaimEdge? && claim.value.edge in t.edges {
        var q := claim.value.edge;
        var rest := AncestorsFrom(children, t, q, level + 1);
        if rest.Ok? {
          assert ids + (more + [q] + rest.value) == ids + more + [q] + rest.value;
        }
      }
    }
  }

  lemma {:induction false} MatchedSameView(u: Tree, t: Tree, ids: seq<EdgeId>, timers: seq<nat>, block: nat)
    requires SameView(u, t) && Matched(u, ids, timers, block)
    ensures Matched(t, ids, timers, block)
  {
    forall i | 0 <= i < |ids|
      ensures TreeTimer(u, ids[i], block) == TreeTimer(t, ids[i], block)
    {
      assert Mutuals(u, ids[i].mutual) == Mutuals(t, ids[i].mutual);
    }
  }

  lemma {:induction false} EarliestOfList(rivals: seq<Rival>, group: Group, id: EdgeId, t: Option<nat>)
    requires Lists(rivals, group, id)
    requires t.None? <==> rivals == []
    requires t.Some? ==> exists j :: 0 <= j < |rivals| && rivals[j].createdAt == t.value
    requires t.Some? ==> forall j :: 0 <= j < |rivals| ==> t.value <= rivals[j].createdAt
    ensures t == EarliestRival(group, id)
  {
    var e := EarliestRival(group, id);
    if e.Some? {
      var w :| w in group && w != id && group[w] == e.value;
      assert Rival(w, group[w]) in rivals;
    }
    if t.Some? {
      var j :| 0 <= j < |rivals| && rivals[j].createdAt == t.value;
      assert rivals[j].id in group;
    }
  }
}
