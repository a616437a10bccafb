/** The heights a subchallenge originates from: the walk up the levels on chain, and the list the
    tracker uses when it opens a subchallenge. */
module OriginHeights {
  import opened Outcomes
  import opened Protocol

  datatype WalkError = SourceEdgeMissing

  /** Start heights of the edges that originated a challenge, outermost level first. */
  function OriginStarts(origin: OriginId, level: nat): seq<nat> {
    if level == 0 || origin.AssertionOrigin? then []
    else OriginStarts(origin.claimed.origin, level - 1) + [origin.claimed.startHeight]
  }

  /** The claim heights of every edge with this mutual id. */
  function ClaimHeights(m: MutualId): seq<nat> {
    if m.level == 0 then [m.startHeight] else OriginStarts(m.origin, m.level)
  }

  /** The edge a challenge's origin id leads to through the first-rival record. */
  function SourceEdge(c: Chain, origin: OriginId): Option<Edge> {
    if origin.AssertionOrigin? || origin.claimed !in c.rivalries || c.rivalries[origin.claimed].Unrivaled? then None
    else
      var rival := c.rivalries[origin.claimed].firstRival;
      if rival in c.edges then Some(c.edges[rival]) else None
  }

  /** Origins below the block level belong to groups that have a rival. */
  ghost predicate OriginsRivaled(c: Chain) {
    forall id :: id in c.edges ==> OriginRivaled(c, id.mutual.origin)
  }

  ghost predicate OriginRivaled(c: Chain, origin: OriginId) {
    origin.EdgeOrigin? ==> origin.claimed in c.rivalries && c.rivalries[origin.claimed].Rivaled?
  }

  lemma {:induction false} AddKeepsOrigins(c: Chain, e: Edge)
    requires OriginsRivaled(c) && OriginRivaled(c, e.id.mutual.origin)
    ensures OriginsRivaled(AddToStore(c, e))
  {
    var c' := AddToStore(c, e);
    forall id | id in c'.edges
      ensures OriginRivaled(c', id.mutual.origin)
    {
      assert id != e.id ==> OriginRivaled(c, id.mutual.origin);
    }
  }

  lemma {:induction false} ApplyKeepsOrigins(heights: seq<nat>, c: Chain, step: Step)
    requires ValidHeights(heights) && OriginsRivaled(c)
    ensures OriginsRivaled(Apply(heights, c, step))
  {
    if Enabled(heights, c, step) {
      match step
      case CreateBlockRoot(parent, claimed, history) =>
        AddKeepsOrigins(c, Edge(RootId(heights, 0, AssertionOrigin(parent), history),
                                Some(ClaimAssertion(claimed)), c.now));
      case CreateSubchallengeRoot(claim, history) =>
        AddKeepsOrigins(c, Edge(RootId(heights, claim.mutual.level + 1, EdgeOrigin(claim.mutual), history),
                                Some(ClaimEdge(claim)), c.now));
      case BisectEdge(edge) =>
        BisectKeepsOrigins(heights, c, edge);
      case Tick =>
    }
  }

  lemma {:induction false} BisectKeepsOrigins(heights: seq<nat>, c: Chain, edge: EdgeId)
    requires ValidHeights(heights) && OriginsRivaled(c) && Enabled(heights, c, BisectEdge(edge))
    ensures OriginsRivaled(Apply(heights, c, BisectEdge(edge)))
  {
    var lower, upper := Edge(LowerChildId(edge), None, c.now), Edge(UpperChildId(edge), None, c.now);
    var c1 := c;
    if lower.id !in c.edges {
      AddKeepsOrigins(c, lower);
      c1 := AddToStore(c, lower);
    }
    assert OriginRivaled(c1, edge.mutual.origin) by { assert edge in c1.edges; }
    AddKeepsOrigins(c1, upper);
    var c2 := AddToStore(c1, upper);
    var c3 := Apply(heights, c, BisectEdge(edge));
    assert c3.edges == c2.edges && c3.rivalries == c2.rivalries;
    forall id | id in c3.edges
      ensures OriginRivaled(c3, id.mutual.origin)
    {
      assert OriginRivaled(c2, id.mutual.origin);
    }
  }

  lemma {:induction false} ExecKeepsOrigins(heights: seq<nat>, steps: seq<Step>)
    requires ValidHeights(heights)
    ensures OriginsRivaled(Exec(heights, steps))
  {
    if steps != [] {
      ExecKeepsOrigins(heights, steps[..|steps| - 1]);
      ApplyKeepsOrigins(heights, Exec(heights, steps[..|steps| - 1]), steps[|steps| - 1]);
    }
  }

  /** Whichever edge the record yields, it has the claimed mutual id. */
  lemma {:induction false} SourceIsClaimed(heights: seq<nat>, c: Chain, id: EdgeId)
    requires Inv(heights, c) && OriginsRivaled(c) && id in c.edges && id.mutual.level > 0
    ensures SourceEdge(c, id.mutual.origin).Some?
    ensures var source := SourceEdge(c, id.mutual.origin).value.id;
            source in c.edges && source.mutual == id.mutual.origin.claimed && source.mutual.level + 1 == id.mutual.level
  {
    assert OriginRivaled(c, id.mutual.origin);
    var m := id.mutual.origin.claimed;
    assert RivalryOk(c, m, c.rivalries[m]);
  }

  /** TopLevelClaimHeight: over every run the walk succeeds and yields the claim heights. */
  method TopLevelClaimHeight(ghost heights: seq<nat>, ghost steps: seq<Step>, c: Chain, id: EdgeId)
      returns (r: Result<seq<nat>, WalkError>)
    requires ValidHeights(heights) && c == Exec(heights, steps) && id in c.edges
    ensures r == Ok(ClaimHeights(id.mutual))
  {
    hide Inv, Exec, OriginStarts, SourceEdge;
    var challengeLevel := id.mutual.level;
    if challengeLevel == 0 {
      return Ok([id.mutual.startHeight]);
    }
    ExecInv(heights, steps);
    ExecKeepsOrigins(heights, steps);
    var challengeOriginHeights := new nat[challengeLevel];
    var originId := id.mutual.origin;
    ghost var target, cursor := OriginStarts(originId, challengeLevel), id;
    StartsLength(heights, c, id);
    while challengeLevel > 0
      invariant challengeLevel <= |target| == challengeOriginHeights.Length
      invariant cursor in c.edges && cursor.mutual.level == challengeLevel && cursor.mutual.origin == originId
      invariant target[..challengeLevel] == OriginStarts(originId, challengeLevel)
      invariant forall k :: challengeLevel <= k < |target| ==> challengeOriginHeights[k] == target[k]
    {
      SourceIsClaimed(heights, c, cursor);
      var source := SourceEdge(c, originId);
      if source.None? {
        return Err(SourceEdgeMissing);
      }
      var m := source.value.id.mutual;
      assert target[..challengeLevel][..challengeLevel - 1] == target[..challengeLevel - 1];
      StartsStep(heights, c, cursor);
      challengeOriginHeights[challengeLevel - 1] := m.startHeight;
      originId := m.origin;
      challengeLevel := challengeLevel - 1;
      cursor := source.value.id;
    }
    assert challengeOriginHeights[..] == target;
    return Ok(challengeOriginHeights[..]);
  }

  lemma {:induction false} StartsLength(heights: seq<nat>, c: Chain, id: EdgeId)
    requires Inv(heights, c) && OriginsRivaled(c) && id in c.edges
    ensures |OriginStarts(id.mutual.origin, id.mutual.level)| == id.mutual.level
    decreases id.mutual.level
  {
    if id.mutual.level > 0 {
      SourceIsClaimed(heights, c, id);
      StartsLength(heights, c, SourceEdge(c, id.mutual.origin).value.id);
    }
  }

  lemma {:induction false} StartsStep(heights: seq<nat>, c: Chain, id: EdgeId)
    requires Inv(heights, c) && OriginsRivaled(c) && id in c.edges && id.mutual.level > 0
    ensures var starts, m := OriginStarts(id.mutual.origin, id.mutual.level), id.mutual.origin.claimed;
            && |starts| == id.mutual.level
            && starts[id.mutual.level - 1] == m.startHeight
            && starts[..id.mutual.level - 1] == OriginStarts(m.origin, id.mutual.level - 1)
  {
    StartsLength(heights, c, id);
  }

  /** The height list the tracker uses to open a subchallenge on an edge. */
  method SubchallengeHeights(ghost heights: seq<nat>, ghost steps: seq<Step>, c: Chain, id: EdgeId)
      returns (r: Result<seq<nat>, WalkError>)
    requires ValidHeights(heights) && c == Exec(heights, steps) && id in c.edges
    ensures r == Ok(OriginStarts(EdgeOrigin(id.mutual), id.mutual.level + 1))
  {
    var originHeights := TopLevelClaimHeight(heights, steps, c, id);
    if id.mutual.level == 0 {
      assert OriginStarts(id.mutual.origin, 0) + [id.mutual.startHeight] == [id.mutual.startHeight];
      return Ok([originHeights.value[0]]);
    }
    var list := [];
    for k := 0 to |originHeights.value|
      invariant list == originHeights.value[..k]
    {
      list := list + [originHeights.value[k]];
    }
    assert list == originHeights.value;
    return Ok(list + [id.mutual.startHeight]);
  }

  /** The list used to open a subchallenge on an edge is the claim height list of the new leaf and of
      every edge ever bisected from it: all edges whose origin is the edge's mutual id. */
  lemma {:induction false} HeightsConsistent(heights: seq<nat>, steps: seq<Step>, id: EdgeId, below: EdgeId)
    requires ValidHeights(heights) && id in Exec(heights, steps).edges && below in Exec(heights, steps).edges
    requires below.mutual.origin == EdgeOrigin(id.mutual)
    ensures ClaimHeights(below.mutual) == OriginStarts(EdgeOrigin(id.mutual), id.mutual.level + 1)
    ensures ClaimHeights(below.mutual) == if id.mutual.level == 0 then ClaimHeights(id.mutual)
                                          else ClaimHeights(id.mutual) + [id.mutual.startHeight]
  {
    ExecInv(heights, steps);
    assert Shaped(heights, below);
    if id.mutual.level == 0 {
      assert OriginStarts(id.mutual.origin, 0) + [id.mutual.startHeight] == [id.mutual.startHeight];
    }
  }
}
