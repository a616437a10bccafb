/** What each transaction does, told by the edges on chain, and where edges come from. */
module Moves {
  import opened Bisection
  import opened Merkle
  import opened Outcomes
  import opened Protocol
  import opened Timers
  import opened Ancestors

  lemma {:induction false} ExecStep(heights: seq<nat>, steps: seq<Step>, step: Step)
    requires ValidHeights(heights)
    ensures Exec(heights, steps + [step]) == Apply(heights, Exec(heights, steps), step)
  {
    assert (steps + [step])[..|steps|] == steps;
  }

  /** Another edge on chain has the same mutual id. */
  ghost predicate Rivaled(c: Chain, id: EdgeId) {
    exists r :: r in c.edges && r != id && r.mutual == id.mutual
  }

  /** The store's record of first rivals tells exactly which edges have rivals. */
  lemma {:induction false} HasRivalIff(heights: seq<nat>, c: Chain, id: EdgeId)
    requires Inv(heights, c) && id in c.edges
    ensures HasRival(c, id) <==> Rivaled(c, id)
  {
    var r := c.rivalries[id.mutual];
    assert RivalryOk(c, id.mutual, r);
    if r.Rivaled? {
      var other := if r.first == id then r.firstRival else r.first;
      assert other in c.edges && other != id && other.mutual == id.mutual;
    }
  }

  // ----- where edges come from -----

  /** The edge was created as a level zero edge on an edge that exists, or by a bisection. */
  ghost predicate Born(c: Chain, id: EdgeId)
    requires id in c.edges
  {
    match c.edges[id].claim
    case None => exists p :: IsParent(c.children, p, id)
    case Some(ClaimAssertion(_)) => true
    case Some(ClaimEdge(claimed)) => claimed in c.edges
  }

  ghost predicate AllBorn(c: Chain) {
    forall id :: id in c.edges ==> Born(c, id)
  }

  lemma {:induction false} BornKept(c: Chain, c': Chain, id: EdgeId)
    requires id in c.edges && Born(c, id) && id in c'.edges && c'.edges[id] == c.edges[id]
    requires forall g :: g in c.edges ==> g in c'.edges
    requires forall p :: p in c.children ==> p in c'.children && c'.children[p] == c.children[p]
    ensures Born(c', id)
  {
    if c.edges[id].claim.None? {
      var p :| IsParent(c.children, p, id);
      assert IsParent(c'.children, p, id);
    }
  }

  lemma {:induction false} CreateKeepsBorn(c: Chain, e: Edge)
    requires AllBorn(c) && e.id !in c.edges && e.claim.Some?
    requires e.claim.value.ClaimEdge? ==> e.claim.value.edge in c.edges
    ensures AllBorn(AddToStore(c, e))
  {
    forall id | id in AddToStore(c, e).edges
      ensures Born(AddToStore(c, e), id)
    {
      if id != e.id {
        BornKept(c, AddToStore(c, e), id);
      }
    }
  }

  lemma {:induction false} BisectedHasUpperHalf(c: Chain, p: EdgeId)
    requires ChildrenOk(c)
    ensures p in c.children ==> Divisible(p.mutual.Span()) && UpperChildId(p) in c.edges
  {
    if p in c.children {
      assert ChildOk(c, p, c.children[p]);
    }
  }

  lemma {:induction false} BisectKeepsBorn(heights: seq<nat>, c: Chain, p: EdgeId)
    requires ValidHeights(heights) && Inv(heights, c) && AllBorn(c) && Enabled(heights, c, BisectEdge(p))
    ensures AllBorn(Apply(heights, c, BisectEdge(p)))
  {
    var c', lower, upper := Apply(heights, c, BisectEdge(p)), LowerChildId(p), UpperChildId(p);
    BisectedHasUpperHalf(c, p);
    assert IsParent(c'.children, p, lower) && IsParent(c'.children, p, upper);
    forall id | id in c'.edges
      ensures Born(c', id)
    {
      if id in c.edges {
        BornKept(c, c', id);
      }
    }
  }

  /** Over every run each edge was created on an edge that exists or by a bisection. */
  lemma {:induction false} ExecBorn(heights: seq<nat>, steps: seq<Step>)
    requires ValidHeights(heights)
    ensures AllBorn(Exec(heights, steps))
  {
    hide Inv, AllBorn;
    if steps != [] {
      var n := |steps| - 1;
      ExecInv(heights, steps[..n]);
      ExecBorn(heights, steps[..n]);
      StepKeepsBorn(heights, Exec(heights, steps[..n]), steps[n]);
    } else {
      NothingIsBorn();
    }
  }

  lemma {:induction false} NothingIsBorn()
    ensures AllBorn(EMPTY)
  {
  }

  lemma {:induction false} StepKeepsBorn(heights: seq<nat>, c: Chain, step: Step)
    requires ValidHeights(heights) && Inv(heights, c) && AllBorn(c)
    ensures AllBorn(Apply(heights, c, step))
  {
    if Enabled(heights, c, step) {
      match step
      case CreateBlockRoot(parent, claimed, history) =>
        CreateKeepsBorn(c, Edge(RootId(heights, 0, AssertionOrigin(parent), history),
                                Some(ClaimAssertion(claimed)), c.now));
      case CreateSubchallengeRoot(claim, history) =>
        CreateKeepsBorn(c, Edge(RootId(heights, claim.mutual.level + 1, EdgeOrigin(claim.mutual), history),
                                Some(ClaimEdge(claim)), c.now));
      case BisectEdge(p) => BisectKeepsBorn(heights, c, p);
      case Tick =>
        forall id | id in c.edges
          ensures Born(c.(now := c.now + 1), id)
        {
          BornKept(c, c.(now := c.now + 1), id);
        }
    }
  }

  /** Over every run an edge's upper half exists exactly if the edge was bisected: no other edge has it. */
  lemma {:induction false} UpperHalfMeansBisected(heights: seq<nat>, steps: seq<Step>, p: EdgeId)
    requires ValidHeights(heights) && p in Exec(heights, steps).edges && Divisible(p.mutual.Span())
    ensures UpperChildId(p) in Exec(heights, steps).edges <==> p in Exec(heights, steps).children
  {
    hide Exec;
    var c, q := Exec(heights, steps), UpperChildId(p);
    ExecInv(heights, steps);
    ExecBorn(heights, steps);
    BisectedHasUpperHalf(c, p);
    if q in c.edges {
      ChildShapes(heights, p);
      assert ClaimOk(heights, c.edges[q]);
      assert Born(c, q);
      var p' :| IsParent(c.children, p', q);
      SameUpperHalf(heights, c, p, p');
    }
  }

  lemma {:induction false} SameUpperHalf(heights: seq<nat>, c: Chain, p: EdgeId, p': EdgeId)
    requires ValidHeights(heights) && Inv(heights, c) && p in c.edges && Divisible(p.mutual.Span())
    requires IsParent(c.children, p', UpperChildId(p))
    ensures p == p'
  {
    assert ChildOk(c, p', c.children[p']);
    ChildShapes(heights, p);
    ChildShapes(heights, p');
    ParentGroupUnique(heights, UpperChildId(p).mutual, p, p');
    assert UpperChildId(p) == UpperChildId(p');
  }

  /** A path of parents and claimed edges from the edge up to a block level root. */
  ghost predicate LeadsToBlockRoot(c: Chain, path: seq<EdgeId>, id: EdgeId) {
    && IsPath(c, path) && path[0] == id
    && path[|path| - 1].mutual.level == 0 && c.edges[path[|path| - 1]].claim.Some?
  }

  /** Over every run each edge has one. */
  lemma {:induction false} PathToBlockRoot(heights: seq<nat>, steps: seq<Step>, id: EdgeId) returns (path: seq<EdgeId>)
    requires ValidHeights(heights) && id in Exec(heights, steps).edges
    ensures LeadsToBlockRoot(Exec(heights, steps), path, id)
  {
    hide Exec, Inv, AllBorn, LeadsToBlockRoot;
    ExecInv(heights, steps);
    ExecBorn(heights, steps);
    path := PathUp(heights, Exec(heights, steps), id);
  }

  lemma {:induction false} OneMore(c: Chain, path: seq<EdgeId>, parent: EdgeId, id: EdgeId)
    requires LeadsToBlockRoot(c, path, parent) && Link(c, parent, id)
    ensures LeadsToBlockRoot(c, [id] + path, id)
  {
    PathConcat(c, [id], path);
  }

  /** An edge without a claim is a half of a longer edge of its level. */
  lemma {:induction false} BisectedFrom(heights: seq<nat>, c: Chain, id: EdgeId) returns (p: EdgeId)
    requires ValidHeights(heights) && Inv(heights, c) && id in c.edges && Born(c, id) && c.edges[id].claim.None?
    ensures Link(c, p, id) && p.mutual.level == id.mutual.level < |heights|
    ensures id.mutual.endHeight - id.mutual.startHeight < p.mutual.endHeight - p.mutual.startHeight
         <= heights[id.mutual.level]
  {
    p :| IsParent(c.children, p, id);
    assert ChildOk(c, p, c.children[p]);
    InTreeWithin(Interval(0, heights[p.mutual.level]), p.mutual.Span());
  }

  lemma {:induction false} PathUp(heights: seq<nat>, c: Chain, id: EdgeId) returns (path: seq<EdgeId>)
    requires ValidHeights(heights) && Inv(heights, c) && AllBorn(c) && id in c.edges
    ensures LeadsToBlockRoot(c, path, id)
    decreases id.mutual.level, heights[id.mutual.level] - (id.mutual.endHeight - id.mutual.startHeight)
  {
    assert ClaimOk(heights, c.edges[id]);
    assert Born(c, id);
    match c.edges[id].claim
    case Some(ClaimAssertion(_)) =>
      path := [id];
    case Some(ClaimEdge(claimed)) =>
      path := PathUp(heights, c, claimed);
      OneMore(c, path, claimed, id);
      path := [id] + path;
    case None =>
      var p := BisectedFrom(heights, c, id);
      path := PathUp(heights, c, p);
      OneMore(c, path, p, id);
      path := [id] + path;
  }

  // ----- what the transactions do -----

  /** Creating a block level edge adds it with its claim, unless it exists or its history has the wrong length. */
  lemma {:induction false} BlockRootIsCreated(
      heights: seq<nat>, steps: seq<Step>, parent: nat, claimed: nat, history: seq<Hash>)
    requires ValidHeights(heights)
    ensures var c, c' := Exec(heights, steps), Exec(heights, steps + [CreateBlockRoot(parent, claimed, history)]);
            if |history| != heights[0] + 1 then c' == c
            else
              var id := EdgeId(MutualId(0, AssertionOrigin(parent), 0, history[..1], heights[0]), history);
              if id in c.edges then c' == c
              else
                && c'.edges == c.edges[id := Edge(id, Some(ClaimAssertion(claimed)), c.now)]
                && c'.children == c.children && c'.now == c.now
  {
    hide Exec;
    ExecStep(heights, steps, CreateBlockRoot(parent, claimed, history));
  }

  /** Over every run a subchallenge opens on an edge exactly if the edge has length one and a rival, a level
      below it is left, and the level zero edge is new and of that level's height. It claims that very edge. */
  lemma {:induction false} SubchallengeIsOpened(
      heights: seq<nat>, steps: seq<Step>, claim: EdgeId, history: seq<Hash>)
    requires ValidHeights(heights) && claim in Exec(heights, steps).edges
    ensures var c, c' := Exec(heights, steps), Exec(heights, steps + [CreateSubchallengeRoot(claim, history)]);
            var m, level := claim.mutual, claim.mutual.level + 1;
            if level >= |heights| || |history| != heights[level] + 1 then c' == c
            else
              var id := EdgeId(MutualId(level, EdgeOrigin(m), 0, history[..1], heights[level]), history);
              if m.endHeight == m.startHeight + 1 && Rivaled(c, claim) && id !in c.edges then
                && c'.edges == c.edges[id := Edge(id, Some(ClaimEdge(claim)), c.now)]
                && c'.children == c.children && c'.now == c.now
              else c' == c
  {
    hide Exec;
    ExecInv(heights, steps);
    ExecStep(heights, steps, CreateSubchallengeRoot(claim, history));
    HasRivalIff(heights, Exec(heights, steps), claim);
  }

  /** Over every run an edge is bisected exactly if it has length two or more, a rival, and was not bisected
      before; its halves meet at the bisection point, and a lower half that exists is kept as it is. */
  lemma {:induction false} EdgeIsBisected(heights: seq<nat>, steps: seq<Step>, p: EdgeId)
    requires ValidHeights(heights) && p in Exec(heights, steps).edges
    ensures var c, c' := Exec(heights, steps), Exec(heights, steps + [BisectEdge(p)]);
            if Divisible(p.mutual.Span()) && Rivaled(c, p) && p !in c.children then
              var mid := Mid(p.mutual.startHeight, p.mutual.endHeight);
              && mid < |p.endHistory|
              && var middle := p.endHistory[..mid + 1];
                 var lower := EdgeId(p.mutual.(endHeight := mid), middle);
                 var upper := EdgeId(p.mutual.(startHeight := mid, startHistory := middle), p.endHistory);
                 && c'.children == c.children[p := (lower, upper)] && c'.now == c.now
                 && c'.edges == c.edges[lower := if lower in c.edges then c.edges[lower] else Edge(lower, None, c.now)]
                                       [upper := Edge(upper, None, c.now)]
            else c' == c
  {
    hide Exec, Mid;
    var c := Exec(heights, steps);
    ExecInv(heights, steps);
    ExecStep(heights, steps, BisectEdge(p));
    HasRivalIff(heights, c, p);
    if Divisible(p.mutual.Span()) {
      UpperHalfMeansBisected(heights, steps, p);
      var lower := LowerChildId(p);
      if lower in c.edges {
        assert c.edges[lower := c.edges[lower]] == c.edges;
      }
    }
  }

  /** A block changes nothing but the time. */
  lemma {:induction false} TimePasses(heights: seq<nat>, steps: seq<Step>)
    requires ValidHeights(heights)
    ensures Exec(heights, steps + [Tick]) == Exec(heights, steps).(now := Exec(heights, steps).now + 1)
  {
    ExecStep(heights, steps, Tick);
  }
}
