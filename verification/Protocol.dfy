/** Edges and the on-chain edge store as a state machine over its transactions. A history commitment
    stands for the list of leaves it commits to; ids are the terms they hash. */
module Protocol {
  import opened Bits
  import opened Bisection
  import opened Merkle
  import opened Outcomes

  datatype OriginId = AssertionOrigin(assertion: nat) | EdgeOrigin(claimed: MutualId)

  datatype MutualId = MutualId(
    level: nat, origin: OriginId, startHeight: nat, startHistory: seq<Hash>, endHeight: nat)
  {
    function Span(): Interval {
      Interval(startHeight, endHeight)
    }
  }

  datatype EdgeId = EdgeId(mutual: MutualId, endHistory: seq<Hash>)

  datatype ClaimId = ClaimAssertion(assertion: nat) | ClaimEdge(edge: EdgeId)

  datatype Edge = Edge(id: EdgeId, claim: Option<ClaimId>, createdAt: nat)

  /** What the store keeps per mutual id: the contract's magic value or the first rival. The first
      edge of the group is remembered as well. */
  datatype Rivalry = Unrivaled(first: EdgeId) | Rivaled(first: EdgeId, firstRival: EdgeId)

  type Children = map<EdgeId, (EdgeId, EdgeId)>

  predicate IsParent(children: Children, parent: EdgeId, child: EdgeId) {
    parent in children && (child == children[parent].0 || child == children[parent].1)
  }

  datatype Chain = Chain(
    now: nat, edges: map<EdgeId, Edge>, children: Children, rivalries: map<MutualId, Rivalry>)

  /** Heights of level zero edges, one per challenge level. */
  predicate ValidHeights(heights: seq<nat>) {
    |heights| > 0 && forall i :: 0 <= i < |heights| ==> 0 < heights[i] < UINT64
  }

  function LowerChildId(id: EdgeId): EdgeId
    requires Divisible(id.mutual.Span())
  {
    var m := Mid(id.mutual.startHeight, id.mutual.endHeight);
    EdgeId(id.mutual.(endHeight := m), if m < |id.endHistory| then id.endHistory[..m + 1] else id.endHistory)
  }

  function UpperChildId(id: EdgeId): EdgeId
    requires Divisible(id.mutual.Span())
  {
    var m := Mid(id.mutual.startHeight, id.mutual.endHeight);
    EdgeId(
      id.mutual.(startHeight := m,
                 startHistory := if m < |id.endHistory| then id.endHistory[..m + 1] else id.endHistory),
      id.endHistory)
  }

  function AddToStore(c: Chain, e: Edge): Chain {
    var m := e.id.mutual;
    var rivalry :=
      if m !in c.rivalries then Unrivaled(e.id)
      else if c.rivalries[m].Unrivaled? then Rivaled(c.rivalries[m].first, e.id)
      else c.rivalries[m];
    c.(edges := c.edges[e.id := e], rivalries := c.rivalries[m := rivalry])
  }

  predicate HasRival(c: Chain, id: EdgeId) {
    id in c.edges && id.mutual in c.rivalries && c.rivalries[id.mutual].Rivaled?
  }

  predicate HasLengthOneRival(c: Chain, id: EdgeId) {
    HasRival(c, id) && id.mutual.endHeight == id.mutual.startHeight + 1
  }

  datatype Step =
    | CreateBlockRoot(parentAssertion: nat, claimed: nat, history: seq<Hash>)
    | CreateSubchallengeRoot(claim: EdgeId, history: seq<Hash>)
    | BisectEdge(edge: EdgeId)
    | Tick

  function RootId(heights: seq<nat>, level: nat, origin: OriginId, history: seq<Hash>): EdgeId
    requires level < |heights| && |history| > 0
  {
    EdgeId(MutualId(level, origin, 0, history[..1], heights[level]), history)
  }

  /** The checks a transaction must pass; one that fails them reverts and changes nothing. */
  predicate Enabled(heights: seq<nat>, c: Chain, step: Step)
    requires ValidHeights(heights)
  {
    match step
    case CreateBlockRoot(parent, _, history) =>
      |history| == heights[0] + 1 && RootId(heights, 0, AssertionOrigin(parent), history) !in c.edges
    case CreateSubchallengeRoot(claim, history) =>
      && HasLengthOneRival(c, claim)
      && claim.mutual.level + 1 < |heights|
      && |history| == heights[claim.mutual.level + 1] + 1
      && RootId(heights, claim.mutual.level + 1, EdgeOrigin(claim.mutual), history) !in c.edges
    case BisectEdge(edge) =>
      HasRival(c, edge) && Divisible(edge.mutual.Span()) && UpperChildId(edge) !in c.edges
    case Tick => true
  }

  function Apply(heights: seq<nat>, c: Chain, step: Step): Chain
    requires ValidHeights(heights)
  {
    if !Enabled(heights, c, step) then c
    else
      match step
      case CreateBlockRoot(parent, claimed, history) =>
        AddToStore(c, Edge(RootId(heights, 0, AssertionOrigin(parent), history), Some(ClaimAssertion(claimed)), c.now))
      case CreateSubchallengeRoot(claim, history) =>
        AddToStore(c, Edge(RootId(heights, claim.mutual.level + 1, EdgeOrigin(claim.mutual), history),
                           Some(ClaimEdge(claim)), c.now))
      case BisectEdge(edge) =>
        var lower, upper := LowerChildId(edge), UpperChildId(edge);
        var c1 := if lower in c.edges then c else AddToStore(c, Edge(lower, None, c.now));
        var c2 := AddToStore(c1, Edge(upper, None, c.now));
        c2.(children := c2.children[edge := (lower, upper)])
      case Tick => c.(now := c.now + 1)
  }

  const EMPTY: Chain := Chain(0, map[], map[], map[])

  /** The chain after a run of transactions. */
  function Exec(heights: seq<nat>, steps: seq<Step>): Chain
    requires ValidHeights(heights)
  {
    if steps == [] then EMPTY else Apply(heights, Exec(heights, steps[..|steps| - 1]), steps[|steps| - 1])
  }

  // ----- the invariant -----

  ghost predicate Shaped(heights: seq<nat>, id: EdgeId) {
    var m := id.mutual;
    && m.level < |heights|
    && InTree(Interval(0, heights[m.level]), m.Span())
    && |id.endHistory| == m.endHeight + 1
    && m.startHeight <= m.endHeight
    && m.startHistory == id.endHistory[..m.startHeight + 1]
    && (m.level == 0 <==> m.origin.AssertionOrigin?)
    && (m.level > 0 ==> m.origin.claimed.level == m.level - 1)
  }

  predicate IsRootSpan(heights: seq<nat>, m: MutualId) {
    m.level < |heights| && m.Span() == Interval(0, heights[m.level])
  }

  /** pm is the mutual id of the edges whose bisection or subchallenge brings about edges with mutual
      id m. */
  ghost predicate ParentGroup(heights: seq<nat>, pm: MutualId, m: MutualId) {
    if IsRootSpan(heights, m) then m.origin == EdgeOrigin(pm)
    else
      && pm.level == m.level && pm.origin == m.origin
      && IsHalf(pm.Span(), m.Span())
      && |m.startHistory| == m.startHeight + 1
      && pm.startHeight <= m.startHeight
      && pm.startHistory == m.startHistory[..pm.startHeight + 1]
  }

  /** Some group that brings about m already had a rival at time t. */
  ghost predicate RivaledParent(heights: seq<nat>, c: Chain, m: MutualId, t: nat) {
    exists pm :: pm in c.rivalries && ParentGroup(heights, pm, m) && RivaledBy(c, pm, t)
  }

  ghost predicate RivaledBy(c: Chain, m: MutualId, t: nat) {
    m in c.rivalries && c.rivalries[m].Rivaled? && c.rivalries[m].firstRival in c.edges &&
    c.edges[c.rivalries[m].firstRival].createdAt <= t
  }

  ghost predicate IsBlockRoot(heights: seq<nat>, m: MutualId) {
    m.level == 0 && IsRootSpan(heights, m)
  }

  ghost predicate EdgesOk(heights: seq<nat>, c: Chain) {
    forall id :: id in c.edges ==>
      && c.edges[id].id == id && c.edges[id].createdAt <= c.now
      && Shaped(heights, id)
      && id.mutual in c.rivalries
  }

  ghost predicate ParentOk(heights: seq<nat>, c: Chain, m: MutualId, t: nat) {
    IsBlockRoot(heights, m) || RivaledParent(heights, c, m, t)
  }

  // The triggers of the next four predicates keep one edge's facts from dragging in its parents'.
  ghost predicate ParentsOk(heights: seq<nat>, c: Chain) {
    forall id {:trigger ParentOk(heights, c, id.mutual, c.edges[id].createdAt)} ::
      id in c.edges ==> ParentOk(heights, c, id.mutual, c.edges[id].createdAt)
  }

  /** first and firstRival are the first two edges of the group. */
  ghost predicate RivalryOk(c: Chain, m: MutualId, r: Rivalry) {
    && r.first in c.edges && r.first.mutual == m
    && (r.Unrivaled? ==> forall g :: g in c.edges && g.mutual == m ==> g == r.first)
    && (r.Rivaled? ==>
          && r.firstRival in c.edges && r.firstRival.mutual == m && r.firstRival != r.first
          && c.edges[r.first].createdAt <= c.edges[r.firstRival].createdAt
          && forall g :: g in c.edges && g.mutual == m && g != r.first ==>
               c.edges[r.firstRival].createdAt <= c.edges[g].createdAt)
  }

  ghost predicate RivalriesOk(c: Chain) {
    forall m {:trigger RivalryOk(c, m, c.rivalries[m])} :: m in c.rivalries ==> RivalryOk(c, m, c.rivalries[m])
  }

  ghost predicate ChildOk(c: Chain, p: EdgeId, halves: (EdgeId, EdgeId)) {
    && p in c.edges && Divisible(p.mutual.Span())
    && halves == (LowerChildId(p), UpperChildId(p))
    && halves.0 in c.edges && halves.1 in c.edges
  }

  ghost predicate ChildrenOk(c: Chain) {
    forall p {:trigger ChildOk(c, p, c.children[p])} :: p in c.children ==> ChildOk(c, p, c.children[p])
  }

  /** Exactly the level zero edges carry a claim; a subchallenge's origin is the claimed edge's mutual id. */
  ghost predicate ClaimOk(heights: seq<nat>, e: Edge) {
    && (e.claim.Some? <==> IsRootSpan(heights, e.id.mutual))
    && (e.claim.Some? ==> (e.claim.value.ClaimAssertion? <==> e.id.mutual.level == 0))
    && (e.claim.Some? && e.claim.value.ClaimEdge? ==>
          e.id.mutual.origin == EdgeOrigin(e.claim.value.edge.mutual))
  }

  ghost predicate ClaimsOk(heights: seq<nat>, c: Chain) {
    forall id {:trigger ClaimOk(heights, c.edges[id])} :: id in c.edges ==> ClaimOk(heights, c.edges[id])
  }

  ghost predicate Inv(heights: seq<nat>, c: Chain) {
    EdgesOk(heights, c) && ParentsOk(heights, c) && RivalriesOk(c) && ChildrenOk(c) && ClaimsOk(heights, c)
  }

  // ----- every run keeps the invariant -----

  ghost predicate Addable(heights: seq<nat>, c: Chain, e: Edge) {
    && e.id !in c.edges && e.createdAt == c.now
    && Shaped(heights, e.id)
    && ParentOk(heights, c, e.id.mutual, c.now)
    && ClaimOk(heights, e)
  }

  lemma {:induction false} AddKeepsOwnRivalry(heights: seq<nat>, c: Chain, e: Edge)
    requires EdgesOk(heights, c) && RivalriesOk(c) && e.id !in c.edges && e.createdAt == c.now
    ensures RivalryOk(AddToStore(c, e), e.id.mutual, AddToStore(c, e).rivalries[e.id.mutual])
  {
    var m := e.id.mutual;
    if m in c.rivalries {
      assert RivalryOk(c, m, c.rivalries[m]);
    } else {
      assert forall g :: g in c.edges ==> g.mutual != m;
    }
  }

  lemma {:induction false} AddKeepsRivalries(heights: seq<nat>, c: Chain, e: Edge)
    requires EdgesOk(heights, c) && RivalriesOk(c) && e.id !in c.edges && e.createdAt == c.now
    ensures RivalriesOk(AddToStore(c, e))
  {
    var c' := AddToStore(c, e);
    AddKeepsOwnRivalry(heights, c, e);
    forall m | m in c'.rivalries && m != e.id.mutual
      ensures RivalryOk(c', m, c'.rivalries[m])
    {
      assert RivalryOk(c, m, c.rivalries[m]);
    }
  }

  lemma {:induction false} RivaledByKept(c: Chain, c': Chain, m: MutualId, t: nat)
    requires RivaledBy(c, m, t)
    requires forall id :: id in c.edges ==> id in c'.edges && c'.edges[id] == c.edges[id]
    requires m in c'.rivalries && c'.rivalries[m] == c.rivalries[m]
    ensures RivaledBy(c', m, t)
  {
  }

  lemma {:induction false} RivaledParentKept(heights: seq<nat>, c: Chain, e: Edge, m: MutualId, t: nat)
    requires RivaledParent(heights, c, m, t) && e.id !in c.edges
    ensures RivaledParent(heights, AddToStore(c, e), m, t)
  {
    var pm :| pm in c.rivalries && ParentGroup(heights, pm, m) && RivaledBy(c, pm, t);
    RivaledByKept(c, AddToStore(c, e), pm, t);
  }

  lemma {:induction false} AddKeepsParents(heights: seq<nat>, c: Chain, e: Edge)
    requires ParentsOk(heights, c) && Addable(heights, c, e)
    ensures ParentsOk(heights, AddToStore(c, e))
  {
    var c' := AddToStore(c, e);
    forall id | id in c'.edges
      ensures ParentOk(heights, c', id.mutual, c'.edges[id].createdAt)
    {
      var t := c'.edges[id].createdAt;
      assert ParentOk(heights, c, id.mutual, t);
      if !IsBlockRoot(heights, id.mutual) {
        RivaledParentKept(heights, c, e, id.mutual, t);
      }
    }
  }

  lemma {:induction false} AddKeepsInv(heights: seq<nat>, c: Chain, e: Edge)
    requires Inv(heights, c) && Addable(heights, c, e)
    ensures Inv(heights, AddToStore(c, e))
  {
    AddKeepsRivalries(heights, c, e);
    AddKeepsParents(heights, c, e);
    var c' := AddToStore(c, e);
    forall id | id in c'.edges
      ensures ClaimOk(heights, c'.edges[id])
    {
      assert id != e.id ==> ClaimOk(heights, c.edges[id]);
    }
    forall p | p in c'.children
      ensures ChildOk(c', p, c'.children[p])
    {
      assert ChildOk(c, p, c.children[p]);
    }
  }

  /** The halves of a tree interval keep the shape, and belong to the parent's group. */
  lemma {:induction false} ChildShapes(heights: seq<nat>, p: EdgeId)
    requires ValidHeights(heights) && Shaped(heights, p) && Divisible(p.mutual.Span())
    ensures Shaped(heights, LowerChildId(p)) && Shaped(heights, UpperChildId(p))
    ensures !IsRootSpan(heights, LowerChildId(p).mutual) && !IsRootSpan(heights, UpperChildId(p).mutual)
    ensures ParentGroup(heights, p.mutual, LowerChildId(p).mutual)
    ensures ParentGroup(heights, p.mutual, UpperChildId(p).mutual)
    ensures LowerChildId(p) != UpperChildId(p)
  {
    var root := Interval(0, heights[p.mutual.level]);
    InTreeWithin(root, p.mutual.Span());
    InTreeExtend(root, p.mutual.Span(), Lower(p.mutual.Span()));
    InTreeExtend(root, p.mutual.Span(), Upper(p.mutual.Span()));
    var m := Mid(p.mutual.startHeight, p.mutual.endHeight);
    assert p.endHistory[..m + 1][..p.mutual.startHeight + 1] == p.endHistory[..p.mutual.startHeight + 1];
  }

  lemma {:induction false} RootShapes(heights: seq<nat>, level: nat, origin: OriginId, history: seq<Hash>)
    requires ValidHeights(heights) && level < |heights| && |history| == heights[level] + 1
    requires level == 0 <==> origin.AssertionOrigin?
    requires level > 0 ==> origin.claimed.level == level - 1
    ensures Shaped(heights, RootId(heights, level, origin, history))
    ensures IsRootSpan(heights, RootId(heights, level, origin, history).mutual)
  {
  }

  lemma {:induction false} BisectKeepsInv(heights: seq<nat>, c: Chain, edge: EdgeId)
    requires ValidHeights(heights) && Inv(heights, c) && Enabled(heights, c, BisectEdge(edge))
    ensures Inv(heights, Apply(heights, c, BisectEdge(edge)))
  {
    var lower, upper := LowerChildId(edge), UpperChildId(edge);
    ChildShapes(heights, edge);
    RivalKnown(heights, c, edge);
    assert ParentOk(heights, c, lower.mutual, c.now) && ParentOk(heights, c, upper.mutual, c.now);
    var c1 := c;
    if lower !in c.edges {
      AddKeepsInv(heights, c, Edge(lower, None, c.now));
      c1 := AddToStore(c, Edge(lower, None, c.now));
      RivaledParentKept(heights, c, Edge(lower, None, c.now), upper.mutual, c.now);
    }
    AddKeepsInv(heights, c1, Edge(upper, None, c.now));
    var c2 := AddToStore(c1, Edge(upper, None, c.now));
    SetChildrenKeepsInv(heights, c2, edge);
  }

  lemma {:induction false} SetChildrenKeepsInv(heights: seq<nat>, c: Chain, p: EdgeId)
    requires Inv(heights, c) && p in c.edges && Divisible(p.mutual.Span())
    requires LowerChildId(p) in c.edges && UpperChildId(p) in c.edges
    ensures Inv(heights, c.(children := c.children[p := (LowerChildId(p), UpperChildId(p))]))
  {
    var c' := c.(children := c.children[p := (LowerChildId(p), UpperChildId(p))]);
    SameEdgesKeep(heights, c, c');
    SetChildrenOk(c, p);
  }

  lemma {:induction false} SetChildrenOk(c: Chain, p: EdgeId)
    requires ChildrenOk(c) && p in c.edges && Divisible(p.mutual.Span())
    requires LowerChildId(p) in c.edges && UpperChildId(p) in c.edges
    ensures ChildrenOk(c.(children := c.children[p := (LowerChildId(p), UpperChildId(p))]))
  {
    var c' := c.(children := c.children[p := (LowerChildId(p), UpperChildId(p))]);
    forall q | q in c'.children
      ensures ChildOk(c', q, c'.children[q])
    {
      assert q != p ==> ChildOk(c, q, c.children[q]);
    }
  }

  /** Changing only the children or advancing the clock leaves the other parts of the invariant alone. */
  lemma {:induction false} SameEdgesKeep(heights: seq<nat>, c: Chain, c': Chain)
    requires c'.edges == c.edges && c'.rivalries == c.rivalries && c'.now >= c.now
    requires EdgesOk(heights, c) && ParentsOk(heights, c) && RivalriesOk(c) && ClaimsOk(heights, c)
    ensures EdgesOk(heights, c') && ParentsOk(heights, c') && RivalriesOk(c') && ClaimsOk(heights, c')
  {
    forall id | id in c'.edges
      ensures ParentOk(heights, c', id.mutual, c'.edges[id].createdAt)
    {
      var t := c.edges[id].createdAt;
      assert ParentOk(heights, c, id.mutual, t);
      if !IsBlockRoot(heights, id.mutual) {
        var pm :| pm in c.rivalries && ParentGroup(heights, pm, id.mutual) && RivaledBy(c, pm, t);
        assert RivaledBy(c', pm, t);
      }
    }
    forall m | m in c'.rivalries
      ensures RivalryOk(c', m, c'.rivalries[m])
    {
      assert RivalryOk(c, m, c.rivalries[m]);
    }
    forall id | id in c'.edges
      ensures ClaimOk(heights, c'.edges[id])
    {
      assert ClaimOk(heights, c.edges[id]);
    }
  }

  lemma {:induction false} BlockRootKeepsInv(heights: seq<nat>, c: Chain, step: Step)
    requires ValidHeights(heights) && Inv(heights, c) && step.CreateBlockRoot? && Enabled(heights, c, step)
    ensures Inv(heights, Apply(heights, c, step))
  {
    var origin := AssertionOrigin(step.parentAssertion);
    RootShapes(heights, 0, origin, step.history);
    var e := Edge(RootId(heights, 0, origin, step.history), Some(ClaimAssertion(step.claimed)), c.now);
    assert ClaimOk(heights, e);
    AddKeepsInv(heights, c, e);
    assert Apply(heights, c, step) == AddToStore(c, e);
  }

  lemma {:induction false} SubchallengeRootKeepsInv(heights: seq<nat>, c: Chain, step: Step)
    requires ValidHeights(heights) && Inv(heights, c) && step.CreateSubchallengeRoot? && Enabled(heights, c, step)
    ensures Inv(heights, Apply(heights, c, step))
  {
    var claimed := step.claim.mutual;
    var id := RootId(heights, claimed.level + 1, EdgeOrigin(claimed), step.history);
    RootShapes(heights, claimed.level + 1, EdgeOrigin(claimed), step.history);
    assert RivaledParent(heights, c, id.mutual, c.now) by {
      RivalKnown(heights, c, step.claim);
      assert ParentGroup(heights, claimed, id.mutual);
    }
    var e := Edge(id, Some(ClaimEdge(step.claim)), c.now);
    assert ClaimOk(heights, e);
    AddKeepsInv(heights, c, e);
    assert Apply(heights, c, step) == AddToStore(c, e);
  }

  lemma {:induction false} RivalKnown(heights: seq<nat>, c: Chain, id: EdgeId)
    requires EdgesOk(heights, c) && RivalriesOk(c) && HasRival(c, id)
    ensures RivaledBy(c, id.mutual, c.now)
  {
    assert RivalryOk(c, id.mutual, c.rivalries[id.mutual]);
  }

  lemma {:induction false} TickKeepsInv(heights: seq<nat>, c: Chain)
    requires Inv(heights, c)
    ensures Inv(heights, c.(now := c.now + 1))
  {
    var c' := c.(now := c.now + 1);
    SameEdgesKeep(heights, c, c');
    forall p | p in c'.children
      ensures ChildOk(c', p, c'.children[p])
    {
      assert ChildOk(c, p, c.children[p]);
    }
  }

  lemma {:induction false} ApplyKeepsInv(heights: seq<nat>, c: Chain, step: Step)
    requires ValidHeights(heights) && Inv(heights, c)
    ensures Inv(heights, Apply(heights, c, step))
  {
    if Enabled(heights, c, step) {
      match step
      case CreateBlockRoot(_, _, _) => BlockRootKeepsInv(heights, c, step);
      case CreateSubchallengeRoot(_, _) => SubchallengeRootKeepsInv(heights, c, step);
      case BisectEdge(edge) => BisectKeepsInv(heights, c, edge);
      case Tick => TickKeepsInv(heights, c);
    }
  }

  /** Every run of transactions ends in a state that satisfies the invariant. */
  lemma {:induction false} ExecInv(heights: seq<nat>, steps: seq<Step>)
    requires ValidHeights(heights)
    ensures Inv(heights, Exec(heights, steps))
  {
    if steps != [] {
      ExecInv(heights, steps[..|steps| - 1]);
      ApplyKeepsInv(heights, Exec(heights, steps[..|steps| - 1]), steps[|steps| - 1]);
    }
  }

  /** Groups have one parent group: the tree is laminar, and a mutual id carries its start history. */
  lemma {:induction false} ParentGroupUnique(heights: seq<nat>, m: MutualId, pm: EdgeId, qm: EdgeId)
    requires ValidHeights(heights) && Shaped(heights, pm) && Shaped(heights, qm)
    requires ParentGroup(heights, pm.mutual, m) && ParentGroup(heights, qm.mutual, m)
    ensures pm.mutual == qm.mutual
  {
    if !IsRootSpan(heights, m) {
      ParentUnique(Interval(0, heights[m.level]), pm.mutual.Span(), qm.mutual.Span(), m.Span());
    }
  }
}
