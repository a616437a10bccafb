/** Unrivaled time: one edge's local timer, its laws, and why the timers along an ancestor path never
    count a block twice. */
module Timers {
  import opened Protocol
  import opened Outcomes

  // ----- one edge -----

  /** Creation blocks of the edges that share a mutual id. */
  type Group = map<EdgeId, nat>

  ghost function MinOf(s: set<nat>): (m: nat)
    requires s != {}
    ensures m in s && forall x :: x in s ==> m <= x
  {
    var x :| x in s;
    if s == {x} then x
    else
      var y := MinOf(s - {x});
      assert s == (s - {x}) + {x};
      if x < y then x else y
  }

  ghost function EarliestRival(group: Group, id: EdgeId): (t: Option<nat>)
    ensures t.None? <==> forall r :: r in group ==> r == id
    ensures t.Some? ==> exists r :: r in group && r != id && group[r] == t.value
    ensures t.Some? ==> forall r :: r in group && r != id ==> t.value <= group[r]
  {
    var times := set r | r in group && r != id :: group[r];
    assert forall r :: r in group && r != id ==> group[r] in times;
    if times == {} then None
    else
      var t := MinOf(times);
      assert exists r :: r in group && r != id && group[r] == t;
      Some(t)
  }

  /** Blocks the edge has been without a rival at block t. */
  ghost function LocalTimer(group: Group, id: EdgeId, createdAt: nat, t: nat): nat {
    var e := EarliestRival(group, id);
    var stop := if e.Some? && e.value < t then e.value else t;
    if stop <= createdAt then 0 else stop - createdAt
  }

  /** The timer never runs backwards and never faster than the chain. */
  lemma {:induction false} TimerSlope(group: Group, id: EdgeId, createdAt: nat, t: nat, u: nat)
    requires t <= u
    ensures LocalTimer(group, id, createdAt, t) <= LocalTimer(group, id, createdAt, u)
    ensures LocalTimer(group, id, createdAt, u) <= LocalTimer(group, id, createdAt, t) + (u - t)
  {
  }

  /** A rival created at block b changes no timer up to b. */
  lemma {:induction false} LateRivalKeepsTimer(group: Group, id: EdgeId, createdAt: nat, rival: EdgeId, b: nat, t: nat)
    requires rival !in group && rival != id && t <= b
    ensures LocalTimer(group[rival := b], id, createdAt, t) == LocalTimer(group, id, createdAt, t)
  {
    var e, e' := EarliestRival(group, id), EarliestRival(group[rival := b], id);
    assert rival in group[rival := b];
    if e.Some? {
      var r :| r in group && r != id && group[r] == e.value;
      assert group[rival := b][r] == e.value;
    }
  }

  /** At most one edge of a group has unrivaled time. */
  lemma {:induction false} OneTimerPerGroup(group: Group, a: EdgeId, b: EdgeId, t: nat, u: nat)
    requires a in group && b in group && a != b
    ensures LocalTimer(group, a, group[a], t) == 0 || LocalTimer(group, b, group[b], u) == 0
  {
  }

  // ----- timers on chain -----

  ghost function GroupOf(c: Chain, m: MutualId): Group {
    map id | id in c.edges && id.mutual == m :: c.edges[id].createdAt
  }

  ghost function TimerOf(c: Chain, id: EdgeId, t: nat): nat
    requires id in c.edges
  {
    LocalTimer(GroupOf(c, id.mutual), id, c.edges[id].createdAt, t)
  }

  /** The contract's own account, which looks at the first rival only. */
  ghost function TimeUnrivaled(c: Chain, id: EdgeId): int
    requires id in c.edges && id.mutual in c.rivalries
    requires c.rivalries[id.mutual].Rivaled? ==> c.rivalries[id.mutual].firstRival in c.edges
  {
    var r := c.rivalries[id.mutual];
    if r.Unrivaled? then c.now - c.edges[id].createdAt
    else
      var rivalAt := c.edges[r.firstRival].createdAt;
      if rivalAt > c.edges[id].createdAt then rivalAt - c.edges[id].createdAt else 0
  }

  lemma {:induction false} FirstTwo(c: Chain, id: EdgeId)
    requires id in c.edges && id.mutual in c.rivalries && RivalryOk(c, id.mutual, c.rivalries[id.mutual])
    ensures var e, r := EarliestRival(GroupOf(c, id.mutual), id), c.rivalries[id.mutual];
            && (r.Unrivaled? ==> e == None && id == r.first)
            && (r.Rivaled? && id == r.first ==> e == Some(c.edges[r.firstRival].createdAt))
            && (r.Rivaled? && id != r.first ==>
                  && e.Some? && e.value <= c.edges[r.first].createdAt
                  && c.edges[r.first].createdAt <= c.edges[r.firstRival].createdAt <= c.edges[id].createdAt)
  {
    var group, r := GroupOf(c, id.mutual), c.rivalries[id.mutual];
    var e := EarliestRival(group, id);
    if r.Rivaled? {
      assert r.first in group && r.firstRival in group;
      if id == r.first {
        assert group[r.firstRival] == c.edges[r.firstRival].createdAt;
        var w :| w in group && w != id && group[w] == e.value;
      } else {
        assert group[r.first] == c.edges[r.first].createdAt;
      }
    }
  }

  /** Over every run the validator's timer at the current block is the contract's. */
  lemma {:induction false} TimerMatchesContract(heights: seq<nat>, steps: seq<Step>, id: EdgeId)
    requires ValidHeights(heights) && id in Exec(heights, steps).edges
    ensures var c := Exec(heights, steps);
            && id.mutual in c.rivalries
            && (c.rivalries[id.mutual].Rivaled? ==> c.rivalries[id.mutual].firstRival in c.edges)
            && TimerOf(c, id, c.now) == TimeUnrivaled(c, id)
  {
    var c := Exec(heights, steps);
    ExecInv(heights, steps);
    assert RivalryOk(c, id.mutual, c.rivalries[id.mutual]);
    FirstTwo(c, id);
  }

  // ----- paths -----

  /** parent was bisected into child, or child opened a subchallenge on parent. */
  ghost predicate Link(c: Chain, parent: EdgeId, child: EdgeId) {
    && parent in c.edges && child in c.edges
    && (IsParent(c.children, parent, child) || c.edges[child].claim == Some(ClaimEdge(parent)))
  }

  /** From an edge upwards, child first. */
  ghost predicate IsPath(c: Chain, path: seq<EdgeId>) {
    && |path| > 0
    && (forall i :: 0 <= i < |path| ==> path[i] in c.edges)
    && (forall i :: 0 < i < |path| ==> Link(c, path[i], path[i - 1]))
  }

  ghost function SumTimers(c: Chain, path: seq<EdgeId>, t: nat): nat
    requires forall i :: 0 <= i < |path| ==> path[i] in c.edges
  {
    if path == [] then 0 else SumTimers(c, path[..|path| - 1], t) + TimerOf(c, path[|path| - 1], t)
  }

  lemma {:induction false} LinkIsParentGroup(heights: seq<nat>, c: Chain, parent: EdgeId, child: EdgeId)
    requires ValidHeights(heights) && Inv(heights, c) && Link(c, parent, child)
    ensures ParentGroup(heights, parent.mutual, child.mutual) && !IsBlockRoot(heights, child.mutual)
  {
    assert ClaimOk(heights, c.edges[child]);
    if IsParent(c.children, parent, child) {
      assert ChildOk(c, parent, c.children[parent]);
      ChildShapes(heights, parent);
    }
  }

  /** The block at which a group came into being. */
  ghost function Since(c: Chain, m: MutualId): nat
    requires m in c.rivalries && c.rivalries[m].first in c.edges
  {
    c.edges[c.rivalries[m].first].createdAt
  }

  ghost predicate Known(c: Chain, m: MutualId) {
    m in c.rivalries && RivalryOk(c, m, c.rivalries[m])
  }

  /** The blocks from the creation of a group's first edge to block t. */
  ghost function Elapsed(c: Chain, m: MutualId, t: nat): nat
    requires Known(c, m)
  {
    if t <= Since(c, m) then 0 else t - Since(c, m)
  }

  /** A parent's group has its first rival by the time the child's group comes into being. */
  lemma {:induction false} ParentStopsFirst(heights: seq<nat>, c: Chain, parent: EdgeId, child: EdgeId)
    requires ValidHeights(heights) && Inv(heights, c) && Link(c, parent, child)
    ensures Known(c, parent.mutual) && Known(c, child.mutual)
    ensures RivaledBy(c, parent.mutual, Since(c, child.mutual))
  {
    assert RivalryOk(c, parent.mutual, c.rivalries[parent.mutual]);
    assert RivalryOk(c, child.mutual, c.rivalries[child.mutual]);
    LinkIsParentGroup(heights, c, parent, child);
    var first := c.rivalries[child.mutual].first;
    assert ParentOk(heights, c, first.mutual, c.edges[first].createdAt);
    var pm :| pm in c.rivalries && ParentGroup(heights, pm, child.mutual) && RivaledBy(c, pm, c.edges[first].createdAt);
    assert RivalryOk(c, pm, c.rivalries[pm]);
    ParentGroupUnique(heights, child.mutual, parent, c.rivalries[pm].first);
  }

  /** The ancestor had its earliest rival by the time the edge was created. */
  ghost predicate StoppedBefore(c: Chain, ancestor: EdgeId, id: EdgeId)
    requires id in c.edges
  {
    var e := EarliestRival(GroupOf(c, ancestor.mutual), ancestor);
    e.Some? && e.value <= c.edges[id].createdAt
  }

  /** Every ancestor's clock has stopped before the edge was created: the unrivaled stretches along a
      path do not overlap. */
  lemma {:induction false} AncestorsHaveStopped(heights: seq<nat>, c: Chain, path: seq<EdgeId>, i: nat, j: nat)
    requires ValidHeights(heights) && Inv(heights, c) && IsPath(c, path) && i < j < |path|
    ensures Known(c, path[i].mutual)
    ensures var e := EarliestRival(GroupOf(c, path[j].mutual), path[j]);
            e.Some? && e.value <= Since(c, path[i].mutual)
    ensures StoppedBefore(c, path[j], path[i])
    decreases j - i
  {
    hide Inv, GroupOf, EarliestRival, RivalryOk;
    StoppedByParent(heights, c, path[i + 1], path[i]);
    if j > i + 1 {
      AncestorsHaveStopped(heights, c, path, i + 1, j);
    }
  }

  lemma {:induction false} StoppedByParent(heights: seq<nat>, c: Chain, parent: EdgeId, child: EdgeId)
    requires ValidHeights(heights) && Inv(heights, c) && Link(c, parent, child)
    ensures Known(c, parent.mutual) && Known(c, child.mutual)
    ensures Since(c, parent.mutual) <= Since(c, child.mutual) <= c.edges[child].createdAt
    ensures var e := EarliestRival(GroupOf(c, parent.mutual), parent);
            e.Some? && e.value <= Since(c, child.mutual)
  {
    hide Inv, GroupOf, EarliestRival;
    ParentStopsFirst(heights, c, parent, child);
    FirstTwo(c, parent);
    FirstIsEarliest(c, child);
  }

  lemma {:induction false} FirstIsEarliest(c: Chain, id: EdgeId)
    requires id in c.edges && Known(c, id.mutual)
    ensures Since(c, id.mutual) <= c.edges[id].createdAt
  {
  }

  /** One group contributes at most the time from its start to its first rival. */
  lemma {:induction false} TimerWithinGroup(c: Chain, id: EdgeId, t: nat, stop: nat)
    requires id in c.edges && Known(c, id.mutual)
    requires RivaledBy(c, id.mutual, stop) || t <= stop
    ensures TimerOf(c, id, t) <= if stop <= Since(c, id.mutual) then 0 else stop - Since(c, id.mutual)
    ensures TimerOf(c, id, t) <= Elapsed(c, id.mutual, t)
  {
    FirstTwo(c, id);
  }

  /** A sum that fits below a parent still fits with the parent's own timer added. */
  lemma {:induction false} ParentAddsUp(heights: seq<nat>, c: Chain, parent: EdgeId, child: EdgeId, below: nat, t: nat)
    requires ValidHeights(heights) && Inv(heights, c) && Link(c, parent, child)
    ensures Known(c, parent.mutual) && Known(c, child.mutual)
    ensures below <= Elapsed(c, child.mutual, t) ==> below + TimerOf(c, parent, t) <= Elapsed(c, parent.mutual, t)
  {
    ParentStopsFirst(heights, c, parent, child);
    TimerWithinGroup(c, parent, t, Since(c, child.mutual));
  }

  /** The timers along a path add up to at most the time since the topmost group came into being. */
  lemma {:induction false} PathTimerInState(heights: seq<nat>, c: Chain, path: seq<EdgeId>, t: nat)
    requires ValidHeights(heights) && Inv(heights, c) && IsPath(c, path)
    ensures var top := path[|path| - 1].mutual; Known(c, top) && SumTimers(c, path, t) <= Elapsed(c, top, t)
  {
    var n := |path| - 1;
    var top := path[n];
    if n == 0 {
      assert RivalryOk(c, top.mutual, c.rivalries[top.mutual]);
      TimerWithinGroup(c, top, t, t);
      assert SumTimers(c, path[..0], t) == 0;
    } else {
      PathTimerInState(heights, c, path[..n], t);
      ParentAddsUp(heights, c, top, path[n - 1], SumTimers(c, path[..n], t), t);
    }
  }

  /** No double counting: over every run, for every path and block t, the path's timers stay within
      the blocks since the top group's first edge, and their stretches are disjoint. */
  lemma {:induction false} NoDoubleCounting(heights: seq<nat>, steps: seq<Step>, path: seq<EdgeId>, t: nat)
    requires ValidHeights(heights) && IsPath(Exec(heights, steps), path)
    ensures var c, top := Exec(heights, steps), path[|path| - 1].mutual;
            Known(c, top) && SumTimers(c, path, t) <= Elapsed(c, top, t)
    ensures forall i, j :: 0 <= i < j < |path| ==> StoppedBefore(Exec(heights, steps), path[j], path[i])
  {
    var c := Exec(heights, steps);
    ExecInv(heights, steps);
    PathTimerInState(heights, c, path, t);
    forall i, j | 0 <= i < j < |path|
      ensures StoppedBefore(c, path[j], path[i])
    {
      AncestorsHaveStopped(heights, c, path, i, j);
    }
  }
}
