/** Path timers: what they add up to, when they may confirm an ancestor, and how far they can run. */
module PathTimers {
  import opened Bits
  import opened Outcomes
  import opened Protocol
  import opened Timers
  import opened TreeIndex
  import opened Ancestors

  function Sum(s: seq<nat>): nat {
    if s == [] then 0 else s[0] + Sum(s[1..])
  }

  /** The tree's local timer of a tracked edge. */
  ghost function TreeTimer(t: Tree, id: EdgeId, block: nat): nat
    requires id in t.edges
  {
    LocalTimer(Mutuals(t, id.mutual), id, t.edges[id].createdAt, block)
  }

  ghost predicate AllTracked(t: Tree, ids: seq<EdgeId>) {
    forall i :: 0 <= i < |ids| ==> ids[i] in t.edges
  }

  ghost function TimersAlong(t: Tree, ids: seq<EdgeId>, block: nat): (r: seq<nat>)
    requires AllTracked(t, ids)
    ensures |r| == |ids| && forall i :: 0 <= i < |ids| ==> r[i] == TreeTimer(t, ids[i], block)
  {
    seq(|ids|, i requires 0 <= i < |ids| => TreeTimer(t, ids[i], block))
  }

  /** The scan with early exit, on 64-bit words: child first, assertion time included. */
  function ReachesPeriod(total: nat, timers: seq<nat>, period: nat): bool
    decreases |timers|
  {
    timers != [] &&
    (var next := (total + timers[0]) % UINT64; next >= period || ReachesPeriod(next, timers[1..], period))
  }

  lemma {:induction false} ReachesIffTotal(total: nat, timers: seq<nat>, period: nat)
    requires total + Sum(timers) < UINT64
    ensures ReachesPeriod(total, timers, period) <==> timers != [] && total + Sum(timers) >= period
    decreases |timers|
  {
    if timers != [] {
      ReachesIffTotal(total + timers[0], timers[1..], period);
    }
  }

  lemma {:induction false} SuffixSum(timers: seq<nat>, i: nat)
    requires i <= |timers|
    ensures Sum(timers[i..]) <= Sum(timers)
  {
    if i > 0 {
      SuffixSum(timers[1..], i - 1);
      assert timers[1..][i - 1..] == timers[i..];
    } else {
      assert timers[0..] == timers;
    }
  }

  ghost predicate SuffixReaches(assertion: nat, timers: seq<nat>, i: int, period: nat) {
    0 <= i < |timers| && assertion + Sum(timers[i..]) >= period
  }

  /** The scan answers whether some suffix of the list, with the assertion's time, reaches the period. */
  lemma {:induction false} ReachesIffSomeSuffix(assertion: nat, timers: seq<nat>, period: nat)
    requires assertion + Sum(timers) < UINT64
    ensures ReachesPeriod(assertion, timers, period) <==> exists i :: SuffixReaches(assertion, timers, i, period)
  {
    ReachesIffTotal(assertion, timers, period);
    assert timers[0..] == timers;
    forall i | 0 <= i < |timers|
      ensures Sum(timers[i..]) <= Sum(timers)
    {
      SuffixSum(timers, i);
    }
    if timers != [] && assertion + Sum(timers) >= period {
      assert SuffixReaches(assertion, timers, 0, period);
    }
  }

  /** An edge's path timer: its own timer, the assertion's unrivaled blocks and its ancestors' timers. */
  ghost function PathTimer(t: Tree, id: EdgeId, ancestors: seq<EdgeId>, assertion: nat, block: nat): nat
    requires id in t.edges && AllTracked(t, ancestors)
  {
    TreeTimer(t, id, block) + assertion + Sum(TimersAlong(t, ancestors, block))
  }

  lemma {:induction false} PathTimerIsSuffix(t: Tree, path: seq<EdgeId>, i: nat, assertion: nat, block: nat)
    requires AllTracked(t, path) && i < |path|
    ensures AllTracked(t, path[i + 1..])
    ensures PathTimer(t, path[i], path[i + 1..], assertion, block) == assertion + Sum(TimersAlong(t, path, block)[i..])
  {
    var suffix := TimersAlong(t, path, block)[i..];
    assert suffix[1..] == TimersAlong(t, path[i + 1..], block);
  }

  /** Some ancestor of path[0] has, by its own ancestor list, a path timer of at least the period. */
  ghost predicate SomeAncestorConfirmable(c: Chain, t: Tree, path: seq<EdgeId>, assertion: nat, block: nat, period: nat)
    requires Halving(c.children) && RootsAreWords(t) && AllTracked(t, path)
  {
    exists i :: 0 < i < |path| && AncestorConfirmable(c, t, path[i], assertion, block, period)
  }

  ghost predicate AncestorConfirmable(c: Chain, t: Tree, id: EdgeId, assertion: nat, block: nat, period: nat)
    requires Halving(c.children) && RootsAreWords(t) && id in t.edges
  {
    var above := AncestorsOf(c.children, t, id);
    above.Ok? && AllTracked(t, above.value) && PathTimer(t, id, above.value, assertion, block) >= period
  }

  /** On a registered path the scan over the ancestor timers succeeds exactly when some ancestor's own path
      timer reaches the period. */
  lemma {:induction false} ReachesIffOnRegisteredPath(
      heights: seq<nat>, c: Chain, t: Tree, path: seq<EdgeId>, assertion: nat, block: nat, period: nat)
    requires ValidHeights(heights) && Inv(heights, c) && t.totalLevels == |heights|
    requires RegisteredPath(c, t, path) && RootsAreWords(t)
    requires AllTracked(t, path[1..]) && assertion + Sum(TimersAlong(t, path[1..], block)) < UINT64
    ensures Halving(c.children)
    ensures ReachesPeriod(assertion, TimersAlong(t, path[1..], block), period)
       <==> SomeAncestorConfirmable(c, t, path, assertion, block, period)
  {
    hide Inv, AncestorConfirmable, ReachesPeriod, Sum, Link;
    InvHalving(heights, c);
    var timers := TimersAlong(t, path[1..], block);
    ReachesIffSomeSuffix(assertion, timers, period);
    forall i: int
      ensures SuffixReaches(assertion, timers, i, period)
         <==> 0 < i + 1 < |path| && AncestorConfirmable(c, t, path[i + 1], assertion, block, period)
    {
      if 0 <= i < |timers| {
        SuffixConfirmable(heights, c, t, path, i + 1, assertion, block, period);
      }
    }
    ShiftedWitness(c, t, path, assertion, timers, block, period);
  }

  lemma {:induction false} ShiftedWitness(
      c: Chain, t: Tree, path: seq<EdgeId>, assertion: nat, timers: seq<nat>, block: nat, period: nat)
    requires Halving(c.children) && RootsAreWords(t) && AllTracked(t, path)
    requires forall i :: SuffixReaches(assertion, timers, i, period)
                    <==> 0 < i + 1 < |path| && AncestorConfirmable(c, t, path[i + 1], assertion, block, period)
    ensures (exists i :: SuffixReaches(assertion, timers, i, period))
       <==> SomeAncestorConfirmable(c, t, path, assertion, block, period)
  {
    if k :| 0 < k < |path| && AncestorConfirmable(c, t, path[k], assertion, block, period) {
      var i := k - 1;
      assert SuffixReaches(assertion, timers, i, period);
    }
  }

  lemma {:induction false} SuffixConfirmable(
      heights: seq<nat>, c: Chain, t: Tree, path: seq<EdgeId>, i: nat, assertion: nat, block: nat, period: nat)
    requires ValidHeights(heights) && Inv(heights, c) && t.totalLevels == |heights| && Halving(c.children)
    requires RegisteredPath(c, t, path) && RootsAreWords(t) && 0 < i < |path| && AllTracked(t, path[1..])
    ensures AncestorConfirmable(c, t, path[i], assertion, block, period)
       <==> SuffixReaches(assertion, TimersAlong(t, path[1..], block), i - 1, period)
  {
    TailIsRegistered(c, t, path, i);
    SearchFollowsPath(heights, c, t, path[i..]);
    assert path[i..][1..] == path[1..][i..];
    PathTimerIsSuffix(t, path[1..], i - 1, assertion, block);
  }

  // ----- how far a path timer can run -----

  /** The tree knows all rivals the chain knows for the edges of the path. */
  ghost predicate Synced(c: Chain, t: Tree, path: seq<EdgeId>) {
    forall i :: 0 <= i < |path| ==> Mutuals(t, path[i].mutual) == GroupOf(c, path[i].mutual)
  }

  lemma {:induction false} SumSnoc(s: seq<nat>, x: nat)
    ensures Sum(s + [x]) == Sum(s) + x
  {
    if s != [] {
      assert (s + [x])[1..] == s[1..] + [x];
      SumSnoc(s[1..], x);
    }
  }

  lemma {:induction false} SyncedSum(c: Chain, t: Tree, path: seq<EdgeId>, block: nat)
    requires AllTracked(t, path) && Synced(c, t, path)
    requires forall i :: 0 <= i < |path| ==> path[i] in c.edges && t.edges[path[i]] == c.edges[path[i]]
    ensures Sum(TimersAlong(t, path, block)) == SumTimers(c, path, block)
  {
    if path != [] {
      var n := |path| - 1;
      SyncedSum(c, t, path[..n], block);
      assert TimersAlong(t, path, block) == TimersAlong(t, path[..n], block) + [TreeTimer(t, path[n], block)];
      SumSnoc(TimersAlong(t, path[..n], block), TreeTimer(t, path[n], block));
      assert path[n] in c.edges && Mutuals(t, path[n].mutual) == GroupOf(c, path[n].mutual);
    }
  }
}
