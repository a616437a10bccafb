/** The honest challenge tree's indexes as values: what adding edges does to them, and why they agree
    with a plain list of everything added. */
module TreeIndex {
  import opened Merkle
  import opened Outcomes
  import opened Protocol
  import opened Timers

  datatype TreeError =
    | AlreadyBeingTracked
    | MismatchedChallengeAssertion
    | BackendFailure
    | NoHonestBlockRoot
    | NoClaimId
    | StartHeightMissing
    | NotFound
    | NoHonestRootAtLevel
    | ClaimedEdgeNotFound
    | CannotBisect
    | NoLowerChildYet
    | NoUpperChild
    | ChildNotTracked

  datatype Agreement = Agreement(isHonestEdge: bool, agreesWithStart: bool)

  /** Answers of the chain and of the state provider. Claim heights follow from the origin and the
      start of an edge, so they are asked for by mutual id. */
  datatype Backend = Backend(
    topLevelAssertion: EdgeId -> Option<nat>,
    hasCreationInfo: nat -> bool,
    claimHeights: MutualId -> Option<seq<nat>>,
    agrees: (nat, seq<nat>, nat, seq<Hash>) -> Option<bool>)

  datatype Tree = Tree(
    topLevelAssertion: nat,
    totalLevels: nat,
    edges: map<EdgeId, Edge>,
    mutualIds: map<MutualId, Group>,
    rootsByLevel: map<int, seq<Edge>>)

  function ReversedLevel(t: Tree, m: MutualId): int {
    t.totalLevels - 1 - m.level
  }

  function Roots(t: Tree, level: int): seq<Edge> {
    if level in t.rootsByLevel then t.rootsByLevel[level] else []
  }

  /** A missing entry of the mutual id index stands for an empty one. */
  function Mutuals(t: Tree, m: MutualId): Group {
    if m in t.mutualIds then t.mutualIds[m] else map[]
  }

  function HonestBlockRoot(t: Tree): Result<Edge, TreeError> {
    var roots := Roots(t, t.totalLevels - 1);
    if |roots| != 1 then Err(NoHonestBlockRoot) else Ok(roots[0])
  }

  /** e is a tracked block level edge with a claim, and there is no other. */
  ghost predicate OnlyBlockRoot(t: Tree, e: Edge) {
    IsBlockRootIn(t, e) && forall f :: IsBlockRootIn(t, f) ==> f == e
  }

  ghost predicate IsBlockRootIn(t: Tree, e: Edge) {
    e.id in t.edges && t.edges[e.id] == e && e.claim.Some? && e.id.mutual.level == 0
  }

  lemma {:induction false} OnlyMember(s: seq<Edge>, e: Edge)
    requires e in s && (forall f :: f in s ==> f == e)
    requires forall i, j :: 0 <= i < j < |s| ==> s[i] != s[j]
    ensures s == [e]
  {
    var n := |s| - 1;
    assert s[0] in s && s[n] in s;
  }

  /** The honest block level root is found exactly if there is one and only one. */
  lemma {:induction false} BlockRootIff(t: Tree, e: Edge)
    requires RootsAgree(t)
    ensures HonestBlockRoot(t) == Ok(e) <==> OnlyBlockRoot(t, e)
  {
    var roots := Roots(t, t.totalLevels - 1);
    assert forall f :: f in roots <==> IsRootAt(t, f, t.totalLevels - 1);
    forall f
      ensures f in roots <==> IsBlockRootIn(t, f)
    {
    }
    if OnlyBlockRoot(t, e) {
      OnlyMember(roots, e);
    }
    if HonestBlockRoot(t) == Ok(e) {
      assert roots == [e];
    }
  }

  function Track(t: Tree, e: Edge): Tree {
    var level := ReversedLevel(t, e.id.mutual);
    var t1 := t.(edges := t.edges[e.id := e]);
    if e.claim.None? then t1 else t1.(rootsByLevel := t.rootsByLevel[level := Roots(t, level) + [e]])
  }

  function Record(t: Tree, e: Edge): Tree {
    t.(mutualIds := t.mutualIds[e.id.mutual := Mutuals(t, e.id.mutual)[e.id := e.createdAt]])
  }

  /** The assertion whose batches a history commitment of the edge is computed over. */
  function ClaimedAssertion(t: Tree, e: Edge): Result<nat, TreeError> {
    if e.id.mutual.level == 0 && e.claim.Some? then
      if e.claim.value.ClaimAssertion? then Ok(e.claim.value.assertion) else Err(NoClaimId)
    else
      var root := HonestBlockRoot(t);
      if root.Err? then Err(root.error)
      else if root.value.claim.Some? && root.value.claim.value.ClaimAssertion? then
        Ok(root.value.claim.value.assertion)
      else Err(NoClaimId)
  }

  /** Whether the state provider agrees with an edge's start commitment. */
  function StartAgreement(b: Backend, m: MutualId): Option<bool> {
    var heights := b.claimHeights(m);
    if heights.None? || (m.level > 0 && heights.value == []) then None
    else b.agrees(m.level, if m.level == 0 then [] else heights.value, m.startHeight, m.startHistory)
  }

  function EndAgreement(b: Backend, id: EdgeId): Option<bool> {
    var m := id.mutual;
    var heights := b.claimHeights(m);
    if heights.None? || (m.level > 0 && heights.value == []) then None
    else b.agrees(m.level, if m.level == 0 then [] else heights.value, m.endHeight, id.endHistory)
  }

  /** The checks of AddEdge in order, up to the two agreements. */
  function Judge(b: Backend, t: Tree, e: Edge): Result<Agreement, TreeError> {
    if e.id in t.edges then Err(AlreadyBeingTracked)
    else if b.topLevelAssertion(e.id).None? then Err(BackendFailure)
    else if b.topLevelAssertion(e.id).value != t.topLevelAssertion then Err(MismatchedChallengeAssertion)
    else
      var claimed := ClaimedAssertion(t, e);
      if claimed.Err? then Err(claimed.error)
      else if !b.hasCreationInfo(claimed.value) then Err(BackendFailure)
      else
        var heights := b.claimHeights(e.id.mutual);
        if heights.None? then Err(BackendFailure)
        else if e.id.mutual.level > 0 && heights.value == [] then Err(StartHeightMissing)
        else
          var honest, start := EndAgreement(b, e.id), StartAgreement(b, e.id.mutual);
          if honest.None? || start.None? then Err(BackendFailure)
          else Ok(Agreement(honest.value, start.value))
  }

  function AddEdge(b: Backend, t: Tree, e: Edge): (Tree, Result<Agreement, TreeError>) {
    var verdict := Judge(b, t, e);
    if verdict.Err? then (t, verdict)
    else
      var t1 := if verdict.value.isHonestEdge then Track(t, e) else t;
      var t2 := if verdict.value.agreesWithStart || verdict.value.isHonestEdge then Record(t1, e) else t1;
      (t2, verdict)
  }

  function AddHonestEdge(t: Tree, e: Edge): Tree {
    if e.id in t.edges then t else Record(Track(t, e), e)
  }

  /** Reading the rivals of an unknown mutual id leaves an empty entry behind. */
  function ReadMutuals(t: Tree, m: MutualId): (r: Tree)
    ensures m in r.mutualIds && r.mutualIds.Keys == t.mutualIds.Keys + {m}
    ensures forall n :: Mutuals(r, n) == Mutuals(t, n)
    ensures r.(mutualIds := t.mutualIds) == t
  {
    if m in t.mutualIds then t else t.(mutualIds := t.mutualIds[m := map[]])
  }

  // ----- runs of calls -----

  /** Read is any call that looks up the rivals of an edge with the mutual id. */
  datatype Call = Add(edge: Edge) | AddHonest(edge: Edge) | Read(mutual: MutualId)

  /** A tree together with a plain list of the edges it was successfully given. */
  datatype Logged = Logged(tree: Tree, added: map<EdgeId, Edge>)

  function ApplyCall(b: Backend, l: Logged, call: Call): Logged {
    match call
    case Add(e) =>
      var (t, verdict) := AddEdge(b, l.tree, e);
      Logged(t, if verdict.Ok? then l.added[e.id := e] else l.added)
    case AddHonest(e) =>
      Logged(AddHonestEdge(l.tree, e), if e.id in l.tree.edges then l.added else l.added[e.id := e])
    case Read(m) => l.(tree := ReadMutuals(l.tree, m))
  }

  function EmptyTree(assertion: nat, totalLevels: nat): Tree {
    Tree(assertion, totalLevels, map[], map[], map[])
  }

  function RunCalls(b: Backend, assertion: nat, totalLevels: nat, calls: seq<Call>): Logged {
    if calls == [] then Logged(EmptyTree(assertion, totalLevels), map[])
    else ApplyCall(b, RunCalls(b, assertion, totalLevels, calls[..|calls| - 1]), calls[|calls| - 1])
  }

  /** All calls speak of edges of one chain. */
  ghost predicate FromChain(world: map<EdgeId, Edge>, calls: seq<Call>) {
    forall i :: 0 <= i < |calls| ==> CallFrom(world, calls[i])
  }

  ghost predicate CallFrom(world: map<EdgeId, Edge>, call: Call) {
    call.Read? || InWorld(world, call.edge)
  }

  ghost predicate InWorld(world: map<EdgeId, Edge>, e: Edge) {
    e.id in world && world[e.id] == e
  }

  ghost predicate StartAgreed(b: Backend, m: MutualId) {
    StartAgreement(b, m) == Some(true)
  }

  /** Tracked edges were added, and nothing else differs from the chain. */
  ghost predicate EdgesAgree(world: map<EdgeId, Edge>, l: Logged) {
    && (forall id :: id in l.added ==> InWorld(world, l.added[id]) && l.added[id].id == id)
    && (forall id :: id in l.tree.edges ==> id in l.added && l.tree.edges[id] == l.added[id])
  }

  /** The mutual id index holds, per mutual id, every added edge if the start is agreed with and the
      tracked ones otherwise, each with its creation block. */
  ghost predicate MutualsAgree(b: Backend, l: Logged) {
    forall m, id {:trigger MutualOk(b, l, m, id)} {:trigger id in Mutuals(l.tree, m)} :: MutualOk(b, l, m, id)
  }

  ghost predicate IsRootAt(t: Tree, e: Edge, level: int) {
    e.id in t.edges && t.edges[e.id] == e && e.claim.Some? && ReversedLevel(t, e.id.mutual) == level
  }

  /** Each level's root list holds every tracked claiming edge of the level exactly once. */
  ghost predicate RootsAgree(t: Tree) {
    forall level: int {:trigger Roots(t, level)} ::
      && (forall e :: e in Roots(t, level) <==> IsRootAt(t, e, level))
      && (forall i, j :: 0 <= i < j < |Roots(t, level)| ==> Roots(t, level)[i] != Roots(t, level)[j])
  }

  /** Added edges that are not tracked were found dishonest, after their start had been judged too. */
  ghost predicate UntrackedAreDishonest(b: Backend, l: Logged) {
    forall id :: id in l.added && id !in l.tree.edges ==>
      EndAgreement(b, id) == Some(false) && StartAgreement(b, id.mutual).Some?
  }

  ghost predicate IndexAgrees(world: map<EdgeId, Edge>, b: Backend, l: Logged) {
    EdgesAgree(world, l) && MutualsAgree(b, l) && RootsAgree(l.tree) && UntrackedAreDishonest(b, l)
  }

  lemma {:induction false} TrackKeepsRoots(t: Tree, e: Edge)
    requires RootsAgree(t) && e.id !in t.edges
    ensures RootsAgree(Track(t, e))
  {
    var t' := Track(t, e);
    forall level: int
      ensures forall x :: x in Roots(t', level) <==> IsRootAt(t', x, level)
      ensures forall i, j :: 0 <= i < j < |Roots(t', level)| ==> Roots(t', level)[i] != Roots(t', level)[j]
    {
      assert e !in Roots(t, level) by { assert !IsRootAt(t, e, level); }
      forall x
        ensures x in Roots(t', level) <==> IsRootAt(t', x, level)
      {
        assert x in Roots(t, level) <==> IsRootAt(t, x, level);
      }
    }
  }

  /** What the mutual id index must say about one edge. */
  ghost predicate MutualOk(b: Backend, l: Logged, m: MutualId, id: EdgeId) {
    && (id in Mutuals(l.tree, m) <==>
          id in l.added && id.mutual == m && (id in l.tree.edges || StartAgreed(b, m)))
    && (id in Mutuals(l.tree, m) ==> Mutuals(l.tree, m)[id] == l.added[id].createdAt)
  }

  lemma {:induction false} RecordKeepsMutuals(b: Backend, l: Logged, e: Edge, tracked: bool)
    requires MutualsAgree(b, l) && e.id !in l.tree.edges
    requires e.id in l.added ==> l.added[e.id] == e
    requires tracked || StartAgreed(b, e.id.mutual)
    ensures var t1 := if tracked then Track(l.tree, e) else l.tree;
            MutualsAgree(b, Logged(Record(t1, e), l.added[e.id := e]))
  {
    var t1 := if tracked then Track(l.tree, e) else l.tree;
    var l' := Logged(Record(t1, e), l.added[e.id := e]);
    forall m, id
      ensures MutualOk(b, l', m, id)
    {
      assert MutualOk(b, l, m, id);
      RecordedMutuals(t1, e, m);
    }
  }

  lemma {:induction false} RecordedMutuals(t: Tree, e: Edge, m: MutualId)
    ensures Mutuals(Record(t, e), m) == if m == e.id.mutual then Mutuals(t, m)[e.id := e.createdAt] else Mutuals(t, m)
  {
  }

  lemma {:induction false} RefusedKeepsMutuals(b: Backend, l: Logged, e: Edge)
    requires MutualsAgree(b, l) && e.id !in l.tree.edges && !StartAgreed(b, e.id.mutual)
    ensures MutualsAgree(b, Logged(l.tree, l.added[e.id := e]))
  {
    var l' := Logged(l.tree, l.added[e.id := e]);
    forall m, id
      ensures MutualOk(b, l', m, id)
    {
      assert MutualOk(b, l, m, id);
    }
  }

  lemma {:induction false} CallKeepsIndex(world: map<EdgeId, Edge>, b: Backend, l: Logged, call: Call)
    requires IndexAgrees(world, b, l) && CallFrom(world, call)
    ensures IndexAgrees(world, b, ApplyCall(b, l, call))
  {
    if call.Read? {
      ReadKeepsIndex(world, b, l, call.mutual);
      return;
    }
    var e := call.edge;
    if e.id !in l.tree.edges {
      TrackKeepsRoots(l.tree, e);
      match call
      case AddHonest(_) =>
        RecordKeepsMutuals(b, l, e, true);
        SameRoots(Track(l.tree, e), Record(Track(l.tree, e), e));
      case Add(_) =>
        var verdict := Judge(b, l.tree, e);
        if verdict.Ok? {
          var t1 := if verdict.value.isHonestEdge then Track(l.tree, e) else l.tree;
          if verdict.value.agreesWithStart || verdict.value.isHonestEdge {
            RecordKeepsMutuals(b, l, e, verdict.value.isHonestEdge);
            SameRoots(t1, Record(t1, e));
          } else {
            RefusedKeepsMutuals(b, l, e);
          }
        }
    }
  }

  /** The empty entry a read leaves behind is not told apart from a missing one. */
  lemma {:induction false} ReadKeepsIndex(world: map<EdgeId, Edge>, b: Backend, l: Logged, m: MutualId)
    requires IndexAgrees(world, b, l)
    ensures IndexAgrees(world, b, l.(tree := ReadMutuals(l.tree, m)))
  {
    var l' := l.(tree := ReadMutuals(l.tree, m));
    forall n, id
      ensures MutualOk(b, l', n, id)
    {
      assert MutualOk(b, l, n, id);
      assert Mutuals(l'.tree, n) == Mutuals(l.tree, n);
    }
    SameRoots(l.tree, l'.tree);
  }

  lemma {:induction false} SameRoots(t: Tree, t': Tree)
    requires RootsAgree(t)
    requires t'.edges == t.edges && t'.rootsByLevel == t.rootsByLevel && t'.totalLevels == t.totalLevels
    ensures RootsAgree(t')
  {
    forall level: int
      ensures forall x :: x in Roots(t', level) <==> IsRootAt(t', x, level)
      ensures forall i, j :: 0 <= i < j < |Roots(t', level)| ==> Roots(t', level)[i] != Roots(t', level)[j]
    {
      assert Roots(t', level) == Roots(t, level);
      forall x
        ensures x in Roots(t', level) <==> IsRootAt(t', x, level)
      {
        assert IsRootAt(t', x, level) <==> IsRootAt(t, x, level);
      }
    }
  }

  /** After every run of calls the three indexes agree with the plain list. */
  lemma {:induction false} RunKeepsIndex(
      world: map<EdgeId, Edge>, b: Backend, assertion: nat, totalLevels: nat, calls: seq<Call>)
    requires FromChain(world, calls)
    ensures IndexAgrees(world, b, RunCalls(b, assertion, totalLevels, calls))
  {
    if calls != [] {
      var n := |calls| - 1;
      RunKeepsIndex(world, b, assertion, totalLevels, calls[..n]);
      assert CallFrom(world, calls[n]);
      CallKeepsIndex(world, b, RunCalls(b, assertion, totalLevels, calls[..n]), calls[n]);
    }
  }

  /** Adding an edge again changes nothing. */
  lemma {:induction false} RepeatedAddChangesNothing(world: map<EdgeId, Edge>, b: Backend, l: Logged, e: Edge)
    requires IndexAgrees(world, b, l) && InWorld(world, e) && e.id in l.added
    ensures ApplyCall(b, l, Add(e)) == l
  {
    assert l.added[e.id] == e;
    assert l.added[e.id := e] == l.added;
    if e.id !in l.tree.edges && StartAgreed(b, e.id.mutual) {
      RecordedAgain(b, l, e);
    }
  }

  lemma {:induction false} RecordedAgain(b: Backend, l: Logged, e: Edge)
    requires MutualsAgree(b, l) && e.id in l.added && l.added[e.id] == e && StartAgreed(b, e.id.mutual)
    ensures Record(l.tree, e) == l.tree
  {
    var m := e.id.mutual;
    assert MutualOk(b, l, m, e.id);
    assert l.tree.mutualIds[m][e.id := e.createdAt] == l.tree.mutualIds[m];
    assert l.tree.mutualIds[m := l.tree.mutualIds[m]] == l.tree.mutualIds;
  }

  /** The edges ever added with a mutual id, found by scanning the plain list. */
  ghost function Scan(l: Logged, m: MutualId): Group {
    map id | id in l.added && id.mutual == m :: l.added[id].createdAt
  }

  /** The index holds every added edge of a group exactly when the group's start is agreed with or all
      its edges are tracked. */
  lemma {:induction false} GroupIsScanIff(world: map<EdgeId, Edge>, b: Backend, l: Logged, m: MutualId)
    requires IndexAgrees(world, b, l)
    ensures Mutuals(l.tree, m) == Scan(l, m)
       <==> StartAgreed(b, m) || forall id :: id in l.added && id.mutual == m ==> id in l.tree.edges
  {
    var found, scan := Mutuals(l.tree, m), Scan(l, m);
    if StartAgreed(b, m) || forall id :: id in l.added && id.mutual == m ==> id in l.tree.edges {
      forall id
        ensures id in found <==> id in scan
        ensures id in found ==> found[id] == scan[id]
      {
        assert MutualOk(b, l, m, id);
      }
      assert found == scan;
    } else {
      var id :| id in l.added && id.mutual == m && id !in l.tree.edges;
      assert MutualOk(b, l, m, id);
      assert id !in Mutuals(l.tree, m) && id in scan;
    }
  }
}
