/** The ancestor search across challenge levels: what it returns, and that nothing else is a path. */
module Ancestors {
  import opened Bits
  import opened Bisection
  import opened Outcomes
  import opened Protocol
  import opened Timers
  import opened TreeIndex

  /** Every recorded pair of children halves its parent. */
  ghost predicate Halving(children: Children) {
    forall p :: p in children ==>
      Divisible(p.mutual.Span()) && children[p] == (LowerChildId(p), UpperChildId(p))
  }

  predicate WordHeights(id: EdgeId) {
    id.mutual.startHeight < UINT64 && id.mutual.endHeight < UINT64
  }

  function Length(id: EdgeId): nat {
    if id.mutual.startHeight <= id.mutual.endHeight then id.mutual.endHeight - id.mutual.startHeight else 0
  }

  function Reverse<T>(s: seq<T>): (r: seq<T>)
    ensures |r| == |s|
  {
    if s == [] then [] else [s[|s| - 1]] + Reverse(s[..|s| - 1])
  }

  lemma {:induction false} ReverseAt<T>(s: seq<T>, i: nat)
    requires i < |s|
    ensures Reverse(s)[i] == s[|s| - 1 - i]
  {
    if i > 0 {
      ReverseAt(s[..|s| - 1], i - 1);
    }
  }

  lemma {:induction false} ReverseTwice<T>(s: seq<T>)
    ensures Reverse(Reverse(s)) == s
  {
    forall i | 0 <= i < |s|
      ensures Reverse(Reverse(s))[i] == s[i]
    {
      ReverseAt(Reverse(s), i);
      ReverseAt(s, |s| - 1 - i);
    }
  }

  // ----- the search -----

  /** The first root in a level's list with the given origin. */
  function FindOrigin(roots: seq<Edge>, origin: OriginId): Option<Edge> {
    if roots == [] then None
    else if roots[0].id.mutual.origin == origin then Some(roots[0])
    else FindOrigin(roots[1..], origin)
  }

  function ChildTowards(children: Children, cursor: EdgeId, wantedStart: nat): Result<EdgeId, TreeError>
    requires WordHeights(cursor)
  {
    var bisectTo := Bisect(cursor.mutual.startHeight, cursor.mutual.endHeight);
    if !bisectTo.Point? then Err(CannotBisect)
    else if wantedStart < bisectTo.height then
      if cursor in children then Ok(children[cursor].0) else Err(NoLowerChildYet)
    else if cursor in children then Ok(children[cursor].1) else Err(NoUpperChild)
  }

  /** From a root down to an edge of its level: the edges passed, root first. */
  function Descend(children: Children, edges: map<EdgeId, Edge>, cursor: EdgeId, target: EdgeId):
      Result<seq<EdgeId>, TreeError>
    requires Halving(children) && WordHeights(cursor)
    decreases Length(cursor)
  {
    if cursor == target then Ok([])
    else
      var next := ChildTowards(children, cursor, target.mutual.startHeight);
      if next.Err? then Err(next.error)
      else if next.value !in edges then Err(ChildNotTracked)
      else
        var rest := Descend(children, edges, next.value, target);
        if rest.Err? then rest else Ok([cursor] + rest.value)
  }

  /** The cursor is at current on the given reversed level; the ancestors above it, child first. */
  function AncestorsFrom(children: Children, t: Tree, current: EdgeId, level: int): Result<seq<EdgeId>, TreeError>
    requires Halving(children) && RootsAreWords(t)
    decreases t.totalLevels - level
  {
    if level >= t.totalLevels then Ok([])
    else
      var root := FindOrigin(Roots(t, level), current.mutual.origin);
      if root.None? then Err(NoHonestRootAtLevel)
      else
        FindOriginMember(Roots(t, level), current.mutual.origin);
        var within := Descend(children, t.edges, root.value.id, current);
        if within.Err? then within
        else if level + 1 == t.totalLevels then Ok(Reverse(within.value))
        else
          var claim := root.value.claim;
          if claim.None? then Err(NoClaimId)
          else if claim.value.ClaimAssertion? || claim.value.edge !in t.edges then Err(ClaimedEdgeNotFound)
          else
            var rest := AncestorsFrom(children, t, claim.value.edge, level + 1);
            if rest.Err? then rest else Ok(Reverse(within.value) + [claim.value.edge] + rest.value)
  }

  function AncestorsOf(children: Children, t: Tree, id: EdgeId): Result<seq<EdgeId>, TreeError>
    requires Halving(children) && RootsAreWords(t)
  {
    if id !in t.edges then Err(NotFound) else AncestorsFrom(children, t, id, ReversedLevel(t, id.mutual))
  }

  ghost predicate RootsAreWords(t: Tree) {
    forall level: int, e {:trigger e in Roots(t, level)} :: e in Roots(t, level) ==> WordHeights(e.id)
  }

  lemma {:induction false} FindOriginMember(roots: seq<Edge>, origin: OriginId)
    ensures FindOrigin(roots, origin).Some? ==>
              FindOrigin(roots, origin).value in roots && FindOrigin(roots, origin).value.id.mutual.origin == origin
    ensures FindOrigin(roots, origin).None? ==> forall e :: e in roots ==> e.id.mutual.origin != origin
  {
    if roots != [] && roots[0].id.mutual.origin != origin {
      FindOriginMember(roots[1..], origin);
    }
  }

  // ----- exactness -----

  /** Tracked edges of one level, each the parent of the one before it. */
  ghost predicate Segment(children: Children, edges: map<EdgeId, Edge>, seg: seq<EdgeId>) {
    && |seg| > 0
    && (forall i :: 0 <= i < |seg| ==> seg[i] in edges && WordHeights(seg[i]))
    && seg[0].mutual.startHeight < seg[0].mutual.endHeight
    && (forall i :: 0 < i < |seg| ==> IsParent(children, seg[i], seg[i - 1]))
  }

  lemma {:induction false} SegmentNested(children: Children, edges: map<EdgeId, Edge>, seg: seq<EdgeId>)
    requires Halving(children) && Segment(children, edges, seg)
    ensures var top := seg[|seg| - 1];
            && Within(seg[0].mutual.Span(), top.mutual.Span())
            && (|seg| > 1 ==> seg[0] != top)
            && top.mutual.origin == seg[0].mutual.origin && top.mutual.level == seg[0].mutual.level
  {
    if |seg| > 1 {
      SegmentNested(children, edges, seg[..|seg| - 1]);
      assert IsParent(children, seg[|seg| - 1], seg[|seg| - 2]);
    }
  }

  /** From the top of a segment the child towards its bottom is the next edge of the segment. */
  lemma {:induction false} TowardsBottom(children: Children, edges: map<EdgeId, Edge>, seg: seq<EdgeId>)
    requires Halving(children) && Segment(children, edges, seg) && |seg| > 1
    ensures var n := |seg| - 1;
            ChildTowards(children, seg[n], seg[0].mutual.startHeight) == Ok(seg[n - 1]) && seg[n] != seg[0]
  {
    hide Mid;
    var n := |seg| - 1;
    SegmentNested(children, edges, seg);
    SegmentNested(children, edges, seg[..n]);
    assert IsParent(children, seg[n], seg[n - 1]);
    BisectIsMid(seg[n].mutual.startHeight, seg[n].mutual.endHeight);
  }

  /** Descending from the top of a segment to its bottom passes exactly the edges in between. */
  lemma {:induction false} DescendExact(children: Children, edges: map<EdgeId, Edge>, seg: seq<EdgeId>)
    requires Halving(children) && Segment(children, edges, seg)
    ensures Descend(children, edges, seg[|seg| - 1], seg[0]) == Ok(Reverse(seg[1..]))
  {
    hide ChildTowards, Halving, IsParent;
    var n := |seg| - 1;
    if n > 0 {
      TowardsBottom(children, edges, seg);
      DescendExact(children, edges, seg[..n]);
      assert seg[1..][..|seg[1..]| - 1] == seg[..n][1..];
    }
  }

  /** A complete ancestor path of tracked edges, from an edge up to a block level root. */
  ghost predicate TrackedPath(c: Chain, t: Tree, path: seq<EdgeId>) {
    && IsPath(c, path)
    && (forall i :: 0 <= i < |path| ==> path[i] in t.edges)
    && path[|path| - 1].mutual.level == 0 && c.edges[path[|path| - 1]].claim.Some?
  }

  /** A tracked path of edges as the chain has them, whose level zero edges are found by their origins. */
  ghost predicate RegisteredPath(c: Chain, t: Tree, path: seq<EdgeId>) {
    && TrackedPath(c, t, path)
    && (forall i :: 0 <= i < |path| ==> t.edges[path[i]] == c.edges[path[i]])
    && (forall i :: 0 <= i < |path| && c.edges[path[i]].claim.Some? ==> Registered(t, c.edges[path[i]]))
  }

  ghost predicate Registered(t: Tree, e: Edge) {
    FindOrigin(Roots(t, ReversedLevel(t, e.id.mutual)), e.id.mutual.origin) == Some(e)
  }

  /** A tracked level zero edge that is the only one of its level and origin is found. */
  lemma {:induction false} OnlyRootIsRegistered(t: Tree, e: Edge)
    requires RootsAgree(t) && e.id in t.edges && t.edges[e.id] == e && e.claim.Some?
    requires forall f ::
               IsRootAt(t, f, ReversedLevel(t, e.id.mutual)) && f.id.mutual.origin == e.id.mutual.origin ==> f == e
    ensures Registered(t, e)
  {
    var level := ReversedLevel(t, e.id.mutual);
    assert IsRootAt(t, e, level);
    assert e in Roots(t, level);
    FindOriginMember(Roots(t, level), e.id.mutual.origin);
  }

  /** Index of the first level zero edge on a path. */
  ghost function FirstRoot(c: Chain, path: seq<EdgeId>): (j: nat)
    requires |path| > 0 && forall i :: 0 <= i < |path| ==> path[i] in c.edges
    requires c.edges[path[|path| - 1]].claim.Some?
    ensures j < |path| && c.edges[path[j]].claim.Some?
    ensures forall i :: 0 <= i < j ==> c.edges[path[i]].claim.None?
  {
    if c.edges[path[0]].claim.Some? then 0 else 1 + FirstRoot(c, path[1..])
  }

  lemma {:induction false} InvHalving(heights: seq<nat>, c: Chain)
    requires Inv(heights, c)
    ensures Halving(c.children)
  {
    forall p | p in c.children
      ensures Divisible(p.mutual.Span()) && c.children[p] == (LowerChildId(p), UpperChildId(p))
    {
      assert ChildOk(c, p, c.children[p]);
    }
  }

  lemma {:induction false} WordsInChain(heights: seq<nat>, c: Chain, id: EdgeId)
    requires ValidHeights(heights) && Inv(heights, c) && id in c.edges
    ensures WordHeights(id) && id.mutual.startHeight < id.mutual.endHeight
  {
    InTreeWithin(Interval(0, heights[id.mutual.level]), id.mutual.Span());
  }

  /** Up to its first level zero edge a path is a segment. */
  lemma {:induction false} PathStartsWithSegment(heights: seq<nat>, c: Chain, t: Tree, path: seq<EdgeId>, j: nat)
    requires ValidHeights(heights) && Inv(heights, c) && RegisteredPath(c, t, path)
    requires j == FirstRoot(c, path)
    ensures Segment(c.children, t.edges, path[..j + 1])
  {
    var seg := path[..j + 1];
    forall i | 0 <= i < |seg|
      ensures seg[i] in t.edges && WordHeights(seg[i]) && seg[i].mutual.startHeight < seg[i].mutual.endHeight
    {
      WordsInChain(heights, c, path[i]);
    }
    forall i | 0 < i < |seg|
      ensures IsParent(c.children, seg[i], seg[i - 1])
    {
      assert Link(c, path[i], path[i - 1]);
    }
  }

  /** What a path does at a level zero edge: it ends on the block level and follows the claim elsewhere. */
  lemma {:induction false} PathAtRoot(heights: seq<nat>, c: Chain, t: Tree, path: seq<EdgeId>, j: nat)
    requires ValidHeights(heights) && Inv(heights, c) && RegisteredPath(c, t, path)
    requires j < |path| && c.edges[path[j]].claim.Some?
    ensures path[j].mutual.level == 0 <==> j == |path| - 1
    ensures j < |path| - 1 ==>
              && c.edges[path[j]].claim == Some(ClaimEdge(path[j + 1]))
              && path[j + 1].mutual.level + 1 == path[j].mutual.level
  {
    assert ClaimOk(heights, c.edges[path[j]]);
    if j < |path| - 1 {
      assert Link(c, path[j + 1], path[j]);
      if IsParent(c.children, path[j + 1], path[j]) {
        assert ChildOk(c, path[j + 1], c.children[path[j + 1]]);
        ChildShapes(heights, path[j + 1]);
      }
    }
  }

  lemma {:induction false} TailIsRegistered(c: Chain, t: Tree, path: seq<EdgeId>, k: nat)
    requires RegisteredPath(c, t, path) && k < |path|
    ensures RegisteredPath(c, t, path[k..])
  {
    var rest := path[k..];
    forall i | 0 < i < |rest|
      ensures Link(c, rest[i], rest[i - 1])
    {
      assert Link(c, path[k + i], path[k + i - 1]);
    }
  }

  /** One level of the search: the root found and the edges passed on the way down from it. */
  lemma {:induction false} LevelExact(children: Children, t: Tree, seg: seq<EdgeId>, root: Edge)
    requires Halving(children) && Segment(children, t.edges, seg)
    requires root.id == seg[|seg| - 1] && Registered(t, root)
    ensures FindOrigin(Roots(t, ReversedLevel(t, seg[0].mutual)), seg[0].mutual.origin) == Some(root)
    ensures WordHeights(root.id) && Descend(children, t.edges, root.id, seg[0]) == Ok(Reverse(seg[1..]))
    ensures Reverse(Reverse(seg[1..])) == seg[1..]
  {
    SegmentNested(children, t.edges, seg);
    assert ReversedLevel(t, seg[0].mutual) == ReversedLevel(t, root.id.mutual);
    assert seg[0].mutual.origin == root.id.mutual.origin;
    DescendExact(children, t.edges, seg);
    ReverseTwice(seg[1..]);
  }

  lemma {:induction false} TopLevelSearch(children: Children, t: Tree, seg: seq<EdgeId>, root: Edge)
    requires Halving(children) && RootsAreWords(t) && Segment(children, t.edges, seg)
    requires root.id == seg[|seg| - 1] && Registered(t, root)
    requires ReversedLevel(t, seg[0].mutual) + 1 == t.totalLevels
    ensures AncestorsFrom(children, t, seg[0], ReversedLevel(t, seg[0].mutual)) == Ok(seg[1..])
  {
    LevelExact(children, t, seg, root);
  }

  lemma {:induction false} LowerLevelSearch(
      children: Children, t: Tree, seg: seq<EdgeId>, root: Edge, claimed: EdgeId, rest: seq<EdgeId>)
    requires Halving(children) && RootsAreWords(t) && Segment(children, t.edges, seg)
    requires root.id == seg[|seg| - 1] && Registered(t, root)
    requires ReversedLevel(t, seg[0].mutual) + 1 < t.totalLevels
    requires root.claim == Some(ClaimEdge(claimed)) && claimed in t.edges
    requires AncestorsFrom(children, t, claimed, ReversedLevel(t, seg[0].mutual) + 1) == Ok(rest)
    ensures AncestorsFrom(children, t, seg[0], ReversedLevel(t, seg[0].mutual)) == Ok(seg[1..] + [claimed] + rest)
  {
    LevelExact(children, t, seg, root);
  }

  /** A tracked path split at its first level zero edge. */
  lemma {:induction false} SplitPath(heights: seq<nat>, c: Chain, t: Tree, path: seq<EdgeId>)
      returns (j: nat, root: Edge)
    requires ValidHeights(heights) && Inv(heights, c) && RegisteredPath(c, t, path)
    ensures Halving(c.children) && j < |path| && Segment(c.children, t.edges, path[..j + 1])
    ensures root.id == path[j] && Registered(t, root)
    ensures j == |path| - 1 ==> path[0].mutual.level == 0
    ensures j < |path| - 1 ==>
              && root.claim == Some(ClaimEdge(path[j + 1])) && path[j + 1] in t.edges
              && path[j + 1].mutual.level + 1 == path[0].mutual.level
              && RegisteredPath(c, t, path[j + 1..])
  {
    InvHalving(heights, c);
    j := FirstRoot(c, path);
    root := c.edges[path[j]];
    PathStartsWithSegment(heights, c, t, path, j);
    SegmentNested(c.children, t.edges, path[..j + 1]);
    PathAtRoot(heights, c, t, path, j);
    assert Registered(t, root);
    if j < |path| - 1 {
      TailIsRegistered(c, t, path, j + 1);
    }
  }

  /** The search returns the rest of a registered path. */
  lemma {:induction false} SearchFollowsPath(heights: seq<nat>, c: Chain, t: Tree, path: seq<EdgeId>)
    requires ValidHeights(heights) && Inv(heights, c) && t.totalLevels == |heights|
    requires RegisteredPath(c, t, path) && RootsAreWords(t)
    ensures Halving(c.children) && AncestorsOf(c.children, t, path[0]) == Ok(path[1..])
    decreases |path|
  {
    var j, root := SplitPath(heights, c, t, path);
    if j < |path| - 1 {
      SearchFollowsPath(heights, c, t, path[j + 1..]);
    }
    Assemble(c.children, t, path, j, root);
  }

  lemma {:induction false} Assemble(children: Children, t: Tree, path: seq<EdgeId>, j: nat, root: Edge)
    requires Halving(children) && RootsAreWords(t) && j < |path| && path[0] in t.edges
    requires Segment(children, t.edges, path[..j + 1]) && root.id == path[j] && Registered(t, root)
    requires j == |path| - 1 ==> path[0].mutual.level == 0
    requires j < |path| - 1 ==>
               && root.claim == Some(ClaimEdge(path[j + 1])) && path[j + 1] in t.edges
               && path[j + 1].mutual.level + 1 == path[0].mutual.level
               && AncestorsOf(children, t, path[j + 1]) == Ok(path[j + 1..][1..])
    ensures AncestorsOf(children, t, path[0]) == Ok(path[1..])
  {
    hide AncestorsFrom, Segment, Registered, Halving, RootsAreWords;
    var seg := path[..j + 1];
    if j == |path| - 1 {
      assert seg == path;
      TopLevelSearch(children, t, path, root);
    } else {
      LowerLevelSearch(children, t, seg, root, path[j + 1], path[j + 1..][1..]);
      assert path[1..] == seg[1..] + [path[j + 1]] + path[j + 1..][1..];
    }
  }

  // ----- whatever the search returns is a path -----

  /** The edges a descent passes are parents of one another, down to the target. */
  lemma {:induction false} DescentLinks(children: Children, edges: map<EdgeId, Edge>, cursor: EdgeId, target: EdgeId)
    requires Halving(children) && WordHeights(cursor) && cursor in edges
    requires Descend(children, edges, cursor, target).Ok?
    ensures var q := Descend(children, edges, cursor, target).value + [target];
            && q[0] == cursor && (forall i :: 0 <= i < |q| ==> q[i] in edges)
            && forall i :: 0 < i < |q| ==> IsParent(children, q[i - 1], q[i])
    decreases Length(cursor)
  {
    if cursor != target {
      var next := ChildTowards(children, cursor, target.mutual.startHeight).value;
      DescentLinks(children, edges, next, target);
      assert IsParent(children, cursor, next);
      var rest := Descend(children, edges, next, target).value;
      assert Descend(children, edges, cursor, target).value + [target] == [cursor] + (rest + [target]);
    }
  }

  /** The same edges from the target upwards. */
  lemma {:induction false} DescentIsPath(c: Chain, edges: map<EdgeId, Edge>, root: EdgeId, target: EdgeId)
    requires Halving(c.children) && WordHeights(root) && root in edges
    requires forall id :: id in edges ==> id in c.edges
    requires Descend(c.children, edges, root, target).Ok?
    ensures var seg := [target] + Reverse(Descend(c.children, edges, root, target).value);
            IsPath(c, seg) && seg[|seg| - 1] == root && forall i :: 0 <= i < |seg| ==> seg[i] in edges
  {
    DescentLinks(c.children, edges, root, target);
    var p := Descend(c.children, edges, root, target).value;
    var q, seg := p + [target], [target] + Reverse(p);
    assert q[..|q| - 1] == p;
    assert seg == Reverse(q);
    forall i | 0 <= i < |seg|
      ensures seg[i] == q[|q| - 1 - i]
    {
      ReverseAt(q, i);
    }
    forall i | 0 < i < |seg|
      ensures Link(c, seg[i], seg[i - 1])
    {
      var k := |q| - i;
      assert IsParent(c.children, q[k - 1], q[k]);
    }
  }

  lemma {:induction false} PathConcat(c: Chain, a: seq<EdgeId>, b: seq<EdgeId>)
    requires IsPath(c, a) && IsPath(c, b) && Link(c, b[0], a[|a| - 1])
    ensures IsPath(c, a + b)
  {
    var path := a + b;
    forall i | 0 < i < |path|
      ensures Link(c, path[i], path[i - 1])
    {
      if i > |a| {
        assert Link(c, b[i - |a|], b[i - |a| - 1]);
      }
    }
  }

  /** The tree's edges are the chain's, and its root lists hold the tracked level zero edges. */
  ghost predicate Mirrors(c: Chain, t: Tree) {
    && RootsAgree(t) && RootsAreWords(t) && Halving(c.children)
    && forall id :: id in t.edges ==> id in c.edges && t.edges[id] == c.edges[id]
  }

  /** One level: the edges up to the root found, and that root's claim. */
  lemma {:induction false} LevelYieldsPath(heights: seq<nat>, c: Chain, t: Tree, current: EdgeId, root: Edge)
    requires ValidHeights(heights) && Inv(heights, c) && t.totalLevels == |heights| && Mirrors(c, t)
    requires current in t.edges
    requires FindOrigin(Roots(t, ReversedLevel(t, current.mutual)), current.mutual.origin) == Some(root)
    ensures root.id in c.edges && root == c.edges[root.id] && WordHeights(root.id) && root.id in t.edges
    ensures root.claim.Some? && root.id.mutual.level == current.mutual.level
    ensures root.claim.value.ClaimEdge? && root.claim.value.edge in t.edges ==>
              && Link(c, root.claim.value.edge, root.id)
              && root.claim.value.edge.mutual.level + 1 == current.mutual.level
  {
    FindOriginMember(Roots(t, ReversedLevel(t, current.mutual)), current.mutual.origin);
    assert IsRootAt(t, root, ReversedLevel(t, current.mutual));
    assert ClaimOk(heights, c.edges[root.id]);
  }

  /** What the search found on the edge's own level, and what it went on with above it. */
  lemma {:induction false} SearchSplits(children: Children, t: Tree, current: EdgeId, ids: seq<EdgeId>)
      returns (root: Edge, passed: seq<EdgeId>, rest: seq<EdgeId>)
    requires Halving(children) && RootsAreWords(t) && AncestorsOf(children, t, current) == Ok(ids)
    ensures current in t.edges && WordHeights(root.id)
    ensures FindOrigin(Roots(t, ReversedLevel(t, current.mutual)), current.mutual.origin) == Some(root)
    ensures Descend(children, t.edges, root.id, current) == Ok(passed)
    ensures current.mutual.level == 0 ==> ids == Reverse(passed)
    ensures current.mutual.level > 0 ==>
              && root.claim.Some? && root.claim.value.ClaimEdge? && root.claim.value.edge in t.edges
              && AncestorsFrom(children, t, root.claim.value.edge, ReversedLevel(t, current.mutual) + 1) == Ok(rest)
              && ids == Reverse(passed) + [root.claim.value.edge] + rest
  {
    hide Descend, Reverse;
    var level := ReversedLevel(t, current.mutual);
    root := FindOrigin(Roots(t, level), current.mutual.origin).value;
    FindOriginMember(Roots(t, level), current.mutual.origin);
    passed := Descend(children, t.edges, root.id, current).value;
    rest := [];
    if current.mutual.level > 0 {
      rest := AncestorsFrom(children, t, root.claim.value.edge, level + 1).value;
    }
  }

  /** Whatever list the search returns, it completes the edge to a tracked path. */
  lemma {:induction false} SearchYieldsPath(heights: seq<nat>, c: Chain, t: Tree, current: EdgeId, ids: seq<EdgeId>)
    requires ValidHeights(heights) && Inv(heights, c) && t.totalLevels == |heights| && Mirrors(c, t)
    requires AncestorsOf(c.children, t, current) == Ok(ids)
    ensures TrackedPath(c, t, [current] + ids)
    decreases current.mutual.level
  {
    hide Inv, RootsAgree, Link, IsPath, Descend, Reverse, FindOrigin, AncestorsFrom;
    var root, passed, rest := SearchSplits(c.children, t, current, ids);
    LevelYieldsPath(heights, c, t, current, root);
    DescentIsPath(c, t.edges, root.id, current);
    var seg := [current] + Reverse(passed);
    if current.mutual.level > 0 {
      var claimed := root.claim.value.edge;
      SearchYieldsPath(heights, c, t, claimed, rest);
      PathConcat(c, seg, [claimed] + rest);
      assert [current] + ids == seg + ([claimed] + rest);
    }
  }

  // ----- children that are not tracked -----

  /** The edges a descent would visit on chain, down to the target or to an edge it cannot go on from. */
  function Way(children: Children, cursor: EdgeId, target: EdgeId): seq<EdgeId>
    requires Halving(children) && WordHeights(cursor)
    decreases Length(cursor)
  {
    if cursor == target then [cursor]
    else
      var next := ChildTowards(children, cursor, target.mutual.startHeight);
      if next.Err? then [cursor] else [cursor] + Way(children, next.value, target)
  }

  /** A descent follows a child the tree does not have exactly if not all edges on its way are tracked. */
  lemma {:induction false} DescentMissesIff(
      children: Children, edges: map<EdgeId, Edge>, cursor: EdgeId, target: EdgeId)
    requires Halving(children) && WordHeights(cursor) && cursor in edges
    ensures Descend(children, edges, cursor, target) == Err(ChildNotTracked)
       <==> exists e :: e in Way(children, cursor, target) && e !in edges
    decreases Length(cursor)
  {
    if cursor != target {
      var next := ChildTowards(children, cursor, target.mutual.startHeight);
      if next.Ok? {
        assert next.value in Way(children, next.value, target);
        if next.value in edges {
          DescentMissesIff(children, edges, next.value, target);
        }
      }
    }
  }

  /** How a descent answers if it cannot go on from an edge: the edge is too short to bisect, or not bisected. */
  ghost predicate StuckAt(children: Children, at: EdgeId, target: EdgeId, error: TreeError) {
    var m := at.mutual;
    && (m.startHeight + 2 <= m.endHeight ==>
          && at !in children
          && error == if target.mutual.startHeight < Mid(m.startHeight, m.endHeight)
                      then NoLowerChildYet else NoUpperChild)
    && (m.endHeight < m.startHeight + 2 < UINT64 ==> error == CannotBisect)
  }

  lemma {:induction false} TowardsOrStuck(children: Children, cursor: EdgeId, target: EdgeId)
    requires WordHeights(cursor)
    ensures var next := ChildTowards(children, cursor, target.mutual.startHeight);
            next.Err? ==> StuckAt(children, cursor, target, next.error)
  {
    hide Mid;
    if cursor.mutual.startHeight + 2 <= cursor.mutual.endHeight {
      BisectIsMid(cursor.mutual.startHeight, cursor.mutual.endHeight);
    }
  }

  lemma {:induction false} NextIsShorter(children: Children, cursor: EdgeId, target: EdgeId)
    requires Halving(children) && WordHeights(cursor)
    ensures var next := ChildTowards(children, cursor, target.mutual.startHeight);
            next.Ok? ==> Length(next.value) < Length(cursor) && WordHeights(next.value)
  {
  }

  /** A descent answers with the way's edges if the way ends at the target, else with why it is stuck there. */
  ghost predicate AnswersAsWayEnds(
      children: Children, way: seq<EdgeId>, target: EdgeId, r: Result<seq<EdgeId>, TreeError>)
    requires |way| > 0
  {
    var n := |way| - 1;
    if way[n] == target then r == Ok(way[..n]) else r.Err? && StuckAt(children, way[n], target, r.error)
  }

  lemma {:induction false} WayGoesOn(
      children: Children, cursor: EdgeId, rest: seq<EdgeId>, target: EdgeId, r: Result<seq<EdgeId>, TreeError>)
    requires |rest| > 0 && AnswersAsWayEnds(children, rest, target, r)
    ensures AnswersAsWayEnds(children, [cursor] + rest, target, if r.Err? then r else Ok([cursor] + r.value))
  {
    var way := [cursor] + rest;
    assert way[|way| - 1] == rest[|rest| - 1] && way[..|way| - 1] == [cursor] + rest[..|rest| - 1];
  }

  lemma {:induction false} WayStops(
      children: Children, cursor: EdgeId, target: EdgeId, r: Result<seq<EdgeId>, TreeError>)
    requires if cursor == target then r == Ok([]) else r.Err? && StuckAt(children, cursor, target, r.error)
    ensures AnswersAsWayEnds(children, [cursor], target, r)
  {
  }

  /** If the way is tracked, what the descent answers is told by where the way ends. */
  lemma {:induction false} DescentEnds(children: Children, edges: map<EdgeId, Edge>, cursor: EdgeId, target: EdgeId)
    requires Halving(children) && WordHeights(cursor)
    requires forall e :: e in Way(children, cursor, target) ==> e in edges
    ensures |Way(children, cursor, target)| > 0
    ensures AnswersAsWayEnds(children, Way(children, cursor, target), target,
                             Descend(children, edges, cursor, target))
    decreases Length(cursor)
  {
    hide StuckAt, AnswersAsWayEnds, ChildTowards, Halving;
    var next := ChildTowards(children, cursor, target.mutual.startHeight);
    TowardsOrStuck(children, cursor, target);
    if cursor == target || next.Err? {
      WayStops(children, cursor, target, Descend(children, edges, cursor, target));
    } else {
      NextIsShorter(children, cursor, target);
      var rest := Way(children, next.value, target);
      assert next.value in rest;
      assert forall e :: e in rest ==> e in [cursor] + rest;
      DescentEnds(children, edges, next.value, target);
      WayGoesOn(children, cursor, rest, target, Descend(children, edges, next.value, target));
    }
  }

  /** All edges between a tracked edge and the root of its level are tracked, as far as the chain has them. */
  ghost predicate WayTracked(children: Children, t: Tree, id: EdgeId)
    requires Halving(children) && RootsAreWords(t)
  {
    var root := FindOrigin(Roots(t, ReversedLevel(t, id.mutual)), id.mutual.origin);
    FindOriginMember(Roots(t, ReversedLevel(t, id.mutual)), id.mutual.origin);
    root.Some? ==> forall e :: e in Way(children, root.value.id, id) ==> e in t.edges
  }

  ghost predicate WaysTracked(children: Children, t: Tree)
    requires Halving(children) && RootsAreWords(t)
  {
    forall id :: id in t.edges ==> WayTracked(children, t, id)
  }

  /** If the edge's own way has a gap the search ends there. */
  lemma {:induction false} GapIsReached(children: Children, t: Tree, id: EdgeId)
    requires Halving(children) && RootsAreWords(t) && RootsAgree(t) && id in t.edges && !WayTracked(children, t, id)
    ensures AncestorsOf(children, t, id) == Err(ChildNotTracked)
  {
    hide Descend, Way;
    var level := ReversedLevel(t, id.mutual);
    var root := FindOrigin(Roots(t, level), id.mutual.origin).value;
    FindOriginMember(Roots(t, level), id.mutual.origin);
    assert IsRootAt(t, root, level);
    DescentMissesIff(children, t.edges, root.id, id);
  }

  /** If no way has one the search never looks for an edge the tree does not have. */
  lemma {:induction false} SearchMissesNothing(heights: seq<nat>, c: Chain, t: Tree, current: EdgeId)
    requires ValidHeights(heights) && Inv(heights, c) && t.totalLevels == |heights| && Mirrors(c, t)
    requires WaysTracked(c.children, t)
    ensures AncestorsOf(c.children, t, current) != Err(ChildNotTracked)
    decreases current.mutual.level
  {
    hide Inv, RootsAgree, Link, Descend, Way, Reverse;
    var level := ReversedLevel(t, current.mutual);
    var root := FindOrigin(Roots(t, level), current.mutual.origin);
    if current in t.edges && root.Some? {
      LevelYieldsPath(heights, c, t, current, root.value);
      assert WayTracked(c.children, t, current);
      DescentMissesIff(c.children, t.edges, root.value.id, current);
      var claim := root.value.claim;
      if claim.value.ClaimEdge? && claim.value.edge in t.edges {
        SearchMissesNothing(heights, c, t, claim.value.edge);
      }
    }
  }

  /** The halves of every bisected tracked edge are tracked. */
  ghost predicate ChildrenTracked(children: Children, edges: map<EdgeId, Edge>) {
    forall p :: p in children && p in edges ==> children[p].0 in edges && children[p].1 in edges
  }

  lemma {:induction false} ChildrenFillWays(
      children: Children, edges: map<EdgeId, Edge>, cursor: EdgeId, target: EdgeId)
    requires Halving(children) && WordHeights(cursor) && cursor in edges && ChildrenTracked(children, edges)
    ensures forall e :: e in Way(children, cursor, target) ==> e in edges
    decreases Length(cursor)
  {
    if cursor != target {
      var next := ChildTowards(children, cursor, target.mutual.startHeight);
      if next.Ok? {
        ChildrenFillWays(children, edges, next.value, target);
      }
    }
  }
}
