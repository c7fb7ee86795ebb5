/** What the answer of `findCycles` means: soundness, coverage, acyclicity, and a pick order. */
module CycleProperties {
  import opened Ordering
  import opened DependencyGraph

  function Next(w: seq<nat>, i: nat): nat
    requires i < |w|
  {
    if i + 1 < |w| then w[i + 1] else w[0]
  }

  /** Every reported list is the ascending vertex set of a simple directed cycle; no list is
      reported twice; the lists stand in order of their smallest member. */
  lemma ReportedCyclesAreCycles(edges: set<Edge>)
    ensures forall c :: c in Cycles(edges) ==> IsCycleSet(edges, c) && c != [] && Ascending(c)
    ensures Distinct(Cycles(edges))
    ensures SortedBy(Head, Cycles(edges))
  {
    SearchKeeps(edges);
    var found := Search(edges).cycles;
    StableSortMembers(Head, found);
    StableSortIsStable(Head, found, 0);
    SamePermutationDistinct(found, Cycles(edges));
    forall c | c in Cycles(edges) ensures IsCycleSet(edges, c) && c != [] && Ascending(c) {
      assert c in found;
      var w: seq<nat> :| Closed(edges, Search(edges).tree, w) && c == Listing(Elements(w));
      assert SimpleCycle(edges, w) && w[0] in c;
    }
  }

  /** No list comes after one with a greater smallest member. */
  lemma SmallestFirst(edges: set<Edge>, i: nat, j: nat, x: nat, y: nat)
    requires i < j < |Cycles(edges)| && x in Cycles(edges)[i] && y in Cycles(edges)[j]
    requires forall z :: z in Cycles(edges)[i] ==> x <= z
    ensures x <= y
  {
    ReportedCyclesAreCycles(edges);
    var c, d := Cycles(edges)[i], Cycles(edges)[j];
    assert c in Cycles(edges) && d in Cycles(edges);
    FirstIsSmallest(c, x);
    FirstIsSmallest(d, y);
    assert Head(c) <= Head(d);
  }

  lemma FirstIsSmallest(c: seq<nat>, x: nat)
    requires Ascending(c) && x in c
    ensures c != [] && c[0] <= x && c[0] in c
  {
  }

  /** Around any closed walk some step does not lower the rank. */
  lemma {:induction false} LowestOf(rank: nat -> int, w: seq<nat>) returns (i: nat)
    requires w != []
    ensures i < |w| && forall j :: 0 <= j < |w| ==> rank(w[i]) <= rank(w[j])
  {
    i := 0;
    if |w| > 1 {
      var n := |w| - 1;
      i := LowestOf(rank, w[..n]);
      assert forall j :: 0 <= j < n ==> w[..n][j] == w[j];
      if rank(w[n]) < rank(w[i]) { i := n; }
    }
  }

  lemma CycleEdges(edges: set<Edge>, w: seq<nat>, i: nat)
    requires SimpleCycle(edges, w) && i < |w|
    ensures Edge(w[i], Next(w, i)) in edges && w[i] in Issues(edges)
  {
  }

  /** Some reported list is the vertex set of a simple cycle that runs along the edge `u` to `v`. */
  ghost predicate Covered(edges: set<Edge>, u: nat, v: nat) {
    exists w: seq<nat> :: SimpleCycle(edges, w) && RunsAlong(w, Edge(u, v)) && Listing(Elements(w)) in Cycles(edges)
  }

  lemma BackIsCovered(edges: set<Edge>, u: nat, v: nat)
    requires Back(edges, Search(edges), u, v)
    ensures Covered(edges, u, v)
  {
    SearchKeeps(edges);
    var s := Search(edges);
    var p: seq<nat> :| ClosedAt(edges, s.tree, p, u, v) && Listing(Elements(p)) in s.cycles;
    StableSortMembers(Head, s.cycles);
    assert Next(p, |p| - 1) == v;
    assert SimpleCycle(edges, p) && RunsAlong(p, Edge(u, v));
  }

  /** Coverage: every directed cycle of the graph has an edge along which a reported cycle runs. */
  lemma EveryCycleIsCovered(edges: set<Edge>, w: seq<nat>)
    requires SimpleCycle(edges, w)
    ensures exists i :: 0 <= i < |w| && Covered(edges, w[i], Next(w, i))
  {
    var i := LowestOf(Rank(Search(edges).finished), w);
    CycleEdges(edges, w, i);
    EveryEdgeClassified(edges, Edge(w[i], Next(w, i)));
    assert Rank(Search(edges).finished)(w[i]) <= Rank(Search(edges).finished)(Next(w, i));
    BackIsCovered(edges, w[i], Next(w, i));
  }

  ghost function Rank(order: seq<nat>): nat -> int {
    x => if x in order then IndexIn(order, x) else 0
  }

  ghost predicate RunsAlong(w: seq<nat>, e: Edge) {
    exists i :: 0 <= i < |w| && w[i] == e.child && Next(w, i) == e.upstream
  }

  /** No edge lies on two cycles with different members. */
  ghost predicate CyclesShareNoEdge(edges: set<Edge>) {
    forall w: seq<nat>, x: seq<nat>, e: Edge ::
      SimpleCycle(edges, w) && SimpleCycle(edges, x) && RunsAlong(w, e) && RunsAlong(x, e)
      ==> Elements(w) == Elements(x)
  }

  /** Where no edge lies on two different cycles, `findCycles` does report every distinct cycle. */
  lemma EdgeDisjointCyclesAllReported(edges: set<Edge>)
    requires CyclesShareNoEdge(edges)
    ensures ReportsEveryCycle(edges)
  {
    forall w: seq<nat> | SimpleCycle(edges, w) ensures Listing(Elements(w)) in Cycles(edges) {
      EveryCycleIsCovered(edges, w);
      var i :| 0 <= i < |w| && Covered(edges, w[i], Next(w, i));
      var e := Edge(w[i], Next(w, i));
      var x: seq<nat> :| SimpleCycle(edges, x) && RunsAlong(x, e) && Listing(Elements(x)) in Cycles(edges);
      assert RunsAlong(w, e);
      assert Elements(w) == Elements(x);
    }
  }

  // ---- "every distinct dependency cycle" ----

  ghost predicate ReportsEveryCycle(edges: set<Edge>) {
    forall w: seq<nat> :: SimpleCycle(edges, w) ==> Listing(Elements(w)) in Cycles(edges)
  }

  /** No edge of a cycle is followed, untaken, to an issue that has already finished. */
  ghost predicate NoCycleEdgeSkipped(edges: set<Edge>) {
    forall w: seq<nat>, e: Edge :: SimpleCycle(edges, w) && RunsAlong(w, e) ==> e !in Search(edges).skipped
  }

  /** A forest whose edges lower a rank. */
  ghost predicate Ranked(tree: set<Edge>, rank: nat -> int) {
    && (forall e, f :: e in tree && f in tree && e.upstream == f.upstream ==> e == f)
    && (forall e :: e in tree ==> rank(e.upstream) < rank(e.child))
  }

  ghost predicate Highest(rank: nat -> int, x: nat, w: seq<nat>) {
    forall y :: y in w ==> rank(y) <= rank(x)
  }

  lemma {:induction false} BranchFalls(tree: set<Edge>, rank: nat -> int, p: seq<nat>, i: nat, j: nat)
    requires Ranked(tree, rank) && Walk(tree, p) && i < j < |p|
    ensures rank(p[j]) < rank(p[i])
  {
    assert Edge(p[j - 1], p[j - 1 + 1]) in tree;
    if i < j - 1 { BranchFalls(tree, rank, p, i, j - 1); }
  }

  /** Branches that end in the same issue agree from the end up. */
  lemma {:induction false} BranchesAgree(tree: set<Edge>, rank: nat -> int, p: seq<nat>, q: seq<nat>, k: nat)
    requires Ranked(tree, rank) && Walk(tree, p) && Walk(tree, q)
    requires k < |p| && k < |q| && p[|p| - 1] == q[|q| - 1]
    ensures p[|p| - 1 - k] == q[|q| - 1 - k]
  {
    if k > 0 {
      BranchesAgree(tree, rank, p, q, k - 1);
      var i, j := |p| - 1 - k, |q| - 1 - k;
      assert Edge(p[i], p[i + 1]) in tree && Edge(q[j], q[j + 1]) in tree;
    }
  }

  /** A branch that ends where `w[..i]` ends does not start at the cycle member after it. */
  lemma BranchStartsElsewhere(tree: set<Edge>, rank: nat -> int, w: seq<nat>, i: nat, p: seq<nat>)
    requires Ranked(tree, rank) && Distinct(w) && 0 < i < |w| && Highest(rank, w[0], w)
    requires Walk(tree, w[..i]) && Walk(tree, p) && p != [] && p[|p| - 1] == w[i - 1]
    ensures p[0] != w[i]
  {
    var q := w[..i];
    assert w[i] in w && q[|q| - 1] == w[i - 1];
    if |p| <= i {
      BranchesAgree(tree, rank, p, q, |p| - 1);
      assert p[0] == w[i - |p|];
    } else {
      BranchesAgree(tree, rank, p, q, i - 1);
      BranchFalls(tree, rank, p, 0, |p| - i);
      assert rank(w[0]) < rank(p[0]);
    }
  }

  lemma SearchIsRanked(edges: set<Edge>)
    ensures Search(edges).tree <= edges
    ensures Ranked(Search(edges).tree, Rank(Search(edges).finished))
  {
    SearchKeeps(edges);
    forall e | e in Search(edges).tree
      ensures Rank(Search(edges).finished)(e.upstream) < Rank(Search(edges).finished)(e.child)
    {
      EveryEdgeClassified(edges, e);
    }
  }

  /** The edges of `w` are all tree edges or closed a reported branch. */
  ghost predicate Unskipped(edges: set<Edge>, s: Dfs, w: seq<nat>) {
    forall i :: 0 <= i < |w| ==> Edge(w[i], Next(w, i)) in s.tree || Back(edges, s, w[i], Next(w, i))
  }

  /** A cycle without skipped edges, listed from its last finisher, is a branch of the forest. */
  lemma {:induction false} UnskippedCycleIsBranch(edges: set<Edge>, s: Dfs, rank: nat -> int, w: seq<nat>, i: nat)
    requires Ranked(s.tree, rank) && Unskipped(edges, s, w)
    requires w != [] && Distinct(w) && Highest(rank, w[0], w) && i <= |w|
    ensures Walk(s.tree, w[..i])
  {
    if i > 1 {
      UnskippedCycleIsBranch(edges, s, rank, w, i - 1);
      assert Next(w, i - 2) == w[i - 1];
      NoBackOnward(edges, s, rank, w, i - 1);
      WalkAppend(s.tree, w, i);
    }
  }

  /** No reported branch leads back from the end of `w[..i]` to the cycle member after it. */
  lemma NoBackOnward(edges: set<Edge>, s: Dfs, rank: nat -> int, w: seq<nat>, i: nat)
    requires Ranked(s.tree, rank) && Distinct(w) && 0 < i < |w| && Highest(rank, w[0], w) && Walk(s.tree, w[..i])
    ensures !Back(edges, s, w[i - 1], w[i])
  {
    forall p: seq<nat> | Closed(edges, s.tree, p) && p[|p| - 1] == w[i - 1] ensures p[0] != w[i] {
      BranchStartsElsewhere(s.tree, rank, w, i, p);
    }
  }

  lemma WalkAppend(edges: set<Edge>, w: seq<nat>, i: nat)
    requires 1 < i <= |w| && Walk(edges, w[..i - 1]) && Edge(w[i - 2], w[i - 1]) in edges
    ensures Walk(edges, w[..i])
  {
    forall k | 0 <= k < i - 1 ensures Edge(w[..i][k], w[..i][k + 1]) in edges {
      if k < i - 2 { assert Edge(w[..i - 1][k], w[..i - 1][k + 1]) in edges; }
    }
  }

  function Rotate(w: seq<nat>, k: nat): seq<nat>
    requires k < |w|
  {
    w[k..] + w[..k]
  }

  function Unrotate(n: nat, k: nat, i: nat): (j: nat)
    requires k < n && i < n
    ensures j < n
  {
    if i + k < n then i + k else i + k - n
  }

  lemma RotationSteps(w: seq<nat>, k: nat, i: nat)
    requires k < |w| && i < |w|
    ensures var j := Unrotate(|w|, k, i);
            Rotate(w, k)[i] == w[j] && Next(Rotate(w, k), i) == Next(w, j)
  {
  }

  lemma RotationRunsAlong(w: seq<nat>, k: nat, e: Edge)
    requires k < |w| && RunsAlong(Rotate(w, k), e)
    ensures RunsAlong(w, e)
  {
    var i :| 0 <= i < |w| && Rotate(w, k)[i] == e.child && Next(Rotate(w, k), i) == e.upstream;
    RotationSteps(w, k, i);
    assert w[Unrotate(|w|, k, i)] == e.child;
  }

  lemma RotationMembers(w: seq<nat>, k: nat)
    requires k < |w|
    ensures forall x :: x in Rotate(w, k) <==> x in w
    ensures Distinct(w) ==> Distinct(Rotate(w, k))
  {
    assert w == w[..k] + w[k..];
  }

  lemma RotationIsCycle(edges: set<Edge>, w: seq<nat>, k: nat)
    requires SimpleCycle(edges, w) && k < |w|
    ensures SimpleCycle(edges, Rotate(w, k)) && Elements(Rotate(w, k)) == Elements(w)
    ensures forall e :: RunsAlong(Rotate(w, k), e) ==> RunsAlong(w, e)
  {
    var r := Rotate(w, k);
    RotationMembers(w, k);
    forall i | 0 <= i < |r| ensures Edge(r[i], Next(r, i)) in edges {
      RotationSteps(w, k, i);
      CycleEdges(edges, w, Unrotate(|w|, k, i));
    }
    assert forall i :: 0 <= i < |r| - 1 ==> Next(r, i) == r[i + 1];
    assert Next(r, |r| - 1) == r[0];
    forall e | RunsAlong(r, e) ensures RunsAlong(w, e) { RotationRunsAlong(w, k, e); }
  }

  lemma HighestOf(rank: nat -> int, w: seq<nat>) returns (k: nat)
    requires w != []
    ensures k < |w| && Highest(rank, w[k], w)
  {
    k := LowestOf((x: nat) => -rank(x), w);
    forall y | y in w ensures rank(y) <= rank(w[k]) {
      var j :| 0 <= j < |w| && w[j] == y;
      assert -rank(w[k]) <= -rank(w[j]);
    }
  }

  lemma UnskippedEdges(edges: set<Edge>, w: seq<nat>)
    requires SimpleCycle(edges, w)
    requires forall e :: RunsAlong(w, e) ==> e !in Search(edges).skipped
    ensures Unskipped(edges, Search(edges), w)
  {
    forall i | 0 <= i < |w|
      ensures Edge(w[i], Next(w, i)) in Search(edges).tree || Back(edges, Search(edges), w[i], Next(w, i))
    {
      CycleEdges(edges, w, i);
      assert RunsAlong(w, Edge(w[i], Next(w, i)));
      EveryEdgeClassified(edges, Edge(w[i], Next(w, i)));
    }
  }

  /** A cycle none of whose edges is skipped is reported. */
  lemma UnskippedCycleReported(edges: set<Edge>, w: seq<nat>)
    requires SimpleCycle(edges, w)
    requires forall e :: RunsAlong(w, e) ==> e !in Search(edges).skipped
    ensures Listing(Elements(w)) in Cycles(edges)
  {
    var rank := Rank(Search(edges).finished);
    SearchIsRanked(edges);
    var k := HighestOf(rank, w);
    var r := Rotate(w, k);
    RotationIsCycle(edges, w, k);
    assert forall y :: y in r ==> y in Elements(r) && y in w;
    UnskippedEdges(edges, r);
    BranchCycleReported(edges, Search(edges), rank, r);
    StableSortMembers(Head, Search(edges).cycles);
  }

  lemma BranchCycleReported(edges: set<Edge>, s: Dfs, rank: nat -> int, w: seq<nat>)
    requires Ranked(s.tree, rank) && Unskipped(edges, s, w)
    requires w != [] && Distinct(w) && Highest(rank, w[0], w)
    ensures Listing(Elements(w)) in s.cycles
  {
    UnskippedCycleIsBranch(edges, s, rank, w, |w|);
    assert w[..|w|] == w;
    LastEdgeIsBack(edges, s, rank, w);
    var p: seq<nat> :| ClosedAt(edges, s.tree, p, w[|w| - 1], w[0]) && Listing(Elements(p)) in s.cycles;
    SameBranch(s.tree, rank, p, w);
  }

  /** The edge back to the highest issue is no tree edge. */
  lemma LastEdgeIsBack(edges: set<Edge>, s: Dfs, rank: nat -> int, w: seq<nat>)
    requires Ranked(s.tree, rank) && Unskipped(edges, s, w) && w != [] && Highest(rank, w[0], w)
    ensures Back(edges, s, w[|w| - 1], w[0])
  {
    var n := |w| - 1;
    assert Next(w, n) == w[0] && w[n] in w;
    assert rank(w[n]) <= rank(w[0]);
  }

  /** A branch is determined by where it starts and ends. */
  lemma SameBranch(tree: set<Edge>, rank: nat -> int, p: seq<nat>, w: seq<nat>)
    requires Ranked(tree, rank) && Walk(tree, p) && Walk(tree, w) && Distinct(p) && Distinct(w)
    requires p != [] && w != [] && p[0] == w[0] && p[|p| - 1] == w[|w| - 1]
    ensures p == w
  {
    BranchesAgree(tree, rank, p, w, if |p| <= |w| then |p| - 1 else |w| - 1);
    assert |p| == |w|;
    forall i | 0 <= i < |w| ensures p[i] == w[i] { BranchesAgree(tree, rank, p, w, |w| - 1 - i); }
  }

  /** A branch closed into a cycle, cut short by an edge that leads further down the branch. */
  lemma Shortcut(edges: set<Edge>, tree: set<Edge>, p: seq<nat>, i: nat, j: nat)
    requires Closed(edges, tree, p) && tree <= edges && i < j < |p| && Edge(p[i], p[j]) in edges
    ensures var x := p[..i + 1] + p[j..];
            SimpleCycle(edges, x) && RunsAlong(x, Edge(p[i], p[j])) && |x| == |p| - (j - i - 1)
  {
    var x := p[..i + 1] + p[j..];
    assert x[i] == p[i] && Next(x, i) == p[j];
    forall m | 0 <= m < |x| - 1 ensures Edge(x[m], x[m + 1]) in edges {
      if m < i {
        assert Edge(p[m], p[m + 1]) in tree;
      } else if m > i {
        var n := m - i - 1 + j;
        assert Edge(p[n], p[n + 1]) in tree;
      }
    }
  }

  /** The branch behind a reported cycle set. */
  lemma BranchOfReported(edges: set<Edge>, w: seq<nat>) returns (p: seq<nat>)
    requires Distinct(w) && Listing(Elements(w)) in Cycles(edges)
    ensures Closed(edges, Search(edges).tree, p) && Search(edges).tree <= edges
    ensures |p| == |w| && forall y :: y in w <==> y in p
  {
    SearchKeeps(edges);
    var s := Search(edges);
    StableSortMembers(Head, s.cycles);
    var c := Listing(Elements(w));
    assert FromBranch(edges, s.tree, c);
    p :| Closed(edges, s.tree, p) && c == Listing(Elements(p));
    DistinctCount(p);
    DistinctCount(w);
    forall y ensures y in w <==> y in p {
      assert y in w <==> y in c;
      assert y in p <==> y in c;
    }
  }

  /** A reported cycle with a skipped edge has a smaller cycle through that edge. */
  lemma SkippedEdgeShortcuts(edges: set<Edge>, w: seq<nat>, e: Edge) returns (x: seq<nat>)
    requires SimpleCycle(edges, w) && RunsAlong(w, e) && e in Search(edges).skipped
    requires Listing(Elements(w)) in Cycles(edges)
    ensures SimpleCycle(edges, x) && RunsAlong(x, e) && |x| < |w|
  {
    SearchIsRanked(edges);
    SearchKeeps(edges);
    var s, rank := Search(edges), Rank(Search(edges).finished);
    var p := BranchOfReported(edges, w);
    assert e.child in p && e.upstream in p;
    var i :| 0 <= i < |p| && p[i] == e.child;
    var j :| 0 <= j < |p| && p[j] == e.upstream;
    SkippedDescends(edges, p, e, i, j);
    Shortcut(edges, s.tree, p, i, j);
    x := p[..i + 1] + p[j..];
  }

  /** A skipped edge leads further down a tree branch it touches twice, past the next issue. */
  lemma SkippedDescends(edges: set<Edge>, p: seq<nat>, e: Edge, i: nat, j: nat)
    requires Walk(Search(edges).tree, p) && Distinct(p) && e in edges && e in Search(edges).skipped
    requires i < |p| && j < |p| && p[i] == e.child && p[j] == e.upstream
    ensures i < j && (i + 1 < |p| ==> Edge(p[i], p[i + 1]) in Search(edges).tree) && e == Edge(p[i], p[j])
  {
    SearchIsRanked(edges);
    SkippedFalls(edges, e);
    FallsFurtherOn(Search(edges).tree, Rank(Search(edges).finished), p, i, j);
  }

  lemma SkippedFalls(edges: set<Edge>, e: Edge)
    requires e in edges && e in Search(edges).skipped
    ensures Rank(Search(edges).finished)(e.upstream) < Rank(Search(edges).finished)(e.child)
  {
    EveryEdgeClassified(edges, e);
  }

  lemma FallsFurtherOn(tree: set<Edge>, rank: nat -> int, p: seq<nat>, i: nat, j: nat)
    requires Ranked(tree, rank) && Walk(tree, p) && i < |p| && j < |p| && rank(p[j]) < rank(p[i])
    ensures i < j
  {
    if j < i { BranchFalls(tree, rank, p, j, i); }
  }

  lemma {:induction false} SkippedEdgeMissesCycle(edges: set<Edge>, w: seq<nat>, e: Edge)
    requires SimpleCycle(edges, w) && RunsAlong(w, e) && e in Search(edges).skipped
    ensures !ReportsEveryCycle(edges)
    decreases |w|
  {
    if Listing(Elements(w)) in Cycles(edges) {
      var x := SkippedEdgeShortcuts(edges, w, e);
      SkippedEdgeMissesCycle(edges, x, e);
    }
  }

  /** `findCycles` reports every distinct cycle exactly when no cycle runs along an edge that the
      search followed, neither to a white nor to a grey issue, to one that had finished. */
  lemma CompleteExactlyWhenNothingSkipped(edges: set<Edge>)
    ensures ReportsEveryCycle(edges) <==> NoCycleEdgeSkipped(edges)
  {
    if NoCycleEdgeSkipped(edges) {
      forall w: seq<nat> | SimpleCycle(edges, w) ensures Listing(Elements(w)) in Cycles(edges) {
        UnskippedCycleReported(edges, w);
      }
    }
    if ReportsEveryCycle(edges) {
      forall w: seq<nat>, e: Edge | SimpleCycle(edges, w) && RunsAlong(w, e)
        ensures e !in Search(edges).skipped
      {
        if e in Search(edges).skipped { SkippedEdgeMissesCycle(edges, w, e); }
      }
    }
  }

  /** Graphs on which `findCycles` reports one of two cycles: `a` waits on `b` and `c`, `b` on `c`,
      and `c` on `a`. */
  ghost predicate Chorded(e: set<Edge>, a: nat, b: nat, c: nat) {
    a < b < c && e == {Edge(a, b), Edge(a, c), Edge(b, c), Edge(c, a)}
  }

  lemma ListingIs(s: set<nat>, r: seq<nat>)
    requires Ascending(r) && forall x :: x in r <==> x in s
    ensures Listing(s) == r
  {
    AscendingIsCanonical(Listing(s), r);
  }

  lemma ChordedUpstream(e: set<Edge>, a: nat, b: nat, c: nat)
    requires Chorded(e, a, b, c)
    ensures Listing(Upstream(e, a)) == [b, c]
    ensures Listing(Upstream(e, b)) == [c]
    ensures Listing(Upstream(e, c)) == [a]
  {
    assert forall x :: Edge(a, x) in e <==> x == b || x == c;
    assert forall x :: Edge(b, x) in e <==> x == c;
    assert forall x :: Edge(c, x) in e <==> x == a;
    UpstreamIs(e, a, [b, c]);
    UpstreamIs(e, b, [c]);
    UpstreamIs(e, c, [a]);
  }

  lemma UpstreamIs(e: set<Edge>, n: nat, r: seq<nat>)
    requires Ascending(r) && forall x :: x in r <==> Edge(n, x) in e
    ensures Listing(Upstream(e, n)) == r
  {
    forall x ensures x in r <==> x in Upstream(e, n) {
      if Edge(n, x) in e { assert Edge(n, x).upstream == x; }
    }
    ListingIs(Upstream(e, n), r);
  }

  lemma ChordedIssues(e: set<Edge>, a: nat, b: nat, c: nat)
    requires Chorded(e, a, b, c)
    ensures Issues(e) == {a, b, c} && Listing(Issues(e)) == [a, b, c]
  {
    assert Edge(a, b).child in Issues(e) && Edge(b, c).child in Issues(e) && Edge(c, a).child in Issues(e);
    ListingIs(Issues(e), [a, b, c]);
  }

  lemma VisitOne(e: set<Edge>, node: nat, s: Dfs, x: nat)
    requires node in s.white && Listing(Upstream(e, node)) == [x]
    ensures var r, f := Visit(e, node, s), Follow(e, x, Enter(node, s));
            r.white == f.white && r.cycles == f.cycles
  {
    assert [x][..0] == [];
    assert Explore(e, [x], Enter(node, s)) == Follow(e, x, Enter(node, s));
  }

  lemma VisitTwo(e: set<Edge>, node: nat, s: Dfs, x: nat, y: nat)
    requires node in s.white && Listing(Upstream(e, node)) == [x, y]
    ensures var r, f := Visit(e, node, s), Follow(e, y, Follow(e, x, Enter(node, s)));
            r.white == f.white && r.cycles == f.cycles
  {
    assert [x, y][..1] == [x] && [x][..0] == [];
    assert Explore(e, [x], Enter(node, s)) == Follow(e, x, Enter(node, s));
    assert Explore(e, [x, y], Enter(node, s)) == Follow(e, y, Follow(e, x, Enter(node, s)));
  }

  /** The edge back to the bottom of an ascending stack reports the whole stack. */
  lemma WholeStackReported(e: set<Edge>, x: nat, s: Dfs)
    requires s.stack != [] && s.stack[0] == x && Ascending(s.stack) && s.cycles == []
    ensures Follow(e, x, s).cycles == [s.stack] && Follow(e, x, s).white == s.white
  {
    ListingOf(s.stack);
    assert x in s.stack && IndexIn(s.stack, x) == 0;
    assert s.stack[0..] == s.stack;
  }

  lemma ThreeAscend(a: nat, b: nat, c: nat, s: seq<nat>)
    requires a < b < c && s == [a, b, c]
    ensures Ascending(s) && s != [] && s[0] == a
  {
  }

  lemma ChordedVisitC(e: set<Edge>, a: nat, b: nat, c: nat, s: Dfs)
    requires a < b < c && Listing(Upstream(e, c)) == [a]
    requires s.stack == [a, b] && s.white == {c} && s.cycles == []
    ensures var r := Visit(e, c, s); r.white == {} && r.cycles == [[a, b, c]]
  {
    var d := Enter(c, s);
    assert d.stack == [a, b, c];
    ThreeAscend(a, b, c, d.stack);
    WholeStackReported(e, a, d);
    VisitOne(e, c, s, a);
  }

  lemma ChordedVisitB(e: set<Edge>, a: nat, b: nat, c: nat, s: Dfs)
    requires a < b < c && Listing(Upstream(e, b)) == [c] && Listing(Upstream(e, c)) == [a]
    requires s.stack == [a] && s.white == {b, c} && s.cycles == []
    ensures var r := Visit(e, b, s); r.white == {} && r.cycles == [[a, b, c]]
  {
    VisitOne(e, b, s, c);
    EnterSecond(a, b, c, s);
    var d := Enter(b, s);
    ChordedVisitC(e, a, b, c, d.(tree := d.tree + {Edge(b, c)}));
  }

  lemma EnterSecond(a: nat, b: nat, c: nat, s: Dfs)
    requires a < b < c && s.stack == [a] && s.white == {b, c}
    ensures var d := Enter(b, s); d.stack == [a, b] && d.white == {c} && d.Top() == b && d.cycles == s.cycles
  {
  }

  lemma EnterFirst(a: nat, b: nat, c: nat, s: Dfs)
    requires a < b < c && s.stack == [] && s.white == {a, b, c}
    ensures var d := Enter(a, s); d.stack == [a] && d.white == {b, c} && d.Top() == a && d.cycles == s.cycles
  {
  }

  lemma ChordedVisitA(e: set<Edge>, a: nat, b: nat, c: nat, s: Dfs)
    requires a < b < c && Listing(Upstream(e, a)) == [b, c]
    requires Listing(Upstream(e, b)) == [c] && Listing(Upstream(e, c)) == [a]
    requires s.stack == [] && s.white == {a, b, c} && s.cycles == []
    ensures var r := Visit(e, a, s); r.white == {} && r.cycles == [[a, b, c]]
  {
    VisitTwo(e, a, s, b, c);
    var d := Enter(a, s);
    EnterFirst(a, b, c, s);
    ChordedVisitB(e, a, b, c, d.(tree := d.tree + {Edge(a, b)}));
  }

  lemma ChordedSearch(e: set<Edge>, a: nat, b: nat, c: nat)
    requires Chorded(e, a, b, c)
    ensures Search(e).cycles == [[a, b, c]]
  {
    ChordedIssues(e, a, b, c);
    ChordedUpstream(e, a, b, c);
    ChordedVisitA(e, a, b, c, Start(e));
    OnlyFirstRoot(e, [a, b, c], Start(e));
  }

  lemma OnlyFirstRoot(e: set<Edge>, roots: seq<nat>, s: Dfs)
    requires |roots| == 3 && roots[0] in s.white && Visit(e, roots[0], s).white == {}
    ensures VisitRoots(e, roots, s) == Visit(e, roots[0], s)
  {
    assert roots[..2][..1] == roots[..1] && roots[..1][..0] == [];
    assert VisitRoots(e, roots[..1], s) == Visit(e, roots[0], s);
    assert VisitRoots(e, roots[..2], s) == Visit(e, roots[0], s);
  }

  /** The promise to find "every distinct dependency cycle" fails: on such a graph the cycle of `a`
      and `c` alone is never reported. */
  lemma DistinctCycleMissed(e: set<Edge>, a: nat, b: nat, c: nat)
    requires Chorded(e, a, b, c)
    ensures Cycles(e) == [[a, b, c]]
    ensures SimpleCycle(e, [a, c]) && Listing(Elements([a, c])) == [a, c]
    ensures !ReportsEveryCycle(e)
  {
    ChordedSearch(e, a, b, c);
    SortSingleton([a, b, c]);
    ShortCycle(e, a, b, c);
    NotAmong([a, c], [a, b, c], Cycles(e));
  }

  lemma ShortCycle(e: set<Edge>, a: nat, b: nat, c: nat)
    requires Chorded(e, a, b, c)
    ensures SimpleCycle(e, [a, c]) && Listing(Elements([a, c])) == [a, c]
  {
    ListingOf([a, c]);
  }

  lemma NotAmong(x: seq<nat>, y: seq<nat>, found: seq<seq<nat>>)
    requires found == [y] && |x| != |y|
    ensures x !in found
  {
  }

  lemma SortSingleton(c: seq<nat>)
    ensures StableSort(Head, [c]) == [c]
  {
    assert [c][1..] == [];
  }

  // ---- acyclic graphs ----

  lemma ReportMeansCycle(edges: set<Edge>)
    requires Cycles(edges) != []
    ensures exists w: seq<nat> :: SimpleCycle(edges, w)
  {
    ReportedCyclesAreCycles(edges);
    var c := Cycles(edges)[0];
    assert c in Cycles(edges);
    assert IsCycleSet(edges, c);
    var w: seq<nat> :| SimpleCycle(edges, w) && c == Listing(Elements(w));
  }

  /** `findCycles` answers `[]` exactly when the graph has no directed cycle. */
  lemma EmptyExactlyWhenAcyclic(edges: set<Edge>)
    ensures Cycles(edges) == [] <==> forall w: seq<nat> :: !SimpleCycle(edges, w)
  {
    if w: seq<nat> :| SimpleCycle(edges, w) { EveryCycleIsCovered(edges, w); }
    if Cycles(edges) != [] { ReportMeansCycle(edges); }
  }

  /** An order in which every issue can be picked: whatever it waits on comes before it. */
  ghost predicate PickOrder(edges: set<Edge>, order: seq<nat>) {
    && Distinct(order) && Elements(order) == Issues(edges)
    && forall e :: e in edges ==>
         e.child in order && e.upstream in order && IndexIn(order, e.upstream) < IndexIn(order, e.child)
  }

  /** The pick loop can finish every issue exactly when `findCycles` reports nothing. */
  lemma NoCyclesExactlyWhenPickable(edges: set<Edge>)
    ensures Cycles(edges) == [] <==> exists order: seq<nat> :: PickOrder(edges, order)
  {
    EmptyExactlyWhenAcyclic(edges);
    if Cycles(edges) == [] {
      FinishingOrderIsPickOrder(edges);
    }
    forall w: seq<nat>, order: seq<nat> | PickOrder(edges, order) ensures !SimpleCycle(edges, w) {
      PickOrderRefutesCycle(edges, order, w);
    }
  }

  lemma FinishingOrderIsPickOrder(edges: set<Edge>)
    requires Cycles(edges) == []
    ensures PickOrder(edges, Search(edges).finished)
  {
    SearchKeeps(edges);
    var s := Search(edges);
    StableSortMembers(Head, s.cycles);
    forall e | e in edges
      ensures e.child in s.finished && e.upstream in s.finished
      ensures IndexIn(s.finished, e.upstream) < IndexIn(s.finished, e.child)
    {
      EveryEdgeClassified(edges, e);
      if Back(edges, s, e.child, e.upstream) { BackIsCovered(edges, e.child, e.upstream); }
    }
  }

  lemma PickOrderRefutesCycle(edges: set<Edge>, order: seq<nat>, w: seq<nat>)
    requires PickOrder(edges, order)
    ensures !SimpleCycle(edges, w)
  {
    RankRefutesCycle(edges, Rank(order), w);
  }

  /** No cycle follows edges that all lower a rank. */
  lemma RankRefutesCycle(edges: set<Edge>, rank: nat -> int, w: seq<nat>)
    requires forall e :: e in edges ==> rank(e.upstream) < rank(e.child)
    ensures !SimpleCycle(edges, w)
  {
    if w != [] {
      var i := LowestOf(rank, w);
      assert rank(w[i]) <= rank(Next(w, i));
      assert Edge(w[i], Next(w, i)) !in edges;
    }
  }
}
