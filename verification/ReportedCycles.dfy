/** What `findCycles` reports and in which order, read off the graph: the cycles closed by an edge back
    along the discovery tree, by the lexicographic order of the paths that close them. */
module ReportedCycles {
  import opened Ordering
  import opened DependencyGraph
  import opened CycleProperties
  import opened DiscoveryOrder

  // ---- lexicographic order ----

  ghost predicate LessAt(a: seq<nat>, b: seq<nat>, n: nat) {
    n <= |a| && n < |b| && a[..n] == b[..n] && (n == |a| || a[n] < b[n])
  }

  /** `a` is a proper prefix of `b`, or smaller where they first differ. */
  ghost predicate Less(a: seq<nat>, b: seq<nat>) {
    exists n: nat :: LessAt(a, b, n)
  }

  ghost predicate LexAscending(paths: seq<seq<nat>>) {
    forall i, j :: 0 <= i < j < |paths| ==> Less(paths[i], paths[j])
  }

  lemma LessTransitive(a: seq<nat>, b: seq<nat>, c: seq<nat>)
    requires Less(a, b) && Less(b, c)
    ensures Less(a, c)
  {
    var m: nat :| LessAt(a, b, m);
    var n: nat :| LessAt(b, c, n);
    var k := if m <= n then m else n;
    assert a[..k] == a[..m][..k] && b[..k] == b[..m][..k] && b[..k] == b[..n][..k] && c[..k] == c[..n][..k];
    assert m < n ==> b[..n][m] == c[..n][m];
    assert n < m ==> a[..m][n] == b[..m][n];
    assert LessAt(a, c, k);
  }

  lemma LessAsymmetric(a: seq<nat>, b: seq<nat>)
    requires Less(a, b)
    ensures !Less(b, a) && a != b
  {
    var m: nat :| LessAt(a, b, m);
    forall n: nat ensures !LessAt(b, a, n) {
      if n < |a| && n < m { assert a[..m][n] == b[..m][n]; }
      if m < n && n <= |b| && n < |a| { assert a[..n][m] == b[..n][m] || a[..n] != b[..n]; }
    }
  }

  /** A list in lexicographic order is determined by its members. */
  lemma {:induction false} LexCanonical(a: seq<seq<nat>>, b: seq<seq<nat>>)
    requires LexAscending(a) && LexAscending(b)
    requires forall q :: q in a <==> q in b
    ensures a == b
  {
    assert a != [] ==> a[0] in b;
    assert b != [] ==> b[0] in a;
    if a == [] {
    } else {
      var m, n := |a| - 1, |b| - 1;
      LastsAgree(a, b);
      LexFront(a);
      LexFront(b);
      forall q ensures q in a[..m] <==> q in b[..n] {
        assert q in a[..m] <==> q in a && q != a[m];
        assert q in b[..n] <==> q in b && q != b[n];
      }
      LexCanonical(a[..m], b[..n]);
      assert a == a[..m] + [a[m]] && b == b[..n] + [b[n]];
    }
  }

  lemma LexFront(a: seq<seq<nat>>)
    requires LexAscending(a) && a != []
    ensures LexAscending(a[..|a| - 1])
    ensures forall q :: q in a[..|a| - 1] <==> q in a && q != a[|a| - 1]
  {
    var n := |a| - 1;
    forall i | 0 <= i < n ensures a[i] != a[n] { LessAsymmetric(a[i], a[n]); }
  }

  lemma LastsAgree(a: seq<seq<nat>>, b: seq<seq<nat>>)
    requires LexAscending(a) && LexAscending(b) && a != [] && b != []
    requires forall q :: q in a <==> q in b
    ensures a[|a| - 1] == b[|b| - 1]
  {
    var x, y := a[|a| - 1], b[|b| - 1];
    assert x in b && y in a;
    if x != y {
      var i :| 0 <= i < |b| && b[i] == x;
      var j :| 0 <= j < |a| && a[j] == y;
      assert Less(x, y) && Less(y, x);
      LessAsymmetric(x, y);
    }
  }

  // ---- the paths along which the tree is closed ----

  /** A branch from where the search started anew. */
  ghost predicate RootPath(tree: set<Edge>, p: seq<nat>) {
    p != [] && Walk(tree, p) && !HasParent(tree, p[0])
  }

  /** `q` runs down a branch and then back to an issue on it. */
  ghost predicate Closing(edges: set<Edge>, tree: set<Edge>, q: seq<nat>) {
    && |q| >= 2 && RootPath(tree, q[..|q| - 1])
    && q[|q| - 1] in q[..|q| - 1] && Edge(q[|q| - 2], q[|q| - 1]) in edges
  }

  /** The issues of the cycle that `q` closes. */
  ghost function CycleOf(q: seq<nat>): seq<nat> {
    if q != [] && q[|q| - 1] in q[..|q| - 1]
    then Listing(Elements(q[IndexIn(q[..|q| - 1], q[|q| - 1])..|q| - 1]))
    else []
  }

  /** The cycles the paths close, each once, in order. */
  ghost function CyclesOf(paths: seq<seq<nat>>): seq<seq<nat>> {
    if paths == [] then [] else
      var front, c := CyclesOf(paths[..|paths| - 1]), CycleOf(paths[|paths| - 1]);
      if c in front then front else front + [c]
  }

  // ---- the search closes them in that order ----

  ghost predicate Below(paths: seq<seq<nat>>, stack: seq<nat>, next: nat) {
    forall q :: q in paths ==> Less(q, stack + [next])
  }

  /** Everything closed so far comes before `stack` followed by anything greater than the `nexts`. */
  ghost predicate BelowPast(paths: seq<seq<nat>>, stack: seq<nat>, nexts: seq<nat>) {
    forall m: nat :: (forall x :: x in nexts ==> x < m) ==> Below(paths, stack, m)
  }

  ghost predicate Rises(s: Dfs) {
    LexAscending(s.closings) && s.cycles == CyclesOf(s.closings)
  }

  lemma SiblingsLess(stack: seq<nat>, x: nat, y: nat)
    requires x < y
    ensures Less(stack + [x], stack + [y])
  {
    assert (stack + [x])[..|stack|] == (stack + [y])[..|stack|];
    assert LessAt(stack + [x], stack + [y], |stack|);
  }

  lemma ChildLess(stack: seq<nat>, x: nat, y: nat, z: nat)
    ensures Less(stack + [x], stack + [x] + [z])
    ensures x < y ==> Less(stack + [x] + [z], stack + [y])
  {
    assert (stack + [x] + [z])[..|stack| + 1] == stack + [x];
    assert LessAt(stack + [x], stack + [x] + [z], |stack| + 1);
    if x < y {
      assert (stack + [x] + [z])[..|stack|] == (stack + [y])[..|stack|];
      assert LessAt(stack + [x] + [z], stack + [y], |stack|);
    }
  }

  lemma BelowNext(paths: seq<seq<nat>>, stack: seq<nat>, x: nat, y: nat)
    requires Below(paths, stack, x) && x < y
    ensures Below(paths, stack, y)
  {
    SiblingsLess(stack, x, y);
    forall q | q in paths ensures Less(q, stack + [y]) { LessTransitive(q, stack + [x], stack + [y]); }
  }

  lemma BelowChild(paths: seq<seq<nat>>, stack: seq<nat>, x: nat, z: nat)
    requires Below(paths, stack, x)
    ensures Below(paths, stack + [x], z)
  {
    ChildLess(stack, x, x, z);
    forall q | q in paths ensures Less(q, stack + [x] + [z]) {
      LessTransitive(q, stack + [x], stack + [x] + [z]);
    }
  }

  lemma BelowParent(paths: seq<seq<nat>>, stack: seq<nat>, x: nat, z: nat, y: nat)
    requires Below(paths, stack + [x], z) && x < y
    ensures Below(paths, stack, y)
  {
    ChildLess(stack, x, y, z);
    forall q | q in paths ensures Less(q, stack + [y]) { LessTransitive(q, stack + [x] + [z], stack + [y]); }
  }

  lemma Past(nexts: seq<nat>) returns (m: nat)
    ensures forall x :: x in nexts ==> x < m
  {
    if Elements(nexts) == {} {
      m := 0;
      assert forall x :: x in nexts ==> x in Elements(nexts);
    } else {
      m := Greatest(Elements(nexts)) + 1;
      assert forall x :: x in nexts ==> x in Elements(nexts);
    }
  }

  lemma CyclesOfOneMore(paths: seq<seq<nat>>, q: seq<nat>)
    ensures var front, c := CyclesOf(paths), CycleOf(q);
            CyclesOf(paths + [q]) == if c in front then front else front + [c]
  {
    assert (paths + [q])[..|paths|] == paths;
  }

  lemma CycleOfStack(stack: seq<nat>, next: nat)
    requires next in stack
    ensures CycleOf(stack + [next]) == Listing(Elements(stack[IndexIn(stack, next)..]))
  {
    var q := stack + [next];
    assert q[..|q| - 1] == stack && q[|q| - 1] == next;
    assert q[IndexIn(stack, next)..|q| - 1] == stack[IndexIn(stack, next)..];
  }

  lemma LexOnward(paths: seq<seq<nat>>, q: seq<nat>)
    requires LexAscending(paths) && forall p :: p in paths ==> Less(p, q)
    ensures LexAscending(paths + [q]) && q !in paths
  {
    if q in paths { LessAsymmetric(q, q); }
  }

  lemma RecordRises(s: Dfs, next: nat)
    requires Rises(s) && next in s.stack && Below(s.closings, s.stack, next)
    ensures Rises(Record(s, next)) && Record(s, next).closings == s.closings + [s.stack + [next]]
  {
    LexOnward(s.closings, s.stack + [next]);
    CycleOfStack(s.stack, next);
    CyclesOfOneMore(s.closings, s.stack + [next]);
  }

  lemma {:induction false} VisitRises(edges: set<Edge>, node: nat, s: Dfs)
    requires node in s.white && Rises(s) && Below(s.closings, s.stack, node)
    ensures var r := Visit(edges, node, s); Rises(r) && BelowPast(r.closings, s.stack, [node])
    decreases s.white, 0, 0
  {
    var nexts := Listing(Upstream(edges, node));
    var entered := Enter(node, s);
    forall z: nat ensures Below(s.closings, entered.stack, z) { BelowChild(s.closings, s.stack, node, z); }
    ExploreRises(edges, nexts, entered);
    var e := Explore(edges, nexts, entered);
    var z := Past(nexts);
    assert Below(e.closings, s.stack + [node], z);
    forall m: nat | forall x :: x in [node] ==> x < m ensures Below(e.closings, s.stack, m) {
      assert node in [node];
      BelowParent(e.closings, s.stack, node, z, m);
    }
  }

  lemma {:induction false} FollowRises(edges: set<Edge>, next: nat, s: Dfs)
    requires s.stack != [] && Rises(s) && Below(s.closings, s.stack, next)
    ensures var r := Follow(edges, next, s); Rises(r) && BelowPast(r.closings, s.stack, [next])
    decreases s.white, 1, 0
  {
    if next in s.stack {
      RecordRises(s, next);
      RecordedBelow(s.closings, s.stack, next);
    } else if next in s.white {
      VisitRises(edges, next, s.(tree := s.tree + {Edge(s.Top(), next)}));
    } else {
      PastOne(s.closings, s.stack, next);
    }
  }

  lemma PastOne(paths: seq<seq<nat>>, stack: seq<nat>, next: nat)
    requires Below(paths, stack, next)
    ensures BelowPast(paths, stack, [next])
  {
    forall m: nat | forall x :: x in [next] ==> x < m ensures Below(paths, stack, m) {
      assert next in [next];
      BelowNext(paths, stack, next, m);
    }
  }

  lemma RecordedBelow(paths: seq<seq<nat>>, stack: seq<nat>, next: nat)
    requires Below(paths, stack, next)
    ensures BelowPast(paths + [stack + [next]], stack, [next])
  {
    forall m: nat | forall x :: x in [next] ==> x < m ensures Below(paths + [stack + [next]], stack, m) {
      assert next in [next];
      BelowNext(paths, stack, next, m);
      SiblingsLess(stack, next, m);
    }
  }

  lemma {:induction false} ExploreRises(edges: set<Edge>, nexts: seq<nat>, s: Dfs)
    requires s.stack != [] && Rises(s) && Ascending(nexts)
    requires forall z: nat :: Below(s.closings, s.stack, z)
    ensures var r := Explore(edges, nexts, s); Rises(r) && BelowPast(r.closings, s.stack, nexts)
    decreases s.white, 2, |nexts|
  {
    if nexts == [] {
    } else {
      var n := |nexts| - 1;
      var front, next := nexts[..n], nexts[n];
      ExploreRises(edges, front, s);
      var mid := Explore(edges, front, s);
      assert forall x :: x in front ==> x < next;
      FollowRises(edges, next, mid);
      PastLast(Follow(edges, next, mid).closings, s.stack, nexts);
    }
  }

  lemma PastLast(paths: seq<seq<nat>>, stack: seq<nat>, nexts: seq<nat>)
    requires nexts != [] && BelowPast(paths, stack, [nexts[|nexts| - 1]])
    ensures BelowPast(paths, stack, nexts)
  {
    forall m: nat | forall x :: x in nexts ==> x < m ensures Below(paths, stack, m) {
      assert nexts[|nexts| - 1] in nexts;
    }
  }

  lemma {:induction false} RootsRise(edges: set<Edge>, roots: seq<nat>, s: Dfs)
    requires s.stack == [] && Rises(s) && Ascending(roots) && s.closings == []
    ensures var r := VisitRoots(edges, roots, s); Rises(r) && BelowPast(r.closings, [], roots)
  {
    if roots == [] {
    } else {
      var n := |roots| - 1;
      var front, root := roots[..n], roots[n];
      RootsRise(edges, front, s);
      var mid := VisitRoots(edges, front, s);
      assert forall x :: x in front ==> x < root;
      if root in mid.white { VisitRises(edges, root, mid); } else { PastOne(mid.closings, [], root); }
      PastLast(VisitRoots(edges, roots, s).closings, [], roots);
    }
  }

  // ---- every way to close the tree is met ----

  ghost predicate ClosedBy(paths: seq<seq<nat>>, u: nat, v: nat) {
    exists q :: q in paths && |q| >= 2 && q[|q| - 2] == u && q[|q| - 1] == v
  }

  ghost predicate Traced(s: Dfs, u: nat, v: nat) {
    Edge(u, v) in s.tree || Edge(u, v) in s.skipped || ClosedBy(s.closings, u, v)
  }

  ghost predicate TracedAll(s: Dfs, u: nat, nexts: seq<nat>) {
    forall v :: v in nexts ==> Traced(s, u, v)
  }

  /** Every edge of a finished issue is accounted for, and every noted path closes the tree. */
  ghost predicate Noted(edges: set<Edge>, s: Dfs) {
    && (forall e :: e in edges && e.child in s.finished ==> Traced(s, e.child, e.upstream))
    && (forall q :: q in s.closings ==> Closing(edges, s.tree, q) && q[0] !in s.white)
  }

  lemma ClosedByMore(a: seq<seq<nat>>, b: seq<seq<nat>>, u: nat, v: nat)
    requires a <= b && ClosedBy(a, u, v)
    ensures ClosedBy(b, u, v)
  {
    var q :| q in a && |q| >= 2 && q[|q| - 2] == u && q[|q| - 1] == v;
    assert q in b;
  }

  ghost predicate Later(s: Dfs, r: Dfs) {
    s.tree <= r.tree && s.skipped <= r.skipped && s.closings <= r.closings
  }

  lemma TracedLater(s: Dfs, r: Dfs, u: nat, v: nat)
    requires Traced(s, u, v) && Later(s, r)
    ensures Traced(r, u, v)
  {
    if ClosedBy(s.closings, u, v) { ClosedByMore(s.closings, r.closings, u, v); }
  }

  lemma TracedAllLater(s: Dfs, r: Dfs, u: nat, nexts: seq<nat>)
    requires TracedAll(s, u, nexts) && Later(s, r)
    ensures TracedAll(r, u, nexts)
  {
    forall v | v in nexts ensures Traced(r, u, v) { TracedLater(s, r, u, v); }
  }

  lemma StackCloses(edges: set<Edge>, s: Dfs, next: nat)
    requires Forest(edges, s) && next in s.stack && Edge(s.Top(), next) in edges
    ensures Closing(edges, s.tree, s.stack + [next])
  {
    var q := s.stack + [next];
    assert q[..|q| - 1] == s.stack && q[|q| - 2] == s.Top();
  }

  lemma RecordOnlyNotes(s: Dfs, next: nat)
    requires next in s.stack
    ensures var r, q := Record(s, next), s.stack + [next];
      && r.finished == s.finished && r.tree == s.tree && r.white == s.white && r.skipped == s.skipped
      && q in r.closings && (r.closings == s.closings || r.closings == s.closings + [q])
  {
    var q := s.stack + [next];
    assert (s.closings + [q])[|s.closings|] == q;
  }

  lemma RecordNotes(edges: set<Edge>, s: Dfs, next: nat)
    requires Inv(edges, s) && Noted(edges, s) && next in s.stack && Edge(s.Top(), next) in edges
    ensures var r := Record(s, next); Noted(edges, r) && Traced(r, s.Top(), next) && Later(s, r)
  {
    var r, q := Record(s, next), s.stack + [next];
    RecordOnlyNotes(s, next);
    StackCloses(edges, s, next);
    StackEnds(s.stack, next, r.closings);
    assert s.stack[0] in s.stack && q[0] == s.stack[0];
    NotedOn(edges, s, r, q);
  }

  lemma StackEnds(stack: seq<nat>, next: nat, paths: seq<seq<nat>>)
    requires stack != [] && stack + [next] in paths
    ensures ClosedBy(paths, stack[|stack| - 1], next)
  {
    var q := stack + [next];
    assert |q| >= 2 && q[|q| - 2] == stack[|stack| - 1] && q[|q| - 1] == next;
  }

  lemma NotedOn(edges: set<Edge>, s: Dfs, r: Dfs, q: seq<nat>)
    requires Noted(edges, s) && r.finished == s.finished && r.tree == s.tree && r.white == s.white
    requires Later(s, r) && (r.closings == s.closings || r.closings == s.closings + [q])
    requires Closing(edges, s.tree, q) && q[0] !in s.white
    ensures Noted(edges, r)
  {
    forall e | e in edges && e.child in r.finished ensures Traced(r, e.child, e.upstream) {
      TracedLater(s, r, e.child, e.upstream);
    }
    assert forall p :: p in r.closings ==> p in s.closings || p == q;
  }

  lemma SkipNotes(edges: set<Edge>, s: Dfs, e: Edge)
    requires Noted(edges, s)
    ensures Noted(edges, s.(skipped := s.skipped + {e})) && Later(s, s.(skipped := s.skipped + {e}))
  {
    var r := s.(skipped := s.skipped + {e});
    forall f | f in edges && f.child in r.finished ensures Traced(r, f.child, f.upstream) {
      TracedLater(s, r, f.child, f.upstream);
    }
  }

  lemma RootPathStays(tree: set<Edge>, e: Edge, p: seq<nat>)
    requires RootPath(tree, p) && e.upstream != p[0]
    ensures RootPath(tree + {e}, p)
  {
  }

  lemma EnterNotes(edges: set<Edge>, s: Dfs, node: nat)
    requires Noted(edges, s) && node in s.white
    ensures var r := Enter(node, Reached(s, node)); Noted(edges, r) && Later(s, r)
  {
    var r := Enter(node, Reached(s, node));
    forall e | e in edges && e.child in r.finished ensures Traced(r, e.child, e.upstream) {
      TracedLater(s, r, e.child, e.upstream);
    }
    forall q | q in r.closings ensures Closing(edges, r.tree, q) && q[0] !in r.white {
      if s.stack != [] { RootPathStays(s.tree, Edge(s.Top(), node), q[..|q| - 1]); }
    }
  }

  lemma FinishNotes(edges: set<Edge>, node: nat, stack: seq<nat>, e: Dfs)
    requires Noted(edges, e) && forall v :: Edge(node, v) in edges ==> Traced(e, node, v)
    ensures Noted(edges, e.(stack := stack, finished := e.finished + [node]))
  {
    var r := e.(stack := stack, finished := e.finished + [node]);
    forall f | f in edges && f.child in r.finished ensures Traced(r, f.child, f.upstream) {
      if f.child == node { assert f == Edge(node, f.upstream); }
      assert Traced(e, f.child, f.upstream);
    }
  }

  lemma {:induction false} VisitNotes(edges: set<Edge>, node: nat, s: Dfs)
    requires Inv(edges, s) && Noted(edges, s) && node in s.white
    requires s.stack != [] ==> Edge(s.Top(), node) in edges
    ensures var r := Visit(edges, node, Reached(s, node)); Noted(edges, r) && Later(Reached(s, node), r)
    decreases s.white, 0, 0
  {
    var entered := Enter(node, Reached(s, node));
    var nexts := Listing(Upstream(edges, node));
    EnterKeeps(edges, s, node);
    EnterNotes(edges, s, node);
    assert entered.stack[|s.stack|] == node;
    UpstreamLeads(edges, node);
    ExploreNotes(edges, nexts, entered);
    var e := Explore(edges, nexts, entered);
    FinishNotes(edges, node, s.stack, e);
  }

  lemma {:induction false} FollowNotes(edges: set<Edge>, next: nat, s: Dfs)
    requires Inv(edges, s) && Noted(edges, s) && s.stack != [] && Edge(s.Top(), next) in edges
    ensures var r := Follow(edges, next, s); Noted(edges, r) && Later(s, r) && Traced(r, s.Top(), next)
    decreases s.white, 1, 0
  {
    if next in s.stack {
      RecordNotes(edges, s, next);
    } else if next in s.white {
      VisitNotes(edges, next, s);
      TracedLater(Reached(s, next), Visit(edges, next, Reached(s, next)), s.Top(), next);
    } else {
      SkipNotes(edges, s, Edge(s.Top(), next));
    }
  }

  lemma {:induction false} ExploreNotes(edges: set<Edge>, nexts: seq<nat>, s: Dfs)
    requires Inv(edges, s) && Noted(edges, s) && s.stack != [] && Leads(edges, s.Top(), nexts)
    ensures var r := Explore(edges, nexts, s); Noted(edges, r) && Later(s, r) && TracedAll(r, s.Top(), nexts)
    decreases s.white, 2, |nexts|
  {
    if nexts == [] {
    } else {
      var n := |nexts| - 1;
      var front, next := nexts[..n], nexts[n];
      FrontAndLast(nexts);
      LeadsSplit(edges, s.Top(), front, next);
      ExploreNotes(edges, front, s);
      ExploreKeeps(edges, front, s);
      var mid := Explore(edges, front, s);
      SameTop(s, mid);
      FollowNotes(edges, next, mid);
      TracedAllLater(mid, Follow(edges, next, mid), s.Top(), front);
      TracedLast(Follow(edges, next, mid), s.Top(), front, next);
    }
  }

  lemma TracedLast(s: Dfs, u: nat, front: seq<nat>, next: nat)
    requires TracedAll(s, u, front) && Traced(s, u, next)
    ensures TracedAll(s, u, front + [next])
  {
  }

  lemma {:induction false} RootsNote(edges: set<Edge>, roots: seq<nat>)
    requires forall x :: x in roots ==> x in Issues(edges)
    ensures var r := VisitRoots(edges, roots, Start(edges)); Noted(edges, r) && Inv(edges, r) && r.stack == []
  {
    if roots == [] {
    } else {
      var n := |roots| - 1;
      FrontAndLast(roots);
      RootsNote(edges, roots[..n]);
      var mid := VisitRoots(edges, roots[..n], Start(edges));
      RootKeeps(edges, roots[n], mid);
      if roots[n] in mid.white { VisitNotes(edges, roots[n], mid); }
    }
  }

  // ---- what is reported ----

  lemma StepHasParent(tree: set<Edge>, q: seq<nat>, d: nat)
    requires Walk(tree, q) && 0 < d < |q|
    ensures HasParent(tree, q[d])
  {
    assert Edge(q[d - 1], q[d - 1 + 1]) in tree;
  }

  /** Two branches from where the search started anew to one issue are the same. */
  lemma RootPathUnique(tree: set<Edge>, rank: nat -> int, p: seq<nat>, q: seq<nat>)
    requires Ranked(tree, rank) && RootPath(tree, p) && RootPath(tree, q) && |p| <= |q|
    requires p[|p| - 1] == q[|q| - 1]
    ensures p == q
  {
    var d := |q| - |p|;
    BranchesAgree(tree, rank, p, q, |p| - 1);
    if d > 0 { StepHasParent(tree, q, d); }
    forall i | 0 <= i < |p| ensures p[i] == q[d + i] { BranchesAgree(tree, rank, p, q, |p| - 1 - i); }
  }

  ghost predicate Falls(edges: set<Edge>, rank: nat -> int) {
    forall e :: e in edges ==> rank(e.upstream) < rank(e.child)
  }

  /** An edge back to an issue of its own branch is neither a tree edge nor a skipped one. */
  lemma BackIsClosed(edges: set<Edge>, s: Dfs, rank: nat -> int, q: seq<nat>)
    requires Ranked(s.tree, rank) && Falls(s.skipped, rank) && Closing(edges, s.tree, q)
    requires Traced(s, q[|q| - 2], q[|q| - 1])
    ensures ClosedBy(s.closings, q[|q| - 2], q[|q| - 1])
  {
    var p, v := q[..|q| - 1], q[|q| - 1];
    var i :| 0 <= i < |p| && p[i] == v;
    if i < |p| - 1 { BranchFalls(s.tree, rank, p, i, |p| - 1); }
    assert rank(p[|p| - 1]) <= rank(v);
  }

  /** Two paths that close the tree along the same edge are the same. */
  lemma ClosingUnique(edges: set<Edge>, tree: set<Edge>, rank: nat -> int, q: seq<nat>, r: seq<nat>)
    requires Ranked(tree, rank) && Closing(edges, tree, q) && Closing(edges, tree, r)
    requires r[|r| - 2] == q[|q| - 2] && r[|r| - 1] == q[|q| - 1]
    ensures q == r
  {
    if |r| <= |q| {
      RootPathUnique(tree, rank, r[..|r| - 1], q[..|q| - 1]);
    } else {
      RootPathUnique(tree, rank, q[..|q| - 1], r[..|r| - 1]);
    }
    FrontAndLast(q);
    FrontAndLast(r);
  }

  /** What was noted is all there is to note. */
  lemma NotedAll(edges: set<Edge>, s: Dfs, rank: nat -> int, q: seq<nat>)
    requires Noted(edges, s) && Elements(s.finished) == Issues(edges)
    requires Ranked(s.tree, rank) && Falls(s.skipped, rank)
    ensures q in s.closings <==> Closing(edges, s.tree, q)
  {
    if Closing(edges, s.tree, q) {
      var e := Edge(q[|q| - 2], q[|q| - 1]);
      assert e.child in Elements(s.finished);
      BackIsClosed(edges, s, rank, q);
      var r :| r in s.closings && |r| >= 2 && r[|r| - 2] == q[|q| - 2] && r[|r| - 1] == q[|q| - 1];
      ClosingUnique(edges, s.tree, rank, q, r);
    }
  }

  lemma ClosingsExactly(edges: set<Edge>, q: seq<nat>)
    ensures q in Search(edges).closings <==> Closing(edges, Search(edges).tree, q)
  {
    var s, rank := Search(edges), Rank(Search(edges).finished);
    RootsNote(edges, Listing(Issues(edges)));
    SearchKeeps(edges);
    SearchIsRanked(edges);
    forall e | e in s.skipped ensures rank(e.upstream) < rank(e.child) { SkippedFalls(edges, e); }
    NotedAll(edges, s, rank, q);
  }

  ghost predicate ListsClosings(edges: set<Edge>, tree: set<Edge>, paths: seq<seq<nat>>) {
    LexAscending(paths) && forall q :: q in paths <==> Closing(edges, tree, q)
  }

  lemma SearchListsClosings(edges: set<Edge>)
    ensures ListsClosings(edges, Search(edges).tree, Search(edges).closings)
    ensures Search(edges).cycles == CyclesOf(Search(edges).closings)
  {
    RootsRise(edges, Listing(Issues(edges)), Start(edges));
    forall q ensures q in Search(edges).closings <==> Closing(edges, Search(edges).tree, q) {
      ClosingsExactly(edges, q);
    }
  }

  /** There is a discovery order, and a list of the paths that close its tree. */
  lemma OrderAndClosingsExist(edges: set<Edge>) returns (order: seq<nat>, paths: seq<seq<nat>>)
    ensures Discovery(edges, order) && ListsClosings(edges, DiscoveryTree(edges, order), paths)
  {
    SearchDiscovers(edges);
    SearchListsClosings(edges);
    order, paths := Search(edges).entered, Search(edges).closings;
  }

  /** What `findCycles` answers, read off the graph: take the issues in discovery order; take the paths that
      run down the tree this makes and then back to one of their own issues, in lexicographic order; report
      the cycle each closes, once, sorted by smallest member, ties in that order. */
  lemma ReportsExactly(edges: set<Edge>, order: seq<nat>, paths: seq<seq<nat>>)
    requires Discovery(edges, order) && ListsClosings(edges, DiscoveryTree(edges, order), paths)
    ensures Cycles(edges) == StableSort(Head, CyclesOf(paths))
  {
    SearchDiscovers(edges);
    DiscoveryUnique(edges, order, Search(edges).entered);
    SearchListsClosings(edges);
    LexCanonical(paths, Search(edges).closings);
  }
}
