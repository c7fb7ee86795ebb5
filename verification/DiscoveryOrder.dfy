/** The answer of `findCycles` without its search: the order in which issues are discovered and the tree
    of first visits are read off the graph, and the reported cycles off that tree. */
module DiscoveryOrder {
  import opened Ordering
  import opened DependencyGraph
  import opened CycleProperties

  // ---- the order, read off the graph ----

  /** `u` waits on an issue that is not among `seen`. */
  ghost predicate Open(edges: set<Edge>, seen: seq<nat>, u: nat) {
    exists v :: Edge(u, v) in edges && v !in seen
  }

  ghost predicate AllClosed(edges: set<Edge>, seen: seq<nat>) {
    forall i :: 0 <= i < |seen| ==> !Open(edges, seen, seen[i])
  }

  /** The latest of the `seen` that is still open stands at `i`. */
  ghost predicate LastOpen(edges: set<Edge>, seen: seq<nat>, i: nat) {
    && i < |seen| && Open(edges, seen, seen[i])
    && forall j :: i < j < |seen| ==> !Open(edges, seen, seen[j])
  }

  /** The smallest issue not yet seen. */
  ghost predicate NextRoot(edges: set<Edge>, seen: seq<nat>, v: nat) {
    && v in Issues(edges) && v !in seen
    && forall x :: x in Issues(edges) && x !in seen ==> v <= x
  }

  /** The smallest issue not yet seen that `u` waits on. */
  ghost predicate NextFrom(edges: set<Edge>, seen: seq<nat>, u: nat, v: nat) {
    && Edge(u, v) in edges && v !in seen
    && forall x :: Edge(u, x) in edges && x !in seen ==> v <= x
  }

  /** Whom the depth-first order takes after `seen`. */
  ghost predicate Chosen(edges: set<Edge>, seen: seq<nat>, v: nat) {
    if AllClosed(edges, seen) then NextRoot(edges, seen, v)
    else exists i: nat :: LastOpen(edges, seen, i) && NextFrom(edges, seen, seen[i], v)
  }

  ghost predicate ChosenAll(edges: set<Edge>, order: seq<nat>) {
    forall k :: 0 <= k < |order| ==> Chosen(edges, order[..k], order[k])
  }

  /** All issues, each taken after those before it. */
  ghost predicate Discovery(edges: set<Edge>, order: seq<nat>) {
    Distinct(order) && Elements(order) == Issues(edges) && ChosenAll(edges, order)
  }

  /** The `k`-th issue was discovered from `u`. */
  ghost predicate FoundFrom(edges: set<Edge>, order: seq<nat>, k: nat, u: nat) {
    k < |order| && exists i: nat :: LastOpen(edges, order[..k], i) && order[i] == u
  }

  ghost predicate Parent(edges: set<Edge>, order: seq<nat>, u: nat, v: nat) {
    exists k: nat :: FoundFrom(edges, order, k, u) && order[k] == v
  }

  ghost function DiscoveryTree(edges: set<Edge>, order: seq<nat>): set<Edge> {
    set e | e in edges && Parent(edges, order, e.child, e.upstream)
  }

  lemma LastOpenUnique(edges: set<Edge>, seen: seq<nat>, i: nat, j: nat)
    requires LastOpen(edges, seen, i) && LastOpen(edges, seen, j)
    ensures i == j
  {
  }

  lemma ChosenUnique(edges: set<Edge>, seen: seq<nat>, v: nat, w: nat)
    requires Chosen(edges, seen, v) && Chosen(edges, seen, w)
    ensures v == w
  {
    if !AllClosed(edges, seen) {
      var i: nat :| LastOpen(edges, seen, i) && NextFrom(edges, seen, seen[i], v);
      var j: nat :| LastOpen(edges, seen, j) && NextFrom(edges, seen, seen[j], w);
      LastOpenUnique(edges, seen, i, j);
    }
  }

  lemma AgreeOneMore(edges: set<Edge>, a: seq<nat>, b: seq<nat>, n: nat)
    requires n < |a| && n < |b| && a[..n] == b[..n]
    requires Chosen(edges, a[..n], a[n]) && Chosen(edges, b[..n], b[n])
    ensures a[..n + 1] == b[..n + 1]
  {
    ChosenUnique(edges, a[..n], a[n], b[n]);
    assert a[..n + 1] == a[..n] + [a[n]] && b[..n + 1] == b[..n] + [b[n]];
  }

  lemma {:induction false} DiscoveriesAgree(edges: set<Edge>, a: seq<nat>, b: seq<nat>, k: nat)
    requires ChosenAll(edges, a) && ChosenAll(edges, b) && k <= |a| && k <= |b|
    ensures a[..k] == b[..k]
  {
    if k == 0 {
    } else {
      DiscoveriesAgree(edges, a, b, k - 1);
      AgreeOneMore(edges, a, b, k - 1);
    }
  }

  /** A graph has one discovery order. */
  lemma DiscoveryUnique(edges: set<Edge>, a: seq<nat>, b: seq<nat>)
    requires Discovery(edges, a) && Discovery(edges, b)
    ensures a == b
  {
    DistinctCount(a);
    DistinctCount(b);
    DiscoveriesAgree(edges, a, b, |a|);
    assert a[..|a|] == a && b[..|b|] == b;
  }

  // ---- the search discovers in that order ----

  /** Every issue of `stack` was entered before those above it. */
  ghost predicate Rising(entered: seq<nat>, stack: seq<nat>) {
    && (forall x :: x in stack ==> x in entered)
    && forall i, j :: 0 <= i < j < |stack| ==> IndexIn(entered, stack[i]) < IndexIn(entered, stack[j])
  }

  ghost predicate Entered(edges: set<Edge>, s: Dfs) {
    && Distinct(s.entered)
    && (forall x :: x in s.entered <==> x in s.stack || x in s.finished)
    && Rising(s.entered, s.stack)
    && forall i :: 0 <= i < |s.finished| ==> !Open(edges, s.entered, s.finished[i])
  }

  ghost predicate InOrder(edges: set<Edge>, s: Dfs) {
    Entered(edges, s) && ChosenAll(edges, s.entered) && s.tree == DiscoveryTree(edges, s.entered)
  }

  /** `node` is the one to enter next: from the top of the stack, or as a root. */
  ghost predicate Due(edges: set<Edge>, s: Dfs, node: nat) {
    if s.stack == [] then NextRoot(edges, s.entered, node) else NextFrom(edges, s.entered, s.Top(), node)
  }

  ghost function Reached(s: Dfs, node: nat): Dfs {
    if s.stack == [] then s else s.(tree := s.tree + {Edge(s.Top(), node)})
  }

  lemma FinishedAreClosed(edges: set<Edge>, s: Dfs, x: nat)
    requires Entered(edges, s) && x in s.finished
    ensures !Open(edges, s.entered, x)
  {
    var i :| 0 <= i < |s.finished| && s.finished[i] == x;
  }

  lemma IndexOfNth(s: seq<nat>, i: nat)
    requires Distinct(s) && i < |s|
    ensures s[i] in s && IndexIn(s, s[i]) == i
  {
    FirstIndex(s, s[i], i);
  }

  /** The top of the stack, if it is open, is the latest open one. */
  lemma TopIsLastOpen(edges: set<Edge>, s: Dfs)
    requires Entered(edges, s) && s.stack != [] && Open(edges, s.entered, s.Top())
    ensures s.Top() in s.stack && s.Top() in s.entered
    ensures LastOpen(edges, s.entered, IndexIn(s.entered, s.Top()))
  {
    var n := |s.stack| - 1;
    assert s.stack[n] in s.stack;
    var i := IndexIn(s.entered, s.Top());
    forall j | i < j < |s.entered| ensures !Open(edges, s.entered, s.entered[j]) {
      IndexOfNth(s.entered, j);
      if s.entered[j] in s.stack {
        TopIsLatest(s, s.entered[j]);
      } else {
        FinishedAreClosed(edges, s, s.entered[j]);
      }
    }
  }

  lemma TopIsLatest(s: Dfs, x: nat)
    requires s.stack != [] && Rising(s.entered, s.stack) && x in s.stack
    ensures s.Top() in s.entered && x in s.entered && IndexIn(s.entered, x) <= IndexIn(s.entered, s.Top())
  {
    var n := |s.stack| - 1;
    assert s.stack[n] in s.stack;
    var i :| 0 <= i < |s.stack| && s.stack[i] == x;
    if i < n { assert IndexIn(s.entered, s.stack[i]) < IndexIn(s.entered, s.stack[n]); }
  }

  lemma NobodyOpen(edges: set<Edge>, s: Dfs)
    requires Entered(edges, s) && s.stack == []
    ensures AllClosed(edges, s.entered)
  {
    forall i | 0 <= i < |s.entered| ensures !Open(edges, s.entered, s.entered[i]) {
      assert s.entered[i] in s.entered;
      FinishedAreClosed(edges, s, s.entered[i]);
    }
  }

  lemma DueIsChosen(edges: set<Edge>, s: Dfs, node: nat)
    requires Entered(edges, s) && Due(edges, s, node)
    ensures Chosen(edges, s.entered, node)
    ensures s.stack != [] ==> s.Top() in s.entered && LastOpen(edges, s.entered, IndexIn(s.entered, s.Top()))
  {
    if s.stack == [] {
      NobodyOpen(edges, s);
    } else {
      assert Open(edges, s.entered, s.Top());
      TopIsLastOpen(edges, s);
      assert s.entered[IndexIn(s.entered, s.Top())] == s.Top();
      assert !AllClosed(edges, s.entered);
    }
  }

  lemma ChosenOnward(edges: set<Edge>, order: seq<nat>, node: nat)
    requires ChosenAll(edges, order) && Chosen(edges, order, node)
    ensures ChosenAll(edges, order + [node])
  {
    var all := order + [node];
    forall k | 0 <= k < |all| ensures Chosen(edges, all[..k], all[k]) {
      assert all[..k] == order[..k];
      if k == |order| { assert order[..k] == order; }
    }
  }

  /** Nobody found before is found from elsewhere after. */
  lemma FoundSame(edges: set<Edge>, order: seq<nat>, node: nat, k: nat, u: nat)
    requires k < |order|
    ensures FoundFrom(edges, order + [node], k, u) <==> FoundFrom(edges, order, k, u)
  {
    var all := order + [node];
    assert all[..k] == order[..k];
    assert forall i: nat :: i < k ==> all[i] == order[i];
  }

  lemma FoundLast(edges: set<Edge>, order: seq<nat>, node: nat, u: nat)
    ensures FoundFrom(edges, order + [node], |order|, u)
       <==> exists i: nat :: LastOpen(edges, order, i) && order[i] == u
  {
    var all := order + [node];
    assert all[..|order|] == order;
    assert forall i: nat :: i < |order| ==> all[i] == order[i];
  }

  lemma ParentOnward(edges: set<Edge>, order: seq<nat>, node: nat, u: nat, v: nat)
    ensures Parent(edges, order + [node], u, v)
       <==> Parent(edges, order, u, v) || (v == node && exists i: nat :: LastOpen(edges, order, i) && order[i] == u)
  {
    var all := order + [node];
    FoundLast(edges, order, node, u);
    forall k: nat | k < |order| ensures FoundFrom(edges, all, k, u) <==> FoundFrom(edges, order, k, u) {
      FoundSame(edges, order, node, k, u);
    }
    if Parent(edges, order, u, v) {
      var k: nat :| FoundFrom(edges, order, k, u) && order[k] == v;
      assert FoundFrom(edges, all, k, u) && all[k] == v;
    }
    if v == node && exists i: nat :: LastOpen(edges, order, i) && order[i] == u {
      assert FoundFrom(edges, all, |order|, u) && all[|order|] == v;
    }
  }

  /** The tree gets the edge along which `node` is found, if any. */
  lemma TreeOnward(edges: set<Edge>, s: Dfs, node: nat)
    requires Entered(edges, s) && Due(edges, s, node)
    ensures DiscoveryTree(edges, s.entered + [node])
         == DiscoveryTree(edges, s.entered) + if s.stack == [] then {} else {Edge(s.Top(), node)}
  {
    DueIsChosen(edges, s, node);
    forall u, v
      ensures Parent(edges, s.entered + [node], u, v)
         <==> Parent(edges, s.entered, u, v) || (v == node && s.stack != [] && u == s.Top())
    {
      ParentOnward(edges, s.entered, node, u, v);
      if s.stack == [] {
        NobodyOpen(edges, s);
      } else {
        OnlyTopOpen(edges, s, u);
      }
    }
  }

  lemma OnlyTopOpen(edges: set<Edge>, s: Dfs, u: nat)
    requires s.stack != [] && s.Top() in s.entered && LastOpen(edges, s.entered, IndexIn(s.entered, s.Top()))
    ensures (exists i: nat :: LastOpen(edges, s.entered, i) && s.entered[i] == u) <==> u == s.Top()
  {
    if i: nat :| LastOpen(edges, s.entered, i) && s.entered[i] == u {
      LastOpenUnique(edges, s.entered, i, IndexIn(s.entered, s.Top()));
    }
  }

  lemma RisingOnward(entered: seq<nat>, stack: seq<nat>, node: nat)
    requires Rising(entered, stack) && node !in entered
    ensures Rising(entered + [node], stack + [node])
  {
    var all, top := entered + [node], stack + [node];
    FirstIndex(all, node, |entered|);
    forall x | x in stack ensures x in all && IndexIn(all, x) == IndexIn(entered, x) {
      IndexInGrows(entered, all, x);
    }
    forall i, j | 0 <= i < j < |top| ensures IndexIn(all, top[i]) < IndexIn(all, top[j]) {
      assert stack[i] in stack && top[i] == stack[i];
      if j < |stack| { assert stack[j] in stack && top[j] == stack[j]; }
    }
  }

  lemma EnteredOnward(edges: set<Edge>, s: Dfs, node: nat)
    requires Entered(edges, s) && node !in s.entered
    ensures Entered(edges, Enter(node, Reached(s, node)))
  {
    var r := Enter(node, Reached(s, node));
    RisingOnward(s.entered, s.stack, node);
    forall i | 0 <= i < |r.finished| ensures !Open(edges, r.entered, r.finished[i]) {
      assert !Open(edges, s.entered, s.finished[i]);
    }
    assert forall x :: x in r.stack <==> x in s.stack || x == node;
    assert forall x :: x in r.entered <==> x in s.entered || x == node;
  }

  lemma EnterInOrder(edges: set<Edge>, s: Dfs, node: nat)
    requires InOrder(edges, s) && Due(edges, s, node)
    ensures InOrder(edges, Enter(node, Reached(s, node)))
  {
    DueIsChosen(edges, s, node);
    EnteredOnward(edges, s, node);
    ChosenOnward(edges, s.entered, node);
    TreeOnward(edges, s, node);
  }

  lemma FinishInOrder(edges: set<Edge>, node: nat, stack: seq<nat>, e: Dfs)
    requires InOrder(edges, e) && e.stack == stack + [node] && !Open(edges, e.entered, node)
    ensures InOrder(edges, e.(stack := stack, finished := e.finished + [node]))
  {
    var r := e.(stack := stack, finished := e.finished + [node]);
    assert forall i :: 0 <= i < |stack| ==> stack[i] == e.stack[i];
    assert e.stack[|stack|] == node;
    assert forall x :: x in e.stack <==> x in stack || x == node;
    assert forall x :: x in r.finished <==> x in e.finished || x == node;
  }

  ghost predicate SmallerSeen(edges: set<Edge>, s: Dfs, top: nat, next: nat) {
    forall v: nat :: Edge(top, v) in edges && v < next ==> v in s.entered
  }

  ghost predicate AllSeen(s: Dfs, nexts: seq<nat>) {
    forall v :: v in nexts ==> v in s.entered
  }

  lemma SeenIsClosed(edges: set<Edge>, s: Dfs, node: nat, nexts: seq<nat>)
    requires AllSeen(s, nexts) && forall v :: Edge(node, v) in edges ==> v in nexts
    ensures !Open(edges, s.entered, node)
  {
  }

  lemma {:induction false} VisitInOrder(edges: set<Edge>, node: nat, s: Dfs)
    requires Inv(edges, s) && InOrder(edges, s) && node in s.white && Due(edges, s, node)
    ensures var r := Visit(edges, node, Reached(s, node));
            InOrder(edges, r) && node in r.entered && s.entered <= r.entered
    decreases s.white, 0, 0
  {
    var entered := Enter(node, Reached(s, node));
    var nexts := Listing(Upstream(edges, node));
    DueInGraph(edges, s, node);
    EnterKeeps(edges, s, node);
    EnterInOrder(edges, s, node);
    assert entered.stack[|s.stack|] == node;
    UpstreamLeads(edges, node);
    ExploreInOrder(edges, nexts, entered);
    var e := Explore(edges, nexts, entered);
    SeenIsClosed(edges, e, node, nexts);
    FinishInOrder(edges, node, s.stack, e);
    EnteredPrefix(s.entered, node, e.entered);
  }

  lemma DueInGraph(edges: set<Edge>, s: Dfs, node: nat)
    requires Due(edges, s, node)
    ensures s.stack != [] ==> Edge(s.Top(), node) in edges
  {
  }

  lemma EnteredPrefix(before: seq<nat>, node: nat, after: seq<nat>)
    requires before + [node] <= after
    ensures before <= after && node in after
  {
    assert after[|before|] == node;
  }

  lemma NotWhiteIsSeen(edges: set<Edge>, s: Dfs, x: nat)
    requires Coloured(edges, s) && Entered(edges, s) && x in Issues(edges)
    ensures x in s.entered <==> x !in s.white
  {
  }

  lemma NextIsDue(edges: set<Edge>, s: Dfs, next: nat)
    requires Coloured(edges, s) && Entered(edges, s) && s.stack != [] && next in s.white
    requires Edge(s.Top(), next) in edges && SmallerSeen(edges, s, s.Top(), next)
    ensures Due(edges, s, next)
  {
    assert next in Issues(edges);
    NotWhiteIsSeen(edges, s, next);
  }

  lemma RecordInOrder(edges: set<Edge>, next: nat, s: Dfs)
    requires InOrder(edges, s) && next in s.stack
    ensures InOrder(edges, Record(s, next)) && next in s.entered && Record(s, next).entered == s.entered
  {
  }

  lemma {:induction false} FollowInOrder(edges: set<Edge>, next: nat, s: Dfs)
    requires Inv(edges, s) && InOrder(edges, s) && s.stack != [] && Edge(s.Top(), next) in edges
    requires SmallerSeen(edges, s, s.Top(), next)
    ensures var r := Follow(edges, next, s);
            InOrder(edges, r) && next in r.entered && s.entered <= r.entered
    decreases s.white, 1, 0
  {
    assert next in Issues(edges);
    NotWhiteIsSeen(edges, s, next);
    if next in s.stack {
      RecordInOrder(edges, next, s);
    } else if next in s.white {
      NextIsDue(edges, s, next);
      VisitInOrder(edges, next, s);
    }
  }

  /** `nexts` are the smallest issues `top` waits on, in ascending order. */
  ghost predicate Lowest(edges: set<Edge>, top: nat, nexts: seq<nat>) {
    Ascending(nexts) && forall v, x :: Edge(top, v) in edges && v !in nexts && x in nexts ==> x < v
  }

  lemma LowestFront(edges: set<Edge>, top: nat, front: seq<nat>, next: nat)
    requires Lowest(edges, top, front + [next])
    ensures Lowest(edges, top, front)
    ensures forall v: nat :: Edge(top, v) in edges && v < next ==> v in front
  {
    var nexts := front + [next];
    assert forall i :: 0 <= i < |front| ==> nexts[i] == front[i];
    assert nexts[|front|] == next;
    assert forall v :: v in nexts <==> v in front || v == next;
    forall v: nat | Edge(top, v) in edges && v < next ensures v in front {
      assert next in nexts;
      assert v !in nexts ==> next < v;
    }
  }

  lemma {:induction false} ExploreInOrder(edges: set<Edge>, nexts: seq<nat>, s: Dfs)
    requires Inv(edges, s) && InOrder(edges, s) && s.stack != []
    requires Leads(edges, s.Top(), nexts) && Lowest(edges, s.Top(), nexts)
    ensures var r := Explore(edges, nexts, s);
            InOrder(edges, r) && AllSeen(r, nexts) && s.entered <= r.entered
    decreases s.white, 2, |nexts|
  {
    if nexts == [] {
    } else {
      var n := |nexts| - 1;
      var front, next := nexts[..n], nexts[n];
      FrontAndLast(nexts);
      LeadsSplit(edges, s.Top(), front, next);
      LowestFront(edges, s.Top(), front, next);
      ExploreInOrder(edges, front, s);
      ExploreKeeps(edges, front, s);
      var mid := Explore(edges, front, s);
      SameTop(s, mid);
      FollowInOrder(edges, next, mid);
    }
  }

  /** `roots` are the smallest issues, in ascending order. */
  ghost predicate LowestRoots(edges: set<Edge>, roots: seq<nat>) {
    && Ascending(roots) && (forall x :: x in roots ==> x in Issues(edges))
    && forall v, x :: v in Issues(edges) && v !in roots && x in roots ==> x < v
  }

  lemma LowestRootsFront(edges: set<Edge>, front: seq<nat>, root: nat)
    requires LowestRoots(edges, front + [root])
    ensures LowestRoots(edges, front) && root in Issues(edges)
    ensures forall v :: v in Issues(edges) && v < root ==> v in front
  {
    var roots := front + [root];
    assert forall i :: 0 <= i < |front| ==> roots[i] == front[i];
    assert roots[|front|] == root;
    assert forall v :: v in roots <==> v in front || v == root;
    forall v | v in Issues(edges) && v < root ensures v in front {
      assert root in roots;
      assert v !in roots ==> root < v;
    }
  }

  lemma RootIsDue(edges: set<Edge>, s: Dfs, root: nat)
    requires Coloured(edges, s) && Entered(edges, s) && s.stack == [] && root in s.white && root in Issues(edges)
    requires forall v :: v in Issues(edges) && v < root ==> v in s.entered
    ensures Due(edges, s, root)
  {
    NotWhiteIsSeen(edges, s, root);
  }

  lemma {:induction false} RootsInOrder(edges: set<Edge>, roots: seq<nat>)
    requires LowestRoots(edges, roots)
    ensures var r := VisitRoots(edges, roots, Start(edges));
            InOrder(edges, r) && Inv(edges, r) && r.stack == [] && AllSeen(r, roots)
  {
    if roots == [] {
      StartInOrder(edges);
    } else {
      var n := |roots| - 1;
      var front, root := roots[..n], roots[n];
      FrontAndLast(roots);
      LowestRootsFront(edges, front, root);
      RootsInOrder(edges, front);
      RootInOrder(edges, front, root, VisitRoots(edges, front, Start(edges)));
    }
  }

  lemma StartInOrder(edges: set<Edge>)
    ensures InOrder(edges, Start(edges)) && Inv(edges, Start(edges))
  {
    assert DiscoveryTree(edges, []) == {};
  }

  lemma RootInOrder(edges: set<Edge>, front: seq<nat>, root: nat, s: Dfs)
    requires InOrder(edges, s) && Inv(edges, s) && s.stack == [] && AllSeen(s, front) && root in Issues(edges)
    requires forall v :: v in Issues(edges) && v < root ==> v in front
    ensures var r := if root in s.white then Visit(edges, root, s) else s;
            InOrder(edges, r) && Inv(edges, r) && r.stack == [] && AllSeen(r, front + [root])
  {
    NotWhiteIsSeen(edges, s, root);
    if root in s.white {
      RootIsDue(edges, s, root);
      VisitInOrder(edges, root, s);
      VisitKeeps(edges, root, s, s);
    }
  }

  /** The search takes the issues in the graph's discovery order, and its tree is the graph's. */
  lemma SearchDiscovers(edges: set<Edge>)
    ensures Discovery(edges, Search(edges).entered)
    ensures Search(edges).tree == DiscoveryTree(edges, Search(edges).entered)
  {
    var roots, s := Listing(Issues(edges)), Search(edges);
    RootsInOrder(edges, roots);
    forall x ensures x in s.entered <==> x in Issues(edges) {
      if x in Issues(edges) { assert x in roots; }
    }
  }

  // ---- where the search starts anew ----

  ghost predicate Reaches(edges: set<Edge>, x: nat, v: nat) {
    exists w: seq<nat> :: w != [] && Walk(edges, w) && w[0] == x && w[|w| - 1] == v
  }

  ghost predicate HasParent(tree: set<Edge>, v: nat) {
    exists e :: e in tree && e.upstream == v
  }

  /** A walk from a closed set of issues stays there. */
  lemma {:induction false} ClosedHolds(edges: set<Edge>, seen: seq<nat>, w: seq<nat>)
    requires AllClosed(edges, seen) && w != [] && Walk(edges, w) && w[0] in seen
    ensures w[|w| - 1] in seen
  {
    var n := |w| - 1;
    if n == 0 {
    } else {
      ClosedHolds(edges, seen, w[..n]);
      var i :| 0 <= i < |seen| && seen[i] == w[n - 1];
      assert Edge(w[n - 1], w[n - 1 + 1]) in edges;
      assert !Open(edges, seen, seen[i]);
    }
  }

  lemma WalkLonger(edges: set<Edge>, w: seq<nat>, v: nat)
    requires w != [] && Walk(edges, w) && Edge(w[|w| - 1], v) in edges
    ensures Walk(edges, w + [v])
  {
    var all := w + [v];
    forall i | 0 <= i < |all| - 1 ensures Edge(all[i], all[i + 1]) in edges {
      if i < |w| - 1 { assert Edge(w[i], w[i + 1]) in edges; }
    }
  }

  /** Every issue is reached from one that starts anew, at or before it. */
  lemma {:induction false} ReachedFromRoot(edges: set<Edge>, order: seq<nat>, k: nat) returns (j: nat, w: seq<nat>)
    requires ChosenAll(edges, order) && k < |order|
    ensures j <= k && AllClosed(edges, order[..j]) && (j == k ==> AllClosed(edges, order[..k]))
    ensures w != [] && Walk(edges, w) && w[0] == order[j] && w[|w| - 1] == order[k]
  {
    assert Chosen(edges, order[..k], order[k]);
    if AllClosed(edges, order[..k]) {
      j, w := k, [order[k]];
    } else {
      var i: nat :| LastOpen(edges, order[..k], i) && NextFrom(edges, order[..k], order[..k][i], order[k]);
      j, w := ReachedFromRoot(edges, order, i);
      WalkLonger(edges, w, order[k]);
      w := w + [order[k]];
    }
  }

  lemma ParentExactly(edges: set<Edge>, order: seq<nat>, k: nat)
    requires Distinct(order) && ChosenAll(edges, order) && k < |order|
    ensures HasParent(DiscoveryTree(edges, order), order[k]) <==> !AllClosed(edges, order[..k])
  {
    assert Chosen(edges, order[..k], order[k]);
    if !AllClosed(edges, order[..k]) {
      var i: nat :| LastOpen(edges, order[..k], i) && NextFrom(edges, order[..k], order[..k][i], order[k]);
      assert FoundFrom(edges, order, k, order[i]);
      assert Edge(order[i], order[k]) in DiscoveryTree(edges, order);
    }
    if HasParent(DiscoveryTree(edges, order), order[k]) {
      var e :| e in DiscoveryTree(edges, order) && e.upstream == order[k];
      var m: nat :| FoundFrom(edges, order, m, e.child) && order[m] == order[k];
      var i: nat :| LastOpen(edges, order[..m], i) && order[i] == e.child;
    }
  }

  lemma RootIsSmaller(edges: set<Edge>, order: seq<nat>, j: nat, k: nat)
    requires Discovery(edges, order) && j < k < |order| && AllClosed(edges, order[..j])
    ensures order[j] < order[k]
  {
    assert Chosen(edges, order[..j], order[j]);
    assert order[k] in Elements(order) && order[k] !in order[..j] && order[k] != order[j];
  }

  /** A found issue is reached from a smaller one, where the search started anew. */
  lemma FoundIsReached(edges: set<Edge>, order: seq<nat>, k: nat) returns (x: nat)
    requires Discovery(edges, order) && k < |order| && !AllClosed(edges, order[..k])
    ensures x < order[k] && Reaches(edges, x, order[k])
  {
    var j, w := ReachedFromRoot(edges, order, k);
    x := order[j];
    RootIsSmaller(edges, order, j, k);
    ReachesBy(edges, w, x, order[k]);
  }

  lemma ReachesBy(edges: set<Edge>, w: seq<nat>, x: nat, v: nat)
    requires w != [] && Walk(edges, w) && w[0] == x && w[|w| - 1] == v
    ensures Reaches(edges, x, v)
  {
  }

  lemma RootIsUnreached(edges: set<Edge>, order: seq<nat>, k: nat, x: nat)
    requires Discovery(edges, order) && k < |order| && AllClosed(edges, order[..k])
    requires x < order[k] && x in Issues(edges)
    ensures !Reaches(edges, x, order[k])
  {
    var seen := order[..k];
    assert Chosen(edges, seen, order[k]);
    assert x in seen && order[k] !in seen;
    forall w: seq<nat> | w != [] && Walk(edges, w) && w[0] == x ensures w[|w| - 1] != order[k] {
      ClosedHolds(edges, seen, w);
    }
  }

  lemma ReachingIsIssue(edges: set<Edge>, x: nat, v: nat)
    requires Reaches(edges, x, v) && x != v
    ensures x in Issues(edges)
  {
    var w: seq<nat> :| w != [] && Walk(edges, w) && w[0] == x && w[|w| - 1] == v;
    assert Edge(w[0], w[0 + 1]) in edges;
    assert Edge(w[0], w[1]).child == x;
  }

  lemma RootsExactly(edges: set<Edge>, order: seq<nat>, k: nat)
    requires Discovery(edges, order) && k < |order|
    ensures HasParent(DiscoveryTree(edges, order), order[k])
       <==> exists x: nat :: x < order[k] && Reaches(edges, x, order[k])
  {
    ParentExactly(edges, order, k);
    if AllClosed(edges, order[..k]) {
      forall x: nat | x < order[k] ensures !Reaches(edges, x, order[k]) {
        if x in Issues(edges) {
          RootIsUnreached(edges, order, k, x);
        } else if Reaches(edges, x, order[k]) {
          ReachingIsIssue(edges, x, order[k]);
        }
      }
    } else {
      var x := FoundIsReached(edges, order, k);
    }
  }

  /** The search starts anew exactly at the issues that no smaller issue waits on, directly or through
      others. */
  lemma StartsAnewExactly(edges: set<Edge>, v: nat)
    requires v in Issues(edges)
    ensures HasParent(Search(edges).tree, v) <==> exists x: nat :: x < v && Reaches(edges, x, v)
  {
    SearchDiscovers(edges);
    var order := Search(edges).entered;
    assert v in Elements(order);
    var k :| 0 <= k < |order| && order[k] == v;
    RootsExactly(edges, order, k);
  }
}
