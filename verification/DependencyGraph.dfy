/** Dependency edges, directed cycles, and the ascending depth-first search of `findCycles` as a
    mathematical function of the edge SET. `CycleFinder` shows that the mutable search computes it. */
module DependencyGraph {
  import opened Ordering

  /** `child` waits on `upstream`. */
  datatype Edge = Edge(child: nat, upstream: nat)

  ghost function Upstream(edges: set<Edge>, n: nat): set<nat> {
    set e | e in edges && e.child == n :: e.upstream
  }

  ghost function Issues(edges: set<Edge>): set<nat> {
    (set e | e in edges :: e.child) + (set e | e in edges :: e.upstream)
  }

  /** Every step of `w` follows an edge. */
  ghost predicate Walk(edges: set<Edge>, w: seq<nat>) {
    forall i :: 0 <= i < |w| - 1 ==> Edge(w[i], w[i + 1]) in edges
  }

  /** A simple directed cycle, listed once around: `w[0]` waits on `w[1]`, ..., the last on `w[0]`. */
  ghost predicate SimpleCycle(edges: set<Edge>, w: seq<nat>) {
    w != [] && Distinct(w) && Walk(edges, w) && Edge(w[|w| - 1], w[0]) in edges
  }

  /** The vertex sets `findCycles` is meant to report. */
  ghost predicate IsCycleSet(edges: set<Edge>, c: seq<nat>) {
    exists w: seq<nat> :: SimpleCycle(edges, w) && c == Listing(Elements(w))
  }

  // ---- the search ----

  /** White issues are unvisited, the stack holds the grey ones, `finished` the black ones in the
      order their visits returned, `entered` both in the order their visits began. `closings` are the
      stacks at which an edge led back, each followed by the issue it led back to. `tree` and `skipped`
      only classify the followed edges: a tree edge led to a white issue, a skipped edge to an issue
      that had already finished. */
  datatype Dfs = Dfs(white: set<nat>, stack: seq<nat>, entered: seq<nat>, finished: seq<nat>,
                     cycles: seq<seq<nat>>, closings: seq<seq<nat>>, tree: set<Edge>, skipped: set<Edge>)
  {
    ghost function Top(): nat
      requires stack != []
    {
      stack[|stack| - 1]
    }
  }

  function IndexIn(s: seq<nat>, x: nat): (i: nat)
    requires x in s
    ensures i < |s| && s[i] == x && x !in s[..i]
  {
    if s[0] == x then 0 else 1 + IndexIn(s[1..], x)
  }

  /** The stack from `next` up is a cycle: reported unless it has been. */
  ghost function Record(s: Dfs, next: nat): Dfs
    requires next in s.stack
  {
    var c := Listing(Elements(s.stack[IndexIn(s.stack, next)..]));
    var noted := NoteClosing(s, s.stack + [next]);
    if c in s.cycles then noted else noted.(cycles := s.cycles + [c])
  }

  ghost function NoteClosing(s: Dfs, closing: seq<nat>): Dfs {
    if closing in s.closings then s else s.(closings := s.closings + [closing])
  }

  ghost function Enter(node: nat, s: Dfs): Dfs {
    s.(white := s.white - {node}, stack := s.stack + [node], entered := s.entered + [node])
  }

  ghost function Visit(edges: set<Edge>, node: nat, s: Dfs): (r: Dfs)
    requires node in s.white
    ensures r.white <= s.white - {node} && r.stack == s.stack && s.tree <= r.tree
    decreases s.white, 0, 0
  {
    var r := Explore(edges, Listing(Upstream(edges, node)), Enter(node, s));
    r.(stack := s.stack, finished := r.finished + [node])
  }

  /** Follow the edge from the top of the stack to `next`. */
  ghost function Follow(edges: set<Edge>, next: nat, s: Dfs): (r: Dfs)
    requires s.stack != []
    ensures r.white <= s.white && r.stack == s.stack && s.tree <= r.tree
    decreases s.white, 1, 0
  {
    var e := Edge(s.Top(), next);
    if next in s.stack then Record(s, next)
    else if next in s.white then Visit(edges, next, s.(tree := s.tree + {e}))
    else if e in s.tree then s
    else s.(skipped := s.skipped + {e})
  }

  /** Follow every edge from the top of the stack to the issues `nexts`, in order. */
  ghost function Explore(edges: set<Edge>, nexts: seq<nat>, s: Dfs): (r: Dfs)
    requires s.stack != []
    ensures r.white <= s.white && r.stack == s.stack && s.tree <= r.tree
    decreases s.white, 2, |nexts|
  {
    if nexts == [] then s else
      var r := Explore(edges, nexts[..|nexts| - 1], s);
      Follow(edges, nexts[|nexts| - 1], r)
  }

  ghost function VisitRoots(edges: set<Edge>, roots: seq<nat>, s: Dfs): (r: Dfs)
    ensures r.white <= s.white && r.stack == s.stack && s.tree <= r.tree
  {
    if roots == [] then s else
      var r := VisitRoots(edges, roots[..|roots| - 1], s);
      var node := roots[|roots| - 1];
      if node in r.white then Visit(edges, node, r) else r
  }

  ghost function Start(edges: set<Edge>): Dfs {
    Dfs(Issues(edges), [], [], [], [], [], {}, {})
  }

  ghost function Search(edges: set<Edge>): Dfs {
    VisitRoots(edges, Listing(Issues(edges)), Start(edges))
  }

  function Head(c: seq<nat>): int {
    if c == [] then 0 else c[0]
  }

  /** What `findCycles` returns, as a function of the edge set alone. */
  ghost function Cycles(edges: set<Edge>): seq<seq<nat>> {
    StableSort(Head, Search(edges).cycles)
  }

  // ---- the invariant of the search ----

  /** The colours partition the issues. */
  ghost predicate Coloured(edges: set<Edge>, s: Dfs) {
    && Distinct(s.stack)
    && Distinct(s.finished)
    && Distinct(s.cycles)
    && (forall x :: x in Issues(edges) <==> x in s.white || x in s.stack || x in s.finished)
    && (forall x :: x in s.stack ==> x !in s.white && x !in s.finished)
    && (forall x :: x in s.finished ==> x !in s.white)
  }

  /** `v` stands in `order`, and `u` does not stand there up to it. */
  ghost predicate Before(order: seq<nat>, v: nat, u: nat) {
    v in order && u !in order[..IndexIn(order, v) + 1]
  }

  /** The tree edges form a forest whose current branch is the stack; children finish first. */
  ghost predicate Forest(edges: set<Edge>, s: Dfs) {
    && s.tree <= edges
    && Walk(s.tree, s.stack)
    && (forall e, f :: e in s.tree && f in s.tree && e.upstream == f.upstream ==> e == f)
    && (forall e :: e in s.tree ==> e.upstream !in s.white)
    && (s.stack != [] ==> forall e :: e in s.tree ==> e.upstream != s.stack[0])
    && (forall e :: e in s.tree ==> e.upstream in s.stack || Before(s.finished, e.upstream, e.child))
  }

  ghost predicate SkippedLate(edges: set<Edge>, s: Dfs) {
    forall e :: e in s.skipped ==> e in edges && e !in s.tree && Before(s.finished, e.upstream, e.child)
  }

  /** A branch of the forest closed into a cycle by the edge from its last issue to its first. */
  ghost predicate Closed(edges: set<Edge>, tree: set<Edge>, p: seq<nat>) {
    p != [] && Distinct(p) && Walk(tree, p) && Edge(p[|p| - 1], p[0]) in edges
  }

  ghost predicate ClosedAt(edges: set<Edge>, tree: set<Edge>, p: seq<nat>, u: nat, v: nat) {
    Closed(edges, tree, p) && p[|p| - 1] == u && p[0] == v
  }

  /** The edge from `u` to `v` closed a branch, and the branch was reported. */
  ghost predicate Back(edges: set<Edge>, s: Dfs, u: nat, v: nat) {
    exists p: seq<nat> :: ClosedAt(edges, s.tree, p, u, v) && Listing(Elements(p)) in s.cycles
  }

  ghost predicate Classified(edges: set<Edge>, s: Dfs, u: nat, v: nat) {
    Edge(u, v) in s.tree || Edge(u, v) in s.skipped || Back(edges, s, u, v)
  }

  ghost predicate Settled(edges: set<Edge>, s: Dfs) {
    forall e :: e in edges && e.child in s.finished ==> Classified(edges, s, e.child, e.upstream)
  }

  /** Every reported list is the vertex set of a closed branch. */
  ghost predicate Sound(edges: set<Edge>, s: Dfs) {
    forall c :: c in s.cycles ==> FromBranch(edges, s.tree, c)
  }

  ghost predicate FromBranch(edges: set<Edge>, tree: set<Edge>, c: seq<nat>) {
    exists p: seq<nat> :: Closed(edges, tree, p) && c == Listing(Elements(p))
  }

  ghost predicate Inv(edges: set<Edge>, s: Dfs) {
    && Coloured(edges, s) && Forest(edges, s) && SkippedLate(edges, s)
    && Settled(edges, s) && Sound(edges, s)
  }

  /** The search only ever finishes more issues, reports more cycles and classifies more edges. */
  ghost predicate Grows(s: Dfs, r: Dfs) {
    && s.finished <= r.finished && s.cycles <= r.cycles && r.stack == s.stack && r.white <= s.white
    && s.tree <= r.tree && s.skipped <= r.skipped
  }

  lemma {:induction false} FirstIndex(s: seq<nat>, x: nat, i: nat)
    requires i < |s| && s[i] == x && x !in s[..i]
    ensures x in s && IndexIn(s, x) == i
  {
    if i > 0 {
      assert s[0] == s[..i][0];
      assert s[..i][1..] == s[1..][..i - 1];
      FirstIndex(s[1..], x, i - 1);
    }
  }

  lemma BeforeGrows(a: seq<nat>, b: seq<nat>, v: nat, u: nat)
    requires a <= b && Before(a, v, u)
    ensures Before(b, v, u)
  {
    IndexInGrows(a, b, v);
    assert b[..IndexIn(a, v) + 1] == a[..IndexIn(a, v) + 1];
  }

  lemma IndexInGrows(a: seq<nat>, b: seq<nat>, x: nat)
    requires a <= b && x in a
    ensures x in b && IndexIn(b, x) == IndexIn(a, x)
  {
    var i := IndexIn(a, x);
    assert b[..i] == a[..i] && b[i] == x;
    FirstIndex(b, x, i);
  }

  lemma BackGrows(edges: set<Edge>, s: Dfs, r: Dfs, u: nat, v: nat)
    requires s.cycles <= r.cycles && s.tree <= r.tree && Back(edges, s, u, v)
    ensures Back(edges, r, u, v)
  {
    var p: seq<nat> :| ClosedAt(edges, s.tree, p, u, v) && Listing(Elements(p)) in s.cycles;
    assert ClosedAt(edges, r.tree, p, u, v);
  }

  lemma ClassifiedGrows(edges: set<Edge>, s: Dfs, r: Dfs, u: nat, v: nat)
    requires Classified(edges, s, u, v)
    requires s.cycles <= r.cycles && s.tree <= r.tree && s.skipped <= r.skipped
    ensures Classified(edges, r, u, v)
  {
    if Back(edges, s, u, v) { BackGrows(edges, s, r, u, v); }
  }

  lemma SoundGrows(edges: set<Edge>, s: Dfs, r: Dfs)
    requires Sound(edges, s) && s.tree <= r.tree && r.cycles == s.cycles
    ensures Sound(edges, r)
  {
    forall c | c in r.cycles ensures FromBranch(edges, r.tree, c) {
      var p: seq<nat> :| Closed(edges, s.tree, p) && c == Listing(Elements(p));
      assert Closed(edges, r.tree, p);
    }
  }

  lemma SettledGrows(edges: set<Edge>, s: Dfs, r: Dfs)
    requires Settled(edges, s) && r.finished == s.finished
    requires s.cycles <= r.cycles && s.tree <= r.tree && s.skipped <= r.skipped
    ensures Settled(edges, r)
  {
    forall e | e in edges && e.child in r.finished ensures Classified(edges, r, e.child, e.upstream) {
      ClassifiedGrows(edges, s, r, e.child, e.upstream);
    }
  }

  // ---- each step keeps the invariant ----

  /** The stack from a grey issue up, closed by the edge back to it. */
  lemma BackEdgeCloses(edges: set<Edge>, tree: set<Edge>, stack: seq<nat>, from: nat)
    requires from < |stack| && Distinct(stack) && Walk(tree, stack)
    requires Edge(stack[|stack| - 1], stack[from]) in edges
    ensures ClosedAt(edges, tree, stack[from..], stack[|stack| - 1], stack[from])
  {
    var w := stack[from..];
    assert forall i :: 0 <= i < |w| ==> w[i] == stack[from + i];
  }

  lemma RecordSet(edges: set<Edge>, s: Dfs, c: seq<nat>)
    requires Inv(edges, s) && FromBranch(edges, s.tree, c) && c !in s.cycles
    ensures Inv(edges, s.(cycles := s.cycles + [c]))
  {
    var r := s.(cycles := s.cycles + [c]);
    SettledGrows(edges, s, r);
    assert Distinct(r.cycles);
    assert Coloured(edges, r);
    assert forall d :: d in r.cycles ==> d in s.cycles || d == c;
  }

  lemma RecordKeeps(edges: set<Edge>, s: Dfs, next: nat)
    requires Inv(edges, s) && next in s.stack && Edge(s.Top(), next) in edges
    ensures var r := Record(s, next);
            Inv(edges, r) && Grows(s, r) && Back(edges, r, s.Top(), next)
  {
    var from := IndexIn(s.stack, next);
    var w := s.stack[from..];
    var c := Listing(Elements(w));
    BackEdgeCloses(edges, s.tree, s.stack, from);
    assert FromBranch(edges, s.tree, c);
    NoteKeeps(edges, s, s.stack + [next]);
    ReportKeeps(edges, NoteClosing(s, s.stack + [next]), c);
    BackBy(edges, Record(s, next), w, s.Top(), next);
  }

  lemma NoteKeeps(edges: set<Edge>, s: Dfs, closing: seq<nat>)
    requires Inv(edges, s)
    ensures Inv(edges, NoteClosing(s, closing)) && Grows(s, NoteClosing(s, closing))
    ensures NoteClosing(s, closing).tree == s.tree && NoteClosing(s, closing).cycles == s.cycles
  {
    var r := NoteClosing(s, closing);
    SettledGrows(edges, s, r);
    SoundGrows(edges, s, r);
  }

  lemma ReportKeeps(edges: set<Edge>, s: Dfs, c: seq<nat>)
    requires Inv(edges, s) && FromBranch(edges, s.tree, c)
    ensures var r := if c in s.cycles then s else s.(cycles := s.cycles + [c]);
            Inv(edges, r) && Grows(s, r) && c in r.cycles
  {
    if c !in s.cycles { RecordSet(edges, s, c); }
  }

  lemma BackBy(edges: set<Edge>, s: Dfs, w: seq<nat>, u: nat, v: nat)
    requires ClosedAt(edges, s.tree, w, u, v) && Listing(Elements(w)) in s.cycles
    ensures Back(edges, s, u, v)
  {
  }

  lemma SkipKeeps(edges: set<Edge>, s: Dfs, next: nat)
    requires Inv(edges, s) && s.stack != [] && Edge(s.Top(), next) in edges
    requires next in s.finished && Edge(s.Top(), next) !in s.tree
    ensures Inv(edges, s.(skipped := s.skipped + {Edge(s.Top(), next)}))
  {
    var r := s.(skipped := s.skipped + {Edge(s.Top(), next)});
    SettledGrows(edges, s, r);
    SoundGrows(edges, s, r);
    assert s.Top() in s.stack && s.Top() !in s.finished;
  }

  /** A white issue is entered from the top of the stack, or as a root. */
  lemma EnterKeeps(edges: set<Edge>, s: Dfs, node: nat)
    requires Inv(edges, s) && node in s.white
    requires s.stack != [] ==> Edge(s.Top(), node) in edges
    ensures var t := if s.stack == [] then s else s.(tree := s.tree + {Edge(s.Top(), node)});
            Inv(edges, Enter(node, t))
  {
    var t := if s.stack == [] then s else s.(tree := s.tree + {Edge(s.Top(), node)});
    var r := Enter(node, t);
    SettledGrows(edges, s, r);
    SoundGrows(edges, s, r);
    assert forall x :: x in r.stack <==> x in s.stack || x == node;
    assert Coloured(edges, r);
    EnterKeepsForest(edges, s, node);
    assert forall e :: e in s.skipped ==> e.upstream in s.finished;
  }

  lemma EnterKeepsForest(edges: set<Edge>, s: Dfs, node: nat)
    requires Inv(edges, s) && node in s.white
    requires s.stack != [] ==> Edge(s.Top(), node) in edges
    ensures var t := if s.stack == [] then s else s.(tree := s.tree + {Edge(s.Top(), node)});
            Forest(edges, Enter(node, t))
  {
    var t := if s.stack == [] then s else s.(tree := s.tree + {Edge(s.Top(), node)});
    var r := Enter(node, t);
    WalkOn(s.tree, t.tree, s.stack, node);
    assert forall x :: x in r.stack <==> x in s.stack || x == node;
    if s.stack != [] { assert s.stack[0] in s.stack && r.stack[0] == s.stack[0]; }
  }

  lemma WalkOn(tree: set<Edge>, more: set<Edge>, stack: seq<nat>, node: nat)
    requires Walk(tree, stack) && tree <= more && (stack != [] ==> Edge(stack[|stack| - 1], node) in more)
    ensures Walk(more, stack + [node])
  {
    var all := stack + [node];
    forall i | 0 <= i < |all| - 1 ensures Edge(all[i], all[i + 1]) in more {
      if i < |stack| - 1 { assert Edge(stack[i], stack[i + 1]) in tree; }
    }
  }

  /** Returning from a visit: the explored issue leaves the stack and is the last to finish. */
  lemma FinishKeeps(edges: set<Edge>, node: nat, stack: seq<nat>, e: Dfs)
    requires Inv(edges, e) && e.stack == stack + [node]
    requires forall v :: Edge(node, v) in edges ==> Classified(edges, e, node, v)
    ensures Inv(edges, e.(stack := stack, finished := e.finished + [node]))
  {
    var r := e.(stack := stack, finished := e.finished + [node]);
    assert e.stack[|stack|] == node;
    assert forall i :: 0 <= i < |stack| ==> stack[i] == e.stack[i];
    assert forall x :: x in e.stack <==> x in stack || x == node;
    assert node in e.stack && node !in e.finished;
    assert forall x :: x in r.finished <==> x in e.finished || x == node;
    assert Coloured(edges, r);
    FinishKeepsForest(edges, node, stack, e);
    forall f | f in r.skipped ensures Before(r.finished, f.upstream, f.child) {
      BeforeGrows(e.finished, r.finished, f.upstream, f.child);
    }
    SoundGrows(edges, e, r);
    forall f | f in edges && f.child in r.finished ensures Classified(edges, r, f.child, f.upstream) {
      if f.child == node { assert f == Edge(node, f.upstream); }
      ClassifiedGrows(edges, e, r, f.child, f.upstream);
    }
  }

  lemma FinishKeepsForest(edges: set<Edge>, node: nat, stack: seq<nat>, e: Dfs)
    requires Inv(edges, e) && e.stack == stack + [node]
    ensures Forest(edges, e.(stack := stack, finished := e.finished + [node]))
  {
    var r := e.(stack := stack, finished := e.finished + [node]);
    assert forall i :: 0 <= i < |stack| ==> stack[i] == e.stack[i];
    assert forall x :: x in e.stack <==> x in stack || x == node;
    assert e.stack[|stack|] == node;
    forall f | f in r.tree
      ensures f.upstream in r.stack || Before(r.finished, f.upstream, f.child)
    {
      if f.upstream == node {
        ParentIsBelow(edges, e, f);
        assert f.child in stack && f.child != node && f.child !in e.finished;
        assert node !in e.finished && r.finished[|e.finished|] == node;
        assert IndexIn(r.finished, node) == |e.finished|;
      } else if f.upstream !in stack {
        BeforeGrows(e.finished, r.finished, f.upstream, f.child);
      }
    }
  }

  lemma ParentIsBelow(edges: set<Edge>, e: Dfs, f: Edge)
    requires Forest(edges, e) && Coloured(edges, e) && e.stack != [] && f in e.tree && f.upstream == e.Top()
    ensures f.child in e.stack[..|e.stack| - 1]
  {
    var n := |e.stack| - 1;
    assert n > 0;
    var g := Edge(e.stack[n - 1], e.stack[n - 1 + 1]);
    assert g in e.tree;
    assert e.stack[..n][n - 1] == f.child;
  }

  // ---- the whole search keeps the invariant ----

  lemma {:induction false} VisitKeeps(edges: set<Edge>, node: nat, s: Dfs, t: Dfs)
    requires Inv(edges, s) && node in s.white
    requires s.stack != [] ==> Edge(s.Top(), node) in edges
    requires t == if s.stack == [] then s else s.(tree := s.tree + {Edge(s.Top(), node)})
    ensures var r := Visit(edges, node, t);
            Inv(edges, r) && Grows(t, r) && node in r.finished
    decreases s.white, 0, 0
  {
    var entered := Enter(node, t);
    var nexts := Listing(Upstream(edges, node));
    EnterKeeps(edges, s, node);
    assert entered.stack[|s.stack|] == node;
    UpstreamLeads(edges, node);
    ExploreKeeps(edges, nexts, entered);
    var e := Explore(edges, nexts, entered);
    forall v | Edge(node, v) in edges ensures Classified(edges, e, node, v) {
      assert v in nexts;
    }
    FinishKeeps(edges, node, s.stack, e);
  }

  ghost predicate Leads(edges: set<Edge>, top: nat, nexts: seq<nat>) {
    forall v :: v in nexts ==> Edge(top, v) in edges
  }

  lemma UpstreamLeads(edges: set<Edge>, node: nat)
    ensures Leads(edges, node, Listing(Upstream(edges, node)))
    ensures forall v :: Edge(node, v) in edges ==> v in Listing(Upstream(edges, node))
  {
    forall v | Edge(node, v) in edges ensures v in Upstream(edges, node) {
      assert Edge(node, v).upstream == v;
    }
  }

  lemma LeadsSplit(edges: set<Edge>, top: nat, front: seq<nat>, next: nat)
    requires Leads(edges, top, front + [next])
    ensures Leads(edges, top, front) && Edge(top, next) in edges
  {
    assert forall v :: v in front ==> v in front + [next];
    assert next in front + [next];
  }

  lemma {:induction false} FollowKeeps(edges: set<Edge>, next: nat, s: Dfs)
    requires Inv(edges, s) && s.stack != [] && Edge(s.Top(), next) in edges
    ensures var r := Follow(edges, next, s);
            Inv(edges, r) && Grows(s, r) && Classified(edges, r, s.Top(), next)
    decreases s.white, 1, 0
  {
    var e := Edge(s.Top(), next);
    if next in s.stack {
      RecordKeeps(edges, s, next);
    } else if next in s.white {
      VisitKeeps(edges, next, s, s.(tree := s.tree + {e}));
    } else {
      assert next in Issues(edges);
      if e !in s.tree { SkipKeeps(edges, s, next); }
    }
  }

  ghost predicate Answered(edges: set<Edge>, s: Dfs, top: nat, nexts: seq<nat>) {
    forall v :: v in nexts ==> Classified(edges, s, top, v)
  }

  lemma AnsweredAppend(edges: set<Edge>, s: Dfs, r: Dfs, top: nat, nexts: seq<nat>, next: nat)
    requires Answered(edges, s, top, nexts) && Grows(s, r) && Classified(edges, r, top, next)
    ensures Answered(edges, r, top, nexts + [next])
  {
    forall v | v in nexts + [next] ensures Classified(edges, r, top, v) {
      if v != next { ClassifiedGrows(edges, s, r, top, v); }
    }
  }

  lemma SameTop(s: Dfs, r: Dfs)
    requires r.stack == s.stack && s.stack != []
    ensures r.Top() == s.Top()
  {
  }

  lemma {:induction false} ExploreKeeps(edges: set<Edge>, nexts: seq<nat>, s: Dfs)
    requires Inv(edges, s) && s.stack != [] && Leads(edges, s.Top(), nexts)
    ensures var r := Explore(edges, nexts, s);
            Inv(edges, r) && Grows(s, r) && Answered(edges, r, s.Top(), nexts)
    decreases s.white, 2, |nexts|
  {
    if nexts == [] {
    } else {
      var n := |nexts| - 1;
      var front, next := nexts[..n], nexts[n];
      assert nexts == front + [next];
      LeadsSplit(edges, s.Top(), front, next);
      ExploreKeeps(edges, front, s);
      var mid := Explore(edges, front, s);
      SameTop(s, mid);
      FollowKeeps(edges, next, mid);
      AnsweredAppend(edges, mid, Follow(edges, next, mid), s.Top(), front, next);
    }
  }

  lemma {:induction false} VisitRootsKeeps(edges: set<Edge>, roots: seq<nat>, s: Dfs)
    requires Inv(edges, s) && s.stack == []
    requires forall x :: x in roots ==> x in Issues(edges)
    ensures var r := VisitRoots(edges, roots, s);
            Inv(edges, r) && Grows(s, r) && forall x :: x in roots ==> x in r.finished
  {
    if roots == [] {
      assert VisitRoots(edges, roots, s) == s && Grows(s, s);
    } else {
      var front, last := roots[..|roots| - 1], roots[|roots| - 1];
      FrontAndLast(roots);
      VisitRootsKeeps(edges, front, s);
      var mid := VisitRoots(edges, front, s);
      RootKeeps(edges, last, mid);
      GrowsOn(s, mid, VisitRoots(edges, roots, s));
    }
  }

  lemma RootKeeps(edges: set<Edge>, root: nat, s: Dfs)
    requires Inv(edges, s) && s.stack == [] && root in Issues(edges)
    ensures var r := if root in s.white then Visit(edges, root, s) else s;
            Inv(edges, r) && Grows(s, r) && root in r.finished
  {
    if root in s.white { VisitKeeps(edges, root, s, s); }
  }

  lemma GrowsOn(a: Dfs, b: Dfs, c: Dfs)
    requires Grows(a, b) && Grows(b, c)
    ensures Grows(a, c) && forall x :: x in b.finished ==> x in c.finished
  {
  }

  lemma SearchKeeps(edges: set<Edge>)
    ensures var r := Search(edges);
            Inv(edges, r) && r.stack == [] && Elements(r.finished) == Issues(edges)
  {
    VisitRootsKeeps(edges, Listing(Issues(edges)), Start(edges));
  }

  lemma BeforeMeansLower(order: seq<nat>, v: nat, u: nat)
    requires Before(order, v, u) && u in order
    ensures IndexIn(order, v) < IndexIn(order, u)
  {
    var i := IndexIn(order, v);
    assert forall k :: 0 <= k <= i ==> order[k] in order[..i + 1];
  }

  /** At the end every edge is a tree edge, a skipped edge, or closed a reported branch; tree and
      skipped edges lead to issues that finished earlier. */
  lemma EveryEdgeClassified(edges: set<Edge>, e: Edge)
    requires e in edges
    ensures var s := Search(edges);
            && e.child in s.finished && e.upstream in s.finished
            && Classified(edges, s, e.child, e.upstream)
            && (e in s.tree || e in s.skipped ==> IndexIn(s.finished, e.upstream) < IndexIn(s.finished, e.child))
  {
    SearchKeeps(edges);
    var s := Search(edges);
    assert e.child in Elements(s.finished) && e.upstream in Elements(s.finished);
    assert Edge(e.child, e.upstream) == e;
    if e in s.tree || e in s.skipped {
      assert Before(s.finished, e.upstream, e.child);
      BeforeMeansLower(s.finished, e.upstream, e.child);
    }
  }
}
