/** `lowerEdges`: parsed phases to the gating relation, and what `findCycles` says of the result. */
module EdgeLowering {
  import opened Ordering
  import opened DependencyGraph
  import opened CycleProperties
  import opened PhaseLowering

  // ---- the gating relation ----

  ghost predicate SubjectBefore(phases: seq<seq<Row>>, k: nat, x: nat) {
    exists j: nat, i: nat :: j < k && j < |phases| && i < |phases[j]| && phases[j][i].issue == x
  }

  /** What row `i` of phase `k` waits on: its explicit targets, or else every earlier subject. */
  ghost predicate RowGates(phases: seq<seq<Row>>, k: nat, i: nat, e: Edge)
    requires k < |phases| && i < |phases[k]|
  {
    var row := phases[k][i];
    && e.child == row.issue && e.child != e.upstream
    && if row.upstreams != [] then e.upstream in row.upstreams else SubjectBefore(phases, k, e.upstream)
  }

  /** `e` is gated by a row of a phase before `k`, or by one of the first `m` rows of phase `k`. */
  ghost predicate GatedUpTo(phases: seq<seq<Row>>, k: nat, m: nat, e: Edge) {
    exists j: nat, i: nat ::
      j < |phases| && i < |phases[j]| && (j < k || (j == k && i < m)) && RowGates(phases, j, i, e)
  }

  ghost predicate Gated(phases: seq<seq<Row>>, e: Edge) {
    exists k: nat, i: nat :: k < |phases| && i < |phases[k]| && RowGates(phases, k, i, e)
  }

  ghost predicate EdgeBefore(a: Edge, b: Edge) {
    a.child < b.child || (a.child == b.child && a.upstream < b.upstream)
  }

  ghost predicate SortedEdges(s: seq<Edge>) {
    forall i, j :: 0 <= i < j < |s| ==> EdgeBefore(s[i], s[j])
  }

  /** What `lowerEdges` promises: exactly the gating relation, strictly sorted. */
  ghost predicate Lowered(phases: seq<seq<Row>>, out: seq<Edge>) {
    SortedEdges(out) && forall e :: e in out <==> Gated(phases, e)
  }

  // ---- the sort ----

  function InsertEdge(e: Edge, s: seq<Edge>): seq<Edge> {
    if s == [] || e.child < s[0].child || (e.child == s[0].child && e.upstream <= s[0].upstream)
    then [e] + s
    else [s[0]] + InsertEdge(e, s[1..])
  }

  /** `out.sort((a, b) => a.child - b.child || a.requires - b.requires)`. */
  function SortEdges(s: seq<Edge>): seq<Edge> {
    if s == [] then [] else InsertEdge(s[0], SortEdges(s[1..]))
  }

  lemma {:induction false} InsertEdgeSorts(e: Edge, s: seq<Edge>)
    requires SortedEdges(s) && e !in s
    ensures SortedEdges(InsertEdge(e, s))
    ensures forall f :: f in InsertEdge(e, s) <==> f == e || f in s
  {
    if s != [] && !(e.child < s[0].child || (e.child == s[0].child && e.upstream <= s[0].upstream)) {
      InsertEdgeSorts(e, s[1..]);
      var tail := InsertEdge(e, s[1..]);
      assert s == [s[0]] + s[1..];
      assert e != s[0];
      forall j | 0 <= j < |tail| ensures EdgeBefore(s[0], tail[j]) {
        assert tail[j] == e || tail[j] in s[1..];
      }
    }
  }

  lemma {:induction false} SortEdgesSorts(s: seq<Edge>)
    requires Distinct(s)
    ensures SortedEdges(SortEdges(s))
    ensures forall f :: f in SortEdges(s) <==> f in s
  {
    if s == [] {
    } else {
      SortEdgesSorts(s[1..]);
      assert s == [s[0]] + s[1..];
      InsertEdgeSorts(s[0], SortEdges(s[1..]));
    }
  }

  // ---- the lowering loop ----

  /** The output list and the key set that keeps it free of repetitions. */
  ghost predicate Emitted(edges: set<Edge>, out: seq<Edge>) {
    Distinct(out) && forall e :: e in edges <==> e in out
  }

  /** `add` for every target of one issue. */
  method AddAll(issue: nat, targets: seq<nat>, edges: set<Edge>, out: seq<Edge>)
    returns (edges': set<Edge>, out': seq<Edge>)
    requires Emitted(edges, out)
    ensures Emitted(edges', out')
    ensures forall e :: e in out' <==> e in out || (e.child == issue && e.upstream != issue && e.upstream in targets)
  {
    edges', out' := edges, out;
    for t := 0 to |targets|
      invariant Emitted(edges', out')
      invariant forall e :: e in out' <==>
        e in out || (e.child == issue && e.upstream != issue && e.upstream in targets[..t])
    {
      var e := Edge(issue, targets[t]);
      assert targets[..t + 1] == targets[..t] + [targets[t]];
      if issue != targets[t] && e !in edges' {
        edges' := edges' + {e};
        out' := out' + [e];
      }
    }
    assert targets[..|targets|] == targets;
  }

  ghost predicate SubjectIn(phase: seq<Row>, m: nat, x: nat) {
    exists i: nat :: i < m && i < |phase| && phase[i].issue == x
  }

  lemma SubjectStep(phases: seq<seq<Row>>, k: nat, x: nat)
    requires k < |phases|
    ensures SubjectBefore(phases, k + 1, x) <==> SubjectBefore(phases, k, x) || SubjectIn(phases[k], |phases[k]|, x)
  {
    if SubjectBefore(phases, k + 1, x) {
      var j: nat, i: nat :| j < k + 1 && i < |phases[j]| && phases[j][i].issue == x;
      if j < k { assert SubjectBefore(phases, k, x); }
    }
  }

  lemma GatedStep(phases: seq<seq<Row>>, k: nat, m: nat, e: Edge)
    requires k < |phases| && m < |phases[k]|
    ensures GatedUpTo(phases, k, m + 1, e) <==> GatedUpTo(phases, k, m, e) || RowGates(phases, k, m, e)
  {
    if GatedUpTo(phases, k, m + 1, e) && !RowGates(phases, k, m, e) {
      var j: nat, i: nat :| j < |phases| && i < |phases[j]| && (j < k || (j == k && i < m + 1))
        && RowGates(phases, j, i, e);
      assert j == k ==> i < m;
    }
  }

  lemma GatedPhase(phases: seq<seq<Row>>, k: nat, e: Edge)
    requires k < |phases|
    ensures GatedUpTo(phases, k + 1, 0, e) <==> GatedUpTo(phases, k, |phases[k]|, e)
  {
    if GatedUpTo(phases, k + 1, 0, e) {
      var j: nat, i: nat :| j < |phases| && i < |phases[j]| && j < k + 1 && RowGates(phases, j, i, e);
      assert j == k ==> i < |phases[k]|;
    }
  }

  /** One row of phase `k`, with the subjects of all earlier phases at hand. */
  method LowerRow(phases: seq<seq<Row>>, k: nat, m: nat, earlier: seq<nat>, edges: set<Edge>, out: seq<Edge>)
    returns (edges': set<Edge>, out': seq<Edge>)
    requires k < |phases| && m < |phases[k]|
    requires forall x :: x in earlier <==> SubjectBefore(phases, k, x)
    requires Emitted(edges, out) && forall e :: e in out <==> GatedUpTo(phases, k, m, e)
    ensures Emitted(edges', out') && forall e :: e in out' <==> GatedUpTo(phases, k, m + 1, e)
  {
    var row := phases[k][m];
    if |row.upstreams| > 0 {
      edges', out' := AddAll(row.issue, row.upstreams, edges, out);
    } else {
      edges', out' := AddAll(row.issue, earlier, edges, out);
    }
    forall e ensures e in out' <==> GatedUpTo(phases, k, m + 1, e) { GatedStep(phases, k, m, e); }
  }

  /** The rows of one phase, then its subjects. */
  method LowerPhase(phases: seq<seq<Row>>, k: nat, earlier: seq<nat>, edges: set<Edge>, out: seq<Edge>)
    returns (earlier': seq<nat>, edges': set<Edge>, out': seq<Edge>)
    requires k < |phases|
    requires forall x :: x in earlier <==> SubjectBefore(phases, k, x)
    requires Emitted(edges, out) && forall e :: e in out <==> GatedUpTo(phases, k, 0, e)
    ensures forall x :: x in earlier' <==> SubjectBefore(phases, k + 1, x)
    ensures Emitted(edges', out') && forall e :: e in out' <==> GatedUpTo(phases, k + 1, 0, e)
  {
    edges', out', earlier' := edges, out, earlier;
    for m := 0 to |phases[k]|
      invariant Emitted(edges', out') && forall e :: e in out' <==> GatedUpTo(phases, k, m, e)
    {
      edges', out' := LowerRow(phases, k, m, earlier, edges', out');
    }
    for m := 0 to |phases[k]|
      invariant forall x :: x in earlier' <==> SubjectBefore(phases, k, x) || SubjectIn(phases[k], m, x)
    {
      earlier' := earlier' + [phases[k][m].issue];
      forall x ensures SubjectIn(phases[k], m + 1, x) <==> SubjectIn(phases[k], m, x) || x == phases[k][m].issue {
        if SubjectIn(phases[k], m, x) { var i: nat :| i < m && phases[k][i].issue == x; }
      }
    }
    forall e ensures e in out' <==> GatedUpTo(phases, k + 1, 0, e) { GatedPhase(phases, k, e); }
    forall x ensures x in earlier' <==> SubjectBefore(phases, k + 1, x) { SubjectStep(phases, k, x); }
  }

  /** `lowerEdges`. */
  method LowerEdges(phases: seq<seq<Row>>) returns (out: seq<Edge>)
    ensures Lowered(phases, out)
  {
    var edges: set<Edge>, unsorted: seq<Edge>, earlier: seq<nat> := {}, [], [];
    for k := 0 to |phases|
      invariant forall x :: x in earlier <==> SubjectBefore(phases, k, x)
      invariant Emitted(edges, unsorted) && forall e :: e in unsorted <==> GatedUpTo(phases, k, 0, e)
    {
      earlier, edges, unsorted := LowerPhase(phases, k, earlier, edges, unsorted);
    }
    out := SortEdges(unsorted);
    SortEdgesSorts(unsorted);
    forall e ensures GatedUpTo(phases, |phases|, 0, e) <==> Gated(phases, e) { }
  }

  /** `parseDependencyGraph`: no section gives the empty graph, marked absent. */
  method ParseDependencyGraph(lines: seq<Line>) returns (present: bool, nodes: seq<nat>, edges: seq<Edge>)
    ensures present <==> exists i :: 0 <= i < |lines| && OpensDependencies(lines[i])
    ensures !present ==> nodes == [] && edges == []
    ensures present ==> exists start: nat, end: nat ::
      && IsSection(lines, start, end)
      && Lowered(Phases(lines[start + 1..end]), edges)
      && Ascending(nodes) && forall x :: x in nodes <==> Mentions(Rows(lines[start + 1..end]), x)
  {
    var parsed := ParsePhases(lines);
    if parsed.Absent? { return false, [], []; }
    present, nodes := true, parsed.nodes;
    edges := LowerEdges(parsed.phases);
  }

  // ---- what the lowered relation means ----

  /** Strict sorting and the relation leave one possible list. */
  lemma {:induction false} SortedEdgesCanonical(a: seq<Edge>, b: seq<Edge>)
    requires SortedEdges(a) && SortedEdges(b) && forall e :: e in a <==> e in b
    ensures a == b
  {
    assert a != [] ==> a[0] in b;
    assert b != [] ==> b[0] in a;
    if a == [] {
    } else {
      var m, n := |a| - 1, |b| - 1;
      assert a[m] in b && b[n] in a;
      assert a[m] == b[n];
      forall e ensures e in a[..m] <==> e in b[..n] {
        assert e in a[..m] ==> e in a && e != a[m];
        assert e in b[..n] ==> e in b && e != b[n];
      }
      SortedEdgesCanonical(a[..m], b[..n]);
      assert a == a[..m] + [a[m]] && b == b[..n] + [b[n]];
    }
  }

  /** The same phases, with the rows inside each phase permuted (or repeated). */
  ghost predicate SamePhases(p: seq<seq<Row>>, q: seq<seq<Row>>) {
    |p| == |q| && forall k :: 0 <= k < |p| ==> forall r :: r in p[k] <==> r in q[k]
  }

  lemma SubjectsUnmoved(p: seq<seq<Row>>, q: seq<seq<Row>>, k: nat, x: nat)
    requires SamePhases(p, q) && SubjectBefore(p, k, x)
    ensures SubjectBefore(q, k, x)
  {
    var j: nat, i: nat :| j < k && j < |p| && i < |p[j]| && p[j][i].issue == x;
    assert p[j][i] in q[j];
    var m :| 0 <= m < |q[j]| && q[j][m] == p[j][i];
  }

  lemma GatesUnmoved(p: seq<seq<Row>>, q: seq<seq<Row>>, e: Edge)
    requires SamePhases(p, q) && Gated(p, e)
    ensures Gated(q, e)
  {
    var k: nat, i: nat :| k < |p| && i < |p[k]| && RowGates(p, k, i, e);
    assert p[k][i] in q[k];
    var m :| 0 <= m < |q[k]| && q[k][m] == p[k][i];
    if p[k][i].upstreams == [] { SubjectsUnmoved(p, q, k, e.upstream); }
    assert RowGates(q, k, m, e);
  }

  /** Permuting the rows within a phase leaves the lowered list unchanged, edge for edge. */
  lemma RowOrderIsInvisible(p: seq<seq<Row>>, q: seq<seq<Row>>, outP: seq<Edge>, outQ: seq<Edge>)
    requires SamePhases(p, q) && Lowered(p, outP) && Lowered(q, outQ)
    ensures outP == outQ
  {
    forall e ensures e in outP <==> e in outQ {
      if Gated(p, e) { GatesUnmoved(p, q, e); }
      if Gated(q, e) { GatesUnmoved(q, p, e); }
    }
    SortedEdgesCanonical(outP, outQ);
  }

  ghost predicate SubjectOf(phases: seq<seq<Row>>, k: nat, x: nat) {
    k < |phases| && SubjectIn(phases[k], |phases[k]|, x)
  }

  /** Each issue is a subject in one phase only, and explicit targets are earlier subjects, no
      subjects at all, or the row's own issue (whose edge is dropped). */
  ghost predicate Staged(phases: seq<seq<Row>>) {
    && (forall j: nat, k: nat, x :: SubjectOf(phases, j, x) && SubjectOf(phases, k, x) ==> j == k)
    && (forall k: nat, i: nat, r :: k < |phases| && i < |phases[k]| && r in phases[k][i].upstreams
          ==> r == phases[k][i].issue || (forall j: nat :: SubjectOf(phases, j, r) ==> j < k))
  }

  /** 0 for an issue that is no subject, else one more than its phase. */
  ghost function Stage(phases: seq<seq<Row>>, x: nat): int {
    if exists k: nat :: SubjectOf(phases, k, x) then var k: nat :| SubjectOf(phases, k, x); k + 1 else 0
  }

  lemma GatesDescend(phases: seq<seq<Row>>, e: Edge)
    requires Staged(phases) && Gated(phases, e)
    ensures Stage(phases, e.upstream) < Stage(phases, e.child)
  {
    var k: nat, i: nat :| k < |phases| && i < |phases[k]| && RowGates(phases, k, i, e);
    assert SubjectIn(phases[k], |phases[k]|, e.child);
    assert SubjectOf(phases, k, e.child);
    assert Stage(phases, e.child) == k + 1;
    if phases[k][i].upstreams == [] {
      var j: nat, m: nat :| j < k && m < |phases[j]| && phases[j][m].issue == e.upstream;
      assert SubjectIn(phases[j], |phases[j]|, e.upstream);
      assert SubjectOf(phases, j, e.upstream);
    }
  }

  /** A staged plan cannot deadlock: `findCycles` of its lowered relation is empty, and there is an
      order in which every issue can be picked. */
  lemma StagedPlanIsPickable(phases: seq<seq<Row>>, out: seq<Edge>)
    requires Staged(phases) && Lowered(phases, out)
    ensures Cycles(Elements(out)) == []
    ensures exists order: seq<nat> :: PickOrder(Elements(out), order)
  {
    var edges := Elements(out);
    var rank := (x: nat) => Stage(phases, x);
    forall e | e in edges ensures rank(e.upstream) < rank(e.child) { GatesDescend(phases, e); }
    forall w: seq<nat> ensures !SimpleCycle(edges, w) { RankRefutesCycle(edges, rank, w); }
    EmptyExactlyWhenAcyclic(edges);
    NoCyclesExactlyWhenPickable(edges);
  }

  /** Naming an issue in two phases can deadlock a plan even without any explicit target. */
  lemma RepeatedSubjectDeadlocks(a: nat, b: nat, p: seq<seq<Row>>, out: seq<Edge>)
    requires a != b && p == [[Row(a, [])], [Row(b, [])], [Row(a, [])]] && Lowered(p, out)
    ensures Cycles(Elements(out)) != []
  {
    assert p[0][0].issue == a && p[1][0].issue == b && p[2][0].issue == a;
    assert SubjectBefore(p, 1, a) && SubjectBefore(p, 2, b);
    assert RowGates(p, 1, 0, Edge(b, a)) && RowGates(p, 2, 0, Edge(a, b));
    assert Gated(p, Edge(b, a)) && Gated(p, Edge(a, b));
    DeadlockFound(Elements(out), a, b);
  }

  lemma DeadlockFound(edges: set<Edge>, a: nat, b: nat)
    requires a != b && Edge(a, b) in edges && Edge(b, a) in edges
    ensures Cycles(edges) != []
  {
    assert SimpleCycle(edges, [a, b]);
    EmptyExactlyWhenAcyclic(edges);
  }
}
