/** `findCycles`: the three-colour depth-first search over mutable maps, stack and result list. */
module CycleFinder {
  import opened Ordering
  import opened DependencyGraph

  datatype Color = White | Grey | Black

  /** No issue on the stack is white, and none stands there twice. */
  ghost predicate Split(s: Dfs) {
    Distinct(s.stack) && forall x :: x in s.stack ==> x !in s.white
  }

  /** Following an edge a second time changes nothing: it is a tree edge, already recorded, or
      already skipped. This is why a duplicated edge leaves no trace in the answer. */
  lemma FollowTwice(edges: set<Edge>, next: nat, s: Dfs)
    requires Split(s) && s.stack != []
    ensures var r := Follow(edges, next, s); Follow(edges, next, r) == r
  {
  }

  ghost predicate NonDecreasing(s: seq<nat>) {
    forall i, j :: 0 <= i < j < |s| ==> s[i] <= s[j]
  }

  lemma ExploreAppend(edges: set<Edge>, nexts: seq<nat>, next: nat, s: Dfs)
    requires s.stack != []
    ensures Explore(edges, nexts + [next], s) == Follow(edges, next, Explore(edges, nexts, s))
  {
    assert (nexts + [next])[..|nexts|] == nexts;
  }

  /** Exploring one more successor in ascending order, repeated or new. */
  lemma ExploreStep(edges: set<Edge>, front: set<nat>, next: nat, s: Dfs)
    requires forall x :: x in front ==> x <= next
    requires Split(s) && s.stack != []
    ensures Follow(edges, next, Explore(edges, Listing(front), s)) == Explore(edges, Listing(front + {next}), s)
  {
    if next in front {
      var rest := front - {next};
      assert rest + {next} == front && front + {next} == front;
      ExploreNew(edges, rest, next, s);
      FollowTwice(edges, next, Explore(edges, Listing(rest), s));
    } else {
      ExploreNew(edges, front, next, s);
    }
  }

  lemma ExploreNew(edges: set<Edge>, front: set<nat>, next: nat, s: Dfs)
    requires s.stack != [] && forall x :: x in front ==> x < next
    ensures Explore(edges, Listing(front + {next}), s) == Follow(edges, next, Explore(edges, Listing(front), s))
  {
    ListingAppend(front, next);
    ExploreAppend(edges, Listing(front), next, s);
  }

  /** The successors seen so far, explored as the set they form. */
  ghost function ExploredUpTo(edges: set<Edge>, nexts: seq<nat>, i: nat, s: Dfs): Dfs
    requires i <= |nexts| && s.stack != []
  {
    Explore(edges, Listing(Elements(nexts[..i])), s)
  }

  lemma ExploredOneMore(edges: set<Edge>, nexts: seq<nat>, i: nat, s: Dfs)
    requires NonDecreasing(nexts) && i < |nexts| && Split(s) && s.stack != []
    ensures ExploredUpTo(edges, nexts, i + 1, s) == Follow(edges, nexts[i], ExploredUpTo(edges, nexts, i, s))
  {
    ListStep(nexts, i);
    ExploreStep(edges, Elements(nexts[..i]), nexts[i], s);
  }

  lemma VisitUnfolds(edges: set<Edge>, node: nat, s: Dfs, nexts: seq<nat>)
    requires node in s.white && Elements(nexts) == Upstream(edges, node)
    ensures var r := Explore(edges, Listing(Elements(nexts)), Enter(node, s));
            Visit(edges, node, s) == r.(stack := r.stack[..|r.stack| - 1], finished := r.finished + [node])
  {
    assert Enter(node, s).stack[..|s.stack|] == s.stack;
  }

  /** The colour map, the stack and the on-stack set show the state `s`. */
  ghost predicate Mirrors(issues: set<nat>, color: map<nat, Color>, stack: seq<nat>, onStack: set<nat>, s: Dfs) {
    && Split(s)
    && color.Keys == issues
    && stack == s.stack
    && (forall x :: x in onStack <==> x in stack)
    && (forall n :: n in color ==> (color[n] == White <==> n in s.white))
    && (forall n :: n in color ==> (color[n] == Grey <==> n in s.stack))
  }

  ghost predicate Recorded(seen: set<seq<nat>>, cycles: seq<seq<nat>>, s: Dfs) {
    cycles == s.cycles && forall c :: c in seen <==> c in cycles
  }

  lemma MirrorsEnter(issues: set<nat>, color: map<nat, Color>, stack: seq<nat>, onStack: set<nat>, s: Dfs, node: nat)
    requires Mirrors(issues, color, stack, onStack, s) && node in s.white && node in color
    ensures Mirrors(issues, color[node := Grey], stack + [node], onStack + {node}, Enter(node, s))
  {
    assert node !in stack;
    assert forall x :: x in stack + [node] <==> x in stack || x == node;
  }

  lemma MirrorsLeave(issues: set<nat>, color: map<nat, Color>, stack: seq<nat>, onStack: set<nat>, s: Dfs, node: nat)
    requires Mirrors(issues, color, stack, onStack, s) && stack != [] && node == stack[|stack| - 1] && node in color
    ensures var rest := stack[..|stack| - 1];
            Mirrors(issues, color[node := Black], rest, onStack - {node},
                    s.(stack := rest, finished := s.finished + [node]))
  {
    var rest := stack[..|stack| - 1];
    assert stack == rest + [node];
    assert node !in rest && forall x :: x in stack <==> x in rest || x == node;
  }

  lemma MirrorsRecord(issues: set<nat>, color: map<nat, Color>, stack: seq<nat>, onStack: set<nat>, s: Dfs,
                      cycles: seq<seq<nat>>)
    requires Mirrors(issues, color, stack, onStack, s)
    ensures Mirrors(issues, color, stack, onStack, s.(cycles := cycles))
  {
  }

  lemma RecordedMore(seen: set<seq<nat>>, cycles: seq<seq<nat>>, s: Dfs, sorted: seq<nat>)
    requires Recorded(seen, cycles, s)
    ensures sorted in seen <==> sorted in s.cycles
    ensures Recorded(seen + {sorted}, cycles + [sorted], s.(cycles := cycles + [sorted]))
  {
    assert forall c :: c in cycles + [sorted] <==> c in cycles || c == sorted;
  }

  /** What one more report makes of the recorded lists. */
  lemma RecordsOne(issues: set<nat>, color: map<nat, Color>, stack: seq<nat>, onStack: set<nat>, seen: set<seq<nat>>,
                   cycles: seq<seq<nat>>, s: Dfs, next: nat, sorted: seq<nat>)
    requires Mirrors(issues, color, stack, onStack, s) && Recorded(seen, cycles, s)
    requires next in s.stack && sorted == Listing(Elements(s.stack[IndexIn(s.stack, next)..]))
    ensures Mirrors(issues, color, stack, onStack, Record(s, next))
    ensures if sorted in seen then Recorded(seen, cycles, Record(s, next))
            else Recorded(seen + {sorted}, cycles + [sorted], Record(s, next))
  {
    var noted := NoteClosing(s, s.stack + [next]);
    RecordedMore(seen, cycles, noted, sorted);
    MirrorsRecord(issues, color, stack, onStack, noted, cycles + [sorted]);
  }

  /** `[...new Set(s)].sort(...)`. */
  method SortedMembers(s: seq<nat>) returns (r: seq<nat>)
    ensures r == Listing(Elements(s))
  {
    r := StableSort(Number, Dedupe(s));
    SortedDistinct(Dedupe(s));
    assert Elements(Dedupe(s)) == Elements(s);
  }

  /** `s.sort(...)`, in the ascending order of numbers. */
  method SortedNumbers(s: seq<nat>) returns (r: seq<nat>)
    ensures NonDecreasing(r) && Elements(r) == Elements(s)
  {
    StableSortIsStable(Number, s, 0);
    StableSortMembers(Number, s);
    r := StableSort(Number, s);
    assert forall i, j :: 0 <= i < j < |r| ==> Number(r[i]) <= Number(r[j]);
  }

  class Finder {
    var adjacency: map<nat, seq<nat>>
    var color: map<nat, Color>
    var stack: seq<nat>
    var onStack: set<nat>
    var seen: set<seq<nat>>
    var cycles: seq<seq<nat>>
    ghost const edges: set<Edge>
    /** The state of the mathematical search this object stands for. */
    ghost var search: Dfs

    ghost predicate Valid()
      reads this
    {
      && AdjacencyOf(edges, adjacency)
      && Mirrors(Issues(edges), color, stack, onStack, search)
      && Recorded(seen, cycles, search)
    }

    constructor (adjacency: map<nat, seq<nat>>, nodes: seq<nat>, ghost edges: set<Edge>)
      requires AdjacencyOf(edges, adjacency) && Elements(nodes) == Issues(edges)
      ensures Valid() && this.edges == edges && search == Start(edges)
    {
      this.adjacency := adjacency;
      color := map n | n in nodes :: White;
      stack, onStack, seen, cycles := [], {}, {}, [];
      this.edges := edges;
      search := Start(edges);
      new;
      assert forall n :: n in color <==> n in Elements(nodes);
    }

    /** `next` is the issue the top of the stack leads back to, `members` the stack from there on. */
    method RecordCycle(members: seq<nat>, ghost next: nat)
      requires Valid() && next in search.stack && members == stack[IndexIn(stack, next)..]
      modifies `seen, `cycles, `search
      ensures Valid() && search == Record(old(search), next)
    {
      var sorted := SortedMembers(members);
      ghost var r := Record(search, next);
      RecordsOne(Issues(edges), color, stack, onStack, seen, cycles, search, next, sorted);
      Report(sorted, r);
    }

    method Report(sorted: seq<nat>, ghost r: Dfs)
      requires Valid() && Mirrors(Issues(edges), color, stack, onStack, r)
      requires if sorted in seen then Recorded(seen, cycles, r)
               else Recorded(seen + {sorted}, cycles + [sorted], r)
      modifies `seen, `cycles, `search
      ensures Valid() && search == r
    {
      search := r;
      if sorted in seen { return; }
      seen := seen + {sorted};
      cycles := cycles + [sorted];
    }

    /** The root loop. */
    method VisitAll(nodes: seq<nat>)
      requires Valid() && forall i :: 0 <= i < |nodes| ==> nodes[i] in color
      modifies this
      ensures Valid() && search == VisitRoots(edges, nodes, old(search))
    {
      for i := 0 to |nodes|
        invariant Valid() && color.Keys == old(color).Keys
        invariant search == VisitRoots(edges, nodes[..i], old(search))
      {
        RootsAppend(edges, nodes, i, old(search));
        if color[nodes[i]] == White {
          Visit(nodes[i]);
        }
      }
      assert nodes[..|nodes|] == nodes;
    }

    method Visit(node: nat)
      requires Valid() && node in search.white && node in color
      modifies this
      ensures Valid() && adjacency == old(adjacency)
      ensures search == DependencyGraph.Visit(edges, node, old(search))
      decreases search.white, 0
    {
      Begin(node);
      var nexts := if node in adjacency then adjacency[node] else [];
      SuccessorList(edges, adjacency, node);
      ExploreAll(nexts);
      Finish(node);
      VisitUnfolds(edges, node, old(search), nexts);
    }

    /** The successor loop of `Visit`. */
    method ExploreAll(nexts: seq<nat>)
      requires Valid() && stack != [] && NonDecreasing(nexts)
      requires forall i :: 0 <= i < |nexts| ==> nexts[i] in color
      modifies this
      ensures Valid() && adjacency == old(adjacency)
      ensures search == Explore(edges, Listing(Elements(nexts)), old(search))
      decreases search.white, 3
    {
      ghost var start := search;
      for i := 0 to |nexts|
        invariant Valid() && adjacency == old(adjacency) && color.Keys == old(color).Keys
        invariant search.stack == start.stack && search.white <= start.white
        invariant search == ExploredUpTo(edges, nexts, i, start)
      {
        ExploreNth(nexts, i, start);
      }
      assert nexts[..|nexts|] == nexts;
    }

    /** One round of that loop. */
    method ExploreNth(nexts: seq<nat>, i: nat, ghost start: Dfs)
      requires Valid() && NonDecreasing(nexts) && i < |nexts| && nexts[i] in color
      requires Split(start) && start.stack != [] && search.stack == start.stack && search.white <= start.white
      requires search == ExploredUpTo(edges, nexts, i, start)
      modifies this
      ensures Valid() && adjacency == old(adjacency) && color.Keys == old(color).Keys
      ensures search.stack == start.stack && search.white <= start.white
      ensures search == ExploredUpTo(edges, nexts, i + 1, start)
      decreases search.white, 2
    {
      ExploredOneMore(edges, nexts, i, start);
      FollowEdge(nexts[i]);
    }

    /** Turns the white `node` grey and pushes it. */
    method Begin(node: nat)
      requires Valid() && node in search.white && node in color
      modifies this
      ensures Valid() && adjacency == old(adjacency) && search == Enter(node, old(search))
    {
      MirrorsEnter(Issues(edges), color, stack, onStack, search, node);
      color := color[node := Grey];
      stack := stack + [node];
      onStack := onStack + {node};
      search := Enter(node, search);
    }

    /** Leaves `node`, the top of the stack. */
    method Finish(node: nat)
      requires Valid() && stack != [] && search.Top() == node && node in color
      modifies this
      ensures Valid() && adjacency == old(adjacency)
      ensures search == old(search).(stack := old(stack)[..|old(stack)| - 1], finished := old(search).finished + [node])
    {
      MirrorsLeave(Issues(edges), color, stack, onStack, search, node);
      color := color[node := Black];
      stack := stack[..|stack| - 1];
      onStack := onStack - {node};
      search := search.(stack := stack, finished := search.finished + [node]);
    }

    /** One edge of the successor loop. */
    method FollowEdge(next: nat)
      requires Valid() && stack != [] && next in color
      modifies this
      ensures Valid() && adjacency == old(adjacency)
      ensures search == Follow(edges, next, old(search))
      decreases search.white, 1
    {
      ghost var e := Edge(search.Top(), next);
      if color[next] == Grey && next in onStack {
        var from := IndexIn(stack, next);
        RecordCycle(stack[from..], next);
      } else if color[next] == White {
        search := search.(tree := search.tree + {e});
        Visit(next);
      } else {
        search := if e in search.tree then search else search.(skipped := search.skipped + {e});
      }
    }
  }

  /** The adjacency lists in edge order, and the issues in order of first mention. */
  method CollectEdges(edgeList: seq<Edge>) returns (lists: map<nat, seq<nat>>, allNodes: seq<nat>)
    ensures ListsOf(Elements(edgeList), lists)
    ensures Elements(allNodes) == Issues(Elements(edgeList))
  {
    lists := map[];
    allNodes := [];
    for k := 0 to |edgeList|
      invariant Elements(allNodes) == Issues(Elements(edgeList[..k]))
      invariant ListsOf(Elements(edgeList[..k]), lists)
    {
      var Edge(child, upstream) := edgeList[k];
      OneMoreEdge(edgeList, k);
      var before := allNodes;
      if child !in allNodes { allNodes := allNodes + [child]; }
      if upstream !in allNodes { allNodes := allNodes + [upstream]; }
      assert Elements(allNodes) == Elements(before) + {child, upstream};
      ListsGrow(Elements(edgeList[..k]), lists, child, upstream);
      lists := lists[child := (if child in lists then lists[child] else []) + [upstream]];
    }
    assert edgeList[..|edgeList|] == edgeList;
  }

  /** Each list holds exactly the issues its key waits on, possibly repeated. */
  ghost predicate ListsOf(edges: set<Edge>, lists: map<nat, seq<nat>>) {
    && (forall e :: e in edges ==> e.child in lists && e.upstream in lists[e.child])
    && (forall n, x :: n in lists && x in lists[n] ==> Edge(n, x) in edges)
  }

  lemma ListsGrow(edges: set<Edge>, lists: map<nat, seq<nat>>, child: nat, upstream: nat)
    requires ListsOf(edges, lists)
    ensures ListsOf(edges + {Edge(child, upstream)},
                    lists[child := (if child in lists then lists[child] else []) + [upstream]])
  {
  }

  ghost predicate AdjacencyOf(edges: set<Edge>, adjacency: map<nat, seq<nat>>) {
    ListsOf(edges, adjacency) && forall n :: n in adjacency ==> NonDecreasing(adjacency[n])
  }

  /** Sorts every list in place. */
  method SortLists(lists: map<nat, seq<nat>>, ghost edges: set<Edge>) returns (adjacency: map<nat, seq<nat>>)
    requires ListsOf(edges, lists)
    ensures AdjacencyOf(edges, adjacency)
  {
    adjacency := lists;
    var todo := lists.Keys;
    while todo != {}
      invariant todo <= lists.Keys && ListsOf(edges, adjacency) && adjacency.Keys == lists.Keys
      invariant forall n :: n in adjacency && n !in todo ==> NonDecreasing(adjacency[n])
      decreases todo
    {
      var n :| n in todo;
      var sorted := SortedNumbers(adjacency[n]);
      assert forall x :: x in sorted <==> x in Elements(adjacency[n]);
      adjacency := adjacency[n := sorted];
      todo := todo - {n};
    }
  }

  /** Runs `findCycles` on a list of edges: the answer is a function of the SET of edges listed, so
      no permutation or repetition of edges can change it. */
  method FindCycles(edgeList: seq<Edge>) returns (cycles: seq<seq<nat>>)
    ensures cycles == Cycles(Elements(edgeList))
  {
    var found := SearchCycles(edgeList);
    cycles := StableSort(Head, found);
  }

  /** The sorted adjacency lists and the sorted issues. */
  method Prepare(edgeList: seq<Edge>) returns (adjacency: map<nat, seq<nat>>, nodes: seq<nat>)
    ensures AdjacencyOf(Elements(edgeList), adjacency)
    ensures nodes == Listing(Issues(Elements(edgeList))) && Elements(nodes) == Issues(Elements(edgeList))
  {
    var lists, allNodes := CollectEdges(edgeList);
    adjacency := SortLists(lists, Elements(edgeList));
    nodes := SortedMembers(allNodes);
  }

  /** Everything but the final sort. */
  method SearchCycles(edgeList: seq<Edge>) returns (found: seq<seq<nat>>)
    ensures found == Search(Elements(edgeList)).cycles
  {
    ghost var edges := Elements(edgeList);
    var adjacency, nodes := Prepare(edgeList);
    var finder := new Finder(adjacency, nodes, edges);
    finder.VisitAll(nodes);
    assert finder.search == VisitRoots(edges, Listing(Issues(edges)), Start(edges));
    found := finder.cycles;
  }

  lemma RootsAppend(edges: set<Edge>, roots: seq<nat>, i: nat, s: Dfs)
    requires i < |roots|
    ensures var r := VisitRoots(edges, roots[..i], s);
            VisitRoots(edges, roots[..i + 1], s) == if roots[i] in r.white then Visit(edges, roots[i], r) else r
  {
    assert roots[..i + 1][..i] == roots[..i];
  }

  lemma OneMoreEdge(edgeList: seq<Edge>, k: nat)
    requires k < |edgeList|
    ensures var e := edgeList[k];
            var before, after := Elements(edgeList[..k]), Elements(edgeList[..k + 1]);
            after == before + {e} && Issues(after) == Issues(before) + {e.child, e.upstream}
  {
    assert edgeList[..k + 1] == edgeList[..k] + [edgeList[k]];
  }

  lemma SuccessorList(edges: set<Edge>, adjacency: map<nat, seq<nat>>, node: nat)
    requires AdjacencyOf(edges, adjacency)
    ensures var nexts := if node in adjacency then adjacency[node] else [];
            && NonDecreasing(nexts) && Elements(nexts) == Upstream(edges, node)
            && forall i :: 0 <= i < |nexts| ==> nexts[i] in Issues(edges)
  {
    var nexts := if node in adjacency then adjacency[node] else [];
    assert forall x :: x in Upstream(edges, node) <==> Edge(node, x) in edges by { UpstreamLeads(edges, node); }
    assert Elements(nexts) == Upstream(edges, node);
    forall i | 0 <= i < |nexts| ensures nexts[i] in Issues(edges) {
      assert Edge(node, nexts[i]) in edges;
      assert Edge(node, nexts[i]).upstream == nexts[i];
    }
  }

  lemma ListStep(nexts: seq<nat>, i: nat)
    requires NonDecreasing(nexts) && i < |nexts|
    ensures Elements(nexts[..i + 1]) == Elements(nexts[..i]) + {nexts[i]}
    ensures forall x :: x in Elements(nexts[..i]) ==> x <= nexts[i]
  {
    assert nexts[..i + 1] == nexts[..i] + [nexts[i]];
  }
}
