/** The `## Dependencies` section of an epic, from classified lines to the gating edge relation. */
module PhaseLowering {
  import opened Ordering

  /** A line of the epic body, as the line patterns classify it. A heading may open the dependencies
      section or a phase; an item carries every issue it names and those its `requires:` lists. */
  datatype Line =
    | Heading(level: nat, opensDependencies: bool, opensPhase: bool)
    | Item(refs: seq<nat>, upstreams: seq<nat>)
    | Prose

  /** A dependency row: its subject and its explicit `requires:` targets. */
  datatype Row = Row(issue: nat, upstreams: seq<nat>)

  datatype Parsed = Absent | Present(phases: seq<seq<Row>>, nodes: seq<nat>)

  // ---- what a section means ----

  /** The section's lines: up to the next heading of the same or a higher level. */
  ghost predicate IsSection(lines: seq<Line>, start: nat, end: nat) {
    && start < end <= |lines|
    && lines[start].Heading? && lines[start].opensDependencies
    && (forall i :: 0 <= i < start ==> !(lines[i].Heading? && lines[i].opensDependencies))
    && (forall i :: start < i < end && lines[i].Heading? ==> lines[start].level < lines[i].level)
    && (end < |lines| ==> lines[end].Heading? && lines[end].level <= lines[start].level)
  }

  predicate EndsSection(line: Line, level: nat) {
    line.Heading? && line.level <= level
  }

  predicate OpensPhase(line: Line) {
    line.Heading? && line.opensPhase
  }

  /** The row a line stands for: an item that names at least one issue. */
  function RowsOf(line: Line): seq<Row> {
    if line.Item? && line.refs != [] then [Row(line.refs[0], line.upstreams)] else []
  }

  ghost function Rows(section: seq<Line>): seq<Row> {
    if section == [] then [] else
      Rows(section[..|section| - 1]) + RowsOf(section[|section| - 1])
  }

  ghost predicate HasSubject(line: Line) {
    line.Item? && line.refs != []
  }

  /** `places` are the list items that name an issue; each is a row with the FIRST issue it names for its
      subject, and nothing else is a row. */
  ghost predicate RowsAt(section: seq<Line>, places: seq<nat>, rows: seq<Row>) {
    && Ascending(places) && |places| == |rows|
    && (forall k :: 0 <= k < |places| ==>
          && places[k] < |section| && HasSubject(section[places[k]])
          && rows[k] == Row(section[places[k]].refs[0], section[places[k]].upstreams))
    && (forall i :: 0 <= i < |section| && HasSubject(section[i]) ==> i in places)
  }

  lemma {:induction false} RowPerItem(section: seq<Line>) returns (places: seq<nat>)
    ensures RowsAt(section, places, Rows(section))
  {
    if section == [] {
      places := [];
    } else {
      var n := |section| - 1;
      places := RowPerItem(section[..n]);
      RowsAtLast(section, places, Rows(section[..n]));
      if HasSubject(section[n]) {
        places := places + [n];
      } else {
        assert Rows(section[..n]) + [] == Rows(section[..n]);
      }
    }
  }

  lemma RowsAtLast(section: seq<Line>, places: seq<nat>, rows: seq<Row>)
    requires section != [] && RowsAt(section[..|section| - 1], places, rows)
    ensures var n := |section| - 1;
      if HasSubject(section[n]) then RowsAt(section, places + [n], rows + RowsOf(section[n]))
      else RowsAt(section, places, rows) && RowsOf(section[n]) == []
  {
    var n := |section| - 1;
    var front := section[..n];
    forall k | 0 <= k < |places| ensures section[places[k]] == front[places[k]] && places[k] < n { }
    forall i | 0 <= i < n && HasSubject(section[i]) ensures i in places { assert front[i] == section[i]; }
    assert forall x :: x in places ==> x in places + [n];
  }

  ghost function Close(group: seq<Row>): seq<seq<Row>> {
    if group == [] then [] else [group]
  }

  /** The groups a section has closed, and the one still open at its end. */
  datatype Groups = Groups(closed: seq<seq<Row>>, open: seq<Row>)

  ghost function Grouped(section: seq<Line>): Groups {
    if section == [] then Groups([], []) else
      var g, line := Grouped(section[..|section| - 1]), section[|section| - 1];
      if OpensPhase(line) then Groups(g.closed + Close(g.open), [])
      else Groups(g.closed, g.open + RowsOf(line))
  }

  /** The section cut at its phase headings, groups without rows dropped. */
  ghost function Phases(section: seq<Line>): seq<seq<Row>> {
    Grouped(section).closed + Close(Grouped(section).open)
  }

  ghost function Flatten(phases: seq<seq<Row>>): seq<Row> {
    if phases == [] then [] else Flatten(phases[..|phases| - 1]) + phases[|phases| - 1]
  }

  lemma FlattenClose(phases: seq<seq<Row>>, group: seq<Row>)
    ensures Flatten(phases + Close(group)) == Flatten(phases) + group
  {
    if group == [] {
      assert phases + Close(group) == phases;
    } else {
      assert (phases + [group])[..|phases|] == phases;
    }
  }

  lemma {:induction false} GroupsPartitionRows(section: seq<Line>)
    ensures Flatten(Grouped(section).closed) + Grouped(section).open == Rows(section)
    ensures forall p :: p in Grouped(section).closed ==> p != []
  {
    if section == [] {
      assert Grouped(section) == Groups([], []) && Flatten([]) + [] == [];
    } else {
      var front, line := section[..|section| - 1], section[|section| - 1];
      var g := Grouped(front);
      GroupsPartitionRows(front);
      FlattenClose(g.closed, g.open);
      if OpensPhase(line) {
        assert RowsOf(line) == [];
        assert Flatten(g.closed + Close(g.open)) + [] == Rows(front) + [];
      } else {
        Regroup(Flatten(g.closed), g.open, RowsOf(line));
      }
    }
  }

  /** Cutting into phases loses, adds and reorders no row, and leaves no phase empty. */
  lemma PhasesPartitionRows(section: seq<Line>)
    ensures Flatten(Phases(section)) == Rows(section)
    ensures forall p :: p in Phases(section) ==> p != []
  {
    GroupsPartitionRows(section);
    FlattenClose(Grouped(section).closed, Grouped(section).open);
  }

  /** A phase heading separates the rows above it from those below it. */
  lemma {:induction false} HeadingSeparates(above: seq<Line>, heading: Line, below: seq<Line>)
    requires heading.Heading? && heading.opensPhase
    ensures Grouped(above + [heading] + below)
         == Groups(Phases(above) + Grouped(below).closed, Grouped(below).open)
    ensures Phases(above + [heading] + below) == Phases(above) + Phases(below)
  {
    var whole := above + [heading] + below;
    if below == [] {
      assert whole[..|whole| - 1] == above && whole[|whole| - 1] == heading;
      assert Phases(above) + [] == Phases(above);
    } else {
      assert whole[..|whole| - 1] == above + [heading] + below[..|below| - 1];
      assert whole[|whole| - 1] == below[|below| - 1];
      HeadingSeparates(above, heading, below[..|below| - 1]);
    }
    Regroup(Phases(above), Grouped(below).closed, Close(Grouped(below).open));
  }

  /** Without a phase heading all rows form the one implicit phase. */
  lemma {:induction false} FlatListIsOnePhase(section: seq<Line>)
    requires forall i :: 0 <= i < |section| && section[i].Heading? ==> !section[i].opensPhase
    ensures Grouped(section) == Groups([], Rows(section)) && Phases(section) == Close(Rows(section))
  {
    if section == [] {
    } else {
      FlatListIsOnePhase(section[..|section| - 1]);
    }
  }

  /** Every issue a section mentions as a subject or a `requires:` target. */
  ghost predicate Mentions(rows: seq<Row>, x: nat) {
    exists i :: 0 <= i < |rows| && (rows[i].issue == x || x in rows[i].upstreams)
  }

  // ---- the line loop ----

  ghost predicate OpensDependencies(line: Line) {
    line.Heading? && line.opensDependencies
  }

  /** `parsePhases` over classified lines. */
  method ParsePhases(lines: seq<Line>) returns (parsed: Parsed)
    ensures parsed.Absent? <==> forall i :: 0 <= i < |lines| ==> !OpensDependencies(lines[i])
    ensures parsed.Present? ==> exists start: nat, end: nat ::
      && IsSection(lines, start, end)
      && parsed.phases == Phases(lines[start + 1..end])
      && Ascending(parsed.nodes)
      && forall x :: x in parsed.nodes <==> Mentions(Rows(lines[start + 1..end]), x)
  {
    var start := 0;
    while start < |lines| && !(lines[start].Heading? && lines[start].opensDependencies)
      invariant start <= |lines|
      invariant forall i :: 0 <= i < start ==> !OpensDependencies(lines[i])
    {
      start := start + 1;
    }
    if start == |lines| { return Absent; }
    var phases, nodes, end := CollectRows(lines, start);
    var sorted := SortSet(nodes);
    parsed := Present(phases, sorted);
  }

  /** The line loop of the section opened at `start`. */
  method CollectRows(lines: seq<Line>, start: nat) returns (phases: seq<seq<Row>>, nodes: set<nat>, end: nat)
    requires start < |lines| && OpensDependencies(lines[start])
    requires forall i :: 0 <= i < start ==> !OpensDependencies(lines[i])
    ensures IsSection(lines, start, end) && phases == Phases(lines[start + 1..end])
    ensures NodesOf(lines[start + 1..end], nodes)
  {
    phases, nodes := [], {};
    var current: seq<Row> := [];
    var body, k := lines[start + 1..], 0;
    while k < |body| && !EndsSection(body[k], lines[start].level)
      invariant k <= |body|
      invariant forall j :: 0 <= j < k ==> !EndsSection(body[j], lines[start].level)
      invariant Grouped(body[..k]) == Groups(phases, current) && NodesOf(body[..k], nodes)
    {
      assert body[..k + 1] == body[..k] + [body[k]];
      phases, current, nodes := TakeLine(body[k], body[..k], phases, current, nodes);
      k := k + 1;
    }
    if current != [] { phases := phases + [current]; }
    end := start + 1 + k;
    assert body[..k] == lines[start + 1..end];
    SectionEnds(lines, start, k);
  }

  lemma SectionEnds(lines: seq<Line>, start: nat, k: nat)
    requires start < |lines| && OpensDependencies(lines[start]) && start + 1 + k <= |lines|
    requires forall i :: 0 <= i < start ==> !OpensDependencies(lines[i])
    requires var body := lines[start + 1..];
      && (forall j :: 0 <= j < k ==> !EndsSection(body[j], lines[start].level))
      && (k < |body| ==> EndsSection(body[k], lines[start].level))
    ensures IsSection(lines, start, start + 1 + k)
  {
    var body := lines[start + 1..];
    assert forall i :: start < i < start + 1 + k ==> lines[i] == body[i - start - 1];
  }

  ghost predicate NodesOf(seen: seq<Line>, nodes: set<nat>) {
    forall x :: x in nodes <==> Mentions(Rows(seen), x)
  }

  /** One line of the loop. */
  method TakeLine(line: Line, ghost seen: seq<Line>, phases: seq<seq<Row>>, current: seq<Row>, nodes: set<nat>)
    returns (phases': seq<seq<Row>>, current': seq<Row>, nodes': set<nat>)
    requires Grouped(seen) == Groups(phases, current) && NodesOf(seen, nodes)
    ensures Grouped(seen + [line]) == Groups(phases', current') && NodesOf(seen + [line], nodes')
  {
    phases', current', nodes' := phases, current, nodes;
    assert (seen + [line])[..|seen|] == seen;
    assert Rows(seen + [line]) == Rows(seen) + RowsOf(line);
    assert Rows(seen) + [] == Rows(seen) && current + [] == current && phases + [] == phases;
    if OpensPhase(line) {
      if current != [] { phases', current' := phases + [current], []; }
    } else if line.Item? && line.refs != [] {
      var row := Row(line.refs[0], line.upstreams);
      MentionsAppend(Rows(seen), row);
      nodes' := nodes + {row.issue} + set x | x in row.upstreams;
      current' := current + [row];
    }
  }

  lemma MentionsAppend(rows: seq<Row>, row: Row)
    ensures forall x :: Mentions(rows + [row], x) <==> Mentions(rows, x) || x == row.issue || x in row.upstreams
  {
    var all := rows + [row];
    forall x ensures Mentions(all, x) <==> Mentions(rows, x) || x == row.issue || x in row.upstreams {
      if Mentions(rows, x) {
        var i :| 0 <= i < |rows| && (rows[i].issue == x || x in rows[i].upstreams);
        assert all[i] == rows[i];
      }
      assert all[|rows|] == row;
    }
  }

  /** `[...s].sort(...)` of a set of numbers. */
  method SortSet(s: set<nat>) returns (r: seq<nat>)
    ensures Ascending(r) && forall x :: x in r <==> x in s
  {
    var listed: seq<nat>, todo := [], s;
    while todo != {}
      invariant todo <= s && Distinct(listed) && forall x :: x in s <==> x in listed || x in todo
      invariant forall x :: x in listed ==> x !in todo
      decreases todo
    {
      var x :| x in todo;
      listed, todo := listed + [x], todo - {x};
    }
    r := StableSort(Number, listed);
    SortedDistinct(listed);
  }
}
