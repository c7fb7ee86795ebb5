/** Which defects the floor reports: each kind, read off the fields of the ledger, once per occasion. */
module LedgerDefects {
  import CycleProperties
  import opened DependencyGraph
  import opened LedgerFloor
  import opened Options
  import opened Ordering

  // ---- the twelve kinds ----

  /** In this order a `MISSING_LABEL` lists what is missing. */
  function Place(category: string): int {
    if category == "type:" then 0 else if category == "status:" then 1 else 2
  }

  /** `missing` names the label categories of which none of the labels is. */
  ghost predicate Lacks(labels: seq<string>, missing: seq<string>) {
    && (forall i, j :: 0 <= i < j < |missing| ==> Place(missing[i]) < Place(missing[j]))
    && (forall m :: m in missing ==> m == "type:" || m == "status:" || m == "priority")
    && ("type:" in missing <==> forall x :: x in labels ==> !("type:" <= x))
    && ("status:" in missing <==> forall x :: x in labels ==> !("status:" <= x))
    && ("priority" in missing <==> "p0" !in labels && "p1" !in labels && "p2" !in labels)
  }

  /** `d` is owed to the child `c`. */
  ghost predicate OwedToChild(l: Ledger, c: Child, d: Defect) {
    && d.refs == [c.number] && (d.kind != MissingLabel ==> d.missing == [])
    && match d.kind
       case OrphanChild => l.present && c.number !in l.nodes
       case ZeroAc => c.criteria < 1
       case MissingStory => l.stories != [] && c.stories == None
       case MissingLabel => d.missing != [] && Lacks(c.labels, d.missing)
       case MissingContainment =>
         l.cycleDoc && "type:feature" in c.labels && c.containment != Some(Flag) && c.containment != Some(Exempt)
       case NeedsTriageLabel => "status:needs-triage" in c.labels
       case _ => false
  }

  ghost predicate Dangles(l: Ledger, n: nat) {
    n in l.nodes && n != l.epic && n !in l.external && forall c :: c in l.children ==> c.number != n
  }

  ghost predicate Uncovered(l: Ledger, s: nat) {
    s in l.stories && forall c :: c in l.children && c.stories.Some? ==> s !in c.stories.value
  }

  /** `d` is owed to the epic itself. */
  ghost predicate OwedToEpic(l: Ledger, d: Defect) {
    && d.missing == []
    && match d.kind
       case MissingDepsSection => !l.present && d.refs == [l.epic]
       case DepCycle => d.refs in Cycles(Elements(l.edges))
       case DanglingDep => |d.refs| == 1 && Dangles(l, d.refs[0])
       case MissingStoriesSection => l.stories == [] && d.refs == [l.epic]
       case UncoveredStory => |d.refs| == 1 && Uncovered(l, d.refs[0])
       case _ => false
  }

  ghost predicate OwedToSome(l: Ledger, cs: seq<Child>, d: Defect) {
    exists c :: c in cs && OwedToChild(l, c, d)
  }

  ghost predicate Owed(l: Ledger, d: Defect) {
    if l.children == [] then d == Defect(ZeroScope, [l.epic], [])
    else OwedToEpic(l, d) || OwedToSome(l, l.children, d)
  }

  // ---- which of them are reported ----

  lemma InNotes(kind: Kind, ns: seq<nat>, d: Defect)
    ensures d in Notes(kind, ns) <==> d.kind == kind && d.missing == [] && |d.refs| == 1 && d.refs[0] in ns
  {
    var r := Notes(kind, ns);
    if d in r { var i :| 0 <= i < |r| && r[i] == d; }
    if d.kind == kind && d.missing == [] && |d.refs| == 1 && d.refs[0] in ns {
      var i :| 0 <= i < |ns| && ns[i] == d.refs[0];
      assert r[i] == d;
    }
  }

  lemma InNotesOf(cycles: seq<seq<nat>>, d: Defect)
    ensures d in NotesOf(cycles) <==> d.kind == DepCycle && d.missing == [] && d.refs in cycles
  {
    var r := NotesOf(cycles);
    if d in r { var i :| 0 <= i < |r| && r[i] == d; }
    if d.kind == DepCycle && d.missing == [] && d.refs in cycles {
      var i :| 0 <= i < |cycles| && cycles[i] == d.refs;
      assert r[i] == d;
    }
  }

  lemma ChildNumbersExactly(l: Ledger, n: nat)
    ensures n in ChildNumbers(l) <==> exists c :: c in l.children && c.number == n
  {
  }

  lemma DanglingExactly(l: Ledger, n: nat)
    ensures n in Listing(Elements(l.nodes) - Resolvable(l)) <==> Dangles(l, n)
  {
    ChildNumbersExactly(l, n);
    assert n in Resolvable(l) <==> n == l.epic || n in ChildNumbers(l) || n in l.external;
  }

  lemma UncoveredExactly(l: Ledger, s: nat)
    ensures s in Listing(Elements(l.stories) - Covered(l)) <==> Uncovered(l, s)
  {
    assert s in Covered(l) <==> CoveredBy(l.children, s);
  }

  lemma OrphansExactly(l: Ledger, n: nat)
    ensures n in StableSort(Number, Outside(Numbers(l.children), Elements(l.nodes)))
       <==> n !in l.nodes && exists c :: c in l.children && c.number == n
  {
    StableSortMembers(Number, Outside(Numbers(l.children), Elements(l.nodes)));
    NumbersMembers(l.children, n);
  }

  ghost predicate EpicOwed(l: Ledger, d: Defect, kind: Kind) {
    d.kind == kind && OwedToEpic(l, d)
  }

  ghost predicate OrphanOwed(l: Ledger, d: Defect) {
    d.kind == OrphanChild && OwedToSome(l, l.children, d)
  }

  lemma SectionOwed(l: Ledger, d: Defect)
    ensures d in When(!l.present, Note(MissingDepsSection, l.epic)) <==> EpicOwed(l, d, MissingDepsSection)
    ensures d in When(l.stories == [], Note(MissingStoriesSection, l.epic)) <==> EpicOwed(l, d, MissingStoriesSection)
  {
  }

  lemma CyclesOwed(l: Ledger, d: Defect)
    ensures d in NotesOf(Cycles(Elements(l.edges))) <==> EpicOwed(l, d, DepCycle)
  {
    InNotesOf(Cycles(Elements(l.edges)), d);
  }

  lemma DanglingOwed(l: Ledger, d: Defect)
    ensures d in Notes(DanglingDep, Listing(Elements(l.nodes) - Resolvable(l))) <==> EpicOwed(l, d, DanglingDep)
  {
    InNotes(DanglingDep, Listing(Elements(l.nodes) - Resolvable(l)), d);
    if |d.refs| == 1 { DanglingExactly(l, d.refs[0]); }
  }

  lemma UncoveredOwed(l: Ledger, d: Defect)
    ensures d in Notes(UncoveredStory, Listing(Elements(l.stories) - Covered(l))) <==> EpicOwed(l, d, UncoveredStory)
  {
    InNotes(UncoveredStory, Listing(Elements(l.stories) - Covered(l)), d);
    if |d.refs| == 1 { UncoveredExactly(l, d.refs[0]); }
  }

  ghost function Orphans(l: Ledger): seq<Defect> {
    if l.present then Notes(OrphanChild, StableSort(Number, Outside(Numbers(l.children), Elements(l.nodes)))) else []
  }

  lemma OrphansOwed(l: Ledger, d: Defect)
    ensures d in Orphans(l) <==> OrphanOwed(l, d)
  {
    InNotes(OrphanChild, StableSort(Number, Outside(Numbers(l.children), Elements(l.nodes))), d);
    if |d.refs| == 1 {
      OrphansExactly(l, d.refs[0]);
      OrphanByNumber(l, d);
    }
  }

  lemma OrphanByNumber(l: Ledger, d: Defect)
    requires |d.refs| == 1
    ensures OrphanOwed(l, d) <==>
      && d.kind == OrphanChild && d.missing == [] && l.present && d.refs[0] !in l.nodes
      && exists c :: c in l.children && c.number == d.refs[0]
  {
    if c :| c in l.children && c.number == d.refs[0] { assert d.refs == [c.number]; }
  }

  lemma GraphOwed(l: Ledger, d: Defect)
    ensures d in GraphFindings(l) <==>
      EpicOwed(l, d, MissingDepsSection) || EpicOwed(l, d, DepCycle) || EpicOwed(l, d, DanglingDep) || OrphanOwed(l, d)
  {
    SectionOwed(l, d);
    CyclesOwed(l, d);
    DanglingOwed(l, d);
    OrphansOwed(l, d);
    GraphFindingsParts(l, d);
  }

  lemma GraphFindingsParts(l: Ledger, d: Defect)
    ensures d in GraphFindings(l) <==>
      || d in When(!l.present, Note(MissingDepsSection, l.epic)) || d in NotesOf(Cycles(Elements(l.edges)))
      || d in Notes(DanglingDep, Listing(Elements(l.nodes) - Resolvable(l))) || d in Orphans(l)
  {
  }

  lemma StoriesOwed(l: Ledger, d: Defect)
    ensures d in StoryFindings(l) <==> EpicOwed(l, d, MissingStoriesSection) || EpicOwed(l, d, UncoveredStory)
  {
    SectionOwed(l, d);
    UncoveredOwed(l, d);
  }

  lemma MissingLabelsLack(labels: seq<string>)
    ensures Lacks(labels, MissingLabels(labels))
  {
    PrefixedExactly(labels, "type:");
    PrefixedExactly(labels, "status:");
  }

  lemma PrefixedExactly(labels: seq<string>, prefix: string)
    ensures Prefixed(labels, prefix) <==> exists x :: x in labels && prefix <= x
  {
    if x :| x in labels && prefix <= x {
      var i :| 0 <= i < |labels| && labels[i] == x;
      assert prefix <= labels[i];
    }
    if i :| 0 <= i < |labels| && prefix <= labels[i] { assert labels[i] in labels; }
  }

  ghost predicate Placed(missing: seq<string>) {
    && (forall i, j :: 0 <= i < j < |missing| ==> Place(missing[i]) < Place(missing[j]))
    && (forall m :: m in missing ==> m == "type:" || m == "status:" || m == "priority")
  }

  /** A list in that order is determined by what it names. */
  lemma {:induction false} PlacedCanonical(a: seq<string>, b: seq<string>)
    requires Placed(a) && Placed(b) && forall m :: m in a <==> m in b
    ensures a == b
  {
    assert a != [] ==> a[0] in b;
    assert b != [] ==> b[0] in a;
    if a == [] {
    } else {
      var m, n := |a| - 1, |b| - 1;
      assert a[m] in b && b[n] in a;
      assert a[m] == b[n];
      forall x ensures x in a[..m] <==> x in b[..n] {
        assert x in a[..m] ==> x in a && x != a[m];
        assert x in b[..n] ==> x in b && x != b[n];
      }
      PlacedCanonical(a[..m], b[..n]);
      assert a == a[..m] + [a[m]] && b == b[..n] + [b[n]];
    }
  }

  lemma LacksUnique(labels: seq<string>, a: seq<string>, b: seq<string>)
    requires Lacks(labels, a) && Lacks(labels, b)
    ensures a == b
  {
    forall m ensures m in a <==> m in b {
      if m in a { assert m == "type:" || m == "status:" || m == "priority"; }
      if m in b { assert m == "type:" || m == "status:" || m == "priority"; }
    }
    PlacedCanonical(a, b);
  }

  ghost predicate ChildKindOwed(l: Ledger, c: Child, d: Defect, kind: Kind) {
    d.kind == kind && OwedToChild(l, c, d)
  }

  lemma LabelsOwed(l: Ledger, c: Child, d: Defect)
    ensures d in When(MissingLabels(c.labels) != [], Defect(MissingLabel, [c.number], MissingLabels(c.labels)))
       <==> ChildKindOwed(l, c, d, MissingLabel)
  {
    MissingLabelsLack(c.labels);
    if Lacks(c.labels, d.missing) { LacksUnique(c.labels, d.missing, MissingLabels(c.labels)); }
  }

  lemma PlainOwed(l: Ledger, c: Child, d: Defect)
    ensures d in When(c.criteria < 1, Note(ZeroAc, c.number)) <==> ChildKindOwed(l, c, d, ZeroAc)
    ensures d in When(l.stories != [] && c.stories.None?, Note(MissingStory, c.number))
       <==> ChildKindOwed(l, c, d, MissingStory)
    ensures d in When("status:needs-triage" in c.labels, Note(NeedsTriageLabel, c.number))
       <==> ChildKindOwed(l, c, d, NeedsTriageLabel)
  {
  }

  lemma ContainmentOwed(l: Ledger, c: Child, d: Defect)
    ensures d in When(Uncontained(l.cycleDoc, c), Note(MissingContainment, c.number))
       <==> ChildKindOwed(l, c, d, MissingContainment)
  {
  }

  lemma ChildOwed(l: Ledger, c: Child, d: Defect)
    ensures d in OfChild(l, c) <==> OwedToChild(l, c, d) && d.kind != OrphanChild
  {
    PlainOwed(l, c, d);
    LabelsOwed(l, c, d);
    ContainmentOwed(l, c, d);
    OfChildParts(l, c, d);
    ChildKinds(l, c, d);
  }

  lemma OfChildParts(l: Ledger, c: Child, d: Defect)
    ensures d in OfChild(l, c) <==>
      || d in When(c.criteria < 1, Note(ZeroAc, c.number))
      || d in When(l.stories != [] && c.stories.None?, Note(MissingStory, c.number))
      || d in When(MissingLabels(c.labels) != [], Defect(MissingLabel, [c.number], MissingLabels(c.labels)))
      || d in When(Uncontained(l.cycleDoc, c), Note(MissingContainment, c.number))
      || d in When("status:needs-triage" in c.labels, Note(NeedsTriageLabel, c.number))
  {
  }

  lemma ChildKinds(l: Ledger, c: Child, d: Defect)
    ensures OwedToChild(l, c, d) && d.kind != OrphanChild <==>
      || ChildKindOwed(l, c, d, ZeroAc) || ChildKindOwed(l, c, d, MissingStory) || ChildKindOwed(l, c, d, MissingLabel)
      || ChildKindOwed(l, c, d, MissingContainment) || ChildKindOwed(l, c, d, NeedsTriageLabel)
  {
  }

  ghost predicate SomeOwed(l: Ledger, cs: seq<Child>, d: Defect) {
    OwedToSome(l, cs, d) && d.kind != OrphanChild
  }

  lemma {:induction false} ChildrenOwed(l: Ledger, cs: seq<Child>, d: Defect)
    ensures d in OfChildren(l, cs) <==> SomeOwed(l, cs, d)
  {
    if cs == [] {
    } else {
      var front, last := cs[..|cs| - 1], cs[|cs| - 1];
      FrontAndLast(cs);
      ChildrenOwed(l, front, d);
      ChildOwed(l, last, d);
      OwedToOneMore(l, front, last, d);
    }
  }

  lemma OwedToOneMore(l: Ledger, front: seq<Child>, last: Child, d: Defect)
    ensures OwedToSome(l, front + [last], d) <==> OwedToSome(l, front, d) || OwedToChild(l, last, d)
  {
    assert forall c :: c in front + [last] <==> c in front || c == last;
  }

  lemma SomeOwedSame(l: Ledger, cs: seq<Child>, d: Defect)
    requires forall c :: c in cs <==> c in l.children
    ensures SomeOwed(l, cs, d) <==> SomeOwed(l, l.children, d)
  {
  }

  lemma EpicKinds(l: Ledger, d: Defect)
    ensures OwedToEpic(l, d) <==>
      || EpicOwed(l, d, MissingDepsSection) || EpicOwed(l, d, DepCycle) || EpicOwed(l, d, DanglingDep)
      || EpicOwed(l, d, MissingStoriesSection) || EpicOwed(l, d, UncoveredStory)
  {
  }

  lemma FoundExactly(l: Ledger, d: Defect)
    ensures d in GraphFindings(l) + StoryFindings(l) + OfChildren(l, StableSort(NumberOf, l.children))
       <==> OwedToEpic(l, d) || OwedToSome(l, l.children, d)
  {
    var sorted := StableSort(NumberOf, l.children);
    GraphOwed(l, d);
    StoriesOwed(l, d);
    EpicKinds(l, d);
    ChildrenOwed(l, sorted, d);
    StableSortMembers(NumberOf, l.children);
    SomeOwedSame(l, sorted, d);
    InThree(GraphFindings(l), StoryFindings(l), OfChildren(l, sorted), d);
  }

  lemma InThree(a: seq<Defect>, b: seq<Defect>, c: seq<Defect>, d: Defect)
    ensures d in a + b + c <==> d in a || d in b || d in c
  {
  }

  /** The floor reports exactly the defects that are owed. */
  lemma DefectsExactly(l: Ledger, d: Defect)
    ensures d in Defects(l) <==> Owed(l, d)
  {
    if l.children != [] {
      SortDefectsSame(GraphFindings(l) + StoryFindings(l) + OfChildren(l, StableSort(NumberOf, l.children)), d);
      FoundExactly(l, d);
    }
  }

  lemma SortDefectsSame(ds: seq<Defect>, d: Defect)
    ensures d in SortDefects(ds) <==> d in ds
  {
    StableSortMembers(FirstRef, ds);
    StableSortMembers(RankOf, StableSort(FirstRef, ds));
  }

  // ---- each once ----

  lemma DistinctJoin<T>(a: seq<T>, b: seq<T>)
    requires Distinct(a) && Distinct(b) && forall x :: x in a ==> x !in b
    ensures Distinct(a + b)
  {
    var all := a + b;
    forall i, j | 0 <= i < j < |all| ensures all[i] != all[j] {
      if i < |a| <= j { assert a[i] in a && b[j - |a|] in b; }
    }
  }

  ghost predicate AllOf(ds: seq<Defect>, kind: Kind) {
    forall d :: d in ds ==> d.kind == kind
  }

  ghost predicate NoneOf(ds: seq<Defect>, kind: Kind) {
    forall d :: d in ds ==> d.kind != kind
  }

  lemma JoinKinds(a: seq<Defect>, b: seq<Defect>, kind: Kind)
    requires Distinct(a) && Distinct(b) && NoneOf(a, kind) && AllOf(b, kind)
    ensures Distinct(a + b) && forall other :: other != kind && NoneOf(a, other) ==> NoneOf(a + b, other)
  {
    DistinctJoin(a, b);
  }

  lemma NotesDistinct(kind: Kind, ns: seq<nat>)
    requires Distinct(ns)
    ensures Distinct(Notes(kind, ns)) && AllOf(Notes(kind, ns), kind)
  {
    var r := Notes(kind, ns);
    forall i, j | 0 <= i < j < |r| ensures r[i] != r[j] {
      assert r[i].refs[0] == ns[i] && r[j].refs[0] == ns[j];
    }
  }

  lemma NotesOfDistinct(cycles: seq<seq<nat>>)
    requires Distinct(cycles)
    ensures Distinct(NotesOf(cycles)) && AllOf(NotesOf(cycles), DepCycle)
  {
    var r := NotesOf(cycles);
    forall i, j | 0 <= i < j < |r| ensures r[i] != r[j] {
      assert r[i].refs == cycles[i] && r[j].refs == cycles[j];
    }
  }

  lemma OrphansDistinct(l: Ledger)
    requires Distinct(Numbers(l.children))
    ensures Distinct(Orphans(l)) && AllOf(Orphans(l), OrphanChild)
  {
    var outside := Outside(Numbers(l.children), Elements(l.nodes));
    SamePermutationDistinct(outside, StableSort(Number, outside));
    NotesDistinct(OrphanChild, StableSort(Number, outside));
  }

  /** The findings of the graph, kind by kind. */
  lemma GraphParts(l: Ledger) returns (a: seq<Defect>, b: seq<Defect>, c: seq<Defect>)
    ensures a == When(!l.present, Note(MissingDepsSection, l.epic)) && b == NotesOf(Cycles(Elements(l.edges)))
    ensures c == Notes(DanglingDep, Listing(Elements(l.nodes) - Resolvable(l)))
    ensures GraphFindings(l) == a + b + c + Orphans(l)
  {
    a, b := When(!l.present, Note(MissingDepsSection, l.epic)), NotesOf(Cycles(Elements(l.edges)));
    c := Notes(DanglingDep, Listing(Elements(l.nodes) - Resolvable(l)));
  }

  lemma FourDistinct(a: seq<Defect>, b: seq<Defect>, c: seq<Defect>, d: seq<Defect>)
    requires Distinct(a) && Distinct(b) && Distinct(c) && Distinct(d)
    requires AllOf(a, MissingDepsSection) && AllOf(b, DepCycle) && AllOf(c, DanglingDep) && AllOf(d, OrphanChild)
    ensures Distinct(a + b + c + d)
  {
    JoinKinds(a, b, DepCycle);
    JoinKinds(a + b, c, DanglingDep);
    JoinKinds(a + b + c, d, OrphanChild);
  }

  lemma GraphFindingsDistinct(l: Ledger)
    requires Distinct(Numbers(l.children))
    ensures Distinct(GraphFindings(l))
  {
    var a, b, c := GraphParts(l);
    CycleProperties.ReportedCyclesAreCycles(Elements(l.edges));
    NotesOfDistinct(Cycles(Elements(l.edges)));
    NotesDistinct(DanglingDep, Listing(Elements(l.nodes) - Resolvable(l)));
    OrphansDistinct(l);
    FourDistinct(a, b, c, Orphans(l));
  }

  lemma StoryFindingsDistinct(l: Ledger)
    ensures Distinct(StoryFindings(l))
  {
    NotesDistinct(UncoveredStory, Listing(Elements(l.stories) - Covered(l)));
    JoinKinds(When(l.stories == [], Note(MissingStoriesSection, l.epic)),
              Notes(UncoveredStory, Listing(Elements(l.stories) - Covered(l))), UncoveredStory);
  }

  lemma FiveDistinct(a: seq<Defect>, b: seq<Defect>, c: seq<Defect>, d: seq<Defect>, e: seq<Defect>)
    requires Distinct(a) && Distinct(b) && Distinct(c) && Distinct(d) && Distinct(e)
    requires AllOf(a, ZeroAc) && AllOf(b, MissingStory) && AllOf(c, MissingLabel)
    requires AllOf(d, MissingContainment) && AllOf(e, NeedsTriageLabel)
    ensures Distinct(a + b + c + d + e)
  {
    JoinKinds(a, b, MissingStory);
    JoinKinds(a + b, c, MissingLabel);
    JoinKinds(a + b + c, d, MissingContainment);
    JoinKinds(a + b + c + d, e, NeedsTriageLabel);
  }

  lemma WhenDistinct(found: bool, d: Defect)
    ensures Distinct(When(found, d)) && AllOf(When(found, d), d.kind)
  {
  }

  lemma OfChildDistinct(l: Ledger, c: Child)
    ensures Distinct(OfChild(l, c))
  {
    var x := Defect(MissingLabel, [c.number], MissingLabels(c.labels));
    WhenDistinct(c.criteria < 1, Note(ZeroAc, c.number));
    WhenDistinct(l.stories != [] && c.stories.None?, Note(MissingStory, c.number));
    WhenDistinct(MissingLabels(c.labels) != [], x);
    WhenDistinct(Uncontained(l.cycleDoc, c), Note(MissingContainment, c.number));
    WhenDistinct("status:needs-triage" in c.labels, Note(NeedsTriageLabel, c.number));
    FiveDistinct(When(c.criteria < 1, Note(ZeroAc, c.number)),
                 When(l.stories != [] && c.stories.None?, Note(MissingStory, c.number)),
                 When(MissingLabels(c.labels) != [], x),
                 When(Uncontained(l.cycleDoc, c), Note(MissingContainment, c.number)),
                 When("status:needs-triage" in c.labels, Note(NeedsTriageLabel, c.number)));
  }

  lemma {:induction false} OfChildrenDistinct(l: Ledger, cs: seq<Child>)
    requires Distinct(Numbers(cs))
    ensures Distinct(OfChildren(l, cs))
  {
    if cs == [] {
    } else {
      var n := |cs| - 1;
      FrontNumbers(cs);
      OfChildrenDistinct(l, cs[..n]);
      OfChildDistinct(l, cs[n]);
      forall d | d in OfChildren(l, cs[..n]) ensures d !in OfChild(l, cs[n]) {
        ChildrenOwed(l, cs[..n], d);
        ChildOwed(l, cs[n], d);
        var c :| c in cs[..n] && OwedToChild(l, c, d);
      }
      DistinctJoin(OfChildren(l, cs[..n]), OfChild(l, cs[n]));
    }
  }

  lemma FrontNumbers(cs: seq<Child>)
    requires cs != [] && Distinct(Numbers(cs))
    ensures Distinct(Numbers(cs[..|cs| - 1])) && forall c :: c in cs[..|cs| - 1] ==> c.number != cs[|cs| - 1].number
  {
    var n, ns := |cs| - 1, Numbers(cs);
    assert Numbers(cs[..n]) == ns[..n];
    forall c | c in cs[..n] ensures c.number != cs[n].number {
      var i :| 0 <= i < n && cs[i] == c;
      assert ns[i] == c.number && ns[n] == cs[n].number;
    }
  }

  /** No defect is reported twice when linked children have different numbers. */
  lemma NoDefectTwice(l: Ledger)
    requires Distinct(Numbers(l.children))
    ensures Distinct(Defects(l))
  {
    if l.children != [] {
      var sorted := StableSort(NumberOf, l.children);
      var found := GraphFindings(l) + StoryFindings(l) + OfChildren(l, sorted);
      SortKeepsNumbers(l.children);
      SamePermutationDistinct(Numbers(l.children), Numbers(sorted));
      GraphFindingsDistinct(l);
      StoryFindingsDistinct(l);
      OfChildrenDistinct(l, sorted);
      forall d | d in GraphFindings(l) ensures d !in StoryFindings(l) {
        GraphOwed(l, d);
        StoriesOwed(l, d);
      }
      DistinctJoin(GraphFindings(l), StoryFindings(l));
      forall d | d in GraphFindings(l) + StoryFindings(l) ensures d !in OfChildren(l, sorted) {
        GraphOwed(l, d);
        StoriesOwed(l, d);
        ChildrenOwed(l, sorted, d);
      }
      DistinctJoin(GraphFindings(l) + StoryFindings(l), OfChildren(l, sorted));
      SamePermutationDistinct(found, StableSort(FirstRef, found));
      SamePermutationDistinct(StableSort(FirstRef, found), SortDefects(found));
    }
  }

  // ---- in which order ----

  /** The canonical order of the kinds. */
  const KINDS: seq<Kind> :=
    [ZeroScope, MissingDepsSection, DepCycle, DanglingDep, OrphanChild, MissingStoriesSection, UncoveredStory, ZeroAc,
     MissingStory, MissingLabel, MissingContainment, NeedsTriageLabel]

  lemma RankIsPlace(kind: Kind)
    ensures 0 <= Rank(kind) < |KINDS| && KINDS[Rank(kind)] == kind
  {
  }

  /** Of two defects the kind of the first comes no later in the canonical order, and within one kind the
      first issue concerned is no greater. */
  lemma KindsInOrder(l: Ledger, i: nat, j: nat) returns (a: nat, b: nat)
    requires i < j < |Defects(l)|
    ensures a <= b < |KINDS| && Defects(l)[i].kind == KINDS[a] && Defects(l)[j].kind == KINDS[b]
    ensures a == b && Defects(l)[i].refs != [] && Defects(l)[j].refs != [] ==>
      Defects(l)[i].refs[0] <= Defects(l)[j].refs[0]
  {
    DefectsInOrder(l);
    var d, e := Defects(l)[i], Defects(l)[j];
    assert NotAfter(RankOf, FirstRef, d, e);
    a, b := KindPlaces(d, e);
  }

  lemma KindPlaces(d: Defect, e: Defect) returns (a: nat, b: nat)
    requires NotAfter(RankOf, FirstRef, d, e)
    ensures a <= b < |KINDS| && d.kind == KINDS[a] && e.kind == KINDS[b] && (a == b ==> FirstRef(d) <= FirstRef(e))
  {
    RankIsPlace(d.kind);
    RankIsPlace(e.kind);
    a, b := Rank(d.kind), Rank(e.kind);
  }

  ghost function Only<T>(p: T -> bool, s: seq<T>): seq<T> {
    if s == [] then [] else (if p(s[0]) then [s[0]] else []) + Only(p, s[1..])
  }

  lemma OnlyCons<T>(p: T -> bool, x: T, s: seq<T>)
    ensures Only(p, [x] + s) == if p(x) then [x] + Only(p, s) else Only(p, s)
  {
    assert ([x] + s)[1..] == s;
  }

  lemma InsertFurther<T>(key: T -> int, x: T, y: T, s: seq<T>)
    requires key(x) > key(y)
    ensures Insert(key, x, [y] + s) == [y] + Insert(key, x, s)
  {
    assert ([y] + s)[1..] == s;
  }

  lemma {:induction false} OnlyInsert<T>(p: T -> bool, key: T -> int, x: T, s: seq<T>)
    requires SortedBy(key, s)
    ensures Only(p, Insert(key, x, s)) == if p(x) then Insert(key, x, Only(p, s)) else Only(p, s)
  {
    if s == [] || key(x) <= key(s[0]) {
      OnlyCons(p, x, s);
      OnlyBound(p, key, key(x), s);
    } else {
      var y, tail := s[0], s[1..];
      assert s == [y] + tail;
      OnlyInsert(p, key, x, tail);
      InsertFurther(key, x, y, tail);
      InsertFurther(key, x, y, Only(p, tail));
      OnlyCons(p, y, Insert(key, x, tail));
      OnlyCons(p, y, tail);
    }
  }

  lemma {:induction false} OnlyBound<T>(p: T -> bool, key: T -> int, k: int, s: seq<T>)
    requires forall i :: 0 <= i < |s| ==> k <= key(s[i])
    ensures Only(p, s) != [] ==> k <= key(Only(p, s)[0])
  {
    if s == [] {
    } else {
      OnlyBound(p, key, k, s[1..]);
    }
  }

  lemma SortCons<T>(key: T -> int, x: T, s: seq<T>)
    ensures StableSort(key, [x] + s) == Insert(key, x, StableSort(key, s))
  {
    assert ([x] + s)[1..] == s;
  }

  /** Sorting and picking out can be exchanged. */
  lemma {:induction false} OnlySorted<T>(p: T -> bool, key: T -> int, s: seq<T>)
    ensures Only(p, StableSort(key, s)) == StableSort(key, Only(p, s))
  {
    if s == [] {
    } else {
      var x, tail := s[0], s[1..];
      assert s == [x] + tail;
      OnlySorted(p, key, tail);
      StableSortIsStable(key, tail, 0);
      SortCons(key, x, tail);
      OnlyInsert(p, key, x, StableSort(key, tail));
      OnlyCons(p, x, tail);
      SortCons(key, x, Only(p, tail));
    }
  }

  lemma {:induction false} SortOfSorted<T>(key: T -> int, s: seq<T>)
    requires SortedBy(key, s)
    ensures StableSort(key, s) == s
  {
    if s == [] {
    } else {
      SortOfSorted(key, s[1..]);
      assert s == [s[0]] + s[1..];
    }
  }

  lemma {:induction false} OnlyJoin<T>(p: T -> bool, a: seq<T>, b: seq<T>)
    ensures Only(p, a + b) == Only(p, a) + Only(p, b)
  {
    if a == [] {
      assert a + b == b;
    } else {
      var x, tail := a[0], a[1..];
      assert a == [x] + tail;
      Regroup([x], tail, b);
      Regroup([x], Only(p, tail), Only(p, b));
      OnlyJoin(p, tail, b);
      OnlyCons(p, x, tail + b);
      OnlyCons(p, x, tail);
    }
  }

  lemma {:induction false} OnlyAll<T>(p: T -> bool, s: seq<T>)
    ensures (forall x :: x in s ==> p(x)) ==> Only(p, s) == s
    ensures (forall x :: x in s ==> !p(x)) ==> Only(p, s) == []
  {
    if s == [] {
    } else {
      OnlyAll(p, s[1..]);
      assert s == [s[0]] + s[1..];
    }
  }

  ghost function Of(kind: Kind): Defect -> bool {
    (d: Defect) => d.kind == kind
  }

  /** The dependency cycles are reported in the order `findCycles` lists them. */
  lemma CyclesInOrder(l: Ledger)
    requires l.children != []
    ensures Only(Of(DepCycle), Defects(l)) == NotesOf(Cycles(Elements(l.edges)))
  {
    var sorted := StableSort(NumberOf, l.children);
    var found := GraphFindings(l) + StoryFindings(l) + OfChildren(l, sorted);
    var p, cycles := Of(DepCycle), NotesOf(Cycles(Elements(l.edges)));
    OnlySorted(p, FirstRef, found);
    OnlySorted(p, RankOf, StableSort(FirstRef, found));
    CyclesFound(l, sorted);
    CycleProperties.ReportedCyclesAreCycles(Elements(l.edges));
    CycleNotesSorted(Cycles(Elements(l.edges)));
    SortOfSorted(FirstRef, cycles);
    SortOfSorted(RankOf, cycles);
  }

  lemma CycleNotesSorted(cycles: seq<seq<nat>>)
    requires SortedBy(Head, cycles)
    ensures SortedBy(FirstRef, NotesOf(cycles)) && SortedBy(RankOf, NotesOf(cycles))
  {
    var r := NotesOf(cycles);
    forall i, j | 0 <= i < j < |r| ensures FirstRef(r[i]) <= FirstRef(r[j]) {
      assert Head(cycles[i]) <= Head(cycles[j]);
    }
  }

  lemma OnlyOther(kind: Kind, ds: seq<Defect>)
    requires NoneOf(ds, kind)
    ensures Only(Of(kind), ds) == []
  {
    OnlyAll(Of(kind), ds);
  }

  lemma OnlySecond(a: seq<Defect>, b: seq<Defect>, c: seq<Defect>, d: seq<Defect>, kind: Kind)
    requires NoneOf(a, kind) && AllOf(b, kind) && NoneOf(c, kind) && NoneOf(d, kind)
    ensures Only(Of(kind), a + b + c + d) == b
  {
    var p := Of(kind);
    OnlyJoin(p, a + b + c, d);
    OnlyJoin(p, a + b, c);
    OnlyJoin(p, a, b);
    OnlyOther(kind, a);
    OnlyOther(kind, c);
    OnlyOther(kind, d);
    OnlyAll(p, b);
  }

  lemma CyclesInGraph(l: Ledger)
    ensures Only(Of(DepCycle), GraphFindings(l)) == NotesOf(Cycles(Elements(l.edges)))
  {
    var a, b, c := GraphParts(l);
    forall d ensures d in c ==> d.kind != DepCycle { DanglingOwed(l, d); }
    forall d ensures d in Orphans(l) ==> d.kind != DepCycle { OrphansOwed(l, d); }
    forall d ensures d in b ==> d.kind == DepCycle { CyclesOwed(l, d); }
    OnlySecond(a, b, c, Orphans(l), DepCycle);
  }

  lemma CyclesFound(l: Ledger, cs: seq<Child>)
    ensures Only(Of(DepCycle), GraphFindings(l) + StoryFindings(l) + OfChildren(l, cs))
         == NotesOf(Cycles(Elements(l.edges)))
  {
    var p := Of(DepCycle);
    OnlyJoin(p, GraphFindings(l) + StoryFindings(l), OfChildren(l, cs));
    OnlyJoin(p, GraphFindings(l), StoryFindings(l));
    forall d ensures d in OfChildren(l, cs) ==> d.kind != DepCycle { ChildrenOwed(l, cs, d); }
    forall d ensures d in StoryFindings(l) ==> d.kind != DepCycle { StoriesOwed(l, d); }
    OnlyOther(DepCycle, StoryFindings(l));
    OnlyOther(DepCycle, OfChildren(l, cs));
    CyclesInGraph(l);
  }
}
