/** The structural floor an epic must clear: `validateLedger`, and the signature of what it finds. */
module LedgerFloor {
  import opened CycleFinder
  import opened CycleProperties
  import opened DependencyGraph
  import opened Options
  import opened Ordering

  datatype Containment = Flag | Exempt | Unset

  datatype Child = Child(number: nat, labels: seq<string>, criteria: nat, stories: Option<seq<nat>>,
                         containment: Option<Containment>)

  /** A decoded ledger: the epic's own fields first, then its linked children. */
  datatype Ledger = Ledger(epic: nat, present: bool, nodes: seq<nat>, edges: seq<Edge>, stories: seq<nat>,
                           children: seq<Child>, external: seq<nat>, cycleDoc: bool)

  datatype Kind =
    | ZeroScope | MissingDepsSection | DepCycle | DanglingDep | OrphanChild | MissingStoriesSection
    | UncoveredStory | ZeroAc | MissingStory | MissingLabel | MissingContainment | NeedsTriageLabel

  /** A message is determined by the epic's number and these three. */
  datatype Defect = Defect(kind: Kind, refs: seq<nat>, missing: seq<string>)

  function Rank(kind: Kind): int {
    match kind
    case ZeroScope => 0
    case MissingDepsSection => 1
    case DepCycle => 2
    case DanglingDep => 3
    case OrphanChild => 4
    case MissingStoriesSection => 5
    case UncoveredStory => 6
    case ZeroAc => 7
    case MissingStory => 8
    case MissingLabel => 9
    case MissingContainment => 10
    case NeedsTriageLabel => 11
  }

  function RankOf(d: Defect): int { Rank(d.kind) }

  function FirstRef(d: Defect): int { if d.refs == [] then 0 else d.refs[0] }

  function NumberOf(c: Child): int { c.number }

  /** Rank first, first issue second, ties in the order found. */
  function SortDefects(ds: seq<Defect>): seq<Defect> {
    StableSort(RankOf, StableSort(FirstRef, ds))
  }

  function Note(kind: Kind, n: nat): Defect { Defect(kind, [n], []) }

  function Notes(kind: Kind, ns: seq<nat>): seq<Defect> {
    seq(|ns|, i requires 0 <= i < |ns| => Note(kind, ns[i]))
  }

  function NotesOf(cycles: seq<seq<nat>>): seq<Defect> {
    seq(|cycles|, i requires 0 <= i < |cycles| => Defect(DepCycle, cycles[i], []))
  }

  function When(found: bool, d: Defect): seq<Defect> { if found then [d] else [] }

  /** The members of `s` that are not in `known`, order kept. */
  function Outside(s: seq<nat>, known: set<nat>): (r: seq<nat>)
    ensures forall n :: n in r <==> n in s && n !in known
    ensures Distinct(s) ==> Distinct(r)
  {
    if s == [] then [] else
      var front := s[..|s| - 1];
      var last := s[|s| - 1];
      assert s == front + [last];
      Outside(front, known) + (if last in known then [] else [last])
  }

  // ---- one child ----

  predicate Prefixed(labels: seq<string>, prefix: string) {
    exists i :: 0 <= i < |labels| && prefix <= labels[i]
  }

  predicate Prioritised(labels: seq<string>) {
    "p0" in labels || "p1" in labels || "p2" in labels
  }

  function MissingLabels(labels: seq<string>): seq<string> {
    (if Prefixed(labels, "type:") then [] else ["type:"])
    + (if Prefixed(labels, "status:") then [] else ["status:"])
    + (if Prioritised(labels) then [] else ["priority"])
  }

  predicate Uncontained(cycleDoc: bool, c: Child) {
    cycleDoc && "type:feature" in c.labels && (c.containment.None? || c.containment.value == Unset)
  }

  function OfChild(l: Ledger, c: Child): seq<Defect> {
    When(c.criteria < 1, Note(ZeroAc, c.number))
    + When(l.stories != [] && c.stories.None?, Note(MissingStory, c.number))
    + When(MissingLabels(c.labels) != [], Defect(MissingLabel, [c.number], MissingLabels(c.labels)))
    + When(Uncontained(l.cycleDoc, c), Note(MissingContainment, c.number))
    + When("status:needs-triage" in c.labels, Note(NeedsTriageLabel, c.number))
  }

  function OfChildren(l: Ledger, cs: seq<Child>): seq<Defect> {
    if cs == [] then [] else OfChildren(l, cs[..|cs| - 1]) + OfChild(l, cs[|cs| - 1])
  }

  // ---- the whole ledger ----

  ghost function ChildNumbers(l: Ledger): set<nat> {
    set c | c in l.children :: c.number
  }

  ghost function Resolvable(l: Ledger): set<nat> {
    {l.epic} + ChildNumbers(l) + Elements(l.external)
  }

  /** The stories some linked child traces to. */
  ghost function Covered(l: Ledger): set<nat> {
    set c, s | c in l.children && c.stories.Some? && s in c.stories.value :: s
  }

  ghost function GraphFindings(l: Ledger): seq<Defect> {
    When(!l.present, Note(MissingDepsSection, l.epic))
    + NotesOf(Cycles(Elements(l.edges)))
    + Notes(DanglingDep, Listing(Elements(l.nodes) - Resolvable(l)))
    + (if l.present then Notes(OrphanChild,
                               StableSort(Number, Outside(Numbers(l.children), Elements(l.nodes)))) else [])
  }

  ghost function StoryFindings(l: Ledger): seq<Defect> {
    When(l.stories == [], Note(MissingStoriesSection, l.epic))
    + Notes(UncoveredStory, Listing(Elements(l.stories) - Covered(l)))
  }

  /** What `validateLedger` returns. */
  ghost function Defects(l: Ledger): seq<Defect> {
    if l.children == [] then [Note(ZeroScope, l.epic)]
    else SortDefects(GraphFindings(l) + StoryFindings(l) + OfChildren(l, StableSort(NumberOf, l.children)))
  }

  function Numbers(cs: seq<Child>): seq<nat> {
    seq(|cs|, i requires 0 <= i < |cs| => cs[i].number)
  }

  // ---- the validator ----

  lemma OutsideListing(s: seq<nat>, known: set<nat>)
    requires Distinct(s)
    ensures StableSort(Number, Outside(s, known)) == Listing(Elements(s) - known)
  {
    var r := Outside(s, known);
    SortedDistinct(r);
    assert Elements(r) == Elements(s) - known;
  }

  /** `[...new Set(s)].filter(...).sort(...)` */
  method Unknown(s: seq<nat>, known: set<nat>) returns (r: seq<nat>)
    ensures r == Listing(Elements(s) - known)
  {
    r := StableSort(Number, Outside(Dedupe(s), known));
    OutsideListing(Dedupe(s), known);
    assert Elements(Dedupe(s)) == Elements(s);
  }

  method CoveredStories(l: Ledger) returns (covered: set<nat>)
    ensures covered == Covered(l)
  {
    covered := {};
    for i := 0 to |l.children|
      invariant forall s :: s in covered <==> CoveredBy(l.children[..i], s)
    {
      var c := l.children[i];
      covered := covered + if c.stories.Some? then set s | s in c.stories.value else {};
      assert l.children[..i + 1] == l.children[..i] + [c];
    }
    assert l.children[..|l.children|] == l.children;
  }

  ghost predicate CoveredBy(cs: seq<Child>, s: nat) {
    exists c :: c in cs && c.stories.Some? && s in c.stories.value
  }

  method FindInGraph(l: Ledger) returns (found: seq<Defect>)
    ensures found == GraphFindings(l)
  {
    found := When(!l.present, Note(MissingDepsSection, l.epic));
    var cycles := FindCycles(l.edges);
    found := found + NotesOf(cycles);
    var known := {l.epic} + (set c | c in l.children :: c.number) + (set n | n in l.external);
    var dangling := Unknown(l.nodes, known);
    found := found + Notes(DanglingDep, dangling);
    if l.present {
      var orphans := StableSort(Number, Outside(Numbers(l.children), set n | n in l.nodes));
      found := found + Notes(OrphanChild, orphans);
    }
  }

  method FindInStories(l: Ledger) returns (found: seq<Defect>)
    ensures found == StoryFindings(l)
  {
    found := When(l.stories == [], Note(MissingStoriesSection, l.epic));
    var covered := CoveredStories(l);
    var uncovered := Unknown(l.stories, covered);
    found := found + Notes(UncoveredStory, uncovered);
  }

  method FindInChildren(l: Ledger, children: seq<Child>) returns (found: seq<Defect>)
    ensures found == OfChildren(l, children)
  {
    found := [];
    for i := 0 to |children|
      invariant found == OfChildren(l, children[..i])
    {
      assert children[..i + 1][..i] == children[..i];
      found := found + OfChild(l, children[i]);
    }
    assert children[..|children|] == children;
  }

  /** `validateLedger`. */
  method Validate(l: Ledger) returns (defects: seq<Defect>)
    ensures defects == Defects(l)
  {
    if |l.children| == 0 { return [Note(ZeroScope, l.epic)]; }
    var inGraph := FindInGraph(l);
    var inStories := FindInStories(l);
    var inChildren := FindInChildren(l, StableSort(NumberOf, l.children));
    defects := SortDefects(inGraph + inStories + inChildren);
  }

  // ---- what a clean floor means ----

  predicate ChildSound(cycleDoc: bool, c: Child) {
    && c.criteria >= 1 && c.stories.Some?
    && Prefixed(c.labels, "type:") && Prefixed(c.labels, "status:") && Prioritised(c.labels)
    && !Uncontained(cycleDoc, c) && "status:needs-triage" !in c.labels
  }

  /** The dependencies are declared, free of directed cycles, resolvable, and mention every child. */
  ghost predicate GraphSound(l: Ledger) {
    && l.present
    && (forall w: seq<nat> :: !SimpleCycle(Elements(l.edges), w))
    && AllIn(l.nodes, Resolvable(l))
    && AllMentioned(l)
  }

  ghost predicate StoriesSound(l: Ledger) {
    l.stories != [] && AllIn(l.stories, Covered(l))
  }

  ghost predicate LedgerSound(l: Ledger) {
    l.children != [] && GraphSound(l) && StoriesSound(l) && AllSound(l.cycleDoc, l.children)
  }

  ghost predicate AllIn(s: seq<nat>, known: set<nat>) {
    forall n: nat :: n in s ==> n in known
  }

  lemma NothingOutside(s: seq<nat>, known: set<nat>)
    ensures Listing(Elements(s) - known) == [] <==> AllIn(s, known)
  {
    var rest := Elements(s) - known;
    if AllIn(s, known) {
      assert rest == {};
    } else {
      var x: nat :| x in s && x !in known;
      assert x in rest && x in Listing(rest);
    }
  }

  lemma NumbersMembers(cs: seq<Child>, n: nat)
    ensures n in Numbers(cs) <==> exists c :: c in cs && c.number == n
  {
    var ns := Numbers(cs);
    if n in ns { var i :| 0 <= i < |ns| && ns[i] == n; assert cs[i] in cs; }
    if c :| c in cs && c.number == n { var i :| 0 <= i < |cs| && cs[i] == c; assert ns[i] == n; }
  }

  ghost predicate AllMentioned(l: Ledger) {
    forall c :: c in l.children ==> c.number in l.nodes
  }

  lemma NoOrphansExactly(l: Ledger)
    ensures StableSort(Number, Outside(Numbers(l.children), Elements(l.nodes))) == [] <==> AllMentioned(l)
  {
    var outside := Outside(Numbers(l.children), Elements(l.nodes));
    StableSortMembers(Number, outside);
    forall c | c in l.children && c.number !in l.nodes ensures c.number in outside {
      NumbersMembers(l.children, c.number);
    }
    if outside != [] {
      NumbersMembers(l.children, outside[0]);
      assert outside[0] in outside;
    }
  }

  lemma GraphExactly(l: Ledger)
    ensures GraphFindings(l) == [] <==> GraphSound(l)
  {
    EmptyExactlyWhenAcyclic(Elements(l.edges));
    NothingOutside(l.nodes, Resolvable(l));
    NoOrphansExactly(l);
  }

  lemma StoriesExactly(l: Ledger)
    ensures StoryFindings(l) == [] <==> StoriesSound(l)
  {
    NothingOutside(l.stories, Covered(l));
    assert forall s :: s in Covered(l) <==> CoveredBy(l.children, s);
  }

  lemma ChildExactly(l: Ledger, c: Child)
    requires l.stories != []
    ensures OfChild(l, c) == [] <==> ChildSound(l.cycleDoc, c)
  {
  }

  ghost predicate AllSound(cycleDoc: bool, cs: seq<Child>) {
    forall c :: c in cs ==> ChildSound(cycleDoc, c)
  }

  lemma {:induction false} ChildrenExactly(l: Ledger, cs: seq<Child>)
    requires l.stories != []
    ensures OfChildren(l, cs) == [] <==> AllSound(l.cycleDoc, cs)
  {
    if cs == [] {
    } else {
      var front, last := cs[..|cs| - 1], cs[|cs| - 1];
      assert cs == front + [last];
      ChildrenExactly(l, front);
      NothingFound(l, cs);
      ChildExactly(l, last);
      AllSoundSplit(l.cycleDoc, front, last);
    }
  }

  lemma NothingFound(l: Ledger, cs: seq<Child>)
    requires cs != []
    ensures OfChildren(l, cs) == [] <==> OfChildren(l, cs[..|cs| - 1]) == [] && OfChild(l, cs[|cs| - 1]) == []
  {
  }

  lemma AllSoundSplit(cycleDoc: bool, front: seq<Child>, last: Child)
    ensures AllSound(cycleDoc, front + [last]) <==> AllSound(cycleDoc, front) && ChildSound(cycleDoc, last)
  {
    assert last in front + [last];
    assert forall c :: c in front ==> c in front + [last];
  }

  lemma SortDefectsMembers(ds: seq<Defect>)
    ensures |SortDefects(ds)| == |ds|
  {
    StableSortMembers(FirstRef, ds);
    StableSortMembers(RankOf, StableSort(FirstRef, ds));
  }

  lemma ChildrenFindingsExactly(l: Ledger)
    requires l.stories != []
    ensures OfChildren(l, StableSort(NumberOf, l.children)) == [] <==> AllSound(l.cycleDoc, l.children)
  {
    StableSortMembers(NumberOf, l.children);
    ChildrenExactly(l, StableSort(NumberOf, l.children));
  }

  /** The floor reports nothing exactly when the ledger is sound, cycle freedom included. */
  lemma CleanExactlyWhenSound(l: Ledger)
    ensures Defects(l) == [] <==> LedgerSound(l)
  {
    if l.children != [] {
      SortDefectsMembers(GraphFindings(l) + StoryFindings(l) + OfChildren(l, StableSort(NumberOf, l.children)));
      GraphExactly(l);
      StoriesExactly(l);
      if l.stories != [] { ChildrenFindingsExactly(l); }
    }
  }

  /** A clean ledger can be worked off: some order picks every issue after all it waits on. */
  lemma CleanIsPickable(l: Ledger)
    requires Defects(l) == []
    ensures exists order: seq<nat> :: PickOrder(Elements(l.edges), order)
  {
    CleanExactlyWhenSound(l);
    EmptyExactlyWhenAcyclic(Elements(l.edges));
    NoCyclesExactlyWhenPickable(Elements(l.edges));
  }

  // ---- the canonical order ----

  predicate NotAfter<T>(first: T -> int, second: T -> int, x: T, y: T) {
    first(x) < first(y) || (first(x) == first(y) && second(x) <= second(y))
  }

  ghost predicate InOrder<T>(first: T -> int, second: T -> int, s: seq<T>) {
    forall i, j :: 0 <= i < j < |s| ==> NotAfter(first, second, s[i], s[j])
  }

  lemma {:induction false} InsertInOrder<T>(first: T -> int, second: T -> int, x: T, s: seq<T>)
    requires InOrder(first, second, s) && forall y :: y in s ==> second(x) <= second(y)
    ensures InOrder(first, second, Insert(first, x, s))
  {
    if s == [] || first(x) <= first(s[0]) {
      forall j | 0 <= j < |s| ensures NotAfter(first, second, x, s[j]) {
        assert s[j] in s;
        if j > 0 { assert NotAfter(first, second, s[0], s[j]); }
      }
      InOrderCons(first, second, x, s);
    } else {
      var tail := Insert(first, x, s[1..]);
      InsertInOrder(first, second, x, s[1..]);
      forall j | 0 <= j < |tail| ensures NotAfter(first, second, s[0], tail[j]) {
        assert tail[j] in multiset(tail);
        assert tail[j] == x || tail[j] in s[1..];
      }
      InOrderCons(first, second, s[0], tail);
    }
  }

  lemma InOrderCons<T>(first: T -> int, second: T -> int, x: T, s: seq<T>)
    requires InOrder(first, second, s) && forall j :: 0 <= j < |s| ==> NotAfter(first, second, x, s[j])
    ensures InOrder(first, second, [x] + s)
  {
  }

  /** A stable sort by one key keeps an earlier sort by another, among equals. */
  lemma {:induction false} SecondSortKeeps<T>(first: T -> int, second: T -> int, s: seq<T>)
    requires SortedBy(second, s)
    ensures InOrder(first, second, StableSort(first, s))
  {
    if s == [] {
    } else {
      SecondSortKeeps(first, second, s[1..]);
      var tail := StableSort(first, s[1..]);
      forall y | y in tail ensures second(s[0]) <= second(y) {
        assert y in multiset(tail) && multiset(tail) == multiset(s[1..]);
        var j :| 0 <= j < |s| - 1 && s[1..][j] == y;
        assert s[j + 1] == y;
      }
      InsertInOrder(first, second, s[0], tail);
    }
  }

  /** Defects are listed by rank, then by the first issue they concern. */
  lemma DefectsInOrder(l: Ledger)
    ensures InOrder(RankOf, FirstRef, Defects(l))
  {
    if l.children != [] {
      var found := GraphFindings(l) + StoryFindings(l) + OfChildren(l, StableSort(NumberOf, l.children));
      StableSortIsStable(FirstRef, found, 0);
      SecondSortKeeps(RankOf, FirstRef, StableSort(FirstRef, found));
    }
  }

  // ---- presentation order ----

  /** The same plan, its lists permuted (dependencies and stories possibly repeated too). */
  ghost predicate SamePlan(l: Ledger, m: Ledger) {
    && l.epic == m.epic && l.present == m.present && l.cycleDoc == m.cycleDoc
    && Elements(l.nodes) == Elements(m.nodes) && Elements(l.edges) == Elements(m.edges)
    && Elements(l.stories) == Elements(m.stories) && Elements(l.external) == Elements(m.external)
    && multiset(l.children) == multiset(m.children)
  }

  lemma BagFront<T>(a: seq<T>)
    requires a != []
    ensures multiset(a[..|a| - 1]) == multiset(a) - multiset{a[|a| - 1]}
  {
    assert a == a[..|a| - 1] + [a[|a| - 1]];
  }

  lemma LastIsTop<T>(key: T -> int, a: seq<T>, x: T)
    requires SortedBy(key, a) && x in multiset(a)
    ensures a != [] && key(x) <= key(a[|a| - 1])
  {
    assert x in a;
    var i :| 0 <= i < |a| && a[i] == x;
  }

  lemma SameFrontSameWhole<T>(a: seq<T>, b: seq<T>)
    requires a != [] && b != [] && a[..|a| - 1] == b[..|b| - 1] && a[|a| - 1] == b[|b| - 1]
    ensures a == b
  {
    assert a == a[..|a| - 1] + [a[|a| - 1]];
    assert b == b[..|b| - 1] + [b[|b| - 1]];
  }

  ghost predicate KeyTells<T>(key: T -> int, bag: multiset<T>) {
    forall x, y :: x in bag && y in bag && key(x) == key(y) ==> x == y
  }

  /** One bag has one sorted listing when its keys are distinct. */
  lemma {:induction false} SortedByIsCanonical<T>(key: T -> int, a: seq<T>, b: seq<T>)
    requires SortedBy(key, a) && SortedBy(key, b) && multiset(a) == multiset(b)
    requires KeyTells(key, multiset(a))
    ensures a == b
  {
    assert |multiset(a)| == |a| && |multiset(b)| == |b|;
    if a == [] {
    } else {
      var n := |a| - 1;
      LastIsTop(key, b, a[n]);
      LastIsTop(key, a, b[n]);
      assert a[n] == b[n];
      BagFront(a);
      BagFront(b);
      SortedByIsCanonical(key, a[..n], b[..n]);
      SameFrontSameWhole(a, b);
    }
  }

  /** Linked children are told apart by their numbers; one of them may be listed more than once. */
  ghost predicate NumbersTell(l: Ledger) {
    forall x, y :: x in l.children && y in l.children && x.number == y.number ==> x == y
  }

  lemma SameSortedChildren(l: Ledger, m: Ledger)
    requires SamePlan(l, m) && NumbersTell(l)
    ensures StableSort(NumberOf, l.children) == StableSort(NumberOf, m.children)
  {
    StableSortIsStable(NumberOf, l.children, 0);
    StableSortIsStable(NumberOf, m.children, 0);
    forall x, y | x in multiset(l.children) && y in multiset(l.children) && NumberOf(x) == NumberOf(y) ensures x == y {
      assert x in l.children && y in l.children;
    }
    SortedByIsCanonical(NumberOf, StableSort(NumberOf, l.children), StableSort(NumberOf, m.children));
  }

  lemma SameChildMembers(l: Ledger, m: Ledger)
    requires SamePlan(l, m)
    ensures forall c :: c in l.children <==> c in m.children
  {
    forall c ensures c in l.children <==> c in m.children {
      assert c in l.children <==> c in multiset(l.children);
      assert c in m.children <==> c in multiset(m.children);
    }
  }

  lemma NumbersCons(c: Child, cs: seq<Child>)
    ensures Numbers([c] + cs) == [c.number] + Numbers(cs)
  {
  }

  lemma {:induction false} InsertNumbers(c: Child, cs: seq<Child>)
    ensures multiset(Numbers(Insert(NumberOf, c, cs))) == multiset{c.number} + multiset(Numbers(cs))
  {
    NumbersCons(c, cs);
    if cs == [] || NumberOf(c) <= NumberOf(cs[0]) {
    } else {
      InsertNumbers(c, cs[1..]);
      assert cs == [cs[0]] + cs[1..];
      NumbersCons(cs[0], cs[1..]);
      NumbersCons(cs[0], Insert(NumberOf, c, cs[1..]));
    }
  }

  lemma {:induction false} SortKeepsNumbers(cs: seq<Child>)
    ensures multiset(Numbers(StableSort(NumberOf, cs))) == multiset(Numbers(cs))
  {
    if cs == [] {
    } else {
      SortKeepsNumbers(cs[1..]);
      InsertNumbers(cs[0], StableSort(NumberOf, cs[1..]));
      assert cs == [cs[0]] + cs[1..];
      NumbersCons(cs[0], cs[1..]);
    }
  }

  lemma {:induction false} OutsideCounts(s: seq<nat>, known: set<nat>, n: nat)
    ensures multiset(Outside(s, known))[n] == if n in known then 0 else multiset(s)[n]
  {
    if s == [] {
    } else {
      var front, last := s[..|s| - 1], s[|s| - 1];
      OutsideCounts(front, known, n);
      FrontAndLast(s);
      CountAppend(front, last, n);
      CountAppend(Outside(front, known), last, n);
      OutsideLast(s, known);
    }
  }

  lemma OutsideLast(s: seq<nat>, known: set<nat>)
    requires s != []
    ensures var front, last := s[..|s| - 1], s[|s| - 1];
            Outside(s, known) == if last in known then Outside(front, known) else Outside(front, known) + [last]
  {
  }

  lemma CountAppend(s: seq<nat>, x: nat, n: nat)
    ensures multiset(s + [x])[n] == multiset(s)[n] + if x == n then 1 else 0
  {
  }

  lemma OutsideBag(a: seq<nat>, b: seq<nat>, known: set<nat>)
    requires multiset(a) == multiset(b)
    ensures multiset(Outside(a, known)) == multiset(Outside(b, known))
  {
    forall n: nat ensures multiset(Outside(a, known))[n] == multiset(Outside(b, known))[n] {
      OutsideCounts(a, known, n);
      OutsideCounts(b, known, n);
    }
  }

  lemma SortedNumbersOfBag(a: seq<nat>, b: seq<nat>)
    requires multiset(a) == multiset(b)
    ensures StableSort(Number, a) == StableSort(Number, b)
  {
    StableSortIsStable(Number, a, 0);
    StableSortIsStable(Number, b, 0);
    SortedByIsCanonical(Number, StableSort(Number, a), StableSort(Number, b));
  }

  /** Orphans come out the same however the children are listed. */
  lemma SameOrphans(l: Ledger, m: Ledger)
    requires SamePlan(l, m) && NumbersTell(l)
    ensures StableSort(Number, Outside(Numbers(l.children), Elements(l.nodes)))
         == StableSort(Number, Outside(Numbers(m.children), Elements(m.nodes)))
  {
    SameSortedChildren(l, m);
    SortKeepsNumbers(l.children);
    SortKeepsNumbers(m.children);
    OutsideBag(Numbers(l.children), Numbers(m.children), Elements(l.nodes));
    SortedNumbersOfBag(Outside(Numbers(l.children), Elements(l.nodes)),
                       Outside(Numbers(m.children), Elements(l.nodes)));
  }

  lemma SameFromChild(l: Ledger, m: Ledger, cs: seq<Child>)
    requires l.cycleDoc == m.cycleDoc && (l.stories == [] <==> m.stories == [])
    ensures OfChildren(l, cs) == OfChildren(m, cs)
  {
    if cs == [] {
    } else {
      SameFromChild(l, m, cs[..|cs| - 1]);
    }
  }

  /** A permuted ledger yields the identical defect list, provided different linked children have
      different numbers. */
  lemma PresentationIsInvisible(l: Ledger, m: Ledger)
    requires SamePlan(l, m) && NumbersTell(l)
    ensures Defects(l) == Defects(m) && Signature(l) == Signature(m)
  {
    SameChildMembers(l, m);
    assert |multiset(l.children)| == |multiset(m.children)|;
    assert ChildNumbers(l) == ChildNumbers(m) && Covered(l) == Covered(m);
    SameOrphans(l, m);
    assert GraphFindings(l) == GraphFindings(m);
    assert l.stories == [] <==> m.stories == [] by {
      if l.stories != [] { assert l.stories[0] in Elements(m.stories); }
      if m.stories != [] { assert m.stories[0] in Elements(l.stories); }
    }
    assert StoryFindings(l) == StoryFindings(m);
    SameSortedChildren(l, m);
    SameFromChild(l, m, StableSort(NumberOf, l.children));
  }

  // ---- signatures ----

  function Token(d: Defect): (Kind, seq<nat>) { (d.kind, StableSort(Number, d.refs)) }

  function Tokens(ds: seq<Defect>): seq<(Kind, seq<nat>)> {
    seq(|ds|, i requires 0 <= i < |ds| => Token(ds[i]))
  }

  /** The tokens `ledgerSignature` joins; none for a clean ledger. */
  ghost function Signature(l: Ledger): seq<(Kind, seq<nat>)> {
    Tokens(Defects(l))
  }

  /** Of the same kind, about the same issues. */
  ghost predicate SameFinding(d: Defect, e: Defect) {
    d.kind == e.kind && multiset(d.refs) == multiset(e.refs)
  }

  /** Signatures agree exactly when the same kinds are found about the same issues, one by one. */
  lemma SignaturesAgreeExactly(l: Ledger, m: Ledger)
    ensures Signature(l) == Signature(m) <==>
      && |Defects(l)| == |Defects(m)|
      && forall i :: 0 <= i < |Defects(l)| ==> SameFinding(Defects(l)[i], Defects(m)[i])
  {
    AllTokensAgree(Defects(l), Defects(m));
  }

  lemma AllTokensAgree(ds: seq<Defect>, es: seq<Defect>)
    ensures Tokens(ds) == Tokens(es) <==>
      |ds| == |es| && forall i :: 0 <= i < |ds| ==> SameFinding(ds[i], es[i])
  {
    forall d: Defect, e: Defect ensures Token(d) == Token(e) <==> SameFinding(d, e) { TokensAgree(d, e); }
    if Tokens(ds) == Tokens(es) {
      forall i | 0 <= i < |ds| ensures Token(ds[i]) == Token(es[i]) { assert Tokens(ds)[i] == Tokens(es)[i]; }
    }
  }

  lemma TokensAgree(d: Defect, e: Defect)
    ensures Token(d) == Token(e) <==> d.kind == e.kind && multiset(d.refs) == multiset(e.refs)
  {
    if multiset(d.refs) == multiset(e.refs) { SortedNumbersOfBag(d.refs, e.refs); }
    if StableSort(Number, d.refs) == StableSort(Number, e.refs) {
      assert multiset(StableSort(Number, d.refs)) == multiset(d.refs);
    }
  }

  /** Equal signatures mean as many defects: the recurring set has not shrunk. */
  lemma SameSignatureSameCount(l: Ledger, m: Ledger)
    requires Signature(l) == Signature(m)
    ensures |Defects(l)| == |Defects(m)|
  {
    assert |Signature(l)| == |Defects(l)| && |Signature(m)| == |Defects(m)|;
  }
}
