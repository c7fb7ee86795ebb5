/** The gate (`runGate`) and the re-plan loop around it (`runConvergenceLoop`), as calls on an epic
    whose ledger anybody may rewrite between two reads and whose host may refuse any call. */
module ConvergenceLoop {
  import opened LedgerFloor
  import opened Options
  import opened Ordering

  const DEFAULT_CEILING: int := 12

  datatype Reason = RepeatedSignature | NonShrinking | Ceiling

  datatype Post =
    | PassVerdict(flipped: seq<nat>)
    | FailVerdict(failed: seq<Defect>)
    | ParkNote(reason: Reason, stuck: seq<Defect>)

  /** The effects. `Flip` relabels a non-empty batch of children, all at once. */
  datatype Call = Read | Flip(children: seq<nat>) | Comment(post: Post) | NeedsInfo | RePlan

  datatype Outcome =
    | Converged(flipped: seq<nat>, iterations: int)
    | Parked(reason: Reason, defects: seq<Defect>, iterations: int)
    | Faulted

  datatype Verdict = Pass(flipped: seq<nat>) | Fail(defects: seq<Defect>, signature: seq<(Kind, seq<nat>)>) | Fault

  datatype LoopState = LoopState(iteration: int, signature: Option<seq<(Kind, seq<nat>)>>, count: Option<nat>,
                                 defects: seq<Defect>)

  const INITIAL := LoopState(1, None, None, [])

  function Planned(children: seq<Child>): seq<nat> {
    if children == [] then []
    else Planned(children[..|children| - 1])
         + (if "status:planned" in children[|children| - 1].labels then [children[|children| - 1].number] else [])
  }

  ghost predicate IsPlanned(children: seq<Child>, i: nat) {
    i < |children| && "status:planned" in children[i].labels
  }

  /** `places` are the places of the planned children, in order. */
  ghost predicate PlannedAt(children: seq<Child>, places: seq<nat>) {
    Ascending(places) && forall i: nat :: i in places <==> IsPlanned(children, i)
  }

  /** `flipped` are the numbers of exactly the children that carry the planned label, one for each,
      in the order of the children. */
  ghost predicate NumbersOfPlanned(children: seq<Child>, flipped: seq<nat>) {
    exists places: seq<nat> :: Lists(children, places, flipped)
  }

  /** `flipped` are the numbers of the children at `places`. */
  ghost predicate Lists(children: seq<Child>, places: seq<nat>, flipped: seq<nat>) {
    && PlannedAt(children, places) && |places| == |flipped|
    && forall k :: 0 <= k < |flipped| ==> places[k] < |children| && flipped[k] == children[places[k]].number
  }

  lemma PlannedAtLast(children: seq<Child>, places: seq<nat>)
    requires children != [] && PlannedAt(children[..|children| - 1], places)
    ensures PlannedAt(children,
                      if "status:planned" in children[|children| - 1].labels then places + [|children| - 1] else places)
  {
    var n := |children| - 1;
    var front := children[..n];
    forall i: nat ensures i != n ==> (IsPlanned(children, i) <==> IsPlanned(front, i)) {
      if i < n { assert front[i] == children[i]; }
    }
    forall k | 0 <= k < |places| ensures places[k] < n { assert places[k] in places; }
  }

  lemma ListsLast(children: seq<Child>, places: seq<nat>, flipped: seq<nat>)
    requires children != [] && Lists(children[..|children| - 1], places, flipped)
    ensures var n := |children| - 1;
            if "status:planned" in children[n].labels then Lists(children, places + [n], flipped + [children[n].number])
            else Lists(children, places, flipped)
  {
    var n := |children| - 1;
    PlannedAtLast(children, places);
    forall k | 0 <= k < |places| ensures places[k] < n && flipped[k] == children[places[k]].number {
      assert children[..n][places[k]] == children[places[k]];
    }
  }

  lemma {:induction false} PlannedIsOrdered(children: seq<Child>) returns (places: seq<nat>)
    ensures Lists(children, places, Planned(children))
  {
    if children == [] {
      places := [];
    } else {
      var n := |children| - 1;
      var flipped := Planned(children[..n]);
      places := PlannedIsOrdered(children[..n]);
      ListsLast(children, places, flipped);
      if "status:planned" in children[n].labels {
        places := places + [n];
      } else {
        assert flipped + [] == flipped;
      }
    }
  }

  function FlipCalls(flipped: seq<nat>): seq<Call> {
    if flipped == [] then [] else [Flip(flipped)]
  }

  // ---- the run with no refusal, as a function of what the reads find ----

  /** What one gate pass goes by. */
  datatype Floor = Floor(defects: seq<Defect>, signature: seq<(Kind, seq<nat>)>, planned: seq<nat>)

  ghost function FloorOf(l: Ledger): Floor {
    Floor(Defects(l), Signature(l), Planned(l.children))
  }

  datatype Run = Run(outcome: Outcome, calls: seq<Call>)

  ghost function VerdictCalls(f: Floor): seq<Call> {
    if f.defects == [] then FlipCalls(f.planned) + [Comment(PassVerdict(f.planned))]
    else [Comment(FailVerdict(f.defects))]
  }

  ghost function GateCalls(f: Floor): seq<Call> {
    [Read] + VerdictCalls(f)
  }

  ghost predicate VerdictOn(f: Floor, verdict: Verdict) {
    match verdict
    case Pass(flipped) => f.defects == [] && flipped == f.planned
    case Fail(defects, signature) => defects == f.defects != [] && signature == f.signature
    case Fault => true
  }

  function ParkCalls(reason: Reason, defects: seq<Defect>): seq<Call> {
    [Comment(ParkNote(reason, defects)), NeedsInfo]
  }

  ghost function Park(reason: Reason, defects: seq<Defect>, iterations: int): Run {
    Run(Parked(reason, defects, iterations), ParkCalls(reason, defects))
  }

  ghost function Then(calls: seq<Call>, r: Run): Run {
    r.(calls := calls + r.calls)
  }

  function Replanning(iteration: int): seq<Call> {
    if iteration > 1 then [RePlan] else []
  }

  /** `step`: iteration `i` gates `floors(i - 1)`. */
  ghost function Step(floors: nat -> Floor, ceiling: int, prev: LoopState): (run: Run)
    requires prev.iteration >= 1
    ensures !run.outcome.Faulted? && run.outcome.iterations >= prev.iteration - 1
    decreases ceiling - prev.iteration
  {
    if prev.iteration > ceiling then Park(Ceiling, prev.defects, prev.iteration - 1)
    else Then(Replanning(prev.iteration) + GateCalls(floors(prev.iteration - 1)), AfterGate(floors, ceiling, prev))
  }

  ghost function AfterGate(floors: nat -> Floor, ceiling: int, prev: LoopState): (run: Run)
    requires 1 <= prev.iteration <= ceiling
    ensures !run.outcome.Faulted? && run.outcome.iterations >= prev.iteration
    decreases ceiling - prev.iteration, 0
  {
    var Floor(defects, signature, planned) := floors(prev.iteration - 1);
    if defects == [] then Run(Converged(planned, prev.iteration), [])
    else if prev.signature == Some(signature) then Park(RepeatedSignature, defects, prev.iteration)
    else if prev.count.Some? && |defects| >= prev.count.value then Park(NonShrinking, defects, prev.iteration)
    else Step(floors, ceiling, LoopState(prev.iteration + 1, Some(signature), Some(|defects|), defects))
  }

  /** What a FAIL leads to, as `AfterGate` has it. */
  lemma FailLeads(floors: nat -> Floor, ceiling: int, prev: LoopState, defects: seq<Defect>,
                  signature: seq<(Kind, seq<nat>)>)
    requires 1 <= prev.iteration <= ceiling && VerdictOn(floors(prev.iteration - 1), Fail(defects, signature))
    ensures AfterGate(floors, ceiling, prev) ==
      if prev.signature == Some(signature) then Park(RepeatedSignature, defects, prev.iteration)
      else if prev.count.Some? && |defects| >= prev.count.value then Park(NonShrinking, defects, prev.iteration)
      else Step(floors, ceiling, LoopState(prev.iteration + 1, Some(signature), Some(|defects|), defects))
  {
  }

  // ---- the loop on a live epic ----

  /** `plannedChildren` */
  method PlannedChildren(children: seq<Child>) returns (flipped: seq<nat>)
    ensures flipped == Planned(children) && NumbersOfPlanned(children, flipped)
  {
    ghost var places := PlannedIsOrdered(children);
    flipped := [];
    for i := 0 to |children|
      invariant flipped == Planned(children[..i])
    {
      assert children[..i + 1][..i] == children[..i];
      if "status:planned" in children[i].labels { flipped := flipped + [children[i].number]; }
    }
    assert children[..|children|] == children;
  }

  /** The children a log has relabelled. The flips of a batch run side by side: when one of them is
      refused, those of `reached(k)` have been touched before the rest was interrupted. */
  ghost function Relabelled(refuses: nat -> bool, reached: nat -> set<nat>, log: seq<Call>): set<nat> {
    if log == [] then {}
    else
      var k := |log| - 1;
      Relabelled(refuses, reached, log[..k]) + Struck(log[k], refuses(k), reached(k))
  }

  function Struck(call: Call, refused: bool, reached: set<nat>): set<nat> {
    if !call.Flip? then {} else set n | n in call.children && (refused ==> n in reached)
  }

  lemma RelabelledAppend(refuses: nat -> bool, reached: nat -> set<nat>, log: seq<Call>, call: Call)
    ensures Relabelled(refuses, reached, log + [call])
         == Relabelled(refuses, reached, log) + Struck(call, refuses(|log|), reached(|log|))
  {
    assert (log + [call])[..|log|] == log;
  }

  /** What a gate pass relabels: the planned children of a clean floor, all of them unless a flip was
      refused; nothing at all on any other floor. */
  ghost predicate Flips(f: Floor, verdict: Verdict, before: set<nat>, after: set<nat>) {
    && (verdict.Pass? ==> after == before + Elements(f.planned))
    && before <= after <= before + if f.defects == [] then Elements(f.planned) else {}
  }

  class Epic {
    /** What the k-th read finds, whether the k-th call fails, and how far a failed batch came. */
    const ledgers: nat -> Ledger
    const refuses: nat -> bool
    const reached: nat -> set<nat>
    var fetched: nat
    var log: seq<Call>
    var relabelled: set<nat>
    /** The floors of `ledgers`. */
    ghost const floors: nat -> Floor

    ghost predicate Agrees() {
      forall k: nat {:trigger ledgers(k)} :: floors(k) == FloorOf(ledgers(k))
    }

    ghost predicate Valid()
      reads this
    {
      relabelled == Relabelled(refuses, reached, log)
    }

    constructor (ledgers: nat -> Ledger, refuses: nat -> bool, reached: nat -> set<nat>)
      ensures this.ledgers == ledgers && this.refuses == refuses && this.reached == reached
      ensures Valid() && fetched == 0 && log == [] && Agrees()
    {
      this.ledgers, this.refuses, this.reached := ledgers, refuses, reached;
      fetched, log, relabelled := 0, [], {};
      floors := (k: nat) => FloorOf(ledgers(k));
    }

    method Attempt(call: Call) returns (ok: bool)
      requires Valid()
      modifies `log, `relabelled
      ensures Valid()
      ensures Did(refuses, old(log), log, [call], !ok)
      ensures relabelled == old(relabelled) + Struck(call, !ok, reached(|old(log)|))
    {
      RelabelledAppend(refuses, reached, log, call);
      ok := !refuses(|log|);
      relabelled := relabelled + Struck(call, !ok, reached(|log|));
      log := log + [call];
    }

    /** The label flips of one batch; an empty batch makes no call. */
    method FlipAll(flipped: seq<nat>) returns (ok: bool)
      requires Valid()
      modifies `log, `relabelled
      ensures Valid()
      ensures Did(refuses, old(log), log, FlipCalls(flipped), !ok)
      ensures old(relabelled) <= relabelled <= old(relabelled) + Elements(flipped)
      ensures ok ==> relabelled == old(relabelled) + Elements(flipped)
    {
      ok := true;
      if |flipped| > 0 { ok := Attempt(Flip(flipped)); }
    }

    method PassGate(flipped: seq<nat>) returns (ok: bool)
      requires Valid()
      modifies `log, `relabelled
      ensures Valid()
      ensures Did(refuses, old(log), log, FlipCalls(flipped) + [Comment(PassVerdict(flipped))], !ok)
      ensures old(relabelled) <= relabelled <= old(relabelled) + Elements(flipped)
      ensures ok ==> relabelled == old(relabelled) + Elements(flipped)
    {
      ghost var start := log;
      ok := FlipAll(flipped);
      if !ok { DidPart(refuses, start, log, FlipCalls(flipped), [Comment(PassVerdict(flipped))]); return; }
      ghost var mid := log;
      ok := Attempt(Comment(PassVerdict(flipped)));
      DidBoth(refuses, start, mid, log, FlipCalls(flipped), [Comment(PassVerdict(flipped))], !ok);
    }

    /** What the floor finds, without touching anything. */
    method Survey(l: Ledger, ghost f: Floor)
      returns (defects: seq<Defect>, signature: seq<(Kind, seq<nat>)>, flipped: seq<nat>)
      requires f == FloorOf(l)
      ensures f == Floor(defects, signature, flipped)
    {
      defects := Validate(l);
      signature := Tokens(defects);
      flipped := PlannedChildren(l.children);
    }

    method Act(ghost f: Floor, defects: seq<Defect>, signature: seq<(Kind, seq<nat>)>, flipped: seq<nat>)
      returns (verdict: Verdict)
      requires Valid() && f == Floor(defects, signature, flipped)
      modifies `log, `relabelled
      ensures Valid()
      ensures Did(refuses, old(log), log, VerdictCalls(f), verdict.Fault?)
      ensures VerdictOn(f, verdict) && Flips(f, verdict, old(relabelled), relabelled)
    {
      if |defects| == 0 {
        var ok := PassGate(flipped);
        return if ok then Pass(flipped) else Fault;
      }
      var ok := Attempt(Comment(FailVerdict(defects)));
      return if ok then Fail(defects, signature) else Fault;
    }

    /** Reads the ledger and surveys its floor. */
    method FetchFloor() returns (ok: bool, defects: seq<Defect>, signature: seq<(Kind, seq<nat>)>, flipped: seq<nat>)
      requires Valid() && Agrees()
      modifies `fetched, `log, `relabelled
      ensures Valid() && fetched == old(fetched) + 1 && relabelled == old(relabelled)
      ensures Did(refuses, old(log), log, [Read], !ok)
      ensures ok ==> floors(old(fetched)) == Floor(defects, signature, flipped)
    {
      var l := ledgers(fetched);
      ghost var f := floors(fetched);
      fetched := fetched + 1;
      ok := Attempt(Read);
      defects, signature, flipped := [], [], [];
      if ok { defects, signature, flipped := Survey(l, f); }
    }

    /** `runGate`: flips on a clean floor, posts one verdict, touches nothing else. */
    method RunGate() returns (verdict: Verdict)
      requires Valid() && Agrees()
      modifies `fetched, `log, `relabelled
      ensures Valid()
      ensures Did(refuses, old(log), log, GateCalls(floors(old(fetched))), verdict.Fault?)
      ensures fetched == old(fetched) + 1 && VerdictOn(floors(old(fetched)), verdict)
      ensures Flips(floors(old(fetched)), verdict, old(relabelled), relabelled)
    {
      ghost var start, f := log, floors(fetched);
      var ok, defects, signature, flipped := FetchFloor();
      if !ok { DidPart(refuses, start, log, [Read], VerdictCalls(f)); return Fault; }
      ghost var mid := log;
      verdict := Act(f, defects, signature, flipped);
      DidBoth(refuses, start, mid, log, [Read], VerdictCalls(f), verdict.Fault?);
    }

    method ParkEpic(reason: Reason, defects: seq<Defect>, iteration: int) returns (outcome: Outcome)
      requires Valid()
      modifies `log, `relabelled
      ensures Valid()
      ensures Performed(refuses, old(log), log, outcome, Park(reason, defects, iteration))
    {
      ghost var start := log;
      var ok := Attempt(Comment(ParkNote(reason, defects)));
      assert ParkCalls(reason, defects) == [Comment(ParkNote(reason, defects))] + [NeedsInfo];
      if !ok { DidPart(refuses, start, log, [Comment(ParkNote(reason, defects))], [NeedsInfo]); return Faulted; }
      ghost var afterPost := log;
      ok := Attempt(NeedsInfo);
      DidBoth(refuses, start, afterPost, log, [Comment(ParkNote(reason, defects))], [NeedsInfo], !ok);
      return if ok then Parked(reason, defects, iteration) else Faulted;
    }

    /** The re-plan, if this is not the first pass. */
    method Replan(iteration: int) returns (ok: bool)
      requires Valid()
      modifies `log, `relabelled
      ensures Valid()
      ensures Did(refuses, old(log), log, Replanning(iteration), !ok)
    {
      ok := true;
      if iteration > 1 { ok := Attempt(RePlan); }
    }

    method ReplanThenGate(iteration: int) returns (verdict: Verdict)
      requires Valid() && Agrees() && fetched == iteration - 1
      modifies `fetched, `log, `relabelled
      ensures Valid()
      ensures Did(refuses, old(log), log, Replanning(iteration) + GateCalls(floors(iteration - 1)), verdict.Fault?)
      ensures verdict.Fault? || fetched == iteration
      ensures VerdictOn(floors(iteration - 1), verdict)
    {
      ghost var start := log;
      ghost var gate := GateCalls(floors(iteration - 1));
      var ok := Replan(iteration);
      if !ok { DidPart(refuses, start, log, Replanning(iteration), gate); return Fault; }
      ghost var mid := log;
      verdict := RunGate();
      DidBoth(refuses, start, mid, log, Replanning(iteration), gate, verdict.Fault?);
    }

    /** What a FAIL leads to. */
    method Follow(ceiling: int, prev: LoopState, defects: seq<Defect>, signature: seq<(Kind, seq<nat>)>)
      returns (outcome: Outcome)
      requires Valid() && Agrees() && 1 <= prev.iteration <= ceiling && fetched == prev.iteration
      requires VerdictOn(floors(prev.iteration - 1), Fail(defects, signature))
      modifies `fetched, `log, `relabelled
      ensures Valid()
      ensures Performed(refuses, old(log), log, outcome, AfterGate(floors, ceiling, prev))
      decreases ceiling - prev.iteration, 0
    {
      FailLeads(floors, ceiling, prev, defects, signature);
      ghost var start, run := log, AfterGate(floors, ceiling, prev);
      if prev.signature == Some(signature) {
        outcome := ParkEpic(RepeatedSignature, defects, prev.iteration);
      } else if prev.count.Some? && |defects| >= prev.count.value {
        outcome := ParkEpic(NonShrinking, defects, prev.iteration);
      } else {
        outcome := StepEpic(ceiling, LoopState(prev.iteration + 1, Some(signature), Some(|defects|), defects));
      }
      assert Performed(refuses, start, log, outcome, run);
    }

    /** `step`. */
    method StepEpic(ceiling: int, prev: LoopState) returns (outcome: Outcome)
      requires Valid() && Agrees() && prev.iteration >= 1 && fetched == prev.iteration - 1
      modifies `fetched, `log, `relabelled
      ensures Valid()
      ensures Performed(refuses, old(log), log, outcome, Step(floors, ceiling, prev))
      decreases ceiling - prev.iteration
    {
      if prev.iteration > ceiling {
        outcome := ParkEpic(Ceiling, prev.defects, prev.iteration - 1);
        return;
      }
      ghost var start := log;
      ghost var first := Replanning(prev.iteration) + GateCalls(floors(prev.iteration - 1));
      ghost var rest := AfterGate(floors, ceiling, prev);
      var verdict := ReplanThenGate(prev.iteration);
      ghost var mid := log;
      match verdict
      case Fault =>
        outcome := Faulted;
        PerformedPart(refuses, start, log, first, rest);
      case Pass(flipped) =>
        outcome := Converged(flipped, prev.iteration);
        PerformedBoth(refuses, start, mid, log, outcome, first, rest);
      case Fail(defects, signature) =>
        outcome := Follow(ceiling, prev, defects, signature);
        PerformedBoth(refuses, start, mid, log, outcome, first, rest);
    }

    /** `runConvergenceLoop`. It always returns; refused calls cut the run short, nothing else does. */
    method RunConvergenceLoop(ceiling: Option<int>) returns (outcome: Outcome)
      requires Valid() && Agrees() && fetched == 0
      modifies `fetched, `log, `relabelled
      ensures Valid()
      ensures var bound := if ceiling.Some? then ceiling.value else DEFAULT_CEILING;
              Performed(refuses, old(log), log, outcome, Step(floors, bound, INITIAL))
    {
      outcome := StepEpic(if ceiling.Some? then ceiling.value else DEFAULT_CEILING, INITIAL);
    }
  }

  // ---- what a refusal does: it cuts the list of calls short, and nothing else ----

  ghost predicate Accepted(refuses: nat -> bool, from: nat, to: nat) {
    forall k :: from <= k < to ==> !refuses(k)
  }

  /** From `start` the calls were made in order, up to and including the first refused one. */
  ghost predicate Did(refuses: nat -> bool, start: seq<Call>, log: seq<Call>, calls: seq<Call>, cut: bool) {
    if !cut then log == start + calls && Accepted(refuses, |start|, |log|)
    else
      && |start| < |log| <= |start| + |calls| && log == start + calls[..|log| - |start|]
      && refuses(|log| - 1) && Accepted(refuses, |start|, |log| - 1)
  }

  ghost predicate Performed(refuses: nat -> bool, start: seq<Call>, log: seq<Call>, outcome: Outcome, run: Run) {
    && Did(refuses, start, log, run.calls, outcome.Faulted?)
    && (outcome.Faulted? || outcome == run.outcome)
  }

  lemma DidPart(refuses: nat -> bool, start: seq<Call>, log: seq<Call>, first: seq<Call>, second: seq<Call>)
    requires Did(refuses, start, log, first, true)
    ensures Did(refuses, start, log, first + second, true)
  {
    var n := |log| - |start|;
    assert (first + second)[..n] == first[..n];
  }

  lemma DidBoth(refuses: nat -> bool, start: seq<Call>, mid: seq<Call>, log: seq<Call>, first: seq<Call>,
                second: seq<Call>, cut: bool)
    requires Did(refuses, start, mid, first, false) && Did(refuses, mid, log, second, cut)
    ensures Did(refuses, start, log, first + second, cut)
  {
    if cut {
      var n := |log| - |mid|;
      assert (first + second)[..|log| - |start|] == first + second[..n];
      assert log == start + (first + second[..n]);
    } else {
      assert log == start + (first + second);
    }
  }

  lemma PerformedPart(refuses: nat -> bool, start: seq<Call>, log: seq<Call>, first: seq<Call>, rest: Run)
    requires Did(refuses, start, log, first, true)
    ensures Performed(refuses, start, log, Faulted, Then(first, rest))
  {
    DidPart(refuses, start, log, first, rest.calls);
  }

  lemma PerformedBoth(refuses: nat -> bool, start: seq<Call>, mid: seq<Call>, log: seq<Call>, outcome: Outcome,
                      first: seq<Call>, rest: Run)
    requires Did(refuses, start, mid, first, false) && Performed(refuses, mid, log, outcome, rest)
    ensures Performed(refuses, start, log, outcome, Then(first, rest))
  {
    DidBoth(refuses, start, mid, log, first, rest.calls, outcome.Faulted?);
  }
}
