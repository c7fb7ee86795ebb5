/** What every run of the re-plan loop keeps, whatever the reads find and whatever the ceiling. */
module ConvergenceRuns {
  import opened ConvergenceLoop
  import opened CycleProperties
  import opened LedgerFloor
  import opened Options
  import opened Ordering

  /** Pass `i` (counted from 0) fails, under a new signature and with fewer defects than the pass before. */
  predicate GoesOn(floors: nat -> Floor, i: nat) {
    && floors(i).defects != []
    && (i > 0 ==> floors(i).signature != floors(i - 1).signature && |floors(i).defects| < |floors(i - 1).defects|)
  }

  ghost predicate AllGoOn(floors: nat -> Floor, n: nat) {
    forall i :: 0 <= i < n ==> GoesOn(floors, i)
  }

  /** The state carried into iteration `i + 1`. */
  ghost function StateAt(floors: nat -> Floor, i: nat): LoopState {
    if i == 0 then INITIAL
    else LoopState(i + 1, Some(floors(i - 1).signature), Some(|floors(i - 1).defects|), floors(i - 1).defects)
  }

  ghost function Round(floors: nat -> Floor, i: nat): seq<Call> {
    Replanning(i + 1) + GateCalls(floors(i))
  }

  /** The calls of passes `i` to `n - 1`. */
  ghost function Rounds(floors: nat -> Floor, i: nat, n: nat): seq<Call>
    decreases n - i
  {
    if i >= n then [] else Round(floors, i) + Rounds(floors, i + 1, n)
  }

  function Bound(ceiling: int): nat { if ceiling < 0 then 0 else ceiling }

  ghost function Parking(outcome: Outcome): seq<Call> {
    if outcome.Parked? then ParkCalls(outcome.reason, outcome.defects) else []
  }

  /** Where a run stops and what it reports: the first pass that does not go on, or the ceiling. */
  ghost predicate Reports(floors: nat -> Floor, ceiling: int, n: nat, outcome: Outcome) {
    if n >= 1 && !GoesOn(floors, n - 1) then
      var f := floors(n - 1);
      if f.defects == [] then outcome == Converged(f.planned, n)
      else if n >= 2 && f.signature == floors(n - 2).signature then outcome == Parked(RepeatedSignature, f.defects, n)
      else outcome == Parked(NonShrinking, f.defects, n)
    else
      n == Bound(ceiling) && outcome == Parked(Ceiling, if n == 0 then [] else floors(n - 1).defects, n)
  }

  ghost predicate StopsAt(floors: nat -> Floor, ceiling: int, n: nat, run: Run) {
    && n <= Bound(ceiling) && (n >= 1 ==> AllGoOn(floors, n - 1))
    && Reports(floors, ceiling, n, run.outcome)
  }

  /** The ceiling cuts in before pass `i`. */
  lemma StepAtCeiling(floors: nat -> Floor, ceiling: int, i: nat)
    requires AllGoOn(floors, i) && i <= Bound(ceiling) && i + 1 > ceiling
    ensures var run := Step(floors, ceiling, StateAt(floors, i));
            StopsAt(floors, ceiling, i, run) && run.calls == Parking(run.outcome)
  {
    assert i >= 1 ==> GoesOn(floors, i - 1);
  }

  lemma StepUnfolds(floors: nat -> Floor, ceiling: int, i: nat)
    requires i + 1 <= ceiling
    ensures Step(floors, ceiling, StateAt(floors, i))
         == Then(Round(floors, i), AfterGate(floors, ceiling, StateAt(floors, i)))
    ensures GoesOn(floors, i) ==>
      AfterGate(floors, ceiling, StateAt(floors, i)) == Step(floors, ceiling, StateAt(floors, i + 1))
  {
  }

  /** Pass `i` is the last. */
  lemma StepStopsHere(floors: nat -> Floor, ceiling: int, i: nat)
    requires AllGoOn(floors, i) && i + 1 <= ceiling && !GoesOn(floors, i)
    ensures var rest := AfterGate(floors, ceiling, StateAt(floors, i));
            StopsAt(floors, ceiling, i + 1, rest) && rest.calls == Parking(rest.outcome)
  {
  }

  lemma RoundThen(floors: nat -> Floor, ceiling: int, i: nat, n: nat, rest: Run)
    requires i < n && StopsAt(floors, ceiling, n, rest)
      && rest.calls == Rounds(floors, i + 1, n) + Parking(rest.outcome)
    ensures var run := Then(Round(floors, i), rest);
            StopsAt(floors, ceiling, n, run) && run.calls == Rounds(floors, i, n) + Parking(run.outcome)
  {
    Regroup(Round(floors, i), Rounds(floors, i + 1, n), Parking(rest.outcome));
  }

  /** From pass `i` on, a run makes the calls of its passes, then those of parking, if it parks. */
  lemma {:induction false} StepStops(floors: nat -> Floor, ceiling: int, i: nat) returns (n: nat)
    requires AllGoOn(floors, i) && i <= Bound(ceiling)
    ensures var run := Step(floors, ceiling, StateAt(floors, i));
            i <= n && StopsAt(floors, ceiling, n, run) && run.calls == Rounds(floors, i, n) + Parking(run.outcome)
    decreases Bound(ceiling) - i
  {
    if i + 1 > ceiling {
      n := i;
      StepAtCeiling(floors, ceiling, i);
    } else {
      var rest := AfterGate(floors, ceiling, StateAt(floors, i));
      StepUnfolds(floors, ceiling, i);
      if GoesOn(floors, i) {
        n := StepStops(floors, ceiling, i + 1);
        RoundThen(floors, ceiling, i, n, rest);
      } else {
        n := i + 1;
        StepStopsHere(floors, ceiling, i);
        assert Rounds(floors, i + 1, n) == [];
        RoundThen(floors, ceiling, i, n, rest);
      }
    }
  }

  /** No two stopping points: the run is told apart by what the reads find. */
  lemma StopIsUnique(floors: nat -> Floor, ceiling: int, n: nat, m: nat, r: Run, q: Run)
    requires StopsAt(floors, ceiling, n, r) && StopsAt(floors, ceiling, m, q)
    ensures n == m && r.outcome == q.outcome
  {
  }

  ghost function FullRun(floors: nat -> Floor, ceiling: int): (run: Run)
    ensures !run.outcome.Faulted? && run.outcome.iterations >= 0
  {
    Step(floors, ceiling, INITIAL)
  }

  /** The run stops after `n` passes with this outcome exactly when `n` is the first pass that does
      not go on, or the ceiling cuts in before any such pass. */
  lemma StopsExactly(floors: nat -> Floor, ceiling: int, n: nat, outcome: Outcome)
    ensures FullRun(floors, ceiling).outcome == outcome && FullRun(floors, ceiling).outcome.iterations == n
       <==> n <= Bound(ceiling) && (n >= 1 ==> AllGoOn(floors, n - 1)) && Reports(floors, ceiling, n, outcome)
  {
    var run := FullRun(floors, ceiling);
    assert StateAt(floors, 0) == INITIAL;
    var m := StepStops(floors, ceiling, 0);
    if n <= Bound(ceiling) && (n >= 1 ==> AllGoOn(floors, n - 1)) && Reports(floors, ceiling, n, outcome) {
      StopIsUnique(floors, ceiling, n, m, Run(outcome, []), run);
    }
  }

  // ---- what it does ----

  /** What pass `i` (counted from 0) does on the floor it reads: a re-plan first unless it is the first; then
      either the planned children are flipped, if there are any, and a PASS names them, or a FAIL lists the
      defects. */
  ghost function PassCalls(f: Floor, i: nat): seq<Call> {
    var before := if i == 0 then [Read] else [RePlan, Read];
    if f.defects != [] then before + [Comment(FailVerdict(f.defects))]
    else if f.planned != [] then before + [Flip(f.planned), Comment(PassVerdict(f.planned))]
    else before + [Comment(PassVerdict([]))]
  }

  /** Passes `i` to `n - 1`. */
  ghost function PassesCalls(floors: nat -> Floor, i: nat, n: nat): seq<Call>
    decreases n - i
  {
    if i >= n then [] else PassCalls(floors(i), i) + PassesCalls(floors, i + 1, n)
  }

  lemma RoundExactly(floors: nat -> Floor, i: nat)
    ensures Round(floors, i) == PassCalls(floors(i), i)
  {
  }

  lemma {:induction false} RoundsExactly(floors: nat -> Floor, i: nat, n: nat)
    ensures Rounds(floors, i, n) == PassesCalls(floors, i, n)
    decreases n - i
  {
    if i < n {
      RoundExactly(floors, i);
      RoundsExactly(floors, i + 1, n);
    }
  }

  /** A run makes the calls of its passes, in order, and if it parks it comments the reason and the defects it
      is stuck on and then labels the epic. */
  lemma CallsExactly(floors: nat -> Floor, ceiling: int)
    ensures var run := FullRun(floors, ceiling);
      run.calls == PassesCalls(floors, 0, run.outcome.iterations)
        + match run.outcome
          case Parked(reason, defects, _) => [Comment(ParkNote(reason, defects)), NeedsInfo]
          case _ => []
  {
    assert StateAt(floors, 0) == INITIAL;
    var n := StepStops(floors, ceiling, 0);
    RoundsExactly(floors, 0, n);
  }

  // ---- how long it runs ----

  lemma {:induction false} GoingOnShrinks(floors: nat -> Floor, n: nat)
    requires n >= 1 && AllGoOn(floors, n)
    ensures |floors(n - 1).defects| + n - 1 <= |floors(0).defects|
  {
    assert GoesOn(floors, n - 1);
    if n > 1 { GoingOnShrinks(floors, n - 1); }
  }

  /** The loop halts on its own: at most one pass more than the first pass found defects. */
  lemma GateRunsBounded(floors: nat -> Floor, ceiling: int)
    ensures var n := FullRun(floors, ceiling).outcome.iterations;
            0 <= n <= Bound(ceiling) && n <= |floors(0).defects| + 1
  {
    assert StateAt(floors, 0) == INITIAL;
    var n := StepStops(floors, ceiling, 0);
    if n >= 2 {
      GoingOnShrinks(floors, n - 1);
      assert GoesOn(floors, n - 2);
    }
  }

  /** The runaway stop needs a first pass with at least `ceiling` defects. */
  lemma CeilingNeedsDefects(floors: nat -> Floor, ceiling: int)
    requires FullRun(floors, ceiling).outcome.Parked? && FullRun(floors, ceiling).outcome.reason == Ceiling
    ensures ceiling <= |floors(0).defects|
  {
    assert StateAt(floors, 0) == INITIAL;
    var n := StepStops(floors, ceiling, 0);
    if n >= 1 {
      assert AllGoOn(floors, n);
      GoingOnShrinks(floors, n);
      assert GoesOn(floors, n - 1);
    }
  }

  // ---- what it calls ----

  datatype Effect = Reading | Flipping | Commenting | Labelling | Planning

  function EffectOf(call: Call): Effect {
    match call
    case Read => Reading
    case Flip(_) => Flipping
    case Comment(_) => Commenting
    case NeedsInfo => Labelling
    case RePlan => Planning
  }

  function Tally(calls: seq<Call>, effect: Effect): nat {
    if calls == [] then 0 else (if EffectOf(calls[0]) == effect then 1 else 0) + Tally(calls[1..], effect)
  }

  lemma {:induction false} TallyJoin(a: seq<Call>, b: seq<Call>, effect: Effect)
    ensures Tally(a + b, effect) == Tally(a, effect) + Tally(b, effect)
  {
    if a == [] {
      assert a + b == b;
    } else {
      assert (a + b)[1..] == a[1..] + b;
      TallyJoin(a[1..], b, effect);
    }
  }

  lemma TallyOne(call: Call, effect: Effect)
    ensures Tally([call], effect) == if EffectOf(call) == effect then 1 else 0
  {
    assert [call][1..] == [];
  }

  lemma TallyRound(floors: nat -> Floor, i: nat)
    ensures Tally(Round(floors, i), Reading) == 1 && Tally(Round(floors, i), Commenting) == 1
    ensures Tally(Round(floors, i), Planning) == if i > 0 then 1 else 0
    ensures Tally(Round(floors, i), Labelling) == 0
    ensures Tally(Round(floors, i), Flipping) == if floors(i).defects == [] && floors(i).planned != [] then 1 else 0
  {
    forall e: Effect
      ensures Tally(Round(floors, i), e)
           == Tally(Replanning(i + 1), e) + Tally([Read], e) + Tally(VerdictCalls(floors(i)), e)
    {
      TallyJoin(Replanning(i + 1), [Read] + VerdictCalls(floors(i)), e);
      TallyJoin([Read], VerdictCalls(floors(i)), e);
      TallyVerdict(floors(i), e);
      TallyOne(Read, e);
      TallyOne(RePlan, e);
    }
    TallyVerdict(floors(i), Reading);
    TallyVerdict(floors(i), Commenting);
    TallyVerdict(floors(i), Planning);
    TallyVerdict(floors(i), Labelling);
    TallyVerdict(floors(i), Flipping);
  }

  lemma TallyVerdict(f: Floor, e: Effect)
    ensures Tally(VerdictCalls(f), e) == if e == Commenting then 1
      else if e == Flipping && f.defects == [] && f.planned != [] then 1 else 0
  {
    if f.defects == [] {
      var last := Comment(PassVerdict(f.planned));
      TallyJoin(FlipCalls(f.planned), [last], e);
      TallyOne(last, e);
      TallyOne(Flip(f.planned), e);
    } else {
      TallyOne(Comment(FailVerdict(f.defects)), e);
    }
  }

  lemma {:induction false} TallyRounds(floors: nat -> Floor, i: nat, n: nat)
    requires i < n && AllGoOn(floors, n - 1)
    ensures Tally(Rounds(floors, i, n), Reading) == n - i && Tally(Rounds(floors, i, n), Commenting) == n - i
    ensures Tally(Rounds(floors, i, n), Planning) == if i > 0 then n - i else n - 1
    ensures Tally(Rounds(floors, i, n), Labelling) == 0
    ensures Tally(Rounds(floors, i, n), Flipping) ==
      if floors(n - 1).defects == [] && floors(n - 1).planned != [] then 1 else 0
    decreases n - i
  {
    TallyRound(floors, i);
    forall e: Effect
      ensures Tally(Rounds(floors, i, n), e) == Tally(Round(floors, i), e) + Tally(Rounds(floors, i + 1, n), e)
    {
      TallyJoin(Round(floors, i), Rounds(floors, i + 1, n), e);
    }
    if i + 1 < n {
      assert GoesOn(floors, i);
      TallyRounds(floors, i + 1, n);
    } else {
      assert Rounds(floors, i + 1, n) == [];
    }
  }

  lemma TallyParking(outcome: Outcome, e: Effect)
    ensures Tally(Parking(outcome), e) == if outcome.Parked? && (e == Commenting || e == Labelling) then 1 else 0
  {
    if outcome.Parked? {
      var post := Comment(ParkNote(outcome.reason, outcome.defects));
      assert Parking(outcome) == [post] + [NeedsInfo];
      TallyJoin([post], [NeedsInfo], e);
      TallyOne(post, e);
      TallyOne(NeedsInfo, e);
    }
  }

  /** Passes, re-plans, comments, park labels and flips of a run nothing was refused in. */
  lemma CallsTallied(floors: nat -> Floor, ceiling: int)
    ensures var Run(outcome, calls) := FullRun(floors, ceiling);
            var n, parked := outcome.iterations, if outcome.Parked? then 1 else 0;
      && Tally(calls, Reading) == n
      && Tally(calls, Planning) == (if n == 0 then 0 else n - 1)
      && Tally(calls, Commenting) == n + parked
      && Tally(calls, Labelling) == parked
      && Tally(calls, Flipping) == (if outcome.Converged? && outcome.flipped != [] then 1 else 0)
  {
    assert StateAt(floors, 0) == INITIAL;
    var n := StepStops(floors, ceiling, 0);
    var Run(outcome, calls) := FullRun(floors, ceiling);
    forall e: Effect ensures Tally(calls, e) == Tally(Rounds(floors, 0, n), e) + Tally(Parking(outcome), e) {
      TallyJoin(Rounds(floors, 0, n), Parking(outcome), e);
      TallyParking(outcome, e);
    }
    TallyParking(outcome, Reading);
    TallyParking(outcome, Planning);
    TallyParking(outcome, Commenting);
    TallyParking(outcome, Labelling);
    TallyParking(outcome, Flipping);
    if n >= 1 {
      TallyRounds(floors, 0, n);
      assert outcome.Converged? <==> floors(n - 1).defects == [];
    }
  }

  lemma {:induction false} TallyNone(calls: seq<Call>, effect: Effect)
    requires Tally(calls, effect) == 0
    ensures forall c :: c in calls ==> EffectOf(c) != effect
  {
    if calls == [] {
    } else {
      TallyNone(calls[1..], effect);
    }
  }

  /** A parked run relabels no child. */
  lemma ParkedFlipsNothing(floors: nat -> Floor, ceiling: int)
    requires FullRun(floors, ceiling).outcome.Parked?
    ensures forall c :: c in FullRun(floors, ceiling).calls ==> !c.Flip?
  {
    CallsTallied(floors, ceiling);
    TallyNone(FullRun(floors, ceiling).calls, Flipping);
  }

  /** Whatever is refused, a run that flips has just gated a clean floor, and flips what that floor
      lists as planned, as its last call but the PASS comment. */
  lemma {:induction false} FlipsOnlyCleanFloors(floors: nat -> Floor, i: nat, n: nat, k: nat)
    requires i < n && AllGoOn(floors, n - 1)
    requires k < |Rounds(floors, i, n)| && Rounds(floors, i, n)[k].Flip?
    ensures floors(n - 1).defects == [] && Rounds(floors, i, n)[k] == Flip(floors(n - 1).planned)
    ensures k == |Rounds(floors, i, n)| - 2
    decreases n - i
  {
    var round := Round(floors, i);
    if i + 1 < n {
      assert GoesOn(floors, i);
      if k >= |round| { FlipsOnlyCleanFloors(floors, i + 1, n, k - |round|); }
    } else {
      assert Rounds(floors, i + 1, n) == [];
    }
  }

  lemma LogIsPrefix(refuses: nat -> bool, log: seq<Call>, outcome: Outcome, run: Run)
    requires Performed(refuses, [], log, outcome, run)
    ensures log <= run.calls && (!outcome.Faulted? ==> log == run.calls && outcome == run.outcome)
  {
    if outcome.Faulted? {
      assert log == [] + run.calls[..|log|];
    } else {
      assert log == [] + run.calls;
    }
  }

  lemma {:induction false} TallyPrefix(log: seq<Call>, calls: seq<Call>, e: Effect)
    requires log <= calls
    ensures Tally(log, e) <= Tally(calls, e)
  {
    TallyJoin(log, calls[|log|..], e);
    assert calls == log + calls[|log|..];
  }

  /** The same for the calls a live run really made, cut short or not. */
  lemma LiveFlipsOnlyCleanFloors(floors: nat -> Floor, ceiling: int, refuses: nat -> bool, log: seq<Call>,
                                 outcome: Outcome, k: nat)
    requires Performed(refuses, [], log, outcome, FullRun(floors, ceiling))
    requires k < |log| && log[k].Flip?
    ensures var run := FullRun(floors, ceiling);
      && run.outcome.Converged? && log[k] == Flip(run.outcome.flipped)
      && run.outcome.iterations >= 1 && floors(run.outcome.iterations - 1).defects == []
  {
    assert StateAt(floors, 0) == INITIAL;
    var n := StepStops(floors, ceiling, 0);
    var run := FullRun(floors, ceiling);
    LogIsPrefix(refuses, log, outcome, run);
    assert log[k] == run.calls[k];
    FlipInRounds(Rounds(floors, 0, n), run.outcome, k);
    FlipsOnlyCleanFloors(floors, 0, n, k);
  }

  /** Parking flips nothing. */
  lemma FlipInRounds(rounds: seq<Call>, outcome: Outcome, k: nat)
    requires k < |rounds + Parking(outcome)| && (rounds + Parking(outcome))[k].Flip?
    ensures k < |rounds| && rounds[k] == (rounds + Parking(outcome))[k]
  {
  }

  lemma {:induction false} RelabelledByFlips(refuses: nat -> bool, reached: nat -> set<nat>, log: seq<Call>, n: nat)
    ensures n in Relabelled(refuses, reached, log) <==>
      exists k :: 0 <= k < |log| && n in Struck(log[k], refuses(k), reached(k))
  {
    if log == [] {
    } else {
      RelabelledByFlips(refuses, reached, log[..|log| - 1], n);
    }
  }

  lemma ConvergedRelabelsAll(floors: nat -> Floor, ceiling: int, refuses: nat -> bool, reached: nat -> set<nat>,
                             log: seq<Call>, outcome: Outcome)
    requires Performed(refuses, [], log, outcome, FullRun(floors, ceiling)) && !outcome.Faulted?
    requires FullRun(floors, ceiling).outcome.Converged? && FullRun(floors, ceiling).outcome.flipped != []
    ensures Elements(FullRun(floors, ceiling).outcome.flipped) <= Relabelled(refuses, reached, log)
  {
    var run := FullRun(floors, ceiling);
    LogIsPrefix(refuses, log, outcome, run);
    ConvergedFlips(floors, ceiling);
    var k: nat :| k < |run.calls| && run.calls[k].Flip?;
    LiveFlipsOnlyCleanFloors(floors, ceiling, refuses, log, outcome, k);
    assert !refuses(k);
    forall n | n in run.outcome.flipped ensures n in Relabelled(refuses, reached, log) {
      assert n in Struck(log[k], refuses(k), reached(k));
      RelabelledByFlips(refuses, reached, log, n);
    }
  }

  /** The children a live run has relabelled: none if it parks, exactly the flipped ones if it
      converges, and some of the planned ones of a clean floor if a refused call cut it short. */
  lemma LiveRelabels(floors: nat -> Floor, ceiling: int, refuses: nat -> bool, reached: nat -> set<nat>, log: seq<Call>,
                     outcome: Outcome)
    requires Performed(refuses, [], log, outcome, FullRun(floors, ceiling))
    ensures var all :=
        if FullRun(floors, ceiling).outcome.Converged? then Elements(FullRun(floors, ceiling).outcome.flipped)
        else {};
      && Relabelled(refuses, reached, log) <= all
      && (!outcome.Faulted? ==> Relabelled(refuses, reached, log) == all)
  {
    var run := FullRun(floors, ceiling);
    forall n | n in Relabelled(refuses, reached, log)
      ensures run.outcome.Converged? && n in run.outcome.flipped
    {
      RelabelledByFlips(refuses, reached, log, n);
      var k :| 0 <= k < |log| && n in Struck(log[k], refuses(k), reached(k));
      LiveFlipsOnlyCleanFloors(floors, ceiling, refuses, log, outcome, k);
    }
    if !outcome.Faulted? && run.outcome.Converged? && run.outcome.flipped != [] {
      ConvergedRelabelsAll(floors, ceiling, refuses, reached, log, outcome);
    }
  }

  lemma {:induction false} TallyFinds(calls: seq<Call>, effect: Effect)
    requires Tally(calls, effect) > 0
    ensures exists k :: 0 <= k < |calls| && EffectOf(calls[k]) == effect
  {
    if EffectOf(calls[0]) != effect {
      TallyFinds(calls[1..], effect);
      var k :| 0 <= k < |calls[1..]| && EffectOf(calls[1..][k]) == effect;
      assert calls[k + 1] == calls[1..][k];
    }
  }

  lemma ConvergedFlips(floors: nat -> Floor, ceiling: int)
    requires FullRun(floors, ceiling).outcome.Converged? && FullRun(floors, ceiling).outcome.flipped != []
    ensures exists k :: 0 <= k < |FullRun(floors, ceiling).calls| && FullRun(floors, ceiling).calls[k].Flip?
  {
    CallsTallied(floors, ceiling);
    TallyFinds(FullRun(floors, ceiling).calls, Flipping);
  }

  /** Refused calls only lower the tallies. */
  lemma RefusalsOnlyCut(floors: nat -> Floor, ceiling: int, refuses: nat -> bool, log: seq<Call>, outcome: Outcome,
                        e: Effect)
    requires Performed(refuses, [], log, outcome, FullRun(floors, ceiling))
    ensures Tally(log, e) <= Tally(FullRun(floors, ceiling).calls, e)
    ensures outcome.Faulted? || (outcome == FullRun(floors, ceiling).outcome && log == FullRun(floors, ceiling).calls)
  {
    LogIsPrefix(refuses, log, outcome, FullRun(floors, ceiling));
    TallyPrefix(log, FullRun(floors, ceiling).calls, e);
  }

  // ---- with the real floor ----

  ghost function Floors(ledgers: nat -> Ledger): nat -> Floor {
    (k: nat) => FloorOf(ledgers(k))
  }

  /** Pass `i` fails with fewer defects than the pass before. */
  ghost predicate Shrinks(ledgers: nat -> Ledger, i: nat) {
    && Defects(ledgers(i)) != []
    && (i > 0 ==> |Defects(ledgers(i))| < |Defects(ledgers(i - 1))|)
  }

  lemma SignatureOnlyNamesTheReason(ledgers: nat -> Ledger, i: nat)
    ensures GoesOn(Floors(ledgers), i) <==> Shrinks(ledgers, i)
  {
    if i > 0 && Signature(ledgers(i)) == Signature(ledgers(i - 1)) {
      SameSignatureSameCount(ledgers(i), ledgers(i - 1));
    }
  }

  /** `n` passes: all but the last shrink, and the last does not unless it is the ceiling's. */
  ghost predicate CountsStopAt(ledgers: nat -> Ledger, ceiling: int, n: int) {
    && 0 <= n <= Bound(ceiling) && (forall i: nat :: i + 1 < n ==> Shrinks(ledgers, i))
    && (n == Bound(ceiling) || (n >= 1 && !Shrinks(ledgers, n - 1)))
  }

  lemma StopsByCounts(ledgers: nat -> Ledger, ceiling: int, n: nat, run: Run)
    requires StopsAt(Floors(ledgers), ceiling, n, run)
    ensures CountsStopAt(ledgers, ceiling, n) && run.outcome.iterations == n
  {
    forall i: nat | i + 1 < n ensures Shrinks(ledgers, i) {
      SignatureOnlyNamesTheReason(ledgers, i);
    }
    if n >= 1 { SignatureOnlyNamesTheReason(ledgers, n - 1); }
  }

  lemma CountsStopOnce(ledgers: nat -> Ledger, ceiling: int, n: int, m: int)
    requires CountsStopAt(ledgers, ceiling, n) && CountsStopAt(ledgers, ceiling, m)
    ensures n == m
  {
  }

  /** With the real signatures a run goes on exactly as long as the defects shrink and the ceiling allows:
      the signature test never parks a run the count test would let go on, it only names the reason. */
  lemma CountsDecideExactly(ledgers: nat -> Ledger, ceiling: int, n: int)
    ensures FullRun(Floors(ledgers), ceiling).outcome.iterations == n <==> CountsStopAt(ledgers, ceiling, n)
  {
    assert StateAt(Floors(ledgers), 0) == INITIAL;
    var last := StepStops(Floors(ledgers), ceiling, 0);
    StopsByCounts(ledgers, ceiling, last, FullRun(Floors(ledgers), ceiling));
    if CountsStopAt(ledgers, ceiling, n) { CountsStopOnce(ledgers, ceiling, n, last); }
  }

  lemma ConvergedWasClean(floors: nat -> Floor, ceiling: int, last: nat, f: Floor)
    requires FullRun(floors, ceiling).outcome.Converged? && FullRun(floors, ceiling).outcome.iterations == last + 1
    requires f == floors(last)
    ensures f.defects == [] && FullRun(floors, ceiling).outcome.flipped == f.planned
  {
    assert StateAt(floors, 0) == INITIAL;
    var n := StepStops(floors, ceiling, 0);
    assert n == last + 1 && floors(n - 1) == f;
  }

  /** A converged epic is workable: the ledger of its last pass is sound, has an order in which every
      issue can be picked, and the flipped children are the planned ones of that ledger. */
  lemma ConvergedIsPickable(ledgers: nat -> Ledger, ceiling: int, last: nat)
    requires var outcome := FullRun(Floors(ledgers), ceiling).outcome;
      outcome.Converged? && outcome.iterations == last + 1
    ensures FullRun(Floors(ledgers), ceiling).outcome.flipped == Planned(ledgers(last).children)
    ensures LedgerSound(ledgers(last))
    ensures exists order: seq<nat> :: PickOrder(Elements(ledgers(last).edges), order)
  {
    ConvergedWasClean(Floors(ledgers), ceiling, last, FloorOf(ledgers(last)));
    CleanExactlyWhenSound(ledgers(last));
    CleanIsPickable(ledgers(last));
  }
}
