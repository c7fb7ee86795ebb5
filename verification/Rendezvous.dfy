/** First-peer-spawn at one socket path: probe, unlink, bind, listen, dial, crash and shutdown as
    interleaved steps of any number of peers. */
module Rendezvous {
  import opened Options

  /** Where a peer is in `crewTrackerHostOrDialLayer`. Each process is a peer of its own. A bound peer
      owns the socket file but does not accept connections yet. */
  datatype Stage =
    | Idle
    | Probed(stale: bool)
    | Ready
    | Bound
    | Hosting
    | Dialling
    | Client(host: string)
    | Failed
    | Gone

  /** The socket file and who bound it; `listened[p]` are the peers that began listening since `p`
      probed. */
  datatype State = State(file: Option<string>, stages: map<string, Stage>, listened: map<string, set<string>>) {
    function At(p: string): Stage {
      if p in stages then stages[p] else Idle
    }

    function ListenedSince(p: string): set<string> {
      if p in listened then listened[p] else {}
    }

    predicate Live(p: string) {
      At(p) == Hosting
    }

    /** Bound, listening yet or not. */
    predicate Owns(p: string) {
      At(p) == Bound || At(p) == Hosting
    }

    function Move(p: string, stage: Stage): State {
      this.(stages := stages[p := stage])
    }
  }

  /** `clear` is false when a probe is ambiguous, an unlink faults, or a bind is denied outright. */
  datatype Step =
    | Probe(peer: string, clear: bool)
    | Unlink(peer: string, clear: bool)
    | Bind(peer: string, clear: bool)
    | Listen(peer: string)
    | Dial(peer: string)
    | Crash(peer: string)
    | Shutdown(peer: string)

  predicate Enabled(s: State, step: Step) {
    match step
    case Probe(p, _) => s.At(p) == Idle
    case Unlink(p, _) => s.At(p).Probed?
    case Bind(p, _) => s.At(p) == Ready
    case Listen(p) => s.At(p) == Bound
    case Dial(p) => s.At(p) == Dialling
    case Crash(p) => s.At(p) != Gone
    case Shutdown(p) => s.At(p) == Hosting
  }

  /** A connect is refused exactly when the file is there and nobody listens behind it. */
  predicate Refused(s: State) {
    s.file.Some? && !s.Live(s.file.value)
  }

  predicate Removes(s: State, step: Step) {
    || (step.Unlink? && step.clear && s.At(step.peer) == Probed(true))
    || step.Shutdown?
  }

  function Next(s: State, step: Step): State {
    match step
    case Probe(p, clear) => s.Move(p, Probed(clear && Refused(s))).(listened := s.listened[p := {}])
    case Unlink(p, _) => s.Move(p, Ready).(file := if Removes(s, step) then None else s.file)
    case Bind(p, clear) =>
      if !clear then s.Move(p, Failed)
      else if s.file.Some? then s.Move(p, Dialling)
      else s.Move(p, Bound).(file := Some(p))
    case Listen(p) => s.Move(p, Hosting).(listened := map q | q in s.listened :: s.listened[q] + {p})
    case Dial(p) => s.Move(p, if s.file.Some? && s.Live(s.file.value) then Client(s.file.value) else Failed)
    case Crash(p) => s.Move(p, Gone)
    case Shutdown(p) => s.Move(p, Gone).(file := None)
  }

  ghost predicate Possible(s: State, steps: seq<Step>)
    decreases |steps|
  {
    steps == [] || (Enabled(s, steps[0]) && Possible(Next(s, steps[0]), steps[1..]))
  }

  ghost function After(s: State, steps: seq<Step>): State
    decreases |steps|
  {
    if steps == [] then s else After(Next(s, steps[0]), steps[1..])
  }

  /** Nobody has started; the file may be an orphan of a peer long gone. */
  ghost predicate Initial(s: State) {
    s.stages == map[] && s.listened == map[]
  }

  // ---- safety ----

  /** The step removes the socket file of another peer that is alive, listening yet or not. */
  ghost predicate RemovesOwnedFile(s: State, step: Step) {
    Removes(s, step) && s.file.Some? && s.file.value != step.peer && s.Owns(s.file.value)
  }

  /** The step removes the file of another peer that is listening. */
  ghost predicate RemovesLiveFile(s: State, step: Step) {
    RemovesOwnedFile(s, step) && s.Live(s.file.value)
  }

  /** A stale verdict is acted on while another peer is bound without listening yet, or hosts and began
      listening in the window since the verdict. */
  ghost predicate Overtaken(s: State, step: Step) {
    step.Unlink? && Removes(s, step)
    && exists q: string :: s.At(q) == Bound || (s.Live(q) && q in s.ListenedSince(step.peer))
  }

  /** The same, for a peer that hosts. */
  ghost predicate OvertakenByHost(s: State, step: Step) {
    step.Unlink? && Removes(s, step) && exists q: string :: s.Live(q) && q in s.ListenedSince(step.peer)
  }

  /** Some step of the run is bad in the state it is taken in. */
  ghost predicate Somewhere(s: State, steps: seq<Step>, bad: (State, Step) -> bool)
    decreases |steps|
  {
    steps != [] && (bad(s, steps[0]) || Somewhere(Next(s, steps[0]), steps[1..], bad))
  }

  /** A bound or hosting peer's file is in place, so there is at most one such peer; and any host alive
      while a stale verdict is pending began listening since that probe. */
  ghost predicate Inv(s: State) {
    && (forall h: string :: s.Owns(h) ==> s.file == Some(h))
    && (forall p: string, h: string :: s.At(p) == Probed(true) && s.Live(h) ==> h in s.ListenedSince(p))
    && (forall p: string :: s.At(p).Probed? ==> p in s.listened)
  }

  /** An unlink removes a living owner's file exactly when it is overtaken, and a host's file exactly
      when that owner began listening since the probe. */
  lemma UnlinkRaceExactly(s: State, step: Step)
    requires Inv(s) && Enabled(s, step)
    ensures RemovesOwnedFile(s, step) <==> Overtaken(s, step)
    ensures RemovesLiveFile(s, step) <==> OvertakenByHost(s, step)
  {
    if RemovesOwnedFile(s, step) {
      OwnedIsOvertaken(s, step);
    }
    if Overtaken(s, step) {
      var q: string :| s.At(q) == Bound || (s.Live(q) && q in s.ListenedSince(step.peer));
      assert s.Owns(q) && s.file == Some(q) && q != step.peer;
    }
    if OvertakenByHost(s, step) {
      var q: string :| s.Live(q) && q in s.ListenedSince(step.peer);
      assert s.Owns(q) && s.file == Some(q) && q != step.peer;
    }
  }

  lemma OwnedIsOvertaken(s: State, step: Step)
    requires Inv(s) && Enabled(s, step) && RemovesOwnedFile(s, step)
    ensures Overtaken(s, step) && (s.Live(s.file.value) ==> OvertakenByHost(s, step))
  {
    var h := s.file.value;
    if step.Shutdown? {
      assert s.Owns(step.peer);
    } else {
      assert s.Live(h) ==> h in s.ListenedSince(step.peer);
    }
  }

  /** Everybody but the stepping peer stays where it was. */
  lemma OthersStay(s: State, step: Step, q: string)
    requires q != step.peer
    ensures Next(s, step).At(q) == s.At(q)
    ensures s.ListenedSince(q) <= Next(s, step).ListenedSince(q)
    ensures q in s.listened ==> q in Next(s, step).listened
  {
  }

  /** Whoever owns the file after the step owned it before, or has just bound. */
  lemma OwnerAfter(s: State, step: Step, h: string)
    requires Inv(s) && Enabled(s, step) && !Overtaken(s, step) && Next(s, step).Owns(h)
    ensures Next(s, step).file == Some(h)
    ensures s.Owns(h) || (step.Bind? && step.peer == h && s.file.None?)
  {
    if h != step.peer {
      OthersStay(s, step, h);
      assert s.Owns(h);
      UnlinkRaceExactly(s, step);
    } else if step.Listen? {
      assert s.Owns(h);
    }
  }

  lemma StaleAfter(s: State, step: Step, p: string, h: string)
    requires Inv(s) && Enabled(s, step) && !Overtaken(s, step)
    requires Next(s, step).At(p) == Probed(true) && Next(s, step).Live(h)
    ensures h in Next(s, step).ListenedSince(p)
  {
    OwnerAfter(s, step, h);
    if p != step.peer {
      OthersStay(s, step, p);
      assert s.At(p) == Probed(true);
      assert s.Live(h) ==> h in s.ListenedSince(p);
    } else if h != p {
      OthersStay(s, step, h);
    }
  }

  lemma InvStep(s: State, step: Step)
    requires Inv(s) && Enabled(s, step) && !Overtaken(s, step)
    ensures Inv(Next(s, step))
  {
    var t := Next(s, step);
    forall h: string | t.Owns(h) ensures t.file == Some(h) {
      OwnerAfter(s, step, h);
    }
    forall p: string, h: string | t.At(p) == Probed(true) && t.Live(h) ensures h in t.ListenedSince(p) {
      StaleAfter(s, step, p, h);
    }
    forall p: string | t.At(p).Probed? ensures p in t.listened {
      if p != step.peer { OthersStay(s, step, p); }
    }
  }

  /** In any run without an overtaken unlink, at most one peer is bound or hosts, and its file is in
      place. */
  lemma {:induction false} SafeWhileNotOvertaken(s: State, steps: seq<Step>)
    requires Inv(s) && Possible(s, steps) && !Somewhere(s, steps, Overtaken)
    ensures Inv(After(s, steps)) && !Somewhere(s, steps, RemovesOwnedFile)
    decreases |steps|
  {
    if steps == [] {
    } else {
      UnlinkRaceExactly(s, steps[0]);
      InvStep(s, steps[0]);
      SafeWhileNotOvertaken(Next(s, steps[0]), steps[1..]);
    }
  }

  lemma {:induction false} OvertakenRemovesOwnedFile(s: State, steps: seq<Step>)
    requires Inv(s) && Possible(s, steps) && Somewhere(s, steps, Overtaken)
    ensures Somewhere(s, steps, RemovesOwnedFile)
    decreases |steps|
  {
    UnlinkRaceExactly(s, steps[0]);
    if !Overtaken(s, steps[0]) {
      InvStep(s, steps[0]);
      OvertakenRemovesOwnedFile(Next(s, steps[0]), steps[1..]);
    }
  }

  /** Over every run: some step removes the file of a living peer that has bound it exactly when some
      unlink is overtaken. */
  lemma OwnedFileLostExactlyWhenOvertaken(s: State, steps: seq<Step>)
    requires Initial(s) && Possible(s, steps)
    ensures Somewhere(s, steps, RemovesOwnedFile) <==> Somewhere(s, steps, Overtaken)
  {
    if Somewhere(s, steps, Overtaken) { OvertakenRemovesOwnedFile(s, steps); } else { SafeWhileNotOvertaken(s, steps); }
  }

  /** Up to the first overtaken unlink, that unlink included, a step removes the file of a listening
      host exactly when the host began listening between the unlinking peer's probe and its unlink. */
  lemma LiveFileLostExactlyWhenOvertaken(s: State, steps: seq<Step>, step: Step)
    requires Inv(s) && Possible(s, steps) && !Somewhere(s, steps, Overtaken) && Enabled(After(s, steps), step)
    ensures RemovesLiveFile(After(s, steps), step) <==> OvertakenByHost(After(s, steps), step)
  {
    SafeWhileNotOvertaken(s, steps);
    UnlinkRaceExactly(After(s, steps), step);
  }

  /** While no unlink is overtaken, one root resolves to at most one tracker, bound or listening, and
      dialling clients find it. */
  lemma AtMostOneHost(s: State, steps: seq<Step>, g: string, h: string)
    requires Initial(s) && Possible(s, steps) && !Somewhere(s, steps, Overtaken)
    requires After(s, steps).Owns(g) && After(s, steps).Owns(h)
    ensures g == h && After(s, steps).file == Some(h)
  {
    SafeWhileNotOvertaken(s, steps);
  }

  // ---- the window is real ----

  lemma FirstStep(s: State, step: Step, rest: seq<Step>)
    ensures var steps := [step] + rest;
      && After(s, steps) == After(Next(s, step), rest)
      && (Possible(s, steps) <==> (Enabled(s, step) && Possible(Next(s, step), rest)))
      && (Somewhere(s, steps, OvertakenByHost) <==>
            (OvertakenByHost(s, step) || Somewhere(Next(s, step), rest, OvertakenByHost)))
  {
    assert ([step] + rest)[1..] == rest;
  }

  /** The run leads from `s` to `t` past an unlink that an already listening host overtook. */
  ghost predicate LosesHost(s: State, steps: seq<Step>, t: State) {
    Possible(s, steps) && After(s, steps) == t && Somewhere(s, steps, OvertakenByHost)
  }

  lemma OneMore(s: State, step: Step, rest: seq<Step>, t: State)
    requires Enabled(s, step) && LosesHost(Next(s, step), rest, t)
    ensures LosesHost(s, [step] + rest, t)
  {
    FirstStep(s, step, rest);
  }

  /** From a pending stale verdict of `p` on, with a host that began listening since, `p` unlinks, binds
      and hosts too. */
  lemma SecondHost(s: State, p: string, h: string) returns (steps: seq<Step>, t: State)
    requires s.At(p) == Probed(true) && s.Live(h) && h in s.ListenedSince(p)
    ensures LosesHost(s, steps, t) && t.Live(p) && t.Live(h)
  {
    var s1 := Next(s, Unlink(p, true));
    var s2 := Next(s1, Bind(p, true));
    t := Next(s2, Listen(p));
    assert OvertakenByHost(s, Unlink(p, true));
    assert Possible(t, []) && After(t, []) == t;
    FirstStep(s2, Listen(p), []);
    FirstStep(s1, Bind(p, true), [Listen(p)] + []);
    FirstStep(s, Unlink(p, true), [Bind(p, true)] + ([Listen(p)] + []));
    steps := [Unlink(p, true)] + ([Bind(p, true)] + ([Listen(p)] + []));
  }

  /** Two peers that both probe an orphaned file can both end up hosting. */
  lemma TwoHostsAfterOvertaking(s: State, p: string, q: string, orphan: string) returns (steps: seq<Step>, t: State)
    requires Initial(s) && s.file == Some(orphan) && p != q
    ensures LosesHost(s, steps, t) && t.Live(p) && t.Live(q)
  {
    var s1 := Next(s, Probe(p, true));
    var s2 := Next(s1, Probe(q, true));
    var s3 := Next(s2, Unlink(q, true));
    var s4 := Next(s3, Bind(q, true));
    var s5 := Next(s4, Listen(q));
    steps, t := SecondHost(s5, p, q);
    OneMore(s4, Listen(q), steps, t);
    steps := [Listen(q)] + steps;
    OneMore(s3, Bind(q, true), steps, t);
    steps := [Bind(q, true)] + steps;
    OneMore(s2, Unlink(q, true), steps, t);
    steps := [Unlink(q, true)] + steps;
    OneMore(s1, Probe(q, true), steps, t);
    steps := [Probe(q, true)] + steps;
    OneMore(s, Probe(p, true), steps, t);
    steps := [Probe(p, true)] + steps;
  }

  /** So can two peers that start on an empty path: the file is refused while its owner is bound but
      not yet listening, and nobody binds between the probe and the unlink. */
  lemma TwoHostsAfterEarlyProbe(s: State, p: string, q: string) returns (steps: seq<Step>, t: State)
    requires Initial(s) && s.file.None? && p != q
    ensures LosesHost(s, steps, t) && t.Live(p) && t.Live(q)
  {
    var s1 := Next(s, Probe(q, true));
    var s2 := Next(s1, Unlink(q, true));
    var s3 := Next(s2, Bind(q, true));
    var s4 := Next(s3, Probe(p, true));
    var s5 := Next(s4, Listen(q));
    steps, t := SecondHost(s5, p, q);
    OneMore(s4, Listen(q), steps, t);
    steps := [Listen(q)] + steps;
    OneMore(s3, Probe(p, true), steps, t);
    steps := [Probe(p, true)] + steps;
    OneMore(s2, Bind(q, true), steps, t);
    steps := [Bind(q, true)] + steps;
    OneMore(s1, Unlink(q, true), steps, t);
    steps := [Unlink(q, true)] + steps;
    OneMore(s, Probe(q, true), steps, t);
    steps := [Probe(q, true)] + steps;
  }

  // ---- what happens to the file ----

  /** The socket file goes exactly with a shutdown, or with an unlink after a stale verdict that does not
      fault; it comes exactly with a bind that finds none. A crash leaves it where it is. */
  lemma FileChangesExactly(s: State, step: Step, p: string)
    requires Enabled(s, step)
    ensures s.file.Some? && Next(s, step).file.None? <==>
      s.file.Some? && (step.Shutdown? || (step.Unlink? && step.clear && s.At(step.peer) == Probed(true)))
    ensures s.file != Some(p) && Next(s, step).file == Some(p) <==> s.file.None? && step == Bind(p, true)
  {
  }

  /** A probe finds the file stale exactly when it is told so for sure: the file is there and whoever bound
      it is not listening, or no longer. Anything unclear keeps the file safe from this peer. */
  lemma StaleExactly(s: State, p: string, clear: bool, again: bool)
    requires Enabled(s, Probe(p, clear))
    ensures var t := Next(s, Probe(p, clear));
      && t.file == s.file
      && (t.At(p) == Probed(true) <==> clear && s.file.Some? && s.At(s.file.value) != Hosting)
      && (!clear ==> Next(t, Unlink(p, again)).file == s.file)
  {
  }

  /** A peer dials exactly when its bind finds the address in use; any other failure to bind ends it. */
  lemma DialsExactly(s: State, step: Step, p: string)
    requires Enabled(s, step) && s.At(p) != Dialling
    ensures Next(s, step).At(p) == Dialling <==> step == Bind(p, true) && s.file.Some?
    ensures step == Bind(p, false) ==> Next(s, step).At(p) == Failed && Next(s, step).file == s.file
  {
  }

  // ---- who becomes a client ----

  /** A peer becomes a client only by dialling, and then exactly of the peer that hosts at that moment and
      whose file is in place; a dial that finds no such peer fails. */
  lemma ClientOnlyOfHost(s: State, step: Step, p: string, h: string)
    requires Enabled(s, step) && s.At(p) != Client(h)
    ensures Next(s, step).At(p) == Client(h) <==> step == Dial(p) && s.file == Some(h) && s.At(h) == Hosting
  {
  }

  ghost predicate HostedAt(s: State, steps: seq<Step>, i: nat, h: string) {
    i <= |steps| && After(s, steps[..i]).At(h) == Hosting
  }

  lemma {:induction false} AfterMore(s: State, steps: seq<Step>, step: Step)
    ensures After(s, steps + [step]) == Next(After(s, steps), step)
    ensures Possible(s, steps + [step]) <==> Possible(s, steps) && Enabled(After(s, steps), step)
    decreases |steps|
  {
    if steps == [] {
      assert (steps + [step])[1..] == [];
    } else {
      assert (steps + [step])[1..] == steps[1..] + [step];
      AfterMore(Next(s, steps[0]), steps[1..], step);
    }
  }

  /** Over every run: whoever is a client was taken in by a peer that was hosting at some point of it. */
  lemma {:induction false} ClientWasHosted(s: State, steps: seq<Step>, p: string, h: string) returns (i: nat)
    requires Initial(s) && Possible(s, steps) && After(s, steps).At(p) == Client(h)
    ensures HostedAt(s, steps, i, h)
    decreases |steps|
  {
    assert steps != [];
    var n := |steps| - 1;
    var front, step := steps[..n], steps[n];
    assert steps == front + [step];
    AfterMore(s, front, step);
    if After(s, front).At(p) == Client(h) {
      i := ClientWasHosted(s, front, p, h);
      assert front[..i] == steps[..i];
    } else {
      ClientOnlyOfHost(After(s, front), step, p, h);
      i := n;
    }
  }

  // ---- progress of a lone spawner ----

  class Socket {
    var state: State

    constructor (state: State)
      ensures this.state == state
    {
      this.state := state;
    }

    /** `crewTrackerHostOrDialLayer` with no other peer stepping in between: reclaim, bind and listen,
        and dial when the address is in use. An orphaned file never stops it from hosting. */
    method HostOrDial(p: string) returns (outcome: Stage)
      requires state.At(p) == Idle
      modifies this
      ensures outcome == state.At(p)
      ensures (forall h: string :: !old(state).Live(h)) ==> outcome == Hosting && state.file == Some(p)
      ensures forall h: string ::
        old(state).Live(h) && old(state).file == Some(h) ==> outcome == Client(h) && state.file == Some(h)
      ensures forall q: string :: q != p ==> state.At(q) == old(state).At(q)
    {
      state := Next(state, Probe(p, true));
      state := Next(state, Unlink(p, true));
      state := Next(state, Bind(p, true));
      if state.At(p) == Dialling {
        state := Next(state, Dial(p));
      } else {
        state := Next(state, Listen(p));
      }
      outcome := state.At(p);
    }
  }
}
