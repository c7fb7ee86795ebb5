/** `prune` is housekeeping: no later answer depends on whether it ran. */
module RegistryPrune {
  import opened Options
  import opened RegistryCore
  import opened RegistryRuns

  /** One step of a continuation: an event, another prune, or a question. */
  datatype Step =
    | Act(event: Event)
    | PruneAt(millis: int)
    | AskLookup(role: string, millis: int)
    | AskHolder(resource: string, millis: int)

  datatype Answer =
    | Silent
    | Present(records: seq<PresenceRecord>)
    | Holder(holder: Option<string>)
    | Verdict(granted: bool, claimHolder: string)

  ghost function After(s: State, step: Step): State {
    match step
    case Act(e) => Apply(s, e)
    case PruneAt(now) => Prune(s, now)
    case _ => s
  }

  ghost function AnswerOf(s: State, step: Step): Answer {
    match step
    case Act(Claimed(resource, holder, role, now)) =>
      var outcome := ClaimResource(s, resource, holder, role, now).1;
      Verdict(outcome.Granted?, outcome.holder)
    case AskLookup(role, now) => Present(Lookup(s, role, now))
    case AskHolder(resource, now) => Holder(ClaimHolder(s, resource, now))
    case _ => Silent
  }

  ghost function Answers(s: State, steps: seq<Step>): seq<Answer>
    decreases |steps|
  {
    if steps == [] then [] else [AnswerOf(s, steps[0])] + Answers(After(s, steps[0]), steps[1..])
  }

  /** The clock reading a step uses, if it reads the clock. */
  ghost function ClockOf(step: Step): Option<int> {
    match step
    case Act(Announced(_, _, _, now)) => Some(now)
    case Act(Beat(_, _, now)) => Some(now)
    case Act(Claimed(_, _, _, now)) => Some(now)
    case Act(_) => None
    case PruneAt(now) => Some(now)
    case AskLookup(_, now) => Some(now)
    case AskHolder(_, now) => Some(now)
  }

  /** The clock never runs backwards along `steps`, starting from `now`. */
  ghost predicate StepsRise(steps: seq<Step>, now: int) {
    steps == [] ||
    match ClockOf(steps[0])
    case None => StepsRise(steps[1..], now)
    case Some(t) => now <= t && StepsRise(steps[1..], t)
  }

  /** No step announces or beats for a peer of `lost`. */
  ghost predicate Silenced(steps: seq<Step>, lost: set<string>) {
    forall i :: 0 <= i < |steps| && steps[i].Act? ==> forall p :: p in lost ==> !Refreshes(steps[i].event, p)
  }

  /** The peers that lose a lease or a claim when `s` is pruned. */
  ghost function Lost(s: State, now: int): set<string> {
    (set p | p in s.leases.at && !IsLive(s.leases.at[p], now))
    + (set r | r in s.claims && !HasLivePresence(s.leases, s.claims[r].holder, now) :: s.claims[r].holder)
  }

  /** `t` is `s` without leases and claims of lost peers; lost peers are not live in either. */
  ghost predicate Shadow(lost: set<string>, s: State, t: State, now: int) {
    ShadowLeases(lost, s.leases, t.leases, now) && ShadowClaims(lost, s.claims, t.claims)
  }

  ghost predicate ShadowLeases(lost: set<string>, s: Leases, t: Leases, now: int) {
    && s.Valid() && t == Restrict(s, t.at.Keys) && t.at.Keys <= s.at.Keys
    && (forall p :: p in s.at && p !in t.at ==> p in lost)
    && (forall p :: p in lost ==> p !in t.at && !HasLivePresence(s, p, now))
  }

  ghost predicate ShadowClaims(lost: set<string>, s: map<string, Claim>, t: map<string, Claim>) {
    && (forall r :: r in t ==> r in s && s[r].holder == t[r].holder && (t[r].holder in lost || t[r] == s[r]))
    && (forall r :: r in s && r !in t ==> s[r].holder in lost)
  }

  lemma PruneIsShadow(s: State, now: int)
    requires s.leases.Valid()
    ensures Shadow(Lost(s, now), s, Prune(s, now), now)
  {
    var live := LivePeers(s.leases, now);
    RestrictValid(s.leases, live);
    assert s.leases.at.Keys * live == live;
  }

  lemma ShadowLater(lost: set<string>, s: State, t: State, now: int, later: int)
    requires Shadow(lost, s, t, now) && now <= later
    ensures Shadow(lost, s, t, later)
  {
  }

  lemma SameLive(lost: set<string>, s: Leases, t: Leases, now: int, p: string)
    requires ShadowLeases(lost, s, t, now)
    ensures HasLivePresence(s, p, now) <==> HasLivePresence(t, p, now)
    ensures p in t.at ==> t.at[p] == s.at[p]
  {
  }

  lemma SetLeaseKeys(leases: Leases, lease: Lease)
    ensures SetLease(leases, lease).at.Keys == leases.at.Keys + {lease.peer}
  {
  }

  lemma SetLeaseValid(leases: Leases, lease: Lease)
    requires leases.Valid()
    ensures SetLease(leases, lease).Valid()
  {
    ApplyKeepsValid(State(leases, map[]), Announced(lease.role, lease.peer, lease.ttlSeconds, lease.lastSeenMillis));
  }

  lemma ShadowRefresh(lost: set<string>, s: Leases, t: Leases, now: int, lease: Lease)
    requires ShadowLeases(lost, s, t, now) && lease.peer !in lost
    ensures ShadowLeases(lost, SetLease(s, lease), SetLease(t, lease), now)
  {
    assert lease.peer in s.at ==> lease.peer in t.at;
    SetLeaseKeys(t, lease);
    SetLeaseKeys(s, lease);
    SetLeaseValid(s, lease);
    RefreshRestricts(s, t, lease);
    forall p | p in lost ensures p !in SetLease(t, lease).at && !HasLivePresence(SetLease(s, lease), p, now) {
      assert !HasLivePresence(s, p, now);
    }
  }

  lemma RefreshRestricts(s: Leases, t: Leases, lease: Lease)
    requires s.Valid() && t == Restrict(s, t.at.Keys) && (lease.peer in s.at ==> lease.peer in t.at)
    ensures SetLease(t, lease) == Restrict(SetLease(s, lease), SetLease(t, lease).at.Keys)
  {
    RestrictSet(s, t.at.Keys, lease);
    SetLeaseKeys(t, lease);
  }

  lemma ShadowClaim(lost: set<string>, s: State, t: State, now: int, resource: string, holder: string, role: string)
    requires Shadow(lost, s, t, now)
    ensures var a, b := ClaimResource(s, resource, holder, role, now), ClaimResource(t, resource, holder, role, now);
            && Shadow(lost, a.0, b.0, now)
            && a.1.Granted? == b.1.Granted? && a.1.holder == b.1.holder
            && (holder !in lost ==> a.1 == b.1)
  {
    if resource in s.claims { SameLive(lost, s.leases, t.leases, now, s.claims[resource].holder); }
  }

  lemma ShadowRestrict(lost: set<string>, s: Leases, t: Leases, now: int, a: set<string>, b: set<string>)
    requires ShadowLeases(lost, s, t, now) && b == t.at.Keys * a
    ensures ShadowLeases(lost, Restrict(s, a), Restrict(t, b), now)
  {
    RestrictValid(s, t.at.Keys);
    RestrictValid(s, a);
    RestrictValid(t, b);
    RestrictTwice(s, t.at.Keys, b);
    RestrictTwice(s, a, b);
    assert t.at.Keys * b == b && a * b == b;
  }

  lemma ShadowRelease(lost: set<string>, s: State, t: State, now: int, peer: string)
    requires Shadow(lost, s, t, now)
    ensures Shadow(lost, Release(s, peer), Release(t, peer), now)
  {
    assert t.leases.at.Keys - {peer} == t.leases.at.Keys * (s.leases.at.Keys - {peer});
    ShadowRestrict(lost, s.leases, t.leases, now, s.leases.at.Keys - {peer}, t.leases.at.Keys - {peer});
  }

  lemma SameLivePeers(lost: set<string>, s: Leases, t: Leases, now: int)
    requires ShadowLeases(lost, s, t, now)
    ensures LivePeers(t, now) == t.at.Keys * LivePeers(s, now)
    ensures LivePeers(t, now) == LivePeers(s, now)
    ensures forall role :: Serving(t, role, now) == Serving(s, role, now)
  {
    forall p ensures HasLivePresence(s, p, now) <==> HasLivePresence(t, p, now) { SameLive(lost, s, t, now, p); }
  }

  lemma ShadowPrune(lost: set<string>, s: State, t: State, now: int)
    requires Shadow(lost, s, t, now)
    ensures Shadow(lost, Prune(s, now), Prune(t, now), now)
  {
    SameLivePeers(lost, s.leases, t.leases, now);
    ShadowRestrict(lost, s.leases, t.leases, now, LivePeers(s.leases, now), LivePeers(t.leases, now));
    forall p
      ensures HasLivePresence(s.leases, p, now) <==> HasLivePresence(t.leases, p, now)
    {
      SameLive(lost, s.leases, t.leases, now, p);
    }
  }

  lemma ShadowLookup(lost: set<string>, s: State, t: State, role: string, now: int)
    requires Shadow(lost, s, t, now)
    ensures Lookup(s, role, now) == Lookup(t, role, now)
  {
    SameLivePeers(lost, s.leases, t.leases, now);
    var serving := Serving(s.leases, role, now);
    KeepKeep(s.leases.order, t.leases.at.Keys, serving);
    assert t.leases.at.Keys * serving == serving;
    var kept := Keep(s.leases.order, serving);
    assert forall i :: 0 <= i < |kept| ==> kept[i] in kept;
  }

  lemma ShadowAnnounce(lost: set<string>, s: State, t: State, now: int, role: string, peer: string, ttl: int)
    requires Shadow(lost, s, t, now) && peer !in lost
    ensures Shadow(lost, Announce(s, role, peer, ttl, now), Announce(t, role, peer, ttl, now), now)
  {
    ShadowRefresh(lost, s.leases, t.leases, now, Lease(role, peer, ttl, now));
  }

  lemma ShadowBeat(lost: set<string>, s: State, t: State, now: int, peer: string, ttl: int)
    requires Shadow(lost, s, t, now) && peer !in lost
    ensures Shadow(lost, Heartbeat(s, peer, ttl, now), Heartbeat(t, peer, ttl, now), now)
  {
    SameLive(lost, s.leases, t.leases, now, peer);
    if peer in s.leases.at {
      ShadowRefresh(lost, s.leases, t.leases, now, s.leases.at[peer].(ttlSeconds := ttl, lastSeenMillis := now));
    }
  }

  lemma ShadowReleaseClaim(lost: set<string>, s: State, t: State, now: int, resource: string, claimant: string)
    requires Shadow(lost, s, t, now)
    ensures Shadow(lost, ReleaseClaim(s, resource, claimant), ReleaseClaim(t, resource, claimant), now)
  {
  }

  /** One step gives the same answer in a state and its shadow, and keeps them so. */
  lemma ShadowStep(lost: set<string>, s: State, t: State, step: Step, now: int)
    requires Shadow(lost, s, t, now)
    requires match ClockOf(step) case None => true case Some(at) => at == now
    requires step.Act? ==> forall p :: p in lost ==> !Refreshes(step.event, p)
    ensures AnswerOf(s, step) == AnswerOf(t, step)
    ensures Shadow(lost, After(s, step), After(t, step), now)
  {
    match step
    case Act(Announced(role, peer, ttl, at)) => ShadowAnnounce(lost, s, t, now, role, peer, ttl);
    case Act(Beat(peer, ttl, at)) => ShadowBeat(lost, s, t, now, peer, ttl);
    case Act(Claimed(resource, holder, role, at)) => ShadowClaim(lost, s, t, now, resource, holder, role);
    case Act(ClaimReleased(resource, claimant)) => ShadowReleaseClaim(lost, s, t, now, resource, claimant);
    case Act(Released(peer)) => ShadowRelease(lost, s, t, now, peer);
    case PruneAt(at) => ShadowPrune(lost, s, t, now);
    case AskLookup(role, at) => ShadowLookup(lost, s, t, role, now);
    case AskHolder(resource, at) =>
      if resource in s.claims { SameLive(lost, s.leases, t.leases, now, s.claims[resource].holder); }
  }

  lemma {:induction false} ShadowAnswers(lost: set<string>, s: State, t: State, steps: seq<Step>, now: int)
    requires Shadow(lost, s, t, now) && StepsRise(steps, now) && Silenced(steps, lost)
    ensures Answers(s, steps) == Answers(t, steps)
    decreases |steps|
  {
    if steps == [] {
    } else {
      var later := match ClockOf(steps[0]) case None => now case Some(at) => at;
      ShadowLater(lost, s, t, now, later);
      ShadowStep(lost, s, t, steps[0], later);
      ShadowAnswers(lost, After(s, steps[0]), After(t, steps[0]), steps[1..], later);
    }
  }

  /** Pruning is invisible: over any continuation under a non-decreasing clock in which no peer that
      lost a lease or claim announces or beats again, every lookup, holder and claim verdict is the
      same whether or not `prune` ran first. */
  lemma PruneIsInvisible(s: State, now: int, steps: seq<Step>)
    requires s.Valid() && StepsRise(steps, now) && Silenced(steps, Lost(s, now))
    ensures Answers(Prune(s, now), steps) == Answers(s, steps)
  {
    PruneIsShadow(s, now);
    ShadowAnswers(Lost(s, now), s, Prune(s, now), steps, now);
  }

  /** The silence is needed: a beat that comes after expiry revives the lease when nothing pruned it
      (the running service never prunes), and does nothing when something did. */
  lemma LateBeatRevives(s: State, p: string, ttl: int, now: int)
    requires s.Valid() && p in s.leases.at && !IsLive(s.leases.at[p], now) && 0 <= ttl
    ensures HasLivePresence(Heartbeat(s, p, ttl, now).leases, p, now)
    ensures !HasLivePresence(Heartbeat(Prune(s, now), p, ttl, now).leases, p, now)
    ensures exists role ::
      Lookup(Heartbeat(s, p, ttl, now), role, now) != Lookup(Heartbeat(Prune(s, now), p, ttl, now), role, now)
  {
    var a, b := Heartbeat(s, p, ttl, now), Heartbeat(Prune(s, now), p, ttl, now);
    var role := s.leases.at[p].role;
    assert p in Serving(a.leases, role, now) && p in a.leases.order;
    var kept := Keep(a.leases.order, Serving(a.leases, role, now));
    assert p in kept;
    var k :| 0 <= k < |kept| && kept[k] == p;
    assert Lookup(a, role, now)[k].peer == p;
    forall i | 0 <= i < |Lookup(b, role, now)| ensures Lookup(b, role, now)[i].peer != p {
      assert Keep(b.leases.order, Serving(b.leases, role, now))[i]
        in Keep(b.leases.order, Serving(b.leases, role, now));
    }
  }

  /** Pruning twice is pruning once, at the later time. */
  lemma PruneAbsorbs(s: State, t1: int, t2: int)
    requires s.Valid() && t1 <= t2
    ensures Prune(Prune(s, t1), t2) == Prune(s, t2)
  {
    var live1, live2 := LivePeers(s.leases, t1), LivePeers(s.leases, t2);
    RestrictTwice(s.leases, live1, live2);
    assert live1 * live2 == live2;
    LivePeersOfPruned(s, t1, t2);
    assert Prune(Prune(s, t1), t2).leases == Prune(s, t2).leases;
    ClaimsOfPruned(s, t1, t2);
  }

  lemma ClaimsOfPruned(s: State, t1: int, t2: int)
    requires t1 <= t2
    ensures Prune(Prune(s, t1), t2).claims == Prune(s, t2).claims
  {
    LivePeersOfPruned(s, t1, t2);
    var a, b := Prune(Prune(s, t1), t2).claims, Prune(s, t2).claims;
    forall r ensures r in a <==> r in b {
      if r in b { assert HasLivePresence(s.leases, s.claims[r].holder, t1); }
    }
    assert a.Keys == b.Keys;
  }

  lemma LivePeersOfPruned(s: State, t1: int, t2: int)
    requires t1 <= t2
    ensures LivePeers(Prune(s, t1).leases, t2) == LivePeers(s.leases, t2)
    ensures forall h :: HasLivePresence(Prune(s, t1).leases, h, t2) <==> HasLivePresence(s.leases, h, t2)
  {
  }

  /** After a prune every lease is live and every claim's holder holds a live lease. */
  lemma PrunedIsLive(s: State, now: int)
    requires s.Valid()
    ensures var t := Prune(s, now);
            && t.Valid()
            && (forall p :: p in t.leases.at ==> IsLive(t.leases.at[p], now))
            && (forall r :: r in t.claims ==> HasLivePresence(t.leases, t.claims[r].holder, now))
  {
    RestrictValid(s.leases, LivePeers(s.leases, now));
  }
}
