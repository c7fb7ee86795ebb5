/** The registry service: one mutable state cell, the clock read once per operation, and the loops
    that `lookup`, `release` and `prune` run over the lease and claim maps. */
module RegistryService {
  import opened RegistryCore
  import opened RegistryRuns

  class Registry {
    var state: State
    /** Every state-changing operation so far. */
    ghost var log: seq<Event>

    ghost predicate Valid()
      reads this
    {
      state.Valid() && state == Run(Empty(), log)
    }

    constructor ()
      ensures Valid() && log == []
    {
      state := Empty();
      log := [];
    }

    ghost method Logged(e: Event)
      requires state == Apply(Run(Empty(), log), e)
      modifies `log
      ensures log == old(log) + [e] && Valid()
    {
      RunAppend(Empty(), log, e);
      RunKeepsValid(Empty(), log);
      ApplyKeepsValid(Run(Empty(), log), e);
      log := log + [e];
    }

    method Announce(role: string, peer: string, ttlSeconds: int, now: int)
      requires Valid()
      modifies this
      ensures Valid() && log == old(log) + [Announced(role, peer, ttlSeconds, now)]
    {
      state := RegistryCore.Announce(state, role, peer, ttlSeconds, now);
      Logged(Announced(role, peer, ttlSeconds, now));
    }

    method Heartbeat(peer: string, ttlSeconds: int, now: int)
      requires Valid()
      modifies this
      ensures Valid() && log == old(log) + [Beat(peer, ttlSeconds, now)]
    {
      state := RegistryCore.Heartbeat(state, peer, ttlSeconds, now);
      Logged(Beat(peer, ttlSeconds, now));
    }

    method Claim(resource: string, claimant: string, role: string, now: int) returns (outcome: ClaimOutcome)
      requires Valid()
      modifies this
      ensures Valid() && log == old(log) + [Claimed(resource, claimant, role, now)]
      ensures outcome == ClaimResource(Run(Empty(), old(log)), resource, claimant, role, now).1
    {
      var (next, answer) := ClaimResource(state, resource, claimant, role, now);
      state, outcome := next, answer;
      Logged(Claimed(resource, claimant, role, now));
    }

    method ReleaseClaim(resource: string, claimant: string)
      requires Valid()
      modifies this
      ensures Valid() && log == old(log) + [ClaimReleased(resource, claimant)]
    {
      state := RegistryCore.ReleaseClaim(state, resource, claimant);
      Logged(ClaimReleased(resource, claimant));
    }

    method Lookup(role: string, now: int) returns (present: seq<PresenceRecord>)
      requires Valid()
      ensures present == RegistryCore.Lookup(Run(Empty(), log), role, now)
      ensures ReadsTheLog(log, role, now, present)
    {
      LookupReadsTheLog(log, role, now);
      present := CollectPresent(state, role, now);
    }

    method Release(peer: string)
      requires Valid()
      modifies this
      ensures Valid() && log == old(log) + [Released(peer)]
    {
      state := DropPeer(state, peer);
      Logged(Released(peer));
    }
  }

  /** The loop of `lookup`. */
  method CollectPresent(s: State, role: string, now: int) returns (present: seq<PresenceRecord>)
    requires s.Valid()
    ensures present == Lookup(s, role, now)
  {
    var order := s.leases.order;
    present := [];
    for i := 0 to |order|
      invariant present == Records(s.leases, Keep(order[..i], Serving(s.leases, role, now)))
    {
      assert order[i] in order;
      KeepNext(order, i, Serving(s.leases, role, now));
      var lease := s.leases.at[order[i]];
      if lease.role == role && IsLive(lease, now) {
        present := present + [PresenceRecord(lease.peer, lease.role, lease.lastSeenMillis)];
      }
    }
    assert order[..|order|] == order;
  }

  lemma KeepNext(order: seq<string>, i: nat, keys: set<string>)
    requires i < |order|
    ensures Keep(order[..i + 1], keys) == Keep(order[..i], keys) + (if order[i] in keys then [order[i]] else [])
  {
    assert order[..i + 1][..i] == order[..i];
  }

  /** `Map.delete` on an insertion-ordered map. */
  function Delete(leases: Leases, peer: string): Leases {
    Restrict(leases, leases.at.Keys - {peer})
  }

  /** `release`: the peer's lease goes, then every claim it holds. */
  method DropPeer(s: State, peer: string) returns (t: State)
    requires s.Valid()
    ensures t == Release(s, peer)
  {
    var leases := Delete(s.leases, peer);
    var claims, todo := s.claims, s.claims.Keys;
    while todo != {}
      invariant todo <= s.claims.Keys
      invariant claims == map r | r in s.claims && (r in todo || s.claims[r].holder != peer) :: s.claims[r]
      decreases todo
    {
      var resource :| resource in todo;
      if s.claims[resource].holder == peer { claims := claims - {resource}; }
      todo := todo - {resource};
    }
    t := State(leases, claims);
  }

  lemma DeleteFromRestricted(leases: Leases, kept: set<string>, peer: string)
    requires leases.Valid() && kept <= leases.at.Keys
    ensures Delete(Restrict(leases, kept), peer) == Restrict(leases, kept - {peer})
  {
    RestrictValid(leases, kept);
    RestrictTwice(leases, kept, kept - {peer});
    assert leases.at.Keys * kept == kept && kept * (kept - {peer}) == kept - {peer};
  }

  /** The peers left after the loop has looked at `seen`. */
  ghost function Left(leases: Leases, seen: seq<string>, now: int): set<string> {
    set p | p in leases.at && (p in seen ==> IsLive(leases.at[p], now))
  }

  /** The local copy the loop works on. */
  ghost function Pruning(leases: Leases, seen: seq<string>, now: int): Leases {
    Restrict(leases, Left(leases, seen, now))
  }

  lemma PruningNext(leases: Leases, i: nat, now: int)
    requires leases.Valid() && i < |leases.order|
    ensures var peer, before := leases.order[i], Pruning(leases, leases.order[..i], now);
            && peer in leases.at
            && Pruning(leases, leases.order[..i + 1], now) ==
                 if IsLive(leases.at[peer], now) then before else Delete(before, peer)
  {
    var peer := leases.order[i];
    assert peer in leases.order && leases.order[..i + 1] == leases.order[..i] + [peer];
    LeftNext(leases, leases.order[..i], peer, now);
    DeleteFromRestricted(leases, Left(leases, leases.order[..i], now), peer);
  }

  lemma LeftNext(leases: Leases, seen: seq<string>, peer: string, now: int)
    requires peer in leases.at
    ensures Left(leases, seen + [peer], now) ==
      if IsLive(leases.at[peer], now) then Left(leases, seen, now) else Left(leases, seen, now) - {peer}
  {
  }

  lemma LeftEnds(leases: Leases, now: int)
    requires leases.Valid()
    ensures Left(leases, [], now) == leases.at.Keys && Restrict(leases, Left(leases, [], now)) == leases
    ensures Left(leases, leases.order, now) == LivePeers(leases, now)
  {
    assert Left(leases, [], now) == leases.at.Keys;
    KeepAll(leases.order, leases.at.Keys);
  }

  /** The lease loop of `prune`. */
  method DropExpired(leases: Leases, now: int) returns (live: Leases)
    requires leases.Valid()
    ensures live == Restrict(leases, LivePeers(leases, now))
  {
    live := leases;
    LeftEnds(leases, now);
    for i := 0 to |leases.order|
      invariant live == Pruning(leases, leases.order[..i], now)
    {
      PruningNext(leases, i, now);
      var peer := leases.order[i];
      if !IsLive(leases.at[peer], now) {
        live := Delete(live, peer);
      }
    }
    assert leases.order[..|leases.order|] == leases.order;
  }

  /** The claims left while those in `todo` are still to be looked at. */
  function Unswept(claims: map<string, Claim>, leases: Leases, now: int, todo: set<string>): map<string, Claim> {
    map r | r in claims && (r in todo || HasLivePresence(leases, claims[r].holder, now)) :: claims[r]
  }

  lemma SweepOne(claims: map<string, Claim>, leases: Leases, now: int, todo: set<string>, resource: string)
    requires todo <= claims.Keys && resource in todo
    ensures Unswept(claims, leases, now, todo - {resource})
      == if HasLivePresence(leases, claims[resource].holder, now) then Unswept(claims, leases, now, todo)
         else Unswept(claims, leases, now, todo) - {resource}
  {
  }

  /** `prune`: expired leases first, then the claims whose holder is no longer present. */
  method DropStale(s: State, now: int) returns (t: State)
    requires s.Valid()
    ensures t == Prune(s, now)
  {
    var leases := DropExpired(s.leases, now);
    RestrictValid(s.leases, LivePeers(s.leases, now));
    var claims, todo := s.claims, s.claims.Keys;
    while todo != {}
      invariant todo <= s.claims.Keys
      invariant claims == Unswept(s.claims, leases, now, todo)
      decreases todo
    {
      var resource :| resource in todo;
      SweepOne(s.claims, leases, now, todo, resource);
      if !HasLivePresence(leases, s.claims[resource].holder, now) { claims := claims - {resource}; }
      todo := todo - {resource};
    }
    t := State(leases, claims);
  }
}
