/** The tracker's soft-state registry: presence leases keyed by peer, resource claims keyed by
    resource, every transition a function of the state, the input and the tracker's own clock. */
module RegistryCore {
  import opened Options
  import opened Ordering

  const DEFAULT_TTL_SECONDS: int := 30

  datatype Lease = Lease(role: string, peer: string, ttlSeconds: int, lastSeenMillis: int)

  datatype Claim = Claim(resource: string, holder: string, claimantRole: string, claimedAtMillis: int)

  /** An insertion-ordered map from peers to leases: overwriting a key keeps its place. */
  datatype Leases = Leases(order: seq<string>, at: map<string, Lease>) {
    ghost predicate Valid() {
      && Distinct(order)
      && (forall p :: p in order <==> p in at)
      && (forall p :: p in at ==> at[p].peer == p)
    }
  }

  datatype State = State(leases: Leases, claims: map<string, Claim>) {
    ghost predicate Valid() {
      leases.Valid() && forall r :: r in claims ==> claims[r].resource == r
    }
  }

  datatype PresenceRecord = PresenceRecord(peer: string, role: string, lastSeenMillis: int)

  datatype ClaimOutcome =
    | Granted(holder: string, sinceMillis: int)
    | Collision(holder: string, sinceMillis: int)

  function Empty(): State {
    State(Leases([], map[]), map[])
  }

  predicate IsLive(lease: Lease, now: int) {
    now <= lease.lastSeenMillis + lease.ttlSeconds * 1000
  }

  predicate HasLivePresence(leases: Leases, holder: string, now: int) {
    holder in leases.at && IsLive(leases.at[holder], now)
  }

  function SetLease(leases: Leases, lease: Lease): Leases {
    Leases(if lease.peer in leases.at then leases.order else leases.order + [lease.peer],
           leases.at[lease.peer := lease])
  }

  function Announce(s: State, role: string, peer: string, ttlSeconds: int, now: int): State {
    s.(leases := SetLease(s.leases, Lease(role, peer, ttlSeconds, now)))
  }

  function Heartbeat(s: State, peer: string, ttlSeconds: int, now: int): State {
    if peer !in s.leases.at then s
    else s.(leases := SetLease(s.leases, s.leases.at[peer].(ttlSeconds := ttlSeconds, lastSeenMillis := now)))
  }

  function ClaimResource(s: State, resource: string, holder: string, claimantRole: string, now: int)
    : (State, ClaimOutcome)
  {
    if resource in s.claims && s.claims[resource].holder != holder
       && HasLivePresence(s.leases, s.claims[resource].holder, now)
    then (s, Collision(s.claims[resource].holder, s.claims[resource].claimedAtMillis))
    else
      var since := if resource in s.claims && s.claims[resource].holder == holder
                   then s.claims[resource].claimedAtMillis else now;
      (s.(claims := s.claims[resource := Claim(resource, holder, claimantRole, since)]), Granted(holder, since))
  }

  function ReleaseClaim(s: State, resource: string, claimant: string): State {
    if resource !in s.claims || s.claims[resource].holder != claimant then s
    else s.(claims := s.claims - {resource})
  }

  function ClaimHolder(s: State, resource: string, now: int): Option<string> {
    if resource !in s.claims || !HasLivePresence(s.leases, s.claims[resource].holder, now) then None
    else Some(s.claims[resource].holder)
  }

  // ---- the looping operations, as specifications ----

  /** The elements of `order` that lie in `keys`, order kept. */
  function Keep(order: seq<string>, keys: set<string>): (r: seq<string>)
    ensures forall p :: p in r <==> p in order && p in keys
  {
    if order == [] then [] else
      var front, last := order[..|order| - 1], order[|order| - 1];
      assert order == front + [last];
      if last in keys then Keep(front, keys) + [last] else Keep(front, keys)
  }

  ghost function Serving(leases: Leases, role: string, now: int): set<string> {
    set p | p in leases.at && leases.at[p].role == role && IsLive(leases.at[p], now)
  }

  ghost function Records(leases: Leases, peers: seq<string>): seq<PresenceRecord>
    requires forall p :: p in peers ==> p in leases.at
  {
    seq(|peers|, i requires 0 <= i < |peers| =>
      var lease := leases.at[peers[i]]; PresenceRecord(lease.peer, lease.role, lease.lastSeenMillis))
  }

  /** Every live lease of `role`, in the order of the lease map. */
  ghost function Lookup(s: State, role: string, now: int): seq<PresenceRecord> {
    Records(s.leases, Keep(s.leases.order, Serving(s.leases, role, now)))
  }

  /** The leases of the peers in `keys`, in the order they had. */
  function Restrict(leases: Leases, keys: set<string>): Leases {
    Leases(Keep(leases.order, keys), map p | p in leases.at && p in keys :: leases.at[p])
  }

  ghost function Release(s: State, peer: string): State {
    State(Restrict(s.leases, s.leases.at.Keys - {peer}),
          map r | r in s.claims && s.claims[r].holder != peer :: s.claims[r])
  }

  ghost function LivePeers(leases: Leases, now: int): set<string> {
    set p | p in leases.at && IsLive(leases.at[p], now)
  }

  ghost function Prune(s: State, now: int): State {
    State(Restrict(s.leases, LivePeers(s.leases, now)),
          map r | r in s.claims && HasLivePresence(s.leases, s.claims[r].holder, now) :: s.claims[r])
  }

  // ---- laws of Keep ----

  lemma {:induction false} KeepAll(order: seq<string>, keys: set<string>)
    requires forall p :: p in order ==> p in keys
    ensures Keep(order, keys) == order
  {
    if order == [] {
    } else {
      assert forall p :: p in order[..|order| - 1] ==> p in order;
      KeepAll(order[..|order| - 1], keys);
    }
  }

  lemma {:induction false} KeepKeep(order: seq<string>, a: set<string>, b: set<string>)
    ensures Keep(Keep(order, a), b) == Keep(order, a * b)
  {
    if order == [] {
    } else {
      var front, last := order[..|order| - 1], order[|order| - 1];
      KeepKeep(front, a, b);
      assert (Keep(front, a) + [last])[..|Keep(front, a)|] == Keep(front, a);
    }
  }

  lemma {:induction false} KeepSame(order: seq<string>, a: set<string>, b: set<string>)
    requires forall p :: p in order ==> (p in a <==> p in b)
    ensures Keep(order, a) == Keep(order, b)
  {
    if order == [] {
    } else {
      assert order[|order| - 1] in order;
      assert forall p :: p in order[..|order| - 1] ==> p in order;
      KeepSame(order[..|order| - 1], a, b);
    }
  }

  lemma {:induction false} KeepDistinct(order: seq<string>, keys: set<string>)
    requires Distinct(order)
    ensures Distinct(Keep(order, keys))
  {
    if order == [] {
    } else {
      var front := order[..|order| - 1];
      KeepDistinct(front, keys);
      assert order[|order| - 1] !in Keep(front, keys);
    }
  }

  lemma KeepAppend(order: seq<string>, p: string, keys: set<string>)
    ensures Keep(order + [p], keys) == Keep(order, keys) + (if p in keys then [p] else [])
  {
    assert (order + [p])[..|order|] == order;
  }

  /** `Keep` respects positions: it lists the kept keys in the order they had. */
  lemma {:induction false} KeepPositions(order: seq<string>, keys: set<string>, i: nat, j: nat) returns (a: nat, b: nat)
    requires i < j < |Keep(order, keys)|
    ensures a < b < |order| && order[a] == Keep(order, keys)[i] && order[b] == Keep(order, keys)[j]
  {
    var front, last := order[..|order| - 1], order[|order| - 1];
    var kept := Keep(front, keys);
    if j < |kept| {
      a, b := KeepPositions(front, keys, i, j);
    } else {
      assert kept[i] in kept;
      a :| 0 <= a < |front| && front[a] == kept[i];
      b := |order| - 1;
    }
  }

  // ---- laws of Restrict ----

  lemma RestrictValid(leases: Leases, keys: set<string>)
    requires leases.Valid()
    ensures Restrict(leases, keys).Valid() && Restrict(leases, keys).at.Keys == leases.at.Keys * keys
  {
    KeepDistinct(leases.order, keys);
  }

  lemma RestrictTwice(leases: Leases, a: set<string>, b: set<string>)
    ensures Restrict(Restrict(leases, a), b) == Restrict(leases, a * b)
  {
    KeepKeep(leases.order, a, b);
  }

  lemma RestrictSet(leases: Leases, keys: set<string>, lease: Lease)
    requires leases.Valid() && (lease.peer in leases.at ==> lease.peer in keys)
    ensures SetLease(Restrict(leases, keys), lease) == Restrict(SetLease(leases, lease), keys + {lease.peer})
  {
    RestrictSetOrder(leases, keys, lease);
    RestrictSetMap(leases, keys, lease);
  }

  lemma RestrictSetOrder(leases: Leases, keys: set<string>, lease: Lease)
    requires leases.Valid() && (lease.peer in leases.at ==> lease.peer in keys)
    ensures SetLease(Restrict(leases, keys), lease).order == Keep(SetLease(leases, lease).order, keys + {lease.peer})
  {
    var p := lease.peer;
    KeepAppend(leases.order, p, keys + {p});
    if p in leases.at {
      assert keys + {p} == keys;
    } else {
      KeepSame(leases.order, keys + {p}, keys);
    }
  }

  lemma RestrictSetMap(leases: Leases, keys: set<string>, lease: Lease)
    ensures SetLease(Restrict(leases, keys), lease).at == Restrict(SetLease(leases, lease), keys + {lease.peer}).at
  {
    var a, b := SetLease(Restrict(leases, keys), lease).at, Restrict(SetLease(leases, lease), keys + {lease.peer}).at;
    assert a.Keys == b.Keys;
    assert forall q :: q in a ==> a[q] == b[q];
  }
}
