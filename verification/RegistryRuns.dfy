/** Runs of the registry: events with the tracker's clock reading, and the state a log leads to. */
module RegistryRuns {
  import opened RegistryCore

  datatype Event =
    | Announced(role: string, peer: string, ttlSeconds: int, millis: int)
    | Beat(peer: string, ttlSeconds: int, millis: int)
    | Claimed(resource: string, holder: string, role: string, millis: int)
    | ClaimReleased(resource: string, claimant: string)
    | Released(peer: string)

  ghost function Apply(s: State, e: Event): State {
    match e
    case Announced(role, peer, ttl, now) => Announce(s, role, peer, ttl, now)
    case Beat(peer, ttl, now) => Heartbeat(s, peer, ttl, now)
    case Claimed(resource, holder, role, now) => ClaimResource(s, resource, holder, role, now).0
    case ClaimReleased(resource, claimant) => ReleaseClaim(s, resource, claimant)
    case Released(peer) => Release(s, peer)
  }

  ghost function Run(s: State, log: seq<Event>): State {
    if log == [] then s else Apply(Run(s, log[..|log| - 1]), log[|log| - 1])
  }

  lemma ApplyKeepsValid(s: State, e: Event)
    requires s.Valid()
    ensures Apply(s, e).Valid()
  {
    if e.Released? { KeepDistinct(s.leases.order, s.leases.at.Keys - {e.peer}); }
  }

  lemma {:induction false} RunKeepsValid(s: State, log: seq<Event>)
    requires s.Valid()
    ensures Run(s, log).Valid()
  {
    if log == [] {
    } else {
      RunKeepsValid(s, log[..|log| - 1]);
      ApplyKeepsValid(Run(s, log[..|log| - 1]), log[|log| - 1]);
    }
  }

  lemma RunAppend(s: State, log: seq<Event>, e: Event)
    ensures Run(s, log + [e]) == Apply(Run(s, log), e)
  {
    assert (log + [e])[..|log|] == log;
  }

  // ---- presence, read off the log ----

  ghost predicate Announces(e: Event, p: string) {
    e.Announced? && e.peer == p
  }

  ghost predicate Refreshes(e: Event, p: string) {
    (e.Announced? || e.Beat?) && e.peer == p
  }

  ghost predicate Frees(e: Event, p: string) {
    e.Released? && e.peer == p
  }

  /** `p` announced at `i` and has not been released since. */
  ghost predicate Standing(log: seq<Event>, i: nat, p: string) {
    i < |log| && Announces(log[i], p) && forall j :: i < j < |log| ==> !Frees(log[j], p)
  }

  ghost predicate FirstStanding(log: seq<Event>, i: nat, p: string) {
    Standing(log, i, p) && forall k: nat :: k < i ==> !Standing(log, k, p)
  }

  ghost predicate LastAnnounce(log: seq<Event>, i: nat, p: string) {
    Standing(log, i, p) && forall k :: i < k < |log| ==> !Announces(log[k], p)
  }

  ghost predicate LastRefresh(log: seq<Event>, i: nat, p: string) {
    i < |log| && Refreshes(log[i], p) && forall k :: i < k < |log| ==> !Refreshes(log[k], p)
  }

  /** `p` stands, its last announce named `role`, and its latest refresh is within its TTL. */
  ghost predicate Served(log: seq<Event>, p: string, role: string, now: int) {
    exists i: nat, j: nat ::
      && LastAnnounce(log, i, p) && log[i].role == role
      && LastRefresh(log, j, p) && now <= log[j].millis + log[j].ttlSeconds * 1000
  }

  /** What one stored lease says of the log. */
  ghost predicate LeaseShows(log: seq<Event>, lease: Lease, p: string) {
    && lease.peer == p
    && (exists i: nat :: LastAnnounce(log, i, p) && log[i].role == lease.role)
    && (exists j: nat ::
          LastRefresh(log, j, p) && log[j].ttlSeconds == lease.ttlSeconds && log[j].millis == lease.lastSeenMillis)
  }

  ghost predicate Tracks(log: seq<Event>, leases: Leases) {
    && leases.Valid()
    && (forall i: nat, p :: Standing(log, i, p) ==> p in leases.at)
    && (forall p :: p in leases.at ==> LeaseShows(log, leases.at[p], p))
    && InOrder(log, leases.order)
  }

  /** The peers stand in order of their first announce since any release. */
  ghost predicate InOrder(log: seq<Event>, order: seq<string>) {
    forall a, b, i: nat, j: nat ::
      0 <= a < b < |order| && FirstStanding(log, i, order[a]) && FirstStanding(log, j, order[b]) ==> i < j
  }

  // ---- how one more event changes what the log says ----

  lemma StandingStep(log: seq<Event>, e: Event, i: nat, p: string)
    ensures Standing(log + [e], i, p) <==>
      (i < |log| && Standing(log, i, p) && !Frees(e, p)) || (i == |log| && Announces(e, p))
  {
    var all := log + [e];
    assert all[|log|] == e && forall j :: 0 <= j < |log| ==> all[j] == log[j];
  }

  lemma FirstStandingStep(log: seq<Event>, e: Event, i: nat, p: string)
    requires FirstStanding(log + [e], i, p)
    ensures i < |log| ==> FirstStanding(log, i, p)
    ensures i == |log| ==> forall k: nat :: !Standing(log, k, p)
  {
    forall k: nat ensures Standing(log + [e], k, p) <==>
      (k < |log| && Standing(log, k, p) && !Frees(e, p)) || (k == |log| && Announces(e, p))
    {
      StandingStep(log, e, k, p);
    }
  }

  lemma LeaseShowsStays(log: seq<Event>, e: Event, lease: Lease, p: string)
    requires LeaseShows(log, lease, p) && !Refreshes(e, p) && !Frees(e, p)
    ensures LeaseShows(log + [e], lease, p)
  {
    var all := log + [e];
    var i: nat :| LastAnnounce(log, i, p) && log[i].role == lease.role;
    var j: nat :| LastRefresh(log, j, p) && log[j].ttlSeconds == lease.ttlSeconds
      && log[j].millis == lease.lastSeenMillis;
    StandingStep(log, e, i, p);
    assert LastAnnounce(all, i, p) && LastRefresh(all, j, p);
  }

  lemma LeaseShowsAnnounce(log: seq<Event>, e: Event)
    requires e.Announced?
    ensures LeaseShows(log + [e], Lease(e.role, e.peer, e.ttlSeconds, e.millis), e.peer)
  {
    StandingStep(log, e, |log|, e.peer);
    assert LastAnnounce(log + [e], |log|, e.peer) && LastRefresh(log + [e], |log|, e.peer);
  }

  lemma LeaseShowsBeat(log: seq<Event>, e: Event, lease: Lease)
    requires e.Beat? && LeaseShows(log, lease, e.peer)
    ensures LeaseShows(log + [e], lease.(ttlSeconds := e.ttlSeconds, lastSeenMillis := e.millis), e.peer)
  {
    var i: nat :| LastAnnounce(log, i, e.peer) && log[i].role == lease.role;
    StandingStep(log, e, i, e.peer);
    assert LastAnnounce(log + [e], i, e.peer) && LastRefresh(log + [e], |log|, e.peer);
  }

  /** First announces keep their order while every listed peer stands. */
  lemma InOrderStays(log: seq<Event>, e: Event, order: seq<string>)
    requires InOrder(log, order)
    requires forall p :: p in order ==> exists k: nat :: Standing(log, k, p)
    ensures InOrder(log + [e], order)
  {
    forall a, b, i: nat, j: nat
      | 0 <= a < b < |order| && FirstStanding(log + [e], i, order[a]) && FirstStanding(log + [e], j, order[b])
      ensures i < j
    {
      FirstStandingStep(log, e, i, order[a]);
      FirstStandingStep(log, e, j, order[b]);
      assert order[a] in order && order[b] in order;
    }
  }

  lemma InOrderAppends(log: seq<Event>, e: Event, order: seq<string>)
    requires InOrder(log, order) && e.Announced?
    requires forall p :: p in order ==> exists k: nat :: Standing(log, k, p)
    requires forall k: nat :: !Standing(log, k, e.peer)
    ensures InOrder(log + [e], order + [e.peer])
  {
    InOrderStays(log, e, order);
    var more := order + [e.peer];
    forall a, b, i: nat, j: nat
      | 0 <= a < b < |more| && FirstStanding(log + [e], i, more[a]) && FirstStanding(log + [e], j, more[b])
      ensures i < j
    {
      if b < |order| {
        assert more[a] == order[a] && more[b] == order[b];
      } else {
        FirstStandingStep(log, e, i, more[a]);
        FirstStandingStep(log, e, j, more[b]);
        assert more[a] in order;
      }
    }
  }

  lemma InOrderKeep(log: seq<Event>, order: seq<string>, keys: set<string>)
    requires InOrder(log, order)
    ensures InOrder(log, Keep(order, keys))
  {
    var kept := Keep(order, keys);
    forall x, y, i: nat, j: nat
      | 0 <= x < y < |kept| && FirstStanding(log, i, kept[x]) && FirstStanding(log, j, kept[y])
      ensures i < j
    {
      var a, b := KeepPositions(order, keys, x, y);
    }
  }

  lemma TracksStands(log: seq<Event>, leases: Leases)
    requires Tracks(log, leases)
    ensures forall p :: p in leases.order ==> exists k: nat :: Standing(log, k, p)
  {
    forall p | p in leases.order ensures exists k: nat :: Standing(log, k, p) {
      var i: nat :| LastAnnounce(log, i, p) && log[i].role == leases.at[p].role;
    }
  }

  lemma TracksAnnounce(log: seq<Event>, leases: Leases, e: Event)
    requires Tracks(log, leases) && e.Announced?
    ensures Tracks(log + [e], SetLease(leases, Lease(e.role, e.peer, e.ttlSeconds, e.millis)))
  {
    var next := SetLease(leases, Lease(e.role, e.peer, e.ttlSeconds, e.millis));
    TracksStands(log, leases);
    if e.peer in leases.at { InOrderStays(log, e, leases.order); } else { InOrderAppends(log, e, leases.order); }
    LeaseShowsAnnounce(log, e);
    forall p | p in next.at ensures LeaseShows(log + [e], next.at[p], p) {
      if p != e.peer { LeaseShowsStays(log, e, leases.at[p], p); }
    }
    forall i: nat, p | Standing(log + [e], i, p) ensures p in next.at { StandingStep(log, e, i, p); }
  }

  lemma TracksBeat(log: seq<Event>, leases: Leases, e: Event)
    requires Tracks(log, leases) && e.Beat?
    ensures Tracks(log + [e], Heartbeat(State(leases, map[]), e.peer, e.ttlSeconds, e.millis).leases)
  {
    var next := Heartbeat(State(leases, map[]), e.peer, e.ttlSeconds, e.millis).leases;
    TracksStands(log, leases);
    InOrderStays(log, e, leases.order);
    forall p | p in next.at ensures LeaseShows(log + [e], next.at[p], p) {
      if p != e.peer { LeaseShowsStays(log, e, leases.at[p], p); } else { LeaseShowsBeat(log, e, leases.at[p]); }
    }
    forall i: nat, p | Standing(log + [e], i, p) ensures p in next.at { StandingStep(log, e, i, p); }
  }

  lemma TracksRelease(log: seq<Event>, leases: Leases, e: Event)
    requires Tracks(log, leases) && e.Released?
    ensures Tracks(log + [e], Release(State(leases, map[]), e.peer).leases)
  {
    var next := Release(State(leases, map[]), e.peer).leases;
    TracksStands(log, leases);
    InOrderStays(log, e, leases.order);
    InOrderKeep(log + [e], leases.order, leases.at.Keys - {e.peer});
    KeepDistinct(leases.order, leases.at.Keys - {e.peer});
    forall p | p in next.at ensures LeaseShows(log + [e], next.at[p], p) {
      LeaseShowsStays(log, e, leases.at[p], p);
    }
    forall i: nat, p | Standing(log + [e], i, p) ensures p in next.at { StandingStep(log, e, i, p); }
  }

  /** Claim events leave no trace in the presence keyspace. */
  lemma TracksOther(log: seq<Event>, leases: Leases, e: Event)
    requires Tracks(log, leases) && (e.Claimed? || e.ClaimReleased?)
    ensures Tracks(log + [e], leases)
  {
    TracksStands(log, leases);
    InOrderStays(log, e, leases.order);
    forall p | p in leases.at ensures LeaseShows(log + [e], leases.at[p], p) {
      LeaseShowsStays(log, e, leases.at[p], p);
    }
    forall i: nat, p | Standing(log + [e], i, p) ensures p in leases.at { StandingStep(log, e, i, p); }
  }

  lemma {:induction false} RunTracks(log: seq<Event>)
    ensures Tracks(log, Run(Empty(), log).leases)
  {
    if log == [] {
    } else {
      var front, e := log[..|log| - 1], log[|log| - 1];
      assert log == front + [e];
      RunTracks(front);
      var s := Run(Empty(), front);
      match e
      case Announced(_, _, _, _) => TracksAnnounce(front, s.leases, e);
      case Beat(_, _, _) => TracksBeat(front, s.leases, e);
      case Released(_) => TracksRelease(front, s.leases, e);
      case _ => TracksOther(front, s.leases, e);
    }
  }

  // ---- lookup, read off the log ----

  lemma ServedIsServing(log: seq<Event>, p: string, role: string, now: int)
    ensures Served(log, p, role, now) <==> p in Serving(Run(Empty(), log).leases, role, now)
  {
    RunTracks(log);
    var leases := Run(Empty(), log).leases;
    if p in leases.at {
      var i: nat :| LastAnnounce(log, i, p) && log[i].role == leases.at[p].role;
      var j: nat :| LastRefresh(log, j, p) && log[j].ttlSeconds == leases.at[p].ttlSeconds
        && log[j].millis == leases.at[p].lastSeenMillis;
      if Served(log, p, role, now) {
        var k: nat, l: nat :| LastAnnounce(log, k, p) && log[k].role == role
          && LastRefresh(log, l, p) && now <= log[l].millis + log[l].ttlSeconds * 1000;
        assert i == k && j == l;
      }
    }
  }

  ghost predicate Lists(r: seq<PresenceRecord>, p: string) {
    exists k :: 0 <= k < |r| && r[k].peer == p
  }

  ghost predicate ShowsLatestRefresh(log: seq<Event>, record: PresenceRecord) {
    exists j: nat :: LastRefresh(log, j, record.peer) && log[j].millis == record.lastSeenMillis
  }

  /** `r` lists exactly the peers the log serves for `role`, each with its latest refresh, once each,
      in order of first announce since release. */
  ghost predicate ReadsTheLog(log: seq<Event>, role: string, now: int, r: seq<PresenceRecord>) {
    && (forall p :: Lists(r, p) <==> Served(log, p, role, now))
    && (forall k :: 0 <= k < |r| ==> r[k].role == role && ShowsLatestRefresh(log, r[k]))
    && (forall k, l :: 0 <= k < l < |r| ==> r[k].peer != r[l].peer)
    && (forall k, l, i: nat, j: nat
          | 0 <= k < l < |r| && FirstStanding(log, i, r[k].peer) && FirstStanding(log, j, r[l].peer) :: i < j)
  }

  /** What `lookup(role)` answers after any run from the empty registry. */
  lemma LookupReadsTheLog(log: seq<Event>, role: string, now: int)
    ensures ReadsTheLog(log, role, now, Lookup(Run(Empty(), log), role, now))
  {
    RunTracks(log);
    var leases := Run(Empty(), log).leases;
    var keys := Serving(leases, role, now);
    var kept := Keep(leases.order, keys);
    var r := Lookup(Run(Empty(), log), role, now);
    InOrderKeep(log, leases.order, keys);
    KeepDistinct(leases.order, keys);
    forall k | 0 <= k < |r|
      ensures r[k].peer == kept[k] && r[k].role == role && ShowsLatestRefresh(log, r[k])
    {
      assert kept[k] in kept;
      assert LeaseShows(log, leases.at[kept[k]], kept[k]);
    }
    forall p ensures Lists(r, p) <==> Served(log, p, role, now) {
      ServedIsServing(log, p, role, now);
      ListsKept(leases, kept, p);
    }
  }

  lemma ListsKept(leases: Leases, kept: seq<string>, p: string)
    requires leases.Valid() && forall q :: q in kept ==> q in leases.at
    ensures Lists(Records(leases, kept), p) <==> p in kept
  {
    var r := Records(leases, kept);
    assert forall k :: 0 <= k < |r| ==> kept[k] in kept && r[k].peer == kept[k];
    if p in kept { var k :| 0 <= k < |kept| && kept[k] == p; assert r[k].peer == p; }
  }

  ghost function WithoutClaims(log: seq<Event>): seq<Event> {
    if log == [] then [] else
      var front, e := WithoutClaims(log[..|log| - 1]), log[|log| - 1];
      if e.Claimed? || e.ClaimReleased? then front else front + [e]
  }

  /** Deleting every claim and claim-release from a run changes no lookup answer. */
  lemma {:induction false} ClaimsInvisibleToLookup(s: State, log: seq<Event>)
    ensures Run(s, log).leases == Run(s, WithoutClaims(log)).leases
    ensures forall role, now :: Lookup(Run(s, log), role, now) == Lookup(Run(s, WithoutClaims(log)), role, now)
  {
    if log == [] {
    } else {
      var front, e := log[..|log| - 1], log[|log| - 1];
      ClaimsInvisibleToLookup(s, front);
      RunAppend(s, WithoutClaims(front), e);
    }
  }
}
