/** Resource claims over whole runs: a beating holder keeps its claim, and successive grants of one
    resource exclude each other. */
module RegistryClaims {
  import opened RegistryCore
  import opened RegistryRuns

  ghost predicate ReadsClock(e: Event) {
    e.Announced? || e.Beat? || e.Claimed?
  }

  // ---- a beating holder keeps its claim ----

  /** `p` neither frees `resource` nor disconnects during `log`. */
  ghost predicate Holds(log: seq<Event>, p: string, resource: string) {
    forall i :: 0 <= i < |log| ==> !Frees(log[i], p) && log[i] != ClaimReleased(resource, p)
  }

  /** The latest refresh of `p` in `log`, or the lease it started from. */
  ghost predicate LatestIs(log: seq<Event>, p: string, start: Lease, millis: int, ttl: int) {
    || (exists j: nat :: LastRefresh(log, j, p) && log[j].millis == millis && log[j].ttlSeconds == ttl)
    || ((forall j :: 0 <= j < |log| ==> !Refreshes(log[j], p))
        && start.lastSeenMillis == millis && start.ttlSeconds == ttl)
  }

  /** Whenever the clock is read, the latest refresh of `p` before it is within its TTL. */
  ghost predicate Beating(log: seq<Event>, p: string, start: Lease) {
    forall i, millis, ttl :: 0 <= i < |log| && ReadsClock(log[i]) && LatestIs(log[..i], p, start, millis, ttl)
      ==> log[i].millis <= millis + ttl * 1000
  }

  ghost predicate HeldBy(s: State, resource: string, p: string, since: int) {
    resource in s.claims && s.claims[resource].holder == p && s.claims[resource].claimedAtMillis == since
  }

  lemma LatestStep(log: seq<Event>, e: Event, p: string, start: Lease, lease: Lease)
    requires LatestIs(log, p, start, lease.lastSeenMillis, lease.ttlSeconds)
    ensures !Refreshes(e, p) ==> LatestIs(log + [e], p, start, lease.lastSeenMillis, lease.ttlSeconds)
    ensures Refreshes(e, p) ==> LatestIs(log + [e], p, start, e.millis, e.ttlSeconds)
  {
    var all := log + [e];
    if Refreshes(e, p) {
      assert LastRefresh(all, |log|, p);
    } else if j: nat :|
      LastRefresh(log, j, p) && log[j].millis == lease.lastSeenMillis && log[j].ttlSeconds == lease.ttlSeconds
    {
      assert LastRefresh(all, j, p);
    }
  }

  /** One event leaves a live holder its claim, and its lease at its latest refresh. */
  lemma HolderStep(t: State, e: Event, p: string, resource: string, since: int)
    requires t.Valid() && p in t.leases.at && HeldBy(t, resource, p, since)
    requires ReadsClock(e) ==> IsLive(t.leases.at[p], e.millis)
    requires !Frees(e, p) && e != ClaimReleased(resource, p)
    ensures var u := Apply(t, e);
            && p in u.leases.at && HeldBy(u, resource, p, since)
            && (if Refreshes(e, p) then
                  u.leases.at[p].lastSeenMillis == e.millis && u.leases.at[p].ttlSeconds == e.ttlSeconds
                else u.leases.at[p] == t.leases.at[p])
  {
  }

  /** All along the run the holder's stored lease is its latest refresh, and its claim stands. */
  lemma {:induction false} HolderStays(s: State, log: seq<Event>, p: string, resource: string, since: int)
    requires s.Valid() && p in s.leases.at && HeldBy(s, resource, p, since)
    requires Holds(log, p, resource) && Beating(log, p, s.leases.at[p])
    ensures var t := Run(s, log);
            && p in t.leases.at && HeldBy(t, resource, p, since)
            && LatestIs(log, p, s.leases.at[p], t.leases.at[p].lastSeenMillis, t.leases.at[p].ttlSeconds)
  {
    if log == [] {
    } else {
      var front, e := log[..|log| - 1], log[|log| - 1];
      BeatingPrefix(log, p, resource, s.leases.at[p], |front|);
      HolderStays(s, front, p, resource, since);
      var t := Run(s, front);
      RunKeepsValid(s, front);
      LatestStep(front, e, p, s.leases.at[p], t.leases.at[p]);
      assert front + [e] == log;
      HolderStep(t, e, p, resource, since);
    }
  }

  lemma BeatingPrefix(log: seq<Event>, p: string, resource: string, start: Lease, n: nat)
    requires n <= |log| && Holds(log, p, resource) && Beating(log, p, start)
    ensures Holds(log[..n], p, resource) && Beating(log[..n], p, start)
  {
    assert forall i :: 0 <= i < n ==> log[..n][..i] == log[..i] && log[..n][i] == log[i];
  }

  /** A beating holder keeps its claim: every other claimant collides with it and is told its
      unmoved `since`; its own re-claim is granted with the same `since`. */
  lemma BeatingHolderKeepsClaim(s: State, log: seq<Event>, p: string, resource: string, since: int, i: nat)
    requires s.Valid() && p in s.leases.at && HeldBy(s, resource, p, since)
    requires Holds(log, p, resource) && Beating(log, p, s.leases.at[p])
    requires i < |log| && log[i].Claimed? && log[i].resource == resource
    ensures var outcome := ClaimResource(Run(s, log[..i]), resource, log[i].holder, log[i].role, log[i].millis).1;
            outcome == if log[i].holder == p then Granted(p, since) else Collision(p, since)
  {
    BeatingPrefix(log, p, resource, s.leases.at[p], i);
    HolderStays(s, log[..i], p, resource, since);
    var t := Run(s, log[..i]);
    assert IsLive(t.leases.at[p], log[i].millis);
  }

  // ---- the keepalive schedule ----

  const HEARTBEAT_TTL_SECONDS: int := DEFAULT_TTL_SECONDS
  const HEARTBEAT_INTERVAL_SECONDS: int := DEFAULT_TTL_SECONDS / 3

  /** The clock readings of a log never go down. */
  ghost predicate ClockRises(log: seq<Event>) {
    forall i, j :: 0 <= i < j < |log| && ReadsClock(log[i]) && ReadsClock(log[j]) ==> log[i].millis <= log[j].millis
  }

  ghost predicate ReadsFrom(log: seq<Event>, start: int) {
    forall i :: 0 <= i < |log| && ReadsClock(log[i]) ==> start <= log[i].millis
  }

  /** Beats one after the other, each at most an interval and `late` after the one before: the pause
      between beats, the time a beat takes, and what it may be held up. */
  ghost predicate Spaced(due: nat -> int, start: int, late: int) {
    due(0) == start
    && forall k: nat :: due(k) < due(k + 1) <= due(k) + HEARTBEAT_INTERVAL_SECONDS * 1000 + late
  }

  /** `p` beats on the keepalive schedule: the k-th beat, unless it is `lost`, reaches the tracker at
      `due(k)`, no two beats in a row are lost, and every refresh of `p` asks for the full TTL. */
  ghost predicate OnSchedule(log: seq<Event>, p: string, due: nat -> int, lost: set<nat>) {
    && 0 !in lost
    && (forall k: nat :: k in lost ==> k + 1 !in lost)
    && (forall i, k: nat :: 0 <= i < |log| && ReadsClock(log[i]) && 0 < k && k !in lost && due(k) < log[i].millis
          ==> Arrived(log, p, due(k), i))
    && (forall i :: 0 <= i < |log| && Refreshes(log[i], p) ==> log[i].ttlSeconds == HEARTBEAT_TTL_SECONDS)
  }

  ghost predicate Arrived(log: seq<Event>, p: string, millis: int, i: nat) {
    exists j :: 0 <= j < i && j < |log| && log[j] == Beat(p, HEARTBEAT_TTL_SECONDS, millis)
  }

  /** The number of the last beat due strictly before `now`, counted from `k` on. */
  ghost function LastDue(due: nat -> int, start: int, late: int, now: int, k: nat): (last: nat)
    requires Spaced(due, start, late) && due(k) < now
    ensures due(last) < now <= due(last + 1)
    decreases now - due(k)
  {
    if now <= due(k + 1) then k else LastDue(due, start, late, now, k + 1)
  }

  /** A third of the TTL between beats leaves room for one lost beat, and for lateness of up to half an
      interval: two intervals and twice the lateness fit in one TTL. */
  lemma ScheduleIsBeating(log: seq<Event>, p: string, start: Lease, due: nat -> int, late: int, lost: set<nat>)
    requires ClockRises(log) && ReadsFrom(log, start.lastSeenMillis) && start.ttlSeconds == HEARTBEAT_TTL_SECONDS
    requires Spaced(due, start.lastSeenMillis, late) && OnSchedule(log, p, due, lost) && 0 <= late <= 5000
    ensures Beating(log, p, start)
  {
    forall i, millis, ttl | 0 <= i < |log| && ReadsClock(log[i]) && LatestIs(log[..i], p, start, millis, ttl)
      ensures log[i].millis <= millis + ttl * 1000
    {
      ReadInTime(log, p, start, due, late, lost, i, millis, ttl);
    }
  }

  lemma ReadInTime(log: seq<Event>, p: string, start: Lease, due: nat -> int, late: int, lost: set<nat>, i: nat,
                   millis: int, ttl: int)
    requires ClockRises(log) && ReadsFrom(log, start.lastSeenMillis) && start.ttlSeconds == HEARTBEAT_TTL_SECONDS
    requires Spaced(due, start.lastSeenMillis, late) && OnSchedule(log, p, due, lost)
    requires 0 <= late && 2 * HEARTBEAT_INTERVAL_SECONDS * 1000 + 2 * late <= HEARTBEAT_TTL_SECONDS * 1000
    requires i < |log| && ReadsClock(log[i]) && LatestIs(log[..i], p, start, millis, ttl)
    ensures log[i].millis <= millis + ttl * 1000
  {
    var s, now := start.lastSeenMillis, log[i].millis;
    LatestTtl(log, p, start, due, lost, i, millis, ttl);
    var last := if s < now then LastDue(due, s, late, now, 0) else 0;
    var k := LastArrived(lost, last);
    DueRises(due, s, late, k, last);
    LatestNotBefore(log, p, start, due, lost, i, k, millis, ttl);
    GapFitsTtl(due, s, late, now, last, k, millis);
  }

  lemma DueRises(due: nat -> int, start: int, late: int, k: nat, last: nat)
    requires Spaced(due, start, late) && last - 1 <= k <= last
    ensures due(k) <= due(last)
  {
    if k < last { assert due(k) < due(k + 1); }
  }

  /** From one beat to the last but one after it there are two intervals at most. */
  lemma GapFitsTtl(due: nat -> int, start: int, late: int, now: int, last: nat, k: nat, millis: int)
    requires Spaced(due, start, late) && 0 <= late
    requires 2 * HEARTBEAT_INTERVAL_SECONDS * 1000 + 2 * late <= HEARTBEAT_TTL_SECONDS * 1000
    requires now <= due(last + 1) && k <= last <= k + 1 && due(k) <= millis
    ensures now <= millis + HEARTBEAT_TTL_SECONDS * 1000
  {
    assert due(k + 1) <= due(k) + HEARTBEAT_INTERVAL_SECONDS * 1000 + late;
    assert due(k + 1) < due((k + 1) + 1) <= due(k + 1) + HEARTBEAT_INTERVAL_SECONDS * 1000 + late;
  }

  /** Of any two beats in a row one arrives. */
  ghost function LastArrived(lost: set<nat>, last: nat): (k: nat)
    requires 0 !in lost && forall k: nat :: k in lost ==> k + 1 !in lost
    ensures k !in lost && last <= k + 1 && k <= last
  {
    if last in lost then last - 1 else last
  }

  lemma LatestTtl(log: seq<Event>, p: string, start: Lease, due: nat -> int, lost: set<nat>, i: nat, millis: int,
                  ttl: int)
    requires start.ttlSeconds == HEARTBEAT_TTL_SECONDS && OnSchedule(log, p, due, lost)
    requires i < |log| && LatestIs(log[..i], p, start, millis, ttl)
    ensures ttl == HEARTBEAT_TTL_SECONDS
  {
    if j: nat :| LastRefresh(log[..i], j, p) && log[..i][j].millis == millis && log[..i][j].ttlSeconds == ttl {
      assert Refreshes(log[j], p);
    }
  }

  lemma LatestNotBefore(log: seq<Event>, p: string, start: Lease, due: nat -> int, lost: set<nat>, i: nat, k: nat,
                        millis: int, ttl: int)
    requires ClockRises(log) && ReadsFrom(log, start.lastSeenMillis) && due(0) == start.lastSeenMillis
    requires OnSchedule(log, p, due, lost)
    requires i < |log| && ReadsClock(log[i]) && LatestIs(log[..i], p, start, millis, ttl)
    requires k !in lost && (k == 0 || due(k) < log[i].millis)
    ensures due(k) <= millis
  {
    if k > 0 {
      assert Arrived(log, p, due(k), i);
      var j :| 0 <= j < i && j < |log| && log[j] == Beat(p, HEARTBEAT_TTL_SECONDS, due(k));
      assert log[..i][j] == log[j] && Refreshes(log[..i][j], p);
    }
  }

  // ---- successive grants ----

  /** The claim at `i` was granted in the run of `log` from the empty registry. */
  ghost predicate GrantAt(log: seq<Event>, i: nat, resource: string) {
    && i < |log| && log[i].Claimed? && log[i].resource == resource
    && ClaimResource(Run(Empty(), log[..i]), resource, log[i].holder, log[i].role, log[i].millis).1.Granted?
  }

  ghost predicate LastGrant(log: seq<Event>, i: nat, j: nat, resource: string) {
    i < j <= |log| && GrantAt(log, i, resource) && forall k: nat :: i < k < j ==> !GrantAt(log, k, resource)
  }

  /** `holder` gave `resource` back, or disconnected, strictly between `i` and `j`. */
  ghost predicate FreedBetween(log: seq<Event>, i: nat, j: nat, resource: string, holder: string) {
    exists k :: i < k < j && k < |log| && (log[k] == ClaimReleased(resource, holder) || Frees(log[k], holder))
  }

  /** The grant at `i` is the last one before `j`, and its holder has not freed it since. */
  ghost predicate StandingGrant(log: seq<Event>, i: nat, j: nat, resource: string) {
    LastGrant(log, i, j, resource) && !FreedBetween(log, i, j, resource, log[i].holder)
  }

  /** The claim table shows exactly the last grants not freed since. */
  ghost predicate ShowsGrants(log: seq<Event>, s: State, resource: string) {
    if resource in s.claims
    then exists i: nat :: StandingGrant(log, i, |log|, resource) && log[i].holder == s.claims[resource].holder
    else forall i: nat :: !StandingGrant(log, i, |log|, resource)
  }

  lemma GrantAppend(log: seq<Event>, e: Event, i: nat, resource: string)
    requires i < |log|
    ensures GrantAt(log + [e], i, resource) <==> GrantAt(log, i, resource)
  {
    assert (log + [e])[..i] == log[..i];
  }

  lemma FreedAppend(log: seq<Event>, e: Event, i: nat, resource: string, holder: string)
    requires i < |log|
    ensures FreedBetween(log + [e], i, |log| + 1, resource, holder)
      <==> FreedBetween(log, i, |log|, resource, holder) || e == ClaimReleased(resource, holder) || Frees(e, holder)
  {
    var all := log + [e];
    assert all[|log|] == e && forall k :: 0 <= k < |log| ==> all[k] == log[k];
  }

  lemma StandingGrantStep(log: seq<Event>, e: Event, i: nat, resource: string)
    requires !GrantAt(log + [e], |log|, resource)
    ensures StandingGrant(log + [e], i, |log| + 1, resource) <==>
      StandingGrant(log, i, |log|, resource) && e != ClaimReleased(resource, log[i].holder) && !Frees(e, log[i].holder)
  {
    forall k: nat | k < |log|
      ensures GrantAt(log + [e], k, resource) <==> GrantAt(log, k, resource)
    {
      GrantAppend(log, e, k, resource);
    }
    if i < |log| && log[i].Claimed? { FreedAppend(log, e, i, resource, log[i].holder); }
  }

  lemma OneStandingGrant(log: seq<Event>, i: nat, k: nat, j: nat, resource: string)
    requires StandingGrant(log, i, j, resource) && StandingGrant(log, k, j, resource)
    ensures i == k
  {
  }

  /** An event that is no grant of `resource` keeps the claim, or frees it for its holder. */
  lemma NoGrantStep(s: State, e: Event, resource: string)
    requires e.Claimed? && e.resource == resource ==>
      ClaimResource(s, resource, e.holder, e.role, e.millis).1.Collision?
    ensures var t := Apply(s, e);
            if resource in s.claims
               && e != ClaimReleased(resource, s.claims[resource].holder) && !Frees(e, s.claims[resource].holder)
            then resource in t.claims && t.claims[resource].holder == s.claims[resource].holder
            else resource !in t.claims
  {
  }

  /** An event other than a grant of `resource` keeps the table in step with the log. */
  lemma ShowsGrantsStep(log: seq<Event>, e: Event, s: State, resource: string)
    requires ShowsGrants(log, s, resource) && s == Run(Empty(), log)
    requires !GrantAt(log + [e], |log|, resource)
    ensures ShowsGrants(log + [e], Apply(s, e), resource)
  {
    var all, n := log + [e], |log| + 1;
    assert all[..|log|] == log && all[|log|] == e;
    NoGrantStep(s, e, resource);
    if resource in s.claims {
      var i: nat :| StandingGrant(log, i, |log|, resource) && log[i].holder == s.claims[resource].holder;
      StandingGrantStep(log, e, i, resource);
      assert all[i] == log[i];
      forall k: nat ensures StandingGrant(all, k, n, resource) ==> k == i {
        StandingGrantStep(log, e, k, resource);
      }
    } else {
      forall k: nat ensures !StandingGrant(all, k, n, resource) { StandingGrantStep(log, e, k, resource); }
    }
  }

  lemma GrantShows(log: seq<Event>, e: Event, s: State, resource: string)
    requires s == Run(Empty(), log) && GrantAt(log + [e], |log|, resource)
    ensures ShowsGrants(log + [e], Apply(s, e), resource)
  {
    assert (log + [e])[..|log|] == log;
    assert StandingGrant(log + [e], |log|, |log| + 1, resource);
  }

  lemma {:induction false} RunShowsGrants(log: seq<Event>, resource: string)
    ensures ShowsGrants(log, Run(Empty(), log), resource)
  {
    if log == [] {
    } else {
      var front, e := log[..|log| - 1], log[|log| - 1];
      assert log == front + [e];
      RunShowsGrants(front, resource);
      if GrantAt(log, |front|, resource) {
        GrantShows(front, e, Run(Empty(), front), resource);
      } else {
        ShowsGrantsStep(front, e, Run(Empty(), front), resource);
      }
    }
  }

  lemma StandingGrantPrefix(log: seq<Event>, i: nat, j: nat, resource: string)
    requires j <= |log|
    ensures StandingGrant(log[..j], i, j, resource) <==> StandingGrant(log, i, j, resource)
  {
    forall k: nat | k < j ensures GrantAt(log[..j], k, resource) <==> GrantAt(log, k, resource) {
      assert log[..j][..k] == log[..k];
    }
    assert forall k :: 0 <= k < j ==> log[..j][k] == log[k];
  }

  /** The log serves `p` in some role: it stands and its latest refresh is within its TTL. */
  ghost predicate Present(log: seq<Event>, p: string, now: int) {
    exists role :: Served(log, p, role, now)
  }

  lemma PresenceReadsTheLog(log: seq<Event>, p: string, now: int)
    ensures HasLivePresence(Run(Empty(), log).leases, p, now) <==> Present(log, p, now)
  {
    var leases := Run(Empty(), log).leases;
    if HasLivePresence(leases, p, now) { ServedIsServing(log, p, leases.at[p].role, now); }
    if role :| Served(log, p, role, now) { ServedIsServing(log, p, role, now); }
  }

  /** Another peer holds `resource` when the claim at `j` arrives: the last grant went to it, it has
      not freed it, and it is present. */
  ghost predicate Contended(log: seq<Event>, j: nat, resource: string) {
    j < |log| && log[j].Claimed? && exists i: nat ::
      StandingGrant(log, i, j, resource) && log[i].holder != log[j].holder
        && Present(log[..j], log[i].holder, log[j].millis)
  }

  /** Over any run from the empty registry, a claim is granted exactly when it is not contended. */
  lemma GrantedExactlyWhenUncontended(log: seq<Event>, j: nat, resource: string)
    requires j < |log| && log[j].Claimed? && log[j].resource == resource
    ensures GrantAt(log, j, resource) <==> !Contended(log, j, resource)
  {
    var s := Run(Empty(), log[..j]);
    RunShowsGrants(log[..j], resource);
    forall i: nat ensures StandingGrant(log[..j], i, j, resource) <==> StandingGrant(log, i, j, resource) {
      StandingGrantPrefix(log, i, j, resource);
    }
    if resource in s.claims {
      var i: nat :| StandingGrant(log[..j], i, j, resource) && log[..j][i].holder == s.claims[resource].holder;
      PresenceReadsTheLog(log[..j], log[i].holder, log[j].millis);
      forall k: nat | StandingGrant(log, k, j, resource) ensures k == i { OneStandingGrant(log, i, k, j, resource); }
    }
  }

  /** Successive grants exclude each other: when a resource passes from one peer to another, the
      first freed it in between or is not present at the second grant. */
  lemma SuccessiveGrantsExclude(log: seq<Event>, i: nat, j: nat, resource: string)
    requires LastGrant(log, i, j, resource) && GrantAt(log, j, resource) && log[i].holder != log[j].holder
    ensures FreedBetween(log, i, j, resource, log[i].holder) || !Present(log[..j], log[i].holder, log[j].millis)
  {
    GrantedExactlyWhenUncontended(log, j, resource);
    if !FreedBetween(log, i, j, resource, log[i].holder) {
      assert StandingGrant(log, i, j, resource);
    }
  }
}
