/** How many sessions of one bridge role a lookup can list, over whole runs. */
module BridgeHolders {
  import opened CrewChannel
  import opened RegistryClaims
  import opened RegistryCore
  import opened RegistryRuns

  /** Sessions follow `makeCrewChannel`: who announces the role has been granted its key before. */
  ghost predicate Disciplined(log: seq<Event>, key: string) {
    forall i: nat :: i < |log| && log[i].Announced? && log[i].role == key ==> GrantedBefore(log, key, log[i].peer, i)
  }

  ghost predicate GrantedTo(log: seq<Event>, g: nat, key: string, p: string) {
    GrantAt(log, g, key) && log[g].holder == p
  }

  ghost predicate GrantedBefore(log: seq<Event>, key: string, p: string, i: nat) {
    exists g: nat :: g < i && GrantedTo(log, g, key, p)
  }

  /** The clock never runs backwards, and reads `now` at the end. */
  ghost predicate ClockUpTo(log: seq<Event>, now: int) {
    ClockRises(log) && forall i :: 0 <= i < |log| && ReadsClock(log[i]) ==> log[i].millis <= now
  }

  /** The grant at `g` is the last one `p` got. */
  ghost predicate LastGrantTo(log: seq<Event>, g: nat, key: string, p: string) {
    GrantedTo(log, g, key, p) && forall k: nat :: k > g ==> !GrantedTo(log, k, key, p)
  }

  /** The grant at `m` is the first one after the grant at `g`. */
  ghost predicate NextGrant(log: seq<Event>, g: nat, m: nat, key: string) {
    LastGrant(log, g, m, key) && GrantAt(log, m, key)
  }

  ghost predicate RefreshesAfter(log: seq<Event>, p: string, m: nat) {
    exists k :: m < k < |log| && Refreshes(log[k], p)
  }

  /** After the last grant `p` got the key went to another address, and `p` is still around: it had given
      the key back, or it refreshed its presence after losing it. */
  ghost predicate Superseded(log: seq<Event>, key: string, p: string) {
    exists g: nat, m: nat ::
      && LastGrantTo(log, g, key, p) && NextGrant(log, g, m, key) && log[m].holder != p
      && (FreedBetween(log, g, m, key, p) || RefreshesAfter(log, p, m))
  }

  // ---- what a served session was granted ----

  lemma {:induction false} HasLastGrant(log: seq<Event>, key: string, p: string, g: nat) returns (last: nat)
    requires GrantedTo(log, g, key, p)
    ensures LastGrantTo(log, last, key, p) && g <= last
    decreases |log| - g
  {
    if k: nat :| k > g && GrantedTo(log, k, key, p) {
      last := HasLastGrant(log, key, p, k);
    } else {
      last := g;
    }
  }

  lemma {:induction false} HasNextGrant(log: seq<Event>, key: string, g: nat, m: nat) returns (next: nat)
    requires GrantAt(log, g, key) && GrantAt(log, m, key) && g < m
    ensures NextGrant(log, g, next, key) && next <= m
    decreases m
  {
    if k: nat :| g < k < m && GrantAt(log, k, key) {
      next := HasNextGrant(log, key, g, k);
    } else {
      next := m;
    }
  }

  lemma ServedWasGranted(log: seq<Event>, key: string, p: string, now: int) returns (g: nat)
    requires Disciplined(log, key) && Served(log, p, key, now)
    ensures LastGrantTo(log, g, key, p)
  {
    var i: nat, j: nat :| LastAnnounce(log, i, p) && log[i].role == key
      && LastRefresh(log, j, p) && now <= log[j].millis + log[j].ttlSeconds * 1000;
    var first: nat :| first < i && GrantedTo(log, first, key, p);
    g := HasLastGrant(log, key, p, first);
  }

  /** Who is served at the end without refreshing after `m` was present at `m`. */
  lemma ServedAllAlong(log: seq<Event>, key: string, p: string, m: nat, now: int)
    requires ClockUpTo(log, now) && Served(log, p, key, now)
    requires m < |log| && ReadsClock(log[m]) && !Refreshes(log[m], p) && !RefreshesAfter(log, p, m)
    ensures Present(log[..m], p, log[m].millis)
  {
    var i: nat, j: nat :| LastAnnounce(log, i, p) && log[i].role == key
      && LastRefresh(log, j, p) && now <= log[j].millis + log[j].ttlSeconds * 1000;
    assert Refreshes(log[i], p) && Refreshes(log[j], p);
    assert i < m && j < m;
    assert LastAnnounce(log[..m], i, p) && LastRefresh(log[..m], j, p);
    assert Served(log[..m], p, key, log[m].millis);
  }

  /** A served session whose key was granted elsewhere later has been superseded, and shows how. */
  lemma ServedAndSuperseded(log: seq<Event>, key: string, p: string, g: nat, later: nat, now: int)
    requires ClockUpTo(log, now) && Served(log, p, key, now)
    requires LastGrantTo(log, g, key, p) && GrantAt(log, later, key) && g < later
    ensures Superseded(log, key, p)
  {
    var m := HasNextGrant(log, key, g, later);
    assert !GrantedTo(log, m, key, p);
    SuccessiveGrantsExclude(log, g, m, key);
    if !FreedBetween(log, g, m, key, p) && !RefreshesAfter(log, p, m) {
      ServedAllAlong(log, key, p, m, now);
    }
  }

  ghost predicate TwoServed(log: seq<Event>, key: string, now: int) {
    exists p, q :: p != q && Served(log, p, key, now) && Served(log, q, key, now)
  }

  ghost predicate ServedTwice(log: seq<Event>, key: string, p: string, q: string, now: int) {
    p != q && Superseded(log, key, p) && Served(log, p, key, now) && Served(log, q, key, now)
  }

  /** Sessions announce only after a grant: of two that serve a bridge at once, one has lost the key to
      another address and is still around, and shows how. */
  lemma OneIsSuperseded(log: seq<Event>, key: string, p: string, q: string, now: int)
    requires ClockUpTo(log, now) && Disciplined(log, key)
    requires p != q && Served(log, p, key, now) && Served(log, q, key, now)
    ensures Superseded(log, key, p) || Superseded(log, key, q)
  {
    var g := ServedWasGranted(log, key, p, now);
    var h := ServedWasGranted(log, key, q, now);
    assert g != h;
    if g < h {
      ServedAndSuperseded(log, key, p, g, h, now);
    } else {
      ServedAndSuperseded(log, key, q, h, g, now);
    }
  }

  /** The lookup has more than one entry exactly when two addresses are served. */
  lemma EntriesAreServed(log: seq<Event>, key: string, now: int)
    ensures |Lookup(Run(Empty(), log), key, now)| > 1 <==> TwoServed(log, key, now)
  {
    LookupReadsTheLog(log, key, now);
    ListedAreServed(log, key, now, Lookup(Run(Empty(), log), key, now));
  }

  lemma ListedAreServed(log: seq<Event>, key: string, now: int, r: seq<PresenceRecord>)
    requires ReadsTheLog(log, key, now, r)
    ensures |r| > 1 <==> TwoServed(log, key, now)
  {
    if |r| > 1 {
      assert Lists(r, r[0].peer) && Lists(r, r[1].peer);
    }
    if p, q :| p != q && Served(log, p, key, now) && Served(log, q, key, now) {
      assert Lists(r, p) && Lists(r, q);
    }
  }

  /** Sessions that neither give the key back while staying, nor refresh once it is granted elsewhere:
      then a lookup of the bridge has at most one entry. */
  lemma OneEntryWhileNobodyLingers(log: seq<Event>, key: string, now: int)
    requires ClockUpTo(log, now) && Disciplined(log, key)
    requires forall p :: Superseded(log, key, p) ==> !Served(log, p, key, now)
    ensures |Lookup(Run(Empty(), log), key, now)| <= 1
  {
    EntriesAreServed(log, key, now);
    if p, q :| p != q && Served(log, p, key, now) && Served(log, q, key, now) {
      OneIsSuperseded(log, key, p, q, now);
    }
  }

  // ---- the guard that would keep a bridge single ----

  /** Event `i` makes `p` served: an announce of the role, or a beat by a peer that announced it. */
  ghost predicate Joins(log: seq<Event>, i: nat, key: string, p: string) {
    && i < |log| && Refreshes(log[i], p) && log[i].ttlSeconds >= 0
    && if log[i].Announced? then log[i].role == key else AnnouncedFor(log[..i], key, p)
  }

  ghost predicate AnnouncedFor(log: seq<Event>, key: string, p: string) {
    exists k: nat :: LastAnnounce(log, k, p) && log[k].role == key
  }

  /** `p` does so while a lookup lists another peer. */
  ghost predicate JoinsAnother(log: seq<Event>, i: nat, key: string, p: string, q: string) {
    p != q && Joins(log, i, key, p) && Served(log[..i], q, key, log[i].millis)
  }

  /** After `n` events of the run, at a reading of the clock no earlier than theirs. */
  ghost predicate TwoServedAfter(log: seq<Event>, key: string, n: nat, now: int) {
    n <= |log| && ClockUpTo(log[..n], now) && TwoServed(log[..n], key, now)
  }

  ghost predicate TwoEverServed(log: seq<Event>, key: string) {
    exists n: nat, now :: TwoServedAfter(log, key, n, now)
  }

  ghost predicate SomeoneJoinsAnother(log: seq<Event>, key: string) {
    exists i: nat, p, q :: JoinsAnother(log, i, key, p, q)
  }

  /** Who joins is served at once. */
  lemma JoinedIsServed(log: seq<Event>, i: nat, key: string, p: string)
    requires Joins(log, i, key, p)
    ensures Served(log[..i + 1], p, key, log[i].millis)
  {
    var seen := log[..i + 1];
    assert LastRefresh(seen, i, p);
    if log[i].Announced? {
      assert LastAnnounce(seen, i, p);
    } else {
      var k: nat :| LastAnnounce(log[..i], k, p) && log[..i][k].role == key;
      assert seen[k] == log[k] && LastAnnounce(seen, k, p);
    }
  }

  /** What serves a peer: its last announce, which named the role, and its latest refresh. */
  lemma ServedBy(seen: seq<Event>, p: string, key: string, now: int) returns (i: nat, j: nat)
    requires Served(seen, p, key, now)
    ensures LastAnnounce(seen, i, p) && seen[i].role == key && LastRefresh(seen, j, p) && i <= j
    ensures now <= seen[j].millis + seen[j].ttlSeconds * 1000
  {
    i, j :| LastAnnounce(seen, i, p) && seen[i].role == key
      && LastRefresh(seen, j, p) && now <= seen[j].millis + seen[j].ttlSeconds * 1000;
    assert Refreshes(seen[i], p);
  }

  lemma NotTakenAway(before: seq<Event>, e: Event, q: string, k: nat, l: nat)
    requires LastAnnounce(before, k, q) && LastRefresh(before, l, q) && !Refreshes(e, q) && !Frees(e, q)
    ensures LastAnnounce(before + [e], k, q) && LastRefresh(before + [e], l, q)
  {
    StandingStep(before, e, k, q);
  }

  /** A refresh by somebody else takes nobody away. */
  lemma OtherStaysServed(log: seq<Event>, i: nat, key: string, p: string, q: string)
    requires JoinsAnother(log, i, key, p, q)
    ensures Served(log[..i + 1], q, key, log[i].millis)
  {
    var before := log[..i];
    var k, l := ServedBy(before, q, key, log[i].millis);
    NotTakenAway(before, log[i], q, k, l);
    assert log[..i + 1] == before + [log[i]];
    ServedNow(before + [log[i]], q, key, k, l, log[i].millis);
  }

  /** A served peer joined with its latest refresh. */
  lemma ServedHasJoined(seen: seq<Event>, p: string, key: string, now: int, i: nat, j: nat)
    requires ClockUpTo(seen, now)
    requires LastAnnounce(seen, i, p) && seen[i].role == key && LastRefresh(seen, j, p) && i <= j
    requires now <= seen[j].millis + seen[j].ttlSeconds * 1000
    ensures Joins(seen, j, key, p)
  {
    assert ReadsClock(seen[j]);
    if seen[j].Announced? {
      assert Announces(seen[j], p);
    } else {
      var before := seen[..j];
      assert before[i] == seen[i] && i < |before|;
      assert LastAnnounce(before, i, p);
    }
  }

  /** A peer that is served at the end without having refreshed since `m` was served at `m`. */
  lemma ServedAlready(seen: seq<Event>, q: string, key: string, now: int, i: nat, j: nat, m: nat)
    requires ClockUpTo(seen, now) && j < m < |seen| && ReadsClock(seen[m])
    requires LastAnnounce(seen, i, q) && seen[i].role == key && LastRefresh(seen, j, q) && i <= j
    requires now <= seen[j].millis + seen[j].ttlSeconds * 1000
    ensures Served(seen[..m], q, key, seen[m].millis)
  {
    var before := seen[..m];
    assert before[i] == seen[i] && before[j] == seen[j];
    assert LastAnnounce(before, i, q) && LastRefresh(before, j, q);
  }

  /** Of two served peers the one that refreshed last joined while the other was served. */
  lemma LaterOneJoined(seen: seq<Event>, key: string, p: string, q: string, now: int)
    returns (a: nat, x: string, y: string)
    requires ClockUpTo(seen, now) && p != q && Served(seen, p, key, now) && Served(seen, q, key, now)
    ensures JoinsAnother(seen, a, key, x, y)
  {
    var i, j := ServedBy(seen, p, key, now);
    var k, l := ServedBy(seen, q, key, now);
    ServedHasJoined(seen, p, key, now, i, j);
    ServedHasJoined(seen, q, key, now, k, l);
    assert j != l;
    if l < j {
      ServedAlready(seen, q, key, now, k, l, j);
      a, x, y := j, p, q;
    } else {
      ServedAlready(seen, p, key, now, i, j, l);
      a, x, y := l, q, p;
    }
  }

  lemma JoinedInWhole(log: seq<Event>, n: nat, i: nat, key: string, p: string, q: string)
    requires n <= |log| && JoinsAnother(log[..n], i, key, p, q)
    ensures JoinsAnother(log, i, key, p, q)
  {
    assert log[..n][..i] == log[..i] && log[..n][i] == log[i];
  }

  lemma TwoAfterJoin(log: seq<Event>, i: nat, key: string, p: string, q: string)
    requires ClockRises(log) && JoinsAnother(log, i, key, p, q)
    ensures TwoServedAfter(log, key, i + 1, log[i].millis)
  {
    JoinedIsServed(log, i, key, p);
    OtherStaysServed(log, i, key, p, q);
  }

  /** Over every run under a clock that does not run backwards: two addresses are ever served at once
      exactly when somebody announces the role, or keeps it alive by a beat, while a lookup lists another. */
  lemma TwoEverServedExactlyWhenJoined(log: seq<Event>, key: string)
    requires ClockRises(log)
    ensures TwoEverServed(log, key) <==> SomeoneJoinsAnother(log, key)
  {
    if TwoEverServed(log, key) {
      var n: nat, now :| TwoServedAfter(log, key, n, now);
      var p, q :| p != q && Served(log[..n], p, key, now) && Served(log[..n], q, key, now);
      var a, x, y := LaterOneJoined(log[..n], key, p, q, now);
      JoinedInWhole(log, n, a, key, x, y);
    }
    if SomeoneJoinsAnother(log, key) {
      var i: nat, p, q :| JoinsAnother(log, i, key, p, q);
      TwoAfterJoin(log, i, key, p, q);
    }
  }

  /** At every point of the run and every later reading of the clock, `lookup` has at most one entry. */
  ghost predicate LookupAlwaysSingle(log: seq<Event>, key: string) {
    forall n: nat, now | n <= |log| && ClockUpTo(log[..n], now) :: |Lookup(Run(Empty(), log[..n]), key, now)| <= 1
  }

  /** `lookup` lists at most one holder of a bridge all through a run exactly when nobody joins it while a
      lookup lists another. */
  lemma LookupSingleExactly(log: seq<Event>, key: string)
    requires ClockRises(log)
    ensures LookupAlwaysSingle(log, key) <==> !SomeoneJoinsAnother(log, key)
  {
    TwoEverServedExactlyWhenJoined(log, key);
    if TwoEverServed(log, key) {
      var n: nat, now :| TwoServedAfter(log, key, n, now);
      EntriesAreServed(log[..n], key, now);
    } else {
      forall n: nat, now | n <= |log| && ClockUpTo(log[..n], now)
        ensures |Lookup(Run(Empty(), log[..n]), key, now)| <= 1
      {
        EntriesAreServed(log[..n], key, now);
        assert !TwoServedAfter(log, key, n, now);
      }
    }
  }

  // ---- standing up keeps the discipline ----

  lemma DisciplineGrows(log: seq<Event>, e: Event, key: string)
    requires Disciplined(log, key)
    requires e.Announced? && e.role == key ==> GrantedBefore(log, key, e.peer, |log|)
    ensures Disciplined(log + [e], key)
  {
    var all := log + [e];
    forall i: nat | i < |all| && all[i].Announced? && all[i].role == key
      ensures GrantedBefore(all, key, all[i].peer, i)
    {
      var g: nat :| g < i && GrantedTo(log, g, key, all[i].peer);
      GrantAppend(log, e, g, key);
      assert all[g] == log[g];
      assert GrantedTo(all, g, key, all[i].peer);
    }
  }

  /** What `MakeCrewChannel` adds to a disciplined log leaves it disciplined. */
  lemma StandupKeepsDiscipline(log: seq<Event>, role: CrewRole, address: string, claimAt: int, announceAt: int,
                               standup: Standup)
    requires KindOf(role) == Bridge && Disciplined(log, Slug(role))
    requires var claimed := log + [Claimed(Slug(role), address, Slug(role), claimAt)];
      standup.Up? <==> !Contended(claimed, |log|, Slug(role))
    ensures Disciplined(log + [Claimed(Slug(role), address, Slug(role), claimAt)]
                        + AnnouncedIf(standup, role, address, announceAt), Slug(role))
  {
    var key := Slug(role);
    var claimed := log + [Claimed(key, address, key, claimAt)];
    DisciplineGrows(log, Claimed(key, address, key, claimAt), key);
    if standup.Up? {
      GrantedExactlyWhenUncontended(claimed, |log|, key);
      assert GrantedTo(claimed, |log|, key, address);
      DisciplineGrows(claimed, Announced(key, address, DEFAULT_TTL_SECONDS, announceAt), key);
    } else {
      assert claimed + [] == claimed;
    }
  }

  // ---- two ways to linger ----

  lemma GrantWhenFree(log: seq<Event>, j: nat, key: string)
    requires j < |log| && log[j].Claimed? && log[j].resource == key
    requires key !in Run(Empty(), log[..j]).claims
             || !HasLivePresence(Run(Empty(), log[..j]).leases,
                                 Run(Empty(), log[..j]).claims[key].holder, log[j].millis)
    ensures GrantAt(log, j, key)
  {
  }

  lemma ServedNow(log: seq<Event>, p: string, key: string, i: nat, j: nat, now: int)
    requires LastAnnounce(log, i, p) && log[i].role == key && LastRefresh(log, j, p)
    requires now <= log[j].millis + log[j].ttlSeconds * 1000
    ensures Served(log, p, key, now)
  {
  }

  lemma FirstSession(key: string, a: string, start: int)
    ensures var log := [Claimed(key, a, key, start), Announced(key, a, DEFAULT_TTL_SECONDS, start)];
            Run(Empty(), log) == State(Leases([a], map[a := Lease(key, a, DEFAULT_TTL_SECONDS, start)]),
                                       map[key := Claim(key, a, key, start)])
  {
    RunAppend(Empty(), [], Claimed(key, a, key, start));
    RunAppend(Empty(), [Claimed(key, a, key, start)], Announced(key, a, DEFAULT_TTL_SECONDS, start));
    assert [] + [Claimed(key, a, key, start)] == [Claimed(key, a, key, start)];
    assert [Claimed(key, a, key, start)] + [Announced(key, a, DEFAULT_TTL_SECONDS, start)]
        == [Claimed(key, a, key, start), Announced(key, a, DEFAULT_TTL_SECONDS, start)];
  }

  /** A session silent for more than its TTL loses the key; a beat that comes after all brings it back
      beside the session that took over. */
  lemma LateBeatLingers(role: CrewRole, a: string, b: string, start: int, late: int)
    requires KindOf(role) == Bridge && a != b && late > start + DEFAULT_TTL_SECONDS * 1000
    ensures var key := Slug(role);
      var log := [Claimed(key, a, key, start), Announced(key, a, DEFAULT_TTL_SECONDS, start),
                  Claimed(key, b, key, late),
                  Announced(key, b, DEFAULT_TTL_SECONDS, late), Beat(a, DEFAULT_TTL_SECONDS, late)];
      && ClockUpTo(log, late) && Disciplined(log, key)
      && GrantAt(log, 0, key) && GrantAt(log, 2, key) && ServedTwice(log, key, a, b, late)
  {
    var key := Slug(role);
    var log := [Claimed(key, a, key, start), Announced(key, a, DEFAULT_TTL_SECONDS, start), Claimed(key, b, key, late),
                Announced(key, b, DEFAULT_TTL_SECONDS, late), Beat(a, DEFAULT_TTL_SECONDS, late)];
    FirstSession(key, a, start);
    assert log[..2] == [Claimed(key, a, key, start), Announced(key, a, DEFAULT_TTL_SECONDS, start)];
    assert log[..0] == [];
    GrantWhenFree(log, 0, key);
    GrantWhenFree(log, 2, key);
    ServedNow(log, a, key, 1, 4, late);
    ServedNow(log, b, key, 3, 3, late);
    assert GrantedTo(log, 0, key, a) && GrantedTo(log, 2, key, b);
    assert NextGrant(log, 0, 2, key) && LastGrantTo(log, 0, key, a);
    assert Refreshes(log[4], a) && RefreshesAfter(log, a, 2);
  }

  /** So does a session that gives the key back and stays. */
  lemma GivenBackLingers(role: CrewRole, a: string, b: string, start: int)
    requires KindOf(role) == Bridge && a != b
    ensures var key := Slug(role);
      var log := [Claimed(key, a, key, start), Announced(key, a, DEFAULT_TTL_SECONDS, start), ClaimReleased(key, a),
                  Claimed(key, b, key, start), Announced(key, b, DEFAULT_TTL_SECONDS, start)];
      && ClockUpTo(log, start) && Disciplined(log, key)
      && GrantAt(log, 0, key) && GrantAt(log, 3, key) && ServedTwice(log, key, a, b, start)
  {
    var key := Slug(role);
    var log := [Claimed(key, a, key, start), Announced(key, a, DEFAULT_TTL_SECONDS, start), ClaimReleased(key, a),
                Claimed(key, b, key, start), Announced(key, b, DEFAULT_TTL_SECONDS, start)];
    FirstSession(key, a, start);
    assert log[..0] == [];
    assert log[..3] == log[..2] + [log[2]];
    assert log[..2] == [Claimed(key, a, key, start), Announced(key, a, DEFAULT_TTL_SECONDS, start)];
    RunAppend(Empty(), log[..2], ClaimReleased(key, a));
    GrantWhenFree(log, 0, key);
    GrantWhenFree(log, 3, key);
    ServedNow(log, a, key, 1, 1, start);
    ServedNow(log, b, key, 4, 4, start);
    assert GrantedTo(log, 0, key, a) && GrantedTo(log, 3, key, b);
    assert NextGrant(log, 0, 3, key) && LastGrantTo(log, 0, key, a);
    assert log[2] == ClaimReleased(key, a) && FreedBetween(log, 0, 3, key, a);
  }
}
