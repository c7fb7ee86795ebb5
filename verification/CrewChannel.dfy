/** Standing up a crew channel: the per-kind cardinality claim, then the announce. */
module CrewChannel {
  import opened Options
  import opened RegistryCore
  import opened RegistryRuns
  import opened RegistryClaims
  import opened RegistryService

  datatype CrewRole = ChiefOfStaff | Cartographer | IntakeDesk | EngineeringManager

  datatype Kind = Bridge | Engine

  function KindOf(role: CrewRole): Kind {
    if role.EngineeringManager? then Engine else Bridge
  }

  function Slug(role: CrewRole): string {
    match role
    case ChiefOfStaff => "chief-of-staff"
    case Cartographer => "cartographer"
    case IntakeDesk => "intake-desk"
    case EngineeringManager => "engineering-manager"
  }

  function LeaseKey(role: CrewRole, address: string): string {
    match KindOf(role)
    case Bridge => Slug(role)
    case Engine => Slug(role) + "#" + address
  }

  /** Two sessions target the same key exactly when they have the same role and, for engineering managers,
      the same address: a second chief of staff, cartographer or intake desk collides whatever its
      address, another engineering manager never does. */
  lemma SameKeyExactly(r1: CrewRole, a1: string, r2: CrewRole, a2: string)
    ensures LeaseKey(r1, a1) == LeaseKey(r2, a2) <==>
      r1 == r2 && (r1 == ChiefOfStaff || r1 == Cartographer || r1 == IntakeDesk || a1 == a2)
  {
    assert |Slug(ChiefOfStaff)| == 14 && |Slug(Cartographer)| == 12 && |Slug(IntakeDesk)| == 11;
    var stem := Slug(EngineeringManager) + "#";
    assert |stem| == 20 && (stem + a1)[20..] == a1 && (stem + a2)[20..] == a2;
  }

  datatype Standup = Up | RoleTaken(heldBy: string)

  ghost function AnnouncedIf(standup: Standup, role: CrewRole, address: string, at: int): seq<Event> {
    if standup.Up? then [Announced(Slug(role), address, DEFAULT_TTL_SECONDS, at)] else []
  }

  /** `makeCrewChannel`: claim the role's key, and announce only if the claim was granted. */
  method MakeCrewChannel(registry: Registry, role: CrewRole, address: string, claimAt: int, announceAt: int)
    returns (standup: Standup)
    requires registry.Valid()
    modifies registry
    ensures registry.Valid()
    ensures var claimed := old(registry.log) + [Claimed(LeaseKey(role, address), address, Slug(role), claimAt)];
      && (standup.Up? <==> !Contended(claimed, |old(registry.log)|, LeaseKey(role, address)))
      && registry.log == claimed + AnnouncedIf(standup, role, address, announceAt)
    ensures standup.RoleTaken? ==> standup.heldBy != address
  {
    ghost var log := registry.log;
    var outcome := registry.Claim(LeaseKey(role, address), address, Slug(role), claimAt);
    assert registry.log[..|log|] == log;
    GrantedExactlyWhenUncontended(registry.log, |log|, LeaseKey(role, address));
    match outcome
    case Collision(holder, _) => standup := RoleTaken(holder);
    case Granted(_, _) =>
      registry.Announce(Slug(role), address, DEFAULT_TTL_SECONDS, announceAt);
      standup := Up;
  }

  /** A session of a bridge role is admitted at `j` exactly when no session with another address holds
      the role's key, has kept it, and is present. */
  lemma BridgeAdmittedExactly(log: seq<Event>, role: CrewRole, address: string, j: nat)
    requires KindOf(role) == Bridge && j < |log| && log[j].Claimed?
    requires log[j].resource == LeaseKey(role, address) && log[j].holder == address
    ensures GrantAt(log, j, Slug(role)) <==>
      forall i: nat | StandingGrant(log, i, j, Slug(role)) && log[i].holder != address
        :: !Present(log[..j], log[i].holder, log[j].millis)
  {
    GrantedExactlyWhenUncontended(log, j, Slug(role));
  }

  /** A key only ever claimed from one address is granted to it every time: an engine instance is
      never rejected, and neither is a second bridge session that shares the first one's address. */
  lemma OwnKeyAlwaysGranted(log: seq<Event>, key: string, address: string, j: nat)
    requires forall i :: 0 <= i <= j < |log| && log[i].Claimed? && log[i].resource == key ==> log[i].holder == address
    requires j < |log| && log[j].Claimed? && log[j].resource == key
    ensures GrantAt(log, j, key)
  {
    GrantedExactlyWhenUncontended(log, j, key);
  }

  /** The claim comes before the announce, so a fresh holder is not yet present: between the two a
      second session of the same bridge is admitted as well, and both then serve the role. */
  lemma TwoBridgesCanStandUp(role: CrewRole, a: string, b: string, now: int)
    requires KindOf(role) == Bridge && a != b
    ensures var key := Slug(role);
      var log := [Claimed(key, a, key, now), Claimed(key, b, key, now),
                  Announced(key, a, DEFAULT_TTL_SECONDS, now), Announced(key, b, DEFAULT_TTL_SECONDS, now)];
      && GrantAt(log, 0, key) && GrantAt(log, 1, key)
      && Served(log, a, key, now) && Served(log, b, key, now)
  {
    var key := Slug(role);
    var log := [Claimed(key, a, key, now), Claimed(key, b, key, now),
                Announced(key, a, DEFAULT_TTL_SECONDS, now), Announced(key, b, DEFAULT_TTL_SECONDS, now)];
    forall p: string ensures !Present(log[..0], p, now) && !Present(log[..1], p, now) { }
    GrantedExactlyWhenUncontended(log, 0, key);
    GrantedExactlyWhenUncontended(log, 1, key);
    assert LastAnnounce(log, 2, a) && LastRefresh(log, 2, a);
    assert LastAnnounce(log, 3, b) && LastRefresh(log, 3, b);
  }

  // ---- dialling a role ----

  /** `peerTrackerLayer`'s lookup: the head of the live set. */
  function Head(records: seq<PresenceRecord>): Option<PresenceRecord> {
    if records == [] then None else Some(records[0])
  }

  /** `q` is served, and every other served peer announced after it. */
  ghost predicate EarliestServed(log: seq<Event>, role: string, now: int, q: string) {
    && Served(log, q, role, now)
    && forall p, i: nat, j: nat
         | Served(log, p, role, now) && p != q && FirstStanding(log, i, q) && FirstStanding(log, j, p) :: i < j
  }

  /** A send to a role reaches the peer that announced first among those present, and finds nobody
      exactly when nobody is present. */
  lemma HeadIsFirstAnnounced(log: seq<Event>, role: string, now: int)
    ensures var head := Head(Lookup(Run(Empty(), log), role, now));
      && (head.None? <==> forall p :: !Served(log, p, role, now))
      && (head.Some? ==> EarliestServed(log, role, now, head.value.peer))
  {
    LookupReadsTheLog(log, role, now);
    var r := Lookup(Run(Empty(), log), role, now);
    if r == [] {
      forall p ensures !Served(log, p, role, now) { assert !Lists(r, p); }
    } else {
      assert Lists(r, r[0].peer);
      forall p, i: nat, j: nat
        | Served(log, p, role, now) && p != r[0].peer && FirstStanding(log, i, r[0].peer) && FirstStanding(log, j, p)
        ensures i < j
      {
        assert Lists(r, p);
        var k :| 0 <= k < |r| && r[k].peer == p;
      }
    }
  }
}
