/** Since when a resource is held, and by whom: what the registry's answers say of its event log. */
module ClaimTenures {
  import opened Options
  import opened RegistryClaims
  import opened RegistryCore
  import opened RegistryRuns

  /** `p` was granted the resource at `i`, and up to `n` it went to nobody else and was not given up. */
  ghost predicate Unbroken(log: seq<Event>, i: nat, n: nat, resource: string, p: string) {
    && i < n <= |log| && GrantAt(log, i, resource) && log[i].holder == p
    && forall k: nat :: i < k < n ==>
         && (GrantAt(log, k, resource) ==> log[k].holder == p)
         && log[k] != ClaimReleased(resource, p) && !Frees(log[k], p)
  }

  /** The grant at `i` is the first of the tenure of `p` that lasts up to `n`. */
  ghost predicate Began(log: seq<Event>, i: nat, n: nat, resource: string, p: string) {
    Unbroken(log, i, n, resource, p) && forall k: nat :: k < i ==> !Unbroken(log, k, n, resource, p)
  }

  /** The claim is that of an unbroken tenure, since its first grant. */
  ghost predicate TenureOf(log: seq<Event>, n: nat, resource: string, claim: Claim) {
    exists i: nat :: Began(log, i, n, resource, claim.holder) && log[i].millis == claim.claimedAtMillis
  }

  /** The table holds the resource for whoever is in an unbroken tenure. */
  ghost predicate ShowsTenure(log: seq<Event>, s: State, resource: string) {
    if resource in s.claims then TenureOf(log, |log|, resource, s.claims[resource]) else NoTenure(log, resource)
  }

  ghost predicate NoTenure(log: seq<Event>, resource: string) {
    forall i: nat, p: string :: !Unbroken(log, i, |log|, resource, p)
  }

  lemma UnbrokenOnward(log: seq<Event>, e: Event, i: nat, resource: string, p: string)
    requires i < |log|
    ensures Unbroken(log + [e], i, |log| + 1, resource, p) <==>
      && Unbroken(log, i, |log|, resource, p)
      && (GrantAt(log + [e], |log|, resource) ==> e.holder == p)
      && e != ClaimReleased(resource, p) && !Frees(e, p)
  {
    var all := log + [e];
    assert all[|log|] == e && all[i] == log[i];
    forall k: nat | k < |log|
      ensures (GrantAt(all, k, resource) <==> GrantAt(log, k, resource)) && all[k] == log[k]
    {
      GrantAppend(log, e, k, resource);
    }
  }

  /** Whoever is in an unbroken tenure is the one in the table. */
  lemma TenureIsShown(log: seq<Event>, resource: string, p: string, i: nat)
    requires Unbroken(log, i, |log|, resource, p)
    ensures var s := Run(Empty(), log); resource in s.claims && s.claims[resource].holder == p
  {
    RunShowsGrants(log, resource);
    var last := LastOf(log, resource, p, i);
  }

  lemma {:induction false} LastOf(log: seq<Event>, resource: string, p: string, i: nat) returns (last: nat)
    requires Unbroken(log, i, |log|, resource, p)
    ensures i <= last && StandingGrant(log, last, |log|, resource) && log[last].holder == p
    decreases |log| - i
  {
    if k: nat :| i < k < |log| && GrantAt(log, k, resource) {
      last := LastOf(log, resource, p, k);
    } else {
      last := i;
    }
  }

  lemma GrantStarts(log: seq<Event>, e: Event, resource: string)
    requires GrantAt(log + [e], |log|, resource)
    requires var s := Run(Empty(), log); resource !in s.claims || s.claims[resource].holder != e.holder
    ensures Began(log + [e], |log|, |log| + 1, resource, e.holder)
  {
    var all, n, p := log + [e], |log| + 1, e.holder;
    forall k: nat | k < |log| ensures !Unbroken(all, k, n, resource, p) {
      UnbrokenOnward(log, e, k, resource, p);
      if Unbroken(log, k, |log|, resource, p) { TenureIsShown(log, resource, p, k); }
    }
    assert Unbroken(all, |log|, n, resource, p);
  }

  /** An event that neither grants the resource to another nor gives it up leaves the tenure as it is. */
  lemma TenureGoesOn(log: seq<Event>, e: Event, resource: string, p: string, i: nat)
    requires Began(log, i, |log|, resource, p)
    requires GrantAt(log + [e], |log|, resource) ==> e.holder == p
    requires e != ClaimReleased(resource, p) && !Frees(e, p)
    ensures Began(log + [e], i, |log| + 1, resource, p) && (log + [e])[i] == log[i]
  {
    var all, n := log + [e], |log| + 1;
    UnbrokenOnward(log, e, i, resource, p);
    forall k: nat | k < i ensures !Unbroken(all, k, n, resource, p) {
      UnbrokenOnward(log, e, k, resource, p);
    }
  }

  lemma GrantedTenure(log: seq<Event>, e: Event, resource: string)
    requires ShowsTenure(log, Run(Empty(), log), resource) && GrantAt(log + [e], |log|, resource)
    ensures ShowsTenure(log + [e], Run(Empty(), log + [e]), resource)
  {
    var s := Run(Empty(), log);
    assert (log + [e])[..|log|] == log;
    RunAppend(Empty(), log, e);
    if resource in s.claims && s.claims[resource].holder == e.holder {
      KeptTenure(log, e, resource, s.claims[resource]);
      SameTenure(log + [e], |log| + 1, resource, s.claims[resource], Apply(s, e).claims[resource]);
    } else {
      GrantStarts(log, e, resource);
      StartedTenure(log + [e], |log|, resource, Apply(s, e).claims[resource]);
    }
  }

  lemma StartedTenure(log: seq<Event>, i: nat, resource: string, claim: Claim)
    requires Began(log, i, |log|, resource, claim.holder) && log[i].millis == claim.claimedAtMillis
    ensures TenureOf(log, |log|, resource, claim)
  {
  }

  lemma SameTenure(log: seq<Event>, n: nat, resource: string, a: Claim, b: Claim)
    requires TenureOf(log, n, resource, a) && a.holder == b.holder && a.claimedAtMillis == b.claimedAtMillis
    ensures TenureOf(log, n, resource, b)
  {
  }

  lemma KeptTenure(log: seq<Event>, e: Event, resource: string, claim: Claim)
    requires TenureOf(log, |log|, resource, claim)
    requires GrantAt(log + [e], |log|, resource) ==> e.holder == claim.holder
    requires e != ClaimReleased(resource, claim.holder) && !Frees(e, claim.holder)
    ensures TenureOf(log + [e], |log| + 1, resource, claim)
  {
    var i: nat :| Began(log, i, |log|, resource, claim.holder) && log[i].millis == claim.claimedAtMillis;
    TenureGoesOn(log, e, resource, claim.holder, i);
  }

  lemma ClaimStays(s: State, e: Event, resource: string)
    requires resource in s.claims
    requires e.Claimed? && e.resource == resource ==>
      ClaimResource(s, resource, e.holder, e.role, e.millis).1.Collision?
    requires e != ClaimReleased(resource, s.claims[resource].holder) && !Frees(e, s.claims[resource].holder)
    ensures resource in Apply(s, e).claims && Apply(s, e).claims[resource] == s.claims[resource]
  {
  }

  /** Without a grant a tenure can only end. */
  lemma NoTenureAfter(log: seq<Event>, e: Event, resource: string)
    requires !GrantAt(log + [e], |log|, resource)
    requires resource !in Run(Empty(), log + [e]).claims
    ensures NoTenure(log + [e], resource)
  {
    var all := log + [e];
    forall i: nat, p: string ensures !Unbroken(all, i, |all|, resource, p) {
      if Unbroken(all, i, |all|, resource, p) { TenureIsShown(all, resource, p, i); }
    }
  }

  lemma UngrantedTenure(log: seq<Event>, e: Event, resource: string)
    requires ShowsTenure(log, Run(Empty(), log), resource) && !GrantAt(log + [e], |log|, resource)
    ensures ShowsTenure(log + [e], Run(Empty(), log + [e]), resource)
  {
    var s := Run(Empty(), log);
    assert (log + [e])[..|log|] == log;
    RunAppend(Empty(), log, e);
    NoGrantStep(s, e, resource);
    if resource in Run(Empty(), log + [e]).claims {
      ClaimStays(s, e, resource);
      KeptTenure(log, e, resource, s.claims[resource]);
    } else {
      NoTenureAfter(log, e, resource);
    }
  }

  lemma {:induction false} RunShowsTenure(log: seq<Event>, resource: string)
    ensures ShowsTenure(log, Run(Empty(), log), resource)
  {
    if log == [] {
    } else {
      var n := |log| - 1;
      assert log == log[..n] + [log[n]];
      RunShowsTenure(log[..n], resource);
      if GrantAt(log, n, resource) {
        GrantedTenure(log[..n], log[n], resource);
      } else {
        UngrantedTenure(log[..n], log[n], resource);
      }
    }
  }

  lemma TenurePrefix(log: seq<Event>, i: nat, n: nat, resource: string, p: string)
    requires n <= |log|
    ensures Unbroken(log[..n], i, n, resource, p) <==> Unbroken(log, i, n, resource, p)
  {
    forall k: nat | k < n ensures GrantAt(log[..n], k, resource) <==> GrantAt(log, k, resource) {
      assert log[..n][..k] == log[..k];
    }
    assert forall k: nat :: k < n ==> log[..n][k] == log[k];
  }

  /** What a claim is answered: a grant names the claimant, a collision the one in an unbroken tenure, and
      either says since when that tenure lasts; a claim by nobody in a tenure starts one. */
  lemma AnswersTenure(log: seq<Event>, j: nat)
    requires j < |log| && log[j].Claimed?
    ensures var resource := log[j].resource;
      var outcome := ClaimResource(Run(Empty(), log[..j]), resource, log[j].holder, log[j].role, log[j].millis).1;
      && (outcome.Granted? ==> outcome.holder == log[j].holder)
      && if exists i: nat :: Unbroken(log, i, j, resource, outcome.holder)
         then exists i: nat :: Began(log, i, j, resource, outcome.holder) && log[i].millis == outcome.sinceMillis
         else outcome == Granted(log[j].holder, log[j].millis)
  {
    var resource := log[j].resource;
    var s := Run(Empty(), log[..j]);
    var outcome := ClaimResource(s, resource, log[j].holder, log[j].role, log[j].millis).1;
    RunShowsTenure(log[..j], resource);
    var seen, p := log[..j], outcome.holder;
    forall i: nat ensures Unbroken(seen, i, j, resource, p) <==> Unbroken(log, i, j, resource, p) {
      TenurePrefix(log, i, j, resource, p);
    }
    if i: nat :| Unbroken(log, i, j, resource, p) { TenureIsShown(seen, resource, p, i); }
    if resource in s.claims && s.claims[resource].holder == p {
      var i: nat :| Began(seen, i, j, resource, p) && seen[i].millis == s.claims[resource].claimedAtMillis;
      assert Began(log, i, j, resource, p) && log[i] == seen[i];
    }
  }

  /** The holder of a resource: the peer in an unbroken tenure, if it is present. */
  lemma HolderReadsTheLog(log: seq<Event>, resource: string, now: int, p: string)
    ensures ClaimHolder(Run(Empty(), log), resource, now) == Some(p) <==>
      Present(log, p, now) && exists i: nat :: Unbroken(log, i, |log|, resource, p)
  {
    PresenceReadsTheLog(log, p, now);
    RunShowsTenure(log, resource);
    if i: nat :| Unbroken(log, i, |log|, resource, p) { TenureIsShown(log, resource, p, i); }
  }
}
