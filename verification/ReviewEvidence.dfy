/** The review fold that feeds the decision, and the two composed. */
module ReviewEvidence {
  import opened CpCardinality
  import opened Options
  import opened Ordering
  import opened Spaces

  /** A roster entry; `push` is `None` when its permissions cannot be read. */
  datatype Entry = Entry(login: string, push: Option<bool>)

  /** A decoded review, its author and commit trimmed. */
  datatype Review = Review(id: int, author: string, state: string, commit: Option<string>)

  datatype Pull = Pull(author: string, head: string)

  // ---- the roster ----

  /** The login is blank, or the permissions that count cannot be read. */
  ghost predicate Unreadable(e: Entry, pushCapableOnly: bool) {
    Trim(e.login) == "" || (pushCapableOnly && e.push.None?)
  }

  /** Every entry of a team, and of collaborators those that may push. */
  ghost predicate Eligible(e: Entry, pushCapableOnly: bool) {
    !pushCapableOnly || e.push == Some(true)
  }

  /** `parseMembers`: one unreadable entry fails the whole roster. */
  method ParseMembers(entries: seq<Entry>, pushCapableOnly: bool) returns (members: Option<seq<string>>)
    ensures members.None? <==> exists i :: 0 <= i < |entries| && Unreadable(entries[i], pushCapableOnly)
    ensures members.Some? ==> Distinct(members.value) && forall m :: m in members.value ==> m != "" && Trimmed(m)
    ensures members.Some? ==> forall m :: m in members.value <==>
      exists i :: 0 <= i < |entries| && Eligible(entries[i], pushCapableOnly) && m == Trim(entries[i].login)
  {
    var logins := [];
    for i := 0 to |entries|
      invariant forall j :: 0 <= j < i ==> !Unreadable(entries[j], pushCapableOnly)
      invariant forall m :: m in logins <==>
        exists j :: 0 <= j < i && Eligible(entries[j], pushCapableOnly) && m == Trim(entries[j].login)
    {
      var e := entries[i];
      if Trim(e.login) == "" { return None; }
      if pushCapableOnly && e.push.None? { return None; }
      if !pushCapableOnly || e.push.value { logins := logins + [Trim(e.login)]; }
    }
    forall m | m in logins ensures m != "" && Trimmed(m) {
      var j :| 0 <= j < |entries| && Eligible(entries[j], pushCapableOnly) && m == Trim(entries[j].login);
      TrimIsStable(entries[j].login);
    }
    members := Some(Dedupe(logins));
  }

  // ---- the fold ----

  /** `r` is one of the reviews, and none by the same author has a higher id. */
  ghost predicate IsLatest(reviews: seq<Review>, r: Review) {
    r in reviews && forall q :: q in reviews && q.author == r.author ==> q.id <= r.id
  }

  ghost predicate LatestMap(reviews: seq<Review>, latest: map<string, Review>) {
    && (forall q :: q in reviews ==> q.author in latest)
    && (forall a :: a in latest ==> latest[a].author == a && IsLatest(reviews, latest[a]))
  }

  function Newer(latest: map<string, Review>, review: Review): map<string, Review> {
    if review.author !in latest || review.id > latest[review.author].id then latest[review.author := review] else latest
  }

  function Fold(reviews: seq<Review>): map<string, Review> {
    if reviews == [] then map[] else Newer(Fold(reviews[..|reviews| - 1]), reviews[|reviews| - 1])
  }

  method LatestByReviewer(reviews: seq<Review>) returns (latest: map<string, Review>)
    ensures latest == Fold(reviews)
  {
    latest := map[];
    for i := 0 to |reviews|
      invariant latest == Fold(reviews[..i])
    {
      assert reviews[..i + 1][..i] == reviews[..i];
      var review := reviews[i];
      if review.author !in latest || review.id > latest[review.author].id {
        latest := latest[review.author := review];
      }
    }
    assert reviews[..|reviews|] == reviews;
  }

  /** The fold keeps, for every reviewer, a review with the highest id. */
  lemma {:induction false} FoldKeepsLatest(reviews: seq<Review>)
    ensures LatestMap(reviews, Fold(reviews))
  {
    if reviews == [] {
    } else {
      var n := |reviews| - 1;
      FoldKeepsLatest(reviews[..n]);
      assert reviews == reviews[..n] + [reviews[n]];
      LatestStep(reviews[..n], reviews[n], Fold(reviews[..n]));
    }
  }

  lemma LatestStep(reviews: seq<Review>, review: Review, before: map<string, Review>)
    requires LatestMap(reviews, before)
    ensures LatestMap(reviews + [review], Newer(before, review))
  {
    var all, after := reviews + [review], Newer(before, review);
    forall a | a in after ensures after[a].author == a && IsLatest(all, after[a]) {
      forall q | q in all && q.author == a ensures q.id <= after[a].id {
        assert q == review || q in reviews;
      }
    }
    forall q | q in all ensures q.author in after {
      assert q == review || q in reviews;
    }
  }

  predicate Approves(pull: Pull, members: set<string>, r: Review) {
    r.author != pull.author && r.author in members && r.state == "APPROVED" && r.commit == Some(pull.head)
  }

  /** The latest review `a` gave says "APPROVED", of the head as it is now. */
  ghost predicate ApprovesHead(head: string, reviews: seq<Review>, a: string) {
    exists r :: IsLatest(reviews, r) && r.author == a && r.state == "APPROVED" && r.commit == Some(head)
  }

  /** Who among the members, the author aside, approves the head in their latest review. */
  ghost function Approvers(pull: Pull, members: set<string>, reviews: seq<Review>): set<string> {
    set a | a in members && a != pull.author && ApprovesHead(pull.head, reviews, a)
  }

  /** Reviews are told apart by their ids. */
  ghost predicate IdsTell(reviews: seq<Review>) {
    forall r, q :: r in reviews && q in reviews && r.id == q.id ==> r == q
  }

  /** `[...latestByReviewer.values()].filter(...).length` */
  method CountApprovals(pull: Pull, members: set<string>, latest: map<string, Review>) returns (approvals: nat)
    ensures approvals == |Counted(pull, members, latest)|
  {
    approvals := 0;
    var todo := latest.Keys;
    ghost var counted: set<string> := {};
    while todo != {}
      invariant todo <= latest.Keys
      invariant counted == set a | a in latest && a !in todo && Approves(pull, members, latest[a])
      invariant approvals == |counted|
      decreases todo
    {
      var a :| a in todo;
      if Approves(pull, members, latest[a]) {
        approvals := approvals + 1;
        counted := counted + {a};
      }
      todo := todo - {a};
    }
    assert counted == Counted(pull, members, latest);
  }

  ghost function Counted(pull: Pull, members: set<string>, latest: map<string, Review>): set<string> {
    set a | a in latest && Approves(pull, members, latest[a])
  }

  /** The facts `resolveGithubTeamEvidence` hands to the decision. */
  ghost function FactsOf(members: seq<string>, pull: Pull, reviews: seq<Review>, threshold: Number,
                         exception: bool): Facts
  {
    Facts(members, pull.author, threshold, Whole(|Counted(pull, Elements(members), Fold(reviews))|), exception)
  }

  method ResolveEvidence(members: seq<string>, pull: Pull, reviews: seq<Review>, threshold: Number, exception: bool)
    returns (facts: Facts)
    ensures facts == FactsOf(members, pull, reviews, threshold, exception)
  {
    var latest := LatestByReviewer(reviews);
    var approvals := CountApprovals(pull, (set m | m in members), latest);
    assert (set m | m in members) == Elements(members);
    facts := Facts(members, pull.author, threshold, Whole(approvals), exception);
  }

  /** With ids that tell reviews apart, what the fold counts are the approvers. */
  lemma CountedAreApprovers(pull: Pull, members: set<string>, reviews: seq<Review>)
    requires IdsTell(reviews)
    ensures Counted(pull, members, Fold(reviews)) == Approvers(pull, members, reviews)
  {
    FoldKeepsLatest(reviews);
    ApproversOfMap(pull, members, reviews, Fold(reviews));
  }

  lemma ApproversOfMap(pull: Pull, members: set<string>, reviews: seq<Review>, latest: map<string, Review>)
    requires LatestMap(reviews, latest) && IdsTell(reviews)
    ensures Approvers(pull, members, reviews) == Counted(pull, members, latest)
  {
    forall a ensures a in Approvers(pull, members, reviews) <==> a in Counted(pull, members, latest) {
      if a in Approvers(pull, members, reviews) {
        var r :| IsLatest(reviews, r) && r.author == a && r.state == "APPROVED" && r.commit == Some(pull.head);
        assert latest[a] == r;
      }
      if a in Counted(pull, members, latest) { assert IsLatest(reviews, latest[a]); }
    }
  }

  /** When the head has moved to a commit that no review names, nobody's approval is left, and only the
      author alone on the roster can still be let through. */
  lemma NewHeadDropsApprovals(members: seq<string>, pull: Pull, reviews: seq<Review>, threshold: Number,
                              exception: bool)
    requires forall r :: r in reviews ==> r.commit != Some(pull.head)
    ensures Counted(pull, Elements(members), Fold(reviews)) == {}
    ensures Authority(members) != {Trim(pull.author)} ==>
      !Decide(FactsOf(members, pull, reviews, threshold, exception)).discharge
  {
    FoldKeepsLatest(reviews);
    assert Counted(pull, Elements(members), Fold(reviews)) == {};
    DischargesExactly(FactsOf(members, pull, reviews, threshold, exception));
  }

  /** A newer review takes its author's approval back, unless it approves the head itself; nobody else's
      changes. */
  lemma NewerReviewDecides(pull: Pull, members: set<string>, reviews: seq<Review>, r: Review)
    requires forall q :: q in reviews && q.author == r.author ==> q.id < r.id
    ensures var before, after := Counted(pull, members, Fold(reviews)), Counted(pull, members, Fold(reviews + [r]));
      && after - {r.author} == before - {r.author}
      && (r.author in after <==>
            r.state == "APPROVED" && r.commit == Some(pull.head) && r.author in members && r.author != pull.author)
  {
    FoldKeepsLatest(reviews);
    assert (reviews + [r])[..|reviews|] == reviews;
    assert Fold(reviews + [r]) == Fold(reviews)[r.author := r];
  }

  /** With ids that tell reviews apart, a map of latest reviews is the only one. */
  lemma LatestMapUnique(reviews: seq<Review>, latest: map<string, Review>, other: map<string, Review>)
    requires LatestMap(reviews, latest) && LatestMap(reviews, other) && IdsTell(reviews)
    ensures latest == other
  {
    forall a ensures a in latest <==> a in other {
      if a in latest { assert latest[a] in reviews; }
      if a in other { assert other[a] in reviews; }
    }
    forall a | a in latest ensures latest[a] == other[a] {
      assert latest[a] in reviews && other[a] in reviews;
      assert latest[a].id == other[a].id;
    }
  }

  /** The order of the reviews, and repeating one, change neither the fold nor, then, whom it counts and
      what is decided. */
  lemma ReviewOrderIsInvisible(members: seq<string>, pull: Pull, reviews: seq<Review>, others: seq<Review>,
                               threshold: Number, exception: bool)
    requires (forall r :: r in reviews <==> r in others) && IdsTell(reviews)
    ensures Fold(reviews) == Fold(others)
    ensures Decide(FactsOf(members, pull, reviews, threshold, exception))
         == Decide(FactsOf(members, pull, others, threshold, exception))
  {
    FoldKeepsLatest(reviews);
    FoldKeepsLatest(others);
    forall r ensures IsLatest(reviews, r) <==> IsLatest(others, r) { }
    assert LatestMap(reviews, Fold(others));
    LatestMapUnique(reviews, Fold(reviews), Fold(others));
  }

  // ---- evidence and decision composed ----

  /** What the parsers guarantee: logins trimmed and not blank. */
  ghost predicate Parsed(members: seq<string>, pull: Pull) {
    && (forall m :: m in members ==> m != "" && Trimmed(m))
    && pull.author != "" && Trimmed(pull.author)
  }

  /** The decision's own trimming finds nothing left to trim. */
  lemma ParsedAuthority(members: seq<string>)
    requires forall m :: m in members ==> m != "" && Trimmed(m)
    ensures Authority(members) == Elements(members)
  {
    forall m | m in members ensures Trim(m) == m { }
  }

  /** The count never exceeds the capacity, so the capacity test never blocks enough approvals. */
  lemma ApproversWithinCapacity(pull: Pull, members: set<string>, reviews: seq<Review>)
    ensures Approvers(pull, members, reviews) <= members - {pull.author}
    ensures |Approvers(pull, members, reviews)| <= |members - {pull.author}|
  {
    SubsetCount(Approvers(pull, members, reviews), members - {pull.author});
  }

  /** The decision on resolved evidence, over the approvers. */
  lemma EvidenceJudged(members: seq<string>, pull: Pull, reviews: seq<Review>, threshold: Number, exception: bool)
    requires Parsed(members, pull) && IdsTell(reviews)
    ensures var count := |Approvers(pull, Elements(members), reviews)|;
            var verdict := Decide(FactsOf(members, pull, reviews, threshold, exception));
      && (verdict.discharge <==> Earned(Elements(members), pull.author, threshold, Whole(count), exception))
      && (verdict.reason == BeyondCapacity ==>
            threshold.Whole? && threshold.value > |Elements(members) - {pull.author}|)
  {
    ParsedAuthority(members);
    CountedAreApprovers(pull, Elements(members), reviews);
    assert Trim(pull.author) == pull.author;
    DischargesExactly(FactsOf(members, pull, reviews, threshold, exception));
  }

  /** With a member besides the author, the change is discharged exactly when as many of the others
      approve the head in their latest reviews as the threshold asks for. */
  lemma DischargedExactlyByApprovers(members: seq<string>, pull: Pull, reviews: seq<Review>, threshold: Number,
                                     exception: bool)
    requires Parsed(members, pull) && Elements(members) - {pull.author} != {} && IdsTell(reviews)
    ensures var count := |Approvers(pull, Elements(members), reviews)|;
      Decide(FactsOf(members, pull, reviews, threshold, exception)).discharge <==>
        PositiveInteger(threshold) && threshold.value <= count <= MAX_SAFE_INTEGER
  {
    EvidenceJudged(members, pull, reviews, threshold, exception);
    ApproversWithinCapacity(pull, Elements(members), reviews);
    assert Elements(members) != {pull.author};
  }

  /** The capacity test never blocks a threshold the approvals reach. */
  lemma CapacityNeverBlocks(members: seq<string>, pull: Pull, reviews: seq<Review>, threshold: Number, exception: bool)
    requires Parsed(members, pull) && IdsTell(reviews)
    requires Decide(FactsOf(members, pull, reviews, threshold, exception)).reason == BeyondCapacity
    ensures threshold.Whole? && threshold.value > |Approvers(pull, Elements(members), reviews)|
  {
    EvidenceJudged(members, pull, reviews, threshold, exception);
    ApproversWithinCapacity(pull, Elements(members), reviews);
  }

  /** When the author is the whole authority, the exception alone decides. */
  lemma SoleAuthorExactlyByException(members: seq<string>, pull: Pull, reviews: seq<Review>, threshold: Number,
                                     exception: bool)
    requires Parsed(members, pull) && Elements(members) == {pull.author} && IdsTell(reviews)
    ensures Decide(FactsOf(members, pull, reviews, threshold, exception)).discharge <==>
        PositiveInteger(threshold) && exception
  {
    EvidenceJudged(members, pull, reviews, threshold, exception);
    ApproversWithinCapacity(pull, Elements(members), reviews);
    assert Elements(members) - {pull.author} == {};
  }
}
