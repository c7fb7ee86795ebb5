/** The protected-change approval decision, over facts an evidence adapter supplies. */
module CpCardinality {
  import opened Ordering
  import opened Spaces

  const MAX_SAFE_INTEGER: int := 0x1F_FFFF_FFFF_FFFF

  /** A number as JavaScript has it; a fraction, a NaN and an infinity are all `NotWhole`. */
  datatype Number = Whole(value: int) | NotWhole

  datatype Branch = Empty | SingleOwnerSelf | SingleOwnerOther | MultiMember

  datatype Reason =
    | InvalidRequired | InvalidApprovals | BlankAuthor | EmptyAuthority
    | ExceptionPresent | ExceptionMissing | Insufficient | BeyondCapacity | Sufficient

  datatype Facts = Facts(members: seq<string>, author: string, threshold: Number, approvals: Number, exception: bool)

  datatype Verdict = Verdict(discharge: bool, memberCount: nat, branch: Branch, reason: Reason)

  /** The trimmed, non-blank entries, in order. */
  function Identities(members: seq<string>): seq<string> {
    if members == [] then []
    else
      var n := |members| - 1;
      Identities(members[..n]) + (if Trim(members[n]) == "" then [] else [Trim(members[n])])
  }

  function Roster(members: seq<string>): seq<string> {
    Dedupe(Identities(members))
  }

  /** `distinctMembers` */
  method DistinctMembers(members: seq<string>) returns (seen: seq<string>)
    ensures seen == Roster(members)
  {
    seen := [];
    for i := 0 to |members|
      invariant seen == Roster(members[..i])
    {
      assert members[..i + 1][..i] == members[..i];
      var identity := Trim(members[i]);
      ghost var before := Identities(members[..i]);
      if identity != "" {
        DedupeAppend(before, identity);
        if identity !in seen { seen := seen + [identity]; }
      } else {
        assert Identities(members[..i + 1]) == before;
      }
    }
    assert members[..|members|] == members;
  }

  lemma DedupeAppend(s: seq<string>, x: string)
    ensures Dedupe(s + [x]) == if x in s then Dedupe(s) else Dedupe(s) + [x]
  {
    assert (s + [x])[..|s|] == s;
  }

  function BranchFor(members: seq<string>, author: string): Branch {
    if |members| == 0 then Empty
    else if |members| == 1 then (if members[0] == author then SingleOwnerSelf else SingleOwnerOther)
    else MultiMember
  }

  predicate PositiveInteger(n: Number) {
    n.Whole? && 0 < n.value <= MAX_SAFE_INTEGER
  }

  predicate NonNegativeInteger(n: Number) {
    n.Whole? && 0 <= n.value <= MAX_SAFE_INTEGER
  }

  function Others(members: seq<string>, author: string): seq<string> {
    if members == [] then []
    else
      var n := |members| - 1;
      Others(members[..n], author) + (if members[n] == author then [] else [members[n]])
  }

  /** The decision on a distinct roster and a trimmed author. */
  function Judge(members: seq<string>, author: string, threshold: Number, approvals: Number, exception: bool): Verdict {
    var branch := BranchFor(members, author);
    if !PositiveInteger(threshold) then Verdict(false, |members|, branch, InvalidRequired)
    else if !NonNegativeInteger(approvals) then Verdict(false, |members|, branch, InvalidApprovals)
    else if author == "" then Verdict(false, |members|, branch, BlankAuthor)
    else if |members| == 0 then Verdict(false, 0, branch, EmptyAuthority)
    else if branch == SingleOwnerSelf then
      Verdict(exception, |members|, branch, if exception then ExceptionPresent else ExceptionMissing)
    else if threshold.value > |Others(members, author)| then Verdict(false, |members|, branch, BeyondCapacity)
    else if approvals.value < threshold.value then Verdict(false, |members|, branch, Insufficient)
    else Verdict(true, |members|, branch, Sufficient)
  }

  /** `decideCpCardinality` */
  function Decide(facts: Facts): Verdict {
    Judge(Roster(facts.members), Trim(facts.author), facts.threshold, facts.approvals, facts.exception)
  }

  // ---- what it decides ----

  /** The authority: who is on the roster once entries are trimmed and blanks dropped. */
  ghost function Authority(members: seq<string>): set<string> {
    set m | m in members && Trim(m) != "" :: Trim(m)
  }

  lemma {:induction false} IdentityMembers(members: seq<string>)
    ensures Elements(Identities(members)) == Authority(members)
  {
    if members == [] {
    } else {
      var n := |members| - 1;
      IdentityMembers(members[..n]);
      assert members == members[..n] + [members[n]];
      assert Authority(members) == Authority(members[..n]) + if Trim(members[n]) == "" then {} else {Trim(members[n])};
    }
  }

  lemma RosterIsAuthority(members: seq<string>)
    ensures Elements(Roster(members)) == Authority(members) && |Roster(members)| == |Authority(members)|
  {
    IdentityMembers(members);
    assert Elements(Roster(members)) == Elements(Identities(members));
    DistinctCount(Roster(members));
  }

  lemma OthersStep(front: set<string>, last: string, author: string)
    requires last !in front
    ensures (front + {last}) - {author} == (front - {author}) + if last == author then {} else {last}
    ensures |(front + {last}) - {author}| == |front - {author}| + if last == author then 0 else 1
  {
    assert (front + {last}) - {author} == (front - {author}) + if last == author then {} else {last};
    assert last !in front - {author};
  }

  lemma LastApart(members: seq<string>)
    requires Distinct(members) && members != []
    ensures var front, last := members[..|members| - 1], members[|members| - 1];
      Distinct(front) && last !in Elements(front) && Elements(members) == Elements(front) + {last}
  {
    assert members == members[..|members| - 1] + [members[|members| - 1]];
  }

  lemma {:induction false} OthersCount(members: seq<string>, author: string)
    requires Distinct(members)
    ensures |Others(members, author)| == |Elements(members) - {author}|
  {
    if members == [] {
      assert Elements(members) - {author} == {};
    } else {
      var front, last := members[..|members| - 1], members[|members| - 1];
      LastApart(members);
      OthersCount(front, author);
      OthersStep(Elements(front), last, author);
    }
  }

  lemma SoleMember(members: seq<string>, author: string)
    requires Distinct(members)
    ensures BranchFor(members, author) == SingleOwnerSelf <==> Elements(members) == {author}
  {
    DistinctCount(members);
    if |members| == 1 { assert members == [members[0]]; assert Elements(members) == {members[0]}; }
    if Elements(members) == {author} { assert members[0] in Elements(members); }
  }

  /** What has to hold for a discharge, on the authority as a set. */
  ghost predicate Earned(authority: set<string>, author: string, threshold: Number, approvals: Number,
                         exception: bool)
  {
    && PositiveInteger(threshold) && NonNegativeInteger(approvals) && author != "" && authority != {}
    && if authority == {author} then exception
       else threshold.value <= |authority - {author}| && threshold.value <= approvals.value
  }

  lemma JudgesExactly(members: seq<string>, author: string, threshold: Number, approvals: Number, exception: bool)
    requires Distinct(members)
    ensures Judge(members, author, threshold, approvals, exception).discharge <==>
            Earned(Elements(members), author, threshold, approvals, exception)
  {
    var authority := Elements(members);
    var capacity := |authority - {author}|;
    OthersCount(members, author);
    SoleMember(members, author);
    assert authority == {} <==> members == [] by { if members != [] { assert members[0] in authority; } }
  }

  lemma CapacityBlamedRightly(members: seq<string>, author: string, threshold: Number, approvals: Number,
                              exception: bool)
    requires Distinct(members)
    requires Judge(members, author, threshold, approvals, exception).reason == BeyondCapacity
    ensures threshold.Whole? && threshold.value > |Elements(members) - {author}|
  {
    OthersCount(members, author);
  }

  /** Discharged exactly when the counts are usable, the author is known, and either the author alone
      is the authority and the exception is proven, or enough of the others exist and approve. The
      capacity is only ever blamed when the threshold is beyond it. */
  lemma DischargesExactly(facts: Facts)
    ensures var authority, author := Authority(facts.members), Trim(facts.author);
      && (Decide(facts).discharge <==> Earned(authority, author, facts.threshold, facts.approvals, facts.exception))
      && (Decide(facts).reason == BeyondCapacity ==>
            facts.threshold.Whole? && facts.threshold.value > |authority - {author}|)
  {
    RosterIsAuthority(facts.members);
    var members, author := Roster(facts.members), Trim(facts.author);
    JudgesExactly(members, author, facts.threshold, facts.approvals, facts.exception);
    if Decide(facts).reason == BeyondCapacity {
      CapacityBlamedRightly(members, author, facts.threshold, facts.approvals, facts.exception);
    }
  }

  // ---- what it reports ----

  /** The threshold and the count are safe integers, the author is known, and somebody has authority. */
  ghost predicate Usable(authority: set<string>, author: string, threshold: Number, approvals: Number) {
    SafeCounts(threshold, approvals) && author != "" && authority != {}
  }

  ghost predicate SafeCounts(threshold: Number, approvals: Number) {
    && threshold.Whole? && 1 <= threshold.value <= 9007199254740991
    && approvals.Whole? && 0 <= approvals.value <= 9007199254740991
  }

  /** When a reason is given, on the authority as a set. */
  ghost predicate Because(reason: Reason, authority: set<string>, author: string, threshold: Number, approvals: Number,
                          exception: bool)
  {
    match reason
    case InvalidRequired => threshold.Whole? ==> threshold.value < 1 || threshold.value > 9007199254740991
    case InvalidApprovals =>
      && threshold.Whole? && 1 <= threshold.value <= 9007199254740991
      && (approvals.Whole? ==> approvals.value < 0 || approvals.value > 9007199254740991)
    case BlankAuthor => SafeCounts(threshold, approvals) && author == ""
    case EmptyAuthority => SafeCounts(threshold, approvals) && author != "" && authority == {}
    case ExceptionPresent => Usable(authority, author, threshold, approvals) && authority == {author} && exception
    case ExceptionMissing => Usable(authority, author, threshold, approvals) && authority == {author} && !exception
    case BeyondCapacity =>
      Usable(authority, author, threshold, approvals) && authority != {author}
      && threshold.value > |authority - {author}|
    case Insufficient =>
      Usable(authority, author, threshold, approvals) && authority != {author}
      && approvals.value < threshold.value <= |authority - {author}|
    case Sufficient =>
      Usable(authority, author, threshold, approvals) && authority != {author}
      && threshold.value <= |authority - {author}| && threshold.value <= approvals.value
  }

  lemma BranchExactly(members: seq<string>, author: string)
    requires Distinct(members)
    ensures var authority := Elements(members);
      match BranchFor(members, author)
      case Empty => authority == {}
      case SingleOwnerSelf => authority == {author}
      case SingleOwnerOther => |authority| == 1 && author !in authority
      case MultiMember => |authority| > 1
  {
    DistinctCount(members);
    SoleMember(members, author);
    if |members| == 1 { assert members == [members[0]] && Elements(members) == {members[0]}; }
  }

  /** The verdict counts the authority, says which shape it has, and gives the reason that holds; it
      discharges for two of the reasons only. */
  lemma VerdictExactly(facts: Facts)
    ensures var authority, author, verdict := Authority(facts.members), Trim(facts.author), Decide(facts);
      && verdict.memberCount == |authority|
      && Because(verdict.reason, authority, author, facts.threshold, facts.approvals, facts.exception)
      && (verdict.discharge <==> verdict.reason == ExceptionPresent || verdict.reason == Sufficient)
      && match verdict.branch
         case Empty => authority == {}
         case SingleOwnerSelf => authority == {author}
         case SingleOwnerOther => |authority| == 1 && author !in authority
         case MultiMember => |authority| > 1
  {
    RosterIsAuthority(facts.members);
    JudgedBecause(Roster(facts.members), Trim(facts.author), facts.threshold, facts.approvals, facts.exception);
    BranchExactly(Roster(facts.members), Trim(facts.author));
  }

  lemma JudgedBecause(members: seq<string>, author: string, threshold: Number, approvals: Number, exception: bool)
    requires Distinct(members)
    ensures var verdict := Judge(members, author, threshold, approvals, exception);
      && verdict.memberCount == |members| && verdict.branch == BranchFor(members, author)
      && Because(verdict.reason, Elements(members), author, threshold, approvals, exception)
      && (verdict.discharge <==> verdict.reason == ExceptionPresent || verdict.reason == Sufficient)
  {
    OthersCount(members, author);
    SoleMember(members, author);
    assert Elements(members) == {} <==> members == [] by {
      if members != [] { assert members[0] in Elements(members); }
    }
  }
}
