/** `planCrewSplit`: which pane the next crew seat splits, along which axis, at what ratio. */
module CrewSplit {
  import opened Options

  datatype Pane = Pane(id: string, width: real, height: real) {
    function Area(): real { width * height }
  }

  datatype Layout = Layout(width: real, height: real, panes: seq<Pane>)

  datatype Direction = Right | Down

  /** `ratio` is what the target keeps. */
  datatype Plan = Plan(target: string, direction: Direction, ratio: real)

  const CELL_ASPECT: real := 2.0

  /** `Math.round`. */
  function Round(x: real): int {
    (x + 0.5).Floor
  }

  function SumAreas(panes: seq<Pane>): real {
    if panes == [] then 0.0 else SumAreas(panes[..|panes| - 1]) + panes[|panes| - 1].Area()
  }

  function Total(layout: Layout): real {
    if layout.width > 0.0 && layout.height > 0.0 then layout.width * layout.height else SumAreas(layout.panes)
  }

  /** The even share of one seat; there is none without a crew size. */
  function Share(layout: Layout, crewSize: Option<int>): Option<real> {
    if crewSize.Some? && crewSize.value > 0 && Total(layout) > 0.0
    then Some(Total(layout) / (crewSize.value as real)) else None
  }

  function SeatsOwed(pane: Pane, share: Option<real>): int {
    if share.None? || share.value == 0.0 then 1
    else var k := Round(pane.Area() / share.value); if k < 1 then 1 else k
  }

  /** JavaScript's `<` on strings: the first differing code unit decides, a proper prefix is less. */
  predicate Less(a: string, b: string) {
    b != [] && (a == [] || a[0] < b[0] || (a[0] == b[0] && Less(a[1..], b[1..])))
  }

  /** `a` is chosen over `b`: more seats owed, then the bigger area, then the lower id. */
  predicate Preferred(a: Pane, b: Pane, share: Option<real>) {
    var m, n := SeatsOwed(a, share), SeatsOwed(b, share);
    m > n || (m == n && (a.Area() > b.Area() || (a.Area() == b.Area() && Less(a.id, b.id))))
  }

  /** No pane is preferred to `best`. */
  ghost predicate Best(panes: seq<Pane>, best: Pane, share: Option<real>) {
    best in panes && forall p :: p in panes ==> !Preferred(p, best, share)
  }

  function CeilHalf(k: int): int {
    k - k / 2
  }

  /** How the chosen pane is split: along its longer side on screen, so that it keeps
      `ceil(k/2)/k` of its area when it owes `k` seats, and never fewer than two. */
  function PlanFor(best: Pane, share: Option<real>): Plan {
    var owed := SeatsOwed(best, share);
    var k := if owed < 2 then 2 else owed;
    Plan(best.id, if best.width >= best.height * CELL_ASPECT then Right else Down, CeilHalf(k) as real / k as real)
  }

  // ---- the order the choice is made in ----

  lemma {:induction false} LessTransitive(a: string, b: string, c: string)
    requires Less(a, b) && Less(b, c)
    ensures Less(a, c)
  {
    if a != [] && a[0] == b[0] && b[0] == c[0] { LessTransitive(a[1..], b[1..], c[1..]); }
  }

  lemma {:induction false} LessTotal(a: string, b: string)
    ensures Less(a, b) || Less(b, a) || a == b
    ensures !(Less(a, b) && Less(b, a))
  {
    if a != [] && b != [] {
      LessTotal(a[1..], b[1..]);
      assert a == [a[0]] + a[1..] && b == [b[0]] + b[1..];
    }
  }

  /** `a` is a prefix of `b`, or smaller where they first differ. */
  ghost predicate AtOrBefore(a: string, b: string) {
    a <= b || exists n: nat :: SmallerAt(a, b, n)
  }

  ghost predicate SmallerAt(a: string, b: string, n: nat) {
    n < |a| && n < |b| && a[..n] == b[..n] && a[n] < b[n]
  }

  lemma SmallerOnward(c: char, a: string, b: string, n: nat)
    ensures SmallerAt([c] + a, [c] + b, n + 1) <==> SmallerAt(a, b, n)
    ensures !SmallerAt([c] + a, [c] + b, 0)
  {
    var x, y := [c] + a, [c] + b;
    if n < |a| && n < |b| {
      assert x[n + 1] == a[n] && y[n + 1] == b[n];
      assert x[..n + 1] == [c] + a[..n] && y[..n + 1] == [c] + b[..n];
      assert x[..n + 1][1..] == a[..n] && y[..n + 1][1..] == b[..n];
    }
  }

  lemma PrefixOnward(c: char, a: string, b: string)
    ensures [c] + a <= [c] + b <==> a <= b
  {
    var x, y := [c] + a, [c] + b;
    assert x[1..] == a && y[1..] == b;
    if x <= y { assert y[..|x|] == x && y[1..][..|a|] == y[..|x|][1..]; }
    if a <= b { assert y == [c] + (a + b[|a|..]); }
  }

  lemma BeforeOnward(c: char, a: string, b: string)
    ensures AtOrBefore([c] + a, [c] + b) <==> AtOrBefore(a, b)
  {
    PrefixOnward(c, a, b);
    var x, y := [c] + a, [c] + b;
    if n: nat :| SmallerAt(x, y, n) {
      SmallerOnward(c, a, b, 0);
      SmallerOnward(c, a, b, n - 1);
    }
    if n: nat :| SmallerAt(a, b, n) { SmallerOnward(c, a, b, n); }
  }

  lemma {:induction false} LessExactly(a: string, b: string)
    ensures Less(a, b) <==> a != b && AtOrBefore(a, b)
  {
    if a == [] || b == [] {
    } else if a[0] == b[0] {
      LessExactly(a[1..], b[1..]);
      assert a == [a[0]] + a[1..] && b == [a[0]] + b[1..];
      BeforeOnward(a[0], a[1..], b[1..]);
    } else if a[0] < b[0] {
      assert SmallerAt(a, b, 0);
    }
  }

  /** The pane chosen owes as many seats as any, is as large as any that owes as many, and of those comes
      first by id. */
  lemma BestExactly(panes: seq<Pane>, best: Pane, share: Option<real>)
    ensures Best(panes, best, share) <==> best in panes && forall p :: p in panes ==>
      || SeatsOwed(p, share) < SeatsOwed(best, share)
      || (SeatsOwed(p, share) == SeatsOwed(best, share) && p.Area() < best.Area())
      || (SeatsOwed(p, share) == SeatsOwed(best, share) && p.Area() == best.Area() && AtOrBefore(best.id, p.id))
  {
    forall p: Pane ensures !Less(p.id, best.id) <==> AtOrBefore(best.id, p.id) {
      LessTotal(p.id, best.id);
      LessExactly(p.id, best.id);
      LessExactly(best.id, p.id);
      assert best.id == p.id ==> AtOrBefore(best.id, p.id);
    }
  }

  lemma PreferredTransitive(a: Pane, b: Pane, c: Pane, share: Option<real>)
    requires Preferred(a, b, share) && Preferred(b, c, share)
    ensures Preferred(a, c, share)
  {
    if Less(a.id, b.id) && Less(b.id, c.id) { LessTransitive(a.id, b.id, c.id); }
  }

  lemma PreferredAsymmetric(a: Pane, b: Pane, share: Option<real>)
    ensures !(Preferred(a, b, share) && Preferred(b, a, share))
    ensures a.id != b.id ==> Preferred(a, b, share) || Preferred(b, a, share)
  {
    LessTotal(a.id, b.id);
  }

  /** The plan splits a pane that no pane of the layout is preferred to. */
  ghost predicate PlannedFor(layout: Layout, crewSize: Option<int>, plan: Plan) {
    exists best :: Best(layout.panes, best, Share(layout, crewSize)) && plan == PlanFor(best, Share(layout, crewSize))
  }

  /** `planCrewSplit`. */
  method PlanCrewSplit(layout: Layout, crewSize: Option<int>) returns (plan: Option<Plan>)
    ensures layout.panes == [] <==> plan.None?
    ensures plan.Some? ==> PlannedFor(layout, crewSize, plan.value)
  {
    var share := Share(layout, crewSize);
    var best: Option<Pane> := None;
    for i := 0 to |layout.panes|
      invariant i == 0 <==> best.None?
      invariant i > 0 ==> Best(layout.panes[..i], best.value, share)
    {
      var pane := layout.panes[i];
      assert layout.panes[..i + 1] == layout.panes[..i] + [pane];
      if best.None? || Preferred(pane, best.value, share) {
        forall p | p in layout.panes[..i] ensures !Preferred(p, pane, share) {
          if Preferred(p, pane, share) { PreferredTransitive(p, pane, best.value, share); }
        }
        PreferredAsymmetric(pane, pane, share);
        best := Some(pane);
      }
    }
    assert layout.panes[..|layout.panes|] == layout.panes;
    if best.None? { return None; }
    plan := Some(PlanFor(best.value, share));
  }

  ghost predicate DistinctIds(panes: seq<Pane>) {
    forall i, j :: 0 <= i < j < |panes| ==> panes[i].id != panes[j].id
  }

  lemma BestIsUnique(panes: seq<Pane>, a: Pane, b: Pane, share: Option<real>)
    requires DistinctIds(panes) && Best(panes, a, share) && Best(panes, b, share)
    ensures a == b
  {
    PreferredAsymmetric(a, b, share);
    var i :| 0 <= i < |panes| && panes[i] == a;
    var j :| 0 <= j < |panes| && panes[j] == b;
  }

  lemma {:induction false} SumAreasJoin(a: seq<Pane>, b: seq<Pane>)
    ensures SumAreas(a + b) == SumAreas(a) + SumAreas(b)
  {
    if b == [] {
      assert a + b == a;
    } else {
      var front, last := b[..|b| - 1], b[|b| - 1];
      SumAreasJoin(a, front);
      assert (a + b)[..|a + b| - 1] == a + front && (a + b)[|a + b| - 1] == last;
    }
  }

  /** Where `x` stands in a list, and what is left without it. */
  lemma PullOut(panes: seq<Pane>, x: Pane) returns (before: seq<Pane>, after: seq<Pane>)
    requires x in panes
    ensures panes == before + ([x] + after) && multiset(before + after) == multiset(panes) - multiset{x}
  {
    var i :| 0 <= i < |panes| && panes[i] == x;
    before, after := panes[..i], panes[i + 1..];
    assert panes == before + ([x] + after);
  }

  lemma SumWithout(before: seq<Pane>, x: Pane, after: seq<Pane>)
    ensures SumAreas(before + ([x] + after)) == SumAreas(before + after) + x.Area()
  {
    SumAreasJoin(before, [x] + after);
    SumAreasJoin([x], after);
    SumAreasJoin(before, after);
    assert [x][..0] == [];
    assert SumAreas([x]) == x.Area();
  }

  lemma {:induction false} SumAreasPermuted(p: seq<Pane>, q: seq<Pane>)
    requires multiset(p) == multiset(q)
    ensures SumAreas(p) == SumAreas(q)
    decreases |p|
  {
    if p == [] {
      assert |multiset(q)| == |q|;
      assert q == [];
    } else {
      assert p[0] in multiset(p) && p[0] in multiset(q) && p[0] in q;
      var a, b := PullOut(p, p[0]);
      var c, d := PullOut(q, p[0]);
      assert |p| == |a + b| + 1;
      SumAreasPermuted(a + b, c + d);
      SumWithout(a, p[0], b);
      SumWithout(c, p[0], d);
    }
  }

  /** The plan does not depend on the order in which the panes are listed. */
  lemma ListingOrderIsInvisible(a: Layout, b: Layout, crewSize: Option<int>, bestA: Pane, bestB: Pane)
    requires a.width == b.width && a.height == b.height && multiset(a.panes) == multiset(b.panes)
    requires DistinctIds(a.panes)
    requires Best(a.panes, bestA, Share(a, crewSize)) && Best(b.panes, bestB, Share(b, crewSize))
    ensures PlanFor(bestA, Share(a, crewSize)) == PlanFor(bestB, Share(b, crewSize))
  {
    SumAreasPermuted(a.panes, b.panes);
    assert SumAreas(a.panes) == SumAreas(b.panes);
    assert Total(a) == Total(b);
    forall p | p in a.panes ensures p in b.panes {
      assert p in multiset(a.panes) && p in multiset(b.panes);
    }
    assert bestB in multiset(b.panes);
    BestIsUnique(a.panes, bestA, bestB, Share(a, crewSize));
  }

  // ---- sized mode: a bound on the error of every pane ----

  ghost function Areas(panes: seq<Pane>): (r: seq<real>)
    ensures |r| == |panes| && forall i :: 0 <= i < |r| ==> r[i] == panes[i].Area()
  {
    seq(|panes|, i requires 0 <= i < |panes| => panes[i].Area())
  }

  ghost function Sum(owed: seq<nat>): nat {
    if owed == [] then 0 else Sum(owed[..|owed| - 1]) + owed[|owed| - 1]
  }

  predicate Near(a: real, b: real, e: real) {
    a - b <= e && b - a <= e
  }

  /** The area of `k` even shares. */
  function Seats(k: nat, u: real): real {
    k as real * u
  }

  /** Each area is within `3d` of the seats it owes; all `size` seats are owed somewhere. */
  ghost predicate Fair(areas: seq<real>, owed: seq<nat>, size: nat, u: real, d: real) {
    && |owed| == |areas| && Sum(owed) == size
    && forall i :: 0 <= i < |areas| ==> owed[i] >= 1 && Near(areas[i], Seats(owed[i], u), 3.0 * d)
  }

  lemma MulMono(x: real, y: real, u: real)
    requires u >= 0.0 && x <= y
    ensures x * u <= y * u
  {
    assert (y - x) * u >= 0.0;
  }

  lemma RoundOf(x: real, k: nat)
    requires k as real - 0.5 < x < k as real + 0.5
    ensures Round(x) == k
  {
  }

  /** Geometry within `3d` of `k` shares reads back as exactly `k` seats. */
  lemma RoundsToOwed(a: real, u: real, k: nat, d: real)
    requires u > 0.0 && 6.0 * d < u && 1 <= k && Near(a, Seats(k, u), 3.0 * d)
    ensures Round(a / u) == k
  {
    var x, r := a / u, k as real;
    assert x * u == a;
    var lo, hi := r - 0.5, r + 0.5;
    assert Seats(k, u) == r * u;
    assert lo * u == r * u - 0.5 * u && hi * u == r * u + 0.5 * u;
    assert lo * u < x * u < hi * u;
    if x <= lo { MulMono(x, lo, u); }
    if hi <= x { MulMono(hi, x, u); }
    RoundOf(x, k);
  }

  lemma Reassociates(x: real, y: real, z: real)
    ensures x * (y * z) == (x * y) * z
  {
  }

  lemma ScaledAbove(e: real, q: real, b: real)
    requires 0.0 <= b && e <= b && 0.0 <= q && 3.0 * q <= 2.0
    ensures 3.0 * (e * q) <= 2.0 * b
  {
    calc {
      3.0 * (e * q);
    <= { MulMono(e, b, q); }
      3.0 * (b * q);
    == { Commutes(b, q); }
      3.0 * (q * b);
    == { Reassociates(3.0, q, b); }
      (3.0 * q) * b;
    <= { MulMono(3.0 * q, 2.0, b); }
      2.0 * b;
    }
  }

  /** Of an old error at most two thirds survive in either side of a split. */
  lemma ScaledError(e: real, q: real, b: real)
    requires -b <= e <= b && 0.0 <= q && 3.0 * q <= 2.0
    ensures -(2.0 * b) <= 3.0 * (e * q) <= 2.0 * b
  {
    ScaledAbove(e, q, b);
    var f := -e;
    ScaledAbove(f, q, b);
    assert f * q + e * q == (f + e) * q;
  }

  lemma Commutes(x: real, y: real)
    ensures x * y == y * x
  {
  }

  /** The part of `k` shares that goes to `c` of the seats. */
  lemma PartOfSeats(a: real, u: real, k: nat, c: nat)
    requires k >= 1
    ensures var q := c as real / k as real;
            a * q == (a - Seats(k, u)) * q + Seats(c, u) && q * k as real == c as real
  {
    var q := c as real / k as real;
    assert q * k as real == c as real;
    assert Seats(k, u) * q == (q * k as real) * u;
    assert (a - Seats(k, u)) * q == a * q - Seats(k, u) * q;
  }

  lemma PartIsProper(k: nat, c: nat)
    requires k >= 1 && 3 * c <= 2 * k
    ensures 0.0 <= c as real / k as real && 3.0 * (c as real / k as real) <= 2.0
  {
    var q, r := c as real / k as real, k as real;
    assert q * r == c as real;
    Identity(r);
    if q < 0.0 { StrictMul(q, 0.0, r); }
    Reassociates(3.0, q, r);
    if 3.0 * q > 2.0 { StrictMul(2.0, 3.0 * q, r); }
  }

  lemma StrictMul(x: real, y: real, u: real)
    requires u > 0.0 && x < y
    ensures x * u < y * u
  {
    assert (y - x) * u > 0.0;
  }

  /** A side asked to hold `c` of the `k` seats, and given that within `d`, is within `3d` of them. */
  lemma SideIsNear(a: real, u: real, k: nat, c: nat, d: real, side: real)
    requires 2 <= k && 3 * c <= 2 * k && Near(a, Seats(k, u), 3.0 * d)
    requires Near(side, a * (c as real / k as real), d)
    ensures Near(side, Seats(c, u), 3.0 * d)
  {
    var q := c as real / k as real;
    PartOfSeats(a, u, k, c);
    PartIsProper(k, c);
    ScaledError(a - Seats(k, u), q, 3.0 * d);
  }

  lemma DivTimes(c: real, k: real)
    requires k > 0.0
    ensures (c / k) * k == c
  {
  }

  lemma Cancels(x: real, y: real, k: real)
    requires k > 0.0 && x * k == y * k
    ensures x == y
  {
    if x < y { StrictMul(x, y, k); }
    if y < x { StrictMul(y, x, k); }
  }

  lemma Complement(x: real, k: real)
    ensures (1.0 - x) * k == k - x * k
  {
  }

  lemma DivSum(c: real, g: real, k: real)
    requires k > 0.0 && c + g == k
    ensures 1.0 - c / k == g / k
  {
    DivTimes(c, k);
    DivTimes(g, k);
    Complement(c / k, k);
    Cancels(1.0 - c / k, g / k, k);
  }

  lemma RatioSides(k: nat)
    requires k >= 2
    ensures 3 * CeilHalf(k) <= 2 * k && 3 * (k / 2) <= 2 * k
    ensures 1.0 - CeilHalf(k) as real / k as real == (k / 2) as real / k as real
  {
    DivSum(CeilHalf(k) as real, (k / 2) as real, k as real);
  }

  /** `after` is `before` with `target` split as planned, each side within `d` of what was asked. */
  ghost predicate Split(before: seq<Pane>, after: seq<Pane>, plan: Plan, d: real) {
    && |after| == |before| + 1 && DistinctIds(after)
    && exists i :: 0 <= i < |before| && before[i].id == plan.target &&
         SplitAt(Areas(before), Areas(after), i, plan.ratio, d)
         && (forall j :: 0 <= j < |before| ==> after[j].id == before[j].id)
         && (forall j :: 0 <= j < |before| && j != i ==> after[j] == before[j])
  }

  ghost predicate SplitAt(before: seq<real>, after: seq<real>, i: nat, ratio: real, d: real) {
    && i < |before| && |after| == |before| + 1
    && Near(after[i], before[i] * ratio, d)
    && Near(after[|before|], before[i] * (1.0 - ratio), d)
    && forall j :: 0 <= j < |before| && j != i ==> after[j] == before[j]
  }

  lemma {:induction false} SomeOweTwo(owed: seq<nat>)
    requires Sum(owed) > |owed|
    ensures exists i :: 0 <= i < |owed| && owed[i] >= 2
  {
    var n := |owed| - 1;
    if owed[n] < 2 {
      SomeOweTwo(owed[..n]);
      var i :| 0 <= i < n && owed[..n][i] >= 2;
      assert owed[i] >= 2;
    }
  }

  lemma {:induction false} SumUpdate(owed: seq<nat>, i: nat, k: nat)
    requires i < |owed|
    ensures Sum(owed[i := k]) + owed[i] == Sum(owed) + k
  {
    var n := |owed| - 1;
    if i < n {
      SumUpdate(owed[..n], i, k);
      assert owed[i := k][..n] == owed[..n][i := k];
    } else {
      assert owed[i := k][..n] == owed[..n];
    }
  }

  /** The seat count recomputed from geometry is the true one, for every pane. */
  lemma OwedIsTrue(panes: seq<Pane>, owed: seq<nat>, size: nat, u: real, d: real, i: nat)
    requires Fair(Areas(panes), owed, size, u, d) && u > 0.0 && 6.0 * d < u && i < |panes|
    ensures SeatsOwed(panes[i], Some(u)) == owed[i]
  {
    RoundsToOwed(Areas(panes)[i], u, owed[i], d);
  }

  /** The chosen pane owes at least two seats while the tab has fewer panes than seats. */
  lemma TargetOwesTwo(panes: seq<Pane>, owed: seq<nat>, size: nat, u: real, d: real, best: Pane, i: nat)
    requires Fair(Areas(panes), owed, size, u, d) && u > 0.0 && 6.0 * d < u
    requires |panes| < size && Best(panes, best, Some(u)) && i < |panes| && panes[i] == best
    ensures owed[i] >= 2 && PlanFor(best, Some(u)).ratio == CeilHalf(owed[i]) as real / owed[i] as real
  {
    SomeOweTwo(owed);
    var j :| 0 <= j < |owed| && owed[j] >= 2;
    OwedIsTrue(panes, owed, size, u, d, i);
    OwedIsTrue(panes, owed, size, u, d, j);
    assert !Preferred(panes[j], best, Some(u));
  }

  /** Splitting the pane `i` in the planned ratio keeps every pane within its bound: the target keeps
      `ceil(k/2)` of its `k` seats and the new pane owes the other `floor(k/2)`. */
  lemma SplitAreasFair(before: seq<real>, after: seq<real>, owed: seq<nat>, size: nat, u: real, d: real, i: nat)
    requires Fair(before, owed, size, u, d) && i < |before| && owed[i] >= 2
    requires SplitAt(before, after, i, CeilHalf(owed[i]) as real / owed[i] as real, d)
    ensures Fair(after, owed[i := CeilHalf(owed[i])] + [owed[i] / 2], size, u, d)
  {
    var k := owed[i];
    var keep, give := CeilHalf(k), k / 2;
    RatioSides(k);
    SideIsNear(before[i], u, k, keep, d, after[i]);
    SideIsNear(before[i], u, k, give, d, after[|before|]);
    FairAfter(before, after, owed, size, u, d, i, keep, give);
  }

  lemma FairAfter(before: seq<real>, after: seq<real>, owed: seq<nat>, size: nat, u: real, d: real,
                  i: nat, keep: nat, give: nat)
    requires Fair(before, owed, size, u, d) && i < |before| && |after| == |before| + 1
    requires keep >= 1 && give >= 1 && keep + give == owed[i]
    requires Near(after[i], Seats(keep, u), 3.0 * d) && Near(after[|before|], Seats(give, u), 3.0 * d)
    requires forall j :: 0 <= j < |before| && j != i ==> after[j] == before[j]
    ensures Fair(after, owed[i := keep] + [give], size, u, d)
  {
    SumUpdate(owed, i, keep);
    var next := owed[i := keep] + [give];
    assert next[..|owed|] == owed[i := keep];
    forall j | 0 <= j < |after| ensures next[j] >= 1 && Near(after[j], Seats(next[j], u), 3.0 * d) {
      if j < |before| && j != i { assert next[j] == owed[j]; }
    }
  }

  lemma SplitKeepsFair(before: seq<Pane>, after: seq<Pane>, owed: seq<nat>, size: nat, u: real, d: real, best: Pane)
    returns (owed': seq<nat>)
    requires Fair(Areas(before), owed, size, u, d) && u > 0.0 && 6.0 * d < u && |before| < size
    requires DistinctIds(before) && Best(before, best, Some(u))
    requires Split(before, after, PlanFor(best, Some(u)), d)
    ensures Fair(Areas(after), owed', size, u, d)
  {
    var ratio := PlanFor(best, Some(u)).ratio;
    var i :| 0 <= i < |before| && before[i].id == best.id && SplitAt(Areas(before), Areas(after), i, ratio, d);
    var m :| 0 <= m < |before| && before[m] == best;
    assert m == i;
    TargetOwesTwo(before, owed, size, u, d, best, i);
    SplitAreasFair(Areas(before), Areas(after), owed, size, u, d, i);
    owed' := owed[i := CeilHalf(owed[i])] + [owed[i] / 2];
  }

  // ---- a whole stand-up ----

  /** Successive tabs of a stand-up of `size` seats whose even share is `u`: one planned split each. */
  ghost predicate Standup(tabs: seq<seq<Pane>>, size: nat, u: real, d: real) {
    && tabs != [] && |tabs| <= size && u > 0.0
    && |tabs[0]| == 1 && Near(Areas(tabs[0])[0], Seats(size, u), 3.0 * d)
    && (forall t :: 0 <= t < |tabs| ==> DistinctIds(tabs[t]))
    && (forall t :: 0 <= t < |tabs| - 1 ==> PlannedSplit(tabs[t], tabs[t + 1], Some(u), d))
  }

  ghost predicate PlannedSplit(before: seq<Pane>, after: seq<Pane>, share: Option<real>, d: real) {
    exists best :: Best(before, best, share) && Split(before, after, PlanFor(best, share), d)
  }

  /** After any number of splits every pane is within `3d` of the seats it owes, and the seat counts
      read back from its geometry are the true ones. The bound does not grow with the crew. */
  lemma {:induction false} StandupStaysFair(tabs: seq<seq<Pane>>, size: nat, u: real, d: real) returns (owed: seq<nat>)
    requires Standup(tabs, size, u, d) && 6.0 * d < u
    ensures var panes := tabs[|tabs| - 1];
      && |panes| == |tabs| && Fair(Areas(panes), owed, size, u, d)
      && forall i :: 0 <= i < |panes| ==> SeatsOwed(panes[i], Some(u)) == owed[i]
  {
    var n := |tabs| - 1;
    if n == 0 {
      owed := [size];
      assert [size][..0] == [];
    } else {
      assert PlannedSplit(tabs[n - 1], tabs[n - 1 + 1], Some(u), d);
      var before := StandupStaysFair(tabs[..n], size, u, d);
      var best :| Best(tabs[n - 1], best, Some(u)) && Split(tabs[n - 1], tabs[n], PlanFor(best, Some(u)), d);
      owed := SplitKeepsFair(tabs[n - 1], tabs[n], before, size, u, d, best);
    }
    forall i | 0 <= i < |tabs[n]| ensures SeatsOwed(tabs[n][i], Some(u)) == owed[i] {
      OwedIsTrue(tabs[n], owed, size, u, d, i);
    }
  }

  lemma {:induction false} AllOweOne(owed: seq<nat>)
    requires Sum(owed) == |owed| && forall i :: 0 <= i < |owed| ==> owed[i] >= 1
    ensures forall i :: 0 <= i < |owed| ==> owed[i] == 1
  {
    if owed == [] {
    } else {
      var n := |owed| - 1;
      SumAtLeast(owed[..n]);
      AllOweOne(owed[..n]);
      assert forall i :: 0 <= i < n ==> owed[..n][i] == owed[i];
    }
  }

  lemma {:induction false} SumAtLeast(owed: seq<nat>)
    requires forall i :: 0 <= i < |owed| ==> owed[i] >= 1
    ensures Sum(owed) >= |owed|
  {
    if owed == [] {
    } else {
      SumAtLeast(owed[..|owed| - 1]);
    }
  }

  /** The finished tab is even: every pane is within `3d` of the even share, exactly even for `d = 0`. */
  lemma FinishedTabIsEven(tabs: seq<seq<Pane>>, size: nat, u: real, d: real, i: nat)
    requires Standup(tabs, size, u, d) && 6.0 * d < u
    requires |tabs| == size && i < |tabs[|tabs| - 1]|
    ensures Near(tabs[|tabs| - 1][i].Area(), u, 3.0 * d)
  {
    var owed := StandupStaysFair(tabs, size, u, d);
    AllOweOne(owed);
    assert Near(Areas(tabs[|tabs| - 1])[i], Seats(1, u), 3.0 * d);
  }

  // ---- the same over what the planner reads and returns ----

  /** Successive readings of a tab of unchanging size while a crew of `size` stands up in it: first one
      pane that fills it, then one planned split each. */
  ghost predicate Readings(layouts: seq<Layout>, size: nat, area: real, d: real) {
    && layouts != [] && |layouts| <= size
    && |layouts[0].panes| == 1 && Near(layouts[0].panes[0].Area(), area, 3.0 * d)
    && (forall t :: 0 <= t < |layouts| ==> OfArea(layouts[t], area) && DistinctIds(layouts[t].panes))
    && (forall t :: 0 <= t < |layouts| - 1 ==> PlanCarriedOut(layouts[t], layouts[t + 1], size, d))
  }

  /** The tab measures `area`: by its own size, if both sides are reported, or else by its panes. */
  ghost predicate OfArea(layout: Layout, area: real) {
    && area > 0.0
    && area == if layout.width > 0.0 && layout.height > 0.0 then layout.width * layout.height
               else SumAreas(layout.panes)
  }

  ghost predicate PlanCarriedOut(before: Layout, after: Layout, size: nat, d: real) {
    exists plan :: PlannedFor(before, Some(size), plan) && Split(before.panes, after.panes, plan, d)
  }

  lemma ShareOfArea(layout: Layout, area: real, size: nat)
    requires OfArea(layout, area) && size > 0
    ensures area > 0.0 && Share(layout, Some(size)) == Some(area / size as real)
  {
    assert Total(layout) == area;
  }

  lemma RoundBounds(x: real, m: int)
    ensures Round(x) == m <==> m as real - 0.5 <= x < m as real + 0.5
    ensures Round(x) <= m <==> x < m as real + 0.5
  {
  }

  lemma Scaled(x: real, y: real, u: real, p: real, q: real)
    requires u > 0.0 && p == x * u && q == y * u
    ensures x <= y <==> p <= q
  {
    if x <= y { MulMono(x, y, u); } else { StrictMul(y, x, u); }
  }

  /** Rounding half up, without dividing. */
  lemma RoundExactly(x: real, a: real, u: real, m: int, lo: real, hi: real)
    requires u > 0.0 && x * u == a && lo == m as real - 0.5 && hi == m as real + 0.5
    ensures Round(x) == m <==> lo * u <= a < hi * u
    ensures Round(x) <= m <==> a < hi * u
  {
    var low, high := lo * u, hi * u;
    Scaled(lo, x, u, low, a);
    Scaled(hi, x, u, high, a);
    RoundIn(x, a, m, lo, hi, low, high);
  }

  lemma RoundIn(x: real, a: real, m: int, lo: real, hi: real, low: real, high: real)
    requires (lo <= x <==> low <= a) && (hi <= x <==> high <= a) && lo == m as real - 0.5 && hi == m as real + 0.5
    ensures Round(x) == m <==> low <= a < high
    ensures Round(x) <= m <==> a < high
  {
    RoundBounds(x, m);
  }

  /** How many seats a pane owes: as many even shares as it holds, halves rounded up, and at least one. */
  lemma SeatsExactly(pane: Pane, layout: Layout, area: real, size: nat, m: int)
    requires OfArea(layout, area) && size > 0
    ensures SeatsOwed(pane, Share(layout, Some(size))) == m <==>
      && m >= 1
      && 2.0 * pane.Area() * size as real < (2 * m + 1) as real * area
      && (m == 1 || (2 * m - 1) as real * area <= 2.0 * pane.Area() * size as real)
  {
    var n, u := size as real, area / size as real;
    ShareOfArea(layout, area, size);
    SharePositive(area, size);
    DivTimes(area, n);
    var lo, hi := m as real - 0.5, m as real + 0.5;
    SeatsInShares(pane.Area(), u, m, lo, hi);
    InShares(pane.Area(), u, n, hi, 2 * m + 1);
    InShares(pane.Area(), u, n, lo, 2 * m - 1);
  }

  lemma SeatsInShares(a: real, u: real, m: int, lo: real, hi: real)
    requires u > 0.0 && lo == m as real - 0.5 && hi == m as real + 0.5
    ensures (if Round(a / u) < 1 then 1 else Round(a / u)) == m <==>
      m >= 1 && a < hi * u && (m == 1 || lo * u <= a)
  {
    DivTimes(a, u);
    RoundExactly(a / u, a, u, m, lo, hi);
  }

  /** Comparing with `h` shares is comparing the doubled area of all seats with `k == 2h` tabs. */
  lemma InShares(a: real, u: real, n: real, h: real, k: int)
    requires n > 0.0 && k as real == 2.0 * h
    ensures a < h * u <==> 2.0 * a * n < k as real * (u * n)
    ensures h * u <= a <==> k as real * (u * n) <= 2.0 * a * n
  {
    var b := h * u;
    Reassociates(h, u, n);
    assert k as real * (u * n) == 2.0 * (b * n) by {
      Reassociates(2.0, h, u * n);
    }
    assert 2.0 * a * n == 2.0 * (a * n);
    if a < b { StrictMul(a, b, n); } else { MulMono(b, a, n); }
  }

  /** Without a crew size, or a tab without an area, every pane owes one seat. */
  lemma UnsizedOwesOne(pane: Pane, layout: Layout, crewSize: Option<int>)
    requires crewSize.None? || crewSize.value <= 0 || forall area: real :: !OfArea(layout, area)
    ensures SeatsOwed(pane, Share(layout, crewSize)) == 1
  {
    assert !OfArea(layout, Total(layout)) || crewSize.None? || crewSize.value <= 0;
  }

  lemma SharePositive(area: real, size: nat)
    requires area > 0.0 && size > 0
    ensures area / size as real > 0.0
  {
    var u, r := area / size as real, size as real;
    assert u * r == area;
    Identity(r);
    if u < 0.0 { StrictMul(u, 0.0, r); }
  }

  ghost function PanesOf(layouts: seq<Layout>): (tabs: seq<seq<Pane>>)
    ensures |tabs| == |layouts| && forall t :: 0 <= t < |tabs| ==> tabs[t] == layouts[t].panes
  {
    seq(|layouts|, t requires 0 <= t < |layouts| => layouts[t].panes)
  }

  lemma CarriedOutIsPlanned(before: Layout, after: Layout, size: nat, area: real, d: real)
    requires OfArea(before, area) && size > 0 && PlanCarriedOut(before, after, size, d)
    ensures PlannedSplit(before.panes, after.panes, Some(area / size as real), d)
  {
    ShareOfArea(before, area, size);
    var plan :| PlannedFor(before, Some(size), plan) && Split(before.panes, after.panes, plan, d);
    var best :| Best(before.panes, best, Share(before, Some(size))) && plan == PlanFor(best, Share(before, Some(size)));
  }

  lemma ReadingsStandUp(layouts: seq<Layout>, size: nat, area: real, d: real)
    requires Readings(layouts, size, area, d)
    ensures size > 0 && Standup(PanesOf(layouts), size, area / size as real, d)
  {
    var u := area / size as real;
    var tabs := PanesOf(layouts);
    ShareOfArea(layouts[0], area, size);
    SharePositive(area, size);
    DivTimes(area, size as real);
    forall t | 0 <= t < |tabs| - 1 ensures PlannedSplit(tabs[t], tabs[t + 1], Some(u), d) {
      CarriedOutIsPlanned(layouts[t], layouts[t + 1], size, area, d);
    }
  }

  /** A crew stood up by following `planCrewSplit` at every reading, each split off by at most `d`, ends
      with every pane within `3d` of the tab's area over the crew size. */
  lemma FollowedPlansEndEven(layouts: seq<Layout>, size: nat, area: real, d: real, i: nat)
    requires Readings(layouts, size, area, d) && |layouts| == size && 6.0 * d < area / size as real
    requires i < |layouts[|layouts| - 1].panes|
    ensures Near(layouts[|layouts| - 1].panes[i].Area(), area / size as real, 3.0 * d)
  {
    ReadingsStandUp(layouts, size, area, d);
    FinishedTabIsEven(PanesOf(layouts), size, area / size as real, d, i);
  }

  // ---- unsized mode ----

  /** The largest pane is at most twice the smallest. */
  ghost predicate Spread(areas: seq<real>) {
    forall i, j :: 0 <= i < |areas| && 0 <= j < |areas| ==> areas[i] <= 2.0 * areas[j]
  }

  lemma HalvingKeepsSpread(before: seq<real>, after: seq<real>, i: nat)
    requires Spread(before) && SplitAt(before, after, i, 0.5, 0.0)
    requires forall j :: 0 <= j < |before| ==> before[j] <= before[i]
    ensures Spread(after)
  {
    assert after[i] == before[i] / 2.0 && after[|before|] == before[i] / 2.0;
  }

  /** Without a crew size the largest pane is halved, and exact halving keeps the spread at two. */
  lemma UnsizedKeepsSpread(before: seq<Pane>, after: seq<Pane>)
    requires Spread(Areas(before)) && DistinctIds(before) && PlannedSplit(before, after, None, 0.0)
    ensures Spread(Areas(after))
  {
    var best :| Best(before, best, None) && Split(before, after, PlanFor(best, None), 0.0);
    assert PlanFor(best, None).ratio == 0.5;
    var i :| 0 <= i < |before| && before[i].id == best.id && SplitAt(Areas(before), Areas(after), i, 0.5, 0.0);
    var m :| 0 <= m < |before| && before[m] == best;
    assert m == i;
    forall j | 0 <= j < |before| ensures Areas(before)[j] <= Areas(before)[i] {
      assert !Preferred(before[j], best, None);
    }
    HalvingKeepsSpread(Areas(before), Areas(after), i);
  }

  lemma {:induction false} UnsizedStaysWithinTwo(tabs: seq<seq<Pane>>)
    requires tabs != [] && Spread(Areas(tabs[0])) && forall t :: 0 <= t < |tabs| ==> DistinctIds(tabs[t])
    requires forall t :: 0 <= t < |tabs| - 1 ==> PlannedSplit(tabs[t], tabs[t + 1], None, 0.0)
    ensures Spread(Areas(tabs[|tabs| - 1]))
  {
    if |tabs| > 1 {
      var n := |tabs| - 1;
      UnsizedStaysWithinTwo(tabs[..n]);
      assert PlannedSplit(tabs[n - 1], tabs[n - 1 + 1], None, 0.0);
      UnsizedKeepsSpread(tabs[n - 1], tabs[n]);
    }
  }

  // ---- shapes ----

  /** On screen, cells being taller than wide, neither side is more than three times the other. */
  predicate Readable(width: real, height: real) {
    0.0 <= width && 0.0 <= height
    && width <= 3.0 * (2.0 * height) && 2.0 * height <= 3.0 * width
  }

  /** One side of an exact split: the part `q` of the pane. */
  function Side(pane: Pane, direction: Direction, q: real): (real, real) {
    if direction == Right then (pane.width * q, pane.height) else (pane.width, pane.height * q)
  }

  lemma RatioBounds(k: int)
    requires k >= 2
    ensures 1.0 / 2.0 <= CeilHalf(k) as real / k as real && 3.0 * (CeilHalf(k) as real / k as real) <= 2.0
  {
    PartIsProper(k, CeilHalf(k));
    AtLeastHalf(CeilHalf(k) as real, k as real);
  }

  lemma AtLeastHalf(c: real, r: real)
    requires r > 0.0 && r <= 2.0 * c
    ensures 1.0 / 2.0 <= c / r
  {
    var q, half := c / r, 1.0 / 2.0;
    DivTimes(c, r);
    if q < half { StrictMul(q, half, r); }
  }

  /** A part between a third and the whole of a length. */
  lemma PartOfLength(length: real, q: real, part: real)
    requires length >= 0.0 && 1.0 <= 3.0 * q && q <= 1.0 && part == length * q
    ensures part <= length <= 3.0 * part
  {
    Commutes(q, length);
    Identity(length);
    MulMono(q, 1.0, length);
    assert part <= length;
    ThreeTimes(length, q, part);
  }

  lemma Identity(x: real)
    ensures 1.0 * x == x && 0.0 * x == 0.0
  {
  }

  lemma ThreeTimes(length: real, q: real, part: real)
    requires length >= 0.0 && 1.0 <= 3.0 * q && part == length * q
    ensures length <= 3.0 * part
  {
    var r := 3.0 * q;
    MulMono(1.0, r, length);
    Identity(length);
    assert r * length == 3.0 * part;
  }

  lemma NoStrip(long: real, short: real, part: real)
    requires short <= long <= 3.0 * short && part <= long <= 3.0 * part
    ensures part <= 3.0 * short && short <= 3.0 * part
  {
  }

  lemma PartIsReadable(pane: Pane, right: bool, q: real, part: real)
    requires Readable(pane.width, pane.height) && right == (pane.width >= pane.height * CELL_ASPECT)
    requires 1.0 <= 3.0 * q && q <= 1.0 && part == (if right then pane.width else pane.height) * q
    ensures if right then Readable(part, pane.height) else Readable(pane.width, part)
  {
    var tall := CELL_ASPECT * pane.height;
    Commutes(CELL_ASPECT, pane.height);
    if right {
      PartOfLength(pane.width, q, part);
      NoStrip(pane.width, tall, part);
    } else {
      PartOfLength(pane.height, q, part);
      NoStrip(tall, pane.width, CELL_ASPECT * part);
    }
  }

  lemma SideIsReadable(pane: Pane, direction: Direction, q: real)
    requires Readable(pane.width, pane.height)
    requires direction == Right <==> pane.width >= pane.height * CELL_ASPECT
    requires 1.0 <= 3.0 * q && q <= 1.0
    ensures var (width, height) := Side(pane, direction, q); Readable(width, height)
  {
    PartIsReadable(pane, direction == Right, q, (if direction == Right then pane.width else pane.height) * q);
  }

  /** Splitting the longer side on screen tiles no pane into strips: a readable pane splits into two
      readable panes, whatever it owes. */
  lemma SplitStaysReadable(pane: Pane, share: Option<real>)
    requires Readable(pane.width, pane.height)
    ensures var plan := PlanFor(pane, share);
            var (keptWidth, keptHeight) := Side(pane, plan.direction, plan.ratio);
            var (givenWidth, givenHeight) := Side(pane, plan.direction, 1.0 - plan.ratio);
            Readable(keptWidth, keptHeight) && Readable(givenWidth, givenHeight)
  {
    var owed, plan := SeatsOwed(pane, share), PlanFor(pane, share);
    RatioBounds(if owed < 2 then 2 else owed);
    SideIsReadable(pane, plan.direction, plan.ratio);
    SideIsReadable(pane, plan.direction, 1.0 - plan.ratio);
  }
}
