/** The payload walk: every real file of the repository reachable from a path, over a file system whose
    symbolic links may form any graph. */
module PortableFiles {

  /** Where a path leads once every link is followed: a real path, or nothing (a dangling link). */
  datatype Target = Nowhere | Real(path: string)

  datatype Node = File | Directory(entries: seq<Target>)

  /** Real paths and what is there. */
  type FileSystem = map<string, Node>

  /** Every entry that resolves, resolves to something that is there. */
  ghost predicate Sound(fs: FileSystem) {
    forall d :: d in fs && fs[d].Directory? ==> forall t :: t in fs[d].entries && t.Real? ==> t.path in fs
  }

  // ---- staying inside the repository ----

  predicate StartsWith(s: string, prefix: string) {
    prefix <= s
  }

  /** `within`, for two real paths. */
  predicate Within(root: string, candidate: string) {
    candidate == root
    || StartsWith(candidate, if root != [] && root[|root| - 1] == '/' then root else root + "/")
  }

  /** A path component: not empty, no separator. */
  ghost predicate Component(c: string) {
    c != [] && '/' !in c
  }

  ghost function Slashed(components: seq<string>): string {
    if components == [] then [] else ['/'] + components[0] + Slashed(components[1..])
  }

  /** The real path with these components. */
  ghost function Rendered(components: seq<string>): string {
    if components == [] then "/" else Slashed(components)
  }

  /** What stands before the first separator. */
  ghost function Stem(s: string): string {
    if s == [] || s[0] == '/' then [] else [s[0]] + Stem(s[1..])
  }

  lemma {:induction false} StemOf(a: string, rest: string)
    requires '/' !in a && (rest == [] || rest[0] == '/')
    ensures Stem(a + rest) == a
  {
    if a == [] {
      assert a + rest == rest;
    } else {
      assert (a + rest)[1..] == a[1..] + rest;
      StemOf(a[1..], rest);
    }
  }

  lemma {:induction false} StemOfPrefix(x: string, y: string)
    requires x <= y && |Stem(x)| < |x|
    ensures Stem(x) == Stem(y)
  {
    if x[0] != '/' { StemOfPrefix(x[1..], y[1..]); }
  }

  lemma PrefixAfter(p: string, s: string, t: string)
    ensures p + s <= p + t <==> s <= t
  {
    assert (p + s)[|p|..] == s && (p + t)[|p|..] == t;
    if p + s <= p + t { assert (p + t)[..|p + s|][|p|..] == t[..|s|]; }
    if s <= t { assert (p + t)[..|p + s|] == p + t[..|s|]; }
  }

  /** A component ends where the next separator stands. */
  lemma ComponentEnds(a: string, b: string, restA: string, restB: string)
    requires Component(a) && Component(b) && restA != [] && restA[0] == '/' && (restB == [] || restB[0] == '/')
    requires a + restA <= b + restB
    ensures a == b && restA <= restB
  {
    StemOf(a, restA);
    StemOf(b, restB);
    StemOfPrefix(a + restA, b + restB);
    PrefixAfter(a, restA, restB);
  }

  lemma StepDown(a: string, b: string, restA: string, restB: string)
    requires Component(a) && Component(b) && restA != [] && restA[0] == '/' && (restB == [] || restB[0] == '/')
    ensures "/" + (a + restA) <= "/" + (b + restB) <==> a == b && restA <= restB
  {
    PrefixAfter("/", a + restA, b + restB);
    if a + restA <= b + restB { ComponentEnds(a, b, restA, restB); }
    if a == b { PrefixAfter(a, restA, restB); }
  }

  lemma SlashedFirst(c: seq<string>)
    requires c != []
    ensures Slashed(c) == "/" + (c[0] + Slashed(c[1..]))
    ensures Slashed(c) + "/" == "/" + (c[0] + (Slashed(c[1..]) + "/"))
    ensures Slashed(c)[0] == '/'
  {
  }

  lemma {:induction false} SlashedPrefix(r: seq<string>, c: seq<string>)
    requires forall x :: x in r ==> Component(x)
    requires forall x :: x in c ==> Component(x)
    ensures Slashed(r) + "/" <= Slashed(c) <==> r < c
  {
    if c != [] { SlashedFirst(c); }
    if r == [] {
      assert Slashed(r) + "/" == "/";
    } else if c != [] {
      assert r[0] in r && c[0] in c;
      assert forall x :: x in r[1..] ==> x in r;
      assert forall x :: x in c[1..] ==> x in c;
      SlashedPrefix(r[1..], c[1..]);
      SlashedFirst(r);
      if r[1..] != [] { SlashedFirst(r[1..]); }
      if c[1..] != [] { SlashedFirst(c[1..]); }
      StepDown(r[0], c[0], Slashed(r[1..]) + "/", Slashed(c[1..]));
      assert r == [r[0]] + r[1..] && c == [c[0]] + c[1..];
    }
  }

  lemma {:induction false} SlashedInjective(r: seq<string>, c: seq<string>)
    requires forall x :: x in r ==> Component(x)
    requires forall x :: x in c ==> Component(x)
    requires Slashed(r) == Slashed(c)
    ensures r == c
  {
    if r != [] && c != [] {
      assert r[0] in r && c[0] in c;
      assert forall x :: x in r[1..] ==> x in r;
      assert forall x :: x in c[1..] ==> x in c;
      var restR, restC := Slashed(r[1..]) + "/", Slashed(c[1..]) + "/";
      assert Slashed(r) + "/" == ['/'] + (r[0] + restR);
      assert Slashed(c) + "/" == ['/'] + (c[0] + restC);
      assert r[0] + restR == (Slashed(r) + "/")[1..] == c[0] + restC;
      ComponentEnds(r[0], c[0], restR, restC);
      assert Slashed(r[1..]) == restR[..|restR| - 1] && Slashed(c[1..]) == restC[..|restC| - 1];
      SlashedInjective(r[1..], c[1..]);
    }
  }

  /** `within` means exactly that the candidate lies in the tree below the root: its components begin
      with the root's. A sibling whose name merely begins with the root's name is outside. */
  lemma WithinIsBelow(r: seq<string>, c: seq<string>)
    requires forall x :: x in r ==> Component(x)
    requires forall x :: x in c ==> Component(x)
    ensures Within(Rendered(r), Rendered(c)) <==> r <= c
  {
    if r == [] {
      assert Rendered(c)[0] == '/';
    } else {
      SlashedEnds(r);
      SlashedPrefix(r, c);
      if c != [] && Slashed(r) == Slashed(c) { SlashedInjective(r, c); }
      assert r <= c <==> r < c || r == c;
      assert |Slashed(r)| >= 2;
    }
  }

  lemma {:induction false} SlashedEnds(r: seq<string>)
    requires r != [] && forall x :: x in r ==> Component(x)
    ensures |Slashed(r)| >= 2 && Slashed(r)[|Slashed(r)| - 1] != '/'
  {
    assert r[0] in r;
    if |r| > 1 {
      assert forall x :: x in r[1..] ==> x in r;
      SlashedEnds(r[1..]);
    } else {
      assert Slashed(r) == ['/'] + r[0];
      assert r[0][|r[0]| - 1] in r[0];
    }
  }
}
