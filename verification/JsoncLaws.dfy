/** What comment stripping keeps, and exactly when the trailing-comma pass after it keeps strings. */
module JsoncLaws {
  import opened Jsonc
  import opened Spaces

  datatype Role = InCode | Opening | InText | InComment

  datatype Tagged = Tagged(ch: char, role: Role)

  function RoleOf(t: string, m: Mode): Role
    requires t != ""
  {
    if Comment(t, m) then InComment
    else if m == Text || m == Escape then InText
    else if m == Code && t[0] == '"' then Opening
    else InCode
  }

  /** Every character of `t` with the part it plays when `t` is read from mode `m` on. */
  function Tags(t: string, m: Mode): seq<Tagged> {
    if t == "" then [] else [Tagged(t[0], RoleOf(t, m))] + Tags(t[1..], Next(t, m))
  }

  function Kept(tags: seq<Tagged>): seq<Tagged> {
    if tags == [] then []
    else (if tags[0].role == InComment then [] else [tags[0]]) + Kept(tags[1..])
  }

  function Chars(tags: seq<Tagged>): string {
    seq(|tags|, i requires 0 <= i < |tags| => tags[i].ch)
  }

  /** A literal in progress and the literals after it, with one more character in front. */
  function Put(x: Tagged, rest: string, later: seq<string>): (string, seq<string>) {
    match x.role
    case InText => ([x.ch] + rest, later)
    case Opening => ("", [[x.ch] + rest] + later)
    case _ => ("", later)
  }

  /** The rest of the literal the tags start inside of, and the literals after it. */
  function Runs(tags: seq<Tagged>): (string, seq<string>) {
    if tags == [] then ("", []) else var (rest, later) := Runs(tags[1..]); Put(tags[0], rest, later)
  }

  /** The string literals of a JSONC text, quotes included. */
  function Literals(t: string): seq<string> {
    Runs(Tags(t, Code)).1
  }

  predicate InLiteral(m: Mode) {
    m == Text || m == Escape
  }

  /** Where the stripped text stands when the original stands in `m`. */
  function Settled(m: Mode): Mode {
    if InLiteral(m) then m else Code
  }

  // ---- the comment pass ----

  /** A slash that opens no comment does not come to stand before another by stripping. */
  lemma SlashStaysAlone(t: string, c: char)
    requires !Starts(t, '/') && !Starts(t, c)
    ensures !Starts(Clean(t, Code), c)
  {
  }

  lemma TagsCons(c: char, t: string, m: Mode)
    ensures Tags([c] + t, m) == [Tagged(c, RoleOf([c] + t, m))] + Tags(t, Next([c] + t, m))
  {
    assert ([c] + t)[1..] == t;
  }

  lemma KeptStep(t: string, m: Mode)
    requires t != ""
    ensures Kept(Tags(t, m)) ==
      (if Comment(t, m) then [] else [Tagged(t[0], RoleOf(t, m))]) + Kept(Tags(t[1..], Next(t, m)))
  {
    assert Tags(t, m)[1..] == Tags(t[1..], Next(t, m));
  }

  /** A character that is kept is read in the stripped text as in the original. */
  lemma KeptReadsAlike(t: string, m: Mode, rest: string)
    requires t != "" && !Comment(t, m) && rest == Clean(t[1..], Next(t, m))
    ensures RoleOf([t[0]] + rest, Settled(m)) == RoleOf(t, m)
    ensures Next([t[0]] + rest, Settled(m)) == Settled(Next(t, m))
  {
    assert ([t[0]] + rest)[1..] == rest;
    if m == Code && t[0] == '/' {
      SlashStaysAlone(t[1..], '/');
      SlashStaysAlone(t[1..], '*');
    }
  }

  lemma CleanStep(t: string, m: Mode)
    requires t != ""
    ensures var rest := Clean(t[1..], Next(t, m)); Clean(t, m) == if Comment(t, m) then rest else [t[0]] + rest
  {
  }

  /** The stripped text reads as the original does, comments left out: same characters, same parts. */
  lemma {:induction false} StrippedReadsAlike(t: string, m: Mode)
    ensures Tags(Clean(t, m), Settled(m)) == Kept(Tags(t, m))
  {
    if t == "" {
    } else {
      var rest := Clean(t[1..], Next(t, m));
      StrippedReadsAlike(t[1..], Next(t, m));
      KeptStep(t, m);
      CleanStep(t, m);
      if !Comment(t, m) {
        KeptReadsAlike(t, m, rest);
        TagsCons(t[0], rest, Settled(m));
      }
    }
  }

  lemma {:induction false} KeptIsKept(tags: seq<Tagged>)
    ensures forall x :: x in Kept(tags) <==> x in tags && x.role != InComment
    ensures (forall x :: x in tags ==> x.role != InComment) ==> Kept(tags) == tags
  {
    if tags == [] {
    } else {
      KeptIsKept(tags[1..]);
    }
  }

  lemma {:induction false} CleanIsKept(t: string, m: Mode)
    ensures Chars(Tags(t, m)) == t && Chars(Kept(Tags(t, m))) == Clean(t, m)
  {
    if t == "" {
    } else {
      CleanIsKept(t[1..], Next(t, m));
      KeptStep(t, m);
    }
  }

  /** No comment is left, and nothing but comments is gone. */
  lemma NoCommentLeft(t: string)
    ensures forall x :: x in Tags(Clean(t, Code), Code) ==> x.role != InComment
    ensures Clean(t, Code) == Chars(Kept(Tags(t, Code)))
  {
    StrippedReadsAlike(t, Code);
    KeptIsKept(Tags(t, Code));
    CleanIsKept(t, Code);
  }

  lemma CleanIsIdempotent(t: string)
    ensures Clean(Clean(t, Code), Code) == Clean(t, Code)
  {
    NoCommentLeft(t);
    KeptIsKept(Tags(Clean(t, Code), Code));
    CleanIsKept(Clean(t, Code), Code);
  }

  lemma {:induction false} NoRestOutside(t: string, m: Mode)
    requires !InLiteral(m)
    ensures Runs(Tags(t, m)).0 == ""
  {
    if t != "" { assert RoleOf(t, m) != InText; }
  }

  lemma RunsStep(s: string, m: Mode)
    requires s != ""
    ensures var (rest, later) := Runs(Tags(s[1..], Next(s, m)));
            Runs(Tags(s, m)) == Put(Tagged(s[0], RoleOf(s, m)), rest, later)
  {
    assert Tags(s, m)[1..] == Tags(s[1..], Next(s, m));
  }

  lemma {:induction false} RunsOfKept(t: string, m: Mode)
    ensures Runs(Kept(Tags(t, m))) == Runs(Tags(t, m))
  {
    if t == "" {
    } else {
      var n := Next(t, m);
      RunsOfKept(t[1..], n);
      KeptStep(t, m);
      RunsStep(t, m);
      if Comment(t, m) {
        NoRestOutside(t[1..], n);
        assert Kept(Tags(t, m)) == Kept(Tags(t[1..], n));
      } else {
        assert Kept(Tags(t, m))[1..] == Kept(Tags(t[1..], n));
      }
    }
  }

  /** Every string literal is copied unchanged, in order. */
  lemma CleanKeepsLiterals(t: string)
    ensures Literals(Clean(t, Code)) == Literals(t)
  {
    StrippedReadsAlike(t, Code);
    RunsOfKept(t, Code);
  }

  // ---- the trailing-comma pass ----

  predicate Bracket(c: char) {
    c == '}' || c == ']'
  }

  /** White space, then a closing bracket. */
  predicate Trails(s: string) {
    s != "" && (Bracket(s[0]) || (Space(s[0]) && Trails(s[1..])))
  }

  /** Deletes each comma that only white space separates from a closing bracket. */
  function Drop(s: string): string {
    if s == "" then "" else (if s[0] == ',' && Trails(s[1..]) then "" else s[..1]) + Drop(s[1..])
  }

  function DropAll(ss: seq<string>): seq<string> {
    seq(|ss|, i requires 0 <= i < |ss| => Drop(ss[i]))
  }

  ghost predicate HasTrailingComma(s: string) {
    exists i :: 0 <= i < |s| && s[i] == ',' && Trails(s[i + 1..])
  }

  /** `stripJsonc`: the comment pass, then the trailing commas. */
  method StripJsonc(text: string) returns (out: string)
    ensures out == Drop(Clean(text, Code))
  {
    out := StripBySkipping(text);
    out := Drop(out);
  }

  /** The next mode and the role are decided by the first character and whether a slash or a star
      follows. */
  lemma SameReading(s: string, t: string, m: Mode)
    requires s != "" && t != "" && s[0] == t[0]
    requires Starts(s[1..], '/') <==> Starts(t[1..], '/')
    requires Starts(s[1..], '*') <==> Starts(t[1..], '*')
    ensures Next(s, m) == Next(t, m) && RoleOf(s, m) == RoleOf(t, m)
  {
  }

  /** What a dropped comma stood before stays, and is no quote, backslash, slash or star. */
  lemma TrailStays(s: string)
    requires Trails(s)
    ensures Drop(s) != "" && Drop(s)[0] == s[0] && s[0] != '"' && s[0] != '\\' && s[0] != '/' && s[0] != '*'
  {
  }

  lemma DropStarts(s: string, c: char)
    requires c == '/' || c == '*'
    ensures Starts(Drop(s), c) <==> Starts(s, c)
  {
    if s != "" && s[0] == ',' && Trails(s[1..]) {
      assert Drop(s) == Drop(s[1..]);
      TrailStays(s[1..]);
    }
  }

  /** In a literal, white space and a bracket are followed from outside just when inside. */
  lemma {:induction false} TrailsInText(s: string)
    ensures Trails(Runs(Tags(s, Text)).0) <==> Trails(s)
  {
    if s == "" {
    } else {
      var rest := Runs(Tags(s[1..], Next(s, Text))).0;
      assert Tags(s, Text)[1..] == Tags(s[1..], Next(s, Text));
      assert Runs(Tags(s, Text)).0 == [s[0]] + rest;
      assert ([s[0]] + rest)[1..] == rest;
      if Space(s[0]) { TrailsInText(s[1..]); }
    }
  }

  /** The modes a reader can be in before `s`. */
  predicate Fits(s: string, m: Mode) {
    && (m == LineOpen || m == BlockClose ==> Starts(s, '/'))
    && (m == BlockOpen ==> Starts(s, '*'))
  }

  lemma DropCons(c: char, s: string)
    ensures Drop([c] + s) == if c == ',' && Trails(s) then Drop(s) else [c] + Drop(s)
  {
    assert ([c] + s)[1..] == s;
  }

  lemma DropAllCons(first: string, later: seq<string>)
    ensures DropAll([first] + later) == [Drop(first)] + DropAll(later)
  {
  }

  /** A character that ends no escape and opens nothing reads the same after a backslash. */
  lemma EscapeMakesNoDifference(s: string)
    requires s != "" && s[0] != '"' && s[0] != '\\'
    ensures Runs(Tags(s, Escape)) == Runs(Tags(s, Text))
  {
    RunsStep(s, Escape);
    RunsStep(s, Text);
  }

  lemma DropCommaInLiteral(s: string, rest: string, later: seq<string>)
    requires s != "" && s[0] == ',' && Trails(s[1..])
    requires (rest, later) == Runs(Tags(s[1..], Text))
    requires Runs(Tags(Drop(s[1..]), Text)) == (Drop(rest), DropAll(later))
    ensures Drop([','] + rest) == Drop(rest)
    ensures Runs(Tags(Drop(s), Text)) == Runs(Tags(Drop(s), Escape)) == (Drop(rest), DropAll(later))
  {
    TrailsInText(s[1..]);
    DropCons(',', rest);
    TrailStays(s[1..]);
    assert Drop(s) == Drop(s[1..]);
    EscapeMakesNoDifference(Drop(s));
  }

  lemma CommaMoves(s: string, m: Mode)
    requires s != "" && s[0] == ',' && Fits(s, m)
    ensures if InLiteral(m) then Next(s, m) == Text && RoleOf(s, m) == InText
            else Next(s, m) == m && (RoleOf(s, m) == InCode || RoleOf(s, m) == InComment)
  {
  }

  lemma DropComma(s: string, m: Mode)
    requires s != "" && s[0] == ',' && Trails(s[1..]) && Fits(s, m)
    requires var (rest, later) := Runs(Tags(s[1..], Next(s, m)));
      Runs(Tags(Drop(s[1..]), Next(s, m))) == (Drop(rest), DropAll(later))
    ensures var (rest, later) := Runs(Tags(s, m)); Runs(Tags(Drop(s), m)) == (Drop(rest), DropAll(later))
  {
    var (rest, later) := Runs(Tags(s[1..], Next(s, m)));
    RunsStep(s, m);
    CommaMoves(s, m);
    assert Drop(s) == Drop(s[1..]);
    if InLiteral(m) { DropCommaInLiteral(s, rest, later); } else { NoRestOutside(s[1..], m); }
  }

  lemma PutDropped(x: Tagged, rest: string, later: seq<string>)
    requires x.role == InText && x.ch == ',' ==> !Trails(rest)
    requires x.role == Opening ==> x.ch == '"'
    ensures var (r, l) := Put(x, rest, later); Put(x, Drop(rest), DropAll(later)) == (Drop(r), DropAll(l))
  {
    DropCons(x.ch, rest);
    DropAllCons([x.ch] + rest, later);
    assert Drop("") == "";
  }

  /** A character that stays is read after the pass as it was before. */
  lemma KeptAlike(s: string, m: Mode)
    requires s != "" && !(s[0] == ',' && Trails(s[1..]))
    ensures var d := Drop(s);
      && d != "" && d[0] == s[0] && d[1..] == Drop(s[1..])
      && Next(d, m) == Next(s, m) && RoleOf(d, m) == RoleOf(s, m)
  {
    var d := Drop(s);
    assert d == [s[0]] + Drop(s[1..]) && d[1..] == Drop(s[1..]);
    DropStarts(s[1..], '/');
    DropStarts(s[1..], '*');
    SameReading(s, d, m);
  }

  lemma KeepCharacter(s: string, m: Mode)
    requires s != "" && !(s[0] == ',' && Trails(s[1..]))
    requires var (rest, later) := Runs(Tags(s[1..], Next(s, m)));
      Runs(Tags(Drop(s[1..]), Next(s, m))) == (Drop(rest), DropAll(later))
    ensures var (rest, later) := Runs(Tags(s, m)); Runs(Tags(Drop(s), m)) == (Drop(rest), DropAll(later))
  {
    var (rest, later) := Runs(Tags(s[1..], Next(s, m)));
    RunsStep(s, m);
    KeptAlike(s, m);
    RunsStep(Drop(s), m);
    if s[0] == ',' && InLiteral(m) { TrailsInText(s[1..]); }
    PutDropped(Tagged(s[0], RoleOf(s, m)), rest, later);
  }

  lemma {:induction false} DropActsOnEachLiteral(s: string, m: Mode)
    requires Fits(s, m)
    ensures var (rest, later) := Runs(Tags(s, m)); Runs(Tags(Drop(s), m)) == (Drop(rest), DropAll(later))
  {
    if s == "" {
      assert DropAll([]) == [];
    } else {
      assert Fits(s[1..], Next(s, m));
      DropActsOnEachLiteral(s[1..], Next(s, m));
      if s[0] == ',' && Trails(s[1..]) { DropComma(s, m); } else { KeepCharacter(s, m); }
    }
  }

  lemma {:induction false} DropShortens(s: string)
    ensures |Drop(s)| <= |s|
    ensures Drop(s) == s <==> !HasTrailingComma(s)
  {
    if s == "" {
    } else {
      DropShortens(s[1..]);
      if s[0] == ',' && Trails(s[1..]) {
        assert s[0 + 1..] == s[1..];
        assert HasTrailingComma(s);
      } else {
        TrailingTail(s);
        assert Drop(s)[1..] == Drop(s[1..]);
      }
    }
  }

  lemma TrailingTail(s: string)
    requires s != "" && !(s[0] == ',' && Trails(s[1..]))
    ensures HasTrailingComma(s) <==> HasTrailingComma(s[1..])
  {
    if HasTrailingComma(s) {
      var i :| 0 <= i < |s| && s[i] == ',' && Trails(s[i + 1..]);
      assert s[1..][i - 1..][1..] == s[i + 1..];
      assert s[1..][i - 1] == ',' && s[1..][i - 1 + 1..] == s[i + 1..];
    }
    if HasTrailingComma(s[1..]) {
      var i :| 0 <= i < |s[1..]| && s[1..][i] == ',' && Trails(s[1..][i + 1..]);
      assert s[i + 1] == ',' && s[i + 1 + 1..] == s[1..][i + 1..];
    }
  }

  /** `stripJsonc` keeps every string literal exactly when none holds a comma before a closing
      bracket, white space aside; otherwise just those commas are lost. */
  lemma LiteralsKeptExactly(text: string)
    ensures Literals(Drop(Clean(text, Code))) == DropAll(Literals(text))
    ensures Literals(Drop(Clean(text, Code))) == Literals(text)
       <==> forall s :: s in Literals(text) ==> !HasTrailingComma(s)
  {
    CleanKeepsLiterals(text);
    DropActsOnEachLiteral(Clean(text, Code), Code);
    var ls := Literals(text);
    forall s | s in ls ensures Drop(s) == s <==> !HasTrailingComma(s) { DropShortens(s); }
    if DropAll(ls) == ls {
      forall s | s in ls ensures !HasTrailingComma(s) {
        var i :| 0 <= i < |ls| && ls[i] == s;
        assert DropAll(ls)[i] == Drop(ls[i]);
      }
    }
    if forall s :: s in ls ==> !HasTrailingComma(s) {
      forall i | 0 <= i < |ls| ensures DropAll(ls)[i] == ls[i] { assert ls[i] in ls; }
      assert DropAll(ls) == ls;
    }
  }

  lemma RestOf(c: char, s: string)
    requires c != '\\'
    ensures var n := if c == '"' then Code else Text;
            Runs(Tags([c] + s, Text)) == ([c] + Runs(Tags(s, n)).0, Runs(Tags(s, n)).1)
  {
    assert ([c] + s)[1..] == s;
    RunsStep([c] + s, Text);
  }

  lemma ReadCommaString()
    ensures Literals(['"', ',', ']', '"']) == [['"', ',', ']', '"']]
  {
    var end := ['"'] + [];
    var body := [','] + ([']'] + end);
    RestOf('"', []);
    RestOf(']', end);
    RestOf(',', [']'] + end);
    assert Runs(Tags(body, Text)) == (body, []);
    RunsStep(['"'] + body, Code);
    assert (['"'] + body)[1..] == body;
    assert ['"'] + body == ['"', ',', ']', '"'];
  }

  lemma DropCommaString()
    ensures Drop(['"', ',', ']', '"']) == ['"', ']', '"']
  {
    var end := ['"'] + [];
    DropCons('"', []);
    DropCons(']', end);
    DropCons(',', [']'] + end);
    DropCons('"', [','] + ([']'] + end));
    assert ['"'] + ([','] + ([']'] + end)) == ['"', ',', ']', '"'];
  }

  /** A comma inside a string is not always preserved: the string `,]` loses it. */
  lemma CommaInStringLost()
    ensures Literals(['"', ',', ']', '"']) == [['"', ',', ']', '"']]
    ensures Literals(Drop(Clean(['"', ',', ']', '"'], Code))) == [['"', ']', '"']]
  {
    var t := ['"', ',', ']', '"'];
    ReadCommaString();
    LiteralsKeptExactly(t);
    DropCommaString();
    assert DropAll([t]) == [Drop(t)];
  }

  // ---- which commas go ----

  /** From `i` on, white space up to a closing brace or bracket at `j`. */
  ghost predicate ClosesAt(s: string, i: nat, j: nat) {
    i <= j < |s| && (s[j] == '}' || s[j] == ']') && forall k :: i <= k < j ==> Space(s[k])
  }

  ghost predicate Closes(s: string, i: nat) {
    exists j: nat :: ClosesAt(s, i, j)
  }

  /** A comma that only white space separates from a closing brace or bracket. */
  ghost predicate Dangling(s: string, i: nat) {
    i < |s| && s[i] == ',' && Closes(s, i + 1)
  }

  /** From `i` on, the text without such commas. */
  ghost function Undangled(s: string, i: nat): string
    requires i <= |s|
    decreases |s| - i
  {
    if i == |s| then "" else (if Dangling(s, i) then "" else [s[i]]) + Undangled(s, i + 1)
  }

  lemma ClosesOnward(s: string, i: nat, n: nat)
    requires i < |s| && n == i + 1
    ensures Closes(s, i) <==> s[i] == '}' || s[i] == ']' || (Space(s[i]) && Closes(s, n))
  {
    if s[i] == '}' || s[i] == ']' { assert ClosesAt(s, i, i); }
    if j: nat :| ClosesAt(s, i, j) { assert j == i || ClosesAt(s, n, j); }
    if Space(s[i]) && Closes(s, n) {
      var j: nat :| ClosesAt(s, n, j);
      assert ClosesAt(s, i, j);
    }
  }

  lemma {:induction false} TrailsExactly(s: string, i: nat)
    requires i <= |s|
    ensures Trails(s[i..]) <==> Closes(s, i)
    decreases |s| - i
  {
    if i < |s| {
      assert s[i..][0] == s[i] && s[i..][1..] == s[i + 1..];
      TrailsExactly(s, i + 1);
      ClosesOnward(s, i, i + 1);
    }
  }

  lemma {:induction false} DropFrom(s: string, i: nat)
    requires i <= |s|
    ensures Drop(s[i..]) == Undangled(s, i)
    decreases |s| - i
  {
    if i < |s| {
      assert s[i..][0] == s[i] && s[i..][1..] == s[i + 1..] && s[i..][..1] == [s[i]];
      DropFrom(s, i + 1);
      TrailsExactly(s, i + 1);
    }
  }

  /** `stripJsonc` leaves out exactly the comments and then the commas before a closing brace or bracket. */
  lemma DropsDanglingCommas(text: string)
    ensures Drop(Clean(text, Code)) == Undangled(Clean(text, Code), 0)
  {
    var s := Clean(text, Code);
    assert s[0..] == s;
    DropFrom(s, 0);
  }
}
