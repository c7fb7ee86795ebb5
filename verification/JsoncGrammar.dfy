/** JSONC cut into pieces by its grammar, without reading modes: what the strippers mean. */
module JsoncGrammar {
  import opened Jsonc
  import opened JsoncLaws
  import opened Ordering

  datatype BodyChar = Bare(c: char) | Escaped(c: char)

  /** How a literal ends: with its quote, or with the text, perhaps after a lone backslash. */
  datatype Ending = Quote | EndOfText | LoneBackslash

  datatype Piece =
    | Literal(body: seq<BodyChar>, ending: Ending)
    | LineComment(text: string)
    | BlockComment(text: string, closed: bool)
    | Plain(c: char)

  function CharText(b: BodyChar): string {
    match b
    case Bare(c) => [c]
    case Escaped(c) => ['\\', c]
  }

  function BodyText(body: seq<BodyChar>): string {
    if body == [] then "" else CharText(body[0]) + BodyText(body[1..])
  }

  function EndText(ending: Ending): string {
    match ending
    case Quote => ['"']
    case EndOfText => ""
    case LoneBackslash => ['\\']
  }

  function Render(p: Piece): string {
    match p
    case Literal(body, ending) => ['"'] + (BodyText(body) + EndText(ending))
    case LineComment(text) => ['/', '/'] + text
    case BlockComment(text, closed) => ['/', '*'] + (text + if closed then ['*', '/'] else "")
    case Plain(c) => [c]
  }

  function TextOf(pieces: seq<Piece>): string {
    if pieces == [] then "" else Render(pieces[0]) + TextOf(pieces[1..])
  }

  predicate NoClose(text: string) {
    forall i :: 0 <= i < |text| - 1 ==> !(text[i] == '*' && text[i + 1] == '/')
  }

  predicate Bodily(body: seq<BodyChar>) {
    forall i :: 0 <= i < |body| ==> Ordinary(body[i])
  }

  /** `p` can stand before the text `rest`. */
  predicate Stands(p: Piece, rest: string) {
    match p
    case Literal(body, ending) => Bodily(body) && (ending != Quote ==> rest == "")
    case LineComment(text) => '\n' !in text && (rest == "" || Starts(rest, '\n'))
    case BlockComment(text, closed) => NoClose(text) && (!closed ==> rest == "")
    case Plain(c) => c != '"' && (c == '/' ==> !Starts(rest, '/') && !Starts(rest, '*'))
  }

  predicate Grammatical(pieces: seq<Piece>) {
    pieces == [] || (Stands(pieces[0], TextOf(pieces[1..])) && Grammatical(pieces[1..]))
  }

  predicate IsComment(p: Piece) {
    p.LineComment? || p.BlockComment?
  }

  function WithoutComments(pieces: seq<Piece>): seq<Piece> {
    if pieces == [] then [] else (if IsComment(pieces[0]) then [] else [pieces[0]]) + WithoutComments(pieces[1..])
  }

  function LiteralTexts(pieces: seq<Piece>): seq<string> {
    if pieces == [] then []
    else (if pieces[0].Literal? then [Render(pieces[0])] else []) + LiteralTexts(pieces[1..])
  }

  // ---- every text has a grammatical cut ----

  lemma BodyCons(first: BodyChar, more: seq<BodyChar>, end: string, rest: string)
    ensures BodyText([first] + more) + end + rest == CharText(first) + (BodyText(more) + end + rest)
    ensures Bodily([first] + more) <==> Ordinary(first) && Bodily(more)
  {
    assert ([first] + more)[1..] == more;
    Regroup(CharText(first), BodyText(more), end);
    Regroup(CharText(first), BodyText(more) + end, rest);
    assert forall i :: 0 <= i < |more| ==> ([first] + more)[i + 1] == more[i];
  }

  lemma CutBody(t: string) returns (body: seq<BodyChar>, ending: Ending, rest: string)
    ensures Bodily(body) && (ending != Quote ==> rest == "")
    ensures t == BodyText(body) + EndText(ending) + rest && |rest| <= |t|
  {
    if t == "" {
      body, ending, rest := [], EndOfText, "";
    } else if t[0] == '"' {
      body, ending, rest := [], Quote, t[1..];
    } else if t[0] == '\\' && |t| == 1 {
      body, ending, rest := [], LoneBackslash, "";
    } else {
      var first := if t[0] == '\\' then Escaped(t[1]) else Bare(t[0]);
      var tail := if t[0] == '\\' then t[2..] else t[1..];
      var more;
      more, ending, rest := CutBody(tail);
      body := [first] + more;
      assert t == CharText(first) + tail;
      BodyCons(first, more, EndText(ending), rest);
    }
  }

  lemma CutLine(t: string) returns (text: string, rest: string)
    ensures '\n' !in text && (rest == "" || Starts(rest, '\n')) && t == text + rest
  {
    if t == "" || t[0] == '\n' {
      text, rest := "", t;
    } else {
      text, rest := CutLine(t[1..]);
      text := [t[0]] + text;
    }
  }

  lemma CutBlock(t: string) returns (text: string, closed: bool, rest: string)
    ensures NoClose(text) && (!closed ==> rest == "") && |rest| <= |t|
    ensures t == text + (if closed then ['*', '/'] else "") + rest
  {
    if t == "" {
      text, closed, rest := "", false, "";
    } else if t[0] == '*' && Starts(t[1..], '/') {
      text, closed, rest := "", true, t[2..];
    } else {
      var more;
      more, closed, rest := CutBlock(t[1..]);
      text := [t[0]] + more;
      if more != "" { assert t[1] == more[0]; }
      assert forall i :: 0 < i < |text| - 1 ==> text[i] == more[i - 1] && text[i + 1] == more[i];
    }
  }

  lemma CutFirst(t: string) returns (p: Piece, rest: string)
    requires t != ""
    ensures t == Render(p) + rest && Stands(p, rest) && |rest| < |t|
  {
    if t[0] == '"' {
      var body, ending;
      body, ending, rest := CutBody(t[1..]);
      p := Literal(body, ending);
    } else if t[0] == '/' && Starts(t[1..], '/') {
      var text;
      text, rest := CutLine(t[2..]);
      p := LineComment(text);
    } else if t[0] == '/' && Starts(t[1..], '*') {
      var text, closed;
      text, closed, rest := CutBlock(t[2..]);
      p := BlockComment(text, closed);
    } else {
      p, rest := Plain(t[0]), t[1..];
    }
  }

  /** Every text is cut into pieces by the grammar. */
  lemma {:induction false} EveryTextHasACut(t: string) returns (pieces: seq<Piece>)
    ensures Grammatical(pieces) && TextOf(pieces) == t
    decreases |t|
  {
    if t == "" {
      pieces := [];
    } else {
      var p, rest := CutFirst(t);
      var more := EveryTextHasACut(rest);
      pieces := [p] + more;
      assert pieces[1..] == more;
    }
  }

  // ---- stripping is dropping the comment pieces ----

  lemma CleanCons(c: char, t: string, m: Mode)
    ensures Clean([c] + t, m) == (if Comment([c] + t, m) then "" else [c]) + Clean(t, Next([c] + t, m))
  {
    assert ([c] + t)[1..] == t && ([c] + t)[..1] == [c];
  }

  predicate Ordinary(b: BodyChar) {
    b.Bare? ==> b.c != '"' && b.c != '\\'
  }

  lemma CleanBodyChar(b: BodyChar, tail: string)
    requires Ordinary(b)
    ensures Clean(CharText(b) + tail, Text) == CharText(b) + Clean(tail, Text)
  {
    match b
    case Bare(c) => CleanCons(c, tail, Text);
    case Escaped(c) =>
      assert CharText(b) + tail == ['\\'] + ([c] + tail);
      CleanCons('\\', [c] + tail, Text);
      CleanCons(c, tail, Escape);
  }

  lemma {:induction false} CleanBody(body: seq<BodyChar>, rest: string)
    requires Bodily(body)
    ensures Clean(BodyText(body) + rest, Text) == BodyText(body) + Clean(rest, Text)
  {
    if body == [] {
      assert BodyText(body) + rest == rest;
    } else {
      var more := BodyText(body[1..]);
      CleanBody(body[1..], rest);
      Regroup(CharText(body[0]), more, rest);
      CleanBodyChar(body[0], more + rest);
      Regroup(CharText(body[0]), more, Clean(rest, Text));
    }
  }

  lemma {:induction false} CleanLine(text: string, rest: string)
    requires '\n' !in text
    ensures Clean(text + rest, Line) == Clean(rest, Line)
  {
    if text == "" {
      assert text + rest == rest;
    } else {
      CleanLine(text[1..], rest);
      assert text + rest == [text[0]] + (text[1..] + rest);
      CleanCons(text[0], text[1..] + rest, Line);
    }
  }

  lemma {:induction false} CleanBlock(text: string, closed: bool, rest: string)
    requires NoClose(text) && (!closed ==> rest == "")
    ensures Clean(text + (if closed then ['*', '/'] else "") + rest, Block) == Clean(rest, Code)
  {
    var close := if closed then ['*', '/'] else "";
    if text == "" {
      assert text + close + rest == close + rest;
      CleanClose(closed, rest);
    } else {
      var tail := text[1..] + close + rest;
      CleanBlock(text[1..], closed, rest);
      assert text + close + rest == [text[0]] + tail;
      CleanCons(text[0], tail, Block);
      assert text[0] == '*' ==> !Starts(tail, '/') by { if |text| > 1 { assert tail[0] == text[1]; } }
    }
  }

  lemma CleanClose(closed: bool, rest: string)
    requires !closed ==> rest == ""
    ensures Clean((if closed then ['*', '/'] else "") + rest, Block) == Clean(rest, Code)
  {
    if closed {
      assert ['*', '/'] + rest == ['*'] + (['/'] + rest);
      CleanCons('*', ['/'] + rest, Block);
      CleanCons('/', rest, BlockClose);
    }
  }

  lemma CleanEnd(ending: Ending, rest: string)
    requires ending != Quote ==> rest == ""
    ensures Clean(EndText(ending) + rest, Text) == EndText(ending) + Clean(rest, Code)
  {
    match ending
    case Quote => CleanCons('"', rest, Text);
    case EndOfText => assert EndText(ending) + rest == "";
    case LoneBackslash => CleanCons('\\', "", Text); assert EndText(ending) + rest == ['\\'] + "";
  }

  lemma CleanLiteral(body: seq<BodyChar>, ending: Ending, rest: string)
    requires Stands(Literal(body, ending), rest)
    ensures var p := Literal(body, ending); Clean(Render(p) + rest, Code) == Render(p) + Clean(rest, Code)
  {
    var end := EndText(ending);
    LiteralThen(body, ending, rest);
    CleanCons('"', BodyText(body) + (end + rest), Code);
    CleanBody(body, end + rest);
    CleanEnd(ending, rest);
    LiteralThen(body, ending, Clean(rest, Code));
  }

  lemma LiteralThen(body: seq<BodyChar>, ending: Ending, rest: string)
    ensures Render(Literal(body, ending)) + rest == ['"'] + (BodyText(body) + (EndText(ending) + rest))
  {
    Regroup(BodyText(body), EndText(ending), rest);
    Regroup(['"'], BodyText(body) + EndText(ending), rest);
  }

  lemma CleanComment(p: Piece, rest: string)
    requires IsComment(p) && Stands(p, rest)
    ensures Clean(Render(p) + rest, Code) == Clean(rest, Code)
  {
    match p
    case LineComment(text) =>
      assert Render(p) + rest == ['/'] + (['/'] + (text + rest));
      CleanCons('/', ['/'] + (text + rest), Code);
      CleanCons('/', text + rest, LineOpen);
      CleanLine(text, rest);
    case BlockComment(text, closed) =>
      var inner := text + (if closed then ['*', '/'] else "") + rest;
      assert Render(p) + rest == ['/'] + (['*'] + inner);
      CleanCons('/', ['*'] + inner, Code);
      CleanCons('*', inner, BlockOpen);
      CleanBlock(text, closed, rest);
  }

  /** For every text and every way the grammar cuts it: the strippers return its pieces other than
      comments, untouched and in order. */
  lemma {:induction false} CleanDropsCommentPieces(pieces: seq<Piece>)
    requires Grammatical(pieces)
    ensures Clean(TextOf(pieces), Code) == TextOf(WithoutComments(pieces))
  {
    if pieces == [] {
    } else {
      var p, rest := pieces[0], TextOf(pieces[1..]);
      CleanDropsCommentPieces(pieces[1..]);
      var kept := WithoutComments(pieces[1..]);
      if IsComment(p) {
        CleanComment(p, rest);
        assert WithoutComments(pieces) == kept;
      } else {
        assert WithoutComments(pieces)[1..] == kept;
        if p.Literal? { CleanLiteral(p.body, p.ending, rest); } else { CleanCons(p.c, rest, Code); }
      }
    }
  }

  // ---- literals are the literal pieces ----

  lemma RunsCons(c: char, t: string, m: Mode)
    ensures var (rest, later) := Runs(Tags(t, Next([c] + t, m)));
            Runs(Tags([c] + t, m)) == Put(Tagged(c, RoleOf([c] + t, m)), rest, later)
  {
    assert ([c] + t)[1..] == t;
    RunsStep([c] + t, m);
  }

  lemma RunsBodyChar(b: BodyChar, tail: string)
    requires Ordinary(b)
    ensures var (rest, later) := Runs(Tags(tail, Text));
            Runs(Tags(CharText(b) + tail, Text)) == (CharText(b) + rest, later)
  {
    match b
    case Bare(c) => RunsCons(c, tail, Text);
    case Escaped(c) =>
      assert CharText(b) + tail == ['\\'] + ([c] + tail);
      RunsCons('\\', [c] + tail, Text);
      RunsCons(c, tail, Escape);
      Regroup(['\\'], [c], Runs(Tags(tail, Text)).0);
      assert ['\\'] + [c] == CharText(b);
  }

  lemma {:induction false} RunsBody(body: seq<BodyChar>, t: string)
    requires Bodily(body)
    ensures var (rest, later) := Runs(Tags(t, Text));
            Runs(Tags(BodyText(body) + t, Text)) == (BodyText(body) + rest, later)
  {
    if body == [] {
      assert BodyText(body) + t == t && BodyText(body) + Runs(Tags(t, Text)).0 == Runs(Tags(t, Text)).0;
    } else {
      var more := BodyText(body[1..]);
      RunsBody(body[1..], t);
      Regroup(CharText(body[0]), more, t);
      RunsBodyChar(body[0], more + t);
      Regroup(CharText(body[0]), more, Runs(Tags(t, Text)).0);
    }
  }

  lemma RunsEnd(ending: Ending, rest: string)
    requires ending != Quote ==> rest == ""
    ensures Runs(Tags(EndText(ending) + rest, Text)) == (EndText(ending), Literals(rest))
  {
    NoRestOutside(rest, Code);
    match ending
    case Quote => RunsCons('"', rest, Text); assert ['"'] + "" == ['"'];
    case EndOfText => assert EndText(ending) + rest == "";
    case LoneBackslash =>
      assert EndText(ending) + rest == ['\\'] + "" && ['\\'] + "" == ['\\'];
      assert Runs(Tags("", Escape)) == ("", []);
      RunsCons('\\', "", Text);
  }

  lemma RunsLiteral(body: seq<BodyChar>, ending: Ending, rest: string)
    requires Stands(Literal(body, ending), rest)
    ensures var p := Literal(body, ending); Literals(Render(p) + rest) == [Render(p)] + Literals(rest)
  {
    var inner := BodyText(body) + (EndText(ending) + rest);
    assert Render(Literal(body, ending)) + rest == ['"'] + inner;
    RunsCons('"', inner, Code);
    RunsBody(body, EndText(ending) + rest);
    RunsEnd(ending, rest);
  }

  /** The literals of a text are its literal pieces, in order. */
  lemma {:induction false} LiteralsAreLiteralPieces(pieces: seq<Piece>)
    requires Grammatical(pieces)
    ensures Literals(TextOf(pieces)) == LiteralTexts(pieces)
  {
    if pieces == [] {
    } else {
      var p, rest := pieces[0], TextOf(pieces[1..]);
      LiteralsAreLiteralPieces(pieces[1..]);
      if p.Literal? {
        RunsLiteral(p.body, p.ending, rest);
      } else if p.Plain? {
        RunsCons(p.c, rest, Code);
      } else {
        CommentHoldsNoLiteral(p, rest);
      }
    }
  }

  lemma CommentHoldsNoLiteral(p: Piece, rest: string)
    requires IsComment(p) && Stands(p, rest)
    ensures Literals(Render(p) + rest) == Literals(rest)
  {
    CleanComment(p, rest);
    CleanKeepsLiterals(Render(p) + rest);
    CleanKeepsLiterals(rest);
  }
}
