/** The two JSONC comment strippers, written independently, and the one text function they compute. */
module Jsonc {
  import opened Ordering

  /** Where a reader stands: in code, in a string literal (after a backslash: `Escape`), or in one of
      the parts of a comment. */
  datatype Mode = Code | Text | Escape | LineOpen | Line | BlockOpen | Block | BlockClose

  predicate Starts(t: string, c: char) {
    t != "" && t[0] == c
  }

  /** The mode after the first character of `t`, which is read in mode `m`. */
  function Next(t: string, m: Mode): Mode
    requires t != ""
  {
    match m
    case Code =>
      if t[0] == '"' then Text
      else if t[0] == '/' && Starts(t[1..], '/') then LineOpen
      else if t[0] == '/' && Starts(t[1..], '*') then BlockOpen
      else Code
    case Text => if t[0] == '\\' then Escape else if t[0] == '"' then Code else Text
    case Escape => Text
    case LineOpen => Line
    case Line => if t[0] == '\n' then Code else Line
    case BlockOpen => Block
    case Block => if t[0] == '*' && Starts(t[1..], '/') then BlockClose else Block
    case BlockClose => Code
  }

  /** The first character of `t` belongs to a comment. The newline that ends one does not. */
  predicate Comment(t: string, m: Mode)
    requires t != ""
  {
    match m
    case Code => t[0] == '/' && (Starts(t[1..], '/') || Starts(t[1..], '*'))
    case Line => t[0] != '\n'
    case Text | Escape => false
    case LineOpen | BlockOpen | Block | BlockClose => true
  }

  /** `t`, read from mode `m` on, without its comments. */
  function Clean(t: string, m: Mode): string {
    if t == "" then "" else (if Comment(t, m) then "" else t[..1]) + Clean(t[1..], Next(t, m))
  }

  /** The output and the mode of a stripper that has read `i` characters. */
  ghost function Progress(text: string, i: nat): (string, Mode)
    requires i <= |text|
  {
    if i == 0 then ("", Code)
    else
      var (out, m) := Progress(text, i - 1);
      var t := text[i - 1..];
      (if Comment(t, m) then out else out + [text[i - 1]], Next(t, m))
  }

  lemma {:induction false} ProgressCleans(text: string, i: nat)
    requires i <= |text|
    ensures var (out, m) := Progress(text, i); Clean(text, Code) == out + Clean(text[i..], m)
  {
    if i == 0 {
      assert text[0..] == text;
    } else {
      ProgressCleans(text, i - 1);
      var (out, m) := Progress(text, i - 1);
      var t := text[i - 1..];
      assert t[0] == text[i - 1] && t[1..] == text[i..];
      OneMoreCleaned(t, out, m);
    }
  }

  /** Reading one character moves it, unless it is part of a comment, into what is already out. */
  lemma OneMoreCleaned(t: string, out: string, m: Mode)
    requires t != ""
    ensures out + Clean(t, m) == (if Comment(t, m) then out else out + [t[0]]) + Clean(t[1..], Next(t, m))
  {
    if !Comment(t, m) {
      assert t[..1] == [t[0]];
      Regroup(out, [t[0]], Clean(t[1..], Next(t, m)));
    }
  }

  lemma AllRead(text: string)
    ensures Progress(text, |text|).0 == Clean(text, Code)
  {
    ProgressCleans(text, |text|);
  }

  /** What the next character does, in terms of the characters a loop looks at. */
  lemma Peek(text: string, i: nat)
    requires i < |text|
    ensures text[i..][0] == text[i]
    ensures forall c :: Starts(text[i..][1..], c) <==> i + 1 < |text| && text[i + 1] == c
  {
    assert text[i..][1..] == text[i + 1..];
  }

  /** The comment pass of `stripJsonc`: an escaped character is copied together with its backslash. */
  method StripBySkipping(text: string) returns (out: string)
    ensures out == Clean(text, Code)
  {
    out := "";
    var inString, inLineComment, inBlockComment := false, false, false;
    var i := 0;
    while i < |text|
      invariant i <= |text| + 1
      invariant !(inLineComment && inBlockComment) && !(inString && (inLineComment || inBlockComment))
      invariant i <= |text| ==> Progress(text, i) == (out, ModeOf(inString, false, inLineComment, inBlockComment))
      invariant i > |text| ==> Progress(text, |text|).0 == out
      decreases |text| + 1 - i
    {
      var ch := text[i];
      var hasNext := i + 1 < |text|;
      Peek(text, i);
      if inLineComment {
        if ch == '\n' {
          inLineComment := false;
          out := out + [ch];
        }
      } else if inBlockComment {
        if ch == '*' && hasNext && text[i + 1] == '/' {
          inBlockComment := false;
          i := i + 1;
          Peek(text, i);
        }
      } else if inString {
        out := out + [ch];
        if ch == '\\' {
          if hasNext { Peek(text, i + 1); }
          out := out + if hasNext then [text[i + 1]] else "";
          i := i + 1;
        } else if ch == '"' {
          inString := false;
        }
      } else if ch == '"' {
        inString := true;
        out := out + [ch];
      } else if ch == '/' && hasNext && text[i + 1] == '/' {
        inLineComment := true;
        i := i + 1;
        Peek(text, i);
      } else if ch == '/' && hasNext && text[i + 1] == '*' {
        inBlockComment := true;
        i := i + 1;
        Peek(text, i);
      } else {
        out := out + [ch];
      }
      i := i + 1;
    }
    AllRead(text);
  }

  function ModeOf(inString: bool, escaped: bool, inLine: bool, inBlock: bool): Mode {
    if inLine then Line else if inBlock then Block
    else if inString then (if escaped then Escape else Text) else Code
  }

  /** `stripJsoncComments`: an `escaped` flag guards the character after a backslash. */
  method StripByFlag(text: string) returns (out: string)
    ensures out == Clean(text, Code)
  {
    out := "";
    var inString, inLine, inBlock, escaped := false, false, false, false;
    var i := 0;
    while i < |text|
      invariant i <= |text|
      invariant !(inLine && inBlock) && !(inString && (inLine || inBlock)) && (escaped ==> inString)
      invariant Progress(text, i) == (out, ModeOf(inString, escaped, inLine, inBlock))
      decreases |text| - i
    {
      var ch := text[i];
      var hasNext := i + 1 < |text|;
      Peek(text, i);
      if inLine {
        if ch == '\n' { inLine := false; out := out + [ch]; }
      } else if inBlock {
        if ch == '*' && hasNext && text[i + 1] == '/' {
          inBlock := false;
          i := i + 1;
          Peek(text, i);
        }
      } else if inString {
        out := out + [ch];
        if escaped { escaped := false; }
        else if ch == '\\' { escaped := true; }
        else if ch == '"' { inString := false; }
      } else if ch == '"' {
        inString := true;
        out := out + [ch];
      } else if ch == '/' && hasNext && text[i + 1] == '/' {
        inLine := true;
        i := i + 1;
        Peek(text, i);
      } else if ch == '/' && hasNext && text[i + 1] == '*' {
        inBlock := true;
        i := i + 1;
        Peek(text, i);
      } else {
        out := out + [ch];
      }
      i := i + 1;
    }
    AllRead(text);
  }
}
