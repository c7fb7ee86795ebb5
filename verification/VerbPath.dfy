/** The verb-path guard: the tree derived from the registered commands, and the walk of one argv. */
module VerbPath {
  import opened Options

  // ---- the declarations the tree is derived from ----

  datatype Cap = Cap(tag: Option<string>, value: Option<int>)

  datatype Argument = Argument(tag: Option<string>, kind: Option<string>, max: Option<Cap>)

  /** A declared flag; a wrapper has no name of its own. */
  datatype Flag = Flag(name: Option<string>, aliases: seq<string>, primitive: Option<string>, param: Option<Flag>)

  datatype Group = Group(commands: seq<Command>)

  datatype Command = Command(name: string, groups: seq<Group>, arguments: seq<Argument>, flags: seq<Flag>)

  datatype VerbNode = VerbNode(name: string, children: seq<VerbNode>,
                               maxPositionals: Option<int>, flags: map<string, bool>)

  const DEPTH: nat := 8

  /** The declaration `depth` wrappers at most inside `f`. */
  function Peel(f: Flag, depth: nat): Flag {
    if f.name.None? && f.param.Some? && depth > 0 then Peel(f.param.value, depth - 1) else f
  }

  /** What stands `k` wrappers inside `f`, if it is wrapped that deep. */
  function Inside(f: Flag, k: nat): Option<Flag> {
    if k == 0 then Some(f) else if f.param.None? then None else Inside(f.param.value, k - 1)
  }

  /** `g` is reached from `f` through nameless wrappers, `depth` of them at most, and the way ends
      there: `g` has a name, wraps nothing, or is the last one looked at. */
  ghost predicate FirstNamed(f: Flag, g: Flag, depth: nat) {
    exists k: nat :: k <= depth && Inside(f, k) == Some(g) && Nameless(f, k)
      && (g.name.Some? || g.param.None? || k == depth)
  }

  ghost predicate Nameless(f: Flag, k: nat) {
    forall j: nat :: j < k ==> Inside(f, j).Some? && Inside(f, j).value.name.None?
  }

  lemma {:induction false} PeelFindsFirstNamed(f: Flag, depth: nat)
    ensures FirstNamed(f, Peel(f, depth), depth)
  {
    if f.name.None? && f.param.Some? && depth > 0 {
      var g := Peel(f, depth);
      PeelFindsFirstNamed(f.param.value, depth - 1);
      var k: nat :| k <= depth - 1 && Inside(f.param.value, k) == Some(g) && Nameless(f.param.value, k)
        && (g.name.Some? || g.param.None? || k == depth - 1);
      assert forall j: nat :: 0 < j < k + 1 ==> Inside(f, j) == Inside(f.param.value, j - 1);
      assert Inside(f, k + 1) == Some(g) && Nameless(f, k + 1);
    } else {
      assert Inside(f, 0) == Some(f) && Nameless(f, 0);
    }
  }

  /** `unwrap`: the first named declaration within eight wrappers, else where the wrapping ends or
      the eighth wrapper leads. */
  method Unwrap(f: Flag) returns (current: Flag)
    ensures current == Peel(f, DEPTH) && FirstNamed(f, current, 8)
  {
    PeelFindsFirstNamed(f, DEPTH);
    current := f;
    var depth := 0;
    while current.name.None? && current.param.Some? && depth < DEPTH
      invariant depth <= DEPTH && Peel(current, DEPTH - depth) == Peel(f, DEPTH)
      decreases DEPTH - depth
    {
      current := current.param.value;
      depth := depth + 1;
    }
  }

  predicate TakesValue(f: Flag) {
    f.primitive != Some("Boolean")
  }

  /** The declaration inside `f` is a Boolean one. */
  predicate IsBoolean(f: Flag) {
    Peel(f, DEPTH).primitive == Some("Boolean")
  }

  predicate Names(f: Flag, name: string) {
    var g := Peel(f, DEPTH);
    g.name.Some? && (g.name.value == name || name in g.aliases)
  }

  /** The last of `flags` that goes by `name`, itself or by an alias, takes a value unless it is declared
      Boolean. */
  ghost predicate Declares(flags: seq<Flag>, name: string, takesValue: bool) {
    exists k :: 0 <= k < |flags| && Names(flags[k], name) && takesValue == !IsBoolean(flags[k])
      && forall j :: k < j < |flags| ==> !Names(flags[j], name)
  }

  /** `before` with every one of `names` set to `v`. */
  function SetAll(before: map<string, bool>, names: seq<string>, v: bool): (after: map<string, bool>)
    ensures forall name :: name in after <==> name in before || name in names
    ensures forall name :: name in after ==> after[name] == if name in names then v else before[name]
  {
    if names == [] then before
    else
      var n := |names| - 1;
      assert names == names[..n] + [names[n]];
      SetAll(before, names[..n], v)[names[n] := v]
  }

  function ArityOf(flags: seq<Flag>): map<string, bool> {
    if flags == [] then map[]
    else
      var n := |flags| - 1;
      var before := ArityOf(flags[..n]);
      var f := Peel(flags[n], DEPTH);
      if f.name.None? then before
      else SetAll(before, [f.name.value] + f.aliases, TakesValue(f))
  }

  lemma SetOneMore(before: map<string, bool>, names: seq<string>, i: nat, v: bool)
    requires i < |names|
    ensures SetAll(before, names[..i + 1], v) == SetAll(before, names[..i], v)[names[i] := v]
    ensures SetAll(before, names[..0], v) == before
  {
    assert names[..i + 1][..i] == names[..i];
  }

  /** The arity map knows a name exactly when some flag goes by it, and the last such flag decides. */
  lemma {:induction false} ArityExactly(flags: seq<Flag>, name: string, takesValue: bool)
    ensures name in ArityOf(flags) && ArityOf(flags)[name] == takesValue <==> Declares(flags, name, takesValue)
  {
    if flags == [] {
    } else {
      var n := |flags| - 1;
      var front := flags[..n];
      ArityExactly(front, name, takesValue);
      assert flags == front + [flags[n]];
      var f := Peel(flags[n], DEPTH);
      if Names(flags[n], name) {
        if Declares(flags, name, takesValue) {
          var k :| 0 <= k < |flags| && Names(flags[k], name) && takesValue == !IsBoolean(flags[k])
            && forall j :: k < j < |flags| ==> !Names(flags[j], name);
          assert k == n;
        }
      } else {
        DeclaresFront(flags, name, takesValue);
      }
    }
  }

  lemma DeclaresFront(flags: seq<Flag>, name: string, takesValue: bool)
    requires flags != [] && !Names(flags[|flags| - 1], name)
    ensures Declares(flags, name, takesValue) <==> Declares(flags[..|flags| - 1], name, takesValue)
  {
    var n := |flags| - 1;
    if Declares(flags, name, takesValue) {
      var k :| 0 <= k < |flags| && Names(flags[k], name) && takesValue == !IsBoolean(flags[k])
        && forall j :: k < j < |flags| ==> !Names(flags[j], name);
      DeclaredAt(flags[..n], k, name, takesValue);
    }
    if Declares(flags[..n], name, takesValue) {
      var k :| 0 <= k < n && Names(flags[..n][k], name) && takesValue == !IsBoolean(flags[..n][k])
        && forall j :: k < j < n ==> !Names(flags[..n][j], name);
      assert forall j :: k < j < n ==> flags[..n][j] == flags[j];
      DeclaredAt(flags, k, name, takesValue);
    }
  }

  lemma DeclaredAt(flags: seq<Flag>, k: nat, name: string, takesValue: bool)
    requires k < |flags| && Names(flags[k], name) && takesValue == !IsBoolean(flags[k])
    requires forall j :: k < j < |flags| ==> !Names(flags[j], name)
    ensures Declares(flags, name, takesValue)
  {
  }

  /** A flag's name and aliases, set to the same arity. */
  method SetNames(before: map<string, bool>, f: Flag) returns (arity: map<string, bool>)
    requires f.name.Some?
    ensures arity == SetAll(before, [f.name.value] + f.aliases, TakesValue(f))
  {
    var names := [f.name.value] + f.aliases;
    arity := before[f.name.value := TakesValue(f)];
    SetOneMore(before, names, 0, TakesValue(f));
    for a := 0 to |f.aliases|
      invariant arity == SetAll(before, names[..a + 1], TakesValue(f))
    {
      SetOneMore(before, names, a + 1, TakesValue(f));
      arity := arity[f.aliases[a] := TakesValue(f)];
    }
    assert names[..|names|] == names;
  }

  /** `flagArity` */
  method FlagArity(flags: seq<Flag>) returns (arity: map<string, bool>)
    ensures arity == ArityOf(flags)
  {
    arity := map[];
    for k := 0 to |flags|
      invariant arity == ArityOf(flags[..k])
    {
      assert flags[..k + 1][..k] == flags[..k];
      var f := Unwrap(flags[k]);
      if f.name.Some? { arity := SetNames(arity, f); }
    }
    assert flags[..|flags|] == flags;
  }

  /** How many operands one declared positional takes; `None` is unbounded or unreadable. */
  function OperandBound(a: Argument): Option<int> {
    if a.kind != Some("argument") then None
    else if a.max.None? then (if a.tag == Some("Single") then Some(1) else None)
    else if a.max.value.tag == Some("None") then None
    else if a.max.value.tag == Some("Some") && a.max.value.value.Some? then a.max.value.value
    else None
  }

  /** Every argument's bound, when all can be read. */
  function PositionalBound(arguments: seq<Argument>): (bound: Option<int>)
    ensures bound.None? <==> exists i :: 0 <= i < |arguments| && OperandBound(arguments[i]).None?
  {
    if arguments == [] then Some(0)
    else
      var n := |arguments| - 1;
      var front, last := PositionalBound(arguments[..n]), OperandBound(arguments[n]);
      if front.None? || last.None? then None else Some(front.value + last.value)
  }

  function NodeOf(c: Command): VerbNode
    decreases c, 0
  {
    VerbNode(c.name, OfGroups(c.groups), PositionalBound(c.arguments), ArityOf(c.flags))
  }

  function OfGroups(groups: seq<Group>): seq<VerbNode>
    decreases groups, 2
  {
    if groups == [] then [] else OfCommands(groups[0].commands) + OfGroups(groups[1..])
  }

  function OfCommands(commands: seq<Command>): seq<VerbNode>
    decreases commands, 1
  {
    if commands == [] then [] else [NodeOf(commands[0])] + OfCommands(commands[1..])
  }

  /** `verbTree` */
  function VerbTree(root: string, tools: seq<Command>): VerbNode {
    VerbNode(root, OfCommands(tools), Some(0), map[])
  }

  // ---- the walk ----

  datatype Refusal =
    | UnknownVerb(token: string, path: seq<string>, expected: seq<string>)
    | ExtraOperand(token: string, path: seq<string>, allowed: int)

  predicate Dashed(token: string) {
    token != "" && token[0] == '-'
  }

  function Undashed(token: string): string {
    if Dashed(token) then Undashed(token[1..]) else token
  }

  function BeforeEquals(s: string): string {
    if s == "" || s[0] == '=' then "" else [s[0]] + BeforeEquals(s[1..])
  }

  function FlagName(token: string): string {
    BeforeEquals(Undashed(token))
  }

  /** The first child of that name. */
  function Child(children: seq<VerbNode>, name: string): (c: Option<VerbNode>)
    ensures c.Some? ==> exists i :: 0 <= i < |children| && children[i] == c.value && children[i].name == name
                          && forall j :: 0 <= j < i ==> children[j].name != name
    ensures c.None? <==> forall i :: 0 <= i < |children| ==> children[i].name != name
  {
    if children == [] then None
    else if children[0].name == name then Some(children[0])
    else Child(children[1..], name)
  }

  function NamesOf(children: seq<VerbNode>): seq<string> {
    seq(|children|, i requires 0 <= i < |children| => children[i].name)
  }

  predicate TooMany(node: VerbNode, operands: int) {
    node.maxPositionals.Some? && operands > node.maxPositionals.value
  }

  /** The flag is declared at `node` and the token after it is its value. */
  predicate ValueFollows(node: VerbNode, token: string) {
    FlagName(token) in node.flags && node.flags[FlagName(token)] && '=' !in token
  }

  /** The rest of the walk: at `node`, reached by `path`, after `operands` operands. */
  function Check(node: VerbNode, path: seq<string>, operands: nat, argv: seq<string>): Option<Refusal>
    decreases |argv|
  {
    if argv == [] || argv[0] == "--" then None
    else
      var token := argv[0];
      if Dashed(token) then
        if FlagName(token) !in node.flags then None
        else if ValueFollows(node, token) then
          (if |argv| == 1 || argv[1] == "--" then None else Check(node, path, operands, argv[2..]))
        else Check(node, path, operands, argv[1..])
      else
        var child := Child(node.children, token);
        if child.Some? then Check(child.value, path + [token], operands, argv[1..])
        else if node.children != [] then Some(UnknownVerb(token, path, NamesOf(node.children)))
        else if TooMany(node, operands + 1) then Some(ExtraOperand(token, path, node.maxPositionals.value))
        else Check(node, path, operands + 1, argv[1..])
  }

  ghost function CheckFrom(node: VerbNode, path: seq<string>, operands: nat, skip: bool,
                           argv: seq<string>): Option<Refusal>
  {
    if !skip then Check(node, path, operands, argv)
    else if argv == [] || argv[0] == "--" then None
    else Check(node, path, operands, argv[1..])
  }

  /** `checkVerbPath` */
  method CheckVerbPath(tree: VerbNode, argv: seq<string>) returns (refusal: Option<Refusal>)
    ensures refusal == Check(tree, [], 0, argv)
  {
    var node, path, operands, skipValue := tree, [], 0, false;
    for i := 0 to |argv|
      invariant operands >= 0
      invariant CheckFrom(node, path, operands, skipValue, argv[i..]) == Check(tree, [], 0, argv)
    {
      var token := argv[i];
      assert argv[i..][0] == token && argv[i..][1..] == argv[i + 1..];
      if token == "--" { return None; }
      if skipValue {
        skipValue := false;
      } else if Dashed(token) {
        var name := FlagName(token);
        if name !in node.flags { return None; }
        skipValue := node.flags[name] && '=' !in token;
        if skipValue && i + 1 < |argv| {
          assert argv[i..][1] == argv[i + 1] && argv[i..][2..] == argv[i + 1..][1..];
        }
      } else {
        var child := Child(node.children, token);
        if child.Some? {
          node := child.value;
          path := path + [token];
        } else if |node.children| > 0 {
          return Some(UnknownVerb(token, path, NamesOf(node.children)));
        } else {
          operands := operands + 1;
          if node.maxPositionals.Some? && operands > node.maxPositionals.value {
            return Some(ExtraOperand(token, path, node.maxPositionals.value));
          }
        }
      }
    }
    refusal := None;
  }
}
