/** What the walk of an argv decides, stated over the parts a reader would cut the argv into. */
module VerbPathLaws {
  import opened Options
  import opened Ordering
  import opened VerbPath

  /** `Switch` is a flag with no value to follow: a boolean one, or one joined to its value by `=`. */
  datatype Item =
    | Verb(name: string)
    | Switch(flag: string)
    | Valued(flag: string, value: string)
    | Operand(word: string)

  function Tokens(item: Item): seq<string> {
    match item
    case Verb(name) => [name]
    case Switch(flag) => [flag]
    case Valued(flag, value) => [flag, value]
    case Operand(word) => [word]
  }

  function VerbOf(item: Item): seq<string> { if item.Verb? then [item.name] else [] }

  function OperandOf(item: Item): seq<string> { if item.Operand? then [item.word] else [] }

  function Render(items: seq<Item>): seq<string> {
    if items == [] then [] else Tokens(items[0]) + Render(items[1..])
  }

  function Verbs(items: seq<Item>): seq<string> {
    if items == [] then [] else VerbOf(items[0]) + Verbs(items[1..])
  }

  function Operands(items: seq<Item>): seq<string> {
    if items == [] then [] else OperandOf(items[0]) + Operands(items[1..])
  }

  /** `item` can be read at `node`. */
  predicate Reads(node: VerbNode, item: Item) {
    match item
    case Verb(name) => !Dashed(name) && Child(node.children, name).Some?
    case Switch(flag) => Declared(node, flag) && !ValueFollows(node, flag)
    case Valued(flag, value) => Declared(node, flag) && ValueFollows(node, flag) && value != "--"
    case Operand(word) => !Dashed(word) && node.children == []
  }

  predicate Declared(node: VerbNode, flag: string) {
    Dashed(flag) && flag != "--" && FlagName(flag) in node.flags
  }

  function Move(node: VerbNode, item: Item): VerbNode
    requires Reads(node, item)
  {
    if item.Verb? then Child(node.children, item.name).value else node
  }

  /** The items can be read one after the other from `node` on. */
  predicate Fit(node: VerbNode, items: seq<Item>) {
    items == [] || (Reads(node, items[0]) && Fit(Move(node, items[0]), items[1..]))
  }

  function Reach(node: VerbNode, items: seq<Item>): VerbNode
    requires Fit(node, items)
  {
    if items == [] then node else Reach(Move(node, items[0]), items[1..])
  }

  function Resolve(node: VerbNode, path: seq<string>): Option<VerbNode> {
    if path == [] then Some(node)
    else
      var child := Child(node.children, path[0]);
      if child.None? then None else Resolve(child.value, path[1..])
  }

  /** How many operands pass before one is refused. */
  function Room(bound: int): nat { if bound < 0 then 0 else bound }

  lemma {:induction false} LeafStays(node: VerbNode, items: seq<Item>)
    requires Fit(node, items) && node.children == []
    ensures Reach(node, items) == node && Verbs(items) == []
  {
    if items == [] {
    } else {
      LeafStays(node, items[1..]);
    }
  }

  lemma {:induction false} OperandsOnlyAtLeaf(node: VerbNode, items: seq<Item>)
    requires Fit(node, items) && Operands(items) != []
    ensures Reach(node, items).children == []
  {
    if items[0].Operand? { LeafStays(node, items); } else { OperandsOnlyAtLeaf(Move(node, items[0]), items[1..]); }
  }

  /** One item read by the walk. */
  lemma CheckItem(node: VerbNode, path: seq<string>, operands: nat, item: Item, tail: seq<string>)
    requires Reads(node, item)
    requires item.Operand? ==> !TooMany(node, operands + 1)
    ensures Check(node, path, operands, Tokens(item) + tail) ==
      Check(Move(node, item), path + VerbOf(item), operands + |OperandOf(item)|, tail)
  {
    var argv := Tokens(item) + tail;
    if item.Valued? { assert argv[2..] == tail; } else { assert argv[1..] == tail; }
    assert path + [] == path;
  }

  lemma CheckFirst(node: VerbNode, path: seq<string>, operands: nat, items: seq<Item>, rest: seq<string>,
                   answer: Option<Refusal>)
    requires items != [] && Reads(node, items[0])
    requires items[0].Operand? ==> !TooMany(node, operands + 1)
    requires answer ==
      Check(Move(node, items[0]), path + VerbOf(items[0]), operands + |OperandOf(items[0])|, Render(items[1..]) + rest)
    ensures Check(node, path, operands, Render(items) + rest) == answer
  {
    Regroup(Tokens(items[0]), Render(items[1..]), rest);
    CheckItem(node, path, operands, items[0], Render(items[1..]) + rest);
  }

  predicate HasRoom(node: VerbNode, operands: nat, items: seq<Item>)
    requires Fit(node, items)
  {
    Operands(items) != [] ==> !TooMany(Reach(node, items), operands + |Operands(items)|)
  }

  lemma RoomForFirst(node: VerbNode, operands: nat, items: seq<Item>)
    requires Fit(node, items) && items != [] && HasRoom(node, operands, items)
    ensures HasRoom(Move(node, items[0]), operands + |OperandOf(items[0])|, items[1..])
    ensures items[0].Operand? ==> !TooMany(node, operands + 1)
  {
    if items[0].Operand? { LeafStays(node, items); }
  }

  /** Where reading the items leads: the node, the path and the number of operands. */
  function Arrive(node: VerbNode, path: seq<string>, operands: nat, items: seq<Item>): (VerbNode, seq<string>, nat)
    requires Fit(node, items)
  {
    (Reach(node, items), path + Verbs(items), operands + |Operands(items)|)
  }

  lemma SameEnd(node: VerbNode, path: seq<string>, operands: nat, items: seq<Item>)
    requires Fit(node, items) && items != []
    ensures Arrive(node, path, operands, items) ==
      Arrive(Move(node, items[0]), path + VerbOf(items[0]), operands + |OperandOf(items[0])|, items[1..])
  {
    Regroup(path, VerbOf(items[0]), Verbs(items[1..]));
    OperandsFirst(items);
    ReachFirst(node, items);
  }

  lemma ReachFirst(node: VerbNode, items: seq<Item>)
    requires Fit(node, items) && items != []
    ensures Reads(node, items[0]) && Fit(Move(node, items[0]), items[1..])
    ensures Reach(node, items) == Reach(Move(node, items[0]), items[1..])
  {
  }

  lemma OperandsFirst(items: seq<Item>)
    requires items != []
    ensures |Operands(items)| == |OperandOf(items[0])| + |Operands(items[1..])|
    ensures Verbs(items) == VerbOf(items[0]) + Verbs(items[1..])
  {
  }

  function CheckAt(at: (VerbNode, seq<string>, nat), argv: seq<string>): Option<Refusal> {
    Check(at.0, at.1, at.2, argv)
  }

  lemma ArriveNow(node: VerbNode, path: seq<string>, operands: nat, rest: seq<string>)
    ensures Arrive(node, path, operands, []) == (node, path, operands) && Render([]) + rest == rest
  {
    assert path + [] == path;
  }

  /** The walk reads fitting items without refusing, as long as the operands have room. */
  lemma {:induction false} Advance(node: VerbNode, path: seq<string>, operands: nat, items: seq<Item>,
                                   rest: seq<string>, answer: Option<Refusal>)
    requires Fit(node, items) && HasRoom(node, operands, items)
    requires answer == CheckAt(Arrive(node, path, operands, items), rest)
    ensures Check(node, path, operands, Render(items) + rest) == answer
    decreases |items|
  {
    if items == [] {
      ArriveNow(node, path, operands, rest);
      assert Render(items) + rest == rest;
    } else {
      RoomForFirst(node, operands, items);
      SameEnd(node, path, operands, items);
      Advance(Move(node, items[0]), path + VerbOf(items[0]), operands + |OperandOf(items[0])|,
              items[1..], rest, answer);
      CheckFirst(node, path, operands, items, rest, answer);
    }
  }

  // ---- refusals, exactly ----

  /** The argv reads well up to `refusal.token`, and that is where it goes wrong. */
  predicate GoesWrong(tree: VerbNode, items: seq<Item>, refusal: Refusal) {
    && Fit(tree, items) && refusal.path == Verbs(items) && !Dashed(refusal.token)
    && var node := Reach(tree, items);
       match refusal
       case UnknownVerb(token, _, expected) =>
         node.children != [] && Child(node.children, token).None? && expected == NamesOf(node.children)
       case ExtraOperand(token, _, allowed) =>
         node.children == [] && node.maxPositionals == Some(allowed) && |Operands(items)| == Room(allowed)
  }

  ghost predicate WrongAt(tree: VerbNode, items: seq<Item>, rest: seq<string>, argv: seq<string>, refusal: Refusal) {
    GoesWrong(tree, items, refusal) && argv == Render(items) + [refusal.token] + rest
  }

  lemma RefusedHere(node: VerbNode, path: seq<string>, operands: nat, rest: seq<string>, refusal: Refusal)
    requires !Dashed(refusal.token) && refusal.path == path
    requires match refusal
      case UnknownVerb(token, _, expected) =>
        node.children != [] && Child(node.children, token).None? && expected == NamesOf(node.children)
      case ExtraOperand(_, _, allowed) =>
        node.children == [] && node.maxPositionals == Some(allowed) && operands == Room(allowed)
    ensures Check(node, path, operands, [refusal.token] + rest) == Some(refusal)
  {
  }

  lemma WrongIsRefused(tree: VerbNode, items: seq<Item>, rest: seq<string>, argv: seq<string>, refusal: Refusal)
    requires WrongAt(tree, items, rest, argv, refusal)
    ensures Check(tree, [], 0, argv) == Some(refusal)
  {
    if refusal.UnknownVerb? && Operands(items) != [] { OperandsOnlyAtLeaf(tree, items); }
    assert [] + Verbs(items) == Verbs(items);
    Regroup(Render(items), [refusal.token], rest);
    RefusedHere(Reach(tree, items), Verbs(items), |Operands(items)|, rest, refusal);
    Advance(tree, [], 0, items, [refusal.token] + rest, Some(refusal));
  }

  ghost predicate Explains(node: VerbNode, path: seq<string>, operands: nat, argv: seq<string>, items: seq<Item>,
                           rest: seq<string>, refusal: Refusal) {
    && Fit(node, items) && argv == Render(items) + [refusal.token] + rest && refusal.path == path + Verbs(items)
    && !Dashed(refusal.token)
    && var end := Reach(node, items);
       match refusal
       case UnknownVerb(token, _, expected) =>
         end.children != [] && Child(end.children, token).None? && expected == NamesOf(end.children)
       case ExtraOperand(token, _, allowed) =>
         end.children == [] && end.maxPositionals == Some(allowed) && operands + |Operands(items)| == Room(allowed)
  }

  /** An item in front of an explanation. */
  lemma ExplainMore(node: VerbNode, path: seq<string>, operands: nat, item: Item, tail: seq<string>,
                    items: seq<Item>, rest: seq<string>, refusal: Refusal)
    requires Reads(node, item)
    requires Explains(Move(node, item), path + VerbOf(item), operands + |OperandOf(item)|, tail, items, rest, refusal)
    ensures Explains(node, path, operands, Tokens(item) + tail, [item] + items, rest, refusal)
  {
    var all := [item] + items;
    assert all[1..] == items && all[0] == item;
    Regroup(Tokens(item), Render(items), [refusal.token]);
    Regroup(Tokens(item), Render(items) + [refusal.token], rest);
    Regroup(path, VerbOf(item), Verbs(items));
  }

  /** Every refusal of the walk can be explained by the tokens before it. */
  lemma {:induction false} RefusedIsWrong(node: VerbNode, path: seq<string>, operands: nat, argv: seq<string>)
    returns (items: seq<Item>, rest: seq<string>)
    requires Check(node, path, operands, argv).Some?
    requires operands > 0 ==> !TooMany(node, operands) && node.children == []
    ensures Explains(node, path, operands, argv, items, rest, Check(node, path, operands, argv).value)
    decreases |argv|
  {
    var token := argv[0];
    var child := Child(node.children, token);
    if !Dashed(token) && child.None? && (node.children != [] || TooMany(node, operands + 1)) {
      items, rest := [], argv[1..];
      assert argv == [token] + rest && path + Verbs([]) == path;
      return;
    }
    var item, tail := if !Dashed(token) then (if child.Some? then Verb(token) else Operand(token))
                      else if ValueFollows(node, token) then Valued(token, argv[1]) else Switch(token),
                      if Dashed(token) && ValueFollows(node, token) then argv[2..] else argv[1..];
    assert argv == Tokens(item) + tail;
    CheckItem(node, path, operands, item, tail);
    var more;
    more, rest := RefusedIsWrong(Move(node, item), path + VerbOf(item), operands + |OperandOf(item)|, tail);
    items := [item] + more;
    ExplainMore(node, path, operands, item, tail, more, rest, Check(node, path, operands, argv).value);
  }

  /** For every tree and argv: the guard refuses with `refusal` exactly when the tokens before the
      named one read as verbs, declared flags with their values, and no more operands than the leaf
      has room for, and the named one is an unknown verb or the first operand too many there. */
  lemma RefusesExactly(tree: VerbNode, argv: seq<string>, refusal: Refusal)
    ensures Check(tree, [], 0, argv) == Some(refusal) <==>
            exists items: seq<Item>, rest: seq<string> :: WrongAt(tree, items, rest, argv, refusal)
  {
    if Check(tree, [], 0, argv) == Some(refusal) {
      var items, rest := RefusedIsWrong(tree, [], 0, argv);
      assert [] + Verbs(items) == Verbs(items);
      assert WrongAt(tree, items, rest, argv, refusal);
    }
    forall items: seq<Item>, rest: seq<string> | WrongAt(tree, items, rest, argv, refusal)
      ensures Check(tree, [], 0, argv) == Some(refusal)
    {
      WrongIsRefused(tree, items, rest, argv, refusal);
    }
  }

  // ---- well-formed invocations ----

  /** `items` is `front`, the `k`-th operand, and the rest; `front` leads to the same node. */
  ghost predicate OperandAt(node: VerbNode, items: seq<Item>, k: nat, front: seq<Item>, back: seq<Item>) {
    && Fit(node, items) && Fit(node, front) && k < |Operands(items)|
    && Reach(node, front) == Reach(node, items) && Verbs(front) == Verbs(items) && |Operands(front)| == k
    && Render(items) == Render(front) + [Operands(items)[k]] + Render(back)
    && !Dashed(Operands(items)[k])
  }

  lemma OperandLater(node: VerbNode, items: seq<Item>, k: nat, front: seq<Item>, back: seq<Item>)
    requires Fit(node, items) && items != [] && k >= |OperandOf(items[0])|
    requires OperandAt(Move(node, items[0]), items[1..], k - |OperandOf(items[0])|, front, back)
    ensures OperandAt(node, items, k, [items[0]] + front, back)
  {
    var all := [items[0]] + front;
    assert all[0] == items[0] && all[1..] == front;
    var word := Operands(items)[k];
    assert word == Operands(items[1..])[k - |OperandOf(items[0])|];
    Regroup(Tokens(items[0]), Render(front), [word]);
    Regroup(Tokens(items[0]), Render(front) + [word], Render(back));
  }

  lemma OperandFirst(node: VerbNode, items: seq<Item>)
    requires Fit(node, items) && items != [] && items[0].Operand?
    ensures OperandAt(node, items, 0, [], items[1..])
  {
    LeafStays(node, items);
  }

  lemma {:induction false} SplitAtOperand(node: VerbNode, items: seq<Item>, k: nat)
    returns (front: seq<Item>, back: seq<Item>)
    requires Fit(node, items) && k < |Operands(items)|
    ensures OperandAt(node, items, k, front, back)
  {
    var item := items[0];
    if item.Operand? && k == 0 {
      front, back := [], items[1..];
      OperandFirst(node, items);
    } else {
      front, back := SplitAtOperand(Move(node, item), items[1..], k - |OperandOf(item)|);
      OperandLater(node, items, k, front, back);
      front := [item] + front;
    }
  }

  /** Any mix of verbs, declared flags and operands that reads well: accepted when the operands have
      room or their number cannot be trusted, and otherwise the first one past the bound is named. */
  lemma WellFormedExactly(tree: VerbNode, items: seq<Item>)
    requires Fit(tree, items)
    ensures var node, n := Reach(tree, items), |Operands(items)|;
      Check(tree, [], 0, Render(items)) ==
        if node.maxPositionals.None? || n <= Room(node.maxPositionals.value) then None
        else Some(ExtraOperand(Operands(items)[Room(node.maxPositionals.value)],
                               Verbs(items), node.maxPositionals.value))
  {
    var node, n := Reach(tree, items), |Operands(items)|;
    if node.maxPositionals.None? || n <= Room(node.maxPositionals.value) {
      assert Render(items) + [] == Render(items) && [] + Verbs(items) == Verbs(items);
      Advance(tree, [], 0, items, [], None);
    } else {
      var bound := node.maxPositionals.value;
      var front, back := SplitAtOperand(tree, items, Room(bound));
      OperandsOnlyAtLeaf(tree, items);
      var refusal := ExtraOperand(Operands(items)[Room(bound)], Verbs(items), bound);
      WrongIsRefused(tree, front, Render(back), Render(items), refusal);
    }
  }

  lemma {:induction false} VerbsResolve(node: VerbNode, items: seq<Item>)
    requires Fit(node, items)
    ensures Resolve(node, Verbs(items)) == Some(Reach(node, items))
  {
    if items == [] {
    } else {
      VerbsResolve(Move(node, items[0]), items[1..]);
      if items[0].Verb? {
        assert Verbs(items)[1..] == Verbs(items[1..]);
      } else {
        assert Verbs(items) == Verbs(items[1..]);
      }
    }
  }

  lemma {:induction false} ResolveOneMore(node: VerbNode, path: seq<string>, token: string)
    requires Resolve(node, path).Some?
    ensures Resolve(node, path + [token]) == Child(Resolve(node, path).value.children, token)
  {
    if path == [] {
      assert [token][1..] == [];
    } else {
      assert (path + [token])[1..] == path[1..] + [token];
      ResolveOneMore(Child(node.children, path[0]).value, path[1..], token);
    }
  }

  /** An unknown-verb refusal carries the longest path that resolves: one token more does not. */
  lemma UnknownVerbCarriesLongestPath(tree: VerbNode, argv: seq<string>)
    requires Check(tree, [], 0, argv).Some? && Check(tree, [], 0, argv).value.UnknownVerb?
    ensures var UnknownVerb(token, path, expected) := Check(tree, [], 0, argv).value;
      && Resolve(tree, path).Some? && Resolve(tree, path + [token]).None?
      && var children := Resolve(tree, path).value.children;
         |expected| == |children| > 0 && forall i :: 0 <= i < |expected| ==> expected[i] == children[i].name
  {
    var refusal := Check(tree, [], 0, argv).value;
    var items, rest := RefusedIsWrong(tree, [], 0, argv);
    assert [] + Verbs(items) == Verbs(items);
    VerbsResolve(tree, items);
    ResolveOneMore(tree, refusal.path, refusal.token);
  }

  // ---- the tree derived from the registered commands ----

  function Subcommands(groups: seq<Group>): seq<Command> {
    if groups == [] then [] else groups[0].commands + Subcommands(groups[1..])
  }

  /** A command's own commands are those of all its groups. */
  lemma {:induction false} SubcommandsExactly(groups: seq<Group>, c: Command)
    ensures c in Subcommands(groups) <==> exists g :: g in groups && c in g.commands
  {
    if groups == [] {
    } else {
      SubcommandsExactly(groups[1..], c);
      assert groups == [groups[0]] + groups[1..];
    }
  }

  /** With nothing registered every word is one operand too many. */
  lemma NothingRegistered(root: string, word: string, rest: seq<string>)
    requires !Dashed(word)
    ensures Check(VerbTree(root, []), [], 0, [word] + rest) == Some(ExtraOperand(word, [], 0))
  {
  }

  /** The first command of that name. */
  function Named(commands: seq<Command>, name: string): Option<Command> {
    if commands == [] then None
    else if commands[0].name == name then Some(commands[0])
    else Named(commands[1..], name)
  }

  /** The registered command a path of verbs names. */
  function Registered(commands: seq<Command>, path: seq<string>): Option<Command>
    requires path != []
    decreases |path|
  {
    var c := Named(commands, path[0]);
    if c.None? || |path| == 1 then c else Registered(Subcommands(c.value.groups), path[1..])
  }

  lemma {:induction false} OfCommandsJoin(a: seq<Command>, b: seq<Command>)
    ensures OfCommands(a + b) == OfCommands(a) + OfCommands(b)
  {
    if a == [] {
      assert a + b == b;
    } else {
      assert (a + b)[1..] == a[1..] + b;
      OfCommandsJoin(a[1..], b);
    }
  }

  lemma {:induction false} OfGroupsIsFlat(groups: seq<Group>)
    ensures OfGroups(groups) == OfCommands(Subcommands(groups))
  {
    if groups == [] {
    } else {
      OfGroupsIsFlat(groups[1..]);
      OfCommandsJoin(groups[0].commands, Subcommands(groups[1..]));
    }
  }

  lemma {:induction false} ChildIsNamed(commands: seq<Command>, name: string)
    ensures var c := Named(commands, name);
            Child(OfCommands(commands), name) == if c.None? then None else Some(NodeOf(c.value))
  {
    if commands == [] {
    } else {
      assert OfCommands(commands)[1..] == OfCommands(commands[1..]);
      ChildIsNamed(commands[1..], name);
    }
  }

  lemma {:induction false} ResolvesRegistered(node: VerbNode, commands: seq<Command>, path: seq<string>)
    requires node.children == OfCommands(commands) && path != []
    ensures var c := Registered(commands, path);
            Resolve(node, path) == if c.None? then None else Some(NodeOf(c.value))
    decreases |path|
  {
    ChildIsNamed(commands, path[0]);
    var c := Named(commands, path[0]);
    if c.None? {
    } else if |path| == 1 {
      assert path[1..] == [];
    } else {
      OfGroupsIsFlat(c.value.groups);
      ResolvesRegistered(NodeOf(c.value), Subcommands(c.value.groups), path[1..]);
    }
  }

  /** For the derived tree: an invocation that reads well names a registered command, and is refused
      exactly when it has more operands than the positionals that command declares take together. */
  lemma InvocationExactly(root: string, tools: seq<Command>, items: seq<Item>)
    requires Fit(VerbTree(root, tools), items) && Verbs(items) != []
    ensures var c := Registered(tools, Verbs(items));
      && c.Some?
      && var bound := PositionalBound(c.value.arguments);
         Check(VerbTree(root, tools), [], 0, Render(items)) ==
           if bound.None? || |Operands(items)| <= Room(bound.value) then None
           else Some(ExtraOperand(Operands(items)[Room(bound.value)], Verbs(items), bound.value))
  {
    var tree := VerbTree(root, tools);
    VerbsResolve(tree, items);
    ResolvesRegistered(tree, tools, Verbs(items));
    WellFormedExactly(tree, items);
  }

  // ---- one flag and one word ----

  function FlagToken(dashes: nat, name: string, value: Option<string>): string {
    seq(dashes, _ => '-') + name + if value.Some? then ['='] + value.value else ""
  }

  lemma FlagTokenReads(dashes: nat, name: string, value: Option<string>)
    requires dashes > 0 && name != "" && !Dashed(name) && '=' !in name
    ensures var token := FlagToken(dashes, name, value);
      && FlagName(token) == name && Dashed(token) && token != "--" && ('=' in token <==> value.Some?)
  {
    var token := FlagToken(dashes, name, value);
    FlagNameReads(dashes, name, value);
    assert token[0] == '-' && token[dashes] == name[0];
    if value.Some? { assert token[dashes + |name|] == '='; }
  }

  /** The command the verb names has no verbs of its own. */
  ghost predicate LeafVerb(tools: seq<Command>, verb: string, c: Command) {
    !Dashed(verb) && Named(tools, verb) == Some(c) && Subcommands(c.groups) == []
  }

  lemma VerbReads(root: string, tools: seq<Command>, verb: string, c: Command)
    requires LeafVerb(tools, verb, c)
    ensures var tree := VerbTree(root, tools);
      && Reads(tree, Verb(verb)) && Move(tree, Verb(verb)) == NodeOf(c) && NodeOf(c).children == []
  {
    ChildIsNamed(tools, verb);
    OfGroupsIsFlat(c.groups);
  }

  /** `k` is the last of the command's flags to go by `name`, itself or by an alias. */
  ghost predicate LastNamed(c: Command, k: nat, name: string) {
    && k < |c.flags| && GoesBy(Peel(c.flags[k], DEPTH), name)
    && forall j :: k < j < |c.flags| ==> !GoesBy(Peel(c.flags[j], DEPTH), name)
  }

  ghost predicate GoesBy(f: Flag, name: string) {
    f.name == Some(name) || (f.name != None && name in f.aliases)
  }

  lemma ArityOfLast(c: Command, k: nat, name: string)
    requires LastNamed(c, k, name)
    ensures name in NodeOf(c).flags && NodeOf(c).flags[name] == (Peel(c.flags[k], DEPTH).primitive != Some("Boolean"))
  {
    ArityExactly(c.flags, name, !IsBoolean(c.flags[k]));
    forall j | k <= j < |c.flags| ensures Names(c.flags[j], name) <==> GoesBy(Peel(c.flags[j], DEPTH), name) { }
  }

  lemma ItemInFront(node: VerbNode, item: Item, items: seq<Item>)
    requires Reads(node, item) && Fit(Move(node, item), items)
    ensures Fit(node, [item] + items) && Reach(node, [item] + items) == Reach(Move(node, item), items)
    ensures Render([item] + items) == Tokens(item) + Render(items)
    ensures Verbs([item] + items) == VerbOf(item) + Verbs(items)
    ensures Operands([item] + items) == OperandOf(item) + Operands(items)
  {
    var all := [item] + items;
    assert all[0] == item && all[1..] == items;
  }

  /** What is decided on the verb of a leaf command and items that read well there. */
  lemma LeafInvocation(root: string, tools: seq<Command>, verb: string, c: Command, items: seq<Item>)
    requires LeafVerb(tools, verb, c) && Fit(NodeOf(c), items)
    ensures var bound := PositionalBound(c.arguments);
      Check(VerbTree(root, tools), [], 0, [verb] + Render(items)) ==
        if bound.None? || |Operands(items)| <= Room(bound.value) then None
        else Some(ExtraOperand(Operands(items)[Room(bound.value)], [verb], bound.value))
  {
    var tree := VerbTree(root, tools);
    VerbReads(root, tools, verb, c);
    ItemInFront(tree, Verb(verb), items);
    LeafStays(NodeOf(c), items);
    assert [verb] + [] == [verb] && [] + Operands(items) == Operands(items);
    WellFormedExactly(tree, [Verb(verb)] + items);
  }

  lemma SwitchAndOperand(node: VerbNode, token: string, word: string)
    requires node.children == [] && Reads(node, Switch(token)) && !Dashed(word)
    ensures var items := [Switch(token), Operand(word)];
      Fit(node, items) && Render(items) == [token, word] && Operands(items) == [word]
  {
    ItemInFront(node, Operand(word), []);
    ItemInFront(node, Switch(token), [Operand(word)]);
    assert [Operand(word)] + [] == [Operand(word)];
    assert [Switch(token)] + [Operand(word)] == [Switch(token), Operand(word)];
    assert [token] + ([word] + []) == [token, word] && [] + ([word] + []) == [word];
  }

  lemma DecideSwitch(root: string, tools: seq<Command>, verb: string, c: Command, token: string, word: string)
    requires LeafVerb(tools, verb, c) && Reads(NodeOf(c), Switch(token)) && !Dashed(word)
    ensures var bound := PositionalBound(c.arguments);
      Check(VerbTree(root, tools), [], 0, [verb, token, word]) ==
        if bound.None? || bound.value >= 1 then None else Some(ExtraOperand(word, [verb], bound.value))
  {
    VerbReads(root, tools, verb, c);
    SwitchAndOperand(NodeOf(c), token, word);
    LeafInvocation(root, tools, verb, c, [Switch(token), Operand(word)]);
    assert [verb] + [token, word] == [verb, token, word];
  }

  lemma ValuedAlone(node: VerbNode, token: string, word: string)
    requires Reads(node, Valued(token, word))
    ensures var items := [Valued(token, word)];
      Fit(node, items) && Render(items) == [token, word] && Operands(items) == []
  {
    ItemInFront(node, Valued(token, word), []);
    assert [Valued(token, word)] + [] == [Valued(token, word)] && [token, word] + [] == [token, word];
  }

  lemma DecideValued(root: string, tools: seq<Command>, verb: string, c: Command, token: string, word: string)
    requires LeafVerb(tools, verb, c) && Reads(NodeOf(c), Valued(token, word))
    ensures Check(VerbTree(root, tools), [], 0, [verb, token, word]).None?
  {
    ValuedAlone(NodeOf(c), token, word);
    LeafInvocation(root, tools, verb, c, [Valued(token, word)]);
    assert [verb] + [token, word] == [verb, token, word];
  }

  lemma FlagReads(c: Command, k: nat, dashes: nat, name: string, value: Option<string>, word: string)
    requires LastNamed(c, k, name) && dashes > 0 && name != "" && !Dashed(name) && '=' !in name
    ensures var token, switch := FlagToken(dashes, name, value), Peel(c.flags[k], DEPTH).primitive == Some("Boolean");
      && (switch || value.Some? ==> Reads(NodeOf(c), Switch(token)))
      && (!switch && value.None? && word != "--" ==> Reads(NodeOf(c), Valued(token, word)))
  {
    FlagTokenReads(dashes, name, value);
    ArityOfLast(c, k, name);
  }

  /** A flag declared Boolean is a switch, and so is any flag joined to its value: the word after it is an
      operand of the command. */
  lemma SwitchLeavesOperand(root: string, tools: seq<Command>, verb: string, c: Command, k: nat,
                            dashes: nat, name: string, value: Option<string>, word: string)
    requires LeafVerb(tools, verb, c) && LastNamed(c, k, name) && !Dashed(word)
    requires dashes > 0 && name != "" && !Dashed(name) && '=' !in name
    requires Peel(c.flags[k], DEPTH).primitive == Some("Boolean") || value.Some?
    ensures var bound := PositionalBound(c.arguments);
      Check(VerbTree(root, tools), [], 0, [verb, FlagToken(dashes, name, value), word]) ==
        if bound.None? || bound.value >= 1 then None else Some(ExtraOperand(word, [verb], bound.value))
  {
    FlagReads(c, k, dashes, name, value, word);
    DecideSwitch(root, tools, verb, c, FlagToken(dashes, name, value), word);
  }

  /** Any other flag, one without a primitive included, takes the next token for its value. */
  lemma ValueIsSwallowed(root: string, tools: seq<Command>, verb: string, c: Command, k: nat,
                         dashes: nat, name: string, word: string)
    requires LeafVerb(tools, verb, c) && LastNamed(c, k, name) && word != "--"
    requires dashes > 0 && name != "" && !Dashed(name) && '=' !in name
    requires Peel(c.flags[k], DEPTH).primitive != Some("Boolean")
    ensures Check(VerbTree(root, tools), [], 0, [verb, FlagToken(dashes, name, None), word]).None?
  {
    FlagReads(c, k, dashes, name, None, word);
    DecideValued(root, tools, verb, c, FlagToken(dashes, name, None), word);
  }

  // ---- the bound itself ----

  /** A positional takes a known number of operands exactly when it is a plain single one, or an argument
      with a readable cap; then it takes one, or as many as the cap says. */
  lemma PositionalCountsExactly(a: Argument, n: int)
    ensures PositionalBound([a]) == Some(n) <==>
      && a.kind == Some("argument")
      && ((a.max == None && a.tag == Some("Single") && n == 1) || a.max == Some(Cap(Some("Some"), Some(n))))
  {
    assert [a][..0] == [];
    assert PositionalBound([]) == Some(0);
  }

  /** A verb declares one operand per plain positional when all of its positionals are plain. */
  lemma {:induction false} PlainPositionals(arguments: seq<Argument>)
    requires forall i :: 0 <= i < |arguments| ==> arguments[i] == Argument(Some("Single"), Some("argument"), None)
    ensures PositionalBound(arguments) == Some(|arguments|)
  {
    if arguments == [] {
    } else {
      PlainPositionals(arguments[..|arguments| - 1]);
    }
  }

  /** Bounds add up, and one that cannot be read spoils the sum. */
  lemma {:induction false} BoundsAddUp(a: seq<Argument>, b: seq<Argument>)
    ensures var left, right := PositionalBound(a), PositionalBound(b);
            PositionalBound(a + b) == if left.None? || right.None? then None else Some(left.value + right.value)
  {
    if b == [] {
      assert a + b == a;
    } else {
      var n := |b| - 1;
      BoundsAddUp(a, b[..n]);
      assert (a + b)[..|a + b| - 1] == a + b[..n];
    }
  }

  /** A flag token is dashes, a name, and perhaps `=` and a value; the name is what is looked up. */
  lemma {:induction false} FlagNameReads(dashes: nat, name: string, value: Option<string>)
    requires name != "" && !Dashed(name) && '=' !in name
    ensures FlagName(seq(dashes, _ => '-') + name + if value.Some? then ['='] + value.value else "") == name
  {
    var tail := if value.Some? then ['='] + value.value else "";
    var token := seq(dashes, _ => '-') + name + tail;
    if dashes == 0 {
      assert token == name + tail;
      NameEnds(name, tail);
    } else {
      assert token[1..] == seq(dashes - 1, _ => '-') + name + tail;
      FlagNameReads(dashes - 1, name, value);
    }
  }

  lemma {:induction false} NameEnds(name: string, tail: string)
    requires '=' !in name && (tail == "" || tail[0] == '=')
    ensures BeforeEquals(name + tail) == name
  {
    if name == "" {
      assert name + tail == tail;
    } else {
      assert (name + tail)[1..] == name[1..] + tail;
      NameEnds(name[1..], tail);
    }
  }

  /** One positional that is repeated without end, wrapped or unreadable lifts the guard on the whole
      verb: no number of operands is refused. */
  lemma UnreadableLiftsTheGuard(tree: VerbNode, items: seq<Item>, c: Command, k: nat)
    requires Fit(tree, items) && Reach(tree, items) == NodeOf(c)
    requires k < |c.arguments| && OperandBound(c.arguments[k]).None?
    ensures Check(tree, [], 0, Render(items)).None?
  {
    WellFormedExactly(tree, items);
  }
}
