/** The herdr server as the launcher sees it: tabs of panes, and commands that may be refused, carried
    out, or carried out with an answer the client cannot read. */
module HerdrServer {
  import opened Options
  import opened CrewSplit

  /** What becomes of one client command. */
  datatype Reply = Refused | Unreadable | Answered

  /** The panes of every tab, the label of each labelled pane, the command typed into each. */
  datatype Screen = Screen(tabs: map<string, seq<string>>, labels: map<string, string>, commands: map<string, string>) {
    ghost predicate Holds(pane: string) {
      exists t :: t in tabs && pane in tabs[t]
    }

    /** Identifiers in use are shorter than `n`; only panes that exist are labelled or commanded. */
    ghost predicate Valid(n: nat) {
      && (forall t :: t in tabs ==> |t| < n && forall p :: p in tabs[t] ==> |p| < n)
      && (forall p :: p in labels ==> |p| < n)
      && (forall p :: p in commands ==> |p| < n)
    }

    function WithTab(tab: string, pane: string): Screen {
      this.(tabs := tabs[tab := [pane]])
    }

    function WithPane(tab: string, pane: string): Screen
      requires tab in tabs
    {
      this.(tabs := tabs[tab := tabs[tab] + [pane]])
    }

    function Without(tab: string, pane: string): Screen
      requires tab in tabs
    {
      Screen(tabs[tab := Others(tabs[tab], pane)], labels - {pane}, commands - {pane})
    }

    function WithoutTab(tab: string): Screen
      requires tab in tabs
    {
      var gone := set p | p in tabs[tab];
      Screen(tabs - {tab}, labels - gone, commands - gone)
    }
  }

  function Others(panes: seq<string>, pane: string): seq<string> {
    if panes == [] then []
    else if panes[0] == pane then Others(panes[1..], pane)
    else [panes[0]] + Others(panes[1..], pane)
  }

  lemma {:induction false} OthersOfNew(panes: seq<string>, pane: string)
    requires pane !in panes
    ensures Others(panes + [pane], pane) == panes
  {
    if panes != [] {
      assert (panes + [pane])[1..] == panes[1..] + [pane];
      OthersOfNew(panes[1..], pane);
    } else {
      assert (panes + [pane])[1..] == [];
    }
  }

  class Server {
    /** How the n-th command fares, and the sizes a layout query would report as the n-th command. */
    const script: nat -> Reply
    const geometry: (nat, string) -> Option<(real, real)>
    var calls: nat
    var issued: nat
    var screen: Screen
    /** What each layout query told the client, and each split it asked for, with the target's share. */
    var layouts: seq<Option<Layout>>
    var splits: seq<Plan>

    ghost predicate Valid()
      reads this
    {
      screen.Valid(issued)
    }

    constructor (script: nat -> Reply, geometry: (nat, string) -> Option<(real, real)>, screen: Screen, issued: nat)
      requires screen.Valid(issued)
      ensures Valid() && this.screen == screen && calls == 0 && this.script == script
      ensures layouts == [] && splits == []
    {
      this.script, this.geometry := script, geometry;
      this.screen, this.issued, calls := screen, issued, 0;
      layouts, splits := [], [];
    }

    /** An identifier no tab or pane has had. */
    method Issue() returns (id: string)
      requires Valid()
      modifies `issued
      ensures Valid() && issued == old(issued) + 1 && |id| == old(issued)
    {
      id := seq(issued, _ => 'i');
      issued := issued + 1;
    }

    method Answer() returns (reply: Reply)
      modifies `calls
      ensures reply == script(old(calls)) && calls == old(calls) + 1
    {
      reply := script(calls);
      calls := calls + 1;
    }

    /** `tab create`: the ids are reported only in a readable answer. */
    method TabCreate() returns (reply: Reply, tab: string, pane: string)
      requires Valid()
      modifies `calls, `issued, `screen
      ensures Valid() && reply == script(old(calls)) && calls == old(calls) + 1
      ensures |pane| < issued && tab !in old(screen).tabs && pane !in old(screen).labels
        && pane !in old(screen).commands
      ensures forall t :: t in old(screen).tabs ==> pane !in old(screen).tabs[t]
      ensures screen == if reply.Refused? then old(screen) else old(screen).WithTab(tab, pane)
    {
      tab := Issue();
      pane := Issue();
      reply := Answer();
      if !reply.Refused? { screen := screen.WithTab(tab, pane); }
    }

    /** `pane list`, filtered to one tab. */
    method PaneList(tab: string) returns (panes: Option<seq<string>>)
      requires Valid()
      modifies `calls
      ensures Valid() && calls == old(calls) + 1
      ensures panes ==
        if script(old(calls)).Answered? then Some(if tab in screen.tabs then screen.tabs[tab] else [])
        else None
    {
      var reply := Answer();
      panes := if reply.Answered? then Some(if tab in screen.tabs then screen.tabs[tab] else []) else None;
    }

    /** `pane layout`: some or all of the tab's panes with their rectangles, and the tab's area. */
    method PaneLayout(tab: string) returns (layout: Option<Layout>)
      requires Valid() && tab in screen.tabs
      modifies `calls, `layouts
      ensures Valid() && calls == old(calls) + 1 && layouts == old(layouts) + [layout]
      ensures layout.Some? ==>
        layout.value.panes != [] && forall p :: p in layout.value.panes ==> p.id in screen.tabs[tab]
    {
      layout := None;
      var call := calls;
      var reply := Answer();
      if reply.Answered? {
        var panes := Rectangles(call, tab);
        var area := geometry(call, tab);
        var (width, height) := if area.Some? then area.value else (0.0, 0.0);
        if panes != [] { layout := Some(Layout(width, height, panes)); }
      }
      layouts := layouts + [layout];
    }

    /** The panes of a tab whose sizes are given. */
    method Rectangles(call: nat, tab: string) returns (panes: seq<Pane>)
      requires tab in screen.tabs
      ensures forall p :: p in panes <==>
        p.id in screen.tabs[tab] && geometry(call, p.id) == Some((p.width, p.height))
    {
      panes := [];
      var ids := screen.tabs[tab];
      for i := 0 to |ids|
        invariant forall p :: p in panes <==> p.id in ids[..i] && geometry(call, p.id) == Some((p.width, p.height))
      {
        var size := geometry(call, ids[i]);
        assert ids[..i + 1] == ids[..i] + [ids[i]];
        if size.Some? { panes := panes + [Pane(ids[i], size.value.0, size.value.1)]; }
      }
      assert ids[..|ids|] == ids;
    }

    /** `pane split`: the target keeps the plan's ratio of itself. */
    method PaneSplit(tab: string, plan: Plan) returns (reply: Reply, pane: string)
      requires Valid() && tab in screen.tabs && plan.target in screen.tabs[tab]
      modifies `calls, `issued, `screen, `splits
      ensures Valid() && reply == script(old(calls)) && calls == old(calls) + 1 && splits == old(splits) + [plan]
      ensures |pane| < issued && pane !in old(screen).labels && pane !in old(screen).commands
      ensures forall t :: t in old(screen).tabs ==> pane !in old(screen).tabs[t]
      ensures screen == if reply.Refused? then old(screen) else old(screen).WithPane(tab, pane)
    {
      pane := Issue();
      reply := Answer();
      splits := splits + [plan];
      if !reply.Refused? { screen := screen.WithPane(tab, pane); }
    }

    /** `pane rename`; only the exit code is read. */
    method PaneRename(pane: string, title: string) returns (ok: bool)
      requires Valid() && |pane| < issued
      modifies `calls, `screen
      ensures Valid() && calls == old(calls) + 1 && ok == !script(old(calls)).Refused?
      ensures screen == if ok then old(screen).(labels := old(screen).labels[pane := title]) else old(screen)
    {
      var reply := Answer();
      ok := !reply.Refused?;
      if ok { screen := screen.(labels := screen.labels[pane := title]); }
    }

    /** `pane run`; only the exit code is read. */
    method PaneRun(pane: string, command: string) returns (ok: bool)
      requires Valid() && |pane| < issued
      modifies `calls, `screen
      ensures Valid() && calls == old(calls) + 1 && ok == !script(old(calls)).Refused?
      ensures screen == if ok then old(screen).(commands := old(screen).commands[pane := command]) else old(screen)
    {
      var reply := Answer();
      ok := !reply.Refused?;
      if ok { screen := screen.(commands := screen.commands[pane := command]); }
    }

    method PaneClose(tab: string, pane: string) returns (ok: bool)
      requires Valid() && tab in screen.tabs
      modifies `calls, `screen
      ensures Valid() && calls == old(calls) + 1 && ok == !script(old(calls)).Refused?
      ensures screen == if ok then old(screen).Without(tab, pane) else old(screen)
    {
      var reply := Answer();
      ok := !reply.Refused?;
      if ok {
        OthersShrink(screen.tabs[tab], pane);
        screen := screen.Without(tab, pane);
      }
    }

    method TabClose(tab: string) returns (ok: bool)
      requires Valid() && tab in screen.tabs
      modifies `calls, `screen
      ensures Valid() && calls == old(calls) + 1 && ok == !script(old(calls)).Refused?
      ensures screen == if ok then old(screen).WithoutTab(tab) else old(screen)
    {
      var reply := Answer();
      ok := !reply.Refused?;
      if ok { screen := screen.WithoutTab(tab); }
    }
  }

  lemma {:induction false} OthersShrink(panes: seq<string>, pane: string)
    ensures forall p :: p in Others(panes, pane) ==> p in panes
  {
    if panes == [] {
    } else {
      OthersShrink(panes[1..], pane);
    }
  }
}
