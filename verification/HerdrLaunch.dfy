/** Launching crew sessions into herdr: create a pane, rename it, type the command, unwind on failure;
    and the stand-up loop that launches a whole crew into one tab. */
module HerdrLaunch {
  import opened Options
  import opened Ordering
  import opened CrewSplit
  import opened HerdrServer

  datatype LaunchPlan = LaunchPlan(role: string, address: string, paneLabel: string, command: string)

  datatype LaunchedSession = LaunchedSession(role: string, address: string, window: string, pane: string)

  /** What a failed launch says it left behind. */
  datatype Stranded = Nothing | StrandedTab(tab: string) | StrandedPane(tab: string, pane: string)

  datatype Launch = Launched(session: LaunchedSession) | Failed(stranded: Stranded)

  /** `after` is `before` plus one pane, alone in the new tab `tab`, or added to the existing one. */
  ghost predicate OnePaneMore(before: Screen, after: Screen, intoTab: Option<string>, tab: string, pane: string) {
    && (forall t :: t in before.tabs ==> pane !in before.tabs[t])
    && pane !in before.labels && pane !in before.commands
    && (intoTab.None? ==> tab !in before.tabs && after == before.WithTab(tab, pane))
    && (intoTab.Some? ==> tab == intoTab.value && tab in before.tabs && after == before.WithPane(tab, pane))
  }

  /** `after` is `before` plus one pane that carries its label and runs its command. */
  ghost predicate SessionUp(before: Screen, after: Screen, intoTab: Option<string>, plan: LaunchPlan, tab: string,
                            pane: string)
  {
    exists bare: Screen :: OnePaneMore(before, bare, intoTab, tab, pane)
      && after == bare.(labels := bare.labels[pane := plan.paneLabel], commands := bare.commands[pane := plan.command])
  }

  /** `after` differs from `before` by exactly the pane or tab that `stranded` names. */
  ghost predicate LeftBehind(before: Screen, after: Screen, intoTab: Option<string>, plan: LaunchPlan,
                             stranded: Stranded)
  {
    && (intoTab.None? ==> stranded.StrandedTab?) && (intoTab.Some? ==> stranded.StrandedPane?)
    && exists pane :: HalfLaunched(before, after, intoTab, plan, stranded.tab, pane)
         && (stranded.StrandedPane? ==> pane == stranded.pane)
  }

  /** `after` is `before` plus one pane without a command, labelled or not. */
  ghost predicate HalfLaunched(before: Screen, after: Screen, intoTab: Option<string>, plan: LaunchPlan, tab: string,
                               pane: string)
  {
    exists bare: Screen :: OnePaneMore(before, bare, intoTab, tab, pane)
      && (after == bare || after == Labelled(bare, plan, pane))
  }

  ghost function Labelled(bare: Screen, plan: LaunchPlan, pane: string): Screen {
    bare.(labels := bare.labels[pane := plan.paneLabel])
  }

  /** The create command was carried out but its answer could not be read. */
  ghost predicate CreatedUnread(script: nat -> Reply, calls: nat, before: Screen, intoTab: Option<string>) {
    match intoTab
    case None => script(calls).Unreadable?
    case Some(tab) =>
      script(calls).Answered? && tab in before.tabs && before.tabs[tab] != [] && script(calls + 2).Unreadable?
  }

  /** The create command, and for a split the listing before it, answered readably. */
  ghost predicate CreateAnswered(script: nat -> Reply, calls: nat, before: Screen, intoTab: Option<string>) {
    match intoTab
    case None => script(calls).Answered?
    case Some(tab) =>
      script(calls).Answered? && tab in before.tabs && before.tabs[tab] != [] && script(calls + 2).Answered?
  }

  /** How many commands create a pane: `tab create`, or list, layout and split. */
  function CreateCalls(intoTab: Option<string>): nat {
    if intoTab.None? then 1 else 3
  }

  /** Every command of the launch that is read succeeded; the layout may fail. */
  ghost predicate LaunchAnswered(script: nat -> Reply, calls: nat, before: Screen, intoTab: Option<string>) {
    CreateAnswered(script, calls, before, intoTab) && Accepts(script, calls + CreateCalls(intoTab))
  }

  /** The rename and the run that begin at `at` are not refused. */
  ghost predicate Accepts(script: nat -> Reply, at: nat) {
    !script(at).Refused? && !script(at + 1).Refused?
  }

  /** The close after a refused rename or run at `at` is not refused. */
  ghost predicate ClosesAfter(script: nat -> Reply, at: nat) {
    if script(at).Refused? then !script(at + 1).Refused? else !script(at + 2).Refused?
  }

  /** A launch that failed strands something exactly when it had created and the close was refused. */
  ghost predicate StrandsOnlyUnclosed(script: nat -> Reply, calls: nat, before: Screen, intoTab: Option<string>,
                                      stranded: Stranded)
  {
    stranded == Nothing <==>
      (CreateAnswered(script, calls, before, intoTab) ==> ClosesAfter(script, calls + CreateCalls(intoTab)))
  }

  lemma StrandsOnceCreated(script: nat -> Reply, calls: nat, before: Screen, intoTab: Option<string>, at: nat,
                           stranded: Stranded)
    requires CreateAnswered(script, calls, before, intoTab) && at == calls + CreateCalls(intoTab)
    requires stranded == Nothing <==> ClosesAfter(script, at)
    ensures StrandsOnlyUnclosed(script, calls, before, intoTab, stranded)
  {
  }

  lemma AnsweredIsRead(script: nat -> Reply, calls: nat, before: Screen, intoTab: Option<string>)
    requires CreateAnswered(script, calls, before, intoTab)
    ensures !CreatedUnread(script, calls, before, intoTab)
  {
  }

  ghost predicate UnreadPane(before: Screen, after: Screen, intoTab: Option<string>) {
    exists tab, pane :: OnePaneMore(before, after, intoTab, tab, pane)
  }

  /** A create that did not report a pane: it left one if it was carried out unread, else nothing. */
  ghost predicate Unfinished(unread: bool, before: Screen, after: Screen, intoTab: Option<string>) {
    if unread then UnreadPane(before, after, intoTab) else after == before
  }

  /** What a failed launch leaves: what it names as stranded, or else no more than its create did. */
  ghost predicate Leaves(unread: bool, before: Screen, after: Screen, intoTab: Option<string>, plan: LaunchPlan,
                         stranded: Stranded)
  {
    if stranded == Nothing then Unfinished(unread, before, after, intoTab)
    else LeftBehind(before, after, intoTab, plan, stranded)
  }

  // ---- where a later session goes ----

  /** `plan` is the planner's for the layout that was read; without one it halves the last pane listed, the
      axis alternating with their number. */
  ghost predicate Placed(panes: seq<string>, layout: Option<Layout>, crewSize: Option<int>, plan: Plan) {
    match layout
    case Some(read) => PlannedFor(read, crewSize, plan)
    case None => panes != [] && plan == Plan(panes[|panes| - 1], if |panes| % 2 == 0 then Right else Down, 0.5)
  }

  /** Reading the layout came to `layout`, and the split asked for then was `plan`. */
  ghost predicate OneMorePlaced(panes: seq<string>, crewSize: Option<int>, layouts: seq<Option<Layout>>,
                                layouts': seq<Option<Layout>>, splits: seq<Plan>, splits': seq<Plan>)
  {
    && |layouts'| == |layouts| + 1 && layouts <= layouts' && |splits'| == |splits| + 1 && splits <= splits'
    && Placed(panes, layouts'[|layouts|], crewSize, splits'[|splits|])
  }

  /** A session into an existing tab asks for one split once its panes are listed; a new tab for none. */
  ghost predicate Places(script: nat -> Reply, calls: nat, before: Screen, intoTab: Option<string>,
                         crewSize: Option<int>, layouts: seq<Option<Layout>>, layouts': seq<Option<Layout>>,
                         splits: seq<Plan>, splits': seq<Plan>)
  {
    if Listed(script, calls, before, intoTab)
    then OneMorePlaced(before.tabs[intoTab.value], crewSize, layouts, layouts', splits, splits')
    else layouts' == layouts && splits' == splits
  }

  ghost predicate Listed(script: nat -> Reply, calls: nat, before: Screen, intoTab: Option<string>) {
    && intoTab.Some? && script(calls).Answered?
    && intoTab.value in before.tabs && before.tabs[intoTab.value] != []
  }

  /** What `pane split` is asked for. */
  method ChooseSplit(layout: Option<Layout>, existing: seq<string>, crewSize: Option<int>) returns (plan: Plan)
    requires existing != [] && (layout.Some? ==> layout.value.panes != [])
    ensures Placed(existing, layout, crewSize, plan)
  {
    if layout.Some? {
      var placed := PlanCrewSplit(layout.value, crewSize);
      return placed.value;
    }
    plan := Plan(existing[|existing| - 1], if |existing| % 2 == 0 then Right else Down, 0.5);
  }

  lemma PlacedInTab(panes: seq<string>, layout: Option<Layout>, crewSize: Option<int>, plan: Plan)
    requires Placed(panes, layout, crewSize, plan)
    requires layout.Some? ==> forall p :: p in layout.value.panes ==> p.id in panes
    ensures plan.target in panes
  {
  }

  /** The first half: a new tab, or a split of the pane the planner picks in an existing one. */
  method CreatePane(server: Server, intoTab: Option<string>, crewSize: Option<int>)
    returns (created: bool, tabId: string, paneId: string)
    requires server.Valid()
    modifies server
    ensures server.Valid()
    ensures created ==>
      OnePaneMore(old(server.screen), server.screen, intoTab, tabId, paneId) && |paneId| < server.issued
    ensures created <==> CreateAnswered(server.script, old(server.calls), old(server.screen), intoTab)
    ensures created ==> server.calls == old(server.calls) + CreateCalls(intoTab)
    ensures !created ==>
      Unfinished(CreatedUnread(server.script, old(server.calls), old(server.screen), intoTab),
                 old(server.screen), server.screen, intoTab)
    ensures Places(server.script, old(server.calls), old(server.screen), intoTab, crewSize,
                   old(server.layouts), server.layouts, old(server.splits), server.splits)
  {
    if intoTab.None? {
      var reply, tab, pane := server.TabCreate();
      assert !reply.Refused? ==> OnePaneMore(old(server.screen), server.screen, intoTab, tab, pane);
      return reply.Answered?, tab, pane;
    }
    tabId, paneId := intoTab.value, "";
    var existing := server.PaneList(tabId);
    if existing.None? || existing.value == [] { return false, tabId, paneId; }
    var layout := server.PaneLayout(tabId);
    var plan := ChooseSplit(layout, existing.value, crewSize);
    PlacedInTab(existing.value, layout, crewSize, plan);
    var reply, pane := server.PaneSplit(tabId, plan);
    assert !reply.Refused? ==> OnePaneMore(old(server.screen), server.screen, intoTab, tabId, pane);
    return reply.Answered?, tabId, pane;
  }

  /** `launchSessionInHerdr`. */
  method LaunchSession(server: Server, plan: LaunchPlan, intoTab: Option<string>, crewSize: Option<int>)
    returns (r: Launch)
    requires server.Valid()
    modifies server
    ensures server.Valid()
    ensures r.Launched? <==> LaunchAnswered(server.script, old(server.calls), old(server.screen), intoTab)
    ensures r.Launched? ==> server.calls == old(server.calls) + CreateCalls(intoTab) + 2
    ensures !CreateAnswered(server.script, old(server.calls), old(server.screen), intoTab) ==> r == Failed(Nothing)
    ensures r.Failed? ==>
      StrandsOnlyUnclosed(server.script, old(server.calls), old(server.screen), intoTab, r.stranded)
    ensures r.Launched? ==> SomeSessionUp(old(server.screen), server.screen, intoTab, plan, r.session.window)
    ensures r.Launched? ==>
      r.session.role == plan.role && r.session.address == plan.address && r.session.pane == plan.paneLabel
    ensures r.Failed? ==>
      Leaves(CreatedUnread(server.script, old(server.calls), old(server.screen), intoTab),
             old(server.screen), server.screen, intoTab, plan, r.stranded)
    ensures Places(server.script, old(server.calls), old(server.screen), intoTab, crewSize,
                   old(server.layouts), server.layouts, old(server.splits), server.splits)
  {
    var created, tabId, paneId := CreatePane(server, intoTab, crewSize);
    if !created { return Failed(Nothing); }
    AnsweredIsRead(server.script, old(server.calls), old(server.screen), intoTab);
    ghost var named := server.calls;
    r := NameAndRun(server, old(server.screen), plan, intoTab, tabId, paneId);
    if r.Failed? {
      StrandsOnceCreated(server.script, old(server.calls), old(server.screen), intoTab, named, r.stranded);
    }
  }

  /** The second half: label the new pane, then type the command into it; on failure, unwind. */
  method NameAndRun(server: Server, ghost before: Screen, plan: LaunchPlan, intoTab: Option<string>, tabId: string,
                    paneId: string)
    returns (r: Launch)
    requires server.Valid() && |paneId| < server.issued
    requires OnePaneMore(before, server.screen, intoTab, tabId, paneId)
    modifies server`calls, server`screen
    ensures server.Valid()
    ensures r.Launched? <==> Accepts(server.script, old(server.calls))
    ensures r.Launched? ==>
      server.calls == old(server.calls) + 2 && SomeSessionUp(before, server.screen, intoTab, plan, tabId)
    ensures r.Launched? ==> r.session == LaunchedSession(plan.role, plan.address, tabId, plan.paneLabel)
    ensures r.Failed? ==> (r.stranded == Nothing <==> ClosesAfter(server.script, old(server.calls)))
    ensures r.Failed? && r.stranded != Nothing ==> LeftBehind(before, server.screen, intoTab, plan, r.stranded)
    ensures r.Failed? && r.stranded == Nothing ==> server.screen == before
  {
    ghost var bare := server.screen;
    var renamed := server.PaneRename(paneId, plan.paneLabel);
    if !renamed {
      r := Unwind(server, before, intoTab, plan, tabId, paneId);
      return;
    }
    var ran := server.PaneRun(paneId, plan.command);
    if !ran {
      r := Unwind(server, before, intoTab, plan, tabId, paneId);
      return;
    }
    r := Launched(LaunchedSession(plan.role, plan.address, tabId, plan.paneLabel));
    assert SessionUp(before, server.screen, intoTab, plan, tabId, paneId);
  }

  /** Takes the created pane or tab back down; names it when that fails too. */
  method Unwind(server: Server, ghost before: Screen, intoTab: Option<string>, plan: LaunchPlan, tabId: string,
                paneId: string)
    returns (r: Launch)
    requires server.Valid()
    requires HalfLaunched(before, server.screen, intoTab, plan, tabId, paneId)
    modifies server`calls, server`screen
    ensures server.Valid() && r.Failed?
    ensures r.stranded == Nothing <==> !server.script(old(server.calls)).Refused?
    ensures r.stranded == Nothing ==> server.screen == before
    ensures r.stranded != Nothing ==> LeftBehind(before, server.screen, intoTab, plan, r.stranded)
  {
    ghost var bare: Screen :| OnePaneMore(before, bare, intoTab, tabId, paneId)
      && (server.screen == bare || server.screen == Labelled(bare, plan, paneId));
    if intoTab.None? {
      CloseTabUndoes(before, bare, plan, tabId, paneId);
      var closed := server.TabClose(tabId);
      r := Failed(if closed then Nothing else StrandedTab(tabId));
    } else {
      ClosePaneUndoes(before, bare, intoTab, plan, tabId, paneId);
      var closed := server.PaneClose(tabId, paneId);
      r := Failed(if closed then Nothing else StrandedPane(tabId, paneId));
    }
  }

  lemma CloseTabUndoes(before: Screen, bare: Screen, plan: LaunchPlan, tab: string, pane: string)
    requires OnePaneMore(before, bare, None, tab, pane)
    ensures bare.WithoutTab(tab) == before
    ensures Labelled(bare, plan, pane).WithoutTab(tab) == before
  {
    assert (set p | p in [pane]) == {pane};
    assert bare.tabs - {tab} == before.tabs;
    assert before.labels[pane := plan.paneLabel] - {pane} == before.labels;
  }

  lemma ClosePaneUndoes(before: Screen, bare: Screen, intoTab: Option<string>, plan: LaunchPlan, tab: string,
                        pane: string)
    requires intoTab.Some? && OnePaneMore(before, bare, intoTab, tab, pane)
    ensures bare.Without(tab, pane) == before
    ensures Labelled(bare, plan, pane).Without(tab, pane) == before
  {
    OthersOfNew(before.tabs[tab], pane);
    assert bare.tabs[tab := before.tabs[tab]] == before.tabs;
    assert before.labels[pane := plan.paneLabel] - {pane} == before.labels;
  }

  // ---- the stand-up loop ----

  /** `screen` is `base` plus one crew tab holding exactly one pane for each plan, in order, labelled
      and commanded as planned; no tab at all for no plans. */
  ghost predicate CrewTab(base: Screen, screen: Screen, window: Option<string>, panes: seq<string>,
                          plans: seq<LaunchPlan>)
  {
    && |panes| == |plans| && (window.None? <==> plans == [])
    && Distinct(panes) && (forall p :: p in panes ==> NewPane(base, p))
    && (if window.None? then screen.tabs == base.tabs
        else window.value !in base.tabs && screen.tabs == base.tabs[window.value := panes])
    && Marks(base.labels, screen.labels, panes, Titles(plans))
    && Marks(base.commands, screen.commands, panes, Commands(plans))
  }

  function Titles(plans: seq<LaunchPlan>): seq<string> {
    seq(|plans|, i requires 0 <= i < |plans| => plans[i].paneLabel)
  }

  function Commands(plans: seq<LaunchPlan>): seq<string> {
    seq(|plans|, i requires 0 <= i < |plans| => plans[i].command)
  }

  ghost predicate NewPane(base: Screen, pane: string) {
    pane !in base.labels && pane !in base.commands && forall t :: t in base.tabs ==> pane !in base.tabs[t]
  }

  /** `after` is `before` with `values[i]` at `panes[i]`. */
  ghost predicate Marks(before: map<string, string>, after: map<string, string>, panes: seq<string>,
                        values: seq<string>)
  {
    && |values| == |panes|
    && (forall p :: p in after <==> p in before || p in panes)
    && (forall p :: p in before && p !in panes ==> after[p] == before[p])
    && (forall i :: 0 <= i < |panes| ==> panes[i] in after && after[panes[i]] == values[i])
  }

  lemma MarksAppend(before: map<string, string>, after: map<string, string>, panes: seq<string>, values: seq<string>,
                    pane: string, value: string)
    requires Marks(before, after, panes, values) && pane !in panes
    ensures Marks(before, after[pane := value], panes + [pane], values + [value])
  {
    var more := panes + [pane];
    assert more[|panes|] == pane;
    assert forall i :: 0 <= i < |panes| ==> more[i] == panes[i] && panes[i] in panes;
  }

  lemma SessionJoins(base: Screen, s: Screen, t: Screen, window: Option<string>, panes: seq<string>,
                     plans: seq<LaunchPlan>, plan: LaunchPlan, tab: string, pane: string)
    requires CrewTab(base, s, window, panes, plans) && SessionUp(s, t, window, plan, tab, pane)
    ensures CrewTab(base, t, Some(tab), panes + [pane], plans + [plan])
  {
    PaneIsNew(base, s, t, window, panes, plans, plan, tab, pane);
    MarksAppend(base.labels, s.labels, panes, Titles(plans), pane, plan.paneLabel);
    MarksAppend(base.commands, s.commands, panes, Commands(plans), pane, plan.command);
    ListsAppend(plans, plan);
    assert panes == [] ==> panes + [pane] == [pane];
  }

  lemma PaneIsNew(base: Screen, s: Screen, t: Screen, window: Option<string>, panes: seq<string>,
                  plans: seq<LaunchPlan>, plan: LaunchPlan, tab: string, pane: string)
    requires CrewTab(base, s, window, panes, plans) && SessionUp(s, t, window, plan, tab, pane)
    ensures pane !in panes && NewPane(base, pane)
  {
    if window.Some? { assert window.value in s.tabs; }
    forall u | u in base.tabs ensures pane !in base.tabs[u] { assert u in s.tabs; }
  }

  lemma ListsAppend(plans: seq<LaunchPlan>, plan: LaunchPlan)
    ensures Titles(plans + [plan]) == Titles(plans) + [plan.paneLabel]
    ensures Commands(plans + [plan]) == Commands(plans) + [plan.command]
  {
  }

  /** `failed` is the number of the plan whose launch failed. */
  datatype StandUp = Crew(launched: seq<LaunchedSession>) | Broken(failed: nat, stranded: Stranded)

  /** The command at which launch `k` begins when all before it succeeded. */
  function Position(calls: nat, k: nat): nat {
    if k == 0 then calls else calls + 3 + 5 * (k - 1)
  }

  ghost predicate Creates(script: nat -> Reply, calls: nat, k: nat) {
    var at := Position(calls, k);
    script(at).Answered? && (k > 0 ==> script(at + 2).Answered?)
  }

  /** Launch `k` succeeds: the commands it reads answer, whatever the screen. */
  ghost predicate Answers(script: nat -> Reply, calls: nat, k: nat) {
    Creates(script, calls, k) && Accepts(script, NamedAt(calls, k))
  }

  /** The rename of launch `k`, when all before it succeeded. */
  function NamedAt(calls: nat, k: nat): nat {
    Position(calls, k) + if k == 0 then 1 else 3
  }

  /** If launch `k` fails it strands nothing: it creates nothing it knows of, or its close is not refused. */
  ghost predicate LeavesNothing(script: nat -> Reply, calls: nat, k: nat) {
    Creates(script, calls, k) ==> ClosesAfter(script, NamedAt(calls, k))
  }

  ghost predicate AllAnswer(script: nat -> Reply, calls: nat, n: nat) {
    forall k: nat :: k < n ==> Answers(script, calls, k)
  }

  /** Launch `k` is the first that does not answer, and it strands what its close could not take down. */
  ghost predicate FailsAt(script: nat -> Reply, calls: nat, k: nat, stranded: Stranded) {
    && AllAnswer(script, calls, k) && !Answers(script, calls, k)
    && (stranded == Nothing <==> LeavesNothing(script, calls, k))
  }

  /** The first launch fails and leaves nothing: its `tab create` is refused, or it answers, the rename or
      the run is refused, and the `tab close` after that is not. */
  ghost predicate FirstFailsCleanly(script: nat -> Reply, calls: nat) {
    match script(calls)
    case Refused => true
    case Unreadable => false
    case Answered => !Accepts(script, calls + 1) && ClosesAfter(script, calls + 1)
  }

  /** Every command that is carried out answers readably: a failed command has had no effect. */
  ghost predicate FailuresAreClean(script: nat -> Reply) {
    forall n: nat :: !script(n).Unreadable?
  }

  /** The create command of launch `k` is carried out but its answer cannot be read. */
  ghost predicate CreatesUnread(script: nat -> Reply, calls: nat, k: nat) {
    var at := Position(calls, k);
    if k == 0 then script(at).Unreadable? else script(at).Answered? && script(at + 2).Unreadable?
  }

  ghost predicate CrewUp(base: Screen, after: Screen, window: Option<string>, plans: seq<LaunchPlan>) {
    exists panes :: CrewTab(base, after, window, panes, plans)
  }

  /** The launch loop failed at plan `k`: the `k` earlier panes are still up, as `mid` shows, and on
      top of them there is what the failed launch left. */
  ghost predicate BrokenAt(unread: bool, base: Screen, after: Screen, plans: seq<LaunchPlan>, k: nat,
                           stranded: Stranded)
  {
    k < |plans| && exists mid: Screen, window ::
      CrewUp(base, mid, window, plans[..k]) && Leaves(unread, mid, after, window, plans[k], stranded)
  }

  lemma NoCrewYet(base: Screen)
    ensures CrewUp(base, base, None, [])
  {
    assert CrewTab(base, base, None, [], []);
  }

  ghost predicate SomeSessionUp(before: Screen, after: Screen, window: Option<string>, plan: LaunchPlan, tab: string) {
    exists pane :: SessionUp(before, after, window, plan, tab, pane)
  }

  lemma CrewGrows(base: Screen, mid: Screen, after: Screen, window: Option<string>, plans: seq<LaunchPlan>, k: nat,
                  tab: string)
    requires k < |plans| && CrewUp(base, mid, window, plans[..k])
    requires SomeSessionUp(mid, after, window, plans[k], tab)
    ensures CrewUp(base, after, Some(tab), plans[..k + 1])
    ensures window.Some? ==> tab == window.value
  {
    OneMorePlan(plans, k);
    var panes :| CrewTab(base, mid, window, panes, plans[..k]);
    var pane :| SessionUp(mid, after, window, plans[k], tab, pane);
    SessionJoins(base, mid, after, window, panes, plans[..k], plans[k], tab, pane);
  }

  lemma OneMorePlan(plans: seq<LaunchPlan>, k: nat)
    requires k < |plans|
    ensures plans[..k + 1] == plans[..k] + [plans[k]]
  {
  }

  /** The sessions name their plans' role, address and label, all in one window. */
  ghost predicate Rostered(launched: seq<LaunchedSession>, plans: seq<LaunchPlan>, window: Option<string>) {
    && |launched| == |plans| && (plans != [] ==> window.Some?)
    && forall i :: 0 <= i < |plans| ==>
         launched[i] == LaunchedSession(plans[i].role, plans[i].address, window.value, plans[i].paneLabel)
  }

  ghost predicate CrewStanding(base: Screen, after: Screen, launched: seq<LaunchedSession>, plans: seq<LaunchPlan>) {
    exists window :: CrewUp(base, after, window, plans) && Rostered(launched, plans, window)
  }

  lemma OneMoreAnswers(script: nat -> Reply, calls: nat, k: nat)
    requires AllAnswer(script, calls, k) && Answers(script, calls, k)
    ensures AllAnswer(script, calls, k + 1)
  {
  }

  /** In a crew tab that is up, the next launch is answered exactly when its commands are. */
  lemma LaunchInCrewTab(script: nat -> Reply, calls: nat, base: Screen, screen: Screen, window: Option<string>,
                        plans: seq<LaunchPlan>, k: nat)
    requires k <= |plans| && CrewUp(base, screen, window, plans[..k])
    ensures window.None? <==> k == 0
    ensures CreateAnswered(script, Position(calls, k), screen, window) <==> Creates(script, calls, k)
    ensures CreatedUnread(script, Position(calls, k), screen, window) <==> CreatesUnread(script, calls, k)
    ensures LaunchAnswered(script, Position(calls, k), screen, window) <==> Answers(script, calls, k)
    ensures Position(calls, k) + CreateCalls(window) + 2 == Position(calls, k + 1)
    ensures Position(calls, k) + CreateCalls(window) == NamedAt(calls, k)
  {
    var panes :| CrewTab(base, screen, window, panes, plans[..k]);
    if k > 0 { assert screen.tabs[window.value] == panes; }
  }

  /** The first `k` launches have succeeded. */
  ghost predicate Underway(script: nat -> Reply, calls: nat, base: Screen, screen: Screen,
                           launched: seq<LaunchedSession>, window: Option<string>, plans: seq<LaunchPlan>, k: nat)
    requires k <= |plans|
  {
    && AllAnswer(script, calls, k) && CrewUp(base, screen, window, plans[..k]) && Rostered(launched, plans[..k], window)
  }

  lemma RosterGrows(launched: seq<LaunchedSession>, plans: seq<LaunchPlan>, window: Option<string>, k: nat,
                    session: LaunchedSession)
    requires k < |plans| && Rostered(launched, plans[..k], window) && (window.None? ==> k == 0)
    requires session == LaunchedSession(plans[k].role, plans[k].address, session.window, plans[k].paneLabel)
    requires window.Some? ==> session.window == window.value
    ensures Rostered(launched + [session], plans[..k + 1], Some(session.window))
  {
    OneMorePlan(plans, k);
  }

  /** After one more launch. */
  lemma UnderwayGrows(script: nat -> Reply, calls: nat, base: Screen, mid: Screen, after: Screen,
                      launched: seq<LaunchedSession>, window: Option<string>, plans: seq<LaunchPlan>, k: nat,
                      session: LaunchedSession)
    requires k < |plans| && Underway(script, calls, base, mid, launched, window, plans, k)
    requires Answers(script, calls, k) && (window.None? ==> k == 0)
    requires SomeSessionUp(mid, after, window, plans[k], session.window)
    requires session == LaunchedSession(plans[k].role, plans[k].address, session.window, plans[k].paneLabel)
    ensures window.Some? ==> session.window == window.value
    ensures Underway(script, calls, base, after, launched + [session], Some(session.window), plans, k + 1)
  {
    OneMoreAnswers(script, calls, k);
    CrewGrows(base, mid, after, window, plans, k, session.window);
    RosterGrows(launched, plans, window, k, session);
  }

  lemma BreaksHere(unread: bool, base: Screen, mid: Screen, after: Screen, window: Option<string>,
                   plans: seq<LaunchPlan>, k: nat, stranded: Stranded)
    requires k < |plans| && CrewUp(base, mid, window, plans[..k])
    requires Leaves(unread, mid, after, window, plans[k], stranded)
    ensures BrokenAt(unread, base, after, plans, k, stranded)
  {
  }

  lemma StrandsInCrewTab(script: nat -> Reply, calls: nat, base: Screen, screen: Screen, window: Option<string>,
                         plans: seq<LaunchPlan>, k: nat, stranded: Stranded)
    requires k <= |plans| && CrewUp(base, screen, window, plans[..k])
    requires StrandsOnlyUnclosed(script, Position(calls, k), screen, window, stranded)
    ensures stranded == Nothing <==> LeavesNothing(script, calls, k)
  {
    LaunchInCrewTab(script, calls, base, screen, window, plans, k);
  }

  // ---- where the crew's sessions go ----

  function TabPanes(screen: Screen, window: Option<string>): seq<string> {
    if window.Some? && window.value in screen.tabs then screen.tabs[window.value] else []
  }

  /** The tab the roster names. */
  function TabOf(launched: seq<LaunchedSession>): Option<string> {
    if launched == [] then None else Some(launched[0].window)
  }

  /** Every pane of the crew tab but the first was split off where the planner of a crew of this size put
      it, from what was read of the panes before it. */
  ghost predicate Sited(panes: seq<string>, crewSize: Option<int>, layouts: seq<Option<Layout>>, splits: seq<Plan>) {
    && |layouts| == |splits| && |splits| == (if panes == [] then 0 else |panes| - 1)
    && forall i :: 0 <= i < |splits| ==> Placed(panes[..i + 1], layouts[i], crewSize, splits[i])
  }

  lemma NobodySited(crewSize: Option<int>)
    ensures Sited([], crewSize, [], [])
  {
  }

  lemma FirstSited(pane: string, crewSize: Option<int>)
    ensures Sited([pane], crewSize, [], [])
  {
  }

  lemma OneMoreSited(panes: seq<string>, crewSize: Option<int>, layouts: seq<Option<Layout>>, splits: seq<Plan>,
                     pane: string, layout: Option<Layout>, plan: Plan)
    requires panes != [] && Sited(panes, crewSize, layouts, splits) && Placed(panes, layout, crewSize, plan)
    ensures Sited(panes + [pane], crewSize, layouts + [layout], splits + [plan])
  {
    var all := panes + [pane];
    assert all[..|panes|] == panes;
    forall i | 0 <= i < |splits| ensures Placed(all[..i + 1], layouts[i], crewSize, splits[i]) {
      assert all[..i + 1] == panes[..i + 1];
    }
  }

  /** What was read and asked for after the first `from` layouts and `at` splits. */
  ghost predicate SitedSince(panes: seq<string>, crewSize: Option<int>, layouts0: seq<Option<Layout>>,
                             layouts: seq<Option<Layout>>, splits0: seq<Plan>, splits: seq<Plan>)
  {
    layouts0 <= layouts && splits0 <= splits && Sited(panes, crewSize, layouts[|layouts0|..], splits[|splits0|..])
  }

  lemma SitedSinceNow(crewSize: Option<int>, layouts: seq<Option<Layout>>, splits: seq<Plan>)
    ensures SitedSince([], crewSize, layouts, layouts, splits, splits)
  {
    NobodySited(crewSize);
    assert layouts[|layouts|..] == [] && splits[|splits|..] == [];
  }

  /** The roster names the crew tab. */
  lemma CrewTabNamed(base: Screen, screen: Screen, window: Option<string>, launched: seq<LaunchedSession>,
                     plans: seq<LaunchPlan>)
    requires CrewUp(base, screen, window, plans) && Rostered(launched, plans, window)
    ensures TabOf(launched) == window
  {
    var panes :| CrewTab(base, screen, window, panes, plans);
  }

  lemma SinceFirst(crewSize: Option<int>, pane: string, layouts0: seq<Option<Layout>>, layouts: seq<Option<Layout>>,
                   splits0: seq<Plan>, splits: seq<Plan>)
    requires SitedSince([], crewSize, layouts0, layouts, splits0, splits)
    ensures SitedSince([pane], crewSize, layouts0, layouts, splits0, splits)
  {
    FirstSited(pane, crewSize);
    assert layouts[|layouts0|..] == [] && splits[|splits0|..] == [];
  }

  lemma SinceOnward(panes: seq<string>, crewSize: Option<int>, pane: string, layouts0: seq<Option<Layout>>,
                    layouts: seq<Option<Layout>>, layouts': seq<Option<Layout>>,
                    splits0: seq<Plan>, splits: seq<Plan>, splits': seq<Plan>)
    requires panes != [] && SitedSince(panes, crewSize, layouts0, layouts, splits0, splits)
    requires OneMorePlaced(panes, crewSize, layouts, layouts', splits, splits')
    ensures SitedSince(panes + [pane], crewSize, layouts0, layouts', splits0, splits')
  {
    var l, p := layouts'[|layouts|], splits'[|splits|];
    OneMoreSited(panes, crewSize, layouts[|layouts0|..], splits[|splits0|..], pane, l, p);
    assert layouts'[|layouts0|..] == layouts[|layouts0|..] + [l];
    assert splits'[|splits0|..] == splits[|splits0|..] + [p];
  }

  /** The new session's pane comes last in its tab. */
  lemma LastInTab(before: Screen, after: Screen, window: Option<string>, plan: LaunchPlan, tab: string)
    returns (pane: string)
    requires SomeSessionUp(before, after, window, plan, tab)
    ensures window.Some? ==> tab == window.value && tab in before.tabs
    ensures TabPanes(after, Some(tab)) == TabPanes(before, window) + [pane]
  {
    pane :| SessionUp(before, after, window, plan, tab, pane);
  }

  /** One more session in the crew tab, sited like the others. */
  lemma SitedOnward(script: nat -> Reply, calls: nat, mid: Screen, after: Screen, window: Option<string>,
                    plan: LaunchPlan, tab: string, crewSize: Option<int>,
                    layouts0: seq<Option<Layout>>, layouts: seq<Option<Layout>>, layouts': seq<Option<Layout>>,
                    splits0: seq<Plan>, splits: seq<Plan>, splits': seq<Plan>)
    requires SomeSessionUp(mid, after, window, plan, tab) && CreateAnswered(script, calls, mid, window)
    requires Places(script, calls, mid, window, crewSize, layouts, layouts', splits, splits')
    requires SitedSince(TabPanes(mid, window), crewSize, layouts0, layouts, splits0, splits)
    ensures SitedSince(TabPanes(after, Some(tab)), crewSize, layouts0, layouts', splits0, splits')
  {
    var pane := LastInTab(mid, after, window, plan, tab);
    if window.None? {
      SinceFirst(crewSize, pane, layouts0, layouts, splits0, splits);
      assert [] + [pane] == [pane];
    } else {
      SinceOnward(mid.tabs[tab], crewSize, pane, layouts0, layouts, layouts', splits0, splits, splits');
    }
  }

  /** A crew stood up in one tab, every layout read and every split carried out to within `d`: the tab ends
      with every pane within `3d` of its even share. */
  lemma StandupEndsEven(panes: seq<string>, layouts: seq<Layout>, read: seq<Option<Layout>>, splits: seq<Plan>,
                        area: real, d: real, i: nat)
    requires panes != [] && Sited(panes, Some(|panes|), read, splits)
    requires |layouts| == |panes| && forall t :: 0 <= t < |read| ==> read[t] == Some(layouts[t])
    requires |layouts[0].panes| == 1 && Near(layouts[0].panes[0].Area(), area, 3.0 * d)
    requires forall t :: 0 <= t < |layouts| ==> OfArea(layouts[t], area) && DistinctIds(layouts[t].panes)
    requires forall t :: 0 <= t < |splits| ==> Split(layouts[t].panes, layouts[t + 1].panes, splits[t], d)
    requires 6.0 * d < area / |panes| as real && i < |layouts[|layouts| - 1].panes|
    ensures Near(layouts[|layouts| - 1].panes[i].Area(), area / |panes| as real, 3.0 * d)
  {
    forall t | 0 <= t < |layouts| - 1 ensures PlanCarriedOut(layouts[t], layouts[t + 1], |panes|, d) {
      assert read[t] == Some(layouts[t]) && Placed(panes[..t + 1], read[t], Some(|panes|), splits[t]);
    }
    FollowedPlansEndEven(layouts, |panes|, area, d, i);
  }

  /** One round of the loop. */
  method LaunchNext(server: Server, plans: seq<LaunchPlan>, k: nat, launched: seq<LaunchedSession>,
                    window: Option<string>, ghost calls: nat, ghost base: Screen,
                    ghost layouts: seq<Option<Layout>>, ghost splits: seq<Plan>)
    returns (launch: Launch, launched': seq<LaunchedSession>, window': Option<string>)
    requires server.Valid() && k < |plans| && server.calls == Position(calls, k)
    requires Underway(server.script, calls, base, server.screen, launched, window, plans, k)
    requires SitedSince(TabPanes(server.screen, window), Some(|plans|), layouts, server.layouts, splits, server.splits)
    modifies server
    ensures server.Valid()
    ensures launch.Launched? <==> Answers(server.script, calls, k)
    ensures launch.Launched? ==> server.calls == Position(calls, k + 1)
    ensures launch.Launched? ==>
      Underway(server.script, calls, base, server.screen, launched', window', plans, k + 1)
    ensures launch.Launched? ==>
      SitedSince(TabPanes(server.screen, window'), Some(|plans|), layouts, server.layouts, splits, server.splits)
    ensures launch.Failed? ==> (launch.stranded == Nothing <==> LeavesNothing(server.script, calls, k))
    ensures launch.Failed? ==>
      BrokenAt(CreatesUnread(server.script, calls, k), base, server.screen, plans, k, launch.stranded)
  {
    ghost var mid := server.screen;
    launched', window' := launched, window;
    LaunchInCrewTab(server.script, calls, base, mid, window, plans, k);
    launch := LaunchSession(server, plans[k], window, Some(|plans|));
    if launch.Failed? {
      StrandsInCrewTab(server.script, calls, base, mid, window, plans, k, launch.stranded);
      BreaksHere(CreatesUnread(server.script, calls, k), base, mid, server.screen, window, plans, k, launch.stranded);
      return;
    }
    UnderwayGrows(server.script, calls, base, mid, server.screen, launched, window, plans, k, launch.session);
    SitedOnward(server.script, Position(calls, k), mid, server.screen, window, plans[k], launch.session.window,
                Some(|plans|), layouts, old(server.layouts), server.layouts, splits, old(server.splits), server.splits);
    launched' := launched + [launch.session];
    if window.None? { window' := Some(launch.session.window); }
  }

  /** The launch loop of `runStandUp`: a crew exactly when every launch answers, and otherwise the first
      launch that does not is the one that fails. */
  method RunLaunchLoop(server: Server, plans: seq<LaunchPlan>) returns (r: StandUp)
    requires server.Valid()
    modifies server
    ensures server.Valid()
    ensures r.Crew? <==> AllAnswer(server.script, old(server.calls), |plans|)
    ensures r.Crew? ==> CrewStanding(old(server.screen), server.screen, r.launched, plans)
    ensures r.Crew? ==>
      SitedSince(TabPanes(server.screen, TabOf(r.launched)), Some(|plans|),
                 old(server.layouts), server.layouts, old(server.splits), server.splits)
    ensures r.Broken? ==> FailsAt(server.script, old(server.calls), r.failed, r.stranded)
    ensures r.Broken? ==>
      BrokenAt(CreatesUnread(server.script, old(server.calls), r.failed),
               old(server.screen), server.screen, plans, r.failed, r.stranded)
    ensures r.Broken? ==>
      (server.screen == old(server.screen) <==> FirstFailsCleanly(server.script, old(server.calls)))
  {
    var launched: seq<LaunchedSession>, crewWindow: Option<string> := [], None;
    ghost var base, calls := server.screen, server.calls;
    ghost var layouts, splits := server.layouts, server.splits;
    NoCrewYet(base);
    SitedSinceNow(Some(|plans|), layouts, splits);
    for k := 0 to |plans|
      invariant server.Valid() && server.calls == Position(calls, k)
      invariant Underway(server.script, calls, base, server.screen, launched, crewWindow, plans, k)
      invariant SitedSince(TabPanes(server.screen, crewWindow), Some(|plans|),
                           layouts, server.layouts, splits, server.splits)
    {
      var launch;
      launch, launched, crewWindow := LaunchNext(server, plans, k, launched, crewWindow, calls, base,
                                                      layouts, splits);
      if launch.Failed? {
        PartialCrewExactly(server.script, calls, base, server.screen, plans, k, launch.stranded);
        return Broken(k, launch.stranded);
      }
    }
    assert plans[..|plans|] == plans;
    CrewTabNamed(base, server.screen, crewWindow, launched, plans);
    r := Crew(launched);
  }

  // ---- the no-partial-crew contract ----

  /** A crew of at least one session is visible. */
  lemma CrewShows(base: Screen, mid: Screen, window: Option<string>, plans: seq<LaunchPlan>)
    requires CrewUp(base, mid, window, plans)
    ensures mid == base <==> plans == []
    ensures plans != [] ==> window.Some? && window.value in mid.tabs && window.value !in base.tabs
  {
    var panes :| CrewTab(base, mid, window, panes, plans);
    if plans == [] {
      assert mid.labels == base.labels && mid.commands == base.commands;
    } else {
      assert window.value in mid.tabs;
    }
  }

  /** What a failed launch leaves behind is visible, and hides no tab. */
  lemma LeftBehindShows(mid: Screen, after: Screen, window: Option<string>, plan: LaunchPlan, stranded: Stranded)
    requires LeftBehind(mid, after, window, plan, stranded)
    ensures after != mid && forall t :: t in mid.tabs ==> t in after.tabs
  {
    var pane :| HalfLaunched(mid, after, window, plan, stranded.tab, pane);
    var bare: Screen :| OnePaneMore(mid, bare, window, stranded.tab, pane)
      && (after == bare || after == Labelled(bare, plan, pane));
    assert after.tabs == bare.tabs && pane in after.tabs[stranded.tab];
    if stranded.tab in mid.tabs { assert pane !in mid.tabs[stranded.tab]; }
  }

  lemma UnreadShows(mid: Screen, after: Screen, window: Option<string>)
    requires UnreadPane(mid, after, window)
    ensures after != mid && forall t :: t in mid.tabs ==> t in after.tabs
  {
    var tab, pane :| OnePaneMore(mid, after, window, tab, pane);
    assert pane in after.tabs[tab];
    if tab in mid.tabs { assert pane !in mid.tabs[tab]; }
  }

  /** A broken stand-up leaves the screen as it was exactly when no earlier pane is up, and the failed
      launch left neither what it names nor a pane it could not read about. */
  lemma UntouchedExactly(unread: bool, base: Screen, after: Screen, plans: seq<LaunchPlan>, k: nat, stranded: Stranded)
    requires BrokenAt(unread, base, after, plans, k, stranded)
    ensures after == base <==> k == 0 && stranded == Nothing && !unread
  {
    var mid: Screen, window :|
      CrewUp(base, mid, window, plans[..k]) && Leaves(unread, mid, after, window, plans[k], stranded);
    CrewShows(base, mid, window, plans[..k]);
    if stranded != Nothing {
      LeftBehindShows(mid, after, window, plans[k], stranded);
    } else if unread {
      UnreadShows(mid, after, window);
    }
  }

  /** The no-partial-crew contract, in terms of what the commands answer: a failed stand-up has left
      nothing exactly when its first launch failed cleanly. */
  lemma PartialCrewExactly(script: nat -> Reply, calls: nat, base: Screen, after: Screen, plans: seq<LaunchPlan>,
                           k: nat, stranded: Stranded)
    requires FailsAt(script, calls, k, stranded)
    requires BrokenAt(CreatesUnread(script, calls, k), base, after, plans, k, stranded)
    ensures after == base <==> FirstFailsCleanly(script, calls)
  {
    UntouchedExactly(CreatesUnread(script, calls, k), base, after, plans, k, stranded);
    FirstFailsExactly(script, calls, k, stranded);
  }

  lemma FirstFailsExactly(script: nat -> Reply, calls: nat, k: nat, stranded: Stranded)
    requires FailsAt(script, calls, k, stranded)
    ensures FirstFailsCleanly(script, calls) <==> k == 0 && stranded == Nothing && !CreatesUnread(script, calls, k)
  {
    if k > 0 { assert Answers(script, calls, 0); }
  }

  const NO_PANES := Screen(map[], map[], map[])

  /** A second launch refused after a first success: the first session stays up. */
  method SecondLaunchRefused(first: LaunchPlan, second: LaunchPlan) returns (server: Server, r: StandUp)
    ensures r == Broken(1, Nothing) && FailuresAreClean(server.script) && server.screen != NO_PANES
  {
    server := new Server((n: nat) => if n < 3 then Answered else Refused, (n, id) => None, NO_PANES, 0);
    r := RunLaunchLoop(server, [first, second]);
    assert !Answers(server.script, 0, 1) && Position(0, 1) == 3;
    assert Answers(server.script, 0, 0);
  }

  /** A tab create whose answer cannot be read: the launch reports that nothing is left, and a pane is. */
  method UnreadableCreate(plan: LaunchPlan) returns (server: Server, r: Launch)
    ensures r == Failed(Nothing) && server.screen != NO_PANES
  {
    server := new Server((n: nat) => if n == 0 then Unreadable else Answered, (n, id) => None, NO_PANES, 0);
    r := LaunchSession(server, plan, None, None);
    assert CreatedUnread(server.script, 0, NO_PANES, None);
    ghost var tab, pane :| OnePaneMore(NO_PANES, server.screen, None, tab, pane);
    assert tab in server.screen.tabs;
  }
}
