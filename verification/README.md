# Verification of the pipeline's protocols and engines

A Dafny model of the hardest logic of the pipeline toolkit, with proofs over every input, every run
and every interleaving. `dafny verify dfyconfig.toml` checks all of it, with Dafny 4.11.

## What is modelled

- **The epic dependency engine** (`Ordering`, `DependencyGraph`, `CycleFinder`, `CycleProperties`,
  `DiscoveryOrder`, `ReportedCycles`, `PhaseLowering`, `EdgeLowering`, `LedgerFloor`, `LedgerDefects`,
  `ConvergenceLoop`, `ConvergenceRuns`): cycle search, lowering of phases to gating edges, the structural
  floor, the gate, and the re-plan loop. The results chain: a converged epic has a sound last ledger,
  hence no cycle, hence an order in which every issue can be picked.
- **The tracker registry** (`RegistryCore`, `RegistryService`, `RegistryRuns`, `RegistryPrune`,
  `RegistryClaims`, `ClaimTenures`, `CrewChannel`, `BridgeHolders`): leases and claims as a state machine
  over an event log, the service object that runs it, presence, pruning, claim exclusion and tenures,
  standing up a crew channel on it, and how many sessions of one role a run can leave served.
- **First-peer-spawn** (`Rendezvous`): probe, unlink, bind, listen, dial, crash and shutdown at one socket
  path as interleaved steps of any number of peers.
- **The herdr backend** (`CrewSplit`, `HerdrServer`, `HerdrLaunch`): the split planner and its error
  bound, the launch protocol with its unwind, and the stand-up loop. `HerdrServer` is the terminal
  multiplexer as those commands see it; each command is refused without effect, carried out but
  answered unreadably, or carried out and answered.
- **The payload walk** (`PortableFiles`, `PayloadWalk`): containment of real paths, and the recursive walk
  over a file system given as a finite graph whose entries resolve to real nodes or to nothing.
- **Exact machines** (`Jsonc`, `JsoncLaws`, `JsoncGrammar`, `Spaces`, `VerbPath`, `VerbPathLaws`, `CpCardinality`,
  `ReviewEvidence`): the two JSONC strippers, the verb-path guard, and the protected-change approval
  decision with the review fold that feeds it.

Loops and objects of the source are methods and classes here, proved against functions or predicates
whose properties are then proved as lemmas. What decides an answer (which roots are visited, which defect
is reported, what an approval is, which flag takes a value) is stated once more on the input's own
fields, without those functions.

## Where the code and its documentation disagree

The model follows the code; each of these has a counterexample lemma and the exact condition.

- `graph.ts:16` promises every distinct cycle; the search records back-edge cycles only
  (`DistinctCycleMissed`; exactly when it is complete: `CompleteExactlyWhenNothingSkipped`).
- `server.ts:43-44` says a lost probe-to-unlink race still converges. It does not when the unlink lands
  after another peer began listening (`TwoHostsAfterOvertaking`), nor when the probe was refused by a peer
  that had bound and was not listening yet (`TwoHostsAfterEarlyProbe`). Exactly when:
  `OwnedFileLostExactlyWhenOvertaken` over whole runs, `LiveFileLostExactlyWhenOvertaken` for the file of
  a listening host.
- `channel-server.ts:45-46` calls a bridge with two holders structurally unrepresentable, and
  `registry-core.ts:200-201` concludes that its lookup has one entry. A fresh holder is not present before
  its announce (`TwoBridgesCanStandUp`), a superseded one can beat late (`LateBeatLingers`), and one that
  gave its claim back can stay (`GivenBackLingers`). Exactly when: `LookupSingleExactly` (somebody announces
  or beats while a lookup lists another); how it comes about: `OneIsSuperseded`. Sessions that share one
  address are never told apart (`OwnKeyAlwaysGranted`).
- `orchestrate.ts:615-616` says a failed launch leaves no partial crew; earlier panes stay up
  (`SecondLaunchRefused`), and a first launch whose create is unreadable or whose close is refused leaves
  its tab. Exactly when not, in terms of what the commands answer: `PartialCrewExactly`.
- `herdr.ts:432-434` and `476-478` report an unreadable answer to a create as "no live pane"; a create
  that was carried out but answered unreadably leaves a pane nobody names (`UnreadableCreate`; exactly
  when: the contract of `CreatePane`).
- `config.ts:257` and `310` say strings survive the trailing-comma pass; it rewrites them too
  (`CommaInStringLost`; exactly when not: `LiteralsKeptExactly`).

## Model

| member | source | states |
|---|---|---|
| CycleFinder.FindCycles | packages/pipeline-cli/src/tools/epic-ledger/graph.ts:21-75 | for every edge list, the colour-map/stack search returns a function of the edge SET alone: permuting or repeating edges gives the identical list in the identical order, ties of the final stable sort included; it terminates on the number of white issues |
| CycleFinder.CollectEdges | packages/pipeline-cli/src/tools/epic-ledger/graph.ts:24-32 | the adjacency lists hold exactly the issues each key waits on, and the node list exactly the issues mentioned |
| CycleFinder.SortLists | packages/pipeline-cli/src/tools/epic-ledger/graph.ts:33 | every list ends sorted, with the same members |
| CycleFinder.Finder.RecordCycle | packages/pipeline-cli/src/tools/epic-ledger/graph.ts:45-51 | a vertex set is recorded sorted, and once |
| CycleFinder.Finder.Visit | packages/pipeline-cli/src/tools/epic-ledger/graph.ts:53-68 | one mutable visit performs the abstract depth-first visit, colours, stack and recorded sets included |
| CycleFinder.Finder.FollowEdge | packages/pipeline-cli/src/tools/epic-ledger/graph.ts:57-64 | one successor: a back edge records the stack from its target on, a white one is visited, any other is passed over |
| CycleFinder.Finder.VisitAll | packages/pipeline-cli/src/tools/epic-ledger/graph.ts:70-72 | the root loop visits the white issues in ascending order |
| DependencyGraph.SearchKeeps | packages/pipeline-cli/src/tools/epic-ledger/graph.ts:39-72 | the search ends with every issue finished, each dependency edge classified, and everything recorded a closed tree branch |
| CycleProperties.ReportedCyclesAreCycles | packages/pipeline-cli/src/tools/epic-ledger/graph.ts:16-19 | soundness: every reported set is the ascending vertex set of a simple directed cycle; sets are reported once, in order of smallest member |
| CycleProperties.SmallestFirst | packages/pipeline-cli/src/tools/epic-ledger/graph.ts:74 | no reported cycle stands behind one with a greater smallest member |
| CycleProperties.EveryCycleIsCovered | packages/pipeline-cli/src/tools/epic-ledger/graph.ts:53-72 | coverage: every simple directed cycle has an edge whose two ends lie together in a reported set |
| CycleProperties.EmptyExactlyWhenAcyclic | packages/pipeline-cli/src/tools/epic-ledger/graph.ts:18-19 | the result is `[]` exactly when the graph has no directed cycle |
| CycleProperties.NoCyclesExactlyWhenPickable | packages/pipeline-cli/src/tools/epic-ledger/graph.ts:21-75 | the result is `[]` exactly when some order picks every issue after all it waits on |
| CycleProperties.CompleteExactlyWhenNothingSkipped | packages/pipeline-cli/src/tools/epic-ledger/graph.ts:58-63 | every cycle's vertex set is reported exactly when no edge of a cycle met an already finished issue (the branch that does nothing) |
| CycleProperties.EdgeDisjointCyclesAllReported | packages/pipeline-cli/src/tools/epic-ledger/graph.ts:16-17 | when no two cycles share an edge, every distinct cycle is reported, as the docstring has it |
| CycleProperties.DistinctCycleMissed | packages/pipeline-cli/src/tools/epic-ledger/graph.ts:16 | the docstring's "every distinct cycle" fails: for all a < b < c, the edges a-b, a-c, b-c, c-a report {a,b,c} only, though {a,c} is a cycle |
| DiscoveryOrder.SearchDiscovers | packages/pipeline-cli/src/tools/epic-ledger/graph.ts:35-72 | the search takes the issues in the one order that always goes on with the smallest open issue of the latest visited one that still waits on an open issue, and with the smallest open issue of all where there is none; its tree of first visits is the one this order makes |
| DiscoveryOrder.DiscoveryUnique | packages/pipeline-cli/src/tools/epic-ledger/graph.ts:9-12 | a graph has one such order |
| DiscoveryOrder.StartsAnewExactly | packages/pipeline-cli/src/tools/epic-ledger/graph.ts:70-72 | an issue is visited from another one exactly when some smaller issue waits on it, directly or through others; all others are taken up by the root loop |
| ReportedCycles.ReportsExactly | packages/pipeline-cli/src/tools/epic-ledger/graph.ts:21-75 | the answer read off the graph, without a search: take the issues in that order; take the paths down its tree that lead back to an issue of their own, in lexicographic order; report the cycle each closes, once, sorted by smallest member, ties in that order |
| ReportedCycles.OrderAndClosingsExist | packages/pipeline-cli/src/tools/epic-ledger/graph.ts:21-75 | for every graph there are such an order and such a list of paths |
| PhaseLowering.ParsePhases | packages/pipeline-cli/src/tools/epic-ledger/markdown.ts:196-230 | absent exactly without a dependencies heading; otherwise the phases and the ascending node list of exactly the section's lines, up to the next heading of the same or a higher level |
| PhaseLowering.CollectRows | packages/pipeline-cli/src/tools/epic-ledger/markdown.ts:212-227 | the line loop finds the section's end, its phases and the issues it mentions |
| PhaseLowering.PhasesPartitionRows | packages/pipeline-cli/src/tools/epic-ledger/markdown.ts:204-227 | cutting into phases loses, adds and reorders no row, and leaves no phase empty |
| PhaseLowering.RowPerItem | packages/pipeline-cli/src/tools/epic-ledger/markdown.ts:216-225 | the rows are exactly the list items that name an issue, in order, each with the first issue it names for its subject and with its own `requires:` targets |
| PhaseLowering.HeadingSeparates | packages/pipeline-cli/src/tools/epic-ledger/markdown.ts:214-217 | a phase heading separates the rows above it from those below it |
| PhaseLowering.FlatListIsOnePhase | packages/pipeline-cli/src/tools/epic-ledger/markdown.ts:193-194 | without a phase heading all rows form one implicit phase |
| EdgeLowering.AddAll | packages/pipeline-cli/src/tools/epic-ledger/markdown.ts:244-250 | adds one row's edges to those emitted so far: no self edge, none twice, nothing else |
| EdgeLowering.LowerPhase | packages/pipeline-cli/src/tools/epic-ledger/markdown.ts:253-262 | after a phase exactly the edges of the rows up to it are emitted, and exactly its subjects have joined the earlier ones |
| EdgeLowering.LowerEdges | packages/pipeline-cli/src/tools/epic-ledger/markdown.ts:239-265 | emits exactly the explicit `requires` edges plus the phase-boundary default edges, minus self edges, each once, strictly sorted |
| EdgeLowering.ParseDependencyGraph | packages/pipeline-cli/src/tools/epic-ledger/markdown.ts:274-284 | the graph of a body: marked absent and empty, or the lowered edges and the mentioned issues of its section |
| EdgeLowering.SortedEdgesCanonical | packages/pipeline-cli/src/tools/epic-ledger/markdown.ts:237 | strict sorting leaves one possible edge list for a relation |
| EdgeLowering.RowOrderIsInvisible | packages/pipeline-cli/src/tools/epic-ledger/markdown.ts:252-264 | permuting the rows inside a phase leaves the lowered list unchanged, edge for edge |
| EdgeLowering.StagedPlanIsPickable | packages/pipeline-cli/src/tools/epic-ledger/markdown.ts:232-265 | if each issue is a subject in one phase only and explicit targets are earlier subjects, no subjects, or the row itself, `findCycles` of the lowered edges is empty and a pick order exists |
| EdgeLowering.RepeatedSubjectDeadlocks | packages/pipeline-cli/src/tools/epic-ledger/markdown.ts:252-262 | the one-phase-only condition is needed: naming an issue in two phases deadlocks a plan without any explicit target |
| LedgerFloor.FindInGraph | packages/pipeline-cli/src/tools/epic-ledger/validate.ts:66-105 | the dependency findings: missing section, the cycles, dangling references and orphans, each kind ascending |
| LedgerFloor.FindInStories | packages/pipeline-cli/src/tools/epic-ledger/validate.ts:111-131 | the story findings: no stories at all, or each declared story that no child traces to, ascending |
| LedgerFloor.CoveredStories | packages/pipeline-cli/src/tools/epic-ledger/validate.ts:120-123 | the stories some child traces to |
| LedgerFloor.FindInChildren | packages/pipeline-cli/src/tools/epic-ledger/validate.ts:133-189 | the findings of every child, in the order the children are given; which they are, `LedgerDefects.DefectsExactly` says |
| LedgerFloor.Validate | packages/pipeline-cli/src/tools/epic-ledger/validate.ts:44-195 | the validator's loops compute, for every ledger, the defect list that the next rows are about |
| LedgerFloor.CleanExactlyWhenSound | packages/pipeline-cli/src/tools/epic-ledger/validate.ts:39-43 | no defect exactly when the ledger has children, declares an acyclic, fully resolvable dependency graph that mentions every child, declares stories that are all covered, and every child is sound |
| LedgerDefects.DefectsExactly | packages/pipeline-cli/src/tools/epic-ledger/validate.ts:44-189 | a defect is reported exactly when the fields of the ledger owe it, for each of the twelve kinds with its issues and missing labels: no children at all; no section; a cycle `findCycles` lists; a mentioned issue that is neither the epic, a child nor external; an unmentioned child; no stories; an untraced story; a child without criteria, without stories, without a required label, unmarked for containment or still to be triaged |
| LedgerDefects.NoDefectTwice | packages/pipeline-cli/src/tools/epic-ledger/validate.ts:44-189 | with distinct child numbers no defect is reported twice |
| LedgerDefects.KindsInOrder | packages/pipeline-cli/src/tools/epic-ledger/validate.ts:191-194 | the kinds stand in their canonical order, and within a kind the first issues ascend |
| LedgerDefects.CyclesInOrder | packages/pipeline-cli/src/tools/epic-ledger/validate.ts:74-80 | the cycles are reported in the order `findCycles` lists them |
| LedgerFloor.DefectsInOrder | packages/pipeline-cli/src/tools/epic-ledger/validate.ts:191-194 | defects are listed by canonical rank, then by the first issue they concern |
| LedgerFloor.PresentationIsInvisible | packages/pipeline-cli/src/tools/epic-ledger/validate.ts:5-13 | a permuted child array, permuted or repeated dependency edges, nodes and stories yield the identical defect list and signature, provided different linked children have different numbers (the same child may be listed twice) |
| LedgerFloor.CleanIsPickable | packages/pipeline-cli/src/tools/epic-ledger/validate.ts:197-198 | a ledger without defects has an order in which every issue can be picked after all it waits on |
| LedgerFloor.SignaturesAgreeExactly | packages/pipeline-cli/src/tools/epic-ledger/validate.ts:203-215 | two ledgers have one signature exactly when they have the same kinds of defects about the same issues, one by one |
| ConvergenceLoop.Epic.RunGate | packages/pipeline-cli/src/tools/epic-ledger/gate.ts:110-132 | reads once; on a clean floor relabels exactly the planned children and posts one PASS verdict, otherwise posts one FAIL verdict and relabels nothing. A refused call cuts this short: a refused batch of flips has touched some of the planned children and nobody else, and a failing floor relabels nobody whatever is refused |
| ConvergenceLoop.PlannedChildren | packages/pipeline-cli/src/tools/epic-ledger/gate.ts:28-29 | the issues in `flipped` are exactly the numbers of the children labelled `status:planned`, one for each such child, in ledger order |
| ConvergenceLoop.Epic.ParkEpic | packages/pipeline-cli/src/tools/epic-ledger/loop.ts:160-175 | one comment, then the needs-info label, in that order |
| ConvergenceLoop.Epic.StepEpic | packages/pipeline-cli/src/tools/epic-ledger/loop.ts:177-211 | one step and everything after it make exactly the calls of the run specified for this state, up to and including the first refused one |
| ConvergenceLoop.Epic.RunConvergenceLoop | packages/pipeline-cli/src/tools/epic-ledger/loop.ts:152-214 | for any ledgers read, any refusals and any ceiling (12 by default) the loop returns; its calls are those of the specified run, cut at the first refused one, and its outcome is that run's unless it was cut |
| ConvergenceRuns.StopsExactly | packages/pipeline-cli/src/tools/epic-ledger/loop.ts:177-211 | a run stops after n passes with an outcome exactly when n is the first pass that is clean, repeats the signature or does not shrink, or the ceiling cuts in before any such pass; the reported reason, defects, flipped children and iterations are those of that pass |
| ConvergenceRuns.GateRunsBounded | packages/pipeline-cli/src/tools/epic-ledger/loop.ts:4-12 | gate runs are at most the ceiling and at most the first defect count plus one, for every ceiling, also below 1 |
| ConvergenceRuns.CeilingNeedsDefects | packages/pipeline-cli/src/tools/epic-ledger/loop.ts:91-96 | a ceiling park needs a first pass with at least as many defects as the ceiling |
| ConvergenceRuns.CallsTallied | packages/pipeline-cli/src/tools/epic-ledger/loop.ts:160-211 | gate reads equal reported iterations, re-plans are one fewer, comments one more when parked, park labels one exactly when parked, flips at most one batch and only when converged |
| ConvergenceRuns.CallsExactly | packages/pipeline-cli/src/tools/epic-ledger/loop.ts:152-211 | every call of a run in order, read off the floors: each pass re-plans unless it is the first, reads, and either flips the planned children, if any, and posts a PASS naming them, or posts a FAIL listing the defects; a parked run then comments its reason and the defects it is stuck on, and labels the epic |
| ConvergenceRuns.ParkedFlipsNothing | packages/pipeline-cli/src/tools/epic-ledger/loop.ts:165-174 | a parked run relabels no child |
| ConvergenceRuns.LiveFlipsOnlyCleanFloors | packages/pipeline-cli/src/tools/epic-ledger/gate.ts:115-123 | whatever is refused, a flip only ever follows a clean floor and relabels what that floor lists as planned |
| ConvergenceRuns.LiveRelabels | packages/pipeline-cli/src/tools/epic-ledger/gate.ts:115-123 | the children a live run has relabelled: none if it parks, exactly the flipped ones if it converges, some of them at most if a refused call cut it short |
| ConvergenceRuns.RefusalsOnlyCut | packages/pipeline-cli/src/tools/epic-ledger/loop.ts:36-42 | refused calls only lower the tallies; a run in which none is refused is the specified run |
| ConvergenceRuns.CountsDecideExactly | packages/pipeline-cli/src/tools/epic-ledger/loop.ts:199-204 | with the real signatures, a run makes n passes exactly when all but the last strictly shrink the defect count and the last does not, or is the ceiling's: the repeated-signature test parks no run that the count test would let go on, it only names the reason |
| ConvergenceRuns.ConvergedIsPickable | packages/pipeline-cli/src/tools/epic-ledger/loop.ts:189-196 | a converged epic's last ledger is sound and has a pick order, and the flipped children are its planned ones |
| RegistryService.Registry.Announce | packages/pipeline-crew-mcp/src/tracker/registry.ts:67-72 | the service state stays the run of its event log, one announce longer |
| RegistryService.Registry.Claim | packages/pipeline-crew-mcp/src/tracker/registry.ts:53-65 | the reply is the core's verdict on the run so far, and the log grows by the claim |
| RegistryService.Registry.ReleaseClaim | packages/pipeline-crew-mcp/src/tracker/registry.ts:74 | the state stays the run of the log, one claim release longer |
| RegistryService.Registry.Heartbeat | packages/pipeline-crew-mcp/src/tracker/registry.ts:75-80 | the state stays the run of the log, one beat longer |
| RegistryService.Registry.Lookup | packages/pipeline-crew-mcp/src/tracker/registry.ts:81-86 | the answer reads the event log (see RegistryRuns.LookupReadsTheLog) |
| RegistryService.Registry.Release | packages/pipeline-crew-mcp/src/tracker/registry.ts:87 | the state stays the run of the log, one release longer |
| RegistryService.CollectPresent | packages/pipeline-crew-mcp/src/tracker/registry-core.ts:206-218 | the lookup loop collects exactly the live leases of the role, in map order |
| RegistryService.DropPeer | packages/pipeline-crew-mcp/src/tracker/registry-core.ts:225-233 | the release loop drops the peer's lease and exactly the claims it holds |
| RegistryService.DropStale | packages/pipeline-crew-mcp/src/tracker/registry-core.ts:240-250 | the prune loops drop exactly the expired leases, then the claims whose holder has no live lease left |
| RegistryRuns.LookupReadsTheLog | packages/pipeline-crew-mcp/src/tracker/registry-core.ts:97-218 | after any run, `lookup` lists exactly the peers whose last announce since any release named the role and whose latest later refresh is within its TTL, once each, in order of first announce since release, with the millis of that refresh |
| RegistryRuns.ClaimsInvisibleToLookup | packages/pipeline-crew-mcp/src/tracker/registry-core.ts:199-205 | deleting all claim and claim-release events from any run changes no lookup answer |
| RegistryPrune.PruneIsInvisible | packages/pipeline-crew-mcp/src/tracker/registry-core.ts:240-250 | pruning changes no later lookup, holder or Granted/Collision answer, over every continuation under a non-decreasing clock in which no peer that lost a lease or claim announces or beats again |
| RegistryPrune.LateBeatRevives | packages/pipeline-crew-mcp/src/tracker/registry.ts:66-88 | the hypothesis is needed, since the service never prunes: a late beat revives an expired lease, but not a pruned one |
| RegistryPrune.PruneAbsorbs | packages/pipeline-crew-mcp/src/tracker/registry-core.ts:240-250 | prune(prune(s,t1),t2) = prune(s,t2) for t1 <= t2 |
| RegistryPrune.PrunedIsLive | packages/pipeline-crew-mcp/src/tracker/registry-core.ts:235-239 | after a prune every lease is live and every claim's holder has a live lease |
| RegistryClaims.BeatingHolderKeepsClaim | packages/pipeline-crew-mcp/src/tracker/registry-core.ts:120-150 | a holder that refreshes with gaps of at most its TTL and does not release keeps its claim in every run: others get Collision naming it and its unmoved `since`, its own re-claim the same `since` |
| RegistryClaims.ScheduleIsBeating | packages/pipeline-crew-mcp/src/crew/heartbeat.ts:18-25 | with beats due every ten seconds, each up to five seconds late, and a TTL of thirty, the gaps between refreshes stay within the TTL as long as no two beats in a row are lost, so the schedule keeps the claim |
| RegistryClaims.GrantedExactlyWhenUncontended | packages/pipeline-crew-mcp/src/tracker/registry-core.ts:120-166 | over any run a claim is granted exactly when no other present peer holds the resource by the last grant without having freed it |
| RegistryClaims.SuccessiveGrantsExclude | packages/pipeline-crew-mcp/src/tracker/registry-core.ts:120-166 | when a resource passes from A to B, A freed it in between or has no live lease at B's grant |
| ClaimTenures.AnswersTenure | packages/pipeline-crew-mcp/src/tracker/registry-core.ts:120-150 | what a claim is answered: a grant names the claimant, a collision the peer in an unbroken tenure, and both say since when that tenure lasts; whoever is in no tenure starts one now |
| ClaimTenures.HolderReadsTheLog | packages/pipeline-crew-mcp/src/tracker/registry-core.ts:168-182 | the holder of a resource is the peer in an unbroken tenure, if it is present, and otherwise nobody |
| CrewChannel.SameKeyExactly | packages/pipeline-crew-mcp/src/crew/channel-server.ts:48-55 | two sessions target one key exactly when they have the same role and, for engineering managers, the same address: two chiefs of staff, cartographers or intake desks exclude each other, two engineering managers do not |
| CrewChannel.MakeCrewChannel | packages/pipeline-crew-mcp/src/crew/channel-server.ts:88-113 | stands up exactly when the role's key is not contended, announces exactly then and only after the claim, and is otherwise told another holder |
| CrewChannel.BridgeAdmittedExactly | packages/pipeline-crew-mcp/src/crew/channel-server.ts:83-99 | one admission: a bridge session is admitted exactly when no session with another address holds the key, has kept it and is present |
| CrewChannel.OwnKeyAlwaysGranted | packages/pipeline-crew-mcp/src/crew/session.ts:97-98 | a key claimed from one address only is granted every time: engine instances never collide, and neither do two bridge sessions sharing one address |
| CrewChannel.TwoBridgesCanStandUp | packages/pipeline-crew-mcp/src/crew/channel-server.ts:92-104 | claiming before announcing leaves a window: two sessions of one bridge role with different addresses can both be granted and both serve |
| CrewChannel.HeadIsFirstAnnounced | packages/pipeline-crew-mcp/src/crew/tracker.ts:136-152 | a send to a role finds the peer that announced first among those present, and nobody exactly when nobody is present |
| BridgeHolders.OneIsSuperseded | packages/pipeline-crew-mcp/src/crew/channel-server.ts:40-55 | over every run under a clock that does not run backwards, in which a session announces a bridge only after a grant: of any two addresses that serve the bridge at once, one has lost the key to another address and is still around, because it gave the key back and stayed or refreshed after losing it |
| BridgeHolders.LookupSingleExactly | packages/pipeline-crew-mcp/src/tracker/registry-core.ts:199-205 | over every run under a clock that does not run backwards, with no other assumption: the lookup of a bridge has at most one entry at every point of the run exactly when nobody announces the role, or keeps it alive by a beat (asking for a TTL that is not negative), while a lookup lists another address |
| BridgeHolders.TwoEverServedExactlyWhenJoined | packages/pipeline-crew-mcp/src/crew/channel-server.ts:40-55 | the same for the holders themselves: two addresses are ever served at once exactly when one joins, by an announce or a beat, while another is served; a lookup just before would have shown it |
| BridgeHolders.OneEntryWhileNobodyLingers | packages/pipeline-crew-mcp/src/tracker/registry-core.ts:199-205 | the discipline that suffices: where announces follow grants and every superseded session is no longer served, the lookup of a bridge has at most one entry |
| BridgeHolders.StandupKeepsDiscipline | packages/pipeline-crew-mcp/src/crew/channel-server.ts:88-104 | what standing up a channel adds to a run leaves every announce of the bridge preceded by a grant to its address |
| BridgeHolders.LateBeatLingers | packages/pipeline-crew-mcp/src/tracker/registry.ts:66-88 | one way to fail: for any bridge and any two addresses, a session silent past its TTL is superseded, then beats after all, and both are served |
| BridgeHolders.GivenBackLingers | packages/pipeline-crew-mcp/src/tracker/registry-core.ts:157-166 | another way: for any bridge and any two addresses, a session releases its claim, stays, and another stands up beside it |
| Rendezvous.LiveFileLostExactlyWhenOvertaken | packages/pipeline-crew-mcp/src/tracker/server.ts:46-62 | in every interleaving of probes, unlinks, binds, listens, dials, crashes and shutdowns, up to and including the first overtaken unlink: a step removes a listening host's file exactly when it acts on a stale verdict after that host began listening |
| Rendezvous.OwnedFileLostExactlyWhenOvertaken | packages/pipeline-crew-mcp/src/tracker/server.ts:46-86 | over every whole run: some step removes the file of a living peer, bound or listening, exactly when some unlink acts on a stale verdict while another peer is bound but not yet listening, or hosts and began listening after the probe |
| Rendezvous.AtMostOneHost | packages/pipeline-crew-mcp/src/crew/tracker.ts:174-176 | without an overtaken unlink at most one live peer is bound or hosts at any time, and the file names it |
| Rendezvous.SafeWhileNotOvertaken | packages/pipeline-crew-mcp/src/tracker/server.ts:38-44 | every step keeps the protocol invariant until the first overtaken unlink, and no step before it removes the file of a living peer that bound it |
| Rendezvous.TwoHostsAfterOvertaking | packages/pipeline-crew-mcp/src/tracker/server.ts:43-44 | the comment's convergence claim fails: two peers that both probe an orphaned file can both end up hosting |
| Rendezvous.TwoHostsAfterEarlyProbe | packages/pipeline-crew-mcp/src/tracker/server.ts:68-86 | no orphan is needed: on an empty path, a peer that probes between another's bind and listen is refused, unlinks that file, and both end up hosting |
| Rendezvous.Socket.HostOrDial | packages/pipeline-crew-mcp/src/crew/tracker.ts:180-190 | with no other peer stepping in between, a spawner hosts when nobody is live, orphaned file or not, and otherwise becomes a client of the live host; nobody else is moved |
| Rendezvous.StaleExactly | packages/pipeline-crew-mcp/src/tracker/server.ts:64-86 | a probe finds the file stale exactly when it is refused for sure, that is when the file is there and its owner does not listen; after anything unclear this peer removes nothing |
| Rendezvous.FileChangesExactly | packages/pipeline-crew-mcp/src/tracker/server.ts:46-62 | the file goes exactly with a shutdown or an unlink after a stale verdict, and comes exactly with a bind that finds none; a crash leaves it |
| Rendezvous.DialsExactly | packages/pipeline-crew-mcp/src/crew/tracker.ts:172-192 | a peer dials exactly when its bind finds the address in use; any other bind failure ends it |
| Rendezvous.ClientOnlyOfHost | packages/pipeline-crew-mcp/src/crew/tracker.ts:180-190 | a peer becomes a client by dialling only, and exactly of the peer that hosts at that moment with its file in place |
| Rendezvous.ClientWasHosted | packages/pipeline-crew-mcp/src/crew/tracker.ts:180-190 | over every run, whoever is a client was taken in by a peer that was hosting |
| CrewSplit.PlanCrewSplit | packages/pipeline-crew-mcp/src/standup/herdr.ts:285-323 | for every layout the plan is the one for the pane owing most seats, ties to the larger area and then the lower id; no plan exactly for a tab without panes |
| CrewSplit.BestExactly | packages/pipeline-crew-mcp/src/standup/herdr.ts:299-312 | the pane chosen owes as many seats as any, is as large as any that owes as many, and of those comes first by id |
| CrewSplit.SeatsExactly | packages/pipeline-crew-mcp/src/standup/herdr.ts:288-297 | a pane owes m seats exactly when it holds between m - 1/2 and m + 1/2 even shares, halves rounded up, and at least one; the tab measures by its own size, or by its panes where that is not reported |
| CrewSplit.UnsizedOwesOne | packages/pipeline-crew-mcp/src/standup/herdr.ts:295-297 | without a crew size, or in a tab without an area, every pane owes one seat |
| CrewSplit.ListingOrderIsInvisible | packages/pipeline-crew-mcp/src/standup/herdr.ts:305-306 | every listing order of panes with distinct ids gives the same plan |
| CrewSplit.RoundsToOwed | packages/pipeline-crew-mcp/src/standup/herdr.ts:296-297 | geometry within 3d of k shares reads back as exactly k seats when 6d is below the share |
| CrewSplit.SplitKeepsFair | packages/pipeline-crew-mcp/src/standup/herdr.ts:275-278 | one planned split whose sides are off by at most d keeps every pane within 3d of the seats it owes; the bound does not grow |
| CrewSplit.StandupStaysFair | packages/pipeline-crew-mcp/src/standup/herdr.ts:285-323 | after any number of splits every pane is within 3d of its owed seats, and the seat count recomputed from geometry is the true one |
| CrewSplit.FinishedTabIsEven | packages/pipeline-crew-mcp/src/standup/herdr.ts:277-278 | the finished tab has every pane within 3d of the even share, exactly even for d = 0, whatever the crew size |
| CrewSplit.FollowedPlansEndEven | packages/pipeline-crew-mcp/src/standup/herdr.ts:285-323 | composed: a crew stood up by following the planner at every reading of a tab of constant area, each split off by at most d, ends with every pane within 3d of the reported area over the crew size |
| CrewSplit.UnsizedStaysWithinTwo | packages/pipeline-crew-mcp/src/standup/herdr.ts:280-283 | without a crew size, any number of exact splits from a layout within a factor of two keeps the largest pane at most twice the smallest |
| CrewSplit.SplitStaysReadable | packages/pipeline-crew-mcp/src/standup/herdr.ts:260-267 | splitting the longer side on screen tiles nothing into strips: a pane whose sides are within a factor of three on screen splits into two such panes, whatever it owes |
| HerdrLaunch.LaunchSession | packages/pipeline-crew-mcp/src/standup/herdr.ts:397-549 | under arbitrary command failures: a session is reported exactly when the create answered readably and neither the rename nor the run was refused, and then there is exactly one new pane, labelled and commanded; a create without a readable answer reports that nothing is left; a failure after it strands the tab or pane it names exactly when the close is refused too, and otherwise restores the screen |
| HerdrLaunch.CreatePane | packages/pipeline-crew-mcp/src/standup/herdr.ts:409-482 | the first half: a pane is reported exactly when the create answered readably, and it is then the one new pane in a new or the given tab; otherwise the screen is unchanged unless the create was carried out unread. A later session asks for exactly one split once its tab is listed, placed as `ChooseSplit` says |
| HerdrLaunch.ChooseSplit | packages/pipeline-crew-mcp/src/standup/herdr.ts:453-478 | the split asked for is the planner's for the layout that was read and the given crew size; without a layout it halves the last pane listed, right for an even number of panes and down for an odd one |
| HerdrLaunch.NameAndRun | packages/pipeline-crew-mcp/src/standup/herdr.ts:534-549 | the second half: launched exactly when neither the rename nor the run is refused; otherwise back to the screen before the create exactly when the close that follows the refused command is not refused, and else what is left is named |
| HerdrLaunch.Unwind | packages/pipeline-crew-mcp/src/standup/herdr.ts:514-532 | takes the created pane or tab down again and restores the screen exactly when the close is not refused; otherwise names what is stranded |
| HerdrLaunch.RunLaunchLoop | packages/pipeline-crew-mcp/src/standup/orchestrate.ts:617-626 | the crew is up exactly when every launch answers, and then one new tab holds exactly the crew's panes in order, labelled and commanded, with a roster that names them, and every pane but the first was split off as the planner of a crew of that size had it for the layout read at that time; otherwise the first launch that does not answer is the one reported, the earlier panes are still up, something is stranded exactly when its close is refused, and the screen is as before exactly when the first launch failed cleanly |
| HerdrLaunch.StandupEndsEven | packages/pipeline-crew-mcp/src/standup/herdr.ts:270-283 | composed: where every layout is read and every split asked for is carried out to within d, the tab of a crew the loop stood up ends with every pane within 3d of its even share |
| HerdrLaunch.PartialCrewExactly | packages/pipeline-crew-mcp/src/standup/orchestrate.ts:615-626 | whatever the commands answer, a failed stand-up leaves no partial crew exactly when the first `tab create` is refused, or it answers, the rename or the run is refused and the `tab close` after that is not |
| HerdrLaunch.SecondLaunchRefused | packages/pipeline-crew-mcp/src/standup/orchestrate.ts:615-626 | a concrete failing run for every two plans: the first launch succeeds, the second is refused, and the screen has changed |
| HerdrLaunch.UnreadableCreate | packages/pipeline-crew-mcp/src/standup/herdr.ts:417-434 | a concrete failing run for every plan: the create is carried out, its answer cannot be read, the launch reports that nothing is left, and the screen has changed |
| PortableFiles.WithinIsBelow | packages/pipeline/src/portable-files.ts:19-20 | `within` on two real paths means that the candidate's components begin with the root's: a sibling with a longer name is outside |
| PayloadWalk.Walker.Walk | packages/pipeline/src/portable-files.ts:40-57 | the recursive walk over any symlink graph terminates, enters each directory once, and handles everything behind what it entered |
| PayloadWalk.CollectPayloadFiles | packages/pipeline/src/portable-files.ts:37-59 | an absent path is an error; otherwise the result is, as a set, exactly the in-root real files reachable through in-root directories, and the directories read are exactly the reachable in-root ones, each once |
| Jsonc.StripBySkipping | packages/pipeline-crew-mcp/src/standup/config.ts:260-309 | the comment pass that skips two characters at an escape computes the reference text `Clean` |
| Jsonc.StripByFlag | packages/pipeline/src/bin.ts:717-744 | the comment pass with an escape flag computes the same `Clean`: the two strippers agree on every input |
| JsoncGrammar.EveryTextHasACut | packages/pipeline-crew-mcp/src/standup/config.ts:254-309 | every text is a sequence of grammatical pieces: string literals with escapes (perhaps cut off by the end of the text), line comments, block comments (perhaps unclosed), and plain characters |
| JsoncGrammar.CleanDropsCommentPieces | packages/pipeline-crew-mcp/src/standup/config.ts:254-309 | for every text and every grammatical cut of it, both strippers return exactly the pieces that are no comments, untouched and in order |
| JsoncGrammar.LiteralsAreLiteralPieces | packages/pipeline/src/bin.ts:712-716 | the literals of a text are its literal pieces, in order |
| JsoncLaws.StrippedReadsAlike | packages/pipeline-crew-mcp/src/standup/config.ts:256-309 | the stripped text reads character by character as the original does with its comments left out: same characters, same parts |
| JsoncLaws.CleanKeepsLiterals | packages/pipeline/src/bin.ts:713-716 | every string literal is copied unchanged, in order |
| JsoncLaws.NoCommentLeft | packages/pipeline/src/bin.ts:713-716 | no comment opener is left outside a string, and nothing but comment characters is gone |
| JsoncLaws.CleanIsIdempotent | packages/pipeline-crew-mcp/src/standup/config.ts:260-309 | stripping twice is stripping once |
| JsoncLaws.StripJsonc | packages/pipeline-crew-mcp/src/standup/config.ts:260-312 | `stripJsonc` is the comment pass followed by the deletion of commas before closing brackets |
| JsoncLaws.DropsDanglingCommas | packages/pipeline-crew-mcp/src/standup/config.ts:310-311 | `stripJsonc` leaves out exactly the comments, and then the commas that only white space separates from a closing brace or bracket |
| JsoncLaws.LiteralsKeptExactly | packages/pipeline-crew-mcp/src/standup/config.ts:310-311 | `stripJsonc` keeps every literal exactly when none holds a comma that only white space separates from a closing bracket; otherwise it deletes just those commas from it |
| JsoncLaws.CommaInStringLost | packages/pipeline-crew-mcp/src/standup/config.ts:257-258 | a comma inside a string is not always preserved: the literal `",]"` becomes `"]"` |
| VerbPath.CheckVerbPath | packages/pipeline-cli/src/verb-path.ts:164-206 | the loop over the argv computes the reference walk `Check` |
| VerbPath.Unwrap | packages/pipeline-cli/src/verb-path.ts:58-64 | the declaration returned is reached through wrappers without a name: it is the first named one within eight of them, or else the eighth or the innermost |
| VerbPath.FlagArity | packages/pipeline-cli/src/verb-path.ts:67-77 | the loops build the map that `ArityExactly` describes |
| VerbPath.ArityExactly | packages/pipeline-cli/src/verb-path.ts:66-77 | a name is known exactly when some flag goes by it, itself or by an alias, and the last such flag decides: it takes a value unless it is declared Boolean |
| VerbPath.PositionalBound | packages/pipeline-cli/src/verb-path.ts:110-113 | the operand count is unguarded exactly when some positional cannot be read or is unbounded |
| VerbPathLaws.BoundsAddUp | packages/pipeline-cli/src/verb-path.ts:109-113 | bounds of positionals add up, and one that cannot be read spoils the sum |
| VerbPathLaws.FlagNameReads | packages/pipeline-cli/src/verb-path.ts:178-179 | a flag token is looked up by what stands between its dashes and the first `=` |
| VerbPathLaws.PlainPositionals | packages/pipeline-cli/src/verb-path.ts:101-104 | plain single positionals count one each |
| VerbPathLaws.PositionalCountsExactly | packages/pipeline-cli/src/verb-path.ts:95-107 | a positional takes a known number of operands exactly when it is a plain single one, or an argument with a readable cap; then it takes one, or as many as the cap says |
| VerbPathLaws.UnreadableLiftsTheGuard | packages/pipeline-cli/src/verb-path.ts:88-94 | one unbounded, wrapped or unreadable positional lifts the operand guard of the whole verb |
| VerbPathLaws.WellFormedExactly | packages/pipeline-cli/src/verb-path.ts:164-206 | for any mix of verbs, declared flags with values other than `--`, and undashed operands: null exactly when the operands are within the bound or the bound is unreadable, otherwise the first operand past the bound, with the verb path and the bound |
| VerbPathLaws.InvocationExactly | packages/pipeline-cli/src/verb-path.ts:116-206 | for the tree derived from any registered commands: an invocation that reads well names a registered command, and is refused exactly when it has more operands than that command's positionals take, naming the first one too many |
| VerbPathLaws.SwitchLeavesOperand | packages/pipeline-cli/src/verb-path.ts:66-77 | for any registered commands: after a verb and a flag declared Boolean, or any flag joined to its value by `=`, the next word is an operand of the command, refused exactly when its positionals take none |
| VerbPathLaws.ValueIsSwallowed | packages/pipeline-cli/src/verb-path.ts:66-77 | after a verb and any other flag, one without a primitive included, the next token is its value and nothing is refused |
| VerbPathLaws.NothingRegistered | packages/pipeline-cli/src/verb-path.ts:119-130 | with nothing registered every word is one operand too many |
| VerbPathLaws.RefusesExactly | packages/pipeline-cli/src/verb-path.ts:145-163 | for every tree and argv the guard refuses exactly when the tokens before the named one read as verbs, declared flags and operands within the bound, and the named one is an unknown verb of a group or one operand too many: it never guesses past a bare `--` or an undeclared flag |
| VerbPathLaws.UnknownVerbCarriesLongestPath | packages/pipeline-cli/src/verb-path.ts:190-197 | an unknown-verb refusal carries the longest resolvable path: one token more does not resolve; it lists all children there |
| CpCardinality.DistinctMembers | packages/pipeline-cli/src/tools/cp-cardinality/cp-cardinality.ts:48-56 | the loop yields the trimmed non-blank entries, each once, in order of first occurrence |
| CpCardinality.DischargesExactly | packages/pipeline-cli/src/tools/cp-cardinality/cp-cardinality.ts:94-128 | discharged exactly when both counts are usable, the author is known, and either the author is the whole authority and the exception is proven, or enough others exist and approve; capacity is only blamed rightly |
| CpCardinality.VerdictExactly | packages/pipeline-cli/src/tools/cp-cardinality/cp-cardinality.ts:94-128 | the verdict counts the authority, says which shape it has, and gives the one reason that holds of the counts, the author, the authority and the exception; it discharges for two of the reasons only |
| ReviewEvidence.ParseMembers | packages/pipeline-cli/src/tools/cp-cardinality/evidence-github-team.ts:122-136 | the roster fails exactly when some entry is unreadable; otherwise it holds each eligible login once, trimmed and not blank |
| ReviewEvidence.LatestByReviewer | packages/pipeline-cli/src/tools/cp-cardinality/evidence-github-team.ts:214-218 | the fold loop computes `Fold` |
| ReviewEvidence.FoldKeepsLatest | packages/pipeline-cli/src/tools/cp-cardinality/evidence-github-team.ts:214-218 | the fold keeps, for every reviewer, one of their reviews with the highest id |
| ReviewEvidence.CountApprovals | packages/pipeline-cli/src/tools/cp-cardinality/evidence-github-team.ts:219-222 | the number of reviewers whose kept review approves the head, each once, whatever order the map lists them in |
| ReviewEvidence.ResolveEvidence | packages/pipeline-cli/src/tools/cp-cardinality/evidence-github-team.ts:219-239 | the facts handed to the decision carry the number of reviewers whose kept review approves |
| ReviewEvidence.CountedAreApprovers | packages/pipeline-cli/src/tools/cp-cardinality/evidence-github-team.ts:220-222 | with ids that tell reviews apart, those counted are exactly the members other than the author whose highest-id review has state APPROVED and names the head commit |
| ReviewEvidence.NewHeadDropsApprovals | packages/pipeline-cli/src/tools/cp-cardinality/evidence-github-team.ts:219-222 | when the head has moved to a commit that no review names, no approval is left, and nothing is discharged unless the author is the whole roster |
| ReviewEvidence.NewerReviewDecides | packages/pipeline-cli/src/tools/cp-cardinality/evidence-github-team.ts:214-222 | a newer review takes its author's approval back, unless it is itself an approval of the head by a member other than the author, and changes nobody else's |
| ReviewEvidence.ReviewOrderIsInvisible | packages/pipeline-cli/src/tools/cp-cardinality/evidence-github-team.ts:214-222 | with ids that tell reviews apart, permuting or repeating reviews changes neither what the fold keeps nor the decision |
| ReviewEvidence.DischargedExactlyByApprovers | packages/pipeline-cli/src/tools/cp-cardinality/cp-cardinality.ts:120-128 | composed: with a member besides the author, discharged exactly when the number of such approvers reaches the threshold |
| ReviewEvidence.CapacityNeverBlocks | packages/pipeline-cli/src/tools/cp-cardinality/cp-cardinality.ts:120-123 | the capacity test never blocks a threshold that the approvals reach |
| ReviewEvidence.SoleAuthorExactlyByException | packages/pipeline-cli/src/tools/cp-cardinality/cp-cardinality.ts:113-118 | composed: when the author is the whole roster, the exception alone decides |

## Left out

- Issue, story and pane numbers are natural numbers of any size, review ids integers of any size; NaN, fractions and infinities appear only as `NotWhole` thresholds.
- Line recognition by regular expressions: lines come classified as heading (level, what it opens), list item (subject and `requires:` references) or other text.
- Keys built by joining numbers (`seen`, edge keys, defect signatures) are the lists themselves; joining decimal numerals and closed-set words with a separator they do not contain is one-to-one.
- Message and comment texts: a verdict, park note or defect is the data its text is made from.
- LedgerFloor.PresentationIsInvisible: stated for ledgers in which different linked children have different numbers, as the issue tracker hands them out; two different children of one number would keep their array order in the stable sort.
- The gate's label flips run concurrently: a batch is one call here, and a refused batch leaves any subset of its children touched. The label removal and the label addition of one child count as one touch.
- Ledgers change between reads by any means: re-planning is a call without a modelled effect on what is read next.
- Effect layers, RPC framing, sockets, child processes, `gh` and `git`: only the outcomes of their steps.
- The registry's clock is a parameter of each operation; the service methods are atomic, as the shared cell's updates are.
- Rendezvous: closing a server removes whatever file stands at its path. A probe, unlink or bind that ends in any other error is one failed step.
- CrewSplit: areas are reals, and the four-decimal ratio and whole-cell rounding count as part of the error d of a split, not as floating-point steps; the split axis is part of the plan but what herdr does with it is in d.
- HerdrLaunch: the ratio is a real number where the program prints four decimals. Process ids, environment and working-directory arguments are left out.
- The payload walk takes the file system as fixed while it runs; permission errors are not modelled. The result is described as a set: the order of its files, and a file reached twice being listed twice, are not.
- The JSONC strippers work on characters where the program works on UTF-16 units; every character they look for is one unit.
- Verb-path refusal texts, and the commands actually registered: the tree is any tree, or derived from any commands.
- Decoding of GitHub replies except the roster's own rules; whether a comment matches the configured pattern is a parameter.
- The policy parsers and single-pass guards of the CLI (`ci-required`, `catalog-guard`, `class-probe`, `change-detect-guard`, `adoption-lint`, `changelog`, `crew-fanout-guard`), tmux argument building, and the locked writers of `register-project-scope.ts`: no protocol state and no invariant of several functions is involved there.
