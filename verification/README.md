# Verification of the SiliconCompiler flow engine

This project models the parts of SiliconCompiler that decide what runs, in which order and on which
files, and proves what a user of them relies on. `dafny verify dfyconfig.toml` checks all of it.

**Flowgraphs** (`siliconcompiler/flowgraph.py`). A flow is a map from nodes (step, index) to an ordered
input list and task fields. `Flows`, `Renaming`, `Composition` and `Edits` describe each edit as a
change of the graph; `Flowgraphs` holds the class with its memo fields, whose methods rewrite the input
lists in place and are proved against those descriptions. `Scheduling` proves that the level loop
computes longest-path layers and says exactly on which graphs it ends. `Validation` treats the cycle
search, `RunViews` and `RuntimeFlowgraphs` the sub-view run under from/to/prune options, and `Skipping`
the resolution of inputs through skipped nodes. `Digraphs` and `Surgery` are the graph theory
underneath: walks, cycles, settling rounds, contraction, interposition, relabelling.

**Filesets and file lists** (`siliconcompiler/design.py`). `Filesets` models the recursion that shares a
visited set, a list and a map across design objects, and says exactly when its answer is what can be
reached; `FilesetChoices` says what the answer means when designs share a name, and `FilesetNames` runs
it on concrete designs of one name; `Aliases` shows that an alias amounts to rewritten references.
`FileLists` holds the writer and the reader of `.f` files as a printer and parser pair, `DesignLists`
joins them with the resolved filesets of a design, and `DataRoots` and `RelPaths` treat where paths lead
and what the reader stores: the prefix cover of directories, their generated names (`Decimals`) and the
relative paths below them.

**Streams and the task registry** (`siliconcompiler/tool.py`, `siliconcompiler/utils/settings.py`).
`Streams` models the incremental line splitter; `Registry` the population of the three task categories
as a state machine over threads, aborts and forks, beside the code of one population.

**Smaller cores.** `Wafer` counts dies per wafer over exact reals, `Install` treats dependency closures,
fingerprints and the resumable install loop, and `CellAreas` the unique names of a report.

## What the code does, where one might expect otherwise

- `insert_node` puts the new node after `before_step`: its old consumers then take input from the new
  node (`siliconcompiler/flowgraph.py:346-351`), although the docstring says it goes before. A node that
  already exists can be inserted too: `Flows.InsertWellFormedIff`, `Flows.InsertKeepsIff` and
  `Flows.InsertAcyclicIff` say exactly when that repeats no input, loses no connection and closes no
  cycle.
- `remove_node` on a node that feeds itself and another node leaves a dangling edge, and in no other
  case (`Flows.RemoveDanglingIff`); removing a whole step does so exactly when a loop of removed nodes
  is left behind (`Edits.RemoveSeqWellFormedIff`).
- `rename_node` on a flow with undefined inputs can connect nodes that were not connected
  (`Renaming.RenameConnects`): `Renaming.RenameReachesIff` says exactly when it does not, and
  `Renaming.RenameInverse` exactly when renaming back restores the flow.
- `graph` copies a sub-flow with undefined inputs as it is; `Composition.GraftWellFormedIff` says
  whether the result has any, and `Composition.GraftReachesSub` what is connected to what.
- `validate` looks for loops only from entry nodes (`siliconcompiler/flowgraph.py:775`), so it accepts a
  cycle that no entry leads to. If such a cycle feeds a node that an entry feeds too, the loop of
  `get_execution_order` never ends (`Validation.AcceptedNotSchedulable`, `Scheduling.NeverEnds`).
- `get_execution_order` on a flow with undefined inputs, which `validate` refuses but nothing else does:
  forward, it never ends if an entry and an undefined node feed the same node
  (`Scheduling.UndefinedInputStalls`), and leaves out the nodes no entry leads to
  (`Scheduling.ScheduledIff`); reversed, it lists the undefined nodes among the others
  (`Scheduling.Waits`).
- The forward walk of `get_nodes_starting_at` is not confined to the view: with a second start node
  ahead it can report a node outside (`RuntimeFlowgraphs.ReportLeavesView`).
  `RunViews.StartingAtExactIff` says exactly when it does not: when no edge leads from the part of the
  view that the node leads to, out of the view, to where an unpruned walk comes to a sink of the view.
- A skipped input outside the view is expanded by one level only, so a skipped node can remain among the
  inputs; `Skipping.LeakIff` says exactly when, and `RuntimeFlowgraphs.InputLeaks` gives a flow and
  options under which it does.
- `graph` stops with an error at the first step whose new name is taken; the steps copied before it stay
  (`Flowgraphs.Flowgraph.Instantiate`).
- Filesets are remembered by design name. With two designs of one name a fileset that was reached can be
  lost and one that its design does not define be returned (`FilesetNames.WrongDesignReturned`), and a
  fault can go unnoticed (`FilesetNames.FaultPasses`). Where no reference is aliased to an empty list,
  the answer is right exactly when no two designs that are entered have the same name
  (`Filesets.FilesetExactIffApart`); in general that is enough (`Filesets.FilesetIsReachability`), and
  it is necessary that the designs of all reached filesets have different names
  (`Filesets.FilesetExactOnlyIf`). In every world the answer is, up to the objects behind the names, one
  reached and faultless fileset for every name (`FilesetChoices.AnswerIsChoice`). An alias to an empty
  list enters a design for no fileset, which can take the name of another
  (`FilesetNames.EmptyAliasTakesName`) or do no harm (`FilesetNames.EmptyAliasHarmless`).
- `compute_fingerprint` digests script, prerequisites and metadata as one text, so text that moves from
  the end of the script to the start of the prerequisites is not noticed
  (`Install.FingerprintSeesText`).
- Reading a second file list of the same base name into one fileset is refused when a root of it differs
  from the root the first list gave that name (`DataRoots.ReadFlist`).
- The file list reader takes a path that starts with `//` for a comment (`FileLists.FileSurvivesIff`).
- Populating one task category leaves its siblings non-empty and incomplete
  (`Registry.NonEmptyIsNotComplete`); this is why the code tests a marker.

## Model

| member | source | states |
|---|---|---|
| Flows.NodeLessIff | siliconcompiler/flowgraph.py:486-496 | Nodes are sorted by step and, within a step, by index: the first character that differs decides, and what is over comes first |
| Flows.AddEdgeKeeps | siliconcompiler/flowgraph.py:213-229 | Connecting two defined nodes adds exactly that one edge and keeps the flow free of dangling and repeated inputs |
| Flows.AddEdgeAcyclic | siliconcompiler/flowgraph.py:213-229 | An edge closes a cycle exactly when its head already leads to its tail |
| Flows.BindKeepsEdges | siliconcompiler/flowgraph.py:103-177 | Defining or redefining a node changes no edge |
| Flows.RemoveContracts | siliconcompiler/flowgraph.py:285-307 | Removing a node is contraction: its consumers take over its inputs, without repeats |
| Flows.RemoveDanglingIff | siliconcompiler/flowgraph.py:285-307 | Removal leaves a dangling edge exactly when the node feeds itself and another node |
| Flows.RemoveKeepsConnections | siliconcompiler/flowgraph.py:272-309 | On every flow removing a node keeps which other nodes reach each other; if it does not feed itself, also well-formedness, and acyclicity both ways |
| Flows.InsertInterposes | siliconcompiler/flowgraph.py:336-353 | The node, new or old, takes over all consumers of the named node and has that node as its one input; no input is undefined |
| Flows.InsertWellFormedIff | siliconcompiler/flowgraph.py:336-353 | Inserting repeats an input exactly when the node is old and shares a consumer with the named node |
| Flows.InsertReachesIff | siliconcompiler/flowgraph.py:336-353 | Exactly which of the other nodes reach each other afterwards |
| Flows.InsertKeepsIff | siliconcompiler/flowgraph.py:336-353 | No connection is lost exactly when all old inputs of the node can be reached from the named node without passing through it |
| Flows.InsertAcyclicIff | siliconcompiler/flowgraph.py:336-353 | Inserting into an acyclic flow closes a cycle exactly when the named node already depends on the node |
| Flows.InsertKeepsConnections | siliconcompiler/flowgraph.py:336-353 | So a new node keeps well-formedness, which old nodes reach each other, and acyclicity both ways |
| Flows.RemoveInserted | siliconcompiler/flowgraph.py:285-353 | Removing the node just inserted gives the old edges back; only the touched input lists come back sorted |
| Flows.InsertExistingLosesInputs | siliconcompiler/flowgraph.py:339-353 | A concrete acyclic flow on which inserting an existing node loses a connection |
| Renaming.RelabelIsomorphic | siliconcompiler/flowgraph.py:386-417 | Where no two names that the flow mentions become one, renaming is a graph isomorphism: reachability, cycles and levels carry over, in both directions of the flow |
| Renaming.RenamerApartIff | siliconcompiler/flowgraph.py:386-417 | That is so exactly when no input list speaks of what a name of the old step becomes |
| Renaming.RenameReachesIff | siliconcompiler/flowgraph.py:386-417 | On every flow renaming keeps which nodes reach each other exactly when each node that takes input from an undefined node of the new name depends on the renamed one already |
| Renaming.RenameConnects | siliconcompiler/flowgraph.py:386-417 | A concrete flow on which renaming connects two nodes |
| Renaming.RelabelAcyclic | siliconcompiler/flowgraph.py:386-417 | Renaming that makes no two names one neither makes nor breaks cycles |
| Renaming.RelabelEnds | siliconcompiler/flowgraph.py:386-417 | Entries and exits of such a renamed flow are the renamed entries and exits |
| Renaming.RenameInverse | siliconcompiler/flowgraph.py:386-417 | On every flow renaming a step and renaming it back restores the flow, order of input lists included, exactly when no input list spoke of the new name before |
| Composition.PrefixerInjective | siliconcompiler/flowgraph.py:444-470 | The prefix given to an instantiated sub-flow never makes two names equal |
| Composition.GraftNodes | siliconcompiler/flowgraph.py:441-473 | For every host and sub-flow: nodes and entries are the host's together with the renamed sub-flow's; so are the exits, but for those the other flow refers to |
| Composition.DefinedApart | siliconcompiler/flowgraph.py:441-473 | A flow without undefined inputs takes nothing from the other |
| Composition.GraftKeepsHost | siliconcompiler/flowgraph.py:441-473 | Every host node keeps its connections, cycles and execution level: along its inputs if the host takes nothing from the sub-flow, along its consumers if the sub-flow takes nothing from the host |
| Composition.GraftKeepsSub | siliconcompiler/flowgraph.py:441-473 | On the corresponding conditions every sub-flow node keeps them under its new name and leads only to what the sub-flow mentions |
| Composition.GraftReachesSub | siliconcompiler/flowgraph.py:441-473 | Whatever undefined inputs the sub-flow has, its nodes lead to what they led to under the new names, and behind every input found in the host to what the host leads to from there |
| Composition.GraftWellFormedIff | siliconcompiler/flowgraph.py:441-473 | The union has no undefined and no repeated input exactly when the sub-flow repeats none and each of its inputs is its own or, under the new name, the host's |
| Composition.GraftAcyclic | siliconcompiler/flowgraph.py:441-473 | The union is acyclic exactly when host and sub-flow are, whatever undefined inputs the sub-flow has |
| Edits.AcceptsIff | siliconcompiler/flowgraph.py:72-456 | For every call, exactly when it is refused: by the nodes and steps there are, and by names that are reserved, start with `sc_` or hold a slash |
| Edits.EditDoes | siliconcompiler/flowgraph.py:103-473 | Every accepted call, read off the flow before and after: which nodes there are, what each is bound to, and its inputs in their order, under which names |
| Edits.RemoveSeqKeeps | siliconcompiler/flowgraph.py:272-309 | On every flow removing any list of nodes keeps which others reach each other; acyclicity is kept, and on acyclic flows well-formedness |
| Edits.RemoveSeqWellFormedIff | siliconcompiler/flowgraph.py:272-309 | Removing many nodes leaves an undefined input exactly when a remaining node takes input from removed nodes that lead into a cycle of removed nodes |
| Edits.EditWellFormedIff | siliconcompiler/flowgraph.py:103-473 | For every accepted edit of a well-formed flow the exact condition, `Tidy`, under which the result has no undefined and no repeated input |
| Edits.EditAcyclicIff | siliconcompiler/flowgraph.py:103-473 | For every accepted edit of a well-formed acyclic flow the exact condition, `Forward`, under which the result is acyclic |
| Edits.RunKeepsIff | siliconcompiler/flowgraph.py:103-473 | Over every sequence of accepted edits: all flows on the way are well-formed exactly when every edit is tidy, and acyclic too exactly when every edit is tidy and forward |
| Flowgraphs.Flowgraph.constructor | siliconcompiler/flowgraph.py:31-46 | A new flow is empty and its memo fields agree with it |
| Flowgraphs.Flowgraph.ClearCache | siliconcompiler/flowgraph.py:48-65 | All memo fields are dropped and the flow is unchanged |
| Flowgraphs.Flowgraph.AddNode | siliconcompiler/flowgraph.py:103-177 | Refused exactly for reserved names; else the described flow, with memo fields that agree with it |
| Flowgraphs.Flowgraph.AddEdge | siliconcompiler/flowgraph.py:213-229 | Refused exactly for undefined ends; else the described flow; memo fields agree |
| Flowgraphs.Flowgraph.RemoveNode | siliconcompiler/flowgraph.py:272-309 | Refused exactly for an undefined node; else the contracted flow; memo fields agree |
| Flowgraphs.Flowgraph.RemoveStep | siliconcompiler/flowgraph.py:272-309 | Removes all nodes of a step, one after the other; memo fields agree |
| Flowgraphs.Flowgraph.InsertNode | siliconcompiler/flowgraph.py:336-353 | Refused exactly when the named node is undefined or the new name reserved; else the interposed flow; memo fields agree |
| Flowgraphs.Flowgraph.RenameNode | siliconcompiler/flowgraph.py:386-417 | Refused exactly when the old step is undefined, or the new name reserved or taken; else the relabelled flow; memo fields agree |
| Flowgraphs.Flowgraph.Instantiate | siliconcompiler/flowgraph.py:441-473 | Accepted exactly when no new name is taken, and then the union; on refusal the host as it was with some steps of the sub-flow added under names it did not have; memo fields agree |
| Flowgraphs.Flowgraph.GetNodes | siliconcompiler/flowgraph.py:486-496 | The sorted nodes of the flow as it is now, memo or not |
| Flowgraphs.Flowgraph.GetEntryNodes | siliconcompiler/flowgraph.py:510-520 | The sorted entries of the flow as it is now |
| Flowgraphs.Flowgraph.GetExitNodes | siliconcompiler/flowgraph.py:534-547 | The sorted exits of the flow as it is now |
| Flowgraphs.Flowgraph.GetExecutionOrder | siliconcompiler/flowgraph.py:571-640 | On every flow the loop ends on, the execution order of the flow as it is now, forward or reversed |
| Flowgraphs.Flowgraph.GetNodeOutputs | siliconcompiler/flowgraph.py:661-687 | The sorted consumers of a node as the flow is now, or a refusal exactly for an undefined node |
| Flowgraphs.Flowgraph.ValidateFlow | siliconcompiler/flowgraph.py:742-783 | Accepts exactly the flows `Accepted` describes, through the memoised queries |
| Scheduling.ComputeOrder | siliconcompiler/flowgraph.py:578-640 | On every flow, undefined inputs included: where the loop ends, it computes the layering |
| Scheduling.VisitLevel | siliconcompiler/flowgraph.py:600-616 | One pass visits exactly the nodes whose dependencies are all visited, collects their consumers and defers the rest |
| Scheduling.FilterDuplicates | siliconcompiler/flowgraph.py:623-633 | The backward pass leaves each node in its last level, sorted |
| Scheduling.LevelIsLongestChain | siliconcompiler/flowgraph.py:578-640 | Level k holds exactly the nodes whose longest chain of dependencies has k edges and whose chains all end at defined nodes |
| Digraphs.LongestWalkEnds | siliconcompiler/flowgraph.py:578-640 | That chain ends at a node without dependencies: an entry, or an exit when reversed |
| Scheduling.LevelSorted | siliconcompiler/flowgraph.py:623-633 | Levels are listed in increasing order without repeats |
| Scheduling.LevelsNonEmpty | siliconcompiler/flowgraph.py:578-640 | No level of a non-empty acyclic flow is empty |
| Scheduling.EveryNodeScheduled | siliconcompiler/flowgraph.py:578-640 | Every node of an acyclic flow is in the level of its height |
| Scheduling.ScheduledOnce | siliconcompiler/flowgraph.py:623-633 | No node is in two levels |
| Scheduling.DependenciesFirst | siliconcompiler/flowgraph.py:578-640 | Every edge leads to a strictly later level |
| Scheduling.AcyclicSchedulable | siliconcompiler/flowgraph.py:598-621 | On acyclic flows the loop ends |
| Scheduling.FrontierEnds | siliconcompiler/flowgraph.py:598-621 | On graphs where no cycle and no undefined node feeds a node that an entry also feeds, the loop runs out of work within as many rounds as there are nodes |
| Scheduling.NeverEnds | siliconcompiler/flowgraph.py:598-621 | On all other graphs no round is ever without work |
| Scheduling.ScheduledIff | siliconcompiler/flowgraph.py:598-640 | Where the loop ends, exactly the nodes with an entry behind them are scheduled |
| Scheduling.UndefinedInputStalls | siliconcompiler/flowgraph.py:600-611 | A node that an entry and an undefined node feed keeps the forward loop from ever ending |
| Digraphs.SettlesIff | siliconcompiler/flowgraph.py:598-621 | A node settles exactly when none of its dependencies, near or far, is undefined or lies on a cycle |
| Validation.FindLoops | siliconcompiler/flowgraph.py:708-722 | The depth-first search returns a walk whose last node repeats, or none exactly because nothing ahead can repeat |
| Validation.FindLoopFrom | siliconcompiler/flowgraph.py:708-722 | From a start node: a real loop, or None exactly when no cycle can be reached |
| Validation.DistinctIffCounts | siliconcompiler/flowgraph.py:747-756 | Counting each input is a correct test for repeated inputs |
| Validation.CheckEdges | siliconcompiler/flowgraph.py:744-763 | The edge checks fail exactly on flows with an undefined or repeated input |
| Validation.Validate | siliconcompiler/flowgraph.py:742-783 | Accepts exactly when inputs are defined and unrepeated, task fields set, and no cycle can be reached from an entry |
| Validation.AcceptedAcyclicIff | siliconcompiler/flowgraph.py:774-783 | An accepted flow is acyclic exactly when every node can be reached from an entry |
| Validation.AcceptedSchedulable | siliconcompiler/flowgraph.py:742-783 | Then it can be scheduled, forward and reversed |
| Validation.AcceptedNotSchedulable | siliconcompiler/flowgraph.py:774-783 | A concrete flow that is accepted and on which the scheduler never ends |
| RunViews.ExploreIs | siliconcompiler/flowgraph.py:1332-1357 | On acyclic flows the recursive walk returns exactly the nodes on unpruned walks to a first stop |
| RunViews.ExploreTrail | siliconcompiler/flowgraph.py:1332-1357 | On any flow, whatever the walk returns comes with an unpruned walk to it |
| RunViews.ViewIsRunPaths | siliconcompiler/flowgraph.py:1366-1372 | On acyclic flows, with or without undefined inputs, the view is exactly the nodes on unpruned from-to paths with no other start node after the first |
| RunViews.ViewMonotone | siliconcompiler/flowgraph.py:1366-1372 | The view shrinks as more is pruned |
| RunViews.DefaultViewIs | siliconcompiler/flowgraph.py:1250-1372 | With default options the view is exactly the nodes an entry leads to |
| RunViews.DefaultViewIsAll | siliconcompiler/flowgraph.py:1250-1372 | Without undefined inputs that is the whole flow |
| RunViews.SourcesAreStarts | siliconcompiler/flowgraph.py:1374-1383 | Nodes without an input in the view are start nodes |
| RunViews.SinksAreEnds | siliconcompiler/flowgraph.py:1374-1388 | On any flow, nodes without a consumer in the view are end nodes, and no pruned node is in view |
| RunViews.StartingAtComplete | siliconcompiler/flowgraph.py:1450-1455 | On any flow, the report includes everything reachable inside the view |
| RunViews.WalkInViewIff | siliconcompiler/flowgraph.py:1366-1372 | A walk from a node of the view stays in the view exactly when the run goes on to an end node from each of its nodes, unpruned and past no start node |
| RunViews.StartingAtExactIff | siliconcompiler/flowgraph.py:1450-1455 | On acyclic flows the report is exactly what can be reached inside the view if and only if no edge leads out of that part, from a node that is not a sink of the view, to a node outside from which an unpruned walk comes to a sink of the view |
| RunViews.StartingAtExactWalks | siliconcompiler/flowgraph.py:1450-1455 | Equally, if and only if from every node on a walk to a first sink of the view the run goes on to an end node |
| RunViews.StartingAtExact | siliconcompiler/flowgraph.py:1450-1455 | So it is with no other start node ahead |
| RunViews.DefaultStartNotAhead | siliconcompiler/flowgraph.py:1450-1455 | With default start nodes none is ahead |
| RunViews.StartingAtLeavesView | siliconcompiler/flowgraph.py:1450-1455 | With another start node ahead, a node outside the view can be reported |
| RuntimeFlowgraphs.ReportLeavesView | siliconcompiler/flowgraph.py:1450-1455 | The same on a concrete flow with concrete options |
| RunViews.SimplePathInView | siliconcompiler/flowgraph.py:1366-1372 | On any flow the view holds every unpruned from-to path that meets no node twice and no start node again |
| RunViews.ViewConnects | siliconcompiler/flowgraph.py:1366-1372 | On any flow every node of the view leads, past no pruned node, to an end node that a start node leads to as well |
| RuntimeFlowgraphs.ViewIsAsked | siliconcompiler/flowgraph.py:1257-1372 | From the options alone: on acyclic flows the view is the nodes on paths from a node of a from-step, or without inputs, to a node of a to-step, or without consumers, that hold no pruned node and no other such start; for one step or node it is just that, on any flow |
| RuntimeFlowgraphs.WalkGraph | siliconcompiler/flowgraph.py:1332-1357 | The recursive method, through the memoised queries of the base flow, returns the union of paths of `Explore`, and nothing behind an undefined input |
| RuntimeFlowgraphs.RuntimeFlowgraph.Initialise | siliconcompiler/flowgraph.py:1250-1312 | On every flow that can be scheduled: refused exactly for undefined steps or indices; else no pruned node is run, every simple path that the options ask for is, every node run leads to an end that a start leads to, and on acyclic flows, or for one step or node, what is run is exactly what the options ask for; ends and entries reported are those without a consumer or input among the nodes run, with a schedule of them exactly when an entry is behind each; the base flow is untouched |
| RuntimeFlowgraphs.RuntimeFlowgraph.ComputeGraph | siliconcompiler/flowgraph.py:1366-1395 | Nodes, entries, exits and levels of the view from the resolved ends |
| RuntimeFlowgraphs.FilteredIsSchedule | siliconcompiler/flowgraph.py:1390-1395 | The order cut down to the view holds each view node once, has no empty level and leads every edge inside the view to a later level exactly when an entry is behind every view node, as on every acyclic flow without undefined inputs |
| RuntimeFlowgraphs.EndsAreViewEnds | siliconcompiler/flowgraph.py:1374-1388 | On acyclic flows reported entries and exits are exactly the sources and sinks of the view |
| RuntimeFlowgraphs.RuntimeFlowgraph.GetNodesStartingAt | siliconcompiler/flowgraph.py:1450-1455 | Refused exactly outside the view; on any flow an unpruned path leads to all that is reported, and nothing reachable inside the view is missing; on acyclic ones the report is exactly what unpruned walks to a first exit go through, and exact if and only if the walk cannot stray from the view |
| RuntimeFlowgraphs.RuntimeFlowgraph.GetNodeInputs | siliconcompiler/flowgraph.py:1474-1512 | On every flow without a cycle of skipped nodes in view: refused exactly outside the view; without a record the sorted inputs that are defined and not pruned, with one those found by looking through skipped nodes |
| RuntimeFlowgraphs.ResolveInputs | siliconcompiler/flowgraph.py:1489-1512 | The recursion through skipped inputs computes `Resolved` |
| Skipping.ThroughIsContraction | siliconcompiler/flowgraph.py:1489-1512 | Looking through skipped nodes all the way is contracting them, in whatever order |
| Skipping.ResolvedIsThrough | siliconcompiler/flowgraph.py:1497-1507 | Exactly what the inputs are for any view: skipped nodes in view looked through all the way, those outside replaced by their direct inputs |
| Skipping.SkippingIsContraction | siliconcompiler/flowgraph.py:1489-1512 | With all skipped nodes in view, inputs are those after contracting every skipped node, and none of them is skipped |
| Skipping.SkippingIsRemoval | siliconcompiler/flowgraph.py:1489-1512 | With nothing pruned and all in view, inputs are those after `remove_node` on every skipped node, in any order |
| Skipping.LeakIff | siliconcompiler/flowgraph.py:1497-1507 | A skipped node remains exactly when it feeds a skipped node met outside the view |
| RuntimeFlowgraphs.SkippedLeaks | siliconcompiler/flowgraph.py:1497-1507 | On every chain of three steps run from the last alone, with the others skipped, one remains |
| RuntimeFlowgraphs.InputLeaks | siliconcompiler/flowgraph.py:1497-1507 | The same on a concrete flow |
| Filesets.Resolution.Collect | siliconcompiler/design.py:862-916 | The recursion on shared state, with its errors, computes `Gather`; it ends on cyclic dependencies |
| Filesets.ResolveFilesets | siliconcompiler/design.py:943-946 | The public entry point computes `GetFileset`; where no two designs that are opened have the same name, it raises exactly when a chain of references comes to something that cannot be followed, and else returns exactly what such chains come to, a reference meaning what alias, own name and dependencies say |
| Filesets.AnswerIsFollowed | siliconcompiler/design.py:862-946 | The same of `GetFileset`, for every world and alias |
| Aliases.AliasesRewrite | siliconcompiler/design.py:881-905 | Resolving under an alias gives, order and failures included, the answer of resolving without one the world whose references are rewritten: deleted ones dropped, the others to the design of the alias, under the old, the one or each of the new filesets; the lists must be non-empty and defined |
| Aliases.MarkExists | siliconcompiler/design.py:881-905 | There are always new names under which the rewritten references can find those designs |
| Aliases.LibrarySwapped | siliconcompiler/design.py:881-905 | A concrete design and library: without an alias, with another fileset of another library, with that library alone, and with the reference deleted |
| Filesets.FilesetExactIff | siliconcompiler/design.py:862-946 | The result is exactly the filesets reachable along references, aliases substituted and deleted ones cut, if and only if the search maps the name of every reached design to that design |
| Filesets.FilesetExactOnlyIf | siliconcompiler/design.py:862-946 | It is exact only if the designs of all reached filesets have different names |
| Filesets.FilesetExactIffApart | siliconcompiler/design.py:862-946 | Where no reached reference is aliased to an empty list, if and only if no two designs that are entered have the same name |
| Filesets.FilesetIsReachability | siliconcompiler/design.py:862-946 | If no two designs that are entered have the same name, the result is exact and without repeats |
| Filesets.FilesetDistinct | siliconcompiler/design.py:905-916 | Whatever the names, nothing is returned twice |
| Filesets.FilesetFailsIff | siliconcompiler/design.py:862-916 | It raises only when the design has no name or something undefined can be reached, and always then if no two reached filesets share design name and fileset name |
| FilesetChoices.AnswerIsChoice | siliconcompiler/design.py:862-916 | Whatever names are shared: if it returns, there is a choice of one reached, faultless fileset for every pair of names, closed under references up to names, with exactly the names of the result |
| FilesetChoices.OwnKeysRaise | siliconcompiler/design.py:862-916 | Whatever names are shared elsewhere: it raises if something faulty can be reached past filesets whose names no other reached one has |
| Filesets.DependenciesPrecede | siliconcompiler/design.py:884-916 | Where the result is exact, a fileset comes after everything it refers to that does not lead back to it |
| Filesets.MoreFilesetsExtend | siliconcompiler/design.py:862-946 | The result for some filesets is a prefix of the result for more |
| Filesets.NameClashLosesOne | siliconcompiler/design.py:862-916 | Of two same-named filesets in same-named designs at most one is returned |
| FilesetNames.WrongDesignReturned | siliconcompiler/design.py:862-916 | Two concrete dependencies of one name: a reached fileset is lost and an undefined one returned |
| FilesetNames.FaultPasses | siliconcompiler/design.py:872-905 | Two concrete dependencies of one name: a fileset that cannot be resolved is reached and nothing is raised |
| FilesetNames.EmptyAliasTakesName | siliconcompiler/design.py:881-905 | A concrete alias to no filesets whose design takes the name of the one that is reached |
| FilesetNames.EmptyAliasHarmless | siliconcompiler/design.py:881-905 | The same alias met later: the result is exact although two designs of one name are entered |
| FileLists.Writer.Write | siliconcompiler/design.py:617-622 | A command is printed once; repeats become comments |
| FileLists.Writer.WriteFileset | siliconcompiler/design.py:627-645 | Prints the sections of one fileset behind what was printed before |
| FileLists.WriteFlist | siliconcompiler/design.py:613-648 | The file's text is the content of all items of the resolved filesets |
| FileLists.SampleText | siliconcompiler/design.py:625-645 | The whole text, with and without comments, of a fileset with one directory, define and file, whatever their names |
| FileLists.ReadLines | siliconcompiler/design.py:729-751 | The loop over the lines computes `Parse`; with an absolute directory, each line of the file, cut at its line feeds and trimmed, gives nothing if blank or a comment, else one include directory, define or file, in order; an absolute entry is read as itself, a relative one as the path below the directory of the list that leads where the entry leads from there |
| FileLists.RelativeEntryLeads | siliconcompiler/design.py:729-751 | For a relative entry without variables, as a file or behind `+incdir+`: the path read is below the directory of the list and leads where following its components from there leads |
| FileLists.BlankGivesNothing | siliconcompiler/design.py:740-743 | A line of white space gives nothing |
| FileLists.ContentLines | siliconcompiler/design.py:617-648 | Each item is one line of the file |
| FileLists.ParseClean | siliconcompiler/design.py:740-751 | A printed item is read back as the same item |
| FileLists.CommentIgnored | siliconcompiler/design.py:744-745 | Comment lines, repeats included, are ignored |
| FileLists.RoundTrip | siliconcompiler/design.py:613-751 | Reading what was written, with or without comments, gives all include directories, defines and files, each list without repeats in first-occurrence order |
| FileLists.WriteThenRead | siliconcompiler/design.py:613-751 | The same of the two procedures run one after the other |
| FileLists.FileSurvivesIff | siliconcompiler/design.py:740-751 | An absolute path survives exactly when it does not start with `//` and has no trailing space |
| DesignLists.WriteDesign | siliconcompiler/design.py:625-648 | The file list of a design is that of its resolved filesets, each with what it lists and announced by the name of its design and its own; refused exactly when they cannot be resolved |
| DesignLists.DesignRoundTrip | siliconcompiler/design.py:613-751 | Reading the file list of a design gives what its resolved filesets list, each path at its first occurrence |
| DesignLists.WriteThenReadDesign | siliconcompiler/design.py:613-751 | The same of resolving, writing and reading run one after the other |
| DesignLists.ReadBackIsReached | siliconcompiler/design.py:613-946 | Where the resolution is exact, a directory, define or file is read back exactly when some reachable fileset lists it |
| DesignLists.DependencyFilesFirst | siliconcompiler/design.py:625-916 | A file that one fileset alone lists is read back behind all files of the filesets it refers to that do not lead back to it |
| DataRoots.DirNamePrefix | siliconcompiler/design.py:754 | The directory of a path is a prefix of it |
| DataRoots.DirNameLeads | siliconcompiler/design.py:754 | A path leads where its last component leads from its directory |
| DataRoots.RegisteredAt | siliconcompiler/schema_support/pathschema.py:313-364 | Registering roots under generated names gives each name its own directory and changes no other |
| DataRoots.ChooseRoots | siliconcompiler/design.py:757-769 | The greedy loop computes `Roots` and registers them, up to the first whose name stands for something else |
| DataRoots.RootsAreMinimal | siliconcompiler/design.py:755-769 | On the sorted list the roots are exactly the directories no other directory is a prefix of |
| DataRoots.EverythingCovered | siliconcompiler/design.py:753-769 | Every include directory and file lies under a root |
| DataRoots.OneRoot | siliconcompiler/design.py:771-775 | No path lies under two roots |
| DataRoots.RootIsUnique | siliconcompiler/design.py:771-775 | The lookup gives the one matching root whatever the order in which roots are tried |
| RelPaths.RelPathLeads | siliconcompiler/design.py:783-792 | From a directory the relative path of a place leads back to that place |
| RelPaths.RelPathIsShortest | siliconcompiler/design.py:783-792 | No relative path that leads there has fewer components |
| DataRoots.ReadFlist | siliconcompiler/design.py:726-792 | For what the lines give: the roots are exactly the minimal directories, in order; the list is refused exactly when one of their numbered names stands for something else, and then nothing is stored; else every entry is stored, in order, under the name of the one root that is a prefix of it, as a relative path that leads from there back to it; known roots stay, and no others are added |
| Streams.SplitIoLines | siliconcompiler/tool.py:144-174 | The index loop computes `Split`: the lines with terminators and then the partial make up the buffer; the partial holds no break but a final `\r`, whose `\n` may still come |
| Streams.SplitOnly | siliconcompiler/tool.py:144-174 | There is no other such split |
| Streams.LinesSplit | siliconcompiler/tool.py:147-151 | The lines with their terminators make up the text; no line holds a break, no `\r\n` is taken apart |
| Streams.SplitUnique | siliconcompiler/tool.py:147-151 | There is no other way to split a text so |
| Streams.SplitThenMore | siliconcompiler/tool.py:144-174 | Lines already complete stay as they are when more text follows the partial |
| Streams.FlushedPartial | siliconcompiler/tool.py:1366-1370 | Flushing the partial emits exactly its lines |
| Streams.Drain.Poll | siliconcompiler/tool.py:1362-1371 | One poll emits the complete lines of partial and data, right-stripped, and carries or flushes the rest: from wherever the stream stands, everything that a `\n` ends, or a `\r` with text behind it, has then been emitted |
| Streams.ChunkingDoesNotMatter | siliconcompiler/tool.py:1354-1371 | However a stream is cut into reads, the records are the right-stripped lines of the whole |
| Streams.PollAll | siliconcompiler/tool.py:1354-1371 | The same of the polling procedure: afterwards all lines of the stream were emitted, without trailing white space |
| Registry.TaskRegistry.BuildTasks | siliconcompiler/tool.py:2821-2867 | A build registers its tasks in order, up to where it is aborted |
| Registry.TaskRegistry.PopulateTasks | siliconcompiler/tool.py:2802-2818 | From any snapshot whose markers hold: a marked category is left as it is; else all writes are made and the marker is set, or, when aborted, the first writes are made and no marker is set |
| Registry.PopulationIsRun | siliconcompiler/tool.py:2802-2818 | What that code does, aborted or not, is a run of steps of its thread, from any process whose lock is free |
| Registry.AnyTime | siliconcompiler/utils/settings.py:257-292 | What may happen at any time: threads start, register from outside, nest a population in a build at any depth, are stopped, and fork; `Open` is touched only with the lock in hand or free |
| Registry.StepSafe | siliconcompiler/tool.py:2807-2818 | Every step of any thread, an abort or a fork in the middle of a build included, keeps the meaning of the markers, whoever holds the lock |
| Registry.StepExclusive | siliconcompiler/utils/settings.py:247-292 | Every step keeps the lock with the one thread inside it; calls entered before a fork hold the lock the child discarded |
| Registry.ReachableSafe | siliconcompiler/tool.py:58-78 | In every reachable state a marker, or a population that returned, means a complete category, and one thread at most is inside the lock of its process |
| Registry.NoDeadlock | siliconcompiler/tool.py:2807-2812 | In every reachable state with a thread that is not idle some thread can move on |
| Registry.ChildEndsComplete | siliconcompiler/utils/settings.py:21-43 | A child forked by any thread at any instant, in the middle of nested builds too, ends all populations of its thread within a bounded number of steps, with each of these categories complete |
| Registry.NonEmptyIsNotComplete | siliconcompiler/tool.py:58-69 | A reachable state with a non-empty, unmarked, incomplete category and nobody inside the lock |
| Wafer.CountQuadrant | siliconcompiler/pdk.py:692-713 | The nested loops end and count the cells of one quadrant, for increments of either sign |
| Wafer.CalcDpw | siliconcompiler/pdk.py:650-715 | An error exactly when no wafer size is set; else four times the number of pairs i, j of at least 1 for which, in micrometres, the corner i die widths and scribe lines to the right and j up is inside the wafer without its margin |
| Wafer.CellsAre | siliconcompiler/pdk.py:708-713 | The cells are all pairs i, j of at least 1 whose far corner is inside the radius, without a bound |
| Wafer.FitsIffCellInside | siliconcompiler/pdk.py:686-713 | A cell is counted exactly when every point of it is inside the circle |
| Wafer.DiesSymmetric | siliconcompiler/pdk.py:692-713 | Swapping the steps changes nothing |
| Wafer.TurningChangesNothing | siliconcompiler/pdk.py:660-682 | Turning the die together with its scribe lines changes nothing |
| Wafer.DiesMonotone | siliconcompiler/pdk.py:676-713 | Smaller steps and a larger radius never lose a die |
| Wafer.DiesCoverLittle | siliconcompiler/pdk.py:692-713 | The dies cover at most the square around the circle |
| Install.ExpandDockerDepends | siliconcompiler/apps/sc_install.py:159-170 | The worklist ends, on cycles and unknown names too, with the closure |
| Install.ClosureIs | siliconcompiler/apps/sc_install.py:143-158 | The closure is the least set that holds the names and all their dependencies |
| Install.ComputeFingerprint | siliconcompiler/apps/sc_install.py:194-231 | None exactly for an unreadable script; else the digest of script, prerequisites and the entries of the tool, its build dependencies, and all that follows from these along docker dependencies, one name or a list |
| Install.FingerprintChangesIff | siliconcompiler/apps/sc_install.py:173-231 | A changed entry changes a tool's fingerprint exactly when it is the tool's own, that of a build dependency, or follows from one of these along a chain of docker dependencies |
| Install.FingerprintSeesText | siliconcompiler/apps/sc_install.py:200-214 | With the same metadata, fingerprints are equal exactly when script and prerequisites put together are; so either alone is noticed |
| Install.InstallManifest.Run | siliconcompiler/apps/sc_install.py:593-628 | Tools that are recorded with their fingerprint and prefix are skipped unless the run is forced; the others are built once each, in the order asked for, up to the first failure; the manifest records exactly those built from a readable script; each requested tool is built, failed, skipped or not started |
| Install.OnlyBuiltRecorded | siliconcompiler/apps/sc_install.py:621-625 | A run, stopped or not, records each tool it built with its fingerprint and changes the manifest nowhere else |
| Install.TriedAre | siliconcompiler/apps/sc_install.py:593-621 | A run tries only stale tools, and all of them but those it reports as not started |
| Install.SuccessRecordsAll | siliconcompiler/apps/sc_install.py:602-625 | After a successful run every requested tool with a fingerprint is recorded with it |
| Install.RebuildsExactly | siliconcompiler/apps/sc_install.py:602-625 | Then, after a change to one entry, the next unforced run builds exactly the requested tools whose fingerprint the entry goes into and those without a fingerprint, as far as it comes |
| Install.ResumesAfterFailure | siliconcompiler/apps/sc_install.py:602-625 | The next unforced run on the same sources builds exactly what was out of date and not built, as far as it comes |
| Install.BuiltOnce | siliconcompiler/apps/sc_install.py:593-625 | In any series of unforced runs on the same sources no tool with a readable script is built twice |
| CellAreas.CellArea.AddCell | siliconcompiler/asic.py:741-773 | Nothing is added without name and module or without any figure; else one entry with what the call brought, under the name, or the module if there is none, or the first of the names with 0, 1, 2, … behind it that is free; the probe ends |
| CellAreas.NamesDiffer | siliconcompiler/asic.py:758-763 | The names probed are all different |
| CellAreas.TakenBound | siliconcompiler/asic.py:760-762 | No more names are found taken than there are entries |
| CellAreas.RunSize | siliconcompiler/asic.py:741-776 | Over any run the report grows by the number of accepted calls and no earlier entry changes |
| CellAreas.RunKeepsEveryCell | siliconcompiler/asic.py:741-776 | Every accepted call finds its own entry at the end, with exactly what it brought, and there are no others |
| CellAreas.ReportCells | siliconcompiler/asic.py:735-776 | The size reported after any run is the number of accepted calls |

## Left out

- Schema machinery: keypaths, manifests, pickling and the locks of the schema; a flow, a design and a registry are plain maps and sets here.
- Task classes: finding them by name, the cache of task modules (`siliconcompiler/flowgraph.py:785-849`) and the callback on new nodes; a node carries its tool, task and task module as names.
- `RuntimeFlowgraph.validate` and `get_completed_nodes`, which add checks over the parts modelled here.
- Drawing, documentation and cell-level schema access of flows.
- RuntimeFlowgraphs.RuntimeFlowgraph.GetNodeInputs: asks that no cycle consists of skipped nodes in view; the recursion through one does not end.
- Filesets.FilesetExactIff: its condition is read off the search; `FilesetExactIffApart` is the one to be checked beforehand, where no reference is aliased to an empty list.
- Aliases.AliasesRewrite: not for an alias to an empty list, which enters a design for no fileset (`FilesetNames.EmptyAliasTakesName`), nor to a list with an undefined fileset, which raises where a single reference may find the name visited.
- Filesets.FilesetFailsIff: one direction where two reached filesets share design name and fileset name; a faulty one may then pass for one already visited (`FilesetNames.FaultPasses`), though not behind names of its own (`FilesetChoices.OwnKeysRaise`).
- Locating files: `find_files`, missing files and data root resolution; the writer gets resolved paths.
- FileLists.RoundTrip: variable and home directory expansion are functions that leave alone what has no `$` and no leading `~`; the decoding of the file is not modelled.
- DataRoots.ReadFlist: links in the file system and directories that turn out to be files; a place is its path with `.` and `..` resolved.
- The order in which a category lists its tasks, and get_task's choice among them; the registry holds sets.
- What a build registers is fixed: classes that are defined while a build runs are not modelled.
- Rounding in `calc_dpw`: lengths are exact reals and a distance is compared by its square; `calc_yield` is left out.
- The digest is taken to tell texts apart, and the printed metadata to tell entries apart; fingerprint plugins, the `-show` option and errors while saving the manifest are left out.
- Running tools: subprocesses, timeouts, memory polling, version checks, and `quiet` mode of the log.
- `Task.get_files_from_input_nodes`, SDC clock parsing, checklists, constraint containers, the dashboard and history.
