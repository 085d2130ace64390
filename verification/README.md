# Agent Lightning: verified models of the adapters, the span exporter and the control protocols

This project models the parts of the Python package `agent-lightning/agentlightning` where mistakes are
hardest to see, and proves what they promise:

- **The trace tree** (`adapter/triplet.py`). Flat spans become a tree; the tree is re-parented in place by
  time containment; LLM calls are collected with state handed down the tree and one set of response ids
  shared by the whole search; rewards are matched to calls greedily. `Spans`, `ParentLinks`, `FromSpans`,
  `TraceTree`, `Repair`, `RepairTheorems`, `RepairOrder`, `RepairCycles`, `FindCalls`, `CallsExact`, `Matching`,
  `Sorting`, `RewardMatching`, `FirstSibling`, `SiblingOrder`, `Trajectory` and `TrajectoryExact` cover the
  tracer adapter end to end: `Trajectory.Adapt` allocates the nodes, repairs them on the heap and is proved
  equal to a function of the input spans, about which the theorems are stated.
- **The LLM-proxy adapter** (`ProxyAdapter`, `ProxyExact`): its quadratic reverse scan is a one-pass stack machine.
- **The span exporter** (`llm_proxy.py`; `Exporter`, `ExporterRuns`): a buffer that gives up whole subtrees,
  over whole runs in which any flush may fail.
- **The two stream converters** (`OpenAiStream`, `AnthropicStream`): each is undone by a client that folds
  over the events.
- **`group_genai_dict`** (`adapter/messages.py`; `GenaiGroup`, `GenaiRoundTrip`): the parser of dotted paths
  undoes flattening, ends on every input, and produces exactly the trees that can be flattened.
- **The legacy task store** (`server.py`; `TaskStore`) with its sweep of stale tasks, over all runs.
- **The endless batch iterator** (`algorithm/utils.py`; `BatchIter`).
- **The stop protocols** (`execution/`; `SharedMemory`, `ClientServer`).

`Basics` holds what these modules share: options, results, ordered dictionaries, shuffled lists, sliced texts.

Conventions. A class stands for every object whose methods update its fields (`TraceTree.TraceNode`,
`Trajectory.SeenIds`, `Exporter.LightningSpanExporter`, `TaskStore.ServerDataStore`,
`BatchIter.BatchIterator`, `ClientServer.World`); its methods are proved against functions on values, and the
theorems are about those functions. Code that loops is a method proved equal to the function it computes.
Regular expressions are arbitrary tests on names, shuffles and the iteration order of a Python set are
parameters, times and sequence ids are integers, JSON text is a string. What attribute lookup, reward parsing
and token extraction find on a span are fields of the span. `Span.id` is the id of the tree node, so the
synthetic root has the id `virtual-root` that the code gives its node. In the heap model of the trace tree,
`env` lists the nodes by id and `Holds(env, t)` says that their `children` lists are exactly those of `t`.

Where the code and its documentation differ, the model follows the code:

- `batch_iter_over_dataset` says that each task appears at most once per epoch. That holds exactly when the
  batch size divides the size of the dataset (`BatchIter.OncePerPassIffDivides`).
- `repair_hierarchy` can lose nodes (`RepairTheorems.RepairCanLoseNodes` is such a trace). It keeps them all
  exactly when no iteration at the repaired level picks a parent inside the subtree it moves
  (`RepairTheorems.RepairKeepsIff`). Read off the given tree: when no child of that level has two closest
  enveloping nodes, it keeps them exactly when going from each child whose turn comes to the child whose
  subtree holds its closest enveloping node never leads round in a circle (`RepairCycles.RepairKeepsIffNoCircle`).
  Without a circle nothing is lost, ties or not; containment rules circles out, and is strictly stronger.
- A second `repair_hierarchy` is not always a no-op (`RepairTheorems.SecondPassCanMove`). It is one exactly
  when, in the tree it is given, no child of the level it repairs is strictly enveloped
  (`RepairTheorems.SecondPass`).
- Greedy matching under first sibling is not always a maximum matching (`SiblingOrder.FirstSiblingNotMaximum`).
  It is one whenever every node's reward children come in time order (`FirstSibling.FirstSiblingIsMaximum`),
  and for given reward times it is one on all lists of siblings only then (`SiblingOrder.MaximumIffOrdered`).

## Model

| member | source | states |
|---|---|---|
| FromSpans.IndexSpans | agent-lightning/agentlightning/adapter/triplet.py:204-213 | the loop over the spans yields, for each parent, its children in input order, and the parentless spans in input order |
| FromSpans.ByIdExact | agent-lightning/agentlightning/adapter/triplet.py:202-202 | with distinct ids the dictionary has exactly the span ids, each leading to its span |
| ParentLinks.PathUnique | agent-lightning/agentlightning/adapter/triplet.py:221-225 | with distinct ids only one path leads from the top to an id |
| ParentLinks.PathBound | agent-lightning/agentlightning/adapter/triplet.py:221-225 | a path from the top is no longer than the list of records plus one, so the recursion ends whatever cycles other records form |
| FromSpans.VisitIds | agent-lightning/agentlightning/adapter/triplet.py:221-246 | `visit` builds the tree whose traversal is the depth-first walk over the parent links |
| FromSpans.VisitSpans | agent-lightning/agentlightning/adapter/triplet.py:227-246 | a visited node is the recorded span of that id or else a stand-in that carries no agent, reward or response id; everything below it is recorded |
| FromSpans.VisitEdges | agent-lightning/agentlightning/adapter/triplet.py:221-246 | every parent-child pair of the visited tree is a parent link of the input |
| FromSpans.VisitNested | agent-lightning/agentlightning/adapter/triplet.py:221-246 | if recorded parents contain their recorded children, every node of the visited tree lies inside its parent |
| FromSpans.HullExact | agent-lightning/agentlightning/adapter/triplet.py:237-238 | the minimum start and maximum end bound all children and are attained |
| FromSpans.MissingHull | agent-lightning/agentlightning/adapter/triplet.py:227-240 | with a missing parent the tree is built, and the stand-in for that parent is its root or directly below the virtual root; its children are the spans that name it, in order (so the assertion cannot fail); it spans exactly their hull and takes rollout, attempt, sequence and trace from the first of them |
| FromSpans.RootsAreTop | agent-lightning/agentlightning/adapter/triplet.py:205-219 | the collected roots are distinct, and nothing lies above any of them |
| FromSpans.FromSpans | agent-lightning/agentlightning/adapter/triplet.py:184-273 | the method computes the tree, or one of the two errors, that the function `BuildTree` defines |
| FromSpans.FromSpansExact | agent-lightning/agentlightning/adapter/triplet.py:184-273 | the result holds exactly the spans whose parent chain ends at a null or missing parent and one stand-in per missing parent, each once, plus a virtual root exactly when there are several roots |
| FromSpans.FromSpansShape | agent-lightning/agentlightning/adapter/triplet.py:221-273 | its edges are the parent links, or lead from the virtual root to a root; the virtual root runs from the start of the first root to the end of the last; containment of recorded spans gives containment below the root's children |
| FromSpans.FromSpansOrder | agent-lightning/agentlightning/adapter/triplet.py:201-263 | the children of every node below the virtual root come in input order; the roots are the parentless spans in input order and then the missing parents |
| FromSpans.FromSpansFails | agent-lightning/agentlightning/adapter/triplet.py:194-199 | it succeeds if and only if some span's parent chain ends |
| FromSpans.RootedIffAcyclic | agent-lightning/agentlightning/adapter/triplet.py:201-213 | every parent chain ends if and only if the parent links have no cycle |
| TraceTree.TraceNode.Traverse | agent-lightning/agentlightning/adapter/triplet.py:164-169 | the nodes come back in depth-first preorder of the tree they hold |
| TraceTree.FindClosest | agent-lightning/agentlightning/adapter/triplet.py:428-446 | the scan returns the node the function `Closest` chooses, or none |
| Repair.Closest | agent-lightning/agentlightning/adapter/triplet.py:428-446 | the choice is the first of the shortest candidates in traversal order, and there is none exactly when nothing strictly envelops the child |
| Repair.ClosestIsShortest | agent-lightning/agentlightning/adapter/triplet.py:428-446 | read off start and end times alone: the choice covers the child, is strictly longer, is no longer than any other such node, and comes first among equals |
| TraceTree.TraceNode.MoveTo | agent-lightning/agentlightning/adapter/triplet.py:449-453 | the child leaves this node's list, the others keep their order, and it is appended to the new parent's list; no other list changes |
| TraceTree.TraceNode.RepairChild | agent-lightning/agentlightning/adapter/triplet.py:426-453 | one iteration turns the held tree into `Step` of it |
| TraceTree.TraceNode.RepairChildren | agent-lightning/agentlightning/adapter/triplet.py:420-453 | the loop over the children as they were at the start, stopping at one child, turns the held tree into `Loop` of it |
| TraceTree.TraceNode.RepairHierarchy | agent-lightning/agentlightning/adapter/triplet.py:411-453 | afterwards the nodes hold `RepairTree(t)`, for every tree with distinct ids; nodes outside it are untouched |
| Repair.ChosenIsOutside | agent-lightning/agentlightning/adapter/triplet.py:428-453 | under containment the chosen parent is never the moved node or a descendant of it |
| Repair.StepSound | agent-lightning/agentlightning/adapter/triplet.py:426-453 | one iteration keeps nodes and containment, moves at most that child, and moves it below a shortest enveloping node |
| Repair.LoopSound | agent-lightning/agentlightning/adapter/triplet.py:420-453 | the whole loop keeps nodes and containment, moves only the given children, and leaves none of them strictly enveloped |
| Repair.SoleChildIsFree | agent-lightning/agentlightning/adapter/triplet.py:422-425 | a single remaining child is enveloped by nothing below the node, so stopping early is safe |
| RepairTheorems.RepairKeepsNodes | agent-lightning/agentlightning/adapter/triplet.py:411-453 | under containment the result is one tree with exactly the same nodes, still contained |
| RepairTheorems.RepairMovesOnlyTheLevel | agent-lightning/agentlightning/adapter/triplet.py:411-453 | only children of the repaired level change parent; each stays there unenveloped or is under a shortest enveloping node |
| RepairTheorems.RepairMovesToShortest | agent-lightning/agentlightning/adapter/triplet.py:428-453 | read off start and end times alone: every new edge leads from a node of the level that covers the child, is strictly longer, and is no longer than any other such node |
| RepairTheorems.RepairKeepsUncovered | agent-lightning/agentlightning/adapter/triplet.py:428-453 | a child of the level stays there if and only if no other node of the level covers it and is strictly longer |
| RepairOrder.RepairKeepsOrder | agent-lightning/agentlightning/adapter/triplet.py:449-453 | the level keeps its remaining children in order; every other node keeps all of its own in order and has what it was given after them, in the order in which the level listed it |
| RepairTheorems.RepairLeavesNoneEnveloped | agent-lightning/agentlightning/adapter/triplet.py:422-453 | afterwards no child of the root or of the repaired level is strictly enveloped by another node below it |
| RepairTheorems.FixedIff | agent-lightning/agentlightning/adapter/triplet.py:411-453 | under containment a call changes nothing if and only if no child of the level it repairs is strictly enveloped by another node below it |
| RepairTheorems.SecondPass | agent-lightning/agentlightning/adapter/triplet.py:411-453 | so a second pass changes nothing if and only if, in the tree left by the first, no child of the level to be repaired is strictly enveloped |
| RepairTheorems.FreeRemain | agent-lightning/agentlightning/adapter/triplet.py:420-453 | the repaired level keeps exactly the children that were not strictly enveloped there before |
| RepairTheorems.SecondPassWhenSeveralRemain | agent-lightning/agentlightning/adapter/triplet.py:422-425 | if their number, read off the first tree, is not one, a second pass changes nothing |
| RepairTheorems.SecondPassCanMove | agent-lightning/agentlightning/adapter/triplet.py:411-453 | there is a contained tree with distinct ids that a second pass changes |
| RepairTheorems.StepKeepsIff | agent-lightning/agentlightning/adapter/triplet.py:428-453 | without containment, an iteration keeps all nodes if and only if the chosen parent is outside the moved subtree |
| RepairTheorems.LoopKeepsIff | agent-lightning/agentlightning/adapter/triplet.py:420-453 | without containment, the loop keeps all nodes if and only if every iteration picks a parent outside the subtree it moves |
| RepairTheorems.RepairKeepsIff | agent-lightning/agentlightning/adapter/triplet.py:411-453 | without containment, the whole call, down through only children, keeps all nodes if and only if that holds at the level it repairs |
| RepairTheorems.RepairCanLoseNodes | agent-lightning/agentlightning/adapter/triplet.py:411-453 | there is a tree with distinct ids on which the repair loses nodes |
| RepairCycles.RepairKeepsIffNoCircle | agent-lightning/agentlightning/adapter/triplet.py:411-453 | when no child of the repaired level has two closest enveloping nodes, the call keeps all nodes if and only if the given tree has no circle of children leading to the child that holds their closest node |
| RepairCycles.NoCircleKeeps | agent-lightning/agentlightning/adapter/triplet.py:411-453 | without such a circle the call keeps all nodes, whether or not slacks tie |
| RepairCycles.ContainedNoCircle | agent-lightning/agentlightning/adapter/triplet.py:411-453 | containment implies that there is no circle |
| RepairCycles.NoCircleBeyondContainment | agent-lightning/agentlightning/adapter/triplet.py:411-453 | there are trees without containment that have no circle |
| Trajectory.FindLlmCalls | agent-lightning/agentlightning/adapter/triplet.py:333-409 | the recursive search on the nodes, with a shared set of response ids or without one, finds the calls of the function `Search` and leaves the set as it says |
| Trajectory.FindBelow | agent-lightning/agentlightning/adapter/triplet.py:397-407 | the loop over the children threads the shared set, if there is one, through them in order |
| FindCalls.CollectIsScan | agent-lightning/agentlightning/adapter/triplet.py:368-409 | the search of any forest equals a flat pre-order scan: same calls, order, labels and seen ids |
| FindCalls.FindIsScan | agent-lightning/agentlightning/adapter/triplet.py:620-628 | as `to_trajectory` calls it: a node is taken if and only if its name matches, its nearest labelled ancestor (or the start label) matches, no excluded reward is above it, its response id is new, and without one nothing above it was taken |
| FindCalls.CollectIds | agent-lightning/agentlightning/adapter/triplet.py:377-394 | with every agent accepted and rewards not excluded, the new response ids on matching names come out once each |
| FindCalls.FindIds | agent-lightning/agentlightning/adapter/triplet.py:620-628 | the same for a whole search of a tree, with or without the nesting check |
| FindCalls.AloneOnceIff | agent-lightning/agentlightning/adapter/triplet.py:384-394 | called without a set, with every agent accepted and rewards not excluded, the search finds each response id on a matching name, and each only once if and only if no two outermost matching nodes share a response id |
| CallsExact.FindTakes | agent-lightning/agentlightning/adapter/triplet.py:368-409 | with `items` the nodes of the traversal and their ancestors, a node is taken if and only if its name matches, its nearest named ancestor is an agent looked for (or there is none and the search starts with a label), no excluded reward is above it, no node taken before has its response id, and, if it has none, no node above it was taken |
| RewardMatching.Pick | agent-lightning/agentlightning/adapter/triplet.py:478-488 | the reverse scan finds the last pending call that has ended and has no reward, and none exactly when there is none |
| RewardMatching.FindOpen | agent-lightning/agentlightning/adapter/triplet.py:478-488 | the loop with its two skips computes `Pick` |
| RewardMatching.MatchEvents | agent-lightning/agentlightning/adapter/triplet.py:471-488 | the loop over events computes the reward dictionary `RewardsUpto` |
| RewardMatching.RewardsRecordPairs | agent-lightning/agentlightning/adapter/triplet.py:471-488 | that dictionary keeps what it held and records exactly the matched calls with the values of their rewards |
| RewardMatching.PairsAreGreedy | agent-lightning/agentlightning/adapter/triplet.py:475-488 | each reward takes an unused eligible call and goes unmatched only when every eligible call is used |
| RewardMatching.PairsAreLatest | agent-lightning/agentlightning/adapter/triplet.py:475-488 | each reward takes the latest call listed no later than it that is over by its start and has no reward yet, and none only if there is none |
| Matching.GreedyIsMaximum | agent-lightning/agentlightning/adapter/triplet.py:469-488 | over eligible sets that grow along the reward order, the greedy matching is a maximum matching |
| RewardMatching.OrderedIsMaximum | agent-lightning/agentlightning/adapter/triplet.py:469-488 | if reward spans come in time order, no assignment of rewards to distinct eligible calls has more pairs |
| RewardMatching.FirstOccurrenceIsMaximum | agent-lightning/agentlightning/adapter/triplet.py:469-488 | first occurrence rewards at least as many calls as any such assignment |
| RewardMatching.FirstSiblingPairsSiblings | agent-lightning/agentlightning/adapter/triplet.py:490-506 | under first sibling a call and its reward are siblings, the call listed no later and over by the reward's start |
| FirstSibling.FirstSiblingIsMaximum | agent-lightning/agentlightning/adapter/triplet.py:490-506 | if the reward children of every node come in time order, first sibling rewards at least as many calls as any assignment of rewards to different calls listed no later among their siblings and over by then |
| SiblingOrder.MaximumIffOrdered | agent-lightning/agentlightning/adapter/triplet.py:490-506 | for given start times of rewards, first sibling is maximum on all trees of one level with those rewards if and only if the times do not decrease |
| SiblingOrder.FirstSiblingNotMaximum | agent-lightning/agentlightning/adapter/triplet.py:490-506 | on a concrete tree with two calls and two rewards out of time order, first sibling rewards one call where two could be |
| Trajectory.MatchSiblings | agent-lightning/agentlightning/adapter/triplet.py:490-506 | the loop over the nodes matches rewards among the children of each node in traversal order, keeping what earlier nodes got |
| Trajectory.MatchRewards | agent-lightning/agentlightning/adapter/triplet.py:455-508 | on the nodes, both policies compute `AllRewards` of the held tree |
| Sorting.Sorts | agent-lightning/agentlightning/adapter/triplet.py:470-470 | the stable sort returns a sorted permutation |
| Sorting.Stable | agent-lightning/agentlightning/adapter/triplet.py:470-470 | elements with equal keys keep their order |
| Trajectory.KeepRecorded | agent-lightning/agentlightning/adapter/triplet.py:630-643 | the loop keeps the calls that are not skipped for having no tokens, in order |
| Trajectory.ToTrajectory | agent-lightning/agentlightning/adapter/triplet.py:596-652 | on the nodes: calls, filter, rewards and the final reward on the last transition are `TrajectoryOf` the held tree |
| TrajectoryExact.TrajectoryTakes | agent-lightning/agentlightning/adapter/triplet.py:619-643 | for all options: the transitions are, in order, the nodes that the search takes, with their labels, less those without tokens if these are to be skipped |
| TrajectoryExact.TrajectoryRewards | agent-lightning/agentlightning/adapter/triplet.py:645-648 | without a final reward a transition has a reward if and only if one took its call, and then exactly the value of that reward span, under both policies |
| TrajectoryExact.ListsExact | agent-lightning/agentlightning/adapter/triplet.py:468-506 | the rewards are matched over all nodes in order of start time, or over the children of each node of the traversal in turn |
| TrajectoryExact.FinalRewardIsLast | agent-lightning/agentlightning/adapter/triplet.py:649-651 | the final reward becomes the reward of the last transition and changes no other |
| Trajectory.CallsDistinct | agent-lightning/agentlightning/adapter/triplet.py:619-643 | no node appears in two transitions |
| Trajectory.TrajectoryRewardsMaximum | agent-lightning/agentlightning/adapter/triplet.py:645-648 | under first occurrence at least as many transitions carry a reward as any assignment of rewards to distinct eligible calls could serve |
| Trajectory.TrajectorySiblingRewardsMaximum | agent-lightning/agentlightning/adapter/triplet.py:645-648 | under first sibling the same holds for assignments among siblings if the reward children of every node come in time order |
| Trajectory.Plant | agent-lightning/agentlightning/adapter/triplet.py:221-246 | the nodes allocated for a tree are new and hold exactly that tree |
| Trajectory.Adapt | agent-lightning/agentlightning/adapter/triplet.py:725-748 | build, optional in-place repair, trajectory: the result is a function of the spans |
| TrajectoryExact.AdaptedTakes | agent-lightning/agentlightning/adapter/triplet.py:734-748 | `adapt` takes these calls with these rewards from the built and perhaps repaired tree, with nested calls excluded and no final reward, contained or not |
| Trajectory.AdaptedIds | agent-lightning/agentlightning/adapter/triplet.py:734-748 | with no agent filter and rewards not excluded, the trajectory has exactly the response ids of rooted spans whose name matches, each once, repaired or not |
| Trajectory.AcyclicIds | agent-lightning/agentlightning/adapter/triplet.py:734-748 | on acyclic input those are the ids of all spans whose name matches |
| ProxyAdapter.CollectItems | agent-lightning/agentlightning/adapter/triplet.py:853-882 | one call per request id, first come, with token ids on both sides |
| ProxyAdapter.CollectRewards | agent-lightning/agentlightning/adapter/triplet.py:887-892 | the rewards in span order |
| ProxyAdapter.FindFree | agent-lightning/agentlightning/adapter/triplet.py:898-904 | the inner loop finds the last unassigned call with a smaller sequence number, as `Pick` does |
| ProxyAdapter.AssignRewards | agent-lightning/agentlightning/adapter/triplet.py:896-904 | the nested loops compute the dictionary `Assigned` |
| ProxyAdapter.AssignedRecordsScan | agent-lightning/agentlightning/adapter/triplet.py:896-904 | the dictionary holds exactly the matched calls with the values of their rewards |
| ProxyAdapter.ResortsAreNoOps | agent-lightning/agentlightning/adapter/triplet.py:884-897 | calls and rewards are already in sequence order, so sorting them again changes nothing |
| ProxyAdapter.StackIsScan | agent-lightning/agentlightning/adapter/triplet.py:894-904 | the quadratic reverse scan equals one pass that pushes calls and pops on rewards, rewards first at equal sequence numbers |
| ProxyAdapter.ScanIsMaximum | agent-lightning/agentlightning/adapter/triplet.py:894-904 | no assignment of rewards to distinct calls with a smaller sequence number has more pairs |
| ProxyAdapter.ScanNeverCrosses | agent-lightning/agentlightning/adapter/triplet.py:894-904 | matched pairs nest or are disjoint, they never cross |
| ProxyAdapter.Adapt | agent-lightning/agentlightning/adapter/triplet.py:838-922 | the triplets are those of the function `Adapted`, for all inputs |
| ProxyAdapter.AdaptedIsStackMachine | agent-lightning/agentlightning/adapter/triplet.py:848-922 | with distinct ids there is one triplet per call in sequence order, with the reward the stack machine gives it and no other |
| ProxyExact.AdaptedCalls | agent-lightning/agentlightning/adapter/triplet.py:847-882 | one triplet, in order of sequence number and start time, for each span with token ids on both sides unless an earlier one has its request id, with that span's own token ids and request id; so no two share a request id |
| ProxyExact.AdaptedRewards | agent-lightning/agentlightning/adapter/triplet.py:886-922 | with distinct span ids each reward goes to the last call of smaller sequence number that no earlier reward took, and the triplet of that call has exactly its value; other triplets have none |
| Exporter.SplitInterleaves | agent-lightning/agentlightning/llm_proxy.py:484-496 | popping splits the buffer into two parts that keep their order and interleave back to it |
| Exporter.RootIdsExact | agent-lightning/agentlightning/llm_proxy.py:441-453 | exactly the ids of buffered spans with no parent are roots |
| Exporter.TreeIdsExact | agent-lightning/agentlightning/llm_proxy.py:455-474 | the subtree ids are exactly those reachable from the root by ancestor chain |
| ParentLinks.SubtreeExact | agent-lightning/agentlightning/llm_proxy.py:455-474 | the recursion ends on distinct ids despite cycles elsewhere and yields each reachable id once |
| Exporter.LightningSpanExporter.constructor | agent-lightning/agentlightning/llm_proxy.py:213-225 | a new exporter has an empty buffer and has handed over nothing |
| Exporter.LightningSpanExporter.PopSubtrees | agent-lightning/agentlightning/llm_proxy.py:476-496 | returns the spans of the subtree in buffer order and leaves the others in order |
| Exporter.LightningSpanExporter.MaybeFlush | agent-lightning/agentlightning/llm_proxy.py:321-439 | buffer, spans handed over and success are those of `Flush` over the roots listed at the start |
| Exporter.LightningSpanExporter.Export | agent-lightning/agentlightning/llm_proxy.py:294-319 | appends the batch, flushes, and reports failure exactly when the flush raised |
| Exporter.TreeKept | agent-lightning/agentlightning/llm_proxy.py:476-496 | popping one tree leaves every other root's tree as it was |
| Exporter.FlushExact | agent-lightning/agentlightning/llm_proxy.py:338-439 | a flush, popping tree by tree from what is left, hands over and keeps exactly what the trees of the original buffer say, and succeeds if and only if no subtree raises |
| Exporter.FlushGives | agent-lightning/agentlightning/llm_proxy.py:338-453 | a flush gives the trees of the parentless spans one after the other in buffer order: nothing of a tree that is skipped, all of one that is delivered, a first part of the one that raises, and nothing after that |
| Exporter.SuccessLeavesIncomplete | agent-lightning/agentlightning/llm_proxy.py:306-347 | after a successful export the buffer holds, in order, exactly the spans whose buffered ancestor chain reaches no root |
| Exporter.FailureLosesOneSubtree | agent-lightning/agentlightning/llm_proxy.py:312-347 | after a failure, every span that left the buffer belongs to the one failing subtree, or to the subtree of an earlier root and was handed over unless that subtree was to be skipped |
| Exporter.FailureKeepsTheRest | agent-lightning/agentlightning/llm_proxy.py:412-439 | every root not yet reached is still buffered with its whole subtree, in order |
| ExporterRuns.HandedOnce | agent-lightning/agentlightning/llm_proxy.py:294-347 | over any run, failures included, no span is handed over twice or handed over and still buffered |
| ExporterRuns.TreePoppedWhole | agent-lightning/agentlightning/llm_proxy.py:321-347 | if everything below a root arrives no later than the root is flushed, the tree the flush pops is whole, in order of arrival |
| ExporterRuns.TreeHandedWhole | agent-lightning/agentlightning/llm_proxy.py:321-347 | if moreover its hand-over succeeds and none before it raises, what that flush gives the store has the whole tree in one unbroken piece |
| ExporterRuns.Replay | agent-lightning/agentlightning/llm_proxy.py:294-319 | driving the exporter through any run gives the state those theorems speak of |
| OpenAiStream.RFind | agent-lightning/agentlightning/llm_proxy.py:900-900 | the last space in the range, or -1 exactly when there is none |
| OpenAiStream.ChunksFit | agent-lightning/agentlightning/llm_proxy.py:889-917 | chunks are non-empty, at most 28 characters, end after a space unless full-length or last, and join to the text |
| Basics.SlicesJoin | agent-lightning/agentlightning/llm_proxy.py:951-954 | slices, of arguments here and of tool input in the other converter, are non-empty, at most the slice size, and join to the text |
| OpenAiStream.StreamContent | agent-lightning/agentlightning/llm_proxy.py:889-920 | the content loop emits one event per chunk |
| OpenAiStream.StreamArguments | agent-lightning/agentlightning/llm_proxy.py:951-970 | the argument loop emits one event per slice |
| OpenAiStream.Generate | agent-lightning/agentlightning/llm_proxy.py:840-990 | the whole generator emits `Stream` of the choice |
| OpenAiStream.StreamDecodes | agent-lightning/agentlightning/llm_proxy.py:861-990 | a client folding over the stream ends with the role given or `assistant`, the exact content, the finish reason given or `tool_calls` or `stop`, and every tool call in order with the id given or made up, the type given or `function`, and for a function the name and arguments given |
| OpenAiStream.ChunkBreaks | agent-lightning/agentlightning/llm_proxy.py:893-903 | a chunk that is not the last ends with the last space among the first 28 characters left, or has 28 characters if there is none |
| OpenAiStream.ChunksOfChoice | agent-lightning/agentlightning/llm_proxy.py:875-990 | every chunk has the index of the choice; pieces are non-empty, at most 28 characters of content or 40 of arguments |
| OpenAiStream.ContentFirst | agent-lightning/agentlightning/llm_proxy.py:920-970 | no content comes after a tool call has begun |
| OpenAiStream.EndsOnce | agent-lightning/agentlightning/llm_proxy.py:972-990 | the finish chunk occurs once, just before the sentinel, which occurs once at the end |
| AnthropicStream.JoinSplits | agent-lightning/agentlightning/llm_proxy.py:772-781 | splitting words joined by single spaces gives the words back |
| AnthropicStream.TextChunksJoin | agent-lightning/agentlightning/llm_proxy.py:775-788 | the text deltas join to the words separated by single spaces |
| AnthropicStream.SameWords | agent-lightning/agentlightning/llm_proxy.py:771-788 | so splitting the streamed text gives the words of the original text |
| AnthropicStream.StreamWords | agent-lightning/agentlightning/llm_proxy.py:771-789 | the loop over the words emits one text delta per five words |
| AnthropicStream.StreamJson | agent-lightning/agentlightning/llm_proxy.py:810-822 | the loop over the input text emits one delta per 20 characters |
| AnthropicStream.StreamBlock | agent-lightning/agentlightning/llm_proxy.py:755-826 | a text or tool block is bracketed by start and stop; any other block emits nothing |
| AnthropicStream.Generate | agent-lightning/agentlightning/llm_proxy.py:722-838 | the whole generator emits `Stream` of the message |
| AnthropicStream.StreamDecodes | agent-lightning/agentlightning/llm_proxy.py:729-838 | a client that accepts only well-bracketed streams with strictly increasing indices accepts every stream and ends with the message's id, its model or `claude`, its stop reason or `end_turn`, and every text and tool block once, in order, under its own index: texts as their words, tool uses with their id, name and input |
| AnthropicStream.WordsExact | agent-lightning/agentlightning/llm_proxy.py:771-773 | splitting takes a text apart into words without white space and gaps of white space, no two words touching |
| AnthropicStream.DeltaSizes | agent-lightning/agentlightning/llm_proxy.py:774-822 | a text delta has one to five words, a JSON delta one to twenty characters |
| GenaiGroup.GroupGenaiDict | agent-lightning/agentlightning/adapter/messages.py:53-103 | the recursive method computes `Group` of the relevant entries and ends on every input |
| GenaiGroup.GroupByIndex | agent-lightning/agentlightning/adapter/messages.py:78-86 | grouping by index yields, for exactly the indices that occur, the paths below them |
| GenaiGroup.GroupByHead | agent-lightning/agentlightning/adapter/messages.py:91-98 | grouping by head yields the plain entries and, for each key that leads deeper, the paths below it |
| GenaiGroup.SubIndexShorter | agent-lightning/agentlightning/adapter/messages.py:87-89 | the total length of relative keys strictly falls below every index that occurs |
| GenaiGroup.SubHeadShorter | agent-lightning/agentlightning/adapter/messages.py:100-101 | the total length of relative keys strictly falls below every key that leads deeper |
| GenaiRoundTrip.PathsExact | agent-lightning/agentlightning/adapter/messages.py:56-58 | the flattened paths of a tree are exactly those that lead to its leaves |
| GenaiRoundTrip.GroupUndoesFlatten | agent-lightning/agentlightning/adapter/messages.py:53-103 | grouping the flattened paths of a well-formed container, in any order and among other attributes, returns the tree |
| GenaiRoundTrip.GroupWellFormed | agent-lightning/agentlightning/adapter/messages.py:53-103 | whatever the paths, the result is a well-formed container |
| GenaiRoundTrip.GroupImage | agent-lightning/agentlightning/adapter/messages.py:53-103 | a tree is the result of some grouping if and only if it is a well-formed container or the empty dictionary, so the round trip's condition is exact |
| GenaiRoundTrip.GroupDictExact | agent-lightning/agentlightning/adapter/messages.py:88-103 | without an index: a dictionary of the first parts of the keys; a part that leads deeper stands for the group of what is below it, even if it is also a key itself, any other for its value |
| GenaiRoundTrip.GroupListExact | agent-lightning/agentlightning/adapter/messages.py:74-87 | with an index: a list by increasing index of the groups below the indices that occur, whatever other keys there are |
| GenaiRoundTrip.RelevantExact | agent-lightning/agentlightning/adapter/messages.py:71-72 | the relevant entries are those under the prefix and a dot, without these, in order |
| TaskStore.ServerDataStore.constructor | agent-lightning/agentlightning/server.py:48-51 | a new store is empty |
| TaskStore.ServerDataStore.AddTask | agent-lightning/agentlightning/server.py:61-93 | the new task joins the end of the queue, unclaimed |
| TaskStore.ServerDataStore.GetNextTask | agent-lightning/agentlightning/server.py:95-118 | the head of the queue moves to processing with one more claim and is handed out, or nothing happens |
| TaskStore.ServerDataStore.StoreRollout | agent-lightning/agentlightning/server.py:160-169 | the rollout is stored and its task leaves processing |
| TaskStore.ServerDataStore.RetrieveRollout | agent-lightning/agentlightning/server.py:171-182 | the stored rollout is returned and removed, or none |
| TaskStore.ServerDataStore.RetrieveCompletedRollouts | agent-lightning/agentlightning/server.py:184-189 | all stored rollouts are returned, in the order in which their ids were first stored since they were last removed, and the store of them is emptied |
| TaskStore.ServerDataStore.RequeueTask | agent-lightning/agentlightning/server.py:195-201 | the task leaves processing and joins the end of the queue |
| TaskStore.ServerDataStore.CheckAndRequeueStaleTasks | agent-lightning/agentlightning/server.py:262-275 | the sweep over a copy of the processing map moves exactly the stale tasks, in claim order |
| TaskStore.EveryRunIsGood | agent-lightning/agentlightning/server.py:81-201 | in every reachable state no id is queued or processed twice, every added task is live or has been completed, and each task's claim count is the number of times it was handed out |
| TaskStore.QueueIsFair | agent-lightning/agentlightning/server.py:95-118 | a task with k others before it is at the head after k claims, whatever else happens meanwhile |
| TaskStore.SweepMovesStale | agent-lightning/agentlightning/server.py:262-275 | a sweep moves exactly the stale tasks from processing to the end of the queue; they and the tasks that stay keep their order |
| TaskStore.ProcessingInClaimOrder | agent-lightning/agentlightning/server.py:95-118 | in every reachable state the tasks in processing are in the order in which they were last handed out, so that is the order in which a sweep requeues |
| TaskStore.TasksCarry | agent-lightning/agentlightning/server.py:81-118 | in every reachable state each task has the input it was added with and the time of its last claim |
| TaskStore.StoredStaysLiveIff | agent-lightning/agentlightning/server.py:160-169 | after a result is stored its task is still live if and only if it was waiting in the queue again |
| TaskStore.DoneForGood | agent-lightning/agentlightning/server.py:81-201 | an added task that is no longer live never comes back and is never handed out again, whatever happens afterwards |
| TaskStore.ResultsKept | agent-lightning/agentlightning/server.py:160-189 | in every reachable state the store holds, once per id, the result stored last unless it has been retrieved since, and nothing else |
| TaskStore.ResultsInOrder | agent-lightning/agentlightning/server.py:160-189 | results wait in the order in which their ids came; one stored again keeps its place |
| TaskStore.ProcessingDistinct | agent-lightning/agentlightning/server.py:95-118 | in every reachable state the processing map has each id once |
| TaskStore.Replay | agent-lightning/agentlightning/server.py:61-201 | driving the store through any run gives the state those theorems speak of |
| BatchIter.BatchIterator.NextPass | agent-lightning/agentlightning/algorithm/utils.py:63-74 | one pass over a shuffle yields the batches and leaves the leftovers that `Pass` says |
| BatchIter.BatchesFull | agent-lightning/agentlightning/algorithm/utils.py:67-74 | every batch has exactly `batch_size` different indices |
| BatchIter.PassConserves | agent-lightning/agentlightning/algorithm/utils.py:67-74 | batches and leftovers are what was in hand and what was taken, in that order |
| BatchIter.KeptOrSkipped | agent-lightning/agentlightning/algorithm/utils.py:67-70 | every index of the shuffle is either taken or skipped, once, both in its order |
| BatchIter.PassFacts | agent-lightning/agentlightning/algorithm/utils.py:63-74 | the first batch of a pass holds everything that was in hand; only indices in hand are skipped; what is left over was taken in this pass |
| BatchIter.EveryPassYields | agent-lightning/agentlightning/algorithm/utils.py:63-74 | for any shuffles, every pass yields at least one full batch |
| BatchIter.NoIndexMissesTwoPasses | agent-lightning/agentlightning/algorithm/utils.py:63-74 | no index is skipped in two consecutive passes |
| BatchIter.OncePerPassIffDivides | agent-lightning/agentlightning/algorithm/utils.py:54-54 | each index is yielded at most once per pass, for all shuffles, if and only if the batch size divides the dataset size |
| SharedMemory.NextKeeps | agent-lightning/agentlightning/execution/shared_memory.py:163-282 | every atomic step keeps the invariant between queued exceptions, threads, the one taken and the outcome |
| SharedMemory.ExecuteRaisesIff | agent-lightning/agentlightning/execution/shared_memory.py:224-282 | in every interleaving an interrupt of the clean-up comes out of `execute`; otherwise it raises its own bundle's exception if that failed, else the first exception any background thread had queued by the last check, and completes if there is neither |
| SharedMemory.RunLogs | agent-lightning/agentlightning/execution/shared_memory.py:258-279 | what background threads have queued is, in order, at most one exception taken out and what is still in the queue |
| SharedMemory.SignalledCrashRaises | agent-lightning/agentlightning/execution/shared_memory.py:174-198 | a background crash that has set the stop event by the last check is never lost |
| SharedMemory.RunnerRaisesIff | agent-lightning/agentlightning/execution/shared_memory.py:244-259 | when the runner on the main thread ends normally, `execute` raises if and only if a background thread did not finish cleanly |
| SharedMemory.LeftoversAreTold | agent-lightning/agentlightning/execution/shared_memory.py:237-268 | a thread that is still running when the clean-up joins it has been told to stop |
| SharedMemory.OutcomeIsFinal | agent-lightning/agentlightning/execution/shared_memory.py:278-282 | nothing that threads do afterwards changes the outcome |
| ClientServer.World.Join | agent-lightning/agentlightning/execution/client_server.py:277-282 | a join lasts at most its timeout, and exactly that if the process is still alive |
| ClientServer.World.JoinUntilDeadline | agent-lightning/agentlightning/execution/client_server.py:267-283 | returns, in order, processes alive at the start, misses none alive at the end, waits no longer than the timeout in all, and reports a process alive only after the whole timeout |
| ClientServer.World.SignalProcesses | agent-lightning/agentlightning/execution/client_server.py:285-295 | every process is sent the signal in turn, whatever failed before |
| ClientServer.World.Escalate | agent-lightning/agentlightning/execution/client_server.py:322-342 | one signal to all that are left and one bounded wait |
| ClientServer.World.ShutdownProcesses | agent-lightning/agentlightning/execution/client_server.py:297-347 | the stop event is set at once; each signal goes to some of those alive at the signal before it and to everyone still alive; the first comes no sooner than the graceful timeout, each later one no sooner than the terminate timeout after the one before; waiting is at most the graceful timeout plus three terminate timeouts; whoever is left has had all three signals and the last timeout |

## Left out

- Regular expressions, attribute lookup, reward parsing and token extraction: their results are fields of a span or arbitrary tests. A reward span whose value is null is not modelled.
- Missing timestamps and duplicate span ids in a trace: times are present and ids are distinct, except that the LLM-proxy adapter's method is proved without assuming distinct ids.
- FromSpans.FromSpans: assumes that no two spans have the same id. With a repeated id the recursion of `visit` need not end: a parentless span and a child of it under one id send it round for ever.
- FromSpans.FromSpansExact: assumes the same, and that no input span or parent uses the id `virtual-root`, which the code would otherwise give to two nodes.
- Trajectory.Adapt: assumes the same as FromSpans.FromSpansExact; the heap model finds nodes by id.
- The payload of a triplet (token ids, raw content, image URLs, metadata, logprobs) is a function of the span and is not spelled out; `visualize`, `to_json`, `names_tuple` and `find_id` are simple traversals.
- RewardMatching.FirstSiblingPairsSiblings: says which pairs first sibling can make; when there are as many as possible is said by `FirstSibling.FirstSiblingIsMaximum` and `SiblingOrder.MaximumIffOrdered`.
- Exporter: header parsing, the OTLP exporter, event loops and locks. What happens to a popped subtree is one outcome the model does not control, and `export` is one atomic step.
- ExporterRuns.HandedOnce: a subtree whose hand-over raises may have been given in part; those spans count as given, the rest of that subtree as lost.
- The text of JSON and of server-sent events (section 9.2.5 of the WHATWG HTML Living Standard): events are values. Ids made from the clock are parameters.
- GenaiRoundTrip.GroupUndoesFlatten: colliding keys such as `a` and `a.b`, and digits outside `0` to `9`, are outside the round trip; what colliding keys give is said by `GenaiRoundTrip.GroupDictExact`.
- GenaiRoundTrip.GroupListExact: does not say what is below an index that is spelled in several ways, such as `1` and `01`, or is a whole key; the method is proved on these too.
- TaskStore: published resources and HTTP routes. A result stored while its task waits in the queue again leaves the task queued, as in the code; `TaskStore.StoredStaysLiveIff` says that this is the only way a completed task can be handed out again.
- BatchIter: the branch for a batch size of at least the size of the dataset, which yields whole shuffled copies, and a batch size of zero.
- SharedMemory: the watcher that cancels a bundle inside its own thread, how long the clean-up joins wait, and process-wide locks; a bundle ends, is cancelled or crashes at any time. An interrupt during the `except` clause that handles the first one is not a step of its own.
- ClientServer: starting processes, exit codes and the exception that ends the strategy; the operating system is an arbitrary environment of exits, delays and failing signals.
- The JavaScript command line under `src/`: providers, counters and text formatting with little state.
