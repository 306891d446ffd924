# AllDifferent arc consistency and its graph machinery, in Dafny

This project models the filtering core of a choco-solver fork: three variants of the
generalised arc consistency filter for the `allDifferent` constraint, the iterative
Tarjan strongly-connected-components finder they use, and the binary propagator
`X != Y + C`. It proves properties of the model.

- **`AlgoAllDiffAC`** (module `AllDiffACFilter`) follows Régin's algorithm.
  - The constructor numbers every value of the initial domains with an id in `n .. n2-1`, in the order the values are first met.
  - Each call rebuilds the oriented variable/value graph. An edge of the previous matching points from the value to the variable; every other edge points from the variable to the value.
  - It completes a maximum matching by one breadth-first augmenting-path search per free variable. When a search fails, it raises a contradiction through `instantiateTo(getLB() - 1)`.
  - When values outnumber variables, it adds a sink node.
  - It computes the strongly connected components. A pair whose ends lie in different components is removed, or instantiated when it is the matched pair.
- **`AlgoAllDiffACFast`** (module `AllDiffACFastFilter`) follows Zhang et al., IJCAI-18.
  - The matching phase is the same.
  - `distinguish` marks the nodes reachable backwards from the free values by alternating paths.
  - `filter` removes the values that a marked variable has outside the marked nodes. Between unmarked nodes, it prunes by components.
- **`AlgoAllDiffAC_Fastbit`** (module `AllDiffFastbitFilter`) works over flat edge bit sets (`i * numValue + (j - n)`) and two sparse sets with a snapshot.
  - Its expansion loops are commented out in the source. So `checkSCC` always answers false, and every variable left with two values or more is instantiated to its mate.
  - The model proves exactly that behaviour (`FilterMatched`).
  - `MatesOnlyOverPrune` shows that this removes values some solution uses.
- **`StrongConnectivityFinder`** (module `SCCFinders`, with the output lists in `SCCLists`) is a non-recursive Tarjan search over a restriction bit set. It has explicit `stack`, `p`, `inf`, `nodeOfDfsNum`, `dfsNumOfNode` arrays and per-number successor iterators. A singleton pre-pass comes first, and components are recorded as linked lists.
- **`PropNotEqualX_YC`** (module `NotEquals`) covers propagation, entailment and propagation conditions. An `IntVar` is a set of values plus whether it is enumerated. A bounded domain can lose a value only at a bound.

Shared pieces:
- `Domains` models the part of `IntVar` the filters use (`nextValue`, `removeValue`, `instantiateTo`, where a contradiction is an `Outcome`).
- `Digraphs` models `DirectedGraph` as a value.
- `IntSets` holds set facts and `BitSet.nextSetBit`.
- `ValueIds` models the numbering loop.
- `ValueGraphs` holds the matching theory: augmenting paths, and Hall's condition.
- `Matchers` holds the matching phase common to the three filters, which the source repeats verbatim in each file.
- `FastbitEdges` holds the edge layout of the bit-parallel variant.

Domains are values (`seq<set<int>>`) passed to and returned by the filters. The matching
state, the graph, the bit sets and the finder's arrays are fields of classes, updated in
place by methods with loop invariants.

## Model


| member | source | states |
|---|---|---|
| ValueIds.AssignValueIds | src/main/scala/org/chocosolver/solver/constraints/nary/alldifferent/algo/AlgoAllDiffAC.java:75-90 | the ids are given to exactly the values of the domains, are pairwise different and lie in `n .. n2-1` with `n2 = n + #values`; `idToVal` is their inverse on that range; a value met earlier (earlier domain, or smaller in the same domain) has a smaller id |
| ValueIds.NumberDomain | src/main/scala/org/chocosolver/solver/constraints/nary/alldifferent/algo/AlgoAllDiffAC.java:81-88 | scanning one domain from its lower bound with `nextValue` extends the numbering to every value met up to and including that domain, without lowering the next free id |
| ValueIds.NumberingDone | src/main/scala/org/chocosolver/solver/constraints/nary/alldifferent/algo/AlgoAllDiffAC.java:90 | a complete numbering has `n2 = n + #ids`, ids inside `n .. n2-1` and pairwise different |
| ValueIds.FirstVarIs | src/main/scala/org/chocosolver/solver/constraints/nary/alldifferent/algo/AlgoAllDiffAC.java:80-84 | the first variable whose domain holds a value is the least such index: the order in which the scan meets values |
| Domains.NextValue | src/main/scala/org/chocosolver/solver/constraints/nary/alldifferent/algo/AlgoAllDiffAC.java:83 | `nextValue(k)` is the least domain value above `k`, or `Integer.MAX_VALUE` when every value is at most `k` |
| Domains.RemoveValue | src/main/scala/org/chocosolver/solver/constraints/nary/alldifferent/algo/AlgoAllDiffAC.java:247 | `removeValue(k)` fails exactly when the domain is `{k}`; otherwise the domain loses `k` and the change flag is set exactly when `k` was present |
| Domains.InstantiateTo | src/main/scala/org/chocosolver/solver/constraints/nary/alldifferent/algo/AlgoAllDiffAC.java:244 | `instantiateTo(k)` fails exactly when `k` is not in the domain; otherwise the domain becomes `{k}`, changed exactly when it was not already `{k}` |
| Domains.BelowLowerBoundFails | src/main/scala/org/chocosolver/solver/constraints/nary/alldifferent/algo/AlgoAllDiffAC.java:177 | instantiating a variable to one less than its lower bound always raises a contradiction (the failure trick of `tryToMatch`) |
| Domains.InstantiatedIsSingleton | src/main/scala/org/chocosolver/solver/constraints/nary/alldifferent/algo/AlgoAllDiffACFast.java:268 | a domain of size one is the singleton of its lower bound |
| Digraphs.Succ | src/main/scala/org/chocosolver/solver/constraints/nary/alldifferent/algo/AlgoAllDiffAC.java:195 | the successors of `x` are exactly the heads of the arcs leaving `x` |
| Digraphs.Pred | src/main/scala/org/chocosolver/solver/constraints/nary/alldifferent/algo/AlgoAllDiffAC.java:158 | the predecessors of `y` are exactly the tails of the arcs entering `y` |
| Digraphs.ReverseArc | src/main/scala/org/chocosolver/solver/constraints/nary/alldifferent/algo/AlgoAllDiffAC.java:171-172 | `removeArc(x, y)` then `addArc(y, x)` swaps that one arc, keeps the nodes and keeps the graph well formed |
| Matchers.Matcher.constructor | src/main/scala/org/chocosolver/solver/constraints/nary/alldifferent/algo/AlgoAllDiffAC.java:71-74 | the matcher starts with no variable matched (`matching[i] == -1`), an empty graph, no free node, and fresh `matching`, `father` and `fifo` arrays |
| Matchers.Matcher.Rebuild | src/main/scala/org/chocosolver/solver/constraints/nary/alldifferent/algo/AlgoAllDiffAC.java:127-150 | after the rebuild the graph is exactly the oriented graph of the warm-start matching (each variable keeps its previous mate when that is still in its domain): one arc per domain pair, value to variable for the matched pair and variable to value otherwise; the free nodes are exactly those no kept pair touches |
| Matchers.Matcher.ClearArcs | src/main/scala/org/chocosolver/solver/constraints/nary/alldifferent/algo/AlgoAllDiffAC.java:127-130 | removing every arc leaves the graph with no arcs and its nodes unchanged |
| Matchers.Matcher.AddVariables | src/main/scala/org/chocosolver/solver/constraints/nary/alldifferent/algo/AlgoAllDiffAC.java:134-150 | from the empty graph with every node free, the variable loop builds exactly the oriented graph of the warm-start matching and its free nodes |
| Matchers.Matcher.AddVariable | src/main/scala/org/chocosolver/solver/constraints/nary/alldifferent/algo/AlgoAllDiffAC.java:134-149 | the loop over one variable's domain adds the arcs of exactly that domain; the variable is matched afterwards exactly when its previous mate is still one of its values |
| Matchers.Matcher.AddValue | src/main/scala/org/chocosolver/solver/constraints/nary/alldifferent/algo/AlgoAllDiffAC.java:139-148 | one value adds one arc: value to variable, with both ends leaving the free set, when its id is the previous mate; variable to value otherwise |
| Matchers.Matcher.AugmentPathBFS | src/main/scala/org/chocosolver/solver/constraints/nary/alldifferent/algo/AlgoAllDiffAC.java:182-209 | a result other than -1 is a free value node reached from `root` by an augmenting path of distinct nodes that `father` traces back to `root`; -1 means the nodes reached form a closed set that proves no solution exists |
| Matchers.Matcher.ScanSuccessors | src/main/scala/org/chocosolver/solver/constraints/nary/alldifferent/algo/AlgoAllDiffAC.java:195-206 | scanning the successors of the dequeued node either returns a free value with its augmenting path, or leaves every successor of that node visited while keeping the queue and search-tree invariants |
| Matchers.Matcher.Visit | src/main/scala/org/chocosolver/solver/constraints/nary/alldifferent/algo/AlgoAllDiffAC.java:198-204 | visiting a new node sets its father, enqueues it once and marks it; if it is free, the path to it is augmenting |
| Matchers.Matcher.ClosedWhenDone | src/main/scala/org/chocosolver/solver/constraints/nary/alldifferent/algo/AlgoAllDiffAC.java:191-208 | when the queue is drained with every visited node's successors visited, the search is stuck: no augmenting path exists from `root` |
| Matchers.ClosedSearch | src/main/scala/org/chocosolver/solver/constraints/nary/alldifferent/algo/AlgoAllDiffAC.java:191-208 | once every visited node has been dequeued and all its successors visited, the visited set is closed under arcs and each visited node hangs from a visited father by an arc |
| Matchers.Matcher.ReversePath | src/main/scala/org/chocosolver/solver/constraints/nary/alldifferent/algo/AlgoAllDiffAC.java:167-175 | walking `father` back from the free value reverses exactly the arcs of the path and nothing else |
| Matchers.Matcher.TryToMatch | src/main/scala/org/chocosolver/solver/constraints/nary/alldifferent/algo/AlgoAllDiffAC.java:162-179 | on success the graph and free set describe a matching that covers exactly the old variables plus `root`; on failure the domains have no assignment of pairwise different values |
| Matchers.Matcher.MatchFreeVariables | src/main/scala/org/chocosolver/solver/constraints/nary/alldifferent/algo/AlgoAllDiffAC.java:153-155 | the loop over free variables either matches every variable or stops with a proof that no solution exists |
| Matchers.Matcher.ExtractMatching | src/main/scala/org/chocosolver/solver/constraints/nary/alldifferent/algo/AlgoAllDiffAC.java:157-159 | reading the single predecessor of each variable stores its mate in `matching` |
| Matchers.Matcher.FindMaximumMatching | src/main/scala/org/chocosolver/solver/constraints/nary/alldifferent/algo/AlgoAllDiffAC.java:125-160 | the matching phase succeeds exactly when the domains admit an assignment of pairwise different values; on success `matching[i]` is the id of a value of `d[i]` for every `i`, and the graph is the oriented graph of that complete matching |
| Matchers.FoundPath | src/main/scala/org/chocosolver/solver/constraints/nary/alldifferent/algo/AlgoAllDiffAC.java:202-203 | a tree path from the free root to a free node is an augmenting path traced by `father`, and it ends at a value node |
| Matchers.StuckHall | src/main/scala/org/chocosolver/solver/constraints/nary/alldifferent/algo/AlgoAllDiffAC.java:176-178 | a search from a free variable that closes without reaching a free node proves the constraint unsatisfiable |
| Matchers.ArcsIntoVariableAll | src/main/scala/org/chocosolver/solver/constraints/nary/alldifferent/algo/AlgoAllDiffAC.java:158 | the only arc into a variable comes from its mate, so its predecessor is its matched value |
| Matchers.TreePathExtend | src/main/scala/org/chocosolver/solver/constraints/nary/alldifferent/algo/AlgoAllDiffAC.java:199-201 | setting `father[y] = x` along an arc extends the traced path from `root` by `y` |
| Matchers.QueueStep | src/main/scala/org/chocosolver/solver/constraints/nary/alldifferent/algo/AlgoAllDiffAC.java:200-201 | enqueueing a node not yet marked keeps the queue's entries distinct: each node enters `fifo` at most once |
| Matchers.RoomForOne | src/main/scala/org/chocosolver/solver/constraints/nary/alldifferent/algo/AlgoAllDiffAC.java:200 | an unmarked node always has room in `fifo`: `indexLast` stays below `n2` |
| ValueGraphs.PathShape | src/main/scala/org/chocosolver/solver/constraints/nary/alldifferent/algo/AlgoAllDiffAC.java:193-197 | along an augmenting path variables and values alternate, each variable leaves by an unmatched edge, and each inner variable is entered from its mate |
| ValueGraphs.AugmentIsMatching | src/main/scala/org/chocosolver/solver/constraints/nary/alldifferent/algo/AlgoAllDiffAC.java:165-175 | reversing an augmenting path yields a matching that covers exactly the old variables plus the root |
| ValueGraphs.AugmentTaken | src/main/scala/org/chocosolver/solver/constraints/nary/alldifferent/algo/AlgoAllDiffAC.java:165 | the matched value nodes grow by exactly the free value that ends the path |
| ValueGraphs.AugmentArcs | src/main/scala/org/chocosolver/solver/constraints/nary/alldifferent/algo/AlgoAllDiffAC.java:169-175 | an arc of the new oriented graph is an old arc off the path or a reversed path arc, and conversely |
| ValueGraphs.AugmentedGraph | src/main/scala/org/chocosolver/solver/constraints/nary/alldifferent/algo/AlgoAllDiffAC.java:165-175 | after the flip the graph is the oriented graph of the augmented matching, and exactly the two ends of the path stop being free |
| ValueGraphs.FlipStep | src/main/scala/org/chocosolver/solver/constraints/nary/alldifferent/algo/AlgoAllDiffAC.java:171-174 | reversing one more arc towards the root extends the reversed suffix of the path by one step |
| ValueGraphs.AddEdge | src/main/scala/org/chocosolver/solver/constraints/nary/alldifferent/algo/AlgoAllDiffAC.java:141-148 | adding a value to a domain adds exactly one arc, oriented by whether the pair is matched, and only a matched pair removes its two ends from the free nodes |
| ValueGraphs.StuckMeansNoSolution | src/main/scala/org/chocosolver/solver/constraints/nary/alldifferent/algo/AlgoAllDiffAC.java:176-178 | a set of nodes closed under the arcs that holds a free variable and only matched values (all matched into it) violates Hall's condition: no solution exists |
| ValueGraphs.ValuesOfSolution | src/main/scala/org/chocosolver/solver/constraints/nary/alldifferent/algo/AlgoAllDiffAC.java:176-178 | in such a closed set, any solution maps its variables one-to-one onto its value nodes, so there are at least as many values as variables |
| ValueGraphs.MatesOfValues | src/main/scala/org/chocosolver/solver/constraints/nary/alldifferent/algo/AlgoAllDiffAC.java:176-178 | the value nodes of such a set are mates of distinct variables other than the free root, so there are fewer values than variables |
| ValueGraphs.CompleteMatchingIsSolution | src/main/scala/org/chocosolver/solver/constraints/nary/alldifferent/algo/AlgoAllDiffAC.java:157-159 | a matching covering every variable is an assignment of pairwise different domain values |
| ValueGraphs.KeepsMatching | src/main/scala/org/chocosolver/solver/constraints/nary/alldifferent/algo/AlgoAllDiffAC.java:243-244 | domains that keep each variable's mate still have a solution |
| ValueGraphs.ArcsIntoVariable | src/main/scala/org/chocosolver/solver/constraints/nary/alldifferent/algo/AlgoAllDiffAC.java:158 | an arc enters a variable exactly from its mate |
| AllDiffACFilter.AllDiffAC.constructor | src/main/scala/org/chocosolver/solver/constraints/nary/alldifferent/algo/AlgoAllDiffAC.java:64-102 | the ids number exactly the values of the initial domains in first-met order, `n2 = n + #values`, and no variable is matched |
| AllDiffACFilter.AllDiffAC.Propagate | src/main/scala/org/chocosolver/solver/constraints/nary/alldifferent/algo/AlgoAllDiffAC.java:108-119 | fails exactly when no assignment of pairwise different values exists; otherwise every domain is pruned by the component rule of `filter`, the flag says whether some domain changed, and the pruned domains still have a solution |
| AllDiffACFilter.AllDiffAC.Filter | src/main/scala/org/chocosolver/solver/constraints/nary/alldifferent/algo/AlgoAllDiffAC.java:232-274 | each variable keeps, when its mate shares its component, exactly its values whose node shares it too, and otherwise only its mate; the flag is the OR of the changes; the arcs are left as they were; the component ids are the strongly connected components of the residual graph with the sink |
| AllDiffACFilter.AllDiffAC.FilterAll | src/main/scala/org/chocosolver/solver/constraints/nary/alldifferent/algo/AlgoAllDiffAC.java:237-253 | the loop over the variables prunes every domain by the component rule and reports a change exactly when the domains differ |
| AllDiffACFilter.AllDiffAC.FilterVariable | src/main/scala/org/chocosolver/solver/constraints/nary/alldifferent/algo/AlgoAllDiffAC.java:240-252 | a value in another component is removed, or the variable instantiated when it is the mate; the mate always survives, so the filter never fails |
| AllDiffACFilter.AllDiffAC.BuildSCC | src/main/scala/org/chocosolver/solver/constraints/nary/alldifferent/algo/AlgoAllDiffAC.java:215-230 | the finder runs on the graph with the sink when `n2 > 2n`; afterwards the arcs are those before the call, and the nodes listed by the finder are the graph's nodes plus, with the sink, the sink and every value node; the ids are the strongly connected components of that graph |
| AllDiffACFilter.AllDiffAC.RunFinder | src/main/scala/org/chocosolver/solver/constraints/nary/alldifferent/algo/AlgoAllDiffAC.java:227-228 | `findAllSCC` then `getNodesSCC`: every node of the given graph gets a component listed by the finder, and two nodes share an id exactly when each reaches the other |
| AllDiffACFilter.AddSink | src/main/scala/org/chocosolver/solver/constraints/nary/alldifferent/algo/AlgoAllDiffAC.java:216-226 | the sink graph is the old node `n2` removed and re-added, with arcs free value to sink and sink to matched value |
| AllDiffACFilter.JoinSink | src/main/scala/org/chocosolver/solver/constraints/nary/alldifferent/algo/AlgoAllDiffAC.java:216-225 | `addNode(n2)` and the loop over the value nodes build exactly the sink graph of the free and matched values |
| AllDiffACFilter.SinkArcsOf | src/main/scala/org/chocosolver/solver/constraints/nary/alldifferent/algo/AlgoAllDiffAC.java:219-225 | with the sink, a value node has an arc to it exactly when free and an arc from it exactly when matched |
| AllDiffACFilter.SinkRemoved | src/main/scala/org/chocosolver/solver/constraints/nary/alldifferent/algo/AlgoAllDiffAC.java:229 | removing the sink afterwards restores exactly the arcs of the matching graph |
| AllDiffACFilter.SinkNodes | src/main/scala/org/chocosolver/solver/constraints/nary/alldifferent/algo/AlgoAllDiffAC.java:216-218 | the sink and the value nodes join the nodes only when values outnumber variables |
| AllDiffACFilter.PartialSinkShape | src/main/scala/org/chocosolver/solver/constraints/nary/alldifferent/algo/AlgoAllDiffAC.java:219-225 | the sink loop up to node `i` has added exactly the sink arcs of the value nodes below `i` |
| AllDiffACFastFilter.AllDiffACFast.constructor | src/main/scala/org/chocosolver/solver/constraints/nary/alldifferent/algo/AlgoAllDiffACFast.java:65-102 | the same numbering as the Régin filter, no variable matched and nothing marked |
| AllDiffACFastFilter.AllDiffACFast.Propagate | src/main/scala/org/chocosolver/solver/constraints/nary/alldifferent/algo/AlgoAllDiffACFast.java:108-122 | fails exactly when no assignment of pairwise different values exists; otherwise the marks are those of `distinguish`, every domain is pruned by the two rules, the flag says whether a domain changed, a solution remains, and a marked variable keeps every value some solution gives it |
| AllDiffACFastFilter.AllDiffACFast.MarkedKept | src/main/scala/org/chocosolver/solver/constraints/nary/alldifferent/algo/AlgoAllDiffACFast.java:269-293 | after `filter` with a complete matching, every solution's value of a marked variable is still in its pruned domain |
| AllDiffACFastFilter.AllDiffACFast.Distinguish | src/main/scala/org/chocosolver/solver/constraints/nary/alldifferent/algo/AlgoAllDiffACFast.java:219-250 | the marked nodes are the least set that holds every free value node, every predecessor of its value nodes and the mate of each of its variables |
| AllDiffACFastFilter.AllDiffACFast.Filter | src/main/scala/org/chocosolver/solver/constraints/nary/alldifferent/algo/AlgoAllDiffACFast.java:258-320 | after `distinguish` and the components, each domain is pruned by the two rules and the flag is the OR of the changes |
| AllDiffACFastFilter.AllDiffACFast.FilterAll | src/main/scala/org/chocosolver/solver/constraints/nary/alldifferent/algo/AlgoAllDiffACFast.java:266-295 | the loop over the variables prunes each domain by the two rules and reports a change exactly when the domains differ |
| AllDiffACFastFilter.AllDiffACFast.FilterVariable | src/main/scala/org/chocosolver/solver/constraints/nary/alldifferent/algo/AlgoAllDiffACFast.java:267-293 | an instantiated variable is skipped; a matched pair of the second kind instantiates the variable to its mate; otherwise exactly the values forming a pair of the first kind (variable marked, value not) or the second kind (both unmarked, different components) are removed; the mate always survives |
| AllDiffACFastFilter.ScanVariable | src/main/scala/org/chocosolver/solver/constraints/nary/alldifferent/algo/AlgoAllDiffACFast.java:269-293 | the loop over the values of a variable with two values or more keeps the mate; when the mate forms a pair of the second kind the domain becomes the mate alone, otherwise exactly the values forming no pair of either kind remain; the flag says whether the domain changed |
| AllDiffACFastFilter.Mark | src/main/scala/org/chocosolver/solver/constraints/nary/alldifferent/algo/AlgoAllDiffACFast.java:220-249 | the queue-based marking computes the least set closed under the steps of `distinguish` |
| AllDiffACFastFilter.Spread | src/main/scala/org/chocosolver/solver/constraints/nary/alldifferent/algo/AlgoAllDiffACFast.java:236-248 | draining the queue marks the mates of queued variables and their predecessors, only nodes every closed superset must hold, until the queue is empty |
| AllDiffACFastFilter.Dequeue | src/main/scala/org/chocosolver/solver/constraints/nary/alldifferent/algo/AlgoAllDiffACFast.java:236-247 | one queue round marks the mate of the dequeued variable and that mate's predecessors, keeps the queue well formed and marks only forced nodes |
| AllDiffACFastFilter.Expand | src/main/scala/org/chocosolver/solver/constraints/nary/alldifferent/algo/AlgoAllDiffACFast.java:227-234 | the predecessors of a value node join the marks, each newly marked variable entering the queue once |
| AllDiffACFastFilter.Drained | src/main/scala/org/chocosolver/solver/constraints/nary/alldifferent/algo/AlgoAllDiffACFast.java:236 | once the queue is drained, the marks are closed under the steps of `distinguish` |
| AllDiffACFastFilter.QueuePush | src/main/scala/org/chocosolver/solver/constraints/nary/alldifferent/algo/AlgoAllDiffACFast.java:230-233 | pushing a variable not yet marked keeps the queue's entries the distinct marked variables, and leaves the entries already queued in place |
| AllDiffACFastFilter.RoomInQueue | src/main/scala/org/chocosolver/solver/constraints/nary/alldifferent/algo/AlgoAllDiffACFast.java:231 | a variable not yet marked always fits in the queue: fewer than `n` variables have been queued |
| AllDiffACFastFilter.ForcedMate | src/main/scala/org/chocosolver/solver/constraints/nary/alldifferent/algo/AlgoAllDiffACFast.java:237-247 | marking the mate of a marked variable and that value's predecessors marks only nodes every set closed under the steps of `distinguish` must hold |
| AllDiffACFastFilter.ForcedFree | src/main/scala/org/chocosolver/solver/constraints/nary/alldifferent/algo/AlgoAllDiffACFast.java:226-234 | marking a free value node and its predecessors marks only nodes every such closed set must hold |
| AllDiffACFastFilter.MarkedMates | src/main/scala/org/chocosolver/solver/constraints/nary/alldifferent/algo/AlgoAllDiffACFast.java:238-239 | a variable is marked exactly when its mate is, so rule 1 never removes a mate |
| AllDiffACFastFilter.FirstKindSound | src/main/scala/org/chocosolver/solver/constraints/nary/alldifferent/algo/AlgoAllDiffACFast.java:272-275 | in every solution a marked variable takes a marked value: the first rule removes no supported value |
| AllDiffACFastFilter.UnmarkedClosed | src/main/scala/org/chocosolver/solver/constraints/nary/alldifferent/algo/AlgoAllDiffACFast.java:277 | unmarked variables have only unmarked values, and each unmarked value is the mate of an unmarked variable |
| AllDiffACFastFilter.MarkedValues | src/main/scala/org/chocosolver/solver/constraints/nary/alldifferent/algo/AlgoAllDiffACFast.java:272-275 | a solution cannot give a marked variable an unmarked value: the unmarked values are all used by the unmarked variables |
| AllDiffACFastFilter.MatchedGraph | src/main/scala/org/chocosolver/solver/constraints/nary/alldifferent/algo/AlgoAllDiffACFast.java:161 | the graph of a matching has arcs into value nodes only from variables |
| FastbitEdges.DivMod | src/main/scala/org/chocosolver/solver/constraints/nary/alldifferent/algo/AlgoAllDiffAC_Fastbit.java:389-392 | Java's `/` and `%` by `numValue` on an edge index give its variable and its value index |
| FastbitEdges.EdgeParts | src/main/scala/org/chocosolver/solver/constraints/nary/alldifferent/algo/AlgoAllDiffAC_Fastbit.java:146-147 | the edge `i * numValue + (j - n)` splits back into `i` and `j - n` |
| FastbitEdges.EdgeUnique | src/main/scala/org/chocosolver/solver/constraints/nary/alldifferent/algo/AlgoAllDiffAC_Fastbit.java:147 | an edge index determines its variable and value index |
| FastbitEdges.EdgeBound | src/main/scala/org/chocosolver/solver/constraints/nary/alldifferent/algo/AlgoAllDiffAC_Fastbit.java:109 | the edges of the first `m` variables lie below `m * numValue` |
| FastbitEdges.BuildEdges | src/main/scala/org/chocosolver/solver/constraints/nary/alldifferent/algo/AlgoAllDiffAC_Fastbit.java:140-151 | `varEdge[i]` and `valEdge[v]` hold exactly the edges of variable `i` and of value index `v` in the initial domains |
| FastbitEdges.AddVarEdges | src/main/scala/org/chocosolver/solver/constraints/nary/alldifferent/algo/AlgoAllDiffAC_Fastbit.java:141-150 | the inner loop over one variable's values adds exactly that variable's edges to `varEdge` and `valEdge` |
| FastbitEdges.EdgesStep | src/main/scala/org/chocosolver/solver/constraints/nary/alldifferent/algo/AlgoAllDiffAC_Fastbit.java:143-149 | setting the edge of value `k` in the tables of variable `i` and of its value index moves the recorded edges of `i` from those below `k` to those up to `k` |
| FastbitEdges.LeftEdges | src/main/scala/org/chocosolver/solver/constraints/nary/alldifferent/algo/AlgoAllDiffAC_Fastbit.java:193-211 | `leftEdge` holds exactly the edges whose value is in the current domain of their variable |
| FastbitEdges.AddLeftEdges | src/main/scala/org/chocosolver/solver/constraints/nary/alldifferent/algo/AlgoAllDiffAC_Fastbit.java:194-210 | the inner loop over one variable's values adds exactly that variable's current edges to `leftEdge` |
| FastbitEdges.RecordEdges | src/main/scala/org/chocosolver/solver/constraints/nary/alldifferent/algo/AlgoAllDiffAC_Fastbit.java:217-225 | `matchedEdge` holds exactly the matched edges, and `varMatchedEdge[i]` and `valMatchedEdge[matching[i] - n]` hold the matched edge of `i` |
| FastbitEdges.MakeLayout | src/main/scala/org/chocosolver/solver/constraints/nary/alldifferent/algo/AlgoAllDiffAC_Fastbit.java:94-151 | the ids with `idToVal` as their inverse on `n .. n2-1`, and the edge tables of the initial domains |
| AllDiffFastbitFilter.AllDiffACFastbit.constructor | src/main/scala/org/chocosolver/solver/constraints/nary/alldifferent/algo/AlgoAllDiffAC_Fastbit.java:83-155 | first-met numbering with inverse map, `numValue = n2 - n`, empty edge bit sets, the edge tables of the initial domains, and full sparse sets |
| AllDiffFastbitFilter.AllDiffACFastbit.FindMaximumMatching | src/main/scala/org/chocosolver/solver/constraints/nary/alldifferent/algo/AlgoAllDiffAC_Fastbit.java:177-246 | succeeds exactly when a solution exists; `leftEdge` holds exactly the current edges, `notGamma` and `notA` are full, and on success the matched edges are recorded (none on failure) |
| AllDiffFastbitFilter.AllDiffACFastbit.RecordMatchedEdges | src/main/scala/org/chocosolver/solver/constraints/nary/alldifferent/algo/AlgoAllDiffAC_Fastbit.java:217-225 | records the matched edge of every variable in the three matched-edge structures |
| AllDiffFastbitFilter.AllDiffACFastbit.Propagate | src/main/scala/org/chocosolver/solver/constraints/nary/alldifferent/algo/AlgoAllDiffAC_Fastbit.java:161-171 | fails exactly when no solution exists; otherwise every variable keeps only its mate, the flag says whether a domain changed, and the result still has a solution |
| AllDiffFastbitFilter.AllDiffACFastbit.Filter | src/main/scala/org/chocosolver/solver/constraints/nary/alldifferent/algo/AlgoAllDiffAC_Fastbit.java:478-484 | after a successful matching: `notA` loses exactly the free values, `notGamma` ends empty, `sccEdge` stays empty, every variable keeps only its mate and a solution remains |
| AllDiffFastbitFilter.AllDiffACFastbit.RunPasses | src/main/scala/org/chocosolver/solver/constraints/nary/alldifferent/algo/AlgoAllDiffAC_Fastbit.java:478-484 | the three passes on the fields: same results as `Filter`; the remaining `leftEdge` bits are matched edges and `searchEdge` lies in the old `leftEdge` |
| AllDiffFastbitFilter.FilterMatched | src/main/scala/org/chocosolver/solver/constraints/nary/alldifferent/algo/AlgoAllDiffAC_Fastbit.java:478-484 | from a complete matching: each variable is reduced to its mate, the result still has a solution, and the flag says whether a domain changed |
| AllDiffFastbitFilter.FilterPasses | src/main/scala/org/chocosolver/solver/constraints/nary/alldifferent/algo/AlgoAllDiffAC_Fastbit.java:478-484 | `distinguish`, `filterFirstPart` and `filterSecondPart` in sequence: `notA` loses the free values, every domain becomes the singleton of its mate, `notGamma` ends empty |
| AllDiffFastbitFilter.FreeValueEdges | src/main/scala/org/chocosolver/solver/constraints/nary/alldifferent/algo/AlgoAllDiffAC_Fastbit.java:306-310 | the loop of `distinguish` removes exactly the free values from `notA` and collects exactly the initial edges of the free values |
| AllDiffFastbitFilter.FirstPass | src/main/scala/org/chocosolver/solver/constraints/nary/alldifferent/algo/AlgoAllDiffAC_Fastbit.java:342-360 | fails exactly when some variable outside `notGamma` has only values of `notA`; otherwise those variables lose exactly those values, the other domains are untouched, the cleared bits are exactly those pairs, and the flag says whether a domain changed |
| AllDiffFastbitFilter.StrikeValue | src/main/scala/org/chocosolver/solver/constraints/nary/alldifferent/algo/AlgoAllDiffAC_Fastbit.java:350-357 | the inner loop for one value of `notA` removes it from every variable outside `notGamma` and clears those bits, failing exactly when a domain would become empty |
| AllDiffFastbitFilter.CheckSCC | src/main/scala/org/chocosolver/solver/constraints/nary/alldifferent/algo/AlgoAllDiffAC_Fastbit.java:431-476 | always answers false; `searchEdge` becomes `{e}` for an unmatched edge and empty for a matched one; `notGamma` is restored to its snapshot |
| AllDiffFastbitFilter.DropInstantiated | src/main/scala/org/chocosolver/solver/constraints/nary/alldifferent/algo/AlgoAllDiffAC_Fastbit.java:374-384 | `notGamma` loses exactly its variables with one value, and the snapshot is taken |
| AllDiffFastbitFilter.ScanBit | src/main/scala/org/chocosolver/solver/constraints/nary/alldifferent/algo/AlgoAllDiffAC_Fastbit.java:389-423 | one bit of the scan: a matched edge of a variable with two values or more instantiates it and clears its edges, an unmatched one removes its value and clears itself, a single-valued variable is passed over |
| AllDiffFastbitFilter.ScanInstantiate | src/main/scala/org/chocosolver/solver/constraints/nary/alldifferent/algo/AlgoAllDiffAC_Fastbit.java:405-422 | a matched bit of a variable with two values or more: the variable becomes its mate, all its edges leave `leftEdge`, it leaves `notGamma`, and the scan invariant holds past the bit |
| AllDiffFastbitFilter.ScanRemove | src/main/scala/org/chocosolver/solver/constraints/nary/alldifferent/algo/AlgoAllDiffAC_Fastbit.java:405-422 | an unmatched bit of a variable with two values or more: its value is removed, the bit leaves `leftEdge`, the variable leaves `notGamma` when one value is left, and the scan invariant holds past the bit |
| AllDiffFastbitFilter.SecondPass | src/main/scala/org/chocosolver/solver/constraints/nary/alldifferent/algo/AlgoAllDiffAC_Fastbit.java:387-426 | the scan over the bits in increasing order leaves every variable instantiated to its mate, `notGamma` empty, and only matched bits in `leftEdge` |
| AllDiffFastbitFilter.SecondPart | src/main/scala/org/chocosolver/solver/constraints/nary/alldifferent/algo/AlgoAllDiffAC_Fastbit.java:363-428 | `filterSecondPart` after a successful matching: every variable ends instantiated to its mate, the flag says whether a domain changed, `notGamma` is empty |
| AllDiffFastbitFilter.MatesSolution | src/main/scala/org/chocosolver/solver/constraints/nary/alldifferent/algo/AlgoAllDiffAC_Fastbit.java:409 | domains reduced to the mates of a complete matching still have a solution |
| AllDiffFastbitFilter.MatesOnlyOverPrune | src/main/scala/org/chocosolver/solver/constraints/nary/alldifferent/algo/AlgoAllDiffAC_Fastbit.java:389-411 | on two variables with domains `{1, 2}`, reducing each to its mate removes a value that some solution uses, whatever the matching |
| AllDiffFastbitFilter.MatesNotSearched | src/main/scala/org/chocosolver/solver/constraints/nary/alldifferent/algo/AlgoAllDiffAC_Fastbit.java:309-311 | the edges `distinguish` puts in `searchEdge` lead to free values, so no matched edge is among them |
| AllDiffFastbitFilter.Fill | src/main/scala/org/chocosolver/solver/constraints/nary/alldifferent/algo/AlgoAllDiffAC_Fastbit.java:188-189 | `fill` makes a sparse set hold exactly `0 .. size-1` and keeps its snapshot |
| SCCFinders.SCCFinder.constructor | src/main/scala/org/chocosolver/util/graphOperations/connectivity/StrongConnectivityFinder.java:41-61 | arrays of size `n`, an empty restriction and no component |
| SCCFinders.SCCFinder.FindAllSCC | src/main/scala/org/chocosolver/util/graphOperations/connectivity/StrongConnectivityFinder.java:67-76 | the restriction is the graph's nodes below `n`; afterwards exactly those nodes have a component, two of them share an id exactly when each reaches the other in the graph on those nodes, the component lists agree with `nodeSCC`, a node without predecessors or successors is a component of its own, and the restriction is empty |
| SCCFinders.SCCFinder.FindAllSCCOf | src/main/scala/org/chocosolver/util/graphOperations/connectivity/StrongConnectivityFinder.java:78-96 | exactly the nodes of the restriction get a component id, the others keep -1, two restricted nodes share an id exactly when each reaches the other inside the restriction, the lists agree with the ids, isolated nodes are singletons, and the restriction ends empty |
| SCCFinders.SCCFinder.Reset | src/main/scala/org/chocosolver/util/graphOperations/connectivity/StrongConnectivityFinder.java:79-88 | every node gets `nodeSCC = -1`, `inf = n + 2` and no number; no list heads; `nbSCC = 0` |
| SCCFinders.SCCFinder.SearchAll | src/main/scala/org/chocosolver/util/graphOperations/connectivity/StrongConnectivityFinder.java:91-95 | `findSCC` from the least restricted node until the restriction is empty; every closed node gets a new id and earlier components are kept |
| SCCFinders.SCCFinder.SearchFrom | src/main/scala/org/chocosolver/util/graphOperations/connectivity/StrongConnectivityFinder.java:93-94 | `findSCC` from the least restricted node, then `nextSetBit(first)`: the next start is the new least restricted node, above `first`, or -1 exactly when the restriction is empty; the earlier components are kept |
| SCCFinders.SCCFinder.FindSingletons | src/main/scala/org/chocosolver/util/graphOperations/connectivity/StrongConnectivityFinder.java:98-109 | exactly the restricted nodes with no predecessor or no successor leave the restriction, each as a component of its own |
| SCCFinders.SCCFinder.RecordSingleton | src/main/scala/org/chocosolver/util/graphOperations/connectivity/StrongConnectivityFinder.java:104-106 | the node gets the next id, heads that component's list, and leaves the restriction |
| SCCFinders.SCCFinder.FindSCC | src/main/scala/org/chocosolver/util/graphOperations/connectivity/StrongConnectivityFinder.java:116-190 | the restriction only shrinks and loses `start`; the closed nodes get new ids from `nbSCC` on, earlier ids and lists are kept, and the lists still agree with the ids; every node closed so far shares an id with another closed node exactly when each reaches the other inside the original restriction, and reaches no node still open both ways |
| SCCFinders.SCCFinder.TrivialSCC | src/main/scala/org/chocosolver/util/graphOperations/connectivity/StrongConnectivityFinder.java:119-124 | a restriction of one node makes that node a component of its own and empties the restriction |
| SCCFinders.SCCFinder.Explore | src/main/scala/org/chocosolver/util/graphOperations/connectivity/StrongConnectivityFinder.java:126-180 | the initialisation numbers `start` 0 and pushes it, then the main loop runs; the search ends back at number 0 with its successors exhausted, the stack still starts with number 0, the restriction only shrank, and the ids given out so far are recorded in the lists |
| SCCFinders.SCCFinder.Search | src/main/scala/org/chocosolver/util/graphOperations/connectivity/StrongConnectivityFinder.java:140-180 | the `while (true)` loop terminates, keeping the stack and numbering invariant, the tree of parents, the lists and the record of closed components |
| SCCFinders.SCCFinder.Begin | src/main/scala/org/chocosolver/util/graphOperations/connectivity/StrongConnectivityFinder.java:126-136 | `start` gets number 0, is pushed, and its successors become iterator 0; the component lists are untouched |
| SCCFinders.SCCFinder.Step | src/main/scala/org/chocosolver/util/graphOperations/connectivity/StrongConnectivityFinder.java:141-179 | one turn either numbers a new node, consumes a successor, or moves back to a lower number, so the loop terminates |
| SCCFinders.SCCFinder.Advance | src/main/scala/org/chocosolver/util/graphOperations/connectivity/StrongConnectivityFinder.java:141-158 | the next successor is consumed; a restricted unvisited one is descended into, one on the stack lowers the low link of `i` to its number, any other is ignored |
| SCCFinders.SCCFinder.Descend | src/main/scala/org/chocosolver/util/graphOperations/connectivity/StrongConnectivityFinder.java:145-154 | the new node gets number `k + 1` with parent `i`, its successors as iterator, its own number as low link, and is pushed |
| SCCFinders.SCCFinder.TakeNext | src/main/scala/org/chocosolver/util/graphOperations/connectivity/StrongConnectivityFinder.java:141-142 | `next()` on the iterator of number `i` yields its least remaining successor and removes it |
| SCCFinders.SCCFinder.Retreat | src/main/scala/org/chocosolver/util/graphOperations/connectivity/StrongConnectivityFinder.java:160-178 | when the low link of `i` is not below its number, `i` and everything above it are popped into one component; the parent's low link takes the child's, and the search moves to the parent |
| SCCFinders.SCCFinder.LowerLink | src/main/scala/org/chocosolver/util/graphOperations/connectivity/StrongConnectivityFinder.java:156-177 | `inf[i]` becomes `min(inf[i], v)`, nothing else changes |
| SCCFinders.SCCFinder.PopComponent | src/main/scala/org/chocosolver/util/graphOperations/connectivity/StrongConnectivityFinder.java:165-175 | the stack is cut at `i`'s position; the popped nodes leave the restriction and form one new non-empty component |
| SCCFinders.SCCFinder.CloseIfRoot | src/main/scala/org/chocosolver/util/graphOperations/connectivity/StrongConnectivityFinder.java:165-175 | when `inf[i] >= i` the numbers above and including `i` are popped into one new component; otherwise nothing changes; the search invariant and the lists are kept |
| SCCFinders.SCCFinder.PopTo | src/main/scala/org/chocosolver/util/graphOperations/connectivity/StrongConnectivityFinder.java:167-173 | the do-while pops exactly the stack from the top down to position of `i`, each node leaving the restriction and joining the open component |
| SCCFinders.SCCFinder.PopInto | src/main/scala/org/chocosolver/util/graphOperations/connectivity/StrongConnectivityFinder.java:168-172 | one pop: the top number leaves the stack, its node leaves the restriction and is added to the open component by `sccAdd` |
| SCCFinders.SCCFinder.FinalPop | src/main/scala/org/chocosolver/util/graphOperations/connectivity/StrongConnectivityFinder.java:181-189 | what remains on the stack, down to `start`, becomes one last component, and no restricted node is left numbered |
| SCCFinders.SCCFinder.PopToStart | src/main/scala/org/chocosolver/util/graphOperations/connectivity/StrongConnectivityFinder.java:183-187 | the final do-while pops the whole stack, down to `start`, into the open component |
| SCCFinders.SCCFinder.SccAdd | src/main/scala/org/chocosolver/util/graphOperations/connectivity/StrongConnectivityFinder.java:192-197 | `y` gets the current id and becomes the head of its list, linked to the old head |
| SCCFinders.SCCFinder.GetNbSCC | src/main/scala/org/chocosolver/util/graphOperations/connectivity/StrongConnectivityFinder.java:203-205 | the number of components, each non-empty, at most the number of nodes with an id |
| SCCFinders.SCCFinder.GetNodesSCC | src/main/scala/org/chocosolver/util/graphOperations/connectivity/StrongConnectivityFinder.java:207-209 | -1 exactly for nodes without a component; otherwise an id below `nbSCC` whose list holds the node |
| SCCFinders.SCCFinder.GetSCCFirstNode | src/main/scala/org/chocosolver/util/graphOperations/connectivity/StrongConnectivityFinder.java:211-213 | the head of the list of component `c`, -1 past the last component |
| SCCFinders.SCCFinder.GetNextNode | src/main/scala/org/chocosolver/util/graphOperations/connectivity/StrongConnectivityFinder.java:215-217 | the node after `j` in its component's list, -1 at the end or for a node without a component |
| SCCFinders.PopsBelow | src/main/scala/org/chocosolver/util/graphOperations/connectivity/StrongConnectivityFinder.java:167-173 | popping positions whose numbers increase removes only restricted nodes and only numbers from the cut on |
| SCCFinders.StackEmpty | src/main/scala/org/chocosolver/util/graphOperations/connectivity/StrongConnectivityFinder.java:181-189 | with the stack empty no node of the restriction is numbered and `start` has left it |
| SCCFinders.ClosingTrans | src/main/scala/org/chocosolver/util/graphOperations/connectivity/StrongConnectivityFinder.java:92-95 | two rounds of closing components compose into one: ids stay in order and earlier lists are kept |
| SCCFinders.SCCFinder.DescendTo | src/main/scala/org/chocosolver/util/graphOperations/connectivity/StrongConnectivityFinder.java:145-154 | an unvisited restricted successor `j` of `i` gets number `k + 1`, goes on the stack and becomes the current node; the search keeps its shape and Tarjan's low-link invariant, and no component id changes |
| SCCFinders.SCCFinder.Backtrack | src/main/scala/org/chocosolver/util/graphOperations/connectivity/StrongConnectivityFinder.java:176-178 | `inf[p[i]] = min(inf[p[i]], inf[i])` then `i = p[i]`: the search moves to the parent, a lower number, and the low-link invariant holds on the shorter tree path |
| SCCFinders.SCCFinder.TakeSingleton | src/main/scala/org/chocosolver/util/graphOperations/connectivity/StrongConnectivityFinder.java:103-107 | a restricted node with no predecessor or no successor is closed as a component of its own; every closed node still carries its strongly connected component as id |
| SCCFinders.LowStart | src/main/scala/org/chocosolver/util/graphOperations/connectivity/StrongConnectivityFinder.java:125-136 | right after the initialisation the low-link invariant holds with only number 0 on the tree path |
| SCCFinders.LowDescend | src/main/scala/org/chocosolver/util/graphOperations/connectivity/StrongConnectivityFinder.java:144-154 | numbering an unvisited successor keeps the low-link invariant with the tree path grown by the new number |
| SCCFinders.LowLower | src/main/scala/org/chocosolver/util/graphOperations/connectivity/StrongConnectivityFinder.java:155-156 | a successor still on the stack lowers the low link of `i` to its number and keeps the invariant: every low link names a stacked number its node reaches |
| SCCFinders.LowSkip | src/main/scala/org/chocosolver/util/graphOperations/connectivity/StrongConnectivityFinder.java:141-143 | a successor outside the restriction is consumed and the invariant is kept |
| SCCFinders.LowRetreat | src/main/scala/org/chocosolver/util/graphOperations/connectivity/StrongConnectivityFinder.java:160-178 | backtracking from a number whose successors are exhausted, with or without the pop, keeps the invariant on the parent's tree path |
| SCCFinders.ReachRoot | src/main/scala/org/chocosolver/util/graphOperations/connectivity/StrongConnectivityFinder.java:165 | when `inf[i] >= i` (or `i` is 0), every stacked number from `i` on reaches `i` by following low links |
| SCCFinders.PopSound | src/main/scala/org/chocosolver/util/graphOperations/connectivity/StrongConnectivityFinder.java:165-173 | the nodes popped with a root reach one another inside the restriction |
| SCCFinders.PopExit | src/main/scala/org/chocosolver/util/graphOperations/connectivity/StrongConnectivityFinder.java:165-173 | every arc from a popped node into the restriction ends in a node popped with it |
| SCCFinders.PopComplete | src/main/scala/org/chocosolver/util/graphOperations/connectivity/StrongConnectivityFinder.java:165-173 | a popped group that reaches itself and has no arc out into the restriction shares a component with no node left open |
| SCCFinders.PopCloses | src/main/scala/org/chocosolver/util/graphOperations/connectivity/StrongConnectivityFinder.java:165-174 | the pop loop and `nbSCC++` close one strongly connected component of the subgraph: the closed nodes share an id exactly when each reaches the other |
| SCCFinders.ComponentPopped | src/main/scala/org/chocosolver/util/graphOperations/connectivity/StrongConnectivityFinder.java:165-174 | after the pop at root `i`: the stack is cut at the root, the popped nodes form a new non-empty list, close one strongly connected component, and leave the stack and the restriction |
| SCCFinders.PopsKeep | src/main/scala/org/chocosolver/util/graphOperations/connectivity/StrongConnectivityFinder.java:167-173 | each iteration of the do-while adds one node to the open component and keeps the pop-loop state |
| SCCFinders.SinglesTake | src/main/scala/org/chocosolver/util/graphOperations/connectivity/StrongConnectivityFinder.java:103-107 | taking an isolated node in `findSingletons` keeps the loop's record: exactly the isolated nodes met so far have left the restriction, each alone in its component |
| SCCFinders.SinglesSkip | src/main/scala/org/chocosolver/util/graphOperations/connectivity/StrongConnectivityFinder.java:101-103 | passing over a node with arcs both ways keeps that record |
| SCCComponents.NothingClosed | src/main/scala/org/chocosolver/util/graphOperations/connectivity/StrongConnectivityFinder.java:78-90 | before any component is closed the component promise holds of nothing |
| SCCComponents.CloseStep | src/main/scala/org/chocosolver/util/graphOperations/connectivity/StrongConnectivityFinder.java:165-188 | closing a group of open nodes that reach one another, and reach no other open node both ways, with a fresh id keeps the promise that closed nodes share an id exactly when each reaches the other |
| SCCComponents.CloseAlone | src/main/scala/org/chocosolver/util/graphOperations/connectivity/StrongConnectivityFinder.java:103-106 | a node with no predecessor or no successor closed alone keeps that promise |
| SCCComponents.CloseLast | src/main/scala/org/chocosolver/util/graphOperations/connectivity/StrongConnectivityFinder.java:119-123 | the trivial case of `findSCC`: the single open node closed alone keeps that promise |
| SCCComponents.AllClosed | src/main/scala/org/chocosolver/util/graphOperations/connectivity/StrongConnectivityFinder.java:92-95 | once the restriction is empty, two nodes share an id exactly when each reaches the other inside it |
| Digraphs.AloneWithoutArcs | src/main/scala/org/chocosolver/util/graphOperations/connectivity/StrongConnectivityFinder.java:103 | a node with no predecessor or no successor mutually reaches no other node, so the singleton pre-pass is sound |
| Digraphs.LeaveSet | src/main/scala/org/chocosolver/util/graphOperations/connectivity/StrongConnectivityFinder.java:141-157 | a path from inside a set of nodes to outside it takes an arc that leaves the set |
| AllDiffACFilter.ComponentsBelow | src/main/scala/org/chocosolver/util/graphOperations/connectivity/StrongConnectivityFinder.java:67-76 | ids that are the components of the nodes below the finder's size, when all the graph's nodes are below it, are the components of the graph |
| SCCLists.ChainDistinct | src/main/scala/org/chocosolver/util/graphOperations/connectivity/StrongConnectivityFinder.java:211-217 | a list spelled by `sccFirstNode`/`nextNode` and ending in -1 holds no node twice |
| SCCLists.SccAddChains | src/main/scala/org/chocosolver/util/graphOperations/connectivity/StrongConnectivityFinder.java:192-197 | pushing a node without an id onto the open component keeps every list well formed |
| SCCLists.SccAddIds | src/main/scala/org/chocosolver/util/graphOperations/connectivity/StrongConnectivityFinder.java:192-197 | after `sccAdd` the lists of components still hold exactly the nodes with their ids |
| SCCLists.CloseComponent | src/main/scala/org/chocosolver/util/graphOperations/connectivity/StrongConnectivityFinder.java:174-188 | `nbSCC++` after at least one `sccAdd` adds one non-empty component |
| SCCLists.RoomForComponent | src/main/scala/org/chocosolver/util/graphOperations/connectivity/StrongConnectivityFinder.java:105-121 | while some node has no id there are fewer components than nodes, so `sccFirstNode[nbSCC]` is in bounds |
| NotEquals.RemoveVal | src/main/scala/org/chocosolver/solver/constraints/binary/PropNotEqualX_YC.java:72 | `removeValue(k)` on an enumerated or bounded domain: fails exactly on `{k}`; changes the domain exactly when `k` is present and the domain is enumerated or `k` is a bound; keeps the domain well formed |
| NotEquals.Propagation | src/main/scala/org/chocosolver/solver/constraints/binary/PropNotEqualX_YC.java:66-82 | the pruned variables are well formed and of the same kind as before |
| NotEquals.PropagationFails | src/main/scala/org/chocosolver/solver/constraints/binary/PropNotEqualX_YC.java:71-78 | propagation fails exactly when no pair of values satisfies `x != y + c` |
| NotEquals.PropagationSound | src/main/scala/org/chocosolver/solver/constraints/binary/PropNotEqualX_YC.java:71-81 | domains only shrink, kinds are kept, and every supported pair survives |
| NotEquals.PropagationPassive | src/main/scala/org/chocosolver/solver/constraints/binary/PropNotEqualX_YC.java:71-81 | with `x` or `y` instantiated, the propagator becomes passive exactly when the result satisfies the constraint; with neither, no domain changes and it becomes passive exactly when the hulls are apart; passive implies satisfied |
| NotEquals.PropagationIdempotent | src/main/scala/org/chocosolver/solver/constraints/binary/PropNotEqualX_YC.java:66-82 | propagating again on the result changes no domain |
| NotEquals.BoundsApart | src/main/scala/org/chocosolver/solver/constraints/binary/PropNotEqualX_YC.java:79-87 | the hulls are apart exactly when `x.ub < y.lb + c` or `y.ub + c < x.lb` |
| NotEquals.EnumeratedSettles | src/main/scala/org/chocosolver/solver/constraints/binary/PropNotEqualX_YC.java:57-74 | with `x` instantiated and `y` enumerated, `y` loses `x - c` and the propagator becomes passive |
| NotEquals.BoundEventMatters | src/main/scala/org/chocosolver/solver/constraints/binary/PropNotEqualX_YC.java:67-70 | on `x = 3` and bounded `y = [1, 4]` nothing is pruned and the propagator stays active; after `y` drops to `[1, 3]` it loses 3 and becomes passive |
| NotEquals.UnsatisfiableShape | src/main/scala/org/chocosolver/solver/constraints/binary/PropNotEqualX_YC.java:89-92 | for non-empty domains, the constraint is unsatisfiable exactly when `x = {b + c}` and `y = {b}`; both variables are then instantiated |
| NotEquals.IsEntailed | src/main/scala/org/chocosolver/solver/constraints/binary/PropNotEqualX_YC.java:85-95 | TRUE exactly when the hulls are apart; FALSE exactly when no pair of values satisfies the constraint |
| NotEquals.EntailmentFalse | src/main/scala/org/chocosolver/solver/constraints/binary/PropNotEqualX_YC.java:89-92 | FALSE exactly when both are instantiated and `x = y + c` |
| NotEquals.EntailedSound | src/main/scala/org/chocosolver/solver/constraints/binary/PropNotEqualX_YC.java:86-88 | TRUE implies that every pair of values satisfies the constraint |
| NotEquals.EntailedOnIntervals | src/main/scala/org/chocosolver/solver/constraints/binary/PropNotEqualX_YC.java:86-94 | on two bounded domains, TRUE exactly when every pair satisfies the constraint |
| NotEquals.EntailedMissesHoles | src/main/scala/org/chocosolver/solver/constraints/binary/PropNotEqualX_YC.java:86-94 | on `x = {1, 3}`, `y = {2}`, `c = 0` the answer is UNDEFINED although every pair satisfies the constraint |
| NotEquals.PropagationConditions | src/main/scala/org/chocosolver/solver/constraints/binary/PropNotEqualX_YC.java:55-63 | an enumerated variable wakes the propagator only on instantiation, a bounded one also on bound changes |
| NotEquals.PropNotEqualXYC.constructor | src/main/scala/org/chocosolver/solver/constraints/binary/PropNotEqualX_YC.java:48-53 | keeps the constant and starts active |
| NotEquals.PropNotEqualXYC.Propagate | src/main/scala/org/chocosolver/solver/constraints/binary/PropNotEqualX_YC.java:66-82 | fails exactly when `Propagation` does, returns its domains otherwise, and the propagator is passive afterwards exactly when it was before or this call made it so |

## Left out

- Timers and counters (`Measurer`, `System.nanoTime`, the static `num`/`id` counters) are diagnostics only.
- Domains are finite sets of integers. `IntVar`, its event machinery and the solver's backtracking of domain changes are not part of this model. After a contradiction the domains are not modelled, because the host solver backtracks.
- Integers are unbounded. Values stay within choco's bounds, so `getLB() - 1`, `x.getValue() - c` and the edge indices do not overflow.
- Domains.RemoveValue: removes the value unconditionally. This is the behaviour of an enumerated domain. In choco, a bounded domain ignores the removal of an inner value. The allDifferent filters are therefore modelled for enumerated domains only; this affects `AlgoAllDiffAC.java:247`, `AlgoAllDiffACFast.java:275` and `:287`, and the second pass of `AlgoAllDiffAC_Fastbit`. Only `NotEquals.RemoveVal` models the bounded case.
- `DirectedGraph` is modelled as a value. The source shares one graph object between the filter and its component finder. Here the filter hands the graph to the finder as a parameter.
- The sink node is added to and removed from the graph as values, not in place. Nothing else reads the graph meanwhile.
- AllDiffACFastFilter.AllDiffACFast.Filter: `buildSCC` calls `StrongConnectivityNewFinder.findAllSCC(distinction)`, which is not part of this model. Its component ids are a parameter `ns` of `Filter` and `Propagate`, so the second rule is proved relative to whatever components it reports.
- AllDiffACFilter.AllDiffAC.Propagate proves that the filter keeps a solution and prunes by the components, and `Filter` proves that those ids are the strongly connected components of the graph with the sink. It does not prove arc consistency or that no supported value is removed: that needs Berge's theorem on alternating cycles and maximum matchings, which is not part of this model.
- AllDiffACFastFilter.AllDiffACFast.Propagate proves that the first rule removes no supported value. The second rule is not proved sound: its ids are a parameter (see above), and soundness would need Berge's theorem as well.
- The commented-out expansion loops of `distinguish` and `checkSCC` in `AlgoAllDiffAC_Fastbit` are not reconstructed. The model follows the code as written: `checkSCC` returns false, and `sccEdge` stays empty. So the branch of `filterSecondPart` that follows a found cycle (lines 391-402) is unreachable and is not modelled.
- `PropNotEqualX_YC.explain` and `toString` depend on the explanation framework, which is not part of this model.
- `AlgoAllDiffAC_Naive`, `PropAllDiffACFast2` and the benchmark harness `amtf/expAllDiff.java` are left out. The first is an empty abstract class. The second delegates to a class that is not part of this model. The third does file and solver I/O only.
