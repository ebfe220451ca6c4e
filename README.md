# Depth-limited search (AIMA Figure 3.17), modelled in Dafny

This project models `DepthLimitedSearch` of aima-java: the recursive
depth-limited tree search RECURSIVE-DLS from *Artificial Intelligence: A Modern
Approach* (3rd edition, Figure 3.17). Given a problem (initial state, applicable
actions in order, transition, step cost, goal test) and a depth limit, the
search returns one of three outcomes: a solution node, cutoff (the limit or a
cancellation stopped it), or failure (nothing was found and nothing was cut
off). It also keeps two metrics: the number of nodes expanded and the path cost
of the solution found. `findActions` and `findState` turn cutoff and failure
into one "not found" answer: the empty action list, or null.

Files:

- `search_framework.dfy` (module `SearchFramework`): the problem, the search-tree
  node (its state, the actions from the root, its path cost), and the node
  expander as plain values. It also holds the reference notions the search is
  judged by: `ValidPath`, `Replay` and `PathCost` of an action sequence;
  `GoalWithin(p, s, k)`, true when some applicable sequence of at most k actions
  reaches a goal; `PathOfLength(p, s, k)`, true when some applicable sequence of
  exactly k actions exists; and `Interior(p, s, k)`, the number of search-tree
  nodes above depth k.
- `depth_limited.dfy` (module `DepthLimited`): the three-way `Outcome` (the
  original's sentinel `cutoffNode` becomes `Cutoff`, `null` becomes `Failure`).
  The function `Dls` gives the outcome and the expansion count. Its sibling loop
  is `DlsChildren`. The lemmas prove the search's contract.
- `uninformed.dfy` (module `Uninformed`): the class `DepthLimitedSearch`. Its
  fields are the limit, the NoOp action returned for a goal initial state, the
  metrics and the expander's parent-link mode. Its
  methods `RecursiveDls` (a recursive method with the original's loop over the
  children), `FindNode`, `FindActions`, `FindState` and `ClearInstrumentation`
  are proved against `Dls`.
- `chain_example.dfy` (module `ChainExample`): the chain A→B→C→D searched with
  limits 3, 2 and 5, and with limit 3 under a cancellation raised at B.

Cancellation is an oracle `cancel: Node -> bool`. `cancel(m)` is the value
`CancelableThread.currIsCanceled()` returns when the call for node m polls it
at line 109, after m's goal test. The flag can therefore rise at any point of a
run. Soundness, the failure guarantees and the expansion bound hold for every
oracle. Completeness and the exact characterisation of the outcome are proved
for an oracle that cancels no call.

## Model

| member | source | states |
|---|---|---|
| `DepthLimited.Dls` | aima-core/src/main/java/aima/core/search/uninformed/DepthLimitedSearch.java:104-138 | The recursive search as a function of the node, the remaining limit and the cancellation oracle, giving the outcome and the expansion count. A solution it returns is a goal node, and Failure is never reported without an expansion. |
| `DepthLimited.DlsChildren` | aima-core/src/main/java/aima/core/search/uninformed/DepthLimitedSearch.java:115-136 | The loop over a node's children. A solution it returns is a goal node, and once a child has cut off the loop can no longer end in Failure. |
| `DepthLimited.ImmediateOutcomes` | aima-core/src/main/java/aima/core/search/uninformed/DepthLimitedSearch.java:106-136 | A goal node is returned as the solution at any remaining limit, 0 included, with no expansion. A non-goal node at limit 0, or whose call is canceled, gives Cutoff (never Failure) with no expansion. A non-goal leaf with a positive limit gives Failure after one expansion. |
| `DepthLimited.ChildrenOutcome` | aima-core/src/main/java/aima/core/search/uninformed/DepthLimitedSearch.java:115-136 | The sibling loop finds a solution iff some child does. It then returns the first such child's solution, and the expansion count covers only the children up to that one, so later siblings are not explored. Otherwise every child is searched, and the result is Cutoff iff some child cut off, Failure if none did. |
| `DepthLimited.Soundness` | aima-core/src/main/java/aima/core/search/uninformed/DepthLimitedSearch.java:104-138 | A returned solution node is a goal. Some sequence of applicable actions, no longer than the limit, leads to it from the start node, and its path, state and path cost are those of that sequence. |
| `DepthLimited.SolutionWithinLimit` | aima-core/src/main/java/aima/core/search/uninformed/DepthLimitedSearch.java:106-121 | A solution means a goal lies within the limit. |
| `DepthLimited.Completeness` | aima-core/src/main/java/aima/core/search/uninformed/DepthLimitedSearch.java:118-128 | If no call is canceled and a goal lies within the limit, the search returns a solution. |
| `DepthLimited.FailureExcludesPath` | aima-core/src/main/java/aima/core/search/uninformed/DepthLimitedSearch.java:121-136 | After Failure, every applicable action sequence within the limit is strictly shorter than the limit and ends in a non-goal state. |
| `DepthLimited.FailureIsCertain` | aima-core/src/main/java/aima/core/search/uninformed/DepthLimitedSearch.java:121-136 | Failure, whichever calls were canceled, means no goal lies within the limit and no path reaches the limit. |
| `DepthLimited.CutoffReachesLimit` | aima-core/src/main/java/aima/core/search/uninformed/DepthLimitedSearch.java:109-133 | If no call is canceled, Cutoff means some applicable action sequence reaches exactly the limit. |
| `DepthLimited.OutcomeCharacterized` | aima-core/src/main/java/aima/core/search/uninformed/DepthLimitedSearch.java:104-138 | If no call is canceled: Solution iff a goal lies within the limit; Cutoff iff no goal does but some path reaches the limit; Failure iff neither. |
| `DepthLimited.CancellationNeverFails` | aima-core/src/main/java/aima/core/search/uninformed/DepthLimitedSearch.java:104-138 | Under any cancellation oracle, the search fails only where the uncanceled search fails. Where the uncanceled search fails, a canceled one fails or cuts off and never returns a solution. |
| `DepthLimited.ExpandedNodes` | aima-core/src/main/java/aima/core/search/uninformed/DepthLimitedSearch.java:112-129 | The nodes expanded never exceed the search-tree nodes above the limit. A search in which no call is canceled and no goal lies within the limit expands each of them exactly once. |
| `DepthLimited.ChildrenExpanded` | aima-core/src/main/java/aima/core/search/uninformed/DepthLimitedSearch.java:117-129 | The expansions of a node's children i..j stay within their subtrees' interior nodes, and equal them when every subtree is searched to the end without a goal. |
| `Uninformed.DepthLimitedSearch.constructor` | aima-core/src/main/java/aima/core/search/uninformed/DepthLimitedSearch.java:50-62 | Stores the limit and the NoOp action. Both metrics start at 0, and parent links are on. |
| `Uninformed.DepthLimitedSearch.ClearInstrumentation` | aima-core/src/main/java/aima/core/search/uninformed/DepthLimitedSearch.java:155-158 | Sets both metrics to 0. |
| `Uninformed.DepthLimitedSearch.RecursiveDls` | aima-core/src/main/java/aima/core/search/uninformed/DepthLimitedSearch.java:104-138 | Returns the outcome `Dls` specifies. Adds to nodesExpanded exactly `Dls`'s count: one per node that passes both the goal test and the depth and cancellation test. Sets pathCost to the solution's path cost exactly when a solution is found, and leaves it unchanged otherwise. |
| `Uninformed.DepthLimitedSearch.FindNode` | aima-core/src/main/java/aima/core/search/uninformed/DepthLimitedSearch.java:90-95 | Resets the metrics, then searches from the root node of the initial state with the object's limit. Afterwards nodesExpanded is that run's count and pathCost is the solution's cost, or 0 if there is none. |
| `Uninformed.DepthLimitedSearch.FindActions` | aima-core/src/main/java/aima/core/search/uninformed/DepthLimitedSearch.java:77-81 | Switches parent links on and returns `ActionsOf` the search's outcome: the empty list for both Cutoff and Failure. |
| `Uninformed.DepthLimitedSearch.FindState` | aima-core/src/main/java/aima/core/search/uninformed/DepthLimitedSearch.java:84-88 | Switches parent links off and returns the solution's state, or None for both Cutoff and Failure. |
| `Uninformed.SequenceOfActions` | aima-core/src/main/java/aima/core/search/uninformed/DepthLimitedSearch.java:66-74 | A solution's action list is never empty: a goal at the root gives the single NoOp action. |
| `Uninformed.StateOf` | aima-core/src/main/java/aima/core/search/uninformed/DepthLimitedSearch.java:87 | The state is present exactly when the outcome is a solution, and is then the solution node's state. Cutoff and Failure both give None. |
| `Uninformed.ActionsOf` | aima-core/src/main/java/aima/core/search/uninformed/DepthLimitedSearch.java:80 | The action list is empty exactly when the outcome is Cutoff or Failure. |
| `Uninformed.FindActionsResult` | aima-core/src/main/java/aima/core/search/uninformed/DepthLimitedSearch.java:66-81 | A goal initial state gives [NoOp] whatever the limit. Otherwise a non-empty answer is a sequence of applicable actions, no longer than the limit, whose replay from the initial state reaches a goal, and the path-cost metric is its summed step cost. If no call is canceled, the answer is empty iff no goal lies within the limit. If the call for the root is canceled, it is empty iff the initial state is not a goal. |
| `Uninformed.FindStateResult` | aima-core/src/main/java/aima/core/search/uninformed/DepthLimitedSearch.java:84-88 | A returned state is a goal reachable from the initial state within the limit. If no call is canceled, a state is returned iff a goal lies within the limit. If the call for the root is canceled, only an initial goal state is returned. |
| `ChainExample.ChainSearch` | aima-core/src/main/java/aima/core/search/uninformed/DepthLimitedSearch.java:104-138 | On the chain A→B→C→D with goal D: limit 3 finds D by three actions after 3 expansions; limit 2 cuts off after 2 expansions; limit 5 gives the same result as limit 3. |
| `ChainExample.ChainCanceled` | aima-core/src/main/java/aima/core/search/uninformed/DepthLimitedSearch.java:104-138 | On the same chain with limit 3, a flag raised when B's call polls it makes the search cut off after expanding A alone, although the goal lies within the limit. |

## Left out

- Negative limits: the limit is a `nat`. With a negative limit the `0 == limit` test at line 109 never fires, so the recursion is bounded only by the depth of the state space and need not terminate. This model does not treat a negative limit as zero, because the code does not.
- Cancellation: `CancelableThread.currIsCanceled()` is the oracle `cancel`, asked once per call about that call's node. Two calls on identical nodes, as duplicate actions give, therefore see the same answer. The real flag can differ between them. The thread that sets the flag is not modelled.
- Node listeners (`addNodeListener`, `removeNodeListener`, lines 160-168) are left out. They only observe expansions and do not affect the outcome.
- Parent links: `useParentLinks` is a field that `FindActions` and `FindState` set, but every model node carries its full action path. The memory saving that parent links give is not modelled.
- The path cost is an `int`, not a `double`. Step costs are arbitrary integers, and floating-point rounding is not modelled.
- Metrics: the `Metrics` map becomes the two fields `nodesExpanded` and `pathCost`, and `getMetrics` is reading them. Before the first search both are 0, whereas the original map is empty. The 32-bit wrap-around of the Java `int` counter is not modelled.
- `isCutoffNode` and the `cutoffNode` sentinel (lines 50 and 140-142) become the `Cutoff` case of `Outcome`. The identity test is the discriminator `Cutoff?`.
- `SearchUtils.getSequenceOfActions`, `SearchUtils.failure` and the NoOp action are not part of this model. `SequenceOfActions` follows the documented behaviour at lines 66-74, and the NoOp action is a constructor argument.
- `Problem`, `Node` and `NodeExpander` are not part of this model. They are stood in for by `Problem`, `Node`, `ChildNode` and `Expand`. `Problem.testSolution` is taken to be the goal test on the node's state.
- `src/aima/test/learningtest/MockDLTestFactory.java` is a test mock with no search logic and is not modelled.
