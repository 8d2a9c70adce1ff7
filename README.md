# Red–blue path counting on a tree

This project models `main.py` of the Kendaxa repository: the `Graph` class that
reads a tree with M edges (nodes `1..M+1`), some red and some blue nodes, and
counts vertex-disjoint paths that each join a red node to a blue node by
greedy leaf elimination. The graph keeps four pieces of state:

- `nodes`, the live node ids;
- `neighbors`, a neighbour set per id, where id 0 is an unused slot;
- `colors`, a colour per id;
- `leaves`, the frontier of live nodes with at most one neighbour.

`count_paths` takes frontier nodes one at a time, in no particular order:

- an isolated node is removed;
- otherwise the node is removed, and if it and its neighbour have opposite
  colours the neighbour is removed too and a path is counted;
- otherwise the node's colour is handed on to the neighbour.

The model has two modules:

- `GraphValues` (`graph_values.dfy`) holds the value-level definitions:
  - the colour type;
  - the graph's shape (symmetric, loop-free adjacency among the live nodes, and a sound and complete frontier);
  - cutting a node out of the adjacency (`Detach`, `Promoted`);
  - the colour accounting used to bound the result (`ColoredIn`, `Accounted`);
  - the lemmas about all of these.
- `PathGraph` (`graph.dfy`) holds:
  - `Graph`, a class whose four fields are reassigned by its methods;
  - the two input-building methods `ReadNeighbors` and `ReadColors`.

Each removal preserves the graph invariant `Valid()`:

- the adjacency is symmetric and relates live nodes only;
- no node is its own neighbour;
- every frontier node is live and has at most one neighbour;
- every live node with exactly one neighbour is on the frontier.

Under this invariant, `CountPaths` is proved to terminate and to end with an
empty frontier. Its result is bounded by half the initial node count, and by
the initial numbers of red and of blue nodes. No colour is ever cleared.

## Model

| member | source | states |
|---|---|---|
| GraphValues.NodeIds | main.py:55 | the node ids of an M-edge tree are exactly 1..M+1, M+1 of them |
| PathGraph.ReadNeighbors | main.py:63-86 | there are M+2 neighbour sets, and v is in the set of u exactly when some edge line is (u, v) or (v, u) |
| PathGraph.ReadColors | main.py:88-117 | every slot is blue if its id is on the blue list, else red if on the red list, else uncoloured; blue is painted last, so it wins |
| GraphValues.InitialShape | main.py:55-86 | from well-formed edges, the adjacency is symmetric, relates nodes 1..M+1 only, has no self-loops, and leaves id 0 and all non-node ids without neighbours |
| PathGraph.Graph.constructor | main.py:43-61 | the built graph satisfies the invariant, has nodes 1..M+1, an empty slot 0, adjacency as the edge list says, the given colours, and a frontier of exactly the nodes with one neighbour |
| PathGraph.Graph.GetLeaves | main.py:119-128 | the frontier holds exactly the ids with one neighbour; it lies within the live nodes when dead ids have no neighbours |
| PathGraph.Graph.RemoveNode | main.py:130-150 | removing a live node re-establishes the invariant: the node leaves nodes and frontier, its neighbour set is cut off, the neighbours left with one neighbour join the frontier, and colours are untouched |
| GraphValues.OnlyMember | main.py:221 | proof step: a set of at most one element holding `y` is exactly `{y}`, so the picked neighbour is the only one |
| GraphValues.DetachIsolated | main.py:212-214 | removing an isolated leaf changes no neighbour set and adds nobody to the frontier |
| GraphValues.DetachMeaning | main.py:143-148 | after the cut the removed node has no neighbours, every other id has lost exactly that node, nobody refers to it any more, and the promoted ids are exactly its former neighbours left with one neighbour |
| GraphValues.CutFromStep | main.py:143-144 | one pass of the removal loop removes the node from one more neighbour's set and leaves all other entries unchanged |
| GraphValues.PromotedAmongStep | main.py:145-146 | a visited neighbour joins the frontier exactly when it is left with one neighbour |
| GraphValues.DetachKeepsShape | main.py:143-150 | removal keeps the adjacency symmetric and loop-free, keeps the frontier sound, and makes it complete, even if the removed node was already off the frontier |
| GraphValues.DetachSymmetric | main.py:143-148 | removal keeps the adjacency symmetric, loop-free and among the remaining nodes |
| GraphValues.DetachSound | main.py:143-150 | after removal every frontier node is live and has at most one neighbour |
| GraphValues.DetachComplete | main.py:143-150 | after removal every live node with exactly one neighbour is on the frontier |
| PathGraph.Graph.PathFound | main.py:152-170 | an edge completes a path exactly when one end is red and the other blue, symmetrically in the two ends; only colours are read |
| PathGraph.Graph.PushColor | main.py:172-188 | the neighbour takes the leaf's colour when the leaf is coloured, nothing else changes, and no colour reverts to uncoloured |
| GraphValues.PopKeepsShape | main.py:207 | proof step for the pop: taking a frontier node out keeps the shape; the popped node is live with at most one neighbour and is the only gap in the frontier |
| GraphValues.LiveNeighbor | main.py:221 | proof step for picking the neighbour: it is another live node that has the popped node as its neighbour |
| GraphValues.CompleteOutside | main.py:227 | proof step for the second removal: a frontier complete everywhere is complete outside the neighbour, so the neighbour may be removed next |
| PathGraph.Graph.ReduceLeaf | main.py:207-230 | one round pops a frontier node and removes it; an isolated one counts no path and changes no colour; otherwise, for its one neighbour, a path is found exactly when the two have opposite colours, the neighbour is removed exactly then, and otherwise the leaf's colour (if any) moves to the neighbour; the neighbour sets and the frontier are exactly those left by these removals (unchanged, apart from the popped leaf, for an isolated one); the invariant and the colour account (one more path exactly when found) are kept |
| PathGraph.Graph.ReduceEdge | main.py:221-230 | for a popped leaf with one neighbour: the leaf is removed, a path is found exactly when the two colours are opposite, the neighbour is then removed too, else the leaf's colour moves to it when the leaf is coloured; the neighbour sets and the frontier are exactly those left by removing the leaf, and then the neighbour when found; the invariant and the colour account are kept |
| GraphValues.AccountedRemove | main.py:212-219 | removing a node without counting keeps the account and lowers the node count by one |
| GraphValues.AccountedPath | main.py:224-227 | a counted path removes two nodes of opposite colours, so it is paid for by two nodes, one red and one blue |
| GraphValues.AccountedPush | main.py:228-230 | removing a coloured leaf and handing its colour to its live neighbour keeps the account, whatever the neighbour's colour |
| GraphValues.ColoredRemove | main.py:148-149 | removing a node lowers the live count of its own colour by one and leaves the other counts |
| GraphValues.ColoredPush | main.py:187-188 | moving a colour from a removed node to another node never raises any colour's live count |
| GraphValues.ColoredPushSame | main.py:187-188 | the pushed colour's live count does not grow: the removed leaf loses it and the neighbour gains it at most once |
| GraphValues.ColoredPushOther | main.py:187-188 | a colour other than the pushed one can only lose live members |
| PathGraph.Graph.CountPaths | main.py:190-236 | the loop terminates with an empty frontier and the invariant kept; twice the result is at most the number of removed nodes; the result is at most the initial red count and the initial blue count; colours never revert, and colours of ids that were never nodes stay as they were |

## Left out

- Command-line parsing and `main` (main.py:15-17, 306-313) are not modelled.
- The file and standard-input reading and the token-to-int conversion (main.py:52-54, 80-82, 107-113) are not modelled. The constructor and `ReadNeighbors`/`ReadColors` take the already parsed edge list and red and blue id lists.
- The header counts R and B (main.py:54) are read but never used by the program, so the constructor does not take them.
- Verbose tracing (`_print_leaf`, `_print_graph`, `_print_paths`, main.py:238-302, and the `verbose` branches of `count_paths`) is console output only and is not modelled.
- benchmarks.py (timing and plotting) and algorithm_tests.py are not part of this model.
- The `Graph` lists are modelled as `seq` fields that the methods reassign, not as mutable list objects. Aliasing of those lists is not modelled, because the program never shares them.
- `set.pop()` and `next(iter(...))` are modelled as arbitrary choices (`:|`). The proved properties hold for every choice; Python's actual iteration order is not modelled.
- PathGraph.Graph.constructor: requires the edges to use ids 1..M+1 and no self-loops. The program makes neither check; a self-loop would make the removal loop change a set it is iterating over (main.py:143-144).
- PathGraph.ReadColors: requires the coloured ids to lie in 0..M+1. Python's negative list indices, and the `IndexError` an out-of-range id would raise, are not modelled.
- PathGraph.Graph.RemoveNode: requires the node to be live and the graph to be in its invariant. The `KeyError` that `set.remove` (main.py:149) would raise for a dead node is not modelled; `count_paths` never removes a dead node.
- PathGraph.Graph.CountPaths: the body of the `count_paths` loop is the separate method `ReduceLeaf`, called once per round, and the part of it after the isolated-leaf test (main.py:221-230) is the method `ReduceEdge`. `ReduceLeaf` returns the popped leaf and reports a counted path through its result `found` instead of incrementing the counter itself. Its `paths` parameter and the neighbour it returns are ghost.
- The model makes no claim that the greedy count is the largest possible number of disjoint red–blue paths, nor that the result does not depend on the pop order.
- The model makes no claim that the loop empties `nodes`: a single-node tree starts with an empty frontier. What is proved is that the loop ends with an empty frontier and no live node with exactly one neighbour.
- The frontier is not kept equal to the set of nodes with exactly one neighbour. The code adds a node when it gets down to one neighbour but does not take it out when that neighbour is removed, so frontier nodes can have no neighbours (main.py:145-146, 212-219). The model follows the code: the frontier holds live nodes with at most one neighbour.
