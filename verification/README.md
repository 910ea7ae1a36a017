# A* sliding-puzzle planner: search loop and plan extraction

This project models the two algorithmic pieces of the planner:

- `a_star(puzzle)` (a_star.py) is an A* search over puzzle states.
  - The fringe is a heap with lazy deletion: an entry whose state is already concluded is popped and dropped.
  - `concluded` holds the keys of expanded states.
  - `distances` and `prev` map state keys to the recorded distance and to the predecessor state.
  - The function returns `prev`.
- `traverse(goal_state, prev)` (planning_utils.py) walks `prev` back from the goal. For each predecessor that has an action reproducing the step, it prepends a `(state, action)` pair, with the first such action. A predecessor with no such action adds no pair.

The puzzle's `State` class is not part of this model. Its operations are parameters, gathered in `Puzzle.Domain`:

- `key` is `to_string`, assumed injective;
- `actions` is `get_actions`;
- `apply` is `apply_action`;
- `heuristic` is the Manhattan distance, or the commented-out misplaced-tiles count; any integer function fits.

Other modelling choices:

- The fringe is a multiset of `(priority, state)` entries. A pop takes some entry of least priority. Python's heap falls back on `State.__lt__` for ties, so no tie-break is fixed.
- The relaxation test of a_star.py:64-65 overwrites an entry when the recorded distance is *less* than `curr_dist + 1`. It is modelled exactly as written. Nothing here claims that the plan is shortest.

Files:

- `puzzle.dfy` (module `Puzzle`): the `Domain` of state operations and reachability by legal moves.
- `fringe.dfy` (module `Fringe`): fringe entries and `heappop`.
- `planning_utils.dfy` (module `PlanningUtils`): `traverse`, the reference functions it is proved against, and the lemmas connecting it to the search result.
- `a_star.dfy` (module `AStar`): `a_star`, its neighbour loop, and the loop invariants with their preservation lemmas.

Both source functions are loops that update variables. They are therefore methods with loop invariants:

- `AStar.AStar` and its inner loop `AStar.Expand`;
- `PlanningUtils.Traverse` and its inner search `PlanningUtils.FindAction`.

`Expand`, `Traverse` and `FindAction` are each proved equal to a recursive reference function (`Expanded`, `Plan`, `MatchIndex`), and lemmas state what those functions mean. `AStar.AStar` states its properties directly: its loop invariants are kept by the preservation lemmas below.

## Model

| member | source | states |
|---|---|---|
| Fringe.LeastExists | a_star.py:37 | Every non-empty fringe holds an entry whose priority is no larger than that of any entry, so `heappop` always has something to return. |
| Fringe.PopMin | a_star.py:37 | `heappop` returns an entry of the fringe with least priority. The remaining fringe is the old one minus exactly that entry, one entry smaller. |
| PlanningUtils.Links | planning_utils.py:13-20 | Counts the predecessor links from a key back to an entry holding None. A None entry has 0 links. A found count means the key is in `prev` and the count is within the fuel. A key whose entry holds a state has at least one link. |
| PlanningUtils.MatchIndex | planning_utils.py:16-19 | The index found is the first action of `p` that takes `p` to `s`: it gives `s`, and no earlier action does. None means no action of `p` gives `s`. |
| PlanningUtils.FindAction | planning_utils.py:16-19 | The `for`/`break` search over `get_actions()` returns exactly the first matching index, or None. |
| PlanningUtils.Traverse | planning_utils.py:1-22 | Requires that the walk from the goal stays in `prev` and ends at a None entry within `len(prev)` links; otherwise the source raises KeyError or never stops. Ensures that the result is the plan of the reference walk and ends with `(goal, None)`. It has at most one pair per link. Each prepended pair's action takes its state to a key whose `prev` entry is that state. If `prev[goal]` is None, the result is exactly `[(goal, None)]`. |
| PlanningUtils.PlanLinks | planning_utils.py:9-22 | The plan for a goal whose walk reaches the start ends with `(goal, None)` and has at most one pair per link. Each of its pairs is a recorded predecessor transition. When the goal's own entry is None, the plan is that single pair. |
| PlanningUtils.TraceLinks | planning_utils.py:13-20 | The pairs collected on the walk number at most the links walked. Each pair is a recorded predecessor transition. |
| PlanningUtils.TraceChained | planning_utils.py:13-20 | When every link has a matching action, the following hold. The plan has exactly one element more than the walk has links. It starts at the state whose entry is None. Each pair's action is a legal action of its state and leads to the state of the next element. |
| PlanningUtils.EdgesMatch | planning_utils.py:16-19 | With injective keys, every link of a map returned by the search is reproduced by some action, so the inner search never comes back empty-handed. |
| PlanningUtils.PlanIsSolution | planning_utils.py:6-9 | For a map returned by the search, the plan is a solution. It starts at the initial state and ends with `(goal, None)`. Each action is legal and leads to the next state. The plan has one element per state on the walk. |
| AStar.Targets | a_star.py:48-52 | The keys the inner loop may write exclude every concluded key. |
| AStar.TargetsHave | a_star.py:48-52 | Every action whose neighbour is not concluded makes its neighbour's key a target. |
| AStar.TargetsCome | a_star.py:48-52 | Every target is the key of a neighbour reached by one of the tried actions. |
| AStar.RelaxStep | a_star.py:64-67 | One test-and-write on the maps built so far keeps the relaxation description, with the neighbour added to the targets. A key met twice is written at most once. |
| AStar.RelaxedKeeps | a_star.py:64-67 | Relaxation leaves the entries of every key outside the targets unchanged. |
| AStar.ExpandedRelaxes | a_star.py:48-67 | After the loop, the two maps keep equal key sets (the old keys plus the targets). A target's entries become `(curr_dist + 1, current)` exactly when it had no distance or a recorded distance below `curr_dist + 1`. Every other entry is unchanged. |
| AStar.ExpandedKeeps | a_star.py:62 | Pushing only adds: every entry already in the fringe is still there. |
| AStar.ExpandedPushes | a_star.py:54-62 | Every action whose neighbour is not concluded pushes `(heuristic(neighbour, goal) + curr_dist + 1, neighbour)`. |
| AStar.ExpandedEntry | a_star.py:51-62 | Every new fringe entry holds a non-concluded neighbour reached by a legal action, with priority `heuristic(neighbour, goal) + curr_dist + 1`. |
| AStar.Expand | a_star.py:48-67 | The inner `for` loop over actions yields exactly the fringe and maps of the reference function that tries the actions one at a time. |
| AStar.ExpandedKeepsConcluded | a_star.py:51-52 | An expansion leaves the `distances` and `prev` entries of every concluded key unchanged. |
| AStar.DiscardKeepsInv | a_star.py:37-39 | Dropping a popped entry whose state is concluded keeps the fringe invariant for the same `concluded` and `distances`. |
| AStar.ExpandKeepsMaps | a_star.py:64-69 | After an expansion, `distances` and `prev` still share their keys, and the start keeps its entry. Every concluded key has an entry. The goal is never concluded. |
| AStar.ExpandKeepsLinks | a_star.py:64-69 | After an expansion, None still marks only the start. Every other entry still holds a concluded state that is reachable from the start and has a move to that key. |
| AStar.ExpandSparesConcluded | a_star.py:51-67 | Without self-loops, expanding `current` rewrites neither its own entry nor that of any concluded key. |
| AStar.ExpandKeepsOrder | a_star.py:67-69 | Without self-loops, the start keeps None, and every concluded key's predecessor was concluded before it. |
| AStar.ExpandKeepsSearchInv | a_star.py:48-69 | Expanding a popped, unconcluded state other than the goal and then concluding it keeps the map invariant. |
| AStar.ExpandKeepsEntries | a_star.py:41-67 | After an expansion, every fringe entry's key has a distance, so the lookup at line 41 succeeds. The key lies in the finite state space, and the state is reachable from the start. |
| AStar.ExpandKeepsClosure | a_star.py:48-69 | After an expansion, every neighbour of a concluded state is concluded or still pending in the fringe. |
| AStar.ExpandKeepsFringeInv | a_star.py:48-69 | Expanding and concluding a popped state keeps the fringe invariant. |
| AStar.StartSatisfiesInv | a_star.py:23-33 | The start state satisfies both loop invariants: `distances = {initial: 0}`, `prev = {initial: None}`, nothing concluded, and a fringe holding only `(heuristic(initial, goal), initial)`. |
| AStar.RankedWalk | a_star.py:31-33 | Following `prev` strictly lowers the conclusion rank, so the walk from a key ends at a None entry within its rank. |
| AStar.WalksReachStart | a_star.py:31-33 | Without self-loops, the walk from every key of `prev` reaches the start (the only None entry) within `len(prev)` links, so there is no cycle. |
| AStar.EntryMeansReachable | a_star.py:67 | A goal with an entry in `prev` is reachable from the initial state. |
| AStar.ExhaustedMeansUnreachable | a_star.py:35-45 | If the fringe runs out without meeting the goal, the goal is unreachable from the initial state. |
| AStar.AStar | a_star.py:9-73 | Requires injective keys and a finite set of keys, closed under moves, that holds the start. The returned map has an entry for the start, and None marks only the start. Every other entry holds a state reachable from the start, with an entry of its own and a move to that key. The goal has an entry if and only if it is reachable, whether or not the loop stopped at it. Without self-loops the start keeps None, and every key's walk reaches the start, so `traverse` may be called on any key. |

## Left out

- lqr.py is not part of this model. It is floating-point linear algebra on numpy with gym rendering and plotting.
- `solve`, the `__main__` block, `print_plan` and the timing code are left out. They only print and time. The concrete 25-move scenario depends on the `puzzle` module, which is not part of this model.
- The `State` class internals are left out: the grid, move generation, `to_string`, `__eq__`, `__lt__` and the Manhattan distance. They are the parameters of `Puzzle.Domain`. `to_string` is assumed injective.
- The heap's array layout and its tie-break order are not modelled: the fringe is a multiset, and a pop may return any entry of least priority.
- The search is not claimed to find shortest paths, because the relaxation test at a_star.py:64-65 is inverted (it writes when the recorded distance is less than `curr_dist + 1`).
- Infinite state spaces are not covered. The model's loop ends because of a ghost finite set of keys closed under moves (`universe`). Over a state space without such a set, `a_star` may not return.
- AStar.AStar: the absence of cycles in `prev` and the start's None entry are promised only for domains with no move from a state to itself. A self-loop at `s` makes the neighbour loop write `prev[s] = s` while expanding `s` (a_star.py:64-67), before `s` is concluded at a_star.py:69. That is the cycle, and with `s` the initial state it replaces the start's None entry. Concluded entries are never rewritten, because concluded neighbours are skipped (a_star.py:51-52); `AStar.ExpandedKeepsConcluded` holds for every domain.
- AStar.AStar: the promise that every state in `prev` is concluded is stated on the loop invariant (`LinksInv`), not on the result, because `concluded` is local to the function. The result states the weaker fact that every such state has an entry of its own.
- PlanningUtils.Traverse: the promise that each prepended pair's action leads to the state of the next element holds only when every link has a matching action. It is proved for maps returned by the search (`PlanIsSolution`). For an arbitrary map, `Traverse` promises only that each pair is a recorded predecessor transition.
- PlanningUtils.Traverse: the KeyError on a key missing from `prev`, and the endless loop on a cyclic `prev`, are excluded by the precondition rather than modelled as outcomes.
