# Degrees of separation, modelled in Dafny

A model of the search engine in `degrees.py`, the CS50 AI "degrees of
separation" project. People and movies form a bipartite graph. Two people are
linked when they starred in the same movie. `shortest_path` runs a
breadth-first search over person ids. It uses a first-in-first-out
`QueueFrontier`, an `explored` set and `Node` records with parent links. It
returns the shortest list of `(movie_id, person_id)` pairs leading from the
source to the target, or `None`. `neighbors_for_person` computes the co-star
pairs of a person. `person_id_for_name` resolves a typed name to an id,
choosing the candidate with the longest birth string when a name is
ambiguous.

The project is organised in modules:

- `Database` (`database.dfy`): the three maps (`names`, `people`, `movies`)
  as one `Db` value. It also holds the consistency predicates the loader
  establishes, the co-star edge relation `Costars` and `NeighborsForPerson`,
  whose nested loops fill a set.
- `Walks` (`walks.dfy`): co-star chains (`IsChain`), reachability and
  distance lower bounds (`NoShorterChain`). It also holds the two graph facts
  breadth-first search rests on: `Covered`/`Discover` (the search goes layer
  by layer) and `Closed` (exhaustion means unreachable).
- `SearchNode` (`search_node.dfy`): `Node` records. Nodes live in an arena, a
  sequence of the nodes expanded so far, and a child stores the index of its
  parent there, so parent chains are finite. The module also holds `Chain`,
  the actions along a parent chain, and `ReconstructPath`, the
  parent-walking loop followed by `reverse()`.
- `Frontier` (`frontier.dfy`): the `QueueFrontier` class, whose `frontier`
  field is a sequence that `Add` and `Remove` reassign.
- `BfsInvariant` (`bfs_invariant.dfy`): the loop invariants of
  `shortest_path` and the lemmas that carry them through one step.
- `Search` (`search.dfy`): `ShortestPath`. It calls two helpers:
  - `Expand`, which marks a node explored and queues its neighbours
    (degrees.py:121-128);
  - `AddNeighbors`, the loop over the neighbours (degrees.py:124-128).
- `Names` (`names.dfy`): `PersonIdForName` and the `max` by birth length it
  relies on.

The graph is an input. `GraphConsistent` says that cast membership is
recorded on both sides: every movie of a person has that person among its
stars, and the other way round. A `KeyError` raised inside the search is a
result, `Outcome.KeyError`. In a consistent graph it happens exactly when the
source is not a person of the database and differs from the target: looking
up the source's neighbours fails at degrees.py:175. `NeighborsForPerson` returns `None` for the
`KeyError` that `people[person_id]` or `movies[movie_id]` raises.

## Model

| member | source | states |
|---|---|---|
| Database.NeighborsForPerson | degrees.py:170-180 | Raises `KeyError` (returns `None`) exactly when the person or one of their movies is missing. Otherwise returns exactly the pairs `(m, p)` with `m` among the person's movies and `p` among `m`'s stars. In a consistent graph that includes `(m, x)` for each movie `m` of `x`. |
| Database.CostarIsPerson | degrees.py:47-52 | In a consistent graph, everyone an edge reaches is a person of the database. |
| Walks.WalkExtend | degrees.py:126-127 | A chain to a person, extended by an edge leaving that person, is a chain to the edge's co-star. |
| Walks.StrangerReachesOnlySelf | degrees.py:170-176 | A source that is not in `people` reaches no one but itself: every non-empty chain leaves from a known person. |
| Walks.Closed | degrees.py:108-131 | If `explored` contains the source and holds every neighbour of its members, every chain from the source ends inside `explored`. |
| Walks.Covered | degrees.py:108-128 | Breadth-first coverage: queued persons are at distance at least `d` and every explored person other than the one being expanded has its neighbours explored or queued. Then every chain shorter than `d` ends at an explored person. |
| Walks.Discover | degrees.py:126-128 | A neighbour of the node being expanded that is neither explored nor queued has no chain shorter than that node's depth plus one. |
| SearchNode.Chain | degrees.py:114-118 | The actions of a node's parent chain, root first. Its length is the node's depth, and its last action is the node's own action. |
| SearchNode.ChainStable | degrees.py:127 | Adding nodes to the arena leaves the chain and depth of existing nodes unchanged. |
| SearchNode.ReversedSnoc | degrees.py:118 | Reversing a list with an element appended puts that element first. |
| SearchNode.ReconstructPath | degrees.py:134-143 | The parent-walk-then-reverse loop returns exactly `Chain`: the actions from root to node, as many as the node's depth, and `[]` for the root. `ShortestPath` uses it for the identical inline loop at degrees.py:114-118. |
| Frontier.StatesSnoc | degrees.py:128 | Adding a node adds its person to the frontier's persons. |
| Frontier.StatesCons | degrees.py:110 | The frontier's persons are the head's person plus those of the rest. |
| Frontier.QueueFrontier.constructor | degrees.py:101 | A new frontier is empty. |
| Frontier.QueueFrontier.Add | degrees.py:102 | Appends the node at the back. |
| Frontier.QueueFrontier.ContainsState | degrees.py:126 | True exactly when some queued node holds the person. |
| Frontier.QueueFrontier.Empty | degrees.py:108 | True exactly when no node is queued. |
| Frontier.QueueFrontier.Remove | degrees.py:110 | Takes out the node added earliest; the rest keep their order. |
| BfsInvariant.QueuedFar | degrees.py:108-128 | Every queued person is at least as far from the source as the depth of the queue's lowest layer. |
| BfsInvariant.ExpandHead | degrees.py:110-122 | Moving the head into the arena keeps it and every queued node discovered, with depths unchanged. |
| BfsInvariant.ChildDiscovered | degrees.py:126-128 | A new child's parent chain is a co-star chain to its person, and no chain to that person is shorter. |
| BfsInvariant.ChildChain | degrees.py:127 | A child's chain is its parent's chain followed by the child's action. |
| BfsInvariant.LayeredSnoc | degrees.py:128 | Appending a node one layer deeper keeps the queue ordered by depth within two adjacent layers. |
| BfsInvariant.DistinctSnoc | degrees.py:126-128 | Appending a person neither explored nor queued keeps the queue free of repeats and disjoint from `explored`. |
| BfsInvariant.StartInvariant | degrees.py:100-105 | After the frontier is set up with the root and `explored` is empty, the loop invariant holds. |
| BfsInvariant.BeginExpansion | degrees.py:110-122 | Removing a head that is not the target and marking it explored establishes the invariant of the neighbour loop. |
| BfsInvariant.BeginPending | degrees.py:110-122 | The expanded node is discovered and explored, the source is explored, and the target is not. |
| BfsInvariant.BeginFrontier | degrees.py:110-122 | The remaining queue stays layered from the expanded node's depth, repeats no one, and avoids the newly explored person. |
| BfsInvariant.BeginCover | degrees.py:110-122 | Explored and queued persons together are unchanged, and every explored person except the one being expanded has its neighbours among them. |
| BfsInvariant.QueueStep | degrees.py:126-128 | Queueing a neighbour that is neither queued nor explored preserves the neighbour-loop invariant. |
| BfsInvariant.QueueChild | degrees.py:126-128 | The queued child keeps the queue layered and free of repeats. |
| BfsInvariant.QueueCover | degrees.py:128 | The handled neighbour is now explored or queued, still within the known persons. |
| BfsInvariant.SnocFrame | degrees.py:128 | The frontier is its old contents followed only by persons never explored or queued before. |
| BfsInvariant.QueueChildren | degrees.py:127-128 | The node appended is a child of the node being expanded, for the neighbour just handled, so every node appended in this loop is such a child. |
| BfsInvariant.SkipStep | degrees.py:126 | Passing over a neighbour already queued or explored preserves the neighbour-loop invariant and appends nothing. |
| BfsInvariant.EndExpansion | degrees.py:124-128 | After all neighbours are handled, the outer invariant holds again. Also, the persons never queued strictly shrink, or stay the same while the frontier got shorter. This is the termination measure. |
| BfsInvariant.EndLayered | degrees.py:108-110 | The queue is layered from its own head's depth. |
| BfsInvariant.EndSettled | degrees.py:124-128 | Every explored person has all its neighbours explored or queued. |
| BfsInvariant.EndMeasure | degrees.py:126-128 | Some person was queued for the first time, or the frontier only lost its head. |
| BfsInvariant.HeadIsTarget | degrees.py:113-119 | When the head holds the target, its chain is a co-star chain to the target, no chain is shorter, and for `source == target` the head is the root. |
| BfsInvariant.HeadUnknown | degrees.py:125 | A `KeyError` from looking up the head's neighbours happens only for an unknown source that is not the target, and then the target is unreachable. |
| BfsInvariant.Exhausted | degrees.py:108-131 | An empty frontier means the target is unreachable from the source, and the source is a known person other than the target. |
| Search.AddNeighbors | degrees.py:124-128 | Handling all neighbours one at a time turns the neighbour-loop invariant with none handled into the same invariant with all handled. That invariant says every node appended is a child of the expanded node, created for one of its neighbours `(m, p)` with person `p`, and `p` was neither explored nor queued before. It also says every neighbour's person is now explored or queued. |
| Search.Expand | degrees.py:121-128 | `explored` gains exactly the expanded person. The frontier keeps its remaining nodes in order. Every node appended is a child of the expanded node (its arena index) through one of its neighbours `(m, p)`, with person `p` never explored or queued before. Every neighbour whose person was neither explored nor queued is now queued, and the search invariant (no person queued twice) makes that one node per such person. The explored-or-queued persons only grow, and the termination measure decreases. |
| Search.ShortestPath | degrees.py:92-131 | Raises `KeyError` exactly when the source is unknown and differs from the target. Returns a path exactly when the target is reachable. A returned path is a valid co-star chain from source to target, no longer than any other. `shortest_path(x, x)` returns `[]`. |
| Names.FirstLongest | degrees.py:163 | `max(candidates, key=len(birth))`: an index whose birth string is the longest, with every earlier candidate's strictly shorter (Python's `max` keeps the first maximum). |
| Names.ListingSize | degrees.py:151-152 | `list(set)` without repeats has as many elements as the set, so `len(person_ids)` counts the candidates. |
| Names.PersonIdForName | degrees.py:146-167 | `None` exactly when no id is registered under the name. The unique id when there is one. Otherwise a registered id whose birth string is as long as any candidate's. |
| Names.LongestIsChosen | degrees.py:162-163 | A candidate with a strictly longest birth string is chosen whatever the listing order. |

## Left out

- `load_data` (degrees.py:16-52) reads CSV files. The graph is an input instead, and `ShortestPath` requires `GraphConsistent`. degrees.py:49 can add a dangling movie id before degrees.py:50 raises the `KeyError` that is then swallowed, so a loaded graph can violate it. `NeighborsForPerson` still models that `KeyError` on its own.
- `main` (degrees.py:55-89) and all of `app.py` are argument parsing, console and web I/O, timing and charts; they are not modelled.
- The `print` calls inside `person_id_for_name` (degrees.py:155-164) are left out; only the returned id is modelled.
- Lower-casing of names (degrees.py:29-30, degrees.py:151) is left out: `PersonIdForName` takes the already lower-cased key.
- `util.py` is not part of this model. `QueueFrontier` is modelled from its uses at degrees.py:101-110 and degrees.py:126-128. `StackFrontier` is imported but never used, so it is not modelled.
- Frontier.QueueFrontier.Remove: requires a non-empty frontier instead of modelling the exception `util.py` raises, because its only caller checks `empty()` first.
- Set iteration order is not modelled:
  - the loops over sets in `neighbors_for_person` and `shortest_path` pick an arbitrary remaining element;
  - the order of `list(set)` in `person_id_for_name` is the parameter `ids`.
- Python object references between nodes become indices into an arena of expanded nodes. Node identity is not modelled.
- Names.PersonIdForName: requires `NamesConsistent` (every registered id is a person), which `load_data` establishes. It does not model a `KeyError` at degrees.py:158.
