/** Breadth-first "degrees of separation" search (degrees.py:92-131). */
module Search {
  import opened Database
  import opened Walks
  import opened SearchNode
  import opened Frontier
  import opened BfsInvariant

  /** What `shortest_path` does: return a list of (movie, person) pairs, return
      None, or raise a KeyError while looking up neighbours. */
  datatype Outcome = Found(path: seq<Action>) | NotConnected | KeyError

  /** The loop of degrees.py:124-128: every neighbour of the person just
      explored that is neither queued nor explored joins the end of the
      frontier as a child of the last arena node. */
  method AddNeighbors(db: Db, ghost source: PersonId, ghost target: PersonId, frontier: QueueFrontier,
                      arena: seq<Node>, explored: set<PersonId>, neighbors: set<Action>,
                      ghost base: seq<Node>, ghost reached: set<PersonId>, ghost universe: set<PersonId>)
    requires ExpansionInvariant(db, source, target, arena, base, frontier.frontier, explored, reached, universe, {})
    requires forall a :: a in neighbors ==> Costars(db, arena[|arena| - 1].state, a) && a.1 in db.people
    modifies frontier
    ensures ExpansionInvariant(db, source, target, arena, base, frontier.frontier, explored, reached, universe,
                               neighbors)
  {
    var rest := neighbors;
    ghost var done: set<Action> := {};
    while rest != {}
      invariant done + rest == neighbors
      invariant ExpansionInvariant(db, source, target, arena, base, frontier.frontier, explored,
                                   reached, universe, done)
      decreases rest
    {
      var a :| a in rest;
      rest := rest - {a};
      var queued := frontier.ContainsState(a.1);
      if !queued && a.1 !in explored {
        var child := Node(a.1, Some(|arena| - 1), Some(a));
        QueueStep(db, source, target, arena, base, frontier.frontier, explored, reached, universe, done, a);
        frontier.Add(child);
      } else {
        SkipStep(db, source, target, arena, base, frontier.frontier, explored, reached, universe, done, a);
      }
      done := done + {a};
    }
    assert done == neighbors;
  }

  /** degrees.py:121-128: marks the person of `node`, just taken from the head
      of the frontier, as explored and queues its unseen neighbours. The
      frontier keeps its old nodes in order and gains only children of `node`
      through one of its neighbours, for persons never explored or queued
      before; every such neighbour's person is then queued. The search invariant is restored, and the
      persons never queued shrink, or stay the same while the frontier gets
      shorter. */
  method Expand(db: Db, ghost source: PersonId, ghost target: PersonId, frontier: QueueFrontier,
                arena: seq<Node>, explored: set<PersonId>, node: Node, neighbors: set<Action>,
                ghost queue: seq<Node>, ghost universe: set<PersonId>)
    returns (explored': set<PersonId>, arena': seq<Node>)
    requires GraphConsistent(db)
    requires SearchInvariant(db, source, target, arena, queue, explored, universe)
    requires queue != [] && node == queue[0] && frontier.frontier == queue[1..]
    requires node.state != target && node.state in db.people
    requires forall a :: a in neighbors <==> Costars(db, node.state, a)
    modifies frontier
    ensures explored' == explored + {node.state} && arena' == arena + [node]
    ensures |queue| - 1 <= |frontier.frontier| && frontier.frontier[..|queue| - 1] == queue[1..]
    ensures forall i :: |queue| - 1 <= i < |frontier.frontier| ==>
              frontier.frontier[i].state !in explored + States(queue)
    ensures forall i :: |queue| - 1 <= i < |frontier.frontier| ==> ChildOf(frontier.frontier[i], |arena|, neighbors)
    ensures forall a :: a in neighbors && a.1 !in explored + States(queue) ==> a.1 in States(frontier.frontier)
    ensures explored + States(queue) <= explored' + States(frontier.frontier)
    ensures SearchInvariant(db, source, target, arena', frontier.frontier, explored', universe)
    ensures universe - (explored' + States(frontier.frontier)) < universe - (explored + States(queue))
            || (explored' + States(frontier.frontier) == explored + States(queue) && |frontier.frontier| < |queue|)
  {
    BeginExpansion(db, source, target, arena, queue, explored, universe);
    explored' := explored + {node.state};
    arena' := arena + [node];
    ghost var base := frontier.frontier;
    ghost var reached := explored + States(queue);
    StatesCons(queue);
    forall a | a in neighbors ensures a.1 in db.people {
      CostarIsPerson(db, node.state, a);
    }
    AddNeighbors(db, source, target, frontier, arena', explored', neighbors, base, reached, universe);
    forall a | a in neighbors && a.1 !in explored + States(queue) ensures a.1 in States(frontier.frontier) {
      assert a.1 in explored' + States(frontier.frontier);
    }
    EndExpansion(db, source, target, arena', base, frontier.frontier, explored', reached, universe, neighbors);
  }

  /** The search of degrees.py:92-131: breadth-first from `source` over a
      first-in-first-out frontier, each person queued at most once. */
  method ShortestPath(db: Db, source: PersonId, target: PersonId) returns (r: Outcome)
    requires GraphConsistent(db)
    ensures r.KeyError? <==> source !in db.people && source != target
    ensures r.Found? <==> Reachable(db, source, target)
    ensures r.Found? ==> IsChain(db, source, target, r.path)
    ensures r.Found? ==> forall q :: IsChain(db, source, target, q) ==> |r.path| <= |q|
    ensures source == target ==> r == Found([])
  {
    var start := Node(source, None, None);
    var frontier := new QueueFrontier();
    frontier.Add(start);
    var explored: set<PersonId> := {};
    var arena: seq<Node> := [];
    ghost var universe := db.people.Keys + {source};
    StartInvariant(db, source, target, universe);

    var empty := frontier.Empty();
    while !empty
      invariant empty <==> frontier.frontier == []
      invariant SearchInvariant(db, source, target, arena, frontier.frontier, explored, universe)
      decreases universe - (explored + States(frontier.frontier)), |frontier.frontier|
    {
      ghost var queue := frontier.frontier;
      var node := frontier.Remove();
      if node.state == target {
        var path := ReconstructPath(arena, node);
        HeadIsTarget(db, source, target, arena, queue, explored, universe);
        return Found(path);
      }
      var neighbors := NeighborsForPerson(db, node.state);
      if neighbors.None? {
        HeadUnknown(db, source, target, arena, queue, explored, universe);
        return KeyError;
      }
      explored, arena := Expand(db, source, target, frontier, arena, explored, node, neighbors.value, queue, universe);
      empty := frontier.Empty();
    }
    Exhausted(db, source, target, arena, explored, universe);
    return NotConnected;
  }
}
