/** The invariants of breadth-first search over the co-star graph and the
    lemmas that carry them across one step of degrees.py:108-128. */
module BfsInvariant {
  import opened Database
  import opened Walks
  import opened SearchNode
  import opened Frontier

  /** A node as breadth-first search discovers it: its parent chain is a
      co-star chain from `source` to its person, and no chain is shorter. */
  ghost predicate Discovered(db: Db, source: PersonId, arena: seq<Node>, n: Node) {
    && ArenaOk(arena) && LinksBelow(n, |arena|)
    && IsChain(db, source, n.state, Chain(arena, n))
    && NoShorterChain(db, source, n.state, Depth(arena, n))
  }

  /** The queue holds discovered nodes of depth `lo` or `lo + 1`, shallower first. */
  ghost predicate Layered(db: Db, source: PersonId, arena: seq<Node>, queue: seq<Node>, lo: nat) {
    && (forall i :: 0 <= i < |queue| ==>
          Discovered(db, source, arena, queue[i]) && lo <= Depth(arena, queue[i]) <= lo + 1)
    && (forall i, j :: 0 <= i < j < |queue| ==> Depth(arena, queue[i]) <= Depth(arena, queue[j]))
  }

  /** The queue as the outer loop sees it: layered from the depth of its head. */
  ghost predicate LayeredFromHead(db: Db, source: PersonId, arena: seq<Node>, queue: seq<Node>) {
    queue == [] ||
    (Discovered(db, source, arena, queue[0]) && Layered(db, source, arena, queue, Depth(arena, queue[0])))
  }

  /** No person is queued twice, and no queued person is explored. */
  ghost predicate Distinct(queue: seq<Node>, explored: set<PersonId>) {
    && (forall i, j :: 0 <= i < j < |queue| ==> queue[i].state != queue[j].state)
    && (forall i :: 0 <= i < |queue| ==> queue[i].state !in explored)
  }

  /** Every queued person is at least `d` edges away from `source`. */
  lemma QueuedFar(db: Db, source: PersonId, arena: seq<Node>, queue: seq<Node>, d: nat)
    requires Layered(db, source, arena, queue, d)
    ensures forall y :: y in States(queue) ==> NoShorterChain(db, source, y, d)
  {
    forall y | y in States(queue) ensures NoShorterChain(db, source, y, d) {
      var i :| 0 <= i < |queue| && queue[i].state == y;
      assert Discovered(db, source, arena, queue[i]);
    }
  }

  /** Expanding the head: it moves to the end of the arena, and the rest of the
      queue keeps its chains and depths. */
  lemma ExpandHead(db: Db, source: PersonId, arena: seq<Node>, queue: seq<Node>)
    requires queue != [] && LayeredFromHead(db, source, arena, queue)
    ensures ArenaOk(arena + [queue[0]])
    ensures Discovered(db, source, arena + [queue[0]], queue[0])
    ensures Depth(arena + [queue[0]], queue[0]) == Depth(arena, queue[0])
    ensures Layered(db, source, arena + [queue[0]], queue[1..], Depth(arena, queue[0]))
  {
    var node := queue[0];
    var grown := arena + [node];
    var d := Depth(arena, node);
    assert ArenaOk(grown) by {
      forall i | 0 <= i < |grown| ensures LinksBelow(grown[i], i) {
        if i < |arena| { assert grown[i] == arena[i]; }
      }
    }
    forall i | 0 <= i < |queue|
      ensures Discovered(db, source, grown, queue[i]) && Depth(grown, queue[i]) == Depth(arena, queue[i])
    {
      assert Discovered(db, source, arena, queue[i]);
      ChainStable(arena, [node], queue[i]);
    }
    var rest := queue[1..];
    forall i | 0 <= i < |rest|
      ensures Discovered(db, source, grown, rest[i]) && d <= Depth(grown, rest[i]) <= d + 1
    {
      assert rest[i] == queue[i + 1];
    }
    forall i, j | 0 <= i < j < |rest| ensures Depth(grown, rest[i]) <= Depth(grown, rest[j]) {
      assert rest[i] == queue[i + 1] && rest[j] == queue[j + 1];
    }
  }

  /** An unseen neighbour of the node just expanded (the last of the arena) is
      discovered one level deeper than that node. */
  lemma ChildDiscovered(db: Db, source: PersonId, arena: seq<Node>, queued: set<PersonId>,
                        explored: set<PersonId>, a: Action)
    requires arena != [] && Discovered(db, source, arena, arena[|arena| - 1])
    requires forall y :: y in queued ==> NoShorterChain(db, source, y, Depth(arena, arena[|arena| - 1]))
    requires Costars(db, arena[|arena| - 1].state, a)
    requires source in explored + queued
    requires forall z, b :: z in explored && z != arena[|arena| - 1].state && Costars(db, z, b) ==>
               b.1 in explored + queued
    requires a.1 !in explored + queued
    ensures Discovered(db, source, arena, Node(a.1, Some(|arena| - 1), Some(a)))
    ensures Depth(arena, Node(a.1, Some(|arena| - 1), Some(a))) == Depth(arena, arena[|arena| - 1]) + 1
  {
    var node := arena[|arena| - 1];
    var child := Node(a.1, Some(|arena| - 1), Some(a));
    ChildChain(arena, a);
    var chain := Chain(arena, node);
    assert IsWalk(db, source, chain) && Last(source, chain) == node.state;
    WalkExtend(db, source, chain, a);
    Discover(db, source, explored, queued, node.state, Depth(arena, node), a.1);
  }

  /** The chain of a child of the last arena node extends that node's chain by
      the child's action. */
  lemma ChildChain(arena: seq<Node>, a: Action)
    requires arena != [] && ArenaOk(arena)
    ensures LinksBelow(Node(a.1, Some(|arena| - 1), Some(a)), |arena|)
    ensures Chain(arena, Node(a.1, Some(|arena| - 1), Some(a))) == Chain(arena, arena[|arena| - 1]) + [a]
    ensures Depth(arena, Node(a.1, Some(|arena| - 1), Some(a))) == Depth(arena, arena[|arena| - 1]) + 1
  {
  }

  /** A discovered node one level below the queue's lowest may join its end. */
  lemma LayeredSnoc(db: Db, source: PersonId, arena: seq<Node>, queue: seq<Node>, d: nat, child: Node)
    requires Layered(db, source, arena, queue, d)
    requires Discovered(db, source, arena, child) && Depth(arena, child) == d + 1
    ensures Layered(db, source, arena, queue + [child], d)
  {
    var ext := queue + [child];
    forall i | 0 <= i < |ext| ensures Discovered(db, source, arena, ext[i]) && d <= Depth(arena, ext[i]) <= d + 1 {
      if i < |queue| { assert ext[i] == queue[i]; }
    }
    forall i, j | 0 <= i < j < |ext| ensures Depth(arena, ext[i]) <= Depth(arena, ext[j]) {
      assert ext[i] == queue[i];
      if j < |queue| { assert ext[j] == queue[j]; }
    }
  }

  lemma DistinctSnoc(queue: seq<Node>, explored: set<PersonId>, n: Node)
    requires Distinct(queue, explored) && n.state !in explored + States(queue)
    ensures Distinct(queue + [n], explored)
  {
    var ext := queue + [n];
    forall i, j | 0 <= i < j < |ext| ensures ext[i].state != ext[j].state {
      assert ext[i] == queue[i];
      if j == |queue| {
        assert queue[i].state in States(queue);
      } else {
        assert ext[j] == queue[j];
      }
    }
  }

  /** Every explored person outside `pending` has all its neighbours in `reached`. */
  ghost predicate Settled(db: Db, explored: set<PersonId>, pending: set<PersonId>, reached: set<PersonId>) {
    forall y, a :: y in explored && y !in pending && Costars(db, y, a) ==> a.1 in reached
  }

  /** Every queued person is a person of the database. */
  ghost predicate AllKnown(db: Db, queue: seq<Node>) {
    forall i :: 0 <= i < |queue| ==> queue[i].state in db.people
  }

  /** The invariant of the `while not frontier.empty()` loop (degrees.py:108-128). */
  ghost predicate SearchInvariant(db: Db, source: PersonId, target: PersonId, arena: seq<Node>,
                                  queue: seq<Node>, explored: set<PersonId>, universe: set<PersonId>) {
    && ArenaOk(arena)
    && LayeredFromHead(db, source, arena, queue)
    && Distinct(queue, explored)
    && source in explored + States(queue)
    && Settled(db, explored, {}, explored + States(queue))
    && target !in explored
    && explored + States(queue) <= universe == db.people.Keys + {source}
    && (arena == [] ==> queue == [Node(source, None, None)] && explored == {})
    && (arena != [] ==> source in db.people && source in explored && AllKnown(db, queue))
  }

  /** The node just expanded, the last of the arena, is discovered and explored;
      the source is an explored person and the target is not explored. */
  ghost predicate PendingOk(db: Db, source: PersonId, target: PersonId, arena: seq<Node>,
                            explored: set<PersonId>) {
    && arena != [] && Discovered(db, source, arena, arena[|arena| - 1])
    && arena[|arena| - 1].state in explored
    && target !in explored
    && source in db.people && source in explored
  }

  /** `queue` is `base` followed by persons of the database not in `reached`. */
  ghost predicate GrowthOk(db: Db, base: seq<Node>, queue: seq<Node>, reached: set<PersonId>) {
    && |base| <= |queue| && queue[..|base|] == base
    && (forall i :: |base| <= i < |queue| ==> queue[i].state !in reached)
    && AllKnown(db, queue)
  }

  /** `n` was created for the action `a` in `done` leading to its person, as a
      child of the arena node at index `parent`. */
  predicate ChildOf(n: Node, parent: nat, done: set<Action>) {
    n.parent == Some(parent) && n.action.Some? && n.action.value in done && n.state == n.action.value.1
  }

  /** Every node queued after `base` is a child of the last arena node, through
      a neighbour handled so far. */
  ghost predicate NewChildren(arena: seq<Node>, base: seq<Node>, queue: seq<Node>, done: set<Action>) {
    arena != [] && forall i :: |base| <= i < |queue| ==> ChildOf(queue[i], |arena| - 1, done)
  }

  /** The queue is layered from depth `d` of the pending node and repeats no one. */
  ghost predicate FrontierOk(db: Db, source: PersonId, arena: seq<Node>, queue: seq<Node>,
                             explored: set<PersonId>) {
    && arena != [] && ArenaOk(arena)
    && Layered(db, source, arena, queue, Depth(arena, arena[|arena| - 1]))
    && Distinct(queue, explored)
  }

  /** Explored or queued persons grow from `reached` within `universe`, hold the
      source, include every neighbour of an explored person other than `pending`
      and every neighbour handled so far in `done`. */
  ghost predicate CoverOk(db: Db, source: PersonId, queue: seq<Node>, explored: set<PersonId>,
                          reached: set<PersonId>, universe: set<PersonId>, pending: PersonId,
                          done: set<Action>) {
    && reached <= explored + States(queue) <= universe == db.people.Keys + {source}
    && source in explored + States(queue)
    && Settled(db, explored, {pending}, explored + States(queue))
    && (forall a :: a in done ==> a.1 in explored + States(queue))
  }

  /** The invariant of the loop over the neighbours of the person of the last
      arena node (degrees.py:125-128): `base` is the queue as it was before the
      loop, `reached` the persons explored or queued before that node was taken
      out, and `done` the neighbours handled so far. The nodes queued after
      `base` are children of that node through neighbours in `done`. */
  ghost predicate ExpansionInvariant(db: Db, source: PersonId, target: PersonId, arena: seq<Node>,
                                     base: seq<Node>, queue: seq<Node>, explored: set<PersonId>,
                                     reached: set<PersonId>, universe: set<PersonId>, done: set<Action>) {
    && PendingOk(db, source, target, arena, explored)
    && GrowthOk(db, base, queue, reached)
    && NewChildren(arena, base, queue, done)
    && FrontierOk(db, source, arena, queue, explored)
    && CoverOk(db, source, queue, explored, reached, universe, arena[|arena| - 1].state, done)
  }

  /** Taking out the head, which is not the target, and exploring it starts the
      loop over its neighbours. */
  lemma BeginExpansion(db: Db, source: PersonId, target: PersonId, arena: seq<Node>,
                       queue: seq<Node>, explored: set<PersonId>, universe: set<PersonId>)
    requires SearchInvariant(db, source, target, arena, queue, explored, universe)
    requires queue != [] && queue[0].state != target && queue[0].state in db.people
    ensures ExpansionInvariant(db, source, target, arena + [queue[0]], queue[1..], queue[1..],
                               explored + {queue[0].state}, explored + States(queue), universe, {})
  {
    var grown := arena + [queue[0]];
    var explored' := explored + {queue[0].state};
    BeginPending(db, source, target, arena, queue, explored, universe);
    BeginFrontier(db, source, target, arena, queue, explored, universe);
    BeginCover(db, source, target, arena, queue, explored, universe);
    assert GrowthOk(db, queue[1..], queue[1..], explored + States(queue)) by {
      if arena != [] {
        assert AllKnown(db, queue);
      }
    }
  }

  lemma BeginPending(db: Db, source: PersonId, target: PersonId, arena: seq<Node>,
                     queue: seq<Node>, explored: set<PersonId>, universe: set<PersonId>)
    requires SearchInvariant(db, source, target, arena, queue, explored, universe)
    requires queue != [] && queue[0].state != target && queue[0].state in db.people
    ensures PendingOk(db, source, target, arena + [queue[0]], explored + {queue[0].state})
  {
    ExpandHead(db, source, arena, queue);
    var grown := arena + [queue[0]];
    assert grown[|grown| - 1] == queue[0];
    if arena == [] {
      assert queue[0].state == source;
    }
  }

  lemma BeginFrontier(db: Db, source: PersonId, target: PersonId, arena: seq<Node>,
                      queue: seq<Node>, explored: set<PersonId>, universe: set<PersonId>)
    requires SearchInvariant(db, source, target, arena, queue, explored, universe)
    requires queue != []
    ensures FrontierOk(db, source, arena + [queue[0]], queue[1..], explored + {queue[0].state})
  {
    ExpandHead(db, source, arena, queue);
    var grown := arena + [queue[0]];
    assert grown[|grown| - 1] == queue[0];
    var rest := queue[1..];
    forall i, j | 0 <= i < j < |rest| ensures rest[i].state != rest[j].state {
      assert rest[i] == queue[i + 1] && rest[j] == queue[j + 1];
    }
    forall i | 0 <= i < |rest| ensures rest[i].state !in explored + {queue[0].state} {
      assert rest[i] == queue[i + 1];
    }
  }

  lemma BeginCover(db: Db, source: PersonId, target: PersonId, arena: seq<Node>,
                   queue: seq<Node>, explored: set<PersonId>, universe: set<PersonId>)
    requires SearchInvariant(db, source, target, arena, queue, explored, universe)
    requires queue != []
    ensures CoverOk(db, source, queue[1..], explored + {queue[0].state}, explored + States(queue),
                    universe, queue[0].state, {})
  {
    StatesCons(queue);
  }

  /** Queueing a neighbour that is neither queued nor explored. */
  lemma QueueStep(db: Db, source: PersonId, target: PersonId, arena: seq<Node>,
                  base: seq<Node>, queue: seq<Node>, explored: set<PersonId>,
                  reached: set<PersonId>, universe: set<PersonId>, done: set<Action>, a: Action)
    requires ExpansionInvariant(db, source, target, arena, base, queue, explored, reached, universe, done)
    requires Costars(db, arena[|arena| - 1].state, a) && a.1 in db.people
    requires a.1 !in explored + States(queue)
    ensures ExpansionInvariant(db, source, target, arena, base,
                               queue + [Node(a.1, Some(|arena| - 1), Some(a))],
                               explored, reached, universe, done + {a})
  {
    var child := Node(a.1, Some(|arena| - 1), Some(a));
    QueueChild(db, source, target, arena, queue, explored, reached, universe, done, a);
    QueueCover(db, source, queue, explored, reached, universe, arena[|arena| - 1].state, done, child, a);
    SnocFrame(db, base, queue, reached, child);
    QueueChildren(arena, base, queue, done, a);
  }

  /** The node appended is a child of the last arena node through `a`. */
  lemma QueueChildren(arena: seq<Node>, base: seq<Node>, queue: seq<Node>, done: set<Action>, a: Action)
    requires NewChildren(arena, base, queue, done)
    ensures NewChildren(arena, base, queue + [Node(a.1, Some(|arena| - 1), Some(a))], done + {a})
  {
    var ext := queue + [Node(a.1, Some(|arena| - 1), Some(a))];
    forall i | |base| <= i < |ext| ensures ChildOf(ext[i], |arena| - 1, done + {a}) {
      if i < |queue| {
        assert ext[i] == queue[i];
        assert ChildOf(queue[i], |arena| - 1, done);
      }
    }
  }

  /** The unseen neighbour joins the queue one level deeper than the node
      being expanded, keeping the queue layered and free of repeats. */
  lemma QueueChild(db: Db, source: PersonId, target: PersonId, arena: seq<Node>, queue: seq<Node>,
                   explored: set<PersonId>, reached: set<PersonId>, universe: set<PersonId>,
                   done: set<Action>, a: Action)
    requires PendingOk(db, source, target, arena, explored)
    requires FrontierOk(db, source, arena, queue, explored)
    requires CoverOk(db, source, queue, explored, reached, universe, arena[|arena| - 1].state, done)
    requires Costars(db, arena[|arena| - 1].state, a)
    requires a.1 !in explored + States(queue)
    ensures FrontierOk(db, source, arena, queue + [Node(a.1, Some(|arena| - 1), Some(a))], explored)
  {
    var node := arena[|arena| - 1];
    var d := Depth(arena, node);
    var child := Node(a.1, Some(|arena| - 1), Some(a));
    QueuedFar(db, source, arena, queue, d);
    ChildDiscovered(db, source, arena, States(queue), explored, a);
    LayeredSnoc(db, source, arena, queue, d, child);
    DistinctSnoc(queue, explored, child);
  }

  /** Queueing a person of the database keeps the reached persons covered. */
  lemma QueueCover(db: Db, source: PersonId, queue: seq<Node>, explored: set<PersonId>,
                   reached: set<PersonId>, universe: set<PersonId>, pending: PersonId,
                   done: set<Action>, child: Node, a: Action)
    requires CoverOk(db, source, queue, explored, reached, universe, pending, done)
    requires child.state == a.1 && a.1 in db.people
    ensures CoverOk(db, source, queue + [child], explored, reached, universe, pending, done + {a})
  {
    StatesSnoc(queue, child);
  }

  /** Appending a node of the database that was not reached before keeps the
      queue an extension of `base` by newly reached persons of the database. */
  lemma SnocFrame(db: Db, base: seq<Node>, queue: seq<Node>, reached: set<PersonId>, n: Node)
    requires GrowthOk(db, base, queue, reached)
    requires n.state !in reached && n.state in db.people
    ensures GrowthOk(db, base, queue + [n], reached)
  {
    var ext := queue + [n];
    assert ext[..|queue|] == queue;
    assert ext[..|base|] == queue[..|base|];
    forall i | |base| <= i < |ext| ensures ext[i].state !in reached {
      if i < |queue| { assert ext[i] == queue[i]; }
    }
    forall i | 0 <= i < |ext| ensures ext[i].state in db.people {
      if i < |queue| { assert ext[i] == queue[i]; }
    }
  }

  /** Passing over a neighbour that is already queued or explored. */
  lemma SkipStep(db: Db, source: PersonId, target: PersonId, arena: seq<Node>,
                 base: seq<Node>, queue: seq<Node>, explored: set<PersonId>,
                 reached: set<PersonId>, universe: set<PersonId>, done: set<Action>, a: Action)
    requires ExpansionInvariant(db, source, target, arena, base, queue, explored, reached, universe, done)
    requires a.1 in explored + States(queue)
    ensures ExpansionInvariant(db, source, target, arena, base, queue, explored, reached, universe, done + {a})
  {
    forall i | |base| <= i < |queue| ensures ChildOf(queue[i], |arena| - 1, done + {a}) {
      assert ChildOf(queue[i], |arena| - 1, done);
    }
  }

  /** Once every neighbour is handled the outer invariant holds again, and the
      persons never yet queued shrink, or stay and the queue is shorter. */
  lemma EndExpansion(db: Db, source: PersonId, target: PersonId, arena: seq<Node>,
                     base: seq<Node>, queue: seq<Node>, explored: set<PersonId>,
                     reached: set<PersonId>, universe: set<PersonId>, done: set<Action>)
    requires ExpansionInvariant(db, source, target, arena, base, queue, explored, reached, universe, done)
    requires forall a :: Costars(db, arena[|arena| - 1].state, a) ==> a in done
    requires reached == explored + States(base)
    ensures SearchInvariant(db, source, target, arena, queue, explored, universe)
    ensures universe - (explored + States(queue)) < universe - reached
            || (explored + States(queue) == reached && |queue| == |base|)
  {
    EndLayered(db, source, arena, queue, explored);
    EndSettled(db, source, queue, explored, reached, universe, arena[|arena| - 1].state, done);
    EndMeasure(db, base, queue, explored, reached, universe);
  }

  /** The queue left behind is layered from the depth of its own head. */
  lemma EndLayered(db: Db, source: PersonId, arena: seq<Node>, queue: seq<Node>, explored: set<PersonId>)
    requires FrontierOk(db, source, arena, queue, explored)
    ensures LayeredFromHead(db, source, arena, queue)
  {
    if queue != [] {
      assert Discovered(db, source, arena, queue[0]);
      forall i | 0 <= i < |queue| ensures Depth(arena, queue[0]) <= Depth(arena, queue[i]) <= Depth(arena, queue[0]) + 1 {
        if i > 0 {
          assert Depth(arena, queue[0]) <= Depth(arena, queue[i]);
        }
      }
    }
  }

  /** With every neighbour of `pending` handled, no explored person is pending. */
  lemma EndSettled(db: Db, source: PersonId, queue: seq<Node>, explored: set<PersonId>,
                   reached: set<PersonId>, universe: set<PersonId>, pending: PersonId, done: set<Action>)
    requires CoverOk(db, source, queue, explored, reached, universe, pending, done)
    requires forall a :: Costars(db, pending, a) ==> a in done
    ensures Settled(db, explored, {}, explored + States(queue))
  {
    forall y, a | y in explored && Costars(db, y, a) ensures a.1 in explored + States(queue) {
      if y == pending {
        assert a in done;
      }
    }
  }

  /** Some person was queued for the first time, or the queue only lost its head. */
  lemma EndMeasure(db: Db, base: seq<Node>, queue: seq<Node>, explored: set<PersonId>,
                   reached: set<PersonId>, universe: set<PersonId>)
    requires GrowthOk(db, base, queue, reached)
    requires reached <= explored + States(queue) <= universe
    requires reached == explored + States(base)
    ensures universe - (explored + States(queue)) < universe - reached
            || (explored + States(queue) == reached && |queue| == |base|)
  {
    if |queue| > |base| {
      var y := queue[|base|].state;
      assert y in States(queue);
      assert y in universe - reached;
    } else {
      assert queue == base;
    }
  }

  lemma StartInvariant(db: Db, source: PersonId, target: PersonId, universe: set<PersonId>)
    requires universe == db.people.Keys + {source}
    ensures SearchInvariant(db, source, target, [], [Node(source, None, None)], {}, universe)
  {
    var start := Node(source, None, None);
    assert IsChain(db, source, source, []);
    assert Discovered(db, source, [], start);
    StatesSnoc([], start);
    assert States([start]) == {source};
  }

  /** The head holds the target: its chain is a shortest chain to the target. */
  lemma HeadIsTarget(db: Db, source: PersonId, target: PersonId, arena: seq<Node>,
                     queue: seq<Node>, explored: set<PersonId>, universe: set<PersonId>)
    requires SearchInvariant(db, source, target, arena, queue, explored, universe)
    requires queue != [] && queue[0].state == target
    ensures LinksBelow(queue[0], |arena|)
    ensures IsChain(db, source, target, Chain(arena, queue[0]))
    ensures NoShorterChain(db, source, target, |Chain(arena, queue[0])|)
    ensures Reachable(db, source, target)
    ensures source in db.people || source == target
    ensures source == target ==> queue[0].parent.None?
  {
    assert Discovered(db, source, arena, queue[0]);
  }

  /** Looking up the head's movies raised a KeyError: the head is the root, and
      the source is not a person of the database. */
  lemma HeadUnknown(db: Db, source: PersonId, target: PersonId, arena: seq<Node>,
                    queue: seq<Node>, explored: set<PersonId>, universe: set<PersonId>)
    requires GraphConsistent(db)
    requires SearchInvariant(db, source, target, arena, queue, explored, universe)
    requires queue != [] && queue[0].state != target && !Resolvable(db, queue[0].state)
    ensures source !in db.people && source != target
    ensures !Reachable(db, source, target)
  {
    assert queue[0].state !in db.people;
    StrangerReachesOnlySelf(db, source, target);
  }

  /** The frontier ran empty: the target is not reachable. */
  lemma Exhausted(db: Db, source: PersonId, target: PersonId, arena: seq<Node>,
                  explored: set<PersonId>, universe: set<PersonId>)
    requires SearchInvariant(db, source, target, arena, [], explored, universe)
    ensures source in db.people && source != target
    ensures !Reachable(db, source, target)
  {
    assert States([]) == {};
    forall q | IsWalk(db, source, q) ensures Last(source, q) in explored {
      Closed(db, source, explored, q);
    }
  }
}
