/** The first-in-first-out frontier of the search: the nodes discovered but
    not yet examined, in the order they were added (used at degrees.py:101-110
    and degrees.py:126-128). */
module Frontier {
  import opened Database
  import opened SearchNode

  /** The persons held by a sequence of nodes. */
  function States(nodes: seq<Node>): set<PersonId> {
    set i | 0 <= i < |nodes| :: nodes[i].state
  }

  lemma StatesSnoc(nodes: seq<Node>, n: Node)
    ensures States(nodes + [n]) == States(nodes) + {n.state}
  {
    var ext := nodes + [n];
    forall y | y in States(ext) ensures y in States(nodes) + {n.state} {
      var i :| 0 <= i < |ext| && ext[i].state == y;
      if i < |nodes| { assert nodes[i].state == y; }
    }
    forall y | y in States(nodes) ensures y in States(ext) {
      var i :| 0 <= i < |nodes| && nodes[i].state == y;
      assert ext[i].state == y;
    }
    assert ext[|nodes|].state == n.state;
  }

  lemma StatesCons(nodes: seq<Node>)
    requires nodes != []
    ensures States(nodes) == {nodes[0].state} + States(nodes[1..])
  {
    var tail := nodes[1..];
    forall y | y in States(nodes) ensures y in {nodes[0].state} + States(tail) {
      var i :| 0 <= i < |nodes| && nodes[i].state == y;
      if i > 0 { assert tail[i - 1].state == y; }
    }
    forall y | y in States(tail) ensures y in States(nodes) {
      var i :| 0 <= i < |tail| && tail[i].state == y;
      assert nodes[i + 1].state == y;
    }
  }

  class QueueFrontier {
    var frontier: seq<Node>

    constructor ()
      ensures frontier == []
    {
      frontier := [];
    }

    method Add(node: Node)
      modifies this
      ensures frontier == old(frontier) + [node]
    {
      frontier := frontier + [node];
    }

    /** Whether some node waiting in the frontier holds `state`. */
    method ContainsState(state: PersonId) returns (found: bool)
      ensures found <==> state in States(frontier)
    {
      found := false;
      var i := 0;
      while i < |frontier| && !found
        invariant 0 <= i <= |frontier|
        invariant found <==> exists j :: 0 <= j < i && frontier[j].state == state
      {
        found := frontier[i].state == state;
        i := i + 1;
      }
      if found {
        var j :| 0 <= j < i && frontier[j].state == state;
        assert frontier[j].state in States(frontier);
      }
    }

    method Empty() returns (empty: bool)
      ensures empty <==> frontier == []
    {
      empty := |frontier| == 0;
    }

    /** Takes out the node added earliest. */
    method Remove() returns (node: Node)
      requires frontier != []
      modifies this
      ensures node == old(frontier)[0]
      ensures frontier == old(frontier)[1..]
    {
      node := frontier[0];
      frontier := frontier[1..];
    }
  }
}
