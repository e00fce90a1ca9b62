/** Search nodes and path reconstruction (degrees.py:100, 127, 134-143).
    Nodes live in an arena, a sequence of the nodes expanded so far, and a
    node's parent is an index into it, so every parent chain is finite. */
module SearchNode {
  import opened Database

  /** The root has neither a parent nor an action; every other node has both. */
  datatype Node = Node(state: PersonId, parent: Option<nat>, action: Option<Action>)

  /** `n` is either the root or a child whose parent index is below `bound`. */
  predicate LinksBelow(n: Node, bound: nat) {
    && (n.parent.Some? <==> n.action.Some?)
    && (n.parent.Some? ==> n.parent.value < bound)
  }

  /** Every node of the arena points only to earlier nodes. */
  predicate ArenaOk(arena: seq<Node>) {
    forall i :: 0 <= i < |arena| ==> LinksBelow(arena[i], i)
  }

  /** The number of parent links from `n` up to the root. */
  function Depth(arena: seq<Node>, n: Node): nat
    requires ArenaOk(arena) && LinksBelow(n, |arena|)
    decreases if n.parent.Some? then n.parent.value + 1 else 0
  {
    if n.parent.None? then 0 else 1 + Depth(arena, arena[n.parent.value])
  }

  /** The actions along the parent chain of `n`, root first. */
  function Chain(arena: seq<Node>, n: Node): (path: seq<Action>)
    requires ArenaOk(arena) && LinksBelow(n, |arena|)
    ensures |path| == Depth(arena, n)
    ensures n.parent.Some? ==> path[|path| - 1] == n.action.value
    decreases if n.parent.Some? then n.parent.value + 1 else 0
  {
    if n.parent.None? then [] else Chain(arena, arena[n.parent.value]) + [n.action.value]
  }

  /** Appending nodes to the arena does not change the chain of a node that
      points into its old part. */
  lemma {:induction false} ChainStable(arena: seq<Node>, more: seq<Node>, n: Node)
    requires ArenaOk(arena) && ArenaOk(arena + more) && LinksBelow(n, |arena|)
    ensures Chain(arena + more, n) == Chain(arena, n)
    ensures Depth(arena + more, n) == Depth(arena, n)
    decreases if n.parent.Some? then n.parent.value + 1 else 0
  {
    if n.parent.Some? {
      var i := n.parent.value;
      assert (arena + more)[i] == arena[i];
      ChainStable(arena, more, arena[i]);
    }
  }

  /** The list reversal `path.reverse()`. */
  function Reversed(s: seq<Action>): (r: seq<Action>)
    ensures |r| == |s|
  {
    if s == [] then [] else Reversed(s[1..]) + [s[0]]
  }

  lemma {:induction false} ReversedSnoc(s: seq<Action>, x: Action)
    ensures Reversed(s + [x]) == [x] + Reversed(s)
    decreases |s|
  {
    if s != [] {
      assert (s + [x])[1..] == s[1..] + [x];
      ReversedSnoc(s[1..], x);
    }
  }

  /** Walks the parent links from `node`, collecting actions, then reverses
      them: the actions of the chain in root-to-node order. */
  method ReconstructPath(arena: seq<Node>, node: Node) returns (path: seq<Action>)
    requires ArenaOk(arena) && LinksBelow(node, |arena|)
    ensures path == Chain(arena, node)
    ensures |path| == Depth(arena, node)
    ensures node.parent.None? ==> path == []
  {
    var collected: seq<Action> := [];
    var cur := node;
    while cur.parent.Some?
      invariant LinksBelow(cur, |arena|)
      invariant Chain(arena, cur) + Reversed(collected) == Chain(arena, node)
      decreases if cur.parent.Some? then cur.parent.value + 1 else 0
    {
      ReversedSnoc(collected, cur.action.value);
      collected := collected + [cur.action.value];
      cur := arena[cur.parent.value];
    }
    path := Reversed(collected);
  }
}
