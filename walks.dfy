/** Co-star chains: what a path returned by the search is, when a person is
    reachable, and the two facts about explored sets that breadth-first search
    relies on (degrees.py:92-131). */
module Walks {
  import opened Database

  /** The person from which edge `i` of `path` leaves. */
  function Before(source: PersonId, path: seq<Action>, i: nat): PersonId
    requires i < |path|
  {
    if i == 0 then source else path[i - 1].1
  }

  /** The person `path` ends at. */
  function Last(source: PersonId, path: seq<Action>): PersonId {
    if path == [] then source else path[|path| - 1].1
  }

  /** Every edge `(m, p)` of `path` has `m` among the movies of the person before
      it and `p` among the stars of `m`. */
  ghost predicate IsWalk(db: Db, source: PersonId, path: seq<Action>) {
    forall i {:trigger Before(source, path, i)} :: 0 <= i < |path| ==> Costars(db, Before(source, path, i), path[i])
  }

  /** A valid co-star chain from `source` to `target`. */
  ghost predicate IsChain(db: Db, source: PersonId, target: PersonId, path: seq<Action>) {
    IsWalk(db, source, path) && Last(source, path) == target
  }

  ghost predicate Reachable(db: Db, source: PersonId, target: PersonId) {
    exists path :: IsChain(db, source, target, path)
  }

  /** Every chain from `source` to `y` has at least `k` edges. */
  ghost predicate NoShorterChain(db: Db, source: PersonId, y: PersonId, k: nat) {
    forall path :: IsChain(db, source, y, path) ==> k <= |path|
  }

  lemma WalkPrefix(db: Db, source: PersonId, path: seq<Action>, n: nat)
    requires IsWalk(db, source, path) && n <= |path|
    ensures IsWalk(db, source, path[..n])
    ensures n > 0 ==> Last(source, path[..n]) == path[n - 1].1
  {
    forall i | 0 <= i < n ensures Costars(db, Before(source, path[..n], i), path[..n][i]) {
      assert Before(source, path[..n], i) == Before(source, path, i);
    }
  }

  lemma WalkStep(db: Db, source: PersonId, path: seq<Action>, n: nat)
    requires IsWalk(db, source, path) && n < |path|
    ensures Costars(db, Last(source, path[..n]), path[n])
  {
    assert Before(source, path, n) == Last(source, path[..n]);
  }

  lemma WalkExtend(db: Db, source: PersonId, path: seq<Action>, a: Action)
    requires IsWalk(db, source, path) && Costars(db, Last(source, path), a)
    ensures IsChain(db, source, a.1, path + [a])
  {
    var ext := path + [a];
    forall i | 0 <= i < |ext| ensures Costars(db, Before(source, ext, i), ext[i]) {
      if i < |path| {
        assert Before(source, ext, i) == Before(source, path, i);
      }
    }
  }

  /** A person not in the database reaches only itself. */
  lemma StrangerReachesOnlySelf(db: Db, source: PersonId, target: PersonId)
    requires source !in db.people && source != target
    ensures !Reachable(db, source, target)
  {
    forall path | IsChain(db, source, target, path) ensures false {
      WalkLeavesSource(db, source, path);
      assert false;
    }
  }

  /** A non-empty walk leaves from a person of the database. */
  lemma WalkLeavesSource(db: Db, source: PersonId, path: seq<Action>)
    requires IsWalk(db, source, path) && path != []
    ensures source in db.people
  {
    assert Costars(db, Before(source, path, 0), path[0]);
  }

  /** If `explored` holds `source` and every neighbour of an explored person is
      explored, every chain from `source` ends in `explored`. */
  lemma {:induction false} Closed(db: Db, source: PersonId, explored: set<PersonId>, path: seq<Action>)
    requires IsWalk(db, source, path)
    requires source in explored
    requires forall y, a :: y in explored && Costars(db, y, a) ==> a.1 in explored
    ensures Last(source, path) in explored
    decreases |path|
  {
    if path != [] {
      var n := |path| - 1;
      WalkPrefix(db, source, path, n);
      Closed(db, source, explored, path[..n]);
      assert Before(source, path, n) == Last(source, path[..n]);
    }
  }

  /** The breadth-first coverage fact. Suppose every queued person has no chain
      shorter than `d`, neither has `pending`, and every explored person other
      than `pending` has all its neighbours explored or queued. Then every chain
      from `source` of fewer than `d` edges ends at an explored person. */
  lemma {:induction false} Covered(db: Db, source: PersonId, explored: set<PersonId>, queued: set<PersonId>,
                                   pending: PersonId, d: nat, path: seq<Action>)
    requires IsWalk(db, source, path) && |path| < d
    requires source in explored + queued
    requires forall y :: y in queued ==> NoShorterChain(db, source, y, d)
    requires NoShorterChain(db, source, pending, d)
    requires forall y, a :: y in explored && y != pending && Costars(db, y, a) ==> a.1 in explored + queued
    ensures Last(source, path) in explored
    decreases |path|
  {
    if path == [] {
      if source in queued {
        assert IsChain(db, source, source, []);
        assert false;
      }
    } else {
      var n := |path| - 1;
      WalkPrefix(db, source, path, n);
      var pre := path[..n];
      Covered(db, source, explored, queued, pending, d, pre);
      var q := Last(source, pre);
      assert IsChain(db, source, q, pre);
      assert Before(source, path, n) == q;
      assert IsChain(db, source, Last(source, path), path);
    }
  }

  /** A neighbour of `pending` that is neither explored nor queued is at
      distance exactly one more than `pending`: no chain to it is shorter. */
  lemma Discover(db: Db, source: PersonId, explored: set<PersonId>, queued: set<PersonId>,
                 pending: PersonId, d: nat, y: PersonId)
    requires source in explored + queued
    requires forall z :: z in queued ==> NoShorterChain(db, source, z, d)
    requires NoShorterChain(db, source, pending, d)
    requires forall z, a :: z in explored && z != pending && Costars(db, z, a) ==> a.1 in explored + queued
    requires y !in explored + queued
    ensures NoShorterChain(db, source, y, d + 1)
  {
    forall path | IsChain(db, source, y, path) ensures d + 1 <= |path| {
      if |path| < d {
        Covered(db, source, explored, queued, pending, d, path);
        assert false;
      } else if |path| == d {
        if path == [] {
          assert false;
        }
        var n := |path| - 1;
        WalkPrefix(db, source, path, n);
        var pre := path[..n];
        WalkStep(db, source, path, n);
        Covered(db, source, explored, queued, pending, d, pre);
        assert false;
      }
    }
  }
}
