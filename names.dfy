/** Resolving a typed name to a person id (degrees.py:146-167). The name is
    taken already lower-cased, and the order in which Python lists the set of
    ids registered under it is a parameter, since the set has no order of its
    own. */
module Names {
  import opened Database

  /** The ids registered under `key`, or none when the key is unknown. */
  function Candidates(db: Db, key: string): set<PersonId> {
    if key in db.names then db.names[key] else {}
  }

  /** `ids` lists the set `s`, each element once. */
  ghost predicate Lists(ids: seq<PersonId>, s: set<PersonId>) {
    && (forall p :: p in s <==> p in ids)
    && (forall i, j :: 0 <= i < j < |ids| ==> ids[i] != ids[j])
  }

  function BirthLength(db: Db, p: PersonId): nat
    requires p in db.people
  {
    |db.people[p].birth|
  }

  /** The position Python's `max(..., key=len(birth))` picks: a candidate with
      the longest birth string, the first such one in listing order. */
  function FirstLongest(db: Db, ids: seq<PersonId>): (k: nat)
    requires ids != [] && forall i :: 0 <= i < |ids| ==> ids[i] in db.people
    ensures k < |ids|
    ensures forall i :: 0 <= i < |ids| ==> BirthLength(db, ids[i]) <= BirthLength(db, ids[k])
    ensures forall i :: 0 <= i < k ==> BirthLength(db, ids[i]) < BirthLength(db, ids[k])
    decreases |ids|
  {
    if |ids| == 1 then 0
    else
      var k := FirstLongest(db, ids[..|ids| - 1]);
      if BirthLength(db, ids[|ids| - 1]) > BirthLength(db, ids[k]) then |ids| - 1 else k
  }

  /** A listing without repeats is as long as the set it lists. */
  lemma {:induction false} ListingSize(ids: seq<PersonId>, s: set<PersonId>)
    requires Lists(ids, s)
    ensures |ids| == |s|
    decreases |ids|
  {
    if ids != [] {
      var last := ids[|ids| - 1];
      var init := ids[..|ids| - 1];
      assert Lists(init, s - {last}) by {
        forall p ensures p in s - {last} <==> p in init {
          if p in init {
            var i :| 0 <= i < |init| && init[i] == p;
            assert ids[i] == p;
          }
          if p in s - {last} {
            var i :| 0 <= i < |ids| && ids[i] == p;
            assert i < |ids| - 1;
            assert init[i] == p;
          }
        }
      }
      ListingSize(init, s - {last});
    } else {
      assert forall p :: p !in s;
    }
  }

  /** `person_id_for_name` on the lower-cased `key`, with `ids` the order in
      which the candidate set is listed: no candidate gives `None`, one
      candidate gives it, several give the first with the longest birth. */
  function PersonIdForName(db: Db, key: string, ids: seq<PersonId>): (r: Option<PersonId>)
    requires NamesConsistent(db)
    requires Lists(ids, Candidates(db, key))
    ensures r.None? <==> Candidates(db, key) == {}
    ensures |Candidates(db, key)| == 1 ==> r.Some? && Candidates(db, key) == {r.value}
    ensures r.Some? ==> r.value in Candidates(db, key) && r.value in db.people
    ensures r.Some? ==> forall p :: p in Candidates(db, key) ==> p in db.people && BirthLength(db, p) <= BirthLength(db, r.value)
  {
    ListingSize(ids, Candidates(db, key));
    if |ids| == 0 then None
    else if |ids| > 1 then Some(ids[FirstLongest(db, ids)])
    else Some(ids[0])
  }

  /** When one candidate has a strictly longer birth string than every other,
      the choice does not depend on the order the candidates are listed in. */
  lemma LongestIsChosen(db: Db, key: string, ids: seq<PersonId>, p: PersonId)
    requires NamesConsistent(db)
    requires Lists(ids, Candidates(db, key))
    requires p in Candidates(db, key)
    requires forall q :: q in Candidates(db, key) && q != p ==> q in db.people && p in db.people && BirthLength(db, q) < BirthLength(db, p)
    ensures PersonIdForName(db, key, ids) == Some(p)
  {
  }
}
