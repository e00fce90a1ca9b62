/** The in-memory film database the search runs over: people, movies and the
    name index, held as finite maps keyed by identifier, and the co-star
    adjacency query `NeighborsForPerson` (degrees.py:170-180). */
module Database {

  type PersonId = string
  type MovieId = string

  /** One edge of a path: the movie shared, and the person reached through it. */
  type Action = (MovieId, PersonId)

  datatype Option<T> = None | Some(value: T)

  datatype Person = Person(name: string, birth: string, movies: set<MovieId>)
  datatype Movie = Movie(title: string, year: string, stars: set<PersonId>)

  /** `names` maps a lower-cased name to the ids registered under it. */
  datatype Db = Db(names: map<string, set<PersonId>>,
                   people: map<PersonId, Person>,
                   movies: map<MovieId, Movie>)

  /** The graph as loading leaves it when every star row names a known person
      and a known movie: cast membership is recorded on both sides. */
  ghost predicate GraphConsistent(db: Db) {
    && (forall p, m :: p in db.people && m in db.people[p].movies ==>
          m in db.movies && p in db.movies[m].stars)
    && (forall m, p :: m in db.movies && p in db.movies[m].stars ==>
          p in db.people && m in db.people[p].movies)
  }

  /** Every id registered under a name is a person of the database. */
  ghost predicate NamesConsistent(db: Db) {
    forall key, p :: key in db.names && p in db.names[key] ==> p in db.people
  }

  /** `a` leaves person `x`: `x` played in movie `a.0`, whose stars include `a.1`. */
  predicate Costars(db: Db, x: PersonId, a: Action) {
    x in db.people && a.0 in db.people[x].movies && a.0 in db.movies && a.1 in db.movies[a.0].stars
  }

  /** In a consistent graph, whoever an edge reaches is a person of the database. */
  lemma CostarIsPerson(db: Db, x: PersonId, a: Action)
    requires GraphConsistent(db) && Costars(db, x, a)
    ensures a.1 in db.people
  {
  }

  /** True when looking up the movies of `x` raises no KeyError. */
  predicate Resolvable(db: Db, x: PersonId) {
    x in db.people && forall m :: m in db.people[x].movies ==> m in db.movies
  }

  /** The (movie, co-star) pairs of person `x`; `None` stands for the KeyError
      raised when `x` or one of its movies is not in the database. */
  method NeighborsForPerson(db: Db, x: PersonId) returns (r: Option<set<Action>>)
    ensures r.Some? <==> Resolvable(db, x)
    ensures r.Some? ==> forall a :: a in r.value <==> Costars(db, x, a)
    ensures r.Some? && GraphConsistent(db) ==>
              forall m :: m in db.people[x].movies ==> (m, x) in r.value
  {
    if x !in db.people {
      return None;
    }
    var movieIds := db.people[x].movies;
    var neighbors: set<Action> := {};
    var todo := movieIds;
    while todo != {}
      invariant todo <= movieIds
      invariant forall m :: m in movieIds - todo ==> m in db.movies
      invariant forall a :: a in neighbors <==>
                  a.0 in movieIds - todo && a.0 in db.movies && a.1 in db.movies[a.0].stars
      decreases todo
    {
      var m :| m in todo;
      if m !in db.movies {
        return None;
      }
      var stars := db.movies[m].stars;
      var rest := stars;
      while rest != {}
        invariant rest <= stars
        invariant forall a :: a in neighbors <==>
                    (a.0 in movieIds - todo && a.0 in db.movies && a.1 in db.movies[a.0].stars)
                    || (a.0 == m && a.1 in stars - rest)
        decreases rest
      {
        var p :| p in rest;
        neighbors := neighbors + {(m, p)};
        rest := rest - {p};
      }
      todo := todo - {m};
    }
    r := Some(neighbors);
  }
}
