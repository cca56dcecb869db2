/**
 * The people/movies store of the degrees program and the co-star relation it
 * induces.  A search state is a (movie, person) pair; the start person's state
 * carries no movie (degrees.py writes -1 there).
 */
module CoStarGraph {

  type PersonId = string
  type MovieId = string

  /** person id -> the movies they starred in; movie id -> its stars. */
  datatype Store = Store(people: map<PersonId, set<MovieId>>, movies: map<MovieId, set<PersonId>>)

  /** Every movie a person lists is known, and every star of a movie is a known person. */
  predicate Valid(store: Store) {
    && (forall p, m :: p in store.people && m in store.people[p] ==> m in store.movies)
    && (forall m, q :: m in store.movies && q in store.movies[m] ==> q in store.people)
  }

  /**
   * Every movie of a person lists that person as a star, and the other way
   * round: what the loader builds when every star row names a known person
   * and a known movie.
   */
  predicate Symmetric(store: Store) {
    && (forall p, m :: p in store.people && m in store.people[p] ==> m in store.movies && p in store.movies[m])
    && (forall m, q :: m in store.movies && q in store.movies[m] ==> q in store.people && m in store.people[q])
  }

  /** The connecting movie of a state: none for the source, otherwise a movie id. */
  datatype Via = Start | Movie(id: MovieId)

  datatype State = State(via: Via, person: PersonId)

  function Root(source: PersonId): State {
    State(Start, source)
  }

  /** t = (m, q) is a co-star step out of person p: m is one of p's movies and q one of its stars. */
  predicate Step(store: Store, p: PersonId, t: State) {
    && p in store.people
    && t.via.Movie?
    && t.via.id in store.people[p]
    && t.via.id in store.movies
    && t.person in store.movies[t.via.id]
  }

  /** Every state a search from source can ever hold. */
  function AllStates(store: Store, source: PersonId): (all: set<State>)
    ensures Root(source) in all
  {
    {Root(source)} + set m, q | m in store.movies && q in store.movies[m] :: State(Movie(m), q)
  }

  lemma StepStaysInAllStates(store: Store, source: PersonId, p: PersonId, t: State)
    requires Step(store, p, t)
    ensures t in AllStates(store, source)
  {
    assert t == State(Movie(t.via.id), t.person);
  }

  /** The person a chain has reached after its first k entries. */
  function Before(source: PersonId, c: seq<State>, k: nat): PersonId
    requires k <= |c|
  {
    if k == 0 then source else c[k - 1].person
  }

  /** The state a chain ends in; the root state for the empty chain. */
  function EndState(source: PersonId, c: seq<State>): State {
    if c == [] then Root(source) else c[|c| - 1]
  }

  /** A co-star chain out of source: every entry is a step out of the person before it. */
  ghost predicate IsChain(store: Store, source: PersonId, c: seq<State>) {
    forall k {:trigger Before(source, c, k)} :: 0 <= k < |c| ==> Step(store, Before(source, c, k), c[k])
  }

  /** A non-empty chain from source whose last person is target. */
  ghost predicate Reaches(store: Store, source: PersonId, target: PersonId, c: seq<State>) {
    IsChain(store, source, c) && c != [] && c[|c| - 1].person == target
  }

  ghost predicate Connected(store: Store, source: PersonId, target: PersonId) {
    exists c :: Reaches(store, source, target, c)
  }

  /** c reaches target and no chain reaching target is shorter. */
  ghost predicate IsShortest(store: Store, source: PersonId, target: PersonId, c: seq<State>) {
    && Reaches(store, source, target, c)
    && forall c' :: Reaches(store, source, target, c') ==> |c| <= |c'|
  }

  lemma ChainPrefix(store: Store, source: PersonId, c: seq<State>, n: nat)
    requires IsChain(store, source, c) && n <= |c|
    ensures IsChain(store, source, c[..n])
  {
    forall k | 0 <= k < n
      ensures Step(store, Before(source, c[..n], k), c[..n][k])
    {
      assert Before(source, c[..n], k) == Before(source, c, k);
    }
  }

  lemma ChainSnoc(store: Store, source: PersonId, c: seq<State>, t: State)
    requires IsChain(store, source, c)
    requires Step(store, EndState(source, c).person, t)
    ensures IsChain(store, source, c + [t])
  {
    var c' := c + [t];
    forall k | 0 <= k < |c'|
      ensures Step(store, Before(source, c', k), c'[k])
    {
      if k < |c| {
        assert Before(source, c', k) == Before(source, c, k);
      } else {
        assert Before(source, c', k) == EndState(source, c).person;
      }
    }
  }

  /** Skipping the entries strictly after i up to and including j keeps a chain when c[i] and c[j] share a person. */
  lemma Shortcut(store: Store, source: PersonId, c: seq<State>, i: nat, j: nat)
    requires IsChain(store, source, c)
    requires i < j < |c| && c[i].person == c[j].person
    ensures IsChain(store, source, c[..i + 1] + c[j + 1..])
  {
    var d := c[..i + 1] + c[j + 1..];
    forall k | 0 <= k < |d|
      ensures Step(store, Before(source, d, k), d[k])
    {
      if k <= i {
        assert d[k] == c[k];
        if k > 0 {
          assert d[k - 1] == c[k - 1];
        }
        assert Before(source, d, k) == Before(source, c, k);
      } else {
        var k' := k - i + j;
        assert d[k] == c[k'];
        if k == i + 1 {
          assert d[k - 1] == c[i];
        } else {
          assert d[k - 1] == c[k' - 1];
        }
        assert Before(source, d, k) == Before(source, c, k');
      }
    }
  }

  /** Dropping the entries up to and including j keeps a chain when c[j] is the source itself. */
  lemma BackToSource(store: Store, source: PersonId, c: seq<State>, j: nat)
    requires IsChain(store, source, c)
    requires j < |c| && c[j].person == source
    ensures IsChain(store, source, c[j + 1..])
  {
    var d := c[j + 1..];
    forall k | 0 <= k < |d|
      ensures Step(store, Before(source, d, k), d[k])
    {
      assert d[k] == c[k + j + 1];
      assert Before(source, d, k) == Before(source, c, k + j + 1);
    }
  }

  /** A chain that meets one person twice, or returns to the source, has a strictly shorter chain to the same target. */
  lemma ShorterChainExists(store: Store, source: PersonId, target: PersonId, c: seq<State>, i: int, j: nat)
    requires source != target && Reaches(store, source, target, c)
    requires -1 <= i < j < |c|
    requires c[j].person == (if i < 0 then source else c[i].person)
    ensures exists d :: Reaches(store, source, target, d) && |d| < |c|
  {
    if i < 0 {
      BackToSource(store, source, c, j);
      var d := c[j + 1..];
      assert j < |c| - 1;
      assert d[|d| - 1] == c[|c| - 1];
      assert Reaches(store, source, target, d);
    } else {
      Shortcut(store, source, c, i, j);
      var d := c[..i + 1] + c[j + 1..];
      if j == |c| - 1 {
        assert d[|d| - 1] == c[i];
      } else {
        assert d[|d| - 1] == c[|c| - 1];
      }
      assert Reaches(store, source, target, d);
    }
  }

  /**
   * A shortest chain between two different people meets every person at most
   * once and never returns to the source, so in particular consecutive
   * entries name different people.
   */
  lemma ShortestChainHasNoRepeatedPerson(store: Store, source: PersonId, target: PersonId, c: seq<State>)
    requires source != target
    requires IsShortest(store, source, target, c)
    ensures forall i, j :: 0 <= i < j < |c| ==> c[i].person != c[j].person
    ensures forall i :: 0 <= i < |c| ==> c[i].person != source
  {
    forall i, j | 0 <= i < j < |c|
      ensures c[i].person != c[j].person
    {
      if c[i].person == c[j].person {
        ShorterChainExists(store, source, target, c, i, j);
        assert false;
      }
    }
    forall j | 0 <= j < |c|
      ensures c[j].person != source
    {
      if c[j].person == source {
        ShorterChainExists(store, source, target, c, -1, j);
        assert false;
      }
    }
  }
}
