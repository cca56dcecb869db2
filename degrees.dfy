/**
 * The breadth-first "degrees of separation" search of degrees.py over a
 * read-only people/movies store, with its helpers.
 */
module Degrees {
  import opened Wrappers
  import opened CoStarGraph
  import opened Frontier
  import opened SearchTree

  /** What shortest_path hands back: nothing, a list of (movie, person) states, or (source equals target) a list holding the source node itself. */
  datatype Reply = NotConnected | Path(steps: seq<State>) | SourceOnly(node: Node)

  /** The argument of get_person: a bare person id, or a (movie id, person id) pair. */
  datatype PersonKey = Bare(id: PersonId) | Tagged(movie: MovieId, id: PersonId)

  /** Builds the state of a person key; an id the store does not know gives nothing (the empty tuple). */
  function GetPerson(store: Store, key: PersonKey): (r: Option<State>)
    ensures r.Some? <==> key.id in store.people
    ensures r.Some? ==> r.value.person == key.id
    ensures r.Some? ==> r.value.via == if key.Bare? then Start else Movie(key.movie)
  {
    var mid := if key.Tagged? then Movie(key.movie) else Start;
    if key.id in store.people then Some(State(mid, key.id)) else None
  }

  /** The goal test compares the person component of the two states only. */
  function IsGoalNode(node: Node, target: Node): bool {
    node.state.person == target.state.person
  }

  lemma GoalTestIgnoresMovieAndParent(n1: Node, n2: Node, t1: Node, t2: Node)
    requires n1.state.person == n2.state.person && t1.state.person == t2.state.person
    ensures IsGoalNode(n1, t1) == IsGoalNode(n2, t2)
    ensures IsGoalNode(n1, t1) <==> n1.state.person == t1.state.person
  {
  }

  /** Every (movie, co-star) pair of person p; p itself appears once for each of its movies. */
  method NeighborsForPerson(store: Store, p: PersonId) returns (neighbors: set<(MovieId, PersonId)>)
    requires Valid(store) && p in store.people
    ensures forall m, q :: (m, q) in neighbors <==> Step(store, p, State(Movie(m), q))
  {
    var movieIds := store.people[p];
    neighbors := {};
    var todo := movieIds;
    while todo != {}
      invariant todo <= movieIds
      invariant forall m, q :: (m, q) in neighbors <==> m in movieIds - todo && q in store.movies[m]
      decreases todo
    {
      var m :| m in todo;
      var stars := store.movies[m];
      var rest := stars;
      while rest != {}
        invariant rest <= stars
        invariant forall m', q :: (m', q) in neighbors <==>
          (m' in movieIds - todo && q in store.movies[m']) || (m' == m && q in stars - rest)
        decreases rest
      {
        var q :| q in rest;
        neighbors := neighbors + {(m, q)};
        rest := rest - {q};
      }
      todo := todo - {m};
    }
  }

  /** With a symmetric store, (m, p) is a neighbour of p exactly for the movies m of p. */
  lemma SelfIsOwnNeighborPerMovie(store: Store, p: PersonId, m: MovieId)
    requires Symmetric(store) && p in store.people
    ensures Step(store, p, State(Movie(m), p)) <==> m in store.people[p]
  {
  }

  /** The neighbour pairs of a node's person turned into states, each once, in the set's iteration order. */
  method NeighborsAsPeople(store: Store, node: Node) returns (states: seq<State>)
    requires Valid(store) && node.state.person in store.people
    ensures forall t :: t in states <==> Step(store, node.state.person, t)
    ensures forall i, j :: 0 <= i < j < |states| ==> states[i] != states[j]
  {
    var pairs := NeighborsForPerson(store, node.state.person);
    states := [];
    var rest := pairs;
    while rest != {}
      invariant rest <= pairs
      invariant forall t :: t in states <==> t.via.Movie? && (t.via.id, t.person) in pairs - rest
      invariant forall i, j :: 0 <= i < j < |states| ==> states[i] != states[j]
      decreases rest
    {
      var pr :| pr in rest;
      var s := GetPerson(store, Tagged(pr.0, pr.1));
      states := states + [s.value];
      rest := rest - {pr};
    }
  }

  /**
   * The frontier after one neighbour t of the node at index parent is
   * considered: t is appended as that node's child unless it is explored or
   * some frontier node already holds it.
   */
  function EnqueueStep(frontier: seq<Node>, explored: seq<State>, t: State, parent: nat): seq<Node> {
    if t in explored || HoldsState(frontier, t) then frontier else frontier + [Node(t, Some(parent))]
  }

  /** The frontier after the first j neighbours are considered one after the other, in order. */
  function Enqueue(frontier: seq<Node>, explored: seq<State>, neighbors: seq<State>, j: nat, parent: nat): seq<Node>
    requires j <= |neighbors|
  {
    if j == 0 then frontier
    else EnqueueStep(Enqueue(frontier, explored, neighbors, j - 1, parent), explored, neighbors[j - 1], parent)
  }

  /**
   * Considering the first j neighbours keeps the old frontier in front; every
   * node it appends is a child of the expanded node, holds one of those
   * neighbours that was neither explored nor held by the old frontier, and no
   * two appended nodes hold the same state; afterwards each of those
   * neighbours is explored or on the frontier.
   */
  lemma {:induction false} EnqueueSpec(frontier: seq<Node>, explored: seq<State>, neighbors: seq<State>, j: nat,
                                       parent: nat)
    requires j <= |neighbors|
    ensures var f := Enqueue(frontier, explored, neighbors, j, parent);
      |frontier| <= |f| && f[..|frontier|] == frontier
    ensures var f := Enqueue(frontier, explored, neighbors, j, parent);
      forall k :: |frontier| <= k < |f| ==>
        && f[k].parent == Some(parent) && (exists i :: 0 <= i < j && neighbors[i] == f[k].state)
        && f[k].state !in explored && !HoldsState(frontier, f[k].state)
    ensures var f := Enqueue(frontier, explored, neighbors, j, parent);
      forall k1, k2 :: |frontier| <= k1 < k2 < |f| ==> f[k1].state != f[k2].state
    ensures forall i :: 0 <= i < j ==>
      neighbors[i] in explored || HoldsState(Enqueue(frontier, explored, neighbors, j, parent), neighbors[i])
  {
    if j > 0 {
      var t := neighbors[j - 1];
      EnqueueSpec(frontier, explored, neighbors, j - 1, parent);
      var prev := Enqueue(frontier, explored, neighbors, j - 1, parent);
      var f := Enqueue(frontier, explored, neighbors, j, parent);
      assert f == EnqueueStep(prev, explored, t, parent);
      assert forall k :: 0 <= k < |prev| ==> f[k] == prev[k];
      forall i | 0 <= i < j
        ensures neighbors[i] in explored || HoldsState(f, neighbors[i])
      {
        var u := neighbors[i];
        if i < j - 1 {
          if HoldsState(prev, u) {
            var k :| 0 <= k < |prev| && prev[k].state == u;
            assert f[k].state == u;
          }
        } else if t !in explored {
          if !HoldsState(prev, t) {
            assert f[|prev|].state == t;
          }
        }
      }
      forall k | |frontier| <= k < |f|
        ensures exists i :: 0 <= i < j && neighbors[i] == f[k].state
      {
        if k < |prev| {
          var i :| 0 <= i < j - 1 && neighbors[i] == prev[k].state;
        } else {
          assert neighbors[j - 1] == f[k].state;
        }
      }
      forall k1, k2 | |frontier| <= k1 < k2 < |f|
        ensures f[k1].state != f[k2].state
      {
        if k2 == |prev| {
          assert !HoldsState(prev, t);
          assert prev[k1].state != t;
        }
      }
    }
  }

  /**
   * What holds while the neighbours of n (the last of the |explored| nodes
   * dequeued so far, at depth d) are being considered: the first j of them
   * have been seen, and the enqueue order so far extends all0.
   */
  ghost predicate Considering(store: Store, source: PersonId, all0: seq<Node>, all: seq<Node>, explored: seq<State>,
                              n: Node, d: nat, neighbors: seq<State>, j: nat) {
    && Expanding(store, source, all, |explored|, d) && all[|explored| - 1] == n
    && |all0| <= |all| && all[..|all0|] == all0
    && (forall i :: 0 <= i < |explored| ==> explored[i] == all[i].state)
    && j <= |neighbors|
    && (forall jj :: 0 <= jj < j ==> Seen(all, neighbors[jj], d + 1))
  }

  /**
   * The body of the expansion loop for neighbour j of the node n being
   * expanded: enqueue it as a child of n (index |explored| - 1) unless it is
   * explored or already on the frontier.
   */
  method Consider(store: Store, ghost source: PersonId, candidates: QueueFrontier, explored: seq<State>, n: Node,
                  neighbors: seq<State>, j: nat, ghost all0: seq<Node>, ghost all: seq<Node>, ghost d: nat)
    returns (ghost all': seq<Node>)
    requires Considering(store, source, all0, all, explored, n, d, neighbors, j) && j < |neighbors|
    requires Step(store, n.state.person, neighbors[j])
    requires candidates.frontier == all[|explored|..]
    modifies candidates
    ensures candidates.frontier == EnqueueStep(old(candidates.frontier), explored, neighbors[j], |explored| - 1)
    ensures all' == if neighbors[j] in explored || HoldsState(old(candidates.frontier), neighbors[j]) then all
                    else all + [Node(neighbors[j], Some(|explored| - 1))]
    ensures candidates.frontier == all'[|explored|..]
    ensures Considering(store, source, all0, all', explored, n, d, neighbors, j + 1)
  {
    var m := |explored|;
    var state := neighbors[j];
    var skip := state in explored;
    if !skip {
      var inFrontier := candidates.ContainsState(state);
      skip := inFrontier;
    }
    if skip {
      HeldSomewhere(all, m, explored, candidates.frontier, state);
      SkipKeeps(store, source, all0, all, explored, n, d, neighbors, j);
      all' := all;
    } else {
      NotHeldAnywhere(all, m, explored, candidates.frontier, state);
      var x := Node(state, Some(m - 1));
      candidates.Add(x);
      EnqueueConsidering(store, source, all0, all, explored, n, d, neighbors, j);
      all' := all + [x];
    }
  }

  /** A neighbour some enqueued node already holds is seen without enqueuing anything. */
  lemma SkipKeeps(store: Store, source: PersonId, all0: seq<Node>, all: seq<Node>, explored: seq<State>,
                  n: Node, d: nat, neighbors: seq<State>, j: nat)
    requires Considering(store, source, all0, all, explored, n, d, neighbors, j) && j < |neighbors|
    requires HoldsState(all, neighbors[j])
    ensures Considering(store, source, all0, all, explored, n, d, neighbors, j + 1)
  {
    HeldIsSeen(store, source, all, |explored|, d, neighbors[j]);
  }

  /** Enqueuing a neighbour no enqueued node holds, as a child of n, sees it and keeps the invariant. */
  lemma EnqueueConsidering(store: Store, source: PersonId, all0: seq<Node>, all: seq<Node>, explored: seq<State>,
                           n: Node, d: nat, neighbors: seq<State>, j: nat)
    requires Considering(store, source, all0, all, explored, n, d, neighbors, j) && j < |neighbors|
    requires Step(store, n.state.person, neighbors[j]) && !HoldsState(all, neighbors[j])
    ensures Considering(store, source, all0, all + [Node(neighbors[j], Some(|explored| - 1))], explored, n, d,
                        neighbors, j + 1)
  {
    var all' := all + [Node(neighbors[j], Some(|explored| - 1))];
    EnqueueKeeps(store, source, all, |explored|, d, neighbors[j]);
    assert forall k :: 0 <= k < |all| ==> all'[k] == all[k];
    PrefixOfPrefix(all0, all, all');
    forall jj | 0 <= jj < j + 1
      ensures Seen(all', neighbors[jj], d + 1)
    {
      if jj < j {
        assert Seen(all, neighbors[jj], d + 1);
      }
    }
  }

  /**
   * One expansion: every neighbour state of the dequeued node n (the last of
   * the m = |explored| nodes dequeued so far) that is neither explored nor on
   * the frontier is enqueued with n as its parent.
   */
  /** Consider, seen from the loop over all neighbours: the frontier grows by Enqueue one neighbour further. */
  method ConsiderNext(store: Store, ghost source: PersonId, candidates: QueueFrontier, explored: seq<State>, n: Node,
                      neighbors: seq<State>, j: nat, ghost all0: seq<Node>, ghost all: seq<Node>, ghost d: nat,
                      ghost f0: seq<Node>)
    returns (ghost all': seq<Node>)
    requires Considering(store, source, all0, all, explored, n, d, neighbors, j) && j < |neighbors|
    requires Step(store, n.state.person, neighbors[j])
    requires candidates.frontier == all[|explored|..]
    requires candidates.frontier == Enqueue(f0, explored, neighbors, j, |explored| - 1)
    modifies candidates
    ensures Considering(store, source, all0, all', explored, n, d, neighbors, j + 1)
    ensures candidates.frontier == all'[|explored|..]
    ensures candidates.frontier == Enqueue(f0, explored, neighbors, j + 1, |explored| - 1)
  {
    all' := Consider(store, source, candidates, explored, n, neighbors, j, all0, all, d);
  }

  method Expand(store: Store, ghost source: PersonId, candidates: QueueFrontier, explored: seq<State>, n: Node,
                ghost all: seq<Node>, ghost d: nat) returns (neighbors: seq<State>, ghost all': seq<Node>)
    requires Valid(store) && source in store.people
    requires Expanding(store, source, all, |explored|, d) && all[|explored| - 1] == n
    requires candidates.frontier == all[|explored|..]
    requires forall i :: 0 <= i < |explored| ==> explored[i] == all[i].state
    modifies candidates
    ensures forall t :: t in neighbors <==> Step(store, n.state.person, t)
    ensures candidates.frontier == Enqueue(old(candidates.frontier), explored, neighbors, |neighbors|, |explored| - 1)
    ensures Expanding(store, source, all', |explored|, d)
    ensures |all| <= |all'| && all'[..|all|] == all
    ensures candidates.frontier == all'[|explored|..]
    ensures Closed(store, all', |explored|) && Layered(all', |explored|)
  {
    assert LinkedAt(store, source, all, |explored| - 1);
    neighbors := NeighborsAsPeople(store, n);
    ghost var f0 := candidates.frontier;
    ghost var parent := |explored| - 1;
    ExpandStarts(store, source, all, explored, n, d, neighbors, f0);
    all' := all;
    var j := 0;
    while j < |neighbors|
      invariant Considering(store, source, all, all', explored, n, d, neighbors, j)
      invariant candidates.frontier == all'[|explored|..]
      invariant candidates.frontier == Enqueue(f0, explored, neighbors, j, parent)
    {
      all' := ConsiderNext(store, source, candidates, explored, n, neighbors, j, all, all', d, f0);
      j := j + 1;
    }
    ExpandFinished(store, source, all, all', explored, n, d, neighbors);
  }

  /** Before any neighbour is considered, the expansion invariant holds and nothing is enqueued. */
  lemma ExpandStarts(store: Store, source: PersonId, all: seq<Node>, explored: seq<State>, n: Node, d: nat,
                     neighbors: seq<State>, frontier: seq<Node>)
    requires Expanding(store, source, all, |explored|, d) && all[|explored| - 1] == n
    requires forall i :: 0 <= i < |explored| ==> explored[i] == all[i].state
    ensures Considering(store, source, all, all, explored, n, d, neighbors, 0)
  {
    assert all[..|all|] == all;
  }

  /** After the last neighbour is considered, every step out of n is seen one level down, so n is closed. */
  lemma ExpandFinished(store: Store, source: PersonId, all0: seq<Node>, all: seq<Node>, explored: seq<State>, n: Node,
                       d: nat, neighbors: seq<State>)
    requires Considering(store, source, all0, all, explored, n, d, neighbors, |neighbors|)
    requires forall t :: t in neighbors <==> Step(store, n.state.person, t)
    ensures Expanding(store, source, all, |explored|, d)
    ensures |all0| <= |all| && all[..|all0|] == all0
    ensures Closed(store, all, |explored|) && Layered(all, |explored|)
  {
    forall t | Step(store, n.state.person, t)
      ensures Seen(all, t, d + 1)
    {
      var jj :| 0 <= jj < |neighbors| && neighbors[jj] == t;
    }
    ExpansionDone(store, source, all, |explored|, d, n.state.person);
  }

  /** Spells out list reversal, which degrees.py gets from list.reverse. */
  function Reversed(s: seq<State>): (r: seq<State>)
    ensures |r| == |s|
    ensures forall k :: 0 <= k < |s| ==> r[k] == s[|s| - 1 - k]
  {
    if s == [] then [] else Reversed(s[1..]) + [s[0]]
  }

  lemma {:induction false} ReversedSnoc(s: seq<State>, x: State)
    ensures Reversed(s + [x]) == [x] + Reversed(s)
  {
    if s != [] {
      assert (s + [x])[1..] == s[1..] + [x];
      ReversedSnoc(s[1..], x);
    } else {
      assert Reversed([x]) == Reversed([]) + [x];
    }
  }

  /**
   * Path reconstruction: collects the states from the goal up to the root,
   * reverses them and drops the root's state.
   */
  method Backtrack(arena: seq<Node>, goal: Node) returns (path: seq<State>)
    requires ParentsBefore(arena) && InArena(arena, goal)
    ensures path == PathTo(arena, goal)
  {
    var collected := [goal.state];
    var cursor: Option<nat> := goal.parent;
    while cursor.Some?
      invariant cursor.Some? ==> (cursor.value < |arena|)
      invariant cursor.Some? ==> PathTo(arena, arena[cursor.value]) + Reversed(collected) == PathTo(arena, goal)
      invariant cursor.None? ==> |collected| > 0 && Reversed(collected)[1..] == PathTo(arena, goal)
      decreases if cursor.Some? then cursor.value + 1 else 0
    {
      var node := arena[cursor.value];
      ReversedSnoc(collected, node.state);
      collected := collected + [node.state];
      cursor := node.parent;
    }
    path := Reversed(collected);
    path := path[1..];
  }

  /** The invariant of the search loop: arena and explored are the dequeued nodes, the frontier is the rest. */
  ghost predicate Searching(store: Store, source: PersonId, target: PersonId, all: seq<Node>, arena: seq<Node>,
                            explored: seq<State>, frontier: seq<Node>) {
    && Shape(store, source, all, |arena|)
    && arena == all[..|arena|] && frontier == all[|arena|..]
    && |explored| == |arena| && (forall i :: 0 <= i < |arena| ==> explored[i] == arena[i].state)
    && DistinctStates(all)
    && Closed(store, all, |arena|)
    && Layered(all, |arena|)
    && NonGoal(all, |arena|, target)
  }

  /** Dequeuing a node that is not a goal starts its expansion, and its state is new to explored. */
  lemma DequeueNonGoal(store: Store, source: PersonId, target: PersonId, all: seq<Node>, arena: seq<Node>,
                       explored: seq<State>, frontier: seq<Node>)
    requires Searching(store, source, target, all, arena, explored, frontier)
    requires frontier != [] && frontier[0].state.person != target
    ensures all[|arena|] == frontier[0]
    ensures Expanding(store, source, all, |arena| + 1, DepthAt(all, |arena|))
    ensures forall i :: 0 <= i < |arena| + 1 ==> (explored + [frontier[0].state])[i] == all[i].state
    ensures frontier[0].state !in explored && frontier[0].state in AllStates(store, source)
    ensures (set s | s in explored + [frontier[0].state]) == (set s | s in explored) + {frontier[0].state}
  {
    var m := |arena|;
    var n := frontier[0];
    assert n == all[m];
    DequeueKeeps(store, source, target, all, m);
    assert LinkedAt(store, source, all, m);
    if n.parent.Some? {
      StepStaysInAllStates(store, source, all[n.parent.value].state.person, n.state);
    }
    forall i | 0 <= i < m
      ensures explored[i] != n.state
    {
      assert explored[i] == all[i].state;
    }
  }

  /** After the expansion of the dequeued node n the loop invariant holds again, one node further on. */
  lemma ExpansionSearching(store: Store, source: PersonId, target: PersonId, prev: seq<Node>, all: seq<Node>,
                           arena: seq<Node>, explored: seq<State>, n: Node, frontier: seq<Node>)
    requires |arena| < |prev| && prev[|arena|] == n && n.state.person != target
    requires Searching(store, source, target, prev, arena, explored, prev[|arena|..])
    requires Shape(store, source, all, |arena| + 1) && DistinctStates(all)
    requires |prev| <= |all| && all[..|prev|] == prev
    requires frontier == all[|arena| + 1..]
    requires Closed(store, all, |arena| + 1) && Layered(all, |arena| + 1)
    ensures Searching(store, source, target, all, arena + [n], explored + [n.state], frontier)
  {
    var m := |arena|;
    assert forall i :: 0 <= i < |prev| ==> all[i] == prev[i];
    forall i | 0 <= i < m + 1
      ensures (arena + [n])[i] == all[i]
    {
      if i < m {
        assert arena[i] == prev[..m][i];
      }
    }
    assert arena + [n] == all[..m + 1];
    assert NonGoal(all, m + 1, target) by {
      forall i | 0 <= i < m + 1
        ensures all[i].state.person != target
      {
        if i < m {
          assert all[i] == prev[i];
        }
      }
    }
  }

  /**
   * The search loop of shortest_path, started on a frontier holding only the
   * source node: dequeue; stop at a node whose person is the target;
   * otherwise mark it explored and expand it.  It stops without a goal
   * exactly when the target is unreachable; a goal's parent path over the
   * expanded nodes is a shortest chain to the target.
   */
  method Search(store: Store, source: PersonId, target: PersonId, candidates: QueueFrontier, targetNode: Node)
    returns (found: Option<Node>, arena: seq<Node>)
    requires Valid(store) && source in store.people && source != target
    requires targetNode.state.person == target
    requires candidates.frontier == [Node(Root(source), None)]
    modifies candidates
    ensures found.None? ==> !Connected(store, source, target)
    ensures found.Some? ==> ParentsBefore(arena) && InArena(arena, found.value)
    ensures found.Some? ==> IsShortest(store, source, target, PathTo(arena, found.value))
  {
    var explored: seq<State> := [];
    arena := [];
    found := None;
    ghost var all := candidates.frontier;
    var empty := candidates.Empty();
    while !empty
      invariant Searching(store, source, target, all, arena, explored, candidates.frontier)
      invariant empty <==> candidates.frontier == []
      invariant found.None?
      decreases AllStates(store, source) - set s | s in explored
    {
      ghost var m := |arena|;
      ghost var frontier := candidates.frontier;
      var n := candidates.Remove();
      if IsGoalNode(n, targetNode) {
        GoalIsShortest(store, source, target, all, m);
        found := Some(n);
        break;
      }
      DequeueNonGoal(store, source, target, all, arena, explored, frontier);
      ghost var prev := all;
      var neighbors;
      neighbors, all := Expand(store, source, candidates, explored + [n.state], n, all, DepthAt(all, |arena|));
      ExpansionSearching(store, source, target, prev, all, arena, explored, n, candidates.frontier);
      explored := explored + [n.state];
      arena := arena + [n];
      empty := candidates.Empty();
    }
    if found.None? {
      ExhaustedMeansUnconnected(store, source, target, all);
    } else {
      PathToExtends(arena, all, found.value);
    }
  }

  /**
   * Breadth-first search from source for a node whose person is target.
   * Between different people it answers NotConnected exactly when no co-star
   * chain joins them, and otherwise a chain of minimum length; for the same
   * person it answers the source node itself.
   */
  method ShortestPath(store: Store, source: PersonId, target: PersonId) returns (r: Reply)
    requires Valid(store) && source in store.people && target in store.people
    ensures r.SourceOnly? <==> source == target
    ensures r.SourceOnly? ==> r.node == Node(Root(source), None)
    ensures source != target ==> (r.NotConnected? <==> !Connected(store, source, target))
    ensures r.Path? ==> IsShortest(store, source, target, r.steps)
  {
    var targetNode := Node(GetPerson(store, Bare(target)).value, None);
    var sourceNode := Node(GetPerson(store, Bare(source)).value, None);
    if IsGoalNode(sourceNode, targetNode) {
      return SourceOnly(sourceNode);
    }
    var candidates := new QueueFrontier();
    candidates.Add(sourceNode);
    var found, arena := Search(store, source, target, candidates, targetNode);
    if found.None? {
      return NotConnected;
    }
    var path := Backtrack(arena, found.value);
    return Path(path);
  }
}
