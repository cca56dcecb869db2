/**
 * Ghost reasoning about the tree of search nodes the degrees search builds.
 * `all` is every node ever put on the frontier, in the order it was put there;
 * since the frontier is first-in first-out, the first m of them are exactly
 * the nodes already dequeued and expanded, and the rest is the frontier.
 */
module SearchTree {
  import opened Wrappers
  import opened CoStarGraph
  import opened Frontier

  /** Every parent index points to an earlier node. */
  ghost predicate ParentsBefore(all: seq<Node>) {
    forall i :: 0 <= i < |all| && all[i].parent.Some? ==> all[i].parent.value < i
  }

  ghost predicate InArena(all: seq<Node>, n: Node) {
    n.parent.Some? ==> n.parent.value < |all|
  }

  /** The states on the parent chain of n, root excluded, n's own state last. */
  ghost function PathTo(all: seq<Node>, n: Node): seq<State>
    requires ParentsBefore(all) && InArena(all, n)
    decreases if n.parent.Some? then n.parent.value + 1 else 0
  {
    match n.parent
    case None => []
    case Some(p) => PathTo(all, all[p]) + [n.state]
  }

  ghost function Depth(all: seq<Node>, n: Node): nat
    requires ParentsBefore(all) && InArena(all, n)
  {
    |PathTo(all, n)|
  }

  /** The depth of the k-th enqueued node. */
  ghost function DepthAt(all: seq<Node>, k: nat): nat
    requires ParentsBefore(all) && k < |all|
  {
    Depth(all, all[k])
  }

  /** A parentless node is the root of the search from source; any other node is one co-star step from its parent. */
  ghost predicate Linked(store: Store, source: PersonId, all: seq<Node>, n: Node) {
    match n.parent
    case None => n.state == Root(source)
    case Some(p) => p < |all| && Step(store, all[p].state.person, n.state)
  }

  ghost predicate LinkedAt(store: Store, source: PersonId, all: seq<Node>, k: nat)
    requires k < |all|
  {
    Linked(store, source, all, all[k])
  }

  /** The shape of the node tree after m nodes have been dequeued. */
  ghost predicate Shape(store: Store, source: PersonId, all: seq<Node>, m: nat) {
    && m <= |all|
    && |all| > 0
    && all[0] == Node(Root(source), None)
    && ParentsBefore(all)
    && (forall k :: 0 <= k < |all| ==> LinkedAt(store, source, all, k))
  }

  /** No two enqueued nodes ever held the same state. */
  ghost predicate DistinctStates(all: seq<Node>) {
    forall k1, k2 :: 0 <= k1 < k2 < |all| ==> all[k1].state != all[k2].state
  }

  /** Some enqueued node holds state t at depth at most d. */
  ghost predicate Seen(all: seq<Node>, t: State, d: nat)
    requires ParentsBefore(all)
  {
    exists k :: 0 <= k < |all| && all[k].state == t && DepthAt(all, k) <= d
  }

  /** Every co-star step out of the first m nodes has been enqueued at most one level deeper. */
  ghost predicate Closed(store: Store, all: seq<Node>, m: nat)
    requires ParentsBefore(all) && m <= |all|
  {
    forall i, t :: 0 <= i < m && Step(store, all[i].state.person, t) ==> Seen(all, t, DepthAt(all, i) + 1)
  }

  /** Depths never decrease along the enqueue order. */
  ghost predicate SortedDepths(all: seq<Node>)
    requires ParentsBefore(all)
  {
    forall k1, k2 :: 0 <= k1 <= k2 < |all| ==> DepthAt(all, k1) <= DepthAt(all, k2)
  }

  /** Depths are sorted and the frontier (the nodes from m on) spans at most two levels. */
  ghost predicate Layered(all: seq<Node>, m: nat)
    requires ParentsBefore(all) && m <= |all|
  {
    && SortedDepths(all)
    && (m < |all| ==> forall k :: 0 <= k < |all| ==> DepthAt(all, k) <= DepthAt(all, m) + 1)
  }

  /** None of the first m nodes is a goal node. */
  ghost predicate NonGoal(all: seq<Node>, m: nat, target: PersonId)
    requires m <= |all|
  {
    forall i :: 0 <= i < m ==> all[i].state.person != target
  }

  /** A parent chain only looks at earlier nodes, so it is the same in any extension of the arena. */
  lemma {:induction false} PathToExtends(short: seq<Node>, long: seq<Node>, n: Node)
    requires ParentsBefore(long) && |short| <= |long| && short == long[..|short|] && InArena(short, n)
    ensures ParentsBefore(short)
    ensures PathTo(short, n) == PathTo(long, n)
    decreases if n.parent.Some? then n.parent.value + 1 else 0
  {
    assert forall i :: 0 <= i < |short| ==> short[i] == long[i];
    match n.parent
    case None =>
    case Some(p) =>
      PathToExtends(short, long, short[p]);
  }

  /** Appending a node linked into the tree keeps the shape, every depth, and everything seen and closed. */
  lemma AppendKeeps(store: Store, source: PersonId, all: seq<Node>, m: nat, x: Node)
    requires Shape(store, source, all, m) && Linked(store, source, all, x) && x.parent.Some?
    ensures Shape(store, source, all + [x], m)
    ensures forall k :: 0 <= k < |all| ==> DepthAt(all + [x], k) == DepthAt(all, k)
    ensures DepthAt(all + [x], |all|) == Depth(all, x)
    ensures forall t, d :: Seen(all, t, d) ==> Seen(all + [x], t, d)
    ensures Closed(store, all, m) ==> Closed(store, all + [x], m)
  {
    var all' := all + [x];
    assert forall k :: 0 <= k < |all| ==> all'[k] == all[k];
    assert ParentsBefore(all');
    forall k | 0 <= k < |all'|
      ensures LinkedAt(store, source, all', k)
    {
      if k < |all| {
        assert LinkedAt(store, source, all, k);
        if all[k].parent.Some? {
          assert all'[all[k].parent.value] == all[all[k].parent.value];
        }
      } else {
        assert all'[x.parent.value] == all[x.parent.value];
      }
    }
    forall k | 0 <= k < |all|
      ensures DepthAt(all', k) == DepthAt(all, k)
    {
      PathToExtends(all, all', all[k]);
    }
    PathToExtends(all, all', x);
    assert all'[|all|] == x;
    forall t, d | Seen(all, t, d)
      ensures Seen(all', t, d)
    {
      var k :| 0 <= k < |all| && all[k].state == t && DepthAt(all, k) <= d;
      assert all'[k].state == t && DepthAt(all', k) <= d;
    }
    if Closed(store, all, m) {
      forall i, t | 0 <= i < m && Step(store, all'[i].state.person, t)
        ensures Seen(all', t, DepthAt(all', i) + 1)
      {
        assert Step(store, all[i].state.person, t);
        assert Seen(all, t, DepthAt(all, i) + 1);
      }
    }
  }

  lemma {:induction false} PathToChain(store: Store, source: PersonId, all: seq<Node>, n: Node)
    requires Shape(store, source, all, 0) && Linked(store, source, all, n) && InArena(all, n)
    ensures IsChain(store, source, PathTo(all, n))
    ensures EndState(source, PathTo(all, n)) == n.state
    decreases if n.parent.Some? then n.parent.value + 1 else 0
  {
    match n.parent
    case None =>
    case Some(p) =>
      assert LinkedAt(store, source, all, p);
      PathToChain(store, source, all, all[p]);
      ChainSnoc(store, source, PathTo(all, all[p]), n.state);
  }

  /**
   * Breadth-first layering: when the next node to dequeue has depth D, every
   * chain shorter than D ends in a state that has already been dequeued, at a
   * depth no greater than the chain's length.
   */
  lemma {:induction false} ShortChainsExplored(store: Store, source: PersonId, all: seq<Node>, m: nat, c: seq<State>)
    requires Shape(store, source, all, m) && Closed(store, all, m) && Layered(all, m) && m < |all|
    requires IsChain(store, source, c) && |c| < DepthAt(all, m)
    ensures exists j :: 0 <= j < m && all[j].state == EndState(source, c) && DepthAt(all, j) <= |c|
    decreases |c|
  {
    if c == [] {
      assert DepthAt(all, 0) == 0;
      if m == 0 {
        assert false;
      }
      assert all[0].state == EndState(source, c);
    } else {
      var c' := c[..|c| - 1];
      ChainPrefix(store, source, c, |c'|);
      ShortChainsExplored(store, source, all, m, c');
      var j :| 0 <= j < m && all[j].state == EndState(source, c') && DepthAt(all, j) <= |c'|;
      assert Before(source, c, |c'|) == EndState(source, c').person;
      assert Step(store, all[j].state.person, c[|c'|]);
      assert Seen(all, c[|c'|], DepthAt(all, j) + 1);
      var k :| 0 <= k < |all| && all[k].state == c[|c'|] && DepthAt(all, k) <= DepthAt(all, j) + 1;
      if k >= m {
        assert false;
      }
      assert all[k].state == EndState(source, c);
    }
  }

  /** Once the frontier is empty, every chain out of the source ends in a dequeued state. */
  lemma {:induction false} AllChainsExplored(store: Store, source: PersonId, all: seq<Node>, c: seq<State>)
    requires Shape(store, source, all, |all|) && Closed(store, all, |all|)
    requires IsChain(store, source, c)
    ensures exists j :: 0 <= j < |all| && all[j].state == EndState(source, c)
    decreases |c|
  {
    if c != [] {
      var c' := c[..|c| - 1];
      ChainPrefix(store, source, c, |c'|);
      AllChainsExplored(store, source, all, c');
      var j :| 0 <= j < |all| && all[j].state == EndState(source, c');
      assert Before(source, c, |c'|) == EndState(source, c').person;
      assert Step(store, all[j].state.person, c[|c'|]);
      assert Seen(all, c[|c'|], DepthAt(all, j) + 1);
      var k :| 0 <= k < |all| && all[k].state == c[|c'|] && DepthAt(all, k) <= DepthAt(all, j) + 1;
      assert all[k].state == EndState(source, c);
    } else {
      assert all[0].state == EndState(source, c);
    }
  }

  /** At the moment a goal node is dequeued, its parent chain is a shortest chain to the target. */
  lemma GoalIsShortest(store: Store, source: PersonId, target: PersonId, all: seq<Node>, m: nat)
    requires source != target
    requires Shape(store, source, all, m) && Closed(store, all, m) && Layered(all, m) && m < |all|
    requires NonGoal(all, m, target) && all[m].state.person == target
    ensures IsShortest(store, source, target, PathTo(all, all[m]))
  {
    var g := all[m];
    assert LinkedAt(store, source, all, m);
    if g.parent.None? {
      assert false;
    }
    PathToChain(store, source, all, g);
    var path := PathTo(all, g);
    assert Reaches(store, source, target, path);
    forall c | Reaches(store, source, target, c)
      ensures |path| <= |c|
    {
      if |c| < DepthAt(all, m) {
        ShortChainsExplored(store, source, all, m, c);
        assert false;
      }
    }
  }

  /** When the frontier runs dry without a goal, no chain from the source reaches the target. */
  lemma ExhaustedMeansUnconnected(store: Store, source: PersonId, target: PersonId, all: seq<Node>)
    requires Shape(store, source, all, |all|) && Closed(store, all, |all|) && NonGoal(all, |all|, target)
    ensures !Connected(store, source, target)
  {
    forall c | Reaches(store, source, target, c)
      ensures false
    {
      AllChainsExplored(store, source, all, c);
    }
  }

  /** The invariant of one expansion: m nodes dequeued, the last of which, at depth d, is being expanded. */
  ghost predicate Expanding(store: Store, source: PersonId, all: seq<Node>, m: nat, d: nat) {
    && Shape(store, source, all, m) && m > 0
    && DistinctStates(all)
    && Closed(store, all, m - 1)
    && SortedDepths(all) && DepthAt(all, m - 1) == d
    && (forall k :: 0 <= k < |all| ==> DepthAt(all, k) <= d + 1)
  }

  /** Dequeuing the front node, which is not a goal, starts its expansion. */
  lemma DequeueKeeps(store: Store, source: PersonId, target: PersonId, all: seq<Node>, m: nat)
    requires Shape(store, source, all, m) && DistinctStates(all) && Closed(store, all, m) && Layered(all, m)
    requires m < |all| && NonGoal(all, m, target) && all[m].state.person != target
    ensures Expanding(store, source, all, m + 1, DepthAt(all, m))
    ensures NonGoal(all, m + 1, target)
  {
  }

  /** A state already held by an enqueued node is seen within one level below the node being expanded. */
  lemma HeldIsSeen(store: Store, source: PersonId, all: seq<Node>, m: nat, d: nat, t: State)
    requires Expanding(store, source, all, m, d) && HoldsState(all, t)
    ensures Seen(all, t, d + 1)
  {
    var k :| 0 <= k < |all| && all[k].state == t;
    assert DepthAt(all, k) <= d + 1;
  }

  /** Enqueuing a new state as a child of the node being expanded keeps the invariant and sees the state. */
  lemma EnqueueKeeps(store: Store, source: PersonId, all: seq<Node>, m: nat, d: nat, t: State)
    requires Expanding(store, source, all, m, d)
    requires Step(store, all[m - 1].state.person, t) && !HoldsState(all, t)
    ensures Expanding(store, source, all + [Node(t, Some(m - 1))], m, d)
    ensures forall t', e :: Seen(all, t', e) ==> Seen(all + [Node(t, Some(m - 1))], t', e)
    ensures Seen(all + [Node(t, Some(m - 1))], t, d + 1)
  {
    var x := Node(t, Some(m - 1));
    var all' := all + [x];
    assert Linked(store, source, all, x);
    AppendKeeps(store, source, all, m - 1, x);
    assert all'[|all|] == x;
    assert forall k :: 0 <= k < |all| ==> all'[k] == all[k];
    assert Depth(all, x) == DepthAt(all, m - 1) + 1;
    assert DepthAt(all', |all|) == d + 1;
    assert SortedDepths(all');
    assert DistinctStates(all');
  }

  /** Once every step out of the expanded node is seen, the first m nodes are closed and the frontier is layered again. */
  lemma ExpansionDone(store: Store, source: PersonId, all: seq<Node>, m: nat, d: nat, p: PersonId)
    requires Expanding(store, source, all, m, d) && all[m - 1].state.person == p
    requires forall t :: Step(store, p, t) ==> Seen(all, t, d + 1)
    ensures Closed(store, all, m) && Layered(all, m)
  {
    if m < |all| {
      assert DepthAt(all, m - 1) <= DepthAt(all, m);
    }
  }

  /** A state neither explored (among the first m) nor on the frontier (the rest) is held by no enqueued node. */
  lemma NotHeldAnywhere(all: seq<Node>, m: nat, explored: seq<State>, frontier: seq<Node>, t: State)
    requires m <= |all| && |explored| == m && frontier == all[m..]
    requires forall i :: 0 <= i < m ==> explored[i] == all[i].state
    requires t !in explored && !HoldsState(frontier, t)
    ensures !HoldsState(all, t)
  {
    forall k | 0 <= k < |all|
      ensures all[k].state != t
    {
      if k < m {
        assert explored[k] == all[k].state;
      } else {
        assert frontier[k - m] == all[k];
      }
    }
  }

  /** A state explored (among the first m) or on the frontier (the rest) is held by an enqueued node. */
  lemma HeldSomewhere(all: seq<Node>, m: nat, explored: seq<State>, frontier: seq<Node>, t: State)
    requires m <= |all| && |explored| == m && frontier == all[m..]
    requires forall i :: 0 <= i < m ==> explored[i] == all[i].state
    requires t in explored || HoldsState(frontier, t)
    ensures HoldsState(all, t)
  {
    if t in explored {
      var i :| 0 <= i < m && explored[i] == t;
      assert all[i].state == t;
    } else {
      var k :| 0 <= k < |frontier| && frontier[k].state == t;
      assert all[m + k] == frontier[k];
    }
  }

  /** A prefix of a prefix is a prefix. */
  lemma PrefixOfPrefix(a: seq<Node>, b: seq<Node>, c: seq<Node>)
    requires |a| <= |b| <= |c| && b[..|a|] == a && c[..|b|] == b
    ensures c[..|a|] == a
  {
    assert forall k :: 0 <= k < |a| ==> c[k] == b[k];
  }
}
