/**
 * Search nodes and the FIFO frontier of the degrees search.  A node's parent
 * is an index into the arena of nodes that have already been expanded, in
 * place of the parent reference degrees.py keeps.
 */
module Frontier {
  import opened Wrappers
  import opened CoStarGraph

  datatype Node = Node(state: State, parent: Option<nat>)

  /** True when some node of the sequence holds state s. */
  predicate HoldsState(nodes: seq<Node>, s: State) {
    exists k :: 0 <= k < |nodes| && nodes[k].state == s
  }

  /** A first-in first-out frontier over a list of nodes. */
  class QueueFrontier {
    var frontier: seq<Node>

    constructor ()
      ensures frontier == []
    {
      frontier := [];
    }

    /** Appends a node; no duplicate check (callers ask ContainsState first). */
    method Add(node: Node)
      modifies this
      ensures frontier == old(frontier) + [node]
    {
      frontier := frontier + [node];
    }

    /** Scans the frontier for a node whose state equals s (whole-state equality). */
    method ContainsState(s: State) returns (found: bool)
      ensures found <==> HoldsState(frontier, s)
    {
      var k := 0;
      while k < |frontier|
        invariant 0 <= k <= |frontier|
        invariant forall i :: 0 <= i < k ==> frontier[i].state != s
      {
        if frontier[k].state == s {
          return true;
        }
        k := k + 1;
      }
      return false;
    }

    method Empty() returns (empty: bool)
      ensures empty <==> frontier == []
    {
      return |frontier| == 0;
    }

    /** Removes and returns the earliest added node; removing from an empty frontier is an error of the caller. */
    method Remove() returns (node: Node)
      requires frontier != []
      modifies this
      ensures node == old(frontier)[0] && frontier == old(frontier)[1..]
    {
      node := frontier[0];
      frontier := frontier[1..];
    }
  }
}
