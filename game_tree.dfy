/**
 * The depth-bounded game tree that get_tree in tictactoe.py builds, the way
 * it scores each node from its children, and the move minimax takes from
 * the root.
 */
module GameTree {
  import opened Wrappers
  import opened TicTacToe

  /**
   * A node of the tree: its board, the mark to move there and whether that
   * side maximises, the running score, the action that led to it, the index
   * of the best child found (best_choice) and the children.
   */
  datatype TreeNode = TreeNode(board: Board, player: Mark, maximizing: bool, score: int,
                               action: Option<Action>, bestChoice: Option<nat>, children: seq<TreeNode>)

  /** new_node: X maximises from -100, O minimises from 100; no action, no choice, no children yet. */
  function NewNode(b: Board): TreeNode {
    var p := ToMove(b);
    TreeNode(b, p, p == X, if p == X then -100 else 100, None, None, [])
  }

  /** A score strictly better than the current one for the side to move. */
  predicate Improves(maximizing: bool, s: int, current: int) {
    if maximizing then s > current else s < current
  }

  /** The running score and best_choice after a pass over some children's scores. */
  datatype Choice = Choice(score: int, best: Option<nat>)

  /**
   * The scoring pass of get_tree: start from init and take every child score
   * that strictly improves on the running score.  The result is the best of
   * init and all scores, and best is the first child reaching it (none when
   * no child beats init).
   */
  function Choose(maximizing: bool, init: int, scores: seq<int>): (c: Choice)
    ensures forall j :: 0 <= j < |scores| ==> !Improves(maximizing, scores[j], c.score)
    ensures c.best.None? ==> c.score == init
    ensures c.best.Some? ==> c.best.value < |scores| && c.score == scores[c.best.value]
    ensures c.best.Some? ==> Improves(maximizing, c.score, init)
    ensures c.best.Some? ==> forall j :: 0 <= j < c.best.value ==> Improves(maximizing, c.score, scores[j])
  {
    if scores == [] then Choice(init, None)
    else
      var prev := Choose(maximizing, init, scores[..|scores| - 1]);
      var s := scores[|scores| - 1];
      if Improves(maximizing, s, prev.score) then Choice(s, Some(|scores| - 1)) else prev
  }

  function Scores(kids: seq<TreeNode>): (s: seq<int>)
    ensures |s| == |kids| && forall i :: 0 <= i < |kids| ==> s[i] == kids[i].score
  {
    seq(|kids|, i requires 0 <= i < |kids| => kids[i].score)
  }

  /**
   * The tree get_tree(b, depth) returns: at depth 0 a fresh node; otherwise
   * one child per action, in order, scored by the pass above.
   */
  function Tree(b: Board, depth: nat): TreeNode
    decreases depth, 0, 0
  {
    var node := NewNode(b);
    if depth == 0 then node
    else
      ActionsOfSpec(b);
      var kids := Children(b, ActionsOf(b), depth - 1);
      var c := Choose(node.maximizing, node.score, Scores(kids));
      node.(score := c.score, bestChoice := c.best, children := kids)
  }

  /** One subtree per action, in the order of the actions. */
  function Children(b: Board, acts: seq<Action>, d: nat): (kids: seq<TreeNode>)
    requires forall a :: a in acts ==> Legal(b, a)
    decreases d, 1, |acts|
  {
    seq(|acts|, i requires 0 <= i < |acts| => Child(b, acts[i], d))
  }

  /** The subtree below the move a, labelled with a; a terminal board is scored by its utility. */
  function Child(b: Board, a: Action, d: nat): TreeNode
    requires Legal(b, a)
    decreases d, 1, 0
  {
    var sub := Tree(Apply(b, a).value, d);
    sub.(action := Some(a), score := if Terminal(sub.board) then Utility(sub.board) else sub.score)
  }

  /** get_tree at depth 0: no children, no choice, no action, and the initial score of the side to move. */
  lemma TreeLeaf(b: Board)
    ensures Tree(b, 0).children == [] && Tree(b, 0).bestChoice.None? && Tree(b, 0).action.None?
    ensures Tree(b, 0).score == if ToMove(b) == X then -100 else 100
  {
  }

  /**
   * Below depth 0 the children match the actions one to one and in order:
   * the i-th child is the subtree below the i-th action.
   */
  lemma TreeChildren(b: Board, depth: nat)
    requires depth > 0
    ensures |Tree(b, depth).children| == |ActionsOf(b)|
    ensures forall i :: 0 <= i < |ActionsOf(b)| ==>
      Legal(b, ActionsOf(b)[i]) && Tree(b, depth).children[i] == Child(b, ActionsOf(b)[i], depth - 1)
  {
    ActionsOfSpec(b);
    assert Tree(b, depth).children == Children(b, ActionsOf(b), depth - 1);
  }

  /**
   * The child below a legal move a is labelled with a and holds the board a
   * leads to; a terminal board scores its utility, any other the score of
   * its own subtree.
   */
  lemma ChildFacts(b: Board, a: Action, d: nat)
    requires Legal(b, a)
    ensures Child(b, a, d).action == Some(a) && Child(b, a, d).board == Apply(b, a).value
    ensures var nb := Apply(b, a).value;
      Child(b, a, d).score == if Terminal(nb) then Utility(nb) else Tree(nb, d).score
  {
    TreeRoot(Apply(b, a).value, d);
  }

  /** The root of get_tree(b, depth) holds b, has no action, and maximises exactly when X is to move. */
  lemma TreeRoot(b: Board, depth: nat)
    ensures Tree(b, depth).board == b && Tree(b, depth).action.None?
    ensures Tree(b, depth).maximizing <==> ToMove(b) == X
  {
  }

  /**
   * The score of an inner node is the best (max for X, min for O) of its
   * initial score and its children's scores; best_choice is the first child
   * reaching it, and is unset exactly when no child beats the initial score.
   */
  lemma TreeScore(b: Board, depth: nat)
    requires depth > 0
    ensures Tree(b, depth).maximizing <==> ToMove(b) == X
    ensures forall i :: 0 <= i < |Tree(b, depth).children| ==>
      !Improves(Tree(b, depth).maximizing, Tree(b, depth).children[i].score, Tree(b, depth).score)
    ensures !Improves(Tree(b, depth).maximizing, NewNode(b).score, Tree(b, depth).score)
    ensures Tree(b, depth).bestChoice.None? <==>
      forall i :: 0 <= i < |Tree(b, depth).children| ==> !Improves(Tree(b, depth).maximizing, Tree(b, depth).children[i].score, NewNode(b).score)
    ensures Tree(b, depth).bestChoice.None? ==> Tree(b, depth).score == NewNode(b).score
    ensures Tree(b, depth).bestChoice.Some? ==>
      && Tree(b, depth).bestChoice.value < |Tree(b, depth).children|
      && Tree(b, depth).children[Tree(b, depth).bestChoice.value].score == Tree(b, depth).score
      && forall i :: 0 <= i < Tree(b, depth).bestChoice.value ==>
           Improves(Tree(b, depth).maximizing, Tree(b, depth).score, Tree(b, depth).children[i].score)
  {
    var t := Tree(b, depth);
    var init := NewNode(b).score;
    var scores := Scores(t.children);
    ActionsOfSpec(b);
    assert t.children == Children(b, ActionsOf(b), depth - 1);
    assert Choice(t.score, t.bestChoice) == Choose(t.maximizing, init, scores);
    if t.bestChoice.Some? {
      var k := t.bestChoice.value;
      assert scores[k] == t.children[k].score;
    }
  }

  /** get_tree keeps expanding below a board that is already won, as long as a cell is empty. */
  lemma ExpandsBelowWin(b: Board, depth: nat)
    requires depth > 0 && Winner(b).Some? && HasEmpty(b)
    ensures |Tree(b, depth).children| > 0
  {
    HasEmptyIffActions(b);
    TreeChildren(b, depth);
  }

  /** A child at depth 0 on a board that is not over keeps its initial ±100 score. */
  lemma LeafChildKeepsInitialScore(b: Board, a: Action)
    requires Legal(b, a) && !Terminal(Apply(b, a).value)
    ensures Child(b, a, 0).score == if ToMove(Apply(b, a).value) == X then -100 else 100
    ensures Child(b, a, 0).score != Utility(Apply(b, a).value)
  {
  }

  /** One pass of get_tree's expansion loop: the subtree below a, labelled, and scored by utility when terminal. */
  method Subtree(b: Board, a: Action, d: nat) returns (child: TreeNode)
    requires Legal(b, a)
    ensures child == Child(b, a, d)
    decreases d, 1
  {
    var newBoard := Result(b, a);
    child := GetTree(newBoard.value, d);
    TreeRoot(newBoard.value, d);
    child := child.(action := Some(a));
    if Terminal(newBoard.value) {
      child := child.(score := Utility(newBoard.value));
    }
  }

  /** The expansion loop of get_tree: one subtree per action, in order. */
  method ExpandAll(b: Board, possible: seq<Action>, d: nat) returns (kids: seq<TreeNode>)
    requires forall a :: a in possible ==> Legal(b, a)
    ensures kids == Children(b, possible, d)
    decreases d, 2
  {
    kids := [];
    var k := 0;
    while k < |possible|
      invariant 0 <= k <= |possible| && |kids| == k
      invariant forall j :: 0 <= j < k ==> kids[j] == Child(b, possible[j], d)
    {
      var a := possible[k];
      assert a in possible;
      var child := Subtree(b, a, d);
      kids := kids + [child];
      k := k + 1;
    }
  }

  /**
   * The scoring loop of get_tree: walk the children in order and keep each
   * score that strictly improves on the running one, with its index.
   */
  method ScoreChildren(start: TreeNode) returns (node: TreeNode)
    requires start.bestChoice.None?
    ensures var c := Choose(start.maximizing, start.score, Scores(start.children));
      node == start.(score := c.score, bestChoice := c.best)
  {
    node := start;
    var i := 0;
    while i < |node.children|
      invariant 0 <= i <= |start.children|
      invariant node == start.(score := node.score, bestChoice := node.bestChoice)
      invariant Choice(node.score, node.bestChoice) == Choose(start.maximizing, start.score, Scores(start.children[..i]))
    {
      var child := node.children[i];
      assert Scores(start.children[..i + 1])[..i] == Scores(start.children[..i]);
      if node.maximizing {
        if child.score > node.score {
          node := node.(bestChoice := Some(i), score := child.score);
        }
      } else {
        if child.score < node.score {
          node := node.(bestChoice := Some(i), score := child.score);
        }
      }
      i := i + 1;
    }
    assert start.children[..i] == start.children;
  }

  /** Builds the tree node by node as get_tree does: expand every action, then score the children. */
  method GetTree(b: Board, depth: nat) returns (node: TreeNode)
    ensures node == Tree(b, depth)
    decreases depth, 0
  {
    node := NewNode(b);
    var possible := Actions(b);
    if depth == 0 {
      node := node.(action := None);
      return;
    }
    var kids := ExpandAll(b, possible, depth - 1);
    node := node.(children := kids);
    node := ScoreChildren(node);
  }

  /**
   * minimax: the action of the best child of the depth-7 tree; when no child
   * beats the initial score, the action at position pick (standing for the
   * random draw) among the moves; with no move at all, the root's unset action.
   */
  method Minimax(b: Board, pick: nat) returns (choice: Option<Action>)
    ensures choice.Some? ==> Legal(b, choice.value) && choice.value in ActionsOf(b)
    ensures choice.None? <==> !HasEmpty(b)
    ensures Tree(b, 7).bestChoice.Some? ==> choice == Tree(b, 7).children[Tree(b, 7).bestChoice.value].action
  {
    var stateSpace := GetTree(b, 7);
    TreeChildren(b, 7);
    TreeScore(b, 7);
    HasEmptyIffActions(b);
    ActionsOfSpec(b);
    if stateSpace.bestChoice.Some? {
      var best := stateSpace.children[stateSpace.bestChoice.value];
      choice := best.action;
    } else if stateSpace.children != [] {
      var possible := Actions(b);
      choice := Some(possible[pick % |possible|]);
    } else {
      choice := stateSpace.action;
    }
  }
}
