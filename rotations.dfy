/**
 The three local repairs of `rebalance` (left turn, right turn, colour
 flip) and one pass of its do-while loop.

 In the Java code each repair rewires the links or colours of existing
 nodes and returns the node now at the top; here each returns the
 rewired subtree as a value.
 */
module Rotations {
  import opened RedBlack

  /**
   `leftTurn`: the red right child is promoted, takes the old top's colour,
   and the old top becomes its red left child.
   */
  function LeftTurn(t: Tree): (u: Tree)
    requires t.Node? && t.right.Node?
    ensures InOrder(u) == InOrder(t)
    ensures u.Node? && u.key == t.right.key && u.color == t.color
    ensures u.left.Node? && u.left.key == t.key && u.left.color == Red
  {
    var x := t.right;
    Node(t.color, Node(Red, t.left, t.key, x.left), x.key, x.right)
  }

  /**
   `rightTurn`: the left child is promoted, takes the old top's colour,
   and the old top becomes its red right child.
   */
  function RightTurn(t: Tree): (u: Tree)
    requires t.Node? && t.left.Node?
    ensures InOrder(u) == InOrder(t)
    ensures u.Node? && u.key == t.left.key && u.color == t.color
    ensures u.right.Node? && u.right.key == t.key && u.right.color == Red
  {
    var x := t.left;
    Node(t.color, x.left, x.key, Node(Red, x.right, t.key, t.right))
  }

  /** `flipColors`: the top turns red and both children black; no key or link moves. */
  function FlipColors(t: Tree): (u: Tree)
    requires t.Node? && t.left.Node? && t.right.Node?
    ensures InOrder(u) == InOrder(t)
    ensures u.Node? && u.color == Red && u.key == t.key
    ensures u.left.Node? && u.left.color == Black && u.left.(color := t.left.color) == t.left
    ensures u.right.Node? && u.right.color == Black && u.right.(color := t.right.color) == t.right
  {
    Node(Red, t.left.(color := Black), t.key, t.right.(color := Black))
  }

  /** The trigger of the first repair: a red right link beside a left link that is not red. */
  predicate LeftTurnDue(t: Tree) {
    t.Node? && IsRed(t.right) && !IsRed(t.left)
  }

  /** The trigger of the second repair: two red left links in a row. */
  predicate RightTurnDue(t: Tree) {
    t.Node? && IsRed(t.left) && IsRed(t.left.left)
  }

  /** The trigger of the third repair: both links red. */
  predicate FlipDue(t: Tree) {
    t.Node? && IsRed(t.left) && IsRed(t.right)
  }

  /** Whether a pass of the loop would fire any repair at t. */
  predicate NeedsBalance(t: Tree) {
    LeftTurnDue(t) || RightTurnDue(t) || FlipDue(t)
  }

  /** The state of one pass after its two turns and before its flip. */
  function Turned(t: Tree): (u: Tree)
    requires t.Node?
    ensures u.Node? && InOrder(u) == InOrder(t) && u.color == t.color
  {
    var t1 := if LeftTurnDue(t) then LeftTurn(t) else t;
    if RightTurnDue(t1) then RightTurn(t1) else t1
  }

  /** One pass of the do-while loop in `rebalance`: the three repairs in order. */
  function Pass(t: Tree): (u: Tree)
    requires t.Node?
    ensures u.Node? && InOrder(u) == InOrder(t)
  {
    var t2 := Turned(t);
    if FlipDue(t2) then FlipColors(t2) else t2
  }

  /** A pass that fires nothing leaves the node as it is. */
  lemma PassIdle(t: Tree)
    requires t.Node? && !NeedsBalance(t)
    ensures Pass(t) == t
  {
  }

  /** A left turn never enables the right turn of the same pass. */
  lemma TurnsExclusive(t: Tree)
    requires LeftTurnDue(t)
    ensures !RightTurnDue(LeftTurn(t))
  {
  }

  /** A right turn always enables the flip of the same pass. */
  lemma RightTurnThenFlip(t: Tree)
    requires RightTurnDue(t)
    ensures FlipDue(RightTurn(t))
  {
  }

  /** After one pass no trigger holds, so the loop's second pass fires nothing. */
  lemma PassSettles(t: Tree)
    requires t.Node?
    ensures !NeedsBalance(Pass(t))
    ensures Pass(Pass(t)) == Pass(t)
  {
    if LeftTurnDue(t) {
      TurnsExclusive(t);
    } else if RightTurnDue(t) {
      RightTurnThenFlip(t);
    }
    PassIdle(Pass(t));
  }

  /** A pass keeps the keys, and keeps them in search-tree order. */
  lemma PassKeepsKeys(t: Tree)
    requires t.Node?
    ensures Keys(Pass(t)) == Keys(t)
    ensures SearchTree(Pass(t)) <==> SearchTree(t)
  {
    SameWalk(t, Pass(t));
  }

  /** A left-leaning node fires no repair, so a pass leaves it unchanged. */
  lemma PassIdentityOnLeftLeaning(t: Tree)
    requires t.Node? && LeftLeaning(t)
    ensures Pass(t) == t
  {
    PassIdle(t);
  }

  lemma LeftTurnBalanced(t: Tree)
    requires t.Node? && IsRed(t.right) && BlackBalanced(t)
    ensures BlackBalanced(LeftTurn(t)) && BlackHeight(LeftTurn(t)) == BlackHeight(t)
  {
  }

  lemma RightTurnBalanced(t: Tree)
    requires t.Node? && IsRed(t.left) && BlackBalanced(t)
    ensures BlackBalanced(RightTurn(t)) && BlackHeight(RightTurn(t)) == BlackHeight(t)
  {
  }

  /** A flip under a black top keeps the black height; under a red top it adds one. */
  lemma FlipBalanced(t: Tree)
    requires FlipDue(t) && BlackBalanced(t)
    ensures BlackBalanced(FlipColors(t))
    ensures BlackHeight(FlipColors(t)) == BlackHeight(t) + (if t.color == Red then 1 else 0)
  {
  }
}
