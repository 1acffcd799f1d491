/**
 Insertion as values: `InsertInto` is the `addTo` recursion, `Insert` the
 whole of `add` (empty tree, descent, rebalancing of the root, black
 root). The lemmas show that one insertion keeps every invariant of
 `RedBlack.IsRedBlack`, adds exactly the new key, and that a duplicate
 leaves the tree as it was.
 */
module Insertion {
  import opened RedBlack
  import opened Rotations

  /**
   `addTo(node, value)`: descends by comparison, rejects an equal key,
   hangs a new red leaf on a null link, and replaces each child it
   descended into by one rebalancing pass over that child. The node it
   was given stays on top with its colour; the flag says whether a key
   was added.
   */
  function InsertInto(t: Tree, v: int): (res: (Tree, bool))
    requires t.Node?
    ensures res.0.Node? && res.0.key == t.key && res.0.color == t.color
    decreases t
  {
    if t.key == v then (t, false)
    else if t.key > v then
      if t.left.Node? then
        var (l, added) := InsertInto(t.left, v);
        (t.(left := Pass(l)), added)
      else
        (t.(left := Node(Red, Leaf, v, Leaf)), true)
    else
      if t.right.Node? then
        var (r, added) := InsertInto(t.right, v);
        (t.(right := Pass(r)), added)
      else
        (t.(right := Node(Red, Leaf, v, Leaf)), true)
  }

  /**
   `add(value)`: an empty tree gets a black root; otherwise `addTo` runs
   from the root, the root is rebalanced and then painted black.
   */
  function Insert(root: Tree, v: int): (res: (Tree, bool))
    ensures res.0.Node? && res.0.color == Black
    ensures v in Keys(res.0)
  {
    if root.Leaf? then
      (Node(Black, Leaf, v, Leaf), true)
    else
      var (t, added) := InsertInto(root, v);
      InsertIntoKeys(root, v);
      PassKeepsKeys(t);
      (Pass(t).(color := Black), added)
  }

  /**
   What a parent's link holds after the insertion went through it: a new
   red leaf where the link was null, the rebalanced subtree otherwise.
   */
  ghost function Grown(t: Tree, v: int): Tree {
    if t.Leaf? then Node(Red, Leaf, v, Leaf) else Pass(InsertInto(t, v).0)
  }

  /** The descent adds exactly v, keeps search order, and reports whether v was new. */
  lemma {:induction false} InsertIntoKeys(t: Tree, v: int)
    requires t.Node?
    ensures Keys(InsertInto(t, v).0) == Keys(t) + {v}
    ensures SearchTree(t) ==> SearchTree(InsertInto(t, v).0)
    ensures SearchTree(t) ==> InsertInto(t, v).1 == (v !in Keys(t))
  {
    var k := t.key;
    if k == v {
    } else if k > v {
      if t.left.Node? {
        var (l, added) := InsertInto(t.left, v);
        InsertIntoKeys(t.left, v);
        PassKeepsKeys(l);
      }
    } else {
      if t.right.Node? {
        var (r, added) := InsertInto(t.right, v);
        InsertIntoKeys(t.right, v);
        PassKeepsKeys(r);
      }
    }
  }

  /** Blackening the top keeps every link and the left-leaning shape of the children. */
  lemma BlackenKeepsShape(t: Tree)
    requires AlmostLeftLeaning(t) && BlackBalanced(t)
    ensures LeftLeaning(t.(color := Black)) && BlackBalanced(t.(color := Black))
  {
  }

  /** The parent's pass after the insertion went down its left link. */
  lemma GrownLeftStep(c: Color, l: Tree, k: int, r: Tree, g: Tree)
    requires LeftLeaning(Node(c, l, k, r)) && BlackBalanced(Node(c, l, k, r))
    requires g.Node? && AlmostLeftLeaning(g) && (!IsRed(l) ==> LeftLeaning(g))
    requires BlackBalanced(g) && BlackHeight(g) == BlackHeight(l)
    ensures var u := Pass(Node(c, g, k, r));
      && BlackBalanced(u) && BlackHeight(u) == BlackHeight(Node(c, l, k, r))
      && AlmostLeftLeaning(u) && (c == Black ==> LeftLeaning(u))
  {
    var n := Node(c, g, k, r);
    assert BlackBalanced(n);
    if RightTurnDue(n) {
      var m := RightTurn(n);
      RightTurnBalanced(n);
      assert Turned(n) == m;
      RightTurnThenFlip(n);
      FlipBalanced(m);
      BlackenKeepsShape(g.left);
    } else {
      PassIdle(n);
    }
  }

  /** The parent's pass after the insertion went down its right link. */
  lemma GrownRightStep(c: Color, l: Tree, k: int, r: Tree, g: Tree)
    requires LeftLeaning(Node(c, l, k, r)) && BlackBalanced(Node(c, l, k, r))
    requires g.Node? && LeftLeaning(g)
    requires BlackBalanced(g) && BlackHeight(g) == BlackHeight(r)
    ensures var u := Pass(Node(c, l, k, g));
      && BlackBalanced(u) && BlackHeight(u) == BlackHeight(Node(c, l, k, r))
      && AlmostLeftLeaning(u) && (c == Black ==> LeftLeaning(u))
  {
    var n := Node(c, l, k, g);
    assert BlackBalanced(n);
    if !IsRed(g) {
      PassIdle(n);
    } else if IsRed(l) {
      assert Turned(n) == n;
      FlipBalanced(n);
      BlackenKeepsShape(l);
      BlackenKeepsShape(g);
    } else {
      LeftTurnBalanced(n);
      assert Turned(n) == LeftTurn(n);
    }
  }

  /**
   The insertion invariant of a subtree: what the parent's link receives is
   balanced with the same black height, left-leaning below its top, and
   left-leaning outright when the subtree's top was not red.
   */
  lemma {:induction false} GrownShape(t: Tree, v: int)
    requires LeftLeaning(t) && BlackBalanced(t)
    ensures var g := Grown(t, v);
      && g.Node? && BlackBalanced(g) && BlackHeight(g) == BlackHeight(t)
      && AlmostLeftLeaning(g) && (!IsRed(t) ==> LeftLeaning(g))
  {
    if t.Node? {
      var Node(c, l, k, r) := t;
      if k == v {
        PassIdentityOnLeftLeaning(t);
      } else if k > v {
        GrownShape(l, v);
        assert InsertInto(t, v).0 == Node(c, Grown(l, v), k, r);
        GrownLeftStep(c, l, k, r, Grown(l, v));
      } else {
        GrownShape(r, v);
        assert InsertInto(t, v).0 == Node(c, l, k, Grown(r, v));
        GrownRightStep(c, l, k, r, Grown(r, v));
      }
    }
  }

  /**
   `add` keeps the red-black invariants, leaves exactly the old keys plus
   `v`, and returns true exactly when `v` was absent.
   */
  lemma InsertKeepsInvariants(root: Tree, v: int)
    requires IsRedBlack(root)
    ensures IsRedBlack(Insert(root, v).0)
    ensures Keys(Insert(root, v).0) == Keys(root) + {v}
    ensures Insert(root, v).1 == (v !in Keys(root))
  {
    if root.Node? {
      var (t, added) := InsertInto(root, v);
      GrownShape(root, v);
      InsertIntoKeys(root, v);
      PassKeepsKeys(t);
      BlackenKeepsShape(Pass(t));
    }
  }

  /** On a valid subtree that already holds v, the descent and its passes change nothing. */
  lemma {:induction false} InsertIntoPresent(t: Tree, v: int)
    requires t.Node? && SearchTree(t) && LeftLeaning(t) && v in Keys(t)
    ensures InsertInto(t, v) == (t, false)
  {
    if t.key > v {
      InsertIntoPresent(t.left, v);
      PassIdentityOnLeftLeaning(t.left);
    } else if t.key < v {
      InsertIntoPresent(t.right, v);
      PassIdentityOnLeftLeaning(t.right);
    }
  }

  /** Adding a key that is already present returns false and leaves the tree identical. */
  lemma InsertDuplicate(root: Tree, v: int)
    requires IsRedBlack(root) && v in Keys(root)
    ensures Insert(root, v) == (root, false)
  {
    InsertIntoPresent(root, v);
    PassIdentityOnLeftLeaning(root);
  }

  /** Inserting the same key twice gives the same tree as inserting it once. */
  lemma InsertIdempotent(root: Tree, v: int)
    requires IsRedBlack(root)
    ensures Insert(Insert(root, v).0, v) == (Insert(root, v).0, false)
  {
    InsertKeepsInvariants(root, v);
    InsertDuplicate(Insert(root, v).0, v);
  }
}
