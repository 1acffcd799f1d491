/**
 The tree object: a root link and a key counter that `add` updates in
 place, and the three queries over them.
 */
module RBTreeModel {
  import opened RedBlack
  import opened Rotations
  import opened Insertion
  import opened Heights

  class RBTree {
    var root: Tree
    var size: nat

    /** The object invariant: a red-black root, and a counter equal to the number of keys. */
    ghost predicate Valid()
      reads this
    {
      IsRedBlack(root) && size == |Keys(root)|
    }

    constructor ()
      ensures Valid() && root == Leaf && size == 0
    {
      root := Leaf;
      size := 0;
    }

    /** `getSize`: the number of keys held. */
    function GetSize(): (n: nat)
      reads this
      ensures Valid() ==> n == |Keys(root)|
    {
      size
    }

    /**
     `add(value)`: true and one more key when `value` was absent, false and
     the very same tree when it was present; either way the invariants hold.
     */
    method Add(value: int) returns (added: bool)
      requires Valid()
      modifies this
      ensures Valid()
      ensures (root, added) == Insert(old(root), value)
      ensures added == (value !in old(Keys(root)))
      ensures Keys(root) == old(Keys(root)) + {value}
      ensures size == old(size) + (if added then 1 else 0)
      ensures !added ==> root == old(root)
      ensures old(root) == Leaf ==> root == Node(Black, Leaf, value, Leaf) && added
    {
      if root == Leaf {
        root := Node(Black, Leaf, value, Leaf);
        size := size + 1;
        return true;
      }
      var t;
      t, added := AddTo(root, value);
      ghost var passes;
      root, passes := Rebalance(t);
      root := root.(color := Black);
      InsertKeepsInvariants(old(root), value);
      if !added {
        InsertDuplicate(old(root), value);
      }
    }

    /**
     `addTo(node, value)`: the descent below `node`. A new red leaf bumps the
     counter; every child it descended into is rebalanced on the way back.
     */
    method AddTo(node: Tree, value: int) returns (t: Tree, added: bool)
      requires node.Node?
      modifies this`size
      ensures (t, added) == InsertInto(node, value)
      ensures size == old(size) + (if added then 1 else 0)
      decreases node
    {
      if node.key == value {
        return node, false;
      }
      if node.key > value {
        if node.left.Node? {
          var l;
          l, added := AddTo(node.left, value);
          ghost var passes;
          l, passes := Rebalance(l);
          return node.(left := l), added;
        }
        size := size + 1;
        return node.(left := Node(Red, Leaf, value, Leaf)), true;
      }
      if node.right.Node? {
        var r;
        r, added := AddTo(node.right, value);
        ghost var passes;
        r, passes := Rebalance(r);
        return node.(right := r), added;
      }
      size := size + 1;
      return node.(right := Node(Red, Leaf, value, Leaf)), true;
    }

    /**
     `rebalance(node)`: repeats left turn, right turn and flip until a pass
     fires none. The loop stops after one pass when nothing was due and after
     exactly two otherwise, with the result of the first pass, at which no
     repair is due any more.
     */
    method Rebalance(node: Tree) returns (cur: Tree, ghost passes: nat)
      requires node.Node?
      ensures cur == Pass(node) && !NeedsBalance(cur)
      ensures passes == if NeedsBalance(node) then 2 else 1
    {
      cur := node;
      passes := 0;
      var needBalance := true;
      while needBalance
        invariant cur.Node?
        invariant passes <= 2 && (needBalance ==> passes <= 1)
        invariant passes == 0 ==> cur == node && needBalance
        invariant passes > 0 ==> cur == Pass(node)
        invariant passes == 1 ==> needBalance == NeedsBalance(node)
        invariant passes == 2 ==> NeedsBalance(node)
        invariant !needBalance ==> !NeedsBalance(cur)
        decreases 2 - passes
      {
        ghost var before := cur;
        needBalance := false;
        if IsRed(cur.right) && !IsRed(cur.left) {
          needBalance := true;
          cur := LeftTurn(cur);
        }
        if IsRed(cur.left) && IsRed(cur.left.left) {
          needBalance := true;
          cur := RightTurn(cur);
        }
        if IsRed(cur.right) && IsRed(cur.left) {
          needBalance := true;
          cur := FlipColors(cur);
        }
        assert cur == Pass(before) && needBalance == NeedsBalance(before);
        PassSettles(before);
        passes := passes + 1;
      }
    }

    /**
     `getBlackHeight`: 0 for an empty tree, otherwise the black nodes met on
     any root-to-null path, the null link included.
     */
    function GetBlackHeight(): (h: nat)
      reads this
      ensures root == Leaf ==> h == 0
      ensures root != Leaf ==> h >= 1
      ensures Valid() && root != Leaf ==> h >= 2 && forall p :: IsLeafPath(root, p) ==> BlackOnPath(root, p) == h
    {
      if root == Leaf then 0
      else
        BalancedIffUniform(root);
        BlackHeight(root)
    }

    /**
     `getTotalHeight`: 0 for an empty tree, otherwise the number of edges on
     the longest downward path from the root.
     */
    function GetTotalHeight(): (h: nat)
      reads this
      ensures root == Leaf ==> h == 0
      ensures root != Leaf ==> forall p :: IsLeafPath(root, p) ==> |p| <= h + 1
      ensures root != Leaf ==> IsLeafPath(root, LongestPath(root)) && |LongestPath(root)| == h + 1
    {
      if root == Leaf then 0
      else
        NodeHeightIsLongest(root);
        NodeHeight(root) - 1
    }
  }

  /**
   Adding 1, 2 and 3 in turn: the second key is turned to the left under a
   black 2, the third triggers a flip, and the root is painted black again.
   The black height counts the null link, so it reads 2 after one or two
   keys and 3 after three.
   */
  lemma ThreeAscendingKeys()
    ensures var t1 := Insert(Leaf, 1).0;
      t1 == Node(Black, Leaf, 1, Leaf) && BlackHeight(t1) == 2 && NodeHeight(t1) - 1 == 0
    ensures var t2 := Insert(Insert(Leaf, 1).0, 2).0;
      t2 == Node(Black, Node(Red, Leaf, 1, Leaf), 2, Leaf) && BlackHeight(t2) == 2 && NodeHeight(t2) - 1 == 1
    ensures var t3 := Insert(Insert(Insert(Leaf, 1).0, 2).0, 3).0;
      t3 == Node(Black, Node(Black, Leaf, 1, Leaf), 2, Node(Black, Leaf, 3, Leaf))
      && BlackHeight(t3) == 3 && NodeHeight(t3) - 1 == 1
  {
    var leaf1, leaf2, leaf3 := Node(Red, Leaf, 1, Leaf), Node(Red, Leaf, 2, Leaf), Node(Red, Leaf, 3, Leaf);
    var t1 := Node(Black, Leaf, 1, Leaf);
    assert Insert(Leaf, 1).0 == t1;
    var s2 := Node(Black, Leaf, 1, leaf2);
    assert InsertInto(t1, 2).0 == s2;
    assert Turned(s2) == Node(Black, leaf1, 2, Leaf);
    var t2 := Node(Black, leaf1, 2, Leaf);
    assert Pass(s2) == t2;
    assert Insert(t1, 2).0 == t2;
    var s3 := Node(Black, leaf1, 2, leaf3);
    assert InsertInto(t2, 3).0 == s3;
    assert Turned(s3) == s3;
    assert Pass(s3) == Node(Red, Node(Black, Leaf, 1, Leaf), 2, Node(Black, Leaf, 3, Leaf));
  }
}
