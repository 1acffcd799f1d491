/**
 The two height queries and what they measure. A root-to-null path is a
 sequence of steps (false goes left, true goes right) ending at a null
 link; `getBlackHeight` measures one such path, the left spine, and
 `getTotalHeight` the longest one.
 */
module Heights {
  import opened RedBlack

  /** p leads from the top of t down to a null link. */
  ghost predicate IsLeafPath(t: Tree, p: seq<bool>)
    decreases t
  {
    match t
    case Leaf => p == []
    case Node(_, l, _, r) => |p| > 0 && IsLeafPath(if p[0] then r else l, p[1..])
  }

  /** Black nodes met along p, plus one for the null link at its end. */
  ghost function BlackOnPath(t: Tree, p: seq<bool>): nat
    requires IsLeafPath(t, p)
    decreases t
  {
    match t
    case Leaf => 1
    case Node(c, l, _, r) =>
      (if c == Black then 1 else 0) + BlackOnPath(if p[0] then r else l, p[1..])
  }

  ghost function LeftSpine(t: Tree): seq<bool> {
    match t
    case Leaf => []
    case Node(_, l, _, _) => [false] + LeftSpine(l)
  }

  /**
   `getTotalHeight(Node)`: the number of nodes on the longest path from t
   down to a null link.
   */
  function NodeHeight(t: Tree): (h: nat)
    ensures h == 0 <==> t.Leaf?
  {
    match t
    case Leaf => 0
    case Node(_, l, _, r) =>
      var leftHeight := NodeHeight(l) + 1;
      var rightHeight := NodeHeight(r) + 1;
      if leftHeight >= rightHeight then leftHeight else rightHeight
  }

  ghost function LongestPath(t: Tree): seq<bool> {
    match t
    case Leaf => []
    case Node(_, l, _, r) =>
      if NodeHeight(l) >= NodeHeight(r) then [false] + LongestPath(l) else [true] + LongestPath(r)
  }

  /** `getBlackHeight(Node)` counts the black nodes of the left spine plus the null link. */
  lemma {:induction false} LeftSpineBlack(t: Tree)
    ensures IsLeafPath(t, LeftSpine(t))
    ensures BlackOnPath(t, LeftSpine(t)) == BlackHeight(t)
  {
    match t
    case Leaf =>
    case Node(_, l, _, _) =>
      LeftSpineBlack(l);
      assert LeftSpine(t)[1..] == LeftSpine(l);
  }

  /** Every root-to-null path meets as many black nodes as the left spine. */
  ghost predicate UniformBlack(t: Tree) {
    forall p :: IsLeafPath(t, p) ==> BlackOnPath(t, p) == BlackHeight(t)
  }

  /** Under black balance every root-to-null path meets as many black nodes as the left spine. */
  lemma {:induction false} BalancedPathsUniform(t: Tree)
    requires BlackBalanced(t)
    ensures UniformBlack(t)
  {
    match t
    case Leaf =>
    case Node(c, l, k, r) =>
      BalancedPathsUniform(l);
      BalancedPathsUniform(r);
      var b := if c == Black then 1 else 0;
      forall p | IsLeafPath(t, p) ensures BlackOnPath(t, p) == BlackHeight(t) {
        var child := if p[0] then r else l;
        assert IsLeafPath(child, p[1..]);
        assert BlackOnPath(t, p) == b + BlackOnPath(child, p[1..]);
      }
  }

  /** Paths that all meet as many black nodes as the left spine make the tree black-balanced. */
  lemma {:induction false} UniformPathsBalanced(t: Tree)
    requires UniformBlack(t)
    ensures BlackBalanced(t)
  {
    match t
    case Leaf =>
    case Node(c, l, k, r) =>
      var b := if c == Black then 1 else 0;
      forall p | IsLeafPath(l, p) ensures BlackOnPath(l, p) == BlackHeight(l) {
        var q := [false] + p;
        assert q[1..] == p;
        assert IsLeafPath(t, q);
        assert BlackOnPath(t, q) == b + BlackOnPath(l, p);
      }
      forall p | IsLeafPath(r, p) ensures BlackOnPath(r, p) == BlackHeight(l) {
        var q := [true] + p;
        assert q[1..] == p;
        assert IsLeafPath(t, q);
        assert BlackOnPath(t, q) == b + BlackOnPath(r, p);
      }
      LeftSpineBlack(r);
      UniformPathsBalanced(l);
      UniformPathsBalanced(r);
  }

  /**
   Black balance holds exactly when every root-to-null path meets as many
   black nodes as the left spine, so measuring one path measures them all.
   */
  lemma BalancedIffUniform(t: Tree)
    ensures BlackBalanced(t) <==> UniformBlack(t)
  {
    if BlackBalanced(t) {
      BalancedPathsUniform(t);
    }
    if UniformBlack(t) {
      UniformPathsBalanced(t);
    }
  }

  /** `getTotalHeight(Node)` is the length of a longest root-to-null path. */
  lemma {:induction false} NodeHeightIsLongest(t: Tree)
    ensures forall p :: IsLeafPath(t, p) ==> |p| <= NodeHeight(t)
    ensures IsLeafPath(t, LongestPath(t)) && |LongestPath(t)| == NodeHeight(t)
  {
    match t
    case Leaf =>
    case Node(_, l, _, r) =>
      NodeHeightIsLongest(l);
      NodeHeightIsLongest(r);
      forall p | IsLeafPath(t, p) ensures |p| <= NodeHeight(t) {
        assert IsLeafPath(if p[0] then r else l, p[1..]);
      }
      if NodeHeight(l) >= NodeHeight(r) {
        assert LongestPath(t)[1..] == LongestPath(l);
      } else {
        assert LongestPath(t)[1..] == LongestPath(r);
      }
  }

  function Pow2(n: nat): (p: nat)
    ensures p >= 1
  {
    if n == 0 then 1 else 2 * Pow2(n - 1)
  }

  lemma {:induction false} Pow2Monotone(m: nat, n: nat)
    requires m <= n
    ensures Pow2(m) <= Pow2(n)
  {
    if m < n {
      Pow2Monotone(m, n - 1);
    }
  }

  /** Every path has at most one red node beside each black one. */
  lemma {:induction false} HeightWithinTwiceBlack(t: Tree)
    requires LeftLeaning(t) && BlackBalanced(t)
    ensures NodeHeight(t) + 2 <= 2 * BlackHeight(t) + (if IsRed(t) then 1 else 0)
  {
    match t
    case Leaf =>
    case Node(_, l, _, r) =>
      HeightWithinTwiceBlack(l);
      HeightWithinTwiceBlack(r);
  }

  /** In a search tree the keys of the two subtrees and the node's own are disjoint. */
  lemma NodeKeyCount(t: Tree)
    requires t.Node? && SearchTree(t)
    ensures |Keys(t)| == |Keys(t.left)| + 1 + |Keys(t.right)|
  {
    var a, k, b := Keys(t.left), t.key, Keys(t.right);
    var ak := a + {k};
    assert k !in a;
    assert |ak| == |a| + 1;
    assert forall x :: x in ak ==> x !in b;
    assert ak * b == {};
    assert Keys(t) == ak + b;
  }

  lemma DoublingStep(black: bool, ht: nat, hl: nat, nl: nat, nr: nat)
    requires hl >= 1 && ht == hl + (if black then 1 else 0)
    requires Pow2(hl - 1) <= nl + 1 && Pow2(hl - 1) <= nr + 1
    ensures Pow2(ht - 1) <= nl + 1 + nr + 1
  {
    if black {
      assert Pow2(ht - 1) == 2 * Pow2(hl - 1);
    }
  }

  /** A balanced search tree of black height h holds at least 2^(h-1) - 1 keys. */
  lemma {:induction false} KeysAtLeast(t: Tree)
    requires SearchTree(t) && BlackBalanced(t)
    ensures Pow2(BlackHeight(t) - 1) <= |Keys(t)| + 1
  {
    match t
    case Leaf =>
    case Node(c, l, k, r) =>
      var ht, hl, nl, nr := BlackHeight(t), BlackHeight(l), |Keys(l)|, |Keys(r)|;
      KeysAtLeast(l);
      KeysAtLeast(r);
      assert ht == hl + (if c == Black then 1 else 0);
      NodeKeyCount(t);
      DoublingStep(c == Black, ht, hl, nl, nr);
  }

  /** Half the height, rounded up, stays within the black nodes below the root. */
  lemma HalfHeightBound(h: nat, b: nat)
    requires h + 2 <= 2 * b
    ensures (h + 1) / 2 <= b - 1
  {
  }

  /**
   The logarithmic height bound: a valid tree of n keys has
   2^ceil(NodeHeight / 2) <= n + 1, so NodeHeight <= 2 log2(n + 1) and its
   edge height is at most 2 log2(n + 1) - 1.
   */
  lemma LogarithmicHeight(t: Tree)
    requires IsRedBlack(t)
    ensures Pow2((NodeHeight(t) + 1) / 2) <= |Keys(t)| + 1
  {
    var h, b, n := NodeHeight(t), BlackHeight(t), |Keys(t)|;
    HeightWithinTwiceBlack(t);
    HalfHeightBound(h, b);
    var e := (h + 1) / 2;
    KeysAtLeast(t);
    assert Pow2(b - 1) <= n + 1;
    Pow2Monotone(e, b - 1);
    assert Pow2(e) <= Pow2(b - 1);
  }
}
