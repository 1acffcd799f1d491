/**
 The node representation of the left-leaning red-black tree and the
 invariants every completed insertion must leave behind: search-tree
 order, left-leaning red links and perfect black balance.

 Java nodes are reached through exactly one parent link, so a subtree
 is modelled as an algebraic value: `Leaf` is a null link and `Node`
 one stored key with its colour and its two children.
 */
module RedBlack {

  datatype Color = Red | Black

  datatype Tree = Leaf | Node(color: Color, left: Tree, key: int, right: Tree)

  /** `Node.isRed` read through a possibly-null link: a null link is never red. */
  /** `Node.isRed` behind the callers' null guards: a null link is never red. */
  predicate IsRed(t: Tree): (r: bool)
    ensures t.Leaf? ==> !r
    ensures t.Node? ==> (r <==> t.color == Red)
  {
    t.Node? && t.color == Red
  }

  function Keys(t: Tree): set<int> {
    match t
    case Leaf => {}
    case Node(_, l, k, r) => Keys(l) + {k} + Keys(r)
  }

  /** The keys met by an in-order walk. */
  function InOrder(t: Tree): seq<int> {
    match t
    case Leaf => []
    case Node(_, l, k, r) => InOrder(l) + [k] + InOrder(r)
  }

  /** Every key in a left subtree is smaller, every key in a right subtree larger. */
  predicate SearchTree(t: Tree) {
    match t
    case Leaf => true
    case Node(_, l, k, r) =>
      && SearchTree(l) && SearchTree(r)
      && (forall x :: x in Keys(l) ==> x < k)
      && (forall x :: x in Keys(r) ==> k < x)
  }

  predicate StrictlyIncreasing(s: seq<int>) {
    forall i, j :: 0 <= i < j < |s| ==> s[i] < s[j]
  }

  /** No right link is red, and no red node has a red left child. */
  predicate LeftLeaning(t: Tree) {
    match t
    case Leaf => true
    case Node(c, l, _, r) =>
      && !IsRed(r)
      && !(c == Red && IsRed(l))
      && LeftLeaning(l) && LeftLeaning(r)
  }

  /**
   What insertion leaves at a subtree whose own top was red: both children
   are left-leaning and the right link is not red, but the top may still
   sit on a red left child. The parent's rebalancing removes that.
   */
  predicate AlmostLeftLeaning(t: Tree) {
    t.Node? && !IsRed(t.right) && LeftLeaning(t.left) && LeftLeaning(t.right)
  }

  /**
   `getBlackHeight(Node)`: the black nodes on the left spine, plus one for
   the null link that ends it.
   */
  function BlackHeight(t: Tree): (h: nat)
    ensures h >= 1
  {
    match t
    case Leaf => 1
    case Node(c, l, _, _) => BlackHeight(l) + (if c == Black then 1 else 0)
  }

  /** Both children of every node have the same black height. */
  predicate BlackBalanced(t: Tree) {
    match t
    case Leaf => true
    case Node(_, l, _, r) =>
      BlackBalanced(l) && BlackBalanced(r) && BlackHeight(l) == BlackHeight(r)
  }

  /** The invariant the tree's root satisfies between two public calls. */
  predicate IsRedBlack(t: Tree) {
    SearchTree(t) && LeftLeaning(t) && BlackBalanced(t) && !IsRed(t)
  }

  lemma {:induction false} InOrderHasKeys(t: Tree)
    ensures forall x :: x in InOrder(t) <==> x in Keys(t)
  {
    match t
    case Leaf =>
    case Node(_, l, _, r) =>
      InOrderHasKeys(l);
      InOrderHasKeys(r);
  }

  lemma SortedJoin(a: seq<int>, k: int, b: seq<int>)
    requires StrictlyIncreasing(a) && StrictlyIncreasing(b)
    requires forall x :: x in a ==> x < k
    requires forall x :: x in b ==> k < x
    ensures StrictlyIncreasing(a + [k] + b)
  {
    var s := a + [k] + b;
    forall i, j | 0 <= i < j < |s| ensures s[i] < s[j] {
      if j < |a| {
        assert s[i] == a[i] && s[j] == a[j];
      } else if j == |a| {
        assert s[i] == a[i] && a[i] in a;
      } else if i > |a| {
        assert s[i] == b[i - |a| - 1] && s[j] == b[j - |a| - 1];
      } else {
        assert s[j] == b[j - |a| - 1] && s[j] in b;
        assert i < |a| ==> s[i] == a[i] && a[i] in a;
      }
    }
  }

  lemma SortedSplit(a: seq<int>, k: int, b: seq<int>)
    requires StrictlyIncreasing(a + [k] + b)
    ensures StrictlyIncreasing(a) && StrictlyIncreasing(b)
    ensures forall x :: x in a ==> x < k
    ensures forall x :: x in b ==> k < x
  {
    var s := a + [k] + b;
    assert s[|a|] == k;
    forall i, j | 0 <= i < j < |a| ensures a[i] < a[j] {
      assert s[i] == a[i] && s[j] == a[j];
    }
    forall i, j | 0 <= i < j < |b| ensures b[i] < b[j] {
      assert s[|a| + 1 + i] == b[i] && s[|a| + 1 + j] == b[j];
    }
    forall x | x in a ensures x < k {
      var i :| 0 <= i < |a| && a[i] == x;
      assert s[i] == x;
    }
    forall x | x in b ensures k < x {
      var i :| 0 <= i < |b| && b[i] == x;
      assert s[|a| + 1 + i] == x;
    }
  }

  /** Search-tree order is exactly a strictly increasing in-order walk. */
  lemma {:induction false} SearchTreeIffSorted(t: Tree)
    ensures SearchTree(t) <==> StrictlyIncreasing(InOrder(t))
  {
    match t
    case Leaf =>
    case Node(_, l, k, r) =>
      SearchTreeIffSorted(l);
      SearchTreeIffSorted(r);
      InOrderHasKeys(l);
      InOrderHasKeys(r);
      if SearchTree(t) {
        SortedJoin(InOrder(l), k, InOrder(r));
      }
      if StrictlyIncreasing(InOrder(t)) {
        SortedSplit(InOrder(l), k, InOrder(r));
      }
  }

  /** Two trees with the same in-order walk hold the same keys in the same order. */
  lemma SameWalk(t: Tree, u: Tree)
    requires InOrder(t) == InOrder(u)
    ensures Keys(t) == Keys(u)
    ensures SearchTree(t) <==> SearchTree(u)
  {
    InOrderHasKeys(t);
    InOrderHasKeys(u);
    SearchTreeIffSorted(t);
    SearchTreeIffSorted(u);
    forall x ensures x in Keys(t) <==> x in Keys(u) {
      assert x in InOrder(t) <==> x in InOrder(u);
    }
  }
}
