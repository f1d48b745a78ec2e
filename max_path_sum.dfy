/**
 * Maximum path sum in a binary tree. `helper` returns the best downward
 * gain of a subtree and, as it goes, raises the running best
 * `val + left gain + right gain` over every node, where a child's gain
 * counts only when positive. The running best starts at minus infinity,
 * which is `None` here, so an empty tree has no best.
 */
module MaxPathSum {
  import opened Wrappers

  datatype Tree = Nil | Node(val: int, left: Tree, right: Tree)

  function Max(a: int, b: int): int {
    if a >= b then a else b
  }

  /** `max(best, x)` with `None` as minus infinity. */
  function Raise(best: Option<int>, x: int): (r: Option<int>)
    ensures r.Some? && r.value >= x
    ensures best.Some? ==> r.value >= best.value
    ensures r.value == x || (best.Some? && r.value == best.value)
  {
    if best.Some? && best.value >= x then best else Some(x)
  }

  /** The best sum of a path going down from the root of `t`; 0 for the empty tree. */
  function Gain(t: Tree): (r: int)
    ensures t.Nil? ==> r == 0
    ensures t.Node? ==> r >= t.val
  {
    match t
    case Nil => 0
    case Node(v, l, r) => v + Max(Max(Gain(l), 0), Max(Gain(r), 0))
  }

  /** The best path bending at the root: the value plus the positive gains of both sides. */
  function Through(t: Tree): int
    requires t.Node?
  {
    t.val + Max(Gain(t.left), 0) + Max(Gain(t.right), 0)
  }

  /** The non-empty subtrees, root first. */
  function Nodes(t: Tree): (r: seq<Tree>)
    ensures forall n :: n in r ==> n.Node?
    ensures t.Node? ==> t in r
  {
    match t
    case Nil => []
    case Node(_, l, r) => [t] + Nodes(l) + Nodes(r)
  }

  /** `max` of two running bests. */
  function Join(a: Option<int>, b: Option<int>): Option<int> {
    match b
    case None => a
    case Some(x) => Raise(a, x)
  }

  /** The largest `Through` over the nodes of `t`, or `None` for the empty tree. */
  function Best(t: Tree): Option<int> {
    match t
    case Nil => None
    case Node(_, l, r) => Raise(Join(Best(l), Best(r)), Through(t))
  }

  /**
   * `helper(node)` with the running best `best`: returns the gain of the
   * subtree and the running best raised over the subtree's nodes, visiting
   * left, right, then the node itself.
   */
  method Helper(t: Tree, best: Option<int>) returns (gain: int, best': Option<int>)
    ensures gain == Gain(t)
    ensures t.Nil? ==> gain == 0 && best' == best
    ensures best' == Join(best, Best(t))
    decreases t
  {
    if t.Nil? {
      return 0, best;
    }
    var leftGain, rightGain;
    leftGain, best' := Helper(t.left, best);
    leftGain := Max(leftGain, 0);
    rightGain, best' := Helper(t.right, best');
    rightGain := Max(rightGain, 0);
    var current := t.val + leftGain + rightGain;
    best' := Raise(best', current);
    gain := t.val + Max(leftGain, rightGain);
    RaiseRegroups(best, Best(t.left), Best(t.right), current);
  }

  /** Raising the running best over the left part, the right part and the node in turn is raising it over their maximum. */
  lemma RaiseRegroups(a: Option<int>, l: Option<int>, r: Option<int>, x: int)
    ensures Raise(Join(Join(a, l), r), x) == Join(a, Raise(Join(l, r), x))
  {
  }

  /** `maxPathSum`: the running best after visiting the whole tree. */
  method MaxPathSum(root: Tree) returns (r: Option<int>)
    ensures r == Best(root)
  {
    var _, best := Helper(root, None);
    r := best;
  }

  /**
   * For a non-empty tree the result is the largest `Through` over its
   * nodes: it is attained by some node and no node exceeds it; the empty
   * tree has none.
   */
  lemma {:induction false} BestIsMaximum(t: Tree)
    ensures t.Nil? <==> Best(t).None?
    ensures t.Node? ==>
      (forall n :: n in Nodes(t) ==> Through(n) <= Best(t).value)
      && (exists n :: n in Nodes(t) && Through(n) == Best(t).value)
  {
    match t
    case Nil =>
    case Node(_, l, r) =>
      BestIsMaximum(l);
      BestIsMaximum(r);
      var b := Best(t).value;
      assert Nodes(t) == [t] + Nodes(l) + Nodes(r);
      if b != Through(t) {
        var c := Join(Best(l), Best(r));
        assert c.Some? && b == c.value;
        if r.Node? && b == Best(r).value {
          var n :| n in Nodes(r) && Through(n) == b;
          assert n in Nodes(t);
        } else {
          var n :| n in Nodes(l) && Through(n) == b;
          assert n in Nodes(t);
        }
      }
  }

  /** The result is at least the value of every node, since gains taken from children are never negative. */
  lemma BestAtLeastEveryValue(t: Tree)
    requires t.Node?
    ensures forall n :: n in Nodes(t) ==> n.val <= Best(t).value
  {
    BestIsMaximum(t);
    forall n | n in Nodes(t)
      ensures n.val <= Best(t).value
    {
      assert n.val <= Through(n);
    }
  }

  /** The tree `[-10, 9, 20, null, null, 15, 7]`: the best path 15 -> 20 -> 7 sums to 42. */
  const Example := Node(-10, Node(9, Nil, Nil), Node(20, Node(15, Nil, Nil), Node(7, Nil, Nil)))

  lemma ExampleIs42()
    ensures Best(Example) == Some(42)
  {
    Cherry(20, 15, 7);
    Cherry(-10, 9, 35);
    var right := Node(20, Node(15, Nil, Nil), Node(7, Nil, Nil));
    assert Best(Example) == Raise(Join(Best(Node(9, Nil, Nil)), Best(right)), Through(Example));
  }

  /** A node over two leaves. */
  lemma Cherry(v: int, a: int, b: int)
    ensures var t := Node(v, Node(a, Nil, Nil), Node(b, Nil, Nil));
      Gain(t) == v + Max(Max(a, 0), Max(b, 0))
      && Through(t) == v + Max(a, 0) + Max(b, 0)
      && Best(Node(a, Nil, Nil)) == Some(a) && Best(Node(b, Nil, Nil)) == Some(b)
  {
    LeafBest(a);
    LeafBest(b);
  }

  lemma LeafBest(v: int)
    ensures Gain(Node(v, Nil, Nil)) == v && Best(Node(v, Nil, Nil)) == Some(v)
  {
    assert Through(Node(v, Nil, Nil)) == v;
  }
}
