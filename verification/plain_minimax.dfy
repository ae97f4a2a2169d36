/**
 The earlier `traverse` of sgtestscripts/minimax.py, whose nodes have no
 pending flag. Its trees are the `Node`s with `hidden` false everywhere
 (`NoHidden`); the pass itself ignores the flag and re-aggregates every
 internal node.
 */
module PlainMinimax {
  import opened Seqs
  import opened Tree
  import Minimax

  function PlainTraverse<K>(t: Node<K>, maxagent: bool): (r: Node<K>)
    ensures IsLeaf(t) ==> r == t
    ensures |r.children| == |t.children|
    ensures !IsLeaf(t) ==> r.value == Best(maxagent, Values(r.children))
    decreases t, 1
  {
    if |t.children| > 0 then
      var cs := PlainChildTraversals(t, !maxagent);
      t.(value := Best(maxagent, Values(cs)), children := cs)
    else t
  }

  /** Each child of `t` after its own plain pass with agent `maxagent`. */
  function PlainChildTraversals<K>(t: Node<K>, maxagent: bool): (r: seq<Node<K>>)
    ensures |r| == |t.children|
    decreases t, 0
  {
    seq(|t.children|, i requires 0 <= i < |t.children| => PlainTraverse(t.children[i], maxagent))
  }

  /** Child `i` of an internal node after the plain pass is that child's own
      pass with the other agent. */
  lemma PlainTraverseChild<K>(t: Node<K>, maxagent: bool, i: int)
    requires 0 <= i < |t.children|
    ensures PlainTraverse(t, maxagent).children[i] == PlainTraverse(t.children[i], !maxagent)
  {
  }

  /** On trees without pending nodes the plain pass and the hidden-aware pass
      of minimax.py / minimaxtest.py compute the same tree. */
  lemma {:induction false} PlainAgreesWithTraverse<K>(t: Node<K>, maxagent: bool)
    requires NoHidden(t)
    ensures PlainTraverse(t, maxagent) == Minimax.Traverse(t, maxagent)
  {
    if |t.children| > 0 {
      var p := PlainTraverse(t, maxagent);
      var h := Minimax.Traverse(t, maxagent);
      forall i | 0 <= i < |t.children|
        ensures p.children[i] == h.children[i]
      {
        PlainTraverseChild(t, maxagent, i);
        Minimax.TraverseChild(t, maxagent, i);
        PlainAgreesWithTraverse(t.children[i], !maxagent);
      }
      assert p.children == h.children;
    }
  }

  /** The plain pass leaves every leaf value as it was and changes nothing but
      internal values. */
  lemma PlainKeepsSkeleton<K>(t: Node<K>, maxagent: bool)
    requires NoHidden(t)
    ensures SameSkeleton(PlainTraverse(t, maxagent), t)
  {
    PlainAgreesWithTraverse(t, maxagent);
    Minimax.TraverseKeepsSkeleton(t, maxagent);
  }

  /** After the plain pass every internal node holds the max of its
      children's values on maximizing levels and the min on the others. */
  lemma PlainSettles<K>(t: Node<K>, maxagent: bool)
    requires NoHidden(t)
    ensures NoHidden(PlainTraverse(t, maxagent))
    ensures Minimax.Settled(PlainTraverse(t, maxagent), maxagent)
  {
    PlainAgreesWithTraverse(t, maxagent);
    Minimax.TraverseFullyConsistent(t, maxagent);
  }

  /** The plain pass is idempotent. */
  lemma PlainIdempotent<K>(t: Node<K>, maxagent: bool)
    requires NoHidden(t)
    ensures PlainTraverse(PlainTraverse(t, maxagent), maxagent) == PlainTraverse(t, maxagent)
  {
    PlainSettles(t, maxagent);
    PlainAgreesWithTraverse(PlainTraverse(t, maxagent), maxagent);
    PlainAgreesWithTraverse(t, maxagent);
    Minimax.TraverseIdempotent(t, maxagent);
  }

  /** The result of the plain pass is the only settled tree that agrees with
      the input on shape and leaf values. */
  lemma {:induction false} SettledTreeIsPlainTraverse<K>(x: Node<K>, t: Node<K>, maxagent: bool)
    requires NoHidden(x) && SameSkeleton(x, t) && Minimax.Settled(x, maxagent)
    ensures x == PlainTraverse(t, maxagent)
  {
    if |t.children| > 0 {
      var p := PlainTraverse(t, maxagent);
      forall i | 0 <= i < |t.children|
        ensures x.children[i] == p.children[i]
      {
        PlainTraverseChild(t, maxagent, i);
        SettledTreeIsPlainTraverse(x.children[i], t.children[i], !maxagent);
      }
      assert x.children == p.children;
    }
  }

  /** The tree computed by the plain pass, root value included, depends only
      on the shape and the leaf values: whatever the internal nodes held
      before is irrelevant. */
  lemma PlainDependsOnlyOnLeaves<K>(t1: Node<K>, t2: Node<K>, maxagent: bool)
    requires NoHidden(t1) && SameSkeleton(t1, t2)
    ensures PlainTraverse(t1, maxagent) == PlainTraverse(t2, maxagent)
  {
    var x := PlainTraverse(t1, maxagent);
    PlainSettles(t1, maxagent);
    PlainKeepsSkeleton(t1, maxagent);
    SkeletonTrans(x, t1, t2);
    SettledTreeIsPlainTraverse(x, t2, maxagent);
  }
}
