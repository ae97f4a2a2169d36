/**
 The hidden-aware minimax pass `traverse(maxagent)` of minimax.py and
 sgtestscripts/minimaxtest.py (the two bodies are the same). A leaf or a
 hidden node is left alone together with its whole subtree; any other node
 first re-traverses every child with the other agent and then takes the max
 (maximizing agent) or min of the children's new values. In minimax.py the
 max/min helpers are missing from the class; their meaning is taken from
 sgtestscripts/minimaxtest.py, as `Tree.MaxValueChild` / `Tree.MinValueChild`.
 */
module Minimax {
  import opened Seqs
  import opened Tree

  function Traverse<K>(t: Node<K>, maxagent: bool): (r: Node<K>)
    ensures IsLeaf(t) || t.hidden ==> r == t
    ensures |r.children| == |t.children|
    ensures !IsLeaf(t) && !t.hidden ==> r.value == Best(maxagent, Values(r.children))
    decreases t, 1
  {
    if |t.children| > 0 && !t.hidden then
      var cs := ChildTraversals(t, !maxagent);
      t.(value := Best(maxagent, Values(cs)), children := cs)
    else t
  }

  /** Each child of `t` after its own pass with agent `maxagent`, in order. */
  function ChildTraversals<K>(t: Node<K>, maxagent: bool): (r: seq<Node<K>>)
    ensures |r| == |t.children|
    decreases t, 0
  {
    seq(|t.children|, i requires 0 <= i < |t.children| => Traverse(t.children[i], maxagent))
  }

  /** Child `i` of a visible internal node after the pass is that child's own
      pass with the other agent. */
  lemma TraverseChild<K>(t: Node<K>, maxagent: bool, i: int)
    requires !IsLeaf(t) && !t.hidden && 0 <= i < |t.children|
    ensures Traverse(t, maxagent).children[i] == Traverse(t.children[i], !maxagent)
  {
  }

  /** Every visible internal node reachable through visible ancestors holds the
      max (maximizing level) or min of its children's values, the agent
      alternating per level. Leaves and hidden nodes are not constrained. */
  ghost predicate Settled<K>(t: Node<K>, maxagent: bool) {
    IsLeaf(t) || t.hidden ||
      (&& t.value == Best(maxagent, Values(t.children))
       && forall i :: 0 <= i < |t.children| ==> Settled(t.children[i], !maxagent))
  }

  /** After `traverse`, the tree is settled (minimax consistency). */
  lemma {:induction false} TraverseSettles<K>(t: Node<K>, maxagent: bool)
    ensures Settled(Traverse(t, maxagent), maxagent)
  {
    if |t.children| > 0 && !t.hidden {
      var r := Traverse(t, maxagent);
      forall i | 0 <= i < |t.children|
        ensures Settled(r.children[i], !maxagent)
      {
        TraverseChild(t, maxagent, i);
        TraverseSettles(t.children[i], !maxagent);
      }
    }
  }

  /** `traverse` only rewrites values of visible internal nodes: the shape,
      flags, names, child order, leaf values and hidden subtrees are kept. */
  lemma {:induction false} TraverseKeepsSkeleton<K>(t: Node<K>, maxagent: bool)
    ensures SameSkeleton(Traverse(t, maxagent), t)
  {
    if |t.children| > 0 && !t.hidden {
      var r := Traverse(t, maxagent);
      forall i | 0 <= i < |t.children|
        ensures SameSkeleton(r.children[i], t.children[i])
      {
        TraverseChild(t, maxagent, i);
        TraverseKeepsSkeleton(t.children[i], !maxagent);
      }
    } else {
      SkeletonRefl(t);
    }
  }

  /** A settled tree is a fixpoint of `traverse`; with `TraverseSettles` this
      makes `Traverse(t, m) == t` equivalent to `Settled(t, m)`. */
  lemma {:induction false} SettledIsFixpoint<K>(t: Node<K>, maxagent: bool)
    requires Settled(t, maxagent)
    ensures Traverse(t, maxagent) == t
  {
    if |t.children| > 0 && !t.hidden {
      var r := Traverse(t, maxagent);
      forall i | 0 <= i < |t.children|
        ensures r.children[i] == t.children[i]
      {
        TraverseChild(t, maxagent, i);
        SettledIsFixpoint(t.children[i], !maxagent);
      }
      assert r.children == t.children;
    }
  }

  lemma TraverseFixpointIffSettled<K>(t: Node<K>, maxagent: bool)
    ensures Traverse(t, maxagent) == t <==> Settled(t, maxagent)
  {
    TraverseSettles(t, maxagent);
    if Settled(t, maxagent) {
      SettledIsFixpoint(t, maxagent);
    }
  }

  /** Running `traverse` twice gives the same tree as running it once. */
  lemma TraverseIdempotent<K>(t: Node<K>, maxagent: bool)
    ensures Traverse(Traverse(t, maxagent), maxagent) == Traverse(t, maxagent)
  {
    TraverseSettles(t, maxagent);
    SettledIsFixpoint(Traverse(t, maxagent), maxagent);
  }

  /** With no hidden node, after `traverse` every internal node at every
      level holds the max or min of its children's values. */
  lemma {:induction false} TraverseFullyConsistent<K>(t: Node<K>, maxagent: bool)
    requires NoHidden(t)
    ensures NoHidden(Traverse(t, maxagent))
    ensures Settled(Traverse(t, maxagent), maxagent)
  {
    TraverseSettles(t, maxagent);
    TraverseKeepsSkeleton(t, maxagent);
    SkeletonKeepsNoHidden(Traverse(t, maxagent), t);
  }
}
