/**
 `get_nodes_at_depth(depth, outlist)`: collect the nodes `depth` levels
 below a node, left to right, by extending `outlist`. Python passes the list
 by reference and, when the caller omits it, reuses one list shared by all
 such calls (a mutable default argument); here the list is an explicit
 accumulator that goes in and comes back out.
 */
module Frontier {
  import opened Seqs
  import opened Tree

  /** The nodes exactly `depth` levels below `t`, in left-to-right order;
      nothing for `depth <= 0`. */
  function NodesAtDepth<K>(t: Node<K>, depth: int): seq<Node<K>>
    decreases t, 1
  {
    if depth == 1 then t.children
    else if depth > 1 then Flatten(ChildFrontiers(t, depth - 1))
    else []
  }

  /** For each child of `t` in turn, the nodes `depth` levels below it. */
  function ChildFrontiers<K>(t: Node<K>, depth: int): (r: seq<seq<Node<K>>>)
    ensures |r| == |t.children|
    decreases t, 0
  {
    seq(|t.children|, i requires 0 <= i < |t.children| => NodesAtDepth(t.children[i], depth))
  }

  /** The loop of the source: the accumulator ends up holding its old
      contents followed by exactly `NodesAtDepth(t, depth)`. */
  method GetNodesAtDepth<K>(t: Node<K>, depth: int, outlist: seq<Node<K>>) returns (out: seq<Node<K>>)
    ensures out == outlist + NodesAtDepth(t, depth)
    decreases t
  {
    out := outlist;
    if depth == 1 {
      out := out + t.children;
    } else if depth > 1 {
      ghost var parts := ChildFrontiers(t, depth - 1);
      var i := 0;
      while i < |t.children|
        invariant 0 <= i <= |t.children|
        invariant out == outlist + Flatten(parts[..i])
      {
        out := GetNodesAtDepth(t.children[i], depth - 1, out);
        assert parts[..i + 1][..i] == parts[..i];
        i := i + 1;
      }
      assert parts[..|t.children|] == parts;
    }
  }

  /** `n` is reached from `t` by following exactly `d` child links. */
  ghost predicate ReachableAt<K>(t: Node<K>, n: Node<K>, d: nat)
    decreases t
  {
    if d == 0 then n == t
    else exists i :: 0 <= i < |t.children| && ReachableAt(t.children[i], n, d - 1)
  }

  /** A node is collected exactly when it sits `depth >= 1` links below `t`. */
  lemma {:induction false} NodesAtDepthMembers<K>(t: Node<K>, n: Node<K>, depth: int)
    ensures n in NodesAtDepth(t, depth) <==> depth >= 1 && ReachableAt(t, n, depth)
    decreases t
  {
    if depth == 1 {
      if n in t.children {
        var i :| 0 <= i < |t.children| && t.children[i] == n;
        assert ReachableAt(t.children[i], n, 0);
      }
    } else if depth > 1 {
      var parts := ChildFrontiers(t, depth - 1);
      FlattenMember(parts, n);
      forall i | 0 <= i < |t.children|
        ensures n in parts[i] <==> ReachableAt(t.children[i], n, depth - 1)
      {
        NodesAtDepthMembers(t.children[i], n, depth - 1);
      }
    }
  }

  /** The child list of each node of `ns`, in order. */
  function ChildLists<K>(ns: seq<Node<K>>): (r: seq<seq<Node<K>>>)
    ensures |r| == |ns|
    ensures forall i :: 0 <= i < |ns| ==> r[i] == ns[i].children
  {
    seq(|ns|, i requires 0 <= i < |ns| => ns[i].children)
  }

  /** The children of a list of nodes, concatenated in order. */
  function ChildrenOf<K>(ns: seq<Node<K>>): seq<Node<K>> {
    Flatten(ChildLists(ns))
  }

  /** `ChildrenOf` applied to each list of `ss`. */
  function EachChildrenOf<K>(ss: seq<seq<Node<K>>>): (r: seq<seq<Node<K>>>)
    ensures |r| == |ss|
    ensures forall i :: 0 <= i < |ss| ==> r[i] == ChildrenOf(ss[i])
  {
    seq(|ss|, i requires 0 <= i < |ss| => ChildrenOf(ss[i]))
  }

  lemma ChildrenOfAppend<K>(xs: seq<Node<K>>, ys: seq<Node<K>>)
    ensures ChildrenOf(xs + ys) == ChildrenOf(xs) + ChildrenOf(ys)
  {
    assert ChildLists(xs + ys) == ChildLists(xs) + ChildLists(ys);
    FlattenAppend(ChildLists(xs), ChildLists(ys));
  }

  lemma {:induction false} ChildrenOfFlatten<K>(ss: seq<seq<Node<K>>>)
    ensures ChildrenOf(Flatten(ss)) == Flatten(EachChildrenOf(ss))
    decreases |ss|
  {
    if |ss| > 0 {
      var init := ss[..|ss| - 1];
      ChildrenOfFlatten(init);
      ChildrenOfAppend(Flatten(init), ss[|ss| - 1]);
      assert EachChildrenOf(ss)[..|ss| - 1] == EachChildrenOf(init);
    }
  }

  /** One level further down from `t` are the children of the nodes `depth`
      levels down. */
  ghost predicate Deepens<K>(t: Node<K>, depth: int) {
    NodesAtDepth(t, depth + 1) == ChildrenOf(NodesAtDepth(t, depth))
  }

  /** The next frontier is the children of the current one, in order: this is
      how the search deepens one ply at a time. */
  lemma {:induction false} NextFrontier<K>(t: Node<K>, depth: int)
    requires depth >= 1
    ensures Deepens(t, depth)
    decreases t
  {
    if depth == 1 {
      GrandchildFrontier(t);
    } else {
      forall i | 0 <= i < |t.children|
        ensures Deepens(t.children[i], depth - 1)
      {
        NextFrontier(t.children[i], depth - 1);
      }
      NextFrontierFromChildren(t, depth);
    }
  }

  /** The inductive step of `NextFrontier`, given the fact for every child. */
  lemma NextFrontierFromChildren<K>(t: Node<K>, depth: int)
    requires depth >= 2
    requires forall i :: 0 <= i < |t.children| ==> Deepens(t.children[i], depth - 1)
    ensures Deepens(t, depth)
  {
    var here := ChildFrontiers(t, depth - 1);
    ChildrenOfFlatten(here);
    assert ChildFrontiers(t, depth) == EachChildrenOf(here);
  }

  lemma GrandchildFrontier<K>(t: Node<K>)
    ensures NodesAtDepth(t, 2) == ChildrenOf(t.children)
  {
    forall i | 0 <= i < |t.children|
      ensures ChildFrontiers(t, 1)[i] == ChildLists(t.children)[i]
    {
      assert NodesAtDepth(t.children[i], 1) == t.children[i].children;
    }
    assert ChildFrontiers(t, 1) == ChildLists(t.children);
  }
}
