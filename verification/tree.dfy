/**
 The game-tree node shared by the three versions of `MinimaxNode`: a value, a
 `hidden` flag marking a node whose value is still pending, a name (the tuple
 minimax.py identifies a node by, first entry the move that led to it) and
 the owned, ordered children. Parent links are not stored: a parent is the
 node whose `children` holds the child.
 */
module Tree {
  import opened Seqs

  datatype Node<K> = Node(value: int, hidden: bool, name: seq<K>, children: seq<Node<K>>)

  /** `isleaf()`: a node without children. */
  predicate IsLeaf<K>(t: Node<K>): (r: bool)
    ensures r <==> t.children == []
  {
    |t.children| == 0
  }

  /** The values of a list of nodes, in order (`[i.getvalue() for i in children]`). */
  function Values<K>(cs: seq<Node<K>>): (r: seq<int>)
    ensures |r| == |cs|
    ensures forall i :: 0 <= i < |cs| ==> r[i] == cs[i].value
  {
    seq(|cs|, i requires 0 <= i < |cs| => cs[i].value)
  }

  /** `setvalue(val, unhide)`: overwrite the value and, when `unhide` is set,
      clear the pending flag; nothing else of the node changes. */
  function SetValue<K>(t: Node<K>, v: int, unhide: bool): (r: Node<K>)
    ensures r.value == v
    ensures r.hidden == (t.hidden && !unhide)
    ensures r.(value := t.value, hidden := t.hidden) == t
  {
    if unhide then t.(value := v, hidden := false) else t.(value := v)
  }

  /** `addchildren(cs)`: the new children follow the existing ones, in order. */
  function AddChildren<K>(t: Node<K>, cs: seq<Node<K>>): (r: Node<K>)
    ensures |r.children| == |t.children| + |cs|
    ensures r.children[..|t.children|] == t.children
    ensures r.children[|t.children|..] == cs
    ensures r.(children := t.children) == t
  {
    t.(children := t.children + cs)
  }

  /** `getmaxvaluechild()`: the largest direct child value, hidden children
      included; Python's `max` of an empty list raises, here `None`. */
  function MaxValueChild<K>(t: Node<K>): (r: Option<int>)
    ensures r.Some? <==> !IsLeaf(t)
    ensures r.Some? ==> r.value in Values(t.children)
    ensures r.Some? ==> forall i :: 0 <= i < |t.children| ==> t.children[i].value <= r.value
  {
    if IsLeaf(t) then None else Some(SeqMax(Values(t.children)))
  }

  /** `getminvaluechild()`: the smallest direct child value. */
  function MinValueChild<K>(t: Node<K>): (r: Option<int>)
    ensures r.Some? <==> !IsLeaf(t)
    ensures r.Some? ==> r.value in Values(t.children)
    ensures r.Some? ==> forall i :: 0 <= i < |t.children| ==> r.value <= t.children[i].value
  {
    if IsLeaf(t) then None else Some(SeqMin(Values(t.children)))
  }

  /** `__eq__` of minimax.py: a node equals `o` when the first entry of its
      name is `o`; an empty name makes Python's `name[0]` raise, here `None`. */
  function NameMatches<K(==)>(t: Node<K>, o: K): (r: Option<bool>)
    ensures r.None? <==> |t.name| == 0
    ensures r.Some? ==> (r.value <==> t.name[0] == o)
  {
    if |t.name| == 0 then None else Some(t.name[0] == o)
  }

  /** No node of the tree is pending. */
  ghost predicate NoHidden<K>(t: Node<K>) {
    !t.hidden && forall i :: 0 <= i < |t.children| ==> NoHidden(t.children[i])
  }

  /** Length of the longest root-to-leaf path. */
  function Height<K>(t: Node<K>): (h: nat)
    decreases t, |t.children| + 1
  {
    if IsLeaf(t) then 0 else 1 + MaxChildHeight(t, |t.children|)
  }

  /** The largest height among the first `k` children. */
  function MaxChildHeight<K>(t: Node<K>, k: nat): (h: nat)
    requires k <= |t.children|
    ensures forall i :: 0 <= i < k ==> Height(t.children[i]) <= h
    decreases t, k
  {
    if k == 0 then 0
    else
      var h0 := Height(t.children[k - 1]);
      var h1 := MaxChildHeight(t, k - 1);
      if h0 < h1 then h1 else h0
  }

  /** `x` differs from `y` at most in the values of visible internal nodes:
      same shape, flags and names, same leaf values, and every hidden subtree
      identical. */
  ghost predicate SameSkeleton<K>(x: Node<K>, y: Node<K>) {
    && x.hidden == y.hidden
    && x.name == y.name
    && |x.children| == |y.children|
    && (x.hidden || IsLeaf(x) ==> x == y)
    && forall i :: 0 <= i < |x.children| ==> SameSkeleton(x.children[i], y.children[i])
  }

  lemma {:induction false} SkeletonRefl<K>(t: Node<K>)
    ensures SameSkeleton(t, t)
  {
    forall i | 0 <= i < |t.children| {
      SkeletonRefl(t.children[i]);
    }
  }

  lemma {:induction false} SkeletonTrans<K>(x: Node<K>, y: Node<K>, z: Node<K>)
    requires SameSkeleton(x, y) && SameSkeleton(y, z)
    ensures SameSkeleton(x, z)
  {
    forall i | 0 <= i < |x.children| {
      SkeletonTrans(x.children[i], y.children[i], z.children[i]);
    }
  }

  lemma {:induction false} SkeletonKeepsNoHidden<K>(x: Node<K>, y: Node<K>)
    requires SameSkeleton(x, y) && NoHidden(y)
    ensures NoHidden(x)
  {
    forall i | 0 <= i < |x.children| {
      SkeletonKeepsNoHidden(x.children[i], y.children[i]);
    }
  }
}
