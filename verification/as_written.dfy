/**
 minimax.py as it stands. Its `MinimaxNode` calls `getmaxvaluechild`,
 `getminvaluechild` (in `traverse`) and `getchildren` (in
 `traversealphabeta`) but defines none of them, so each such call raises
 `AttributeError`. This module follows that code path; `Minimax.Traverse` and
 `AlphaBeta.AlphaBeta` are the intended behaviour, with the helpers taken from
 sgtestscripts/minimaxtest.py.
 */
module AsWritten {
  import opened Tree
  import Minimax
  import AlphaBeta
  import opened ExtInt

  /** A call returns a value or raises `AttributeError` for a missing method. */
  datatype Outcome<T> = Returned(value: T) | MissingMethod(name: string)

  /** The name of the max/min helper the node would call. */
  function Helper(maxagent: bool): string {
    if maxagent then "getmaxvaluechild" else "getminvaluechild"
  }

  /** `traverse` as written: recurse into each child in turn, stopping at the
      first exception, then call the missing helper. Nothing is assigned
      before the helper call, so the only possible result is the untouched
      node or an exception. */
  function TraverseAsWritten<K>(t: Node<K>, maxagent: bool): (r: Outcome<Node<K>>)
    ensures IsLeaf(t) || t.hidden ==> r == Returned(t)
    ensures !IsLeaf(t) && !t.hidden ==> r.MissingMethod?
    ensures r.MissingMethod? ==> r.name == Helper(true) || r.name == Helper(false)
    decreases t, 1
  {
    if |t.children| > 0 && !t.hidden then
      match TraverseChildrenAsWritten(t, 0, !maxagent)
      case MissingMethod(n) => MissingMethod(n)
      case Returned(_) => MissingMethod(Helper(maxagent))
    else Returned(t)
  }

  /** The `for child in self.children` loop from child `i` on. */
  function TraverseChildrenAsWritten<K>(t: Node<K>, i: nat, maxagent: bool): (r: Outcome<()>)
    requires i <= |t.children|
    ensures r.MissingMethod? ==> r.name == Helper(true) || r.name == Helper(false)
    decreases t, 0, |t.children| - i
  {
    if i == |t.children| then Returned(())
    else
      match TraverseAsWritten(t.children[i], maxagent)
      case MissingMethod(n) => MissingMethod(n)
      case Returned(_) => TraverseChildrenAsWritten(t, i + 1, maxagent)
  }

  /** `traversealphabeta` as written: the base cases return the stored value;
      every other call reaches `self.getchildren()` first. */
  function AlphaBetaAsWritten<K>(t: Node<K>, depth: int, a: Ext, b: Ext, maxagent: bool): (r: Outcome<int>)
    ensures r.Returned? <==> depth == 0 || IsLeaf(t) || t.hidden
    ensures r.Returned? ==> r.value == t.value
    ensures r.MissingMethod? ==> r.name == "getchildren"
  {
    if depth == 0 || IsLeaf(t) || t.hidden then Returned(t.value)
    else MissingMethod("getchildren")
  }

  /** As written, `traverse` succeeds only where it has nothing to do: on any
      visible node with children it raises. The intended pass succeeds there
      and stores the best child value. */
  lemma TraverseAsWrittenRaises<K>(t: Node<K>, maxagent: bool)
    ensures TraverseAsWritten(t, maxagent).Returned? <==> IsLeaf(t) || t.hidden
    ensures TraverseAsWritten(t, maxagent).Returned? ==>
      TraverseAsWritten(t, maxagent).value == t == Minimax.Traverse(t, maxagent)
  {
  }

  /** The smallest input that shows it: a visible root with one leaf child
      of value 3. As written the call raises; the intended pass returns the
      root with value 3. */
  lemma TraverseCounterexample()
    ensures TraverseAsWritten(Node(0, false, [1], [Node(3, false, [2], [])]), true)
         == MissingMethod("getmaxvaluechild")
    ensures Minimax.Traverse(Node(0, false, [1], [Node(3, false, [2], [])]), true).value == 3
  {
    var leaf := Node(3, false, [2], []);
    var root := Node(0, false, [1], [leaf]);
    assert TraverseChildrenAsWritten(root, 1, false) == Returned(());
    assert Values([leaf]) == [3];
  }

  /** As written, `traversealphabeta` raises on every call that would search
      (depth not zero, visible node with children); the intended search
      returns the children's best result there. */
  lemma AlphaBetaAsWrittenRaises<K>(t: Node<K>, depth: int, a: Ext, b: Ext, maxagent: bool)
    ensures AlphaBetaAsWritten(t, depth, a, b, maxagent).Returned? <==> depth == 0 || IsLeaf(t) || t.hidden
    ensures AlphaBetaAsWritten(t, depth, a, b, maxagent).Returned? ==>
      AlphaBetaAsWritten(t, depth, a, b, maxagent).value == AlphaBeta.AlphaBeta(t, depth, a, b, maxagent).score
  {
  }

  /** The same one-child tree with depth 1 and the full window: as written
      the call raises; the intended search returns 3. */
  lemma AlphaBetaCounterexample()
    ensures AlphaBetaAsWritten(Node(0, false, [1], [Node(3, false, [2], [])]), 1, NegInf, PosInf, true)
         == MissingMethod("getchildren")
    ensures AlphaBeta.AlphaBeta(Node(0, false, [1], [Node(3, false, [2], [])]), 1, NegInf, PosInf, true).score == 3
  {
    var leaf := Node(3, false, [2], []);
    var root := Node(0, false, [1], [leaf]);
    assert AlphaBeta.AlphaBeta(leaf, 0, NegInf, PosInf, false) == AlphaBeta.Search(3, leaf);
  }
}
