# Game-tree search of sgchess2, modelled in Dafny

sgchess2 is a chess engine. It evaluates positions with a neural network and
searches a game tree of `MinimaxNode`s. Each node carries a value, a
`hidden` flag for a node whose evaluation is still pending, a name tuple
and its ordered children. This project models that search core as pure
functions over an inductive tree:

- `Tree`: the node, plus `setvalue`, `addchildren`, `isleaf`,
  `getmaxvaluechild` / `getminvaluechild` and the name-key `__eq__`.
- `Minimax`: the hidden-aware minimax pass `traverse`, shared by minimax.py
  and sgtestscripts/minimaxtest.py.
- `PlainMinimax`: the earlier `traverse` of sgtestscripts/minimax.py. Its
  nodes have no pending flag.
- `AlphaBeta`: `traversealphabeta`. The loop over the children is the
  tail-recursive `Scan`, and `±inf` is the extended integer of `ExtInt`.
- `Frontier`: `get_nodes_at_depth`, with its output list made an explicit
  accumulator.
- `Board`, `Moves`, `Bitboard`, `EvalCache`: the python-chess queries the
  engine makes, the move classifiers of functions.py and of the thread test
  script, the 772-entry network input `convert_fen_to_bitboard`, and the
  FEN-keyed evaluation cache `get_eval`.
- `AsWritten`: minimax.py as it stands. It calls helper methods it never
  defines (see Findings).
- `Seqs`: max/min of a list, flattening, and the order-preserving filter
  that the list comprehensions compute.

Python updates the tree in place. Here every operation returns the new tree
(alpha-beta returns its score together with the new tree). The chess library
is not modelled: `legal_moves`, `gives_check`, `is_capture`, `pieces`, the
castling queries and `fen` are fields of a `Board` value that hold
arbitrary functions. The evaluator's `model.predict` is a function
parameter. Every result below therefore holds whatever the chess rules and
the network answer.

Where minimax.py leaves `getmaxvaluechild`, `getminvaluechild` and
`getchildren` undefined, the model reads them as sgtestscripts/minimaxtest.py
defines them. That is the max or min of all direct children's values, hidden
children included, and the child list itself.

## Model

| member | source | states |
|---|---|---|
| Tree.SetValue | minimax.py:13-16 | The value becomes `v`. The pending flag is cleared when `unhide` is set and kept otherwise. Name and children are untouched. The same holds for sgtestscripts/minimaxtest.py:19-22 and, with no flag, sgtestscripts/minimax.py:50-51. |
| Tree.AddChildren | sgtestscripts/minimaxtest.py:58-59 | The old children stay first and unchanged, followed by the new ones in order. Nothing else of the node changes. Same as sgtestscripts/minimax.py:53-54. |
| Tree.MaxValueChild | sgtestscripts/minimaxtest.py:73-74 | Defined exactly when the node has children. The result is one of the children's values and at least every child's value. |
| Tree.MinValueChild | sgtestscripts/minimaxtest.py:76-77 | Defined exactly when the node has children. The result is one of the children's values and at most every child's value. |
| Tree.IsLeaf | minimax.py:33-34 | True if and only if the node has no children. Same as sgtestscripts/minimaxtest.py:61-62. |
| Tree.NameMatches | minimax.py:69-70 | Undefined (Python raises) exactly when the name is empty. Otherwise true iff the name's first entry equals the operand. |
| Minimax.Traverse | minimax.py:19-30 | A leaf or hidden node comes back identical, subtree included. A visible internal node keeps its child count, and its value becomes the max (maximizing) or min of its children's values after their own pass. |
| Minimax.TraverseSettles | sgtestscripts/minimaxtest.py:80-91 | After the pass, every visible internal node under visible ancestors holds the max or min of its children's values, alternating per level. |
| Minimax.TraverseKeepsSkeleton | minimax.py:23-30 | The pass changes only values of visible internal nodes. Shape, order, flags, names, leaf values and whole hidden subtrees are kept. |
| Minimax.SettledIsFixpoint | minimax.py:19-30 | A tree that is already consistent is returned unchanged. |
| Minimax.TraverseFixpointIffSettled | minimax.py:19-30 | The pass leaves a tree unchanged if and only if the tree is already consistent. |
| Minimax.TraverseIdempotent | sgtestscripts/minimaxtest.py:80-91 | Running the pass twice gives the same tree as running it once. |
| Minimax.TraverseFullyConsistent | minimax.py:19-30 | With no hidden node, the result again has no hidden node and every internal node at every level is the max/min of its children. |
| PlainMinimax.PlainTraverse | sgtestscripts/minimax.py:72-83 | A leaf comes back unchanged. Any other node, hidden flag or not, keeps its child count, and its value becomes the max (maximizing) or min of its children's values after their own pass. |
| PlainMinimax.PlainAgreesWithTraverse | sgtestscripts/minimax.py:72-83 | On trees without pending nodes, the earlier pass computes exactly the tree the hidden-aware pass computes. |
| PlainMinimax.PlainKeepsSkeleton | sgtestscripts/minimax.py:76-83 | The earlier pass changes only internal values. Leaf values, shape and order are kept. |
| PlainMinimax.PlainSettles | sgtestscripts/minimax.py:72-83 | After the earlier pass, every internal node holds the max of its children on maximizing levels and the min on the others. |
| PlainMinimax.PlainIdempotent | sgtestscripts/minimax.py:72-83 | Running the earlier pass twice equals running it once. |
| PlainMinimax.SettledTreeIsPlainTraverse | sgtestscripts/minimax.py:72-83 | The pass's result is the only consistent tree that has the input's shape and leaf values. |
| PlainMinimax.PlainDependsOnlyOnLeaves | sgtestscripts/minimax.py:72-83 | Two trees that differ only in internal values give the same result: the initial internal values are irrelevant. |
| AlphaBeta.AlphaBeta | sgtestscripts/minimaxtest.py:95-119 | At depth 0, on a leaf, or on a hidden node, it returns the stored value and the tree unchanged. Otherwise the returned value is stored in the node. The flag, name and child count are kept. |
| AlphaBeta.Scan | sgtestscripts/minimaxtest.py:101-117 | The child loop, maximizing (lines 101-106) or minimizing (lines 112-117), returns a finite running value once at least one child was searched. It returns a full-length child list. |
| AlphaBeta.AlphaBetaKeepsSkeleton | sgtestscripts/minimaxtest.py:95-119 | A search changes only values of visible internal nodes. |
| AlphaBeta.ScanKeepsSkeleton | sgtestscripts/minimaxtest.py:112-117 | The child loop changes only values of visible internal nodes, and leaves untouched the children it never reaches. |
| AlphaBeta.AlphaBetaVisitsPrefix | sgtestscripts/minimaxtest.py:99-119 | A search visits a non-empty prefix of the children and leaves the rest untouched. The result is the max (or min) of the visited children's results, and so equals one of them. No visited child before the last was hidden or pushed the running value above `b` (below `a`). The last one is the final child, is hidden (its value is still folded in), or pushed the value out of the window. |
| AlphaBeta.ScanVisitsPrefix | sgtestscripts/minimaxtest.py:101-106 | The loop form of the previous row, from any child index on. |
| AlphaBeta.DeepEnoughFromHeight | sgtestscripts/minimaxtest.py:162 | A depth at least the tree's height (or negative, which never reaches 0) lets every search path reach a leaf. |
| AlphaBeta.AlphaBetaFailSoft | sgtestscripts/minimaxtest.py:95-119 | With no hidden node and enough depth, the result is the minimax value when it lies inside the window. It is an upper bound on the minimax value when it falls below `a`, and a lower bound when it lies above `b`. |
| AlphaBeta.AlphaBetaMatchesTraverse | sgtestscripts/minimaxtest.py:162-163 | With no hidden node, enough depth and the window (-inf, +inf), the root result of alpha-beta equals the root value of `traverse`, both the hidden-aware and the earlier one. |
| Frontier.GetNodesAtDepth | minimax.py:62-67 | The list ends up as its old contents followed by exactly the nodes `depth` levels down, left to right. Nothing is appended for `depth <= 0`. Same as sgtestscripts/minimaxtest.py:121-127. |
| Frontier.NodesAtDepthMembers | minimax.py:62-67 | A node is collected if and only if `depth >= 1` and the node is reached from the root by exactly `depth` child links. |
| Frontier.NextFrontier | minimax.py:65-67 | The nodes one level further down are the children of the current frontier's nodes, concatenated in order. |
| Moves.LegalMoves | functions.py:57-58 | The legal moves in generation order, each occurrence kept. Same as sgtestscripts/threadtest.py:99-100. |
| Moves.CheckingMoves | functions.py:54-55 | A subsequence of the legal moves (order kept). A move is in it iff it is legal and gives check. Same as sgtestscripts/threadtest.py:96-97. |
| Moves.Captures | functions.py:60-61 | A subsequence of the legal moves. A move is in it iff it is legal, a capture and not a check. |
| Moves.CapturesWithChecks | sgtestscripts/threadtest.py:102-103 | A subsequence of the legal moves. A move is in it iff it is legal and a capture, checking or not. |
| Moves.QuietMoves | functions.py:63-64 | A subsequence of the legal moves. A move is in it iff it is legal, not a check and not a capture. Same as sgtestscripts/threadtest.py:105-106. |
| Moves.EnginePartition | functions.py:54-64 | The checking, capture and quiet lists together hold every occurrence of every legal move exactly once (multiset sum). So their lengths add up to the number of legal moves, they are pairwise disjoint, and they cover the legal moves. |
| Moves.ThreadTestOverlap | sgtestscripts/threadtest.py:96-106 | With the thread test script's capture list, a move is on both the checking and the capture list iff it is a legal checking capture. The quiet list meets neither, and the three lists cover every legal move. |
| Moves.CapturesDropChecks | functions.py:60-61 | The engine's capture list is the thread test script's list (sgtestscripts/threadtest.py:102-103) with the checking moves removed, order kept. |
| Bitboard.ConvertFenToBitboard | functions.py:24-46 | The length is the two colours' mask lengths plus four flags. |
| Bitboard.LayersLayout | functions.py:29-30 | With 64-square masks, after `k` rounds of the loop the list has `64*k` entries. The flag of piece type `p` on square `sq` sits at `64*(p-1)+sq`. |
| Bitboard.BitboardLayout | functions.py:29-46 | With 64-square masks there are 772 entries. White's piece flags fill 0..383 and Black's fill 386..769, type by type in order pawn..king. Entries 384/385 are White's castling/queenside-castling rights, and 770/771 are Black's. |
| EvalCache.GetEval | sgtestscripts/threadtest.py:77-83 | Afterwards the FEN is a key whose entry is the returned estimate. The keys are the old keys plus the FEN, and every old entry is unchanged. On a miss, the estimate is the model's prediction for the bitboard. |
| EvalCache.HitIgnoresModel | sgtestscripts/threadtest.py:78-79 | On a hit, the stored estimate is returned and the dictionary is left as it was. Any other model gives the same outcome, so the model is not consulted. |
| EvalCache.GetEvalIdempotent | sgtestscripts/threadtest.py:77-83 | A second call for the same FEN returns the same estimate and leaves the dictionary as the first call left it. |
| EvalCache.GetEvalTransparent | sgtestscripts/threadtest.py:80-83 | If the dictionary agrees with the model at this position, the cached answer is the model's answer and the dictionary still agrees afterwards. |
| AsWritten.TraverseAsWritten | minimax.py:19-30 | A leaf or hidden node is returned unchanged. Every visible node with children raises. The exception always names one of the two missing max/min helpers. |
| AsWritten.TraverseChildrenAsWritten | minimax.py:24-25 | The child loop either finishes or stops at the first exception, and the exception always names one of the two missing max/min helpers. |
| AsWritten.AlphaBetaAsWritten | minimax.py:37-61 | The call returns if and only if it is a base call (depth 0, a leaf or a hidden node), and then returns the stored value. Every other call raises for `getchildren`. |
| AsWritten.TraverseAsWrittenRaises | minimax.py:23-30 | As written, `traverse` returns normally iff the node is a leaf or hidden, and then leaves it unchanged. On every other node it raises. |
| AsWritten.TraverseCounterexample | minimax.py:27-30 | A visible root with one leaf child of value 3: as written `traverse(True)` raises for `getmaxvaluechild`, while the intended pass gives the root value 3. |
| AsWritten.AlphaBetaAsWrittenRaises | minimax.py:37-43 | As written, `traversealphabeta` returns normally iff it is a base call (and then agrees with the intended search). Every other call raises. |
| AsWritten.AlphaBetaCounterexample | minimax.py:41-43 | The same tree at depth 1 with window (-inf, +inf): as written the call raises for `getchildren`, while the intended search returns 3. |

## Left out

- Printing and timing helpers (`printtree`, `printselfwithparents`, `printchildren`, `testfunc`): these are output only.
- `__del__` of minimax.py: it only drops references, so it has no logic to model.
- Parent links, `getparent` and `isroot`: the tree is inductive and a parent is whoever holds the child. `isroot` also reads an attribute `node` that no node has.
- The `__eq__` of sgtestscripts/minimaxtest.py (a node equals a number when its value does): nothing in the modelled code compares nodes.
- Constructor defaults, such as `hidden` defaulting to False in minimax.py and True in sgtestscripts/minimaxtest.py: a `Node` is always built with every field given. Likewise `setvalue`'s default `unhide=True` (minimax.py:13, sgtestscripts/minimaxtest.py:19): `Tree.SetValue` always takes the flag explicitly.
- Node identity in `get_nodes_at_depth`: Python fills `outlist` with references to the tree's own nodes, so a later `setvalue` or `addchildren` on a collected node changes the tree. Here nodes are values, and the returned list holds copies that share nothing with the tree.
- The mutable default `outlist=[]` of `get_nodes_at_depth`: the list is an explicit accumulator. Calls that omit it share one list in Python, and that sharing is not modelled.
- Floating point: node values are integers. `float('-inf')` and `float('inf')` are the `NegInf` and `PosInf` of `ExtInt`, and `a` and `b` range over that extended integer.
- The chess rules and the neural network: python-chess and `model.predict` are uninterpreted. Moves are an abstract type with equality. `predict` is a pure function of the bitboard, and adding and removing the batch dimension (`[None]`, `[0][0]`) is folded into it.
- Bitboard.BitboardLayout and Bitboard.LayersLayout: both assume every `pieces(...).tolist()` has 64 entries. python-chess guarantees that, but the uninterpreted `Board` does not.
- The thread test script's copy of `convert_fen_to_bitboard`, which returns a TensorFlow tensor of the same list: the tensor conversion is not modelled.
- The thread test script's thread start/join, `populate_search_tree` (pickle loading), the empty `get_batched_eval`, its unused `MinimaxNode` and `SimpleMinimaxNode` classes (whose `update_value` calls undefined `get_max`/`get_min`): concurrency, I/O and dead code.
- tfengine.py, strategies.py, engines/mlengine.py and sgai.py: the producer/consumer evaluation loop, engine wrappers with random moves, model loading and clock arithmetic are concurrency, I/O, randomness or floating point. tfengine.py, strategies.py, mlengine.py and sgai.py are not part of this model.

## Findings

| source | as written | input that shows it | evidently intended | confidence | as-written member | corrected member |
|---|---|---|---|---|---|---|
| minimax.py:28 | `traverse` assigns `self.getmaxvaluechild()` (and `self.getminvaluechild()` at line 30), but the class defines neither, so every visible node with children raises `AttributeError` | a visible root with one visible leaf child of value 3, `traverse(True)` | the max (min) of the children's values, as sgtestscripts/minimaxtest.py:73-77 defines it, so the root becomes 3 | not executed | AsWritten.TraverseCounterexample | Minimax.Traverse |
| minimax.py:43 | `traversealphabeta` loops over `self.getchildren()` (also at line 54), which the class does not define, so every non-base call raises `AttributeError` | the same one-child tree, `traversealphabeta(1, -inf, inf, True)` | loop over `self.children`, as sgtestscripts/minimaxtest.py:67-68 returns it, giving 3 | not executed | AsWritten.AlphaBetaCounterexample | AlphaBeta.AlphaBeta |
