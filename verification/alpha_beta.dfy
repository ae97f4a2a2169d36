/**
 `traversealphabeta(depth, a, b, maxagent)` of sgtestscripts/minimaxtest.py
 (and minimax.py, where `getchildren` is read as the child list). A call at
 depth 0, on a leaf or on a hidden node returns the stored value and changes
 nothing. Otherwise the children are scanned in order, each searched one
 level shallower for the other agent; the running value (starting at -inf
 for the maximizing agent, +inf for the other) takes the max or min of the
 child results; the scan stops after a child that is hidden or after which
 the running value leaves the window (above `b` when maximizing, below `a`
 otherwise); the agent's own bound is tightened between children; and the
 final running value is written into the node and returned.

 Python mutates the tree in place; here a call returns the result together
 with the tree as it is afterwards.
 */
module AlphaBeta {
  import opened Seqs
  import opened Tree
  import opened ExtInt
  import Minimax
  import PlainMinimax

  /** The value a call returns and the searched tree after the call. */
  datatype Search<K> = Search(score: int, tree: Node<K>)

  /** Initial running value: `float('-inf')` or `float('inf')`. */
  function Start(maxagent: bool): Ext {
    if maxagent then NegInf else PosInf
  }

  function Better(maxagent: bool, x: Ext, y: Ext): Ext {
    if maxagent then Max(x, y) else Min(x, y)
  }

  /** The pruning test: `value > b` when maximizing, `value < a` otherwise. */
  predicate CutsOff(maxagent: bool, v: Ext, a: Ext, b: Ext) {
    if maxagent then Less(b, v) else Less(v, a)
  }

  function AlphaBeta<K>(t: Node<K>, depth: int, a: Ext, b: Ext, maxagent: bool): (r: Search<K>)
    ensures r.tree.value == r.score
    ensures r.tree.hidden == t.hidden && r.tree.name == t.name
    ensures |r.tree.children| == |t.children|
    ensures depth == 0 || IsLeaf(t) || t.hidden ==> r == Search(t.value, t)
    decreases t, |t.children| + 1
  {
    if depth == 0 || IsLeaf(t) || t.hidden then Search(t.value, t)
    else
      var (v, cs) := Scan(t, 0, depth - 1, a, b, maxagent, Start(maxagent), []);
      Search(v.n, t.(value := v.n, children := cs))
  }

  /** The `for child in children` loop from child `i` on, with the current
      window `a`, `b`, the running `value` and the children already searched
      (`done`). Returns the final running value and the new child list. */
  function Scan<K>(t: Node<K>, i: nat, depth: int, a: Ext, b: Ext, maxagent: bool,
                   value: Ext, done: seq<Node<K>>): (r: (Ext, seq<Node<K>>))
    requires i <= |t.children| && |done| == i
    ensures value.Fin? || (value == Start(maxagent) && i < |t.children|) ==> r.0.Fin?
    ensures |r.1| == |t.children|
    decreases t, |t.children| - i
  {
    if i == |t.children| then (value, done)
    else
      var s := AlphaBeta(t.children[i], depth, a, b, !maxagent);
      var v := Better(maxagent, value, Fin(s.score));
      if CutsOff(maxagent, v, a, b) || s.tree.hidden then
        (v, done + [s.tree] + t.children[i + 1..])
      else if maxagent then
        Scan(t, i + 1, depth, Max(a, v), b, maxagent, v, done + [s.tree])
      else
        Scan(t, i + 1, depth, a, Min(b, v), maxagent, v, done + [s.tree])
  }

  // ---------------------------------------------------------------------
  // What a call changes

  /** Alpha-beta only rewrites values of visible internal nodes. */
  lemma {:induction false} AlphaBetaKeepsSkeleton<K>(t: Node<K>, depth: int, a: Ext, b: Ext, maxagent: bool)
    ensures SameSkeleton(AlphaBeta(t, depth, a, b, maxagent).tree, t)
    decreases t, |t.children| + 1
  {
    if depth == 0 || IsLeaf(t) || t.hidden {
      SkeletonRefl(t);
    } else {
      ScanKeepsSkeleton(t, 0, depth - 1, a, b, maxagent, Start(maxagent), []);
      AlphaBetaIsScan(t, depth, a, b, maxagent);
      SkeletonFromChildren(AlphaBeta(t, depth, a, b, maxagent).tree, t);
    }
  }

  lemma SkeletonFromChildren<K>(x: Node<K>, y: Node<K>)
    requires x.hidden == y.hidden && x.name == y.name && |x.children| == |y.children|
    requires !y.hidden && !IsLeaf(y)
    requires forall j :: 0 <= j < |y.children| ==> SameSkeleton(x.children[j], y.children[j])
    ensures SameSkeleton(x, y)
  {
  }

  lemma {:induction false} ScanKeepsSkeleton<K>(t: Node<K>, i: nat, depth: int, a: Ext, b: Ext, maxagent: bool,
                                                value: Ext, done: seq<Node<K>>)
    requires i <= |t.children| && |done| == i
    requires forall j :: 0 <= j < i ==> SameSkeleton(done[j], t.children[j])
    ensures var r := Scan(t, i, depth, a, b, maxagent, value, done);
      forall j :: 0 <= j < |t.children| ==> SameSkeleton(r.1[j], t.children[j])
    decreases t, |t.children| - i
  {
    if i < |t.children| {
      var s := AlphaBeta(t.children[i], depth, a, b, !maxagent);
      var v := Better(maxagent, value, Fin(s.score));
      AlphaBetaKeepsSkeleton(t.children[i], depth, a, b, !maxagent);
      var done' := done + [s.tree];
      assert forall j :: 0 <= j < i + 1 ==> SameSkeleton(done'[j], t.children[j]);
      if CutsOff(maxagent, v, a, b) || s.tree.hidden {
        var cs := done' + t.children[i + 1..];
        forall j | i + 1 <= j < |t.children|
          ensures SameSkeleton(cs[j], t.children[j])
        {
          SkeletonRefl(t.children[j]);
        }
      } else if maxagent {
        ScanKeepsSkeleton(t, i + 1, depth, Max(a, v), b, maxagent, v, done');
      } else {
        ScanKeepsSkeleton(t, i + 1, depth, a, Min(b, v), maxagent, v, done');
      }
    }
  }

  // ---------------------------------------------------------------------
  // Which children a call visits

  /** The running value right after searching child `j`: the max (or min)
      of the values of children `0..j`. */
  function BestThrough<K>(maxagent: bool, cs: seq<Node<K>>, j: int): int
    requires 0 <= j < |cs|
  {
    Best(maxagent, Values(cs[..j + 1]))
  }

  /** None of the first `n` searched children was hidden or made the running
      value leave the window. */
  ghost predicate ClearBefore<K>(maxagent: bool, cs2: seq<Node<K>>, a: Ext, b: Ext, n: int)
    requires n <= |cs2|
  {
    forall j :: 0 <= j < n ==>
      !cs2[j].hidden && !CutsOff(maxagent, Fin(BestThrough(maxagent, cs2, j)), a, b)
  }

  lemma BestThroughExtend<K>(maxagent: bool, xs: seq<Node<K>>, ys: seq<Node<K>>, j: int)
    requires 0 <= j < |xs|
    ensures BestThrough(maxagent, xs + ys, j) == BestThrough(maxagent, xs, j)
  {
    assert (xs + ys)[..j + 1] == xs[..j + 1];
  }

  lemma ClearBeforeExtend<K>(maxagent: bool, xs: seq<Node<K>>, ys: seq<Node<K>>, a: Ext, b: Ext, n: int)
    requires 0 <= n <= |xs|
    requires ClearBefore(maxagent, xs, a, b, n)
    ensures ClearBefore(maxagent, xs + ys, a, b, n)
  {
    forall j | 0 <= j < n
      ensures (xs + ys)[j] == xs[j]
      ensures BestThrough(maxagent, xs + ys, j) == BestThrough(maxagent, xs, j)
    {
      BestThroughExtend(maxagent, xs, ys, j);
    }
  }

  /** The new child list `cs2` of a non-base call over children `cs` arose
      from visiting exactly the first `k` children: the later ones are
      untouched; `score` is the max (or min) of the visited children's
      results, which are their new values; no visited child before the last
      was hidden or made the running value leave the window; and the last
      one is the final child, is hidden, or made it leave the window. */
  ghost predicate VisitsPrefix<K>(maxagent: bool, cs: seq<Node<K>>, cs2: seq<Node<K>>,
                                  a: Ext, b: Ext, k: int, score: int)
  {
    && 1 <= k <= |cs| == |cs2|
    && cs2[k..] == cs[k..]
    && score == BestThrough(maxagent, cs2, k - 1)
    && ClearBefore(maxagent, cs2, a, b, k - 1)
    && (k == |cs| || cs2[k - 1].hidden || CutsOff(maxagent, Fin(score), a, b))
  }

  lemma AlphaBetaVisitsPrefix<K>(t: Node<K>, depth: int, a: Ext, b: Ext, maxagent: bool)
    requires depth != 0 && !IsLeaf(t) && !t.hidden
    ensures exists k :: VisitsPrefix(maxagent, t.children, AlphaBeta(t, depth, a, b, maxagent).tree.children,
                                     a, b, k, AlphaBeta(t, depth, a, b, maxagent).score)
  {
    ScanStarts(t, a, b, maxagent);
    ScanVisitsPrefix(t, 0, depth - 1, a, b, maxagent, Start(maxagent), [], a, b);
    AlphaBetaIsScan(t, depth, a, b, maxagent);
  }

  /** The scan of a non-base call starts from an empty prefix. */
  lemma ScanStarts<K>(t: Node<K>, a: Ext, b: Ext, maxagent: bool)
    requires !IsLeaf(t)
    ensures ScanInvariant(t, 0, a, b, maxagent, Start(maxagent), [], a, b)
  {
  }

  /** A non-base call returns what its scan of the children returns. */
  lemma AlphaBetaIsScan<K>(t: Node<K>, depth: int, a: Ext, b: Ext, maxagent: bool)
    requires depth != 0 && !IsLeaf(t) && !t.hidden
    ensures AlphaBeta(t, depth, a, b, maxagent).tree.children == Scan(t, 0, depth - 1, a, b, maxagent, Start(maxagent), []).1
    ensures AlphaBeta(t, depth, a, b, maxagent).score == Scan(t, 0, depth - 1, a, b, maxagent, Start(maxagent), []).0.n
  {
  }

  /** The running value after searching `done` and one more child `c`. */
  lemma RunningValueStep<K>(maxagent: bool, i: nat, value: Ext, done: seq<Node<K>>, c: Node<K>)
    requires |done| == i
    requires i == 0 ==> value == Start(maxagent)
    requires i > 0 ==> value == Fin(BestThrough(maxagent, done, i - 1))
    ensures Better(maxagent, value, Fin(c.value)) == Fin(BestThrough(maxagent, done + [c], i))
  {
    BestThroughAll(maxagent, done + [c]);
    ValuesSnoc(done, c);
    if i == 0 {
      StartIsNeutral(maxagent, c.value);
    } else {
      BestThroughAll(maxagent, done);
      BestSnoc(maxagent, Values(done), c.value);
      BetterFin(maxagent, BestThrough(maxagent, done, i - 1), c.value);
    }
  }

  lemma BestThroughAll<K>(maxagent: bool, cs: seq<Node<K>>)
    requires |cs| > 0
    ensures BestThrough(maxagent, cs, |cs| - 1) == Best(maxagent, Values(cs))
  {
    assert cs[..|cs|] == cs;
  }

  lemma ValuesSnoc<K>(cs: seq<Node<K>>, c: Node<K>)
    ensures Values(cs + [c]) == Values(cs) + [c.value]
  {
  }

  /** The initial running value loses to any child result. */
  lemma StartIsNeutral(maxagent: bool, q: int)
    ensures Better(maxagent, Start(maxagent), Fin(q)) == Fin(q) == Fin(Best(maxagent, [] + [q]))
  {
    assert [] + [q] == [q];
  }

  lemma BetterFin(maxagent: bool, p: int, q: int)
    ensures Better(maxagent, Fin(p), Fin(q)) == Fin(Best(maxagent, [p, q]))
  {
  }

  /** Requirements of `ScanVisitsPrefix`: the scan from child `i` is run
      with the original bound of its agent, the running value is the best of
      the children searched so far, and none of them stopped the scan. */
  ghost predicate ScanInvariant<K>(t: Node<K>, i: nat, a: Ext, b: Ext, maxagent: bool,
                                   value: Ext, done: seq<Node<K>>, a0: Ext, b0: Ext)
  {
    && 0 < |t.children| && i <= |t.children| && |done| == i
    && (maxagent ==> b == b0)
    && (!maxagent ==> a == a0)
    && (i == 0 ==> value == Start(maxagent))
    && (i > 0 ==> value == Fin(BestThrough(maxagent, done, i - 1)))
    && ClearBefore(maxagent, done, a0, b0, i)
  }

  /** What `ScanVisitsPrefix` promises about a scan result `r` from child `i`. */
  ghost predicate ScanOutcome<K>(t: Node<K>, i: nat, maxagent: bool, done: seq<Node<K>>,
                                 a0: Ext, b0: Ext, r: (Ext, seq<Node<K>>))
  {
    && r.0.Fin? && |r.1| >= i && r.1[..i] == done
    && exists k :: VisitsPrefix(maxagent, t.children, r.1, a0, b0, k, r.0.n)
  }

  lemma {:induction false} ScanVisitsPrefix<K>(t: Node<K>, i: nat, depth: int, a: Ext, b: Ext, maxagent: bool,
                                               value: Ext, done: seq<Node<K>>, a0: Ext, b0: Ext)
    requires ScanInvariant(t, i, a, b, maxagent, value, done, a0, b0)
    ensures ScanOutcome(t, i, maxagent, done, a0, b0, Scan(t, i, depth, a, b, maxagent, value, done))
    decreases |t.children| - i, 2
  {
    if i == |t.children| {
      assert done[..i] == done;
      assert VisitsPrefix(maxagent, t.children, done, a0, b0, i, value.n);
    } else {
      ScanStepVisitsPrefix(t, i, depth, a, b, maxagent, value, done, a0, b0);
    }
  }

  lemma {:induction false} ScanStepVisitsPrefix<K>(t: Node<K>, i: nat, depth: int, a: Ext, b: Ext, maxagent: bool,
                                                   value: Ext, done: seq<Node<K>>, a0: Ext, b0: Ext)
    requires ScanInvariant(t, i, a, b, maxagent, value, done, a0, b0) && i < |t.children|
    ensures ScanOutcome(t, i, maxagent, done, a0, b0, Scan(t, i, depth, a, b, maxagent, value, done))
    decreases |t.children| - i, 1
  {
    var s := AlphaBeta(t.children[i], depth, a, b, !maxagent);
    var v := Better(maxagent, value, Fin(s.score));
    RunningValueStep(maxagent, i, value, done, s.tree);
    ClearBeforeExtend(maxagent, done, [s.tree], a0, b0, i);
    if CutsOff(maxagent, v, a, b) || s.tree.hidden {
      StopOutcome(t, i, maxagent, done, s.tree, a, b, a0, b0, v);
    } else {
      ScanGoVisitsPrefix(t, i, depth, a, b, maxagent, value, done, a0, b0);
    }
  }

  /** The scan goes on after child `i`. */
  lemma {:induction false} ScanGoVisitsPrefix<K>(t: Node<K>, i: nat, depth: int, a: Ext, b: Ext, maxagent: bool,
                                                 value: Ext, done: seq<Node<K>>, a0: Ext, b0: Ext)
    requires ScanInvariant(t, i, a, b, maxagent, value, done, a0, b0) && i < |t.children|
    requires var s := AlphaBeta(t.children[i], depth, a, b, !maxagent);
      && !s.tree.hidden
      && !CutsOff(maxagent, Better(maxagent, value, Fin(s.score)), a, b)
      && Better(maxagent, value, Fin(s.score)) == Fin(BestThrough(maxagent, done + [s.tree], i))
      && ClearBefore(maxagent, done + [s.tree], a0, b0, i)
    ensures ScanOutcome(t, i, maxagent, done, a0, b0, Scan(t, i, depth, a, b, maxagent, value, done))
    decreases |t.children| - i, 0
  {
    var s := AlphaBeta(t.children[i], depth, a, b, !maxagent);
    var v := Better(maxagent, value, Fin(s.score));
    var a' := if maxagent then Max(a, v) else a;
    var b' := if maxagent then b else Min(b, v);
    GoInvariant(t, i, a, b, maxagent, value, done, a0, b0, s.tree, v);
    ScanVisitsPrefix(t, i + 1, depth, a', b', maxagent, v, done + [s.tree], a0, b0);
    ContinueOutcome(t, i, maxagent, done, s.tree, a0, b0,
                    Scan(t, i + 1, depth, a', b', maxagent, v, done + [s.tree]));
  }

  /** The scan invariant is kept when a child `c` does not stop the scan. */
  lemma GoInvariant<K>(t: Node<K>, i: nat, a: Ext, b: Ext, maxagent: bool,
                       value: Ext, done: seq<Node<K>>, a0: Ext, b0: Ext, c: Node<K>, v: Ext)
    requires ScanInvariant(t, i, a, b, maxagent, value, done, a0, b0) && i < |t.children|
    requires !c.hidden && !CutsOff(maxagent, v, a, b)
    requires v == Fin(BestThrough(maxagent, done + [c], i))
    requires ClearBefore(maxagent, done + [c], a0, b0, i)
    ensures ScanInvariant(t, i + 1, if maxagent then Max(a, v) else a, if maxagent then b else Min(b, v),
                          maxagent, v, done + [c], a0, b0)
  {
    assert !CutsOff(maxagent, v, a0, b0);
    ClearBeforeSnoc(maxagent, done + [c], a0, b0, i);
  }

  lemma ClearBeforeSnoc<K>(maxagent: bool, cs: seq<Node<K>>, a: Ext, b: Ext, i: nat)
    requires i < |cs| && ClearBefore(maxagent, cs, a, b, i)
    requires !cs[i].hidden && !CutsOff(maxagent, Fin(BestThrough(maxagent, cs, i)), a, b)
    ensures ClearBefore(maxagent, cs, a, b, i + 1)
  {
  }

  /** The outcome of a scan that stops right after child `i`, whose new
      version is `c`. */
  lemma StopOutcome<K>(t: Node<K>, i: nat, maxagent: bool, done: seq<Node<K>>, c: Node<K>,
                       a: Ext, b: Ext, a0: Ext, b0: Ext, v: Ext)
    requires |done| == i < |t.children|
    requires maxagent ==> b == b0
    requires !maxagent ==> a == a0
    requires v == Fin(BestThrough(maxagent, done + [c], i))
    requires ClearBefore(maxagent, done + [c], a0, b0, i)
    requires CutsOff(maxagent, v, a, b) || c.hidden
    ensures ScanOutcome(t, i, maxagent, done, a0, b0, (v, done + [c] + t.children[i + 1..]))
  {
    var cs2 := done + [c] + t.children[i + 1..];
    StopVisits(t, i, maxagent, done, c, a, b, a0, b0, v);
    OutcomeFromVisits(t, i, maxagent, done, a0, b0, (v, cs2), i + 1);
  }

  /** A scan that stops at child `i` has visited exactly `i + 1` children. */
  lemma StopVisits<K>(t: Node<K>, i: nat, maxagent: bool, done: seq<Node<K>>, c: Node<K>,
                      a: Ext, b: Ext, a0: Ext, b0: Ext, v: Ext)
    requires |done| == i < |t.children|
    requires maxagent ==> b == b0
    requires !maxagent ==> a == a0
    requires v == Fin(BestThrough(maxagent, done + [c], i))
    requires ClearBefore(maxagent, done + [c], a0, b0, i)
    requires CutsOff(maxagent, v, a, b) || c.hidden
    ensures (done + [c] + t.children[i + 1..])[..i] == done
    ensures VisitsPrefix(maxagent, t.children, done + [c] + t.children[i + 1..], a0, b0, i + 1, v.n)
  {
    var done' := done + [c];
    var cs2 := done' + t.children[i + 1..];
    BestThroughExtend(maxagent, done', t.children[i + 1..], i);
    ClearBeforeExtend(maxagent, done', t.children[i + 1..], a0, b0, i);
    assert cs2[i + 1..] == t.children[i + 1..];
    assert cs2[..i] == done;
  }

  lemma OutcomeFromVisits<K>(t: Node<K>, i: nat, maxagent: bool, done: seq<Node<K>>,
                             a0: Ext, b0: Ext, r: (Ext, seq<Node<K>>), k: int)
    requires r.0.Fin? && |r.1| >= i && r.1[..i] == done
    requires VisitsPrefix(maxagent, t.children, r.1, a0, b0, k, r.0.n)
    ensures ScanOutcome(t, i, maxagent, done, a0, b0, r)
  {
  }

  lemma ContinueOutcome<K>(t: Node<K>, i: nat, maxagent: bool, done: seq<Node<K>>, c: Node<K>,
                           a0: Ext, b0: Ext, r: (Ext, seq<Node<K>>))
    requires |done| == i
    requires ScanOutcome(t, i + 1, maxagent, done + [c], a0, b0, r)
    ensures ScanOutcome(t, i, maxagent, done, a0, b0, r)
  {
    assert r.1[..i] == r.1[..i + 1][..i];
    assert (done + [c])[..i] == done;
  }

  // ---------------------------------------------------------------------
  // Agreement with full minimax

  /** The depth budget never reaches 0 above a leaf, so every search path
      runs down to a leaf (a negative depth never reaches 0 at all). */
  ghost predicate DeepEnough<K>(depth: int, t: Node<K>)
    decreases t
  {
    IsLeaf(t) || (depth != 0 && forall i :: 0 <= i < |t.children| ==> DeepEnough(depth - 1, t.children[i]))
  }

  lemma {:induction false} DeepEnoughFromHeight<K>(depth: int, t: Node<K>)
    requires depth < 0 || depth >= Height(t)
    ensures DeepEnough(depth, t)
    decreases t
  {
    if !IsLeaf(t) {
      assert MaxChildHeight(t, |t.children|) < Height(t);
      forall i | 0 <= i < |t.children|
        ensures DeepEnough(depth - 1, t.children[i])
      {
        DeepEnoughFromHeight(depth - 1, t.children[i]);
      }
    }
  }

  /** Fail-soft alpha-beta bounds on a result `r` for window (`a`, `b`) and
      true minimax value `m`: inside the window `r` is exact, below it `r`
      is an upper bound, above it a lower bound. */
  ghost predicate FailSoft(a: Ext, b: Ext, r: int, m: int) {
    && (LessEq(a, Fin(r)) && LessEq(Fin(r), b) ==> r == m)
    && (Less(Fin(r), a) ==> m <= r)
    && (Less(b, Fin(r)) ==> r <= m)
  }

  /** The minimax values of the children, for the agent below `maxagent`. */
  ghost function ChildMinimax<K>(t: Node<K>, maxagent: bool): (r: seq<int>)
    ensures |r| == |t.children|
  {
    seq(|t.children|, j requires 0 <= j < |t.children| => Minimax.Traverse(t.children[j], !maxagent).value)
  }

  lemma MinimaxOfChildren<K>(t: Node<K>, maxagent: bool)
    requires !IsLeaf(t) && !t.hidden
    ensures Minimax.Traverse(t, maxagent).value == Best(maxagent, ChildMinimax(t, maxagent))
  {
    assert Values(Minimax.Traverse(t, maxagent).children) == ChildMinimax(t, maxagent);
  }

  /** What the running value `v` tells about the best minimax value `pm` of
      the children searched so far, for the original window (`a0`, `b0`). */
  ghost predicate Tracks(maxagent: bool, v: int, pm: int, a0: Ext, b0: Ext) {
    if maxagent then
      pm <= v && (LessEq(a0, Fin(v)) ==> pm == v) && LessEq(Fin(v), b0)
    else
      v <= pm && (LessEq(Fin(v), b0) ==> pm == v) && LessEq(a0, Fin(v))
  }

  /** The window the scan is run with: the agent's own bound tightened by the
      running value, the other bound as given. */
  ghost predicate Window(maxagent: bool, a: Ext, b: Ext, value: Ext, a0: Ext, b0: Ext) {
    if maxagent then b == b0 && a == Max(a0, value) else a == a0 && b == Min(b0, value)
  }

  ghost predicate SoundInvariant<K>(t: Node<K>, i: nat, depth: int, a: Ext, b: Ext, maxagent: bool,
                                    value: Ext, a0: Ext, b0: Ext)
  {
    && NoHidden(t) && 0 < |t.children| && i <= |t.children|
    && (forall j :: 0 <= j < |t.children| ==> DeepEnough(depth, t.children[j]))
    && LessEq(a0, b0)
    && Window(maxagent, a, b, value, a0, b0)
    && (i == 0 ==> value == Start(maxagent))
    && (i > 0 ==> value.Fin? && Tracks(maxagent, value.n, Best(maxagent, ChildMinimax(t, maxagent)[..i]), a0, b0))
  }

  /** With no hidden node and enough depth, alpha-beta satisfies the
      fail-soft bounds against the minimax value `traverse` computes. */
  lemma {:induction false} AlphaBetaFailSoft<K>(t: Node<K>, depth: int, a: Ext, b: Ext, maxagent: bool)
    requires NoHidden(t) && DeepEnough(depth, t) && LessEq(a, b)
    ensures FailSoft(a, b, AlphaBeta(t, depth, a, b, maxagent).score, Minimax.Traverse(t, maxagent).value)
    decreases t, |t.children| + 1
  {
    if !IsLeaf(t) {
      MinimaxOfChildren(t, maxagent);
      ScanFailSoft(t, 0, depth - 1, a, b, maxagent, Start(maxagent), [], a, b);
    }
  }

  lemma {:induction false} ScanFailSoft<K>(t: Node<K>, i: nat, depth: int, a: Ext, b: Ext, maxagent: bool,
                                           value: Ext, done: seq<Node<K>>, a0: Ext, b0: Ext)
    requires SoundInvariant(t, i, depth, a, b, maxagent, value, a0, b0) && |done| == i
    ensures Scan(t, i, depth, a, b, maxagent, value, done).0.Fin?
    ensures FailSoft(a0, b0, Scan(t, i, depth, a, b, maxagent, value, done).0.n,
                     Best(maxagent, ChildMinimax(t, maxagent)))
    decreases t, |t.children| - i, 2
  {
    var cm := ChildMinimax(t, maxagent);
    if i == |t.children| {
      assert cm[..i] == cm;
      EndFailSoft(maxagent, value.n, Best(maxagent, cm), a0, b0);
    } else {
      ScanStepFailSoft(t, i, depth, a, b, maxagent, value, done, a0, b0);
    }
  }

  lemma {:induction false} ScanStepFailSoft<K>(t: Node<K>, i: nat, depth: int, a: Ext, b: Ext, maxagent: bool,
                                               value: Ext, done: seq<Node<K>>, a0: Ext, b0: Ext)
    requires SoundInvariant(t, i, depth, a, b, maxagent, value, a0, b0) && |done| == i < |t.children|
    ensures Scan(t, i, depth, a, b, maxagent, value, done).0.Fin?
    ensures FailSoft(a0, b0, Scan(t, i, depth, a, b, maxagent, value, done).0.n,
                     Best(maxagent, ChildMinimax(t, maxagent)))
    decreases t, |t.children| - i, 1
  {
    ChildFailSoft(t, i, depth, a, b, maxagent, value, a0, b0);
    var s := AlphaBeta(t.children[i], depth, a, b, !maxagent);
    if CutsOff(maxagent, Better(maxagent, value, Fin(s.score)), a, b) {
      ScanCutFailSoft(t, i, depth, a, b, maxagent, value, done, a0, b0);
    } else {
      ScanGoFailSoft(t, i, depth, a, b, maxagent, value, done, a0, b0);
    }
  }

  /** The child searched at step `i` meets the fail-soft bounds for the
      scan's current window. */
  lemma {:induction false} ChildFailSoft<K>(t: Node<K>, i: nat, depth: int, a: Ext, b: Ext, maxagent: bool,
                                            value: Ext, a0: Ext, b0: Ext)
    requires SoundInvariant(t, i, depth, a, b, maxagent, value, a0, b0) && i < |t.children|
    ensures FailSoft(a, b, AlphaBeta(t.children[i], depth, a, b, !maxagent).score, ChildMinimax(t, maxagent)[i])
    decreases t, |t.children| - i, 0
  {
    WindowOrdered(maxagent, i, a, b, value, a0, b0);
    AlphaBetaFailSoft(t.children[i], depth, a, b, !maxagent);
  }

  lemma {:induction false} ScanCutFailSoft<K>(t: Node<K>, i: nat, depth: int, a: Ext, b: Ext, maxagent: bool,
                                              value: Ext, done: seq<Node<K>>, a0: Ext, b0: Ext)
    requires SoundInvariant(t, i, depth, a, b, maxagent, value, a0, b0) && |done| == i < |t.children|
    requires var s := AlphaBeta(t.children[i], depth, a, b, !maxagent);
      && FailSoft(a, b, s.score, ChildMinimax(t, maxagent)[i])
      && CutsOff(maxagent, Better(maxagent, value, Fin(s.score)), a, b)
    ensures Scan(t, i, depth, a, b, maxagent, value, done).0.Fin?
    ensures FailSoft(a0, b0, Scan(t, i, depth, a, b, maxagent, value, done).0.n,
                     Best(maxagent, ChildMinimax(t, maxagent)))
  {
    var cm := ChildMinimax(t, maxagent);
    var s := AlphaBeta(t.children[i], depth, a, b, !maxagent);
    assert cm[i] in cm;
    CutFailSoft(maxagent, i, value, s.score, cm[i], Best(maxagent, cm), a, b, a0, b0);
  }

  lemma {:induction false} ScanGoFailSoft<K>(t: Node<K>, i: nat, depth: int, a: Ext, b: Ext, maxagent: bool,
                                             value: Ext, done: seq<Node<K>>, a0: Ext, b0: Ext)
    requires SoundInvariant(t, i, depth, a, b, maxagent, value, a0, b0) && |done| == i < |t.children|
    requires var s := AlphaBeta(t.children[i], depth, a, b, !maxagent);
      && FailSoft(a, b, s.score, ChildMinimax(t, maxagent)[i])
      && !CutsOff(maxagent, Better(maxagent, value, Fin(s.score)), a, b)
    ensures Scan(t, i, depth, a, b, maxagent, value, done).0.Fin?
    ensures FailSoft(a0, b0, Scan(t, i, depth, a, b, maxagent, value, done).0.n,
                     Best(maxagent, ChildMinimax(t, maxagent)))
    decreases t, |t.children| - i, 0
  {
    var cm := ChildMinimax(t, maxagent);
    var s := AlphaBeta(t.children[i], depth, a, b, !maxagent);
    var v := Better(maxagent, value, Fin(s.score));
    var pm' := Best(maxagent, cm[..i + 1]);
    PrefixBestStep(maxagent, cm, i);
    GoTracks(maxagent, i, value, s.score, cm[i], if i == 0 then 0 else Best(maxagent, cm[..i]),
             pm', a, b, a0, b0);
    var a' := if maxagent then Max(a, v) else a;
    var b' := if maxagent then b else Min(b, v);
    SoundInvariantStep(t, i, depth, a', b', maxagent, v, a0, b0);
    ScanFailSoft(t, i + 1, depth, a', b', maxagent, v, done + [s.tree], a0, b0);
    NoHiddenChild(t, i);
    ScanContinues(t, i, depth, a, b, maxagent, value, done, s, v);
  }

  lemma NoHiddenChild<K>(t: Node<K>, i: nat)
    requires NoHidden(t) && i < |t.children|
    ensures !t.children[i].hidden
  {
  }

  /** The soundness invariant after one more child, given the new window and
      what the new running value tells. */
  lemma SoundInvariantStep<K>(t: Node<K>, i: nat, depth: int, a: Ext, b: Ext, maxagent: bool,
                              v: Ext, a0: Ext, b0: Ext)
    requires NoHidden(t) && i < |t.children|
    requires forall j :: 0 <= j < |t.children| ==> DeepEnough(depth, t.children[j])
    requires LessEq(a0, b0) && Window(maxagent, a, b, v, a0, b0)
    requires v.Fin? && Tracks(maxagent, v.n, Best(maxagent, ChildMinimax(t, maxagent)[..i + 1]), a0, b0)
    ensures SoundInvariant(t, i + 1, depth, a, b, maxagent, v, a0, b0)
  {
  }

  /** A scan step that neither cuts off nor meets a hidden child moves on to
      the next child with the tightened window. */
  lemma ScanContinues<K>(t: Node<K>, i: nat, depth: int, a: Ext, b: Ext, maxagent: bool,
                         value: Ext, done: seq<Node<K>>, s: Search<K>, v: Ext)
    requires i < |t.children| && |done| == i
    requires s == AlphaBeta(t.children[i], depth, a, b, !maxagent) && !s.tree.hidden
    requires v == Better(maxagent, value, Fin(s.score)) && !CutsOff(maxagent, v, a, b)
    ensures Scan(t, i, depth, a, b, maxagent, value, done)
         == Scan(t, i + 1, depth, if maxagent then Max(a, v) else a, if maxagent then b else Min(b, v),
                 maxagent, v, done + [s.tree])
  {
  }

  /** The best of a prefix one longer. */
  lemma PrefixBestStep(maxagent: bool, s: seq<int>, i: nat)
    requires i < |s|
    ensures i == 0 ==> Best(maxagent, s[..i + 1]) == s[i]
    ensures i > 0 ==> Best(maxagent, s[..i + 1]) == Best(maxagent, [Best(maxagent, s[..i]), s[i]])
  {
    assert s[..i + 1] == s[..i] + [s[i]];
    if i > 0 {
      BestSnoc(maxagent, s[..i], s[i]);
    }
  }

  /** The scan's window is never empty. */
  lemma WindowOrdered(maxagent: bool, i: nat, a: Ext, b: Ext, value: Ext, a0: Ext, b0: Ext)
    requires LessEq(a0, b0) && Window(maxagent, a, b, value, a0, b0)
    requires i == 0 ==> value == Start(maxagent)
    requires i > 0 ==> value.Fin? && (if maxagent then LessEq(value, b0) else LessEq(a0, value))
    ensures LessEq(a, b)
  {
  }

  /** A finished scan meets the fail-soft bounds. */
  lemma EndFailSoft(maxagent: bool, v: int, pm: int, a0: Ext, b0: Ext)
    requires Tracks(maxagent, v, pm, a0, b0)
    ensures FailSoft(a0, b0, v, pm)
  {
  }

  /** A scan cut off after a child meets the fail-soft bounds. */
  lemma CutFailSoft(maxagent: bool, i: nat, value: Ext, r: int, mi: int, m: int,
                    a: Ext, b: Ext, a0: Ext, b0: Ext)
    requires LessEq(a0, b0) && Window(maxagent, a, b, value, a0, b0)
    requires i == 0 ==> value == Start(maxagent)
    requires i > 0 ==> value.Fin? && (if maxagent then LessEq(value, b0) else LessEq(a0, value))
    requires FailSoft(a, b, r, mi)
    requires if maxagent then mi <= m else m <= mi
    requires CutsOff(maxagent, Better(maxagent, value, Fin(r)), a, b)
    ensures Better(maxagent, value, Fin(r)) == Fin(r)
    ensures FailSoft(a0, b0, r, m)
  {
  }

  /** A child that does not cut the scan off keeps the running value
      tracking the searched children's minimax values. */
  lemma GoTracks(maxagent: bool, i: nat, value: Ext, r: int, mi: int, pm: int, pm': int,
                 a: Ext, b: Ext, a0: Ext, b0: Ext)
    requires LessEq(a0, b0) && Window(maxagent, a, b, value, a0, b0)
    requires i == 0 ==> value == Start(maxagent) && pm' == mi
    requires i > 0 ==> value.Fin? && Tracks(maxagent, value.n, pm, a0, b0)
                       && pm' == Best(maxagent, [pm, mi])
    requires FailSoft(a, b, r, mi)
    requires !CutsOff(maxagent, Better(maxagent, value, Fin(r)), a, b)
    ensures Better(maxagent, value, Fin(r)).Fin?
    ensures Tracks(maxagent, Better(maxagent, value, Fin(r)).n, pm', a0, b0)
    ensures var v := Better(maxagent, value, Fin(r));
      Window(maxagent, if maxagent then Max(a, v) else a, if maxagent then b else Min(b, v), v, a0, b0)
  {
  }

  /** With no hidden node, enough depth and the window (-inf, +inf), the
      root result of alpha-beta is the root value of a full `traverse` of
      the same tree, hidden-aware or plain. */
  lemma AlphaBetaMatchesTraverse<K>(t: Node<K>, depth: int, maxagent: bool)
    requires NoHidden(t) && DeepEnough(depth, t)
    ensures AlphaBeta(t, depth, NegInf, PosInf, maxagent).score == Minimax.Traverse(t, maxagent).value
    ensures AlphaBeta(t, depth, NegInf, PosInf, maxagent).score == PlainMinimax.PlainTraverse(t, maxagent).value
  {
    AlphaBetaFailSoft(t, depth, NegInf, PosInf, maxagent);
    PlainMinimax.PlainAgreesWithTraverse(t, maxagent);
  }
}
