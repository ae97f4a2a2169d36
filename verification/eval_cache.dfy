/**
 `get_eval(board, model)`: the evaluator's estimate for a position, memoized
 in the module-level dictionary `eval_map` under the position's FEN. The
 dictionary is threaded through explicitly, and the network's `predict`
 (applied to the bitboard, batch dimension added and removed) is a parameter.
 */
module EvalCache {
  import opened Board
  import opened Bitboard

  /** The estimate returned, with the dictionary as it stands afterwards. */
  datatype Evaluated<V> = Evaluated(value: V, cache: map<string, V>)

  function GetEval<M, V>(cache: map<string, V>, b: Board<M>, predict: seq<bool> -> V): (r: Evaluated<V>)
    ensures b.fen in r.cache && r.cache[b.fen] == r.value
    ensures r.cache.Keys == cache.Keys + {b.fen}
    ensures forall k :: k in cache ==> r.cache[k] == cache[k]
    ensures b.fen !in cache ==> r.value == predict(ConvertFenToBitboard(b))
  {
    if b.fen in cache then Evaluated(cache[b.fen], cache)
    else
      var estimate := predict(ConvertFenToBitboard(b));
      Evaluated(estimate, cache[b.fen := estimate])
  }

  /** A hit answers from the dictionary and leaves it as it was; the model
      plays no part, so any other model gives the same outcome. */
  lemma HitIgnoresModel<M, V>(cache: map<string, V>, b: Board<M>, predict: seq<bool> -> V, other: seq<bool> -> V)
    requires b.fen in cache
    ensures GetEval(cache, b, predict) == Evaluated(cache[b.fen], cache)
    ensures GetEval(cache, b, predict) == GetEval(cache, b, other)
  {
  }

  /** Asking again for the same FEN returns the same estimate and leaves the
      dictionary as the first call left it. */
  lemma {:induction false} GetEvalIdempotent<M, V>(cache: map<string, V>, b: Board<M>, b': Board<M>,
                                                    predict: seq<bool> -> V)
    requires b'.fen == b.fen
    ensures GetEval(GetEval(cache, b, predict).cache, b', predict) == GetEval(cache, b, predict)
  {
    var first := GetEval(cache, b, predict);
    assert b'.fen in first.cache;
  }

  /** The dictionary agrees with the model at `b`: either it has no entry for
      `b`'s FEN or that entry is the model's estimate for `b`. */
  ghost predicate Faithful<M, V>(cache: map<string, V>, b: Board<M>, predict: seq<bool> -> V) {
    b.fen in cache ==> cache[b.fen] == predict(ConvertFenToBitboard(b))
  }

  /** Memoization is invisible: from a dictionary that agrees with the model
      at `b`, the cached answer is the model's answer, and the dictionary
      still agrees afterwards. */
  lemma GetEvalTransparent<M, V>(cache: map<string, V>, b: Board<M>, predict: seq<bool> -> V)
    requires Faithful(cache, b, predict)
    ensures GetEval(cache, b, predict).value == predict(ConvertFenToBitboard(b))
    ensures Faithful(GetEval(cache, b, predict).cache, b, predict)
  {
  }
}
