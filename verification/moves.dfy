/**
 The move classifiers: list comprehensions over `board.legal_moves`. The
 engine's own copy excludes checking captures from the capture list; the
 thread test script's copy keeps them. Both copies share the legal, checking
 and quiet lists.
 */
module Moves {
  import opened Seqs
  import opened Board

  /** `get_legal_moves`: the generator's moves, in order, each once per
      occurrence. */
  function LegalMoves<M>(b: Board<M>): (r: seq<M>)
    ensures |r| == |b.legalMoves|
    ensures forall i :: 0 <= i < |r| ==> r[i] == b.legalMoves[i]
  {
    seq(|b.legalMoves|, i requires 0 <= i < |b.legalMoves| => b.legalMoves[i])
  }

  /** `get_checking_moves`. */
  function CheckingMoves<M(==,!new)>(b: Board<M>): (r: seq<M>)
    ensures IsSubsequence(r, b.legalMoves)
    ensures forall m :: m in r <==> m in b.legalMoves && b.givesCheck(m)
  {
    Filter(b.legalMoves, m => b.givesCheck(m))
  }

  /** `get_captures` of the engine: captures that do not give check. */
  function Captures<M(==,!new)>(b: Board<M>): (r: seq<M>)
    ensures IsSubsequence(r, b.legalMoves)
    ensures forall m :: m in r <==> m in b.legalMoves && b.isCapture(m) && !b.givesCheck(m)
  {
    Filter(b.legalMoves, m => b.isCapture(m) && !b.givesCheck(m))
  }

  /** `get_captures` of the thread test script: every capture, checking or
      not. */
  function CapturesWithChecks<M(==,!new)>(b: Board<M>): (r: seq<M>)
    ensures IsSubsequence(r, b.legalMoves)
    ensures forall m :: m in r <==> m in b.legalMoves && b.isCapture(m)
  {
    Filter(b.legalMoves, m => b.isCapture(m))
  }

  /** `get_legal_moves_nonchecking_noncaptures`. */
  function QuietMoves<M(==,!new)>(b: Board<M>): (r: seq<M>)
    ensures IsSubsequence(r, b.legalMoves)
    ensures forall m :: m in r <==> m in b.legalMoves && !b.givesCheck(m) && !b.isCapture(m)
  {
    Filter(b.legalMoves, m => !b.givesCheck(m) && !b.isCapture(m))
  }

  /** The engine's three lists split the legal moves: every occurrence of a
      legal move lands in exactly one list, so the lists are pairwise
      disjoint and their lengths add up to the number of legal moves. */
  lemma EnginePartition<M(!new)>(b: Board<M>)
    ensures multiset(CheckingMoves(b)) + multiset(Captures(b)) + multiset(QuietMoves(b))
         == multiset(LegalMoves(b))
    ensures |CheckingMoves(b)| + |Captures(b)| + |QuietMoves(b)| == |LegalMoves(b)|
    ensures forall m :: m in CheckingMoves(b) ==> m !in Captures(b) && m !in QuietMoves(b)
    ensures forall m :: m in Captures(b) ==> m !in QuietMoves(b)
    ensures forall m :: m in LegalMoves(b) ==> m in CheckingMoves(b) || m in Captures(b) || m in QuietMoves(b)
  {
    assert LegalMoves(b) == b.legalMoves;
    var lhs := multiset(CheckingMoves(b)) + multiset(Captures(b)) + multiset(QuietMoves(b));
    forall m
      ensures lhs[m] == multiset(b.legalMoves)[m]
    {
      FilterCount(b.legalMoves, x => b.givesCheck(x), m);
      FilterCount(b.legalMoves, x => b.isCapture(x) && !b.givesCheck(x), m);
      FilterCount(b.legalMoves, x => !b.givesCheck(x) && !b.isCapture(x), m);
    }
    assert lhs == multiset(b.legalMoves);
    assert |lhs| == |multiset(b.legalMoves)|;
  }

  /** With the thread test script's capture list, the checking captures are
      exactly the moves on both the checking and the capture list, while the
      quiet list meets neither and the three lists still cover every legal
      move. */
  lemma ThreadTestOverlap<M(!new)>(b: Board<M>)
    ensures forall m :: m in CheckingMoves(b) && m in CapturesWithChecks(b)
                    <==> m in LegalMoves(b) && b.givesCheck(m) && b.isCapture(m)
    ensures forall m :: m in QuietMoves(b) ==> m !in CheckingMoves(b) && m !in CapturesWithChecks(b)
    ensures forall m :: m in LegalMoves(b) ==>
      m in CheckingMoves(b) || m in CapturesWithChecks(b) || m in QuietMoves(b)
  {
    assert LegalMoves(b) == b.legalMoves;
  }

  /** The two capture lists are related by one more filter: the engine's list
      is the thread test script's list with the checking moves dropped, in
      the same order. */
  lemma CapturesDropChecks<M(!new)>(b: Board<M>)
    ensures Captures(b) == Filter(CapturesWithChecks(b), m => !b.givesCheck(m))
  {
    FilterConj(b.legalMoves, m => b.isCapture(m), m => !b.givesCheck(m),
               m => b.isCapture(m) && !b.givesCheck(m));
  }
}
