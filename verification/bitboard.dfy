/**
 `convert_fen_to_bitboard`: the one-hot input vector of the evaluator. Six
 square masks for White (pawn .. king), White's two castling flags, six
 masks for Black, Black's two castling flags.
 */
module Bitboard {
  import opened Board

  /** The masks of piece types 1 .. `k` of one colour, in order: the first
      `k` rounds of the `for i in range(1, 7)` loop. */
  function Layers<M>(b: Board<M>, color: bool, k: nat): (r: seq<bool>)
    requires k <= KING
  {
    if k == 0 then [] else Layers(b, color, k - 1) + b.pieces(k, color)
  }

  /** The flags of one colour, any castling right first, then queenside. */
  function CastlingFlags<M>(b: Board<M>, color: bool): seq<bool> {
    [b.hasCastlingRights(color), b.hasQueensideCastlingRights(color)]
  }

  function ConvertFenToBitboard<M>(b: Board<M>): (r: seq<bool>)
    ensures |r| == |Layers(b, WHITE, KING)| + |Layers(b, BLACK, KING)| + 4
  {
    Layers(b, WHITE, KING) + CastlingFlags(b, WHITE) + Layers(b, BLACK, KING) + CastlingFlags(b, BLACK)
  }

  /** python-chess gives one flag per square of the 8x8 board. */
  ghost predicate SquareMasks<M>(b: Board<M>) {
    forall p, c :: PAWN <= p <= KING ==> |b.pieces(p, c)| == 64
  }

  /** Where the mask of piece type `p` (1 .. 6) and colour `color` starts. */
  function LayerOffset(p: int, color: bool): (o: int)
    ensures PAWN <= p <= KING ==> 0 <= o && o + 64 <= 770
  {
    (if color == WHITE then 0 else 386) + 64 * (p - 1)
  }

  /** With 64-square masks, piece type `p` of one colour occupies the 64
      entries from `64 * (p - 1)` on, for every `p` up to `k`. */
  lemma {:induction false} LayersLayout<M>(b: Board<M>, color: bool, k: nat)
    requires k <= KING && SquareMasks(b)
    ensures |Layers(b, color, k)| == 64 * k
    ensures forall p, sq :: PAWN <= p <= k && 0 <= sq < 64 ==>
      Layers(b, color, k)[64 * (p - 1) + sq] == b.pieces(p, color)[sq]
  {
    if k > 0 {
      LayersLayout(b, color, k - 1);
      assert |b.pieces(k, color)| == 64;
    }
  }

  /** The bitboard has 772 entries. Entry `LayerOffset(p, c) + sq` is the
      square-`sq` flag of piece type `p` and colour `c`, so White's pieces
      fill 0 .. 383 and Black's 386 .. 769; entries 384 and 385 are White's
      castling and queenside-castling flags, 770 and 771 Black's. */
  lemma BitboardLayout<M>(b: Board<M>)
    requires SquareMasks(b)
    ensures |ConvertFenToBitboard(b)| == 772
    ensures ConvertFenToBitboard(b)[384] == b.hasCastlingRights(WHITE)
    ensures ConvertFenToBitboard(b)[385] == b.hasQueensideCastlingRights(WHITE)
    ensures ConvertFenToBitboard(b)[770] == b.hasCastlingRights(BLACK)
    ensures ConvertFenToBitboard(b)[771] == b.hasQueensideCastlingRights(BLACK)
    ensures forall p, c, sq :: PAWN <= p <= KING && 0 <= sq < 64 ==>
      ConvertFenToBitboard(b)[LayerOffset(p, c) + sq] == b.pieces(p, c)[sq]
  {
    LayersLayout(b, WHITE, KING);
    LayersLayout(b, BLACK, KING);
    var w := Layers(b, WHITE, KING);
    var k := Layers(b, BLACK, KING);
    var r := ConvertFenToBitboard(b);
    assert r == w + CastlingFlags(b, WHITE) + k + CastlingFlags(b, BLACK);
    forall p, c, sq | PAWN <= p <= KING && 0 <= sq < 64
      ensures r[LayerOffset(p, c) + sq] == b.pieces(p, c)[sq]
    {
      if c == WHITE {
        assert r[LayerOffset(p, c) + sq] == w[64 * (p - 1) + sq];
      } else {
        assert r[LayerOffset(p, c) + sq] == k[64 * (p - 1) + sq];
      }
    }
  }
}
