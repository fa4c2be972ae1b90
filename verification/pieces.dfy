/** The seven tetrominoes, their table order and their one-letter names. */
module Pieces {

  datatype Piece = S | Z | J | L | T | O | I

  /** `PIECES`: every piece, in declaration order. */
  const PIECES: seq<Piece> := [S, Z, J, L, T, O, I]

  /** The letters `PieceSet`'s `Display` writes, indexed like `PIECES`. */
  const NAMES: string := "SZJLTOI"

  /** `p as usize`: the declaration index of a piece. */
  function Index(p: Piece): (r: nat)
    ensures r < |PIECES| && PIECES[r] == p
  {
    match p
    case S => 0
    case Z => 1
    case J => 2
    case L => 3
    case T => 4
    case O => 5
    case I => 6
  }

  /** `Piece::from(i)`: reads `PIECES[i]`, which panics when i >= 7. */
  function FromIndex(i: nat): (r: Piece)
    requires i < |PIECES|
    ensures Index(r) == i
  {
    PIECES[i]
  }

  /** Piece's `Display`, which writes the derived `Debug` text: the variant's name. */
  function Letter(p: Piece): (r: char)
    ensures r == NAMES[Index(p)]
  {
    match p
    case S => 'S'
    case Z => 'Z'
    case J => 'J'
    case L => 'L'
    case T => 'T'
    case O => 'O'
    case I => 'I'
  }

  /** Index and `Piece::from` are inverse bijections between the pieces and 0..7. */
  lemma IndexBijection(p: Piece, i: nat)
    requires i < |PIECES|
    ensures FromIndex(Index(p)) == p
    ensures Index(FromIndex(i)) == i
    ensures Index(p) == i <==> FromIndex(i) == p
  {
  }

  /** Different pieces have different letters. */
  lemma LetterInjective(p: Piece, q: Piece)
    ensures Letter(p) == Letter(q) <==> p == q
  {
  }

  /** A piece spelled out letter by letter. */
  function Letters(q: seq<Piece>): (r: string)
    ensures |r| == |q|
    ensures forall k :: 0 <= k < |q| ==> r[k] == Letter(q[k])
  {
    seq(|q|, k requires 0 <= k < |q| => Letter(q[k]))
  }
}
