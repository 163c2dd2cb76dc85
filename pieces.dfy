/** The piece catalog (`PIECES`): seven fixed square shapes. A shape's
    blocks carry the colour index of its kind, 1..7 in catalog order. */
module Pieces {
  import opened Arena

  datatype Kind = T | O | L | J | I | S | Z

  function Color(k: Kind): int
  {
    match k
    case T => 1
    case O => 2
    case L => 3
    case J => 4
    case I => 5
    case S => 6
    case Z => 7
  }

  /** The template shape of each kind. */
  function Template(k: Kind): Matrix
  {
    match k
    case T => [[0, 0, 0], [1, 1, 1], [0, 1, 0]]
    case O => [[2, 2], [2, 2]]
    case L => [[0, 3, 0], [0, 3, 0], [0, 3, 3]]
    case J => [[0, 4, 0], [0, 4, 0], [4, 4, 0]]
    case I => [[0, 5, 0, 0], [0, 5, 0, 0], [0, 5, 0, 0], [0, 5, 0, 0]]
    case S => [[0, 6, 6], [6, 6, 0], [0, 0, 0]]
    case Z => [[7, 7, 0], [0, 7, 7], [0, 0, 0]]
  }

  /** Side length of each kind's bounding square. */
  function Size(k: Kind): nat
  {
    match k
    case O => 2
    case I => 4
    case _ => 3
  }

  /** Every template is a square of its kind's size, holds a block in the
      middle row, and uses no colour but its own. */
  lemma TemplateWellFormed(k: Kind)
    ensures |Template(k)| == Size(k) && IsShape(Template(k))
    ensures forall i, j :: 0 <= i < |Template(k)| && 0 <= j < |Template(k)[i]| ==>
              Template(k)[i][j] == 0 || Template(k)[i][j] == Color(k)
  {
    var m := Template(k);
    assert m[1][1] == Color(k);
  }

  /** `createPiece`: an independent copy of the template. Shapes are values
      here, so a piece can never share cells with the catalog. */
  function CreatePiece(k: Kind): (m: Matrix)
    ensures m == Template(k)
    ensures |m| == Size(k) && IsShape(m)
    ensures forall i, j :: 0 <= i < |m| && 0 <= j < |m[i]| ==> m[i][j] == 0 || m[i][j] == Color(k)
  {
    TemplateWellFormed(k);
    Template(k)
  }

  /** Different kinds have different colours, so a locked block tells which
      kind left it. */
  lemma ColorsDistinct(k1: Kind, k2: Kind)
    ensures Color(k1) == Color(k2) <==> k1 == k2
    ensures 1 <= Color(k1) <= 7
  {
  }
}
