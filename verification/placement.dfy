/** `Placement`: a piece orientation from the generated placement table,
    moved x columns to the right, with the support checks the search uses and
    the conversion to SRS coordinates. */
module Placements {
  import opened Words
  import opened Pieces
  import opened BitBoards
  import opened Hurdles

  datatype Rotation = North | East | South | West

  /** A piece in SRS coordinates; `x` and `y` are `i32` in the source. */
  datatype SrsPiece = SrsPiece(piece: Piece, rotation: Rotation, x: int, y: int)

  /** The fields of a generated `PieceState` that lib.rs reads: the cells of
      the piece at column offset 0, the cells directly below it, the cells it
      passes through on a hard drop, the bit set of rows it needs full
      (`hurdles`), its lowest row `y`, and its SRS pieces. */
  datatype PieceState = PieceState(
    board: BitBoard,
    belowMask: BitBoard,
    harddropMask: BitBoard,
    hurdles: nat,
    y: nat,
    pieceSrs: seq<SrsPiece>)

  datatype Placement = Placement(kind: PieceState, x: U8)

  /** Moving b right by x columns keeps every cell inside the field and the word. */
  ghost predicate FitsAt(b: BitBoard, x: nat) {
    forall cx, cy :: Occupied(b, cx, cy) ==> cx + x < 10 && cx + x + 10 * cy < 64
  }

  /** `BitBoard(b.0 << x)`. The shift panics for x >= 64. When the cells fit,
      it moves every cell x columns to the right and does nothing else. */
  function Shifted(b: BitBoard, x: nat): (r: BitBoard)
    requires x < 64
    ensures FitsAt(b, x) ==> forall cx, cy :: Occupied(r, cx, cy) <==> x <= cx && Occupied(b, cx - x, cy)
  {
    ShiftedCells(b, x);
    BitBoard(Shl(b.bits, x))
  }

  lemma ShiftedCells(b: BitBoard, x: nat)
    requires x < 64
    ensures FitsAt(b, x) ==>
      forall cx, cy :: Occupied(BitBoard(Shl(b.bits, x)), cx, cy) <==> x <= cx && Occupied(b, cx - x, cy)
  {
    if FitsAt(b, x) {
      var r := BitBoard(Shl(b.bits, x));
      forall cx, cy
        ensures Occupied(r, cx, cy) <==> x <= cx && Occupied(b, cx - x, cy)
      {
        if Occupied(r, cx, cy) {
          var j := cx + 10 * cy - x;
          assert Occupied(b, j % 10, j / 10);
        }
      }
    }
  }

  /** `board()`: the piece's cells at column offset x. */
  function Board(p: Placement): (r: BitBoard)
    requires p.x < 64
    ensures FitsAt(p.kind.board, p.x) ==>
      forall cx, cy :: Occupied(r, cx, cy) <==> p.x <= cx && Occupied(p.kind.board, cx - p.x, cy)
  {
    Shifted(p.kind.board, p.x)
  }

  /** `harddrop_mask()`: the cells the piece sweeps on a hard drop, at column offset x. */
  function HarddropMask(p: Placement): (r: BitBoard)
    requires p.x < 64
    ensures FitsAt(p.kind.harddropMask, p.x) ==>
      forall cx, cy :: Occupied(r, cx, cy) <==> p.x <= cx && Occupied(p.kind.harddropMask, cx - p.x, cy)
  {
    Shifted(p.kind.harddropMask, p.x)
  }

  /** Every row named in the hurdle bit set is full on `on`. */
  predicate HurdlesFilled(hurdles: nat, on: BitBoard) {
    forall y :: 0 <= y < 6 && NatBit(hurdles, y) ==> LineFilled(on, y)
  }

  /** `supported_without_clears(on)`: every hurdle row is full, and the piece
      either lies on the floor or some filled cell of `on` sits directly below
      it. Indexing `HURDLE_MASKS` panics for hurdles >= 64; the shift by x
      panics for x >= 64, but only runs when the hurdle rows are full and the
      piece is off the floor. */
  function SupportedWithoutClears(p: Placement, on: BitBoard): (r: bool)
    requires p.kind.hurdles < 64
    requires p.kind.y != 0 && HurdlesFilled(p.kind.hurdles, on) ==> p.x < 64
    ensures r <==> (HurdlesFilled(p.kind.hurdles, on)
                    && (p.kind.y == 0 || exists cx, cy :: Occupied(on, cx, cy) && Occupied(Shifted(p.kind.belowMask, p.x), cx, cy)))
  {
    HurdlesCleared(p.kind.hurdles, on);
    if Remove(HurdleMask(p.kind.hurdles), on) != BitBoard(ZERO) then false
    else p.kind.y == 0 || Overlaps(on, Shifted(p.kind.belowMask, p.x))
  }

  // ---------------------------------------------------------------------
  // Support after line clears
  // ---------------------------------------------------------------------

  /** Row y after the loop of `supported_after_clears`: a full row (from row 1
      up) takes the contents row y - 1 has by then, any other row keeps its own. */
  function PropagatedRow(on: BitBoard, y: nat): (r: seq<bool>)
    requires y < 6
    ensures |r| == 10
  {
    if y == 0 || !Full(Row(on, y)) then Row(on, y) else PropagatedRow(on, y - 1)
  }

  /** `on` after that loop: rows replaced as above, bits 60 to 63 untouched. */
  function Propagated(on: BitBoard): (r: BitBoard) {
    BitBoard(seq(64, i requires 0 <= i < 64 => if i < 60 then PropagatedRow(on, i / 10)[i % 10] else on.bits[i]))
  }

  lemma PropagatedRows(on: BitBoard)
    ensures forall y :: 0 <= y < 6 ==> Row(Propagated(on), y) == PropagatedRow(on, y)
    ensures Top(Propagated(on)) == Top(on)
  {
    var q := Propagated(on);
    forall y | 0 <= y < 6
      ensures Row(q, y) == PropagatedRow(on, y)
    {
      forall x | 0 <= x < 10
        ensures Row(q, y)[x] == PropagatedRow(on, y)[x]
      {
        var i := 10 * y + x;
        assert i / 10 == y && i % 10 == x;
        assert q.bits[i] == PropagatedRow(on, y)[x];
      }
    }
    assert Top(q) == Top(on);
  }

  /** Each row of the propagated board is the nearest row at or below it
      that is not full (row 0 when every row down to 0 is full): a piece
      resting on a full row rests, once that row is cleared, on what is under it. */
  lemma {:induction false} PropagatedRowSource(on: BitBoard, y: nat)
    requires y < 6
    ensures exists j :: 0 <= j <= y && PropagatedRow(on, y) == Row(on, j)
                     && (j == 0 || !Full(Row(on, j)))
                     && forall k :: j < k <= y ==> Full(Row(on, k))
  {
    if y > 0 && Full(Row(on, y)) {
      PropagatedRowSource(on, y - 1);
      var j :| 0 <= j <= y - 1 && PropagatedRow(on, y - 1) == Row(on, j)
             && (j == 0 || !Full(Row(on, j)))
             && forall k :: j < k <= y - 1 ==> Full(Row(on, k));
      assert PropagatedRow(on, y) == Row(on, j);
      assert forall k :: j < k <= y ==> Full(Row(on, k));
    } else {
      assert PropagatedRow(on, y) == Row(on, y);
    }
  }

  /** The loop only ever clears cells: every filled cell of the propagated
      board is filled in `on`. */
  lemma PropagatedWithin(on: BitBoard)
    ensures forall x, y :: Occupied(Propagated(on), x, y) ==> Occupied(on, x, y)
  {
    PropagatedRows(on);
    forall x, y | Occupied(Propagated(on), x, y)
      ensures Occupied(on, x, y)
    {
      if y < 6 {
        assert PropagatedRow(on, y)[x];
        assert Row(on, y)[x];
      } else {
        assert Top(Propagated(on))[x] == Top(on)[x];
      }
    }
  }

  /** One iteration: `on.0 &= (on.0 << 10) | !((1 << 10) - 1 << 10 * y)` on a
      full row y copies row y - 1 into it and changes nothing else. */
  lemma PropagateStep(cur: BitBoard, y: nat, next: BitBoard)
    requires 1 <= y < 6 && LineFilled(cur, y)
    requires next == BitBoard(And(cur.bits, Or(Shl(cur.bits, 10), Not(Shl(ROW_MASK, 10 * y)))))
    ensures Row(next, y) == Row(cur, y - 1)
    ensures forall j :: 0 <= j < 6 && j != y ==> Row(next, j) == Row(cur, j)
    ensures Top(next) == Top(cur)
  {
    forall i | 0 <= i < 64
      ensures next.bits[i] == if 10 * y <= i < 10 * y + 10 then cur.bits[i - 10] else cur.bits[i]
    {
      if 10 * y <= i < 10 * y + 10 {
        assert Occupied(cur, i - 10 * y, y);
      }
    }
    forall j | 0 <= j < 6
      ensures Row(next, j) == if j == y then Row(cur, y - 1) else Row(cur, j)
    {
      assert forall x :: 0 <= x < 10 ==> Row(next, j)[x] == next.bits[10 * j + x];
    }
  }

  /** `supported_after_clears(on)`: like `supported_without_clears`, but a
      full row under the piece does not count, since it will be cleared: the
      piece must rest on what the nearest row below that stays has there, or
      on row 0 itself when every row from 0 up to that one is full. */
  method SupportedAfterClears(p: Placement, on: BitBoard) returns (r: bool)
    requires p.kind.hurdles < 64
    requires p.kind.y != 0 && HurdlesFilled(p.kind.hurdles, on) ==> p.x < 64
    ensures r <==> (HurdlesFilled(p.kind.hurdles, on)
                    && (p.kind.y == 0 || Overlaps(Propagated(on), Shifted(p.kind.belowMask, p.x))))
    ensures r ==> SupportedWithoutClears(p, on)
  {
    HurdlesCleared(p.kind.hurdles, on);
    PropagatedWithin(on);
    if Remove(HurdleMask(p.kind.hurdles), on) != BitBoard(ZERO) {
      return false;
    }
    var cur := on;
    for y := 1 to 6
      invariant Top(cur) == Top(on)
      invariant forall j :: 0 <= j < y ==> Row(cur, j) == PropagatedRow(on, j)
      invariant forall j :: y <= j < 6 ==> Row(cur, j) == Row(on, j)
    {
      if LineFilled(cur, y) {
        var next := BitBoard(And(cur.bits, Or(Shl(cur.bits, 10), Not(Shl(ROW_MASK, 10 * y)))));
        PropagateStep(cur, y, next);
        cur := next;
      }
    }
    PropagatedRows(on);
    BoardFromRows(cur, Propagated(on));
    r := p.kind.y == 0 || Overlaps(cur, Shifted(p.kind.belowMask, p.x));
  }

  // ---------------------------------------------------------------------
  // SRS coordinates
  // ---------------------------------------------------------------------

  /** `srs_piece(board)`: the piece's SRS pieces moved x columns right and
      down by the number of full rows below the piece's lowest row, since
      those rows are gone once lines clear. Collecting into an
      `ArrayVec<[SrsPiece; 4]>` panics beyond four elements, and the row
      shift `10 * i` panics from i = 7 on. `i32` overflow is not modelled. */
  method SrsPieces(p: Placement, board: BitBoard) returns (r: seq<SrsPiece>)
    requires p.kind.y <= 7 && |p.kind.pieceSrs| <= 4
    ensures |r| == |p.kind.pieceSrs|
    ensures forall k :: 0 <= k < |r| ==>
      var q := p.kind.pieceSrs[k];
      r[k] == SrsPiece(q.piece, q.rotation, p.x + q.x, q.y - FullRowsBelow(board, p.kind.y))
  {
    var belowLines := 0;
    for i := 0 to p.kind.y
      invariant belowLines == FullRowsBelow(board, i)
    {
      FullRowsBelowStep(board, i);
      RowWindow(board, i);
      if And(Shr(board.bits, 10 * i), ROW_MASK) == ROW_MASK {
        belowLines := belowLines + 1;
      }
    }
    r := [];
    for k := 0 to |p.kind.pieceSrs|
      invariant |r| == k
      invariant forall j :: 0 <= j < k ==>
        var q := p.kind.pieceSrs[j];
        r[j] == SrsPiece(q.piece, q.rotation, p.x + q.x, q.y - belowLines)
    {
      var q := p.kind.pieceSrs[k];
      r := r + [q.(x := p.x + q.x, y := q.y - belowLines)];
    }
  }

  /** A row that is not full lands, after `lines_cleared`, exactly as many
      rows lower as there are full rows below it: the amount `srs_piece`
      moves a piece resting on it. */
  lemma RowLanding(b: BitBoard, y: nat)
    requires y < 6 && !LineFilled(b, y)
    ensures y - FullRowsBelow(b, y) >= 0
    ensures Row(Compacted(b), y - FullRowsBelow(b, y)) == Row(b, y)
  {
    KeptCount(b, y);
    KeptAt(Rows(b), y);
    StackRows(Kept(Rows(b)));
  }
}
