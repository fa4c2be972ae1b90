/** `BitBoard`: a Tetris field ten columns wide packed into one `u64`.

    Cell (x, y) -- column x, row y, counted from the bottom left -- is bit
    x + 10 * y. Rows 0 to 5 are whole; bits 60 to 63 hold columns 0 to 3 of a
    seventh row that can never be full. Every bit of the word is exactly one
    cell, so the cell view below loses nothing. */
module BitBoards {
  import opened Words

  /** `(1 << 10) - 1`: the ten bits of row 0 (`RowMaskValue` proves the two agree). */
  const ROW_MASK: U64 := Low(10)

  datatype BitBoard = BitBoard(bits: U64)

  /** Whether cell (x, y) is filled. */
  predicate Occupied(b: BitBoard, x: int, y: int) {
    0 <= x < 10 && 0 <= y && x + 10 * y < 64 && b.bits[x + 10 * y]
  }

  /** Row y (y < 6): its ten cells, column 0 first. */
  function Row(b: BitBoard, y: nat): (r: seq<bool>)
    requires y < 6
    ensures |r| == 10
    ensures forall x :: 0 <= x < 10 ==> r[x] == Occupied(b, x, y)
  {
    b.bits[10 * y .. 10 * y + 10]
  }

  /** The six whole rows, bottom first. */
  function Rows(b: BitBoard): (r: seq<seq<bool>>)
    ensures |r| == 6
    ensures forall y :: 0 <= y < 6 ==> r[y] == Row(b, y)
  {
    seq(6, y requires 0 <= y < 6 => Row(b, y))
  }

  /** Bits 60 to 63, above the sixth row. */
  function Top(b: BitBoard): (r: seq<bool>)
    ensures |r| == 4
  {
    b.bits[60..]
  }

  predicate Full(row: seq<bool>) {
    forall x :: 0 <= x < |row| ==> row[x]
  }

  const EMPTY_ROW: seq<bool> := ZERO[..10]

  /** m empty rows. */
  function Blank(m: nat): seq<seq<bool>> {
    seq(m, _ => EMPTY_ROW)
  }

  /** Every element is a row of ten cells. */
  predicate RowShaped(rows: seq<seq<bool>>) {
    forall k :: 0 <= k < |rows| ==> |rows[k]| == 10
  }

  /** The word holding `rows` as rows 0, 1, ... and no other cell. */
  function Stack(rows: seq<seq<bool>>): U64
    requires |rows| <= 6 && RowShaped(rows)
  {
    seq(64, i requires 0 <= i < 64 => i < 10 * |rows| && rows[i / 10][i % 10])
  }

  lemma RowMaskValue()
    ensures Shl(ONE, 10) != ZERO && ROW_MASK == Sub1(Shl(ONE, 10))
  {
    OnesBelow(10);
  }

  /** A board is determined by its rows and its top bits. */
  lemma BoardFromRows(a: BitBoard, b: BitBoard)
    requires Rows(a) == Rows(b) && Top(a) == Top(b)
    ensures a == b
  {
    forall i | 0 <= i < 64
      ensures a.bits[i] == b.bits[i]
    {
      if i < 60 {
        assert Row(a, i / 10)[i % 10] == Row(b, i / 10)[i % 10];
      } else {
        assert Top(a)[i - 60] == Top(b)[i - 60];
      }
    }
  }

  /** The rows of a stacked word are the stacked rows, then empty rows; nothing is above them. */
  lemma StackRows(rows: seq<seq<bool>>)
    requires |rows| <= 6 && RowShaped(rows)
    ensures Rows(BitBoard(Stack(rows))) == rows + Blank(6 - |rows|)
    ensures Top(BitBoard(Stack(rows))) == ZERO[60..]
  {
    var b := BitBoard(Stack(rows));
    forall y | 0 <= y < 6
      ensures Row(b, y) == (rows + Blank(6 - |rows|))[y]
    {
      forall x | 0 <= x < 10
        ensures Row(b, y)[x] == (rows + Blank(6 - |rows|))[y][x]
      {
        assert Row(b, y)[x] == b.bits[10 * y + x];
      }
    }
  }

  // ---------------------------------------------------------------------
  // Whole-board operations
  // ---------------------------------------------------------------------

  /** `BitBoard::filled(height)`: `(1 << height * 10) - 1`, the bottom `height`
      rows. A shift of 70 panics, so height is at most 6. */
  function Filled(height: nat): (r: BitBoard)
    requires height <= 6
    ensures forall x, y :: Occupied(r, x, y) <==> 0 <= x < 10 && 0 <= y < height
  {
    OnesBelow(10 * height);
    BitBoard(Sub1(Shl(ONE, 10 * height)))
  }

  /** On `filled(h)` exactly the rows below h are full. */
  lemma FilledLines(height: nat, y: nat)
    requires height <= 6 && y <= 6
    ensures LineFilled(Filled(height), y) <==> y < height
  {
    if y >= height {
      assert !Occupied(Filled(height), 0, y);
    }
  }

  /** `combine`: `|`, the union of the filled cells. */
  function Combine(a: BitBoard, c: BitBoard): (r: BitBoard)
    ensures forall x, y :: Occupied(r, x, y) <==> Occupied(a, x, y) || Occupied(c, x, y)
  {
    BitBoard(Or(a.bits, c.bits))
  }

  /** `remove`: `& !`, the cells of a that are not in c. */
  function Remove(a: BitBoard, c: BitBoard): (r: BitBoard)
    ensures forall x, y :: Occupied(r, x, y) <==> Occupied(a, x, y) && !Occupied(c, x, y)
  {
    BitBoard(And(a.bits, Not(c.bits)))
  }

  lemma OverlapCell(a: BitBoard, c: BitBoard)
    ensures And(a.bits, c.bits) != ZERO <==> exists x, y :: Occupied(a, x, y) && Occupied(c, x, y)
  {
    if And(a.bits, c.bits) != ZERO {
      var i :| 0 <= i < 64 && And(a.bits, c.bits)[i] != ZERO[i];
      assert Occupied(a, i % 10, i / 10) && Occupied(c, i % 10, i / 10);
    }
    if exists x, y :: Occupied(a, x, y) && Occupied(c, x, y) {
      var x, y :| Occupied(a, x, y) && Occupied(c, x, y);
      assert And(a.bits, c.bits)[x + 10 * y];
    }
  }

  /** `overlaps`: `& != 0`, some cell is filled in both. */
  function Overlaps(a: BitBoard, c: BitBoard): (r: bool)
    ensures r <==> exists x, y :: Occupied(a, x, y) && Occupied(c, x, y)
  {
    OverlapCell(a, c);
    And(a.bits, c.bits) != ZERO
  }

  /** The zero word is the board with no filled cell. */
  lemma EmptyBoard(b: BitBoard)
    ensures b == BitBoard(ZERO) <==> forall x, y :: !Occupied(b, x, y)
  {
    if forall x, y :: !Occupied(b, x, y) {
      forall i | 0 <= i < 64
        ensures !b.bits[i]
      {
        assert !Occupied(b, i % 10, i / 10);
      }
    }
  }

  /** Removing what was just combined in gives the board back, provided the
      two did not overlap; and nothing removed overlaps what was removed. */
  lemma CombineRemove(b: BitBoard, m: BitBoard)
    ensures !Overlaps(b, m) ==> Remove(Combine(b, m), m) == b
    ensures !Overlaps(Remove(b, m), m)
  {
    if !Overlaps(b, m) {
      forall i | 0 <= i < 64
        ensures Remove(Combine(b, m), m).bits[i] == b.bits[i]
      {
        assert Occupied(b, i % 10, i / 10) == b.bits[i];
      }
    }
  }

  /** `cell_filled(x, y)`: `y < 6 && self.0 & 1 << x + y * 10 != 0`. The shift
      panics at 64 or more, which can only happen once `y < 6` has held. */
  function CellFilled(b: BitBoard, x: nat, y: nat): (r: bool)
    requires y < 6 ==> x + 10 * y < 64
    ensures x < 10 ==> (r <==> y < 6 && Occupied(b, x, y))
    ensures r <==> y < 6 && b.bits[x + 10 * y]
  {
    y < 6 && (SingleBit(b.bits, x + 10 * y); And(b.bits, Shl(ONE, x + 10 * y)) != ZERO)
  }

  /** `line_filled(y)`: `self.0 >> 10 * y & (1 << 10) - 1 == (1 << 10) - 1`.
      The shift panics for y > 6; row 6 has only four cells and is never full. */
  function LineFilled(b: BitBoard, y: nat): (r: bool)
    requires y <= 6
    ensures r <==> forall x :: 0 <= x < 10 ==> Occupied(b, x, y)
    ensures r <==> y < 6 && Full(Row(b, y))
  {
    RowWindow(b, y);
    assert y == 6 ==> !Occupied(b, 9, y);
    And(Shr(b.bits, 10 * y), ROW_MASK) == ROW_MASK
  }

  /** `self.0 >> 10 * y & (1 << 10) - 1` is row y moved to the bottom, nothing else. */
  lemma RowWindow(b: BitBoard, y: nat)
    requires y <= 6
    ensures forall i :: 0 <= i < 64 ==> And(Shr(b.bits, 10 * y), ROW_MASK)[i] == (i < 10 && Occupied(b, i, y))
    ensures And(Shr(b.bits, 10 * y), ROW_MASK) == ROW_MASK <==> forall x :: 0 <= x < 10 ==> Occupied(b, x, y)
  {
  }

  // ---------------------------------------------------------------------
  // Line clears
  // ---------------------------------------------------------------------

  /** The rows that are not full, in their order. */
  function Kept(rows: seq<seq<bool>>): (r: seq<seq<bool>>)
    ensures |r| <= |rows|
    ensures forall k :: 0 <= k < |r| ==> r[k] in rows && !Full(r[k])
  {
    if |rows| == 0 then []
    else
      var init, last := rows[..|rows| - 1], rows[|rows| - 1];
      assert forall row :: row in init ==> row in rows;
      Kept(init) + (if Full(last) then [] else [last])
  }

  /** The board after clearing: its non-full rows moved down, in order, onto
      row 0, with every cell above them empty. */
  function Compacted(b: BitBoard): BitBoard {
    BitBoard(Stack(Kept(Rows(b))))
  }

  lemma {:induction false} KeptUnchanged(rows: seq<seq<bool>>)
    requires forall k :: 0 <= k < |rows| ==> !Full(rows[k])
    ensures Kept(rows) == rows
  {
    if |rows| > 0 {
      KeptUnchanged(rows[..|rows| - 1]);
      assert rows == rows[..|rows| - 1] + [rows[|rows| - 1]];
    }
  }

  /** `lines_cleared`: every full row is removed and the rows above it drop. */
  method LinesCleared(b: BitBoard) returns (r: BitBoard)
    ensures Rows(r) == Kept(Rows(b)) + Blank(6 - |Kept(Rows(b))|)
    ensures Top(r) == ZERO[60..]
    ensures r == Compacted(b)
  {
    var acc := ZERO;
    var row := 0;
    for y := 0 to 6
      invariant row == |Kept(Rows(b)[..y])| <= y
      invariant acc == Stack(Kept(Rows(b)[..y]))
    {
      var kept := Kept(Rows(b)[..y]);
      assert Rows(b)[..y + 1][..y] == Rows(b)[..y];
      if !LineFilled(b, y) {
        RowWindow(b, y);
        StackPush(kept, Row(b, y), And(Shr(b.bits, 10 * y), ROW_MASK));
        acc := Or(acc, Shl(And(Shr(b.bits, 10 * y), ROW_MASK), 10 * row));
        row := row + 1;
      }
    }
    assert Rows(b)[..6] == Rows(b);
    r := BitBoard(acc);
    StackRows(Kept(Rows(b)));
  }

  /** Appending one row to a stack is an `|` of the row shifted into place. */
  lemma StackPush(rows: seq<seq<bool>>, row: seq<bool>, low: U64)
    requires |rows| < 6 && RowShaped(rows) && |row| == 10
    requires forall i :: 0 <= i < 64 ==> low[i] == (i < 10 && row[i])
    ensures Stack(rows + [row]) == Or(Stack(rows), Shl(low, 10 * |rows|))
  {
  }

  /** A board with no full row and nothing above row 5 is left as it is. */
  lemma CompactedIdentity(b: BitBoard)
    requires forall y :: 0 <= y < 6 ==> !LineFilled(b, y)
    requires Top(b) == ZERO[60..]
    ensures Compacted(b) == b
  {
    forall k | 0 <= k < 6
      ensures !Full(Rows(b)[k])
    {
      assert !LineFilled(b, k);
    }
    KeptUnchanged(Rows(b));
    StackRows(Rows(b));
    BoardFromRows(Compacted(b), b);
  }

  /** A cleared board has no full row. */
  lemma CompactedHasNoFullRow(b: BitBoard, y: nat)
    requires y <= 6
    ensures !LineFilled(Compacted(b), y)
  {
    var kept := Kept(Rows(b));
    StackRows(kept);
    if y < 6 {
      if y >= |kept| {
        assert Row(Compacted(b), y) == EMPTY_ROW;
        assert !EMPTY_ROW[0];
      } else {
        assert Row(Compacted(b), y) == kept[y];
      }
    }
  }

  /** Clearing twice clears nothing more. */
  lemma CompactedIdempotent(b: BitBoard)
    ensures Compacted(Compacted(b)) == Compacted(b)
  {
    var c := Compacted(b);
    forall y | 0 <= y < 6
      ensures !LineFilled(c, y)
    {
      CompactedHasNoFullRow(b, y);
    }
    StackRows(Kept(Rows(b)));
    CompactedIdentity(c);
  }

  /** How many of rows 0 to n - 1 are full. */
  function FullRowsBelow(b: BitBoard, n: nat): (r: nat)
    requires n <= 7
  {
    |set i: nat | i < n && LineFilled(b, i)|
  }

  lemma FullRowsBelowStep(b: BitBoard, n: nat)
    requires n < 7
    ensures FullRowsBelow(b, n + 1) == FullRowsBelow(b, n) + (if LineFilled(b, n) then 1 else 0)
  {
    var below := set i: nat | i < n && LineFilled(b, i);
    var upTo := set i: nat | i < n + 1 && LineFilled(b, i);
    if LineFilled(b, n) {
      assert upTo == below + {n};
    } else {
      assert upTo == below;
    }
  }

  /** Clearing is done row by row from the bottom, so the kept rows of a
      concatenation are the kept rows of each part. */
  lemma {:induction false} KeptAppend(a: seq<seq<bool>>, c: seq<seq<bool>>)
    ensures Kept(a + c) == Kept(a) + Kept(c)
  {
    if |c| == 0 {
      assert a + c == a;
    } else {
      var init, last := c[..|c| - 1], c[|c| - 1];
      assert (a + c)[..|a + c| - 1] == a + init;
      KeptAppend(a, init);
    }
  }

  /** Among rows 0 to n - 1, those kept and those full add up to n. */
  lemma {:induction false} KeptCount(b: BitBoard, n: nat)
    requires n <= 6
    ensures |Kept(Rows(b)[..n])| + FullRowsBelow(b, n) == n
  {
    if n > 0 {
      KeptCount(b, n - 1);
      FullRowsBelowStep(b, n - 1);
      assert Rows(b)[..n][..n - 1] == Rows(b)[..n - 1];
    }
  }

  /** A row that is not full sits in the kept rows right after the rows kept below it. */
  lemma KeptAt(rows: seq<seq<bool>>, y: nat)
    requires y < |rows| && !Full(rows[y])
    ensures |Kept(rows[..y])| < |Kept(rows)|
    ensures Kept(rows)[|Kept(rows[..y])|] == rows[y]
  {
    assert rows == rows[..y] + [rows[y]] + rows[y + 1..];
    KeptAppend(rows[..y] + [rows[y]], rows[y + 1..]);
    KeptAppend(rows[..y], [rows[y]]);
    assert Kept([rows[y]]) == [rows[y]] by {
      assert [rows[y]][..0] == [];
    }
  }

  // ---------------------------------------------------------------------
  // Leftmost empty column
  // ---------------------------------------------------------------------

  /** `leftmost_empty_column(height)`: the first column with an empty cell in
      rows 0 to height - 1, or 10 when there is none. The shift `i * 10`
      panics from i = 7 on, so height is at most 7. */
  method LeftmostEmptyColumn(b: BitBoard, height: nat) returns (r: nat)
    requires height <= 7
    ensures r <= 10
    ensures forall x, y :: 0 <= x < r && 0 <= y < height ==> Occupied(b, x, y)
    ensures r < 10 ==> exists y :: 0 <= y < height && !Occupied(b, r, y)
  {
    var collapsed := ROW_MASK;
    for i := 0 to height
      invariant forall k :: 0 <= k < 64 ==>
        (collapsed[k] <==> k < 10 && forall j :: 0 <= j < i ==> Occupied(b, k, j))
    {
      var next := And(collapsed, Shr(b.bits, 10 * i));
      forall k | 0 <= k < 64
        ensures next[k] <==> k < 10 && forall j :: 0 <= j < i + 1 ==> Occupied(b, k, j)
      {
        if k < 10 {
          assert Shr(b.bits, 10 * i)[k] == Occupied(b, k, i);
        }
      }
      collapsed := next;
    }
    var empty := Not(collapsed);
    assert empty[10];
    r := TrailingZeros(empty);
    forall x, y | 0 <= x < r && 0 <= y < height
      ensures Occupied(b, x, y)
    {
      assert !empty[x];
    }
  }
}
