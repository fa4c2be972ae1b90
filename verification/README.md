# pcf-wasm value layer in Dafny

This project models the primitives of `src/lib.rs` in pcf-wasm, a Tetris
perfect-clear finder. Both of its search engines are built on these primitives:

- the seven pieces and their table order;
- `PieceSet`, a bag of pieces kept as seven `u8` counts;
- `BitBoard`, a 10-column field packed into a `u64`, with cell (x, y) at bit
  x + 10y;
- the `HURDLE_MASKS` table;
- the support checks and SRS conversion of a `Placement`;
- the character filter that turns the `get_pc` queue string into pieces.

Rust's `u64` is modelled as a sequence of 64 bits, least significant first
(`Words.U64`). `|`, `&`, `!`, `<<` and `>>` are defined bit by bit. `- 1` is
borrow propagation, which `Words.Sub1Value` proves to be subtraction on the
number the word denotes.

The six loops below are methods with loop invariants, each proved equal to a
specification written without loops. The `map` over the SRS pieces in
`srs_piece` is the second loop of `SrsPieces`. The `for` loop of `PieceSet`'s
`FromIterator` and the `filter_map` of `get_pc` are recursive functions
(`PieceSets.FromPieces`, `Queues.ParseQueue`).

| source loop | method | proved equal to |
|---|---|---|
| `lines_cleared` | `LinesCleared` | `Compacted` |
| `leftmost_empty_column` | `LeftmostEmptyColumn` | a least-column property |
| the `HURDLE_MASKS` block | `BuildHurdleMasks` | `HurdleMask` |
| `supported_after_clears` | `SupportedAfterClears` | `Propagated` |
| below-line count of `srs_piece` | `SrsPieces` | `FullRowsBelow` |
| `PieceSet`'s `Display` | `PieceSets.Display` | `Spelled` |

A panic in a Rust debug build becomes a precondition. This covers shifts of 64
or more, `u8` overflow and underflow, out-of-range indices and a full
`ArrayVec`. A precondition covers only the paths on which the operation runs:
the support checks need `x < 64` only when the shift by x is evaluated.

Two behaviours of the code worth noting:

- `supported_after_clears` checks the hurdle rows on the board as given, before
  the row propagation loop runs (src/lib.rs:171-172, then 177-181).
- `lines_cleared` always clears bits 60 to 63. So it is the identity only on
  boards with no full row *and* nothing above row 5 (`BitBoards.CompactedIdentity`).

Files:

| file | contents |
|---|---|
| `words.dfy` | the word |
| `pieces.dfy` | `Piece` |
| `queue.dfy` | queue parsing |
| `piece_set.dfy` | `PieceSet` |
| `bitboard.dfy` | `BitBoard` |
| `hurdles.dfy` | `HURDLE_MASKS` |
| `placement.dfy` | `Placement` |

## Model

| member | source | states |
|---|---|---|
| Words.Sub1Value | src/lib.rs:103 | `w - 1` by borrow propagation is one less than `w` as a number, for nonzero `w` |
| Words.OnesBelow | src/lib.rs:103 | `(1 << n) - 1` is exactly the n low bits, for n < 64 |
| Words.SingleBit | src/lib.rs:123 | `w & 1 << i != 0` holds exactly when bit i of `w` is set |
| Words.TrailingZeros | src/lib.rs:153 | `trailing_zeros` returns the position of the lowest set bit, or the width when no bit is set; every bit below it is clear |
| Pieces.Index | src/lib.rs:37-45 | `p as usize` is below 7, and `PIECES` holds p at that position |
| Pieces.FromIndex | src/lib.rs:31-35 | `Piece::from(i)` for i < 7 is the piece whose index is i |
| Pieces.IndexBijection | src/lib.rs:31-45 | index and `Piece::from` are inverse bijections between the pieces and 0..7 |
| Pieces.Letter | src/lib.rs:25-29 | a piece displays as the letter `PieceSet`'s `NAMES` table gives for its index |
| Pieces.LetterInjective | src/lib.rs:25-29 | different pieces display differently |
| Queues.ParsePiece | src/lib.rs:268-277 | a character maps to a piece exactly when it is that piece's letter, and maps to nothing when it is no piece's letter |
| Queues.ParseQueue | src/lib.rs:267-278 | the parsed queue is never longer than the string |
| Queues.ParseQueueAppend | src/lib.rs:267-278 | parsing a concatenation gives the concatenation of the parses |
| Queues.ParseLetters | src/lib.rs:267-278 | spelling a queue out letter by letter and parsing it gives the queue back |
| Queues.ParseKeepsPieceLetters | src/lib.rs:267-278 | the parsed queue, spelled out, is the string's piece letters in their order, with every other character dropped |
| Queues.ParseNoLetters | src/lib.rs:267-278 | a string with no piece letter parses to the empty queue |
| PieceSets.SameCounts | src/lib.rs:47-48 | a piece set is determined by its seven counts |
| PieceSets.Empty | src/lib.rs:69-73 | the default set holds no piece |
| PieceSets.Contains | src/lib.rs:57-60 | `contains(p)` holds exactly when the count of p is positive |
| PieceSets.With | src/lib.rs:62-66 | `with(p)` adds one p and changes no other count; it needs the count of p below 255 |
| PieceSets.Without | src/lib.rs:52-55 | `without(p)` removes one p and changes no other count; it needs `contains(p)` |
| PieceSets.WithThenWithout | src/lib.rs:52-66 | `s.with(p).without(p) == s` |
| PieceSets.WithoutThenWith | src/lib.rs:52-66 | `s.without(p).with(p) == s` when s contains p |
| PieceSets.FromPieces | src/lib.rs:87-95 | collecting pieces counts each piece's occurrences; no piece may occur 256 times |
| PieceSets.Display | src/lib.rs:75-85 | the display is count-of-S `S`s, then count-of-Z `Z`s, and so on through `I`, in `PIECES` order |
| PieceSets.DisplayRoundTrip | src/lib.rs:75-95 | the displayed text, parsed as a queue and collected, gives back the same set |
| BitBoards.RowMaskValue | src/lib.rs:128 | `(1 << 10) - 1` is the ten cells of row 0 |
| BitBoards.Filled | src/lib.rs:102-104 | `filled(h)` for h <= 6 fills exactly the cells of rows 0 to h - 1 |
| BitBoards.FilledLines | src/lib.rs:102-104 | on `filled(h)`, row y is full exactly when y < h |
| BitBoards.Combine | src/lib.rs:107-109 | `combine` fills a cell exactly when either board fills it |
| BitBoards.Remove | src/lib.rs:112-114 | `remove` keeps a cell exactly when the first board fills it and the second does not |
| BitBoards.Overlaps | src/lib.rs:117-119 | `overlaps` holds exactly when some cell is filled on both boards |
| BitBoards.EmptyBoard | src/lib.rs:172 | the zero word is the board with no filled cell |
| BitBoards.CombineRemove | src/lib.rs:107-119 | combining in a non-overlapping board and then removing it gives the board back; a result of `remove` never overlaps what was removed |
| BitBoards.CellFilled | src/lib.rs:122-124 | for x < 10, `cell_filled(x, y)` holds exactly when y < 6 and cell (x, y) is filled; in general it reads bit x + 10y |
| BitBoards.RowWindow | src/lib.rs:128 | `self.0 >> 10 * y & (1 << 10) - 1` is row y moved to row 0, with every other bit clear |
| BitBoards.LineFilled | src/lib.rs:127-129 | `line_filled(y)` holds exactly when all ten cells of row y are filled; row 6 never qualifies |
| BitBoards.StackRows | src/lib.rs:132-142 | a word built from k rows has those rows as rows 0 to k - 1, empty rows above, and no bits 60 to 63 |
| BitBoards.LinesCleared | src/lib.rs:132-142 | the result's rows are the non-full input rows in their order, then empty rows, and bits 60 to 63 are clear |
| BitBoards.CompactedIdempotent | src/lib.rs:132-142 | clearing lines twice is the same as clearing them once |
| BitBoards.CompactedIdentity | src/lib.rs:132-142 | a board with no full row and nothing in bits 60 to 63 is unchanged by clearing |
| BitBoards.CompactedHasNoFullRow | src/lib.rs:132-142 | after clearing, no row is full |
| BitBoards.LeftmostEmptyColumn | src/lib.rs:145-154 | for h <= 7, the result is the least column with an empty cell in rows 0 to h - 1, or 10 when there is none (always 10 for h = 0) |
| Hurdles.HurdleMask | src/lib.rs:241-258 | entry m fills row y (y < 6) exactly when bit y of m is set, and fills nothing else |
| Hurdles.BuildHurdleMasks | src/lib.rs:241-258 | the nested loop with its `i32` counter running from 5 down to -1 produces `HurdleMask(m)` for every m < 64 |
| Hurdles.HurdlesCleared | src/lib.rs:171-172 | removing `on` from hurdle mask m leaves the empty board exactly when every row named by m is full on `on` |
| Placements.Shifted | src/lib.rs:165-166 | `<< x` moves every cell x columns right when the cells fit |
| Placements.Board | src/lib.rs:165-167 | `board()` is the piece's cells moved x columns right |
| Placements.HarddropMask | src/lib.rs:198-200 | `harddrop_mask()` is the swept cells moved x columns right |
| Placements.SupportedWithoutClears | src/lib.rs:187-195 | the check holds exactly when every hurdle row is full and either the piece is on the floor or a filled cell of `on` lies under it; x < 64 is needed only when the shift is reached |
| Placements.PropagateStep | src/lib.rs:177-181 | one iteration on a full row y copies row y - 1 into row y and leaves every other bit alone |
| Placements.PropagatedRowSource | src/lib.rs:176-181 | after the loop, each row holds the nearest row at or below it that is not full, or row 0 when every row down to 0 is full |
| Placements.PropagatedWithin | src/lib.rs:176-181 | the loop only clears cells |
| Placements.SupportedAfterClears | src/lib.rs:170-184 | the check holds exactly when every hurdle row is full and either the piece is on the floor or the propagated board has a cell under it; it implies `supported_without_clears`; x < 64 is needed only when the shift is reached |
| Placements.SrsPieces | src/lib.rs:203-219 | every SRS piece keeps its kind and rotation, moves x columns right, and moves down by the number of full rows below the piece's lowest row |
| BitBoards.KeptAt | src/lib.rs:135-140 | a non-full row sits among the kept rows right after the rows kept below it |
| Placements.RowLanding | src/lib.rs:204-215 | a non-full row y lands, after `lines_cleared`, in row y minus the number of full rows below it, which is the amount `srs_piece` subtracts |

## Left out

- The search engines in `mod combination` and `mod solve`: their sources are not part of this model.
- The generated placement table `data.rs`: `PieceState` is a record of the six fields `lib.rs` reads. What the generator puts in them is not modelled.
- `placeability::simple_srs_spins` and `common::add_placement_pages`: their modules are not part of this model.
- `get_pc` apart from its character filter. This covers the `allow_hold` default, the call to `solve_pc`, fumen encoding and the `wasm_bindgen` export, all of which are foreign-library or FFI plumbing.
- The `AtomicBool` cancellation flag: it only signals across threads.
- The benchmarks and the JavaScript loader: they state no behaviour.
- Release-build wrap-around. The model follows the debug build, where overflowing `u8`, shift and index operations panic; each such panic is a precondition.
- PieceSets.Display: formatter errors propagated by `?` are not modelled; writing is assumed to succeed.
- Placements.SrsPieces: `i32` overflow of `self.x as i32 + p.x` and `p.y - below_lines` is not modelled; coordinates are unbounded integers.
- Placements.Shifted: the contract describes the shift only when every cell stays inside its row and the word. Cells that would wrap into the next row or fall off bit 63 are left unconstrained.
- Placements.Board: described only when the piece's cells fit at offset x, for the same reason as `Shifted`.
- Placements.HarddropMask: described only when the swept cells fit at offset x, for the same reason as `Shifted`.
- The derived `Debug`, `Hash`, `Clone` and `Default` impls, apart from `PieceSet`'s `Default` and `Piece`'s `Display`: they state no behaviour beyond the data.
