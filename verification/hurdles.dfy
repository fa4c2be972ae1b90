/** `HURDLE_MASKS`: for every 6-bit hurdle mask m, the board whose rows are
    full exactly where m has a bit set. A placement whose piece straddles rows
    that must be cleared first ("hurdles") is only possible once those rows are full. */
module Hurdles {
  import opened Words
  import opened BitBoards

  /** `HURDLE_MASKS[m]`: row y (y < 6) full when bit y of m is set, empty otherwise. */
  function HurdleMask(m: nat): (r: BitBoard)
    requires m < 64
    ensures forall x, y :: Occupied(r, x, y) <==> 0 <= x < 10 && 0 <= y < 6 && NatBit(m, y)
  {
    BitBoard(seq(64, i requires 0 <= i < 64 => i < 60 && NatBit(m, i / 10)))
  }

  /** Removing `on` from a hurdle mask leaves nothing exactly when every
      hurdle row is full on `on`. */
  lemma HurdlesCleared(m: nat, on: BitBoard)
    requires m < 64
    ensures Remove(HurdleMask(m), on) == BitBoard(ZERO)
        <==> forall y :: 0 <= y < 6 && NatBit(m, y) ==> LineFilled(on, y)
  {
    EmptyBoard(Remove(HurdleMask(m), on));
    if forall y :: 0 <= y < 6 && NatBit(m, y) ==> LineFilled(on, y) {
      forall x, y
        ensures !Occupied(Remove(HurdleMask(m), on), x, y)
      {
        if Occupied(HurdleMask(m), x, y) {
          assert LineFilled(on, y);
        }
      }
    }
    if Remove(HurdleMask(m), on) == BitBoard(ZERO) {
      forall y | 0 <= y < 6 && NatBit(m, y)
        ensures LineFilled(on, y)
      {
        forall x | 0 <= x < 10
          ensures Occupied(on, x, y)
        {
          assert !Occupied(Remove(HurdleMask(m), on), x, y);
        }
      }
    }
  }

  /** The `const` block that fills `HURDLE_MASKS`: for each m, starting from
      row 5 and working down, shift the lines built so far up one row and
      fill the new bottom row when bit i of m is set. `i` is an `i32` that
      ends at -1. */
  method BuildHurdleMasks() returns (table: seq<U64>)
    ensures |table| == 64
    ensures forall m :: 0 <= m < 64 ==> table[m] == HurdleMask(m).bits
  {
    table := seq(64, _ => ZERO);
    var m := 0;
    while m < 64
      invariant 0 <= m <= 64 && |table| == 64
      invariant forall k :: 0 <= k < m ==> table[k] == HurdleMask(k).bits
    {
      var lines := ZERO;
      var i: int := 5;
      while i >= 0
        invariant -1 <= i <= 5
        invariant forall k :: 0 <= k < 64 ==>
          (lines[k] <==> k < 10 * (5 - i) && NatBit(m, i + 1 + k / 10))
      {
        lines := Shl(lines, 10);
        SingleBit(FromNat(m), i);
        if And(FromNat(m), Shl(ONE, i)) != ZERO {
          lines := Or(lines, ROW_MASK);
        }
        i := i - 1;
      }
      assert forall k :: 0 <= k < 64 ==> lines[k] == HurdleMask(m).bits[k];
      table := table[m := lines];
      m := m + 1;
    }
  }
}
