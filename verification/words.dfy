/** Rust's `u64` as a sequence of 64 bits, least significant bit first.

    The bitwise operators are defined bit by bit, the shifts as moves of bit
    positions, and `- 1` by borrow propagation, which `Sub1Value` proves to be
    subtraction of the number the word denotes. A shift amount of 64 or more
    panics in Rust (debug build), so every shift requires a smaller amount. */
module Words {

  type U64 = s: seq<bool> | |s| == 64 witness seq(64, _ => false)

  /** Rust's `u8`. */
  type U8 = n: nat | n < 256

  /** The word whose bits below n are set and no other. */
  function Low(n: nat): U64 {
    seq(64, i => i < n)
  }

  const ZERO: U64 := Low(0)
  const ONE: U64 := Low(1)

  /** `a | c` */
  function Or(a: U64, c: U64): U64 {
    seq(64, i requires 0 <= i < 64 => a[i] || c[i])
  }

  /** `a & c` */
  function And(a: U64, c: U64): U64 {
    seq(64, i requires 0 <= i < 64 => a[i] && c[i])
  }

  /** `!a` */
  function Not(a: U64): U64 {
    seq(64, i requires 0 <= i < 64 => !a[i])
  }

  /** `w << n`: bit i moves to i + n; bits pushed past 63 are lost. */
  function Shl(w: U64, n: nat): U64
    requires n < 64
  {
    seq(64, i requires 0 <= i < 64 => n <= i && w[i - n])
  }

  /** `w >> n`: bit i + n moves to i; zeros enter from the top. */
  function Shr(w: U64, n: nat): U64
    requires n < 64
  {
    seq(64, i requires 0 <= i < 64 => i + n < 64 && w[i + n])
  }

  /** The number a bit string denotes, least significant bit first. */
  function Value(s: seq<bool>): nat {
    if |s| == 0 then 0 else (if s[0] then 1 else 0) + 2 * Value(s[1..])
  }

  /** Subtract one from a bit string by borrow propagation: the low zeros
      become ones and the lowest one becomes zero. */
  function Decrement(s: seq<bool>): (r: seq<bool>)
    ensures |r| == |s|
  {
    if |s| == 0 then []
    else if s[0] then [false] + s[1..]
    else [true] + Decrement(s[1..])
  }

  /** `w - 1`; Rust panics (debug build) when w is zero. */
  function Sub1(w: U64): U64
    requires w != ZERO
  {
    Decrement(w)
  }

  /** `u64::trailing_zeros`: the number of zero bits below the lowest one
      (the full width when there is none). */
  function TrailingZeros(s: seq<bool>): (r: nat)
    ensures r <= |s|
    ensures forall j :: 0 <= j < r ==> !s[j]
    ensures r < |s| ==> s[r]
  {
    if |s| == 0 || s[0] then 0 else 1 + TrailingZeros(s[1..])
  }

  /** Bit i of the natural number n. */
  predicate NatBit(n: nat, i: nat) {
    if i == 0 then n % 2 == 1 else NatBit(n / 2, i - 1)
  }

  /** A `usize` value as a word (its low 64 bits). */
  function FromNat(n: nat): U64 {
    seq(64, i requires 0 <= i < 64 => NatBit(n, i))
  }

  // ---------------------------------------------------------------------
  // Arithmetic meaning of the bit operations used by the board code
  // ---------------------------------------------------------------------

  lemma {:induction false} ValueZeroIff(s: seq<bool>)
    ensures Value(s) == 0 <==> forall i :: 0 <= i < |s| ==> !s[i]
  {
    if |s| > 0 {
      ValueZeroIff(s[1..]);
      assert forall i :: 1 <= i < |s| ==> s[1..][i - 1] == s[i];
    }
  }

  /** Borrow propagation is subtraction of one. */
  lemma {:induction false} DecrementValue(s: seq<bool>)
    requires Value(s) > 0
    ensures Value(Decrement(s)) + 1 == Value(s)
  {
    if !s[0] {
      assert Decrement(s)[1..] == Decrement(s[1..]);
      DecrementValue(s[1..]);
    } else {
      assert Decrement(s)[1..] == s[1..];
    }
  }

  /** `Sub1` computes `w - 1` on the number the word denotes. */
  lemma Sub1Value(w: U64)
    requires w != ZERO
    ensures Value(Sub1(w)) + 1 == Value(w)
  {
    var i :| 0 <= i < 64 && w[i] != ZERO[i];
    ValueZeroIff(w);
    DecrementValue(w);
  }

  lemma {:induction false} DecrementPowerOfTwo(s: seq<bool>, n: nat)
    requires n < |s| && s[n]
    requires forall j :: 0 <= j < n ==> !s[j]
    ensures forall j :: 0 <= j < |s| ==> Decrement(s)[j] == (if j <= n then j < n else s[j])
  {
    if n > 0 {
      DecrementPowerOfTwo(s[1..], n - 1);
      assert Decrement(s) == [true] + Decrement(s[1..]);
    }
  }

  /** `(1 << n) - 1` is the word of the n low bits. */
  lemma OnesBelow(n: nat)
    requires n < 64
    ensures Shl(ONE, n) != ZERO
    ensures Sub1(Shl(ONE, n)) == Low(n)
  {
    assert Shl(ONE, n)[n];
    DecrementPowerOfTwo(Shl(ONE, n), n);
  }

  /** A single-bit test `w & 1 << i != 0` reads bit i of w. */
  lemma SingleBit(w: U64, i: nat)
    requires i < 64
    ensures (And(w, Shl(ONE, i)) != ZERO) <==> w[i]
  {
    if w[i] {
      assert And(w, Shl(ONE, i))[i];
    } else {
      assert And(w, Shl(ONE, i)) == ZERO;
    }
  }
}
