/** `PieceSet`: how many of each piece a bag of pieces holds, one `u8` per
    piece, indexed by the piece's declaration index. */
module PieceSets {
  import opened Pieces
  import opened Queues
  import opened Words

  /** `[u8; 7]`, indexed by `Index`. */
  type Counts = s: seq<U8> | |s| == 7 witness [0, 0, 0, 0, 0, 0, 0]

  datatype PieceSet = PieceSet(counts: Counts)

  /** How many copies of p the set holds. */
  function CountOf(s: PieceSet, p: Piece): U8 {
    s.counts[Index(p)]
  }

  /** A piece set is determined by its count of each piece. */
  lemma SameCounts(a: PieceSet, b: PieceSet)
    requires forall p :: CountOf(a, p) == CountOf(b, p)
    ensures a == b
  {
    forall i | 0 <= i < 7
      ensures a.counts[i] == b.counts[i]
    {
      assert CountOf(a, FromIndex(i)) == CountOf(b, FromIndex(i));
    }
  }

  /** `PieceSet::default()`. */
  function Empty(): (r: PieceSet)
    ensures forall p :: CountOf(r, p) == 0
  {
    PieceSet([0, 0, 0, 0, 0, 0, 0])
  }

  /** `contains`. */
  function Contains(s: PieceSet, p: Piece): (r: bool)
    ensures r <==> CountOf(s, p) > 0
  {
    s.counts[Index(p)] != 0
  }

  /** `with`: one more p, every other count unchanged. The `u8` increment
      panics (debug build) at 255. */
  function With(s: PieceSet, p: Piece): (r: PieceSet)
    requires CountOf(s, p) < 255
    ensures forall q :: CountOf(r, q) == CountOf(s, q) + (if q == p then 1 else 0)
  {
    PieceSet(s.counts[Index(p) := s.counts[Index(p)] + 1])
  }

  /** `without`: one p fewer, every other count unchanged. The `u8`
      decrement panics (debug build) below 0. */
  function Without(s: PieceSet, p: Piece): (r: PieceSet)
    requires Contains(s, p)
    ensures forall q :: CountOf(r, q) == CountOf(s, q) - (if q == p then 1 else 0)
  {
    PieceSet(s.counts[Index(p) := s.counts[Index(p)] - 1])
  }

  /** Adding a piece and removing it again changes nothing. */
  lemma WithThenWithout(s: PieceSet, p: Piece)
    requires CountOf(s, p) < 255
    ensures Contains(With(s, p), p)
    ensures Without(With(s, p), p) == s
  {
  }

  /** Removing a piece the set holds and adding it back changes nothing. */
  lemma WithoutThenWith(s: PieceSet, p: Piece)
    requires Contains(s, p)
    ensures CountOf(Without(s, p), p) < 255
    ensures With(Without(s, p), p) == s
  {
  }

  /** `FromIterator`: `with` folded over the pieces from the empty set; the
      count of each piece is its number of occurrences. Folding panics once
      some piece reaches 256 copies, so each appears at most 255 times. */
  function FromPieces(ps: seq<Piece>): (r: PieceSet)
    requires forall p :: multiset(ps)[p] < 256
    ensures forall p :: CountOf(r, p) == multiset(ps)[p]
  {
    if |ps| == 0 then Empty()
    else
      var init, last := ps[..|ps| - 1], ps[|ps| - 1];
      assert ps == init + [last];
      assert multiset(ps) == multiset(init) + multiset{last};
      assert forall p :: multiset(init)[p] <= multiset(ps)[p];
      assert multiset(init)[last] + 1 == multiset(ps)[last];
      With(FromPieces(init), last)
  }

  /** The letters `Display` writes for the first n kinds: `NAMES[i]` repeated count-of-i times, kind by kind. */
  function Spelled(s: PieceSet, n: nat): (r: string)
    requires n <= 7
  {
    if n == 0 then [] else Spelled(s, n - 1) + seq(s.counts[n - 1], _ => NAMES[n - 1])
  }

  /** `Display`: every piece's letter as many times as the set holds it, in
      `PIECES` order. Formatter errors are not modelled. */
  method Display(s: PieceSet) returns (r: string)
    ensures r == Spelled(s, 7)
  {
    r := [];
    for i := 0 to 7
      invariant r == Spelled(s, i)
    {
      for k := 0 to s.counts[i]
        invariant r == Spelled(s, i) + seq(k, _ => NAMES[i])
      {
        assert seq(k + 1, _ => NAMES[i]) == seq(k, _ => NAMES[i]) + [NAMES[i]];
        r := r + [NAMES[i]];
      }
    }
  }

  /** The pieces of the first n kinds, kind by kind. */
  function Expanded(s: PieceSet, n: nat): (r: seq<Piece>)
    requires n <= 7
  {
    if n == 0 then [] else Expanded(s, n - 1) + seq(s.counts[n - 1], _ => FromIndex(n - 1))
  }

  lemma {:induction false} MultisetRepeat(run: seq<Piece>, x: Piece, p: Piece)
    requires forall k :: 0 <= k < |run| ==> run[k] == x
    ensures multiset(run)[p] == if p == x then |run| else 0
  {
    if |run| > 0 {
      var init := run[..|run| - 1];
      assert run == init + [x];
      MultisetRepeat(init, x, p);
    }
  }

  lemma {:induction false} ExpandedCount(s: PieceSet, n: nat, p: Piece)
    requires n <= 7
    ensures multiset(Expanded(s, n))[p] == if Index(p) < n then s.counts[Index(p)] else 0
  {
    if n > 0 {
      var x := FromIndex(n - 1);
      var run := seq(s.counts[n - 1], _ => x);
      var prev := Expanded(s, n - 1);
      assert Expanded(s, n) == prev + run;
      ExpandedCount(s, n - 1, p);
      MultisetRepeat(run, x, p);
      assert multiset(prev + run)[p] == multiset(prev)[p] + multiset(run)[p];
      assert p == x <==> Index(p) == n - 1;
    }
  }

  lemma {:induction false} ParseSpelled(s: PieceSet, n: nat)
    requires n <= 7
    ensures ParseQueue(Spelled(s, n)) == Expanded(s, n)
  {
    if n > 0 {
      var run := seq(s.counts[n - 1], _ => FromIndex(n - 1));
      assert seq(s.counts[n - 1], _ => NAMES[n - 1]) == Letters(run);
      ParseQueueAppend(Spelled(s, n - 1), Letters(run));
      ParseLetters(run);
      ParseSpelled(s, n - 1);
    }
  }

  /** What `Display` writes, read back as a queue and collected, is the set itself. */
  lemma DisplayRoundTrip(s: PieceSet)
    ensures forall p :: multiset(ParseQueue(Spelled(s, 7)))[p] < 256
    ensures FromPieces(ParseQueue(Spelled(s, 7))) == s
  {
    ParseSpelled(s, 7);
    var ps := Expanded(s, 7);
    forall p
      ensures multiset(ps)[p] == CountOf(s, p)
    {
      ExpandedCount(s, 7, p);
    }
    SameCounts(FromPieces(ps), s);
  }
}
