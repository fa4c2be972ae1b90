/** An optional value, for the `filter_map` closure that may drop a character. */
module Options {
  datatype Option<T> = None | Some(value: T)
}

/** The piece queue `get_pc` reads from its `sequence` string: every piece
    letter becomes that piece, every other character is dropped. */
module Queues {
  import opened Options
  import opened Pieces

  /** The `filter_map` closure of `get_pc`. */
  function ParsePiece(c: char): (r: Option<Piece>)
    ensures r.Some? ==> Letter(r.value) == c
    ensures r.None? <==> forall p: Piece :: Letter(p) != c
  {
    match c
    case 'I' => Some(I)
    case 'T' => Some(T)
    case 'O' => Some(O)
    case 'L' => Some(L)
    case 'J' => Some(J)
    case 'S' => Some(S)
    case 'Z' => Some(Z)
    case _ => None
  }

  /** `sequence.chars().filter_map(..).collect()`. */
  function ParseQueue(s: string): (r: seq<Piece>)
    ensures |r| <= |s|
  {
    if |s| == 0 then []
    else
      match ParsePiece(s[0])
      case Some(p) => [p] + ParseQueue(s[1..])
      case None => ParseQueue(s[1..])
  }

  /** The piece letters of a string, in order. */
  function PieceLetters(s: string): (r: string)
    ensures |r| <= |s|
  {
    if |s| == 0 then []
    else (if ParsePiece(s[0]).Some? then [s[0]] else []) + PieceLetters(s[1..])
  }

  /** Parsing distributes over concatenation: the filter looks at one character at a time. */
  lemma {:induction false} ParseQueueAppend(a: string, b: string)
    ensures ParseQueue(a + b) == ParseQueue(a) + ParseQueue(b)
  {
    if |a| > 0 {
      assert (a + b)[1..] == a[1..] + b;
      ParseQueueAppend(a[1..], b);
    } else {
      assert a + b == b;
    }
  }

  /** Spelling a queue out and parsing it gives the queue back. */
  lemma {:induction false} ParseLetters(q: seq<Piece>)
    ensures ParseQueue(Letters(q)) == q
  {
    if |q| > 0 {
      assert Letters(q)[1..] == Letters(q[1..]);
      ParseLetters(q[1..]);
    }
  }

  /** The parsed queue, spelled back out, is exactly the piece letters of the
      input in their original order: nothing is reordered, invented or lost
      except the characters that name no piece. */
  lemma {:induction false} ParseKeepsPieceLetters(s: string)
    ensures Letters(ParseQueue(s)) == PieceLetters(s)
  {
    if |s| > 0 {
      ParseKeepsPieceLetters(s[1..]);
      match ParsePiece(s[0])
      case Some(p) =>
        assert Letters([p] + ParseQueue(s[1..])) == [Letter(p)] + Letters(ParseQueue(s[1..]));
      case None =>
    }
  }

  /** A string without piece letters parses to the empty queue. */
  lemma {:induction false} ParseNoLetters(s: string)
    requires forall k :: 0 <= k < |s| ==> ParsePiece(s[k]).None?
    ensures ParseQueue(s) == []
  {
    if |s| > 0 {
      assert forall k :: 1 <= k < |s| ==> s[1..][k - 1] == s[k];
      ParseNoLetters(s[1..]);
    }
  }
}
