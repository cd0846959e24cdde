/** Cutting an access log into lines, in one go and piecewise (src/nginx_stats.rs:310-324). */
module LogLines {
  import opened Text

  type Byte = b: nat | b < 256
  type Line = seq<Byte>
  const NEWLINE: Byte := 10

  function NonEmpty(pieces: seq<Line>): seq<Line>
  {
    if pieces == [] then []
    else NonEmpty(Init(pieces)) + if Last(pieces) == [] then [] else [Last(pieces)]
  }

  /** Reference: the terminated, non-empty lines of a whole text. */
  function CompleteLines(text: seq<Byte>): seq<Line>
  {
    NonEmpty(Init(Split(text, NEWLINE)))
  }

  /** Reference: what follows the last newline of a whole text. */
  function Unfinished(text: seq<Byte>): seq<Byte>
  {
    Last(Split(text, NEWLINE))
  }

  /** The reverse search of the read loop. */
  function LastNewline(s: seq<Byte>): (found: Option<nat>)
    ensures found.None? ==> NEWLINE !in s
    ensures found.Some? ==> found.value < |s| && s[found.value] == NEWLINE && NEWLINE !in s[found.value + 1..]
  {
    if s == [] then None
    else if Last(s) == NEWLINE then Some(|s| - 1)
    else
      var found := LastNewline(Init(s));
      assert s == Init(s) + [Last(s)];
      assert found.Some? ==> s[found.value + 1..] == Init(s)[found.value + 1..] + [Last(s)];
      found
  }

  lemma {:induction false} NonEmptyConcat(a: seq<Line>, b: seq<Line>)
    ensures NonEmpty(a + b) == NonEmpty(a) + NonEmpty(b)
  {
    if b == [] {
      assert a + b == a;
    } else {
      assert Init(a + b) == a + Init(b) && Last(a + b) == Last(b);
      NonEmptyConcat(a, Init(b));
      var last := if Last(b) == [] then [] else [Last(b)];
      assert NonEmpty(a) + (NonEmpty(Init(b)) + last) == (NonEmpty(a) + NonEmpty(Init(b))) + last;
    }
  }

  /** What is left out are the empty pieces and nothing else, wherever they stand. */
  lemma EmptyPieceGoes(before: seq<Line>, piece: Line, after: seq<Line>)
    ensures NonEmpty(before + [piece] + after) == NonEmpty(before) + (if piece == [] then [] else [piece]) + NonEmpty(after)
  {
    OnePiece(piece);
    NonEmptyConcat(before + [piece], after);
    NonEmptyConcat(before, [piece]);
  }

  lemma OnePiece(piece: Line)
    ensures NonEmpty([piece]) == if piece == [] then [] else [piece]
  {
    assert Init([piece]) == [] && NonEmpty([]) == [];
  }

  lemma NonEmptySnoc(pieces: seq<Line>, i: nat)
    requires i < |pieces|
    ensures NonEmpty(pieces[..i + 1]) == if pieces[i] == [] then NonEmpty(pieces[..i]) else NonEmpty(pieces[..i]) + [pieces[i]]
  {
    assert Init(pieces[..i + 1]) == pieces[..i];
  }

  lemma UnfinishedHasNoNewline(text: seq<Byte>)
    ensures NEWLINE !in Unfinished(text)
  {
    SplitPieces(text, NEWLINE);
    assert Unfinished(text) in Split(text, NEWLINE);
  }

  /** Reading in two parts gives the lines of the whole: the unfinished tail of the first
      part is all that has to be carried over. */
  lemma LinesResume(a: seq<Byte>, b: seq<Byte>)
    ensures CompleteLines(a + b) == CompleteLines(a) + CompleteLines(Unfinished(a) + b)
    ensures Unfinished(a + b) == Unfinished(Unfinished(a) + b)
  {
    SplitResumes(a, b, NEWLINE);
    var front, rest := Init(Split(a, NEWLINE)), Split(Unfinished(a) + b, NEWLINE);
    assert Init(front + rest) == front + Init(rest);
    NonEmptyConcat(front, Init(rest));
  }

  /** A buffer without a newline is all tail. */
  lemma NoLineYet(buffer: seq<Byte>)
    requires NEWLINE !in buffer
    ensures CompleteLines(buffer) == [] && Unfinished(buffer) == buffer
  {
    SplitWithoutSeparator(buffer, NEWLINE);
  }

  /** Cutting a buffer after its last newline and splitting only the front part finds exactly
      the complete lines, and leaves exactly the tail. */
  lemma CutAtLastNewline(buffer: seq<Byte>, cut: nat)
    requires 0 < cut <= |buffer| && buffer[cut - 1] == NEWLINE && NEWLINE !in buffer[cut..]
    ensures NonEmpty(Split(buffer[..cut], NEWLINE)) == CompleteLines(buffer)
    ensures Unfinished(buffer) == buffer[cut..]
  {
    var front, rest := buffer[..cut], buffer[cut..];
    var pieces := Split(buffer[..cut - 1], NEWLINE);
    assert front == buffer[..cut - 1] + [NEWLINE];
    SplitSnoc(buffer[..cut - 1], NEWLINE, NEWLINE);
    assert Split(front, NEWLINE) == pieces + [[]];
    assert Init(pieces + [[]]) == pieces;
    SplitResumes(front, rest, NEWLINE);
    assert buffer == front + rest && [] + rest == rest;
    SplitWithoutSeparator(rest, NEWLINE);
    assert Split(buffer, NEWLINE) == pieces + [rest];
    assert Init(pieces + [rest]) == pieces;
  }
}
