/** Validation of the configured move list (`Game.check_correct_input_moves`). */
module MoveCheck {
  import opened Seqs
  import opened GameResult

  /** The three reasons a move list is refused, in the order they are tested. */
  datatype ConfigError = TooFewMoves | EvenMoveCount | RepeatedMoves

  datatype Verdict = Accepted | Rejected(reason: ConfigError)

  /** The error line shown before the game exits. The first one says "greater
      than 3" although exactly three moves are accepted. */
  function Message(e: ConfigError): string {
    match e
    case TooFewMoves => "The number of moves must be greater than 3!"
    case EvenMoveCount => "Enter an odd number of moves!"
    case RepeatedMoves => "There should be no repetitive moves!"
  }

  /** `check_correct_input_moves`: the first failing test is reported (the
      line displayed is `Message(v.reason)`) and the game exits, so later
      tests never run. The duplicate test compares `len(moves)` with
      `len(set(moves))`. */
  function CheckMoves(moves: seq<string>): (v: Verdict)
    ensures v == Accepted <==> 3 <= |moves| && |moves| % 2 == 1 && Distinct(moves)
    ensures v == Rejected(TooFewMoves) <==> |moves| < 3
    ensures v == Rejected(EvenMoveCount) <==> 3 <= |moves| && |moves| % 2 == 0
    ensures v == Rejected(RepeatedMoves) <==> 3 <= |moves| && |moves| % 2 == 1 && !Distinct(moves)
  {
    ElementsCardinality(moves);
    if |moves| < 3 then Rejected(TooFewMoves)
    else if |moves| % 2 == 0 then Rejected(EvenMoveCount)
    else if |moves| != |Elements(moves)| then Rejected(RepeatedMoves)
    else Accepted
  }

  /** Lists that the check refuses and accepts, one per rule. */
  lemma CheckExamples()
    ensures CheckMoves(["a", "b"]) == Rejected(TooFewMoves)
    ensures CheckMoves(["a", "b", "c", "d"]) == Rejected(EvenMoveCount)
    ensures CheckMoves(["a", "b", "a"]) == Rejected(RepeatedMoves)
    ensures CheckMoves(["a", "b", "c", "a"]) == Rejected(EvenMoveCount)
    ensures CheckMoves(["rock", "paper", "scissors"]) == Accepted
    ensures CheckMoves(["a", "b", "c", "d", "e"]) == Accepted
  {
    assert ["a", "b", "a"][0] == ["a", "b", "a"][2];
  }

  /** Different reasons show different lines, so the line displayed tells
      the user which test failed. */
  lemma MessageIdentifiesReason(e: ConfigError, other: ConfigError)
    ensures Message(e) == Message(other) <==> e == other
  {
    if e != other {
      assert Message(e)[0] != Message(other)[0] || Message(e)[6] != Message(other)[6];
    }
  }

  /** The too-few line claims more than three moves are needed, yet a list of
      exactly three distinct moves is accepted and a list of two is refused
      with that line. */
  lemma TooFewMessageOverstates()
    ensures Message(TooFewMoves) == "The number of moves must be greater than 3!"
    ensures CheckMoves(["rock", "paper", "scissors"]) == Accepted
    ensures Message(CheckMoves(["rock", "paper"]).reason) == "The number of moves must be greater than 3!"
  {
    assert Distinct(["rock", "paper", "scissors"]);
  }

  /** Every move list the check lets through yields a fair game: swapping
      sides flips the outcome and each move wins and loses equally often. */
  lemma AcceptedIsFair(moves: seq<string>)
    requires CheckMoves(moves) == Accepted
    ensures forall i, j :: 0 <= i < |moves| && 0 <= j < |moves| ==>
      Determine(moves, moves[j], moves[i]) == Flip(Determine(moves, moves[i], moves[j]))
    ensures forall i :: 0 <= i < |moves| ==>
      Occurrences(Row(moves, i), Win) == |moves| / 2 && Occurrences(Row(moves, i), Lose) == |moves| / 2
  {
    forall i, j | 0 <= i < |moves| && 0 <= j < |moves|
      ensures Determine(moves, moves[j], moves[i]) == Flip(Determine(moves, moves[i], moves[j]))
    {
      Antisymmetric(moves, i, j);
    }
    forall i | 0 <= i < |moves|
      ensures Occurrences(Row(moves, i), Win) == |moves| / 2 && Occurrences(Row(moves, i), Lose) == |moves| / 2
    {
      Balanced(moves, i);
    }
  }
}
