/** One round of `Game.play_game`: the move-selection loop and the resolution
    of the chosen move against the computer's move, which is fixed before
    the loop starts. Each line the user types is given already parsed. */
module PlayRound {
  import opened GameResult

  /** What `int()` and the `"?"` test make of one input line. */
  datatype Token = Help | NotANumber | Number(k: int)

  /** What one token does to the loop. */
  datatype Reaction = ShowHelp | ShowError(message: string) | Quit | Pick(move: string)

  /** What the loop displays before re-prompting. */
  datatype Screen = HelpTable | ErrorLine(message: string)

  /** How the loop ended: the exit selection, a chosen move, or (a model
      artefact) no more input to read. */
  datatype Ending = Exited | Chosen(move: string) | OutOfInput

  /** The screens shown, the ending, and how many tokens were read. */
  datatype Selection = Selection(shown: seq<Screen>, ending: Ending, consumed: nat)

  /** What the user sees once the round is over, or how it stopped early. */
  datatype Round =
    | Played(shown: seq<Screen>, userMove: string, computerMove: string, outcome: Outcome)
    | Left(shown: seq<Screen>)
    | Unfinished(shown: seq<Screen>)

  const NotANumberMessage: string := "Only number or '?'"
  const NegativeMessage: string := "Only positive numbers!"
  const OutOfMenuMessage: string := "Select move only from the menu"

  /** The effect of one token: `?` shows help, a non-number and a negative
      number are refused, `0` exits, `1 .. n` picks that move of the menu and
      anything larger is refused. */
  function React(moves: seq<string>, t: Token): (r: Reaction)
    ensures r == ShowHelp <==> t == Help
    ensures r == Quit <==> t == Number(0)
    ensures r == ShowError(NotANumberMessage) <==> t == NotANumber
    ensures r == ShowError(NegativeMessage) <==> t.Number? && t.k < 0
    ensures r == ShowError(OutOfMenuMessage) <==> t.Number? && t.k > |moves|
    ensures r.Pick? <==> t.Number? && 1 <= t.k <= |moves|
    ensures r.Pick? ==> r.move == moves[t.k - 1] && r.move in moves
  {
    match t
    case Help => ShowHelp
    case NotANumber => ShowError(NotANumberMessage)
    case Number(k) =>
      if k == 0 then Quit
      else if k < 0 then ShowError(NegativeMessage)
      else if k - 1 < |moves| then Pick(moves[k - 1])
      else ShowError(OutOfMenuMessage)
  }

  /** The loop runs `while not user_move`, so only the exit selection or a
      move with a non-empty name ends it. */
  predicate Ends(r: Reaction) {
    r.Quit? || (r.Pick? && r.move != "")
  }

  function Display(r: Reaction): seq<Screen> {
    match r
    case ShowHelp => [HelpTable]
    case ShowError(m) => [ErrorLine(m)]
    case Quit => []
    case Pick(_) => []
  }

  /** Everything displayed while the tokens `ts` are read in turn. */
  function Transcript(moves: seq<string>, ts: seq<Token>): seq<Screen> {
    if ts == [] then [] else Display(React(moves, ts[0])) + Transcript(moves, ts[1..])
  }

  /** The selection loop, read as a function of the tokens typed: it stops
      at the first token that ends it, displays the reactions to the tokens
      before it, and reads nothing after it. */
  function RunSelection(moves: seq<string>, tokens: seq<Token>): (s: Selection)
    ensures s.consumed <= |tokens|
    ensures s.shown == Transcript(moves, tokens[..s.consumed])
    ensures s.ending == OutOfInput ==> s.consumed == |tokens|
    ensures s.ending == OutOfInput <==> forall k :: 0 <= k < |tokens| ==> !Ends(React(moves, tokens[k]))
    ensures s.ending != OutOfInput ==>
      1 <= s.consumed && Ends(React(moves, tokens[s.consumed - 1])) &&
      forall k :: 0 <= k < s.consumed - 1 ==> !Ends(React(moves, tokens[k]))
    ensures s.ending.Exited? ==> React(moves, tokens[s.consumed - 1]) == Quit
    ensures s.ending.Chosen? ==> React(moves, tokens[s.consumed - 1]) == Pick(s.ending.move)
    ensures s.ending.Chosen? ==> s.ending.move in moves && s.ending.move != ""
  {
    if tokens == [] then Selection([], OutOfInput, 0)
    else
      var r := React(moves, tokens[0]);
      if r.Quit? then Selection([], Exited, 1)
      else if r.Pick? && r.move != "" then Selection([], Chosen(r.move), 1)
      else
        var rest := RunSelection(moves, tokens[1..]);
        assert tokens[..rest.consumed + 1][1..] == tokens[1..][..rest.consumed];
        assert forall k :: 1 <= k < |tokens| ==> tokens[k] == tokens[1..][k - 1];
        Selection(Display(r) + rest.shown, rest.ending, rest.consumed + 1)
  }

  /** Input typed after the loop has ended is never read. */
  lemma {:induction false} LaterInputIgnored(moves: seq<string>, tokens: seq<Token>, more: seq<Token>)
    requires RunSelection(moves, tokens).ending != OutOfInput
    ensures RunSelection(moves, tokens + more) == RunSelection(moves, tokens)
  {
    var r := React(moves, tokens[0]);
    assert (tokens + more)[0] == tokens[0];
    if !(r.Quit? || (r.Pick? && r.move != "")) {
      assert (tokens + more)[1..] == tokens[1..] + more;
      LaterInputIgnored(moves, tokens[1..], more);
    }
  }

  /** The loop's result once `consumed` tokens have been read and `shown`
      displayed without ending it. */
  function Resume(moves: seq<string>, tokens: seq<Token>, shown: seq<Screen>, consumed: nat): Selection
    requires consumed <= |tokens|
  {
    var rest := RunSelection(moves, tokens[consumed..]);
    Selection(shown + rest.shown, rest.ending, consumed + rest.consumed)
  }

  lemma ResumeStep(moves: seq<string>, tokens: seq<Token>, shown: seq<Screen>, consumed: nat)
    requires consumed < |tokens|
    ensures var r := React(moves, tokens[consumed]);
      Resume(moves, tokens, shown, consumed) ==
        if r.Quit? then Selection(shown, Exited, consumed + 1)
        else if r.Pick? && r.move != "" then Selection(shown, Chosen(r.move), consumed + 1)
        else Resume(moves, tokens, shown + Display(r), consumed + 1)
  {
    assert tokens[consumed..][0] == tokens[consumed];
    assert tokens[consumed..][1..] == tokens[consumed + 1..];
  }

  /** The selection loop of `play_game` (an empty `user_move` stands for
      `None`; both are false to `while not user_move`). */
  method SelectMove(moves: seq<string>, tokens: seq<Token>) returns (shown: seq<Screen>, ending: Ending, consumed: nat)
    ensures Selection(shown, ending, consumed) == RunSelection(moves, tokens)
  {
    var userMove := "";
    shown, consumed := [], 0;
    assert tokens[0..] == tokens;
    while userMove == ""
      invariant consumed <= |tokens|
      invariant userMove == "" ==> RunSelection(moves, tokens) == Resume(moves, tokens, shown, consumed)
      invariant userMove != "" ==> RunSelection(moves, tokens) == Selection(shown, Chosen(userMove), consumed)
      decreases |tokens| - consumed, if userMove == "" then 1 else 0
    {
      if consumed == |tokens| {
        assert tokens[consumed..] == [];
        ending := OutOfInput;
        return;
      }
      var userChoice := tokens[consumed];
      ghost var r := React(moves, userChoice);
      ResumeStep(moves, tokens, shown, consumed);
      consumed := consumed + 1;
      if userChoice == Help {
        assert Display(r) == [HelpTable];
        shown := shown + [HelpTable];
        continue;
      }
      if userChoice == NotANumber {
        assert Display(r) == [ErrorLine(NotANumberMessage)];
        shown := shown + [ErrorLine(NotANumberMessage)];
        continue;
      }
      var userChoiceIndex := userChoice.k;
      if userChoiceIndex == 0 {
        assert r == Quit;
        ending := Exited;
        return;
      }
      if userChoiceIndex < 0 {
        assert Display(r) == [ErrorLine(NegativeMessage)];
        shown := shown + [ErrorLine(NegativeMessage)];
        continue;
      }
      var userMoveIndex := userChoiceIndex - 1;
      if userMoveIndex >= |moves| {
        assert Display(r) == [ErrorLine(OutOfMenuMessage)];
        shown := shown + [ErrorLine(OutOfMenuMessage)];
        continue;
      }
      assert r == Pick(moves[userMoveIndex]) && Display(r) == [];
      assert shown + Display(r) == shown;
      userMove := moves[userMoveIndex];
    }
    ending := Chosen(userMove);
  }

  /** `play_game` once the computer's move has been drawn: the selection
      loop, then the outcome of the chosen move against that same computer
      move. */
  method PlayGame(moves: seq<string>, computerMove: string, tokens: seq<Token>) returns (round: Round)
    requires computerMove in moves
    ensures round.shown == RunSelection(moves, tokens).shown
    ensures round.Played? <==> RunSelection(moves, tokens).ending.Chosen?
    ensures round.Left? <==> RunSelection(moves, tokens).ending == Exited
    ensures round.Played? ==>
      round.userMove == RunSelection(moves, tokens).ending.move &&
      round.computerMove == computerMove &&
      round.outcome == Determine(moves, round.userMove, computerMove)
  {
    var shown, ending, _ := SelectMove(moves, tokens);
    match ending
    case Exited =>
      round := Left(shown);
    case OutOfInput =>
      round := Unfinished(shown);
    case Chosen(userMove) =>
      var gameResult := Determine(moves, userMove, computerMove);
      round := Played(shown, userMove, computerMove, gameResult);
  }

  /** A non-number and an out-of-menu number are refused with one error
      line each before the first move is accepted. */
  lemma TwoErrorsThenMove()
    ensures RunSelection(["rock", "paper", "scissors"], [NotANumber, Number(7), Number(1)]) ==
      Selection([ErrorLine(NotANumberMessage), ErrorLine(OutOfMenuMessage)], Chosen("rock"), 3)
  {
    var moves := ["rock", "paper", "scissors"];
    var ts := [NotANumber, Number(7), Number(1)];
    assert ts[1..][1..] == [Number(1)];
  }

  /** Help, then a negative number, then the exit selection: the move typed
      after the exit is never read. */
  lemma HelpThenExit()
    ensures RunSelection(["rock", "paper", "scissors"], [Help, Number(-1), Number(0), Number(2)]) ==
      Selection([HelpTable, ErrorLine(NegativeMessage)], Exited, 3)
  {
    var ts := [Help, Number(-1), Number(0), Number(2)];
    assert ts[1..][1..] == [Number(0), Number(2)];
  }

  /** Selecting paper against a computer that drew rock wins. */
  lemma PaperAgainstRock()
    ensures RunSelection(["rock", "paper", "scissors"], [Number(2)]).ending == Chosen("paper")
    ensures Determine(["rock", "paper", "scissors"], "paper", "rock") == Win
  {
    Classic();
  }

  /** A move whose name is empty is picked but does not end the loop, which
      keeps prompting. */
  lemma EmptyNameKeepsPrompting()
    ensures RunSelection(["", "a", "b"], [Number(1), Number(2)]) == Selection([], Chosen("a"), 2)
  {
    var ts := [Number(1), Number(2)];
    assert ts[1..] == [Number(2)];
  }
}
