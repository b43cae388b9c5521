# N-move rock-paper-scissors: a Dafny model of the game logic

This project models the game logic of `RockPapperScissors/Game.py`, a
command-line rock-paper-scissors game for any odd number of moves, and
proves its properties. Four parts are modelled:

- `GameResult.determine` decides a round. Both move names are looked up
  with `list.index`. Equal positions draw. Otherwise the list is rotated so
  the user's move comes first. The user wins when the computer's move lands
  beyond position `len(moves) // 2` of the rotated list, and loses otherwise.
  Module `GameResult` (file `game_result.dfy`).
- `ResultTableConstructor.build_table` builds the help table. It appends a
  header row and then one row per user move to the `result_table` field.
  Module `ResultTable` (file `result_table.dfy`). The field is a `seq` in the
  class `ResultTableConstructor`.
- `Game.check_correct_input_moves` validates the move list. It checks
  "at least three", then "odd", then "no repeats", and the first failure
  ends the game. Module `MoveCheck` (file `move_check.dfy`). The exit
  becomes a `Rejected` verdict.
- The move-selection loop of `Game.play_game`, and the resolution of the
  chosen move against a computer move fixed before the loop. Module
  `PlayRound` (file `play_round.dfy`). Each line the user types is given as
  an already-parsed token: `Help` for `?`, `NotANumber`, or `Number(k)`.

Module `Seqs` (file `seqs.dfy`) holds the list operations the code relies on,
`list.index` and `set(list)`. It also holds an occurrence count, which the
code does not use; it serves only to state how often each move wins and loses.

The main results:

- For a duplicate-free list, the rule is the modular distance
  `d = (c - u) mod n`. The user loses when `1 <= d <= n // 2` and wins
  otherwise.
- For an odd number of distinct moves the rule is antisymmetric: swapping
  sides swaps Win and Lose. Each move wins exactly `n // 2` times and loses
  exactly `n // 2` times.
- In every duplicate-free list of even length, the first move and the move
  opposite it each lose to the other. So the odd-length check is what makes
  the game fair, and every list the validation accepts yields a fair game.

The code and its messages disagree in one place. The too-few-moves message
reads "The number of moves must be greater than 3!", but the test is
`len(moves) < 3`, so exactly three moves are accepted. The model follows the
test and keeps the message text unchanged.

The loop runs `while not user_move`, so picking a move whose name is the
empty string does not end it. The model reproduces this; see
`PlayRound.EmptyNameKeepsPrompting`.

## Model

| member | source | states |
|---|---|---|
| `Seqs.IndexOf` | RockPapperScissors/Game.py:37-38 | `list.index`: the result is a position holding the name, and no earlier position holds it (first occurrence) |
| `Seqs.ElementsCardinality` | RockPapperScissors/Game.py:187 | `len(set(moves)) == len(moves)` holds exactly when the list has no duplicates; the set is never larger |
| `GameResult.Determine` | RockPapperScissors/Game.py:36-50 | defined only for names in the list (`index` raises otherwise); the result is Draw exactly when the two names are equal |
| `GameResult.SameMoveDraws` | RockPapperScissors/Game.py:40-41 | the same move on both sides is a Draw |
| `GameResult.RotatedPosition` | RockPapperScissors/Game.py:43-47 | in `moves[u:] + moves[:u]` over distinct moves, `moves[c]` is found at `(c - u) mod n`, which lies in `1..n-1` when `c != u` |
| `GameResult.DetermineByDistance` | RockPapperScissors/Game.py:43-50 | for distinct moves `i != j`: Lose iff `(j - i) mod n <= n // 2`, Win otherwise; Draw iff `i == j` |
| `GameResult.Antisymmetric` | RockPapperScissors/Game.py:45-50 | with an odd number of distinct moves, `determine(moves[j], moves[i])` is the flip of `determine(moves[i], moves[j])` (Win and Lose swap, Draw stays) |
| `GameResult.EvenLengthNotAntisymmetric` | RockPapperScissors/Game.py:45-50 | in every duplicate-free list of even length `n >= 2`, `moves[0]` and `moves[n/2]` each lose to the other, so antisymmetry needs odd length |
| `GameResult.Balanced` | RockPapperScissors/Game.py:45-50 | with an odd number of distinct moves, each move's row of outcomes has exactly `n // 2` Wins, `n // 2` Losses and one Draw |
| `GameResult.Classic` | RockPapperScissors/Game.py:36-50 | for rock, paper, scissors: paper beats rock, scissors beat paper, rock beats scissors, and the reverse pairs lose |
| `MoveCheck.CheckMoves` | RockPapperScissors/Game.py:177-189 | accepts exactly the lists with length >= 3, odd length and no duplicates; otherwise reports only the first failing test, in the order too few, even, repeated |
| `MoveCheck.MessageIdentifiesReason` | RockPapperScissors/Game.py:180-188 | the three error lines differ, so the line displayed, `Message(reason)`, tells which test failed |
| `MoveCheck.TooFewMessageOverstates` | RockPapperScissors/Game.py:179-181 | the too-few line says "greater than 3", yet three distinct moves are accepted and two moves are refused with that line |
| `MoveCheck.CheckExamples` | RockPapperScissors/Game.py:177-189 | `[a,b]` is too few, `[a,b,c,d]` is even, `[a,b,a]` is repeated, `[a,b,c,a]` reports even before repeated; rock-paper-scissors and five moves are accepted |
| `MoveCheck.AcceptedIsFair` | RockPapperScissors/Game.py:177-189 | every accepted list makes `determine` antisymmetric and gives each move `n // 2` Wins and `n // 2` Losses |
| `ResultTable.TableShape` | RockPapperScissors/Game.py:104-116 | the table has `n + 1` rows of `n + 1` cells; row 0 is `User \ PC` followed by the moves; row `i + 1` starts with `moves[i]` |
| `ResultTable.TableCells` | RockPapperScissors/Game.py:108-114 | cell `(i + 1, j + 1)` is the name of `determine(moves[i], moves[j])`, so the diagonal reads "Draw" |
| `ResultTable.TableAntisymmetric` | RockPapperScissors/Game.py:108-114 | for an accepted list, a cell reads "Win" exactly when its mirror across the diagonal reads "Lose", and the other way round |
| `ResultTable.ClassicTable` | RockPapperScissors/Game.py:104-116 | the table for rock, paper, scissors is the classical grid |
| `ResultTable.ResultTableConstructor.constructor` | RockPapperScissors/Game.py:99-102 | a fresh constructor keeps the moves and starts with an empty table |
| `ResultTable.ResultTableConstructor.BuildTable` | RockPapperScissors/Game.py:104-116 | appends the header and the `n` move rows to whatever the table held, so a second call adds another `n + 1` rows |
| `PlayRound.React` | RockPapperScissors/Game.py:147-170 | `?` shows help; a non-number gives "Only number or '?'"; `0` exits; `k < 0` gives "Only positive numbers!"; `k > n` gives "Select move only from the menu"; `1 <= k <= n` picks `moves[k-1]` |
| `PlayRound.RunSelection` | RockPapperScissors/Game.py:144-170 | the loop stops at the first token that exits or picks a non-empty move name; it shows the help and error screens of the tokens before it; it reads no further |
| `PlayRound.LaterInputIgnored` | RockPapperScissors/Game.py:144 | once the loop has ended, anything typed afterwards does not change its result |
| `PlayRound.SelectMove` | RockPapperScissors/Game.py:142-170 | the `while not user_move` loop with its `continue` paths yields exactly the screens, ending and tokens read that `RunSelection` describes |
| `PlayRound.PlayGame` | RockPapperScissors/Game.py:132-172 | with the computer move drawn beforehand, the round is played exactly when a move is chosen; the computer move is the one given, and the outcome is `determine(user_move, computer_move)` |
| `PlayRound.TwoErrorsThenMove` | RockPapperScissors/Game.py:150-170 | input `x`, `7`, `1` on three moves shows exactly two error lines and then picks `rock` |
| `PlayRound.HelpThenExit` | RockPapperScissors/Game.py:147-158 | input `?`, `-1`, `0`, `2` shows the help and one error, then exits without reading `2` |
| `PlayRound.PaperAgainstRock` | RockPapperScissors/Game.py:160-172 | selecting `2` on rock, paper, scissors picks paper, which wins against rock |
| `PlayRound.EmptyNameKeepsPrompting` | RockPapperScissors/Game.py:144 | picking a move named `""` does not end the loop; the next pick does |

## Left out

- `HmacGenerator` (RockPapperScissors/Game.py:10-29) is left out. It draws a random key with `secrets.token_hex` and computes HMAC-SHA-256 (RFC 2104) through Python's `hmac` and `hashlib`. None of these can be stated here beyond an uninterpreted digest, so the commitment and the key reveal are not modelled.
- The computer's move comes from `random.choice` (RockPapperScissors/Game.py:129-130). Here it is a parameter of `PlayRound.PlayGame`, required to be one of the moves.
- `GameMenu` (RockPapperScissors/Game.py:53-94) is terminal I/O, so it is not modelled. The loop's displays are modelled as `Screen` values: the help table, or an error line with its message. Printing the menu, the result and the `[Game Exit]` line is not modelled. The final wait for Enter is not modelled either.
- `ResultTableConstructor.get_table` (RockPapperScissors/Game.py:118-119) formats the table with the external `tabulate` library, so it is left out.
- The `__main__` block (RockPapperScissors/Game.py:192-205) is left out: argument parsing, the endless round loop and the `KeyboardInterrupt` handling.
- Python's `int()` parsing of an input line is left out. It accepts whitespace, signs, underscores and `-0`. Each line is given as its parse result instead.
- `PlayRound.RunSelection`: the model has an `OutOfInput` ending (and `PlayRound.PlayGame` an `Unfinished` round) for when the tokens run out. In the program, `input()` at end of input raises `EOFError`, which neither the loop (it catches only `ValueError` and `IndexError`) nor the main block (it catches only `KeyboardInterrupt`) handles, so the program stops with a traceback. When input is merely slow, it is a session still waiting at the prompt. The model does not distinguish these two cases.
- `PlayRound.PlayGame`: `0` ends the whole process through `sys.exit`. Here it is the `Left` round result.
