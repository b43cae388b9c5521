/** The help table of every outcome (class `ResultTableConstructor`). */
module ResultTable {
  import opened Seqs
  import opened GameResult
  import opened MoveCheck

  /** The top-left cell of the table, `User \ PC`. */
  const Corner: string := "User \\ PC"

  /** Row `i + 1` of the table: the user's move, then its outcome against each computer move. */
  function TableRow(moves: seq<string>, i: nat): (row: seq<string>)
    requires i < |moves|
  {
    [moves[i]] + seq(|moves|, j requires 0 <= j < |moves| => Name(Determine(moves, moves[i], moves[j])))
  }

  /** The table `build_table` appends: a header row naming the computer moves,
      then one row per user move. */
  function OutcomeTable(moves: seq<string>): (t: seq<seq<string>>) {
    [[Corner] + moves] + seq(|moves|, i requires 0 <= i < |moves| => TableRow(moves, i))
  }

  /** The table is square with `n + 1` rows of `n + 1` cells; the header and
      the first column name the moves. */
  lemma TableShape(moves: seq<string>)
    ensures |OutcomeTable(moves)| == |moves| + 1
    ensures forall r :: 0 <= r <= |moves| ==> |OutcomeTable(moves)[r]| == |moves| + 1
    ensures OutcomeTable(moves)[0] == [Corner] + moves
    ensures forall i :: 0 <= i < |moves| ==> OutcomeTable(moves)[i + 1][0] == moves[i]
  {
    var t := OutcomeTable(moves);
    forall r | 1 <= r <= |moves| ensures |t[r]| == |moves| + 1 && t[r][0] == moves[r - 1] {
      assert t[r] == TableRow(moves, r - 1);
    }
  }

  /** Cell `(i + 1, j + 1)` is the outcome of user move `i` against computer
      move `j`, so the diagonal reads "Draw". */
  lemma TableCells(moves: seq<string>)
    ensures forall i, j :: 0 <= i < |moves| && 0 <= j < |moves| ==>
      OutcomeTable(moves)[i + 1][j + 1] == Name(Determine(moves, moves[i], moves[j]))
    ensures forall k :: 1 <= k <= |moves| ==> OutcomeTable(moves)[k][k] == "Draw"
  {
    var t := OutcomeTable(moves);
    TableRows(moves);
    forall i, j | 0 <= i < |moves| && 0 <= j < |moves|
      ensures t[i + 1][j + 1] == Name(Determine(moves, moves[i], moves[j]))
    {
      RowCell(moves, i, j);
    }
    forall k | 1 <= k <= |moves| ensures t[k][k] == "Draw" {
      RowCell(moves, k - 1, k - 1);
      SameMoveDraws(moves, moves[k - 1]);
    }
  }

  lemma TableRows(moves: seq<string>)
    ensures forall i :: 0 <= i < |moves| ==> OutcomeTable(moves)[i + 1] == TableRow(moves, i)
  {
  }

  lemma RowCell(moves: seq<string>, i: nat, j: nat)
    requires i < |moves| && j < |moves|
    ensures TableRow(moves, i)[j + 1] == Name(Determine(moves, moves[i], moves[j]))
  {
  }

  lemma TableCell(moves: seq<string>, i: nat, j: nat)
    requires i < |moves| && j < |moves|
    ensures OutcomeTable(moves)[i + 1][j + 1] == Name(Determine(moves, moves[i], moves[j]))
  {
    TableRows(moves);
    RowCell(moves, i, j);
  }

  lemma TablePrefix(moves: seq<string>, i: nat)
    requires i < |moves|
    ensures OutcomeTable(moves)[..i + 2] == OutcomeTable(moves)[..i + 1] + [TableRow(moves, i)]
  {
    assert OutcomeTable(moves)[i + 1] == TableRow(moves, i);
  }

  lemma RowPrefix(moves: seq<string>, i: nat, j: nat)
    requires i < |moves| && j < |moves|
    ensures TableRow(moves, i)[..j + 2] == TableRow(moves, i)[..j + 1] + [Name(Determine(moves, moves[i], moves[j]))]
  {
  }

  /** For an accepted move list the table is antisymmetric across its
      diagonal: "Win" in one cell exactly when "Lose" in the mirrored cell. */
  lemma TableAntisymmetric(moves: seq<string>, i: nat, j: nat)
    requires CheckMoves(moves) == Accepted && i < |moves| && j < |moves|
    ensures OutcomeTable(moves)[i + 1][j + 1] == "Win" <==> OutcomeTable(moves)[j + 1][i + 1] == "Lose"
    ensures OutcomeTable(moves)[i + 1][j + 1] == "Lose" <==> OutcomeTable(moves)[j + 1][i + 1] == "Win"
  {
    TableCell(moves, i, j);
    TableCell(moves, j, i);
    Antisymmetric(moves, i, j);
  }

  /** The table for the classical three moves. */
  lemma ClassicTable()
    ensures OutcomeTable(["rock", "paper", "scissors"]) == [
      ["User \\ PC", "rock", "paper", "scissors"],
      ["rock", "Draw", "Lose", "Win"],
      ["paper", "Win", "Draw", "Lose"],
      ["scissors", "Lose", "Win", "Draw"]]
  {
    var moves := ["rock", "paper", "scissors"];
    var t := OutcomeTable(moves);
    assert |t| == 4 && t[0] == ["User \\ PC", "rock", "paper", "scissors"] by {
      TableShape(moves);
    }
    ClassicRow0();
    ClassicRow1();
    ClassicRow2();
    assert t == [t[0], t[1], t[2], t[3]];
  }

  /** A row equals `row` when `row` names the move and lists its outcomes. */
  lemma RowFromCells(moves: seq<string>, i: nat, row: seq<string>)
    requires i < |moves| && |row| == |moves| + 1 && row[0] == moves[i]
    requires forall j :: 0 <= j < |moves| ==> row[j + 1] == Name(Determine(moves, moves[i], moves[j]))
    ensures OutcomeTable(moves)[i + 1] == row
  {
    forall k | 1 <= k <= |moves| ensures TableRow(moves, i)[k] == row[k] {
      RowCell(moves, i, k - 1);
    }
    assert TableRow(moves, i) == row;
    TableRows(moves);
  }

  lemma ClassicRow0()
    ensures OutcomeTable(["rock", "paper", "scissors"])[1] == ["rock", "Draw", "Lose", "Win"]
  {
    var moves := ["rock", "paper", "scissors"];
    var row := ["rock", "Draw", "Lose", "Win"];
    Classic();
    SameMoveDraws(moves, "rock");
    assert forall j :: 0 <= j < 3 ==> row[j + 1] == Name(Determine(moves, moves[0], moves[j])) by {
      assert moves[0] == "rock" && moves[1] == "paper" && moves[2] == "scissors";
    }
    RowFromCells(moves, 0, row);
  }

  lemma ClassicRow1()
    ensures OutcomeTable(["rock", "paper", "scissors"])[2] == ["paper", "Win", "Draw", "Lose"]
  {
    var moves := ["rock", "paper", "scissors"];
    var row := ["paper", "Win", "Draw", "Lose"];
    Classic();
    SameMoveDraws(moves, "paper");
    assert forall j :: 0 <= j < 3 ==> row[j + 1] == Name(Determine(moves, moves[1], moves[j])) by {
      assert moves[0] == "rock" && moves[1] == "paper" && moves[2] == "scissors";
    }
    RowFromCells(moves, 1, row);
  }

  lemma ClassicRow2()
    ensures OutcomeTable(["rock", "paper", "scissors"])[3] == ["scissors", "Lose", "Win", "Draw"]
  {
    var moves := ["rock", "paper", "scissors"];
    var row := ["scissors", "Lose", "Win", "Draw"];
    Classic();
    SameMoveDraws(moves, "scissors");
    assert forall j :: 0 <= j < 3 ==> row[j + 1] == Name(Determine(moves, moves[2], moves[j])) by {
      assert moves[0] == "rock" && moves[1] == "paper" && moves[2] == "scissors";
    }
    RowFromCells(moves, 2, row);
  }

  class ResultTableConstructor {
    const moves: seq<string>
    var resultTable: seq<seq<string>>

    constructor (moves: seq<string>)
      ensures this.moves == moves && resultTable == []
    {
      this.moves := moves;
      resultTable := [];
    }

    /** `build_table` appends the header and then one row per user move; it
        never clears the table, so a second call appends the rows again. */
    method BuildTable()
      modifies this`resultTable
      ensures resultTable == old(resultTable) + OutcomeTable(moves)
    {
      var header := [Corner] + moves;
      resultTable := resultTable + [header];
      for i := 0 to |moves|
        invariant resultTable == old(resultTable) + OutcomeTable(moves)[..i + 1]
      {
        var userMove := moves[i];
        var row := [userMove];
        for j := 0 to |moves|
          invariant row == TableRow(moves, i)[..j + 1]
          invariant resultTable == old(resultTable) + OutcomeTable(moves)[..i + 1]
        {
          var result := Determine(moves, userMove, moves[j]);
          RowPrefix(moves, i, j);
          row := row + [Name(result)];
        }
        assert row == TableRow(moves, i);
        TablePrefix(moves, i);
        resultTable := resultTable + [row];
      }
    }
  }
}
