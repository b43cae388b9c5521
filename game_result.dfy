/** The win/lose/draw rule of N-move cyclic rock-paper-scissors (class `GameResult`). */
module GameResult {
  import opened Seqs

  /** A round's outcome, always from the user's point of view. */
  datatype Outcome = Win | Lose | Draw

  /** The text `determine` returns and the result table shows. */
  function Name(o: Outcome): string {
    match o
    case Win => "Win"
    case Lose => "Lose"
    case Draw => "Draw"
  }

  /** The outcome seen from the other side of the table. */
  function Flip(o: Outcome): Outcome {
    match o
    case Win => Lose
    case Lose => Win
    case Draw => Draw
  }

  /** `moves[u:] + moves[:u]`: the list rotated so that position `u` comes first. */
  function Rotate<T>(s: seq<T>, u: nat): (r: seq<T>)
    requires u <= |s|
    ensures |r| == |s|
  {
    s[u..] + s[..u]
  }

  /** Position `x` of the doubled circle `0 .. 2n-1` folded back into `0 .. n-1`. */
  function Wrap(x: nat, n: nat): nat {
    if x < n then x else x - n
  }

  /** Steps forward around the circle of `n` moves from position `u` to position `c`. */
  function Distance(u: nat, c: nat, n: nat): nat
    requires u < n && c < n
  {
    if u <= c then c - u else c + n - u
  }

  lemma DistanceIsMod(u: nat, c: nat, n: nat)
    requires u < n && c < n
    ensures Distance(u, c, n) == (c - u) % n
  {
  }

  lemma RotateAt<T>(s: seq<T>, u: nat, k: nat)
    requires u < |s| && k < |s|
    ensures u + k < 2 * |s| && Wrap(u + k, |s|) < |s|
    ensures Rotate(s, u)[k] == s[Wrap(u + k, |s|)]
  {
  }

  /** `GameResult.determine`: both names are looked up with `list.index`
      (which raises when a name is absent, hence the precondition); equal
      positions draw; otherwise the list is rotated so the user's move comes
      first and the computer's move wins for the computer when it lies within
      the first `len(moves) // 2` positions after it. */
  function Determine(moves: seq<string>, userMove: string, computerMove: string): (r: Outcome)
    requires userMove in moves && computerMove in moves
    ensures r == Draw <==> userMove == computerMove
  {
    var u := IndexOf(moves, userMove);
    var c := IndexOf(moves, computerMove);
    if u == c then Draw
    else
      var rearranged := Rotate(moves, u);
      RotateAt(moves, u, Distance(u, c, |moves|));
      var halfLength := |moves| / 2;
      if halfLength < IndexOf(rearranged, moves[c]) then Win else Lose
  }

  /** Choosing the same move on both sides is a draw. */
  lemma SameMoveDraws(moves: seq<string>, m: string)
    requires m in moves
    ensures Determine(moves, m, m) == Draw
  {
  }

  /** A rotation of a duplicate-free list is duplicate-free. */
  lemma RotateDistinct<T>(s: seq<T>, u: nat)
    requires Distinct(s) && u < |s|
    ensures Distinct(Rotate(s, u))
  {
    var r := Rotate(s, u);
    forall i, j | 0 <= i < j < |r| ensures r[i] != r[j] {
      RotateAt(s, u, i);
      RotateAt(s, u, j);
    }
  }

  /** In the rotated list `moves[u:] + moves[:u]` the move at position `c`
      sits at `(c - u) mod n`, which is never 0 for a different move. */
  lemma RotatedPosition(moves: seq<string>, u: nat, c: nat)
    requires Distinct(moves) && u < |moves| && c < |moves|
    ensures IndexOf(Rotate(moves, u), moves[c]) == (c - u) % |moves|
    ensures u != c ==> 1 <= (c - u) % |moves| <= |moves| - 1
  {
    var n := |moves|;
    var d := Distance(u, c, n);
    DistanceIsMod(u, c, n);
    RotateAt(moves, u, d);
    assert Wrap(u + d, n) == c;
    RotateDistinct(moves, u);
    IndexOfDistinct(Rotate(moves, u), d);
  }

  /** For a duplicate-free list the rule is the modular distance
      `d = (j - i) mod n`: the user loses when `1 <= d <= n // 2` and wins
      otherwise. */
  lemma DetermineByDistance(moves: seq<string>, i: nat, j: nat)
    requires Distinct(moves) && i < |moves| && j < |moves|
    ensures Determine(moves, moves[i], moves[j]) ==
      if i == j then Draw
      else if (j - i) % |moves| <= |moves| / 2 then Lose
      else Win
  {
    IndexOfDistinct(moves, i);
    IndexOfDistinct(moves, j);
    if i != j {
      RotatedPosition(moves, i, j);
    }
  }

  /** With an odd number of distinct moves the rule is antisymmetric: swapping
      the players turns Win into Lose and Lose into Win (and keeps Draw). */
  lemma {:induction false} Antisymmetric(moves: seq<string>, i: nat, j: nat)
    requires Distinct(moves) && |moves| % 2 == 1 && i < |moves| && j < |moves|
    ensures Determine(moves, moves[j], moves[i]) == Flip(Determine(moves, moves[i], moves[j]))
  {
    var n := |moves|;
    DetermineByDistance(moves, i, j);
    DetermineByDistance(moves, j, i);
    DistanceIsMod(i, j, n);
    DistanceIsMod(j, i, n);
    if i != j {
      assert Distance(i, j, n) + Distance(j, i, n) == n;
    }
  }

  /** The odd-length requirement matters: in any duplicate-free list of even
      length, the first move and the move opposite it each lose to the other. */
  lemma EvenLengthNotAntisymmetric(moves: seq<string>)
    requires Distinct(moves) && 2 <= |moves| && |moves| % 2 == 0
    ensures Determine(moves, moves[0], moves[|moves| / 2]) == Lose
    ensures Determine(moves, moves[|moves| / 2], moves[0]) == Lose
  {
    var n := |moves|;
    DetermineByDistance(moves, 0, n / 2);
    DetermineByDistance(moves, n / 2, 0);
    DistanceIsMod(0, n / 2, n);
    DistanceIsMod(n / 2, 0, n);
    assert Distance(n / 2, 0, n) == n / 2;
  }

  /** The outcomes of user move `moves[i]` against every computer move, in order. */
  function Row(moves: seq<string>, i: nat): (r: seq<Outcome>)
    requires i < |moves|
    ensures |r| == |moves|
  {
    seq(|moves|, j requires 0 <= j < |moves| => Determine(moves, moves[i], moves[j]))
  }

  /** How many of the computer moves at positions `0 .. k-1` give outcome `o`
      for user move `i`, when `n = 2h + 1` distinct moves are in play. */
  function CountBelow(o: Outcome, i: nat, h: nat, k: nat): int {
    match o
    case Win => Clamp(Min(k, i) - Clamp(i - h)) + Clamp(k - (i + h + 1))
    case Lose => Clamp(Min(k, i - h)) + Clamp(Min(k, i + h + 1) - (i + 1))
    case Draw => if i < k then 1 else 0
  }

  function Clamp(x: int): nat { if x < 0 then 0 else x }

  function Min(x: int, y: int): int { if x < y then x else y }

  /** The outcome at distance-classified position `j` of the row of user move `i`. */
  function Expected(i: nat, j: nat, h: nat): Outcome
    requires i < 2 * h + 1 && j < 2 * h + 1
  {
    if i == j then Draw else if Distance(i, j, 2 * h + 1) <= h then Lose else Win
  }

  lemma RowAt(moves: seq<string>, i: nat, j: nat)
    requires Distinct(moves) && |moves| % 2 == 1 && i < |moves| && j < |moves|
    ensures Row(moves, i)[j] == Expected(i, j, |moves| / 2)
  {
    DetermineByDistance(moves, i, j);
    DistanceIsMod(i, j, |moves|);
  }

  lemma CountBelowStep(o: Outcome, i: nat, h: nat, k: nat)
    requires i < 2 * h + 1 && k < 2 * h + 1
    ensures CountBelow(o, i, h, k + 1) == CountBelow(o, i, h, k) + (if Expected(i, k, h) == o then 1 else 0)
  {
  }

  lemma {:induction false} RowPrefixCount(moves: seq<string>, i: nat, k: nat, o: Outcome)
    requires Distinct(moves) && |moves| % 2 == 1 && i < |moves| && k <= |moves|
    ensures Occurrences(Row(moves, i)[..k], o) == CountBelow(o, i, |moves| / 2, k)
  {
    if k > 0 {
      var r := Row(moves, i);
      var h := |moves| / 2;
      assert |moves| == 2 * h + 1;
      RowPrefixCount(moves, i, k - 1, o);
      OccurrencesPrefix(r, k - 1, o);
      assert r[k - 1] == Expected(i, k - 1, h) by {
        RowAt(moves, i, k - 1);
      }
      CountBelowStep(o, i, h, k - 1);
    }
  }

  /** Balance: against the other moves, each move of an odd-length,
      duplicate-free list wins exactly `n // 2` times, loses exactly `n // 2`
      times and draws only against itself. */
  lemma Balanced(moves: seq<string>, i: nat)
    requires Distinct(moves) && |moves| % 2 == 1 && i < |moves|
    ensures Occurrences(Row(moves, i), Win) == |moves| / 2
    ensures Occurrences(Row(moves, i), Lose) == |moves| / 2
    ensures Occurrences(Row(moves, i), Draw) == 1
  {
    var r := Row(moves, i);
    assert r[..|moves|] == r;
    RowPrefixCount(moves, i, |moves|, Win);
    RowPrefixCount(moves, i, |moves|, Lose);
    RowPrefixCount(moves, i, |moves|, Draw);
  }

  /** The classical game: paper beats rock, scissors beat paper, rock beats scissors. */
  lemma Classic()
    ensures Determine(["rock", "paper", "scissors"], "paper", "rock") == Win
    ensures Determine(["rock", "paper", "scissors"], "scissors", "paper") == Win
    ensures Determine(["rock", "paper", "scissors"], "rock", "scissors") == Win
    ensures Determine(["rock", "paper", "scissors"], "rock", "paper") == Lose
    ensures Determine(["rock", "paper", "scissors"], "paper", "scissors") == Lose
    ensures Determine(["rock", "paper", "scissors"], "scissors", "rock") == Lose
  {
    var moves := ["rock", "paper", "scissors"];
    assert Distinct(moves);
    assert Determine(moves, moves[1], moves[0]) == Win by { DetermineByDistance(moves, 1, 0); }
    assert Determine(moves, moves[2], moves[1]) == Win by { DetermineByDistance(moves, 2, 1); }
    assert Determine(moves, moves[0], moves[2]) == Win by { DetermineByDistance(moves, 0, 2); }
    assert Determine(moves, moves[0], moves[1]) == Lose by { DetermineByDistance(moves, 0, 1); }
    assert Determine(moves, moves[1], moves[2]) == Lose by { DetermineByDistance(moves, 1, 2); }
    assert Determine(moves, moves[2], moves[0]) == Lose by { DetermineByDistance(moves, 2, 0); }
  }
}
