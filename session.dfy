/**
 * The game session: one nine-by-nine board, the move counter, and the two
 * entry points that change them, startGame and handleTileClick.  The
 * invariant is that the board always holds the labels of the solved board
 * in some order, so validateBoard never reports and every move is between a
 * tile and the one blank.
 */
module Session {
  import opened Grid
  import opened Rules
  import opened Checks
  import opened Engine

  /** BOARD_SIZE. */
  const BoardSize: nat := 9

  /** The number of random blank moves startGame scrambles with. */
  const ShuffleMoves: nat := 1000

  class Game {
    var board: array2<int>
    var movesCount: nat
    /** What startGame's call of validateBoard returned. */
    var validationError: Option<Report>

    /** The board is BoardSize by BoardSize and a rearrangement of the solved labels. */
    ghost predicate Valid()
      reads this, board
    {
      && board.Length0 == BoardSize && board.Length1 == BoardSize
      && multiset(Flatten(View(board))) == multiset(SolvedOrder(BoardSize * BoardSize))
    }

    /**
     * startGame: the solved board scrambled by ShuffleMoves blank moves, the
     * counter at zero, and a validation that finds nothing to report.
     */
    constructor Start(rolls: seq<real>)
      requires Rolls(rolls) && |rolls| >= ShuffleMoves
      ensures Valid() && fresh(board)
      ensures movesCount == 0
      ensures validationError == None
    {
      var b := CreateBoard(BoardSize);
      ghost var solved := View(b);
      SolvedBlank(solved);
      ShuffleBoard(b, ShuffleMoves, rolls);
      PermutationIsValid(View(b));
      var report := ValidateBoard(b);
      board := b;
      movesCount := 0;
      validationError := report;
    }

    /**
     * handleTileClick: the counter goes up by one exactly when moveTile
     * succeeds, and the win is announced exactly when a successful move
     * leaves the board solved.  A refused click changes nothing.
     */
    method HandleTileClick(tileValue: int) returns (moved: bool, solved: bool)
      requires Valid()
      modifies this, board
      ensures Valid() && board == old(board)
      ensures moved == ValidMove(old(View(board)), tileValue)
      ensures moved ==> View(board) == Moved(old(View(board)), tileValue)
      ensures !moved ==> View(board) == old(View(board))
      ensures movesCount == old(movesCount) + (if moved then 1 else 0)
      ensures solved <==> moved && Solved(View(board))
      ensures validationError == old(validationError)
    {
      ghost var g := View(board);
      moved := MoveTile(board, tileValue);
      if moved {
        MoveEffect(g, tileValue);
        movesCount := movesCount + 1;
        solved := IsSolved(board);
      } else {
        solved := false;
      }
    }
  }
}
