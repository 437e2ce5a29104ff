/**
 * The logic functions of the puzzle over the mutable board itself: an
 * N-by-N array of labels (the source fixes N at nine).  Each method does
 * what its counterpart does, loop for loop, and is proved against the value
 * definitions of Grid, Rules and Checks by way of View, the board read as a
 * sequence of rows.
 */
module Engine {
  import opened Grid
  import opened Rules
  import opened Checks

  lemma ZeroProduct(a: int, n: int)
    requires n >= 1 && a * n == 0
    ensures a == 0
  {
  }

  /** With left rows of n still to cut from len > 0 entries, a full row of n is there. */
  lemma RowsLeft(left: int, n: int, len: int)
    requires n >= 1 && len > 0 && len == left * n
    ensures left >= 1 && len >= n && len - n == (left - 1) * n
  {
  }

  /** The board is square and has at least one cell. */
  predicate Square(b: array2<int>) {
    b.Length0 == b.Length1 && b.Length0 >= 1
  }

  /** The board's current contents, row by row. */
  function View(b: array2<int>): (g: Board)
    reads b
    ensures |g| == b.Length0
    ensures forall r :: 0 <= r < |g| ==> |g[r]| == b.Length1
    ensures forall r, c :: 0 <= r < b.Length0 && 0 <= c < b.Length1 ==> g[r][c] == b[r, c]
  {
    seq(b.Length0, r reads b requires 0 <= r < b.Length0 =>
      seq(b.Length1, c reads b requires 0 <= c < b.Length1 => b[r, c]))
  }

  /**
   * getTilePos: scans the rows top to bottom and each row left to right and
   * answers the first cell holding tile, or None when no cell does.
   */
  method GetTilePos(b: array2<int>, tile: int) returns (pos: Option<Pos>)
    requires Square(b)
    ensures pos == Find(View(b), tile)
    ensures pos.None? <==> !Occurs(View(b), tile)
    ensures pos.Some? ==> FirstAt(View(b), tile, pos.value)
  {
    ghost var g := View(b);
    var n := b.Length0;
    var r := 0;
    while r < n
      invariant 0 <= r <= n
      invariant Find(g, tile) == FindFrom(g, tile, r)
    {
      var c := 0;
      while c < n
        invariant 0 <= c <= n
        invariant IndexIn(g[r], tile, 0) == IndexIn(g[r], tile, c)
      {
        if b[r, c] == tile {
          return Some(Pos(r, c));
        }
        c := c + 1;
      }
      r := r + 1;
    }
    return None;
  }

  /** getBlankPos: the first cell holding the blank. */
  method GetBlankPos(b: array2<int>) returns (pos: Option<Pos>)
    requires Square(b)
    ensures pos.None? <==> !Occurs(View(b), 0)
    ensures pos.Some? ==> FirstAt(View(b), 0, pos.value)
    ensures pos == Find(View(b), 0)
  {
    pos := GetTilePos(b, 0);
  }

  /**
   * isValidMove: both the blank and the tile are found, and the first cells
   * holding them are 4-neighbours.
   */
  method IsValidMove(b: array2<int>, tile: int) returns (valid: bool)
    requires Square(b)
    ensures valid == ValidMove(View(b), tile)
  {
    var blankPos := GetTilePos(b, 0);
    var tilePos := GetTilePos(b, tile);
    if blankPos.None? || tilePos.None? {
      return false;
    }
    var br, bc := blankPos.value.row, blankPos.value.col;
    var r, c := tilePos.value.row, tilePos.value.col;
    valid := (Abs(br - r) == 1 && bc == c) || (Abs(bc - c) == 1 && br == r);
  }

  /**
   * The two writes of a slide: cell blank takes v, the label of cell at, and
   * then cell at takes the blank.
   */
  method WriteSlide(b: array2<int>, blank: Pos, at: Pos, v: int)
    requires Square(b) && InBounds(b.Length0, blank) && InBounds(b.Length0, at)
    requires v == b[at.row, at.col]
    modifies b
    ensures View(b) == Slide(old(View(b)), blank, at)
  {
    ghost var g := View(b);
    b[blank.row, blank.col] := v;
    b[at.row, at.col] := 0;
    BoardEq(View(b), Slide(g, blank, at));
  }

  /**
   * moveTile: a refused move changes nothing; an accepted one writes the
   * tile into the blank's cell and the blank into the tile's cell, which is
   * exactly Moved.
   */
  method MoveTile(b: array2<int>, tile: int) returns (moved: bool)
    requires Square(b)
    modifies b
    ensures moved == ValidMove(old(View(b)), tile)
    ensures !moved ==> View(b) == old(View(b))
    ensures moved ==> View(b) == Moved(old(View(b)), tile)
  {
    var valid := IsValidMove(b, tile);
    if !valid {
      return false;
    }
    var blankPos := GetTilePos(b, 0);
    var tilePos := GetTilePos(b, tile);
    WriteSlide(b, blankPos.value, tilePos.value, tile);
    return true;
  }

  /**
   * The neighbour list of one shuffleBoard iteration: p + d for each d of
   * Directions in order, kept when it lies on the n-by-n board.
   */
  method NeighborList(n: int, p: Pos) returns (validNeighbors: seq<Pos>)
    requires InBounds(n, p)
    ensures validNeighbors == Neighbors(n, p, Directions)
    ensures forall q :: q in validNeighbors <==> InBounds(n, q) && Adjacent(p, q)
  {
    validNeighbors := [];
    var d := 0;
    while d < |Directions|
      invariant 0 <= d <= |Directions|
      invariant validNeighbors == Neighbors(n, p, Directions[..d])
    {
      var (dr, dc) := Directions[d];
      var nr, nc := p.row + dr, p.col + dc;
      assert Directions[..d + 1] == Directions[..d] + [Directions[d]];
      NeighborsSnoc(n, p, Directions[..d], Directions[d]);
      if nr >= 0 && nr < n && nc >= 0 && nc < n {
        validNeighbors := validNeighbors + [Pos(nr, nc)];
      }
      d := d + 1;
    }
    assert Directions[..|Directions|] == Directions;
    NeighborsSpec(n, p);
  }

  /**
   * One iteration of shuffleBoard: the blank trades places with the
   * neighbour that roll picks, unless it has none.
   */
  method ShuffleStep(b: array2<int>, roll: real)
    requires Square(b) && Occurs(View(b), 0) && 0.0 <= roll < 1.0
    modifies b
    ensures View(b) == Step(old(View(b)), roll)
  {
    var blankPos := GetBlankPos(b);
    var validNeighbors := NeighborList(b.Length0, blankPos.value);
    if |validNeighbors| == 0 {
      return;
    }
    var q := validNeighbors[Pick(roll, |validNeighbors|)];
    var tileToMove := b[q.row, q.col];
    WriteSlide(b, blankPos.value, q, tileToMove);
  }

  /**
   * shuffleBoard: moves iterations, the i-th of which swaps the blank with
   * the neighbour rolls[i] picks.  The result is Shuffled on the rolls
   * consumed; a non-positive count leaves the board alone.
   */
  method ShuffleBoard(b: array2<int>, moves: int, rolls: seq<real>)
    requires Square(b) && Rolls(rolls) && moves <= |rolls|
    requires moves > 0 ==> Occurs(View(b), 0)
    modifies b
    ensures moves <= 0 ==> View(b) == old(View(b))
    ensures moves > 0 ==> View(b) == Shuffled(old(View(b)), rolls[..moves])
  {
    ghost var g0 := View(b);
    ghost var bound := if moves > 0 then moves else 0;
    var i := 0;
    assert rolls[..0] == [];
    while i < moves
      invariant 0 <= i <= bound <= |rolls|
      invariant Rolls(rolls[..i]) && (i > 0 ==> Occurs(g0, 0))
      invariant View(b) == Shuffled(g0, rolls[..i])
    {
      ghost var done, next := rolls[..i], rolls[..i + 1];
      assert next[..i] == done && next[i] == rolls[i];
      assert Rolls(next);
      ShuffleStep(b, rolls[i]);
      assert Shuffled(g0, next) == Step(Shuffled(g0, done), rolls[i]);
      i := i + 1;
    }
    assert i == bound;
  }

  /**
   * isSolved: the row-major reading is 1, 2, ..., N*N-1 and then the blank,
   * checked entry by entry with an early exit on the first mismatch.
   */
  method IsSolved(b: array2<int>) returns (solved: bool)
    requires Square(b)
    ensures solved == Solved(View(b))
  {
    var flat := Flatten(View(b));
    var total := b.Length0 * b.Length1;
    FlattenLength(View(b), b.Length0);
    var i := 0;
    while i < total - 1
      invariant 0 <= i <= total - 1
      invariant forall j :: 0 <= j < i ==> flat[j] == j + 1
    {
      if flat[i] != i + 1 {
        return false;
      }
      i := i + 1;
    }
    solved := flat[total - 1] == 0;
    if solved {
      assert flat == SolvedOrder(total);
    }
  }

  /** The seen tally of validateBoard: each label of flat with its count. */
  method CountSeen(flat: seq<int>) returns (seen: map<int, nat>)
    ensures seen == Tally(flat)
    ensures forall x :: x in seen <==> x in flat
  {
    seen := map[];
    var i := 0;
    while i < |flat|
      invariant 0 <= i <= |flat|
      invariant seen == Tally(flat[..i])
    {
      var num := flat[i];
      TallySnoc(flat[..i], num);
      assert flat[..i + 1] == flat[..i] + [num];
      seen := seen[num := (if num in seen then seen[num] else 0) + 1];
      i := i + 1;
    }
    assert flat[..i] == flat;
  }

  /**
   * The duplicates of validateBoard: every label whose tally is above one,
   * with that tally.
   */
  method CollectDuplicates(flat: seq<int>, seen: map<int, nat>) returns (duplicates: map<int, nat>)
    requires seen == Tally(flat)
    ensures duplicates == Duplicates(flat)
  {
    duplicates := map[];
    var i := 0;
    while i < |flat|
      invariant 0 <= i <= |flat|
      invariant duplicates == DuplicatesAmong(flat, flat[..i])
    {
      var num := flat[i];
      DuplicatesAmongSnoc(flat, flat[..i], num);
      assert flat[..i + 1] == flat[..i] + [num];
      if seen[num] > 1 {
        duplicates := duplicates[num := seen[num]];
      }
      i := i + 1;
    }
    assert flat[..i] == flat;
  }

  /** The missing list of validateBoard: the labels 0..total-1 not in numbers, ascending. */
  method CollectMissing(flat: seq<int>, numbers: set<int>, total: nat) returns (missing: seq<int>)
    requires numbers == Elems(flat)
    ensures missing == MissingBelow(flat, total)
  {
    missing := [];
    var k := 0;
    while k < total
      invariant 0 <= k <= total
      invariant missing == MissingBelow(flat, k)
    {
      if k !in numbers {
        missing := missing + [k];
      }
      k := k + 1;
    }
  }

  /**
   * validateBoard: None when the cells hold N*N distinct labels; otherwise a
   * report of every repeated label with its count and of every label in
   * 0..N*N-1 that no cell holds, ascending.
   */
  method ValidateBoard(b: array2<int>) returns (report: Option<Report>)
    requires Square(b)
    ensures report == Validate(View(b))
  {
    var flat := Flatten(View(b));
    var total := b.Length0 * b.Length1;
    var numbers := Elems(flat);
    if |numbers| == total {
      return None;
    }
    var seen := CountSeen(flat);
    var duplicates := CollectDuplicates(flat, seen);
    var missing := CollectMissing(flat, numbers, total);
    report := Some(Report(duplicates, missing));
  }

  /** The first loop of createBoard: 1, ..., total-1 pushed in order, then the blank. */
  method SolvedLabels(total: nat) returns (arr: seq<int>)
    requires total >= 1
    ensures arr == SolvedOrder(total)
  {
    arr := [];
    var i := 1;
    while i < total
      invariant 1 <= i <= total
      invariant arr == seq(i - 1, j => j + 1)
    {
      arr := arr + [i];
      i := i + 1;
    }
    arr := arr + [0];
  }

  /**
   * The second loop of createBoard: splice(0, n) cuts rows of n from the
   * front of arr until it is empty.  Cut from n*n entries, the rows are n
   * rows of n that read back as arr.
   */
  method CutRows(arr: seq<int>, n: nat) returns (newBoard: seq<seq<int>>)
    requires n >= 1 && |arr| == n * n
    ensures |newBoard| == n && Width(newBoard, n)
    ensures Flatten(newBoard) == arr
  {
    var rest := arr;
    newBoard := [];
    while |rest| > 0
      invariant Width(newBoard, n) && |newBoard| <= n
      invariant |rest| == (n - |newBoard|) * n
      invariant Flatten(newBoard) + rest == arr
      decreases |rest|
    {
      RowsLeft(n - |newBoard|, n, |rest|);
      var k := if n < |rest| then n else |rest|;
      var row := rest[..k];
      FlattenAppend(newBoard, row);
      assert rest == row + rest[k..];
      newBoard := newBoard + [row];
      rest := rest[k..];
    }
    ZeroProduct(n - |newBoard|, n);
  }

  /**
   * createBoard: the solved n-by-n board, whose row-major reading is
   * 1, 2, ..., n*n-1, 0.
   */
  method CreateBoard(n: nat) returns (b: array2<int>)
    requires n >= 1
    ensures fresh(b)
    ensures Square(b) && b.Length0 == n
    ensures Flatten(View(b)) == SolvedOrder(n * n)
    ensures Solved(View(b))
  {
    var arr := SolvedLabels(n * n);
    var newBoard := CutRows(arr, n);
    b := new int[n, n]((r, c) requires 0 <= r < |newBoard| && 0 <= c < |newBoard[r]| => newBoard[r][c]);
    BoardEq(View(b), newBoard);
  }
}
